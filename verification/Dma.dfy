/**
  The DMA manager: user mappings with pinned pages and kernel allocations handed to drivers, both
  revocable when a driver exits.

  Page tables, the buddy allocator and the IOVA allocator are outside the model.  Their answers
  are inputs: what a virtual page resolves to, which block an allocation returns, which IOVA a
  mapping request returns.  Any IOVA is accepted, also one whose page is mapped already, as in
  passthrough mode, where it is the physical address.  Pins are accounted for in every case; that
  every mapped page has one owner is claimed while all answers were pages not mapped before.
*/
module Dma {
  import opened Wrappers
  import opened DmaTables
  import opened Seqs
  import opened Words

  datatype Direction = ToDevice | FromDevice | Bidirection | NoDirection

  datatype DmaError = InvalidParams | OutOfMemory | IommuFault | WrongZone

  datatype CowOutcome = CowResolved | CowOutOfMemory | CowInvalidAddress

  /** What the page tables say about one virtual page: copy-on-write resolution, writability, and its frame. */
  datatype UserPage = UserPage(cow: CowOutcome, writable: Option<bool>, frame: Option<Frame>)

  const MAX_ALLOC_RECORDS: nat := 128

  predicate DeviceWrites(dir: Direction) { dir.FromDevice? || dir.Bidirection? }

  /** The three checks of one page, in their order: copy-on-write, permissions, translation. */
  function CheckPage(dir: Direction, page: UserPage): Result<Frame, DmaError>
  {
    if DeviceWrites(dir) && page.cow.CowOutOfMemory? then Err(OutOfMemory)
    else if DeviceWrites(dir) && page.cow.CowInvalidAddress? then Err(InvalidParams)
    else if page.writable.None? then Err(InvalidParams)
    else if DeviceWrites(dir) && !page.writable.value then Err(IommuFault)
    else if page.frame.None? then Err(InvalidParams)
    else Ok(page.frame.value)
  }

  /** The frames behind the first n pages from vaddr, or the error of the first page that fails. */
  function FramesBehind(dir: Direction, vaddr: u64, n: nat, pages: u64 -> UserPage): (r: Result<seq<Frame>, DmaError>)
    ensures r.Ok? ==> |r.value| == n
  {
    if n == 0 then Ok([])
    else match FramesBehind(dir, vaddr, n - 1, pages)
      case Err(e) => Err(e)
      case Ok(frames) =>
        match CheckPage(dir, pages(PageDown(AddPages(vaddr, n - 1))))
        case Err(e) => Err(e)
        case Ok(f) => Ok(frames + [f])
  }

  /** Page i contributes the frame behind virtual page i. */
  lemma FrameBehindPage(dir: Direction, vaddr: u64, n: nat, pages: u64 -> UserPage, i: nat)
    requires i < n && FramesBehind(dir, vaddr, n, pages).Ok?
    ensures Usable(dir, pages(PageAt(vaddr, i)))
    ensures pages(PageAt(vaddr, i)).frame == Some(FramesBehind(dir, vaddr, n, pages).value[i])
  {
    FramesFoundExactlyWhen(dir, vaddr, n, pages);
  }

  /** The virtual page that holds the byte i pages after vaddr. */
  function PageAt(vaddr: u64, i: nat): u64 { (vaddr + 4096 * i) % U64_SIZE / 4096 * 4096 }

  /** What the page tables must say of a page for DMA in this direction. */
  predicate Usable(dir: Direction, page: UserPage)
  {
    && page.writable != None && page.frame != None
    && (dir == FromDevice || dir == Bidirection ==> page.cow == CowResolved && page.writable == Some(true))
  }

  /** Why a page cannot be used; the first reason that applies decides. */
  predicate RefusedWith(dir: Direction, page: UserPage, e: DmaError)
  {
    var writes := dir == FromDevice || dir == Bidirection;
    && (writes && page.cow == CowOutOfMemory ==> e == OutOfMemory)
    && (writes && page.cow == CowInvalidAddress ==> e == InvalidParams)
    && ((writes ==> page.cow == CowResolved) ==>
          (if page.writable == None then e == InvalidParams
           else if writes && page.writable == Some(false) then e == IommuFault
           else e == InvalidParams))
  }

  lemma PageChecked(dir: Direction, vaddr: u64, i: nat, pages: u64 -> UserPage)
    ensures PageAt(vaddr, i) == PageDown(AddPages(vaddr, i))
    ensures var page := pages(PageAt(vaddr, i));
            && (CheckPage(dir, page).Ok? <==> Usable(dir, page))
            && (Usable(dir, page) ==> page.frame == Some(CheckPage(dir, page).value))
            && (!Usable(dir, page) ==> RefusedWith(dir, page, CheckPage(dir, page).error))
  {
  }

  /**
    The frames of a request are found if and only if every page is usable; frame i is then the frame
    of page i.  Otherwise the error is that of the first page that is not usable.
  */
  lemma {:induction false} FramesFoundExactlyWhen(dir: Direction, vaddr: u64, n: nat, pages: u64 -> UserPage)
    ensures var r := FramesBehind(dir, vaddr, n, pages);
            && (r.Ok? <==> forall i :: 0 <= i < n ==> Usable(dir, pages(PageAt(vaddr, i))))
            && (r.Ok? ==> forall i :: 0 <= i < n ==> pages(PageAt(vaddr, i)).frame == Some(r.value[i]))
            && (r.Err? ==> exists p :: 0 <= p < n && StopsAtPage(dir, vaddr, p, pages, r.error))
  {
    hide PageAt, Usable, RefusedWith, CheckPage, AddPages;
    if n > 0 {
      FramesFoundExactlyWhen(dir, vaddr, n - 1, pages);
      PageChecked(dir, vaddr, n - 1, pages);
      var before, r := FramesBehind(dir, vaddr, n - 1, pages), FramesBehind(dir, vaddr, n, pages);
      if before.Err? {
        var p :| 0 <= p < n - 1 && StopsAtPage(dir, vaddr, p, pages, r.error);
        assert !Usable(dir, pages(PageAt(vaddr, p)));
      } else if r.Err? {
        assert !Usable(dir, pages(PageAt(vaddr, n - 1)));
        assert StopsAtPage(dir, vaddr, n - 1, pages, r.error);
      }
    }
  }

  /** Page p is the first that is not usable, and e is why. */
  ghost predicate StopsAtPage(dir: Direction, vaddr: u64, p: nat, pages: u64 -> UserPage, e: DmaError)
  {
    && (forall i :: 0 <= i < p ==> Usable(dir, pages(PageAt(vaddr, i))))
    && !Usable(dir, pages(PageAt(vaddr, p)))
    && RefusedWith(dir, pages(PageAt(vaddr, p)), e)
  }

  lemma {:induction false} FirstErrorStays(dir: Direction, vaddr: u64, i: nat, n: nat, pages: u64 -> UserPage)
    requires i <= n && FramesBehind(dir, vaddr, i, pages).Err?
    ensures FramesBehind(dir, vaddr, n, pages) == FramesBehind(dir, vaddr, i, pages)
  {
    if i < n { FirstErrorStays(dir, vaddr, i, n - 1, pages); }
  }

  /**
    The answer to mapping n frames one after the other.  The first answer of the IOVA allocator
    gives the base; each later one must continue it.
  */
  function MapAnswer(replies: nat -> Result<u64, DmaError>, n: nat): Result<u64, DmaError>
  {
    if n == 0 then Ok(0)
    else match MapAnswer(replies, n - 1)
      case Err(e) => Err(e)
      case Ok(base) =>
        match replies(n - 1)
        case Err(e) => Err(e)
        case Ok(iova) =>
          if n == 1 then Ok(iova)
          else if iova != AddPages(base, n - 1) then Err(OutOfMemory)
          else Ok(base)
  }

  /** The pages the IOVA allocator answered with until the request was granted or given up. */
  function Answered(domain: nat, replies: nat -> Result<u64, DmaError>, n: nat): set<IovaKey>
  {
    if n == 0 then {}
    else
      var before := Answered(domain, replies, n - 1);
      if MapAnswer(replies, n - 1).Err? || replies(n - 1).Err? then before
      else before + {IovaKey(domain, replies(n - 1).value)}
  }

  lemma {:induction false} FirstMapErrorStays(domain: nat, replies: nat -> Result<u64, DmaError>, i: nat, n: nat)
    requires i <= n && MapAnswer(replies, i).Err?
    ensures MapAnswer(replies, n) == MapAnswer(replies, i)
    ensures Answered(domain, replies, n) == Answered(domain, replies, i)
  {
    if i < n { FirstMapErrorStays(domain, replies, i, n - 1); }
  }

  /** A page was answered exactly when it is that of an answer all of whose predecessors fit together. */
  lemma {:induction false} AnsweredExactlyWhen(domain: nat, replies: nat -> Result<u64, DmaError>, n: nat, k: IovaKey)
    ensures k in Answered(domain, replies, n) <==>
            k.domain == domain
            && exists i :: 0 <= i < n && replies(i) == Ok(k.iova) && forall j :: 0 <= j < i ==> Continues(replies, j)
  {
    hide Continues;
    if n > 0 {
      AnsweredExactlyWhen(domain, replies, n - 1, k);
      RangeAcceptedExactlyWhen(replies, n - 1);
      if k.domain == domain && replies(n - 1) == Ok(k.iova) && MapAnswer(replies, n - 1).Ok? {
        assert forall j :: 0 <= j < n - 1 ==> Continues(replies, j);
      }
    }
  }

  /** A granted request was answered with consecutive pages. */
  lemma {:induction false} AnsweredRange(domain: nat, replies: nat -> Result<u64, DmaError>, n: nat)
    requires MapAnswer(replies, n).Ok?
    ensures Answered(domain, replies, n) == KeySet(domain, MapAnswer(replies, n).value, n)
  {
    if n > 0 {
      AnsweredRange(domain, replies, n - 1);
      if n == 1 { assert AddPages(replies(0).value, 0) == replies(0).value; }
    }
  }

  /** Answer i continues the range that answer 0 started. */
  predicate Continues(replies: nat -> Result<u64, DmaError>, i: nat)
  {
    replies(0).Ok? && replies(i) == Ok((replies(0).value + 4096 * i) % U64_SIZE)
  }

  /**
    The IOVA answers are accepted if and only if each continues the first; otherwise the first that does
    not decides: its own error, or OutOfMemory for a page out of line.
  */
  lemma {:induction false} RangeAcceptedExactlyWhen(replies: nat -> Result<u64, DmaError>, n: nat)
    ensures var r := MapAnswer(replies, n);
            && (r.Ok? <==> forall i :: 0 <= i < n ==> Continues(replies, i))
            && (r.Ok? ==> if n == 0 then r.value == 0 else replies(0) == Ok(r.value))
            && (r.Err? ==> exists p :: 0 <= p < n && StopsAtReply(replies, p, r.error))
  {
    hide AddPages;
    if n > 0 {
      RangeAcceptedExactlyWhen(replies, n - 1);
      var before, r := MapAnswer(replies, n - 1), MapAnswer(replies, n);
      if before.Err? {
        var p :| 0 <= p < n - 1 && StopsAtReply(replies, p, r.error);
        assert !Continues(replies, p);
      } else {
        ReplyChecked(replies, n - 1);
        assert n > 1 ==> Continues(replies, 0);
        if r.Err? {
          assert !Continues(replies, n - 1);
          assert StopsAtReply(replies, n - 1, r.error);
        }
      }
    }
  }

  lemma ReplyChecked(replies: nat -> Result<u64, DmaError>, i: nat)
    ensures Continues(replies, i) <==> replies(0).Ok? && replies(i) == Ok(AddPages(replies(0).value, i))
    ensures replies(0).Ok? ==> AddPages(replies(0).value, 0) == replies(0).value
  {
  }

  ghost predicate StopsAtReply(replies: nat -> Result<u64, DmaError>, p: nat, e: DmaError)
  {
    && (forall i :: 0 <= i < p ==> Continues(replies, i))
    && !Continues(replies, p)
    && e == if replies(p).Err? then replies(p).error else OutOfMemory
  }

  /** In passthrough mode the IOVA of a frame is its physical address: only consecutive frames can be mapped. */
  lemma {:induction false} PassthroughGrantsExactlyWhen(replies: nat -> Result<u64, DmaError>, frames: seq<Frame>,
                                                        n: nat)
    requires 0 < n <= |frames| && forall i :: 0 <= i < |frames| ==> frames[i] * PAGE_SIZE < U64_SIZE
    requires forall i :: 0 <= i < |frames| ==> replies(i) == Ok(frames[i] * PAGE_SIZE)
    ensures MapAnswer(replies, n).Ok? <==>
            forall i :: 0 <= i < n ==> frames[i] * PAGE_SIZE == AddPages(frames[0] * PAGE_SIZE, i)
    ensures MapAnswer(replies, n).Ok? ==> MapAnswer(replies, n).value == frames[0] * PAGE_SIZE
  {
    if n == 1 {
      assert MapAnswer(replies, 0) == Ok(0);
    } else {
      PassthroughGrantsExactlyWhen(replies, frames, n - 1);
    }
  }

  /** What a mapping request answers: the IOVA base and the frames. */
  function RequestAnswer(vaddr: u64, size: u64, dir: Direction, pages: u64 -> UserPage,
                         replies: nat -> Result<u64, DmaError>): Result<(u64, seq<Frame>), DmaError>
  {
    if size == 0 then Err(InvalidParams)
    else match FramesBehind(dir, vaddr, PageCount(size), pages)
      case Err(e) => Err(e)
      case Ok(frames) =>
        match MapAnswer(replies, |frames|)
        case Err(e) => Err(e)
        case Ok(base) => Ok((base, frames))
  }

  /** A request is granted exactly when it is not empty, all its pages are usable and the IOVA answers fit together. */
  lemma RequestGrantedExactlyWhen(vaddr: u64, size: u64, dir: Direction, pages: u64 -> UserPage,
                                  replies: nat -> Result<u64, DmaError>)
    ensures var r, n := RequestAnswer(vaddr, size, dir, pages, replies), PageCount(size);
            && (r.Ok? <==> size > 0 && (forall i :: 0 <= i < n ==> Usable(dir, pages(PageAt(vaddr, i))))
                           && forall i :: 0 <= i < n ==> Continues(replies, i))
            && (r.Ok? ==> |r.value.1| == n && (if n == 0 then r.value.0 == 0 else replies(0) == Ok(r.value.0))
                          && forall i :: 0 <= i < n ==> pages(PageAt(vaddr, i)).frame == Some(r.value.1[i]))
            && (size == 0 ==> r == Err(InvalidParams))
  {
    hide Usable, PageAt, Continues, FramesBehind, MapAnswer, PageCount;
    FramesFoundExactlyWhen(dir, vaddr, PageCount(size), pages);
    FramesAreAsMany(dir, vaddr, PageCount(size), pages);
    RangeAcceptedExactlyWhen(replies, PageCount(size));
  }

  lemma FramesAreAsMany(dir: Direction, vaddr: u64, n: nat, pages: u64 -> UserPage)
    ensures FramesBehind(dir, vaddr, n, pages).Ok? ==> |FramesBehind(dir, vaddr, n, pages).value| == n
  {
  }

  /** The pages the IOVA allocator answers a request with: none before all frames are pinned. */
  function RequestKeys(vaddr: u64, size: u64, dir: Direction, domain: nat, pages: u64 -> UserPage,
                       replies: nat -> Result<u64, DmaError>): set<IovaKey>
  {
    if size == 0 || FramesBehind(dir, vaddr, PageCount(size), pages).Err? then {}
    else Answered(domain, replies, PageCount(size))
  }

  /** A request whose size wraps is granted at IOVA 0, whatever the pages, and its record holds no frame and no page. */
  lemma WrappedRequestMapsNothing(m: map<IovaKey, IovaMapping>, pid: nat, vaddr: u64, size: u64, dir: Direction,
                                  domain: nat, pages: u64 -> UserPage, replies: nat -> Result<u64, DmaError>)
    requires size > U64_SIZE - PAGE_SIZE
    ensures RequestAnswer(vaddr, size, dir, pages, replies) == Ok((0, []))
    ensures MapPages(m, domain, 0, [], 0) == m && RecordKeys(DmaRecord(pid, domain, 0, [], size)) == {}
  {
    WrappedSizeIsNoPage(size);
  }

  // ---------------------------------------------------------------- which bytes a mapping covers

  /** Virtual page i of a request holds the byte at address a. */
  predicate PageHolds(vaddr: u64, i: nat, a: nat)
  {
    PageDown(AddPages(vaddr, i)) <= a < PageDown(AddPages(vaddr, i)) + PAGE_SIZE
  }

  /** Every byte of the buffer lies in one of the request's pages. */
  ghost predicate BufferCovered(vaddr: u64, size: u64)
  {
    forall a {:trigger ByteCovered(vaddr, size, a)} :: vaddr <= a < vaddr + size ==> ByteCovered(vaddr, size, a)
  }

  ghost predicate ByteCovered(vaddr: u64, size: u64, a: nat)
  {
    exists i: nat :: i < PageCount(size) && PageHolds(vaddr, i, a)
  }

  /** Whole pages do not change the position in a page. */
  lemma {:induction false} OffsetStays(x: nat, i: nat)
    ensures (x + i * PAGE_SIZE) % PAGE_SIZE == x % PAGE_SIZE
  {
    if i > 0 {
      OffsetStays(x, i - 1);
      OnePageOn(x + (i - 1) * PAGE_SIZE);
      assert x + i * PAGE_SIZE == x + (i - 1) * PAGE_SIZE + PAGE_SIZE;
    }
  }

  lemma OnePageOn(x: nat)
    ensures (x + PAGE_SIZE) % PAGE_SIZE == x % PAGE_SIZE
  {
  }

  lemma PageOfRequest(vaddr: u64, i: nat)
    requires vaddr + i * PAGE_SIZE < U64_SIZE
    ensures PageDown(AddPages(vaddr, i)) == PageDown(vaddr) + i * PAGE_SIZE
  {
    OffsetStays(vaddr, i);
    assert AddPages(vaddr, i) == vaddr + i * PAGE_SIZE;
  }

  lemma LastPageStarts(vaddr: u64, size: u64, i: nat)
    requires vaddr + size <= U64_SIZE && i < PageCount(size)
    ensures vaddr + i * PAGE_SIZE < U64_SIZE
  {
  }

  /** The pages of a request cover its buffer exactly when the buffer does not start too far into its first page. */
  lemma CoveredExactlyWhen(vaddr: u64, size: u64)
    requires size > 0 && vaddr + size <= U64_SIZE
    ensures BufferCovered(vaddr, size) <==> vaddr % PAGE_SIZE + size <= PAGE_SIZE * PageCount(size)
  {
    var n := PageCount(size);
    hide PageCount, AddPages;
    if BufferCovered(vaddr, size) {
      var a := vaddr + size - 1;
      assert ByteCovered(vaddr, size, a);
      var i: nat :| i < n && PageHolds(vaddr, i, a);
      LastPageStarts(vaddr, size, i);
      PageOfRequest(vaddr, i);
    }
    if vaddr % PAGE_SIZE + size <= PAGE_SIZE * n {
      forall a | vaddr <= a < vaddr + size ensures ByteCovered(vaddr, size, a) {
        var i := (a - PageDown(vaddr)) / PAGE_SIZE;
        LastPageStarts(vaddr, size, i);
        PageOfRequest(vaddr, i);
        assert PageHolds(vaddr, i, a);
      }
    }
  }

  /** Two bytes across a page border: one page is pinned and mapped, and the second byte is not in it. */
  lemma UnalignedBufferIsCut()
    ensures PageCount(2) == 1 && !BufferCovered(4095, 2) && !PageHolds(4095, 0, 4096)
  {
    CoveredExactlyWhen(4095, 2);
  }

  /** The first record of the table for an IOVA in a domain, or the length of the table. */
  function FirstRecord(records: seq<DmaRecord>, iova: nat, domain: nat): (p: nat)
    ensures p <= |records|
    ensures p < |records| ==> records[p].iovaBase == iova && records[p].domain == domain
    ensures forall i :: 0 <= i < p ==> !(records[i].iovaBase == iova && records[i].domain == domain)
  {
    if records == [] || (records[0].iovaBase == iova && records[0].domain == domain) then 0
    else 1 + FirstRecord(records[1..], iova, domain)
  }

  /** The IOVA table with the pages of `size` bytes from `frame` added at `iova`. */
  function WithRange(m: map<IovaKey, IovaMapping>, frame: Frame, size: nat, domain: nat, iova: nat)
    : map<IovaKey, IovaMapping>
  {
    MapPages(m, domain, iova, BlockFrames(frame, PageCount(size)), PageCount(size))
  }

  /** For one page that is one key. */
  lemma OnePage(m: map<IovaKey, IovaMapping>, frame: Frame, domain: nat, iova: u64)
    ensures WithRange(m, frame, PAGE_SIZE, domain, iova)
            == m[IovaKey(domain, iova) := IovaMapping(frame * PAGE_SIZE, PAGE_SIZE)]
  {
    var fs := BlockFrames(frame, 1);
    assert PageCount(PAGE_SIZE) == 1 && fs[0] == frame && AddPages(iova, 0) == iova;
    assert MapPages(m, domain, iova, fs, 0) == m;
  }

  /** A page that does not continue the range is unmapped together with it. */
  lemma StrayUnmapped(m: map<IovaKey, IovaMapping>, domain: nat, base: nat, frames: seq<Frame>, n: nat, iova: u64)
    requires n < |frames|
    ensures MapPages(m, domain, base, frames, n)[IovaKey(domain, iova) := IovaMapping(frames[n] * PAGE_SIZE, PAGE_SIZE)]
              - {IovaKey(domain, iova)} - KeySet(domain, base, n)
            == m - (KeySet(domain, base, n) + {IovaKey(domain, iova)})
  {
    hide KeySet;
    MappedKeys(m, domain, base, frames, n);
  }

  /** A range can be recorded. */
  lemma RangeRecorded(pins: seq<PinnedFrame>, flagged: set<Frame>, records: seq<DmaRecord>,
                      m: map<IovaKey, IovaMapping>, exclusive: bool, slots: seq<Option<AllocRecord>>,
                      strayed: multiset<IovaKey>, r: AllocRecord)
    requires Consistent(pins, flagged, records, m, Reserved(slots, strayed), exclusive) && FirstFree(slots) < |slots|
    ensures Consistent(pins, flagged, records, WithRange(m, r.frame, r.size, r.domain, r.iova),
                       Reserved(Filled(slots, r), strayed), exclusive && AllocationKeys(r) !! m.Keys)
  {
    hide Consistent, Reserved, Filled, MapPages;
    var frames := BlockFrames(r.frame, PageCount(r.size));
    ConsistentAfterFill(pins, flagged, records, m, exclusive, slots, strayed, r, frames);
  }

  /** A range can be taken back. */
  lemma RangeTakenBack(pins: seq<PinnedFrame>, flagged: set<Frame>, records: seq<DmaRecord>,
                       m: map<IovaKey, IovaMapping>, others: multiset<IovaKey>, exclusive: bool, r: AllocRecord)
    requires Consistent(pins, flagged, records, m, others, exclusive)
    ensures WithRange(m, r.frame, r.size, r.domain, r.iova) - AllocationKeys(r) == m - AllocationKeys(r)
    ensures Consistent(pins, flagged, records, m - AllocationKeys(r), others,
                       exclusive && AllocationKeys(r) !! m.Keys)
  {
    hide Consistent, MapPages;
    var frames := BlockFrames(r.frame, PageCount(r.size));
    UnmapLeavesOthers(m, r.domain, r.iova, frames, |frames|);
    ConsistentAfterRollback(pins, flagged, records, m, others, exclusive, AllocationKeys(r));
  }

  /** What recording an allocation at the IOVA answered for it comes to: not yet recorded, and a free slot. */
  function MapReply(slots: seq<Option<AllocRecord>>, pid: nat, domain: nat, reply: Result<u64, DmaError>)
    : Result<u64, DmaError>
  {
    if reply.Err? then reply
    else if FirstAllocation(slots, pid, reply.value, domain) < |slots| then Err(InvalidParams)
    else if FirstFree(slots) == |slots| then Err(OutOfMemory)
    else reply
  }

  /** What an allocation request answers: the window and the IOVA, or the error of the first step that fails. */
  function AllocAnswer(slots: seq<Option<AllocRecord>>, pid: nat, size: u64, domain: nat, buddy: Option<Frame>,
                       window: Result<u64, DmaError>, reply: Result<u64, DmaError>): Result<(u64, u64), DmaError>
  {
    if size == 0 then Err(InvalidParams)
    else if buddy.None? then Err(OutOfMemory)
    else if window.Err? then Err(window.error)
    else match MapReply(slots, pid, domain, reply)
      case Err(e) => Err(e)
      case Ok(iova) => Ok((window.value, iova))
  }

  /** The process has an allocation at this IOVA already. */
  ghost predicate HasAllocation(slots: seq<Option<AllocRecord>>, pid: nat, iova: nat, domain: nat)
  {
    exists r :: Some(r) in slots && r.pid == pid && r.iova == iova && r.domain == domain
  }

  /**
    An allocation is granted if and only if it is not empty, there are a block, a window and an IOVA for
    it, the process has none at that IOVA and a slot is free; it then answers with that window and that
    IOVA.  Otherwise the error is that of the first of these that fails.
  */
  lemma AllocGrantedExactlyWhen(slots: seq<Option<AllocRecord>>, pid: nat, size: u64, domain: nat, buddy: Option<Frame>,
                                window: Result<u64, DmaError>, reply: Result<u64, DmaError>)
    ensures var r := AllocAnswer(slots, pid, size, domain, buddy, window, reply);
            && (r.Ok? <==> size > 0 && buddy != None && window.Ok? && reply.Ok?
                           && !HasAllocation(slots, pid, reply.value, domain) && None in slots)
            && (r.Ok? ==> window == Ok(r.value.0) && reply == Ok(r.value.1))
            && (size == 0 ==> r == Err(InvalidParams))
            && (size > 0 && buddy == None ==> r == Err(OutOfMemory))
            && (size > 0 && buddy != None ==>
                  && (window.Err? ==> r == Err(window.error))
                  && (window.Ok? && reply.Err? ==> r == Err(reply.error))
                  && (window.Ok? && reply.Ok? && HasAllocation(slots, pid, reply.value, domain) ==>
                        r == Err(InvalidParams))
                  && (window.Ok? && reply.Ok? && !HasAllocation(slots, pid, reply.value, domain) && None !in slots ==>
                        r == Err(OutOfMemory)))
  {
    if reply.Ok? { AllocationFound(slots, pid, reply.value, domain); }
    SlotFound(slots);
    hide FirstAllocation, FirstFree, HasAllocation;
  }

  lemma AllocationFound(slots: seq<Option<AllocRecord>>, pid: nat, iova: nat, domain: nat)
    ensures FirstAllocation(slots, pid, iova, domain) < |slots| <==> HasAllocation(slots, pid, iova, domain)
  {
    hide FirstAllocation;
    var p := FirstAllocation(slots, pid, iova, domain);
    if p < |slots| {
      assert SameAllocation(slots[p], pid, iova, domain) && slots[p] == Some(slots[p].value);
    }
    if HasAllocation(slots, pid, iova, domain) {
      var r :| Some(r) in slots && r.pid == pid && r.iova == iova && r.domain == domain;
      var i :| 0 <= i < |slots| && slots[i] == Some(r);
      assert SameAllocation(slots[i], pid, iova, domain);
    }
  }

  lemma SlotFound(slots: seq<Option<AllocRecord>>)
    ensures FirstFree(slots) < |slots| <==> None in slots
  {
    hide FirstFree;
    if None in slots {
      var i :| 0 <= i < |slots| && slots[i] == None;
    } else {
      forall i | 0 <= i < |slots| ensures slots[i].Some? { assert slots[i] in slots; }
    }
  }

  /** The pages of an answer for `size` bytes. */
  function ReplyKeys(size: nat, domain: nat, reply: Result<u64, DmaError>): set<IovaKey>
  {
    if reply.Err? then {} else KeySet(domain, reply.value, PageCount(size))
  }

  /** The pages the IOVA allocator answers an allocation with: none before block and window are there. */
  function AllocReplyKeys(size: nat, domain: nat, buddy: Option<Frame>, window: Result<u64, DmaError>,
                          reply: Result<u64, DmaError>): set<IovaKey>
  {
    if size == 0 || buddy.None? || window.Err? then {} else ReplyKeys(size, domain, reply)
  }

  class Manager {
    var pinned: seq<PinnedFrame>
    var flagged: set<Frame>
    var records: seq<DmaRecord>
    var iovas: map<IovaKey, IovaMapping>
    const allocs: array<Option<AllocRecord>>
    /** The contents of `allocs`. */
    ghost var slots: seq<Option<AllocRecord>>
    /** The IOVA pages of forgotten allocations, which stay mapped. */
    ghost var strayed: multiset<IovaKey>
    /** The IOVA pages of the slots and those that strayed. */
    ghost var reserved: multiset<IovaKey>
    /** Every IOVA answer so far was a page that was not mapped. */
    ghost var exclusive: bool
    ghost var handedOut: multiset<Block>
    ghost var givenBack: multiset<Block>
    /** Blocks that are neither in a slot nor given back. */
    ghost var leaked: multiset<Block>

    /** Every pin is counted by a live record; while answers are exclusive, the mapped pages are those with an owner. */
    ghost predicate MapsOk()
      reads this
    {
      Consistent(pinned, flagged, records, iovas, reserved, exclusive)
    }

    /** Every block of the buddy allocator was given back, was leaked, or sits in one slot. */
    ghost predicate SlotsOk()
      reads this`slots, this`strayed, this`reserved, this`handedOut, this`givenBack, this`leaked, allocs
    {
      allocs[..] == slots && reserved == Reserved(slots, strayed) && Conserved(handedOut, givenBack + leaked, slots)
    }

    constructor ()
      ensures MapsOk() && SlotsOk() && exclusive && leaked == multiset{} && strayed == multiset{} && fresh(allocs)
      ensures records == [] && pinned == [] && |slots| == MAX_ALLOC_RECORDS
              && forall i :: 0 <= i < |slots| ==> slots[i] == None
    {
      pinned, flagged, records, iovas := [], {}, [], map[];
      allocs := new Option<AllocRecord>[MAX_ALLOC_RECORDS](_ => None);
      reserved, strayed, handedOut, givenBack, leaked := multiset{}, multiset{}, multiset{}, multiset{}, multiset{};
      exclusive := true;
      new;
      slots := allocs[..];
      EmptyTable(slots);
    }

    // ------------------------------------------------------------ pinning

    method FindPin(f: Frame) returns (i: nat)
      ensures i <= |pinned| && (i < |pinned| ==> pinned[i].frame == f)
      ensures forall k :: 0 <= k < i ==> pinned[k].frame != f
    {
      i := 0;
      while i < |pinned| && pinned[i].frame != f
        invariant i <= |pinned| && forall k :: 0 <= k < i ==> pinned[k].frame != f
      {
        i := i + 1;
      }
    }

    method PinFrame(f: Frame)
      requires Flagged(pinned, flagged)
      modifies this`pinned, this`flagged
      ensures Flagged(pinned, flagged) && pinned == Pin(old(pinned), f)
    {
      var i := FindPin(f);
      PinAt(pinned, f, i);
      FlaggedAfterPin(pinned, flagged, f);
      if i < |pinned| {
        RefsAt(pinned, f, i);
        TidyEntry(pinned, i);
        assert flagged + {f} == flagged;
        pinned := pinned[i := PinnedFrame(f, pinned[i].refs + 1)];
      } else {
        flagged := flagged + {f};
        pinned := pinned + [PinnedFrame(f, 1)];
      }
    }

    method UnpinFrame(f: Frame)
      requires Flagged(pinned, flagged)
      modifies this`pinned, this`flagged
      ensures Flagged(pinned, flagged) && pinned == Unpin(old(pinned), f)
    {
      var i := FindPin(f);
      UnpinAt(pinned, f, i);
      RefsAt(pinned, f, i);
      FlaggedAfterUnpin(pinned, flagged, f);
      if i < |pinned| {
        TidyEntry(pinned, i);
        if pinned[i].refs > 1 {
          pinned := pinned[i := PinnedFrame(f, pinned[i].refs - 1)];
        } else {
          pinned := pinned[..i] + pinned[i + 1..];
          flagged := flagged - {f};
        }
      }
    }

    /** Releases the given references; what is left is literally the table from before they were taken. */
    method RollbackPinned(frames: seq<Frame>, ghost base: seq<PinnedFrame>)
      requires Flagged(pinned, flagged) && PinnedOver(base, pinned, multiset(frames))
      modifies this`pinned, this`flagged
      ensures Flagged(pinned, flagged) && pinned == base
    {
      for k := 0 to |frames|
        invariant Flagged(pinned, flagged) && PinnedOver(base, pinned, multiset(frames[k..]))
      {
        OneLessOver(base, pinned, frames[k..]);
        assert frames[k..][1..] == frames[k + 1..];
        UnpinFrame(frames[k]);
      }
      NothingLeftOver(base, pinned);
    }

    /** Checks and pins n pages; on the first failure every pin taken so far is released again. */
    method PinPages(dir: Direction, vaddr: u64, n: nat, pages: u64 -> UserPage)
      returns (r: Result<seq<Frame>, DmaError>)
      requires Flagged(pinned, flagged)
      modifies this`pinned, this`flagged
      ensures Flagged(pinned, flagged) && r == FramesBehind(dir, vaddr, n, pages)
      ensures r.Err? ==> pinned == old(pinned)
      ensures r.Ok? ==> PinnedOver(old(pinned), pinned, multiset(r.value))
    {
      ghost var before := pinned;
      var frames: seq<Frame> := [];
      NothingOver(before);
      for i := 0 to n
        invariant FramesBehind(dir, vaddr, i, pages) == Ok(frames)
        invariant Flagged(pinned, flagged) && PinnedOver(before, pinned, multiset(frames))
      {
        var check := CheckPage(dir, pages(PageDown(AddPages(vaddr, i))));
        if check.Err? {
          FirstErrorStays(dir, vaddr, i + 1, n, pages);
          RollbackPinned(frames, before);
          return Err(check.error);
        }
        OneMoreOver(before, pinned, frames, check.value);
        PinFrame(check.value);
        frames := frames + [check.value];
      }
      r := Ok(frames);
    }

    // ------------------------------------------------------------ IOVA pages

    /** One request to the IOVA allocator for the pages of `size` bytes from `frame`, whose answer is `reply`. */
    method IovaMap(frame: Frame, size: nat, domain: nat, reply: Result<u64, DmaError>)
      returns (r: Result<u64, DmaError>)
      modifies this`iovas
      ensures r == reply
      ensures iovas == if r.Ok? then WithRange(old(iovas), frame, size, domain, r.value) else old(iovas)
    {
      if reply.Ok? {
        iovas := WithRange(iovas, frame, size, domain, reply.value);
      }
      return reply;
    }

    method UnmapRange(domain: nat, base: nat, n: nat)
      modifies this`iovas
      ensures iovas == old(iovas) - KeySet(domain, base, n)
    {
      for i := 0 to n
        invariant iovas == old(iovas) - KeySet(domain, base, i)
      {
        iovas := iovas - {PageKey(domain, base, i)};
      }
    }

    /** Maps the frames one page after the other; on failure every page answered so far is unmapped again. */
    method MapPinned(frames: seq<Frame>, domain: nat, replies: nat -> Result<u64, DmaError>)
      returns (r: Result<u64, DmaError>)
      modifies this`iovas
      ensures r == MapAnswer(replies, |frames|)
      ensures r.Err? ==> iovas == old(iovas) - Answered(domain, replies, |frames|)
      ensures r.Ok? ==> iovas == MapPages(old(iovas), domain, r.value, frames, |frames|)
    {
      hide WithRange, KeySet;
      ghost var before := iovas;
      var base: u64 := 0;
      for i := 0 to |frames|
        invariant MapAnswer(replies, i) == Ok(base) && iovas == MapPages(before, domain, base, frames, i)
      {
        AnsweredRange(domain, replies, i);
        UnmapLeavesOthers(before, domain, base, frames, i);
        var answer := IovaMap(frames[i], PAGE_SIZE, domain, replies(i));
        if answer.Err? {
          FirstMapErrorStays(domain, replies, i + 1, |frames|);
          UnmapRange(domain, base, i);
          return answer;
        }
        OnePage(MapPages(before, domain, base, frames, i), frames[i], domain, answer.value);
        if i == 0 {
          base := answer.value;
          assert AddPages(base, 0) == base;
        } else if answer.value != AddPages(base, i) {
          FirstMapErrorStays(domain, replies, i + 1, |frames|);
          iovas := iovas - {IovaKey(domain, answer.value)};
          UnmapRange(domain, base, i);
          StrayUnmapped(before, domain, base, frames, i, answer.value);
          return Err(OutOfMemory);
        }
      }
      r := Ok(base);
    }

    // ------------------------------------------------------------ user mappings

    /**
      All or nothing: on an error pins, flags and records are what they were, and the pages answered
      so far are unmapped, which restores the IOVA table exactly when none of them was in it.
    */
    method DmaMap(pid: nat, vaddr: u64, size: u64, dir: Direction, domain: nat, pages: u64 -> UserPage,
                  replies: nat -> Result<u64, DmaError>) returns (r: Result<u64, DmaError>)
      requires MapsOk()
      modifies this`pinned, this`flagged, this`records, this`iovas, this`exclusive
      ensures MapsOk()
      ensures exclusive == (old(exclusive)
                            && RequestKeys(vaddr, size, dir, domain, pages, replies) !! old(iovas).Keys)
      ensures match RequestAnswer(vaddr, size, dir, pages, replies)
              case Err(e) =>
                r == Err(e)
                && pinned == old(pinned) && flagged == old(flagged) && records == old(records)
                && iovas == old(iovas) - RequestKeys(vaddr, size, dir, domain, pages, replies)
                && (iovas == old(iovas) <==>
                    RequestKeys(vaddr, size, dir, domain, pages, replies) !! old(iovas).Keys)
              case Ok((base, frames)) =>
                r == Ok(base)
                && records == old(records) + [DmaRecord(pid, domain, base, frames, size)]
                && iovas == MapPages(old(iovas), domain, base, frames, |frames|)
    {
      hide Consistent, Flagged, PinnedOver, FramesBehind, MapAnswer, Answered, MapPages, KeySet, PageCount;
      WithoutIsSameExactlyWhen(iovas, RequestKeys(vaddr, size, dir, domain, pages, replies));
      if size == 0 {
        return Err(InvalidParams);
      }
      ConsistentParts(pinned, flagged, records, iovas, reserved, exclusive);
      var checked := PinPages(dir, vaddr, PageCount(size), pages);
      if checked.Err? {
        SameFlags(pinned, flagged, old(flagged));
        return Err(checked.error);
      }
      var frames := checked.value;
      ghost var keys := Answered(domain, replies, |frames|);
      var mapped := MapPinned(frames, domain, replies);
      exclusive := exclusive && keys !! old(iovas).Keys;
      if mapped.Err? {
        RollbackPinned(frames, old(pinned));
        SameFlags(pinned, flagged, old(flagged));
        ConsistentAfterRollback(pinned, flagged, records, old(iovas), reserved, old(exclusive), keys);
        return mapped;
      }
      var record := DmaRecord(pid, domain, mapped.value, frames, size);
      AnsweredRange(domain, replies, |frames|);
      ConsistentAfterMap(old(pinned), old(flagged), pinned, flagged, records, old(iovas), reserved, old(exclusive),
                         record);
      records := records + [record];
      return mapped;
    }

    method UnpinAll(frames: seq<Frame>, ghost kept: multiset<Frame>)
      requires Flagged(pinned, flagged) && Counts(pinned, kept + multiset(frames))
      modifies this`pinned, this`flagged
      ensures Flagged(pinned, flagged) && Counts(pinned, kept)
    {
      for k := 0 to |frames|
        invariant Flagged(pinned, flagged) && Counts(pinned, kept + multiset(frames[k..]))
      {
        assert frames[k..] == [frames[k]] + frames[k + 1..];
        CountsAfterUnpin(pinned, kept + multiset(frames[k..]), frames[k]);
        assert kept + multiset(frames[k..]) - multiset{frames[k]} == kept + multiset(frames[k + 1..]);
        UnpinFrame(frames[k]);
      }
    }

    /** Gives up record i: its entry, its IOVA pages, its pins. */
    method ReleaseRecord(i: nat)
      requires MapsOk() && i < |records|
      modifies this`pinned, this`flagged, this`records, this`iovas
      ensures MapsOk()
      ensures records == old(records)[..i] + old(records)[i + 1..]
      ensures iovas == old(iovas) - RecordKeys(old(records)[i])
    {
      hide Consistent;
      var record := records[i];
      ConsistentWithout(pinned, flagged, records, iovas, reserved, exclusive, i);
      records := records[..i] + records[i + 1..];
      UnmapRange(record.domain, record.iovaBase, PageCount(record.size));
      UnpinAll(record.frames, HeldFrames(records));
      ConsistentFrom(pinned, flagged, records, iovas, reserved, exclusive);
    }

    method FindRecord(iova: u64, domain: nat) returns (p: nat)
      ensures p == FirstRecord(records, iova, domain)
    {
      p := 0;
      while p < |records| && !(records[p].iovaBase == iova && records[p].domain == domain)
        invariant p <= |records|
        invariant forall i :: 0 <= i < p ==> !(records[i].iovaBase == iova && records[i].domain == domain)
      {
        p := p + 1;
      }
    }

    /** Releases the first record for this IOVA and domain, if there is one. */
    method DmaUnmap(iova: u64, domain: nat) returns (r: Result<(), DmaError>)
      requires MapsOk()
      modifies this`pinned, this`flagged, this`records, this`iovas
      ensures MapsOk()
      ensures var p := FirstRecord(old(records), iova, domain);
              if p == |old(records)| then
                r == Err(InvalidParams)
                && pinned == old(pinned) && flagged == old(flagged) && records == old(records) && iovas == old(iovas)
              else
                r == Ok(())
                && records == old(records)[..p] + old(records)[p + 1..]
                && iovas == old(iovas) - RecordKeys(old(records)[p])
    {
      hide Consistent, FirstRecord, RecordKeys;
      var p := FindRecord(iova, domain);
      if p == |records| {
        return Err(InvalidParams);
      }
      ReleaseRecord(p);
      return Ok(());
    }

    /** The first n of the records `before` have been gone through; the next one is record i. */
    ghost predicate Revoking(before: seq<DmaRecord>, mapped: map<IovaKey, IovaMapping>, n: nat, pid: nat, i: nat)
      reads this
    {
      RevokedUpTo(before, mapped, n, pid, i, records, iovas)
    }

    method RevokeNext(i: nat, pid: nat,
                      ghost before: seq<DmaRecord>, ghost mapped: map<IovaKey, IovaMapping>, ghost n: nat)
      returns (gone: bool)
      requires MapsOk() && i < |records| && Revoking(before, mapped, n, pid, i)
      modifies this`pinned, this`flagged, this`records, this`iovas
      ensures MapsOk() && Revoking(before, mapped, n + 1, pid, if gone then i else i + 1)
      ensures |records| == old(|records|) - if gone then 1 else 0
    {
      PartlyStep(before, n, MapsOfOthers(pid));
      WithoutMapsStep(mapped, before, n, pid);
      gone := records[i].pid == pid;
      if gone {
        ReleaseRecord(i);
      }
    }

    /** Releases every record of pid and no other. */
    method RevokeAllMapForPid(pid: nat) returns (released: nat)
      requires MapsOk()
      modifies this`pinned, this`flagged, this`records, this`iovas
      ensures MapsOk()
      ensures records == Retain(old(records), MapsOfOthers(pid))
      ensures iovas == old(iovas) - MapKeysOf(old(records), pid)
      ensures released == |old(records)| - |records|
    {
      var i := 0;
      hide Consistent, RevokedUpTo, Retain, MapKeysOf;
      released := 0;
      ghost var n, before, mapped := 0, records, iovas;
      RevokedNone(before, mapped, pid);
      while i < |records|
        invariant MapsOk() && Revoking(before, mapped, n, pid, i)
        invariant released == n - i
        decreases |records| - i
      {
        var gone := RevokeNext(i, pid, before, mapped, n);
        if gone {
          released := released + 1;
        } else {
          i := i + 1;
        }
        n := n + 1;
      }
      RevokedAll(before, mapped, n, pid, i, records, iovas);
    }

    // ------------------------------------------------------------ kernel allocations

    method FindAllocation(pid: nat, iova: nat, domain: nat) returns (i: nat)
      requires SlotsOk()
      ensures i == FirstAllocation(slots, pid, iova, domain)
    {
      i := 0;
      while i < allocs.Length && !SameAllocation(allocs[i], pid, iova, domain)
        invariant i <= |slots| && forall k :: 0 <= k < i ==> !SameAllocation(slots[k], pid, iova, domain)
      {
        i := i + 1;
      }
    }

    method FindFree() returns (i: nat)
      requires SlotsOk()
      ensures i == FirstFree(slots)
    {
      i := 0;
      while i < allocs.Length && allocs[i].Some?
        invariant i <= |slots| && forall k :: 0 <= k < i ==> slots[k].Some?
      {
        i := i + 1;
      }
    }

    /** Overwrites one slot. */
    method StoreSlot(i: nat, slot: Option<AllocRecord>)
      requires allocs[..] == slots && i < |slots|
      modifies this`slots, this`reserved, allocs
      ensures allocs[..] == slots && slots == old(slots)[i := slot] && reserved == Reserved(slots, strayed)
    {
      allocs[i] := slot;
      slots := slots[i := slot];
      reserved := Reserved(slots, strayed);
    }

    /** Stores a record in the first free slot, unless the table has it already or is full. */
    method InsertAllocation(record: AllocRecord) returns (r: Result<(), DmaError>)
      requires SlotsOk()
      modifies this`slots, this`reserved, this`handedOut, allocs
      ensures SlotsOk()
      ensures if FirstAllocation(old(slots), record.pid, record.iova, record.domain) < |old(slots)| then
                r == Err(InvalidParams) && slots == old(slots) && handedOut == old(handedOut)
              else if FirstFree(old(slots)) == |old(slots)| then
                r == Err(OutOfMemory) && slots == old(slots) && handedOut == old(handedOut)
              else
                r == Ok(()) && slots == Filled(old(slots), record)
                && handedOut == old(handedOut) + multiset{Block(record.frame, record.order)}
    {
      hide Conserved, Reserved, FirstAllocation, FirstFree;
      var i := FindAllocation(record.pid, record.iova, record.domain);
      if i < allocs.Length {
        return Err(InvalidParams);
      }
      i := FindFree();
      if i == allocs.Length {
        return Err(OutOfMemory);
      }
      ConservedAfterFill(handedOut, givenBack + leaked, slots, record);
      StoreSlot(i, Some(record));
      handedOut := handedOut + multiset{Block(record.frame, record.order)};
      return Ok(());
    }

    /** Records a range just mapped over the table `before`, or unmaps it again. */
    method RecordRange(record: AllocRecord, ghost before: map<IovaKey, IovaMapping>) returns (r: Result<(), DmaError>)
      requires SlotsOk() && Consistent(pinned, flagged, records, before, reserved, exclusive)
      requires iovas == WithRange(before, record.frame, record.size, record.domain, record.iova)
      modifies this`iovas, this`slots, this`reserved, this`handedOut, this`exclusive, allocs
      ensures MapsOk() && SlotsOk() && exclusive == (old(exclusive) && AllocationKeys(record) !! before.Keys)
      ensures r == if FirstAllocation(old(slots), record.pid, record.iova, record.domain) < |old(slots)|
                   then Err(InvalidParams)
                   else if FirstFree(old(slots)) == |old(slots)| then Err(OutOfMemory) else Ok(())
      ensures r.Err? ==> iovas == before - AllocationKeys(record) && slots == old(slots) && handedOut == old(handedOut)
      ensures r.Ok? ==> iovas == old(iovas) && slots == Filled(old(slots), record)
    {
      hide Consistent, Conserved, WithRange, KeySet, Reserved, Filled, FirstAllocation, FirstFree, PageCount;
      exclusive := exclusive && AllocationKeys(record) !! before.Keys;
      r := InsertAllocation(record);
      if r.Err? {
        RangeTakenBack(pinned, flagged, records, before, reserved, old(exclusive), record);
        UnmapRange(record.domain, record.iova, PageCount(record.size));
      } else {
        RangeRecorded(pinned, flagged, records, before, old(exclusive), old(slots), strayed, record);
      }
    }

    /** An IOVA range and a slot for a block that already has its window; on failure the range is unmapped again. */
    method MapAndRecord(pid: nat, size: u64, domain: nat, frame: Frame, order: nat, virt: u64,
                        reply: Result<u64, DmaError>)
      returns (r: Result<u64, DmaError>)
      requires MapsOk() && SlotsOk()
      modifies this`iovas, this`slots, this`reserved, this`handedOut, this`exclusive, allocs
      ensures MapsOk() && SlotsOk()
      ensures r == MapReply(old(slots), pid, domain, reply)
      ensures exclusive == (old(exclusive) && ReplyKeys(size, domain, reply) !! old(iovas).Keys)
      ensures r.Err? ==> iovas == old(iovas) - ReplyKeys(size, domain, reply)
                         && slots == old(slots) && handedOut == old(handedOut)
      ensures r.Ok? ==> slots == Filled(old(slots), AllocRecord(pid, domain, r.value, virt, size, frame, order))
                        && iovas == WithRange(old(iovas), frame, size, domain, r.value)
    {
      hide Consistent, Conserved, WithRange, BlockFrames, KeySet;
      hide Reserved, Filled, FirstAllocation, FirstFree, PageCount;
      r := IovaMap(frame, size, domain, reply);
      if r.Err? {
        return;
      }
      var record := AllocRecord(pid, domain, r.value, virt, size, frame, order);
      assert ReplyKeys(size, domain, reply) == AllocationKeys(record);
      hide ReplyKeys, AllocationKeys;
      var stored := RecordRange(record, old(iovas));
      if stored.Err? {
        return Err(stored.error);
      }
    }

    /** Records a block, or accounts for giving it back. */
    method RecordOrReturn(pid: nat, size: u64, domain: nat, frame: Frame, order: nat, virt: u64,
                          reply: Result<u64, DmaError>)
      returns (r: Result<u64, DmaError>)
      requires MapsOk() && SlotsOk()
      modifies this`iovas, this`slots, this`reserved, this`handedOut, this`givenBack, this`exclusive, allocs
      ensures MapsOk() && SlotsOk()
      ensures r == MapReply(old(slots), pid, domain, reply)
      ensures exclusive == (old(exclusive) && ReplyKeys(size, domain, reply) !! old(iovas).Keys)
      ensures r.Err? ==> iovas == old(iovas) - ReplyKeys(size, domain, reply) && slots == old(slots)
      ensures r.Ok? ==> slots == Filled(old(slots), AllocRecord(pid, domain, r.value, virt, size, frame, order))
                        && iovas == WithRange(old(iovas), frame, size, domain, r.value) && givenBack == old(givenBack)
    {
      hide Consistent, Conserved, Filled, WithRange, ReplyKeys, Reserved, FirstAllocation, FirstFree;
      r := MapAndRecord(pid, size, domain, frame, order, virt, reply);
      if r.Err? {
        BorrowAndReturn(Block(frame, order));
      }
    }

    /**
      One allocation: a block from the buddy allocator, a window in the process, an IOVA range, a
      slot.  Whatever step fails, the block goes back, no slot changes, and a range answered is unmapped.
    */
    method DmaAlloc(pid: nat, size: u64, domain: nat, buddy: Option<Frame>, window: Result<u64, DmaError>,
                    reply: Result<u64, DmaError>) returns (r: Result<(u64, u64), DmaError>, ghost order: nat)
      requires MapsOk() && SlotsOk()
      modifies this`iovas, this`slots, this`reserved, this`handedOut, this`givenBack, this`exclusive, allocs
      ensures MapsOk() && SlotsOk()
      ensures r == AllocAnswer(old(slots), pid, size, domain, buddy, window, reply)
      ensures exclusive == (old(exclusive) && AllocReplyKeys(size, domain, buddy, window, reply) !! old(iovas).Keys)
      ensures r.Err? ==> iovas == old(iovas) - AllocReplyKeys(size, domain, buddy, window, reply)
                         && slots == old(slots)
                         && (iovas == old(iovas) <==>
                             AllocReplyKeys(size, domain, buddy, window, reply) !! old(iovas).Keys)
      ensures r.Ok? ==> buddy.Some? && IsOrderFor(order, size)
                        && slots == Filled(old(slots),
                                           AllocRecord(pid, domain, r.value.1, r.value.0, size, buddy.value, order))
                        && iovas == WithRange(old(iovas), buddy.value, size, domain, r.value.1)
                        && givenBack == old(givenBack)
    {
      hide Consistent, Conserved, Filled, WithRange, ReplyKeys, Reserved, FirstAllocation, FirstFree, IsOrderFor;
      WithoutIsSameExactlyWhen(iovas, AllocReplyKeys(size, domain, buddy, window, reply));
      order := 0;
      if size == 0 {
        return Err(InvalidParams), order;
      }
      var blockOrder := OrderForSize(size);
      order := blockOrder;
      if buddy.None? {
        return Err(OutOfMemory), order;
      }
      if window.Err? {
        BorrowAndReturn(Block(buddy.value, order));
        return Err(window.error), order;
      }
      var iova := RecordOrReturn(pid, size, domain, buddy.value, blockOrder, window.value, reply);
      if iova.Err? {
        return Err(iova.error), order;
      }
      return Ok((window.value, iova.value)), order;
    }

    /** Accounts for a block that was taken and given back within one request. */
    ghost method BorrowAndReturn(block: Block)
      requires SlotsOk()
      modifies this`handedOut, this`givenBack
      ensures SlotsOk()
    {
      ConservedAfterLoan(handedOut, givenBack + leaked, slots, block);
      assert givenBack + leaked + multiset{block} == givenBack + multiset{block} + leaked;
      handedOut, givenBack := handedOut + multiset{block}, givenBack + multiset{block};
    }

    /** Empties slot i, unmapping its page and giving its block back. */
    method ReleaseSlot(i: nat)
      requires MapsOk() && SlotsOk() && i < |slots| && slots[i].Some?
      modifies this`iovas, this`slots, this`reserved, this`givenBack, allocs
      ensures MapsOk() && SlotsOk() && slots == old(slots)[i := None]
      ensures var record := old(slots)[i].value;
              iovas == old(iovas) - AllocationKeys(record)
              && givenBack == old(givenBack) + multiset{Block(record.frame, record.order)}
    {
      hide Consistent, Conserved, Reserved, KeySet, PageCount;
      var record := allocs[i].value;
      ConsistentAfterTake(pinned, flagged, records, iovas, exclusive, slots, strayed, i);
      ConservedAfterTake(handedOut, givenBack + leaked, slots, i);
      StoreSlot(i, None);
      UnmapRange(record.domain, record.iova, PageCount(record.size));
      ghost var block := multiset{Block(record.frame, record.order)};
      assert givenBack + leaked + block == givenBack + block + leaked;
      givenBack := givenBack + multiset{Block(record.frame, record.order)};
    }

    /** Empties slot i and does nothing else with what was in it. */
    method LoseSlot(i: nat)
      requires MapsOk() && SlotsOk() && i < |slots| && slots[i].Some?
      modifies this`slots, this`strayed, this`reserved, this`leaked, allocs
      ensures MapsOk() && SlotsOk() && slots == old(slots)[i := None]
      ensures strayed == old(strayed) + KeysOfSlot(old(slots)[i])
      ensures leaked == old(leaked) + multiset{Block(old(slots)[i].value.frame, old(slots)[i].value.order)}
    {
      hide Consistent, Conserved, Reserved;
      ghost var block := multiset{Block(slots[i].value.frame, slots[i].value.order)};
      StrayedAfterLoss(slots, strayed, i);
      ConservedAfterTake(handedOut, givenBack + leaked, slots, i);
      assert givenBack + leaked + block == givenBack + (leaked + block);
      strayed := strayed + KeysOfSlot(slots[i]);
      StoreSlot(i, None);
      leaked := leaked + block;
    }

    /**
      Gives up an allocation.  `reply` is the answer of the IOVA allocator to unmapping it; when that
      is an error, the slot is empty already and the block is not given back: it is leaked.
    */
    method DmaFree(pid: nat, iova: u64, domain: nat, reply: Result<(), DmaError>) returns (r: Result<(), DmaError>)
      requires MapsOk() && SlotsOk()
      modifies this`iovas, this`slots, this`strayed, this`reserved, this`givenBack, this`leaked, allocs
      ensures MapsOk() && SlotsOk()
      ensures var i := FirstAllocation(old(slots), pid, iova, domain);
              if i == |old(slots)| then
                r == Err(InvalidParams) && slots == old(slots) && iovas == old(iovas)
                && givenBack == old(givenBack) && leaked == old(leaked) && strayed == old(strayed)
              else
                var record := old(slots)[i].value;
                var block := multiset{Block(record.frame, record.order)};
                r == reply && slots == old(slots)[i := None]
                && iovas == (if r.Ok? then old(iovas) - AllocationKeys(record) else old(iovas))
                && givenBack == (if r.Ok? then old(givenBack) + block else old(givenBack))
                && leaked == (if r.Ok? then old(leaked) else old(leaked) + block)
                && strayed == (if r.Ok? then old(strayed) else old(strayed) + KeysOfSlot(old(slots)[i]))
    {
      hide Consistent, Conserved, AllocationKeys;
      var i := FindAllocation(pid, iova, domain);
      if i == allocs.Length {
        return Err(InvalidParams);
      }
      if reply.Err? {
        LoseSlot(i);
      } else {
        ReleaseSlot(i);
      }
      return reply;
    }

    /** Empties every slot of pid and no other; each block of pid is given back once. */
    method RevokeAllAllocForPid(pid: nat) returns (released: nat)
      requires MapsOk() && SlotsOk()
      modifies this`iovas, this`slots, this`reserved, this`givenBack, allocs
      ensures MapsOk() && SlotsOk()
      ensures slots == ClearPid(old(slots), pid)
      ensures iovas == old(iovas) - AllocKeysOf(old(slots), pid)
      ensures givenBack == old(givenBack) + AllocBlocksOf(old(slots), pid)
      ensures released == |AllocBlocksOf(old(slots), pid)|
    {
      hide Consistent;
      released := 0;
      ghost var before, mapped, blocks := slots, iovas, givenBack;
      for i := 0 to allocs.Length
        invariant MapsOk() && SlotsOk() && released == |AllocBlocksOf(before[..i], pid)|
        invariant ClearedUpTo(before, mapped, blocks, i, pid, slots, iovas, givenBack)
      {
        ClearedNext(before, mapped, blocks, i, pid, slots, iovas, givenBack);
        BlocksCount(before, i, pid);
        if allocs[i].Some? && allocs[i].value.pid == pid {
          ReleaseSlot(i);
          released := released + 1;
        }
      }
      ClearedAll(before, mapped, blocks, pid, slots, iovas, givenBack);
      assert before[..|before|] == before;
    }
  }

  function Pow2(n: nat): nat { if n == 0 then 1 else 2 * Pow2(n - 1) }

  /** The smallest power of two that covers the pages of a request. */
  predicate IsOrderFor(order: nat, size: nat)
  {
    PageCount(size) <= Pow2(order) && (order > 0 ==> Pow2(order - 1) < PageCount(size))
  }

  method OrderForSize(size: u64) returns (order: nat)
    ensures IsOrderFor(order, size)
  {
    var pages := PageCount(size);
    order := 0;
    var covered := 1;
    while covered < pages
      invariant covered == Pow2(order) && (order > 0 ==> Pow2(order - 1) < pages)
      decreases pages - covered
    {
      covered := 2 * covered;
      order := order + 1;
    }
  }
}
