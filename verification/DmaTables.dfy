/**
  The tables behind user DMA mappings, as values: reference counts of pinned frames, the records
  of live mappings, and the active IOVA pages.  `Dma` updates them in place.
*/
module DmaTables {
  import opened Wrappers
  import opened Seqs
  import opened Words

  type Frame = nat

  // ---------------------------------------------------------------- pinned frames

  datatype PinnedFrame = PinnedFrame(frame: Frame, refs: nat)

  /** References held on f. */
  function RefsOf(pins: seq<PinnedFrame>, f: Frame): nat
  {
    if pins == [] then 0 else if pins[0].frame == f then pins[0].refs else RefsOf(pins[1..], f)
  }

  /** One entry per frame, none of them empty. */
  predicate Tidy(pins: seq<PinnedFrame>)
  {
    pins != [] ==> pins[0].refs > 0 && RefsOf(pins[1..], pins[0].frame) == 0 && Tidy(pins[1..])
  }

  function Pin(pins: seq<PinnedFrame>, f: Frame): seq<PinnedFrame>
  {
    if pins == [] then [PinnedFrame(f, 1)]
    else if pins[0].frame == f then [PinnedFrame(f, pins[0].refs + 1)] + pins[1..]
    else [pins[0]] + Pin(pins[1..], f)
  }

  function Unpin(pins: seq<PinnedFrame>, f: Frame): seq<PinnedFrame>
  {
    if pins == [] then []
    else if pins[0].frame == f then
      (if pins[0].refs > 1 then [PinnedFrame(f, pins[0].refs - 1)] + pins[1..] else pins[1..])
    else [pins[0]] + Unpin(pins[1..], f)
  }

  lemma {:induction false} PinAddsOne(pins: seq<PinnedFrame>, f: Frame, g: Frame)
    requires Tidy(pins)
    ensures Tidy(Pin(pins, f))
    ensures RefsOf(Pin(pins, f), g) == RefsOf(pins, g) + if g == f then 1 else 0
  {
    if pins != [] && pins[0].frame != f {
      PinAddsOne(pins[1..], f, g);
      PinAddsOne(pins[1..], f, pins[0].frame);
    }
  }

  lemma {:induction false} UnpinTakesOne(pins: seq<PinnedFrame>, f: Frame, g: Frame)
    requires Tidy(pins) && RefsOf(pins, f) > 0
    ensures Tidy(Unpin(pins, f))
    ensures RefsOf(Unpin(pins, f), g) == RefsOf(pins, g) - if g == f then 1 else 0
  {
    if pins[0].frame != f {
      UnpinTakesOne(pins[1..], f, g);
      UnpinTakesOne(pins[1..], f, pins[0].frame);
    }
  }

  lemma {:induction false} TidyEntry(pins: seq<PinnedFrame>, i: nat)
    requires Tidy(pins) && i < |pins|
    ensures pins[i].refs > 0
  {
    if i > 0 { TidyEntry(pins[1..], i - 1); }
  }

  /** The frames of `base` are, in order, the first frames of `pins`. */
  predicate Extends(base: seq<PinnedFrame>, pins: seq<PinnedFrame>)
  {
    base != [] ==> pins != [] && pins[0].frame == base[0].frame && Extends(base[1..], pins[1..])
  }

  lemma {:induction false} ExtendsSelf(pins: seq<PinnedFrame>)
    ensures Extends(pins, pins)
  {
    if pins != [] { ExtendsSelf(pins[1..]); }
  }

  lemma {:induction false} PinExtends(base: seq<PinnedFrame>, pins: seq<PinnedFrame>, f: Frame)
    requires Extends(base, pins)
    ensures Extends(base, Pin(pins, f))
  {
    if base != [] && pins[0].frame != f { PinExtends(base[1..], pins[1..], f); }
  }

  /** Unpinning a reference that `base` did not hold leaves the entries of `base` in place. */
  lemma {:induction false} UnpinExtends(base: seq<PinnedFrame>, pins: seq<PinnedFrame>, f: Frame)
    requires Tidy(base) && Tidy(pins) && Extends(base, pins) && RefsOf(pins, f) > RefsOf(base, f)
    ensures Extends(base, Unpin(pins, f))
  {
    if base != [] && pins[0].frame != f { UnpinExtends(base[1..], pins[1..], f); }
  }

  /** The same references on every frame, and the same frames first: the same table. */
  lemma {:induction false} SameRefsSameTable(base: seq<PinnedFrame>, pins: seq<PinnedFrame>)
    requires Tidy(base) && Tidy(pins) && Extends(base, pins)
    requires forall f :: RefsOf(pins, f) == RefsOf(base, f)
    ensures pins == base
  {
    var first := if pins == [] then 0 else pins[0].frame;
    assert RefsOf(pins, first) == RefsOf(base, first);
    if base != [] {
      assert RefsOf(pins, base[0].frame) == RefsOf(base, base[0].frame);
      forall f ensures RefsOf(pins[1..], f) == RefsOf(base[1..], f) {
        assert RefsOf(pins, f) == RefsOf(base, f);
      }
      SameRefsSameTable(base[1..], pins[1..]);
    }
  }

  /** The table counts exactly the references in `held`. */
  ghost predicate Counts(pins: seq<PinnedFrame>, held: multiset<Frame>)
  {
    Tidy(pins) && forall f :: RefsOf(pins, f) == held[f]
  }

  lemma CountsAfterUnpin(pins: seq<PinnedFrame>, held: multiset<Frame>, f: Frame)
    requires Counts(pins, held) && f in held
    ensures Counts(Unpin(pins, f), held - multiset{f})
  {
    UnpinTakesOne(pins, f, f);
    forall g ensures RefsOf(Unpin(pins, f), g) == (held - multiset{f})[g] { UnpinTakesOne(pins, f, g); }
  }

  // The vector operations of the source, in terms of positions.

  lemma {:induction false} PinAt(pins: seq<PinnedFrame>, f: Frame, i: nat)
    requires i <= |pins| && (forall k :: 0 <= k < i ==> pins[k].frame != f) && (i < |pins| ==> pins[i].frame == f)
    ensures Pin(pins, f)
            == if i < |pins| then pins[i := PinnedFrame(f, pins[i].refs + 1)] else pins + [PinnedFrame(f, 1)]
    ensures i == |pins| ==> RefsOf(pins, f) == 0
  {
    if i > 0 {
      PinAt(pins[1..], f, i - 1);
      if i < |pins| { BehindFirst(pins, i, PinnedFrame(f, pins[i].refs + 1)); }
    }
  }

  lemma {:induction false} UnpinAt(pins: seq<PinnedFrame>, f: Frame, i: nat)
    requires i <= |pins| && (forall k :: 0 <= k < i ==> pins[k].frame != f) && (i < |pins| ==> pins[i].frame == f)
    ensures Unpin(pins, f) ==
            if i == |pins| then pins
            else if pins[i].refs > 1 then pins[i := PinnedFrame(f, pins[i].refs - 1)]
            else pins[..i] + pins[i + 1..]
  {
    if i > 0 {
      UnpinAt(pins[1..], f, i - 1);
      if i < |pins| { BehindFirst(pins, i, PinnedFrame(f, if pins[i].refs > 1 then pins[i].refs - 1 else 0)); }
    }
  }

  lemma {:induction false} RefsAt(pins: seq<PinnedFrame>, f: Frame, i: nat)
    requires i <= |pins| && (forall k :: 0 <= k < i ==> pins[k].frame != f) && (i < |pins| ==> pins[i].frame == f)
    ensures RefsOf(pins, f) == if i < |pins| then pins[i].refs else 0
  {
    if i > 0 { RefsAt(pins[1..], f, i - 1); }
  }

  // ---------------------------------------------------------------- records and IOVA pages

  datatype DmaRecord = DmaRecord(pid: nat, domain: nat, iovaBase: nat, frames: seq<Frame>, size: nat)

  datatype IovaKey = IovaKey(domain: nat, iova: nat)

  datatype IovaMapping = IovaMapping(phys: nat, size: nat)

  /** `(size + PAGE_SIZE - 1) / PAGE_SIZE` in 64-bit arithmetic. */
  function PageCount(size: nat): nat { (size + PAGE_SIZE - 1) % U64_SIZE / PAGE_SIZE }

  /** The page count is the rounded-up quotient exactly for sizes that do not wrap. */
  lemma PageCountIsCeiling(size: nat)
    requires size < U64_SIZE
    ensures (PageCount(size) * PAGE_SIZE >= size && (size > 0 ==> (PageCount(size) - 1) * PAGE_SIZE < size))
            <==> size <= U64_SIZE - PAGE_SIZE
  {
  }

  /** A size that wraps is no page at all. */
  lemma WrappedSizeIsNoPage(size: nat)
    requires U64_SIZE - PAGE_SIZE < size < U64_SIZE
    ensures PageCount(size) == 0
  {
  }

  /** `base + i * PAGE_SIZE` in 64-bit arithmetic. */
  function AddPages(base: nat, i: nat): u64 { (base + i * PAGE_SIZE) % U64_SIZE }

  function PageKey(domain: nat, base: nat, i: nat): IovaKey { IovaKey(domain, AddPages(base, i)) }

  function KeySet(domain: nat, base: nat, n: nat): set<IovaKey>
  {
    if n == 0 then {} else KeySet(domain, base, n - 1) + {PageKey(domain, base, n - 1)}
  }

  function KeyBag(domain: nat, base: nat, n: nat): multiset<IovaKey>
  {
    if n == 0 then multiset{} else KeyBag(domain, base, n - 1) + multiset{PageKey(domain, base, n - 1)}
  }

  lemma {:induction false} KeyIn(domain: nat, base: nat, n: nat, i: nat)
    requires i < n
    ensures PageKey(domain, base, i) in KeySet(domain, base, n)
  {
    if i < n - 1 { KeyIn(domain, base, n - 1, i); }
  }

  lemma {:induction false} KeyBagIsKeySet(domain: nat, base: nat, n: nat, k: IovaKey)
    ensures k in KeyBag(domain, base, n) <==> k in KeySet(domain, base, n)
  {
    if n > 0 { KeyBagIsKeySet(domain, base, n - 1, k); }
  }

  /** The IOVA table with the first n pages of a mapping added. */
  function MapPages(m: map<IovaKey, IovaMapping>, domain: nat, base: nat, frames: seq<Frame>, n: nat)
    : map<IovaKey, IovaMapping>
    requires n <= |frames|
  {
    if n == 0 then m
    else
      MapPages(m, domain, base, frames, n - 1)
        [PageKey(domain, base, n - 1) := IovaMapping(frames[n - 1] * PAGE_SIZE, PAGE_SIZE)]
  }

  /** The first n pages were each unmapped when the mapping reached them. */
  predicate FreshPages(m: map<IovaKey, IovaMapping>, domain: nat, base: nat, frames: seq<Frame>, n: nat)
    requires n <= |frames|
  {
    n == 0 || (FreshPages(m, domain, base, frames, n - 1)
               && PageKey(domain, base, n - 1) !in MapPages(m, domain, base, frames, n - 1))
  }

  lemma {:induction false} MappedKeys(m: map<IovaKey, IovaMapping>, domain: nat, base: nat, frames: seq<Frame>, n: nat)
    requires n <= |frames|
    ensures MapPages(m, domain, base, frames, n).Keys == m.Keys + KeySet(domain, base, n)
    ensures forall k :: k in m && k !in KeySet(domain, base, n) ==> MapPages(m, domain, base, frames, n)[k] == m[k]
  {
    if n > 0 { MappedKeys(m, domain, base, frames, n - 1); }
  }

  /** Fresh pages are new to the table and pairwise different. */
  lemma {:induction false} FreshPagesAreNew(m: map<IovaKey, IovaMapping>, domain: nat, base: nat, frames: seq<Frame>,
                                            n: nat)
    requires n <= |frames| && FreshPages(m, domain, base, frames, n)
    ensures m.Keys !! KeySet(domain, base, n)
    ensures forall k :: KeyBag(domain, base, n)[k] <= 1
  {
    if n > 0 {
      FreshPagesAreNew(m, domain, base, frames, n - 1);
      MappedKeys(m, domain, base, frames, n - 1);
      KeyBagIsKeySet(domain, base, n - 1, PageKey(domain, base, n - 1));
    }
  }

  lemma PagesApart(base: nat, i: nat, j: nat)
    requires i < j < U64_SIZE / PAGE_SIZE
    ensures AddPages(base, i) != AddPages(base, j)
  {
    assert 0 < (j - i) * PAGE_SIZE < U64_SIZE;
    assert base + j * PAGE_SIZE == base + i * PAGE_SIZE + (j - i) * PAGE_SIZE;
  }

  lemma {:induction false} NotAmongEarlier(domain: nat, base: nat, n: nat, j: nat)
    requires n <= j < U64_SIZE / PAGE_SIZE
    ensures PageKey(domain, base, j) !in KeySet(domain, base, n)
  {
    hide AddPages;
    if n > 0 {
      NotAmongEarlier(domain, base, n - 1, j);
      PagesApart(base, n - 1, j);
    }
  }

  /** Pages are fresh exactly when none of them was mapped. */
  lemma {:induction false} FreshExactlyWhen(m: map<IovaKey, IovaMapping>, domain: nat, base: nat, frames: seq<Frame>,
                                            n: nat)
    requires n <= |frames| && n <= U64_SIZE / PAGE_SIZE
    ensures FreshPages(m, domain, base, frames, n) <==> KeySet(domain, base, n) !! m.Keys
  {
    hide AddPages;
    if n > 0 {
      FreshExactlyWhen(m, domain, base, frames, n - 1);
      MappedKeys(m, domain, base, frames, n - 1);
      NotAmongEarlier(domain, base, n - 1, n - 1);
    }
  }

  /** Unmapping a range takes its pages out of the table, mapped before or not. */
  lemma UnmapLeavesOthers(m: map<IovaKey, IovaMapping>, domain: nat, base: nat, frames: seq<Frame>, n: nat)
    requires n <= |frames|
    ensures MapPages(m, domain, base, frames, n) - KeySet(domain, base, n) == m - KeySet(domain, base, n)
  {
    MappedKeys(m, domain, base, frames, n);
  }

  lemma WithoutIsSameExactlyWhen(m: map<IovaKey, IovaMapping>, keys: set<IovaKey>)
    ensures m - keys == m <==> keys !! m.Keys
  {
    if m - keys == m {
      assert forall k :: k in keys ==> k !in (m - keys).Keys;
    }
  }

  /** So unmapping a mapped range restores the table from before exactly when none of its pages was in it. */
  lemma UnmapUndoesMapExactlyWhen(m: map<IovaKey, IovaMapping>, domain: nat, base: nat, frames: seq<Frame>, n: nat)
    requires n <= |frames|
    ensures MapPages(m, domain, base, frames, n) - KeySet(domain, base, n) == m <==> KeySet(domain, base, n) !! m.Keys
  {
    UnmapLeavesOthers(m, domain, base, frames, n);
    WithoutIsSameExactlyWhen(m, KeySet(domain, base, n));
  }

  /** Page i maps frame i, whatever was mapped before. */
  lemma {:induction false} MappedPage(m: map<IovaKey, IovaMapping>, domain: nat, base: nat, frames: seq<Frame>, n: nat,
                                      i: nat)
    requires i < n <= |frames| && n <= U64_SIZE / PAGE_SIZE
    ensures PageKey(domain, base, i) in MapPages(m, domain, base, frames, n)
    ensures MapPages(m, domain, base, frames, n)[PageKey(domain, base, i)]
              == IovaMapping(frames[i] * PAGE_SIZE, PAGE_SIZE)
  {
    hide AddPages;
    if i < n - 1 {
      MappedPage(m, domain, base, frames, n - 1, i);
      PagesApart(base, i, n - 1);
    }
  }

  function HeldFrames(records: seq<DmaRecord>): multiset<Frame>
  {
    if records == [] then multiset{} else multiset(records[0].frames) + HeldFrames(records[1..])
  }

  function RecordKeys(r: DmaRecord): set<IovaKey> { KeySet(r.domain, r.iovaBase, PageCount(r.size)) }

  function HeldKeys(records: seq<DmaRecord>): multiset<IovaKey>
  {
    if records == [] then multiset{}
    else KeyBag(records[0].domain, records[0].iovaBase, PageCount(records[0].size)) + HeldKeys(records[1..])
  }

  lemma {:induction false} HeldConcat(a: seq<DmaRecord>, b: seq<DmaRecord>)
    ensures HeldFrames(a + b) == HeldFrames(a) + HeldFrames(b)
    ensures HeldKeys(a + b) == HeldKeys(a) + HeldKeys(b)
  {
    if a == [] {
      assert a + b == b;
    } else {
      assert (a + b)[1..] == a[1..] + b;
      HeldConcat(a[1..], b);
    }
  }

  lemma HeldLast(records: seq<DmaRecord>, r: DmaRecord, f: Frame)
    ensures HeldFrames(records + [r])[f] == HeldFrames(records)[f] + multiset(r.frames)[f]
  {
    HeldConcat(records, [r]);
    assert [r][1..] == [];
  }

  /** Removing one record gives up exactly its frames and its keys. */
  lemma HeldWithout(records: seq<DmaRecord>, i: nat)
    requires i < |records|
    ensures var r := records[i];
            var rest := records[..i] + records[i + 1..];
            HeldFrames(records) == HeldFrames(rest) + multiset(r.frames)
            && HeldKeys(records) == HeldKeys(rest) + KeyBag(r.domain, r.iovaBase, PageCount(r.size))
  {
    var a, r, b := records[..i], records[i], records[i + 1..];
    assert records == a + ([r] + b);
    HeldConcat(a, [r] + b);
    HeldConcat([r], b);
    HeldConcat(a, b);
    assert [r][1..] == [];
  }

  /** Page i of the record maps the frame pinned for page i. */
  ghost predicate RecordMapped(m: map<IovaKey, IovaMapping>, r: DmaRecord)
  {
    |r.frames| == PageCount(r.size)
    && forall i :: 0 <= i < |r.frames| ==>
         PageKey(r.domain, r.iovaBase, i) in m
         && m[PageKey(r.domain, r.iovaBase, i)] == IovaMapping(r.frames[i] * PAGE_SIZE, PAGE_SIZE)
  }

  // ---------------------------------------------------------------- ownership of IOVA pages

  /** The pages of the records lead to their frames; a page is mapped exactly if it has an owner, and then just one. */
  ghost predicate Owned(records: seq<DmaRecord>, m: map<IovaKey, IovaMapping>, others: multiset<IovaKey>)
  {
    && (forall i :: 0 <= i < |records| ==> RecordMapped(m, records[i]))
    && (forall k :: HeldKeys(records)[k] + others[k] == if k in m then 1 else 0)
  }

  lemma {:induction false} RecordKeyHeld(records: seq<DmaRecord>, i: nat, k: IovaKey)
    requires i < |records| && k in RecordKeys(records[i])
    ensures k in HeldKeys(records)
  {
    if i == 0 {
      var r := records[0];
      KeyBagIsKeySet(r.domain, r.iovaBase, PageCount(r.size), k);
    } else {
      RecordKeyHeld(records[1..], i - 1, k);
    }
  }

  /** A record survives any change of the table that spares its own pages. */
  lemma RecordStaysMapped(m: map<IovaKey, IovaMapping>, m': map<IovaKey, IovaMapping>, r: DmaRecord)
    requires RecordMapped(m, r)
    requires forall k :: k in m && k in RecordKeys(r) ==> k in m' && m'[k] == m[k]
    ensures RecordMapped(m', r)
  {
    forall i | 0 <= i < |r.frames| ensures PageKey(r.domain, r.iovaBase, i) in RecordKeys(r) {
      KeyIn(r.domain, r.iovaBase, PageCount(r.size), i);
    }
  }

  /** A page of a fresh mapping had no owner, and has one now. */
  lemma NewOwner(records: seq<DmaRecord>, m: map<IovaKey, IovaMapping>, others: multiset<IovaKey>, r: DmaRecord,
                 k: IovaKey)
    requires Owned(records, m, others) && |r.frames| == PageCount(r.size)
    requires FreshPages(m, r.domain, r.iovaBase, r.frames, |r.frames|)
    ensures HeldKeys(records + [r])[k] + others[k]
            == if k in MapPages(m, r.domain, r.iovaBase, r.frames, |r.frames|) then 1 else 0
  {
    hide MapPages;
    FreshPagesAreNew(m, r.domain, r.iovaBase, r.frames, |r.frames|);
    MappedKeys(m, r.domain, r.iovaBase, r.frames, |r.frames|);
    KeyBagIsKeySet(r.domain, r.iovaBase, |r.frames|, k);
    HeldConcat(records, [r]);
    assert [r][1..] == [];
  }

  lemma OwnedAfterMap(records: seq<DmaRecord>, m: map<IovaKey, IovaMapping>, others: multiset<IovaKey>, r: DmaRecord)
    requires Owned(records, m, others) && |r.frames| == PageCount(r.size)
    requires FreshPages(m, r.domain, r.iovaBase, r.frames, |r.frames|)
    ensures Owned(records + [r], MapPages(m, r.domain, r.iovaBase, r.frames, |r.frames|), others)
  {
    var n := |r.frames|;
    var m' := MapPages(m, r.domain, r.iovaBase, r.frames, n);
    FreshPagesAreNew(m, r.domain, r.iovaBase, r.frames, n);
    MappedKeys(m, r.domain, r.iovaBase, r.frames, n);
    assert RecordMapped(m', r) by {
      forall i | 0 <= i < n
        ensures PageKey(r.domain, r.iovaBase, i) in m'
                && m'[PageKey(r.domain, r.iovaBase, i)] == IovaMapping(r.frames[i] * PAGE_SIZE, PAGE_SIZE)
      {
        MappedPage(m, r.domain, r.iovaBase, r.frames, n, i);
      }
    }
    forall i | 0 <= i < |records| ensures RecordMapped(m', records[i]) { RecordStaysMapped(m, m', records[i]); }
    forall k ensures HeldKeys(records + [r])[k] + others[k] == if k in m' then 1 else 0 {
      NewOwner(records, m, others, r, k);
    }
  }

  /** A page of record i belongs to no other record and to none of the others; other pages keep their owner. */
  lemma SoleOwner(records: seq<DmaRecord>, others: multiset<IovaKey>, i: nat, k: IovaKey)
    requires i < |records| && HeldKeys(records)[k] + others[k] <= 1
    ensures HeldKeys(records[..i] + records[i + 1..])[k] + others[k]
            == if k in RecordKeys(records[i]) then 0 else HeldKeys(records)[k] + others[k]
  {
    HeldWithout(records, i);
    KeyBagIsKeySet(records[i].domain, records[i].iovaBase, PageCount(records[i].size), k);
  }

  lemma OthersStayMapped(records: seq<DmaRecord>, m: map<IovaKey, IovaMapping>, others: multiset<IovaKey>, i: nat,
                         j: nat)
    requires Owned(records, m, others) && i < |records| && j < |records| - 1
    ensures RecordMapped(m - RecordKeys(records[i]), (records[..i] + records[i + 1..])[j])
  {
    var rest := records[..i] + records[i + 1..];
    var m' := m - RecordKeys(records[i]);
    assert rest[j] == records[if j < i then j else j + 1];
    forall k | k in m && k in RecordKeys(rest[j]) ensures k in m' && m'[k] == m[k] {
      RecordKeyHeld(rest, j, k);
      SoleOwner(records, others, i, k);
    }
    RecordStaysMapped(m, m', rest[j]);
  }

  lemma OwnedAfterUnmap(records: seq<DmaRecord>, m: map<IovaKey, IovaMapping>, others: multiset<IovaKey>, i: nat)
    requires Owned(records, m, others) && i < |records|
    ensures Owned(records[..i] + records[i + 1..], m - RecordKeys(records[i]), others)
  {
    var rest := records[..i] + records[i + 1..];
    var m' := m - RecordKeys(records[i]);
    forall k ensures HeldKeys(rest)[k] + others[k] == if k in m' then 1 else 0 { SoleOwner(records, others, i, k); }
    forall j | 0 <= j < |rest| ensures RecordMapped(m', rest[j]) {
      OthersStayMapped(records, m, others, i, j);
    }
  }

  /** Fresh pages can be added to the others. */
  lemma OwnedAfterAlloc(records: seq<DmaRecord>, m: map<IovaKey, IovaMapping>, others: multiset<IovaKey>,
                        domain: nat, base: nat, frames: seq<Frame>)
    requires Owned(records, m, others) && FreshPages(m, domain, base, frames, |frames|)
    ensures Owned(records, MapPages(m, domain, base, frames, |frames|), others + KeyBag(domain, base, |frames|))
  {
    hide PageCount, KeyBag, KeySet;
    var n := |frames|;
    var m' := MapPages(m, domain, base, frames, n);
    FreshPagesAreNew(m, domain, base, frames, n);
    MappedKeys(m, domain, base, frames, n);
    forall i | 0 <= i < |records| ensures RecordMapped(m', records[i]) { RecordStaysMapped(m, m', records[i]); }
    forall k ensures HeldKeys(records)[k] + (others + KeyBag(domain, base, n))[k] == if k in m' then 1 else 0 {
      KeyBagIsKeySet(domain, base, n, k);
    }
  }

  /** Pages of the others can be given up. */
  lemma OwnedAfterFree(records: seq<DmaRecord>, m: map<IovaKey, IovaMapping>, others: multiset<IovaKey>, domain: nat,
                       base: nat, n: nat)
    requires Owned(records, m, others) && KeyBag(domain, base, n) <= others
    ensures Owned(records, m - KeySet(domain, base, n), others - KeyBag(domain, base, n))
  {
    hide PageCount, KeyBag, KeySet;
    var m' := m - KeySet(domain, base, n);
    forall i | 0 <= i < |records| ensures RecordMapped(m', records[i]) {
      forall k | k in m && k in RecordKeys(records[i]) ensures k in m' && m'[k] == m[k] {
        RecordKeyHeld(records, i, k);
        KeyBagIsKeySet(domain, base, n, k);
      }
      RecordStaysMapped(m, m', records[i]);
    }
    forall k ensures HeldKeys(records)[k] + (others - KeyBag(domain, base, n))[k] == if k in m' then 1 else 0 {
      KeyBagIsKeySet(domain, base, n, k);
    }
  }

  // ---------------------------------------------------------------- the tables of user mappings

  /** The PINNED flag is set on exactly the frames with a reference. */
  ghost predicate Flagged(pins: seq<PinnedFrame>, flagged: set<Frame>)
  {
    Tidy(pins) && forall f :: f in flagged <==> RefsOf(pins, f) > 0
  }

  /** On top of `base`, exactly the references in `extra` are held. */
  ghost predicate PinnedOver(base: seq<PinnedFrame>, pins: seq<PinnedFrame>, extra: multiset<Frame>)
  {
    Tidy(base) && Tidy(pins) && Extends(base, pins) && forall f :: RefsOf(pins, f) == RefsOf(base, f) + extra[f]
  }

  lemma NothingOver(base: seq<PinnedFrame>)
    requires Tidy(base)
    ensures PinnedOver(base, base, multiset{})
  {
    ExtendsSelf(base);
  }

  lemma OneMoreOver(base: seq<PinnedFrame>, pins: seq<PinnedFrame>, frames: seq<Frame>, f: Frame)
    requires PinnedOver(base, pins, multiset(frames))
    ensures PinnedOver(base, Pin(pins, f), multiset(frames + [f]))
  {
    PinExtends(base, pins, f);
    PinAddsOne(pins, f, f);
    forall g ensures RefsOf(Pin(pins, f), g) == RefsOf(base, g) + multiset(frames + [f])[g] { PinAddsOne(pins, f, g); }
  }

  lemma OneLessOver(base: seq<PinnedFrame>, pins: seq<PinnedFrame>, frames: seq<Frame>)
    requires frames != [] && PinnedOver(base, pins, multiset(frames))
    ensures PinnedOver(base, Unpin(pins, frames[0]), multiset(frames[1..]))
  {
    var f := frames[0];
    assert frames == [f] + frames[1..];
    assert RefsOf(pins, f) == RefsOf(base, f) + multiset(frames)[f];
    UnpinExtends(base, pins, f);
    UnpinTakesOne(pins, f, f);
    forall g ensures RefsOf(Unpin(pins, f), g) == RefsOf(base, g) + multiset(frames[1..])[g] {
      UnpinTakesOne(pins, f, g);
    }
  }

  lemma NothingLeftOver(base: seq<PinnedFrame>, pins: seq<PinnedFrame>)
    requires PinnedOver(base, pins, multiset{})
    ensures pins == base
  {
    forall f ensures RefsOf(pins, f) == RefsOf(base, f) { assert RefsOf(pins, f) == RefsOf(base, f) + multiset{}[f]; }
    SameRefsSameTable(base, pins);
  }

  lemma CountsOver(base: seq<PinnedFrame>, pins: seq<PinnedFrame>, held: multiset<Frame>, extra: multiset<Frame>)
    requires Counts(base, held) && PinnedOver(base, pins, extra)
    ensures Counts(pins, held + extra)
  {
  }

  lemma SameFlags(pins: seq<PinnedFrame>, flagged: set<Frame>, flagged': set<Frame>)
    requires Flagged(pins, flagged) && Flagged(pins, flagged')
    ensures flagged == flagged'
  {
  }

  lemma FlaggedAfterPin(pins: seq<PinnedFrame>, flagged: set<Frame>, f: Frame)
    requires Flagged(pins, flagged)
    ensures Flagged(Pin(pins, f), flagged + {f})
  {
    PinAddsOne(pins, f, f);
    forall g ensures g in flagged + {f} <==> RefsOf(Pin(pins, f), g) > 0 { PinAddsOne(pins, f, g); }
  }

  lemma FlaggedAfterUnpin(pins: seq<PinnedFrame>, flagged: set<Frame>, f: Frame)
    requires Flagged(pins, flagged)
    ensures Flagged(Unpin(pins, f), if RefsOf(pins, f) == 1 then flagged - {f} else flagged)
    ensures RefsOf(pins, f) == 0 ==> Unpin(pins, f) == pins
  {
    if RefsOf(pins, f) == 0 {
      UnpinAbsent(pins, f);
    } else {
      UnpinTakesOne(pins, f, f);
      forall g
        ensures g in (if RefsOf(pins, f) == 1 then flagged - {f} else flagged) <==> RefsOf(Unpin(pins, f), g) > 0
      {
        UnpinTakesOne(pins, f, g);
      }
    }
  }

  lemma {:induction false} UnpinAbsent(pins: seq<PinnedFrame>, f: Frame)
    requires Tidy(pins) && RefsOf(pins, f) == 0
    ensures Unpin(pins, f) == pins
  {
    if pins != [] { UnpinAbsent(pins[1..], f); }
  }

  /** A granted mapping adds its frames to those counted by the pin table. */
  lemma CountsAfterMap(records: seq<DmaRecord>, base: seq<PinnedFrame>, pins: seq<PinnedFrame>, r: DmaRecord)
    requires Counts(base, HeldFrames(records)) && PinnedOver(base, pins, multiset(r.frames))
    ensures Counts(pins, HeldFrames(records + [r]))
  {
    HeldConcat(records, [r]);
    assert [r][1..] == [];
    CountsOver(base, pins, HeldFrames(records), multiset(r.frames));
  }

  /**
    Reference counts equal the uses of each frame in live records and, when all answers of the IOVA
    allocator were `exclusive`, a page is mapped exactly if it has an owner, and then just one.
  */
  ghost predicate Consistent(pins: seq<PinnedFrame>, flagged: set<Frame>, records: seq<DmaRecord>,
                             m: map<IovaKey, IovaMapping>, others: multiset<IovaKey>, exclusive: bool)
  {
    Flagged(pins, flagged) && Counts(pins, HeldFrames(records)) && (exclusive ==> Owned(records, m, others))
  }

  lemma ConsistentParts(pins: seq<PinnedFrame>, flagged: set<Frame>, records: seq<DmaRecord>,
                        m: map<IovaKey, IovaMapping>, others: multiset<IovaKey>, exclusive: bool)
    requires Consistent(pins, flagged, records, m, others, exclusive)
    ensures Flagged(pins, flagged)
  {
  }

  lemma ConsistentFrom(pins: seq<PinnedFrame>, flagged: set<Frame>, records: seq<DmaRecord>,
                       m: map<IovaKey, IovaMapping>, others: multiset<IovaKey>, exclusive: bool)
    requires Flagged(pins, flagged) && Counts(pins, HeldFrames(records)) && (exclusive ==> Owned(records, m, others))
    ensures Consistent(pins, flagged, records, m, others, exclusive)
  {
  }

  lemma ConsistentAfterMap(base: seq<PinnedFrame>, baseFlags: set<Frame>, pins: seq<PinnedFrame>, flagged: set<Frame>,
                           records: seq<DmaRecord>, m: map<IovaKey, IovaMapping>, others: multiset<IovaKey>,
                           exclusive: bool, r: DmaRecord)
    requires Consistent(base, baseFlags, records, m, others, exclusive)
    requires Flagged(pins, flagged) && PinnedOver(base, pins, multiset(r.frames)) && |r.frames| == PageCount(r.size)
    ensures Consistent(pins, flagged, records + [r], MapPages(m, r.domain, r.iovaBase, r.frames, |r.frames|), others,
                       exclusive && RecordKeys(r) !! m.Keys)
  {
    hide Owned, Flagged, Counts, MapPages, FreshPages, PinnedOver, HeldFrames;
    CountsAfterMap(records, base, pins, r);
    if exclusive && RecordKeys(r) !! m.Keys {
      FreshExactlyWhen(m, r.domain, r.iovaBase, r.frames, |r.frames|);
      OwnedAfterMap(records, m, others, r);
    }
  }

  /** Pages that were not mapped can be unmapped. */
  lemma ConsistentAfterRollback(pins: seq<PinnedFrame>, flagged: set<Frame>, records: seq<DmaRecord>,
                                m: map<IovaKey, IovaMapping>, others: multiset<IovaKey>, exclusive: bool,
                                keys: set<IovaKey>)
    requires Consistent(pins, flagged, records, m, others, exclusive)
    ensures Consistent(pins, flagged, records, m - keys, others, exclusive && keys !! m.Keys)
  {
    hide Owned, Flagged, Counts;
    WithoutIsSameExactlyWhen(m, keys);
  }

  lemma ConsistentWithout(pins: seq<PinnedFrame>, flagged: set<Frame>, records: seq<DmaRecord>,
                          m: map<IovaKey, IovaMapping>, others: multiset<IovaKey>, exclusive: bool, i: nat)
    requires Consistent(pins, flagged, records, m, others, exclusive) && i < |records|
    ensures Flagged(pins, flagged)
    ensures exclusive ==> Owned(records[..i] + records[i + 1..], m - RecordKeys(records[i]), others)
    ensures Counts(pins, HeldFrames(records[..i] + records[i + 1..]) + multiset(records[i].frames))
  {
    HeldWithout(records, i);
    if exclusive { OwnedAfterUnmap(records, m, others, i); }
  }

  // ---------------------------------------------------------------- kernel allocations

  datatype AllocRecord = AllocRecord(pid: nat, domain: nat, iova: nat, virt: nat, size: nat, frame: Frame, order: nat)

  /** 2^order contiguous frames from the buddy allocator. */
  datatype Block = Block(frame: Frame, order: nat)

  /** The n frames of a block from `frame` on. */
  function BlockFrames(frame: Frame, n: nat): (fs: seq<Frame>)
    ensures |fs| == n && forall i :: 0 <= i < n ==> fs[i] == frame + i
  {
    seq(n, i => frame + i)
  }

  /** The IOVA pages of an allocation. */
  function AllocationKeys(r: AllocRecord): set<IovaKey> { KeySet(r.domain, r.iova, PageCount(r.size)) }

  function KeysOfSlot(slot: Option<AllocRecord>): multiset<IovaKey>
  {
    match slot case None => multiset{} case Some(r) => KeyBag(r.domain, r.iova, PageCount(r.size))
  }

  function BlocksOfSlot(slot: Option<AllocRecord>): multiset<Block>
  {
    match slot case None => multiset{} case Some(r) => multiset{Block(r.frame, r.order)}
  }

  function AllocKeys(slots: seq<Option<AllocRecord>>): multiset<IovaKey>
  {
    if slots == [] then multiset{} else KeysOfSlot(slots[0]) + AllocKeys(slots[1..])
  }

  /** The IOVA pages of the slots and those that strayed from them. */
  function Reserved(slots: seq<Option<AllocRecord>>, strayed: multiset<IovaKey>): multiset<IovaKey>
  {
    AllocKeys(slots) + strayed
  }

  function AllocBlocks(slots: seq<Option<AllocRecord>>): multiset<Block>
  {
    if slots == [] then multiset{} else BlocksOfSlot(slots[0]) + AllocBlocks(slots[1..])
  }

  lemma AddToBoth<T>(a: multiset<T>, x: multiset<T>, b: multiset<T>, y: multiset<T>, c: multiset<T>)
    requires x + b == y + c
    ensures a + x + b == a + y + c
  {
    assert a + x + b == a + (x + b);
  }

  lemma ExchangeEnds<T>(a: multiset<T>, x: multiset<T>, b: multiset<T>)
    ensures a + x + b == b + x + a
  {
  }

  /** Filling or clearing one slot exchanges the key held there. */
  lemma {:induction false} KeysAfterStore(slots: seq<Option<AllocRecord>>, i: nat, slot: Option<AllocRecord>)
    requires i < |slots|
    ensures AllocKeys(slots[i := slot]) + KeysOfSlot(slots[i]) == AllocKeys(slots) + KeysOfSlot(slot)
  {
    if i == 0 {
      assert slots[0 := slot][1..] == slots[1..];
      ExchangeEnds(KeysOfSlot(slot), AllocKeys(slots[1..]), KeysOfSlot(slots[0]));
    } else {
      assert slots[i := slot][1..] == slots[1..][i - 1 := slot];
      KeysAfterStore(slots[1..], i - 1, slot);
      AddToBoth(KeysOfSlot(slots[0]), AllocKeys(slots[1..][i - 1 := slot]), KeysOfSlot(slots[i]),
                AllocKeys(slots[1..]), KeysOfSlot(slot));
    }
  }

  /** And the block held there. */
  lemma {:induction false} BlocksAfterStore(slots: seq<Option<AllocRecord>>, i: nat, slot: Option<AllocRecord>)
    requires i < |slots|
    ensures AllocBlocks(slots[i := slot]) + BlocksOfSlot(slots[i]) == AllocBlocks(slots) + BlocksOfSlot(slot)
  {
    if i == 0 {
      assert slots[0 := slot][1..] == slots[1..];
      ExchangeEnds(BlocksOfSlot(slot), AllocBlocks(slots[1..]), BlocksOfSlot(slots[0]));
    } else {
      assert slots[i := slot][1..] == slots[1..][i - 1 := slot];
      BlocksAfterStore(slots[1..], i - 1, slot);
      AddToBoth(BlocksOfSlot(slots[0]), AllocBlocks(slots[1..][i - 1 := slot]), BlocksOfSlot(slots[i]),
                AllocBlocks(slots[1..]), BlocksOfSlot(slot));
    }
  }

  // ---------------------------------------------------------------- what belongs to a process

  function MapsOfOthers(pid: nat): DmaRecord -> bool { (r: DmaRecord) => r.pid != pid }

  /** The IOVA pages of the records of pid. */
  function MapKeysOf(records: seq<DmaRecord>, pid: nat): set<IovaKey>
  {
    if records == [] then {}
    else
      var last := records[|records| - 1];
      MapKeysOf(records[..|records| - 1], pid) + if last.pid == pid then RecordKeys(last) else {}
  }

  /** The table without the pages of pid in the first n records. */
  function WithoutMapsOf(m: map<IovaKey, IovaMapping>, records: seq<DmaRecord>, n: nat, pid: nat)
    : map<IovaKey, IovaMapping>
    requires n <= |records|
  {
    m - MapKeysOf(records[..n], pid)
  }

  /** The first n of the records `before` have been gone through; the next one is record i. */
  ghost predicate RevokedUpTo(before: seq<DmaRecord>, mapped: map<IovaKey, IovaMapping>, n: nat, pid: nat, i: nat,
                              records: seq<DmaRecord>, m: map<IovaKey, IovaMapping>)
  {
    n <= |before| && records == Partly(before, n, MapsOfOthers(pid)) && i == |Retain(before[..n], MapsOfOthers(pid))|
    && m == WithoutMapsOf(mapped, before, n, pid)
  }

  lemma RevokedNone(before: seq<DmaRecord>, mapped: map<IovaKey, IovaMapping>, pid: nat)
    ensures RevokedUpTo(before, mapped, 0, pid, 0, before, mapped)
  {
    PartlyDone(before, 0, MapsOfOthers(pid));
  }

  lemma RevokedAll(before: seq<DmaRecord>, mapped: map<IovaKey, IovaMapping>, n: nat, pid: nat, i: nat,
                   records: seq<DmaRecord>, m: map<IovaKey, IovaMapping>)
    requires RevokedUpTo(before, mapped, n, pid, i, records, m) && i >= |records|
    ensures records == Retain(before, MapsOfOthers(pid)) && m == mapped - MapKeysOf(before, pid)
    ensures n - i == |before| - |records|
  {
    PartlyDone(before, n, MapsOfOthers(pid));
    assert before[..|before|] == before;
  }

  lemma WithoutMapsStep(m: map<IovaKey, IovaMapping>, records: seq<DmaRecord>, n: nat, pid: nat)
    requires n < |records|
    ensures WithoutMapsOf(m, records, n + 1, pid)
            == if records[n].pid == pid then WithoutMapsOf(m, records, n, pid) - RecordKeys(records[n])
               else WithoutMapsOf(m, records, n, pid)
  {
    assert records[..n + 1][..n] == records[..n];
  }

  predicate AllocOf(slot: Option<AllocRecord>, pid: nat) { slot.Some? && slot.value.pid == pid }

  /** The allocation table with the records of pid taken out of their slots. */
  function ClearPid(slots: seq<Option<AllocRecord>>, pid: nat): (r: seq<Option<AllocRecord>>)
    ensures |r| == |slots|
    ensures forall i :: 0 <= i < |slots| ==> r[i] == if AllocOf(slots[i], pid) then None else slots[i]
  {
    seq(|slots|, i requires 0 <= i < |slots| => if AllocOf(slots[i], pid) then None else slots[i])
  }

  function AllocKeysOf(slots: seq<Option<AllocRecord>>, pid: nat): set<IovaKey>
  {
    if slots == [] then {}
    else
      var last := slots[|slots| - 1];
      AllocKeysOf(slots[..|slots| - 1], pid)
      + if AllocOf(last, pid) then AllocationKeys(last.value) else {}
  }

  function AllocBlocksOf(slots: seq<Option<AllocRecord>>, pid: nat): multiset<Block>
  {
    if slots == [] then multiset{}
    else
      var last := slots[|slots| - 1];
      AllocBlocksOf(slots[..|slots| - 1], pid) + if AllocOf(last, pid) then BlocksOfSlot(last) else multiset{}
  }

  // ---------------------------------------------------------------- filling and clearing slots

  lemma AfterFill(slots: seq<Option<AllocRecord>>, i: nat, r: AllocRecord)
    requires i < |slots| && slots[i].None?
    ensures AllocKeys(slots[i := Some(r)]) == AllocKeys(slots) + KeyBag(r.domain, r.iova, PageCount(r.size))
    ensures AllocBlocks(slots[i := Some(r)]) == AllocBlocks(slots) + multiset{Block(r.frame, r.order)}
  {
    hide AllocKeys, AllocBlocks, KeyBag, PageCount;
    KeysAfterStore(slots, i, Some(r));
    BlocksAfterStore(slots, i, Some(r));
  }

  lemma TakenOut<T>(x: multiset<T>, b: multiset<T>, y: multiset<T>)
    requires x + b == y + multiset{}
    ensures b <= y && x == y - b && y == x + b
  {
    assert y + multiset{} == y;
    assert x + b == y;
  }

  lemma AfterTake(slots: seq<Option<AllocRecord>>, i: nat)
    requires i < |slots| && slots[i].Some?
    ensures var r := slots[i].value;
            KeyBag(r.domain, r.iova, PageCount(r.size)) <= AllocKeys(slots)
            && AllocKeys(slots[i := None]) == AllocKeys(slots) - KeyBag(r.domain, r.iova, PageCount(r.size))
            && AllocBlocks(slots) == AllocBlocks(slots[i := None]) + multiset{Block(r.frame, r.order)}
  {
    hide AllocKeys, AllocBlocks, KeyBag, PageCount;
    var r := slots[i].value;
    KeysAfterStore(slots, i, None);
    TakenOut(AllocKeys(slots[i := None]), KeyBag(r.domain, r.iova, PageCount(r.size)), AllocKeys(slots));
    BlocksAfterStore(slots, i, None);
    TakenOut(AllocBlocks(slots[i := None]), multiset{Block(r.frame, r.order)}, AllocBlocks(slots));
  }

  predicate SameAllocation(slot: Option<AllocRecord>, pid: nat, iova: nat, domain: nat)
  {
    slot.Some? && slot.value.pid == pid && slot.value.iova == iova && slot.value.domain == domain
  }

  /** The first slot holding this allocation, or the length of the table. */
  function FirstAllocation(slots: seq<Option<AllocRecord>>, pid: nat, iova: nat, domain: nat): (p: nat)
    ensures p <= |slots| && (p < |slots| ==> SameAllocation(slots[p], pid, iova, domain))
    ensures forall i :: 0 <= i < p ==> !SameAllocation(slots[i], pid, iova, domain)
  {
    if slots == [] || SameAllocation(slots[0], pid, iova, domain) then 0
    else 1 + FirstAllocation(slots[1..], pid, iova, domain)
  }

  /** The first empty slot, or the length of the table. */
  function FirstFree(slots: seq<Option<AllocRecord>>): (p: nat)
    ensures p <= |slots| && (p < |slots| ==> slots[p].None?)
    ensures forall i :: 0 <= i < p ==> slots[i].Some?
  {
    if slots == [] || slots[0].None? then 0 else 1 + FirstFree(slots[1..])
  }

  /** The first n slots of `before` have been cleared of pid's records. */
  ghost predicate ClearedUpTo(before: seq<Option<AllocRecord>>, mapped: map<IovaKey, IovaMapping>,
                              blocks: multiset<Block>, n: nat, pid: nat,
                              slots: seq<Option<AllocRecord>>, m: map<IovaKey, IovaMapping>, givenBack: multiset<Block>)
  {
    n <= |before| && slots == ClearPid(before[..n], pid) + before[n..]
    && m == mapped - AllocKeysOf(before[..n], pid)
    && givenBack == blocks + AllocBlocksOf(before[..n], pid)
  }

  lemma ClearedAll(before: seq<Option<AllocRecord>>, mapped: map<IovaKey, IovaMapping>, blocks: multiset<Block>,
                   pid: nat, slots: seq<Option<AllocRecord>>, m: map<IovaKey, IovaMapping>, givenBack: multiset<Block>)
    requires ClearedUpTo(before, mapped, blocks, |before|, pid, slots, m, givenBack)
    ensures slots == ClearPid(before, pid) && m == mapped - AllocKeysOf(before, pid)
    ensures givenBack == blocks + AllocBlocksOf(before, pid)
  {
    assert before[..|before|] == before;
  }

  lemma ClearedNext(before: seq<Option<AllocRecord>>, mapped: map<IovaKey, IovaMapping>, blocks: multiset<Block>,
                    n: nat, pid: nat,
                    slots: seq<Option<AllocRecord>>, m: map<IovaKey, IovaMapping>, givenBack: multiset<Block>)
    requires ClearedUpTo(before, mapped, blocks, n, pid, slots, m, givenBack) && n < |before|
    ensures n < |slots| && slots[n] == before[n]
    ensures if AllocOf(slots[n], pid) then
              var r := slots[n].value;
              ClearedUpTo(before, mapped, blocks, n + 1, pid, slots[n := None], m - AllocationKeys(r),
                          givenBack + multiset{Block(r.frame, r.order)})
            else
              ClearedUpTo(before, mapped, blocks, n + 1, pid, slots, m, givenBack)
  {
    hide AllocationKeys, ClearPid, AllocKeysOf, AllocBlocksOf;
    ClearedSlots(before, n, pid);
    NextOf(before, n, pid);
  }

  lemma NextOf(slots: seq<Option<AllocRecord>>, n: nat, pid: nat)
    requires n < |slots|
    ensures AllocKeysOf(slots[..n + 1], pid)
            == AllocKeysOf(slots[..n], pid) + if AllocOf(slots[n], pid) then AllocationKeys(slots[n].value) else {}
    ensures AllocBlocksOf(slots[..n + 1], pid)
            == AllocBlocksOf(slots[..n], pid) + if AllocOf(slots[n], pid) then BlocksOfSlot(slots[n]) else multiset{}
  {
    hide AllocationKeys;
    assert slots[..n + 1][..n] == slots[..n];
  }

  lemma BlocksCount(slots: seq<Option<AllocRecord>>, n: nat, pid: nat)
    requires n < |slots|
    ensures |AllocBlocksOf(slots[..n + 1], pid)|
              == |AllocBlocksOf(slots[..n], pid)| + if AllocOf(slots[n], pid) then 1 else 0
  {
    assert slots[..n + 1][..n] == slots[..n];
  }

  lemma ClearedSlots(before: seq<Option<AllocRecord>>, n: nat, pid: nat)
    requires n < |before|
    ensures var slots := ClearPid(before[..n], pid) + before[n..];
            slots[n] == before[n]
            && ClearPid(before[..n + 1], pid) + before[n + 1..]
                == if AllocOf(before[n], pid) then slots[n := None] else slots
  {
  }

  ghost predicate Conserved(handedOut: multiset<Block>, givenBack: multiset<Block>, slots: seq<Option<AllocRecord>>)
  {
    handedOut == givenBack + AllocBlocks(slots)
  }

  lemma ConsistentAfterFill(pins: seq<PinnedFrame>, flagged: set<Frame>, records: seq<DmaRecord>,
                            m: map<IovaKey, IovaMapping>, exclusive: bool, slots: seq<Option<AllocRecord>>,
                            strayed: multiset<IovaKey>, r: AllocRecord, frames: seq<Frame>)
    requires FirstFree(slots) < |slots| && |frames| == PageCount(r.size)
    requires Consistent(pins, flagged, records, m, Reserved(slots, strayed), exclusive)
    ensures Consistent(pins, flagged, records, MapPages(m, r.domain, r.iova, frames, |frames|),
                       Reserved(Filled(slots, r), strayed), exclusive && AllocationKeys(r) !! m.Keys)
  {
    hide AllocKeys, KeyBag, MapPages, FreshPages, Owned, Counts, Flagged;
    if exclusive && AllocationKeys(r) !! m.Keys {
      FreshExactlyWhen(m, r.domain, r.iova, frames, |frames|);
      AfterFill(slots, FirstFree(slots), r);
      OwnedAfterAlloc(records, m, Reserved(slots, strayed), r.domain, r.iova, frames);
      Regroup(AllocKeys(slots), strayed, KeyBag(r.domain, r.iova, |frames|));
    }
  }

  lemma ConsistentAfterTake(pins: seq<PinnedFrame>, flagged: set<Frame>, records: seq<DmaRecord>,
                            m: map<IovaKey, IovaMapping>, exclusive: bool, slots: seq<Option<AllocRecord>>,
                            strayed: multiset<IovaKey>, i: nat)
    requires i < |slots| && slots[i].Some?
    requires Consistent(pins, flagged, records, m, Reserved(slots, strayed), exclusive)
    ensures Consistent(pins, flagged, records, m - AllocationKeys(slots[i].value),
                       Reserved(slots[i := None], strayed), exclusive)
  {
    hide AllocKeys, KeyBag, PageCount, Owned, Counts, Flagged;
    var r := slots[i].value;
    AfterTake(slots, i);
    if exclusive {
      var bag := KeyBag(r.domain, r.iova, PageCount(r.size));
      TakenFromFirst(AllocKeys(slots), strayed, bag);
      OwnedAfterFree(records, m, Reserved(slots, strayed), r.domain, r.iova, PageCount(r.size));
    }
  }

  lemma Regroup<T>(a: multiset<T>, s: multiset<T>, b: multiset<T>)
    ensures a + s + b == a + b + s
  {
  }

  lemma TakenFromFirst<T>(a: multiset<T>, s: multiset<T>, b: multiset<T>)
    requires b <= a
    ensures b <= a + s && a + s - b == a - b + s
  {
  }

  /** An allocation can be forgotten while its pages stay mapped: they have strayed. */
  lemma StrayedAfterLoss(slots: seq<Option<AllocRecord>>, strayed: multiset<IovaKey>, i: nat)
    requires i < |slots| && slots[i].Some?
    ensures Reserved(slots[i := None], strayed + KeysOfSlot(slots[i])) == Reserved(slots, strayed)
  {
    hide AllocKeys, KeyBag, PageCount;
    AfterTake(slots, i);
    var a, b := AllocKeys(slots[i := None]), KeysOfSlot(slots[i]);
    assert AllocKeys(slots) == a + b;
    Regroup(a, strayed, b);
    assert a + (strayed + b) == a + strayed + b;
  }

  /** The table with the record in its first free slot. */
  function Filled(slots: seq<Option<AllocRecord>>, r: AllocRecord): seq<Option<AllocRecord>>
  {
    if FirstFree(slots) < |slots| then slots[FirstFree(slots) := Some(r)] else slots
  }

  lemma ConservedAfterFill(handedOut: multiset<Block>, givenBack: multiset<Block>, slots: seq<Option<AllocRecord>>,
                           r: AllocRecord)
    requires FirstFree(slots) < |slots| && Conserved(handedOut, givenBack, slots)
    ensures Conserved(handedOut + multiset{Block(r.frame, r.order)}, givenBack, Filled(slots, r))
  {
    AfterFill(slots, FirstFree(slots), r);
  }

  lemma ConservedAfterLoan(handedOut: multiset<Block>, givenBack: multiset<Block>, slots: seq<Option<AllocRecord>>,
                           b: Block)
    requires Conserved(handedOut, givenBack, slots)
    ensures Conserved(handedOut + multiset{b}, givenBack + multiset{b}, slots)
  {
  }

  lemma ConservedAfterTake(handedOut: multiset<Block>, givenBack: multiset<Block>, slots: seq<Option<AllocRecord>>,
                           i: nat)
    requires i < |slots| && slots[i].Some? && Conserved(handedOut, givenBack, slots)
    ensures Conserved(handedOut, givenBack + multiset{Block(slots[i].value.frame, slots[i].value.order)},
                      slots[i := None])
  {
    AfterTake(slots, i);
  }

  lemma {:induction false} HeldExactly(records: seq<DmaRecord>, k: IovaKey)
    ensures k in HeldKeys(records) <==> exists r :: r in records && k in RecordKeys(r)
  {
    hide KeyBag, KeySet, PageCount;
    if records != [] {
      var r, rest := records[0], records[1..];
      KeyBagIsKeySet(r.domain, r.iovaBase, PageCount(r.size), k);
      HeldExactly(rest, k);
      assert records == [r] + rest && r in records;
      assert HeldKeys(records) == KeyBag(r.domain, r.iovaBase, PageCount(r.size)) + HeldKeys(rest);
      if k in HeldKeys(rest) {
        var q :| q in rest && k in RecordKeys(q);
        assert q in records;
      }
    }
  }

  lemma {:induction false} AllocatedExactly(slots: seq<Option<AllocRecord>>, k: IovaKey)
    ensures k in AllocKeys(slots) <==> exists s :: s in slots && s.Some? && k in AllocationKeys(s.value)
  {
    hide KeyBag, KeySet, PageCount;
    if slots != [] {
      var s, rest := slots[0], slots[1..];
      if s.Some? { KeyBagIsKeySet(s.value.domain, s.value.iova, PageCount(s.value.size), k); }
      AllocatedExactly(rest, k);
      assert slots == [s] + rest && s in slots;
      if k in AllocKeys(rest) {
        var q :| q in rest && q.Some? && k in AllocationKeys(q.value);
        assert q in slots;
      }
    }
  }

  /** A page is mapped if and only if a record, an allocation or a forgotten allocation owns it. */
  lemma MappedExactlyWhenOwned(records: seq<DmaRecord>, m: map<IovaKey, IovaMapping>, slots: seq<Option<AllocRecord>>,
                               strayed: multiset<IovaKey>, k: IovaKey)
    requires Owned(records, m, Reserved(slots, strayed))
    ensures k in m <==> (exists r :: r in records && k in RecordKeys(r))
                        || (exists s :: s in slots && s.Some? && k in AllocationKeys(s.value)) || k in strayed
  {
    hide HeldKeys, AllocKeys, RecordKeys, AllocationKeys;
    HeldExactly(records, k);
    AllocatedExactly(slots, k);
  }

  lemma {:induction false} EmptyTable(slots: seq<Option<AllocRecord>>)
    requires forall i :: 0 <= i < |slots| ==> slots[i].None?
    ensures AllocKeys(slots) == multiset{} && AllocBlocks(slots) == multiset{}
  {
    if slots != [] { EmptyTable(slots[1..]); }
  }
}
