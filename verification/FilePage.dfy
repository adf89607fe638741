/**
  Demand paging of ELF files: the registry of loaded blobs with the file ranges of their segments,
  the page a fault fills, and what a process then sees at each address of a segment.
*/
module FilePage {
  import opened Wrappers
  import opened Words
  import opened Bytes

  const REGISTRY_CAP: nat := 1024
  const MAX_SEGMENTS: nat := 8

  type BlobId = nat

  /** A file range, end excluded. */
  datatype Segment = Segment(start: u64, end: u64)

  // ---------------------------------------------------------------- registry

  class Registry {
    const ids: array<BlobId>
    const segments: array2<Segment>
    const counts: array<nat>
    var count: nat

    ghost predicate Valid()
      reads this, ids, counts
    {
      && ids.Length == REGISTRY_CAP && counts.Length == REGISTRY_CAP
      && segments.Length0 == REGISTRY_CAP && segments.Length1 == MAX_SEGMENTS
      && ids != counts && count <= REGISTRY_CAP
      && (forall i :: 0 <= i < count ==> counts[i] <= MAX_SEGMENTS)
      && (forall i, j :: 0 <= i < j < count ==> ids[i] != ids[j])
    }

    /** The blobs, in the order of their file identifiers. */
    ghost function Blobs(): seq<BlobId>
      requires Valid()
      reads this, ids, counts
    {
      ids[..count]
    }

    /** The ranges registered for a file identifier. */
    ghost function Ranges(fileId: nat): seq<Segment>
      requires Valid()
      reads this, ids, counts, segments
    {
      if 0 < fileId <= count then
        seq(counts[fileId - 1],
            k requires 0 <= k < counts[fileId - 1] reads this, segments, counts, ids
              requires Valid() && 0 < fileId <= count
              => segments[fileId - 1, k])
      else []
    }

    constructor ()
      ensures Valid() && Blobs() == [] && fresh(ids) && fresh(counts) && fresh(segments)
    {
      ids := new BlobId[REGISTRY_CAP](_ => 0);
      counts := new nat[REGISTRY_CAP](_ => 0);
      segments := new Segment[REGISTRY_CAP, MAX_SEGMENTS]((_, _) => Segment(0, 0));
      count := 0;
    }

    /** The identifier of a blob: the one it has, or the next one while there is room. */
    method Intern(blob: BlobId) returns (r: Option<u64>)
      requires Valid()
      modifies this`count, ids, counts
      ensures Valid()
      ensures blob in old(Blobs()) ==> Blobs() == old(Blobs())
      ensures blob !in old(Blobs()) && |old(Blobs())| < REGISTRY_CAP ==> Blobs() == old(Blobs()) + [blob]
      ensures r == None <==> blob !in old(Blobs()) && |old(Blobs())| == REGISTRY_CAP
      ensures r == None ==> Blobs() == old(Blobs())
      ensures r.Some? ==> 0 < r.value <= |Blobs()| && Blobs()[r.value - 1] == blob
      ensures forall f: nat :: f <= |old(Blobs())| ==> Ranges(f) == old(Ranges(f))
      ensures blob !in old(Blobs()) && r.Some? ==> Ranges(r.value) == []
    {
      for i := 0 to count
        invariant Valid() && count == old(count) && Blobs() == old(Blobs()) && counts[..] == old(counts[..])
        invariant forall k :: 0 <= k < i ==> ids[k] != blob
      {
        if ids[i] == blob {
          assert Blobs()[i] == blob;
          return Some(i + 1);
        }
      }
      assert blob !in Blobs();
      if count >= REGISTRY_CAP {
        return None;
      }
      ids[count] := blob;
      counts[count] := 0;
      count := count + 1;
      return Some(count);
    }

    method Get(fileId: u64) returns (r: Option<BlobId>)
      requires Valid()
      ensures r == if 0 < fileId <= |Blobs()| then Some(Blobs()[fileId - 1]) else None
    {
      if fileId == 0 || fileId - 1 >= count {
        return None;
      }
      return Some(ids[fileId - 1]);
    }

    method ClearSegments(fileId: u64)
      requires Valid()
      modifies counts
      ensures Valid() && Blobs() == old(Blobs())
      ensures forall f: nat :: Ranges(f) == if f == fileId then [] else old(Ranges(f))
    {
      if fileId == 0 || fileId - 1 >= count {
        return;
      }
      counts[fileId - 1] := 0;
    }

    /** Adds a range at the end of a file's list; refused for an unknown file or a full list. */
    method AddSegment(fileId: u64, offset: u64, filesz: u64) returns (ok: bool)
      requires Valid()
      modifies counts, segments
      ensures Valid() && Blobs() == old(Blobs())
      ensures ok <==> 0 < fileId <= |old(Blobs())| && |old(Ranges(fileId))| < MAX_SEGMENTS
      ensures Ranges(fileId) == if ok then old(Ranges(fileId)) + [Segment(offset, SaturatingAdd(offset, filesz))]
                                else old(Ranges(fileId))
      ensures forall f: nat :: f != fileId ==> Ranges(f) == old(Ranges(f))
    {
      if fileId == 0 || fileId - 1 >= count {
        return false;
      }
      var idx, slot := fileId - 1, counts[fileId - 1];
      if slot >= MAX_SEGMENTS {
        return false;
      }
      segments[idx, slot] := Segment(offset, SaturatingAdd(offset, filesz));
      counts[idx] := counts[idx] + 1;
      return true;
    }

    method SegmentsFor(fileId: u64) returns (r: seq<Segment>)
      requires Valid()
      ensures r == Ranges(fileId)
    {
      r := [];
      if fileId == 0 || fileId - 1 >= count {
        return;
      }
      for k := 0 to counts[fileId - 1]
        invariant |r| == k && forall i :: 0 <= i < k ==> r[i] == segments[fileId - 1, i]
      {
        r := r + [segments[fileId - 1, k]];
      }
    }
  }

  datatype AllocError = InvalidParams

  /** A fault on a file: find the blob and its ranges, then fill the page. */
  method LoadPageOfFile(registry: Registry, blobs: BlobId -> Result<seq<byte>, AllocError>, fileId: u64, offset: u64,
                        dst: array<byte>)
    returns (r: Result<(), AllocError>)
    requires registry.Valid() && dst.Length == PAGE_SIZE
    modifies dst
    ensures r.Ok? <==> 0 < fileId <= |registry.Blobs()| && blobs(registry.Blobs()[fileId - 1]).Ok?
    ensures r.Err? ==> dst[..] == old(dst[..])
    ensures r.Ok? ==>
              forall j :: 0 <= j < PAGE_SIZE ==>
                dst[j] == FileByte(blobs(registry.Blobs()[fileId - 1]).value, registry.Ranges(fileId), offset + j)
  {
    var blob := registry.Get(fileId);
    if blob.None? {
      return Err(InvalidParams);
    }
    var data := blobs(blob.value);
    if data.Err? {
      return Err(data.error);
    }
    var segs := registry.SegmentsFor(fileId);
    LoadFilePage(data.value, segs, offset, dst);
    return Ok(());
  }

  // ---------------------------------------------------------------- the page a fault fills

  /** One of the first n ranges holds the file position. */
  predicate CoveredBy(segs: seq<Segment>, n: nat, pos: nat)
    requires n <= |segs|
  {
    n > 0 && (CoveredBy(segs, n - 1, pos) || segs[n - 1].start <= pos < segs[n - 1].end)
  }

  predicate Covered(segs: seq<Segment>, pos: nat) { exists s :: s in segs && s.start <= pos < s.end }

  lemma {:induction false} CoveredIsSome(segs: seq<Segment>, n: nat, pos: nat)
    requires n <= |segs|
    ensures CoveredBy(segs, n, pos) <==> Covered(segs[..n], pos)
  {
    if n > 0 {
      CoveredIsSome(segs, n - 1, pos);
      assert segs[..n] == segs[..n - 1] + [segs[n - 1]];
    }
  }

  /** The byte at a file position as a process sees it: the file's byte inside a registered range, zero elsewhere. */
  function FileByte(data: seq<byte>, segs: seq<Segment>, pos: nat): byte
  {
    if pos < |data| && (segs == [] || Covered(segs, pos)) then data[pos] else 0
  }

  /** Copies the part of one range that falls in the page. */
  method CopyRange(data: seq<byte>, s: Segment, offset: u64, dst: array<byte>)
    requires dst.Length == PAGE_SIZE
    modifies dst
    ensures forall j :: 0 <= j < PAGE_SIZE ==>
              dst[j] == if s.start <= offset + j < s.end && offset + j < |data| then data[offset + j] else old(dst[j])
  {
    var pageEnd := SaturatingAdd(offset, PAGE_SIZE);
    if pageEnd <= s.start || offset >= s.end {
      return;
    }
    var copyStart := if offset > s.start then offset else s.start;
    var copyEnd := if pageEnd < s.end then pageEnd else s.end;
    if copyStart >= copyEnd || copyStart >= |data| {
      return;
    }
    var srcEnd := if copyEnd < |data| then copyEnd else |data|;
    var dstStart := copyStart - offset;
    var len := srcEnd - copyStart;
    forall k | 0 <= k < len {
      dst[dstStart + k] := data[copyStart + k];
    }
    forall j | dstStart <= j < dstStart + len ensures dst[j] == data[offset + j] {
      assert dst[dstStart + (j - dstStart)] == data[copyStart + (j - dstStart)];
    }
  }

  method LoadFilePage(data: seq<byte>, segs: seq<Segment>, offset: u64, dst: array<byte>)
    requires dst.Length == PAGE_SIZE
    modifies dst
    ensures forall j :: 0 <= j < PAGE_SIZE ==> dst[j] == FileByte(data, segs, offset + j)
  {
    forall j | 0 <= j < PAGE_SIZE {
      dst[j] := 0;
    }
    if |segs| == 0 {
      if offset >= |data| {
        return;
      }
      var end := if offset + PAGE_SIZE < |data| then offset + PAGE_SIZE else |data|;
      forall k | 0 <= k < end - offset {
        dst[k] := data[offset + k];
      }
      return;
    }
    for i := 0 to |segs|
      invariant forall j :: 0 <= j < PAGE_SIZE ==>
                  dst[j] == if CoveredBy(segs, i, offset + j) && offset + j < |data| then data[offset + j] else 0
    {
      CopyRange(data, segs[i], offset, dst);
    }
    assert segs[..|segs|] == segs;
    forall j | 0 <= j < PAGE_SIZE ensures dst[j] == FileByte(data, segs, offset + j) {
      CoveredIsSome(segs, |segs|, offset + j);
    }
  }

  /** The page depends on the ranges as a set: neither their order nor repetition matters. */
  lemma OrderDoesNotMatter(data: seq<byte>, a: seq<Segment>, b: seq<Segment>, pos: nat)
    requires forall s :: s in a <==> s in b
    ensures FileByte(data, a, pos) == FileByte(data, b, pos)
  {
    if a != [] { assert a[0] in b; }
    if b != [] { assert b[0] in a; }
  }

  // ---------------------------------------------------------------- what a process sees

  /** A loadable segment of the program header table. */
  datatype Load = Load(vaddr: u64, offset: u64, filesz: u64, memsz: u64)

  datatype Vma = Vma(start: u64, end: nat, fileOffset: u64)

  function VmaOf(l: Load): Vma
  {
    Vma(PageDown(l.vaddr), PageDown(SaturatingAdd(SaturatingAdd(l.vaddr, l.memsz), PAGE_SIZE - 1)), PageDown(l.offset))
  }

  /** The file offset of the page that a fault at address a loads. */
  function FaultOffset(v: Vma, a: u64): u64
    requires v.start <= PageDown(a)
  {
    SaturatingAdd(v.fileOffset, PageDown(a) - v.start)
  }

  /** The byte a process reads at address a of a segment, after the fault. */
  function SeenByte(data: seq<byte>, segs: seq<Segment>, l: Load, a: u64): byte
    requires VmaOf(l).start <= PageDown(a)
  {
    FileByte(data, segs, FaultOffset(VmaOf(l), a) + a % PAGE_SIZE)
  }

  lemma PageDownMonotone(x: u64, y: u64)
    requires x <= y
    ensures PageDown(x) <= PageDown(y)
  {
  }

  /** The file position behind address a, when the file range does not reach the end of the offset space. */
  lemma FaultPosition(l: Load, a: u64)
    requires l.vaddr <= a && l.offset + (a - l.vaddr) + PAGE_SIZE < U64_SIZE
    ensures VmaOf(l).start <= PageDown(a)
    ensures FaultOffset(VmaOf(l), a) + a % PAGE_SIZE
              == l.offset + (a - l.vaddr) + l.vaddr % PAGE_SIZE - l.offset % PAGE_SIZE
  {
    PageDownMonotone(l.vaddr, a);
  }

  /** The ranges registered for a list of segments, in order. */
  function RangesOf(loads: seq<Load>): (r: seq<Segment>)
    ensures |r| == |loads|
    ensures forall i :: 0 <= i < |loads| ==>
              r[i] == Segment(loads[i].offset, SaturatingAdd(loads[i].offset, loads[i].filesz))
  {
    seq(|loads|, i requires 0 <= i < |loads| =>
      Segment(loads[i].offset, SaturatingAdd(loads[i].offset, loads[i].filesz)))
  }

  /** The loader's own checks of a segment: memory holds the file part, which lies inside the blob. */
  predicate Accepted(data: seq<byte>, l: Load) { l.filesz <= l.memsz && l.offset + l.filesz <= |data| }

  /**
    Every file-backed address of every segment reads its own file byte, whatever the other segments
    are, when address and offset agree within a page.
  */
  lemma EverySegmentSeesItsFile(data: seq<byte>, loads: seq<Load>, i: nat, a: u64)
    requires i < |loads| && Accepted(data, loads[i]) && |data| + PAGE_SIZE < U64_SIZE
    requires loads[i].vaddr <= a < loads[i].vaddr + loads[i].filesz
    requires loads[i].vaddr % PAGE_SIZE == loads[i].offset % PAGE_SIZE
    ensures VmaOf(loads[i]).start <= PageDown(a)
    ensures SeenByte(data, RangesOf(loads), loads[i], a) == data[loads[i].offset + (a - loads[i].vaddr)]
  {
    FaultPosition(loads[i], a);
    assert RangesOf(loads)[i] in RangesOf(loads);
  }

  /** And only then: otherwise the page holds another part of the file. */
  lemma OwnPositionExactlyWhenCongruent(l: Load, a: u64)
    requires l.vaddr <= a && l.offset + (a - l.vaddr) + PAGE_SIZE < U64_SIZE
    ensures VmaOf(l).start <= PageDown(a)
    ensures FaultOffset(VmaOf(l), a) + a % PAGE_SIZE == l.offset + (a - l.vaddr)
            <==> l.vaddr % PAGE_SIZE == l.offset % PAGE_SIZE
  {
    FaultPosition(l, a);
  }

  /** Another segment's file range holds the position. */
  predicate InAnother(loads: seq<Load>, i: nat, pos: nat)
  {
    exists j :: 0 <= j < |loads| && j != i && loads[j].offset <= pos < loads[j].offset + loads[j].filesz
  }

  /** Past its file part a segment reads zero exactly when no other segment puts a non-zero file byte there. */
  lemma BssIsZeroExactlyWhen(data: seq<byte>, loads: seq<Load>, i: nat, a: u64)
    requires i < |loads| && |data| + PAGE_SIZE < U64_SIZE && loads[i].offset + loads[i].memsz + PAGE_SIZE < U64_SIZE
    requires loads[i].vaddr + loads[i].filesz <= a < loads[i].vaddr + loads[i].memsz
    requires loads[i].vaddr % PAGE_SIZE == loads[i].offset % PAGE_SIZE
    ensures VmaOf(loads[i]).start <= PageDown(a)
    ensures var pos := loads[i].offset + (a - loads[i].vaddr);
            SeenByte(data, RangesOf(loads), loads[i], a) == 0
            <==> !(pos < |data| && data[pos] != 0 && InAnother(loads, i, pos))
  {
    FaultPosition(loads[i], a);
    var pos, segs := loads[i].offset + (a - loads[i].vaddr), RangesOf(loads);
    if Covered(segs, pos) {
      var s :| s in segs && s.start <= pos < s.end;
      var j :| 0 <= j < |loads| && s == segs[j];
      assert InAnother(loads, i, pos);
    }
    if pos < |data| && InAnother(loads, i, pos) {
      var j :| 0 <= j < |loads| && j != i && loads[j].offset <= pos < loads[j].offset + loads[j].filesz;
      assert segs[j] in segs;
      assert Covered(segs, pos);
    }
  }

  /** With another segment right behind it in the file, the zero-initialised part shows that segment's bytes. */
  lemma BssCanShowTheNextSegment()
    ensures var data := seq(8192, i => if i < 4096 then 1 else 2);
            var first := Load(0x400000, 0, 4096, 8192);
            var second := Load(0x600000, 4096, 4096, 4096);
            Accepted(data, first) && Accepted(data, second)
            && SeenByte(data, RangesOf([first, second]), first, 0x401000) == 2
  {
    var second := Load(0x600000, 4096, 4096, 4096);
    var segs := RangesOf([Load(0x400000, 0, 4096, 8192), second]);
    assert segs[1] == Segment(4096, 8192);
    assert segs[1] in segs;
  }
}
