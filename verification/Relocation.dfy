/**
  Loading a position-independent kernel image and relocating it in place.

  Positions in the image are offsets from its lowest virtual address, so the load base only enters
  through the values stored.  The relocation table is read from the image while the image is being
  changed.  A relocation outside the image is not defined by the loader; here it stops the run.
*/
module Relocation {
  import opened Wrappers
  import opened Words
  import opened Bytes

  const RELA_SIZE: nat := 24
  const DYN_SIZE: nat := 16

  // ---------------------------------------------------------------- loading

  datatype Segment = Segment(isLoad: bool, offset: u64, vaddr: u64, filesz: u64, memsz: u64)

  datatype LoadError = SegmentOutOfFile | NoPtLoadSegments | VirtAddressOverflow

  predicate Loads(s: Segment) { s.isLoad && s.memsz > 0 }

  /** How many bytes loading a segment writes; the loader does not insist that the memory size covers the file part. */
  function Extent(s: Segment): nat { if s.filesz > s.memsz then s.filesz else s.memsz }

  /** What a segment puts into memory: its file part, then zeros. */
  function Contents(data: seq<byte>, s: Segment): (r: seq<byte>)
    requires s.offset + s.filesz <= |data|
    ensures |r| == Extent(s)
  {
    data[s.offset..s.offset + s.filesz] + Zeros(Extent(s) - s.filesz)
  }

  /** The segment's file part lies in the file and its memory in the image, which starts at the least address vbase. */
  predicate Fits(data: seq<byte>, s: Segment, vbase: u64, size: nat)
  {
    s.offset + s.filesz <= |data| && vbase <= s.vaddr && s.vaddr - vbase + Extent(s) <= size
  }

  function LoadOne(mem: seq<byte>, data: seq<byte>, s: Segment, vbase: u64): (r: seq<byte>)
    requires Loads(s) ==> Fits(data, s, vbase, |mem|)
    ensures |r| == |mem|
  {
    if Loads(s) then Splice(mem, s.vaddr - vbase, Contents(data, s)) else mem
  }

  function LoadAll(mem: seq<byte>, data: seq<byte>, segs: seq<Segment>, vbase: u64): (r: seq<byte>)
    requires forall s :: s in segs && Loads(s) ==> Fits(data, s, vbase, |mem|)
    ensures |r| == |mem|
  {
    if segs == [] then mem
    else
      assert segs[|segs| - 1] in segs;
      LoadOne(LoadAll(mem, data, segs[..|segs| - 1], vbase), data, segs[|segs| - 1], vbase)
  }

  /** Offset k belongs to a loaded segment. */
  predicate Loaded(segs: seq<Segment>, vbase: u64, k: int)
  {
    exists s :: s in segs && Loads(s) && s.vaddr <= vbase + k < s.vaddr + Extent(s)
  }

  /** What loading leaves in the loaded bytes does not depend on what memory held before. */
  lemma {:induction false} LoadIgnoresMemory(a: seq<byte>, b: seq<byte>, data: seq<byte>, segs: seq<Segment>,
                                             vbase: u64, k: nat)
    requires |a| == |b| && k < |a| && forall s :: s in segs && Loads(s) ==> Fits(data, s, vbase, |a|)
    requires Loaded(segs, vbase, k)
    ensures LoadAll(a, data, segs, vbase)[k] == LoadAll(b, data, segs, vbase)[k]
  {
    var last, rest := segs[|segs| - 1], segs[..|segs| - 1];
    if !(Loads(last) && last.vaddr <= vbase + k < last.vaddr + Extent(last)) {
      var s :| s in segs && Loads(s) && s.vaddr <= vbase + k < s.vaddr + Extent(s);
      assert s in rest;
      LoadIgnoresMemory(a, b, data, rest, vbase, k);
    }
  }

  lemma SplicedByte(mem: seq<byte>, data: seq<byte>, s: Segment, vbase: u64, at: nat)
    requires Fits(data, s, vbase, |mem|) && at < |mem|
    ensures var k := vbase + at - s.vaddr;
            Splice(mem, s.vaddr - vbase, Contents(data, s))[at]
              == if k < 0 || Extent(s) <= k then mem[at] else if k < s.filesz then data[s.offset + k] else 0
  {
  }

  /** A byte of the last segment that covers it comes from the file, or is zero past the file part. */
  lemma LoadedByte(mem: seq<byte>, data: seq<byte>, segs: seq<Segment>, vbase: u64, i: nat, k: nat)
    requires forall s :: s in segs && Loads(s) ==> Fits(data, s, vbase, |mem|)
    requires i < |segs| && segs[i].isLoad && segs[i].memsz > 0 && k < Extent(segs[i])
    requires forall j :: i < j < |segs| && segs[j].isLoad && segs[j].memsz > 0 ==>
               !(segs[j].vaddr <= segs[i].vaddr + k < segs[j].vaddr + Extent(segs[j]))
    ensures segs[i] in segs
    ensures LoadAll(mem, data, segs, vbase)[segs[i].vaddr - vbase + k]
              == if k < segs[i].filesz then data[segs[i].offset + k] else 0
    decreases |segs|
  {
    hide Splice, Contents, Zeros;
    var last, rest := segs[|segs| - 1], segs[..|segs| - 1];
    assert last in segs && segs[i] in segs;
    var before := LoadAll(mem, data, rest, vbase);
    if i < |rest| {
      assert rest[i] == segs[i];
      LoadedByte(mem, data, rest, vbase, i, k);
    }
    if Loads(last) {
      SplicedByte(before, data, last, vbase, segs[i].vaddr - vbase + k);
    }
  }

  /** A byte of no loaded segment is what memory held before. */
  lemma {:induction false} LoadLeavesOthers(mem: seq<byte>, data: seq<byte>, segs: seq<Segment>, vbase: u64, k: nat)
    requires (forall s :: s in segs && Loads(s) ==> Fits(data, s, vbase, |mem|)) && k < |mem|
    requires forall s :: s in segs && s.isLoad && s.memsz > 0 ==> !(s.vaddr <= vbase + k < s.vaddr + Extent(s))
    ensures LoadAll(mem, data, segs, vbase)[k] == mem[k]
  {
    hide Splice, Contents;
    if segs != [] {
      var last, rest := segs[|segs| - 1], segs[..|segs| - 1];
      assert last in segs;
      LoadLeavesOthers(mem, data, rest, vbase, k);
      if Loads(last) { SplicedByte(LoadAll(mem, data, rest, vbase), data, last, vbase, k); }
    }
  }

  // ---------------------------------------------------------------- relocation entries

  datatype Rela = Rela(offset: u64, kind: nat, sym: nat, addend: u64)

  const R_64: nat := 1
  const R_RELATIVE: nat := 8

  function ReadRela(v: seq<byte>, at: nat): Rela
    requires at + RELA_SIZE <= |v|
  {
    Rela(Read64(v, at), Read64(v, at + 8) % U32_SIZE, Read64(v, at + 8) / U32_SIZE, Read64(v, at + 16))
  }

  predicate Relative(e: Rela) { e.kind == R_RELATIVE }

  /** A 64-bit relocation without a symbol, which adds to what is stored. */
  predicate Absolute(e: Rela) { e.kind == R_64 && e.sym == 0 }

  predicate Writes(e: Rela) { Relative(e) || Absolute(e) }

  /** The offset an entry changes, in 64-bit arithmetic. */
  function Target(e: Rela, vbase: u64): u64 { WrappingSub(e.offset, vbase) }

  predicate InImage(e: Rela, vbase: u64, size: nat) { Writes(e) ==> Target(e, vbase) + 8 <= size }

  function Stored(v: seq<byte>, base: u64, vbase: u64, e: Rela): u64
    requires Writes(e) && InImage(e, vbase, |v|)
  {
    if Relative(e) then (base + e.addend) % U64_SIZE else (Read64(v, Target(e, vbase)) + e.addend) % U64_SIZE
  }

  function ApplyOne(v: seq<byte>, base: u64, vbase: u64, e: Rela): (r: seq<byte>)
    requires InImage(e, vbase, |v|)
    ensures |r| == |v|
  {
    if Writes(e) then Splice(v, Target(e, vbase), Word(Stored(v, base, vbase, e))) else v
  }

  /** The image after n entries of the table at `at`, each read when its turn comes, and how many were relative. */
  function ApplyTable(v: seq<byte>, base: u64, vbase: u64, at: nat, n: nat): (r: Option<(seq<byte>, nat)>)
    requires at + RELA_SIZE * n <= |v|
    ensures r.Some? ==> |r.value.0| == |v|
  {
    if n == 0 then Some((v, 0))
    else
      var before := ApplyTable(v, base, vbase, at, n - 1);
      if before.None? then None
      else
        var e := ReadRela(before.value.0, at + RELA_SIZE * (n - 1));
        if !InImage(e, vbase, |v|) then None
        else Some((ApplyOne(before.value.0, base, vbase, e), before.value.1 + if Relative(e) then 1 else 0))
  }

  // ---------------------------------------------------------------- the table stays as it was

  function ApplyList(v: seq<byte>, base: u64, vbase: u64, es: seq<Rela>): (r: seq<byte>)
    requires forall e :: e in es ==> InImage(e, vbase, |v|)
    ensures |r| == |v|
  {
    if es == [] then v else ApplyOne(ApplyList(v, base, vbase, es[..|es| - 1]), base, vbase, es[|es| - 1])
  }

  function Entries(v: seq<byte>, at: nat, n: nat): (es: seq<Rela>)
    requires at + RELA_SIZE * n <= |v|
    ensures |es| == n
  {
    if n == 0 then [] else Entries(v, at, n - 1) + [ReadRela(v, at + RELA_SIZE * (n - 1))]
  }

  function Relatives(es: seq<Rela>): nat
  {
    if es == [] then 0 else Relatives(es[..|es| - 1]) + if Relative(es[|es| - 1]) then 1 else 0
  }

  /** Every entry changes the image only, and not the table [lo, hi). */
  predicate Spares(es: seq<Rela>, vbase: u64, size: nat, lo: nat, hi: nat)
  {
    forall e :: e in es && Writes(e) ==>
      Target(e, vbase) + 8 <= size && (Target(e, vbase) + 8 <= lo || hi <= Target(e, vbase))
  }

  lemma {:induction false} ListSpares(v: seq<byte>, base: u64, vbase: u64, es: seq<Rela>, lo: nat, hi: nat)
    requires lo <= hi <= |v| && Spares(es, vbase, |v|, lo, hi)
    ensures ApplyList(v, base, vbase, es)[lo..hi] == v[lo..hi]
  {
    if es != [] {
      ListSpares(v, base, vbase, es[..|es| - 1], lo, hi);
      var w, e := ApplyList(v, base, vbase, es[..|es| - 1]), es[|es| - 1];
      if Writes(e) {
        assert e in es;
        SpliceSpares(w, Target(e, vbase), Word(Stored(w, base, vbase, e)), lo, hi);
      }
    }
  }

  lemma SpliceSpares(v: seq<byte>, at: nat, bytes: seq<byte>, lo: nat, hi: nat)
    requires at + |bytes| <= |v| && lo <= hi <= |v| && (at + |bytes| <= lo || hi <= at)
    ensures Splice(v, at, bytes)[lo..hi] == v[lo..hi]
  {
  }

  lemma SameRela(v: seq<byte>, w: seq<byte>, lo: nat, hi: nat, at: nat)
    requires |v| == |w| && lo <= at && at + RELA_SIZE <= hi <= |v| && v[lo..hi] == w[lo..hi]
    ensures ReadRela(v, at) == ReadRela(w, at)
  {
    SameWord(v, w, lo, hi, at);
    SameWord(v, w, lo, hi, at + 8);
    SameWord(v, w, lo, hi, at + 16);
  }

  lemma SameWord(v: seq<byte>, w: seq<byte>, lo: nat, hi: nat, at: nat)
    requires |v| == |w| && lo <= at && at + 8 <= hi <= |v| && v[lo..hi] == w[lo..hi]
    ensures Read64(v, at) == Read64(w, at)
  {
    forall k | at <= k < at + 8 ensures v[k] == w[k] {
      assert v[lo..hi][k - lo] == w[lo..hi][k - lo];
    }
    assert v[at..at + 8] == w[at..at + 8];
  }

  lemma SparesSplit(es: seq<Rela>, e: Rela, vbase: u64, size: nat, lo: nat, hi: nat)
    requires Spares(es + [e], vbase, size, lo, hi)
    ensures Spares(es, vbase, size, lo, hi) && forall d :: d in es + [e] ==> InImage(d, vbase, size)
  {
    hide Target;
    forall d | d in es ensures d in es + [e] {
    }
  }

  lemma EmptyList(v: seq<byte>, base: u64, vbase: u64)
    ensures ApplyList(v, base, vbase, []) == v && Relatives([]) == 0
  {
  }

  /** If no entry of the initial table touches the table, running it in place is running that list. */
  lemma {:induction false} TableRunsAsList(v: seq<byte>, base: u64, vbase: u64, at: nat, n: nat, total: nat)
    requires n <= total && at + RELA_SIZE * total <= |v|
    requires Spares(Entries(v, at, n), vbase, |v|, at, at + RELA_SIZE * total)
    ensures ApplyTable(v, base, vbase, at, n)
              == Some((ApplyList(v, base, vbase, Entries(v, at, n)), Relatives(Entries(v, at, n))))
  {
    hide ReadRela, Target, ApplyOne, Relative, Absolute, Spares, ApplyList, Relatives;
    if n == 0 {
      EmptyList(v, base, vbase);
    } else {
      var es, here := Entries(v, at, n - 1), at + RELA_SIZE * (n - 1);
      var e := ReadRela(v, here);
      SparesSplit(es, e, vbase, |v|, at, at + RELA_SIZE * total);
      TableRunsAsList(v, base, vbase, at, n - 1, total);
      ListSnoc(v, base, vbase, es, e);
      var w := ApplyList(v, base, vbase, es);
      ListSpares(v, base, vbase, es, at, at + RELA_SIZE * total);
      SameRela(v, w, at, at + RELA_SIZE * total, here);
    }
  }

  lemma ListSnoc(v: seq<byte>, base: u64, vbase: u64, es: seq<Rela>, e: Rela)
    requires forall d :: d in es + [e] ==> InImage(d, vbase, |v|)
    ensures forall d :: d in es ==> InImage(d, vbase, |v|)
    ensures InImage(e, vbase, |v|)
    ensures ApplyList(v, base, vbase, es + [e]) == ApplyOne(ApplyList(v, base, vbase, es), base, vbase, e)
    ensures Relatives(es + [e]) == Relatives(es) + if Relative(e) then 1 else 0
  {
    var all := es + [e];
    assert all[..|all| - 1] == es && e in all;
    forall d | d in es ensures InImage(d, vbase, |v|) { assert d in all; }
  }

  // ---------------------------------------------------------------- two bases

  /** x and y differ as the bases p and q do. */
  predicate Shifted(x: u64, y: u64, p: u64, q: u64) { (x + q) % U64_SIZE == (y + p) % U64_SIZE }

  lemma RelativeIsShifted(addend: u64, p: u64, q: u64)
    ensures Shifted((p + addend) % U64_SIZE, (q + addend) % U64_SIZE, p, q)
  {
    WrapOnce(p + addend, q);
    WrapOnce(q + addend, p);
  }

  /** A sum may be reduced before more is added. */
  lemma WrapOnce(x: nat, y: nat)
    requires x < 2 * U64_SIZE
    ensures (x % U64_SIZE + y) % U64_SIZE == (x + y) % U64_SIZE
  {
    if x >= U64_SIZE {
      assert x % U64_SIZE == x - U64_SIZE;
      assert (x - U64_SIZE + y + U64_SIZE) % U64_SIZE == (x - U64_SIZE + y) % U64_SIZE;
    }
  }

  predicate Apart(t: nat, u: nat) { t + 8 <= u || u + 8 <= t }

  /** A word patched with the base is patched by nothing else, except another such entry for the same word. */
  predicate Orderly(es: seq<Rela>, vbase: u64)
  {
    forall d, e :: d in es && e in es && Relative(d) && Writes(e) ==>
      (Relative(e) && Target(d, vbase) == Target(e, vbase)) || Apart(Target(d, vbase), Target(e, vbase))
  }

  predicate InPatched(es: seq<Rela>, vbase: u64, k: nat)
  {
    exists e :: e in es && Relative(e) && Target(e, vbase) <= k < Target(e, vbase) + 8
  }

  /** The words that entries add to lie in the bytes `same`. */
  predicate AddsWithin(es: seq<Rela>, vbase: u64, same: set<nat>)
  {
    forall e, k :: e in es && Absolute(e) && Target(e, vbase) <= k < Target(e, vbase) + 8 ==> k in same
  }

  /** v and w agree on `same`, outside the patched words, and each patched word differs by the bases. */
  ghost predicate Alike(v: seq<byte>, w: seq<byte>, p: u64, q: u64, vbase: u64, es: seq<Rela>, same: set<nat>)
  {
    && |v| == |w|
    && (forall e :: e in es ==> InImage(e, vbase, |v|))
    && (forall k :: 0 <= k < |v| && k in same && !InPatched(es, vbase, k) ==> v[k] == w[k])
    && (forall e :: e in es && Relative(e) ==> Shifted(Read64(v, Target(e, vbase)), Read64(w, Target(e, vbase)), p, q))
  }

  lemma AlikeAfterRelative(v: seq<byte>, w: seq<byte>, p: u64, q: u64, vbase: u64, es: seq<Rela>, e: Rela,
                           same: set<nat>)
    requires Alike(v, w, p, q, vbase, es, same) && Relative(e) && InImage(e, vbase, |v|) && Orderly(es + [e], vbase)
    ensures Alike(ApplyOne(v, p, vbase, e), ApplyOne(w, q, vbase, e), p, q, vbase, es + [e], same)
  {
    hide Target, Shifted, Word, Read64;
    var t, x, y := Target(e, vbase), Stored(v, p, vbase, e), Stored(w, q, vbase, e);
    var v', w' := ApplyOne(v, p, vbase, e), ApplyOne(w, q, vbase, e);
    RelativeIsShifted(e.addend, p, q);
    forall d | d in es + [e] && Relative(d)
      ensures Shifted(Read64(v', Target(d, vbase)), Read64(w', Target(d, vbase)), p, q)
    {
      assert e in es + [e];
      if Target(d, vbase) == t {
        ReadWritten(v, t, x);
        ReadWritten(w, t, y);
      } else {
        ReadElsewhere(v, t, Word(x), Target(d, vbase));
        ReadElsewhere(w, t, Word(y), Target(d, vbase));
      }
    }
    forall k | 0 <= k < |v| && k in same && !InPatched(es + [e], vbase, k) ensures v'[k] == w'[k] {
      assert e in es + [e];
      assert !InPatched(es, vbase, k);
    }
  }

  lemma SameAddedWord(v: seq<byte>, w: seq<byte>, p: u64, q: u64, vbase: u64, es: seq<Rela>, e: Rela, same: set<nat>)
    requires Alike(v, w, p, q, vbase, es, same) && Absolute(e) && InImage(e, vbase, |v|) && Orderly(es + [e], vbase)
    requires AddsWithin(es + [e], vbase, same)
    ensures Read64(v, Target(e, vbase)) == Read64(w, Target(e, vbase))
  {
    var t := Target(e, vbase);
    assert e in es + [e];
    forall k | t <= k < t + 8 ensures v[k] == w[k] {
      assert k in same;
      assert !InPatched(es, vbase, k);
    }
    assert v[t..t + 8] == w[t..t + 8];
  }

  lemma AlikeAfterAbsolute(v: seq<byte>, w: seq<byte>, p: u64, q: u64, vbase: u64, es: seq<Rela>, e: Rela,
                           same: set<nat>)
    requires Alike(v, w, p, q, vbase, es, same) && Absolute(e) && InImage(e, vbase, |v|) && Orderly(es + [e], vbase)
    requires AddsWithin(es + [e], vbase, same)
    ensures Alike(ApplyOne(v, p, vbase, e), ApplyOne(w, q, vbase, e), p, q, vbase, es + [e], same)
  {
    hide Target, Shifted, Word, Read64;
    SameAddedWord(v, w, p, q, vbase, es, e, same);
    var t, x := Target(e, vbase), Stored(v, p, vbase, e);
    var v', w' := ApplyOne(v, p, vbase, e), ApplyOne(w, q, vbase, e);
    forall d | d in es + [e] && Relative(d)
      ensures Shifted(Read64(v', Target(d, vbase)), Read64(w', Target(d, vbase)), p, q)
    {
      assert e in es + [e] && d in es;
      ReadElsewhere(v, t, Word(x), Target(d, vbase));
      ReadElsewhere(w, t, Word(x), Target(d, vbase));
    }
    forall k | 0 <= k < |v| && k in same && !InPatched(es + [e], vbase, k) ensures v'[k] == w'[k] {
      assert !InPatched(es, vbase, k);
    }
  }

  lemma {:induction false} ListIsBaseIndependent(v: seq<byte>, w: seq<byte>, p: u64, q: u64, vbase: u64, es: seq<Rela>,
                                                 same: set<nat>)
    requires |v| == |w| && (forall k :: 0 <= k < |v| && k in same ==> v[k] == w[k])
    requires (forall e :: e in es ==> InImage(e, vbase, |v|)) && Orderly(es, vbase) && AddsWithin(es, vbase, same)
    ensures Alike(ApplyList(v, p, vbase, es), ApplyList(w, q, vbase, es), p, q, vbase, es, same)
  {
    if es != [] {
      var rest, e := es[..|es| - 1], es[|es| - 1];
      assert es == rest + [e];
      ListIsBaseIndependent(v, w, p, q, vbase, rest, same);
      var v', w' := ApplyList(v, p, vbase, rest), ApplyList(w, q, vbase, rest);
      if Relative(e) {
        AlikeAfterRelative(v', w', p, q, vbase, rest, e, same);
      } else if Absolute(e) {
        AlikeAfterAbsolute(v', w', p, q, vbase, rest, e, same);
      }
    }
  }

  // ---------------------------------------------------------------- the dynamic section

  datatype DynInfo = DynInfo(rela: Option<u64>, size: Option<u64>, entry: u64)

  function Noted(d: DynInfo, tag: u64, val: u64): DynInfo
  {
    if tag == 7 then d.(rela := Some(val))
    else if tag == 8 then d.(size := Some(val))
    else if tag == 9 then d.(entry := val)
    else d
  }

  /** What entries i.. of the dynamic section add, up to its null entry; `None` when one is read outside the image. */
  function ScanDynamic(v: seq<byte>, at: nat, i: nat, count: nat, d: DynInfo): Option<DynInfo>
    requires i <= count
    decreases count - i
  {
    var here := at + DYN_SIZE * i;
    if i == count then Some(d)
    else if here + DYN_SIZE > |v| then None
    else if Read64(v, here) == 0 then Some(d)
    else ScanDynamic(v, at, i + 1, count, Noted(d, Read64(v, here), Read64(v, here + 8)))
  }

  /** How many entries that reads, counted from the first; it stops at the null entry. */
  function EntriesRead(v: seq<byte>, at: nat, i: nat, count: nat): (n: nat)
    requires i <= count
    ensures i <= n <= count
    decreases count - i
  {
    var here := at + DYN_SIZE * i;
    if i == count || here + DYN_SIZE > |v| then i
    else if Read64(v, here) == 0 then i + 1
    else EntriesRead(v, at, i + 1, count)
  }

  datatype Dynamic = Dynamic(vaddr: u64, filesz: u64)

  datatype RelocationError = InvalidDynamicSize | UnexpectedRelaEntSize | NoRelativeRelocations

  datatype Plan = Nothing | Bad(error: RelocationError) | Outside | Table(at: nat, count: nat)

  const NO_INFO: DynInfo := DynInfo(None, None, RELA_SIZE)

  /** Where the relocation table is; `Outside` when the dynamic section or the table is read from outside the image. */
  function PlanOf(v: seq<byte>, vbase: u64, pie: bool, dyn: Option<Dynamic>): Plan
  {
    if dyn.None? || !pie then Nothing
    else if dyn.value.filesz % DYN_SIZE != 0 then Bad(InvalidDynamicSize)
    else
      var found := ScanDynamic(v, WrappingSub(dyn.value.vaddr, vbase), 0, dyn.value.filesz / DYN_SIZE, NO_INFO);
      if found.None? then Outside
      else
        var d := found.value;
        if d.rela.None? || d.size.None? || d.size.value == 0 then Nothing
        else if d.entry != RELA_SIZE then Bad(UnexpectedRelaEntSize)
        else
          var at, count := WrappingSub(d.rela.value, vbase), d.size.value / RELA_SIZE;
          if count == 0 then Nothing
          else if at + RELA_SIZE * count > |v| then Outside
          else Table(at, count)
  }

  datatype Outcome = Undefined | Done(result: Result<(), RelocationError>, image: seq<byte>)

  function Relocate(v: seq<byte>, base: u64, vbase: u64, pie: bool, dyn: Option<Dynamic>): Outcome
  {
    match PlanOf(v, vbase, pie, dyn)
    case Nothing => Done(Ok(()), v)
    case Bad(e) => Done(Err(e), v)
    case Outside => Undefined
    case Table(at, n) =>
      var r := ApplyTable(v, base, vbase, at, n);
      if r.None? then Undefined
      else Done(if r.value.1 == 0 && n > 0 then Err(NoRelativeRelocations) else Ok(()), r.value.0)
  }

  // ---------------------------------------------------------------- base independence

  function LoadedOffsets(segs: seq<Segment>, vbase: u64, size: nat): set<nat>
  {
    set k: nat | 0 <= k < size && Loaded(segs, vbase, k)
  }

  predicate Within(lo: nat, hi: nat, same: set<nat>) { forall k :: lo <= k < hi ==> k in same }

  lemma SameOnRange(v: seq<byte>, w: seq<byte>, same: set<nat>, lo: nat, hi: nat)
    requires |v| == |w| && (forall k :: 0 <= k < |v| && k in same ==> v[k] == w[k]) && lo <= hi <= |v|
             && Within(lo, hi, same)
    ensures v[lo..hi] == w[lo..hi]
  {
  }

  lemma {:induction false} SameScan(v: seq<byte>, w: seq<byte>, same: set<nat>, at: nat, i: nat, count: nat, d: DynInfo)
    requires |v| == |w| && (forall k :: 0 <= k < |v| && k in same ==> v[k] == w[k])
    requires i <= count && Within(at, at + DYN_SIZE * EntriesRead(v, at, i, count), same)
    ensures ScanDynamic(v, at, i, count, d) == ScanDynamic(w, at, i, count, d)
    decreases count - i
  {
    var here := at + DYN_SIZE * i;
    if i < count && here + DYN_SIZE <= |v| {
      assert EntriesRead(v, at, i, count) > i;
      SameOnRange(v, w, same, here, here + DYN_SIZE);
      SameWord(v, w, here, here + DYN_SIZE, here);
      SameWord(v, w, here, here + DYN_SIZE, here + 8);
      if Read64(v, here) != 0 {
        SameScan(v, w, same, at, i + 1, count, Noted(d, Read64(v, here), Read64(v, here + 8)));
      }
    }
  }

  lemma {:induction false} SameEntries(v: seq<byte>, w: seq<byte>, at: nat, n: nat, hi: nat)
    requires |v| == |w| && at + RELA_SIZE * n <= hi <= |v| && v[at..hi] == w[at..hi]
    ensures Entries(v, at, n) == Entries(w, at, n)
  {
    if n > 0 {
      SameEntries(v, w, at, n - 1, hi);
      SameRela(v, w, at, hi, at + RELA_SIZE * (n - 1));
    }
  }

  /** What is read of the dynamic section, and the relocation table, lie in loaded bytes. */
  predicate TablesLoaded(v: seq<byte>, vbase: u64, pie: bool, dyn: Option<Dynamic>, same: set<nat>)
  {
    var plan := PlanOf(v, vbase, pie, dyn);
    && !plan.Outside?
    && (dyn.Some? && pie && dyn.value.filesz % DYN_SIZE == 0 ==>
          var at := WrappingSub(dyn.value.vaddr, vbase);
          Within(at, at + DYN_SIZE * EntriesRead(v, at, 0, dyn.value.filesz / DYN_SIZE), same))
    && (plan.Table? ==> Within(plan.at, plan.at + RELA_SIZE * plan.count, same))
  }

  lemma SamePlan(v: seq<byte>, w: seq<byte>, vbase: u64, pie: bool, dyn: Option<Dynamic>, same: set<nat>)
    requires |v| == |w| && (forall k :: 0 <= k < |v| && k in same ==> v[k] == w[k])
    requires TablesLoaded(v, vbase, pie, dyn, same)
    ensures PlanOf(v, vbase, pie, dyn) == PlanOf(w, vbase, pie, dyn)
  {
    hide ScanDynamic, EntriesRead, WrappingSub;
    if dyn.Some? && pie && dyn.value.filesz % DYN_SIZE == 0 {
      var at, count := WrappingSub(dyn.value.vaddr, vbase), dyn.value.filesz / DYN_SIZE;
      SameScan(v, w, same, at, 0, count, NO_INFO);
    }
  }

  /** The entries of the image as loaded. */
  function TableOf(v: seq<byte>, plan: Plan): seq<Rela>
    requires plan.Table? ==> plan.at + RELA_SIZE * plan.count <= |v|
  {
    if plan.Table? then Entries(v, plan.at, plan.count) else []
  }

  /** A caller can check these on the loaded image, before anything is relocated. */
  ghost predicate WellFormed(v: seq<byte>, vbase: u64, pie: bool, dyn: Option<Dynamic>, same: set<nat>)
  {
    var plan := PlanOf(v, vbase, pie, dyn);
    && TablesLoaded(v, vbase, pie, dyn, same)
    && (plan.Table? ==>
          var es := Entries(v, plan.at, plan.count);
          Spares(es, vbase, |v|, plan.at, plan.at + RELA_SIZE * plan.count)
          && Orderly(es, vbase) && AddsWithin(es, vbase, same))
  }

  lemma RelocatedAlike(v: seq<byte>, w: seq<byte>, p: u64, q: u64, vbase: u64, pie: bool, dyn: Option<Dynamic>,
                       same: set<nat>)
    requires |v| == |w| && (forall k :: 0 <= k < |v| && k in same ==> v[k] == w[k])
             && WellFormed(v, vbase, pie, dyn, same)
    ensures var r, s := Relocate(v, p, vbase, pie, dyn), Relocate(w, q, vbase, pie, dyn);
            r.Done? && s.Done? && r.result == s.result
            && Alike(r.image, s.image, p, q, vbase, TableOf(v, PlanOf(v, vbase, pie, dyn)), same)
  {
    hide PlanOf, TablesLoaded, Orderly, AddsWithin, Spares, Alike, ApplyTable, ApplyList, Entries, Relatives, Within;
    SamePlan(v, w, vbase, pie, dyn, same);
    TablesAreRead(v, vbase, pie, dyn, same);
    PlanFits(v, vbase, pie, dyn);
    var plan := PlanOf(v, vbase, pie, dyn);
    if plan.Table? {
      var at, hi := plan.at, plan.at + RELA_SIZE * plan.count;
      var es := Entries(v, at, plan.count);
      SameOnRange(v, w, same, at, hi);
      SameEntries(v, w, at, plan.count, hi);
      TableRunsAsList(v, p, vbase, at, plan.count, plan.count);
      TableRunsAsList(w, q, vbase, at, plan.count, plan.count);
      SparedAreInImage(es, vbase, |v|, at, hi);
      ListIsBaseIndependent(v, w, p, q, vbase, es, same);
    } else {
      AlikeUnchanged(v, w, p, q, vbase, same);
    }
  }

  lemma AlikeUnchanged(v: seq<byte>, w: seq<byte>, p: u64, q: u64, vbase: u64, same: set<nat>)
    requires |v| == |w| && forall k :: 0 <= k < |v| && k in same ==> v[k] == w[k]
    ensures Alike(v, w, p, q, vbase, [], same)
  {
  }

  lemma SparedAreInImage(es: seq<Rela>, vbase: u64, size: nat, lo: nat, hi: nat)
    requires Spares(es, vbase, size, lo, hi)
    ensures forall e :: e in es ==> InImage(e, vbase, size)
  {
  }

  lemma TablesAreRead(v: seq<byte>, vbase: u64, pie: bool, dyn: Option<Dynamic>, same: set<nat>)
    requires TablesLoaded(v, vbase, pie, dyn, same)
    ensures var plan := PlanOf(v, vbase, pie, dyn);
            !plan.Outside? && (plan.Table? ==> Within(plan.at, plan.at + RELA_SIZE * plan.count, same))
  {
    hide PlanOf, Within, EntriesRead;
  }

  lemma PlanFits(v: seq<byte>, vbase: u64, pie: bool, dyn: Option<Dynamic>)
    ensures var plan := PlanOf(v, vbase, pie, dyn);
            plan.Table? ==> plan.at + RELA_SIZE * plan.count <= |v|
  {
  }

  /**
    The same image, loaded over any two memories and relocated for any two bases: the same outcome,
    equal bytes in the loaded segments, except for the words that hold base-relative addresses,
    which differ by the difference of the bases.
  */
  lemma BaseIndependent(a: seq<byte>, b: seq<byte>, data: seq<byte>, segs: seq<Segment>, p: u64, q: u64,
                        vbase: u64, pie: bool, dyn: Option<Dynamic>)
    requires |a| == |b| && (forall s :: s in segs && Loads(s) ==> Fits(data, s, vbase, |a|))
    requires WellFormed(LoadAll(a, data, segs, vbase), vbase, pie, dyn, LoadedOffsets(segs, vbase, |a|))
    ensures var v, w := LoadAll(a, data, segs, vbase), LoadAll(b, data, segs, vbase);
            var r, s := Relocate(v, p, vbase, pie, dyn), Relocate(w, q, vbase, pie, dyn);
            r.Done? && s.Done? && r.result == s.result
            && Alike(r.image, s.image, p, q, vbase, TableOf(v, PlanOf(v, vbase, pie, dyn)),
                     LoadedOffsets(segs, vbase, |a|))
  {
    hide LoadAll, WellFormed, Relocate, PlanOf, Alike;
    var v, w, same := LoadAll(a, data, segs, vbase), LoadAll(b, data, segs, vbase), LoadedOffsets(segs, vbase, |a|);
    forall k | 0 <= k < |v| && k in same ensures v[k] == w[k] { LoadIgnoresMemory(a, b, data, segs, vbase, k); }
    RelocatedAlike(v, w, p, q, vbase, pie, dyn, same);
  }

  /** No later entry patches the word that entry i patches with the base. */
  predicate LastForWord(es: seq<Rela>, vbase: u64, i: nat)
  {
    && i < |es|
    && Relative(es[i])
    && forall j :: i < j < |es| && Relative(es[j]) ==> Target(es[j], vbase) != Target(es[i], vbase)
  }

  lemma {:induction false} LastForWordStands(v: seq<byte>, base: u64, vbase: u64, es: seq<Rela>, i: nat)
    requires (forall e :: e in es ==> InImage(e, vbase, |v|)) && Orderly(es, vbase) && LastForWord(es, vbase, i)
    ensures InImage(es[i], vbase, |v|)
    ensures Read64(ApplyList(v, base, vbase, es), Target(es[i], vbase)) == (base + es[i].addend) % U64_SIZE
  {
    hide Target, Word, Read64;
    var rest, e := es[..|es| - 1], es[|es| - 1];
    assert es == rest + [e] && es[i] in es && e in es;
    var w, t := ApplyList(v, base, vbase, rest), Target(es[i], vbase);
    if i == |es| - 1 {
      ReadWritten(w, t, Stored(w, base, vbase, e));
    } else {
      assert rest[i] == es[i];
      LastForWordStands(v, base, vbase, rest, i);
      if Writes(e) {
        ReadElsewhere(w, Target(e, vbase), Word(Stored(w, base, vbase, e)), t);
      }
    }
  }

  lemma LinkBaseStays(base: u64, vbase: u64, addend: u64)
    ensures (base + addend) % U64_SIZE == (base + WrappingSub(addend, vbase)) % U64_SIZE <==> vbase == 0
  {
  }

  /**
    The word that relocation leaves at a base-relative target points to where its link address was
    loaded exactly when the image is linked at address zero; the link base is not subtracted.
  */
  lemma RelativePointsIntoImageExactlyWhen(v: seq<byte>, base: u64, vbase: u64, pie: bool, dyn: Option<Dynamic>,
                                           same: set<nat>, i: nat)
    requires WellFormed(v, vbase, pie, dyn, same) && PlanOf(v, vbase, pie, dyn).Table?
    requires LastForWord(TableOf(v, PlanOf(v, vbase, pie, dyn)), vbase, i)
    ensures var e, r := TableOf(v, PlanOf(v, vbase, pie, dyn))[i], Relocate(v, base, vbase, pie, dyn);
            && r.Done? && Target(e, vbase) + 8 <= |r.image|
            && (Read64(r.image, Target(e, vbase)) == (base + WrappingSub(e.addend, vbase)) % U64_SIZE <==> vbase == 0)
  {
    hide PlanOf, TablesLoaded, Target, Read64, ApplyList, ApplyTable, Entries, WrappingSub, Orderly, AddsWithin;
    PlanFits(v, vbase, pie, dyn);
    var plan := PlanOf(v, vbase, pie, dyn);
    var es := Entries(v, plan.at, plan.count);
    TableRunsAsList(v, base, vbase, plan.at, plan.count, plan.count);
    LastForWordStands(v, base, vbase, es, i);
    LinkBaseStays(base, vbase, es[i].addend);
  }

  /**
    An image linked at 4096: a dynamic section of three entries, a table of one relative entry for
    the link address 4096, and the word it patches.
  */
  const LINKED_HIGH: seq<u64> := [7, 4144, 8, 24, 0, 0, 4168, 8, 4096, 0]

  lemma LinkedHighPlan()
    ensures PlanOf(WordBytes(LINKED_HIGH), 4096, true, Some(Dynamic(4096, 48))) == Table(48, 1)
    ensures ReadRela(WordBytes(LINKED_HIGH), 48) == Rela(4168, R_RELATIVE, 0, 4096)
  {
    hide WordBytes, Read64;
    var v := WordBytes(LINKED_HIGH);
    var one, two := DynInfo(Some(4144), None, RELA_SIZE), DynInfo(Some(4144), Some(24), RELA_SIZE);
    WordOfWords(LINKED_HIGH, 0);
    WordOfWords(LINKED_HIGH, 1);
    WordOfWords(LINKED_HIGH, 2);
    WordOfWords(LINKED_HIGH, 3);
    WordOfWords(LINKED_HIGH, 4);
    WordOfWords(LINKED_HIGH, 6);
    WordOfWords(LINKED_HIGH, 7);
    WordOfWords(LINKED_HIGH, 8);
    assert ScanDynamic(v, 0, 2, 3, two) == Some(two);
    assert ScanDynamic(v, 0, 1, 3, one) == Some(two);
    assert ScanDynamic(v, 0, 0, 3, NO_INFO) == Some(two);
  }

  /** Loaded at 0x20_0000, its word is left pointing at 0x20_1000, where the link address was not loaded. */
  lemma HighLinkPointsAway()
    ensures var r := Relocate(WordBytes(LINKED_HIGH), 0x20_0000, 4096, true, Some(Dynamic(4096, 48)));
            r.Done? && r.result == Ok(()) && |r.image| == 80 && Read64(r.image, 72) == 0x20_1000
  {
    hide WordBytes, Read64, PlanOf, ReadRela;
    var v, e := WordBytes(LINKED_HIGH), Rela(4168, R_RELATIVE, 0, 4096);
    LinkedHighPlan();
    ReadWritten(v, 72, 0x20_1000);
    assert Target(e, 4096) == 72;
    assert ApplyTable(v, 0x20_0000, 4096, 48, 0) == Some((v, 0));
    assert ApplyTable(v, 0x20_0000, 4096, 48, 1) == Some((ApplyOne(v, 0x20_0000, 4096, e), 1));
  }

  // ---------------------------------------------------------------- the loader's loops

  /** The lowest address and the highest end of the loaded segments. */
  method ComputeVirtBounds(segs: seq<Segment>) returns (r: Result<(u64, u64), LoadError>)
    ensures r == Err(VirtAddressOverflow) <==> exists s :: s in segs && Loads(s) && s.vaddr + s.memsz >= U64_SIZE
    ensures r == Err(NoPtLoadSegments) <==> forall s :: s in segs ==> !Loads(s)
    ensures r.Ok? ==>
              && (forall s :: s in segs && Loads(s) ==> r.value.0 <= s.vaddr && s.vaddr + s.memsz <= r.value.1)
              && (exists s :: s in segs && Loads(s) && s.vaddr == r.value.0)
              && (exists s :: s in segs && Loads(s) && s.vaddr + s.memsz == r.value.1)
    ensures r.Err? ==> r.error != SegmentOutOfFile
  {
    var lo: u64, hi: u64 := U64_SIZE - 1, 0;
    ghost var first, last := None, None;
    for i := 0 to |segs|
      invariant forall s :: s in segs[..i] && Loads(s) ==> lo <= s.vaddr && s.vaddr + s.memsz <= hi
      invariant first.None? ==> lo == U64_SIZE - 1 && forall s :: s in segs[..i] ==> !Loads(s)
      invariant first.Some? ==>
                  last.Some? && first.value in segs && Loads(first.value) && first.value.vaddr == lo < U64_SIZE - 1
      invariant (first.None? ==> last.None?) && (last.None? ==> hi == 0)
      invariant last.Some? ==> last.value in segs && Loads(last.value) && last.value.vaddr + last.value.memsz == hi
    {
      var s := segs[i];
      assert segs[..i + 1] == segs[..i] + [s] && s in segs;
      if Loads(s) {
        if s.vaddr + s.memsz >= U64_SIZE {
          return Err(VirtAddressOverflow);
        }
        if s.vaddr < lo {
          lo := s.vaddr;
          first := Some(s);
        }
        if s.vaddr + s.memsz > hi {
          hi := s.vaddr + s.memsz;
          last := Some(s);
        }
      }
    }
    assert segs[..|segs|] == segs;
    if lo == U64_SIZE - 1 {
      return Err(NoPtLoadSegments);
    }
    return Ok((lo, hi));
  }

  /** What the loader makes of one segment. */
  datatype Fate = Sound | OutOfFile | Stray

  /**
    The end of the file part is computed in 64-bit arithmetic before it is compared with the file; a
    part that wraps round passes the test and is read from outside the file, and nothing is tested
    before writing.
  */
  function FateOf(data: seq<byte>, s: Segment, vbase: u64, size: nat): Fate
  {
    if !Loads(s) then Sound
    else if (s.offset + s.filesz) % U64_SIZE > |data| then OutOfFile
    else if Fits(data, s, vbase, size) then Sound
    else Stray
  }

  /** Segment i is the first that is not sound. */
  predicate StopsAt(data: seq<byte>, segs: seq<Segment>, vbase: u64, size: nat, i: nat)
  {
    && i < |segs|
    && FateOf(data, segs[i], vbase, size) != Sound
    && forall j :: 0 <= j < i ==> FateOf(data, segs[j], vbase, size) == Sound
  }

  lemma LoadSnoc(mem: seq<byte>, data: seq<byte>, segs: seq<Segment>, s: Segment, vbase: u64)
    requires forall x :: x in segs + [s] && Loads(x) ==> Fits(data, x, vbase, |mem|)
    ensures forall x :: x in segs && Loads(x) ==> Fits(data, x, vbase, |mem|)
    ensures Loads(s) ==> Fits(data, s, vbase, |mem|)
    ensures LoadAll(mem, data, segs + [s], vbase) == LoadOne(LoadAll(mem, data, segs, vbase), data, s, vbase)
  {
    hide Fits, LoadOne;
    var all := segs + [s];
    assert all[..|all| - 1] == segs && s in all;
    forall x | x in segs && Loads(x) ensures Fits(data, x, vbase, |mem|) { assert x in all; }
  }

  /** Copies one segment and clears the rest of its memory. */
  method LoadSegment(image: array<byte>, data: seq<byte>, s: Segment, vbase: u64)
    requires Loads(s) && Fits(data, s, vbase, image.Length)
    modifies image
    ensures image[..] == LoadOne(old(image[..]), data, s, vbase)
  {
    var at := s.vaddr - vbase;
    forall k | 0 <= k < s.filesz {
      image[at + k] := data[s.offset + k];
    }
    forall k | s.filesz <= k < s.memsz {
      image[at + k] := 0;
    }
    ghost var want := Splice(old(image[..]), at, Contents(data, s));
    forall k | 0 <= k < image.Length ensures image[k] == want[k] {
      if at <= k < at + Extent(s) {
        assert image[at + (k - at)] == Contents(data, s)[k - at];
      }
    }
  }

  /**
    Loads every segment, or stops at the first whose file part is found outside the file; `None` when
    it would read outside the file or write outside the image.  The segments before are loaded.
  */
  method LoadSegments(image: array<byte>, data: seq<byte>, segs: seq<Segment>, vbase: u64)
    returns (r: Option<Result<(), LoadError>>, ghost n: nat)
    modifies image
    ensures n == |segs| || StopsAt(data, segs, vbase, image.Length, n)
    ensures n == |segs| <==> forall s :: s in segs && Loads(s) ==> Fits(data, s, vbase, image.Length)
    ensures r == if n == |segs| then Some(Ok(()))
                 else if (segs[n].offset + segs[n].filesz) % U64_SIZE > |data| then Some(Err(SegmentOutOfFile))
                 else None
    ensures (forall s :: s in segs[..n] && Loads(s) ==> Fits(data, s, vbase, image.Length))
            && image[..] == LoadAll(old(image[..]), data, segs[..n], vbase)
  {
    hide Splice, Contents, LoadAll, Fits;
    ghost var mem := image[..];
    LoadNone(mem, data, vbase);
    for i := 0 to |segs|
      invariant forall j :: 0 <= j < i ==> FateOf(data, segs[j], vbase, image.Length) == Sound
      invariant forall s :: s in segs[..i] && Loads(s) ==> Fits(data, s, vbase, image.Length)
      invariant image[..] == LoadAll(mem, data, segs[..i], vbase)
    {
      var s := segs[i];
      assert segs[..i + 1] == segs[..i] + [s];
      n := i;
      if Loads(s) {
        UnfitIsNotSound(data, s, vbase, image.Length);
        if (s.offset + s.filesz) % U64_SIZE > |data| {
          return Some(Err(SegmentOutOfFile)), i;
        }
        if !Fits(data, s, vbase, image.Length) {
          return None, i;
        }
        LoadSegment(image, data, s, vbase);
      }
      LoadSnoc(mem, data, segs[..i], s, vbase);
    }
    assert segs[..|segs|] == segs;
    return Some(Ok(())), |segs|;
  }

  lemma UnfitIsNotSound(data: seq<byte>, s: Segment, vbase: u64, size: nat)
    requires Loads(s)
    ensures FateOf(data, s, vbase, size) == Sound <==> Fits(data, s, vbase, size)
  {
  }

  lemma LoadNone(mem: seq<byte>, data: seq<byte>, vbase: u64)
    ensures LoadAll(mem, data, [], vbase) == mem
  {
  }

  method ReadWord(image: array<byte>, at: nat) returns (x: u64)
    requires at + 8 <= image.Length
    ensures x == Read64(image[..], at)
  {
    x := Read64(image[..], at);
  }

  method WriteWord(image: array<byte>, at: nat, x: u64)
    requires at + 8 <= image.Length
    modifies image
    ensures image[..] == Splice(old(image[..]), at, Word(x))
  {
    var bytes := Word(x);
    forall k | 0 <= k < 8 {
      image[at + k] := bytes[k];
    }
    ghost var want := Splice(old(image[..]), at, bytes);
    forall k | 0 <= k < image.Length ensures image[k] == want[k] {
      if at <= k < at + 8 {
        assert image[at + (k - at)] == bytes[k - at];
      }
    }
  }

  /** Reads the dynamic section up to its null entry; `None` when it would leave the image before. */
  method ReadDynamic(image: array<byte>, at: nat, count: nat) returns (r: Option<DynInfo>)
    ensures r == ScanDynamic(image[..], at, 0, count, NO_INFO)
  {
    hide Read64, Noted;
    var d := NO_INFO;
    for i := 0 to count
      invariant ScanDynamic(image[..], at, i, count, d) == ScanDynamic(image[..], at, 0, count, NO_INFO)
    {
      if at + DYN_SIZE * i + DYN_SIZE > image.Length {
        return None;
      }
      var tag := ReadWord(image, at + DYN_SIZE * i);
      if tag == 0 {
        return Some(d);
      }
      var val := ReadWord(image, at + DYN_SIZE * i + 8);
      d := Noted(d, tag, val);
    }
    return Some(d);
  }

  /** One entry, read from the image and applied to it. */
  method ApplyEntry(image: array<byte>, base: u64, vbase: u64, at: nat) returns (relative: bool)
    requires at + RELA_SIZE <= image.Length && InImage(ReadRela(image[..], at), vbase, image.Length)
    modifies image
    ensures relative == Relative(ReadRela(old(image[..]), at))
    ensures image[..] == ApplyOne(old(image[..]), base, vbase, ReadRela(old(image[..]), at))
  {
    hide Splice, Word, Read64;
    var e := ReadRela(image[..], at);
    relative := false;
    if e.kind == R_RELATIVE {
      WriteWord(image, Target(e, vbase), (base + e.addend) % U64_SIZE);
      relative := true;
    } else if e.kind == R_64 && e.sym == 0 {
      var existing := ReadWord(image, Target(e, vbase));
      WriteWord(image, Target(e, vbase), (existing + e.addend) % U64_SIZE);
    }
  }

  lemma {:induction false} DefinedSoFar(v: seq<byte>, base: u64, vbase: u64, at: nat, i: nat, n: nat)
    requires i <= n && at + RELA_SIZE * n <= |v| && ApplyTable(v, base, vbase, at, n).Some?
    ensures ApplyTable(v, base, vbase, at, i).Some?
  {
    if i < n { DefinedSoFar(v, base, vbase, at, i, n - 1); }
  }

  /** Applies n entries in place; `None` at one whose target is outside the image, which is written without a test. */
  method ApplyEntries(image: array<byte>, base: u64, vbase: u64, at: nat, n: nat) returns (applied: Option<nat>)
    requires at + RELA_SIZE * n <= image.Length
    modifies image
    ensures applied.None? <==> ApplyTable(old(image[..]), base, vbase, at, n).None?
    ensures applied.Some? ==> Some((image[..], applied.value)) == ApplyTable(old(image[..]), base, vbase, at, n)
  {
    hide ReadRela, ApplyOne, Target;
    ghost var v := image[..];
    var done := 0;
    for i := 0 to n
      invariant ApplyTable(v, base, vbase, at, i) == Some((image[..], done))
    {
      if !InImage(ReadRela(image[..], at + RELA_SIZE * i), vbase, image.Length) {
        if ApplyTable(v, base, vbase, at, n).Some? {
          DefinedSoFar(v, base, vbase, at, i + 1, n);
        }
        return None;
      }
      var relative := ApplyEntry(image, base, vbase, at + RELA_SIZE * i);
      if relative {
        done := done + 1;
      }
    }
    return Some(done);
  }

  /** Applies the relocations of a loaded image in place; `None` when it would leave the image. */
  method ApplyPieRelocations(image: array<byte>, base: u64, vbase: u64, pie: bool, dyn: Option<Dynamic>)
    returns (r: Option<Result<(), RelocationError>>)
    modifies image
    ensures r.None? <==> Relocate(old(image[..]), base, vbase, pie, dyn).Undefined?
    ensures r.Some? ==> Done(r.value, image[..]) == Relocate(old(image[..]), base, vbase, pie, dyn)
  {
    hide ScanDynamic, ApplyTable, ReadRela, ApplyOne, WrappingSub;
    if dyn.None? || !pie {
      return Some(Ok(()));
    }
    if dyn.value.filesz % DYN_SIZE != 0 {
      return Some(Err(InvalidDynamicSize));
    }
    var found := ReadDynamic(image, WrappingSub(dyn.value.vaddr, vbase), dyn.value.filesz / DYN_SIZE);
    if found.None? {
      return None;
    }
    var d := found.value;
    if d.rela.None? || d.size.None? || d.size.value == 0 {
      return Some(Ok(()));
    }
    if d.entry != RELA_SIZE {
      return Some(Err(UnexpectedRelaEntSize));
    }
    var at, count := WrappingSub(d.rela.value, vbase), d.size.value / RELA_SIZE;
    if count == 0 {
      return Some(Ok(()));
    }
    if at + RELA_SIZE * count > image.Length {
      return None;
    }
    var applied := ApplyEntries(image, base, vbase, at, count);
    if applied.None? {
      return None;
    }
    return Some(if applied.value == 0 && count > 0 then Err(NoRelativeRelocations) else Ok(()));
  }
}
