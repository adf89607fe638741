/**
  What relocating an image comes to, in terms of the 64-bit words of the image alone.

  Nothing here follows the loader's loops: the dynamic section is the words up to its null tag, the
  relocation table starts where its last DT_RELA entry says and holds as many entries as its last
  DT_RELASZ entry makes room for.
*/
module RelocationWords {
  import opened Wrappers
  import opened Words
  import opened Bytes
  import opened Relocation

  // ---------------------------------------------------------------- the dynamic section

  function Tag(v: seq<byte>, at: nat, i: nat): u64
    requires at + 16 * i + 16 <= |v|
  {
    Read64(v, at + 16 * i)
  }

  function Value(v: seq<byte>, at: nat, i: nat): u64
    requires at + 16 * i + 16 <= |v|
  {
    Read64(v, at + 16 * i + 8)
  }

  /** The section has m entries before its null tag or its end, and lies in the image up to there. */
  predicate EndsAfter(v: seq<byte>, at: nat, count: nat, m: nat)
  {
    && m <= count
    && (forall i :: 0 <= i < m ==> at + 16 * i + 16 <= |v| && Tag(v, at, i) != 0)
    && (m < count ==> at + 16 * m + 16 <= |v| && Tag(v, at, m) == 0)
  }

  /** x is the value of the last of the first m entries with this tag. */
  predicate Last(v: seq<byte>, at: nat, m: nat, tag: nat, x: Option<u64>)
    requires forall i :: 0 <= i < m ==> at + 16 * i + 16 <= |v|
  {
    match x
    case None => forall i :: 0 <= i < m ==> Tag(v, at, i) != tag
    case Some(w) =>
      exists i :: 0 <= i < m && Tag(v, at, i) == tag && Value(v, at, i) == w && NoneAfter(v, at, i, m, tag)
  }

  predicate NoneAfter(v: seq<byte>, at: nat, i: nat, m: nat, tag: nat)
    requires forall k :: 0 <= k < m ==> at + 16 * k + 16 <= |v|
  {
    forall k :: i < k < m ==> Tag(v, at, k) != tag
  }

  ghost predicate Found(v: seq<byte>, at: nat, m: nat, d: DynInfo)
    requires forall i :: 0 <= i < m ==> at + 16 * i + 16 <= |v|
  {
    && Last(v, at, m, 7, d.rela) && Last(v, at, m, 8, d.size)
    && ((Last(v, at, m, 9, None) && d.entry == 24) || Last(v, at, m, 9, Some(d.entry)))
  }

  /** One more entry: it becomes the last with its own tag, and changes nothing for the others. */
  lemma LastNext(v: seq<byte>, at: nat, m: nat, tag: nat, x: Option<u64>)
    requires (forall i :: 0 <= i < m + 1 ==> at + 16 * i + 16 <= |v|) && Last(v, at, m, tag, x)
    ensures Last(v, at, m + 1, tag, if Tag(v, at, m) == tag then Some(Value(v, at, m)) else x)
  {
    hide Tag, Value;
    if Tag(v, at, m) == tag {
      assert NoneAfter(v, at, m, m + 1, tag);
    } else if x.Some? {
      var i :| 0 <= i < m && Tag(v, at, i) == tag && Value(v, at, i) == x.value && NoneAfter(v, at, i, m, tag);
      assert NoneAfter(v, at, i, m + 1, tag);
    }
  }

  lemma FoundNext(v: seq<byte>, at: nat, m: nat, d: DynInfo)
    requires (forall i :: 0 <= i < m + 1 ==> at + 16 * i + 16 <= |v|) && Found(v, at, m, d)
    ensures Found(v, at, m + 1, Noted(d, Tag(v, at, m), Value(v, at, m)))
  {
    hide Last, Tag, Value;
    LastNext(v, at, m, 7, d.rela);
    LastNext(v, at, m, 8, d.size);
    LastNext(v, at, m, 9, if Last(v, at, m, 9, Some(d.entry)) then Some(d.entry) else None);
  }

  lemma {:induction false} ScanFindsFrom(v: seq<byte>, at: nat, i: nat, count: nat, m: nat, d: DynInfo)
    requires EndsAfter(v, at, count, m) && i <= m && Found(v, at, i, d)
    ensures var r := ScanDynamic(v, at, i, count, d);
            r.Some? && Found(v, at, m, r.value)
    decreases m - i
  {
    hide Found, Noted, Read64;
    if i < m {
      assert Tag(v, at, i) != 0;
      FoundNext(v, at, i, d);
      ScanFindsFrom(v, at, i + 1, count, m, Noted(d, Tag(v, at, i), Value(v, at, i)));
    }
  }

  /** The scan finds the last entry of each kind before the null tag. */
  lemma ScanFinds(v: seq<byte>, at: nat, count: nat, m: nat)
    requires EndsAfter(v, at, count, m)
    ensures var r := ScanDynamic(v, at, 0, count, NO_INFO);
            r.Some? && Found(v, at, m, r.value)
  {
    ScanFindsFrom(v, at, 0, count, m, NO_INFO);
  }

  lemma LastIsUnique(v: seq<byte>, at: nat, m: nat, tag: nat, x: Option<u64>, y: Option<u64>)
    requires (forall i :: 0 <= i < m ==> at + 16 * i + 16 <= |v|) && Last(v, at, m, tag, x) && Last(v, at, m, tag, y)
    ensures x == y
  {
    hide Tag, Value;
    if x.Some? && y.Some? {
      var i :| 0 <= i < m && Tag(v, at, i) == tag && Value(v, at, i) == x.value && NoneAfter(v, at, i, m, tag);
      var j :| 0 <= j < m && Tag(v, at, j) == tag && Value(v, at, j) == y.value && NoneAfter(v, at, j, m, tag);
      assert i == j;
    }
  }

  // ---------------------------------------------------------------- the relocation table

  /** The dynamic section of an image, and what its words say about the table. */
  datatype Described = Described(m: nat, rela: Option<u64>, size: Option<u64>, entry: Option<u64>)

  ghost predicate Describes(v: seq<byte>, vbase: u64, dyn: Dynamic, t: Described)
  {
    var at := WrappingSub(dyn.vaddr, vbase);
    && dyn.filesz % 16 == 0
    && EndsAfter(v, at, dyn.filesz / 16, t.m)
    && Last(v, at, t.m, 7, t.rela) && Last(v, at, t.m, 8, t.size) && Last(v, at, t.m, 9, t.entry)
  }

  /** What the loader sets out to do follows from the words. */
  lemma PlanFromWords(v: seq<byte>, vbase: u64, dyn: Dynamic, t: Described)
    requires Describes(v, vbase, dyn, t)
    ensures var plan := PlanOf(v, vbase, true, Some(dyn));
            if t.rela == None || t.size == None || t.size == Some(0) then plan == Nothing
            else if t.entry != None && t.entry != Some(24) then plan == Bad(UnexpectedRelaEntSize)
            else if t.size.value < 24 then plan == Nothing
            else
              var at, n := WrappingSub(t.rela.value, vbase), t.size.value / 24;
              if at + 24 * n <= |v| then plan == Table(at, n) else plan == Outside
  {
    hide ScanDynamic, Last, WrappingSub;
    var at, count := WrappingSub(dyn.vaddr, vbase), dyn.filesz / 16;
    ScanFinds(v, at, count, t.m);
    var d := ScanDynamic(v, at, 0, count, NO_INFO).value;
    LastIsUnique(v, at, t.m, 7, t.rela, d.rela);
    LastIsUnique(v, at, t.m, 8, t.size, d.size);
    if Last(v, at, t.m, 9, Some(d.entry)) {
      LastIsUnique(v, at, t.m, 9, t.entry, Some(d.entry));
    } else {
      LastIsUnique(v, at, t.m, 9, t.entry, None);
    }
  }

  /** Where entry k of the table at `at` patches the image. */
  function Place(v: seq<byte>, at: nat, k: nat, vbase: u64): u64
    requires at + 24 * k + 24 <= |v|
  {
    (Read64(v, at + 24 * k) + U64_SIZE - vbase) % U64_SIZE
  }

  predicate IsRelative(v: seq<byte>, at: nat, k: nat)
    requires at + 24 * k + 24 <= |v|
  {
    Read64(v, at + 24 * k + 8) % U32_SIZE == 8
  }

  /** A 64-bit relocation without a symbol. */
  predicate IsAbsolute(v: seq<byte>, at: nat, k: nat)
    requires at + 24 * k + 24 <= |v|
  {
    Read64(v, at + 24 * k + 8) == 1
  }

  predicate Patches(v: seq<byte>, at: nat, k: nat)
    requires at + 24 * k + 24 <= |v|
  {
    IsRelative(v, at, k) || IsAbsolute(v, at, k)
  }

  function Addend(v: seq<byte>, at: nat, k: nat): u64
    requires at + 24 * k + 24 <= |v|
  {
    Read64(v, at + 24 * k + 16)
  }

  predicate Disjoint(t: nat, u: nat) { t + 8 <= u || u + 8 <= t }

  /**
    The n entries at `at` lie in the image and patch the image but not the table, and a base-relative
    word is patched by nothing but base-relative entries for the same word.
  */
  ghost predicate Sound(v: seq<byte>, vbase: u64, at: nat, n: nat)
  {
    && at + 24 * n <= |v|
    && (forall k :: 0 <= k < n && Patches(v, at, k) ==>
          Place(v, at, k, vbase) + 8 <= |v|
          && (Place(v, at, k, vbase) + 8 <= at || at + 24 * n <= Place(v, at, k, vbase)))
    && (forall k, l :: 0 <= k < n && 0 <= l < n && IsRelative(v, at, k) && Patches(v, at, l) ==>
          (IsRelative(v, at, l) && Place(v, at, k, vbase) == Place(v, at, l, vbase))
          || Disjoint(Place(v, at, k, vbase), Place(v, at, l, vbase)))
  }

  lemma EntryWords(v: seq<byte>, at: nat, k: nat, vbase: u64)
    requires at + 24 * k + 24 <= |v|
    ensures var e := ReadRela(v, at + 24 * k);
            && Target(e, vbase) == Place(v, at, k, vbase) && e.addend == Addend(v, at, k)
            && (Relative(e) <==> IsRelative(v, at, k)) && (Absolute(e) <==> IsAbsolute(v, at, k))
  {
    hide Read64;
    HighAndLow(Read64(v, at + 24 * k + 8));
  }

  lemma HighAndLow(w: u64)
    ensures w == 1 <==> w % U32_SIZE == 1 && w / U32_SIZE == 0
  {
  }

  lemma {:induction false} EntriesAt(v: seq<byte>, at: nat, n: nat, k: nat)
    requires at + 24 * n <= |v| && k < n
    ensures Entries(v, at, n)[k] == ReadRela(v, at + 24 * k)
  {
    hide ReadRela;
    if k < n - 1 { EntriesAt(v, at, n - 1, k); }
  }

  /** Everything about entry k of the list, in words. */
  lemma EntryOf(v: seq<byte>, vbase: u64, at: nat, n: nat, k: nat)
    requires at + 24 * n <= |v| && k < n
    ensures var e := Entries(v, at, n)[k];
            && Target(e, vbase) == Place(v, at, k, vbase) && e.addend == Addend(v, at, k)
            && (Relative(e) <==> IsRelative(v, at, k)) && (Absolute(e) <==> IsAbsolute(v, at, k))
            && (Writes(e) <==> Patches(v, at, k))
  {
    EntriesAt(v, at, n, k);
    EntryWords(v, at, k, vbase);
  }

  lemma SoundSpares(v: seq<byte>, vbase: u64, at: nat, n: nat)
    requires Sound(v, vbase, at, n)
    ensures Spares(Entries(v, at, n), vbase, |v|, at, at + RELA_SIZE * n)
  {
    hide Entries, Place, Patches, Target, Relative, Absolute, IsRelative, IsAbsolute;
    var es := Entries(v, at, n);
    forall e | e in es && Writes(e)
      ensures Target(e, vbase) + 8 <= |v| && (Target(e, vbase) + 8 <= at || at + RELA_SIZE * n <= Target(e, vbase))
    {
      var k :| 0 <= k < n && es[k] == e;
      EntryOf(v, vbase, at, n, k);
    }
  }

  lemma SoundIsOrderly(v: seq<byte>, vbase: u64, at: nat, n: nat)
    requires Sound(v, vbase, at, n)
    ensures Orderly(Entries(v, at, n), vbase)
  {
    hide Entries, Place, Patches, Target, Relative, Absolute, IsRelative, IsAbsolute;
    var es := Entries(v, at, n);
    forall d, e | d in es && e in es && Relative(d) && Writes(e)
      ensures (Relative(e) && Target(d, vbase) == Target(e, vbase)) || Apart(Target(d, vbase), Target(e, vbase))
    {
      var k :| 0 <= k < n && es[k] == d;
      var l :| 0 <= l < n && es[l] == e;
      EntryOf(v, vbase, at, n, k);
      EntryOf(v, vbase, at, n, l);
    }
  }

  // ---------------------------------------------------------------- lists of entries

  lemma {:induction false} ByteStays(v: seq<byte>, base: u64, vbase: u64, es: seq<Rela>, b: nat)
    requires (forall e :: e in es ==> InImage(e, vbase, |v|)) && b < |v|
    requires forall i :: 0 <= i < |es| && Writes(es[i]) ==> !(Target(es[i], vbase) <= b < Target(es[i], vbase) + 8)
    ensures ApplyList(v, base, vbase, es)[b] == v[b]
  {
    hide Target, Word, Stored;
    if es != [] {
      var rest, e := es[..|es| - 1], es[|es| - 1];
      forall i | 0 <= i < |rest| && Writes(rest[i])
        ensures !(Target(rest[i], vbase) <= b < Target(rest[i], vbase) + 8)
      {
        assert rest[i] == es[i];
      }
      assert e in es;
      ByteStays(v, base, vbase, rest, b);
    }
  }

  lemma WordStays(v: seq<byte>, base: u64, vbase: u64, es: seq<Rela>, t: nat)
    requires (forall e :: e in es ==> InImage(e, vbase, |v|)) && t + 8 <= |v|
    requires forall i :: 0 <= i < |es| && Writes(es[i]) ==> Disjoint(Target(es[i], vbase), t)
    ensures Read64(ApplyList(v, base, vbase, es), t) == Read64(v, t)
  {
    hide Target, ApplyList;
    var w := ApplyList(v, base, vbase, es);
    forall b | t <= b < t + 8 ensures w[b] == v[b] { ByteStays(v, base, vbase, es, b); }
    assert w[t..t + 8] == v[t..t + 8];
  }

  /** Entry k is absolute, and no other entry patches a word that meets its own. */
  ghost predicate AloneInList(es: seq<Rela>, vbase: u64, k: nat)
  {
    && k < |es| && Absolute(es[k]) && !Relative(es[k])
    && forall j :: 0 <= j < |es| && j != k && Writes(es[j]) ==> Disjoint(Target(es[j], vbase), Target(es[k], vbase))
  }

  /** A word that one absolute entry patches, and no other entry, has its addend added once. */
  lemma {:induction false} LoneAbsoluteAdds(v: seq<byte>, base: u64, vbase: u64, es: seq<Rela>, i: nat)
    requires (forall e :: e in es ==> InImage(e, vbase, |v|)) && AloneInList(es, vbase, i)
    ensures InImage(es[i], vbase, |v|)
    ensures var t := Target(es[i], vbase);
            Read64(ApplyList(v, base, vbase, es), t) == (Read64(v, t) + es[i].addend) % U64_SIZE
  {
    hide Target, Word, Read64;
    var rest, e := es[..|es| - 1], es[|es| - 1];
    assert es[i] in es && e in es;
    assert forall j :: 0 <= j < |rest| ==> rest[j] == es[j];
    var w, t := ApplyList(v, base, vbase, rest), Target(es[i], vbase);
    if i == |es| - 1 {
      WordStays(v, base, vbase, rest, t);
      ReadWritten(w, t, Stored(w, base, vbase, e));
    } else {
      LoneAbsoluteAdds(v, base, vbase, rest, i);
      if Writes(e) {
        ReadElsewhere(w, Target(e, vbase), Word(Stored(w, base, vbase, e)), t);
      }
    }
  }

  lemma {:induction false} RelativesCounted(es: seq<Rela>)
    ensures Relatives(es) > 0 <==> exists i :: 0 <= i < |es| && Relative(es[i])
  {
    hide Relative;
    if es != [] {
      var rest, e := es[..|es| - 1], es[|es| - 1];
      RelativesCounted(rest);
      if Relatives(rest) > 0 {
        var i :| 0 <= i < |rest| && Relative(rest[i]);
        assert Relative(es[i]);
      }
      if exists i :: 0 <= i < |es| && Relative(es[i]) {
        var i :| 0 <= i < |es| && Relative(es[i]);
        if i < |rest| { assert Relative(rest[i]); }
      }
    }
  }

  // ---------------------------------------------------------------- relocation in words

  /** The image is position independent, and its words describe a sound table of n entries at `at`. */
  ghost predicate Relocatable(v: seq<byte>, vbase: u64, dyn: Dynamic, t: Described, at: nat, n: nat)
  {
    && Describes(v, vbase, dyn, t)
    && t.rela != None && at == WrappingSub(t.rela.value, vbase)
    && t.size != None && n == t.size.value / 24 && n > 0
    && (t.entry == None || t.entry == Some(24))
    && Sound(v, vbase, at, n)
  }

  lemma RunsAsList(v: seq<byte>, base: u64, vbase: u64, dyn: Dynamic, t: Described, at: nat, n: nat)
    requires Relocatable(v, vbase, dyn, t, at, n)
    ensures var es, r := Entries(v, at, n), Relocate(v, base, vbase, true, Some(dyn));
            && Spares(es, vbase, |v|, at, at + RELA_SIZE * n) && Orderly(es, vbase)
            && (forall e :: e in es ==> InImage(e, vbase, |v|))
            && r == Done(if Relatives(es) == 0 then Err(NoRelativeRelocations) else Ok(()),
                         ApplyList(v, base, vbase, es))
  {
    hide Entries, Orderly, Spares, ApplyList, ApplyTable, Relatives, PlanOf, WrappingSub, Describes;
    PlanFromWords(v, vbase, dyn, t);
    SoundSpares(v, vbase, at, n);
    SoundIsOrderly(v, vbase, at, n);
    SparedAreInImage(Entries(v, at, n), vbase, |v|, at, at + RELA_SIZE * n);
    TableRunsAsList(v, base, vbase, at, n, n);
  }

  /** Some entry among those the table size makes room for is base-relative: Ok; none is: an error. */
  lemma ResultFromWords(v: seq<byte>, base: u64, vbase: u64, dyn: Dynamic, t: Described, at: nat, n: nat)
    requires Relocatable(v, vbase, dyn, t, at, n)
    ensures var r := Relocate(v, base, vbase, true, Some(dyn));
            && r.Done?
            && r.result == if exists k :: 0 <= k < n && IsRelative(v, at, k) then Ok(()) else Err(NoRelativeRelocations)
  {
    hide IsRelative, Relocatable, Relocate, Relatives, Entries, ApplyList;
    assert at + 24 * n <= |v| by { SoundFits(v, vbase, dyn, t, at, n); }
    RunsAsList(v, base, vbase, dyn, t, at, n);
    var es := Entries(v, at, n);
    RelativesCounted(es);
    forall k | 0 <= k < n ensures Relative(es[k]) <==> IsRelative(v, at, k) { EntryOf(v, vbase, at, n, k); }
  }

  lemma SoundFits(v: seq<byte>, vbase: u64, dyn: Dynamic, t: Described, at: nat, n: nat)
    requires Relocatable(v, vbase, dyn, t, at, n)
    ensures at + 24 * n <= |v|
  {
  }

  lemma LastInList(v: seq<byte>, vbase: u64, at: nat, n: nat, k: nat)
    requires at + 24 * n <= |v| && k < n && IsRelative(v, at, k)
    requires forall l :: k < l < n && IsRelative(v, at, l) ==> Place(v, at, l, vbase) != Place(v, at, k, vbase)
    ensures LastForWord(Entries(v, at, n), vbase, k)
  {
    hide IsRelative, Place, Entries, Target, Relative;
    var es := Entries(v, at, n);
    EntryOf(v, vbase, at, n, k);
    forall l | k < l < n && Relative(es[l]) ensures Target(es[l], vbase) != Target(es[k], vbase) {
      EntryOf(v, vbase, at, n, l);
    }
  }

  lemma PlaceFits(v: seq<byte>, vbase: u64, at: nat, n: nat, k: nat)
    requires Sound(v, vbase, at, n) && k < n
    ensures at + 24 * n <= |v| && at + RELA_SIZE * n <= |v|
    ensures IsRelative(v, at, k) || IsAbsolute(v, at, k) ==> Place(v, at, k, vbase) + 8 <= |v|
  {
    hide Place, IsRelative, IsAbsolute;
  }

  /** Entry k, if base-relative and the last for its word, leaves the base plus its addend there. */
  lemma RelativeEntryApplied(v: seq<byte>, base: u64, vbase: u64, dyn: Dynamic, t: Described, at: nat, n: nat, k: nat)
    requires Relocatable(v, vbase, dyn, t, at, n) && k < n && IsRelative(v, at, k)
    requires forall l :: k < l < n && IsRelative(v, at, l) ==> Place(v, at, l, vbase) != Place(v, at, k, vbase)
    ensures var r := Relocate(v, base, vbase, true, Some(dyn));
            && r.Done? && |r.image| == |v| && Place(v, at, k, vbase) + 8 <= |v|
            && Read64(r.image, Place(v, at, k, vbase)) == (base + Addend(v, at, k)) % U64_SIZE
  {
    RunsAsList(v, base, vbase, dyn, t, at, n);
    RelativeInList(v, base, vbase, at, n, k);
  }

  lemma RelativeInList(v: seq<byte>, base: u64, vbase: u64, at: nat, n: nat, k: nat)
    requires Sound(v, vbase, at, n) && k < n && IsRelative(v, at, k)
    requires forall l :: k < l < n && IsRelative(v, at, l) ==> Place(v, at, l, vbase) != Place(v, at, k, vbase)
    ensures forall e :: e in Entries(v, at, n) ==> InImage(e, vbase, |v|)
    ensures Place(v, at, k, vbase) + 8 <= |v|
    ensures Read64(ApplyList(v, base, vbase, Entries(v, at, n)), Place(v, at, k, vbase))
            == (base + Addend(v, at, k)) % U64_SIZE
  {
    hide *;
    PlaceFits(v, vbase, at, n, k);
    SoundSpares(v, vbase, at, n);
    SoundIsOrderly(v, vbase, at, n);
    var es := Entries(v, at, n);
    SparedAreInImage(es, vbase, |v|, at, at + RELA_SIZE * n);
    EntryOf(v, vbase, at, n, k);
    LastInList(v, vbase, at, n, k);
    LastForWordStands(v, base, vbase, es, k);
  }

  lemma AloneIsAlone(v: seq<byte>, vbase: u64, at: nat, n: nat, k: nat)
    requires at + 24 * n <= |v| && k < n && IsAbsolute(v, at, k)
    requires forall l :: 0 <= l < n && l != k && Patches(v, at, l) ==>
               Disjoint(Place(v, at, l, vbase), Place(v, at, k, vbase))
    ensures AloneInList(Entries(v, at, n), vbase, k)
  {
    hide IsAbsolute, IsRelative, Patches, Place, Entries, Target, Disjoint;
    var es := Entries(v, at, n);
    EntryOf(v, vbase, at, n, k);
    forall l | 0 <= l < n && l != k && Writes(es[l]) ensures Disjoint(Target(es[l], vbase), Target(es[k], vbase)) {
      EntryOf(v, vbase, at, n, l);
    }
  }

  /** Entry k, if absolute and alone on its word, adds its addend to what is stored there. */
  lemma AbsoluteEntryApplied(v: seq<byte>, base: u64, vbase: u64, dyn: Dynamic, t: Described, at: nat, n: nat, k: nat)
    requires Relocatable(v, vbase, dyn, t, at, n) && k < n && IsAbsolute(v, at, k)
    requires forall l :: 0 <= l < n && l != k && Patches(v, at, l) ==>
               Disjoint(Place(v, at, l, vbase), Place(v, at, k, vbase))
    ensures var r := Relocate(v, base, vbase, true, Some(dyn));
            && r.Done? && |r.image| == |v| && Place(v, at, k, vbase) + 8 <= |v|
            && Read64(r.image, Place(v, at, k, vbase))
               == (Read64(v, Place(v, at, k, vbase)) + Addend(v, at, k)) % U64_SIZE
  {
    RunsAsList(v, base, vbase, dyn, t, at, n);
    AbsoluteInList(v, base, vbase, at, n, k);
  }

  lemma AbsoluteInList(v: seq<byte>, base: u64, vbase: u64, at: nat, n: nat, k: nat)
    requires Sound(v, vbase, at, n) && k < n && IsAbsolute(v, at, k)
    requires forall l :: 0 <= l < n && l != k && Patches(v, at, l) ==>
               Disjoint(Place(v, at, l, vbase), Place(v, at, k, vbase))
    ensures forall e :: e in Entries(v, at, n) ==> InImage(e, vbase, |v|)
    ensures Place(v, at, k, vbase) + 8 <= |v|
    ensures Read64(ApplyList(v, base, vbase, Entries(v, at, n)), Place(v, at, k, vbase))
            == (Read64(v, Place(v, at, k, vbase)) + Addend(v, at, k)) % U64_SIZE
  {
    hide *;
    PlaceFits(v, vbase, at, n, k);
    SoundSpares(v, vbase, at, n);
    var es := Entries(v, at, n);
    SparedAreInImage(es, vbase, |v|, at, at + RELA_SIZE * n);
    EntryOf(v, vbase, at, n, k);
    AloneIsAlone(v, vbase, at, n, k);
    LoneAbsoluteAdds(v, base, vbase, es, k);
  }

  /** A byte in no patched word stays as it was loaded. */
  lemma OtherBytesStay(v: seq<byte>, base: u64, vbase: u64, dyn: Dynamic, t: Described, at: nat, n: nat, b: nat)
    requires Relocatable(v, vbase, dyn, t, at, n) && b < |v|
    requires forall k :: 0 <= k < n && Patches(v, at, k) ==>
               !(Place(v, at, k, vbase) <= b < Place(v, at, k, vbase) + 8)
    ensures var r := Relocate(v, base, vbase, true, Some(dyn));
            r.Done? && |r.image| == |v| && r.image[b] == v[b]
  {
    SoundFits(v, vbase, dyn, t, at, n);
    hide IsRelative, IsAbsolute, Place, Patches, Relocatable, Relocate, Entries, ApplyList, Orderly, Spares, Target;
    RunsAsList(v, base, vbase, dyn, t, at, n);
    var es := Entries(v, at, n);
    forall k | 0 <= k < n && Writes(es[k]) ensures !(Target(es[k], vbase) <= b < Target(es[k], vbase) + 8) {
      EntryOf(v, vbase, at, n, k);
    }
    ByteStays(v, base, vbase, es, b);
  }

  /** Without a table there is nothing to do, and a table with entries of another size is refused. */
  lemma OutcomeWithoutTable(v: seq<byte>, base: u64, vbase: u64, dyn: Dynamic, t: Described)
    requires Describes(v, vbase, dyn, t)
    ensures var r := Relocate(v, base, vbase, true, Some(dyn));
            var some := t.rela != None && t.size != None && t.size != Some(0);
            && (!some ==> r == Done(Ok(()), v))
            && (some && t.entry != None && t.entry != Some(24) ==> r == Done(Err(UnexpectedRelaEntSize), v))
            && (some && (t.entry == None || t.entry == Some(24)) && t.size.value < 24 ==> r == Done(Ok(()), v))
  {
    hide PlanOf, Describes, ApplyTable;
    PlanFromWords(v, vbase, dyn, t);
  }

  lemma OutcomeWithoutDynamic(v: seq<byte>, base: u64, vbase: u64, pie: bool, dyn: Option<Dynamic>)
    ensures var r := Relocate(v, base, vbase, pie, dyn);
            && (dyn == None || !pie ==> r == Done(Ok(()), v))
            && (pie && dyn != None && dyn.value.filesz % 16 != 0 ==> r == Done(Err(InvalidDynamicSize), v))
  {
    hide ScanDynamic, ApplyTable;
  }
}
