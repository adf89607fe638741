/**
  Building the initial stack of a process in its eight bootstrap pages.  The pages are separate
  frames, so a write is split at page borders; only these pages are written.
*/
module InitialStack {
  import opened Wrappers
  import opened Words
  import opened Bytes
  import opened StackImage

  ghost predicate GoodPages(pages: seq<array<byte>>)
  {
    |pages| == STACK_PAGES
    && (forall p :: 0 <= p < |pages| ==> pages[p].Length == PAGE_SIZE)
    && (forall p, q :: 0 <= p < q < |pages| ==> pages[p] != pages[q])
  }

  /** The pages, one after the other, hold the bytes v. */
  ghost predicate Shows(pages: seq<array<byte>>, v: seq<byte>)
    requires GoodPages(pages)
    reads pages
  {
    |v| == STACK_SIZE
    && forall p, o :: 0 <= p < STACK_PAGES && 0 <= o < PAGE_SIZE ==> pages[p][o] == v[p * PAGE_SIZE + o]
  }

  /** The method that wrote the pages returned what the image says, and the pages show that image. */
  ghost predicate Agrees(pages: seq<array<byte>>, o: Outcome, r: Result<u64, ElfLoadError>)
    requires GoodPages(pages)
    reads pages
  {
    if o.Err? then r == Err(o.error) else r == Ok(o.value.sp) && Shows(pages, o.value.bytes)
  }

  /** Copies n bytes into one page. */
  method CopyIntoPage(pages: seq<array<byte>>, p: nat, o: nat, bytes: seq<byte>, ghost v: seq<byte>)
    requires GoodPages(pages) && Shows(pages, v) && p < STACK_PAGES && o + |bytes| <= PAGE_SIZE
    modifies pages[p]
    ensures p * PAGE_SIZE + o + |bytes| <= STACK_SIZE && Shows(pages, Splice(v, p * PAGE_SIZE + o, bytes))
  {
    var page := pages[p];
    forall k | 0 <= k < |bytes| {
      page[o + k] := bytes[k];
    }
    ghost var w := Splice(v, p * PAGE_SIZE + o, bytes);
    forall q, x | 0 <= q < STACK_PAGES && 0 <= x < PAGE_SIZE ensures pages[q][x] == w[q * PAGE_SIZE + x] {
      if q == p && o <= x < o + |bytes| {
        assert page[o + (x - o)] == bytes[x - o];
      } else {
        assert pages[q][x] == old(pages[q][x]);
      }
    }
  }

  lemma SpliceNone(v: seq<byte>, at: nat, bytes: seq<byte>)
    requires at <= |v|
    ensures Splice(v, at, bytes[..0]) == v
  {
  }

  lemma SameSize(pages: seq<array<byte>>, v: seq<byte>)
    requires GoodPages(pages) && Shows(pages, v)
    ensures |v| == STACK_SIZE
  {
  }

  lemma SpliceMore(v: seq<byte>, at: nat, bytes: seq<byte>, i: nat, n: nat)
    requires at + |bytes| <= |v| && i + n <= |bytes|
    ensures Splice(Splice(v, at, bytes[..i]), at + i, bytes[i..i + n]) == Splice(v, at, bytes[..i + n])
  {
  }

  method WriteStackBytes(pages: seq<array<byte>>, base: u64, vaddr: nat, bytes: seq<byte>, ghost v: seq<byte>)
    returns (r: Result<(), ElfLoadError>)
    requires GoodPages(pages) && Shows(pages, v)
    modifies pages
    ensures var w := Write(v, base, vaddr, bytes);
            if w.Err? then r == Err(w.error) && Shows(pages, v) else r == Ok(()) && Shows(pages, w.value)
  {
    hide Splice, Shows;
    SameSize(pages, v);
    if vaddr < base || vaddr - base + |bytes| > STACK_SIZE {
      return Err(InvalidElf);
    }
    var start := vaddr - base;
    var copied := 0;
    SpliceNone(v, start, bytes);
    while copied < |bytes|
      invariant copied <= |bytes| && Shows(pages, Splice(v, start, bytes[..copied]))
    {
      var off := start + copied;
      var p, o := off / PAGE_SIZE, off % PAGE_SIZE;
      var n := if |bytes| - copied < PAGE_SIZE - o then |bytes| - copied else PAGE_SIZE - o;
      SpliceMore(v, start, bytes, copied, n);
      CopyIntoPage(pages, p, o, bytes[copied..copied + n], Splice(v, start, bytes[..copied]));
      copied := copied + n;
    }
    assert bytes[..copied] == bytes;
    return Ok(());
  }

  method PushStackBytes(pages: seq<array<byte>>, base: u64, sp: u64, bytes: seq<byte>, ghost v: seq<byte>)
    returns (r: Result<u64, ElfLoadError>)
    requires GoodPages(pages) && Shows(pages, v)
    modifies pages
    ensures Agrees(pages, PushBytes(Stack(v, sp), base, bytes), r)
  {
    hide Splice;
    if sp < |bytes| + 1 {
      return Err(InvalidElf);
    }
    var low := sp - |bytes| - 1;
    var first := WriteStackBytes(pages, base, low, bytes, v);
    if first.Err? {
      return Err(first.error);
    }
    var second := WriteStackBytes(pages, base, low + |bytes|, [0], Write(v, base, low, bytes).value);
    if second.Err? {
      return Err(second.error);
    }
    return Ok(low);
  }

  method PushStackU64(pages: seq<array<byte>>, base: u64, sp: u64, x: u64, ghost v: seq<byte>)
    returns (r: Result<u64, ElfLoadError>)
    requires GoodPages(pages) && Shows(pages, v)
    modifies pages
    ensures Agrees(pages, PushWord(Stack(v, sp), base, x), r)
  {
    if sp < 8 {
      return Err(InvalidElf);
    }
    var written := WriteStackBytes(pages, base, sp - 8, Word(x), v);
    if written.Err? {
      return Err(written.error);
    }
    return Ok(sp - 8);
  }

  lemma PushStringsNext(s: Stack, base: u64, strs: seq<seq<byte>>, i: nat)
    requires |s.bytes| == STACK_SIZE && i < |strs|
    ensures PushStrings(s, base, strs[..i + 1]) == AddString(PushStrings(s, base, strs[..i]), base, strs[i])
  {
    assert strs[..i + 1][..i] == strs[..i];
  }

  lemma {:induction false} StringErrorStays(s: Stack, base: u64, strs: seq<seq<byte>>, i: nat)
    requires |s.bytes| == STACK_SIZE && i <= |strs| && PushStrings(s, base, strs[..i]).Err?
    ensures PushStrings(s, base, strs) == PushStrings(s, base, strs[..i])
    decreases |strs| - i
  {
    if i < |strs| {
      PushStringsNext(s, base, strs, i);
      StringErrorStays(s, base, strs, i + 1);
    } else {
      assert strs[..i] == strs;
    }
  }

  method PushAllStrings(pages: seq<array<byte>>, base: u64, sp: u64, strs: seq<seq<byte>>, ghost v: seq<byte>)
    returns (r: Result<(u64, seq<u64>), ElfLoadError>)
    requires GoodPages(pages) && Shows(pages, v)
    modifies pages
    ensures var o := PushStrings(Stack(v, sp), base, strs);
            if o.Err? then r == Err(o.error)
            else r == Ok((o.value.0.sp, o.value.1)) && Shows(pages, o.value.0.bytes)
  {
    hide PushStrings, PushBytes;
    var cur: u64 := sp;
    var ptrs: seq<u64> := [];
    ghost var s := Stack(v, sp);
    ghost var t := s;
    NoStrings(s, base);
    for i := 0 to |strs|
      invariant PushStrings(s, base, strs[..i]) == Ok((t, ptrs))
      invariant cur == t.sp && Shows(pages, t.bytes)
    {
      PushStringsNext(s, base, strs, i);
      var pushed := PushStackBytes(pages, base, cur, strs[i], t.bytes);
      if pushed.Err? {
        StringErrorStays(s, base, strs, i + 1);
        return Err(pushed.error);
      }
      t := PushBytes(t, base, strs[i]).value;
      cur := pushed.value;
      ptrs := ptrs + [cur];
    }
    assert strs[..|strs|] == strs;
    return Ok((cur, ptrs));
  }

  lemma NoStrings(s: Stack, base: u64)
    requires |s.bytes| == STACK_SIZE
    ensures PushStrings(s, base, []) == Ok((s, []))
  {
  }

  /** Pushes the words of a table from the last to the first. */
  method PushAllWords(pages: seq<array<byte>>, base: u64, sp: u64, ws: seq<u64>, ghost v: seq<byte>)
    returns (r: Result<u64, ElfLoadError>)
    requires GoodPages(pages) && Shows(pages, v)
    modifies pages
    ensures Agrees(pages, PushWords(Stack(v, sp), base, ws), r)
  {
    hide PushWords, PushWord;
    var cur: u64 := sp;
    ghost var s := Stack(v, sp);
    ghost var t := s;
    var idx := |ws|;
    NoWords(s, base);
    assert ws[idx..] == [];
    while idx != 0
      invariant 0 <= idx <= |ws| && PushWords(s, base, ws[idx..]) == Ok(t)
      invariant cur == t.sp && Shows(pages, t.bytes)
    {
      idx := idx - 1;
      PushWordsNext(s, base, ws, idx);
      var pushed := PushStackU64(pages, base, cur, ws[idx], t.bytes);
      if pushed.Err? {
        WordErrorStays(s, base, ws, idx);
        return Err(pushed.error);
      }
      t := PushWord(t, base, ws[idx]).value;
      cur := pushed.value;
    }
    return Ok(cur);
  }

  lemma NoWords(s: Stack, base: u64)
    requires |s.bytes| == STACK_SIZE
    ensures PushWords(s, base, []) == Ok(s)
  {
  }

  lemma PushWordsNext(s: Stack, base: u64, ws: seq<u64>, i: nat)
    requires |s.bytes| == STACK_SIZE && i < |ws|
    ensures PushWords(s, base, ws[i..]) == AddWord(PushWords(s, base, ws[i + 1..]), base, ws[i])
  {
    assert ws[i..][1..] == ws[i + 1..];
  }

  lemma {:induction false} WordErrorStays(s: Stack, base: u64, ws: seq<u64>, i: nat)
    requires |s.bytes| == STACK_SIZE && i <= |ws| && PushWords(s, base, ws[i..]).Err?
    ensures PushWords(s, base, ws) == PushWords(s, base, ws[i..])
  {
    if i > 0 {
      PushWordsNext(s, base, ws, i - 1);
      WordErrorStays(s, base, ws, i - 1);
    }
  }

  /** Builds the stack in the pages and returns the stack pointer of the process. */
  method BuildInitialProcessStack(pages: seq<array<byte>>, base: u64, top: u64, argv: seq<seq<byte>>,
                                  envp: seq<seq<byte>>, ghost v: seq<byte>) returns (r: Result<u64, ElfLoadError>)
    requires GoodPages(pages) && Shows(pages, v) && |argv| < U64_SIZE
    modifies pages
    ensures Agrees(pages, Build(v, base, top, argv, envp), r)
    ensures r.Ok? && base <= top <= base + STACK_SIZE ==>
              exists w :: Shows(pages, w) && IsInitialStack(Stack(w, r.value), base, argv, envp)
  {
    hide PushStrings, PushWords, Table, IsInitialStack;
    ghost var o := Build(v, base, top, argv, envp);
    if o.Ok? && base <= top <= base + STACK_SIZE { BuildIsInitialStack(v, base, top, argv, envp); }
    var args := PushAllStrings(pages, base, top, argv, v);
    if args.Err? {
      return Err(args.error);
    }
    ghost var s := PushStrings(Stack(v, top), base, argv).value.0;
    var envs := PushAllStrings(pages, base, args.value.0, envp, s.bytes);
    if envs.Err? {
      return Err(envs.error);
    }
    ghost var t := PushStrings(s, base, envp).value.0;
    r := PushTable(pages, base, AlignDown16(envs.value.0), args.value.1, envs.value.1, t.bytes);
  }

  lemma TableInStretches(s: Stack, base: u64, a: seq<u64>, b: seq<u64>, c: seq<u64>)
    requires |s.bytes| == STACK_SIZE
    ensures var o := PushWords(s, base, c);
            var p := if o.Err? then o else PushWords(o.value, base, b);
            PushWords(s, base, a + b + c) == if p.Err? then p else PushWords(p.value, base, a)
  {
    PushWordsConcat(s, base, a + b, c);
    var o := PushWords(s, base, c);
    if o.Ok? { PushWordsConcat(o.value, base, a, b); }
  }

  /** The table, pushed in the five stretches of the source. */
  method PushTable(pages: seq<array<byte>>, base: u64, sp: u64, argv: seq<u64>, envp: seq<u64>, ghost v: seq<byte>)
    returns (r: Result<u64, ElfLoadError>)
    requires GoodPages(pages) && Shows(pages, v) && |argv| < U64_SIZE
    modifies pages
    ensures Agrees(pages, PushWords(Stack(v, sp), base, Table(argv, envp)), r)
  {
    hide PushWords;
    var filler: seq<u64> := if (|argv| + |envp| + 5) % 2 == 0 then [0] else [];
    ghost var s := Stack(v, sp);
    TableInStretches(s, base, [|argv|] + argv, [0] + envp, [0] + [0, 0] + filler);
    assert [|argv|] + argv + ([0] + envp) + ([0] + [0, 0] + filler) == Table(argv, envp);
    var o := PushAllWords(pages, base, sp, [0] + [0, 0] + filler, v);
    if o.Err? {
      return o;
    }
    ghost var s1 := PushWords(s, base, [0] + [0, 0] + filler).value;
    o := PushAllWords(pages, base, o.value, [0] + envp, s1.bytes);
    if o.Err? {
      return o;
    }
    ghost var s2 := PushWords(s1, base, [0] + envp).value;
    r := PushAllWords(pages, base, o.value, [|argv|] + argv, s2.bytes);
  }
}
