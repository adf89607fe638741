/**
  The initial stack of a process as a value: the bytes of the stack window and the stack pointer
  after each push.  Pushes only go down, so what was pushed stays readable.
*/
module StackImage {
  import opened Wrappers
  import opened Words
  import opened Bytes

  const STACK_PAGES: nat := 8
  const STACK_SIZE: nat := 32768

  datatype ElfLoadError = InvalidElf | OutOfMemory

  /** `bytes[k]` is the byte at address base + k. */
  datatype Stack = Stack(bytes: seq<byte>, sp: u64)

  type Outcome = Result<Stack, ElfLoadError>

  // ---------------------------------------------------------------- one write, one push

  /** Writes bytes at a user address, when they fit in the window. */
  function Write(v: seq<byte>, base: u64, vaddr: nat, bytes: seq<byte>): Result<seq<byte>, ElfLoadError>
    requires |v| == STACK_SIZE
  {
    if vaddr < base || vaddr - base + |bytes| > STACK_SIZE then Err(InvalidElf) else Ok(Splice(v, vaddr - base, bytes))
  }

  function PushBytes(s: Stack, base: u64, bytes: seq<byte>): (r: Outcome)
    requires |s.bytes| == STACK_SIZE
    ensures r.Ok? ==> |r.value.bytes| == STACK_SIZE
  {
    if s.sp < |bytes| + 1 then Err(InvalidElf)
    else
      var sp := s.sp - |bytes| - 1;
      match Write(s.bytes, base, sp, bytes)
      case Err(e) => Err(e)
      case Ok(v) =>
        match Write(v, base, sp + |bytes|, [0])
        case Err(e) => Err(e)
        case Ok(w) => Ok(Stack(w, sp))
  }

  function PushWord(s: Stack, base: u64, x: u64): (r: Outcome)
    requires |s.bytes| == STACK_SIZE
    ensures r.Ok? ==> |r.value.bytes| == STACK_SIZE
  {
    if s.sp < 8 then Err(InvalidElf)
    else match Write(s.bytes, base, s.sp - 8, Word(x))
      case Err(e) => Err(e)
      case Ok(v) => Ok(Stack(v, s.sp - 8))
  }

  /** The stack pointer lies in the window. */
  predicate InWindow(s: Stack, base: u64) { |s.bytes| == STACK_SIZE && base <= s.sp <= base + STACK_SIZE }

  /** t is s after pushing `pushed` below it: those bytes, then everything s had. */
  predicate Grown(s: Stack, t: Stack, base: u64, pushed: seq<byte>)
    requires InWindow(s, base)
  {
    InWindow(t, base) && t.sp + |pushed| == s.sp && t.bytes[t.sp - base..] == pushed + s.bytes[s.sp - base..]
  }

  lemma PushBytesGrows(s: Stack, base: u64, bytes: seq<byte>)
    requires InWindow(s, base)
    ensures PushBytes(s, base, bytes).Ok? <==> base + |bytes| + 1 <= s.sp
    ensures PushBytes(s, base, bytes).Ok? ==> Grown(s, PushBytes(s, base, bytes).value, base, bytes + [0])
    ensures PushBytes(s, base, bytes).Err? ==> PushBytes(s, base, bytes).error == InvalidElf
  {
  }

  lemma PushWordGrows(s: Stack, base: u64, x: u64)
    requires InWindow(s, base)
    ensures PushWord(s, base, x).Ok? <==> base + 8 <= s.sp
    ensures PushWord(s, base, x).Ok? ==> Grown(s, PushWord(s, base, x).value, base, Word(x))
  {
  }

  /** What was readable above the stack pointer still is. */
  lemma GrownKeeps(s: Stack, t: Stack, base: u64, pushed: seq<byte>, at: nat, len: nat)
    requires InWindow(s, base) && Grown(s, t, base, pushed) && s.sp - base <= at && at + len <= STACK_SIZE
    ensures t.bytes[at..at + len] == s.bytes[at..at + len]
  {
    var d := t.sp - base;
    forall k | at <= k < at + len ensures t.bytes[k] == s.bytes[k] {
      assert t.bytes[d..][k - d] == (pushed + s.bytes[s.sp - base..])[k - d];
    }
  }

  lemma GrownWindow(s: Stack, t: Stack, base: u64, pushed: seq<byte>)
    requires InWindow(s, base) && Grown(s, t, base, pushed)
    ensures InWindow(t, base) && t.sp + |pushed| == s.sp
  {
  }

  lemma GrownTwice(s: Stack, t: Stack, u: Stack, base: u64, p: seq<byte>, q: seq<byte>)
    requires InWindow(s, base) && Grown(s, t, base, p) && Grown(t, u, base, q)
    ensures Grown(s, u, base, q + p)
  {
    assert q + (p + s.bytes[s.sp - base..]) == q + p + s.bytes[s.sp - base..];
  }

  // ---------------------------------------------------------------- strings

  type Strings = Result<(Stack, seq<u64>), ElfLoadError>

  /** One more string below those already pushed. */
  function AddString(o: Strings, base: u64, str: seq<byte>): (r: Strings)
    requires o.Ok? ==> |o.value.0.bytes| == STACK_SIZE
    ensures r.Ok? ==> o.Ok? && |r.value.0.bytes| == STACK_SIZE && |r.value.1| == |o.value.1| + 1
  {
    if o.Err? then o
    else match PushBytes(o.value.0, base, str)
      case Err(e) => Err(e)
      case Ok(u) => Ok((u, o.value.1 + [u.sp]))
  }

  /** Pushes the strings one below the other; the pointers are in argument order. */
  function PushStrings(s: Stack, base: u64, strs: seq<seq<byte>>): (r: Strings)
    requires |s.bytes| == STACK_SIZE
    ensures r.Ok? ==> |r.value.0.bytes| == STACK_SIZE && |r.value.1| == |strs|
  {
    if strs == [] then Ok((s, [])) else AddString(PushStrings(s, base, strs[..|strs| - 1]), base, strs[|strs| - 1])
  }

  /** The bytes pushed for the strings: the last one lowest, each with its terminator. */
  function StringBytes(strs: seq<seq<byte>>): seq<byte>
  {
    if strs == [] then [] else strs[|strs| - 1] + [0] + StringBytes(strs[..|strs| - 1])
  }

  lemma {:induction false} PushStringsGrows(s: Stack, base: u64, strs: seq<seq<byte>>)
    requires InWindow(s, base)
    ensures PushStrings(s, base, strs).Ok? <==> base + |StringBytes(strs)| <= s.sp
    ensures PushStrings(s, base, strs).Ok? ==> Grown(s, PushStrings(s, base, strs).value.0, base, StringBytes(strs))
    ensures PushStrings(s, base, strs).Err? ==> PushStrings(s, base, strs).error == InvalidElf
  {
    if strs == [] {
      assert [] + s.bytes[s.sp - base..] == s.bytes[s.sp - base..];
    } else {
      var rest, last := strs[..|strs| - 1], strs[|strs| - 1];
      PushStringsGrows(s, base, rest);
      if PushStrings(s, base, rest).Ok? {
        var t := PushStrings(s, base, rest).value.0;
        PushBytesGrows(t, base, last);
        if PushBytes(t, base, last).Ok? {
          GrownTwice(s, t, PushBytes(t, base, last).value, base, StringBytes(rest), last + [0]);
        }
      }
    }
  }

  /** A terminated string lies at an address inside the window, above the stack pointer. */
  predicate StringAt(s: Stack, base: u64, ptr: nat, str: seq<byte>)
  {
    InWindow(s, base) && s.sp <= ptr && ptr - base + |str| + 1 <= STACK_SIZE
    && s.bytes[ptr - base..ptr - base + |str| + 1] == str + [0]
  }

  lemma StringStays(s: Stack, t: Stack, base: u64, pushed: seq<byte>, ptr: nat, str: seq<byte>)
    requires StringAt(s, base, ptr, str) && Grown(s, t, base, pushed)
    ensures StringAt(t, base, ptr, str)
  {
    GrownKeeps(s, t, base, pushed, ptr - base, |str| + 1);
  }

  lemma {:induction false} PushedStringAt(s: Stack, base: u64, strs: seq<seq<byte>>, i: nat)
    requires InWindow(s, base) && PushStrings(s, base, strs).Ok? && i < |strs|
    ensures StringAt(PushStrings(s, base, strs).value.0, base, PushStrings(s, base, strs).value.1[i], strs[i])
  {
    hide PushBytes, StringBytes;
    var rest, last := strs[..|strs| - 1], strs[|strs| - 1];
    PushStringsGrows(s, base, rest);
    var t := PushStrings(s, base, rest).value.0;
    PushBytesGrows(t, base, last);
    var u := PushBytes(t, base, last).value;
    if i < |rest| {
      PushedStringAt(s, base, rest, i);
      StringStays(t, u, base, last + [0], PushStrings(s, base, rest).value.1[i], strs[i]);
    } else {
      var suffix := u.bytes[u.sp - base..];
      assert suffix[..|last| + 1] == last + [0];
      assert u.bytes[u.sp - base..u.sp - base + |last| + 1] == suffix[..|last| + 1];
    }
  }

  // ---------------------------------------------------------------- words

  /** One more word below those already pushed. */
  function AddWord(o: Outcome, base: u64, x: u64): (r: Outcome)
    requires o.Ok? ==> |o.value.bytes| == STACK_SIZE
    ensures r.Ok? ==> o.Ok? && |r.value.bytes| == STACK_SIZE
  {
    if o.Err? then o else PushWord(o.value, base, x)
  }

  /** Pushes words so that they read upwards in order. */
  function PushWords(s: Stack, base: u64, ws: seq<u64>): (r: Outcome)
    requires |s.bytes| == STACK_SIZE
    ensures r.Ok? ==> |r.value.bytes| == STACK_SIZE
  {
    if ws == [] then Ok(s) else AddWord(PushWords(s, base, ws[1..]), base, ws[0])
  }

  lemma {:induction false} PushWordsConcat(s: Stack, base: u64, a: seq<u64>, b: seq<u64>)
    requires |s.bytes| == STACK_SIZE
    ensures var o := PushWords(s, base, b);
            PushWords(s, base, a + b) == if o.Err? then o else PushWords(o.value, base, a)
  {
    if a == [] {
      assert a + b == b;
    } else {
      assert (a + b)[1..] == a[1..] + b;
      PushWordsConcat(s, base, a[1..], b);
    }
  }

  lemma {:induction false} PushWordsGrows(s: Stack, base: u64, ws: seq<u64>)
    requires InWindow(s, base)
    ensures PushWords(s, base, ws).Ok? <==> base + 8 * |ws| <= s.sp
    ensures PushWords(s, base, ws).Ok? ==> Grown(s, PushWords(s, base, ws).value, base, WordBytes(ws))
  {
    if ws == [] {
      assert [] + s.bytes[s.sp - base..] == s.bytes[s.sp - base..];
    } else {
      PushWordsGrows(s, base, ws[1..]);
      if PushWords(s, base, ws[1..]).Ok? {
        var t := PushWords(s, base, ws[1..]).value;
        PushWordGrows(t, base, ws[0]);
        if PushWord(t, base, ws[0]).Ok? {
          GrownTwice(s, t, PushWord(t, base, ws[0]).value, base, WordBytes(ws[1..]), Word(ws[0]));
        }
      }
    }
  }

  /** The 64-bit word a process reads at an address. */
  function WordAt(s: Stack, base: u64, vaddr: nat): nat
    requires |s.bytes| == STACK_SIZE && base <= vaddr && vaddr + 8 <= base + STACK_SIZE
  {
    Read64(s.bytes, vaddr - base)
  }

  lemma GrownSlice(s: Stack, t: Stack, base: u64, pushed: seq<byte>, at: nat, len: nat)
    requires InWindow(s, base) && Grown(s, t, base, pushed) && at + len <= |pushed|
    ensures t.bytes[t.sp - base + at..t.sp - base + at + len] == pushed[at..at + len]
  {
    SliceOfSlice(t.bytes, t.sp - base, at, len);
    var below := t.bytes[t.sp - base..];
    assert below[at..at + len] == pushed[at..at + len];
  }

  lemma PushedWordAt(s: Stack, base: u64, ws: seq<u64>, i: nat)
    requires InWindow(s, base) && PushWords(s, base, ws).Ok? && i < |ws|
    ensures var t := PushWords(s, base, ws).value;
            InWindow(t, base) && t.sp + 8 * |ws| == s.sp && WordAt(t, base, t.sp + 8 * i) == ws[i]
  {
    hide PushWords, WordBytes, FromBytes, Word;
    PushWordsGrows(s, base, ws);
    GrownSlice(s, PushWords(s, base, ws).value, base, WordBytes(ws), 8 * i, 8);
    WordBytesAt(ws, i);
    WordRoundTrip(ws[i]);
  }

  // ---------------------------------------------------------------- the whole stack

  function AlignDown16(sp: u64): u64 { sp - sp % 16 }

  lemma AlignedBelow(sp: u64)
    ensures AlignDown16(sp) <= sp < AlignDown16(sp) + 16 && AlignDown16(sp) % 16 == 0
  {
  }

  lemma OddWordsBelow(sp: nat, k: nat, aligned: nat)
    requires aligned % 16 == 0 && k % 2 == 1 && sp + 8 * k == aligned
    ensures sp % 16 == 8
  {
    var j := k / 2;
    assert 8 * k == 16 * j + 8;
  }

  /** argc, argv, null, envp, null, the terminating auxiliary pair, and a filler that keeps the count odd. */
  function Table(argv: seq<u64>, envp: seq<u64>): seq<u64>
    requires |argv| < U64_SIZE
  {
    [|argv|] + argv + [0] + envp + [0] + [0, 0] + if (|argv| + |envp| + 5) % 2 == 0 then [0] else []
  }

  /** The initial stack for the arguments and the environment. */
  function Build(v: seq<byte>, base: u64, top: u64, argv: seq<seq<byte>>, envp: seq<seq<byte>>): Outcome
    requires |v| == STACK_SIZE && |argv| < U64_SIZE
  {
    match PushStrings(Stack(v, top), base, argv)
    case Err(e) => Err(e)
    case Ok((s, argvPtrs)) =>
      match PushStrings(s, base, envp)
      case Err(e) => Err(e)
      case Ok((t, envpPtrs)) => PushWords(Stack(t.bytes, AlignDown16(t.sp)), base, Table(argvPtrs, envpPtrs))
  }

  /** The stack the process starts with, as it sees it. */
  ghost predicate IsInitialStack(s: Stack, base: u64, argv: seq<seq<byte>>, envp: seq<seq<byte>>)
  {
    var n, m := |argv|, |envp|;
    && InWindow(s, base) && s.sp % 16 == 8 && s.sp + 8 * (n + m + 5) <= base + STACK_SIZE
    && WordAt(s, base, s.sp) == n
    && (forall i :: 0 <= i < n ==> StringAt(s, base, WordAt(s, base, s.sp + 8 * (1 + i)), argv[i]))
    && WordAt(s, base, s.sp + 8 * (1 + n)) == 0
    && (forall j :: 0 <= j < m ==> StringAt(s, base, WordAt(s, base, s.sp + 8 * (2 + n + j)), envp[j]))
    && WordAt(s, base, s.sp + 8 * (2 + n + m)) == 0
    && WordAt(s, base, s.sp + 8 * (3 + n + m)) == 0
    && WordAt(s, base, s.sp + 8 * (4 + n + m)) == 0
  }

  /** Room for the strings, then, from the next multiple of 16 down, for the table. */
  predicate Fits(base: u64, top: u64, argv: seq<seq<byte>>, envp: seq<seq<byte>>)
  {
    var strings := |StringBytes(argv)| + |StringBytes(envp)|;
    base + strings <= top
    && base + 8 * (|argv| + |envp| + 5 + (|argv| + |envp|) % 2) <= AlignDown16(top - strings)
  }

  lemma BuildSucceedsExactlyWhenItFits(v: seq<byte>, base: u64, top: u64, argv: seq<seq<byte>>, envp: seq<seq<byte>>)
    requires |v| == STACK_SIZE && |argv| < U64_SIZE && base <= top <= base + STACK_SIZE
    ensures Build(v, base, top, argv, envp).Ok? <==> Fits(base, top, argv, envp)
  {
    hide PushWords, PushStrings, Table, StringBytes, WordBytes, Grown, AlignDown16;
    var s0 := Stack(v, top);
    PushStringsGrows(s0, base, argv);
    if PushStrings(s0, base, argv).Ok? {
      var s := PushStrings(s0, base, argv).value.0;
      GrownWindow(s0, s, base, StringBytes(argv));
      PushStringsGrows(s, base, envp);
      if PushStrings(s, base, envp).Ok? {
        var t := PushStrings(s, base, envp).value.0;
        GrownWindow(s, t, base, StringBytes(envp));
        AlignedBelow(t.sp);
        var a := Stack(t.bytes, AlignDown16(t.sp));
        var table := Table(PushStrings(s0, base, argv).value.1, PushStrings(s, base, envp).value.1);
        TableEntries(PushStrings(s0, base, argv).value.1, PushStrings(s, base, envp).value.1);
        if a.sp >= base { PushWordsGrows(a, base, table); } else { PushWordsBelow(a, base, table); }
      }
    }
  }

  lemma {:induction false} PushWordsBelow(s: Stack, base: u64, ws: seq<u64>)
    requires |s.bytes| == STACK_SIZE && s.sp < base && ws != []
    ensures PushWords(s, base, ws).Err?
  {
    if |ws| > 1 { PushWordsBelow(s, base, ws[1..]); }
  }

  /** Aligning leaves the strings where they are. */
  lemma AlignedStays(t: Stack, base: u64, ptr: nat, str: seq<byte>)
    requires StringAt(t, base, ptr, str) && base <= AlignDown16(t.sp)
    ensures StringAt(Stack(t.bytes, AlignDown16(t.sp)), base, ptr, str)
  {
  }

  lemma TableEntries(argv: seq<u64>, envp: seq<u64>)
    requires |argv| < U64_SIZE
    ensures var t, n, m := Table(argv, envp), |argv|, |envp|;
            && |t| == n + m + 5 + (n + m) % 2 && |t| % 2 == 1
            && t[0] == n && t[1 + n] == 0 && t[2 + n + m] == 0 && t[3 + n + m] == 0 && t[4 + n + m] == 0
            && (forall i :: 0 <= i < n ==> t[1 + i] == argv[i])
            && (forall j :: 0 <= j < m ==> t[2 + n + j] == envp[j])
  {
  }

  /** A string below which a table is pushed is read through its pointer in the table. */
  lemma StringThroughTable(t: Stack, base: u64, table: seq<u64>, i: nat, str: seq<byte>)
    requires InWindow(t, base) && i < |table| && StringAt(t, base, table[i], str)
    requires PushWords(Stack(t.bytes, AlignDown16(t.sp)), base, table).Ok?
    ensures var b := PushWords(Stack(t.bytes, AlignDown16(t.sp)), base, table).value;
            InWindow(b, base) && b.sp + 8 * i + 8 <= base + STACK_SIZE
              && StringAt(b, base, WordAt(b, base, b.sp + 8 * i), str)
  {
    hide PushWords, WordBytes, WordAt, Grown, StringAt, AlignDown16;
    var a := Stack(t.bytes, AlignDown16(t.sp));
    AlignedBelow(t.sp);
    if a.sp < base { PushWordsBelow(a, base, table); }
    AlignedStays(t, base, table[i], str);
    PushWordsGrows(a, base, table);
    PushedWordAt(a, base, table, i);
    StringStays(a, PushWords(a, base, table).value, base, WordBytes(table), table[i], str);
  }

  /** Whatever fits is laid out as a process expects it: alignment, count, pointers, terminators, strings. */
  lemma BuildIsInitialStack(v: seq<byte>, base: u64, top: u64, argv: seq<seq<byte>>, envp: seq<seq<byte>>)
    requires |v| == STACK_SIZE && |argv| < U64_SIZE && base <= top <= base + STACK_SIZE
    requires Build(v, base, top, argv, envp).Ok?
    ensures IsInitialStack(Build(v, base, top, argv, envp).value, base, argv, envp)
  {
    hide PushWords, PushStrings, Table, StringBytes, WordBytes, WordAt, StringAt, Grown, AlignDown16;
    var n, m := |argv|, |envp|;
    var s0 := Stack(v, top);
    PushStringsGrows(s0, base, argv);
    var s, argvPtrs := PushStrings(s0, base, argv).value.0, PushStrings(s0, base, argv).value.1;
    GrownWindow(s0, s, base, StringBytes(argv));
    PushStringsGrows(s, base, envp);
    var t, envpPtrs := PushStrings(s, base, envp).value.0, PushStrings(s, base, envp).value.1;
    GrownWindow(s, t, base, StringBytes(envp));
    var a, table := Stack(t.bytes, AlignDown16(t.sp)), Table(argvPtrs, envpPtrs);
    var b := PushWords(a, base, table).value;
    TableEntries(argvPtrs, envpPtrs);
    AlignedBelow(t.sp);
    if a.sp < base { PushWordsBelow(a, base, table); }
    PushWordsGrows(a, base, table);
    GrownWindow(a, b, base, WordBytes(table));
    OddWordsBelow(b.sp, |table|, a.sp);
    forall i | 0 <= i < |table| ensures WordAt(b, base, b.sp + 8 * i) == table[i] { PushedWordAt(a, base, table, i); }
    forall i | 0 <= i < n ensures StringAt(b, base, WordAt(b, base, b.sp + 8 * (1 + i)), argv[i]) {
      PushedStringAt(s0, base, argv, i);
      StringStays(s, t, base, StringBytes(envp), argvPtrs[i], argv[i]);
      StringThroughTable(t, base, table, 1 + i, argv[i]);
    }
    forall j | 0 <= j < m ensures StringAt(b, base, WordAt(b, base, b.sp + 8 * (2 + n + j)), envp[j]) {
      PushedStringAt(s, base, envp, j);
      StringThroughTable(t, base, table, 2 + n + j, envp[j]);
    }
  }

  // ---------------------------------------------------------------- reading C strings

  /** The bytes up to the first zero. */
  function CString(v: seq<byte>, at: nat): seq<byte>
    decreases |v| - at
  {
    if at >= |v| || v[at] == 0 then [] else [v[at]] + CString(v, at + 1)
  }

  /** A process reads an argument back whole exactly when it holds no zero byte. */
  lemma {:induction false} ReadsBackExactlyWhen(v: seq<byte>, at: nat, str: seq<byte>)
    requires at + |str| + 1 <= |v| && v[at..at + |str| + 1] == str + [0]
    ensures CString(v, at) == str <==> 0 !in str
    decreases |str|
  {
    assert v[at] == (str + [0])[0];
    if str != [] && str[0] != 0 {
      assert v[at + 1..at + 1 + |str[1..]| + 1] == v[at..at + |str| + 1][1..] == str[1..] + [0];
      ReadsBackExactlyWhen(v, at + 1, str[1..]);
      assert str == [str[0]] + str[1..];
      assert CString(v, at) == [v[at]] + CString(v, at + 1);
      assert CString(v, at)[1..] == CString(v, at + 1);
    }
  }

  lemma StringReads(s: Stack, base: u64, ptr: nat, str: seq<byte>)
    requires StringAt(s, base, ptr, str)
    ensures ptr >= base && (CString(s.bytes, ptr - base) == str <==> 0 !in str)
  {
    ReadsBackExactlyWhen(s.bytes, ptr - base, str);
  }

  /** So a process reads argument i through argv and, with the same argument, variable i through envp. */
  lemma ProcessReadsItsStrings(s: Stack, base: u64, argv: seq<seq<byte>>, envp: seq<seq<byte>>, i: nat)
    requires IsInitialStack(s, base, argv, envp)
    ensures i < |argv| ==>
              var ptr := WordAt(s, base, s.sp + 8 * (1 + i));
              ptr >= base && (CString(s.bytes, ptr - base) == argv[i] <==> 0 !in argv[i])
    ensures i < |envp| ==>
              var ptr := WordAt(s, base, s.sp + 8 * (2 + |argv| + i));
              ptr >= base && (CString(s.bytes, ptr - base) == envp[i] <==> 0 !in envp[i])
  {
    hide WordAt, CString, StringAt;
    if i < |argv| { StringReads(s, base, WordAt(s, base, s.sp + 8 * (1 + i)), argv[i]); }
    if i < |envp| { StringReads(s, base, WordAt(s, base, s.sp + 8 * (2 + |argv| + i)), envp[i]); }
  }
}
