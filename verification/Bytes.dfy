/** Byte strings, little-endian words, and overwriting part of a byte string. */
module Bytes {
  import opened Words

  type byte = n: nat | n < 256

  function Zeros(n: nat): (z: seq<byte>)
    ensures |z| == n && forall i :: 0 <= i < n ==> z[i] == 0
  {
    seq(n, _ => 0)
  }

  function ToBytes(x: nat, n: nat): (b: seq<byte>)
    ensures |b| == n
  {
    if n == 0 then [] else [x % 256] + ToBytes(x / 256, n - 1)
  }

  function FromBytes(b: seq<byte>): (x: nat)
    ensures x < Pow256(|b|)
  {
    if b == [] then 0 else b[0] + 256 * FromBytes(b[1..])
  }

  function Pow256(n: nat): nat { if n == 0 then 1 else 256 * Pow256(n - 1) }

  lemma {:induction false} BytesRoundTrip(x: nat, n: nat)
    requires x < Pow256(n)
    ensures FromBytes(ToBytes(x, n)) == x
  {
    if n > 0 {
      assert ToBytes(x, n)[1..] == ToBytes(x / 256, n - 1);
      BytesRoundTrip(x / 256, n - 1);
    }
  }

  lemma WordSize()
    ensures Pow256(8) == U64_SIZE
  {
    assert Pow256(8) == 256 * (256 * (256 * (256 * Pow256(4))));
    assert Pow256(4) == 256 * (256 * (256 * (256 * Pow256(0))));
  }

  function Word(x: u64): (b: seq<byte>)
    ensures |b| == 8
  {
    ToBytes(x, 8)
  }

  /** The 64-bit word stored at a position. */
  function Read64(v: seq<byte>, at: nat): u64
    requires at + 8 <= |v|
  {
    WordSize();
    FromBytes(v[at..at + 8])
  }

  lemma WordRoundTrip(x: u64)
    ensures FromBytes(Word(x)) == x
  {
    WordSize();
    BytesRoundTrip(x, 8);
  }

  /** Consecutive words. */
  function WordBytes(ws: seq<u64>): (b: seq<byte>)
    ensures |b| == 8 * |ws|
  {
    if ws == [] then [] else Word(ws[0]) + WordBytes(ws[1..])
  }

  lemma {:induction false} WordBytesAt(ws: seq<u64>, i: nat)
    requires i < |ws|
    ensures WordBytes(ws)[8 * i..8 * i + 8] == Word(ws[i])
  {
    var all := WordBytes(ws);
    if i > 0 {
      WordBytesAt(ws[1..], i - 1);
      assert all[8..] == WordBytes(ws[1..]);
      assert all[8..][8 * (i - 1)..8 * (i - 1) + 8] == all[8 * i..8 * i + 8];
    }
  }

  lemma WordOfWords(ws: seq<u64>, i: nat)
    requires i < |ws|
    ensures Read64(WordBytes(ws), 8 * i) == ws[i]
  {
    WordBytesAt(ws, i);
    WordRoundTrip(ws[i]);
  }

  /** v with `bytes` written over it from position `at`. */
  function Splice(v: seq<byte>, at: nat, bytes: seq<byte>): (r: seq<byte>)
    requires at + |bytes| <= |v|
    ensures |r| == |v|
  {
    v[..at] + bytes + v[at + |bytes|..]
  }

  lemma SliceOfSlice(v: seq<byte>, d: nat, at: nat, len: nat)
    requires d + at + len <= |v|
    ensures v[d..][at..at + len] == v[d + at..d + at + len]
  {
  }

  /** A word written is read back. */
  lemma ReadWritten(v: seq<byte>, at: nat, x: u64)
    requires at + 8 <= |v|
    ensures Read64(Splice(v, at, Word(x)), at) == x
  {
    assert Splice(v, at, Word(x))[at..at + 8] == Word(x);
    WordRoundTrip(x);
  }

  /** A write elsewhere leaves a word alone. */
  lemma ReadElsewhere(v: seq<byte>, at: nat, bytes: seq<byte>, other: nat)
    requires at + |bytes| <= |v| && other + 8 <= |v| && (other + 8 <= at || at + |bytes| <= other)
    ensures Read64(Splice(v, at, bytes), other) == Read64(v, other)
  {
    assert Splice(v, at, bytes)[other..other + 8] == v[other..other + 8];
  }
}
