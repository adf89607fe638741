/** Filtering a table in place, as `Vec::retain` does. */
module Seqs {
  /** The elements that satisfy keep, in order. */
  function Retain<T>(s: seq<T>, keep: T -> bool): seq<T>
  {
    if s == [] then []
    else Retain(s[..|s| - 1], keep) + if keep(s[|s| - 1]) then [s[|s| - 1]] else []
  }

  lemma RetainSnoc<T>(s: seq<T>, x: T, keep: T -> bool)
    ensures Retain(s + [x], keep) == Retain(s, keep) + if keep(x) then [x] else []
  {
    assert (s + [x])[..|s|] == s;
  }

  lemma {:induction false} RetainShrinks<T>(s: seq<T>, keep: T -> bool)
    ensures |Retain(s, keep)| <= |s|
  {
    if s != [] { RetainShrinks(s[..|s| - 1], keep); }
  }

  lemma {:induction false} RetainIsExact<T>(s: seq<T>, keep: T -> bool, x: T)
    ensures multiset(Retain(s, keep))[x] == if keep(x) then multiset(s)[x] else 0
  {
    if s != [] {
      var last := |s| - 1;
      RetainIsExact(s[..last], keep, x);
      assert s == s[..last] + [s[last]];
    }
  }

  /** A kept element survives, nothing else does, and nothing is added. */
  lemma RetainMember<T>(s: seq<T>, keep: T -> bool, x: T)
    ensures x in Retain(s, keep) <==> x in s && keep(x)
  {
    RetainIsExact(s, keep, x);
    assert x in Retain(s, keep) <==> x in multiset(Retain(s, keep));
    assert x in s <==> x in multiset(s);
  }

  /** Each kept element sits at some old position, and order is kept. */
  lemma {:induction false} RetainOrder<T>(s: seq<T>, keep: T -> bool, i: nat, j: nat) returns (p: nat, q: nat)
    requires i < j < |Retain(s, keep)|
    ensures p < q < |s| && s[p] == Retain(s, keep)[i] && s[q] == Retain(s, keep)[j]
  {
    var last := |s| - 1;
    if j < |Retain(s[..last], keep)| {
      p, q := RetainOrder(s[..last], keep, i, j);
    } else {
      q := last;
      p := RetainPosition(s[..last], keep, i);
    }
  }

  lemma {:induction false} RetainPosition<T>(s: seq<T>, keep: T -> bool, i: nat) returns (p: nat)
    requires i < |Retain(s, keep)|
    ensures p < |s| && s[p] == Retain(s, keep)[i]
  {
    var last := |s| - 1;
    if i < |Retain(s[..last], keep)| { p := RetainPosition(s[..last], keep, i); } else { p := last; }
  }

  /** A table being filtered from the front: the first n elements are done. */
  function Partly<T>(s: seq<T>, n: nat, keep: T -> bool): seq<T>
    requires n <= |s|
  {
    Retain(s[..n], keep) + s[n..]
  }

  /** Stepping over a kept element, or removing one that is not, does one element more. */
  lemma PartlyStep<T>(s: seq<T>, n: nat, keep: T -> bool)
    requires n < |s|
    ensures var i := |Retain(s[..n], keep)|;
            var t := Partly(s, n, keep);
            i < |t| && t[i] == s[n]
            && Partly(s, n + 1, keep) == (if keep(s[n]) then t else t[..i] + t[i + 1..])
            && |Retain(s[..n + 1], keep)| == (if keep(s[n]) then i + 1 else i)
  {
    assert s[..n + 1] == s[..n] + [s[n]];
    RetainSnoc(s[..n], s[n], keep);
  }

  lemma PartlyDone<T>(s: seq<T>, n: nat, keep: T -> bool)
    requires n <= |s|
    ensures |Partly(s, n, keep)| == |Retain(s[..n], keep)| ==> n == |s| && Partly(s, n, keep) == Retain(s, keep)
    ensures n == 0 ==> Partly(s, n, keep) == s && Retain(s[..n], keep) == []
  {
    assert n == |s| ==> s[..n] == s;
  }

  lemma MoveElement<T>(s: seq<T>, i: nat, d: seq<T>)
    requires i < |s|
    ensures multiset(s[..i] + s[i + 1..]) + multiset(d + [s[i]]) == multiset(s) + multiset(d)
  {
    assert s == s[..i] + [s[i]] + s[i + 1..];
  }

  /** The first n elements of `before` are done: those not kept moved from the table to `drained`. */
  ghost predicate Draining<T>(before: seq<T>, n: nat, keep: T -> bool, table: seq<T>, i: nat, drained: seq<T>)
  {
    n <= |before| && table == Partly(before, n, keep) && i == |Retain(before[..n], keep)|
    && multiset(table) + multiset(drained) == multiset(before)
  }

  lemma DrainStart<T>(before: seq<T>, keep: T -> bool)
    ensures Draining(before, 0, keep, before, 0, [])
  {
    PartlyDone(before, 0, keep);
  }

  lemma DrainStep<T>(before: seq<T>, n: nat, keep: T -> bool, table: seq<T>, i: nat, drained: seq<T>)
    requires Draining(before, n, keep, table, i, drained) && i < |table|
    ensures n < |before|
    ensures if keep(table[i]) then Draining(before, n + 1, keep, table, i + 1, drained)
            else Draining(before, n + 1, keep, table[..i] + table[i + 1..], i, drained + [table[i]])
  {
    PartlyStep(before, n, keep);
    MoveElement(table, i, drained);
  }

  lemma DrainEnd<T>(before: seq<T>, n: nat, keep: T -> bool, table: seq<T>, i: nat, drained: seq<T>)
    requires Draining(before, n, keep, table, i, drained) && i >= |table|
    ensures table == Retain(before, keep) && multiset(table) + multiset(drained) == multiset(before)
  {
    PartlyDone(before, n, keep);
  }

  /** Changing or removing an element behind the first leaves the first in front. */
  lemma BehindFirst<T>(s: seq<T>, i: nat, x: T)
    requires 0 < i < |s|
    ensures s[i := x] == [s[0]] + s[1..][i - 1 := x]
    ensures s[..i] + s[i + 1..] == [s[0]] + (s[1..][..i - 1] + s[1..][i..])
  {
  }
}
