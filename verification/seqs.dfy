/** Generic facts about sequences used by every partitioner. */
module Seqs {

  /** No element occurs twice. */
  predicate NoDup<T(==)>(s: seq<T>) {
    forall i, j | 0 <= i < j < |s| :: s[i] != s[j]
  }

  /** The concatenation of groups in index order. */
  function Concat<T>(gs: seq<seq<T>>): seq<T> {
    if gs == [] then [] else Concat(gs[..|gs| - 1]) + gs[|gs| - 1]
  }

  /** `s` with every occurrence of `x` removed (PHP's repeated array_search/unset). */
  function RemoveAll<T(==)>(s: seq<T>, x: T): (r: seq<T>)
    ensures x !in r
    ensures forall y | y in s && y != x :: y in r
    ensures forall y | y in r :: y in s
    ensures x !in s ==> r == s
  {
    if s == [] then []
    else if s[0] == x then RemoveAll(s[1..], x)
    else [s[0]] + RemoveAll(s[1..], x)
  }

  /** Index of the first occurrence of `x` in `s`. */
  function IndexOf<T(==)>(s: seq<T>, x: T): (i: nat)
    requires x in s
    ensures i < |s| && s[i] == x && x !in s[..i]
  {
    if s[0] == x then 0 else 1 + IndexOf(s[1..], x)
  }

  lemma ConcatAppend<T>(gs: seq<seq<T>>, g: seq<T>)
    ensures Concat(gs + [g]) == Concat(gs) + g
  {
    assert (gs + [g])[..|gs|] == gs;
  }

  lemma ConcatUpdateLast<T>(gs: seq<seq<T>>, x: T)
    requires |gs| > 0
    ensures Concat(gs[|gs| - 1 := gs[|gs| - 1] + [x]]) == Concat(gs) + [x]
  {
    var gs' := gs[|gs| - 1 := gs[|gs| - 1] + [x]];
    assert gs'[..|gs'| - 1] == gs[..|gs| - 1];
  }

  lemma {:induction false} RemoveAllAppendSame<T>(s: seq<T>, x: T)
    ensures RemoveAll(s + [x], x) == RemoveAll(s, x)
  {
    if s != [] {
      assert (s + [x])[1..] == s[1..] + [x];
      RemoveAllAppendSame(s[1..], x);
    }
  }

  /** Appending to any one group adds exactly that element to the union. */
  lemma {:induction false} ConcatUpdateMultiset<T>(gs: seq<seq<T>>, i: nat, x: T)
    requires i < |gs|
    ensures multiset(Concat(gs[i := gs[i] + [x]])) == multiset(Concat(gs)) + multiset{x}
  {
    var n := |gs| - 1;
    var gs' := gs[i := gs[i] + [x]];
    if i == n {
      ConcatUpdateLast(gs, x);
    } else {
      assert gs'[..n] == gs[..n][i := gs[i] + [x]];
      ConcatUpdateMultiset(gs[..n], i, x);
    }
  }
}
