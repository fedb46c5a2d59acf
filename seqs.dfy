/** Generic facts about sequences: filtering, counting and distinctness. */
module Seqs {

  /** The elements of `s` that satisfy `keep`, in their original order
      (a Python list comprehension with an `if`). */
  function Filter<T>(s: seq<T>, keep: T -> bool): (r: seq<T>)
    ensures |r| <= |s|
    ensures forall k :: 0 <= k < |r| ==> r[k] in s && keep(r[k])
    ensures forall k :: 0 <= k < |s| && keep(s[k]) ==> s[k] in r
  {
    if s == [] then []
    else (if keep(s[0]) then [s[0]] else []) + Filter(s[1..], keep)
  }

  lemma {:induction false} FilterAppend<T>(a: seq<T>, b: seq<T>, keep: T -> bool)
    ensures Filter(a + b, keep) == Filter(a, keep) + Filter(b, keep)
  {
    if a == [] {
      assert a + b == b;
    } else {
      assert (a + b)[1..] == a[1..] + b;
      FilterAppend(a[1..], b, keep);
    }
  }

  lemma FilterSnoc<T>(s: seq<T>, x: T, keep: T -> bool)
    ensures Filter(s + [x], keep) == Filter(s, keep) + (if keep(x) then [x] else [])
  {
    FilterAppend(s, [x], keep);
    assert [x][1..] == [];
  }

  /** Number of positions of `s` holding `x`. */
  function CountIn<T(==)>(s: seq<T>, x: T): (n: nat)
    ensures n <= |s|
    ensures n == 0 <==> x !in s
  {
    if s == [] then 0
    else (if s[0] == x then 1 else 0) + CountIn(s[1..], x)
  }

  lemma {:induction false} CountInAppend<T>(a: seq<T>, b: seq<T>, x: T)
    ensures CountIn(a + b, x) == CountIn(a, x) + CountIn(b, x)
  {
    if a == [] {
      assert a + b == b;
    } else {
      assert (a + b)[1..] == a[1..] + b;
      CountInAppend(a[1..], b, x);
    }
  }

  /** The set of distinct elements of `s`. */
  function Elements<T>(s: seq<T>): set<T> {
    set x | x in s
  }

  /** A set built from a sequence is never larger than the sequence. */
  lemma {:induction false} ElementsBound<T>(s: seq<T>)
    ensures |Elements(s)| <= |s|
  {
    if s != [] {
      ElementsBound(s[1..]);
      assert Elements(s) == {s[0]} + Elements(s[1..]);
    }
  }

  /** No element of `s` appears twice. */
  predicate NoDuplicates<T(==)>(s: seq<T>) {
    forall i, j :: 0 <= i < j < |s| ==> s[i] != s[j]
  }

  /** Filtering keeps every occurrence of an element it keeps. */
  lemma {:induction false} CountInFilter<T>(s: seq<T>, keep: T -> bool, x: T)
    requires keep(x)
    ensures CountIn(Filter(s, keep), x) == CountIn(s, x)
  {
    if s != [] {
      CountInFilter(s[1..], keep, x);
      CountInAppend(if keep(s[0]) then [s[0]] else [], Filter(s[1..], keep), x);
    }
  }
}
