/** Python's `collections.Counter` with `most_common(n)`, the adjacent-pair
    stream fed to it, and the `d[k] = d.get(k, 0) + 1` dictionary tally. */
module Counting {
  import opened Seqs

  // ------------------------------------------------------- first occurrence

  /** Position of the first `x` in `s`, or `|s|` when there is none. */
  function FirstSeen<T(==)>(s: seq<T>, x: T): (i: nat)
    ensures i <= |s|
    ensures i < |s| <==> x in s
    ensures i < |s| ==> s[i] == x && forall j :: 0 <= j < i ==> s[j] != x
  {
    if s == [] then 0
    else if s[0] == x then 0
    else 1 + FirstSeen(s[1..], x)
  }

  lemma {:induction false} FirstSeenPrefix<T>(s: seq<T>, m: nat, x: T)
    requires m <= |s| && x in s[..m]
    ensures FirstSeen(s, x) == FirstSeen(s[..m], x) < m
  {
    var i := FirstSeen(s[..m], x);
    assert s[i] == x;
    forall j | 0 <= j < i
      ensures s[j] != x
    {
      assert s[j] == s[..m][j];
    }
    FirstSeenUnique(s, x, i);
  }

  lemma {:induction false} FirstSeenUnique<T>(s: seq<T>, x: T, i: nat)
    requires i < |s| && s[i] == x && forall j :: 0 <= j < i ==> s[j] != x
    ensures FirstSeen(s, x) == i
  {
  }

  /** The distinct elements of `s` in order of first occurrence: the key
      order of a `Counter` built from `s`. */
  function Distinct<T(==)>(s: seq<T>): (d: seq<T>)
    ensures NoDuplicates(d)
    ensures forall k :: 0 <= k < |d| ==> d[k] in s
    ensures forall k :: 0 <= k < |s| ==> s[k] in d
  {
    if s == [] then []
    else
      var p, x := s[..|s| - 1], s[|s| - 1];
      var d := Distinct(p);
      assert forall k :: 0 <= k < |p| ==> p[k] == s[k];
      if x in d then d else d + [x]
  }

  /** Keys come in first-occurrence order. */
  lemma {:induction false} DistinctInFirstSeenOrder<T>(s: seq<T>)
    ensures forall i, j :: 0 <= i < j < |Distinct(s)| ==>
      FirstSeen(s, Distinct(s)[i]) < FirstSeen(s, Distinct(s)[j])
  {
    if s != [] {
      var m := |s| - 1;
      var p, x := s[..m], s[m];
      assert s[..m] == p;
      DistinctInFirstSeenOrder(p);
      var dp := Distinct(p);
      var d := Distinct(s);
      forall k | 0 <= k < |dp|
        ensures FirstSeen(s, dp[k]) == FirstSeen(p, dp[k]) < m
      {
        FirstSeenPrefix(s, m, dp[k]);
      }
      if x !in dp {
        assert x !in p;
        FirstSeenUnique(s, x, m);
        assert d == dp + [x];
      }
    }
  }

  // ------------------------------------------------------------- Counter

  /** `Counter(s).items()`: each distinct element with its number of
      occurrences, in first-occurrence order. */
  function CounterOf<T(==)>(s: seq<T>): (c: seq<(T, nat)>)
    ensures |c| == |Distinct(s)|
    ensures forall k :: 0 <= k < |c| ==> c[k].0 == Distinct(s)[k] && c[k].1 == CountIn(s, c[k].0)
  {
    var d := Distinct(s);
    seq(|d|, k requires 0 <= k < |d| => (d[k], CountIn(s, d[k])))
  }

  /** Counts never increase along `r`. */
  predicate ByCountDesc<T>(r: seq<(T, nat)>) {
    forall i, j :: 0 <= i < j < |r| ==> r[i].1 >= r[j].1
  }

  /** Insert `x` before the first entry whose count is not larger than its
      own: placed ahead of the entries it ties with, so earlier entries stay
      ahead. */
  function InsertByCount<T>(x: (T, nat), l: seq<(T, nat)>): (r: seq<(T, nat)>)
    ensures |r| == |l| + 1 && (r[0] == x || (l != [] && r[0] == l[0]))
  {
    if l == [] then [x]
    else if x.1 >= l[0].1 then [x] + l
    else [l[0]] + InsertByCount(x, l[1..])
  }

  /** Insertion adds `x` and loses nothing. */
  lemma {:induction false} InsertByCountPerm<T>(x: (T, nat), l: seq<(T, nat)>)
    ensures multiset(InsertByCount(x, l)) == multiset(l) + multiset{x}
  {
    if l != [] && x.1 < l[0].1 {
      InsertByCountPerm(x, l[1..]);
      assert l == [l[0]] + l[1..];
    }
  }

  /** Insertion into a list by descending count keeps it so. */
  lemma {:induction false} InsertByCountSorted<T>(x: (T, nat), l: seq<(T, nat)>)
    requires ByCountDesc(l)
    ensures ByCountDesc(InsertByCount(x, l))
  {
    if l != [] && x.1 < l[0].1 {
      var t := InsertByCount(x, l[1..]);
      InsertByCountSorted(x, l[1..]);
      assert l[0].1 >= t[0].1;
    }
  }

  /** `sorted(c, key=count, reverse=True)`: a stable sort by descending
      count (an insertion sort). */
  function SortByCount<T>(c: seq<(T, nat)>): (r: seq<(T, nat)>)
    ensures ByCountDesc(r)
    ensures multiset(r) == multiset(c)
  {
    if c == [] then []
    else
      var rest := SortByCount(c[1..]);
      InsertByCountSorted(c[0], rest);
      InsertByCountPerm(c[0], rest);
      assert c == [c[0]] + c[1..];
      InsertByCount(c[0], rest)
  }

  /** `Counter.most_common(n)`, which is `heapq.nlargest(n, items, key=count)`
      and so equal to the stable descending sort cut to `n` entries. */
  function MostCommon<T>(c: seq<(T, nat)>, n: nat): (r: seq<(T, nat)>)
    ensures |r| <= n
  {
    var sorted := SortByCount(c);
    if |sorted| <= n then sorted else sorted[..n]
  }

  /** Entry `a` comes before entry `b` in `most_common`: a larger count, or
      the same count and an earlier key. */
  predicate Before<T>(a: (T, nat), b: (T, nat), rank: T -> int) {
    a.1 > b.1 || (a.1 == b.1 && rank(a.0) < rank(b.0))
  }

  predicate RankIncreasing<T>(c: seq<(T, nat)>, rank: T -> int) {
    forall i, j :: 0 <= i < j < |c| ==> rank(c[i].0) < rank(c[j].0)
  }

  predicate OrderedBy<T>(r: seq<(T, nat)>, rank: T -> int) {
    forall i, j :: 0 <= i < j < |r| ==> Before(r[i], r[j], rank)
  }

  lemma {:induction false} InsertByCountOrdered<T>(x: (T, nat), l: seq<(T, nat)>, rank: T -> int)
    requires ByCountDesc(l) && OrderedBy(l, rank)
    requires forall k :: 0 <= k < |l| ==> rank(x.0) < rank(l[k].0)
    ensures OrderedBy(InsertByCount(x, l), rank)
  {
    if l != [] && x.1 < l[0].1 {
      var t := InsertByCount(x, l[1..]);
      InsertByCountOrdered(x, l[1..], rank);
      assert Before(l[0], t[0], rank);
      forall k | 0 < k < |t|
        ensures Before(l[0], t[k], rank)
      {
        assert Before(t[0], t[k], rank);
      }
    }
  }

  /** The stable sort: when the input entries come in increasing `rank`, the
      output is ordered by descending count and, among equal counts, by
      increasing `rank`. */
  lemma {:induction false} SortByCountOrdered<T>(c: seq<(T, nat)>, rank: T -> int)
    requires RankIncreasing(c, rank)
    ensures OrderedBy(SortByCount(c), rank)
  {
    if c != [] {
      var rest := SortByCount(c[1..]);
      SortByCountOrdered(c[1..], rank);
      forall k | 0 <= k < |rest|
        ensures rank(c[0].0) < rank(rest[k].0)
      {
        assert rest[k] in multiset(c[1..]);
        var j :| 0 <= j < |c[1..]| && c[1..][j] == rest[k];
        assert c[j + 1] == rest[k];
      }
      InsertByCountOrdered(c[0], rest, rank);
    }
  }

  /** The order in which a `Counter` built from `s` lists its keys. */
  function FirstSeenRank<T(==)>(s: seq<T>): T -> int {
    x => FirstSeen(s, x)
  }

  /** The Counter's entries, sorted: a permutation of its items, ordered by
      descending count and, among equal counts, by first occurrence. */
  lemma SortedCounter<T>(s: seq<T>)
    ensures |SortByCount(CounterOf(s))| == |CounterOf(s)|
    ensures forall k :: 0 <= k < |SortByCount(CounterOf(s))| ==> SortByCount(CounterOf(s))[k] in CounterOf(s)
    ensures OrderedBy(SortByCount(CounterOf(s)), FirstSeenRank(s))
  {
    var c := CounterOf(s);
    var sorted := SortByCount(c);
    DistinctInFirstSeenOrder(s);
    assert RankIncreasing(c, FirstSeenRank(s));
    SortByCountOrdered(c, FirstSeenRank(s));
    assert |multiset(sorted)| == |multiset(c)|;
    forall k | 0 <= k < |sorted|
      ensures sorted[k] in c
    {
      assert sorted[k] in multiset(c);
    }
  }

  /** The frequency table `Counter(s).most_common(n)` holds `min(n, number
      of distinct elements)` entries, each a distinct element of `s` with its
      exact number of occurrences, and they are ordered by descending count
      with ties in first-occurrence order. */
  lemma MostCommonOfCounter<T>(s: seq<T>, n: nat)
    ensures var r := MostCommon(CounterOf(s), n);
      && |r| == (if |Distinct(s)| <= n then |Distinct(s)| else n)
      && (forall k :: 0 <= k < |r| ==> r[k].0 in s && r[k].1 == CountIn(s, r[k].0))
      && (forall i, j :: 0 <= i < j < |r| ==> r[i].0 != r[j].0)
      && (forall i, j :: 0 <= i < j < |r| ==> Before(r[i], r[j], FirstSeenRank(s)))
  {
    SortedCounter(s);
    var c := CounterOf(s);
    var sorted := SortByCount(c);
    var r := MostCommon(c, n);
    assert r == sorted[..|r|];
    forall k | 0 <= k < |r|
      ensures r[k].0 in s && r[k].1 == CountIn(s, r[k].0)
    {
      assert r[k] == sorted[k];
      var j :| 0 <= j < |c| && c[j] == sorted[k];
    }
    forall i, j | 0 <= i < j < |r|
      ensures r[i].0 != r[j].0 && Before(r[i], r[j], FirstSeenRank(s))
    {
      assert r[i] == sorted[i] && r[j] == sorted[j];
      assert Before(sorted[i], sorted[j], FirstSeenRank(s));
    }
  }

  /** `x` is one of the keys listed in the table `r`. */
  predicate Lists<T(==)>(r: seq<(T, nat)>, x: T) {
    exists k :: 0 <= k < |r| && r[k].0 == x
  }

  /** Nothing left out of `most_common(n)` beats an entry in it: an element
      of `s` that the table omits is only omitted from a full table, and it
      comes after every entry (never more frequent than any, and when as
      frequent, first seen later). */
  lemma MostCommonComplete<T>(s: seq<T>, n: nat, i: nat)
    requires i < |s| && !Lists(MostCommon(CounterOf(s), n), s[i])
    ensures |MostCommon(CounterOf(s), n)| == n
    ensures forall k :: 0 <= k < n ==>
      Before(MostCommon(CounterOf(s), n)[k], (s[i], CountIn(s, s[i])), FirstSeenRank(s))
  {
    var c := CounterOf(s);
    var p := SortedPosition(s, i);
    var sorted := SortByCount(c);
    var r := MostCommon(c, n);
    ListedInPrefix(sorted, |r|, p);
    assert r == sorted[..|r|];
    assert |r| <= p;
    assert r == sorted[..n];
    forall k | 0 <= k < n
      ensures Before(r[k], sorted[p], FirstSeenRank(s))
    {
      assert r[k] == sorted[k];
    }
  }

  lemma ListedInPrefix<T>(t: seq<(T, nat)>, m: nat, p: nat)
    requires m <= |t| && p < |t|
    ensures p < m ==> Lists(t[..m], t[p].0)
  {
    if p < m {
      assert t[..m][p] == t[p];
    }
  }

  /** Where the entry of `s[i]` lands in the sorted Counter. */
  lemma SortedPosition<T>(s: seq<T>, i: nat) returns (p: nat)
    requires i < |s|
    ensures p < |SortByCount(CounterOf(s))|
    ensures SortByCount(CounterOf(s))[p] == (s[i], CountIn(s, s[i]))
    ensures OrderedBy(SortByCount(CounterOf(s)), FirstSeenRank(s))
  {
    SortedCounter(s);
    var c := CounterOf(s);
    var sorted := SortByCount(c);
    var d := Distinct(s);
    assert s[i] in d;
    var q :| 0 <= q < |d| && d[q] == s[i];
    assert c[q] == (s[i], CountIn(s, s[i]));
    assert c[q] in multiset(sorted);
    p :| 0 <= p < |sorted| && sorted[p] == c[q];
  }

  // ------------------------------------------------------- adjacent pairs

  /** `zip(ws[:-1], ws[1:])`: every pair of neighbouring tokens. */
  function Bigrams<T>(ws: seq<T>): (ps: seq<(T, T)>)
    ensures |ps| == if |ws| <= 1 then 0 else |ws| - 1
    ensures forall i :: 0 <= i < |ps| ==> ps[i] == (ws[i], ws[i + 1])
  {
    if |ws| <= 1 then [] else [(ws[0], ws[1])] + Bigrams(ws[1..])
  }

  /** Number of positions `i` with `ws[i] == a` and `ws[i + 1] == b`. */
  function AdjacentCount<T(==)>(ws: seq<T>, a: T, b: T): nat {
    if |ws| < 2 then 0
    else (if ws[0] == a && ws[1] == b then 1 else 0) + AdjacentCount(ws[1..], a, b)
  }

  /** Counting a pair in the bigram stream counts its adjacent occurrences. */
  lemma {:induction false} BigramCount<T>(ws: seq<T>, a: T, b: T)
    ensures CountIn(Bigrams(ws), (a, b)) == AdjacentCount(ws, a, b)
  {
    if |ws| >= 2 {
      BigramCount(ws[1..], a, b);
    }
  }

  // ---------------------------------------------------------- dict tally

  /** `m[x] = m.get(x, 0) + 1`. */
  function Bump<T>(m: map<T, nat>, x: T): map<T, nat> {
    m[x := (if x in m then m[x] else 0) + 1]
  }

  /** The dictionary left by bumping each element of `s` in turn, starting
      from an empty one. */
  function Tally<T>(s: seq<T>): map<T, nat> {
    if s == [] then map[] else Bump(Tally(s[..|s| - 1]), s[|s| - 1])
  }

  /** The tally holds exactly the elements of `s`, each with its number of
      occurrences. */
  lemma {:induction false} TallyCounts<T>(s: seq<T>)
    ensures forall x :: x in Tally(s) <==> x in s
    ensures forall x :: x in Tally(s) ==> Tally(s)[x] == CountIn(s, x)
  {
    if s != [] {
      var p, y := s[..|s| - 1], s[|s| - 1];
      TallyCounts(p);
      assert s == p + [y];
      forall x
        ensures CountIn(s, x) == CountIn(p, x) + (if x == y then 1 else 0)
      {
        CountInAppend(p, [y], x);
      }
    }
  }

  /** Bumping one more element extends the tally by one. */
  lemma TallySnoc<T>(s: seq<T>, x: T)
    ensures Tally(s + [x]) == Bump(Tally(s), x)
  {
    assert (s + [x])[..|s|] == s;
  }
}
