/** SQL `LIKE` as SQLite evaluates it: `%` matches any run of characters,
    `_` any one character, every other character itself up to ASCII case;
    there is no escape character. */
module SqlLike {
  import opened Text

  predicate Like(pattern: string, t: string)
    decreases |pattern| + |t|
  {
    if pattern == [] then t == []
    else if pattern[0] == '%' then Like(pattern[1..], t) || (t != [] && Like(pattern, t[1..]))
    else
      t != [] && (pattern[0] == '_' || LowerChar(pattern[0]) == LowerChar(t[0]))
      && Like(pattern[1..], t[1..])
  }

  predicate NoWildcards(q: string) {
    forall i :: 0 <= i < |q| ==> q[i] != '%' && q[i] != '_'
  }

  /** The pattern `f"%{query}%"` of the search. */
  function ContainsPattern(query: string): string {
    "%" + query + "%"
  }

  lemma {:induction false} PercentMatchesAll(t: string)
    ensures Like("%", t)
    decreases |t|
  {
    if t != [] {
      PercentMatchesAll(t[1..]);
    }
  }

  /** `q%` matches exactly the texts that start with `q`, ignoring ASCII
      case, when `q` has no wildcard. */
  lemma {:induction false} PrefixPattern(q: string, t: string)
    requires NoWildcards(q)
    ensures Like(q + "%", t) <==> IsPrefix(Lower(q), Lower(t))
    decreases |q|
  {
    if q == [] {
      assert q + "%" == "%";
      PercentMatchesAll(t);
    } else {
      var p := q + "%";
      assert p[0] == q[0] && p[1..] == q[1..] + "%";
      if t != [] {
        PrefixPattern(q[1..], t[1..]);
        assert Lower(q)[1..] == Lower(q[1..]);
        assert Lower(t)[1..] == Lower(t[1..]);
        assert IsPrefix(Lower(q), Lower(t)) <==>
          Lower(q)[0] == Lower(t)[0] && IsPrefix(Lower(q)[1..], Lower(t)[1..]);
      }
    }
  }

  /** For a query without wildcards, `LIKE '%query%'` is case-insensitive
      substring containment. */
  lemma {:induction false} ContainsPatternMeansSubstring(q: string, t: string)
    requires NoWildcards(q)
    ensures Like(ContainsPattern(q), t) <==> Contains(Lower(t), Lower(q))
    decreases |t|
  {
    var p := ContainsPattern(q);
    assert p[0] == '%' && p[1..] == q + "%";
    PrefixPattern(q, t);
    if t != [] {
      ContainsPatternMeansSubstring(q, t[1..]);
      assert Lower(t)[1..] == Lower(t[1..]);
    }
  }
}
