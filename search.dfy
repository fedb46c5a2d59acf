/** The search page: category resolution, the selection of approved rows,
    `ORDER BY id DESC`, `LIMIT 10 OFFSET (page - 1) * 10`, the page count and
    the occurrence total. */
module Search {
  import opened Wrappers
  import opened Seqs
  import opened Text
  import opened Records
  import opened SqlLike
  import opened Categories

  /** What the `WHERE` clause selects besides `status = 'approved'`. */
  datatype Selection = ByCategory(key: string) | ByText(query: string)

  /** `title LIKE p OR title_en LIKE p OR content LIKE p OR content_en LIKE p
      OR full_content LIKE p` with `p = '%' + query + '%'`; a NULL
      `full_content` never matches, and `full_content_en` is not searched. */
  predicate TextMatches(query: string, r: TextRecord) {
    var p := ContainsPattern(query);
    Like(p, r.title) || Like(p, r.titleEn) || Like(p, r.content) || Like(p, r.contentEn)
    || (r.fullContent.Some? && Like(p, r.fullContent.value))
  }

  predicate Selects(sel: Selection, r: TextRecord) {
    r.status == Approved &&
    match sel
    case ByCategory(key) => r.category == key
    case ByText(query) => TextMatches(query, r)
  }

  /** The rows the `WHERE` clause keeps, in table order. */
  function Matching(t: seq<TextRecord>, sel: Selection): (m: seq<TextRecord>)
    ensures forall k :: 0 <= k < |m| ==> m[k] in t && Selects(sel, m[k])
    ensures forall k :: 0 <= k < |t| && Selects(sel, t[k]) ==> t[k] in m
  {
    Filter(t, r => Selects(sel, r))
  }

  predicate IdsDescending(s: seq<TextRecord>) {
    forall i, j :: 0 <= i < j < |s| ==> s[i].id >= s[j].id
  }

  predicate IdsStrictlyDescending(s: seq<TextRecord>) {
    forall i, j :: 0 <= i < j < |s| ==> s[i].id > s[j].id
  }

  function InsertById(x: TextRecord, s: seq<TextRecord>): (r: seq<TextRecord>)
    ensures |r| == |s| + 1 && (r[0] == x || (s != [] && r[0] == s[0]))
  {
    if s == [] || x.id >= s[0].id then [x] + s
    else [s[0]] + InsertById(x, s[1..])
  }

  /** Insertion adds `x` and loses nothing. */
  lemma {:induction false} InsertByIdPerm(x: TextRecord, s: seq<TextRecord>)
    ensures multiset(InsertById(x, s)) == multiset(s) + multiset{x}
  {
    if s != [] && x.id < s[0].id {
      InsertByIdPerm(x, s[1..]);
      assert s == [s[0]] + s[1..];
    }
  }

  /** Insertion into a list by descending id keeps it so. */
  lemma {:induction false} InsertByIdSorted(x: TextRecord, s: seq<TextRecord>)
    requires IdsDescending(s)
    ensures IdsDescending(InsertById(x, s))
  {
    if s != [] && x.id < s[0].id {
      var rest := InsertById(x, s[1..]);
      InsertByIdSorted(x, s[1..]);
      assert s[0].id >= rest[0].id;
    } else if s != [] {
      assert forall k :: 0 <= k < |s| ==> x.id >= s[k].id;
    }
  }

  /** `ORDER BY id DESC`: a permutation of the rows with ids descending. */
  function SortByIdDesc(s: seq<TextRecord>): (r: seq<TextRecord>)
    ensures IdsDescending(r)
    ensures multiset(r) == multiset(s)
  {
    if s == [] then []
    else
      var rest := SortByIdDesc(s[1..]);
      SortStep(s, rest);
      InsertById(s[0], rest)
  }

  /** Inserting the head into the sorted tail sorts the whole list. */
  lemma SortStep(s: seq<TextRecord>, rest: seq<TextRecord>)
    requires s != [] && IdsDescending(rest) && multiset(rest) == multiset(s[1..])
    ensures IdsDescending(InsertById(s[0], rest))
    ensures multiset(InsertById(s[0], rest)) == multiset(s)
  {
    InsertByIdSorted(s[0], rest);
    InsertByIdPerm(s[0], rest);
    assert s == [s[0]] + s[1..];
  }

  lemma {:induction false} InsertStrict(x: TextRecord, s: seq<TextRecord>)
    requires IdsStrictlyDescending(s)
    requires forall k :: 0 <= k < |s| ==> s[k].id != x.id
    ensures IdsStrictlyDescending(InsertById(x, s))
    decreases |s|
  {
    if s != [] && x.id < s[0].id {
      InsertStrict(x, s[1..]);
      var rest := InsertById(x, s[1..]);
      assert rest[0].id < s[0].id;
    }
  }

  /** With unique ids (the primary key) the order is strictly descending. */
  lemma {:induction false} SortStrict(s: seq<TextRecord>)
    requires IdsUnique(s)
    ensures IdsStrictlyDescending(SortByIdDesc(s))
  {
    if s != [] {
      assert IdsUnique(s[1..]);
      SortStrict(s[1..]);
      var sorted := SortByIdDesc(s[1..]);
      forall k | 0 <= k < |sorted|
        ensures sorted[k].id != s[0].id
      {
        assert sorted[k] in multiset(s[1..]);
      }
      InsertStrict(s[0], sorted);
    }
  }

  const ResultsPerPage: nat := 10

  /** `(page - 1) * 10`; a negative offset reads as 0. */
  function Offset(page: int): nat {
    if page < 1 then 0 else (page - 1) * 10
  }

  /** `LIMIT 10 OFFSET Offset(page)` applied to the ordered rows. */
  function PageOf<T>(rows: seq<T>, page: int): (p: seq<T>)
    ensures |p| <= ResultsPerPage
    ensures Offset(page) >= |rows| ==> p == []
    ensures Offset(page) < |rows| ==> |p| == if |rows| - Offset(page) < 10 then |rows| - Offset(page) else 10
    ensures forall k :: 0 <= k < |p| ==> Offset(page) + k < |rows| && p[k] == rows[Offset(page) + k]
  {
    var lo := if Offset(page) < |rows| then Offset(page) else |rows|;
    var hi := if lo + 10 < |rows| then lo + 10 else |rows|;
    rows[lo..hi]
  }

  /** `(total_results + results_per_page - 1) // results_per_page`. */
  function PageCount(n: nat): nat {
    (n + ResultsPerPage - 1) / ResultsPerPage
  }

  /** The page count is the ceiling of n / 10, and 0 for no results. */
  lemma PageCountIsCeiling(n: nat)
    ensures PageCount(n) == 0 <==> n == 0
    ensures PageCount(n) * ResultsPerPage >= n
    ensures n > 0 ==> (PageCount(n) - 1) * ResultsPerPage < n
  {
  }

  /** Every result appears on exactly the page its index says, and that page
      is within the page count; pages beyond the count are empty. */
  lemma RowOnItsPage<T>(rows: seq<T>, i: nat)
    requires i < |rows|
    ensures 1 <= i / 10 + 1 <= PageCount(|rows|)
    ensures i % 10 < |PageOf(rows, i / 10 + 1)|
    ensures PageOf(rows, i / 10 + 1)[i % 10] == rows[i]
  {
    assert Offset(i / 10 + 1) == i / 10 * 10;
  }

  lemma PagesBeyondCountEmpty<T>(rows: seq<T>, page: int)
    requires page > PageCount(|rows|)
    ensures PageOf(rows, page) == []
  {
    PageCountIsCeiling(|rows|);
    assert Offset(page) == (page - 1) * 10;
  }

  /** One entry of `results`: the columns the page displays. */
  datatype Hit = Hit(
    id: int, title: string, titleEn: string, content: string,
    category: string, wordCount: Option<int>, uniqueWords: Option<int>)

  function HitOf(r: TextRecord): Hit {
    Hit(r.id, r.title, r.titleEn, r.content, r.category, r.wordCount, r.uniqueWords)
  }

  function Hits(rows: seq<TextRecord>): (h: seq<Hit>)
    ensures |h| == |rows|
    ensures forall k :: 0 <= k < |rows| ==> h[k].id == rows[k].id && h[k] == HitOf(rows[k])
  {
    seq(|rows|, k requires 0 <= k < |rows| => HitOf(rows[k]))
  }

  /** The six fields `count_search_occurrences` reads, a NULL full text
      read as "". */
  function OccurrenceFields(r: TextRecord): seq<string> {
    [r.title, r.titleEn, r.content, r.contentEn, r.fullContent.GetOr(""), r.fullContentEn.GetOr("")]
  }

  /** The six fields joined by single spaces. */
  function Combined(r: TextRecord): string {
    Join(OccurrenceFields(r), ' ')
  }

  /** Non-overlapping occurrences of the lower-cased query in the
      lower-cased combined text of one row. */
  function RecordOccurrences(r: TextRecord, query: string): nat {
    CountOccurrences(Lower(Combined(r)), Lower(query))
  }

  function TotalOccurrences(rows: seq<TextRecord>, query: string): nat {
    if rows == [] then 0
    else TotalOccurrences(rows[..|rows| - 1], query) + RecordOccurrences(rows[|rows| - 1], query)
  }

  /** `count_search_occurrences`: the loop over the approved rows. */
  method CountSearchOccurrences(table: seq<TextRecord>, query: string) returns (total: nat)
    ensures total == TotalOccurrences(ApprovedRows(table), query)
  {
    var texts := ApprovedRows(table);
    total := 0;
    for i := 0 to |texts|
      invariant total == TotalOccurrences(texts[..i], query)
    {
      assert texts[..i + 1][..i] == texts[..i];
      total := total + RecordOccurrences(texts[i], query);
    }
    assert texts[..|texts|] == texts;
  }

  lemma {:induction false} TotalOccurrencesAppend(a: seq<TextRecord>, b: seq<TextRecord>, query: string)
    ensures TotalOccurrences(a + b, query) == TotalOccurrences(a, query) + TotalOccurrences(b, query)
    decreases |b|
  {
    if b == [] {
      assert a + b == a;
    } else {
      var b' := b[..|b| - 1];
      assert (a + b)[..|a + b| - 1] == a + b';
      TotalOccurrencesAppend(a, b', query);
    }
  }

  /** The row's combined text contains the query, ignoring ASCII case. */
  predicate Mentions(r: TextRecord, query: string) {
    Contains(Lower(Combined(r)), Lower(query))
  }

  /** For a non-empty query the total is positive exactly when some row's
      combined text contains the query, ignoring ASCII case. */
  lemma TotalOccurrencesPositiveIff(rows: seq<TextRecord>, query: string)
    requires query != []
    ensures TotalOccurrences(rows, query) > 0 <==> exists k :: 0 <= k < |rows| && Mentions(rows[k], query)
  {
    TotalPositiveIff(rows, query);
    forall k | 0 <= k < |rows|
      ensures RecordOccurrences(rows[k], query) > 0 <==> Mentions(rows[k], query)
    {
      CountPositiveIffContains(Lower(Combined(rows[k])), Lower(query));
    }
  }

  /** The total is positive exactly when some row's count is. */
  lemma TotalPositiveIff(rows: seq<TextRecord>, query: string)
    ensures TotalOccurrences(rows, query) > 0 <==> exists k :: 0 <= k < |rows| && RecordOccurrences(rows[k], query) > 0
  {
    if TotalOccurrences(rows, query) > 0 {
      var k := PositiveRow(rows, query);
    }
    forall k | 0 <= k < |rows| && RecordOccurrences(rows[k], query) > 0
      ensures TotalOccurrences(rows, query) > 0
    {
      TotalPositiveOf(rows, query, k);
    }
  }

  /** A row with a positive count makes the total positive. */
  lemma {:induction false} TotalPositiveOf(rows: seq<TextRecord>, query: string, k: nat)
    requires k < |rows| && RecordOccurrences(rows[k], query) > 0
    ensures TotalOccurrences(rows, query) > 0
  {
    if k < |rows| - 1 {
      var init := rows[..|rows| - 1];
      assert init[k] == rows[k];
      TotalPositiveOf(init, query, k);
    }
  }

  /** A positive total has a row with a positive count. */
  lemma {:induction false} PositiveRow(rows: seq<TextRecord>, query: string) returns (k: nat)
    requires TotalOccurrences(rows, query) > 0
    ensures k < |rows| && RecordOccurrences(rows[k], query) > 0
  {
    var init := rows[..|rows| - 1];
    if RecordOccurrences(rows[|rows| - 1], query) > 0 {
      k := |rows| - 1;
    } else {
      k := PositiveRow(init, query);
      assert init[k] == rows[k];
    }
  }

  /** The result of one search request. */
  datatype SearchResult = SearchResult(
    results: seq<Hit>, totalResults: nat, totalOccurrences: nat,
    isCategorySearch: bool, totalPages: nat)

  /** The selection a non-empty query makes: a category when the whole
      lower-cased query names one, otherwise a text match. */
  function SelectionFor(query: string): Selection {
    match FirstMatch(CategoryMap, Lower(query))
    case Some(key) => ByCategory(key)
    case None => ByText(query)
  }

  /** All matching rows in the order the pages show them. */
  function SearchRows(table: seq<TextRecord>, query: string): seq<TextRecord> {
    SortByIdDesc(Matching(table, SelectionFor(query)))
  }

  /** What `search` renders for a query and page. */
  function SearchOutcome(table: seq<TextRecord>, query: string, page: int): SearchResult {
    if query == [] then SearchResult([], 0, 0, false, 0)
    else
      var sel := SelectionFor(query);
      var n := |Matching(table, sel)|;
      SearchResult(
        Hits(PageOf(SearchRows(table, query), page)),
        n,
        if sel.ByText? then TotalOccurrences(ApprovedRows(table), query) else 0,
        sel.ByCategory?,
        PageCount(n))
  }

  /** The search route, from the derived query and the page number. */
  method Search(table: seq<TextRecord>, query: string, page: int) returns (r: SearchResult)
    ensures r == SearchOutcome(table, query, page)
    ensures query == [] ==> r.results == [] && r.totalResults == 0 && r.totalPages == 0
  {
    if query == [] {
      return SearchResult([], 0, 0, false, 0);
    }
    var key := ResolveCategory(query);
    var sel := if key.Some? then ByCategory(key.value) else ByText(query);
    var matching := Matching(table, sel);
    var rows := PageOf(SortByIdDesc(matching), page);
    var occurrences := 0;
    if key.None? {
      occurrences := CountSearchOccurrences(table, query);
    }
    var results := CollectHits(rows);
    r := SearchResult(results, |matching|, occurrences, key.Some?, PageCount(|matching|));
  }

  /** The `for row in rows: results.append({...})` loop over the fetched page. */
  method CollectHits(rows: seq<TextRecord>) returns (results: seq<Hit>)
    ensures results == Hits(rows)
  {
    results := [];
    for i := 0 to |rows|
      invariant results == Hits(rows[..i])
    {
      assert Hits(rows[..i + 1]) == Hits(rows[..i]) + [HitOf(rows[i])];
      results := results + [HitOf(rows[i])];
    }
    assert rows[..|rows|] == rows;
  }

  /** The full result list holds exactly the approved rows of the table that
      the selection picks: the category key when the query names a category,
      the five-field text match otherwise. */
  lemma SearchRowsExact(table: seq<TextRecord>, query: string, x: TextRecord)
    ensures x in SearchRows(table, query) <==>
      x in table && x.status == Approved &&
      match FirstMatch(CategoryMap, Lower(query))
      case Some(key) => x.category == key
      case None => TextMatches(query, x)
  {
    var m := Matching(table, SelectionFor(query));
    assert x in SearchRows(table, query) <==> x in multiset(m);
    if x in table && Selects(SelectionFor(query), x) {
      var k :| 0 <= k < |table| && table[k] == x;
    }
  }

  /** `total_results`, the page count and the occurrence total do not depend
      on the page; the rows shown are at most ten, in descending id order,
      starting at index `(page - 1) * 10` of the full list. */
  lemma SearchPage(table: seq<TextRecord>, query: string, page: int, other: int)
    requires query != []
    requires IdsUnique(table)
    ensures var r := SearchOutcome(table, query, page);
      var all := SearchRows(table, query);
      r.totalResults == |all| &&
      r.totalPages == PageCount(|all|) &&
      |r.results| <= ResultsPerPage &&
      (forall k :: 0 <= k < |r.results| ==>
        Offset(page) + k < |all| && r.results[k] == HitOf(all[Offset(page) + k])) &&
      (forall i, j :: 0 <= i < j < |r.results| ==> r.results[i].id > r.results[j].id)
    ensures SearchOutcome(table, query, other).totalResults == SearchOutcome(table, query, page).totalResults
    ensures SearchOutcome(table, query, other).totalOccurrences == SearchOutcome(table, query, page).totalOccurrences
  {
    var m := Matching(table, SelectionFor(query));
    var all := SearchRows(table, query);
    assert |all| == |multiset(all)| == |multiset(m)| == |m|;
    FilterKeepsIdsUnique(table, r => Selects(SelectionFor(query), r));
    SortStrict(m);
  }

  /** Occurrences are only counted for text searches. */
  lemma CategorySearchCountsNothing(table: seq<TextRecord>, query: string, page: int)
    requires query != []
    ensures SearchOutcome(table, query, page).isCategorySearch <==> Lower(query) in CategoryNames
    ensures SearchOutcome(table, query, page).isCategorySearch ==> SearchOutcome(table, query, page).totalOccurrences == 0
  {
    CategorySearchIffName(Lower(query));
  }

  /** A row that is not approved changes nothing a search shows. */
  lemma UnapprovedInvisible(table: seq<TextRecord>, x: TextRecord, query: string, page: int)
    requires x.status != Approved
    ensures SearchOutcome(table + [x], query, page) == SearchOutcome(table, query, page)
  {
    var sel := SelectionFor(query);
    FilterAppend(table, [x], r => Selects(sel, r));
    assert Matching(table + [x], sel) == Matching(table, sel);
    FilterAppend(table, [x], IsApproved);
    assert ApprovedRows(table + [x]) == ApprovedRows(table);
  }

  /** A piece containing `sub` after lower-casing keeps it inside the
      joined text. */
  lemma {:induction false} ContainsInJoin(ws: seq<string>, sep: char, k: nat, sub: string)
    requires k < |ws| && Contains(Lower(ws[k]), sub)
    ensures Contains(Lower(Join(ws, sep)), sub)
  {
    if |ws| > 1 {
      LowerAppend(ws[0] + [sep], Join(ws[1..], sep));
      if k == 0 {
        LowerAppend(ws[0], [sep]);
        ContainsAppendRight(Lower(ws[0]), Lower([sep]), sub);
        ContainsAppendRight(Lower(ws[0] + [sep]), Lower(Join(ws[1..], sep)), sub);
      } else {
        ContainsInJoin(ws[1..], sep, k - 1, sub);
        ContainsAppendLeft(Lower(ws[0] + [sep]), Lower(Join(ws[1..], sep)), sub);
      }
    }
  }

  /** For a wildcard-free query, a row that a text search selects contributes
      at least one occurrence. */
  lemma MatchHasOccurrence(r: TextRecord, query: string)
    requires query != [] && NoWildcards(query)
    requires TextMatches(query, r)
    ensures RecordOccurrences(r, query) > 0
  {
    var p := ContainsPattern(query);
    var fs := OccurrenceFields(r);
    var k: nat := if Like(p, r.title) then 0 else if Like(p, r.titleEn) then 1
      else if Like(p, r.content) then 2 else if Like(p, r.contentEn) then 3 else 4;
    assert Like(p, fs[k]);
    ContainsPatternMeansSubstring(query, fs[k]);
    ContainsInJoin(fs, ' ', k, Lower(query));
    CountPositiveIffContains(Lower(Combined(r)), Lower(query));
  }
}
