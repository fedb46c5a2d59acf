/** The statistics `init_db.py` computes for the seed corpus: whitespace
    word counts, unique-word sets, windowed word pairs and the aggregation
    loop over the sample texts. */
module SeedCorpus {
  import opened Seqs
  import opened Text
  import opened Counting
  import opened Tokenizer

  // ------------------------------------------------------ word counting

  /** `count_words`: `len(text.split())`. */
  function CountWords(text: string): nat {
    |Split(text)|
  }

  /** Joining two texts with a space adds their word counts. */
  lemma CountWordsAround(a: string, b: string)
    ensures CountWords(a + " " + b) == CountWords(a) + CountWords(b)
  {
    SplitAround(a, ' ', b);
  }

  /** `get_unique_words`: the set of lower-cased whitespace tokens. */
  function UniqueWords(text: string): set<string> {
    Elements(Split(Lower(text)))
  }

  /** A word is unique-word material exactly when it is the lower-cased
      form of one of the text's tokens, and there are never more unique
      words than words. */
  lemma UniqueWordsOfText(text: string)
    ensures forall w :: w in UniqueWords(text) <==>
      exists k :: 0 <= k < |Split(text)| && w == Lower(Split(text)[k])
    ensures |UniqueWords(text)| <= CountWords(text)
  {
    SplitLower(text);
    ElementsBound(Split(Lower(text)));
    forall w | w in UniqueWords(text)
      ensures exists k :: 0 <= k < |Split(text)| && w == Lower(Split(text)[k])
    {
      var k :| 0 <= k < |Split(Lower(text))| && Split(Lower(text))[k] == w;
      assert w == Lower(Split(text)[k]);
    }
  }

  // ------------------------------------------------------- word pairs

  /** `min(i + max_distance + 1, len(words))`, the end of the inner range. */
  function Stop(n: nat, i: nat, maxDistance: int): int {
    if i + maxDistance + 1 < n then i + maxDistance + 1 else n
  }

  /** The pair of positions `(i, j)` is emitted: `j` is among the next
      `maxDistance` words after `i` and holds a different word. */
  predicate Emits(ws: seq<string>, maxDistance: int, i: int, j: int) {
    0 <= i < j < |ws| && j <= i + maxDistance && ws[i] != ws[j]
  }

  predicate LexLess(p: (int, int), q: (int, int)) {
    p.0 < q.0 || (p.0 == q.0 && p.1 < q.1)
  }

  /** The positions the inner loop for `i` emits for `j` below `stop`. */
  function RowPositions(ws: seq<string>, i: nat, stop: int): (ix: seq<(int, int)>)
    requires i < |ws| && stop <= |ws|
    ensures forall k :: 0 <= k < |ix| ==> ix[k].0 == i && i < ix[k].1 < stop && ws[i] != ws[ix[k].1]
    decreases stop
  {
    if stop <= i + 1 then []
    else RowPositions(ws, i, stop - 1) + (if ws[i] != ws[stop - 1] then [(i as int, stop - 1)] else [])
  }

  /** One round of the inner loop appends at most one pair per position. */
  lemma {:induction false} RowSize(ws: seq<string>, i: nat, stop: int)
    requires i < |ws| && stop <= |ws|
    ensures |RowPositions(ws, i, stop)| <= if stop <= i then 0 else stop - i - 1
    decreases stop
  {
    if stop > i + 1 {
      RowSize(ws, i, stop - 1);
    }
  }

  /** One round of the inner loop skips only the positions holding the
      word at `i`. */
  lemma {:induction false} RowComplete(ws: seq<string>, i: nat, stop: int, j: int)
    requires i < |ws| && stop <= |ws|
    requires i < j < stop && ws[i] != ws[j]
    ensures (i as int, j) in RowPositions(ws, i, stop)
    decreases stop
  {
    if j < stop - 1 {
      RowComplete(ws, i, stop - 1, j);
    }
    assert RowPositions(ws, i, stop) ==
      RowPositions(ws, i, stop - 1) + (if ws[i] != ws[stop - 1] then [(i as int, stop - 1)] else []);
  }

  /** The positions emitted by the outer loop's first `i` rounds. */
  function Positions(ws: seq<string>, maxDistance: int, i: nat): (ix: seq<(int, int)>)
    requires i <= |ws|
    ensures forall k :: 0 <= k < |ix| ==> ix[k].0 < i && Emits(ws, maxDistance, ix[k].0, ix[k].1)
  {
    if i == 0 then []
    else Positions(ws, maxDistance, i - 1) + RowPositions(ws, i - 1, Stop(|ws|, i - 1, maxDistance))
  }

  /** A list of positions in increasing order. */
  predicate Increasing(ix: seq<(int, int)>) {
    forall k, l :: 0 <= k < l < |ix| ==> LexLess(ix[k], ix[l])
  }

  /** Two increasing lists, all of the first before all of the second,
      make one increasing list. */
  lemma IncreasingAppend(a: seq<(int, int)>, b: seq<(int, int)>)
    requires Increasing(a) && Increasing(b)
    requires forall k, l :: 0 <= k < |a| && 0 <= l < |b| ==> LexLess(a[k], b[l])
    ensures Increasing(a + b)
  {
    forall k, l | 0 <= k < l < |a + b|
      ensures LexLess((a + b)[k], (a + b)[l])
    {
      if l < |a| {
        assert (a + b)[k] == a[k] && (a + b)[l] == a[l];
      } else if k >= |a| {
        assert (a + b)[k] == b[k - |a|] && (a + b)[l] == b[l - |a|];
      } else {
        assert (a + b)[k] == a[k] && (a + b)[l] == b[l - |a|];
      }
    }
  }

  /** One round of the inner loop goes by increasing `j`. */
  lemma {:induction false} RowIncreasing(ws: seq<string>, i: nat, stop: int)
    requires i < |ws| && stop <= |ws|
    ensures Increasing(RowPositions(ws, i, stop))
    decreases stop
  {
    if stop > i + 1 {
      RowIncreasing(ws, i, stop - 1);
      var last: seq<(int, int)> := if ws[i] != ws[stop - 1] then [(i as int, stop - 1)] else [];
      IncreasingAppend(RowPositions(ws, i, stop - 1), last);
    }
  }

  /** The outer loop goes by `i` and the inner one by `j`. */
  lemma {:induction false} PositionsOrdered(ws: seq<string>, maxDistance: int, i: nat)
    requires i <= |ws|
    ensures Increasing(Positions(ws, maxDistance, i))
  {
    if i > 0 {
      PositionsOrdered(ws, maxDistance, i - 1);
      var stop := Stop(|ws|, i - 1, maxDistance);
      RowIncreasing(ws, i - 1, stop);
      IncreasingAppend(Positions(ws, maxDistance, i - 1), RowPositions(ws, i - 1, stop));
    }
  }

  /** Every emitting pair of positions below row `i` is in the list. */
  lemma {:induction false} PositionsComplete(ws: seq<string>, maxDistance: int, i: nat, a: nat, b: nat)
    requires i <= |ws|
    requires a < i && Emits(ws, maxDistance, a, b)
    ensures (a as int, b as int) in Positions(ws, maxDistance, i)
  {
    var prev := Positions(ws, maxDistance, i - 1);
    var row := RowPositions(ws, i - 1, Stop(|ws|, i - 1, maxDistance));
    assert Positions(ws, maxDistance, i) == prev + row;
    if a < i - 1 {
      PositionsComplete(ws, maxDistance, i - 1, a, b);
    } else {
      RowComplete(ws, i - 1, Stop(|ws|, i - 1, maxDistance), b);
    }
  }

  /** Every position pair lies inside the word list. */
  predicate InRange(ws: seq<string>, ix: seq<(int, int)>) {
    forall k :: 0 <= k < |ix| ==> 0 <= ix[k].0 < |ws| && 0 <= ix[k].1 < |ws|
  }

  /** The words at a sequence of position pairs. */
  function PairsAt(ws: seq<string>, ix: seq<(int, int)>): (ps: seq<(string, string)>)
    requires InRange(ws, ix)
    ensures |ps| == |ix|
    ensures forall k :: 0 <= k < |ix| ==> ps[k] == (ws[ix[k].0], ws[ix[k].1])
  {
    seq(|ix|, k requires 0 <= k < |ix| => (ws[ix[k].0], ws[ix[k].1]))
  }

  /** What `extract_word_pairs(text, max_distance)` returns. */
  function WordPairs(text: string, maxDistance: int): seq<(string, string)> {
    var ws := Split(Lower(text));
    PairsAt(ws, Positions(ws, maxDistance, |ws|))
  }

  /** `extract_word_pairs`: split the lower-cased text, then pair the words. */
  method ExtractWordPairs(text: string, maxDistance: int) returns (pairs: seq<(string, string)>)
    ensures pairs == WordPairs(text, maxDistance)
  {
    var words := Split(Lower(text));
    pairs := PairWords(words, maxDistance);
  }

  /** The positions of the first `i` outer rounds and of the inner round
      for `i` up to `j`. */
  function Emitted(ws: seq<string>, maxDistance: int, i: nat, j: int): (ix: seq<(int, int)>)
    requires i < |ws| && j <= |ws|
    ensures InRange(ws, ix)
  {
    Positions(ws, maxDistance, i) + RowPositions(ws, i, j)
  }

  /** One inner round appends the pair at `(i, j)` exactly when the two
      words differ. */
  lemma PairStep(ws: seq<string>, maxDistance: int, i: nat, j: int)
    requires i < |ws| && i + 1 <= j < |ws|
    ensures PairsAt(ws, Emitted(ws, maxDistance, i, j + 1)) ==
      PairsAt(ws, Emitted(ws, maxDistance, i, j)) + (if ws[i] != ws[j] then [(ws[i], ws[j])] else [])
  {
    var prev := Emitted(ws, maxDistance, i, j);
    if ws[i] != ws[j] {
      assert Emitted(ws, maxDistance, i, j + 1) == prev + [(i as int, j)];
    } else {
      assert Emitted(ws, maxDistance, i, j + 1) == prev;
    }
  }

  /** The outer loop of `extract_word_pairs`, over `i`. */
  method PairWords(words: seq<string>, maxDistance: int) returns (pairs: seq<(string, string)>)
    ensures pairs == PairsAt(words, Positions(words, maxDistance, |words|))
  {
    pairs := [];
    for i := 0 to |words|
      invariant pairs == PairsAt(words, Positions(words, maxDistance, i))
    {
      pairs := PairRow(words, maxDistance, i, pairs);
    }
  }

  /** The inner loop of `extract_word_pairs`, over `j` for one `i`. */
  method PairRow(words: seq<string>, maxDistance: int, i: nat, pairs0: seq<(string, string)>)
    returns (pairs: seq<(string, string)>)
    requires i < |words|
    requires pairs0 == PairsAt(words, Positions(words, maxDistance, i))
    ensures pairs == PairsAt(words, Positions(words, maxDistance, i + 1))
  {
    pairs := pairs0;
    var stop := Stop(|words|, i, maxDistance);
    var j := i + 1;
    assert Emitted(words, maxDistance, i, j) == Positions(words, maxDistance, i);
    while j < stop
      invariant i + 1 <= j <= |words|
      invariant j == i + 1 || j <= stop
      invariant pairs == PairsAt(words, Emitted(words, maxDistance, i, j))
    {
      PairStep(words, maxDistance, i, j);
      if words[i] != words[j] {
        pairs := pairs + [(words[i], words[j])];
      }
      j := j + 1;
    }
    assert Emitted(words, maxDistance, i, j) == Positions(words, maxDistance, i + 1);
  }

  /** The pairs are the words at exactly the emitting positions `i < j <=
      i + maxDistance`, `j < len(words)`, `words[i] != words[j]`, ordered by
      `i` and then `j`. */
  lemma WordPairsExact(text: string, maxDistance: int)
    ensures var ws := Split(Lower(text));
      var ix := Positions(ws, maxDistance, |ws|);
      && WordPairs(text, maxDistance) == PairsAt(ws, ix)
      && (forall k :: 0 <= k < |ix| ==> Emits(ws, maxDistance, ix[k].0, ix[k].1))
      && (forall i, j :: Emits(ws, maxDistance, i, j) ==> (i, j) in ix)
      && Increasing(ix)
  {
    var ws := Split(Lower(text));
    PositionsOrdered(ws, maxDistance, |ws|);
    forall i, j | Emits(ws, maxDistance, i, j)
      ensures (i, j) in Positions(ws, maxDistance, |ws|)
    {
      PositionsComplete(ws, maxDistance, |ws|, i, j);
    }
  }

  /** No pair repeats a word, and there are at most `maxDistance` pairs per
      word. */
  lemma {:induction false} WordPairsBound(ws: seq<string>, maxDistance: nat, i: nat)
    requires i <= |ws|
    ensures |Positions(ws, maxDistance, i)| <= i * maxDistance
  {
    if i > 0 {
      WordPairsBound(ws, maxDistance, i - 1);
      RowSize(ws, i - 1, Stop(|ws|, i - 1, maxDistance));
      assert (i - 1) * maxDistance + maxDistance == i * maxDistance;
    }
  }

  lemma WordPairsShape(text: string)
    ensures forall k :: 0 <= k < |WordPairs(text, 3)| ==> WordPairs(text, 3)[k].0 != WordPairs(text, 3)[k].1
    ensures |WordPairs(text, 3)| <= 3 * |Split(Lower(text))|
  {
    var ws := Split(Lower(text));
    WordPairsBound(ws, 3, |ws|);
  }

  // ------------------------------------------------------ aggregation

  /** One entry of `sample_data`. */
  datatype SampleText = SampleText(
    title: string, titleEn: string, content: string, contentEn: string,
    fullContent: string, fullContentEn: string, category: string, source: string)

  /** `f"{title} {content} {full_content}"`. */
  function ZuText(t: SampleText): string {
    t.title + " " + t.content + " " + t.fullContent
  }

  /** `len(pair[0]) > 2 and len(pair[1]) > 2`. */
  predicate LongPair(p: (string, string)) { |p.0| > 2 && |p.1| > 2 }

  /** The lower-cased whitespace tokens of every text, text after text. */
  function AllTokens(texts: seq<SampleText>): seq<string> {
    if texts == [] then []
    else AllTokens(texts[..|texts| - 1]) + Split(Lower(ZuText(texts[|texts| - 1])))
  }

  /** Every pair `extract_word_pairs` emits, text after text. */
  function AllPairs(texts: seq<SampleText>): seq<(string, string)> {
    if texts == [] then []
    else AllPairs(texts[..|texts| - 1]) + WordPairs(ZuText(texts[|texts| - 1]), 3)
  }

  function TotalWords(texts: seq<SampleText>): nat {
    if texts == [] then 0
    else TotalWords(texts[..|texts| - 1]) + CountWords(ZuText(texts[|texts| - 1]))
  }

  function UniqueUnion(texts: seq<SampleText>): set<string> {
    if texts == [] then {}
    else UniqueUnion(texts[..|texts| - 1]) + UniqueWords(ZuText(texts[|texts| - 1]))
  }

  /** `(word_count, len(unique_words))` as inserted for each text. */
  function RowCounts(texts: seq<SampleText>): seq<(int, int)> {
    if texts == [] then [] else RowCounts(texts[..|texts| - 1]) + [RowCount(texts[|texts| - 1])]
  }

  /** `(word_count, len(unique_words))` for one text. */
  function RowCount(t: SampleText): (int, int) {
    (CountWords(ZuText(t)), |UniqueWords(ZuText(t))|)
  }

  /** `total_words / len(total_unique_words) if total_unique_words else 0`. */
  function AvgWordLength(totalWords: nat, unique: set<string>): real {
    if unique == {} then 0.0 else totalWords as real / |unique| as real
  }

  /** What the seeding script stores in `word_stats`, `word_pairs`,
      `corpus_stats` and the two count columns. */
  datatype SeedStatistics = SeedStatistics(
    wordFreq: map<string, nat>,
    pairFreq: map<(string, string), nat>,
    totalWords: nat,
    uniqueWords: set<string>,
    totalTexts: nat,
    avgWordLength: real,
    rowCounts: seq<(int, int)>)

  /** The seeding loop: per text, bump the long words and the long pairs,
      add the word count and merge the unique words. */
  method AggregateSeed(texts: seq<SampleText>) returns (st: SeedStatistics)
    ensures st.wordFreq == Tally(Filter(AllTokens(texts), LongEnough))
    ensures st.pairFreq == Tally(Filter(AllPairs(texts), LongPair))
    ensures st.totalWords == TotalWords(texts)
    ensures st.uniqueWords == UniqueUnion(texts)
    ensures st.totalTexts == |texts|
    ensures st.avgWordLength == AvgWordLength(TotalWords(texts), UniqueUnion(texts))
    ensures st.rowCounts == RowCounts(texts)
  {
    var wordFreq: map<string, nat> := map[];
    var pairFreq: map<(string, string), nat> := map[];
    var totalWords: nat := 0;
    var totalUniqueWords: set<string> := {};
    var rowCounts: seq<(int, int)> := [];
    ghost var tokens: seq<string> := [];
    ghost var allPairs: seq<(string, string)> := [];
    for t := 0 to |texts|
      invariant tokens == AllTokens(texts[..t]) && allPairs == AllPairs(texts[..t])
      invariant wordFreq == Tally(Filter(tokens, LongEnough))
      invariant pairFreq == Tally(Filter(allPairs, LongPair))
      invariant totalWords == TotalWords(texts[..t])
      invariant totalUniqueWords == UniqueUnion(texts[..t])
      invariant rowCounts == RowCounts(texts[..t])
    {
      AggregateStep(texts, t);
      var zuText := ZuText(texts[t]);
      var zuWords := Split(Lower(zuText));
      var wordCount := CountWords(zuText);
      var uniqueWords := UniqueWords(zuText);
      wordFreq := BumpLongWords(wordFreq, Filter(tokens, LongEnough), zuWords);
      FilterAppend(tokens, zuWords, LongEnough);
      tokens := tokens + zuWords;
      var pairs := ExtractWordPairs(zuText, 3);
      pairFreq := BumpLongPairs(pairFreq, Filter(allPairs, LongPair), pairs);
      FilterAppend(allPairs, pairs, LongPair);
      allPairs := allPairs + pairs;
      totalWords := totalWords + wordCount;
      totalUniqueWords := totalUniqueWords + uniqueWords;
      rowCounts := rowCounts + [(wordCount, |uniqueWords|)];
    }
    assert texts[..|texts|] == texts;
    var avg := if totalUniqueWords != {} then totalWords as real / |totalUniqueWords| as real else 0.0;
    st := SeedStatistics(wordFreq, pairFreq, totalWords, totalUniqueWords, |texts|, avg, rowCounts);
  }

  /** Each aggregate over the first `t + 1` texts extends the one over the
      first `t` by the contribution of text `t`. */
  lemma AggregateStep(texts: seq<SampleText>, t: nat)
    requires t < |texts|
    ensures AllTokens(texts[..t + 1]) == AllTokens(texts[..t]) + Split(Lower(ZuText(texts[t])))
    ensures AllPairs(texts[..t + 1]) == AllPairs(texts[..t]) + WordPairs(ZuText(texts[t]), 3)
    ensures TotalWords(texts[..t + 1]) == TotalWords(texts[..t]) + CountWords(ZuText(texts[t]))
    ensures UniqueUnion(texts[..t + 1]) == UniqueUnion(texts[..t]) + UniqueWords(ZuText(texts[t]))
    ensures RowCounts(texts[..t + 1]) == RowCounts(texts[..t]) + [RowCount(texts[t])]
  {
    var next := texts[..t + 1];
    assert next[..t] == texts[..t] && next[t] == texts[t];
  }

  /** `for word in zu_words: if len(word) > 2: word_freq[word] = ... + 1`. */
  method BumpLongWords(wordFreq: map<string, nat>, ghost seen: seq<string>, words: seq<string>)
    returns (m: map<string, nat>)
    requires wordFreq == Tally(seen)
    ensures m == Tally(seen + Filter(words, LongEnough))
  {
    m := wordFreq;
    assert seen + Filter(words[..0], LongEnough) == seen;
    for j := 0 to |words|
      invariant m == Tally(seen + Filter(words[..j], LongEnough))
    {
      TallyKeptStep(seen, words, j, LongEnough);
      if LongEnough(words[j]) {
        m := Bump(m, words[j]);
      }
    }
    assert words[..|words|] == words;
  }

  /** `for pair in pairs: if len(pair[0]) > 2 and len(pair[1]) > 2:
      word_pairs_freq[pair] = ... + 1`. */
  method BumpLongPairs(pairFreq: map<(string, string), nat>, ghost seen: seq<(string, string)>, pairs: seq<(string, string)>)
    returns (m: map<(string, string), nat>)
    requires pairFreq == Tally(seen)
    ensures m == Tally(seen + Filter(pairs, LongPair))
  {
    m := pairFreq;
    assert seen + Filter(pairs[..0], LongPair) == seen;
    for j := 0 to |pairs|
      invariant m == Tally(seen + Filter(pairs[..j], LongPair))
    {
      TallyKeptStep(seen, pairs, j, LongPair);
      if LongPair(pairs[j]) {
        m := Bump(m, pairs[j]);
      }
    }
    assert pairs[..|pairs|] == pairs;
  }

  /** One step of a filtered tally loop: the next element is bumped when
      it is kept and skipped otherwise. */
  lemma TallyKeptStep<T>(seen: seq<T>, xs: seq<T>, j: nat, keep: T -> bool)
    requires j < |xs|
    ensures Tally(seen + Filter(xs[..j + 1], keep)) ==
      if keep(xs[j]) then Bump(Tally(seen + Filter(xs[..j], keep)), xs[j])
      else Tally(seen + Filter(xs[..j], keep))
  {
    assert xs[..j + 1] == xs[..j] + [xs[j]];
    FilterSnoc(xs[..j], xs[j], keep);
    var done := seen + Filter(xs[..j], keep);
    if keep(xs[j]) {
      assert seen + Filter(xs[..j + 1], keep) == done + [xs[j]];
      TallySnoc(done, xs[j]);
    } else {
      assert seen + Filter(xs[..j + 1], keep) == done;
    }
  }

  /** Tallying the kept elements of a sequence counts each kept element
      fully and nothing else. */
  lemma TallyOfFilter<T>(s: seq<T>, keep: T -> bool)
    ensures forall x :: x in Tally(Filter(s, keep)) <==> keep(x) && x in s
    ensures forall x :: x in Tally(Filter(s, keep)) ==> Tally(Filter(s, keep))[x] == CountIn(s, x)
  {
    TallyCounts(Filter(s, keep));
    forall x | keep(x)
      ensures CountIn(Filter(s, keep), x) == CountIn(s, x)
    {
      CountInFilter(s, keep, x);
    }
    forall x | keep(x) && x in s
      ensures x in Filter(s, keep)
    {
      var k :| 0 <= k < |s| && s[k] == x;
    }
  }

  /** `word_freq` holds exactly the tokens longer than two characters, each
      with its number of occurrences among the lower-cased tokens of all
      texts. */
  lemma WordFreqExact(texts: seq<SampleText>)
    ensures var m := Tally(Filter(AllTokens(texts), LongEnough));
      && (forall w :: w in m <==> |w| > 2 && w in AllTokens(texts))
      && (forall w :: w in m ==> m[w] == CountIn(AllTokens(texts), w))
  {
    TallyOfFilter(AllTokens(texts), LongEnough);
  }

  /** Every emitted pair joins two different words. */
  lemma {:induction false} AllPairsDistinct(texts: seq<SampleText>)
    ensures forall k :: 0 <= k < |AllPairs(texts)| ==> AllPairs(texts)[k].0 != AllPairs(texts)[k].1
  {
    if texts != [] {
      AllPairsDistinct(texts[..|texts| - 1]);
      WordPairsShape(ZuText(texts[|texts| - 1]));
    }
  }

  /** `word_pairs_freq` holds exactly the emitted pairs of two long words,
      each pair of two different words, with the number of times it was
      emitted. */
  lemma PairFreqExact(texts: seq<SampleText>)
    ensures var m := Tally(Filter(AllPairs(texts), LongPair));
      && (forall p :: p in m <==> LongPair(p) && p in AllPairs(texts))
      && (forall p :: p in m ==> p.0 != p.1 && m[p] == CountIn(AllPairs(texts), p))
  {
    var s := AllPairs(texts);
    TallyOfFilter(s, LongPair);
    AllPairsDistinct(texts);
    forall p | p in s
      ensures p.0 != p.1
    {
      var k :| 0 <= k < |s| && s[k] == p;
    }
  }

  /** `total_words` is the length of the token stream the frequencies are
      drawn from, and no smaller than the number of unique words. */
  lemma {:induction false} TotalsAgree(texts: seq<SampleText>)
    ensures TotalWords(texts) == |AllTokens(texts)|
    ensures |UniqueUnion(texts)| <= TotalWords(texts)
  {
    if texts != [] {
      var text := ZuText(texts[|texts| - 1]);
      TotalsAgree(texts[..|texts| - 1]);
      SplitLower(text);
      UniqueWordsOfText(text);
      var a, b := UniqueUnion(texts[..|texts| - 1]), UniqueWords(text);
      assert |a + b| + |a * b| == |a| + |b|;
    }
  }

  /** One `(word_count, len(unique_words))` per text, the second never
      larger than the first. */
  lemma {:induction false} RowCountsPerText(texts: seq<SampleText>)
    ensures |RowCounts(texts)| == |texts|
    ensures forall k :: 0 <= k < |texts| ==>
      RowCounts(texts)[k] == (CountWords(ZuText(texts[k])), |UniqueWords(ZuText(texts[k]))|)
      && RowCounts(texts)[k].1 <= RowCounts(texts)[k].0
  {
    RowCountsAt(texts);
    forall k | 0 <= k < |texts|
      ensures RowCount(texts[k]).1 <= RowCount(texts[k]).0
    {
      UniqueWordsOfText(ZuText(texts[k]));
    }
  }

  lemma {:induction false} RowCountsAt(texts: seq<SampleText>)
    ensures |RowCounts(texts)| == |texts|
    ensures forall k :: 0 <= k < |texts| ==> RowCounts(texts)[k] == RowCount(texts[k])
  {
    if texts != [] {
      var init := texts[..|texts| - 1];
      RowCountsAt(init);
      forall k | 0 <= k < |init|
        ensures texts[k] == init[k]
      {
      }
    }
  }

  /** `avg_word_length` is 0 exactly when there are no unique words;
      otherwise it is `total_words` shared over them, which is not 0 since
      there are never fewer words than unique words (`TotalsAgree`). */
  lemma AverageGuard(totalWords: nat, unique: set<string>)
    requires |unique| <= totalWords
    ensures AvgWordLength(totalWords, unique) == 0.0 <==> unique == {}
    ensures unique != {} ==>
      AvgWordLength(totalWords, unique) * |unique| as real == totalWords as real
  {
    if unique != {} {
      var d, w := |unique| as real, totalWords as real;
      assert d > 0.0 && w >= d;
      assert (w / d) * d == w;
    }
  }
}
