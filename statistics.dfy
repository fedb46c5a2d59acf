/** `generate_statistics`: totals over the approved rows, the word-frequency
    tables of the isiZulu and English token streams, and their adjacent-pair
    tables. */
module Statistics {
  import opened Wrappers
  import opened Seqs
  import opened Text
  import opened Tokenizer
  import opened Counting
  import opened Records

  const WordTableSize: nat := 20
  const PairTableSize: nat := 10

  /** The `stats` dictionary, without `last_updated` and `category_stats`.
      A frequency entry is `(word, frequency)`, a pair entry
      `((word1, word2), frequency)`. */
  datatype CorpusStatistics = CorpusStatistics(
    totalTexts: nat,
    totalWords: int,
    totalUniqueWords: int,
    avgWordLength: real,
    zuWordFrequency: seq<(string, nat)>,
    enWordFrequency: seq<(string, nat)>,
    zuWordPairs: seq<((string, string), nat)>,
    enWordPairs: seq<((string, string), nat)>)

  /** What each row adds to `all_zu_text` after the leading space:
      `f"{title} {content} {full_content or ''}"`. */
  function ZuBody(r: TextRecord): string {
    r.title + " " + r.content + " " + r.fullContent.GetOr("")
  }

  /** The English counterpart, added to `all_en_text`. */
  function EnBody(r: TextRecord): string {
    r.titleEn + " " + r.contentEn + " " + r.fullContentEn.GetOr("")
  }

  /** The accumulated text: a space and the row's body for each row. */
  function Concat(rows: seq<TextRecord>, body: TextRecord -> string): string {
    if rows == [] then ""
    else Concat(rows[..|rows| - 1], body) + " " + body(rows[|rows| - 1])
  }

  function StoredWords(r: TextRecord): int { r.wordCount.GetOr(0) }

  function StoredUniqueWords(r: TextRecord): int { r.uniqueWords.GetOr(0) }

  /** The sum of a stored column, NULL read as 0. */
  function SumOf(rows: seq<TextRecord>, field: TextRecord -> int): int {
    if rows == [] then 0
    else SumOf(rows[..|rows| - 1], field) + field(rows[|rows| - 1])
  }

  /** `Counter(words).most_common(20)`. */
  function WordTable(ws: seq<string>): seq<(string, nat)> {
    MostCommon(CounterOf(ws), WordTableSize)
  }

  /** `Counter(zip(words[:-1], words[1:])).most_common(10)`, computed only
      when there is more than one token. */
  function PairTable(ws: seq<string>): seq<((string, string), nat)> {
    if |ws| > 1 then MostCommon(CounterOf(Bigrams(ws)), PairTableSize) else []
  }

  /** `max(total_texts, 1)`. */
  function Divisor(totalTexts: nat): nat {
    if totalTexts > 1 then totalTexts else 1
  }

  /** `total_words / max(total_texts, 1)`. */
  function Average(totalWords: int, totalTexts: nat): real {
    totalWords as real / Divisor(totalTexts) as real
  }

  /** The whole result, as a function of the table. */
  function StatisticsOf(table: seq<TextRecord>): CorpusStatistics {
    var texts := ApprovedRows(table);
    var zu := ExtractWords(Concat(texts, ZuBody));
    var en := ExtractWords(Concat(texts, EnBody));
    CorpusStatistics(
      |texts|,
      SumOf(texts, StoredWords),
      SumOf(texts, StoredUniqueWords),
      Average(SumOf(texts, StoredWords), |texts|),
      WordTable(zu), WordTable(en), PairTable(zu), PairTable(en))
  }

  /** `generate_statistics`: the accumulation loop, then the tables built
      from its two texts. */
  method GenerateStatistics(table: seq<TextRecord>) returns (s: CorpusStatistics)
    ensures s == StatisticsOf(table)
    ensures s.totalTexts == |ApprovedRows(table)|
  {
    var texts := ApprovedRows(table);
    var totalWords, totalUniqueWords, allZuText, allEnText := Accumulate(texts);
    var zuWords := ExtractWords(allZuText);
    var enWords := ExtractWords(allEnText);
    var zuPairs, enPairs := [], [];
    if |zuWords| > 1 {
      zuPairs := MostCommon(CounterOf(Bigrams(zuWords)), PairTableSize);
    }
    if |enWords| > 1 {
      enPairs := MostCommon(CounterOf(Bigrams(enWords)), PairTableSize);
    }
    var divisor := if |texts| > 1 then |texts| else 1;
    s := CorpusStatistics(
      |texts|, totalWords, totalUniqueWords, totalWords as real / divisor as real,
      MostCommon(CounterOf(zuWords), WordTableSize), MostCommon(CounterOf(enWords), WordTableSize),
      zuPairs, enPairs);
  }

  /** The loop over the approved rows: the two stored totals, NULL read as
      0, and the two accumulated texts. */
  method Accumulate(texts: seq<TextRecord>)
    returns (totalWords: int, totalUniqueWords: int, allZuText: string, allEnText: string)
    ensures totalWords == SumOf(texts, StoredWords)
    ensures totalUniqueWords == SumOf(texts, StoredUniqueWords)
    ensures allZuText == Concat(texts, ZuBody)
    ensures allEnText == Concat(texts, EnBody)
  {
    totalWords, totalUniqueWords := 0, 0;
    allZuText, allEnText := "", "";
    for i := 0 to |texts|
      invariant totalWords == SumOf(texts[..i], StoredWords)
      invariant totalUniqueWords == SumOf(texts[..i], StoredUniqueWords)
      invariant allZuText == Concat(texts[..i], ZuBody)
      invariant allEnText == Concat(texts[..i], EnBody)
    {
      assert texts[..i + 1][..i] == texts[..i];
      totalWords := totalWords + texts[i].wordCount.GetOr(0);
      totalUniqueWords := totalUniqueWords + texts[i].uniqueWords.GetOr(0);
      allZuText := allZuText + " " + (texts[i].title + " " + texts[i].content + " " + texts[i].fullContent.GetOr(""));
      allEnText := allEnText + " " + (texts[i].titleEn + " " + texts[i].contentEn + " " + texts[i].fullContentEn.GetOr(""));
    }
    assert texts[..|texts|] == texts;
  }

  /** The tokens of each row, row after row. */
  function WordsPerRecord(rows: seq<TextRecord>, body: TextRecord -> string): seq<string> {
    if rows == [] then []
    else WordsPerRecord(rows[..|rows| - 1], body) + ExtractWords(body(rows[|rows| - 1]))
  }

  /** Joining rows with spaces never glues two rows into one token: the
      token stream of the accumulated text is the rows' token lists one
      after another. */
  lemma {:induction false} TokensStayInTheirRecord(rows: seq<TextRecord>, body: TextRecord -> string)
    ensures ExtractWords(Concat(rows, body)) == WordsPerRecord(rows, body)
  {
    if rows != [] {
      var init := rows[..|rows| - 1];
      TokensStayInTheirRecord(init, body);
      ExtractWordsAround(Concat(init, body), ' ', body(rows[|rows| - 1]));
    }
  }

  /** A word table lists `min(20, distinct tokens)` distinct tokens of its
      stream, each with its exact number of occurrences, by descending count
      with ties in first-occurrence order. */
  lemma WordTableCounts(ws: seq<string>)
    ensures var t := WordTable(ws);
      && |t| == (if |Distinct(ws)| <= WordTableSize then |Distinct(ws)| else WordTableSize)
      && (forall k :: 0 <= k < |t| ==> t[k].0 in ws && t[k].1 == CountIn(ws, t[k].0))
      && (forall i, j :: 0 <= i < j < |t| ==> t[i].0 != t[j].0 && Before(t[i], t[j], FirstSeenRank(ws)))
  {
    MostCommonOfCounter(ws, WordTableSize);
  }

  /** A word table built from a token stream lists only tokens: three or
      more lower-case ASCII letters. */
  lemma WordTableTokens(ws: seq<string>)
    requires forall k :: 0 <= k < |ws| ==> IsToken(ws[k])
    ensures forall k :: 0 <= k < |WordTable(ws)| ==> IsToken(WordTable(ws)[k].0)
  {
    WordTableCounts(ws);
    forall k | 0 <= k < |WordTable(ws)|
      ensures IsToken(WordTable(ws)[k].0)
    {
      var j :| 0 <= j < |ws| && ws[j] == WordTable(ws)[k].0;
    }
  }

  /** The average divides by `max(total_texts, 1)`: it is the word total
      shared over the texts, and the word total itself when there are none. */
  lemma AverageGuard(totalWords: int, totalTexts: nat)
    ensures Divisor(totalTexts) >= 1
    ensures Average(totalWords, totalTexts) * Divisor(totalTexts) as real == totalWords as real
    ensures totalTexts == 0 ==> Average(totalWords, totalTexts) == totalWords as real
  {
    var d := Divisor(totalTexts) as real;
    assert totalWords as real / d * d == totalWords as real;
  }

  /** A pair table is empty for fewer than two tokens; otherwise it has at
      most ten entries, each an adjacent pair of the stream with the exact
      number of positions where it occurs, distinct, by descending count with
      ties in first-occurrence order. */
  lemma PairTableCounts(ws: seq<string>)
    ensures |ws| < 2 ==> PairTable(ws) == []
    ensures |PairTable(ws)| <= PairTableSize
    ensures forall k :: 0 <= k < |PairTable(ws)| ==>
      PairTable(ws)[k].1 == AdjacentCount(ws, PairTable(ws)[k].0.0, PairTable(ws)[k].0.1) > 0
    ensures |ws| > 1 ==>
      |PairTable(ws)| == (if |Distinct(Bigrams(ws))| <= PairTableSize then |Distinct(Bigrams(ws))| else PairTableSize)
    ensures forall i, j :: 0 <= i < j < |PairTable(ws)| ==>
      PairTable(ws)[i].0 != PairTable(ws)[j].0 && Before(PairTable(ws)[i], PairTable(ws)[j], FirstSeenRank(Bigrams(ws)))
  {
    if |ws| > 1 {
      var t := PairTable(ws);
      MostCommonOfCounter(Bigrams(ws), PairTableSize);
      forall k | 0 <= k < |t|
        ensures t[k].1 == AdjacentCount(ws, t[k].0.0, t[k].0.1) > 0
      {
        BigramCount(ws, t[k].0.0, t[k].0.1);
      }
    }
  }

  /** A row that is not approved changes none of the statistics. */
  lemma UnapprovedChangesNothing(table: seq<TextRecord>, x: TextRecord)
    requires x.status != Approved
    ensures StatisticsOf(table + [x]) == StatisticsOf(table)
  {
    FilterAppend(table, [x], IsApproved);
    assert ApprovedRows(table + [x]) == ApprovedRows(table);
  }

  /** Approving one more row adds its stored counts to the totals and its
      tokens to the end of each stream. */
  lemma ApprovedRowExtends(table: seq<TextRecord>, x: TextRecord)
    requires x.status == Approved
    ensures var before := ApprovedRows(table);
      var after := ApprovedRows(table + [x]);
      && |after| == |before| + 1
      && SumOf(after, StoredWords) == SumOf(before, StoredWords) + x.wordCount.GetOr(0)
      && SumOf(after, StoredUniqueWords) == SumOf(before, StoredUniqueWords) + x.uniqueWords.GetOr(0)
      && ExtractWords(Concat(after, ZuBody)) == ExtractWords(Concat(before, ZuBody)) + ExtractWords(ZuBody(x))
      && ExtractWords(Concat(after, EnBody)) == ExtractWords(Concat(before, EnBody)) + ExtractWords(EnBody(x))
  {
    FilterAppend(table, [x], IsApproved);
    assert ApprovedRows([x]) == [x];
    RowExtends(ApprovedRows(table), x, ZuBody);
    RowExtends(ApprovedRows(table), x, EnBody);
  }

  /** One more row at the end: its stored counts join the sums and its
      tokens follow the earlier ones. */
  lemma RowExtends(rows: seq<TextRecord>, x: TextRecord, body: TextRecord -> string)
    ensures SumOf(rows + [x], StoredWords) == SumOf(rows, StoredWords) + x.wordCount.GetOr(0)
    ensures SumOf(rows + [x], StoredUniqueWords) == SumOf(rows, StoredUniqueWords) + x.uniqueWords.GetOr(0)
    ensures ExtractWords(Concat(rows + [x], body)) == ExtractWords(Concat(rows, body)) + ExtractWords(body(x))
  {
    assert (rows + [x])[..|rows|] == rows;
    ExtractWordsAround(Concat(rows, body), ' ', body(x));
  }
}
