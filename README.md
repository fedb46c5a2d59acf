# isiZulu corpus: a verified model of its lexical analysis and retrieval

The isiZulu corpus is a Flask application. It stores isiZulu texts with their English translations in a `texts` table. Contributors submit texts and managers approve or reject them. Anyone can search the approved texts and read corpus statistics. This project models the logic behind that in Dafny:

- the tokenizer;
- resolution of category names;
- search selection, ordering and paging;
- counting of occurrences;
- the statistics engine (totals, word-frequency tables, adjacent-pair tables);
- the rules by which contributions and moderation write to the table;
- the statistics helpers of the seed script `init_db.py`.

The table is a sequence of `TextRecord` values, in table order. A SQL statement is a filter, sort or slice over that sequence.

Modules, in dependency order:

- `Wrappers`: `Option`, which models NULL.
- `Seqs`: filters, element counts, element sets.
- `Text`:
  - ASCII case folding and Python's whitespace set;
  - `str.split`, `str.strip` and `str.count`;
  - substring search;
  - runs of word characters.
- `Tokenizer`: `extract_words`.
- `Counting`:
  - `collections.Counter` in first-occurrence order;
  - `most_common(n)` as a stable sort by descending count;
  - adjacent bigrams;
  - the `dict.get(k, 0) + 1` tally.
- `Categories`: `CATEGORY_MAP` and the resolution loop of `search`.
- `Records`: the row type and the approved-rows view.
- `SqlLike`: SQLite's `LIKE`.
- `Search`: `search` and `count_search_occurrences`.
- `Statistics`: `generate_statistics`.
- `Moderation`:
  - `contribute`, `manager_approve` and `manager_reject`;
  - the `Corpus` class holds the table and its next key value.
- `SeedCorpus`:
  - `count_words`, `get_unique_words` and `extract_word_pairs`;
  - the aggregation loop of `init_db.py`.

Where the code has a loop, the model has a method. Each method is proved equal to a specification function, and lemmas state what the source promises about that function. The loops are:

- the category loop;
- the statistics accumulator;
- the occurrence counter;
- the loop that builds the result list of a search page;
- the nested loops of `extract_word_pairs`;
- the seed aggregation.

Approve and reject update the status column in place. They are methods of `Corpus`.

Where the intended behaviour and the code differ, the model follows the code:

- `total_pages` is `(n + 9) // 10`. For no results it is 0, not 1.
- The query is one raw `LIKE` substring. There is no phrase syntax, no `key:value` filter, no snippet and no highlighting.
- A category search needs the whole lower-cased query to equal a key or a display name. The first entry in map order wins.

## Model

| member | source | states |
|---|---|---|
| Tokenizer.ExtractWords | app.py:344-349 | every token is three or more lower-case ASCII letters; an empty text gives no tokens |
| Tokenizer.ExtractWordsAround | app.py:348-349 | a non-word character splits the text: the tokens of the whole are the left part's tokens followed by the right part's, so token order is source order |
| Tokenizer.ExtractWordsOfRun | app.py:348-349 | one run of word characters gives its lower-case form if it is all ASCII letters and longer than two, otherwise nothing |
| Tokenizer.ExtractWordsGlued | app.py:348 | a letter run touching a digit, `_` or a non-ASCII letter is dropped whole (`abc1` gives nothing) |
| Tokenizer.ExtractWordsOfJoin | app.py:348-349 | tokenizing the space-joined tokens gives the same tokens back |
| Tokenizer.ExtractWordsIdempotent | app.py:344-349 | tokenizing the tokenizer's own space-joined output reproduces it |
| Categories.FirstMatch | app.py:682-687 | the scan of `CATEGORY_MAP` (app.py:29-37, the constant `CategoryMap`, seven entries in insertion order) for the first entry whose key, English name or isiZulu name equals the lower-cased query; its meaning is proved in `FirstMatchIsFirst` and `CategorySearchIffName` |
| Categories.ResolveCategory | app.py:682-687 | the `for … break` loop returns the key of the first entry, in map order, that the lower-cased query names exactly (key, English or isiZulu name); it returns none exactly when no entry is named |
| Categories.FirstMatchIsFirst | app.py:683-687 | the resolved key belongs to an entry that names the query and follows only entries that do not; no key means no entry names the query |
| Categories.CategorySearchIffName | app.py:683-686 | a query makes a category search exactly when its lower-cased form is one of the category names, so partial matches and extra words never do |
| Categories.NameResolvesToOwnKey | app.py:682-687 | resolution ignores letter case: a query whose lower-cased form is one of an entry's names (so the key or either display name written in any case) resolves to that entry's key |
| Categories.NamesDisjoint | app.py:29-37 | no name belongs to two entries, so map order never decides between them |
| Categories.NamesOfMap | app.py:29-37 | the names each of the seven entries answers to |
| Categories.DisplayNamesLowerCase | app.py:29-37 | every display name is already lower case, so `.lower()` on it changes nothing |
| SqlLike.Like | app.py:725-743 | SQL `LIKE` (and `ILIKE`, taken as the same matcher): `%` matches any run of characters, `_` any one character, ASCII letters compare without case; `%query%` is proved to mean substring in `ContainsPatternMeansSubstring` |
| SqlLike.ContainsPatternMeansSubstring | app.py:725 | for a query without `%` or `_`, the pattern `%query%` matches a field exactly when the field contains the query, ignoring ASCII case |
| SqlLike.PercentMatchesAll | app.py:725 | `%` alone matches every text |
| Records.ApprovedRows | app.py:361-365 | the rows read with `status = 'approved'` are table rows with that status, and every approved row is among them |
| Search.TextMatches | app.py:725-743 | the text `WHERE` clause: `%query%` matches title, English title, content, English content or full text, a NULL full text never matching; proved componentwise in `SearchRowsExact` |
| Search.SearchOutcome | app.py:662-794 | the route's result as a function of the table, the query and the page: no results for an empty query, otherwise the selection, `ORDER BY id DESC`, the page and the occurrence count; `Search.Search` is proved equal to it and `SearchPage` states its properties |
| Search.Matching | app.py:691-760 | a selection keeps table rows that satisfy it, and every such row |
| Search.SortByIdDesc | app.py:758 | `ORDER BY id DESC` returns the same rows (as a multiset) in non-increasing id order |
| Search.SortStrict | app.py:758 | with unique ids, the order is strictly descending |
| Search.PageOf | app.py:689 | `LIMIT 10 OFFSET (page-1)*10`: at most ten rows, starting at the offset; nothing past the end |
| Search.PageCountIsCeiling | app.py:794 | `total_pages` is the ceiling of `total_results / 10`, and 0 exactly when there are no results |
| Search.RowOnItsPage | app.py:689 | the row at index `i` is shown on page `i / 10 + 1`, at position `i % 10`, and that page is within `total_pages` |
| Search.PagesBeyondCountEmpty | app.py:794 | a page past `total_pages` shows no rows |
| Search.Hits | app.py:764-784 | one result per fetched row, in the same order, with that row's id and the seven displayed columns |
| Search.CollectHits | app.py:764-784 | the `for row in rows: results.append(...)` loop leaves exactly `Hits(rows)`: one result per fetched row, in order |
| Search.CountSearchOccurrences | app.py:434-465 | the loop adds, over the approved rows, the non-overlapping occurrences of the lower-cased query in the lower-cased six-field text |
| Search.TotalOccurrencesAppend | app.py:451-459 | the total over two row sequences is the sum of their totals |
| Search.TotalOccurrencesPositiveIff | app.py:451-459 | for a non-empty query the total is positive exactly when some row's combined text contains the query, ignoring case |
| Search.Search | app.py:662-794 | the route's result equals the selection, ordering, paging and counting specification; an empty query gives no results, no total and no pages |
| Search.SearchRowsExact | app.py:691-760 | a row is found exactly when it is in the table and approved, and either its category is the resolved key or, with no key, the `LIKE` pattern `%query%` matches one of the five searched fields (a NULL full text never matches) |
| Search.SearchPage | app.py:689-794 | `total_results` is the number of matching rows; the page holds at most ten of them, taken from offset `(page-1)*10` of the id-descending order, with strictly descending ids; the totals do not depend on the page |
| Search.CategorySearchCountsNothing | app.py:786-788 | a search is a category search exactly when the query is a category name, and then no occurrences are counted |
| Search.UnapprovedInvisible | app.py:695-760 | adding a pending or rejected row changes no search result |
| Search.MatchHasOccurrence | app.py:725-788 | a row found by a wildcard-free text query contributes at least one counted occurrence |
| Text.CountOccurrences | app.py:459 | `str.count`: non-overlapping occurrences scanned from the left, `len(s) + 1` for an empty needle; its meaning is proved in `CountPositiveIffContains` and `CountFits` |
| Text.Split | init_db.py:81-83 | `str.split()`: the maximal runs of non-whitespace characters; every token is non-empty and free of whitespace |
| Text.Strip | app.py:616-623 | `str.strip()`: the text without leading and trailing whitespace; `StripIsTrim` proves the result is the piece of the text between its first and last non-whitespace character |
| Text.CountPositiveIffContains | app.py:459 | `str.count` of a non-empty string is positive exactly when the string occurs |
| Text.CountFits | app.py:459 | counted occurrences do not overlap: their total length fits in the text |
| Text.StripIdempotent | app.py:616-623 | stripping twice is stripping once |
| Statistics.WordTable | app.py:389-390 | `Counter(words).most_common(20)`; proved in `WordTableCounts` |
| Statistics.PairTable | app.py:393-404 | `Counter(zip(words[:-1], words[1:])).most_common(10)` when there are at least two tokens, otherwise empty; proved in `PairTableCounts` |
| Statistics.StatisticsOf | app.py:351-428 | the statistics of the approved rows: counts and sums, the two word tables, the two pair tables and the average; `GenerateStatistics` is proved equal to it |
| Statistics.GenerateStatistics | app.py:351-428 | the accumulation loop and the tables built from it equal the statistics specification of the approved rows; `total_texts` is the number of approved rows |
| Statistics.Accumulate | app.py:367-383 | the accumulation loop leaves the sums of the stored word counts (NULL read as 0) and the concatenations of the `" {title} {content} {full_content}"` pieces of every row, in table order |
| Statistics.TokensStayInTheirRecord | app.py:377-387 | tokenizing the concatenated text gives each row's tokens in row order; no token spans two rows |
| Statistics.WordTableCounts | app.py:389-390 | a word table lists `min(20, distinct tokens)` distinct tokens, each with its exact count, by descending count with ties in first-occurrence order |
| Statistics.WordTableTokens | app.py:386-390 | a word table lists only tokens |
| Statistics.PairTableCounts | app.py:393-404 | a pair table is empty for fewer than two tokens; otherwise it lists `min(10, distinct bigrams)` distinct adjacent pairs, each with its exact number of adjacent positions, by descending count with ties in first-occurrence order |
| Statistics.AverageGuard | app.py:418 | the divisor `max(total_texts, 1)` is at least 1, the average times it is the word total, and with no texts the average is the word total |
| Statistics.UnapprovedChangesNothing | app.py:361-365 | a row that is not approved changes no statistic |
| Statistics.ApprovedRowExtends | app.py:373-383 | one more approved row adds its stored counts (NULL as 0) to the totals and its tokens to the end of each stream |
| Counting.MostCommon | app.py:389-390 | `most_common(n)`: at most `n` entries of the counter sorted by descending count, ties kept in first-seen order; proved in `MostCommonOfCounter` and `MostCommonComplete` |
| Counting.Tally | init_db.py:193-200 | the `dict.get(x, 0) + 1` tally over a sequence; proved in `TallyCounts` |
| Counting.Bigrams | app.py:395-396 | `zip(words[:-1], words[1:])`: one pair per adjacent position, `len(words) - 1` of them |
| Counting.CounterOf | app.py:389 | a `Counter` has one entry per distinct element, in first-occurrence order, with its exact count |
| Counting.MostCommonOfCounter | app.py:389-390 | `most_common(n)` has `min(n, distinct)` distinct entries with exact counts, ordered by descending count and then first occurrence |
| Counting.MostCommonComplete | app.py:389-390 | an element left out of `most_common(n)` comes after all `n` listed entries in that order |
| Counting.BigramCount | app.py:397-398 | a pair's count among the bigrams is the number of positions where its two words are adjacent |
| Counting.TallyCounts | init_db.py:195 | a tally has exactly the tallied elements as keys, each with its count |
| Moderation.Stripped | app.py:617-624 | every form field with its surrounding whitespace removed, a missing field read as empty |
| Moderation.Contribution | app.py:636-651 | the row a complete submission becomes: the stripped fields, `word_count` and `unique_words` of `f"{content} {full_content}".split()`, the user and status pending; see `ContributionCounts` and `ContributionIsPending` |
| Moderation.ContributionCounts | app.py:636-639 | `word_count` is the number of whitespace tokens of content plus full text; `unique_words` never exceeds it |
| Moderation.Corpus.Contribute | app.py:615-651 | fields are stripped; if a required field is empty nothing is written; otherwise one pending row with the computed counts is appended under the next key, and the key stays unique |
| Moderation.Corpus.Insert | app.py:641-651 | the row is appended under the next key value, which then advances |
| Moderation.Corpus.Approve | app.py:926-929 | the status of every row with that id becomes approved; all else is unchanged and ids stay unique |
| Moderation.Corpus.Reject | app.py:949-952 | the status of every row with that id becomes rejected; all else is unchanged and ids stay unique |
| Moderation.WithStatus | app.py:927-929 | `UPDATE … SET status WHERE id`: same length; a row changes, and only in its status, exactly when its id matches |
| Moderation.WithStatusKeepsIds | app.py:927-929 | a status update keeps every id, so unique ids stay unique |
| Moderation.LastUpdateWins | app.py:950-952 | there is no guard on the current status: the second update of an id overrides the first |
| Moderation.UpdatesCommute | app.py:927-929 | updates of different ids commute |
| Moderation.ApproveShowsRow | app.py:927-929 | after approval the row, with its fields unchanged, is among the approved rows |
| Moderation.ApproveAddsRows | app.py:927-929 | after approving an id the approved rows are exactly the rows that were approved or carry that id, in table order, those with the id now approved and otherwise unchanged |
| Moderation.RejectHidesRow | app.py:950-952 | after rejection the approved rows are the old approved rows without that id |
| Moderation.ContributionIsPending | app.py:644-651 | a contribution is pending, so it adds nothing to the approved rows; its unique count is at most its word count |
| SeedCorpus.CountWords | init_db.py:81-83 | `count_words`: the number of whitespace tokens; additive over a space join (`CountWordsAround`) |
| SeedCorpus.UniqueWords | init_db.py:85-88 | `get_unique_words`: the set of lower-cased whitespace tokens; characterised in `UniqueWordsOfText` |
| SeedCorpus.CountWordsAround | init_db.py:81-83 | the word count of two texts joined by a space is the sum of their counts |
| SeedCorpus.UniqueWordsOfText | init_db.py:85-88 | the unique set holds exactly the lower-cased whitespace tokens, and it is no larger than `count_words` |
| SeedCorpus.ExtractWordPairs | init_db.py:90-100 | the function equals the pair specification of the lower-cased tokens |
| SeedCorpus.PairWords | init_db.py:93-100 | the nested loops emit the pairs at the specified positions, in order |
| SeedCorpus.PairRow | init_db.py:96-98 | one pass of the inner loop adds exactly the pairs of row `i`: every later word within the distance that differs from word `i`, in order |
| SeedCorpus.WordPairsExact | init_db.py:90-100 | the pairs are `(w[i], w[j])` for exactly those `i < j <= i + d` with `j < len(w)` and `w[i] != w[j]`, ordered by `i` and then `j` |
| SeedCorpus.PositionsOrdered | init_db.py:95-96 | the emitted positions increase lexicographically |
| SeedCorpus.PositionsComplete | init_db.py:95-98 | every qualifying position pair is emitted |
| SeedCorpus.WordPairsBound | init_db.py:95-96 | at most `d` pairs come from each first position |
| SeedCorpus.WordPairsShape | init_db.py:95-98 | no pair has equal components, and there are at most `3 * len(words)` pairs |
| SeedCorpus.AggregateSeed | init_db.py:175-210 | `word_freq` tallies the long tokens of every text; `word_pairs_freq` tallies the long-component pairs emitted for every text; it also computes the word total, the union of unique sets, the row counts and the average |
| SeedCorpus.BumpLongWords | init_db.py:193-195 | the inner loop tallies exactly the tokens longer than two characters |
| SeedCorpus.BumpLongPairs | init_db.py:199-201 | the inner loop tallies exactly the pairs with both components longer than two characters |
| SeedCorpus.WordFreqExact | init_db.py:183-195 | `word_freq` has as keys exactly the tokens longer than two, each with its number of occurrences across all texts |
| SeedCorpus.AllPairsDistinct | init_db.py:198-201 | no emitted pair has equal components |
| SeedCorpus.PairFreqExact | init_db.py:198-201 | `word_pairs_freq` has as keys exactly the emitted pairs with both components longer than two, each with its emission count; no key has equal components |
| SeedCorpus.TotalsAgree | init_db.py:203-204 | the word total is the number of tokens across all texts, and the union of unique sets is no larger |
| SeedCorpus.RowCountsPerText | init_db.py:189-209 | each inserted row stores its text's `count_words` and the size of its unique set, which is no larger |
| SeedCorpus.AverageGuard | init_db.py:232 | `avg_word_length` is 0 exactly when the union is empty; otherwise it is `total_words / len(union)` |

## Left out

- Flask routes, templates, flash messages, sessions, login and manager guards, password hashing: UI and authentication. The search model takes the derived query and page as inputs. A POST query arrives stripped and a GET query raw; the page comes from `request.args.get('page', 1, type=int)`.
- Database connections, driver calls and the PostgreSQL/SQLite branching: I/O through a foreign driver. Where the backends differ, the model follows SQLite:
  - `LIKE` with `%` and `_` wildcards, no escape character, ASCII case-insensitive;
  - a negative `OFFSET` (page below 1) is read as 0.
- `ILIKE` on PostgreSQL is taken to be the same matcher.
- The row order of a `SELECT` without `ORDER BY` is taken to be table order.
- Case folding and `\w` are approximated. `.lower()` is modelled as ASCII case folding. A word character is exactly an ASCII letter, digit or `_`, a character among ª µ º and ¹ ² ³ ¼ ½ ¾, or one in U+00C0–U+024F other than × and ÷. Python's Unicode `\w` accepts more, and the model treats those characters as non-word characters: Latin letters above U+024F (IPA Extensions from U+0250, Latin Extended Additional at U+1E00–U+1EFF such as `ạ`, Latin Extended-C, -D and -E, the ligatures at U+FB00), the letters of every other script, and non-ASCII digits. For example, Python's `extract_words("abcạ")` is `[]` (one word run, not all ASCII letters), while the model gives `["abc"]`.
- `extract_words(None)`: the model's text is always a string. The empty string gives `[]`, like `None` does.
- Floating-point division is modelled as exact `real` division.
- `last_updated` (the clock) and the `GROUP BY category` counts in `generate_statistics`: a clock and a SQL aggregate.
- The home page, the manager dashboard, the pending list, the detail page and `get_pending_count`: read-only queries for display.
- `contribute` writes whatever category the form sends, and the model does the same. The key the database's `AUTOINCREMENT` assigns is the `nextId` field of `Corpus`, which `Valid()` keeps above every stored id; the session's user id is a parameter.
- `init_db.py`:
  - file removal, the `CREATE TABLE` and `INSERT` statements, and the word-frequency and pair tables it writes;
  - its own `CATEGORY_MAP` and its `en_words`, which are computed but never used;
  - the sample texts themselves: the aggregation is proved for any list of texts.
- The other scripts (`migrate_to_postgres.py`, `safe_init_db.py`, `reset_database.py`): database I/O only.
- Search.MatchHasOccurrence: holds only for a query without `%` or `_`. A query such as `a%b` selects rows through the `LIKE` wildcards, but `str.count` looks for it literally, so the occurrence total can be 0 for a non-empty result list.
