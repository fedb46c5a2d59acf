/** The word extractor used for the frequency tables (`extract_words`). */
module Tokenizer {
  import opened Text
  import opened Seqs

  predicate AllAsciiLetters(w: string) {
    forall i :: 0 <= i < |w| ==> IsAsciiLetter(w[i])
  }

  /** A token the frequency tables keep: at least three lower-case ASCII
      letters. */
  predicate IsToken(w: string) {
    |w| >= 3 && forall i :: 0 <= i < |w| ==> IsAsciiLower(w[i])
  }

  predicate LongEnough(w: string) { |w| > 2 }

  /** What `re.findall(r'\b[a-zA-Z]+\b', s)` returns. A match must start and
      end at a `\b`, that is next to a non-word character or an end of the
      text, and consist of ASCII letters only; so the matches are exactly the
      maximal runs of word characters that hold nothing but ASCII letters. A
      run that also holds a digit, an underscore or a non-ASCII letter yields
      no match at all: it is not trimmed to its letters. */
  function LetterRuns(s: string): seq<string> {
    Filter(Runs(s, IsWordChar), AllAsciiLetters)
  }

  /** `extract_words(text)`: lower-case the text, take the letter runs and
      keep those longer than two characters. */
  function ExtractWords(text: string): (ws: seq<string>)
    ensures text == [] ==> ws == []
    ensures forall k :: 0 <= k < |ws| ==> IsToken(ws[k])
  {
    if text == [] then []
    else
      RunsLower(text, IsWordChar);
      Filter(LetterRuns(Lower(text)), LongEnough)
  }

  /** A non-word character between two texts separates their words: the
      words of the whole are the words of the left part followed by those of
      the right part. */
  lemma ExtractWordsAround(a: string, c: char, b: string)
    requires !IsWordChar(c)
    ensures ExtractWords(a + [c] + b) == ExtractWords(a) + ExtractWords(b)
  {
    LowerAppend(a + [c], b);
    LowerAppend(a, [c]);
    assert Lower([c]) == [LowerChar(c)];
    var la, lb := Lower(a), Lower(b);
    assert Lower(a + [c] + b) == la + [LowerChar(c)] + lb;
    RunsAround(la, LowerChar(c), lb, IsWordChar);
    FilterAppend(Runs(la, IsWordChar), Runs(lb, IsWordChar), AllAsciiLetters);
    FilterAppend(LetterRuns(la), LetterRuns(lb), LongEnough);
  }

  /** A single run of word characters gives one word, its lower-case form,
      when it is made of ASCII letters and longer than two characters; any
      other run gives nothing (`abc1`, `ab`, `naïve` all give nothing). */
  lemma ExtractWordsOfRun(w: string)
    requires w != []
    requires forall i :: 0 <= i < |w| ==> IsWordChar(w[i])
    ensures ExtractWords(w) == if AllAsciiLetters(w) && |w| > 2 then [Lower(w)] else []
  {
    var lw := Lower(w);
    RunsOfOneRun(lw, IsWordChar);
    assert AllAsciiLetters(lw) == AllAsciiLetters(w);
  }

  /** A token on its own is its only word. */
  lemma ExtractWordsOfToken(w: string)
    requires IsToken(w)
    ensures ExtractWords(w) == [w]
  {
    assert forall i :: 0 <= i < |w| ==> IsWordChar(w[i]) && IsAsciiLetter(w[i]);
    LowerOfLowerCase(w);
    ExtractWordsOfRun(w);
  }

  /** Re-tokenizing the space-joined output gives the same output. */
  lemma {:induction false} ExtractWordsOfJoin(ws: seq<string>)
    requires forall k :: 0 <= k < |ws| ==> IsToken(ws[k])
    ensures ExtractWords(Join(ws, ' ')) == ws
  {
    if ws != [] {
      var w := ws[0];
      ExtractWordsOfToken(w);
      if |ws| > 1 {
        ExtractWordsAround(w, ' ', Join(ws[1..], ' '));
        ExtractWordsOfJoin(ws[1..]);
        assert ws == [w] + ws[1..];
      }
    }
  }

  lemma ExtractWordsIdempotent(text: string)
    ensures ExtractWords(Join(ExtractWords(text), ' ')) == ExtractWords(text)
  {
    ExtractWordsOfJoin(ExtractWords(text));
  }

  /** A letter run glued to a digit, an underscore or a non-ASCII letter is
      dropped whole, not trimmed to its letters (`abc1` gives nothing). */
  lemma ExtractWordsGlued(w: string, c: char)
    requires forall i :: 0 <= i < |w| ==> IsAsciiLetter(w[i])
    requires IsWordChar(c) && !IsAsciiLetter(c)
    ensures ExtractWords(w + [c]) == [] && ExtractWords([c] + w) == []
  {
    ExtractWordsOfRun(w + [c]);
    assert !AllAsciiLetters(w + [c]) by {
      assert (w + [c])[|w|] == c;
    }
    ExtractWordsOfRun([c] + w);
    assert !AllAsciiLetters([c] + w) by {
      assert ([c] + w)[0] == c;
    }
  }
}
