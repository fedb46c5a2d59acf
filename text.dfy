/** Characters, ASCII case folding, Python's whitespace splitting and
    stripping, substring search and Python's `str.count`. */
module Text {

  predicate IsAsciiUpper(c: char) { 'A' <= c <= 'Z' }

  predicate IsAsciiLower(c: char) { 'a' <= c <= 'z' }

  /** The class `[a-zA-Z]` of the tokenizer's regular expression. */
  predicate IsAsciiLetter(c: char) { IsAsciiUpper(c) || IsAsciiLower(c) }

  predicate IsAsciiDigit(c: char) { '0' <= c <= '9' }

  /** The non-ASCII characters below U+0250 that Python's `\w` accepts:
      the Latin-1 letters and digit-like signs and the Latin Extended-A and
      Extended-B letters. */
  predicate IsLatinWordChar(c: char) {
    var n := c as int;
    n == 0xAA || n == 0xB2 || n == 0xB3 || n == 0xB5 || n == 0xB9 || n == 0xBA
    || (0xBC <= n <= 0xBE) || (0xC0 <= n <= 0xD6) || (0xD8 <= n <= 0xF6)
    || (0xF8 <= n <= 0x24F)
  }

  /** Python's Unicode `\w`, the class that decides where `\b` falls:
      letters, digits and the underscore. */
  predicate IsWordChar(c: char) {
    IsAsciiLetter(c) || IsAsciiDigit(c) || c == '_' || IsLatinWordChar(c)
  }

  /** Python's `str.isspace`, which `str.split()` and `str.strip()` use. */
  predicate IsSpace(c: char) {
    var n := c as int;
    (0x09 <= n <= 0x0D) || (0x1C <= n <= 0x20) || n == 0x85 || n == 0xA0
    || n == 0x1680 || (0x2000 <= n <= 0x200A) || n == 0x2028 || n == 0x2029
    || n == 0x202F || n == 0x205F || n == 0x3000
  }

  predicate NotSpace(c: char) { !IsSpace(c) }

  /** ASCII lower-casing of one character. */
  function LowerChar(c: char): (d: char)
    ensures IsAsciiLetter(c) ==> IsAsciiLower(d)
    ensures !IsAsciiUpper(c) ==> d == c
    ensures IsWordChar(d) == IsWordChar(c) && IsSpace(d) == IsSpace(c)
    ensures IsAsciiLetter(d) == IsAsciiLetter(c)
  {
    if IsAsciiUpper(c) then (c as int + 32) as char else c
  }

  /** `str.lower()`, restricted to ASCII case folding. */
  function Lower(s: string): (r: string)
    ensures |r| == |s|
    ensures forall i :: 0 <= i < |s| ==> r[i] == LowerChar(s[i])
  {
    seq(|s|, i requires 0 <= i < |s| => LowerChar(s[i]))
  }

  /** Text without upper-case ASCII letters is its own lower case. */
  lemma LowerOfLowerCase(s: string)
    requires forall i :: 0 <= i < |s| ==> !IsAsciiUpper(s[i])
    ensures Lower(s) == s
  {
  }

  lemma LowerAppend(a: string, b: string)
    ensures Lower(a + b) == Lower(a) + Lower(b)
  {
  }

  lemma LowerIdempotent(s: string)
    ensures Lower(Lower(s)) == Lower(s)
  {
  }

  /** Length of the longest prefix of `s` whose characters all satisfy `inRun`. */
  function RunLength(s: string, inRun: char -> bool): (n: nat)
    ensures n <= |s|
    ensures forall i :: 0 <= i < n ==> inRun(s[i])
    ensures n < |s| ==> !inRun(s[n])
  {
    if s == [] || !inRun(s[0]) then 0 else 1 + RunLength(s[1..], inRun)
  }

  /** The maximal runs of characters satisfying `inRun`, left to right.
      With `NotSpace` this is Python's `str.split()`; with `IsWordChar` it
      is the text cut at the `\b` boundaries of a regular expression. */
  function Runs(s: string, inRun: char -> bool): (r: seq<string>)
    ensures forall k :: 0 <= k < |r| ==> r[k] != []
    ensures forall k, i :: 0 <= k < |r| && 0 <= i < |r[k]| ==> inRun(r[k][i])
    decreases |s|
  {
    if s == [] then []
    else if !inRun(s[0]) then Runs(s[1..], inRun)
    else
      var n := RunLength(s, inRun);
      [s[..n]] + Runs(s[n..], inRun)
  }

  lemma {:induction false} RunLengthAppend(a: string, b: string, inRun: char -> bool)
    requires b == [] || !inRun(b[0])
    ensures RunLength(a + b, inRun) == RunLength(a, inRun)
  {
    if a == [] {
      assert a + b == b;
    } else if inRun(a[0]) {
      assert (a + b)[1..] == a[1..] + b;
      RunLengthAppend(a[1..], b, inRun);
    }
  }

  lemma SliceAppend(a: string, t: string, n: nat)
    requires n <= |a|
    ensures (a + t)[..n] == a[..n]
    ensures (a + t)[n..] == a[n..] + t
  {
  }

  /** A text that opens outside the run class ends any run before it, so
      the runs of `a + t` are those of `a` followed by those of `t`. */
  lemma {:induction false} RunsSplit(a: string, t: string, inRun: char -> bool)
    requires t != [] && !inRun(t[0])
    ensures Runs(a + t, inRun) == Runs(a, inRun) + Runs(t, inRun)
    decreases |a|
  {
    if a == [] {
      assert a + t == t;
    } else if !inRun(a[0]) {
      assert (a + t)[1..] == a[1..] + t;
      RunsSplit(a[1..], t, inRun);
    } else {
      var n := RunLength(a, inRun);
      RunsOpening(a, t, inRun);
      RunsSplit(a[n..], t, inRun);
      var ra := Runs(a[n..], inRun);
      var rt := Runs(t, inRun);
      assert Runs(a, inRun) == [a[..n]] + ra;
      assert [a[..n]] + (ra + rt) == ([a[..n]] + ra) + rt;
    }
  }

  /** A separator that is outside the run class cuts the text into two
      independently split halves. */
  lemma RunsAround(a: string, c: char, b: string, inRun: char -> bool)
    requires !inRun(c)
    ensures Runs(a + [c] + b, inRun) == Runs(a, inRun) + Runs(b, inRun)
  {
    var t := [c] + b;
    RunsSplit(a, t, inRun);
    assert a + [c] + b == a + t;
    assert t[1..] == b;
  }

  /** A text that opens with a run, followed by a text that does not, cuts
      into the first run and the runs of the rest. */
  lemma RunsOpening(a: string, t: string, inRun: char -> bool)
    requires a != [] && inRun(a[0]) && t != [] && !inRun(t[0])
    ensures Runs(a + t, inRun) == [a[..RunLength(a, inRun)]] + Runs(a[RunLength(a, inRun)..] + t, inRun)
  {
    RunLengthAppend(a, t, inRun);
    SliceAppend(a, t, RunLength(a, inRun));
  }

  /** A non-empty text made only of run characters is a single run. */
  lemma {:induction false} RunsOfOneRun(w: string, inRun: char -> bool)
    requires w != []
    requires forall i :: 0 <= i < |w| ==> inRun(w[i])
    ensures Runs(w, inRun) == [w]
  {
    assert RunLength(w, inRun) == |w|;
    assert w[..|w|] == w && w[|w|..] == [];
  }

  /** Each string of `ws` lower-cased. */
  function LowerEach(ws: seq<string>): (r: seq<string>)
    ensures |r| == |ws|
    ensures forall k :: 0 <= k < |ws| ==> r[k] == Lower(ws[k])
  {
    if ws == [] then [] else [Lower(ws[0])] + LowerEach(ws[1..])
  }

  /** Lower-casing commutes with cutting into runs when the run class does
      not depend on case. */
  lemma {:induction false} RunsLower(s: string, inRun: char -> bool)
    requires forall c :: inRun(LowerChar(c)) == inRun(c)
    ensures Runs(Lower(s), inRun) == LowerEach(Runs(s, inRun))
    decreases |s|
  {
    var ls := Lower(s);
    if s != [] {
      assert inRun(ls[0]) == inRun(s[0]);
      if !inRun(s[0]) {
        assert ls[1..] == Lower(s[1..]);
        RunsLower(s[1..], inRun);
      } else {
        var n := RunLengthLower(s, inRun);
        assert ls[..n] == Lower(s[..n]);
        assert ls[n..] == Lower(s[n..]);
        RunsLower(s[n..], inRun);
        var rs := Runs(s, inRun);
        assert rs == [s[..n]] + Runs(s[n..], inRun);
        assert rs[1..] == Runs(s[n..], inRun);
      }
    }
  }

  lemma {:induction false} RunLengthLower(s: string, inRun: char -> bool) returns (n: nat)
    requires forall c :: inRun(LowerChar(c)) == inRun(c)
    ensures n == RunLength(s, inRun) == RunLength(Lower(s), inRun)
    decreases |s|
  {
    if s == [] || !inRun(s[0]) {
      n := 0;
    } else {
      assert Lower(s)[1..] == Lower(s[1..]);
      var m := RunLengthLower(s[1..], inRun);
      n := m + 1;
    }
  }

  /** `sep.join(ws)` for a one-character separator. */
  function Join(ws: seq<string>, sep: char): string {
    if ws == [] then []
    else if |ws| == 1 then ws[0]
    else ws[0] + [sep] + Join(ws[1..], sep)
  }

  // ---------------------------------------------------------------- split

  /** Python's `str.split()` with no separator: the maximal runs of
      non-whitespace characters. */
  function Split(s: string): (r: seq<string>)
    ensures forall k :: 0 <= k < |r| ==> r[k] != []
    ensures forall k, i :: 0 <= k < |r| && 0 <= i < |r[k]| ==> !IsSpace(r[k][i])
  {
    Runs(s, NotSpace)
  }

  lemma SplitAround(a: string, c: char, b: string)
    requires IsSpace(c)
    ensures Split(a + [c] + b) == Split(a) + Split(b)
  {
    RunsAround(a, c, b, NotSpace);
  }

  /** `s.lower().split()` is `s.split()` with each token lower-cased. */
  lemma SplitLower(s: string)
    ensures |Split(Lower(s))| == |Split(s)|
    ensures forall k :: 0 <= k < |Split(s)| ==> Split(Lower(s))[k] == Lower(Split(s)[k])
  {
    RunsLower(s, NotSpace);
  }

  // ---------------------------------------------------------------- strip

  /** `s` without its leading characters satisfying `drop`. */
  function TrimStart(s: string, drop: char -> bool): (r: string)
    ensures |r| <= |s| && r == s[|s| - |r|..]
    ensures r == [] || !drop(r[0])
    ensures forall i :: 0 <= i < |s| - |r| ==> drop(s[i])
  {
    if s != [] && drop(s[0]) then TrimStart(s[1..], drop) else s
  }

  /** `s` without its trailing characters satisfying `drop`. */
  function TrimEnd(s: string, drop: char -> bool): (r: string)
    ensures |r| <= |s| && r == s[..|r|]
    ensures r == [] || !drop(r[|r| - 1])
    ensures forall i :: |r| <= i < |s| ==> drop(s[i])
  {
    if s != [] && drop(s[|s| - 1]) then TrimEnd(s[..|s| - 1], drop) else s
  }

  /** Python's `str.strip()` with no argument. */
  function Strip(s: string): string {
    TrimEnd(TrimStart(s, IsSpace), IsSpace)
  }

  /** A prefix of a suffix of `s` is a slice of `s`. */
  lemma PrefixOfSuffix(s: string, t: string, r: string, i: nat)
    requires i <= |s| && t == s[i..] && |r| <= |t| && r == t[..|r|]
    ensures i + |r| <= |s| && r == s[i..i + |r|]
  {
  }

  /** Trimming both ends keeps the piece of `s` from the first to the last
      kept character; everything cut off satisfies `drop`. Here `t` is `s`
      trimmed at the start and `r` is `t` trimmed at the end, given by the
      contracts of `TrimStart` and `TrimEnd`. */
  lemma TrimIsPiece(s: string, drop: char -> bool, t: string, r: string)
    requires |t| <= |s| && t == s[|s| - |t|..] && (t == [] || !drop(t[0]))
    requires forall k :: 0 <= k < |s| - |t| ==> drop(s[k])
    requires |r| <= |t| && r == t[..|r|] && (r == [] || !drop(r[|r| - 1]))
    requires forall k :: |r| <= k < |t| ==> drop(t[k])
    ensures |s| - |t| + |r| <= |s| && r == s[|s| - |t|..|s| - |t| + |r|]
    ensures forall k :: |s| - |t| + |r| <= k < |s| ==> drop(s[k])
    ensures r == [] || (!drop(r[0]) && !drop(r[|r| - 1]))
  {
    var i := |s| - |t|;
    PrefixOfSuffix(s, t, r, i);
    forall k | i + |r| <= k < |s|
      ensures drop(s[k])
    {
      assert s[k] == t[k - i];
    }
    if r != [] {
      assert r[0] == t[0];
    }
  }

  /** The number of leading whitespace characters of `s`. */
  function LeadingSpace(s: string): nat {
    |s| - |TrimStart(s, IsSpace)|
  }

  /** The stripped text is `s` without its leading and trailing whitespace:
      the piece of `s` from the first to the last non-whitespace character,
      everything cut off being whitespace. */
  lemma StripIsTrim(s: string)
    ensures LeadingSpace(s) + |Strip(s)| <= |s|
    ensures Strip(s) == s[LeadingSpace(s)..LeadingSpace(s) + |Strip(s)|]
    ensures forall k :: 0 <= k < LeadingSpace(s) ==> IsSpace(s[k])
    ensures forall k :: LeadingSpace(s) + |Strip(s)| <= k < |s| ==> IsSpace(s[k])
    ensures Strip(s) == [] || (!IsSpace(Strip(s)[0]) && !IsSpace(Strip(s)[|Strip(s)| - 1]))
  {
    TrimIsPiece(s, IsSpace, TrimStart(s, IsSpace), Strip(s));
  }

  /** Stripping is idempotent. */
  lemma StripIdempotent(s: string)
    ensures Strip(Strip(s)) == Strip(s)
  {
    var r := Strip(s);
    StripIsTrim(s);
    if r != [] {
      assert TrimStart(r, IsSpace) == r;
      assert TrimEnd(r, IsSpace) == r;
    }
  }

  // ---------------------------------------------------- substring, count

  predicate IsPrefix(p: string, s: string) {
    |p| <= |s| && s[..|p|] == p
  }

  /** `sub in s`. */
  predicate Contains(s: string, sub: string)
    decreases |s|
  {
    IsPrefix(sub, s) || (s != [] && Contains(s[1..], sub))
  }

  /** `sub` occurs in `s` starting at position `k`. */
  predicate OccursAt(s: string, sub: string, k: int) {
    0 <= k <= |s| - |sub| && s[k..k + |sub|] == sub
  }

  /** `Contains` means an occurrence at some position. */
  lemma {:induction false} ContainsAt(s: string, sub: string)
    ensures Contains(s, sub) <==> exists k :: OccursAt(s, sub, k)
    decreases |s|
  {
    if s != [] {
      ContainsAt(s[1..], sub);
      if exists k :: OccursAt(s, sub, k) {
        var k :| OccursAt(s, sub, k);
        if k > 0 {
          assert s[1..][k - 1..k - 1 + |sub|] == s[k..k + |sub|];
          assert OccursAt(s[1..], sub, k - 1);
        } else {
          assert IsPrefix(sub, s);
        }
      }
      if Contains(s[1..], sub) {
        var k :| OccursAt(s[1..], sub, k);
        assert s[k + 1..k + 1 + |sub|] == s[1..][k..k + |sub|];
        assert OccursAt(s, sub, k + 1);
      }
    } else {
      if exists k :: OccursAt(s, sub, k) {
        var k :| OccursAt(s, sub, k);
        assert IsPrefix(sub, s);
      }
    }
    if IsPrefix(sub, s) {
      assert OccursAt(s, sub, 0);
    }
  }

  lemma {:induction false} ContainsAppendLeft(a: string, b: string, sub: string)
    requires Contains(b, sub)
    ensures Contains(a + b, sub)
    decreases |a|
  {
    if a == [] {
      assert a + b == b;
    } else {
      assert (a + b)[1..] == a[1..] + b;
      ContainsAppendLeft(a[1..], b, sub);
    }
  }

  lemma {:induction false} ContainsAppendRight(a: string, b: string, sub: string)
    requires Contains(a, sub)
    ensures Contains(a + b, sub)
    decreases |a|
  {
    if IsPrefix(sub, a) {
      assert (a + b)[..|sub|] == a[..|sub|];
    } else {
      assert (a + b)[1..] == a[1..] + b;
      ContainsAppendRight(a[1..], b, sub);
    }
  }

  /** Python's `str.count(sub)`: non-overlapping occurrences scanned from
      the left; the empty string occurs `len(s) + 1` times. */
  function CountOccurrences(s: string, sub: string): nat
    decreases |s|
  {
    if sub == [] then |s| + 1
    else if |s| < |sub| then 0
    else if s[..|sub|] == sub then 1 + CountOccurrences(s[|sub|..], sub)
    else CountOccurrences(s[1..], sub)
  }

  /** A non-empty string is counted at least once exactly when it occurs. */
  lemma {:induction false} CountPositiveIffContains(s: string, sub: string)
    requires sub != []
    ensures CountOccurrences(s, sub) > 0 <==> Contains(s, sub)
    decreases |s|
  {
    if |s| >= |sub| && s[..|sub|] != sub {
      CountPositiveIffContains(s[1..], sub);
    } else if |s| < |sub| {
      NotContainsShort(s, sub);
    }
  }

  lemma {:induction false} NotContainsShort(s: string, sub: string)
    requires |s| < |sub|
    ensures !Contains(s, sub)
    decreases |s|
  {
    if s != [] {
      NotContainsShort(s[1..], sub);
    }
  }

  /** Counted occurrences do not overlap, so they fit in the string. */
  lemma {:induction false} CountFits(s: string, sub: string)
    requires sub != []
    ensures CountOccurrences(s, sub) * |sub| <= |s|
    decreases |s|
  {
    if |s| >= |sub| {
      if s[..|sub|] == sub {
        CountFits(s[|sub|..], sub);
      } else {
        CountFits(s[1..], sub);
      }
    }
  }
}
