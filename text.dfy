/**
 * The parts of Python's `str` that the transcript pipeline relies on:
 * `isspace`, `strip`, `split()` without a separator, `sep.join`,
 * `replace` of one character, the substring test `pat in s` and the
 * decimal rendering `str(n)` / `f"{n}"` of a natural number.
 */
module Text {
  import opened Wrappers
  import opened Seqs

  /** `c.isspace()` in Python: the Unicode whitespace characters. */
  predicate IsSpace(c: char) {
    ('\t' <= c <= '\r') || ('\U{1C}' <= c <= ' ') || c == '\U{85}' || c == '\U{A0}'
    || c == '\U{1680}' || ('\U{2000}' <= c <= '\U{200A}') || ('\U{2028}' <= c <= '\U{2029}')
    || c == '\U{202F}' || c == '\U{205F}' || c == '\U{3000}'
  }

  /** The narrow no-break space that some exports put before AM/PM. */
  const NarrowNoBreakSpace: char := '\U{202F}'

  // ---------------------------------------------------------------- strip

  /** The number of whitespace characters at the front of `s`. */
  function LeadingSpaces(s: string): (n: nat)
    ensures n <= |s|
    ensures forall j :: 0 <= j < n ==> IsSpace(s[j])
    ensures n < |s| ==> !IsSpace(s[n])
  {
    if s != [] && IsSpace(s[0]) then 1 + LeadingSpaces(s[1..]) else 0
  }

  /** The number of whitespace characters at the end of `s`. */
  function TrailingSpaces(s: string): (n: nat)
    ensures n <= |s|
    ensures forall j :: |s| - n <= j < |s| ==> IsSpace(s[j])
    ensures n < |s| ==> !IsSpace(s[|s| - n - 1])
  {
    if s != [] && IsSpace(s[|s| - 1]) then 1 + TrailingSpaces(s[..|s| - 1]) else 0
  }

  /** `s.lstrip()`: the suffix of `s` left after dropping its leading whitespace. */
  function StripLeft(s: string): string {
    s[LeadingSpaces(s)..]
  }

  /** `s.rstrip()`: the prefix of `s` left after dropping its trailing whitespace. */
  function StripRight(s: string): string {
    s[..|s| - TrailingSpaces(s)]
  }

  /** `s.strip()`: `s` without its leading and trailing whitespace. */
  function Strip(s: string): (r: string)
    ensures |r| <= |s|
    ensures r != [] ==> !IsSpace(r[0]) && !IsSpace(r[|r| - 1])
  {
    var l := StripLeft(s);
    var r := StripRight(l);
    assert r != [] ==> r[0] == l[0] == s[LeadingSpaces(s)];
    r
  }

  /**
   * What `strip` returns is a factor `s[i..][..|r|]` of `s` outside which
   * there is only whitespace, so it keeps only characters of `s`.
   */
  lemma StripFactor(s: string)
    ensures var r := Strip(s);
            (forall c :: c in r ==> c in s)
            && exists i :: 0 <= i <= |s| - |r| && s[i..][..|r|] == r
                           && (forall j :: 0 <= j < i ==> IsSpace(s[j]))
                           && (forall j :: i + |r| <= j < |s| ==> IsSpace(s[j]))
  {
    StripBothEnds(s);
  }

  /** `StripFactor` with its witness: the offset is the length of the leading whitespace. */
  lemma StripBothEnds(s: string)
    ensures var r := Strip(s);
            var i := LeadingSpaces(s);
            0 <= i <= |s| - |r| && s[i..][..|r|] == r
            && (forall c :: c in r ==> c in s)
            && (forall j :: 0 <= j < i ==> IsSpace(s[j]))
            && (forall j :: i + |r| <= j < |s| ==> IsSpace(s[j]))
  {
    var i := LeadingSpaces(s);
    var l := s[i..];
    var r := Strip(s);
    assert r == l[..|r|];
    forall j | i + |r| <= j < |s| ensures IsSpace(s[j]) {
      assert s[j] == l[j - i];
    }
    forall c | c in r ensures c in s {
      var k :| 0 <= k < |r| && r[k] == c;
      assert s[i + k] == c;
    }
  }

  /** A string with no whitespace at either end is its own strip. */
  lemma StripTrimmed(s: string)
    requires s != [] ==> !IsSpace(s[0]) && !IsSpace(s[|s| - 1])
    ensures Strip(s) == s
  {
    assert LeadingSpaces(s) == 0 && s[0..] == s;
    assert TrailingSpaces(s) == 0 && s[..|s|] == s;
  }

  /** Dropping leading whitespace first does not change what `strip` returns. */
  lemma StripAfterStripLeft(s: string)
    ensures Strip(StripLeft(s)) == Strip(s)
  {
    var l := StripLeft(s);
    assert LeadingSpaces(l) == 0 && l[0..] == l;
  }

  // ---------------------------------------------------------------- split

  /** A token of `split()`: non-empty and free of whitespace. */
  predicate IsWord(w: string) {
    w != [] && forall j :: 0 <= j < |w| ==> !IsSpace(w[j])
  }

  /** Length of the run of non-whitespace characters at the front of `s`. */
  function TokenLength(s: string): (n: nat)
    ensures n <= |s|
    ensures forall j :: 0 <= j < n ==> !IsSpace(s[j])
    ensures n < |s| ==> IsSpace(s[n])
  {
    if s == [] || IsSpace(s[0]) then 0 else 1 + TokenLength(s[1..])
  }

  /** `s.split()`: the maximal runs of non-whitespace characters, in order. */
  function Words(s: string): seq<string>
    decreases |s|
  {
    if s == [] then []
    else if IsSpace(s[0]) then Words(s[1..])
    else
      var n := TokenLength(s);
      [s[..n]] + Words(s[n..])
  }

  /** Every token of `split()` is non-empty and holds no whitespace. */
  lemma {:induction false} WordsAreWords(s: string)
    ensures forall k :: 0 <= k < |Words(s)| ==> IsWord(Words(s)[k])
    decreases |s|
  {
    if s != [] {
      if IsSpace(s[0]) {
        WordsAreWords(s[1..]);
      } else {
        var n := TokenLength(s);
        WordsAreWords(s[n..]);
        assert IsWord(s[..n]);
      }
    }
  }

  /** `len(s.split())`. */
  function WordCount(s: string): nat {
    |Words(s)|
  }

  /** A space between two texts separates their words: nothing merges across it and nothing is lost. */
  lemma {:induction false} WordsAroundSpace(a: string, b: string)
    ensures Words(a + [' '] + b) == Words(a) + Words(b)
    decreases |a|
  {
    var s := a + [' '] + b;
    if a == [] {
      assert s[1..] == b;
    } else if IsSpace(a[0]) {
      assert s[1..] == a[1..] + [' '] + b;
      WordsAroundSpace(a[1..], b);
    } else {
      var n := TokenLength(a);
      TokenBeforeSpace(a, b);
      SplitBeforeSpace(a, b, n);
      WordsAroundSpace(a[n..], b);
    }
  }

  /** A space after `a` ends the first token no later than the end of `a`. */
  lemma TokenBeforeSpace(a: string, b: string)
    ensures TokenLength(a + [' '] + b) == TokenLength(a)
  {
    var s, n := a + [' '] + b, TokenLength(a);
    assert forall j :: 0 <= j < n ==> s[j] == a[j];
    assert n < |s| && IsSpace(s[n]);
  }

  /** Cutting `a + [' '] + b` inside `a`. */
  lemma SplitBeforeSpace(a: string, b: string, n: nat)
    requires n <= |a|
    ensures (a + [' '] + b)[..n] == a[..n]
    ensures (a + [' '] + b)[n..] == a[n..] + [' '] + b
  {
    var s, t := a + [' '] + b, a[n..] + [' '] + b;
    assert forall j :: 0 <= j < |t| ==> s[n + j] == t[j];
  }

  // ----------------------------------------------------------------- join

  /** `sep.join(parts)`. */
  function Join(sep: string, parts: seq<string>): string
    decreases |parts|
  {
    if |parts| == 0 then ""
    else if |parts| == 1 then parts[0]
    else Join(sep, parts[..|parts| - 1]) + sep + parts[|parts| - 1]
  }

  /** Joining gives the empty string exactly for no parts or for one empty part. */
  lemma JoinEmpty(sep: string, parts: seq<string>)
    requires sep != ""
    ensures Join(sep, parts) == "" <==> parts == [] || parts == [""]
  {
  }

  /** Words of all the given texts, in order: `[w for t in ts for w in t.split()]`. */
  function AllWords(ts: seq<string>): seq<string> {
    FlatMap(ts, Words)
  }

  /** `sum(len(t.split()) for t in ts)`. */
  function TotalWords(ts: seq<string>): nat
    decreases |ts|
  {
    if ts == [] then 0 else TotalWords(ts[..|ts| - 1]) + WordCount(ts[|ts| - 1])
  }

  /** No single text has more words than all of them together. */
  lemma {:induction false} TotalWordsCoversEach(ts: seq<string>, i: nat)
    requires i < |ts|
    ensures WordCount(ts[i]) <= TotalWords(ts)
    decreases |ts|
  {
    if i < |ts| - 1 {
      TotalWordsCoversEach(ts[..|ts| - 1], i);
    }
  }

  /** The total word count is the length of the word list. */
  lemma {:induction false} TotalWordsCountsAllWords(ts: seq<string>)
    ensures TotalWords(ts) == |AllWords(ts)|
    decreases |ts|
  {
    if ts != [] {
      TotalWordsCountsAllWords(ts[..|ts| - 1]);
    }
  }

  /** The word list of a concatenation is the concatenation of the word lists. */
  lemma AllWordsAppend(a: seq<string>, b: seq<string>)
    ensures AllWords(a + b) == AllWords(a) + AllWords(b)
  {
    FlatMapAppend(a, b, Words);
  }

  /** Space-joining texts keeps exactly their words, in order. */
  lemma {:induction false} WordsOfSpaceJoin(parts: seq<string>)
    ensures Words(Join(" ", parts)) == AllWords(parts)
    decreases |parts|
  {
    if |parts| == 1 {
      assert parts[..0] == [];
      assert AllWords(parts) == AllWords(parts[..0]) + Words(parts[0]);
    } else if |parts| > 1 {
      var init := parts[..|parts| - 1];
      WordsOfSpaceJoin(init);
      WordsAroundSpace(Join(" ", init), parts[|parts| - 1]);
    }
  }

  // -------------------------------------------------------------- replace

  /** `s.replace(from, to)` for one-character `from` and `to`. */
  function ReplaceChar(s: string, from: char, to: char): (r: string)
    ensures |r| == |s|
    ensures from != to ==> from !in r
    ensures forall i :: 0 <= i < |s| && s[i] == from ==> r[i] == to
    ensures forall i :: 0 <= i < |s| && s[i] != from ==> r[i] == s[i]
  {
    seq(|s|, i requires 0 <= i < |s| => if s[i] == from then to else s[i])
  }

  /** Replacing a character that does not occur leaves the string as it is. */
  lemma ReplaceAbsent(s: string, from: char, to: char)
    requires from !in s
    ensures ReplaceChar(s, from, to) == s
  {
    var r := ReplaceChar(s, from, to);
    assert forall i :: 0 <= i < |s| ==> s[i] != from;
    assert forall i :: 0 <= i < |s| ==> r[i] == s[i];
  }

  // --------------------------------------------------------------- search

  /** `pat` occurs in `s` starting at index `j`. */
  predicate OccursAt(s: string, pat: string, j: nat) {
    j + |pat| <= |s| && s[j..j + |pat|] == pat
  }

  /** `pat` occurs at `j` and at no earlier index. */
  predicate FirstOccurrence(s: string, pat: string, j: nat) {
    OccursAt(s, pat, j) && forall i: nat :: i < j ==> !OccursAt(s, pat, i)
  }

  /** `pat in s`. */
  predicate Contains(s: string, pat: string) {
    exists j: nat :: j <= |s| && OccursAt(s, pat, j)
  }

  /**
   * The first index at which `pat` occurs in `s`, or `None` when it occurs
   * nowhere: where `': ' in content` looks and where `content.split(': ', 1)` cuts.
   */
  function IndexOf(s: string, pat: string): (r: Option<nat>)
    ensures r.Some? ==> OccursAt(s, pat, r.value) && forall j: nat :: j < r.value ==> !OccursAt(s, pat, j)
    ensures r.None? ==> forall j: nat :: !OccursAt(s, pat, j)
    decreases |s|
  {
    if |s| < |pat| then None
    else if s[..|pat|] == pat then Some(0)
    else
      OccursShift(s, pat);
      match IndexOf(s[1..], pat)
      case None => None
      case Some(i) => Some(i + 1)
  }

  /** The cut is made at the first occurrence whenever there is one, and there is none exactly when `pat in s` is false. */
  lemma IndexOfFirst(s: string, pat: string)
    ensures forall i: nat :: FirstOccurrence(s, pat, i) ==> IndexOf(s, pat) == Some(i)
    ensures IndexOf(s, pat).None? <==> !Contains(s, pat)
  {
    var r := IndexOf(s, pat);
    if r.Some? {
      forall i: nat | FirstOccurrence(s, pat, i) ensures r == Some(i) {
        assert OccursAt(s, pat, i) && OccursAt(s, pat, r.value);
        assert !(r.value < i) && !(i < r.value);
      }
    }
  }

  /** An occurrence past the first character is an occurrence in the tail. */
  lemma OccursShift(s: string, pat: string)
    requires s != []
    ensures forall j: nat :: 1 <= j ==> (OccursAt(s, pat, j) <==> OccursAt(s[1..], pat, j - 1))
  {
    forall j: nat | 1 <= j
      ensures OccursAt(s, pat, j) <==> OccursAt(s[1..], pat, j - 1)
    {
      if j + |pat| <= |s| {
        var a, b := s[j..j + |pat|], s[1..][j - 1..j - 1 + |pat|];
        assert |a| == |b|;
        assert forall t :: 0 <= t < |a| ==> a[t] == s[j + t] == b[t];
        assert a == b;
      }
    }
  }

  /** A one-character pattern occurs exactly where that character stands. */
  lemma OccursAtChar(s: string, c: char, j: nat)
    ensures OccursAt(s, [c], j) <==> j < |s| && s[j] == c
  {
    if j < |s| {
      assert s[j..j + 1] == [s[j]];
    }
  }

  /** Texts that agree once framed by the same prefix and suffix are equal. */
  lemma InfixCancel(pre: string, a: string, b: string, suf: string)
    requires pre + a + suf == pre + b + suf
    ensures a == b
  {
    var s, t := pre + a + suf, pre + b + suf;
    assert |a| == |b|;
    forall k | 0 <= k < |a| ensures a[k] == b[k] {
      assert s[|pre| + k] == a[k];
      assert t[|pre| + k] == b[k];
    }
  }

  // -------------------------------------------------------------- decimal

  predicate IsDigit(c: char) {
    '0' <= c <= '9'
  }

  function DigitChar(d: nat): (c: char)
    requires d < 10
    ensures IsDigit(c)
  {
    (d + '0' as int) as char
  }

  function DigitValue(c: char): (d: nat)
    requires IsDigit(c)
    ensures d < 10
  {
    c as int - '0' as int
  }

  /** `str(n)`: the decimal digits of `n`, most significant first, without leading zeros. */
  function NatToString(n: nat): (s: string)
    ensures s != [] && forall i :: 0 <= i < |s| ==> IsDigit(s[i])
    ensures s[0] == '0' ==> s == "0"
    decreases n
  {
    if n < 10 then [DigitChar(n)] else NatToString(n / 10) + [DigitChar(n % 10)]
  }

  /** `int(s)` for a string of decimal digits. */
  function DecimalValue(s: string): nat
    requires forall i :: 0 <= i < |s| ==> IsDigit(s[i])
    decreases |s|
  {
    if s == [] then 0 else 10 * DecimalValue(s[..|s| - 1]) + DigitValue(s[|s| - 1])
  }

  /** Reading back the decimal rendering gives the number. */
  lemma {:induction false} DecimalRoundTrip(n: nat)
    ensures DecimalValue(NatToString(n)) == n
    decreases n
  {
    var s := NatToString(n);
    if n >= 10 {
      DecimalRoundTrip(n / 10);
      assert s[..|s| - 1] == NatToString(n / 10);
    }
  }

  /** Different numbers render differently. */
  lemma NatToStringInjective(m: nat, n: nat)
    requires NatToString(m) == NatToString(n)
    ensures m == n
  {
    DecimalRoundTrip(m);
    DecimalRoundTrip(n);
  }
}
