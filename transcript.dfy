/**
 * What both core files do to the output of `re.split(TIMESTAMP_RE, text)`
 * before they look at a message: drop the text before the first
 * timestamp, pair the i-th captured timestamp with the body that follows
 * it, and clean the timestamp for the date parser.
 *
 * The split itself is regular-expression library code; its output
 * `[pre, ts1, body1, ts2, body2, ...]` is the input of this model.
 */
module Transcript {
  import opened Text

  /** `parts[1:]`. */
  function Tail(parts: seq<string>): (r: seq<string>)
    ensures |r| == if parts == [] then 0 else |parts| - 1
    ensures forall i :: 0 <= i < |r| ==> r[i] == parts[i + 1]
  {
    if parts == [] then [] else parts[1..]
  }

  /** `s[0::2]`. */
  function EveryOther(s: seq<string>): (r: seq<string>)
    ensures |r| == (|s| + 1) / 2
    ensures forall i :: 0 <= i < |r| ==> r[i] == s[2 * i]
    decreases |s|
  {
    if s == [] then []
    else if |s| == 1 then [s[0]]
    else [s[0]] + EveryOther(s[2..])
  }

  /** `list(zip(a, b))`: pairs up to the length of the shorter list. */
  function Zip(a: seq<string>, b: seq<string>): (r: seq<(string, string)>)
    ensures |r| == if |a| < |b| then |a| else |b|
    ensures forall i :: 0 <= i < |r| ==> r[i] == (a[i], b[i])
    decreases |a|
  {
    if a == [] || b == [] then [] else [(a[0], b[0])] + Zip(a[1..], b[1..])
  }

  /**
   * `zip(parts[0::2], parts[1::2])` after `parts = parts[1:]`: the
   * (timestamp, body) pairs of the transcript.
   */
  function Pairs(parts: seq<string>): seq<(string, string)> {
    var rest := Tail(parts);
    Zip(EveryOther(rest), EveryOther(Tail(rest)))
  }

  /**
   * The text before the first timestamp is discarded and the i-th
   * timestamp is paired with the i-th body after it; a trailing timestamp
   * without a body is dropped by `zip`.
   */
  lemma PairsAt(parts: seq<string>)
    ensures |Pairs(parts)| == |Tail(parts)| / 2
    ensures forall i :: 0 <= i < |Pairs(parts)| ==> Pairs(parts)[i] == (parts[2 * i + 1], parts[2 * i + 2])
  {
    var rest := Tail(parts);
    var odds := Tail(rest);
    assert forall i :: 0 <= i < |EveryOther(odds)| ==> EveryOther(odds)[i] == rest[2 * i + 1];
  }

  /**
   * `ts.replace('\u202F', ' ').strip()`: the timestamp handed to the date parser.
   * The result is a factor of the timestamp with its narrow no-break spaces made
   * plain spaces, and only whitespace lies outside that factor.
   */
  function CleanTimestamp(ts: string): (r: string)
    ensures NarrowNoBreakSpace !in r
    ensures r != [] ==> !IsSpace(r[0]) && !IsSpace(r[|r| - 1])
    ensures |r| <= |ts|
    ensures var spaced := ReplaceChar(ts, NarrowNoBreakSpace, ' ');
            exists i :: 0 <= i <= |spaced| - |r| && spaced[i..][..|r|] == r
                        && (forall j :: 0 <= j < i ==> IsSpace(spaced[j]))
                        && (forall j :: i + |r| <= j < |spaced| ==> IsSpace(spaced[j]))
  {
    var spaced := ReplaceChar(ts, NarrowNoBreakSpace, ' ');
    StripFactor(spaced);
    Strip(spaced)
  }

  /** Cleaning an already cleaned timestamp changes nothing. */
  lemma CleanTimestampIdempotent(ts: string)
    ensures CleanTimestamp(CleanTimestamp(ts)) == CleanTimestamp(ts)
  {
    var r := CleanTimestamp(ts);
    ReplaceAbsent(r, NarrowNoBreakSpace, ' ');
    StripTrimmed(r);
  }
}
