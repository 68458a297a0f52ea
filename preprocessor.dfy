/**
 * `preprocess`: the dashboard's transcript parser. Unlike
 * `parse_whatsapp` it keeps the time and separates the sender with the
 * anchored pattern `^([^:]+):\s*`, falling back to the author
 * `group_notification` when the body does not start with a sender.
 */
module Preprocessor {
  import opened Wrappers
  import opened Text
  import opened Dates
  import opened Seqs
  import opened Transcript
  import WhatsappParser

  /** The author given to bodies without a sender. */
  const GroupNotification: string := "group_notification"

  /** One `(dt, user, text)` tuple of `records`. */
  datatype Record = Record(date: DateTime, user: string, message: string)

  /** One row of the returned frame: the record's columns and its `period`. */
  datatype Row = Row(date: DateTime, user: string, message: string, period: string)

  // --------------------------------------------------------------- sender

  /**
   * `re.match(r'^([^:]+):\s*', msg)` succeeds with group 1 equal to
   * `msg[..k]` and the match ending at `e`: a non-empty colon-free
   * prefix, a colon, then all the whitespace after it.
   */
  ghost predicate SenderMatch(msg: string, k: nat, e: nat) {
    0 < k < e <= |msg| && msg[k] == ':'
    && (forall j :: 0 <= j < k ==> msg[j] != ':')
    && (forall j :: k < j < e ==> IsSpace(msg[j]))
    && (e == |msg| || !IsSpace(msg[e]))
  }

  /** The first colon of `msg` is at `k`, after at least one other character. */
  predicate FirstColonAt(msg: string, k: nat) {
    0 < k < |msg| && msg[k] == ':' && ':' !in msg[..k]
  }

  /** Where the sender pattern matches `msg`, if it does. */
  function MatchSender(msg: string): (m: Option<(nat, nat)>)
    ensures m.Some? ==> SenderMatch(msg, m.value.0, m.value.1)
    ensures m.None? ==> forall k: nat, e: nat :: !SenderMatch(msg, k, e)
  {
    ColonOccurrences(msg);
    match IndexOf(msg, ":")
    case None => None
    case Some(k) =>
      if k == 0 then None
      else
        var e := |msg| - |StripLeft(msg[k + 1..])|;
        MatchEnd(msg, k);
        Some((k, e))
  }

  lemma ColonOccurrences(msg: string)
    ensures forall j: nat :: OccursAt(msg, ":", j) <==> j < |msg| && msg[j] == ':'
  {
    forall j: nat ensures OccursAt(msg, ":", j) <==> j < |msg| && msg[j] == ':' {
      OccursAtChar(msg, ':', j);
    }
  }

  /** A first colon at `k > 0` gives a match ending after the whitespace that follows it. */
  lemma MatchEnd(msg: string, k: nat)
    requires 0 < k < |msg| && msg[k] == ':' && forall j :: 0 <= j < k ==> msg[j] != ':'
    ensures SenderMatch(msg, k, |msg| - |StripLeft(msg[k + 1..])|)
    ensures msg[|msg| - |StripLeft(msg[k + 1..])|..] == StripLeft(msg[k + 1..])
  {
    StripLeftOfSuffix(msg, k + 1);
  }

  /** `s[i..].lstrip()` is a suffix of `s`, and everything between `i` and it is whitespace. */
  lemma StripLeftOfSuffix(s: string, i: nat)
    requires i <= |s|
    ensures var l := StripLeft(s[i..]);
            var e := |s| - |l|;
            i <= e && s[e..] == l
            && (forall j :: i <= j < e ==> IsSpace(s[j]))
            && (e < |s| ==> !IsSpace(s[e]))
    decreases |s| - i
  {
    if i < |s| && IsSpace(s[i]) {
      StripLeftOfSuffix(s, i + 1);
      assert s[i..][1..] == s[i + 1..];
    } else {
      assert StripLeft(s[i..]) == s[i..];
    }
  }

  /** The pattern matches in at most one way: greedy, and anchored at the start. */
  lemma SenderMatchUnique(msg: string, k: nat, e: nat, k': nat, e': nat)
    requires SenderMatch(msg, k, e) && SenderMatch(msg, k', e')
    ensures k == k' && e == e'
  {
  }

  /** The sender pattern matches exactly when the first colon comes after at least one character. */
  lemma FirstColonMatches(msg: string, k: nat)
    requires FirstColonAt(msg, k)
    ensures MatchSender(msg).Some? && MatchSender(msg).value.0 == k
    ensures MatchSender(msg).value.1 == |msg| - |StripLeft(msg[k + 1..])|
    ensures msg[MatchSender(msg).value.1..] == StripLeft(msg[k + 1..])
  {
    forall j | 0 <= j < k ensures msg[j] != ':' {
      assert msg[j] == msg[..k][j];
    }
    var e := |msg| - |StripLeft(msg[k + 1..])|;
    MatchEnd(msg, k);
    var m := MatchSender(msg);
    if m.Some? {
      SenderMatchUnique(msg, m.value.0, m.value.1, k, e);
    }
  }

  /**
   * `re.split(r'^([^:]+):\s*', msg, maxsplit=1)` and the branch on its
   * length: `(user, text)`.
   */
  function SplitSender(msg: string): (r: (string, string))
    ensures forall k: nat :: FirstColonAt(msg, k) ==>
              r == (Strip(msg[..k]), Strip(msg[k + 1..]))
    ensures ':' !in msg || msg[0] == ':' ==> r == (GroupNotification, Strip(msg))
  {
    SplitSenderCases(msg);
    match MatchSender(msg)
    case Some((k, e)) => (Strip(msg[..k]), Strip(msg[e..]))
    case None => (GroupNotification, Strip(msg))
  }

  /** The facts behind `SplitSender`'s contract. */
  lemma SplitSenderCases(msg: string)
    ensures forall k: nat :: FirstColonAt(msg, k) ==>
              MatchSender(msg).Some? && MatchSender(msg).value.0 == k
              && Strip(msg[MatchSender(msg).value.1..]) == Strip(msg[k + 1..])
    ensures ':' !in msg || msg[0] == ':' ==> MatchSender(msg).None?
  {
    forall k: nat | FirstColonAt(msg, k)
      ensures MatchSender(msg).Some? && MatchSender(msg).value.0 == k
      ensures Strip(msg[MatchSender(msg).value.1..]) == Strip(msg[k + 1..])
    {
      FirstColonSplit(msg, k);
    }
    NoSender(msg);
  }

  lemma FirstColonSplit(msg: string, k: nat)
    requires FirstColonAt(msg, k)
    ensures MatchSender(msg).Some? && MatchSender(msg).value.0 == k
    ensures Strip(msg[MatchSender(msg).value.1..]) == Strip(msg[k + 1..])
  {
    FirstColonMatches(msg, k);
    StripAfterStripLeft(msg[k + 1..]);
  }

  lemma NoSender(msg: string)
    ensures ':' !in msg || msg[0] == ':' ==> MatchSender(msg).None?
  {
    if MatchSender(msg).Some? {
      var k := MatchSender(msg).value.0;
      assert msg[k] in msg && msg[k] == ':';
    }
  }

  // --------------------------------------------------------------- period

  /** `f"{h}-{(h+1)%24}"`, the `period` column for hour `h`. */
  function Period(h: Hour): string {
    NatToString(h) + "-" + NatToString((h + 1) % 24)
  }

  predicate AllDigits(s: string) {
    forall i :: 0 <= i < |s| ==> IsDigit(s[i])
  }

  /** Reads a period `"a-b"` back into its two hours. */
  function ParsePeriod(s: string): Option<(nat, nat)> {
    match IndexOf(s, "-")
    case None => None
    case Some(k) =>
      var from, to := s[..k], s[k + 1..];
      if AllDigits(from) && AllDigits(to) then Some((DecimalValue(from), DecimalValue(to))) else None
  }

  /** A period label gives back its hour and the hour after it, modulo 24. */
  lemma PeriodRoundTrip(h: Hour)
    ensures ParsePeriod(Period(h)) == Some((h as nat, (h + 1) % 24))
  {
    ParseDashed(NatToString(h), NatToString((h + 1) % 24));
    DecimalRoundTrip(h);
    DecimalRoundTrip((h + 1) % 24);
  }

  /** Two digit strings joined by a dash read back as their two values. */
  lemma ParseDashed(a: string, b: string)
    requires AllDigits(a) && AllDigits(b)
    ensures ParsePeriod(a + "-" + b) == Some((DecimalValue(a), DecimalValue(b)))
  {
    var p := a + "-" + b;
    FirstDash(a, b);
    assert forall j :: 0 <= j < |a| ==> p[..|a|][j] == a[j];
    assert p[..|a|] == a;
    assert forall j :: 0 <= j < |b| ==> p[|a| + 1..][j] == b[j];
    assert p[|a| + 1..] == b;
  }

  /** The first dash after a run of digits is the one that follows them. */
  lemma FirstDash(a: string, b: string)
    requires AllDigits(a)
    ensures IndexOf(a + "-" + b, "-") == Some(|a|)
  {
    var p := a + "-" + b;
    forall j: nat ensures OccursAt(p, "-", j) <==> j < |p| && p[j] == '-' {
      OccursAtChar(p, '-', j);
    }
    assert p[|a|] == '-';
    assert forall j :: 0 <= j < |a| ==> p[j] == a[j];
  }

  /** The last hour of the day wraps round: its period is `"23-0"`. */
  lemma LastHourWraps()
    ensures Period(23) == "23-0"
  {
    assert NatToString(23) == NatToString(2) + [DigitChar(3)];
  }

  // ------------------------------------------------------------ preprocess

  /** What one (timestamp, body) pair contributes: nothing when the timestamp does not parse. */
  function RecordOf(parse: DayFirstParser, pair: (string, string)): Option<Record> {
    match parse(CleanTimestamp(pair.0))
    case None => None
    case Some(dt) =>
      var (user, text) := SplitSender(pair.1);
      Some(Record(dt, user, text))
  }

  function RecordsOf(parse: DayFirstParser): ((string, string)) -> Option<Record> {
    pair => RecordOf(parse, pair)
  }

  /** The frame built from `records`, with each row's `period` derived from its hour. */
  function Frame(records: seq<Record>): seq<Row> {
    seq(|records|, i requires 0 <= i < |records| =>
      Row(records[i].date, records[i].user, records[i].message, Period(records[i].date.hour)))
  }

  /**
   * `preprocess(raw)`, given `re.split(TIMESTAMP_RE, raw)` as `parts`;
   * the empty `DataFrame` is the empty sequence.
   */
  method Preprocess(parts: seq<string>, parse: DayFirstParser) returns (rows: seq<Row>)
    ensures rows == Frame(FilterMap(Pairs(parts), RecordsOf(parse)))
    ensures |rows| <= |Pairs(parts)|
  {
    var rest := Tail(parts);
    if |rest| < 2 {
      PairsAt(parts);
      return [];
    }
    var records := CollectRecords(Pairs(parts), parse);
    FilterMapLength(Pairs(parts), RecordsOf(parse));
    if records == [] {
      return [];
    }
    rows := Frame(records);
  }

  /** The loop of `preprocess` that builds `records`, one pair at a time. */
  method CollectRecords(pairs: seq<(string, string)>, parse: DayFirstParser) returns (records: seq<Record>)
    ensures records == FilterMap(pairs, RecordsOf(parse))
  {
    records := [];
    for i := 0 to |pairs|
      invariant records == FilterMap(pairs[..i], RecordsOf(parse))
    {
      FilterMapStep(pairs, i, RecordsOf(parse));
      var (ts, msg) := pairs[i];
      var tsClean := CleanTimestamp(ts);
      var dt := parse(tsClean);
      if dt.None? {
        assert RecordsOf(parse)(pairs[i]) == None;
        continue;
      }
      var (user, text) := SplitSender(msg);
      assert RecordsOf(parse)(pairs[i]) == Some(Record(dt.value, user, text));
      records := records + [Record(dt.value, user, text)];
    }
    assert pairs[..|pairs|] == pairs;
  }

  /** Every row's `period` is the hour range of its own time, and the columns are the record's. */
  lemma FramePeriods(records: seq<Record>)
    ensures |Frame(records)| == |records|
    ensures forall i :: 0 <= i < |records| ==>
              var row := Frame(records)[i];
              row.date == records[i].date && row.user == records[i].user
              && row.message == records[i].message && row.period == Period(row.date.hour)
  {
  }

  /** Fewer than two pieces after the preamble: not even one pair, so the frame is empty. */
  lemma ShortTranscriptIsEmpty(parts: seq<string>, parse: DayFirstParser)
    requires |Tail(parts)| < 2
    ensures Frame(FilterMap(Pairs(parts), RecordsOf(parse))) == []
  {
    PairsAt(parts);
  }

  /**
   * The records are, in text order, those of the pairs whose cleaned
   * timestamp parses, each with that date and time and the sender split
   * of its body; the pairs whose timestamp fails are skipped.
   */
  lemma PreprocessSurvivors(pairs: seq<(string, string)>, parse: DayFirstParser)
    ensures var idx := Indices(pairs, Succeeds(RecordsOf(parse)));
            var r := FilterMap(pairs, RecordsOf(parse));
            |r| == |idx| <= |pairs|
            && (forall i :: 0 <= i < |pairs| ==> (i in idx <==> parse(CleanTimestamp(pairs[i].0)).Some?))
            && (forall k, l :: 0 <= k < l < |idx| ==> idx[k] < idx[l])
            && (forall k :: 0 <= k < |idx| ==>
                  parse(CleanTimestamp(pairs[idx[k]].0)).Some?
                  && r[k] == Record(parse(CleanTimestamp(pairs[idx[k]].0)).value,
                                    SplitSender(pairs[idx[k]].1).0, SplitSender(pairs[idx[k]].1).1))
  {
    var f := RecordsOf(parse);
    var idx := Indices(pairs, Succeeds(f));
    var r := FilterMap(pairs, f);
    FilterMapSelects(pairs, f);
    forall i | 0 <= i < |pairs|
      ensures i in idx <==> parse(CleanTimestamp(pairs[i].0)).Some?
    {
      assert Succeeds(f)(pairs[i]) == RecordOf(parse, pairs[i]).Some?;
    }
    forall k | 0 <= k < |idx|
      ensures parse(CleanTimestamp(pairs[idx[k]].0)).Some?
      ensures r[k] == Record(parse(CleanTimestamp(pairs[idx[k]].0)).value,
                             SplitSender(pairs[idx[k]].1).0, SplitSender(pairs[idx[k]].1).1)
    {
      assert f(pairs[idx[k]]) == RecordOf(parse, pairs[idx[k]]) == Some(r[k]);
    }
  }

  // ------------------------------------------- the two parsers compared

  /**
   * With no space after the colon the two parsers disagree, as on
   * `"Alice:hi"`: `parse_whatsapp` keeps the whole body, `preprocess`
   * finds the sender `name`.
   */
  lemma SenderWithoutSpace(name: string, text: string)
    requires name != [] && ':' !in name && !IsSpace(name[0]) && !IsSpace(name[|name| - 1])
    requires text != [] && !IsSpace(text[0]) && !IsSpace(text[|text| - 1])
    requires ' ' !in name && ' ' !in text
    ensures WhatsappParser.Content(name + ":" + text) == name + ":" + text
    ensures SplitSender(name + ":" + text) == (name, text)
  {
    var body := name + ":" + text;
    assert body[0] == name[0] && body[|body| - 1] == text[|text| - 1];
    assert ' ' !in body by {
      forall j | 0 <= j < |body| ensures body[j] != ' ' {
        if j < |name| {
          assert body[j] == name[j];
        } else if j > |name| {
          assert body[j] == text[j - |name| - 1];
        }
      }
    }
    NoSeparatorWithoutSpace(body);
    WellFormedSplit(name, ":", text);
  }

  /** A body without a space has no `": "`, so `parse_whatsapp` keeps all of it. */
  lemma NoSeparatorWithoutSpace(body: string)
    requires body != [] && !IsSpace(body[0]) && !IsSpace(body[|body| - 1]) && ' ' !in body
    ensures WhatsappParser.Content(body) == body
  {
    StripTrimmed(body);
    forall j: nat | j <= |body| ensures !OccursAt(body, ": ", j) {
      if j + 2 <= |body| {
        assert body[j..j + 2][1] == body[j + 1];
      }
    }
  }

  /**
   * On a body `name + ": " + text` with a colon-free name and a text
   * without surrounding whitespace, the two parsers agree on the
   * message, and `preprocess` finds the sender `name`.
   */
  lemma SendersAgreeOnWellFormedBody(name: string, text: string)
    requires name != [] && ':' !in name && !IsSpace(name[0]) && !IsSpace(name[|name| - 1])
    requires text != [] && !IsSpace(text[0]) && !IsSpace(text[|text| - 1])
    ensures WhatsappParser.Content(name + ": " + text) == text
    ensures SplitSender(name + ": " + text) == (name, text)
  {
    WellFormedContent(name, text);
    WellFormedSplit(name, ": ", text);
  }

  lemma WellFormedContent(name: string, text: string)
    requires name != [] && ':' !in name && !IsSpace(name[0])
    requires text != [] && !IsSpace(text[|text| - 1])
    ensures WhatsappParser.Content(name + ": " + text) == text
  {
    var body := name + ": " + text;
    var k := |name|;
    assert body[0] == name[0] && body[|body| - 1] == text[|text| - 1];
    StripTrimmed(body);
    assert body[k..k + 2] == ": ";
    forall i: nat | i < k ensures !OccursAt(body, ": ", i) {
      assert body[i..i + 2][0] == body[i] == name[i];
    }
    assert FirstOccurrence(body, ": ", k);
    assert body[k + 2..] == text;
  }

  /** `preprocess` splits `name + sep + text` into `(name, text)` when `sep` is a colon and blanks. */
  lemma WellFormedSplit(name: string, sep: string, text: string)
    requires name != [] && ':' !in name && !IsSpace(name[0]) && !IsSpace(name[|name| - 1])
    requires sep != [] && sep[0] == ':' && forall j :: 0 < j < |sep| ==> IsSpace(sep[j])
    requires text != [] && !IsSpace(text[0]) && !IsSpace(text[|text| - 1])
    ensures SplitSender(name + sep + text) == (name, text)
  {
    var body := name + sep + text;
    var k := |name|;
    assert body[..k] == name;
    assert body[k] == ':';
    assert FirstColonAt(body, k);
    assert body[k + 1..] == sep[1..] + text;
    StripTrimmed(name);
    BlanksThenText(sep[1..], text);
  }

  lemma BlanksThenText(blanks: string, text: string)
    requires forall j :: 0 <= j < |blanks| ==> IsSpace(blanks[j])
    requires text != [] && !IsSpace(text[0]) && !IsSpace(text[|text| - 1])
    ensures Strip(blanks + text) == text
    decreases |blanks|
  {
    if blanks == [] {
      assert blanks + text == text;
      StripTrimmed(text);
    } else {
      assert (blanks + text)[1..] == blanks[1..] + text;
      BlanksThenText(blanks[1..], text);
      StripAfterStripLeft(blanks + text);
      StripAfterStripLeft(blanks[1..] + text);
    }
  }
}
