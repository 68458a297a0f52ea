/**
 * `parse_whatsapp`: the summarizer's own transcript parser. It keeps the
 * date of each message and drops the sender by cutting the stripped body
 * at the first `": "`, wherever that occurs.
 */
module WhatsappParser {
  import opened Wrappers
  import opened Text
  import opened Dates
  import opened Seqs
  import opened Transcript

  /** An element `(dt.date(), content)` of `parse_whatsapp`'s result. */
  datatype Message = Message(day: Date, content: string)

  /** The sender separator the summarizer looks for. */
  const SenderSeparator: string := ": "

  /**
   * `content = msg.strip()`, then `content.split(': ', 1)[1]` when `': '`
   * occurs: everything up to and including the first `": "` is dropped.
   */
  function Content(body: string): (r: string)
    ensures !Contains(Strip(body), SenderSeparator) ==> r == Strip(body)
    ensures forall i: nat :: FirstOccurrence(Strip(body), SenderSeparator, i) ==> r == Strip(body)[i + 2..]
  {
    var c := Strip(body);
    IndexOfFirst(c, SenderSeparator);
    match IndexOf(c, SenderSeparator)
    case None => c
    case Some(i) => c[i + 2..]
  }

  /** What one (timestamp, body) pair contributes: nothing when the timestamp does not parse. */
  function Entry(parse: DayFirstParser, pair: (string, string)): Option<Message> {
    match parse(CleanTimestamp(pair.0))
    case None => None
    case Some(dt) => Some(Message(dt.date, Content(pair.1)))
  }

  function Entries(parse: DayFirstParser): ((string, string)) -> Option<Message> {
    pair => Entry(parse, pair)
  }

  /** The list `parse_whatsapp` returns for the split transcript `parts`. */
  function Parsed(parts: seq<string>, parse: DayFirstParser): seq<Message> {
    FilterMap(Pairs(parts), Entries(parse))
  }

  /**
   * `parse_whatsapp(text)`, given `re.split(TIMESTAMP_RE, text)` as
   * `parts`. There are never more messages than timestamps.
   */
  method ParseWhatsapp(parts: seq<string>, parse: DayFirstParser) returns (parsed: seq<Message>)
    ensures parsed == Parsed(parts, parse)
    ensures |parsed| <= |EveryOther(Tail(parts))|
  {
    var pairs := Pairs(parts);
    parsed := [];
    for i := 0 to |pairs|
      invariant parsed == FilterMap(pairs[..i], Entries(parse))
    {
      FilterMapStep(pairs, i, Entries(parse));
      var (ts, msg) := pairs[i];
      var tsClean := CleanTimestamp(ts);
      var dt := parse(tsClean);
      if dt.None? {
        assert Entries(parse)(pairs[i]) == Entry(parse, (ts, msg));
        continue;
      }
      var content := Strip(msg);
      var sep := IndexOf(content, SenderSeparator);
      if sep.Some? {
        content := content[sep.value + 2..];
      }
      assert content == Content(msg);
      assert Entries(parse)(pairs[i]) == Entry(parse, (ts, msg));
      parsed := parsed + [Message(dt.value.date, content)];
    }
    assert pairs[..|pairs|] == pairs;
    ParsedCount(parts, parse);
  }

  /** At most one message per timestamp. */
  lemma ParsedCount(parts: seq<string>, parse: DayFirstParser)
    ensures |Parsed(parts, parse)| <= |Pairs(parts)| <= |EveryOther(Tail(parts))|
  {
    ParsedSurvivors(Pairs(parts), parse);
    PairsAt(parts);
  }

  /**
   * The messages are, in text order, those of the pairs whose cleaned
   * timestamp parses, each with the date of its timestamp and the
   * content of its body; the pairs whose timestamp fails are skipped.
   */
  lemma ParsedSurvivors(pairs: seq<(string, string)>, parse: DayFirstParser)
    ensures var idx := Indices(pairs, Succeeds(Entries(parse)));
            var r := FilterMap(pairs, Entries(parse));
            |r| == |idx| <= |pairs|
            && (forall i :: 0 <= i < |pairs| ==> (i in idx <==> parse(CleanTimestamp(pairs[i].0)).Some?))
            && (forall k, l :: 0 <= k < l < |idx| ==> idx[k] < idx[l])
            && (forall k :: 0 <= k < |idx| ==>
                  parse(CleanTimestamp(pairs[idx[k]].0)).Some?
                  && r[k] == Message(parse(CleanTimestamp(pairs[idx[k]].0)).value.date, Content(pairs[idx[k]].1)))
  {
    var f := Entries(parse);
    var idx := Indices(pairs, Succeeds(f));
    var r := FilterMap(pairs, f);
    FilterMapSelects(pairs, f);
    forall i | 0 <= i < |pairs|
      ensures i in idx <==> parse(CleanTimestamp(pairs[i].0)).Some?
    {
      assert Succeeds(f)(pairs[i]) == Entry(parse, pairs[i]).Some?;
    }
    forall k | 0 <= k < |idx|
      ensures parse(CleanTimestamp(pairs[idx[k]].0)).Some?
      ensures r[k] == Message(parse(CleanTimestamp(pairs[idx[k]].0)).value.date, Content(pairs[idx[k]].1))
    {
      assert f(pairs[idx[k]]) == Entry(parse, pairs[idx[k]]) == Some(r[k]);
    }
  }

  /** When no timestamp parses there are no messages. */
  lemma NothingParses(parts: seq<string>, parse: DayFirstParser)
    requires forall i :: 0 <= i < |Pairs(parts)| ==> parse(CleanTimestamp(Pairs(parts)[i].0)).None?
    ensures Parsed(parts, parse) == []
  {
    var pairs := Pairs(parts);
    forall i | 0 <= i < |pairs| ensures Entries(parse)(pairs[i]).None? {
      assert Entries(parse)(pairs[i]) == Entry(parse, pairs[i]);
    }
    FilterMapNone(pairs, Entries(parse));
  }
}
