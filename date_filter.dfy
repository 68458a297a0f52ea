/** `filter_messages_by_dates`: the inclusive date window. */
module DateFilter {
  import opened Dates
  import opened Seqs
  import opened WhatsappParser

  /** `start_day <= d <= end_day`. */
  predicate InWindow(d: Date, start: Date, end: Date) {
    AtMost(start, d) && AtMost(d, end)
  }

  function Window(start: Date, end: Date): Message -> bool {
    (m: Message) => InWindow(m.day, start, end)
  }

  /**
   * `[m for m in messages if start_day <= m[0] <= end_day]`. A message
   * is kept exactly when its date lies in the window, both bounds
   * included; a window whose start is after its end keeps nothing.
   */
  function FilterByDates(messages: seq<Message>, start: Date, end: Date): (r: seq<Message>)
    ensures |r| <= |messages|
    ensures forall m :: m in r <==> m in messages && InWindow(m.day, start, end)
    ensures !AtMost(start, end) ==> r == []
  {
    FilterMembers(messages, Window(start, end));
    var r := Filter(messages, Window(start, end));
    assert r != [] ==> r[0] in r && AtMost(start, r[0].day) && AtMost(r[0].day, end);
    r
  }

  /** The kept messages are in their original order, each kept once. */
  lemma FilterByDatesInOrder(messages: seq<Message>, start: Date, end: Date)
    ensures var idx := Indices(messages, Window(start, end));
            var r := FilterByDates(messages, start, end);
            |r| == |idx|
            && (forall k, l :: 0 <= k < l < |idx| ==> idx[k] < idx[l])
            && (forall k :: 0 <= k < |idx| ==> r[k] == messages[idx[k]])
            && (forall i :: 0 <= i < |messages| ==> (i in idx <==> InWindow(messages[i].day, start, end)))
  {
    var w := Window(start, end);
    FilterSelects(messages, w);
    forall i | 0 <= i < |messages|
      ensures i in Indices(messages, w) <==> InWindow(messages[i].day, start, end)
    {
      assert w(messages[i]) == InWindow(messages[i].day, start, end);
    }
  }
}
