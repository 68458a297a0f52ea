/**
 * `main` of the summarizer: parse the date window, parse the transcript,
 * filter, chunk, summarize and optionally add a newsletter intro. Each
 * way the flow can stop early is an `Outcome`; the printing and the
 * writing of the summary file are left to the caller.
 */
module Pipeline {
  import opened Wrappers
  import opened Text
  import opened Dates
  import opened WhatsappParser
  import opened DateFilter
  import opened Chunker
  import opened Summarizer

  /** How `main` ends. */
  datatype Outcome =
    | InvalidDate        // "Invalid date format. Use MM/DD/YYYY"
    | NoMessagesParsed   // "No messages parsed. Check chat file format."
    | NoMessagesInRange  // "No messages in selected date range"
    | Summarized(text: string)

  /**
   * `main(chat_export_file, summary_file, start_day_s, end_day_s,
   * is_newsletter, model)`, with the transcript given as its regular
   * expression split `parts`.
   */
  method SummarizeChat(parts: seq<string>, startDay: string, endDay: string, isNewsletter: bool, model: string,
                       dayFirst: DayFirstParser, monthFirst: MonthFirstParser, gen: Generator)
    returns (o: Outcome)
    ensures o == InvalidDate <==> monthFirst(startDay).None? || monthFirst(endDay).None?
    ensures o == NoMessagesParsed <==>
              monthFirst(startDay).Some? && monthFirst(endDay).Some? && Parsed(parts, dayFirst) == []
    ensures o == NoMessagesInRange <==>
              monthFirst(startDay).Some? && monthFirst(endDay).Some? && Parsed(parts, dayFirst) != []
              && FilterByDates(Parsed(parts, dayFirst), monthFirst(startDay).value, monthFirst(endDay).value) == []
    ensures o.Summarized? ==>
              AtMost(monthFirst(startDay).value, monthFirst(endDay).value)
              && var selected := FilterByDates(Parsed(parts, dayFirst), monthFirst(startDay).value, monthFirst(endDay).value);
                 var summary := Join(PartSeparator, Parts(Chunks(Contents(selected)), gen, model));
                 o.text == if isNewsletter then WithIntro(gen, model, summary) else summary
  {
    var sd := monthFirst(startDay);
    var ed := monthFirst(endDay);
    if sd.None? || ed.None? {
      return InvalidDate;
    }
    var msgs := ParseWhatsapp(parts, dayFirst);
    if msgs == [] {
      return NoMessagesParsed;
    }
    var filtered := FilterByDates(msgs, sd.value, ed.value);
    if filtered == [] {
      return NoMessagesInRange;
    }
    var chunks := WhatsappChunkText(filtered);
    var summary := SummarizeMessages(chunks, gen, model);
    if isNewsletter {
      var reply := gen(NewsletterRequest(summary), model);
      if reply.Ok? {
        summary := reply.text + PartSeparator + summary;
      }
    }
    return Summarized(summary);
  }
}
