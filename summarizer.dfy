/**
 * The summarization side of the summarizer: prompt assembly,
 * `summarize_messages` with its per-chunk failure placeholder, and the
 * `palm_api` wrapper around the generation service.
 *
 * The generation service is remote and is taken as a parameter: given a
 * prompt and a model name it answers with a text or fails.
 */
module Summarizer {
  import opened Text

  /** The answer of one generation call: a text, or an exception. */
  datatype Reply = Ok(text: string) | Fail

  /** `(prompt, model) -> reply`, the generation capability. */
  type Generator = (string, string) -> Reply

  /** `SUMMARY_PROMPT`. */
  const SummaryPrompt: string :=
    "Analyze this WhatsApp chat and provide a structured summary including:\n"
    + "- Main discussion topics with message counts\n"
    + "- Key shared links/resources\n"
    + "- Active participation patterns\n"
    + "- Important decisions/action items\n"
    + "- Media shared count\n"
    + "- Notable dates/events\n"
    + "\n"
    + "Format the summary with clear section headings and bullet points."

  /** `NEWSLETTER_PROMPT`. */
  const NewsletterPrompt: string :=
    "Create an engaging newsletter introduction paragraph that highlights key topics from these chat insights:"

  /** The separator `summarize_messages` joins parts with, and `main` puts after the intro. */
  const PartSeparator: string := "\n\n"

  /** The text `palm_api` returns instead of raising when the service fails. */
  const ApiErrorText: string :=
    "\U{26A0}\U{FE0F}" + " Gemini API error (check your key/quota).\n\n"
    + "**No summary available**"

  /** The prompt of `summarize_text(text, model)`: the instructions, a blank line, then the chunk. */
  function SummaryRequest(text: string): (p: string)
    ensures |p| == |SummaryPrompt| + 2 + |text|
    ensures p[..|SummaryPrompt|] == SummaryPrompt && p[|SummaryPrompt|..|SummaryPrompt| + 2] == "\n\n"
    ensures p[|SummaryPrompt| + 2..] == text
  {
    SummaryPrompt + "\n\n" + text
  }

  /** The prompt of `generate_newsletter_intro(text, model)`: the instructions, a newline, then the summary. */
  function NewsletterRequest(text: string): (p: string)
    ensures |p| == |NewsletterPrompt| + 1 + |text|
    ensures p[..|NewsletterPrompt|] == NewsletterPrompt && p[|NewsletterPrompt|] == '\n'
    ensures p[|NewsletterPrompt| + 1..] == text
  {
    NewsletterPrompt + "\n" + text
  }

  /** Different chunks get different prompts, so a prompt names its chunk. */
  lemma RequestsAreInjective(a: string, b: string)
    ensures SummaryRequest(a) == SummaryRequest(b) ==> a == b
    ensures NewsletterRequest(a) == NewsletterRequest(b) ==> a == b
  {
    if SummaryRequest(a) == SummaryRequest(b) {
      assert a == SummaryRequest(a)[|SummaryPrompt| + 2..];
    }
    if NewsletterRequest(a) == NewsletterRequest(b) {
      assert a == NewsletterRequest(a)[|NewsletterPrompt| + 1..];
    }
  }

  /** `f"Summary part {i} unavailable"`. */
  function Placeholder(i: nat): string {
    "Summary part " + NatToString(i) + " unavailable"
  }

  /** Each placeholder names its chunk: distinct chunk numbers give distinct placeholders. */
  lemma PlaceholderNamesChunk(i: nat, j: nat)
    requires Placeholder(i) == Placeholder(j)
    ensures i == j
  {
    InfixCancel("Summary part ", NatToString(i), NatToString(j), " unavailable");
    NatToStringInjective(i, j);
  }

  /** The part chunk number `i` (from 1) contributes: its summary, or the placeholder if the call raised. */
  function Part(gen: Generator, model: string, chunk: string, i: nat): string {
    match gen(SummaryRequest(chunk), model)
    case Ok(t) => t
    case Fail => Placeholder(i)
  }

  /** The list `parts` that `summarize_messages` builds, one part per chunk. */
  function Parts(chunks: seq<string>, gen: Generator, model: string): (r: seq<string>)
    ensures |r| == |chunks|
  {
    seq(|chunks|, i requires 0 <= i < |chunks| => Part(gen, model, chunks[i], i + 1))
  }

  /**
   * `summarize_messages(chunks, model)`: the parts, in chunk order,
   * joined by blank lines. A failing chunk does not stop the loop.
   */
  method SummarizeMessages(chunks: seq<string>, gen: Generator, model: string) returns (summary: string)
    ensures summary == Join(PartSeparator, Parts(chunks, gen, model))
  {
    var parts: seq<string> := [];
    for i := 0 to |chunks|
      invariant parts == Parts(chunks[..i], gen, model)
    {
      var reply := gen(SummaryRequest(chunks[i]), model);
      match reply {
        case Ok(t) => parts := parts + [t];
        case Fail => parts := parts + [Placeholder(i + 1)];
      }
    }
    assert chunks[..|chunks|] == chunks;
    summary := Join(PartSeparator, parts);
  }

  /**
   * Part `i` is the service's text for chunk `i` when the call succeeds
   * and the placeholder naming chunk `i + 1` when it fails, whatever
   * happens to the other chunks.
   */
  lemma PartsAreIsolated(chunks: seq<string>, gen: Generator, model: string, i: nat)
    requires i < |chunks|
    ensures gen(SummaryRequest(chunks[i]), model).Ok? ==>
              Parts(chunks, gen, model)[i] == gen(SummaryRequest(chunks[i]), model).text
    ensures gen(SummaryRequest(chunks[i]), model).Fail? ==> Parts(chunks, gen, model)[i] == Placeholder(i + 1)
  {
  }

  /**
   * Three chunks of which the second fails: the summary is the first
   * text, the placeholder for part 2 and the third text, separated by
   * blank lines.
   */
  lemma SecondOfThreeFails(c1: string, c2: string, c3: string, t1: string, t3: string, gen: Generator, model: string)
    requires gen(SummaryRequest(c1), model) == Ok(t1)
    requires gen(SummaryRequest(c2), model) == Fail
    requires gen(SummaryRequest(c3), model) == Ok(t3)
    ensures Join(PartSeparator, Parts([c1, c2, c3], gen, model))
            == t1 + "\n\n" + "Summary part 2 unavailable" + "\n\n" + t3
  {
    var parts := Parts([c1, c2, c3], gen, model);
    assert parts == [t1, Placeholder(2), t3];
    assert Placeholder(2) == "Summary part 2 unavailable" by {
      assert NatToString(2) == "2";
    }
    assert parts[..2][..1] == [t1];
    assert Join(PartSeparator, parts[..2]) == t1 + "\n\n" + Placeholder(2);
  }

  /** `main`'s newsletter step: the intro and a blank line before the summary, or the summary alone if the call raised. */
  function WithIntro(gen: Generator, model: string, summary: string): (r: string)
    ensures gen(NewsletterRequest(summary), model).Fail? ==> r == summary
    ensures gen(NewsletterRequest(summary), model).Ok? ==>
              r == gen(NewsletterRequest(summary), model).text + PartSeparator + summary
  {
    match gen(NewsletterRequest(summary), model)
    case Ok(intro) => intro + PartSeparator + summary
    case Fail => summary
  }

  // ------------------------------------------------------------ palm_api

  /**
   * `palm_api(prompt, model)` over a generation service: any exception
   * of the service is caught and reported as `ApiErrorText`.
   */
  function PalmApi(service: Generator, prompt: string, model: string): (r: string)
    ensures service(prompt, model).Ok? ==> r == service(prompt, model).text
    ensures service(prompt, model).Fail? ==> r == ApiErrorText
  {
    match service(prompt, model)
    case Ok(t) => t
    case Fail => ApiErrorText
  }

  lemma ErrorTextIsNoPlaceholder(i: nat)
    ensures ApiErrorText != Placeholder(i)
  {
    assert Placeholder(i)[0] == 'S';
    assert ApiErrorText[0] == '\U{26A0}';
  }

  /** `summarize_text` and `generate_newsletter_intro` as written: built on `palm_api`, they never raise. */
  function PalmCapability(service: Generator): Generator {
    (prompt, model) => Ok(PalmApi(service, prompt, model))
  }

  /**
   * As written, a failing service call never reaches the handlers of
   * `summarize_messages` and `main`: the chunk's part is `ApiErrorText`
   * rather than its placeholder, and in newsletter mode `ApiErrorText`
   * is put in front of the summary instead of leaving it unchanged.
   */
  lemma PalmHidesFailures(service: Generator, chunks: seq<string>, model: string, i: nat)
    requires i < |chunks| && service(SummaryRequest(chunks[i]), model).Fail?
    ensures Parts(chunks, PalmCapability(service), model)[i] == ApiErrorText != Placeholder(i + 1)
    ensures var s := Join(PartSeparator, Parts(chunks, PalmCapability(service), model));
            service(NewsletterRequest(s), model).Fail? ==>
              WithIntro(PalmCapability(service), model, s) == ApiErrorText + PartSeparator + s != s
  {
    var cap := PalmCapability(service);
    assert cap(SummaryRequest(chunks[i]), model) == Ok(ApiErrorText);
    ErrorTextIsNoPlaceholder(i + 1);
    var s := Join(PartSeparator, Parts(chunks, cap, model));
    assert cap(NewsletterRequest(s), model) == Ok(PalmApi(service, NewsletterRequest(s), model));
  }
}
