# WhatsApp group-chat summarizer: transcript to chunks to summary

This project models the core of a WhatsApp group-chat summarizer in
Dafny. That core is the path from an exported transcript to the text
sent for summarization. The model covers the following steps:

- pairing timestamps with message bodies after the transcript is split
  at its timestamps;
- cleaning each timestamp and parsing it;
- taking the message content (`parse_whatsapp`) or the sender and
  message (`preprocess`);
- the inclusive date-window filter;
- the greedy 2000-word chunker;
- assembling the prompts;
- summarizing part by part, with a placeholder for a chunk whose call
  fails;
- the newsletter intro;
- the decision flow of `main`;
- the `period` label of the dashboard's parser.

Library code sits at the edges, and the model takes it as parameters:

- the `re.split(TIMESTAMP_RE, ...)` output, as a sequence `parts`;
- `dateutil.parser.parse(..., dayfirst=True)`, as a partial function
  `DayFirstParser`;
- `strptime(..., "%m/%d/%Y")`, as a partial function `MonthFirstParser`;
- the generation service, as a function `Generator` from `(prompt,
  model)` to `Ok(text)` or `Fail`.

Each imperative loop of the source is a Dafny `method` with a loop:
`parse_whatsapp`, `whatsapp_chunk_text`, `summarize_messages`, and the
records loop of `preprocess`. Each is proved equal to a specification
function. The lemmas then prove the source's promises about that
function. `main` is a method with the source's early returns. It
returns an `Outcome` instead of printing.

Modules:

- `Text`: the Python string operations used, namely `strip()`,
  `split()`, `sep.join`, `replace` and `str(n)`, on Python's whitespace
  set. `IndexOf` gives the position of the first `": "`, which is
  where the test `': ' in content` and the cut `content.split(': ', 1)`
  look; `StripLeft` stands for the `\s*` that the sender pattern
  consumes after the colon.
- `Seqs`: filtering, filter-map and flattening, with their selection
  lemmas.
- `Dates`: dates, date order and the two parser modes.
- `Transcript`: pairing and timestamp cleaning, shared by both parsers.
- `WhatsappParser`, `DateFilter`, `Chunker`, `Summarizer` and
  `Pipeline`: group_chat_summarizer.py.
- `Preprocessor`: preprocessor.py.

The flush test on line 60 of group_chat_summarizer.py does not check
that the current buffer is non-empty. So a first message of more than
2000 words produces `""` as the first chunk. A chunk is also `""` when
its buffer holds a single empty message, for example an empty message
followed by one of more than 2000 words. The model reproduces both, and
`Chunker.OverlongFirstMessage`, `Chunker.EmptyMessageAlone` and
`Chunker.EmptyChunks` state them.

## Model

| member | source | states |
|---|---|---|
| Text.IsSpace | group_chat_summarizer.py:41 | Python's `isspace()` set, which `strip()` and `split()` with no argument use; `Text.Strip`, `Text.StripFactor` and `Text.WordsAreWords` state what the operations keep of it |
| Text.StripLeft | preprocessor.py:41 | the `\s*` after the colon of the sender pattern, which consumes all the whitespace there; `Text.StripAfterStripLeft` and `Preprocessor.FirstColonMatches` state its properties |
| Text.Strip | group_chat_summarizer.py:46 | `strip()` never lengthens the text, and its result neither starts nor ends with whitespace |
| Text.StripFactor | group_chat_summarizer.py:46 | the result of `strip()` is a contiguous piece of the text, outside which there is only whitespace, so it keeps only characters of the text |
| Text.StripAfterStripLeft | preprocessor.py:41-43 | stripping after the pattern has consumed the blanks following the colon gives the same message as stripping the whole remainder |
| Text.WordsAreWords | group_chat_summarizer.py:59 | every token of `split()` is non-empty and free of whitespace |
| Text.WordCount | group_chat_summarizer.py:59-60 | `len(msg.split())`, the count the flush test adds; `Text.TotalWordsCountsAllWords` relates the counts to the tokens |
| Text.WordsAroundSpace | group_chat_summarizer.py:59-61 | splitting `a + " " + b` gives the tokens of `a` followed by those of `b` |
| Text.WordsOfSpaceJoin | group_chat_summarizer.py:61 | the tokens of `' '.join(parts)` are the tokens of the parts, in order |
| Text.JoinEmpty | group_chat_summarizer.py:61 | with a non-empty separator, a join is `""` exactly when there are no parts or one empty part |
| Text.TotalWordsCountsAllWords | group_chat_summarizer.py:59-64 | the sum of the per-message token counts equals the number of all their tokens |
| Text.Words | group_chat_summarizer.py:59 | `msg.split()`: the maximal runs of non-whitespace characters, in order; `Text.WordsAreWords` and `Text.WordsAroundSpace` state its properties |
| Text.Join | group_chat_summarizer.py:61 | `sep.join(parts)`: the parts with `sep` between neighbours; `Text.JoinEmpty` and `Text.WordsOfSpaceJoin` state its properties |
| Text.ReplaceChar | preprocessor.py:34 | the replacement keeps the length, turns every occurrence of the character into the replacement, so none is left behind, and changes no other character |
| Text.ReplaceAbsent | group_chat_summarizer.py:41 | replacing a character that does not occur gives the text back unchanged |
| Text.Contains | group_chat_summarizer.py:47 | the test `': ' in content`; `Text.IndexOfFirst` states that it holds exactly when there is a cut |
| Text.IndexOf | group_chat_summarizer.py:47-48 | the result is the first index at which the pattern occurs, or none when it occurs nowhere |
| Text.IndexOfFirst | group_chat_summarizer.py:47-48 | the cut is made at the first occurrence whenever there is one, and there is no cut exactly when the pattern is not in the text (`': ' in content` is false) |
| Text.NatToString | preprocessor.py:64 | `str(h)` is a non-empty string of decimal digits, without a leading zero |
| Text.DecimalRoundTrip | preprocessor.py:64 | reading the decimal rendering back gives the number |
| Text.NatToStringInjective | group_chat_summarizer.py:107 | different numbers render differently |
| Seqs.Filter | group_chat_summarizer.py:54 | the list comprehension `[m for m in messages if cond]`; `Seqs.FilterSelects` and `Seqs.FilterMembers` state what it keeps |
| Seqs.FilterMap | group_chat_summarizer.py:40-49 | a loop that skips an element whose step fails (`continue`) and appends the result otherwise; `Seqs.FilterMapSelects` states what it keeps |
| Seqs.FilterSelects | group_chat_summarizer.py:54 | the filter keeps exactly the elements that satisfy the condition, in their original order |
| Seqs.FilterMembers | group_chat_summarizer.py:54 | an element is in the filtered list exactly when it is in the input and satisfies the condition |
| Seqs.FilterMapSelects | group_chat_summarizer.py:40-49 | a skip-on-failure loop keeps, in order, exactly the results of the elements that succeed |
| Seqs.FilterMapLength | preprocessor.py:32-47 | such a loop gives at most one result per element |
| Seqs.FilterMapNone | group_chat_summarizer.py:40-49 | such a loop gives nothing when every element fails |
| Transcript.Tail | preprocessor.py:23 | `parts[1:]` drops only the text before the first timestamp |
| Transcript.EveryOther | preprocessor.py:28-29 | `s[0::2]` holds the elements at even positions, in order |
| Transcript.Zip | preprocessor.py:32 | `zip` pairs the elements position by position, up to the shorter list |
| Transcript.Pairs | group_chat_summarizer.py:38-40 | `zip(parts[0::2], parts[1::2])` after dropping the text before the first timestamp; `Transcript.PairsAt` states its elements |
| Transcript.PairsAt | preprocessor.py:23-32 | the i-th pair is the i-th captured timestamp and the body after it, and a trailing timestamp with no body is dropped |
| Transcript.CleanTimestamp | preprocessor.py:34 | after cleaning, the timestamp has no U+202F and no surrounding whitespace; it is a contiguous piece of the timestamp with each U+202F made a space, and only whitespace lies outside that piece |
| Transcript.CleanTimestampIdempotent | group_chat_summarizer.py:41 | cleaning an already cleaned timestamp changes nothing |
| Dates.AtMost | group_chat_summarizer.py:54 | Python's `<=` on dates: chronological order on `(year, month, day)`; `Dates.AtMostIsTotalOrder` states its properties |
| Dates.AtMostIsTotalOrder | group_chat_summarizer.py:54 | chronological order on `(year, month, day)` is a total order |
| WhatsappParser.Content | group_chat_summarizer.py:46-48 | the content is the stripped body, minus everything up to and including the first `": "` when there is one |
| WhatsappParser.Entry | group_chat_summarizer.py:41-49 | one iteration of the loop: nothing when the cleaned timestamp does not parse, otherwise the date and the content; `WhatsappParser.ParsedSurvivors` states the result |
| WhatsappParser.Parsed | group_chat_summarizer.py:37-50 | the list `parse_whatsapp` returns, as the entries of the pairs that parse; `WhatsappParser.ParseWhatsapp`, `WhatsappParser.ParsedCount` and `WhatsappParser.ParsedSurvivors` state its properties |
| WhatsappParser.ParseWhatsapp | group_chat_summarizer.py:37-50 | the loop returns exactly the specification list, and at most one message per timestamp |
| WhatsappParser.ParsedCount | group_chat_summarizer.py:38-49 | there are no more messages than pairs, nor more pairs than timestamps |
| WhatsappParser.ParsedSurvivors | group_chat_summarizer.py:40-49 | the messages are those of the pairs whose cleaned timestamp parses, in text order, each with its timestamp's date and its body's content |
| WhatsappParser.NothingParses | group_chat_summarizer.py:42-45 | when no timestamp parses, the result is empty |
| DateFilter.InWindow | group_chat_summarizer.py:54 | the test `start_day <= m[0] <= end_day`, both bounds included; `DateFilter.FilterByDates` states what it keeps |
| DateFilter.FilterByDates | group_chat_summarizer.py:53-54 | a message is kept exactly when `start <= date <= end`, both bounds included, and nothing is kept when `start > end` |
| DateFilter.FilterByDatesInOrder | group_chat_summarizer.py:53-54 | the kept messages are in their original order, each kept once |
| Chunker.Contents | group_chat_summarizer.py:58 | the loop reads the content of each message, in order |
| Chunker.Step | group_chat_summarizer.py:59-64 | one iteration: flush `current` and start again with the message when it would take `wc` over 2000, otherwise append it; `Chunker.StepKeeps` states the invariant it keeps |
| Chunker.Run | group_chat_summarizer.py:57-64 | the loop over all messages from empty buffers; `Chunker.RunConsistent` states its invariant |
| Chunker.Chunks | group_chat_summarizer.py:56-67 | the chunks that `whatsapp_chunk_text` returns: the buffers, then the last one if non-empty, each space-joined; `Chunker.ChunksKeepWords`, `Chunker.ChunksWithinCeiling` and `Chunker.EmptyChunks` state its properties |
| Chunker.Buffers | group_chat_summarizer.py:61-66 | the lists that become chunks at the end of the loop: the flushed ones, then `current` when it is not empty (`if current:`); `Chunker.GroupsPartition` states their contents |
| Chunker.Groups | group_chat_summarizer.py:57-66 | the buffers of the loop run over all messages; `Chunker.GroupsPartition`, `Chunker.GroupsWithinCeiling` and `Chunker.GroupsFlushedWhenFull` state their properties |
| Chunker.JoinAll | group_chat_summarizer.py:61 | each chunk is its buffer joined by single spaces |
| Chunker.WhatsappChunkText | group_chat_summarizer.py:56-67 | the loop returns exactly the specification chunks, no chunks exactly for no messages, and the same tokens and token count as the messages |
| Chunker.RunConsistent | group_chat_summarizer.py:57-64 | the loop invariant: buffers partition the messages seen, `wc` counts the current buffer, the ceiling holds, and the flush is greedy |
| Chunker.StepKeeps | group_chat_summarizer.py:59-64 | one iteration keeps the loop invariant, whether it flushes or appends |
| Chunker.StepCovers | group_chat_summarizer.py:60-63 | after an iteration the buffers still hold every message seen, in order, the new one last |
| Chunker.StepEmptyFirst | group_chat_summarizer.py:60-62 | an iteration creates an empty buffer only when it flushes before the first message |
| Chunker.FlushGreedy | group_chat_summarizer.py:60-62 | a flush happens only when the message does not fit, so every buffer after the first follows a full one |
| Chunker.AppendGreedy | group_chat_summarizer.py:63-64 | appending does not change the first message of the current buffer |
| Chunker.GroupsPartition | group_chat_summarizer.py:57-66 | flattening the buffers gives back the messages in order, so no message is lost or repeated, and there is at least one buffer exactly when there is at least one message |
| Chunker.GroupsWithinCeiling | group_chat_summarizer.py:60-64 | a buffer has at most 2000 tokens unless it holds exactly one message |
| Chunker.GroupsFlushedWhenFull | group_chat_summarizer.py:60-62 | every buffer after the first exists because its first message would have taken the previous buffer over 2000 |
| Chunker.EmptyGroupOnlyFirst | group_chat_summarizer.py:60-62 | a buffer is empty exactly when it is the first and the first message alone has more than 2000 tokens |
| Chunker.AllWordsJoinAll | group_chat_summarizer.py:61-66 | space-joining the buffers keeps their tokens, in order |
| Chunker.ChunksKeepWords | group_chat_summarizer.py:59-66 | the chunks hold the tokens of the messages, in order, so the total counts agree |
| Chunker.ChunksWithinCeiling | group_chat_summarizer.py:19 | every chunk has at most `MAX_WORD_COUNT` tokens unless it comes from a single message |
| Chunker.EmptyChunks | group_chat_summarizer.py:60-66 | a chunk is `""` exactly when it is the first and the first message is over the ceiling, or when its only message is empty |
| Chunker.EmptyMessageAlone | group_chat_summarizer.py:60-66 | an empty first message followed by one of more than 2000 tokens yields `""` as the first chunk, then a chunk of that message alone |
| Chunker.OverlongFirstMessage | group_chat_summarizer.py:60-63 | a first message of more than 2000 tokens yields `""` as the first chunk, followed by a chunk of that message alone |
| Summarizer.SummaryRequest | group_chat_summarizer.py:94-95 | the summary prompt is `SUMMARY_PROMPT`, a blank line, then the chunk |
| Summarizer.NewsletterRequest | group_chat_summarizer.py:97-98 | the intro prompt is `NEWSLETTER_PROMPT`, a newline, then the summary |
| Summarizer.RequestsAreInjective | group_chat_summarizer.py:94-98 | different texts give different prompts |
| Summarizer.Placeholder | group_chat_summarizer.py:107 | the text `f"Summary part {i} unavailable"`; `Summarizer.PlaceholderNamesChunk` and `Summarizer.ErrorTextIsNoPlaceholder` state its properties |
| Summarizer.PlaceholderNamesChunk | group_chat_summarizer.py:107 | the placeholder `"Summary part i unavailable"` determines `i` |
| Summarizer.Part | group_chat_summarizer.py:103-107 | one iteration: the service's text for the chunk's prompt, or the placeholder when the call fails; `Summarizer.PartsAreIsolated` states its properties |
| Summarizer.Parts | group_chat_summarizer.py:100-108 | there is exactly one part per chunk |
| Summarizer.SummarizeMessages | group_chat_summarizer.py:100-108 | the loop returns the per-chunk parts, in chunk order, joined by `"\n\n"`; `gen` stands for the call of `summarize_text`, so with a failing `gen` this is the intended flow, and the program as written is the instance `gen := PalmCapability(service)` |
| Summarizer.PartsAreIsolated | group_chat_summarizer.py:102-107 | part i is the service's text for chunk i, or the placeholder numbered i+1 when that call fails, whatever happens to the other chunks |
| Summarizer.SecondOfThreeFails | group_chat_summarizer.py:100-108 | when chunk 2 of 3 fails, the summary is text 1, `"Summary part 2 unavailable"` and text 3, separated by blank lines, so a failure does not stop the loop |
| Summarizer.WithIntro | group_chat_summarizer.py:133-138 | newsletter mode puts the intro and `"\n\n"` before the summary, and leaves the summary unchanged when the intro call fails |
| Summarizer.PalmApi | group_chat_summarizer.py:76-92 | `palm_api` returns the service's text, or the fixed warning text when the service fails |
| Summarizer.ErrorTextIsNoPlaceholder | group_chat_summarizer.py:89-92 | the warning text of `palm_api` is never a placeholder |
| Summarizer.PalmCapability | group_chat_summarizer.py:76-95 | the generator that the program as written hands to its callers: every call succeeds, with the text of `palm_api`; `Summarizer.PalmHidesFailures` states its consequence |
| Summarizer.PalmHidesFailures | group_chat_summarizer.py:87-92 | the code as written: a failing service call gives the warning text as the part, instead of the placeholder, and newsletter mode puts the warning in front of the summary |
| Pipeline.SummarizeChat | group_chat_summarizer.py:111-138 | `main` stops with invalid dates exactly when a date fails to parse, with no messages exactly when nothing parses, and with an empty range exactly when the filter keeps nothing; otherwise it composes the summary of the chunks of the filtered messages, with the intro in newsletter mode; as in `Summarizer.SummarizeMessages`, `gen` is the call the source makes, and the program as written is the instance `gen := PalmCapability(service)` |
| Preprocessor.SenderMatch | preprocessor.py:41 | the meaning of a match of `^([^:]+):\s*`: a non-empty colon-free group, the colon, then all the whitespace after it; `Preprocessor.MatchSender` and `Preprocessor.SenderMatchUnique` state that the match is found and unique |
| Preprocessor.MatchSender | preprocessor.py:41 | the reported match is a match of `^([^:]+):\s*` and, when none is reported, no match exists |
| Preprocessor.SenderMatchUnique | preprocessor.py:41 | the anchored, greedy pattern matches in at most one way |
| Preprocessor.FirstColonMatches | preprocessor.py:41 | when the first colon is at k > 0, the match ends at that colon and the whitespace after it |
| Preprocessor.SplitSender | preprocessor.py:41-45 | when the first colon follows at least one character, the user is the stripped text before it and the message is the stripped text after it; with no colon or a leading colon, the result is `("group_notification", stripped body)` |
| Preprocessor.SplitSenderCases | preprocessor.py:41-45 | the two branches of the split are taken in exactly the cases above |
| Preprocessor.Period | preprocessor.py:64 | the label `f"{h}-{(h+1)%24}"`; `Preprocessor.PeriodRoundTrip` and `Preprocessor.LastHourWraps` state its properties |
| Preprocessor.PeriodRoundTrip | preprocessor.py:64 | the label of hour h reads back as `(h, (h+1) mod 24)` |
| Preprocessor.ParseDashed | preprocessor.py:64 | two digit strings joined by `-` read back as their two values |
| Preprocessor.LastHourWraps | preprocessor.py:64 | hour 23 gives `"23-0"` |
| Preprocessor.RecordOf | preprocessor.py:34-47 | one iteration of the records loop: nothing when the cleaned timestamp does not parse, otherwise the date and time with the sender split of the body; `Preprocessor.PreprocessSurvivors` states the result |
| Preprocessor.Frame | preprocessor.py:53-64 | the rows of the frame, one per record; `Preprocessor.FramePeriods` states its contents |
| Preprocessor.Preprocess | preprocessor.py:5-66 | the rows are the frame of the records of the pairs, with at most one row per pair |
| Preprocessor.CollectRecords | preprocessor.py:31-47 | the loop returns exactly the specification records, skipping pairs whose timestamp fails |
| Preprocessor.FramePeriods | preprocessor.py:53-64 | there is one row per record, with its date, user and message, and with the `period` of its own hour |
| Preprocessor.ShortTranscriptIsEmpty | preprocessor.py:21-26 | fewer than two parts after the preamble give the empty frame |
| Preprocessor.PreprocessSurvivors | preprocessor.py:32-47 | the records are those of the pairs whose cleaned timestamp parses, in text order, each with its date and time and the sender split of its body |
| Preprocessor.SenderWithoutSpace | preprocessor.py:41-43 | on a body such as `"Alice:hi"` with no space after the colon, `parse_whatsapp` keeps the whole body while `preprocess` finds the user `Alice` |
| Preprocessor.NoSeparatorWithoutSpace | group_chat_summarizer.py:46-48 | a body without spaces has no `": "`, so `parse_whatsapp` keeps all of it |
| Preprocessor.SendersAgreeOnWellFormedBody | preprocessor.py:41-43 | on `name + ": " + text` the two parsers agree on the message, and `preprocess` finds the user `name` |
| Preprocessor.WellFormedContent | group_chat_summarizer.py:46-48 | `parse_whatsapp` reads `name + ": " + text` as `text` |
| Preprocessor.WellFormedSplit | preprocessor.py:41-43 | `preprocess` splits `name + ":" + blanks + text` into `(name, text)` |
| Preprocessor.BlanksThenText | preprocessor.py:43 | stripping blanks followed by a trimmed text gives that text |

## Left out

- The command-line entry `main(*sys.argv[1:])` (group_chat_summarizer.py:150-152) is not modelled. It passes every argument as a string, so `is_newsletter` is the string `"False"` or `"True"`, and any non-empty string is truthy and turns newsletter mode on. `Pipeline.SummarizeChat` takes a `bool` instead. That path also hands a file path string to `read_file`, which calls `getvalue()` on it, and a string has no such method.
- Reading and decoding the chat file (`read_file`), printing, and writing the summary file in `main` are I/O. `Pipeline.SummarizeChat` returns an `Outcome` instead.
- The regular-expression engine of `re.split(TIMESTAMP_RE, ...)` is library code. Its output `parts` is the model's input.
- `dateutil.parser.parse(dayfirst=True)` and `strptime("%m/%d/%Y")` are library code. They are the parameters `DayFirstParser` and `MonthFirstParser`. The model does not check that a `Date` is a real calendar day.
- The Gemini client and `configure` are a network service and global configuration. The service is a parameter of type `Generator`. `Summarizer.SummarizeMessages` and `Pipeline.SummarizeChat` take the generator that `summarize_text` and `generate_newsletter_intro` call, so that a failing call reaches the handlers. The program as written is their instance `gen := PalmCapability(service)`, in which no call fails (see Findings).
- `Generator` is a deterministic function of `(prompt, model)`. A run in which the same prompt gets two different answers has no counterpart, for example through the temperature of 0.7, or through a transient quota error on only one of two identical chunks. The model gives no meaning to the temperature, output-token and safety settings, or to the default model name.
- Summarizer.PalmApi: the diagnostic print before returning the warning text is not modelled.
- Summarizer.SummarizeMessages: the print of the error for a failed chunk (group_chat_summarizer.py:106) is output only and is not modelled.
- Pandas columns other than `period`, namely `only_date`, `year`, `month_num`, `month`, `day`, `day_name`, `hour` and `minute`, are not modelled, because they are library calendar functions. A row keeps the full date and time instead.
- The empty `DataFrame` is the empty sequence of rows, because the column schema of an empty frame has no counterpart.
- app.py (user interface and charts) and helper.py (statistics over the frame) are not part of this model.
- Preprocessor.CollectRecords: in the source this loop is inline in `preprocess`. A separate method keeps each proof small. It runs the same statements in the same order.

## Findings

| source | as written | input that shows it | evidently intended | confidence | as-written member | corrected member |
|---|---|---|---|---|---|---|
| group_chat_summarizer.py:87-92 | `palm_api` catches every service exception and returns a warning text. So `summarize_text` and `generate_newsletter_intro` never raise, and the handlers at lines 105-107 and 137-138 never run for a failed call | a service that fails on chunk i: part i is `"⚠️ Gemini API error …"`, not `"Summary part i unavailable"`; in newsletter mode that warning is put in front of the summary | a failed call reaches the caller, which puts the placeholder in for the part and leaves the summary without an intro | not executed | Summarizer.PalmHidesFailures | Summarizer.PartsAreIsolated |
