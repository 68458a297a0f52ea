/**
 * `whatsapp_chunk_text`: greedy packing of message contents into chunks
 * of at most `MAX_WORD_COUNT` whitespace-separated words.
 *
 * The loop flushes the buffer whenever the next message would take the
 * running count over the ceiling, without asking whether the buffer
 * holds anything. So when the first message alone has more than 2000
 * words, the first chunk is the empty string `' '.join([])`. The model
 * keeps that behaviour.
 */
module Chunker {
  import opened Text
  import opened Seqs
  import opened WhatsappParser

  /** `MAX_WORD_COUNT`. */
  const MaxWordCount: nat := 2000

  /** The message texts `msg for _, msg in messages`. */
  function Contents(messages: seq<Message>): (r: seq<string>)
    ensures |r| == |messages| && forall i :: 0 <= i < |r| ==> r[i] == messages[i].content
  {
    seq(|messages|, i requires 0 <= i < |messages| => messages[i].content)
  }

  /**
   * The loop's variables after some prefix of the messages: the buffers
   * already flushed (`chunks`, before joining), `current` and `wc`.
   */
  datatype Acc = Acc(flushed: seq<seq<string>>, current: seq<string>, wc: nat)

  /** One iteration of the loop body. */
  function Step(a: Acc, msg: string): Acc {
    var n := WordCount(msg);
    if a.wc + n > MaxWordCount then Acc(a.flushed + [a.current], [msg], n)
    else Acc(a.flushed, a.current + [msg], a.wc + n)
  }

  /** The loop run over `msgs`, from `chunks, current, wc = [], [], 0`. */
  function Run(msgs: seq<string>): Acc
    decreases |msgs|
  {
    if msgs == [] then Acc([], [], 0) else Step(Run(msgs[..|msgs| - 1]), msgs[|msgs| - 1])
  }

  /** The buffers that become chunks: the flushed ones, then `current` if it is not empty. */
  function Groups(msgs: seq<string>): seq<seq<string>> {
    Buffers(Run(msgs))
  }

  /** The flushed buffers, then `current` if it is not empty. */
  function Buffers(a: Acc): seq<seq<string>> {
    if a.current != [] then a.flushed + [a.current] else a.flushed
  }

  /** `[' '.join(g) for g in groups]`. */
  function JoinAll(groups: seq<seq<string>>): (r: seq<string>)
    ensures |r| == |groups| && forall i :: 0 <= i < |r| ==> r[i] == Join(" ", groups[i])
  {
    seq(|groups|, i requires 0 <= i < |groups| => Join(" ", groups[i]))
  }

  /** The chunks `whatsapp_chunk_text` returns for the message texts `msgs`. */
  function Chunks(msgs: seq<string>): seq<string> {
    JoinAll(Groups(msgs))
  }

  /** `whatsapp_chunk_text(messages)`. */
  method WhatsappChunkText(messages: seq<Message>) returns (chunks: seq<string>)
    ensures chunks == Chunks(Contents(messages))
    ensures chunks == [] <==> messages == []
    ensures AllWords(chunks) == AllWords(Contents(messages))
    ensures TotalWords(chunks) == TotalWords(Contents(messages))
  {
    ghost var texts := Contents(messages);
    var current: seq<string>, wc: nat;
    chunks, current, wc := [], [], 0;
    for k := 0 to |messages|
      invariant chunks == JoinAll(Run(texts[..k]).flushed)
      invariant current == Run(texts[..k]).current && wc == Run(texts[..k]).wc
    {
      RunStep(texts, k);
      var msg := messages[k].content;
      var words := Words(msg);
      if wc + |words| > MaxWordCount {
        JoinAllSnoc(Run(texts[..k]).flushed, current);
        chunks := chunks + [Join(" ", current)];
        current, wc := [], 0;
      }
      current := current + [msg];
      wc := wc + |words|;
    }
    assert texts[..|messages|] == texts;
    if current != [] {
      JoinAllSnoc(Run(texts).flushed, current);
      chunks := chunks + [Join(" ", current)];
    }
    GroupsPartition(texts);
    ChunksKeepWords(texts);
  }

  /** One iteration more: the loop's variables after `k + 1` messages. */
  lemma RunStep(msgs: seq<string>, k: nat)
    requires k < |msgs|
    ensures Run(msgs[..k + 1]) == Step(Run(msgs[..k]), msgs[k])
  {
    assert msgs[..k + 1][..k] == msgs[..k];
  }

  lemma JoinAllSnoc(gs: seq<seq<string>>, g: seq<string>)
    ensures JoinAll(gs + [g]) == JoinAll(gs) + [Join(" ", g)]
  {
  }

  // ---------------------------------------------------------- properties

  /**
   * The buffers partition the messages: flattening them gives back the
   * messages in order, without loss or repetition, and there is at least
   * one buffer exactly when there is at least one message.
   */
  lemma GroupsPartition(msgs: seq<string>)
    ensures Flatten(Groups(msgs)) == msgs
    ensures Groups(msgs) == [] <==> msgs == []
  {
    var a := Run(msgs);
    RunConsistent(msgs);
    if a.current != [] {
      FlattenSnoc(a.flushed, a.current);
    } else {
      assert a.flushed == [];
    }
  }

  /** A buffer goes over the ceiling only when it holds a single message. */
  lemma GroupsWithinCeiling(msgs: seq<string>)
    ensures forall i :: 0 <= i < |Groups(msgs)| ==>
              TotalWords(Groups(msgs)[i]) <= MaxWordCount || |Groups(msgs)[i]| == 1
  {
    RunWithinCeiling(msgs);
    BuffersWithinCeiling(Run(msgs));
  }

  lemma BuffersWithinCeiling(a: Acc)
    requires Counted(a) && Ceiling(a)
    ensures forall i :: 0 <= i < |Buffers(a)| ==> TotalWords(Buffers(a)[i]) <= MaxWordCount || |Buffers(a)[i]| == 1
  {
    var g := Buffers(a);
    forall i | 0 <= i < |g| ensures TotalWords(g[i]) <= MaxWordCount || |g[i]| == 1 {
      if i < |a.flushed| {
        assert g[i] == a.flushed[i];
      } else {
        assert g[i] == a.current;
      }
    }
  }

  /**
   * The packing is greedy: every buffer after the first was started
   * because its first message would have taken the previous buffer over
   * the ceiling.
   */
  lemma GroupsFlushedWhenFull(msgs: seq<string>)
    ensures forall i :: 1 <= i < |Groups(msgs)| ==>
              Groups(msgs)[i] != []
              && TotalWords(Groups(msgs)[i - 1]) + WordCount(Groups(msgs)[i][0]) > MaxWordCount
  {
    RunGreedy(msgs);
    BuffersGreedy(Run(msgs));
  }

  lemma BuffersGreedy(a: Acc)
    requires Greedy(a)
    ensures forall i :: 1 <= i < |Buffers(a)| ==>
              Buffers(a)[i] != [] && TotalWords(Buffers(a)[i - 1]) + WordCount(Buffers(a)[i][0]) > MaxWordCount
  {
    var g := Buffers(a);
    forall i | 1 <= i < |g|
      ensures g[i] != [] && TotalWords(g[i - 1]) + WordCount(g[i][0]) > MaxWordCount
    {
      if i < |a.flushed| {
        assert StartedFull(a.flushed, i);
        assert g[i] == a.flushed[i] && g[i - 1] == a.flushed[i - 1];
      } else {
        assert StartedFull(a.flushed + [a.current], |a.flushed|);
        assert g == a.flushed + [a.current];
      }
    }
  }

  /**
   * The only empty buffer is the first one, and it is there exactly when
   * the first message alone has more than `MaxWordCount` words.
   */
  lemma EmptyGroupOnlyFirst(msgs: seq<string>)
    ensures forall i :: 0 <= i < |Groups(msgs)| ==>
              (Groups(msgs)[i] == [] <==> i == 0 && WordCount(msgs[0]) > MaxWordCount)
  {
    RunConsistent(msgs);
    var a := Run(msgs);
    if a.current != [] && a.flushed == [] {
      assert WordCount(msgs[0]) <= MaxWordCount;
    }
  }

  /** Space-joining buffers keeps exactly the words of their messages, in order. */
  lemma {:induction false} AllWordsJoinAll(gs: seq<seq<string>>)
    ensures AllWords(JoinAll(gs)) == AllWords(Flatten(gs))
    decreases |gs|
  {
    if gs != [] {
      var init, last := gs[..|gs| - 1], gs[|gs| - 1];
      assert JoinAll(gs)[..|gs| - 1] == JoinAll(init);
      AllWordsJoinAll(init);
      WordsOfSpaceJoin(last);
      AllWordsAppend(Flatten(init), last);
    }
  }

  /**
   * Chunking keeps every word: the words of the chunks, in order, are the
   * words of the messages, so in particular their counts agree.
   */
  lemma ChunksKeepWords(msgs: seq<string>)
    ensures AllWords(Chunks(msgs)) == AllWords(msgs)
    ensures TotalWords(Chunks(msgs)) == TotalWords(msgs)
  {
    GroupsPartition(msgs);
    AllWordsJoinAll(Groups(msgs));
    TotalWordsCountsAllWords(Chunks(msgs));
    TotalWordsCountsAllWords(msgs);
  }

  /**
   * Every chunk has at most `MaxWordCount` words, unless it is made of a
   * single message.
   */
  lemma ChunksWithinCeiling(msgs: seq<string>)
    ensures forall i :: 0 <= i < |Chunks(msgs)| ==>
              WordCount(Chunks(msgs)[i]) <= MaxWordCount || |Groups(msgs)[i]| == 1
  {
    GroupsWithinCeiling(msgs);
    forall i | 0 <= i < |Chunks(msgs)|
      ensures WordCount(Chunks(msgs)[i]) == TotalWords(Groups(msgs)[i])
    {
      WordsOfSpaceJoin(Groups(msgs)[i]);
      TotalWordsCountsAllWords(Groups(msgs)[i]);
    }
  }

  /**
   * A chunk is the empty string exactly when it is the first one and the
   * first message has more than `MaxWordCount` words, or when its only
   * message is itself empty.
   */
  lemma EmptyChunks(msgs: seq<string>)
    ensures forall i :: 0 <= i < |Chunks(msgs)| ==>
              (Chunks(msgs)[i] == "" <==> (i == 0 && WordCount(msgs[0]) > MaxWordCount) || Groups(msgs)[i] == [""])
  {
    EmptyGroupOnlyFirst(msgs);
    forall i | 0 <= i < |Groups(msgs)| {
      JoinEmpty(" ", Groups(msgs)[i]);
    }
  }

  /** An over-long first message yields the empty first chunk, followed by a chunk holding that message. */
  lemma OverlongFirstMessage(msgs: seq<string>)
    requires msgs != [] && WordCount(msgs[0]) > MaxWordCount
    ensures |Chunks(msgs)| >= 2 && Chunks(msgs)[0] == "" && Chunks(msgs)[1] == msgs[0]
  {
    GroupsPartition(msgs);
    EmptyGroupOnlyFirst(msgs);
    GroupsWithinCeiling(msgs);
    GroupsFlushedWhenFull(msgs);
    var g := Groups(msgs);
    assert g[0] == [];
    assert |g| >= 2;
    assert g[1][0] == msgs[0] by {
      FlattenCons(g);
      FlattenCons(g[1..]);
    }
    assert |g[1]| == 1 by {
      if |g[1]| > 1 {
        TotalWordsCoversEach(g[1], 0);
      }
    }
    assert g[1] == [g[1][0]];
  }

  /**
   * The second way to an empty chunk: an empty message alone in its buffer,
   * here an empty first message followed by one that does not fit beside it.
   */
  lemma EmptyMessageAlone(x: string)
    requires WordCount(x) > MaxWordCount
    ensures Chunks(["", x]) == ["", x]
  {
    assert WordCount("") == 0;
    assert ["", x][..1] == [""];
    assert Run([""]) == Acc([], [""], 0);
    assert Run(["", x]) == Acc([[""]], [x], WordCount(x));
    assert Groups(["", x]) == [[""], [x]];
  }

  // ------------------------------------------------------- loop invariant

  /** What holds of the loop's variables after the messages `msgs`. */
  ghost predicate Consistent(msgs: seq<string>, a: Acc) {
    Covers(msgs, a) && Counted(a) && Ceiling(a) && StartsEmpty(msgs, a) && EmptyFirst(msgs, a) && Greedy(a)
  }

  /** Every message seen is in exactly one buffer, in order. */
  ghost predicate Covers(msgs: seq<string>, a: Acc) {
    Flatten(a.flushed) + a.current == msgs
  }

  /** `wc` counts the words of `current`. */
  predicate Counted(a: Acc) {
    a.wc == TotalWords(a.current)
  }

  /** The ceiling is exceeded only by a buffer of one message. */
  predicate Ceiling(a: Acc) {
    (a.wc <= MaxWordCount || |a.current| == 1)
    && forall i :: 0 <= i < |a.flushed| ==> TotalWords(a.flushed[i]) <= MaxWordCount || |a.flushed[i]| == 1
  }

  /** Before the first message nothing is buffered; after it `current` is never empty. */
  predicate StartsEmpty(msgs: seq<string>, a: Acc) {
    (a.current == [] <==> msgs == []) && (msgs == [] ==> a.flushed == [])
  }

  /** The only empty flushed buffer is the first, there when the first message is over the ceiling. */
  predicate EmptyFirst(msgs: seq<string>, a: Acc) {
    (forall i :: 0 <= i < |a.flushed| ==>
       (a.flushed[i] == [] <==> i == 0 && msgs != [] && WordCount(msgs[0]) > MaxWordCount))
    && (msgs != [] && WordCount(msgs[0]) > MaxWordCount ==> a.flushed != [] && a.flushed[0] == [])
  }

  /** Buffer `i` of `fl` was started because its first message did not fit in buffer `i - 1`. */
  predicate StartedFull(fl: seq<seq<string>>, i: nat)
    requires 1 <= i < |fl|
  {
    fl[i] != [] && TotalWords(fl[i - 1]) + WordCount(fl[i][0]) > MaxWordCount
  }

  /** Every buffer after the first, `current` included, was started because the one before was full. */
  predicate Greedy(a: Acc) {
    (forall i :: 1 <= i < |a.flushed| ==> StartedFull(a.flushed, i))
    && (a.flushed != [] && a.current != [] ==> StartedFull(a.flushed + [a.current], |a.flushed|))
  }

  lemma TotalWordsSnoc(ts: seq<string>, t: string)
    ensures TotalWords(ts + [t]) == TotalWords(ts) + WordCount(t)
  {
    assert (ts + [t])[..|ts|] == ts;
  }

  lemma TotalWordsSingle(t: string)
    ensures TotalWords([t]) == WordCount(t)
  {
    assert [t][..0] == [];
  }

  lemma FlattenSnoc(xss: seq<seq<string>>, xs: seq<string>)
    ensures Flatten(xss + [xs]) == Flatten(xss) + xs
  {
    assert (xss + [xs])[..|xss|] == xss;
  }

  lemma StepCovers(msgs: seq<string>, a: Acc, x: string)
    requires Covers(msgs, a)
    ensures Covers(msgs + [x], Step(a, x))
  {
    if a.wc + WordCount(x) > MaxWordCount {
      FlattenSnoc(a.flushed, a.current);
    }
  }

  lemma StepCounted(a: Acc, x: string)
    requires Counted(a)
    ensures Counted(Step(a, x))
  {
    if a.wc + WordCount(x) > MaxWordCount {
      TotalWordsSingle(x);
    } else {
      TotalWordsSnoc(a.current, x);
    }
  }

  lemma StepCeiling(a: Acc, x: string)
    requires Counted(a) && Ceiling(a)
    ensures Ceiling(Step(a, x))
  {
  }

  lemma StepStartsEmpty(msgs: seq<string>, a: Acc, x: string)
    requires StartsEmpty(msgs, a)
    ensures StartsEmpty(msgs + [x], Step(a, x))
  {
  }

  lemma StepEmptyFirst(msgs: seq<string>, a: Acc, x: string)
    requires Counted(a) && StartsEmpty(msgs, a) && EmptyFirst(msgs, a)
    requires msgs != [] && a.flushed == [] ==> a.current == msgs
    ensures EmptyFirst(msgs + [x], Step(a, x))
  {
    var ms := msgs + [x];
    assert ms[0] == if msgs == [] then x else msgs[0];
    if msgs != [] && a.wc + WordCount(x) <= MaxWordCount {
      assert Step(a, x).current[0] == a.current[0];
    }
  }

  lemma StepGreedy(msgs: seq<string>, a: Acc, x: string)
    requires Counted(a) && StartsEmpty(msgs, a) && Greedy(a)
    ensures Greedy(Step(a, x))
  {
    assert a.flushed != [] ==> a.current != [];
    if a.wc + WordCount(x) > MaxWordCount {
      FlushGreedy(a, x);
    } else {
      AppendGreedy(a, x, a.wc + WordCount(x));
    }
  }

  /** Flushing `current` because `x` does not fit keeps the buffers greedy. */
  lemma FlushGreedy(a: Acc, x: string)
    requires Counted(a) && Greedy(a) && (a.flushed != [] ==> a.current != [])
    requires a.wc + WordCount(x) > MaxWordCount
    ensures Greedy(Acc(a.flushed + [a.current], [x], WordCount(x)))
  {
    var fs := a.flushed + [a.current];
    forall i | 1 <= i < |fs| ensures StartedFull(fs, i) {
      if i < |a.flushed| {
        assert fs[i] == a.flushed[i] && fs[i - 1] == a.flushed[i - 1];
        assert StartedFull(a.flushed, i);
      } else {
        assert i == |a.flushed|;
      }
    }
    var gs := fs + [[x]];
    assert StartedFull(gs, |fs|) by {
      assert gs[|fs|] == [x] && gs[|fs| - 1] == a.current;
    }
  }

  /** Appending to a non-empty `current` does not change its first message. */
  lemma AppendGreedy(a: Acc, x: string, n: nat)
    requires Greedy(a) && (a.flushed != [] ==> a.current != [])
    ensures Greedy(Acc(a.flushed, a.current + [x], n))
  {
    if a.flushed != [] {
      var fs, gs := a.flushed + [a.current], a.flushed + [a.current + [x]];
      var k := |a.flushed|;
      assert fs[k - 1] == gs[k - 1] == a.flushed[k - 1];
      assert fs[k][0] == gs[k][0] == a.current[0];
      assert StartedFull(fs, k);
    }
  }

  /** One iteration keeps the invariant, whichever branch it takes. */
  lemma StepKeeps(msgs: seq<string>, a: Acc, x: string)
    requires Consistent(msgs, a)
    ensures Consistent(msgs + [x], Step(a, x))
  {
    StepCovers(msgs, a, x);
    StepCounted(a, x);
    StepCeiling(a, x);
    StepStartsEmpty(msgs, a, x);
    if msgs != [] && a.flushed == [] {
      assert Flatten(a.flushed) == [];
    }
    StepEmptyFirst(msgs, a, x);
    StepGreedy(msgs, a, x);
  }

  /** The part of the invariant about the ceiling, on its own. */
  lemma RunWithinCeiling(msgs: seq<string>)
    ensures Counted(Run(msgs)) && Ceiling(Run(msgs))
  {
    RunConsistent(msgs);
  }

  /** The part of the invariant about why buffers were flushed, on its own. */
  lemma RunGreedy(msgs: seq<string>)
    ensures Greedy(Run(msgs))
  {
    RunConsistent(msgs);
  }

  /** The loop keeps its invariant, from the first message to the last. */
  lemma {:induction false} RunConsistent(msgs: seq<string>)
    ensures Consistent(msgs, Run(msgs))
    decreases |msgs|
  {
    if msgs != [] {
      var init, x := msgs[..|msgs| - 1], msgs[|msgs| - 1];
      assert init + [x] == msgs;
      RunConsistent(init);
      StepKeeps(init, Run(init), x);
    }
  }
}
