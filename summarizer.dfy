/**
 * The summariser: size classification, truncation of what is sent to the
 * language model, chunk-wise and hierarchical summarisation, the grouping
 * of chunk summaries into sections, and the two simulated summarisers that
 * pick sentences by position (defined in the source, called by nothing).
 *
 * The language model is a parameter `llm`: its reply to the prompt a call
 * renders (`Prompt`), standing for the whole API call including its fixed
 * error text when the request fails. The markdown clean-up `md` applied to
 * every reply is a parameter too. Each method also returns the calls it
 * makes, in order, so that the call pattern can be stated.
 */
module Summarizer {
  import opened PyString

  // ------------------------------------------------------------ size classification

  const LargeDocument: string := "Large Document"
  const SmallDocument: string := "Small Document"
  const Hierarchical: string := "Hierarchical Summarization"
  const ChunkWise: string := "Chunk-wise Summarization"

  /** The classification dictionary. */
  datatype SizeInfo = SizeInfo(isLarge: bool, wordCount: nat, pageEstimate: nat, classification: string)

  /**
   * Words are the whitespace-separated tokens; a page is 500 words, rounded
   * down; a document is large above 15 pages, that is from 8000 words on.
   */
  function ClassifyDocumentSize(text: string): (c: SizeInfo)
    ensures c.wordCount == |SplitWhitespace(text)|
    ensures 500 * c.pageEstimate <= c.wordCount < 500 * (c.pageEstimate + 1)
    ensures c.isLarge <==> c.wordCount >= 8000
    ensures c.classification == if c.isLarge then LargeDocument else SmallDocument
  {
    var words := |SplitWhitespace(text)|;
    var pages := words / 500;
    assert words == 500 * pages + words % 500;
    var isLarge := pages > 15;
    SizeInfo(isLarge, words, pages, if isLarge then LargeDocument else SmallDocument)
  }

  /** `text[:max_tokens * 4]`: four characters per token. */
  function TruncateForModel(text: string, maxTokens: int): (r: string)
    ensures r <= text
    ensures maxTokens >= 0 ==> |r| == if 4 * maxTokens < |text| then 4 * maxTokens else |text|
  {
    PrefixSlice(text, maxTokens * 4)
  }

  // ------------------------------------------------------------ prompts and calls

  const ChunkPromptHead: string :=
    "You are an expert document summarizer. Create a concise, accurate, and precise summary that captures only the most important information from the text chunk. Do not include unnecessary details. Provide the summary in plain text format without markdown formatting.\n\nText to summarize:\n"
  const ChunkPromptTail: string := "\n\nSummary (concise, accurate, precise):"
  const FinalPromptHead: string :=
    "You are an expert document summarizer. Create a concise, accurate, and precise final summary for the following combined text. Only include the most important points. Do not add unnecessary details. Provide the summary in plain text format.\n\nText:\n"
  const FinalPromptTail: string := "\n\nFinal Summary (concise, accurate, precise):"

  /** A request to the language model: a chunk (or section) summary, or the final summary. */
  datatype Call = SummarizeChunk(text: string) | SummarizeFinal(text: string)

  /** The model's reply to the prompt of a call; failures are already its fixed error text. */
  type Llm = Call -> string

  /** The prompt each call sends; a chunk is cut to 3000 tokens first, the final text is sent whole. */
  function Prompt(c: Call): string {
    match c
    case SummarizeChunk(t) => ChunkPromptHead + (TruncateForModel(t, 3000) + ChunkPromptTail)
    case SummarizeFinal(t) => FinalPromptHead + (t + FinalPromptTail)
  }

  /** A chunk prompt carries the chunk cut to 3000 tokens after its instructions; a final prompt the whole text. */
  lemma PromptLayout(c: Call)
    ensures c.SummarizeChunk? ==>
      ChunkPromptHead <= Prompt(c) && Prompt(c)[|ChunkPromptHead|..] == TruncateForModel(c.text, 3000) + ChunkPromptTail
    ensures c.SummarizeFinal? ==>
      FinalPromptHead <= Prompt(c) && Prompt(c)[|FinalPromptHead|..] == c.text + FinalPromptTail
  {
    match c
    case SummarizeChunk(t) => Splice(ChunkPromptHead, TruncateForModel(t, 3000) + ChunkPromptTail);
    case SummarizeFinal(t) => Splice(FinalPromptHead, t + FinalPromptTail);
  }

  /** What a call returns: the model's reply with its markdown cleaned up. */
  function Answer(llm: Llm, md: string -> string, c: Call): string {
    md(llm(c))
  }

  /** Only the first 12000 characters of a chunk reach the model: chunks that share them send the same prompt. */
  lemma PromptSeesPrefix(a: string, b: string)
    requires |a| >= 12000 && |b| >= 12000 && a[..12000] == b[..12000]
    ensures Prompt(SummarizeChunk(a)) == Prompt(SummarizeChunk(b))
  {
    assert TruncateForModel(a, 3000) == TruncateForModel(b, 3000);
  }

  /** One chunk-summary call per text, in order. */
  function ChunkCalls(texts: seq<string>): (r: seq<Call>)
    ensures |r| == |texts| && forall i :: 0 <= i < |texts| ==> r[i] == SummarizeChunk(texts[i])
    decreases |texts|
  {
    if texts == [] then [] else ChunkCalls(texts[..|texts| - 1]) + [SummarizeChunk(texts[|texts| - 1])]
  }

  /** The answers to a list of calls, in order. */
  function Answers(llm: Llm, md: string -> string, calls: seq<Call>): (r: seq<string>)
    ensures |r| == |calls|
    decreases |calls|
  {
    if calls == [] then [] else Answers(llm, md, calls[..|calls| - 1]) + [Answer(llm, md, calls[|calls| - 1])]
  }

  lemma {:induction false} AnswersAt(llm: Llm, md: string -> string, calls: seq<Call>, i: nat)
    requires i < |calls|
    ensures Answers(llm, md, calls)[i] == Answer(llm, md, calls[i])
    decreases |calls|
  {
    if i < |calls| - 1 {
      AnswersAt(llm, md, calls[..|calls| - 1], i);
    }
  }

  lemma ChunkCallsStep(texts: seq<string>, k: nat)
    requires k < |texts|
    ensures ChunkCalls(texts[..k + 1]) == ChunkCalls(texts[..k]) + [SummarizeChunk(texts[k])]
  {
    assert texts[..k + 1][..k] == texts[..k];
  }

  lemma AnswersStep(llm: Llm, md: string -> string, calls: seq<Call>, c: Call)
    ensures Answers(llm, md, calls + [c]) == Answers(llm, md, calls) + [Answer(llm, md, c)]
  {
    assert (calls + [c])[..|calls|] == calls;
  }

  /** Summarises each text in turn, as the per-chunk and per-section loops do. */
  method SummarizeEach(llm: Llm, md: string -> string, texts: seq<string>) returns (summaries: seq<string>, calls: seq<Call>)
    ensures calls == ChunkCalls(texts)
    ensures summaries == Answers(llm, md, calls)
  {
    summaries := [];
    calls := [];
    for i := 0 to |texts|
      invariant calls == ChunkCalls(texts[..i])
      invariant summaries == Answers(llm, md, calls)
    {
      var call := SummarizeChunk(texts[i]);
      var summary := md(llm(call));
      ChunkCallsStep(texts, i);
      AnswersStep(llm, md, calls, call);
      summaries := summaries + [summary];
      calls := calls + [call];
    }
    assert texts[..|texts|] == texts;
  }

  // ------------------------------------------------------------ sections

  /** `max(10, n // 10)`: about ten sections, of at least ten summaries each. */
  function SectionSize(n: nat): (size: nat)
    ensures size >= 10 && size >= n / 10 && (size == 10 || size == n / 10)
    ensures 10 * size <= (if n < 100 then 100 else n) < 10 * size + 10
  {
    if n / 10 > 10 then n / 10 else 10
  }

  /** The slices `xs[i:i + size]` for `i` in `range(0, len(xs), size)`. */
  function Partition<T>(xs: seq<T>, size: nat): seq<seq<T>>
    requires size > 0
    decreases |xs|
  {
    if xs == [] then []
    else if |xs| <= size then [xs]
    else [xs[..size]] + Partition(xs[size..], size)
  }

  function Flatten<T>(xss: seq<seq<T>>): seq<T>
    decreases |xss|
  {
    if xss == [] then [] else xss[0] + Flatten(xss[1..])
  }

  /** The sections, put back together, are the summaries in their order. */
  lemma {:induction false} PartitionFlatten<T>(xs: seq<T>, size: nat)
    requires size > 0
    ensures Flatten(Partition(xs, size)) == xs
    decreases |xs|
  {
    if xs != [] && |xs| > size {
      PartitionFlatten(xs[size..], size);
      assert ([xs[..size]] + Partition(xs[size..], size))[1..] == Partition(xs[size..], size);
      assert xs[..size] + xs[size..] == xs;
    } else if xs != [] {
      assert [xs][1..] == [];
      assert xs + [] == xs;
    }
  }

  /**
   * Every section is non-empty, all but the last hold exactly `size`
   * summaries, the last at most `size`, and there are `ceil(n / size)` of
   * them: the fewest sections of `size` that hold all `n` summaries.
   */
  lemma {:induction false} PartitionShape<T>(xs: seq<T>, size: nat)
    requires size > 0
    ensures var p := Partition(xs, size);
      && size * (|p| - 1) < |xs| <= size * |p|
      && (forall i :: 0 <= i < |p| ==> 0 < |p[i]| <= size)
      && (forall i :: 0 <= i < |p| - 1 ==> |p[i]| == size)
    decreases |xs|
  {
    if xs != [] && |xs| > size {
      var rest := Partition(xs[size..], size);
      PartitionShape(xs[size..], size);
      var p := [xs[..size]] + rest;
      assert Partition(xs, size) == p;
      assert size * |p| == size * |rest| + size;
      forall i | 0 <= i < |p| ensures 0 < |p[i]| <= size {
        if i > 0 { assert p[i] == rest[i - 1]; }
      }
      forall i | 0 <= i < |p| - 1 ensures |p[i]| == size {
        if i > 0 { assert p[i] == rest[i - 1]; }
      }
    }
  }

  /** Groups chunk summaries into sections of `SectionSize` summaries each. */
  method CreateSectionSummaries<T>(summaries: seq<T>) returns (sections: seq<seq<T>>)
    ensures sections == Partition(summaries, SectionSize(|summaries|))
  {
    var size := SectionSize(|summaries|);
    sections := [];
    var i := 0;
    while i < |summaries|
      invariant 0 <= i <= |summaries|
      invariant sections + Partition(summaries[i..], size) == Partition(summaries, size)
      decreases |summaries| - i
    {
      var section := if i + size <= |summaries| then summaries[i..i + size] else summaries[i..];
      var rest := summaries[i..];
      if |rest| <= size {
        assert section == rest;
        assert Partition(rest, size) == [section];
        i := |summaries|;
      } else {
        assert section == rest[..size];
        assert rest[size..] == summaries[i + size..];
        assert Partition(rest, size) == [section] + Partition(summaries[i + size..], size);
        i := i + size;
      }
      sections := sections + [section];
    }
    assert summaries[i..] == [];
  }

  /** " ".join of each section. */
  function JoinEach(sections: seq<seq<string>>): (r: seq<string>)
    ensures |r| == |sections| && forall i :: 0 <= i < |sections| ==> r[i] == Join(" ", sections[i])
    decreases |sections|
  {
    if sections == [] then [] else JoinEach(sections[..|sections| - 1]) + [Join(" ", sections[|sections| - 1])]
  }

  /** The texts of the section level: grouped sections above 50 chunk summaries, else the summaries themselves. */
  function SectionTexts(summaries: seq<string>): seq<string> {
    if |summaries| > 50 then JoinEach(Partition(summaries, SectionSize(|summaries|))) else summaries
  }

  /**
   * Grouping happens only above 50 chunk summaries; then the sections are the
   * fewest of `SectionSize(n)` summaries that hold all `n`, and joining the
   * sections with spaces gives the same text as joining the summaries.
   */
  lemma SectionCount(summaries: seq<string>)
    ensures |summaries| <= 50 ==> SectionTexts(summaries) == summaries
    ensures |summaries| > 50 ==>
      var c := |SectionTexts(summaries)|;
      var size := SectionSize(|summaries|);
      && size * (c - 1) < |summaries| <= size * c
      && Join(" ", SectionTexts(summaries)) == Join(" ", summaries)
  {
    if |summaries| > 50 {
      var size := SectionSize(|summaries|);
      PartitionShape(summaries, size);
      PartitionFlatten(summaries, size);
      PartitionNonEmpty(summaries, size);
      JoinSections(Partition(summaries, size));
    }
  }

  lemma PartitionNonEmpty<T>(xs: seq<T>, size: nat)
    requires size > 0
    ensures forall i :: 0 <= i < |Partition(xs, size)| ==> Partition(xs, size)[i] != []
  {
    PartitionShape(xs, size);
  }

  /** Joining the joined sections gives the join of all summaries, when no section is empty. */
  lemma {:induction false} JoinSections(sections: seq<seq<string>>)
    requires forall i :: 0 <= i < |sections| ==> sections[i] != []
    ensures Join(" ", JoinEach(sections)) == Join(" ", Flatten(sections))
    decreases |sections|
  {
    if |sections| > 1 {
      var rest := sections[1..];
      JoinSections(rest);
      JoinEachCons(sections);
      FlattenNonEmpty(rest);
      JoinConcat(" ", sections[0], Flatten(rest));
      JoinCons(" ", Join(" ", sections[0]), JoinEach(rest));
    } else if |sections| == 1 {
      assert Flatten(sections) == sections[0] + Flatten(sections[1..]);
      assert sections[0] + [] == sections[0];
    }
  }

  lemma JoinEachCons(sections: seq<seq<string>>)
    requires sections != []
    ensures JoinEach(sections) == [Join(" ", sections[0])] + JoinEach(sections[1..])
  {
    var r := [Join(" ", sections[0])] + JoinEach(sections[1..]);
    assert |r| == |JoinEach(sections)|;
    forall i | 0 <= i < |r| ensures r[i] == JoinEach(sections)[i] {
      if i > 0 { assert sections[1..][i - 1] == sections[i]; }
    }
  }

  lemma FlattenNonEmpty(sections: seq<seq<string>>)
    requires sections != [] && forall i :: 0 <= i < |sections| ==> sections[i] != []
    ensures |Flatten(sections)| >= 1
  {
    assert Flatten(sections) == sections[0] + Flatten(sections[1..]);
  }

  /** From 100 chunk summaries on, grouping yields ten or eleven sections. */
  lemma AboutTenSections(summaries: seq<string>)
    requires |summaries| >= 100
    ensures 10 <= |SectionTexts(summaries)| <= 11
  {
    var n := |summaries|;
    var c := |SectionTexts(summaries)|;
    var q := SectionSize(n);
    SectionCount(summaries);
    assert q * (c - 1) < n <= q * c;
    assert n == 10 * (n / 10) + n % 10;
    assert q == n / 10;
    assert 10 * q <= n < 10 * q + 10 <= 11 * q;
    if c <= 9 {
      MulMono(q, c, 9);
    }
    if c >= 12 {
      MulMono(q, 11, c - 1);
    }
  }

  lemma MulMono(a: nat, b: int, c: int)
    requires b <= c
    ensures a * b <= a * c
  {
    assert a * c - a * b == a * (c - b);
  }

  // ------------------------------------------------------------ summarisation

  /** The calls a small document makes: every chunk, then one final summary of the joined answers. */
  function SmallCalls(llm: Llm, md: string -> string, chunks: seq<string>): seq<Call> {
    ChunkCalls(chunks) + [SummarizeFinal(Join(" ", Answers(llm, md, ChunkCalls(chunks))))]
  }

  /** The calls a large document makes: every chunk, then every section text, then one final summary. */
  function LargeCalls(llm: Llm, md: string -> string, chunks: seq<string>): seq<Call> {
    var sections := SectionTexts(Answers(llm, md, ChunkCalls(chunks)));
    ChunkCalls(chunks) + ChunkCalls(sections)
    + [SummarizeFinal(Join(" ", Answers(llm, md, ChunkCalls(sections))))]
  }

  /** Chunk-wise summarisation: summarise every chunk, then summarise their space-joined summaries. */
  method SummarizeSmallDocument(llm: Llm, md: string -> string, chunks: seq<string>) returns (summary: string, calls: seq<Call>)
    ensures calls == SmallCalls(llm, md, chunks)
    ensures summary == Answer(llm, md, calls[|calls| - 1])
  {
    var summaries;
    summaries, calls := SummarizeEach(llm, md, chunks);
    var combined := Join(" ", summaries);
    var final := SummarizeFinal(combined);
    summary := md(llm(final));
    calls := calls + [final];
  }

  /** The texts summarised at the section level. */
  method GroupSummaries(chunkSummaries: seq<string>) returns (sectionTexts: seq<string>)
    ensures sectionTexts == SectionTexts(chunkSummaries)
  {
    if |chunkSummaries| > 50 {
      var sections := CreateSectionSummaries(chunkSummaries);
      sectionTexts := [];
      for i := 0 to |sections|
        invariant sectionTexts == JoinEach(sections[..i])
      {
        assert sections[..i + 1][..i] == sections[..i];
        sectionTexts := sectionTexts + [Join(" ", sections[i])];
      }
      assert sections[..|sections|] == sections;
    } else {
      sectionTexts := chunkSummaries;
    }
  }

  /**
   * Hierarchical summarisation: summarise every chunk, group the summaries
   * into sections when there are more than 50, summarise each section, then
   * summarise the space-joined section summaries.
   */
  method SummarizeLargeDocument(llm: Llm, md: string -> string, chunks: seq<string>) returns (summary: string, calls: seq<Call>)
    ensures calls == LargeCalls(llm, md, chunks)
    ensures summary == Answer(llm, md, calls[|calls| - 1])
  {
    var chunkSummaries, chunkCalls := SummarizeEach(llm, md, chunks);
    var sectionTexts := GroupSummaries(chunkSummaries);
    var sectionSummaries, sectionCalls := SummarizeEach(llm, md, sectionTexts);
    var final := SummarizeFinal(Join(" ", sectionSummaries));
    summary := md(llm(final));
    calls := chunkCalls + sectionCalls + [final];
  }

  /** The number of final-summary calls in a trace. */
  function FinalCount(calls: seq<Call>): nat
    decreases |calls|
  {
    if calls == [] then 0
    else FinalCount(calls[..|calls| - 1]) + (if calls[|calls| - 1].SummarizeFinal? then 1 else 0)
  }

  lemma {:induction false} ChunkCallsNoFinal(texts: seq<string>)
    ensures FinalCount(ChunkCalls(texts)) == 0
    decreases |texts|
  {
    if texts != [] {
      ChunkCallsNoFinal(texts[..|texts| - 1]);
    }
  }

  lemma {:induction false} FinalCountConcat(a: seq<Call>, b: seq<Call>)
    ensures FinalCount(a + b) == FinalCount(a) + FinalCount(b)
    decreases |b|
  {
    if b != [] {
      FinalCountConcat(a, b[..|b| - 1]);
      assert (a + b)[..|a + b| - 1] == a + b[..|b| - 1];
    } else {
      assert a + b == a;
    }
  }

  /**
   * A small document makes one call per chunk, in chunk order, and then exactly
   * one final-summary call, which is the last call.
   */
  lemma SmallCallPattern(llm: Llm, md: string -> string, chunks: seq<string>)
    ensures var calls := SmallCalls(llm, md, chunks);
      && |calls| == |chunks| + 1
      && (forall i :: 0 <= i < |chunks| ==> calls[i] == SummarizeChunk(chunks[i]))
      && calls[|chunks|].SummarizeFinal?
      && FinalCount(calls) == 1
  {
    var combined := Join(" ", Answers(llm, md, ChunkCalls(chunks)));
    assert ChunkCalls([]) == [];
    assert SmallCalls(llm, md, chunks) == ChunkCalls(chunks) + ChunkCalls([]) + [SummarizeFinal(combined)];
    TwoLevelTrace(chunks, [], combined);
  }

  /** Chunk calls for two lists of texts, then one final call. */
  lemma TwoLevelTrace(first: seq<string>, second: seq<string>, combined: string)
    ensures var calls := ChunkCalls(first) + ChunkCalls(second) + [SummarizeFinal(combined)];
      && |calls| == |first| + |second| + 1
      && (forall i :: 0 <= i < |first| ==> calls[i] == SummarizeChunk(first[i]))
      && (forall i :: 0 <= i < |second| ==> calls[|first| + i] == SummarizeChunk(second[i]))
      && calls[|first| + |second|] == SummarizeFinal(combined)
      && FinalCount(calls) == 1
  {
    var a := ChunkCalls(first);
    var b := ChunkCalls(second);
    var f := [SummarizeFinal(combined)];
    TwoLevelFinalCount(a, b, f, first, second);
    forall i | 0 <= i < |second| ensures (a + b + f)[|first| + i] == SummarizeChunk(second[i]) {
      assert (a + b + f)[|first| + i] == b[i];
    }
  }

  lemma TwoLevelFinalCount(a: seq<Call>, b: seq<Call>, f: seq<Call>, first: seq<string>, second: seq<string>)
    requires a == ChunkCalls(first) && b == ChunkCalls(second) && |f| == 1 && f[0].SummarizeFinal?
    ensures FinalCount(a + b + f) == 1
  {
    ChunkCallsNoFinal(first);
    ChunkCallsNoFinal(second);
    FinalCountConcat(a, b);
    FinalCountConcat(a + b, f);
    assert f[..0] == [];
  }

  /**
   * A large document makes one call per chunk, then one per section text, and
   * then exactly one final-summary call, which is the last call.
   */
  lemma LargeCallPattern(llm: Llm, md: string -> string, chunks: seq<string>)
    ensures var sections := SectionTexts(Answers(llm, md, ChunkCalls(chunks)));
      var calls := LargeCalls(llm, md, chunks);
      && |calls| == |chunks| + |sections| + 1
      && (forall i :: 0 <= i < |chunks| ==> calls[i] == SummarizeChunk(chunks[i]))
      && (forall i :: 0 <= i < |sections| ==> calls[|chunks| + i] == SummarizeChunk(sections[i]))
      && calls[|chunks| + |sections|].SummarizeFinal?
      && FinalCount(calls) == 1
  {
    var sections := SectionTexts(Answers(llm, md, ChunkCalls(chunks)));
    TwoLevelTrace(chunks, sections, Join(" ", Answers(llm, md, ChunkCalls(sections))));
  }

  /** The result dictionary of `summarize_document`. */
  datatype Report = Report(summary: string, classification: string, wordCount: nat, pageEstimate: nat,
                           chunkCount: nat, processingMethod: string)

  /**
   * Classifies the text, then summarises its chunks hierarchically when the
   * document is large and chunk-wise otherwise; the chunks are those the text
   * splitter produced from the text.
   */
  method SummarizeDocument(llm: Llm, md: string -> string, text: string, chunks: seq<string>) returns (report: Report, calls: seq<Call>)
    ensures var c := ClassifyDocumentSize(text);
      && calls == (if c.isLarge then LargeCalls(llm, md, chunks) else SmallCalls(llm, md, chunks))
      && report.summary == Answer(llm, md, calls[|calls| - 1])
      && report.classification == c.classification
      && report.wordCount == c.wordCount && report.pageEstimate == c.pageEstimate
      && report.chunkCount == |chunks|
      && report.processingMethod == if c.isLarge then Hierarchical else ChunkWise
  {
    var c := ClassifyDocumentSize(text);
    var summary, processing;
    if c.isLarge {
      summary, calls := SummarizeLargeDocument(llm, md, chunks);
      processing := Hierarchical;
    } else {
      summary, calls := SummarizeSmallDocument(llm, md, chunks);
      processing := ChunkWise;
    }
    report := Report(summary, c.classification, c.wordCount, c.pageEstimate, |chunks|, processing);
  }

  // ------------------------------------------------------------ simulated summaries

  /** `summary + '.'` unless it already ends with one. */
  function WithPeriod(s: string): (r: string)
    ensures EndsWith(s, ".") ==> r == s
    ensures !EndsWith(s, ".") ==> r == s + "."
    ensures EndsWith(r, ".")
  {
    if EndsWith(s, ".") then s else s + "."
  }

  /** The parts at the given positions, in the order of the positions. */
  function Pick(parts: seq<string>, idx: seq<nat>): (r: seq<string>)
    requires forall k :: 0 <= k < |idx| ==> idx[k] < |parts|
    ensures |r| == |idx| && forall k :: 0 <= k < |idx| ==> r[k] == parts[idx[k]]
  {
    seq(|idx|, k requires 0 <= k < |idx| => parts[idx[k]])
  }

  /** The positions strictly increase and stay below `n`. */
  predicate Ascending(idx: seq<nat>, n: nat) {
    forall k :: 0 <= k < |idx| ==> idx[k] < n && (k > 0 ==> idx[k - 1] < idx[k])
  }

  /** Sentences a chunk summary keeps: first, middle and last above four, otherwise the first two. */
  function ChunkPicks(n: nat): (idx: seq<nat>)
    requires n >= 3
    ensures |idx| >= 2 && Ascending(idx, n) && idx[0] == 0
    ensures n > 4 ==> idx == [0, n / 2, n - 1]
    ensures n <= 4 ==> idx == [0, 1]
  {
    if n > 4 then [0, n / 2, n - 1] else [0, 1]
  }

  /**
   * The sentences a final summary keeps: at most five (small) or six (large)
   * are kept whole; beyond that first, middle and last (small), or first,
   * quarter, three quarters and last (large).
   */
  function FinalPicks(n: nat, small: bool): (idx: seq<nat>)
    requires n >= 4
    ensures |idx| >= 3 && Ascending(idx, n) && idx[0] == 0 && idx[|idx| - 1] == n - 1
    ensures small && n <= 5 ==> idx == seq(n, k => k)
    ensures small && n > 5 ==> idx == [0, n / 2, n - 1]
    ensures !small && n <= 6 ==> idx == seq(n, k => k)
    ensures !small && n > 6 ==> idx == [0, n / 4, (3 * n) / 4, n - 1]
  {
    if (small && n <= 5) || (!small && n <= 6) then seq(n, k => k)
    else if small then [0, n / 2, n - 1]
    else [0, n / 4, (3 * n) / 4, n - 1]
  }

  /**
   * The simulated chunk summary: short texts (under 30 words, or at most two
   * ". "-parts) come back unchanged; otherwise the picked parts rejoined with
   * ". ", ending in a period.
   */
  function SimulateChunkSummary(text: string): (r: string)
    ensures |SplitWhitespace(text)| < 30 || |Split(text, ". ")| <= 2 ==> r == text
    ensures !(|SplitWhitespace(text)| < 30 || |Split(text, ". ")| <= 2) ==>
      var parts := Split(text, ". ");
      && EndsWith(r, ".")
      && r == WithPeriod(Join(". ", Pick(parts, ChunkPicks(|parts|))))
  {
    if |SplitWhitespace(text)| < 30 then text
    else
      var parts := Split(text, ". ");
      if |parts| <= 2 then text
      else WithPeriod(Join(". ", Pick(parts, ChunkPicks(|parts|))))
  }

  /**
   * The simulated final summary: at most three ". "-parts come back
   * unchanged; otherwise the picked parts, rejoined, ending in a period.
   * Only the type "small" selects the small-document rule.
   */
  function SimulateFinalSummary(combined: string, docType: string): (r: string)
    ensures |Split(combined, ". ")| <= 3 ==> r == combined
    ensures |Split(combined, ". ")| > 3 ==>
      var parts := Split(combined, ". ");
      var picked := Join(". ", Pick(parts, FinalPicks(|parts|, docType == "small")));
      EndsWith(r, ".") && r == WithPeriod(picked)
  {
    var parts := Split(combined, ". ");
    if |parts| <= 3 then combined
    else WithPeriod(Join(". ", Pick(parts, FinalPicks(|parts|, docType == "small"))))
  }

  /** The positions a final summary keeps are pairwise distinct and in text order. */
  lemma FinalPicksDistinct(n: nat, small: bool)
    requires n >= 4
    ensures var idx := FinalPicks(n, small);
      forall a, b :: 0 <= a < b < |idx| ==> idx[a] < idx[b]
  {
    var idx := FinalPicks(n, small);
    AscendingPairs(idx, n);
  }

  /** Ascending positions are pairwise in order, so the picked parts keep their order in the text. */
  lemma {:induction false} AscendingPairs(idx: seq<nat>, n: nat)
    requires Ascending(idx, n)
    ensures forall a, b :: 0 <= a < b < |idx| ==> idx[a] < idx[b]
    decreases |idx|
  {
    if |idx| > 1 {
      var init := idx[..|idx| - 1];
      assert Ascending(init, n) by {
        forall k | 0 <= k < |init| ensures init[k] < n && (k > 0 ==> init[k - 1] < init[k]) {
          assert init[k] == idx[k];
          if k > 0 { assert init[k - 1] == idx[k - 1]; }
        }
      }
      AscendingPairs(init, n);
      forall a, b | 0 <= a < b < |idx| ensures idx[a] < idx[b] {
        if b < |idx| - 1 {
          assert idx[a] == init[a] && idx[b] == init[b];
        } else if a < b - 1 {
          assert idx[a] == init[a] && idx[b - 1] == init[b - 1];
        }
      }
    }
  }
}
