/**
 * The web application's document logic: uploading a document (load it,
 * count its pages, summarise it, chunk it and remember the chunks under the
 * file name) and answering a query about it from the remembered chunks or
 * from a similarity search with one language-model call. The keyword-driven
 * simulated responder is modelled as defined; no route calls it.
 */
module QueryApp {
  import opened Wrappers
  import opened PyString
  import opened DocumentLoader
  import opened Summarizer

  // ------------------------------------------------------------ upload

  /** `os.path.join(directory, name)`: an absolute name replaces the directory. */
  function PathJoin(directory: string, name: string): (p: string)
    ensures name != [] && name[0] == '/' ==> p == name
    ensures !(name != [] && name[0] == '/') ==> p == directory + "/" + name && name <= p[|directory| + 1..]
  {
    if name != [] && name[0] == '/' then name
    else
      var p := directory + "/" + name;
      assert p[|directory| + 1..] == name;
      p
  }

  /** `get_page_count() or 1`: a missing or zero count becomes one page. */
  function PageCountOrOne(count: Option<nat>): (p: nat)
    ensures p >= 1
    ensures count.Some? && count.value > 0 ==> p == count.value
    ensures !(count.Some? && count.value > 0) ==> p == 1
  {
    if count.Some? && count.value > 0 then count.value else 1
  }

  /** The upload response. */
  datatype UploadResult = UploadResult(filename: string, summary: string, classification: string,
                                       chunkCount: nat, processingMethod: string, pageEstimate: nat)

  /** The query response; `contextChunks` is how many chunks the answer was based on. */
  datatype QueryResult = QueryResult(filename: string, query: string, answer: string, contextChunks: nat)

  // ------------------------------------------------------------ query context

  /** Documents of fewer chunks than this are answered from all their chunks. */
  const SmallDocumentChunks: nat := 20

  /**
   * The chunks a query is answered from: every stored chunk of a small
   * document, otherwise the hits of the similarity search for the query.
   */
  function ContextChunks(stored: Option<seq<string>>, searched: seq<string>): seq<string> {
    if stored.Some? && |stored.value| < SmallDocumentChunks then stored.value else searched
  }

  /** The stored chunks are used when they exist and are fewer than 20; otherwise the search hits. */
  lemma ContextChoice(stored: Option<seq<string>>, searched: seq<string>)
    ensures stored.Some? && |stored.value| < 20 ==> ContextChunks(stored, searched) == stored.value
    ensures !(stored.Some? && |stored.value| < 20) ==> ContextChunks(stored, searched) == searched
  {
  }

  const NotFoundLead: string := "I couldn't find specific information in the document that directly answers your question: '"
  const NotFoundTail: string := "'. The document may not contain relevant content for this query."

  /** The answer when there is no context: it quotes the query. */
  function NotFoundMessage(query: string): string {
    NotFoundLead + query + NotFoundTail
  }

  /**
   * A context longer than 8000 characters with more than twenty ". "-parts
   * is cut to its first five and last five parts; any other context is kept.
   */
  function TrimContext(full: string): string {
    var parts := Split(full, ". ");
    if |full| > 8000 && |parts| > 20 then Join(". ", parts[..5] + parts[|parts| - 5..]) else full
  }

  /**
   * Trimming keeps a context unless it is long and has many parts; a trimmed
   * context is the text of its first five parts, ". ", and the text of its
   * last five, so it begins and ends like the full context and is shorter.
   */
  lemma TrimContextShape(full: string)
    ensures var parts := Split(full, ". ");
      !(|full| > 8000 && |parts| > 20) ==> TrimContext(full) == full
    ensures var parts := Split(full, ". ");
      |full| > 8000 && |parts| > 20 ==>
        var head := Join(". ", parts[..5]);
        var tail := Join(". ", parts[|parts| - 5..]);
        && TrimContext(full) == head + ". " + tail
        && head <= full
        && |tail| <= |full| && full[|full| - |tail|..] == tail
        && |TrimContext(full)| < |full|
  {
    var parts := Split(full, ". ");
    if |full| > 8000 && |parts| > 20 {
      JoinSplit(full, ". ");
      JoinDropMiddle(". ", parts, 5, 5);
    }
  }

  const AnswerPromptHead: string :=
    "You are a helpful assistant that answers questions based on document content. Provide comprehensive, accurate answers using the given context. Use plain text format without markdown. Provide detailed responses that fully address the user's question.\n\nQuestion: "

  const AnswerPromptMiddle: string := "\n\nContext: "
  const AnswerPromptTail: string := "\n\nAnswer (comprehensive, plain text):"

  /** A request for a contextual answer: the query and the (trimmed) context. */
  datatype Question = Question(query: string, context: string)

  /** The model's reply to the prompt of a question. */
  type Answerer = Question -> string

  /** The prompt text of a question: the fixed instructions, then the query, then the context. */
  function QuestionPrompt(q: Question): string {
    AnswerPromptHead + (q.query + AnswerPromptMiddle + q.context + AnswerPromptTail)
  }

  /** The query follows the instructions, and the context follows the query. */
  lemma QuestionPromptLayout(q: Question)
    ensures AnswerPromptHead <= QuestionPrompt(q)
    ensures QuestionPrompt(q)[|AnswerPromptHead|..] == q.query + AnswerPromptMiddle + q.context + AnswerPromptTail
  {
    Splice(AnswerPromptHead, q.query + AnswerPromptMiddle + q.context + AnswerPromptTail);
  }

  /** The question `generate_contextual_response` asks for the context chunks. */
  function ContextualQuestion(query: string, contextChunks: seq<string>): Question {
    Question(query, TrimContext(Join(" ", contextChunks)))
  }

  /** The loader of an uploaded file, saved under "uploaded_docs". */
  function UploadLoader(filename: string): Loader {
    NewLoader(PathJoin("uploaded_docs", filename))
  }

  /** The text of an uploaded file: its loaded documents' contents joined by spaces. */
  function UploadedText(filename: string, src: Sources): string {
    JoinedText(Load(UploadLoader(filename), src))
  }

  /** The page estimate of an uploaded file. */
  function UploadedPages(filename: string, counts: CountSources): (p: nat)
    ensures p >= 1
  {
    PageCountOrOne(GetPageCount(UploadLoader(filename), counts))
  }

  /** Loads the saved file and counts its pages. */
  method LoadUpload(filename: string, src: Sources, counts: CountSources) returns (text: string, pageCount: nat)
    ensures text == UploadedText(filename, src) && pageCount == UploadedPages(filename, counts)
  {
    var location := PathJoin("uploaded_docs", filename);
    var loader := NewLoader(location);
    var documents := Load(loader, src);
    pageCount := PageCountOrOne(GetPageCount(loader, counts));
    text := JoinedText(documents);
  }

  // ------------------------------------------------------------ application state

  /** The application; `docChunks` is the chunks of every uploaded file, by file name. */
  class App {
    var docChunks: map<string, seq<string>>

    /** At start-up no chunks are stored. */
    constructor ()
      ensures docChunks == map[]
    {
      docChunks := map[];
    }

    /** The stored chunks of a file, if it was uploaded. */
    function Stored(filename: string): Option<seq<string>>
      reads this
    {
      if filename in docChunks then Some(docChunks[filename]) else None
    }

    /**
     * Uploading a file: the file is saved under "uploaded_docs"; it is
     * loaded, its pages counted, its joined text summarised and chunked, and
     * the chunks are stored under the file name, replacing earlier ones.
     * `split` is the summariser's text splitter, `chunkText` the one for
     * the vector store.
     */
    method Upload(filename: string, src: Sources, counts: CountSources, llm: Llm, md: string -> string,
                  split: string -> seq<string>, chunkText: string -> seq<string>)
      returns (r: UploadResult, calls: seq<Call>)
      modifies this
      ensures var text := UploadedText(filename, src);
        var c := ClassifyDocumentSize(text);
        && docChunks == old(docChunks)[filename := chunkText(text)]
        && calls == (if c.isLarge then LargeCalls(llm, md, split(text)) else SmallCalls(llm, md, split(text)))
        && r.filename == filename
        && r.summary == Answer(llm, md, calls[|calls| - 1])
        && r.classification == c.classification
        && r.chunkCount == |split(text)|
        && r.processingMethod == (if c.isLarge then Hierarchical else ChunkWise)
        && r.pageEstimate == UploadedPages(filename, counts)
        && r.pageEstimate >= 1
    {
      var text, pageCount := LoadUpload(filename, src, counts);
      var report;
      report, calls := SummarizeDocument(llm, md, text, split(text));
      var chunks := chunkText(text);
      docChunks := docChunks[filename := chunks];
      r := UploadResult(filename, report.summary, report.classification, report.chunkCount,
                        report.processingMethod, pageCount);
    }

    /**
     * Answering a query: from every stored chunk of a small document,
     * otherwise from `searched`, what the similarity search returns for the
     * query (its top five hits).
     */
    method Query(filename: string, query: string, searched: seq<string>, llm: Answerer)
      returns (r: QueryResult, prompts: seq<Question>)
      ensures var context := ContextChunks(Stored(filename), searched);
        && (filename in docChunks && |docChunks[filename]| < 20 ==> context == docChunks[filename])
        && r.filename == filename && r.query == query
        && r.contextChunks == |context|
        && (context == [] ==> r.answer == NotFoundMessage(query) && prompts == [])
        && (context != [] ==> prompts == [ContextualQuestion(query, context)] && r.answer == llm(prompts[0]))
    {
      var chunks := Stored(filename);
      var isSmall := false;
      if chunks.Some? {
        isSmall := |chunks.value| < SmallDocumentChunks;
      }
      var context;
      if isSmall {
        context := chunks.value;
      } else {
        context := searched;
      }
      var answer;
      answer, prompts := Respond(query, context, llm);
      r := QueryResult(filename, query, answer, |context|);
    }
  }

  /**
   * The answer over the context chunks: with none, the fixed not-found
   * message and the language model is not asked; otherwise the model's
   * answer to the one contextual prompt.
   */
  method Respond(query: string, context: seq<string>, llm: Answerer) returns (answer: string, prompts: seq<Question>)
    ensures context == [] ==> answer == NotFoundMessage(query) && prompts == []
    ensures context != [] ==> prompts == [ContextualQuestion(query, context)] && answer == llm(prompts[0])
  {
    if context == [] {
      answer := NotFoundMessage(query);
      prompts := [];
    } else {
      var prompt := ContextualQuestion(query, context);
      answer := llm(prompt);
      prompts := [prompt];
    }
  }

  /** After an upload whose chunks are fewer than 20, a query for that file is answered from exactly those chunks. */
  lemma UploadThenQuery(docChunks: map<string, seq<string>>, filename: string, chunks: seq<string>, searched: seq<string>)
    requires |chunks| < 20
    ensures var m := docChunks[filename := chunks];
      ContextChunks(if filename in m then Some(m[filename]) else None, searched) == chunks
  {
  }

  // ------------------------------------------------------------ simulated responses

  /** Python's `word in text`: the empty word is in every text. */
  predicate In(word: string, text: string) {
    word == [] || Contains(text, word)
  }

  /** `any(word in text for word in words)`. */
  predicate AnyIn(words: seq<string>, text: string) {
    exists i :: 0 <= i < |words| && In(words[i], text)
  }

  const KeyPointWords: seq<string> := ["key", "main", "important", "points", "summary"]
  const ExplainWords: seq<string> := ["explain", "what is", "how", "why"]
  const ConclusionQueryWords: seq<string> := ["conclusion", "result", "find", "found"]
  const ConclusionWords: seq<string> := ["conclude", "result", "therefore", "thus", "finally", "overall"]

  datatype QueryKind = KeyPoints | Explanation | Conclusions | General

  /** The first matching word list decides, in the order key points, explanation, conclusions. */
  function Classify(query: string): QueryKind {
    var q := Lower(query);
    if AnyIn(KeyPointWords, q) then KeyPoints
    else if AnyIn(ExplainWords, q) then Explanation
    else if AnyIn(ConclusionQueryWords, q) then Conclusions
    else General
  }

  /**
   * Precedence: a query with a key-point word is answered with key points
   * even if it also asks to explain or for a conclusion; an explanation word
   * wins over a conclusion word; a query with none is answered generally.
   */
  lemma ClassifyPrecedence(query: string)
    ensures Classify(query) == KeyPoints <==> AnyIn(KeyPointWords, Lower(query))
    ensures Classify(query) == Explanation <==> !AnyIn(KeyPointWords, Lower(query)) && AnyIn(ExplainWords, Lower(query))
    ensures Classify(query) == Conclusions <==>
      !AnyIn(KeyPointWords, Lower(query)) && !AnyIn(ExplainWords, Lower(query)) && AnyIn(ConclusionQueryWords, Lower(query))
    ensures Classify(query) == General <==>
      !AnyIn(KeyPointWords, Lower(query)) && !AnyIn(ExplainWords, Lower(query)) && !AnyIn(ConclusionQueryWords, Lower(query))
  {
  }

  // key points

  /** The stripped parts longer than ten characters, in order. */
  function LongStripped(parts: seq<string>): (r: seq<string>)
    ensures |r| <= |parts|
    decreases |parts|
  {
    if parts == [] then []
    else
      var last := Strip(parts[|parts| - 1]);
      LongStripped(parts[..|parts| - 1]) + (if |last| > 10 then [last] else [])
  }

  function Min(a: int, b: int): int {
    if a < b then a else b
  }

  /** The key points: among the first five sentences, those longer than ten characters once stripped. */
  function KeyPointsOf(sentences: seq<string>): seq<string> {
    LongStripped(sentences[..Min(5, |sentences|)])
  }

  /** Part `j` stripped is `x`, and `x` is longer than ten characters. */
  predicate LongAt(parts: seq<string>, j: int, x: string) {
    0 <= j < |parts| && |Strip(parts[j])| > 10 && x == Strip(parts[j])
  }

  lemma {:induction false} LongStrippedMembers(parts: seq<string>)
    ensures forall x :: x in LongStripped(parts) <==> exists j :: LongAt(parts, j, x)
    decreases |parts|
  {
    if parts != [] {
      var init := parts[..|parts| - 1];
      LongStrippedMembers(init);
      var last := Strip(parts[|parts| - 1]);
      assert LongStripped(parts) == LongStripped(init) + (if |last| > 10 then [last] else []);
      forall x ensures x in LongStripped(parts) <==> exists j :: LongAt(parts, j, x) {
        if exists j :: LongAt(parts, j, x) {
          var j :| LongAt(parts, j, x);
          if j < |parts| - 1 {
            assert LongAt(init, j, x);
          }
        }
        if x in LongStripped(init) {
          var j :| LongAt(init, j, x);
          assert LongAt(parts, j, x);
        } else if x in LongStripped(parts) {
          assert LongAt(parts, |parts| - 1, x);
        }
      }
    }
  }

  /**
   * At most five key points; a text is a key point exactly when it is one of
   * the first five sentences, stripped, and longer than ten characters.
   */
  lemma KeyPointsMembers(sentences: seq<string>)
    ensures |KeyPointsOf(sentences)| <= 5
    ensures forall x :: x in KeyPointsOf(sentences) <==>
      exists j :: 0 <= j < Min(5, |sentences|) && |Strip(sentences[j])| > 10 && x == Strip(sentences[j])
  {
    var first := sentences[..Min(5, |sentences|)];
    LongStrippedMembers(first);
    forall x ensures x in KeyPointsOf(sentences) <==>
      exists j :: 0 <= j < Min(5, |sentences|) && |Strip(sentences[j])| > 10 && x == Strip(sentences[j])
    {
      if x in KeyPointsOf(sentences) {
        var j :| LongAt(first, j, x);
        assert first[j] == sentences[j];
      }
      if exists j :: 0 <= j < Min(5, |sentences|) && |Strip(sentences[j])| > 10 && x == Strip(sentences[j]) {
        var j :| 0 <= j < Min(5, |sentences|) && |Strip(sentences[j])| > 10 && x == Strip(sentences[j]);
        assert LongAt(first, j, x);
      }
    }
  }

  /** Collects the key points sentence by sentence. */
  method ExtractKeyPoints(sentences: seq<string>) returns (keyPoints: seq<string>)
    ensures keyPoints == KeyPointsOf(sentences)
  {
    var first := sentences[..Min(5, |sentences|)];
    keyPoints := [];
    for i := 0 to |first|
      invariant keyPoints == LongStripped(first[..i])
    {
      assert first[..i + 1][..i] == first[..i];
      var point := Strip(first[i]);
      if |point| > 10 {
        keyPoints := keyPoints + [point];
      }
    }
    assert first[..|first|] == first;
  }

  /** Line `n` of a numbered list. */
  function NumberedLine(n: nat, point: string): string {
    NatToString(n) + ". " + point + "\n"
  }

  /** The numbered lines "1. point", "2. point", ... each ending in a newline. */
  function Numbered(points: seq<string>): string
    decreases |points|
  {
    if points == [] then ""
    else Numbered(points[..|points| - 1]) + NumberedLine(|points|, points[|points| - 1])
  }

  /** Numbering starts at one: the list opens with the first point as line "1.". */
  lemma {:induction false} NumberedFirst(points: seq<string>)
    requires points != []
    ensures "1. " + points[0] + "\n" <= Numbered(points)
    decreases |points|
  {
    var init := points[..|points| - 1];
    if |points| == 1 {
      assert NatToString(1) == "1";
      assert Numbered(points) == "" + NumberedLine(1, points[0]);
    } else {
      NumberedFirst(init);
      assert init[0] == points[0];
    }
  }

  /** Appends the numbered key points one line at a time. */
  method NumberKeyPoints(header: string, keyPoints: seq<string>) returns (answer: string)
    ensures answer == header + Numbered(keyPoints)
  {
    answer := header;
    for i := 0 to |keyPoints|
      invariant answer == header + Numbered(keyPoints[..i])
    {
      assert keyPoints[..i + 1][..i] == keyPoints[..i];
      answer := answer + NumberedLine(i + 1, keyPoints[i]);
    }
    assert keyPoints[..|keyPoints|] == keyPoints;
  }

  const KeyPointsHeader: string := "Based on the document content, here are the key points:\n\n"
  const NoKeyPoints: string :=
    "The document contains information about your query, but I couldn't extract specific key points from the available content."

  function KeyPointsAnswer(context: string): string {
    var points := KeyPointsOf(Split(context, ". "));
    if points != [] then KeyPointsHeader + Numbered(points) else NoKeyPoints
  }

  // explanations

  /** The first thousand characters followed by "...", or the whole context when it is no longer. */
  function RelevantPart(context: string): (r: string)
    ensures |context| <= 1000 ==> r == context
    ensures |context| > 1000 ==> |r| == 1003 && r[..1000] == context[..1000] && r[1000..] == "..."
  {
    if |context| > 1000 then context[..1000] + "..." else context
  }

  const ExplanationLead: string := "Based on the document, here's what I found regarding your question '"
  const ExplanationMiddle: string := "':\n\n"
  const ShortExplanationLead: string := "The document provides the following information about your query: "

  function ExplanationAnswer(query: string, context: string): string {
    if |context| > 300 then ExplanationLead + query + ExplanationMiddle + RelevantPart(context)
    else ShortExplanationLead + context
  }

  // conclusions

  /** The sentences that, lowercased, contain a conclusion word, in order and as written. */
  function ConclusionsOf(sentences: seq<string>): (r: seq<string>)
    ensures |r| <= |sentences|
    decreases |sentences|
  {
    if sentences == [] then []
    else
      var last := sentences[|sentences| - 1];
      ConclusionsOf(sentences[..|sentences| - 1]) + (if AnyIn(ConclusionWords, Lower(last)) then [last] else [])
  }

  /** A sentence is a conclusion exactly when, lowercased, it contains one of the conclusion words. */
  lemma {:induction false} ConclusionsMembers(sentences: seq<string>)
    ensures forall x :: x in ConclusionsOf(sentences) <==> x in sentences && AnyIn(ConclusionWords, Lower(x))
    decreases |sentences|
  {
    if sentences != [] {
      var init := sentences[..|sentences| - 1];
      ConclusionsMembers(init);
      assert sentences == init + [sentences[|sentences| - 1]];
    }
  }

  /** Collects the conclusion sentences one by one. */
  method FindConclusions(sentences: seq<string>) returns (found: seq<string>)
    ensures found == ConclusionsOf(sentences)
  {
    found := [];
    for i := 0 to |sentences|
      invariant found == ConclusionsOf(sentences[..i])
    {
      assert sentences[..i + 1][..i] == sentences[..i];
      if AnyIn(ConclusionWords, Lower(sentences[i])) {
        found := found + [sentences[i]];
      }
    }
    assert sentences[..|sentences|] == sentences;
  }

  /** A bulleted line. */
  function Bullet(sentence: string): string {
    "\U{2022} " + sentence + "\n"
  }

  /** One bulleted line per sentence. */
  function Bullets(sentences: seq<string>): string
    decreases |sentences|
  {
    if sentences == [] then ""
    else Bullets(sentences[..|sentences| - 1]) + Bullet(sentences[|sentences| - 1])
  }

  /** Appends at most three bulleted conclusions, the first ones found. */
  method BulletConclusions(header: string, found: seq<string>) returns (answer: string)
    ensures answer == header + Bullets(found[..Min(3, |found|)])
  {
    var shown := found[..Min(3, |found|)];
    answer := header;
    for i := 0 to |shown|
      invariant answer == header + Bullets(shown[..i])
    {
      assert shown[..i + 1][..i] == shown[..i];
      answer := answer + Bullet(shown[i]);
    }
    assert shown[..|shown|] == shown;
  }

  const ConclusionsHeader: string := "Based on the document analysis, here are the conclusions related to your query:\n\n"
  const NoConclusions: string :=
    "The document contains relevant information about your query, but I couldn't identify specific conclusions from the available content."

  function ConclusionsAnswer(context: string): string {
    var found := ConclusionsOf(Split(context, ". "));
    if found != [] then ConclusionsHeader + Bullets(found[..Min(3, |found|)]) else NoConclusions
  }

  // general answers

  /** The first eight ". "-parts of the context, rejoined. */
  function LeadingSentences(context: string): string {
    var parts := Split(context, ". ");
    Join(". ", parts[..Min(8, |parts|)])
  }

  /** The leading sentences are a prefix of the context, and the whole context when it has at most eight parts. */
  lemma LeadingSentencesPrefix(context: string)
    ensures LeadingSentences(context) <= context
    ensures |Split(context, ". ")| <= 8 ==> LeadingSentences(context) == context
  {
    var parts := Split(context, ". ");
    JoinSplit(context, ". ");
    JoinPrefix(". ", parts, Min(8, |parts|));
    assert |parts| <= 8 ==> parts[..Min(8, |parts|)] == parts;
  }

  const GeneralLead: string := "Regarding your question '"
  const GeneralMiddle: string := "', the document contains the following relevant information:\n\n"
  const ShortGeneralLead: string := "The document provides this information related to your query: "

  function GeneralAnswer(query: string, context: string): string {
    if |context| > 300 then GeneralLead + query + GeneralMiddle + LeadingSentences(context)
    else ShortGeneralLead + context
  }

  /** The simulated answer to a query over a context, markdown cleaned up by `md`. */
  function SimulatedResponse(query: string, context: string, md: string -> string): string {
    md(match Classify(query)
       case KeyPoints => KeyPointsAnswer(context)
       case Explanation => ExplanationAnswer(query, context)
       case Conclusions => ConclusionsAnswer(context)
       case General => GeneralAnswer(query, context))
  }

  /** The keyword-driven responder; the source defines it but no route calls it. */
  method GenerateSimulatedResponse(query: string, context: string, md: string -> string) returns (answer: string)
    ensures answer == SimulatedResponse(query, context, md)
  {
    var kind := Classify(query);
    match kind {
    case KeyPoints =>
      var keyPoints := ExtractKeyPoints(Split(context, ". "));
      if keyPoints != [] {
        answer := NumberKeyPoints(KeyPointsHeader, keyPoints);
      } else {
        answer := NoKeyPoints;
      }
    case Explanation =>
      answer := ExplanationAnswer(query, context);
    case Conclusions =>
      var found := FindConclusions(Split(context, ". "));
      if found != [] {
        answer := BulletConclusions(ConclusionsHeader, found);
      } else {
        answer := NoConclusions;
      }
    case General =>
      answer := GeneralAnswer(query, context);
    }
    answer := md(answer);
  }
}
