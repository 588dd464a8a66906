/**
 * Document loading: the extension dispatch, the four-stage PDF cascade
 * (native text, OCR, alternative loaders, placeholder), per-page native and
 * OCR extraction, how many preprocessed image variants OCR sees, the search
 * over alternative loaders and the page-count estimate.
 *
 * Every foreign library enters as an input value: the pages PyMuPDF would
 * return in each text mode, what preprocessing succeeds, what the OCR engine
 * returns for each image variant and configuration, and what the other
 * loaders return or the message of the exception they raise.
 */
module DocumentLoader {
  import opened Wrappers
  import opened PyString
  import opened TextCleaner

  /** A LangChain document: page content plus the metadata the loader sets. */
  datatype Document = Document(content: string, page: int, source: string, extraction: Option<string>, error: Option<string>)

  /** What a library loader returned, or the message of the exception it raised. */
  datatype Outcome = Loaded(docs: seq<Document>) | Failed(message: string)

  function Contents(docs: seq<Document>): (r: seq<string>)
    ensures |r| == |docs| && forall i :: 0 <= i < |docs| ==> r[i] == docs[i].content
  {
    seq(|docs|, i requires 0 <= i < |docs| => docs[i].content)
  }

  /** The page contents joined by single spaces. */
  function JoinedText(docs: seq<Document>): string {
    Join(" ", Contents(docs))
  }

  lemma JoinedTextEmpty(docs: seq<Document>)
    requires Strip(JoinedText(docs)) != []
    ensures docs != []
  {
  }

  // ------------------------------------------------------------ the loader

  /** The loader for one file: its path and its lowercased extension. */
  datatype Loader = Loader(filePath: string, extension: string)

  /**
   * The extension is the lowercased suffix `os.path.splitext` splits off:
   * from the last dot on, when that dot lies in the last path component
   * and something other than dots precedes it there.
   */
  function NewLoader(filePath: string): (l: Loader)
    ensures l.filePath == filePath
    ensures l.extension == Lower(SplitExt(filePath))
    ensures var sep := RFind(filePath, '/'); var dot := RFind(filePath, '.');
      l.extension != [] <==> dot > sep && !OnlyDots(filePath, sep + 1, dot)
    ensures l.extension != [] ==> l.extension == Lower(filePath[RFind(filePath, '.')..])
    ensures |l.extension| <= |filePath| && l.extension == Lower(filePath[|filePath| - |l.extension|..])
    ensures l.extension == [] || (l.extension[0] == '.' && '.' !in l.extension[1..])
    ensures forall i :: 0 <= i < |l.extension| ==> !('A' <= l.extension[i] <= 'Z')
  {
    var ext := SplitExt(filePath);
    LowerSuffixShape(ext);
    Loader(filePath, Lower(ext))
  }

  /** Any capitalisation of a `.pdf` suffix selects the PDF route. */
  lemma UpperCaseSuffix(filePath: string, src: Sources)
    requires var e := SplitExt(filePath);
      |e| == 4 && e[0] == '.' && e[1] in "pP" && e[2] in "dD" && e[3] in "fF"
    ensures NewLoader(filePath).extension == ".pdf"
    ensures Selected(NewLoader(filePath), src) == LoadPdfWithOcr(src.pdf, filePath)
  {
    var l := Lower(SplitExt(filePath));
    assert l[0] == '.' && l[1] == 'p' && l[2] == 'd' && l[3] == 'f';
    assert l == ".pdf";
  }

  /** A capitalised suffix in a directory path selects the PDF route. */
  lemma ReportPdfExtension()
    ensures NewLoader("docs/Report.PDF").extension == ".pdf"
  {
    RFindAt("docs/Report.PDF", '.', 11);
    RFindAt("docs/Report.PDF", '/', 4);
    assert !OnlyDots("docs/Report.PDF", 5, 11);
    var e := SplitExt("docs/Report.PDF");
    assert e == ".PDF";
    var l := Lower(e);
    assert l[0] == '.' && l[1] == 'p' && l[2] == 'd' && l[3] == 'f';
    assert l == ".pdf";
  }

  /** Only the suffix after the last dot counts. */
  lemma LastDotExtension()
    ensures NewLoader("notes.tar.txt").extension == ".txt"
  {
    RFindAt("notes.tar.txt", '.', 9);
    RFindAt("notes.tar.txt", '/', -1);
    assert !OnlyDots("notes.tar.txt", 0, 9);
    var e := SplitExt("notes.tar.txt");
    assert e == ".txt";
    var l := Lower(e);
    assert l[0] == '.' && l[1] == 't' && l[2] == 'x' && l[3] == 't';
    assert l == ".txt";
  }

  /** A file name that starts with its only dot has no extension. */
  lemma LeadingDotNoExtension()
    ensures NewLoader("docs/.pdf").extension == ""
  {
    RFindAt("docs/.pdf", '.', 5);
    RFindAt("docs/.pdf", '/', 4);
  }

  /** A dot in a directory name is no extension. */
  lemma DirectoryDotNoExtension()
    ensures NewLoader("v1.2/README").extension == ""
  {
    RFindAt("v1.2/README", '.', 2);
    RFindAt("v1.2/README", '/', 4);
  }

  // ------------------------------------------------------------ pages numbered by position

  /** One document per page that yielded a text, numbered from 1 by position. */
  function PageDocs(found: seq<Option<string>>, source: string, extraction: Option<string>): seq<Document>
    decreases |found|
  {
    if found == [] then []
    else
      PageDocs(found[..|found| - 1], source, extraction)
      + (match found[|found| - 1]
         case None => []
         case Some(t) => [Document(t, |found|, source, extraction, None)])
  }

  /** Some document of the list is numbered `page`. */
  predicate HasPage(docs: seq<Document>, page: int) {
    exists j :: 0 <= j < |docs| && docs[j].page == page
  }

  lemma PageDocsStep(found: seq<Option<string>>, source: string, extraction: Option<string>, k: nat)
    requires k < |found|
    ensures PageDocs(found[..k + 1], source, extraction)
         == PageDocs(found[..k], source, extraction)
            + (match found[k] case None => [] case Some(t) => [Document(t, k + 1, source, extraction, None)])
  {
    assert found[..k + 1][..k] == found[..k];
  }

  /** The last page with a text gets the last document. */
  lemma PageDocsLast(found: seq<Option<string>>, source: string, extraction: Option<string>)
    requires found != []
    ensures var prev := PageDocs(found[..|found| - 1], source, extraction);
      var docs := PageDocs(found, source, extraction);
      && docs[..|prev|] == prev
      && (found[|found| - 1].None? ==> docs == prev)
      && (found[|found| - 1].Some? ==>
            |docs| == |prev| + 1 && docs[|prev|] == Document(found[|found| - 1].value, |found|, source, extraction, None))
  {
  }

  /** Each document carries the text of its page, whose number lies in 1..|found|. */
  lemma {:induction false} PageDocsContent(found: seq<Option<string>>, source: string, extraction: Option<string>)
    ensures var docs := PageDocs(found, source, extraction);
      && |docs| <= |found|
      && forall j :: 0 <= j < |docs| ==>
           1 <= docs[j].page <= |found| && found[docs[j].page - 1] == Some(docs[j].content)
           && docs[j].source == source && docs[j].extraction == extraction && docs[j].error == None
    decreases |found|
  {
    if found != [] {
      var init := found[..|found| - 1];
      PageDocsContent(init, source, extraction);
      PageDocsLast(found, source, extraction);
      var prev := PageDocs(init, source, extraction);
      var docs := PageDocs(found, source, extraction);
      forall j | 0 <= j < |docs|
        ensures 1 <= docs[j].page <= |found| && found[docs[j].page - 1] == Some(docs[j].content)
        ensures docs[j].source == source && docs[j].extraction == extraction && docs[j].error == None
      {
        if j < |prev| {
          assert docs[j] == prev[j];
          assert init[prev[j].page - 1] == found[prev[j].page - 1];
        }
      }
    }
  }

  /** Page numbers strictly increase along the documents. */
  lemma {:induction false} PageDocsIncreasing(found: seq<Option<string>>, source: string, extraction: Option<string>)
    ensures var docs := PageDocs(found, source, extraction);
      forall a, b :: 0 <= a < b < |docs| ==> docs[a].page < docs[b].page
    decreases |found|
  {
    if found != [] {
      var init := found[..|found| - 1];
      PageDocsIncreasing(init, source, extraction);
      PageDocsContent(init, source, extraction);
      PageDocsLast(found, source, extraction);
      var prev := PageDocs(init, source, extraction);
      var docs := PageDocs(found, source, extraction);
      forall a, b | 0 <= a < b < |docs| ensures docs[a].page < docs[b].page {
        assert docs[a] == prev[a];
        if b < |prev| {
          assert docs[b] == prev[b];
        }
      }
    }
  }

  /** Every page with a text has a document. */
  lemma {:induction false} PageDocsComplete(found: seq<Option<string>>, source: string, extraction: Option<string>)
    ensures var docs := PageDocs(found, source, extraction);
      forall i :: 0 <= i < |found| && found[i].Some? ==> HasPage(docs, i + 1)
    decreases |found|
  {
    if found != [] {
      var n := |found|;
      var init := found[..n - 1];
      PageDocsComplete(init, source, extraction);
      PageDocsLast(found, source, extraction);
      var prev := PageDocs(init, source, extraction);
      var docs := PageDocs(found, source, extraction);
      forall i | 0 <= i < n && found[i].Some?
        ensures HasPage(docs, i + 1)
      {
        if i == n - 1 {
          assert docs[|prev|].page == i + 1;
        } else {
          assert init[i] == found[i];
          var j :| 0 <= j < |prev| && prev[j].page == i + 1;
          assert docs[j] == prev[j];
        }
      }
    }
  }

  /**
   * Page numbers lie in 1..|found|, strictly increase, and a page has a
   * document exactly when it yielded a text, which is then its content.
   */
  lemma PageDocsNumbered(found: seq<Option<string>>, source: string, extraction: Option<string>)
    ensures var docs := PageDocs(found, source, extraction);
      && |docs| <= |found|
      && (forall j :: 0 <= j < |docs| ==>
            1 <= docs[j].page <= |found| && found[docs[j].page - 1] == Some(docs[j].content)
            && docs[j].source == source && docs[j].extraction == extraction && docs[j].error == None)
      && (forall a, b :: 0 <= a < b < |docs| ==> docs[a].page < docs[b].page)
      && (forall i :: 0 <= i < |found| ==> (found[i].Some? <==> HasPage(docs, i + 1)))
  {
    PageDocsContent(found, source, extraction);
    PageDocsIncreasing(found, source, extraction);
    PageDocsComplete(found, source, extraction);
  }

  // ------------------------------------------------------------ native text extraction

  /** A page as PyMuPDF sees it: its default text, its "text" mode text, and its span texts. */
  datatype NativePage = NativePage(plain: string, textMode: string, spans: seq<string>)

  /** The text settled on for one page: another mode is tried only while the stripped text is shorter than 10. */
  function PageText(p: NativePage): string {
    if |Strip(p.plain)| >= 10 then p.plain
    else if |Strip(p.textMode)| >= 10 then p.textMode
    else Join(" ", p.spans)
  }

  function NativeFound(p: NativePage): Option<string> {
    var t := Strip(PageText(p));
    if t != [] then Some(t) else None
  }

  /** The settled, stripped text of every page, `None` where it is blank. */
  function NativeFoundAll(pages: seq<NativePage>): (r: seq<Option<string>>)
    ensures |r| == |pages|
    decreases |pages|
  {
    if pages == [] then [] else NativeFoundAll(pages[..|pages| - 1]) + [NativeFound(pages[|pages| - 1])]
  }

  lemma {:induction false} NativeFoundAt(pages: seq<NativePage>, i: nat)
    requires i < |pages|
    ensures NativeFoundAll(pages)[i] == NativeFound(pages[i])
    decreases |pages|
  {
    if i < |pages| - 1 {
      NativeFoundAt(pages[..|pages| - 1], i);
    }
  }

  /** What native extraction returns; `None` stands for PyMuPDF raising, which yields no pages. */
  function NativeDocs(pdf: Option<seq<NativePage>>, path: string): seq<Document> {
    match pdf
    case None => []
    case Some(pages) => PageDocs(NativeFoundAll(pages), path, None)
  }

  /** Native extraction, page by page. */
  method ExtractWithPyMuPdf(pdf: Option<seq<NativePage>>, path: string) returns (docs: seq<Document>)
    ensures docs == NativeDocs(pdf, path)
  {
    if pdf.None? {
      return [];
    }
    var pages := pdf.value;
    ghost var found := NativeFoundAll(pages);
    docs := [];
    for k := 0 to |pages|
      invariant docs == PageDocs(found[..k], path, None)
    {
      var page := pages[k];
      var text := page.plain;
      if |Strip(text)| < 10 {
        text := page.textMode;
      }
      if |Strip(text)| < 10 {
        text := Join(" ", page.spans);
      }
      assert text == PageText(page);
      NativeFoundAt(pages, k);
      PageDocsStep(found, path, None, k);
      var stripped := Strip(text);
      if |stripped| > 0 {
        docs := docs + [Document(stripped, k + 1, path, None, None)];
      }
    }
    assert found[..|pages|] == found;
  }

  /** `d` is the stripped, non-empty native text of one of the pages, with its page number. */
  predicate NativePageDoc(pages: seq<NativePage>, path: string, d: Document) {
    1 <= d.page <= |pages| && d.content == Strip(PageText(pages[d.page - 1]))
    && d.content != [] && d.source == path && d.extraction == None
  }

  lemma NativeDocAt(pages: seq<NativePage>, path: string, j: nat)
    requires j < |PageDocs(NativeFoundAll(pages), path, None)|
    ensures NativePageDoc(pages, path, PageDocs(NativeFoundAll(pages), path, None)[j])
  {
    var found := NativeFoundAll(pages);
    PageDocsContent(found, path, None);
    var d := PageDocs(found, path, None)[j];
    assert 1 <= d.page <= |found| && found[d.page - 1] == Some(d.content);
    NativeFoundAt(pages, d.page - 1);
  }

  /** Every native document holds the stripped, non-empty text of the page it names. */
  lemma NativeDocsContent(pages: seq<NativePage>, path: string)
    ensures var docs := NativeDocs(Some(pages), path);
      forall j :: 0 <= j < |docs| ==> NativePageDoc(pages, path, docs[j])
  {
    var docs := NativeDocs(Some(pages), path);
    forall j | 0 <= j < |docs| ensures NativePageDoc(pages, path, docs[j]) {
      NativeDocAt(pages, path, j);
    }
  }

  /** Page i+1 is among the documents exactly when the page's text was found. */
  lemma PageDocsHasPage(found: seq<Option<string>>, source: string, extraction: Option<string>, i: nat)
    requires i < |found|
    ensures HasPage(PageDocs(found, source, extraction), i + 1) <==> found[i].Some?
  {
    var docs := PageDocs(found, source, extraction);
    PageDocsContent(found, source, extraction);
    PageDocsComplete(found, source, extraction);
    if HasPage(docs, i + 1) {
      var j :| 0 <= j < |docs| && docs[j].page == i + 1;
      assert found[docs[j].page - 1] == Some(docs[j].content);
    }
  }

  /** Page i+1 has a native document exactly when its settled text is not blank. */
  lemma NativeDocsComplete(pages: seq<NativePage>, path: string)
    ensures var docs := NativeDocs(Some(pages), path);
      forall i :: 0 <= i < |pages| ==>
        (Strip(PageText(pages[i])) != [] <==> HasPage(docs, i + 1))
  {
    var found := NativeFoundAll(pages);
    var docs := NativeDocs(Some(pages), path);
    assert docs == PageDocs(found, path, None);
    forall i | 0 <= i < |pages|
      ensures Strip(PageText(pages[i])) != [] <==> HasPage(docs, i + 1)
    {
      NativeFoundAt(pages, i);
      PageDocsHasPage(found, path, None, i);
    }
  }

  /** Native documents are numbered in strictly increasing page order. */
  lemma NativeDocsIncreasing(pages: seq<NativePage>, path: string)
    ensures var docs := NativeDocs(Some(pages), path);
      forall a, b :: 0 <= a < b < |docs| ==> docs[a].page < docs[b].page
  {
    var found := NativeFoundAll(pages);
    PageDocsIncreasing(found, path, None);
    var docs := NativeDocs(Some(pages), path);
    assert docs == PageDocs(found, path, None);
    forall a, b | 0 <= a < b < |docs| ensures docs[a].page < docs[b].page {
      assert PageDocs(found, path, None)[a].page < PageDocs(found, path, None)[b].page;
    }
  }

  // ------------------------------------------------------------ image preprocessing

  /** The four base images: three thresholdings and the denoised grayscale itself. */
  datatype Base = Adaptive | Otsu | Fixed | Denoised

  /** An image handed to the OCR engine. */
  datatype Variant =
    | PageImage            // the page as rendered, used when conversion to PIL fails
    | RawArray             // the unprocessed array, when grayscale or denoising fails
    | ClosedSmall(b: Base) // closed with the 1x1 kernel
    | ClosedMedium(b: Base) // closed with the 2x2 kernel
    | Unclosed(b: Base)    // kept as is after a closing failed

  /** How the two morphological closings of one base image go. */
  datatype Closing = BothClosings | MediumFails | SmallFails

  /** Which preprocessing steps succeed on one page. */
  datatype Preprocessing = Preprocessing(grayOk: bool, adaptiveOk: bool, otsuOk: bool, fixedOk: bool, closing: Base -> Closing)

  function Bases(prep: Preprocessing): seq<Base> {
    (if prep.adaptiveOk then [Adaptive] else [])
    + (if prep.otsuOk then [Otsu] else [])
    + (if prep.fixedOk then [Fixed] else [])
    + [Denoised]
  }

  function Closings(b: Base, c: Closing): seq<Variant> {
    match c
    case BothClosings => [ClosedSmall(b), ClosedMedium(b)]
    case MediumFails => [ClosedSmall(b), Unclosed(b)]
    case SmallFails => [Unclosed(b)]
  }

  function CloseAll(bases: seq<Base>, closing: Base -> Closing): seq<Variant>
    decreases |bases|
  {
    if bases == [] then []
    else CloseAll(bases[..|bases| - 1], closing) + Closings(bases[|bases| - 1], closing(bases[|bases| - 1]))
  }

  /** The images preprocessing returns. */
  function Variants(prep: Preprocessing): seq<Variant> {
    if !prep.grayOk then [RawArray] else CloseAll(Bases(prep), prep.closing)
  }

  lemma {:induction false} CloseAllCount(bases: seq<Base>, closing: Base -> Closing)
    ensures |bases| <= |CloseAll(bases, closing)| <= 2 * |bases|
    ensures RawArray !in CloseAll(bases, closing)
    decreases |bases|
  {
    if bases != [] {
      CloseAllCount(bases[..|bases| - 1], closing);
    }
  }

  /** Preprocessing returns between one and eight images, and only the raw array when grayscale fails. */
  lemma VariantCount(prep: Preprocessing)
    ensures 1 <= |Variants(prep)| <= 8
    ensures Variants(prep) == [RawArray] <==> !prep.grayOk
  {
    if prep.grayOk {
      CloseAllCount(Bases(prep), prep.closing);
      assert RawArray in [RawArray];
    }
  }

  lemma CloseAllStep(bases: seq<Base>, closing: Base -> Closing, k: nat)
    requires k < |bases|
    ensures CloseAll(bases[..k + 1], closing) == CloseAll(bases[..k], closing) + Closings(bases[k], closing(bases[k]))
  {
    assert bases[..k + 1][..k] == bases[..k];
  }

  /** Preprocessing of one page image. */
  method PreprocessImage(prep: Preprocessing) returns (variants: seq<Variant>)
    ensures variants == Variants(prep)
    ensures 1 <= |variants| <= 8
    ensures variants == [RawArray] <==> !prep.grayOk
  {
    VariantCount(prep);
    if !prep.grayOk {
      return [RawArray];
    }
    var processed: seq<Base> := [];
    if prep.adaptiveOk {
      processed := processed + [Adaptive];
    }
    if prep.otsuOk {
      processed := processed + [Otsu];
    }
    if prep.fixedOk {
      processed := processed + [Fixed];
    }
    processed := processed + [Denoised];
    assert processed == Bases(prep);
    variants := [];
    for k := 0 to |processed|
      invariant variants == CloseAll(processed[..k], prep.closing)
    {
      var b := processed[k];
      CloseAllStep(processed, prep.closing, k);
      match prep.closing(b)
      case BothClosings =>
        variants := variants + [ClosedSmall(b), ClosedMedium(b)];
      case MediumFails =>
        variants := variants + [ClosedSmall(b), Unclosed(b)];
      case SmallFails =>
        variants := variants + [Unclosed(b)];
    }
    assert processed[..|processed|] == processed;
  }

  // ------------------------------------------------------------ OCR

  /** The ten Tesseract configurations, one constructor each. */
  datatype OcrConfig =
    | Default | Alphanumeric | SparseText | SingleLine | SingleWord
    | CircularText | SingleChar | SparseTextAlt | RawLine | UniformBlock

  /** The order the configurations are tried in. */
  const OcrConfigs: seq<OcrConfig> := [
    Default, Alphanumeric, SparseText, SingleLine, SingleWord,
    CircularText, SingleChar, SparseTextAlt, RawLine, UniformBlock
  ]

  /** Every configuration is tried, each exactly once. */
  lemma OcrConfigsComplete(c: OcrConfig)
    ensures |OcrConfigs| == 10
    ensures exists i :: 0 <= i < |OcrConfigs| && OcrConfigs[i] == c
    ensures forall i, j :: 0 <= i < j < |OcrConfigs| ==> OcrConfigs[i] != OcrConfigs[j]
  {
    match c
    case Default => assert OcrConfigs[0] == c;
    case Alphanumeric => assert OcrConfigs[1] == c;
    case SparseText => assert OcrConfigs[2] == c;
    case SingleLine => assert OcrConfigs[3] == c;
    case SingleWord => assert OcrConfigs[4] == c;
    case CircularText => assert OcrConfigs[5] == c;
    case SingleChar => assert OcrConfigs[6] == c;
    case SparseTextAlt => assert OcrConfigs[7] == c;
    case RawLine => assert OcrConfigs[8] == c;
    case UniformBlock => assert OcrConfigs[9] == c;
  }

  /** Tesseract's answer for an image under a configuration; `None` when it raises. */
  type Engine = (Variant, OcrConfig) -> Option<string>

  /**
   * One rendered page: whether its conversion to an array succeeds, how its
   * preprocessing goes, which variants fail to convert back to PIL, and the
   * engine's answers for it.
   */
  datatype OcrPage = OcrPage(convertOk: bool, prep: Preprocessing, pilFails: set<Variant>, engine: Engine)

  /** Whether Tesseract is available, and the rendered pages (`None` when rendering raises). */
  datatype OcrInput = OcrInput(tesseractOk: bool, pages: Option<seq<OcrPage>>)

  /** The images OCR runs on: a variant that fails to convert is replaced by the page image. */
  function ToPil(vs: seq<Variant>, fails: set<Variant>): (r: seq<Variant>)
    ensures |r| == |vs|
    ensures forall i :: 0 <= i < |vs| ==> r[i] == if vs[i] in fails then PageImage else vs[i]
    decreases |vs|
  {
    if vs == [] then []
    else ToPil(vs[..|vs| - 1], fails) + [if vs[|vs| - 1] in fails then PageImage else vs[|vs| - 1]]
  }

  /** The cleaned texts of the attempts with one image that do not raise, in configuration order. */
  function ConfigCandidates(engine: Engine, image: Variant, configs: seq<OcrConfig>): seq<string>
    decreases |configs|
  {
    if configs == [] then []
    else
      ConfigCandidates(engine, image, configs[..|configs| - 1])
      + (match engine(image, configs[|configs| - 1]) case None => [] case Some(t) => [Clean(t)])
  }

  /** All cleaned texts, image by image, every image with every configuration. */
  function ImageCandidates(engine: Engine, images: seq<Variant>): seq<string>
    decreases |images|
  {
    if images == [] then []
    else ImageCandidates(engine, images[..|images| - 1]) + ConfigCandidates(engine, images[|images| - 1], OcrConfigs)
  }

  /** The first candidate of greatest stripped length, if that length is positive; otherwise "". */
  function Best(cands: seq<string>): string
    decreases |cands|
  {
    if cands == [] then []
    else
      var b := Best(cands[..|cands| - 1]);
      var c := cands[|cands| - 1];
      if |Strip(c)| > |Strip(b)| then c else b
  }

  /** The best text is at least as long, stripped, as every candidate. */
  lemma {:induction false} BestIsMaximal(cands: seq<string>)
    ensures forall j :: 0 <= j < |cands| ==> |Strip(cands[j])| <= |Strip(Best(cands))|
    decreases |cands|
  {
    if cands != [] {
      var init := cands[..|cands| - 1];
      BestIsMaximal(init);
      forall j | 0 <= j < |cands| ensures |Strip(cands[j])| <= |Strip(Best(cands))| {
        if j < |init| {
          assert cands[j] == init[j];
        }
      }
    }
  }

  /** Candidate `i` is non-blank and strictly longer, stripped, than every candidate before it. */
  predicate FirstLongest(cands: seq<string>, i: int) {
    0 <= i < |cands| && Strip(cands[i]) != [] && forall j :: 0 <= j < i ==> |Strip(cands[j])| < |Strip(cands[i])|
  }

  lemma FirstLongestExtend(cands: seq<string>, i: int)
    requires cands != [] && FirstLongest(cands[..|cands| - 1], i)
    ensures FirstLongest(cands, i)
  {
    var init := cands[..|cands| - 1];
    forall j | 0 <= j < i ensures |Strip(cands[j])| < |Strip(cands[i])| {
      assert cands[j] == init[j];
    }
  }

  lemma FirstLongestLast(cands: seq<string>, init: seq<string>, b: string)
    requires cands != [] && init == cands[..|cands| - 1] && |Strip(b)| < |Strip(cands[|cands| - 1])|
    requires forall j :: 0 <= j < |init| ==> |Strip(init[j])| <= |Strip(b)|
    ensures FirstLongest(cands, |cands| - 1)
  {
    forall j | 0 <= j < |cands| - 1 ensures |Strip(cands[j])| < |Strip(cands[|cands| - 1])| {
      assert cands[j] == init[j];
    }
  }

  /** The best text is "" or a candidate with a non-blank text, and no earlier candidate is as long. */
  lemma {:induction false} BestIsFirst(cands: seq<string>)
    ensures Best(cands) == [] || exists i :: FirstLongest(cands, i) && Best(cands) == cands[i]
    decreases |cands|
  {
    if cands != [] {
      var n := |cands|;
      var init := cands[..n - 1];
      BestIsFirst(init);
      BestIsMaximal(init);
      var b := Best(init);
      var c := cands[n - 1];
      if |Strip(c)| > |Strip(b)| {
        FirstLongestLast(cands, init, b);
        assert Best(cands) == cands[n - 1];
      } else if b != [] {
        var i :| FirstLongest(init, i) && b == init[i];
        FirstLongestExtend(cands, i);
        assert Best(cands) == cands[i];
      }
    }
  }

  /**
   * The best text is at least as long, stripped, as every candidate, and it is
   * either "" (all candidates blank) or the first candidate reaching that length.
   */
  lemma BestFirstMaximum(cands: seq<string>)
    ensures forall j :: 0 <= j < |cands| ==> |Strip(cands[j])| <= |Strip(Best(cands))|
    ensures || (Best(cands) == [] && forall j :: 0 <= j < |cands| ==> Strip(cands[j]) == [])
            || exists i :: FirstLongest(cands, i) && Best(cands) == cands[i]
  {
    BestIsMaximal(cands);
    BestIsFirst(cands);
  }

  lemma BestSnoc(a: seq<string>, c: string)
    ensures Best(a + [c]) == if |Strip(c)| > |Strip(Best(a))| then c else Best(a)
  {
    assert (a + [c])[..|a|] == a;
  }

  lemma ConfigCandidatesStep(engine: Engine, image: Variant, configs: seq<OcrConfig>, j: nat)
    requires j < |configs|
    ensures ConfigCandidates(engine, image, configs[..j + 1])
         == ConfigCandidates(engine, image, configs[..j])
            + (match engine(image, configs[j]) case None => [] case Some(t) => [Clean(t)])
  {
    assert configs[..j + 1][..j] == configs[..j];
  }

  lemma ImageCandidatesStep(engine: Engine, images: seq<Variant>, i: nat)
    requires i < |images|
    ensures ImageCandidates(engine, images[..i + 1])
         == ImageCandidates(engine, images[..i]) + ConfigCandidates(engine, images[i], OcrConfigs)
  {
    assert images[..i + 1][..i] == images[..i];
  }

  lemma ToPilStep(vs: seq<Variant>, fails: set<Variant>, k: nat)
    requires k < |vs|
    ensures ToPil(vs[..k + 1], fails) == ToPil(vs[..k], fails) + [if vs[k] in fails then PageImage else vs[k]]
  {
    assert vs[..k + 1][..k] == vs[..k];
  }

  /** The best cleaned text OCR finds for one page. */
  function PageBest(p: OcrPage): string {
    Best(ImageCandidates(p.engine, ToPil(Variants(p.prep), p.pilFails)))
  }

  /** Conversion of the preprocessed arrays to PIL images, falling back to the page image. */
  method ConvertToPil(processed: seq<Variant>, fails: set<Variant>) returns (images: seq<Variant>)
    ensures images == ToPil(processed, fails)
  {
    images := [];
    for k := 0 to |processed|
      invariant images == ToPil(processed[..k], fails)
    {
      ToPilStep(processed, fails, k);
      if processed[k] in fails {
        images := images + [PageImage];
      } else {
        images := images + [processed[k]];
      }
    }
    assert processed[..|processed|] == processed;
  }

  /** One more configuration: its cleaned answer, if any, replaces the best text only when strictly longer. */
  lemma ImageBestStep(engine: Engine, image: Variant, configs: seq<OcrConfig>, before: seq<string>, j: nat)
    requires j < |configs|
    ensures var b := Best(before + ConfigCandidates(engine, image, configs[..j]));
      Best(before + ConfigCandidates(engine, image, configs[..j + 1]))
      == match engine(image, configs[j])
         case None => b
         case Some(t) => if |Strip(Clean(t))| > |Strip(b)| then Clean(t) else b
  {
    var sofar := ConfigCandidates(engine, image, configs[..j]);
    ConfigCandidatesStep(engine, image, configs, j);
    match engine(image, configs[j])
    case None =>
      assert before + (sofar + []) == before + sofar;
    case Some(t) =>
      BestSnoc(before + sofar, Clean(t));
      assert before + (sofar + [Clean(t)]) == (before + sofar) + [Clean(t)];
  }

  /**
   * Tries every configuration on one image, keeping the earlier best text
   * unless a cleaned answer is strictly longer once stripped.
   */
  method ImageBest(engine: Engine, image: Variant, configs: seq<OcrConfig>, ghost before: seq<string>, best0: string)
    returns (bestText: string)
    requires best0 == Best(before)
    ensures bestText == Best(before + ConfigCandidates(engine, image, configs))
  {
    bestText := best0;
    var bestLength := |Strip(best0)|;
    assert configs[..0] == [] && before + [] == before;
    for j := 0 to |configs|
      invariant bestText == Best(before + ConfigCandidates(engine, image, configs[..j]))
      invariant bestLength == |Strip(bestText)|
    {
      ImageBestStep(engine, image, configs, before, j);
      var answer := engine(image, configs[j]);
      if answer.Some? {
        var cleaned := CleanOcrText(answer.value);
        if |Strip(cleaned)| > bestLength {
          bestText := cleaned;
          bestLength := |Strip(cleaned)|;
        }
      }
    }
    assert configs[..|configs|] == configs;
  }

  /** The best text over every image and configuration of one page, kept by a strict improvement test. */
  method OcrPageText(p: OcrPage) returns (bestText: string)
    ensures bestText == PageBest(p)
  {
    var processed := PreprocessImage(p.prep);
    var images := ConvertToPil(processed, p.pilFails);
    bestText := [];
    for i := 0 to |images|
      invariant bestText == Best(ImageCandidates(p.engine, images[..i]))
    {
      bestText := ImageBest(p.engine, images[i], OcrConfigs, ImageCandidates(p.engine, images[..i]), bestText);
      ImageCandidatesStep(p.engine, images, i);
    }
    assert images[..|images|] == images;
  }

  /** A page's best text yields a document when it is longer than ten characters once stripped. */
  function LongEnough(best: string): Option<string> {
    if best != [] && |Strip(best)| > 10 then Some(Strip(best)) else None
  }

  lemma LongEnoughSome(b: string)
    ensures LongEnough(b).Some? <==> |Strip(b)| > 10
  {
  }

  /** The best text of every page. */
  function PageBests(pages: seq<OcrPage>): (r: seq<string>)
    ensures |r| == |pages|
    decreases |pages|
  {
    if pages == [] then [] else PageBests(pages[..|pages| - 1]) + [PageBest(pages[|pages| - 1])]
  }

  lemma {:induction false} PageBestsAt(pages: seq<OcrPage>, i: nat)
    requires i < |pages|
    ensures PageBests(pages)[i] == PageBest(pages[i])
    decreases |pages|
  {
    if i < |pages| - 1 {
      PageBestsAt(pages[..|pages| - 1], i);
    }
  }

  /** The text each page contributes, `None` where its best text is too short. */
  function BestFound(bests: seq<string>): (r: seq<Option<string>>)
    ensures |r| == |bests|
    decreases |bests|
  {
    if bests == [] then [] else BestFound(bests[..|bests| - 1]) + [LongEnough(bests[|bests| - 1])]
  }

  lemma {:induction false} BestFoundAt(bests: seq<string>, i: nat)
    requires i < |bests|
    ensures BestFound(bests)[i] == LongEnough(bests[i])
    decreases |bests|
  {
    if i < |bests| - 1 {
      BestFoundAt(bests[..|bests| - 1], i);
    }
  }

  /** True when OCR runs to the end: Tesseract is there, rendering works and every page converts. */
  predicate OcrRuns(input: OcrInput) {
    && input.tesseractOk && input.pages.Some?
    && forall i :: 0 <= i < |input.pages.value| ==> input.pages.value[i].convertOk
  }

  /**
   * What OCR extraction returns: nothing without Tesseract, when rendering
   * raises, or when any page fails to convert (that exception ends the whole
   * stage); otherwise one document per page whose best text is long enough.
   */
  function OcrDocs(input: OcrInput, path: string): seq<Document> {
    if OcrRuns(input) then PageDocs(BestFound(PageBests(input.pages.value)), path, Some("OCR")) else []
  }

  /** OCR extraction, page by page. */
  method ExtractWithOcr(input: OcrInput, path: string) returns (docs: seq<Document>)
    ensures docs == OcrDocs(input, path)
  {
    if !input.tesseractOk || input.pages.None? {
      return [];
    }
    var pages := input.pages.value;
    ghost var found := BestFound(PageBests(pages));
    docs := [];
    for k := 0 to |pages|
      invariant forall i :: 0 <= i < k ==> pages[i].convertOk
      invariant docs == PageDocs(found[..k], path, Some("OCR"))
    {
      if !pages[k].convertOk {
        return [];
      }
      assert forall i :: 0 <= i < k + 1 ==> pages[i].convertOk;
      var bestText := OcrPageText(pages[k]);
      PageBestsAt(pages, k);
      BestFoundAt(PageBests(pages), k);
      PageDocsStep(found, path, Some("OCR"), k);
      if bestText != [] && |Strip(bestText)| > 10 {
        docs := docs + [Document(Strip(bestText), k + 1, path, Some("OCR"), None)];
      }
    }
    assert found[..|pages|] == found;
  }

  /** Each OCR document holds the stripped best text of its page, longer than ten characters. */
  lemma OcrDocsContent(bests: seq<string>, path: string)
    ensures var docs := PageDocs(BestFound(bests), path, Some("OCR"));
      forall j :: 0 <= j < |docs| ==>
        1 <= docs[j].page <= |bests| && docs[j].content == Strip(bests[docs[j].page - 1])
        && |docs[j].content| > 10 && docs[j].extraction == Some("OCR") && docs[j].source == path
  {
    var found := BestFound(bests);
    var docs := PageDocs(found, path, Some("OCR"));
    PageDocsContent(found, path, Some("OCR"));
    forall j | 0 <= j < |docs|
      ensures docs[j].content == Strip(bests[docs[j].page - 1]) && |docs[j].content| > 10
    {
      BestFoundAt(bests, docs[j].page - 1);
    }
  }

  /** Page i+1 has an OCR document exactly when its best text is longer than ten characters once stripped. */
  lemma OcrDocsComplete(bests: seq<string>, path: string)
    ensures var docs := PageDocs(BestFound(bests), path, Some("OCR"));
      forall i :: 0 <= i < |bests| ==>
        (|Strip(bests[i])| > 10 <==> HasPage(docs, i + 1))
  {
    var found := BestFound(bests);
    var docs := PageDocs(found, path, Some("OCR"));
    PageDocsContent(found, path, Some("OCR"));
    PageDocsComplete(found, path, Some("OCR"));
    forall i | 0 <= i < |bests|
      ensures |Strip(bests[i])| > 10 <==> HasPage(docs, i + 1)
    {
      BestFoundAt(bests, i);
      LongEnoughSome(bests[i]);
    }
  }

  /** Without Tesseract, or when rendering or a page conversion fails, OCR yields nothing. */
  lemma OcrDocsCases(input: OcrInput, path: string)
    ensures !input.tesseractOk ==> OcrDocs(input, path) == []
    ensures input.pages.None? ==> OcrDocs(input, path) == []
    ensures (input.pages.Some? && exists i :: 0 <= i < |input.pages.value| && !input.pages.value[i].convertOk)
            ==> OcrDocs(input, path) == []
    ensures OcrRuns(input) ==> OcrDocs(input, path) == PageDocs(BestFound(PageBests(input.pages.value)), path, Some("OCR"))
  {
  }

  // ------------------------------------------------------------ alternative loaders

  /** The outcomes of PDFPlumberLoader, UnstructuredPDFLoader and PyPDFLoader. */
  datatype AltLoaders = AltLoaders(plumber: Outcome, unstructured: Outcome, pypdf: Outcome)

  function AltOrder(alts: AltLoaders): seq<Outcome> {
    [alts.plumber, alts.unstructured, alts.pypdf]
  }

  /** A loader's result is taken when it did not raise and its joined, stripped text exceeds ten characters. */
  predicate Accepted(o: Outcome) {
    o.Loaded? && |Strip(JoinedText(o.docs))| > 10
  }

  function FirstAccepted(outs: seq<Outcome>): seq<Document>
    decreases |outs|
  {
    if outs == [] then []
    else if Accepted(outs[0]) then outs[0].docs
    else FirstAccepted(outs[1..])
  }

  /** Loader `i` is accepted and no loader before it is. */
  predicate FirstAcceptedAt(outs: seq<Outcome>, i: int) {
    0 <= i < |outs| && Accepted(outs[i]) && forall j :: 0 <= j < i ==> !Accepted(outs[j])
  }

  lemma FirstAcceptedShift(outs: seq<Outcome>, i: int)
    requires outs != [] && !Accepted(outs[0]) && FirstAcceptedAt(outs[1..], i)
    ensures FirstAcceptedAt(outs, i + 1) && outs[i + 1] == outs[1..][i]
  {
    var rest := outs[1..];
    forall j | 0 <= j < i + 1 ensures !Accepted(outs[j]) {
      if j > 0 {
        assert outs[j] == rest[j - 1];
      }
    }
  }

  lemma NoneAcceptedShift(outs: seq<Outcome>)
    requires outs != [] && !Accepted(outs[0])
    requires forall i :: 0 <= i < |outs[1..]| ==> !Accepted(outs[1..][i])
    ensures forall i :: 0 <= i < |outs| ==> !Accepted(outs[i])
  {
    var rest := outs[1..];
    forall i | 0 <= i < |outs| ensures !Accepted(outs[i]) {
      if i > 0 {
        assert outs[i] == rest[i - 1];
      }
    }
  }

  /**
   * The search returns the documents of the first accepted loader, and
   * returns nothing exactly when no loader is accepted.
   */
  lemma {:induction false} FirstAcceptedChoice(outs: seq<Outcome>)
    ensures var r := FirstAccepted(outs);
      && (r == [] <==> forall i :: 0 <= i < |outs| ==> !Accepted(outs[i]))
      && (r != [] ==> exists i :: FirstAcceptedAt(outs, i) && r == outs[i].docs)
    decreases |outs|
  {
    if outs != [] {
      if Accepted(outs[0]) {
        JoinedTextEmpty(outs[0].docs);
        assert FirstAcceptedAt(outs, 0);
      } else {
        var rest := outs[1..];
        FirstAcceptedChoice(rest);
        if FirstAccepted(rest) != [] {
          var i :| FirstAcceptedAt(rest, i) && FirstAccepted(rest) == rest[i].docs;
          FirstAcceptedShift(outs, i);
          assert FirstAcceptedAt(rest, i) ==> (exists j :: 0 <= j < |rest| && Accepted(rest[j]));
        } else {
          NoneAcceptedShift(outs);
        }
      }
    }
  }

  /** The alternative loaders, tried in order until one is accepted. */
  method TryAlternativeLoaders(alts: AltLoaders) returns (docs: seq<Document>)
    ensures docs == FirstAccepted(AltOrder(alts))
  {
    var loaders := AltOrder(alts);
    for k := 0 to |loaders|
      invariant FirstAccepted(loaders[k..]) == FirstAccepted(loaders)
    {
      var outcome := loaders[k];
      if outcome.Loaded? {
        var totalText := JoinedText(outcome.docs);
        if |Strip(totalText)| > 10 {
          return outcome.docs;
        }
      }
      assert loaders[k..][1..] == loaders[k + 1..];
    }
    return [];
  }

  // ------------------------------------------------------------ the PDF cascade

  /** Everything the PDF stages depend on; `fault` stands for an exception escaping the stages. */
  datatype PdfSources = PdfSources(native: Option<seq<NativePage>>, ocr: OcrInput, alternatives: AltLoaders, fault: bool)

  const PlaceholderText: string :=
    "This appears to be a scanned document or image-based PDF. To enable full text extraction, please install Tesseract OCR. For now, you can still use the document for basic operations."

  function PlaceholderDoc(path: string): Document {
    Document(PlaceholderText, 1, path, Some("placeholder"), None)
  }

  /**
   * The staged PDF load. Unless an exception escapes, it returns documents,
   * never an empty list; after an escaping exception it returns whatever a
   * fresh PyPDFLoader returns, including its failure.
   */
  function LoadPdfWithOcr(src: PdfSources, path: string): (r: Outcome)
    ensures !src.fault ==> r.Loaded? && r.docs != []
    ensures src.fault ==> r == src.alternatives.pypdf
  {
    if src.fault then src.alternatives.pypdf
    else
      var native := NativeDocs(src.native, path);
      if |Strip(JoinedText(native))| > 50 then
        JoinedTextEmpty(native);
        Loaded(native)
      else
        var ocr := OcrDocs(src.ocr, path);
        if ocr != [] then Loaded(ocr)
        else
          var alt := FirstAccepted(AltOrder(src.alternatives));
          if alt != [] then Loaded(alt)
          else Loaded([PlaceholderDoc(path)])
  }

  /**
   * Stage order: native text when its joined, stripped text exceeds 50
   * characters; else OCR when it found anything; else the first accepted
   * alternative loader; else exactly the placeholder document.
   */
  lemma PdfCascadeOrder(src: PdfSources, path: string)
    requires !src.fault
    ensures var r := LoadPdfWithOcr(src, path);
      var native := NativeDocs(src.native, path);
      var ocr := OcrDocs(src.ocr, path);
      var alt := FirstAccepted(AltOrder(src.alternatives));
      && (|Strip(JoinedText(native))| > 50 ==> r == Loaded(native))
      && (|Strip(JoinedText(native))| <= 50 && ocr != [] ==> r == Loaded(ocr))
      && (|Strip(JoinedText(native))| <= 50 && ocr == [] && alt != [] ==> r == Loaded(alt))
      && (|Strip(JoinedText(native))| <= 50 && ocr == [] && alt == [] ==> r == Loaded([PlaceholderDoc(path)]))
      && (r == Loaded([PlaceholderDoc(path)]) && |Strip(JoinedText(native))| <= 50 ==>
            ocr == [] && (alt == [] || alt == [PlaceholderDoc(path)]))
  {
    var native := NativeDocs(src.native, path);
    var ocr := OcrDocs(src.ocr, path);
    if |Strip(JoinedText(native))| <= 50 && ocr != [] {
      OcrIsNotPlaceholder(src.ocr, path);
    }
  }

  /** No OCR output looks like the placeholder list: OCR documents carry method "OCR". */
  lemma OcrIsNotPlaceholder(input: OcrInput, path: string)
    ensures OcrDocs(input, path) != [PlaceholderDoc(path)]
  {
    if OcrRuns(input) {
      var bests := PageBests(input.pages.value);
      PageDocsContent(BestFound(bests), path, Some("OCR"));
      var docs := PageDocs(BestFound(bests), path, Some("OCR"));
      if |docs| == 1 {
        assert docs[0].extraction == Some("OCR");
      }
    }
  }

  // ------------------------------------------------------------ dispatch

  const SupportedExtensions: set<string> := {".pdf", ".pptx", ".docx", ".txt"}

  /** What the non-PDF loaders return or raise. */
  datatype Sources = Sources(pdf: PdfSources, pptx: Outcome, docx: Outcome, txt: Outcome)

  /** The outcome of the loader the extension selects; an unsupported extension raises. */
  function Selected(loader: Loader, src: Sources): Outcome {
    if loader.extension == ".pdf" then LoadPdfWithOcr(src.pdf, loader.filePath)
    else if loader.extension == ".pptx" then src.pptx
    else if loader.extension == ".docx" then src.docx
    else if loader.extension == ".txt" then src.txt
    else Failed(UnsupportedPrefix + loader.extension)
  }

  const UnsupportedPrefix: string := "Unsupported file type: "
  const ErrorPrefix: string := "Error loading document: "
  const ErrorSuffix: string := ". Please ensure the file is not corrupted and is in a supported format."

  /** The single document returned in place of a failure. */
  function ErrorDoc(path: string, message: string): (d: Document)
    ensures |d.content| > |ErrorPrefix| + |message|
    ensures ErrorPrefix <= d.content && d.page == 1 && d.error == Some(message) && d.source == path
    ensures d.content[|ErrorPrefix|..|ErrorPrefix| + |message|] == message
  {
    Document(ErrorPrefix + message + ErrorSuffix, 1, path, None, Some(message))
  }

  /** `load()`: the selected loader's documents, or one error document for any failure. */
  function Load(loader: Loader, src: Sources): (docs: seq<Document>)
    ensures Selected(loader, src).Loaded? ==> docs == Selected(loader, src).docs
    ensures Selected(loader, src).Failed? ==> docs == [ErrorDoc(loader.filePath, Selected(loader, src).message)]
    ensures loader.extension == ".pdf" && !src.pdf.fault ==> docs != []
  {
    match Selected(loader, src)
    case Loaded(d) => d
    case Failed(e) => [ErrorDoc(loader.filePath, e)]
  }

  /** Any other extension yields exactly one error document naming it. */
  lemma LoadUnsupported(loader: Loader, src: Sources)
    requires loader.extension !in SupportedExtensions
    ensures var docs := Load(loader, src);
      && |docs| == 1 && docs[0].page == 1 && ErrorPrefix <= docs[0].content
      && docs[0].error == Some(UnsupportedPrefix + loader.extension)
  {
  }

  /** When the last-resort PyPDFLoader fails too, the PDF load is one error document. */
  lemma LoadPdfFallbackFails(loader: Loader, src: Sources)
    requires loader.extension == ".pdf" && src.pdf.fault && src.pdf.alternatives.pypdf.Failed?
    ensures var docs := Load(loader, src);
      && |docs| == 1 && docs[0].page == 1 && ErrorPrefix <= docs[0].content
      && docs[0].error == Some(src.pdf.alternatives.pypdf.message)
  {
  }

  // ------------------------------------------------------------ page count

  /**
   * The raw counts the page estimate reads; `None` where reading raises:
   * PyMuPDF's and PyPDF2's page counts, the slide count, the paragraph
   * count, and the text file's contents.
   */
  datatype CountSources = CountSources(fitzPages: Option<nat>, pypdf2Pages: Option<nat>, slides: Option<nat>, paragraphs: Option<nat>, text: Option<string>)

  function Max(a: int, b: int): int {
    if a < b then b else a
  }

  /**
   * `max(1, n // per)`: the number of pages of `per` units each, at least one.
   * It is the page count `p` with `per * p <= max(n, per) < per * (p + 1)`.
   */
  function PerPage(n: nat, per: nat): (p: nat)
    requires per > 0
    ensures p >= 1 && per * p <= Max(n, per) < per * (p + 1)
  {
    var q := n / per;
    assert n == per * q + n % per;
    if q < 1 then
      assert per * 1 <= per < per * 2;
      1
    else
      assert per * (q + 1) == per * q + per;
      q
  }

  /** The estimated page count, `None` when reading fails or for other extensions. */
  function GetPageCount(loader: Loader, c: CountSources): (r: Option<nat>)
    ensures loader.extension !in SupportedExtensions ==> r == None
    ensures loader.extension == ".pdf" ==> r == if c.fitzPages.Some? then c.fitzPages else c.pypdf2Pages
    ensures loader.extension == ".pptx" ==> r == c.slides
    ensures loader.extension == ".docx" ==> r == if c.paragraphs.Some? then Some(PerPage(c.paragraphs.value, 30)) else None
    ensures loader.extension == ".txt" ==>
      r == if c.text.Some? then Some(PerPage(|SplitWhitespace(c.text.value)|, 500)) else None
  {
    if loader.extension == ".pdf" then
      if c.fitzPages.Some? then c.fitzPages else c.pypdf2Pages
    else if loader.extension == ".pptx" then c.slides
    else if loader.extension == ".docx" then
      match c.paragraphs
      case None => None
      case Some(p) => Some(PerPage(p, 30))
    else if loader.extension == ".txt" then
      match c.text
      case None => None
      case Some(t) => Some(PerPage(|SplitWhitespace(t)|, 500))
    else None
  }

  /** A thousand-word text file counts as two pages. */
  lemma ThousandWordsTwoPages(loader: Loader, c: CountSources)
    requires loader.extension == ".txt" && c.text.Some? && |SplitWhitespace(c.text.value)| == 1000
    ensures GetPageCount(loader, c) == Some(2)
  {
  }
}
