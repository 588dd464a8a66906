# RAG document summarizer: a Dafny model of its core

The modelled system is a small web application that summarises uploaded
documents and answers questions about them. It has three parts:

* **Loading** (`DocumentLoader`). A loader picks the extraction route from
  the file's lowercased extension: PDF, PowerPoint, Word or plain text. A
  PDF goes through a cascade:
  1. native text extraction, page by page, trying three text modes;
  2. if the native text is at most 50 characters once stripped, OCR of the rendered
     pages, with several preprocessed images and ten Tesseract
     configurations per page, keeping the longest cleaned text;
  3. then three alternative PDF loaders;
  4. finally a placeholder document.

  Any failure becomes a single error document. The loader also estimates a
  page count.
* **Summarising** (`Summarizer`). The document is classified as small or
  large by its word count (500 words to a page, large beyond 15 pages).
  Each chunk is summarised by the language model. A large document
  summarises its summaries hierarchically, grouping them into about ten
  sections when there are more than 50. A final call summarises the
  combined text.
* **The application** (`QueryApp`). An upload loads the file, counts its
  pages, summarises it, chunks it and remembers the chunks under the file
  name. A query is answered as follows:
  * a document with fewer than 20 chunks is answered from all of them;
  * any other document is answered from a similarity search;
  * the context is trimmed when it is long, and one language-model call
    produces the answer.

  The source also defines a keyword-driven simulated responder (key
  points, explanations, conclusions or a general answer) and two simulated
  summarisers that pick sentences by position. No route calls them: a
  query always goes to the language model, and so does every summary.
  They are modelled as defined, on their own, and no modelled operation
  uses them.

The Python string operations the code relies on are modelled once, in
`PyString`:

* `str.strip`, `str.split` with and without a separator, `str.join`,
  `str.replace`, `str.lower`, `str.endswith` and slicing;
* `os.path.splitext`.

`TextCleaner` is the OCR text clean-up. `Wrappers` holds `Option`.

External systems are inputs to the model, never computed by it:

* the PDF and Office libraries, Tesseract, the image library and the
  rendering of PDF pages;
* the language model and the markdown clean-up applied to its replies;
* the text splitters and the vector store.

The language model is a function from the *request* to its reply. A
request is the chunk or final-summary call, or the question with its
trimmed context. The prompt text each request is rendered to is a separate
function, `Prompt` or `QuestionPrompt`, whose layout is proved. The
summarising and answering methods return the sequence of requests they
made, so their contracts state exactly which calls happen, in which order,
and what is answered from them.

## Model

| member | source | states |
|---|---|---|
| PyString.LStrip | app/document_loader.py:348 | the result is a suffix of the input and does not start with whitespace |
| PyString.Strip | app/document_loader.py:116-118 | `str.strip()`: the input without its leading and trailing whitespace, never longer; the rows that follow state it is one slice, with no whitespace at either end, empty only for blank input, and idempotent |
| PyString.StripSlice | app/document_loader.py:116-118 | `strip()` returns a contiguous slice of the input |
| PyString.StripEnds | app/document_loader.py:116-118 | a non-empty stripped string neither starts nor ends with whitespace |
| PyString.StripBlank | app/document_loader.py:116 | the stripped text is empty exactly when every character is whitespace |
| PyString.StripFixed | app/document_loader.py:246-248 | a string without whitespace at either end is left unchanged by strip |
| PyString.StripIdempotent | app/document_loader.py:246-248 | stripping twice is stripping once |
| PyString.Find | app/main.py:824 | the index found is an occurrence of the separator, or -1 |
| PyString.FindFirst | app/main.py:824 | the index found is at or before every occurrence |
| PyString.Split | app/main.py:824 | `split(sep)` yields at least one part |
| PyString.SplitAbsent | app/main.py:824 | a text without the separator splits into itself alone |
| PyString.SplitStep | app/main.py:824 | splitting takes the text before the first occurrence and splits the rest |
| PyString.JoinSplit | app/main.py:824-827 | joining the parts of a split with the same separator gives the text back |
| PyString.JoinConcat | app/main.py:826-827 | joining two non-empty lists puts one separator between their joins |
| PyString.JoinDropMiddle | app/main.py:826-827 | joining the first `h` and last `t` parts gives a prefix, the separator and a suffix of the whole join, and it is strictly shorter |
| PyString.JoinPrefix | app/main.py:884-885 | the join of the first `k` parts is a prefix of the join of all |
| PyString.JoinSuffix | app/main.py:826-827 | the join of the parts from `k` on is a suffix of the join of all |
| PyString.WordLength | app/summarizer.py:99 | the first word's length: no whitespace before it, whitespace or the end at it |
| PyString.SplitWhitespace | app/summarizer.py:99 | `str.split()`: the maximal runs of non-whitespace in order, nothing for blank input; the rows that follow state the runs' shape |
| PyString.SplitWhitespaceWords | app/summarizer.py:99 | every part of `split()` is a non-empty run of non-whitespace |
| PyString.JoinWordsNormal | app/document_loader.py:333 | words joined by single spaces have no whitespace but single spaces and none at either end |
| PyString.NormalizeSpaces | app/document_loader.py:333 | `' '.join(s.split())`: the words joined by single spaces; the rows that follow state its shape, its length and its fixed points |
| PyString.NormalizeSpacesNormal | app/document_loader.py:333 | `' '.join(s.split())` has that normal shape |
| PyString.NormalizeSpacesShorter | app/document_loader.py:333 | `' '.join(s.split())` is no longer than `s` |
| PyString.NormalizeSpacesFixed | app/document_loader.py:333 | a string of that normal shape is left unchanged by `' '.join(s.split())` |
| PyString.Replace | app/document_loader.py:336-342 | `str.replace`: every leftmost non-overlapping occurrence of the pattern is replaced; the rows that follow state length, origin of characters and removal of the pattern |
| PyString.ReplaceShorter | app/document_loader.py:336-342 | replacing by a no-longer text does not lengthen the string |
| PyString.ReplaceChars | app/document_loader.py:336-342 | every character of the result comes from the input or the replacement |
| PyString.ReplaceRemovesChar | app/document_loader.py:336-339 | after replacing a character by a text without it, the character is gone |
| PyString.ReplaceRemovesPair | app/document_loader.py:340-342 | after replacing a two-character pattern by one other character, the pattern is gone |
| PyString.ReplaceKeepsNoPair | app/document_loader.py:336-342 | a one-character replacement foreign to a pair does not create that pair |
| PyString.ReplaceAbsent | app/document_loader.py:341 | replacing a pattern that does not occur changes nothing |
| PyString.Lower | app/document_loader.py:21 | lowercasing maps each character and keeps the length |
| PyString.LowerSuffixShape | app/document_loader.py:21 | a lowercased extension is still empty or a dot followed by no other dot, and has no capital letter |
| PyString.PrefixSlice | app/summarizer.py:135 | `text[:k]` is a prefix of length `min(k, len)` |
| PyString.RFind | app/document_loader.py:21 | the index found holds the character, or is -1 |
| PyString.RFindLast | app/document_loader.py:21 | no later position holds the character |
| PyString.SplitExt | app/document_loader.py:21 | the extension is non-empty exactly when the last dot lies after the last `/` and something other than dots precedes it in that component; it is then the path from the last dot on, a dot followed by no other dot and no `/` |
| PyString.RFindAt | app/document_loader.py:21 | the last occurrence of a character is the index after which it no longer occurs (-1 when absent) |
| PyString.NatToString | app/main.py:851 | the decimal numeral of a number is non-empty |
| TextCleaner.FixConfusionsInOrder | app/document_loader.py:336-342 | the seven replacements done one after another give the specified fixed text |
| TextCleaner.FilterLines | app/document_loader.py:345-351 | the kept lines are the stripped lines longer than two characters that are not only punctuation, in order |
| TextCleaner.Clean | app/document_loader.py:327-359 | the whole of `_clean_ocr_text`: normalise whitespace, fix the confusable characters, keep the lines that pass the filter, drop blank lines; the rows that follow state its closed form, shape and idempotence |
| TextCleaner.CleanOcrText | app/document_loader.py:327-359 | the clean-up step by step equals the specification `Clean` (empty text returned as is) |
| TextCleaner.KeptLinesStep | app/document_loader.py:347-351 | one more line extends the kept lines by that line stripped, or by nothing |
| TextCleaner.FixedSlice | app/document_loader.py:348 | any slice of a fixed text is fixed |
| TextCleaner.FixedStrip | app/document_loader.py:348 | stripping a fixed text keeps it fixed |
| TextCleaner.FixDigitsLetters | app/document_loader.py:336-339 | after the first four replacements no `\|`, `0`, `1` or `l` is left, and spaces stay single |
| TextCleaner.NoLetterLNoCl | app/document_loader.py:339-341 | a text without `l` contains no `cl` |
| TextCleaner.ClRuleNeverFires | app/document_loader.py:339-341 | the `cl` to `d` replacement never changes anything, because every `l` was already replaced |
| TextCleaner.FixConfusionsFixed | app/document_loader.py:336-342 | the seven replacements leave no `\|`, `0`, `1`, `l`, `rn` or `vv` and keep single spaces |
| TextCleaner.PreparedText | app/document_loader.py:333-342 | the normalised and fixed text is fixed |
| TextCleaner.ShortLines | app/document_loader.py:345 | a text without a newline is one line |
| TextCleaner.CleanClosedForm | app/document_loader.py:327-359 | the cleaned text is the normalised and fixed text stripped when that is a keepable line, else empty |
| TextCleaner.CleanShorter | app/document_loader.py:327-359 | cleaning never lengthens the text |
| TextCleaner.CleanShape | app/document_loader.py:327-359 | the cleaned text is empty, or a keepable line without surrounding whitespace, newlines or confusable characters |
| TextCleaner.FixConfusionsOfFixed | app/document_loader.py:336-342 | the replacements change nothing in a fixed text |
| TextCleaner.CleanIdempotent | app/document_loader.py:327-359 | cleaning a cleaned text changes nothing |
| DocumentLoader.Contents | app/document_loader.py:52 | the page contents of the documents, one per document and in order |
| DocumentLoader.JoinedTextEmpty | app/document_loader.py:52-53 | text with content comes from at least one document |
| DocumentLoader.NewLoader | app/document_loader.py:19-21 | the extension is the lowercased `splitext` suffix: empty exactly when the last dot is not in the last path component or only dots precede it there, else the path from the last dot on, lowercased; a single dot-led suffix with no capital letters |
| DocumentLoader.UpperCaseSuffix | app/document_loader.py:21-27 | a `.pdf` suffix in any capitalisation gives the extension `.pdf` and selects the PDF cascade |
| DocumentLoader.ReportPdfExtension | app/document_loader.py:19-21 | `docs/Report.PDF` has the extension `.pdf` |
| DocumentLoader.LastDotExtension | app/document_loader.py:19-21 | `notes.tar.txt` has the extension `.txt`: only the last dot counts |
| DocumentLoader.LeadingDotNoExtension | app/document_loader.py:19-21 | `docs/.pdf` has no extension: a leading dot starts no suffix |
| DocumentLoader.DirectoryDotNoExtension | app/document_loader.py:19-21 | `v1.2/README` has no extension: a dot in a directory name does not count |
| DocumentLoader.PageDocsStep | app/document_loader.py:93-120 | one more page adds its document, numbered with the page, or nothing |
| DocumentLoader.PageDocsLast | app/document_loader.py:116-120 | the documents of all pages extend those of all pages but the last by at most that page's document |
| DocumentLoader.PageDocsContent | app/document_loader.py:116-120 | every document holds the text found on the page it names, with the source and method of the route |
| DocumentLoader.PageDocsIncreasing | app/document_loader.py:93-120 | documents appear in strictly increasing page order |
| DocumentLoader.PageDocsComplete | app/document_loader.py:116-120 | every page whose text was found has a document |
| DocumentLoader.PageDocsNumbered | app/document_loader.py:93-120 | documents match pages one to one: at most as many, correctly numbered, increasing, and a page is present exactly when its text was found |
| DocumentLoader.NativeFoundAll | app/document_loader.py:93-116 | one text-or-nothing result per page |
| DocumentLoader.NativeFoundAt | app/document_loader.py:97-116 | page `i`'s result is that page's text settled on and stripped, if non-empty |
| DocumentLoader.NativeDocs | app/document_loader.py:87-127 | the native documents: none when PyMuPDF raises on opening, otherwise one per page with text, in page order (rows NativeDocsContent, NativeDocsComplete, NativeDocsIncreasing) |
| DocumentLoader.ExtractWithPyMuPdf | app/document_loader.py:87-127 | the page loop returns the specified native documents, and nothing when opening fails |
| DocumentLoader.NativeDocAt | app/document_loader.py:116-120 | each native document is the stripped, non-empty text of the page it names |
| DocumentLoader.NativeDocsContent | app/document_loader.py:97-120 | all native documents hold the stripped text of their page, taken from the first mode with ten characters or more |
| DocumentLoader.PageDocsHasPage | app/document_loader.py:116-120 | page `i+1` has a document exactly when its text was found |
| DocumentLoader.NativeDocsComplete | app/document_loader.py:116-120 | a page has a native document exactly when its settled text is not blank |
| DocumentLoader.NativeDocsIncreasing | app/document_loader.py:93-120 | native documents are in increasing page order |
| DocumentLoader.CloseAllCount | app/document_loader.py:304-318 | closing gives one or two images per base image, and never the raw array |
| DocumentLoader.VariantCount | app/document_loader.py:265-325 | preprocessing gives between one and eight images, and only the raw array when grayscale conversion fails |
| DocumentLoader.CloseAllStep | app/document_loader.py:305-318 | closing one more base image appends its closings |
| DocumentLoader.Variants | app/document_loader.py:265-325 | the preprocessed images: only the raw array when grayscale fails, else each successful thresholding and the denoised image, each closed with the two kernels, a failed closing keeping the image unclosed (rows VariantCount, CloseAllCount) |
| DocumentLoader.PreprocessImage | app/document_loader.py:265-325 | the preprocessing steps give the specified images: adaptive, Otsu and fixed thresholds when they succeed, then the denoised image, each closed twice |
| DocumentLoader.OcrConfigsComplete | app/document_loader.py:198-219 | there are ten configurations, each tried once, and every configuration is among them |
| DocumentLoader.ToPil | app/document_loader.py:184-191 | an image that fails to convert is replaced by the page image; the others are kept in order |
| DocumentLoader.Best | app/document_loader.py:194-243 | the first candidate of greatest positive stripped length, else "" (rows BestIsMaximal, BestIsFirst, BestFirstMaximum) |
| DocumentLoader.BestIsMaximal | app/document_loader.py:236-238 | the best OCR text is at least as long, stripped, as every candidate |
| DocumentLoader.FirstLongestExtend | app/document_loader.py:236 | a first strict maximum stays one when a candidate is appended |
| DocumentLoader.FirstLongestLast | app/document_loader.py:236 | a candidate longer than every earlier one is the first maximum |
| DocumentLoader.BestIsFirst | app/document_loader.py:236-238 | the best text is empty or the first candidate of maximal stripped length |
| DocumentLoader.BestFirstMaximum | app/document_loader.py:194-243 | the best text is maximal, and it is the first maximal candidate, or empty when every candidate is blank |
| DocumentLoader.BestSnoc | app/document_loader.py:236-238 | a new candidate replaces the best only when strictly longer once stripped |
| DocumentLoader.ConfigCandidatesStep | app/document_loader.py:224-243 | one more configuration adds its cleaned text, or nothing when Tesseract raises |
| DocumentLoader.ImageCandidatesStep | app/document_loader.py:223-224 | one more image adds the candidates of all configurations on it |
| DocumentLoader.ToPilStep | app/document_loader.py:185-191 | converting one more image appends it or the page image |
| DocumentLoader.ConvertToPil | app/document_loader.py:184-191 | the conversion loop gives the specified image list |
| DocumentLoader.ImageBestStep | app/document_loader.py:225-243 | one configuration updates the best text exactly as the strict comparison says |
| DocumentLoader.ImageBest | app/document_loader.py:224-243 | the configuration loop over one image ends with the best of all candidates so far |
| DocumentLoader.OcrPageText | app/document_loader.py:177-243 | the per-page loops end with the best cleaned text over all images and configurations |
| DocumentLoader.LongEnoughSome | app/document_loader.py:246 | a page keeps its OCR text exactly when that text is longer than ten characters once stripped |
| DocumentLoader.PageBest | app/document_loader.py:177-243 | one page's best cleaned text over every converted image and every configuration (row OcrPageText) |
| DocumentLoader.PageBests | app/document_loader.py:174-243 | one best text per page |
| DocumentLoader.PageBestsAt | app/document_loader.py:174-243 | page `i`'s best text is that page's best |
| DocumentLoader.BestFound | app/document_loader.py:246-250 | one kept-or-dropped result per page |
| DocumentLoader.BestFoundAt | app/document_loader.py:246-250 | page `i` keeps its stripped best text exactly when it is long enough |
| DocumentLoader.OcrDocs | app/document_loader.py:129-263 | the OCR documents: none without Tesseract, without rendered pages or when a page's colour conversion fails, else one per page whose best text is long enough (rows OcrDocsContent, OcrDocsComplete, OcrDocsCases) |
| DocumentLoader.ExtractWithOcr | app/document_loader.py:129-263 | the OCR route returns the specified documents: none without Tesseract, none when rendering or any page's image conversion raises |
| DocumentLoader.OcrDocsContent | app/document_loader.py:246-250 | every OCR document holds its page's stripped best text, longer than ten characters, marked as OCR |
| DocumentLoader.OcrDocsComplete | app/document_loader.py:246-250 | a page has an OCR document exactly when its best text is longer than ten characters once stripped |
| DocumentLoader.OcrDocsCases | app/document_loader.py:131-160 | OCR yields nothing without Tesseract, without pages, or when a page's conversion fails; otherwise the per-page documents |
| DocumentLoader.FirstAccepted | app/document_loader.py:361-381 | the documents of the first alternative loader whose joined text is longer than ten characters once stripped, else none (row FirstAcceptedChoice) |
| DocumentLoader.FirstAcceptedShift | app/document_loader.py:369-376 | skipping a rejected first loader shifts the first accepted one by one |
| DocumentLoader.NoneAcceptedShift | app/document_loader.py:369-381 | with the first loader rejected and none of the rest accepted, none is accepted |
| DocumentLoader.FirstAcceptedChoice | app/document_loader.py:361-381 | the alternatives give nothing exactly when no loader yields more than ten stripped characters; otherwise the first loader that does |
| DocumentLoader.TryAlternativeLoaders | app/document_loader.py:361-381 | the loop over PDFPlumber, Unstructured and PyPDF returns the first accepted loader's documents |
| DocumentLoader.LoadPdfWithOcr | app/document_loader.py:44-85 | without a fault the cascade returns a non-empty list; a fault falls back to the basic PDF loader |
| DocumentLoader.PdfCascadeOrder | app/document_loader.py:52-80 | native text over 50 stripped characters wins, then OCR, then the alternatives, then the placeholder; reaching the placeholder means OCR gave nothing |
| DocumentLoader.OcrIsNotPlaceholder | app/document_loader.py:77-80 | OCR documents are never the placeholder |
| DocumentLoader.ErrorDoc | app/document_loader.py:39-42 | the error document is page 1, names the source, records the message and embeds it after the fixed prefix |
| DocumentLoader.Selected | app/document_loader.py:26-35 | the extension chooses the PDF cascade, the PowerPoint, Word or text loader, and any other extension raises "Unsupported file type: " with the extension (rows UpperCaseSuffix, LoadUnsupported) |
| DocumentLoader.Load | app/document_loader.py:23-42 | a loader's documents are returned as loaded; a raised error becomes the one error document; a PDF without a fault always yields documents |
| DocumentLoader.LoadUnsupported | app/document_loader.py:34-42 | an unsupported extension yields one error document carrying "Unsupported file type" and the extension |
| DocumentLoader.LoadPdfFallbackFails | app/document_loader.py:82-85 | when the cascade and then the basic loader raise, the result is the error document of the basic loader's message |
| DocumentLoader.PerPage | app/document_loader.py:413 | `max(1, n // per)` is the page count `p` with `per * p <= max(n, per) < per * (p + 1)` |
| DocumentLoader.GetPageCount | app/document_loader.py:383-424 | PDFs are counted by PyMuPDF, else by PyPDF2; slides by their number; Word files at 30 paragraphs and text files at 500 words to a page, at least one; a failure or another extension gives none |
| DocumentLoader.ThousandWordsTwoPages | app/document_loader.py:416-420 | a thousand-word text file counts as two pages |
| Summarizer.ClassifyDocumentSize | app/summarizer.py:89-108 | the word count is the number of words, the estimate its floor division by 500, and large means at least 8000 words |
| Summarizer.TruncateForModel | app/summarizer.py:124-135 | the truncation is a prefix of `4 * max_tokens` characters, or all of a shorter text |
| Summarizer.PromptLayout | app/summarizer.py:164-168 | a chunk prompt is the fixed head, the truncated chunk and the fixed tail; a final prompt is the head, the combined text and the tail |
| Summarizer.PromptSeesPrefix | app/summarizer.py:164-168 | chunks agreeing on their first 12000 characters give the same prompt |
| Summarizer.ChunkCalls | app/summarizer.py:220-223 | one chunk-summary call per text, in order |
| Summarizer.Answers | app/summarizer.py:220-223 | one cleaned reply per call |
| Summarizer.AnswersAt | app/summarizer.py:160-170 | reply `i` is the cleaned model answer to call `i` |
| Summarizer.ChunkCallsStep | app/summarizer.py:220-223 | one more text appends its call |
| Summarizer.AnswersStep | app/summarizer.py:220-223 | one more call appends its reply |
| Summarizer.SummarizeEach | app/summarizer.py:219-223 | the chunk loop makes one chunk call per text in order and collects their cleaned replies |
| Summarizer.SectionSize | app/summarizer.py:287 | the section size is exactly the larger of ten and the count divided by ten, rounded down |
| Summarizer.Partition | app/summarizer.py:287-294 | consecutive slices of the section size (rows PartitionFlatten, PartitionShape, SectionCount) |
| Summarizer.PartitionFlatten | app/summarizer.py:288-292 | the sections concatenate back to the summaries |
| Summarizer.PartitionShape | app/summarizer.py:288-292 | every section is non-empty and at most `size`, all but the last exactly `size`, and there are `ceil(n / size)` of them |
| Summarizer.CreateSectionSummaries | app/summarizer.py:277-294 | the grouping loop returns consecutive slices of the section size |
| Summarizer.JoinEach | app/summarizer.py:262-265 | each section becomes its summaries joined by spaces |
| Summarizer.SectionCount | app/summarizer.py:252-265 | 50 summaries or fewer are used as they are; beyond that the sections number `ceil(n / size)` and together contain the same text |
| Summarizer.PartitionNonEmpty | app/summarizer.py:290-292 | no section is empty |
| Summarizer.JoinSections | app/summarizer.py:262-272 | joining the joined sections gives the join of all their summaries |
| Summarizer.JoinEachCons | app/summarizer.py:262-265 | joining each section proceeds section by section |
| Summarizer.FlattenNonEmpty | app/summarizer.py:288-292 | non-empty sections contain at least one summary |
| Summarizer.AboutTenSections | app/summarizer.py:287 | with 100 or more summaries there are 10 or 11 sections |
| Summarizer.SummarizeSmallDocument | app/summarizer.py:206-231 | one chunk call per chunk, then one final call on the joined replies, whose cleaned answer is the summary |
| Summarizer.GroupSummaries | app/summarizer.py:252-265 | the grouped section texts are the specified ones |
| Summarizer.SummarizeLargeDocument | app/summarizer.py:233-275 | chunk calls, then one chunk call per section text, then one final call, whose cleaned answer is the summary |
| Summarizer.ChunkCallsNoFinal | app/summarizer.py:160-170 | chunk calls include no final call |
| Summarizer.FinalCountConcat | app/summarizer.py:296-305 | final calls add up over concatenated traces |
| Summarizer.SmallCalls | app/summarizer.py:206-231 | the calls of a small document: each chunk, then one final call over the space-joined answers (row SmallCallPattern) |
| Summarizer.SmallCallPattern | app/summarizer.py:218-229 | a small document makes one chunk call per chunk in order and exactly one final call, last |
| Summarizer.TwoLevelTrace | app/summarizer.py:246-273 | two runs of chunk calls followed by a final call have that layout and exactly one final call |
| Summarizer.TwoLevelFinalCount | app/summarizer.py:246-273 | two runs of chunk calls and one final call hold exactly one final call |
| Summarizer.LargeCalls | app/summarizer.py:233-275 | the calls of a large document: each chunk, each section text, then one final call (rows TwoLevelTrace, LargeCallPattern) |
| Summarizer.LargeCallPattern | app/summarizer.py:245-273 | a large document makes chunk calls, then section calls in order, and exactly one final call, last |
| Summarizer.SummarizeDocument | app/summarizer.py:351-382 | the report carries the classification, word count, page estimate and chunk count, and the small or large route's summary and processing method, chosen by size |
| Summarizer.WithPeriod | app/summarizer.py:203-204 | a text ending in a period is unchanged; any other text gains one period; the result always ends in one |
| Summarizer.Pick | app/summarizer.py:195-201 | the sentences at the given indices, in that order |
| Summarizer.ChunkPicks | app/summarizer.py:193-201 | more than four sentences: first, middle and last; otherwise the first two |
| Summarizer.FinalPicks | app/summarizer.py:324-346 | small documents: all of at most five sentences, or first, middle and last; large documents: all of at most six, or first, quarter, three-quarter and last |
| Summarizer.SimulateChunkSummary | app/summarizer.py:172-204 | short texts (under 30 words or at most two sentences) are returned as they are; others become the picked sentences joined by `. `, with one period appended exactly when the join lacks one |
| Summarizer.SimulateFinalSummary | app/summarizer.py:307-349 | at most three sentences are kept as they are; otherwise the picked sentences, with one period appended exactly when they lack one |
| Summarizer.FinalPicksDistinct | app/summarizer.py:324-346 | the picked indices are strictly increasing, so no sentence is repeated |
| Summarizer.AscendingPairs | app/summarizer.py:324-346 | ascending indices are pairwise increasing |
| QueryApp.PathJoin | app/main.py:673 | the file is saved under the upload directory, unless its name is absolute |
| QueryApp.PageCountOrOne | app/main.py:687 | the page estimate is the counted pages when a positive count was obtained, and 1 otherwise |
| QueryApp.ContextChoice | app/main.py:781-797 | the stored chunks are used when they exist and are fewer than 20; otherwise the search hits |
| QueryApp.TrimContext | app/main.py:823-827 | a context over 8000 characters with more than twenty ". "-parts keeps its first and last five parts (row TrimContextShape) |
| QueryApp.TrimContextShape | app/main.py:821-827 | a context of at most 8000 characters or at most 20 sentences is unchanged; otherwise it becomes the text of the first five sentences, ". " and the text of the last five, a prefix and a suffix of the original, and it is shorter |
| QueryApp.QuestionPromptLayout | app/main.py:831 | the prompt is the fixed head, then the query, the fixed middle, the context and the fixed tail |
| QueryApp.UploadedPages | app/main.py:683-687 | the uploaded file's page estimate is at least one |
| QueryApp.LoadUpload | app/main.py:682-693 | loading the saved file gives its joined document text and its page estimate |
| QueryApp.App.constructor | app/main.py:721-723 | no chunks are stored at start-up |
| QueryApp.App.Stored | app/main.py:782-783 | the chunks remembered under a file name, if it was uploaded (rows App.Upload, App.Query, UploadThenQuery) |
| QueryApp.App.Upload | app/main.py:661-733 | the upload stores the file's chunks under its name, replacing earlier ones and changing nothing else, and returns the summary run's calls and report with the page estimate |
| QueryApp.App.Query | app/main.py:776-813 | a stored small document is answered from all its chunks, otherwise from the search hits; no context gives the not-found message without calling the model; otherwise one call on the trimmed contextual question |
| QueryApp.Respond | app/main.py:799-806 | no context chunks give the not-found message and no model call; otherwise exactly one call, whose reply is the answer |
| QueryApp.UploadThenQuery | app/main.py:721-793 | after uploading a file of fewer than 20 chunks, queries about it use exactly those chunks |
| QueryApp.Classify | app/main.py:838-864 | the first word list that occurs in the lowercased query decides the kind of answer (row ClassifyPrecedence) |
| QueryApp.ClassifyPrecedence | app/main.py:838-879 | the answer is key points exactly when a key-point word occurs; explanation exactly when no key-point word but an explanation word occurs; conclusions exactly when only conclusion words occur; general otherwise |
| QueryApp.LongStripped | app/main.py:844-846 | at most one key point per sentence |
| QueryApp.LongStrippedMembers | app/main.py:844-846 | a text is collected exactly when it is a sentence, stripped, longer than ten characters |
| QueryApp.KeyPointsMembers | app/main.py:842-846 | at most five key points; a text is one exactly when it is one of the first five sentences stripped and longer than ten characters |
| QueryApp.ExtractKeyPoints | app/main.py:842-846 | the loop collects the specified key points |
| QueryApp.NumberedFirst | app/main.py:849-851 | the numbered list starts with "1. " and the first point |
| QueryApp.NumberKeyPoints | app/main.py:849-851 | the loop appends one numbered line per key point after the header |
| QueryApp.RelevantPart | app/main.py:859 | a context of at most 1000 characters is kept; a longer one is cut to 1000 and marked with "..." |
| QueryApp.ConclusionsOf | app/main.py:866-870 | at most one conclusion per sentence |
| QueryApp.ConclusionsMembers | app/main.py:866-870 | a sentence is a conclusion exactly when its lowercase form contains a conclusion word |
| QueryApp.FindConclusions | app/main.py:866-870 | the loop collects the specified conclusions in order |
| QueryApp.BulletConclusions | app/main.py:873-875 | the loop appends one bullet per conclusion, at most three, after the header |
| QueryApp.LeadingSentencesPrefix | app/main.py:883-885 | the general answer's summary is a prefix of the context, and all of it when there are at most eight sentences |
| QueryApp.SimulatedResponse | app/main.py:834-892 | the branch the query's kind selects, passed through the markdown clean-up (row GenerateSimulatedResponse) |
| QueryApp.GenerateSimulatedResponse | app/main.py:834-892 | the simulated answer is the branch the query selects, passed through the markdown clean-up |

## Left out

- The web layer is not modelled: FastAPI routing, the HTML page, start-up,
  directory creation, writing the uploaded bytes, and the HTTP error
  responses of `upload_document` (the 400 and 500 replies when a step
  raises). Each step of `App.Upload` is modelled on its successful path.
- The `/summarize` endpoint (app/main.py:742-774) is not modelled. It
  repeats the upload's loading and summarising without storing anything.
- `call_mistral_api` (app/summarizer.py:137-158) is the parameter `llm`.
  The HTTP request, its timeout and its error reply string are outside the
  model. `generate_contextual_response` returns the raw reply; the
  summariser passes replies through `clean_markdown_formatting`.
- `clean_markdown_formatting` (app/summarizer.py:13-63) is the parameter
  `md`. Its regular expressions are not modelled.
- The text splitters (`create_chunks` and `chunk_text`), `add_to_vector_store`
  and `similarity_search` are the parameters `split`, `chunkText` and
  `searched`. app/chunking.py and app/vector_store.py are not part of this
  model.
- The PDF, Office and imaging libraries are modelled by what they return:
  PyMuPDF, pdf2image, OpenCV, PIL, PyPDF2, python-pptx and python-docx.
  Their outcomes, or the exceptions they raise, are inputs. The page text
  of the three PyMuPDF modes is an input. The pixel operations of
  `_preprocess_image_for_ocr` are left out; only which steps succeed is an
  input.
- The Tesseract setup is not modelled: the Windows path check, the
  `subprocess` probe and the version query. Together they are one input
  saying whether Tesseract is available.
- The Tesseract option strings and log names of the ten configurations
  (app/document_loader.py:198-219) are not modelled. A configuration is one
  of ten constructors, tried in the source's order, and Tesseract's reply
  for each image and configuration is an input.
- Tesseract calls that raise are a missing candidate (`None` from the
  engine function). The model assumes no exception escapes a page's OCR
  block (app/document_loader.py:221-257): every Tesseract call and the
  cleaning of its text are caught at 241-243, and every `fromarray` at
  186-191. An exception there would skip only that page (the `continue` at
  254-256). A failed colour conversion of a page (line 178) raises
  outside that block and empties the whole OCR result through the handler
  at 261-263; that is the page's `convertOk` input.
- Logging (`print`) is left out.
- `summarize_text` (app/summarizer.py:384-396) is left out. It passes a
  keyword that `DocumentSummarizer` does not accept.
- `DocumentSummarizer.__init__` is left out. Its chunk size and overlap
  only configure the external splitter.
- `async` is dropped: the calls are sequential in the source and the
  model.
- PyString.Lower: only ASCII capitals are lowercased. Python also
  lowercases other capitals, such as the Kelvin sign, which can change the
  keyword tests and error texts for such input. The extension dispatch is
  not affected.
- PyString.SplitExt: posix path rules only, with `/` as the separator. On
  Windows `os.path` would also split at `\`.
- PyString.IsSpace: follows `str.isspace` for the characters listed. The
  Unicode database is otherwise not modelled.
- DocumentLoader.GetPageCount: the `None` results stand for any exception
  while opening or reading the file. The model does not distinguish them.
- QueryApp.App.Upload: an exception in a step (loading, summarising,
  chunking, the vector store) is not modelled. Its contract covers the
  path on which every step returns.
