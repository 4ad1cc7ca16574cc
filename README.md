# SSN redaction core of the document-redaction container

The container redacts US Social Security numbers from scanned documents.
Four scripts share one per-page core:

1. An OCR response (the Textract `Blocks`) is read.
2. Its `WORD` blocks are joined with single spaces into the page text.
3. Each word's start offset is mapped to its box, scaled to the image's size.
4. The text goes to a detector.
5. For every detected entity, each word whose interval `[start, start + len(text))` holds the entity's `BeginOffset` is painted over.

The four scripts:

- `main_pdf_re.py` (module `PdfRegex`): PDF pages, a regular-expression detector, black rectangles.
- `main_tiff_re.py` (module `TiffRegex`): one TIFF image, a second regular expression, black rectangles.
- `main.py` (module `ComprehendPdf`): PDF pages, the Comprehend PII detector with a confidence threshold taken from the environment, Gaussian blur.
- `main_tiff_v2.py` (module `ComprehendTiff`): one TIFF image, Comprehend with a parsed threshold, Gaussian blur.

Each script notifies by SNS when its results mention an SSN. `main_tiff_re.py` tests for a non-empty record list. The others test whether `"SSN"` occurs in `str(...)` of the results.

Shared modules:

- `Text`: `' '.join` and the word offsets it implies.
- `WordIndex`: the index loop, `word_to_geometry` and `full_text`.
- `SsnPattern`: both regular expressions as match functions, each with a second, set-valued reading of every way the optional parts can match.
- `SsnDetector`: the `re.finditer` scan and the records `detect_ssn` builds.
- `Resolver`: the begin-offset resolver.
- `Raster`: `redact_region` and `blur_region` on an `array2` of pixels.
- `Redaction`: the per-entity loops.
- `Report`: `str()` of the results and the `"SSN" in ...` test.

The OCR service, Comprehend and the Gaussian filter are parameters of the model.

In three places the model follows the code as written, which a reader might not expect:

- Only an entity's `BeginOffset` is resolved. `EndOffset` is never read, so a number split over several words has only its first word painted.
- An offset that falls on a separating space resolves to no word at all. Nothing records the miss.
- In `main_pdf_re.py` a page without text is fatal: the 2-tuple returned for it cannot be unpacked into three names.

## Model

| member | source | states |
|---|---|---|
| Text.JoinWordAt | container/main_pdf_re.py:120-143 | In `' '.join(words)`, word `i` sits at its running offset (the sum of `len(w) + 1` over the words before it), and a space follows every word but the last. |
| Text.JoinLength | container/main_pdf_re.py:120-143 | The joined text is one character shorter than the final running offset, and empty when there are no words. |
| Text.OffsetIncreasing | container/main_pdf_re.py:128-140 | Each word ends strictly before any later word's start offset, so the keys of `word_to_geometry` never collide. |
| Text.SplitJoin | container/main_pdf_re.py:143 | Splitting the joined text on spaces gives the words back, when no word contains a space. |
| Text.JoinEmpty | container/main_pdf_re.py:143-147 | The joined text is empty exactly when there are no words or one empty word. |
| WordIndex.WordBlocksMembers | container/main_pdf_re.py:125-126 | Exactly the blocks whose `BlockType` is `WORD` are kept, and no more of them than there were blocks. |
| WordIndex.PageTextsAt | container/main_pdf_re.py:225-230 | The page text of page `i` is the join of that page's words. |
| WordIndex.BuildIndex | container/main_pdf_re.py:120-143 | The loop builds the index of every WORD block (its start offset, its text and its box scaled to the image) and the joined text; the index tiles the text: each word sits at its key and is followed by one space. |
| WordIndex.IndexTiles | container/main_tiff_re.py:89-115 | The index computed from the words tiles their joined text. |
| WordIndex.OffsetsTile | container/main_tiff_v2.py:65-91 | Any index whose keys are the running offsets of the words tiles their join. |
| WordIndex.KeysIncreasing | container/main.py:89-112 | On a tiling index, each word ends before the next key starts. |
| SsnPattern.TailUnambiguous | container/main_pdf_re.py:49 | For the shared tail `[-\s]?\d{3}[-\s]?\d{2}[-\s]?\d{4}\b`, every choice of the optional separators reaches at most one end, namely the greedy one. |
| SsnPattern.PdfUnambiguous | container/main_pdf_re.py:49 | Every way the PDF pattern can match at a position ends where the greedy match ends, so the match a backtracking engine reports is the only one. |
| SsnPattern.PdfLookaheadRedundant | container/main_pdf_re.py:46-49 | The lookahead of line 49 changes nothing: its matches are exactly those of the commented-out pattern of line 46. |
| SsnPattern.TiffUnambiguous | container/main_tiff_re.py:40 | Every way the TIFF pattern (its optional `X&Y` / `XY` prefix and separators) can match at a position ends where the greedy match ends. |
| SsnPattern.TailShape | container/main_pdf_re.py:49 | A tail match holds exactly nine digits and ends at a word boundary. |
| SsnPattern.PdfMatchShape | container/main_pdf_re.py:49 | A PDF match starts at a word boundary with two ASCII letters, is 11 to 14 characters long, holds nine digits and ends at a word boundary. |
| SsnPattern.TiffMatchShape | container/main_tiff_re.py:40 | A TIFF match starts at a word boundary, is 9 to 15 characters long, holds nine digits and ends at a word boundary. |
| SsnPattern.TiffMatchAfterWord | container/main_tiff_re.py:40 | A TIFF match that starts right after a word character starts on a separator, not on a digit or letter. |
| SsnDetector.ScanMatches | container/main_pdf_re.py:59-67 | Every span the `finditer` scan yields is a match that begins where it is reported and ends where the pattern's match ends. |
| SsnDetector.ScanOrdered | container/main_pdf_re.py:59-67 | The spans come in text order and do not overlap. |
| SsnDetector.ScanComplete | container/main_pdf_re.py:59-67 | Every position where the pattern matches lies inside some reported span. |
| SsnDetector.ScanUnique | container/main_tiff_re.py:42-50 | Any list of spans that is made of matches, is ordered and non-overlapping, and covers every match position is the scan's list. |
| SsnDetector.DetectSsnSpec | container/main_pdf_re.py:40-67 | `detect_ssn` returns one record per non-overlapping match, in text order, each with the match's offsets, `Score` 1.0 and `Type` 'SSN', and every match position lies in some record. |
| SsnDetector.SomeRecordIffMatch | container/main_tiff_re.py:30-50 | `detect_ssn` returns a record exactly when the pattern matches somewhere in the text. |
| SsnDetector.NoMatchNoEntities | container/main_tiff_re.py:42-50 | A text with no match gives no record. |
| SsnDetector.WholeMatch | container/main_tiff_re.py:42-50 | A text that is one match from end to end gives exactly one record covering it. |
| SsnDetector.TiffDocstringExamples | container/main_tiff_re.py:31-37 | The three forms the docstring lists, `123-45-6789`, `123 45 6789` and `123456789`, are each found whole. |
| SsnDetector.PdfNeedsLetters | container/main_pdf_re.py:49 | The PDF pattern finds nothing in a text without ASCII letters. |
| SsnDetector.PdfBareNumber | container/main_pdf_re.py:49 | The PDF pattern does not find a bare `123-45-6789`. |
| SsnDetector.PdfTwoLetterWord | container/main_pdf_re.py:49 | In `ID 123-45-6789` the PDF pattern reports one record spanning the label and the number. |
| SsnDetector.TiffAfterWord | container/main_tiff_re.py:40 | In `SSN 123-45-6789` the TIFF pattern reports one record, beginning at the space after `SSN`. |
| Resolver.BoxOf | container/main_pdf_re.py:160-164 | The box passed on is `(left, top, left + width, top + height)`. |
| Resolver.ResolveNone | container/main_pdf_re.py:153-165 | An offset that no word holds picks no word. |
| Resolver.ResolveAtMostOne | container/main_pdf_re.py:153-165 | Over disjoint word intervals an offset picks at most one word. |
| Resolver.ResolveWord | container/main_tiff_re.py:125-144 | On a page index the word holding the offset is the only word picked. |
| Resolver.ResolveNothing | container/main_tiff_re.py:125-144 | On a page index an offset picks no word exactly when it lies past the text or on a separating space. |
| Resolver.TargetsCount | container/main.py:124-138 | No more boxes are painted than there are entities. |
| Resolver.TargetsMembers | container/main.py:124-138 | A box is painted exactly when some entity's begin offset lies in the word it bounds. |
| Resolver.TargetsBeginOnly | container/main_tiff_v2.py:100-119 | Which boxes are painted depends only on the entities' begin offsets; their end offsets play no part. |
| Raster.Trunc | container/main_pdf_re.py:97-102 | `int()` of a coordinate truncates toward zero. |
| Raster.FillGridAt | container/main_pdf_re.py:97-102 | After `redact_region`, a pixel is black when it lies in the box, corners included, and is unchanged otherwise. |
| Raster.Fill | container/main_tiff_re.py:52-57 | Painting the box in place leaves the image equal to the filled grid. |
| Raster.FillIdempotent | container/main_tiff_re.py:52-57 | Painting the same box twice is painting it once. |
| Raster.FillAllIdempotent | container/main_pdf_re.py:153-165 | Redacting a page a second time with the same boxes changes nothing more. |
| Raster.Crop | container/main.py:61-67 | The cropped region is `x2 - x1` by `y2 - y1` pixels, or empty. |
| Raster.Paste | container/main.py:61-67 | Pasting keeps the image's size. |
| Raster.BlurGridAt | container/main.py:61-67 | After `blur_region`, a pixel inside the crop holds the smoothed crop's pixel, and every other pixel is unchanged. |
| Raster.Blur | container/main_tiff_v2.py:32-39 | Blurring in place leaves the image equal to the blurred grid. |
| Raster.BlurAllOutside | container/main_tiff_v2.py:105-119 | A pixel outside every blurred box keeps its value. |
| Redaction.RedactWordsAt | container/main_pdf_re.py:155-165 | The inner loop paints, in dict order, the box of every word holding the offset. |
| Redaction.RedactEntities | container/main_tiff_re.py:125-144 | The entity loop paints the boxes of all entities, entity by entity. |
| Redaction.ScoreAbove | container/main.py:126 | `Score > threshold` raises `TypeError` exactly when the threshold is not a float, and otherwise is the comparison. |
| Redaction.QualifyingMembers | container/main_tiff_v2.py:100-101 | Exactly the entities with a score above the threshold and type `SSN` qualify. |
| Redaction.BlurWordsAt | container/main_tiff_v2.py:105-119 | The inner loop blurs, in dict order, the box of every word holding the offset. |
| Redaction.BlurQualifying | container/main.py:124-138 | The entity loop raises on the first entity when the threshold is not a float, leaving the image as it was; with a float it blurs the boxes of the qualifying entities in turn. |
| Report.DetectedPagesHasSsn | container/main_pdf_re.py:329 | `"SSN"` occurs in `str()` of the per-page record lists exactly when some record's type mentions it. |
| Report.RecordsNotify | container/main_pdf_re.py:328-330 | For `detect_ssn` records, whose type is always `SSN`, `"SSN"` occurs in the rendered lists exactly when some page has a record. |
| Report.ResponseHasSsn | container/main_tiff_v2.py:182 | `"SSN"` occurs in `str()` of a Comprehend response exactly when an entity type or a metadata item mentions it. |
| Report.ResponsesHasSsn | container/main.py:269 | `"SSN"` occurs in `str()` of the per-page responses exactly when one of them mentions it. |
| PdfRegex.BlankPage | container/main_pdf_re.py:143-147 | A page has no text exactly when it has no WORD block or a single empty one. |
| PdfRegex.ProcessSingleImage | container/main_pdf_re.py:104-171 | A page without text is returned untouched as the 2-tuple; otherwise its records are those of `detect_ssn` on its text, and the page is painted where they resolve. |
| PdfRegex.FirstBlank | container/main_pdf_re.py:225-230 | The page where the loop stops is the first page without text: every earlier page has text. |
| PdfRegex.AllPagesHaveText | container/main_pdf_re.py:225-230 | The loop runs to the end exactly when every page has text. |
| PdfRegex.DetectionsAt | container/main_pdf_re.py:225-230 | The `i`-th record list is `detect_ssn` of page `i`'s text. |
| PdfRegex.RecordsStep | container/main_pdf_re.py:225-230 | One pass of the loop either stops at the first blank page or appends that page's records to the list so far. |
| PdfRegex.ProcessPageAt | container/main_pdf_re.py:225-230 | Processing page `i` paints page `i` alone and keeps every earlier page as painted. |
| PdfRegex.ProcessPages | container/main_pdf_re.py:225-230 | The pages before the first blank one are painted and give their record lists in page order; the pages from it on are untouched. |
| PdfRegex.ProcessPdf | container/main_pdf_re.py:208-230 | No pages raises; a page without text raises on unpacking; otherwise the records come one list per page, with the pages painted as `ProcessPages` says. |
| PdfRegex.NotifyIffRecord | container/main_pdf_re.py:328-330 | After a successful run, the notification goes out exactly when some page has a record. |
| PdfRegex.Handle | container/main_pdf_re.py:279-331 | The run succeeds exactly when there are pages and all have text; it notifies exactly when it succeeds and some page has a record. |
| PdfRegex.LabelledPageText | container/main_pdf_re.py:120-143 | The page of the two words `ID` and `123-45-6789` reads `ID 123-45-6789`. |
| PdfRegex.LabelPainted | container/main_pdf_re.py:49-165 | On that page the record begins at the label, so the box painted is the label's and not the number's. |
| TiffRegex.ProcessImage | container/main_tiff_re.py:59-150 | No blocks and no text each return the image untouched; otherwise the records are those of `detect_ssn` on the text and the image is painted where they resolve. |
| TiffRegex.Handle | container/main_tiff_re.py:163-219 | It notifies exactly when the image has blocks, their words make a text, and the pattern matches somewhere in it. |
| TiffRegex.LabelledImageText | container/main_tiff_re.py:89-115 | The image of the two words `SSN` and `123-45-6789` reads `SSN 123-45-6789`. |
| TiffRegex.LabelledNumberUnpainted | container/main_tiff_re.py:40-144 | On that image one record is found, so a notification goes out, yet its begin offset is the separating space and nothing is painted. |
| ComprehendPdf.EnvThreshold | container/main.py:39 | The threshold is the variable's text when set and `None` otherwise, never a float. |
| ComprehendPdf.ProcessSingleImage | container/main.py:73-144 | A page without text gives `{'Entities': []}`; a page raises exactly when its response has an entity and the threshold is not a float, leaving the page as it was; otherwise the qualifying entities' words are blurred. |
| ComprehendPdf.FirstFailure | container/main.py:195-199 | The page where the loop stops is the first whose response raises: no earlier one does. |
| ComprehendPdf.ResponsesStep | container/main.py:195-199 | One pass of the loop either stops at the first raising page or appends that page's response. |
| ComprehendPdf.ProcessPageAt | container/main.py:195-199 | Processing page `i` changes page `i` alone and keeps every earlier page as processed. |
| ComprehendPdf.ProcessPages | container/main.py:195-199 | The pages before the first raising one give their responses in order and are blurred as those say; the rest are untouched. |
| ComprehendPdf.ProcessPdf | container/main.py:179-225 | No pages raises; a raising page fails the run; otherwise the responses come one per page. |
| ComprehendPdf.NotifyWithoutEntities | container/main.py:265-270 | When no response holds an entity, the rendered list mentions `"SSN"` only through some response's metadata. |
| ComprehendPdf.Handle | container/main.py:231-284 | With the environment's threshold, the run succeeds exactly when there are pages and no page yields an entity; no page is ever changed; it notifies only from a successful run whose metadata mentions `"SSN"`. |
| ComprehendTiff.ConfiguredThreshold | container/main_tiff_v2.py:29 | The threshold is the configured value, or 0.8 when unset. |
| ComprehendTiff.ProcessImage | container/main_tiff_v2.py:41-124 | Comprehend is consulted with the page text, empty or not; the response comes back whole, and the image shows the qualifying entities' words blurred in turn. |
| ComprehendTiff.Handle | container/main_tiff_v2.py:137-186 | It notifies exactly when some entity type or metadata item of the response mentions `"SSN"`, and blurs with the configured threshold. |
| ComprehendTiff.LowScoreStillNotifies | container/main_tiff_v2.py:100-101 | An SSN entity scored at or below the threshold is not blurred, yet the notification still goes out for it. |
| ComprehendTiff.NothingQualifyingNothingBlurred | container/main_tiff_v2.py:100-119 | With no qualifying entity the image is left exactly as it was. |

## Left out

- The AWS services are not modelled. Textract, Comprehend, S3 and SNS become parameters or results: the OCR blocks of each page, a `comprehend` function from text to response, and the notification decision as a boolean.
- Box geometry, scores and the threshold are exact reals. IEEE double rounding is not modelled: in `Left * width` and `x1 + width` before `int()`, where it can move a box edge by one pixel (a `Left` of 0.29 on a 100-pixel page gives 28 in Python, 29 here), and in `Score > threshold`, where it matters for a tie at the threshold.
- Image decoding and encoding are not modelled: PIL, `BytesIO`, TIFF/JPEG compression and the mode '1' → 'L' conversion of bilevel TIFFs (`main_tiff_re.py:70-72`, `main_tiff_v2.py:51-53`). An image is an `array2<int>` of pixels, and black is one pixel value.
- The Gaussian filter (radius 10 in `main.py`, radius 3 in `main_tiff_v2.py`) is an arbitrary size-preserving function `smooth` on the cropped region. Its numerics and its radius are not modelled.
- Rasterising with `pdf2image`, reassembling and compressing the PDF (`compress_pdf`) and `check_pdf_validity` are not modelled. The pages are arrays painted in place, so the processed pages are the input pages in order.
- `\d`, `\s` and `\w` are read as under `re.ASCII`. Python's default Unicode classes are wider, even on ASCII text: its `\s` also matches the separators `'\x1c'` to `'\x1f'`.
- `str()` of a float follows the shortest-repr digits only as far as the `"SSN"` test needs. The model proves that the rendered numbers never contain the letter `S`.
- Missing dictionary keys, such as `Blocks` in `main_tiff_v2.py` or `Geometry` in a block, are taken as present. The `KeyError` paths are not modelled.
- ComprehendTiff.ConfiguredThreshold: the environment variable is taken as already parsed to a number. The `ValueError` that `float()` raises on unparsable text is not modelled.
- The `json.dumps`/`json.loads` round trip before the `"SSN"` test is taken to return an equal value.
- Logging, `print`, and the exception handlers that log and re-raise are not modelled.
- TiffRegex.ProcessImage: on the two early-return paths (`main_tiff_re.py:85-87` and `118-120`) the script returns a PIL image rather than bytes. `lambda_handler` passes it to `put_object` as its `Body`, so no object is written, and the handler stops before its JSON uploads and its notification test. The notification decision is unaffected, since no entity was found on those paths. The model states only that the image is untouched and that no notification goes out.
- `container_pii_ondemand/main.py` is not part of this model.
