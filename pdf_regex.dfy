/**
 * main_pdf_re.py: each rasterised page is read by OCR, its SSNs found with
 * the pattern of line 49 and the words holding their begin offsets painted
 * black; the run collects one record list per page and notifies when the
 * rendered list mentions "SSN".
 */
module PdfRegex {
  import opened Common
  import opened Text
  import opened WordIndex
  import opened Resolver
  import opened Raster
  import opened SsnDetector
  import opened Redaction
  import opened Report

  /** What `process_single_image` hands back: the 2-tuple of a page without
      text, or the 3-tuple carrying the page's records. */
  datatype PageOutcome = Blank | Processed(entities: seq<Entity>)

  /** A page is blank exactly when its WORD blocks join to nothing: none at
      all, or a single empty one. */
  lemma BlankPage(blocks: seq<Block>)
    ensures PageText(blocks) == "" <==>
            |WordBlocks(blocks)| == 0 || (|WordBlocks(blocks)| == 1 && WordBlocks(blocks)[0].text == "")
  {
    var words := WordBlocks(blocks);
    JoinEmpty(Texts(words));
    if |words| == 1 {
      TextsAt(words, 0);
    }
  }

  /** The detector the script uses: `detect_ssn` with the pattern of
      main_pdf_re.py:49. The page methods below take the detector as the
      parameter `detect` and are run with this one. */
  function Detect(text: string): seq<Entity>
  {
    DetectSsn(PdfPattern, text)
  }

  /** `process_single_image` (main_pdf_re.py:104-171) for one page, with
      `detect` standing for `detect_ssn`. */
  method ProcessSingleImage(img: array2<int>, blocks: seq<Block>, detect: string -> seq<Entity>) returns (o: PageOutcome)
    modifies img
    ensures o.Blank? <==> PageText(blocks) == ""
    ensures o.Processed? ==> o.entities == detect(PageText(blocks))
    ensures o.Blank? ==> unchanged(img)
    ensures o.Processed? ==> Redacted(img, old(Pixels(img)), blocks, o.entities)
  {
    var index, fullText := BuildIndex(blocks, img.Length0, img.Length1);
    if fullText == "" {
      return Blank;
    }
    var entities := detect(fullText);
    RedactEntities(img, index, entities);
    return Processed(entities);
  }

  /** The index of the first empty page text, or the page count. */
  function FirstBlank(texts: seq<string>): (k: nat)
    ensures k <= |texts|
    ensures forall i :: 0 <= i < k ==> texts[i] != ""
    ensures k < |texts| ==> texts[k] == ""
  {
    if |texts| == 0 then 0
    else if texts[0] == "" then 0
    else 1 + FirstBlank(texts[1..])
  }

  /** The run reaches the end exactly when every page has text. */
  lemma AllPagesHaveText(ocr: seq<seq<Block>>)
    ensures FirstBlank(PageTexts(ocr)) == |ocr| <==> forall i :: 0 <= i < |ocr| ==> PageText(ocr[i]) != ""
  {
    forall i | 0 <= i < |ocr|
      ensures PageTexts(ocr)[i] == PageText(ocr[i])
    {
      PageTextsAt(ocr, i);
    }
  }

  /** The record lists the detector gives for the page texts, in order. */
  function Detections(texts: seq<string>, detect: string -> seq<Entity>): (results: seq<seq<Entity>>)
    ensures |results| == |texts|
  {
    if |texts| == 0 then [] else Detections(texts[..|texts| - 1], detect) + [detect(texts[|texts| - 1])]
  }

  lemma {:induction false} DetectionsAt(texts: seq<string>, detect: string -> seq<Entity>, i: nat)
    requires i < |texts|
    ensures Detections(texts, detect)[i] == detect(texts[i])
  {
    if i < |texts| - 1 {
      DetectionsAt(texts[..|texts| - 1], detect, i);
    }
  }

  /** One more page of a run that has not yet met a blank page: a blank page
      is the first one, and a page with text extends the record lists by its
      own. */
  lemma RecordsStep(texts: seq<string>, detect: string -> seq<Entity>, results: seq<seq<Entity>>, i: nat)
    requires i < |texts|
    requires i <= FirstBlank(texts)
    requires results == Detections(texts, detect)[..i]
    ensures texts[i] == "" ==> i == FirstBlank(texts)
    ensures texts[i] != "" ==>
              && i < FirstBlank(texts)
              && results + [detect(texts[i])] == Detections(texts, detect)[..i + 1]
  {
    DetectionsAt(texts, detect, i);
    PrefixSnoc(Detections(texts, detect), i);
  }

  /** Page `img`, which held `before`, now shows black the boxes that the
      records `entities` resolve to among its OCR words. */
  ghost predicate Redacted(img: array2<int>, before: Grid, blocks: seq<Block>, entities: seq<Entity>)
    reads img
  {
    Pixels(img) == FillAll(before, Targets(IndexOf(WordBlocks(blocks), img.Length0, img.Length1), entities))
  }

  /** The first `i` pages, which held `before`, are painted with their
      records `results`; the others still hold `before`. */
  ghost predicate RedactedUpTo(pages: seq<array2<int>>, before: seq<Grid>, ocr: seq<seq<Block>>,
                               results: seq<seq<Entity>>, i: nat)
    reads set j | 0 <= j < |pages| :: pages[j]
  {
    && |before| == |pages| == |ocr|
    && |results| == i <= |pages|
    && (forall j {:trigger Redacted(pages[j], before[j], ocr[j], results[j])} ::
          0 <= j < i ==> Redacted(pages[j], before[j], ocr[j], results[j]))
    && (forall j :: i <= j < |pages| ==> Pixels(pages[j]) == before[j])
  }

  /** One pass of the page loop of `process_pdf` (main_pdf_re.py:225-230):
      page `i` is processed; a blank page leaves every page as it was, and a
      page with text is painted where its records say. */
  method ProcessPageAt(pages: seq<array2<int>>, ocr: seq<seq<Block>>, detect: string -> seq<Entity>, i: nat,
                       ghost before: seq<Grid>, ghost results: seq<seq<Entity>>)
    returns (o: PageOutcome)
    requires forall a, b :: 0 <= a < b < |pages| ==> pages[a] != pages[b]
    requires i < |pages|
    requires RedactedUpTo(pages, before, ocr, results, i)
    modifies pages[i]
    ensures o.Blank? <==> PageTexts(ocr)[i] == ""
    ensures o.Blank? ==> RedactedUpTo(pages, before, ocr, results, i)
    ensures o.Processed? ==>
              && o.entities == detect(PageTexts(ocr)[i])
              && RedactedUpTo(pages, before, ocr, results + [o.entities], i + 1)
  {
    o := ProcessSingleImage(pages[i], ocr[i], detect);
    PageTextsAt(ocr, i);
  }

  /** The page loop of `process_pdf` (main_pdf_re.py:225-230), up to the
      first page without text, whose 2-tuple cannot be unpacked into three
      names. `ocr[i]` is the OCR response for page `i`. Each page is painted
      in place, so `processed_images` holds the input pages themselves, in
      order. The pages before the first blank one are painted and give one
      record list each, in page order; the rest are untouched. */
  method ProcessPages(pages: seq<array2<int>>, ocr: seq<seq<Block>>, detect: string -> seq<Entity>)
    returns (results: seq<seq<Entity>>)
    requires |ocr| == |pages|
    requires forall i, j :: 0 <= i < j < |pages| ==> pages[i] != pages[j]
    modifies pages
    ensures results == Detections(PageTexts(ocr), detect)[..FirstBlank(PageTexts(ocr))]
    ensures RedactedUpTo(pages, old(Snapshot(pages)), ocr, results, |results|)
  {
    ghost var before := Snapshot(pages);
    results := [];
    var i := 0;
    while i < |pages|
      invariant i <= FirstBlank(PageTexts(ocr))
      invariant results == Detections(PageTexts(ocr), detect)[..i]
      invariant RedactedUpTo(pages, before, ocr, results, i)
    {
      var o := ProcessPageAt(pages, ocr, detect, i, before, results);
      RecordsStep(PageTexts(ocr), detect, results, i);
      if o.Blank? {
        break;
      }
      results := results + [o.entities];
      i := i + 1;
    }
  }

  /** `process_pdf` (main_pdf_re.py:208-230) up to reassembly: no pages
      raises; a page without text ends the run; otherwise the records come
      one list per page, in page order. */
  method ProcessPdf(pages: seq<array2<int>>, ocr: seq<seq<Block>>, detect: string -> seq<Entity>)
    returns (r: Result<seq<seq<Entity>>, Error>)
    requires |ocr| == |pages|
    requires forall i, j :: 0 <= i < j < |pages| ==> pages[i] != pages[j]
    modifies pages
    ensures |pages| == 0 ==> r == Failure(NoImagesExtracted)
    ensures |pages| > 0 && FirstBlank(PageTexts(ocr)) < |pages| ==> r == Failure(UnpackMismatch)
    ensures |pages| > 0 && FirstBlank(PageTexts(ocr)) == |pages| ==> r == Success(Detections(PageTexts(ocr), detect))
    ensures RedactedUpTo(pages, old(Snapshot(pages)), ocr,
                         Detections(PageTexts(ocr), detect)[..FirstBlank(PageTexts(ocr))],
                         FirstBlank(PageTexts(ocr)))
  {
    if |pages| == 0 {
      return Failure(NoImagesExtracted);
    }
    var results := ProcessPages(pages, ocr, detect);
    if |results| < |pages| {
      return Failure(UnpackMismatch);
    }
    assert Detections(PageTexts(ocr), detect)[..|pages|] == Detections(PageTexts(ocr), detect);
    return Success(results);
  }

  /** The notification test of `lambda_handler` (main_pdf_re.py:329). */
  function Notify(results: seq<seq<Entity>>): bool
  {
    HasSsn(DetectedPagesRepr(results))
  }

  /** When the run succeeds, notification is sent exactly when some page has
      a record. */
  lemma NotifyIffRecord(ocr: seq<seq<Block>>)
    ensures Notify(Detections(PageTexts(ocr), Detect)) <==> exists i :: 0 <= i < |ocr| && |Detect(PageText(ocr[i]))| > 0
  {
    var results := Detections(PageTexts(ocr), Detect);
    forall i | 0 <= i < |ocr|
      ensures results[i] == Detect(PageText(ocr[i]))
    {
      PageTextsAt(ocr, i);
      DetectionsAt(PageTexts(ocr), Detect, i);
    }
    forall p: nat, k: nat | p < |results| && k < |results[p]|
      ensures results[p][k].kind == "SSN"
    {
      DetectSsnSpec(PdfPattern, PageText(ocr[p]));
    }
    RecordsNotify(results);
  }

  /** The page work of `lambda_handler` (main_pdf_re.py:296-331): run
      `process_pdf` with `detect_ssn`; an exception ends the run without a
      notification; otherwise notify exactly when some page has a record. */
  method Handle(pages: seq<array2<int>>, ocr: seq<seq<Block>>) returns (r: Result<seq<seq<Entity>>, Error>, notify: bool)
    requires |ocr| == |pages|
    requires forall i, j :: 0 <= i < j < |pages| ==> pages[i] != pages[j]
    modifies pages
    ensures r.Success? <==> 0 < |pages| && forall i :: 0 <= i < |ocr| ==> PageText(ocr[i]) != ""
    ensures r.Success? ==> r.value == Detections(PageTexts(ocr), Detect)
    ensures notify <==> r.Success? && exists i :: 0 <= i < |ocr| && |Detect(PageText(ocr[i]))| > 0
    ensures RedactedUpTo(pages, old(Snapshot(pages)), ocr,
                         Detections(PageTexts(ocr), Detect)[..FirstBlank(PageTexts(ocr))],
                         FirstBlank(PageTexts(ocr)))
  {
    r := ProcessPdf(pages, ocr, Detect);
    AllPagesHaveText(ocr);
    notify := false;
    if r.Success? {
      NotifyIffRecord(ocr);
      notify := Notify(r.value);
    }
  }

  /** The OCR blocks of a page reading "ID 123-45-6789". */
  function LabelledPage(labelBox: NormBox, numberBox: NormBox): seq<Block>
  {
    [Block("WORD", "ID", labelBox), Block("WORD", "123-45-6789", numberBox)]
  }

  lemma LabelledPageText(labelBox: NormBox, numberBox: NormBox)
    ensures WordBlocks(LabelledPage(labelBox, numberBox)) == LabelledPage(labelBox, numberBox)
    ensures PageText(LabelledPage(labelBox, numberBox)) == "ID 123-45-6789"
  {
    var blocks := LabelledPage(labelBox, numberBox);
    assert blocks[..1] == [blocks[0]];
    assert WordBlocks(blocks[..1]) == [blocks[0]];
    assert WordBlocks(blocks) == blocks;
    assert Texts(blocks[..1]) == ["ID"];
    var texts := Texts(blocks);
    assert texts == ["ID", "123-45-6789"];
    assert texts[..1] == ["ID"];
    assert Join(texts) == Join(texts[..1]) + " " + texts[1];
  }

  /** On that page the pattern needs two letters before the digits, so the
      record begins at the label, and the box painted is the label's, not
      the number's. */
  lemma LabelPainted(labelBox: NormBox, numberBox: NormBox, width: nat, height: nat)
    ensures var blocks := LabelledPage(labelBox, numberBox);
            Targets(IndexOf(WordBlocks(blocks), width, height), Detect(PageText(blocks))) ==
              [BoxOf(Scale(labelBox, width, height))]
  {
    var blocks := LabelledPage(labelBox, numberBox);
    LabelledPageText(labelBox, numberBox);
    PdfTwoLetterWord();
    var index := IndexOf(blocks, width, height);
    IndexOfAt(blocks, width, height, 0);
    IndexTiles(blocks, width, height);
    ResolveWord(index, "ID 123-45-6789", 0, 0);
    var e := [Entity(0, 14, 1.0, "SSN")];
    assert e[..0] == [];
    assert Targets(index, e) == Boxes([index[0]]);
  }
}
