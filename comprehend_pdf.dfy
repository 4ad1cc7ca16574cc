/**
 * main.py: each rasterised page is read by OCR, its text handed to
 * Comprehend's PII detection, and the words holding the begin offsets of
 * SSN entities scored above the configured threshold blurred; the run
 * collects one response per page and notifies when the rendered list
 * mentions "SSN".
 *
 * The threshold is the raw environment value, a string or None, so the
 * score comparison raises on the first entity of any page: a run either
 * fails or finds no entity at all, and no page is ever blurred.
 */
module ComprehendPdf {
  import opened Common
  import opened Text
  import opened WordIndex
  import opened Resolver
  import opened Raster
  import opened Redaction
  import opened Report

  /** `os.environ.get('PII_REDACT_CONFIDENCE_SCORE')` (main.py:39): the
      variable's text when set, None otherwise; it is never parsed. */
  function EnvThreshold(env: Option<string>): (t: PyValue)
    ensures !t.PyFloat?
    ensures env.Some? <==> t.PyStr?
    ensures env.Some? ==> t.s == env.value
  {
    match env
    case Some(s) => PyStr(s)
    case None => PyNone
  }

  /** The response a page yields: `{'Entities': []}` when its words join to
      no text, otherwise what `comprehend` returns for the text. */
  function Reply(text: string, comprehend: string -> Response): Response
  {
    if text == "" then Response([], []) else comprehend(text)
  }

  /** The page raises: some entity's score is compared with a threshold that
      is not a float. */
  predicate Fails(response: Response, threshold: PyValue)
  {
    |response.entities| > 0 && !threshold.PyFloat?
  }

  /** Page `img`, which held `before`, now shows blurred the boxes of the
      qualifying entities of `response` among its OCR words; with a threshold
      that is not a float nothing was blurred. */
  ghost predicate Blurred(img: array2<int>, before: Grid, blocks: seq<Block>, response: Response,
                          threshold: PyValue, smooth: Grid -> Grid)
    reads img
  {
    if threshold.PyFloat? then
      Pixels(img) == BlurAll(before, Targets(IndexOf(WordBlocks(blocks), img.Length0, img.Length1),
                                             Qualifying(response.entities, threshold.f)), smooth)
    else
      Pixels(img) == before
  }

  /** `process_single_image` (main.py:73-144), with `comprehend` standing for
      `detect_pii_entities` and `smooth` for `GaussianBlur(radius=10)`. */
  method ProcessSingleImage(img: array2<int>, blocks: seq<Block>, comprehend: string -> Response,
                            threshold: PyValue, smooth: Grid -> Grid)
    returns (r: Result<Response, Error>)
    modifies img
    ensures r.Failure? <==> Fails(Reply(PageText(blocks), comprehend), threshold)
    ensures r.Failure? ==> r.error == CompareTypeError && Pixels(img) == old(Pixels(img))
    ensures r.Success? ==> r.value == Reply(PageText(blocks), comprehend)
    ensures r.Success? ==> Blurred(img, old(Pixels(img)), blocks, r.value, threshold, smooth)
  {
    var index, fullText := BuildIndex(blocks, img.Length0, img.Length1);
    if fullText == "" {
      return Success(Response([], []));
    }
    var response := comprehend(fullText);
    var blurred := BlurQualifying(img, index, response.entities, threshold, smooth);
    if blurred.Failure? {
      return Failure(blurred.error);
    }
    return Success(response);
  }

  /** The responses of a run's page texts, in page order. */
  function Responses(texts: seq<string>, comprehend: string -> Response): (responses: seq<Response>)
    ensures |responses| == |texts|
  {
    if |texts| == 0 then [] else Responses(texts[..|texts| - 1], comprehend) + [Reply(texts[|texts| - 1], comprehend)]
  }

  lemma {:induction false} ResponsesAt(texts: seq<string>, comprehend: string -> Response, i: nat)
    requires i < |texts|
    ensures Responses(texts, comprehend)[i] == Reply(texts[i], comprehend)
  {
    if i < |texts| - 1 {
      ResponsesAt(texts[..|texts| - 1], comprehend, i);
    }
  }

  /** The index of the first response whose page raises, or the count. */
  function FirstFailure(responses: seq<Response>, threshold: PyValue): (k: nat)
    ensures k <= |responses|
    ensures forall i :: 0 <= i < k ==> !Fails(responses[i], threshold)
    ensures k < |responses| ==> Fails(responses[k], threshold)
  {
    if |responses| == 0 then 0
    else if Fails(responses[0], threshold) then 0
    else 1 + FirstFailure(responses[1..], threshold)
  }

  /** One more page of a run in which no page has raised yet: a page that
      raises is the first one, and any other extends the responses by its
      own. */
  lemma ResponsesStep(texts: seq<string>, comprehend: string -> Response, threshold: PyValue,
                      results: seq<Response>, i: nat)
    requires i < |texts|
    requires i <= FirstFailure(Responses(texts, comprehend), threshold)
    requires results == Responses(texts, comprehend)[..i]
    ensures Fails(Reply(texts[i], comprehend), threshold) ==> i == FirstFailure(Responses(texts, comprehend), threshold)
    ensures !Fails(Reply(texts[i], comprehend), threshold) ==>
              && i < FirstFailure(Responses(texts, comprehend), threshold)
              && results + [Reply(texts[i], comprehend)] == Responses(texts, comprehend)[..i + 1]
  {
    ResponsesAt(texts, comprehend, i);
    PrefixSnoc(Responses(texts, comprehend), i);
  }

  /** The first `i` pages, which held `before`, are blurred where their
      responses `results` say; the others still hold `before`. */
  ghost predicate BlurredUpTo(pages: seq<array2<int>>, before: seq<Grid>, ocr: seq<seq<Block>>,
                              results: seq<Response>, threshold: PyValue, smooth: Grid -> Grid, i: nat)
    reads set j | 0 <= j < |pages| :: pages[j]
  {
    && |before| == |pages| == |ocr|
    && |results| == i <= |pages|
    && (forall j {:trigger Blurred(pages[j], before[j], ocr[j], results[j], threshold, smooth)} ::
          0 <= j < i ==> Blurred(pages[j], before[j], ocr[j], results[j], threshold, smooth))
    && (forall j :: i <= j < |pages| ==> Pixels(pages[j]) == before[j])
  }

  /** One pass of the page loop of `process_pdf` (main.py:195-199): page `i`
      is processed; a page that raises leaves every page as it was, and any
      other is blurred where its response says. */
  method ProcessPageAt(pages: seq<array2<int>>, ocr: seq<seq<Block>>, comprehend: string -> Response,
                       threshold: PyValue, smooth: Grid -> Grid, i: nat,
                       ghost before: seq<Grid>, ghost results: seq<Response>)
    returns (r: Result<Response, Error>)
    requires forall a, b :: 0 <= a < b < |pages| ==> pages[a] != pages[b]
    requires i < |pages|
    requires BlurredUpTo(pages, before, ocr, results, threshold, smooth, i)
    modifies pages[i]
    ensures r.Failure? <==> Fails(Reply(PageTexts(ocr)[i], comprehend), threshold)
    ensures r.Failure? ==> BlurredUpTo(pages, before, ocr, results, threshold, smooth, i)
    ensures r.Success? ==>
              && r.value == Reply(PageTexts(ocr)[i], comprehend)
              && BlurredUpTo(pages, before, ocr, results + [r.value], threshold, smooth, i + 1)
  {
    r := ProcessSingleImage(pages[i], ocr[i], comprehend, threshold, smooth);
    PageTextsAt(ocr, i);
  }

  /** The page loop of `process_pdf` (main.py:195-199): it stops with
      `failed` at the first page that raises, leaving that page and the later
      ones as they were. The pages before it are blurred and give one
      response each, in page order. Each page is changed in place, so
      `processed_images` holds the input pages themselves. */
  method ProcessPages(pages: seq<array2<int>>, ocr: seq<seq<Block>>, comprehend: string -> Response,
                      threshold: PyValue, smooth: Grid -> Grid)
    returns (results: seq<Response>, failed: bool)
    requires |ocr| == |pages|
    requires forall i, j :: 0 <= i < j < |pages| ==> pages[i] != pages[j]
    modifies pages
    ensures failed <==> FirstFailure(Responses(PageTexts(ocr), comprehend), threshold) < |pages|
    ensures results == Responses(PageTexts(ocr), comprehend)[..FirstFailure(Responses(PageTexts(ocr), comprehend), threshold)]
    ensures BlurredUpTo(pages, old(Snapshot(pages)), ocr, results, threshold, smooth, |results|)
  {
    ghost var before := Snapshot(pages);
    results := [];
    failed := false;
    var i := 0;
    while i < |pages|
      invariant i <= FirstFailure(Responses(PageTexts(ocr), comprehend), threshold)
      invariant results == Responses(PageTexts(ocr), comprehend)[..i]
      invariant BlurredUpTo(pages, before, ocr, results, threshold, smooth, i)
    {
      var page := ProcessPageAt(pages, ocr, comprehend, threshold, smooth, i, before, results);
      ResponsesStep(PageTexts(ocr), comprehend, threshold, results, i);
      if page.Failure? {
        failed := true;
        break;
      }
      results := results + [page.value];
      i := i + 1;
    }
  }

  /** `process_pdf` (main.py:179-199) up to reassembly: no pages raises; a
      page that raises ends the run; otherwise the responses come one per
      page, in page order. */
  method ProcessPdf(pages: seq<array2<int>>, ocr: seq<seq<Block>>, comprehend: string -> Response,
                    threshold: PyValue, smooth: Grid -> Grid)
    returns (r: Result<seq<Response>, Error>)
    requires |ocr| == |pages|
    requires forall i, j :: 0 <= i < j < |pages| ==> pages[i] != pages[j]
    modifies pages
    ensures |pages| == 0 ==> r == Failure(NoImagesExtracted)
    ensures |pages| > 0 && FirstFailure(Responses(PageTexts(ocr), comprehend), threshold) < |pages| ==>
              r == Failure(CompareTypeError)
    ensures |pages| > 0 && FirstFailure(Responses(PageTexts(ocr), comprehend), threshold) == |pages| ==>
              r == Success(Responses(PageTexts(ocr), comprehend))
    ensures BlurredUpTo(pages, old(Snapshot(pages)), ocr,
                        Responses(PageTexts(ocr), comprehend)[..FirstFailure(Responses(PageTexts(ocr), comprehend), threshold)],
                        threshold, smooth, FirstFailure(Responses(PageTexts(ocr), comprehend), threshold))
  {
    if |pages| == 0 {
      return Failure(NoImagesExtracted);
    }
    var results, failed := ProcessPages(pages, ocr, comprehend, threshold, smooth);
    if failed {
      return Failure(CompareTypeError);
    }
    assert Responses(PageTexts(ocr), comprehend)[..|pages|] == Responses(PageTexts(ocr), comprehend);
    return Success(results);
  }

  /** The notification test of `lambda_handler` (main.py:266-270); the JSON
      round trip hands back an equal list. */
  function Notify(responses: seq<Response>): bool
  {
    HasSsn(ResponsesRepr(responses))
  }

  /** Some page's response mentions "SSN" in its metadata. */
  ghost predicate MetadataMentions(responses: seq<Response>)
  {
    exists p, m :: 0 <= p < |responses| && 0 <= m < |responses[p].metadata| && HasSsn(responses[p].metadata[m])
  }

  /** When no response holds an entity, the rendered list mentions "SSN"
      only through some response's metadata. */
  lemma NotifyWithoutEntities(responses: seq<Response>)
    requires forall p :: 0 <= p < |responses| ==> |responses[p].entities| == 0
    ensures Notify(responses) <==> MetadataMentions(responses)
  {
    ResponsesHasSsn(responses);
    if Notify(responses) {
      var p :| 0 <= p < |responses| && Mentions(responses[p]);
      assert !SomeKind(responses[p].entities);
    }
    if MetadataMentions(responses) {
      var p, m :| 0 <= p < |responses| && 0 <= m < |responses[p].metadata| && HasSsn(responses[p].metadata[m]);
      assert Mentions(responses[p]);
    }
  }

  /** The page work of `lambda_handler` (main.py:229-270) with the threshold
      from the environment: the run succeeds exactly when there are pages
      and none of them yields an entity; no page is changed; a notification
      goes out only from a successful run whose metadata mentions "SSN". */
  method Handle(pages: seq<array2<int>>, ocr: seq<seq<Block>>, comprehend: string -> Response,
                env: Option<string>, smooth: Grid -> Grid)
    returns (r: Result<seq<Response>, Error>, notify: bool)
    requires |ocr| == |pages|
    requires forall i, j :: 0 <= i < j < |pages| ==> pages[i] != pages[j]
    modifies pages
    ensures r.Success? <==>
              |pages| > 0 && forall i :: 0 <= i < |ocr| ==> |Reply(PageText(ocr[i]), comprehend).entities| == 0
    ensures r.Success? ==> r.value == Responses(PageTexts(ocr), comprehend)
    ensures forall i :: 0 <= i < |pages| ==> Pixels(pages[i]) == old(Pixels(pages[i]))
    ensures notify <==> r.Success? && MetadataMentions(r.value)
  {
    ghost var before := Snapshot(pages);
    var threshold := EnvThreshold(env);
    r := ProcessPdf(pages, ocr, comprehend, threshold, smooth);
    ghost var responses := Responses(PageTexts(ocr), comprehend);
    ghost var k := FirstFailure(responses, threshold);
    forall i | 0 <= i < |ocr|
      ensures responses[i] == Reply(PageText(ocr[i]), comprehend)
    {
      PageTextsAt(ocr, i);
      ResponsesAt(PageTexts(ocr), comprehend, i);
    }
    notify := false;
    if r.Success? {
      NotifyWithoutEntities(responses);
      notify := Notify(r.value);
    }
    forall i | 0 <= i < |pages|
      ensures Pixels(pages[i]) == before[i]
    {
      if i < k {
        assert Blurred(pages[i], before[i], ocr[i], responses[..k][i], threshold, smooth);
      }
    }
  }
}
