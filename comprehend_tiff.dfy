/**
 * main_tiff_v2.py: a single TIFF image is read by OCR, its whole text handed
 * to Comprehend's PII detection, and the words holding the begin offsets of
 * SSN entities scored above the configured threshold blurred; a
 * notification goes out when the rendered response mentions "SSN".
 *
 * Unlike main.py the threshold is parsed as a float, so the comparison never
 * raises, and there is no guard for a page without text: the detector is
 * consulted with the empty string too.
 */
module ComprehendTiff {
  import opened Common
  import opened WordIndex
  import opened Resolver
  import opened Raster
  import opened Redaction
  import opened Report

  /** The threshold used when `PII_REDACT_CONFIDENCE_SCORE` is not set. */
  const DefaultThreshold: real := 0.8

  /** `float(os.environ.get('PII_REDACT_CONFIDENCE_SCORE', 0.8))`
      (main_tiff_v2.py:29), with `env` the variable's value as a number when
      it is set. */
  function ConfiguredThreshold(env: Option<real>): (t: real)
    ensures env.None? ==> t == DefaultThreshold
    ensures env.Some? ==> t == env.value
  {
    match env
    case Some(v) => v
    case None => DefaultThreshold
  }

  /** `process_image` (main_tiff_v2.py:41-124) on the decoded image `img`,
      with `blocks` the OCR response's `Blocks`, `comprehend` standing for
      `detect_pii_entities` and `smooth` for `GaussianBlur(radius=3)`. The
      response comes back whole, whatever the threshold kept, and the image
      shows the boxes of the qualifying entities' words blurred in turn. */
  method ProcessImage(img: array2<int>, blocks: seq<Block>, comprehend: string -> Response,
                      threshold: real, smooth: Grid -> Grid)
    returns (response: Response)
    modifies img
    ensures response == comprehend(PageText(blocks))
    ensures Pixels(img) ==
              BlurAll(old(Pixels(img)),
                      Targets(IndexOf(WordBlocks(blocks), img.Length0, img.Length1),
                              Qualifying(response.entities, threshold)),
                      smooth)
  {
    var index, fullText := BuildIndex(blocks, img.Length0, img.Length1);
    response := comprehend(fullText);
    var blurred := BlurQualifying(img, index, response.entities, PyFloat(threshold), smooth);
  }

  /** The notification test of `lambda_handler` (main_tiff_v2.py:179-183):
      "SSN" occurs in the rendered response. */
  predicate Notify(response: Response)
  {
    HasSsn(ResponseRepr(response))
  }

  /** The page work of `lambda_handler` (main_tiff_v2.py:137-187): process
      the image with the configured threshold and notify exactly when some
      entity type or some metadata value of the response mentions "SSN". */
  method Handle(img: array2<int>, blocks: seq<Block>, comprehend: string -> Response,
                env: Option<real>, smooth: Grid -> Grid)
    returns (response: Response, notify: bool)
    modifies img
    ensures response == comprehend(PageText(blocks))
    ensures notify <==> Mentions(response)
    ensures Pixels(img) ==
              BlurAll(old(Pixels(img)),
                      Targets(IndexOf(WordBlocks(blocks), img.Length0, img.Length1),
                              Qualifying(response.entities, ConfiguredThreshold(env))),
                      smooth)
  {
    var threshold := ConfiguredThreshold(env);
    response := ProcessImage(img, blocks, comprehend, threshold, smooth);
    notify := Notify(response);
    ResponseHasSsn(response);
  }

  /** An SSN entity scored at or below the threshold is not blurred, yet it
      still makes the rendered response mention "SSN", so the notification
      goes out for it. */
  lemma LowScoreStillNotifies(response: Response, threshold: real, k: nat)
    requires k < |response.entities|
    requires response.entities[k].kind == "SSN" && response.entities[k].score <= threshold
    ensures response.entities[k] !in Qualifying(response.entities, threshold)
    ensures Notify(response)
  {
    QualifyingMembers(response.entities, threshold);
    assert HasSsn(response.entities[k].kind) by {
      assert response.entities[k].kind[0..3] == "SSN";
    }
    ResponseHasSsn(response);
  }

  /** With no qualifying entity the image is left as it was, whatever else
      the response holds. */
  lemma NothingQualifyingNothingBlurred(g: Grid, index: seq<IndexEntry>, entities: seq<Entity>,
                                        threshold: real, smooth: Grid -> Grid)
    requires forall k :: 0 <= k < |entities| ==> entities[k].score <= threshold || entities[k].kind != "SSN"
    ensures BlurAll(g, Targets(index, Qualifying(entities, threshold)), smooth) == g
  {
    NoneQualify(entities, threshold);
  }

  lemma {:induction false} NoneQualify(entities: seq<Entity>, threshold: real)
    requires forall k :: 0 <= k < |entities| ==> entities[k].score <= threshold || entities[k].kind != "SSN"
    ensures Qualifying(entities, threshold) == []
  {
    if |entities| > 0 {
      NoneQualify(entities[..|entities| - 1], threshold);
    }
  }
}
