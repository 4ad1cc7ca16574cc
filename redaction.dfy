/**
 * The per-page redaction loops: for each entity, for each item of
 * `word_to_geometry`, paint the word's box when it holds the entity's
 * `BeginOffset`. The regex scripts paint every entity black; the
 * Comprehend scripts first compare the entity's `Score` with the
 * configured threshold and check its `Type`, and blur.
 */
module Redaction {
  import opened Common
  import opened WordIndex
  import opened Resolver
  import opened Raster

  /** The inner loop for one offset: paint black every word that holds it,
      in dict order. */
  method RedactWordsAt(img: array2<int>, index: seq<IndexEntry>, offset: nat)
    modifies img
    ensures Pixels(img) == FillAll(old(Pixels(img)), Boxes(Resolve(index, offset)))
  {
    ghost var g := Pixels(img);
    assert index[..0] == [];
    for j := 0 to |index|
      invariant Pixels(img) == FillAll(g, Boxes(Resolve(index[..j], offset)))
    {
      var w := index[j];
      ghost var picked := Resolve(index[..j], offset);
      assert index[..j + 1][..j] == index[..j];
      if w.start <= offset < w.start + |w.text| {
        Fill(img, BoxOf(w.geometry));
        assert Resolve(index[..j + 1], offset) == picked + [w];
        BoxesSnoc(picked, w);
        FillAllSnoc(g, Boxes(picked), BoxOf(w.geometry));
      } else {
        assert Resolve(index[..j + 1], offset) == picked;
      }
    }
    assert index[..|index|] == index;
  }

  /** The loops of `process_single_image` (main_pdf_re.py) and
      `process_image` (main_tiff_re.py) after detection. */
  method RedactEntities(img: array2<int>, index: seq<IndexEntry>, entities: seq<Entity>)
    modifies img
    ensures Pixels(img) == FillAll(old(Pixels(img)), Targets(index, entities))
  {
    ghost var g := Pixels(img);
    for k := 0 to |entities|
      invariant Pixels(img) == FillAll(g, Targets(index, entities[..k]))
    {
      ghost var before := Targets(index, entities[..k]);
      RedactWordsAt(img, index, entities[k].beginOffset);
      FillAllAppend(g, before, Boxes(Resolve(index, entities[k].beginOffset)));
      assert entities[..k + 1][..k] == entities[..k];
    }
    assert entities[..|entities|] == entities;
  }

  /** The threshold as the script holds it: main_tiff_v2.py parses a float,
      main.py keeps the environment's string or None. */
  datatype PyValue = PyFloat(f: real) | PyStr(s: string) | PyNone

  /** `entity['Score'] > threshold`: Python compares a float with a float
      and raises TypeError against a str or None. */
  function ScoreAbove(score: real, threshold: PyValue): (r: Result<bool, Error>)
    ensures r.Failure? <==> !threshold.PyFloat?
    ensures r.Failure? ==> r.error == CompareTypeError
    ensures threshold.PyFloat? ==> r == Success(score > threshold.f)
  {
    match threshold
    case PyFloat(t) => Success(score > t)
    case _ => Failure(CompareTypeError)
  }

  /** `entity['Score'] > threshold and entity['Type'] == 'SSN'` */
  predicate Qualifies(e: Entity, threshold: real)
  {
    e.score > threshold && e.kind == "SSN"
  }

  /** The entities whose boxes the Comprehend scripts blur, in order. */
  function Qualifying(entities: seq<Entity>, threshold: real): seq<Entity>
  {
    if |entities| == 0 then []
    else
      var last := entities[|entities| - 1];
      Qualifying(entities[..|entities| - 1], threshold) + (if Qualifies(last, threshold) then [last] else [])
  }

  /** An entity is blurred exactly when it is an SSN scored above the
      threshold. */
  lemma {:induction false} QualifyingMembers(entities: seq<Entity>, threshold: real)
    ensures |Qualifying(entities, threshold)| <= |entities|
    ensures forall e :: e in Qualifying(entities, threshold) <==>
              e in entities && e.score > threshold && e.kind == "SSN"
  {
    if |entities| > 0 {
      var init := entities[..|entities| - 1];
      QualifyingMembers(init, threshold);
      assert entities == init + [entities[|entities| - 1]];
    }
  }

  /** The inner loop for one offset: blur every word that holds it, in
      dict order. */
  method BlurWordsAt(img: array2<int>, index: seq<IndexEntry>, offset: nat, smooth: Grid -> Grid)
    modifies img
    ensures Pixels(img) == BlurAll(old(Pixels(img)), Boxes(Resolve(index, offset)), smooth)
  {
    ghost var g := Pixels(img);
    assert index[..0] == [];
    for j := 0 to |index|
      invariant Pixels(img) == BlurAll(g, Boxes(Resolve(index[..j], offset)), smooth)
    {
      var w := index[j];
      ghost var picked := Resolve(index[..j], offset);
      assert index[..j + 1][..j] == index[..j];
      if w.start <= offset < w.start + |w.text| {
        Blur(img, BoxOf(w.geometry), smooth);
        assert Resolve(index[..j + 1], offset) == picked + [w];
        BoxesSnoc(picked, w);
        BlurAllSnoc(g, Boxes(picked), BoxOf(w.geometry), smooth);
      } else {
        assert Resolve(index[..j + 1], offset) == picked;
      }
    }
    assert index[..|index|] == index;
  }

  /** The loops of `process_single_image` (main.py) and `process_image`
      (main_tiff_v2.py) after detection. The comparison comes first, so a
      threshold that is not a float raises on the first entity, before
      anything is blurred. */
  method BlurQualifying(img: array2<int>, index: seq<IndexEntry>, entities: seq<Entity>,
                        threshold: PyValue, smooth: Grid -> Grid)
    returns (r: Result<(), Error>)
    modifies img
    ensures r.Failure? <==> |entities| > 0 && !threshold.PyFloat?
    ensures r.Failure? ==> r.error == CompareTypeError && Pixels(img) == old(Pixels(img))
    ensures r.Success? && !threshold.PyFloat? ==> Pixels(img) == old(Pixels(img))
    ensures threshold.PyFloat? ==>
              Pixels(img) == BlurAll(old(Pixels(img)), Targets(index, Qualifying(entities, threshold.f)), smooth)
  {
    ghost var g := Pixels(img);
    for k := 0 to |entities|
      invariant !threshold.PyFloat? ==> k == 0 && Pixels(img) == g
      invariant threshold.PyFloat? ==>
                  Pixels(img) == BlurAll(g, Targets(index, Qualifying(entities[..k], threshold.f)), smooth)
    {
      var e := entities[k];
      var above := ScoreAbove(e.score, threshold);
      if above.Failure? {
        return Failure(above.error);
      }
      ghost var t := threshold.f;
      ghost var done := Qualifying(entities[..k], t);
      assert entities[..k + 1][..k] == entities[..k];
      if above.value && e.kind == "SSN" {
        BlurWordsAt(img, index, e.beginOffset, smooth);
        BlurAllAppend(g, Targets(index, done), Boxes(Resolve(index, e.beginOffset)), smooth);
        assert (done + [e])[..|done|] == done;
        assert Qualifying(entities[..k + 1], t) == done + [e];
      } else {
        assert Qualifying(entities[..k + 1], t) == done;
      }
    }
    assert entities[..|entities|] == entities;
    return Success(());
  }
}
