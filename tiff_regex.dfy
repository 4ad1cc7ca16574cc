/**
 * main_tiff_re.py: a single TIFF image is read by OCR, its SSNs found with
 * the pattern of line 40 and the words holding their begin offsets painted
 * black; a notification goes out when the record list is not empty.
 */
module TiffRegex {
  import opened Common
  import opened Text
  import opened WordIndex
  import opened Resolver
  import opened Raster
  import opened SsnDetector
  import opened Redaction

  /** `detect_ssn` with the pattern of main_tiff_re.py:40. */
  function Detect(text: string): seq<Entity>
  {
    DetectSsn(TiffPattern, text)
  }

  /** The three ways `process_image` returns: the OCR response had no
      `Blocks` (missing or empty), its WORD blocks joined to no text, or the
      text was scanned and gave `entities`. */
  datatype ImageOutcome = NoBlocks | NoText | Scanned(entities: seq<Entity>)

  /** The `Entities` list of the returned PII response. */
  function Records(o: ImageOutcome): seq<Entity>
  {
    if o.Scanned? then o.entities else []
  }

  /** `textract_response.get('Blocks')` is truthy: present and not empty. */
  predicate HasBlocks(blocks: Option<seq<Block>>)
  {
    blocks.Some? && |blocks.value| > 0
  }

  /** `process_image` (main_tiff_re.py:59-150) on the decoded image `img`,
      with `blocks` the OCR response's `Blocks`, `None` when it has none.
      The image is painted only on the scanning path. */
  method ProcessImage(img: array2<int>, blocks: Option<seq<Block>>) returns (o: ImageOutcome)
    modifies img
    ensures o.NoBlocks? <==> !HasBlocks(blocks)
    ensures o.NoText? <==> HasBlocks(blocks) && PageText(blocks.value) == ""
    ensures o.Scanned? ==> o.entities == Detect(PageText(blocks.value))
    ensures !o.Scanned? ==> unchanged(img)
    ensures o.Scanned? ==>
              Pixels(img) == FillAll(old(Pixels(img)),
                                     Targets(IndexOf(WordBlocks(blocks.value), img.Length0, img.Length1), o.entities))
  {
    if !HasBlocks(blocks) {
      return NoBlocks;
    }
    var index, fullText := BuildIndex(blocks.value, img.Length0, img.Length1);
    if fullText == "" {
      return NoText;
    }
    var entities := Detect(fullText);
    RedactEntities(img, index, entities);
    return Scanned(entities);
  }

  /** The notification test of `lambda_handler` (main_tiff_re.py:213-214). */
  predicate Notify(o: ImageOutcome)
  {
    |Records(o)| > 0
  }

  /** The page work of `lambda_handler` (main_tiff_re.py:170-214): process
      the image and notify exactly when the OCR response has blocks, their
      words make a text, and the pattern matches somewhere in it. */
  method Handle(img: array2<int>, blocks: Option<seq<Block>>) returns (o: ImageOutcome, notify: bool)
    modifies img
    ensures notify <==>
              HasBlocks(blocks) && PageText(blocks.value) != "" &&
              exists i: nat :: i <= |PageText(blocks.value)| && MatchAt(TiffPattern, PageText(blocks.value), i).Some?
    ensures o.NoBlocks? <==> !HasBlocks(blocks)
    ensures !o.Scanned? ==> unchanged(img)
    ensures o.Scanned? ==>
              HasBlocks(blocks) &&
              o.entities == Detect(PageText(blocks.value)) &&
              Pixels(img) == FillAll(old(Pixels(img)),
                                     Targets(IndexOf(WordBlocks(blocks.value), img.Length0, img.Length1), o.entities))
  {
    o := ProcessImage(img, blocks);
    notify := Notify(o);
    if o.Scanned? {
      SomeRecordIffMatch(TiffPattern, PageText(blocks.value));
    }
  }

  /** The OCR blocks of an image reading "SSN 123-45-6789". */
  function LabelledImage(labelBox: NormBox, numberBox: NormBox): seq<Block>
  {
    [Block("WORD", "SSN", labelBox), Block("WORD", "123-45-6789", numberBox)]
  }

  lemma LabelledImageText(labelBox: NormBox, numberBox: NormBox)
    ensures WordBlocks(LabelledImage(labelBox, numberBox)) == LabelledImage(labelBox, numberBox)
    ensures PageText(LabelledImage(labelBox, numberBox)) == "SSN 123-45-6789"
  {
    var blocks := LabelledImage(labelBox, numberBox);
    assert blocks[..1] == [blocks[0]];
    assert WordBlocks(blocks[..1]) == [blocks[0]];
    assert WordBlocks(blocks) == blocks;
    assert Texts(blocks[..1]) == ["SSN"];
    var texts := Texts(blocks);
    assert texts == ["SSN", "123-45-6789"];
    assert texts[..1] == ["SSN"];
    assert Join(texts) == Join(texts[..1]) + " " + texts[1];
  }

  /** On that image the match begins at the space after "SSN", which no
      word holds: the record is reported, so a notification goes out, yet
      nothing is painted. */
  lemma LabelledNumberUnpainted(labelBox: NormBox, numberBox: NormBox, width: nat, height: nat)
    ensures var blocks := LabelledImage(labelBox, numberBox);
            && |Detect(PageText(blocks))| == 1
            && Targets(IndexOf(WordBlocks(blocks), width, height), Detect(PageText(blocks))) == []
  {
    var blocks := LabelledImage(labelBox, numberBox);
    LabelledImageText(labelBox, numberBox);
    TiffAfterWord();
    var index := IndexOf(blocks, width, height);
    IndexOfAt(blocks, width, height, 0);
    IndexTiles(blocks, width, height);
    ResolveNothing(index, "SSN 123-45-6789", 3);
    assert AtSeparator(index, 3);
    var e := [Entity(3, 15, 1.0, "SSN")];
    assert e[..0] == [];
    assert Targets(index, e) == Boxes([]);
  }
}
