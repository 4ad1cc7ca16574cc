/**
 * The `word_to_geometry` index and the page text, as every script builds
 * them from the OCR response: one loop over the blocks that keeps WORD
 * blocks, records each under the running counter, scales its box to pixels
 * and appends its text to the list that is joined with ' '.
 */
module WordIndex {
  import opened Text

  /** Textract's `Geometry.BoundingBox`: fractions of the page size. */
  datatype NormBox = NormBox(left: real, top: real, width: real, height: real)

  /** One entry of `textract_response['Blocks']`; only its `BlockType`,
      `Text` and bounding box are read. */
  datatype Block = Block(blockType: string, text: string, box: NormBox)

  /** The `geometry` dict stored per word: the box in pixels. */
  datatype Geometry = Geometry(left: real, top: real, width: real, height: real)

  /** One item of `word_to_geometry`: its key and its `text` and `geometry`.
      Python dicts iterate in insertion order, so the index is a sequence. */
  datatype IndexEntry = IndexEntry(start: nat, text: string, geometry: Geometry)

  /** The scaling by `image.width` and `image.height`. */
  function Scale(b: NormBox, width: nat, height: nat): Geometry
  {
    Geometry(b.left * width as real, b.top * height as real,
             b.width * width as real, b.height * height as real)
  }

  /** The blocks the loop keeps: those whose `BlockType` is 'WORD', in
      response order. */
  function WordBlocks(blocks: seq<Block>): seq<Block>
  {
    if |blocks| == 0 then []
    else
      var last := blocks[|blocks| - 1];
      WordBlocks(blocks[..|blocks| - 1]) + (if last.blockType == "WORD" then [last] else [])
  }

  /** Non-WORD blocks are ignored and every WORD block is kept. */
  lemma {:induction false} WordBlocksMembers(blocks: seq<Block>)
    ensures |WordBlocks(blocks)| <= |blocks|
    ensures forall b :: b in WordBlocks(blocks) <==> b in blocks && b.blockType == "WORD"
  {
    if |blocks| > 0 {
      var init := blocks[..|blocks| - 1];
      WordBlocksMembers(init);
      assert blocks == init + [blocks[|blocks| - 1]];
    }
  }

  function Texts(words: seq<Block>): (texts: seq<string>)
    ensures |texts| == |words|
  {
    if |words| == 0 then []
    else Texts(words[..|words| - 1]) + [words[|words| - 1].text]
  }

  /** `full_text` after `' '.join(...)`. */
  function PageText(blocks: seq<Block>): string
  {
    Join(Texts(WordBlocks(blocks)))
  }

  /** The page texts of a run, one per OCR response, in page order. */
  function PageTexts(ocr: seq<seq<Block>>): (texts: seq<string>)
    ensures |texts| == |ocr|
  {
    if |ocr| == 0 then [] else PageTexts(ocr[..|ocr| - 1]) + [PageText(ocr[|ocr| - 1])]
  }

  lemma {:induction false} PageTextsAt(ocr: seq<seq<Block>>, i: nat)
    requires i < |ocr|
    ensures PageTexts(ocr)[i] == PageText(ocr[i])
  {
    if i < |ocr| - 1 {
      PageTextsAt(ocr[..|ocr| - 1], i);
    }
  }

  /** The index the loop builds over the given WORD blocks. */
  function IndexOf(words: seq<Block>, width: nat, height: nat): (index: seq<IndexEntry>)
    ensures |index| == |words|
  {
    if |words| == 0 then []
    else
      var init := words[..|words| - 1];
      var last := words[|words| - 1];
      IndexOf(init, width, height) +
      [IndexEntry(Offset(Texts(init), |init|), last.text, Scale(last.box, width, height))]
  }

  /** How an index lies over its page text: the first word at 0, each word's
      text found at its key, consecutive words one ' ' apart, the last word
      ending the text; no words means empty text. */
  ghost predicate Tiles(index: seq<IndexEntry>, text: string)
  {
    && (|index| == 0 ==> text == "")
    && (|index| > 0 ==>
          index[0].start == 0 &&
          index[|index| - 1].start + |index[|index| - 1].text| == |text|)
    && (forall i :: 0 <= i < |index| ==> WordAt(index, text, i))
    && (forall i :: 0 <= i < |index| - 1 ==> Adjacent(index, text, i))
  }

  /** Word `i`'s text is found in the page text at its key. */
  ghost predicate WordAt(index: seq<IndexEntry>, text: string, i: nat)
    requires i < |index|
  {
    && index[i].start + |index[i].text| <= |text|
    && text[index[i].start..index[i].start + |index[i].text|] == index[i].text
  }

  /** Word `i + 1` starts one ' ' after word `i` ends. */
  ghost predicate Adjacent(index: seq<IndexEntry>, text: string, i: nat)
    requires i + 1 < |index|
  {
    && index[i + 1].start == index[i].start + |index[i].text| + 1
    && index[i].start + |index[i].text| < |text|
    && text[index[i].start + |index[i].text|] == ' '
  }

  /** The counter-driven loop of `process_single_image` / `process_image`. */
  method BuildIndex(blocks: seq<Block>, width: nat, height: nat)
    returns (index: seq<IndexEntry>, fullText: string)
    ensures index == IndexOf(WordBlocks(blocks), width, height)
    ensures fullText == PageText(blocks)
    ensures |index| == |WordBlocks(blocks)|
    ensures Tiles(index, fullText)
  {
    index := [];
    var parts: seq<string> := [];
    var start: nat := 0;
    for k := 0 to |blocks|
      invariant parts == Texts(WordBlocks(blocks[..k]))
      invariant index == IndexOf(WordBlocks(blocks[..k]), width, height)
      invariant start == Offset(parts, |parts|)
    {
      var block := blocks[k];
      ghost var words := WordBlocks(blocks[..k]);
      assert blocks[..k + 1][..k] == blocks[..k];
      if block.blockType == "WORD" {
        assert WordBlocks(blocks[..k + 1]) == words + [block];
        assert (words + [block])[..|words|] == words;
        assert Texts(words + [block]) == parts + [block.text];
        OffsetOfPrefix(parts + [block.text], |parts|, |parts|);
        assert (parts + [block.text])[..|parts|] == parts;
        index := index + [IndexEntry(start, block.text, Scale(block.box, width, height))];
        parts := parts + [block.text];
        start := start + |block.text| + 1;
      } else {
        assert WordBlocks(blocks[..k + 1]) == words;
      }
    }
    assert blocks[..|blocks|] == blocks;
    fullText := Join(parts);
    IndexTiles(WordBlocks(blocks), width, height);
  }

  lemma {:induction false} TextsAt(words: seq<Block>, i: nat)
    requires i < |words|
    ensures Texts(words)[i] == words[i].text
  {
    if i < |words| - 1 {
      TextsAt(words[..|words| - 1], i);
    }
  }

  lemma {:induction false} IndexOfAt(words: seq<Block>, width: nat, height: nat, i: nat)
    requires i < |words|
    ensures IndexOf(words, width, height)[i] ==
            IndexEntry(Offset(Texts(words), i), words[i].text, Scale(words[i].box, width, height))
  {
    var n := |words|;
    var init := words[..n - 1];
    assert Texts(words)[..n - 1] == Texts(init);
    OffsetOfPrefix(Texts(words), n - 1, i);
    if i < n - 1 {
      IndexOfAt(init, width, height, i);
    }
  }

  /** The index and the text built by the loop tile each other. */
  lemma IndexTiles(words: seq<Block>, width: nat, height: nat)
    ensures Tiles(IndexOf(words, width, height), Join(Texts(words)))
  {
    var index := IndexOf(words, width, height);
    var ts := Texts(words);
    forall i | 0 <= i < |index|
      ensures index[i].start == Offset(ts, i) && index[i].text == ts[i]
    {
      IndexOfAt(words, width, height, i);
      TextsAt(words, i);
    }
    OffsetsTile(index, ts);
  }

  /** Any index whose keys are the counter values of its texts tiles their
      join. */
  lemma OffsetsTile(index: seq<IndexEntry>, texts: seq<string>)
    requires |index| == |texts|
    requires forall i :: 0 <= i < |index| ==> index[i].start == Offset(texts, i) && index[i].text == texts[i]
    ensures Tiles(index, Join(texts))
  {
    var text := Join(texts);
    JoinLength(texts);
    forall i | 0 <= i < |index|
      ensures WordAt(index, text, i)
    {
      WordAtOffset(index, texts, i);
    }
    forall i | 0 <= i < |index| - 1
      ensures Adjacent(index, text, i)
    {
      AdjacentAtOffset(index, texts, i);
    }
  }

  lemma WordAtOffset(index: seq<IndexEntry>, texts: seq<string>, i: nat)
    requires i < |index| == |texts|
    requires index[i].start == Offset(texts, i) && index[i].text == texts[i]
    ensures WordAt(index, Join(texts), i)
  {
    JoinWordAt(texts, i);
  }

  lemma AdjacentAtOffset(index: seq<IndexEntry>, texts: seq<string>, i: nat)
    requires i + 1 < |index| == |texts|
    requires index[i].start == Offset(texts, i) && index[i].text == texts[i]
    requires index[i + 1].start == Offset(texts, i + 1)
    ensures Adjacent(index, Join(texts), i)
  {
    JoinWordAt(texts, i);
  }

  /** Keys strictly increase along the index and word intervals are
      disjoint: so every WORD block gets its own key and the dict has exactly
      one entry per WORD block. */
  lemma {:induction false} KeysIncreasing(index: seq<IndexEntry>, text: string, i: nat, j: nat)
    requires Tiles(index, text)
    requires i < j < |index|
    ensures index[i].start + |index[i].text| < index[j].start
  {
    if j > i + 1 {
      KeysIncreasing(index, text, i, j - 1);
    }
    assert Adjacent(index, text, j - 1);
  }
}
