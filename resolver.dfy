/**
 * The span resolver every script runs after detection: for each entity, the
 * inner loop over `word_to_geometry.items()` picks every word whose interval
 * `[start, start + len(text))` holds the entity's `BeginOffset`, and passes
 * that word's box, as `(x1, y1, x2, y2)`, to the region painter.
 * `EndOffset` is never read.
 */
module Resolver {
  import opened Common
  import opened WordIndex

  /** The tuple `(x1, y1, x2, y2)` handed to `redact_region` / `blur_region`. */
  datatype BBox = BBox(x1: real, y1: real, x2: real, y2: real)

  /** `x1 = left`, `y1 = top`, `x2 = x1 + width`, `y2 = y1 + height`. */
  function BoxOf(g: Geometry): (b: BBox)
    ensures b.x1 == g.left && b.y1 == g.top
    ensures b.x2 - b.x1 == g.width && b.y2 - b.y1 == g.height
  {
    BBox(g.left, g.top, g.left + g.width, g.top + g.height)
  }

  /** `start_index <= begin_offset < word_end_index` */
  predicate Covers(w: IndexEntry, offset: nat)
  {
    w.start <= offset < w.start + |w.text|
  }

  /** The words the inner loop picks for one offset, in dict order. */
  function Resolve(index: seq<IndexEntry>, offset: nat): seq<IndexEntry>
  {
    if |index| == 0 then []
    else
      var last := index[|index| - 1];
      Resolve(index[..|index| - 1], offset) + (if Covers(last, offset) then [last] else [])
  }

  /** The boxes drawn for a list of picked words, in order. */
  function Boxes(words: seq<IndexEntry>): (boxes: seq<BBox>)
    ensures |boxes| == |words|
  {
    if |words| == 0 then []
    else Boxes(words[..|words| - 1]) + [BoxOf(words[|words| - 1].geometry)]
  }

  lemma BoxesSnoc(words: seq<IndexEntry>, w: IndexEntry)
    ensures Boxes(words + [w]) == Boxes(words) + [BoxOf(w.geometry)]
  {
    assert (words + [w])[..|words|] == words;
  }

  /** Every box drawn for a list of entities, in the order the two loops
      draw them. */
  function Targets(index: seq<IndexEntry>, entities: seq<Entity>): seq<BBox>
  {
    if |entities| == 0 then []
    else
      Targets(index, entities[..|entities| - 1])
      + Boxes(Resolve(index, entities[|entities| - 1].beginOffset))
  }

  /** A word is picked exactly when it holds the offset. */
  lemma {:induction false} ResolveMembers(index: seq<IndexEntry>, offset: nat)
    ensures forall w :: w in Resolve(index, offset) <==> w in index && Covers(w, offset)
  {
    if |index| > 0 {
      var init := index[..|index| - 1];
      ResolveMembers(init, offset);
      assert index == init + [index[|index| - 1]];
    }
  }

  /** An offset that no word holds picks nothing. */
  lemma {:induction false} ResolveNone(index: seq<IndexEntry>, offset: nat)
    requires forall i :: 0 <= i < |index| ==> !Covers(index[i], offset)
    ensures Resolve(index, offset) == []
  {
    if |index| > 0 {
      ResolveNone(index[..|index| - 1], offset);
    }
  }

  /** Word intervals are disjoint and come in key order. */
  ghost predicate Disjoint(index: seq<IndexEntry>)
  {
    forall i, j :: 0 <= i < j < |index| ==> index[i].start + |index[i].text| < index[j].start
  }

  lemma TilesDisjoint(index: seq<IndexEntry>, text: string)
    requires Tiles(index, text)
    ensures Disjoint(index)
  {
    forall i, j | 0 <= i < j < |index|
      ensures index[i].start + |index[i].text| < index[j].start
    {
      KeysIncreasing(index, text, i, j);
    }
  }

  /** Over disjoint intervals an offset picks at most one word. */
  lemma {:induction false} ResolveAtMostOne(index: seq<IndexEntry>, offset: nat)
    requires Disjoint(index)
    ensures |Resolve(index, offset)| <= 1
  {
    if |index| > 0 {
      var n := |index|;
      var init := index[..n - 1];
      assert Disjoint(init);
      ResolveAtMostOne(init, offset);
      if Covers(index[n - 1], offset) {
        forall i | 0 <= i < |init|
          ensures !Covers(init[i], offset)
        {
          assert init[i] == index[i];
        }
        ResolveNone(init, offset);
      }
    }
  }

  /** On a page index, the word that holds the offset is the only one
      picked. */
  lemma ResolveWord(index: seq<IndexEntry>, text: string, offset: nat, i: nat)
    requires Tiles(index, text)
    requires i < |index| && Covers(index[i], offset)
    ensures Resolve(index, offset) == [index[i]]
  {
    TilesDisjoint(index, text);
    ResolveAtMostOne(index, offset);
    ResolveMembers(index, offset);
    assert index[i] in Resolve(index, offset);
  }

  /** `offset` is the position of the ' ' between word `i` and word `i + 1`. */
  ghost predicate AtSeparator(index: seq<IndexEntry>, offset: nat)
  {
    exists i :: 0 <= i < |index| - 1 && offset == index[i].start + |index[i].text|
  }

  /** On a page index an offset picks no word exactly when it is past the
      text or on a separator; inside the text such an offset holds ' '. */
  lemma ResolveNothing(index: seq<IndexEntry>, text: string, offset: nat)
    requires Tiles(index, text)
    ensures Resolve(index, offset) == [] <==> offset >= |text| || AtSeparator(index, offset)
    ensures Resolve(index, offset) == [] && offset < |text| ==> text[offset] == ' '
  {
    if offset < |text| && Resolve(index, offset) == [] {
      NothingInsideIsSeparator(index, text, offset);
    }
    if AtSeparator(index, offset) {
      SeparatorResolvesNothing(index, text, offset);
    }
    if offset >= |text| {
      PastTextResolvesNothing(index, text, offset);
    }
  }

  /** An offset inside the text that picks no word is the end of a word that
      is not the last, so the character there is the separator. */
  lemma NothingInsideIsSeparator(index: seq<IndexEntry>, text: string, offset: nat)
    requires Tiles(index, text)
    requires offset < |text| && Resolve(index, offset) == []
    ensures AtSeparator(index, offset) && text[offset] == ' '
  {
    TilesDisjoint(index, text);
    ResolveMembers(index, offset);
    assert |index| > 0;
    Locate(index, text, offset, 0);
    var k :| 0 <= k < |index| && index[k].start <= offset <= index[k].start + |index[k].text|;
    assert index[k] !in Resolve(index, offset);
    assert offset == index[k].start + |index[k].text|;
    assert k < |index| - 1;
    assert Adjacent(index, text, k);
  }

  /** The separator after a word is covered by no word. */
  lemma SeparatorResolvesNothing(index: seq<IndexEntry>, text: string, offset: nat)
    requires Tiles(index, text)
    requires AtSeparator(index, offset)
    ensures Resolve(index, offset) == []
  {
    TilesDisjoint(index, text);
    var i :| 0 <= i < |index| - 1 && offset == index[i].start + |index[i].text|;
    forall j | 0 <= j < |index|
      ensures !Covers(index[j], offset)
    {
      if j > i {
        assert Adjacent(index, text, i);
        if j > i + 1 {
          assert index[i + 1].start + |index[i + 1].text| < index[j].start;
        }
      }
    }
    ResolveNone(index, offset);
  }

  /** An offset past the text is covered by no word. */
  lemma PastTextResolvesNothing(index: seq<IndexEntry>, text: string, offset: nat)
    requires Tiles(index, text)
    requires offset >= |text|
    ensures Resolve(index, offset) == []
  {
    forall j | 0 <= j < |index|
      ensures !Covers(index[j], offset)
    {
      assert WordAt(index, text, j);
    }
    ResolveNone(index, offset);
  }

  /** Some word from `i` on starts at or before `offset` and ends at or after
      it. */
  lemma {:induction false} Locate(index: seq<IndexEntry>, text: string, offset: nat, i: nat)
    requires Tiles(index, text)
    requires i < |index| && index[i].start <= offset < |text|
    ensures exists k :: i <= k < |index| && index[k].start <= offset <= index[k].start + |index[k].text|
    decreases |index| - i
  {
    if offset > index[i].start + |index[i].text| {
      assert i + 1 < |index|;
      assert Adjacent(index, text, i);
      Locate(index, text, offset, i + 1);
    }
  }

  /** Over disjoint intervals each entity gives at most one box. */
  lemma {:induction false} TargetsCount(index: seq<IndexEntry>, entities: seq<Entity>)
    requires Disjoint(index)
    ensures |Targets(index, entities)| <= |entities|
  {
    if |entities| > 0 {
      TargetsCount(index, entities[..|entities| - 1]);
      ResolveAtMostOne(index, entities[|entities| - 1].beginOffset);
    }
  }

  lemma {:induction false} BoxesMembers(words: seq<IndexEntry>)
    ensures forall b :: b in Boxes(words) <==> exists w :: w in words && b == BoxOf(w.geometry)
  {
    if |words| > 0 {
      var init := words[..|words| - 1];
      BoxesMembers(init);
      assert words == init + [words[|words| - 1]];
    }
  }

  /** The box of word `w` is drawn for entity `e`. */
  ghost predicate DrawnFor(index: seq<IndexEntry>, e: Entity, b: BBox)
  {
    exists w :: w in index && Covers(w, e.beginOffset) && b == BoxOf(w.geometry)
  }

  /** A box is drawn exactly when it is the box of a word that holds some
      entity's begin offset. */
  lemma {:induction false} TargetsMembers(index: seq<IndexEntry>, entities: seq<Entity>)
    ensures forall b :: b in Targets(index, entities) <==> exists e :: e in entities && DrawnFor(index, e, b)
  {
    if |entities| > 0 {
      var init := entities[..|entities| - 1];
      var last := entities[|entities| - 1];
      TargetsMembers(index, init);
      ResolveMembers(index, last.beginOffset);
      var picked := Resolve(index, last.beginOffset);
      BoxesMembers(picked);
      assert entities == init + [last];
      forall b
        ensures b in Targets(index, entities) <==> exists e :: e in entities && DrawnFor(index, e, b)
      {
        if b in Boxes(picked) {
          var w :| w in picked && b == BoxOf(w.geometry);
          assert DrawnFor(index, last, b);
        }
        if exists e :: e in entities && DrawnFor(index, e, b) {
          var e :| e in entities && DrawnFor(index, e, b);
          if e != last {
            assert e in init;
          } else {
            var w :| w in index && Covers(w, e.beginOffset) && b == BoxOf(w.geometry);
            assert w in picked;
          }
        }
      }
    }
  }

  /** Only `BeginOffset` is read: entities with the same begin offsets draw
      the same boxes, whatever their ends, scores and types. */
  lemma {:induction false} TargetsBeginOnly(index: seq<IndexEntry>, a: seq<Entity>, b: seq<Entity>)
    requires |a| == |b|
    requires forall k :: 0 <= k < |a| ==> a[k].beginOffset == b[k].beginOffset
    ensures Targets(index, a) == Targets(index, b)
  {
    if |a| > 0 {
      TargetsBeginOnly(index, a[..|a| - 1], b[..|b| - 1]);
    }
  }
}
