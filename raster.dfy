/**
 * The page image and the two region painters.
 *
 * `redact_region` (main_pdf_re.py, main_tiff_re.py) truncates the box to
 * integers and draws an opaque black rectangle that includes both corners.
 * `blur_region` (main.py, main_tiff_v2.py) crops the half-open box, passes
 * the crop through a Gaussian filter and pastes the result back at the
 * box's top-left corner. The image is an `array2<int>` indexed `[x, y]`,
 * changed in place; `Pixels` is its value as columns of a grid.
 */
module Raster {
  import opened Common
  import opened Resolver

  /** Pixel values by column: `g[x][y]`. */
  type Grid = seq<seq<int>>

  /** The value `fill='black'` paints. */
  const Black: int := 0

  /** Every column of `g` has height `h`. */
  ghost predicate Rectangular(g: Grid, h: nat)
  {
    forall x :: 0 <= x < |g| ==> |g[x]| == h
  }

  function Pixels(img: array2<int>): (g: Grid)
    reads img
    ensures |g| == img.Length0 && Rectangular(g, img.Length1)
    ensures forall x, y :: 0 <= x < img.Length0 && 0 <= y < img.Length1 ==> g[x][y] == img[x, y]
  {
    seq(img.Length0, x reads img requires 0 <= x < img.Length0 =>
      seq(img.Length1, y reads img requires 0 <= y < img.Length1 => img[x, y]))
  }

  /** The pixels of each of several images, in order. */
  ghost function Snapshot(images: seq<array2<int>>): (grids: seq<Grid>)
    reads set j | 0 <= j < |images| :: images[j]
    ensures |grids| == |images|
    ensures forall j :: 0 <= j < |images| ==> grids[j] == Pixels(images[j])
  {
    if |images| == 0 then [] else Snapshot(images[..|images| - 1]) + [Pixels(images[|images| - 1])]
  }

  /** Python's `int()` on a float: truncation toward zero. */
  function Trunc(r: real): (n: int)
    ensures r >= 0.0 ==> 0 <= n && n as real <= r < n as real + 1.0
    ensures r < 0.0 ==> n <= 0 && n as real - 1.0 < r <= n as real
  {
    if r >= 0.0 then r.Floor else -((-r).Floor)
  }

  /** The integer box `x1, y1, x2, y2`. */
  datatype Rect = Rect(x1: int, y1: int, x2: int, y2: int)

  /** `[int(coord) for coord in bbox]` */
  function ToRect(b: BBox): Rect
  {
    Rect(Trunc(b.x1), Trunc(b.y1), Trunc(b.x2), Trunc(b.y2))
  }

  /** `draw.rectangle([x1, y1, x2, y2])` covers both corners. */
  predicate InRect(r: Rect, x: int, y: int)
  {
    r.x1 <= x <= r.x2 && r.y1 <= y <= r.y2
  }

  // ---------------------------------------------------------------------
  // redact_region

  /** The grid after `redact_region(image, bbox)`. */
  function FillGrid(g: Grid, b: BBox): (f: Grid)
    ensures |f| == |g| && forall x :: 0 <= x < |g| ==> |f[x]| == |g[x]|
  {
    var r := ToRect(b);
    seq(|g|, x requires 0 <= x < |g| =>
      seq(|g[x]|, y requires 0 <= y < |g[x]| => if InRect(r, x, y) then Black else g[x][y]))
  }

  /** `redact_region` paints the box black and leaves every other pixel as
      it was. */
  lemma FillGridAt(g: Grid, b: BBox, x: nat, y: nat)
    requires x < |g| && y < |g[x]|
    ensures FillGrid(g, b)[x][y] == if InRect(ToRect(b), x, y) then Black else g[x][y]
  {
  }

  /** Painting the same box twice is painting it once. */
  lemma FillIdempotent(g: Grid, b: BBox)
    ensures FillGrid(FillGrid(g, b), b) == FillGrid(g, b)
  {
    var f := FillGrid(g, b);
    var ff := FillGrid(f, b);
    forall x | 0 <= x < |g|
      ensures ff[x] == f[x]
    {
      assert |ff[x]| == |f[x]|;
    }
  }

  /** The grid after painting `boxes` one after the other. */
  function FillAll(g: Grid, boxes: seq<BBox>): (f: Grid)
    ensures |f| == |g| && forall x :: 0 <= x < |g| ==> |f[x]| == |g[x]|
  {
    if |boxes| == 0 then g
    else FillGrid(FillAll(g, boxes[..|boxes| - 1]), boxes[|boxes| - 1])
  }

  lemma FillAllSnoc(g: Grid, boxes: seq<BBox>, b: BBox)
    ensures FillAll(g, boxes + [b]) == FillGrid(FillAll(g, boxes), b)
  {
    assert (boxes + [b])[..|boxes|] == boxes;
  }

  /** Painting `a` then `b` is painting `a + b`. */
  lemma {:induction false} FillAllAppend(g: Grid, a: seq<BBox>, b: seq<BBox>)
    ensures FillAll(g, a + b) == FillAll(FillAll(g, a), b)
  {
    if |b| > 0 {
      FillAllAppend(g, a, b[..|b| - 1]);
      assert (a + b)[..|a + b| - 1] == a + b[..|b| - 1];
    } else {
      assert a + b == a;
    }
  }

  /** Pixel `(x, y)` lies in one of the boxes. */
  ghost predicate Painted(boxes: seq<BBox>, x: int, y: int)
  {
    exists k :: 0 <= k < |boxes| && InRect(ToRect(boxes[k]), x, y)
  }

  /** After a run of black fills a pixel is black when some box covers it,
      and unchanged otherwise. */
  lemma {:induction false} FillAllAt(g: Grid, boxes: seq<BBox>, x: nat, y: nat)
    requires x < |g| && y < |g[x]|
    ensures FillAll(g, boxes)[x][y] == if Painted(boxes, x, y) then Black else g[x][y]
  {
    if |boxes| > 0 {
      var init := boxes[..|boxes| - 1];
      FillAllAt(g, init, x, y);
      if Painted(init, x, y) {
        var k :| 0 <= k < |init| && InRect(ToRect(init[k]), x, y);
        assert boxes[k] == init[k];
      }
      if Painted(boxes, x, y) && !InRect(ToRect(boxes[|boxes| - 1]), x, y) {
        var k :| 0 <= k < |boxes| && InRect(ToRect(boxes[k]), x, y);
        assert init[k] == boxes[k];
      }
    }
  }

  /** Redacting a page twice with the same boxes changes nothing more. */
  lemma FillAllIdempotent(g: Grid, boxes: seq<BBox>)
    ensures FillAll(FillAll(g, boxes), boxes) == FillAll(g, boxes)
  {
    var f := FillAll(g, boxes);
    var ff := FillAll(f, boxes);
    forall x | 0 <= x < |g|
      ensures ff[x] == f[x]
    {
      forall y | 0 <= y < |g[x]|
        ensures ff[x][y] == f[x][y]
      {
        FillAllAt(g, boxes, x, y);
        FillAllAt(f, boxes, x, y);
      }
    }
  }

  /** `redact_region(image, bbox)`, in place. */
  method Fill(img: array2<int>, b: BBox)
    modifies img
    ensures Pixels(img) == FillGrid(old(Pixels(img)), b)
  {
    var r := ToRect(b);
    ghost var g := Pixels(img);
    var x0, x1 := Max(r.x1, 0), Min(r.x2 + 1, img.Length0);
    var y0, y1 := Max(r.y1, 0), Min(r.y2 + 1, img.Length1);
    var x := x0;
    while x < x1
      invariant x0 <= x || x1 <= x0
      invariant forall i, j :: 0 <= i < img.Length0 && 0 <= j < img.Length1 ==>
                  img[i, j] == if InRect(r, i, j) && i < x then Black else g[i][j]
    {
      var y := y0;
      while y < y1
        invariant y0 <= y || y1 <= y0
        invariant forall i, j :: 0 <= i < img.Length0 && 0 <= j < img.Length1 ==>
                    img[i, j] == if InRect(r, i, j) && (i < x || (i == x && j < y)) then Black else g[i][j]
      {
        img[x, y] := Black;
        y := y + 1;
      }
      x := x + 1;
    }
    SameGrid(img, FillGrid(g, b));
  }

  /** The image holds grid `f`. */
  lemma SameGrid(img: array2<int>, f: Grid)
    requires |f| == img.Length0 && Rectangular(f, img.Length1)
    requires forall x, y :: 0 <= x < img.Length0 && 0 <= y < img.Length1 ==> img[x, y] == f[x][y]
    ensures Pixels(img) == f
  {
    var p := Pixels(img);
    forall x | 0 <= x < |f|
      ensures p[x] == f[x]
    {
    }
  }

  // ---------------------------------------------------------------------
  // blur_region

  /** `g[x][y]`, or 0 outside the grid, as `crop` pads. */
  function PixelOr0(g: Grid, x: int, y: int): int
  {
    if 0 <= x < |g| && 0 <= y < |g[x]| then g[x][y] else 0
  }

  /** `image.crop((x1, y1, x2, y2))`: the half-open box, padded with 0 where
      it leaves the image. */
  function Crop(g: Grid, r: Rect): (c: Grid)
    ensures |c| == Max(r.x2 - r.x1, 0) && Rectangular(c, Max(r.y2 - r.y1, 0))
  {
    seq(Max(r.x2 - r.x1, 0), i =>
      seq(Max(r.y2 - r.y1, 0), j => PixelOr0(g, r.x1 + i, r.y1 + j)))
  }

  /** `image.paste(patch, (x0, y0))`: the patch, at its own size, clipped to
      the image. */
  function Paste(g: Grid, patch: Grid, x0: int, y0: int): (f: Grid)
    ensures |f| == |g| && forall x :: 0 <= x < |g| ==> |f[x]| == |g[x]|
  {
    seq(|g|, x requires 0 <= x < |g| =>
      seq(|g[x]|, y requires 0 <= y < |g[x]| =>
        if x0 <= x < x0 + |patch| && y0 <= y < y0 + |patch[x - x0]|
        then patch[x - x0][y - y0]
        else g[x][y]))
  }

  /** A filter that returns grids of the shape it is given, as Pillow's
      `GaussianBlur` does. */
  ghost predicate KeepsShape(smooth: Grid -> Grid)
  {
    forall c: Grid :: |smooth(c)| == |c| && forall i :: 0 <= i < |c| ==> |smooth(c)[i]| == |c[i]|
  }

  /** The grid after `blur_region(image, bbox)`, with the filter `smooth`. */
  function BlurGrid(g: Grid, b: BBox, smooth: Grid -> Grid): (f: Grid)
    ensures |f| == |g| && forall x :: 0 <= x < |g| ==> |f[x]| == |g[x]|
  {
    var r := ToRect(b);
    Paste(g, smooth(Crop(g, r)), r.x1, r.y1)
  }

  /** `(x, y)` lies in the half-open box that `crop` takes. */
  predicate InCrop(r: Rect, x: int, y: int)
  {
    r.x1 <= x < r.x2 && r.y1 <= y < r.y2
  }

  /** Blurring changes only the cropped box: inside it each pixel is the
      filter's output at the same place in the crop, outside it nothing
      changes. */
  lemma BlurGridAt(g: Grid, b: BBox, smooth: Grid -> Grid, x: nat, y: nat)
    requires KeepsShape(smooth)
    requires x < |g| && y < |g[x]|
    ensures var r := ToRect(b);
            BlurGrid(g, b, smooth)[x][y] ==
              if InCrop(r, x, y) then smooth(Crop(g, r))[x - r.x1][y - r.y1] else g[x][y]
  {
    var r := ToRect(b);
    var c := Crop(g, r);
    assert |smooth(c)| == |c|;
    if r.x1 <= x < r.x1 + |c| {
      assert |smooth(c)[x - r.x1]| == |c[x - r.x1]|;
    }
  }

  /** The grid after blurring `boxes` one after the other. */
  function BlurAll(g: Grid, boxes: seq<BBox>, smooth: Grid -> Grid): (f: Grid)
    ensures |f| == |g| && forall x :: 0 <= x < |g| ==> |f[x]| == |g[x]|
  {
    if |boxes| == 0 then g
    else BlurGrid(BlurAll(g, boxes[..|boxes| - 1], smooth), boxes[|boxes| - 1], smooth)
  }

  lemma BlurAllSnoc(g: Grid, boxes: seq<BBox>, b: BBox, smooth: Grid -> Grid)
    ensures BlurAll(g, boxes + [b], smooth) == BlurGrid(BlurAll(g, boxes, smooth), b, smooth)
  {
    assert (boxes + [b])[..|boxes|] == boxes;
  }

  /** Blurring `a` then `b` is blurring `a + b`. */
  lemma {:induction false} BlurAllAppend(g: Grid, a: seq<BBox>, b: seq<BBox>, smooth: Grid -> Grid)
    ensures BlurAll(g, a + b, smooth) == BlurAll(BlurAll(g, a, smooth), b, smooth)
  {
    if |b| > 0 {
      BlurAllAppend(g, a, b[..|b| - 1], smooth);
      assert (a + b)[..|a + b| - 1] == a + b[..|b| - 1];
    } else {
      assert a + b == a;
    }
  }

  /** Pixel `(x, y)` lies in one of the cropped boxes. */
  ghost predicate Blurred(boxes: seq<BBox>, x: int, y: int)
  {
    exists k :: 0 <= k < |boxes| && InCrop(ToRect(boxes[k]), x, y)
  }

  /** Pixels outside every cropped box keep their value through a run of
      blurs. */
  lemma {:induction false} BlurAllOutside(g: Grid, boxes: seq<BBox>, smooth: Grid -> Grid, x: nat, y: nat)
    requires KeepsShape(smooth)
    requires x < |g| && y < |g[x]|
    requires !Blurred(boxes, x, y)
    ensures BlurAll(g, boxes, smooth)[x][y] == g[x][y]
  {
    if |boxes| > 0 {
      var init := boxes[..|boxes| - 1];
      assert !Blurred(init, x, y) by {
        forall k | 0 <= k < |init|
          ensures !InCrop(ToRect(init[k]), x, y)
        {
          assert init[k] == boxes[k];
        }
      }
      BlurAllOutside(g, init, smooth, x, y);
      BlurGridAt(BlurAll(g, init, smooth), boxes[|boxes| - 1], smooth, x, y);
    }
  }

  /** `blur_region(image, bbox)`, in place. */
  method Blur(img: array2<int>, b: BBox, smooth: Grid -> Grid)
    modifies img
    ensures Pixels(img) == BlurGrid(old(Pixels(img)), b, smooth)
  {
    var r := ToRect(b);
    ghost var g := Pixels(img);
    var patch := smooth(Crop(Pixels(img), r));
    var x0, x1 := Max(r.x1, 0), Min(r.x1 + |patch|, img.Length0);
    var x := x0;
    while x < x1
      invariant x0 <= x || x1 <= x0
      invariant forall i, j :: 0 <= i < img.Length0 && 0 <= j < img.Length1 ==>
                  img[i, j] == if i < x && Pasted(patch, r, i, j) then patch[i - r.x1][j - r.y1] else g[i][j]
    {
      var y0, y1 := Max(r.y1, 0), Min(r.y1 + |patch[x - r.x1]|, img.Length1);
      var y := y0;
      while y < y1
        invariant y0 <= y || y1 <= y0
        invariant forall i, j :: 0 <= i < img.Length0 && 0 <= j < img.Length1 ==>
                    img[i, j] == if (i < x || (i == x && j < y)) && Pasted(patch, r, i, j)
                                 then patch[i - r.x1][j - r.y1] else g[i][j]
      {
        img[x, y] := patch[x - r.x1][y - r.y1];
        y := y + 1;
      }
      x := x + 1;
    }
    forall i, j | 0 <= i < img.Length0 && 0 <= j < img.Length1
      ensures img[i, j] == BlurGrid(g, b, smooth)[i][j]
    {
      PasteAt(g, patch, r, i, j);
    }
    SameGrid(img, BlurGrid(g, b, smooth));
  }

  lemma PasteAt(g: Grid, patch: Grid, r: Rect, x: nat, y: nat)
    requires x < |g| && y < |g[x]|
    ensures Paste(g, patch, r.x1, r.y1)[x][y] ==
            if Pasted(patch, r, x, y) then patch[x - r.x1][y - r.y1] else g[x][y]
  {
  }

  /** `(x, y)` receives a pixel of the patch pasted at the box's corner. */
  predicate Pasted(patch: Grid, r: Rect, x: int, y: int)
  {
    r.x1 <= x < r.x1 + |patch| && r.y1 <= y < r.y1 + |patch[x - r.x1]|
  }
}
