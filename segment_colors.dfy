/**
 * `ImageSegmentColorizer::colorizeSegmentation`: maps a row-major boolean
 * mask to a `height` x `width` grid of pixels, blue where the mask is set and
 * red elsewhere. The input image is a parameter the C++ code never reads, so
 * it does not appear here.
 */
module SegmentColors {

  datatype Pixel = Pixel(r: int, g: int, b: int)

  /** `objectColor` and `backgroundColor`. */
  const OBJECT_COLOR: Pixel := Pixel(255, 0, 0)
  const BACKGROUND_COLOR: Pixel := Pixel(0, 0, 255)

  /** The colour the loop writes for mask value `m`. */
  function ColorOf(m: bool): (p: Pixel)
    ensures m ==> p == BACKGROUND_COLOR
    ensures !m ==> p == OBJECT_COLOR
  {
    if m then BACKGROUND_COLOR else OBJECT_COLOR
  }

  /** `segmentation[y*width + x]`: the mask entry of pixel `(y, x)`. */
  function MaskAt(segmentation: seq<bool>, width: nat, height: nat, y: nat, x: nat): bool
    requires |segmentation| >= width * height && y < height && x < width
  {
    RowIndexInRange(y, x, width, height);
    segmentation[y * width + x]
  }

  /** The picture the program produces: `height` rows of `width` pixels, each coloured by its mask entry. */
  predicate IsColoring(img: seq<seq<Pixel>>, segmentation: seq<bool>, width: nat, height: nat)
    requires |segmentation| >= width * height
  {
    |img| == height &&
    (forall y :: 0 <= y < height ==> |img[y]| == width) &&
    (forall y, x :: 0 <= y < height && 0 <= x < width ==>
       x < |img[y]| && img[y][x] == ColorOf(MaskAt(segmentation, width, height, y, x)))
  }

  lemma RowIndexInRange(y: nat, x: nat, width: nat, height: nat)
    requires y < height && x < width
    ensures y * width + x < width * height
  {
    calc {
      y * width + x;
    <
      y * width + width;
    ==
      (y + 1) * width;
    <=
      { assert y + 1 <= height; }
      height * width;
    }
  }

  /** One row of the grid: `coloredImage[y][x]` for `x` in `0..width`. */
  method ColorRow(segmentation: seq<bool>, width: nat, height: nat, y: nat) returns (row: seq<Pixel>)
    requires |segmentation| >= width * height && y < height
    ensures |row| == width
    ensures forall x :: 0 <= x < width ==> row[x] == ColorOf(MaskAt(segmentation, width, height, y, x))
  {
    row := [];
    var x := 0;
    while x < width
      invariant 0 <= x <= width && |row| == x
      invariant forall i :: 0 <= i < x ==> row[i] == ColorOf(MaskAt(segmentation, width, height, y, i))
    {
      RowIndexInRange(y, x, width, height);
      var vertex := y * width + x;
      if segmentation[vertex] {
        row := row + [BACKGROUND_COLOR];
      } else {
        row := row + [OBJECT_COLOR];
      }
      x := x + 1;
    }
  }

  /** `colorizeSegmentation(image, segmentation, width, height)`. */
  method ColorizeSegmentation(segmentation: seq<bool>, width: nat, height: nat) returns (img: seq<seq<Pixel>>)
    requires |segmentation| >= width * height
    ensures IsColoring(img, segmentation, width, height)
  {
    img := [];
    var y := 0;
    while y < height
      invariant 0 <= y <= height && |img| == y
      invariant forall i :: 0 <= i < y ==> |img[i]| == width
      invariant forall i, x :: 0 <= i < y && 0 <= x < width ==>
        img[i][x] == ColorOf(MaskAt(segmentation, width, height, i, x))
    {
      var row := ColorRow(segmentation, width, height, y);
      img := img + [row];
      y := y + 1;
    }
  }

  /** The colouring is determined by the mask: two colourings of the same mask are equal. */
  lemma {:induction false} ColoringIsUnique(a: seq<seq<Pixel>>, b: seq<seq<Pixel>>, segmentation: seq<bool>, width: nat, height: nat)
    requires |segmentation| >= width * height
    requires IsColoring(a, segmentation, width, height) && IsColoring(b, segmentation, width, height)
    ensures a == b
  {
    forall y | 0 <= y < height ensures a[y] == b[y] {
      forall x | 0 <= x < width ensures a[y][x] == b[y][x] {
      }
    }
  }

  /** Only the first `width*height` mask entries matter. */
  lemma ColoringIgnoresTail(img: seq<seq<Pixel>>, s: seq<bool>, t: seq<bool>, width: nat, height: nat)
    requires |s| >= width * height && |t| >= width * height
    requires s[..width * height] == t[..width * height]
    requires IsColoring(img, s, width, height)
    ensures IsColoring(img, t, width, height)
  {
    forall y, x | 0 <= y < height && 0 <= x < width
      ensures MaskAt(s, width, height, y, x) == MaskAt(t, width, height, y, x)
    {
      RowIndexInRange(y, x, width, height);
      var v := y * width + x;
      assert s[v] == s[..width * height][v];
    }
  }

  /** Every pixel of the result is blue or red. */
  lemma TwoColors(img: seq<seq<Pixel>>, segmentation: seq<bool>, width: nat, height: nat)
    requires |segmentation| >= width * height
    requires IsColoring(img, segmentation, width, height)
    ensures forall y, x :: 0 <= y < height && 0 <= x < width ==>
      img[y][x] == BACKGROUND_COLOR || img[y][x] == OBJECT_COLOR
  {
    forall y, x | 0 <= y < height && 0 <= x < width
      ensures img[y][x] == BACKGROUND_COLOR || img[y][x] == OBJECT_COLOR
    {
      assert img[y][x] == ColorOf(MaskAt(segmentation, width, height, y, x));
    }
  }
}
