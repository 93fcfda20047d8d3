/**
 * The pixel graph of the first segmentation program (`graph.hpp`): one vertex
 * per pixel, numbered row by row, and for each pixel an edge to its right,
 * lower, lower-right and lower-left neighbours when those lie inside the
 * image. Each edge carries the per-channel absolute differences of its two
 * pixels; the C++ stores those integers in `double`s, here they are `nat`s.
 */
module GridGraph {

  datatype Pixel = Pixel(r: int, g: int, b: int)

  datatype Edge = Edge(src: int, dest: int, weightR: nat, weightG: nat, weightB: nat)

  function Abs(d: int): nat {
    if d < 0 then -d else d
  }

  /** `calculateWeights(p1, p2)`: `{|r1 - r2|, |g1 - g2|, |b1 - b2|}`. */
  function CalculateWeights(p1: Pixel, p2: Pixel): (w: seq<nat>)
    ensures |w| == 3
  {
    [Abs(p1.r - p2.r), Abs(p1.g - p2.g), Abs(p1.b - p2.b)]
  }

  /** The weights do not depend on the order of the two pixels, and vanish exactly on equal pixels. */
  lemma WeightsSymmetric(p1: Pixel, p2: Pixel)
    ensures CalculateWeights(p1, p2) == CalculateWeights(p2, p1)
    ensures CalculateWeights(p1, p2) == [0, 0, 0] <==> p1 == p2
  {
    if CalculateWeights(p1, p2) == [0, 0, 0] {
      assert CalculateWeights(p1, p2)[0] == 0 && CalculateWeights(p1, p2)[1] == 0;
      assert CalculateWeights(p1, p2)[2] == 0;
    }
  }

  /** The constructor reads `image[y][x]` for every pixel of a `width` x `height` picture. */
  predicate WellFormed(image: seq<seq<Pixel>>, width: nat, height: nat) {
    |image| >= height && forall y :: 0 <= y < height ==> |image[y]| >= width
  }

  /** Row-major arithmetic: the cell index is below `width*height`, and one row down adds `width`. */
  lemma CellIndex(y: nat, x: nat, width: nat, height: nat)
    requires y < height && x < width
    ensures y * width + x < width * height
    ensures (y + 1) * width + x == y * width + x + width
  {
    calc {
      y * width + x;
    <
      (y + 1) * width;
    <=
      { assert y + 1 <= height; }
      height * width;
    }
  }

  /** The edge from pixel `(y, x)` to pixel `(ny, nx)`, with the weights of the two pixels. */
  function EdgeTo(image: seq<seq<Pixel>>, width: nat, height: nat, y: nat, x: nat, ny: nat, nx: nat): Edge
    requires WellFormed(image, width, height)
    requires y < height && x < width && ny < height && nx < width
  {
    var w := CalculateWeights(image[y][x], image[ny][nx]);
    Edge(y * width + x, ny * width + nx, w[0], w[1], w[2])
  }

  /** The edges pushed for pixel `(y, x)`: right, below, lower right, lower left, each when inside. */
  function PixelEdges(image: seq<seq<Pixel>>, width: nat, height: nat, y: nat, x: nat): seq<Edge>
    requires WellFormed(image, width, height) && y < height && x < width
  {
    (if x + 1 < width then [EdgeTo(image, width, height, y, x, y, x + 1)] else []) +
    (if y + 1 < height then [EdgeTo(image, width, height, y, x, y + 1, x)] else []) +
    (if x + 1 < width && y + 1 < height then [EdgeTo(image, width, height, y, x, y + 1, x + 1)] else []) +
    (if x >= 1 && y + 1 < height then [EdgeTo(image, width, height, y, x, y + 1, x - 1)] else [])
  }

  /** The edges of the first `x` pixels of row `y`. */
  function RowPrefix(image: seq<seq<Pixel>>, width: nat, height: nat, y: nat, x: nat): seq<Edge>
    requires WellFormed(image, width, height) && y < height && x <= width
  {
    if x == 0 then [] else RowPrefix(image, width, height, y, x - 1) + PixelEdges(image, width, height, y, x - 1)
  }

  /** The edges of the first `y` rows. */
  function RowsBefore(image: seq<seq<Pixel>>, width: nat, height: nat, y: nat): seq<Edge>
    requires WellFormed(image, width, height) && y <= height
  {
    if y == 0 then [] else RowsBefore(image, width, height, y - 1) + RowPrefix(image, width, height, y - 1, width)
  }

  /** Every edge of the image, in the order the constructor pushes them. */
  function GridEdges(image: seq<seq<Pixel>>, width: nat, height: nat): seq<Edge>
    requires WellFormed(image, width, height)
  {
    RowsBefore(image, width, height, height)
  }

  /** An edge goes from a smaller to a larger vertex number, both inside the grid. */
  predicate Forward(e: Edge, n: int) {
    0 <= e.src < e.dest < n
  }

  /** No two edges join the same two vertices, in either orientation. */
  predicate DistinctPairs(s: seq<Edge>) {
    forall i, j :: 0 <= i < j < |s| ==>
      !(s[i].src == s[j].src && s[i].dest == s[j].dest) &&
      !(s[i].src == s[j].dest && s[i].dest == s[j].src)
  }

  /** The edges of `s` leave vertices in `[lo, hi)`, point forward inside `n` vertices, and join distinct pairs. */
  predicate Block(s: seq<Edge>, lo: int, hi: int, n: int) {
    (forall e :: e in s ==> lo <= e.src < hi && Forward(e, n)) && DistinctPairs(s)
  }

  /** The edges of pixel `(y, x)` leave `y*width + x`, point forward, and reach four different vertices. */
  lemma PixelEdgesFacts(image: seq<seq<Pixel>>, width: nat, height: nat, y: nat, x: nat)
    requires WellFormed(image, width, height) && y < height && x < width
    ensures Block(PixelEdges(image, width, height, y, x), y * width + x, y * width + x + 1, width * height)
  {
    var c, n := y * width + x, width * height;
    var xr, xl, yb := x + 1, x - 1, y + 1;
    CellIndex(y, x, width, height);
    var right := if xr < width then [EdgeTo(image, width, height, y, x, y, xr)] else [];
    var below := if yb < height then [EdgeTo(image, width, height, y, x, yb, x)] else [];
    var diagRight := if xr < width && yb < height then [EdgeTo(image, width, height, y, x, yb, xr)] else [];
    var diagLeft := if x >= 1 && yb < height then [EdgeTo(image, width, height, y, x, yb, xl)] else [];
    assert PixelEdges(image, width, height, y, x) == right + below + diagRight + diagLeft;
    RightEnds(image, width, height, y, x, xr, c, n);
    BelowEnds(image, width, height, y, x, yb, c, n);
    DiagRightEnds(image, width, height, y, x, yb, xr, c, n);
    DiagLeftEnds(image, width, height, y, x, yb, xl, c, n);
    FanFacts(right, below, diagRight, diagLeft, c, width, n);
  }

  /** The right neighbour's edge, when there is one, goes from `c` to `c + 1`. */
  lemma RightEnds(image: seq<seq<Pixel>>, width: nat, height: nat, y: nat, x: nat, xr: int, c: int, n: int)
    requires WellFormed(image, width, height) && y < height && x < width
    requires xr == x + 1 && c == y * width + x && n == width * height
    ensures forall e :: e in (if xr < width then [EdgeTo(image, width, height, y, x, y, xr)] else []) ==>
      e.src == c && e.dest == c + 1 < n && width >= 2
  {
    if xr < width {
      CellIndex(y, xr, width, height);
    }
  }

  /** The lower neighbour's edge, when there is one, goes from `c` to `c + width`. */
  lemma BelowEnds(image: seq<seq<Pixel>>, width: nat, height: nat, y: nat, x: nat, yb: int, c: int, n: int)
    requires WellFormed(image, width, height) && y < height && x < width
    requires yb == y + 1 && c == y * width + x && n == width * height
    ensures forall e :: e in (if yb < height then [EdgeTo(image, width, height, y, x, yb, x)] else []) ==>
      e.src == c && e.dest == c + width < n && width >= 1
  {
    if yb < height {
      CellIndex(y, x, width, height);
      CellIndex(yb, x, width, height);
    }
  }

  /** The lower-right neighbour's edge, when there is one, goes from `c` to `c + width + 1`. */
  lemma DiagRightEnds(image: seq<seq<Pixel>>, width: nat, height: nat, y: nat, x: nat, yb: int, xr: int,
                      c: int, n: int)
    requires WellFormed(image, width, height) && y < height && x < width
    requires yb == y + 1 && xr == x + 1 && c == y * width + x && n == width * height
    ensures forall e :: e in (if xr < width && yb < height then [EdgeTo(image, width, height, y, x, yb, xr)] else []) ==>
      e.src == c && e.dest == c + width + 1 < n && width >= 1
  {
    if xr < width && yb < height {
      CellIndex(y, xr, width, height);
      CellIndex(yb, xr, width, height);
    }
  }

  /** The lower-left neighbour's edge, when there is one, goes from `c` to `c + width - 1`. */
  lemma DiagLeftEnds(image: seq<seq<Pixel>>, width: nat, height: nat, y: nat, x: nat, yb: int, xl: int,
                     c: int, n: int)
    requires WellFormed(image, width, height) && y < height && x < width
    requires yb == y + 1 && xl == x - 1 && c == y * width + x && n == width * height
    ensures forall e :: e in (if x >= 1 && yb < height then [EdgeTo(image, width, height, y, x, yb, xl)] else []) ==>
      e.src == c && e.dest == c + width - 1 < n && width >= 2
  {
    if x >= 1 && yb < height {
      CellIndex(y, xl, width, height);
      CellIndex(yb, xl, width, height);
    }
  }

  /**
   * Up to four edges leaving `c`, to `c + 1`, `c + w`, `c + w + 1` and `c + w - 1`, form
   * a block: the right and lower-left neighbours only coincide when the row has two
   * pixels, and then the right one is missing.
   */
  lemma FanFacts(right: seq<Edge>, below: seq<Edge>, diagRight: seq<Edge>, diagLeft: seq<Edge>,
                 c: int, w: int, n: int)
    requires 0 <= c && |right| <= 1 && |below| <= 1 && |diagRight| <= 1 && |diagLeft| <= 1
    requires forall e :: e in right ==> e.src == c && e.dest == c + 1 < n && w >= 2
    requires forall e :: e in below ==> e.src == c && e.dest == c + w < n && w >= 1
    requires forall e :: e in diagRight ==> e.src == c && e.dest == c + w + 1 < n && w >= 1
    requires forall e :: e in diagLeft ==> e.src == c && e.dest == c + w - 1 < n && w >= 2
    requires right != [] && diagLeft != [] ==> w >= 3
    ensures Block(right + below + diagRight + diagLeft, c, c + 1, n)
  {
    FanOpt([], right, c, n, c + 1);
    assert [] + right == right;
    FanOpt(right, below, c, n, c + w);
    FanOpt(right + below, diagRight, c, n, c + w + 1);
    FanOpt(right + below + diagRight, diagLeft, c, n, c + w - 1);
  }

  /** At most one more edge from `c`, to a vertex `d` no earlier edge reaches, keeps the fan distinct. */
  lemma FanOpt(s: seq<Edge>, o: seq<Edge>, c: int, n: int, d: int)
    requires 0 <= c && Block(s, c, c + 1, n) && |o| <= 1
    requires forall e :: e in o ==> e.src == c && e.dest == d && c < d < n
    requires o != [] ==> forall f :: f in s ==> f.dest != d
    ensures Block(s + o, c, c + 1, n)
  {
    if o != [] {
      var u := s + o;
      forall f | f in u ensures c <= f.src < c + 1 && Forward(f, n) {
        if f !in s {
          assert f in o;
        }
      }
      forall i, j | 0 <= i < j < |u|
        ensures !(u[i].src == u[j].src && u[i].dest == u[j].dest)
        ensures !(u[i].src == u[j].dest && u[i].dest == u[j].src)
      {
        if j < |s| {
          assert u[i] == s[i] && u[j] == s[j];
        } else {
          assert u[j] == o[0] && u[i] in s;
        }
      }
    } else {
      assert s + o == s;
    }
  }

  /** Gluing two lists whose sources are separated by `k` keeps the pairs distinct. */
  lemma ConcatDistinct(s: seq<Edge>, t: seq<Edge>, k: int, n: int)
    requires DistinctPairs(s) && DistinctPairs(t)
    requires forall e :: e in s ==> Forward(e, n) && e.src < k
    requires forall e :: e in t ==> Forward(e, n) && e.src >= k
    ensures DistinctPairs(s + t)
  {
    var u := s + t;
    forall i, j | 0 <= i < j < |u|
      ensures !(u[i].src == u[j].src && u[i].dest == u[j].dest)
      ensures !(u[i].src == u[j].dest && u[i].dest == u[j].src)
    {
      if j < |s| {
        assert u[i] == s[i] && u[j] == s[j];
      } else if i >= |s| {
        assert u[i] == t[i - |s|] && u[j] == t[j - |s|];
      } else {
        assert u[i] in s && u[j] in t;
      }
    }
  }

  /** Two adjacent blocks, the first leaving `[lo, mid)` and the second `[mid, hi)`, glue into one. */
  lemma Glue(s: seq<Edge>, t: seq<Edge>, lo: int, mid: int, hi: int, n: int)
    requires lo <= mid <= hi
    requires Block(s, lo, mid, n) && Block(t, mid, hi, n)
    ensures Block(s + t, lo, hi, n)
  {
    ConcatDistinct(s, t, mid, n);
    forall e | e in s + t ensures lo <= e.src < hi && Forward(e, n) {
      if e !in s {
        assert e in t;
      }
    }
  }

  /** All edges of the first `x` pixels of row `y` leave those pixels, point forward and are pairwise distinct. */
  lemma {:induction false} RowPrefixFacts(image: seq<seq<Pixel>>, width: nat, height: nat, y: nat, x: nat)
    requires WellFormed(image, width, height) && y < height && x <= width
    ensures Block(RowPrefix(image, width, height, y, x), y * width, y * width + x, width * height)
  {
    if x > 0 {
      var x' := x - 1;
      RowPrefixFacts(image, width, height, y, x');
      PixelEdgesFacts(image, width, height, y, x');
      Glue(RowPrefix(image, width, height, y, x'), PixelEdges(image, width, height, y, x'),
           y * width, y * width + x', y * width + x' + 1, width * height);
      assert y * width + x' + 1 == y * width + x;
      RowPrefixNext(image, width, height, y, x', x);
    }
  }

  /** All edges of the first `y` rows leave those rows, point forward and are pairwise distinct. */
  lemma {:induction false} RowsBeforeFacts(image: seq<seq<Pixel>>, width: nat, height: nat, y: nat)
    requires WellFormed(image, width, height) && y <= height
    ensures Block(RowsBefore(image, width, height, y), 0, y * width, width * height)
  {
    if y > 0 {
      var y' := y - 1;
      RowsBeforeFacts(image, width, height, y');
      RowPrefixFacts(image, width, height, y', width);
      NextRowStart(y', y, width);
      Glue(RowsBefore(image, width, height, y'), RowPrefix(image, width, height, y', width),
           0, y' * width, y' * width + width, width * height);
      RowsBeforeNext(image, width, height, y', y);
    }
  }

  lemma NextRowStart(y': nat, y: nat, width: int)
    requires y == y' + 1 && width >= 0
    ensures 0 <= y' * width && y' * width + width == y * width
  {
  }

  /** Every edge joins two different pixels with `src < dest < width*height`, and no pair of pixels is joined twice. */
  lemma GridEdgesForwardAndDistinct(image: seq<seq<Pixel>>, width: nat, height: nat)
    requires WellFormed(image, width, height)
    ensures forall e :: e in GridEdges(image, width, height) ==> Forward(e, width * height)
    ensures DistinctPairs(GridEdges(image, width, height))
  {
    RowsBeforeFacts(image, width, height, height);
  }

  function Min(a: int, b: int): int { if a <= b then a else b }

  /** How many edges the first `x` pixels of row `y` push. */
  lemma {:induction false} RowPrefixLength(image: seq<seq<Pixel>>, width: nat, height: nat, y: nat, x: nat)
    requires WellFormed(image, width, height) && width >= 1 && y < height && x <= width
    ensures |RowPrefix(image, width, height, y, x)| ==
      if y + 1 < height then x + 2 * Min(x, width - 1) + (if x >= 1 then x - 1 else 0)
      else Min(x, width - 1)
  {
    if x > 0 {
      RowPrefixLength(image, width, height, y, x - 1);
      var x' := x - 1;
      RowPrefixNext(image, width, height, y, x', x);
      assert |PixelEdges(image, width, height, y, x')| ==
        (if x' + 1 < width then 1 else 0) + (if y + 1 < height then 1 else 0) +
        (if x' + 1 < width && y + 1 < height then 1 else 0) + (if x' >= 1 && y + 1 < height then 1 else 0);
    }
  }

  /** With `w, h >= 1` the image has `(w-1)h + w(h-1) + 2(w-1)(h-1)` edges. */
  lemma EdgeCount(image: seq<seq<Pixel>>, width: nat, height: nat)
    requires WellFormed(image, width, height) && width >= 1 && height >= 1
    ensures |GridEdges(image, width, height)| ==
      (width - 1) * height + width * (height - 1) + 2 * (width - 1) * (height - 1)
  {
    RowByRowCount(image, width, height);
    CountIdentity(width, height);
  }

  /** `h - 1` full rows of `4w - 3` edges, then a last row of `w - 1`. */
  lemma RowByRowCount(image: seq<seq<Pixel>>, width: nat, height: nat)
    requires WellFormed(image, width, height) && width >= 1 && height >= 1
    ensures |GridEdges(image, width, height)| == (height - 1) * (4 * width - 3) + (width - 1)
  {
    var y := height - 1;
    FullRowsLength(image, width, height, y);
    RowPrefixLength(image, width, height, y, width);
    RowsBeforeNext(image, width, height, y, height);
  }

  lemma CountIdentity(w: int, h: int)
    ensures (w - 1) * h + w * (h - 1) + 2 * (w - 1) * (h - 1) == (h - 1) * (4 * w - 3) + (w - 1)
  {
    assert (w - 1) * h == w * h - h;
    assert w * (h - 1) == w * h - w;
    assert 2 * (w - 1) * (h - 1) == 2 * (w * h) - 2 * w - 2 * h + 2;
    assert (h - 1) * (4 * w - 3) == 4 * (w * h) - 3 * h - 4 * w + 3;
  }

  /** Each row but the last pushes `4w - 3` edges. */
  lemma {:induction false} FullRowsLength(image: seq<seq<Pixel>>, width: nat, height: nat, y: nat)
    requires WellFormed(image, width, height) && width >= 1 && y < height
    ensures |RowsBefore(image, width, height, y)| == y * (4 * width - 3)
  {
    if y > 0 {
      var y' := y - 1;
      FullRowsLength(image, width, height, y');
      RowPrefixLength(image, width, height, y', width);
      RowsBeforeNext(image, width, height, y', y);
      NextRowStart(y', y, 4 * width - 3);
    }
  }

  /** One more pixel of a row. */
  lemma RowPrefixNext(image: seq<seq<Pixel>>, width: nat, height: nat, y: nat, x: nat, x1: nat)
    requires WellFormed(image, width, height) && y < height && x < width && x1 == x + 1
    ensures RowPrefix(image, width, height, y, x1) ==
      RowPrefix(image, width, height, y, x) + PixelEdges(image, width, height, y, x)
  {
  }

  /** One more row. */
  lemma RowsBeforeNext(image: seq<seq<Pixel>>, width: nat, height: nat, y: nat, y1: nat)
    requires WellFormed(image, width, height) && y < height && y1 == y + 1
    ensures RowsBefore(image, width, height, y1) ==
      RowsBefore(image, width, height, y) + RowPrefix(image, width, height, y, width)
  {
  }

  class Graph {
    var numVertices: int
    var edges: seq<Edge>

    /** `Graph(image, width, height)`: one vertex per pixel, the neighbour edges in scan order. */
    constructor (image: seq<seq<Pixel>>, width: nat, height: nat)
      requires WellFormed(image, width, height)
      ensures numVertices == width * height
      ensures edges == GridEdges(image, width, height)
    {
      numVertices := width * height;
      edges := [];
      new;
      AddRows(image, width, height);
    }

    /** The constructor's outer loop: the edges of every row, top to bottom. */
    method AddRows(image: seq<seq<Pixel>>, width: nat, height: nat)
      requires WellFormed(image, width, height) && edges == []
      modifies this`edges
      ensures edges == GridEdges(image, width, height)
    {
      var y := 0;
      while y < height
        invariant 0 <= y <= height
        invariant edges == RowsBefore(image, width, height, y)
      {
        AddRow(image, width, height, y);
        var y1 := y + 1;
        RowsBeforeNext(image, width, height, y, y1);
        y := y1;
      }
    }

    /** The body of the constructor's outer loop: the edges of row `y`, pixel by pixel. */
    method AddRow(image: seq<seq<Pixel>>, width: nat, height: nat, y: nat)
      requires WellFormed(image, width, height) && y < height
      modifies this`edges
      ensures edges == old(edges) + RowPrefix(image, width, height, y, width)
    {
      ghost var rows := edges;
      var x := 0;
      while x < width
        invariant 0 <= x <= width
        invariant edges == rows + RowPrefix(image, width, height, y, x)
      {
        AddPixelEdges(image, width, height, y, x);
        var x1 := x + 1;
        RowPrefixNext(image, width, height, y, x, x1);
        x := x1;
      }
    }

    /** The body of the constructor's inner loop: the edges of pixel `(y, x)` pushed in order. */
    method AddPixelEdges(image: seq<seq<Pixel>>, width: nat, height: nat, y: nat, x: nat)
      requires WellFormed(image, width, height) && y < height && x < width
      modifies this`edges
      ensures edges == old(edges) + PixelEdges(image, width, height, y, x)
    {
      ghost var e0 := edges;
      ghost var right := if x + 1 < width then [EdgeTo(image, width, height, y, x, y, x + 1)] else [];
      ghost var below := if y + 1 < height then [EdgeTo(image, width, height, y, x, y + 1, x)] else [];
      ghost var diagRight :=
        if x + 1 < width && y + 1 < height then [EdgeTo(image, width, height, y, x, y + 1, x + 1)] else [];
      ghost var diagLeft :=
        if x >= 1 && y + 1 < height then [EdgeTo(image, width, height, y, x, y + 1, x - 1)] else [];
      if x + 1 < width {
        var weights := CalculateWeights(image[y][x], image[y][x + 1]);
        edges := edges + [Edge(y * width + x, y * width + (x + 1), weights[0], weights[1], weights[2])];
      }
      assert edges == e0 + right;
      if y + 1 < height {
        var weights := CalculateWeights(image[y][x], image[y + 1][x]);
        edges := edges + [Edge(y * width + x, (y + 1) * width + x, weights[0], weights[1], weights[2])];
      }
      assert edges == e0 + right + below;
      if x + 1 < width && y + 1 < height {
        var weights := CalculateWeights(image[y][x], image[y + 1][x + 1]);
        edges := edges + [Edge(y * width + x, (y + 1) * width + (x + 1), weights[0], weights[1], weights[2])];
      }
      assert edges == e0 + right + below + diagRight;
      if x >= 1 && y + 1 < height {
        var weights := CalculateWeights(image[y][x], image[y + 1][x - 1]);
        edges := edges + [Edge(y * width + x, (y + 1) * width + (x - 1), weights[0], weights[1], weights[2])];
      }
      assert edges == e0 + right + below + diagRight + diagLeft;
    }
  }
}
