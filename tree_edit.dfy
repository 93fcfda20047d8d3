/**
 * The Zhang-Shasha tree edit distance of `tree_edit.cpp` with unit costs.
 *
 * A `Node*` of a tree is represented by its position in the postorder of
 * that tree (what `node2idx` maps it to), so `TreeInfo` keeps the postorder
 * as a sequence of subtrees and `lld` as a sequence of positions. The
 * dynamic programme is specified by `FD`, the value of `forestdist[di][dj]`
 * while the pass whose forests start at positions `a` and `b` runs, and the
 * loops are proved to fill the tables with it.
 */
module TreeEdit {
  import opened Trees

  /** `cost(a, b)`: no cost for equal labels, one for any other pair (the `"-"` cases also cost one). */
  function Cost(a: string, b: string): (r: int)
    ensures 0 <= r <= 1
    ensures r == 0 <==> a == b
  {
    if a == b then 0
    else if a == "-" then 1
    else if b == "-" then 1
    else 1
  }

  /** `std::min({x, y, z})`. */
  function Min3(x: int, y: int, z: int): (r: int)
    ensures r <= x && r <= y && r <= z
    ensures r == x || r == y || r == z
  {
    var m := if y < x then y else x;
    if z < m then z else m
  }

  // ----- Positions in a postorder -----

  lemma {:induction false} ChildrenPrefix(t: Node, k: nat, l: nat)
    requires k <= l <= |t.children|
    ensures |ChildrenPostorder(t, k)| <= |ChildrenPostorder(t, l)|
    ensures ChildrenPostorder(t, k) == ChildrenPostorder(t, l)[..|ChildrenPostorder(t, k)|]
    decreases l
  {
    if k < l {
      ChildrenPrefix(t, k, l - 1);
      var s := ChildrenPostorder(t, l - 1);
      assert ChildrenPostorder(t, l) == s + Postorder(t.children[l - 1]);
      assert ChildrenPostorder(t, l)[..|s|] == s;
    }
  }

  /** The postorder of the `i`-th child sits in the postorder of `t` right after those of the earlier children. */
  lemma ChildSlice(t: Node, i: nat)
    requires i < |t.children|
    ensures |ChildrenPostorder(t, i)| + |Postorder(t.children[i])| == |ChildrenPostorder(t, i + 1)| < |Postorder(t)|
    ensures forall q :: 0 <= q < |Postorder(t.children[i])| ==>
      Postorder(t)[|ChildrenPostorder(t, i)| + q] == Postorder(t.children[i])[q]
  {
    var c := t.children[i];
    var s := ChildrenPostorder(t, i);
    var all := ChildrenPostorder(t, |t.children|);
    ChildrenPrefix(t, i + 1, |t.children|);
    assert ChildrenPostorder(t, i + 1) == s + Postorder(c);
    assert Postorder(t) == all + [t];
    forall q | 0 <= q < |Postorder(c)| ensures Postorder(t)[|s| + q] == Postorder(c)[q] {
      assert all[|s| + q] == ChildrenPostorder(t, i + 1)[|s| + q];
    }
  }

  /** The child whose postorder holds position `p` of the children's postorders. */
  lemma {:induction false} FindChild(t: Node, k: nat, p: int) returns (i: nat)
    requires k <= |t.children| && 0 <= p < |ChildrenPostorder(t, k)|
    ensures i < k && |ChildrenPostorder(t, i)| <= p < |ChildrenPostorder(t, i + 1)|
    decreases k
  {
    if p >= |ChildrenPostorder(t, k - 1)| {
      i := k - 1;
    } else {
      i := FindChild(t, k - 1, p);
    }
  }

  /**
   * The subtree at position `p` of the postorder of `t` occupies the block of
   * `Size` positions ending at `p`, and that block is its own postorder.
   */
  lemma {:induction false} Block(t: Node, p: int)
    requires 0 <= p < |Postorder(t)|
    ensures Size(Postorder(t)[p]) <= p + 1
    ensures Postorder(t)[p + 1 - Size(Postorder(t)[p])..p + 1] == Postorder(Postorder(t)[p])
    decreases t
  {
    SizeIsPostorderLength(t);
    var P := Postorder(t);
    if p == |P| - 1 {
      assert P[p] == t;
      assert p + 1 - Size(P[p]) == 0;
      assert P[0..p + 1] == P;
    } else {
      assert P == ChildrenPostorder(t, |t.children|) + [t];
      var i := FindChild(t, |t.children|, p);
      var c := t.children[i];
      var off := |ChildrenPostorder(t, i)|;
      SizeIsPostorderLength(c);
      var q := p - off;
      assert ChildrenPostorder(t, i + 1) == ChildrenPostorder(t, i) + Postorder(c);
      Block(c, q);
      var u := Postorder(c)[q];
      BlockInChild(t, i, off, q, p, Size(u), Postorder(u));
      assert P[p] == u;
    }
  }

  /** A block `B` of the postorder of child `i`, moved to where that child's postorder sits in `t`'s. */
  lemma BlockInChild(t: Node, i: nat, off: int, q: int, p: int, sz: int, B: seq<Node>)
    requires i < |t.children| && off == |ChildrenPostorder(t, i)| && p == off + q
    requires 0 <= q < |Postorder(t.children[i])| && 0 <= sz <= q + 1
    requires Postorder(t.children[i])[q + 1 - sz..q + 1] == B
    ensures 0 <= p < |Postorder(t)| && Postorder(t)[p] == Postorder(t.children[i])[q]
    ensures Postorder(t)[p + 1 - sz..p + 1] == B
  {
    ChildSlice(t, i);
    BlockStep(Postorder(t), Postorder(t.children[i]), off, p, q, sz, B);
  }

  /** The block of position `q` of `Q`, laid out in `P` from `off` on, is the block of position `off + q` of `P`. */
  lemma BlockStep(P: seq<Node>, Q: seq<Node>, off: int, p: int, q: int, s: int, B: seq<Node>)
    requires 0 <= off && off + |Q| <= |P| && 0 <= q < |Q| && off + q == p && s <= q + 1 && 0 <= s
    requires forall x :: 0 <= x < |Q| ==> P[off + x] == Q[x]
    requires Q[q + 1 - s..q + 1] == B
    ensures 0 <= p < |P| && P[p] == Q[q]
    ensures P[p + 1 - s..p + 1] == B
  {
    var lo, hi := q + 1 - s, q + 1;
    SliceShift(P, Q, off, lo, hi);
    assert off + lo == p + 1 - s && off + hi == p + 1;
  }

  /** A sequence `Q` laid out in `P` from `off` on: each slice of `Q` is the shifted slice of `P`. */
  lemma SliceShift(P: seq<Node>, Q: seq<Node>, off: int, lo: int, hi: int)
    requires 0 <= off && off + |Q| <= |P| && 0 <= lo <= hi <= |Q|
    requires forall x :: 0 <= x < |Q| ==> P[off + x] == Q[x]
    ensures P[off + lo..off + hi] == Q[lo..hi]
  {
    forall x | 0 <= x < hi - lo ensures P[off + lo..off + hi][x] == Q[lo..hi][x] {
      assert P[off + lo..off + hi][x] == P[off + (lo + x)];
    }
  }

  /**
   * The `k`-th child of the subtree at position `p` is at position
   * `p + 1 - Size + ChildrenSize(k + 1) - 1`, before `p`: children come
   * before their parent.
   */
  lemma ChildAt(t: Node, p: int, k: nat)
    requires 0 <= p < |Postorder(t)| && k < |Postorder(t)[p].children|
    ensures var u := Postorder(t)[p];
      var cp := p + 1 - Size(u) + ChildrenSize(u, k + 1) - 1;
      0 <= cp < p && Postorder(t)[cp] == u.children[k]
  {
    var u := Postorder(t)[p];
    Block(t, p);
    var idx := LastOfChild(u, k);
    SliceIndex(Postorder(t), p + 1 - Size(u), p + 1, Postorder(u), idx);
  }

  /** The `k`-th child of `u` closes the postorder of `u`'s first `k + 1` children, before `u` itself. */
  lemma LastOfChild(u: Node, k: nat) returns (idx: int)
    requires k < |u.children|
    ensures idx == ChildrenSize(u, k + 1) - 1
    ensures 0 <= idx < Size(u) - 1 && Size(u) == |Postorder(u)| && Postorder(u)[idx] == u.children[k]
  {
    var c := u.children[k];
    SizeIsPostorderLength(u);
    SizeIsPostorderLength(c);
    ChildrenSizeIsLength(u, k);
    ChildrenSizeIsLength(u, k + 1);
    ChildSlice(u, k);
    idx := ChildrenSize(u, k + 1) - 1;
    assert Postorder(u)[idx] == Postorder(c)[Size(c) - 1] == c;
  }

  /** An element of a slice is the element of the whole sequence at the shifted position. */
  lemma SliceIndex(P: seq<Node>, lo: int, hi: int, B: seq<Node>, x: int)
    requires 0 <= lo <= hi <= |P| && P[lo..hi] == B && 0 <= x < |B|
    ensures P[lo + x] == B[x]
  {
  }

  // ----- Leftmost leaf descendants -----

  /** The leftmost leaf descendant of each position: the first position of its block. */
  function LldSpec(t: Node): (r: seq<int>)
    ensures |r| == |Postorder(t)|
    ensures forall k :: 0 <= k < |r| ==> r[k] == k + 1 - Size(Postorder(t)[k])
  {
    seq(|Postorder(t)|, k requires 0 <= k < |Postorder(t)| => k + 1 - Size(Postorder(t)[k]))
  }

  /**
   * `lld` as the source promises it: never after the node; the node itself
   * for a leaf; for an internal node the `lld` of its first child, which is
   * at the position `lld + Size(first) - 1`.
   */
  lemma LldFacts(t: Node, k: int)
    requires 0 <= k < |Postorder(t)|
    ensures 0 <= LldSpec(t)[k] <= k
    ensures IsLeaf(Postorder(t)[k]) ==> LldSpec(t)[k] == k
    ensures !IsLeaf(Postorder(t)[k]) ==>
      var f := LldSpec(t)[k] + Size(Postorder(t)[k].children[0]) - 1;
      0 <= f < k && Postorder(t)[f] == Postorder(t)[k].children[0] && LldSpec(t)[f] == LldSpec(t)[k]
  {
    var L := LldSpec(t);
    var u := Postorder(t)[k];
    Block(t, k);
    assert L[k] == k + 1 - Size(u);
    if !IsLeaf(u) {
      ChildAt(t, k, 0);
      var c := u.children[0];
      assert ChildrenSize(u, 1) == Size(c);
      var f := L[k] + Size(c) - 1;
      assert Postorder(t)[f] == c;
      assert L[f] == f + 1 - Size(c);
    }
  }

  /** The labels of a postorder. */
  function Labels(p: seq<Node>): (r: seq<string>)
    ensures |r| == |p| && forall k :: 0 <= k < |p| ==> r[k] == p[k].name
  {
    seq(|p|, k requires 0 <= k < |p| => p[k].name)
  }

  /** What the dynamic programme reads of a tree: the labels and the `lld` of each position. */
  datatype Info = Info(labels: seq<string>, lld: seq<int>)

  function InfoOf(t: Node): Info {
    Info(Labels(Postorder(t)), LldSpec(t))
  }

  /** Every position of `[a, d)` has its `lld` in `[a, its own position]`: `[a, d)` is a forest of the tree. */
  ghost predicate Covers(A: Info, a: int, d: int) {
    0 <= a <= d <= |A.lld| && forall c :: a <= c < d ==> a <= A.lld[c] <= c
  }

  /** The blocks `[lld[k], k]` are nested: the `lld` of a tree in postorder. */
  ghost predicate Nested(A: Info) {
    |A.labels| == |A.lld| && forall k :: 0 <= k < |A.lld| ==> A.lld[k] <= k && Covers(A, A.lld[k], k + 1)
  }

  lemma LldCovers(t: Node, k: int)
    requires 0 <= k < |Postorder(t)|
    ensures Covers(InfoOf(t), LldSpec(t)[k], k + 1)
  {
    var P := Postorder(t);
    var L := LldSpec(t);
    var u := P[k];
    var s := Size(u);
    Block(t, k);
    SizeIsPostorderLength(u);
    forall c | k + 1 - s <= c < k + 1 ensures k + 1 - s <= L[c] <= c {
      var c' := c - (k + 1 - s);
      assert P[c] == Postorder(u)[c'];
      Block(u, c');
    }
    assert InfoOf(t).lld == L;
  }

  /** The `lld` of a tree is nested, and the root's is the first position. */
  lemma InfoNested(t: Node)
    ensures Nested(InfoOf(t))
    ensures InfoOf(t).lld[|Postorder(t)| - 1] == 0
  {
    SizeIsPostorderLength(t);
    forall k | 0 <= k < |Postorder(t)| ensures LldSpec(t)[k] <= k && Covers(InfoOf(t), LldSpec(t)[k], k + 1) {
      LldFacts(t, k);
      LldCovers(t, k);
    }
  }

  // ----- The dynamic programme -----

  /** `[a, d)` and `[b, e)` are ranges of positions of the two trees, whose labels and `lld` line up. */
  predicate InRange(A: Info, B: Info, a: int, b: int, d: int, e: int) {
    |A.labels| == |A.lld| && |B.labels| == |B.lld| && 0 <= a <= d <= |A.lld| && 0 <= b <= e <= |B.lld|
  }

  /**
   * `forestdist[di][dj]` in the pass whose forests start at `a` and `b`: the
   * distance from the forest of positions `a .. di-1` of the first tree to
   * the forest `b .. dj-1` of the second. Empty against empty is 0; the
   * column `b` counts deletions and the row `a` insertions; an interior cell
   * is the least of a deletion, an insertion and, when both last positions
   * are trees of the pass, their substitution, otherwise the forest before
   * both subtrees plus the distance of the two subtrees (`treedist`). The
   * value 0 outside the ranges, or when an `lld` leaves the forest, is never
   * reached from the `lld` of a tree (see `Nested`).
   */
  function FD(A: Info, B: Info, a: int, b: int, di: int, dj: int): (r: int)
    ensures r >= 0
    decreases di + dj, (di - a) + (dj - b), 1
  {
    if !InRange(A, B, a, b, di, dj) then 0
    else if di == a && dj == b then 0
    else if dj == b then FD(A, B, a, b, di - 1, dj) + 1
    else if di == a then FD(A, B, a, b, di, dj - 1) + 1
    else Cell(A, B, a, b, di, dj)
  }

  /** An interior cell: `min(del, ins, sub)` or `min(del, ins, tree)`. */
  function Cell(A: Info, B: Info, a: int, b: int, di: int, dj: int): (r: int)
    requires InRange(A, B, a, b, di, dj) && a < di && b < dj
    ensures r >= 0
    decreases di + dj, (di - a) + (dj - b), 0
  {
    var ci, cj := di - 1, dj - 1;
    var del := FD(A, B, a, b, ci, dj) + 1;
    var ins := FD(A, B, a, b, di, cj) + 1;
    if A.lld[ci] == a && B.lld[cj] == b then
      Min3(del, ins, FD(A, B, a, b, ci, cj) + Cost(A.labels[ci], B.labels[cj]))
    else if a <= A.lld[ci] <= ci && b <= B.lld[cj] <= cj then
      Min3(del, ins, FD(A, B, a, b, A.lld[ci], B.lld[cj]) + FD(A, B, A.lld[ci], B.lld[cj], di, dj))
    else 0
  }

  /** `treedist[x][y]`: the distance between the subtrees at `x` and `y`. */
  function TD(A: Info, B: Info, x: int, y: int): int
    requires 0 <= x < |A.lld| && 0 <= y < |B.lld|
  {
    FD(A, B, A.lld[x], B.lld[y], x + 1, y + 1)
  }

  /** The tree edit distance that `treeEditDistance` returns: `treedist` at the two roots. */
  function Distance(t1: Node, t2: Node): int {
    TD(InfoOf(t1), InfoOf(t2), |Postorder(t1)| - 1, |Postorder(t2)| - 1)
  }

  /** The deletion column: `forestdist[di][b] == di - a`. */
  lemma {:induction false} DeletionColumn(A: Info, B: Info, a: int, b: int, di: int)
    requires Nested(A) && Nested(B) && Covers(A, a, di) && Covers(B, b, b)
    ensures FD(A, B, a, b, di, b) == di - a
    decreases di
  {
    if di > a {
      DeletionColumn(A, B, a, b, di - 1);
    }
  }

  /** The insertion row: `forestdist[a][dj] == dj - b`. */
  lemma {:induction false} InsertionRow(A: Info, B: Info, a: int, b: int, dj: int)
    requires Nested(A) && Nested(B) && Covers(A, a, a) && Covers(B, b, dj)
    ensures FD(A, B, a, b, a, dj) == dj - b
    decreases dj
  {
    if dj > b {
      InsertionRow(A, B, a, b, dj - 1);
    }
  }

  /** Every cell is at most one more than the cell above it and the cell left of it. */
  lemma Neighbours(A: Info, B: Info, a: int, b: int, di: int, dj: int)
    requires Nested(A) && Nested(B) && Covers(A, a, di) && Covers(B, b, dj)
    ensures di > a ==> FD(A, B, a, b, di, dj) <= FD(A, B, a, b, di - 1, dj) + 1
    ensures dj > b ==> FD(A, B, a, b, di, dj) <= FD(A, B, a, b, di, dj - 1) + 1
  {
  }

  /** Deleting every node of one forest and inserting every node of the other bounds the distance. */
  lemma {:induction false} UpperBound(A: Info, B: Info, a: int, b: int, di: int, dj: int)
    requires Nested(A) && Nested(B) && Covers(A, a, di) && Covers(B, b, dj)
    ensures FD(A, B, a, b, di, dj) <= (di - a) + (dj - b)
    decreases di + dj
  {
    Neighbours(A, B, a, b, di, dj);
    if di > a {
      UpperBound(A, B, a, b, di - 1, dj);
    } else if dj > b {
      UpperBound(A, B, a, b, di, dj - 1);
    }
  }

  function Abs(x: int): int {
    if x < 0 then -x else x
  }

  /** Every edit changes the size of a forest by at most one, so the distance is at least the difference of sizes. */
  lemma {:induction false} LowerBound(A: Info, B: Info, a: int, b: int, di: int, dj: int)
    requires Nested(A) && Nested(B) && Covers(A, a, di) && Covers(B, b, dj)
    ensures FD(A, B, a, b, di, dj) >= Abs((di - a) - (dj - b))
    decreases di + dj, (di - a) + (dj - b), 1
  {
    if di == a && dj == b {
    } else if dj == b {
      LowerBound(A, B, a, b, di - 1, dj);
    } else if di == a {
      LowerBound(A, B, a, b, di, dj - 1);
    } else {
      LowerCell(A, B, a, b, di, dj);
    }
  }

  lemma {:induction false} LowerCell(A: Info, B: Info, a: int, b: int, di: int, dj: int)
    requires Nested(A) && Nested(B) && Covers(A, a, di) && Covers(B, b, dj) && a < di && b < dj
    ensures Cell(A, B, a, b, di, dj) >= Abs((di - a) - (dj - b))
    decreases di + dj, (di - a) + (dj - b), 0
  {
    var ci, cj := di - 1, dj - 1;
    LowerBound(A, B, a, b, ci, dj);
    LowerBound(A, B, a, b, di, cj);
    var la, lb := A.lld[ci], B.lld[cj];
    assert a <= la <= ci && b <= lb <= cj;
    if la == a && lb == b {
      LowerBound(A, B, a, b, ci, cj);
    } else {
      assert Covers(A, la, ci + 1) && Covers(B, lb, cj + 1);
      LowerBound(A, B, a, b, la, lb);
      LowerBound(A, B, la, lb, di, dj);
      Triangle((la - a) - (lb - b), (di - la) - (dj - lb));
    }
  }

  lemma Triangle(x: int, y: int)
    ensures Abs(x) + Abs(y) >= Abs(x + y)
  {
  }

  /** A forest is at distance 0 from itself. */
  lemma {:induction false} SelfZero(A: Info, a: int, d: int)
    requires Nested(A) && Covers(A, a, d)
    ensures FD(A, A, a, a, d, d) == 0
    decreases d - a
  {
    if d > a {
      var c := d - 1;
      if A.lld[c] == a {
        SelfZero(A, a, c);
      } else {
        SelfZero(A, a, A.lld[c]);
        SelfZero(A, A.lld[c], d);
      }
    }
  }

  /** Exchanging the two trees transposes every table. */
  lemma {:induction false} Symmetric(A: Info, B: Info, a: int, b: int, di: int, dj: int)
    ensures FD(A, B, a, b, di, dj) == FD(B, A, b, a, dj, di)
    decreases di + dj, (di - a) + (dj - b)
  {
    if InRange(A, B, a, b, di, dj) && !(di == a && dj == b) {
      if dj == b {
        Symmetric(A, B, a, b, di - 1, dj);
      } else if di == a {
        Symmetric(A, B, a, b, di, dj - 1);
      } else {
        var ci, cj := di - 1, dj - 1;
        Symmetric(A, B, a, b, ci, dj);
        Symmetric(A, B, a, b, di, cj);
        if A.lld[ci] == a && B.lld[cj] == b {
          Symmetric(A, B, a, b, ci, cj);
        } else if a <= A.lld[ci] <= ci && b <= B.lld[cj] <= cj {
          Symmetric(A, B, a, b, A.lld[ci], B.lld[cj]);
          Symmetric(A, B, A.lld[ci], B.lld[cj], di, dj);
        }
      }
    }
  }

  /** The distance from a tree to itself is 0. */
  lemma DistanceSelf(t: Node)
    ensures Distance(t, t) == 0
  {
    InfoNested(t);
    SelfZero(InfoOf(t), 0, |Postorder(t)|);
  }

  /** The distance does not depend on the order of the two trees. */
  lemma DistanceSymmetric(t1: Node, t2: Node)
    ensures Distance(t1, t2) == Distance(t2, t1)
  {
    InfoNested(t1);
    InfoNested(t2);
    Symmetric(InfoOf(t1), InfoOf(t2), 0, 0, |Postorder(t1)|, |Postorder(t2)|);
  }

  /** The distance lies between the difference and the sum of the node counts. */
  lemma DistanceBounds(t1: Node, t2: Node)
    ensures Abs(Size(t1) - Size(t2)) <= Distance(t1, t2) <= Size(t1) + Size(t2)
  {
    InfoNested(t1);
    InfoNested(t2);
    SizeIsPostorderLength(t1);
    SizeIsPostorderLength(t2);
    LowerBound(InfoOf(t1), InfoOf(t2), 0, 0, |Postorder(t1)|, |Postorder(t2)|);
    UpperBound(InfoOf(t1), InfoOf(t2), 0, 0, |Postorder(t1)|, |Postorder(t2)|);
  }

  // ----- buildTreeInfo -----

  /** The postorder and the `lld` of one tree (`idx2node` is the postorder itself; `node2idx` is the position). */
  class TreeInfo {
    var postorder: seq<Node>
    var lld: seq<int>

    constructor ()
      ensures postorder == [] && lld == []
    {
      postorder := [];
      lld := [];
    }

    /** `computePostorder`: the children's postorders, left to right, then the node, appended. */
    method ComputePostorder(node: Node)
      modifies this
      ensures postorder == old(postorder) + Postorder(node) && lld == old(lld)
      decreases node
    {
      var k := 0;
      while k < |node.children|
        invariant 0 <= k <= |node.children|
        invariant postorder == old(postorder) + ChildrenPostorder(node, k) && lld == old(lld)
      {
        ComputePostorder(node.children[k]);
        k := k + 1;
      }
      postorder := postorder + [node];
    }
  }

  /** The `lld` of positions `base + lo .. base + hi - 1` of the subtree at `base` are in `r`. */
  ghost predicate LldWritten(r: map<int, int>, t: Node, base: int, lo: int, hi: int) {
    0 <= lo && hi <= |Postorder(t)| &&
    forall k :: base + lo <= k < base + hi ==> k in r && r[k] == base + LldSpec(t)[k - base]
  }

  /** `r` agrees with `m` outside the block of `n` positions from `base`, and has no other new key. */
  ghost predicate KeptOutside(r: map<int, int>, m: map<int, int>, base: int, n: int) {
    (forall k :: k in r ==> k in m || base <= k < base + n) &&
    (forall k :: k in m && !(base <= k < base + n) ==> k in r && r[k] == m[k])
  }

  /** The `lld` of the `i`-th child's block, shifted by its offset, is the `lld` of the same positions in `t`. */
  lemma ChildLld(t: Node, i: nat, base: int, r: map<int, int>)
    requires i < |t.children|
    requires LldWritten(r, t.children[i], base + |ChildrenPostorder(t, i)|, 0, |Postorder(t.children[i])|)
    ensures |ChildrenPostorder(t, i + 1)| < |Postorder(t)|
    ensures LldWritten(r, t, base, |ChildrenPostorder(t, i)|, |ChildrenPostorder(t, i + 1)|)
  {
    var c := t.children[i];
    var off := |ChildrenPostorder(t, i)|;
    ChildSlice(t, i);
    forall k | base + off <= k < base + off + |Postorder(c)|
      ensures k in r && r[k] == base + LldSpec(t)[k - base]
    {
      var q := k - base - off;
      assert Postorder(t)[off + q] == Postorder(c)[q];
    }
  }

  /** The `lld` of the last position of a subtree is its first position. */
  lemma LldRoot(t: Node)
    ensures LldSpec(t)[|Postorder(t)| - 1] == 0
  {
    SizeIsPostorderLength(t);
  }

  lemma KeptTrans(r2: map<int, int>, r1: map<int, int>, m: map<int, int>, base: int, n: int, b1: int, n1: int)
    requires KeptOutside(r2, r1, b1, n1) && KeptOutside(r1, m, base, n) && base <= b1 && b1 + n1 <= base + n
    ensures KeptOutside(r2, m, base, n)
  {
  }

  /** The leaf case: `lld_map[node] = node2idx[node]`. */
  lemma LeafPart(node: Node, base: int, m: map<int, int>)
    requires |node.children| == 0
    ensures Size(node) == |Postorder(node)| == 1
    ensures LldWritten(m[base := base], node, base, 0, 1)
    ensures KeptOutside(m[base := base], m, base, 1)
  {
    SizeIsPostorderLength(node);
    LldRoot(node);
  }

  /** The first child's block is a proper prefix of its parent's. */
  lemma FirstSizes(node: Node)
    requires |node.children| > 0
    ensures Size(node) == |Postorder(node)| && Size(node.children[0]) == |Postorder(node.children[0])| < Size(node)
  {
    SizeIsPostorderLength(node);
    SizeIsPostorderLength(node.children[0]);
    ChildrenPrefix(node, 1, |node.children|);
    assert ChildrenPostorder(node, 1) == Postorder(node.children[0]);
    assert Postorder(node) == ChildrenPostorder(node, |node.children|) + [node];
  }

  /** The entry of a subtree's root in a map holding the subtree's `lld` is the subtree's first position. */
  lemma RootEntry(t: Node, base: int, r: map<int, int>)
    requires LldWritten(r, t, base, 0, |Postorder(t)|)
    ensures base + |Postorder(t)| - 1 in r && r[base + |Postorder(t)| - 1] == base
  {
    LldRoot(t);
    var k := base + |Postorder(t)| - 1;
    assert k in r && r[k] == base + LldSpec(t)[k - base];
  }

  /** Writing `base` at the root's position writes the root's `lld` and keeps the rest. */
  lemma RootWrite(t: Node, base: int, m: map<int, int>, r: map<int, int>, n: int)
    requires KeptOutside(r, m, base, n) && 0 <= n < |Postorder(t)|
    ensures LldWritten(r[base + |Postorder(t)| - 1 := base], t, base, |Postorder(t)| - 1, |Postorder(t)|)
    ensures KeptOutside(r[base + |Postorder(t)| - 1 := base], m, base, |Postorder(t)|)
  {
    LldRoot(t);
  }

  /** The internal case: after the first child, `lld_map[node] = lld_map[first]`, which is `base`. */
  lemma FirstPart(node: Node, base: int, m: map<int, int>, r: map<int, int>)
    requires |node.children| > 0
    requires LldWritten(r, node.children[0], base, 0, |Postorder(node.children[0])|)
    requires KeptOutside(r, m, base, |Postorder(node.children[0])|)
    ensures Size(node) == |Postorder(node)| && Size(node.children[0]) == |Postorder(node.children[0])| < Size(node)
    ensures base + |Postorder(node.children[0])| - 1 in r && r[base + |Postorder(node.children[0])| - 1] == base
    ensures LldWritten(r[base + |Postorder(node)| - 1 := base], node, base, |Postorder(node)| - 1, |Postorder(node)|)
    ensures KeptOutside(r[base + |Postorder(node)| - 1 := base], m, base, |Postorder(node)|)
  {
    FirstSizes(node);
    RootEntry(node.children[0], base, r);
    RootWrite(node, base, m, r, |Postorder(node.children[0])|);
  }

  /** One turn of the loop over the children: the `i`-th child's block joins the written prefix. */
  lemma ChildrenStep(node: Node, i: nat, base: int, m: map<int, int>, r0: map<int, int>, r: map<int, int>)
    requires i < |node.children|
    requires LldWritten(r0, node, base, 0, |ChildrenPostorder(node, i)|)
    requires LldWritten(r0, node, base, |Postorder(node)| - 1, |Postorder(node)|)
    requires KeptOutside(r0, m, base, |Postorder(node)|)
    requires LldWritten(r, node.children[i], base + |ChildrenPostorder(node, i)|, 0, |Postorder(node.children[i])|)
    requires KeptOutside(r, r0, base + |ChildrenPostorder(node, i)|, |Postorder(node.children[i])|)
    ensures LldWritten(r, node, base, 0, |ChildrenPostorder(node, i + 1)|)
    ensures LldWritten(r, node, base, |Postorder(node)| - 1, |Postorder(node)|)
    ensures KeptOutside(r, m, base, |Postorder(node)|)
  {
    ChildLld(node, i, base, r);
  }

  /**
   * `computeLLD(node, info, lld_map)` on the subtree whose postorder starts
   * at `base`: a leaf's `lld` is its own position, an internal node's is its
   * first child's (computed first), and then every child is computed (the
   * first one again). The map gains the block's entries and keeps the rest.
   */
  method ComputeLLD(node: Node, base: int, m: map<int, int>) returns (r: map<int, int>)
    ensures LldWritten(r, node, base, 0, |Postorder(node)|)
    ensures KeptOutside(r, m, base, |Postorder(node)|)
    decreases node, 1
  {
    var pos := base + Size(node) - 1;
    var r1;
    if |node.children| == 0 {
      LeafPart(node, base, m);
      r1 := m[pos := pos];
    } else {
      var first := node.children[0];
      r1 := ComputeLLD(first, base, m);
      FirstPart(node, base, m, r1);
      r1 := r1[pos := r1[base + Size(first) - 1]];
    }
    r := ComputeChildren(node, base, r1);
    KeptTrans(r, r1, m, base, |Postorder(node)|, base, |Postorder(node)|);
  }

  /** The loop `for (child : node->children) computeLLD(child, ...)`. */
  method ComputeChildren(node: Node, base: int, m: map<int, int>) returns (r: map<int, int>)
    requires LldWritten(m, node, base, |Postorder(node)| - 1, |Postorder(node)|)
    ensures LldWritten(r, node, base, 0, |Postorder(node)|)
    ensures KeptOutside(r, m, base, |Postorder(node)|)
    decreases node, 0
  {
    r := m;
    var idx := 0;
    while idx < |node.children|
      invariant 0 <= idx <= |node.children|
      invariant LldWritten(r, node, base, 0, |ChildrenPostorder(node, idx)|)
      invariant LldWritten(r, node, base, |Postorder(node)| - 1, |Postorder(node)|)
      invariant KeptOutside(r, m, base, |Postorder(node)|)
    {
      ChildrenSizeIsLength(node, idx);
      var r0 := r;
      r := ComputeLLD(node.children[idx], base + ChildrenSize(node, idx), r);
      ChildrenStep(node, idx, base, m, r0, r);
      idx := idx + 1;
    }
    assert Postorder(node) == ChildrenPostorder(node, |node.children|) + [node];
  }

  /** `buildTreeInfo`: the postorder, then `lld` resized and copied from the map `computeLLD` fills. */
  method BuildTreeInfo(root: Option<Node>) returns (info: TreeInfo)
    ensures fresh(info)
    ensures root.None? ==> info.postorder == [] && info.lld == []
    ensures root.Some? ==> info.postorder == Postorder(root.value) && info.lld == LldSpec(root.value)
  {
    info := new TreeInfo();
    if root.Some? {
      info.ComputePostorder(root.value);
    }
    info.lld := seq(|info.postorder|, _ => 0);
    var lldMap: map<int, int> := map[];
    if root.Some? {
      lldMap := ComputeLLD(root.value, 0, lldMap);
      WrittenAll(lldMap, root.value);
      CopyLld(info, lldMap, LldSpec(root.value));
    } else {
      CopyLld(info, lldMap, []);
    }
  }

  lemma WrittenAll(r: map<int, int>, t: Node)
    requires LldWritten(r, t, 0, 0, |Postorder(t)|)
    ensures forall k :: 0 <= k < |LldSpec(t)| ==> k in r && r[k] == LldSpec(t)[k]
  {
  }

  /** The loop `info.lld[i] = lld_map[info.postorder[i]]`. */
  method CopyLld(info: TreeInfo, lldMap: map<int, int>, ghost L: seq<int>)
    requires |info.lld| == |info.postorder| == |L|
    requires forall k :: 0 <= k < |L| ==> k in lldMap && lldMap[k] == L[k]
    modifies info
    ensures info.postorder == old(info.postorder) && info.lld == L
  {
    var i := 0;
    while i < |info.postorder|
      invariant info.postorder == old(info.postorder)
      invariant 0 <= i <= |info.postorder| && |info.lld| == |info.postorder|
      invariant forall k :: 0 <= k < i ==> info.lld[k] == L[k]
    {
      info.lld := info.lld[i := lldMap[i]];
      i := i + 1;
    }
  }

  // ----- treeEditDistance -----

  /** The cells of rows `x0 .. x1-1` and columns `y0 .. y1-1` of a `forestdist` table hold `FD` of the pass at `a`, `b`. */
  ghost predicate Filled(A: Info, B: Info, a: int, b: int, fd: array2<int>, x0: int, x1: int, y0: int, y1: int)
    reads fd
  {
    fd.Length0 == |A.lld| + 1 && fd.Length1 == |B.lld| + 1 &&
    0 <= x0 && x1 <= fd.Length0 && 0 <= y0 && y1 <= fd.Length1 &&
    forall x, y :: x0 <= x < x1 && y0 <= y < y1 ==> fd[x, y] == FD(A, B, a, b, x, y)
  }

  /** The `treedist` cells before `(i, j)`, in the order of the passes, hold `TD`. */
  ghost predicate Done(A: Info, B: Info, td: array2<int>, i: int, j: int)
    reads td
  {
    td.Length0 == |A.lld| && td.Length1 == |B.lld| &&
    forall x, y :: 0 <= x < |A.lld| && 0 <= y < |B.lld| && (x < i || (x == i && y < j)) ==> td[x, y] == TD(A, B, x, y)
  }

  /** The `treedist` cells the pass `(i, j)` writes: the subtrees of its forests whose `lld` is the forests' start. */
  ghost predicate Hit(A: Info, B: Info, i: int, j: int, x: int, y: int) {
    0 <= i < |A.lld| && 0 <= j < |B.lld| && 0 <= x < |A.lld| && 0 <= y < |B.lld| &&
    A.lld[x] == A.lld[i] && B.lld[y] == B.lld[j] && A.lld[i] <= x <= i && B.lld[j] <= y <= j
  }

  /** A cell whose two last positions start at the forests' starts: `min(del, ins, sub)`, which is `TD` of the two. */
  lemma MatchCell(A: Info, B: Info, a: int, b: int, di: int, dj: int)
    requires InRange(A, B, a, b, di, dj) && a < di && b < dj && A.lld[di - 1] == a && B.lld[dj - 1] == b
    ensures FD(A, B, a, b, di, dj) == TD(A, B, di - 1, dj - 1)
    ensures FD(A, B, a, b, di, dj) == Min3(FD(A, B, a, b, di - 1, dj) + 1, FD(A, B, a, b, di, dj - 1) + 1,
                                           FD(A, B, a, b, di - 1, dj - 1) + Cost(A.labels[di - 1], B.labels[dj - 1]))
  {
  }

  /** Any other interior cell: `min(del, ins, tree)`, where `treedist` of the two last positions was filled by an earlier pass. */
  lemma TreeCell(A: Info, B: Info, i: int, j: int, di: int, dj: int)
    requires Nested(A) && Nested(B) && 0 <= i < |A.lld| && 0 <= j < |B.lld|
    requires A.lld[i] < di <= i + 1 && B.lld[j] < dj <= j + 1
    requires !(A.lld[di - 1] == A.lld[i] && B.lld[dj - 1] == B.lld[j])
    ensures A.lld[i] <= A.lld[di - 1] <= di - 1 && B.lld[j] <= B.lld[dj - 1] <= dj - 1
    ensures di - 1 < i || (di - 1 == i && dj - 1 < j)
    ensures FD(A, B, A.lld[i], B.lld[j], di, dj) ==
            Min3(FD(A, B, A.lld[i], B.lld[j], di - 1, dj) + 1, FD(A, B, A.lld[i], B.lld[j], di, dj - 1) + 1,
                 FD(A, B, A.lld[i], B.lld[j], A.lld[di - 1], B.lld[dj - 1]) + TD(A, B, di - 1, dj - 1))
  {
    assert Covers(A, A.lld[i], i + 1);
    assert Covers(B, B.lld[j], j + 1);
  }

  /** The `treedist` cells differ from `old` only at cells of the pass `(i, j)`, which hold `TD`. */
  twostate predicate WroteHits(A: Info, B: Info, i: int, j: int, td: array2<int>)
    reads td
  {
    forall x, y :: 0 <= x < td.Length0 && 0 <= y < td.Length1 ==>
      td[x, y] == old(td[x, y]) || (Hit(A, B, i, j, x, y) && td[x, y] == TD(A, B, x, y))
  }

  /** One interior cell `forestdist[di][dj]` of the pass `(i, j)`, and `treedist[di-1][dj-1]` when it is a substitution. */
  method CellStep(A: Info, B: Info, i: int, j: int, di: int, dj: int, fd: array2<int>, td: array2<int>)
    requires Nested(A) && Nested(B) && 0 <= i < |A.lld| && 0 <= j < |B.lld|
    requires A.lld[i] < di <= i + 1 && B.lld[j] < dj <= j + 1
    requires fd != td && Done(A, B, td, i, j)
    requires Filled(A, B, A.lld[i], B.lld[j], fd, A.lld[i], di, B.lld[j], j + 2)
    requires Filled(A, B, A.lld[i], B.lld[j], fd, di, di + 1, B.lld[j], dj)
    modifies fd, td
    ensures fd[di, dj] == FD(A, B, A.lld[i], B.lld[j], di, dj)
    ensures forall x, y :: 0 <= x < fd.Length0 && 0 <= y < fd.Length1 && (x != di || y != dj) ==> fd[x, y] == old(fd[x, y])
    ensures Done(A, B, td, i, j) && WroteHits(A, B, i, j, td)
    ensures di == i + 1 && dj == j + 1 ==> td[i, j] == TD(A, B, i, j)
  {
    var ci, cj := di - 1, dj - 1;
    var minc := CellValue(A, B, i, j, di, dj, fd, td);
    fd[di, dj] := minc;
    if A.lld[ci] == A.lld[i] && B.lld[cj] == B.lld[j] {
      td[ci, cj] := minc;
    }
  }

  /**
   * The value of the interior cell `forestdist[di][dj]`: the least of a
   * deletion, an insertion and a substitution or a subtree step. On a
   * substitution it is also `treedist[di-1][dj-1]`.
   */
  method CellValue(A: Info, B: Info, i: int, j: int, di: int, dj: int, fd: array2<int>, td: array2<int>)
    returns (minc: int)
    requires Nested(A) && Nested(B) && 0 <= i < |A.lld| && 0 <= j < |B.lld|
    requires A.lld[i] < di <= i + 1 && B.lld[j] < dj <= j + 1
    requires Done(A, B, td, i, j)
    requires Filled(A, B, A.lld[i], B.lld[j], fd, A.lld[i], di, B.lld[j], j + 2)
    requires Filled(A, B, A.lld[i], B.lld[j], fd, di, di + 1, B.lld[j], dj)
    ensures minc == FD(A, B, A.lld[i], B.lld[j], di, dj)
    ensures A.lld[di - 1] == A.lld[i] && B.lld[dj - 1] == B.lld[j] ==> minc == TD(A, B, di - 1, dj - 1)
  {
    var a, b := A.lld[i], B.lld[j];
    var ci, cj := di - 1, dj - 1;
    var del := fd[di - 1, dj] + 1;
    var ins := fd[di, dj - 1] + 1;
    if A.lld[ci] == a && B.lld[cj] == b {
      MatchCell(A, B, a, b, di, dj);
      minc := Min3(del, ins, fd[di - 1, dj - 1] + Cost(A.labels[ci], B.labels[cj]));
    } else {
      TreeCell(A, B, i, j, di, dj);
      minc := Min3(del, ins, fd[A.lld[ci], B.lld[cj]] + td[ci, cj]);
    }
  }

  /**
   * The interior cells of row `di` of the pass `(i, j)`: each is the least of
   * a deletion, an insertion and a substitution (which also fills
   * `treedist`) or a subtree step (which reads it).
   */
  method RowPass(A: Info, B: Info, i: int, j: int, di: int, fd: array2<int>, td: array2<int>)
    requires Nested(A) && Nested(B) && 0 <= i < |A.lld| && 0 <= j < |B.lld| && A.lld[i] < di <= i + 1
    requires fd != td && Done(A, B, td, i, j)
    requires Filled(A, B, A.lld[i], B.lld[j], fd, A.lld[i], di, B.lld[j], j + 2)
    requires Filled(A, B, A.lld[i], B.lld[j], fd, di, i + 2, B.lld[j], B.lld[j] + 1)
    modifies fd, td
    ensures Filled(A, B, A.lld[i], B.lld[j], fd, A.lld[i], di + 1, B.lld[j], j + 2)
    ensures Filled(A, B, A.lld[i], B.lld[j], fd, di + 1, i + 2, B.lld[j], B.lld[j] + 1)
    ensures Done(A, B, td, i, j) && WroteHits(A, B, i, j, td)
    ensures di == i + 1 ==> td[i, j] == TD(A, B, i, j)
  {
    var a, b := A.lld[i], B.lld[j];
    for dj := b + 1 to j + 2
      invariant Filled(A, B, a, b, fd, a, di, b, j + 2)
      invariant Filled(A, B, a, b, fd, di, di + 1, b, dj)
      invariant Filled(A, B, a, b, fd, di + 1, i + 2, b, b + 1)
      invariant Done(A, B, td, i, j) && WroteHits(A, B, i, j, td)
      invariant di == i + 1 && dj > j + 1 ==> td[i, j] == TD(A, B, i, j)
    {
      CellStep(A, B, i, j, di, dj, fd, td);
    }
  }

  /**
   * One pass `(i, j)` of the double loop of `treeEditDistance`: a fresh
   * zero `forestdist`, its deletion column and insertion row from
   * `(lld[i], lld[j])`, then the interior rows up to `(i + 1, j + 1)`.
   */
  method ForestPass(A: Info, B: Info, i: int, j: int, td: array2<int>) returns (fd: array2<int>)
    requires Nested(A) && Nested(B) && 0 <= i < |A.lld| && 0 <= j < |B.lld|
    requires Done(A, B, td, i, j)
    modifies td
    ensures fresh(fd)
    ensures Filled(A, B, A.lld[i], B.lld[j], fd, A.lld[i], i + 2, B.lld[j], j + 2)
    ensures Done(A, B, td, i, j + 1) && WroteHits(A, B, i, j, td)
  {
    var a, b := A.lld[i], B.lld[j];
    fd := new int[|A.lld| + 1, |B.lld| + 1]((_, _) => 0);
    fd[a, b] := 0;
    for di := a + 1 to i + 2
      invariant Filled(A, B, a, b, fd, a, di, b, b + 1)
      invariant unchanged(td)
    {
      fd[di, b] := fd[di - 1, b] + 1;
    }
    for dj := b + 1 to j + 2
      invariant Filled(A, B, a, b, fd, a, a + 1, b, dj)
      invariant Filled(A, B, a, b, fd, a, i + 2, b, b + 1)
      invariant unchanged(td)
    {
      fd[a, dj] := fd[a, dj - 1] + 1;
    }
    for di := a + 1 to i + 2
      invariant Filled(A, B, a, b, fd, a, di, b, j + 2)
      invariant Filled(A, B, a, b, fd, di, i + 2, b, b + 1)
      invariant Done(A, B, td, i, j) && WroteHits(A, B, i, j, td)
      invariant di > i + 1 ==> td[i, j] == TD(A, B, i, j)
    {
      RowPass(A, B, i, j, di, fd, td);
    }
  }

  /**
   * `treeEditDistance(t1, t2)`: a pass for every pair of positions, in
   * order, then `treedist` at the two roots, which is `Distance`.
   */
  method TreeEditDistance(t1: Node, t2: Node) returns (result: int)
    ensures result == Distance(t1, t2)
  {
    var T1 := BuildTreeInfo(Some(t1));
    var T2 := BuildTreeInfo(Some(t2));
    var n, m := |T1.postorder|, |T2.postorder|;
    var A := Info(Labels(T1.postorder), T1.lld);
    var B := Info(Labels(T2.postorder), T2.lld);
    assert A == InfoOf(t1) && B == InfoOf(t2);
    InfoNested(t1);
    InfoNested(t2);
    var td := new int[n, m]((_, _) => 0);
    for i := 0 to n
      invariant Done(A, B, td, i, 0)
    {
      for j := 0 to m
        invariant Done(A, B, td, i, j)
      {
        var _ := ForestPass(A, B, i, j, td);
      }
    }
    result := td[n - 1, m - 1];
  }

  // ----- getTreeMatrix -----

  /** The positions `lo, lo + 1, .., hi - 1`, once each. */
  function Span(lo: int, hi: int): (r: multiset<int>)
    ensures |r| == if lo <= hi then hi - lo else 0
    decreases hi - lo
  {
    if hi <= lo then multiset{} else Span(lo, hi - 1) + multiset{hi - 1}
  }

  lemma {:induction false} SpanCount(lo: int, hi: int, x: int)
    ensures Span(lo, hi)[x] == if lo <= x < hi then 1 else 0
    decreases hi - lo
  {
    if lo < hi {
      SpanCount(lo, hi - 1, x);
    }
  }

  lemma Assoc(a: multiset<int>, b: multiset<int>, c: multiset<int>)
    ensures (a + b) + c == a + (b + c)
  {
  }

  lemma {:induction false} SpanSplit(lo: int, mid: int, hi: int)
    requires lo <= mid <= hi
    ensures Span(lo, hi) == Span(lo, mid) + Span(mid, hi)
    decreases hi - mid
  {
    if mid < hi {
      SpanSplit(lo, mid, hi - 1);
      Assoc(Span(lo, mid), Span(mid, hi - 1), multiset{hi - 1});
    }
  }

  /** The positions below a queued node: its block without itself. */
  function Below(u: Node, p: int): multiset<int> {
    Span(p + 1 - Size(u), p)
  }

  /** The positions below the queued nodes, all together. */
  function Pending(q: seq<(Node, int)>): multiset<int>
    decreases |q|
  {
    if q == [] then multiset{} else Pending(q[..|q| - 1]) + Below(q[|q| - 1].0, q[|q| - 1].1)
  }

  lemma {:induction false} PendingFront(q: seq<(Node, int)>)
    requires |q| > 0
    ensures Pending(q) == Below(q[0].0, q[0].1) + Pending(q[1..])
    decreases |q|
  {
    var q', r := q[..|q| - 1], q[1..];
    if |q| == 1 {
      assert q' == [] && r == [];
    } else {
      assert q'[0] == q[0] && r[..|r| - 1] == q'[1..] && r[|r| - 1] == q[|q| - 1];
      calc {
        Pending(q);
        Pending(q') + Below(q[|q| - 1].0, q[|q| - 1].1);
        { PendingFront(q'); }
        Below(q[0].0, q[0].1) + Pending(q'[1..]) + Below(q[|q| - 1].0, q[|q| - 1].1);
        Below(q[0].0, q[0].1) + (Pending(q'[1..]) + Below(q[|q| - 1].0, q[|q| - 1].1));
        Below(q[0].0, q[0].1) + Pending(r);
      }
    }
  }

  /** The child ends of the lines: `(parent, child index, child)` positions. */
  function EndBag(e: seq<(int, int, int)>): (r: multiset<int>)
    ensures |r| == |e|
    decreases |e|
  {
    if e == [] then multiset{} else EndBag(e[..|e| - 1]) + multiset{e[|e| - 1].2}
  }

  /** `(p, k, c)` is an edge of `t`: the `k`-th child of the node at position `p` is the node at position `c`. */
  ghost predicate IsEdge(t: Node, e: (int, int, int)) {
    0 <= e.2 < e.0 < |Postorder(t)| && 0 <= e.1 < |Postorder(t)[e.0].children| &&
    Postorder(t)[e.2] == Postorder(t)[e.0].children[e.1]
  }

  /** The line `ids.at(node) + " -> " + ids.at(child)` of an edge. */
  function Line(ids: seq<string>, e: (int, int, int)): string
    requires 0 <= e.0 < |ids| && 0 <= e.2 < |ids|
  {
    ids[e.0] + " -> " + ids[e.2]
  }

  /** Every queued node sits at its position. */
  ghost predicate Placed(t: Node, q: seq<(Node, int)>) {
    forall x :: 0 <= x < |q| ==> 0 <= q[x].1 < |Postorder(t)| && Postorder(t)[q[x].1] == q[x].0
  }

  /** The lines so far: one per edge, each the edge's `parent -> child` line. */
  ghost predicate Lines(t: Node, ids: seq<string>, lines: seq<string>, edges: seq<(int, int, int)>) {
    |ids| == |Postorder(t)| && |lines| == |edges| &&
    forall x :: 0 <= x < |edges| ==> IsEdge(t, edges[x]) && lines[x] == Line(ids, edges[x])
  }

  /** Every position of `t` but the root's. */
  function NonRoot(t: Node): multiset<int> {
    Span(0, |Postorder(t)| - 1)
  }

  /** The positions `whole` are split between the child ends of the edges so far and `rest`. */
  ghost predicate Split(edges: seq<(int, int, int)>, rest: multiset<int>, whole: multiset<int>) {
    EndBag(edges) + rest == whole
  }

  /** The edges from the node `u` at `p` to its first `k` children, the `k`-th child at the end of its block. */
  function ChildEdges(u: Node, p: int, k: nat): (r: seq<(int, int, int)>)
    requires k <= |u.children|
    ensures |r| == k
  {
    if k == 0 then [] else ChildEdges(u, p, k - 1) + [(p, k - 1, p + 1 - Size(u) + ChildrenSize(u, k) - 1)]
  }

  /** The queue entries of those children. */
  function ChildQueue(u: Node, p: int, k: nat): (r: seq<(Node, int)>)
    requires k <= |u.children|
    ensures |r| == k
  {
    if k == 0 then [] else ChildQueue(u, p, k - 1) + [(u.children[k - 1], p + 1 - Size(u) + ChildrenSize(u, k) - 1)]
  }

  lemma {:induction false} EndBagAppend(a: seq<(int, int, int)>, b: seq<(int, int, int)>)
    ensures EndBag(a + b) == EndBag(a) + EndBag(b)
    decreases |b|
  {
    if b != [] {
      var b' := b[..|b| - 1];
      EndBagAppend(a, b');
      assert (a + b)[..|a + b| - 1] == a + b';
    } else {
      assert a + b == a;
    }
  }

  lemma {:induction false} PendingAppend(a: seq<(Node, int)>, b: seq<(Node, int)>)
    ensures Pending(a + b) == Pending(a) + Pending(b)
    decreases |b|
  {
    if b != [] {
      var b', x := b[..|b| - 1], b[|b| - 1];
      assert b == b' + [x];
      PendingAppend(a, b');
      assert a + b == (a + b') + [x];
      PendingSnoc(a + b, a + b', x);
      PendingSnoc(b, b', x);
      Assoc(Pending(a), Pending(b'), Below(x.0, x.1));
    } else {
      assert a + b == a;
    }
  }

  /** `Pending` of a queue with one more node at its end. */
  lemma PendingSnoc(q: seq<(Node, int)>, q': seq<(Node, int)>, x: (Node, int))
    requires q == q' + [x]
    ensures Pending(q) == Pending(q') + Below(x.0, x.1)
  {
    assert q[..|q| - 1] == q';
  }

  /**
   * The child ends and the blocks below the first `k` children of the node
   * `u` at `p` are, together, the first `ChildrenSize(u, k)` positions of
   * its block, which starts at `lo`.
   */
  lemma {:induction false} ChildrenCover(u: Node, p: int, k: nat, lo: int, hi: int)
    requires k <= |u.children| && lo == p + 1 - Size(u) && hi == lo + ChildrenSize(u, k)
    ensures EndBag(ChildEdges(u, p, k)) + Pending(ChildQueue(u, p, k)) == Span(lo, hi)
  {
    if k == 0 {
      assert ChildEdges(u, p, 0) == [] && ChildQueue(u, p, 0) == [];
      assert EndBag([]) == multiset{} && Pending([]) == multiset{};
      assert hi == lo;
    } else {
      var mid := lo + ChildrenSize(u, k - 1);
      ChildrenCover(u, p, k - 1, lo, mid);
      ChildEnd(u, p, k, hi);
      ChildBlock(u, p, k, mid, hi);
      SpanLast(lo, mid, hi);
      CoverNext(u, p, k, lo, mid, hi);
    }
  }

  /** The step of `ChildrenCover`: the `k`-th child's end and the block below it follow its predecessors'. */
  lemma CoverNext(u: Node, p: int, k: nat, lo: int, mid: int, hi: int)
    requires 0 < k <= |u.children|
    requires EndBag(ChildEdges(u, p, k - 1)) + Pending(ChildQueue(u, p, k - 1)) == Span(lo, mid)
    requires EndBag(ChildEdges(u, p, k)) == EndBag(ChildEdges(u, p, k - 1)) + multiset{hi - 1}
    requires Pending(ChildQueue(u, p, k)) == Pending(ChildQueue(u, p, k - 1)) + Span(mid, hi - 1)
    requires Span(lo, hi) == Span(lo, mid) + (Span(mid, hi - 1) + multiset{hi - 1})
    ensures EndBag(ChildEdges(u, p, k)) + Pending(ChildQueue(u, p, k)) == Span(lo, hi)
  {
  }

  /** The `k`-th child's edge ends at the last position of its block. */
  lemma ChildEnd(u: Node, p: int, k: nat, hi: int)
    requires 0 < k <= |u.children| && hi == p + 1 - Size(u) + ChildrenSize(u, k)
    ensures EndBag(ChildEdges(u, p, k)) == EndBag(ChildEdges(u, p, k - 1)) + multiset{hi - 1}
  {
    var E := ChildEdges(u, p, k);
    assert E[..k - 1] == ChildEdges(u, p, k - 1);
  }

  /** The `k`-th child's queue entry adds the rest of its block. */
  lemma ChildBlock(u: Node, p: int, k: nat, mid: int, hi: int)
    requires 0 < k <= |u.children|
    requires mid == p + 1 - Size(u) + ChildrenSize(u, k - 1) && hi == p + 1 - Size(u) + ChildrenSize(u, k)
    ensures Pending(ChildQueue(u, p, k)) == Pending(ChildQueue(u, p, k - 1)) + Span(mid, hi - 1)
  {
    var k1 := k - 1;
    var c, cp := u.children[k1], p + 1 - Size(u) + ChildrenSize(u, k) - 1;
    assert ChildQueue(u, p, k) == ChildQueue(u, p, k1) + [(c, cp)];
    PendingSnoc(ChildQueue(u, p, k), ChildQueue(u, p, k1), (c, cp));
    assert ChildrenSize(u, k) == ChildrenSize(u, k1) + Size(c);
    BelowIsSpan(c, cp, mid, hi);
  }

  lemma BelowIsSpan(c: Node, cp: int, mid: int, hi: int)
    requires cp + 1 - Size(c) == mid && cp == hi - 1
    ensures Below(c, cp) == Span(mid, hi - 1)
  {
  }

  lemma SpanLast(lo: int, mid: int, hi: int)
    requires lo <= mid < hi
    ensures Span(lo, hi) == Span(lo, mid) + (Span(mid, hi - 1) + multiset{hi - 1})
  {
    SpanSplit(lo, mid, hi);
    SpanSplit(mid, hi - 1, hi);
    assert Span(hi - 1, hi) == multiset{hi - 1};
  }

  /** The children's edges are edges of `t`, and the children sit at their positions. */
  lemma {:induction false} ChildrenPlaced(t: Node, p: int, k: nat)
    requires 0 <= p < |Postorder(t)| && k <= |Postorder(t)[p].children|
    ensures Placed(t, ChildQueue(Postorder(t)[p], p, k))
  {
    if k > 0 {
      var u := Postorder(t)[p];
      ChildrenPlaced(t, p, k - 1);
      ChildAt(t, p, k - 1);
      var Q := ChildQueue(u, p, k);
      assert Q[..k - 1] == ChildQueue(u, p, k - 1);
      assert forall x :: 0 <= x < k - 1 ==> Q[x] == ChildQueue(u, p, k - 1)[x];
    }
  }

  lemma PlacedAppend(t: Node, a: seq<(Node, int)>, b: seq<(Node, int)>)
    requires Placed(t, a) && Placed(t, b)
    ensures Placed(t, a + b)
  {
    assert forall x :: 0 <= x < |b| ==> (a + b)[|a| + x] == b[x];
  }

  /** A line for the edge `e`. */
  lemma LinesSnoc(t: Node, ids: seq<string>, lines: seq<string>, edges: seq<(int, int, int)>, e: (int, int, int))
    requires Lines(t, ids, lines, edges) && IsEdge(t, e)
    ensures Lines(t, ids, lines + [Line(ids, e)], edges + [e])
  {
  }

  /**
   * The loop `for (auto* child : node->children)` of `getTreeMatrix` for the
   * node `u` at `p`: a line to each child, and each child queued.
   */
  method EmitChildren(t: Node, ids: seq<string>, lines0: seq<string>, ghost edges0: seq<(int, int, int)>,
                      q0: seq<(Node, int)>, u: Node, p: int)
    returns (lines: seq<string>, ghost edges: seq<(int, int, int)>, q: seq<(Node, int)>)
    requires 0 <= p < |Postorder(t)| && Postorder(t)[p] == u && Lines(t, ids, lines0, edges0)
    ensures Lines(t, ids, lines, edges)
    ensures edges == edges0 + ChildEdges(u, p, |u.children|) && q == q0 + ChildQueue(u, p, |u.children|)
  {
    lines, edges, q := lines0, edges0, q0;
    for k := 0 to |u.children|
      invariant Lines(t, ids, lines, edges)
      invariant edges == edges0 + ChildEdges(u, p, k) && q == q0 + ChildQueue(u, p, k)
    {
      var cp := p + 1 - Size(u) + ChildrenSize(u, k + 1) - 1;
      ChildAt(t, p, k);
      LinesSnoc(t, ids, lines, edges, (p, k, cp));
      lines := lines + [Line(ids, (p, k, cp))];
      edges := edges + [(p, k, cp)];
      q := q + [(u.children[k], cp)];
    }
  }

  /** The lines written for the front of the queue cover its block: the split of the positions is kept. */
  lemma PopStep(t: Node, edges: seq<(int, int, int)>, q: seq<(Node, int)>)
    requires |q| > 0 && Placed(t, q) && Split(edges, Pending(q), NonRoot(t))
    ensures 0 <= q[0].1 < |Postorder(t)| && Postorder(t)[q[0].1] == q[0].0
    ensures var u, p := q[0].0, q[0].1;
      Placed(t, q[1..] + ChildQueue(u, p, |u.children|)) &&
      Split(edges + ChildEdges(u, p, |u.children|), Pending(q[1..] + ChildQueue(u, p, |u.children|)), NonRoot(t))
  {
    PopPlaced(t, q);
    PopSplit(edges, q, NonRoot(t));
  }

  lemma PopPlaced(t: Node, q: seq<(Node, int)>)
    requires |q| > 0 && Placed(t, q)
    ensures 0 <= q[0].1 < |Postorder(t)| && Postorder(t)[q[0].1] == q[0].0
    ensures Placed(t, q[1..] + ChildQueue(q[0].0, q[0].1, |q[0].0.children|))
  {
    ChildrenPlaced(t, q[0].1, |q[0].0.children|);
    assert Placed(t, q[1..]) by {
      assert forall x :: 0 <= x < |q| - 1 ==> q[1..][x] == q[x + 1];
    }
    PlacedAppend(t, q[1..], ChildQueue(q[0].0, q[0].1, |q[0].0.children|));
  }

  lemma PopSplit(edges: seq<(int, int, int)>, q: seq<(Node, int)>, w: multiset<int>)
    requires |q| > 0 && Split(edges, Pending(q), w)
    ensures var u, p := q[0].0, q[0].1;
      Split(edges + ChildEdges(u, p, |u.children|), Pending(q[1..] + ChildQueue(u, p, |u.children|)), w)
  {
    var u, p := q[0].0, q[0].1;
    var K := |u.children|;
    var E, Q := ChildEdges(u, p, K), ChildQueue(u, p, K);
    PendingFront(q);
    FullCover(u, p);
    EndBagAppend(edges, E);
    PendingAppend(q[1..], Q);
    Shuffle(EndBag(edges), EndBag(E), Pending(q[1..]), Pending(Q), Below(u, p), w);
  }

  /** All the children of the node `u` at `p` together cover the block below it. */
  lemma FullCover(u: Node, p: int)
    ensures EndBag(ChildEdges(u, p, |u.children|)) + Pending(ChildQueue(u, p, |u.children|)) == Below(u, p)
  {
    var lo := p + 1 - Size(u);
    ChildrenCover(u, p, |u.children|, lo, p);
    BlockIsBelow(u, p, lo, EndBag(ChildEdges(u, p, |u.children|)) + Pending(ChildQueue(u, p, |u.children|)));
  }

  /** The block before `p` is the block below `u`. */
  lemma BlockIsBelow(u: Node, p: int, lo: int, m: multiset<int>)
    requires lo == p + 1 - Size(u) && m == Span(lo, p)
    ensures m == Below(u, p)
  {
  }

  lemma Shuffle(e0: multiset<int>, ec: multiset<int>, r: multiset<int>, pc: multiset<int>, b: multiset<int>, w: multiset<int>)
    requires e0 + (b + r) == w && ec + pc == b
    ensures (e0 + ec) + (r + pc) == w
  {
  }

  /** The walk starts with the root, at the last position, queued and nothing written. */
  lemma StartWalk(t: Node, ids: seq<string>)
    requires |ids| == |Postorder(t)|
    ensures Size(t) == |Postorder(t)|
    ensures Placed(t, [(t, Size(t) - 1)]) && Lines(t, ids, [], []) && Split([], Pending([(t, Size(t) - 1)]), NonRoot(t))
  {
    SizeIsPostorderLength(t);
    var q := [(t, Size(t) - 1)];
    assert q[..0] == [];
    assert Pending(q) == Below(t, Size(t) - 1);
  }

  /**
   * `getTreeMatrix(root, ids)`: a breadth-first walk from the root that
   * writes one line `parent -> child` per edge. Every line is an edge of the
   * tree and every position but the root's is the child of exactly one line.
   */
  method GetTreeMatrix(root: Option<Node>, ids: seq<string>) returns (lines: seq<string>, ghost edges: seq<(int, int, int)>)
    requires root.Some? ==> |ids| == |Postorder(root.value)|
    ensures root.None? ==> lines == []
    ensures root.Some? ==> Lines(root.value, ids, lines, edges) && Split(edges, multiset{}, NonRoot(root.value))
  {
    lines, edges := [], [];
    if root.None? {
      return;
    }
    var t := root.value;
    StartWalk(t, ids);
    var q := [(t, Size(t) - 1)];
    while q != []
      invariant Placed(t, q) && Lines(t, ids, lines, edges) && Split(edges, Pending(q), NonRoot(t))
      decreases |Postorder(t)| - |lines| + |q|
    {
      var u, p := q[0].0, q[0].1;
      PopStep(t, edges, q);
      lines, edges, q := EmitChildren(t, ids, lines, edges, q[1..], u, p);
      SplitBound(t, edges, Pending(q));
    }
  }

  /** All lines written: `|Postorder(t)| - 1` of them, and each non-root position is the child of exactly one. */
  lemma WalkDone(t: Node, ids: seq<string>, lines: seq<string>, edges: seq<(int, int, int)>)
    requires Lines(t, ids, lines, edges) && Split(edges, multiset{}, NonRoot(t))
    ensures |lines| == |edges| == |Postorder(t)| - 1
    ensures forall x :: 0 <= x < |edges| ==> IsEdge(t, edges[x]) && lines[x] == Line(ids, edges[x])
    ensures forall x :: EndBag(edges)[x] == if 0 <= x < |Postorder(t)| - 1 then 1 else 0
  {
    SplitBound(t, edges, multiset{});
    assert EndBag(edges) + multiset{} == EndBag(edges);
    forall x
      ensures EndBag(edges)[x] == if 0 <= x < |Postorder(t)| - 1 then 1 else 0
    {
      SpanCount(0, |Postorder(t)| - 1, x);
    }
  }

  lemma SplitBound(t: Node, edges: seq<(int, int, int)>, rest: multiset<int>)
    requires Split(edges, rest, NonRoot(t))
    ensures |edges| + |rest| == |Postorder(t)| - 1
  {
    var N := |Postorder(t)|;
    assert |EndBag(edges) + rest| == |EndBag(edges)| + |rest|;
  }
}
