/**
 * The labelled ordered trees of the tree-edit-distance program (`struct Node`
 * of `tree_edit.h`) and the two metrics its driver prints: `countNodes` and
 * `maxDegree`. A `Node*` that may be null is an `Option<Node>`; the children
 * of a node are never null, so they are plain `Node`s.
 */
module Trees {

  datatype Option<T> = None | Some(value: T)

  /** A node: its label (`name`, as `label` is a Dafny keyword) and the ordered list of its children. */
  datatype Node = Node(name: string, children: seq<Node>)

  predicate IsLeaf(t: Node) { |t.children| == 0 }

  /** The subtrees of `t` in postorder: each child's subtrees, left to right, then `t`. */
  function Postorder(t: Node): (r: seq<Node>)
    ensures |r| > 0 && r[|r| - 1] == t
    decreases t, |t.children| + 1
  {
    ChildrenPostorder(t, |t.children|) + [t]
  }

  /** The postorders of the first `k` children of `t`, one after the other. */
  function ChildrenPostorder(t: Node, k: nat): seq<Node>
    requires k <= |t.children|
    decreases t, k
  {
    if k == 0 then [] else ChildrenPostorder(t, k - 1) + Postorder(t.children[k - 1])
  }

  /** `countNodes`: 0 for a null pointer, otherwise 1 plus the counts of the children. */
  function CountNodes(n: Option<Node>): (r: nat)
    ensures n.None? ==> r == 0
    ensures n.Some? ==> r >= 1
    ensures n.Some? && IsLeaf(n.value) ==> r == 1
  {
    match n
    case None => 0
    case Some(t) => Size(t)
  }

  /** The count of a non-null node: `cnt = 1`, then `cnt += countNodes(c)` for every child. */
  function Size(t: Node): (r: nat)
    ensures r >= 1
    ensures IsLeaf(t) ==> r == 1
    decreases t, |t.children| + 1
  {
    1 + ChildrenSize(t, |t.children|)
  }

  function ChildrenSize(t: Node, k: nat): nat
    requires k <= |t.children|
    decreases t, k
  {
    if k == 0 then 0 else ChildrenSize(t, k - 1) + Size(t.children[k - 1])
  }

  /** `maxDegree`: 0 for a null pointer, otherwise the largest child count in the tree. */
  function MaxDegree(n: Option<Node>): (r: nat)
    ensures n.None? ==> r == 0
    ensures n.Some? ==> r >= |n.value.children|
    ensures n.Some? && IsLeaf(n.value) ==> r == 0
  {
    match n
    case None => 0
    case Some(t) => Degree(t)
  }

  /** The degree of a non-null node: `maxD = children.size()`, raised by each child's `maxDegree`. */
  function Degree(t: Node): (r: nat)
    ensures r >= |t.children|
    ensures IsLeaf(t) ==> r == 0
    decreases t, |t.children| + 1
  {
    ChildrenDegree(t, |t.children|)
  }

  function ChildrenDegree(t: Node, k: nat): (r: nat)
    requires k <= |t.children|
    ensures r >= |t.children|
    decreases t, k
  {
    if k == 0 then |t.children|
    else
      var maxD := ChildrenDegree(t, k - 1);
      var childD := Degree(t.children[k - 1]);
      if childD > maxD then childD else maxD
  }

  /** `countNodes` counts exactly the nodes that the postorder traversal lists. */
  lemma {:induction false} SizeIsPostorderLength(t: Node)
    ensures Size(t) == |Postorder(t)|
    decreases t, |t.children| + 1
  {
    ChildrenSizeIsLength(t, |t.children|);
  }

  lemma {:induction false} ChildrenSizeIsLength(t: Node, k: nat)
    requires k <= |t.children|
    ensures ChildrenSize(t, k) == |ChildrenPostorder(t, k)|
    decreases t, k
  {
    if k > 0 {
      ChildrenSizeIsLength(t, k - 1);
      SizeIsPostorderLength(t.children[k - 1]);
    }
  }

  /** `maxDegree` bounds the number of children of every node of the tree ... */
  lemma {:induction false} DegreeBoundsEveryNode(t: Node)
    ensures forall u :: u in Postorder(t) ==> |u.children| <= Degree(t)
    decreases t, |t.children| + 1
  {
    ChildrenDegreeBounds(t, |t.children|);
  }

  lemma {:induction false} ChildrenDegreeBounds(t: Node, k: nat)
    requires k <= |t.children|
    ensures forall u :: u in ChildrenPostorder(t, k) ==> |u.children| <= ChildrenDegree(t, k)
    decreases t, k
  {
    if k > 0 {
      ChildrenDegreeBounds(t, k - 1);
      DegreeBoundsEveryNode(t.children[k - 1]);
    }
  }

  /** ... and some node of the tree has exactly that many children. */
  lemma {:induction false} DegreeIsAttained(t: Node)
    ensures exists u :: u in Postorder(t) && |u.children| == Degree(t)
    decreases t, |t.children| + 1
  {
    var u := ChildrenDegreeAttained(t, |t.children|);
    if u.None? {
      assert t in Postorder(t);
    } else {
      assert u.value in Postorder(t);
    }
  }

  /** The node that sets `ChildrenDegree(t, k)`: one of the first `k` subtrees, or `t` itself (`None`). */
  lemma {:induction false} ChildrenDegreeAttained(t: Node, k: nat) returns (u: Option<Node>)
    requires k <= |t.children|
    ensures u.None? ==> ChildrenDegree(t, k) == |t.children|
    ensures u.Some? ==> u.value in ChildrenPostorder(t, k) && |u.value.children| == ChildrenDegree(t, k)
    decreases t, k
  {
    if k == 0 {
      u := None;
    } else {
      var c := t.children[k - 1];
      if Degree(c) > ChildrenDegree(t, k - 1) {
        DegreeIsAttained(c);
        var w :| w in Postorder(c) && |w.children| == Degree(c);
        u := Some(w);
      } else {
        u := ChildrenDegreeAttained(t, k - 1);
      }
    }
  }
}
