/**
 * `createCompleteEulerianGraph` of the Euler-path exercise: the complete
 * graph on `V` vertices, less the perfect matching `{i, i + V/2}` when `V`
 * is even, so that every degree is even.
 */
module CompleteEuler {
  import opened EulerGraph
  import opened EulerRepair

  /** `a, a + 1, ..., b - 1`. */
  function Range(a: int, b: int): (r: seq<int>)
    requires a <= b
    ensures |r| == b - a && forall k :: 0 <= k < |r| ==> r[k] == a + k
  {
    seq(b - a, k => a + k)
  }

  /** The list of `x` in the complete graph on `0..n-1` as the double loop builds it: every other vertex, in order. */
  function Full(n: int, x: int): seq<int>
    requires 0 <= x < n
  {
    Range(0, x) + Range(x + 1, n)
  }

  /**
   * The lists in the middle of the double loop, at `(i, j)`: the rows before
   * `i` are complete; row `i` has reached `j - 1`; the later rows have `i`
   * once they were reached as `j`.
   */
  function Partial(n: int, i: int, j: int, x: int): seq<int>
    requires 0 <= i < j <= n && 0 <= x < n
  {
    if x < i then Full(n, x)
    else if x == i then Range(0, i) + Range(i + 1, j)
    else if x < j then Range(0, i + 1)
    else Range(0, i)
  }

  lemma RangeSnoc(a: int, b: int)
    requires a <= b
    ensures Range(a, b) + [b] == Range(a, b + 1)
  {
  }

  /** `addEdge(i, j)` moves the double loop from `(i, j)` to `(i, j + 1)`. */
  lemma InnerStep(n: int, adj: seq<seq<int>>, i: int, j: int)
    requires 0 <= i < j < n && Bounded(n, adj) && AtPartial(n, i, j, adj)
    ensures AtPartial(n, i, j + 1, AddEdgeAdj(adj, i, j))
  {
    AddEdgeShape(n, adj, i, j);
    RangeSnoc(i + 1, j);
    RangeSnoc(0, i);
  }

  /** The rows of the double loop at the start of row `i`: the earlier rows complete, the others `0..i-1`. */
  function Rows(n: int, i: int, x: int): seq<int>
    requires 0 <= i <= n && 0 <= x < n
  {
    if x < i then Full(n, x) else Range(0, i)
  }

  /** `Full(n, x)` lists every other vertex once and has length `n - 1`. */
  lemma FullFacts(n: int, x: int)
    requires 0 <= x < n
    ensures NoDup(Full(n, x)) && |Full(n, x)| == n - 1
    ensures forall y :: y in Full(n, x) <==> 0 <= y < n && y != x
  {
    var f := Full(n, x);
    forall y | 0 <= y < n && y != x ensures y in f {
      if y < x {
        assert f[y] == y;
      } else {
        assert f[y - 1] == y;
      }
    }
  }

  ghost predicate AtPartial(n: int, i: int, j: int, adj: seq<seq<int>>)
    requires 0 <= i < j <= n
  {
    |adj| == n && forall x :: 0 <= x < n ==> adj[x] == Partial(n, i, j, x)
  }

  ghost predicate AtRows(n: int, i: int, adj: seq<seq<int>>)
    requires 0 <= i <= n
  {
    |adj| == n && forall x :: 0 <= x < n ==> adj[x] == Rows(n, i, x)
  }

  lemma RowStart(n: int, i: int, adj: seq<seq<int>>)
    requires 0 <= i < n && AtRows(n, i, adj)
    ensures AtPartial(n, i, i + 1, adj)
  {
  }

  lemma RowEnd(n: int, i: int, adj: seq<seq<int>>)
    requires 0 <= i < n && AtPartial(n, i, n, adj)
    ensures AtRows(n, i + 1, adj)
  {
  }

  /** One turn of the outer loop: `addEdge(i, j)` for `j = i + 1, ..., V - 1`. */
  method AddRow(g: Graph, i: int)
    requires g.Valid() && Undirected(g.adj) && 0 <= i < g.V && AtRows(g.V, i, g.adj)
    modifies g
    ensures g.Valid() && g.V == old(g.V) && Undirected(g.adj) && AtRows(g.V, i + 1, g.adj)
  {
    var j := i + 1;
    RowStart(g.V, i, g.adj);
    while j < g.V
      invariant i < j <= g.V && g.Valid() && g.V == old(g.V) && Undirected(g.adj)
      invariant AtPartial(g.V, i, j, g.adj)
    {
      InnerStep(g.V, g.adj, i, j);
      g.AddEdge(i, j);
      j := j + 1;
    }
    RowEnd(g.V, i, g.adj);
  }

  /** The double loop of `createCompleteEulerianGraph`: `addEdge(i, j)` for every `i < j`. */
  method CompleteGraph(V: nat) returns (g: Graph)
    ensures fresh(g) && g.Valid() && g.V == V && Undirected(g.adj)
    ensures forall x :: 0 <= x < V ==> g.adj[x] == Full(V, x)
  {
    g := new Graph(V);
    var i := 0;
    while i < V
      invariant 0 <= i <= V && g.Valid() && g.V == V && Undirected(g.adj)
      invariant AtRows(V, i, g.adj)
    {
      AddRow(g, i);
      i := i + 1;
    }
  }

  /** The partner of `x` in the matching `{i, i + h}` of `0..2h-1`. */
  function Mate(h: int, x: int): int {
    if x < h then x + h else x - h
  }

  /** `x` has lost its matching edge once the removal loop has passed `i`. */
  predicate Gone(h: int, i: int, x: int) {
    x < i || h <= x < h + i
  }

  /**
   * The lists of the removal loop at `i`, on `n = 2h` vertices: no repeats;
   * every other vertex but, once `x` is `Gone`, its mate.
   */
  ghost predicate Unmatched(n: int, h: int, i: int, adj: seq<seq<int>>) {
    |adj| == n &&
    forall x :: 0 <= x < n ==>
      NoDup(adj[x]) && |adj[x]| == (if Gone(h, i, x) then n - 2 else n - 1) &&
      forall y :: y in adj[x] <==> 0 <= y < n && y != x && !(Gone(h, i, x) && y == Mate(h, x))
  }

  /** Erasing `x` from a list without repeats: no repeats, one shorter, every other entry kept. */
  lemma RemoveFirstNoDup(s: seq<int>, x: int)
    requires NoDup(s) && x in s
    ensures NoDup(RemoveFirst(s, x)) && |RemoveFirst(s, x)| == |s| - 1
    ensures forall y :: y in RemoveFirst(s, x) <==> y in s && y != x
  {
    var k := FirstIndex(s, x);
    var r := RemoveFirst(s, x);
    assert r == s[..k] + s[k + 1..];
    forall a, b | 0 <= a < b < |r| ensures r[a] != r[b] {
      var a' := if a < k then a else a + 1;
      var b' := if b < k then b else b + 1;
      assert r[a] == s[a'] && r[b] == s[b'];
    }
    forall y ensures y in r <==> y in s && y != x {
      if y in s && y != x {
        var l :| 0 <= l < |s| && s[l] == y;
        if l < k {
          assert r[l] == y;
        } else {
          assert r[l - 1] == y;
        }
      }
      if y in r {
        var l :| 0 <= l < |r| && r[l] == y;
        var l' := if l < k then l else l + 1;
        assert s[l'] == y && l' != k;
      }
    }
  }

  /** `removeEdge(i, i + h)` moves the removal loop from `i` to `i + 1`. */
  lemma RemoveStep(n: int, h: int, i: int, adj: seq<seq<int>>)
    requires n == 2 * h && 0 <= i < h && Bounded(n, adj) && Unmatched(n, h, i, adj)
    ensures Unmatched(n, h, i + 1, RemoveEdgeAdj(adj, i, i + h)) && Bounded(n, RemoveEdgeAdj(adj, i, i + h))
  {
    var v := i + h;
    var r := RemoveEdgeAdj(adj, i, v);
    RemoveEdgeBounded(n, adj, i, v);
    assert v in adj[i] && i in adj[v];
    RemoveFirstNoDup(adj[i], v);
    RemoveFirstNoDup(adj[v], i);
    assert r[i] == RemoveFirst(adj[i], v) && r[v] == RemoveFirst(adj[v], i);
  }

  /**
   * `createCompleteEulerianGraph(V)`: for odd `V` the complete graph, for
   * even `V` the complete graph less the matching `{i, i + V/2}`. No list
   * repeats an entry, every degree is `V - 1` or `V - 2` accordingly, hence
   * even, and for `V = 2` there is no edge left.
   */
  method CreateCompleteEulerianGraph(V: nat) returns (g: Graph)
    ensures g.Valid() && g.V == V && Undirected(g.adj)
    ensures forall x, y :: 0 <= x < V && 0 <= y < V ==>
      (y in g.adj[x] <==> y != x && (V % 2 == 1 || (y != x + V / 2 && x != y + V / 2)))
    ensures forall x :: 0 <= x < V ==> NoDup(g.adj[x]) && |g.adj[x]| == (if V % 2 == 1 then V - 1 else V - 2)
    ensures AllEven(g.adj)
    ensures V == 2 ==> Total(g.adj) == 0
  {
    g := CompleteGraph(V);
    Completed(V, g.adj);
    if V % 2 == 0 {
      RemoveMatching(g);
      MatchedOut(V, V / 2, g.adj);
    }
    EvenDegrees(g.adj, if V % 2 == 1 then V - 1 else V - 2);
    if V == 2 {
      EmptyTotal(g.adj);
    }
  }

  /** Lists of one even length make every degree even. */
  lemma EvenDegrees(adj: seq<seq<int>>, d: int)
    requires d % 2 == 0 && forall x :: 0 <= x < |adj| ==> |adj[x]| == d
    ensures AllEven(adj)
  {
  }

  /** The complete graph is `Unmatched` before the removal loop starts. */
  lemma Completed(n: int, adj: seq<seq<int>>)
    requires |adj| == n && forall x :: 0 <= x < n ==> adj[x] == Full(n, x)
    ensures forall h :: Unmatched(n, h, 0, adj)
    ensures forall x, y :: 0 <= x < n && 0 <= y < n ==> (y in adj[x] <==> y != x)
    ensures forall x :: 0 <= x < n ==> NoDup(adj[x]) && |adj[x]| == n - 1
  {
    forall x | 0 <= x < n ensures NoDup(adj[x]) && |adj[x]| == n - 1 && forall y :: y in adj[x] <==> 0 <= y < n && y != x {
      FullFacts(n, x);
    }
  }

  /** The loop `removeEdge(i, i + V/2)` for `i < V/2`, on even `V`. */
  method RemoveMatching(g: Graph)
    requires g.Valid() && Undirected(g.adj) && g.V % 2 == 0 && Unmatched(g.V, g.V / 2, 0, g.adj)
    modifies g
    ensures g.Valid() && g.V == old(g.V) && Undirected(g.adj) && Unmatched(g.V, g.V / 2, g.V / 2, g.adj)
  {
    var h := g.V / 2;
    var i := 0;
    while i < h
      invariant 0 <= i <= h && g.Valid() && g.V == old(g.V) && Undirected(g.adj)
      invariant Unmatched(g.V, h, i, g.adj)
    {
      ghost var a := g.adj;
      RemoveStep(g.V, h, i, a);
      g.RemoveEdge(i, i + h);
      assert g.adj == RemoveEdgeAdj(a, i, i + h);
      i := i + 1;
    }
  }

  /** After the removal loop every vertex has lost exactly its mate. */
  lemma MatchedOut(n: int, h: int, adj: seq<seq<int>>)
    requires n == 2 * h && Unmatched(n, h, h, adj)
    ensures forall x, y :: 0 <= x < n && 0 <= y < n ==> (y in adj[x] <==> y != x && y != x + h && x != y + h)
    ensures forall x :: 0 <= x < n ==> NoDup(adj[x]) && |adj[x]| == n - 2
  {
    forall x, y | 0 <= x < n && 0 <= y < n ensures y in adj[x] <==> y != x && y != x + h && x != y + h {
      assert Gone(h, h, x);
    }
  }
}
