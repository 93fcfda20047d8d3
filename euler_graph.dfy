/**
 * The undirected multigraph of `Atividade01/main.cpp`: `V` vertices and one
 * adjacency list per vertex, where an edge `{u, v}` is stored as `v` in
 * `adj[u]` and `u` in `adj[v]` (a self-loop as two copies of `u` in `adj[u]`).
 * `addEdge` appends, `removeEdge` erases the first occurrence on each side,
 * and `DFSUtil` marks what is reachable from a vertex.
 *
 * The list operations are modelled as functions on the list contents
 * (`AddEdgeAdj`, `RemoveEdgeAdj`); the class methods are proved to perform them.
 */
module EulerGraph {

  /** The position `std::find` returns: the first occurrence of `x`, or `|s|` when there is none. */
  function FirstIndex(s: seq<int>, x: int): (k: nat)
    ensures k <= |s| && (k < |s| <==> x in s)
    ensures k < |s| ==> s[k] == x
    ensures forall j :: 0 <= j < k ==> s[j] != x
  {
    if s == [] then 0 else if s[0] == x then 0 else 1 + FirstIndex(s[1..], x)
  }

  /** `erase(find(s, x))` guarded by `!= end()`: the first `x` taken out, nothing when there is none. */
  function RemoveFirst(s: seq<int>, x: int): seq<int> {
    var k := FirstIndex(s, x);
    if k < |s| then s[..k] + s[k + 1..] else s
  }

  /** Erasing the first `x` takes exactly one `x` out of the list's multiset, or changes nothing. */
  lemma RemoveFirstCounts(s: seq<int>, x: int)
    ensures x in s ==> |RemoveFirst(s, x)| == |s| - 1 && multiset(RemoveFirst(s, x)) == multiset(s) - multiset{x}
    ensures x !in s ==> RemoveFirst(s, x) == s
  {
    var k := FirstIndex(s, x);
    if k < |s| {
      assert s == s[..k] + [s[k]] + s[k + 1..];
    }
  }

  /** Two sequences with the same multiset lose the same element to `RemoveFirst`. */
  lemma RemoveFirstSame(s: seq<int>, t: seq<int>, x: int)
    requires multiset(s) == multiset(t)
    ensures multiset(RemoveFirst(s, x)) == multiset(RemoveFirst(t, x))
  {
    RemoveFirstCounts(s, x);
    RemoveFirstCounts(t, x);
    assert x in s <==> x in multiset(t);
  }

  /** No entry twice. */
  ghost predicate NoDup<T>(s: seq<T>) {
    forall i, j :: 0 <= i < j < |s| ==> s[i] != s[j]
  }

  /** No parallel edges: no list names a vertex twice. */
  ghost predicate Simple(adj: seq<seq<int>>) {
    forall u :: 0 <= u < |adj| ==> NoDup(adj[u])
  }

  /** Every entry of every list names a vertex in `0..n-1`. */
  ghost predicate Bounded(n: int, adj: seq<seq<int>>) {
    |adj| == n && forall u, j :: 0 <= u < n && 0 <= j < |adj[u]| ==> 0 <= adj[u][j] < n
  }

  /**
   * The lists describe an undirected multigraph: `v` occurs in `adj[u]` as
   * often as `u` in `adj[v]`, and a vertex lists itself an even number of times.
   */
  ghost predicate Undirected(adj: seq<seq<int>>) {
    (forall u, v :: 0 <= u < |adj| && 0 <= v < |adj| ==> multiset(adj[u])[v] == multiset(adj[v])[u]) &&
    (forall u :: 0 <= u < |adj| ==> multiset(adj[u])[u] % 2 == 0)
  }

  /** `addEdge(u, v)` on the list contents: `v` appended to `adj[u]`, then `u` to `adj[v]`. */
  function AddEdgeAdj(adj: seq<seq<int>>, u: int, v: int): (r: seq<seq<int>>)
    requires 0 <= u < |adj| && 0 <= v < |adj|
    ensures |r| == |adj|
  {
    var a := adj[u := adj[u] + [v]];
    a[v := a[v] + [u]]
  }

  /** `removeEdge(u, v)` on the list contents: the first `v` erased from `adj[u]`, then the first `u` from `adj[v]`. */
  function RemoveEdgeAdj(adj: seq<seq<int>>, u: int, v: int): (r: seq<seq<int>>)
    requires 0 <= u < |adj| && 0 <= v < |adj|
    ensures |r| == |adj|
  {
    var a := adj[u := RemoveFirst(adj[u], v)];
    a[v := RemoveFirst(a[v], u)]
  }

  /** The total length of the lists: twice the number of edges of an undirected graph. */
  function Total(adj: seq<seq<int>>): nat {
    if adj == [] then 0 else |adj[0]| + Total(adj[1..])
  }

  lemma {:induction false} TotalUpdate(adj: seq<seq<int>>, u: int, s: seq<int>)
    requires 0 <= u < |adj|
    ensures Total(adj[u := s]) == Total(adj) - |adj[u]| + |s|
  {
    if u == 0 {
      assert adj[u := s][1..] == adj[1..];
    } else {
      assert adj[u := s][1..] == adj[1..][u - 1 := s];
      TotalUpdate(adj[1..], u - 1, s);
    }
  }

  /** How often `y` occurs in `adj[x]` once `addEdge(u, v)` is done: once more for each side the edge adds. */
  lemma AddEdgeCount(adj: seq<seq<int>>, u: int, v: int, x: int, y: int)
    requires 0 <= u < |adj| && 0 <= v < |adj| && 0 <= x < |adj|
    ensures multiset(AddEdgeAdj(adj, u, v)[x])[y] ==
      multiset(adj[x])[y] + (if x == u && y == v then 1 else 0) + (if x == v && y == u then 1 else 0)
  {
    var r := AddEdgeAdj(adj, u, v);
    if x == u && x == v {
      assert r[x] == adj[x] + [v] + [u];
    } else if x == u {
      assert r[x] == adj[x] + [v];
    } else if x == v {
      assert r[x] == adj[x] + [u];
    }
  }

  /**
   * `addEdge(u, v)` changes no list but `adj[u]` and `adj[v]`: `v` is appended
   * to the first and `u` to the second (`u` twice for a self-loop), two list
   * entries in all.
   */
  lemma AddEdgeShape(n: int, adj: seq<seq<int>>, u: int, v: int)
    requires Bounded(n, adj) && 0 <= u < n && 0 <= v < n
    ensures var r := AddEdgeAdj(adj, u, v);
      Bounded(n, r) && Total(r) == Total(adj) + 2 &&
      (u != v ==> r[u] == adj[u] + [v] && r[v] == adj[v] + [u]) &&
      (u == v ==> r[u] == adj[u] + [u, u]) &&
      (forall x :: 0 <= x < n && x != u && x != v ==> r[x] == adj[x])
  {
    var a := adj[u := adj[u] + [v]];
    TotalUpdate(adj, u, adj[u] + [v]);
    TotalUpdate(a, v, a[v] + [u]);
    var r := AddEdgeAdj(adj, u, v);
    forall x, j | 0 <= x < n && 0 <= j < |r[x]| ensures 0 <= r[x][j] < n {
      if x == v {
        assert r[x] == a[v] + [u];
        if j < |a[v]| {
          assert r[x][j] == a[v][j];
        }
      } else if x == u {
        assert r[x] == adj[u] + [v];
      }
    }
  }

  /** `addEdge` keeps the lists an undirected multigraph. */
  lemma AddEdgeUndirected(adj: seq<seq<int>>, u: int, v: int)
    requires Undirected(adj) && 0 <= u < |adj| && 0 <= v < |adj|
    ensures Undirected(AddEdgeAdj(adj, u, v))
  {
    var r := AddEdgeAdj(adj, u, v);
    forall x, y | 0 <= x < |adj| && 0 <= y < |adj|
      ensures multiset(r[x])[y] == multiset(r[y])[x]
    {
      AddEdgeCount(adj, u, v, x, y);
      AddEdgeCount(adj, u, v, y, x);
    }
    forall x | 0 <= x < |adj| ensures multiset(r[x])[x] % 2 == 0 {
      AddEdgeCount(adj, u, v, x, x);
    }
  }

  /** Erasing an entry never brings in a new one. */
  lemma RemoveFirstSub(s: seq<int>, x: int)
    ensures forall j :: 0 <= j < |RemoveFirst(s, x)| ==> RemoveFirst(s, x)[j] in s
  {
    var k := FirstIndex(s, x);
    if k < |s| {
      var r := s[..k] + s[k + 1..];
      forall j | 0 <= j < |r| ensures r[j] in s {
        if j < k {
          assert r[j] == s[j];
        } else {
          assert r[j] == s[j + 1];
        }
      }
    }
  }

  /** `removeEdge` keeps every entry a vertex and changes no list but `adj[u]` and `adj[v]`. */
  lemma RemoveEdgeBounded(n: int, adj: seq<seq<int>>, u: int, v: int)
    requires Bounded(n, adj) && 0 <= u < n && 0 <= v < n
    ensures Bounded(n, RemoveEdgeAdj(adj, u, v))
    ensures forall x :: 0 <= x < n && x != u && x != v ==> RemoveEdgeAdj(adj, u, v)[x] == adj[x]
  {
    var a := adj[u := RemoveFirst(adj[u], v)];
    RemoveFirstSub(adj[u], v);
    RemoveFirstSub(a[v], u);
    var r := RemoveEdgeAdj(adj, u, v);
    forall x, j | 0 <= x < n && 0 <= j < |r[x]| ensures 0 <= r[x][j] < n {
      if x == v {
        assert r[x][j] in a[v];
      } else if x == u {
        assert r[x][j] in adj[u];
      }
    }
  }

  /** On an edge `{u, v}`, `removeEdge` takes two list entries out. */
  lemma RemoveEdgeTotal(adj: seq<seq<int>>, u: int, v: int)
    requires Undirected(adj) && 0 <= u < |adj| && 0 <= v < |adj| && v in adj[u]
    ensures Total(RemoveEdgeAdj(adj, u, v)) == Total(adj) - 2
  {
    var a := adj[u := RemoveFirst(adj[u], v)];
    RemoveFirstCounts(adj[u], v);
    RemoveEdgeSecond(adj, u, v);
    RemoveFirstCounts(a[v], u);
    TotalUpdate(adj, u, RemoveFirst(adj[u], v));
    TotalUpdate(a, v, RemoveFirst(a[v], u));
  }

  /** After the first erase of `removeEdge` on an edge, the second one finds its `u`. */
  lemma RemoveEdgeSecond(adj: seq<seq<int>>, u: int, v: int)
    requires Undirected(adj) && 0 <= u < |adj| && 0 <= v < |adj| && v in adj[u]
    ensures u in adj[u := RemoveFirst(adj[u], v)][v]
  {
    var a := adj[u := RemoveFirst(adj[u], v)];
    RemoveFirstCounts(adj[u], v);
    assert multiset(adj[u])[v] == multiset(adj[v])[u];
    if u == v {
      assert multiset(adj[u])[u] >= 2;
      assert multiset(a[u])[u] >= 1;
    } else {
      assert a[v] == adj[v];
    }
  }

  /** How often `y` occurs in `adj[x]` once `removeEdge(u, v)` is done on an edge: once less for each side. */
  lemma RemoveEdgeCount(adj: seq<seq<int>>, u: int, v: int, x: int, y: int)
    requires Undirected(adj) && 0 <= u < |adj| && 0 <= v < |adj| && 0 <= x < |adj| && v in adj[u]
    ensures multiset(RemoveEdgeAdj(adj, u, v)[x])[y] + (if x == u && y == v then 1 else 0) +
      (if x == v && y == u then 1 else 0) == multiset(adj[x])[y]
  {
    RemoveEdgeSecond(adj, u, v);
    RemoveBothCount(adj, u, v, x, y);
  }

  /** The count of `RemoveEdgeCount` once both erases are known to find their entry. */
  lemma RemoveBothCount(adj: seq<seq<int>>, u: int, v: int, x: int, y: int)
    requires 0 <= u < |adj| && 0 <= v < |adj| && 0 <= x < |adj| && v in adj[u]
    requires u in adj[u := RemoveFirst(adj[u], v)][v]
    ensures multiset(RemoveEdgeAdj(adj, u, v)[x])[y] + (if x == u && y == v then 1 else 0) +
      (if x == v && y == u then 1 else 0) == multiset(adj[x])[y]
  {
    var a := adj[u := RemoveFirst(adj[u], v)];
    var r := RemoveEdgeAdj(adj, u, v);
    if x == v {
      RemoveFirstCounts(a[v], u);
      assert multiset(r[x]) == multiset(a[v]) - multiset{u};
      if u == v {
        RemoveFirstCounts(adj[u], v);
      } else {
        assert a[v] == adj[v];
      }
    } else if x == u {
      RemoveFirstCounts(adj[u], v);
      assert r[x] == RemoveFirst(adj[u], v);
    } else {
      assert r[x] == adj[x];
    }
  }

  /** On a pair that is not an edge, `removeEdge` changes nothing. */
  lemma RemoveNonEdge(adj: seq<seq<int>>, u: int, v: int)
    requires Undirected(adj) && 0 <= u < |adj| && 0 <= v < |adj| && v !in adj[u]
    ensures RemoveEdgeAdj(adj, u, v) == adj
  {
    RemoveFirstCounts(adj[u], v);
    assert multiset(adj[u])[v] == multiset(adj[v])[u];
    RemoveFirstCounts(adj[v], u);
  }

  lemma RemoveEdgeSym(adj: seq<seq<int>>, u: int, v: int, x: int, y: int)
    requires Undirected(adj) && 0 <= u < |adj| && 0 <= v < |adj| && 0 <= x < |adj| && 0 <= y < |adj| && v in adj[u]
    ensures multiset(RemoveEdgeAdj(adj, u, v)[x])[y] == multiset(RemoveEdgeAdj(adj, u, v)[y])[x]
  {
    RemoveEdgeCount(adj, u, v, x, y);
    RemoveEdgeCount(adj, u, v, y, x);
  }

  /** `removeEdge` keeps the lists an undirected multigraph. */
  lemma RemoveEdgeUndirected(adj: seq<seq<int>>, u: int, v: int)
    requires Undirected(adj) && 0 <= u < |adj| && 0 <= v < |adj|
    ensures Undirected(RemoveEdgeAdj(adj, u, v))
  {
    if v !in adj[u] {
      RemoveNonEdge(adj, u, v);
    } else {
      var r := RemoveEdgeAdj(adj, u, v);
      forall x, y | 0 <= x < |adj| && 0 <= y < |adj|
        ensures multiset(r[x])[y] == multiset(r[y])[x]
      {
        RemoveEdgeSym(adj, u, v, x, y);
      }
      forall x | 0 <= x < |adj| ensures multiset(r[x])[x] % 2 == 0 {
        RemoveEdgeCount(adj, u, v, x, x);
      }
    }
  }

  /** A path of the graph: consecutive vertices are joined by a list entry. */
  ghost predicate IsPath(adj: seq<seq<int>>, p: seq<int>) {
    |p| >= 1 && (forall k :: 0 <= k < |p| ==> 0 <= p[k] < |adj|) &&
    forall k :: 0 <= k < |p| - 1 ==> p[k + 1] in adj[p[k]]
  }

  /** `w` can be reached from `u`. */
  ghost predicate Reachable(adj: seq<seq<int>>, u: int, w: int) {
    exists p :: IsPath(adj, p) && p[0] == u && p[|p| - 1] == w
  }

  lemma ReachSelf(adj: seq<seq<int>>, u: int)
    requires 0 <= u < |adj|
    ensures Reachable(adj, u, u)
  {
    assert IsPath(adj, [u]);
  }

  /** A vertex reachable from a neighbour of `u` is reachable from `u`. */
  lemma ReachStep(adj: seq<seq<int>>, u: int, v: int, w: int)
    requires 0 <= u < |adj| && v in adj[u] && Reachable(adj, v, w)
    ensures Reachable(adj, u, w)
  {
    var p :| IsPath(adj, p) && p[0] == v && p[|p| - 1] == w;
    var q := [u] + p;
    assert forall k :: 1 <= k < |q| ==> q[k] == p[k - 1];
    assert IsPath(adj, q);
  }

  /** Every neighbour of `w` is marked. */
  ghost predicate Closed(adj: seq<seq<int>>, vis: seq<bool>, w: int)
    requires Bounded(|vis|, adj) && 0 <= w < |vis|
  {
    forall j :: 0 <= j < |adj[w]| ==> vis[adj[w][j]]
  }

  /** A marked set closed under neighbours holds every vertex reachable from a member. */
  lemma ClosedHoldsReachable(adj: seq<seq<int>>, vis: seq<bool>, u: int, w: int)
    requires Bounded(|vis|, adj) && 0 <= u < |vis| && vis[u]
    requires forall x :: 0 <= x < |vis| && vis[x] ==> Closed(adj, vis, x)
    requires Reachable(adj, u, w)
    ensures 0 <= w < |vis| && vis[w]
  {
    var p :| IsPath(adj, p) && p[0] == u && p[|p| - 1] == w;
    var k := 0;
    while k < |p| - 1
      invariant 0 <= k < |p| && vis[p[k]]
    {
      assert p[k + 1] in adj[p[k]];
      var j :| 0 <= j < |adj[p[k]]| && adj[p[k]][j] == p[k + 1];
      assert Closed(adj, vis, p[k]);
      k := k + 1;
    }
  }

  class Graph {
    var V: int
    var adj: seq<seq<int>>

    /** `V` lists, each over the vertices `0..V-1`. */
    ghost predicate Valid()
      reads this
    {
      V >= 0 && Bounded(V, adj)
    }

    /** `Graph(V)`: `V` empty lists. */
    constructor (V: nat)
      ensures Valid() && Undirected(adj) && this.V == V && adj == seq(V, _ => []) && Total(adj) == 0
    {
      this.V := V;
      adj := seq(V, _ => []);
      new;
      assert forall u, v :: 0 <= u < V && 0 <= v < V ==> multiset(adj[u])[v] == 0;
      EmptyTotal(adj);
    }

    /** The copy a by-value `Graph` parameter receives. */
    constructor Copy(g: Graph)
      ensures V == g.V && adj == g.adj
    {
      V := g.V;
      adj := g.adj;
    }

    /** `addEdge(u, v)`. */
    method AddEdge(u: int, v: int)
      requires Valid() && 0 <= u < V && 0 <= v < V
      modifies this
      ensures Valid() && V == old(V) && adj == AddEdgeAdj(old(adj), u, v)
      ensures old(Undirected(adj)) ==> Undirected(adj)
    {
      AddEdgeShape(V, adj, u, v);
      if Undirected(adj) {
        AddEdgeUndirected(adj, u, v);
      }
      adj := adj[u := adj[u] + [v]];
      adj := adj[v := adj[v] + [u]];
    }

    /** `removeEdge(u, v)`. */
    method RemoveEdge(u: int, v: int)
      requires Valid() && 0 <= u < V && 0 <= v < V
      modifies this
      ensures Valid() && V == old(V) && adj == RemoveEdgeAdj(old(adj), u, v)
      ensures old(Undirected(adj)) ==> Undirected(adj)
    {
      RemoveEdgeBounded(V, adj, u, v);
      if Undirected(adj) {
        RemoveEdgeUndirected(adj, u, v);
      }
      adj := adj[u := RemoveFirst(adj[u], v)];
      adj := adj[v := RemoveFirst(adj[v], u)];
    }

    /** `addEdgeBack(u, v)`: the same two appends as `addEdge`. */
    method AddEdgeBack(u: int, v: int)
      requires Valid() && 0 <= u < V && 0 <= v < V
      modifies this
      ensures Valid() && V == old(V) && adj == AddEdgeAdj(old(adj), u, v)
      ensures old(Undirected(adj)) ==> Undirected(adj)
    {
      AddEdgeShape(V, adj, u, v);
      if Undirected(adj) {
        AddEdgeUndirected(adj, u, v);
      }
      adj := adj[u := adj[u] + [v]];
      adj := adj[v := adj[v] + [u]];
    }

    /**
     * `DFSUtil(u, visited)`: marks `u` and, recursively, every unmarked
     * neighbour. Marks stay; every vertex it marks is reachable from `u`; and
     * `u` and every vertex it marks end with all their neighbours marked.
     */
    method DfsUtil(u: int, visited: array<bool>)
      requires Valid() && visited.Length == V && 0 <= u < V
      modifies visited
      ensures Explored(adj, old(visited[..]), visited[..], u)
      decreases 2 * Unmarked(visited[..]) + (if visited[u] then 1 else 0)
    {
      ghost var before := visited[..];
      UnmarkedUpdate(visited[..], u);
      visited[u] := true;
      StartStep(adj, before, visited[..], u);
      var i := 0;
      while i < |adj[u]|
        invariant Progress(adj, before, visited[..], u, i)
      {
        var v := adj[u][i];
        ghost var mid := visited[..];
        if !visited[v] {
          DfsUtil(v, visited);
          ChildStep(adj, before, mid, visited[..], u, i);
        } else {
          SkipStep(adj, before, mid, u, i);
        }
        i := i + 1;
      }
      FinishStep(adj, before, visited[..], u);
    }

    /** `isConnectedAfterRemoval(u, v)`: a search from `u` over fresh marks; is `v` marked? */
    method IsConnectedAfterRemoval(u: int, v: int) returns (r: bool)
      requires Valid() && 0 <= u < V && 0 <= v < V
      ensures r <==> Reachable(adj, u, v)
    {
      var visited := new bool[V](_ => false);
      DfsUtil(u, visited);
      r := visited[v];
      if Reachable(adj, u, v) {
        ClosedHoldsReachable(adj, visited[..], u, v);
      }
    }
  }

  /**
   * What `DFSUtil(u, ...)` promises, from the marks `before` to the marks `after`:
   * marks stay, `u` is marked, every new mark is reachable from `u`, and `u` and
   * every new mark have all their neighbours marked.
   */
  ghost predicate Explored(adj: seq<seq<int>>, before: seq<bool>, after: seq<bool>, u: int)
    requires Bounded(|before|, adj)
  {
    |after| == |before| && 0 <= u < |after| && after[u] &&
    (forall w :: 0 <= w < |before| && before[w] ==> after[w]) &&
    (forall w :: 0 <= w < |after| && after[w] && !before[w] ==> Reachable(adj, u, w)) &&
    (forall w :: 0 <= w < |after| && after[w] && (w == u || !before[w]) ==> Closed(adj, after, w))
  }

  /** The state of `DFSUtil(u, ...)` after its first `i` neighbours. */
  ghost predicate Progress(adj: seq<seq<int>>, before: seq<bool>, cur: seq<bool>, u: int, i: int)
    requires Bounded(|before|, adj)
  {
    |cur| == |before| && 0 <= u < |cur| && 0 <= i <= |adj[u]| && cur[u] &&
    Unmarked(cur) <= Unmarked(before) - (if before[u] then 0 else 1) &&
    (forall w :: 0 <= w < |before| && before[w] ==> cur[w]) &&
    (forall w :: 0 <= w < |cur| && cur[w] && !before[w] ==> Reachable(adj, u, w)) &&
    (forall w :: 0 <= w < |cur| && cur[w] && !before[w] && w != u ==> Closed(adj, cur, w)) &&
    (forall j :: 0 <= j < i ==> cur[adj[u][j]])
  }

  /** Marking `u` starts the scan of its neighbours. */
  lemma StartStep(adj: seq<seq<int>>, before: seq<bool>, cur: seq<bool>, u: int)
    requires Bounded(|before|, adj) && 0 <= u < |before| && cur == before[u := true]
    requires Unmarked(cur) == Unmarked(before) - (if before[u] then 0 else 1)
    ensures Progress(adj, before, cur, u, 0)
  {
    ReachSelf(adj, u);
  }

  /** After the recursive call on the unmarked neighbour `adj[u][i]`, one more neighbour is done. */
  lemma ChildStep(adj: seq<seq<int>>, before: seq<bool>, mid: seq<bool>, post: seq<bool>, u: int, i: int)
    requires Bounded(|before|, adj) && Progress(adj, before, mid, u, i) && i < |adj[u]|
    requires Explored(adj, mid, post, adj[u][i])
    ensures Progress(adj, before, post, u, i + 1)
  {
    var v := adj[u][i];
    MarksGrow(adj, mid, post, u, i);
    forall w | 0 <= w < |post| && post[w] && !mid[w]
      ensures Reachable(adj, u, w)
    {
      ReachStep(adj, u, v, w);
    }
  }

  /** A neighbour already marked is skipped. */
  lemma SkipStep(adj: seq<seq<int>>, before: seq<bool>, cur: seq<bool>, u: int, i: int)
    requires Bounded(|before|, adj) && Progress(adj, before, cur, u, i) && i < |adj[u]| && cur[adj[u][i]]
    ensures Progress(adj, before, cur, u, i + 1)
  {
  }

  /** With every neighbour scanned, `u` is closed too. */
  lemma FinishStep(adj: seq<seq<int>>, before: seq<bool>, cur: seq<bool>, u: int)
    requires Bounded(|before|, adj) && 0 <= u < |before| && Progress(adj, before, cur, u, |adj[u]|)
    ensures Explored(adj, before, cur, u)
  {
    assert Closed(adj, cur, u);
  }

  /** The number of unmarked vertices. */
  function Unmarked(vis: seq<bool>): (r: nat)
    ensures r <= |vis|
  {
    if vis == [] then 0 else (if vis[0] then 0 else 1) + Unmarked(vis[1..])
  }

  lemma {:induction false} UnmarkedUpdate(vis: seq<bool>, i: int)
    requires 0 <= i < |vis|
    ensures Unmarked(vis[i := true]) == Unmarked(vis) - (if vis[i] then 0 else 1)
  {
    if i == 0 {
      assert vis[i := true][1..] == vis[1..];
    } else {
      assert vis[i := true][1..] == vis[1..][i - 1 := true];
      UnmarkedUpdate(vis[1..], i - 1);
    }
  }

  /** Marks that only grow never raise the number of unmarked vertices. */
  lemma {:induction false} UnmarkedMono(a: seq<bool>, b: seq<bool>)
    requires |a| == |b| && forall i :: 0 <= i < |a| && a[i] ==> b[i]
    ensures Unmarked(b) <= Unmarked(a)
  {
    if a != [] {
      UnmarkedMono(a[1..], b[1..]);
    }
  }

  /** A neighbour is never needed again once marked: the marks of `a` survive in `b`, and so do closures. */
  lemma MarksGrow(adj: seq<seq<int>>, a: seq<bool>, b: seq<bool>, u: int, i: int)
    requires Bounded(|a|, adj) && |a| == |b| && 0 <= u < |a| && 0 <= i < |adj[u]|
    requires forall w :: 0 <= w < |a| && a[w] ==> b[w]
    ensures Unmarked(b) <= Unmarked(a)
    ensures forall w :: 0 <= w < |a| && Closed(adj, a, w) ==> Closed(adj, b, w)
  {
    UnmarkedMono(a, b);
  }

  lemma {:induction false} EmptyTotal(adj: seq<seq<int>>)
    requires forall i :: 0 <= i < |adj| ==> |adj[i]| == 0
    ensures Total(adj) == 0
  {
    if adj != [] {
      EmptyTotal(adj[1..]);
    }
  }
}
