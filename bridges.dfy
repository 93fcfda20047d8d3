/**
 * The two bridge tests of `Atividade01/main.cpp`: the naive one, which
 * removes an edge, searches from one end and puts the edge back, and
 * Tarjan's, a depth-first search that gives each vertex a discovery time
 * `disc` and a low-link `low` and reports the tree edges `(u, v)` with
 * `low[v] > disc[u]`.
 *
 * The vectors `bridgeUtilTarjan` receives by reference (`visited`, `disc`,
 * `low`, `parent`, `bridges`, `timeCounter`) are the fields of one
 * `BridgeSearch` object. Its ghost field `log` lists the vertices in the order
 * of their discovery times; its ghost field `closed` marks the vertices whose
 * visit has returned and whose tree edge has been checked.
 */
module Bridges {
  import opened EulerGraph
  import opened DfsForest

  /**
   * `isBridgeNaive(g, u, v)`: the answer is that `v` is not reachable from
   * `u` once `removeEdge(u, v)` is done; afterwards the lists are those of
   * `removeEdge` followed by `addEdgeBack`.
   */
  method IsBridgeNaive(g: Graph, u: int, v: int) returns (r: bool)
    requires g.Valid() && 0 <= u < g.V && 0 <= v < g.V
    modifies g
    ensures g.Valid() && g.V == old(g.V) && (old(Undirected(g.adj)) ==> Undirected(g.adj))
    ensures g.adj == AddEdgeAdj(RemoveEdgeAdj(old(g.adj), u, v), u, v)
    ensures r <==> !Reachable(RemoveEdgeAdj(old(g.adj), u, v), u, v)
  {
    g.RemoveEdge(u, v);
    var connected := g.IsConnectedAfterRemoval(u, v);
    g.AddEdgeBack(u, v);
    r := !connected;
  }

  /**
   * On an edge `{u, v}`, the naive test gives every list back the same
   * entries, and the same length: only the order changes, the edge now at the
   * back of `adj[u]` and of `adj[v]`.
   */
  lemma NaiveRestores(adj: seq<seq<int>>, u: int, v: int)
    requires Bounded(|adj|, adj) && Undirected(adj) && 0 <= u < |adj| && 0 <= v < |adj| && v in adj[u]
    ensures var r := AddEdgeAdj(RemoveEdgeAdj(adj, u, v), u, v);
      |r| == |adj| && forall x :: 0 <= x < |adj| ==> multiset(r[x]) == multiset(adj[x]) && |r[x]| == |adj[x]|
  {
    var a := RemoveEdgeAdj(adj, u, v);
    var r := AddEdgeAdj(a, u, v);
    forall x | 0 <= x < |adj| ensures multiset(r[x]) == multiset(adj[x]) {
      forall y ensures multiset(r[x])[y] == multiset(adj[x])[y] {
        RemoveEdgeCount(adj, u, v, x, y);
        AddEdgeCount(a, u, v, x, y);
      }
    }
    forall x | 0 <= x < |adj| ensures |r[x]| == |adj[x]| {
      assert |multiset(r[x])| == |multiset(adj[x])|;
    }
  }

  /** The state of a Tarjan search. */
  datatype Search = Search(visited: seq<bool>, disc: seq<int>, low: seq<int>, parent: seq<int>,
                           bridges: seq<(int, int)>, tc: int, log: seq<int>, closed: seq<bool>, fin: seq<int>)

  /** How many vertices are marked. */
  function Marked(vis: seq<bool>): (r: nat)
    ensures r <= |vis|
  {
    if vis == [] then 0 else (if vis[0] then 1 else 0) + Marked(vis[1..])
  }

  lemma {:induction false} MarkedUpdate(vis: seq<bool>, i: int)
    requires 0 <= i < |vis| && !vis[i]
    ensures Marked(vis[i := true]) == Marked(vis) + 1
  {
    if i == 0 {
      assert vis[i := true][1..] == vis[1..];
    } else {
      assert vis[i := true][1..] == vis[1..][i - 1 := true];
      MarkedUpdate(vis[1..], i - 1);
    }
  }

  lemma {:induction false} MarkedNone(vis: seq<bool>)
    requires forall i :: 0 <= i < |vis| ==> !vis[i]
    ensures Marked(vis) == 0
  {
    if vis != [] {
      MarkedNone(vis[1..]);
    }
  }

  /** The vectors of a search over `n` vertices. */
  ghost predicate Sized(n: int, s: Search) {
    |s.visited| == n && |s.disc| == n && |s.low| == n && |s.parent| == n && |s.closed| == n && |s.fin| == n
  }

  /**
   * The discovered vertices are those with `disc != 0`, numbered `1..tc` in
   * discovery order (the log), `tc` of them, each with `1 <= low <= disc`;
   * only discovered vertices are closed, each with `disc <= fin <= tc`.
   */
  ghost predicate Stamps(n: int, s: Search)
    requires Sized(n, s)
  {
    |s.log| == s.tc && s.tc == Marked(s.visited) &&
    (forall v :: 0 <= v < n ==> (s.visited[v] <==> s.disc[v] != 0)) &&
    (forall v :: 0 <= v < n && s.visited[v] ==>
       1 <= s.disc[v] <= s.tc && s.log[s.disc[v] - 1] == v && 1 <= s.low[v] <= s.disc[v]) &&
    (forall v :: 0 <= v < n && s.closed[v] ==> s.visited[v] && s.disc[v] <= s.fin[v] <= s.tc)
  }

  /**
   * A set parent is a discovered vertex that lists the child as a neighbour
   * and was discovered before it; once the parent is closed, the child was
   * discovered inside the parent's interval.
   */
  ghost predicate Parents(n: int, adj: seq<seq<int>>, s: Search)
    requires |adj| == n && Sized(n, s)
  {
    forall v {:trigger s.parent[v]} :: 0 <= v < n && s.parent[v] != -1 ==>
      0 <= s.parent[v] < n && s.visited[s.parent[v]] && v in adj[s.parent[v]] &&
      (s.visited[v] ==> s.disc[s.parent[v]] < s.disc[v]) &&
      (s.closed[s.parent[v]] ==> s.visited[v] && s.disc[v] <= s.fin[s.parent[v]])
  }

  /** The intervals `disc..fin` of closed vertices nest. */
  ghost predicate Laminar(n: int, s: Search)
    requires Sized(n, s)
  {
    forall v, w {:trigger s.fin[v], s.disc[w]} ::
      0 <= v < n && 0 <= w < n && s.closed[v] && s.visited[w] && s.disc[v] < s.disc[w] <= s.fin[v] ==>
      s.closed[w] && s.fin[w] <= s.fin[v]
  }

  /** A vertex discovered while `x` was open has a parent discovered no earlier than `x`. */
  ghost predicate Enclosed(n: int, s: Search)
    requires Sized(n, s)
  {
    forall x, w {:trigger s.parent[w], s.visited[x]} ::
      (0 <= x < n && 0 <= w < n && s.visited[x] && s.visited[w] && s.disc[x] < s.disc[w] &&
       (s.closed[x] ==> s.disc[w] <= s.fin[x])) ==>
      0 <= s.parent[w] < n && s.disc[x] <= s.disc[s.parent[w]]
  }

  /** `x` gave `w` its low-link: a closed child with the same `low`, or a discovered non-parent neighbour at `low[w]`. */
  ghost predicate Witness(n: int, adj: seq<seq<int>>, s: Search, w: int, x: int)
    requires |adj| == n && Sized(n, s) && 0 <= w < n
  {
    0 <= x < n &&
    ((s.parent[x] == w && s.closed[x] && s.low[w] == s.low[x]) ||
     (x in adj[w] && x != s.parent[w] && s.visited[x] && s.low[w] == s.disc[x]))
  }

  /** `low[w]` is still `disc[w]`, or some vertex gave it. */
  ghost predicate Attained(n: int, adj: seq<seq<int>>, s: Search, w: int)
    requires |adj| == n && Sized(n, s) && 0 <= w < n
  {
    s.low[w] == s.disc[w] || exists x :: Witness(n, adj, s, w, x)
  }

  /**
   * A closed vertex had every neighbour discovered before it closed, and its
   * low-link is at most the `disc` of each neighbour but its parent, at most
   * the `low` of each closed child, and given by one of them.
   */
  ghost predicate Lows(n: int, adj: seq<seq<int>>, s: Search)
    requires |adj| == n && Sized(n, s)
  {
    (forall w, j :: 0 <= w < n && s.closed[w] && 0 <= j < |adj[w]| ==>
       0 <= adj[w][j] < n && s.visited[adj[w][j]] && s.disc[adj[w][j]] <= s.fin[w]) &&
    (forall w, j {:trigger s.parent[w], adj[w][j]} ::
       0 <= w < n && s.closed[w] && 0 <= j < |adj[w]| && adj[w][j] != s.parent[w] ==>
       0 <= adj[w][j] < n && s.low[w] <= s.disc[adj[w][j]]) &&
    (forall c {:trigger s.parent[c]} :: 0 <= c < n && s.closed[c] && 0 <= s.parent[c] < n ==>
       s.low[s.parent[c]] <= s.low[c]) &&
    (forall w {:trigger Attained(n, adj, s, w)} :: 0 <= w < n && s.closed[w] ==> Attained(n, adj, s, w))
  }

  /**
   * `bridges` lists, once each, exactly the tree edges `(parent[v], v)` of the
   * closed vertices `v` with `low[v] > disc[parent[v]]`.
   */
  ghost predicate Reports(n: int, s: Search)
    requires Sized(n, s)
  {
    (forall b :: b in s.bridges ==> 0 <= b.1 < n && s.closed[b.1] && b.0 == s.parent[b.1] && 0 <= b.0 < n) &&
    (forall v {:trigger s.parent[v]} :: 0 <= v < n && s.closed[v] && s.parent[v] != -1 && 0 <= s.parent[v] < n ==>
       ((s.parent[v], v) in s.bridges <==> s.low[v] > s.disc[s.parent[v]])) &&
    NoDup(s.bridges)
  }

  /** The invariant of a search over `n` vertices with lists `adj`. */
  ghost predicate SearchOk(n: int, adj: seq<seq<int>>, s: Search) {
    Bounded(n, adj) && Sized(n, s) && Stamps(n, s) && Parents(n, adj, s) && Laminar(n, s) && Enclosed(n, s) &&
    Lows(n, adj, s) &&
    Reports(n, s)
  }

  /** Every open vertex was discovered no later than `u`: `u` is the innermost open vertex. */
  ghost predicate Innermost(n: int, s: Search, u: int)
    requires Sized(n, s) && 0 <= u < n
  {
    forall x :: 0 <= x < n && s.visited[x] && !s.closed[x] ==> s.disc[x] <= s.disc[u]
  }

  /** Every child of `u` is discovered. */
  ghost predicate Adopted(n: int, s: Search, u: int)
    requires Sized(n, s)
  {
    forall x {:trigger s.parent[x]} :: 0 <= x < n && s.parent[x] == u ==> s.visited[x]
  }

  /** The first `i` neighbours of `u` are discovered, and each but the parent bounds `low[u]` by its `disc`. */
  ghost predicate Scanned(n: int, adj: seq<seq<int>>, s: Search, u: int, i: int)
    requires |adj| == n && Sized(n, s) && 0 <= u < n && 0 <= i <= |adj[u]|
  {
    forall j :: 0 <= j < i ==>
      0 <= adj[u][j] < n && s.visited[adj[u][j]] && (adj[u][j] != s.parent[u] ==> s.low[u] <= s.disc[adj[u][j]])
  }

  /** The state inside `bridgeUtilTarjan(u)` once its loop has passed `i` neighbours. */
  ghost predicate Visit(n: int, adj: seq<seq<int>>, s: Search, u: int, i: int)
    requires |adj| == n && Sized(n, s) && 0 <= u < n
  {
    0 <= i <= |adj[u]| && s.visited[u] && !s.closed[u] && Innermost(n, s, u) && Adopted(n, s, u) &&
    Scanned(n, adj, s, u, i) && Attained(n, adj, s, u)
  }

  /** `u`, about to be discovered, has as parent an open vertex no earlier than any other open one, or none is open. */
  ghost predicate Frontier(n: int, s: Search, u: int)
    requires Sized(n, s) && 0 <= u < n
  {
    forall x :: 0 <= x < n && s.visited[x] && !s.closed[x] ==> 0 <= s.parent[u] < n && s.disc[x] <= s.disc[s.parent[u]]
  }

  /** The state `findBridgesTarjan` starts from. */
  function Initial(n: nat): Search {
    Search(seq(n, _ => false), seq(n, _ => 0), seq(n, _ => 0), seq(n, _ => -1), [], 0, [], seq(n, _ => false),
           seq(n, _ => 0))
  }

  lemma InitialOk(n: nat, adj: seq<seq<int>>)
    requires Bounded(n, adj)
    ensures SearchOk(n, adj, Initial(n))
  {
    MarkedNone(Initial(n).visited);
  }

  /** The first statements of `bridgeUtilTarjan(u)`: `u` marked, `disc[u] = low[u] = ++timeCounter`. */
  function Discover(s: Search, u: int): Search
    requires 0 <= u < |s.visited| && u < |s.disc| && u < |s.low|
  {
    s.(visited := s.visited[u := true], disc := s.disc[u := s.tc + 1], low := s.low[u := s.tc + 1],
       tc := s.tc + 1, log := s.log + [u])
  }

  /** Discovering `u` keeps the invariant and starts its visit with no neighbour passed. */
  lemma DiscoverOk(n: int, adj: seq<seq<int>>, s: Search, u: int)
    requires SearchOk(n, adj, s) && 0 <= u < n && !s.visited[u] && Frontier(n, s, u)
    ensures SearchOk(n, adj, Discover(s, u)) && Visit(n, adj, Discover(s, u), u, 0)
  {
    var d := Discover(s, u);
    DiscoverStamps(n, s, u);
    DiscoverParents(n, adj, s, u);
    DiscoverLaminar(n, s, u);
    DiscoverEnclosed(n, s, u);
    DiscoverLows(n, adj, s, u);
    DiscoverReports(n, adj, s, u);
    assert Innermost(n, d, u);
    assert Adopted(n, d, u);
  }

  lemma DiscoverStamps(n: int, s: Search, u: int)
    requires Sized(n, s) && Stamps(n, s) && 0 <= u < n && !s.visited[u]
    ensures Sized(n, Discover(s, u)) && Stamps(n, Discover(s, u))
  {
    MarkedUpdate(s.visited, u);
  }

  lemma DiscoverParents(n: int, adj: seq<seq<int>>, s: Search, u: int)
    requires |adj| == n && Sized(n, s) && Stamps(n, s) && Parents(n, adj, s) && 0 <= u < n && !s.visited[u]
    ensures Parents(n, adj, Discover(s, u))
  {
  }

  lemma DiscoverLaminar(n: int, s: Search, u: int)
    requires Sized(n, s) && Stamps(n, s) && Laminar(n, s) && 0 <= u < n && !s.visited[u]
    ensures Laminar(n, Discover(s, u))
  {
  }

  lemma DiscoverEnclosed(n: int, s: Search, u: int)
    requires Sized(n, s) && Stamps(n, s) && Enclosed(n, s) && 0 <= u < n && !s.visited[u] && Frontier(n, s, u)
    ensures Enclosed(n, Discover(s, u))
  {
    var d := Discover(s, u);
    forall x, w | 0 <= x < n && 0 <= w < n && d.visited[x] && d.visited[w] && d.disc[x] < d.disc[w] &&
                  (d.closed[x] ==> d.disc[w] <= d.fin[x])
      ensures 0 <= d.parent[w] < n && d.disc[x] <= d.disc[d.parent[w]]
    {
      if w == u {
        assert x != u && s.visited[x];
        assert !s.closed[x];
      } else {
        assert x != u && s.visited[x] && s.visited[w] && s.disc[x] < s.disc[w];
        assert s.closed[x] ==> s.disc[w] <= s.fin[x];
        assert 0 <= s.parent[w] < n && s.disc[x] <= s.disc[s.parent[w]];
      }
    }
  }

  lemma DiscoverLows(n: int, adj: seq<seq<int>>, s: Search, u: int)
    requires |adj| == n && Sized(n, s) && Stamps(n, s) && Parents(n, adj, s) && Lows(n, adj, s)
    requires 0 <= u < n && !s.visited[u]
    ensures Lows(n, adj, Discover(s, u))
  {
    var d := Discover(s, u);
    forall w | 0 <= w < n && d.closed[w] ensures Attained(n, adj, d, w) {
      assert Attained(n, adj, s, w);
      if s.low[w] != s.disc[w] {
        var x :| Witness(n, adj, s, w, x);
        assert Witness(n, adj, d, w, x);
      }
    }
  }

  lemma DiscoverReports(n: int, adj: seq<seq<int>>, s: Search, u: int)
    requires |adj| == n && Sized(n, s) && Stamps(n, s) && Parents(n, adj, s) && Reports(n, s)
    requires 0 <= u < n && !s.visited[u]
    ensures Reports(n, Discover(s, u))
  {
    var d := Discover(s, u);
    forall v | 0 <= v < n && d.closed[v] && d.parent[v] != -1 && 0 <= d.parent[v] < n
      ensures (d.parent[v], v) in d.bridges <==> d.low[v] > d.disc[d.parent[v]]
    {
      assert v != u && d.parent[v] != u;
    }
  }

  /** `parent[v] = u` for an undiscovered neighbour `v` of the open `u`. */
  lemma SetParentOk(n: int, adj: seq<seq<int>>, s: Search, u: int, v: int)
    requires SearchOk(n, adj, s) && 0 <= u < n && s.visited[u] && !s.closed[u] && v in adj[u] && 0 <= v < n
    requires !s.visited[v] && Innermost(n, s, u)
    ensures SearchOk(n, adj, s.(parent := s.parent[v := u])) && Frontier(n, s.(parent := s.parent[v := u]), v)
  {
    SetParentParents(n, adj, s, u, v);
    SetParentEnclosed(n, s, u, v);
    SetParentLows(n, adj, s, u, v);
    SetParentReports(n, s, u, v);
  }

  lemma SetParentParents(n: int, adj: seq<seq<int>>, s: Search, u: int, v: int)
    requires |adj| == n && Sized(n, s) && Stamps(n, s) && Parents(n, adj, s)
    requires 0 <= u < n && s.visited[u] && !s.closed[u] && v in adj[u] && 0 <= v < n && !s.visited[v]
    ensures Parents(n, adj, s.(parent := s.parent[v := u]))
  {
  }

  lemma SetParentEnclosed(n: int, s: Search, u: int, v: int)
    requires Sized(n, s) && Enclosed(n, s) && 0 <= v < n && !s.visited[v]
    ensures Enclosed(n, s.(parent := s.parent[v := u]))
  {
    var m := s.(parent := s.parent[v := u]);
    forall x, w | 0 <= x < n && 0 <= w < n && m.visited[x] && m.visited[w] && m.disc[x] < m.disc[w] &&
                  (m.closed[x] ==> m.disc[w] <= m.fin[x])
      ensures 0 <= m.parent[w] < n && m.disc[x] <= m.disc[m.parent[w]]
    {
      assert w != v && 0 <= s.parent[w] < n && s.disc[x] <= s.disc[s.parent[w]];
    }
  }

  lemma SetParentLows(n: int, adj: seq<seq<int>>, s: Search, u: int, v: int)
    requires |adj| == n && Sized(n, s) && Stamps(n, s) && Lows(n, adj, s) && 0 <= v < n && !s.visited[v]
    ensures Lows(n, adj, s.(parent := s.parent[v := u]))
  {
    var m := s.(parent := s.parent[v := u]);
    forall w, j | 0 <= w < n && m.closed[w] && 0 <= j < |adj[w]| && adj[w][j] != m.parent[w]
      ensures 0 <= adj[w][j] < n && m.low[w] <= m.disc[adj[w][j]]
    {
      assert w != v && s.parent[w] == m.parent[w];
    }
    forall c | 0 <= c < n && m.closed[c] && 0 <= m.parent[c] < n ensures m.low[m.parent[c]] <= m.low[c] {
      assert c != v && s.parent[c] == m.parent[c];
    }
    forall w | 0 <= w < n && m.closed[w] ensures Attained(n, adj, m, w) {
      assert Attained(n, adj, s, w);
      if s.low[w] != s.disc[w] {
        var x :| Witness(n, adj, s, w, x);
        assert w != v && x != v;
        assert Witness(n, adj, m, w, x);
      }
    }
  }

  lemma SetParentReports(n: int, s: Search, u: int, v: int)
    requires Sized(n, s) && Stamps(n, s) && Reports(n, s) && 0 <= v < n && !s.visited[v]
    ensures Reports(n, s.(parent := s.parent[v := u]))
  {
    var m := s.(parent := s.parent[v := u]);
    forall x | 0 <= x < n && m.closed[x] && m.parent[x] != -1 && 0 <= m.parent[x] < n
      ensures (m.parent[x], x) in m.bridges <==> m.low[x] > m.disc[m.parent[x]]
    {
      assert x != v && s.parent[x] == m.parent[x];
    }
    forall b | b in m.bridges ensures 0 <= b.1 < n && m.closed[b.1] && b.0 == m.parent[b.1] && 0 <= b.0 < n {
      assert b.1 != v;
    }
  }

  /** `low[u] = min(low[u], x)`. */
  function Lowered(s: Search, u: int, x: int): Search
    requires 0 <= u < |s.low|
  {
    s.(low := s.low[u := if s.low[u] <= x then s.low[u] else x])
  }

  /** Lowering `low[u]` for a discovered, unclosed `u` to a positive `x` keeps the invariant. */
  lemma LowerOk(n: int, adj: seq<seq<int>>, s: Search, u: int, x: int)
    requires SearchOk(n, adj, s) && 0 <= u < n && s.visited[u] && !s.closed[u] && 1 <= x
    ensures SearchOk(n, adj, Lowered(s, u, x))
  {
    var l := Lowered(s, u, x);
    assert Stamps(n, l);
    assert Parents(n, adj, l);
    assert Laminar(n, l) && Enclosed(n, l);
    LowerLows(n, adj, s, u, x);
    LowerReports(n, s, u, x);
  }

  lemma LowerLows(n: int, adj: seq<seq<int>>, s: Search, u: int, x: int)
    requires |adj| == n && Sized(n, s) && Lows(n, adj, s) && 0 <= u < n && !s.closed[u]
    ensures Lows(n, adj, Lowered(s, u, x))
  {
    var l := Lowered(s, u, x);
    forall w | 0 <= w < n && l.closed[w] ensures Attained(n, adj, l, w) {
      assert Attained(n, adj, s, w);
      if s.low[w] != s.disc[w] {
        var y :| Witness(n, adj, s, w, y);
        assert Witness(n, adj, l, w, y);
      }
    }
  }

  lemma LowerReports(n: int, s: Search, u: int, x: int)
    requires Sized(n, s) && Reports(n, s) && 0 <= u < n && !s.closed[u]
    ensures Reports(n, Lowered(s, u, x))
  {
    var m := Lowered(s, u, x);
    forall y | 0 <= y < n && m.closed[y] && m.parent[y] != -1 && 0 <= m.parent[y] < n
      ensures (m.parent[y], y) in m.bridges <==> m.low[y] > m.disc[m.parent[y]]
    {
      assert y != u;
    }
  }

  /** The visited neighbour at position `i` is `u`'s parent: the loop passes it. */
  lemma ScanSkip(n: int, adj: seq<seq<int>>, s: Search, u: int, i: int)
    requires |adj| == n && Sized(n, s) && 0 <= u < n && Visit(n, adj, s, u, i) && i < |adj[u]|
    requires 0 <= adj[u][i] < n && s.visited[adj[u][i]] && adj[u][i] == s.parent[u]
    ensures Visit(n, adj, s, u, i + 1)
  {
  }

  /** The visited neighbour `v` at position `i` is not `u`'s parent: `low[u] = min(low[u], disc[v])`. */
  lemma ScanBack(n: int, adj: seq<seq<int>>, s: Search, u: int, i: int)
    requires |adj| == n && Sized(n, s) && 0 <= u < n && Visit(n, adj, s, u, i) && i < |adj[u]|
    requires 0 <= adj[u][i] < n && s.visited[adj[u][i]] && adj[u][i] != s.parent[u]
    ensures Visit(n, adj, Lowered(s, u, s.disc[adj[u][i]]), u, i + 1)
  {
    var v := adj[u][i];
    var l := Lowered(s, u, s.disc[v]);
    if s.low[u] <= s.disc[v] {
      assert l == s;
    } else {
      assert Witness(n, adj, l, u, v);
    }
  }

  /** Closing `v`: its visit has returned at the present clock; `bridges` becomes `b`. */
  function Close(s: Search, v: int, b: seq<(int, int)>): Search
    requires 0 <= v < |s.closed| && v < |s.fin|
  {
    s.(closed := s.closed[v := true], fin := s.fin[v := s.tc], bridges := b)
  }

  /**
   * Closing `v` once its loop has passed every neighbour, when its parent's
   * `low` is already no more than its own, keeps every part of the invariant
   * but the reports.
   */
  lemma CloseOk(n: int, adj: seq<seq<int>>, s: Search, v: int, b: seq<(int, int)>)
    requires SearchOk(n, adj, s) && 0 <= v < n && Visit(n, adj, s, v, |adj[v]|)
    requires 0 <= s.parent[v] < n ==> s.low[s.parent[v]] <= s.low[v]
    ensures Sized(n, Close(s, v, b)) && Stamps(n, Close(s, v, b))
    ensures Parents(n, adj, Close(s, v, b)) && Laminar(n, Close(s, v, b)) && Enclosed(n, Close(s, v, b))
    ensures Lows(n, adj, Close(s, v, b))
  {
    CloseStamps(n, s, v, b);
    CloseParents(n, adj, s, v, b);
    CloseLaminar(n, s, v, b);
    CloseEnclosed(n, s, v, b);
    CloseLows(n, adj, s, v, b);
  }

  lemma CloseStamps(n: int, s: Search, v: int, b: seq<(int, int)>)
    requires Sized(n, s) && Stamps(n, s) && 0 <= v < n && s.visited[v]
    ensures Sized(n, Close(s, v, b)) && Stamps(n, Close(s, v, b))
  {
  }

  lemma CloseParents(n: int, adj: seq<seq<int>>, s: Search, v: int, b: seq<(int, int)>)
    requires |adj| == n && Sized(n, s) && Stamps(n, s) && Parents(n, adj, s) && 0 <= v < n
    requires s.visited[v] && !s.closed[v] && Adopted(n, s, v)
    ensures Parents(n, adj, Close(s, v, b))
  {
  }

  lemma CloseLaminar(n: int, s: Search, v: int, b: seq<(int, int)>)
    requires Sized(n, s) && Stamps(n, s) && Laminar(n, s) && 0 <= v < n && s.visited[v] && !s.closed[v]
    requires Innermost(n, s, v)
    ensures Laminar(n, Close(s, v, b))
  {
    var c := Close(s, v, b);
    forall x, w | 0 <= x < n && 0 <= w < n && c.closed[x] && c.visited[w] && c.disc[x] < c.disc[w] <= c.fin[x]
      ensures c.closed[w] && c.fin[w] <= c.fin[x]
    {
      if x == v {
        assert w != v && s.closed[w];
      } else {
        assert s.closed[w] && s.fin[w] <= s.fin[x];
      }
    }
  }

  lemma CloseEnclosed(n: int, s: Search, v: int, b: seq<(int, int)>)
    requires Sized(n, s) && Enclosed(n, s) && 0 <= v < n && !s.closed[v]
    ensures Enclosed(n, Close(s, v, b))
  {
    var c := Close(s, v, b);
    forall x, w | 0 <= x < n && 0 <= w < n && c.visited[x] && c.visited[w] && c.disc[x] < c.disc[w] &&
                  (c.closed[x] ==> c.disc[w] <= c.fin[x])
      ensures 0 <= c.parent[w] < n && c.disc[x] <= c.disc[c.parent[w]]
    {
      assert s.closed[x] ==> s.disc[w] <= s.fin[x];
    }
  }

  lemma CloseLows(n: int, adj: seq<seq<int>>, s: Search, v: int, b: seq<(int, int)>)
    requires Bounded(n, adj) && Sized(n, s) && Stamps(n, s) && Lows(n, adj, s) && 0 <= v < n
    requires Visit(n, adj, s, v, |adj[v]|)
    requires 0 <= s.parent[v] < n ==> s.low[s.parent[v]] <= s.low[v]
    ensures Lows(n, adj, Close(s, v, b))
  {
    var c := Close(s, v, b);
    forall w | 0 <= w < n && c.closed[w] ensures Attained(n, adj, c, w) {
      assert Attained(n, adj, s, w);
      if s.low[w] != s.disc[w] {
        var y :| Witness(n, adj, s, w, y);
        assert Witness(n, adj, c, w, y);
      }
    }
  }

  /** The tree edge `(u, v)` after `v`'s visit: reported exactly when `low[v] > disc[u]`, then `v` closed. */
  function Report(s: Search, u: int, v: int): Search
    requires 0 <= u < |s.disc| && 0 <= v < |s.low| && v < |s.closed| && v < |s.fin|
  {
    Close(s, v, if s.low[v] > s.disc[u] then s.bridges + [(u, v)] else s.bridges)
  }

  lemma ReportOk(n: int, adj: seq<seq<int>>, s: Search, u: int, v: int)
    requires SearchOk(n, adj, s) && 0 <= u < n && 0 <= v < n && Visit(n, adj, s, v, |adj[v]|) && s.parent[v] == u
    requires s.low[u] <= s.low[v]
    ensures SearchOk(n, adj, Report(s, u, v))
  {
    CloseOk(n, adj, s, v, Report(s, u, v).bridges);
    ReportReports(n, s, u, v);
  }

  lemma ReportReports(n: int, s: Search, u: int, v: int)
    requires Sized(n, s) && Reports(n, s) && 0 <= u < n && 0 <= v < n && !s.closed[v] && s.parent[v] == u
    ensures Reports(n, Report(s, u, v))
  {
    var r := Report(s, u, v);
    assert (u, v) !in s.bridges;
    forall x | 0 <= x < n && r.closed[x] && r.parent[x] != -1 && 0 <= r.parent[x] < n
      ensures (r.parent[x], x) in r.bridges <==> r.low[x] > r.disc[r.parent[x]]
    {
      if x != v {
        assert (r.parent[x], x) != (u, v);
      }
    }
    if r.bridges != s.bridges {
      forall i, j | 0 <= i < j < |r.bridges| ensures r.bridges[i] != r.bridges[j] {
        if j == |s.bridges| {
          assert r.bridges[i] in s.bridges;
        }
      }
    }
  }

  /** A root of the search, once its visit has returned, is closed with nothing reported. */
  lemma CloseRootOk(n: int, adj: seq<seq<int>>, s: Search, v: int)
    requires SearchOk(n, adj, s) && 0 <= v < n && Visit(n, adj, s, v, |adj[v]|) && s.parent[v] == -1
    ensures SearchOk(n, adj, Close(s, v, s.bridges))
  {
    CloseOk(n, adj, s, v, s.bridges);
  }

  /**
   * `b` follows `a` by steps of the visit of `u`: marks and closings stay;
   * the discovery time, low-link and parent of a vertex discovered in `a`
   * stay; only vertices undiscovered in `a` get closed; every vertex
   * discovered since, but `u`, is closed; an undiscovered vertex, and `u`,
   * keep their parent.
   */
  ghost predicate Grows(n: int, a: Search, b: Search, u: int)
    requires Sized(n, a) && Sized(n, b)
  {
    (forall x :: 0 <= x < n && a.visited[x] ==> b.visited[x] && b.disc[x] == a.disc[x] && b.low[x] == a.low[x]) &&
    (forall x {:trigger b.parent[x]} :: 0 <= x < n && a.visited[x] ==> b.parent[x] == a.parent[x]) &&
    (forall x :: 0 <= x < n && a.closed[x] ==> b.closed[x]) &&
    (forall x :: 0 <= x < n && b.closed[x] && !a.closed[x] ==> !a.visited[x]) &&
    (forall x :: 0 <= x < n && b.visited[x] && !a.visited[x] && x != u ==> b.closed[x]) &&
    (forall x {:trigger b.parent[x]} :: 0 <= x < n && !b.visited[x] ==> b.parent[x] == a.parent[x]) &&
    (0 <= u < n ==> b.parent[u] == a.parent[u])
  }

  /** The visit of `u` starts: discovering `u` is a step of its visit. */
  lemma StartGrows(n: int, s: Search, u: int)
    requires Sized(n, s) && Stamps(n, s) && 0 <= u < n && !s.visited[u]
    ensures Sized(n, Discover(s, u)) && Grows(n, s, Discover(s, u), u)
  {
  }

  /** Lowering `low[u]` in the visit of `u` is a step of that visit. */
  lemma LowerGrows(n: int, s0: Search, s: Search, u: int, x: int)
    requires Sized(n, s0) && Sized(n, s) && 0 <= u < n && !s0.visited[u] && Grows(n, s0, s, u)
    ensures Sized(n, Lowered(s, u, x)) && Grows(n, s0, Lowered(s, u, x), u)
  {
  }

  /**
   * After the recursive visit of the child `v` (from `m`, where `parent[v]`
   * was just set, to `c`), the lowering of `low[u]` and the report of `v`'s
   * tree edge, the visit of `u` has only grown since `s0`.
   */
  lemma ChildGrows(n: int, s0: Search, s: Search, m: Search, c: Search, u: int, v: int)
    requires Sized(n, s0) && Sized(n, s) && Sized(n, c)
    requires 0 <= u < n && 0 <= v < n && !s0.visited[u] && s.visited[u] && !s.closed[u] && !s.visited[v]
    requires Grows(n, s0, s, u) && m == s.(parent := s.parent[v := u])
    requires Grows(n, m, c, v) && c.visited[v]
    ensures Sized(n, Report(Lowered(c, u, c.low[v]), u, v))
    ensures Grows(n, s0, Report(Lowered(c, u, c.low[v]), u, v), u)
  {
  }

  /**
   * Back in the loop of `u` after the child `v` at position `i`: once
   * `low[u] = min(low[u], low[v])` and `v`'s report, the loop has passed
   * `i + 1` neighbours.
   */
  lemma ChildVisit(n: int, adj: seq<seq<int>>, s: Search, m: Search, c: Search, u: int, v: int, i: int)
    requires Bounded(n, adj) && Sized(n, s) && Stamps(n, s) && Sized(n, c) && Stamps(n, c) && 0 <= u < n
    requires Visit(n, adj, s, u, i) && i < |adj[u]| && v == adj[u][i] && 0 <= v < n && !s.visited[v]
    requires m == s.(parent := s.parent[v := u]) && Grows(n, m, c, v) && c.visited[v] && !c.closed[v]
    ensures Sized(n, Report(Lowered(c, u, c.low[v]), u, v))
    ensures Visit(n, adj, Report(Lowered(c, u, c.low[v]), u, v), u, i + 1)
  {
    ChildInnermost(n, s, m, c, u, v);
    ChildScanned(n, adj, s, m, c, u, v, i);
    ChildAttained(n, adj, s, m, c, u, v);
  }

  /** After the child `v`, `u` is again the innermost open vertex and all its children are discovered. */
  lemma ChildInnermost(n: int, s: Search, m: Search, c: Search, u: int, v: int)
    requires Sized(n, s) && Sized(n, c) && 0 <= u < n && 0 <= v < n && u != v
    requires s.visited[u] && !s.closed[u] && Innermost(n, s, u) && Adopted(n, s, u) && !s.visited[v]
    requires m == s.(parent := s.parent[v := u]) && Grows(n, m, c, v) && c.visited[v]
    ensures Sized(n, Report(Lowered(c, u, c.low[v]), u, v))
    ensures Innermost(n, Report(Lowered(c, u, c.low[v]), u, v), u)
    ensures Adopted(n, Report(Lowered(c, u, c.low[v]), u, v), u)
  {
    var r := Report(Lowered(c, u, c.low[v]), u, v);
    forall x | 0 <= x < n && r.visited[x] && !r.closed[x] ensures r.disc[x] <= r.disc[u] {
      assert x != v && m.visited[x] && !m.closed[x];
    }
  }

  /** After the child `v` at position `i`, the first `i + 1` neighbours of `u` bound `low[u]`. */
  lemma ChildScanned(n: int, adj: seq<seq<int>>, s: Search, m: Search, c: Search, u: int, v: int, i: int)
    requires Bounded(n, adj) && Sized(n, s) && Sized(n, c) && Stamps(n, c) && 0 <= u < n
    requires 0 <= i < |adj[u]| && Scanned(n, adj, s, u, i) && s.visited[u] && v == adj[u][i] && 0 <= v < n
    requires !s.visited[v] && m == s.(parent := s.parent[v := u]) && Grows(n, m, c, v) && c.visited[v]
    ensures Sized(n, Report(Lowered(c, u, c.low[v]), u, v))
    ensures Scanned(n, adj, Report(Lowered(c, u, c.low[v]), u, v), u, i + 1)
  {
    var r := Report(Lowered(c, u, c.low[v]), u, v);
    assert r.parent[u] == s.parent[u];
    forall j | 0 <= j < i + 1
      ensures 0 <= adj[u][j] < n && r.visited[adj[u][j]] &&
              (adj[u][j] != r.parent[u] ==> r.low[u] <= r.disc[adj[u][j]])
    {
      if j < i {
        assert m.visited[adj[u][j]];
      }
    }
  }

  /** After the child `v`, `low[u]` is still given: by its old witness, or by `v`. */
  lemma ChildAttained(n: int, adj: seq<seq<int>>, s: Search, m: Search, c: Search, u: int, v: int)
    requires |adj| == n && Sized(n, s) && Stamps(n, s) && Sized(n, c) && 0 <= u < n && 0 <= v < n && u != v
    requires s.visited[u] && !s.closed[u] && Attained(n, adj, s, u) && !s.visited[v]
    requires m == s.(parent := s.parent[v := u]) && Grows(n, m, c, v) && c.visited[v] && !c.closed[v]
    ensures Sized(n, Report(Lowered(c, u, c.low[v]), u, v))
    ensures Attained(n, adj, Report(Lowered(c, u, c.low[v]), u, v), u)
  {
    var r := Report(Lowered(c, u, c.low[v]), u, v);
    assert r.parent[v] == u;
    if c.low[u] <= c.low[v] {
      if s.low[u] != s.disc[u] {
        var y :| Witness(n, adj, s, u, y);
        assert y != v;
        assert Witness(n, adj, r, u, y);
      }
    } else {
      assert Witness(n, adj, r, u, v);
    }
  }

  /**
   * Back from the visit of the child `v` of the open `u`: lowering `low[u]`
   * to `low[v]` leaves `v`'s finished visit as it was.
   */
  lemma ChildReturn(n: int, adj: seq<seq<int>>, c: Search, u: int, v: int)
    requires SearchOk(n, adj, c) && 0 <= u < n && 0 <= v < n && c.visited[u] && !c.closed[u]
    requires Visit(n, adj, c, v, |adj[v]|) && c.parent[v] == u
    ensures 1 <= c.low[v] && Visit(n, adj, Lowered(c, u, c.low[v]), v, |adj[v]|)
    ensures Lowered(c, u, c.low[v]).low[u] <= Lowered(c, u, c.low[v]).low[v]
  {
    var l := Lowered(c, u, c.low[v]);
    assert u != v && c.disc[u] < c.disc[v];
    assert Attained(n, adj, c, v);
    if c.low[v] != c.disc[v] {
      var y :| Witness(n, adj, c, v, y);
      assert y != u by {
        if c.parent[y] == v {
          assert c.disc[v] < c.disc[y];
        }
      }
      assert Witness(n, adj, l, v, y);
    }
  }

  /**
   * The vertices below `i` are discovered; the discovered vertices are
   * closed; the undiscovered ones have no parent.
   */
  ghost predicate Roots(n: int, s: Search, i: int)
    requires Sized(n, s) && i <= n
  {
    (forall j :: 0 <= j < i ==> s.visited[j]) &&
    (forall x :: 0 <= x < n && s.visited[x] ==> s.closed[x]) &&
    (forall x {:trigger s.parent[x]} :: 0 <= x < n && !s.visited[x] ==> s.parent[x] == -1)
  }

  /** The visit of the undiscovered root `i` leaves `i` without a parent, and closing it restores `Roots`. */
  lemma RootStep(n: int, a: Search, b: Search, i: int)
    requires Sized(n, a) && Sized(n, b) && 0 <= i < n && Roots(n, a, i) && !a.visited[i]
    requires Grows(n, a, b, i) && b.visited[i]
    ensures b.parent[i] == -1 && Roots(n, Close(b, i, b.bridges), i + 1)
  {
  }

  class BridgeSearch {
    const V: int
    const adj: seq<seq<int>>
    var visited: seq<bool>
    var disc: seq<int>
    var low: seq<int>
    var parent: seq<int>
    var bridges: seq<(int, int)>
    var timeCounter: int
    ghost var log: seq<int>
    ghost var closed: seq<bool>
    ghost var fin: seq<int>

    ghost function State(): Search
      reads this
    {
      Search(visited, disc, low, parent, bridges, timeCounter, log, closed, fin)
    }

    /** The lists are a bounded graph and the state keeps the search invariant. */
    ghost predicate Valid()
      reads this
    {
      V >= 0 && SearchOk(V, adj, State())
    }

    /** The locals `findBridgesTarjan(g)` sets up before its loop. */
    constructor (g: Graph)
      requires g.Valid()
      ensures V == g.V && adj == g.adj && Bounded(V, adj) && State() == Initial(g.V)
    {
      V := g.V;
      adj := g.adj;
      visited := seq(g.V, _ => false);
      disc := seq(g.V, _ => 0);
      low := seq(g.V, _ => 0);
      parent := seq(g.V, _ => -1);
      bridges := [];
      timeCounter := 0;
      log := [];
      closed := seq(g.V, _ => false);
      fin := seq(g.V, _ => 0);
    }

    /**
     * `bridgeUtilTarjan(u, ...)`: discovers `u`, scans its neighbours, visiting
     * the undiscovered ones as children and lowering `low[u]`, and reports
     * each child's tree edge when `low[child] > disc[u]`. On return every
     * neighbour of `u` is discovered, `low[u]` is the least of `disc[u]`, the
     * `low` of its children and the `disc` of its other neighbours, and the
     * vertices discovered during the call are closed.
     */
    method BridgeUtil(u: int)
      requires Valid() && 0 <= u < V && !visited[u] && Frontier(V, State(), u)
      modifies this
      ensures Valid() && Visit(V, adj, State(), u, |adj[u]|)
      ensures Grows(V, old(State()), State(), u)
      ensures Marked(visited) > old(Marked(visited))
      decreases 3 * (V - Marked(visited))
    {
      ghost var s0 := State();
      StartVisit(u);
      var i := 0;
      while i < |adj[u]|
        invariant Valid() && Visit(V, adj, State(), u, i)
        invariant Grows(V, s0, State(), u) && Marked(visited) > Marked(s0.visited)
        decreases |adj[u]| - i
      {
        ScanArc(u, i, s0);
        i := i + 1;
      }
    }

    /** `visited[u] = true; disc[u] = low[u] = ++timeCounter;` */
    method StartVisit(u: int)
      requires Valid() && 0 <= u < V && !visited[u] && Frontier(V, State(), u)
      modifies this`visited, this`disc, this`low, this`timeCounter, this`log
      ensures Valid() && State() == Discover(old(State()), u) && Visit(V, adj, State(), u, 0)
      ensures Grows(V, old(State()), State(), u) && Marked(visited) == old(Marked(visited)) + 1
    {
      ghost var s := State();
      visited := visited[u := true];
      timeCounter := timeCounter + 1;
      disc := disc[u := timeCounter];
      low := low[u := timeCounter];
      log := log + [u];
      assert State() == Discover(s, u);
      DiscoverOk(V, adj, s, u);
      StartGrows(V, s, u);
      MarkedUpdate(s.visited, u);
    }

    /** One turn of the loop of `bridgeUtilTarjan(u)`, on the neighbour at position `i`. */
    method ScanArc(u: int, i: int, ghost s0: Search)
      requires Valid() && 0 <= u < V && 0 <= i < |adj[u]| && Visit(V, adj, State(), u, i)
      requires Sized(V, s0) && !s0.visited[u] && Grows(V, s0, State(), u)
      modifies this
      ensures Valid() && Visit(V, adj, State(), u, i + 1)
      ensures Grows(V, s0, State(), u) && Marked(visited) >= old(Marked(visited))
      decreases 3 * (V - Marked(visited)) + 2
    {
      var v := adj[u][i];
      if !visited[v] {
        Descend(u, i, s0);
      } else if v != parent[u] {
        ghost var s := State();
        ScanBack(V, adj, s, u, i);
        LowerGrows(V, s0, s, u, disc[v]);
        Lower(u, disc[v]);
      } else {
        ScanSkip(V, adj, State(), u, i);
      }
    }

    /** The `if (!visited[v])` branch: `v` becomes a child of `u`, is visited, and its tree edge checked. */
    method Descend(u: int, i: int, ghost s0: Search)
      requires Valid() && 0 <= u < V && 0 <= i < |adj[u]| && Visit(V, adj, State(), u, i) && !visited[adj[u][i]]
      requires Sized(V, s0) && !s0.visited[u] && Grows(V, s0, State(), u)
      modifies this
      ensures Valid() && Visit(V, adj, State(), u, i + 1)
      ensures Grows(V, s0, State(), u) && Marked(visited) > old(Marked(visited))
      decreases 3 * (V - Marked(visited)) + 1
    {
      var v := adj[u][i];
      ghost var s := State();
      SetParent(u, v);
      ghost var m := State();
      BridgeUtil(v);
      ghost var c := State();
      ChildGrows(V, s0, s, m, c, u, v);
      ChildVisit(V, adj, s, m, c, u, v, i);
      ChildReturn(V, adj, c, u, v);
      Lower(u, low[v]);
      ReportTree(u, v);
    }

    /** `parent[v] = u;` */
    method SetParent(u: int, v: int)
      requires Valid() && 0 <= u < V && visited[u] && v in adj[u] && 0 <= v < V && !visited[v]
      requires Innermost(V, State(), u)
      modifies this`parent
      ensures Valid() && State() == old(State()).(parent := old(parent)[v := u]) && Frontier(V, State(), v)
    {
      ghost var s := State();
      parent := parent[v := u];
      assert State() == s.(parent := s.parent[v := u]);
      SetParentOk(V, adj, s, u, v);
    }

    /** `low[u] = min(low[u], x);` */
    method Lower(u: int, x: int)
      requires Valid() && 0 <= u < V && visited[u] && !closed[u] && 1 <= x
      modifies this`low
      ensures Valid() && State() == Lowered(old(State()), u, x)
    {
      ghost var s := State();
      low := low[u := if low[u] <= x then low[u] else x];
      assert State() == Lowered(s, u, x);
      LowerOk(V, adj, s, u, x);
    }

    /** `if (low[v] > disc[u]) bridges.push_back({u, v});`, and `v` is closed. */
    method ReportTree(u: int, v: int)
      requires Valid() && 0 <= u < V && 0 <= v < V && Visit(V, adj, State(), v, |adj[v]|) && parent[v] == u
      requires low[u] <= low[v]
      modifies this`bridges, this`closed, this`fin
      ensures Valid() && State() == Report(old(State()), u, v)
    {
      ghost var s := State();
      ghost var r := Report(s, u, v);
      if low[v] > disc[u] {
        bridges := bridges + [(u, v)];
      }
      closed := closed[v := true];
      fin := fin[v := timeCounter];
      assert bridges == r.bridges && closed == r.closed && fin == r.fin;
      assert State() == r;
      ReportOk(V, adj, s, u, v);
    }

    /**
     * The body of `findBridgesTarjan` from its loop on: visits every vertex
     * and leaves the outcome of the search in the fields.
     */
    method Run()
      requires Bounded(V, adj) && State() == Initial(V)
      modifies this
      ensures Outcome(V, adj, bridges, disc, low, parent, fin)
      ensures Undirected(adj) && Simple(adj) ==> ExactlyBridges(V, adj, bridges)
    {
      InitialOk(V, adj);
      VisitAll();
      SearchDone(V, adj, State());
    }

    /** The loop of `findBridgesTarjan`: `bridgeUtilTarjan(i, ...)` on every vertex still undiscovered. */
    method VisitAll()
      requires Valid() && State() == Initial(V)
      modifies this
      ensures Valid() && Roots(V, State(), V)
    {
      var i := 0;
      while i < V
        invariant Valid() && 0 <= i <= V && Roots(V, State(), i)
      {
        if !visited[i] {
          VisitRoot(i);
        }
        i := i + 1;
      }
    }

    /** `bridgeUtilTarjan(i, ...)` on an undiscovered `i` from the loop of `findBridgesTarjan`: a new root. */
    method VisitRoot(i: int)
      requires Valid() && 0 <= i < V && Roots(V, State(), i) && !visited[i]
      modifies this
      ensures Valid() && Roots(V, State(), i + 1)
    {
      ghost var a := State();
      BridgeUtil(i);
      ghost var b := State();
      RootStep(V, a, b, i);
      CloseRoot(i);
    }

    /** The bookkeeping after a root's visit: the root is closed. */
    method CloseRoot(v: int)
      requires Valid() && 0 <= v < V && Visit(V, adj, State(), v, |adj[v]|) && parent[v] == -1
      modifies this`closed, this`fin
      ensures Valid() && State() == Close(old(State()), v, bridges)
    {
      ghost var s := State();
      closed := closed[v := true];
      fin := fin[v := timeCounter];
      assert State() == Close(s, v, bridges);
      CloseRootOk(V, adj, s, v);
    }
  }

  /**
   * The outcome of `findBridgesTarjan` over `n` vertices with lists `adj`:
   * `disc`, the ghost `fin` and `parent` are a depth-first forest of the
   * graph, `low` its low-links, and `bridges` lists, once each, exactly the
   * tree edges `(u, v)` with `low[v] > disc[u]`.
   */
  ghost predicate Outcome(n: int, adj: seq<seq<int>>, bridges: seq<(int, int)>, disc: seq<int>, low: seq<int>,
                          parent: seq<int>, fin: seq<int>)
  {
    Forest(n, adj, disc, fin, parent) && |low| == n && LowLink(n, adj, disc, low, parent) &&
    (forall b :: b in bridges <==> 0 <= b.1 < n && b.0 == parent[b.1] && b.0 != -1 && low[b.1] > disc[b.0]) &&
    NoDup(bridges)
  }

  /**
   * `bridges` names, in one orientation or the other, exactly the edges
   * `{u, v}` whose removal leaves `v` unreachable from `u`.
   */
  ghost predicate ExactlyBridges(n: int, adj: seq<seq<int>>, bridges: seq<(int, int)>)
    requires Bounded(n, adj)
  {
    forall u, v :: 0 <= u < n && v in adj[u] ==>
      (((u, v) in bridges || (v, u) in bridges) <==> !Reachable(RemoveEdgeAdj(adj, u, v), u, v))
  }

  /**
   * `findBridgesTarjan(g)`, with its local `disc`, `low` and `parent` vectors
   * and the ghost finishing times as extra results. On an undirected graph
   * without parallel edges it reports, in one orientation, exactly the
   * bridges: the edges `{u, v}` whose removal leaves `v` unreachable from
   * `u`. `g` is only read.
   */
  method FindBridgesTarjan(g: Graph) returns (bridges: seq<(int, int)>, disc: seq<int>, low: seq<int>, parent: seq<int>,
                                              ghost fin: seq<int>)
    requires g.Valid()
    ensures Outcome(g.V, g.adj, bridges, disc, low, parent, fin)
    ensures Undirected(g.adj) && Simple(g.adj) ==> ExactlyBridges(g.V, g.adj, bridges)
  {
    var search := new BridgeSearch(g);
    search.Run();
    bridges, disc, low, parent, fin := search.bridges, search.disc, search.low, search.parent, search.fin;
  }

  /** Once every vertex is discovered and closed, the invariant gives the outcome of the search. */
  lemma SearchDone(n: int, adj: seq<seq<int>>, s: Search)
    requires SearchOk(n, adj, s) && Roots(n, s, n)
    ensures Outcome(n, adj, s.bridges, s.disc, s.low, s.parent, s.fin)
    ensures Undirected(adj) && Simple(adj) ==> ExactlyBridges(n, adj, s.bridges)
  {
    DoneForest(n, adj, s);
    DoneLowLink(n, adj, s);
    DoneReports(n, adj, s);
    if Undirected(adj) && Simple(adj) {
      BridgesExact(n, adj, s.bridges, s.disc, s.low, s.parent, s.fin);
    }
  }

  lemma DoneForest(n: int, adj: seq<seq<int>>, s: Search)
    requires Bounded(n, adj) && Sized(n, s) && Stamps(n, s) && Parents(n, adj, s) && Laminar(n, s)
    requires Enclosed(n, s) && Lows(n, adj, s) && Roots(n, s, n)
    ensures Forest(n, adj, s.disc, s.fin, s.parent)
  {
    assert s.tc == n by {
      MarkedAll(s.visited);
    }
    forall v, w | 0 <= v < n && 0 <= w < n && v != w ensures s.disc[v] != s.disc[w] {
      assert s.log[s.disc[v] - 1] == v;
    }
    forall w, x | 0 <= w < n && x in adj[w] ensures 0 <= x < n && s.disc[x] <= s.fin[w] {
      var j :| 0 <= j < |adj[w]| && adj[w][j] == x;
      assert s.closed[w];
    }
  }

  lemma DoneLowLink(n: int, adj: seq<seq<int>>, s: Search)
    requires Bounded(n, adj) && Sized(n, s) && Stamps(n, s) && Lows(n, adj, s) && Roots(n, s, n)
    ensures LowLink(n, adj, s.disc, s.low, s.parent)
  {
    forall w, x | 0 <= w < n && x in adj[w] && x != s.parent[w] ensures 0 <= x < n && s.low[w] <= s.disc[x] {
      var j :| 0 <= j < |adj[w]| && adj[w][j] == x;
      assert s.closed[w];
    }
    forall w | 0 <= w < n ensures LowGiven(n, adj, s.disc, s.low, s.parent, w) {
      assert Attained(n, adj, s, w);
      if s.low[w] != s.disc[w] {
        var x :| Witness(n, adj, s, w, x);
        assert DfsForest.Witness(n, adj, s.disc, s.low, s.parent, w, x);
      }
    }
  }

  lemma DoneReports(n: int, adj: seq<seq<int>>, s: Search)
    requires |adj| == n && Sized(n, s) && Parents(n, adj, s) && Reports(n, s) && Roots(n, s, n)
    ensures forall b :: b in s.bridges <==> 0 <= b.1 < n && b.0 == s.parent[b.1] && b.0 != -1 && s.low[b.1] > s.disc[b.0]
  {
    forall b ensures b in s.bridges <==> 0 <= b.1 < n && b.0 == s.parent[b.1] && b.0 != -1 && s.low[b.1] > s.disc[b.0] {
      if 0 <= b.1 < n && b.0 == s.parent[b.1] && b.0 != -1 && s.low[b.1] > s.disc[b.0] {
        assert s.closed[b.1];
        assert (s.parent[b.1], b.1) == b;
      }
    }
  }

  lemma {:induction false} MarkedAll(vis: seq<bool>)
    requires forall i :: 0 <= i < |vis| ==> vis[i]
    ensures Marked(vis) == |vis|
  {
    if vis != [] {
      MarkedAll(vis[1..]);
    }
  }

  /**
   * On an undirected graph without parallel edges, the outcome of the search
   * reports an edge, in one orientation or the other, exactly when it is a
   * bridge.
   */
  lemma BridgesExact(n: int, adj: seq<seq<int>>, bridges: seq<(int, int)>, disc: seq<int>, low: seq<int>,
                     parent: seq<int>, fin: seq<int>)
    requires Outcome(n, adj, bridges, disc, low, parent, fin) && Undirected(adj) && Simple(adj)
    ensures ExactlyBridges(n, adj, bridges)
  {
    forall u, v | 0 <= u < n && v in adj[u]
      ensures ((u, v) in bridges || (v, u) in bridges) <==> !Reachable(RemoveEdgeAdj(adj, u, v), u, v)
    {
      EdgeExact(n, adj, disc, fin, low, parent, u, v);
    }
  }
}
