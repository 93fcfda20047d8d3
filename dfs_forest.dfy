/**
 * What a finished depth-first search leaves behind, and why Tarjan's bridge
 * test is right. The search of `Atividade01/main.cpp` gives every vertex a
 * discovery time `disc`, a parent in the search forest, and a low-link
 * `low`; a ghost finishing time `fin` (the clock when the vertex's visit
 * returns) makes the forest explicit: the subtree of `a` is the set of
 * vertices discovered in `disc[a]..fin[a]`.
 *
 * `Forest` and `LowLink` are the facts the search establishes; from them
 * alone `EdgeExact` proves that, on an undirected graph without parallel
 * edges, a tree edge `(u, v)` has `low[v] > disc[u]` exactly when removing
 * it disconnects `u` from `v`, and that no other edge is a bridge.
 */
module DfsForest {
  import opened EulerGraph

  /**
   * A depth-first forest over `n` vertices:
   * - discovery times are distinct and each vertex finishes after it starts;
   * - subtrees nest: a vertex discovered inside `v`'s interval finishes inside it;
   * - a parent is a neighbour whose interval holds the child's discovery;
   * - the parent is the nearest enclosing vertex: every `x` whose interval
   *   holds `disc[w]` is the parent of `w` or an ancestor of it;
   * - every neighbour of `w` is discovered before `w` finishes.
   */
  ghost predicate Forest(n: int, adj: seq<seq<int>>, disc: seq<int>, fin: seq<int>, parent: seq<int>) {
    Bounded(n, adj) && |disc| == n && |fin| == n && |parent| == n &&
    (forall v :: 0 <= v < n ==> 1 <= disc[v] <= fin[v] <= n) &&
    (forall v, w :: 0 <= v < n && 0 <= w < n && v != w ==> disc[v] != disc[w]) &&
    (forall v, w :: 0 <= v < n && 0 <= w < n && disc[v] < disc[w] <= fin[v] ==> fin[w] <= fin[v]) &&
    (forall w {:trigger parent[w]} :: 0 <= w < n && parent[w] != -1 ==>
       0 <= parent[w] < n && w in adj[parent[w]] && disc[parent[w]] < disc[w] <= fin[parent[w]]) &&
    (forall x, w {:trigger parent[w], disc[x]} :: 0 <= x < n && 0 <= w < n && disc[x] < disc[w] <= fin[x] ==>
       0 <= parent[w] < n && disc[x] <= disc[parent[w]]) &&
    (forall w, x :: 0 <= w < n && x in adj[w] ==> 0 <= x < n && disc[x] <= fin[w])
  }

  /** `x` gives `w` its low-link: a child with the same `low`, or a non-parent neighbour discovered at `low[w]`. */
  ghost predicate Witness(n: int, adj: seq<seq<int>>, disc: seq<int>, low: seq<int>, parent: seq<int>, w: int, x: int)
    requires |adj| == n && |disc| == n && |low| == n && |parent| == n && 0 <= w < n
  {
    0 <= x < n && ((parent[x] == w && low[w] == low[x]) || (x in adj[w] && x != parent[w] && low[w] == disc[x]))
  }

  /** `low[w]` is `disc[w]` or given by some vertex. */
  ghost predicate LowGiven(n: int, adj: seq<seq<int>>, disc: seq<int>, low: seq<int>, parent: seq<int>, w: int)
    requires |adj| == n && |disc| == n && |low| == n && |parent| == n && 0 <= w < n
  {
    low[w] == disc[w] || exists x :: Witness(n, adj, disc, low, parent, w, x)
  }

  /**
   * `low[w]` is the least of `disc[w]`, the `low` of `w`'s children and the
   * `disc` of `w`'s neighbours other than its parent: it is at most each of
   * them and, unless it is `disc[w]`, equal to one of them.
   */
  ghost predicate LowLink(n: int, adj: seq<seq<int>>, disc: seq<int>, low: seq<int>, parent: seq<int>)
    requires |adj| == n && |disc| == n && |low| == n && |parent| == n
  {
    (forall w :: 0 <= w < n ==> low[w] <= disc[w]) &&
    (forall c {:trigger parent[c]} :: 0 <= c < n && 0 <= parent[c] < n ==> low[parent[c]] <= low[c]) &&
    (forall w, x {:trigger parent[w], x in adj[w]} :: 0 <= w < n && x in adj[w] && x != parent[w] ==>
       0 <= x < n && low[w] <= disc[x]) &&
    (forall w {:trigger LowGiven(n, adj, disc, low, parent, w)} :: 0 <= w < n ==> LowGiven(n, adj, disc, low, parent, w))
  }

  /** A path extended by one step. */
  lemma ReachSnoc(r: seq<seq<int>>, a: int, p: int, w: int)
    requires Reachable(r, a, p) && 0 <= p < |r| && w in r[p] && 0 <= w < |r|
    ensures Reachable(r, a, w)
  {
    var q :| IsPath(r, q) && q[0] == a && q[|q| - 1] == p;
    var q2 := q + [w];
    assert forall k :: 0 <= k < |q| ==> q2[k] == q[k];
    assert IsPath(r, q2);
  }

  /** Two paths joined end to start. */
  lemma ReachTrans(r: seq<seq<int>>, a: int, b: int, c: int)
    requires Reachable(r, a, b) && Reachable(r, b, c)
    ensures Reachable(r, a, c)
  {
    var p :| IsPath(r, p) && p[0] == a && p[|p| - 1] == b;
    var q :| IsPath(r, q) && q[0] == b && q[|q| - 1] == c;
    var pq := p + q[1..];
    assert forall k :: 0 <= k < |p| ==> pq[k] == p[k];
    assert forall k :: |p| <= k < |pq| ==> pq[k] == q[k - |p| + 1];
    assert IsPath(r, pq);
  }

  /** In an undirected graph every list entry has its partner entry. */
  lemma EdgeBack(adj: seq<seq<int>>, x: int, y: int)
    requires Undirected(adj) && 0 <= x < |adj| && 0 <= y < |adj| && y in adj[x]
    ensures x in adj[y]
  {
    assert y in multiset(adj[x]);
    assert multiset(adj[x])[y] == multiset(adj[y])[x];
  }

  /** In an undirected graph reachability is symmetric. */
  lemma ReachSym(r: seq<seq<int>>, a: int, b: int)
    requires Undirected(r) && Reachable(r, a, b)
    ensures Reachable(r, b, a)
  {
    var p :| IsPath(r, p) && p[0] == a && p[|p| - 1] == b;
    var q := seq(|p|, k requires 0 <= k < |p| => p[|p| - 1 - k]);
    forall k | 0 <= k < |q| - 1 ensures q[k + 1] in r[q[k]] {
      var m := |p| - 2 - k;
      assert q[k] == p[m + 1] && q[k + 1] == p[m];
      EdgeBack(r, p[m], p[m + 1]);
    }
    assert IsPath(r, q);
  }

  /** Reachability either way round, on an undirected graph. */
  lemma ReachSymIff(r: seq<seq<int>>, a: int, b: int)
    requires Undirected(r)
    ensures Reachable(r, a, b) <==> Reachable(r, b, a)
  {
    if Reachable(r, a, b) {
      ReachSym(r, a, b);
    }
    if Reachable(r, b, a) {
      ReachSym(r, b, a);
    }
  }

  /** A list without repeats holds each value at most once. */
  lemma NoDupOnce(s: seq<int>, x: int)
    requires NoDup(s)
    ensures multiset(s)[x] <= 1
  {
    if x in s {
      var k := FirstIndex(s, x);
      assert s == s[..k] + [x] + s[k + 1..];
      assert x !in s[..k];
      assert x !in s[k + 1..];
      assert multiset(s) == multiset(s[..k]) + multiset{x} + multiset(s[k + 1..]);
    }
  }

  /** Removing the edge `{u, v}` keeps every other entry. */
  lemma RemoveKeeps(adj: seq<seq<int>>, u: int, v: int, a: int, b: int)
    requires Undirected(adj) && 0 <= u < |adj| && 0 <= v < |adj| && v in adj[u] && 0 <= a < |adj| && b in adj[a]
    requires (a, b) != (u, v) && (a, b) != (v, u)
    ensures b in RemoveEdgeAdj(adj, u, v)[a]
  {
    assert b in multiset(adj[a]);
    RemoveEdgeCount(adj, u, v, a, b);
  }

  /** Removing the edge `{u, v}` adds no entry. */
  lemma RemoveSub(adj: seq<seq<int>>, u: int, v: int, a: int, b: int)
    requires Undirected(adj) && 0 <= u < |adj| && 0 <= v < |adj| && v in adj[u] && 0 <= a < |adj|
    requires b in RemoveEdgeAdj(adj, u, v)[a]
    ensures b in adj[a]
  {
    assert b in multiset(RemoveEdgeAdj(adj, u, v)[a]);
    RemoveEdgeCount(adj, u, v, a, b);
  }

  /** Removing `{u, v}` and removing `{v, u}` give the same lists. */
  lemma RemoveSwap(adj: seq<seq<int>>, u: int, v: int)
    requires 0 <= u < |adj| && 0 <= v < |adj|
    ensures RemoveEdgeAdj(adj, u, v) == RemoveEdgeAdj(adj, v, u)
  {
  }

  /** The tree path from `a` down to a vertex `w` of its subtree, when the graph `r` keeps its edges. */
  lemma {:induction false} DownReach(n: int, adj: seq<seq<int>>, disc: seq<int>, fin: seq<int>, parent: seq<int>,
                                     r: seq<seq<int>>, a: int, w: int)
    requires Forest(n, adj, disc, fin, parent) && |r| == n && 0 <= a < n && 0 <= w < n
    requires disc[a] <= disc[w] <= fin[a]
    requires forall y :: 0 <= y < n && disc[a] < disc[y] <= disc[w] && 0 <= parent[y] < n ==> y in r[parent[y]]
    ensures Reachable(r, a, w)
    decreases disc[w] - disc[a]
  {
    if w == a {
      ReachSelf(r, a);
    } else {
      var p := parent[w];
      assert 0 <= p < n && disc[a] <= disc[p] < disc[w];
      DownReach(n, adj, disc, fin, parent, r, a, p);
      ReachSnoc(r, a, p, w);
    }
  }

  /** The low-link of `v` is at most that of every vertex of its subtree. */
  lemma {:induction false} LowBelow(n: int, adj: seq<seq<int>>, disc: seq<int>, fin: seq<int>, low: seq<int>,
                                    parent: seq<int>, v: int, z: int)
    requires Forest(n, adj, disc, fin, parent) && |low| == n && LowLink(n, adj, disc, low, parent)
    requires 0 <= v < n && 0 <= z < n && disc[v] <= disc[z] <= fin[v]
    ensures low[v] <= low[z]
    decreases disc[z] - disc[v]
  {
    if z != v {
      var p := parent[z];
      assert 0 <= p < n && disc[v] <= disc[p] < disc[z];
      LowBelow(n, adj, disc, fin, low, parent, v, p);
    }
  }

  /**
   * A low-link below `disc[v]` comes from an edge: some `z` of `v`'s
   * subtree has a neighbour `x`, not its parent, discovered at `low[v]`.
   */
  lemma {:induction false} LowWitness(n: int, adj: seq<seq<int>>, disc: seq<int>, fin: seq<int>, low: seq<int>,
                                      parent: seq<int>, v: int) returns (z: int, x: int)
    requires Forest(n, adj, disc, fin, parent) && |low| == n && LowLink(n, adj, disc, low, parent)
    requires 0 <= v < n && low[v] < disc[v]
    ensures 0 <= z < n && disc[v] <= disc[z] <= fin[v]
    ensures x in adj[z] && x != parent[z] && 0 <= x < n && disc[x] == low[v]
    decreases fin[v] - disc[v]
  {
    assert LowGiven(n, adj, disc, low, parent, v);
    var c :| Witness(n, adj, disc, low, parent, v, c);
    if c in adj[v] && c != parent[v] && low[v] == disc[c] {
      z, x := v, c;
    } else {
      assert parent[c] == v && low[v] == low[c];
      assert disc[v] < disc[c] <= fin[v] && fin[c] <= fin[v];
      z, x := LowWitness(n, adj, disc, fin, low, parent, c);
    }
  }

  /**
   * Soundness: on the tree edge `(u, v)` with `low[v] > disc[u]`, where `v`
   * lists `u` once, no path joins `u` to `v` once the edge is removed.
   */
  lemma CutSound(n: int, adj: seq<seq<int>>, disc: seq<int>, fin: seq<int>, low: seq<int>, parent: seq<int>,
                 u: int, v: int)
    requires Forest(n, adj, disc, fin, parent) && |low| == n && LowLink(n, adj, disc, low, parent)
    requires Undirected(adj) && 0 <= v < n && parent[v] == u && 0 <= u < n && NoDup(adj[v]) && low[v] > disc[u]
    ensures !Reachable(RemoveEdgeAdj(adj, u, v), u, v)
  {
    var r := RemoveEdgeAdj(adj, u, v);
    forall p | IsPath(r, p) && p[0] == v ensures disc[v] <= disc[p[|p| - 1]] <= fin[v] {
      PathStays(n, adj, disc, fin, low, parent, u, v, p);
    }
    RemoveEdgeUndirected(adj, u, v);
    ReachSymIff(r, u, v);
  }

  /** Every path of the reduced graph from `v` stays in `v`'s subtree. */
  lemma PathStays(n: int, adj: seq<seq<int>>, disc: seq<int>, fin: seq<int>, low: seq<int>, parent: seq<int>,
                  u: int, v: int, p: seq<int>)
    requires Forest(n, adj, disc, fin, parent) && |low| == n && LowLink(n, adj, disc, low, parent)
    requires Undirected(adj) && 0 <= v < n && parent[v] == u && 0 <= u < n && NoDup(adj[v]) && low[v] > disc[u]
    requires IsPath(RemoveEdgeAdj(adj, u, v), p) && p[0] == v
    ensures disc[v] <= disc[p[|p| - 1]] <= fin[v]
  {
    var k := 0;
    while k < |p| - 1
      invariant 0 <= k < |p| && disc[v] <= disc[p[k]] <= fin[v]
    {
      StaysBelow(n, adj, disc, fin, low, parent, u, v, p[k], p[k + 1]);
      k := k + 1;
    }
  }

  /** One step of `CutSound`: an edge of the reduced graph leaves no vertex of `v`'s subtree. */
  lemma StaysBelow(n: int, adj: seq<seq<int>>, disc: seq<int>, fin: seq<int>, low: seq<int>, parent: seq<int>,
                   u: int, v: int, z: int, x: int)
    requires Forest(n, adj, disc, fin, parent) && |low| == n && LowLink(n, adj, disc, low, parent)
    requires Undirected(adj) && 0 <= v < n && parent[v] == u && 0 <= u < n && NoDup(adj[v]) && low[v] > disc[u]
    requires 0 <= z < n && disc[v] <= disc[z] <= fin[v] && x in RemoveEdgeAdj(adj, u, v)[z]
    ensures 0 <= x < n && disc[v] <= disc[x] <= fin[v]
  {
    var r := RemoveEdgeAdj(adj, u, v);
    assert v in adj[u];
    RemoveSub(adj, u, v, z, x);
    assert 0 <= x < n && disc[x] <= fin[z] <= fin[v];
    assert x in multiset(r[z]);
    RemoveEdgeCount(adj, u, v, v, u);
    NoDupOnce(adj[v], u);
    LowBelow(n, adj, disc, fin, low, parent, v, z);
    EdgeBack(adj, z, x);
    assert z != v ==> disc[v] <= disc[parent[z]];
    Nearest(n, adj, disc, fin, parent, x, v);
  }

  /** The nearest-ancestor fact of `Forest` for one pair. */
  lemma Nearest(n: int, adj: seq<seq<int>>, disc: seq<int>, fin: seq<int>, parent: seq<int>, x: int, w: int)
    requires Forest(n, adj, disc, fin, parent) && 0 <= x < n && 0 <= w < n
    ensures disc[x] < disc[w] <= fin[x] ==> 0 <= parent[w] < n && disc[x] <= disc[parent[w]]
  {
  }

  /**
   * Completeness: on the tree edge `(u, v)` with `low[v] <= disc[u]`, a path
   * joins `u` to `v` without the edge: down `v`'s subtree, across the edge
   * that gives `low[v]`, and down the tree to `u`.
   */
  lemma CutComplete(n: int, adj: seq<seq<int>>, disc: seq<int>, fin: seq<int>, low: seq<int>, parent: seq<int>,
                    u: int, v: int)
    requires Forest(n, adj, disc, fin, parent) && |low| == n && LowLink(n, adj, disc, low, parent)
    requires Undirected(adj) && 0 <= v < n && parent[v] == u && 0 <= u < n && low[v] <= disc[u]
    ensures Reachable(RemoveEdgeAdj(adj, u, v), u, v)
  {
    var r := RemoveEdgeAdj(adj, u, v);
    assert v in adj[u] && disc[u] < disc[v];
    var z, x := LowWitness(n, adj, disc, fin, low, parent, v);
    forall y | 0 <= y < n && disc[v] < disc[y] <= disc[z] && 0 <= parent[y] < n ensures y in r[parent[y]] {
      RemoveKeeps(adj, u, v, parent[y], y);
    }
    DownReach(n, adj, disc, fin, parent, r, v, z);
    RemoveKeeps(adj, u, v, z, x);
    ReachSnoc(r, v, z, x);
    EdgeBack(adj, z, x);
    assert disc[x] <= disc[u] <= fin[x];
    forall y | 0 <= y < n && disc[x] < disc[y] <= disc[u] && 0 <= parent[y] < n ensures y in r[parent[y]] {
      RemoveKeeps(adj, u, v, parent[y], y);
    }
    DownReach(n, adj, disc, fin, parent, r, x, u);
    ReachTrans(r, v, x, u);
    RemoveEdgeUndirected(adj, u, v);
    ReachSym(r, v, u);
  }

  /** An edge `{u, v}` that is not a tree edge, with `u` discovered first, lies on a cycle of tree edges. */
  lemma BackKept(n: int, adj: seq<seq<int>>, disc: seq<int>, fin: seq<int>, parent: seq<int>, u: int, v: int)
    requires Forest(n, adj, disc, fin, parent) && Undirected(adj)
    requires 0 <= u < n && v in adj[u] && parent[v] != u && disc[u] < disc[v]
    ensures Reachable(RemoveEdgeAdj(adj, u, v), u, v)
  {
    var r := RemoveEdgeAdj(adj, u, v);
    assert 0 <= v < n && disc[v] <= fin[u];
    forall y | 0 <= y < n && disc[u] < disc[y] <= disc[v] && 0 <= parent[y] < n ensures y in r[parent[y]] {
      RemoveKeeps(adj, u, v, parent[y], y);
    }
    DownReach(n, adj, disc, fin, parent, r, u, v);
  }

  /**
   * On an undirected graph without parallel edges, with a forest and
   * low-links as a depth-first search leaves them, the edge `{u, v}` is a
   * bridge exactly when it is a tree edge `(parent[w], w)` with
   * `low[w] > disc[parent[w]]`.
   */
  lemma EdgeExact(n: int, adj: seq<seq<int>>, disc: seq<int>, fin: seq<int>, low: seq<int>, parent: seq<int>,
                  u: int, v: int)
    requires Forest(n, adj, disc, fin, parent) && |low| == n && LowLink(n, adj, disc, low, parent)
    requires Undirected(adj) && Simple(adj) && 0 <= u < n && v in adj[u]
    ensures 0 <= v < n
    ensures ((parent[v] == u && low[v] > disc[u]) || (parent[u] == v && low[u] > disc[v])) <==>
            !Reachable(RemoveEdgeAdj(adj, u, v), u, v)
  {
    assert 0 <= v < n;
    EdgeBack(adj, u, v);
    if u == v {
      ReachSelf(RemoveEdgeAdj(adj, u, v), u);
    } else if parent[v] == u {
      if low[v] > disc[u] {
        CutSound(n, adj, disc, fin, low, parent, u, v);
      } else {
        CutComplete(n, adj, disc, fin, low, parent, u, v);
      }
    } else if parent[u] == v {
      RemoveSwap(adj, u, v);
      RemoveEdgeUndirected(adj, u, v);
      if low[u] > disc[v] {
        CutSound(n, adj, disc, fin, low, parent, v, u);
        if Reachable(RemoveEdgeAdj(adj, u, v), u, v) {
          ReachSym(RemoveEdgeAdj(adj, u, v), u, v);
        }
      } else {
        CutComplete(n, adj, disc, fin, low, parent, v, u);
        ReachSym(RemoveEdgeAdj(adj, u, v), v, u);
      }
    } else if disc[u] < disc[v] {
      BackKept(n, adj, disc, fin, parent, u, v);
    } else {
      BackKept(n, adj, disc, fin, parent, v, u);
      RemoveSwap(adj, u, v);
      RemoveEdgeUndirected(adj, u, v);
      ReachSym(RemoveEdgeAdj(adj, u, v), v, u);
    }
  }
}
