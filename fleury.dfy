/**
 * Fleury's walk of `Atividade01/main.cpp`, in its two variants: from `u`,
 * while `adj[u]` is not empty, pick the next vertex (the only neighbour, or
 * the first neighbour whose edge the bridge test rejects, or else the first
 * neighbour), remove that edge, move on and append the vertex to the path.
 *
 * The graph is taken by value: each walk works on a fresh `Graph.Copy`, so
 * the caller's graph is never in a `modifies` clause.
 *
 * The walk is specified against `Used(adj, p)`, the lists left once the
 * edges along `p` have been removed in turn from `adj`. Because the naive
 * bridge test puts the checked edge back at the end of both lists, the lists
 * the walk holds agree with `Used` up to the order within each list
 * (`Equiv`), which is all `removeEdge` and the emptiness test depend on.
 */
module Fleury {
  import opened EulerGraph
  import opened Bridges

  /** The same lists up to the order of the entries of each. */
  ghost predicate Equiv(a: seq<seq<int>>, b: seq<seq<int>>) {
    |a| == |b| && forall x :: 0 <= x < |a| ==> multiset(a[x]) == multiset(b[x])
  }

  /** Lists that agree up to order have the same total length. */
  lemma {:induction false} EquivTotal(a: seq<seq<int>>, b: seq<seq<int>>)
    requires Equiv(a, b)
    ensures Total(a) == Total(b)
  {
    if a != [] {
      assert |a[0]| == |multiset(a[0])| == |multiset(b[0])| == |b[0]|;
      assert Equiv(a[1..], b[1..]) by {
        forall x | 0 <= x < |a[1..]| ensures multiset(a[1..][x]) == multiset(b[1..][x]) {
          assert a[1..][x] == a[x + 1] && b[1..][x] == b[x + 1];
        }
      }
      EquivTotal(a[1..], b[1..]);
    }
  }

  /** `removeEdge(u, v)` on lists that agree up to order gives lists that agree up to order. */
  lemma EquivRemove(a: seq<seq<int>>, b: seq<seq<int>>, u: int, v: int)
    requires Equiv(a, b) && 0 <= u < |a| && 0 <= v < |a|
    ensures Equiv(RemoveEdgeAdj(a, u, v), RemoveEdgeAdj(b, u, v))
  {
    var a1 := a[u := RemoveFirst(a[u], v)];
    var b1 := b[u := RemoveFirst(b[u], v)];
    RemoveFirstSame(a[u], b[u], v);
    assert Equiv(a1, b1);
    RemoveFirstSame(a1[v], b1[v], u);
  }

  /** Lists that agree up to order have the same paths, so the same reachability. */
  lemma EquivReachable(a: seq<seq<int>>, b: seq<seq<int>>, u: int, w: int)
    requires Equiv(a, b) && Reachable(a, u, w)
    ensures Reachable(b, u, w)
  {
    var p :| IsPath(a, p) && p[0] == u && p[|p| - 1] == w;
    forall k | 0 <= k < |p| - 1 ensures p[k + 1] in b[p[k]] {
      assert p[k + 1] in multiset(a[p[k]]);
    }
    assert IsPath(b, p);
  }

  lemma EquivTrans(a: seq<seq<int>>, b: seq<seq<int>>, c: seq<seq<int>>)
    requires Equiv(a, b) && Equiv(b, c)
    ensures Equiv(a, c)
  {
  }

  /** Lists that agree up to order with bounded, undirected lists are bounded and undirected. */
  lemma EquivKeeps(a: seq<seq<int>>, b: seq<seq<int>>, n: int)
    requires Equiv(a, b) && Bounded(n, a) && Undirected(a)
    ensures Bounded(n, b) && Undirected(b)
  {
    forall w, j | 0 <= w < n && 0 <= j < |b[w]| ensures 0 <= b[w][j] < n {
      assert b[w][j] in multiset(b[w]);
      assert b[w][j] in a[w];
    }
  }

  /** The edge `{u, v}` is no bridge: `v` stays reachable from `u` once it is removed. */
  ghost predicate Kept(adj: seq<seq<int>>, u: int, v: int) {
    0 <= u < |adj| && 0 <= v < |adj| && Reachable(RemoveEdgeAdj(adj, u, v), u, v)
  }

  /** Lists that agree up to order keep the same edges. */
  lemma KeptEquiv(a: seq<seq<int>>, b: seq<seq<int>>, u: int, v: int)
    requires Equiv(a, b) && 0 <= u < |a| && 0 <= v < |a|
    ensures Kept(a, u, v) <==> Kept(b, u, v)
  {
    assert Equiv(b, a);
    EquivRemove(a, b, u, v);
    EquivRemove(b, a, u, v);
    if Kept(a, u, v) {
      EquivReachable(RemoveEdgeAdj(a, u, v), RemoveEdgeAdj(b, u, v), u, v);
    }
    if Kept(b, u, v) {
      EquivReachable(RemoveEdgeAdj(b, u, v), RemoveEdgeAdj(a, u, v), u, v);
    }
  }

  /**
   * Fleury's rule on the list `adj[u]`: `next` is its first entry whose edge
   * is no bridge, or, when every edge is a bridge, its first entry.
   */
  ghost predicate FirstKept(adj: seq<seq<int>>, u: int, next: int)
    requires 0 <= u < |adj|
  {
    (exists k :: 0 <= k < |adj[u]| && next == adj[u][k] && Kept(adj, u, next) &&
       forall j :: 0 <= j < k ==> !Kept(adj, u, adj[u][j])) ||
    (|adj[u]| > 0 && next == adj[u][0] && forall j :: 0 <= j < |adj[u]| ==> !Kept(adj, u, adj[u][j]))
  }

  /**
   * The lists once `isBridgeNaive(g, u, x)` has been called, in turn, on the
   * entries `x` at positions `0..k-1` of `adj[u]`, each read from the list as
   * the previous call left it: every call moves the entry it checks to the
   * back of the list.
   */
  function Probed(adj: seq<seq<int>>, u: int, k: nat): (r: seq<seq<int>>)
    requires 0 <= u < |adj|
    ensures |r| == |adj|
  {
    if k == 0 then adj
    else
      var a := Probed(adj, u, k - 1);
      if k - 1 < |a[u]| && 0 <= a[u][k - 1] < |a| then AddEdgeAdj(RemoveEdgeAdj(a, u, a[u][k - 1]), u, a[u][k - 1])
      else a
  }

  /** The entry the loop of `fleuryEulerianPathNaive` checks at position `k`. */
  function Probe(adj: seq<seq<int>>, u: int, k: nat): int
    requires 0 <= u < |adj|
  {
    var a := Probed(adj, u, k);
    if k < |a[u]| then a[u][k] else -1
  }

  lemma SameLength(a: seq<seq<int>>, b: seq<seq<int>>, u: int)
    requires Equiv(a, b) && 0 <= u < |a|
    ensures |a[u]| == |b[u]|
  {
    assert |a[u]| == |multiset(a[u])| == |multiset(b[u])| == |b[u]|;
  }

  /** One check only reorders the lists. */
  lemma RetestEquiv(p: seq<seq<int>>, u: int, v: int)
    requires Bounded(|p|, p) && Undirected(p) && 0 <= u < |p| && v in p[u]
    ensures var r := AddEdgeAdj(RemoveEdgeAdj(p, u, v), u, v); Equiv(r, p) && Bounded(|p|, r) && Undirected(r)
  {
    NaiveRestores(p, u, v);
    var r := AddEdgeAdj(RemoveEdgeAdj(p, u, v), u, v);
    assert Equiv(p, r);
    EquivKeeps(p, r, |p|);
  }

  /** The checks only reorder the lists. */
  lemma {:induction false} ProbedEquiv(adj: seq<seq<int>>, u: int, k: nat)
    requires Bounded(|adj|, adj) && Undirected(adj) && 0 <= u < |adj|
    ensures Equiv(Probed(adj, u, k), adj) && Bounded(|adj|, Probed(adj, u, k)) && Undirected(Probed(adj, u, k))
  {
    if k > 0 {
      ProbedEquiv(adj, u, k - 1);
      var p := Probed(adj, u, k - 1);
      if k - 1 < |p[u]| && 0 <= p[u][k - 1] < |p| {
        RetestEquiv(p, u, p[u][k - 1]);
        EquivTrans(Probed(adj, u, k), p, adj);
      }
    }
  }

  /** None of the first `k` entries the naive loop checks is kept. */
  ghost predicate NoneKept(adj: seq<seq<int>>, u: int, k: nat)
    requires 0 <= u < |adj|
  {
    forall j :: 0 <= j < k ==> !Kept(adj, u, Probe(adj, u, j))
  }

  /**
   * The outcome of the naive loop on `adj[u]`, leaving the lists `h`: the
   * first checked entry whose edge is kept, or, when every check reports a
   * bridge, the first entry of the rotated list.
   */
  ghost predicate NaiveChoice(adj: seq<seq<int>>, u: int, next: int, h: seq<seq<int>>)
    requires 0 <= u < |adj|
  {
    (exists k :: 0 <= k < |adj[u]| && next == Probe(adj, u, k) && Kept(adj, u, next) &&
       NoneKept(adj, u, k) && h == Probed(adj, u, k + 1)) ||
    (NoneKept(adj, u, |adj[u]|) && h == Probed(adj, u, |adj[u]|) && |h[u]| > 0 && next == h[u][0])
  }

  lemma ChoiceFound(adj: seq<seq<int>>, u: int, k: nat, next: int, h: seq<seq<int>>)
    requires 0 <= u < |adj| && k < |adj[u]| && next == Probe(adj, u, k) && Kept(adj, u, next)
    requires NoneKept(adj, u, k) && h == Probed(adj, u, k + 1)
    ensures NaiveChoice(adj, u, next, h)
  {
  }

  lemma ChoiceFallback(adj: seq<seq<int>>, u: int, next: int, h: seq<seq<int>>)
    requires 0 <= u < |adj| && NoneKept(adj, u, |adj[u]|) && h == Probed(adj, u, |adj[u]|)
    requires |h[u]| > 0 && next == h[u][0]
    ensures NaiveChoice(adj, u, next, h)
  {
  }

  /** After `addEdgeBack(u, v)` the list of `u` holds `v`. */
  lemma AddListed(r: seq<seq<int>>, u: int, v: int)
    requires 0 <= u < |r| && 0 <= v < |r|
    ensures v in AddEdgeAdj(r, u, v)[u]
  {
    var a := r[u := r[u] + [v]];
    assert a[u][|a[u]| - 1] == v;
    if u == v {
      assert AddEdgeAdj(r, u, v)[u] == a[u] + [u];
    } else {
      assert AddEdgeAdj(r, u, v)[u] == a[u];
    }
  }

  lemma NoneKeptStep(adj: seq<seq<int>>, u: int, k: nat)
    requires 0 <= u < |adj| && NoneKept(adj, u, k) && !Kept(adj, u, Probe(adj, u, k))
    ensures NoneKept(adj, u, k + 1)
  {
  }

  /** Erasing the first `x` from `s` when it sits at position `k`. */
  lemma RemoveAt(s: seq<int>, k: nat, x: int)
    requires k < |s| && s[k] == x && forall j :: 0 <= j < k ==> s[j] != x
    ensures RemoveFirst(s, x) == s[..k] + s[k + 1..]
  {
    assert FirstIndex(s, x) == k;
  }

  /** The lists of a star: vertex `0` lists `row`, and each of `1`, `2`, `3` lists only `0`. */
  ghost predicate Star(p: seq<seq<int>>, row: seq<int>) {
    |p| == 4 && p[0] == row && forall i :: 1 <= i < 4 ==> p[i] == [0]
  }

  /** Checking a leaf `v` of a star moves it from its place in `row` to the back. */
  lemma StarRetest(p: seq<seq<int>>, pre: seq<int>, v: int, post: seq<int>)
    requires Star(p, pre + [v] + post) && 1 <= v < 4 && v !in pre
    ensures Star(AddEdgeAdj(RemoveEdgeAdj(p, 0, v), 0, v), pre + post + [v])
  {
    var k := |pre|;
    var row := pre + [v] + post;
    assert forall j :: 0 <= j < k ==> row[j] != v by {
      forall j | 0 <= j < k ensures row[j] != v {
        assert row[j] == pre[j];
      }
    }
    RemoveAt(row, k, v);
    assert row[..k] == pre && row[k + 1..] == post;
    RemoveAt([0], 0, 0);
    var r := RemoveEdgeAdj(p, 0, v);
    assert r == p[0 := pre + post][v := []];
    var b := AddEdgeAdj(r, 0, v);
    assert p[v] == [0] && r[0] + [v] == pre + post + [v];
    assert b[v] == [0];
    assert b == p[0 := pre + post + [v]];
  }

  /** The check at position `k` of a star, where `row` lists `v` at `k`, yields `row'`. */
  lemma ProbedStep(s: seq<seq<int>>, k: nat, row: seq<int>, v: int, row': seq<int>)
    requires |s| == 4 && Star(Probed(s, 0, k), row) && 1 <= v < 4
    requires k < |row| && row[k] == v && v !in row[..k] && row' == row[..k] + row[k + 1..] + [v]
    ensures Star(Probed(s, 0, k + 1), row')
  {
    assert row == row[..k] + [v] + row[k + 1..];
    StarRetest(Probed(s, 0, k), row[..k], v, row[k + 1..]);
  }

  /**
   * The loop does not check every neighbour: at the centre of a star listing
   * `1, 2, 3` it checks `1`, then `3` (now at position 1), then `3` again,
   * and when all three are bridges falls back to `2`, which it never checked.
   */
  lemma NaiveSkips(s: seq<seq<int>>)
    requires s == [[1, 2, 3], [0], [0], [0]]
    ensures Probe(s, 0, 0) == 1 && Probe(s, 0, 1) == 3 && Probe(s, 0, 2) == 3
    ensures Probed(s, 0, 3)[0] == [2, 1, 3]
  {
    ProbedStep(s, 0, [1, 2, 3], 1, [2, 3, 1]);
    ProbedStep(s, 1, [2, 3, 1], 3, [2, 1, 3]);
    ProbedStep(s, 2, [2, 1, 3], 3, [2, 1, 3]);
  }

  /** `removeEdge(u, v)` where both ends name lists. */
  function Take(a: seq<seq<int>>, u: int, v: int): (r: seq<seq<int>>)
    ensures |r| == |a|
  {
    if 0 <= u < |a| && 0 <= v < |a| then RemoveEdgeAdj(a, u, v) else a
  }

  /** The lists left once the edges along `p` are removed in turn from `adj`. */
  function Used(adj: seq<seq<int>>, p: seq<int>): (r: seq<seq<int>>)
    ensures |r| == |adj|
    decreases |p|
  {
    if |p| <= 1 then adj else Take(Used(adj, p[..|p| - 1]), p[|p| - 2], p[|p| - 1])
  }

  /** `p` is a walk in `adj` that takes, at each step, an edge not taken before. */
  ghost predicate Trail(adj: seq<seq<int>>, p: seq<int>)
    decreases |p|
  {
    |p| >= 1 && 0 <= p[|p| - 1] < |adj| &&
    (|p| == 1 || (Trail(adj, p[..|p| - 1]) && p[|p| - 1] in Used(adj, p[..|p| - 1])[p[|p| - 2]]))
  }

  lemma UsedUnfold(adj: seq<seq<int>>, q: seq<int>)
    requires |q| > 1
    ensures Used(adj, q) == Take(Used(adj, q[..|q| - 1]), q[|q| - 2], q[|q| - 1])
  {
  }

  /** The parts of `p + [x]`: everything but the last vertex is `p`, the last is `x`. */
  lemma SnocParts(p: seq<int>, q: seq<int>, u: int, x: int)
    requires |p| >= 1 && q == p + [x] && u == p[|p| - 1]
    ensures |q| == |p| + 1 && q[..|q| - 1] == p && q[|q| - 2] == u && q[|q| - 1] == x
  {
    assert q[..|q| - 1] == p;
  }

  /** One more vertex `x` after `u`, the end of `p`: the edge `{u, x}` is taken from what `p` left. */
  lemma UsedStep(adj: seq<seq<int>>, p: seq<int>, q: seq<int>, u: int, x: int)
    requires |q| >= 2 && q[..|q| - 1] == p && q[|q| - 2] == u && q[|q| - 1] == x
    ensures Used(adj, q) == Take(Used(adj, p), u, x)
  {
  }

  /** Walking on to `x` removes the edge from the end of `p` to `x`. */
  lemma UsedSnoc(adj: seq<seq<int>>, p: seq<int>, x: int)
    requires |p| >= 1 && 0 <= p[|p| - 1] < |adj| && 0 <= x < |adj|
    ensures Used(adj, p + [x]) == RemoveEdgeAdj(Used(adj, p), p[|p| - 1], x)
  {
    var q, u := p + [x], p[|p| - 1];
    SnocParts(p, q, u, x);
    UsedStep(adj, p, q, u, x);
  }

  /** A trail goes on along any edge still left at its end. */
  lemma TrailExtend(adj: seq<seq<int>>, p: seq<int>, x: int)
    requires Trail(adj, p) && 0 <= x < |adj| && x in Used(adj, p)[p[|p| - 1]]
    ensures Trail(adj, p + [x])
    ensures Used(adj, p + [x]) == RemoveEdgeAdj(Used(adj, p), p[|p| - 1], x)
  {
    var q, u := p + [x], p[|p| - 1];
    SnocParts(p, q, u, x);
    UsedStep(adj, p, q, u, x);
    TrailStep(adj, p, q, u, x);
  }

  /** The trail step of `TrailExtend`, on plain variables. */
  lemma TrailStep(adj: seq<seq<int>>, p: seq<int>, q: seq<int>, u: int, x: int)
    requires Trail(adj, p) && 0 <= x < |adj| && u == p[|p| - 1] && x in Used(adj, p)[u]
    requires |q| == |p| + 1 && q[..|q| - 1] == p && q[|q| - 2] == u && q[|q| - 1] == x
    ensures Trail(adj, q)
  {
  }

  /**
   * Along a trail of an undirected graph every step removes exactly one edge:
   * the lists left are undirected and two entries shorter in total per step,
   * so a trail has at most `|E| + 1` vertices.
   */
  lemma {:induction false} TrailTotal(adj: seq<seq<int>>, p: seq<int>)
    requires Undirected(adj) && Trail(adj, p)
    ensures Undirected(Used(adj, p))
    ensures Total(Used(adj, p)) + 2 * (|p| - 1) == Total(adj)
    decreases |p|
  {
    if |p| > 1 {
      var q := p[..|p| - 1];
      var u, v := p[|p| - 2], p[|p| - 1];
      assert Trail(adj, q) && v in Used(adj, q)[u];
      assert q[|q| - 1] == u;
      TrailTotal(adj, q);
      var a := Used(adj, q);
      UsedUnfold(adj, p);
      assert Used(adj, p) == RemoveEdgeAdj(a, u, v);
      RemoveEdgeTotal(a, u, v);
      RemoveEdgeUndirected(a, u, v);
    }
  }

  /**
   * One step of the walk: `removeEdge(u, next)` on lists `h` that agree with
   * `Used(adj, p)` leaves lists that agree with `Used(adj, p + [next])`, the
   * path is still a trail, and the total length drops.
   */
  lemma StepOk(adj: seq<seq<int>>, p: seq<int>, h: seq<seq<int>>, next: int)
    requires Trail(adj, p) && Equiv(h, Used(adj, p)) && Undirected(h)
    requires 0 <= next < |adj| && next in h[p[|p| - 1]]
    ensures Trail(adj, p + [next])
    ensures Equiv(RemoveEdgeAdj(h, p[|p| - 1], next), Used(adj, p + [next]))
    ensures Total(RemoveEdgeAdj(h, p[|p| - 1], next)) < Total(h)
  {
    var u := p[|p| - 1];
    assert next in multiset(Used(adj, p)[u]) by {
      assert next in multiset(h[u]);
    }
    TrailExtend(adj, p, next);
    EquivRemove(h, Used(adj, p), u, next);
    RemoveEdgeTotal(h, u, next);
  }

  /** The walk has stopped: no edge is left at its last vertex, and `Trail` and `TrailTotal` apply. */
  lemma StuckOk(adj: seq<seq<int>>, p: seq<int>, h: seq<seq<int>>)
    requires Undirected(adj) && Trail(adj, p) && Equiv(h, Used(adj, p)) && |h[p[|p| - 1]]| == 0
    ensures Used(adj, p)[p[|p| - 1]] == []
    ensures Total(Used(adj, p)) + 2 * (|p| - 1) == Total(adj)
  {
    var u := p[|p| - 1];
    assert |Used(adj, p)[u]| == |multiset(Used(adj, p)[u])| == |multiset(h[u])| == 0;
    TrailTotal(adj, p);
  }

  /** The walk so far: a trail of `adj` from `start`, with undirected lists `h` that agree with what it left. */
  ghost predicate Walk(adj: seq<seq<int>>, h: seq<seq<int>>, start: int, path: seq<int>) {
    Undirected(h) && |path| >= 1 && path[0] == start && Trail(adj, path) && Equiv(h, Used(adj, path))
  }

  lemma WalkStart(adj: seq<seq<int>>, start: int)
    requires Undirected(adj) && 0 <= start < |adj|
    ensures Walk(adj, adj, start, [start])
  {
  }

  /** Taking the edge from the last vertex `u` to `next` extends the walk and shortens the lists. */
  lemma WalkStep(adj: seq<seq<int>>, h0: seq<seq<int>>, p0: seq<int>, start: int, u: int, next: int,
                 h1: seq<seq<int>>, p1: seq<int>)
    requires Walk(adj, h0, start, p0) && u == p0[|p0| - 1] && 0 <= next < |adj| && next in h0[u]
    requires h1 == RemoveEdgeAdj(h0, u, next) && p1 == p0 + [next]
    ensures Walk(adj, h1, start, p1) && p1[|p1| - 1] == next && Total(h1) < Total(h0)
  {
    StepOk(adj, p0, h0, next);
    RemoveEdgeUndirected(h0, u, next);
  }

  /** Reordering the lists, as the naive bridge test does, keeps the walk. */
  lemma WalkEquiv(adj: seq<seq<int>>, h0: seq<seq<int>>, h1: seq<seq<int>>, start: int, path: seq<int>)
    requires Walk(adj, h0, start, path) && Equiv(h1, h0) && Undirected(h1)
    ensures Walk(adj, h1, start, path) && Total(h1) == Total(h0)
  {
    EquivTotal(h1, h0);
  }

  /** A walk stuck at a vertex with no edge left has the guarantees of `FleuryNaive` and `FleuryTarjan`. */
  lemma WalkDone(adj: seq<seq<int>>, h: seq<seq<int>>, start: int, path: seq<int>)
    requires Undirected(adj) && Walk(adj, h, start, path) && |h| == |adj| && |h[path[|path| - 1]]| == 0
    ensures Used(adj, path)[path[|path| - 1]] == []
    ensures Total(Used(adj, path)) + 2 * (|path| - 1) == Total(adj)
  {
    StuckOk(adj, path, h);
  }

  /**
   * The choice of `fleuryEulerianPathNaive`. The range-based `for` walks
   * `adj[u]` by position up to its initial length, while each
   * `isBridgeNaive(g, u, v)` moves the checked entry to the back of the list;
   * the length is restored each time, so position `k` always exists and is
   * read from the list as it is then.
   */
  method NextNaive(h: Graph, u: int) returns (next: int)
    requires h.Valid() && Undirected(h.adj) && 0 <= u < h.V && |h.adj[u]| > 0
    modifies h
    ensures h.Valid() && Undirected(h.adj) && h.V == old(h.V) && Equiv(h.adj, old(h.adj))
    ensures 0 <= next < h.V && next in h.adj[u]
    ensures |old(h.adj[u])| == 1 ==> next == old(h.adj[u][0]) && h.adj == old(h.adj)
    ensures |old(h.adj[u])| > 1 ==> NaiveChoice(old(h.adj), u, next, h.adj)
  {
    if |h.adj[u]| == 1 {
      next := h.adj[u][0];
    } else {
      ghost var a := h.adj;
      ghost var m;
      next, m := ScanNaive(h, u, a);
      ProbedEquiv(a, u, m);
    }
  }

  /**
   * The range-based `for` of `fleuryEulerianPathNaive` on a vertex with more
   * than one neighbour, with its fallback to the first neighbour.
   */
  method ScanNaive(h: Graph, u: int, ghost a: seq<seq<int>>) returns (next: int, ghost m: nat)
    requires a == h.adj && Bounded(|a|, a) && Undirected(a) && h.V == |a| && 0 <= u < h.V && |a[u]| > 1
    modifies h
    ensures h.V == old(h.V) && h.adj == Probed(a, u, m) && 0 <= next < |a| && next in h.adj[u]
    ensures NaiveChoice(a, u, next, h.adj)
  {
    next := -1;
    m := 0;
    var n := |h.adj[u]|;
    var k := 0;
    while k < n
      invariant h.V == |a| && 0 <= k <= n && next == -1 && h.adj == Probed(a, u, k) && NoneKept(a, u, k)
      decreases n - k
    {
      var v, isBridge := CheckAt(h, u, k, a);
      if !isBridge {
        next := v;
        m := k + 1;
        break;
      }
      k := k + 1;
    }
    if next == -1 {
      next := Fallback(h, u, a);
      m := k;
    }
  }

  /** When every check reports a bridge, `fleuryEulerianPathNaive` takes the first entry of the rotated list. */
  method Fallback(h: Graph, u: int, ghost a: seq<seq<int>>) returns (next: int)
    requires Bounded(|a|, a) && Undirected(a) && h.V == |a| && 0 <= u < h.V && |a[u]| > 1
    requires h.adj == Probed(a, u, |a[u]|) && NoneKept(a, u, |a[u]|)
    ensures 0 <= next < |a| && next in h.adj[u] && NaiveChoice(a, u, next, h.adj)
  {
    ProbedEquiv(a, u, |a[u]|);
    SameLength(h.adj, a, u);
    next := h.adj[u][0];
    ChoiceFallback(a, u, next, h.adj);
  }

  /** One turn of that loop: `isBridgeNaive(g, u, v)` on the entry `v` at position `k`. */
  method CheckAt(h: Graph, u: int, k: int, ghost a: seq<seq<int>>) returns (v: int, isBridge: bool)
    requires Bounded(|a|, a) && Undirected(a) && h.V == |a|
    requires 0 <= u < h.V && 0 <= k < |a[u]| && h.adj == Probed(a, u, k) && NoneKept(a, u, k)
    modifies h
    ensures h.V == old(h.V) && h.adj == Probed(a, u, k + 1)
    ensures 0 <= v < h.V && v in h.adj[u]
    ensures if isBridge then NoneKept(a, u, k + 1) else NaiveChoice(a, u, v, h.adj)
  {
    ProbedEquiv(a, u, k);
    SameLength(h.adj, a, u);
    v := h.adj[u][k];
    ghost var prev := h.adj;
    isBridge := IsBridgeNaive(h, u, v);
    NaiveRestores(prev, u, v);
    assert Equiv(h.adj, prev);
    KeptEquiv(prev, a, u, v);
    assert v in multiset(prev[u]);
    assert v in multiset(h.adj[u]);
    if isBridge {
      NoneKeptStep(a, u, k);
    } else {
      ChoiceFound(a, u, k, v, h.adj);
    }
  }

  /** One turn of the naive walk: choose `next` from `u` and remove that edge. */
  method TakeNaive(h: Graph, ghost adj: seq<seq<int>>, ghost start: int, ghost path: seq<int>, u: int)
    returns (next: int)
    requires h.Valid() && h.V == |adj| && Walk(adj, h.adj, start, path) && u == path[|path| - 1]
    requires |h.adj[u]| > 0
    modifies h
    ensures h.Valid() && h.V == old(h.V) && 0 <= next < h.V
    ensures Walk(adj, h.adj, start, path + [next]) && Total(h.adj) < old(Total(h.adj))
  {
    ghost var h0 := h.adj;
    next := NextNaive(h, u);
    WalkEquiv(adj, h0, h.adj, start, path);
    ghost var h1 := h.adj;
    h.RemoveEdge(u, next);
    WalkStep(adj, h1, path, start, u, next, h.adj, path + [next]);
  }

  /**
   * `fleuryEulerianPathNaive(g, start, show)`, returning the path it would
   * print: it starts at `start`, is a trail of `g`, stops at a vertex with no
   * edge left, and has one vertex more than the edges it removed.
   */
  method FleuryNaive(g: Graph, start: int) returns (path: seq<int>)
    requires g.Valid() && Undirected(g.adj) && 0 <= start < g.V
    ensures |path| >= 1 && path[0] == start && Trail(g.adj, path)
    ensures Used(g.adj, path)[path[|path| - 1]] == []
    ensures Total(Used(g.adj, path)) + 2 * (|path| - 1) == Total(g.adj)
  {
    ghost var adj := g.adj;
    var h := new Graph.Copy(g);
    var u := start;
    path := [u];
    WalkStart(adj, start);
    while |h.adj[u]| != 0
      invariant h.Valid() && h.V == |adj| && 0 <= u < |adj|
      invariant Walk(adj, h.adj, start, path) && path[|path| - 1] == u
      decreases Total(h.adj)
    {
      var next := TakeNaive(h, adj, start, path, u);
      path := path + [next];
      u := next;
    }
    WalkDone(adj, h.adj, start, path);
  }

  /** The inner scan of `fleuryEulerianPathTarjan`: is `{u, v}` reported, in either orientation? */
  method IsReported(bridges: seq<(int, int)>, u: int, v: int) returns (isBridge: bool)
    ensures isBridge <==> (u, v) in bridges || (v, u) in bridges
  {
    isBridge := false;
    var k := 0;
    while k < |bridges|
      invariant 0 <= k <= |bridges|
      invariant forall j :: 0 <= j < k ==> bridges[j] != (u, v) && bridges[j] != (v, u)
    {
      var b := bridges[k];
      if (b.0 == u && b.1 == v) || (b.0 == v && b.1 == u) {
        isBridge := true;
        break;
      }
      k := k + 1;
    }
  }

  /**
   * The choice of `fleuryEulerianPathTarjan`: for each neighbour in list
   * order, the bridges of the whole graph are computed afresh, and the first
   * neighbour whose edge is not among them is taken; the graph is only read.
   * On an undirected graph without parallel edges, where the reported edges
   * are exactly the bridges, that is Fleury's rule.
   */
  method NextTarjan(h: Graph, u: int) returns (next: int)
    requires h.Valid() && 0 <= u < h.V && |h.adj[u]| > 0
    ensures 0 <= next < h.V && next in h.adj[u]
    ensures |h.adj[u]| == 1 ==> next == h.adj[u][0]
    ensures Undirected(h.adj) && Simple(h.adj) ==> FirstKept(h.adj, u, next)
  {
    next := -1;
    var k := 0;
    while k < |h.adj[u]|
      invariant 0 <= k <= |h.adj[u]| && next == -1
      invariant Undirected(h.adj) && Simple(h.adj) ==> forall j :: 0 <= j < k ==> !Kept(h.adj, u, h.adj[u][j])
    {
      var v := h.adj[u][k];
      var bridges;
      ghost var disc, low, parent, fin;
      bridges, disc, low, parent, fin := FindBridgesTarjan(h);
      var isBridge := IsReported(bridges, u, v);
      assert Undirected(h.adj) && Simple(h.adj) ==> (isBridge <==> !Kept(h.adj, u, v));
      if !isBridge {
        next := v;
        break;
      }
      k := k + 1;
    }
    if next == -1 {
      next := h.adj[u][0];
    }
  }

  /** One turn of the Tarjan walk: choose `next` from `u` and remove that edge. */
  method TakeTarjan(h: Graph, ghost adj: seq<seq<int>>, ghost start: int, ghost path: seq<int>, u: int)
    returns (next: int)
    requires h.Valid() && h.V == |adj| && Walk(adj, h.adj, start, path) && u == path[|path| - 1]
    requires |h.adj[u]| > 0
    modifies h
    ensures h.Valid() && h.V == old(h.V) && 0 <= next < h.V
    ensures Walk(adj, h.adj, start, path + [next]) && Total(h.adj) < old(Total(h.adj))
  {
    next := NextTarjan(h, u);
    ghost var h0 := h.adj;
    h.RemoveEdge(u, next);
    WalkStep(adj, h0, path, start, u, next, h.adj, path + [next]);
  }

  /**
   * `fleuryEulerianPathTarjan(g, start, show)`, returning the path it would
   * print, with the same guarantees as `FleuryNaive`.
   */
  method FleuryTarjan(g: Graph, start: int) returns (path: seq<int>)
    requires g.Valid() && Undirected(g.adj) && 0 <= start < g.V
    ensures |path| >= 1 && path[0] == start && Trail(g.adj, path)
    ensures Used(g.adj, path)[path[|path| - 1]] == []
    ensures Total(Used(g.adj, path)) + 2 * (|path| - 1) == Total(g.adj)
  {
    ghost var adj := g.adj;
    var h := new Graph.Copy(g);
    var u := start;
    path := [u];
    WalkStart(adj, start);
    while |h.adj[u]| != 0
      invariant h.Valid() && h.V == |adj| && 0 <= u < |adj|
      invariant Walk(adj, h.adj, start, path) && path[|path| - 1] == u
      decreases Total(h.adj)
    {
      var next := TakeTarjan(h, adj, start, path, u);
      path := path + [next];
      u := next;
    }
    WalkDone(adj, h.adj, start, path);
  }
}
