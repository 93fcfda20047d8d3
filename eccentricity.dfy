/**
 * The adjacency-matrix graph of `Questao02.cpp`: `addEdge`, breadth-first
 * distances from a vertex, and the eccentricity of one vertex or of all of
 * them. `INT_MAX` marks an unreachable vertex, as in the C++.
 *
 * The meaning of a distance is given by `Ball(adj, s, k)`, the vertices that
 * can be reached from `s` in at most `k` steps along entries equal to 1, and
 * `Dist(adj, s, v)`, the least such `k` (or `INT_MAX` when there is none).
 */
module Eccentricity {

  const INT_MAX: int := 0x7FFF_FFFF

  /** Every row of `adj` has `|adj|` entries. */
  predicate Square(adj: seq<seq<int>>) {
    forall u :: 0 <= u < |adj| ==> |adj[u]| == |adj|
  }

  /** The vertex set `{0, ..., n - 1}`. */
  function Vertices(n: nat): (r: set<int>)
    ensures forall v :: v in r <==> 0 <= v < n
    ensures |r| == n
  {
    if n == 0 then {} else Vertices(n - 1) + {n - 1}
  }

  /** The vertices one step away from some vertex of `b`. */
  ghost function Next(adj: seq<seq<int>>, b: set<int>): set<int>
    requires Square(adj)
  {
    set w | 0 <= w < |adj| && HasNeighbourIn(adj, b, w)
  }

  /** Some vertex of `b` has an edge to `w`. */
  ghost predicate HasNeighbourIn(adj: seq<seq<int>>, b: set<int>, w: int)
    requires Square(adj) && 0 <= w < |adj|
  {
    exists u :: u in b && 0 <= u < |adj| && adj[u][w] == 1
  }

  /** The vertices reachable from `s` in at most `k` steps. */
  ghost function Ball(adj: seq<seq<int>>, s: int, k: nat): set<int>
    requires Square(adj)
  {
    if k == 0 then {s} else Ball(adj, s, k - 1) + Next(adj, Ball(adj, s, k - 1))
  }

  /** The least `k` from `j` on, up to `|adj|`, with `v` in `Ball(adj, s, k)`; `INT_MAX` when there is none. */
  ghost function FirstLevel(adj: seq<seq<int>>, s: int, v: int, j: nat): int
    requires Square(adj)
    decreases |adj| + 1 - j
  {
    if j > |adj| then INT_MAX
    else if v in Ball(adj, s, j) then j
    else FirstLevel(adj, s, v, j + 1)
  }

  /** The length of a shortest walk from `s` to `v`, or `INT_MAX` when `v` cannot be reached. */
  ghost function Dist(adj: seq<seq<int>>, s: int, v: int): int
    requires Square(adj)
  {
    FirstLevel(adj, s, v, 0)
  }

  /** One more step from a vertex of `Ball(k)` stays in `Ball(k + 1)`. */
  lemma BallStep(adj: seq<seq<int>>, s: int, k: nat, u: int, w: int)
    requires Square(adj) && 0 <= u < |adj| && 0 <= w < |adj|
    requires u in Ball(adj, s, k) && adj[u][w] == 1
    ensures w in Ball(adj, s, k + 1)
  {
    assert w in Next(adj, Ball(adj, s, k));
  }

  /**
   * Any table `d` that is 0 at `s` and never more than one above a finite
   * neighbour bounds the number of steps: everything in `Ball(k)` is finite and at most `k`.
   */
  lemma {:induction false} ClosedTableBoundsBall(adj: seq<seq<int>>, s: int, d: seq<int>, k: nat)
    requires Square(adj) && |d| == |adj| && 0 <= s < |adj| && d[s] == 0
    requires forall v, w :: 0 <= v < |adj| && 0 <= w < |adj| && d[v] != INT_MAX && adj[v][w] == 1 ==>
      d[w] != INT_MAX && d[w] <= d[v] + 1
    ensures forall w :: w in Ball(adj, s, k) ==> 0 <= w < |adj| && d[w] != INT_MAX && d[w] <= k
  {
    if k > 0 {
      ClosedTableBoundsBall(adj, s, d, k - 1);
      forall w | w in Ball(adj, s, k) ensures 0 <= w < |adj| && d[w] != INT_MAX && d[w] <= k {
        if w !in Ball(adj, s, k - 1) {
          assert w in Next(adj, Ball(adj, s, k - 1));
          var u :| u in Ball(adj, s, k - 1) && 0 <= u < |adj| && adj[u][w] == 1;
        }
      }
    }
  }

  /** A level `k <= |adj|` that reaches `v`, none lower doing so, is `Dist`. */
  lemma {:induction false} FirstLevelIs(adj: seq<seq<int>>, s: int, v: int, j: nat, k: nat)
    requires Square(adj) && j <= k <= |adj|
    requires v in Ball(adj, s, k) && forall i: nat :: j <= i < k ==> v !in Ball(adj, s, i)
    ensures FirstLevel(adj, s, v, j) == k
    decreases k - j
  {
    if j < k {
      FirstLevelIs(adj, s, v, j + 1, k);
    }
  }

  /** A vertex no level reaches has `Dist` `INT_MAX`. */
  lemma {:induction false} FirstLevelNone(adj: seq<seq<int>>, s: int, v: int, j: nat)
    requires Square(adj)
    requires forall i: nat :: j <= i <= |adj| ==> v !in Ball(adj, s, i)
    ensures FirstLevel(adj, s, v, j) == INT_MAX
    decreases |adj| + 1 - j
  {
    if j <= |adj| {
      FirstLevelNone(adj, s, v, j + 1);
    }
  }

  /** `Dist` is a least level: `v` is in `Ball(Dist)`, and in no smaller ball. */
  lemma {:induction false} DistIsLeast(adj: seq<seq<int>>, s: int, v: int, j: nat)
    requires Square(adj)
    ensures FirstLevel(adj, s, v, j) != INT_MAX ==>
      j <= FirstLevel(adj, s, v, j) <= |adj| && v in Ball(adj, s, FirstLevel(adj, s, v, j))
    ensures forall i: nat :: j <= i <= |adj| && i < FirstLevel(adj, s, v, j) ==> v !in Ball(adj, s, i)
    decreases |adj| + 1 - j
  {
    if j <= |adj| && v !in Ball(adj, s, j) {
      DistIsLeast(adj, s, v, j + 1);
    }
  }

  /** The largest entry of `d` other than `INT_MAX`, and 0 when there is none. */
  function MaxFinite(d: seq<int>): int {
    if |d| == 0 then 0
    else
      var m := MaxFinite(d[..|d| - 1]);
      var x := d[|d| - 1];
      if x != INT_MAX && x > m then x else m
  }

  lemma {:induction false} MaxFiniteIsMax(d: seq<int>)
    requires forall i :: 0 <= i < |d| ==> d[i] >= 0
    ensures MaxFinite(d) >= 0
    ensures forall i :: 0 <= i < |d| && d[i] != INT_MAX ==> d[i] <= MaxFinite(d)
    ensures MaxFinite(d) == 0 || exists i :: 0 <= i < |d| && d[i] != INT_MAX && d[i] == MaxFinite(d)
  {
    if |d| > 0 {
      var p := d[..|d| - 1];
      MaxFiniteIsMax(p);
      assert forall i :: 0 <= i < |p| ==> p[i] == d[i];
    }
  }

  /** The table of distances from `s`, one entry per vertex. */
  ghost function Distances(adj: seq<seq<int>>, s: int): (d: seq<int>)
    requires Square(adj)
    ensures |d| == |adj| && forall v :: 0 <= v < |adj| ==> d[v] == Dist(adj, s, v)
  {
    seq(|adj|, v => Dist(adj, s, v))
  }

  /** The eccentricity of `v`: its largest finite distance to another vertex. */
  ghost function Ecc(adj: seq<seq<int>>, v: int): int
    requires Square(adj)
  {
    MaxFinite(Distances(adj, v))
  }

  /** The eccentricity is the largest distance to a reachable vertex, and is attained unless it is 0. */
  lemma EccIsLargestDistance(adj: seq<seq<int>>, v: int)
    requires Square(adj)
    ensures Ecc(adj, v) >= 0
    ensures forall w :: 0 <= w < |adj| && Dist(adj, v, w) != INT_MAX ==> Dist(adj, v, w) <= Ecc(adj, v)
    ensures Ecc(adj, v) == 0 ||
      exists w :: 0 <= w < |adj| && Dist(adj, v, w) != INT_MAX && Dist(adj, v, w) == Ecc(adj, v)
  {
    var d := Distances(adj, v);
    forall w | 0 <= w < |adj| ensures d[w] >= 0 {
      DistIsLeast(adj, v, w, 0);
    }
    MaxFiniteIsMax(d);
  }

  /** A vertex without neighbours reaches only itself, so its eccentricity is 0. */
  lemma IsolatedVertex(adj: seq<seq<int>>, v: int)
    requires Square(adj) && 0 <= v < |adj|
    requires forall w :: 0 <= w < |adj| ==> adj[v][w] != 1
    ensures forall w :: 0 <= w < |adj| && w != v ==> Dist(adj, v, w) == INT_MAX
    ensures Ecc(adj, v) == 0
  {
    forall k: nat ensures Ball(adj, v, k) == {v} {
      IsolatedBall(adj, v, k);
    }
    forall w | 0 <= w < |adj| && w != v ensures Dist(adj, v, w) == INT_MAX {
      FirstLevelNone(adj, v, w, 0);
    }
    FirstLevelIs(adj, v, v, 0, 0);
    EccIsLargestDistance(adj, v);
  }

  lemma {:induction false} IsolatedBall(adj: seq<seq<int>>, v: int, k: nat)
    requires Square(adj) && 0 <= v < |adj|
    requires forall w :: 0 <= w < |adj| ==> adj[v][w] != 1
    ensures Ball(adj, v, k) == {v}
  {
    if k > 0 {
      IsolatedBall(adj, v, k - 1);
      assert Next(adj, {v}) == {};
    }
  }

  /** The vertices a distance table has reached. */
  function Found(d: seq<int>): set<int> {
    set v | 0 <= v < |d| && d[v] != INT_MAX
  }

  lemma FoundBounded(d: seq<int>)
    ensures |Found(d)| <= |d|
  {
    assert Vertices(|d|) == Found(d) + (Vertices(|d|) - Found(d));
  }

  /**
   * What one pass of the inner loop of `bfs` does for vertex `c`: each
   * neighbour that had `INT_MAX` gets `d0[c] + 1` and is appended to the
   * queue, and nothing else changes.
   */
  ghost predicate Scanned(adj: seq<seq<int>>, c: int, d0: seq<int>, q0: seq<int>, d: seq<int>, q: seq<int>)
    requires Square(adj) && 0 <= c < |adj| && |d0| == |adj|
  {
    |d| == |adj| &&
    (forall w :: 0 <= w < |adj| ==>
       d[w] == if adj[c][w] == 1 && d0[w] == INT_MAX then d0[c] + 1 else d0[w]) &&
    |q| >= |q0| && q[..|q0|] == q0 &&
    (forall j :: |q0| <= j < |q| ==> 0 <= q[j] < |adj| && d0[q[j]] == INT_MAX && d[q[j]] != INT_MAX) &&
    (forall w :: 0 <= w < |adj| && d[w] != d0[w] ==> w in q[|q0|..])
  }

  /**
   * The loop invariant of `bfs`: reached vertices have distances below the
   * number reached and lie in the ball of that radius; the queue holds reached
   * vertices in nondecreasing order spanning at most one level; a reached
   * vertex no longer queued has all its neighbours reached, at most one level
   * further, and is no further than the head of the queue.
   */
  ghost predicate BfsInv(adj: seq<seq<int>>, s: int, d: seq<int>, q: seq<int>) {
    Square(adj) && |adj| < INT_MAX && 0 <= s < |adj| && |d| == |adj| && d[s] == 0 &&
    (forall v :: 0 <= v < |adj| && d[v] != INT_MAX ==> 0 <= d[v] < |Found(d)| && v in Ball(adj, s, d[v])) &&
    (forall i :: 0 <= i < |q| ==> 0 <= q[i] < |adj| && d[q[i]] != INT_MAX) &&
    (forall i, j :: 0 <= i <= j < |q| ==> d[q[i]] <= d[q[j]]) &&
    (q != [] ==> d[q[|q| - 1]] <= d[q[0]] + 1) &&
    (forall v, w :: 0 <= v < |adj| && 0 <= w < |adj| && d[v] != INT_MAX && v !in q && adj[v][w] == 1 ==>
       d[w] != INT_MAX && d[w] <= d[v] + 1) &&
    (q != [] ==> forall v :: 0 <= v < |adj| && d[v] != INT_MAX && v !in q ==> d[v] <= d[q[0]])
  }

  lemma BfsStart(adj: seq<seq<int>>, s: int, d: seq<int>)
    requires Square(adj) && |adj| < INT_MAX && 0 <= s < |adj|
    requires d == seq(|adj|, _ => INT_MAX)[s := 0]
    ensures BfsInv(adj, s, d, [s])
  {
    assert Found(d) == {s};
  }

  /** Taking the head off the queue and scanning its neighbours keeps the invariant and makes progress. */
  lemma BfsStep(adj: seq<seq<int>>, s: int, d0: seq<int>, q0: seq<int>, d: seq<int>, q: seq<int>)
    requires BfsInv(adj, s, d0, q0) && q0 != []
    requires Scanned(adj, q0[0], d0, q0[1..], d, q)
    ensures BfsInv(adj, s, d, q)
    ensures Found(d0) <= Found(d) && |Found(d)| <= |adj|
    ensures |Found(d0)| < |Found(d)| || (Found(d) == Found(d0) && |q| < |q0|)
  {
    FoundBounded(d);
    GrowFound(d0, d, q0, q);
    StepReached(adj, s, d0, q0, d, q);
    StepQueue(adj, s, d0, q0, d, q);
    StepClosed(adj, s, d0, q0, d, q);
    StepHead(adj, s, d0, q0, d, q);
  }

  lemma StepReached(adj: seq<seq<int>>, s: int, d0: seq<int>, q0: seq<int>, d: seq<int>, q: seq<int>)
    requires BfsInv(adj, s, d0, q0) && q0 != []
    requires Scanned(adj, q0[0], d0, q0[1..], d, q)
    ensures d[s] == 0
    ensures forall v :: 0 <= v < |adj| && d[v] != INT_MAX ==> 0 <= d[v] < |Found(d)| && v in Ball(adj, s, d[v])
  {
    StepBound(adj, s, d0, q0, d, q);
    forall v | 0 <= v < |adj| && d[v] != INT_MAX ensures v in Ball(adj, s, d[v]) {
      if d[v] != d0[v] {
        BallStep(adj, s, d0[q0[0]], q0[0], v);
      }
    }
  }

  lemma StepBound(adj: seq<seq<int>>, s: int, d0: seq<int>, q0: seq<int>, d: seq<int>, q: seq<int>)
    requires BfsInv(adj, s, d0, q0) && q0 != []
    requires Scanned(adj, q0[0], d0, q0[1..], d, q)
    ensures forall v :: 0 <= v < |adj| && d[v] != INT_MAX ==> 0 <= d[v] < |Found(d)|
  {
    GrowFound(d0, d, q0, q);
    forall v | 0 <= v < |adj| && d[v] != INT_MAX ensures 0 <= d[v] < |Found(d)| {
      if d[v] != d0[v] {
        assert v in q[|q0| - 1..];
      }
    }
  }

  lemma StepQueue(adj: seq<seq<int>>, s: int, d0: seq<int>, q0: seq<int>, d: seq<int>, q: seq<int>)
    requires BfsInv(adj, s, d0, q0) && q0 != []
    requires Scanned(adj, q0[0], d0, q0[1..], d, q)
    ensures forall i :: 0 <= i < |q| ==> 0 <= q[i] < |adj| && d[q[i]] != INT_MAX && d0[q0[0]] <= d[q[i]] <= d0[q0[0]] + 1
    ensures forall i, j :: 0 <= i <= j < |q| ==> d[q[i]] <= d[q[j]]
  {
    var c := q0[0];
    forall i | 0 <= i < |q| ensures 0 <= q[i] < |adj| && d[q[i]] != INT_MAX && d0[c] <= d[q[i]] <= d0[c] + 1 {
      if i < |q0| - 1 {
        assert q[i] == q0[i + 1];
      }
    }
    forall i, j | 0 <= i <= j < |q| ensures d[q[i]] <= d[q[j]] {
      if j < |q0| - 1 {
        assert q[i] == q0[i + 1] && q[j] == q0[j + 1];
      } else if i < |q0| - 1 {
        assert q[i] == q0[i + 1];
      }
    }
  }

  /** A reached vertex not queued after the step was reached before it, and no further than the scanned vertex. */
  lemma StepKept(adj: seq<seq<int>>, s: int, d0: seq<int>, q0: seq<int>, d: seq<int>, q: seq<int>)
    requires BfsInv(adj, s, d0, q0) && q0 != []
    requires Scanned(adj, q0[0], d0, q0[1..], d, q)
    ensures forall v :: 0 <= v < |adj| && d[v] != INT_MAX && v !in q ==>
      d[v] == d0[v] && d[v] <= d0[q0[0]] && (v == q0[0] || v !in q0)
  {
    FoundBounded(d0);
    forall v | 0 <= v < |adj| && d[v] != INT_MAX && v !in q
      ensures d[v] == d0[v] && d[v] <= d0[q0[0]] && (v == q0[0] || v !in q0)
    {
      assert forall i :: 1 <= i < |q0| ==> q0[i] == q[i - 1];
    }
  }

  /** After the step, a reached vertex that is no longer queued has all its neighbours reached, one level further at most. */
  lemma StepClosed(adj: seq<seq<int>>, s: int, d0: seq<int>, q0: seq<int>, d: seq<int>, q: seq<int>)
    requires BfsInv(adj, s, d0, q0) && q0 != []
    requires Scanned(adj, q0[0], d0, q0[1..], d, q)
    ensures forall v, w :: 0 <= v < |adj| && 0 <= w < |adj| && d[v] != INT_MAX && v !in q && adj[v][w] == 1 ==>
      d[w] != INT_MAX && d[w] <= d[v] + 1
  {
    var c := q0[0];
    FoundBounded(d0);
    StepKept(adj, s, d0, q0, d, q);
    forall v, w | 0 <= v < |adj| && 0 <= w < |adj| && d[v] != INT_MAX && v !in q && adj[v][w] == 1
      ensures d[w] != INT_MAX && d[w] <= d[v] + 1
    {
      assert d[v] == d0[v] && (v == c || v !in q0);
      if v != c {
        assert d0[w] != INT_MAX && d0[w] <= d0[v] + 1;
      } else if d0[w] != INT_MAX {
        if w in q0 {
          var k :| 0 <= k < |q0| && q0[k] == w;
          assert d0[q0[k]] <= d0[q0[|q0| - 1]] <= d0[c] + 1;
        } else {
          assert d0[w] <= d0[c];
        }
      }
    }
  }

  /** After the step, a reached vertex no longer queued is no further than the new head of the queue. */
  lemma StepHead(adj: seq<seq<int>>, s: int, d0: seq<int>, q0: seq<int>, d: seq<int>, q: seq<int>)
    requires BfsInv(adj, s, d0, q0) && q0 != []
    requires Scanned(adj, q0[0], d0, q0[1..], d, q)
    requires |d| == |adj| && forall i :: 0 <= i < |q| ==> 0 <= q[i] < |adj| && d0[q0[0]] <= d[q[i]]
    ensures q != [] ==> forall v :: 0 <= v < |adj| && d[v] != INT_MAX && v !in q ==> d[v] <= d[q[0]]
  {
    StepKept(adj, s, d0, q0, d, q);
  }

  /** Scanning only adds reached vertices, and each one it adds is queued. */
  lemma GrowFound(d0: seq<int>, d: seq<int>, q0: seq<int>, q: seq<int>)
    requires |d0| == |d| && q0 != [] && |q| >= |q0| - 1
    requires forall w :: 0 <= w < |d| && d0[w] != INT_MAX ==> d[w] == d0[w]
    requires forall j :: |q0| - 1 <= j < |q| ==> 0 <= q[j] < |d| && d0[q[j]] == INT_MAX && d[q[j]] != INT_MAX
    requires forall w :: 0 <= w < |d| && d[w] != d0[w] ==> w in q[|q0| - 1..]
    ensures Found(d0) <= Found(d)
    ensures |Found(d0)| < |Found(d)| || (Found(d) == Found(d0) && |q| < |q0|)
  {
    if |q| >= |q0| {
      var w := q[|q0| - 1];
      assert w in Found(d) - Found(d0);
      assert Found(d) == Found(d0) + (Found(d) - Found(d0));
    } else {
      assert Found(d) == Found(d0);
    }
  }

  /** With the queue empty, the table is exactly `Dist`. */
  lemma BfsDone(adj: seq<seq<int>>, s: int, d: seq<int>)
    requires BfsInv(adj, s, d, [])
    ensures forall v :: 0 <= v < |adj| ==> d[v] == Dist(adj, s, v)
  {
    FoundBounded(d);
    forall k: nat ensures forall w :: w in Ball(adj, s, k) ==> 0 <= w < |adj| && d[w] != INT_MAX && d[w] <= k {
      ClosedTableBoundsBall(adj, s, d, k);
    }
    forall v | 0 <= v < |adj| ensures d[v] == Dist(adj, s, v) {
      if d[v] != INT_MAX {
        FirstLevelIs(adj, s, v, 0, d[v]);
      } else {
        FirstLevelNone(adj, s, v, 0);
      }
    }
  }

  /** The matrix after `addEdge(u, v)`: entries `[u][v]` and `[v][u]` set to 1. */
  function Link(m: seq<seq<int>>, u: int, v: int): (r: seq<seq<int>>)
    requires Square(m) && 0 <= u < |m| && 0 <= v < |m|
    ensures Square(r) && |r| == |m|
  {
    var a := m[u := m[u][v := 1]];
    a[v := a[v][u := 1]]
  }

  /** One drawn pair of `generateRandomEdges`: joined when its ends differ and are not yet adjacent. */
  function Draw(m: seq<seq<int>>, p: (int, int)): (r: seq<seq<int>>)
    requires Square(m) && 0 <= p.0 < |m| && 0 <= p.1 < |m|
    ensures Square(r) && |r| == |m|
  {
    if p.0 != p.1 && m[p.0][p.1] == 0 then Link(m, p.0, p.1) else m
  }

  /** Every drawn pair names two vertices of an `n`-vertex matrix. */
  predicate InRange(pairs: seq<(int, int)>, n: int) {
    forall i :: 0 <= i < |pairs| ==> 0 <= pairs[i].0 < n && 0 <= pairs[i].1 < n
  }

  /** The matrix after the pairs have been drawn in order. */
  function Generated(m: seq<seq<int>>, pairs: seq<(int, int)>): (r: seq<seq<int>>)
    requires Square(m) && InRange(pairs, |m|)
    ensures Square(r) && |r| == |m|
    decreases |pairs|
  {
    if pairs == [] then m
    else
      assert InRange(pairs[..|pairs| - 1], |m|);
      Draw(Generated(m, pairs[..|pairs| - 1]), pairs[|pairs| - 1])
  }

  ghost predicate Sym(m: seq<seq<int>>)
    requires Square(m)
  {
    forall u, v :: 0 <= u < |m| && 0 <= v < |m| ==> m[u][v] == m[v][u]
  }

  /** Every entry is 0 or 1, as the constructor and `addEdge` leave them. */
  ghost predicate Binary(m: seq<seq<int>>)
    requires Square(m)
  {
    forall u, v :: 0 <= u < |m| && 0 <= v < |m| ==> m[u][v] == 0 || m[u][v] == 1
  }

  /** The pair `p` joins `a` and `b`, in either orientation, and is no loop. */
  predicate Hit(p: (int, int), a: int, b: int) {
    p.0 != p.1 && ((p.0 == a && p.1 == b) || (p.0 == b && p.1 == a))
  }

  /** Some drawn pair joins `a` and `b`. */
  ghost predicate Drawn(pairs: seq<(int, int)>, a: int, b: int) {
    exists i :: 0 <= i < |pairs| && Hit(pairs[i], a, b)
  }

  lemma DrawnSnoc(pairs: seq<(int, int)>, a: int, b: int)
    requires pairs != []
    ensures Drawn(pairs, a, b) <==> Drawn(pairs[..|pairs| - 1], a, b) || Hit(pairs[|pairs| - 1], a, b)
  {
    var P := pairs[..|pairs| - 1];
    if Drawn(pairs, a, b) {
      var i :| 0 <= i < |pairs| && Hit(pairs[i], a, b);
      if i < |P| {
        assert P[i] == pairs[i];
      }
    }
    if Drawn(P, a, b) {
      var i :| 0 <= i < |P| && Hit(P[i], a, b);
      assert pairs[i] == P[i];
    }
  }

  /** One draw changes only the two entries of a non-loop pair. */
  lemma DrawFrame(m: seq<seq<int>>, p: (int, int), a: int, b: int)
    requires Square(m) && 0 <= p.0 < |m| && 0 <= p.1 < |m| && 0 <= a < |m| && 0 <= b < |m| && !Hit(p, a, b)
    ensures Draw(m, p)[a][b] == m[a][b]
  {
  }

  /** Entries of no drawn pair keep their value; in particular no loop is ever added. */
  lemma {:induction false} GeneratedFrame(m: seq<seq<int>>, pairs: seq<(int, int)>, a: int, b: int)
    requires Square(m) && InRange(pairs, |m|) && 0 <= a < |m| && 0 <= b < |m| && !Drawn(pairs, a, b)
    ensures Generated(m, pairs)[a][b] == m[a][b]
  {
    if pairs != [] {
      var P := pairs[..|pairs| - 1];
      assert InRange(P, |m|);
      DrawnSnoc(pairs, a, b);
      GeneratedFrame(m, P, a, b);
      DrawFrame(Generated(m, P), pairs[|pairs| - 1], a, b);
    }
  }

  /** On a symmetric 0/1 matrix one draw sets both entries of a non-loop pair to 1 and keeps the rest. */
  lemma DrawExact(m: seq<seq<int>>, p: (int, int))
    requires Square(m) && 0 <= p.0 < |m| && 0 <= p.1 < |m| && Sym(m) && Binary(m)
    ensures Sym(Draw(m, p)) && Binary(Draw(m, p))
    ensures forall a, b :: 0 <= a < |m| && 0 <= b < |m| ==> Draw(m, p)[a][b] == if Hit(p, a, b) then 1 else m[a][b]
  {
    var r := Draw(m, p);
    forall a, b | 0 <= a < |m| && 0 <= b < |m|
      ensures r[a][b] == if Hit(p, a, b) then 1 else m[a][b]
    {
      if Hit(p, a, b) {
        assert m[p.0][p.1] == m[p.1][p.0];
      }
    }
  }

  /**
   * On a symmetric 0/1 matrix, drawing the pairs sets exactly the entries
   * of the drawn non-loop pairs, in both orientations, to 1: every other
   * entry keeps its value, and the matrix stays symmetric and 0/1.
   */
  lemma {:induction false} GeneratedExact(m: seq<seq<int>>, pairs: seq<(int, int)>)
    requires Square(m) && InRange(pairs, |m|) && Sym(m) && Binary(m)
    ensures Sym(Generated(m, pairs)) && Binary(Generated(m, pairs))
    ensures forall a, b :: 0 <= a < |m| && 0 <= b < |m| ==>
      Generated(m, pairs)[a][b] == if Drawn(pairs, a, b) then 1 else m[a][b]
  {
    if pairs == [] {
      assert forall a, b :: !Drawn(pairs, a, b);
    } else {
      var P := pairs[..|pairs| - 1];
      var p := pairs[|pairs| - 1];
      assert InRange(P, |m|);
      GeneratedExact(m, P);
      var g := Generated(m, P);
      DrawExact(g, p);
      forall a, b | 0 <= a < |m| && 0 <= b < |m|
        ensures Generated(m, pairs)[a][b] == if Drawn(pairs, a, b) then 1 else m[a][b]
      {
        DrawnSnoc(pairs, a, b);
      }
    }
  }

  /** Drawing keeps a symmetric matrix symmetric, whatever its entries. */
  lemma {:induction false} GeneratedSymmetric(m: seq<seq<int>>, pairs: seq<(int, int)>)
    requires Square(m) && InRange(pairs, |m|) && Sym(m)
    ensures Sym(Generated(m, pairs))
  {
    if pairs != [] {
      var P := pairs[..|pairs| - 1];
      assert InRange(P, |m|);
      GeneratedSymmetric(m, P);
    }
  }

  /** Every drawn non-loop pair ends up with a non-zero entry, whatever the matrix held. */
  lemma {:induction false} GeneratedJoins(m: seq<seq<int>>, pairs: seq<(int, int)>)
    requires Square(m) && InRange(pairs, |m|)
    ensures forall i :: 0 <= i < |pairs| && pairs[i].0 != pairs[i].1 ==> Generated(m, pairs)[pairs[i].0][pairs[i].1] != 0
  {
    if pairs != [] {
      var P := pairs[..|pairs| - 1];
      assert InRange(P, |m|);
      GeneratedJoins(m, P);
      var g := Generated(m, P);
      var p := pairs[|pairs| - 1];
      forall i | 0 <= i < |pairs| && pairs[i].0 != pairs[i].1
        ensures Generated(m, pairs)[pairs[i].0][pairs[i].1] != 0
      {
        if i < |P| {
          assert P[i] == pairs[i];
        }
      }
    }
  }

  class Graph {
    var numVertices: int
    var adjMatrix: seq<seq<int>>

    ghost predicate Valid()
      reads this
    {
      numVertices == |adjMatrix| && numVertices < INT_MAX && Square(adjMatrix)
    }

    ghost predicate Symmetric()
      reads this
      requires Valid()
    {
      Sym(adjMatrix)
    }

    /** `Graph(vertices)`: every entry of the matrix is 0. */
    constructor (vertices: nat)
      requires vertices < INT_MAX
      ensures Valid() && Symmetric() && numVertices == vertices
      ensures forall u, v :: 0 <= u < vertices && 0 <= v < vertices ==> adjMatrix[u][v] == 0
    {
      numVertices := vertices;
      adjMatrix := seq(vertices, _ => seq(vertices, _ => 0));
    }

    /** `addEdge(u, v)`: both `adjMatrix[u][v]` and `adjMatrix[v][u]` become 1, nothing else changes. */
    method AddEdge(u: int, v: int)
      requires Valid() && 0 <= u < numVertices && 0 <= v < numVertices
      modifies this
      ensures Valid() && numVertices == old(numVertices)
      ensures adjMatrix[u][v] == 1 && adjMatrix[v][u] == 1
      ensures forall a, b ::
        (0 <= a < numVertices && 0 <= b < numVertices && !(a == u && b == v) && !(a == v && b == u)) ==>
        adjMatrix[a][b] == old(adjMatrix[a][b])
      ensures old(Symmetric()) ==> Symmetric()
      ensures adjMatrix == Link(old(adjMatrix), u, v)
    {
      adjMatrix := adjMatrix[u := adjMatrix[u][v := 1]];
      adjMatrix := adjMatrix[v := adjMatrix[v][u := 1]];
    }

    /**
     * `generateRandomEdges`, with the random vertex pairs passed in: a pair is added
     * only when its two vertices differ and are not yet adjacent.
     */
    method GenerateEdges(pairs: seq<(int, int)>)
      requires Valid()
      requires forall i :: 0 <= i < |pairs| ==> 0 <= pairs[i].0 < numVertices && 0 <= pairs[i].1 < numVertices
      modifies this
      ensures Valid() && numVertices == old(numVertices)
      ensures adjMatrix == Generated(old(adjMatrix), pairs)
      ensures old(Symmetric()) ==> Symmetric()
      ensures forall a, b :: 0 <= a < numVertices && 0 <= b < numVertices && !Drawn(pairs, a, b) ==>
        adjMatrix[a][b] == old(adjMatrix[a][b])
      ensures forall i :: 0 <= i < |pairs| && pairs[i].0 != pairs[i].1 ==> adjMatrix[pairs[i].0][pairs[i].1] != 0
      ensures old(Symmetric()) && Binary(old(adjMatrix)) ==>
        Binary(adjMatrix) &&
        (forall a, b :: 0 <= a < numVertices && 0 <= b < numVertices ==>
           adjMatrix[a][b] == if Drawn(pairs, a, b) then 1 else old(adjMatrix[a][b]))
    {
      ghost var m := adjMatrix;
      var i := 0;
      while i < |pairs|
        invariant 0 <= i <= |pairs| && Valid() && numVertices == old(numVertices)
        invariant InRange(pairs[..i], |m|) && adjMatrix == Generated(m, pairs[..i])
      {
        var u := pairs[i].0;
        var v := pairs[i].1;
        assert pairs[..i + 1][..i] == pairs[..i];
        assert InRange(pairs[..i + 1], |m|);
        if u != v && adjMatrix[u][v] == 0 {
          AddEdge(u, v);
        }
        i := i + 1;
      }
      assert pairs[..|pairs|] == pairs;
      forall a, b | 0 <= a < numVertices && 0 <= b < numVertices && !Drawn(pairs, a, b)
        ensures adjMatrix[a][b] == m[a][b]
      {
        GeneratedFrame(m, pairs, a, b);
      }
      GeneratedJoins(m, pairs);
      if old(Symmetric()) {
        GeneratedSymmetric(m, pairs);
        if Binary(m) {
          GeneratedExact(m, pairs);
        }
      }
    }
    /** `bfs(startVertex)`: the distance of every vertex from `startVertex`, `INT_MAX` when unreachable. */
    method Bfs(startVertex: int) returns (distances: seq<int>)
      requires Valid() && 0 <= startVertex < numVertices
      ensures |distances| == numVertices
      ensures forall v :: 0 <= v < numVertices ==> distances[v] == Dist(adjMatrix, startVertex, v)
    {
      distances := seq(numVertices, _ => INT_MAX);
      distances := distances[startVertex := 0];
      var q := [startVertex];
      BfsStart(adjMatrix, startVertex, distances);
      while q != []
        invariant BfsInv(adjMatrix, startVertex, distances, q)
        decreases numVertices - |Found(distances)|, |q|
      {
        var currentVertex := q[0];
        ghost var d0, q0 := distances, q;
        FoundBounded(distances);
        distances, q := ScanNeighbours(currentVertex, distances, q[1..]);
        BfsStep(adjMatrix, startVertex, d0, q0, distances, q);
      }
      BfsDone(adjMatrix, startVertex, distances);
    }

    /**
     * The inner loop of `bfs` for the vertex `currentVertex` just taken off the
     * queue: every neighbour not yet reached gets distance one more and is queued.
     */
    method ScanNeighbours(currentVertex: int, d0: seq<int>, q0: seq<int>) returns (distances: seq<int>, q: seq<int>)
      requires Valid() && 0 <= currentVertex < numVertices && |d0| == numVertices
      requires d0[currentVertex] != INT_MAX && d0[currentVertex] + 1 != INT_MAX
      ensures Scanned(adjMatrix, currentVertex, d0, q0, distances, q)
    {
      distances, q := d0, q0;
      var i := 0;
      while i < numVertices
        invariant 0 <= i <= numVertices && |distances| == numVertices
        invariant forall w :: 0 <= w < numVertices ==>
          distances[w] == if w < i && adjMatrix[currentVertex][w] == 1 && d0[w] == INT_MAX then d0[currentVertex] + 1 else d0[w]
        invariant |q| >= |q0| && q[..|q0|] == q0
        invariant forall j :: |q0| <= j < |q| ==>
          0 <= q[j] < i && d0[q[j]] == INT_MAX && distances[q[j]] != INT_MAX
        invariant forall w :: 0 <= w < numVertices && distances[w] != d0[w] ==> w in q[|q0|..]
      {
        if adjMatrix[currentVertex][i] == 1 && distances[i] == INT_MAX {
          distances := distances[i := distances[currentVertex] + 1];
          assert (q + [i])[|q0|..] == q[|q0|..] + [i];
          q := q + [i];
        }
        i := i + 1;
      }
    }

    /** The accumulating loop of `findExcentricity`/`findAllExcentricities` over one distance table. */
    method LargestFinite(distances: seq<int>) returns (m: int)
      ensures m == MaxFinite(distances)
    {
      m := 0;
      var k := 0;
      while k < |distances|
        invariant 0 <= k <= |distances|
        invariant m == MaxFinite(distances[..k])
      {
        assert distances[..k + 1][..k] == distances[..k];
        var dist := distances[k];
        if dist != INT_MAX && dist > m {
          m := dist;
        }
        k := k + 1;
      }
      assert distances[..|distances|] == distances;
    }

    /** `findExcentricity(vertex)`. */
    method FindExcentricity(vertex: int) returns (excentricity: int)
      requires Valid() && 0 <= vertex < numVertices
      ensures excentricity == Ecc(adjMatrix, vertex)
    {
      var distances := Bfs(vertex);
      assert distances == Distances(adjMatrix, vertex);
      excentricity := LargestFinite(distances);
    }

    /** `findAllExcentricities()`: entry `v` is the eccentricity of `v`. */
    method FindAllExcentricities() returns (excentricities: seq<int>)
      requires Valid()
      ensures |excentricities| == numVertices
      ensures forall v :: 0 <= v < numVertices ==> excentricities[v] == Ecc(adjMatrix, v)
    {
      excentricities := seq(numVertices, _ => 0);
      var vertex := 0;
      while vertex < numVertices
        invariant 0 <= vertex <= numVertices && |excentricities| == numVertices
        invariant forall v :: 0 <= v < vertex ==> excentricities[v] == Ecc(adjMatrix, v)
      {
        var distances := Bfs(vertex);
        assert distances == Distances(adjMatrix, vertex);
        var maxDistance := LargestFinite(distances);
        excentricities := excentricities[vertex := maxDistance];
        vertex := vertex + 1;
      }
    }
  }
}
