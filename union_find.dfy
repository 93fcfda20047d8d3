/**
 * The disjoint-set forest of `GraphComponents` (`component.hpp`): a `parent`
 * vector with path compression in `find`, a `rank` vector for union by rank
 * in `unite`, and the count of roots. The representative of a vertex is
 * described by `RootIn`, a function on the contents of the two vectors; the
 * ghost field `maxRank` bounds every rank, so that following parents ends.
 */
module UnionFind {

  /**
   * `p` is a forest ranked by `rk`: parents are vertices, ranks lie in `0..M`,
   * and a non-root has a smaller rank than its parent.
   */
  ghost predicate Ranked(p: seq<int>, rk: seq<int>, M: int) {
    |p| == |rk| &&
    (forall v :: 0 <= v < |p| ==> 0 <= p[v] < |p|) &&
    (forall v :: 0 <= v < |rk| ==> 0 <= rk[v] <= M) &&
    (forall v :: 0 <= v < |p| && p[v] != v ==> rk[v] < rk[p[v]])
  }

  /** The root reached from `v` by following `p`. */
  ghost function RootIn(p: seq<int>, rk: seq<int>, M: int, v: int): int
    requires Ranked(p, rk, M) && 0 <= v < |p|
    decreases M - rk[v]
  {
    if p[v] == v then v else RootIn(p, rk, M, p[v])
  }

  /** The vertices that are their own parent: one per set. */
  ghost function RootSet(p: seq<int>): set<int> {
    set v | 0 <= v < |p| && p[v] == v
  }

  /** The root is a vertex, is its own parent, and outranks every non-root below it. */
  lemma {:induction false} RootFacts(p: seq<int>, rk: seq<int>, M: int, v: int)
    requires Ranked(p, rk, M) && 0 <= v < |p|
    ensures 0 <= RootIn(p, rk, M, v) < |p|
    ensures p[RootIn(p, rk, M, v)] == RootIn(p, rk, M, v)
    ensures p[v] != v ==> rk[v] < rk[RootIn(p, rk, M, v)]
    decreases M - rk[v]
  {
    if p[v] != v {
      RootFacts(p, rk, M, p[v]);
    }
  }

  /** The loop of the constructor: `parent[i] = i` for every `i`. */
  method Iota(a: array<int>)
    modifies a
    ensures a[..] == seq(a.Length, i => i)
  {
    var i := 0;
    while i < a.Length
      invariant 0 <= i <= a.Length
      invariant forall j :: 0 <= j < i ==> a[j] == j
    {
      a[i] := i;
      i := i + 1;
    }
  }

  /** Every vertex its own parent, every rank 0: a ranked forest of singletons. */
  lemma IdentityForest(p: seq<int>, rk: seq<int>, n: nat)
    requires p == seq(n, i => i) && rk == seq(n, _ => 0)
    ensures Ranked(p, rk, 0) && RootSet(p) == Upto(n)
    ensures forall i :: 0 <= i < n ==> RootIn(p, rk, 0, i) == i
  {
  }

  /** Pointing `v` straight at its root keeps the forest ranked. */
  lemma CompressRanked(p: seq<int>, rk: seq<int>, M: int, v: int)
    requires Ranked(p, rk, M) && 0 <= v < |p|
    ensures Ranked(p[v := RootIn(p, rk, M, v)], rk, M)
  {
    RootFacts(p, rk, M, v);
  }

  /** Path compression at `v` leaves the root of every vertex `w` where it was. */
  lemma {:induction false} CompressKeepsRoot(p: seq<int>, rk: seq<int>, M: int, v: int, w: int)
    requires Ranked(p, rk, M) && 0 <= v < |p| && 0 <= w < |p|
    ensures Ranked(p[v := RootIn(p, rk, M, v)], rk, M)
    ensures RootIn(p[v := RootIn(p, rk, M, v)], rk, M, w) == RootIn(p, rk, M, w)
    decreases M - rk[w]
  {
    var r := RootIn(p, rk, M, v);
    var q := p[v := r];
    CompressRanked(p, rk, M, v);
    RootFacts(p, rk, M, v);
    if w == v {
      if p[v] != v {
        assert q[r] == r;
        assert RootIn(q, rk, M, r) == r;
        assert RootIn(q, rk, M, v) == RootIn(q, rk, M, r);
      }
    } else if p[w] != w {
      CompressKeepsRoot(p, rk, M, v, p[w]);
    }
  }

  /** Path compression keeps the set of roots. */
  lemma CompressKeepsRootSet(p: seq<int>, rk: seq<int>, M: int, v: int)
    requires Ranked(p, rk, M) && 0 <= v < |p|
    ensures RootSet(p[v := RootIn(p, rk, M, v)]) == RootSet(p)
  {
    RootFacts(p, rk, M, v);
  }

  /** Hanging root `b` under root `a` sends `b`'s whole set to `a` and leaves every other set alone. */
  lemma {:induction false} LinkRoot(p: seq<int>, rk: seq<int>, M: int, rk2: seq<int>, M2: int, a: int, b: int, w: int)
    requires Ranked(p, rk, M) && 0 <= a < |p| && 0 <= b < |p| && 0 <= w < |p|
    requires p[a] == a && p[b] == b && a != b
    requires Ranked(p[b := a], rk2, M2)
    ensures RootIn(p[b := a], rk2, M2, w) ==
      if RootIn(p, rk, M, w) == b then a else RootIn(p, rk, M, w)
    decreases M - rk[w]
  {
    var q := p[b := a];
    if w == b {
      assert q[a] == a;
      assert RootIn(q, rk2, M2, a) == a;
    } else if p[w] != w {
      LinkRoot(p, rk, M, rk2, M2, a, b, p[w]);
    }
  }

  class GraphComponents {
    var parent: array<int>
    var rank: array<int>
    ghost var maxRank: int

    ghost predicate Valid()
      reads this, parent, rank
    {
      parent != rank && Ranked(parent[..], rank[..], maxRank)
    }

    /** `find(v)` as a value: the root of `v`'s set. */
    ghost function Root(v: int): (r: int)
      reads this, parent, rank
      requires Valid() && 0 <= v < parent.Length
      ensures 0 <= r < parent.Length && parent[r] == r
    {
      RootFacts(parent[..], rank[..], maxRank, v);
      RootIn(parent[..], rank[..], maxRank, v)
    }

    /** The vertices with `parent[i] == i`, which `getNumberOfComponents` counts. */
    ghost function Roots(): set<int>
      reads this, parent
    {
      RootSet(parent[..])
    }

    /** `GraphComponents(numVertices)`: every vertex alone in its set, with rank 0. */
    constructor (numVertices: nat)
      ensures Valid() && fresh(parent) && fresh(rank)
      ensures parent.Length == numVertices
      ensures forall i :: 0 <= i < numVertices ==> parent[i] == i && rank[i] == 0 && Root(i) == i
      ensures Roots() == Upto(numVertices) && |Roots()| == numVertices
    {
      var p := new int[numVertices];
      Iota(p);
      parent := p;
      rank := new int[numVertices](_ => 0);
      maxRank := 0;
      new;
      assert rank[..] == seq(numVertices, _ => 0);
      IdentityForest(parent[..], rank[..], numVertices);
    }

    /** `find(vertex)`: the root, with every vertex on the way pointed straight at it. */
    method Find(vertex: int) returns (r: int)
      requires Valid() && 0 <= vertex < parent.Length
      modifies parent
      ensures Valid()
      ensures 0 <= r < parent.Length && r == old(Root(vertex)) && parent[r] == r && parent[vertex] == r
      ensures forall w :: 0 <= w < parent.Length ==> Root(w) == old(Root(w))
      ensures Roots() == old(Roots())
      decreases maxRank - rank[vertex]
    {
      if parent[vertex] != vertex {
        ghost var r0 := Root(vertex);
        var root := Find(parent[vertex]);
        ghost var p1 := parent[..];
        assert root == r0 && Root(vertex) == r0;
        RootFacts(p1, rank[..], maxRank, vertex);
        forall w | 0 <= w < parent.Length
          ensures RootIn(p1[vertex := root], rank[..], maxRank, w) == RootIn(p1, rank[..], maxRank, w)
        {
          CompressKeepsRoot(p1, rank[..], maxRank, vertex, w);
        }
        CompressRanked(p1, rank[..], maxRank, vertex);
        CompressKeepsRootSet(p1, rank[..], maxRank, vertex);
        parent[vertex] := root;
        assert parent[..] == p1[vertex := root];
      }
      r := parent[vertex];
    }

    /** `unite(vertex1, vertex2)`: the two sets merged by rank; nothing merged when they are one set. */
    method Unite(vertex1: int, vertex2: int)
      requires Valid() && 0 <= vertex1 < parent.Length && 0 <= vertex2 < parent.Length
      modifies parent, rank, this`maxRank
      ensures Valid()
      ensures Root(vertex1) == Root(vertex2)
      ensures forall w :: 0 <= w < parent.Length ==>
        Root(w) == if old(Root(w)) == old(Root(vertex1)) || old(Root(w)) == old(Root(vertex2))
                   then Root(vertex1) else old(Root(w))
      ensures old(Root(vertex1)) == old(Root(vertex2)) ==>
        rank[..] == old(rank[..]) && Roots() == old(Roots())
      ensures old(Root(vertex1)) != old(Root(vertex2)) ==>
        var r1, r2 := old(Root(vertex1)), old(Root(vertex2));
        var winner := if old(rank[r1]) < old(rank[r2]) then r2 else r1;
        var loser := if winner == r1 then r2 else r1;
        Root(vertex1) == winner &&
        Roots() == old(Roots()) - {loser} && |Roots()| == |old(Roots())| - 1 &&
        rank[winner] == old(rank[winner]) + (if old(rank[r1]) == old(rank[r2]) then 1 else 0) &&
        forall w :: 0 <= w < rank.Length && w != winner ==> rank[w] == old(rank[w])
    {
      var root1 := Find(vertex1);
      var root2 := Find(vertex2);
      if root1 != root2 {
        Link(root1, root2);
      }
    }

    /** The linking step of `unite`, on the two distinct roots its `find` calls returned. */
    method Link(root1: int, root2: int)
      requires Valid() && 0 <= root1 < parent.Length && 0 <= root2 < parent.Length
      requires parent[root1] == root1 && parent[root2] == root2 && root1 != root2
      modifies parent, rank, this`maxRank
      ensures Valid()
      ensures var winner := if old(rank[root1]) < old(rank[root2]) then root2 else root1;
        var loser := if winner == root1 then root2 else root1;
        (forall w :: 0 <= w < parent.Length ==>
           Root(w) == if old(Root(w)) == loser then winner else old(Root(w))) &&
        Roots() == old(Roots()) - {loser} && loser in old(Roots()) &&
        rank[winner] == old(rank[winner]) + (if old(rank[root1]) == old(rank[root2]) then 1 else 0) &&
        forall w :: 0 <= w < rank.Length && w != winner ==> rank[w] == old(rank[w])
    {
      ghost var p := parent[..];
      ghost var rk := rank[..];
      ghost var M := maxRank;
      ghost var a, b;
      if rank[root1] > rank[root2] {
        parent[root2] := root1;
        a, b := root1, root2;
      } else if rank[root1] < rank[root2] {
        parent[root1] := root2;
        a, b := root2, root1;
      } else {
        parent[root2] := root1;
        rank[root1] := rank[root1] + 1;
        if rank[root1] > maxRank {
          maxRank := rank[root1];
        }
        a, b := root1, root2;
      }
      assert parent[..] == p[b := a];
      assert Ranked(parent[..], rank[..], maxRank);
      forall w | 0 <= w < parent.Length
        ensures Root(w) == if RootIn(p, rk, M, w) == b then a else RootIn(p, rk, M, w)
      {
        LinkRoot(p, rk, M, rank[..], maxRank, a, b, w);
      }
      assert Roots() == old(Roots()) - {b};
    }

    /** `getNumberOfComponents()`: how many vertices are their own parent. */
    method GetNumberOfComponents() returns (components: int)
      requires Valid()
      ensures components == |Roots()|
    {
      components := 0;
      var i := 0;
      ghost var seen: set<int> := {};
      while i < parent.Length
        invariant 0 <= i <= parent.Length
        invariant seen == set j | 0 <= j < i && parent[j] == j
        invariant components == |seen|
      {
        if parent[i] == i {
          assert i !in seen;
          seen := seen + {i};
          components := components + 1;
        }
        i := i + 1;
      }
      assert seen == Roots();
    }
  }

  /** The vertex set `{0, ..., n - 1}`. */
  function Upto(n: nat): (r: set<int>)
    ensures forall i :: i in r <==> 0 <= i < n
    ensures |r| == n
  {
    if n == 0 then {} else Upto(n - 1) + {n - 1}
  }
}
