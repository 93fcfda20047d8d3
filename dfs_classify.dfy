/**
 * The directed graph of `Old/Atividade01/Questao01.cpp`: adjacency lists
 * filled by `addEdge`, and a depth-first search that records discovery and
 * finish stamps (`-1` while unset) and classifies each scanned edge as a
 * tree, back, forward or cross edge. The classification strings become the
 * datatype `EdgeType`.
 *
 * The ghost field `log` lists the stamps handed out, in order: entry
 * `t - 1` says which vertex received stamp `t` and whether it was its
 * finish stamp. It exists only to state that no stamp is handed out twice.
 */
module DfsClassify {

  datatype EdgeType = Tree | Back | Forward | Cross

  /** The search state of a `Graph`: the vectors, the counter, the label map and the stamp log. */
  datatype Snapshot = Snapshot(disc: seq<int>, fin: seq<int>, visited: seq<bool>, tc: int,
                               et: map<(int, int), EdgeType>, log: seq<(int, bool)>)

  /** How many entries of `s` are set (not `-1`). */
  function Count(s: seq<int>): (r: nat)
    ensures r <= |s|
  {
    if s == [] then 0 else (if s[0] != -1 then 1 else 0) + Count(s[1..])
  }

  lemma {:induction false} CountUpdate(s: seq<int>, i: int, x: int)
    requires 0 <= i < |s| && s[i] == -1 && x != -1
    ensures Count(s[i := x]) == Count(s) + 1
  {
    if i == 0 {
      assert s[i := x][1..] == s[1..];
    } else {
      assert s[i := x][1..] == s[1..][i - 1 := x];
      CountUpdate(s[1..], i - 1, x);
    }
  }

  /** A sequence with every entry set counts fully; one with none set counts 0. */
  lemma {:induction false} CountExtremes(s: seq<int>)
    ensures (forall i :: 0 <= i < |s| ==> s[i] != -1) ==> Count(s) == |s|
    ensures (forall i :: 0 <= i < |s| ==> s[i] == -1) ==> Count(s) == 0
  {
    if s != [] {
      CountExtremes(s[1..]);
      assert forall i :: 1 <= i < |s| ==> s[1..][i - 1] == s[i];
    }
  }

  /** The sum of the lengths of the lists: the number of arcs. */
  function Arcs(adj: seq<seq<int>>): nat {
    if adj == [] then 0 else |adj[0]| + Arcs(adj[1..])
  }

  lemma {:induction false} ArcsAppend(adj: seq<seq<int>>, u: int, v: int)
    requires 0 <= u < |adj|
    ensures Arcs(adj[u := adj[u] + [v]]) == Arcs(adj) + 1
  {
    if u == 0 {
      assert adj[u := adj[u] + [v]][1..] == adj[1..];
    } else {
      assert adj[u := adj[u] + [v]][1..] == adj[1..][u - 1 := adj[u] + [v]];
      ArcsAppend(adj[1..], u - 1, v);
    }
  }

  lemma {:induction false} ArcsEmpty(adj: seq<seq<int>>)
    requires forall i :: 0 <= i < |adj| ==> |adj[i]| == 0
    ensures Arcs(adj) == 0
  {
    if adj != [] {
      ArcsEmpty(adj[1..]);
    }
  }

  /** Lists over `0..n-1` without self-loops, as `addEdge` builds them. */
  ghost predicate Adjacency(n: int, adj: seq<seq<int>>) {
    |adj| == n &&
    (forall u, j :: 0 <= u < n && 0 <= j < |adj[u]| ==> 0 <= adj[u][j] < n && adj[u][j] != u)
  }

  /** No list names the same head twice. */
  ghost predicate NoRepeats(adj: seq<seq<int>>) {
    forall u, i, j :: 0 <= u < |adj| && 0 <= i < j < |adj[u]| ==> adj[u][i] != adj[u][j]
  }

  /**
   * The stamps: `visited` agrees with a set discovery stamp, every set stamp
   * lies in `1..tc` and is logged under its vertex, a finish stamp follows its
   * discovery stamp, and `tc` is the number of stamps handed out.
   */
  ghost predicate Stamps(n: int, s: Snapshot) {
    |s.disc| == n && |s.fin| == n && |s.visited| == n && |s.log| == s.tc &&
    (forall v :: 0 <= v < n ==> (s.visited[v] <==> s.disc[v] != -1)) &&
    (forall v :: 0 <= v < n && s.disc[v] != -1 ==> 1 <= s.disc[v] <= s.tc && s.log[s.disc[v] - 1] == (v, false)) &&
    (forall v :: 0 <= v < n && s.fin[v] != -1 ==>
       s.disc[v] != -1 && s.disc[v] < s.fin[v] <= s.tc && s.log[s.fin[v] - 1] == (v, true)) &&
    s.tc == Count(s.disc) + Count(s.fin)
  }

  /** No two set stamps are equal. */
  lemma StampsDistinct(n: int, s: Snapshot)
    requires Stamps(n, s)
    ensures forall u, v :: 0 <= u < n && 0 <= v < n && u != v && s.disc[u] != -1 ==> s.disc[u] != s.disc[v]
    ensures forall u, v :: 0 <= u < n && 0 <= v < n && u != v && s.fin[u] != -1 ==> s.fin[u] != s.fin[v]
    ensures forall u, v :: 0 <= u < n && 0 <= v < n && s.disc[u] != -1 ==> s.disc[u] != s.fin[v]
  {
    forall u, v | 0 <= u < n && 0 <= v < n && s.disc[u] != -1 ensures s.disc[u] != s.fin[v] {
      if s.fin[v] != -1 {
        assert s.log[s.disc[u] - 1].1 != s.log[s.fin[v] - 1].1;
      }
    }
  }

  /**
   * What the stamps of an edge `(u, v)` say once it carries label `t`, while
   * the search may still be running. The conditions are the ones `DFSVisit`
   * tests, carried forward to the stamps set later.
   */
  predicate LabelFacts(t: EdgeType, du: int, dv: int, fu: int, fv: int) {
    match t
    case Tree => (dv != -1 ==> du < dv) && (fu != -1 ==> fv != -1 && fv < fu)
    case Forward => du < dv && fv != -1 && (fu != -1 ==> fv < fu)
    case Cross => dv != -1 && dv < du && fv != -1 && (fu != -1 ==> fv < fu)
    case Back => dv != -1 && dv < du && (fu != -1 ==> fv == -1 || fu < fv)
  }

  /**
   * `edgeTypes` holds only arcs of the graph whose tail has been discovered,
   * each with its `LabelFacts`; a finished vertex has every outgoing arc labelled.
   */
  ghost predicate Labels(n: int, adj: seq<seq<int>>, s: Snapshot)
    requires |adj| == n && |s.disc| == n && |s.fin| == n
  {
    (forall k :: k in s.et ==>
       0 <= k.0 < n && 0 <= k.1 < n && k.1 in adj[k.0] && s.disc[k.0] != -1 &&
       LabelFacts(s.et[k], s.disc[k.0], s.disc[k.1], s.fin[k.0], s.fin[k.1])) &&
    (forall u, v :: 0 <= u < n && s.fin[u] != -1 && v in adj[u] ==> (u, v) in s.et)
  }

  /** The invariant of the search state. */
  ghost predicate SearchOk(n: int, adj: seq<seq<int>>, s: Snapshot) {
    Adjacency(n, adj) && Stamps(n, s) && Labels(n, adj, s)
  }

  /**
   * `b` is `a` after some completed visits: stamps and labels of `a` stay,
   * every vertex discovered since is finished, with stamps after `a.tc`.
   */
  ghost predicate Extends(n: int, a: Snapshot, b: Snapshot) {
    |a.disc| == n && |a.fin| == n && |a.visited| == n &&
    |b.disc| == n && |b.fin| == n && |b.visited| == n &&
    a.tc <= b.tc && Count(a.disc) <= Count(b.disc) &&
    (forall x :: 0 <= x < n && a.visited[x] ==> b.visited[x] && b.disc[x] == a.disc[x] && b.fin[x] == a.fin[x]) &&
    (forall x :: 0 <= x < n && !a.visited[x] && b.visited[x] ==> a.tc < b.disc[x] && b.fin[x] != -1) &&
    (forall k :: k in a.et ==> k in b.et && b.et[k] == a.et[k])
  }

  /** Every label `b` has and `a` lacks belongs to an arc whose tail `a` had not discovered. */
  ghost predicate NewTails(n: int, a: Snapshot, b: Snapshot)
    requires |a.visited| == n
  {
    forall k :: k in b.et && k !in a.et ==> 0 <= k.0 < n && !a.visited[k.0]
  }

  lemma ExtendsTrans(n: int, a: Snapshot, b: Snapshot, c: Snapshot)
    requires Extends(n, a, b) && Extends(n, b, c)
    ensures Extends(n, a, c)
  {
  }

  /**
   * The relation between the stamps of a labelled edge `(u, v)` once the search
   * is over: tree and forward edges lead to a vertex whose interval lies inside
   * `u`'s, back edges to one whose interval encloses `u`'s, cross edges to one
   * discovered and finished earlier.
   */
  predicate Classified(t: EdgeType, du: int, dv: int, fu: int, fv: int) {
    match t
    case Tree => du < dv && fv < fu
    case Forward => du < dv && fv < fu
    case Back => dv < du && fu < fv
    case Cross => dv < du && fv < fu
  }

  /** The stamps determine the label, up to the tree/forward distinction. */
  lemma ClassifiedExclusive(t1: EdgeType, t2: EdgeType, du: int, dv: int, fu: int, fv: int)
    requires Classified(t1, du, dv, fu, fv) && Classified(t2, du, dv, fu, fv)
    ensures t1 == t2 || (t1 in {Tree, Forward} && t2 in {Tree, Forward})
  {
  }

  /** No stamps, no labels: the state `Graph(vertices)` creates. */
  lemma FreshState(n: nat, adj: seq<seq<int>>, s: Snapshot)
    requires Adjacency(n, adj)
    requires s == Snapshot(seq(n, _ => -1), seq(n, _ => -1), seq(n, _ => false), 0, map[], [])
    ensures SearchOk(n, adj, s)
  {
    assert forall v :: 0 <= v < n ==> s.disc[v] == -1 && s.fin[v] == -1 && !s.visited[v];
    CountExtremes(s.disc);
    CountExtremes(s.fin);
    assert Stamps(n, s);
    assert Labels(n, adj, s);
  }

  /** The state after the first two statements of `DFSVisit(v)`. */
  function Discover(s: Snapshot, v: int): Snapshot
    requires 0 <= v < |s.disc| && v < |s.visited|
  {
    s.(disc := s.disc[v := s.tc + 1], visited := s.visited[v := true], tc := s.tc + 1, log := s.log + [(v, false)])
  }

  /** Discovering `v` with stamp `tc + 1` keeps the invariant. */
  lemma DiscoverStep(n: int, adj: seq<seq<int>>, s: Snapshot, v: int)
    requires SearchOk(n, adj, s) && 0 <= v < n && !s.visited[v]
    ensures SearchOk(n, adj, Discover(s, v))
    ensures Count(Discover(s, v).disc) == Count(s.disc) + 1
    ensures forall k :: k in s.et ==> k.0 != v
    ensures forall x :: 0 <= x < n && x != v && s.visited[x] ==> s.disc[x] < Discover(s, v).tc
  {
    DiscoverStamps(n, s, v);
    DiscoverLabels(n, adj, s, v);
  }

  lemma DiscoverStamps(n: int, s: Snapshot, v: int)
    requires Stamps(n, s) && 0 <= v < n && !s.visited[v]
    ensures Stamps(n, Discover(s, v))
    ensures Count(Discover(s, v).disc) == Count(s.disc) + 1
  {
    CountUpdate(s.disc, v, s.tc + 1);
  }

  lemma DiscoverLabels(n: int, adj: seq<seq<int>>, s: Snapshot, v: int)
    requires Adjacency(n, adj) && Stamps(n, s) && Labels(n, adj, s) && 0 <= v < n && !s.visited[v]
    ensures Labels(n, adj, Discover(s, v))
    ensures forall k :: k in s.et ==> k.0 != v
  {
  }

  /** Labelling arc `(u, w)` of the active vertex `u` with `t` keeps the invariant when its facts hold. */
  lemma LabelStep(n: int, adj: seq<seq<int>>, s: Snapshot, u: int, w: int, t: EdgeType)
    requires SearchOk(n, adj, s) && 0 <= u < n && s.disc[u] != -1 && s.fin[u] == -1 && w in adj[u]
    requires LabelFacts(t, s.disc[u], s.disc[w], s.fin[u], s.fin[w])
    ensures SearchOk(n, adj, s.(et := s.et[(u, w) := t]))
  {
  }

  /** The label does not disturb a snapshot `a` that had no arc of `u` yet. */
  lemma LabelExtends(n: int, a: Snapshot, s: Snapshot, u: int, w: int, t: EdgeType)
    requires Extends(n, a, s) && forall k :: k in a.et ==> k.0 != u
    ensures Extends(n, a, s.(et := s.et[(u, w) := t]))
  {
  }

  /** The state after the last statement of `DFSVisit(u)`. */
  function Finish(s: Snapshot, u: int): Snapshot
    requires 0 <= u < |s.fin|
  {
    s.(fin := s.fin[u := s.tc + 1], tc := s.tc + 1, log := s.log + [(u, true)])
  }

  /**
   * Finishing `u` with stamp `tc + 1` keeps the invariant once every arc of
   * `u` is labelled, the heads of its back edges unfinished and the others finished.
   */
  lemma FinishStep(n: int, adj: seq<seq<int>>, s: Snapshot, u: int)
    requires SearchOk(n, adj, s) && 0 <= u < n && s.disc[u] != -1 && s.fin[u] == -1
    requires forall j :: 0 <= j < |adj[u]| ==> (u, adj[u][j]) in s.et
    requires forall w :: (u, w) in s.et ==> (s.et[(u, w)] == Back <==> s.fin[w] == -1)
    ensures SearchOk(n, adj, Finish(s, u))
  {
    FinishStamps(n, s, u);
    FinishLabels(n, adj, s, u);
  }

  lemma FinishStamps(n: int, s: Snapshot, u: int)
    requires Stamps(n, s) && 0 <= u < n && s.disc[u] != -1 && s.fin[u] == -1
    ensures Stamps(n, Finish(s, u))
  {
    CountUpdate(s.fin, u, s.tc + 1);
  }

  lemma FinishLabels(n: int, adj: seq<seq<int>>, s: Snapshot, u: int)
    requires Adjacency(n, adj) && Stamps(n, s) && Labels(n, adj, s)
    requires 0 <= u < n && s.disc[u] != -1 && s.fin[u] == -1
    requires forall j :: 0 <= j < |adj[u]| ==> (u, adj[u][j]) in s.et
    requires forall w :: (u, w) in s.et ==> (s.et[(u, w)] == Back <==> s.fin[w] == -1)
    ensures Labels(n, adj, Finish(s, u))
  {
    var f := Finish(s, u);
    forall k | k in s.et
      ensures LabelFacts(s.et[k], f.disc[k.0], f.disc[k.1], f.fin[k.0], f.fin[k.1])
    {
      assert LabelFacts(s.et[k], s.disc[k.0], s.disc[k.1], s.fin[k.0], s.fin[k.1]);
      if k.0 == u {
        assert k.1 != u;
      }
    }
    forall v | 0 <= v < n && f.fin[u] != -1 && v in adj[u] ensures (u, v) in f.et {
      var j :| 0 <= j < |adj[u]| && adj[u][j] == v;
    }
  }

  /**
   * The outcome of a whole search over `n` vertices with lists `adj`: every
   * vertex has both stamps, the `2n` stamps are distinct and lie in `1..2n`,
   * every arc carries a label, and each label is `Classified` by its stamps.
   */
  ghost predicate Outcome(n: int, adj: seq<seq<int>>, s: Snapshot)
    requires |adj| == n
  {
    |s.disc| == n && |s.fin| == n && |s.visited| == n && s.tc == 2 * n &&
    (forall v :: 0 <= v < n ==> s.visited[v] && 1 <= s.disc[v] < s.fin[v] <= 2 * n) &&
    (forall u, v :: 0 <= u < n && 0 <= v < n && u != v ==> s.disc[u] != s.disc[v] && s.fin[u] != s.fin[v]) &&
    (forall u, v :: 0 <= u < n && 0 <= v < n ==> s.disc[u] != s.fin[v]) &&
    (forall u, v :: 0 <= u < n && v in adj[u] ==> (u, v) in s.et) &&
    (forall k :: k in s.et ==>
       0 <= k.0 < n && 0 <= k.1 < n && k.1 in adj[k.0] &&
       Classified(s.et[k], s.disc[k.0], s.disc[k.1], s.fin[k.0], s.fin[k.1]))
  }

  /** Once every vertex is finished, the invariant gives the outcome of the search. */
  lemma SearchComplete(n: int, adj: seq<seq<int>>, s: Snapshot)
    requires SearchOk(n, adj, s) && forall v :: 0 <= v < n ==> s.visited[v] && s.fin[v] != -1
    ensures Outcome(n, adj, s)
  {
    CountExtremes(s.disc);
    CountExtremes(s.fin);
    StampsDistinct(n, s);
    forall k | k in s.et
      ensures Classified(s.et[k], s.disc[k.0], s.disc[k.1], s.fin[k.0], s.fin[k.1])
    {
      assert LabelFacts(s.et[k], s.disc[k.0], s.disc[k.1], s.fin[k.0], s.fin[k.1]);
    }
  }

  /** A whole visit of `v`, from `s0` to `Finish(e, v)`, is a completed visit. */
  lemma VisitExtends(n: int, s0: Snapshot, e: Snapshot, v: int)
    requires |s0.disc| == n && |s0.fin| == n && |s0.visited| == n && 0 <= v < n && !s0.visited[v]
    requires s0.disc[v] == -1 && s0.tc >= 0
    requires Extends(n, Discover(s0, v), e) && e.fin[v] == -1
    ensures Extends(n, s0, Finish(e, v))
  {
    CountUpdate(s0.disc, v, s0.tc + 1);
  }

  /**
   * What holds while `DFSVisit(u)` scans the arcs of `u`, in state `c`, before
   * the arc at position `i`: `s1` is the state right after discovering `u`,
   * only completed visits happened since (each labelling arcs of vertices it
   * discovered), the first `i` arcs of `u` are labelled, and exactly the back
   * edges of `u` lead to unfinished vertices.
   */
  ghost predicate ScanState(n: int, adj: seq<seq<int>>, u: int, i: int, s1: Snapshot, c: Snapshot)
    requires |adj| == n && |c.disc| == n && |c.fin| == n
  {
    0 <= u < n && 0 <= i <= |adj[u]| &&
    Extends(n, s1, c) && s1.visited[u] &&
    c.disc[u] == s1.tc && c.fin[u] == -1 &&
    (forall x :: 0 <= x < n && x != u && s1.visited[x] ==> s1.disc[x] < s1.tc) &&
    (forall k :: k in s1.et ==> k.0 != u) &&
    (forall k :: k in c.et && k !in s1.et ==> 0 <= k.0 < n && (k.0 == u || !s1.visited[k.0])) &&
    (forall j :: 0 <= j < i ==> (u, adj[u][j]) in c.et) &&
    (forall w :: (u, w) in c.et ==> 0 <= w < n && (c.et[(u, w)] == Back <==> c.fin[w] == -1))
  }

  /** Discovering `v` starts its scan at position 0. */
  lemma StartScan(n: int, adj: seq<seq<int>>, s: Snapshot, v: int)
    requires SearchOk(n, adj, s) && 0 <= v < n && !s.visited[v]
    ensures SearchOk(n, adj, Discover(s, v)) && Count(Discover(s, v).disc) == Count(s.disc) + 1
    ensures ScanState(n, adj, v, 0, Discover(s, v), Discover(s, v))
  {
    DiscoverStep(n, adj, s, v);
  }

  /**
   * The label `DFSVisit` gives arc `(u, w)` when `w` is already discovered:
   * back while `w` is unfinished and discovered earlier, forward when `w` was
   * discovered later and is finished, cross otherwise.
   */
  function VisitedLabel(du: int, dw: int, fw: int): EdgeType {
    if dw < du && fw == -1 then Back
    else if du < dw && fw != -1 then Forward
    else Cross
  }

  /**
   * The label `VisitedLabel` picks for an arc `(u, w)` of the vertex `u` under
   * scan, whose head is discovered, has its `LabelFacts`: a head that was
   * discovered before `u` has the earlier stamp and one discovered since is finished.
   */
  lemma VisitedLabelFacts(n: int, u: int, s1: Snapshot, s: Snapshot, w: int)
    requires Extends(n, s1, s) && 0 <= u < n && 0 <= w < n && u != w && s1.visited[u]
    requires s.disc[u] == s1.tc && s.fin[u] == -1 && s.visited[w] && s.disc[w] != -1
    requires forall x :: 0 <= x < n && x != u && s1.visited[x] ==> s1.disc[x] < s1.tc
    ensures LabelFacts(VisitedLabel(s.disc[u], s.disc[w], s.fin[w]), s.disc[u], s.disc[w], s.fin[u], s.fin[w])
  {
    if !s1.visited[w] {
      assert s.fin[w] != -1;
    }
  }

  /** Labelling the arc at position `i` with `t` advances the scan when `t` is back exactly for an unfinished head. */
  lemma LabelScanState(n: int, adj: seq<seq<int>>, u: int, i: int, s1: Snapshot, s: Snapshot, w: int, t: EdgeType)
    requires |adj| == n && |s.disc| == n && |s.fin| == n
    requires ScanState(n, adj, u, i, s1, s) && i < |adj[u]| && w == adj[u][i] && 0 <= w < n
    requires (t == Back <==> s.fin[w] == -1) && Extends(n, s1, s.(et := s.et[(u, w) := t]))
    ensures ScanState(n, adj, u, i + 1, s1, s.(et := s.et[(u, w) := t]))
  {
  }

  /** Labelling the arc at position `i` when its head is already discovered advances the scan. */
  lemma LabelScan(n: int, adj: seq<seq<int>>, u: int, i: int, s1: Snapshot, s: Snapshot, w: int)
    requires SearchOk(n, adj, s) && ScanState(n, adj, u, i, s1, s) && i < |adj[u]|
    requires w == adj[u][i] && s.visited[w]
    ensures var s' := s.(et := s.et[(u, w) := VisitedLabel(s.disc[u], s.disc[w], s.fin[w])]);
      SearchOk(n, adj, s') && ScanState(n, adj, u, i + 1, s1, s')
  {
    var t := VisitedLabel(s.disc[u], s.disc[w], s.fin[w]);
    assert w in adj[u];
    VisitedLabelFacts(n, u, s1, s, w);
    LabelStep(n, adj, s, u, w, t);
    LabelExtends(n, s1, s, u, w, t);
    LabelScanState(n, adj, u, i, s1, s, w, t);
  }

  /** Labelling the arc at position `i` a tree edge, before visiting its head. */
  lemma TreeScan(n: int, adj: seq<seq<int>>, u: int, i: int, s1: Snapshot, s: Snapshot, w: int)
    requires SearchOk(n, adj, s) && ScanState(n, adj, u, i, s1, s) && i < |adj[u]|
    requires w == adj[u][i] && !s.visited[w]
    ensures SearchOk(n, adj, s.(et := s.et[(u, w) := Tree]))
    ensures Extends(n, s1, s.(et := s.et[(u, w) := Tree]))
  {
    assert w in adj[u];
    LabelStep(n, adj, s, u, w, Tree);
    LabelExtends(n, s1, s, u, w, Tree);
  }

  /** While `u` is being scanned, the heads of its labelled arcs are discovered. */
  lemma LabelledHeadsVisited(n: int, adj: seq<seq<int>>, s: Snapshot, u: int)
    requires SearchOk(n, adj, s) && 0 <= u < n
    requires forall x :: (u, x) in s.et ==> 0 <= x < n && (s.et[(u, x)] == Back <==> s.fin[x] == -1)
    ensures forall x :: (u, x) in s.et ==> 0 <= x < n && s.visited[x]
  {
    forall x | (u, x) in s.et ensures 0 <= x < n && s.visited[x] {
      assert LabelFacts(s.et[(u, x)], s.disc[u], s.disc[x], s.fin[u], s.fin[x]);
    }
  }

  /** A completed visit below the tree edge `(u, w)` leaves `u`'s back-edge facts true. */
  lemma DescendBack(n: int, u: int, w: int, s: Snapshot, s2: Snapshot, c: Snapshot)
    requires |s.visited| == n && |s.fin| == n && 0 <= u < n && 0 <= w < n && s.visited[u]
    requires forall x :: (u, x) in s.et ==> 0 <= x < n && s.visited[x] && (s.et[(u, x)] == Back <==> s.fin[x] == -1)
    requires s2 == s.(et := s.et[(u, w) := Tree])
    requires Extends(n, s2, c) && NewTails(n, s2, c) && c.fin[w] != -1
    ensures forall x :: (u, x) in c.et ==> 0 <= x < n && (c.et[(u, x)] == Back <==> c.fin[x] == -1)
  {
    forall x | (u, x) in c.et
      ensures 0 <= x < n && (c.et[(u, x)] == Back <==> c.fin[x] == -1)
    {
      assert (u, x) in s2.et by {
        assert s2.visited[u];
      }
    }
  }

  /** A completed visit below the tree edge `(u, w)` adds labels only to arcs of vertices it discovered. */
  lemma DescendTails(n: int, u: int, s1: Snapshot, s2: Snapshot, c: Snapshot)
    requires |s1.visited| == n && |s2.visited| == n && 0 <= u < n
    requires forall x :: 0 <= x < n && s1.visited[x] ==> s2.visited[x]
    requires forall k :: k in s2.et && k !in s1.et ==> 0 <= k.0 < n && (k.0 == u || !s1.visited[k.0])
    requires NewTails(n, s2, c)
    ensures forall k :: k in c.et && k !in s1.et ==> 0 <= k.0 < n && (k.0 == u || !s1.visited[k.0])
  {
  }

  /** After the visit of the head `w` of a tree edge, the scan moves past it. */
  lemma DescendScan(n: int, adj: seq<seq<int>>, u: int, i: int, s1: Snapshot, s: Snapshot, w: int, c: Snapshot)
    requires |adj| == n && |s.disc| == n && |s.fin| == n && |s.visited| == n
    requires ScanState(n, adj, u, i, s1, s) && i < |adj[u]|
    requires w == adj[u][i] && 0 <= w < n && !s.visited[w]
    requires forall x :: (u, x) in s.et ==> 0 <= x < n && s.visited[x]
    requires Extends(n, s1, s.(et := s.et[(u, w) := Tree]))
    requires Extends(n, s.(et := s.et[(u, w) := Tree]), c) && NewTails(n, s.(et := s.et[(u, w) := Tree]), c)
    requires c.fin[w] != -1
    ensures ScanState(n, adj, u, i + 1, s1, c)
  {
    var s2 := s.(et := s.et[(u, w) := Tree]);
    ExtendsTrans(n, s1, s2, c);
    DescendBack(n, u, w, s, s2, c);
    DescendTails(n, u, s1, s2, c);
  }

  /** Finishing `u` once its scan is over completes the visit that started at `s0`. */
  lemma EndScan(n: int, adj: seq<seq<int>>, s0: Snapshot, s1: Snapshot, e: Snapshot, u: int)
    requires SearchOk(n, adj, e) && 0 <= u < n && ScanState(n, adj, u, |adj[u]|, s1, e)
    requires |s0.disc| == n && |s0.fin| == n && |s0.visited| == n
    requires !s0.visited[u] && s0.disc[u] == -1 && s0.tc >= 0 && s1 == Discover(s0, u)
    ensures SearchOk(n, adj, Finish(e, u))
    ensures Extends(n, s0, Finish(e, u)) && NewTails(n, s0, Finish(e, u))
  {
    FinishStep(n, adj, e, u);
    VisitExtends(n, s0, e, u);
  }

  /** Every discovered vertex is finished. */
  ghost predicate AllFinished(n: int, s: Snapshot)
    requires |s.visited| == n && |s.fin| == n
  {
    forall v :: 0 <= v < n && s.visited[v] ==> s.fin[v] != -1
  }

  /** The vertices below `i` are discovered. */
  ghost predicate VisitedBelow(n: int, s: Snapshot, i: int) {
    0 <= i <= n && |s.visited| == n && forall j :: 0 <= j < i ==> s.visited[j]
  }

  /** A completed visit keeps every discovered vertex finished and every earlier one discovered. */
  lemma VisitKeepsFinished(n: int, a: Snapshot, b: Snapshot, i: int)
    requires Extends(n, a, b) && AllFinished(n, a) && VisitedBelow(n, a, i)
    ensures AllFinished(n, b) && VisitedBelow(n, b, i)
  {
  }

  /** Once vertex `i` is discovered, so is every vertex below `i + 1`. */
  lemma VisitedBelowNext(n: int, s: Snapshot, i: int, i1: int)
    requires VisitedBelow(n, s, i) && i < n && s.visited[i] && i1 == i + 1
    ensures VisitedBelow(n, s, i1)
  {
  }

  class Graph {
    var vertices: int
    var edges: int
    var timeCounter: int
    var adjacencyList: seq<seq<int>>
    var discoveryTime: seq<int>
    var finishTime: seq<int>
    var visited: seq<bool>
    var edgeTypes: map<(int, int), EdgeType>
    ghost var log: seq<(int, bool)>

    /** The lists are well formed and `edges` counts their arcs. */
    ghost predicate Valid()
      reads this
    {
      vertices >= 0 && Adjacency(vertices, adjacencyList) && edges == Arcs(adjacencyList)
    }

    ghost function State(): Snapshot
      reads this
    {
      Snapshot(discoveryTime, finishTime, visited, timeCounter, edgeTypes, log)
    }

    /** The invariant of the search state. */
    ghost predicate DfsInv()
      reads this
    {
      SearchOk(vertices, adjacencyList, State())
    }

    /** No search is under way: every discovered vertex is finished. */
    ghost predicate Quiescent()
      reads this
      requires DfsInv()
    {
      AllFinished(vertices, State())
    }

    /** No arc is listed twice. */
    ghost predicate Simple()
      reads this
    {
      NoRepeats(adjacencyList)
    }

    /** The state before any search. */
    ghost predicate Fresh()
      reads this
    {
      vertices >= 0 &&
      State() == Snapshot(seq(vertices, _ => -1), seq(vertices, _ => -1), seq(vertices, _ => false), 0, map[], [])
    }

    /** `Graph(vertices)`: empty lists, no stamps, counters at 0. */
    constructor (vertices: nat)
      ensures Valid() && Simple() && Fresh() && this.vertices == vertices && edges == 0
      ensures adjacencyList == seq(vertices, _ => [])
    {
      this.vertices := vertices;
      edges := 0;
      timeCounter := 0;
      adjacencyList := seq(vertices, _ => []);
      discoveryTime := seq(vertices, _ => -1);
      finishTime := seq(vertices, _ => -1);
      visited := seq(vertices, _ => false);
      edgeTypes := map[];
      log := [];
      new;
      assert forall i :: 0 <= i < vertices ==> |adjacencyList[i]| == 0;
      ArcsEmpty(adjacencyList);
    }

    /** A fresh graph is ready for `PerformDfs`. */
    lemma FreshIsReady()
      requires Valid() && Fresh()
      ensures DfsInv() && Quiescent()
    {
      FreshState(vertices, adjacencyList, State());
    }

    /**
     * `addEdge(origin, destination)`: the arc is appended to `origin`'s list,
     * and `edges` incremented, exactly when the endpoints differ and the arc is
     * not there yet; the search state is untouched.
     */
    method AddEdge(origin: int, destination: int)
      requires Valid() && 0 <= origin < vertices && 0 <= destination < vertices
      modifies this
      ensures Valid() && vertices == old(vertices) && State() == old(State())
      ensures if origin != destination && destination !in old(adjacencyList[origin]) then
          adjacencyList == old(adjacencyList)[origin := old(adjacencyList[origin]) + [destination]] &&
          edges == old(edges) + 1
        else
          adjacencyList == old(adjacencyList) && edges == old(edges)
      ensures old(Simple()) ==> Simple()
      ensures old(Fresh()) ==> Fresh()
    {
      if origin != destination && destination !in adjacencyList[origin] {
        ArcsAppend(adjacencyList, origin, destination);
        adjacencyList := adjacencyList[origin := adjacencyList[origin] + [destination]];
        edges := edges + 1;
      }
    }

    /** `DfsVisit`'s scan of `vertex`, before the arc at position `i`. */
    ghost predicate Scanning(vertex: int, i: int, s1: Snapshot)
      reads this
      requires Valid() && DfsInv()
    {
      ScanState(vertices, adjacencyList, vertex, i, s1, State())
    }

    /**
     * `DFSVisit(vertex)`: discovers `vertex`, labels each of its arcs, recursing
     * into undiscovered heads, and finishes it. Stamps and labels already there
     * stay; every vertex it discovers it also finishes, with stamps after the
     * old counter; every label it adds is on an arc of a vertex it discovered.
     */
    method DfsVisit(vertex: int)
      requires Valid() && DfsInv() && 0 <= vertex < vertices && !visited[vertex]
      modifies this
      ensures Valid() && DfsInv()
      ensures vertices == old(vertices) && adjacencyList == old(adjacencyList) && edges == old(edges)
      ensures visited[vertex] && finishTime[vertex] != -1
      ensures Extends(vertices, old(State()), State()) && NewTails(vertices, old(State()), State())
      ensures old(Count(discoveryTime)) < Count(discoveryTime)
      decreases 3 * (vertices - Count(discoveryTime))
    {
      ghost var s0 := State();
      StartVisit(vertex);
      ghost var s1 := State();
      var i := 0;
      while i < |adjacencyList[vertex]|
        invariant Valid() && DfsInv()
        invariant vertices == old(vertices) && adjacencyList == old(adjacencyList) && edges == old(edges)
        invariant Scanning(vertex, i, s1) && Count(discoveryTime) > Count(s0.disc)
        decreases |adjacencyList[vertex]| - i
      {
        ScanArc(vertex, i, s1);
        i := i + 1;
      }
      EndVisit(vertex, s0, s1);
    }

    /** The first two statements of `DFSVisit(vertex)`: it is marked visited and gets the next stamp. */
    method StartVisit(vertex: int)
      requires Valid() && DfsInv() && 0 <= vertex < vertices && !visited[vertex]
      modifies this`visited, this`timeCounter, this`discoveryTime, this`log
      ensures Valid() && DfsInv() && State() == Discover(old(State()), vertex)
      ensures Scanning(vertex, 0, State())
      ensures Count(discoveryTime) == old(Count(discoveryTime)) + 1
    {
      ghost var s0 := State();
      ghost var d := Discover(s0, vertex);
      StartScan(vertices, adjacencyList, s0, vertex);
      visited := visited[vertex := true];
      timeCounter := timeCounter + 1;
      discoveryTime := discoveryTime[vertex := timeCounter];
      log := d.log;
      assert visited == d.visited && timeCounter == d.tc && discoveryTime == d.disc;
      assert State() == d;
    }

    /** One turn of the loop of `DFSVisit(vertex)`, on the arc at position `i`. */
    method ScanArc(vertex: int, i: int, ghost s1: Snapshot)
      requires Valid() && DfsInv() && Scanning(vertex, i, s1) && i < |adjacencyList[vertex]|
      modifies this
      ensures Valid() && DfsInv() && Scanning(vertex, i + 1, s1)
      ensures vertices == old(vertices) && adjacencyList == old(adjacencyList) && edges == old(edges)
      decreases 3 * (vertices - Count(discoveryTime)) + 2
    {
      var neighbor := adjacencyList[vertex][i];
      if !visited[neighbor] {
        Descend(vertex, neighbor, i, s1);
      } else {
        LabelVisited(vertex, neighbor, i, s1);
      }
    }

    /** The `if` branch of the loop in `DFSVisit`: a tree edge, and the visit of its head. */
    method Descend(vertex: int, neighbor: int, i: int, ghost s1: Snapshot)
      requires Valid() && DfsInv() && Scanning(vertex, i, s1) && i < |adjacencyList[vertex]|
      requires neighbor == adjacencyList[vertex][i] && !visited[neighbor]
      modifies this
      ensures Valid() && DfsInv() && Scanning(vertex, i + 1, s1)
      ensures vertices == old(vertices) && adjacencyList == old(adjacencyList) && edges == old(edges)
      decreases 3 * (vertices - Count(discoveryTime)) + 1
    {
      ghost var s := State();
      TreeScan(vertices, adjacencyList, vertex, i, s1, s, neighbor);
      LabelledHeadsVisited(vertices, adjacencyList, s, vertex);
      MarkTree(vertex, neighbor);
      DfsVisit(neighbor);
      DescendScan(vertices, adjacencyList, vertex, i, s1, s, neighbor, State());
    }

    /** `edgeTypes[{vertex, neighbor}] = "Tree Edge";` */
    method MarkTree(vertex: int, neighbor: int)
      requires Valid() && SearchOk(vertices, adjacencyList, State().(et := edgeTypes[(vertex, neighbor) := Tree]))
      modifies this`edgeTypes
      ensures Valid() && DfsInv() && State() == old(State()).(et := old(edgeTypes)[(vertex, neighbor) := Tree])
    {
      ghost var s2 := State().(et := edgeTypes[(vertex, neighbor) := Tree]);
      edgeTypes := edgeTypes[(vertex, neighbor) := Tree];
      assert edgeTypes == s2.et;
      assert State() == s2;
    }

    /**
     * The `else` branch of the loop in `DFSVisit`: the head `neighbor` is
     * already discovered, and the arc gets the label its stamps call for.
     */
    method LabelVisited(vertex: int, neighbor: int, i: int, ghost s1: Snapshot)
      requires Valid() && DfsInv() && Scanning(vertex, i, s1) && i < |adjacencyList[vertex]|
      requires neighbor == adjacencyList[vertex][i] && visited[neighbor]
      modifies this`edgeTypes
      ensures Valid() && DfsInv() && Scanning(vertex, i + 1, s1)
      ensures edgeTypes == old(edgeTypes)[(vertex, neighbor) :=
        VisitedLabel(discoveryTime[vertex], discoveryTime[neighbor], finishTime[neighbor])]
    {
      ghost var s := State();
      LabelScan(vertices, adjacencyList, vertex, i, s1, s, neighbor);
      var t := VisitedLabel(discoveryTime[vertex], discoveryTime[neighbor], finishTime[neighbor]);
      ghost var s2 := s.(et := s.et[(vertex, neighbor) := t]);
      edgeTypes := edgeTypes[(vertex, neighbor) := t];
      assert edgeTypes == s2.et;
      assert State() == s2;
    }

    /** The last statement of `DFSVisit(vertex)`: `vertex` gets its finish stamp. */
    method EndVisit(vertex: int, ghost s0: Snapshot, ghost s1: Snapshot)
      requires Valid() && DfsInv() && 0 <= vertex < vertices && Scanning(vertex, |adjacencyList[vertex]|, s1)
      requires |s0.disc| == vertices && |s0.fin| == vertices && |s0.visited| == vertices
      requires !s0.visited[vertex] && s0.disc[vertex] == -1 && s0.tc >= 0 && s1 == Discover(s0, vertex)
      modifies this`timeCounter, this`finishTime, this`log
      ensures Valid() && DfsInv() && State() == Finish(old(State()), vertex)
      ensures Extends(vertices, s0, State()) && NewTails(vertices, s0, State())
    {
      ghost var e := State();
      ghost var f := Finish(e, vertex);
      EndScan(vertices, adjacencyList, s0, s1, e, vertex);
      timeCounter := timeCounter + 1;
      finishTime := finishTime[vertex := timeCounter];
      log := f.log;
      assert timeCounter == f.tc && finishTime == f.fin;
      assert State() == f;
    }

    /**
     * `performDFS()` without its printing: after it the stamps and labels are
     * the `Outcome` of a whole search.
     */
    method PerformDfs()
      requires Valid() && DfsInv() && Quiescent()
      modifies this
      ensures Valid() && DfsInv() && Quiescent()
      ensures vertices == old(vertices) && adjacencyList == old(adjacencyList) && edges == old(edges)
      ensures Outcome(vertices, adjacencyList, State())
    {
      var i := 0;
      while i < vertices
        invariant Valid() && DfsInv() && Quiescent()
        invariant vertices == old(vertices) && adjacencyList == old(adjacencyList) && edges == old(edges)
        invariant VisitedBelow(vertices, State(), i)
      {
        VisitFrom(i);
        i := i + 1;
      }
      SearchComplete(vertices, adjacencyList, State());
    }

    /** One turn of the loop of `performDFS()`: `DFSVisit(i)` when `i` is still undiscovered. */
    method VisitFrom(i: int)
      requires Valid() && DfsInv() && Quiescent() && VisitedBelow(vertices, State(), i) && i < vertices
      modifies this
      ensures Valid() && DfsInv() && Quiescent() && VisitedBelow(vertices, State(), i + 1)
      ensures vertices == old(vertices) && adjacencyList == old(adjacencyList) && edges == old(edges)
    {
      if !visited[i] {
        ghost var a := State();
        DfsVisit(i);
        VisitKeepsFinished(vertices, a, State(), i);
      }
      var i1 := i + 1;
      VisitedBelowNext(vertices, State(), i, i1);
    }
  }
}
