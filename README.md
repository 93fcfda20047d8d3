# PAA exercises in Dafny

This project models the integer-only algorithmic cores of the PAA exercise
repository and proves properties about them. The exercises are independent,
so each core is its own module:

- **EulerGraph, Bridges, Fleury, EulerRepair, CompleteEuler**
  (`Atividade01/main.cpp`). These cover:
  - the adjacency-list undirected `Graph`, with `addEdge`, `removeEdge`,
    `addEdgeBack`, `DFSUtil` and `isConnectedAfterRemoval`;
  - the naive bridge test;
  - Tarjan's discovery/low-link bridge search;
  - the two Fleury walks;
  - the all-even Euler test and the odd-vertex pairing repair;
  - the synthetic complete Eulerian graph.
- **Trees** (`Atividade02/main.cpp`, `Atividade02/tree_edit.h`). The `Node`
  tree is an inductive datatype. It carries `countNodes`, `maxDegree` and the
  postorder that the edit distance numbers nodes by.
- **TreeEdit** (`Atividade02/tree_edit.cpp`). This is the Zhang–Shasha tree
  edit distance:
  - `cost`;
  - `computePostorder` and `computeLLD`;
  - `buildTreeInfo`;
  - the `forestdist`/`treedist` loops of `treeEditDistance`;
  - `getTreeMatrix`.
- **UnionFind** (`Atividade04/Artigo01/component.hpp`). The disjoint-set
  forest of `GraphComponents`: path-compressing `find`, union by rank and
  the component count.
- **GridGraph** (`Atividade04/Artigo01/graph.hpp`). The `Graph` constructor
  builds the edges of a pixel grid, and `calculateWeights` gives the
  per-channel weights.
- **FileNames** (`Atividade04/Artigo01/main.cpp`, `Atividade04/Artigo02/main.cpp`).
  This covers `getFileNameWithoutExtension` with the `size_t` arithmetic of
  `find_last_of`/`substr`, including `npos + 1 == 0`, and the output path.
- **SegmentColors** (`Atividade04/Artigo02/color_segments.hpp`): `colorizeSegmentation`.
- **DfsClassify** (`Old/Atividade01/Questao01.cpp`). Directed DFS with
  discovery and finish stamps, and the tree/back/forward/cross edge labels.
- **Eccentricity** (`Old/Atividade01/Questao02.cpp`). The adjacency-matrix
  graph, the BFS distances and the eccentricities.
- **CoinChange** (`Old/Atividade03/moedas.cpp`). The greedy change-maker and
  the exhaustive backtracking search.
- **LinearSearch** (`Old/Atividade02/Metodo02.cpp`): the operation-counting `find`.

State that the C++ code updates in place is kept in place:

- `Graph`, `BridgeSearch`, `TreeInfo`, `GraphComponents`, the grid `Graph`,
  the DFS `Graph` and the matrix `Graph` are classes whose methods modify
  their fields.
- `forestdist`/`treedist` are `array2`s filled by nested loops.
- Loops stay loops.

Each method is proved against a specification function. Examples:

- `Reachable` for DFS;
- `Dist`/`Ecc` for BFS;
- `FD`/`TD`/`Distance` for the dynamic programme;
- `GridEdges` for the edge list;
- `MinCount` for the exhaustive search;
- `GreedyPicks` for the greedy method;
- `RootIn` for the forest.

The properties the code promises are then lemmas about those functions.

Where the code and the written description of the repository differ, the
model follows the code. Two cases:

- `colorizeSegmentation` paints a `true` mask entry with `backgroundColor`
  (blue) and a `false` entry with `objectColor` (red).
- `getTreeMatrix` looks node names up in an `ids` table that the caller
  supplies.

## Model

| member | source | states |
|---|---|---|
| EulerGraph.Graph.constructor | Atividade01/main.cpp:17-21 | `Graph(V)` has `V` empty lists. |
| EulerGraph.Graph.Copy | Atividade01/main.cpp:107 | Passing the graph by value gives the Fleury walks their own copy, with the same `V` and lists. |
| EulerGraph.Graph.AddEdge | Atividade01/main.cpp:23-27 | The new lists are `AddEdgeAdj(old adj, u, v)`, and symmetry is kept. |
| EulerGraph.AddEdgeShape | Atividade01/main.cpp:23-27 | `v` is appended at the end of `adj[u]` and `u` at the end of `adj[v]` (`u, u` for a self-loop). No other list changes. The entry count grows by 2. |
| EulerGraph.AddEdgeUndirected | Atividade01/main.cpp:23-27 | `addEdge` keeps adjacency symmetric (as multisets). |
| EulerGraph.Graph.RemoveEdge | Atividade01/main.cpp:29-37 | The new lists are `RemoveEdgeAdj(old adj, u, v)`, and symmetry is kept. |
| EulerGraph.FirstIndex | Atividade01/main.cpp:31-34 | `find` returns the first position holding `x`, or the end when `x` is absent. |
| EulerGraph.RemoveFirstCounts | Atividade01/main.cpp:31-36 | An erase removes exactly one occurrence of `x`: the length drops by 1 and the multiset loses one `x`. |
| EulerGraph.RemoveEdgeBounded | Atividade01/main.cpp:29-37 | `removeEdge` touches only `adj[u]` and `adj[v]` and keeps every entry a vertex. |
| EulerGraph.RemoveEdgeTotal | Atividade01/main.cpp:29-37 | On an existing edge of a symmetric graph, exactly two entries go. |
| EulerGraph.RemoveNonEdge | Atividade01/main.cpp:32-35 | Removing a missing edge is a silent no-op on both lists. |
| EulerGraph.RemoveEdgeUndirected | Atividade01/main.cpp:29-37 | `removeEdge` keeps adjacency symmetric. |
| EulerGraph.Graph.AddEdgeBack | Atividade01/main.cpp:39-43 | `addEdgeBack` re-appends like `addEdge`. |
| EulerGraph.Graph.DfsUtil | Atividade01/main.cpp:45-51 | The marks only grow and `u` ends marked. Every new mark is reachable from `u`. Every new mark, and `u`, has all its neighbours marked (`Explored`). |
| EulerGraph.ClosedHoldsReachable | Atividade01/main.cpp:45-51 | A marked set closed under neighbours holds everything reachable from a marked vertex. |
| EulerGraph.Graph.IsConnectedAfterRemoval | Atividade01/main.cpp:53-58 | The answer is true iff `v` is reachable from `u` in the current lists. |
| Bridges.IsBridgeNaive | Atividade01/main.cpp:61-67 | The result is true iff `v` is unreachable from `u` once the edge is removed. Afterwards the lists are `removeEdge` followed by `addEdgeBack`. |
| Bridges.NaiveRestores | Atividade01/main.cpp:61-67 | For an existing edge, every list ends a permutation of the original, with the same length. |
| Bridges.BridgeSearch.constructor | Atividade01/main.cpp:93-98 | The locals start with nothing visited, `disc = low = 0`, `parent = -1`, no bridges and `timeCounter = 0`. |
| Bridges.BridgeSearch.BridgeUtil | Atividade01/main.cpp:69-89 | The visit leaves `u` discovered and open, with every neighbour and every child discovered. `low[u]` is at most the `disc` of each neighbour but the parent, and is `disc[u]` or comes from a closed child or such a neighbour. Every other vertex discovered during the call is closed. Earlier vertices keep their stamps, low-links and parents. The search invariant is kept: distinct times in discovery order, `1 <= low <= disc`, nested intervals, parents that are neighbours, closed vertices' low-links, and reports that are exactly the closed tree edges with `low[v] > disc[u]`, once each. |
| Bridges.BridgeSearch.Run | Atividade01/main.cpp:99-104 | After the root loop the fields hold the outcome of `FindBridgesTarjan` below, including the exact bridges. |
| Bridges.BridgeSearch.VisitAll | Atividade01/main.cpp:99-103 | The root loop leaves every vertex discovered and closed. |
| Bridges.FindBridgesTarjan | Atividade01/main.cpp:91-105 | `g` is only read. `disc`, a ghost finishing time and `parent` form a depth-first forest of `g`. `low` is its low-link: the least of `disc[u]`, the children's `low` and the other neighbours' `disc`, and equal to one of them. A pair is reported, with no repeats, iff it is a tree edge `(parent[v], v)` with `low[v] > disc[parent[v]]`. On an undirected graph without parallel edges, an edge is reported in either orientation iff removing it leaves `v` unreachable from `u`. |
| Bridges.SearchDone | Atividade01/main.cpp:99-104 | Once every vertex is closed, the search invariant gives that whole outcome, the exact bridges included. |
| Bridges.DoneForest | Atividade01/main.cpp:72-79 | The stamps, intervals and parents of a finished search form a depth-first forest. |
| Bridges.DoneLowLink | Atividade01/main.cpp:73-87 | The `low` of a finished search is the low-link of that forest. |
| Bridges.DoneReports | Atividade01/main.cpp:81-82 | The reports of a finished search are exactly the tree edges with `low[v] > disc[parent[v]]`. |
| Bridges.BridgesExact | Atividade01/main.cpp:81-82 | On an undirected graph without parallel edges, the outcome reports an edge iff it is a bridge. |
| DfsForest.DownReach | Atividade01/main.cpp:78-79 | A graph that keeps the tree edges below `a` reaches every vertex of `a`'s subtree from `a`. |
| DfsForest.LowBelow | Atividade01/main.cpp:80 | `low[v]` is at most the `low` of every vertex of `v`'s subtree. |
| DfsForest.LowWitness | Atividade01/main.cpp:80-87 | A `low[v]` below `disc[v]` comes from an edge out of some vertex `z` of `v`'s subtree, not to `z`'s parent, reaching a vertex discovered at `low[v]`. |
| DfsForest.CutSound | Atividade01/main.cpp:81-82 | A tree edge `(u, v)` with `low[v] > disc[u]`, where `v` lists `u` once, is a bridge. |
| DfsForest.CutComplete | Atividade01/main.cpp:80-87 | A tree edge `(u, v)` with `low[v] <= disc[u]` is no bridge. |
| DfsForest.BackKept | Atividade01/main.cpp:84-87 | An edge that is not a tree edge is no bridge. |
| DfsForest.EdgeExact | Atividade01/main.cpp:81-82 | Without parallel edges, an edge is a bridge iff it is a tree edge `(parent[w], w)` with `low[w] > disc[parent[w]]`. |
| Fleury.FleuryNaive | Atividade01/main.cpp:107-136 | The path starts at `start` and is a trail: each step uses an edge still present. It stops at a vertex with no edge left. Twice the number of steps equals the entries removed. The caller's graph is unchanged. |
| Fleury.NextNaive | Atividade01/main.cpp:115-132 | `next` is a neighbour of `u`. When `adj[u]` has one entry it is that entry and nothing changes. Otherwise it is `NaiveChoice`: the entry the loop checks at the first position `k` whose edge is no bridge, none of the checks before it finding one, with the lists as `k + 1` checks leave them. When every check finds a bridge, it is the first entry of the rotated list. The lists stay symmetric permutations of themselves. |
| Fleury.ScanNaive | Atividade01/main.cpp:122-131 | The loop with its fallback ends in `NaiveChoice`, with `next` listed at `u`. |
| Fleury.CheckAt | Atividade01/main.cpp:122-128 | The check at position `k` leaves the lists of `k + 1` checks. A bridge extends "none kept so far" to `k + 1`; otherwise the checked entry is the loop's choice. |
| Fleury.Fallback | Atividade01/main.cpp:130-131 | When every check finds a bridge, `adj[u][0]` of the rotated list is the choice and is listed at `u`. |
| Fleury.ProbedEquiv | Atividade01/main.cpp:122-129 | Any number of checks only reorders each list and keeps symmetry. |
| Fleury.RetestEquiv | Atividade01/main.cpp:61-67 | One `isBridgeNaive` only reorders each list and keeps symmetry. |
| Fleury.KeptEquiv | Atividade01/main.cpp:124 | Whether an edge is a bridge does not depend on the order within the lists. |
| Fleury.StarRetest | Atividade01/main.cpp:63-65 | Checking a leaf of a star moves it from its place in the centre's list to the back. |
| Fleury.NaiveSkips | Atividade01/main.cpp:122-131 | At the centre of the star listing `1, 2, 3` the loop checks `1`, `3` and `3` again, and the list ends as `2, 1, 3`, so the fallback `2` was never checked. |
| Fleury.TrailTotal | Atividade01/main.cpp:113-135 | Along a trail, each step removes exactly two entries and keeps symmetry. |
| Fleury.EquivRemove | Atividade01/main.cpp:124-133 | Removing an edge from two graphs with the same list multisets gives the same multisets again. This is why reordering by the naive test does not matter. |
| Fleury.FleuryTarjan | Atividade01/main.cpp:147-186 | Gives the same guarantees as `FleuryNaive` for the Tarjan-driven choice. |
| Fleury.NextTarjan | Atividade01/main.cpp:155-182 | `next` is a neighbour of `u`, the lone one when there is one, and the graph is only read. On an undirected graph without parallel edges it follows Fleury's rule (`FirstKept`): the first entry of `adj[u]` whose edge is no bridge, or `adj[u][0]` when every edge is a bridge. |
| Fleury.EquivReachable | Atividade01/main.cpp:124 | Reordering lists keeps reachability, so the naive test's answer survives the reordering it causes. |
| Fleury.IsReported | Atividade01/main.cpp:165-173 | The answer is true iff `(u, v)` or `(v, u)` is among the bridges. |
| EulerRepair.IsEulerian | Atividade01/main.cpp:197-205 | The answer is true iff every list has even length. |
| EulerRepair.CollectOdds | Atividade01/main.cpp:209-214 | `odds` lists the odd-degree vertices in increasing order. |
| EulerRepair.OddsBelowFacts | Atividade01/main.cpp:210-214 | That list has no repeats and holds exactly the odd-degree vertices. |
| EulerRepair.FindCandidate | Atividade01/main.cpp:229-240 | The result is the first `j >= i+2` whose vertex is not adjacent to `odds[i]`, or the end. |
| EulerRepair.PairNext | Atividade01/main.cpp:220-246 | One pairing step adds one edge and keeps the invariant: `odds[k]` to `odds[k + 1]` when they are not adjacent, or else to the first later non-adjacent `odds[j]`, swapped into position `k + 1`. Failing changes nothing, and then `odds[k + 1]` and every later `odds[j]` are already neighbours of `odds[k]`. |
| EulerRepair.MakeEulerian | Atividade01/main.cpp:207-249 | `makeEulerian` only adds edges, forming a matching: distinct, odd-degree, previously non-adjacent vertex pairs with no shared vertex. It returns true iff every odd vertex was paired, and then the graph is all even. An odd number of odd vertices returns false and changes nothing. An all-even graph returns true and changes nothing. A false answer with an even number of odd vertices means the loop gave up at position `2 * |added|` of the swapped list: that vertex's partner and every later odd vertex are already its neighbours. |
| CompleteEuler.CompleteGraph | Atividade01/main.cpp:253-260 | After the double loop, every `adj[x]` is the list of all other vertices in order. |
| CompleteEuler.FullFacts | Atividade01/main.cpp:254-260 | That list has no repeats, `V-1` entries, and holds exactly the other vertices. |
| CompleteEuler.RemoveMatching | Atividade01/main.cpp:261-267 | For even `V`, the loop removes each pair `{i, i+V/2}`. |
| CompleteEuler.MatchedOut | Atividade01/main.cpp:261-267 | After that loop, adjacency is "different and not matched", with `V-2` distinct entries per list. |
| CompleteEuler.CreateCompleteEulerianGraph | Atividade01/main.cpp:251-269 | For odd `V` the result is the complete graph; for even `V`, the complete graph minus `{i, i+V/2}`. Lists have no repeats, every degree is `V-1` or `V-2`, and all are even. `V = 2` gives no edges. |
| Trees.Postorder | Atividade02/tree_edit.cpp:57-64 | Children come left to right before their parent, and the root is last. |
| Trees.CountNodes | Atividade02/main.cpp:4-9 | A null tree counts 0, a leaf 1, and any tree at least 1. |
| Trees.MaxDegree | Atividade02/main.cpp:11-19 | A null tree has degree 0 and a leaf 0. Otherwise it is at least the root's child count. |
| Trees.SizeIsPostorderLength | Atividade02/main.cpp:4-9 | `countNodes` equals the length of the postorder: every node once. |
| Trees.DegreeBoundsEveryNode | Atividade02/main.cpp:11-19 | `maxDegree` is at least the child count of every node of the tree. |
| Trees.DegreeIsAttained | Atividade02/main.cpp:13-17 | Some node has exactly `maxDegree` children. |
| TreeEdit.Cost | Atividade02/tree_edit.cpp:20-25 | `cost(a, b)` is 0 iff `a == b`, and 1 otherwise. |
| TreeEdit.TreeInfo.ComputePostorder | Atividade02/tree_edit.cpp:57-64 | Appends exactly the postorder of the subtree to `TreeInfo.postorder`. |
| TreeEdit.ComputeLLD | Atividade02/tree_edit.cpp:66-76 | Writes, for every position of the subtree, its leftmost-leaf position, and keeps every other key. |
| TreeEdit.LldFacts | Atividade02/tree_edit.cpp:66-76 | Every `lld[k]` satisfies `lld[k] <= k`, with `lld[k] == k` for a leaf. An internal node shares the `lld` of its first child. |
| TreeEdit.BuildTreeInfo | Atividade02/tree_edit.cpp:78-87 | A null root gives empty vectors. Otherwise the result is the postorder and its `lld`. |
| TreeEdit.CopyLld | Atividade02/tree_edit.cpp:84-85 | The copy loop fills `lld[i]` from the map for every position. |
| TreeEdit.DeletionColumn | Atividade02/tree_edit.cpp:151-159 | `forestdist[di][j_lld] == di - i_lld`. |
| TreeEdit.InsertionRow | Atividade02/tree_edit.cpp:160-167 | `forestdist[i_lld][dj] == dj - j_lld`. |
| TreeEdit.MatchCell | Atividade02/tree_edit.cpp:171-177 | When both last nodes start at the forests' starts, the cell is `min(del, ins, sub)`, and it is the subtree distance `treedist[ci][cj]`. |
| TreeEdit.TreeCell | Atividade02/tree_edit.cpp:211-216 | Any other interior cell is `min(del, ins, forest + treedist)`. That `treedist` entry comes from an earlier pass. |
| TreeEdit.Neighbours | Atividade02/tree_edit.cpp:168-233 | Every interior cell is at most one more than its upper and its left neighbour. |
| TreeEdit.CellStep | Atividade02/tree_edit.cpp:168-233 | One interior cell gets its `FD` value, and no other `forestdist` cell changes. `treedist` changes only at cells of the pass whose two `lld`s are the pass's, and gets their `TD` value there. |
| TreeEdit.ForestPass | Atividade02/tree_edit.cpp:146-235 | A fresh `forestdist` holds `FD` on the pass's whole block. Every `treedist` cell up to `(i, j)` then holds `TD`. |
| TreeEdit.TreeEditDistance | Atividade02/tree_edit.cpp:102-260 | The result is `Distance(t1, t2)`: `treedist` at the two roots. |
| TreeEdit.UpperBound | Atividade02/tree_edit.cpp:151-233 | A forest distance is at most the deletions plus insertions. |
| TreeEdit.LowerBound | Atividade02/tree_edit.cpp:151-233 | A forest distance is at least the difference of the forest sizes. |
| TreeEdit.DistanceSelf | Atividade02/tree_edit.cpp:143-260 | A tree is at distance 0 from itself. |
| TreeEdit.DistanceSymmetric | Atividade02/tree_edit.cpp:143-260 | The distance is symmetric. |
| TreeEdit.DistanceBounds | Atividade02/tree_edit.cpp:143-260 | The distance is at least the difference of the two node counts and at most their sum. |
| TreeEdit.GetTreeMatrix | Atividade02/tree_edit.cpp:27-40 | A null root gives no lines. Otherwise there is one line per emitted edge, each `ids[parent] + " -> " + ids[child]`. The child ends of the edges are split exactly over the non-root positions. |
| TreeEdit.WalkDone | Atividade02/tree_edit.cpp:27-40 | There are node count minus 1 lines, each for a real parent–child edge, and every non-root node is the child end of exactly one. |
| UnionFind.GraphComponents.constructor | Atividade04/Artigo01/component.hpp:19-27 | Sets `parent[i] == i` and `rank[i] == 0`. Every vertex is its own root, and there are `numVertices` roots. |
| UnionFind.GraphComponents.Find | Atividade04/Artigo01/component.hpp:30-37 | Returns the root `r` of `vertex`, with `parent[r] == r` and `parent[vertex] == r` after compression. Every vertex keeps its root, and the root set is unchanged. |
| UnionFind.CompressKeepsRoot | Atividade04/Artigo01/component.hpp:34 | Pointing a vertex straight at its root keeps the forest ranked and every vertex's root. |
| UnionFind.GraphComponents.Unite | Atividade04/Artigo01/component.hpp:40-61 | Afterwards `find(a) == find(b)`. Vertices of the two sets move to one root and all others keep theirs. Shared roots change nothing. With distinct roots, the lower rank goes under the higher and rank rises by exactly 1 on a tie only. The root count drops by exactly 1. |
| UnionFind.GraphComponents.Link | Atividade04/Artigo01/component.hpp:47-59 | Linking two distinct roots: the loser's tree moves under the winner, and the winner's rank rises only on a tie. |
| UnionFind.LinkRoot | Atividade04/Artigo01/component.hpp:49-57 | After `parent[b] = a`, exactly the vertices rooted at `b` are rooted at `a`. |
| UnionFind.GraphComponents.GetNumberOfComponents | Atividade04/Artigo01/component.hpp:114-125 | The count is the number of vertices that are their own parent. |
| UnionFind.RootFacts | Atividade04/Artigo01/component.hpp:30-37 | A root is a vertex and is its own parent. A non-root has rank strictly below its root's. |
| GridGraph.Graph.constructor | Atividade04/Artigo01/graph.hpp:30-74 | `numVertices == width * height`, and the edges are `GridEdges`, in scan order. |
| GridGraph.Graph.AddPixelEdges | Atividade04/Artigo01/graph.hpp:42-71 | Appends a pixel's right, below, down-right and down-left edges, in that order, each only when the neighbour is inside the grid. |
| GridGraph.GridEdgesForwardAndDistinct | Atividade04/Artigo01/graph.hpp:35-73 | Every edge has `0 <= src < dest < width*height`. No unordered pair appears twice, so there are no self-loops or repeats. |
| GridGraph.PixelEdgesFacts | Atividade04/Artigo01/graph.hpp:42-71 | Every edge of the pixel `(y, x)` has `src == y*width + x`, and its ends are distinct. |
| GridGraph.EdgeCount | Atividade04/Artigo01/graph.hpp:35-73 | There are `(w-1)h + w(h-1) + 2(w-1)(h-1)` edges. |
| GridGraph.WeightsSymmetric | Atividade04/Artigo01/graph.hpp:90-96 | The per-channel weights are symmetric in the two pixels, and all zero iff the pixels are equal. |
| FileNames.FindLastOf | Atividade04/Artigo01/main.cpp:47-48 | `find_last_of` gives the last position holding one of the characters, or `npos` iff there is none. |
| FileNames.StartPosition | Atividade04/Artigo01/main.cpp:50-52 | `lastSlash + 1` in `size_t` is the start of the stem; `npos + 1` wraps to 0. |
| FileNames.StemWithExtension | Atividade04/Artigo01/main.cpp:49-52 | When a dot follows the last separator, the result is the text strictly between the separator and the last dot. |
| FileNames.StemWithoutExtension | Atividade04/Artigo01/main.cpp:49-50 | With no dot after the last separator, the result is everything after the separator. |
| FileNames.DotBeforeSlash | Atividade04/Artigo01/main.cpp:49 | That case is exactly the guard "no dot, or the last dot precedes the last separator". |
| FileNames.StemHasNoSeparator | Atividade04/Artigo02/main.cpp:23-28 | The result never contains `/` or `\`. |
| FileNames.PlainNameUnchanged | Atividade04/Artigo01/main.cpp:47-50 | A name with no separator and no dot is returned whole. |
| FileNames.OutputPath | Atividade04/Artigo01/main.cpp:79-81 | The output path is `"images/saida/" + stem + "_out.ppm"`. |
| FileNames.ExampleWithDirectory | Atividade04/Artigo01/main.cpp:144 | `images/teste.ppm` gives `teste` and `images/saida/teste_out.ppm`. |
| FileNames.ExampleWithoutDirectory | Atividade04/Artigo02/main.cpp:21-47 | Through the `npos` wrap-around, `teste.ppm` gives `teste` and the same output path. |
| SegmentColors.ColorizeSegmentation | Atividade04/Artigo02/color_segments.hpp:17-40 | The result has `height` rows of `width` pixels. Pixel `(y, x)` is `(0,0,255)` when `segmentation[y*width+x]` holds and `(255,0,0)` otherwise. |
| SegmentColors.ColoringIsUnique | Atividade04/Artigo02/color_segments.hpp:22-38 | The result is determined by `segmentation`, `width` and `height` alone. |
| SegmentColors.ColoringIgnoresTail | Atividade04/Artigo02/color_segments.hpp:28-29 | Only the first `width*height` mask entries matter. |
| SegmentColors.TwoColors | Atividade04/Artigo02/color_segments.hpp:19-36 | Every pixel is one of the two colours. |
| DfsClassify.Graph.constructor | Old/Atividade01/Questao01.cpp:54-61 | The graph has no arcs, `edges == 0`, no stamps and no labels. |
| DfsClassify.Graph.AddEdge | Old/Atividade01/Questao01.cpp:63-70 | Appends `origin → destination` and increments `edges` exactly when the two differ and the arc is absent. Otherwise nothing changes. |
| DfsClassify.Graph.DfsVisit | Old/Atividade01/Questao01.cpp:21-51 | The visit ends with `vertex` visited and finished. Stamps and labels set before are kept; every vertex discovered during it is finished, with later stamps. Every label set has its tail discovered during it. |
| DfsClassify.Graph.PerformDfs | Old/Atividade01/Questao01.cpp:105-113 | Every vertex is visited, with `1 <= disc < fin <= 2V`. All `2V` stamps are distinct. Every arc is labelled and only arcs are. Each label agrees with the stamps: tree/forward reach a vertex inside `u`'s interval, back one enclosing it, cross one finished earlier. |
| DfsClassify.StampsDistinct | Old/Atividade01/Questao01.cpp:24-50 | The counter gives no two stamps the same value. |
| DfsClassify.VisitedLabelFacts | Old/Atividade01/Questao01.cpp:35-46 | A visited head is labelled back, forward or cross by the tests, and that label agrees with the stamps. The third `else if` is the only remaining case. |
| DfsClassify.ClassifiedExclusive | Old/Atividade01/Questao01.cpp:35-46 | The stamps determine the label up to the tree/forward distinction. |
| DfsClassify.SearchComplete | Old/Atividade01/Questao01.cpp:105-113 | Once every vertex is finished, the invariant gives the outcome of `performDFS`. |
| Eccentricity.Graph.constructor | Old/Atividade01/Questao02.cpp:16-18 | A zero matrix of `vertices` by `vertices`, which is symmetric. |
| Eccentricity.Graph.AddEdge | Old/Atividade01/Questao02.cpp:20-23 | Sets both `[u][v]` and `[v][u]` to 1 and nothing else, keeping symmetry. |
| Eccentricity.Graph.GenerateEdges | Old/Atividade01/Questao02.cpp:25-36 | Given the drawn pairs, the matrix becomes `Generated`. Entries of no drawn non-loop pair keep their value, so no self-loop is added. Every drawn non-loop pair ends up non-zero, and symmetry is kept. On a symmetric 0/1 matrix, an entry is 1 if a drawn non-loop pair joins its two vertices, in either orientation, and keeps its old value otherwise. |
| Eccentricity.GeneratedExact | Old/Atividade01/Questao02.cpp:20-36 | On a symmetric 0/1 matrix, drawing sets exactly the entries of drawn non-loop pairs, both orientations, to 1, keeps the rest, and stays symmetric and 0/1. |
| Eccentricity.GeneratedFrame | Old/Atividade01/Questao02.cpp:32-34 | An entry of no drawn non-loop pair keeps its value, whatever the matrix. |
| Eccentricity.GeneratedSymmetric | Old/Atividade01/Questao02.cpp:20-23 | Drawing keeps a symmetric matrix symmetric. |
| Eccentricity.GeneratedJoins | Old/Atividade01/Questao02.cpp:32-34 | Every drawn non-loop pair ends with a non-zero entry. |
| Eccentricity.Graph.Bfs | Old/Atividade01/Questao02.cpp:38-58 | Every `distances[v]` is the length of a shortest path from the start, or `INT_MAX` when `v` is unreachable. |
| Eccentricity.DistIsLeast | Old/Atividade01/Questao02.cpp:49-53 | A finite `Dist` is the least `k` whose `k`-step ball holds the vertex. |
| Eccentricity.BfsDone | Old/Atividade01/Questao02.cpp:45-55 | With an empty queue, the BFS invariant gives the shortest distances. |
| Eccentricity.Graph.FindExcentricity | Old/Atividade01/Questao02.cpp:60-71 | The result is `Ecc`: the largest finite distance from `vertex`. |
| Eccentricity.EccIsLargestDistance | Old/Atividade01/Questao02.cpp:62-68 | `Ecc` bounds every finite distance and is 0 or attained. |
| Eccentricity.IsolatedVertex | Old/Atividade01/Questao02.cpp:60-71 | An isolated vertex reaches nothing else and has eccentricity 0. |
| Eccentricity.Graph.FindAllExcentricities | Old/Atividade01/Questao02.cpp:82-98 | Entry `v` is `findExcentricity(v)`. |
| CoinChange.GreedyChange | Old/Atividade03/moedas.cpp:8-21 | The result is the picks of scanning coins from the last down while each fits. `coinCount` is their number, and the map counts exactly them. |
| CoinChange.TakeCoins | Old/Atividade03/moedas.cpp:13-17 | The `while` loop takes the coin as many times as it fits, and keeps the count and map in step. |
| CoinChange.GreedyRemainder | Old/Atividade03/moedas.cpp:12-18 | The greedy remainder lies in `0 .. smallest coin - 1`. With coin 1 present, greedy pays exactly. |
| CoinChange.FindMinCoins | Old/Atividade03/moedas.cpp:24-44 | `minCoins` becomes `current + MinCount` when that is strictly smaller, and the best map then holds the map plus the coins of an optimal change. Otherwise the best map is untouched. `coinCountMap` is restored, up to zero-count keys. |
| CoinChange.MinCountIsMinimal | Old/Atividade03/moedas.cpp:24-44 | No change of `value` from `coins[index..]` uses fewer coins than `MinCount`. |
| CoinChange.MinCountIsAttained | Old/Atividade03/moedas.cpp:24-44 | Some change uses exactly `MinCount` coins. |
| CoinChange.ExhaustiveChange | Old/Atividade03/moedas.cpp:47-55 | The result is the least number of coins of any change for `value`, or `INT_MAX` if there is none. The map tallies one such change, or is empty. |
| CoinChange.GreedyNeverBeatsExhaustive | Old/Atividade03/moedas.cpp:88-92 | When greedy pays exactly, the exhaustive count is at most the greedy count. |
| CoinChange.GreedyPaysExactlyWithUnitCoin | Old/Atividade03/moedas.cpp:98-103 | With coin 1, as in every set of `main`, greedy pays exactly and exhaustive never uses more coins. |
| LinearSearch.FirstIndex | Old/Atividade02/Metodo02.cpp:13-20 | The index of the first occurrence of `X`. |
| LinearSearch.Find | Old/Atividade02/Metodo02.cpp:9-23 | For `X` in the array, the result is `ops + 4*(k+1)`, where `k` is the first index of `X`. |
| LinearSearch.ExampleRun | Old/Atividade02/Metodo02.cpp:26-30 | `{4,3,1,8,2,7,5}` with `x = 2` and `ops = 9` gives 29. |

## Left out

- Bridges.FindBridgesTarjan: the exact-bridges clause holds only on undirected graphs without parallel edges. With two copies of an edge, `v != parent[u]` skips both copies back to the parent, so Tarjan's test reports an edge that is no bridge.
- Bridges.BridgeSearch.BridgeUtil: its contract is the search invariant on the state after one visit. That the reports are bridges is stated only of the finished search (`Run`, `FindBridgesTarjan`).
- Fleury.FleuryNaive: it requires a symmetric graph, which is what every `Graph` built by `addEdge` is.
- Fleury.FleuryTarjan: it requires a symmetric graph, as `FleuryNaive` does.
- Fleury.FleuryNaive: that the trail uses every edge of a connected graph with zero or two odd vertices is not proved. That is Fleury's theorem, which is outside the model; the walk is proved to be a trail that cannot be extended.
- Fleury.FleuryTarjan: the same, for the Tarjan-driven walk.
- Fleury.NextNaive: the range-based loop over `g.adj[u]` while `isBridgeNaive` erases and re-appends is modelled by position over the list as it is at each step. The size is restored each time, so the vector never reallocates. Each checked entry moves to the back, so the loop can check one neighbour twice and skip another (`NaiveSkips`). Its choice is therefore `NaiveChoice`, not Fleury's rule.
- Fleury.NextTarjan: Fleury's rule is stated only on undirected graphs without parallel edges, for the reason given for `FindBridgesTarjan`.
- The Fleury `show` printing and the `cout` of the path are output only. The walks return `path` instead.
- `main` of `Atividade01/main.cpp` is left out: `rand()` graph generation, `chrono` timing and reports.
- `Atividade02/tree_edit.cpp` side effects are left out:
  - the log files and `filesystem` calls;
  - the `op`/`forestop` tables, `opCount` and `last_forestdist` (bookkeeping for output only);
  - timing and printing, and `printSideBySide`.
- `generateRandomTree` and `makeSampleTree*` are left out. They are random or allocation-only.
- TreeEdit.TreeEditDistance: a null tree is not modelled, because `buildTreeInfo(nullptr)` gives `n == 0` and `treedist[n-1][m-1]` is then undefined. `BuildTreeInfo` does model the null root.
- TreeEdit: node identity (`Node*`) is modelled by postorder position. `idx2node` is the postorder itself and `node2idx` is the position. `ids` in `getTreeMatrix` is a sequence indexed by position, given for every node, since `ids.at` throws on a missing node.
- TreeEdit.GetTreeMatrix: the breadth-first order of the lines is not stated. The contract states the edge set, one line per edge, and the line texts.
- `GraphComponents::segmentGraph`, `calculateInternalDifference` and `printComponents` are left out. They use floating-point thresholds and output.
- `color_components.hpp`, both `savePPM`s, `imageloader.hpp`, `fileExists`, `printImage`/`printPixels` and file I/O are left out.
- The floating-point segmentation code is left out: the `Artigo02` `graph.hpp`, `MaxFlowSolver.hpp`, and the t-links of `Artigo02/main.cpp`.
- `maxflow.hpp` from the old exercises is left out. It has undefined behaviour.
- GridGraph.CalculateWeights: pixel channels are integers and the weights are `nat`, since the `double` values they are stored in hold only integer absolute differences.
- `createSpecificGraph` (`cin`), `generateRandomGraph`, `printAdjMatrix`, and `srand`/`rand` are left out. Eccentricity.Graph.GenerateEdges takes the drawn pairs as a parameter instead of calling `rand()`.
- Eccentricity.Graph.constructor: it requires fewer than `INT_MAX` vertices, so that a distance `d + 1` never reaches the `INT_MAX` sentinel of a 32-bit `int`.
- DfsClassify: the edge-type strings are the datatype `EdgeType`. The edge listing that `performDFS` prints is left out.
- CoinChange.FindMinCoins: the contract is stated on counts per coin (`Get`). `std::map` keeps a key whose count fell back to 0, so the restored map equals the entry map only up to such keys.
- CoinChange.GreedyChange: it requires positive coins. With a coin `<= 0` and `value >= coin`, the `while` at `moedas.cpp:13` never ends.
- CoinChange.ExhaustiveChange: it requires positive coins. With a coin `<= 0`, the search that includes the coin (`moedas.cpp:38-39`) recurses without end.
- CoinChange.GreedyChange: `value < 0` is allowed and gives no coins, as the loop does. Integer overflow of `coinCount` is not modelled.
- LinearSearch.Find: it requires `X` to occur in the array, as the source does; otherwise the loop reads past the end. The result is unbounded `int`, so 32-bit overflow of `ops` is not modelled.
- FileNames: `size_t` is modelled as 64 bits, so `npos` is `2^64 - 1`, and file paths are assumed shorter than `npos`.
