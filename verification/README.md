# Graphalo in Dafny

A model of the core of Graphalo, a generic directed-graph library. The model has three parts:

- the `DirectedGraph` store, with its two mirrored adjacency indexes;
- the depth-first search, which lists vertices in reverse topological order and rejects cyclic graphs;
- Dijkstra's shortest-path-first traversal between two vertices, and the `TraversalResult` it returns.

Everything is modelled as pure functions over immutable values. A mutating method of the library
becomes a function from the old graph to the new one, paired with whatever the method returns.

| module | file | models |
|---|---|---|
| `Wrappers` | `wrappers.dfy` | `Option`, and `Result`, which stands for the exceptions the library throws |
| `Seqs` | `seqs.dfy` | sequence helpers: filters, removal of a first occurrence, duplicate-freedom, positions |
| `Graphs` | `graph.dfy` | `Edge`, `Graph`, the validity invariant (`Valid`) and the edge multiset it keeps |
| `DirectedGraph` | `directed_graph.dfy` | every mutation and query of `DirectedGraph` |
| `Paths` | `paths.dfy` | walks, reachability, cycles, walk cost, and shortest walks |
| `SearchStates` | `search_state.dfy` | the unmarked, temporary and permanent marks of a search |
| `DepthFirstSearch` | `depth_first_search.dfy` | `Visit` and both `Execute` overloads |
| `TraversalResults` | `traversal_result.dfy` | `Failure` and `Complete` |
| `Dijkstra` | `dijkstra.dfy` | `Traverse`, `GetNextVertex` and `BuildResultPath` |
| `Scenarios` | `scenarios.dfy` | the library's unit-test graphs, with the search and traversal results derived from the contracts |

Modelling choices:

- **Graph state.**
  - `vertices` is a duplicate-free sequence in insertion order. It stands for the hash set, whose enumeration order the tests rely on.
  - `outEdges` and `inEdges` map a vertex to its edge list.
  - `edgeCount` is the counter the class keeps beside the indexes.
- **`Valid`.** This is the invariant every mutation keeps:
  - every list is filed under the right endpoint;
  - both endpoints of a stored edge are vertices;
  - each edge occurs as often in its source's out-list as in its target's in-list;
  - `edgeCount` is the total length of the out-lists.
- **Mirror lemma.** `Graphs.IndexesAgree` derives from `Valid` that both indexes hold the same edge multiset.
- **Edge identity.** `Edge` is a class without an equality of its own, so `List.Remove` removes by reference. `Edge` here carries an `id` that stands for that identity.
- **Edge weights.** `Edge.cs` has no weight, yet the traversal reads `Weight` and the tests pass one. The model gives `Edge` a `nat` weight, and `DefaultWeight` (1) for unweighted edges.
- **Search order.** `SearchState` keeps the unmarked vertices in vertex insertion order, so the root chosen by `TryGetVertexWithoutPermanentMark` is the first unmarked vertex.
- **Dijkstra tie-break.** The traversal enumerates distances in insertion order: the `known` sequence of `Dijkstra.Progress`. This is the order in which a dictionary that never loses a key enumerates them. A tie goes to the first minimum in that order.

## Model

| member | source | states |
|---|---|---|
| Graphs.IndexesAgree | src/Graphalo/DirectedGraph.cs:122-125 | in a valid graph the in-lists hold exactly the multiset of edges the out-lists hold, and the edge counter equals the number of stored edges |
| Graphs.Endpoints | src/Graphalo/DirectedGraph.cs:117-123 | an edge in some vertex's out-list starts at that vertex, both its endpoints are vertices, and it is also in its target's in-list; and symmetrically for in-lists |
| Graphs.InAllEdges | src/Graphalo/DirectedGraph.cs:59 | an edge is among all edges exactly when it is in its own source's out-list |
| Graphs.StoredEndpoints | src/Graphalo/DirectedGraph.cs:117-123 | every stored edge has both endpoints among the vertices |
| DirectedGraph.AddVertex | src/Graphalo/DirectedGraph.cs:140-149 | returns true exactly when the vertex was absent; afterwards the vertex set is the old one plus that vertex, growing by one only when true; the indexes and counter are untouched |
| DirectedGraph.AppendEdge | src/Graphalo/DirectedGraph.cs:364-373 | the private index helper creates the list when the key is missing and appends the edge at its end, leaving every other key's list as it was |
| DirectedGraph.AddEdge | src/Graphalo/DirectedGraph.cs:117-128 | adds any missing endpoint, appends the edge at the end of its source's out-list and its target's in-list, leaves every other list alone, raises the counter by one (a duplicate edge included), keeps the graph valid, and adds exactly that edge to the edge multiset |
| DirectedGraph.Link | src/Graphalo/DirectedGraph.cs:122-125 | filing an edge between two existing vertices in both indexes keeps the graph valid and adds exactly that edge |
| DirectedGraph.AddEdges | src/Graphalo/DirectedGraph.cs:131-137 | adding a list of edges adds their endpoints, raises the counter by the list's length and adds exactly the listed edges, with duplicates |
| DirectedGraph.AddEdgesOut | src/Graphalo/DirectedGraph.cs:131-137 | after adding a list of edges, each out-list is the old one followed by the added edges leaving that vertex, in list order |
| DirectedGraph.OutAfterAdd | src/Graphalo/DirectedGraph.cs:117-128 | one added edge extends only its source's out-list, at the end |
| DirectedGraph.RemoveEdge | src/Graphalo/DirectedGraph.cs:297-317 | returns true exactly when the edge is stored; on false the graph is unchanged; on true one occurrence leaves the edge multiset and the counter drops by one; the vertex set and the index keys stay, and the graph stays valid |
| DirectedGraph.RemoveEdgeLists | src/Graphalo/DirectedGraph.cs:309 | removal takes one occurrence out of the source's out-list and the target's in-list and touches no other list |
| DirectedGraph.AddThenRemove | src/Graphalo/DirectedGraph.cs:297-317 | removing an edge just added succeeds and restores the edge multiset and the counter |
| DirectedGraph.AddThenRemoveLists | src/Graphalo/DirectedGraph.cs:309 | when the edge was not stored before, adding and then removing it restores every out-list and in-list |
| DirectedGraph.RemoveMirrors | src/Graphalo/DirectedGraph.cs:392-398 | the loop of the private removal helper takes each removed edge out of the list under its far endpoint in the other index, once per occurrence, keeping every key |
| DirectedGraph.RemoveEdgesForVertex | src/Graphalo/DirectedGraph.cs:382-402 | drops the vertex's key from the first index, leaves every other key's list there alone, removes its edges from the other index without reordering the edges that stay, and lowers the counter by the number of edges removed |
| DirectedGraph.MirrorsFiltered | src/Graphalo/DirectedGraph.cs:392-398 | removing, one occurrence at a time, edges a predicate rejects leaves the edges it keeps in every list, in their order |
| DirectedGraph.ClearOutEdges | src/Graphalo/DirectedGraph.cs:221-224 | removes every edge leaving the vertex from both indexes and nothing else, each in-list keeping the order of the edges that stay, lowers the counter by their number, keeps the vertex, and keeps the graph valid |
| DirectedGraph.ClearInEdges | src/Graphalo/DirectedGraph.cs:227-230 | removes every edge entering the vertex from both indexes and nothing else, each out-list keeping the order of the edges that stay, lowers the counter by their number, keeps the vertex, and keeps the graph valid |
| DirectedGraph.ClearEdges | src/Graphalo/DirectedGraph.cs:214-218 | removes exactly the edges touching the vertex (a self-loop once), leaves the vertex empty lists and every other vertex its lists minus those edges in their order, lowers the counter by their number and keeps the vertex set |
| DirectedGraph.RemoveVertex | src/Graphalo/DirectedGraph.cs:180-190 | returns true exactly when the vertex was present; on false nothing changes; on true the vertex and every edge touching it are gone, the rest stays in its order, and the counter drops by the number of those edges |
| DirectedGraph.RemoveVertexRange | src/Graphalo/DirectedGraph.cs:193-199 | removes exactly the listed vertices and every edge touching one of them |
| DirectedGraph.RemoveVertexWhere | src/Graphalo/DirectedGraph.cs:202-211 | returns each vertex matching the predicate once, removes exactly those and the edges touching them, and lowers the counter accordingly |
| DirectedGraph.RemoveEdgeRange | src/Graphalo/DirectedGraph.cs:348-354 | removes one occurrence per listed edge, ignoring edges not stored, and keeps the vertex set |
| DirectedGraph.RemoveEdgeWhere | src/Graphalo/DirectedGraph.cs:357-362 | returns every matching edge with its multiplicity, removes exactly those, keeps the vertex set, and lowers the counter by the number returned |
| DirectedGraph.Clear | src/Graphalo/DirectedGraph.cs:233-241 | leaves a valid graph with no vertices and no edges |
| DirectedGraph.VertexCount | src/Graphalo/DirectedGraph.cs:62 | is the size of the vertex set |
| DirectedGraph.EdgeCount | src/Graphalo/DirectedGraph.cs:65 | the counter equals the number of stored edges, counted from either index |
| DirectedGraph.HasVertices | src/Graphalo/DirectedGraph.cs:68 | is true exactly when some vertex exists |
| DirectedGraph.HasEdges | src/Graphalo/DirectedGraph.cs:71 | testing the counter is true exactly when some vertex has a non-empty out-list |
| DirectedGraph.ContainsVertex | src/Graphalo/DirectedGraph.cs:291-294 | is true exactly when the vertex is in the vertex set |
| DirectedGraph.OutDegree | src/Graphalo/DirectedGraph.cs:244-252 | is the number of stored edges leaving the vertex, and 0 when it has no list |
| DirectedGraph.InDegree | src/Graphalo/DirectedGraph.cs:255-263 | is the number of stored edges entering the vertex, and 0 when it has no list |
| DirectedGraph.Degree | src/Graphalo/DirectedGraph.cs:266-269 | is the number of edges leaving plus the number entering, so a self-loop counts twice |
| DirectedGraph.OutListIsFilter | src/Graphalo/DirectedGraph.cs:337-345 | a vertex's out-list holds exactly the stored edges leaving it |
| DirectedGraph.InListIsFilter | src/Graphalo/DirectedGraph.cs:326-334 | a vertex's in-list holds exactly the stored edges entering it |
| DirectedGraph.Edges | src/Graphalo/DirectedGraph.cs:320-323 | lists exactly the stored edges touching the vertex, as many as its degree |
| DirectedGraph.TryGetEdges | src/Graphalo/DirectedGraph.cs:152-177 | yields nothing exactly when the source has no out-list or the target no in-list; otherwise yields exactly the stored edges from source to target; returns true exactly when such an edge exists |
| DirectedGraph.JoinsFromEitherList | src/Graphalo/DirectedGraph.cs:167-174 | scanning the source's out-list or the target's in-list finds the same edges |
| DirectedGraph.FoundIffJoined | src/Graphalo/DirectedGraph.cs:176 | the found edges are non-empty exactly when an edge from source to target is stored |
| DirectedGraph.NoListNoJoin | src/Graphalo/DirectedGraph.cs:154-164 | when either list is missing no edge from source to target is stored |
| DirectedGraph.HasOutEdges | src/Graphalo/DirectedGraph.cs:285-288 | key test as written: true whenever the vertex has an out-edge, and only for vertices |
| DirectedGraph.HasInEdges | src/Graphalo/DirectedGraph.cs:279-282 | key test as written: true whenever the vertex has an in-edge, and only for vertices |
| DirectedGraph.ContainsEdge | src/Graphalo/DirectedGraph.cs:272-276 | key test as written: true whenever the edge is stored, and only when both endpoints are vertices |
| DirectedGraph.HasOutEdgesIntended | src/Graphalo/IEdgeSet.cs:98-105 | true exactly when some stored edge leaves the vertex, that is, when its out-degree is positive |
| DirectedGraph.HasInEdgesIntended | src/Graphalo/IEdgeSet.cs:89-96 | true exactly when some stored edge enters the vertex, that is, when its in-degree is positive |
| DirectedGraph.ContainsEdgeIntended | src/Graphalo/IEdgeSet.cs:73-80 | true exactly when the edge is stored |
| DirectedGraph.HasOutEdgesKeepsEmptyList | test/Graphalo.Test.Unit/DirectedGraphTests.cs:138-151 | after adding 1 -> 2 and removing vertex 2, the key test still reports out-edges for 1, which has none |
| DirectedGraph.HasInEdgesKeepsEmptyList | src/Graphalo/DirectedGraph.cs:279-282 | after adding 1 -> 2 and removing vertex 1, the key test still reports in-edges for 2, which has none |
| DirectedGraph.ContainsEdgeAcceptsAbsentEdge | src/Graphalo/DirectedGraph.cs:272-276 | with edges 1 -> 3 and 3 -> 2, the key test accepts an edge 1 -> 2 that is not stored |
| SearchStates.Create | src/Graphalo/Searching/SearchState.cs:24-29 | a fresh state has every vertex unmarked and no temporary or permanent mark |
| SearchStates.SetTemporaryMark | src/Graphalo/Searching/SearchState.cs:31-34 | adds the vertex to the temporary marks and changes nothing else |
| SearchStates.SetPermanentMark | src/Graphalo/Searching/SearchState.cs:36-40 | adds the vertex to the permanent marks, takes it out of the unmarked vertices, and leaves the temporary marks |
| SearchStates.MarkKeepsConsistent | src/Graphalo/Searching/SearchState.cs:36-40 | a permanent mark keeps the unmarked vertices exactly the graph's vertices without a permanent mark |
| SearchStates.UnmarkedMark | src/Graphalo/Searching/SearchState.cs:39 | dropping a vertex from the unmarked list is the same as marking it |
| SearchStates.TryGetVertexWithoutPermanentMark | src/Graphalo/Searching/SearchState.cs:42-52 | finds nothing exactly when no vertex is unmarked, and otherwise an unmarked vertex |
| SearchStates.NextUnmarked | src/Graphalo/Searching/SearchState.cs:42-52 | in a consistent state it finds nothing exactly when every vertex has a permanent mark, and otherwise a vertex without one |
| SearchStates.UnmarkedShrinks | src/Graphalo/Searching/SearchState.cs:39 | marking an unmarked vertex shrinks the unmarked list |
| SearchStates.RemoveTemporaryMark | src/Graphalo/Searching/SearchState.cs:54-60 | fails exactly when the vertex has no temporary mark; otherwise removes just that mark and nothing else |
| SearchStates.HasPermanentMark | src/Graphalo/Searching/SearchState.cs:62-65 | is true exactly for permanently marked vertices |
| SearchStates.HasTemporaryMark | src/Graphalo/Searching/SearchState.cs:67-70 | is true exactly for temporarily marked vertices |
| DepthFirstSearch.Visit | src/Graphalo/Searching/DepthFirstSearch.cs:36-62 | fails with the cyclic-graph error exactly when a cycle is reachable from the vertex; otherwise the vertex ends permanently marked and, if it was not before, listed last; the stack is as before, the output only grows at its end, stays duplicate-free and successor-first, and gains only vertices reachable from the vertex; its children are listed in out-list order, except where an earlier child leads to a later one |
| DepthFirstSearch.VisitEach | src/Graphalo/Searching/DepthFirstSearch.cs:54-57 | either fails because a cycle is reachable from the parent, or finishes every child; a child that is not yet finished and that no earlier child leads to is listed after every earlier child, so the children come out in out-list order |
| DepthFirstSearch.InOrderStep | src/Graphalo/Searching/DepthFirstSearch.cs:54-57 | visiting the first child and then the rest in order lists the whole out-list in order |
| DepthFirstSearch.FinishVisit | src/Graphalo/Searching/DepthFirstSearch.cs:59-61 | once the children are finished, the temporary mark is there to remove, listing the vertex keeps the output successor-first, and no cycle is reachable from it |
| DepthFirstSearch.PathDescends | src/Graphalo/Searching/DepthFirstSearch.cs:54-61 | in a successor-first listing every walk from a listed vertex ends at a listed vertex, strictly earlier when the walk is not empty |
| DepthFirstSearch.FinishedNoCycle | src/Graphalo/Searching/DepthFirstSearch.cs:42-45 | no cycle is reachable from a listed vertex, which is why a permanent mark can be skipped |
| DepthFirstSearch.OrderedAcyclic | src/Graphalo/Searching/DepthFirstSearch.cs:12-23 | a graph whose vertices all appear in a successor-first listing has no cycle |
| DepthFirstSearch.ChildCycle | src/Graphalo/Searching/DepthFirstSearch.cs:54-57 | a cycle reachable from a child is reachable from its parent |
| DepthFirstSearch.StackToChild | src/Graphalo/Searching/DepthFirstSearch.cs:47-57 | every vertex on the stack leads to each child of the vertex on top |
| DepthFirstSearch.VisitRoots | src/Graphalo/Searching/DepthFirstSearch.cs:17-20 | visiting from each first unmarked vertex in turn either fails on a cyclic graph or lists every vertex once, successor-first |
| DepthFirstSearch.Execute | src/Graphalo/Searching/DepthFirstSearch.cs:12-23 | fails with the cyclic-graph error exactly when the graph has a cycle, self-loops included; otherwise lists every vertex exactly once, each after all the targets of its out-edges |
| DepthFirstSearch.ExecuteFrom | src/Graphalo/Searching/DepthFirstSearch.cs:26-34 | fails exactly when a cycle is reachable from the start; otherwise lists exactly the vertices reachable from the start, once each, successor-first, with the start last and the start's children in out-list order, except where an earlier child leads to a later one |
| DepthFirstSearch.ReachedListed | src/Graphalo/Searching/DepthFirstSearch.cs:26-34 | a successor-first listing holding the start holds everything reachable from it |
| TraversalResults.Failure | src/Graphalo/Traversal/TraversalResult.cs:22 | the failure result is unsuccessful and lists no vertex |
| TraversalResults.Complete | src/Graphalo/Traversal/TraversalResult.cs:45-48 | a completed result is successful and lists exactly the given vertices |
| Dijkstra.ScanMin | src/Graphalo/Traversal/DijkstraShortestPathFirstAlgorithm.cs:79-85 | the scan finds nothing exactly when no scanned key remains; otherwise a remaining key no further than any other, and strictly nearer than every remaining key before it |
| Dijkstra.GetNextVertex | src/Graphalo/Traversal/DijkstraShortestPathFirstAlgorithm.cs:76-93 | yields nothing exactly when no vertex with a distance remains; otherwise a remaining vertex with its distance, no further than any remaining vertex, and the first such in key order |
| Dijkstra.Relax | src/Graphalo/Traversal/DijkstraShortestPathFirstAlgorithm.cs:46-54 | distances only fall; after relaxing, each edge's target is within the vertex's distance plus the edge weight; every changed distance came from one of these edges and names the vertex as previous hop |
| Dijkstra.RelaxStep | src/Graphalo/Traversal/DijkstraShortestPathFirstAlgorithm.cs:48-53 | one relaxation step followed by the rest keeps all of these properties |
| Dijkstra.BuildResultPath | src/Graphalo/Traversal/DijkstraShortestPathFirstAlgorithm.cs:61-74 | following previous hops back from a finished vertex ends at the source; the path starts at the source, ends at that vertex, and each step follows a recorded previous hop |
| Dijkstra.ChainPath | src/Graphalo/Traversal/DijkstraShortestPathFirstAlgorithm.cs:61-74 | the path read back is the vertex sequence of a walk along stored edges whose cost is the recorded distance |
| Dijkstra.ChainSnoc | src/Graphalo/Traversal/DijkstraShortestPathFirstAlgorithm.cs:41 | finishing a vertex whose previous hop is already finished keeps the previous hops leading back to the source |
| Dijkstra.ExitFrom | src/Graphalo/Traversal/DijkstraShortestPathFirstAlgorithm.cs:43-53 | any walk from a finished vertex to an unfinished one passes an unfinished vertex whose distance is at most the start's distance plus the walk's cost |
| Dijkstra.NothingLeft | src/Graphalo/Traversal/DijkstraShortestPathFirstAlgorithm.cs:28-32 | when no remaining vertex has a distance, the target cannot be reached |
| Dijkstra.Optimal | src/Graphalo/Traversal/DijkstraShortestPathFirstAlgorithm.cs:36-39 | when the target is the nearest remaining vertex, its distance is no more than the cost of any walk to it |
| Dijkstra.Arrived | src/Graphalo/Traversal/DijkstraShortestPathFirstAlgorithm.cs:36-39 | when the target is taken, it is reachable and the path read back is the vertex sequence of a shortest walk |
| Dijkstra.Settle | src/Graphalo/Traversal/DijkstraShortestPathFirstAlgorithm.cs:41-54 | taking the nearest remaining vertex and relaxing its edges towards remaining vertices keeps the loop invariant |
| Dijkstra.SettleMonotone | src/Graphalo/Traversal/DijkstraShortestPathFirstAlgorithm.cs:41-54 | after taking the nearest vertex, no finished vertex is further than a waiting one |
| Dijkstra.HopImproved | src/Graphalo/Traversal/DijkstraShortestPathFirstAlgorithm.cs:49-52 | a distance lowered by a relaxation equals the taken vertex's distance plus the edge's weight, and records that vertex as previous hop |
| Dijkstra.HopKept | src/Graphalo/Traversal/DijkstraShortestPathFirstAlgorithm.cs:49 | a distance not lowered keeps its previous hop, which is finished and accounts for it |
| Dijkstra.Advance | src/Graphalo/Traversal/DijkstraShortestPathFirstAlgorithm.cs:41-54 | one iteration removes exactly the taken vertex from the remaining set and keeps the invariant |
| Dijkstra.Continue | src/Graphalo/Traversal/DijkstraShortestPathFirstAlgorithm.cs:41-54 | continuing after a non-target vertex gives the result the whole traversal promises |
| Dijkstra.Run | src/Graphalo/Traversal/DijkstraShortestPathFirstAlgorithm.cs:26-58 | the loop, which runs at most once per vertex, succeeds exactly when the source is a vertex and reaches the target, and then lists the vertices of a minimum-weight walk; on failure it lists nothing |
| Dijkstra.Traverse | src/Graphalo/Traversal/DijkstraShortestPathFirstAlgorithm.cs:11-59 | succeeds exactly when the source is a vertex from which the target is reachable; then the result lists, source first and target last, the vertices of a walk along stored edges of minimum total weight; otherwise it is the failure result |
| Paths.CostSnoc | src/Graphalo/Traversal/DijkstraShortestPathFirstAlgorithm.cs:48 | extending a walk by an edge adds that edge's weight to its cost |
| Scenarios.EmptySearch | test/Graphalo.Test.Unit/Searching/DepthFirstSearchTests.cs:12-17 | the search of an empty graph lists nothing |
| Scenarios.SingleSearch | test/Graphalo.Test.Unit/Searching/DepthFirstSearchTests.cs:19-26 | the search of a one-vertex graph lists that vertex |
| Scenarios.PairSearch | test/Graphalo.Test.Unit/Searching/DepthFirstSearchTests.cs:28-36 | two vertices without edges, added as a then b, are listed as a, b |
| Scenarios.ForkSearchFrom | src/Graphalo/Searching/DepthFirstSearch.cs:54-57 | with the edges a -> b and a -> c added in that order, the search from a lists b, c, a and not c, b, a |
| Scenarios.ArrowSearch | test/Graphalo.Test.Unit/Searching/DepthFirstSearchTests.cs:38-45 | with the single edge 1 -> 2, the search lists 2 before 1 |
| Scenarios.ArrowReach | test/Graphalo.Test.Unit/Searching/DepthFirstSearchTests.cs:38-45 | in this test's graph, the single edge A -> B written 1 -> 2, each vertex reaches itself and 1 also reaches 2 |
| Scenarios.ArrowSearchFrom | src/Graphalo/Searching/DepthFirstSearch.cs:26-34 | on the one-edge graph 1 -> 2 (standing in for the seven-vertex graph of the start-vertex test), the search from 1 lists 2 then 1 |
| Scenarios.ArrowSearchFromEnd | src/Graphalo/Searching/DepthFirstSearch.cs:26-34 | on the one-edge graph 1 -> 2, the search from 2 lists only 2, since 1 is not reachable from it |
| Scenarios.TriangleSearch | test/Graphalo.Test.Unit/Searching/DepthFirstSearchTests.cs:92-101 | the search of a three-vertex cycle fails with the cyclic-graph error |
| Scenarios.TraverseSameVertex | test/Graphalo.Test.Unit/Traversal/DijkstraShortestPathFirstAlgorithmTests.cs:9-16 | traversing from a vertex to itself completes with that vertex alone |
| Scenarios.ArrowTraverse | test/Graphalo.Test.Unit/Traversal/DijkstraShortestPathFirstAlgorithmTests.cs:18-25 | traversing along the single edge completes with both its ends |
| Scenarios.ArrowTraverseBack | src/Graphalo/Traversal/DijkstraShortestPathFirstAlgorithm.cs:26-32 | traversing from 2 to 1 against the single edge 1 -> 2 fails: once 2 is done, no remaining vertex has a distance |
| Scenarios.IsolatedTraverse | test/Graphalo.Test.Unit/Traversal/DijkstraShortestPathFirstAlgorithmTests.cs:68-76 | with the edge 1 -> 2 and 3 added as a vertex of its own (A, B and C in the test), the traversal from 1 to 3 fails |
| Scenarios.DiamondTraverse | test/Graphalo.Test.Unit/Traversal/DijkstraShortestPathFirstAlgorithmTests.cs:27-42 | in the diamond graph the traversal takes the route of weight 4, not the route of weight 6 |
| Scenarios.DiamondWalks | test/Graphalo.Test.Unit/Traversal/DijkstraShortestPathFirstAlgorithmTests.cs:27-42 | the diamond has exactly two walks from its start to its end |
| Scenarios.Diamond | test/Graphalo.Test.Unit/Traversal/DijkstraShortestPathFirstAlgorithmTests.cs:30-36 | adding the six diamond edges in order gives the expected out-lists |

## Left out

- Events (`VertexAdded`, `EdgeAdded`, `EdgeRemoved`, `VertexRemoved`, `Cleared`) and their argument classes are observer plumbing with no effect on the graph.
- Exceptions become `Result` values. `CyclicGraphsNotSupportedException` is `CyclicGraph`, and the exception `RemoveTemporaryMark` throws is `MarkMissing`. Resource strings are not modelled.
- The `Search` dispatch on `SearchKind` (src/Graphalo/DirectedGraph.cs:92-114) only picks an algorithm. It builds the search around the graph and calls `Execute` without arguments, while `DepthFirstSearch.cs` takes the graph as a parameter. The model follows `DepthFirstSearch.cs`, and models the traversal likewise as a function of the graph.
- Weights and distances are `double` in the library. Here they are `nat`, so fractions, NaN, infinities and rounding are not modelled.
- The pluggable `IEqualityComparer` is replaced by Dafny equality. This includes the comparer-less `ToHashSet()` of the traversal's pending set.
- Deferred `IEnumerable` evaluation is modelled by materialised sequences.
- The interfaces, `VertexInfo`, `AllVertices` and the `Instance` singletons are delegation or declarations only.
- The call-stack depth of the recursive `Visit` is not modelled.
- Hash-set and dictionary enumeration order is assumed to be insertion order.
  - Vertices, keys and the pending set enumerate in insertion order.
  - All edges enumerate out-list by out-list, in vertex order rather than dictionary key order. This affects only the order of the edges `RemoveEdgeWhere` returns.
- The 32-bit overflow of the edge counter is not modelled; the counter is an unbounded integer.
- DirectedGraph.HasOutEdges: states only the two implications the key test satisfies in every valid graph, because whether an emptied out-list keeps its key depends on the history; the findings below pin the difference down.
- DirectedGraph.HasInEdges: states only the two implications the key test satisfies in every valid graph, for the same reason.
- DirectedGraph.ContainsEdge: states only the two implications the key test satisfies in every valid graph, for the same reason.
- DirectedGraph.RemoveEdge: the library branch where the in-list removal succeeds but the out-list removal fails is kept in the model; the ensures `!r.1 ==> r.0 == g` shows that it cannot be reached from a valid graph.
- DirectedGraph.RemoveEdgesForVertex: the indexer on the other index would throw when the far endpoint has no list. The model requires that list to exist, which a valid graph guarantees.
- Three search tests are not reproduced as scenarios: the seven-vertex search (test/Graphalo.Test.Unit/Searching/DepthFirstSearchTests.cs:47-53), the search from C in the same graph expecting E, D, C (lines 81-90), and the vertex-chain order test. The order among siblings that they check is what `DepthFirstSearch.VisitEach` states (`Scenarios.ForkSearchFrom` applies it). The order among roots is not stated by any contract; see the next line.
- DepthFirstSearch.Execute: the contract does not fix the order in which roots are taken. The function takes the first unmarked vertex in vertex order, but `TryGetVertexWithoutPermanentMark` promises only some unmarked vertex. That is the every-choice reading of `HashSet.First()`, whose order .NET does not document. `Scenarios.PairSearch` shows the root order on one graph by unfolding the definitions.
- The scenario graphs use `int` vertices in place of the tests' strings.

## Findings

| source | as written | input that shows it | evidently intended | confidence | as-written member | corrected member |
|---|---|---|---|---|---|---|
| src/Graphalo/DirectedGraph.cs:285-288 | `HasOutEdges` tests whether the vertex has an out-list key, and a key survives with an empty list once its last edge is removed from the other side | add edge 1 -> 2, remove vertex 2, ask `HasOutEdges(1)`: true, though 1 has no out-edge (the test at test/Graphalo.Test.Unit/DirectedGraphTests.cs:138-151 expects false) | true exactly when some edge leaves the vertex | not executed | DirectedGraph.HasOutEdgesKeepsEmptyList | DirectedGraph.HasOutEdgesIntended |
| src/Graphalo/DirectedGraph.cs:279-282 | `HasInEdges` tests whether the vertex has an in-list key, which survives with an empty list in the same way | add edge 1 -> 2, remove vertex 1, ask `HasInEdges(2)`: true, though 2 has no in-edge | true exactly when some edge enters the vertex | not executed | DirectedGraph.HasInEdgesKeepsEmptyList | DirectedGraph.HasInEdgesIntended |
| src/Graphalo/DirectedGraph.cs:272-276 | `ContainsEdge` tests only that the source has an out-list and the target an in-list | edges 1 -> 3 and 3 -> 2, ask `ContainsEdge(1 -> 2)`: true, though no such edge is stored | true exactly when the edge is stored | not executed | DirectedGraph.ContainsEdgeAcceptsAbsentEdge | DirectedGraph.ContainsEdgeIntended |
