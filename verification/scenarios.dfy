/** Small graphs built through `AddEdge`, and what the search and the traversal give on them,
    derived from the contracts alone. */
module Scenarios {
  import opened Seqs
  import opened Wrappers
  import opened Graphs
  import opened Paths
  import opened DirectedGraph
  import opened SearchStates
  import opened DepthFirstSearch
  import opened TraversalResults
  import opened Dijkstra

  /* ------------------------------------------------------------ 1 -> 2 */

  /** The graph holding the single edge 1 -> 2. */
  function Arrow(): (g: Graph<int>)
    ensures Valid(g)
    ensures forall x :: x in g.vertices <==> x == 1 || x == 2
    ensures OutEdges(g, 1) == [Edge(1, 2, DefaultWeight, 0)]
    ensures forall v :: v != 1 ==> OutEdges(g, v) == []
  {
    AddEdge(EmptyGraph<int>(), Edge(1, 2, DefaultWeight, 0))
  }

  /** Every walk in `Arrow()` is empty or the edge itself. */
  lemma ArrowWalks(s: int, t: int, es: seq<Edge<int>>)
    requires IsPath(Arrow(), s, t, es)
    ensures es == [] || (es == [Edge(1, 2, DefaultWeight, 0)] && s == 1 && t == 2)
  {
    var g := Arrow();
    if |es| > 0 {
      assert es[0] in OutEdges(g, es[0].from);
      assert es[0] == Edge(1, 2, DefaultWeight, 0);
      assert |es| > 1 ==> es[1] in OutEdges(g, 2);
      assert es == [es[0]];
    }
  }

  lemma ArrowAcyclic()
    ensures !HasCycle(Arrow())
  {
    var g := Arrow();
    forall v | OnCycle(g, v) ensures false {
      var es :| |es| > 0 && IsPath(g, v, v, es);
      ArrowWalks(v, v, es);
    }
  }

  /** A duplicate-free sequence drawn from two values has two elements. */
  lemma NoDupPair(s: seq<int>)
    requires NoDup(s) && (forall x :: x in s <==> x == 1 || x == 2)
    ensures |s| == 2
  {
    assert forall y :: y in [1, 2] <==> y == 1 || y == 2;
    SameElements(s, [1, 2]);
  }

  /** The only order of both vertices of `Arrow()` with the successor first. */
  lemma ArrowOrder(out: seq<int>)
    requires NoDup(out) && (forall x :: x in out <==> x == 1 || x == 2)
    requires SuccessorsFirst(Arrow(), out)
    ensures out == [2, 1]
  {
    NoDupPair(out);
    var i := IndexOf(out, 1);
    assert Edge(1, 2, DefaultWeight, 0) in OutEdges(Arrow(), out[i]);
    assert 2 in out[..i];
    assert out[0] in out && out[1] in out;
  }

  /** The search lists the deeper vertex first. */
  lemma ArrowSearch()
    ensures Execute(Arrow()) == Ok([2, 1])
  {
    var g := Arrow();
    ArrowAcyclic();
    var out := Execute(g).value;
    forall x ensures x in out <==> x == 1 || x == 2 {
      assert x in out <==> x in multiset(out);
      assert x in g.vertices <==> x in multiset(g.vertices);
    }
    ArrowOrder(out);
  }

  /** What is reachable from each vertex of `Arrow()`. */
  lemma ArrowReach(s: int, x: int)
    ensures Reachable(Arrow(), s, x) <==> x == s || (s == 1 && x == 2)
  {
    var g := Arrow();
    StayPut(g, s);
    if s == 1 {
      assert IsPath(g, 1, 2, [Edge(1, 2, DefaultWeight, 0)]);
    }
    if Reachable(g, s, x) {
      var es :| IsPath(g, s, x, es);
      ArrowWalks(s, x, es);
    }
  }

  /** Searching from the source of the edge lists both vertices, the start last. */
  lemma ArrowSearchFrom()
    ensures ExecuteFrom(Arrow(), 1) == Ok([2, 1])
  {
    ArrowAcyclic();
    var out := ExecuteFrom(Arrow(), 1).value;
    forall x ensures x in out <==> x == 1 || x == 2 {
      ArrowReach(1, x);
    }
    ArrowOrder(out);
  }

  /** Searching from the target of the edge lists it alone. */
  lemma ArrowSearchFromEnd()
    ensures ExecuteFrom(Arrow(), 2) == Ok([2])
  {
    ArrowAcyclic();
    var out := ExecuteFrom(Arrow(), 2).value;
    forall x ensures x in out <==> x == 2 {
      ArrowReach(2, x);
    }
    Single(out, 2);
  }

  /** A duplicate-free sequence holding only `x`, and holding it, is `[x]`. */
  lemma Single(s: seq<int>, x: int)
    requires NoDup(s) && forall y :: y in s <==> y == x
    ensures s == [x]
  {
    assert forall y :: y in [x] <==> y == x;
    SameElements(s, [x]);
    assert s[0] in s;
  }

  /** The traversal along the edge passes through both ends. */
  lemma ArrowTraverse()
    ensures Traverse(Arrow(), 1, 2) == Complete([1, 2])
  {
    ArrowReach(1, 2);
    ArrowRoute(Traverse(Arrow(), 1, 2).results);
  }

  lemma ArrowRoute(results: seq<int>)
    requires exists es :: ShortestPath(Arrow(), 1, 2, es) && results == PathVertices(1, es)
    ensures results == [1, 2]
  {
    var es :| ShortestPath(Arrow(), 1, 2, es) && results == PathVertices(1, es);
    ArrowWalks(1, 2, es);
    Visits(1, es);
  }

  /** The vertices a walk of at most three edges visits. */
  lemma Visits<V>(s: V, es: seq<Edge<V>>)
    requires |es| <= 3
    ensures |es| == 0 ==> PathVertices(s, es) == [s]
    ensures |es| == 1 ==> PathVertices(s, es) == [s, es[0].to]
    ensures |es| == 2 ==> PathVertices(s, es) == [s, es[0].to, es[1].to]
    ensures |es| == 3 ==> PathVertices(s, es) == [s, es[0].to, es[1].to, es[2].to]
  {
  }

  /** Against the edge there is no way through. */
  lemma ArrowTraverseBack()
    ensures !Traverse(Arrow(), 2, 1).success
  {
    ArrowReach(2, 1);
  }

  /** With 3 added as a vertex of its own, the traversal from 1 to 3 fails. */
  lemma IsolatedTraverse()
    ensures Traverse(AddVertex(Arrow(), 3).0, 1, 3) == Failure()
  {
    IsolatedUnreachable(AddVertex(Arrow(), 3).0);
  }

  /** A graph with the arrow's out-lists has no walk from 1 to 3. */
  lemma IsolatedUnreachable(g: Graph<int>)
    requires g.outEdges == Arrow().outEdges
    ensures !Reachable(g, 1, 3)
  {
    forall es | IsPath(g, 1, 3, es) ensures false {
      assert IsPath(Arrow(), 1, 3, es);
      ArrowWalks(1, 3, es);
    }
  }

  /* ------------------------------------------------------------ a -> b -> c -> a */

  /** The first two edges of the triangle. */
  function TwoSides<V(!new)>(a: V, b: V, c: V): (g: Graph<V>)
    ensures Valid(g)
    ensures Edge(a, b, DefaultWeight, 0) in OutEdges(g, a)
    ensures a != b ==> Edge(b, c, DefaultWeight, 1) in OutEdges(g, b)
  {
    AddEdge(AddEdge(EmptyGraph<V>(), Edge(a, b, DefaultWeight, 0)), Edge(b, c, DefaultWeight, 1))
  }

  /** The three-edge cycle a -> b -> c -> a. */
  function Triangle<V(!new)>(a: V, b: V, c: V): (g: Graph<V>)
    requires a != b && b != c && c != a
    ensures Valid(g)
    ensures Edge(a, b, DefaultWeight, 0) in OutEdges(g, a)
    ensures Edge(b, c, DefaultWeight, 1) in OutEdges(g, b)
    ensures Edge(c, a, DefaultWeight, 2) in OutEdges(g, c)
  {
    AddEdge(TwoSides(a, b, c), Edge(c, a, DefaultWeight, 2))
  }

  /** The search refuses a cyclic graph. */
  lemma TriangleSearch<V(!new)>(a: V, b: V, c: V)
    requires a != b && b != c && c != a
    ensures Execute(Triangle(a, b, c)) == Err(CyclicGraph)
  {
    var g := Triangle(a, b, c);
    ThreeCycle(g, Edge(a, b, DefaultWeight, 0), Edge(b, c, DefaultWeight, 1), Edge(c, a, DefaultWeight, 2));
  }

  /** Three stored edges that close up make a cycle. */
  lemma ThreeCycle<V(!new)>(g: Graph<V>, x: Edge<V>, y: Edge<V>, z: Edge<V>)
    requires x in OutEdges(g, x.from) && y in OutEdges(g, y.from) && z in OutEdges(g, z.from)
    requires x.to == y.from && y.to == z.from && z.to == x.from
    ensures HasCycle(g)
  {
    var es := [x, y, z];
    assert IsPath(g, x.from, x.from, es);
    assert OnCycle(g, x.from);
  }

  /* ------------------------------------------------------------ the diamond */

  /** The edges of the diamond in the order they are added: the route n -> n+1 -> n+2 -> n+3 of
      cost 2 + 3 + 1, then the route n -> n+4 -> n+5 -> n+3 of cost 1 + 2 + 1. */
  function DiamondEdges(n: int): (es: seq<Edge<int>>)
    ensures |es| == 6
    ensures forall i :: 0 <= i < 6 ==> es[i].id == i
  {
    [Edge(n, n + 1, 2, 0), Edge(n + 1, n + 2, 3, 1), Edge(n + 2, n + 3, 1, 2),
     Edge(n, n + 4, 1, 3), Edge(n + 4, n + 5, 2, 4), Edge(n + 5, n + 3, 1, 5)]
  }

  /** The out-list of `v` once the first `k` edges of the diamond are in. */
  function Planned(k: nat, n: int, v: int): seq<Edge<int>> {
    var es := DiamondEdges(n);
    if v == n then (if k == 0 then [] else if k < 4 then [es[0]] else [es[0], es[3]])
    else if v == n + 1 then (if k < 2 then [] else [es[1]])
    else if v == n + 2 then (if k < 3 then [] else [es[2]])
    else if v == n + 4 then (if k < 5 then [] else [es[4]])
    else if v == n + 5 then (if k < 6 then [] else [es[5]])
    else []
  }

  /** Adding the next edge of the diamond appends it to its source's planned out-list and leaves
      every other planned out-list alone. */
  lemma PlannedStep(k: nat, n: int, v: int)
    requires 0 < k <= 6
    ensures v == DiamondEdges(n)[k - 1].from ==> Planned(k, n, v) == Planned(k - 1, n, v) + [DiamondEdges(n)[k - 1]]
    ensures v != DiamondEdges(n)[k - 1].from ==> Planned(k, n, v) == Planned(k - 1, n, v)
  {
    var es := DiamondEdges(n);
    Appended([], es[k - 1]);
    Appended([es[0]], es[3]);
  }

  /** The first `k` edges of the diamond, added one after the other to an empty graph. */
  function Built(k: nat, n: int): (g: Graph<int>)
    requires k <= 6
    ensures Valid(g)
    ensures k > 0 ==> n in g.vertices
    ensures forall v :: OutEdges(g, v) == Planned(k, n, v)
  {
    if k == 0 then EmptyGraph<int>()
    else
      var h := Built(k - 1, n);
      BuiltStep(h, k, n);
      AddEdge(h, DiamondEdges(n)[k - 1])
  }

  lemma BuiltStep(h: Graph<int>, k: nat, n: int)
    requires 0 < k <= 6 && Valid(h)
    requires forall v :: OutEdges(h, v) == Planned(k - 1, n, v)
    ensures forall v :: OutEdges(AddEdge(h, DiamondEdges(n)[k - 1]), v) == Planned(k, n, v)
  {
    forall v ensures OutEdges(AddEdge(h, DiamondEdges(n)[k - 1]), v) == Planned(k, n, v) {
      OutAfterAdd(h, DiamondEdges(n)[k - 1], v);
      PlannedStep(k, n, v);
    }
  }

  /** The out-lists of the diamond around `n`, as far as walks from `n` see them. */
  ghost predicate DiamondShape(g: Graph<int>, n: int) {
    && OutEdges(g, n) == [Edge(n, n + 1, 2, 0), Edge(n, n + 4, 1, 3)]
    && OutEdges(g, n + 1) == [Edge(n + 1, n + 2, 3, 1)]
    && OutEdges(g, n + 2) == [Edge(n + 2, n + 3, 1, 2)]
    && OutEdges(g, n + 3) == []
    && OutEdges(g, n + 4) == [Edge(n + 4, n + 5, 2, 4)]
    && OutEdges(g, n + 5) == [Edge(n + 5, n + 3, 1, 5)]
  }

  /** Both routes from n to n+3. */
  function Diamond(n: int): (g: Graph<int>)
    ensures Valid(g) && n in g.vertices && DiamondShape(g, n)
  {
    var g := Built(6, n);
    assert OutEdges(g, n) == Planned(6, n, n);
    assert OutEdges(g, n + 1) == Planned(6, n, n + 1);
    assert OutEdges(g, n + 2) == Planned(6, n, n + 2);
    assert OutEdges(g, n + 3) == Planned(6, n, n + 3);
    assert OutEdges(g, n + 4) == Planned(6, n, n + 4);
    assert OutEdges(g, n + 5) == Planned(6, n, n + 5);
    g
  }

  /** Appending to a list of at most one element gives the list display. */
  lemma Appended<T>(xs: seq<T>, x: T)
    requires |xs| <= 1
    ensures |xs| == 0 ==> xs + [x] == [x]
    ensures |xs| == 1 ==> xs + [x] == [xs[0], x]
  {
  }

  /** A walk from a vertex without out-edges stays there. */
  lemma DeadEnd<V(!new)>(g: Graph<V>, s: V, t: V, es: seq<Edge<V>>)
    requires OutEdges(g, s) == [] && IsPath(g, s, t, es)
    ensures es == [] && s == t
  {
  }

  /** The only walks from n to n+3 are the two routes. */
  lemma DiamondWalks(g: Graph<int>, n: int, es: seq<Edge<int>>)
    requires DiamondShape(g, n) && IsPath(g, n, n + 3, es)
    ensures es == [Edge(n, n + 1, 2, 0), Edge(n + 1, n + 2, 3, 1), Edge(n + 2, n + 3, 1, 2)]
         || es == [Edge(n, n + 4, 1, 3), Edge(n + 4, n + 5, 2, 4), Edge(n + 5, n + 3, 1, 5)]
  {
    PathTail(g, n, n + 3, es);
    var r1 := es[1..];
    PathTail(g, es[0].to, n + 3, r1);
    var r2 := r1[1..];
    PathTail(g, r1[0].to, n + 3, r2);
    DeadEnd(g, n + 3, n + 3, r2[1..]);
    assert es == [es[0], r1[0], r2[0]];
  }

  /** The walk the traversal reports is the cheaper route. */
  lemma DiamondRoute(g: Graph<int>, n: int, results: seq<int>)
    requires DiamondShape(g, n)
    requires exists es :: ShortestPath(g, n, n + 3, es) && results == PathVertices(n, es)
    ensures results == [n, n + 4, n + 5, n + 3]
  {
    var short := [Edge(n, n + 4, 1, 3), Edge(n + 4, n + 5, 2, 4), Edge(n + 5, n + 3, 1, 5)];
    assert IsPath(g, n, n + 3, short);
    var es :| ShortestPath(g, n, n + 3, es) && results == PathVertices(n, es);
    DiamondWalks(g, n, es);
    CostOfThree(es);
    CostOfThree(short);
    Visits(n, es);
  }

  /** The cost of a walk of three edges. */
  lemma CostOfThree<V>(es: seq<Edge<V>>)
    requires |es| == 3
    ensures Cost(es) == es[0].weight + es[1].weight + es[2].weight
  {
    assert es[1..][1..] == [es[2]];
    assert Cost([es[2]]) == es[2].weight + Cost([es[2]][1..]);
  }

  /** The traversal takes the cheaper route. */
  lemma DiamondTraverse(n: int)
    ensures Traverse(Diamond(n), n, n + 3) == Complete([n, n + 4, n + 5, n + 3])
  {
    ShapeTraverse(Diamond(n), n);
  }

  lemma ShapeTraverse(g: Graph<int>, n: int)
    requires Valid(g) && n in g.vertices && DiamondShape(g, n)
    ensures Traverse(g, n, n + 3) == Complete([n, n + 4, n + 5, n + 3])
  {
    assert IsPath(g, n, n + 3, [Edge(n, n + 4, 1, 3), Edge(n + 4, n + 5, 2, 4), Edge(n + 5, n + 3, 1, 5)]);
    DiamondRoute(g, n, Traverse(g, n, n + 3).results);
  }

  /* ------------------------------------------------------------ source and target alike */

  /** From a vertex to itself the traversal lists that vertex alone, whatever cycles of weight
      zero pass through it. */
  lemma TraverseSameVertex<V(!new)>(g: Graph<V>, s: V)
    requires Valid(g) && s in g.vertices
    ensures Traverse(g, s, s) == Complete([s])
  {
    ValidClosed(g);
    var p := Progress(map[s := 0], [s], map[], set x | x in g.vertices);
    assert Dijkstra.Inv(g, s, s, p, []);
    assert s in p.remaining;
    var next := GetNextVertex(p.distance, p.known, p.remaining);
    assert next == Some((s, 0));
    assert BuildResultPath(s, s, p.previous, [s]) == [s];
  }

  /* ------------------------------------------------------------ no edges */

  /** A graph without edges has no cycle. */
  lemma EdgelessAcyclic<V(!new)>(g: Graph<V>)
    requires forall v :: OutEdges(g, v) == []
    ensures !HasCycle(g)
  {
  }

  /** The search of an empty graph lists nothing. */
  lemma EmptySearch<V(!new)>()
    ensures Execute(EmptyGraph<V>()) == Ok([])
  {
    var g := EmptyGraph<V>();
    EdgelessAcyclic(g);
    assert multiset(Execute(g).value) == multiset{};
  }

  /** The search of a graph holding one vertex lists that vertex. */
  lemma SingleSearch(x: int)
    ensures Execute(AddVertex(EmptyGraph<int>(), x).0) == Ok([x])
  {
    var g := AddVertex(EmptyGraph<int>(), x).0;
    EdgelessAcyclic(g);
    var out := Execute(g).value;
    forall y ensures y in out <==> y == x {
      assert y in out <==> y in multiset(out);
      assert y in g.vertices <==> y in multiset(g.vertices);
    }
    Single(out, x);
  }

  /** A vertex without out-edges, neither finished nor on the stack, is listed right away. */
  lemma LeafVisit<V(!new)>(g: Graph<V>, v: V, s: SearchState<V>, out: seq<V>)
    requires Closed(g) && DepthFirstSearch.Inv(g, s, out) && StackLeadsTo(g, s, v)
    requires OutEdges(g, v) == [] && v !in s.permanent && v !in s.temporary
    ensures Visit(g, v, s, out) == Ok((SetPermanentMark(s, v), out + [v]))
  {
    var s1 := SetTemporaryMark(s, v);
    assert VisitEach(g, v, [], s1, out) == Ok((s1, out));
    assert RemoveTemporaryMark(s1, v) == Ok(s);
  }

  /** With `v` first among the unmarked vertices and without out-edges, one round of the root
      loop lists it and marks it. */
  lemma LeafRoot<V(!new)>(g: Graph<V>, v: V, s: SearchState<V>, out: seq<V>)
    requires Closed(g) && DepthFirstSearch.Inv(g, s, out) && s.temporary == {}
    requires forall x :: x in s.permanent ==> x in g.vertices
    requires |s.unmarked| > 0 && s.unmarked[0] == v && OutEdges(g, v) == []
    ensures DepthFirstSearch.Inv(g, SetPermanentMark(s, v), out + [v])
    ensures forall x :: x in SetPermanentMark(s, v).permanent ==> x in g.vertices
    ensures VisitRoots(g, s, out) == VisitRoots(g, SetPermanentMark(s, v), out + [v])
  {
    NextUnmarked(g, s);
    LeafVisit(g, v, s, out);
  }

  /** Two vertices without edges are listed in the order they were added. */
  lemma PairSearch<V(!new)>(a: V, b: V)
    requires a != b
    ensures Execute(AddVertex(AddVertex(EmptyGraph<V>(), a).0, b).0) == Ok([a, b])
  {
    var g := AddVertex(AddVertex(EmptyGraph<V>(), a).0, b).0;
    assert g == Graph([a, b], map[], map[], 0);
    ValidClosed(g);
    var s0 := Create(g);
    assert s0 == SearchState([a, b], {}, {});
    LeafRoot(g, a, s0, []);
    var s1 := SetPermanentMark(s0, a);
    assert s1.unmarked == [b];
    LeafRoot(g, b, s1, [a]);
    var s2 := SetPermanentMark(s1, b);
    assert s2.unmarked == [];
  }

  /* ------------------------------------------------------------ a -> b, a -> c */

  /** The edges a -> b and a -> c, added in that order, and nothing else. */
  ghost predicate ForkShape<V(!new)>(g: Graph<V>, a: V, b: V, c: V) {
    && Valid(g)
    && OutEdges(g, a) == [Edge(a, b, DefaultWeight, 0), Edge(a, c, DefaultWeight, 1)]
    && (forall v :: v != a ==> OutEdges(g, v) == [])
  }

  function Fork<V(!new)>(a: V, b: V, c: V): (g: Graph<V>)
    requires a != b && a != c
    ensures ForkShape(g, a, b, c)
  {
    var g1 := AddEdge(EmptyGraph<V>(), Edge(a, b, DefaultWeight, 0));
    var g2 := AddEdge(g1, Edge(a, c, DefaultWeight, 1));
    ForkBuilt(g1, g2, a, b, c);
    g2
  }

  lemma ForkBuilt<V(!new)>(g1: Graph<V>, g2: Graph<V>, a: V, b: V, c: V)
    requires a != b && a != c
    requires g1 == AddEdge(EmptyGraph<V>(), Edge(a, b, DefaultWeight, 0))
    requires g2 == AddEdge(g1, Edge(a, c, DefaultWeight, 1))
    ensures ForkShape(g2, a, b, c)
  {
    ForkFirst(g1, a, b);
    ForkSecond(g1, g2, a, b, c);
  }

  lemma ForkFirst<V(!new)>(g1: Graph<V>, a: V, b: V)
    requires g1 == AddEdge(EmptyGraph<V>(), Edge(a, b, DefaultWeight, 0))
    ensures forall v :: OutEdges(g1, v) == if v == a then [Edge(a, b, DefaultWeight, 0)] else []
  {
    forall v ensures OutEdges(g1, v) == if v == a then [Edge(a, b, DefaultWeight, 0)] else [] {
      OutAfterAdd(EmptyGraph<V>(), Edge(a, b, DefaultWeight, 0), v);
    }
  }

  lemma ForkSecond<V(!new)>(g1: Graph<V>, g2: Graph<V>, a: V, b: V, c: V)
    requires Valid(g1) && forall v :: OutEdges(g1, v) == if v == a then [Edge(a, b, DefaultWeight, 0)] else []
    requires g2 == AddEdge(g1, Edge(a, c, DefaultWeight, 1))
    ensures ForkShape(g2, a, b, c)
  {
    forall v ensures OutEdges(g2, v) == if v == a then [Edge(a, b, DefaultWeight, 0), Edge(a, c, DefaultWeight, 1)] else [] {
      OutAfterAdd(g1, Edge(a, c, DefaultWeight, 1), v);
    }
  }

  /** Every walk in the fork is empty or one of its two edges. */
  lemma ForkWalks<V(!new)>(g: Graph<V>, a: V, b: V, c: V, s: V, t: V, es: seq<Edge<V>>)
    requires ForkShape(g, a, b, c) && a != b && a != c && IsPath(g, s, t, es)
    ensures es == [] || (|es| == 1 && s == a && (t == b || t == c))
  {
    if |es| > 0 {
      PathTail(g, s, t, es);
      assert es[0] in OutEdges(g, s);
      DeadEnd(g, es[0].to, t, es[1..]);
    }
  }

  /** What is reachable from each vertex of the fork. */
  lemma ForkReach<V(!new)>(g: Graph<V>, a: V, b: V, c: V, s: V, x: V)
    requires ForkShape(g, a, b, c) && a != b && a != c
    ensures Reachable(g, s, x) <==> x == s || (s == a && (x == b || x == c))
  {
    StayPut(g, s);
    if s == a {
      assert IsPath(g, a, b, [Edge(a, b, DefaultWeight, 0)]);
      assert IsPath(g, a, c, [Edge(a, c, DefaultWeight, 1)]);
    }
    if Reachable(g, s, x) {
      var es :| IsPath(g, s, x, es);
      ForkWalks(g, a, b, c, s, x, es);
    }
  }

  lemma ForkNoCycle<V(!new)>(g: Graph<V>, a: V, b: V, c: V)
    requires ForkShape(g, a, b, c) && a != b && a != c
    ensures !ReachesCycle(g, a)
  {
    forall v | OnCycle(g, v) ensures false {
      var es :| |es| > 0 && IsPath(g, v, v, es);
      ForkWalks(g, a, b, c, v, v, es);
    }
  }

  /** Searching from `a` lists its children in out-list order: `b`, then `c`, then `a` itself. */
  lemma ForkSearchFrom<V(!new)>(a: V, b: V, c: V)
    requires a != b && a != c && b != c
    ensures ExecuteFrom(Fork(a, b, c), a) == Ok([b, c, a])
  {
    ForkOrder(Fork(a, b, c), a, b, c);
  }

  lemma ForkOrder<V(!new)>(g: Graph<V>, a: V, b: V, c: V)
    requires ForkShape(g, a, b, c) && a != b && a != c && b != c
    ensures ExecuteFrom(g, a) == Ok([b, c, a])
  {
    ForkNoCycle(g, a, b, c);
    var out := ExecuteFrom(g, a).value;
    forall x ensures x in out <==> x == a || x == b || x == c {
      ForkReach(g, a, b, c, a, x);
    }
    ForkReach(g, a, b, c, b, c);
    ForkSiblings(g, a, b, c, out);
    ThreeInOrder(out, a, b, c);
  }

  /** Since `b` does not lead to `c`, the search from `a` lists `b` before `c`. */
  lemma ForkSiblings<V(!new)>(g: Graph<V>, a: V, b: V, c: V, out: seq<V>)
    requires ForkShape(g, a, b, c) && ChildrenInOrder(g, OutEdges(g, a), {}, out)
    requires !Reachable(g, b, c)
    ensures b in out && c in out && IndexOf(out, b) < IndexOf(out, c)
  {
    var es := OutEdges(g, a);
    assert es[..1] == [es[0]];
    assert Unreached(g, es[..1], es[1].to);
  }

  /** The only duplicate-free listing of `a`, `b` and `c` that ends with `a` and has `b` before `c`. */
  lemma ThreeInOrder<V>(out: seq<V>, a: V, b: V, c: V)
    requires a != b && a != c && b != c
    requires NoDup(out) && forall x :: x in out <==> x == a || x == b || x == c
    requires |out| > 0 && out[|out| - 1] == a
    requires b in out && c in out && IndexOf(out, b) < IndexOf(out, c)
    ensures out == [b, c, a]
  {
    assert forall x :: x in [a, b, c] <==> x == a || x == b || x == c;
    SameElements(out, [a, b, c]);
    assert out[0] in out && out[1] in out;
  }
}
