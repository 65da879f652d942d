/** The depth-first search: lists every vertex (or every vertex reachable from a start vertex)
    after all the vertices its out-edges lead to, and fails with `CyclicGraph` when it meets a
    vertex that is still on the search stack. */
module DepthFirstSearch {
  import opened Seqs
  import opened Wrappers
  import opened Graphs
  import opened Paths
  import opened SearchStates

  /** Every listed vertex comes after the targets of all its out-edges: the output is a reverse
      topological order. */
  ghost predicate SuccessorsFirst<V(!new)>(g: Graph<V>, out: seq<V>) {
    forall i, e :: 0 <= i < |out| && e in OutEdges(g, out[i]) ==> e.to in out[..i]
  }

  /** Between steps, the output lists the permanently marked vertices once each, in reverse
      topological order, and no vertex is marked both ways. */
  ghost predicate Inv<V(!new)>(g: Graph<V>, s: SearchState<V>, out: seq<V>) {
    && NoDup(out)
    && (forall x :: x in out <==> x in s.permanent)
    && SuccessorsFirst(g, out)
    && s.temporary !! s.permanent
    && Consistent(g, s)
  }

  /** Every vertex on the search stack leads to `v` along at least one edge. */
  ghost predicate StackLeadsTo<V(!new)>(g: Graph<V>, s: SearchState<V>, v: V) {
    forall x :: x in s.temporary ==> ReachPlus(g, x, v)
  }

  /** The vertices the search has not entered yet; it shrinks with every new temporary mark. */
  ghost function Unvisited<V(!new)>(g: Graph<V>, s: SearchState<V>): set<V> {
    set x | x in g.vertices && x !in s.temporary && x !in s.permanent
  }

  /** What a completed visit from `from` leaves behind: the stack as it was, more permanent
      marks, the output extended at its end, and only vertices reachable from `from` added. */
  ghost predicate Grown<V(!new)>(g: Graph<V>, s: SearchState<V>, out: seq<V>, s2: SearchState<V>, out2: seq<V>, from: V) {
    && Inv(g, s2, out2)
    && s2.temporary == s.temporary
    && s.permanent <= s2.permanent
    && out <= out2
    && (forall x :: x in s2.permanent && x !in s.permanent ==> Reachable(g, from, x))
  }

  /** None of the targets of `es` leads to `x`. */
  ghost predicate Unreached<V(!new)>(g: Graph<V>, es: seq<Edge<V>>, x: V) {
    forall k :: 0 <= k < |es| ==> !Reachable(g, es[k].to, x)
  }

  /** The targets of `es` are listed in the order of `es`: a target not yet finished in `before`,
      which none of the targets up to an earlier edge leads to, is listed after that earlier
      target. */
  ghost predicate ChildrenInOrder<V(!new)>(g: Graph<V>, es: seq<Edge<V>>, before: set<V>, out: seq<V>) {
    forall i, j :: 0 <= i < j < |es| && es[j].to !in before && Unreached(g, es[..i + 1], es[j].to) ==>
      es[i].to in out && es[j].to in out && IndexOf(out, es[i].to) < IndexOf(out, es[j].to)
  }

  /* ------------------------------------------------------------ the visit */

  /** Visits `v`: nothing when it is already finished, a failure when it is on the stack, and
      otherwise its successors in out-list order followed by `v` itself. It fails exactly when a
      cycle can be reached from `v`. */
  function Visit<V(!new)>(g: Graph<V>, v: V, s: SearchState<V>, out: seq<V>): (r: Result<(SearchState<V>, seq<V>), SearchError>)
    requires Closed(g) && Inv(g, s, out) && StackLeadsTo(g, s, v)
    ensures r.Err? <==> ReachesCycle(g, v)
    ensures r.Err? ==> r.error == CyclicGraph
    ensures r.Ok? ==> Grown(g, s, out, r.value.0, r.value.1, v) && v in r.value.0.permanent
    ensures r.Ok? && v !in s.permanent ==> |r.value.1| > 0 && r.value.1[|r.value.1| - 1] == v
    ensures r.Ok? && v !in s.permanent ==> ChildrenInOrder(g, OutEdges(g, v), s.permanent, r.value.1)
    decreases Unvisited(g, s), if v in g.vertices then 0 else 1, 0
  {
    if HasPermanentMark(s, v) then
      FinishedNoCycle(g, out, v);
      Ok((s, out))
    else if HasTemporaryMark(s, v) then
      CycleHere(g, v);
      Err(CyclicGraph)
    else
      var s1 := SetTemporaryMark(s, v);
      assert Unvisited(g, s1) == Unvisited(g, s) - {v};
      var step :- VisitEach(g, v, OutEdges(g, v), s1, out);
      var (s2, out2) := step;
      match RemoveTemporaryMark(s2, v)
      case Err(e) => Err(e)
      case Ok(s3) =>
        FinishVisit(g, v, s, out, s2, out2);
        InOrderSnoc(g, OutEdges(g, v), s.permanent, out2, v);
        Ok((SetPermanentMark(s3, v), out2 + [v]))
  }

  /** Visits the targets of the edges `es` of the vertex `p` on top of the stack, in order. */
  function VisitEach<V(!new)>(g: Graph<V>, ghost p: V, es: seq<Edge<V>>, s: SearchState<V>, out: seq<V>): (r: Result<(SearchState<V>, seq<V>), SearchError>)
    requires Closed(g) && Inv(g, s, out)
    requires p in s.temporary && forall x :: x in s.temporary ==> x == p || ReachPlus(g, x, p)
    requires forall e :: e in es ==> e in OutEdges(g, p)
    ensures r.Err? ==> r.error == CyclicGraph && ReachesCycle(g, p)
    ensures r.Ok? ==> Grown(g, s, out, r.value.0, r.value.1, p)
    ensures r.Ok? ==> forall e :: e in es ==> e.to in r.value.0.permanent
    ensures r.Ok? ==> ChildrenInOrder(g, es, s.permanent, r.value.1)
    decreases Unvisited(g, s), 0, |es|
  {
    if |es| == 0 then
      Ok((s, out))
    else
      var e := es[0];
      StackToChild(g, s, p, e);
      ChildCycle(g, e);
      var step :- Visit(g, e.to, s, out);
      var (s1, out1) := step;
      UnvisitedNoMore(g, s, s1);
      var rest :- VisitEach(g, p, es[1..], s1, out1);
      GrownTrans(g, p, e, s, out, s1, out1, rest.0, rest.1);
      InOrderStep(g, es, s, out, s1, out1, rest.0, rest.1, p);
      Ok(rest)
  }

  /** Listing the first child, then the others in order, lists all of them in order. */
  lemma InOrderStep<V(!new)>(g: Graph<V>, es: seq<Edge<V>>, s: SearchState<V>, out: seq<V>,
                             s1: SearchState<V>, out1: seq<V>, s2: SearchState<V>, out2: seq<V>, p: V)
    requires |es| > 0
    requires Grown(g, s, out, s1, out1, es[0].to) && es[0].to in s1.permanent
    requires Grown(g, s1, out1, s2, out2, p)
    requires forall e :: e in es[1..] ==> e.to in s2.permanent
    requires ChildrenInOrder(g, es[1..], s1.permanent, out2)
    ensures ChildrenInOrder(g, es, s.permanent, out2)
  {
    forall i, j | 0 <= i < j < |es| && es[j].to !in s.permanent && Unreached(g, es[..i + 1], es[j].to)
      ensures es[i].to in out2 && es[j].to in out2 && IndexOf(out2, es[i].to) < IndexOf(out2, es[j].to)
    {
      var b := es[j].to;
      assert es[..i + 1][0] == es[0];
      assert b !in s1.permanent;
      assert es[1..][j - 1] == es[j];
      assert b in out2 && b !in out1;
      if i == 0 {
        IndexInPrefix(out1, out2[|out1|..], es[0].to);
        assert out1 + out2[|out1|..] == out2;
        IndexPastPrefix(out2, out1, b);
      } else {
        assert es[1..][i - 1] == es[i];
        forall k | 0 <= k < |es[1..][..i]| ensures !Reachable(g, es[1..][..i][k].to, b) {
          assert es[1..][..i][k] == es[..i + 1][k + 1];
        }
      }
    }
  }

  /** Listing one more vertex at the end keeps the children in order. */
  lemma InOrderSnoc<V(!new)>(g: Graph<V>, es: seq<Edge<V>>, before: set<V>, out: seq<V>, v: V)
    requires ChildrenInOrder(g, es, before, out)
    ensures ChildrenInOrder(g, es, before, out + [v])
  {
    forall x | x in out ensures IndexOf(out + [v], x) == IndexOf(out, x) {
      IndexInPrefix(out, [v], x);
    }
  }

  /** Finishing vertices never adds to what is left to visit. */
  lemma UnvisitedNoMore<V(!new)>(g: Graph<V>, s: SearchState<V>, s1: SearchState<V>)
    requires s1.temporary == s.temporary && s.permanent <= s1.permanent
    ensures Unvisited(g, s1) == Unvisited(g, s) || Unvisited(g, s1) < Unvisited(g, s)
  {
    assert Unvisited(g, s1) <= Unvisited(g, s);
  }

  /** Pushing `p`'s successor: the whole stack leads to it. */
  lemma StackToChild<V(!new)>(g: Graph<V>, s: SearchState<V>, p: V, e: Edge<V>)
    requires Closed(g) && e in OutEdges(g, p)
    requires forall x :: x in s.temporary ==> x == p || ReachPlus(g, x, p)
    ensures StackLeadsTo(g, s, e.to)
  {
    forall x | x in s.temporary ensures ReachPlus(g, x, e.to) {
      ReachPlusSnoc(g, x, e);
    }
  }

  lemma ChildCycle<V(!new)>(g: Graph<V>, e: Edge<V>)
    requires e in OutEdges(g, e.from)
    ensures ReachesCycle(g, e.to) ==> ReachesCycle(g, e.from)
  {
    if ReachesCycle(g, e.to) {
      CycleBack(g, e);
    }
  }

  /** A visit of `e.to` followed by the visits of the remaining successors of `p` is a
      completed visit from `p`. */
  lemma GrownTrans<V(!new)>(g: Graph<V>, p: V, e: Edge<V>, s: SearchState<V>, out: seq<V>,
                            s1: SearchState<V>, out1: seq<V>, s2: SearchState<V>, out2: seq<V>)
    requires Closed(g) && e in OutEdges(g, p)
    requires Grown(g, s, out, s1, out1, e.to) && Grown(g, s1, out1, s2, out2, p)
    ensures Grown(g, s, out, s2, out2, p)
  {
    forall x | x in s2.permanent && x !in s.permanent ensures Reachable(g, p, x) {
      if x in s1.permanent {
        ReachBack(g, e, x);
      }
    }
  }

  /** The bookkeeping after all successors of `v` are finished: `v` leaves the stack, is marked
      permanently and is listed last; and since everything `v` leads to is listed before it, no
      cycle is reachable from `v`. */
  lemma FinishVisit<V(!new)>(g: Graph<V>, v: V, s: SearchState<V>, out: seq<V>, s2: SearchState<V>, out2: seq<V>)
    requires Closed(g) && Inv(g, s, out) && v !in s.permanent && v !in s.temporary
    requires Grown(g, SetTemporaryMark(s, v), out, s2, out2, v)
    requires forall e :: e in OutEdges(g, v) ==> e.to in s2.permanent
    ensures RemoveTemporaryMark(s2, v).Ok?
    ensures Grown(g, s, out, SetPermanentMark(RemoveTemporaryMark(s2, v).value, v), out2 + [v], v)
    ensures !ReachesCycle(g, v)
  {
    var s3 := RemoveTemporaryMark(s2, v).value;
    var s4 := SetPermanentMark(s3, v);
    var out4 := out2 + [v];
    assert v !in out2;
    NoDupSnoc(out2, v);
    forall i, e | 0 <= i < |out4| && e in OutEdges(g, out4[i]) ensures e.to in out4[..i] {
      if i < |out2| {
        assert out4[i] == out2[i] && out4[..i] == out2[..i];
      } else {
        assert out4[..i] == out2;
      }
    }
    MarkKeepsConsistent(g, s3, v);
    assert Inv(g, s4, out4);
    StayPut(g, v);
    FinishedNoCycle(g, out4, v);
  }

  /* ------------------------------------------------------------ order and cycles */

  /** A walk from a listed vertex ends at a listed vertex, strictly earlier when the walk is not
      empty. */
  lemma {:induction false} PathDescends<V(!new)>(g: Graph<V>, out: seq<V>, a: V, b: V, es: seq<Edge<V>>)
    requires NoDup(out) && SuccessorsFirst(g, out) && a in out && IsPath(g, a, b, es)
    ensures b in out && (|es| > 0 ==> IndexOf(out, b) < IndexOf(out, a))
    decreases |es|
  {
    if |es| > 0 {
      PathTail(g, a, b, es);
      var i := IndexOf(out, a);
      var c := es[0].to;
      assert c in out[..i];
      IndexBefore(out, c, i);
      PathDescends(g, out, c, b, es[1..]);
    }
  }

  /** No cycle is reachable from a vertex listed in reverse topological order. */
  lemma FinishedNoCycle<V(!new)>(g: Graph<V>, out: seq<V>, v: V)
    requires NoDup(out) && SuccessorsFirst(g, out) && v in out
    ensures !ReachesCycle(g, v)
  {
    if ReachesCycle(g, v) {
      var w :| Reachable(g, v, w) && OnCycle(g, w);
      var es1 :| IsPath(g, v, w, es1);
      PathDescends(g, out, v, w, es1);
      var es2 :| |es2| > 0 && IsPath(g, w, w, es2);
      PathDescends(g, out, w, w, es2);
    }
  }

  /** A graph whose vertices are all listed in reverse topological order has no cycle. */
  lemma OrderedAcyclic<V(!new)>(g: Graph<V>, out: seq<V>)
    requires Closed(g) && NoDup(out) && SuccessorsFirst(g, out)
    requires forall x :: x in g.vertices ==> x in out
    ensures !HasCycle(g)
  {
    if HasCycle(g) {
      var w :| OnCycle(g, w);
      var es :| |es| > 0 && IsPath(g, w, w, es);
      WalkEnds(g, w, w, es);
      FinishedNoCycle(g, out, w);
      CycleHere(g, w);
    }
  }

  /* ------------------------------------------------------------ the two entry points */

  /** The loop of the whole-graph search: visits unmarked vertices until none is left. */
  function VisitRoots<V(!new)>(g: Graph<V>, s: SearchState<V>, out: seq<V>): (r: Result<seq<V>, SearchError>)
    requires Closed(g) && Inv(g, s, out) && s.temporary == {}
    requires forall x :: x in s.permanent ==> x in g.vertices
    ensures r.Err? ==> r.error == CyclicGraph && HasCycle(g)
    ensures r.Ok? ==> NoDup(r.value) && SuccessorsFirst(g, r.value)
    ensures r.Ok? ==> forall x :: x in r.value <==> x in g.vertices
    decreases |s.unmarked|
  {
    NextUnmarked(g, s);
    match TryGetVertexWithoutPermanentMark(s)
    case None => Ok(out)
    case Some(v) =>
      SomeCycle(g, v);
      var step :- Visit(g, v, s, out);
      var (s2, out2) := step;
      RootsStep(g, v, s2);
      UnmarkedShrinks(g.vertices, s.permanent, s2.permanent, v);
      VisitRoots(g, s2, out2)
  }

  lemma SomeCycle<V(!new)>(g: Graph<V>, v: V)
    ensures ReachesCycle(g, v) ==> HasCycle(g)
  {
  }

  /** Everything a root's visit marks is a vertex. */
  lemma RootsStep<V(!new)>(g: Graph<V>, v: V, s2: SearchState<V>)
    requires Closed(g) && v in g.vertices
    ensures forall x :: Reachable(g, v, x) ==> x in g.vertices
  {
    forall x | Reachable(g, v, x) ensures x in g.vertices {
      ReachedVertex(g, v, x);
    }
  }

  /** The search over the whole graph: a reverse topological order of all vertices, each once,
      or `CyclicGraph` exactly when the graph has a cycle. */
  function Execute<V(!new)>(g: Graph<V>): (r: Result<seq<V>, SearchError>)
    requires Valid(g)
    ensures r.Err? <==> HasCycle(g)
    ensures r.Err? ==> r.error == CyclicGraph
    ensures r.Ok? ==> NoDup(r.value) && multiset(r.value) == multiset(g.vertices)
    ensures r.Ok? ==> SuccessorsFirst(g, r.value)
  {
    ValidClosed(g);
    var r := VisitRoots(g, Create(g), []);
    if r.Ok? then
      OrderedAcyclic(g, r.value);
      SameElements(r.value, g.vertices);
      r
    else
      r
  }

  /** The search from one vertex: everything reachable from it, each once, in reverse
      topological order and ending with the start vertex, or `CyclicGraph` exactly when a cycle
      can be reached from it. A start vertex outside the graph is listed alone. */
  function ExecuteFrom<V(!new)>(g: Graph<V>, start: V): (r: Result<seq<V>, SearchError>)
    requires Valid(g)
    ensures r.Err? <==> ReachesCycle(g, start)
    ensures r.Err? ==> r.error == CyclicGraph
    ensures r.Ok? ==> NoDup(r.value) && SuccessorsFirst(g, r.value)
    ensures r.Ok? ==> forall x :: x in r.value <==> Reachable(g, start, x)
    ensures r.Ok? ==> |r.value| > 0 && r.value[|r.value| - 1] == start
    ensures r.Ok? ==> ChildrenInOrder(g, OutEdges(g, start), {}, r.value)
  {
    ValidClosed(g);
    match Visit(g, start, Create(g), [])
    case Err(e) => Err(e)
    case Ok(step) =>
      ReachedListed(g, start, step.1);
      Ok(step.1)
  }

  /** Everything reachable from a listed vertex is listed. */
  lemma ReachedListed<V(!new)>(g: Graph<V>, start: V, out: seq<V>)
    requires NoDup(out) && SuccessorsFirst(g, out) && start in out
    ensures forall x :: Reachable(g, start, x) ==> x in out
  {
    forall x | Reachable(g, start, x) ensures x in out {
      var es :| IsPath(g, start, x, es);
      PathDescends(g, out, start, x, es);
    }
  }
}
