/** Walks along stored edges, reachability and cycles: the vocabulary in which the depth-first
    search and the shortest-path traversal are specified. */
module Paths {
  import opened Seqs
  import opened Graphs

  /** What the algorithms rely on: only a vertex has an out-list, and the list holds edges
      leaving that vertex towards vertices. `Valid` implies it. */
  ghost predicate Closed<V(!new)>(g: Graph<V>) {
    forall v, e :: e in OutEdges(g, v) ==> e.from == v && v in g.vertices && e.to in g.vertices
  }

  lemma ValidClosed<V(!new)>(g: Graph<V>)
    requires Valid(g)
    ensures Closed(g)
  {
    forall v, e | e in OutEdges(g, v) ensures e.from == v && v in g.vertices && e.to in g.vertices {
      Endpoints(g, v, e);
    }
  }

  /** `es` leads from `s` to `t`: each edge is stored in its source's out-list and starts where
      the previous one ended. The empty walk stays at `s`. */
  ghost predicate IsPath<V(!new)>(g: Graph<V>, s: V, t: V, es: seq<Edge<V>>) {
    && (|es| == 0 ==> s == t)
    && (|es| > 0 ==> es[0].from == s && es[|es| - 1].to == t)
    && (forall i :: 0 <= i < |es| ==> es[i] in OutEdges(g, es[i].from))
    && (forall i :: 0 <= i < |es| - 1 ==> es[i].to == es[i + 1].from)
  }

  ghost predicate Reachable<V(!new)>(g: Graph<V>, s: V, t: V) {
    exists es :: IsPath(g, s, t, es)
  }

  /** `t` is reachable from `s` along at least one edge. */
  ghost predicate ReachPlus<V(!new)>(g: Graph<V>, s: V, t: V) {
    exists es :: |es| > 0 && IsPath(g, s, t, es)
  }

  ghost predicate OnCycle<V(!new)>(g: Graph<V>, v: V) {
    ReachPlus(g, v, v)
  }

  ghost predicate HasCycle<V(!new)>(g: Graph<V>) {
    exists v :: OnCycle(g, v)
  }

  /** Some cycle can be reached from `s`. */
  ghost predicate ReachesCycle<V(!new)>(g: Graph<V>, s: V) {
    exists v :: Reachable(g, s, v) && OnCycle(g, v)
  }

  /** The total weight of a walk. */
  function Cost<V>(es: seq<Edge<V>>): nat {
    if |es| == 0 then 0 else es[0].weight + Cost(es[1..])
  }

  /** The vertices a walk from `s` visits, `s` first. */
  function PathVertices<V>(s: V, es: seq<Edge<V>>): seq<V> {
    [s] + seq(|es|, i requires 0 <= i < |es| => es[i].to)
  }

  /** The minimum-cost walks from `s` to `t`. */
  ghost predicate ShortestPath<V(!new)>(g: Graph<V>, s: V, t: V, es: seq<Edge<V>>) {
    IsPath(g, s, t, es) && forall other :: IsPath(g, s, t, other) ==> Cost(es) <= Cost(other)
  }

  /* ------------------------------------------------------------ building walks */

  lemma StayPut<V(!new)>(g: Graph<V>, s: V)
    ensures IsPath(g, s, s, []) && Reachable(g, s, s)
  {
    assert IsPath(g, s, s, []);
  }

  /** A stored edge in front of a walk from its target. */
  lemma PathCons<V(!new)>(g: Graph<V>, e: Edge<V>, t: V, es: seq<Edge<V>>)
    requires e in OutEdges(g, e.from) && IsPath(g, e.to, t, es)
    ensures IsPath(g, e.from, t, [e] + es)
  {
    var r := [e] + es;
    assert forall i :: 1 <= i < |r| ==> r[i] == es[i - 1];
  }

  /** A stored edge after a walk to its source. */
  lemma PathSnoc<V(!new)>(g: Graph<V>, s: V, es: seq<Edge<V>>, e: Edge<V>)
    requires IsPath(g, s, e.from, es) && e in OutEdges(g, e.from)
    ensures IsPath(g, s, e.to, es + [e])
  {
    var r := es + [e];
    assert forall i :: 0 <= i < |es| ==> r[i] == es[i];
  }

  /** Dropping the first edge of a walk leaves a walk from that edge's target. */
  lemma PathTail<V(!new)>(g: Graph<V>, s: V, t: V, es: seq<Edge<V>>)
    requires |es| > 0 && IsPath(g, s, t, es)
    ensures es[0].from == s && es[0] in OutEdges(g, s)
    ensures IsPath(g, es[0].to, t, es[1..])
  {
    var r := es[1..];
    assert forall i :: 0 <= i < |r| ==> r[i] == es[i + 1];
  }

  /** Walks compose. */
  lemma {:induction false} PathJoin<V(!new)>(g: Graph<V>, a: V, b: V, c: V, xs: seq<Edge<V>>, ys: seq<Edge<V>>)
    requires IsPath(g, a, b, xs) && IsPath(g, b, c, ys)
    ensures IsPath(g, a, c, xs + ys)
    decreases |xs|
  {
    if |xs| == 0 {
      assert xs + ys == ys;
    } else {
      PathTail(g, a, b, xs);
      PathJoin(g, xs[0].to, b, c, xs[1..], ys);
      PathCons(g, xs[0], c, xs[1..] + ys);
      assert [xs[0]] + (xs[1..] + ys) == xs + ys;
    }
  }

  /** Reachability extends backwards over a stored edge. */
  lemma ReachBack<V(!new)>(g: Graph<V>, e: Edge<V>, t: V)
    requires e in OutEdges(g, e.from) && Reachable(g, e.to, t)
    ensures ReachPlus(g, e.from, t) && Reachable(g, e.from, t)
  {
    var es :| IsPath(g, e.to, t, es);
    PathCons(g, e, t, es);
  }

  /** A non-empty walk followed by a stored edge is non-empty. */
  lemma ReachPlusSnoc<V(!new)>(g: Graph<V>, s: V, e: Edge<V>)
    requires (s == e.from || ReachPlus(g, s, e.from)) && e in OutEdges(g, e.from)
    ensures ReachPlus(g, s, e.to)
  {
    if s == e.from {
      StayPut(g, s);
      PathSnoc(g, s, [], e);
      assert [] + [e] == [e];
    } else {
      var es :| |es| > 0 && IsPath(g, s, e.from, es);
      PathSnoc(g, s, es, e);
    }
  }

  /** A cycle reachable from an edge's target is reachable from its source. */
  lemma CycleBack<V(!new)>(g: Graph<V>, e: Edge<V>)
    requires e in OutEdges(g, e.from) && ReachesCycle(g, e.to)
    ensures ReachesCycle(g, e.from)
  {
    var w :| Reachable(g, e.to, w) && OnCycle(g, w);
    ReachBack(g, e, w);
  }

  lemma CycleHere<V(!new)>(g: Graph<V>, v: V)
    requires OnCycle(g, v)
    ensures ReachesCycle(g, v)
  {
    StayPut(g, v);
  }

  /** The cost of a walk grows by the weight of an edge appended to it. */
  lemma {:induction false} CostSnoc<V>(es: seq<Edge<V>>, e: Edge<V>)
    ensures Cost(es + [e]) == Cost(es) + e.weight
  {
    if |es| > 0 {
      assert (es + [e])[1..] == es[1..] + [e];
      CostSnoc(es[1..], e);
    }
  }

  lemma PathVerticesSnoc<V>(s: V, es: seq<Edge<V>>, e: Edge<V>)
    ensures PathVertices(s, es + [e]) == PathVertices(s, es) + [e.to]
  {
  }

  /** A walk that leaves `s` starts and ends at vertices. */
  lemma WalkEnds<V(!new)>(g: Graph<V>, s: V, t: V, es: seq<Edge<V>>)
    requires Closed(g) && |es| > 0 && IsPath(g, s, t, es)
    ensures s in g.vertices && t in g.vertices
  {
    assert es[0] in OutEdges(g, es[0].from);
    assert es[|es| - 1] in OutEdges(g, es[|es| - 1].from);
  }

  /** Whatever a vertex reaches is a vertex. */
  lemma ReachedVertex<V(!new)>(g: Graph<V>, s: V, t: V)
    requires Closed(g) && s in g.vertices && Reachable(g, s, t)
    ensures t in g.vertices
  {
    var es :| IsPath(g, s, t, es);
    if |es| > 0 {
      WalkEnds(g, s, t, es);
    }
  }
}
