/** Dijkstra's shortest-path-first traversal between two vertices, with the first-found
    minimum as tie-break and the previous-hop table read back from the target. */
module Dijkstra {
  import opened Seqs
  import opened Wrappers
  import opened Graphs
  import opened Paths
  import opened TraversalResults

  /** The algorithm's working state: the tentative distances, their keys in the order they were
      first inserted (the order a dictionary enumerates them in, since nothing is ever removed),
      the vertex that gave each key its best hop, and the vertices not yet taken. */
  datatype Progress<V> = Progress(distance: map<V, nat>, known: seq<V>, previous: map<V, V>, remaining: set<V>)

  /** `known` lists the keys of `distance`, each once. */
  ghost predicate Bookkept<V(!new)>(p: Progress<V>) {
    NoDup(p.known) && forall x :: x in p.known <==> x in p.distance
  }

  /** Holds of the edges that lead to a vertex in `xs`. */
  function TargetIn<V(!new)>(xs: set<V>): Edge<V> -> bool {
    (e: Edge<V>) => e.to in xs
  }

  /* ------------------------------------------------------------ choosing the next vertex */

  /** The position among the first `n` keys of the remaining vertex with the smallest
      distance, the earliest one on a tie: a left-to-right scan that replaces its candidate only
      on a strictly smaller distance. */
  function ScanMin<V(!new)>(distance: map<V, nat>, known: seq<V>, remaining: set<V>, n: nat): (r: Option<nat>)
    requires n <= |known| && forall x :: x in known ==> x in distance
    ensures r.None? <==> forall i :: 0 <= i < n ==> known[i] !in remaining
    ensures r.Some? ==> r.value < n && known[r.value] in remaining
    ensures r.Some? ==> forall i :: 0 <= i < n && known[i] in remaining ==> distance[known[r.value]] <= distance[known[i]]
    ensures r.Some? ==> forall i :: 0 <= i < r.value && known[i] in remaining ==> distance[known[r.value]] < distance[known[i]]
    decreases n
  {
    if n == 0 then None
    else
      var best := ScanMin(distance, known, remaining, n - 1);
      var x := known[n - 1];
      if x in remaining && (best.None? || distance[known[best.value]] > distance[x]) then Some(n - 1)
      else best
  }

  /** The remaining vertex with a known distance closest to the source, with that distance;
      on a tie the one whose distance was recorded first. None when no remaining vertex has a
      distance yet. */
  function GetNextVertex<V(!new)>(distance: map<V, nat>, known: seq<V>, remaining: set<V>): (r: Option<(V, nat)>)
    requires forall x :: x in known ==> x in distance
    ensures r.None? <==> forall x :: x in known ==> x !in remaining
    ensures r.Some? ==> r.value.0 in known && r.value.0 in remaining && r.value.1 == distance[r.value.0]
    ensures r.Some? ==> forall x :: x in known && x in remaining ==> r.value.1 <= distance[x]
    ensures r.Some? ==> forall i :: 0 <= i < |known| && known[i] in remaining && distance[known[i]] == r.value.1 ==>
      r.value.0 in known[..i + 1]
  {
    match ScanMin(distance, known, remaining, |known|)
    case None => None
    case Some(k) => Some((known[k], distance[known[k]]))
  }

  /* ------------------------------------------------------------ relaxing the out-edges */

  /** `x` kept its distance and its previous hop. */
  ghost predicate Kept<V(!new)>(p: Progress<V>, r: Progress<V>, x: V)
    requires x in r.distance
  {
    && x in p.distance && r.distance[x] == p.distance[x]
    && (x in p.previous ==> x in r.previous && r.previous[x] == p.previous[x])
  }

  /** `x` got its distance through one of the edges `es` out of `u`, which is at distance `d`. */
  ghost predicate Improved<V(!new)>(r: Progress<V>, x: V, u: V, d: nat, es: seq<Edge<V>>)
    requires x in r.distance
  {
    && x in r.previous && r.previous[x] == u
    && exists e :: e in es && e.to == x && r.distance[x] == d + e.weight
  }

  /** Relaxes the edges `es` out of `u`, at distance `d`, in order: a target gets the distance
      through `u` and `u` as its previous hop when it had no distance or a larger one. */
  function Relax<V(!new)>(u: V, d: nat, es: seq<Edge<V>>, p: Progress<V>): (r: Progress<V>)
    ensures r.remaining == p.remaining
    ensures Bookkept(p) ==> Bookkept(r)
    ensures p.distance.Keys <= r.distance.Keys
    ensures forall x :: x in p.distance ==> r.distance[x] <= p.distance[x]
    ensures forall e :: e in es ==> e.to in r.distance && r.distance[e.to] <= d + e.weight
    ensures forall x :: x in r.distance ==> Kept(p, r, x) || Improved(r, x, u, d, es)
    decreases |es|
  {
    if |es| == 0 then p
    else
      var e := es[0];
      var alt := d + e.weight;
      var p1 :=
        if e.to !in p.distance || alt < p.distance[e.to] then
          Progress(p.distance[e.to := alt], if e.to in p.distance then p.known else p.known + [e.to],
                   p.previous[e.to := u], p.remaining)
        else p;
      var r := Relax(u, d, es[1..], p1);
      RelaxStep(u, d, es, p, p1, r);
      r
  }

  /** Composes the first edge's update with the relaxation of the rest. */
  lemma RelaxStep<V(!new)>(u: V, d: nat, es: seq<Edge<V>>, p: Progress<V>, p1: Progress<V>, r: Progress<V>)
    requires |es| > 0
    requires p1 == if es[0].to !in p.distance || d + es[0].weight < p.distance[es[0].to] then
        Progress(p.distance[es[0].to := d + es[0].weight], if es[0].to in p.distance then p.known else p.known + [es[0].to],
                 p.previous[es[0].to := u], p.remaining)
      else p
    requires r.remaining == p1.remaining
    requires Bookkept(p1) ==> Bookkept(r)
    requires p1.distance.Keys <= r.distance.Keys
    requires forall x :: x in p1.distance ==> r.distance[x] <= p1.distance[x]
    requires forall e :: e in es[1..] ==> e.to in r.distance && r.distance[e.to] <= d + e.weight
    requires forall x :: x in r.distance ==> Kept(p1, r, x) || Improved(r, x, u, d, es[1..])
    ensures r.remaining == p.remaining
    ensures Bookkept(p) ==> Bookkept(r)
    ensures p.distance.Keys <= r.distance.Keys
    ensures forall x :: x in p.distance ==> r.distance[x] <= p.distance[x]
    ensures forall e :: e in es ==> e.to in r.distance && r.distance[e.to] <= d + e.weight
    ensures forall x :: x in r.distance ==> Kept(p, r, x) || Improved(r, x, u, d, es)
  {
    var e := es[0];
    if Bookkept(p) && e.to !in p.distance {
      NoDupSnoc(p.known, e.to);
    }
    assert forall f :: f in es ==> f == e || f in es[1..];
    forall x | x in r.distance ensures Kept(p, r, x) || Improved(r, x, u, d, es) {
      if Improved(r, x, u, d, es[1..]) {
        var f :| f in es[1..] && f.to == x && r.distance[x] == d + f.weight;
        assert f in es;
      } else if x == e.to && p1 != p {
        assert r.distance[x] == d + e.weight;
      }
    }
  }

  /* ------------------------------------------------------------ reading back the path */

  /** Following previous hops from any finished vertex other than the source leads to a vertex
      finished strictly earlier. */
  ghost predicate ChainTo<V(!new)>(s: V, previous: map<V, V>, done: seq<V>) {
    forall x :: x in done && x != s ==>
      x in previous && previous[x] in done && IndexOf(done, previous[x]) < IndexOf(done, x)
  }

  /** The vertices from the source to `x`, read back through the previous hops: the stack the
      source fills from the target, enumerated from its top. */
  function BuildResultPath<V(!new)>(s: V, x: V, previous: map<V, V>, ghost done: seq<V>): (r: seq<V>)
    requires x in done && ChainTo(s, previous, done)
    ensures |r| > 0 && r[0] == s && r[|r| - 1] == x
    ensures forall i :: 0 < i < |r| ==> r[i] != s && r[i] in previous && previous[r[i]] == r[i - 1]
    ensures forall i :: 0 <= i < |r| ==> r[i] in done
    decreases IndexOf(done, x)
  {
    if x == s then [s]
    else BuildResultPath(s, previous[x], previous, done) + [x]
  }

  /* ------------------------------------------------------------ the invariant */

  /** `done` lists the taken vertices in the order they were taken; the rest of the graph
      remains. */
  ghost predicate Settled<V(!new)>(g: Graph<V>, p: Progress<V>, done: seq<V>) {
    && NoDup(done)
    && (forall x :: x in p.remaining <==> x in g.vertices && x !in done)
    && (forall x :: x in done ==> x in g.vertices && x in p.distance)
  }

  /** The source sits at distance 0 and is taken first; every other key is a vertex. */
  ghost predicate Started<V(!new)>(g: Graph<V>, s: V, p: Progress<V>, done: seq<V>) {
    && s in p.distance && p.distance[s] == 0
    && (|done| == 0 ==> p.distance.Keys == {s})
    && (|done| > 0 ==> done[0] == s)
    && (forall x :: x in p.distance ==> x == s || x in g.vertices)
  }

  /** Every edge out of a taken vertex has been relaxed. */
  ghost predicate Relaxed<V(!new)>(g: Graph<V>, p: Progress<V>, done: seq<V>) {
    forall a, e :: a in done && e in OutEdges(g, a) ==>
      a in p.distance && e.to in p.distance && p.distance[e.to] <= p.distance[a] + e.weight
  }

  /** No taken vertex is further than a vertex still waiting. */
  ghost predicate Monotone<V(!new)>(p: Progress<V>, done: seq<V>) {
    forall x, y :: x in done && y in p.distance && y !in done ==>
      x in p.distance && p.distance[x] <= p.distance[y]
  }

  /** A stored edge from `a` to `x` accounts for the difference of their distances. */
  ghost predicate Hop<V(!new)>(g: Graph<V>, a: V, x: V, distance: map<V, nat>) {
    exists e :: e in OutEdges(g, a) && e.to == x && a in distance && x in distance && distance[x] == distance[a] + e.weight
  }

  /** Every key other than the source was reached from a taken vertex over a stored edge. */
  ghost predicate Chained<V(!new)>(g: Graph<V>, s: V, p: Progress<V>, done: seq<V>) {
    && ChainTo(s, p.previous, done)
    && forall x :: x in p.distance && x != s ==>
         x in p.previous && p.previous[x] in done && Hop(g, p.previous[x], x, p.distance)
  }

  ghost predicate Inv<V(!new)>(g: Graph<V>, s: V, t: V, p: Progress<V>, done: seq<V>) {
    && Bookkept(p)
    && Settled(g, p, done)
    && Started(g, s, p, done)
    && Relaxed(g, p, done)
    && Monotone(p, done)
    && Chained(g, s, p, done)
    && t !in done
  }

  /* ------------------------------------------------------------ the traversal */

  /** The main loop: take the closest remaining vertex; stop at the target; otherwise relax its
      edges towards remaining vertices. */
  function Run<V(!new)>(g: Graph<V>, s: V, t: V, p: Progress<V>, ghost done: seq<V>): (r: TraversalResult<V>)
    requires Closed(g) && Inv(g, s, t, p, done)
    ensures r.success <==> s in g.vertices && Reachable(g, s, t)
    ensures r.success ==> exists es :: ShortestPath(g, s, t, es) && r.results == PathVertices(s, es)
    ensures !r.success ==> r.results == []
    decreases |p.remaining|, 1
  {
    Outcome(g, s, t, p, done);
    if |p.remaining| == 0 then
      Failure()
    else
      match GetNextVertex(p.distance, p.known, p.remaining)
      case None => Failure()
      case Some(next) =>
        var u := next.0;
        if u == t then
          Complete(BuildResultPath(s, t, p.previous, done + [t]))
        else
          Continue(g, s, t, p, done, u)
  }

  /** The rest of the loop after taking `u`, which is not the target. */
  function Continue<V(!new)>(g: Graph<V>, s: V, t: V, p: Progress<V>, ghost done: seq<V>, u: V): (r: TraversalResult<V>)
    requires Closed(g) && Inv(g, s, t, p, done)
    requires u in p.known && u in p.remaining && u != t
    requires forall x :: x in p.known && x in p.remaining ==> p.distance[u] <= p.distance[x]
    ensures r.success <==> s in g.vertices && Reachable(g, s, t)
    ensures r.success ==> exists es :: ShortestPath(g, s, t, es) && r.results == PathVertices(s, es)
    ensures !r.success ==> r.results == []
    decreases |p.remaining|, 0
  {
    Run(g, s, t, Advance(g, s, t, p, done, u), done + [u])
  }

  /** Takes `u` out of the remaining vertices and relaxes its edges towards those that
      remain. */
  function Advance<V(!new)>(g: Graph<V>, s: V, t: V, p: Progress<V>, ghost done: seq<V>, u: V): (p1: Progress<V>)
    requires Closed(g) && Inv(g, s, t, p, done)
    requires u in p.known && u in p.remaining && u != t
    requires forall x :: x in p.known && x in p.remaining ==> p.distance[u] <= p.distance[x]
    ensures Inv(g, s, t, p1, done + [u])
    ensures p1.remaining == p.remaining - {u}
  {
    var rem := p.remaining - {u};
    var es := Filter(OutEdges(g, u), TargetIn(rem));
    var p1 := Relax(u, p.distance[u], es, Progress(p.distance, p.known, p.previous, rem));
    Settle(g, s, t, p, done, u, es, p1);
    p1
  }

  /** The shortest path from `s` to `t` as the vertices it passes through; a failure when `s` is
      not a vertex or `t` cannot be reached from it. */
  function Traverse<V(!new)>(g: Graph<V>, s: V, t: V): (r: TraversalResult<V>)
    requires Valid(g)
    ensures r.success <==> s in g.vertices && Reachable(g, s, t)
    ensures r.success ==> exists es :: ShortestPath(g, s, t, es) && r.results == PathVertices(s, es)
    ensures !r.success ==> r.results == []
  {
    ValidClosed(g);
    var p := Progress(map[s := 0], [s], map[], set x | x in g.vertices);
    assert Inv(g, s, t, p, []);
    Run(g, s, t, p, [])
  }

  /* ------------------------------------------------------------ why it is right */

  /** Leaving the taken vertices along a walk: some vertex outside them already has a distance
      no larger than the walk's cost on top of the distance of the walk's start. */
  lemma {:induction false} ExitFrom<V(!new)>(g: Graph<V>, p: Progress<V>, done: seq<V>, a: V, z: V, es: seq<Edge<V>>, c: nat) returns (b: V)
    requires Closed(g) && Relaxed(g, p, done)
    requires a in done && a in p.distance && p.distance[a] <= c && z !in done && IsPath(g, a, z, es)
    ensures b in p.distance && b !in done && b in g.vertices && p.distance[b] <= c + Cost(es)
    decreases |es|
  {
    PathTail(g, a, z, es);
    var e := es[0];
    if e.to !in done {
      b := e.to;
    } else {
      b := ExitFrom(g, p, done, e.to, z, es[1..], c + e.weight);
    }
  }

  /** When no remaining vertex has a distance, the target cannot be reached. */
  lemma NothingLeft<V(!new)>(g: Graph<V>, s: V, t: V, p: Progress<V>, done: seq<V>)
    requires Closed(g) && Inv(g, s, t, p, done)
    requires forall x :: x in p.known ==> x !in p.remaining
    ensures !(s in g.vertices && Reachable(g, s, t))
  {
    if s in g.vertices && Reachable(g, s, t) {
      if |done| > 0 {
        var es :| IsPath(g, s, t, es);
        var b := ExitFrom(g, p, done, s, t, es, 0);
      }
    }
  }

  /** The closest remaining vertex is no further than any walk to it. */
  lemma Optimal<V(!new)>(g: Graph<V>, s: V, t: V, p: Progress<V>, done: seq<V>, es: seq<Edge<V>>)
    requires Closed(g) && Inv(g, s, t, p, done) && IsPath(g, s, t, es)
    requires t in p.known && t in p.remaining
    requires forall x :: x in p.known && x in p.remaining ==> p.distance[t] <= p.distance[x]
    ensures p.distance[t] <= Cost(es)
  {
    if |done| > 0 {
      var b := ExitFrom(g, p, done, s, t, es, 0);
      assert b in p.known && b in p.remaining;
    }
  }

  /** Reaching the target: the previous hops spell out a walk from the source whose cost is the
      target's distance, and that is the shortest. */
  lemma Arrived<V(!new)>(g: Graph<V>, s: V, t: V, p: Progress<V>, done: seq<V>)
    requires Closed(g) && Inv(g, s, t, p, done)
    requires t in p.known && t in p.remaining
    requires forall x :: x in p.known && x in p.remaining ==> p.distance[t] <= p.distance[x]
    ensures ChainTo(s, p.previous, done + [t])
    ensures s in g.vertices && Reachable(g, s, t)
    ensures exists es :: ShortestPath(g, s, t, es) && BuildResultPath(s, t, p.previous, done + [t]) == PathVertices(s, es)
  {
    var D := done + [t];
    ChainSnoc(s, p.previous, done, t);
    forall y | y in D && y != s ensures Hop(g, p.previous[y], y, p.distance) {
      assert y in p.distance;
    }
    var es := ChainPath(g, s, t, p, D);
    forall other | IsPath(g, s, t, other) ensures Cost(es) <= Cost(other) {
      Optimal(g, s, t, p, done, other);
    }
    assert ShortestPath(g, s, t, es);
    if |done| > 0 {
      assert s == done[0];
    }
  }

  /** What the loop concludes when it stops: failure when no remaining vertex has a distance,
      and the shortest path when the closest one is the target. */
  lemma Outcome<V(!new)>(g: Graph<V>, s: V, t: V, p: Progress<V>, done: seq<V>)
    requires Closed(g) && Inv(g, s, t, p, done)
    ensures (forall x :: x in p.known ==> x !in p.remaining) ==> !(s in g.vertices && Reachable(g, s, t))
    ensures t in p.known && t in p.remaining && (forall x :: x in p.known && x in p.remaining ==> p.distance[t] <= p.distance[x]) ==>
      && ChainTo(s, p.previous, done + [t])
      && s in g.vertices && Reachable(g, s, t)
      && exists es :: ShortestPath(g, s, t, es) && BuildResultPath(s, t, p.previous, done + [t]) == PathVertices(s, es)
  {
    if forall x :: x in p.known ==> x !in p.remaining {
      NothingLeft(g, s, t, p, done);
    }
    if t in p.known && t in p.remaining && (forall x :: x in p.known && x in p.remaining ==> p.distance[t] <= p.distance[x]) {
      Arrived(g, s, t, p, done);
    }
  }

  /** A vertex taken next extends the chain of taken vertices. */
  lemma ChainSnoc<V(!new)>(s: V, previous: map<V, V>, done: seq<V>, u: V)
    requires ChainTo(s, previous, done) && u !in done
    requires u != s ==> u in previous && previous[u] in done
    ensures ChainTo(s, previous, done + [u])
  {
    var D := done + [u];
    forall x | x in D && x != s
      ensures x in previous && previous[x] in D && IndexOf(D, previous[x]) < IndexOf(D, x)
    {
      IndexOfSnoc(done, u, previous[x]);
      if x in done {
        IndexOfSnoc(done, u, x);
      } else {
        assert D[..|done|] == done;
        IndexFirst(D, u, |done|);
      }
    }
  }

  /** Appending keeps the positions of what was already there. */
  lemma IndexOfSnoc<T>(s: seq<T>, u: T, x: T)
    requires x in s
    ensures IndexOf(s + [u], x) == IndexOf(s, x)
  {
    var i := IndexOf(s, x);
    assert (s + [u])[..i] == s[..i];
    IndexFirst(s + [u], x, i);
  }

  /** The first position holding `x` is its index. */
  lemma IndexFirst<T>(s: seq<T>, x: T, i: int)
    requires 0 <= i < |s| && s[i] == x && x !in s[..i]
    ensures IndexOf(s, x) == i
  {

  }

  /** The previous hops from the target read back as a walk whose cost is the target's
      distance. */
  lemma {:induction false} ChainPath<V(!new)>(g: Graph<V>, s: V, x: V, p: Progress<V>, D: seq<V>) returns (es: seq<Edge<V>>)
    requires Closed(g) && x in D && ChainTo(s, p.previous, D)
    requires s in p.distance && p.distance[s] == 0
    requires forall y :: y in D && y != s ==> Hop(g, p.previous[y], y, p.distance)
    ensures IsPath(g, s, x, es) && x in p.distance && Cost(es) == p.distance[x]
    ensures PathVertices(s, es) == BuildResultPath(s, x, p.previous, D)
    decreases IndexOf(D, x)
  {
    if x == s {
      es := [];
      StayPut(g, s);
    } else {
      var y := p.previous[x];
      var prefix := ChainPath(g, s, y, p, D);
      var e :| e in OutEdges(g, y) && e.to == x && y in p.distance && x in p.distance && p.distance[x] == p.distance[y] + e.weight;
      assert e.from == y;
      es := prefix + [e];
      PathSnoc(g, s, prefix, e);
      CostSnoc(prefix, e);
      PathVerticesSnoc(s, prefix, e);
    }
  }

  /* ------------------------------------------------------------ one step keeps the invariant */

  /** Taking the closest remaining vertex `u` and relaxing its edges towards the vertices that
      remain keeps the invariant, with `u` appended to the taken vertices. */
  lemma Settle<V(!new)>(g: Graph<V>, s: V, t: V, p: Progress<V>, done: seq<V>, u: V, es: seq<Edge<V>>, p1: Progress<V>)
    requires Closed(g) && Inv(g, s, t, p, done)
    requires u in p.known && u in p.remaining && u != t
    requires forall x :: x in p.known && x in p.remaining ==> p.distance[u] <= p.distance[x]
    requires es == Filter(OutEdges(g, u), TargetIn(p.remaining - {u}))
    requires p1 == Relax(u, p.distance[u], es, Progress(p.distance, p.known, p.previous, p.remaining - {u}))
    ensures Inv(g, s, t, p1, done + [u])
  {
    var D := done + [u];
    SettleSettled(g, s, t, p, done, u, es, p1);
    SettleStarted(g, s, t, p, done, u, es, p1);
    SettleRelaxed(g, s, t, p, done, u, es, p1);
    SettleMonotone(g, s, t, p, done, u, es, p1);
    SettleChained(g, s, t, p, done, u, es, p1);
  }

  /** Relaxation only touches vertices that remain after `u` is taken. */
  lemma Untouched<V(!new)>(g: Graph<V>, s: V, t: V, p: Progress<V>, done: seq<V>, u: V, es: seq<Edge<V>>, p1: Progress<V>, x: V)
    requires Closed(g) && Inv(g, s, t, p, done)
    requires u in p.known && u in p.remaining
    requires es == Filter(OutEdges(g, u), TargetIn(p.remaining - {u}))
    requires p1 == Relax(u, p.distance[u], es, Progress(p.distance, p.known, p.previous, p.remaining - {u}))
    requires x in done || x == u
    ensures x in p1.distance && p1.distance[x] == p.distance[x]
    ensures x in p.previous ==> x in p1.previous && p1.previous[x] == p.previous[x]
  {
  }

  lemma SettleSettled<V(!new)>(g: Graph<V>, s: V, t: V, p: Progress<V>, done: seq<V>, u: V, es: seq<Edge<V>>, p1: Progress<V>)
    requires Closed(g) && Inv(g, s, t, p, done)
    requires u in p.known && u in p.remaining && u != t
    requires es == Filter(OutEdges(g, u), TargetIn(p.remaining - {u}))
    requires p1 == Relax(u, p.distance[u], es, Progress(p.distance, p.known, p.previous, p.remaining - {u}))
    ensures Bookkept(p1) && Settled(g, p1, done + [u]) && t !in done + [u]
  {
    NoDupSnoc(done, u);
    forall x | x in done + [u] ensures x in g.vertices && x in p1.distance {
      Untouched(g, s, t, p, done, u, es, p1, x);
    }
  }

  lemma SettleStarted<V(!new)>(g: Graph<V>, s: V, t: V, p: Progress<V>, done: seq<V>, u: V, es: seq<Edge<V>>, p1: Progress<V>)
    requires Closed(g) && Inv(g, s, t, p, done)
    requires u in p.known && u in p.remaining
    requires es == Filter(OutEdges(g, u), TargetIn(p.remaining - {u}))
    requires p1 == Relax(u, p.distance[u], es, Progress(p.distance, p.known, p.previous, p.remaining - {u}))
    ensures Started(g, s, p1, done + [u])
  {
    assert p1.distance[s] <= p.distance[s];
    if |done| == 0 {
      assert u == s;
    }
    forall x | x in p1.distance ensures x == s || x in g.vertices {
      if Improved(p1, x, u, p.distance[u], es) {
        ImprovedRemains(p.remaining - {u}, u, p.distance[u], es, p1, x);
      }
    }
  }

  /** Relaxation only improves the targets of the edges it was given. */
  lemma ImprovedRemains<V(!new)>(rem: set<V>, u: V, d: nat, es: seq<Edge<V>>, p1: Progress<V>, x: V)
    requires forall e :: e in es ==> TargetIn(rem)(e)
    requires x in p1.distance && Improved(p1, x, u, d, es)
    ensures x in rem
  {
    var e :| e in es && e.to == x && p1.distance[x] == d + e.weight;
    assert TargetIn(rem)(e);
  }

  lemma SettleRelaxed<V(!new)>(g: Graph<V>, s: V, t: V, p: Progress<V>, done: seq<V>, u: V, es: seq<Edge<V>>, p1: Progress<V>)
    requires Closed(g) && Inv(g, s, t, p, done)
    requires u in p.known && u in p.remaining
    requires es == Filter(OutEdges(g, u), TargetIn(p.remaining - {u}))
    requires p1 == Relax(u, p.distance[u], es, Progress(p.distance, p.known, p.previous, p.remaining - {u}))
    ensures Relaxed(g, p1, done + [u])
  {
    forall a, e | a in done + [u] && e in OutEdges(g, a)
      ensures a in p1.distance && e.to in p1.distance && p1.distance[e.to] <= p1.distance[a] + e.weight
    {
      Untouched(g, s, t, p, done, u, es, p1, a);
      if a == u && e.to in p.remaining - {u} {
        assert e in es;
      } else if a == u {
        assert e.to in done || e.to == u;
        if e.to in done {
          Untouched(g, s, t, p, done, u, es, p1, e.to);
        }
      }
    }
  }

  lemma SettleMonotone<V(!new)>(g: Graph<V>, s: V, t: V, p: Progress<V>, done: seq<V>, u: V, es: seq<Edge<V>>, p1: Progress<V>)
    requires Closed(g) && Inv(g, s, t, p, done)
    requires u in p.known && u in p.remaining
    requires forall x :: x in p.known && x in p.remaining ==> p.distance[u] <= p.distance[x]
    requires es == Filter(OutEdges(g, u), TargetIn(p.remaining - {u}))
    requires p1 == Relax(u, p.distance[u], es, Progress(p.distance, p.known, p.previous, p.remaining - {u}))
    ensures Monotone(p1, done + [u])
  {
    forall x, y | x in done + [u] && y in p1.distance && y !in done + [u]
      ensures x in p1.distance && p1.distance[x] <= p1.distance[y]
    {
      Untouched(g, s, t, p, done, u, es, p1, x);
      assert p.distance[x] <= p.distance[u];
      if !Improved(p1, y, u, p.distance[u], es) {
        assert y in p.known && y in p.remaining;
      }
    }
  }

  lemma SettleChained<V(!new)>(g: Graph<V>, s: V, t: V, p: Progress<V>, done: seq<V>, u: V, es: seq<Edge<V>>, p1: Progress<V>)
    requires Closed(g) && Inv(g, s, t, p, done)
    requires u in p.known && u in p.remaining
    requires es == Filter(OutEdges(g, u), TargetIn(p.remaining - {u}))
    requires p1 == Relax(u, p.distance[u], es, Progress(p.distance, p.known, p.previous, p.remaining - {u}))
    ensures Chained(g, s, p1, done + [u])
  {
    var D := done + [u];
    ChainSnoc(s, p.previous, done, u);
    forall x | x in D && x != s ensures x in p1.previous && p1.previous[x] == p.previous[x] {
      Untouched(g, s, t, p, done, u, es, p1, x);
    }
    ChainFrame(s, p.previous, p1.previous, D);
    forall x | x in p1.distance && x != s
      ensures x in p1.previous && p1.previous[x] in D && Hop(g, p1.previous[x], x, p1.distance)
    {
      HopAfter(g, s, t, p, done, u, es, p1, x);
    }
  }

  /** The chain only depends on the previous hops of the vertices on it. */
  lemma ChainFrame<V(!new)>(s: V, previous: map<V, V>, previous1: map<V, V>, D: seq<V>)
    requires ChainTo(s, previous, D)
    requires forall x :: x in D && x != s ==> x in previous1 && previous1[x] == previous[x]
    ensures ChainTo(s, previous1, D)
  {
  }

  /** After the step, every key other than the source still hangs off a taken vertex. */
  lemma HopAfter<V(!new)>(g: Graph<V>, s: V, t: V, p: Progress<V>, done: seq<V>, u: V, es: seq<Edge<V>>, p1: Progress<V>, x: V)
    requires Closed(g) && Inv(g, s, t, p, done)
    requires u in p.known && u in p.remaining
    requires es == Filter(OutEdges(g, u), TargetIn(p.remaining - {u}))
    requires p1 == Relax(u, p.distance[u], es, Progress(p.distance, p.known, p.previous, p.remaining - {u}))
    requires x in p1.distance && x != s
    ensures x in p1.previous && p1.previous[x] in done + [u] && Hop(g, p1.previous[x], x, p1.distance)
  {
    if Improved(p1, x, u, p.distance[u], es) {
      HopImproved(g, s, t, p, done, u, es, p1, x);
    } else {
      HopKept(g, s, t, p, done, u, es, p1, x);
    }
  }

  lemma HopImproved<V(!new)>(g: Graph<V>, s: V, t: V, p: Progress<V>, done: seq<V>, u: V, es: seq<Edge<V>>, p1: Progress<V>, x: V)
    requires Closed(g) && Inv(g, s, t, p, done)
    requires u in p.known && u in p.remaining
    requires es == Filter(OutEdges(g, u), TargetIn(p.remaining - {u}))
    requires p1 == Relax(u, p.distance[u], es, Progress(p.distance, p.known, p.previous, p.remaining - {u}))
    requires x in p1.distance && Improved(p1, x, u, p.distance[u], es)
    ensures x in p1.previous && p1.previous[x] == u && Hop(g, u, x, p1.distance)
  {
    Untouched(g, s, t, p, done, u, es, p1, u);
    var e :| e in es && e.to == x && p1.distance[x] == p.distance[u] + e.weight;
    assert e in OutEdges(g, u) && u in p1.distance && p1.distance[x] == p1.distance[u] + e.weight;
  }

  lemma HopKept<V(!new)>(g: Graph<V>, s: V, t: V, p: Progress<V>, done: seq<V>, u: V, es: seq<Edge<V>>, p1: Progress<V>, x: V)
    requires Closed(g) && Inv(g, s, t, p, done)
    requires u in p.known && u in p.remaining
    requires es == Filter(OutEdges(g, u), TargetIn(p.remaining - {u}))
    requires p1 == Relax(u, p.distance[u], es, Progress(p.distance, p.known, p.previous, p.remaining - {u}))
    requires x in p1.distance && x != s && Kept(p, p1, x)
    ensures x in p1.previous && p1.previous[x] in done && Hop(g, p1.previous[x], x, p1.distance)
  {
    var y := p.previous[x];
    var e :| e in OutEdges(g, y) && e.to == x && y in p.distance && x in p.distance && p.distance[x] == p.distance[y] + e.weight;
    Untouched(g, s, t, p, done, u, es, p1, y);
    assert p1.distance[x] == p1.distance[y] + e.weight;
  }

}
