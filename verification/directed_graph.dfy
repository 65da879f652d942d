/** The operations of `DirectedGraph`: adding and removing vertices and edges, and the
    queries over the two adjacency indexes. Every operation takes the graph's state and
    returns the new one; `Valid` is the invariant each of them keeps. */
module DirectedGraph {
  import opened Seqs
  import opened Wrappers
  import opened Graphs

  /* ---------------------------------------------------------------- additions */

  /** Adds `v` unless present; reports whether it was added. */
  function AddVertex<V(!new)>(g: Graph<V>, v: V): (r: (Graph<V>, bool))
    requires Valid(g)
    ensures Valid(r.0)
    ensures r.1 <==> v !in g.vertices
    ensures forall x :: x in r.0.vertices <==> x in g.vertices || x == v
    ensures g.vertices <= r.0.vertices
    ensures |r.0.vertices| == if r.1 then |g.vertices| + 1 else |g.vertices|
    ensures r.0.outEdges == g.outEdges && r.0.inEdges == g.inEdges && r.0.edgeCount == g.edgeCount
  {
    if v in g.vertices then (g, false)
    else
      var h := g.(vertices := g.vertices + [v]);
      SameIndexesSameEdges(g, h);
      (h, true)
  }

  /** Two well-shaped states with the same indexes hold the same edges, whatever their vertex order. */
  lemma SameIndexesSameEdges<V(!new)>(g: Graph<V>, h: Graph<V>)
    requires Shaped(g) && Shaped(h)
    requires g.outEdges == h.outEdges && g.inEdges == h.inEdges
    ensures multiset(AllEdges(g)) == multiset(AllEdges(h))
    ensures |AllEdges(g)| == |AllEdges(h)|
  {
    EdgeMultiplicity(g);
    EdgeMultiplicity(h);
    PointwiseEqual(multiset(AllEdges(g)), multiset(AllEdges(h)));
    SameMultisetSameLength(AllEdges(g), AllEdges(h));
  }

  /** Appends `e` to the list `m` keeps for `k`, creating the list when missing
      (the private `AddEdge` helper). */
  function AppendEdge<V(!new)>(m: map<V, seq<Edge<V>>>, k: V, e: Edge<V>): (r: map<V, seq<Edge<V>>>)
    ensures r.Keys == m.Keys + {k}
    ensures ListOf(r, k) == ListOf(m, k) + [e]
    ensures forall j :: j != k ==> ListOf(r, j) == ListOf(m, j)
  {
    if k in m then m[k := m[k] + [e]] else m[k := [e]]
  }

  /** Files `e` in both indexes once both endpoints are vertices. */
  function Link<V(!new)>(g: Graph<V>, e: Edge<V>): (r: Graph<V>)
    requires Valid(g) && e.from in g.vertices && e.to in g.vertices
    ensures Valid(r)
    ensures r.vertices == g.vertices
    ensures r.outEdges.Keys == g.outEdges.Keys + {e.from} && r.inEdges.Keys == g.inEdges.Keys + {e.to}
    ensures multiset(AllEdges(r)) == multiset(AllEdges(g)) + multiset{e}
  {
    var r := g.(outEdges := AppendEdge(g.outEdges, e.from, e),
                inEdges := AppendEdge(g.inEdges, e.to, e),
                edgeCount := g.edgeCount + 1);
    LinkValid(g, e, r);
    r
  }

  lemma LinkValid<V(!new)>(g: Graph<V>, e: Edge<V>, r: Graph<V>)
    requires Valid(g) && e.from in g.vertices && e.to in g.vertices
    requires r == g.(outEdges := AppendEdge(g.outEdges, e.from, e),
                     inEdges := AppendEdge(g.inEdges, e.to, e),
                     edgeCount := g.edgeCount + 1)
    ensures Valid(r)
    ensures multiset(AllEdges(r)) == multiset(AllEdges(g)) + multiset{e}
  {
    AppendKeepsKeyed(g.outEdges, e.from, e, false);
    AppendKeepsKeyed(g.inEdges, e.to, e, true);
    assert Shaped(r);
    forall x: Edge<V>
      ensures multiset(OutEdges(r, x.from))[x] == multiset(OutEdges(g, x.from))[x] + multiset{e}[x]
      ensures multiset(InEdges(r, x.to))[x] == multiset(InEdges(g, x.to))[x] + multiset{e}[x]
    {
      if x.from == e.from {
        assert OutEdges(r, x.from) == OutEdges(g, x.from) + [e];
      } else {
        assert OutEdges(r, x.from) == OutEdges(g, x.from);
      }
      if x.to == e.to {
        assert InEdges(r, x.to) == InEdges(g, x.to) + [e];
      } else {
        assert InEdges(r, x.to) == InEdges(g, x.to);
      }
    }
    assert Mirrored(r);
    EdgesFromCounts(g, r, multiset{e});
  }

  /** When every out-list multiplicity grows by `added`, so does the edge multiset. */
  lemma EdgesFromCounts<V(!new)>(g: Graph<V>, h: Graph<V>, added: multiset<Edge<V>>)
    requires Shaped(g) && Shaped(h)
    requires forall x: Edge<V> :: multiset(OutEdges(h, x.from))[x] == multiset(OutEdges(g, x.from))[x] + added[x]
    ensures multiset(AllEdges(h)) == multiset(AllEdges(g)) + added
    ensures |AllEdges(h)| == |AllEdges(g)| + |added|
  {
    EdgeMultiplicity(g);
    EdgeMultiplicity(h);
    PointwiseSum(multiset(AllEdges(h)), multiset(AllEdges(g)), added);
    SizeOfSum(AllEdges(h), AllEdges(g), added);
  }

  lemma AppendKeepsKeyed<V(!new)>(m: map<V, seq<Edge<V>>>, k: V, e: Edge<V>, reversed: bool)
    requires KeyedBy(m, reversed) && Near(e, reversed) == k
    ensures KeyedBy(AppendEdge(m, k, e), reversed)
  {
    var r := AppendEdge(m, k, e);
    forall j, x | j in r && x in r[j] ensures Near(x, reversed) == j {
      assert x in ListOf(r, j);
      if j != k || x != e {
        assert x in ListOf(m, j);
      }
    }
  }

  /** Adds `e`, first adding any endpoint that is not yet a vertex. */
  function AddEdge<V(!new)>(g: Graph<V>, e: Edge<V>): (r: Graph<V>)
    requires Valid(g)
    ensures Valid(r)
    ensures forall x :: x in r.vertices <==> x in g.vertices || x == e.from || x == e.to
    ensures g.vertices <= r.vertices
    ensures r.outEdges.Keys == g.outEdges.Keys + {e.from} && r.inEdges.Keys == g.inEdges.Keys + {e.to}
    ensures OutEdges(r, e.from) == OutEdges(g, e.from) + [e]
    ensures InEdges(r, e.to) == InEdges(g, e.to) + [e]
    ensures forall v :: v != e.from ==> OutEdges(r, v) == OutEdges(g, v)
    ensures forall v :: v != e.to ==> InEdges(r, v) == InEdges(g, v)
    ensures r.edgeCount == g.edgeCount + 1
    ensures multiset(AllEdges(r)) == multiset(AllEdges(g)) + multiset{e}
  {
    var g1 := AddVertex(g, e.from).0;
    var g2 := AddVertex(g1, e.to).0;
    SameIndexesSameEdges(g, g2);
    Link(g2, e)
  }

  /** Adds each edge of `es` in turn. */
  function AddEdges<V(!new)>(g: Graph<V>, es: seq<Edge<V>>): (r: Graph<V>)
    requires Valid(g)
    ensures Valid(r)
    ensures forall x :: x in r.vertices <==> x in g.vertices || x in Ends(es)
    ensures r.edgeCount == g.edgeCount + |es|
    ensures multiset(AllEdges(r)) == multiset(AllEdges(g)) + multiset(es)
    decreases |es|
  {
    if |es| == 0 then
      assert multiset(es) == multiset{};
      g
    else
      var h := AddEdge(g, es[0]);
      var r := AddEdges(h, es[1..]);
      SumStep(multiset(AllEdges(g)), multiset(AllEdges(h)), multiset(AllEdges(r)), es);
      r
  }

  /** Adding edges one after the other appends each to its source's out-list, in the order
      given. */
  lemma {:induction false} AddEdgesOut<V(!new)>(g: Graph<V>, es: seq<Edge<V>>, v: V)
    requires Valid(g)
    ensures OutEdges(AddEdges(g, es), v) == OutEdges(g, v) + Filter(es, StartsAt(v))
    decreases |es|
  {
    if |es| == 0 {
      assert OutEdges(g, v) + [] == OutEdges(g, v);
    } else {
      var h := AddEdge(g, es[0]);
      var head := if StartsAt(v)(es[0]) then [es[0]] else [];
      OutAfterAdd(g, es[0], v);
      AddEdgesOut(h, es[1..], v);
      AppendAssociates(OutEdges(g, v), head, Filter(es[1..], StartsAt(v)));
    }
  }

  /** One added edge lands at the end of its source's out-list. */
  lemma OutAfterAdd<V(!new)>(g: Graph<V>, e: Edge<V>, v: V)
    requires Valid(g)
    ensures OutEdges(AddEdge(g, e), v) == OutEdges(g, v) + (if StartsAt(v)(e) then [e] else [])
  {
    if e.from != v {
      assert OutEdges(g, v) + [] == OutEdges(g, v);
    }
  }

  /** The endpoints of the edges `es`. */
  function Ends<V>(es: seq<Edge<V>>): set<V> {
    if |es| == 0 then {} else {es[0].from, es[0].to} + Ends(es[1..])
  }

  /* ---------------------------------------------------------------- removals */

  /** Removes one occurrence of `e`: from its target's in-list first and, only when that
      succeeded, from its source's out-list. Reports whether both removals happened. */
  function RemoveEdge<V(!new)>(g: Graph<V>, e: Edge<V>): (r: (Graph<V>, bool))
    requires Valid(g)
    ensures Valid(r.0)
    ensures r.1 <==> e in AllEdges(g)
    ensures !r.1 ==> r.0 == g
    ensures r.0.vertices == g.vertices
    ensures r.0.outEdges.Keys == g.outEdges.Keys && r.0.inEdges.Keys == g.inEdges.Keys
    ensures multiset(AllEdges(r.0)) == multiset(AllEdges(g)) - multiset{e}
    ensures r.0.edgeCount == if r.1 then g.edgeCount - 1 else g.edgeCount
  {
    InAllEdges(g, e);
    if e.to in g.inEdges && e.from in g.outEdges && e in g.inEdges[e.to] then
      var ins := g.inEdges[e.to := RemoveFirst(g.inEdges[e.to], e)];
      if e in g.outEdges[e.from] then
        UnlinkValid(g, e);
        (Unlink(g, e), true)
      else
        (g.(inEdges := ins), false)
    else
      NothingToRemove(g, e);
      (g, false)
  }

  /** Both removals of `RemoveEdge` together, with the counter lowered. */
  function Unlink<V(!new)>(g: Graph<V>, e: Edge<V>): Graph<V>
    requires e.from in g.outEdges && e.to in g.inEdges
  {
    g.(inEdges := g.inEdges[e.to := RemoveFirst(g.inEdges[e.to], e)],
       outEdges := g.outEdges[e.from := RemoveFirst(g.outEdges[e.from], e)],
       edgeCount := g.edgeCount - 1)
  }

  /** Removing an edge right after adding it succeeds and restores the edge multiset and the counter. */
  lemma AddThenRemove<V(!new)>(g: Graph<V>, e: Edge<V>)
    requires Valid(g)
    ensures var r := RemoveEdge(AddEdge(g, e), e);
      && r.1
      && multiset(AllEdges(r.0)) == multiset(AllEdges(g))
      && r.0.edgeCount == g.edgeCount
  {
    var h := AddEdge(g, e);
    AddThenTake(multiset(AllEdges(g)), e);
    assert e in multiset(AllEdges(h));
  }

  /** When the edge was not stored before, adding and then removing it restores every list exactly. */
  lemma AddThenRemoveLists<V(!new)>(g: Graph<V>, e: Edge<V>)
    requires Valid(g) && e !in AllEdges(g)
    ensures var r := RemoveEdge(AddEdge(g, e), e).0;
      forall v :: OutEdges(r, v) == OutEdges(g, v) && InEdges(r, v) == InEdges(g, v)
  {
    var h := AddEdge(g, e);
    InAllEdges(g, e);
    Endpoints(g, e.to, e);
    assert e in OutEdges(h, e.from) && e in InEdges(h, e.to);
    assert RemoveEdge(h, e).0 == Unlink(h, e);
    var r := Unlink(h, e);
    RemoveFirstAppended(OutEdges(g, e.from), e);
    RemoveFirstAppended(InEdges(g, e.to), e);
    assert OutEdges(r, e.from) == RemoveFirst(OutEdges(h, e.from), e);
    assert InEdges(r, e.to) == RemoveFirst(InEdges(h, e.to), e);
    UnlinkLists(h, e);
    forall v ensures OutEdges(r, v) == OutEdges(g, v) && InEdges(r, v) == InEdges(g, v) {
      if v != e.from {
        assert OutEdges(r, v) == OutEdges(h, v);
      }
      if v != e.to {
        assert InEdges(r, v) == InEdges(h, v);
      }
    }
  }

  /** Removing an edge changes only its source's out-list and its target's in-list, each by one occurrence. */
  lemma RemoveEdgeLists<V(!new)>(g: Graph<V>, e: Edge<V>)
    requires Valid(g)
    ensures var r := RemoveEdge(g, e).0;
      && multiset(OutEdges(r, e.from)) == multiset(OutEdges(g, e.from)) - multiset{e}
      && multiset(InEdges(r, e.to)) == multiset(InEdges(g, e.to)) - multiset{e}
      && (forall v :: v != e.from ==> OutEdges(r, v) == OutEdges(g, v))
      && (forall v :: v != e.to ==> InEdges(r, v) == InEdges(g, v))
  {
    InAllEdges(g, e);
    if e in OutEdges(g, e.from) {
      Endpoints(g, e.from, e);
      assert RemoveEdge(g, e).0 == Unlink(g, e);
      UnlinkLists(g, e);
    } else {
      Endpoints(g, e.to, e);
      assert e !in InEdges(g, e.to);
      assert RemoveEdge(g, e).0 == g;
      DiffAbsent(multiset(OutEdges(g, e.from)), e);
      DiffAbsent(multiset(InEdges(g, e.to)), e);
    }
  }

  lemma UnlinkLists<V(!new)>(g: Graph<V>, e: Edge<V>)
    requires e.from in g.outEdges && e.to in g.inEdges
    ensures var r := Unlink(g, e);
      && multiset(OutEdges(r, e.from)) == multiset(OutEdges(g, e.from)) - multiset{e}
      && multiset(InEdges(r, e.to)) == multiset(InEdges(g, e.to)) - multiset{e}
      && (forall v :: v != e.from ==> OutEdges(r, v) == OutEdges(g, v))
      && (forall v :: v != e.to ==> InEdges(r, v) == InEdges(g, v))
  {
  }

  lemma NothingToRemove<V(!new)>(g: Graph<V>, e: Edge<V>)
    requires Valid(g) && e !in OutEdges(g, e.from)
    ensures multiset(AllEdges(g)) - multiset{e} == multiset(AllEdges(g))
  {
    InAllEdges(g, e);
    DiffAbsent(multiset(AllEdges(g)), e);
  }

  lemma UnlinkValid<V(!new)>(g: Graph<V>, e: Edge<V>)
    requires Valid(g) && e in OutEdges(g, e.from) && e in InEdges(g, e.to)
    ensures e.from in g.outEdges && e.to in g.inEdges
    ensures Valid(Unlink(g, e))
    ensures multiset(AllEdges(g)) == multiset(AllEdges(Unlink(g, e))) + multiset{e}
  {
    var r := Unlink(g, e);
    RemoveKeepsKeyed(g.outEdges, e.from, e, false);
    RemoveKeepsKeyed(g.inEdges, e.to, e, true);
    assert Shaped(r);
    UnlinkCounts(g, e);
    assert Mirrored(r);
    EdgesFromCounts(r, g, multiset{e});
  }

  lemma UnlinkCounts<V(!new)>(g: Graph<V>, e: Edge<V>)
    requires e.from in g.outEdges && e.to in g.inEdges
    requires e in OutEdges(g, e.from) && e in InEdges(g, e.to)
    ensures forall x: Edge<V> :: multiset(OutEdges(g, x.from))[x] == multiset(OutEdges(Unlink(g, e), x.from))[x] + multiset{e}[x]
    ensures forall x: Edge<V> :: multiset(InEdges(g, x.to))[x] == multiset(InEdges(Unlink(g, e), x.to))[x] + multiset{e}[x]
  {
    var r := Unlink(g, e);
    UnlinkLists(g, e);
    forall x: Edge<V>
      ensures multiset(OutEdges(g, x.from))[x] == multiset(OutEdges(r, x.from))[x] + multiset{e}[x]
    {
      if x.from != e.from {
        assert OutEdges(r, x.from) == OutEdges(g, x.from);
      }
    }
    forall x: Edge<V>
      ensures multiset(InEdges(g, x.to))[x] == multiset(InEdges(r, x.to))[x] + multiset{e}[x]
    {
      if x.to != e.to {
        assert InEdges(r, x.to) == InEdges(g, x.to);
      }
    }
  }

  lemma RemoveKeepsKeyed<V(!new)>(m: map<V, seq<Edge<V>>>, k: V, e: Edge<V>, reversed: bool)
    requires KeyedBy(m, reversed) && k in m
    ensures KeyedBy(m[k := RemoveFirst(m[k], e)], reversed)
  {
    var r := m[k := RemoveFirst(m[k], e)];
    forall j, x | j in r && x in r[j] ensures Near(x, reversed) == j {
      if j == k {
        assert multiset(r[j])[x] > 0;
        assert x in m[k];
      }
    }
  }

  /** Takes one occurrence of each edge of `es` out of the list `m` files it under
      (the loop of `RemoveEdgesForVertex`, applied to the opposite index). */
  function RemoveMirrors<V(!new)>(m: map<V, seq<Edge<V>>>, es: seq<Edge<V>>, reversed: bool): (r: map<V, seq<Edge<V>>>)
    requires KeyedBy(m, !reversed)
    requires forall e :: e in es ==> Far(e, reversed) in m
    ensures r.Keys == m.Keys
    ensures forall k :: k in m ==> multiset(r[k]) == multiset(m[k]) - multiset(es)
    decreases |es|
  {
    if |es| == 0 then
      MirrorsNone(m, es);
      m
    else
      var k := Far(es[0], reversed);
      var m1 := m[k := RemoveFirst(m[k], es[0])];
      RemoveKeepsKeyed(m, k, es[0], !reversed);
      assert m1.Keys == m.Keys;
      assert forall e :: e in es[1..] ==> Far(e, reversed) in m1 by {
        assert forall e :: e in es[1..] ==> e in es;
      }
      var r := RemoveMirrors(m1, es[1..], reversed);
      RemoveMirrorsStep(m, es, reversed, m1, r);
      r
  }

  lemma MirrorsNone<V>(m: map<V, seq<Edge<V>>>, es: seq<Edge<V>>)
    requires |es| == 0
    ensures forall k :: k in m ==> multiset(m[k]) - multiset(es) == multiset(m[k])
  {
    forall k | k in m ensures multiset(m[k]) - multiset(es) == multiset(m[k]) {
      DiffNone(multiset(m[k]), es);
    }
  }

  lemma RemoveMirrorsStep<V(!new)>(m: map<V, seq<Edge<V>>>, es: seq<Edge<V>>, reversed: bool,
                                   m1: map<V, seq<Edge<V>>>, r: map<V, seq<Edge<V>>>)
    requires |es| > 0 && KeyedBy(m, !reversed) && Far(es[0], reversed) in m
    requires m1 == m[Far(es[0], reversed) := RemoveFirst(m[Far(es[0], reversed)], es[0])]
    requires r.Keys == m1.Keys
    requires forall k :: k in m1 ==> multiset(r[k]) == multiset(m1[k]) - multiset(es[1..])
    ensures forall k :: k in m ==> multiset(r[k]) == multiset(m[k]) - multiset(es)
  {
    forall k | k in m ensures multiset(r[k]) == multiset(m[k]) - multiset(es) {
      MirrorStepAt(m, es, reversed, m1, k);
      DiffStep(multiset(m[k]), multiset(m1[k]), multiset(r[k]), es);
    }
  }

  /** Taking `es[0]` out of the list it is filed under leaves every other list without it. */
  lemma MirrorStepAt<V(!new)>(m: map<V, seq<Edge<V>>>, es: seq<Edge<V>>, reversed: bool,
                              m1: map<V, seq<Edge<V>>>, k: V)
    requires |es| > 0 && KeyedBy(m, !reversed) && Far(es[0], reversed) in m && k in m
    requires m1 == m[Far(es[0], reversed) := RemoveFirst(m[Far(es[0], reversed)], es[0])]
    ensures multiset(m1[k]) == multiset(m[k]) - multiset{es[0]}
  {
    if k != Far(es[0], reversed) {
      assert es[0] in m[k] ==> Near(es[0], !reversed) == k;
      assert es[0] !in m[k];
      DiffAbsent(multiset(m[k]), es[0]);
    }
  }

  /** Lists that only lost elements are still filed under the right key. */
  lemma ShrunkKeyed<V(!new)>(m: map<V, seq<Edge<V>>>, r: map<V, seq<Edge<V>>>, es: seq<Edge<V>>, reversed: bool)
    requires KeyedBy(m, reversed) && r.Keys == m.Keys
    requires forall k :: k in m ==> multiset(r[k]) == multiset(m[k]) - multiset(es)
    ensures KeyedBy(r, reversed)
  {
    forall k, x | k in r && x in r[k] ensures Near(x, reversed) == k {
      assert multiset(r[k])[x] > 0;
      assert x in m[k];
    }
  }

  /** Holds of the edges an index files under some key other than `v`. */
  function NotFiledUnder<V(==)>(v: V, reversed: bool): Edge<V> -> bool {
    if reversed then NotTo(v) else NotFrom(v)
  }

  /** Removing edges that `p` rejects leaves the edges `p` keeps, in their order, in every list. */
  lemma {:induction false} MirrorsFiltered<V(!new)>(m: map<V, seq<Edge<V>>>, es: seq<Edge<V>>, reversed: bool,
                                                    p: Edge<V> -> bool, k: V)
    requires KeyedBy(m, !reversed)
    requires forall e :: e in es ==> Far(e, reversed) in m
    requires forall e :: e in es ==> !p(e)
    requires k in m
    ensures Filter(RemoveMirrors(m, es, reversed)[k], p) == Filter(m[k], p)
    decreases |es|
  {
    if |es| > 0 {
      var j := Far(es[0], reversed);
      var m1 := m[j := RemoveFirst(m[j], es[0])];
      RemoveKeepsKeyed(m, j, es[0], !reversed);
      assert forall e :: e in es[1..] ==> e in es;
      MirrorsFiltered(m1, es[1..], reversed, p, k);
      if k == j {
        FilterRemoveFirst(m[j], es[0], p);
      }
    }
  }

  /** Taking out the edges filed under `v` leaves, in every list, the edges filed elsewhere in their order. */
  lemma MirrorsFilteredAll<V(!new)>(m: map<V, seq<Edge<V>>>, es: seq<Edge<V>>, reversed: bool, v: V)
    requires KeyedBy(m, !reversed)
    requires forall e :: e in es ==> Far(e, reversed) in m
    ensures (forall e :: e in es ==> Near(e, reversed) == v) ==>
              forall k :: k in m ==> Filter(RemoveMirrors(m, es, reversed)[k], NotFiledUnder(v, reversed)) == Filter(m[k], NotFiledUnder(v, reversed))
  {
    if forall e :: e in es ==> Near(e, reversed) == v {
      forall k | k in m
        ensures Filter(RemoveMirrors(m, es, reversed)[k], NotFiledUnder(v, reversed)) == Filter(m[k], NotFiledUnder(v, reversed))
      {
        MirrorsFiltered(m, es, reversed, NotFiledUnder(v, reversed), k);
      }
    }
  }

  /** Lists that lost every edge `p` rejects, and nothing `p` keeps, are the filtered originals. */
  lemma FilteredLists<V(!new)>(m: map<V, seq<Edge<V>>>, r: map<V, seq<Edge<V>>>, removed: seq<Edge<V>>, p: Edge<V> -> bool)
    requires r.Keys == m.Keys
    requires forall k :: k in m ==> multiset(r[k]) == multiset(m[k]) - multiset(removed)
    requires forall k :: k in m ==> Filter(r[k], p) == Filter(m[k], p)
    requires forall k, x :: k in m && x in m[k] && !p(x) ==> multiset(m[k])[x] <= multiset(removed)[x]
    ensures forall k :: ListOf(r, k) == Filter(ListOf(m, k), p)
  {
    forall k | k in m ensures r[k] == Filter(m[k], p) {
      forall x | x in r[k] ensures p(x) {
        assert multiset(r[k])[x] > 0;
      }
      FilterKeepsAll(r[k], p);
    }
  }

  /** Drops the list `primary` keeps for `v` after taking each of its edges out of `secondary`,
      lowering `count` once per edge. `reversed` says that `primary` is the in-index. */
  function RemoveEdgesForVertex<V(!new)>(v: V, primary: map<V, seq<Edge<V>>>, secondary: map<V, seq<Edge<V>>>,
                                         reversed: bool, count: int): (r: (map<V, seq<Edge<V>>>, map<V, seq<Edge<V>>>, int))
    requires KeyedBy(secondary, !reversed)
    requires forall e :: e in ListOf(primary, v) ==> Far(e, reversed) in secondary
    ensures v !in r.0 && forall k :: k != v ==> ListOf(r.0, k) == ListOf(primary, k)
    ensures r.0.Keys == primary.Keys - {v}
    ensures r.1.Keys == secondary.Keys && KeyedBy(r.1, !reversed)
    ensures forall k :: k in secondary ==> multiset(r.1[k]) == multiset(secondary[k]) - multiset(ListOf(primary, v))
    ensures (forall e :: e in ListOf(primary, v) ==> Near(e, reversed) == v) ==>
              forall k :: k in secondary ==> Filter(r.1[k], NotFiledUnder(v, reversed)) == Filter(secondary[k], NotFiledUnder(v, reversed))
    ensures r.2 == count - |ListOf(primary, v)|
  {
    if v in primary then
      var r1 := RemoveMirrors(secondary, primary[v], reversed);
      ShrunkKeyed(secondary, r1, primary[v], !reversed);
      MirrorsFilteredAll(secondary, primary[v], reversed, v);
      (primary - {v}, r1, count - |primary[v]|)
    else
      MirrorsNone(secondary, ListOf(primary, v));
      (primary, secondary, count)
  }

  /** Removes every edge leaving `v`, from both indexes. */
  function ClearOutEdges<V(!new)>(g: Graph<V>, v: V): (r: Graph<V>)
    requires Valid(g)
    ensures Valid(r)
    ensures r.vertices == g.vertices
    ensures r.outEdges.Keys == g.outEdges.Keys - {v}
    ensures forall u :: u != v ==> OutEdges(r, u) == OutEdges(g, u)
    ensures r.inEdges.Keys == g.inEdges.Keys
    ensures forall u :: multiset(InEdges(r, u)) == multiset(InEdges(g, u)) - multiset(OutEdges(g, v))
    ensures forall u :: InEdges(r, u) == Filter(InEdges(g, u), NotFrom(v))
    ensures r.edgeCount == g.edgeCount - |OutEdges(g, v)|
    ensures forall x: Edge<V> :: multiset(AllEdges(r))[x] == if x.from == v then 0 else multiset(AllEdges(g))[x]
  {
    FarEndsFiled(g, v);
    var (outs, ins, count) := RemoveEdgesForVertex(v, g.outEdges, g.inEdges, false, g.edgeCount);
    var r := g.(outEdges := outs, inEdges := ins, edgeCount := count);
    ClearOutValid(g, v, r);
    ClearOutOrder(g, v, ins);
    r
  }

  /** Removes every edge entering `v`, from both indexes. */
  function ClearInEdges<V(!new)>(g: Graph<V>, v: V): (r: Graph<V>)
    requires Valid(g)
    ensures Valid(r)
    ensures r.vertices == g.vertices
    ensures r.inEdges.Keys == g.inEdges.Keys - {v}
    ensures forall u :: u != v ==> InEdges(r, u) == InEdges(g, u)
    ensures r.outEdges.Keys == g.outEdges.Keys
    ensures forall u :: multiset(OutEdges(r, u)) == multiset(OutEdges(g, u)) - multiset(InEdges(g, v))
    ensures forall u :: OutEdges(r, u) == Filter(OutEdges(g, u), NotTo(v))
    ensures r.edgeCount == g.edgeCount - |InEdges(g, v)|
    ensures forall x: Edge<V> :: multiset(AllEdges(r))[x] == if x.to == v then 0 else multiset(AllEdges(g))[x]
  {
    FarEndsFiled(g, v);
    var (ins, outs, count) := RemoveEdgesForVertex(v, g.inEdges, g.outEdges, true, g.edgeCount);
    var r := g.(outEdges := outs, inEdges := ins, edgeCount := count);
    ClearInValid(g, v, r);
    ClearInOrder(g, v, outs);
    r
  }

  /** The in-lists left after clearing `v`'s out-edges are the old ones without the edges from `v`. */
  lemma ClearOutOrder<V(!new)>(g: Graph<V>, v: V, ins: map<V, seq<Edge<V>>>)
    requires Valid(g) && ins.Keys == g.inEdges.Keys
    requires forall k :: k in g.inEdges ==> multiset(ins[k]) == multiset(g.inEdges[k]) - multiset(OutEdges(g, v))
    requires (forall e :: e in OutEdges(g, v) ==> Near(e, false) == v) ==>
               forall k :: k in g.inEdges ==> Filter(ins[k], NotFiledUnder(v, false)) == Filter(g.inEdges[k], NotFiledUnder(v, false))
    ensures forall u :: ListOf(ins, u) == Filter(InEdges(g, u), NotFrom(v))
  {
    assert NotFiledUnder(v, false) == NotFrom(v);
    assert forall e :: e in OutEdges(g, v) ==> Near(e, false) == v;
    forall k, x | k in g.inEdges && x in g.inEdges[k] && !NotFrom(v)(x)
      ensures multiset(g.inEdges[k])[x] <= multiset(OutEdges(g, v))[x]
    {
      assert Near(x, !false) == k;
      assert multiset(InEdges(g, x.to))[x] == multiset(OutEdges(g, x.from))[x];
    }
    FilteredLists(g.inEdges, ins, OutEdges(g, v), NotFrom(v));
  }

  /** The out-lists left after clearing `v`'s in-edges are the old ones without the edges into `v`. */
  lemma ClearInOrder<V(!new)>(g: Graph<V>, v: V, outs: map<V, seq<Edge<V>>>)
    requires Valid(g) && outs.Keys == g.outEdges.Keys
    requires forall k :: k in g.outEdges ==> multiset(outs[k]) == multiset(g.outEdges[k]) - multiset(InEdges(g, v))
    requires (forall e :: e in InEdges(g, v) ==> Near(e, true) == v) ==>
               forall k :: k in g.outEdges ==> Filter(outs[k], NotFiledUnder(v, true)) == Filter(g.outEdges[k], NotFiledUnder(v, true))
    ensures forall u :: ListOf(outs, u) == Filter(OutEdges(g, u), NotTo(v))
  {
    assert NotFiledUnder(v, true) == NotTo(v);
    assert forall e :: e in InEdges(g, v) ==> Near(e, true) == v;
    forall k, x | k in g.outEdges && x in g.outEdges[k] && !NotTo(v)(x)
      ensures multiset(g.outEdges[k])[x] <= multiset(InEdges(g, v))[x]
    {
      assert Near(x, !true) == k;
      assert multiset(InEdges(g, x.to))[x] == multiset(OutEdges(g, x.from))[x];
    }
    FilteredLists(g.outEdges, outs, InEdges(g, v), NotTo(v));
  }

  /** The far endpoint of every edge in a list has a list in the opposite index. */
  lemma FarEndsFiled<V(!new)>(g: Graph<V>, v: V)
    requires Valid(g)
    ensures forall e :: e in OutEdges(g, v) ==> e.to in g.inEdges
    ensures forall e :: e in InEdges(g, v) ==> e.from in g.outEdges
  {
    forall e | e in OutEdges(g, v) ensures e.to in g.inEdges {
      Endpoints(g, v, e);
    }
    forall e | e in InEdges(g, v) ensures e.from in g.outEdges {
      Endpoints(g, v, e);
    }
  }

  lemma ClearOutValid<V(!new)>(g: Graph<V>, v: V, r: Graph<V>)
    requires Valid(g)
    requires v !in r.outEdges && r.outEdges.Keys <= g.outEdges.Keys
    requires forall k :: k != v ==> OutEdges(r, k) == OutEdges(g, k)
    requires r.inEdges.Keys == g.inEdges.Keys && KeyedBy(r.inEdges, true)
    requires forall k :: k in g.inEdges ==> multiset(r.inEdges[k]) == multiset(g.inEdges[k]) - multiset(OutEdges(g, v))
    requires r.vertices == g.vertices
    requires r.edgeCount == g.edgeCount - |OutEdges(g, v)|
    ensures Valid(r)
    ensures forall u :: multiset(InEdges(r, u)) == multiset(InEdges(g, u)) - multiset(OutEdges(g, v))
    ensures forall x: Edge<V> :: multiset(AllEdges(r))[x] == if x.from == v then 0 else multiset(AllEdges(g))[x]
  {
    var removed := OutEdges(g, v);
    assert forall k :: k in r.outEdges ==> ListOf(r.outEdges, k) == OutEdges(r, k) == OutEdges(g, k);
    SubIndexKeyed(g.outEdges, r.outEdges, false);
    assert Shaped(r);
    ListsShrink(g.inEdges, r.inEdges, removed);
    ClearOutCounts(g, v, r);
    assert Mirrored(r);
    EdgesFromCounts(r, g, multiset(removed));
    EdgeMultiplicity(g);
    EdgeMultiplicity(r);
  }

  lemma ClearOutCounts<V(!new)>(g: Graph<V>, v: V, r: Graph<V>)
    requires Valid(g)
    requires forall k :: k != v ==> OutEdges(r, k) == OutEdges(g, k)
    requires v !in r.outEdges
    requires forall u :: multiset(InEdges(r, u)) == multiset(InEdges(g, u)) - multiset(OutEdges(g, v))
    ensures forall x: Edge<V> :: multiset(OutEdges(g, x.from))[x] == multiset(OutEdges(r, x.from))[x] + multiset(OutEdges(g, v))[x]
    ensures forall x: Edge<V> :: multiset(OutEdges(r, x.from))[x] == multiset(InEdges(r, x.to))[x]
  {
    var removed := OutEdges(g, v);
    forall x: Edge<V>
      ensures multiset(OutEdges(g, x.from))[x] == multiset(OutEdges(r, x.from))[x] + multiset(removed)[x]
      ensures multiset(OutEdges(r, x.from))[x] == multiset(InEdges(r, x.to))[x]
    {
      if x in removed {
        Endpoints(g, v, x);
      }
      assert multiset(InEdges(r, x.to))[x] == (multiset(InEdges(g, x.to)) - multiset(removed))[x];
    }
  }

  lemma ClearInValid<V(!new)>(g: Graph<V>, v: V, r: Graph<V>)
    requires Valid(g)
    requires v !in r.inEdges && r.inEdges.Keys <= g.inEdges.Keys
    requires forall k :: k != v ==> InEdges(r, k) == InEdges(g, k)
    requires r.outEdges.Keys == g.outEdges.Keys && KeyedBy(r.outEdges, false)
    requires forall k :: k in g.outEdges ==> multiset(r.outEdges[k]) == multiset(g.outEdges[k]) - multiset(InEdges(g, v))
    requires r.vertices == g.vertices
    requires r.edgeCount == g.edgeCount - |InEdges(g, v)|
    ensures Valid(r)
    ensures forall u :: multiset(OutEdges(r, u)) == multiset(OutEdges(g, u)) - multiset(InEdges(g, v))
    ensures forall x: Edge<V> :: multiset(AllEdges(r))[x] == if x.to == v then 0 else multiset(AllEdges(g))[x]
  {
    var removed := InEdges(g, v);
    assert forall k :: k in r.inEdges ==> ListOf(r.inEdges, k) == InEdges(r, k) == InEdges(g, k);
    SubIndexKeyed(g.inEdges, r.inEdges, true);
    assert Shaped(r);
    ListsShrink(g.outEdges, r.outEdges, removed);
    ClearInCounts(g, v, r);
    assert Mirrored(r);
    EdgesFromCounts(r, g, multiset(removed));
    EdgeMultiplicity(g);
    EdgeMultiplicity(r);
  }

  lemma ClearInCounts<V(!new)>(g: Graph<V>, v: V, r: Graph<V>)
    requires Valid(g)
    requires forall k :: k != v ==> InEdges(r, k) == InEdges(g, k)
    requires v !in r.inEdges
    requires forall u :: multiset(OutEdges(r, u)) == multiset(OutEdges(g, u)) - multiset(InEdges(g, v))
    ensures forall x: Edge<V> :: multiset(OutEdges(g, x.from))[x] == multiset(OutEdges(r, x.from))[x] + multiset(InEdges(g, v))[x]
    ensures forall x: Edge<V> :: multiset(OutEdges(r, x.from))[x] == multiset(InEdges(r, x.to))[x]
  {
    var removed := InEdges(g, v);
    forall x: Edge<V>
      ensures multiset(OutEdges(g, x.from))[x] == multiset(OutEdges(r, x.from))[x] + multiset(removed)[x]
      ensures multiset(OutEdges(r, x.from))[x] == multiset(InEdges(r, x.to))[x]
    {
      if x in removed {
        Endpoints(g, v, x);
      }
      assert multiset(OutEdges(r, x.from))[x] == (multiset(OutEdges(g, x.from)) - multiset(removed))[x];
    }
  }

  /** An index with a key dropped and the other lists unchanged stays keyed. */
  lemma SubIndexKeyed<V(!new)>(m: map<V, seq<Edge<V>>>, r: map<V, seq<Edge<V>>>, reversed: bool)
    requires KeyedBy(m, reversed) && r.Keys <= m.Keys
    requires forall k :: k in r ==> ListOf(r, k) == ListOf(m, k)
    ensures KeyedBy(r, reversed)
  {
    forall k, x | k in r && x in r[k] ensures Near(x, reversed) == k {
      assert ListOf(r, k) == ListOf(m, k);
      assert x in m[k];
    }
  }

  /** Per-key multiset subtraction, read through `ListOf` for every key. */
  lemma ListsShrink<V(!new)>(m: map<V, seq<Edge<V>>>, r: map<V, seq<Edge<V>>>, removed: seq<Edge<V>>)
    requires r.Keys == m.Keys
    requires forall k :: k in m ==> multiset(r[k]) == multiset(m[k]) - multiset(removed)
    ensures forall u :: multiset(ListOf(r, u)) == multiset(ListOf(m, u)) - multiset(removed)
  {
    forall u ensures multiset(ListOf(r, u)) == multiset(ListOf(m, u)) - multiset(removed) {
      if u !in m {
        assert multiset(ListOf(m, u)) - multiset(removed) == multiset{};
      }
    }
  }

  /** When the edges matching `p` are exactly the ones that went, the counter dropped by their number. */
  lemma RemovedCount<V(!new)>(g: Graph<V>, r: Graph<V>, p: Edge<V> -> bool)
    requires Valid(g) && Valid(r)
    requires forall x: Edge<V> :: multiset(AllEdges(r))[x] == if p(x) then 0 else multiset(AllEdges(g))[x]
    ensures r.edgeCount == g.edgeCount - |Filter(AllEdges(g), p)|
    ensures multiset(AllEdges(g)) == multiset(AllEdges(r)) + multiset(Filter(AllEdges(g), p))
  {
    forall x: Edge<V> ensures multiset(AllEdges(g))[x] == multiset(AllEdges(r))[x] + multiset(Filter(AllEdges(g), p))[x] {
      FilterMultiplicity(AllEdges(g), p, x);
    }
    PointwiseSum(multiset(AllEdges(g)), multiset(AllEdges(r)), multiset(Filter(AllEdges(g), p)));
    SizeOfSum(AllEdges(g), AllEdges(r), multiset(Filter(AllEdges(g), p)));
  }

  /** Removes every edge entering and then every edge leaving `v`. */
  function ClearEdges<V(!new)>(g: Graph<V>, v: V): (r: Graph<V>)
    requires Valid(g)
    ensures Valid(r)
    ensures r.vertices == g.vertices
    ensures r.outEdges.Keys == g.outEdges.Keys - {v} && r.inEdges.Keys == g.inEdges.Keys - {v}
    ensures OutEdges(r, v) == [] && InEdges(r, v) == []
    ensures forall u :: u != v ==> OutEdges(r, u) == Filter(OutEdges(g, u), NotTo(v))
    ensures forall u :: u != v ==> InEdges(r, u) == Filter(InEdges(g, u), NotFrom(v))
    ensures forall x: Edge<V> :: multiset(AllEdges(r))[x] == if x.from == v || x.to == v then 0 else multiset(AllEdges(g))[x]
    ensures r.edgeCount == g.edgeCount - |Filter(AllEdges(g), Touches(v))|
  {
    var r := ClearOutEdges(ClearInEdges(g, v), v);
    RemovedCount(g, r, Touches(v));
    r
  }

  /** Removes `v` and every edge touching it; reports whether `v` was a vertex. */
  function RemoveVertex<V(!new)>(g: Graph<V>, v: V): (r: (Graph<V>, bool))
    requires Valid(g)
    ensures Valid(r.0)
    ensures r.1 <==> v in g.vertices
    ensures !r.1 ==> r.0 == g
    ensures forall x :: x in r.0.vertices <==> x in g.vertices && x != v
    ensures |r.0.vertices| == if r.1 then |g.vertices| - 1 else |g.vertices|
    ensures r.0.outEdges.Keys == g.outEdges.Keys - {v} && r.0.inEdges.Keys == g.inEdges.Keys - {v}
    ensures r.1 ==> forall u :: u != v ==> OutEdges(r.0, u) == Filter(OutEdges(g, u), NotTo(v))
    ensures r.1 ==> forall u :: u != v ==> InEdges(r.0, u) == Filter(InEdges(g, u), NotFrom(v))
    ensures r.1 ==> forall x: Edge<V> :: multiset(AllEdges(r.0))[x] == if x.from == v || x.to == v then 0 else multiset(AllEdges(g))[x]
    ensures r.1 ==> r.0.edgeCount == g.edgeCount - |Filter(AllEdges(g), Touches(v))|
  {
    if v !in g.vertices then
      NotAKey(g, v);
      (g, false)
    else
      var h := ClearEdges(g, v);
      var r := h.(vertices := Without(h.vertices, v));
      DropVertexValid(h, v, r);
      WithoutLength(h.vertices, v);
      (r, true)
  }

  lemma NotAKey<V(!new)>(g: Graph<V>, v: V)
    requires Valid(g) && v !in g.vertices
    ensures g.outEdges.Keys - {v} == g.outEdges.Keys && g.inEdges.Keys - {v} == g.inEdges.Keys
  {
  }

  /** Dropping a vertex that no index mentions keeps the invariant and the edges. */
  lemma DropVertexValid<V(!new)>(h: Graph<V>, v: V, r: Graph<V>)
    requires Valid(h) && v !in h.outEdges && v !in h.inEdges
    requires r == h.(vertices := Without(h.vertices, v))
    ensures Valid(r)
    ensures multiset(AllEdges(r)) == multiset(AllEdges(h))
  {
    WithoutKeepsNoDup(h.vertices, v);
    assert Shaped(r);
    SameIndexesSameEdges(h, r);
  }

  /** No stored edge touches a vertex the graph does not hold. */
  lemma NoEdgeTouches<V(!new)>(g: Graph<V>, v: V)
    requires Valid(g) && v !in g.vertices
    ensures forall u, e :: e in OutEdges(g, u) || e in InEdges(g, u) ==> e.from != v && e.to != v
  {
    forall u, e | e in OutEdges(g, u) || e in InEdges(g, u) ensures e.from != v && e.to != v {
      Endpoints(g, u, e);
    }
  }

  /** Removes each vertex of `vs` in turn. */
  function RemoveVertexRange<V(!new)>(g: Graph<V>, vs: seq<V>): (r: Graph<V>)
    requires Valid(g)
    ensures Valid(r)
    ensures forall x :: x in r.vertices <==> x in g.vertices && x !in vs
    ensures forall x: Edge<V> :: multiset(AllEdges(r))[x] == if x.from in vs || x.to in vs then 0 else multiset(AllEdges(g))[x]
    decreases |vs|
  {
    if |vs| == 0 then g
    else
      var h := RemoveVertex(g, vs[0]).0;
      RemoveVertexCounts(g, vs[0]);
      var r := RemoveVertexRange(h, vs[1..]);
      RangeStep(g, h, r, vs);
      r
  }

  /** `RemoveVertex` clears the edges touching `v` whether or not `v` was a vertex. */
  lemma RemoveVertexCounts<V(!new)>(g: Graph<V>, v: V)
    requires Valid(g)
    ensures forall x: Edge<V> :: multiset(AllEdges(RemoveVertex(g, v).0))[x] == if x.from == v || x.to == v then 0 else multiset(AllEdges(g))[x]
  {
    if !RemoveVertex(g, v).1 {
      forall x: Edge<V> | x.from == v || x.to == v ensures multiset(AllEdges(g))[x] == 0 {
        if multiset(AllEdges(g))[x] > 0 {
          StoredEndpoints(g, x);
        }
      }
    }
  }

  lemma RangeStep<V(!new)>(g: Graph<V>, h: Graph<V>, r: Graph<V>, vs: seq<V>)
    requires |vs| > 0
    requires forall x: Edge<V> :: multiset(AllEdges(h))[x] == if x.from == vs[0] || x.to == vs[0] then 0 else multiset(AllEdges(g))[x]
    requires forall x: Edge<V> :: multiset(AllEdges(r))[x] == if x.from in vs[1..] || x.to in vs[1..] then 0 else multiset(AllEdges(h))[x]
    requires forall x :: x in h.vertices <==> x in g.vertices && x != vs[0]
    requires forall x :: x in r.vertices <==> x in h.vertices && x !in vs[1..]
    ensures forall x :: x in r.vertices <==> x in g.vertices && x !in vs
    ensures forall x: Edge<V> :: multiset(AllEdges(r))[x] == if x.from in vs || x.to in vs then 0 else multiset(AllEdges(g))[x]
  {
    assert forall x :: x in vs <==> x == vs[0] || x in vs[1..] by {
      assert vs == [vs[0]] + vs[1..];
    }
  }

  /** Removes every vertex satisfying `p` together with its edges, and returns the vertices removed. */
  function RemoveVertexWhere<V(!new)>(g: Graph<V>, p: V -> bool): (r: (Graph<V>, seq<V>))
    requires Valid(g)
    ensures Valid(r.0)
    ensures NoDup(r.1) && forall x :: x in r.1 <==> x in g.vertices && p(x)
    ensures forall x :: x in r.0.vertices <==> x in g.vertices && !p(x)
    ensures forall x: Edge<V> :: multiset(AllEdges(r.0))[x] == if p(x.from) || p(x.to) then 0 else multiset(AllEdges(g))[x]
    ensures r.0.edgeCount == g.edgeCount - |Filter(AllEdges(g), EitherEnd(p))|
  {
    var removed := Filter(g.vertices, p);
    FilterKeepsNoDup(g.vertices, p);
    var h := if |removed| > 0 then RemoveVertexRange(g, removed) else g;
    forall x: Edge<V> ensures multiset(AllEdges(h))[x] == if EitherEnd(p)(x) then 0 else multiset(AllEdges(g))[x] {
      if multiset(AllEdges(g))[x] > 0 {
        StoredEndpoints(g, x);
      }
    }
    RemovedCount(g, h, EitherEnd(p));
    (h, removed)
  }

  /** Removes one occurrence of each edge of `es` in turn. */
  function RemoveEdgeRange<V(!new)>(g: Graph<V>, es: seq<Edge<V>>): (r: Graph<V>)
    requires Valid(g)
    ensures Valid(r)
    ensures r.vertices == g.vertices
    ensures multiset(AllEdges(r)) == multiset(AllEdges(g)) - multiset(es)
    decreases |es|
  {
    if |es| == 0 then
      DiffNone(multiset(AllEdges(g)), es);
      g
    else
      var h := RemoveEdge(g, es[0]).0;
      var r := RemoveEdgeRange(h, es[1..]);
      DiffStep(multiset(AllEdges(g)), multiset(AllEdges(h)), multiset(AllEdges(r)), es);
      r
  }

  /** Removes every edge satisfying `p` and returns the edges removed. */
  function RemoveEdgeWhere<V(!new)>(g: Graph<V>, p: Edge<V> -> bool): (r: (Graph<V>, seq<Edge<V>>))
    requires Valid(g)
    ensures Valid(r.0)
    ensures r.0.vertices == g.vertices
    ensures forall x: Edge<V> :: multiset(r.1)[x] == if p(x) then multiset(AllEdges(g))[x] else 0
    ensures forall x: Edge<V> :: multiset(AllEdges(r.0))[x] == if p(x) then 0 else multiset(AllEdges(g))[x]
    ensures r.0.edgeCount == g.edgeCount - |r.1|
  {
    var removed := Filter(AllEdges(g), p);
    var h := RemoveEdgeRange(g, removed);
    forall x: Edge<V> ensures multiset(AllEdges(h))[x] == if p(x) then 0 else multiset(AllEdges(g))[x] {
      FilterMultiplicity(AllEdges(g), p, x);
    }
    RemovedCount(g, h, p);
    (h, removed)
  }

  /** Removes every vertex and edge. */
  function Clear<V(!new)>(g: Graph<V>): (r: Graph<V>)
    requires Valid(g)
    ensures Valid(r)
    ensures |r.vertices| == 0 && |AllEdges(r)| == 0
    ensures forall v :: OutEdges(r, v) == [] && InEdges(r, v) == []
  {
    EmptyGraph()
  }

  /* ---------------------------------------------------------------- queries */

  /** The number of vertices: the number of distinct values stored. */
  function VertexCount<V(!new)>(g: Graph<V>): (n: nat)
    requires Valid(g)
    ensures n == |VertexSet(g)|
  {
    DistinctCount(g.vertices);
    |g.vertices|
  }

  lemma {:induction false} DistinctCount<V(!new)>(s: seq<V>)
    requires NoDup(s)
    ensures |set x | x in s| == |s|
  {
    if |s| > 0 {
      DistinctCount(s[1..]);
      assert (set x | x in s) == {s[0]} + (set x | x in s[1..]);
    }
  }

  /** The counter, which always equals the number of stored edges. */
  function EdgeCount<V(!new)>(g: Graph<V>): (n: int)
    requires Valid(g)
    ensures n == |AllEdges(g)| == |AllInEdges(g)|
  {
    IndexesAgree(g);
    g.edgeCount
  }

  function HasVertices<V(!new)>(g: Graph<V>): (b: bool)
    requires Valid(g)
    ensures b <==> exists v :: v in g.vertices
  {
    assert |g.vertices| > 0 ==> g.vertices[0] in g.vertices;
    |g.vertices| > 0
  }

  function HasEdges<V(!new)>(g: Graph<V>): (b: bool)
    requires Valid(g)
    ensures b <==> exists v :: v in g.vertices && |OutEdges(g, v)| > 0
  {
    HasEdgesWitness(g);
    g.edgeCount > 0
  }

  lemma HasEdgesWitness<V(!new)>(g: Graph<V>)
    requires Valid(g)
    ensures g.edgeCount > 0 <==> exists v :: v in g.vertices && |OutEdges(g, v)| > 0
  {
    if g.edgeCount > 0 {
      var e := AllEdges(g)[0];
      EdgeMultiplicity(g);
      assert multiset(AllEdges(g))[e] > 0;
      StoredEndpoints(g, e);
      assert e in OutEdges(g, e.from);
    }
    if exists v :: v in g.vertices && |OutEdges(g, v)| > 0 {
      var v :| v in g.vertices && |OutEdges(g, v)| > 0;
      var e := OutEdges(g, v)[0];
      Endpoints(g, v, e);
      InAllEdges(g, e);
    }
  }

  function ContainsVertex<V(!new)>(g: Graph<V>, v: V): (b: bool)
    ensures b <==> v in VertexSet(g)
  {
    v in g.vertices
  }

  /** The number of edges leaving `v`. */
  function OutDegree<V(!new)>(g: Graph<V>, v: V): (n: nat)
    requires Valid(g)
    ensures n == |Filter(AllEdges(g), StartsAt(v))|
  {
    OutListIsFilter(g, v);
    |OutEdges(g, v)|
  }

  /** The number of edges entering `v`. */
  function InDegree<V(!new)>(g: Graph<V>, v: V): (n: nat)
    requires Valid(g)
    ensures n == |Filter(AllEdges(g), EndsAt(v))|
  {
    InListIsFilter(g, v);
    |InEdges(g, v)|
  }

  /** In- plus out-degree; a self-loop counts twice. */
  function Degree<V(!new)>(g: Graph<V>, v: V): (n: nat)
    requires Valid(g)
    ensures n == |Filter(AllEdges(g), StartsAt(v))| + |Filter(AllEdges(g), EndsAt(v))|
  {
    InDegree(g, v) + OutDegree(g, v)
  }

  lemma OutListIsFilter<V(!new)>(g: Graph<V>, v: V)
    requires Valid(g)
    ensures multiset(OutEdges(g, v)) == multiset(Filter(AllEdges(g), StartsAt(v)))
    ensures |OutEdges(g, v)| == |Filter(AllEdges(g), StartsAt(v))|
  {
    EdgeMultiplicity(g);
    forall x: Edge<V> ensures multiset(OutEdges(g, v))[x] == multiset(Filter(AllEdges(g), StartsAt(v)))[x] {
      FilterMultiplicity(AllEdges(g), StartsAt(v), x);
      if x in OutEdges(g, v) {
        Endpoints(g, v, x);
      }
    }
    PointwiseEqual(multiset(OutEdges(g, v)), multiset(Filter(AllEdges(g), StartsAt(v))));
    SameMultisetSameLength(OutEdges(g, v), Filter(AllEdges(g), StartsAt(v)));
  }

  lemma InListIsFilter<V(!new)>(g: Graph<V>, v: V)
    requires Valid(g)
    ensures multiset(InEdges(g, v)) == multiset(Filter(AllEdges(g), EndsAt(v)))
    ensures |InEdges(g, v)| == |Filter(AllEdges(g), EndsAt(v))|
  {
    EdgeMultiplicity(g);
    forall x: Edge<V> ensures multiset(InEdges(g, v))[x] == multiset(Filter(AllEdges(g), EndsAt(v)))[x] {
      FilterMultiplicity(AllEdges(g), EndsAt(v), x);
      if x in InEdges(g, v) {
        Endpoints(g, v, x);
      }
    }
    PointwiseEqual(multiset(InEdges(g, v)), multiset(Filter(AllEdges(g), EndsAt(v))));
    SameMultisetSameLength(InEdges(g, v), Filter(AllEdges(g), EndsAt(v)));
  }

  /** The edges touching `v`: its in-list followed by its out-list. */
  function Edges<V(!new)>(g: Graph<V>, v: V): (es: seq<Edge<V>>)
    requires Valid(g)
    ensures forall e :: e in es <==> e in AllEdges(g) && (e.from == v || e.to == v)
    ensures |es| == Degree(g, v)
  {
    forall e ensures e in InEdges(g, v) + OutEdges(g, v) <==> e in AllEdges(g) && (e.from == v || e.to == v) {
      InAllEdges(g, e);
      Endpoints(g, v, e);
      Endpoints(g, e.from, e);
    }
    InEdges(g, v) + OutEdges(g, v)
  }

  /** Looks up the edges from `s` to `t` by scanning the shorter of the two lists that could
      hold them. The option is `None` where the source leaves its out-argument null: when `s`
      has no out-list or `t` no in-list. The flag says whether any edge was found. */
  function TryGetEdges<V(!new)>(g: Graph<V>, s: V, t: V): (r: (bool, Option<seq<Edge<V>>>))
    requires Valid(g)
    ensures r.1.None? <==> s !in g.outEdges || t !in g.inEdges
    ensures r.1.Some? ==> multiset(r.1.value) == multiset(Filter(AllEdges(g), Joins(s, t)))
    ensures r.0 <==> exists e :: e in AllEdges(g) && e.from == s && e.to == t
  {
    if s !in g.outEdges then
      NoListNoJoin(g, s, t);
      (false, None)
    else if t !in g.inEdges then
      NoListNoJoin(g, s, t);
      (false, None)
    else
      var outs := g.outEdges[s];
      var ins := g.inEdges[t];
      var edges := if |outs| < |ins| then Filter(outs, EndsAt(t)) else Filter(ins, StartsAt(s));
      JoinsFromEitherList(g, s, t);
      FoundIffJoined(g, s, t, edges);
      (|edges| > 0, Some(edges))
  }

  lemma FoundIffJoined<V(!new)>(g: Graph<V>, s: V, t: V, edges: seq<Edge<V>>)
    requires multiset(edges) == multiset(Filter(AllEdges(g), Joins(s, t)))
    ensures |edges| > 0 <==> exists e :: e in AllEdges(g) && e.from == s && e.to == t
  {
    var f := Filter(AllEdges(g), Joins(s, t));
    if |edges| > 0 {
      assert edges[0] in multiset(edges);
      assert edges[0] in f;
    }
    if exists e :: e in AllEdges(g) && e.from == s && e.to == t {
      var e :| e in AllEdges(g) && e.from == s && e.to == t;
      assert e in f;
      assert e in multiset(edges);
    }
  }

  /** An edge from `s` to `t` sits in both the out-list of `s` and the in-list of `t`. */
  lemma NoListNoJoin<V(!new)>(g: Graph<V>, s: V, t: V)
    requires Valid(g) && (s !in g.outEdges || t !in g.inEdges)
    ensures !exists e :: e in AllEdges(g) && e.from == s && e.to == t
  {
    forall e | e in AllEdges(g) && e.from == s && e.to == t ensures false {
      InAllEdges(g, e);
      Endpoints(g, s, e);
    }
  }

  /** Either list, filtered on the other endpoint, holds exactly the edges from `s` to `t`. */
  lemma JoinsFromEitherList<V(!new)>(g: Graph<V>, s: V, t: V)
    requires Valid(g)
    ensures multiset(Filter(OutEdges(g, s), EndsAt(t))) == multiset(Filter(AllEdges(g), Joins(s, t)))
    ensures multiset(Filter(InEdges(g, t), StartsAt(s))) == multiset(Filter(AllEdges(g), Joins(s, t)))
  {
    EdgeMultiplicity(g);
    forall x: Edge<V>
      ensures multiset(Filter(OutEdges(g, s), EndsAt(t)))[x] == multiset(Filter(AllEdges(g), Joins(s, t)))[x]
      ensures multiset(Filter(InEdges(g, t), StartsAt(s)))[x] == multiset(Filter(AllEdges(g), Joins(s, t)))[x]
    {
      FilterMultiplicity(OutEdges(g, s), EndsAt(t), x);
      FilterMultiplicity(InEdges(g, t), StartsAt(s), x);
      FilterMultiplicity(AllEdges(g), Joins(s, t), x);
      if x in OutEdges(g, s) {
        Endpoints(g, s, x);
      }
      if x in InEdges(g, t) {
        Endpoints(g, t, x);
      }
    }
    PointwiseEqual(multiset(Filter(OutEdges(g, s), EndsAt(t))), multiset(Filter(AllEdges(g), Joins(s, t))));
    PointwiseEqual(multiset(Filter(InEdges(g, t), StartsAt(s))), multiset(Filter(AllEdges(g), Joins(s, t))));
  }

  /* ------------------------------------------------- presence tests on the index keys */

  /** Whether `v` has an out-list. An edge leaving `v` gives it one, but the list outlives
      its last edge: the finding `HasOutEdgesKeepsEmptyList` shows the consequence. */
  function HasOutEdges<V(!new)>(g: Graph<V>, v: V): (b: bool)
    requires Valid(g)
    ensures OutDegree(g, v) > 0 ==> b
    ensures b ==> v in g.vertices
  {
    v in g.outEdges
  }

  /** Whether `v` has an in-list; the mirror of `HasOutEdges`. */
  function HasInEdges<V(!new)>(g: Graph<V>, v: V): (b: bool)
    requires Valid(g)
    ensures InDegree(g, v) > 0 ==> b
    ensures b ==> v in g.vertices
  {
    v in g.inEdges
  }

  /** Whether the source of `e` has an out-list and its target an in-list: it holds for every
      stored edge, and also for edges never added (see `ContainsEdgeAcceptsAbsentEdge`). */
  function ContainsEdge<V(!new)>(g: Graph<V>, e: Edge<V>): (b: bool)
    requires Valid(g)
    ensures e in AllEdges(g) ==> b
    ensures b ==> e.from in g.vertices && e.to in g.vertices
  {
    InAllEdges(g, e);
    Endpoints(g, e.from, e);
    e.from in g.outEdges && e.to in g.inEdges
  }

  /** `HasOutEdges` as documented: some edge leaves `v`. */
  function HasOutEdgesIntended<V(!new)>(g: Graph<V>, v: V): (b: bool)
    requires Valid(g)
    ensures b <==> exists e :: e in AllEdges(g) && e.from == v
    ensures b <==> OutDegree(g, v) > 0
  {
    OutListIsFilter(g, v);
    assert forall e :: e in Filter(AllEdges(g), StartsAt(v)) <==> e in AllEdges(g) && e.from == v;
    assert |Filter(AllEdges(g), StartsAt(v))| > 0 ==> Filter(AllEdges(g), StartsAt(v))[0] in Filter(AllEdges(g), StartsAt(v));
    |OutEdges(g, v)| > 0
  }

  /** `HasInEdges` as documented: some edge enters `v`. */
  function HasInEdgesIntended<V(!new)>(g: Graph<V>, v: V): (b: bool)
    requires Valid(g)
    ensures b <==> exists e :: e in AllEdges(g) && e.to == v
    ensures b <==> InDegree(g, v) > 0
  {
    InListIsFilter(g, v);
    assert forall e :: e in Filter(AllEdges(g), EndsAt(v)) <==> e in AllEdges(g) && e.to == v;
    assert |Filter(AllEdges(g), EndsAt(v))| > 0 ==> Filter(AllEdges(g), EndsAt(v))[0] in Filter(AllEdges(g), EndsAt(v));
    |InEdges(g, v)| > 0
  }

  /** `ContainsEdge` as documented: `e` itself is stored. */
  function ContainsEdgeIntended<V(!new)>(g: Graph<V>, e: Edge<V>): (b: bool)
    requires Valid(g)
    ensures b <==> e in AllEdges(g)
  {
    InAllEdges(g, e);
    e in OutEdges(g, e.from)
  }

  /* ------------------------------------------------------------------- findings */

  /** Adding the edge 1 -> 2 and then removing vertex 2 leaves vertex 1 with an empty
      out-list, so `HasOutEdges` still reports an edge leaving it. */
  lemma HasOutEdgesKeepsEmptyList()
    ensures var g := RemoveVertex(AddEdge(EmptyGraph<int>(), Edge(1, 2, DefaultWeight, 0)), 2).0;
      && HasOutEdges(g, 1) && !HasOutEdgesIntended(g, 1)
  {
    var e := Edge(1, 2, DefaultWeight, 0);
    var g0 := EmptyGraph<int>();
    var g1 := AddEdge(g0, e);
    assert multiset(AllEdges(g0)) == multiset{};
    var g := RemoveVertex(g1, 2).0;
    assert multiset(AllEdges(g)) == multiset{} by {
      forall x: Edge<int> ensures multiset(AllEdges(g))[x] == 0 {
        assert multiset(AllEdges(g1))[x] == multiset{e}[x];
      }
      PointwiseEqual(multiset(AllEdges(g)), multiset{});
    }
    assert AllEdges(g) == [];
  }

  /** Adding the edge 1 -> 2 and then removing vertex 1 leaves vertex 2 with an empty
      in-list, so `HasInEdges` still reports an edge entering it. */
  lemma HasInEdgesKeepsEmptyList()
    ensures var g := RemoveVertex(AddEdge(EmptyGraph<int>(), Edge(1, 2, DefaultWeight, 0)), 1).0;
      && HasInEdges(g, 2) && !HasInEdgesIntended(g, 2)
  {
    var e := Edge(1, 2, DefaultWeight, 0);
    var g0 := EmptyGraph<int>();
    var g1 := AddEdge(g0, e);
    assert multiset(AllEdges(g0)) == multiset{};
    var g := RemoveVertex(g1, 1).0;
    assert multiset(AllEdges(g)) == multiset{} by {
      forall x: Edge<int> ensures multiset(AllEdges(g))[x] == 0 {
        assert multiset(AllEdges(g1))[x] == multiset{e}[x];
      }
      PointwiseEqual(multiset(AllEdges(g)), multiset{});
    }
    assert AllEdges(g) == [];
  }

  /** The graph holding the edge 1 -> 3, built by `AddEdge`. */
  function OneEdgeGraph(): (g: Graph<int>)
    ensures Valid(g)
    ensures 1 in g.outEdges
    ensures multiset(AllEdges(g)) == multiset{Edge(1, 3, DefaultWeight, 0)}
  {
    var g0 := EmptyGraph<int>();
    assert multiset(AllEdges(g0)) == multiset{};
    AddEdge(g0, Edge(1, 3, DefaultWeight, 0))
  }

  /** The graph holding the edges 1 -> 3 and 3 -> 2, built by `AddEdge`. */
  function TwoStepGraph(): (g: Graph<int>)
    ensures Valid(g)
    ensures 1 in g.outEdges && 2 in g.inEdges
    ensures multiset(AllEdges(g)) == multiset{Edge(1, 3, DefaultWeight, 0), Edge(3, 2, DefaultWeight, 1)}
  {
    AddEdge(OneEdgeGraph(), Edge(3, 2, DefaultWeight, 1))
  }

  /** With the edges 1 -> 3 and 3 -> 2 stored, `ContainsEdge` accepts an edge 1 -> 2 that
      was never added. */
  lemma ContainsEdgeAcceptsAbsentEdge()
    ensures ContainsEdge(TwoStepGraph(), Edge(1, 2, DefaultWeight, 2))
    ensures !ContainsEdgeIntended(TwoStepGraph(), Edge(1, 2, DefaultWeight, 2))
  {
    var g := TwoStepGraph();
    assert Edge(1, 2, DefaultWeight, 2) !in multiset(AllEdges(g));
  }
}
