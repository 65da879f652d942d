/** The state of a `DirectedGraph`: a vertex set and two adjacency indexes that mirror each other. */
module Graphs {
  import opened Seqs

  /** An edge. The library's edge type has no equality of its own, so `List.Remove` compares
      edges by reference; `id` stands for that identity. Weighted edges carry a non-negative
      cost; an unweighted edge is given `DefaultWeight`. */
  datatype Edge<V> = Edge(from: V, to: V, weight: nat, id: nat)

  /** The cost the weighted-edge type assigns when none is given. */
  const DefaultWeight: nat := 1

  /** `vertices` is the vertex set in insertion order; `outEdges[v]` lists the edges leaving `v`
      and `inEdges[v]` those entering it, each in insertion order; `edgeCount` is the counter
      the graph keeps alongside. */
  datatype Graph<V> = Graph(
    vertices: seq<V>,
    outEdges: map<V, seq<Edge<V>>>,
    inEdges: map<V, seq<Edge<V>>>,
    edgeCount: int)

  /** A freshly constructed graph. */
  function EmptyGraph<V>(): Graph<V> {
    Graph([], map[], map[], 0)
  }

  function VertexSet<V(!new)>(g: Graph<V>): set<V> {
    set v | v in g.vertices
  }

  /** The list an index keeps for `k`, or the empty list when `k` has no entry. */
  function ListOf<V(==)>(m: map<V, seq<Edge<V>>>, k: V): seq<Edge<V>> {
    if k in m then m[k] else []
  }

  function OutEdges<V(==)>(g: Graph<V>, v: V): seq<Edge<V>> {
    ListOf(g.outEdges, v)
  }

  function InEdges<V(==)>(g: Graph<V>, v: V): seq<Edge<V>> {
    ListOf(g.inEdges, v)
  }

  /** The out-index (`reversed` false) or the in-index (`reversed` true). */
  function Index<V>(g: Graph<V>, reversed: bool): map<V, seq<Edge<V>>> {
    if reversed then g.inEdges else g.outEdges
  }

  /** The endpoint an index files an edge under. */
  function Near<V>(e: Edge<V>, reversed: bool): V {
    if reversed then e.to else e.from
  }

  /** The other endpoint. */
  function Far<V>(e: Edge<V>, reversed: bool): V {
    if reversed then e.from else e.to
  }

  /** The lists of `m` for the keys `vs`, one after another. */
  function Concat<V(==)>(m: map<V, seq<Edge<V>>>, vs: seq<V>): seq<Edge<V>> {
    if |vs| == 0 then [] else ListOf(m, vs[0]) + Concat(m, vs[1..])
  }

  /** Every edge, out-list by out-list (the `AllEdges` property). */
  function AllEdges<V(==)>(g: Graph<V>): seq<Edge<V>> {
    Concat(g.outEdges, g.vertices)
  }

  /** Every edge, read from the in-index instead. */
  function AllInEdges<V(==)>(g: Graph<V>): seq<Edge<V>> {
    Concat(g.inEdges, g.vertices)
  }

  /** Every list of `m` holds only edges filed under their own key. */
  ghost predicate KeyedBy<V(!new)>(m: map<V, seq<Edge<V>>>, reversed: bool) {
    forall k, e :: k in m && e in m[k] ==> Near(e, reversed) == k
  }

  /** The shape the indexes keep: distinct vertices, index keys are vertices, lists filed by endpoint. */
  ghost predicate Shaped<V(!new)>(g: Graph<V>) {
    && NoDup(g.vertices)
    && (forall k :: k in g.outEdges ==> k in g.vertices)
    && (forall k :: k in g.inEdges ==> k in g.vertices)
    && KeyedBy(g.outEdges, false)
    && KeyedBy(g.inEdges, true)
  }

  /** Each edge occurs as often in its source's out-list as in its target's in-list. */
  ghost predicate Mirrored<V(!new)>(g: Graph<V>) {
    forall e: Edge<V> :: multiset(OutEdges(g, e.from))[e] == multiset(InEdges(g, e.to))[e]
  }

  /** The invariant every public operation of the graph keeps. */
  ghost predicate Valid<V(!new)>(g: Graph<V>) {
    Shaped(g) && Mirrored(g) && g.edgeCount == |AllEdges(g)|
  }

  lemma {:induction false} ConcatMultiplicity<V(!new)>(m: map<V, seq<Edge<V>>>, vs: seq<V>, reversed: bool, e: Edge<V>)
    requires NoDup(vs) && KeyedBy(m, reversed)
    ensures multiset(Concat(m, vs))[e]
         == if Near(e, reversed) in vs then multiset(ListOf(m, Near(e, reversed)))[e] else 0
  {
    if |vs| > 0 {
      ConcatMultiplicity(m, vs[1..], reversed, e);
      if Near(e, reversed) != vs[0] && vs[0] in m && e in m[vs[0]] {
        assert false;
      }
      assert vs == [vs[0]] + vs[1..];
    }
  }

  /** Each edge occurs in `AllEdges` as often as in its source's out-list. */
  lemma EdgeMultiplicity<V(!new)>(g: Graph<V>)
    requires Shaped(g)
    ensures forall e: Edge<V> :: multiset(AllEdges(g))[e] == multiset(OutEdges(g, e.from))[e]
    ensures forall e: Edge<V> :: multiset(AllInEdges(g))[e] == multiset(InEdges(g, e.to))[e]
  {
    forall e: Edge<V>
      ensures multiset(AllEdges(g))[e] == multiset(OutEdges(g, e.from))[e]
      ensures multiset(AllInEdges(g))[e] == multiset(InEdges(g, e.to))[e]
    {
      ConcatMultiplicity(g.outEdges, g.vertices, false, e);
      ConcatMultiplicity(g.inEdges, g.vertices, true, e);
    }
  }

  /** Either index describes the same edge multiset, and the counter counts it. */
  lemma IndexesAgree<V(!new)>(g: Graph<V>)
    requires Valid(g)
    ensures multiset(AllInEdges(g)) == multiset(AllEdges(g))
    ensures g.edgeCount == |AllEdges(g)| == |AllInEdges(g)|
  {
    EdgeMultiplicity(g);
    PointwiseEqual(multiset(AllInEdges(g)), multiset(AllEdges(g)));
    SameMultisetSameLength(AllInEdges(g), AllEdges(g));
  }

  /** Each edge occurs in `AllEdges` as often as in the list either index files it under. */
  lemma EdgeMultiplicityBySide<V(!new)>(g: Graph<V>)
    requires Shaped(g) && Mirrored(g)
    ensures forall e: Edge<V>, reversed: bool ::
      multiset(AllEdges(g))[e] == multiset(ListOf(Index(g, reversed), Near(e, reversed)))[e]
  {
    EdgeMultiplicity(g);
  }

  /** Both endpoints of a stored edge are vertices, and each index files it under the matching endpoint. */
  lemma Endpoints<V(!new)>(g: Graph<V>, v: V, e: Edge<V>)
    requires Valid(g)
    ensures e in OutEdges(g, v) ==> e.from == v && e.from in g.vertices && e.to in g.vertices && e in InEdges(g, e.to)
    ensures e in InEdges(g, v) ==> e.to == v && e.to in g.vertices && e.from in g.vertices && e in OutEdges(g, e.from)
  {
    if e in OutEdges(g, v) {
      assert v in g.outEdges && e in g.outEdges[v];
      assert KeyedBy(g.outEdges, false);
      assert Near(e, false) == v;
      assert multiset(OutEdges(g, e.from))[e] > 0;
      assert multiset(InEdges(g, e.to))[e] > 0;
      assert e.to in g.inEdges;
    }
    if e in InEdges(g, v) {
      assert v in g.inEdges && e in g.inEdges[v];
      assert KeyedBy(g.inEdges, true);
      assert Near(e, true) == v;
      assert multiset(InEdges(g, e.to))[e] > 0;
      assert multiset(OutEdges(g, e.from))[e] > 0;
      assert e.from in g.outEdges;
    }
  }

  lemma InAllEdges<V(!new)>(g: Graph<V>, e: Edge<V>)
    requires Valid(g)
    ensures e in AllEdges(g) <==> e in OutEdges(g, e.from)
  {
    EdgeMultiplicity(g);
    assert multiset(AllEdges(g))[e] == multiset(OutEdges(g, e.from))[e];
  }

  /* Edge predicates, named so that every use denotes the same function. */

  function StartsAt<V(==)>(v: V): Edge<V> -> bool {
    (e: Edge<V>) => e.from == v
  }

  function EndsAt<V(==)>(v: V): Edge<V> -> bool {
    (e: Edge<V>) => e.to == v
  }

  function Joins<V(==)>(s: V, t: V): Edge<V> -> bool {
    (e: Edge<V>) => e.from == s && e.to == t
  }

  function Touches<V(==)>(v: V): Edge<V> -> bool {
    (e: Edge<V>) => e.from == v || e.to == v
  }

  function NotFrom<V(==)>(v: V): Edge<V> -> bool {
    (e: Edge<V>) => e.from != v
  }

  function NotTo<V(==)>(v: V): Edge<V> -> bool {
    (e: Edge<V>) => e.to != v
  }

  /** Holds of the edges with an endpoint satisfying `p`. */
  function EitherEnd<V>(p: V -> bool): Edge<V> -> bool {
    (e: Edge<V>) => p(e.from) || p(e.to)
  }

  /** A stored edge has both endpoints among the vertices. */
  lemma StoredEndpoints<V(!new)>(g: Graph<V>, e: Edge<V>)
    requires Valid(g) && multiset(AllEdges(g))[e] > 0
    ensures e.from in g.vertices && e.to in g.vertices
  {
    EdgeMultiplicity(g);
    Endpoints(g, e.from, e);
  }
}
