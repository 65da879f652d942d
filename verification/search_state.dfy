/** The marks a depth-first search keeps: the vertices without a permanent mark, in the order
    the graph enumerates them, and the sets of temporarily and permanently marked vertices. */
module SearchStates {
  import opened Seqs
  import opened Wrappers
  import opened Graphs

  datatype SearchState<V> = SearchState(unmarked: seq<V>, temporary: set<V>, permanent: set<V>)

  /** What a search can raise: a cycle was met, or a temporary mark to remove was missing. */
  datatype SearchError = CyclicGraph | MarkMissing

  function Outside<V>(marks: set<V>): V -> bool {
    (x: V) => x !in marks
  }

  /** The vertices of `vs` outside `marks`, in order. */
  function Unmarked<V(!new)>(vs: seq<V>, marks: set<V>): seq<V> {
    Filter(vs, Outside(marks))
  }

  /** The unmarked list is the graph's vertices without the permanently marked ones. */
  ghost predicate Consistent<V(!new)>(g: Graph<V>, s: SearchState<V>) {
    s.unmarked == Unmarked(g.vertices, s.permanent)
  }

  /** Every vertex starts unmarked. */
  function Create<V(!new)>(g: Graph<V>): (s: SearchState<V>)
    ensures Consistent(g, s)
    ensures s.temporary == {} && s.permanent == {}
    ensures forall x :: x in s.unmarked <==> x in g.vertices
  {
    UnmarkedNone(g.vertices);
    SearchState(g.vertices, {}, {})
  }

  lemma {:induction false} UnmarkedNone<V(!new)>(vs: seq<V>)
    ensures Unmarked(vs, {}) == vs
  {
    if |vs| > 0 {
      UnmarkedNone(vs[1..]);
      assert vs == [vs[0]] + vs[1..];
    }
  }

  function SetTemporaryMark<V>(s: SearchState<V>, v: V): (r: SearchState<V>)
    ensures r.temporary == s.temporary + {v}
    ensures r.permanent == s.permanent && r.unmarked == s.unmarked
  {
    s.(temporary := s.temporary + {v})
  }

  /** Marks `v` permanently and takes it out of the unmarked vertices. */
  function SetPermanentMark<V(!new)>(s: SearchState<V>, v: V): (r: SearchState<V>)
    ensures r.permanent == s.permanent + {v}
    ensures r.temporary == s.temporary
    ensures forall x :: x in r.unmarked <==> x in s.unmarked && x != v
  {
    s.(permanent := s.permanent + {v}, unmarked := Without(s.unmarked, v))
  }

  /** A permanent mark keeps the unmarked list in step with the marks. */
  lemma MarkKeepsConsistent<V(!new)>(g: Graph<V>, s: SearchState<V>, v: V)
    requires Consistent(g, s)
    ensures Consistent(g, SetPermanentMark(s, v))
  {
    UnmarkedMark(g.vertices, s.permanent, v);
  }

  lemma {:induction false} UnmarkedMark<V(!new)>(vs: seq<V>, marks: set<V>, v: V)
    ensures Without(Unmarked(vs, marks), v) == Unmarked(vs, marks + {v})
  {
    if |vs| > 0 {
      UnmarkedMark(vs[1..], marks, v);
      var x := vs[0];
      var u := Unmarked(vs[1..], marks);
      assert Unmarked(vs, marks) == (if x !in marks then [x] else []) + u;
      assert Unmarked(vs, marks + {v}) == (if x !in marks + {v} then [x] else []) + Unmarked(vs[1..], marks + {v});
      if x !in marks {
        assert ([x] + u)[1..] == u;
        assert Without([x] + u, v) == (if x == v then [] else [x]) + Without(u, v);
      } else {
        assert Unmarked(vs, marks) == u;
        assert Unmarked(vs, marks + {v}) == Unmarked(vs[1..], marks + {v});
      }
    }
  }

  /** The first vertex still without a permanent mark, if any. */
  function TryGetVertexWithoutPermanentMark<V>(s: SearchState<V>): (r: Option<V>)
    ensures r.None? <==> |s.unmarked| == 0
    ensures r.Some? ==> r.value in s.unmarked
  {
    if |s.unmarked| == 0 then None else Some(s.unmarked[0])
  }

  /** On a consistent state the lookup fails exactly when every vertex is permanently marked,
      and otherwise yields a vertex without that mark. */
  lemma NextUnmarked<V(!new)>(g: Graph<V>, s: SearchState<V>)
    requires Consistent(g, s)
    ensures TryGetVertexWithoutPermanentMark(s).None? <==> forall x :: x in g.vertices ==> x in s.permanent
    ensures TryGetVertexWithoutPermanentMark(s).Some? ==>
      var v := TryGetVertexWithoutPermanentMark(s).value; v in g.vertices && v !in s.permanent
  {
    if |s.unmarked| > 0 {
      assert s.unmarked[0] in s.unmarked;
    }
  }

  /** Marking more vertices leaves fewer unmarked: strictly fewer when `v` gains its mark. */
  lemma UnmarkedShrinks<V(!new)>(vs: seq<V>, marks: set<V>, more: set<V>, v: V)
    requires marks <= more && v in vs && v !in marks && v in more
    ensures |Unmarked(vs, more)| < |Unmarked(vs, marks)|
  {
    FilterStrictlyFewer(vs, Outside(marks), Outside(more), v);
  }

  /** Removes the temporary mark of `v`; fails when `v` has none. */
  function RemoveTemporaryMark<V>(s: SearchState<V>, v: V): (r: Result<SearchState<V>, SearchError>)
    ensures r.Err? <==> v !in s.temporary
    ensures r.Err? ==> r.error == MarkMissing
    ensures r.Ok? ==> r.value.temporary == s.temporary - {v}
    ensures r.Ok? ==> r.value.permanent == s.permanent && r.value.unmarked == s.unmarked
  {
    if v in s.temporary then Ok(s.(temporary := s.temporary - {v})) else Err(MarkMissing)
  }

  function HasPermanentMark<V>(s: SearchState<V>, v: V): (b: bool)
    ensures b <==> v in s.permanent
  {
    v in s.permanent
  }

  function HasTemporaryMark<V>(s: SearchState<V>, v: V): (b: bool)
    ensures b <==> v in s.temporary
  {
    v in s.temporary
  }
}
