/** Sequence helpers: the list operations of the .NET collections the library uses. */
module Seqs {

  /** No element occurs twice (a HashSet's or a Dictionary's key collection). */
  ghost predicate NoDup<T>(s: seq<T>) {
    forall i, j :: 0 <= i < j < |s| ==> s[i] != s[j]
  }

  /** The elements of `s` that satisfy `p`, in order: LINQ `Where` followed by `ToList`. */
  function Filter<T(!new)>(s: seq<T>, p: T -> bool): (r: seq<T>)
    ensures |r| <= |s|
    ensures forall x :: x in r <==> x in s && p(x)
  {
    if |s| == 0 then []
    else (if p(s[0]) then [s[0]] else []) + Filter(s[1..], p)
  }

  lemma {:induction false} FilterMultiplicity<T(!new)>(s: seq<T>, p: T -> bool, x: T)
    ensures multiset(Filter(s, p))[x] == if p(x) then multiset(s)[x] else 0
  {
    if |s| > 0 {
      FilterMultiplicity(s[1..], p, x);
      assert s == [s[0]] + s[1..];
    }
  }

  lemma FilterKeepsNoDup<T(!new)>(s: seq<T>, p: T -> bool)
    requires NoDup(s)
    ensures NoDup(Filter(s, p))
  {
    forall x ensures multiset(Filter(s, p))[x] <= 1 {
      FilterMultiplicity(s, p, x);
      MultiplicityAtMostOne(s, x);
    }
    AtMostOneIsNoDup(Filter(s, p));
  }

  lemma {:induction false} MultiplicityAtMostOne<T>(s: seq<T>, x: T)
    requires NoDup(s)
    ensures multiset(s)[x] <= 1
  {
    if |s| > 0 {
      MultiplicityAtMostOne(s[1..], x);
      assert s == [s[0]] + s[1..];
    }
  }

  lemma {:induction false} AtMostOneIsNoDup<T>(s: seq<T>)
    requires forall x :: multiset(s)[x] <= 1
    ensures NoDup(s)
  {
    if |s| > 0 {
      assert s == [s[0]] + s[1..];
      forall x ensures multiset(s[1..])[x] <= 1 {
        assert multiset(s)[x] == multiset([s[0]])[x] + multiset(s[1..])[x];
      }
      AtMostOneIsNoDup(s[1..]);
      assert multiset(s)[s[0]] == 1 + multiset(s[1..])[s[0]];
      assert s[0] !in s[1..];
    }
  }

  /** Filtering with a weaker predicate keeps at least as many elements. */
  lemma {:induction false} FilterFewer<T(!new)>(s: seq<T>, p: T -> bool, q: T -> bool)
    requires forall y :: q(y) ==> p(y)
    ensures |Filter(s, q)| <= |Filter(s, p)|
  {
    if |s| > 0 {
      FilterFewer(s[1..], p, q);
    }
  }

  /** ... and strictly more when some element of `s` passes only the weaker one. */
  lemma {:induction false} FilterStrictlyFewer<T(!new)>(s: seq<T>, p: T -> bool, q: T -> bool, x: T)
    requires forall y :: q(y) ==> p(y)
    requires x in s && p(x) && !q(x)
    ensures |Filter(s, q)| < |Filter(s, p)|
  {
    if s[0] == x {
      FilterFewer(s[1..], p, q);
    } else {
      FilterStrictlyFewer(s[1..], p, q, x);
    }
  }

  /** `s` with every occurrence of `x` taken out: HashSet `Remove` on a duplicate-free sequence. */
  function Without<T(==,!new)>(s: seq<T>, x: T): (r: seq<T>)
    ensures forall y :: y in r <==> y in s && y != x
    ensures x !in s ==> r == s
    ensures |r| <= |s|
    ensures x in s ==> |r| < |s|
  {
    if |s| == 0 then []
    else (if s[0] == x then [] else [s[0]]) + Without(s[1..], x)
  }

  lemma {:induction false} WithoutKeepsNoDup<T(!new)>(s: seq<T>, x: T)
    requires NoDup(s)
    ensures NoDup(Without(s, x))
  {
    if |s| > 0 {
      WithoutKeepsNoDup(s[1..], x);
      var r := Without(s, x);
      if s[0] != x {
        assert r == [s[0]] + Without(s[1..], x);
        assert s[0] !in Without(s[1..], x);
      }
    }
  }

  lemma {:induction false} WithoutLength<T(!new)>(s: seq<T>, x: T)
    requires NoDup(s) && x in s
    ensures |Without(s, x)| == |s| - 1
  {
    if s[0] != x {
      WithoutLength(s[1..], x);
    } else {
      assert x !in s[1..];
    }
  }

  /** `s` with the first occurrence of `x` taken out, if there is one: `List<T>.Remove`. */
  function RemoveFirst<T(==)>(s: seq<T>, x: T): (r: seq<T>)
    ensures multiset(r) == multiset(s) - multiset{x}
    ensures x !in s ==> r == s
  {
    if |s| == 0 then []
    else if s[0] == x then
      assert s == [s[0]] + s[1..];
      s[1..]
    else
      assert s == [s[0]] + s[1..];
      [s[0]] + RemoveFirst(s[1..], x)
  }

  /** Removing an element `p` rejects does not change what `p` keeps, nor its order. */
  lemma {:induction false} FilterRemoveFirst<T(!new)>(s: seq<T>, x: T, p: T -> bool)
    requires !p(x)
    ensures Filter(RemoveFirst(s, x), p) == Filter(s, p)
  {
    if |s| > 0 && s[0] != x {
      FilterRemoveFirst(s[1..], x, p);
      assert ([s[0]] + RemoveFirst(s[1..], x))[1..] == RemoveFirst(s[1..], x);
    }
  }

  /** Filtering with a predicate every element satisfies changes nothing. */
  lemma {:induction false} FilterKeepsAll<T(!new)>(s: seq<T>, p: T -> bool)
    requires forall x :: x in s ==> p(x)
    ensures Filter(s, p) == s
  {
    if |s| > 0 {
      assert forall x :: x in s[1..] ==> x in s;
      FilterKeepsAll(s[1..], p);
      assert s == [s[0]] + s[1..];
    }
  }

  /** `RemoveFirst` cuts out exactly the first occurrence. */
  lemma {:induction false} RemoveFirstAt<T>(s: seq<T>, x: T)
    requires x in s
    ensures RemoveFirst(s, x) == s[..IndexOf(s, x)] + s[IndexOf(s, x) + 1..]
  {
    if s[0] == x {
      assert s[..0] + s[1..] == s[1..];
    } else {
      RemoveFirstAt(s[1..], x);
      SlicesAfterHead(s, IndexOf(s[1..], x));
    }
  }

  lemma SlicesAfterHead<T>(s: seq<T>, i: nat)
    requires i < |s| - 1
    ensures s[..i + 1] + s[i + 2..] == [s[0]] + (s[1..][..i] + s[1..][i + 1..])
  {
    assert s[..i + 1] == [s[0]] + s[1..][..i];
    assert s[i + 2..] == s[1..][i + 1..];
  }

  /** Appending `x` and then removing its first occurrence gives back a sequence without `x`. */
  lemma {:induction false} RemoveFirstAppended<T>(s: seq<T>, x: T)
    requires x !in s
    ensures RemoveFirst(s + [x], x) == s
  {
    if |s| > 0 {
      assert (s + [x])[1..] == s[1..] + [x];
      RemoveFirstAppended(s[1..], x);
      assert s == [s[0]] + s[1..];
    }
  }

  /** The position of the first occurrence of `x`. */
  function IndexOf<T(==)>(s: seq<T>, x: T): (i: nat)
    requires x in s
    ensures i < |s| && s[i] == x && x !in s[..i]
  {
    if s[0] == x then 0
    else
      assert s[1..][..IndexOf(s[1..], x)] == s[1..IndexOf(s[1..], x) + 1];
      1 + IndexOf(s[1..], x)
  }

  /** Appending a new element keeps a sequence duplicate-free. */
  lemma NoDupSnoc<T>(s: seq<T>, x: T)
    requires NoDup(s) && x !in s
    ensures NoDup(s + [x])
  {
  }

  lemma AppendAssociates<T>(a: seq<T>, b: seq<T>, c: seq<T>)
    ensures (a + b) + c == a + (b + c)
  {
  }

  /** An element occurring before position `i` is first found before it. */
  lemma IndexBefore<T>(s: seq<T>, x: T, i: int)
    requires 0 <= i <= |s| && x in s[..i]
    ensures IndexOf(s, x) < i
  {
  }

  /** Appending after `a` does not move the first occurrence of an element of `a`. */
  lemma {:induction false} IndexInPrefix<T>(a: seq<T>, b: seq<T>, x: T)
    requires x in a
    ensures IndexOf(a + b, x) == IndexOf(a, x)
  {
    if a[0] != x {
      assert (a + b)[1..] == a[1..] + b;
      IndexInPrefix(a[1..], b, x);
    }
  }

  /** An element missing from `a` is first found after it. */
  lemma IndexPastPrefix<T>(s: seq<T>, a: seq<T>, x: T)
    requires a <= s && x in s && x !in a
    ensures IndexOf(s, x) >= |a|
  {
    assert s[..|a|] == a;
  }

  /** Two duplicate-free sequences with the same elements are permutations of each other. */
  lemma SameElements<T>(a: seq<T>, b: seq<T>)
    requires NoDup(a) && NoDup(b) && forall x :: x in a <==> x in b
    ensures multiset(a) == multiset(b) && |a| == |b|
  {
    forall x ensures multiset(a)[x] == multiset(b)[x] {
      MultiplicityAtMostOne(a, x);
      MultiplicityAtMostOne(b, x);
      assert x in a <==> x in b;
      assert x in a <==> x in multiset(a);
      assert x in b <==> x in multiset(b);
    }
    PointwiseEqual(multiset(a), multiset(b));
    SameMultisetSameLength(a, b);
  }

  lemma IndexOfNoDup<T>(s: seq<T>, i: int)
    requires NoDup(s) && 0 <= i < |s|
    ensures IndexOf(s, s[i]) == i
  {
  }

  /* Multiset algebra, kept apart so that callers prove it in a small context. */

  lemma PointwiseSum<T>(a: multiset<T>, b: multiset<T>, m: multiset<T>)
    requires forall x :: a[x] == b[x] + m[x]
    ensures a == b + m
  {
    assert forall x :: a[x] == (b + m)[x];
  }

  lemma SizeOfSum<T>(a: seq<T>, b: seq<T>, m: multiset<T>)
    requires multiset(a) == multiset(b) + m
    ensures |a| == |b| + |m|
  {
    assert |multiset(a)| == |a|;
    assert |multiset(b)| == |b|;
  }

  lemma DiffDiff<T>(a: multiset<T>, b: multiset<T>, c: multiset<T>)
    ensures a - b - c == a - (b + c)
  {
    assert forall x :: (a - b - c)[x] == (a - (b + c))[x];
  }

  lemma DiffNone<T>(a: multiset<T>, es: seq<T>)
    requires |es| == 0
    ensures a - multiset(es) == a
  {
    assert multiset(es) == multiset{};
  }

  lemma DiffAbsent<T>(a: multiset<T>, x: T)
    requires a[x] == 0
    ensures a - multiset{x} == a
  {
    assert forall y :: (a - multiset{x})[y] == a[y];
  }

  lemma AddThenTake<T>(a: multiset<T>, x: T)
    ensures x in a + multiset{x} && a + multiset{x} - multiset{x} == a
  {
    assert forall y :: (a + multiset{x} - multiset{x})[y] == a[y];
  }

  lemma DiffStep<T>(a: multiset<T>, b: multiset<T>, c: multiset<T>, es: seq<T>)
    requires |es| > 0 && b == a - multiset{es[0]} && c == b - multiset(es[1..])
    ensures c == a - multiset(es)
  {
    assert es == [es[0]] + es[1..];
    DiffDiff(a, multiset{es[0]}, multiset(es[1..]));
  }

  lemma SumStep<T>(a: multiset<T>, b: multiset<T>, c: multiset<T>, es: seq<T>)
    requires |es| > 0 && b == a + multiset{es[0]} && c == b + multiset(es[1..])
    ensures c == a + multiset(es)
  {
    assert es == [es[0]] + es[1..];
  }

  lemma PointwiseEqual<T>(a: multiset<T>, b: multiset<T>)
    requires forall x :: a[x] == b[x]
    ensures a == b
  {
  }

  lemma SameMultisetSameLength<T>(a: seq<T>, b: seq<T>)
    requires multiset(a) == multiset(b)
    ensures |a| == |b|
  {
    assert |multiset(a)| == |a|;
    assert |multiset(b)| == |b|;
  }
}
