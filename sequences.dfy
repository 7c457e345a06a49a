/** Order-preserving operations on sequences used by both the validator and the dashboard. */
module Sequences {

  /** `Array.prototype.filter`: keeps, in order, the elements that satisfy `keep`. */
  function Filter<T(==,!new)>(s: seq<T>, keep: T -> bool): (r: seq<T>)
    ensures |r| <= |s|
    ensures forall x {:trigger multiset(r)[x]} :: multiset(r)[x] == if keep(x) then multiset(s)[x] else 0
  {
    if s == [] then []
    else
      var rest := Filter(s[1..], keep);
      assert s == [s[0]] + s[1..];
      if keep(s[0]) then [s[0]] + rest else rest
  }

  /** Filtering distributes over concatenation, so the order of the kept elements is the original order. */
  lemma {:induction false} FilterAppend<T(!new)>(a: seq<T>, b: seq<T>, keep: T -> bool)
    ensures Filter(a + b, keep) == Filter(a, keep) + Filter(b, keep)
  {
    if a == [] {
      assert a + b == b;
    } else {
      assert (a + b)[1..] == a[1..] + b;
      FilterAppend(a[1..], b, keep);
    }
  }

  /** A filter that keeps every element is the identity. */
  lemma {:induction false} FilterAll<T(!new)>(s: seq<T>, keep: T -> bool)
    requires forall i | 0 <= i < |s| :: keep(s[i])
    ensures Filter(s, keep) == s
  {
    if s != [] {
      FilterAll(s[1..], keep);
    }
  }

  /** A filter that keeps no element is empty. */
  lemma {:induction false} FilterNone<T(!new)>(s: seq<T>, keep: T -> bool)
    requires forall i | 0 <= i < |s| :: !keep(s[i])
    ensures Filter(s, keep) == []
  {
    if s != [] {
      FilterNone(s[1..], keep);
    }
  }

  /** The distinct elements of `s` in the order of their first occurrence (`[...new Set(s)]`). */
  function Distinct<T(==,!new)>(s: seq<T>): (r: seq<T>)
    ensures forall x {:trigger x in r} :: x in r <==> x in s
    ensures |r| <= |s|
  {
    if s == [] then []
    else
      var init := s[..|s| - 1];
      var last := s[|s| - 1];
      var d := Distinct(init);
      assert s == init + [last];
      if last in d then d else d + [last]
  }

  /** No element occurs twice in `Distinct(s)`. */
  lemma {:induction false} DistinctIsDistinct<T(!new)>(s: seq<T>)
    ensures forall i, j | 0 <= i < j < |Distinct(s)| :: Distinct(s)[i] != Distinct(s)[j]
  {
    if s != [] {
      DistinctIsDistinct(s[..|s| - 1]);
    }
  }

  /** The position of the first occurrence of `x` in `s`. */
  function FirstIndex<T(==)>(s: seq<T>, x: T): (i: nat)
    requires x in s
    ensures i < |s| && s[i] == x
    ensures forall j | 0 <= j < i :: s[j] != x
  {
    if s[0] == x then 0 else 1 + FirstIndex(s[1..], x)
  }

  lemma FirstIndexPrefix<T>(s: seq<T>, t: seq<T>, x: T)
    requires x in s
    ensures FirstIndex(s + t, x) == FirstIndex(s, x)
  {
    assert (s + t)[FirstIndex(s, x)] == x;
  }

  lemma FirstLastOccurrence<T>(s: seq<T>, x: T)
    requires x !in s
    ensures FirstIndex(s + [x], x) == |s|
  {
  }

  /** `Distinct` lists the elements in the order of their first occurrence in `s`. */
  lemma {:induction false} DistinctFirstOccurrence<T(!new)>(s: seq<T>, i: nat, j: nat)
    requires i < j < |Distinct(s)|
    ensures Distinct(s)[i] in s && Distinct(s)[j] in s
    ensures FirstIndex(s, Distinct(s)[i]) < FirstIndex(s, Distinct(s)[j])
  {
    var init, last := s[..|s| - 1], s[|s| - 1];
    assert s == init + [last];
    var d, r := Distinct(init), Distinct(s);
    assert r == if last in d then d else d + [last];
    assert r[i] == d[i] && d[i] in d;
    FirstIndexPrefix(init, [last], d[i]);
    if j < |d| {
      assert r[j] == d[j] && d[j] in d;
      FirstIndexPrefix(init, [last], d[j]);
      DistinctFirstOccurrence(init, i, j);
    } else {
      assert r[j] == last && last !in init;
      FirstLastOccurrence(init, last);
    }
  }

  /** `Distinct` of a one-element extension (the step of a loop that inserts into a `Set`). */
  lemma DistinctSnoc<T(!new)>(s: seq<T>, x: T)
    ensures Distinct(s + [x]) == if x in Distinct(s) then Distinct(s) else Distinct(s) + [x]
  {
    assert (s + [x])[..|s + [x]| - 1] == s;
  }

  /** Taking out the element at `i` takes one copy of it out of the multiset. */
  lemma MultisetRemoveAt<T>(s: seq<T>, i: nat)
    requires i < |s|
    ensures multiset(s) == multiset(s[..i] + s[i + 1..]) + multiset{s[i]}
  {
    assert s == s[..i] + [s[i]] + s[i + 1..];
  }

  /** `f` applied to every element, in order. */
  function Map<A, B>(s: seq<A>, f: A -> B): (r: seq<B>)
    ensures |r| == |s|
    ensures forall i | 0 <= i < |s| :: r[i] == f(s[i])
  {
    seq(|s|, i requires 0 <= i < |s| => f(s[i]))
  }

  lemma MapAppend<A, B>(a: seq<A>, b: seq<A>, f: A -> B)
    ensures Map(a + b, f) == Map(a, f) + Map(b, f)
  {
  }

  /** Taking out the element at `i` before mapping takes out its image after. */
  lemma MapRemoveAt<A, B>(s: seq<A>, i: nat, f: A -> B)
    requires i < |s|
    ensures multiset(Map(s, f)) == multiset(Map(s[..i] + s[i + 1..], f)) + multiset{f(s[i])}
  {
    assert s == s[..i] + [s[i]] + s[i + 1..];
    MapAppend(s[..i] + [s[i]], s[i + 1..], f);
    MapAppend(s[..i], [s[i]], f);
    MapAppend(s[..i], s[i + 1..], f);
  }

  /** Matching the head of `s1` with element `i` of `s2` extends a permutation of the images by one. */
  lemma MapPermutationStep<A, B>(s1: seq<A>, s2: seq<A>, i: nat, f: A -> B)
    requires s1 != [] && i < |s2| && s2[i] == s1[0]
    requires multiset(Map(s1[1..], f)) == multiset(Map(s2[..i] + s2[i + 1..], f))
    ensures multiset(Map(s1, f)) == multiset(Map(s2, f))
  {
    MapRemoveAt(s1, 0, f);
    MapRemoveAt(s2, i, f);
    assert s1[..0] + s1[1..] == s1[1..];
  }

  /** In a permutation of `s1`, some position `i` holds the head of `s1`, and the rests are permutations too. */
  lemma MatchHead<T>(s1: seq<T>, s2: seq<T>) returns (i: nat)
    requires s1 != [] && multiset(s1) == multiset(s2)
    ensures i < |s2| && s2[i] == s1[0]
    ensures multiset(s1[1..]) == multiset(s2[..i] + s2[i + 1..])
  {
    assert s1[0] in multiset(s1);
    assert s1[0] in s2;
    i :| 0 <= i < |s2| && s2[i] == s1[0];
    var rest1, rest2 := s1[1..], s2[..i] + s2[i + 1..];
    assert s1 == [s1[0]] + rest1;
    MultisetRemoveAt(s2, i);
    forall y ensures multiset(rest1)[y] == multiset(rest2)[y] {
      assert multiset(s1)[y] == multiset(s2)[y];
    }
  }

  /** Mapping a permutation gives a permutation. */
  lemma {:induction false} MapPermutation<A, B>(s1: seq<A>, s2: seq<A>, f: A -> B)
    requires multiset(s1) == multiset(s2)
    ensures multiset(Map(s1, f)) == multiset(Map(s2, f))
  {
    if s1 == [] {
      assert |s2| == |multiset(s2)| == 0;
    } else {
      var i := MatchHead(s1, s2);
      MapPermutation(s1[1..], s2[..i] + s2[i + 1..], f);
      MapPermutationStep(s1, s2, i, f);
    }
  }
}
