/** Sorting by a total preorder given as a comparison function. */
module Sorting {

  ghost predicate Total<T(!new)>(le: (T, T) -> bool) {
    forall a, b :: le(a, b) || le(b, a)
  }

  ghost predicate Transitive<T(!new)>(le: (T, T) -> bool) {
    forall a, b, c :: le(a, b) && le(b, c) ==> le(a, c)
  }

  ghost predicate Antisymmetric<T(!new)>(le: (T, T) -> bool) {
    forall a, b :: le(a, b) && le(b, a) ==> a == b
  }

  ghost predicate TotalPreorder<T(!new)>(le: (T, T) -> bool) {
    Total(le) && Transitive(le)
  }

  ghost predicate Sorted<T>(s: seq<T>, le: (T, T) -> bool) {
    forall i, j | 0 <= i < j < |s| :: le(s[i], s[j])
  }

  /** Inserts `x` into the sorted sequence `s`, before the first element it is not above. */
  function Insert<T(!new)>(x: T, s: seq<T>, le: (T, T) -> bool): (r: seq<T>)
    requires TotalPreorder(le) && Sorted(s, le)
    ensures Sorted(r, le)
    ensures multiset(r) == multiset(s) + multiset{x}
  {
    if s == [] then [x]
    else if le(x, s[0]) then [x] + s
    else
      var rest := Insert(x, s[1..], le);
      assert s == [s[0]] + s[1..];
      assert forall y | y in multiset(rest) :: le(s[0], y);
      [s[0]] + rest
  }

  /** A sorted permutation of `s`. */
  function Sort<T(!new)>(s: seq<T>, le: (T, T) -> bool): (r: seq<T>)
    requires TotalPreorder(le)
    ensures Sorted(r, le)
    ensures multiset(r) == multiset(s)
  {
    if s == [] then []
    else
      assert s == [s[0]] + s[1..];
      Insert(s[0], Sort(s[1..], le), le)
  }

  /** The first element of a sorted sequence is below every element. */
  lemma SortedHeadBelow<T>(s: seq<T>, le: (T, T) -> bool, x: T)
    requires Sorted(s, le) && x in multiset(s)
    ensures s[0] == x || le(s[0], x)
  {
    var i :| 0 <= i < |s| && s[i] == x;
  }

  /**
   * Under a total order, a multiset has exactly one sorted arrangement: any
   * sorting algorithm yields the same sequence as `Sort`.
   */
  lemma {:induction false} SortedUnique<T(!new)>(a: seq<T>, b: seq<T>, le: (T, T) -> bool)
    requires Antisymmetric(le)
    requires Sorted(a, le) && Sorted(b, le)
    requires multiset(a) == multiset(b)
    ensures a == b
  {
    if a != [] {
      assert |b| == |multiset(b)| == |multiset(a)| == |a|;
      assert a[0] in multiset(a) && b[0] in multiset(b);
      SortedHeadBelow(b, le, a[0]);
      SortedHeadBelow(a, le, b[0]);
      assert a[0] == b[0];
      var x := a[0];
      assert a == [x] + a[1..];
      assert b == [x] + b[1..];
      assert multiset(a[1..]) == multiset(a) - multiset{x};
      assert multiset(b[1..]) == multiset(b) - multiset{x};
      SortedUnique(a[1..], b[1..], le);
    }
  }
}
