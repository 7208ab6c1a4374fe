/** Insertion sort by any total preorder, stable as Go's `sort.SliceStable`. */
module Sorting {

  ghost predicate TotalPreorder<T(!new)>(leq: (T, T) -> bool) {
    && (forall x, y :: leq(x, y) || leq(y, x))
    && (forall x, y, z :: leq(x, y) && leq(y, z) ==> leq(x, z))
  }

  ghost predicate SortedBy<T>(leq: (T, T) -> bool, s: seq<T>) {
    forall i, j :: 0 <= i < j < |s| ==> leq(s[i], s[j])
  }

  /** Equivalent elements of `s` are equal, so only one order of `s` is sorted. */
  ghost predicate Antisymmetric<T>(leq: (T, T) -> bool, s: seq<T>) {
    forall x, y :: x in s && y in s && leq(x, y) && leq(y, x) ==> x == y
  }

  function Insert<T>(leq: (T, T) -> bool, x: T, s: seq<T>): (r: seq<T>)
    ensures multiset(r) == multiset{x} + multiset(s)
  {
    if s == [] || leq(x, s[0]) then [x] + s
    else
      assert s == [s[0]] + s[1..];
      [s[0]] + Insert(leq, x, s[1..])
  }

  function SortBy<T>(leq: (T, T) -> bool, s: seq<T>): (r: seq<T>)
    ensures multiset(r) == multiset(s)
    ensures |r| == |s|
  {
    if s == [] then []
    else
      assert s == [s[0]] + s[1..];
      var r := Insert(leq, s[0], SortBy(leq, s[1..]));
      assert |multiset(r)| == |multiset(s)|;
      r
  }

  lemma {:induction false} InsertSorted<T(!new)>(leq: (T, T) -> bool, x: T, s: seq<T>)
    requires TotalPreorder(leq) && SortedBy(leq, s)
    ensures SortedBy(leq, Insert(leq, x, s))
  {
    if s != [] && !leq(x, s[0]) {
      InsertSorted(leq, x, s[1..]);
      var rest := Insert(leq, x, s[1..]);
      forall i | 0 <= i < |rest| ensures leq(s[0], rest[i]) {
        assert rest[i] in multiset{x} + multiset(s[1..]);
        if rest[i] != x { assert rest[i] in s[1..]; }
      }
    }
  }

  lemma {:induction false} SortSorts<T(!new)>(leq: (T, T) -> bool, s: seq<T>)
    requires TotalPreorder(leq)
    ensures SortedBy(leq, SortBy(leq, s))
  {
    if s != [] {
      SortSorts(leq, s[1..]);
      InsertSorted(leq, s[0], SortBy(leq, s[1..]));
    }
  }

  lemma HeadIsLeast<T(!new)>(leq: (T, T) -> bool, s: seq<T>, x: T)
    requires TotalPreorder(leq) && SortedBy(leq, s) && x in s
    ensures leq(s[0], x)
  {
    var i :| 0 <= i < |s| && s[i] == x;
    assert leq(x, x);
  }

  /** Sorted permutations of one another are equal: order is all a sort decides. */
  lemma {:induction false} SortedUnique<T(!new)>(leq: (T, T) -> bool, a: seq<T>, b: seq<T>)
    requires TotalPreorder(leq) && Antisymmetric(leq, a)
    requires SortedBy(leq, a) && SortedBy(leq, b) && multiset(a) == multiset(b)
    ensures a == b
  {
    SameMultiset(a, b);
    if a != [] {
      HeadIsLeast(leq, b, a[0]);
      HeadIsLeast(leq, a, b[0]);
      assert a[0] == b[0];
      TailsToo(a, b);
      SortedUnique(leq, a[1..], b[1..]);
      assert a == [a[0]] + a[1..] && b == [b[0]] + b[1..];
    }
  }

  lemma SameMultiset<T>(a: seq<T>, b: seq<T>)
    requires multiset(a) == multiset(b)
    ensures |a| == |b| && forall x :: x in a <==> x in b
  {
    assert |multiset(a)| == |a| && |multiset(b)| == |b|;
    forall x ensures x in a <==> x in b {
      assert x in a <==> x in multiset(a);
      assert x in b <==> x in multiset(b);
    }
  }

  lemma TailsToo<T>(a: seq<T>, b: seq<T>)
    requires a != [] && b != [] && a[0] == b[0] && multiset(a) == multiset(b)
    ensures multiset(a[1..]) == multiset(b[1..])
  {
    assert a == [a[0]] + a[1..] && b == [b[0]] + b[1..];
    assert multiset(a[1..]) == multiset(a) - multiset{a[0]};
    assert multiset(b[1..]) == multiset(b) - multiset{b[0]};
  }

  lemma SortAgrees<T(!new)>(leq: (T, T) -> bool, a: seq<T>, b: seq<T>)
    requires TotalPreorder(leq) && Antisymmetric(leq, a)
    ensures SortBy(leq, a) == SortBy(leq, b) <==> multiset(a) == multiset(b)
  {
    if multiset(a) == multiset(b) {
      SortSorts(leq, a);
      SortSorts(leq, b);
      forall x | x in SortBy(leq, a) ensures x in a {
        assert x in multiset(SortBy(leq, a));
      }
      SortedUnique(leq, SortBy(leq, a), SortBy(leq, b));
    }
  }
}
