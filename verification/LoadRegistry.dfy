/** The registry of loaders: the order a load runs them in. */
module LoadRegistry {
  import opened Options
  import opened Sorting

  datatype LoadKey = LoadKey(service: string, action: string)

  /** A loader's registration; `complete` says it has both decode and render. */
  datatype Loader = Loader(
    key: LoadKey, table: string, rank: nat, typ: string, notFound: set<string>,
    requestToken: string, responseToken: string, truncated: string, complete: bool)

  predicate RankLeq(a: Loader, b: Loader) {
    a.rank <= b.rank
  }

  /** What `registerLoader` panics on, the table's rank given. */
  predicate Sane(l: Loader, rank: Option<nat>) {
    && rank.Some? && l.complete
    && (l.requestToken == "" <==> l.responseToken == "")
    && (l.truncated != "" ==> l.responseToken != "")
    && (l.notFound != {} ==> l.typ != "")
  }

  predicate Registered(ls: seq<Loader>, key: LoadKey) {
    exists l :: l in ls && l.key == key
  }

  /** Where `registerLoader` inserts: before the first loader of a higher rank. */
  function After(ls: seq<Loader>, rank: nat): (i: nat)
    ensures i <= |ls|
    ensures forall k :: 0 <= k < i ==> ls[k].rank <= rank
    ensures i < |ls| ==> ls[i].rank > rank
  {
    if ls == [] || ls[0].rank > rank then 0 else 1 + After(ls[1..], rank)
  }

  function Inserted(ls: seq<Loader>, l: Loader): seq<Loader> {
    ls[..After(ls, l.rank)] + [l] + ls[After(ls, l.rank)..]
  }

  ghost predicate DistinctKeys(ls: seq<Loader>) {
    forall i, j :: 0 <= i < j < |ls| ==> ls[i].key != ls[j].key
  }

  /** The global registry. */
  class Registry {
    var loaders: seq<Loader>
    ghost var registered: seq<Loader>

    /** Whatever order loaders registered in, the registry is theirs sorted by rank, ties as they came. */
    ghost predicate Valid()
      reads this
    {
      loaders == SortBy(RankLeq, registered) && DistinctKeys(registered)
    }

    constructor ()
      ensures Valid() && loaders == [] && registered == []
    {
      loaders, registered := [], [];
    }

    /** `registerLoader`; false is a panic, before anything is inserted. */
    method Register(l: Loader, rank: Option<nat>) returns (ok: bool)
      requires Valid()
      modifies this
      ensures Valid()
      ensures ok == (Sane(l, rank) && !Registered(old(loaders), l.key))
      ensures !ok ==> loaders == old(loaders) && registered == old(registered)
      ensures ok ==> registered == old(registered) + [l.(rank := rank.value)] && loaders == Inserted(old(loaders), l.(rank := rank.value))
    {
      ok := Sane(l, rank) && !Registered(loaders, l.key);
      if !ok {
        return;
      }
      var ranked := l.(rank := rank.value);
      var i := Place(ranked.rank);
      InsertedSorts(registered, ranked);
      SortKeepsKeys(registered, l.key);
      KeysStayDistinct(registered, ranked);
      hide SortBy, DistinctKeys;
      loaders := loaders[..i] + [ranked] + loaders[i..];
      registered := registered + [ranked];
    }

    /** `slices.IndexFunc` for the first loader of a higher rank, or the end. */
    method Place(rank: nat) returns (i: nat)
      ensures i == After(loaders, rank)
    {
      i := 0;
      assert loaders[0..] == loaders;
      while i < |loaders| && loaders[i].rank <= rank
        invariant i <= |loaders|
        invariant After(loaders, rank) == i + After(loaders[i..], rank)
      {
        assert loaders[i..][0] == loaders[i] && loaders[i..][1..] == loaders[i + 1..];
        i := i + 1;
      }
    }
  }

  lemma KeysStayDistinct(ls: seq<Loader>, l: Loader)
    requires DistinctKeys(ls) && !Registered(ls, l.key)
    ensures DistinctKeys(ls + [l])
  {
    assert forall i :: 0 <= i < |ls| ==> ls[i] in ls;
  }

  lemma RanksAreOrdered()
    ensures TotalPreorder(RankLeq)
  {
  }

  /** Inserting a first element by rank and a last one may be done in either order. */
  lemma {:induction false} InsertsCommute(ls: seq<Loader>, first: Loader, last: Loader)
    requires SortedBy(RankLeq, ls)
    ensures Insert(RankLeq, first, Inserted(ls, last)) == Inserted(Insert(RankLeq, first, ls), last)
  {
    hide Insert, Inserted;
    if ls == [] {
      OnlyTwo(first, last);
    } else if RankLeq(first, ls[0]) {
      FirstStays(ls, first, last);
    } else {
      InsertsCommute(ls[1..], first, last);
      if last.rank < ls[0].rank {
        InsertBefore(ls, first, last);
      } else {
        BothGoIn(ls, first, last);
      }
    }
  }

  lemma OnlyTwo(first: Loader, last: Loader)
    ensures Insert(RankLeq, first, Inserted([], last)) == Inserted(Insert(RankLeq, first, []), last)
  {
    assert Inserted([], last) == [last] && Insert(RankLeq, first, []) == [first];
    assert [last][1..] == [] && [first][1..] == [];
  }

  lemma BothGoIn(ls: seq<Loader>, first: Loader, last: Loader)
    requires ls != [] && !RankLeq(first, ls[0]) && ls[0].rank <= last.rank
    requires Insert(RankLeq, first, Inserted(ls[1..], last)) == Inserted(Insert(RankLeq, first, ls[1..]), last)
    ensures Insert(RankLeq, first, Inserted(ls, last)) == Inserted(Insert(RankLeq, first, ls), last)
  {
    var with := Insert(RankLeq, first, ls);
    assert with == [ls[0]] + Insert(RankLeq, first, ls[1..]);
    assert with[1..] == Insert(RankLeq, first, ls[1..]);
    InsertedTail(ls, last);
    InsertedTail(with, last);
    var all := Inserted(ls, last);
    hide Inserted;
    assert Insert(RankLeq, first, all) == [all[0]] + Insert(RankLeq, first, all[1..]);
  }

  lemma InsertedTail(ls: seq<Loader>, l: Loader)
    requires ls != [] && ls[0].rank <= l.rank
    ensures Inserted(ls, l) == [ls[0]] + Inserted(ls[1..], l)
    ensures Inserted(ls, l) != [] && Inserted(ls, l)[0] == ls[0] && Inserted(ls, l)[1..] == Inserted(ls[1..], l)
  {
  }

  lemma FirstStays(ls: seq<Loader>, first: Loader, last: Loader)
    requires ls != [] && RankLeq(first, ls[0])
    ensures Insert(RankLeq, first, Inserted(ls, last)) == Inserted(Insert(RankLeq, first, ls), last)
  {
    var with := [first] + ls;
    assert with[1..] == ls;
    if last.rank < first.rank {
      assert Inserted(ls, last) == [last] + ls && ([last] + ls)[1..] == ls;
      assert Inserted(with, last) == [last] + with;
    } else {
      InsertedTail(with, last);
      assert Inserted(ls, last)[0] == (if last.rank < ls[0].rank then last else ls[0]);
    }
  }

  lemma InsertBefore(ls: seq<Loader>, first: Loader, last: Loader)
    requires ls != [] && !RankLeq(first, ls[0]) && last.rank < ls[0].rank && SortedBy(RankLeq, ls)
    ensures Insert(RankLeq, first, Inserted(ls, last)) == Inserted(Insert(RankLeq, first, ls), last)
  {
    assert Inserted(ls, last) == [last] + ls && ([last] + ls)[1..] == ls;
    var with := Insert(RankLeq, first, ls);
    assert with[0] == ls[0];
    assert Inserted(with, last) == [last] + with;
  }

  /** Registering last is inserting after every loader of its rank or lower: a stable sort. */
  lemma {:induction false} InsertedSorts(ls: seq<Loader>, l: Loader)
    ensures Inserted(SortBy(RankLeq, ls), l) == SortBy(RankLeq, ls + [l])
  {
    if ls == [] {
      assert [l][1..] == [];
    } else {
      assert (ls + [l])[1..] == ls[1..] + [l];
      InsertedSorts(ls[1..], l);
      RanksAreOrdered();
      SortSorts(RankLeq, ls[1..]);
      InsertsCommute(SortBy(RankLeq, ls[1..]), ls[0], l);
    }
  }

  lemma SortKeepsKeys(ls: seq<Loader>, key: LoadKey)
    ensures Registered(SortBy(RankLeq, ls), key) <==> Registered(ls, key)
  {
    var s := SortBy(RankLeq, ls);
    forall l ensures l in s <==> l in ls {
      assert l in multiset(s) <==> l in multiset(ls);
    }
  }

  /** The registry runs parents first; where no two loaders share a rank, init order never shows. */
  lemma RegistryIsRanked(a: seq<Loader>, b: seq<Loader>)
    requires multiset(a) == multiset(b)
    requires forall x, y :: x in a && y in a && x.rank == y.rank ==> x == y
    ensures SortedBy(RankLeq, SortBy(RankLeq, a))
    ensures SortBy(RankLeq, a) == SortBy(RankLeq, b)
  {
    RanksAreOrdered();
    SortSorts(RankLeq, a);
    SortAgrees(RankLeq, a, b);
  }

  /** The loaders of one table, in the order they registered. */
  function OfRank(ls: seq<Loader>, rank: nat): seq<Loader> {
    if ls == [] then [] else (if ls[0].rank == rank then [ls[0]] else []) + OfRank(ls[1..], rank)
  }

  lemma TailIsSorted(ls: seq<Loader>)
    requires SortedBy(RankLeq, ls) && ls != []
    ensures SortedBy(RankLeq, ls[1..])
  {
  }

  lemma OfRankSplits(x: Loader, ls: seq<Loader>, rank: nat)
    ensures OfRank([x] + ls, rank) == (if x.rank == rank then [x] else []) + OfRank(ls, rank)
  {
    assert ([x] + ls)[1..] == ls;
  }

  lemma {:induction false} InsertKeepsRank(x: Loader, ls: seq<Loader>, rank: nat)
    requires SortedBy(RankLeq, ls)
    ensures OfRank(Insert(RankLeq, x, ls), rank) == OfRank([x] + ls, rank)
  {
    hide OfRank, SortedBy;
    OfRankSplits(x, ls, rank);
    if ls != [] && !RankLeq(x, ls[0]) {
      var rest := ls[1..];
      TailIsSorted(ls);
      InsertKeepsRank(x, rest, rank);
      OfRankSplits(x, rest, rank);
      OfRankSplits(ls[0], Insert(RankLeq, x, rest), rank);
      OfRankSplits(ls[0], rest, rank);
      assert ls == [ls[0]] + rest;
    }
  }

  /** Loaders on one table run in registration order. */
  lemma {:induction false} TiesKeepTheirOrder(ls: seq<Loader>, rank: nat)
    ensures OfRank(SortBy(RankLeq, ls), rank) == OfRank(ls, rank)
  {
    if ls != [] {
      TiesKeepTheirOrder(ls[1..], rank);
      RanksAreOrdered();
      SortSorts(RankLeq, ls[1..]);
      InsertKeepsRank(ls[0], SortBy(RankLeq, ls[1..]), rank);
      assert ([ls[0]] + SortBy(RankLeq, ls[1..]))[1..] == SortBy(RankLeq, ls[1..]);
    }
  }
}
