/** How many paths a diff names: each value and each set member of a side at most once. */
module DiffCounts {
  import opened Trees
  import opened Members
  import opened TreeDiff
  import opened DiffPaths

  /** A body's values, a set member with none below it counted as one. */
  function Weight(t: Tree): nat
    decreases t, 1
  {
    (if t.Valued() then 1 else 0) + KidsWeight(t.kids)
  }

  function KidsWeight(kids: seq<Tree>): nat
    decreases kids, 0
  {
    if kids == [] then 0 else KidsWeight(kids[..|kids| - 1]) + KidWeight(kids[|kids| - 1])
  }

  function KidWeight(k: Tree): (n: nat)
    ensures n >= Weight(k)
    ensures k.member ==> n >= 1
    decreases k, 2
  {
    if k.member && Weight(k) == 0 then 1 else Weight(k)
  }

  // ----- distinct kids weigh no more than all -----

  function WeightAt(kids: seq<Tree>, at: seq<nat>): nat
    requires forall k :: 0 <= k < |at| ==> at[k] < |kids|
  {
    if at == [] then 0 else KidWeight(kids[at[0]]) + WeightAt(kids, at[1..])
  }

  ghost predicate Once(at: seq<nat>) {
    forall k, l :: 0 <= k < l < |at| ==> at[k] != at[l]
  }

  lemma {:induction false} WeightAtJoins(kids: seq<Tree>, a: seq<nat>, b: seq<nat>)
    requires forall k :: 0 <= k < |a + b| ==> (a + b)[k] < |kids|
    ensures (forall k :: 0 <= k < |a| ==> a[k] < |kids|) && (forall k :: 0 <= k < |b| ==> b[k] < |kids|)
    ensures WeightAt(kids, a + b) == WeightAt(kids, a) + WeightAt(kids, b)
  {
    hide KidWeight;
    assert forall k :: 0 <= k < |a| ==> (a + b)[k] == a[k];
    assert forall k :: 0 <= k < |b| ==> (a + b)[|a| + k] == b[k];
    if a == [] {
      assert a + b == b;
    } else {
      assert (a + b)[1..] == a[1..] + b;
      WeightAtJoins(kids, a[1..], b);
    }
  }

  lemma {:induction false} WeightAtPrefix(kids: seq<Tree>, n: nat, at: seq<nat>)
    requires n <= |kids| && forall k :: 0 <= k < |at| ==> at[k] < n
    ensures WeightAt(kids, at) == WeightAt(kids[..n], at)
  {
    hide KidWeight;
    if at != [] { WeightAtPrefix(kids, n, at[1..]); }
  }

  lemma WeightWithout(kids: seq<Tree>, at: seq<nat>, p: nat)
    requires p < |at| && forall k :: 0 <= k < |at| ==> at[k] < |kids|
    ensures forall k :: 0 <= k < |Others(at, p)| ==> Others(at, p)[k] < |kids|
    ensures WeightAt(kids, at) == KidWeight(kids[at[p]]) + WeightAt(kids, Others(at, p))
  {
    var before, after := at[..p], at[p + 1..];
    hide KidWeight;
    assert at == before + ([at[p]] + after);
    assert ([at[p]] + after)[1..] == after;
    WeightAtJoins(kids, before, [at[p]] + after);
    WeightAtJoins(kids, before, after);
  }

  function Others(at: seq<nat>, p: nat): seq<nat>
    requires p < |at|
  {
    at[..p] + at[p + 1..]
  }

  lemma OnceWithout(at: seq<nat>, p: nat)
    requires Once(at) && p < |at|
    ensures Once(Others(at, p)) && forall i :: i in Others(at, p) ==> i in at && i != at[p]
  {
    var rest := Others(at, p);
    assert forall k :: 0 <= k < p ==> rest[k] == at[k];
    assert forall k :: p <= k < |rest| ==> rest[k] == at[k + 1];
  }

  lemma {:induction false} OnceWeighsLess(kids: seq<Tree>, at: seq<nat>)
    requires Once(at) && forall k :: 0 <= k < |at| ==> at[k] < |kids|
    ensures WeightAt(kids, at) <= KidsWeight(kids)
    decreases |kids|
  {
    hide KidWeight;
    if kids != [] {
      var n := |kids| - 1;
      if p :| 0 <= p < |at| && at[p] == n {
        WeightWithout(kids, at, p);
        OnceWithout(at, p);
        var rest := Others(at, p);
        hide Others, Once;
        assert forall k :: 0 <= k < |rest| ==> rest[k] in rest;
        WeightAtPrefix(kids, n, rest);
        OnceWeighsLess(kids[..n], rest);
      } else {
        WeightAtPrefix(kids, n, at);
        OnceWeighsLess(kids[..n], at);
      }
    }
  }

  // ----- groups -----

  /** The positions of the groups' kids, group by group. */
  function AllIndices(order: seq<GroupKey>, keys: seq<GroupKey>): (r: seq<nat>)
    ensures forall k :: 0 <= k < |r| ==> r[k] < |keys| && keys[r[k]] in order
  {
    if order == [] then [] else Indices(keys, order[0]) + AllIndices(order[1..], keys)
  }

  ghost predicate Different(order: seq<GroupKey>) {
    forall k, l :: 0 <= k < l < |order| ==> order[k] != order[l]
  }

  lemma {:induction false} AllIndicesOnce(order: seq<GroupKey>, keys: seq<GroupKey>)
    requires Different(order)
    ensures Once(AllIndices(order, keys))
  {
    if order != [] {
      AllIndicesOnce(order[1..], keys);
      var a, b := Indices(keys, order[0]), AllIndices(order[1..], keys);
      forall k, l | 0 <= k < |a| && 0 <= l < |b| ensures a[k] != b[l] {
        assert keys[a[k]] == order[0] && keys[b[l]] in order[1..];
      }
    }
  }

  function GroupsWeight(order: seq<GroupKey>, t: Tree): nat {
    if order == [] then 0 else KidsWeight(KidsIn(t, order[0])) + GroupsWeight(order[1..], t)
  }

  lemma {:induction false} KidsWeightJoins(a: seq<Tree>, b: seq<Tree>)
    ensures KidsWeight(a + b) == KidsWeight(a) + KidsWeight(b)
    decreases |b|
  {
    hide KidWeight;
    if b == [] {
      assert a + b == a;
    } else {
      var n := |b| - 1;
      assert (a + b)[..|a + b| - 1] == a + b[..n];
      KidsWeightJoins(a, b[..n]);
    }
  }

  lemma {:induction false} PickedWeight(kids: seq<Tree>, at: seq<nat>)
    requires forall k :: 0 <= k < |at| ==> at[k] < |kids|
    ensures KidsWeight(Pick(kids, at)) == WeightAt(kids, at)
  {
    hide KidWeight;
    if at != [] {
      PickedWeight(kids, at[1..]);
      assert Pick(kids, at) == [kids[at[0]]] + Pick(kids, at[1..]);
      KidsWeightJoins([kids[at[0]]], Pick(kids, at[1..]));
      assert [kids[at[0]]][..0] == [];
    }
  }

  lemma {:induction false} GroupsWeighAt(order: seq<GroupKey>, t: Tree)
    ensures GroupsWeight(order, t) == WeightAt(t.kids, AllIndices(order, Keys(t.kids)))
  {
    if order != [] {
      var keys := Keys(t.kids);
      GroupsWeighAt(order[1..], t);
      PickedWeight(t.kids, Indices(keys, order[0]));
      WeightAtJoins(t.kids, Indices(keys, order[0]), AllIndices(order[1..], keys));
      hide KidsWeight, WeightAt;
    }
  }

  lemma GroupsWeighLess(order: seq<GroupKey>, t: Tree)
    requires Different(order)
    ensures GroupsWeight(order, t) <= KidsWeight(t.kids)
  {
    GroupsWeighAt(order, t);
    AllIndicesOnce(order, Keys(t.kids));
    OnceWeighsLess(t.kids, AllIndices(order, Keys(t.kids)));
  }

  lemma SortedDifferent(a: seq<GroupKey>, b: seq<GroupKey>)
    requires Different(a) && multiset(a) == multiset(b)
    ensures Different(b)
  {
    forall k, l | 0 <= k < l < |b| ensures b[k] != b[l] {
      CountDistinct(a, b[k]);
      assert b == b[..l] + [b[l]] + b[l + 1..];
      assert b[..l] == b[..k] + [b[k]] + b[k + 1..l];
      assert multiset(b)[b[k]] <= 1;
    }
  }

  lemma {:induction false} MissingDifferent(order: seq<GroupKey>, ka: seq<GroupKey>)
    requires Different(order)
    ensures Different(Missing(order, ka))
  {
    if order != [] {
      MissingDifferent(order[1..], ka);
      var rest := Missing(order[1..], ka);
      forall g | g in rest ensures g != order[0] {
        var k :| 0 <= k < |order| - 1 && order[1..][k] == g;
        assert order[k + 1] == g;
      }
    }
  }

  lemma OrdersDiffer(ka: seq<GroupKey>, kb: seq<GroupKey>)
    ensures Different(BothOrders(ka, kb))
  {
    SortedDifferent(Distinct(ka), Order(ka));
    SortedDifferent(Distinct(kb), Order(kb));
    MissingDifferent(Order(kb), ka);
    hide Order, Missing, Different;
    DifferentJoins(Order(ka), Missing(Order(kb), ka));
  }

  lemma DifferentJoins(a: seq<GroupKey>, b: seq<GroupKey>)
    requires Different(a) && Different(b) && forall g :: g in a ==> g !in b
    ensures Different(a + b)
  {
    forall k, l | 0 <= k < |a| && 0 <= l < |b| ensures a[k] != b[l] {
      assert a[k] in a && b[l] in b;
    }
  }

  // ----- entries -----

  function EntryWeight(e: Entry, side: Side): nat {
    match e
    case Pair(_, _, a, b) => Weight(On(side, a, b))
    case RecordedOnly(_) => if side.Recording? then 1 else 0
    case RenderedOnly(_) => if side.Recording? then 0 else 1
  }

  function PlanWeight(plan: seq<Entry>, side: Side): nat {
    if plan == [] then 0 else EntryWeight(plan[0], side) + PlanWeight(plan[1..], side)
  }

  lemma {:induction false} PlanWeightJoins(p: seq<Entry>, q: seq<Entry>, side: Side)
    ensures PlanWeight(p + q, side) == PlanWeight(p, side) + PlanWeight(q, side)
  {
    hide EntryWeight;
    if p == [] {
      assert p + q == q;
    } else {
      assert (p + q)[1..] == p[1..] + q;
      PlanWeightJoins(p[1..], q, side);
    }
  }

  lemma EmptyWeighsNothing()
    ensures Weight(EMPTY) == 0
  {
  }

  lemma {:induction false} FieldsWeigh(plan: seq<Entry>, kids: seq<Tree>, side: Side, n: nat)
    requires n <= |plan|
    requires forall i: nat :: i < |plan| ==> plan[i].Pair? && On(side, plan[i].a, plan[i].b) == At(kids, i)
    ensures PlanWeight(plan[..n], side) <= KidsWeight(kids[..if n < |kids| then n else |kids|])
  {
    hide Weight, KidWeight;
    if n > 0 {
      FieldsWeigh(plan, kids, side, n - 1);
      assert plan[..n] == plan[..n - 1] + [plan[n - 1]];
      PlanWeightJoins(plan[..n - 1], [plan[n - 1]], side);
      assert [plan[n - 1]][1..] == [];
      if n <= |kids| {
        assert kids[..n][..n - 1] == kids[..n - 1];
      } else {
        EmptyWeighsNothing();
      }
    }
  }

  lemma FieldPlanWeighs(name: string, kidsA: seq<Tree>, kidsB: seq<Tree>, side: Side)
    ensures PlanWeight(FieldPlan(name, kidsA, kidsB), side) <= KidsWeight(On(side, kidsA, kidsB))
  {
    var plan, kids := FieldPlan(name, kidsA, kidsB), On(side, kidsA, kidsB);
    FieldsWeigh(plan, kids, side, |plan|);
    assert plan[..|plan|] == plan && kids[..|kids|] == kids;
  }

  function PlaceOn(side: Side, c: Candidate): nat {
    On(side, c.i, c.j)
  }

  function PlacesOn(side: Side, chosen: seq<Candidate>): (r: seq<nat>)
    ensures |r| == |chosen|
  {
    seq(|chosen|, k requires 0 <= k < |chosen| => PlaceOn(side, chosen[k]))
  }

  lemma {:induction false} PairsWeigh(name: string, kidsA: seq<Tree>, kidsB: seq<Tree>, chosen: seq<Candidate>, side: Side)
    requires forall c :: c in chosen ==> c.i < |kidsA| && c.j < |kidsB|
    ensures forall k :: 0 <= k < |chosen| ==> PlacesOn(side, chosen)[k] < |On(side, kidsA, kidsB)|
    ensures PlanWeight(PairEntries(name, kidsA, kidsB, chosen), side) <= WeightAt(On(side, kidsA, kidsB), PlacesOn(side, chosen))
    decreases |chosen|
  {
    assert forall k :: 0 <= k < |chosen| ==> chosen[k] in chosen;
    if chosen != [] {
      hide Weight, KidWeight, Indexed;
      PairsWeigh(name, kidsA, kidsB, chosen[1..], side);
      assert PairEntries(name, kidsA, kidsB, chosen)[1..] == PairEntries(name, kidsA, kidsB, chosen[1..]);
      assert PlacesOn(side, chosen)[1..] == PlacesOn(side, chosen[1..]);
    }
  }

  lemma {:induction false} WholesWeigh(plan: seq<Entry>, kids: seq<Tree>, left: seq<nat>, side: Side)
    requires |plan| == |left| && (forall k :: 0 <= k < |left| ==> left[k] < |kids| && kids[left[k]].member)
    requires forall e :: e in plan ==> EntryWeight(e, side) <= 1
    ensures PlanWeight(plan, side) <= WeightAt(kids, left)
    decreases |plan|
  {
    hide KidWeight, EntryWeight;
    if plan != [] { WholesWeigh(plan[1..], kids, left[1..], side); }
  }

  lemma {:induction false} NothingWeighs(plan: seq<Entry>, side: Side)
    requires forall e :: e in plan ==> EntryWeight(e, side) == 0
    ensures PlanWeight(plan, side) == 0
  {
    hide EntryWeight;
    if plan != [] { NothingWeighs(plan[1..], side); }
  }

  lemma {:induction false} LeftOnce(all: seq<nat>, used: set<nat>)
    requires Once(all)
    ensures Once(Left(all, used))
  {
    if all != [] {
      LeftOnce(all[1..], used);
      var rest := Left(all[1..], used);
      forall x | x in rest ensures x != all[0] {
        var k :| 0 <= k < |all| - 1 && all[1..][k] == x;
        assert all[k + 1] == x;
      }
    }
  }

  lemma OnceJoins(a: seq<nat>, b: seq<nat>)
    requires Once(a) && Once(b) && forall i :: i in a ==> i !in b
    ensures Once(a + b)
  {
    forall k, l | 0 <= k < |a| && 0 <= l < |b| ensures a[k] != b[l] {
      assert a[k] in a && b[l] in b;
    }
  }

  lemma PlacesAreOnce(side: Side, chosen: seq<Candidate>)
    requires IsMatching(chosen)
    ensures Once(PlacesOn(side, chosen))
  {
  }

  lemma PlaceIsUsed(side: Side, chosen: seq<Candidate>, i: nat)
    requires i in PlacesOn(side, chosen)
    ensures i in On(side, Usedi(chosen), Usedj(chosen))
  {
    var k :| 0 <= k < |chosen| && PlaceOn(side, chosen[k]) == i;
    assert chosen[k] in chosen;
  }

  /** The members a side pairs and the members it has left over are different members. */
  lemma PlacesOnce(kidsA: seq<Tree>, kidsB: seq<Tree>, hash: string -> nat, side: Side)
    ensures var u, chosen := UnmatchedOf(kidsA, kidsB), ChosenOf(hash, kidsA, kidsB);
            var left := On(side, Surplus(kidsA, u.a, Usedi(chosen)), Surplus(kidsB, u.b, Usedj(chosen)));
            Once(PlacesOn(side, chosen) + left)
  {
    var u, chosen := UnmatchedOf(kidsA, kidsB), ChosenOf(hash, kidsA, kidsB);
    NearestAccounts(u.a, u.b, Score(hash, kidsA, kidsB), |kidsA|, |kidsB|);
    PlacesAreOnce(side, chosen);
    LeftOnce(u.a, Usedi(chosen));
    LeftOnce(u.b, Usedj(chosen));
    var left := On(side, Left(u.a, Usedi(chosen)), Left(u.b, Usedj(chosen)));
    hide UnmatchedOf, ChosenOf, Nearest, Score, IsMatching, PlacesOn, Once, Usedi, Usedj;
    forall i | i in PlacesOn(side, chosen) ensures i !in left {
      PlaceIsUsed(side, chosen, i);
    }
    OnceJoins(PlacesOn(side, chosen), left);
  }

  lemma MemberPlanWeighs(hash: string -> nat, name: string, kidsA: seq<Tree>, kidsB: seq<Tree>, side: Side)
    requires forall k :: k in kidsA || k in kidsB ==> k.member
    ensures PlanWeight(MemberPlan(hash, name, kidsA, kidsB), side) <= KidsWeight(On(side, kidsA, kidsB))
  {
    var u, chosen := UnmatchedOf(kidsA, kidsB), ChosenOf(hash, kidsA, kidsB);
    var leftA, leftB := Surplus(kidsA, u.a, Usedi(chosen)), Surplus(kidsB, u.b, Usedj(chosen));
    PlacesOnce(kidsA, kidsB, hash, side);
    hide UnmatchedOf, ChosenOf, Surplus, Usedi, Usedj, KidWeight, Weight, Indexed;
    MembersWeigh(name, kidsA, kidsB, chosen, leftA, leftB, side);
  }

  lemma MembersWeigh(name: string, kidsA: seq<Tree>, kidsB: seq<Tree>, chosen: seq<Candidate>, leftA: seq<nat>, leftB: seq<nat>, side: Side)
    requires forall k :: k in kidsA || k in kidsB ==> k.member
    requires forall c :: c in chosen ==> c.i < |kidsA| && c.j < |kidsB|
    requires (forall k :: 0 <= k < |leftA| ==> leftA[k] < |kidsA|) && forall k :: 0 <= k < |leftB| ==> leftB[k] < |kidsB|
    requires Once(PlacesOn(side, chosen) + On(side, leftA, leftB))
    ensures PlanWeight(PairEntries(name, kidsA, kidsB, chosen) + RecordedEntries(name, kidsA, leftA) + RenderedEntries(name, kidsB, leftB), side)
            <= KidsWeight(On(side, kidsA, kidsB))
  {
    var kids, left := On(side, kidsA, kidsB), On(side, leftA, leftB);
    var pairs, recorded, rendered := PairEntries(name, kidsA, kidsB, chosen), RecordedEntries(name, kidsA, leftA), RenderedEntries(name, kidsB, leftB);
    PlanWeightJoins(pairs + recorded, rendered, side);
    PlanWeightJoins(pairs, recorded, side);
    PairsWeigh(name, kidsA, kidsB, chosen, side);
    hide KidWeight, Weight, Indexed;
    if side.Recording? {
      WholesWeigh(recorded, kids, left, side);
      NothingWeighs(rendered, side);
    } else {
      WholesWeigh(rendered, kids, left, side);
      NothingWeighs(recorded, side);
    }
    hide PlanWeight, KidsWeight;
    var at := PlacesOn(side, chosen) + left;
    WeightAtJoins(kids, PlacesOn(side, chosen), left);
    OnceWeighsLess(kids, at);
  }

  lemma GroupPlanWeighs(hash: string -> nat, g: GroupKey, x: Tree, y: Tree, side: Side)
    ensures PlanWeight(GroupPlan(hash, g, KidsIn(x, g), KidsIn(y, g)), side) <= KidsWeight(KidsIn(On(side, x, y), g))
  {
    var as_, bs := KidsIn(x, g), KidsIn(y, g);
    if g.member {
      KidsOfGroup(x, g);
      KidsOfGroup(y, g);
      hide KidsIn, PlanWeight, KidsWeight, MemberPlan, FieldPlan;
      MemberPlanWeighs(hash, Label(g.name, g.json), as_, bs, side);
    } else {
      hide KidsIn, PlanWeight, KidsWeight, MemberPlan, FieldPlan;
      FieldPlanWeighs(Label(g.name, g.json), as_, bs, side);
    }
  }

  lemma KidsOfGroup(t: Tree, g: GroupKey)
    ensures forall k :: k in KidsIn(t, g) ==> k.Group() == g
  {
    var at := Indices(Keys(t.kids), g);
    forall k | k in KidsIn(t, g) ensures k.Group() == g {
      var i :| 0 <= i < |at| && t.kids[at[i]] == k;
      assert Keys(t.kids)[at[i]] == g;
    }
  }

  lemma {:induction false} PlanWeighs(hash: string -> nat, order: seq<GroupKey>, x: Tree, y: Tree, side: Side)
    ensures PlanWeight(Plan(hash, order, x, y), side) <= GroupsWeight(order, On(side, x, y))
  {
    hide GroupPlan, KidsIn, KidsWeight;
    if order != [] {
      PlanWeighs(hash, order[1..], x, y, side);
      GroupPlanWeighs(hash, order[0], x, y, side);
      PlanWeightJoins(GroupPlan(hash, order[0], KidsIn(x, order[0]), KidsIn(y, order[0])), Plan(hash, order[1..], x, y), side);
    }
  }

  // ----- the count -----

  lemma {:induction false} RunCounts(hash: string -> nat, plan: seq<Entry>, x: Tree, y: Tree, side: Side)
    requires Within(plan, x.kids, y.kids)
    requires forall e :: e in plan && e.Pair? ==> |Named(Node(hash, e.a, e.b), side)| <= Weight(On(side, e.a, e.b))
    ensures |Named(Run(hash, plan, x, y), side)| <= PlanWeight(plan, side)
  {
    hide Node, Weight;
    if plan != [] {
      RunCounts(hash, plan[1..], x, y, side);
      EntryCounts(hash, plan[0], x, y, side);
      hide EntryPaths, EntryWeight;
    }
  }

  lemma EntryCounts(hash: string -> nat, e: Entry, x: Tree, y: Tree, side: Side)
    requires Within([e], x.kids, y.kids)
    requires e.Pair? ==> |Named(Node(hash, e.a, e.b), side)| <= Weight(On(side, e.a, e.b))
    ensures |Named(EntryPaths(hash, e, x, y), side)| <= EntryWeight(e, side)
  {
    hide Node, Weight, Join;
  }

  /** A node diff names no more paths on a side than it has values, and set members with none. */
  lemma {:induction false} NamedAtMostOnce(hash: string -> nat, x: Tree, y: Tree, side: Side)
    ensures |Named(Node(hash, x, y), side)| <= Weight(On(side, x, y))
    decreases Size(x) + Size(y)
  {
    var order := BothOrders(Keys(x.kids), Keys(y.kids));
    var plan := Plan(hash, order, x, y);
    forall e | e in plan && e.Pair? ensures |Named(Node(hash, e.a, e.b), side)| <= Weight(On(side, e.a, e.b)) {
      EntryIsSmaller(plan, e, x, y);
      NamedAtMostOnce(hash, e.a, e.b, side);
    }
    hide Plan, Run, KidsWeight, GroupsWeight, PlanWeight, BothOrders, Keys;
    RunCounts(hash, plan, x, y, side);
    PlanWeighs(hash, order, x, y, side);
    OrdersDiffer(Keys(x.kids), Keys(y.kids));
    GroupsWeighLess(order, On(side, x, y));
    OwnCounts(x, y, side);
    hide Own, Weight;
    assert Named(Node(hash, x, y), side) == Named(Own(x, y), side) + Named(Run(hash, plan, x, y), side);
  }

  lemma OwnCounts(x: Tree, y: Tree, side: Side)
    ensures |Named(Own(x, y), side)| + KidsWeight(On(side, x, y).kids) <= Weight(On(side, x, y))
  {
    hide KidsWeight;
  }
}
