/**
 * `treeDiffer` as the code runs it: a memo of forms, used flags, work lists and
 * merge loops, each computing what `TreeDiff` defines.
 */
module TreeDiffers {
  import opened Sorting
  import opened Text
  import opened Trees
  import opened Members
  import opened TreeDiff

  // ----- diffDistance -----

  ghost predicate AscendingLeaves(s: seq<nat>) {
    forall i, j :: 0 <= i < j < |s| ==> s[i] <= s[j]
  }

  /** What is left to count from `a[i..]` and `b[j..]`. */
  ghost function Remaining(a: seq<nat>, i: nat, b: seq<nat>, j: nat): nat
    requires i <= |a| && j <= |b|
  {
    Distance(multiset(a[i..]), multiset(b[j..]))
  }

  lemma TailOf(s: seq<nat>, i: nat)
    requires i < |s|
    ensures multiset(s[i..]) == multiset{s[i]} + multiset(s[i + 1..])
  {
    assert s[i..] == [s[i]] + s[i + 1..];
  }

  lemma CommonLeaf(a: seq<nat>, i: nat, b: seq<nat>, j: nat)
    requires i < |a| && j < |b| && a[i] == b[j]
    ensures Remaining(a, i, b, j) == Remaining(a, i + 1, b, j + 1)
  {
    TailOf(a, i);
    TailOf(b, j);
    var e, x, y := multiset{a[i]}, multiset(a[i + 1..]), multiset(b[j + 1..]);
    assert (e + x) - (e + y) == x - y;
    assert (e + y) - (e + x) == y - x;
  }

  lemma LoneLeaf(a: seq<nat>, i: nat, b: seq<nat>, j: nat)
    requires i < |a| && j < |b| && a[i] < b[j] && AscendingLeaves(b)
    ensures Remaining(a, i, b, j) == 1 + Remaining(a, i + 1, b, j)
  {
    TailOf(a, i);
    var e, x, y := multiset{a[i]}, multiset(a[i + 1..]), multiset(b[j..]);
    assert forall k :: 0 <= k < |b[j..]| ==> b[j..][k] >= b[j];
    assert a[i] !in y;
    assert (e + x) - y == e + (x - y);
    assert y - (e + x) == y - x;
  }

  lemma RemainingIsSymmetric(a: seq<nat>, i: nat, b: seq<nat>, j: nat)
    requires i <= |a| && j <= |b|
    ensures Remaining(a, i, b, j) == Remaining(b, j, a, i)
  {
  }

  lemma OneStep(a: seq<nat>, i: nat, b: seq<nat>, j: nat)
    requires i < |a| && j < |b| && AscendingLeaves(a) && AscendingLeaves(b)
    ensures a[i] == b[j] ==> Remaining(a, i, b, j) == Remaining(a, i + 1, b, j + 1)
    ensures a[i] < b[j] ==> Remaining(a, i, b, j) == 1 + Remaining(a, i + 1, b, j)
    ensures a[i] > b[j] ==> Remaining(a, i, b, j) == 1 + Remaining(a, i, b, j + 1)
  {
    if a[i] == b[j] {
      CommonLeaf(a, i, b, j);
    } else if a[i] < b[j] {
      LoneLeaf(a, i, b, j);
    } else {
      LoneLeaf(b, j, a, i);
      RemainingIsSymmetric(a, i, b, j);
      RemainingIsSymmetric(a, i, b, j + 1);
    }
  }

  lemma OneSideDone(a: seq<nat>, i: nat, b: seq<nat>, j: nat)
    requires i <= |a| && j <= |b| && (i == |a| || j == |b|)
    ensures Remaining(a, i, b, j) == |a| - i + |b| - j
  {
    var x, y := a[i..], b[j..];
    assert |multiset(x)| == |x| && |multiset(y)| == |y|;
    if x == [] {
      assert multiset(x) - multiset(y) == multiset{} && multiset(y) - multiset(x) == multiset(y);
    } else {
      assert multiset(x) - multiset(y) == multiset(x) && multiset(y) - multiset(x) == multiset{};
    }
  }

  /** What the merge still counts. */
  ghost function Merge(a: seq<nat>, i: nat, b: seq<nat>, j: nat): nat
    requires i <= |a| && j <= |b|
    decreases |a| - i + |b| - j
  {
    if i == |a| || j == |b| then |a| - i + |b| - j
    else if a[i] == b[j] then Merge(a, i + 1, b, j + 1)
    else if a[i] < b[j] then 1 + Merge(a, i + 1, b, j)
    else 1 + Merge(a, i, b, j + 1)
  }

  lemma {:induction false} MergeIsRemaining(a: seq<nat>, i: nat, b: seq<nat>, j: nat)
    requires i <= |a| && j <= |b| && AscendingLeaves(a) && AscendingLeaves(b)
    ensures Merge(a, i, b, j) == Remaining(a, i, b, j)
    decreases |a| - i + |b| - j
  {
    if i == |a| || j == |b| {
      OneSideDone(a, i, b, j);
    } else {
      OneStep(a, i, b, j);
      if a[i] == b[j] {
        MergeIsRemaining(a, i + 1, b, j + 1);
      } else if a[i] < b[j] {
        MergeIsRemaining(a, i + 1, b, j);
      } else {
        MergeIsRemaining(a, i, b, j + 1);
      }
    }
  }

  lemma MergeIsDistance(a: seq<nat>, b: seq<nat>)
    requires AscendingLeaves(a) && AscendingLeaves(b)
    ensures Merge(a, 0, b, 0) == Distance(multiset(a), multiset(b))
  {
    MergeIsRemaining(a, 0, b, 0);
    assert a[0..] == a && b[0..] == b;
  }

  /** Merges two sorted lists, counting what only one holds. */
  method DiffDistance(a: seq<nat>, b: seq<nat>) returns (n: nat)
    requires AscendingLeaves(a) && AscendingLeaves(b)
    ensures n == Distance(multiset(a), multiset(b))
  {
    n := 0;
    var i, j := 0, 0;
    while i < |a| && j < |b|
      invariant i <= |a| && j <= |b|
      invariant n + Merge(a, i, b, j) == Merge(a, 0, b, 0)
    {
      if a[i] == b[j] {
        i, j := i + 1, j + 1;
      } else if a[i] < b[j] {
        n, i := n + 1, i + 1;
      } else {
        n, j := n + 1, j + 1;
      }
    }
    n := n + |a| - i + |b| - j;
    MergeIsDistance(a, b);
  }

  /** The score is a metric on leaf multisets. */
  lemma DistanceIsMetric(a: multiset<nat>, b: multiset<nat>, c: multiset<nat>)
    ensures Distance(a, b) == 0 <==> a == b
    ensures Distance(a, b) == Distance(b, a)
    ensures Distance(a, c) <= Distance(a, b) + Distance(b, c)
  {
    if Distance(a, b) == 0 {
      forall x ensures a[x] == b[x] {
        assert (a - b)[x] == 0 && (b - a)[x] == 0;
      }
    }
    SubsetIsSmaller(a - c, (a - b) + (b - c));
    SubsetIsSmaller(c - a, (c - b) + (b - a));
  }

  lemma SubsetIsSmaller(x: multiset<nat>, y: multiset<nat>)
    requires forall e :: x[e] <= y[e]
    ensures |x| <= |y|
  {
    assert y == x + (y - x);
  }

  predicate AtMost(x: nat, y: nat) {
    x <= y
  }

  /** `diffLeaves`: the hashed leaves, sorted. */
  function SortedLeaves(hash: string -> nat, t: Tree): (r: seq<nat>)
    ensures multiset(r) == multiset(Leaves(hash, t, ""))
    ensures AscendingLeaves(r)
  {
    SortSorts(AtMost, Leaves(hash, t, ""));
    SortBy(AtMost, Leaves(hash, t, ""))
  }

  // ----- free members by form -----

  /** The free positions whose form is `f`, in order: what byForm holds for `f`. */
  function Select(fb: seq<string>, free: seq<nat>, f: string): (r: seq<nat>)
    requires forall k :: 0 <= k < |free| ==> free[k] < |fb|
  {
    if free == [] then []
    else (if fb[free[0]] == f then [free[0]] else []) + Select(fb, free[1..], f)
  }

  lemma {:induction false} SelectAppends(fb: seq<string>, free: seq<nat>, j: nat, f: string)
    requires j < |fb| && forall k :: 0 <= k < |free| ==> free[k] < |fb|
    ensures Select(fb, free + [j], f) == Select(fb, free, f) + if fb[j] == f then [j] else []
  {
    var all := free + [j];
    if free == [] {
      assert all == [j] && all[1..] == [] && Select(fb, [], f) == [];
    } else {
      assert all[1..] == free[1..] + [j] && all[0] == free[0];
      SelectAppends(fb, free[1..], j, f);
      var head := if fb[free[0]] == f then [free[0]] else [];
      Regroup(head, Select(fb, free[1..], f), if fb[j] == f then [j] else []);
    }
  }

  /** The queue of a form starts at its first free member. */
  lemma {:induction false} SelectStarts(fb: seq<string>, free: seq<nat>, f: string)
    requires forall k :: 0 <= k < |free| ==> free[k] < |fb|
    ensures var p := FirstWith(fb, free, f);
            && (Select(fb, free, f) == [] <==> p == |free|)
            && (p < |free| ==> Select(fb, free, f)[0] == free[p])
  {
    if free != [] && fb[free[0]] != f {
      SelectStarts(fb, free[1..], f);
    }
  }

  /** Taking a member out of the middle takes it out of its own queue. */
  lemma {:induction false} SelectWithout(fb: seq<string>, free: seq<nat>, p: nat, h: string)
    requires (forall k :: 0 <= k < |free| ==> free[k] < |fb|) && p < |free|
    requires forall k :: 0 <= k < p ==> fb[free[k]] != fb[free[p]]
    ensures Select(fb, free, fb[free[p]]) != []
    ensures Select(fb, Without(free, p), h) == if h == fb[free[p]] then Select(fb, free, h)[1..] else Select(fb, free, h)
  {
    if p == 0 {
      assert Without(free, 0) == free[1..];
    } else {
      var rest, fewer := free[1..], Without(free, p);
      assert fb[free[0]] != fb[free[p]] && rest[p - 1] == free[p];
      SelectWithout(fb, rest, p - 1, h);
      assert fewer[0] == free[0] && fewer[1..] == Without(rest, p - 1);
    }
  }

  /** Taking the first free member of a form pops the form's queue. */
  lemma SelectPops(fb: seq<string>, free: seq<nat>, f: string, h: string)
    requires forall k :: 0 <= k < |free| ==> free[k] < |fb|
    ensures var p := FirstWith(fb, free, f);
            && (Select(fb, free, f) == [] <==> p == |free|)
            && (p < |free| ==> Select(fb, free, f)[0] == free[p])
            && (p < |free| ==> Select(fb, Without(free, p), h) == if h == f then Select(fb, free, f)[1..] else Select(fb, free, h))
  {
    hide Select, FirstWith, Without;
    SelectStarts(fb, free, f);
    var p := FirstWith(fb, free, f);
    if p < |free| {
      SelectWithout(fb, free, p, h);
    }
  }

  // ----- the entries of a plan, run in parts -----

  lemma {:induction false} RunJoins(hash: string -> nat, p: seq<Entry>, q: seq<Entry>, a: Tree, b: Tree)
    requires Within(p, a.kids, b.kids) && Within(q, a.kids, b.kids)
    ensures Within(p + q, a.kids, b.kids)
    ensures Run(hash, p + q, a, b) == Run(hash, p, a, b).Plus(Run(hash, q, a, b))
  {
    WithinJoins(p, q, a.kids, b.kids);
    if p == [] {
      assert p + q == q;
    } else {
      assert (p + q)[1..] == p[1..] + q;
      RunJoins(hash, p[1..], q, a, b);
      PlusAssociates(EntryPaths(hash, p[0], a, b), Run(hash, p[1..], a, b), Run(hash, q, a, b));
    }
  }

  lemma PlusAssociates(x: Paths, y: Paths, z: Paths)
    ensures x.Plus(y).Plus(z) == x.Plus(y.Plus(z))
  {
  }

  lemma RunOfOne(hash: string -> nat, e: Entry, a: Tree, b: Tree)
    requires Within([e], a.kids, b.kids)
    ensures Run(hash, [e], a, b) == EntryPaths(hash, e, a, b)
  {
    assert [e][1..] == [];
    assert Run(hash, [], a, b) == Paths([], []);
  }

  /** A plan run up to `n` entries runs on by one. */
  lemma RunExtends(hash: string -> nat, plan: seq<Entry>, n: nat, a: Tree, b: Tree)
    requires Within(plan, a.kids, b.kids) && n < |plan|
    ensures Within(plan[..n], a.kids, b.kids) && Within(plan[..n + 1], a.kids, b.kids) && Within([plan[n]], a.kids, b.kids)
    ensures Run(hash, plan[..n + 1], a, b) == Run(hash, plan[..n], a, b).Plus(EntryPaths(hash, plan[n], a, b))
  {
    assert plan[..n + 1] == plan[..n] + [plan[n]];
    assert forall e :: e in plan[..n] ==> e in plan;
    assert plan[n] in plan;
    RunJoins(hash, plan[..n], [plan[n]], a, b);
    RunOfOne(hash, plan[n], a, b);
  }

  lemma {:induction false} SpellPartsAppends(forms: seq<string>, f: string)
    ensures SpellParts(forms + [f]) == SpellParts(forms) + Part(f)
  {
    if forms == [] {
      assert [] + [f] == [f] && [f][1..] == [];
    } else {
      assert (forms + [f])[1..] == forms[1..] + [f];
      SpellPartsAppends(forms[1..], f);
      assert Part(forms[0]) + (SpellParts(forms[1..]) + Part(f)) == Part(forms[0]) + SpellParts(forms[1..]) + Part(f);
    }
  }

  // ----- flags for what is still unmatched -----

  lemma {:induction false} LeftAscends(all: seq<nat>, used: set<nat>, low: nat, high: nat)
    requires Ascending(all, low, high)
    ensures Ascending(Left(all, used), low, high)
  {
    if all != [] {
      assert Ascending(all[1..], all[0] + 1, high);
      LeftAscends(all[1..], used, all[0] + 1, high);
    }
  }

  ghost predicate FlagsMatch(used: seq<bool>, free: seq<nat>) {
    forall x :: 0 <= x < |used| ==> (used[x] <==> x !in free)
  }

  function Queue(byForm: map<string, seq<nat>>, f: string): seq<nat> {
    if f in byForm then byForm[f] else []
  }

  /** byForm holds the free members of each form, in order. */
  ghost predicate Queued(byForm: map<string, seq<nat>>, fb: seq<string>, free: seq<nat>)
    requires forall k :: 0 <= k < |free| ==> free[k] < |fb|
  {
    forall f :: Queue(byForm, f) == Select(fb, free, f)
  }

  lemma QueuedAppends(byForm: map<string, seq<nat>>, fb: seq<string>, j: nat)
    requires j < |fb| && Queued(byForm, fb, Upto(j))
    ensures Queued(byForm[fb[j] := Queue(byForm, fb[j]) + [j]], fb, Upto(j + 1))
  {
    assert Upto(j + 1) == Upto(j) + [j];
    forall f {
      SelectAppends(fb, Upto(j), j, f);
    }
  }

  lemma QueuedPops(byForm: map<string, seq<nat>>, fb: seq<string>, free: seq<nat>, f: string)
    requires Ascending(free, 0, |fb|) && Queued(byForm, fb, free) && Queue(byForm, f) != []
    ensures var p := FirstWith(fb, free, f);
            && p < |free| && free[p] == Queue(byForm, f)[0]
            && Queued(byForm[f := Queue(byForm, f)[1..]], fb, Without(free, p))
  {
    forall h {
      SelectPops(fb, free, f, h);
    }
  }

  lemma QueueIsEmpty(byForm: map<string, seq<nat>>, fb: seq<string>, free: seq<nat>, f: string)
    requires Ascending(free, 0, |fb|) && Queued(byForm, fb, free) && Queue(byForm, f) == []
    ensures FirstWith(fb, free, f) == |free|
  {
    SelectPops(fb, free, f, f);
  }

  lemma WithoutDrops(free: seq<nat>, p: nat, n: nat)
    requires Ascending(free, 0, n) && p < |free|
    ensures forall y :: y in Without(free, p) <==> y in free && y != free[p]
  {
    forall y | y in free && y != free[p] ensures y in Without(free, p) {
      var k :| 0 <= k < |free| && free[k] == y;
      assert Without(free, p)[if k < p then k else k - 1] == y;
    }
  }

  /** The state of the equal-form pass before member `i`. */
  ghost predicate Matching(fa: seq<string>, fb: seq<string>, i: nat, doneA: seq<nat>, free: seq<nat>) {
    && i <= |fa| && Ascending(doneA, 0, i) && Ascending(free, 0, |fb|)
    && var u, r := MatchEqual(fa, fb, 0, Upto(|fb|)), MatchEqual(fa, fb, i, free);
       u.a == doneA + r.a && u.b == r.b
  }

  lemma MatchingStarts(fa: seq<string>, fb: seq<string>)
    ensures Matching(fa, fb, 0, [], Upto(|fb|))
  {
    var r := MatchEqual(fa, fb, 0, Upto(|fb|));
    hide MatchEqual;
    assert [] + r.a == r.a;
  }

  lemma MatchingEnds(fa: seq<string>, fb: seq<string>, doneA: seq<nat>, free: seq<nat>)
    requires Matching(fa, fb, |fa|, doneA, free)
    ensures MatchEqual(fa, fb, 0, Upto(|fb|)) == Unmatched(doneA, free)
  {
    assert doneA + [] == doneA;
  }

  lemma MatchingPairs(fa: seq<string>, fb: seq<string>, i: nat, doneA: seq<nat>, free: seq<nat>, p: nat)
    requires Matching(fa, fb, i, doneA, free) && i < |fa|
    requires p == FirstWith(fb, free, fa[i]) && p < |free|
    ensures Matching(fa, fb, i + 1, doneA, Without(free, p))
    ensures Ascending(doneA, 0, i + 1) && Ascending(Without(free, p), 0, |fb|)
  {
  }

  lemma MatchingSkips(fa: seq<string>, fb: seq<string>, i: nat, doneA: seq<nat>, free: seq<nat>)
    requires Matching(fa, fb, i, doneA, free) && i < |fa|
    requires FirstWith(fb, free, fa[i]) == |free|
    ensures Matching(fa, fb, i + 1, doneA + [i], free)
    ensures Ascending(doneA + [i], 0, i + 1)
  {
    var r := MatchEqual(fa, fb, i + 1, free);
    assert doneA + ([i] + r.a) == (doneA + [i]) + r.a;
  }

  // ----- whole members -----

  function Segments(name: string, kids: seq<Tree>, at: seq<nat>): (r: seq<string>)
    requires forall k :: 0 <= k < |at| ==> at[k] < |kids|
    ensures |r| == |at|
  {
    seq(|at|, k requires 0 <= k < |at| => Indexed(name, kids[at[k]].index))
  }

  lemma {:induction false} RunRecorded(hash: string -> nat, name: string, kids: seq<Tree>, at: seq<nat>, a: Tree, b: Tree)
    requires forall k :: 0 <= k < |at| ==> at[k] < |kids|
    ensures Run(hash, RecordedEntries(name, kids, at), a, b) == Paths(Segments(name, kids, at), [])
  {
    hide Indexed, Node;
    if at != [] {
      assert RecordedEntries(name, kids, at)[1..] == RecordedEntries(name, kids, at[1..]);
      RunRecorded(hash, name, kids, at[1..], a, b);
      assert Segments(name, kids, at) == [Indexed(name, kids[at[0]].index)] + Segments(name, kids, at[1..]);
    }
  }

  lemma {:induction false} RunRendered(hash: string -> nat, name: string, kids: seq<Tree>, at: seq<nat>, a: Tree, b: Tree)
    requires forall k :: 0 <= k < |at| ==> at[k] < |kids|
    ensures Run(hash, RenderedEntries(name, kids, at), a, b) == Paths([], Segments(name, kids, at))
  {
    hide Indexed, Node;
    if at != [] {
      assert RenderedEntries(name, kids, at)[1..] == RenderedEntries(name, kids, at[1..]);
      RunRendered(hash, name, kids, at[1..], a, b);
      assert Segments(name, kids, at) == [Indexed(name, kids[at[0]].index)] + Segments(name, kids, at[1..]);
    }
  }

  /** The segments `members` appends for the unused members from `i` on. */
  function UnusedSegments(name: string, kids: seq<Tree>, used: seq<bool>, i: nat): seq<string>
    requires |used| == |kids| && i <= |kids|
    decreases |kids| - i
  {
    if i == |kids| then []
    else (if used[i] then [] else [Indexed(name, kids[i].index)]) + UnusedSegments(name, kids, used, i + 1)
  }

  lemma SegmentsSplit(name: string, kids: seq<Tree>, at: seq<nat>)
    requires at != [] && forall k :: 0 <= k < |at| ==> at[k] < |kids|
    ensures Segments(name, kids, at) == [Indexed(name, kids[at[0]].index)] + Segments(name, kids, at[1..])
  {
    hide Indexed;
  }

  /** Past `i`, an ascending list goes on without its head, if that is `i`, or as it is. */
  lemma AscendingPast(left: seq<nat>, i: nat, n: nat)
    requires Ascending(left, i, n) && i < n
    ensures i in left <==> left != [] && left[0] == i
    ensures var rest := if i in left then left[1..] else left;
            Ascending(rest, i + 1, n) && forall x :: x in rest <==> x in left && x != i
  {
    if left != [] && left[0] == i {
      assert left == [i] + left[1..];
    }
  }

  lemma {:induction false} UnusedAreLeft(name: string, kids: seq<Tree>, used: seq<bool>, left: seq<nat>, i: nat)
    requires |used| == |kids| && Ascending(left, i, |kids|) && i <= |kids|
    requires forall x :: i <= x < |used| ==> (used[x] <==> x !in left)
    ensures UnusedSegments(name, kids, used, i) == Segments(name, kids, left)
    decreases |kids| - i
  {
    hide Indexed, Segments;
    if i == |kids| {
      NoSegments(name, kids, left);
    } else {
      AscendingPast(left, i, |kids|);
      var rest := if i in left then left[1..] else left;
      assert forall x :: i + 1 <= x < |used| ==> (x in rest <==> x in left);
      hide Ascending;
      UnusedAreLeft(name, kids, used, rest, i + 1);
      var tail := UnusedSegments(name, kids, used, i + 1);
      if used[i] {
        assert UnusedSegments(name, kids, used, i) == [] + tail == tail;
      } else {
        SegmentsSplit(name, kids, left);
      }
    }
  }

  lemma NoSegments(name: string, kids: seq<Tree>, left: seq<nat>)
    requires Ascending(left, |kids|, |kids|)
    ensures Segments(name, kids, left) == []
  {
    AscendingRoom(left, |kids|, |kids|);
  }

  lemma AscendingRoom(left: seq<nat>, low: nat, high: nat)
    requires Ascending(left, low, high)
    ensures left != [] ==> low < high
  {
    if left != [] {
      assert low <= left[0] < high;
    }
  }

  /** A method per list of members: names each one no flag marks used. */
  method NameUnused(name: string, kids: seq<Tree>, used: seq<bool>, ghost left: seq<nat>) returns (segs: seq<string>)
    requires |used| == |kids| && FlagsMatch(used, left) && Ascending(left, 0, |kids|)
    ensures segs == Segments(name, kids, left)
  {
    hide Indexed, Segments;
    segs := [];
    UnusedAreLeft(name, kids, used, left, 0);
    ghost var all := UnusedSegments(name, kids, used, 0);
    for i := 0 to |kids|
      invariant segs + UnusedSegments(name, kids, used, i) == all
    {
      if !used[i] {
        segs := segs + [Indexed(name, kids[i].index)];
      }
    }
  }

  // ----- candidate pairs -----

  /** The candidates of recorded member `i` with the unused members from `j` on. */
  ghost function RowFrom(i: nat, usedB: seq<bool>, d: (nat, nat) -> nat, j: nat): seq<Candidate>
    requires j <= |usedB|
    decreases |usedB| - j
  {
    if j == |usedB| then []
    else (if usedB[j] then [] else [Candidate(i, j, d(i, j))]) + RowFrom(i, usedB, d, j + 1)
  }

  lemma {:induction false} RowFromIsRow(i: nat, usedB: seq<bool>, d: (nat, nat) -> nat, j: nat, restB: seq<nat>)
    requires j <= |usedB| && Ascending(restB, j, |usedB|)
    requires forall y :: j <= y < |usedB| ==> (usedB[y] <==> y !in restB)
    ensures RowFrom(i, usedB, d, j) == Row(i, restB, d)
    decreases |usedB| - j
  {
    if j < |usedB| {
      if restB != [] && restB[0] == j {
        assert restB == [j] + restB[1..];
        RowFromIsRow(i, usedB, d, j + 1, restB[1..]);
        RowSplits(i, restB, d);
      } else {
        RowFromIsRow(i, usedB, d, j + 1, restB);
      }
    }
  }

  lemma RowSplits(i: nat, restB: seq<nat>, d: (nat, nat) -> nat)
    requires restB != []
    ensures Row(i, restB, d) == [Candidate(i, restB[0], d(i, restB[0]))] + Row(i, restB[1..], d)
  {
  }

  lemma Regroup<T>(xs: seq<T>, ys: seq<T>, zs: seq<T>)
    ensures xs + (ys + zs) == (xs + ys) + zs
    ensures xs + ([] + zs) == xs + zs
  {
    assert [] + zs == zs;
  }

  ghost function CandidatesFrom(usedA: seq<bool>, usedB: seq<bool>, d: (nat, nat) -> nat, i: nat): seq<Candidate>
    requires i <= |usedA|
    decreases |usedA| - i
  {
    if i == |usedA| then []
    else (if usedA[i] then [] else RowFrom(i, usedB, d, 0)) + CandidatesFrom(usedA, usedB, d, i + 1)
  }

  lemma RowIsRow(i: nat, usedB: seq<bool>, d: (nat, nat) -> nat, restB: seq<nat>)
    requires Ascending(restB, 0, |usedB|) && FlagsMatch(usedB, restB)
    ensures RowFrom(i, usedB, d, 0) == Row(i, restB, d)
  {
    RowFromIsRow(i, usedB, d, 0, restB);
  }

  lemma {:induction false} CandidatesFromIsAll(
    usedA: seq<bool>, usedB: seq<bool>, d: (nat, nat) -> nat, i: nat, restA: seq<nat>, restB: seq<nat>)
    requires i <= |usedA| && Ascending(restA, i, |usedA|) && Ascending(restB, 0, |usedB|) && FlagsMatch(usedB, restB)
    requires forall x :: i <= x < |usedA| ==> (usedA[x] <==> x !in restA)
    ensures CandidatesFrom(usedA, usedB, d, i) == Candidates(restA, restB, d)
    decreases |usedA| - i
  {
    hide RowFrom, Row;
    if i < |usedA| {
      AscendingPast(restA, i, |usedA|);
      var rest := if i in restA then restA[1..] else restA;
      assert forall x :: i + 1 <= x < |usedA| ==> (x in rest <==> x in restA);
      hide Ascending, FlagsMatch;
      CandidatesFromIsAll(usedA, usedB, d, i + 1, rest, restB);
      if usedA[i] {
        assert CandidatesFrom(usedA, usedB, d, i) == [] + CandidatesFrom(usedA, usedB, d, i + 1);
      } else {
        RowIsRow(i, usedB, d, restB);
      }
    } else {
      AscendingRoom(restA, i, |usedA|);
    }
  }

  // ----- one pair, one list, one group at a time -----

  ghost predicate Parts(kids: seq<Tree>, t: Tree) {
    forall k :: k in kids ==> k in t.kids
  }

  function PairEntry(name: string, x: Tree, y: Tree): Entry {
    Pair(Indexed(name, x.index), Indexed(name, y.index), x, y)
  }

  ghost predicate Marked(used: seq<bool>, before: seq<bool>, now: set<nat>) {
    && |used| == |before|
    && forall x :: 0 <= x < |used| ==> (used[x] <==> before[x] || x in now)
  }

  /** `taken` is what the greedy pass has chosen when `rest` is still to see. */
  ghost predicate Taking(chosen: seq<Candidate>, taken: seq<Candidate>, rest: seq<Candidate>) {
    && (forall c :: c in taken ==> c in chosen)
    && taken + Greedy(rest, FirstsOf(taken), SecondsOf(taken)) == chosen
  }

  lemma TakingStarts(pairs: seq<Candidate>)
    ensures FirstsOf([]) == {} && SecondsOf([]) == {}
    ensures Taking(Greedy(pairs, {}, {}), [], pairs[0..])
  {
    assert pairs[0..] == pairs;
  }

  lemma TakingEnds(chosen: seq<Candidate>, taken: seq<Candidate>, rest: seq<Candidate>)
    requires Taking(chosen, taken, rest) && rest == []
    ensures taken == chosen
  {
    assert taken + [] == taken;
  }

  lemma TakingSteps(chosen: seq<Candidate>, taken: seq<Candidate>, rest: seq<Candidate>)
    requires Taking(chosen, taken, rest) && rest != []
    ensures var p := rest[0];
            if p.i in FirstsOf(taken) || p.j in SecondsOf(taken)
            then Taking(chosen, taken, rest[1..])
            else p in chosen && Taking(chosen, taken + [p], rest[1..])
  {
    var p := rest[0];
    if !(p.i in FirstsOf(taken) || p.j in SecondsOf(taken)) {
      FirstsOfAppend(taken, p);
      var more := Greedy(rest[1..], FirstsOf(taken) + {p.i}, SecondsOf(taken) + {p.j});
      assert taken + ([p] + more) == (taken + [p]) + more;
      assert (taken + [p])[|taken|] == p;
      assert chosen[|taken|] == p;
    }
  }

  lemma FirstsOfAppend(cs: seq<Candidate>, p: Candidate)
    ensures FirstsOf(cs + [p]) == FirstsOf(cs) + {p.i}
    ensures SecondsOf(cs + [p]) == SecondsOf(cs) + {p.j}
  {
    assert forall d :: d in cs + [p] <==> d == p || d in cs;
  }

  lemma PartsWithin(name: string, kidsA: seq<Tree>, kidsB: seq<Tree>, chosen: seq<Candidate>, a: Tree, b: Tree)
    requires Parts(kidsA, a) && Parts(kidsB, b)
    requires forall c :: c in chosen ==> c.i < |kidsA| && c.j < |kidsB|
    ensures Within(PairEntries(name, kidsA, kidsB, chosen), a.kids, b.kids)
  {
  }

  lemma CandidatesUnused(pairs: seq<Candidate>, usedA: seq<bool>, usedB: seq<bool>, u: Unmatched)
    requires FlagsMatch(usedA, u.a) && FlagsMatch(usedB, u.b)
    requires Ascending(u.a, 0, |usedA|) && Ascending(u.b, 0, |usedB|)
    requires forall c :: c in pairs ==> c.i in u.a && c.j in u.b
    ensures forall c :: c in SortBy(Nearer, pairs) ==>
              c.i < |usedA| && c.j < |usedB| && !usedA[c.i] && !usedB[c.j]
  {
    forall c | c in SortBy(Nearer, pairs) ensures c in pairs {
      assert c in multiset(SortBy(Nearer, pairs));
    }
  }

  lemma MemberRun(hash: string -> nat, name: string, kidsA: seq<Tree>, kidsB: seq<Tree>, a: Tree, b: Tree)
    requires Parts(kidsA, a) && Parts(kidsB, b)
    ensures Within(MemberPlan(hash, name, kidsA, kidsB), a.kids, b.kids)
    ensures var u, chosen := UnmatchedOf(kidsA, kidsB), ChosenOf(hash, kidsA, kidsB);
            && Within(PairEntries(name, kidsA, kidsB, chosen), a.kids, b.kids)
            && Run(hash, MemberPlan(hash, name, kidsA, kidsB), a, b)
               == Run(hash, PairEntries(name, kidsA, kidsB, chosen), a, b).Plus(
                    Paths(Segments(name, kidsA, Surplus(kidsA, u.a, Usedi(chosen))),
                          Segments(name, kidsB, Surplus(kidsB, u.b, Usedj(chosen)))))
  {
    var u, chosen := UnmatchedOf(kidsA, kidsB), ChosenOf(hash, kidsA, kidsB);
    PartsRun(hash, name, kidsA, kidsB, chosen, Surplus(kidsA, u.a, Usedi(chosen)), Surplus(kidsB, u.b, Usedj(chosen)), a, b);
  }

  lemma SidesJoin(rec: seq<string>, ren: seq<string>)
    ensures Paths(rec, []).Plus(Paths([], ren)) == Paths(rec, ren)
  {
  }

  lemma PartsRun(hash: string -> nat, name: string, kidsA: seq<Tree>, kidsB: seq<Tree>,
                 chosen: seq<Candidate>, leftA: seq<nat>, leftB: seq<nat>, a: Tree, b: Tree)
    requires Parts(kidsA, a) && Parts(kidsB, b)
    requires forall c :: c in chosen ==> c.i < |kidsA| && c.j < |kidsB|
    requires forall k :: 0 <= k < |leftA| ==> leftA[k] < |kidsA|
    requires forall k :: 0 <= k < |leftB| ==> leftB[k] < |kidsB|
    ensures var pairs := PairEntries(name, kidsA, kidsB, chosen);
            var plan := pairs + RecordedEntries(name, kidsA, leftA) + RenderedEntries(name, kidsB, leftB);
            && Within(pairs, a.kids, b.kids) && Within(plan, a.kids, b.kids)
            && Run(hash, plan, a, b)
               == Run(hash, pairs, a, b).Plus(Paths(Segments(name, kidsA, leftA), Segments(name, kidsB, leftB)))
  {
    PartsWithin(name, kidsA, kidsB, chosen, a, b);
    RunRecorded(hash, name, kidsA, leftA, a, b);
    RunRendered(hash, name, kidsB, leftB, a, b);
    SidesJoin(Segments(name, kidsA, leftA), Segments(name, kidsB, leftB));
    RunThree(hash, PairEntries(name, kidsA, kidsB, chosen), RecordedEntries(name, kidsA, leftA),
             RenderedEntries(name, kidsB, leftB), a, b);
  }

  lemma RunThree(hash: string -> nat, p: seq<Entry>, q: seq<Entry>, r: seq<Entry>, a: Tree, b: Tree)
    requires Within(p, a.kids, b.kids) && Within(q, a.kids, b.kids) && Within(r, a.kids, b.kids)
    ensures Within(p + q + r, a.kids, b.kids)
    ensures Run(hash, p + q + r, a, b) == Run(hash, p, a, b).Plus(Run(hash, q, a, b).Plus(Run(hash, r, a, b)))
  {
    RunJoins(hash, p, q, a, b);
    RunJoins(hash, p + q, r, a, b);
    PlusAssociates(Run(hash, p, a, b), Run(hash, q, a, b), Run(hash, r, a, b));
  }

  lemma FieldsWithin(name: string, kidsA: seq<Tree>, kidsB: seq<Tree>, a: Tree, b: Tree)
    requires Parts(kidsA, a) && Parts(kidsB, b)
    ensures Within(FieldPlan(name, kidsA, kidsB), a.kids, b.kids)
  {
  }

  lemma GroupWithin(hash: string -> nat, g: GroupKey, a: Tree, b: Tree)
    ensures Within(GroupPlan(hash, g, KidsIn(a, g), KidsIn(b, g)), a.kids, b.kids)
  {
  }

  lemma PlanStep(hash: string -> nat, order: seq<GroupKey>, i: nat, a: Tree, b: Tree)
    requires i < |order|
    ensures var here := GroupPlan(hash, order[i], KidsIn(a, order[i]), KidsIn(b, order[i]));
            && Within(here, a.kids, b.kids)
            && Run(hash, Plan(hash, order[i..], a, b), a, b)
               == Run(hash, here, a, b).Plus(Run(hash, Plan(hash, order[i + 1..], a, b), a, b))
  {
    var here := GroupPlan(hash, order[i], KidsIn(a, order[i]), KidsIn(b, order[i]));
    GroupWithin(hash, order[i], a, b);
    assert order[i..][0] == order[i] && order[i..][1..] == order[i + 1..];
    RunJoins(hash, here, Plan(hash, order[i + 1..], a, b), a, b);
  }

  lemma NodeStarts(hash: string -> nat, a: Tree, b: Tree)
    ensures Node(hash, a, b) == Own(a, b).Plus(Run(hash, Plan(hash, BothOrders(Keys(a.kids), Keys(b.kids)), a, b), a, b))
  {
    hide Run, Plan, Own, BothOrders;
  }

  lemma PlanEnds(hash: string -> nat, p: Paths, a: Tree, b: Tree)
    ensures p.Plus(Run(hash, Plan(hash, [], a, b), a, b)) == p
  {
    assert Plan(hash, [], a, b) == [];
    assert p.rec + [] == p.rec && p.ren + [] == p.ren;
  }

  class TreeDiffer {
    const hash: string -> nat
    var forms: map<Tree, string>

    /** Every memoised form is the recursive one. */
    ghost predicate Valid()
      reads this
    {
      forall t :: t in forms ==> forms[t] == Form(t)
    }

    constructor (hash: string -> nat)
      ensures Valid() && this.hash == hash && forms == map[]
    {
      this.hash := hash;
      forms := map[];
    }

    /** `form`: each node's form is built once, and is the recursive one. */
    method FormOf(t: Tree) returns (f: string)
      requires Valid()
      modifies this
      ensures Valid() && f == Form(t)
      ensures t in forms && forall u :: u in old(forms) ==> u in forms
      decreases t, 1
    {
      if t in forms {
        return forms[t];
      }
      var keys, order := Keys(t.kids), Order(Keys(t.kids));
      var spelt := "";
      ghost var all := Spell(order, keys, KidForms(t));
      for i := 0 to |order|
        invariant Valid() && forall u :: u in old(forms) ==> u in forms
        invariant spelt + Spell(order[i..], keys, KidForms(t)) == all
      {
        var group := SpellGroupOf(t, order[i]);
        SpellSteps(spelt, group, order, i, keys, KidForms(t));
        spelt := spelt + group;
      }
      assert order[|order|..] == [];
      assert spelt + "" == spelt;
      f := Head(t.kind, t.text) + spelt;
      forms := forms[t := f];
    }

    /** One group of `form`: its name, whether it is a set, and its kids' forms, each a part. */
    method SpellGroupOf(t: Tree, g: GroupKey) returns (s: string)
      requires Valid()
      modifies this
      ensures Valid() && s == SpellGroup(g, GroupOf(Keys(t.kids), KidForms(t), g))
      ensures forall u :: u in old(forms) ==> u in forms
      decreases t, 0
    {
      var kids := KidsIn(t, g);
      var kidForms: seq<string> := [];
      for k := 0 to |kids|
        invariant Valid() && forall u :: u in old(forms) ==> u in forms
        invariant kidForms == FormsOf(kids)[..k]
      {
        assert kids[k] in t.kids;
        var form := FormOf(kids[k]);
        kidForms := kidForms + [form];
      }
      assert kidForms == FormsOf(kids);
      FormsOfGroup(t, g);
      if g.member {
        kidForms := Sort(kidForms);
      }
      var parts := JoinParts(kidForms);
      s := Part(g.name) + ((if g.member then "true" else "false") + (Itoa(|kidForms|) + ":" + parts));
    }

    method FormsIn(kids: seq<Tree>) returns (fs: seq<string>)
      requires Valid()
      modifies this
      ensures Valid() && fs == FormsOf(kids)
    {
      hide Form;
      fs := [];
      for k := 0 to |kids|
        invariant Valid() && fs == FormsOf(kids)[..k]
      {
        var f := FormOf(kids[k]);
        fs := fs + [f];
      }
    }

    /** One node diff under a node, its paths under their segments. */
    method DiffPair(e: Entry, ghost a: Tree, ghost b: Tree) returns (rec: seq<string>, ren: seq<string>)
      requires Valid() && e.Pair? && Within([e], a.kids, b.kids)
      modifies this
      ensures Valid() && Paths(rec, ren) == EntryPaths(hash, e, a, b)
      decreases Size(a) + Size(b), 0
    {
      EntryIsSmaller([e], e, a, b);
      rec, ren := DiffNode(e.a, e.b);
      rec, ren := Under(e.segA, rec), Under(e.segB, ren);
    }

    /** Node-diffs the chosen pairs. */
    method DiffPairs(name: string, kidsA: seq<Tree>, kidsB: seq<Tree>, chosen: seq<Candidate>, ghost a: Tree, ghost b: Tree)
      returns (rec: seq<string>, ren: seq<string>)
      requires Valid() && Parts(kidsA, a) && Parts(kidsB, b)
      requires forall c :: c in chosen ==> c.i < |kidsA| && c.j < |kidsB|
      modifies this
      ensures Valid() && Within(PairEntries(name, kidsA, kidsB, chosen), a.kids, b.kids)
      ensures Paths(rec, ren) == Run(hash, PairEntries(name, kidsA, kidsB, chosen), a, b)
      decreases Size(a) + Size(b), 1
    {
      hide Node, Size, Indexed;
      rec, ren := [], [];
      ghost var plan := PairEntries(name, kidsA, kidsB, chosen);
      PartsWithin(name, kidsA, kidsB, chosen, a, b);
      for k := 0 to |chosen|
        invariant Valid() && Within(plan[..k], a.kids, b.kids)
        invariant Paths(rec, ren) == Run(hash, plan[..k], a, b)
      {
        assert chosen[k] in chosen;
        RunExtends(hash, plan, k, a, b);
        var r, n := DiffPair(PairEntry(name, kidsA[chosen[k].i], kidsB[chosen[k].j]), a, b);
        rec, ren := rec + r, ren + n;
      }
      assert plan[..|plan|] == plan;
    }

    /** `members`. */
    method DiffMembers(name: string, kidsA: seq<Tree>, kidsB: seq<Tree>, ghost a: Tree, ghost b: Tree)
      returns (rec: seq<string>, ren: seq<string>)
      requires Valid() && Parts(kidsA, a) && Parts(kidsB, b)
      modifies this
      ensures Valid()
      ensures Within(MemberPlan(hash, name, kidsA, kidsB), a.kids, b.kids)
      ensures Paths(rec, ren) == Run(hash, MemberPlan(hash, name, kidsA, kidsB), a, b)
      decreases Size(a) + Size(b), 2
    {
      var fa := FormsIn(kidsA);
      var fb := FormsIn(kidsB);
      var usedA, usedB := PairEqual(fa, fb);
      var pairs := ScorePairs(hash, kidsA, kidsB, usedA, usedB);
      ghost var u, chosen := UnmatchedOf(kidsA, kidsB), ChosenOf(hash, kidsA, kidsB);
      CandidatesFromIsAll(usedA, usedB, Score(hash, kidsA, kidsB), 0, u.a, u.b);
      CandidatesUnused(pairs, usedA, usedB, u);
      pairs := SortBy(Nearer, pairs);
      var nearest;
      nearest, usedA, usedB := TakeNearest(pairs, usedA, usedB);
      rec, ren := DiffPairs(name, kidsA, kidsB, nearest, a, b);
      ghost var leftA, leftB := Surplus(kidsA, u.a, Usedi(chosen)), Surplus(kidsB, u.b, Usedj(chosen));
      LeftAscends(u.a, Usedi(chosen), 0, |kidsA|);
      LeftAscends(u.b, Usedj(chosen), 0, |kidsB|);
      var recorded := NameUnused(name, kidsA, usedA, leftA);
      var rendered := NameUnused(name, kidsB, usedB, leftB);
      MemberRun(hash, name, kidsA, kidsB, a, b);
      rec, ren := rec + recorded, ren + rendered;
    }

    /** `fields`. */
    method DiffFields(name: string, kidsA: seq<Tree>, kidsB: seq<Tree>, ghost a: Tree, ghost b: Tree)
      returns (rec: seq<string>, ren: seq<string>)
      requires Valid() && Parts(kidsA, a) && Parts(kidsB, b)
      modifies this
      ensures Valid()
      ensures Within(FieldPlan(name, kidsA, kidsB), a.kids, b.kids)
      ensures Paths(rec, ren) == Run(hash, FieldPlan(name, kidsA, kidsB), a, b)
      decreases Size(a) + Size(b), 2
    {
      hide Node, Size, Indexed;
      rec, ren := [], [];
      ghost var plan := FieldPlan(name, kidsA, kidsB);
      FieldsWithin(name, kidsA, kidsB, a, b);
      for i := 0 to Longer(|kidsA|, |kidsB|)
        invariant Valid() && Within(plan[..i], a.kids, b.kids)
        invariant Paths(rec, ren) == Run(hash, plan[..i], a, b)
      {
        var e := FieldEntry(name, kidsA, kidsB, i);
        RunExtends(hash, plan, i, a, b);
        var r, n := DiffPair(e, a, b);
        rec, ren := rec + r, ren + n;
      }
      assert plan[..|plan|] == plan;
    }

    /** One group of `node`. */
    method DiffGroup(g: GroupKey, a: Tree, b: Tree) returns (rec: seq<string>, ren: seq<string>)
      requires Valid()
      modifies this
      ensures Valid()
      ensures Within(GroupPlan(hash, g, KidsIn(a, g), KidsIn(b, g)), a.kids, b.kids)
      ensures Paths(rec, ren) == Run(hash, GroupPlan(hash, g, KidsIn(a, g), KidsIn(b, g)), a, b)
      decreases Size(a) + Size(b), 3
    {
      if g.member {
        rec, ren := DiffMembers(Label(g.name, g.json), KidsIn(a, g), KidsIn(b, g), a, b);
      } else {
        rec, ren := DiffFields(Label(g.name, g.json), KidsIn(a, g), KidsIn(b, g), a, b);
      }
    }

    /** `node`: the code's loops name exactly the paths `Node` defines. */
    method DiffNode(a: Tree, b: Tree) returns (rec: seq<string>, ren: seq<string>)
      requires Valid()
      modifies this
      ensures Valid() && Paths(rec, ren) == Node(hash, a, b)
      decreases Size(a) + Size(b), 4
    {
      rec, ren := [], [];
      if a.text != b.text || a.kind != b.kind {
        if a.Valued() { rec := rec + [""]; }
        if b.Valued() { ren := ren + [""]; }
      }
      assert Paths(rec, ren) == Own(a, b);
      NodeStarts(hash, a, b);
      hide Node, Own, Plan, GroupPlan, Run, Size, KidsIn;
      var order := BothOrders(Keys(a.kids), Keys(b.kids));
      assert order[0..] == order;
      for i := 0 to |order|
        invariant Valid()
        invariant Paths(rec, ren).Plus(Run(hash, Plan(hash, order[i..], a, b), a, b)) == Node(hash, a, b)
      {
        PlanStep(hash, order, i, a, b);
        var r, n := DiffGroup(order[i], a, b);
        PlusAssociates(Paths(rec, ren), Paths(r, n), Run(hash, Plan(hash, order[i + 1..], a, b), a, b));
        rec, ren := rec + r, ren + n;
      }
      assert order[|order|..] == [];
      PlanEnds(hash, Paths(rec, ren), a, b);
    }
  }

  /** Queues each rendered member under its form. */
  method QueueByForm(fb: seq<string>) returns (byForm: map<string, seq<nat>>)
    ensures Queued(byForm, fb, Upto(|fb|))
  {
    byForm := map[];
    for j := 0 to |fb|
      invariant Queued(byForm, fb, Upto(j))
    {
      QueuedAppends(byForm, fb, j);
      byForm := byForm[fb[j] := Queue(byForm, fb[j]) + [j]];
    }
  }

  /** The equal-form pass of `members`: marks each member an equal one pairs. */
  method PairEqual(fa: seq<string>, fb: seq<string>) returns (usedA: seq<bool>, usedB: seq<bool>)
    ensures var u := MatchEqual(fa, fb, 0, Upto(|fb|));
            && |usedA| == |fa| && FlagsMatch(usedA, u.a)
            && |usedB| == |fb| && FlagsMatch(usedB, u.b)
  {
    var byForm := QueueByForm(fb);
    usedA, usedB := [], seq(|fb|, _ => false);
    ghost var doneA: seq<nat>, free := [], Upto(|fb|);
    forall x | 0 <= x < |fb| ensures x in free {
      assert free[x] == x;
    }
    MatchingStarts(fa, fb);
    hide Matching, MatchEqual, Queued, Select, FirstWith, FlagsMatch, Without;
    for i := 0 to |fa|
      invariant |usedA| == i && |usedB| == |fb| && Ascending(free, 0, |fb|) && Ascending(doneA, 0, i)
      invariant Matching(fa, fb, i, doneA, free) && Queued(byForm, fb, free)
      invariant FlagsMatch(usedA, doneA) && FlagsMatch(usedB, free)
    {
      var js := Queue(byForm, fa[i]);
      if js != [] {
        ghost var p := FirstWith(fb, free, fa[i]);
        QueuedPops(byForm, fb, free, fa[i]);
        MatchingPairs(fa, fb, i, doneA, free, p);
        FlagsTake(usedB, free, p);
        FlagsGrow(usedA, doneA);
        usedA, usedB, byForm := usedA + [true], usedB[js[0] := true], byForm[fa[i] := js[1..]];
        free := Without(free, p);
      } else {
        QueueIsEmpty(byForm, fb, free, fa[i]);
        MatchingSkips(fa, fb, i, doneA, free);
        FlagsGrow(usedA, doneA);
        usedA, doneA := usedA + [false], doneA + [i];
      }
    }
    MatchingEnds(fa, fb, doneA, free);
  }

  lemma FlagsTake(used: seq<bool>, free: seq<nat>, p: nat)
    requires FlagsMatch(used, free) && Ascending(free, 0, |used|) && p < |free|
    ensures FlagsMatch(used[free[p] := true], Without(free, p))
  {
    WithoutDrops(free, p, |used|);
  }

  lemma FlagsGrow(used: seq<bool>, done: seq<nat>)
    requires FlagsMatch(used, done) && Ascending(done, 0, |used|)
    ensures FlagsMatch(used + [true], done) && FlagsMatch(used + [false], done + [|used|])
  {
    assert forall x :: x in done ==> x < |used|;
  }

  /** Takes each candidate neither of whose members is used, marking both. */
  method TakeNearest(pairs: seq<Candidate>, beforeA: seq<bool>, beforeB: seq<bool>)
    returns (taken: seq<Candidate>, usedA: seq<bool>, usedB: seq<bool>)
    requires forall c :: c in pairs ==> c.i < |beforeA| && c.j < |beforeB| && !beforeA[c.i] && !beforeB[c.j]
    ensures taken == Greedy(pairs, {}, {})
    ensures Marked(usedA, beforeA, FirstsOf(taken)) && Marked(usedB, beforeB, SecondsOf(taken))
  {
    taken, usedA, usedB := [], beforeA, beforeB;
    ghost var chosen := Greedy(pairs, {}, {});
    TakingStarts(pairs);
    for k := 0 to |pairs|
      invariant Taking(chosen, taken, pairs[k..])
      invariant Marked(usedA, beforeA, FirstsOf(taken)) && Marked(usedB, beforeB, SecondsOf(taken))
    {
      var p := pairs[k];
      assert p in pairs && pairs[k..][0] == p && pairs[k..][1..] == pairs[k + 1..];
      TakingSteps(chosen, taken, pairs[k..]);
      if !usedA[p.i] && !usedB[p.j] {
        FirstsOfAppend(taken, p);
        usedA, usedB, taken := usedA[p.i := true], usedB[p.j := true], taken + [p];
      }
    }
    TakingEnds(chosen, taken, pairs[|pairs|..]);
  }

  /** Every pair of unused members with its distance, recorded members first. */
  method ScorePairs(hash: string -> nat, kidsA: seq<Tree>, kidsB: seq<Tree>, usedA: seq<bool>, usedB: seq<bool>)
    returns (pairs: seq<Candidate>)
    requires |usedA| == |kidsA| && |usedB| == |kidsB|
    ensures pairs == CandidatesFrom(usedA, usedB, Score(hash, kidsA, kidsB), 0)
  {
    hide SortedLeaves, Score, RowFrom;
    var leavesA := UnusedLeaves(hash, kidsA, usedA);
    var leavesB := UnusedLeaves(hash, kidsB, usedB);
    ghost var d := Score(hash, kidsA, kidsB);
    pairs := [];
    for i := 0 to |kidsA|
      invariant pairs + CandidatesFrom(usedA, usedB, d, i) == CandidatesFrom(usedA, usedB, d, 0)
    {
      var row := [];
      if !usedA[i] {
        row := ScoreRow(hash, kidsA, kidsB, i, leavesA[i], leavesB, usedB);
      }
      assert CandidatesFrom(usedA, usedB, d, i) == row + CandidatesFrom(usedA, usedB, d, i + 1);
      Regroup(pairs, row, CandidatesFrom(usedA, usedB, d, i + 1));
      pairs := pairs + row;
    }
    assert CandidatesFrom(usedA, usedB, d, |kidsA|) == [];
  }

  /** The unused members' sorted leaves; a used one's are not built. */
  method UnusedLeaves(hash: string -> nat, kids: seq<Tree>, used: seq<bool>) returns (leaves: seq<seq<nat>>)
    requires |used| == |kids|
    ensures |leaves| == |kids|
    ensures forall i :: 0 <= i < |kids| ==> leaves[i] == if used[i] then [] else SortedLeaves(hash, kids[i])
  {
    hide SortedLeaves;
    leaves := [];
    for i := 0 to |kids|
      invariant |leaves| == i
      invariant forall k :: 0 <= k < i ==> leaves[k] == if used[k] then [] else SortedLeaves(hash, kids[k])
    {
      leaves := leaves + [if used[i] then [] else SortedLeaves(hash, kids[i])];
    }
  }

  method MemberDistance(hash: string -> nat, ghost kidsA: seq<Tree>, ghost kidsB: seq<Tree>, ghost i: nat, ghost j: nat,
                        leavesOfA: seq<nat>, leavesOfB: seq<nat>)
    returns (distance: nat)
    requires i < |kidsA| && leavesOfA == SortedLeaves(hash, kidsA[i])
    requires j < |kidsB| && leavesOfB == SortedLeaves(hash, kidsB[j])
    ensures distance == Score(hash, kidsA, kidsB)(i, j)
  {
    distance := DiffDistance(leavesOfA, leavesOfB);
  }

  method ScoreRow(hash: string -> nat, kidsA: seq<Tree>, kidsB: seq<Tree>, i: nat, leavesOfA: seq<nat>,
                  leavesB: seq<seq<nat>>, usedB: seq<bool>)
    returns (row: seq<Candidate>)
    requires i < |kidsA| && leavesOfA == SortedLeaves(hash, kidsA[i])
    requires |leavesB| == |kidsB| == |usedB|
    requires forall j :: 0 <= j < |kidsB| ==> leavesB[j] == if usedB[j] then [] else SortedLeaves(hash, kidsB[j])
    ensures row == RowFrom(i, usedB, Score(hash, kidsA, kidsB), 0)
  {
    ghost var d := Score(hash, kidsA, kidsB);
    hide SortedLeaves, Score;
    row := [];
    for j := 0 to |kidsB|
      invariant row + RowFrom(i, usedB, d, j) == RowFrom(i, usedB, d, 0)
    {
      if !usedB[j] {
        var distance := MemberDistance(hash, kidsA, kidsB, i, j, leavesOfA, leavesB[j]);
        Regroup(row, [Candidate(i, j, distance)], RowFrom(i, usedB, d, j + 1));
        row := row + [Candidate(i, j, distance)];
      } else {
        Regroup(row, [], RowFrom(i, usedB, d, j + 1));
      }
    }
  }

  method JoinParts(forms: seq<string>) returns (s: string)
    ensures s == SpellParts(forms)
  {
    s := "";
    for k := 0 to |forms|
      invariant s == SpellParts(forms[..k])
    {
      assert forms[..k + 1] == forms[..k] + [forms[k]];
      SpellPartsAppends(forms[..k], forms[k]);
      s := s + Part(forms[k]);
    }
    assert forms[..|forms|] == forms;
  }

  lemma SpellSteps(f: string, spelt: string, order: seq<GroupKey>, i: nat, keys: seq<GroupKey>, kidForms: seq<string>)
    requires |keys| == |kidForms| && i < |order|
    requires spelt == SpellGroup(order[i], GroupOf(keys, kidForms, order[i]))
    ensures f + Spell(order[i..], keys, kidForms) == (f + spelt) + Spell(order[i + 1..], keys, kidForms)
  {
    assert order[i..][1..] == order[i + 1..];
    assert Spell(order[i..], keys, kidForms) == spelt + Spell(order[i + 1..], keys, kidForms);
  }
}
