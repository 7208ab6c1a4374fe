/**
 * How `treeDiffer.members` pairs two lists of set members: equal forms first,
 * then the nearest of those left, and the rest named whole.
 */
module Members {
  import opened Sorting
  import opened Trees

  // ----- equal forms pair first -----

  /** The first free position whose form is `f`, or |free|. */
  function FirstWith(fb: seq<string>, free: seq<nat>, f: string): (p: nat)
    requires forall k :: 0 <= k < |free| ==> free[k] < |fb|
    ensures p <= |free|
    ensures p < |free| ==> fb[free[p]] == f
    ensures forall k :: 0 <= k < p ==> fb[free[k]] != f
  {
    if free == [] || fb[free[0]] == f then 0 else 1 + FirstWith(fb, free[1..], f)
  }

  datatype Unmatched = Unmatched(a: seq<nat>, b: seq<nat>)

  ghost predicate Ascending(s: seq<nat>, low: nat, high: nat) {
    && (forall k :: 0 <= k < |s| ==> low <= s[k] < high)
    && (forall k, l :: 0 <= k < l < |s| ==> s[k] < s[l])
  }

  /** Members `i..` of `fa` take, in turn, the first free equal member of `fb`. */
  function MatchEqual(fa: seq<string>, fb: seq<string>, i: nat, free: seq<nat>): (r: Unmatched)
    requires i <= |fa| && Ascending(free, 0, |fb|)
    ensures Ascending(r.a, i, |fa|) && Ascending(r.b, 0, |fb|)
    ensures forall y :: y in r.b ==> y in free
    decreases |fa| - i
  {
    if i == |fa| then Unmatched([], free)
    else
      var p := FirstWith(fb, free, fa[i]);
      if p < |free| then MatchEqual(fa, fb, i + 1, Without(free, p))
      else
        var r := MatchEqual(fa, fb, i + 1, free);
        Unmatched([i] + r.a, r.b)
  }

  function Upto(n: nat): (r: seq<nat>)
    ensures |r| == n && Ascending(r, 0, n)
    ensures forall i :: 0 <= i < n ==> r[i] == i
  {
    seq(n, i => i)
  }

  lemma PickWithout<T>(vals: seq<T>, at: seq<nat>, p: nat)
    requires p < |at| && forall k :: 0 <= k < |at| ==> at[k] < |vals|
    ensures multiset(Pick(vals, at)) == multiset(Pick(vals, Without(at, p))) + multiset{vals[at[p]]}
  {
    WithoutMultiset(Pick(vals, at), p);
    assert Without(Pick(vals, at), p) == Pick(vals, Without(at, p));
  }

  /** What is still to match and what stays free weigh the same as what is left over. */
  ghost predicate Conserved(fa: seq<string>, fb: seq<string>, i: nat, free: seq<nat>, r: Unmatched)
    requires i <= |fa| && Ascending(free, 0, |fb|)
    requires Ascending(r.a, 0, |fa|) && Ascending(r.b, 0, |fb|)
  {
    multiset(fa[i..]) + multiset(Pick(fb, r.b)) == multiset(Pick(fb, free)) + multiset(Pick(fa, r.a))
  }

  lemma TailMultiset<T>(s: seq<T>, i: nat)
    requires i < |s|
    ensures multiset(s[i..]) == multiset{s[i]} + multiset(s[i + 1..])
  {
    assert s[i..] == [s[i]] + s[i + 1..];
  }

  lemma ConservedByPair(fa: seq<string>, fb: seq<string>, i: nat, free: seq<nat>, p: nat, r: Unmatched)
    requires i < |fa| && Ascending(free, 0, |fb|) && p < |free| && fb[free[p]] == fa[i]
    requires Ascending(r.a, 0, |fa|) && Ascending(r.b, 0, |fb|)
    requires Conserved(fa, fb, i + 1, Without(free, p), r)
    ensures Conserved(fa, fb, i, free, r)
  {
    TailMultiset(fa, i);
    PickWithout(fb, free, p);
    AddBoth(multiset(fa[i + 1..]), multiset(Pick(fb, r.b)), multiset(Pick(fb, Without(free, p))),
            multiset(Pick(fa, r.a)), multiset{fa[i]});
  }

  lemma AddBoth<T>(x: multiset<T>, u: multiset<T>, f: multiset<T>, v: multiset<T>, one: multiset<T>)
    requires x + u == f + v
    ensures (one + x) + u == (f + one) + v && (one + x) + u == f + (one + v)
  {
    assert (one + x) + u == one + (x + u);
    assert (f + one) + v == one + (f + v) == f + (one + v);
  }

  lemma ConservedByLeftover(fa: seq<string>, fb: seq<string>, i: nat, free: seq<nat>, r: Unmatched)
    requires i < |fa| && Ascending(free, 0, |fb|)
    requires Ascending(r.a, i + 1, |fa|) && Ascending(r.b, 0, |fb|)
    requires Conserved(fa, fb, i + 1, free, r)
    ensures Ascending([i] + r.a, 0, |fa|) && Conserved(fa, fb, i, free, Unmatched([i] + r.a, r.b))
  {
    TailMultiset(fa, i);
    PickOneMore(fa, i, r.a);
    AddBoth(multiset(fa[i + 1..]), multiset(Pick(fb, r.b)), multiset(Pick(fb, free)),
            multiset(Pick(fa, r.a)), multiset{fa[i]});
  }

  /** No form is lost: what one side matches, the other gives up. */
  lemma {:induction false} MatchConserves(fa: seq<string>, fb: seq<string>, i: nat, free: seq<nat>)
    requires i <= |fa| && Ascending(free, 0, |fb|)
    ensures Conserved(fa, fb, i, free, MatchEqual(fa, fb, i, free))
    decreases |fa| - i
  {
    if i == |fa| {
      assert fa[i..] == [] && Pick(fa, []) == [];
    } else {
      var p := FirstWith(fb, free, fa[i]);
      if p < |free| {
        MatchConserves(fa, fb, i + 1, Without(free, p));
        ConservedByPair(fa, fb, i, free, p, MatchEqual(fa, fb, i + 1, Without(free, p)));
      } else {
        MatchConserves(fa, fb, i + 1, free);
        ConservedByLeftover(fa, fb, i, free, MatchEqual(fa, fb, i + 1, free));
      }
    }
  }

  lemma PickOneMore(vals: seq<string>, i: nat, at: seq<nat>)
    requires i < |vals| && forall k :: 0 <= k < |at| ==> at[k] < |vals|
    ensures multiset(Pick(vals, [i] + at)) == multiset{vals[i]} + multiset(Pick(vals, at))
  {
    assert Pick(vals, [i] + at) == [vals[i]] + Pick(vals, at);
  }

  /** No two members left over have one form. */
  lemma {:induction false} MatchLeavesDistinct(fa: seq<string>, fb: seq<string>, i: nat, free: seq<nat>)
    requires i <= |fa| && Ascending(free, 0, |fb|)
    ensures var r := MatchEqual(fa, fb, i, free);
            forall x, y :: x in r.a && y in r.b ==> fa[x] != fb[y]
    decreases |fa| - i
  {
    if i < |fa| {
      var p := FirstWith(fb, free, fa[i]);
      if p < |free| {
        MatchLeavesDistinct(fa, fb, i + 1, Without(free, p));
      } else {
        MatchLeavesDistinct(fa, fb, i + 1, free);
      }
    }
  }

  /**
   * The equal pairs are maximal: each side keeps exactly the forms it holds
   * more often than the other.
   */
  lemma MatchIsMaximal(fa: seq<string>, fb: seq<string>)
    ensures var r := MatchEqual(fa, fb, 0, Upto(|fb|));
            && multiset(Pick(fa, r.a)) == multiset(fa) - multiset(fb)
            && multiset(Pick(fb, r.b)) == multiset(fb) - multiset(fa)
  {
    var r := MatchEqual(fa, fb, 0, Upto(|fb|));
    MatchConserves(fa, fb, 0, Upto(|fb|));
    MatchLeavesDistinct(fa, fb, 0, Upto(|fb|));
    assert fa[0..] == fa && Pick(fb, Upto(|fb|)) == fb;
    DisjointLeftovers(fa, fb, r);
    CancelCommon(multiset(fa), multiset(fb), multiset(Pick(fa, r.a)), multiset(Pick(fb, r.b)));
  }

  lemma DisjointLeftovers(fa: seq<string>, fb: seq<string>, r: Unmatched)
    requires Ascending(r.a, 0, |fa|) && Ascending(r.b, 0, |fb|)
    requires forall x, y :: x in r.a && y in r.b ==> fa[x] != fb[y]
    ensures multiset(Pick(fa, r.a)) !! multiset(Pick(fb, r.b))
  {
    var ua, ub := Pick(fa, r.a), Pick(fb, r.b);
    forall k, l | 0 <= k < |ua| && 0 <= l < |ub| ensures ua[k] != ub[l] {
      assert r.a[k] in r.a && r.b[l] in r.b;
    }
    assert forall f :: f in multiset(ua) ==> f in ua;
  }

  lemma CancelCommon<T>(a: multiset<T>, b: multiset<T>, restA: multiset<T>, restB: multiset<T>)
    requires a + restB == b + restA && restA !! restB
    ensures restA == a - b && restB == b - a
  {
    forall x ensures restA[x] == (a - b)[x] && restB[x] == (b - a)[x] {
      assert (a + restB)[x] == (b + restA)[x];
      assert restA[x] == 0 || restB[x] == 0;
    }
  }

  // ----- the rest pair by distance, nearest first -----

  datatype Candidate = Candidate(i: nat, j: nat, distance: nat)

  predicate Nearer(c: Candidate, d: Candidate) {
    c.distance <= d.distance
  }

  /** Every pair of members left over, by `a` then `b`. */
  function Row(i: nat, restB: seq<nat>, distance: (nat, nat) -> nat): (r: seq<Candidate>)
    ensures |r| == |restB|
  {
    seq(|restB|, k requires 0 <= k < |restB| => Candidate(i, restB[k], distance(i, restB[k])))
  }

  function Candidates(restA: seq<nat>, restB: seq<nat>, distance: (nat, nat) -> nat): (r: seq<Candidate>)
    ensures forall c :: c in r ==> c.i in restA && c.j in restB && c.distance == distance(c.i, c.j)
  {
    if restA == [] then [] else Row(restA[0], restB, distance) + Candidates(restA[1..], restB, distance)
  }

  lemma {:induction false} CandidatesComplete(restA: seq<nat>, restB: seq<nat>, distance: (nat, nat) -> nat, i: nat, j: nat)
    requires i in restA && j in restB
    ensures Candidate(i, j, distance(i, j)) in Candidates(restA, restB, distance)
  {
    if restA[0] == i {
      var k :| 0 <= k < |restB| && restB[k] == j;
      assert Row(i, restB, distance)[k] == Candidate(i, j, distance(i, j));
    } else {
      assert i in restA[1..];
      CandidatesComplete(restA[1..], restB, distance, i, j);
    }
  }

  /** Takes each candidate neither of whose members an earlier one took. */
  function Greedy(cs: seq<Candidate>, usedA: set<nat>, usedB: set<nat>): (r: seq<Candidate>)
    ensures forall c :: c in r ==> c in cs && c.i !in usedA && c.j !in usedB
  {
    if cs == [] then []
    else if cs[0].i in usedA || cs[0].j in usedB then Greedy(cs[1..], usedA, usedB)
    else [cs[0]] + Greedy(cs[1..], usedA + {cs[0].i}, usedB + {cs[0].j})
  }

  ghost function FirstsOf(cs: seq<Candidate>): set<nat> {
    set c | c in cs :: c.i
  }

  ghost function SecondsOf(cs: seq<Candidate>): set<nat> {
    set c | c in cs :: c.j
  }

  ghost predicate IsMatching(cs: seq<Candidate>) {
    forall k, l :: 0 <= k < l < |cs| ==> cs[k].i != cs[l].i && cs[k].j != cs[l].j
  }

  lemma {:induction false} GreedyMatches(cs: seq<Candidate>, usedA: set<nat>, usedB: set<nat>)
    ensures IsMatching(Greedy(cs, usedA, usedB))
  {
    if cs != [] {
      var c := cs[0];
      if c.i in usedA || c.j in usedB {
        GreedyMatches(cs[1..], usedA, usedB);
      } else {
        GreedyMatches(cs[1..], usedA + {c.i}, usedB + {c.j});
        var rest := Greedy(cs[1..], usedA + {c.i}, usedB + {c.j});
        assert forall k :: 0 <= k < |rest| ==> rest[k] in rest;
      }
    }
  }

  /** A greedy choice is a matching no candidate could extend. */
  lemma {:induction false} GreedyIsMaximal(cs: seq<Candidate>, usedA: set<nat>, usedB: set<nat>, d: Candidate)
    requires d in cs
    ensures var r := Greedy(cs, usedA, usedB);
            d.i in usedA + FirstsOf(r) || d.j in usedB + SecondsOf(r)
  {
    var c := cs[0];
    var r := Greedy(cs, usedA, usedB);
    if c.i in usedA || c.j in usedB {
      if d != c { GreedyIsMaximal(cs[1..], usedA, usedB, d); }
    } else {
      var rest := Greedy(cs[1..], usedA + {c.i}, usedB + {c.j});
      FirstsOfCons(c, rest);
      if d != c { GreedyIsMaximal(cs[1..], usedA + {c.i}, usedB + {c.j}, d); }
    }
  }

  lemma FirstsOfCons(c: Candidate, rest: seq<Candidate>)
    ensures FirstsOf([c] + rest) == {c.i} + FirstsOf(rest)
    ensures SecondsOf([c] + rest) == {c.j} + SecondsOf(rest)
  {
    assert forall d :: d in [c] + rest <==> d == c || d in rest;
  }

  /** The pairs `members` node-diffs, in the order it does. */
  function Nearest(restA: seq<nat>, restB: seq<nat>, distance: (nat, nat) -> nat): (r: seq<Candidate>)
    ensures forall c :: c in r ==> c.i in restA && c.j in restB
  {
    var sorted := SortBy(Nearer, Candidates(restA, restB, distance));
    var r := Greedy(sorted, {}, {});
    assert forall c :: c in sorted ==> c in multiset(sorted);
    assert forall c :: c in multiset(Candidates(restA, restB, distance)) ==> c in Candidates(restA, restB, distance);
    r
  }

  /** The members no chosen pair holds, in order. */
  function Left(all: seq<nat>, used: set<nat>): (r: seq<nat>)
    ensures forall x :: x in r <==> x in all && x !in used
    ensures |r| <= |all|
  {
    if all == [] then []
    else if all[0] in used then Left(all[1..], used)
    else [all[0]] + Left(all[1..], used)
  }

  lemma {:induction false} LeftCount(all: seq<nat>, used: set<nat>, low: nat, high: nat)
    requires Ascending(all, low, high) && forall x :: x in used ==> x in all
    ensures |Left(all, used)| == |all| - |used|
  {
    if all != [] {
      var x, rest := all[0], all[1..];
      AscendingTail(all, low, high);
      hide Ascending;
      LeftSkips(rest, used, x);
      LeftCount(rest, used - {x}, x + 1, high);
      assert |used - {x}| == |used| - if x in used then 1 else 0;
      assert Left(all, used) == if x in used then Left(rest, used) else [x] + Left(rest, used);
    } else {
      assert used == {};
    }
  }

  lemma AscendingTail(all: seq<nat>, low: nat, high: nat)
    requires all != [] && Ascending(all, low, high)
    ensures Ascending(all[1..], all[0] + 1, high) && all[0] !in all[1..]
    ensures forall y :: y in all <==> y == all[0] || y in all[1..]
  {
  }

  lemma {:induction false} LeftSkips(all: seq<nat>, used: set<nat>, x: nat)
    requires x !in all
    ensures Left(all, used) == Left(all, used - {x})
  {
    if all != [] {
      assert all[0] in all;
      LeftSkips(all[1..], used, x);
    }
  }

  lemma {:induction false} MatchingCounts(cs: seq<Candidate>)
    requires IsMatching(cs)
    ensures |FirstsOf(cs)| == |cs| == |SecondsOf(cs)|
  {
    if cs != [] {
      var c, rest := cs[0], cs[1..];
      MatchingCounts(rest);
      HeadIsUnmatched(cs);
      assert cs == [c] + rest;
      FirstsOfCons(c, rest);
    } else {
      assert FirstsOf(cs) == {} && SecondsOf(cs) == {};
    }
  }

  lemma HeadIsUnmatched(cs: seq<Candidate>)
    requires cs != [] && IsMatching(cs)
    ensures cs[0].i !in FirstsOf(cs[1..]) && cs[0].j !in SecondsOf(cs[1..])
  {
    forall d | d in cs[1..] ensures d.i != cs[0].i && d.j != cs[0].j {
      var k :| 0 <= k < |cs[1..]| && cs[1..][k] == d;
      assert cs[k + 1] == d;
    }
  }

  /** A candidate passed over was passed over for one no further. */
  lemma {:induction false} GreedyIsStable(cs: seq<Candidate>, usedA: set<nat>, usedB: set<nat>, d: Candidate)
    requires SortedBy(Nearer, cs) && d in cs
    ensures d.i in usedA || d.j in usedB || Spoken(Greedy(cs, usedA, usedB), d)
  {
    var c := cs[0];
    var r := Greedy(cs, usedA, usedB);
    if d == c {
      assert d.i in usedA || d.j in usedB || r[0] == c;
    } else if c.i in usedA || c.j in usedB {
      GreedyIsStable(cs[1..], usedA, usedB, d);
    } else {
      GreedyIsStable(cs[1..], usedA + {c.i}, usedB + {c.j}, d);
      var k :| 0 <= k < |cs| && cs[k] == d;
      assert Nearer(c, d) && c in r;
    }
  }

  /** A chosen pair holds a member of `d` and is no further apart. */
  ghost predicate Spoken(chosen: seq<Candidate>, d: Candidate) {
    exists c :: c in chosen && (c.i == d.i || c.j == d.j) && c.distance <= d.distance
  }

  /** No two members left over are nearer to one another than both are to what they were paired with. */
  lemma NearestIsStable(restA: seq<nat>, restB: seq<nat>, distance: (nat, nat) -> nat, i: nat, j: nat)
    requires i in restA && j in restB
    ensures Spoken(Nearest(restA, restB, distance), Candidate(i, j, distance(i, j)))
  {
    var cs, d := Candidates(restA, restB, distance), Candidate(i, j, distance(i, j));
    CandidatesComplete(restA, restB, distance, i, j);
    SortSorts(Nearer, cs);
    assert d in multiset(SortBy(Nearer, cs));
    GreedyIsStable(SortBy(Nearer, cs), {}, {}, d);
  }

  /** Equal forms leave as many members of one side as of the other. */
  lemma MatchCounts(fa: seq<string>, fb: seq<string>)
    ensures var r := MatchEqual(fa, fb, 0, Upto(|fb|)); |fa| + |r.b| == |fb| + |r.a|
  {
    var r := MatchEqual(fa, fb, 0, Upto(|fb|));
    MatchConserves(fa, fb, 0, Upto(|fb|));
    assert fa[0..] == fa && Pick(fb, Upto(|fb|)) == fb;
    assert |multiset(fa) + multiset(Pick(fb, r.b))| == |fa| + |r.b|;
    assert |multiset(fb) + multiset(Pick(fa, r.a))| == |fb| + |r.a|;
  }

  lemma OneSideIsExhausted(restA: seq<nat>, restB: seq<nat>, distance: (nat, nat) -> nat)
    ensures var chosen := Nearest(restA, restB, distance);
            Left(restA, FirstsOf(chosen)) == [] || Left(restB, SecondsOf(chosen)) == []
  {
    var cs := Candidates(restA, restB, distance);
    var sorted := SortBy(Nearer, cs);
    var chosen := Nearest(restA, restB, distance);
    var leftA, leftB := Left(restA, FirstsOf(chosen)), Left(restB, SecondsOf(chosen));
    if leftA != [] && leftB != [] {
      var i, j := leftA[0], leftB[0];
      assert i in leftA && j in leftB;
      CandidatesComplete(restA, restB, distance, i, j);
      var c := Candidate(i, j, distance(i, j));
      assert c in multiset(cs);
      assert c in multiset(sorted);
      GreedyIsMaximal(sorted, {}, {}, c);
    }
  }

  /**
   * Every member left over is node-diffed with exactly one counterpart or named
   * whole, and only the longer side's surplus is named whole.
   */
  lemma NearestAccounts(restA: seq<nat>, restB: seq<nat>, distance: (nat, nat) -> nat, n: nat, m: nat)
    requires Ascending(restA, 0, n) && Ascending(restB, 0, m)
    ensures var chosen := Nearest(restA, restB, distance);
            && IsMatching(chosen)
            && |chosen| == (if |restA| <= |restB| then |restA| else |restB|)
            && |Left(restA, FirstsOf(chosen))| == |restA| - |chosen|
            && |Left(restB, SecondsOf(chosen))| == |restB| - |chosen|
  {
    var chosen := Nearest(restA, restB, distance);
    GreedyMatches(SortBy(Nearer, Candidates(restA, restB, distance)), {}, {});
    MatchingCounts(chosen);
    LeftCount(restA, FirstsOf(chosen), 0, n);
    LeftCount(restB, SecondsOf(chosen), 0, m);
    OneSideIsExhausted(restA, restB, distance);
  }
}
