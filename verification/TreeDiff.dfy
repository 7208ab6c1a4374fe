/** `Diff`: which paths two bodies differ at, and when there are none. */
module TreeDiff {
  import opened Text
  import opened Trees
  import opened Members

  // ----- paths -----

  function Join(parent: string, child: string): string {
    if parent == "" then child
    else if child == "" then parent
    else parent + "/" + child
  }

  function Under(seg: string, rels: seq<string>): (r: seq<string>)
    ensures |r| == |rels|
  {
    seq(|rels|, i requires 0 <= i < |rels| => Join(seg, rels[i]))
  }

  predicate IsUpper(c: char) {
    'A' <= c <= 'Z'
  }

  predicate IsAlphaNumeric(c: char) {
    IsUpper(c) || 'a' <= c <= 'z' || IsDigit(c)
  }

  predicate IsWord(s: string) {
    && s != "" && !IsDigit(s[0])
    && forall i :: 0 <= i < |s| ==> IsAlphaNumeric(s[i])
  }

  /** A name in its protocol's member spelling, else the placeholder {key}. */
  function Label(name: string, json: bool): string {
    if name == "" then name
    else if json && IsWord(name) && IsUpper(name[0]) then name
    else if !json && IsWord(if name[0] == '@' then name[1..] else name) then name
    else "{key}"
  }

  function Indexed(name: string, index: nat): string {
    name + "[" + Itoa(index) + "]"
  }

  datatype Paths = Paths(rec: seq<string>, ren: seq<string>) {
    function Plus(o: Paths): Paths {
      Paths(rec + o.rec, ren + o.ren)
    }

    predicate Empty() {
      rec == [] && ren == []
    }
  }

  // ----- leaf scores -----

  /** The hashed leaves of a node in document order, each with its index-free path. */
  function Leaves(hash: string -> nat, t: Tree, path: string): seq<nat>
    decreases t, 1
  {
    (if t.Valued() then [hash(path + [0 as char] + [KindByte(t.kind)] + t.text)] else [])
    + KidLeaves(hash, t.kids, path)
  }

  function KidLeaves(hash: string -> nat, kids: seq<Tree>, path: string): seq<nat>
    decreases kids, 0
  {
    if kids == [] then []
    else Leaves(hash, kids[0], path + "/" + kids[0].name) + KidLeaves(hash, kids[1..], path)
  }

  /** The size of the symmetric difference of two leaf multisets. */
  function Distance(a: multiset<nat>, b: multiset<nat>): nat {
    |a - b| + |b - a|
  }

  function Score(hash: string -> nat, kidsA: seq<Tree>, kidsB: seq<Tree>): (nat, nat) -> nat {
    (i: nat, j: nat) =>
      if i < |kidsA| && j < |kidsB|
      then Distance(multiset(Leaves(hash, kidsA[i], "")), multiset(Leaves(hash, kidsB[j], "")))
      else 0
  }

  // ----- what a node diff compares -----

  /** One comparison under a node: two nodes, or a member with no counterpart. */
  datatype Entry =
    | Pair(segA: string, segB: string, a: Tree, b: Tree)
    | RecordedOnly(seg: string)
    | RenderedOnly(seg: string)

  /** Every comparison a diff of `kidsA` with `kidsB` makes is of their members. */
  ghost predicate Within(plan: seq<Entry>, kidsA: seq<Tree>, kidsB: seq<Tree>) {
    forall e :: e in plan && e.Pair? ==>
      && (e.a in kidsA || e.a == EMPTY) && (e.b in kidsB || e.b == EMPTY)
      && (e.a in kidsA || e.b in kidsB)
  }

  function At(kids: seq<Tree>, i: nat): (t: Tree)
    ensures i < |kids| ==> t in kids
    ensures i >= |kids| ==> t == EMPTY
  {
    if i < |kids| then kids[i] else EMPTY
  }

  /** Fields pair by position; a side names its index only when a name repeats. */
  function FieldEntry(name: string, kidsA: seq<Tree>, kidsB: seq<Tree>, i: nat): Entry {
    var a, b := At(kidsA, i), At(kidsB, i);
    if |kidsA| > 1 || |kidsB| > 1 || a.index > 0 || b.index > 0
    then Pair(Indexed(name, a.index), Indexed(name, b.index), a, b)
    else Pair(name, name, a, b)
  }

  function Longer(n: nat, m: nat): (r: nat)
    ensures r == n || r == m
    ensures r >= n && r >= m
  {
    if n < m then m else n
  }

  function FieldPlan(name: string, kidsA: seq<Tree>, kidsB: seq<Tree>): (r: seq<Entry>)
    ensures |r| == Longer(|kidsA|, |kidsB|)
    ensures Within(r, kidsA, kidsB)
  {
    seq(Longer(|kidsA|, |kidsB|), i requires 0 <= i => FieldEntry(name, kidsA, kidsB, i))
  }

  function FormsOf(kids: seq<Tree>): (r: seq<string>)
    ensures |r| == |kids|
  {
    seq(|kids|, i requires 0 <= i < |kids| => Form(kids[i]))
  }

  function UnmatchedOf(kidsA: seq<Tree>, kidsB: seq<Tree>): (r: Unmatched)
    ensures Ascending(r.a, 0, |kidsA|) && Ascending(r.b, 0, |kidsB|)
  {
    MatchEqual(FormsOf(kidsA), FormsOf(kidsB), 0, Upto(|kidsB|))
  }

  /** The pairs of members that are node-diffed. */
  function ChosenOf(hash: string -> nat, kidsA: seq<Tree>, kidsB: seq<Tree>): (r: seq<Candidate>)
    ensures var u := UnmatchedOf(kidsA, kidsB);
            forall c :: c in r ==> c.i in u.a && c.j in u.b && c.i < |kidsA| && c.j < |kidsB|
  {
    var u := UnmatchedOf(kidsA, kidsB);
    Nearest(u.a, u.b, Score(hash, kidsA, kidsB))
  }

  function PairEntries(name: string, kidsA: seq<Tree>, kidsB: seq<Tree>, chosen: seq<Candidate>): (r: seq<Entry>)
    requires forall c :: c in chosen ==> c.i < |kidsA| && c.j < |kidsB|
    ensures |r| == |chosen|
    ensures Within(r, kidsA, kidsB)
  {
    seq(|chosen|, k requires 0 <= k < |chosen| =>
      var a, b := kidsA[chosen[k].i], kidsB[chosen[k].j];
      Pair(Indexed(name, a.index), Indexed(name, b.index), a, b))
  }

  function Usedi(cs: seq<Candidate>): (r: set<nat>)
    ensures r == FirstsOf(cs)
  {
    set c | c in cs :: c.i
  }

  function Usedj(cs: seq<Candidate>): (r: set<nat>)
    ensures r == SecondsOf(cs)
  {
    set c | c in cs :: c.j
  }

  function RecordedEntries(name: string, kids: seq<Tree>, left: seq<nat>): (r: seq<Entry>)
    requires forall k :: 0 <= k < |left| ==> left[k] < |kids|
    ensures |r| == |left|
    ensures forall e :: e in r ==> !e.Pair?
  {
    seq(|left|, k requires 0 <= k < |left| => RecordedOnly(Indexed(name, kids[left[k]].index)))
  }

  function RenderedEntries(name: string, kids: seq<Tree>, left: seq<nat>): (r: seq<Entry>)
    requires forall k :: 0 <= k < |left| ==> left[k] < |kids|
    ensures |r| == |left|
    ensures forall e :: e in r ==> !e.Pair?
  {
    seq(|left|, k requires 0 <= k < |left| => RenderedOnly(Indexed(name, kids[left[k]].index)))
  }

  /** The members of `kids` no chosen pair holds. */
  function Surplus(kids: seq<Tree>, unmatched: seq<nat>, used: set<nat>): (r: seq<nat>)
    requires Ascending(unmatched, 0, |kids|)
    ensures forall k :: 0 <= k < |r| ==> r[k] < |kids|
    ensures r == Left(unmatched, used)
  {
    var r := Left(unmatched, used);
    assert forall k :: 0 <= k < |r| ==> r[k] in r;
    r
  }

  /** `members`: the chosen pairs, then each side's surplus. */
  function MemberPlan(hash: string -> nat, name: string, kidsA: seq<Tree>, kidsB: seq<Tree>): (r: seq<Entry>)
    ensures Within(r, kidsA, kidsB)
  {
    var u, chosen := UnmatchedOf(kidsA, kidsB), ChosenOf(hash, kidsA, kidsB);
    var pairs := PairEntries(name, kidsA, kidsB, chosen);
    var recorded := RecordedEntries(name, kidsA, Surplus(kidsA, u.a, Usedi(chosen)));
    var rendered := RenderedEntries(name, kidsB, Surplus(kidsB, u.b, Usedj(chosen)));
    WithinJoins(pairs, recorded, kidsA, kidsB);
    WithinJoins(pairs + recorded, rendered, kidsA, kidsB);
    pairs + recorded + rendered
  }

  lemma WithinJoins(p: seq<Entry>, q: seq<Entry>, kidsA: seq<Tree>, kidsB: seq<Tree>)
    requires Within(p, kidsA, kidsB) && Within(q, kidsA, kidsB)
    ensures Within(p + q, kidsA, kidsB)
  {
    assert forall e :: e in p + q <==> e in p || e in q;
  }

  function GroupPlan(hash: string -> nat, g: GroupKey, kidsA: seq<Tree>, kidsB: seq<Tree>): (r: seq<Entry>)
    ensures Within(r, kidsA, kidsB)
  {
    if g.member then MemberPlan(hash, Label(g.name, g.json), kidsA, kidsB)
    else FieldPlan(Label(g.name, g.json), kidsA, kidsB)
  }

  function KidsIn(t: Tree, g: GroupKey): (r: seq<Tree>)
    ensures forall k :: k in r ==> k in t.kids
  {
    GroupOf(Keys(t.kids), t.kids, g)
  }

  /** The recorded groups in order, then those only the rendering holds. */
  function BothOrders(ka: seq<GroupKey>, kb: seq<GroupKey>): (r: seq<GroupKey>)
    ensures forall g :: g in r <==> g in ka || g in kb
  {
    Order(ka) + Missing(Order(kb), ka)
  }

  function Missing(order: seq<GroupKey>, ka: seq<GroupKey>): (r: seq<GroupKey>)
    ensures forall g :: g in r <==> g in order && g !in ka
  {
    if order == [] then []
    else (if order[0] in ka then [] else [order[0]]) + Missing(order[1..], ka)
  }

  function Plan(hash: string -> nat, order: seq<GroupKey>, a: Tree, b: Tree): (r: seq<Entry>)
    ensures Within(r, a.kids, b.kids)
  {
    if order == [] then []
    else GroupPlan(hash, order[0], KidsIn(a, order[0]), KidsIn(b, order[0])) + Plan(hash, order[1..], a, b)
  }

  // ----- the diff -----

  function Size(t: Tree): (n: nat)
    ensures n >= 1
    decreases t, 1
  {
    1 + SizeAll(t.kids)
  }

  function SizeAll(kids: seq<Tree>): nat
    decreases kids, 0
  {
    if kids == [] then 0 else Size(kids[0]) + SizeAll(kids[1..])
  }

  lemma {:induction false} KidIsSmaller(kids: seq<Tree>, k: Tree)
    requires k in kids
    ensures Size(k) <= SizeAll(kids)
  {
    if kids[0] != k {
      KidIsSmaller(kids[1..], k);
    }
  }

  lemma EntryIsSmaller(plan: seq<Entry>, e: Entry, a: Tree, b: Tree)
    requires Within(plan, a.kids, b.kids) && e in plan && e.Pair?
    ensures Size(e.a) + Size(e.b) < Size(a) + Size(b)
  {
    if e.a in a.kids { KidIsSmaller(a.kids, e.a); }
    if e.b in b.kids { KidIsSmaller(b.kids, e.b); }
  }

  /** The two nodes' own values, "" naming the nodes themselves. */
  function Own(a: Tree, b: Tree): Paths {
    if a.text != b.text || a.kind != b.kind
    then Paths(if a.Valued() then [""] else [], if b.Valued() then [""] else [])
    else Paths([], [])
  }

  /** `treeDiffer.node`. */
  function Node(hash: string -> nat, a: Tree, b: Tree): Paths
    decreases Size(a) + Size(b), 1, 0
  {
    Own(a, b).Plus(Run(hash, Plan(hash, BothOrders(Keys(a.kids), Keys(b.kids)), a, b), a, b))
  }

  /** The paths one comparison names, under the segments of its two sides. */
  function EntryPaths(hash: string -> nat, e: Entry, a: Tree, b: Tree): Paths
    requires Within([e], a.kids, b.kids)
    decreases Size(a) + Size(b), 0, 0
  {
    match e
    case Pair(segA, segB, x, y) =>
      EntryIsSmaller([e], e, a, b);
      var p := Node(hash, x, y);
      Paths(Under(segA, p.rec), Under(segB, p.ren))
    case RecordedOnly(seg) => Paths([seg], [])
    case RenderedOnly(seg) => Paths([], [seg])
  }

  function Run(hash: string -> nat, plan: seq<Entry>, a: Tree, b: Tree): Paths
    requires Within(plan, a.kids, b.kids)
    decreases Size(a) + Size(b), 0, 1 + |plan|
  {
    if plan == [] then Paths([], [])
    else EntryPaths(hash, plan[0], a, b).Plus(Run(hash, plan[1..], a, b))
  }

  // ----- when a node diff finds nothing -----

  ghost predicate Quiet(hash: string -> nat, plan: seq<Entry>) {
    forall e :: e in plan ==> e.Pair? && Node(hash, e.a, e.b).Empty()
  }

  lemma {:induction false} RunIsEmpty(hash: string -> nat, plan: seq<Entry>, a: Tree, b: Tree)
    requires Within(plan, a.kids, b.kids)
    ensures Run(hash, plan, a, b).Empty() <==> Quiet(hash, plan)
  {
    if plan != [] {
      EntryIsEmpty(hash, plan[0], a, b);
      QuietSplits(hash, plan);
      hide Node, EntryPaths, Quiet;
      RunIsEmpty(hash, plan[1..], a, b);
    }
  }

  lemma EntryIsEmpty(hash: string -> nat, e: Entry, a: Tree, b: Tree)
    requires Within([e], a.kids, b.kids)
    ensures EntryPaths(hash, e, a, b).Empty() <==> e.Pair? && Node(hash, e.a, e.b).Empty()
  {
    hide Node;
  }

  lemma QuietSplits(hash: string -> nat, plan: seq<Entry>)
    requires plan != []
    ensures Quiet(hash, plan) <==> (plan[0].Pair? && Node(hash, plan[0].a, plan[0].b).Empty()) && Quiet(hash, plan[1..])
  {
    hide Node;
    assert forall e :: e in plan <==> e == plan[0] || e in plan[1..];
  }

  lemma QuietJoins(hash: string -> nat, p: seq<Entry>, q: seq<Entry>)
    ensures Quiet(hash, p + q) <==> Quiet(hash, p) && Quiet(hash, q)
  {
    assert forall e :: e in p + q <==> e in p || e in q;
  }

  lemma {:induction false} PlanIsQuiet(hash: string -> nat, order: seq<GroupKey>, a: Tree, b: Tree)
    ensures Quiet(hash, Plan(hash, order, a, b)) <==>
            forall g :: g in order ==> Quiet(hash, GroupPlan(hash, g, KidsIn(a, g), KidsIn(b, g)))
  {
    if order != [] {
      PlanIsQuiet(hash, order[1..], a, b);
      QuietJoins(hash, GroupPlan(hash, order[0], KidsIn(a, order[0]), KidsIn(b, order[0])), Plan(hash, order[1..], a, b));
      assert forall g :: g in order <==> g == order[0] || g in order[1..];
    }
  }

  /** No node below the root is blank: what pruning leaves. */
  ghost predicate Full(t: Tree) {
    forall k :: k in t.kids ==> !k.Blank() && Full(k)
  }

  /** The induction hypothesis of the theorem, for the kids of two nodes. */
  ghost predicate KidsDecided(hash: string -> nat, kidsA: seq<Tree>, kidsB: seq<Tree>) {
    forall x, y :: (x in kidsA || x == EMPTY) && (y in kidsB || y == EMPTY) && (x in kidsA || y in kidsB) ==>
      (Node(hash, x, y).Empty() <==> Form(x) == Form(y))
  }

  lemma OnlyBlankFormsEmpty(k: Tree, json: bool)
    requires Uniform(k, json)
    ensures Form(k) == Form(EMPTY) <==> k.Blank()
  {
    FormIsGroups(k, EMPTY, json);
    if k.kids != [] {
      assert Keys(k.kids)[0] in Keys(k.kids);
      assert Keys(EMPTY.kids) == [];
    }
  }

  ghost predicate SameFormAt(kidsA: seq<Tree>, kidsB: seq<Tree>, i: nat) {
    i < |kidsA| && i < |kidsB| && Form(kidsA[i]) == Form(kidsB[i])
  }

  lemma FieldDecides(hash: string -> nat, name: string, kidsA: seq<Tree>, kidsB: seq<Tree>, i: nat, json: bool)
    requires KidsDecided(hash, kidsA, kidsB) && i < Longer(|kidsA|, |kidsB|)
    requires forall k :: k in kidsA || k in kidsB ==> !k.Blank() && Uniform(k, json)
    ensures var e := FieldEntry(name, kidsA, kidsB, i);
            e.Pair? && (Node(hash, e.a, e.b).Empty() <==> SameFormAt(kidsA, kidsB, i))
  {
    hide Node, Form, Uniform, Indexed;
    OnlyBlankFormsEmpty(if i < |kidsA| then At(kidsA, i) else At(kidsB, i), json);
  }

  lemma FieldsDecide(hash: string -> nat, name: string, kidsA: seq<Tree>, kidsB: seq<Tree>, json: bool)
    requires KidsDecided(hash, kidsA, kidsB)
    requires forall k :: k in kidsA || k in kidsB ==> !k.Blank() && Uniform(k, json)
    ensures Quiet(hash, FieldPlan(name, kidsA, kidsB)) <==> FormsOf(kidsA) == FormsOf(kidsB)
  {
    var plan, n := FieldPlan(name, kidsA, kidsB), Longer(|kidsA|, |kidsB|);
    FormsDifferSomewhere(kidsA, kidsB);
    if FormsOf(kidsA) == FormsOf(kidsB) {
      forall e | e in plan ensures e.Pair? && Node(hash, e.a, e.b).Empty() {
        var i: nat :| i < n && plan[i] == e;
        FieldDecides(hash, name, kidsA, kidsB, i, json);
      }
    } else {
      var i: nat :| i < n && !SameFormAt(kidsA, kidsB, i);
      FieldDecides(hash, name, kidsA, kidsB, i, json);
      assert plan[i] == FieldEntry(name, kidsA, kidsB, i) && plan[i] in plan;
    }
  }

  lemma FormsDifferSomewhere(kidsA: seq<Tree>, kidsB: seq<Tree>)
    ensures FormsOf(kidsA) == FormsOf(kidsB) <==>
            forall i: nat :: i < Longer(|kidsA|, |kidsB|) ==> SameFormAt(kidsA, kidsB, i)
  {
    var fa, fb, n := FormsOf(kidsA), FormsOf(kidsB), Longer(|kidsA|, |kidsB|);
    if fa == fb {
      assert |fa| == |fb|;
      forall i: nat | i < n ensures SameFormAt(kidsA, kidsB, i) {
        assert fa[i] == fb[i];
      }
    } else if |kidsA| != |kidsB| {
      assert !SameFormAt(kidsA, kidsB, n - 1);
    } else {
      var i: nat :| i < n && fa[i] != fb[i];
      assert !SameFormAt(kidsA, kidsB, i);
    }
  }

  /** Nothing is left to diff or to name exactly when the members' forms agree as multisets. */
  lemma NothingUnmatched(fa: seq<string>, fb: seq<string>)
    ensures var u := MatchEqual(fa, fb, 0, Upto(|fb|));
            u.a == [] && u.b == [] <==> multiset(fa) == multiset(fb)
  {
    var u := MatchEqual(fa, fb, 0, Upto(|fb|));
    MatchIsMaximal(fa, fb);
    assert |multiset(Pick(fa, u.a))| == |u.a| && |multiset(Pick(fb, u.b))| == |u.b|;
    if u.a == [] && u.b == [] {
      forall f ensures multiset(fa)[f] == multiset(fb)[f] {
        assert (multiset(fa) - multiset(fb))[f] == 0 && (multiset(fb) - multiset(fa))[f] == 0;
      }
    }
  }

  /** A member left over is named: in a pair whose nodes differ, or whole. */
  lemma MemberPlanIsQuiet(hash: string -> nat, name: string, kidsA: seq<Tree>, kidsB: seq<Tree>)
    requires KidsDecided(hash, kidsA, kidsB)
    ensures var u, chosen := UnmatchedOf(kidsA, kidsB), ChosenOf(hash, kidsA, kidsB);
            Quiet(hash, MemberPlan(hash, name, kidsA, kidsB)) <==>
            chosen == [] && Surplus(kidsA, u.a, Usedi(chosen)) == [] && Surplus(kidsB, u.b, Usedj(chosen)) == []
  {
    var u, chosen := UnmatchedOf(kidsA, kidsB), ChosenOf(hash, kidsA, kidsB);
    var pairs := PairEntries(name, kidsA, kidsB, chosen);
    var recorded := RecordedEntries(name, kidsA, Surplus(kidsA, u.a, Usedi(chosen)));
    var rendered := RenderedEntries(name, kidsB, Surplus(kidsB, u.b, Usedj(chosen)));
    QuietJoins(hash, pairs, recorded);
    QuietJoins(hash, pairs + recorded, rendered);
    WholeIsNotQuiet(hash, recorded);
    WholeIsNotQuiet(hash, rendered);
    PairsAreNotQuiet(hash, name, kidsA, kidsB);
  }

  lemma WholeIsNotQuiet(hash: string -> nat, plan: seq<Entry>)
    requires forall e :: e in plan ==> !e.Pair?
    ensures Quiet(hash, plan) <==> plan == []
  {
    if plan != [] { assert plan[0] in plan; }
  }

  lemma PairsAreNotQuiet(hash: string -> nat, name: string, kidsA: seq<Tree>, kidsB: seq<Tree>)
    requires KidsDecided(hash, kidsA, kidsB)
    ensures var chosen := ChosenOf(hash, kidsA, kidsB);
            Quiet(hash, PairEntries(name, kidsA, kidsB, chosen)) <==> chosen == []
  {
    hide Node, Form, ChosenOf, Indexed;
    var chosen := ChosenOf(hash, kidsA, kidsB);
    if chosen != [] {
      var pairs := PairEntries(name, kidsA, kidsB, chosen);
      ChosenDiffer(hash, kidsA, kidsB, chosen[0]);
      assert pairs[0] in pairs;
    }
  }

  /** A pair is node-diffed only when its forms differ. */
  lemma ChosenDiffer(hash: string -> nat, kidsA: seq<Tree>, kidsB: seq<Tree>, c: Candidate)
    requires c in ChosenOf(hash, kidsA, kidsB)
    ensures Form(kidsA[c.i]) != Form(kidsB[c.j])
  {
    hide Form, MatchEqual, Nearest, Score;
    MatchLeavesDistinct(FormsOf(kidsA), FormsOf(kidsB), 0, Upto(|kidsB|));
    assert FormsOf(kidsA)[c.i] != FormsOf(kidsB)[c.j];
  }

  /**
   * `members` accounts for every member once: equal forms pair as far as they can,
   * the pairs node-diffed are a matching of what is left whose forms all differ and
   * that leaves no nearer pair, and the longer side's excess is named whole.
   */
  lemma MembersAccounted(hash: string -> nat, kidsA: seq<Tree>, kidsB: seq<Tree>)
    ensures var fa, fb, u, chosen := FormsOf(kidsA), FormsOf(kidsB), UnmatchedOf(kidsA, kidsB), ChosenOf(hash, kidsA, kidsB);
            && multiset(Pick(fa, u.a)) == multiset(fa) - multiset(fb)
            && multiset(Pick(fb, u.b)) == multiset(fb) - multiset(fa)
            && (forall x, y :: x in u.a && y in u.b ==> fa[x] != fb[y])
            && IsMatching(chosen)
            && (forall i, j :: i in u.a && j in u.b ==> Spoken(chosen, Candidate(i, j, Score(hash, kidsA, kidsB)(i, j))))
            && |Surplus(kidsA, u.a, Usedi(chosen))| == (if |kidsA| > |kidsB| then |kidsA| - |kidsB| else 0)
            && |Surplus(kidsB, u.b, Usedj(chosen))| == (if |kidsB| > |kidsA| then |kidsB| - |kidsA| else 0)
  {
    var fa, fb, u, score := FormsOf(kidsA), FormsOf(kidsB), UnmatchedOf(kidsA, kidsB), Score(hash, kidsA, kidsB);
    MatchIsMaximal(fa, fb);
    MatchLeavesDistinct(fa, fb, 0, Upto(|fb|));
    MatchCounts(fa, fb);
    NearestAccounts(u.a, u.b, score, |kidsA|, |kidsB|);
    forall i, j | i in u.a && j in u.b ensures Spoken(Nearest(u.a, u.b, score), Candidate(i, j, score(i, j))) {
      NearestIsStable(u.a, u.b, score, i, j);
    }
  }

  lemma MembersDecide(hash: string -> nat, name: string, kidsA: seq<Tree>, kidsB: seq<Tree>)
    requires KidsDecided(hash, kidsA, kidsB)
    ensures Quiet(hash, MemberPlan(hash, name, kidsA, kidsB)) <==>
            multiset(FormsOf(kidsA)) == multiset(FormsOf(kidsB))
  {
    var u := UnmatchedOf(kidsA, kidsB);
    NothingUnmatched(FormsOf(kidsA), FormsOf(kidsB));
    MemberPlanIsQuiet(hash, name, kidsA, kidsB);
    NearestAccounts(u.a, u.b, Score(hash, kidsA, kidsB), |kidsA|, |kidsB|);
  }

  lemma GroupDecides(hash: string -> nat, g: GroupKey, kidsA: seq<Tree>, kidsB: seq<Tree>, json: bool)
    requires KidsDecided(hash, kidsA, kidsB)
    requires forall k :: k in kidsA || k in kidsB ==> !k.Blank() && Uniform(k, json)
    ensures Quiet(hash, GroupPlan(hash, g, kidsA, kidsB)) <==> GroupAgrees(g, FormsOf(kidsA), FormsOf(kidsB))
  {
    if g.member {
      MembersDecide(hash, Label(g.name, g.json), kidsA, kidsB);
    } else {
      FieldsDecide(hash, Label(g.name, g.json), kidsA, kidsB, json);
    }
  }

  lemma FormsOfGroup(t: Tree, g: GroupKey)
    ensures FormsOf(KidsIn(t, g)) == GroupOf(Keys(t.kids), KidForms(t), g)
  {
  }

  /** Groups agree when each group of either side agrees, a missing one counting as empty. */
  lemma EitherSideSuffices<T>(ka: seq<GroupKey>, va: seq<T>, kb: seq<GroupKey>, vb: seq<T>)
    requires |ka| == |va| && |kb| == |vb|
    ensures GroupsAgree(ka, va, kb, vb) <==>
            forall g :: g in ka || g in kb ==> GroupAgrees(g, GroupOf(ka, va, g), GroupOf(kb, vb, g))
  {
    forall g ensures g in ka <==> GroupOf(ka, va, g) != [] {
      GroupIsPresent(ka, va, g);
    }
    forall g ensures g in kb <==> GroupOf(kb, vb, g) != [] {
      GroupIsPresent(kb, vb, g);
    }
    forall g | GroupAgrees(g, GroupOf(ka, va, g), GroupOf(kb, vb, g))
      ensures GroupOf(ka, va, g) == [] <==> GroupOf(kb, vb, g) == []
    {
      assert |multiset(GroupOf(ka, va, g))| == |GroupOf(ka, va, g)|;
      assert |multiset(GroupOf(kb, vb, g))| == |GroupOf(kb, vb, g)|;
    }
  }

  lemma GroupIsPresent<T>(keys: seq<GroupKey>, vals: seq<T>, g: GroupKey)
    requires |keys| == |vals|
    ensures g in keys <==> GroupOf(keys, vals, g) != []
  {
    if g in keys {
      var i :| 0 <= i < |keys| && keys[i] == g;
      assert i in Indices(keys, g);
    }
    if Indices(keys, g) != [] {
      assert keys[Indices(keys, g)[0]] == g;
    }
  }

  lemma KidsInDecided(hash: string -> nat, a: Tree, b: Tree, g: GroupKey)
    requires KidsDecided(hash, a.kids, b.kids)
    ensures KidsDecided(hash, KidsIn(a, g), KidsIn(b, g))
  {
  }

  lemma PlanDecides(hash: string -> nat, a: Tree, b: Tree, json: bool)
    requires Uniform(a, json) && Uniform(b, json) && Full(a) && Full(b)
    requires KidsDecided(hash, a.kids, b.kids)
    ensures var ka, kb := Keys(a.kids), Keys(b.kids);
            Quiet(hash, Plan(hash, BothOrders(ka, kb), a, b)) <==> GroupsAgree(ka, KidForms(a), kb, KidForms(b))
  {
    var ka, kb := Keys(a.kids), Keys(b.kids);
    var order := BothOrders(ka, kb);
    PlanIsQuiet(hash, order, a, b);
    forall g | g in order
      ensures Quiet(hash, GroupPlan(hash, g, KidsIn(a, g), KidsIn(b, g))) <==>
              GroupAgrees(g, GroupOf(ka, KidForms(a), g), GroupOf(kb, KidForms(b), g))
    {
      KidsInDecided(hash, a, b, g);
      GroupDecides(hash, g, KidsIn(a, g), KidsIn(b, g), json);
      FormsOfGroup(a, g);
      FormsOfGroup(b, g);
    }
    EitherSideSuffices(ka, KidForms(a), kb, KidForms(b));
  }

  /** One step of the theorem: from the kids of two nodes to the nodes. */
  lemma NodeDecides(hash: string -> nat, a: Tree, b: Tree, json: bool)
    requires Uniform(a, json) && Uniform(b, json) && Full(a) && Full(b)
    requires KidsDecided(hash, a.kids, b.kids)
    ensures Node(hash, a, b).Empty() <==> Form(a) == Form(b)
  {
    hide Node, Plan, Run, Quiet, Form, GroupsAgree, BothOrders;
    PlanDecides(hash, a, b, json);
    NodeIsEmpty(hash, a, b);
    FormIsGroups(a, b, json);
  }

  lemma NodeIsEmpty(hash: string -> nat, a: Tree, b: Tree)
    ensures Node(hash, a, b).Empty() <==>
            a.text == b.text && a.kind == b.kind && Quiet(hash, Plan(hash, BothOrders(Keys(a.kids), Keys(b.kids)), a, b))
  {
    hide Plan, Run, Quiet, BothOrders;
    RunIsEmpty(hash, Plan(hash, BothOrders(Keys(a.kids), Keys(b.kids)), a, b), a, b);
  }

  /**
   * The path-naming diff and the form agree: for pruned bodies of one protocol a
   * node diff names no path on either side exactly when the forms are equal,
   * whatever the leaf hash.
   */
  lemma {:induction false} NoPathsMeansEqualForms(hash: string -> nat, a: Tree, b: Tree, json: bool)
    requires Uniform(a, json) && Uniform(b, json) && Full(a) && Full(b)
    ensures Node(hash, a, b).Empty() <==> Form(a) == Form(b)
    decreases Size(a) + Size(b)
  {
    forall x, y | (x in a.kids || x == EMPTY) && (y in b.kids || y == EMPTY) && (x in a.kids || y in b.kids)
      ensures Node(hash, x, y).Empty() <==> Form(x) == Form(y)
    {
      if x in a.kids { KidIsSmaller(a.kids, x); }
      if y in b.kids { KidIsSmaller(b.kids, y); }
      NoPathsMeansEqualForms(hash, x, y, json);
    }
    NodeDecides(hash, a, b, json);
  }
}
