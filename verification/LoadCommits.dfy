/**
 * Exactly which loads commit, item by item: what a recording must hold for every
 * item decoded from it, in the order they are decoded.
 */
module LoadCommits {
  import opened Options
  import opened Sorting
  import opened Trees
  import opened Diff
  import opened LoadTrees
  import opened LoadRegistry
  import opened LoadEnv
  import opened LoadLinks
  import opened LoadMeaning

  // ----- nodes, rules and comparisons, of the recorded trees -----

  /** The node of the exchange's body at a path, the index-th in document order. */
  predicate NodeAt(e: Env, i: nat, path: string, index: nat, t: Tree) {
    && i < |e.exchanges| && e.exchanges[i].tree.Some?
    && var at := NodesAt(e.exchanges[i].tree.value, Segments(path));
       index < |at| && at[index] == t
  }

  function Unnamed(t: Tree): Tree {
    t.(name := "", member := false, index := 0)
  }

  /** The rules of either item's key, from the item down. */
  ghost predicate BothRules(e: Env, a: Decoded, b: Decoded, rules: Rules) {
    && a.at < |e.exchanges| && b.at < |e.exchanges|
    && var k, l := e.exchanges[a.at].key, e.exchanges[b.at].key;
       && (forall p :: p in rules.ignore <==> RulePath(k, a.item.path + "/" + p) in e.ignores || RulePath(l, b.item.path + "/" + p) in e.ignores)
       && (forall p :: p in rules.decode <==> RulePath(k, a.item.path + "/" + p) in e.encoded || RulePath(l, b.item.path + "/" + p) in e.encoded)
  }

  /** Two records of an item do not differ by both keys' rules, whatever their own names and places. */
  ghost predicate OneItem(e: Env, a: Decoded, b: Decoded) {
    exists x, y, rules ::
      && NodeAt(e, a.at, a.item.path, a.item.index, x) && NodeAt(e, b.at, b.item.path, b.item.index, y)
      && BothRules(e, a, b, rules)
      && DiffIgnoring(e.hash, rules, Some(Unnamed(x)), Some(Unnamed(y))).Empty()
  }

  /** A leaf of the copy, no set member, has the text of the record's first leaf of its name, if there is one. */
  ghost predicate LeavesAgree(mine: seq<Tree>, theirs: seq<Tree>) {
    forall k, j :: k in mine && !k.member && k.kids == [] && FirstLeaf(theirs, k.name, j) ==> theirs[j].text == k.text
  }

  predicate FirstLeaf(kids: seq<Tree>, name: string, j: int) {
    && 0 <= j < |kids| && kids[j].name == name && kids[j].kids == []
    && forall i :: 0 <= i < j ==> !(kids[i].name == name && kids[i].kids == [])
  }

  /** The copy of a row in an item's body agrees with the row's own record. */
  ghost predicate Agrees(e: Env, d: Decoded, ref: Reference, target: Decoded) {
    exists x, y ::
      && NodeAt(e, d.at, ref.path, ref.index, x) && NodeAt(e, target.at, target.item.path, target.item.index, y)
      && LeavesAgree(x.kids, y.kids)
  }

  ghost predicate KeyRules(e: Env, key: LoadKey, rules: Rules) {
    && (forall p :: p in rules.ignore <==> RulePath(key, p) in e.ignores)
    && (forall p :: p in rules.decode <==> RulePath(key, p) in e.encoded)
  }

  /** The row is rendered, and its item in the rendering does not differ from the one recorded. */
  ghost predicate RendersBack(e: Env, log: seq<Write>, d: Decoded) {
    && d.at < |e.exchanges| && e.exchanges[d.at].tree.Some?
    && exists recorded, rendered, rules ::
         && Subtree(e.exchanges[d.at].tree.value, d.item.path, d.item.index) == Some(recorded)
         && e.render(log, d.at, d.item.ref) == Fine(Some(rendered))
         && KeyRules(e, e.exchanges[d.at].key, rules)
         && DiffIgnoring(e.hash, rules, Some(recorded), LinedUp(recorded, Subtree(rendered, d.item.path, 0), d.item.path)).Empty()
  }

  function LinedUp(recorded: Tree, got: Option<Tree>, path: string): Option<Tree> {
    match got
    case None => None
    case Some(g) => Some(Aligned(recorded, g, |Segments(path)|))
  }

  lemma RecordedIs(e: Env, i: nat, path: string, index: nat)
    requires i < |e.exchanges| && e.exchanges[i].tree.Some?
    ensures var tree := e.exchanges[i].tree.value;
            var r := Recorded(e, i, path, index);
            && r == Subtree(tree, path, index)
            && (r.Some? <==> index < |NodesAt(tree, Segments(path))|)
            && (r.Some? ==> NodeAt(e, i, path, index, End(r.value, |Segments(path)|))
                            && ItemNode(r.value, path) == Unnamed(End(r.value, |Segments(path)|)))
  {
    SubtreeIsNth(e.exchanges[i].tree.value, path, index);
    hide Segments, NodesAt, Subtree, End;
  }

  /** The node at a place is the one `Recorded`'s chain ends at. */
  lemma NodeIsRecorded(e: Env, i: nat, path: string, index: nat, t: Tree)
    requires i < |e.exchanges|
    ensures NodeAt(e, i, path, index, t) <==>
            Recorded(e, i, path, index).Some? && t == End(Recorded(e, i, path, index).value, |Segments(path)|)
    ensures NodeAt(e, i, path, index, t) ==> ItemNode(Recorded(e, i, path, index).value, path) == Unnamed(t)
  {
    if e.exchanges[i].tree.Some? { RecordedIs(e, i, path, index); }
    hide Segments, NodesAt, Subtree, End;
  }

  lemma RecordedNode(e: Env, i: nat, path: string, index: nat) returns (t: Tree)
    requires i < |e.exchanges| && Recorded(e, i, path, index).Some?
    ensures NodeAt(e, i, path, index, t) && ItemNode(Recorded(e, i, path, index).value, path) == Unnamed(t)
  {
    t := End(Recorded(e, i, path, index).value, |Segments(path)|);
    NodeIsRecorded(e, i, path, index, t);
  }

  lemma BothRulesAre(e: Env, a: Decoded, b: Decoded, rules: Rules)
    requires a.at < |e.exchanges| && b.at < |e.exchanges|
    ensures BothRules(e, a, b, rules) <==> rules == ItemRules(e, a.at, a.item, b.at, b.item)
  {
    var k, l := e.exchanges[a.at].key, e.exchanges[b.at].key;
    RerootedIs(e.ignores, k, a.item.path, l, b.item.path);
    RerootedIs(e.encoded, k, a.item.path, l, b.item.path);
    hide Rerooted;
  }

  lemma RerootedIs(rs: seq<RulePath>, a: LoadKey, pathA: string, b: LoadKey, pathB: string)
    ensures forall p :: p in Rerooted(rs, a, pathA, b, pathB) <==> RulePath(a, pathA + "/" + p) in rs || RulePath(b, pathB + "/" + p) in rs
  {
    forall p ensures p in Rerooted(rs, a, pathA, b, pathB) <==> RulePath(a, pathA + "/" + p) in rs || RulePath(b, pathB + "/" + p) in rs {
      BelowIs(rs, a, pathA, p);
      BelowIs(rs, b, pathB, p);
    }
  }

  lemma BelowIs(rs: seq<RulePath>, key: LoadKey, path: string, p: string)
    ensures p in (set r | r in rs && Below(r, key, path) :: r.path[|path| + 1..]) <==> RulePath(key, path + "/" + p) in rs
  {
    var full := RulePath(key, path + "/" + p);
    assert full.path[|path| + 1..] == p && path + "/" <= full.path;
    forall r | r in rs && Below(r, key, path) && r.path[|path| + 1..] == p ensures r == full {
      assert r.path == path + "/" + r.path[|path| + 1..];
    }
  }

  lemma OneItemIs(e: Env, a: Decoded, b: Decoded)
    ensures OneItem(e, a, b) <==> SameItem(e, a.at, a.item, b.at, b.item)
  {
    if OneItem(e, a, b) { OneItemIsSame(e, a, b); }
    if SameItem(e, a.at, a.item, b.at, b.item) { SameIsOneItem(e, a, b); }
  }

  lemma OneItemIsSame(e: Env, a: Decoded, b: Decoded)
    requires OneItem(e, a, b)
    ensures SameItem(e, a.at, a.item, b.at, b.item)
  {
    hide DiffIgnoring, ItemRules, BothRules, Recorded, NodeAt, Segments, End, ItemNode, Unnamed;
    var x, y, rules :|
      && NodeAt(e, a.at, a.item.path, a.item.index, x) && NodeAt(e, b.at, b.item.path, b.item.index, y)
      && BothRules(e, a, b, rules)
      && DiffIgnoring(e.hash, rules, Some(Unnamed(x)), Some(Unnamed(y))).Empty();
    RulesInEnv(e, a, b, rules);
    NodeIsRecorded(e, a.at, a.item.path, a.item.index, x);
    NodeIsRecorded(e, b.at, b.item.path, b.item.index, y);
    BothRulesAre(e, a, b, rules);
  }

  lemma RulesInEnv(e: Env, a: Decoded, b: Decoded, rules: Rules)
    requires BothRules(e, a, b, rules)
    ensures a.at < |e.exchanges| && b.at < |e.exchanges|
  {
  }

  lemma SameIsOneItem(e: Env, a: Decoded, b: Decoded)
    requires SameItem(e, a.at, a.item, b.at, b.item)
    ensures OneItem(e, a, b)
  {
    hide DiffIgnoring, ItemRules, BothRules, Recorded, NodeAt, Segments, End, ItemNode, Unnamed;
    var x := RecordedNode(e, a.at, a.item.path, a.item.index);
    var y := RecordedNode(e, b.at, b.item.path, b.item.index);
    var rules := ItemRules(e, a.at, a.item, b.at, b.item);
    BothRulesAre(e, a, b, rules);
    assert DiffIgnoring(e.hash, rules, Some(Unnamed(x)), Some(Unnamed(y))).Empty();
  }

  lemma {:induction false} LeafIsFirst(kids: seq<Tree>, name: string)
    ensures var t := Leaf(kids, name);
            && (t.Some? ==> exists j :: FirstLeaf(kids, name, j) && kids[j] == t.value)
            && (forall j :: FirstLeaf(kids, name, j) ==> t == Some(kids[j]))
  {
    if kids != [] && !(kids[0].name == name && kids[0].kids == []) {
      var rest := kids[1..];
      LeafIsFirst(rest, name);
      forall j | FirstLeaf(kids, name, j) ensures FirstLeaf(rest, name, j - 1) {
        assert forall i :: 0 <= i < j - 1 ==> rest[i] == kids[i + 1];
      }
      forall j | FirstLeaf(rest, name, j) ensures FirstLeaf(kids, name, j + 1) && kids[j + 1] == rest[j] {
        forall i | 0 <= i < j + 1 ensures !(kids[i].name == name && kids[i].kids == []) {
          if i > 0 { assert kids[i] == rest[i - 1]; }
        }
      }
    } else if kids != [] {
      assert FirstLeaf(kids, name, 0);
    }
  }

  lemma LeavesAgreeIs(mine: seq<Tree>, theirs: seq<Tree>)
    ensures LeavesAgree(mine, theirs) <==> forall k :: k in mine ==> FieldAgrees(k, theirs)
  {
    forall k | k in mine
      ensures FieldAgrees(k, theirs) <==>
              (!k.member && k.kids == [] ==> forall j :: FirstLeaf(theirs, k.name, j) ==> theirs[j].text == k.text)
    {
      LeafIsFirst(theirs, k.name);
      hide Leaf, FirstLeaf;
    }
    hide FieldAgrees, FirstLeaf;
  }

  lemma AgreesIs(e: Env, d: Decoded, ref: Reference, target: Decoded)
    ensures Agrees(e, d, ref, target) <==> CopyAgrees(e, RowOf(d), ref, RowOf(target))
  {
    hide Recorded, NodeAt, Segments, End, LeavesAgree, FieldAgrees, ItemNode, Unnamed;
    if Agrees(e, d, ref, target) {
      var x, y :|
        && NodeAt(e, d.at, ref.path, ref.index, x) && NodeAt(e, target.at, target.item.path, target.item.index, y)
        && LeavesAgree(x.kids, y.kids);
      NodeInEnv(e, d.at, ref.path, ref.index, x);
      NodeInEnv(e, target.at, target.item.path, target.item.index, y);
      NodeIsRecorded(e, d.at, ref.path, ref.index, x);
      NodeIsRecorded(e, target.at, target.item.path, target.item.index, y);
      UnnamedKids(x);
      UnnamedKids(y);
      LeavesAgreeIs(x.kids, y.kids);
    }
    if CopyAgrees(e, RowOf(d), ref, RowOf(target)) {
      var x := RecordedNode(e, d.at, ref.path, ref.index);
      var y := RecordedNode(e, target.at, target.item.path, target.item.index);
      UnnamedKids(x);
      UnnamedKids(y);
      LeavesAgreeIs(x.kids, y.kids);
      assert LeavesAgree(x.kids, y.kids);
    }
  }

  lemma UnnamedKids(t: Tree)
    ensures Unnamed(t).kids == t.kids
  {
  }

  lemma NodeInEnv(e: Env, i: nat, path: string, index: nat, t: Tree)
    requires NodeAt(e, i, path, index, t)
    ensures i < |e.exchanges|
  {
  }

  lemma KeyRulesAre(e: Env, key: LoadKey, rules: Rules)
    ensures KeyRules(e, key, rules) <==> rules == RulesFor(e, key)
  {
    PathsAre(e.ignores, key);
    PathsAre(e.encoded, key);
    hide PathsOf;
  }

  lemma PathsAre(rs: seq<RulePath>, key: LoadKey)
    ensures forall p :: p in PathsOf(rs, key) <==> RulePath(key, p) in rs
  {
    forall p ensures p in PathsOf(rs, key) <==> RulePath(key, p) in rs {
      assert RulePath(key, p).path == p;
    }
  }

  lemma RendersBackIs(e: Env, log: seq<Write>, d: Decoded)
    ensures RendersBack(e, log, d) <==> RendersAs(e, log, RowOf(d))
  {
    hide DiffIgnoring, RulesFor, KeyRules, Segments, Subtree, Aligned;
    if RendersBack(e, log, d) {
      var recorded, rendered, rules :|
        && Subtree(e.exchanges[d.at].tree.value, d.item.path, d.item.index) == Some(recorded)
        && e.render(log, d.at, d.item.ref) == Fine(Some(rendered))
        && KeyRules(e, e.exchanges[d.at].key, rules)
        && DiffIgnoring(e.hash, rules, Some(recorded), LinedUp(recorded, Subtree(rendered, d.item.path, 0), d.item.path)).Empty();
      KeyRulesAre(e, e.exchanges[d.at].key, rules);
    }
    if RendersAs(e, log, RowOf(d)) {
      var rules := RulesFor(e, e.exchanges[d.at].key);
      KeyRulesAre(e, e.exchanges[d.at].key, rules);
      var recorded := Recorded(e, d.at, d.item.path, d.item.index).value;
      var rendered := e.render(log, d.at, d.item.ref).value.value;
      assert DiffIgnoring(e.hash, rules, Some(recorded), LinedUp(recorded, Subtree(rendered, d.item.path, 0), d.item.path)).Empty();
    }
  }

  // ----- what is asked of each item -----

  function RowOf(d: Decoded): Row {
    Row(d.item, d.at)
  }

  /** The item is its row's own: the first to be decoded of its type and id. */
  predicate Own(ds: seq<Decoded>, n: int) {
    0 <= n < |ds| && forall m :: 0 <= m < n ==> ds[m].item.ref != ds[n].item.ref
  }

  /** What is written for the items: once for each row, if its own item has a write. */
  function LogOf(ds: seq<Decoded>): seq<Write> {
    if ds == [] then []
    else
      var n := |ds| - 1;
      LogOf(ds[..n]) + if Own(ds, n) && ds[n].item.writes then [Write(ds[n].item.ref, ds[n].at)] else []
  }

  /** A row's own item, if it has a write, can be written after what was written before it. */
  ghost predicate WriteFits(e: Env, ds: seq<Decoded>, n: nat)
    requires n < |ds|
  {
    Own(ds, n) && ds[n].item.writes ==> e.write(LogOf(ds[..n]), ds[n].item).Fine?
  }

  /** An item decoded again comes from another chain each time, and is the same as its row's own. */
  ghost predicate RepeatFits(e: Env, ds: seq<Decoded>, n: nat)
    requires n < |ds|
  {
    forall m :: 0 <= m < n && ds[m].item.ref == ds[n].item.ref ==>
      && ChainOf(e, ds[m].at) != ChainOf(e, ds[n].at)
      && (Own(ds, m) ==> OneItem(e, ds[m], ds[n]))
  }

  /** The reference names a row, whose own record its copy agrees with, or no row and a type that is not read. */
  ghost predicate RefHolds(e: Env, ds: seq<Decoded>, d: Decoded, ref: Reference) {
    || (exists m :: Own(ds, m) && ds[m].item.ref == ref.ref && (ref.path != "" ==> Agrees(e, d, ref, ds[m])))
    || (ref.unread && forall m :: 0 <= m < |ds| ==> ds[m].item.ref != ref.ref)
  }

  ghost predicate RefsFit(e: Env, ds: seq<Decoded>, n: nat)
    requires n < |ds|
  {
    Own(ds, n) ==> forall ref :: ref in ds[n].item.refs ==> RefHolds(e, ds, ds[n], ref)
  }

  /** A row's own item is rendered, from all that was written, as it was recorded. */
  ghost predicate RenderFits(e: Env, ds: seq<Decoded>, n: nat)
    requires n < |ds|
  {
    Own(ds, n) ==> RendersBack(e, LogOf(ds), ds[n])
  }

  // ----- the state the items leave -----

  predicate Holds(ds: seq<Decoded>, r: Ref) {
    exists n :: 0 <= n < |ds| && ds[n].item.ref == r
  }

  ghost predicate SeenIn(e: Env, ds: seq<Decoded>, mark: (Ref, nat)) {
    exists n :: 0 <= n < |ds| && ds[n].item.ref == mark.0 && ChainOf(e, ds[n].at) == mark.1
  }

  ghost predicate OwnRow(ds: seq<Decoded>, row: Row) {
    exists n :: Own(ds, n) && row == RowOf(ds[n])
  }

  ghost predicate LeavesRows(ds: seq<Decoded>, rows: map<Ref, Row>) {
    && (forall r :: r in rows <==> Holds(ds, r))
    && (forall n :: Own(ds, n) ==> ds[n].item.ref in rows && rows[ds[n].item.ref] == RowOf(ds[n]))
  }

  ghost predicate LeavesOrder(ds: seq<Decoded>, order: seq<Row>) {
    forall row :: row in order <==> OwnRow(ds, row)
  }

  ghost predicate LeavesSeen(e: Env, ds: seq<Decoded>, seen: map<(Ref, nat), nat>) {
    forall mark :: mark in seen <==> SeenIn(e, ds, mark)
  }

  /** The rows, their order, what chains showed and what was written are the items'. */
  ghost predicate Leaves(e: Env, ds: seq<Decoded>, p: Progress) {
    LeavesRows(ds, p.rows) && LeavesOrder(ds, p.order) && LeavesSeen(e, ds, p.seen) && p.log == LogOf(ds)
  }

  lemma {:induction false} HeldHasOwn(ds: seq<Decoded>, n: nat) returns (m: nat)
    requires n < |ds|
    ensures m <= n && Own(ds, m) && ds[m].item.ref == ds[n].item.ref
  {
    m := n;
    while !Own(ds, m)
      invariant m <= n && ds[m].item.ref == ds[n].item.ref
      decreases m
    {
      var k :| 0 <= k < m && ds[k].item.ref == ds[m].item.ref;
      m := k;
    }
  }

  lemma OwnInPrefix(ds: seq<Decoded>, k: nat)
    requires k <= |ds|
    ensures forall n :: 0 <= n < k ==> (Own(ds, n) <==> Own(ds[..k], n))
  {
  }

  lemma OwnWhenNew(ds: seq<Decoded>, k: nat)
    requires k < |ds|
    ensures Own(ds, k) <==> !Holds(ds[..k], ds[k].item.ref)
  {
    assert forall m :: 0 <= m < k ==> ds[..k][m] == ds[m];
  }

  lemma HoldsOneMore(ds: seq<Decoded>, k: nat)
    requires k < |ds|
    ensures forall r :: Holds(ds[..k + 1], r) <==> Holds(ds[..k], r) || r == ds[k].item.ref
  {
    var now, was := ds[..k + 1], ds[..k];
    forall r ensures Holds(now, r) <==> Holds(was, r) || r == ds[k].item.ref {
      if n :| 0 <= n < |was| && was[n].item.ref == r { assert now[n] == was[n]; }
      if n :| 0 <= n < |now| && now[n].item.ref == r { assert n < k ==> was[n] == now[n]; }
      assert now[k] == ds[k];
    }
  }

  lemma SeenOneMore(e: Env, ds: seq<Decoded>, k: nat)
    requires k < |ds|
    ensures forall mark :: SeenIn(e, ds[..k + 1], mark) <==> SeenIn(e, ds[..k], mark) || mark == (ds[k].item.ref, ChainOf(e, ds[k].at))
  {
    hide ChainOf;
    var now, was := ds[..k + 1], ds[..k];
    forall mark: (Ref, nat) ensures SeenIn(e, now, mark) <==> SeenIn(e, was, mark) || mark == (ds[k].item.ref, ChainOf(e, ds[k].at)) {
      if n :| 0 <= n < |was| && was[n].item.ref == mark.0 && ChainOf(e, was[n].at) == mark.1 { assert now[n] == was[n]; }
      if n :| 0 <= n < |now| && now[n].item.ref == mark.0 && ChainOf(e, now[n].at) == mark.1 { assert n < k ==> was[n] == now[n]; }
      assert now[k] == ds[k];
    }
  }

  lemma OwnRowOneMore(ds: seq<Decoded>, k: nat)
    requires k < |ds|
    ensures forall row :: OwnRow(ds[..k + 1], row) <==> OwnRow(ds[..k], row) || (Own(ds, k) && row == RowOf(ds[k]))
  {
    var now, was := ds[..k + 1], ds[..k];
    OwnInPrefix(ds, k);
    OwnInPrefix(ds, k + 1);
    hide Own;
    forall row ensures OwnRow(now, row) <==> OwnRow(was, row) || (Own(ds, k) && row == RowOf(ds[k])) {
      if n :| Own(was, n) && row == RowOf(was[n]) {
        OwnIsIndex(was, n);
        assert Own(now, n) && now[n] == was[n];
      }
      if n :| Own(now, n) && row == RowOf(now[n]) {
        OwnIsIndex(now, n);
        if n < k { assert Own(was, n) && was[n] == now[n]; }
      }
      if Own(ds, k) && row == RowOf(ds[k]) { assert Own(now, k) && now[k] == ds[k]; }
    }
  }

  lemma OwnIsIndex(ds: seq<Decoded>, n: int)
    requires Own(ds, n)
    ensures 0 <= n < |ds|
  {
  }

  lemma LogOneMore(ds: seq<Decoded>, k: nat)
    requires k < |ds|
    ensures LogOf(ds[..k + 1]) == LogOf(ds[..k]) + if Own(ds, k) && ds[k].item.writes then [Write(ds[k].item.ref, ds[k].at)] else []
  {
    assert ds[..k + 1][..k] == ds[..k];
    OwnInPrefix(ds, k + 1);
  }

  ghost predicate StoreFits(e: Env, ds: seq<Decoded>, n: nat)
    requires n < |ds|
  {
    WriteFits(e, ds, n) && RepeatFits(e, ds, n)
  }

  /** A repeat fits exactly when its chain has not shown the row and it is the same as the row's own item. */
  lemma RepeatAsks(e: Env, ds: seq<Decoded>, k: nat, p: Progress)
    requires k < |ds| && Leaves(e, ds[..k], p) && ds[k].item.ref in p.rows
    ensures RepeatFits(e, ds, k) <==>
            && (ds[k].item.ref, ChainOf(e, ds[k].at)) !in p.seen
            && SameItem(e, p.rows[ds[k].item.ref].exchange, p.rows[ds[k].item.ref].item, ds[k].at, ds[k].item)
  {
    var d, was := ds[k], ds[..k];
    assert Holds(was, d.item.ref);
    var n :| 0 <= n < |was| && was[n].item.ref == d.item.ref;
    var m := HeldHasOwn(was, n);
    OwnInPrefix(ds, k);
    assert p.rows[d.item.ref] == RowOf(was[m]) && was[m] == ds[m];
    OneItemIs(e, ds[m], ds[k]);
    hide Own, Leaves, SameItem, OneItem, ChainOf, LogOf;
    OnlyOwn(ds, k, m);
    SeenAsks(e, ds, k, p);
  }

  lemma OnlyOwn(ds: seq<Decoded>, k: nat, m: nat)
    requires k < |ds| && m < k && Own(ds, m) && ds[m].item.ref == ds[k].item.ref
    ensures forall j :: 0 <= j < k && ds[j].item.ref == ds[k].item.ref && Own(ds, j) ==> j == m
  {
  }

  lemma SeenAsks(e: Env, ds: seq<Decoded>, k: nat, p: Progress)
    requires k < |ds| && Leaves(e, ds[..k], p)
    ensures (ds[k].item.ref, ChainOf(e, ds[k].at)) !in p.seen <==>
            forall m :: 0 <= m < k && ds[m].item.ref == ds[k].item.ref ==> ChainOf(e, ds[m].at) != ChainOf(e, ds[k].at)
  {
    hide ChainOf;
    var was, mark := ds[..k], (ds[k].item.ref, ChainOf(e, ds[k].at));
    if SeenIn(e, was, mark) {
      var n :| 0 <= n < |was| && was[n].item.ref == mark.0 && ChainOf(e, was[n].at) == mark.1;
      assert ds[n] == was[n];
    }
    forall m | 0 <= m < k && ds[m].item.ref == ds[k].item.ref && ChainOf(e, ds[m].at) == ChainOf(e, ds[k].at) ensures SeenIn(e, was, mark) {
      assert was[m] == ds[m];
    }
  }

  /** Storing one more item succeeds exactly when it fits, and leaves what one more item leaves. */
  lemma StoreIs(e: Env, ds: seq<Decoded>, k: nat, p: Progress)
    requires k < |ds| && Leaves(e, ds[..k], p)
    ensures StoreOf(e, p, ds[k]).Some? <==> StoreFits(e, ds, k)
    ensures StoreOf(e, p, ds[k]).Some? ==> Leaves(e, ds[..k + 1], StoreOf(e, p, ds[k]).value)
  {
    OwnWhenNew(ds, k);
    if ds[k].item.ref in p.rows {
      StoreAgainIs(e, ds, k, p);
    } else {
      StoreNewIs(e, ds, k, p);
    }
  }

  lemma StoreAgainIs(e: Env, ds: seq<Decoded>, k: nat, p: Progress)
    requires k < |ds| && Leaves(e, ds[..k], p) && ds[k].item.ref in p.rows && !Own(ds, k)
    ensures StoreOf(e, p, ds[k]).Some? <==> StoreFits(e, ds, k)
    ensures StoreOf(e, p, ds[k]).Some? ==> Leaves(e, ds[..k + 1], StoreOf(e, p, ds[k]).value)
  {
    hide SameItem, ChainOf, LogOf, Own, RepeatFits, Leaves;
    RepeatAsks(e, ds, k, p);
    if StoreOf(e, p, ds[k]).Some? {
      AgainLeaves(e, ds, k, p, StoreOf(e, p, ds[k]).value);
    }
  }

  lemma AgainLeaves(e: Env, ds: seq<Decoded>, k: nat, p: Progress, q: Progress)
    requires k < |ds| && Leaves(e, ds[..k], p) && ds[k].item.ref in p.rows && !Own(ds, k)
    requires q.rows == p.rows && q.order == p.order && q.log == p.log && q.seen == p.seen[(ds[k].item.ref, ChainOf(e, ds[k].at)) := ds[k].at]
    ensures Leaves(e, ds[..k + 1], q)
  {
    hide LeavesRows, LeavesOrder, LeavesSeen, ChainOf, LogOf, Own;
    RowsStay(ds, k, p.rows);
    OrderStays(ds, k, p.order);
    SeenGrows(e, ds, k, p.seen);
    LogOneMore(ds, k);
  }

  lemma RowsStay(ds: seq<Decoded>, k: nat, rows: map<Ref, Row>)
    requires k < |ds| && LeavesRows(ds[..k], rows) && ds[k].item.ref in rows && !Own(ds, k)
    ensures LeavesRows(ds[..k + 1], rows)
  {
    var was, now := ds[..k], ds[..k + 1];
    HoldsOneMore(ds, k);
    OwnStays(ds, k);
    OwnsAre(was, rows);
    hide Own, Holds;
    forall n | Own(now, n) ensures now[n].item.ref in rows && rows[now[n].item.ref] == RowOf(now[n]) {
      assert Own(was, n) && now[n] == was[n];
    }
  }

  lemma OwnsAre(ds: seq<Decoded>, rows: map<Ref, Row>)
    requires LeavesRows(ds, rows)
    ensures forall n :: Own(ds, n) ==> 0 <= n < |ds| && ds[n].item.ref in rows && rows[ds[n].item.ref] == RowOf(ds[n])
  {
  }

  lemma OrderStays(ds: seq<Decoded>, k: nat, order: seq<Row>)
    requires k < |ds| && LeavesOrder(ds[..k], order) && !Own(ds, k)
    ensures LeavesOrder(ds[..k + 1], order)
  {
    OwnRowOneMore(ds, k);
    hide OwnRow, Own;
  }

  lemma SeenGrows(e: Env, ds: seq<Decoded>, k: nat, seen: map<(Ref, nat), nat>)
    requires k < |ds| && LeavesSeen(e, ds[..k], seen)
    ensures LeavesSeen(e, ds[..k + 1], seen[(ds[k].item.ref, ChainOf(e, ds[k].at)) := ds[k].at])
  {
    SeenOneMore(e, ds, k);
    hide SeenIn, ChainOf;
  }

  /** The rows' own items among the first k + 1 are those among the first k, and item k if it is its row's own. */
  lemma OwnStays(ds: seq<Decoded>, k: nat)
    requires k < |ds|
    ensures forall n :: Own(ds[..k + 1], n) <==> Own(ds[..k], n) || (n == k && Own(ds, k))
    ensures forall n :: Own(ds[..k], n) ==> 0 <= n < k && ds[..k + 1][n] == ds[..k][n]
    ensures ds[..k + 1][k] == ds[k]
  {
    OwnInPrefix(ds, k);
    OwnInPrefix(ds, k + 1);
  }

  lemma StoreNewIs(e: Env, ds: seq<Decoded>, k: nat, p: Progress)
    requires k < |ds| && Leaves(e, ds[..k], p) && ds[k].item.ref !in p.rows && Own(ds, k)
    ensures StoreOf(e, p, ds[k]).Some? <==> StoreFits(e, ds, k)
    ensures StoreOf(e, p, ds[k]).Some? ==> Leaves(e, ds[..k + 1], StoreOf(e, p, ds[k]).value)
  {
    StoreOfNew(e, p, ds[k]);
    NewIsNoRepeat(e, ds, k);
    hide SameItem, ChainOf, LogOf, Own, RepeatFits, LeavesRows, LeavesOrder, LeavesSeen, StoreOf, Holds, CountUp;
    if StoreOf(e, p, ds[k]).Some? {
      NewLeaves(e, ds, k, p, StoreOf(e, p, ds[k]).value);
    }
  }

  lemma NewIsNoRepeat(e: Env, ds: seq<Decoded>, k: nat)
    requires k < |ds| && Own(ds, k)
    ensures RepeatFits(e, ds, k)
  {
    hide ChainOf, OneItem;
  }

  lemma NewLeaves(e: Env, ds: seq<Decoded>, k: nat, p: Progress, q: Progress)
    requires k < |ds| && Leaves(e, ds[..k], p) && ds[k].item.ref !in p.rows && Own(ds, k)
    requires q.rows == p.rows[ds[k].item.ref := RowOf(ds[k])] && q.order == p.order + [RowOf(ds[k])]
    requires q.log == if ds[k].item.writes then p.log + [Write(ds[k].item.ref, ds[k].at)] else p.log
    requires q.seen == p.seen[(ds[k].item.ref, ChainOf(e, ds[k].at)) := ds[k].at]
    ensures Leaves(e, ds[..k + 1], q)
  {
    hide LeavesRows, LeavesOrder, LeavesSeen, ChainOf, LogOf, Own;
    RowsGrow(ds, k, p.rows);
    OrderGrows(ds, k, p.order);
    SeenGrows(e, ds, k, p.seen);
    LogOneMore(ds, k);
  }

  lemma RowsGrow(ds: seq<Decoded>, k: nat, rows: map<Ref, Row>)
    requires k < |ds| && LeavesRows(ds[..k], rows) && ds[k].item.ref !in rows && Own(ds, k)
    ensures LeavesRows(ds[..k + 1], rows[ds[k].item.ref := RowOf(ds[k])])
  {
    var was, now, more := ds[..k], ds[..k + 1], rows[ds[k].item.ref := RowOf(ds[k])];
    HoldsOneMore(ds, k);
    OwnStays(ds, k);
    OwnsAre(was, rows);
    hide Own, Holds;
    forall n | Own(now, n) ensures now[n].item.ref in more && more[now[n].item.ref] == RowOf(now[n]) {
      assert n == k || (Own(was, n) && now[n] == was[n]);
    }
  }

  lemma OrderGrows(ds: seq<Decoded>, k: nat, order: seq<Row>)
    requires k < |ds| && LeavesOrder(ds[..k], order) && Own(ds, k)
    ensures LeavesOrder(ds[..k + 1], order + [RowOf(ds[k])])
  {
    OwnRowOneMore(ds, k);
    hide OwnRow, Own;
  }

  ghost predicate AllStore(e: Env, ds: seq<Decoded>, from: nat) {
    forall n :: from <= n < |ds| ==> StoreFits(e, ds, n)
  }

  lemma AllStoreFrom(e: Env, ds: seq<Decoded>, k: nat)
    requires k < |ds|
    ensures AllStore(e, ds, k) <==> StoreFits(e, ds, k) && AllStore(e, ds, k + 1)
  {
    hide StoreFits;
  }

  lemma {:induction false} StoreAllIs(e: Env, ds: seq<Decoded>, k: nat, p: Progress)
    requires k <= |ds| && Leaves(e, ds[..k], p)
    ensures var o := StoreAll(e, p, ds[k..]);
            && (o.Some? <==> AllStore(e, ds, k))
            && (o.Some? ==> Leaves(e, ds, o.value))
    decreases |ds| - k
  {
    if k == |ds| {
      assert ds[..k] == ds;
      hide Leaves, StoreFits;
    } else {
      StoreIs(e, ds, k, p);
      AllStoreFrom(e, ds, k);
      assert ds[k..][0] == ds[k] && ds[k..][1..] == ds[k + 1..];
      hide Leaves, StoreOf, StoreFits, AllStore;
      if StoreOf(e, p, ds[k]).Some? {
        StoreAllIs(e, ds, k + 1, StoreOf(e, p, ds[k]).value);
      }
    }
  }

  // ----- exchange by exchange is item by item -----

  lemma {:induction false} StoreAllSplits(e: Env, p: Progress, a: seq<Decoded>, b: seq<Decoded>)
    ensures StoreAll(e, p, a + b) ==
            match StoreAll(e, p, a)
            case None => None
            case Some(q) => StoreAll(e, q, b)
    decreases |a|
  {
    hide StoreOf;
    if a == [] {
      assert a + b == b;
    } else {
      assert (a + b)[1..] == a[1..] + b;
      match StoreOf(e, p, a[0])
      case None =>
      case Some(q) => StoreAllSplits(e, q, a[1..], b);
    }
  }

  ghost predicate AllDecode(e: Env, at: seq<nat>) {
    forall k :: 0 <= k < |at| ==> e.decode(at[k]).Fine?
  }

  lemma {:induction false} ExchangesAreItems(e: Env, p: Progress, at: seq<nat>)
    ensures AllDecode(e, at) ==> ExchangesOf(e, p, at) == StoreAll(e, p, ItemsOf(e, at))
    ensures !AllDecode(e, at) ==> ExchangesOf(e, p, at) == None
    decreases |at|
  {
    hide StoreOf;
    if at != [] {
      DecodesOneMore(e, at);
      if e.decode(at[0]).Fine? {
        var ds := Tagged(at[0], e.decode(at[0]).value);
        StoreAllSplits(e, p, ds, ItemsOf(e, at[1..]));
        if StoreAll(e, p, ds).Some? {
          ExchangesAreItems(e, StoreAll(e, p, ds).value, at[1..]);
        }
      }
    }
  }

  lemma DecodesOneMore(e: Env, at: seq<nat>)
    requires at != []
    ensures AllDecode(e, at) <==> e.decode(at[0]).Fine? && AllDecode(e, at[1..])
  {
    assert forall k :: 0 < k < |at| ==> at[k] == at[1..][k - 1];
    if AllDecode(e, at[1..]) && e.decode(at[0]).Fine? {
      forall k | 0 <= k < |at| ensures e.decode(at[k]).Fine? {
        if k > 0 { assert e.decode(at[1..][k - 1]).Fine?; }
      }
    }
  }

  // ----- which loads commit -----

  /** All a load decodes, in order: loader by loader in rank order, each on its exchanges as recorded. */
  ghost function Items(e: Env): seq<Decoded> {
    ItemsOf(e, WholeOrder(e))
  }

  lemma ChecksAre(e: Env, ds: seq<Decoded>, p: Progress)
    requires Leaves(e, ds, p)
    ensures Checks(e, p) <==> AllCheck(e, ds)
  {
    hide CopyAgrees, Agrees, RendersAs, RendersBack, LogOf, SeenIn;
    forall n | Own(ds, n) ensures RendersBack(e, p.log, ds[n]) <==> RendersAs(e, p.log, RowOf(ds[n])) {
      RendersBackIs(e, p.log, ds[n]);
    }
    forall n | Own(ds, n) ensures RowOf(ds[n]) in p.order {
      assert OwnRow(ds, RowOf(ds[n]));
    }
    forall n, ref | Own(ds, n) ensures Resolved(e, p.rows, RowOf(ds[n]), ref) <==> RefHolds(e, ds, ds[n], ref) {
      ResolvedIs(e, ds, p, ds[n], ref);
    }
    hide Resolved, RefHolds, Own, Holds;
    if forall n :: 0 <= n < |ds| ==> RefsFit(e, ds, n) && RenderFits(e, ds, n) {
      forall row | row in p.order ensures RendersAs(e, p.log, row) && forall ref :: ref in row.item.refs ==> Resolved(e, p.rows, row, ref) {
        assert OwnRow(ds, row);
        var n :| Own(ds, n) && row == RowOf(ds[n]);
        OwnIsIndex(ds, n);
        assert RefsFit(e, ds, n) && RenderFits(e, ds, n);
      }
    }
    if Checks(e, p) {
      forall n | 0 <= n < |ds| ensures RefsFit(e, ds, n) && RenderFits(e, ds, n) {
      }
    }
  }

  lemma ResolvedIs(e: Env, ds: seq<Decoded>, p: Progress, d: Decoded, ref: Reference)
    requires Leaves(e, ds, p)
    ensures Resolved(e, p.rows, RowOf(d), ref) <==> RefHolds(e, ds, d, ref)
  {
    hide CopyAgrees, Agrees, LogOf, SeenIn;
    forall m | Own(ds, m) ensures Agrees(e, d, ref, ds[m]) <==> CopyAgrees(e, RowOf(d), ref, RowOf(ds[m])) {
      AgreesIs(e, d, ref, ds[m]);
    }
    if ref.ref in p.rows {
      assert Holds(ds, ref.ref);
      var n :| 0 <= n < |ds| && ds[n].item.ref == ref.ref;
      var m := HeldHasOwn(ds, n);
      assert p.rows[ref.ref] == RowOf(ds[m]);
    } else {
      assert !Holds(ds, ref.ref);
    }
  }

  /** Its body parses, and its status is 2xx. */
  predicate Answers(x: Exchange) {
    x.tree.Some? && 200 <= x.status <= 299
  }

  /** Its body parses, its status is not 2xx, and its loader reads its error code as absence. */
  ghost predicate ReadsAbsence(e: Env, x: Exchange) {
    && x.tree.Some? && !(200 <= x.status <= 299)
    && exists l :: l in e.loaders && l.key == x.key && x.code in l.notFound
  }

  /** Every exchange answers or reads absence, and each that answers is linked and decoded. */
  ghost predicate ExchangesFit(e: Env)
    requires e.Valid()
  {
    && (forall i :: 0 <= i < |e.exchanges| ==> Answers(e.exchanges[i]) || ReadsAbsence(e, e.exchanges[i]))
    && forall i :: 0 <= i < |e.exchanges| && Answers(e.exchanges[i]) ==> IsGood(e, i) && PageFits(e, i) && e.decode(i).Fine?
  }

  lemma KindsOfExchange(e: Env)
    requires e.Valid()
    ensures forall i :: 0 <= i < |e.exchanges| ==>
              && (IsGood(e, i) <==> Answers(e.exchanges[i]))
              && (NotFound(e, i) <==> ReadsAbsence(e, e.exchanges[i]))
  {
    forall i | 0 <= i < |e.exchanges| ensures NotFound(e, i) <==> ReadsAbsence(e, e.exchanges[i]) {
      var x := e.exchanges[i];
      forall l | l in e.loaders && l.key == x.key ensures l == LoaderFor(e.loaders, x.key) {
        TheLoader(e.loaders, l);
      }
    }
  }

  /** Every item can be stored, its references hold and it renders as recorded. */
  ghost predicate ItemsFit(e: Env, ds: seq<Decoded>) {
    forall n :: 0 <= n < |ds| ==> WriteFits(e, ds, n) && RepeatFits(e, ds, n) && RefsFit(e, ds, n) && RenderFits(e, ds, n)
  }

  lemma {:induction false} AllFitIs(e: Env, n: nat)
    requires n <= |e.exchanges|
    ensures AllFit(e, n) <==> forall i :: 0 <= i < n ==> IsGood(e, i) || NotFound(e, i)
  {
    hide IsGood, NotFound;
    if n > 0 { AllFitIs(e, n - 1); }
  }

  lemma WholeOrderIsGood(e: Env)
    requires e.Valid()
    ensures forall i :: i in WholeOrder(e) <==> 0 <= i < |e.exchanges| && IsGood(e, i)
    ensures AllDecode(e, WholeOrder(e)) <==> forall i :: 0 <= i < |e.exchanges| && IsGood(e, i) ==> e.decode(i).Fine?
  {
    forall i: nat ensures i in WholeOrder(e) <==> i < |e.exchanges| && IsGood(e, i) {
      if i < |e.exchanges| && IsGood(e, i) { InWholeOrder(e, i); }
    }
    hide WholeOrder, IsGood, Env.Valid;
    var at := WholeOrder(e);
    if AllDecode(e, at) {
      forall i | 0 <= i < |e.exchanges| && IsGood(e, i) ensures e.decode(i).Fine? {
        assert i in at;
        var k :| 0 <= k < |at| && at[k] == i;
      }
    }
    assert forall k :: 0 <= k < |at| ==> at[k] in at;
  }

  lemma NothingLeft(e: Env)
    ensures Leaves(e, [], NOTHING)
  {
    hide ChainOf;
  }

  /** What the items leave, when they can all be stored. */
  lemma StoredItems(e: Env)
    requires e.Valid()
    ensures var o, ds := ExchangesOf(e, NOTHING, WholeOrder(e)), Items(e);
            && (o.Some? <==> AllDecode(e, WholeOrder(e)) && AllStore(e, ds, 0))
            && (o.Some? ==> Leaves(e, ds, o.value))
  {
    var ds := Items(e);
    NothingLeft(e);
    assert ds[..0] == [] && ds[0..] == ds;
    hide Leaves, AllStore, WholeOrder, ItemsOf, ExchangesOf, StoreAll, AllDecode, Env.Valid;
    StoreAllIs(e, ds, 0, NOTHING);
    ExchangesAreItems(e, NOTHING, WholeOrder(e));
  }

  /**
   * A load commits exactly when every exchange fits and so does every item decoded: a row's
   * own can be written, holds its references and renders as it was recorded, and any other
   * record of the row is the same, from another chain.
   */
  lemma CommitsExactly(e: Env)
    requires e.Valid()
    ensures LoadOf(e).Some? <==> ExchangesFit(e) && ItemsFit(e, Items(e))
    ensures LoadOf(e).Some? ==> Leaves(e, Items(e), LoadOf(e).value)
  {
    ExchangesFitIs(e);
    StoredItems(e);
    CommitIs(e);
    hide LoadOf, ExchangesOf, Leaves, WholeOrder, ItemsOf, AllFit, LinksFit, Checks, Env.Valid, ExchangesFit,
         ItemsFit, AllStore, AllCheck, AllDecode;
    var o := ExchangesOf(e, NOTHING, WholeOrder(e));
    FitsSplit(e, Items(e));
    if o.Some? { ChecksAre(e, Items(e), o.value); }
  }

  lemma ExchangesFitIs(e: Env)
    requires e.Valid()
    ensures ExchangesFit(e) <==> AllFit(e, |e.exchanges|) && LinksFit(e) && AllDecode(e, WholeOrder(e))
  {
    StatusesFitIs(e);
    AnswersFitIs(e);
    hide WholeOrder, AllFit, LinksFit, IsGood, Answers, ReadsAbsence, PageFits, Env.Valid, AllDecode;
  }

  lemma StatusesFitIs(e: Env)
    requires e.Valid()
    ensures AllFit(e, |e.exchanges|) <==>
            forall i :: 0 <= i < |e.exchanges| ==> Answers(e.exchanges[i]) || ReadsAbsence(e, e.exchanges[i])
  {
    KindsOfExchange(e);
    AllFitIs(e, |e.exchanges|);
    hide AllFit, IsGood, NotFound, Answers, ReadsAbsence, Env.Valid;
  }

  lemma AnswersFitIs(e: Env)
    requires e.Valid()
    ensures LinksFit(e) && AllDecode(e, WholeOrder(e)) <==>
            forall i :: 0 <= i < |e.exchanges| && Answers(e.exchanges[i]) ==> IsGood(e, i) && PageFits(e, i) && e.decode(i).Fine?
  {
    KindsOfExchange(e);
    LinksFitExactly(e);
    WholeOrderIsGood(e);
    hide WholeOrder, LinksFit, IsGood, NotFound, Answers, ReadsAbsence, PageFits, Env.Valid, AllDecode;
  }

  ghost predicate AllCheck(e: Env, ds: seq<Decoded>) {
    forall n :: 0 <= n < |ds| ==> RefsFit(e, ds, n) && RenderFits(e, ds, n)
  }

  lemma FitsSplit(e: Env, ds: seq<Decoded>)
    ensures ItemsFit(e, ds) <==> AllStore(e, ds, 0) && AllCheck(e, ds)
  {
    hide WriteFits, RepeatFits, RefsFit, RenderFits;
    if AllStore(e, ds, 0) && AllCheck(e, ds) {
      forall n | 0 <= n < |ds| ensures WriteFits(e, ds, n) && RepeatFits(e, ds, n) && RefsFit(e, ds, n) && RenderFits(e, ds, n) {
        assert StoreFits(e, ds, n);
      }
    }
  }

  lemma CommitIs(e: Env)
    requires e.Valid()
    ensures var o := ExchangesOf(e, NOTHING, WholeOrder(e));
            && (LoadOf(e).Some? <==> AllFit(e, |e.exchanges|) && LinksFit(e) && o.Some? && Checks(e, o.value))
            && (LoadOf(e).Some? ==> LoadOf(e) == o)
  {
    hide ExchangesOf, Checks, LinksFit, AllFit, RunOrder;
  }

  // ----- what that says of a load that commits -----

  /** Every row is rendered from all that was written, and its item comes back as it was recorded. */
  lemma CommittedRendersItsRows(e: Env, n: nat)
    requires e.Valid() && LoadOf(e).Some? && Own(Items(e), n)
    ensures RendersBack(e, LoadOf(e).value.log, Items(e)[n])
    ensures LoadOf(e).value.log == LogOf(Items(e))
  {
    CommitsExactly(e);
    OwnIsIndex(Items(e), n);
    hide LoadOf, Items, RendersBack, WriteFits, RepeatFits, RefsFit, ExchangesFit, LogOf, Own, LeavesRows, LeavesOrder, LeavesSeen;
    assert RenderFits(e, Items(e), n);
  }

  /** Every reference of a row's own item names a row it agrees with, or is one never read. */
  lemma CommittedResolves(e: Env, n: nat, ref: Reference)
    requires e.Valid() && LoadOf(e).Some? && Own(Items(e), n) && ref in Items(e)[n].item.refs
    ensures RefHolds(e, Items(e), Items(e)[n], ref)
  {
    CommitsExactly(e);
    OwnIsIndex(Items(e), n);
    hide LoadOf, Items, RefHolds, WriteFits, RepeatFits, RenderFits, ExchangesFit, LogOf, Own, Leaves;
    assert RefsFit(e, Items(e), n);
  }

  /** Any other record of a row is of another chain, and the same item as the row's own. */
  lemma CommittedRepeats(e: Env, m: nat, n: nat)
    requires e.Valid() && LoadOf(e).Some? && m < n < |Items(e)| && Items(e)[m].item.ref == Items(e)[n].item.ref
    ensures ChainOf(e, Items(e)[m].at) != ChainOf(e, Items(e)[n].at)
    ensures Own(Items(e), m) ==> OneItem(e, Items(e)[m], Items(e)[n])
  {
    CommitsExactly(e);
    hide LoadOf, Items, OneItem, ChainOf, WriteFits, RefsFit, RenderFits, ExchangesFit, LogOf, Own, Leaves;
    assert RepeatFits(e, Items(e), n);
  }

  lemma RendersBackHere(e: Env, log: seq<Write>, d: Decoded, recorded: Tree, rendered: Tree, rules: Rules)
    requires d.at < |e.exchanges| && e.exchanges[d.at].tree.Some? && KeyRules(e, e.exchanges[d.at].key, rules)
    requires Subtree(e.exchanges[d.at].tree.value, d.item.path, d.item.index) == Some(recorded)
    requires e.render(log, d.at, d.item.ref) == Fine(Some(rendered))
    ensures RendersBack(e, log, d) <==>
            Same(e.hash, rules, Some(recorded), LinedUp(recorded, Subtree(rendered, d.item.path, 0), d.item.path))
  {
    KeyRulesAre(e, e.exchanges[d.at].key, rules);
    hide DiffIgnoring, KeyRules, Segments, Subtree, Aligned, RulesFor;
    if RendersBack(e, log, d) {
      var rec, ren, rs :|
        && Subtree(e.exchanges[d.at].tree.value, d.item.path, d.item.index) == Some(rec)
        && e.render(log, d.at, d.item.ref) == Fine(Some(ren))
        && KeyRules(e, e.exchanges[d.at].key, rs)
        && DiffIgnoring(e.hash, rs, Some(rec), LinedUp(rec, Subtree(ren, d.item.path, 0), d.item.path)).Empty();
      KeyRulesAre(e, e.exchanges[d.at].key, rs);
    }
  }

  /** What a row's rendering means where it was recorded is what the recording means, pruned by its rules. */
  lemma RenderedMeansRecorded(e: Env, log: seq<Write>, d: Decoded, recorded: Tree, rendered: Tree, rules: Rules, json: bool)
    requires d.at < |e.exchanges| && e.exchanges[d.at].tree.Some? && KeyRules(e, e.exchanges[d.at].key, rules)
    requires Subtree(e.exchanges[d.at].tree.value, d.item.path, d.item.index) == Some(recorded)
    requires e.render(log, d.at, d.item.ref) == Fine(Some(rendered)) && Subtree(rendered, d.item.path, 0).Some?
    requires Parsed(recorded, json) && Parsed(Subtree(rendered, d.item.path, 0).value, json)
    ensures RendersBack(e, log, d) <==>
            var got := Subtree(rendered, d.item.path, 0).value;
            NamesAgree(recorded, got) && MeaningOf(PruneRoot(rules, recorded)) == MeaningOf(PruneRoot(rules, got))
  {
    hide RendersBack, DiffIgnoring, MeaningOf, PruneRoot, KeyRules, Segments, Subtree, Aligned, Parsed, Same;
    var got, depth := Subtree(rendered, d.item.path, 0).value, |Segments(d.item.path)|;
    RendersBackHere(e, log, d, recorded, rendered, rules);
    AligningNeverMatters(e.hash, rules, recorded, got, depth, json);
    SameIsEqualMeaning(e.hash, rules, Some(recorded), Some(got), json);
  }

  // ----- the order of the items -----

  /** Of two exchanges in the load's order the first has no higher rank, and was recorded first if one loader loads both. */
  ghost predicate InLoadOrder(e: Env, at: seq<nat>) {
    forall a, b :: 0 <= a < b < |at| ==> InOrder(e, at[a], at[b])
  }

  ghost predicate InOrder(e: Env, i: nat, j: nat) {
    && InEnv(e, i) && InEnv(e, j) && RankOf(e, i) <= RankOf(e, j)
    && (e.exchanges[i].key == e.exchanges[j].key ==> i < j)
  }

  lemma {:induction false} OfKeyAscends(e: Env, at: seq<nat>, key: LoadKey)
    requires Ascends(at) && forall k :: 0 <= k < |at| ==> at[k] < |e.exchanges|
    ensures Ascends(OfKey(e, at, key))
  {
    if at != [] {
      OfKeyAscends(e, at[1..], key);
      var rest := OfKey(e, at[1..], key);
      forall b | 0 <= b < |rest| ensures at[0] < rest[b] {
        assert rest[b] in rest;
        var k :| 0 <= k < |at[1..]| && at[1..][k] == rest[b];
        assert at[k + 1] == rest[b];
      }
    }
  }

  lemma {:induction false} RunInLoadOrder(e: Env, at: seq<nat>, ls: seq<Loader>)
    requires e.Valid() && Ascends(at) && (forall k :: 0 <= k < |at| ==> at[k] < |e.exchanges|)
    requires DistinctKeys(ls) && SortedBy(RankLeq, ls) && forall l :: l in ls ==> l in e.loaders
    ensures InLoadOrder(e, RunOrder(e, at, ls))
  {
    if ls != [] {
      var l, rest := ls[0], ls[1..];
      RunInLoadOrder(e, at, rest);
      OfKeyAscends(e, at, l.key);
      OfKeyRanks(e, at, l);
      RestRanks(e, at, l, rest);
      hide RankOf, InEnv, Env.Valid;
      LoadOrderJoins(e, OfKey(e, at, l.key), RunOrder(e, at, rest), l);
    }
  }

  lemma RestRanks(e: Env, at: seq<nat>, l: Loader, rest: seq<Loader>)
    requires e.Valid() && (forall k :: 0 <= k < |at| ==> at[k] < |e.exchanges|)
    requires DistinctKeys([l] + rest) && SortedBy(RankLeq, [l] + rest) && forall x :: x in rest ==> x in e.loaders
    ensures forall i :: i in RunOrder(e, at, rest) ==> InEnv(e, i) && e.exchanges[i].key != l.key && l.rank <= RankOf(e, i)
  {
    var ls := [l] + rest;
    forall i | i in RunOrder(e, at, rest) ensures InEnv(e, i) && e.exchanges[i].key != l.key && l.rank <= RankOf(e, i) {
      var m :| m in rest && m.key == e.exchanges[i].key;
      var k :| 0 <= k < |rest| && rest[k] == m;
      assert ls[k + 1] == m && ls[0] == l;
      TheLoader(e.loaders, m);
    }
  }

  lemma LoadOrderJoins(e: Env, a: seq<nat>, b: seq<nat>, l: Loader)
    requires Ascends(a) && (forall i :: i in a ==> InEnv(e, i) && RankOf(e, i) == l.rank && e.exchanges[i].key == l.key)
    requires InLoadOrder(e, b) && forall i :: i in b ==> InEnv(e, i) && l.rank <= RankOf(e, i) && e.exchanges[i].key != l.key
    ensures InLoadOrder(e, a + b)
  {
    hide RankOf, InEnv;
    var c := a + b;
    forall x, y | 0 <= x < y < |c| ensures InOrder(e, c[x], c[y]) {
      assert x < |a| ==> c[x] == a[x] && a[x] in a;
      assert y < |a| ==> c[y] == a[y] && a[y] in a;
      assert y >= |a| ==> c[y] == b[y - |a|] && b[y - |a|] in b;
      assert x >= |a| ==> c[x] == b[x - |a|] && InOrder(e, b[x - |a|], b[y - |a|]);
    }
  }

  /** Of two items the first is of the same exchange, or of one before it in the load's order. */
  lemma {:induction false} ItemsOfInOrder(e: Env, at: seq<nat>)
    requires InLoadOrder(e, at)
    ensures forall d :: d in ItemsOf(e, at) ==> d.at in at
    ensures forall n, m :: 0 <= n < m < |ItemsOf(e, at)| ==>
              ItemsOf(e, at)[n].at == ItemsOf(e, at)[m].at || InOrder(e, ItemsOf(e, at)[n].at, ItemsOf(e, at)[m].at)
  {
    hide InOrder;
    if at != [] {
      var rest := at[1..];
      forall a, b | 0 <= a < b < |rest| ensures InOrder(e, rest[a], rest[b]) {
        assert rest[a] == at[a + 1] && rest[b] == at[b + 1];
      }
      ItemsOfInOrder(e, rest);
      var head := match e.decode(at[0]) case Fine(items) => Tagged(at[0], items) case _ => [];
      var tail, all := ItemsOf(e, rest), ItemsOf(e, at);
      assert all == head + tail;
      assert forall k :: 0 <= k < |head| ==> head[k].at == at[0];
      forall n, m | 0 <= n < m < |all| ensures all[n].at == all[m].at || InOrder(e, all[n].at, all[m].at) {
        if n < |head| <= m {
          assert all[m] == tail[m - |head|] && tail[m - |head|] in tail;
          var k :| 0 <= k < |rest| && rest[k] == all[m].at;
          assert at[k + 1] == all[m].at;
        } else if |head| <= n {
          assert all[n] == tail[n - |head|] && all[m] == tail[m - |head|];
        }
      }
    }
  }

  /** Items are decoded loader by loader in rank order, and one loader's exchange by exchange as they were recorded. */
  lemma ItemsInOrder(e: Env, n: nat, m: nat)
    requires e.Valid() && n < m < |Items(e)|
    ensures var i, j := Items(e)[n].at, Items(e)[m].at;
            && IsGoodAt(e, i) && IsGoodAt(e, j)
            && (i == j || InOrder(e, i, j))
  {
    var good := GoodOf(e, |e.exchanges|);
    assert Ascends(good);
    RunInLoadOrder(e, good, e.loaders);
    ItemsOfInOrder(e, WholeOrder(e));
    WholeOrderIsGood(e);
    hide ItemsOf, WholeOrder, IsGood, InOrder;
    assert Items(e)[n] in Items(e) && Items(e)[m] in Items(e);
  }

  predicate IsGoodAt(e: Env, i: nat) {
    i < |e.exchanges| && IsGood(e, i)
  }
}
