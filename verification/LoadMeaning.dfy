/**
 * What a load means: `LoadOf`, the rows, writes and counts it leaves, or none when
 * it commits nothing; and what holds of every load that commits.
 */
module LoadMeaning {
  import opened Options
  import opened Sorting
  import opened Trees
  import opened Diff
  import opened LoadTrees
  import opened LoadRegistry
  import opened LoadEnv
  import opened LoadLinks

  // ----- the rules of a comparison -----

  function PathsOf(rs: seq<RulePath>, key: LoadKey): set<string> {
    set r | r in rs && r.key == key :: r.path
  }

  function RulesFor(e: Env, key: LoadKey): Rules {
    Rules(PathsOf(e.ignores, key), PathsOf(e.encoded, key))
  }

  /** A rule's path below an item's. */
  predicate Below(r: RulePath, key: LoadKey, path: string) {
    r.key == key && path + "/" <= r.path
  }

  /** The rules of either side, from its item down. */
  function Rerooted(rs: seq<RulePath>, a: LoadKey, pathA: string, b: LoadKey, pathB: string): set<string> {
    (set r | r in rs && Below(r, a, pathA) :: r.path[|pathA| + 1..])
    + (set r | r in rs && Below(r, b, pathB) :: r.path[|pathB| + 1..])
  }

  /** Two recorded items are one: equal below their paths, unnamed, under both keys' rules. */
  ghost predicate SameItem(e: Env, i: nat, a: Item, j: nat, b: Item) {
    && i < |e.exchanges| && j < |e.exchanges|
    && var x, y := Recorded(e, i, a.path, a.index), Recorded(e, j, b.path, b.index);
       && x.Some? && y.Some?
       && Same(e.hash, ItemRules(e, i, a, j, b), Some(ItemNode(x.value, a.path)), Some(ItemNode(y.value, b.path)))
  }

  function ItemRules(e: Env, i: nat, a: Item, j: nat, b: Item): Rules
    requires i < |e.exchanges| && j < |e.exchanges|
  {
    var k, l := e.exchanges[i].key, e.exchanges[j].key;
    Rules(Rerooted(e.ignores, k, a.path, l, b.path), Rerooted(e.encoded, k, a.path, l, b.path))
  }

  // ----- what the checks at the end ask -----

  /** The first field of a name that holds a value of its own. */
  function Leaf(kids: seq<Tree>, name: string): (r: Option<Tree>)
    ensures r.Some? ==> r.value in kids && r.value.name == name && r.value.kids == []
    ensures r.None? ==> forall k :: k in kids && k.name == name ==> k.kids != []
  {
    if kids == [] then None
    else if kids[0].name == name && kids[0].kids == [] then Some(kids[0])
    else Leaf(kids[1..], name)
  }

  /** A field of a copy says what the row's own record says, where it says anything. */
  predicate FieldAgrees(k: Tree, theirs: seq<Tree>) {
    !k.member && k.kids == [] ==> var t := Leaf(theirs, k.name); t.Some? ==> t.value.text == k.text
  }

  ghost predicate CopyAgrees(e: Env, row: Row, ref: Reference, target: Row) {
    && row.exchange < |e.exchanges| && target.exchange < |e.exchanges|
    && var mine, theirs := Recorded(e, row.exchange, ref.path, ref.index),
                           Recorded(e, target.exchange, target.item.path, target.item.index);
       && mine.Some? && theirs.Some?
       && forall k :: k in ItemNode(mine.value, ref.path).kids ==> FieldAgrees(k, ItemNode(theirs.value, target.item.path).kids)
  }

  /** A reference names a loaded row, and agrees with it, or is one the reader never reads. */
  ghost predicate Resolved(e: Env, rows: map<Ref, Row>, row: Row, ref: Reference) {
    if ref.ref in rows then ref.path != "" ==> CopyAgrees(e, row, ref, rows[ref.ref]) else ref.unread
  }

  /** Some row references an unread row no exchange loaded. */
  predicate Unheld(rows: map<Ref, Row>, order: seq<Row>, ref: Ref) {
    ref !in rows && exists row, r :: row in order && r in row.item.refs && r.ref == ref && r.unread
  }

  function AlignedWith(recorded: Tree, got: Option<Tree>, path: string): Option<Tree> {
    if got.None? then None else Some(Aligned(recorded, got.value, |Segments(path)|))
  }

  /** The row rendered from the rows written is the row recorded. */
  ghost predicate RendersAs(e: Env, log: seq<Write>, row: Row) {
    && row.exchange < |e.exchanges|
    && var recorded := Recorded(e, row.exchange, row.item.path, row.item.index);
       var out := e.render(log, row.exchange, row.item.ref);
       && recorded.Some? && out.Fine? && out.value.Some?
       && Same(e.hash, RulesFor(e, e.exchanges[row.exchange].key), recorded,
               AlignedWith(recorded.value, Subtree(out.value.value, row.item.path, 0), row.item.path))
  }

  // ----- the meaning of a load -----

  /** An item a loader decoded from an exchange. */
  datatype Decoded = Decoded(at: nat, item: Item)

  /** How far a load has come: the rows stored and, of each, the chains that held it; the writes and their counts; the items. */
  datatype Progress = Progress(
    rows: map<Ref, Row>, order: seq<Row>, seen: map<(Ref, nat), nat>, log: seq<Write>, loaded: map<string, nat>, items: seq<Decoded>)

  const NOTHING: Progress := Progress(map[], [], map[], [], map[], [])

  /** An item stored: the same as its row's first in another chain, or written. None is a refusal or an abort. */
  ghost function StoreOf(e: Env, p: Progress, d: Decoded): Option<Progress> {
    var ref, mark := d.item.ref, (d.item.ref, ChainOf(e, d.at));
    var marked := p.(seen := p.seen[mark := d.at], items := p.items + [d]);
    if ref in p.rows then
      if mark !in p.seen && SameItem(e, p.rows[ref].exchange, p.rows[ref].item, d.at, d.item) then Some(marked) else None
    else if d.item.writes && !e.write(p.log, d.item).Fine? then None
    else
      var row := Row(d.item, d.at);
      Some(marked.(rows := p.rows[ref := row], order := p.order + [row],
                   log := if d.item.writes then p.log + [Write(ref, d.at)] else p.log,
                   loaded := if d.item.writes then CountUp(p.loaded, ref.typ) else p.loaded))
  }

  /** The new row's half of `StoreOf`. */
  lemma StoreOfNew(e: Env, p: Progress, d: Decoded)
    requires d.item.ref !in p.rows
    ensures d.item.writes && !e.write(p.log, d.item).Fine? ==> StoreOf(e, p, d) == None
    ensures !(d.item.writes && !e.write(p.log, d.item).Fine?) ==>
              var row := Row(d.item, d.at);
              StoreOf(e, p, d) ==
                Some(Progress(p.rows[d.item.ref := row], p.order + [row], p.seen[(d.item.ref, ChainOf(e, d.at)) := d.at],
                              if d.item.writes then p.log + [Write(d.item.ref, d.at)] else p.log,
                              if d.item.writes then CountUp(p.loaded, d.item.ref.typ) else p.loaded, p.items + [d]))
  {
    hide ChainOf, CountUp, SameItem;
  }

  ghost function StoreAll(e: Env, p: Progress, ds: seq<Decoded>): Option<Progress>
    decreases |ds|
  {
    if ds == [] then Some(p)
    else match StoreOf(e, p, ds[0])
      case None => None
      case Some(q) => StoreAll(e, q, ds[1..])
  }

  function Tagged(i: nat, items: seq<Item>): (r: seq<Decoded>)
    ensures |r| == |items|
  {
    seq(|items|, k requires 0 <= k < |items| => Decoded(i, items[k]))
  }

  /** `exchange`: an exchange's items, if its loader decodes it, stored in order. */
  ghost function ExchangeOf(e: Env, p: Progress, i: nat): Option<Progress> {
    match e.decode(i)
    case Fine(items) => StoreAll(e, p, Tagged(i, items))
    case _ => None
  }

  ghost function ExchangesOf(e: Env, p: Progress, at: seq<nat>): Option<Progress>
    decreases |at|
  {
    if at == [] then Some(p)
    else match ExchangeOf(e, p, at[0])
      case None => None
      case Some(q) => ExchangesOf(e, q, at[1..])
  }

  /** The exchanges of a list that a loader loads. */
  function OfKey(e: Env, at: seq<nat>, key: LoadKey): (r: seq<nat>)
    requires forall k :: 0 <= k < |at| ==> at[k] < |e.exchanges|
    ensures forall i :: i in r <==> i in at && e.exchanges[i].key == key
  {
    if at == [] then []
    else
      assert forall i :: i in at <==> i == at[0] || i in at[1..];
      (if e.exchanges[at[0]].key == key then [at[0]] else []) + OfKey(e, at[1..], key)
  }

  /** The order a load decodes exchanges in: loader by loader, each on its own in recorded order. */
  function RunOrder(e: Env, at: seq<nat>, ls: seq<Loader>): (r: seq<nat>)
    requires forall k :: 0 <= k < |at| ==> at[k] < |e.exchanges|
    ensures forall i :: i in r <==> i in at && exists l :: l in ls && l.key == e.exchanges[i].key
  {
    if ls == [] then []
    else
      assert forall l :: l in ls <==> l == ls[0] || l in ls[1..];
      OfKey(e, at, ls[0].key) + RunOrder(e, at, ls[1..])
  }

  /** Every reference resolves and every row renders as it was recorded. */
  ghost predicate Checks(e: Env, p: Progress) {
    && (forall row, ref :: row in p.order && ref in row.item.refs ==> Resolved(e, p.rows, row, ref))
    && (forall row :: row in p.order ==> RendersAs(e, p.log, row))
  }

  /** What a load of the exchanges leaves, or None when it is refused or aborts. */
  ghost function LoadOf(e: Env): Option<Progress>
    requires e.Valid()
  {
    if !(AllFit(e, |e.exchanges|) && LinksFit(e)) then None
    else match ExchangesOf(e, NOTHING, RunOrder(e, GoodOf(e, |e.exchanges|), e.loaders))
      case None => None
      case Some(p) => if Checks(e, p) then Some(p) else None
  }

  lemma {:induction false} ExchangesSplit(e: Env, p: Progress, a: seq<nat>, b: seq<nat>)
    ensures ExchangesOf(e, p, a + b) ==
            match ExchangesOf(e, p, a)
            case None => None
            case Some(q) => ExchangesOf(e, q, b)
    decreases |a|
  {
    if a == [] {
      assert a + b == b;
    } else {
      assert (a + b)[1..] == a[1..] + b;
      match ExchangeOf(e, p, a[0])
      case None =>
      case Some(q) => ExchangesSplit(e, q, a[1..], b);
    }
  }

  // ----- what the writes keep -----

  /** The writes of the rows, in order. */
  function Writes(order: seq<Row>): seq<Write> {
    if order == [] then []
    else
      var r := order[|order| - 1];
      Writes(order[..|order| - 1]) + if r.item.writes then [Write(r.item.ref, r.exchange)] else []
  }

  /** How many of the writes are of a type. */
  function Tally(log: seq<Write>, typ: string): nat {
    if log == [] then 0 else Tally(log[..|log| - 1], typ) + if log[|log| - 1].ref.typ == typ then 1 else 0
  }

  /** The rows are those written, once each and parents first; `loaded` counts the writes. */
  ghost predicate Kept(e: Env, p: Progress, top: nat) {
    && RowsAre(p.rows, p.order)
    && Ranked(e, p.order, top)
    && p.log == Writes(p.order)
    && forall typ :: Counted(p.loaded, typ) == Tally(p.log, typ)
  }

  ghost predicate RowsAre(rows: map<Ref, Row>, order: seq<Row>) {
    && (forall k :: 0 <= k < |order| ==> order[k].item.ref in rows && rows[order[k].item.ref] == order[k])
    && (forall a, b :: 0 <= a < b < |order| ==> order[a].item.ref != order[b].item.ref)
    && (forall r :: r in rows ==> rows[r].item.ref == r && rows[r] in order)
  }

  ghost predicate Ranked(e: Env, order: seq<Row>, top: nat) {
    && (forall k :: 0 <= k < |order| ==> InEnv(e, order[k].exchange) && RankOf(e, order[k].exchange) <= top)
    && (forall a, b :: 0 <= a < b < |order| ==> RankOf(e, order[a].exchange) <= RankOf(e, order[b].exchange))
  }

  lemma RowsOneMore(rows: map<Ref, Row>, order: seq<Row>, r: Row)
    requires RowsAre(rows, order) && r.item.ref !in rows
    ensures RowsAre(rows[r.item.ref := r], order + [r])
  {
    var rows', order' := rows[r.item.ref := r], order + [r];
    forall x | x in rows' ensures rows'[x].item.ref == x && rows'[x] in order' {
      assert order'[|order|] == r;
    }
  }

  lemma RankedOneMore(e: Env, order: seq<Row>, top: nat, r: Row)
    requires Ranked(e, order, top) && InEnv(e, r.exchange) && RankOf(e, r.exchange) == top
    ensures Ranked(e, order + [r], top)
  {
  }

  lemma WritesOneMore(order: seq<Row>, r: Row)
    ensures Writes(order + [r]) == Writes(order) + if r.item.writes then [Write(r.item.ref, r.exchange)] else []
  {
    assert (order + [r])[..|order|] == order;
  }

  lemma TallyOneMore(log: seq<Write>, w: Write)
    ensures forall typ :: Tally(log + [w], typ) == Tally(log, typ) + if w.ref.typ == typ then 1 else 0
  {
    assert (log + [w])[..|log|] == log;
  }

  lemma KeptOneMore(e: Env, p: Progress, d: Decoded, top: nat)
    requires Kept(e, p, top) && InEnv(e, d.at) && RankOf(e, d.at) == top && StoreOf(e, p, d).Some?
    ensures Kept(e, StoreOf(e, p, d).value, top)
  {
    hide RowsAre, Ranked, Writes, Tally, SameItem, ChainOf;
    if d.item.ref !in p.rows {
      var row := Row(d.item, d.at);
      RowsOneMore(p.rows, p.order, row);
      RankedOneMore(e, p.order, top, row);
      WritesOneMore(p.order, row);
      TallyOneMore(p.log, Write(d.item.ref, d.at));
    }
  }

  // ----- what the items keep -----

  /** The item is loaded: it is its row's own, or another chain's record of the same item. */
  ghost predicate Loaded(e: Env, rows: map<Ref, Row>, d: Decoded) {
    && d.item.ref in rows
    && var r := rows[d.item.ref];
       r == Row(d.item, d.at) || SameItem(e, r.exchange, r.item, d.at, d.item)
  }

  /** No chain of pages holds an item twice. */
  ghost predicate OncePerChain(e: Env, items: seq<Decoded>) {
    forall a, b :: 0 <= a < b < |items| && items[a].item.ref == items[b].item.ref ==>
      ChainOf(e, items[a].at) != ChainOf(e, items[b].at)
  }

  ghost predicate Marked(e: Env, p: Progress) {
    && (forall d :: d in p.items ==> (d.item.ref, ChainOf(e, d.at)) in p.seen)
    && (forall k :: k in p.seen ==> k.0 in p.rows)
  }

  ghost predicate Consistent(e: Env, p: Progress) {
    && (forall d :: d in p.items ==> Loaded(e, p.rows, d))
    && OncePerChain(e, p.items) && Marked(e, p)
  }

  lemma ConsistentOneMore(e: Env, p: Progress, d: Decoded)
    requires Consistent(e, p) && StoreOf(e, p, d).Some?
    ensures Consistent(e, StoreOf(e, p, d).value)
  {
    hide SameItem, ChainOf;
    var q := StoreOf(e, p, d).value;
    assert forall x :: x in q.items <==> x in p.items || x == d;
    assert (d.item.ref, ChainOf(e, d.at)) !in p.seen;
    forall a | 0 <= a < |p.items| && p.items[a].item.ref == d.item.ref ensures ChainOf(e, p.items[a].at) != ChainOf(e, d.at) {
      assert p.items[a] in p.items;
    }
  }

  lemma {:induction false} StoringKeeps(e: Env, p: Progress, ds: seq<Decoded>, top: nat)
    requires Kept(e, p, top) && Consistent(e, p)
    requires forall k :: 0 <= k < |ds| ==> InEnv(e, ds[k].at) && RankOf(e, ds[k].at) == top
    ensures var o := StoreAll(e, p, ds);
            o.Some? ==> Kept(e, o.value, top) && Consistent(e, o.value) && o.value.items == p.items + ds
    decreases |ds|
  {
    hide Kept, Consistent, RankOf, StoreOf;
    if ds == [] {
      assert p.items + [] == p.items;
    } else if StoreOf(e, p, ds[0]).Some? {
      var q := StoreOf(e, p, ds[0]).value;
      KeptOneMore(e, p, ds[0], top);
      ConsistentOneMore(e, p, ds[0]);
      StoredItem(e, p, ds[0]);
      StoringKeeps(e, q, ds[1..], top);
      assert ds == [ds[0]] + ds[1..];
      assert p.items + ds == q.items + ds[1..];
    }
  }

  lemma StoredItem(e: Env, p: Progress, d: Decoded)
    requires StoreOf(e, p, d).Some?
    ensures StoreOf(e, p, d).value.items == p.items + [d]
  {
  }

  lemma RaiseTop(e: Env, p: Progress, low: nat, high: nat)
    requires Kept(e, p, low) && low <= high
    ensures Kept(e, p, high)
  {
    hide RowsAre, Writes, Tally;
  }

  /** Exchanges in the order of their loaders' ranks. */
  ghost predicate InRankOrder(e: Env, at: seq<nat>, low: nat) {
    && (forall k :: 0 <= k < |at| ==> InEnv(e, at[k]) && low <= RankOf(e, at[k]))
    && (forall a, b :: 0 <= a < b < |at| ==> RankOf(e, at[a]) <= RankOf(e, at[b]))
  }

  /** What the loaders decode from the exchanges, one after another. */
  function ItemsOf(e: Env, at: seq<nat>): seq<Decoded> {
    if at == [] then []
    else (match e.decode(at[0]) case Fine(items) => Tagged(at[0], items) case _ => []) + ItemsOf(e, at[1..])
  }

  lemma RanksTail(e: Env, at: seq<nat>, low: nat)
    requires at != [] && InRankOrder(e, at, low)
    ensures InEnv(e, at[0]) && low <= RankOf(e, at[0]) && InRankOrder(e, at[1..], RankOf(e, at[0]))
  {
    hide RankOf;
  }

  lemma ExchangeKeeps(e: Env, p: Progress, i: nat, low: nat)
    requires Kept(e, p, low) && Consistent(e, p) && InEnv(e, i) && low <= RankOf(e, i) && ExchangeOf(e, p, i).Some?
    ensures var q := ExchangeOf(e, p, i).value;
            && Kept(e, q, RankOf(e, i)) && Consistent(e, q)
            && e.decode(i).Fine? && q.items == p.items + Tagged(i, e.decode(i).value)
  {
    hide Kept, Consistent, RankOf, StoreAll;
    RaiseTop(e, p, low, RankOf(e, i));
    StoringKeeps(e, p, Tagged(i, e.decode(i).value), RankOf(e, i));
  }

  lemma {:induction false} ExchangesKeep(e: Env, p: Progress, at: seq<nat>, low: nat) returns (top: nat)
    requires Kept(e, p, low) && Consistent(e, p) && InRankOrder(e, at, low)
    ensures var o := ExchangesOf(e, p, at);
            o.Some? ==> Kept(e, o.value, top) && Consistent(e, o.value) && o.value.items == p.items + ItemsOf(e, at)
                        && forall k :: 0 <= k < |at| ==> e.decode(at[k]).Fine?
    decreases |at|
  {
    top := low;
    hide Kept, Consistent, RankOf, InRankOrder, ExchangeOf;
    if at == [] {
      assert p.items + [] == p.items;
    } else if ExchangeOf(e, p, at[0]).Some? {
      RanksTail(e, at, low);
      ExchangeKeeps(e, p, at[0], low);
      top := ExchangesKeep(e, ExchangeOf(e, p, at[0]).value, at[1..], RankOf(e, at[0]));
      var ds := Tagged(at[0], e.decode(at[0]).value);
      assert p.items + (ds + ItemsOf(e, at[1..])) == (p.items + ds) + ItemsOf(e, at[1..]);
    }
  }

  lemma {:induction false} WritesAre(order: seq<Row>)
    ensures forall w :: w in Writes(order) <==> exists row :: row in order && row.item.writes && w == Write(row.item.ref, row.exchange)
  {
    if order != [] {
      var init, last := order[..|order| - 1], order[|order| - 1];
      WritesAre(init);
      assert forall row :: row in order <==> row in init || row == last;
    }
  }

  /** Two writes, of different rows, the first by a loader of no higher rank. */
  ghost predicate Precedes(e: Env, a: Write, b: Write) {
    a.ref != b.ref && InEnv(e, a.exchange) && InEnv(e, b.exchange) && RankOf(e, a.exchange) <= RankOf(e, b.exchange)
  }

  ghost predicate ParentsFirst(e: Env, log: seq<Write>) {
    forall a, b :: 0 <= a < b < |log| ==> Precedes(e, log[a], log[b])
  }

  lemma {:induction false} WritesInOrder(e: Env, order: seq<Row>, top: nat)
    requires Ranked(e, order, top)
    requires forall a, b :: 0 <= a < b < |order| ==> order[a].item.ref != order[b].item.ref
    ensures ParentsFirst(e, Writes(order))
  {
    if order != [] {
      var init, last := order[..|order| - 1], order[|order| - 1];
      assert Ranked(e, init, top);
      WritesInOrder(e, init, top);
      WritesAre(init);
      var log, w := Writes(init), Write(last.item.ref, last.exchange);
      forall a | 0 <= a < |log| ensures Precedes(e, log[a], w) {
        assert log[a] in log;
        var row :| row in init && log[a] == Write(row.item.ref, row.exchange);
        var k :| 0 <= k < |init| && init[k] == row;
        assert order[k] == row;
      }
      hide Ranked;
      var all := Writes(order);
      assert all == log || all == log + [w];
      forall a, b | 0 <= a < b < |all| ensures Precedes(e, all[a], all[b]) {
        assert all[a] == log[a];
        if b < |log| {
          assert all[b] == log[b];
          assert Precedes(e, log[a], log[b]);
        } else {
          assert all[b] == w;
          assert Precedes(e, log[a], w);
        }
      }
    }
  }

  /** Every row with a write is written exactly once, parents first, and `loaded` counts exactly those. */
  lemma WrittenOnceParentsFirst(e: Env, p: Progress, top: nat)
    requires Kept(e, p, top)
    ensures ParentsFirst(e, p.log)
    ensures forall w :: w in p.log <==> w.ref in p.rows && p.rows[w.ref].item.writes && w.exchange == p.rows[w.ref].exchange
    ensures forall typ :: Counted(p.loaded, typ) == Tally(p.log, typ)
  {
    hide Ranked, RowsAre, Tally;
    RowsAreDistinct(p.rows, p.order);
    WritesInOrder(e, p.order, top);
    WritesAreRows(p.rows, p.order);
  }

  lemma RowsAreDistinct(rows: map<Ref, Row>, order: seq<Row>)
    requires RowsAre(rows, order)
    ensures forall a, b :: 0 <= a < b < |order| ==> order[a].item.ref != order[b].item.ref
  {
  }

  lemma WritesAreRows(rows: map<Ref, Row>, order: seq<Row>)
    requires RowsAre(rows, order)
    ensures forall w :: w in Writes(order) <==> w.ref in rows && rows[w.ref].item.writes && w.exchange == rows[w.ref].exchange
  {
    WritesAre(order);
    hide Writes;
    forall w ensures w in Writes(order) <==> w.ref in rows && rows[w.ref].item.writes && w.exchange == rows[w.ref].exchange {
      if w.ref in rows {
        assert rows[w.ref] in order;
      }
    }
  }

  // ----- what every load that commits does -----

  lemma {:induction false} OfKeyRanks(e: Env, at: seq<nat>, l: Loader)
    requires e.Valid() && l in e.loaders && forall k :: 0 <= k < |at| ==> at[k] < |e.exchanges|
    ensures forall i :: i in OfKey(e, at, l.key) ==> InEnv(e, i) && RankOf(e, i) == l.rank
  {
    TheLoader(e.loaders, l);
  }

  lemma {:induction false} RunOrderIsRanked(e: Env, at: seq<nat>, ls: seq<Loader>, low: nat)
    requires e.Valid() && forall k :: 0 <= k < |at| ==> at[k] < |e.exchanges|
    requires SortedBy(RankLeq, ls) && forall l :: l in ls ==> l in e.loaders && low <= l.rank
    ensures InRankOrder(e, RunOrder(e, at, ls), low)
  {
    if ls != [] {
      var l, rest := ls[0], ls[1..];
      assert forall x :: x in rest ==> RankLeq(l, x);
      RunOrderIsRanked(e, at, rest, l.rank);
      OfKeyRanks(e, at, l);
      hide RankOf, InEnv, Env.Valid;
      RanksJoin(e, OfKey(e, at, l.key), RunOrder(e, at, rest), low, l.rank);
    }
  }

  lemma RanksJoin(e: Env, a: seq<nat>, b: seq<nat>, low: nat, rank: nat)
    requires low <= rank && (forall i :: i in a ==> InEnv(e, i) && RankOf(e, i) == rank) && InRankOrder(e, b, rank)
    ensures InRankOrder(e, a + b, low)
  {
    assert forall k :: 0 <= k < |a| ==> a[k] in a;
    hide RankOf;
  }

  /** The order of the whole load. */
  ghost function WholeOrder(e: Env): seq<nat> {
    RunOrder(e, GoodOf(e, |e.exchanges|), e.loaders)
  }

  lemma InWholeOrder(e: Env, i: nat)
    requires e.Valid() && i < |e.exchanges| && IsGood(e, i)
    ensures i in WholeOrder(e)
  {
    hide IsGood;
    var l := LoaderFor(e.loaders, e.exchanges[i].key);
    assert l in e.loaders && l.key == e.exchanges[i].key;
  }

  lemma LoadIs(e: Env)
    requires e.Valid() && LoadOf(e).Some?
    ensures ExchangesOf(e, NOTHING, WholeOrder(e)) == LoadOf(e)
    ensures AllFit(e, |e.exchanges|) && LinksFit(e) && Checks(e, LoadOf(e).value)
  {
    hide ExchangesOf, Checks, RunOrder, LinksFit, AllFit;
  }

  lemma NothingIsFine(e: Env)
    ensures Kept(e, NOTHING, 0) && Consistent(e, NOTHING)
  {
  }

  lemma LoadKeeps(e: Env) returns (top: nat)
    requires e.Valid() && LoadOf(e).Some?
    ensures var p := LoadOf(e).value;
            && Kept(e, p, top) && Consistent(e, p) && p.items == ItemsOf(e, WholeOrder(e))
            && forall i :: 0 <= i < |e.exchanges| && IsGood(e, i) ==> e.decode(i).Fine?
  {
    var at := WholeOrder(e);
    RunOrderIsRanked(e, GoodOf(e, |e.exchanges|), e.loaders, 0);
    NothingIsFine(e);
    LoadIs(e);
    hide Kept, Consistent, InRankOrder, LoadOf, ExchangesOf, WholeOrder, IsGood, ItemsOf, Env.Valid;
    top := ExchangesKeep(e, NOTHING, at, 0);
    assert NOTHING.items + ItemsOf(e, at) == ItemsOf(e, at);
    GoodAreDecoded(e);
  }

  lemma GoodAreDecoded(e: Env)
    requires e.Valid() && forall k :: 0 <= k < |WholeOrder(e)| ==> e.decode(WholeOrder(e)[k]).Fine?
    ensures forall i :: 0 <= i < |e.exchanges| && IsGood(e, i) ==> e.decode(i).Fine?
  {
    hide WholeOrder, IsGood, Env.Valid;
    forall i | 0 <= i < |e.exchanges| && IsGood(e, i) ensures e.decode(i).Fine? {
      InWholeOrder(e, i);
      var k :| 0 <= k < |WholeOrder(e)| && WholeOrder(e)[k] == i;
    }
  }

  /**
   * A load that commits wrote every row with a write exactly once, parents first,
   * and nothing else, and counts exactly those writes.
   */
  lemma CommittedWrites(e: Env)
    requires e.Valid() && LoadOf(e).Some?
    ensures var p := LoadOf(e).value;
            && ParentsFirst(e, p.log)
            && (forall w :: w in p.log <==> w.ref in p.rows && p.rows[w.ref].item.writes && w.exchange == p.rows[w.ref].exchange)
            && (forall typ :: Counted(p.loaded, typ) == Tally(p.log, typ))
  {
    hide LoadOf;
    var top := LoadKeeps(e);
    WrittenOnceParentsFirst(e, LoadOf(e).value, top);
  }

  lemma {:induction false} ItemAt(e: Env, at: seq<nat>, m: nat, k: nat)
    requires m < |at| && e.decode(at[m]).Fine? && k < |e.decode(at[m]).value|
    ensures var n := |ItemsOf(e, at[..m])| + k;
            n < |ItemsOf(e, at)| && ItemsOf(e, at)[n] == Decoded(at[m], e.decode(at[m]).value[k])
  {
    if m > 0 {
      ItemAt(e, at[1..], m - 1, k);
      assert at[..m][1..] == at[1..][..m - 1];
    }
  }

  lemma DecodedItemAt(e: Env, i: nat, k: nat) returns (n: nat, base: nat)
    requires e.Valid() && LoadOf(e).Some? && i < |e.exchanges| && IsGood(e, i)
    requires e.decode(i).Fine? && k < |e.decode(i).value|
    ensures var items := LoadOf(e).value.items; n < |items| && items[n] == Decoded(i, e.decode(i).value[k])
    ensures base == Base(e, i) && n == base + k
  {
    hide LoadOf, IsGood, WholeOrder, Kept, Consistent, ItemsOf, Env.Valid;
    var _ := LoadKeeps(e);
    var at := WholeOrder(e);
    InWholeOrder(e, i);
    var m := Place(at, i);
    ItemAt(e, at, m, k);
    base := Base(e, i);
    n := base + k;
  }

  /** How many items are decoded before the exchange's. */
  ghost function Base(e: Env, i: nat): nat {
    var at := WholeOrder(e);
    if i in at then |ItemsOf(e, at[..Place(at, i)])| else 0
  }

  /** Every item of every 2xx exchange is its row's own, or another chain's record of the same item. */
  lemma CommittedHoldsEveryItem(e: Env, i: nat, k: nat)
    requires e.Valid() && LoadOf(e).Some? && i < |e.exchanges| && IsGood(e, i)
    ensures e.decode(i).Fine?
    ensures k < |e.decode(i).value| ==> Loaded(e, LoadOf(e).value.rows, Decoded(i, e.decode(i).value[k]))
  {
    hide LoadOf, IsGood, Loaded;
    var _ := LoadKeeps(e);
    if k < |e.decode(i).value| {
      var n, _ := DecodedItemAt(e, i, k);
      assert LoadOf(e).value.items[n] in LoadOf(e).value.items;
    }
  }

  /** No chain of linked pages holds an item twice, in one page or in two. */
  lemma CommittedRepeatsNothing(e: Env, i: nat, k: nat, j: nat, l: nat)
    requires e.Valid() && LoadOf(e).Some?
    requires i < |e.exchanges| && IsGood(e, i) && e.decode(i).Fine? && k < |e.decode(i).value|
    requires j < |e.exchanges| && IsGood(e, j) && e.decode(j).Fine? && l < |e.decode(j).value|
    requires ChainOf(e, i) == ChainOf(e, j) && (i, k) != (j, l)
    ensures e.decode(i).value[k].ref != e.decode(j).value[l].ref
  {
    hide LoadOf, IsGood, Base, ChainOf, Kept, Consistent;
    var _ := LoadKeeps(e);
    var m, _ := DecodedItemAt(e, i, k);
    var n, _ := DecodedItemAt(e, j, l);
    assert m != n;
    OnceInChain(e, LoadOf(e).value, m, n);
  }

  lemma OnceInChain(e: Env, p: Progress, m: nat, n: nat)
    requires Consistent(e, p) && m < |p.items| && n < |p.items| && m != n
    ensures ChainOf(e, p.items[m].at) == ChainOf(e, p.items[n].at) ==> p.items[m].item.ref != p.items[n].item.ref
  {
    hide ChainOf, Loaded, Marked;
  }

  /** And every token carried was answered by an earlier page of its read, and every page that answers more is followed. */
  lemma CommittedFollowsItsReads(e: Env, i: nat)
    requires e.Valid() && LoadOf(e).Some? && i < |e.exchanges| && IsGood(e, i)
    ensures PageFits(e, i)
  {
    LinksFitExactly(e);
    hide LinksFit, PageFits;
  }
}
