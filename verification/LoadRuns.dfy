/**
 * The load run as the server makes it, update by update: it commits exactly when
 * `LoadOf` says what it leaves, and that is what it leaves.
 */
module LoadRuns {
  import opened Options
  import opened Text
  import opened Diff
  import opened LoadTrees
  import opened LoadRegistry
  import opened LoadEnv
  import opened LoadMeaning
  import LL = LoadLinks
  import LP = LoadPages
  import LC = LoadCommits

  datatype Refusal =
    | Status(at: nat) | Unparsed(at: nat) | OrphanPage(at: nat) | CutShort(at: nat) | LoaderDeclined(at: nat)
    | Repeats(at: nat, ref: Ref) | Differs(at: nat, ref: Ref)
    | Dangles(at: nat, ref: Ref, target: Ref) | Disagrees(at: nat, ref: Ref, field: string)
    | RecordedOnly(at: nat, ref: Ref, path: string) | RenderedOnly(at: nat, ref: Ref, path: string)

  /** A step that went through left what its meaning says, and one that did not has none. */
  ghost predicate Follows(meaning: Option<Progress>, through: bool, left: Progress) {
    through == meaning.Some? && (through ==> meaning == Some(left))
  }

  class LoadRun {
    const e: Env
    var refusals: seq<Refusal>
    var absent: map<string, nat>
    var loaded: map<string, nat>
    var unresolved: map<string, seq<string>>
    var good: seq<nat>
    var chain: map<nat, nat>
    var rows: map<Ref, Row>
    var order: seq<Row>
    var seen: map<(Ref, nat), nat>
    var log: seq<Write>
    ghost var items: seq<Decoded>

    ghost function State(): Progress
      reads this
    {
      Progress(rows, order, seen, log, loaded, items)
    }

    /** The rows are of the load's exchanges, and each 2xx exchange is linked. */
    ghost predicate Valid()
      reads this
    {
      && e.Valid() && good == GoodOf(e, |e.exchanges|) && RowsInEnv(e, rows, order)
      && forall i :: i in good ==> i in chain && chain[i] == LL.ChainOf(e, i)
    }

    constructor (e: Env)
      requires e.Valid()
      ensures this.e == e && State() == NOTHING && refusals == [] && good == [] && unresolved == map[] && absent == map[]
    {
      this.e := e;
      refusals, absent, loaded, unresolved := [], map[], map[], map[];
      good, chain, rows, order, seen, log, items := [], map[], map[], [], map[], [], [];
    }

    method Refuse(r: Refusal)
      modifies this`refusals
      ensures refusals == old(refusals) + [r]
    {
      refusals := refusals + [r];
    }

    // ----- statuses and bodies -----

    /** `link` up to the pages: non-2xx answers are absent or refused, a body that does not parse is refused. */
    method Sort2xx()
      requires e.Valid() && good == [] && absent == map[]
      modifies this`refusals, this`absent, this`good
      ensures old(refusals) <= refusals
      ensures good == GoodOf(e, |e.exchanges|) && absent == AbsentOf(e, |e.exchanges|)
      ensures refusals == old(refusals) <==> AllFit(e, |e.exchanges|)
    {
      hide IsGood, NotFound, LoaderFor, CountUp;
      for i := 0 to |e.exchanges|
        invariant old(refusals) <= refusals
        invariant good == GoodOf(e, i) && absent == AbsentOf(e, i)
        invariant refusals == old(refusals) <==> AllFit(e, i)
      {
        SortOne(i);
      }
    }

    method SortOne(i: nat)
      requires InEnv(e, i)
      modifies this`refusals, this`absent, this`good
      ensures old(refusals) <= refusals
      ensures good == old(good) + if IsGood(e, i) then [i] else []
      ensures absent == if NotFound(e, i) then CountUp(old(absent), LoaderFor(e.loaders, e.exchanges[i].key).typ) else old(absent)
      ensures refusals == old(refusals) <==> IsGood(e, i) || NotFound(e, i)
    {
      hide LoaderFor, CountUp, Registered;
      var x := e.exchanges[i];
      var l := LoaderFor(e.loaders, x.key);
      if !Answered(x) {
        if x.tree.Some? && x.code in l.notFound {
          absent := CountUp(absent, l.typ);
        } else {
          Refuse(Status(i));
        }
      } else if x.tree.None? {
        Refuse(Unparsed(i));
      } else {
        good := good + [i];
      }
    }

    // ----- pages -----

    /** The rest of `link`: the exchanges of each read, and the reads in the order they are met. */
    method CollectReads() returns (met: seq<LL.Read>, of: map<LL.Read, seq<nat>>)
      requires e.Valid() && good == GoodOf(e, |e.exchanges|)
      ensures forall i :: 0 <= i < |good| ==> good[i] < |e.exchanges|
      ensures Collected(e, of, good) && forall r :: r in met <==> r in of
    {
      met, of := [], map[];
      assert forall k :: 0 <= k < |good| ==> good[k] in good;
      NoneIn(e);
      assert Collected(e, of, []);
      hide Collected, LL.ReadOf, Env.Valid, GoodOf;
      for k := 0 to |good|
        invariant Collected(e, of, good[..k]) && forall r :: r in met <==> r in of
      {
        var r := LL.ReadOf(e, good[k]);
        CollectedOneMore(e, of, good, k);
        if r !in of {
          met := met + [r];
        }
        of := of[r := (if r in of then of[r] else []) + [good[k]]];
      }
      assert good[..|good|] == good;
    }

    /** `pages` on one read. */
    method LinkRead(r: LL.Read, at: seq<nat>)
      requires e.Valid() && at == LL.In(e, GoodOf(e, |e.exchanges|), r) && at != []
      modifies this`chain, this`refusals
      ensures old(refusals) <= refusals
      ensures refusals == old(refusals) <==> forall i :: i in at ==> LL.ReadFits(e, i)
      ensures forall i :: i in chain <==> i in old(chain) || i in at
      ensures forall i :: i in chain ==> chain[i] == if i in at then LL.ChainOf(e, i) else old(chain)[i]
    {
      LL.LinkedRead(e, at, r, 0);
      var ps, p := LL.PagesOf(e, at), LL.PagingOf(LoaderFor(e.loaders, r.key));
      ReadLinks(e, at, r, ps, p);
      hide LL.PagesOf, LL.ChainOf, LL.ReadFits, LL.In, LP.Refusals, LP.Root, LL.AllGood, Env.Valid, GoodOf, LoaderFor;
      LinkPages(at, ps, p);
    }

    method LinkPages(at: seq<nat>, ps: LP.Pages, p: LP.Paging)
      requires |ps| == |at| && forall i :: 0 <= i < |ps| && !p.tokens ==> ps[i].carried == ""
      requires forall k :: 0 <= k < |at| ==> LL.ChainOf(e, at[k]) == at[LP.Root(ps, p, k)]
      modifies this`chain, this`refusals
      ensures old(refusals) <= refusals && (refusals == old(refusals) <==> LP.Refusals(ps, p) == [])
      ensures forall i :: i in chain <==> i in old(chain) || i in at
      ensures forall i :: i in chain ==> chain[i] == if i in at then LL.ChainOf(e, i) else old(chain)[i]
    {
      hide LL.ChainOf, LP.Refusals, LP.Root;
      var roots := new nat[|at|];
      var rs := LP.Link(ps, p, roots);
      Chain(at, ps, p, roots);
      LP.RefusedAreItsPages(ps, p);
      RefusePages(at, rs);
    }

    method Chain(at: seq<nat>, ghost ps: LP.Pages, ghost p: LP.Paging, roots: array<nat>)
      requires roots.Length == |at| == |ps| && forall m :: 0 <= m < |at| ==> roots[m] == LP.Root(ps, p, m)
      requires forall k :: 0 <= k < |at| ==> LL.ChainOf(e, at[k]) == at[LP.Root(ps, p, k)]
      modifies this`chain
      ensures forall i :: i in chain <==> i in old(chain) || i in at
      ensures forall i :: i in chain ==> chain[i] == if i in at then LL.ChainOf(e, i) else old(chain)[i]
    {
      hide LL.ChainOf, LP.Root;
      for k := 0 to |at|
        invariant forall i :: i in chain <==> i in old(chain) || i in at[..k]
        invariant forall i :: i in chain ==> chain[i] == if i in at[..k] then LL.ChainOf(e, i) else old(chain)[i]
      {
        assert at[..k + 1] == at[..k] + [at[k]];
        chain := chain[at[k] := at[roots[k]]];
      }
      assert at[..|at|] == at;
    }

    method RefusePages(at: seq<nat>, rs: seq<LP.Refusal>)
      requires forall k :: 0 <= k < |rs| ==> rs[k].page < |at|
      modifies this`refusals
      ensures old(refusals) <= refusals && |refusals| == |old(refusals)| + |rs|
    {
      for k := 0 to |rs|
        invariant old(refusals) <= refusals && |refusals| == |old(refusals)| + k
      {
        Refuse(if rs[k].Orphan? then OrphanPage(at[rs[k].page]) else CutShort(at[rs[k].page]));
      }
    }

    /** Every read linked: each 2xx exchange has its chain, and nothing is refused exactly when the links fit. */
    method LinkReads()
      requires e.Valid() && good == GoodOf(e, |e.exchanges|)
      modifies this`chain, this`refusals
      ensures old(refusals) <= refusals
      ensures forall i :: i in good ==> i in chain && chain[i] == LL.ChainOf(e, i)
      ensures refusals == old(refusals) <==> LL.LinksFit(e)
    {
      hide LL.ChainOf, LL.ReadFits, LL.In, LL.LinksFit;
      var met, of := CollectReads();
      for k := 0 to |met|
        invariant old(refusals) <= refusals
        invariant forall i :: MetIn(met[..k], of, i) ==> i in chain && chain[i] == LL.ChainOf(e, i)
        invariant refusals == old(refusals) <==> forall i :: MetIn(met[..k], of, i) ==> LL.ReadFits(e, i)
      {
        assert met[k] in met;
        MetOneMore(met, of, k);
        ghost var before := refusals;
        LinkRead(met[k], of[met[k]]);
        Grown(old(refusals), before, refusals);
      }
      assert met[..|met|] == met;
      AllAreMet(e, met, of);
    }

    // ----- decoding and writing -----

    /** `repeat`: an item whose row was written before. */
    method Repeat(first: Row, i: nat, item: Item) returns (aborted: bool)
      requires i < |e.exchanges| && first.exchange < |e.exchanges| && i in chain
      modifies this`refusals, this`seen
      ensures old(refusals) <= refusals
      ensures !aborted && refusals == old(refusals) <==>
              (item.ref, chain[i]) !in old(seen) && SameItem(e, first.exchange, first.item, i, item)
      ensures !aborted && refusals == old(refusals) ==> seen == old(seen)[(item.ref, chain[i]) := i]
    {
      aborted := false;
      if (item.ref, chain[i]) in seen {
        Refuse(Repeats(i, item.ref));
        return;
      }
      seen := seen[(item.ref, chain[i]) := i];
      var was := Recorded(e, first.exchange, first.item.path, first.item.index);
      var now := Recorded(e, i, item.path, item.index);
      if was.None? || now.None? {
        return true;
      }
      var paths := DiffIgnoring(e.hash, ItemRules(e, first.exchange, first.item, i, item),
                                Some(ItemNode(was.value, first.item.path)), Some(ItemNode(now.value, item.path)));
      if !paths.Empty() {
        Refuse(Differs(i, item.ref));
      }
    }

    /** One item of an exchange: compared if its row is written, else written. */
    method Store(i: nat, item: Item) returns (aborted: bool)
      requires Valid() && i in good
      modifies this`refusals, this`seen, this`rows, this`order, this`log, this`loaded, this`items
      ensures Valid() && old(refusals) <= refusals
      ensures Follows(StoreOf(e, old(State()), Decoded(i, item)), !aborted && refusals == old(refusals), State())
    {
      hide StoreOf, LL.ChainOf;
      if item.ref in rows {
        aborted := StoreAgain(i, item);
      } else {
        aborted := StoreNew(i, item);
      }
    }

    method StoreAgain(i: nat, item: Item) returns (aborted: bool)
      requires Valid() && i in good && item.ref in rows
      modifies this`refusals, this`seen, this`items
      ensures Valid() && old(refusals) <= refusals
      ensures Follows(StoreOf(e, old(State()), Decoded(i, item)), !aborted && refusals == old(refusals), State())
    {
      hide SameItem, LL.ChainOf;
      items := items + [Decoded(i, item)];
      aborted := Repeat(rows[item.ref], i, item);
    }

    method StoreNew(i: nat, item: Item) returns (aborted: bool)
      requires Valid() && i in good && item.ref !in rows
      modifies this`refusals, this`seen, this`rows, this`order, this`log, this`loaded, this`items
      ensures Valid() && old(refusals) <= refusals
      ensures Follows(StoreOf(e, old(State()), Decoded(i, item)), !aborted && refusals == old(refusals), State())
    {
      hide StoreOf, LL.ChainOf, CountUp, Valid;
      ghost var p, d := State(), Decoded(i, item);
      StoreOfNew(e, p, d);
      var wrote;
      wrote, aborted := WriteItem(i, item);
      if !wrote {
        return;
      }
      AddRow(i, item);
    }

    /** The item's write, if it has one, and its count. */
    method WriteItem(i: nat, item: Item) returns (wrote: bool, aborted: bool)
      requires Valid()
      modifies this`refusals, this`log, this`loaded
      ensures Valid()
      ensures wrote <==> item.writes ==> e.write(old(log), item).Fine?
      ensures old(refusals) <= refusals && (wrote <==> !aborted && refusals == old(refusals))
      ensures wrote ==> log == if item.writes then old(log) + [Write(item.ref, i)] else old(log)
      ensures wrote ==> loaded == if item.writes then CountUp(old(loaded), item.ref.typ) else old(loaded)
    {
      hide CountUp, RowsInEnv, LL.ChainOf, Env.Valid, GoodOf;
      wrote, aborted := true, false;
      if item.writes {
        var out := e.write(log, item);
        if !out.Fine? {
          if out.Declined? { Refuse(LoaderDeclined(i)); }
          return false, out.Fails?;
        }
        log := log + [Write(item.ref, i)];
        loaded := CountUp(loaded, item.ref.typ);
      }
    }

    method AddRow(i: nat, item: Item)
      requires Valid() && i in good && item.ref !in rows
      modifies this`seen, this`rows, this`order, this`items
      ensures Valid()
      ensures rows == old(rows)[item.ref := Row(item, i)] && order == old(order) + [Row(item, i)]
      ensures seen == old(seen)[(item.ref, LL.ChainOf(e, i)) := i] && items == old(items) + [Decoded(i, item)]
    {
      hide LL.ChainOf, Env.Valid;
      var row := Row(item, i);
      rows, order, seen := rows[item.ref := row], order + [row], seen[(item.ref, chain[i]) := i];
      items := items + [Decoded(i, item)];
    }

    /** `exchange`: decoded, then stored item by item. */
    method Exchange(i: nat) returns (aborted: bool)
      requires Valid() && i in good
      modifies this`refusals, this`seen, this`rows, this`order, this`log, this`loaded, this`items
      ensures Valid() && old(refusals) <= refusals
      ensures Follows(ExchangeOf(e, old(State()), i), !aborted && refusals == old(refusals), State())
    {
      hide StoreOf, LL.ChainOf, RowsInEnv;
      var out := e.decode(i);
      if !out.Fine? {
        if out.Declined? { Refuse(LoaderDeclined(i)); }
        return out.Fails?;
      }
      ghost var p, ds := State(), Tagged(i, out.value);
      assert ds[0..] == ds;
      for k := 0 to |out.value|
        invariant Valid() && old(refusals) <= refusals
        invariant refusals == old(refusals) ==> StoreAll(e, p, ds) == StoreAll(e, State(), ds[k..])
        invariant refusals != old(refusals) ==> StoreAll(e, p, ds) == None
      {
        assert ds[k..][0] == Decoded(i, out.value[k]) && ds[k..][1..] == ds[k + 1..];
        aborted := Store(i, out.value[k]);
        if aborted {
          return;
        }
      }
      aborted := false;
    }

    /** One loader on its 2xx exchanges, in recorded order. */
    method RunLoader(l: Loader) returns (aborted: bool)
      requires Valid()
      modifies this`refusals, this`seen, this`rows, this`order, this`log, this`loaded, this`items
      ensures Valid() && old(refusals) <= refusals
      ensures Follows(ExchangesOf(e, old(State()), OfKey(e, good, l.key)), !aborted && refusals == old(refusals), State())
    {
      hide ExchangeOf, LL.ChainOf, RowsInEnv;
      aborted := false;
      ghost var p := State();
      assert good[0..] == good;
      for g := 0 to |good|
        invariant Valid() && old(refusals) <= refusals
        invariant refusals == old(refusals) ==>
                    ExchangesOf(e, p, OfKey(e, good, l.key)) == ExchangesOf(e, State(), OfKey(e, good[g..], l.key))
        invariant refusals != old(refusals) ==> ExchangesOf(e, p, OfKey(e, good, l.key)) == None
      {
        var i := good[g];
        assert i in good;
        OfKeyHead(e, good[g..], l.key);
        assert good[g..][1..] == good[g + 1..];
        if e.exchanges[i].key == l.key {
          ghost var before := refusals;
          aborted := Exchange(i);
          Grown(old(refusals), before, refusals);
          if aborted {
            return;
          }
        }
      }
    }

    /** The loaders in rank order. */
    method RunLoaders() returns (aborted: bool)
      requires Valid()
      modifies this`refusals, this`seen, this`rows, this`order, this`log, this`loaded, this`items
      ensures Valid() && old(refusals) <= refusals
      ensures Follows(ExchangesOf(e, old(State()), RunOrder(e, good, e.loaders)), !aborted && refusals == old(refusals), State())
    {
      hide LL.ChainOf, RowsInEnv, OfKey, ExchangeOf;
      aborted := false;
      ghost var p := State();
      assert e.loaders[0..] == e.loaders;
      for k := 0 to |e.loaders|
        invariant Valid() && old(refusals) <= refusals
        invariant refusals == old(refusals) ==>
                    ExchangesOf(e, p, RunOrder(e, good, e.loaders)) == ExchangesOf(e, State(), RunOrder(e, good, e.loaders[k..]))
        invariant refusals != old(refusals) ==> ExchangesOf(e, p, RunOrder(e, good, e.loaders)) == None
      {
        assert e.loaders[k..][0] == e.loaders[k] && e.loaders[k..][1..] == e.loaders[k + 1..];
        ExchangesSplit(e, State(), OfKey(e, good, e.loaders[k].key), RunOrder(e, good, e.loaders[k + 1..]));
        aborted := RunLoader(e.loaders[k]);
        if aborted {
          return;
        }
      }
    }

    // ----- references -----

    /** `agree`: each field of the copy against the row's own record. */
    method Agree(row: Row, ref: Reference, target: Row) returns (aborted: bool)
      requires row.exchange < |e.exchanges| && target.exchange < |e.exchanges|
      modifies this`refusals
      ensures old(refusals) <= refusals
      ensures !aborted && refusals == old(refusals) <==> CopyAgrees(e, row, ref, target)
    {
      var copied := Recorded(e, row.exchange, ref.path, ref.index);
      var recorded := Recorded(e, target.exchange, target.item.path, target.item.index);
      if copied.None? || recorded.None? {
        return true;
      }
      var mine, theirs := ItemNode(copied.value, ref.path).kids, ItemNode(recorded.value, target.item.path).kids;
      for k := 0 to |mine|
        invariant old(refusals) <= refusals
        invariant refusals == old(refusals) <==> forall m :: 0 <= m < k ==> FieldAgrees(mine[m], theirs)
      {
        if !FieldAgrees(mine[k], theirs) {
          Refuse(Disagrees(row.exchange, row.item.ref, mine[k].name));
        }
      }
      aborted := false;
    }

    /** One reference of one row. */
    method ResolveOne(row: Row, ref: Reference) returns (aborted: bool)
      requires row.exchange < |e.exchanges| && forall x :: x in rows ==> rows[x].exchange < |e.exchanges|
      modifies this`refusals, this`unresolved
      ensures old(refusals) <= refusals
      ensures !aborted && refusals == old(refusals) <==> Resolved(e, rows, row, ref)
      ensures !aborted ==> forall x :: Lists(unresolved, x) <==> Lists(old(unresolved), x) || x in Flagged(rows, [ref])
    {
      aborted := false;
      if ref.ref in rows {
        if ref.path != "" {
          aborted := Agree(row, ref, rows[ref.ref]);
        }
      } else if ref.unread {
        var typ, id := ref.ref.typ, ref.ref.id;
        unresolved := unresolved[typ := (if typ in unresolved then unresolved[typ] else []) + [id]];
      } else {
        Refuse(Dangles(row.exchange, row.item.ref, ref.ref));
      }
    }

    method ResolveRow(row: Row) returns (aborted: bool)
      requires row.exchange < |e.exchanges| && forall x :: x in rows ==> rows[x].exchange < |e.exchanges|
      modifies this`refusals, this`unresolved
      ensures old(refusals) <= refusals
      ensures !aborted && refusals == old(refusals) <==> forall ref :: ref in row.item.refs ==> Resolved(e, rows, row, ref)
      ensures !aborted ==> forall x :: Lists(unresolved, x) <==> Lists(old(unresolved), x) || x in Flagged(rows, row.item.refs)
    {
      var refs := row.item.refs;
      hide Resolved, Lists;
      aborted := false;
      for k := 0 to |refs|
        invariant old(refusals) <= refusals
        invariant refusals == old(refusals) <==> forall m :: 0 <= m < k ==> Resolved(e, rows, row, refs[m])
        invariant forall x :: Lists(unresolved, x) <==> Lists(old(unresolved), x) || x in Flagged(rows, refs[..k])
      {
        FlaggedOneMore(rows, refs[..k], refs[k]);
        assert refs[..k + 1] == refs[..k] + [refs[k]];
        aborted := ResolveOne(row, refs[k]);
        if aborted {
          return;
        }
      }
      assert refs[..|refs|] == refs;
    }

    /** `resolve`: every row's references, and the unresolved ids sorted, each once. */
    method Resolve() returns (aborted: bool)
      requires unresolved == map[] && RowsInEnv(e, rows, order)
      modifies this`refusals, this`unresolved
      ensures old(refusals) <= refusals
      ensures !aborted && refusals == old(refusals) <==>
              forall row, ref :: row in order && ref in row.item.refs ==> Resolved(e, rows, row, ref)
      ensures !aborted ==> forall typ :: typ in unresolved ==> Ascends(unresolved[typ])
      ensures !aborted ==> forall x :: Lists(unresolved, x) <==> Unheld(rows, order, x)
    {
      aborted := false;
      assert forall x :: !Lists(unresolved, x) && !Unheld(rows, [], x);
      hide Resolved, Lists;
      for k := 0 to |order|
        invariant old(refusals) <= refusals
        invariant refusals == old(refusals) <==>
                  forall m, ref :: 0 <= m < k && ref in order[m].item.refs ==> Resolved(e, rows, order[m], ref)
        invariant forall x :: Lists(unresolved, x) <==> Unheld(rows, order[..k], x)
      {
        ghost var before := unresolved;
        aborted := ResolveRow(order[k]);
        if aborted {
          return;
        }
        assert order[..k + 1] == order[..k] + [order[k]];
        UnheldOneMore(rows, order[..k], order[k]);
      }
      assert order[..|order|] == order;
      SortLists();
    }

    method SortLists()
      modifies this`unresolved
      ensures forall typ :: typ in unresolved ==> Ascends(unresolved[typ])
      ensures forall x :: Lists(unresolved, x) <==> Lists(old(unresolved), x)
    {
      ghost var was := unresolved;
      unresolved := map typ | typ in unresolved :: Compact(Sort(unresolved[typ]));
      forall typ | typ in was ensures Ascends(unresolved[typ]) && forall id :: id in unresolved[typ] <==> id in was[typ] {
        SortedOnce(was[typ]);
      }
    }

    // ----- renderings -----

    /** `diff`: the row rendered from what was written, against its recording. */
    method DiffRow(row: Row) returns (aborted: bool)
      requires row.exchange < |e.exchanges|
      modifies this`refusals
      ensures old(refusals) <= refusals
      ensures !aborted && refusals == old(refusals) <==> RendersAs(e, log, row)
    {
      var recorded := Recorded(e, row.exchange, row.item.path, row.item.index);
      if recorded.None? {
        return true;
      }
      var out := e.render(log, row.exchange, row.item.ref);
      match out {
        case Fails => return true;
        case Declined =>
          Refuse(LoaderDeclined(row.exchange));
          return false;
        case Fine(rendered) =>
          if rendered.None? {
            return true;
          }
          var got := AlignedWith(recorded.value, Subtree(rendered.value, row.item.path, 0), row.item.path);
          var paths := DiffIgnoring(e.hash, RulesFor(e, e.exchanges[row.exchange].key), recorded, got);
          RefusePaths(row, paths.rec, paths.ren);
          aborted := false;
      }
    }

    method RefusePaths(row: Row, rec: seq<string>, ren: seq<string>)
      modifies this`refusals
      ensures old(refusals) <= refusals && |refusals| == |old(refusals)| + |rec| + |ren|
    {
      for k := 0 to |rec|
        invariant old(refusals) <= refusals && |refusals| == |old(refusals)| + k
      {
        Refuse(RecordedOnly(row.exchange, row.item.ref, rec[k]));
      }
      for k := 0 to |ren|
        invariant old(refusals) <= refusals && |refusals| == |old(refusals)| + |rec| + k
      {
        Refuse(RenderedOnly(row.exchange, row.item.ref, ren[k]));
      }
    }

    method DiffRows() returns (aborted: bool)
      requires RowsInEnv(e, rows, order)
      modifies this`refusals
      ensures old(refusals) <= refusals
      ensures !aborted && refusals == old(refusals) <==> AllRender(e, log, order)
    {
      hide RendersAs;
      aborted := false;
      for k := 0 to |order|
        invariant old(refusals) <= refusals
        invariant refusals == old(refusals) <==> AllRender(e, log, order[..k])
      {
        ghost var before := refusals;
        AllRenderOneMore(e, log, order, k);
        aborted := DiffRow(order[k]);
        Grown(old(refusals), before, refusals);
        if aborted {
          return;
        }
      }
      assert order[..|order|] == order;
    }

    // ----- the whole run -----

    /** `fill`: an abort stops it; a refusal does not, but it then answers errLoadRefused. */
    method Fill() returns (aborted: bool)
      requires e.Valid() && State() == NOTHING && refusals == [] && good == [] && unresolved == map[] && absent == map[]
      modifies this
      ensures Follows(LoadOf(e), !aborted && refusals == [], State())
      ensures !aborted ==> absent == AbsentOf(e, |e.exchanges|)
      ensures !aborted ==> forall typ :: typ in unresolved ==> Ascends(unresolved[typ])
      ensures !aborted ==> forall x :: Lists(unresolved, x) <==> Unheld(rows, order, x)
    {
      hide Resolved, RendersAs, Lists, Unheld, Ascends, AllFit, LL.LinksFit, LL.ChainOf, ExchangesOf, RunOrder, AbsentOf, GoodOf, LoadOf;
      assert RowsInEnv(e, rows, order);
      hide RowsInEnv;
      Sort2xx();
      LinkReads();
      ghost var linked := refusals;
      LoadStarts(e, linked == []);
      aborted := RunLoaders();
      if aborted {
        return;
      }
      ghost var ran, p := refusals, State();
      Grown([], linked, ran);
      aborted := Resolve();
      if aborted {
        return;
      }
      ghost var resolved := refusals;
      Grown(ran, resolved, resolved);
      aborted := DiffRows();
      Grown(ran, resolved, refusals);
    }
  }

  /** The database a load replaces. */
  class Database {
    var stored: seq<Write>

    constructor ()
      ensures stored == []
    {
      stored := [];
    }

    /**
     * `Repository.Load` of `load`'s run: every row deleted and the run's written, or,
     * on a refusal or an abort, nothing changed; and it commits exactly when the load means something.
     */
    method Load(e: Env) returns (run: LoadRun, committed: bool)
      requires e.Valid()
      modifies this
      ensures committed <==> LoadOf(e).Some?
      ensures committed <==> LC.ExchangesFit(e) && LC.ItemsFit(e, LC.Items(e))
      ensures committed ==> stored == LC.LogOf(LC.Items(e))
      ensures committed ==> run.State() == LoadOf(e).value && stored == LoadOf(e).value.log
      ensures committed ==> run.absent == AbsentOf(e, |e.exchanges|)
      ensures committed ==> forall typ :: typ in run.unresolved ==> Ascends(run.unresolved[typ])
      ensures committed ==> forall x :: Lists(run.unresolved, x) <==> Unheld(run.rows, run.order, x)
      ensures !committed ==> stored == old(stored)
    {
      LC.CommitsExactly(e);
      hide LoadOf, Lists, Unheld, Ascends, LC.ExchangesFit, LC.ItemsFit, LC.Items, LC.LeavesRows, LC.LeavesOrder, LC.LeavesSeen, LC.LogOf;
      var saved := stored;
      stored := [];
      run := new LoadRun(e);
      var aborted := run.Fill();
      committed := !aborted && run.refusals == [];
      stored := if committed then run.log else saved;
    }
  }

  ghost predicate AllRender(e: Env, log: seq<Write>, rows: seq<Row>) {
    forall row :: row in rows ==> RendersAs(e, log, row)
  }

  lemma AllRenderOneMore(e: Env, log: seq<Write>, rows: seq<Row>, k: nat)
    requires k < |rows|
    ensures AllRender(e, log, rows[..k + 1]) <==> AllRender(e, log, rows[..k]) && RendersAs(e, log, rows[k])
    ensures AllRender(e, log, rows) ==> RendersAs(e, log, rows[k])
  {
    hide RendersAs;
    assert forall r :: r in rows[..k + 1] <==> r in rows[..k] || r == rows[k];
  }

  /** Refusals only grow. */
  lemma Grown(a: seq<Refusal>, b: seq<Refusal>, c: seq<Refusal>)
    requires a <= b <= c
    ensures c == a <==> b == a && c == b
  {
  }

  ghost predicate MetIn(met: seq<LL.Read>, of: map<LL.Read, seq<nat>>, i: nat) {
    exists r :: r in met && r in of && i in of[r]
  }

  lemma MetOneMore(met: seq<LL.Read>, of: map<LL.Read, seq<nat>>, k: nat)
    requires k < |met| && met[k] in of
    ensures forall i :: MetIn(met[..k + 1], of, i) <==> MetIn(met[..k], of, i) || i in of[met[k]]
  {
    assert forall r :: r in met[..k + 1] <==> r == met[k] || r in met[..k];
  }

  lemma AllAreMet(e: Env, met: seq<LL.Read>, of: map<LL.Read, seq<nat>>)
    requires e.Valid()
    requires Collected(e, of, GoodOf(e, |e.exchanges|)) && forall r :: r in met <==> r in of
    ensures forall i :: i in GoodOf(e, |e.exchanges|) ==> MetIn(met, of, i)
    ensures LL.LinksFit(e) <==> forall i :: MetIn(met, of, i) ==> LL.ReadFits(e, i)
  {
    hide IsGood, LL.ReadFits, GoodOf, Env.Valid;
    forall i: nat | i < |e.exchanges| ensures MetIn(met, of, i) <==> IsGood(e, i) {
      MetWhenGood(e, met, of, i);
    }
    forall i: nat | MetIn(met, of, i) ensures i < |e.exchanges| {
      var r :| r in met && r in of && i in of[r];
      assert i in LL.In(e, GoodOf(e, |e.exchanges|), r);
    }
  }

  lemma MetWhenGood(e: Env, met: seq<LL.Read>, of: map<LL.Read, seq<nat>>, i: nat)
    requires i < |e.exchanges|
    requires Collected(e, of, GoodOf(e, |e.exchanges|)) && forall r :: r in met <==> r in of
    ensures MetIn(met, of, i) <==> IsGood(e, i)
  {
    hide IsGood, GoodOf, LL.In;
    var good := GoodOf(e, |e.exchanges|);
    if IsGood(e, i) {
      var r := LL.ReadOf(e, i);
      assert i in LL.In(e, good, r);
      assert r in of;
    }
    if MetIn(met, of, i) {
      var r :| r in met && r in of && i in of[r];
      assert i in LL.In(e, good, r);
    }
  }

  /** Each read met holds its exchanges of the list, in order. */
  ghost predicate Collected(e: Env, of: map<LL.Read, seq<nat>>, at: seq<nat>)
    requires forall k :: 0 <= k < |at| ==> at[k] < |e.exchanges|
  {
    && (forall r :: (if r in of then of[r] else []) == LL.In(e, at, r))
    && (forall r :: r in of ==> of[r] != [])
  }

  lemma CollectedOneMore(e: Env, of: map<LL.Read, seq<nat>>, at: seq<nat>, k: nat)
    requires k < |at| && (forall m :: 0 <= m < |at| ==> at[m] < |e.exchanges|) && Collected(e, of, at[..k])
    ensures var r := LL.ReadOf(e, at[k]);
            Collected(e, of[r := (if r in of then of[r] else []) + [at[k]]], at[..k + 1])
  {
    var r := LL.ReadOf(e, at[k]);
    var more := of[r := (if r in of then of[r] else []) + [at[k]]];
    forall x ensures (if x in more then more[x] else []) == LL.In(e, at[..k + 1], x) {
      CollectedAt(e, of, at, k, x);
    }
    hide LL.In, LL.ReadOf;
  }

  lemma CollectedAt(e: Env, of: map<LL.Read, seq<nat>>, at: seq<nat>, k: nat, x: LL.Read)
    requires k < |at| && (forall m :: 0 <= m < |at| ==> at[m] < |e.exchanges|) && Collected(e, of, at[..k])
    ensures var r := LL.ReadOf(e, at[k]);
            var more := of[r := (if r in of then of[r] else []) + [at[k]]];
            (if x in more then more[x] else []) == LL.In(e, at[..k + 1], x)
  {
    hide LL.In, LL.ReadOf;
    InOneMore(e, at, k, x);
    assert (if x in of then of[x] else []) == LL.In(e, at[..k], x);
  }

  lemma NoneIn(e: Env)
    ensures forall r :: LL.In(e, [], r) == []
  {
  }

  lemma InOneMore(e: Env, at: seq<nat>, k: nat, r: LL.Read)
    requires k < |at| && forall m :: 0 <= m < |at| ==> at[m] < |e.exchanges|
    ensures LL.In(e, at[..k + 1], r) == LL.In(e, at[..k], r) + if LL.ReadOf(e, at[k]) == r then [at[k]] else []
  {
    assert at[..k + 1][..k] == at[..k];
  }

  /** What linking one read's pages tells of all of them. */
  lemma ReadLinks(e: Env, at: seq<nat>, r: LL.Read, ps: LP.Pages, p: LP.Paging)
    requires e.Valid() && at == LL.In(e, GoodOf(e, |e.exchanges|), r) && at != []
    requires LL.AllGood(e, at) && Registered(e.loaders, r.key)
    requires ps == LL.PagesOf(e, at) && p == LL.PagingOf(LoaderFor(e.loaders, r.key))
    ensures forall k :: 0 <= k < |at| ==> LL.ChainOf(e, at[k]) == at[LP.Root(ps, p, k)]
    ensures forall i :: i in at ==> i < |e.exchanges|
    ensures (forall i :: i in at ==> LL.ReadFits(e, i)) <==> LP.Refusals(ps, p) == []
    ensures !p.tokens ==> forall k :: 0 <= k < |at| ==> ps[k].carried == ""
  {
    NoTokenCarried(e, at, r);
    hide LL.ChainOf, LL.ReadFits, LP.Refusals, LP.Root;
    forall k | 0 <= k < |at|
      ensures LL.ChainOf(e, at[k]) == at[LP.Root(ps, p, k)] && (LL.ReadFits(e, at[k]) <==> LP.Refusals(ps, p) == [])
    {
      LL.LinkedRead(e, at, r, k);
    }
    assert at[0] in at;
  }

  /** Once linked, a load's meaning is its run's, if its checks hold. */
  lemma LoadStarts(e: Env, fit: bool)
    requires e.Valid() && fit == (AllFit(e, |e.exchanges|) && LL.LinksFit(e))
    ensures !fit ==> LoadOf(e) == None
    ensures var o := ExchangesOf(e, NOTHING, RunOrder(e, GoodOf(e, |e.exchanges|), e.loaders));
            fit ==> LoadOf(e) == if o.Some? && Checks(e, o.value) then o else None
  {
    hide AllFit, LL.LinksFit, ExchangesOf, RunOrder, Checks;
  }

  lemma NoTokenCarried(e: Env, at: seq<nat>, r: LL.Read)
    requires e.Valid() && at == LL.In(e, GoodOf(e, |e.exchanges|), r) && at != []
    requires LL.AllGood(e, at) && Registered(e.loaders, r.key)
    ensures !LL.PagingOf(LoaderFor(e.loaders, r.key)).tokens ==> forall k :: 0 <= k < |at| ==> LL.PagesOf(e, at)[k].carried == ""
  {
    assert Paged(LoaderFor(e.loaders, r.key));
    forall k | 0 <= k < |at| ensures LL.ReadOf(e, at[k]) == r {
      assert at[k] in at;
    }
  }

  lemma OfKeyHead(e: Env, at: seq<nat>, key: LoadKey)
    requires at != [] && forall k :: 0 <= k < |at| ==> at[k] < |e.exchanges|
    ensures OfKey(e, at, key) == (if e.exchanges[at[0]].key == key then [at[0]] else []) + OfKey(e, at[1..], key)
    ensures e.exchanges[at[0]].key != key ==> OfKey(e, at, key) == OfKey(e, at[1..], key)
    ensures e.exchanges[at[0]].key == key ==> OfKey(e, at, key)[0] == at[0] && OfKey(e, at, key)[1..] == OfKey(e, at[1..], key)
  {
  }

  ghost predicate RowsInEnv(e: Env, rows: map<Ref, Row>, order: seq<Row>) {
    && (forall x :: x in rows ==> rows[x].exchange < |e.exchanges|)
    && (forall row :: row in order ==> row.exchange < |e.exchanges|)
  }

  predicate Lists(m: map<string, seq<string>>, ref: Ref) {
    ref.typ in m && ref.id in m[ref.typ]
  }

  /** The references flagged unread that name no row. */
  function Flagged(rows: map<Ref, Row>, refs: seq<Reference>): (r: seq<Ref>)
    ensures forall x :: x in r <==> x !in rows && exists ref :: ref in refs && ref.ref == x && ref.unread
  {
    if refs == [] then []
    else
      var last := refs[|refs| - 1];
      assert forall ref :: ref in refs <==> ref == last || ref in refs[..|refs| - 1];
      Flagged(rows, refs[..|refs| - 1]) + if last.ref !in rows && last.unread then [last.ref] else []
  }

  lemma FlaggedOneMore(rows: map<Ref, Row>, refs: seq<Reference>, ref: Reference)
    ensures forall x :: x in Flagged(rows, refs + [ref]) <==> x in Flagged(rows, refs) || x in Flagged(rows, [ref])
  {
    assert forall r :: r in refs + [ref] <==> r in refs || r == ref;
  }

  lemma UnheldOneMore(rows: map<Ref, Row>, order: seq<Row>, row: Row)
    ensures forall x :: Unheld(rows, order + [row], x) <==> Unheld(rows, order, x) || x in Flagged(rows, row.item.refs)
  {
    assert forall r :: r in order + [row] <==> r in order || r == row;
  }
}
