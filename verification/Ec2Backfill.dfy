/** BackfillVPCDefaults: a VPC stored without its default group or main route table is given one. */
module Ec2Backfill {
  import opened Options
  import opened Ec2Schema
  import opened Ec2Keeps
  import opened Ec2ComputeKeeps
  import opened Ec2Runs

  /** What the server makes for a VPC, by the VPC's id. */
  datatype Makers = Makers(group: Id -> Id, table: Id -> Id, assoc: Id -> Id)

  function WithDefaultGroup(db: Db, v: Id, group: Id): Db
    requires v in db.vpcs
  {
    db.(groups := db.groups[group := Group(db.vpcs[v].region, v, DEFAULT_GROUP)])
  }

  /** `insertSecurityGroup` for each VPC of the list; a stored id, or a second default group, fails the whole. */
  function GiveGroups(db: Db, vpcs: seq<Id>, group: Id -> Id): (o: Option<Db>)
    requires forall v :: v in vpcs ==> v in db.vpcs
    ensures o.Some? ==> o.value.vpcs == db.vpcs
    decreases |vpcs|
  {
    if vpcs == [] then Some(db)
    else if group(vpcs[0]) in db.groups || HasDefaultGroup(db.groups, vpcs[0]) then None
    else GiveGroups(WithDefaultGroup(db, vpcs[0], group(vpcs[0])), vpcs[1..], group)
  }

  function WithMainTable(db: Db, v: Id, table: Id, assoc: Id): Db
    requires v in db.vpcs
  {
    db.(tables := db.tables[table := RouteTable(db.vpcs[v].region, v)],
        routes := db.routes[RouteKey(table, db.vpcs[v].cidr) := LOCAL_GATEWAY],
        assocs := db.assocs[assoc := Association(table, v, None, true)])
  }

  /** `insertMainRouteTable` for each VPC of the list. */
  function GiveTables(db: Db, vpcs: seq<Id>, m: Makers): Option<Db>
    requires forall v :: v in vpcs ==> v in db.vpcs
    decreases |vpcs|
  {
    if vpcs == [] then Some(db)
    else
      var v := vpcs[0];
      if m.table(v) in db.tables || RouteKey(m.table(v), db.vpcs[v].cidr) in db.routes || m.assoc(v) in db.assocs || HasMain(db.assocs, v)
      then None
      else GiveTables(WithMainTable(db, v, m.table(v), m.assoc(v)), vpcs[1..], m)
  }

  /** The VPCs without a default group. */
  function Ungrouped(db: Db): set<Id> {
    set v | v in db.vpcs && !HasDefaultGroup(db.groups, v)
  }

  /** The VPCs without a main association. */
  function Unrouted(db: Db): set<Id> {
    set v | v in db.vpcs && !HasMain(db.assocs, v)
  }

  /** `vpcsWithout`: a list of these VPCs, each once. */
  ghost predicate Lists(vpcs: seq<Id>, those: set<Id>) {
    && (forall v :: v in vpcs <==> v in those)
    && forall i, j :: 0 <= i < j < |vpcs| ==> vpcs[i] != vpcs[j]
  }

  /** The whole transaction; the tables are read for both lists. */
  function Backfill(db: Db, loaded: bool, ungrouped: seq<Id>, unrouted: seq<Id>, m: Makers): Option<Db>
    requires forall v :: v in ungrouped || v in unrouted ==> v in db.vpcs
  {
    if loaded then Some(db)
    else match GiveGroups(db, ungrouped, m.group)
      case None => None
      case Some(d) => GiveTables(d, unrouted, m)
  }

  // ----- what it establishes -----

  /** The invariant of a database stored before CreateVpc made a VPC's defaults. */
  ghost predicate InvBut(db: Db) {
    && Networks(db.vpcs, db.subnets, db.gateways, db.tables, db.assocs, db.routes)
    && Groups(db.vpcs, db.groups, db.rules)
    && Compute(db.subnets, db.instances, db.enis)
    && EniGroups(db.groups, db.enis)
    && OneMain(db.assocs) && LocalRoutes(db.vpcs, db.tables, db.routes)
    && SubnetBlocks(db.vpcs, db.subnets)
    && PrivateIps(db.subnets, db.enis)
    && PublicAddresses(db.enis, db.addresses)
    && TagsStored(db)
  }

  lemma GroupGiven(db: Db, v: Id, group: Id)
    requires InvBut(db) && v in db.vpcs && group !in db.groups && !HasDefaultGroup(db.groups, v)
    ensures InvBut(WithDefaultGroup(db, v, group))
    ensures forall w :: HasDefaultGroup(WithDefaultGroup(db, v, group).groups, w) <==> w == v || HasDefaultGroup(db.groups, w)
  {
    hide Networks, Groups, Compute, EniGroups, OneMain, LocalRoutes, SubnetBlocks, PrivateIps, PublicAddresses, TagsStored;
    var d := WithDefaultGroup(db, v, group);
    NewGroup(db, d.groups[group], group);
    GrowingKeepsTags(db, d);
    forall w ensures HasDefaultGroup(d.groups, w) <==> w == v || HasDefaultGroup(db.groups, w) {
      assert d.groups[group].vpc == v;
      if g :| g in db.groups && db.groups[g].vpc == w && db.groups[g].name == DEFAULT_GROUP {
        assert d.groups[g] == db.groups[g];
      }
    }
  }

  lemma {:induction false} GroupsGiven(db: Db, vpcs: seq<Id>, group: Id -> Id)
    requires InvBut(db) && forall v :: v in vpcs ==> v in db.vpcs
    ensures var o := GiveGroups(db, vpcs, group);
            o.Some? ==>
              && InvBut(o.value) && o.value == db.(groups := o.value.groups)
              && (forall w :: HasDefaultGroup(o.value.groups, w) <==> w in vpcs || HasDefaultGroup(db.groups, w))
    decreases |vpcs|
  {
    hide InvBut, HasDefaultGroup;
    if vpcs != [] && group(vpcs[0]) !in db.groups && !HasDefaultGroup(db.groups, vpcs[0]) {
      assert vpcs[0] in vpcs;
      GroupGiven(db, vpcs[0], group(vpcs[0]));
      GroupsGiven(WithDefaultGroup(db, vpcs[0], group(vpcs[0])), vpcs[1..], group);
      assert forall v :: v in vpcs <==> v == vpcs[0] || v in vpcs[1..];
    }
  }

  lemma TableNetworks(db: Db, v: Id, table: Id, assoc: Id)
    requires Networks(db.vpcs, db.subnets, db.gateways, db.tables, db.assocs, db.routes)
    requires v in db.vpcs && table !in db.tables && assoc !in db.assocs
    ensures var d := WithMainTable(db, v, table, assoc); Networks(d.vpcs, d.subnets, d.gateways, d.tables, d.assocs, d.routes)
  {
  }

  lemma TableDefaults(db: Db, v: Id, table: Id, assoc: Id)
    requires OneMain(db.assocs) && LocalRoutes(db.vpcs, db.tables, db.routes) && TablesIn(db.vpcs, db.tables)
    requires v in db.vpcs && table !in db.tables && assoc !in db.assocs && !HasMain(db.assocs, v)
    ensures var d := WithMainTable(db, v, table, assoc);
            && OneMain(d.assocs) && LocalRoutes(d.vpcs, d.tables, d.routes)
            && forall w :: HasMain(d.assocs, w) <==> w == v || HasMain(db.assocs, w)
  {
    var d := WithMainTable(db, v, table, assoc);
    forall w ensures HasMain(d.assocs, w) <==> w == v || HasMain(db.assocs, w) {
      assert d.assocs[assoc].vpc == v;
      if a :| a in db.assocs && db.assocs[a].vpc == w && db.assocs[a].main {
        assert d.assocs[a] == db.assocs[a];
      }
    }
  }

  lemma TableGiven(db: Db, v: Id, table: Id, assoc: Id)
    requires InvBut(db) && v in db.vpcs && table !in db.tables && assoc !in db.assocs && !HasMain(db.assocs, v)
    ensures var d := WithMainTable(db, v, table, assoc);
            InvBut(d) && forall w :: HasMain(d.assocs, w) <==> w == v || HasMain(db.assocs, w)
  {
    hide Networks, Groups, Compute, EniGroups, OneMain, LocalRoutes, SubnetBlocks, PrivateIps, PublicAddresses, TagsStored, HasMain;
    TablesInVpcs(db);
    TableNetworks(db, v, table, assoc);
    TableDefaults(db, v, table, assoc);
    GrowingKeepsTags(db, WithMainTable(db, v, table, assoc));
  }

  lemma {:induction false} TablesGiven(db: Db, vpcs: seq<Id>, m: Makers)
    requires InvBut(db) && forall v :: v in vpcs ==> v in db.vpcs
    ensures var o := GiveTables(db, vpcs, m);
            o.Some? ==>
              && InvBut(o.value) && o.value.groups == db.groups && o.value.vpcs == db.vpcs
              && (forall w :: HasMain(o.value.assocs, w) <==> w in vpcs || HasMain(db.assocs, w))
    decreases |vpcs|
  {
    hide InvBut, HasMain;
    if vpcs != [] {
      var v := vpcs[0];
      if m.table(v) !in db.tables && m.assoc(v) !in db.assocs && !HasMain(db.assocs, v) {
        TableGiven(db, v, m.table(v), m.assoc(v));
        TablesGiven(WithMainTable(db, v, m.table(v), m.assoc(v)), vpcs[1..], m);
      }
      assert forall w :: w in vpcs <==> w == v || w in vpcs[1..];
    }
  }

  /**
   * Backfill gives a database whose VPCs lack a default group or a main table
   * both, and so the whole invariant.
   */
  lemma BackfillGivesDefaults(db: Db, ungrouped: seq<Id>, unrouted: seq<Id>, m: Makers)
    requires InvBut(db) && Lists(ungrouped, Ungrouped(db)) && Lists(unrouted, Unrouted(db))
    ensures var o := Backfill(db, false, ungrouped, unrouted, m); o.Some? ==> Inv(o.value)
  {
    hide InvBut, HasMain, HasDefaultGroup, GiveGroups, GiveTables;
    var o := Backfill(db, false, ungrouped, unrouted, m);
    if o.Some? {
      GroupsGiven(db, ungrouped, m.group);
      TablesGiven(GiveGroups(db, ungrouped, m.group).value, unrouted, m);
      AllButAndDefaults(o.value);
    }
  }

  lemma AllButAndDefaults(db: Db)
    requires InvBut(db) && DefaultGroups(db.vpcs, db.groups) && MainTables(db.vpcs, db.assocs)
    ensures Inv(db)
  {
    hide Networks, Groups, Compute, EniGroups, OneMain, LocalRoutes, SubnetBlocks, PrivateIps, PublicAddresses, TagsStored,
         DefaultGroups, MainTables;
  }

  // ----- where nothing lacks -----

  lemma SomeListed(vpcs: seq<Id>)
    ensures vpcs != [] ==> exists v :: v in vpcs
  {
    if vpcs != [] {
      assert vpcs[0] in vpcs;
    }
  }

  lemma NothingLacks(db: Db, ungrouped: seq<Id>, unrouted: seq<Id>, m: Makers)
    requires Inv(db) && Lists(ungrouped, Ungrouped(db)) && Lists(unrouted, Unrouted(db))
    ensures Backfill(db, false, ungrouped, unrouted, m) == Some(db)
  {
    hide Networks, Groups, Compute, EniGroups, OneMain, LocalRoutes, SubnetBlocks, PrivateIps, PublicAddresses, TagsStored,
         HasMain, HasDefaultGroup;
    assert Ungrouped(db) == {} && Unrouted(db) == {};
    SomeListed(ungrouped);
    SomeListed(unrouted);
  }

  /** After any run of requests from an empty database backfill finds nothing to do. */
  lemma NoRunNeedsBackfill(calls: seq<Call>, ungrouped: seq<Id>, unrouted: seq<Id>, m: Makers)
    requires Lists(ungrouped, Ungrouped(Reached(calls))) && Lists(unrouted, Unrouted(Reached(calls)))
    ensures Backfill(Reached(calls), false, ungrouped, unrouted, m) == Some(Reached(calls))
  {
    ReachedKeeps(calls);
    NothingLacks(Reached(calls), ungrouped, unrouted, m);
  }

  /** Nor does a second backfill, whatever it would make. */
  lemma BackfillIsIdempotent(db: Db, ungrouped: seq<Id>, unrouted: seq<Id>, m: Makers, ungrouped': seq<Id>, unrouted': seq<Id>, m': Makers)
    requires InvBut(db) && Lists(ungrouped, Ungrouped(db)) && Lists(unrouted, Unrouted(db))
    requires var o := Backfill(db, false, ungrouped, unrouted, m);
             o.Some? ==> Lists(ungrouped', Ungrouped(o.value)) && Lists(unrouted', Unrouted(o.value))
    ensures var o := Backfill(db, false, ungrouped, unrouted, m);
            o.Some? ==> Backfill(o.value, false, ungrouped', unrouted', m') == o
  {
    BackfillGivesDefaults(db, ungrouped, unrouted, m);
    hide InvBut, Inv, Lists, GiveGroups, GiveTables;
    var o := Backfill(db, false, ungrouped, unrouted, m);
    if o.Some? {
      NothingLacks(o.value, ungrouped', unrouted', m');
    }
  }

  // ----- exactly when it goes through, and what it adds -----

  /** The ids made for these VPCs are new to the table, and distinct. */
  ghost predicate Fresh<T>(vpcs: set<Id>, make: Id -> Id, stored: map<Id, T>) {
    && (forall v :: v in vpcs ==> make(v) !in stored)
    && (forall v, w :: v in vpcs && w in vpcs && v != w ==> make(v) != make(w))
  }

  /** `after` is `before` with each row under the id made for its VPC, and no other change. */
  ghost predicate Gives<T>(rows: map<Id, T>, make: Id -> Id, before: map<Id, T>, after: map<Id, T>) {
    && (forall x :: x in after <==> x in before || exists v :: v in rows && make(v) == x)
    && (forall x :: x in before ==> after[x] == before[x])
    && (forall v :: v in rows ==> make(v) in after && after[make(v)] == rows[v])
  }

  lemma FreshOneMore<T>(v: Id, rest: set<Id>, make: Id -> Id, stored: map<Id, T>, row: T)
    requires v !in rest
    ensures Fresh({v} + rest, make, stored) <==> make(v) !in stored && Fresh(rest, make, stored[make(v) := row])
  {
    var more := stored[make(v) := row];
    if make(v) !in stored && Fresh(rest, make, more) {
      forall w | w in rest ensures make(w) !in stored && make(w) != make(v) {
        assert make(w) !in more;
      }
    }
  }

  lemma GivesOneMore<T>(rows: map<Id, T>, v: Id, make: Id -> Id, before: map<Id, T>, after: map<Id, T>)
    requires v in rows && make(v) !in before
    requires Gives(rows - {v}, make, before[make(v) := rows[v]], after)
    ensures Gives(rows, make, before, after)
  {
    var rest, mid := rows - {v}, before[make(v) := rows[v]];
    forall x ensures x in after <==> x in before || exists w :: w in rows && make(w) == x {
      if w :| w in rows && make(w) == x { assert w == v || w in rest; }
    }
    assert make(v) in mid;
    assert forall w :: w in rows ==> w == v || w in rest;
  }

  lemma GivesNothing<T>(make: Id -> Id, before: map<Id, T>)
    ensures Gives(map[], make, before, before)
  {
  }

  function Elements(vpcs: seq<Id>): set<Id> {
    set v | v in vpcs
  }

  /** A list's head, and its tail, which has not the head again. */
  lemma HeadAndTail(vpcs: seq<Id>)
    requires vpcs != [] && forall i, j :: 0 <= i < j < |vpcs| ==> vpcs[i] != vpcs[j]
    ensures Elements(vpcs) == {vpcs[0]} + Elements(vpcs[1..]) && vpcs[0] !in Elements(vpcs[1..])
    ensures Elements(vpcs) - {vpcs[0]} == Elements(vpcs[1..])
  {
    forall v ensures v in vpcs <==> v == vpcs[0] || v in vpcs[1..] {
    }
  }

  /** The default group of each of these VPCs. */
  function GroupRows(vpcs: map<Id, Vpc>, those: set<Id>): map<Id, Group> {
    map v | v in those && v in vpcs :: Group(vpcs[v].region, v, DEFAULT_GROUP)
  }

  function TableRows(vpcs: map<Id, Vpc>, those: set<Id>): map<Id, RouteTable> {
    map v | v in those && v in vpcs :: RouteTable(vpcs[v].region, v)
  }

  function AssocRows(vpcs: map<Id, Vpc>, those: set<Id>, table: Id -> Id): map<Id, Association> {
    map v | v in those && v in vpcs :: Association(table(v), v, None, true)
  }

  lemma OneGroupFewer(vpcs: map<Id, Vpc>, those: set<Id>, v: Id)
    ensures GroupRows(vpcs, those) - {v} == GroupRows(vpcs, those - {v})
  {
  }

  lemma NoGroups(vpcs: map<Id, Vpc>)
    ensures GroupRows(vpcs, Elements([])) == map[]
  {
  }

  lemma OthersStillUngrouped(db: Db, vpcs: seq<Id>, group: Id)
    requires vpcs != [] && (forall v :: v in vpcs ==> v in db.vpcs && !HasDefaultGroup(db.groups, v))
    requires forall i, j :: 0 <= i < j < |vpcs| ==> vpcs[i] != vpcs[j]
    ensures forall v :: v in vpcs[1..] ==> !HasDefaultGroup(WithDefaultGroup(db, vpcs[0], group).groups, v)
  {
    forall v | v in vpcs[1..] ensures !HasDefaultGroup(WithDefaultGroup(db, vpcs[0], group).groups, v) {
      var i :| 0 <= i < |vpcs| - 1 && vpcs[1..][i] == v;
      assert v == vpcs[i + 1] && v in vpcs;
    }
  }

  /** Groups are given exactly when the ids made are new and distinct, and nothing else changes. */
  lemma {:induction false} GroupsExactly(db: Db, vpcs: seq<Id>, group: Id -> Id)
    requires forall v :: v in vpcs ==> v in db.vpcs && !HasDefaultGroup(db.groups, v)
    requires forall i, j :: 0 <= i < j < |vpcs| ==> vpcs[i] != vpcs[j]
    ensures var o := GiveGroups(db, vpcs, group);
            && (o.Some? <==> Fresh(Elements(vpcs), group, db.groups))
            && (o.Some? ==> o.value == db.(groups := o.value.groups)
                            && Gives(GroupRows(db.vpcs, Elements(vpcs)), group, db.groups, o.value.groups))
    decreases |vpcs|
  {
    if vpcs == [] {
      NoGroups(db.vpcs);
      GivesNothing(group, db.groups);
    } else {
      var v, rest := vpcs[0], vpcs[1..];
      var d, rows := WithDefaultGroup(db, v, group(v)), GroupRows(db.vpcs, Elements(vpcs));
      HeadAndTail(vpcs);
      FreshOneMore(v, Elements(rest), group, db.groups, rows[v]);
      assert v in vpcs;
      if group(v) !in db.groups {
        OthersStillUngrouped(db, vpcs, group(v));
        hide HasDefaultGroup, Gives, Fresh;
        GroupsExactly(d, rest, group);
        OneGroupFewer(db.vpcs, Elements(vpcs), v);
        if GiveGroups(db, vpcs, group).Some? {
          GivesOneMore(rows, v, group, db.groups, GiveGroups(db, vpcs, group).value.groups);
        }
      }
    }
  }

  /** A main table's local route, for each of these VPCs. */
  ghost predicate GivesRoutes(vpcs: map<Id, Vpc>, those: set<Id>, table: Id -> Id, before: map<RouteKey, string>, after: map<RouteKey, string>)
  {
    && (forall k :: k in after <==> k in before || exists v :: v in those && v in vpcs && k == RouteKey(table(v), vpcs[v].cidr))
    && (forall k :: k in before ==> after[k] == before[k])
    && (forall v :: v in those && v in vpcs ==>
          var k := RouteKey(table(v), vpcs[v].cidr); k in after && after[k] == LOCAL_GATEWAY)
  }

  /** No local route to be made is stored already. */
  ghost predicate RoutesFresh(vpcs: map<Id, Vpc>, those: set<Id>, table: Id -> Id, stored: map<RouteKey, string>) {
    forall v :: v in those && v in vpcs ==> RouteKey(table(v), vpcs[v].cidr) !in stored
  }

  lemma OneTableFewer(vpcs: map<Id, Vpc>, those: set<Id>, v: Id, table: Id -> Id)
    ensures TableRows(vpcs, those) - {v} == TableRows(vpcs, those - {v})
    ensures AssocRows(vpcs, those, table) - {v} == AssocRows(vpcs, those - {v}, table)
  {
  }

  lemma NoTables(vpcs: map<Id, Vpc>, table: Id -> Id)
    ensures TableRows(vpcs, Elements([])) == map[] && AssocRows(vpcs, Elements([]), table) == map[]
  {
  }

  lemma RoutesFreshOneMore(vpcs: map<Id, Vpc>, v: Id, rest: set<Id>, table: Id -> Id, stored: map<RouteKey, string>)
    requires v in vpcs && v !in rest && forall w :: w in rest ==> table(w) != table(v)
    ensures var k := RouteKey(table(v), vpcs[v].cidr);
            RoutesFresh(vpcs, {v} + rest, table, stored) <==> k !in stored && RoutesFresh(vpcs, rest, table, stored[k := LOCAL_GATEWAY])
  {
  }

  lemma GivesRoutesOneMore(vpcs: map<Id, Vpc>, v: Id, rest: set<Id>, table: Id -> Id, before: map<RouteKey, string>, after: map<RouteKey, string>)
    requires v in vpcs && RouteKey(table(v), vpcs[v].cidr) !in before
    requires GivesRoutes(vpcs, rest, table, before[RouteKey(table(v), vpcs[v].cidr) := LOCAL_GATEWAY], after)
    ensures GivesRoutes(vpcs, {v} + rest, table, before, after)
  {
    assert RouteKey(table(v), vpcs[v].cidr) in before[RouteKey(table(v), vpcs[v].cidr) := LOCAL_GATEWAY];
  }

  lemma OthersStillUnrouted(db: Db, vpcs: seq<Id>, table: Id, assoc: Id)
    requires vpcs != [] && (forall v :: v in vpcs ==> v in db.vpcs && !HasMain(db.assocs, v))
    requires forall i, j :: 0 <= i < j < |vpcs| ==> vpcs[i] != vpcs[j]
    ensures forall v :: v in vpcs[1..] ==> !HasMain(WithMainTable(db, vpcs[0], table, assoc).assocs, v)
  {
    forall v | v in vpcs[1..] ensures !HasMain(WithMainTable(db, vpcs[0], table, assoc).assocs, v) {
      var i :| 0 <= i < |vpcs| - 1 && vpcs[1..][i] == v;
      assert v == vpcs[i + 1] && v in vpcs;
    }
  }

  /** The ids and routes of these main tables are all new, and the ids distinct. */
  ghost predicate TablesFresh(db: Db, those: set<Id>, m: Makers) {
    Fresh(those, m.table, db.tables) && Fresh(those, m.assoc, db.assocs) && RoutesFresh(db.vpcs, those, m.table, db.routes)
  }

  lemma WithMainTableIs(db: Db, v: Id, table: Id, assoc: Id)
    requires v in db.vpcs
    ensures var d := WithMainTable(db, v, table, assoc);
            && d.vpcs == db.vpcs && d.tables == db.tables[table := RouteTable(db.vpcs[v].region, v)]
            && d.routes == db.routes[RouteKey(table, db.vpcs[v].cidr) := LOCAL_GATEWAY]
            && d.assocs == db.assocs[assoc := Association(table, v, None, true)]
  {
  }

  lemma TablesFreshOneMore(db: Db, v: Id, rest: set<Id>, m: Makers)
    requires v in db.vpcs && v !in rest
    ensures TablesFresh(db, {v} + rest, m) <==>
            && m.table(v) !in db.tables && RouteKey(m.table(v), db.vpcs[v].cidr) !in db.routes && m.assoc(v) !in db.assocs
            && TablesFresh(WithMainTable(db, v, m.table(v), m.assoc(v)), rest, m)
  {
    hide Fresh, RoutesFresh, WithMainTable;
    var row := RouteTable(db.vpcs[v].region, v);
    var link := Association(m.table(v), v, None, true);
    WithMainTableIs(db, v, m.table(v), m.assoc(v));
    if forall w :: w in rest ==> m.table(w) != m.table(v) {
      FreshOneMore(v, rest, m.table, db.tables, row);
      FreshOneMore(v, rest, m.assoc, db.assocs, link);
      RoutesFreshOneMore(db.vpcs, v, rest, m.table, db.routes);
    } else {
      MadeTwice(v, rest, m.table, db.tables, row);
    }
  }

  lemma MadeTwice<T>(v: Id, rest: set<Id>, make: Id -> Id, stored: map<Id, T>, row: T)
    requires v !in rest && exists w :: w in rest && make(w) == make(v)
    ensures !Fresh({v} + rest, make, stored) && !Fresh(rest, make, stored[make(v) := row])
  {
    var w :| w in rest && make(w) == make(v);
    assert w in {v} + rest && v in {v} + rest;
    assert make(w) in stored[make(v) := row];
  }

  /** What giving these VPCs main tables adds, all else as it was. */
  ghost predicate GivesTables(before: Db, after: Db, those: set<Id>, m: Makers) {
    && after == before.(tables := after.tables, assocs := after.assocs, routes := after.routes)
    && Gives(TableRows(before.vpcs, those), m.table, before.tables, after.tables)
    && Gives(AssocRows(before.vpcs, those, m.table), m.assoc, before.assocs, after.assocs)
    && GivesRoutes(before.vpcs, those, m.table, before.routes, after.routes)
  }

  lemma GivesTablesOneMore(db: Db, v: Id, rest: set<Id>, m: Makers, after: Db)
    requires v in db.vpcs && v !in rest
    requires m.table(v) !in db.tables && RouteKey(m.table(v), db.vpcs[v].cidr) !in db.routes && m.assoc(v) !in db.assocs
    requires GivesTables(WithMainTable(db, v, m.table(v), m.assoc(v)), after, rest, m)
    ensures GivesTables(db, after, {v} + rest, m)
  {
    hide Gives, GivesRoutes;
    var those := {v} + rest;
    assert those - {v} == rest;
    OneTableFewer(db.vpcs, those, v, m.table);
    GivesOneMore(TableRows(db.vpcs, those), v, m.table, db.tables, after.tables);
    GivesOneMore(AssocRows(db.vpcs, those, m.table), v, m.assoc, db.assocs, after.assocs);
    GivesRoutesOneMore(db.vpcs, v, rest, m.table, db.routes, after.routes);
  }

  lemma GivesNoTables(db: Db, m: Makers)
    ensures GivesTables(db, db, Elements([]), m) && TablesFresh(db, Elements([]), m)
  {
    NoTables(db.vpcs, m.table);
    GivesNothing(m.table, db.tables);
    GivesNothing(m.assoc, db.assocs);
  }

  /** Main tables are given exactly when their ids and routes are new and their ids distinct, and nothing else changes. */
  lemma {:induction false} TablesExactly(db: Db, vpcs: seq<Id>, m: Makers)
    requires forall v :: v in vpcs ==> v in db.vpcs && !HasMain(db.assocs, v)
    requires forall i, j :: 0 <= i < j < |vpcs| ==> vpcs[i] != vpcs[j]
    ensures var o := GiveTables(db, vpcs, m);
            && (o.Some? <==> TablesFresh(db, Elements(vpcs), m))
            && (o.Some? ==> GivesTables(db, o.value, Elements(vpcs), m))
    decreases |vpcs|
  {
    if vpcs == [] {
      GivesNoTables(db, m);
    } else {
      var v, rest := vpcs[0], vpcs[1..];
      HeadAndTail(vpcs);
      assert v in vpcs;
      TablesFreshOneMore(db, v, Elements(rest), m);
      OthersStillUnrouted(db, vpcs, m.table(v), m.assoc(v));
      hide HasMain, TablesFresh, GivesTables, Elements;
      if m.table(v) !in db.tables && RouteKey(m.table(v), db.vpcs[v].cidr) !in db.routes && m.assoc(v) !in db.assocs {
        TablesExactly(WithMainTable(db, v, m.table(v), m.assoc(v)), rest, m);
        if GiveTables(db, vpcs, m).Some? {
          GivesTablesOneMore(db, v, Elements(rest), m, GiveTables(db, vpcs, m).value);
        }
      }
    }
  }

  /** Nothing backfill would make is stored already or made twice. */
  ghost predicate Makeable(db: Db, m: Makers) {
    Fresh(Ungrouped(db), m.group, db.groups) && TablesFresh(db, Unrouted(db), m)
  }

  /** `after` is `before` with what its VPCs lack, and no other change. */
  ghost predicate Filled(before: Db, after: Db, m: Makers) {
    && Gives(GroupRows(before.vpcs, Ungrouped(before)), m.group, before.groups, after.groups)
    && GivesTables(before.(groups := after.groups), after, Unrouted(before), m)
  }

  /**
   * In whatever order the VPCs are listed, backfill goes through exactly when
   * all it makes is new, and then adds that and touches nothing else.
   */
  lemma BackfillExactly(db: Db, ungrouped: seq<Id>, unrouted: seq<Id>, m: Makers)
    requires Lists(ungrouped, Ungrouped(db)) && Lists(unrouted, Unrouted(db))
    ensures var o := Backfill(db, false, ungrouped, unrouted, m);
            && (o.Some? <==> Makeable(db, m))
            && (o.Some? ==> Filled(db, o.value, m))
  {
    assert Elements(ungrouped) == Ungrouped(db) && Elements(unrouted) == Unrouted(db);
    GroupsExactly(db, ungrouped, m.group);
    hide HasMain, HasDefaultGroup, Fresh, Gives, GivesTables, GroupRows, Elements;
    var mid := GiveGroups(db, ungrouped, m.group);
    if mid.Some? {
      TablesExactly(mid.value, unrouted, m);
      TablesFreshAlike(db, mid.value, Unrouted(db), m);
    }
  }

  lemma TablesFreshAlike(a: Db, b: Db, those: set<Id>, m: Makers)
    requires b == a.(groups := b.groups)
    ensures TablesFresh(a, those, m) == TablesFresh(b, those, m)
  {
  }

  /** The first loop alone: what it lists, and what it leaves for the second. */
  lemma FirstLoop(db: Db, ungrouped: seq<Id>, m: Makers)
    requires Lists(ungrouped, Ungrouped(db))
    ensures forall v :: v in ungrouped ==> v in db.vpcs
    ensures var o := GiveGroups(db, ungrouped, m.group);
            && (o.None? ==> !Makeable(db, m))
            && (o.Some? ==> o.value.vpcs == db.vpcs && Unrouted(o.value) == Unrouted(db))
  {
    assert Elements(ungrouped) == Ungrouped(db);
    GroupsExactly(db, ungrouped, m.group);
    hide HasMain, HasDefaultGroup, Fresh, Gives, TablesFresh;
  }

  /** Both loops: the second's outcome is the whole transaction's. */
  lemma BothLoops(db: Db, ungrouped: seq<Id>, unrouted: seq<Id>, m: Makers)
    requires Lists(ungrouped, Ungrouped(db)) && Lists(unrouted, Unrouted(db))
    requires GiveGroups(db, ungrouped, m.group).Some?
    ensures forall v :: v in unrouted ==> v in db.vpcs
    ensures var o := GiveTables(GiveGroups(db, ungrouped, m.group).value, unrouted, m);
            && (o.Some? <==> Makeable(db, m))
            && (o.Some? ==> Filled(db, o.value, m))
            && (o.Some? && InvBut(db) ==> Inv(o.value))
  {
    hide InvBut, Inv, Makeable, Filled, GiveGroups, GiveTables;
    BackfillExactly(db, ungrouped, unrouted, m);
    if InvBut(db) { BackfillGivesDefaults(db, ungrouped, unrouted, m); }
  }
}
