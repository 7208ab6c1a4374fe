/**
 * The repository's EC2 transactions, statement by statement on the tables, with
 * a rollback where one fails: each is the step `Ec2Ops` says it is.
 */
module Ec2Store {
  import opened Options
  import opened Net
  import opened PublicIps
  import opened Sorting
  import opened Text
  import opened Ec2Schema
  import opened Ec2Ops
  import opened Ec2Backfill
  import SR = SecurityRules

  /** What a save answers: stored, ErrNotFound or ErrConflict. */
  datatype Saving = Saved | Missing | Conflict

  class Store {
    var vpcs: map<Id, Vpc>
    var subnets: map<Id, Subnet>
    var gateways: map<Id, Gateway>
    var tables: map<Id, RouteTable>
    var assocs: map<Id, Association>
    var routes: map<RouteKey, string>
    var groups: map<Id, Group>
    var rules: SR.Table
    var instances: map<Id, Instance>
    var enis: map<Id, Eni>
    var addresses: map<Id, Address>
    var tags: map<TagKey, string>

    function State(): Db
      reads this
    {
      Db(vpcs, subnets, gateways, tables, assocs, routes, groups, rules, instances, enis, addresses, tags)
    }

    constructor ()
      ensures State() == EMPTY_DB
    {
      vpcs, subnets, gateways, tables, assocs, routes := map[], map[], map[], map[], map[], map[];
      groups, rules, instances, enis, addresses, tags := map[], [], map[], map[], map[], map[];
    }

    method RollbackNetwork(db: Db)
      modifies this`vpcs, this`subnets, this`gateways, this`tables, this`assocs, this`routes
      ensures vpcs == db.vpcs && subnets == db.subnets && gateways == db.gateways
      ensures tables == db.tables && assocs == db.assocs && routes == db.routes
    {
      vpcs, subnets, gateways := db.vpcs, db.subnets, db.gateways;
      tables, assocs, routes := db.tables, db.assocs, db.routes;
    }

    /** A transaction's rollback. */
    method Rollback(db: Db)
      modifies this
      ensures State() == db
    {
      RollbackNetwork(db);
      groups, rules, instances := db.groups, db.rules, db.instances;
      enis, addresses, tags := db.enis, db.addresses, db.tags;
    }

    /** The drop-tags triggers, for the rows deleted since `before`. */
    method DropTags(before: Db)
      modifies this`tags
      ensures State() == Triggered(before, old(State()))
    {
      tags := Triggered(before, State()).tags;
    }

    method InsertVpc(id: Id, row: Vpc) returns (ok: bool)
      modifies this`vpcs
      ensures ok == (id !in old(vpcs))
      ensures vpcs == if ok then old(vpcs)[id := row] else old(vpcs)
    {
      ok := id !in vpcs;
      if ok { vpcs := vpcs[id := row]; }
    }

    method InsertGroup(id: Id, row: Group) returns (ok: bool)
      modifies this`groups
      ensures ok == (id !in old(groups) && !NameTaken(old(groups), row.vpc, row.name))
      ensures groups == if ok then old(groups)[id := row] else old(groups)
    {
      ok := id !in groups && !NameTaken(groups, row.vpc, row.name);
      if ok { groups := groups[id := row]; }
    }

    /** `insertMainRouteTable`: the table, its local route and its main association. */
    method InsertMainTable(cidr: string, vpc: Id, region: string, table: Id, assoc: Id) returns (ok: bool)
      modifies this`tables, this`routes, this`assocs
      ensures ok == (table !in old(tables) && RouteKey(table, cidr) !in old(routes) && assoc !in old(assocs) && !HasMain(old(assocs), vpc))
      ensures ok ==>
                && tables == old(tables)[table := RouteTable(region, vpc)]
                && routes == old(routes)[RouteKey(table, cidr) := LOCAL_GATEWAY]
                && assocs == old(assocs)[assoc := Association(table, vpc, None, true)]
    {
      if table in tables || RouteKey(table, cidr) in routes {
        return false;
      }
      tables := tables[table := RouteTable(region, vpc)];
      routes := routes[RouteKey(table, cidr) := LOCAL_GATEWAY];
      if assoc in assocs || HasMain(assocs, vpc) {
        return false;
      }
      assocs := assocs[assoc := Association(table, vpc, None, true)];
      ok := true;
    }

    /** `CreateVPCWithDefaults`. */
    method CreateVpcWithDefaults(region: string, cidr: string, net: ValidPrefix, id: Id, group: Id, table: Id, assoc: Id)
      returns (ok: bool)
      modifies this
      ensures ok == VpcFits(old(State()), cidr, id, group, table, assoc)
      ensures cidr != "" ==> ok == CreateVpc(old(State()), region, cidr, net, id, group, table, assoc, map[]).Some?
      ensures State() == if ok then WithVpc(old(State()), region, cidr, net, id, group, table, assoc) else old(State())
    {
      var saved := State();
      ok := InsertVpcWithDefaults(region, cidr, net, id, group, table, assoc);
      if !ok { Rollback(saved); }
    }

    /** The transaction's three inserts, which stop at the first refused. */
    method InsertVpcWithDefaults(region: string, cidr: string, net: ValidPrefix, id: Id, group: Id, table: Id, assoc: Id)
      returns (ok: bool)
      modifies this`vpcs, this`groups, this`tables, this`routes, this`assocs
      ensures ok == VpcFits(old(State()), cidr, id, group, table, assoc)
      ensures ok ==> State() == WithVpc(old(State()), region, cidr, net, id, group, table, assoc)
    {
      DefaultNameTaken(groups, id);
      hide HasMain, NameTaken, HasDefaultGroup;
      ok := InsertVpc(id, Vpc(region, cidr, net));
      if !ok {
        return;
      }
      ok := InsertGroup(group, Group(region, id, DEFAULT_GROUP));
      if !ok {
        return;
      }
      ok := InsertMainTable(cidr, id, region, table, assoc);
    }

    /** `DeleteVPC`: the gateways are detached first, and attached again if the delete is refused. */
    method DropVpc(region: string, id: Id) returns (ok: bool)
      modifies this
      ensures ok == DeleteVpc(old(State()), region, id).Some?
      ensures State() == (if ok then DeleteVpc(old(State()), region, id).value else old(State()))
    {
      var saved := State();
      gateways := Detached(gateways, id);
      ok := DeleteVpcRow(region, id, saved);
      if ok { DropTags(saved); } else { Rollback(saved); }
    }

    /** The DELETE, RESTRICTed by an occupied subnet, with its cascade. */
    method DeleteVpcRow(region: string, id: Id, ghost was: Db) returns (ok: bool)
      requires State() == was.(gateways := Detached(was.gateways, id))
      modifies this`vpcs, this`subnets, this`tables, this`groups, this`assocs, this`routes, this`rules
      ensures ok == VpcGoes(was, region, id)
      ensures ok ==> State() == WithoutVpc(was, id)
    {
      VpcGoesStill(was, State(), region, id);
      hide Detached, SubnetsBut, TablesBut, GroupsBut, AssocsOf, RoutesOf, RulesOf, VpcGoes;
      ok := VpcGoes(State(), region, id);
      if ok {
        vpcs := vpcs - {id};
        CascadeVpc(id);
      }
    }

    /** The foreign keys' ON DELETE CASCADE under a VPC. */
    method CascadeVpc(id: Id)
      modifies this`subnets, this`tables, this`groups, this`assocs, this`routes, this`rules
      ensures var d := WithoutVpc(old(State()), id);
              && subnets == d.subnets && tables == d.tables && groups == d.groups
              && assocs == d.assocs && routes == d.routes && rules == d.rules
    {
      subnets := SubnetsBut(subnets, id);
      tables := TablesBut(tables, id);
      groups := GroupsBut(groups, id);
      assocs := AssocsOf(assocs, tables, subnets);
      routes := RoutesOf(routes, tables);
      rules := RulesOf(rules, groups);
    }

    // ----- subnets and route tables -----

    /** `subnetOverlap`: each sibling in turn, in whatever order the rows come. */
    method Overlapping(vpc: Id, net: ValidPrefix) returns (found: bool)
      requires net.Prefix?
      ensures found == Conflicts(subnets, vpc, net)
    {
      var left := subnets.Keys;
      while left != {}
        invariant left <= subnets.Keys
        invariant forall s :: s in subnets && s !in left && subnets[s].vpc == vpc ==> subnets[s].net.Prefix? && !Overlaps(subnets[s].net, net)
        decreases left
      {
        var s :| s in left;
        if subnets[s].vpc == vpc && (subnets[s].net.Unparsed? || Overlaps(subnets[s].net, net)) {
          return true;
        }
        left := left - {s};
      }
      found := false;
    }

    /** `ec2CreateSubnet` and `CreateSubnet`. */
    method InsertSubnet(region: string, vpc: Id, net: ValidPrefix, id: Id) returns (ok: bool)
      modifies this`subnets
      ensures var o := CreateSubnet(old(State()), region, vpc, net, id, map[]);
              && ok == o.Some?
              && State() == (if ok then o.value else old(State()))
    {
      SubnetCreated(State(), region, vpc, net, id);
      hide CreateSubnet, Conflicts;
      ok := vpc in vpcs && vpcs[vpc].region == region && InRange(vpcs[vpc].net, net);
      if ok {
        var conflict := Overlapping(vpc, net);
        ok := !conflict && id !in subnets;
      }
      if ok {
        subnets := subnets[id := Subnet(region, vpc, net)];
      }
    }

    /** `insertRouteTableWithLocal` in its transaction: no table is left without its local route. */
    method InsertRouteTable(region: string, vpc: Id, id: Id) returns (ok: bool)
      modifies this`tables, this`routes
      ensures var o := CreateRouteTable(old(State()), region, vpc, id, map[]);
              && ok == o.Some?
              && State() == (if ok then o.value else old(State()))
    {
      TableCreated(State(), region, vpc, id);
      hide CreateRouteTable;
      var saved := tables;
      ok := vpc in vpcs && vpcs[vpc].region == region && id !in tables;
      if ok {
        tables := tables[id := RouteTable(region, vpc)];
        var k := RouteKey(id, vpcs[vpc].cidr);
        ok := k !in routes;
        if ok { routes := routes[k := LOCAL_GATEWAY]; } else { tables := saved; }
      }
    }

    // ----- tags -----

    /** `putTags`: one upsert per tag of the list. */
    method PutTags(list: seq<Tag>)
      modifies this`tags
      ensures tags == PutAll(old(tags), list)
    {
      for i := 0 to |list|
        invariant tags == PutAll(old(tags), list[..i])
      {
        assert list[..i + 1][..i] == list[..i];
        tags := tags[TagKey(list[i].resource, list[i].key) := list[i].value];
      }
      assert list[..|list|] == list;
    }

    /** `DeleteTags`: for each resource every tag, or each match's. */
    method RemoveTags(resources: seq<Resource>, matches: seq<TagMatch>)
      modifies this`tags
      ensures tags == Unselected(old(tags), Those(resources), matches)
    {
      NoResource(tags, matches);
      for i := 0 to |resources|
        invariant tags == Unselected(old(tags), Those(resources[..i]), matches)
      {
        RemoveFrom(resources[i], matches);
        OneMoreResource(old(tags), resources, i, matches);
      }
      assert resources[..|resources|] == resources;
    }

    method RemoveFrom(r: Resource, matches: seq<TagMatch>)
      modifies this`tags
      ensures tags == Unselected(old(tags), {r}, matches)
    {
      if matches == [] {
        tags := map k | k in tags && k.resource != r :: tags[k];
      }
      for j := 0 to |matches|
        invariant tags == if j == 0 && matches != [] then old(tags) else Unselected(old(tags), {r}, matches[..j])
      {
        OneMoreMatch(old(tags), r, matches, j);
        tags := map k | k in tags && !(k.resource == r && Matches(matches[j], k.key, tags[k])) :: tags[k];
      }
      assert matches[..|matches|] == matches;
    }

    // ----- instances -----

    /** `DeleteInstance`: the interface goes with its instance. */
    method DropInstance(id: Id)
      modifies this
      ensures State() == WithoutInstances(old(State()), {id})
    {
      var saved := State();
      instances := instances - {id};
      enis := EnisBut(enis, {id});
      DropTags(saved);
    }

    /** `ec2DeleteSubnet`: the loop that purges terminated instances, then the delete. */
    method PurgeAndDropSubnet(region: string, id: Id) returns (ok: bool)
      modifies this
      ensures (State(), ok) == DeleteSubnet(old(State()), region, id)
    {
      var listed := set i | i in instances && Collectable(State(), region, id, i);
      var left := listed;
      ghost var was := State();
      PurgeNone(was);
      assert listed - left == {};
      hide WithoutInstances, Collectable;
      while left != {}
        invariant left <= listed && State() == WithoutInstances(was, listed - left)
        decreases left
      {
        var i :| i in left;
        PurgeTwice(was, listed - left, {i});
        assert listed - (left - {i}) == (listed - left) + {i};
        DropInstance(i);
        left := left - {i};
      }
      assert listed - left == listed;
      assert State() == Collected(was, region, id);
      ok := DropSubnet(region, id);
    }

    /** `DeleteSubnet`, RESTRICTed by the instances and interfaces in it. */
    method DropSubnet(region: string, id: Id) returns (ok: bool)
      modifies this
      ensures var db := old(State());
              && ok == (id in db.subnets && db.subnets[id].region == region && WithoutSubnet(db, id).Some?)
              && State() == (if ok then WithoutSubnet(db, id).value else db)
    {
      var saved := State();
      ok := id in subnets && subnets[id].region == region && !Occupied(saved, id);
      if ok {
        subnets := subnets - {id};
        assocs := AssocsOf(assocs, tables, subnets);
        DropTags(saved);
      }
    }

    /** `claimPublicIP`. */
    method ClaimPublicIp(region: string, eni: Id, auto: bool) returns (r: Option<Option<PublicIp>>)
      ensures r == ClaimAuto(enis, region, eni, auto)
    {
      if !auto {
        return Some(None);
      }
      var want := DerivePublicIp(AUTO_NET, eni);
      var ip := FindFreeIp(want, ShownIps(enis, region, eni));
      r := if ip.Some? then Some(Some(ip.value)) else None;
    }

    /** `CreateInstance`: the instance, then its interface at a free address of the subnet. */
    method CreateInstance(region: string, subnet: Id, groupIds: seq<Id>, want: Option<nat>, auto: bool, guarded: bool, id: Id, eni: Id)
      returns (ok: bool)
      modifies this
      ensures var o := RunInstance(old(State()), region, subnet, groupIds, want, auto, guarded, id, eni, map[], map[]);
              && ok == o.Some?
              && State() == (if ok then o.value else old(State()))
    {
      var saved := State();
      InstanceRun(saved, region, subnet, groupIds, want, auto, guarded, id, eni);
      hide RunInstance, GroupsUsable, PrivateIp, ClaimAuto, UsedIps;
      if !(subnet in subnets && subnets[subnet].region == region) || !GroupsUsable(saved, region, subnets[subnet].vpc, groupIds) || id in instances {
        return false;
      }
      instances := instances[id := Instance(region, subnet, Running, guarded)];
      ok := InsertEni(region, subnet, groupIds, want, auto, id, eni);
      if !ok {
        Rollback(saved);
      }
    }

    method InsertEni(region: string, subnet: Id, groupIds: seq<Id>, want: Option<nat>, auto: bool, id: Id, eni: Id)
      returns (ok: bool)
      requires subnet in subnets
      modifies this`enis
      ensures var ip := PrivateIp(subnets[subnet].net, want, UsedIps(old(enis), subnet));
              var publicIp := ClaimAuto(old(enis), region, eni, auto);
              && ok == (eni !in old(enis) && ip.Some? && publicIp.Some?)
              && enis == (if ok then old(enis)[eni := Eni(region, id, subnet, subnets[subnet].vpc, ip.value, publicIp.value, auto, groupIds)]
                          else old(enis))
    {
      var ip := FindPrivateIp(subnets[subnet].net, want, UsedIps(enis, subnet));
      if ip.None? {
        return false;
      }
      var publicIp := ClaimPublicIp(region, eni, auto);
      ok := publicIp.Some? && eni !in enis;
      if ok {
        enis := enis[eni := Eni(region, id, subnet, subnets[subnet].vpc, ip.value, publicIp.value, auto, groupIds)];
      }
    }

    /** `setInstanceStateTx` past its refusals: the row, then its interface, then its addresses. */
    method EndInstance(id: Id)
      requires id in instances
      modifies this
      ensures State() == WithEnded(old(State()), {id})
    {
      var saved := State();
      EndedRow(instances, id);
      instances := instances[id := instances[id].(state := Terminated)];
      enis := EnisBut(enis, {id});
      addresses := Freed(addresses, {id});
      hide EnisBut, Freed, EndedRows;
      DropTags(saved);
    }

    /** `SetInstanceState` to terminated: every id in one transaction. */
    method EndInstances(region: string, ids: seq<Id>) returns (r: Result)
      modifies this
      ensures match EndAll(old(State()), region, ids)
              case Blamed(id) => r == Failed(id) && State() == old(State())
              case Ended(after, previous) => r == Moved(previous) && State() == after
    {
      var saved, previous := State(), [];
      assert ids[0..] == ids;
      hide EndOne, Refuses;
      for i := 0 to |ids|
        invariant EndAll(saved, region, ids) == After(previous, EndAll(State(), region, ids[i..]))
      {
        assert ids[i..][0] == ids[i] && ids[i..][1..] == ids[i + 1..];
        if Refuses(State(), region, ids[i]) {
          Rollback(saved);
          return Failed(ids[i]);
        }
        var was := EndOneOf(region, ids[i]);
        AfterOneMore(previous, was, EndAll(State(), region, ids[i + 1..]));
        previous := previous + [was];
      }
      r := Moved(previous);
    }

    /** `setInstanceStateTx` for an id not refused. */
    method EndOneOf(region: string, id: Id) returns (was: State)
      requires !Refuses(State(), region, id)
      modifies this
      ensures State() == EndOne(old(State()), region, id) && was == old(instances)[id].state
    {
      hide WithEnded;
      was := instances[id].state;
      if was != Terminated {
        EndInstance(id);
      }
    }

    // ----- Elastic IPs -----

    /** `CreateEIP`. */
    method CreateEip(region: string, id: Id) returns (ok: bool)
      modifies this`addresses
      ensures var o := Allocate(old(State()), region, id, map[]);
              && ok == o.Some?
              && State() == (if ok then o.value else old(State()))
    {
      var want := DerivePublicIp(EIP_NET, id);
      var ip := FindFreeIp(want, HeldIps(addresses, region));
      ok := ip.Some? && id !in addresses;
      if ok {
        addresses := addresses[id := Address(region, ip.value, None)];
      }
      Untagged(State(), AddressRow(id));
    }

    /** `updateENITx`: the row's UPDATE, which a missing interface fails. */
    method UpdateEni(id: Id, row: Eni) returns (o: Saving)
      modifies this`enis
      ensures o == (if id in old(enis) then Saved else Missing)
      ensures enis == if o.Saved? then old(enis)[id := row] else old(enis)
    {
      if id !in enis {
        return Missing;
      }
      enis := enis[id := row];
      o := Saved;
    }

    /**
     * `AssociateEIP` with the address and the interface as the caller read them: the UPDATE
     * refuses an address or an interface that has one by now, and then the interface shows it.
     */
    method AssociateEip(id: Id, address: Address, on: Attachment, row: Eni) returns (o: Saving)
      modifies this
      ensures var db := old(State());
              && o == (if id !in db.addresses then Missing
                       else if db.addresses[id].on.Some? || !Bare(db.addresses, on.eni) then Conflict
                       else if on.eni !in db.enis then Missing
                       else Saved)
              && State() == (if o.Saved? then db.(addresses := db.addresses[id := address.(on := Some(on))], enis := db.enis[on.eni := row])
                             else db)
    {
      var saved := State();
      BareIsLooked(addresses, on.eni);
      var free := id in addresses && addresses[id].on.None?
                  && !exists a :: a in addresses && addresses[a].on.Some? && addresses[a].on.value.eni == on.eni;
      if !free {
        return if id !in addresses then Missing else Conflict;
      }
      addresses := addresses[id := address.(on := Some(on))];
      o := UpdateEni(on.eni, row);
      if !o.Saved? { Rollback(saved); }
    }

    /** `instanceENIs`: each instance's interface, the rows in whatever order they come. */
    method InstanceEnis() returns (of: map<Id, Id>)
      ensures forall i :: i in of <==> HasEni(enis, i)
      ensures forall i :: i in of ==> of[i] in enis && enis[of[i]].instance == i
    {
      of := map[];
      var left := enis.Keys;
      while left != {}
        invariant left <= enis.Keys
        invariant forall e :: e in enis && e !in left ==> enis[e].instance in of
        invariant forall i :: i in of ==> of[i] in enis && enis[of[i]].instance == i
        decreases |left|
      {
        var e :| e in left;
        left := left - {e};
        of := of[enis[e].instance := e];
      }
    }

    /** `associationTarget`: the interface named, checked against the instance if that is named too, or the named instance's. */
    method AssociationTarget(region: string, eni: Option<Id>, instance: Option<Id>) returns (e: Option<Id>)
      ensures match e
              case Some(x) => Targets(State(), region, eni, instance, x)
              case None => forall x :: !Targets(State(), region, eni, instance, x)
      ensures OneEach(enis) ==> e == Target(State(), region, eni, instance)
    {
      if OneEach(enis) { TargetIsOne(State(), region, eni, instance); }
      hide Target;
      if eni.Some? {
        if eni.value in enis && enis[eni.value].region == region && (instance.None? || instance.value == enis[eni.value].instance) {
          return eni;
        }
        return None;
      }
      if instance.None? || !(instance.value in instances && instances[instance.value].region == region) {
        return None;
      }
      var of := InstanceEnis();
      e := if instance.value in of then Some(of[instance.value]) else None;
    }

    /** AssociateAddress: the handler's reads and checks, by interface or by instance, and the save above. */
    method AssociateAddress(region: string, id: Id, eni: Option<Id>, instance: Option<Id>, privateIp: Option<nat>, reassociate: bool, assoc: Id)
      returns (ok: bool)
      modifies this
      ensures OneEach(old(enis)) ==>
                Saves(ok, State(), old(State()), Associate(old(State()), region, id, eni, instance, privateIp, reassociate, assoc))
      ensures !ok ==> State() == old(State())
      ensures ok ==> id in old(addresses) && exists e :: Targets(old(State()), region, eni, instance, e) && State() == Placed(old(State()), id, e, assoc)
    {
      hide Target;
      if !(id in addresses && addresses[id].region == region) {
        return false;
      }
      var target := AssociationTarget(region, eni, instance);
      if target.None? {
        return false;
      }
      var e := target.value;
      assert Targets(State(), region, eni, instance, e);
      BareIsLooked(addresses, e);
      var address, row := addresses[id], enis[e];
      if (privateIp.Some? && privateIp.value != row.privateIp) || reassociate {
        return false;
      }
      var o := AssociateEip(id, address, Attachment(assoc, e, row.instance, row.privateIp), row.(publicIp := Some(address.publicIp)));
      ok := o.Saved?;
    }

    /**
     * `DisassociateEIP` with the address and its interface, if any, as the caller read them: the
     * address is cleared, and rolled back if the interface can claim no automatic one or is gone.
     */
    method DisassociateEip(id: Id, address: Address, eni: Option<(Id, Eni)>) returns (o: Saving)
      modifies this
      ensures var db := old(State());
              var cleared := db.addresses[id := address.(on := None)];
              if id !in db.addresses then o == Missing && State() == db
              else if eni.None? then o == Saved && State() == db.(addresses := cleared)
              else
                var (e, row) := eni.value;
                var claim := ClaimAuto(db.enis, row.region, e, row.auto);
                && o == (if claim.None? then Conflict else if e !in db.enis then Missing else Saved)
                && State() == (if o.Saved? then db.(addresses := cleared, enis := db.enis[e := row.(publicIp := claim.value)]) else db)
    {
      var saved := State();
      if id !in addresses {
        return Missing;
      }
      addresses := addresses[id := address.(on := None)];
      if eni.None? {
        return Saved;
      }
      var (e, row) := eni.value;
      var claim := ClaimPublicIp(row.region, e, row.auto);
      o := Conflict;
      if claim.Some? { o := UpdateEni(e, row.(publicIp := claim.value)); }
      if !o.Saved? { Rollback(saved); }
    }

    /**
     * DisassociateAddress: an address that carries the association, found among the rows, and
     * its interface, read and saved. Ids are drawn at random, so one row at most carries it.
     */
    method DisassociateAddress(region: string, assoc: Id) returns (ok: bool)
      modifies this
      ensures var db := old(State());
              if assoc == "" || !(exists a :: Carries(db, region, a, assoc)) then !ok && State() == db
              else exists a :: Carries(db, region, a, assoc) && Saves(ok, State(), db, Cleared(db, region, a))
      ensures OneCarries(old(State()), region, assoc) ==> Saves(ok, State(), old(State()), Disassociate(old(State()), region, assoc))
    {
      ghost var db := State();
      if assoc == "" || !exists a :: a in addresses && Carries(State(), region, a, assoc) {
        return false;
      }
      var a :| a in addresses && Carries(State(), region, a, assoc);
      var address, eni := addresses[a], addresses[a].on.value.eni;
      if !(eni in enis && enis[eni].region == region) {
        assert Saves(false, db, db, Cleared(db, region, a));
        return false;
      }
      var o := DisassociateEip(a, address, Some((eni, enis[eni])));
      ok := o.Saved?;
      assert Carries(db, region, a, assoc) && Saves(ok, State(), db, Cleared(db, region, a));
    }

    // ----- rules -----

    /** `AuthorizeSecurityGroupRules`: the loop over the rules asked for, rolled back on a refused INSERT. */
    method AuthorizeRules(group: Id, egress: bool, news: seq<SR.NewRule>) returns (r: SR.Authorized)
      modifies this`rules
      ensures r == SR.Authorize(old(rules), group, egress, news)
      ensures rules == if r.Added? then r.table else old(rules)
    {
      var saved, added := rules, [];
      assert news[0..] == news;
      for i := 0 to |news|
        invariant SR.Authorize(saved, group, egress, news) == AddedFirst(added, SR.Authorize(rules, group, egress, news[i..]))
      {
        var n := news[i];
        assert news[i..][0] == n && news[i..][1..] == news[i + 1..];
        if !SR.Holds(rules, group, egress, n.key, n.grant.source) {
          if SR.HasId(rules, n.id) || !SR.Storable(n.grant) {
            rules := saved;
            return SR.Refused;
          }
          var row := SR.Placed(rules, group, egress, n);
          AddedThen(added, row, SR.Authorize(rules + [row], group, egress, news[i + 1..]));
          rules := rules + [row];
          added := added + [row];
        }
      }
      r := SR.Added(rules, added);
    }

    /** `RevokeSecurityGroupRules`: each revocation's DELETE, rolled back when an id deletes no row. */
    method RevokeRules(group: Id, egress: bool, vs: seq<SR.Revocation>) returns (ok: bool)
      modifies this`rules
      ensures var o := SR.Revoke(old(rules), group, egress, vs);
              && ok == o.Some?
              && rules == (if ok then o.value else old(rules))
    {
      var saved := rules;
      assert vs[0..] == vs;
      for i := 0 to |vs|
        invariant SR.Revoke(saved, group, egress, vs) == SR.Revoke(rules, group, egress, vs[i..])
      {
        assert vs[i..][0] == vs[i] && vs[i..][1..] == vs[i + 1..];
        if vs[i].ById? && !SR.Names(rules, vs[i], group, egress) {
          rules := saved;
          return false;
        }
        rules := SR.Without(rules, vs[i], group, egress);
      }
      ok := true;
    }

    // ----- backfill -----

    /** `vpcsWithout` for default groups: the rows of the VPC table that have none, by id. */
    method UngroupedVpcs() returns (ids: seq<Id>)
      ensures Lists(ids, Ungrouped(State())) && SortedBy(Leq, ids)
    {
      ids := [];
      var left := vpcs.Keys;
      while left != {}
        invariant left <= vpcs.Keys
        invariant Lists(ids, Ungrouped(State()) - left)
        decreases |left|
      {
        hide HasDefaultGroup;
        var v :| v in left;
        left := left - {v};
        if !HasDefaultGroup(groups, v) { ids := ids + [v]; }
      }
      SortedLists(ids, Ungrouped(State()));
      ids := SortBy(Leq, ids);
    }

    /** `vpcsWithout` for main associations. */
    method UnroutedVpcs() returns (ids: seq<Id>)
      ensures Lists(ids, Unrouted(State())) && SortedBy(Leq, ids)
    {
      ids := [];
      var left := vpcs.Keys;
      while left != {}
        invariant left <= vpcs.Keys
        invariant Lists(ids, Unrouted(State()) - left)
        decreases |left|
      {
        hide HasMain;
        var v :| v in left;
        left := left - {v};
        if !HasMain(assocs, v) { ids := ids + [v]; }
      }
      SortedLists(ids, Unrouted(State()));
      ids := SortBy(Leq, ids);
    }

    /** `BackfillVPCDefaults`: each list and its loop, in one transaction. */
    method BackfillVpcDefaults(loaded: bool, m: Makers) returns (ok: bool)
      modifies this
      ensures loaded ==> ok && State() == old(State())
      ensures !loaded ==> (ok <==> Makeable(old(State()), m))
      ensures !loaded && ok ==> Filled(old(State()), State(), m)
      ensures !loaded && ok && InvBut(old(State())) ==> Inv(State())
      ensures !ok ==> State() == old(State())
    {
      var saved := State();
      if loaded {
        return true;
      }
      hide InvBut, Inv, Makeable, Filled, Lists, GiveGroups, GiveTables, Ungrouped, Unrouted;
      var ungrouped := UngroupedVpcs();
      FirstLoop(saved, ungrouped, m);
      ok := GiveDefaultGroups(ungrouped, m.group);
      if ok {
        var unrouted := UnroutedVpcs();
        BothLoops(saved, ungrouped, unrouted, m);
        ok := GiveMainTables(unrouted, m);
      }
      if !ok { Rollback(saved); }
    }

    method GiveDefaultGroups(ids: seq<Id>, group: Id -> Id) returns (ok: bool)
      requires forall v :: v in ids ==> v in vpcs
      modifies this
      ensures var o := GiveGroups(old(State()), ids, group);
              ok == o.Some? && (ok ==> State() == o.value)
    {
      ghost var was := State();
      assert ids[0..] == ids;
      for i := 0 to |ids|
        invariant vpcs == old(vpcs) && (forall v :: v in ids[i..] ==> v in vpcs)
        invariant GiveGroups(was, ids, group) == GiveGroups(State(), ids[i..], group)
      {
        var v := ids[i];
        assert ids[i..][0] == v && ids[i..][1..] == ids[i + 1..];
        ok := InsertGroup(group(v), Group(vpcs[v].region, v, DEFAULT_GROUP));
        if !ok {
          return;
        }
      }
      ok := true;
    }

    method GiveMainTables(ids: seq<Id>, m: Makers) returns (ok: bool)
      requires forall v :: v in ids ==> v in vpcs
      modifies this
      ensures var o := GiveTables(old(State()), ids, m);
              ok == o.Some? && (ok ==> State() == o.value)
    {
      ghost var was := State();
      assert ids[0..] == ids;
      for i := 0 to |ids|
        invariant vpcs == old(vpcs) && (forall v :: v in ids[i..] ==> v in vpcs)
        invariant GiveTables(was, ids, m) == GiveTables(State(), ids[i..], m)
      {
        var v := ids[i];
        assert ids[i..][0] == v && ids[i..][1..] == ids[i + 1..];
        ok := InsertMainTable(vpcs[v].cidr, v, vpcs[v].region, m.table(v), m.assoc(v));
        if !ok {
          return;
        }
      }
      ok := true;
    }
  }

  /** A tag as PutTags is given it. */
  datatype Tag = Tag(resource: Resource, key: string, value: string)

  function Those(resources: seq<Resource>): set<Resource> {
    set r | r in resources
  }

  function PutAll(tags: map<TagKey, string>, list: seq<Tag>): map<TagKey, string> {
    if list == [] then tags
    else
      var t := list[|list| - 1];
      PutAll(tags, list[..|list| - 1])[TagKey(t.resource, t.key) := t.value]
  }

  predicate Puts(list: seq<Tag>, k: TagKey) {
    exists t :: t in list && t.resource == k.resource && t.key == k.key
  }

  lemma {:induction false} PutAllPuts(tags: map<TagKey, string>, list: seq<Tag>, all: map<string, string>)
    requires forall t :: t in list ==> t.key in all && t.value == all[t.key]
    ensures forall k :: k in PutAll(tags, list) <==> k in tags || Puts(list, k)
    ensures forall k :: k in PutAll(tags, list) ==> PutAll(tags, list)[k] == if Puts(list, k) then all[k.key] else tags[k]
  {
    if list != [] {
      var init, last := list[..|list| - 1], list[|list| - 1];
      PutAllPuts(tags, init, all);
      assert forall t :: t in list <==> t in init || t == last;
      assert last in list;
      assert forall k :: Puts(list, k) <==> Puts(init, k) || k == TagKey(last.resource, last.key);
    }
  }

  /** Upserting each tag on each resource, in any order, is CreateTags' step. */
  lemma PutAllIsTagAll(tags: map<TagKey, string>, list: seq<Tag>, resources: set<Resource>, all: map<string, string>)
    requires forall r, s, v :: Tag(r, s, v) in list <==> r in resources && s in all && v == all[s]
    ensures PutAll(tags, list) == tags + TagAll(resources, all)
  {
    forall t | t in list ensures t.resource in resources && t.key in all && t.value == all[t.key] {
      assert t == Tag(t.resource, t.key, t.value);
    }
    PutAllPuts(tags, list, all);
    forall k ensures Puts(list, k) <==> k in TagAll(resources, all) {
      PutsWhenTagged(list, resources, all, k);
    }
    hide PutAll, Puts;
    assert PutAll(tags, list).Keys == (tags + TagAll(resources, all)).Keys;
  }

  lemma PutsWhenTagged(list: seq<Tag>, resources: set<Resource>, all: map<string, string>, k: TagKey)
    requires forall r, s, v :: Tag(r, s, v) in list <==> r in resources && s in all && v == all[s]
    ensures Puts(list, k) <==> k in TagAll(resources, all)
  {
    if t :| t in list && t.resource == k.resource && t.key == k.key {
      assert t == Tag(t.resource, t.key, t.value);
    }
    if k in TagAll(resources, all) {
      assert Tag(k.resource, k.key, all[k.key]) in list;
    }
  }

  lemma NoResource(tags: map<TagKey, string>, matches: seq<TagMatch>)
    ensures Unselected(tags, Those([]), matches) == tags
  {
  }

  lemma OneMoreMatch(tags: map<TagKey, string>, r: Resource, matches: seq<TagMatch>, j: nat)
    requires j < |matches|
    ensures var m, before := matches[j], if j == 0 then tags else Unselected(tags, {r}, matches[..j]);
            Unselected(tags, {r}, matches[..j + 1]) == map k | k in before && !(k.resource == r && Matches(m, k.key, before[k])) :: before[k]
  {
    assert forall m :: m in matches[..j + 1] <==> m == matches[j] || m in matches[..j];
  }

  lemma OneMoreResource(tags: map<TagKey, string>, resources: seq<Resource>, i: nat, matches: seq<TagMatch>)
    requires i < |resources|
    ensures Unselected(Unselected(tags, Those(resources[..i]), matches), {resources[i]}, matches)
            == Unselected(tags, Those(resources[..i + 1]), matches)
  {
    assert forall r :: r in resources[..i + 1] <==> r == resources[i] || r in resources[..i];
    hide Matches;
  }

  datatype Result = Failed(id: Id) | Moved(previous: seq<State>)

  /** A termination after the ids whose previous states are given. */
  ghost function After(previous: seq<State>, t: Termination): Termination {
    if t.Blamed? then t else Ended(t.db, previous + t.previous)
  }

  lemma AfterOneMore(previous: seq<State>, was: State, t: Termination)
    ensures After(previous, if t.Blamed? then t else Ended(t.db, [was] + t.previous)) == After(previous + [was], t)
  {
    if t.Ended? {
      assert previous + ([was] + t.previous) == (previous + [was]) + t.previous;
    }
  }

  ghost function AddedFirst(added: seq<SR.Rule>, a: SR.Authorized): SR.Authorized {
    if a.Refused? then a else SR.Added(a.table, added + a.added)
  }

  lemma AddedThen(added: seq<SR.Rule>, row: SR.Rule, a: SR.Authorized)
    ensures a.Added? ==> added + ([row] + a.added) == (added + [row]) + a.added
  {
  }

  /** Sorting a list keeps what it lists. */
  lemma SortedLists(ids: seq<Id>, those: set<Id>)
    requires Lists(ids, those)
    ensures Lists(SortBy(Leq, ids), those) && SortedBy(Leq, SortBy(Leq, ids))
  {
    var sorted := SortBy(Leq, ids);
    LeqIsOrder();
    SortSorts(Leq, ids);
    forall v ensures v in sorted <==> v in ids {
      assert v in multiset(sorted) <==> v in multiset(ids);
    }
    forall i, j | 0 <= i < j < |sorted| ensures sorted[i] != sorted[j] {
      OncePerPlace(sorted, i, j);
      OncePerValue(ids, sorted[i]);
    }
  }

  lemma OncePerPlace(s: seq<Id>, i: nat, j: nat)
    requires i < j < |s|
    ensures s[i] == s[j] ==> multiset(s)[s[i]] >= 2
  {
    assert s == s[..j] + [s[j]] + s[j + 1..];
    assert s[..j] == s[..i] + [s[i]] + s[i + 1..j];
  }

  lemma {:induction false} OncePerValue(s: seq<Id>, v: Id)
    requires forall i, j :: 0 <= i < j < |s| ==> s[i] != s[j]
    ensures multiset(s)[v] <= 1
  {
    if s != [] {
      assert s == [s[0]] + s[1..];
      OncePerValue(s[1..], v);
      if s[0] == v { assert v !in s[1..]; }
    }
  }

  /** The interface the handler may take a request to name. */
  ghost predicate Targets(db: Db, region: string, eni: Option<Id>, instance: Option<Id>, e: Id) {
    && e in db.enis
    && if eni.Some? then eni.value == e && db.enis[e].region == region && (instance.Some? ==> instance.value == db.enis[e].instance)
       else instance.Some? && InstanceHere(db, region, instance.value) && db.enis[e].instance == instance.value
  }

  /** No instance has two interfaces, as after any run. */
  ghost predicate OneEach(enis: map<Id, Eni>) {
    forall e, f :: e in enis && f in enis && enis[e].instance == enis[f].instance ==> e == f
  }

  lemma TargetIsOne(db: Db, region: string, eni: Option<Id>, instance: Option<Id>)
    requires OneEach(db.enis)
    ensures var t := Target(db, region, eni, instance);
            && (t.Some? ==> forall x :: Targets(db, region, eni, instance, x) ==> t == Some(x))
            && (t.None? ==> forall x :: !Targets(db, region, eni, instance, x))
  {
    if eni.None? && instance.Some? && HasEni(db.enis, instance.value) {
      var e := EniOf(db.enis, instance.value);
      assert e in db.enis && db.enis[e].instance == instance.value;
    }
  }

  /** A request's outcome on the tables: its result stored, or nothing. */
  predicate Saves(ok: bool, after: Db, before: Db, o: Option<Db>) {
    ok == o.Some? && after == if o.Some? then o.value else before
  }

  ghost predicate OneCarries(db: Db, region: string, assoc: Id) {
    forall a, b :: Carries(db, region, a, assoc) && Carries(db, region, b, assoc) ==> a == b
  }

  lemma BareIsLooked(addresses: map<Id, Address>, eni: Id)
    ensures Bare(addresses, eni) <==>
            !exists a :: a in addresses && addresses[a].on.Some? && addresses[a].on.value.eni == eni
  {
    assert forall a :: OnEni(addresses, a, eni) <==> a in addresses && addresses[a].on.Some? && addresses[a].on.value.eni == eni;
  }

  predicate NameTaken(groups: map<Id, Group>, vpc: Id, name: string) {
    exists g :: g in groups && groups[g].vpc == vpc && groups[g].name == name
  }

  lemma VpcGoesStill(was: Db, db: Db, region: string, id: Id)
    requires db == was.(gateways := db.gateways)
    ensures VpcGoes(db, region, id) == VpcGoes(was, region, id)
  {
    assert forall s :: Occupied(db, s) == Occupied(was, s);
  }

  lemma InstanceRun(db: Db, region: string, subnet: Id, groups: seq<Id>, want: Option<nat>, auto: bool, guarded: bool, id: Id, eni: Id)
    ensures var o := RunInstance(db, region, subnet, groups, want, auto, guarded, id, eni, map[], map[]);
            if subnet in db.subnets && db.subnets[subnet].region == region && GroupsUsable(db, region, db.subnets[subnet].vpc, groups)
               && id !in db.instances && eni !in db.enis
            then
              var ip := PrivateIp(db.subnets[subnet].net, want, UsedIps(db.enis, subnet));
              var publicIp := ClaimAuto(db.enis, region, eni, auto);
              if ip.Some? && publicIp.Some?
              then o == Some(db.(instances := db.instances[id := Instance(region, subnet, Running, guarded)],
                                 enis := db.enis[eni := Eni(region, id, subnet, db.subnets[subnet].vpc, ip.value, publicIp.value, auto, groups)]))
              else o == None
            else o == None
  {
    hide PrivateIp, ClaimAuto, GroupsUsable;
    Untagged(db, InstanceRow(id));
    Untagged(db, EniRow(eni));
  }

  lemma SubnetCreated(db: Db, region: string, vpc: Id, net: ValidPrefix, id: Id)
    ensures CreateSubnet(db, region, vpc, net, id, map[]) ==
            if vpc in db.vpcs && db.vpcs[vpc].region == region && InRange(db.vpcs[vpc].net, net)
               && !Conflicts(db.subnets, vpc, net) && id !in db.subnets
            then Some(db.(subnets := db.subnets[id := Subnet(region, vpc, net)])) else None
  {
    Untagged(db, SubnetRow(id));
    hide TagMap, Conflicts;
  }

  lemma TableCreated(db: Db, region: string, vpc: Id, id: Id)
    ensures CreateRouteTable(db, region, vpc, id, map[]) ==
            if vpc in db.vpcs && db.vpcs[vpc].region == region && id !in db.tables && RouteKey(id, db.vpcs[vpc].cidr) !in db.routes
            then Some(db.(tables := db.tables[id := RouteTable(region, vpc)],
                          routes := db.routes[RouteKey(id, db.vpcs[vpc].cidr) := LOCAL_GATEWAY])) else None
  {
    Untagged(db, TableRow(id));
    hide TagMap;
  }

  lemma DefaultNameTaken(groups: map<Id, Group>, vpc: Id)
    ensures NameTaken(groups, vpc, DEFAULT_GROUP) <==> HasDefaultGroup(groups, vpc)
  {
  }

  lemma Untagged(db: Db, r: Resource)
    ensures TagMap(r, map[]) == map[] && db.tags + map[] == db.tags
  {
  }

  lemma EndedRow(instances: map<Id, Instance>, id: Id)
    requires id in instances
    ensures EndedRows(instances, {id}) == instances[id := instances[id].(state := Terminated)]
  {
  }

  lemma PurgeNone(db: Db)
    ensures WithoutInstances(db, {}) == db
  {
    var d := WithoutInstances(db, {});
    assert d.instances == db.instances && d.enis == db.enis;
    assert d.tags == db.tags;
  }

  /** Purging in turn is purging at once. */
  lemma PurgeTwice(db: Db, a: set<Id>, b: set<Id>)
    ensures WithoutInstances(WithoutInstances(db, a), b) == WithoutInstances(db, a + b)
  {
    var one, two := WithoutInstances(WithoutInstances(db, a), b), WithoutInstances(db, a + b);
    assert one.instances == two.instances;
    PurgedEnis(db.enis, a, b);
    PurgedTags(db, a, b);
  }

  lemma PurgedEnis(enis: map<Id, Eni>, a: set<Id>, b: set<Id>)
    ensures EnisBut(EnisBut(enis, a), b) == EnisBut(enis, a + b)
  {
  }

  lemma PurgedTags(db: Db, a: set<Id>, b: set<Id>)
    ensures WithoutInstances(WithoutInstances(db, a), b).tags == WithoutInstances(db, a + b).tags
  {
    var mid, one, two := WithoutInstances(db, a), WithoutInstances(WithoutInstances(db, a), b), WithoutInstances(db, a + b);
    PurgedEnis(db.enis, a, b);
    forall k ensures k in one.tags <==> k in two.tags {
      PurgedTag(db, a, k);
      PurgedTag(mid, b, k);
      PurgedTag(db, a + b, k);
    }
    assert one.tags.Keys == two.tags.Keys;
  }

  lemma PurgedStored(db: Db, gone: set<Id>, r: Resource)
    ensures Stored(WithoutInstances(db, gone), r) <==> Stored(db, r) && !GoesWith(db, gone, r)
    ensures GoesWith(db, gone, r) ==> Stored(db, r)
  {
  }

  lemma PurgedGo(db: Db, gone: set<Id>, r: Resource)
    ensures forall b :: GoesWith(WithoutInstances(db, gone), b, r) || GoesWith(db, gone, r) <==> GoesWith(db, gone + b, r)
  {
  }

  /** The tags that go are those of the rows that go. */
  lemma PurgedTag(db: Db, gone: set<Id>, k: TagKey)
    ensures var d := WithoutInstances(db, gone);
            && (k in d.tags <==> k in db.tags && !GoesWith(db, gone, k.resource))
            && (k in d.tags ==> d.tags[k] == db.tags[k])
            && forall b :: GoesWith(d, b, k.resource) || GoesWith(db, gone, k.resource) <==> GoesWith(db, gone + b, k.resource)
  {
    PurgedStored(db, gone, k.resource);
    PurgedGo(db, gone, k.resource);
    var after := db.(instances := db.instances - gone, enis := EnisBut(db.enis, gone));
    assert Stored(after, k.resource) == Stored(WithoutInstances(db, gone), k.resource);
    hide Stored, GoesWith, EnisBut;
  }

  predicate GoesWith(db: Db, gone: set<Id>, r: Resource) {
    match r
    case InstanceRow(id) => id in db.instances && id in gone
    case EniRow(id) => id in db.enis && db.enis[id].instance in gone
    case _ => false
  }
}
