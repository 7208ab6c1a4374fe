/** What one request makes, another takes back: every table as it was, tags included. */
module Ec2Undo {
  import opened Options
  import opened Net
  import opened PublicIps
  import opened Ec2Schema
  import opened Ec2Ops
  import opened Ec2Keeps
  import opened Ec2Runs
  import SR = SecurityRules

  /** A new row's tags go with it, and no others. */
  lemma TagsGoWithTheirRow(db: Db, d: Db, r: Resource, tags: map<string, string>)
    requires TagsStored(db) && !Stored(db, r) && Stored(d, r)
    requires d.tags == db.tags + TagMap(r, tags)
    ensures Triggered(d, db.(tags := d.tags)) == db
  {
    hide Stored;
    var t := Triggered(d, db.(tags := d.tags)).tags;
    forall k ensures k in t <==> k in db.tags {
      TagsDoNotStore(db, d.tags, k.resource);
      assert k in d.tags <==> k in db.tags || k in TagMap(r, tags);
      assert k in TagMap(r, tags) ==> k.resource == r;
    }
    forall k | k in t ensures t[k] == db.tags[k] {
      assert k.resource != r;
    }
    assert t == db.tags;
  }

  lemma {:induction false} RulesAllStay(rules: SR.Table, groups: map<Id, Group>)
    requires forall r :: r in rules ==> r.group in groups
    ensures RulesOf(rules, groups) == rules
  {
    if rules != [] {
      assert rules[0] in rules && forall r :: r in rules[1..] ==> r in rules;
      RulesAllStay(rules[1..], groups);
    }
  }

  // ----- VPCs -----

  /** Nothing stored hangs off a VPC that is not. */
  lemma NewVpcIsBare(db: Db, region: string, cidr: string, net: ValidPrefix, id: Id, group: Id, table: Id, assoc: Id)
    requires Networks(db.vpcs, db.subnets, db.gateways, db.tables, db.assocs, db.routes) && Groups(db.vpcs, db.groups, db.rules)
    requires VpcFits(db, cidr, id, group, table, assoc)
    ensures var d := WithVpc(db, region, cidr, net, id, group, table, assoc);
            WithoutVpc(d, id) == db
  {
    var d := WithVpc(db, region, cidr, net, id, group, table, assoc);
    assert SubnetsBut(d.subnets, id) == db.subnets;
    assert Detached(d.gateways, id) == db.gateways;
    NewVpcGroupsGo(db, region, id, group);
    NewVpcTablesGo(db, region, cidr, id, table, assoc);
    assert d.vpcs - {id} == db.vpcs;
    hide Networks, Groups;
  }

  lemma NewVpcGroupsGo(db: Db, region: string, id: Id, group: Id)
    requires Groups(db.vpcs, db.groups, db.rules) && id !in db.vpcs && group !in db.groups
    ensures GroupsBut(db.groups[group := Group(region, id, DEFAULT_GROUP)], id) == db.groups
    ensures RulesOf(db.rules, db.groups) == db.rules
  {
    RulesAllStay(db.rules, db.groups);
  }

  lemma NewVpcTablesGo(db: Db, region: string, cidr: string, id: Id, table: Id, assoc: Id)
    requires Networks(db.vpcs, db.subnets, db.gateways, db.tables, db.assocs, db.routes)
    requires id !in db.vpcs && table !in db.tables && assoc !in db.assocs
    ensures TablesBut(db.tables[table := RouteTable(region, id)], id) == db.tables
    ensures AssocsOf(db.assocs[assoc := Association(table, id, None, true)], db.tables, db.subnets) == db.assocs
    ensures RoutesOf(db.routes[RouteKey(table, cidr) := LOCAL_GATEWAY], db.tables) == db.routes
  {
  }

  lemma NewVpcIsEmpty(db: Db, region: string, cidr: string, net: ValidPrefix, id: Id, group: Id, table: Id, assoc: Id,
                      tags: map<string, string>)
    requires Networks(db.vpcs, db.subnets, db.gateways, db.tables, db.assocs, db.routes) && id !in db.vpcs
    ensures VpcGoes(Tagged(WithVpc(db, region, cidr, net, id, group, table, assoc), VpcRow(id), tags), region, id)
  {
  }

  /** Deleting a VPC just created restores every table: its defaults, cascades and tags included. */
  lemma DeleteVpcUndoesCreate(calls: seq<Call>, region: string, cidr: string, net: ValidPrefix, id: Id, group: Id, table: Id,
                              assoc: Id, tags: map<string, string>)
    ensures var db := Reached(calls);
            var o := CreateVpc(db, region, cidr, net, id, group, table, assoc, tags);
            o.Some? ==> DeleteVpc(o.value, region, id) == Some(db)
  {
    ReachedKeeps(calls);
    var db := Reached(calls);
    hide Run, Networks, Groups, Compute, EniGroups, Defaults, SubnetBlocks, PrivateIps, PublicAddresses, TagsStored, WithVpc, WithoutVpc, VpcGoes;
    var o := CreateVpc(db, region, cidr, net, id, group, table, assoc, tags);
    if o.Some? {
      NewVpcIsEmpty(db, region, cidr, net, id, group, table, assoc, tags);
      NewVpcIsBare(db, region, cidr, net, id, group, table, assoc);
      VpcTagsGo(db, region, cidr, net, id, group, table, assoc, tags);
    }
  }

  lemma VpcTagsGo(db: Db, region: string, cidr: string, net: ValidPrefix, id: Id, group: Id, table: Id, assoc: Id,
                  tags: map<string, string>)
    requires TagsStored(db) && id !in db.vpcs
    requires WithoutVpc(WithVpc(db, region, cidr, net, id, group, table, assoc), id) == db
    ensures var d := Tagged(WithVpc(db, region, cidr, net, id, group, table, assoc), VpcRow(id), tags);
            Triggered(d, WithoutVpc(d, id)) == db
  {
    var d := Tagged(WithVpc(db, region, cidr, net, id, group, table, assoc), VpcRow(id), tags);
    assert WithoutVpc(d, id) == db.(tags := d.tags);
    assert Stored(d, VpcRow(id));
    hide WithoutVpc;
    TagsGoWithTheirRow(db, d, VpcRow(id), tags);
  }

  // ----- subnets, gateways, tables -----

  lemma DeleteSubnetUndoesCreate(calls: seq<Call>, region: string, vpc: Id, net: ValidPrefix, id: Id, tags: map<string, string>)
    ensures var db := Reached(calls);
            var o := CreateSubnet(db, region, vpc, net, id, tags);
            o.Some? ==> DeleteSubnet(o.value, region, id) == (db, true)
  {
    ReachedKeeps(calls);
    var db := Reached(calls);
    hide Run, Networks, Groups, Compute, EniGroups, Defaults, SubnetBlocks, PrivateIps, PublicAddresses, TagsStored, InRange, Overlaps;
    if CreateSubnet(db, region, vpc, net, id, tags).Some? {
      var d := Tagged(db.(subnets := db.subnets[id := Subnet(region, vpc, net)]), SubnetRow(id), tags);
      NewSubnetHoldsNothing(db, d, region, id);
      NewSubnetGoes(db, d, id);
      TagsGoWithTheirRow(db, d, SubnetRow(id), tags);
      hide Collected, Occupied, Triggered;
    }
  }

  lemma NewSubnetGoes(db: Db, d: Db, id: Id)
    requires Networks(db.vpcs, db.subnets, db.gateways, db.tables, db.assocs, db.routes) && id !in db.subnets
    requires id in d.subnets && d == db.(subnets := db.subnets[id := d.subnets[id]], tags := d.tags) && !Occupied(d, id)
    ensures WithoutSubnet(d, id) == Some(Triggered(d, db.(tags := d.tags)))
  {
    assert d.subnets - {id} == db.subnets;
    assert AssocsOf(db.assocs, db.tables, db.subnets) == db.assocs;
    hide Triggered, Networks;
  }

  lemma NewSubnetHoldsNothing(db: Db, d: Db, region: string, id: Id)
    requires Compute(db.subnets, db.instances, db.enis) && id !in db.subnets
    requires d.instances == db.instances && d.enis == db.enis
    ensures Collected(d, region, id) == d && !Occupied(d, id)
  {
    assert (set i | i in d.instances && Collectable(d, region, id, i)) == {};
    assert EnisBut(d.enis, {}) == d.enis && d.instances - {} == d.instances;
    assert WithoutInstances(d, {}).tags == d.tags;
  }

  lemma DeleteGatewayUndoesCreate(calls: seq<Call>, region: string, id: Id, tags: map<string, string>)
    ensures var db := Reached(calls);
            var o := CreateGateway(db, region, id, tags);
            o.Some? ==> DeleteGateway(o.value, region, id) == Some(db)
  {
    ReachedKeeps(calls);
    var db := Reached(calls);
    hide Run, Networks, Groups, Compute, EniGroups, Defaults, SubnetBlocks, PrivateIps, PublicAddresses, TagsStored;
    var o := CreateGateway(db, region, id, tags);
    if o.Some? {
      assert o.value.gateways - {id} == db.gateways;
      TagsGoWithTheirRow(db, o.value, GatewayRow(id), tags);
    }
  }

  lemma DeleteRouteTableUndoesCreate(calls: seq<Call>, region: string, vpc: Id, id: Id, tags: map<string, string>)
    ensures var db := Reached(calls);
            var o := CreateRouteTable(db, region, vpc, id, tags);
            o.Some? ==> DeleteRouteTable(o.value, region, id) == Some(db)
  {
    ReachedKeeps(calls);
    var db := Reached(calls);
    hide Run, Networks, Groups, Compute, EniGroups, Defaults, SubnetBlocks, PrivateIps, PublicAddresses, TagsStored;
    if CreateRouteTable(db, region, vpc, id, tags).Some? {
      var k, row := RouteKey(id, db.vpcs[vpc].cidr), RouteTable(region, vpc);
      var d := Tagged(db.(tables := db.tables[id := row], routes := db.routes[k := LOCAL_GATEWAY]), TableRow(id), tags);
      NewTableGoes(db, d, region, id, row, k);
      TagsGoWithTheirRow(db, d, TableRow(id), tags);
      hide Triggered, DeleteRouteTable;
    }
  }

  lemma NewTableGoes(db: Db, d: Db, region: string, id: Id, row: RouteTable, k: RouteKey)
    requires Networks(db.vpcs, db.subnets, db.gateways, db.tables, db.assocs, db.routes)
    requires id !in db.tables && k.table == id && row.region == region
    requires d == db.(tables := db.tables[id := row], routes := db.routes[k := LOCAL_GATEWAY], tags := d.tags)
    ensures DeleteRouteTable(d, region, id) == Some(Triggered(d, db.(tags := d.tags)))
  {
    assert d.tables - {id} == db.tables;
    assert AssocsOf(db.assocs, db.tables, db.subnets) == db.assocs;
    assert RoutesOf(d.routes, db.tables) == db.routes;
    hide Triggered;
  }

  /** One association per subnet, taken back by its id; a route by its destination. */
  lemma AssociationsAndRoutesAreUndone(calls: seq<Call>, region: string, table: Id, subnet: Id, assoc: Id,
                                       destination: string, gateway: string)
    ensures var db := Reached(calls);
            var o := AssociateRouteTable(db, region, table, subnet, assoc);
            o.Some? ==> DisassociateRouteTable(o.value, assoc) == Some(db) && AssociateRouteTable(o.value, region, table, subnet, assoc) == None
    ensures var db := Reached(calls);
            var o := CreateRoute(db, region, table, destination, gateway);
            o.Some? ==> (DeleteRoute(o.value, region, table, destination) == if gateway == LOCAL_GATEWAY then None else Some(db))
  {
    hide Run;
    var db := Reached(calls);
    var o, r := AssociateRouteTable(db, region, table, subnet, assoc), CreateRoute(db, region, table, destination, gateway);
    assert o.Some? ==> o.value.assocs - {assoc} == db.assocs;
    assert r.Some? ==> r.value.routes - {RouteKey(table, destination)} == db.routes;
  }

  // ----- groups -----

  lemma DeleteGroupUndoesCreate(calls: seq<Call>, region: string, vpc: Id, name: string, id: Id, tags: map<string, string>)
    ensures var db := Reached(calls);
            var o := CreateGroup(db, region, vpc, name, id, tags);
            o.Some? ==> DeleteGroup(o.value, region, id) == Some(db)
  {
    ReachedKeeps(calls);
    var db := Reached(calls);
    hide Run, Networks, Groups, Compute, EniGroups, Defaults, SubnetBlocks, PrivateIps, PublicAddresses, TagsStored;
    if CreateGroup(db, region, vpc, name, id, tags).Some? {
      var d := Tagged(db.(groups := db.groups[id := Group(region, vpc, name)]), GroupRow(id), tags);
      NewGroupGoes(db, d, region, id);
      TagsGoWithTheirRow(db, d, GroupRow(id), tags);
      hide Triggered, DeleteGroup;
    }
  }

  lemma NewGroupGoes(db: Db, d: Db, region: string, id: Id)
    requires Groups(db.vpcs, db.groups, db.rules) && EniGroups(db.groups, db.enis) && id !in db.groups
    requires GroupHere(d, region, id) && d.groups[id].name != DEFAULT_GROUP
    requires d == db.(groups := db.groups[id := d.groups[id]], tags := d.tags)
    ensures DeleteGroup(d, region, id) == Some(Triggered(d, db.(tags := d.tags)))
  {
    RulesAllStay(db.rules, db.groups);
    assert !Held(db.enis, id);
    assert d.groups - {id} == db.groups;
    hide Triggered, SR.WellOrdered;
  }

  /** A group an interface was just given cannot be deleted while it has it. */
  lemma HeldGroupsStay(db: Db, region: string, eni: Id, groups: seq<Id>, g: Id)
    ensures var o := SetGroups(db, region, eni, groups);
            o.Some? && g in groups ==> g in o.value.groups && DeleteGroup(o.value, region, g) == None
  {
    var o := SetGroups(db, region, eni, groups);
    if o.Some? && g in groups {
      assert g in o.value.enis[eni].groups;
    }
  }

  // ----- instances -----

  /** The guard alone decides whether a running instance may be terminated. */
  lemma GuardDecides(db: Db, region: string, id: Id, guarded: bool, ids: seq<Id>)
    requires id in ids
    ensures var o := SetGuard(db, region, id, guarded);
            o.Some? ==>
              && (guarded ==> EndAll(o.value, region, ids).Blamed?)
              && (!guarded && EndAll(o.value, region, ids).Blamed? ==> EndAll(o.value, region, ids).id != id)
              && (forall x :: x != id ==> (Refuses(o.value, region, x) <==> Refuses(db, region, x)))
  {
    var o := SetGuard(db, region, id, guarded);
    if o.Some? {
      EndAllAtOnce(o.value, region, ids);
      var k :| 0 <= k < |ids| && ids[k] == id;
      assert Refuses(o.value, region, ids[k]) <==> guarded;
    }
  }

  // ----- addresses -----

  lemma ReleaseUndoesAllocate(calls: seq<Call>, region: string, id: Id, tags: map<string, string>)
    ensures var db := Reached(calls);
            var o := Allocate(db, region, id, tags);
            o.Some? ==> Release(o.value, region, id) == Some(db)
  {
    ReachedKeeps(calls);
    hide Reached, Allocate, Release, Networks, Groups, Compute, EniGroups, Defaults, SubnetBlocks, PrivateIps, PublicAddresses;
    AllocatedGoes(Reached(calls), region, id, tags);
  }

  lemma AllocatedGoes(db: Db, region: string, id: Id, tags: map<string, string>)
    requires TagsStored(db)
    ensures var o := Allocate(db, region, id, tags);
            o.Some? ==> Release(o.value, region, id) == Some(db)
  {
    hide TagsStored, FreeIp, HeldIps, Derived;
    if Allocate(db, region, id, tags).Some? {
      var ip := FreeIp(Derived(EIP_NET, id), HeldIps(db.addresses, region)).value;
      var d := Tagged(db.(addresses := db.addresses[id := Address(region, ip, None)]), AddressRow(id), tags);
      NewAddressGoes(db, d, region, id);
      TagsGoWithTheirRow(db, d, AddressRow(id), tags);
      hide Triggered, Release;
    }
  }

  lemma NewAddressGoes(db: Db, d: Db, region: string, id: Id)
    requires id !in db.addresses && AddressHere(d, region, id) && d.addresses[id].on.None?
    requires d == db.(addresses := db.addresses[id := d.addresses[id]], tags := d.tags)
    ensures Release(d, region, id) == Some(Triggered(d, db.(tags := d.tags)))
  {
    assert d.addresses - {id} == db.addresses;
    hide Triggered;
  }

  /**
   * Disassociating an address just associated restores every table, but for the
   * public IP of an interface launched with an automatic one, which claims one afresh.
   */
  lemma DisassociateUndoesAssociate(calls: seq<Call>, region: string, id: Id, e: Id, assoc: Id)
    requires var db := Reached(calls);
             && AddressHere(db, region, id) && db.addresses[id].on.None? && e in db.enis && db.enis[e].region == region
             && Bare(db.addresses, e) && assoc != "" && forall a :: !Carries(db, region, a, assoc)
    ensures var db := Reached(calls);
            var row := db.enis[e];
            var claim := ClaimAuto(db.enis, region, e, row.auto);
            && Disassociate(Placed(db, id, e, assoc), region, assoc) ==
                 (if claim.None? then None else Some(db.(enis := db.enis[e := row.(publicIp := claim.value)])))
            && (!row.auto ==> Disassociate(Placed(db, id, e, assoc), region, assoc) == Some(db))
  {
    var db := Reached(calls);
    hide Run;
    var d := Placed(db, id, e, assoc);
    OnlyCarrier(db, region, id, e, assoc);
    PlacedClaims(db, region, id, e, assoc);
    AutoOnly(calls, e);
    hide ClaimAuto, Carries, AddressOf;
    assert d.addresses[id := d.addresses[id].(on := None)] == db.addresses;
    assert !db.enis[e].auto ==> db.enis[e := db.enis[e].(publicIp := None)] == db.enis;
    var claim := ClaimAuto(db.enis, region, e, db.enis[e].auto);
    if claim.Some? {
      assert d.enis[e := d.enis[e].(publicIp := claim.value)] == db.enis[e := db.enis[e].(publicIp := claim.value)];
    }
  }

  lemma AutoOnly(calls: seq<Call>, e: Id)
    ensures var db := Reached(calls);
            e in db.enis && Bare(db.addresses, e) && !db.enis[e].auto ==> db.enis[e].publicIp == None
  {
    ReachedKeeps(calls);
    hide Run, Networks, Groups, Compute, EniGroups, Defaults, SubnetBlocks, PrivateIps, TagsStored;
  }

  lemma OnlyCarrier(db: Db, region: string, id: Id, e: Id, assoc: Id)
    requires AddressHere(db, region, id) && e in db.enis && forall a :: !Carries(db, region, a, assoc)
    ensures var d := Placed(db, id, e, assoc); Carries(d, region, id, assoc) && AddressOf(d, region, assoc) == id
  {
    var d := Placed(db, id, e, assoc);
    assert Carries(d, region, id, assoc);
    forall a | Carries(d, region, a, assoc) ensures a == id {
      assert a != id ==> Carries(db, region, a, assoc);
    }
  }

  /** What an interface may claim does not depend on what it shows itself. */
  lemma PlacedClaims(db: Db, region: string, id: Id, e: Id, assoc: Id)
    requires id in db.addresses && e in db.enis
    ensures var d := Placed(db, id, e, assoc); ClaimAuto(d.enis, region, e, db.enis[e].auto) == ClaimAuto(db.enis, region, e, db.enis[e].auto)
  {
    var d := Placed(db, id, e, assoc);
    forall x ensures x in ShownIps(d.enis, region, e) <==> x in ShownIps(db.enis, region, e) {
      if x in ShownIps(db.enis, region, e) {
        var f :| f in db.enis && db.enis[f].region == region && f != e && db.enis[f].publicIp == Some(x);
        assert d.enis[f] == db.enis[f];
      }
    }
    assert ShownIps(d.enis, region, e) == ShownIps(db.enis, region, e);
  }

  // ----- tags -----

  /** The matches name exactly these tags, by key or by key and value. */
  ghost predicate MatchAll(matches: seq<TagMatch>, tags: map<string, string>) {
    && (forall m :: m in matches ==> m.key in tags && (m.value.Some? ==> m.value.value == tags[m.key]))
    && (forall s :: s in tags ==> exists m :: m in matches && m.key == s)
  }

  /** Deleting tags just created, none of whose keys were there, restores every tag. */
  lemma DeleteTagsUndoesCreate(db: Db, region: string, resources: set<Resource>, tags: map<string, string>, matches: seq<TagMatch>)
    requires MatchAll(matches, tags) && forall r, s :: r in resources && s in tags ==> TagKey(r, s) !in db.tags
    ensures var o := CreateTags(db, region, resources, tags);
            o.Some? ==> DeleteTags(o.value, region, resources, matches) == Some(db)
  {
    var o := CreateTags(db, region, resources, tags);
    if o.Some? {
      var d := o.value;
      assert forall r :: InRegion(d, region, r) == InRegion(db, region, r);
      hide InRegion, MatchAll, TagAll, Unselected;
      SelectedAreNew(db.tags, resources, tags, matches);
    }
  }

  lemma SelectedAreNew(before: map<TagKey, string>, resources: set<Resource>, tags: map<string, string>, matches: seq<TagMatch>)
    requires MatchAll(matches, tags) && forall r, s :: r in resources && s in tags ==> TagKey(r, s) !in before
    requires tags != map[]
    ensures Unselected(before + TagAll(resources, tags), resources, matches) == before
  {
    SomeMatch(matches, tags);
    var all := before + TagAll(resources, tags);
    var t := Unselected(all, resources, matches);
    forall k ensures k in t <==> k in before {
      MatchedOrNot(matches, tags, k.key, if k in all then all[k] else "");
      hide MatchAll;
      assert k.resource in resources && k.key in tags ==> TagKey(k.resource, k.key) == k;
    }
    assert t == before;
  }

  lemma MatchedOrNot(matches: seq<TagMatch>, tags: map<string, string>, key: string, value: string)
    requires MatchAll(matches, tags)
    ensures key in tags && value == tags[key] ==> exists m :: m in matches && Matches(m, key, value)
    ensures key !in tags ==> !exists m :: m in matches && Matches(m, key, value)
  {
    if key in tags && value == tags[key] {
      var m :| m in matches && m.key == key;
      assert Matches(m, key, value);
    }
  }

  lemma SomeMatch(matches: seq<TagMatch>, tags: map<string, string>)
    requires MatchAll(matches, tags) && tags != map[]
    ensures matches != []
  {
    var s :| s in tags;
    var m :| m in matches && m.key == s;
  }
}
