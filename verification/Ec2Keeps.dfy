/** Every request keeps the invariant: one lemma per request, one group of tables at a time. */
module Ec2Keeps {
  import opened Options
  import opened Net
  import opened Ec2Schema
  import opened Ec2Ops
  import SR = SecurityRules

  // ----- tags -----

  lemma TaggingKeeps(db: Db, r: Resource, tags: map<string, string>)
    requires TagsStored(db) && Stored(db, r)
    ensures TagsStored(Tagged(db, r, tags))
  {
    var t := Tagged(db, r, tags);
    forall k | k in t.tags ensures Stored(t, k.resource) {
      assert k in db.tags || k in TagMap(r, tags);
    }
  }

  lemma TaggingKeepsInv(db: Db, r: Resource, tags: map<string, string>)
    requires Inv(db) && Stored(db, r)
    ensures Inv(Tagged(db, r, tags))
  {
    hide Networks, Groups, Compute, EniGroups, Defaults, SubnetBlocks, PrivateIps, PublicAddresses, TagsStored;
    TaggingKeeps(db, r, tags);
  }

  /** Nothing stored is lost on the way from `a` to `b`. */
  ghost predicate Grows(a: Db, b: Db) {
    b.tags == a.tags && forall r :: Stored(a, r) ==> Stored(b, r)
  }

  lemma GrowingKeepsTags(a: Db, b: Db)
    requires TagsStored(a) && Grows(a, b)
    ensures TagsStored(b)
  {
  }

  /** A trigger fires for each row deleted, so no tag outlives its resource. */
  lemma TriggersKeepTags(before: Db, after: Db)
    requires TagsStored(before) && after.tags == before.tags
    ensures TagsStored(Triggered(before, after))
  {
  }

  lemma TagsDoNotStore(db: Db, tags: map<TagKey, string>, r: Resource)
    ensures Stored(db.(tags := tags), r) == Stored(db, r)
  {
  }

  /** Tags may change freely on stored resources. */
  lemma RetaggingKeeps(db: Db, tags: map<TagKey, string>)
    requires Inv(db) && forall k :: k in tags ==> Stored(db, k.resource)
    ensures Inv(db.(tags := tags))
  {
    hide Networks, Groups, Compute, EniGroups, Defaults, SubnetBlocks, PrivateIps, PublicAddresses, Stored;
    forall k | k in tags ensures Stored(db.(tags := tags), k.resource) {
      TagsDoNotStore(db, tags, k.resource);
    }
  }

  lemma TagsAreStored(db: Db)
    requires Inv(db)
    ensures TagsStored(db)
  {
  }

  lemma HereIsStored(db: Db, region: string, r: Resource)
    requires InRegion(db, region, r)
    ensures Stored(db, r)
  {
  }

  lemma CreateTagsKeeps(db: Db, region: string, resources: set<Resource>, tags: map<string, string>)
    requires Inv(db)
    ensures var o := CreateTags(db, region, resources, tags); o.Some? ==> Inv(o.value)
  {
    TagsAreStored(db);
    hide Inv, Stored, InRegion;
    var o := CreateTags(db, region, resources, tags);
    if o.Some? {
      forall k | k in o.value.tags ensures Stored(db, k.resource) {
        if k !in db.tags {
          HereIsStored(db, region, k.resource);
        }
      }
      RetaggingKeeps(db, o.value.tags);
    }
  }

  lemma DeleteTagsKeeps(db: Db, region: string, resources: set<Resource>, matches: seq<TagMatch>)
    requires Inv(db)
    ensures var o := DeleteTags(db, region, resources, matches); o.Some? ==> Inv(o.value)
  {
    TagsAreStored(db);
    hide Inv, Stored, InRegion, Matches;
    var o := DeleteTags(db, region, resources, matches);
    if o.Some? {
      RetaggingKeeps(db, o.value.tags);
    }
  }

  // ----- VPCs -----

  lemma NewVpcNetworks(db: Db, region: string, cidr: string, net: ValidPrefix, id: Id, group: Id, table: Id, assoc: Id)
    requires Networks(db.vpcs, db.subnets, db.gateways, db.tables, db.assocs, db.routes)
    requires id !in db.vpcs && table !in db.tables && assoc !in db.assocs
    ensures var d := WithVpc(db, region, cidr, net, id, group, table, assoc);
            Networks(d.vpcs, d.subnets, d.gateways, d.tables, d.assocs, d.routes)
  {
  }

  lemma NewVpcGroups(db: Db, region: string, cidr: string, net: ValidPrefix, id: Id, group: Id, table: Id, assoc: Id)
    requires Groups(db.vpcs, db.groups, db.rules) && EniGroups(db.groups, db.enis)
    requires id !in db.vpcs && group !in db.groups
    ensures var d := WithVpc(db, region, cidr, net, id, group, table, assoc);
            Groups(d.vpcs, d.groups, d.rules) && EniGroups(d.groups, d.enis)
  {
    hide SR.WellOrdered;
  }

  lemma NewVpcDefaultGroups(db: Db, row: Vpc, id: Id, region: string, group: Id)
    requires DefaultGroups(db.vpcs, db.groups) && group !in db.groups
    ensures DefaultGroups(db.vpcs[id := row], db.groups[group := Group(region, id, DEFAULT_GROUP)])
  {
    var groups := db.groups[group := Group(region, id, DEFAULT_GROUP)];
    forall v | v in db.vpcs[id := row] ensures HasDefaultGroup(groups, v) {
      if v == id {
        assert groups[group].vpc == v;
      } else {
        var g :| g in db.groups && db.groups[g].vpc == v && db.groups[g].name == DEFAULT_GROUP;
        assert g in groups && groups[g] == db.groups[g];
      }
    }
  }

  lemma NewVpcMain(db: Db, row: Vpc, id: Id, assoc: Id, main: Association)
    requires OneMain(db.assocs) && MainTables(db.vpcs, db.assocs)
    requires assoc !in db.assocs && !HasMain(db.assocs, id) && main.vpc == id && main.main
    ensures OneMain(db.assocs[assoc := main]) && MainTables(db.vpcs[id := row], db.assocs[assoc := main])
  {
    var assocs := db.assocs[assoc := main];
    forall v | v in db.vpcs[id := row] ensures HasMain(assocs, v) {
      if v == id {
        assert assocs[assoc].vpc == v;
      } else {
        var a :| a in db.assocs && db.assocs[a].vpc == v && db.assocs[a].main;
        assert a in assocs && assocs[a] == db.assocs[a];
      }
    }
  }

  lemma NewVpcLocalRoutes(db: Db, row: Vpc, id: Id, table: Id, main: RouteTable)
    requires TablesIn(db.vpcs, db.tables) && LocalRoutes(db.vpcs, db.tables, db.routes)
    requires id !in db.vpcs && table !in db.tables && main.vpc == id
    ensures LocalRoutes(db.vpcs[id := row], db.tables[table := main], db.routes[RouteKey(table, row.cidr) := LOCAL_GATEWAY])
  {
  }

  lemma NewVpcDefaults(db: Db, region: string, cidr: string, net: ValidPrefix, id: Id, group: Id, table: Id, assoc: Id)
    requires Defaults(db.vpcs, db.groups, db.tables, db.assocs, db.routes) && TablesIn(db.vpcs, db.tables)
    requires id !in db.vpcs && group !in db.groups && table !in db.tables && assoc !in db.assocs
    requires !HasMain(db.assocs, id)
    ensures var d := WithVpc(db, region, cidr, net, id, group, table, assoc);
            Defaults(d.vpcs, d.groups, d.tables, d.assocs, d.routes)
  {
    hide DefaultGroups, OneMain, MainTables, LocalRoutes, HasMain, TablesIn;
    var row := Vpc(region, cidr, net);
    NewVpcDefaultGroups(db, row, id, region, group);
    NewVpcMain(db, row, id, assoc, Association(table, id, None, true));
    NewVpcLocalRoutes(db, row, id, table, RouteTable(region, id));
  }

  lemma TablesInVpcs(db: Db)
    requires Networks(db.vpcs, db.subnets, db.gateways, db.tables, db.assocs, db.routes)
    ensures TablesIn(db.vpcs, db.tables)
  {
  }

  lemma NewVpcBlocks(db: Db, region: string, cidr: string, net: ValidPrefix, id: Id)
    requires Networks(db.vpcs, db.subnets, db.gateways, db.tables, db.assocs, db.routes)
    requires SubnetBlocks(db.vpcs, db.subnets) && id !in db.vpcs
    ensures SubnetBlocks(db.vpcs[id := Vpc(region, cidr, net)], db.subnets)
  {
  }

  lemma WithVpcKeeps(db: Db, region: string, cidr: string, net: ValidPrefix, id: Id, group: Id, table: Id, assoc: Id)
    requires Inv(db)
    requires id !in db.vpcs && group !in db.groups && table !in db.tables && assoc !in db.assocs && !HasMain(db.assocs, id)
    ensures Inv(WithVpc(db, region, cidr, net, id, group, table, assoc))
  {
    hide Networks, Groups, Compute, EniGroups, Defaults, SubnetBlocks, PrivateIps, PublicAddresses, TagsStored, HasMain, TablesIn;
    NewVpcNetworks(db, region, cidr, net, id, group, table, assoc);
    NewVpcGroups(db, region, cidr, net, id, group, table, assoc);
    TablesInVpcs(db);
    NewVpcDefaults(db, region, cidr, net, id, group, table, assoc);
    NewVpcBlocks(db, region, cidr, net, id);
    GrowingKeepsTags(db, WithVpc(db, region, cidr, net, id, group, table, assoc));
  }

  lemma CreateVpcKeeps(db: Db, region: string, cidr: string, net: ValidPrefix, id: Id, group: Id, table: Id, assoc: Id,
                       tags: map<string, string>)
    requires Inv(db)
    ensures var o := CreateVpc(db, region, cidr, net, id, group, table, assoc, tags); o.Some? ==> Inv(o.value)
  {
    hide Inv, HasMain, HasDefaultGroup, Tagged;
    if CreateVpc(db, region, cidr, net, id, group, table, assoc, tags).Some? {
      WithVpcKeeps(db, region, cidr, net, id, group, table, assoc);
      TaggingKeepsInv(WithVpc(db, region, cidr, net, id, group, table, assoc), VpcRow(id), tags);
    }
    hide Inv;
  }

  lemma {:induction false} RulesOfKeepsOrder(rules: SR.Table, groups: map<Id, Group>)
    requires SR.WellOrdered(rules)
    ensures SR.WellOrdered(RulesOf(rules, groups))
  {
    if rules != [] {
      RulesOfKeepsOrder(rules[1..], groups);
      var rest := RulesOf(rules[1..], groups);
      forall r | r in rest ensures SR.Compatible(rules[0], r) {
        var j :| 0 <= j < |rules[1..]| && rules[1..][j] == r;
        assert SR.Compatible(rules[0], rules[j + 1]);
      }
    }
  }

  lemma LostVpcNetworks(db: Db, id: Id)
    requires Networks(db.vpcs, db.subnets, db.gateways, db.tables, db.assocs, db.routes)
    ensures var d := WithoutVpc(db, id); Networks(d.vpcs, d.subnets, d.gateways, d.tables, d.assocs, d.routes)
  {
  }

  /** Groups deleted with their rules leave the others as they were. */
  lemma LostGroups(vpcs: map<Id, Vpc>, groups: map<Id, Group>, rules: SR.Table, vpcs': map<Id, Vpc>, groups': map<Id, Group>)
    requires Groups(vpcs, groups, rules)
    requires forall g :: g in groups' ==> g in groups && groups'[g] == groups[g] && (groups[g].vpc in vpcs ==> groups[g].vpc in vpcs')
    ensures Groups(vpcs', groups', RulesOf(rules, groups'))
  {
    RulesOfKeepsOrder(rules, groups');
    hide SR.WellOrdered;
  }

  /** An unoccupied VPC's groups are no interface's. */
  lemma LostVpcFreesGroups(db: Db, id: Id)
    requires EniGroups(db.groups, db.enis) && Compute(db.subnets, db.instances, db.enis)
    requires forall s :: s in db.subnets && db.subnets[s].vpc == id ==> !Occupied(db, s)
    ensures EniGroups(WithoutVpc(db, id).groups, db.enis)
    ensures Compute(WithoutVpc(db, id).subnets, db.instances, db.enis)
  {
    forall e | e in db.enis ensures db.enis[e].vpc != id {
      assert db.subnets[db.enis[e].subnet].vpc == db.enis[e].vpc;
    }
  }

  lemma LostVpcDefaultGroups(db: Db, id: Id)
    requires DefaultGroups(db.vpcs, db.groups)
    ensures DefaultGroups(db.vpcs - {id}, WithoutVpc(db, id).groups)
  {
    var groups := WithoutVpc(db, id).groups;
    forall v | v in db.vpcs - {id} ensures HasDefaultGroup(groups, v) {
      var g :| g in db.groups && db.groups[g].vpc == v && db.groups[g].name == DEFAULT_GROUP;
      assert g in groups && groups[g] == db.groups[g];
    }
  }

  lemma LostVpcMain(db: Db, id: Id)
    requires AssocsIn(db.tables, db.subnets, db.assocs) && OneMain(db.assocs) && MainTables(db.vpcs, db.assocs)
    ensures OneMain(WithoutVpc(db, id).assocs) && MainTables(db.vpcs - {id}, WithoutVpc(db, id).assocs)
  {
    var assocs := WithoutVpc(db, id).assocs;
    forall v | v in db.vpcs - {id} ensures HasMain(assocs, v) {
      var a :| a in db.assocs && db.assocs[a].vpc == v && db.assocs[a].main;
      assert a in assocs && assocs[a] == db.assocs[a];
    }
  }

  lemma LostVpcLocalRoutes(db: Db, id: Id)
    requires LocalRoutes(db.vpcs, db.tables, db.routes)
    ensures var d := WithoutVpc(db, id); LocalRoutes(d.vpcs, d.tables, d.routes)
  {
    var d := WithoutVpc(db, id);
    forall t | t in d.tables && d.tables[t].vpc in d.vpcs
      ensures var k := RouteKey(t, d.vpcs[d.tables[t].vpc].cidr); k in d.routes && d.routes[k] == LOCAL_GATEWAY
    {
      var k := RouteKey(t, db.vpcs[db.tables[t].vpc].cidr);
      assert k in db.routes;
    }
  }

  lemma LostVpcDefaults(db: Db, id: Id)
    requires Networks(db.vpcs, db.subnets, db.gateways, db.tables, db.assocs, db.routes)
    requires Defaults(db.vpcs, db.groups, db.tables, db.assocs, db.routes)
    ensures var d := WithoutVpc(db, id); Defaults(d.vpcs, d.groups, d.tables, d.assocs, d.routes)
  {
    hide DefaultGroups, OneMain, MainTables, LocalRoutes, AssocsIn, TablesIn, SubnetsIn, GatewaysIn, RoutesIn;
    LostVpcDefaultGroups(db, id);
    LostVpcMain(db, id);
    LostVpcLocalRoutes(db, id);
  }

  lemma LostVpcBlocks(db: Db, id: Id)
    requires SubnetBlocks(db.vpcs, db.subnets)
    ensures SubnetBlocks(db.vpcs - {id}, WithoutVpc(db, id).subnets)
  {
  }

  lemma LostSubnetsKeepPrivateIps(subnets: map<Id, Subnet>, less: map<Id, Subnet>, enis: map<Id, Eni>)
    requires PrivateIps(subnets, enis) && forall s :: s in less ==> s in subnets && less[s] == subnets[s]
    ensures PrivateIps(less, enis)
  {
  }

  lemma DeleteVpcKeeps(db: Db, region: string, id: Id)
    requires Inv(db)
    ensures var o := DeleteVpc(db, region, id); o.Some? ==> Inv(o.value)
  {
    hide Networks, Groups, Compute, EniGroups, Defaults, SubnetBlocks, PrivateIps, PublicAddresses, TagsStored;
    var o := DeleteVpc(db, region, id);
    if o.Some? {
      var d := WithoutVpc(db, id);
      LostVpcNetworks(db, id);
      LostGroups(db.vpcs, db.groups, db.rules, d.vpcs, d.groups);
      LostVpcFreesGroups(db, id);
      LostVpcDefaults(db, id);
      LostVpcBlocks(db, id);
      LostSubnetsKeepPrivateIps(db.subnets, d.subnets, db.enis);
      TriggersKeepTags(db, d);
    }
  }

  // ----- subnets -----

  lemma NewSubnetNetworks(db: Db, region: string, vpc: Id, net: ValidPrefix, id: Id)
    requires Networks(db.vpcs, db.subnets, db.gateways, db.tables, db.assocs, db.routes)
    requires vpc in db.vpcs && db.vpcs[vpc].region == region && id !in db.subnets
    ensures Networks(db.vpcs, db.subnets[id := Subnet(region, vpc, net)], db.gateways, db.tables, db.assocs, db.routes)
  {
  }

  lemma NewSubnetCompute(db: Db, row: Subnet, id: Id)
    requires Compute(db.subnets, db.instances, db.enis) && PrivateIps(db.subnets, db.enis) && id !in db.subnets
    ensures Compute(db.subnets[id := row], db.instances, db.enis) && PrivateIps(db.subnets[id := row], db.enis)
  {
  }

  lemma NewSubnetBlocks(db: Db, region: string, vpc: Id, net: ValidPrefix, id: Id)
    requires SubnetBlocks(db.vpcs, db.subnets) && vpc in db.vpcs && id !in db.subnets
    requires InRange(db.vpcs[vpc].net, net)
    requires forall s :: s in db.subnets && db.subnets[s].vpc == vpc ==> db.subnets[s].net.Prefix? && !Overlaps(db.subnets[s].net, net)
    ensures SubnetBlocks(db.vpcs, db.subnets[id := Subnet(region, vpc, net)])
  {
    forall s | s in db.subnets && db.subnets[s].vpc == vpc ensures !Overlaps(net, db.subnets[s].net) {
      OverlapIsShared(db.subnets[s].net, net);
    }
  }

  lemma CreateSubnetKeeps(db: Db, region: string, vpc: Id, net: ValidPrefix, id: Id, tags: map<string, string>)
    requires Inv(db)
    ensures var o := CreateSubnet(db, region, vpc, net, id, tags); o.Some? ==> Inv(o.value)
  {
    hide Networks, Groups, Compute, EniGroups, Defaults, SubnetBlocks, PrivateIps, PublicAddresses, TagsStored;
    var o := CreateSubnet(db, region, vpc, net, id, tags);
    if o.Some? {
      var d := db.(subnets := db.subnets[id := Subnet(region, vpc, net)]);
      NewSubnetNetworks(db, region, vpc, net, id);
      NewSubnetCompute(db, Subnet(region, vpc, net), id);
      NewSubnetBlocks(db, region, vpc, net, id);
      GrowingKeepsTags(db, d);
      TaggingKeeps(d, SubnetRow(id), tags);
    }
  }

  /** Terminated instances have no interface, so purging them touches nothing else. */
  lemma PurgeKeepsCompute(db: Db, gone: set<Id>)
    requires Compute(db.subnets, db.instances, db.enis)
    requires forall i :: i in gone ==> i in db.instances && db.instances[i].state == Terminated
    ensures WithoutInstances(db, gone).enis == db.enis
    ensures Compute(db.subnets, WithoutInstances(db, gone).instances, db.enis)
  {
    var d := WithoutInstances(db, gone);
    forall i | i in d.instances && d.instances[i].state == Running ensures HasEni(db.enis, i) {
      assert db.instances[i].state == Running;
    }
  }

  lemma CollectedKeeps(db: Db, region: string, subnet: Id)
    requires Inv(db)
    ensures Inv(Collected(db, region, subnet))
  {
    hide Networks, Groups, Compute, EniGroups, Defaults, SubnetBlocks, PrivateIps, PublicAddresses, TagsStored;
    var gone := set i | i in db.instances && Collectable(db, region, subnet, i);
    PurgeKeepsCompute(db, gone);
    TriggersKeepTags(db, db.(instances := db.instances - gone, enis := EnisBut(db.enis, gone)));
  }

  lemma LostSubnetNetworks(db: Db, id: Id)
    requires Networks(db.vpcs, db.subnets, db.gateways, db.tables, db.assocs, db.routes)
    ensures Networks(db.vpcs, db.subnets - {id}, db.gateways, db.tables, AssocsOf(db.assocs, db.tables, db.subnets - {id}), db.routes)
  {
  }

  lemma LostSubnetCompute(db: Db, id: Id)
    requires Compute(db.subnets, db.instances, db.enis) && !Occupied(db, id)
    ensures Compute(db.subnets - {id}, db.instances, db.enis)
  {
  }

  /** Main associations have no subnet, so none goes with one. */
  lemma LostSubnetDefaults(db: Db, id: Id)
    requires Networks(db.vpcs, db.subnets, db.gateways, db.tables, db.assocs, db.routes)
    requires Defaults(db.vpcs, db.groups, db.tables, db.assocs, db.routes)
    ensures Defaults(db.vpcs, db.groups, db.tables, AssocsOf(db.assocs, db.tables, db.subnets - {id}), db.routes)
  {
    var assocs := AssocsOf(db.assocs, db.tables, db.subnets - {id});
    forall v | v in db.vpcs ensures HasMain(assocs, v) {
      var a :| a in db.assocs && db.assocs[a].vpc == v && db.assocs[a].main;
      assert a in assocs && assocs[a] == db.assocs[a];
    }
  }

  lemma LostSubnetBlocks(db: Db, id: Id)
    requires SubnetBlocks(db.vpcs, db.subnets)
    ensures SubnetBlocks(db.vpcs, db.subnets - {id})
  {
  }

  lemma WithoutSubnetKeeps(db: Db, id: Id)
    requires Inv(db)
    ensures var o := WithoutSubnet(db, id); o.Some? ==> Inv(o.value)
  {
    hide Networks, Groups, Compute, EniGroups, Defaults, SubnetBlocks, PrivateIps, PublicAddresses, TagsStored;
    if !Occupied(db, id) {
      var subnets := db.subnets - {id};
      LostSubnetNetworks(db, id);
      LostSubnetCompute(db, id);
      LostSubnetDefaults(db, id);
      LostSubnetBlocks(db, id);
      LostSubnetsKeepPrivateIps(db.subnets, subnets, db.enis);
      TriggersKeepTags(db, db.(subnets := subnets, assocs := AssocsOf(db.assocs, db.tables, subnets)));
    }
  }

  lemma DeleteSubnetKeeps(db: Db, region: string, id: Id)
    requires Inv(db)
    ensures Inv(DeleteSubnet(db, region, id).0)
  {
    CollectedKeeps(db, region, id);
    WithoutSubnetKeeps(Collected(db, region, id), id);
    hide Inv;
  }

  // ----- internet gateways -----

  lemma GatewayNetworks(db: Db, id: Id, row: Gateway)
    requires Networks(db.vpcs, db.subnets, db.gateways, db.tables, db.assocs, db.routes)
    requires row.vpc.Some? ==> row.vpc.value in db.vpcs
    ensures Networks(db.vpcs, db.subnets, db.gateways[id := row], db.tables, db.assocs, db.routes)
    ensures Networks(db.vpcs, db.subnets, db.gateways - {id}, db.tables, db.assocs, db.routes)
  {
  }

  lemma CreateGatewayKeeps(db: Db, region: string, id: Id, tags: map<string, string>)
    requires Inv(db)
    ensures var o := CreateGateway(db, region, id, tags); o.Some? ==> Inv(o.value)
  {
    hide Networks, Groups, Compute, EniGroups, Defaults, SubnetBlocks, PrivateIps, PublicAddresses, TagsStored;
    var o := CreateGateway(db, region, id, tags);
    if o.Some? {
      var d := db.(gateways := db.gateways[id := Gateway(region, None)]);
      GatewayNetworks(db, id, Gateway(region, None));
      GrowingKeepsTags(db, d);
      TaggingKeeps(d, GatewayRow(id), tags);
    }
  }

  lemma MoveGatewayKeeps(db: Db, region: string, id: Id, vpc: Id)
    requires Inv(db)
    ensures var o := AttachGateway(db, region, id, vpc); o.Some? ==> Inv(o.value)
    ensures var o := DetachGateway(db, region, id); o.Some? ==> Inv(o.value)
  {
    hide Networks, Groups, Compute, EniGroups, Defaults, SubnetBlocks, PrivateIps, PublicAddresses, TagsStored;
    if GatewayHere(db, region, id) {
      var free := db.gateways[id].(vpc := None);
      GatewayNetworks(db, id, free);
      GrowingKeepsTags(db, db.(gateways := db.gateways[id := free]));
      if vpc in db.vpcs {
        var held := db.gateways[id].(vpc := Some(vpc));
        GatewayNetworks(db, id, held);
        GrowingKeepsTags(db, db.(gateways := db.gateways[id := held]));
      }
    }
  }

  lemma DeleteGatewayKeeps(db: Db, region: string, id: Id)
    requires Inv(db)
    ensures var o := DeleteGateway(db, region, id); o.Some? ==> Inv(o.value)
  {
    hide Networks, Groups, Compute, EniGroups, Defaults, SubnetBlocks, PrivateIps, PublicAddresses, TagsStored;
    GatewayNetworks(db, id, Gateway(region, None));
    TriggersKeepTags(db, db.(gateways := db.gateways - {id}));
  }

  // ----- route tables -----

  lemma NewTableNetworks(db: Db, region: string, vpc: Id, id: Id, k: RouteKey)
    requires Networks(db.vpcs, db.subnets, db.gateways, db.tables, db.assocs, db.routes)
    requires vpc in db.vpcs && id !in db.tables && k.table == id
    ensures Networks(db.vpcs, db.subnets, db.gateways, db.tables[id := RouteTable(region, vpc)], db.assocs, db.routes[k := LOCAL_GATEWAY])
  {
  }

  lemma NewTableDefaults(db: Db, region: string, vpc: Id, id: Id)
    requires Defaults(db.vpcs, db.groups, db.tables, db.assocs, db.routes)
    requires vpc in db.vpcs && id !in db.tables && RouteKey(id, db.vpcs[vpc].cidr) !in db.routes
    ensures Defaults(db.vpcs, db.groups, db.tables[id := RouteTable(region, vpc)], db.assocs,
                     db.routes[RouteKey(id, db.vpcs[vpc].cidr) := LOCAL_GATEWAY])
  {
  }

  lemma CreateRouteTableKeeps(db: Db, region: string, vpc: Id, id: Id, tags: map<string, string>)
    requires Inv(db)
    ensures var o := CreateRouteTable(db, region, vpc, id, tags); o.Some? ==> Inv(o.value)
  {
    hide Networks, Groups, Compute, EniGroups, Defaults, SubnetBlocks, PrivateIps, PublicAddresses, TagsStored;
    var o := CreateRouteTable(db, region, vpc, id, tags);
    if o.Some? {
      var k := RouteKey(id, db.vpcs[vpc].cidr);
      var d := db.(tables := db.tables[id := RouteTable(region, vpc)], routes := db.routes[k := LOCAL_GATEWAY]);
      NewTableNetworks(db, region, vpc, id, k);
      NewTableDefaults(db, region, vpc, id);
      GrowingKeepsTags(db, d);
      TaggingKeeps(d, TableRow(id), tags);
    }
  }

  lemma LostTableNetworks(db: Db, id: Id)
    requires Networks(db.vpcs, db.subnets, db.gateways, db.tables, db.assocs, db.routes)
    ensures var t := db.tables - {id};
            Networks(db.vpcs, db.subnets, db.gateways, t, AssocsOf(db.assocs, t, db.subnets), RoutesOf(db.routes, t))
  {
  }

  lemma LostTableMain(db: Db, id: Id)
    requires AssocsIn(db.tables, db.subnets, db.assocs) && OneMain(db.assocs) && MainTables(db.vpcs, db.assocs)
    requires forall a :: a in db.assocs && db.assocs[a].table == id ==> !db.assocs[a].main
    ensures var assocs := AssocsOf(db.assocs, db.tables - {id}, db.subnets); OneMain(assocs) && MainTables(db.vpcs, assocs)
  {
    var assocs := AssocsOf(db.assocs, db.tables - {id}, db.subnets);
    forall v | v in db.vpcs ensures HasMain(assocs, v) {
      var a :| a in db.assocs && db.assocs[a].vpc == v && db.assocs[a].main;
      assert a in assocs && assocs[a] == db.assocs[a];
    }
  }

  lemma LostTableRoutes(db: Db, id: Id)
    requires LocalRoutes(db.vpcs, db.tables, db.routes)
    ensures LocalRoutes(db.vpcs, db.tables - {id}, RoutesOf(db.routes, db.tables - {id}))
  {
  }

  lemma LostTable(db: Db, id: Id)
    requires Networks(db.vpcs, db.subnets, db.gateways, db.tables, db.assocs, db.routes)
    requires Defaults(db.vpcs, db.groups, db.tables, db.assocs, db.routes)
    requires forall a :: a in db.assocs && db.assocs[a].table == id ==> !db.assocs[a].main
    ensures var t := db.tables - {id};
            Networks(db.vpcs, db.subnets, db.gateways, t, AssocsOf(db.assocs, t, db.subnets), RoutesOf(db.routes, t))
    ensures var t := db.tables - {id};
            Defaults(db.vpcs, db.groups, t, AssocsOf(db.assocs, t, db.subnets), RoutesOf(db.routes, t))
  {
    hide DefaultGroups, OneMain, MainTables, LocalRoutes, AssocsIn, TablesIn, SubnetsIn, GatewaysIn, RoutesIn, AssocsOf, RoutesOf;
    LostTableNetworks(db, id);
    LostTableMain(db, id);
    LostTableRoutes(db, id);
  }

  lemma DeleteRouteTableKeeps(db: Db, region: string, id: Id)
    requires Inv(db)
    ensures var o := DeleteRouteTable(db, region, id); o.Some? ==> Inv(o.value)
  {
    hide Networks, Groups, Compute, EniGroups, Defaults, SubnetBlocks, PrivateIps, PublicAddresses, TagsStored;
    var o := DeleteRouteTable(db, region, id);
    if o.Some? {
      var tables := db.tables - {id};
      LostTable(db, id);
      TriggersKeepTags(db, db.(tables := tables, assocs := AssocsOf(db.assocs, tables, db.subnets), routes := RoutesOf(db.routes, tables)));
    }
  }

  lemma NewAssociation(db: Db, table: Id, subnet: Id, id: Id)
    requires Networks(db.vpcs, db.subnets, db.gateways, db.tables, db.assocs, db.routes)
    requires Defaults(db.vpcs, db.groups, db.tables, db.assocs, db.routes)
    requires table in db.tables && subnet in db.subnets && id !in db.assocs
    requires forall a :: a in db.assocs ==> db.assocs[a].subnet != Some(subnet)
    ensures var assocs := db.assocs[id := Association(table, db.tables[table].vpc, Some(subnet), false)];
            && Networks(db.vpcs, db.subnets, db.gateways, db.tables, assocs, db.routes)
            && Defaults(db.vpcs, db.groups, db.tables, assocs, db.routes)
  {
    var assocs := db.assocs[id := Association(table, db.tables[table].vpc, Some(subnet), false)];
    forall v | v in db.vpcs ensures HasMain(assocs, v) {
      var a :| a in db.assocs && db.assocs[a].vpc == v && db.assocs[a].main;
      assert a in assocs && assocs[a] == db.assocs[a];
    }
  }

  lemma AssociateRouteTableKeeps(db: Db, region: string, table: Id, subnet: Id, id: Id)
    requires Inv(db)
    ensures var o := AssociateRouteTable(db, region, table, subnet, id); o.Some? ==> Inv(o.value)
  {
    hide Networks, Groups, Compute, EniGroups, Defaults, SubnetBlocks, PrivateIps, PublicAddresses, TagsStored;
    var o := AssociateRouteTable(db, region, table, subnet, id);
    if o.Some? {
      NewAssociation(db, table, subnet, id);
      GrowingKeepsTags(db, o.value);
    }
  }

  lemma LostAssociation(db: Db, id: Id)
    requires Networks(db.vpcs, db.subnets, db.gateways, db.tables, db.assocs, db.routes)
    requires Defaults(db.vpcs, db.groups, db.tables, db.assocs, db.routes)
    requires id in db.assocs && !db.assocs[id].main
    ensures Networks(db.vpcs, db.subnets, db.gateways, db.tables, db.assocs - {id}, db.routes)
    ensures Defaults(db.vpcs, db.groups, db.tables, db.assocs - {id}, db.routes)
  {
    var assocs := db.assocs - {id};
    forall v | v in db.vpcs ensures HasMain(assocs, v) {
      var a :| a in db.assocs && db.assocs[a].vpc == v && db.assocs[a].main;
      assert a in assocs && assocs[a] == db.assocs[a];
    }
  }

  lemma DisassociateRouteTableKeeps(db: Db, id: Id)
    requires Inv(db)
    ensures var o := DisassociateRouteTable(db, id); o.Some? ==> Inv(o.value)
  {
    hide Networks, Groups, Compute, EniGroups, Defaults, SubnetBlocks, PrivateIps, PublicAddresses, TagsStored;
    var o := DisassociateRouteTable(db, id);
    if o.Some? {
      LostAssociation(db, id);
      GrowingKeepsTags(db, o.value);
    }
  }

  lemma RouteChanges(db: Db, k: RouteKey, gateway: string)
    requires Networks(db.vpcs, db.subnets, db.gateways, db.tables, db.assocs, db.routes)
    requires Defaults(db.vpcs, db.groups, db.tables, db.assocs, db.routes)
    ensures k.table in db.tables && k !in db.routes ==>
              && Networks(db.vpcs, db.subnets, db.gateways, db.tables, db.assocs, db.routes[k := gateway])
              && Defaults(db.vpcs, db.groups, db.tables, db.assocs, db.routes[k := gateway])
    ensures k in db.routes && db.routes[k] != LOCAL_GATEWAY ==>
              && Networks(db.vpcs, db.subnets, db.gateways, db.tables, db.assocs, db.routes - {k})
              && Defaults(db.vpcs, db.groups, db.tables, db.assocs, db.routes - {k})
  {
  }

  lemma RoutesKeep(db: Db, region: string, table: Id, destination: string, gateway: string)
    requires Inv(db)
    ensures var o := CreateRoute(db, region, table, destination, gateway); o.Some? ==> Inv(o.value)
    ensures var o := DeleteRoute(db, region, table, destination); o.Some? ==> Inv(o.value)
  {
    hide Networks, Groups, Compute, EniGroups, Defaults, SubnetBlocks, PrivateIps, PublicAddresses, TagsStored;
    var k := RouteKey(table, destination);
    RouteChanges(db, k, gateway);
    GrowingKeepsTags(db, db.(routes := db.routes[k := gateway]));
    GrowingKeepsTags(db, db.(routes := db.routes - {k}));
  }
}
