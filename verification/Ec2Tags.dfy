/**
 * Which tags a request loses. The drop-tags triggers fire on every row deleted,
 * by a cascade too, so in a reachable state a tag goes exactly with its resource.
 */
module Ec2Tags {
  import opened Options
  import opened Net
  import opened PublicIps
  import opened Ec2Schema
  import opened Ec2Ops
  import opened Ec2Keeps
  import opened Ec2ComputeKeeps
  import opened Ec2Runs
  import SR = SecurityRules

  /** Every earlier tag is kept, with its value, exactly when its resource is still stored. */
  ghost predicate Follow(before: Db, after: Db) {
    forall k :: k in before.tags ==>
      && (k in after.tags <==> Stored(after, k.resource))
      && (k in after.tags ==> after.tags[k] == before.tags[k])
  }

  // ----- the three ways a request treats tags -----

  lemma TriggersFollow(before: Db, after: Db)
    requires TagsStored(before) && after.tags == before.tags
    ensures Follow(before, Triggered(before, after))
  {
    hide Stored;
    var d := Triggered(before, after);
    forall k | k in before.tags ensures Stored(d, k.resource) == Stored(after, k.resource) {
      TagsDoNotStore(after, d.tags, k.resource);
    }
  }

  lemma GrowthFollows(before: Db, after: Db)
    requires TagsStored(before) && Grows(before, after)
    ensures Follow(before, after)
  {
    hide Stored;
  }

  /** Rows may change and come to tables whose tags are kept. */
  lemma ComputeGrows(db: Db, instances: map<Id, Instance>, enis: map<Id, Eni>, addresses: map<Id, Address>)
    requires TagsStored(db)
    requires (forall x :: x in db.instances ==> x in instances) && (forall x :: x in db.enis ==> x in enis)
    requires forall x :: x in db.addresses ==> x in addresses
    ensures Follow(db, db.(instances := instances, enis := enis, addresses := addresses))
  {
    hide TagsStored, Follow;
    GrowthFollows(db, db.(instances := instances, enis := enis, addresses := addresses));
  }

  /** Associations, routes and gateways' attachments change with no tagged row coming or going. */
  lemma WiringGrows(db: Db, gateways: map<Id, Gateway>, assocs: map<Id, Association>, routes: map<RouteKey, string>)
    requires TagsStored(db) && forall x :: x in db.gateways ==> x in gateways
    ensures Follow(db, db.(gateways := gateways, assocs := assocs, routes := routes))
  {
    hide TagsStored, Follow;
    GrowthFollows(db, db.(gateways := gateways, assocs := assocs, routes := routes));
  }

  /** Tagging a resource that was not stored touches no earlier tag. */
  lemma TaggingFollows(before: Db, mid: Db, r: Resource, tags: map<string, string>)
    requires TagsStored(before) && Grows(before, mid) && !Stored(before, r)
    ensures Follow(before, Tagged(mid, r, tags))
  {
    hide Stored;
    var d := Tagged(mid, r, tags);
    forall k | k in before.tags ensures Stored(d, k.resource) && k in d.tags && d.tags[k] == before.tags[k] {
      TagsDoNotStore(mid, d.tags, k.resource);
    }
  }

  lemma TaggingTwiceFollows(before: Db, mid: Db, r: Resource, s: Resource, tags: map<string, string>, more: map<string, string>)
    requires TagsStored(before) && Grows(before, mid) && !Stored(before, r) && !Stored(before, s)
    ensures Follow(before, Tagged(Tagged(mid, r, tags), s, more))
  {
    hide Stored;
    var one := Tagged(mid, r, tags);
    var d := Tagged(one, s, more);
    forall k | k in before.tags ensures Stored(d, k.resource) && k in d.tags && d.tags[k] == before.tags[k] {
      TagsDoNotStore(mid, one.tags, k.resource);
      TagsDoNotStore(one, d.tags, k.resource);
    }
  }

  /** What is not stored in between is not stored in the end: the rows only go. */
  ghost predicate Shrinks(before: Db, after: Db) {
    forall r :: Stored(after, r) ==> Stored(before, r)
  }

  lemma FollowingTwice(a: Db, b: Db, c: Db)
    requires Follow(a, b) && Follow(b, c) && Shrinks(b, c) && (forall k :: k in c.tags ==> k in b.tags)
    ensures Follow(a, c)
  {
    hide Stored;
  }

  // ----- request by request -----

  lemma NewVpcFollows(db: Db, region: string, r: Request)
    requires TagsStored(db) && r.NewVpc?
    ensures Follow(db, NetworkStep(db, region, r))
  {
    hide Follow, TagsStored;
    if VpcFits(db, r.cidr, r.id, r.group, r.table, r.assoc) && r.cidr != "" {
      var mid := WithVpc(db, region, r.cidr, r.net, r.id, r.group, r.table, r.assoc);
      TaggingFollows(db, mid, VpcRow(r.id), r.tags);
    }
    GrowthFollows(db, db);
  }

  lemma NewRowsFollow(db: Db, region: string, r: Request)
    requires TagsStored(db) && (r.NewSubnet? || r.NewGateway? || r.NewRouteTable?)
    ensures Follow(db, NetworkStep(db, region, r))
  {
    hide Follow, TagsStored, InRange, Conflicts, Tagged;
    GrowthFollows(db, db);
    match r
    case NewSubnet(vpc, net, id, tags) =>
      if CreateSubnet(db, region, vpc, net, id, tags).Some? {
        TaggingFollows(db, db.(subnets := db.subnets[id := Subnet(region, vpc, net)]), SubnetRow(id), tags);
      }
    case NewGateway(id, tags) =>
      if id !in db.gateways {
        TaggingFollows(db, db.(gateways := db.gateways[id := Gateway(region, None)]), GatewayRow(id), tags);
      }
    case NewRouteTable(vpc, id, tags) =>
      if CreateRouteTable(db, region, vpc, id, tags).Some? {
        var k := RouteKey(id, db.vpcs[vpc].cidr);
        TaggingFollows(db, db.(tables := db.tables[id := RouteTable(region, vpc)], routes := db.routes[k := LOCAL_GATEWAY]),
                       TableRow(id), tags);
      }
  }

  lemma GatewaysFollow(db: Db, region: string, id: Id, vpc: Id)
    requires TagsStored(db)
    ensures Follow(db, Else(AttachGateway(db, region, id, vpc), db)) && Follow(db, Else(DetachGateway(db, region, id), db))
  {
    hide Follow, TagsStored, Stored;
    var a, d := Else(AttachGateway(db, region, id, vpc), db), Else(DetachGateway(db, region, id), db);
    WiringGrows(db, a.gateways, db.assocs, db.routes);
    WiringGrows(db, d.gateways, db.assocs, db.routes);
  }

  lemma AssociationsFollow(db: Db, region: string, table: Id, subnet: Id, id: Id)
    requires TagsStored(db)
    ensures Follow(db, Else(AssociateRouteTable(db, region, table, subnet, id), db)) && Follow(db, Else(DisassociateRouteTable(db, id), db))
  {
    hide Follow, TagsStored, Stored;
    var a, d := Else(AssociateRouteTable(db, region, table, subnet, id), db), Else(DisassociateRouteTable(db, id), db);
    WiringGrows(db, db.gateways, a.assocs, db.routes);
    WiringGrows(db, db.gateways, d.assocs, db.routes);
  }

  lemma RoutesFollow(db: Db, region: string, table: Id, destination: string, gateway: string)
    requires TagsStored(db)
    ensures Follow(db, Else(CreateRoute(db, region, table, destination, gateway), db))
    ensures Follow(db, Else(DeleteRoute(db, region, table, destination), db))
  {
    hide Follow, TagsStored, Stored;
    var a, d := Else(CreateRoute(db, region, table, destination, gateway), db), Else(DeleteRoute(db, region, table, destination), db);
    WiringGrows(db, db.gateways, db.assocs, a.routes);
    WiringGrows(db, db.gateways, db.assocs, d.routes);
  }

  lemma UntaggedFollow(db: Db, region: string, r: Request)
    requires TagsStored(db)
    requires r.Attach? || r.Detach? || r.AssociateTable? || r.DisassociateTable? || r.NewRoute? || r.DropRoute?
    ensures Follow(db, NetworkStep(db, region, r))
  {
    hide Follow, TagsStored, Else, AttachGateway, DetachGateway, AssociateRouteTable, DisassociateRouteTable, CreateRoute, DeleteRoute;
    if r.Attach? {
      GatewaysFollow(db, region, r.id, r.vpc);
    } else if r.Detach? {
      GatewaysFollow(db, region, r.id, "");
    } else if r.AssociateTable? {
      AssociationsFollow(db, region, r.table, r.subnet, r.id);
    } else if r.DisassociateTable? {
      AssociationsFollow(db, region, "", "", r.id);
    } else if r.NewRoute? {
      RoutesFollow(db, region, r.table, r.destination, r.gateway);
    } else {
      RoutesFollow(db, region, r.table, r.destination, "");
    }
  }

  lemma DroppedRowsFollow(db: Db, region: string, r: Request)
    requires TagsStored(db) && (r.DropVpc? || r.DropGateway? || r.DropRouteTable?)
    ensures Follow(db, NetworkStep(db, region, r))
  {
    hide Follow, TagsStored, Stored, Triggered, VpcGoes, AssocsOf, RoutesOf, Detached, RulesOf;
    GrowthFollows(db, db);
    match r
    case DropVpc(id) => TriggersFollow(db, WithoutVpc(db, id));
    case DropGateway(id) => TriggersFollow(db, db.(gateways := db.gateways - {id}));
    case DropRouteTable(id) =>
      var tables := db.tables - {id};
      TriggersFollow(db, db.(tables := tables, assocs := AssocsOf(db.assocs, tables, db.subnets), routes := RoutesOf(db.routes, tables)));
  }

  lemma DropSubnetFollows(db: Db, region: string, id: Id)
    requires TagsStored(db)
    ensures Follow(db, DeleteSubnet(db, region, id).0)
  {
    var gone := set i | i in db.instances && Collectable(db, region, id, i);
    var purged := db.(instances := db.instances - gone, enis := EnisBut(db.enis, gone));
    var mid := Collected(db, region, id);
    hide Stored, Follow, TagsStored, EnisBut, AssocsOf, Occupied, Collectable;
    assert mid == Triggered(db, purged);
    TriggersFollow(db, purged);
    TriggersKeepTags(db, purged);
    if WithoutSubnet(mid, id).Some? {
      var last := mid.(subnets := mid.subnets - {id}, assocs := AssocsOf(mid.assocs, mid.tables, mid.subnets - {id}));
      TriggersFollow(mid, last);
      SubnetGoes(mid, id);
      FollowingTwice(db, mid, Triggered(mid, last));
    }
  }

  lemma SubnetGoes(db: Db, id: Id)
    ensures var o := WithoutSubnet(db, id);
            o.Some? ==> Shrinks(db, o.value) && forall k :: k in o.value.tags ==> k in db.tags
  {
    hide AssocsOf, Occupied;
  }

  lemma GroupsFollow(db: Db, region: string, r: Request)
    requires TagsStored(db) && (r.NewSecurityGroup? || r.DropSecurityGroup? || r.AuthorizeRules? || r.RevokeRules?)
    ensures Follow(db, Step(db, region, r))
  {
    hide Follow, TagsStored, Triggered, Held, RulesOf, SR.Authorize, SR.Revoke, NetworkStep, Tagged;
    GrowthFollows(db, db);
    match r
    case NewSecurityGroup(vpc, name, id, tags) =>
      if CreateGroup(db, region, vpc, name, id, tags).Some? {
        TaggingFollows(db, db.(groups := db.groups[id := Group(region, vpc, name)]), GroupRow(id), tags);
      }
    case DropSecurityGroup(id) =>
      var groups := db.groups - {id};
      TriggersFollow(db, db.(groups := groups, rules := RulesOf(db.rules, groups)));
    case AuthorizeRules(group, egress, news) =>
      var o := Authorize(db, region, group, egress, news);
      if o.Some? {
        SR.AuthorizeHolds(db.rules, group, egress, news);
        AddedRulesGrow(db, o.value.rules);
        GrowthFollows(db, o.value);
      }
    case RevokeRules(group, egress, vs) =>
      var o := SR.Revoke(db.rules, group, egress, vs);
      if o.Some? { TriggersFollow(db, db.(rules := o.value)); }
  }

  lemma LaunchFollows(db: Db, region: string, r: Request)
    requires TagsStored(db) && r.Launch?
    ensures Follow(db, Step(db, region, r))
  {
    hide Follow, TagsStored, PrivateIp, ClaimAuto, GroupsUsable, Tagged;
    GrowthFollows(db, db);
    var o := RunInstance(db, region, r.subnet, r.groups, r.want, r.auto, r.guarded, r.id, r.eni, r.tags, r.eniTags);
    if o.Some? {
      var ip := PrivateIp(db.subnets[r.subnet].net, r.want, UsedIps(db.enis, r.subnet)).value;
      var publicIp := ClaimAuto(db.enis, region, r.eni, r.auto).value;
      var row := Eni(region, r.id, r.subnet, db.subnets[r.subnet].vpc, ip, publicIp, r.auto, r.groups);
      var mid := db.(instances := db.instances[r.id := Instance(region, r.subnet, Running, r.guarded)], enis := db.enis[r.eni := row]);
      TaggingTwiceFollows(db, mid, InstanceRow(r.id), EniRow(r.eni), r.tags, r.eniTags);
    }
  }

  lemma GuardingFollows(db: Db, region: string, id: Id, guarded: bool)
    requires TagsStored(db)
    ensures Follow(db, Else(SetGuard(db, region, id, guarded), db))
  {
    hide Follow, TagsStored, Stored;
    if SetGuard(db, region, id, guarded).Some? {
      ComputeGrows(db, db.instances[id := db.instances[id].(guarded := guarded)], db.enis, db.addresses);
    } else {
      ComputeGrows(db, db.instances, db.enis, db.addresses);
    }
  }

  lemma RegroupingFollows(db: Db, region: string, eni: Id, groups: seq<Id>)
    requires TagsStored(db)
    ensures Follow(db, Else(SetGroups(db, region, eni, groups), db))
  {
    hide Follow, TagsStored, Stored, GroupsUsable;
    if SetGroups(db, region, eni, groups).Some? {
      ComputeGrows(db, db.instances, db.enis[eni := db.enis[eni].(groups := groups)], db.addresses);
    } else {
      ComputeGrows(db, db.instances, db.enis, db.addresses);
    }
  }

  lemma PlacingKeepsRows(db: Db, id: Id, e: Id, assoc: Id)
    requires id in db.addresses && e in db.enis
    ensures var d := Placed(db, id, e, assoc);
            && d == db.(enis := d.enis, addresses := d.addresses)
            && (forall x :: x in db.enis ==> x in d.enis) && (forall x :: x in db.addresses ==> x in d.addresses)
  {
  }

  lemma TargetIsStored(db: Db, region: string, eni: Option<Id>, instance: Option<Id>)
    ensures var t := Target(db, region, eni, instance); t.Some? ==> t.value in db.enis
  {
  }

  lemma AssociatingFollows(db: Db, region: string, id: Id, eni: Option<Id>, instance: Option<Id>, privateIp: Option<nat>,
                           reassociate: bool, assoc: Id)
    requires TagsStored(db)
    ensures Follow(db, Else(Associate(db, region, id, eni, instance, privateIp, reassociate, assoc), db))
  {
    hide Follow, TagsStored, Stored, Target, Placed;
    var o := Associate(db, region, id, eni, instance, privateIp, reassociate, assoc);
    TargetIsStored(db, region, eni, instance);
    if o.Some? {
      PlacingKeepsRows(db, id, Target(db, region, eni, instance).value, assoc);
      ComputeGrows(db, db.instances, o.value.enis, o.value.addresses);
    } else {
      ComputeGrows(db, db.instances, db.enis, db.addresses);
    }
  }

  lemma ClearingKeepsRows(db: Db, region: string, a: Id)
    requires a in db.addresses && db.addresses[a].on.Some?
    ensures var o := Cleared(db, region, a);
            o.Some? ==>
              && o.value == db.(enis := o.value.enis, addresses := o.value.addresses)
              && (forall x :: x in db.enis ==> x in o.value.enis) && (forall x :: x in db.addresses ==> x in o.value.addresses)
  {
    hide ClaimAuto;
  }

  lemma DisassociatingFollows(db: Db, region: string, assoc: Id)
    requires TagsStored(db)
    ensures Follow(db, Else(Disassociate(db, region, assoc), db))
  {
    hide Follow, TagsStored, Stored, Cleared;
    var d := Else(Disassociate(db, region, assoc), db);
    if d != db { ClearingKeepsRows(db, region, AddressOf(db, region, assoc)); }
    ComputeGrows(db, db.instances, d.enis, d.addresses);
  }

  lemma TouchesFollow(db: Db, region: string, r: Request)
    requires TagsStored(db) && (r.Guard? || r.Regroup? || r.AssociateIp? || r.DisassociateIp?)
    ensures Follow(db, Step(db, region, r))
  {
    hide Follow, TagsStored, SetGuard, SetGroups, Associate, Disassociate, NetworkStep;
    match r
    case Guard(id, guarded) => GuardingFollows(db, region, id, guarded);
    case Regroup(eni, groups) => RegroupingFollows(db, region, eni, groups);
    case AssociateIp(id, eni, instance, privateIp, reassociate, assoc) =>
      AssociatingFollows(db, region, id, eni, instance, privateIp, reassociate, assoc);
    case DisassociateIp(assoc) => DisassociatingFollows(db, region, assoc);
  }

  lemma AllocationsFollow(db: Db, region: string, r: Request)
    requires TagsStored(db) && (r.AllocateIp? || r.ReleaseIp?)
    ensures Follow(db, Step(db, region, r))
  {
    hide Follow, TagsStored, FreeIp, HeldIps, Tagged, Triggered, NetworkStep;
    GrowthFollows(db, db);
    match r
    case AllocateIp(id, tags) =>
      var ip := FreeIp(Derived(EIP_NET, id), HeldIps(db.addresses, region));
      if ip.Some? && id !in db.addresses {
        TaggingFollows(db, db.(addresses := db.addresses[id := Address(region, ip.value, None)]), AddressRow(id), tags);
      }
    case ReleaseIp(id) => TriggersFollow(db, db.(addresses := db.addresses - {id}));
  }

  lemma TerminatingFollows(db: Db, region: string, ids: seq<Id>)
    requires TagsStored(db)
    ensures Follow(db, Step(db, region, TerminateAll(ids)))
  {
    EndAllAtOnce(db, region, ids);
    hide Follow, TagsStored, EndAll, Going, Triggered, Stored;
    var gone := Going(db, ids);
    GrowthFollows(db, db);
    TriggersFollow(db, db.(instances := EndedRows(db.instances, gone), enis := EnisBut(db.enis, gone),
                           addresses := Freed(db.addresses, gone)));
  }

  predicate Retags(r: Request) {
    r.CreateTagsOf? || r.DeleteTagsOf?
  }

  /**
   * Of every request but CreateTags and DeleteTags, served or refused: an earlier
   * tag is kept, with its value, exactly when its resource is still stored.
   */
  lemma TagsGoWithTheirResources(db: Db, region: string, r: Request)
    requires Inv(db) && !Retags(r)
    ensures Follow(db, Step(db, region, r))
  {
    TagsAreStored(db);
    hide Inv, Follow, TagsStored, Step, NetworkStep;
    if r.TerminateAll? {
      TerminatingFollows(db, region, r.ids);
    } else if r.Launch? {
      LaunchFollows(db, region, r);
    } else if r.Guard? || r.Regroup? || r.AssociateIp? || r.DisassociateIp? {
      TouchesFollow(db, region, r);
    } else if r.AllocateIp? || r.ReleaseIp? {
      AllocationsFollow(db, region, r);
    } else if r.NewSecurityGroup? || r.DropSecurityGroup? || r.AuthorizeRules? || r.RevokeRules? {
      GroupsFollow(db, region, r);
    } else {
      OtherStepIsNetwork(db, region, r);
      NetworkFollows(db, region, r);
    }
  }

  lemma NetworkFollows(db: Db, region: string, r: Request)
    requires TagsStored(db) && !OnCompute(r) && !OnGroups(r)
    ensures Follow(db, NetworkStep(db, region, r))
  {
    if r.NewVpc? {
      NewVpcFollows(db, region, r);
    } else if r.NewSubnet? || r.NewGateway? || r.NewRouteTable? {
      NewRowsFollow(db, region, r);
    } else if r.DropSubnet? {
      DropSubnetFollows(db, region, r.id);
    } else if r.DropVpc? || r.DropGateway? || r.DropRouteTable? {
      DroppedRowsFollow(db, region, r);
    } else {
      UntaggedFollow(db, region, r);
    }
    hide Follow, TagsStored, CreateVpc, DeleteVpc, CreateSubnet, DeleteSubnet, CreateGateway, AttachGateway, DetachGateway, DeleteGateway,
         CreateRouteTable, DeleteRouteTable, AssociateRouteTable, DisassociateRouteTable, CreateRoute, DeleteRoute;
  }

  // ----- the tags a request gives -----

  predicate Creates(r: Request) {
    r.NewVpc? || r.NewSubnet? || r.NewGateway? || r.NewRouteTable? || r.NewSecurityGroup? || r.Launch? || r.AllocateIp?
  }

  /** The rows a creating request makes, each with the tags it is sent for it. */
  function Made(r: Request): map<Resource, map<string, string>> {
    match r
    case NewVpc(_, _, id, _, _, _, tags) => map[VpcRow(id) := tags]
    case NewSubnet(_, _, id, tags) => map[SubnetRow(id) := tags]
    case NewGateway(id, tags) => map[GatewayRow(id) := tags]
    case NewRouteTable(_, id, tags) => map[TableRow(id) := tags]
    case NewSecurityGroup(_, _, id, tags) => map[GroupRow(id) := tags]
    case Launch(_, _, _, _, _, id, eni, tags, eniTags) => map[InstanceRow(id) := tags, EniRow(eni) := eniTags]
    case AllocateIp(id, tags) => map[AddressRow(id) := tags]
    case _ => map[]
  }

  /** The resource has these tags and no other. */
  ghost predicate HasTags(db: Db, r: Resource, tags: map<string, string>) {
    && (forall s :: TagKey(r, s) in db.tags <==> s in tags)
    && (forall s :: s in tags ==> db.tags[TagKey(r, s)] == tags[s])
  }

  /** Every other resource's tags are as they were. */
  ghost predicate OthersTagsKept(before: Db, after: Db, rows: set<Resource>) {
    forall k: TagKey :: k.resource !in rows ==>
      && (k in after.tags <==> k in before.tags)
      && (k in after.tags ==> after.tags[k] == before.tags[k])
  }

  /** The request stored all its rows, each with the tags sent for it, and gave no other resource a tag. */
  ghost predicate Gave(db: Db, after: Db, made: map<Resource, map<string, string>>) {
    && (forall x :: x in made ==> !Stored(db, x) && Stored(after, x) && HasTags(after, x, made[x]))
    && OthersTagsKept(db, after, made.Keys)
  }

  lemma TaggedAt(db: Db, r: Resource, tags: map<string, string>, k: TagKey)
    ensures var t, given := Tagged(db, r, tags).tags, k.resource == r && k.key in tags;
            && (k in t <==> given || k in db.tags)
            && (k in t ==> t[k] == if given then tags[k.key] else db.tags[k])
  {
    assert k == TagKey(k.resource, k.key);
  }

  lemma NotTagged(db: Db, r: Resource)
    requires TagsStored(db) && !Stored(db, r)
    ensures forall s :: TagKey(r, s) !in db.tags
  {
    hide Stored;
    forall s ensures TagKey(r, s) !in db.tags {
      assert TagKey(r, s).resource == r;
    }
  }

  lemma TaggingHas(db: Db, r: Resource, tags: map<string, string>)
    requires forall s :: TagKey(r, s) !in db.tags
    ensures HasTags(Tagged(db, r, tags), r, tags) && OthersTagsKept(db, Tagged(db, r, tags), {r})
  {
    hide Tagged;
    forall k: TagKey ensures var t, given := Tagged(db, r, tags).tags, k.resource == r && k.key in tags;
            && (k in t <==> given || k in db.tags)
            && (k in t ==> t[k] == if given then tags[k.key] else db.tags[k])
    {
      TaggedAt(db, r, tags, k);
    }
  }

  lemma TaggingStores(db: Db, r: Resource, tags: map<string, string>, x: Resource)
    ensures Stored(Tagged(db, r, tags), x) == Stored(db, x)
  {
    TagsDoNotStore(db, Tagged(db, r, tags).tags, x);
    hide Stored;
  }

  lemma KeptThroughMid(db: Db, mid: Db, after: Db, rows: set<Resource>)
    requires mid.tags == db.tags && OthersTagsKept(mid, after, rows)
    ensures OthersTagsKept(db, after, rows)
  {
  }

  lemma TaggingGives(db: Db, mid: Db, r: Resource, tags: map<string, string>)
    requires TagsStored(db) && mid.tags == db.tags && !Stored(db, r) && Stored(mid, r)
    ensures Gave(db, Tagged(mid, r, tags), map[r := tags])
  {
    hide Stored, Tagged, HasTags, OthersTagsKept, TagsStored;
    NotTagged(db, r);
    TaggingHas(mid, r, tags);
    TaggingStores(mid, r, tags, r);
    KeptThroughMid(db, mid, Tagged(mid, r, tags), {r});
    assert map[r := tags].Keys == {r};
  }

  /** Tagging one resource leaves another's tags. */
  lemma TagsOfAnother(a: Db, b: Db, r: Resource, s: Resource, tags: map<string, string>)
    requires HasTags(a, r, tags) && OthersTagsKept(a, b, {s}) && r != s
    ensures HasTags(b, r, tags)
  {
    assert forall k :: TagKey(r, k).resource == r;
  }

  lemma KeptTwice(a: Db, b: Db, c: Db, r: Resource, s: Resource)
    requires OthersTagsKept(a, b, {r}) && OthersTagsKept(b, c, {s})
    ensures OthersTagsKept(a, c, {r, s})
  {
  }

  lemma TaggingTwiceStores(db: Db, r: Resource, s: Resource, tags: map<string, string>, more: map<string, string>, x: Resource)
    ensures Stored(Tagged(Tagged(db, r, tags), s, more), x) == Stored(db, x)
  {
    hide Stored, Tagged;
    TaggingStores(db, r, tags, x);
    TaggingStores(Tagged(db, r, tags), s, more, x);
  }

  lemma TaggingTwiceGives(db: Db, mid: Db, r: Resource, s: Resource, tags: map<string, string>, more: map<string, string>)
    requires TagsStored(db) && mid.tags == db.tags && r != s
    requires !Stored(db, r) && Stored(mid, r) && !Stored(db, s) && Stored(mid, s)
    ensures Gave(db, Tagged(Tagged(mid, r, tags), s, more), map[r := tags, s := more])
  {
    hide Stored, Tagged, HasTags, TagsStored, OthersTagsKept, Gave;
    var one := Tagged(mid, r, tags);
    var two := Tagged(one, s, more);
    NotTagged(db, r);
    NotTagged(db, s);
    TaggingHas(mid, r, tags);
    StillUntagged(mid, one, r, s);
    TaggingHas(one, s, more);
    TagsOfAnother(one, two, r, s, tags);
    KeptTwice(mid, one, two, r, s);
    KeptThroughMid(db, mid, two, {r, s});
    TaggingTwiceStores(mid, r, s, tags, more, r);
    TaggingTwiceStores(mid, r, s, tags, more, s);
    GaveTwo(db, two, r, s, tags, more);
  }

  lemma GaveTwo(db: Db, after: Db, r: Resource, s: Resource, tags: map<string, string>, more: map<string, string>)
    requires r != s && !Stored(db, r) && !Stored(db, s) && Stored(after, r) && Stored(after, s)
    requires HasTags(after, r, tags) && HasTags(after, s, more) && OthersTagsKept(db, after, {r, s})
    ensures Gave(db, after, map[r := tags, s := more])
  {
    hide Stored, HasTags, OthersTagsKept;
    assert map[r := tags, s := more].Keys == {r, s};
  }

  lemma StillUntagged(a: Db, b: Db, r: Resource, s: Resource)
    requires OthersTagsKept(a, b, {r}) && r != s && forall k :: TagKey(s, k) !in a.tags
    ensures forall k :: TagKey(s, k) !in b.tags
  {
    forall k ensures TagKey(s, k) !in b.tags {
      assert TagKey(s, k).resource == s;
    }
  }

  lemma NetworkGives(db: Db, region: string, r: Request)
    requires TagsStored(db) && (r.NewVpc? || r.NewSubnet? || r.NewGateway? || r.NewRouteTable?)
    ensures var d := NetworkStep(db, region, r); d == db || Gave(db, d, Made(r))
  {
    hide Gave, TagsStored, InRange, Conflicts, Tagged, VpcFits;
    match r
    case NewVpc(cidr, net, id, group, table, assoc, tags) =>
      if CreateVpc(db, region, cidr, net, id, group, table, assoc, tags).Some? {
        FitsIsNew(db, cidr, id, group, table, assoc);
        TaggingGives(db, WithVpc(db, region, cidr, net, id, group, table, assoc), VpcRow(id), tags);
      }
    case NewSubnet(vpc, net, id, tags) =>
      if CreateSubnet(db, region, vpc, net, id, tags).Some? {
        TaggingGives(db, db.(subnets := db.subnets[id := Subnet(region, vpc, net)]), SubnetRow(id), tags);
      }
    case NewGateway(id, tags) =>
      if id !in db.gateways {
        TaggingGives(db, db.(gateways := db.gateways[id := Gateway(region, None)]), GatewayRow(id), tags);
      }
    case NewRouteTable(vpc, id, tags) =>
      if CreateRouteTable(db, region, vpc, id, tags).Some? {
        var k := RouteKey(id, db.vpcs[vpc].cidr);
        TaggingGives(db, db.(tables := db.tables[id := RouteTable(region, vpc)], routes := db.routes[k := LOCAL_GATEWAY]),
                     TableRow(id), tags);
      }
  }

  lemma FitsIsNew(db: Db, cidr: string, id: Id, group: Id, table: Id, assoc: Id)
    requires VpcFits(db, cidr, id, group, table, assoc)
    ensures id !in db.vpcs
  {
    hide HasDefaultGroup, HasMain;
  }

  lemma LaunchGives(db: Db, region: string, r: Request)
    requires TagsStored(db) && r.Launch?
    ensures var d := Step(db, region, r); d == db || Gave(db, d, Made(r))
  {
    hide Gave, TagsStored, PrivateIp, ClaimAuto, GroupsUsable, Tagged, NetworkStep;
    var o := RunInstance(db, region, r.subnet, r.groups, r.want, r.auto, r.guarded, r.id, r.eni, r.tags, r.eniTags);
    if o.Some? {
      var ip := PrivateIp(db.subnets[r.subnet].net, r.want, UsedIps(db.enis, r.subnet)).value;
      var publicIp := ClaimAuto(db.enis, region, r.eni, r.auto).value;
      var row := Eni(region, r.id, r.subnet, db.subnets[r.subnet].vpc, ip, publicIp, r.auto, r.groups);
      var mid := db.(instances := db.instances[r.id := Instance(region, r.subnet, Running, r.guarded)], enis := db.enis[r.eni := row]);
      TaggingTwiceGives(db, mid, InstanceRow(r.id), EniRow(r.eni), r.tags, r.eniTags);
    }
  }

  lemma OthersGive(db: Db, region: string, r: Request)
    requires TagsStored(db) && (r.NewSecurityGroup? || r.AllocateIp?)
    ensures var d := Step(db, region, r); d == db || Gave(db, d, Made(r))
  {
    hide Gave, TagsStored, Tagged, FreeIp, HeldIps, NetworkStep;
    match r
    case NewSecurityGroup(vpc, name, id, tags) =>
      if CreateGroup(db, region, vpc, name, id, tags).Some? {
        TaggingGives(db, db.(groups := db.groups[id := Group(region, vpc, name)]), GroupRow(id), tags);
      }
    case AllocateIp(id, tags) =>
      var ip := FreeIp(Derived(EIP_NET, id), HeldIps(db.addresses, region));
      if ip.Some? && id !in db.addresses {
        TaggingGives(db, db.(addresses := db.addresses[id := Address(region, ip.value, None)]), AddressRow(id), tags);
      }
  }

  /**
   * A creating request changes nothing, or stores each of its rows with exactly the tags sent
   * for that row, a launch's instance and interface with their own, and every other resource's
   * tags are as before.
   */
  lemma CreatedTags(db: Db, region: string, r: Request)
    requires Inv(db) && Creates(r)
    ensures var d := Step(db, region, r); d == db || Gave(db, d, Made(r))
  {
    TagsAreStored(db);
    hide Inv, Gave, TagsStored, Step, NetworkStep, Made;
    if r.Launch? {
      LaunchGives(db, region, r);
    } else if r.NewSecurityGroup? || r.AllocateIp? {
      OthersGive(db, region, r);
    } else {
      OtherStepIsNetwork(db, region, r);
      NetworkGives(db, region, r);
    }
  }

  /** The resource is a row of the region; a rule is its group's. */
  ghost predicate IsOf(db: Db, r: Resource, region: string) {
    || (exists row :: (r.id, row) in db.vpcs.Items && r.VpcRow? && row.region == region)
    || (exists row :: (r.id, row) in db.subnets.Items && r.SubnetRow? && row.region == region)
    || (exists row :: (r.id, row) in db.gateways.Items && r.GatewayRow? && row.region == region)
    || (exists row :: (r.id, row) in db.tables.Items && r.TableRow? && row.region == region)
    || (exists row :: (r.id, row) in db.groups.Items && r.GroupRow? && row.region == region)
    || (exists row :: (r.id, row) in db.instances.Items && r.InstanceRow? && row.region == region)
    || (exists row :: (r.id, row) in db.enis.Items && r.EniRow? && row.region == region)
    || (exists row :: (r.id, row) in db.addresses.Items && r.AddressRow? && row.region == region)
    || (exists x, row :: x in db.rules && (x.group, row) in db.groups.Items && r == RuleRow(x.id) && row.region == region)
  }

  lemma HereIsOf(db: Db, region: string, r: Resource)
    ensures InRegion(db, region, r) <==> IsOf(db, r, region)
  {
    if r.RuleRow? && InRegion(db, region, r) {
      var x :| x in db.rules && x.id == r.id && x.group in db.groups && db.groups[x.group].region == region;
      assert (x.group, db.groups[x.group]) in db.groups.Items;
    }
  }

  /** Tags are put on resources, or taken off, exactly when some are named, all of the region, and some tag is sent to be put. */
  lemma RetaggingServedExactly(db: Db, region: string, resources: set<Resource>, tags: map<string, string>, matches: seq<TagMatch>)
    ensures CreateTags(db, region, resources, tags).Some? <==>
            resources != {} && tags != map[] && forall r :: r in resources ==> IsOf(db, r, region)
    ensures DeleteTags(db, region, resources, matches).Some? <==>
            resources != {} && forall r :: r in resources ==> IsOf(db, r, region)
  {
    forall r ensures InRegion(db, region, r) <==> IsOf(db, r, region) {
      HereIsOf(db, region, r);
    }
    hide InRegion, IsOf, TagAll, Unselected;
  }

  /** A tag named to be deleted: by its key, and by its value where one is sent; all are where none is named. */
  ghost predicate ToGo(matches: seq<TagMatch>, key: string, value: string) {
    matches == [] || exists m :: m in matches && m.key == key && (m.value == None || m.value == Some(value))
  }

  /** CreateTags gives each of its resources the tags sent over what it had; DeleteTags takes those named off each, and no other tag. */
  lemma RetaggingExactly(db: Db, region: string, resources: set<Resource>, tags: map<string, string>, matches: seq<TagMatch>, k: TagKey)
    ensures var o := CreateTags(db, region, resources, tags);
            o.Some? ==>
              && (k in o.value.tags <==> k in db.tags || (k.resource in resources && k.key in tags))
              && (k in o.value.tags ==>
                    o.value.tags[k] == if k.resource in resources && k.key in tags then tags[k.key] else db.tags[k])
    ensures var o := DeleteTags(db, region, resources, matches);
            o.Some? ==>
              && (k in o.value.tags <==> k in db.tags && !(k.resource in resources && ToGo(matches, k.key, db.tags[k])))
              && (k in o.value.tags ==> o.value.tags[k] == db.tags[k])
  {
    hide CreateTags, DeleteTags, TagAll, Unselected, ToGo;
    RetaggedTables(db, region, resources, tags, matches);
    AddedTag(db, resources, tags, k);
    RemovedTag(db, resources, matches, k);
  }

  lemma RetaggedTables(db: Db, region: string, resources: set<Resource>, tags: map<string, string>, matches: seq<TagMatch>)
    ensures var o := CreateTags(db, region, resources, tags); o.Some? ==> o.value == db.(tags := db.tags + TagAll(resources, tags))
    ensures var o := DeleteTags(db, region, resources, matches); o.Some? ==> o.value == db.(tags := Unselected(db.tags, resources, matches))
  {
    hide InRegion, TagAll, Unselected;
  }

  lemma AddedTag(db: Db, resources: set<Resource>, tags: map<string, string>, k: TagKey)
    ensures k in TagAll(resources, tags) <==> k.resource in resources && k.key in tags
    ensures k in TagAll(resources, tags) ==> TagAll(resources, tags)[k] == tags[k.key]
  {
    assert k == TagKey(k.resource, k.key);
  }

  lemma RemovedTag(db: Db, resources: set<Resource>, matches: seq<TagMatch>, k: TagKey)
    ensures var left := Unselected(db.tags, resources, matches);
            && (k in left <==> k in db.tags && !(k.resource in resources && ToGo(matches, k.key, db.tags[k])))
            && (k in left ==> left[k] == db.tags[k])
  {
  }

  // ----- over runs -----

  /** A run of requests that retag nothing, the resource stored throughout. */
  ghost predicate Untouched(db: Db, calls: seq<Call>, r: Resource)
    decreases |calls|
  {
    && Stored(db, r)
    && (calls != [] ==> !Retags(calls[0].request) && Untouched(Step(db, calls[0].region, calls[0].request), calls[1..], r))
  }

  /** A tag outlives any run of other requests for as long as its resource does, value and all. */
  lemma {:induction false} TagsOutliveRuns(db: Db, calls: seq<Call>, k: TagKey)
    requires Inv(db) && k in db.tags && Untouched(db, calls, k.resource)
    ensures k in Run(db, calls).tags && Run(db, calls).tags[k] == db.tags[k]
    decreases |calls|
  {
    hide Inv, Step, Stored;
    if calls != [] {
      var c := calls[0];
      TagsGoWithTheirResources(db, c.region, c.request);
      StepKeeps(db, c.region, c.request);
      TagsOutliveRuns(Step(db, c.region, c.request), calls[1..], k);
    }
  }

  // ----- exactly which tags go -----

  /** A resource of the VPC: itself, and all that is in it. */
  predicate OfVpc(db: Db, vpc: Id, r: Resource) {
    match r
    case VpcRow(id) => id == vpc
    case SubnetRow(id) => SubnetOf(db, id, vpc)
    case TableRow(id) => id in db.tables && db.tables[id].vpc == vpc
    case GroupRow(id) => id in db.groups && db.groups[id].vpc == vpc
    case RuleRow(id) => exists x :: x in db.rules && x.id == id && x.group in db.groups && db.groups[x.group].vpc == vpc
    case InstanceRow(id) => id in db.instances && SubnetOf(db, db.instances[id].subnet, vpc)
    case EniRow(id) => id in db.enis && db.enis[id].vpc == vpc
    case GatewayRow(_) => false
    case AddressRow(_) => false
  }

  /** The tags whose resources are none of the VPC's. */
  function TagsOutside(db: Db, vpc: Id): map<TagKey, string> {
    map k | k in db.tags && !OfVpc(db, vpc, k.resource) :: db.tags[k]
  }

  /** A rule is stored after its VPC's delete exactly when its group is another VPC's: ids are unique. */
  lemma RulesLeft(db: Db, vpc: Id, id: Id)
    requires RulesIn(db.groups, db.rules) && SR.HasId(db.rules, id)
    ensures SR.HasId(RulesOf(db.rules, GroupsBut(db.groups, vpc)), id) <==> !OfVpc(db, vpc, RuleRow(id))
  {
    var x :| x in db.rules && x.id == id;
    var left := RulesOf(db.rules, GroupsBut(db.groups, vpc));
    forall y | y in db.rules && y.id == id ensures y == x {
      SameId(db.rules, x, y);
    }
    hide SR.WellOrdered;
    assert x in left <==> !(db.groups[x.group].vpc == vpc);
  }

  lemma SameId(t: SR.Table, x: SR.Rule, y: SR.Rule)
    requires SR.WellOrdered(t) && x in t && y in t && x.id == y.id
    ensures x == y
  {
    var i :| 0 <= i < |t| && t[i] == x;
    var j :| 0 <= j < |t| && t[j] == y;
    assert i == j;
  }

  lemma LeftByVpc(db: Db, region: string, id: Id, r: Resource)
    requires Networks(db.vpcs, db.subnets, db.gateways, db.tables, db.assocs, db.routes)
    requires Groups(db.vpcs, db.groups, db.rules) && Compute(db.subnets, db.instances, db.enis)
    requires VpcGoes(db, region, id) && Stored(db, r)
    ensures Stored(WithoutVpc(db, id), r) <==> !OfVpc(db, id, r)
  {
    hide GatewaysIn, AssocsIn, RoutesIn, GroupsIn, AssocsOf, RoutesOf;
    match r
    case RuleRow(x) => RulesLeft(db, id, x);
    case EniRow(e) => assert Occupied(db, db.enis[e].subnet);
    case InstanceRow(i) => assert Occupied(db, db.instances[i].subnet);
    case _ =>
  }

  ghost predicate SameAt(a: map<TagKey, string>, b: map<TagKey, string>, k: TagKey) {
    (k in a <==> k in b) && (k in a ==> a[k] == b[k])
  }

  lemma SameEverywhere(a: map<TagKey, string>, b: map<TagKey, string>)
    requires forall k :: SameAt(a, b, k)
    ensures a == b
  {
    assert forall k :: k in a ==> SameAt(a, b, k);
    assert forall k :: k in b ==> SameAt(a, b, k);
  }

  lemma OutsideAt(db: Db, vpc: Id, k: TagKey)
    ensures k in TagsOutside(db, vpc) <==> k in db.tags && !OfVpc(db, vpc, k.resource)
    ensures k in TagsOutside(db, vpc) ==> TagsOutside(db, vpc)[k] == db.tags[k]
  {
    hide OfVpc;
  }

  lemma DeleteVpcTag(db: Db, region: string, id: Id, k: TagKey)
    requires Inv(db) && VpcGoes(db, region, id)
    ensures SameAt(Triggered(db, WithoutVpc(db, id)).tags, TagsOutside(db, id), k)
  {
    TagsAreStored(db);
    TablesHold(db);
    hide Inv, Networks, Groups, Compute, WithoutVpc, VpcGoes, OfVpc, Stored, TagsOutside, Triggered;
    WithoutVpcKeepsTags(db, id);
    OutsideAt(db, id, k);
    if k in db.tags { LeftByVpc(db, region, id, k.resource); }
  }

  lemma TablesHold(db: Db)
    requires Inv(db)
    ensures Networks(db.vpcs, db.subnets, db.gateways, db.tables, db.assocs, db.routes)
    ensures Groups(db.vpcs, db.groups, db.rules) && Compute(db.subnets, db.instances, db.enis)
  {
    hide Networks, Groups, Compute;
  }

  /**
   * Deleting a VPC removes exactly the tags of the VPC and of what is in it, its
   * subnets, route tables, groups and rules (no instance or interface is), and
   * keeps every other tag with its value.
   */
  lemma DeleteVpcTags(db: Db, region: string, id: Id)
    requires Inv(db)
    ensures var o := DeleteVpc(db, region, id); o.Some? ==> o.value.tags == TagsOutside(db, id)
  {
    hide Inv, VpcGoes, WithoutVpc, Triggered, TagsOutside, SameAt;
    if VpcGoes(db, region, id) {
      forall k ensures SameAt(Triggered(db, WithoutVpc(db, id)).tags, TagsOutside(db, id), k) {
        DeleteVpcTag(db, region, id, k);
      }
      SameEverywhere(Triggered(db, WithoutVpc(db, id)).tags, TagsOutside(db, id));
    }
  }

  lemma WithoutVpcKeepsTags(db: Db, id: Id)
    ensures WithoutVpc(db, id).tags == db.tags
  {
  }

  /** A resource deleting a subnet takes along: the region's terminated instances in it, and itself if the delete is served. */
  predicate GoesWithSubnet(db: Db, region: string, subnet: Id, served: bool, r: Resource) {
    || (r.InstanceRow? && r.id in db.instances
        && db.instances[r.id].region == region && db.instances[r.id].subnet == subnet && db.instances[r.id].state == Terminated)
    || (served && r == SubnetRow(subnet))
  }

  /** The tags a delete of the subnet leaves. */
  function TagsOutsideSubnet(db: Db, region: string, subnet: Id, served: bool): map<TagKey, string> {
    map k | k in db.tags && !GoesWithSubnet(db, region, subnet, served, k.resource) :: db.tags[k]
  }

  /** Instances' terminated rows have no interface, so the purge takes none. */
  lemma PurgedStored(db: Db, region: string, subnet: Id, r: Resource)
    requires Compute(db.subnets, db.instances, db.enis)
    ensures Stored(Collected(db, region, subnet), r) <==> Stored(db, r) && !GoesWithSubnet(db, region, subnet, false, r)
  {
  }

  lemma SubnetStored(db: Db, id: Id, r: Resource)
    requires WithoutSubnet(db, id).Some?
    ensures Stored(WithoutSubnet(db, id).value, r) <==> Stored(db, r) && r != SubnetRow(id)
  {
    hide Occupied, AssocsOf;
  }

  lemma DeleteSubnetStored(db: Db, region: string, id: Id, r: Resource)
    requires Compute(db.subnets, db.instances, db.enis)
    ensures var (d, served) := DeleteSubnet(db, region, id);
            Stored(d, r) <==> Stored(db, r) && !GoesWithSubnet(db, region, id, served, r)
  {
    PurgedStored(db, region, id, r);
    var mid := Collected(db, region, id);
    if WithoutSubnet(mid, id).Some? { SubnetStored(mid, id, r); }
    hide Compute, Stored, Collected, WithoutSubnet, Collectable;
  }

  lemma DeleteSubnetKeepsTags(db: Db, region: string, id: Id)
    ensures forall k :: k in DeleteSubnet(db, region, id).0.tags ==> k in db.tags
  {
    var mid := Collected(db, region, id);
    SubnetGoes(mid, id);
    hide Stored, WithoutSubnet, EnisBut, Collectable;
  }

  lemma OutsideSubnetAt(db: Db, region: string, subnet: Id, served: bool, k: TagKey)
    ensures var t := TagsOutsideSubnet(db, region, subnet, served);
            && (k in t <==> k in db.tags && !GoesWithSubnet(db, region, subnet, served, k.resource))
            && (k in t ==> t[k] == db.tags[k])
  {
    hide GoesWithSubnet;
  }

  lemma DeleteSubnetTag(db: Db, region: string, id: Id, k: TagKey)
    requires Inv(db)
    ensures var (d, served) := DeleteSubnet(db, region, id); SameAt(d.tags, TagsOutsideSubnet(db, region, id, served), k)
  {
    TagsAreStored(db);
    TablesHold(db);
    hide Inv, Follow, Networks, Groups, Compute, TagsStored, DeleteSubnet, Stored, GoesWithSubnet, TagsOutsideSubnet;
    OutsideSubnetAt(db, region, id, DeleteSubnet(db, region, id).1, k);
    DropSubnetFollows(db, region, id);
    DeleteSubnetKeepsTags(db, region, id);
    if k in db.tags {
      FollowsAt(db, DeleteSubnet(db, region, id).0, k);
      DeleteSubnetStored(db, region, id, k.resource);
    }
  }

  lemma FollowsAt(before: Db, after: Db, k: TagKey)
    requires Follow(before, after) && k in before.tags
    ensures (k in after.tags <==> Stored(after, k.resource)) && (k in after.tags ==> after.tags[k] == before.tags[k])
  {
    hide Stored;
  }

  /**
   * Deleting a subnet removes exactly the tags of the terminated instances it
   * purges, even when it is refused, and its own when it is served.
   */
  lemma DeleteSubnetTags(db: Db, region: string, id: Id)
    requires Inv(db)
    ensures var (d, served) := DeleteSubnet(db, region, id); d.tags == TagsOutsideSubnet(db, region, id, served)
  {
    hide Inv, DeleteSubnet, TagsOutsideSubnet, SameAt;
    var (d, served) := DeleteSubnet(db, region, id);
    forall k ensures SameAt(d.tags, TagsOutsideSubnet(db, region, id, served), k) {
      DeleteSubnetTag(db, region, id, k);
    }
    SameEverywhere(d.tags, TagsOutsideSubnet(db, region, id, served));
  }

  function Named(ids: seq<Id>): set<Id> {
    set i | i in ids
  }

  /** The tags terminating these instances leaves. */
  function TagsOffInterfacesOf(db: Db, ids: seq<Id>): map<TagKey, string> {
    map k | k in db.tags && !EndsWith(db.enis, Named(ids), k.resource) :: db.tags[k]
  }

  lemma RunningIsGoing(db: Db, ids: seq<Id>, r: Resource)
    requires Compute(db.subnets, db.instances, db.enis)
    ensures EndsWith(db.enis, Going(db, ids), r) <==> EndsWith(db.enis, Named(ids), r)
  {
  }

  lemma TerminateTag(db: Db, ids: seq<Id>, k: TagKey)
    requires Inv(db)
    ensures SameAt(WithEnded(db, Going(db, ids)).tags, TagsOffInterfacesOf(db, ids), k)
  {
    EndedTag(db, Going(db, ids), k);
    hide Networks, Groups, Compute, EniGroups, Defaults, SubnetBlocks, PrivateIps, PublicAddresses, TagsStored, WithEnded, Going, EndsWith;
    RunningIsGoing(db, ids, k.resource);
  }

  /**
   * Terminating removes exactly the tags of the named instances' interfaces: the
   * instances keep theirs, as do the addresses freed.
   */
  lemma TerminateTags(db: Db, region: string, ids: seq<Id>)
    requires Inv(db)
    ensures var o := Terminate(db, region, ids); o.Some? ==> o.value.tags == TagsOffInterfacesOf(db, ids)
  {
    EndAllAtOnce(db, region, ids);
    hide Inv, WithEnded, Going, EndsWith, EndAll, TagsOffInterfacesOf, SameAt;
    var o := Terminate(db, region, ids);
    if o.Some? {
      forall k ensures SameAt(o.value.tags, TagsOffInterfacesOf(db, ids), k) {
        TerminateTag(db, ids, k);
      }
      SameEverywhere(o.value.tags, TagsOffInterfacesOf(db, ids));
    }
  }
}
