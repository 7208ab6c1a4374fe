/** Whole runs of EC2 requests from an empty, unloaded database, and what no run breaks. */
module Ec2Runs {
  import opened Options
  import opened Net
  import opened PublicIps
  import opened Ec2Schema
  import opened Ec2Ops
  import opened Ec2Keeps
  import opened Ec2ComputeKeeps
  import SR = SecurityRules

  datatype Request =
    | CreateTagsOf(resources: set<Resource>, tags: map<string, string>)
    | DeleteTagsOf(resources: set<Resource>, matches: seq<TagMatch>)
    | NewVpc(cidr: string, net: ValidPrefix, id: Id, group: Id, table: Id, assoc: Id, tags: map<string, string>)
    | DropVpc(id: Id)
    | NewSubnet(vpc: Id, net: ValidPrefix, id: Id, tags: map<string, string>)
    | DropSubnet(id: Id)
    | NewGateway(id: Id, tags: map<string, string>)
    | Attach(id: Id, vpc: Id)
    | Detach(id: Id)
    | DropGateway(id: Id)
    | NewRouteTable(vpc: Id, id: Id, tags: map<string, string>)
    | DropRouteTable(id: Id)
    | AssociateTable(table: Id, subnet: Id, id: Id)
    | DisassociateTable(id: Id)
    | NewRoute(table: Id, destination: string, gateway: string)
    | DropRoute(table: Id, destination: string)
    | NewSecurityGroup(vpc: Id, name: string, id: Id, tags: map<string, string>)
    | DropSecurityGroup(id: Id)
    | AuthorizeRules(group: Id, egress: bool, news: seq<SR.NewRule>)
    | RevokeRules(group: Id, egress: bool, revocations: seq<SR.Revocation>)
    | Launch(subnet: Id, groups: seq<Id>, want: Option<nat>, auto: bool, guarded: bool, id: Id, eni: Id,
             tags: map<string, string>, eniTags: map<string, string>)
    | Guard(id: Id, guarded: bool)
    | Regroup(eni: Id, groups: seq<Id>)
    | TerminateAll(ids: seq<Id>)
    | AllocateIp(id: Id, tags: map<string, string>)
    | AssociateIp(id: Id, onEni: Option<Id>, instance: Option<Id>, privateIp: Option<nat>, reassociate: bool, assoc: Id)
    | DisassociateIp(assoc: Id)
    | ReleaseIp(id: Id)

  function Else<T>(o: Option<T>, t: T): T {
    if o.Some? then o.value else t
  }

  /** Network requests: a refusal leaves the tables as they were. */
  function NetworkStep(db: Db, region: string, r: Request): Db {
    match r
    case NewVpc(cidr, net, id, group, table, assoc, tags) => Else(CreateVpc(db, region, cidr, net, id, group, table, assoc, tags), db)
    case DropVpc(id) => Else(DeleteVpc(db, region, id), db)
    case NewSubnet(vpc, net, id, tags) => Else(CreateSubnet(db, region, vpc, net, id, tags), db)
    case DropSubnet(id) => DeleteSubnet(db, region, id).0
    case NewGateway(id, tags) => Else(CreateGateway(db, region, id, tags), db)
    case Attach(id, vpc) => Else(AttachGateway(db, region, id, vpc), db)
    case Detach(id) => Else(DetachGateway(db, region, id), db)
    case DropGateway(id) => Else(DeleteGateway(db, region, id), db)
    case NewRouteTable(vpc, id, tags) => Else(CreateRouteTable(db, region, vpc, id, tags), db)
    case DropRouteTable(id) => Else(DeleteRouteTable(db, region, id), db)
    case AssociateTable(table, subnet, id) => Else(AssociateRouteTable(db, region, table, subnet, id), db)
    case DisassociateTable(id) => Else(DisassociateRouteTable(db, id), db)
    case NewRoute(table, destination, gateway) => Else(CreateRoute(db, region, table, destination, gateway), db)
    case DropRoute(table, destination) => Else(DeleteRoute(db, region, table, destination), db)
    case _ => db
  }

  ghost function Step(db: Db, region: string, r: Request): Db {
    match r
    case CreateTagsOf(resources, tags) => Else(CreateTags(db, region, resources, tags), db)
    case DeleteTagsOf(resources, matches) => Else(DeleteTags(db, region, resources, matches), db)
    case NewSecurityGroup(vpc, name, id, tags) => Else(CreateGroup(db, region, vpc, name, id, tags), db)
    case DropSecurityGroup(id) => Else(DeleteGroup(db, region, id), db)
    case AuthorizeRules(group, egress, news) => Else(Authorize(db, region, group, egress, news), db)
    case RevokeRules(group, egress, vs) => Else(Revoke(db, region, group, egress, vs), db)
    case Launch(subnet, groups, want, auto, guarded, id, eni, tags, eniTags) =>
      Else(RunInstance(db, region, subnet, groups, want, auto, guarded, id, eni, tags, eniTags), db)
    case Guard(id, guarded) => Else(SetGuard(db, region, id, guarded), db)
    case Regroup(eni, groups) => Else(SetGroups(db, region, eni, groups), db)
    case TerminateAll(ids) => Else(Terminate(db, region, ids), db)
    case AllocateIp(id, tags) => Else(Allocate(db, region, id, tags), db)
    case AssociateIp(id, eni, instance, privateIp, reassociate, assoc) =>
      Else(Associate(db, region, id, eni, instance, privateIp, reassociate, assoc), db)
    case DisassociateIp(assoc) => Else(Disassociate(db, region, assoc), db)
    case ReleaseIp(id) => Else(Release(db, region, id), db)
    case _ => NetworkStep(db, region, r)
  }

  /** A request with the region it was sent to. */
  datatype Call = Call(region: string, request: Request)

  ghost function Run(db: Db, calls: seq<Call>): Db
    decreases |calls|
  {
    if calls == [] then db else Run(Step(db, calls[0].region, calls[0].request), calls[1..])
  }

  // ----- every run keeps the invariant -----

  lemma NetworkStepKeeps(db: Db, region: string, r: Request)
    requires Inv(db)
    ensures Inv(NetworkStep(db, region, r))
  {
    hide Inv, CreateVpc, DeleteVpc, CreateSubnet, DeleteSubnet, CreateGateway, AttachGateway, DetachGateway, DeleteGateway,
         CreateRouteTable, DeleteRouteTable, AssociateRouteTable, DisassociateRouteTable, CreateRoute, DeleteRoute;
    match r
    case NewVpc(cidr, net, id, group, table, assoc, tags) => CreateVpcKeeps(db, region, cidr, net, id, group, table, assoc, tags);
    case DropVpc(id) => DeleteVpcKeeps(db, region, id);
    case NewSubnet(vpc, net, id, tags) => CreateSubnetKeeps(db, region, vpc, net, id, tags);
    case DropSubnet(id) => DeleteSubnetKeeps(db, region, id);
    case NewGateway(id, tags) => CreateGatewayKeeps(db, region, id, tags);
    case Attach(id, vpc) => MoveGatewayKeeps(db, region, id, vpc);
    case Detach(id) => MoveGatewayKeeps(db, region, id, "");
    case DropGateway(id) => DeleteGatewayKeeps(db, region, id);
    case NewRouteTable(vpc, id, tags) => CreateRouteTableKeeps(db, region, vpc, id, tags);
    case DropRouteTable(id) => DeleteRouteTableKeeps(db, region, id);
    case AssociateTable(table, subnet, id) => AssociateRouteTableKeeps(db, region, table, subnet, id);
    case DisassociateTable(id) => DisassociateRouteTableKeeps(db, id);
    case NewRoute(table, destination, gateway) => RoutesKeep(db, region, table, destination, gateway);
    case DropRoute(table, destination) => RoutesKeep(db, region, table, destination, "");
    case _ =>
  }

  predicate OnCompute(r: Request) {
    r.Launch? || r.Guard? || r.Regroup? || r.TerminateAll? || r.AllocateIp? || r.AssociateIp? || r.DisassociateIp? || r.ReleaseIp?
  }

  predicate OnGroups(r: Request) {
    r.CreateTagsOf? || r.DeleteTagsOf? || r.NewSecurityGroup? || r.DropSecurityGroup? || r.AuthorizeRules? || r.RevokeRules?
  }

  lemma ComputeStepKeeps(db: Db, region: string, r: Request)
    requires Inv(db) && OnCompute(r)
    ensures Inv(Step(db, region, r))
  {
    hide Inv, NetworkStep, RunInstance, SetGuard, SetGroups, EndAll, Allocate, Associate, Disassociate, Release;
    match r
    case Launch(subnet, groups, want, auto, guarded, id, eni, tags, eniTags) =>
      RunInstanceKeeps(db, region, subnet, groups, want, auto, guarded, id, eni, tags, eniTags);
    case Guard(id, guarded) => SetGuardKeeps(db, region, id, guarded);
    case Regroup(eni, groups) => SetGroupsKeeps(db, region, eni, groups);
    case TerminateAll(ids) => EndAllKeeps(db, region, ids);
    case AllocateIp(id, tags) => AllocateKeeps(db, region, id, tags);
    case AssociateIp(id, eni, instance, privateIp, reassociate, assoc) =>
      AssociateKeeps(db, region, id, eni, instance, privateIp, reassociate, assoc);
    case DisassociateIp(assoc) => DisassociateKeeps(db, region, assoc);
    case ReleaseIp(id) => ReleaseKeeps(db, region, id);
  }

  lemma GroupStepKeeps(db: Db, region: string, r: Request)
    requires Inv(db) && OnGroups(r)
    ensures Inv(Step(db, region, r))
  {
    hide Inv, NetworkStep, CreateTags, DeleteTags, CreateGroup, DeleteGroup, Authorize, Revoke;
    match r
    case CreateTagsOf(resources, tags) => CreateTagsKeeps(db, region, resources, tags);
    case DeleteTagsOf(resources, matches) => DeleteTagsKeeps(db, region, resources, matches);
    case NewSecurityGroup(vpc, name, id, tags) => CreateGroupKeeps(db, region, vpc, name, id, tags);
    case DropSecurityGroup(id) => DeleteGroupKeeps(db, region, id);
    case AuthorizeRules(group, egress, news) => AuthorizeKeeps(db, region, group, egress, news);
    case RevokeRules(group, egress, vs) => RevokeKeeps(db, region, group, egress, vs);
  }

  lemma OtherStepIsNetwork(db: Db, region: string, r: Request)
    requires !OnCompute(r) && !OnGroups(r)
    ensures Step(db, region, r) == NetworkStep(db, region, r)
  {
    hide NetworkStep;
  }

  lemma StepKeeps(db: Db, region: string, r: Request)
    requires Inv(db)
    ensures Inv(Step(db, region, r))
  {
    hide Inv, Step, NetworkStep;
    if OnCompute(r) {
      ComputeStepKeeps(db, region, r);
    } else if OnGroups(r) {
      GroupStepKeeps(db, region, r);
    } else {
      OtherStepIsNetwork(db, region, r);
      NetworkStepKeeps(db, region, r);
    }
  }

  lemma {:induction false} RunKeeps(db: Db, calls: seq<Call>)
    requires Inv(db)
    ensures Inv(Run(db, calls))
    decreases |calls|
  {
    hide Inv, Step;
    if calls != [] {
      StepKeeps(db, calls[0].region, calls[0].request);
      RunKeeps(Step(db, calls[0].region, calls[0].request), calls[1..]);
    }
  }

  lemma EmptyIsFine()
    ensures Inv(EMPTY_DB)
  {
  }

  /** The tables after any run from an empty database. */
  ghost function Reached(calls: seq<Call>): Db {
    Run(EMPTY_DB, calls)
  }

  lemma ReachedKeeps(calls: seq<Call>)
    ensures Inv(Reached(calls))
  {
    EmptyIsFine();
    RunKeeps(EMPTY_DB, calls);
    hide Inv;
  }

  // ----- what that means -----

  lemma RangesKept(db: Db, e: Id)
    requires Compute(db.subnets, db.instances, db.enis) && SubnetBlocks(db.vpcs, db.subnets) && PrivateIps(db.subnets, db.enis)
    requires Networks(db.vpcs, db.subnets, db.gateways, db.tables, db.assocs, db.routes)
    requires e in db.enis
    ensures db.enis[e].vpc in db.vpcs && db.vpcs[db.enis[e].vpc].net.Prefix?
    ensures db.vpcs[db.enis[e].vpc].net.Contains(false, db.enis[e].privateIp)
    ensures var s := db.enis[e].subnet;
            && s in db.subnets && db.subnets[s].vpc == db.enis[e].vpc
            && db.subnets[s].net.Prefix? && db.subnets[s].net.Contains(false, db.enis[e].privateIp)
  {
    var sub, vpc := db.subnets[db.enis[e].subnet].net, db.vpcs[db.enis[e].vpc].net;
    UsableIsContained(sub, db.enis[e].privateIp);
    InsideIsSubset(vpc, sub, db.enis[e].privateIp);
  }

  /**
   * Every interface's private IP is an address of its VPC, and no two
   * interfaces of a VPC have the same, whatever subnets they are in.
   */
  lemma PrivateIpsAreTheVpcs(calls: seq<Call>, e: Id, f: Id)
    requires e in Reached(calls).enis && f in Reached(calls).enis
    ensures var db := Reached(calls);
            var vpc := db.enis[e].vpc;
            && vpc in db.vpcs && db.vpcs[vpc].net.Prefix? && db.vpcs[vpc].net.Contains(false, db.enis[e].privateIp)
            && (e != f && db.enis[f].vpc == vpc ==> db.enis[e].privateIp != db.enis[f].privateIp)
  {
    ReachedKeeps(calls);
    hide Run, Networks, Groups, Compute, EniGroups, Defaults, PublicAddresses, TagsStored;
    var db := Reached(calls);
    RangesKept(db, e);
    RangesKept(db, f);
    var s, t := db.enis[e].subnet, db.enis[f].subnet;
    if s != t && db.enis[e].vpc == db.enis[f].vpc {
      OverlapIsShared(db.subnets[s].net, db.subnets[t].net);
    }
  }

  /** Each VPC has exactly one default group and one main association, and each route table its local route. */
  lemma VpcsKeepTheirDefaults(calls: seq<Call>, v: Id)
    requires v in Reached(calls).vpcs
    ensures var db := Reached(calls);
            && (exists g :: g in db.groups && db.groups[g].vpc == v && db.groups[g].name == DEFAULT_GROUP &&
                 forall h :: h in db.groups && db.groups[h].vpc == v && db.groups[h].name == DEFAULT_GROUP ==> h == g)
            && (exists a :: a in db.assocs && db.assocs[a].vpc == v && db.assocs[a].main &&
                 forall b :: b in db.assocs && db.assocs[b].vpc == v && db.assocs[b].main ==> b == a)
            && (forall t :: t in db.tables && db.tables[t].vpc == v ==>
                 RouteKey(t, db.vpcs[v].cidr) in db.routes && db.routes[RouteKey(t, db.vpcs[v].cidr)] == LOCAL_GATEWAY)
  {
    ReachedKeeps(calls);
    hide Run, Networks, Compute, EniGroups, SubnetBlocks, PrivateIps, PublicAddresses, TagsStored, RulesIn;
    var db := Reached(calls);
    assert HasDefaultGroup(db.groups, v) && HasMain(db.assocs, v);
  }

  /**
   * An Elastic IP is on at most one interface and an interface has at most one;
   * they show one address, which nothing else in the region shows or holds; an
   * interface with none shows nothing, or an automatic address if it was launched so.
   */
  lemma AddressesAgree(calls: seq<Call>, a: Id, e: Id)
    requires a in Reached(calls).addresses && e in Reached(calls).enis
    requires Reached(calls).addresses[a].region == Reached(calls).enis[e].region
    ensures var db := Reached(calls);
            && (OnEni(db.addresses, a, e) <==> db.enis[e].publicIp == Some(db.addresses[a].publicIp))
            && (forall b :: OnEni(db.addresses, a, e) && OnEni(db.addresses, b, e) ==> b == a)
            && (forall b :: b in db.addresses && b != a && db.addresses[b].region == db.addresses[a].region ==>
                  db.addresses[b].publicIp != db.addresses[a].publicIp)
            && (forall f :: f in db.enis && f != e && db.enis[f].region == db.enis[e].region && db.enis[e].publicIp.Some? ==>
                  db.enis[f].publicIp != db.enis[e].publicIp)
            && (Bare(db.addresses, e) ==>
                  if db.enis[e].auto then db.enis[e].publicIp.Some? && db.enis[e].publicIp.value.net == AUTO_NET
                  else db.enis[e].publicIp == None)
  {
    ReachedKeeps(calls);
    hide Run, Networks, Groups, Compute, EniGroups, SubnetBlocks, PrivateIps, Defaults, TagsStored;
    var db := Reached(calls);
    EipIsNotAuto();
    if db.enis[e].publicIp == Some(db.addresses[a].publicIp) && !Bare(db.addresses, e) {
      var b :| OnEni(db.addresses, b, e);
      assert db.addresses[b].publicIp == db.addresses[a].publicIp;
    }
  }

  /** Every tag names a stored resource, and every interface stored groups of its VPC. */
  lemma NothingDangles(calls: seq<Call>)
    ensures var db := Reached(calls);
            && (forall k :: k in db.tags ==> Stored(db, k.resource))
            && (forall g :: g in db.gateways && db.gateways[g].vpc.Some? ==> db.gateways[g].vpc.value in db.vpcs)
            && (forall e, g :: e in db.enis && g in db.enis[e].groups ==> g in db.groups && db.groups[g].vpc == db.enis[e].vpc)
            && (forall r :: r in db.rules ==> r.group in db.groups)
            && SR.WellOrdered(db.rules)
  {
    ReachedKeeps(calls);
    hide Run, Compute, SubnetBlocks, PrivateIps, PublicAddresses, Defaults, SR.WellOrdered;
  }

  /** No interface and no address names a terminated instance. */
  lemma TerminatedIsUnnamed(calls: seq<Call>, i: Id)
    requires i in Reached(calls).instances && Reached(calls).instances[i].state == Terminated
    ensures var db := Reached(calls);
            && (forall e :: e in db.enis ==> db.enis[e].instance != i)
            && (forall a :: a in db.addresses && db.addresses[a].on.Some? ==> db.addresses[a].on.value.instance != i)
  {
    ReachedKeeps(calls);
    hide Run, Networks, Groups, EniGroups, SubnetBlocks, PrivateIps, Defaults, TagsStored;
    var db := Reached(calls);
    forall a | a in db.addresses && db.addresses[a].on.Some? ensures db.addresses[a].on.value.instance != i {
      assert OnEni(db.addresses, a, db.addresses[a].on.value.eni);
    }
  }

  // ----- terminating -----

  /** The ids of the list that are not terminated yet. */
  function Going(db: Db, ids: seq<Id>): set<Id> {
    set i | i in ids && i in db.instances && db.instances[i].state == Running
  }

  lemma EndingTwice(db: Db, a: set<Id>, b: set<Id>)
    ensures WithEnded(WithEnded(db, a), b) == WithEnded(db, a + b)
  {
    var one, two := WithEnded(WithEnded(db, a), b), WithEnded(db, a + b);
    EndingTwiceInstances(db, a, b);
    assert one.enis == two.enis;
    assert one.addresses == two.addresses;
    EndingTwiceTags(db, a, b);
  }

  lemma EndingTwiceInstances(db: Db, a: set<Id>, b: set<Id>)
    ensures WithEnded(WithEnded(db, a), b).instances == WithEnded(db, a + b).instances
  {
  }

  lemma EndingTwiceTags(db: Db, a: set<Id>, b: set<Id>)
    ensures WithEnded(WithEnded(db, a), b).tags == WithEnded(db, a + b).tags
  {
    hide WithEnded, Stored;
    var mid, one, two := WithEnded(db, a), WithEnded(WithEnded(db, a), b), WithEnded(db, a + b);
    forall k ensures k in one.tags <==> k in two.tags {
      EndedTag(db, a, k);
      EndedTag(mid, b, k);
      EndedTag(db, a + b, k);
    }
    forall k | k in one.tags ensures one.tags[k] == two.tags[k] {
      EndedTag(db, a, k);
      EndedTag(mid, b, k);
      EndedTag(db, a + b, k);
    }
    assert one.tags.Keys == two.tags.Keys;
  }

  /** The tags that go are those of the interfaces that go. */
  lemma EndedTag(db: Db, gone: set<Id>, k: TagKey)
    ensures var d := WithEnded(db, gone);
            && (k in d.tags <==> k in db.tags && !EndsWith(db.enis, gone, k.resource))
            && (k in d.tags ==> d.tags[k] == db.tags[k])
            && forall b :: EndsWith(d.enis, b, k.resource) <==> EndsWith(db.enis, b, k.resource) && !EndsWith(db.enis, gone, k.resource)
  {
    EndedStored(db, gone, k.resource);
  }

  predicate EndsWith(enis: map<Id, Eni>, gone: set<Id>, r: Resource) {
    r.EniRow? && r.id in enis && enis[r.id].instance in gone
  }

  lemma EndedStored(db: Db, gone: set<Id>, r: Resource)
    ensures Stored(WithEnded(db, gone), r) <==>
            Stored(db, r) && !EndsWith(db.enis, gone, r)
  {
  }

  lemma EndingNone(db: Db)
    ensures WithEnded(db, {}) == db
  {
    var d := WithEnded(db, {});
    assert d.instances == db.instances;
    assert d.enis == db.enis && d.addresses == db.addresses;
    assert d.tags == db.tags;
  }

  ghost predicate FirstRefused(db: Db, region: string, ids: seq<Id>, k: nat) {
    k < |ids| && Refuses(db, region, ids[k]) && forall j :: 0 <= j < k ==> !Refuses(db, region, ids[j])
  }

  /**
   * Terminating a list in turn is terminating it at once: refused, and then
   * nothing changes, exactly when some id is refused by the tables as they were,
   * the first of these being blamed; and a repeated id was terminated already.
   */
  lemma {:induction false} EndAllAtOnce(db: Db, region: string, ids: seq<Id>)
    ensures match EndAll(db, region, ids)
            case Blamed(id) => exists k: nat :: FirstRefused(db, region, ids, k) && ids[k] == id
            case Ended(after, previous) =>
              && (forall k :: 0 <= k < |ids| ==> !Refuses(db, region, ids[k]))
              && after == WithEnded(db, Going(db, ids))
              && |previous| == |ids|
              && (forall k :: 0 <= k < |ids| ==>
                    previous[k] == if ids[k] in ids[..k] then Terminated else db.instances[ids[k]].state)
    decreases |ids|
  {
    if ids == [] {
      EndingNone(db);
      assert Going(db, ids) == {};
    } else if Refuses(db, region, ids[0]) {
      assert FirstRefused(db, region, ids, 0);
    } else {
      var rest, mid := ids[1..], EndOne(db, region, ids[0]);
      EndOneStates(db, region, ids[0]);
      EndAllAtOnce(mid, region, rest);
      hide EndOne, WithEnded, Refuses, Going;
      match EndAll(mid, region, rest)
      case Blamed(id) =>
        var k: nat :| FirstRefused(mid, region, rest, k) && rest[k] == id;
        assert FirstRefused(db, region, ids, k + 1);
      case Ended(after, previous) =>
        EndOneThenRest(db, region, ids);
        PreviousStates(db.instances, mid.instances, ids, previous);
        forall k | 0 <= k < |ids| ensures !Refuses(db, region, ids[k]) && ids[k] in db.instances {
          assert k > 0 ==> ids[k] == rest[k - 1];
        }
    }
  }

  /** Ending one instance changes no other's state, and refuses no other. */
  lemma EndOneStates(db: Db, region: string, x: Id)
    requires !Refuses(db, region, x)
    ensures var d := EndOne(db, region, x);
            && EndedStates(db.instances, d.instances, x)
            && forall y :: Refuses(d, region, y) <==> Refuses(db, region, y)
  {
  }

  ghost predicate EndedStates(before: map<Id, Instance>, after: map<Id, Instance>, x: Id) {
    && x in before && (forall y :: y in before <==> y in after)
    && forall y :: y in before ==> after[y].state == if y == x then Terminated else before[y].state
  }

  lemma EndOneThenRest(db: Db, region: string, ids: seq<Id>)
    requires ids != [] && !Refuses(db, region, ids[0])
    ensures WithEnded(EndOne(db, region, ids[0]), Going(EndOne(db, region, ids[0]), ids[1..])) == WithEnded(db, Going(db, ids))
  {
    var x, mid := ids[0], EndOne(db, region, ids[0]);
    var later := Going(mid, ids[1..]);
    if db.instances[x].state == Terminated {
      assert Going(db, ids) == later;
    } else {
      assert {x} + later == Going(db, ids) by {
        forall y ensures y in {x} + later <==> y in Going(db, ids) {
          assert y in ids <==> y == x || y in ids[1..];
        }
      }
      EndingTwice(db, {x}, later);
    }
  }

  lemma PreviousStates(before: map<Id, Instance>, after: map<Id, Instance>, ids: seq<Id>, later: seq<State>)
    requires ids != [] && |later| == |ids| - 1 && EndedStates(before, after, ids[0])
    requires forall k :: 0 <= k < |later| ==>
               ids[1..][k] in after &&
               later[k] == if ids[1..][k] in ids[1..][..k] then Terminated else after[ids[1..][k]].state
    ensures var previous := [before[ids[0]].state] + later;
            forall k :: 0 <= k < |ids| ==>
              ids[k] in before && previous[k] == if ids[k] in ids[..k] then Terminated else before[ids[k]].state
  {
    var previous := [before[ids[0]].state] + later;
    forall k | 1 <= k < |ids|
      ensures ids[k] in before && previous[k] == if ids[k] in ids[..k] then Terminated else before[ids[k]].state
    {
      assert ids[1..][k - 1] == ids[k] && ids[1..][..k - 1] == ids[1..k];
      assert ids[..k] == [ids[0]] + ids[1..k];
      assert previous[k] == later[k - 1];
    }
  }

  /** No instance in both states comes back from terminated. */
  ghost predicate NoneReturns(before: Db, after: Db) {
    forall i :: i in before.instances && before.instances[i].state == Terminated && i in after.instances ==>
      after.instances[i].state == Terminated
  }

  lemma GatewaysKeepInstances(db: Db, region: string, r: Request)
    requires r.NewGateway? || r.Attach? || r.Detach? || r.DropGateway? || r.NewRouteTable? || r.DropRouteTable?
             || r.AssociateTable? || r.DisassociateTable? || r.NewRoute? || r.DropRoute?
    ensures NetworkStep(db, region, r).instances == db.instances
  {
    hide TagMap, AssocsOf, RoutesOf, Stored;
  }

  lemma VpcsKeepInstances(db: Db, region: string, r: Request)
    requires r.NewVpc? || r.DropVpc? || r.NewSubnet? || r.DropSubnet?
    ensures NoneReturns(db, NetworkStep(db, region, r))
  {
    hide VpcFits, VpcGoes, Occupied, TagMap, Detached, AssocsOf, RoutesOf, RulesOf, InRange, Overlaps, Stored;
  }

  lemma TagsKeepInstances(db: Db, region: string, r: Request)
    requires r.CreateTagsOf? || r.DeleteTagsOf?
    ensures Step(db, region, r).instances == db.instances
  {
    hide InRegion, TagAll, Unselected;
  }

  lemma GroupsKeepInstances(db: Db, region: string, r: Request)
    requires r.NewSecurityGroup? || r.DropSecurityGroup?
    ensures Step(db, region, r).instances == db.instances
  {
    hide TagMap, RulesOf, Stored, Held;
  }

  lemma RulesKeepInstances(db: Db, region: string, group: Id, egress: bool, news: seq<SR.NewRule>, vs: seq<SR.Revocation>)
    ensures Else(Authorize(db, region, group, egress, news), db).instances == db.instances
    ensures Else(Revoke(db, region, group, egress, vs), db).instances == db.instances
  {
    var _ := SR.Authorize(db.rules, group, egress, news);
    var _ := SR.Revoke(db.rules, group, egress, vs);
    hide SR.Authorize, SR.Revoke;
  }

  lemma AddressesKeepInstances(db: Db, region: string, r: Request)
    requires r.AllocateIp? || r.AssociateIp? || r.DisassociateIp? || r.ReleaseIp? || r.Regroup?
    ensures Step(db, region, r).instances == db.instances
  {
    hide NetworkStep, Allocate, Associate, Disassociate, Release, SetGroups, CreateTags, DeleteTags, CreateGroup, DeleteGroup,
         Authorize, Revoke, RunInstance, SetGuard, Terminate;
    if r.AllocateIp? || r.ReleaseIp? {
      AllocatingKeepsInstances(db, region, r.id, if r.AllocateIp? then r.tags else map[]);
    } else if r.AssociateIp? {
      AssociatingKeepsInstances(db, region, r.id, r.onEni, r.instance, r.privateIp, r.reassociate, r.assoc);
    } else if r.DisassociateIp? {
      DisassociatingKeepsInstances(db, region, r.assoc);
    } else {
      RegroupingKeepsInstances(db, region, r.eni, r.groups);
    }
  }

  lemma AllocatingKeepsInstances(db: Db, region: string, id: Id, tags: map<string, string>)
    ensures Else(Allocate(db, region, id, tags), db).instances == db.instances
    ensures Else(Release(db, region, id), db).instances == db.instances
  {
    hide FreeIp, HeldIps, TagMap, Stored;
  }

  lemma DisassociatingKeepsInstances(db: Db, region: string, assoc: Id)
    ensures Else(Disassociate(db, region, assoc), db).instances == db.instances
  {
    hide ClaimAuto;
  }

  lemma RegroupingKeepsInstances(db: Db, region: string, eni: Id, groups: seq<Id>)
    ensures Else(SetGroups(db, region, eni, groups), db).instances == db.instances
  {
    hide GroupsUsable;
  }

  lemma AssociatingKeepsInstances(db: Db, region: string, id: Id, eni: Option<Id>, instance: Option<Id>, privateIp: Option<nat>,
                                  reassociate: bool, assoc: Id)
    ensures var o := Associate(db, region, id, eni, instance, privateIp, reassociate, assoc);
            o.Some? ==> o.value.instances == db.instances
  {
    hide Target;
  }

  lemma LaunchKeepsInstances(db: Db, region: string, r: Request)
    requires r.Launch? || r.Guard?
    ensures NoneReturns(db, Step(db, region, r))
  {
    hide PrivateIp, ClaimAuto, GroupsUsable, TagMap;
  }

  lemma TerminatingKeepsInstances(db: Db, region: string, ids: seq<Id>)
    ensures NoneReturns(db, Step(db, region, TerminateAll(ids)))
  {
    EndAllAtOnce(db, region, ids);
    hide EndAll, WithEnded, Going, Refuses;
    forall i | i in db.instances && db.instances[i].state == Terminated
      ensures var d := WithEnded(db, Going(db, ids)); i in d.instances && d.instances[i].state == Terminated
    {
      EndedStay(db, Going(db, ids), i);
    }
  }

  /** No request moves an instance out of terminated: it stays so until it is purged. */
  lemma TerminatedStays(db: Db, region: string, r: Request)
    ensures NoneReturns(db, Step(db, region, r))
  {
    if r.TerminateAll? {
      TerminatingKeepsInstances(db, region, r.ids);
    } else if r.Launch? || r.Guard? {
      LaunchKeepsInstances(db, region, r);
    } else if r.AllocateIp? || r.AssociateIp? || r.DisassociateIp? || r.ReleaseIp? || r.Regroup? {
      AddressesKeepInstances(db, region, r);
    } else if r.CreateTagsOf? || r.DeleteTagsOf? {
      TagsKeepInstances(db, region, r);
    } else if r.NewSecurityGroup? || r.DropSecurityGroup? {
      GroupsKeepInstances(db, region, r);
    } else if r.AuthorizeRules? {
      RulesKeepInstances(db, region, r.group, r.egress, r.news, []);
    } else if r.RevokeRules? {
      RulesKeepInstances(db, region, r.group, r.egress, [], r.revocations);
    } else {
      OtherStepIsNetwork(db, region, r);
      hide Step, NetworkStep;
      if r.NewVpc? || r.DropVpc? || r.NewSubnet? || r.DropSubnet? {
        VpcsKeepInstances(db, region, r);
      } else {
        GatewaysKeepInstances(db, region, r);
      }
    }
  }

  lemma EndedStay(db: Db, gone: set<Id>, i: Id)
    requires i in db.instances && db.instances[i].state == Terminated
    ensures var d := WithEnded(db, gone); i in d.instances && d.instances[i].state == Terminated
  {
  }

  /** The instance is stored before, after and between all the calls. */
  ghost predicate StoredThroughout(db: Db, calls: seq<Call>, i: Id)
    decreases |calls|
  {
    i in db.instances && (calls != [] ==> StoredThroughout(Step(db, calls[0].region, calls[0].request), calls[1..], i))
  }

  /** No run moves an instance out of terminated while it is stored. */
  lemma {:induction false} TerminatedForGood(db: Db, calls: seq<Call>, i: Id)
    requires StoredThroughout(db, calls, i) && db.instances[i].state == Terminated
    ensures i in Run(db, calls).instances && Run(db, calls).instances[i].state == Terminated
    decreases |calls|
  {
    hide Step;
    if calls != [] {
      var c := calls[0];
      TerminatedStays(db, c.region, c.request);
      TerminatedForGood(Step(db, c.region, c.request), calls[1..], i);
    }
  }

  // ----- exactly when a request is served -----

  lemma InstancesInSubnet(db: Db, s: Id)
    requires Compute(db.subnets, db.instances, db.enis)
    ensures Occupied(db, s) <==> exists i :: i in db.instances && db.instances[i].subnet == s
  {
  }

  predicate SubnetOf(db: Db, subnet: Id, vpc: Id) {
    subnet in db.subnets && db.subnets[subnet].vpc == vpc
  }

  /**
   * A VPC of the region is deleted exactly when its subnets hold no instance,
   * terminated ones included.
   */
  lemma DeleteVpcExactly(calls: seq<Call>, region: string, id: Id)
    ensures var db := Reached(calls);
            DeleteVpc(db, region, id).Some? <==>
              && id in db.vpcs && db.vpcs[id].region == region
              && !exists i :: i in db.instances && SubnetOf(db, db.instances[i].subnet, id)
  {
    ReachedKeeps(calls);
    hide Run, Networks, Groups, EniGroups, SubnetBlocks, PrivateIps, PublicAddresses, Defaults, TagsStored;
    var db := Reached(calls);
    if i :| i in db.instances && SubnetOf(db, db.instances[i].subnet, id) {
      assert Occupied(db, db.instances[i].subnet);
    }
    forall s | s in db.subnets && db.subnets[s].vpc == id && Occupied(db, s)
      ensures exists i :: i in db.instances && SubnetOf(db, db.instances[i].subnet, id)
    {
      InstancesInSubnet(db, s);
    }
  }

  /** A subnet of the region is deleted exactly when it holds no running instance: terminated ones are purged. */
  lemma DeleteSubnetExactly(calls: seq<Call>, region: string, id: Id)
    ensures var db := Reached(calls);
            DeleteSubnet(db, region, id).1 <==>
              && id in db.subnets && db.subnets[id].region == region
              && !exists i :: i in db.instances && db.instances[i].subnet == id && db.instances[i].state == Running
  {
    ReachedKeeps(calls);
    hide Run, Networks, Groups, EniGroups, SubnetBlocks, PrivateIps, PublicAddresses, Defaults, TagsStored;
    var db := Reached(calls);
    var db1 := Collected(db, region, id);
    if id in db.subnets && db.subnets[id].region == region {
      forall i | i in db1.instances && db1.instances[i].subnet == id ensures i in db.instances && db.instances[i].state == Running {
      }
      if i :| i in db.instances && db.instances[i].subnet == id && db.instances[i].state == Running {
        assert i in db1.instances && Occupied(db1, id);
      }
      forall e | e in db1.enis && db1.enis[e].subnet == id ensures db1.enis[e].instance in db.instances && db.instances[db1.enis[e].instance].subnet == id {
      }
    }
  }

  /** The interfaces of a subnet. */
  ghost function EnisInSubnet(db: Db, subnet: Id): set<Id> {
    set e | e in db.enis && db.enis[e].subnet == subnet
  }

  lemma {:induction false} UsedIsCounted(enis: map<Id, Eni>, es: set<Id>)
    requires forall e :: e in es ==> e in enis
    requires forall e, f :: e in es && f in es && e != f ==> enis[e].privateIp != enis[f].privateIp
    ensures |set e | e in es :: enis[e].privateIp| == |es|
    decreases |es|
  {
    if es != {} {
      var e :| e in es;
      UsedIsCounted(enis, es - {e});
      assert (set x | x in es :: enis[x].privateIp) == (set x | x in es - {e} :: enis[x].privateIp) + {enis[e].privateIp};
    }
  }

  /**
   * A plain launch into an IPv4 subnet is served exactly while the subnet has
   * fewer interfaces than the addresses it advertised, at the lowest free one.
   */
  lemma LaunchServedExactly(calls: seq<Call>, region: string, subnet: Id, groups: seq<Id>, guarded: bool, id: Id, eni: Id)
    requires var db := Reached(calls);
             && subnet in db.subnets && db.subnets[subnet].region == region
             && (db.subnets[subnet].net.Prefix? ==> !db.subnets[subnet].net.v6)
             && GroupsUsable(db, region, db.subnets[subnet].vpc, groups) && id !in db.instances && eni !in db.enis
    ensures var db := Reached(calls);
            var net := db.subnets[subnet].net;
            var o := RunInstance(db, region, subnet, groups, None, false, guarded, id, eni, map[], map[]);
            && (o.Some? <==> |EnisInSubnet(db, subnet)| < SubnetAvailable(net))
            && (o.Some? ==> eni in o.value.enis)
            && (o.Some? ==> net.Prefix? && forall y: nat :: Usable(net, y) && y < o.value.enis[eni].privateIp ==>
                  exists e :: e in EnisInSubnet(db, subnet) && db.enis[e].privateIp == y)
  {
    ReachedKeeps(calls);
    hide Run, Networks, Groups, EniGroups, PublicAddresses, Defaults, TagsStored, GroupsUsable;
    var db := Reached(calls);
    var net, used, es := db.subnets[subnet].net, UsedIps(db.enis, subnet), EnisInSubnet(db, subnet);
    assert used == set e | e in es :: db.enis[e].privateIp;
    UsedIsCounted(db.enis, es);
    ServedUntilFull(net, used);
  }
}
