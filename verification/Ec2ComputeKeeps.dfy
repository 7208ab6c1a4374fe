/** Every request on groups, instances and addresses keeps the invariant. */
module Ec2ComputeKeeps {
  import opened Options
  import opened Net
  import opened PublicIps
  import opened Ec2Schema
  import opened Ec2Ops
  import opened Ec2Keeps
  import SR = SecurityRules

  // ----- security groups -----

  lemma NewGroup(db: Db, row: Group, id: Id)
    requires Groups(db.vpcs, db.groups, db.rules) && EniGroups(db.groups, db.enis)
    requires row.vpc in db.vpcs && id !in db.groups
    requires forall g :: g in db.groups && db.groups[g].vpc == row.vpc ==> db.groups[g].name != row.name
    ensures Groups(db.vpcs, db.groups[id := row], db.rules) && EniGroups(db.groups[id := row], db.enis)
  {
    hide SR.WellOrdered;
  }

  lemma NewGroupDefaults(db: Db, row: Group, id: Id)
    requires Defaults(db.vpcs, db.groups, db.tables, db.assocs, db.routes) && id !in db.groups
    ensures Defaults(db.vpcs, db.groups[id := row], db.tables, db.assocs, db.routes)
  {
    hide OneMain, MainTables, LocalRoutes;
    var groups := db.groups[id := row];
    forall v | v in db.vpcs ensures HasDefaultGroup(groups, v) {
      var g :| g in db.groups && db.groups[g].vpc == v && db.groups[g].name == DEFAULT_GROUP;
      assert groups[g] == db.groups[g];
    }
  }

  lemma CreateGroupKeeps(db: Db, region: string, vpc: Id, name: string, id: Id, tags: map<string, string>)
    requires Inv(db)
    ensures var o := CreateGroup(db, region, vpc, name, id, tags); o.Some? ==> Inv(o.value)
  {
    hide Networks, Groups, Compute, EniGroups, Defaults, SubnetBlocks, PrivateIps, PublicAddresses, TagsStored;
    if CreateGroup(db, region, vpc, name, id, tags).Some? {
      var row := Group(region, vpc, name);
      var d := db.(groups := db.groups[id := row]);
      NewGroup(db, row, id);
      NewGroupDefaults(db, row, id);
      GrowingKeepsTags(db, d);
      TaggingKeepsInv(d, GroupRow(id), tags);
    }
  }

  lemma LostGroup(db: Db, id: Id)
    requires EniGroups(db.groups, db.enis) && Defaults(db.vpcs, db.groups, db.tables, db.assocs, db.routes)
    requires id in db.groups && db.groups[id].name != DEFAULT_GROUP && !Held(db.enis, id)
    ensures EniGroups(db.groups - {id}, db.enis)
    ensures Defaults(db.vpcs, db.groups - {id}, db.tables, db.assocs, db.routes)
  {
    hide OneMain, MainTables, LocalRoutes;
    var groups := db.groups - {id};
    forall v | v in db.vpcs ensures HasDefaultGroup(groups, v) {
      var g :| g in db.groups && db.groups[g].vpc == v && db.groups[g].name == DEFAULT_GROUP;
      assert g in groups && groups[g] == db.groups[g];
    }
  }

  lemma DeleteGroupKeeps(db: Db, region: string, id: Id)
    requires Inv(db)
    ensures var o := DeleteGroup(db, region, id); o.Some? ==> Inv(o.value)
  {
    hide Networks, Groups, Compute, EniGroups, Defaults, SubnetBlocks, PrivateIps, PublicAddresses, TagsStored;
    if DeleteGroup(db, region, id).Some? {
      var groups := db.groups - {id};
      LostGroups(db.vpcs, db.groups, db.rules, db.vpcs, groups);
      LostGroup(db, id);
      TriggersKeepTags(db, db.(groups := groups, rules := RulesOf(db.rules, groups)));
    }
  }

  lemma RulesChange(db: Db, group: Id, rules: SR.Table)
    requires Groups(db.vpcs, db.groups, db.rules) && group in db.groups
    requires SR.WellOrdered(rules) && forall r :: r in rules ==> r in db.rules || r.group == group
    ensures Groups(db.vpcs, db.groups, rules)
  {
    hide SR.WellOrdered;
  }

  lemma AuthorizeKeeps(db: Db, region: string, group: Id, egress: bool, news: seq<SR.NewRule>)
    requires Inv(db)
    ensures var o := Authorize(db, region, group, egress, news); o.Some? ==> Inv(o.value)
  {
    hide Networks, Compute, EniGroups, Defaults, SubnetBlocks, PrivateIps, PublicAddresses, TagsStored, SR.WellOrdered;
    var o := Authorize(db, region, group, egress, news);
    if o.Some? {
      SR.AuthorizeKeepsOrder(db.rules, group, egress, news);
      SR.AuthorizeHolds(db.rules, group, egress, news);
      SR.AddedAreInDirection(db.rules, group, egress, news);
      RulesChange(db, group, o.value.rules);
      AddedRulesGrow(db, o.value.rules);
      GrowingKeepsTags(db, o.value);
    }
  }

  lemma AddedRulesGrow(db: Db, rules: SR.Table)
    requires forall r :: r in db.rules ==> r in rules
    ensures Grows(db, db.(rules := rules))
  {
  }

  lemma {:induction false} RevokeLeaves(t: SR.Table, group: Id, egress: bool, vs: seq<SR.Revocation>)
    ensures var o := SR.Revoke(t, group, egress, vs); o.Some? ==> forall r :: r in o.value ==> r in t
    decreases |vs|
  {
    if vs != [] {
      RevokeLeaves(SR.Without(t, vs[0], group, egress), group, egress, vs[1..]);
    }
  }

  lemma RevokeKeeps(db: Db, region: string, group: Id, egress: bool, vs: seq<SR.Revocation>)
    requires Inv(db)
    ensures var o := Revoke(db, region, group, egress, vs); o.Some? ==> Inv(o.value)
  {
    hide Networks, Compute, EniGroups, Defaults, SubnetBlocks, PrivateIps, PublicAddresses, TagsStored, SR.WellOrdered;
    var o := Revoke(db, region, group, egress, vs);
    if o.Some? {
      SR.RevokeKeepsOrder(db.rules, group, egress, vs);
      RevokeLeaves(db.rules, group, egress, vs);
      RulesChange(db, group, o.value.rules);
      TriggersKeepTags(db, db.(rules := o.value.rules));
    }
  }

  // ----- launching -----

  lemma LaunchCompute(db: Db, region: string, subnet: Id, id: Id, inst: Instance, eni: Id, row: Eni)
    requires Compute(db.subnets, db.instances, db.enis)
    requires subnet in db.subnets && id !in db.instances && eni !in db.enis
    requires inst.region == region == db.subnets[subnet].region && inst.subnet == subnet && inst.state == Running
    requires row.region == region && row.instance == id && row.subnet == subnet && row.vpc == db.subnets[subnet].vpc
    ensures Compute(db.subnets, db.instances[id := inst], db.enis[eni := row])
  {
    var instances, enis := db.instances[id := inst], db.enis[eni := row];
    forall i | i in instances && instances[i].state == Running ensures HasEni(enis, i) {
      if i == id {
        assert enis[eni].instance == i;
      } else {
        var e :| e in db.enis && db.enis[e].instance == i;
        assert enis[e] == db.enis[e];
      }
    }
  }

  lemma LaunchGroups(db: Db, region: string, eni: Id, row: Eni)
    requires EniGroups(db.groups, db.enis) && GroupsUsable(db, region, row.vpc, row.groups)
    ensures EniGroups(db.groups, db.enis[eni := row])
  {
  }

  /** The launch takes a usable address no interface of its subnet holds. */
  lemma LaunchPrivateIp(db: Db, subnet: Id, want: Option<nat>, eni: Id, row: Eni)
    requires PrivateIps(db.subnets, db.enis) && eni !in db.enis && subnet in db.subnets && row.subnet == subnet
    requires PrivateIp(db.subnets[subnet].net, want, UsedIps(db.enis, subnet)) == Some(row.privateIp)
    ensures PrivateIps(db.subnets, db.enis[eni := row])
  {
    var enis := db.enis[eni := row];
    forall e | e in db.enis && db.enis[e].subnet == subnet ensures db.enis[e].privateIp != row.privateIp {
      assert db.enis[e].privateIp in UsedIps(db.enis, subnet);
    }
  }

  /** An automatic address is in its own /24 and no other interface's. */
  lemma ClaimSpec(enis: map<Id, Eni>, region: string, eni: Id, auto: bool)
    ensures var c := ClaimAuto(enis, region, eni, auto);
            c.Some? ==>
              && (if auto then c.value.Some? && c.value.value.net == AUTO_NET && c.value.value.last < 256 else c.value == None)
              && (forall e :: e in enis && e != eni && enis[e].region == region && enis[e].publicIp.Some? ==> enis[e].publicIp != c.value)
  {
    FreeIpSpec(Derived(AUTO_NET, eni), ShownIps(enis, region, eni));
    forall e | e in enis && e != eni && enis[e].region == region && enis[e].publicIp.Some?
      ensures enis[e].publicIp.value in ShownIps(enis, region, eni)
    {
    }
  }

  lemma LaunchPublic(db: Db, region: string, eni: Id, row: Eni)
    requires PublicAddresses(db.enis, db.addresses)
    requires eni !in db.enis && row.region == region && ClaimAuto(db.enis, region, eni, row.auto) == Some(row.publicIp)
    ensures PublicAddresses(db.enis[eni := row], db.addresses)
  {
    ClaimSpec(db.enis, region, eni, row.auto);
    hide ClaimAuto, Elastic;
  }

  lemma RunInstanceKeeps(db: Db, region: string, subnet: Id, groups: seq<Id>, want: Option<nat>, auto: bool, guarded: bool,
                         id: Id, eni: Id, tags: map<string, string>, eniTags: map<string, string>)
    requires Inv(db)
    ensures var o := RunInstance(db, region, subnet, groups, want, auto, guarded, id, eni, tags, eniTags);
            o.Some? ==> Inv(o.value)
  {
    hide Networks, Groups, Compute, EniGroups, Defaults, SubnetBlocks, PrivateIps, PublicAddresses, TagsStored, ClaimAuto, GroupsUsable;
    if RunInstance(db, region, subnet, groups, want, auto, guarded, id, eni, tags, eniTags).Some? {
      var inst := Instance(region, subnet, Running, guarded);
      var ip := PrivateIp(db.subnets[subnet].net, want, UsedIps(db.enis, subnet)).value;
      var row := Eni(region, id, subnet, db.subnets[subnet].vpc, ip, ClaimAuto(db.enis, region, eni, auto).value, auto, groups);
      var d := db.(instances := db.instances[id := inst], enis := db.enis[eni := row]);
      LaunchCompute(db, region, subnet, id, inst, eni, row);
      LaunchGroups(db, region, eni, row);
      LaunchPrivateIp(db, subnet, want, eni, row);
      LaunchPublic(db, region, eni, row);
      GrowingKeepsTags(db, d);
      TaggingKeepsInv(d, InstanceRow(id), tags);
      TaggingKeepsInv(Tagged(d, InstanceRow(id), tags), EniRow(eni), eniTags);
    }
  }

  // ----- changing instances and interfaces -----

  lemma GuardCompute(db: Db, id: Id, guarded: bool)
    requires Compute(db.subnets, db.instances, db.enis) && id in db.instances
    ensures Compute(db.subnets, db.instances[id := db.instances[id].(guarded := guarded)], db.enis)
  {
    var instances := db.instances[id := db.instances[id].(guarded := guarded)];
    forall i | i in instances && instances[i].state == Running ensures HasEni(db.enis, i) {
      assert db.instances[i].state == Running;
    }
  }

  lemma SetGuardKeeps(db: Db, region: string, id: Id, guarded: bool)
    requires Inv(db)
    ensures var o := SetGuard(db, region, id, guarded); o.Some? ==> Inv(o.value)
  {
    hide Networks, Groups, Compute, EniGroups, Defaults, SubnetBlocks, PrivateIps, PublicAddresses, TagsStored;
    var o := SetGuard(db, region, id, guarded);
    if o.Some? {
      GuardCompute(db, id, guarded);
      GrowingKeepsTags(db, o.value);
    }
  }

  /** Interfaces changed in nothing but their groups and public addresses. */
  ghost predicate Rewritten(before: map<Id, Eni>, after: map<Id, Eni>) {
    && before.Keys == after.Keys
    && forall e :: e in after ==> after[e] == before[e].(groups := after[e].groups, publicIp := after[e].publicIp)
  }

  lemma RewritingKeeps(subnets: map<Id, Subnet>, instances: map<Id, Instance>, enis: map<Id, Eni>, enis': map<Id, Eni>)
    requires Rewritten(enis, enis')
    requires Compute(subnets, instances, enis) && PrivateIps(subnets, enis)
    ensures Compute(subnets, instances, enis') && PrivateIps(subnets, enis')
  {
    forall i | HasEni(enis, i) ensures HasEni(enis', i) {
      var e :| e in enis && enis[e].instance == i;
      assert enis'[e].instance == i;
    }
  }

  lemma RegroupedPublic(db: Db, eni: Id, groups: seq<Id>)
    requires PublicAddresses(db.enis, db.addresses) && eni in db.enis
    ensures PublicAddresses(db.enis[eni := db.enis[eni].(groups := groups)], db.addresses)
  {
    hide Elastic;
  }

  lemma RegroupedGroups(db: Db, region: string, eni: Id, groups: seq<Id>)
    requires EniGroups(db.groups, db.enis) && eni in db.enis && GroupsUsable(db, region, db.enis[eni].vpc, groups)
    ensures EniGroups(db.groups, db.enis[eni := db.enis[eni].(groups := groups)])
  {
  }

  lemma EniVpc(db: Db, eni: Id)
    requires Compute(db.subnets, db.instances, db.enis) && eni in db.enis
    ensures db.enis[eni].subnet in db.subnets && db.enis[eni].vpc == db.subnets[db.enis[eni].subnet].vpc
  {
  }

  lemma SetGroupsKeeps(db: Db, region: string, eni: Id, groups: seq<Id>)
    requires Inv(db)
    ensures var o := SetGroups(db, region, eni, groups); o.Some? ==> Inv(o.value)
  {
    hide Networks, Groups, Compute, EniGroups, Defaults, SubnetBlocks, PrivateIps, PublicAddresses, TagsStored, GroupsUsable;
    var o := SetGroups(db, region, eni, groups);
    if o.Some? {
      EniVpc(db, eni);
      RewritingKeeps(db.subnets, db.instances, db.enis, o.value.enis);
      RegroupedGroups(db, region, eni, groups);
      RegroupedPublic(db, eni, groups);
      GrowingKeepsTags(db, o.value);
    }
  }

  // ----- terminating -----

  lemma EndedCompute(db: Db, gone: set<Id>)
    requires Compute(db.subnets, db.instances, db.enis)
    ensures Compute(db.subnets, EndedRows(db.instances, gone), EnisBut(db.enis, gone))
  {
    var instances, enis := EndedRows(db.instances, gone), EnisBut(db.enis, gone);
    forall i | i in instances && instances[i].state == Running ensures HasEni(enis, i) {
      assert i !in gone && instances[i] == db.instances[i];
      var e :| e in db.enis && db.enis[e].instance == i;
      assert enis[e] == db.enis[e];
    }
  }

  lemma FewerEnis(db: Db, gone: set<Id>)
    requires EniGroups(db.groups, db.enis) && PrivateIps(db.subnets, db.enis)
    ensures EniGroups(db.groups, EnisBut(db.enis, gone)) && PrivateIps(db.subnets, EnisBut(db.enis, gone))
  {
  }

  lemma FreedElastic(addresses: map<Id, Address>, gone: set<Id>)
    requires Elastic(addresses)
    ensures Elastic(Freed(addresses, gone))
  {
  }

  /** An interface that stays keeps the address it has. */
  lemma FreedStays(db: Db, gone: set<Id>, e: Id)
    requires Associated(db.enis, db.addresses) && e in EnisBut(db.enis, gone)
    ensures forall a :: OnEni(Freed(db.addresses, gone), a, e) <==> OnEni(db.addresses, a, e)
  {
  }

  lemma EndedPublic(db: Db, gone: set<Id>)
    requires PublicAddresses(db.enis, db.addresses)
    ensures PublicAddresses(EnisBut(db.enis, gone), Freed(db.addresses, gone))
  {
    hide Elastic;
    var enis, addresses := EnisBut(db.enis, gone), Freed(db.addresses, gone);
    FreedElastic(db.addresses, gone);
    EndedAssociated(db, gone);
    EndedAuto(db, gone);
  }

  lemma EndedAssociated(db: Db, gone: set<Id>)
    requires Associated(db.enis, db.addresses)
    ensures Associated(EnisBut(db.enis, gone), Freed(db.addresses, gone))
  {
    var enis, addresses := EnisBut(db.enis, gone), Freed(db.addresses, gone);
    forall a, e | OnEni(addresses, a, e) ensures OnEni(db.addresses, a, e) && e in enis && addresses[a] == db.addresses[a] {
    }
  }

  lemma EndedAuto(db: Db, gone: set<Id>)
    requires Associated(db.enis, db.addresses) && AutoIps(db.enis, db.addresses)
    ensures AutoIps(EnisBut(db.enis, gone), Freed(db.addresses, gone))
  {
    var enis, addresses := EnisBut(db.enis, gone), Freed(db.addresses, gone);
    forall e | e in enis && Bare(addresses, e) ensures Bare(db.addresses, e) {
      FreedStays(db, gone, e);
    }
  }

  lemma WithEndedKeeps(db: Db, gone: set<Id>)
    requires Inv(db)
    ensures Inv(WithEnded(db, gone))
  {
    hide Networks, Groups, Compute, EniGroups, Defaults, SubnetBlocks, PrivateIps, PublicAddresses, TagsStored;
    EndedCompute(db, gone);
    FewerEnis(db, gone);
    EndedPublic(db, gone);
    TriggersKeepTags(db, db.(instances := EndedRows(db.instances, gone), enis := EnisBut(db.enis, gone),
                             addresses := Freed(db.addresses, gone)));
  }

  lemma EndOneKeeps(db: Db, region: string, id: Id)
    requires Inv(db) && !Refuses(db, region, id)
    ensures Inv(EndOne(db, region, id))
  {
    hide Inv, WithEnded, Refuses;
    WithEndedKeeps(db, {id});
  }

  lemma {:induction false} EndAllKeeps(db: Db, region: string, ids: seq<Id>)
    requires Inv(db)
    ensures var t := EndAll(db, region, ids); t.Ended? ==> Inv(t.db)
    decreases |ids|
  {
    hide Inv, EndOne, WithEnded, Refuses;
    if ids != [] && !Refuses(db, region, ids[0]) {
      EndOneKeeps(db, region, ids[0]);
      EndAllKeeps(EndOne(db, region, ids[0]), region, ids[1..]);
    }
  }

  // ----- Elastic IPs -----

  lemma NewAddress(db: Db, region: string, id: Id, ip: PublicIp)
    requires PublicAddresses(db.enis, db.addresses) && id !in db.addresses
    requires FreeIp(Derived(EIP_NET, id), HeldIps(db.addresses, region)) == Some(ip)
    ensures PublicAddresses(db.enis, db.addresses[id := Address(region, ip, None)])
  {
    FreeIpSpec(Derived(EIP_NET, id), HeldIps(db.addresses, region));
    hide PublicIpsDistinct, FreeIp;
    var addresses := db.addresses[id := Address(region, ip, None)];
    forall a, e ensures OnEni(addresses, a, e) <==> OnEni(db.addresses, a, e) {
    }
    forall e | Bare(addresses, e) ensures Bare(db.addresses, e) {
    }
  }

  lemma AllocateKeeps(db: Db, region: string, id: Id, tags: map<string, string>)
    requires Inv(db)
    ensures var o := Allocate(db, region, id, tags); o.Some? ==> Inv(o.value)
  {
    hide Networks, Groups, Compute, EniGroups, Defaults, SubnetBlocks, PrivateIps, PublicAddresses, TagsStored, FreeIp;
    if Allocate(db, region, id, tags).Some? {
      var ip := FreeIp(Derived(EIP_NET, id), HeldIps(db.addresses, region)).value;
      var d := db.(addresses := db.addresses[id := Address(region, ip, None)]);
      NewAddress(db, region, id, ip);
      GrowingKeepsTags(db, d);
      TaggingKeepsInv(d, AddressRow(id), tags);
    }
  }

  lemma EipIsNotAuto()
    ensures EIP_NET != AUTO_NET
  {
    assert EIP_NET[0] != AUTO_NET[0];
  }

  /** Whatever address an interface shows in the Elastic range is its own association's. */
  lemma ShownIsElsewhere(db: Db, id: Id, e: Id)
    requires PublicAddresses(db.enis, db.addresses)
    requires id in db.addresses && db.addresses[id].on.None? && e in db.enis && db.enis[e].region == db.addresses[id].region
    ensures db.enis[e].publicIp != Some(db.addresses[id].publicIp)
  {
    hide PublicIpsDistinct;
    EipIsNotAuto();
    if !Bare(db.addresses, e) {
      var a :| OnEni(db.addresses, a, e);
    }
  }

  lemma PlacedPublic(db: Db, id: Id, e: Id, assoc: Id)
    requires PublicAddresses(db.enis, db.addresses)
    requires id in db.addresses && e in db.enis && db.enis[e].region == db.addresses[id].region
    requires db.addresses[id].on.None? && Bare(db.addresses, e)
    ensures var d := Placed(db, id, e, assoc); PublicAddresses(d.enis, d.addresses)
  {
    var d := Placed(db, id, e, assoc);
    forall f | f in db.enis && db.enis[f].region == db.enis[e].region ensures db.enis[f].publicIp != Some(db.addresses[id].publicIp) {
      ShownIsElsewhere(db, id, f);
    }
    PlacedAssociated(db, id, e, assoc);
    forall f | f in d.enis && Bare(d.addresses, f) ensures f != e && Bare(db.addresses, f) {
      assert OnEni(d.addresses, id, e);
      forall a ensures !OnEni(db.addresses, a, f) {
        assert OnEni(db.addresses, a, f) ==> OnEni(d.addresses, a, f);
      }
    }
  }

  lemma PlacedAssociated(db: Db, id: Id, e: Id, assoc: Id)
    requires Associated(db.enis, db.addresses)
    requires id in db.addresses && e in db.enis && db.enis[e].region == db.addresses[id].region
    requires db.addresses[id].on.None? && Bare(db.addresses, e)
    ensures var d := Placed(db, id, e, assoc); Associated(d.enis, d.addresses)
  {
    var d := Placed(db, id, e, assoc);
    forall a, f | OnEni(d.addresses, a, f) ensures if a == id then f == e else OnEni(db.addresses, a, f) && f != e {
      assert !OnEni(db.addresses, a, e);
    }
  }

  lemma PlacedKeeps(db: Db, region: string, id: Id, e: Id, assoc: Id)
    requires Inv(db)
    requires id in db.addresses && e in db.enis && db.enis[e].region == db.addresses[id].region
    requires db.addresses[id].on.None? && Bare(db.addresses, e)
    ensures Inv(Placed(db, id, e, assoc))
  {
    hide Networks, Groups, Compute, EniGroups, Defaults, SubnetBlocks, PrivateIps, PublicAddresses, TagsStored, Bare;
    var d := Placed(db, id, e, assoc);
    RewritingKeeps(db.subnets, db.instances, db.enis, d.enis);
    SameGroups(db.groups, db.enis, d.enis);
    PlacedPublic(db, id, e, assoc);
    GrowingKeepsTags(db, d);
  }

  lemma SameGroups(groups: map<Id, Group>, enis: map<Id, Eni>, enis': map<Id, Eni>)
    requires EniGroups(groups, enis) && Rewritten(enis, enis')
    requires forall e :: e in enis' ==> enis'[e].groups == enis[e].groups
    ensures EniGroups(groups, enis')
  {
  }

  lemma RunningRegion(db: Db, e: Id)
    requires Compute(db.subnets, db.instances, db.enis) && e in db.enis
    ensures db.enis[e].instance in db.instances && db.instances[db.enis[e].instance].region == db.enis[e].region
  {
  }

  lemma AssociateKeeps(db: Db, region: string, id: Id, eni: Option<Id>, instance: Option<Id>, privateIp: Option<nat>,
                       reassociate: bool, assoc: Id)
    requires Inv(db)
    ensures var o := Associate(db, region, id, eni, instance, privateIp, reassociate, assoc); o.Some? ==> Inv(o.value)
  {
    hide Inv, Target, Placed;
    if Associate(db, region, id, eni, instance, privateIp, reassociate, assoc).Some? {
      var e := Target(db, region, eni, instance).value;
      TargetIsHere(db, region, eni, instance);
      PlacedKeeps(db, region, id, e, assoc);
    }
  }

  /** The interface an association goes on is in the request's region. */
  lemma TargetIsHere(db: Db, region: string, eni: Option<Id>, instance: Option<Id>)
    requires Inv(db) && Target(db, region, eni, instance).Some?
    ensures var e := Target(db, region, eni, instance).value; e in db.enis && db.enis[e].region == region
  {
    hide Networks, Groups, Compute, EniGroups, Defaults, SubnetBlocks, PrivateIps, PublicAddresses, TagsStored;
    RunningRegion(db, Target(db, region, eni, instance).value);
  }

  lemma LiftedAssociated(db: Db, a: Id, e: Id, publicIp: Option<PublicIp>)
    requires Associated(db.enis, db.addresses) && OnEni(db.addresses, a, e)
    ensures Associated(db.enis[e := db.enis[e].(publicIp := publicIp)], db.addresses[a := db.addresses[a].(on := None)])
  {
    var addresses := db.addresses[a := db.addresses[a].(on := None)];
    forall b, f | OnEni(addresses, b, f) ensures OnEni(db.addresses, b, f) && b != a && f != e {
      assert b != a && OnEni(db.addresses, b, f);
      assert f == e ==> b == a;
    }
  }

  lemma LiftedAuto(db: Db, a: Id, e: Id, publicIp: Option<PublicIp>)
    requires AutoIps(db.enis, db.addresses) && OnEni(db.addresses, a, e) && e in db.enis
    requires if db.enis[e].auto then publicIp.Some? && publicIp.value.net == AUTO_NET && publicIp.value.last < 256 else publicIp == None
    requires forall f :: OnEni(db.addresses, a, f) ==> f == e
    ensures AutoIps(db.enis[e := db.enis[e].(publicIp := publicIp)], db.addresses[a := db.addresses[a].(on := None)])
  {
    var enis, addresses := db.enis[e := db.enis[e].(publicIp := publicIp)], db.addresses[a := db.addresses[a].(on := None)];
    forall f | f in enis && f != e && Bare(addresses, f) ensures Bare(db.addresses, f) {
      forall b ensures !OnEni(db.addresses, b, f) {
        assert b != a ==> (OnEni(db.addresses, b, f) <==> OnEni(addresses, b, f));
      }
    }
  }

  lemma LiftedDistinct(db: Db, region: string, e: Id, publicIp: Option<PublicIp>)
    requires PublicIpsDistinct(db.enis) && e in db.enis && db.enis[e].region == region
    requires forall f :: f in db.enis && f != e && db.enis[f].region == region && db.enis[f].publicIp.Some? ==> db.enis[f].publicIp != publicIp
    ensures PublicIpsDistinct(db.enis[e := db.enis[e].(publicIp := publicIp)])
  {
  }

  lemma LiftedElastic(db: Db, a: Id)
    requires Elastic(db.addresses) && a in db.addresses
    ensures Elastic(db.addresses[a := db.addresses[a].(on := None)])
  {
  }

  lemma LiftedPublic(db: Db, region: string, a: Id, e: Id, publicIp: Option<PublicIp>)
    requires PublicAddresses(db.enis, db.addresses) && OnEni(db.addresses, a, e) && e in db.enis && db.enis[e].region == region
    requires ClaimAuto(db.enis, region, e, db.enis[e].auto) == Some(publicIp)
    ensures PublicAddresses(db.enis[e := db.enis[e].(publicIp := publicIp)], db.addresses[a := db.addresses[a].(on := None)])
  {
    ClaimSpec(db.enis, region, e, db.enis[e].auto);
    hide ClaimAuto, Associated, Elastic, AutoIps, PublicIpsDistinct;
    LiftedAssociated(db, a, e, publicIp);
    LiftedElastic(db, a);
    LiftedAuto(db, a, e, publicIp);
    LiftedDistinct(db, region, e, publicIp);
  }

  lemma DisassociateKeeps(db: Db, region: string, assoc: Id)
    requires Inv(db)
    ensures var o := Disassociate(db, region, assoc); o.Some? ==> Inv(o.value)
  {
    hide Networks, Groups, Compute, EniGroups, Defaults, SubnetBlocks, PrivateIps, PublicAddresses, TagsStored, ClaimAuto;
    var o := Disassociate(db, region, assoc);
    if o.Some? {
      var a := AddressOf(db, region, assoc);
      var e := db.addresses[a].on.value.eni;
      assert OnEni(db.addresses, a, e);
      RewritingKeeps(db.subnets, db.instances, db.enis, o.value.enis);
      SameGroups(db.groups, db.enis, o.value.enis);
      LiftedPublic(db, region, a, e, o.value.enis[e].publicIp);
      GrowingKeepsTags(db, o.value);
    }
  }

  lemma LostAddress(db: Db, id: Id)
    requires PublicAddresses(db.enis, db.addresses) && id in db.addresses && db.addresses[id].on.None?
    ensures PublicAddresses(db.enis, db.addresses - {id})
  {
    hide PublicIpsDistinct;
    forall a, e ensures OnEni(db.addresses - {id}, a, e) <==> OnEni(db.addresses, a, e) {
    }
    forall e | Bare(db.addresses - {id}, e) ensures Bare(db.addresses, e) {
    }
  }

  lemma ReleaseKeeps(db: Db, region: string, id: Id)
    requires Inv(db)
    ensures var o := Release(db, region, id); o.Some? ==> Inv(o.value)
  {
    hide Networks, Groups, Compute, EniGroups, Defaults, SubnetBlocks, PrivateIps, PublicAddresses, TagsStored;
    if Release(db, region, id).Some? {
      LostAddress(db, id);
      TriggersKeepTags(db, db.(addresses := db.addresses - {id}));
    }
  }
}
