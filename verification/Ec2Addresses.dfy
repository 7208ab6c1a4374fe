/** An association lasts until it is disassociated or its instance terminated, whatever else is requested. */
module Ec2Addresses {
  import opened Options
  import opened Net
  import opened PublicIps
  import opened Ec2Schema
  import opened Ec2Ops
  import opened Ec2Runs
  import SR = SecurityRules

  /** The address's row is as it was. */
  predicate Same(before: Db, after: Db, a: Id)
    requires a in before.addresses
  {
    a in after.addresses && after.addresses[a] == before.addresses[a]
  }

  /** The request ends the association: by its id in its region, or by its instance's end. */
  predicate Ends(region: string, r: Request, row: Address)
    requires row.on.Some?
  {
    match r
    case DisassociateIp(assoc) => row.region == region && row.on.value.id == assoc
    case TerminateAll(ids) => row.on.value.instance in ids
    case _ => false
  }

  /** Tags are no part of the addresses. */
  lemma TagsAside(db: Db, r: Resource, tags: map<string, string>)
    ensures Tagged(db, r, tags).addresses == db.addresses
  {
  }

  lemma TagsAreAside()
    ensures forall db, r, tags :: Tagged(db, r, tags).addresses == db.addresses
    ensures forall before, after :: Triggered(before, after).addresses == after.addresses
  {
    hide TagMap, Stored;
  }

  lemma VpcsKeepAddresses(db: Db, region: string, r: Request)
    requires r.NewVpc? || r.DropVpc? || r.NewSubnet?
    ensures NetworkStep(db, region, r).addresses == db.addresses
  {
    TagsAreAside();
    hide VpcFits, VpcGoes, Tagged, Triggered, Detached, AssocsOf, RoutesOf, RulesOf, SubnetsBut, TablesBut, GroupsBut, InRange, Conflicts;
  }

  lemma WiringKeepsAddresses(db: Db, region: string, r: Request)
    requires !r.NewVpc? && !r.DropVpc? && !r.NewSubnet? && !r.DropSubnet?
    ensures NetworkStep(db, region, r).addresses == db.addresses
  {
    TagsAreAside();
    hide Tagged, Triggered, AssocsOf, RoutesOf, CreateVpc, DeleteVpc, CreateSubnet, DeleteSubnet;
  }

  lemma DropSubnetKeepsAddresses(db: Db, region: string, id: Id)
    ensures DeleteSubnet(db, region, id).0.addresses == db.addresses
  {
    hide AssocsOf, Stored, Occupied, Collectable, EnisBut;
  }

  lemma TagsKeepAddresses(db: Db, region: string, resources: set<Resource>, tags: map<string, string>, matches: seq<TagMatch>)
    ensures Else(CreateTags(db, region, resources, tags), db).addresses == db.addresses
    ensures Else(DeleteTags(db, region, resources, matches), db).addresses == db.addresses
  {
    hide InRegion, TagAll, Unselected;
  }

  lemma CreatingGroupsKeepsAddresses(db: Db, region: string, vpc: Id, name: string, id: Id, tags: map<string, string>)
    ensures Else(CreateGroup(db, region, vpc, name, id, tags), db).addresses == db.addresses
    ensures Else(DeleteGroup(db, region, id), db).addresses == db.addresses
  {
    TagsAreAside();
    hide Tagged, Triggered, RulesOf, Held;
  }

  lemma RulesKeepAddresses(db: Db, region: string, group: Id, egress: bool, news: seq<SR.NewRule>, vs: seq<SR.Revocation>)
    ensures Else(Authorize(db, region, group, egress, news), db).addresses == db.addresses
    ensures Else(Revoke(db, region, group, egress, vs), db).addresses == db.addresses
  {
    TagsAreAside();
    hide SR.Authorize, SR.Revoke, Triggered;
  }

  lemma GroupsKeepAddresses(db: Db, region: string, r: Request)
    requires OnGroups(r)
    ensures Step(db, region, r).addresses == db.addresses
  {
    hide NetworkStep, CreateTags, DeleteTags, CreateGroup, DeleteGroup, Authorize, Revoke, Else;
    if r.CreateTagsOf? {
      TagsKeepAddresses(db, region, r.resources, r.tags, []);
    } else if r.DeleteTagsOf? {
      TagsKeepAddresses(db, region, r.resources, map[], r.matches);
    } else if r.NewSecurityGroup? {
      CreatingGroupsKeepsAddresses(db, region, r.vpc, r.name, r.id, r.tags);
    } else if r.DropSecurityGroup? {
      CreatingGroupsKeepsAddresses(db, region, "", "", r.id, map[]);
    } else if r.AuthorizeRules? {
      RulesKeepAddresses(db, region, r.group, r.egress, r.news, []);
    } else {
      RulesKeepAddresses(db, region, r.group, r.egress, [], r.revocations);
    }
  }

  lemma LaunchingKeepsAddresses(db: Db, region: string, subnet: Id, groups: seq<Id>, want: Option<nat>, auto: bool, guarded: bool,
                                id: Id, eni: Id, tags: map<string, string>, eniTags: map<string, string>)
    ensures Else(RunInstance(db, region, subnet, groups, want, auto, guarded, id, eni, tags, eniTags), db).addresses == db.addresses
  {
    TagsAreAside();
    hide PrivateIp, ClaimAuto, GroupsUsable, Tagged, UsedIps;
  }

  lemma ModifyingKeepsAddresses(db: Db, region: string, id: Id, guarded: bool, groups: seq<Id>)
    ensures Else(SetGuard(db, region, id, guarded), db).addresses == db.addresses
    ensures Else(SetGroups(db, region, id, groups), db).addresses == db.addresses
  {
    hide GroupsUsable;
  }

  lemma InstancesKeepAddresses(db: Db, region: string, r: Request)
    requires r.Launch? || r.Guard? || r.Regroup?
    ensures Step(db, region, r).addresses == db.addresses
  {
    hide NetworkStep, RunInstance, SetGuard, SetGroups, Else;
    match r
    case Launch(subnet, groups, want, auto, guarded, id, eni, tags, eniTags) =>
      LaunchingKeepsAddresses(db, region, subnet, groups, want, auto, guarded, id, eni, tags, eniTags);
    case Guard(id, guarded) => ModifyingKeepsAddresses(db, region, id, guarded, []);
    case Regroup(eni, groups) => ModifyingKeepsAddresses(db, region, eni, false, groups);
  }

  lemma TerminatingKeepsOthers(db: Db, region: string, ids: seq<Id>, a: Id)
    requires a in db.addresses && db.addresses[a].on.Some? && db.addresses[a].on.value.instance !in ids
    ensures Same(db, Step(db, region, TerminateAll(ids)), a)
  {
    EndAllAtOnce(db, region, ids);
    hide EndAll, EndedRows, EnisBut, NetworkStep, Stored;
    assert db.addresses[a].on.value.instance !in Going(db, ids);
  }

  lemma AllocatingKeepsOthers(db: Db, region: string, id: Id, tags: map<string, string>, a: Id)
    requires a in db.addresses
    ensures Same(db, Else(Allocate(db, region, id, tags), db), a)
  {
    hide FreeIp, HeldIps, Tagged;
    match FreeIp(Derived(EIP_NET, id), HeldIps(db.addresses, region))
    case None =>
    case Some(ip) => TagsAside(db.(addresses := db.addresses[id := Address(region, ip, None)]), AddressRow(id), tags);
  }

  lemma ReleasingKeepsHeld(db: Db, region: string, id: Id, a: Id)
    requires a in db.addresses && db.addresses[a].on.Some?
    ensures Same(db, Else(Release(db, region, id), db), a)
  {
    TagsAreAside();
    hide Triggered;
  }

  lemma AllocationsKeepHeld(db: Db, region: string, r: Request, a: Id)
    requires r.AllocateIp? || r.ReleaseIp?
    requires a in db.addresses && db.addresses[a].on.Some?
    ensures Same(db, Step(db, region, r), a)
  {
    hide NetworkStep, Allocate, Release, Same;
    match r
    case AllocateIp(id, tags) => AllocatingKeepsOthers(db, region, id, tags, a);
    case ReleaseIp(id) => ReleasingKeepsHeld(db, region, id, a);
  }

  lemma AssociatingKeepsHeld(db: Db, region: string, r: Request, a: Id)
    requires r.AssociateIp? && a in db.addresses && db.addresses[a].on.Some?
    ensures Same(db, Step(db, region, r), a)
  {
    hide NetworkStep, Target;
  }

  lemma DisassociatingKeepsOthers(db: Db, region: string, assoc: Id, a: Id)
    requires a in db.addresses && db.addresses[a].on.Some?
    requires !(db.addresses[a].region == region && db.addresses[a].on.value.id == assoc)
    ensures Same(db, Step(db, region, DisassociateIp(assoc)), a)
  {
    hide NetworkStep, ClaimAuto;
  }

  /** One request leaves an association as it is unless it ends it. */
  lemma AssociationStays(db: Db, region: string, r: Request, a: Id)
    requires a in db.addresses && db.addresses[a].on.Some? && !Ends(region, r, db.addresses[a])
    ensures Same(db, Step(db, region, r), a)
  {
    hide Step, NetworkStep;
    if r.TerminateAll? {
      TerminatingKeepsOthers(db, region, r.ids, a);
    } else if r.AllocateIp? || r.ReleaseIp? {
      AllocationsKeepHeld(db, region, r, a);
    } else if r.AssociateIp? {
      AssociatingKeepsHeld(db, region, r, a);
    } else if r.DisassociateIp? {
      DisassociatingKeepsOthers(db, region, r.assoc, a);
    } else if r.Launch? || r.Guard? || r.Regroup? {
      InstancesKeepAddresses(db, region, r);
    } else if OnGroups(r) {
      GroupsKeepAddresses(db, region, r);
    } else {
      OtherStepIsNetwork(db, region, r);
      NetworkKeeps(db, region, r);
    }
  }

  lemma NetworkKeeps(db: Db, region: string, r: Request)
    requires !OnCompute(r) && !OnGroups(r)
    ensures NetworkStep(db, region, r).addresses == db.addresses
  {
    if r.DropSubnet? {
      DropSubnetKeepsAddresses(db, region, r.id);
    } else if r.NewVpc? || r.DropVpc? || r.NewSubnet? {
      VpcsKeepAddresses(db, region, r);
    } else {
      WiringKeepsAddresses(db, region, r);
    }
    hide DeleteSubnet;
  }

  /** Through any run of requests, none of which ends it, an address keeps its association. */
  lemma {:induction false} AssociationOutlivesRuns(db: Db, calls: seq<Call>, a: Id)
    requires a in db.addresses && db.addresses[a].on.Some?
    requires forall k :: 0 <= k < |calls| ==> !Ends(calls[k].region, calls[k].request, db.addresses[a])
    ensures Same(db, Run(db, calls), a)
    decreases |calls|
  {
    hide Step, Ends;
    if calls != [] {
      var c, rest := calls[0], calls[1..];
      AssociationStays(db, c.region, c.request, a);
      forall k | 0 <= k < |rest| ensures !Ends(rest[k].region, rest[k].request, db.addresses[a]) {
        assert rest[k] == calls[k + 1];
      }
      AssociationOutlivesRuns(Step(db, c.region, c.request), rest, a);
    }
  }

  /** So as long as nothing ends an association, whatever else was requested, its address is neither released nor associated again. */
  lemma AssociatedIsKept(db: Db, calls: seq<Call>, a: Id, region: string, eni: Option<Id>, instance: Option<Id>,
                         privateIp: Option<nat>, reassociate: bool, again: Id)
    requires a in db.addresses && db.addresses[a].on.Some?
    requires forall k :: 0 <= k < |calls| ==> !Ends(calls[k].region, calls[k].request, db.addresses[a])
    ensures var after := Run(db, calls);
            Release(after, region, a) == None && Associate(after, region, a, eni, instance, privateIp, reassociate, again) == None
  {
    AssociationOutlivesRuns(db, calls, a);
    hide Run, Ends, Target;
  }
}
