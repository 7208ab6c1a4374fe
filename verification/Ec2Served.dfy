/** Exactly when the requests that give something are served after a run, in the tables' terms, and what they store. */
module Ec2Served {
  import opened Options
  import opened Net
  import opened PublicIps
  import opened Ec2Schema
  import opened Ec2Ops
  import opened Ec2Runs
  import opened Ec2Tags

  // ----- associating -----

  /** The request names this interface: by its id, by its instance's, or by both. */
  predicate NamesEni(db: Db, region: string, eni: Option<Id>, instance: Option<Id>, e: Id) {
    && e in db.enis && db.enis[e].region == region
    && (eni.Some? || instance.Some?)
    && (eni.Some? ==> eni.value == e)
    && (instance.Some? ==> instance.value == db.enis[e].instance)
  }

  /** An instance alone names an interface exactly when it is the region's and running, and then one. */
  lemma InstanceNamesOne(db: Db, region: string, i: Id)
    requires Compute(db.subnets, db.instances, db.enis)
    ensures (exists e :: NamesEni(db, region, None, Some(i), e)) <==>
            i in db.instances && db.instances[i].region == region && db.instances[i].state == Running
    ensures forall e, f :: NamesEni(db, region, None, Some(i), e) && NamesEni(db, region, None, Some(i), f) ==> e == f
  {
    if i in db.instances && db.instances[i].region == region && db.instances[i].state == Running {
      assert HasEni(db.enis, i);
      var e :| e in db.enis && db.enis[e].instance == i;
      assert NamesEni(db, region, None, Some(i), e);
    }
  }

  lemma TargetIsNamed(db: Db, region: string, eni: Option<Id>, instance: Option<Id>)
    requires Compute(db.subnets, db.instances, db.enis)
    ensures forall e :: NamesEni(db, region, eni, instance, e) <==> Target(db, region, eni, instance) == Some(e)
  {
    if eni.None? && instance.Some? {
      InstanceNamesOne(db, region, instance.value);
      if HasEni(db.enis, instance.value) {
        var e := EniOf(db.enis, instance.value);
        assert e in db.enis && db.enis[e].instance == instance.value;
      }
      forall e | NamesEni(db, region, eni, instance, e) ensures Target(db, region, eni, instance) == Some(e) {
        assert HasEni(db.enis, instance.value);
      }
    }
  }

  /** The address is free, and so is the interface, whose private IP is the one asked for, if one is. */
  ghost predicate MayMeet(db: Db, region: string, id: Id, e: Id, privateIp: Option<nat>) {
    && id in db.addresses && db.addresses[id].region == region && db.addresses[id].on.None?
    && e in db.enis && (forall a :: !OnEni(db.addresses, a, e))
    && (privateIp.Some? ==> privateIp.value == db.enis[e].privateIp)
  }

  /**
   * AssociateAddress is served exactly when it asks for no reassociation and names an
   * interface and an address that may meet; the address is then on that interface, with its
   * instance and private IP, the interface shows it, and nothing else changes.
   */
  lemma AssociateServedExactly(calls: seq<Call>, region: string, id: Id, eni: Option<Id>, instance: Option<Id>, privateIp: Option<nat>,
                               reassociate: bool, assoc: Id)
    ensures var db := Reached(calls);
            var o := Associate(db, region, id, eni, instance, privateIp, reassociate, assoc);
            && (o.Some? <==> !reassociate && exists e :: NamesEni(db, region, eni, instance, e) && MayMeet(db, region, id, e, privateIp))
            && (forall e :: o.Some? && NamesEni(db, region, eni, instance, e) ==>
                  var row, address := db.enis[e], db.addresses[id];
                  o.value == db.(addresses := db.addresses[id := Address(region, address.publicIp, Some(Attachment(assoc, e, row.instance, row.privateIp)))],
                                 enis := db.enis[e := row.(publicIp := Some(address.publicIp))]))
  {
    ReachedKeeps(calls);
    var db := Reached(calls);
    hide Run, Networks, Groups, EniGroups, SubnetBlocks, PrivateIps, Defaults, TagsStored, PublicAddresses, Compute, NamesEni, Target, OnEni;
    TargetIsNamed(db, region, eni, instance);
    TargetIsStored(db, region, eni, instance);
  }

  /** So a running instance's address may be asked for by the instance alone. */
  lemma InstanceServedExactly(calls: seq<Call>, region: string, id: Id, i: Id, privateIp: Option<nat>, assoc: Id)
    ensures var db := Reached(calls);
            Associate(db, region, id, None, Some(i), privateIp, false, assoc).Some? <==>
              && i in db.instances && db.instances[i].region == region && db.instances[i].state == Running
              && exists e :: e in db.enis && db.enis[e].instance == i && MayMeet(db, region, id, e, privateIp)
  {
    ReachedKeeps(calls);
    var db := Reached(calls);
    hide Run, Networks, Groups, EniGroups, SubnetBlocks, PrivateIps, Defaults, TagsStored, PublicAddresses, MayMeet, Associate;
    AssociateServedExactly(calls, region, id, None, Some(i), privateIp, false, assoc);
    InstanceNamesOne(db, region, i);
    if i in db.instances && db.instances[i].region == region && db.instances[i].state == Running {
      forall e | e in db.enis && db.enis[e].instance == i ensures NamesEni(db, region, None, Some(i), e) {
      }
    }
  }

  // ----- disassociating -----

  /** An automatic address no other interface of the region shows. */
  predicate AutoFree(db: Db, region: string, but: Id, p: PublicIp) {
    p.net == AUTO_NET && p.last < 256 && forall e :: e in db.enis && db.enis[e].region == region && e != but ==> db.enis[e].publicIp != Some(p)
  }

  lemma ClaimExactly(db: Db, region: string, e: Id, auto: bool)
    ensures var c := ClaimAuto(db.enis, region, e, auto);
            && (c.Some? <==> auto ==> exists p :: AutoFree(db, region, e, p))
            && (c.Some? ==> if auto then c.value.Some? && AutoFree(db, region, e, c.value.value) else c.value.None?)
  {
    var want, shown := Derived(AUTO_NET, e), ShownIps(db.enis, region, e);
    FreeIpSpec(want, shown);
    hide FreeIp, Derived;
    forall p: PublicIp ensures p in shown <==> exists f :: f in db.enis && db.enis[f].region == region && f != e && db.enis[f].publicIp == Some(p) {
    }
    if p :| AutoFree(db, region, e, p) {
      assert p == PublicIp(AUTO_NET, p.last) && p !in shown;
    }
    var got := FreeIp(want, shown);
    if got.Some? { assert AutoFree(db, region, e, got.value); }
  }

  /**
   * DisassociateAddress is served exactly when an address of the region carries the
   * association and, if its interface was launched with an automatic address, one is free;
   * the address is then free, the interface shows that one or none, and nothing else changes.
   */
  lemma DisassociateServedExactly(calls: seq<Call>, region: string, assoc: Id)
    ensures var db := Reached(calls);
            var o := Disassociate(db, region, assoc);
            if assoc == "" || !(exists a :: Carries(db, region, a, assoc)) then o.None?
            else exists a :: Carries(db, region, a, assoc) && Frees(db, region, a, o)
  {
    ReachedKeeps(calls);
    var db := Reached(calls);
    hide Run, Networks, Groups, EniGroups, SubnetBlocks, PrivateIps, Defaults, TagsStored, Compute;
    if assoc != "" && exists a :: Carries(db, region, a, assoc) {
      var a := AddressOf(db, region, assoc);
      var e := db.addresses[a].on.value.eni;
      assert OnEni(db.addresses, a, e);
      ClaimExactly(db, region, e, db.enis[e].auto);
      hide ClaimAuto, AutoFree;
      assert Frees(db, region, a, Disassociate(db, region, assoc));
    }
  }

  ghost predicate Frees(db: Db, region: string, a: Id, o: Option<Db>)
    requires a in db.addresses && db.addresses[a].on.Some?
  {
    var e := db.addresses[a].on.value.eni;
    && e in db.enis
    && (o.Some? <==> db.enis[e].auto ==> exists p :: AutoFree(db, region, e, p))
    && (o.Some? ==> exists shown: Option<PublicIp> ::
          && (if db.enis[e].auto then shown.Some? && AutoFree(db, region, e, shown.value) else shown.None?)
          && o.value == db.(addresses := db.addresses[a := db.addresses[a].(on := None)],
                            enis := db.enis[e := db.enis[e].(publicIp := shown)]))
  }

  // ----- allocating -----

  /** An Elastic IP no address of the region has. */
  predicate ElasticFree(db: Db, region: string, p: PublicIp) {
    p.net == EIP_NET && p.last < 256 && forall a :: a in db.addresses && db.addresses[a].region == region ==> db.addresses[a].publicIp != p
  }

  lemma ElasticExactly(db: Db, region: string, id: Id)
    ensures var got := FreeIp(Derived(EIP_NET, id), HeldIps(db.addresses, region));
            && (got.Some? <==> exists p :: ElasticFree(db, region, p))
            && (got.Some? ==> ElasticFree(db, region, got.value))
  {
    var want, held := Derived(EIP_NET, id), HeldIps(db.addresses, region);
    FreeIpSpec(want, held);
    hide FreeIp, Derived;
    forall p: PublicIp ensures p in held <==> exists a :: a in db.addresses && db.addresses[a].region == region && db.addresses[a].publicIp == p {
    }
    hide HeldIps;
    if p :| ElasticFree(db, region, p) {
      assert p == PublicIp(EIP_NET, p.last) && p !in held;
    }
    var got := FreeIp(want, held);
    if got.Some? { assert ElasticFree(db, region, got.value); }
  }

  /** What an allocation adds: a free Elastic IP, on nothing. */
  ghost predicate Allocated(db: Db, after: Db, region: string, id: Id) {
    exists p ::
      && ElasticFree(db, region, p)
      && after == db.(addresses := db.addresses[id := Address(region, p, None)], tags := after.tags)
  }

  /** AllocateAddress is served exactly when the id is new and an Elastic IP is free, and then adds one. */
  lemma AllocateServedExactly(db: Db, region: string, id: Id, tags: map<string, string>)
    ensures var o := Allocate(db, region, id, tags);
            && (o.Some? <==> id !in db.addresses && exists p :: ElasticFree(db, region, p))
            && (o.Some? ==> Allocated(db, o.value, region, id))
  {
    ElasticExactly(db, region, id);
    hide FreeIp, HeldIps, Derived, TagMap, ElasticFree;
  }

  // ----- launching -----

  /** A usable address of the subnet that no interface in it has, and the one asked for, if one is. */
  predicate AddressFree(db: Db, subnet: Id, want: Option<nat>, ip: nat)
    requires subnet in db.subnets && db.subnets[subnet].net.Prefix?
  {
    && Usable(db.subnets[subnet].net, ip)
    && (forall e :: e in db.enis && db.enis[e].subnet == subnet ==> db.enis[e].privateIp != ip)
    && (want.Some? ==> ip == want.value)
  }

  /** The groups of the request are the region's, in the subnet's VPC. */
  predicate GroupsFit(db: Db, region: string, subnet: Id, groups: seq<Id>)
    requires subnet in db.subnets
  {
    forall g :: g in groups ==> g in db.groups && db.groups[g].region == region && db.groups[g].vpc == db.subnets[subnet].vpc
  }

  /**
   * RunInstances is served exactly when the subnet is the region's and IPv4, the groups
   * fit, the ids are new and the addresses asked for are there to be had.
   */
  ghost predicate LaunchFits(db: Db, region: string, subnet: Id, groups: seq<Id>, want: Option<nat>, auto: bool, id: Id, eni: Id) {
    && subnet in db.subnets && db.subnets[subnet].region == region
    && db.subnets[subnet].net.Prefix? && !db.subnets[subnet].net.v6
    && GroupsFit(db, region, subnet, groups)
    && id !in db.instances && eni !in db.enis
    && (exists ip :: AddressFree(db, subnet, want, ip))
    && (auto ==> exists p :: AutoFree(db, region, eni, p))
  }

  /** What a launch adds: a running instance, and its interface with these addresses and groups. */
  ghost predicate Launched(db: Db, after: Db, region: string, subnet: Id, groups: seq<Id>, want: Option<nat>, auto: bool, guarded: bool, id: Id, eni: Id)
    requires subnet in db.subnets && db.subnets[subnet].net.Prefix?
  {
    exists ip: nat, shown: Option<PublicIp> ::
      && AddressFree(db, subnet, want, ip)
      && (forall x: nat :: AddressFree(db, subnet, want, x) ==> ip <= x)
      && (if auto then shown.Some? && AutoFree(db, region, eni, shown.value) else shown.None?)
      && after == db.(instances := db.instances[id := Instance(region, subnet, Running, guarded)],
                      enis := db.enis[eni := Eni(region, id, subnet, db.subnets[subnet].vpc, ip, shown, auto, groups)],
                      tags := after.tags)
  }

  lemma RunInstanceServedExactly(db: Db, region: string, subnet: Id, groups: seq<Id>, want: Option<nat>, auto: bool, guarded: bool,
                            id: Id, eni: Id, tags: map<string, string>, eniTags: map<string, string>)
    ensures var o := RunInstance(db, region, subnet, groups, want, auto, guarded, id, eni, tags, eniTags);
            && (o.Some? <==> LaunchFits(db, region, subnet, groups, want, auto, id, eni))
            && (o.Some? ==> Launched(db, o.value, region, subnet, groups, want, auto, guarded, id, eni))
  {
    if subnet in db.subnets {
      PrivateExactly(db, subnet, want);
      ClaimExactly(db, region, eni, auto);
      LaunchIs(db, region, subnet, groups, want, auto, guarded, id, eni, tags, eniTags);
      hide RunInstance, PrivateIp, ClaimAuto, AddressFree, AutoFree, UsedIps, GroupsUsable, GroupsFit;
    }
  }

  lemma LaunchIs(db: Db, region: string, subnet: Id, groups: seq<Id>, want: Option<nat>, auto: bool, guarded: bool,
                 id: Id, eni: Id, tags: map<string, string>, eniTags: map<string, string>)
    requires subnet in db.subnets
    ensures var o := RunInstance(db, region, subnet, groups, want, auto, guarded, id, eni, tags, eniTags);
            var ip := PrivateIp(db.subnets[subnet].net, want, UsedIps(db.enis, subnet));
            var claim := ClaimAuto(db.enis, region, eni, auto);
            && (o.Some? <==> db.subnets[subnet].region == region && GroupsFit(db, region, subnet, groups)
                             && id !in db.instances && eni !in db.enis && ip.Some? && claim.Some?)
            && (o.Some? ==>
                  var row := Eni(region, id, subnet, db.subnets[subnet].vpc, ip.value, claim.value, auto, groups);
                  o.value == db.(instances := db.instances[id := Instance(region, subnet, Running, guarded)],
                                 enis := db.enis[eni := row], tags := o.value.tags))
  {
    hide PrivateIp, ClaimAuto, UsedIps, TagMap;
  }

  lemma PrivateExactly(db: Db, subnet: Id, want: Option<nat>)
    requires subnet in db.subnets
    ensures var net := db.subnets[subnet].net;
            var r := PrivateIp(net, want, UsedIps(db.enis, subnet));
            if net.Unparsed? || net.v6 then r.None?
            else
              && (r.Some? <==> exists ip :: AddressFree(db, subnet, want, ip))
              && (r.Some? ==> AddressFree(db, subnet, want, r.value) && forall x: nat :: AddressFree(db, subnet, want, x) ==> r.value <= x)
  {
    var net, used := db.subnets[subnet].net, UsedIps(db.enis, subnet);
    forall x: nat ensures x in used <==> exists e :: e in db.enis && db.enis[e].subnet == subnet && db.enis[e].privateIp == x {
    }
    hide UsedIps;
    if net.Prefix? && !net.v6 {
      forall ip: nat ensures AddressFree(db, subnet, want, ip) <==> Usable(net, ip) && ip !in used && (want.Some? ==> ip == want.value) {
      }
      hide AddressFree, Usable, PrivateIp;
    }
  }

  // ----- networks -----

  /** A gateway of the region is attached to a VPC of it, and off any other, or detached, and nothing else changes. */
  lemma GatewayServedExactly(db: Db, region: string, id: Id, vpc: Id)
    ensures var o := AttachGateway(db, region, id, vpc);
            && (o.Some? <==> id in db.gateways && db.gateways[id].region == region && vpc in db.vpcs && db.vpcs[vpc].region == region)
            && (o.Some? ==> o.value == db.(gateways := db.gateways[id := Gateway(region, Some(vpc))]))
            && (o.Some? ==> DetachGateway(o.value, region, id) == Some(db.(gateways := db.gateways[id := Gateway(region, None)])))
  {
    assert id in db.gateways ==> db.gateways[id := Gateway(region, Some(vpc))][id := Gateway(region, None)] == db.gateways[id := Gateway(region, None)];
  }

  /** Two blocks have an address in common. */
  ghost predicate Meet(p: ValidPrefix, q: ValidPrefix)
    requires p.Prefix? && q.Prefix?
  {
    exists six, x: nat :: p.Contains(six, x) && q.Contains(six, x)
  }

  /**
   * CreateSubnet is served after a run exactly when the VPC is the region's, its block covers
   * the subnet's, of a size EC2 takes, which meets no other subnet's of the VPC, and the id is new.
   */
  lemma CreateSubnetServedExactly(calls: seq<Call>, region: string, vpc: Id, net: ValidPrefix, id: Id, tags: map<string, string>)
    ensures var db := Reached(calls);
            var o := CreateSubnet(db, region, vpc, net, id, tags);
            && (o.Some? <==>
                  && vpc in db.vpcs && db.vpcs[vpc].region == region
                  && db.vpcs[vpc].net.Prefix? && net.Prefix? && 16 <= net.bits <= 28 && Covers(db.vpcs[vpc].net, net)
                  && (forall s :: s in db.subnets && db.subnets[s].vpc == vpc ==> db.subnets[s].net.Prefix? && !Meet(db.subnets[s].net, net))
                  && id !in db.subnets)
            && (o.Some? ==> o.value == db.(subnets := db.subnets[id := Subnet(region, vpc, net)], tags := o.value.tags))
  {
    ReachedKeeps(calls);
    hide Run, Networks, Groups, EniGroups, PrivateIps, Defaults, TagsStored, PublicAddresses, Compute, TagMap;
    var db := Reached(calls);
    if vpc in db.vpcs && db.vpcs[vpc].net.Prefix? && net.Prefix? {
      InRangeIsCovered(db.vpcs[vpc].net, net);
      forall s | s in db.subnets && db.subnets[s].vpc == vpc ensures Meet(db.subnets[s].net, net) == Overlaps(db.subnets[s].net, net) {
        OverlapIsShared(db.subnets[s].net, net);
      }
      hide Overlaps, Meet, InRange, Covers;
    }
  }

  /**
   * CreateVpc is served after a run exactly when it has a CIDR and its ids are new; it then
   * stores the VPC, a group named default, a main route table and its local route.
   */
  lemma CreateVpcServedExactly(calls: seq<Call>, region: string, cidr: string, net: ValidPrefix, id: Id, group: Id, table: Id, assoc: Id,
                               tags: map<string, string>)
    ensures var db := Reached(calls);
            var o := CreateVpc(db, region, cidr, net, id, group, table, assoc, tags);
            && (o.Some? <==> cidr != "" && id !in db.vpcs && group !in db.groups && table !in db.tables && assoc !in db.assocs)
            && (o.Some? ==>
                  var d := o.value;
                  && d == db.(vpcs := d.vpcs, groups := d.groups, tables := d.tables, routes := d.routes, assocs := d.assocs, tags := d.tags)
                  && d.vpcs == db.vpcs[id := Vpc(region, cidr, net)]
                  && d.groups == db.groups[group := Group(region, id, "default")]
                  && d.tables == db.tables[table := RouteTable(region, id)]
                  && d.routes == db.routes[RouteKey(table, cidr) := "local"]
                  && d.assocs == db.assocs[assoc := Association(table, id, None, true)])
  {
    ReachedKeeps(calls);
    hide Run, Compute, EniGroups, PrivateIps, Defaults, TagsStored, PublicAddresses, SubnetBlocks, RulesIn, TagMap;
    var db := Reached(calls);
  }

  /**
   * CreateSecurityGroup is served after a run exactly when the VPC is the region's, the id is
   * new and no group of the VPC has the name: that it has none named default needs no saying.
   */
  lemma CreateGroupServedExactly(calls: seq<Call>, region: string, vpc: Id, name: string, id: Id, tags: map<string, string>)
    ensures var db := Reached(calls);
            var o := CreateGroup(db, region, vpc, name, id, tags);
            && (o.Some? <==>
                  && name != "" && vpc in db.vpcs && db.vpcs[vpc].region == region && id !in db.groups
                  && forall g :: g in db.groups && db.groups[g].vpc == vpc ==> db.groups[g].name != name)
            && (o.Some? ==> o.value == db.(groups := db.groups[id := Group(region, vpc, name)], tags := o.value.tags))
  {
    ReachedKeeps(calls);
    hide Run, Networks, Compute, EniGroups, PrivateIps, TagsStored, PublicAddresses, SubnetBlocks, Groups, OneMain, MainTables,
         LocalRoutes, TagMap;
    var db := Reached(calls);
    if vpc in db.vpcs { assert HasDefaultGroup(db.groups, vpc); }
  }
}
