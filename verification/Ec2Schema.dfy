/**
 * The EC2 tables of one account, as the schema strings of `repository/ec2.go`,
 * `ec2_compute.go` and `ec2_tags.go` key and reference them, and what every
 * stored state of an unloaded database satisfies.
 */
module Ec2Schema {
  import opened Options
  import opened Net
  import opened PublicIps
  import SR = SecurityRules

  type Id = string
  type ValidPrefix = p: Prefix | p.Valid() witness Unparsed

  const DEFAULT_GROUP := "default"
  const LOCAL_GATEWAY := "local"

  // ----- rows -----

  /** A VPC's CIDR as it was sent and as it parses, if it does. */
  datatype Vpc = Vpc(region: string, cidr: string, net: ValidPrefix)

  datatype Subnet = Subnet(region: string, vpc: Id, net: ValidPrefix)

  datatype Gateway = Gateway(region: string, vpc: Option<Id>)

  datatype RouteTable = RouteTable(region: string, vpc: Id)

  /** A main association has no subnet; `vpc` is the route table's. */
  datatype Association = Association(table: Id, vpc: Id, subnet: Option<Id>, main: bool)

  datatype Group = Group(region: string, vpc: Id, name: string)

  datatype State = Running | Terminated

  datatype Instance = Instance(region: string, subnet: Id, state: State, guarded: bool)

  /** A launched instance's primary interface. */
  datatype Eni = Eni(
    region: string, instance: Id, subnet: Id, vpc: Id, privateIp: nat,
    publicIp: Option<PublicIp>, auto: bool, groups: seq<Id>)

  datatype Attachment = Attachment(id: Id, eni: Id, instance: Id, privateIp: nat)

  /** An Elastic IP and the association it holds, if any. */
  datatype Address = Address(region: string, publicIp: PublicIp, on: Option<Attachment>)

  /** A taggable row, told by the prefix of its id. */
  datatype Resource =
    | VpcRow(id: Id) | SubnetRow(id: Id) | GatewayRow(id: Id) | TableRow(id: Id) | GroupRow(id: Id)
    | RuleRow(id: Id) | InstanceRow(id: Id) | EniRow(id: Id) | AddressRow(id: Id)

  /** A route's key: its table and its destination; the value is its gateway. */
  datatype RouteKey = RouteKey(table: Id, destination: string)

  datatype TagKey = TagKey(resource: Resource, key: string)

  datatype Db = Db(
    vpcs: map<Id, Vpc>, subnets: map<Id, Subnet>, gateways: map<Id, Gateway>,
    tables: map<Id, RouteTable>, assocs: map<Id, Association>, routes: map<RouteKey, string>,
    groups: map<Id, Group>, rules: SR.Table,
    instances: map<Id, Instance>, enis: map<Id, Eni>, addresses: map<Id, Address>,
    tags: map<TagKey, string>)

  const EMPTY_DB: Db :=
    Db(map[], map[], map[], map[], map[], map[], map[], [], map[], map[], map[], map[])

  predicate Stored(db: Db, r: Resource) {
    match r
    case VpcRow(id) => id in db.vpcs
    case SubnetRow(id) => id in db.subnets
    case GatewayRow(id) => id in db.gateways
    case TableRow(id) => id in db.tables
    case GroupRow(id) => id in db.groups
    case RuleRow(id) => SR.HasId(db.rules, id)
    case InstanceRow(id) => id in db.instances
    case EniRow(id) => id in db.enis
    case AddressRow(id) => id in db.addresses
  }

  /** The drop-tags triggers: a row deleted on the way from `before` takes its tags along. */
  function Triggered(before: Db, after: Db): (db: Db)
    ensures db == after.(tags := db.tags)
    ensures forall k :: k in db.tags <==> k in after.tags && (Stored(before, k.resource) ==> Stored(after, k.resource))
    ensures forall k :: k in db.tags ==> db.tags[k] == after.tags[k]
  {
    after.(tags := map k | k in after.tags && (Stored(before, k.resource) ==> Stored(after, k.resource)) :: after.tags[k])
  }

  // ----- references -----

  ghost predicate SubnetsIn(vpcs: map<Id, Vpc>, subnets: map<Id, Subnet>) {
    forall s :: s in subnets ==> subnets[s].vpc in vpcs && subnets[s].region == vpcs[subnets[s].vpc].region
  }

  ghost predicate GatewaysIn(vpcs: map<Id, Vpc>, gateways: map<Id, Gateway>) {
    forall g :: g in gateways && gateways[g].vpc.Some? ==> gateways[g].vpc.value in vpcs
  }

  ghost predicate TablesIn(vpcs: map<Id, Vpc>, tables: map<Id, RouteTable>) {
    forall t :: t in tables ==> tables[t].vpc in vpcs
  }

  ghost predicate AssocsIn(tables: map<Id, RouteTable>, subnets: map<Id, Subnet>, assocs: map<Id, Association>) {
    && (forall a :: a in assocs ==>
          && assocs[a].table in tables && assocs[a].vpc == tables[assocs[a].table].vpc
          && (assocs[a].subnet.Some? ==> assocs[a].subnet.value in subnets && !assocs[a].main))
    && (forall a, b :: a in assocs && b in assocs && assocs[a].subnet.Some? && assocs[a].subnet == assocs[b].subnet ==> a == b)
  }

  ghost predicate RoutesIn(tables: map<Id, RouteTable>, routes: map<RouteKey, string>) {
    forall k :: k in routes ==> k.table in tables
  }

  ghost predicate GroupsIn(vpcs: map<Id, Vpc>, groups: map<Id, Group>) {
    && (forall g :: g in groups ==> groups[g].vpc in vpcs)
    && (forall g, h :: g in groups && h in groups && groups[g].vpc == groups[h].vpc && groups[g].name == groups[h].name ==> g == h)
  }

  ghost predicate RulesIn(groups: map<Id, Group>, rules: SR.Table) {
    && (forall r :: r in rules ==> r.group in groups)
    && SR.WellOrdered(rules)
  }

  ghost predicate InstancesIn(subnets: map<Id, Subnet>, instances: map<Id, Instance>) {
    forall i :: i in instances ==>
      instances[i].subnet in subnets && instances[i].region == subnets[instances[i].subnet].region
  }

  /** An interface is a running instance's, in its subnet; each running instance has exactly one. */
  ghost predicate EnisIn(subnets: map<Id, Subnet>, instances: map<Id, Instance>, enis: map<Id, Eni>) {
    && (forall e :: e in enis ==>
          && enis[e].subnet in subnets && enis[e].vpc == subnets[enis[e].subnet].vpc
          && enis[e].instance in instances && instances[enis[e].instance].state == Running
          && instances[enis[e].instance].subnet == enis[e].subnet
          && instances[enis[e].instance].region == enis[e].region)
    && (forall e, f :: e in enis && f in enis && enis[e].instance == enis[f].instance ==> e == f)
    && (forall i :: i in instances && instances[i].state == Running ==> HasEni(enis, i))
  }

  predicate HasEni(enis: map<Id, Eni>, instance: Id) {
    exists e :: e in enis && enis[e].instance == instance
  }

  /** An interface's groups are stored, in its VPC. */
  ghost predicate EniGroups(groups: map<Id, Group>, enis: map<Id, Eni>) {
    forall e, g :: e in enis && g in enis[e].groups ==> g in groups && groups[g].vpc == enis[e].vpc
  }

  // ----- what a VPC is made with -----

  predicate HasDefaultGroup(groups: map<Id, Group>, vpc: Id) {
    exists g :: g in groups && groups[g].vpc == vpc && groups[g].name == DEFAULT_GROUP
  }

  predicate HasMain(assocs: map<Id, Association>, vpc: Id) {
    exists a :: a in assocs && assocs[a].vpc == vpc && assocs[a].main
  }

  /** With the UNIQUE on (vpc, name): exactly one default group each. */
  ghost predicate DefaultGroups(vpcs: map<Id, Vpc>, groups: map<Id, Group>) {
    forall v :: v in vpcs ==> HasDefaultGroup(groups, v)
  }

  /** The one-main index: no VPC has two main associations. */
  ghost predicate OneMain(assocs: map<Id, Association>) {
    forall a, b :: a in assocs && b in assocs && assocs[a].main && assocs[b].main && assocs[a].vpc == assocs[b].vpc ==> a == b
  }

  ghost predicate MainTables(vpcs: map<Id, Vpc>, assocs: map<Id, Association>) {
    forall v :: v in vpcs ==> HasMain(assocs, v)
  }

  /** Each route table keeps the local route to its VPC's CIDR. */
  ghost predicate LocalRoutes(vpcs: map<Id, Vpc>, tables: map<Id, RouteTable>, routes: map<RouteKey, string>) {
    forall t :: t in tables && tables[t].vpc in vpcs ==>
      var k := RouteKey(t, vpcs[tables[t].vpc].cidr);
      k in routes && routes[k] == LOCAL_GATEWAY
  }

  // ----- address ranges -----

  /** Subnets lie in their VPC's range and no two of a VPC overlap. */
  ghost predicate SubnetBlocks(vpcs: map<Id, Vpc>, subnets: map<Id, Subnet>) {
    && (forall s :: s in subnets && subnets[s].vpc in vpcs ==> InRange(vpcs[subnets[s].vpc].net, subnets[s].net))
    && (forall s :: s in subnets ==> subnets[s].net.Prefix? && 16 <= subnets[s].net.bits <= 28)
    && (forall s, t :: s in subnets && t in subnets && s != t && subnets[s].vpc == subnets[t].vpc ==>
          !Overlaps(subnets[s].net, subnets[t].net))
  }

  /** A private IP is a usable address of its IPv4 subnet, once. */
  ghost predicate PrivateIps(subnets: map<Id, Subnet>, enis: map<Id, Eni>) {
    && (forall e :: e in enis && enis[e].subnet in subnets ==>
          var p := subnets[enis[e].subnet].net;
          p.Prefix? && !p.v6 && Usable(p, enis[e].privateIp))
    && (forall e, f :: e in enis && f in enis && e != f && enis[e].subnet == enis[f].subnet ==>
          enis[e].privateIp != enis[f].privateIp)
  }

  // ----- public addresses -----

  ghost predicate OnEni(addresses: map<Id, Address>, a: Id, eni: Id) {
    a in addresses && addresses[a].on.Some? && addresses[a].on.value.eni == eni
  }

  /** An association and its interface agree, and neither has another. */
  ghost predicate Associated(enis: map<Id, Eni>, addresses: map<Id, Address>) {
    && (forall a, e :: OnEni(addresses, a, e) ==>
          && e in enis && enis[e].region == addresses[a].region
          && addresses[a].on.value.instance == enis[e].instance
          && addresses[a].on.value.privateIp == enis[e].privateIp
          && enis[e].publicIp == Some(addresses[a].publicIp))
    && (forall a, b, e :: OnEni(addresses, a, e) && OnEni(addresses, b, e) ==> a == b)
  }

  /** Elastic IPs come from their own /24, each once in a region. */
  ghost predicate Elastic(addresses: map<Id, Address>) {
    && (forall a :: a in addresses ==> addresses[a].publicIp.net == EIP_NET && addresses[a].publicIp.last < 256)
    && (forall a, b :: a in addresses && b in addresses && a != b && addresses[a].region == addresses[b].region ==>
          addresses[a].publicIp != addresses[b].publicIp)
  }

  ghost predicate Bare(addresses: map<Id, Address>, eni: Id) {
    forall a :: !OnEni(addresses, a, eni)
  }

  /** An interface with no Elastic IP shows an address of the auto /24 exactly when its launch asked for one. */
  ghost predicate AutoIps(enis: map<Id, Eni>, addresses: map<Id, Address>) {
    forall e :: e in enis && Bare(addresses, e) ==>
      if enis[e].auto then enis[e].publicIp.Some? && enis[e].publicIp.value.net == AUTO_NET && enis[e].publicIp.value.last < 256
      else enis[e].publicIp == None
  }

  /** No two interfaces of a region show one public IP. */
  ghost predicate PublicIpsDistinct(enis: map<Id, Eni>) {
    forall e, f :: e in enis && f in enis && e != f && enis[e].region == enis[f].region && enis[e].publicIp.Some? ==>
      enis[e].publicIp != enis[f].publicIp
  }

  ghost predicate PublicAddresses(enis: map<Id, Eni>, addresses: map<Id, Address>) {
    Associated(enis, addresses) && Elastic(addresses) && AutoIps(enis, addresses) && PublicIpsDistinct(enis)
  }

  // ----- tags -----

  ghost predicate TagsStored(db: Db) {
    forall k :: k in db.tags ==> Stored(db, k.resource)
  }

  // ----- the invariant, grouped by the tables it reads -----

  ghost predicate Networks(vpcs: map<Id, Vpc>, subnets: map<Id, Subnet>, gateways: map<Id, Gateway>,
                           tables: map<Id, RouteTable>, assocs: map<Id, Association>, routes: map<RouteKey, string>)
  {
    && SubnetsIn(vpcs, subnets)
    && GatewaysIn(vpcs, gateways)
    && TablesIn(vpcs, tables)
    && AssocsIn(tables, subnets, assocs)
    && RoutesIn(tables, routes)
  }

  ghost predicate Groups(vpcs: map<Id, Vpc>, groups: map<Id, Group>, rules: SR.Table) {
    GroupsIn(vpcs, groups) && RulesIn(groups, rules)
  }

  ghost predicate Compute(subnets: map<Id, Subnet>, instances: map<Id, Instance>, enis: map<Id, Eni>) {
    InstancesIn(subnets, instances) && EnisIn(subnets, instances, enis)
  }

  ghost predicate Defaults(vpcs: map<Id, Vpc>, groups: map<Id, Group>, tables: map<Id, RouteTable>,
                           assocs: map<Id, Association>, routes: map<RouteKey, string>)
  {
    && DefaultGroups(vpcs, groups)
    && OneMain(assocs)
    && MainTables(vpcs, assocs)
    && LocalRoutes(vpcs, tables, routes)
  }

  /** What holds of every reachable unloaded state. */
  ghost predicate Inv(db: Db) {
    && Networks(db.vpcs, db.subnets, db.gateways, db.tables, db.assocs, db.routes)
    && Groups(db.vpcs, db.groups, db.rules)
    && Compute(db.subnets, db.instances, db.enis)
    && EniGroups(db.groups, db.enis)
    && Defaults(db.vpcs, db.groups, db.tables, db.assocs, db.routes)
    && SubnetBlocks(db.vpcs, db.subnets)
    && PrivateIps(db.subnets, db.enis)
    && PublicAddresses(db.enis, db.addresses)
    && TagsStored(db)
  }
}
