/**
 * Each EC2 request as one atomic step on the tables: None is a refusal, which
 * changes nothing. Ids are what the handlers draw at random, taken as inputs.
 */
module Ec2Ops {
  import opened Options
  import opened Net
  import opened PublicIps
  import opened Ec2Schema
  import SR = SecurityRules

  // ----- tags -----

  function TagMap(r: Resource, tags: map<string, string>): map<TagKey, string> {
    map s | s in tags :: TagKey(r, s) := tags[s]
  }

  /** `putTags` on one resource: a key already there takes the new value. */
  function Tagged(db: Db, r: Resource, tags: map<string, string>): Db {
    db.(tags := db.tags + TagMap(r, tags))
  }

  predicate InRegion(db: Db, region: string, r: Resource) {
    match r
    case VpcRow(id) => id in db.vpcs && db.vpcs[id].region == region
    case SubnetRow(id) => id in db.subnets && db.subnets[id].region == region
    case GatewayRow(id) => id in db.gateways && db.gateways[id].region == region
    case TableRow(id) => id in db.tables && db.tables[id].region == region
    case GroupRow(id) => id in db.groups && db.groups[id].region == region
    case RuleRow(id) => exists r :: r in db.rules && r.id == id && r.group in db.groups && db.groups[r.group].region == region
    case InstanceRow(id) => id in db.instances && db.instances[id].region == region
    case EniRow(id) => id in db.enis && db.enis[id].region == region
    case AddressRow(id) => id in db.addresses && db.addresses[id].region == region
  }

  /** Each tag on each resource. */
  function TagAll(resources: set<Resource>, tags: map<string, string>): map<TagKey, string> {
    map r, s | r in resources && s in tags :: TagKey(r, s) := tags[s]
  }

  /** CreateTags: every resource must be stored in the region, and some tag sent. */
  function CreateTags(db: Db, region: string, resources: set<Resource>, tags: map<string, string>): Option<Db> {
    if resources == {} || tags == map[] || exists r :: r in resources && !InRegion(db, region, r) then None
    else Some(db.(tags := db.tags + TagAll(resources, tags)))
  }

  /** A tag DeleteTags selects: by key, and by value too when one is given. */
  datatype TagMatch = TagMatch(key: string, value: Option<string>)

  predicate Matches(m: TagMatch, key: string, value: string) {
    m.key == key && (m.value.Some? ==> m.value.value == value)
  }

  /** DeleteTags: with no match every tag of the resources goes. */
  function DeleteTags(db: Db, region: string, resources: set<Resource>, matches: seq<TagMatch>): Option<Db> {
    if resources == {} || exists r :: r in resources && !InRegion(db, region, r) then None
    else Some(db.(tags := Unselected(db.tags, resources, matches)))
  }

  /** The tags no match selects on the resources. */
  function Unselected(tags: map<TagKey, string>, resources: set<Resource>, matches: seq<TagMatch>): map<TagKey, string> {
    map k | k in tags && !(k.resource in resources && (matches == [] || exists m :: m in matches && Matches(m, k.key, tags[k])))
      :: tags[k]
  }

  // ----- VPCs -----

  /** The tables after CreateVpc, before its tags. */
  function WithVpc(db: Db, region: string, cidr: string, net: ValidPrefix, id: Id, group: Id, table: Id, assoc: Id): Db {
    db.(vpcs := db.vpcs[id := Vpc(region, cidr, net)],
        groups := db.groups[group := Group(region, id, DEFAULT_GROUP)],
        tables := db.tables[table := RouteTable(region, id)],
        routes := db.routes[RouteKey(table, cidr) := LOCAL_GATEWAY],
        assocs := db.assocs[assoc := Association(table, id, None, true)])
  }

  /** No key of the VPC, its default group and its main table is taken. */
  predicate VpcFits(db: Db, cidr: string, id: Id, group: Id, table: Id, assoc: Id) {
    && id !in db.vpcs && group !in db.groups && !HasDefaultGroup(db.groups, id)
    && table !in db.tables && RouteKey(table, cidr) !in db.routes && assoc !in db.assocs && !HasMain(db.assocs, id)
  }

  /** CreateVpc: the VPC, its default group and its main route table, or nothing. */
  function CreateVpc(db: Db, region: string, cidr: string, net: ValidPrefix, id: Id, group: Id, table: Id, assoc: Id,
                     tags: map<string, string>): Option<Db>
  {
    if cidr == "" || !VpcFits(db, cidr, id, group, table, assoc) then None
    else Some(Tagged(WithVpc(db, region, cidr, net, id, group, table, assoc), VpcRow(id), tags))
  }

  /** Every gateway of the VPC, detached. */
  function Detached(gateways: map<Id, Gateway>, vpc: Id): map<Id, Gateway> {
    map g | g in gateways :: if gateways[g].vpc == Some(vpc) then gateways[g].(vpc := None) else gateways[g]
  }

  /** The rules of groups that are still stored. */
  function RulesOf(rules: SR.Table, groups: map<Id, Group>): (r: SR.Table)
    ensures forall x :: x in r <==> x in rules && x.group in groups
  {
    if rules == [] then []
    else (if rules[0].group in groups then [rules[0]] else []) + RulesOf(rules[1..], groups)
  }

  /** A subnet's RESTRICT: an instance or an interface is in it. */
  predicate Occupied(db: Db, subnet: Id) {
    || (exists i :: i in db.instances && db.instances[i].subnet == subnet)
    || (exists e :: e in db.enis && db.enis[e].subnet == subnet)
  }

  /** The associations whose table and subnet are still stored. */
  function AssocsOf(assocs: map<Id, Association>, tables: map<Id, RouteTable>, subnets: map<Id, Subnet>): map<Id, Association> {
    map a | a in assocs && assocs[a].table in tables && (assocs[a].subnet.Some? ==> assocs[a].subnet.value in subnets) :: assocs[a]
  }

  function RoutesOf(routes: map<RouteKey, string>, tables: map<Id, RouteTable>): map<RouteKey, string> {
    map k | k in routes && k.table in tables :: routes[k]
  }

  function SubnetsBut(subnets: map<Id, Subnet>, vpc: Id): map<Id, Subnet> {
    map s | s in subnets && subnets[s].vpc != vpc :: subnets[s]
  }

  function TablesBut(tables: map<Id, RouteTable>, vpc: Id): map<Id, RouteTable> {
    map t | t in tables && tables[t].vpc != vpc :: tables[t]
  }

  function GroupsBut(groups: map<Id, Group>, vpc: Id): map<Id, Group> {
    map g | g in groups && groups[g].vpc != vpc :: groups[g]
  }

  /** The tables once a VPC's row and all that cascades from it are gone. */
  function WithoutVpc(db: Db, id: Id): Db {
    var subnets, tables, groups := SubnetsBut(db.subnets, id), TablesBut(db.tables, id), GroupsBut(db.groups, id);
    db.(vpcs := db.vpcs - {id}, gateways := Detached(db.gateways, id), subnets := subnets, tables := tables, groups := groups,
        assocs := AssocsOf(db.assocs, tables, subnets), routes := RoutesOf(db.routes, tables),
        rules := RulesOf(db.rules, groups))
  }

  /** The VPC is here and its subnets hold nothing. */
  predicate VpcGoes(db: Db, region: string, id: Id) {
    && id in db.vpcs && db.vpcs[id].region == region
    && !exists s :: s in db.subnets && db.subnets[s].vpc == id && Occupied(db, s)
  }

  /** DeleteVpc: gateways detached and the row deleted with its cascade, unless a subnet is occupied. */
  function DeleteVpc(db: Db, region: string, id: Id): Option<Db> {
    if !VpcGoes(db, region, id) then None else Some(Triggered(db, WithoutVpc(db, id)))
  }

  // ----- subnets -----

  /** A subnet of the VPC overlaps the block, or has one that does not parse. */
  predicate Conflicts(subnets: map<Id, Subnet>, vpc: Id, net: ValidPrefix)
    requires net.Prefix?
  {
    exists s :: s in subnets && subnets[s].vpc == vpc && (subnets[s].net.Unparsed? || Overlaps(subnets[s].net, net))
  }

  function CreateSubnet(db: Db, region: string, vpc: Id, net: ValidPrefix, id: Id, tags: map<string, string>): Option<Db> {
    if !(vpc in db.vpcs && db.vpcs[vpc].region == region) then None
    else if !InRange(db.vpcs[vpc].net, net) then None
    else if Conflicts(db.subnets, vpc, net) then None
    else if id in db.subnets then None
    else Some(Tagged(db.(subnets := db.subnets[id := Subnet(region, vpc, net)]), SubnetRow(id), tags))
  }

  predicate Collectable(db: Db, region: string, subnet: Id, i: Id) {
    i in db.instances && db.instances[i].region == region && db.instances[i].subnet == subnet && db.instances[i].state == Terminated
  }

  /** The interfaces that are none of these instances'. */
  function EnisBut(enis: map<Id, Eni>, gone: set<Id>): map<Id, Eni> {
    map e | e in enis && enis[e].instance !in gone :: enis[e]
  }

  /** Instances deleted with their interfaces, as the foreign key cascades. */
  function WithoutInstances(db: Db, gone: set<Id>): Db {
    Triggered(db, db.(instances := db.instances - gone, enis := EnisBut(db.enis, gone)))
  }

  /** DeleteSubnet's first half: the region's terminated instances in the subnet are purged. */
  function Collected(db: Db, region: string, subnet: Id): Db {
    WithoutInstances(db, set i | i in db.instances && Collectable(db, region, subnet, i))
  }

  /** The subnet's row gone, its associations with it. */
  function WithoutSubnet(db: Db, id: Id): Option<Db> {
    if Occupied(db, id) then None
    else
      var subnets := db.subnets - {id};
      Some(Triggered(db, db.(subnets := subnets, assocs := AssocsOf(db.assocs, db.tables, subnets))))
  }

  /** DeleteSubnet: the purge stays even when the delete is refused. */
  function DeleteSubnet(db: Db, region: string, id: Id): (Db, bool) {
    var db1 := Collected(db, region, id);
    if !(id in db1.subnets && db1.subnets[id].region == region) then (db1, false)
    else match WithoutSubnet(db1, id)
      case None => (db1, false)
      case Some(db2) => (db2, true)
  }

  // ----- internet gateways -----

  function CreateGateway(db: Db, region: string, id: Id, tags: map<string, string>): Option<Db> {
    if id in db.gateways then None
    else Some(Tagged(db.(gateways := db.gateways[id := Gateway(region, None)]), GatewayRow(id), tags))
  }

  predicate GatewayHere(db: Db, region: string, id: Id) {
    id in db.gateways && db.gateways[id].region == region
  }

  function AttachGateway(db: Db, region: string, id: Id, vpc: Id): Option<Db> {
    if !(vpc in db.vpcs && db.vpcs[vpc].region == region) || !GatewayHere(db, region, id) then None
    else Some(db.(gateways := db.gateways[id := db.gateways[id].(vpc := Some(vpc))]))
  }

  function DetachGateway(db: Db, region: string, id: Id): Option<Db> {
    if !GatewayHere(db, region, id) then None
    else Some(db.(gateways := db.gateways[id := db.gateways[id].(vpc := None)]))
  }

  function DeleteGateway(db: Db, region: string, id: Id): Option<Db> {
    if !GatewayHere(db, region, id) then None
    else Some(Triggered(db, db.(gateways := db.gateways - {id})))
  }

  // ----- route tables -----

  function CreateRouteTable(db: Db, region: string, vpc: Id, id: Id, tags: map<string, string>): Option<Db> {
    if !(vpc in db.vpcs && db.vpcs[vpc].region == region) then None
    else
      var k := RouteKey(id, db.vpcs[vpc].cidr);
      if id in db.tables || k in db.routes then None
      else Some(Tagged(db.(tables := db.tables[id := RouteTable(region, vpc)], routes := db.routes[k := LOCAL_GATEWAY]),
                       TableRow(id), tags))
  }

  predicate TableHere(db: Db, region: string, id: Id) {
    id in db.tables && db.tables[id].region == region
  }

  /** DeleteRouteTable, refused while the table holds a main association. */
  function DeleteRouteTable(db: Db, region: string, id: Id): Option<Db> {
    if !TableHere(db, region, id) || exists a :: a in db.assocs && db.assocs[a].table == id && db.assocs[a].main then None
    else
      var tables := db.tables - {id};
      Some(Triggered(db, db.(tables := tables, assocs := AssocsOf(db.assocs, tables, db.subnets),
                             routes := RoutesOf(db.routes, tables))))
  }

  /** AssociateRouteTable: one association per subnet. */
  function AssociateRouteTable(db: Db, region: string, table: Id, subnet: Id, id: Id): Option<Db> {
    if !TableHere(db, region, table) || !(subnet in db.subnets && db.subnets[subnet].region == region) then None
    else if id in db.assocs || exists a :: a in db.assocs && db.assocs[a].subnet == Some(subnet) then None
    else Some(db.(assocs := db.assocs[id := Association(table, db.tables[table].vpc, Some(subnet), false)]))
  }

  /** DisassociateRouteTable, which looks in no region and refuses a main association. */
  function DisassociateRouteTable(db: Db, id: Id): Option<Db> {
    if id !in db.assocs || db.assocs[id].main then None
    else Some(db.(assocs := db.assocs - {id}))
  }

  function CreateRoute(db: Db, region: string, table: Id, destination: string, gateway: string): Option<Db> {
    if destination == "" || !TableHere(db, region, table) || RouteKey(table, destination) in db.routes then None
    else Some(db.(routes := db.routes[RouteKey(table, destination) := gateway]))
  }

  /** DeleteRoute, which refuses a route through the local gateway. */
  function DeleteRoute(db: Db, region: string, table: Id, destination: string): Option<Db> {
    var k := RouteKey(table, destination);
    if !TableHere(db, region, table) || k !in db.routes || db.routes[k] == LOCAL_GATEWAY then None
    else Some(db.(routes := db.routes - {k}))
  }

  // ----- security groups -----

  /** CreateSecurityGroup: the name default is reserved, and a VPC's names are unique. */
  function CreateGroup(db: Db, region: string, vpc: Id, name: string, id: Id, tags: map<string, string>): Option<Db> {
    if name == "" || name == DEFAULT_GROUP then None
    else if !(vpc in db.vpcs && db.vpcs[vpc].region == region) then None
    else if id in db.groups || exists g :: g in db.groups && db.groups[g].vpc == vpc && db.groups[g].name == name then None
    else Some(Tagged(db.(groups := db.groups[id := Group(region, vpc, name)]), GroupRow(id), tags))
  }

  predicate GroupHere(db: Db, region: string, id: Id) {
    id in db.groups && db.groups[id].region == region
  }

  predicate Held(enis: map<Id, Eni>, group: Id) {
    exists e :: e in enis && group in enis[e].groups
  }

  /** DeleteSecurityGroup: never the default group, nor one an interface holds. */
  function DeleteGroup(db: Db, region: string, id: Id): Option<Db> {
    if !GroupHere(db, region, id) || db.groups[id].name == DEFAULT_GROUP || Held(db.enis, id) then None
    else
      var groups := db.groups - {id};
      Some(Triggered(db, db.(groups := groups, rules := RulesOf(db.rules, groups))))
  }

  function Authorize(db: Db, region: string, group: Id, egress: bool, news: seq<SR.NewRule>): Option<Db> {
    if !GroupHere(db, region, group) then None
    else match SR.Authorize(db.rules, group, egress, news)
      case Refused => None
      case Added(rules, _) => Some(db.(rules := rules))
  }

  function Revoke(db: Db, region: string, group: Id, egress: bool, vs: seq<SR.Revocation>): Option<Db> {
    if !GroupHere(db, region, group) then None
    else match SR.Revoke(db.rules, group, egress, vs)
      case None => None
      case Some(rules) => Some(Triggered(db, db.(rules := rules)))
  }

  // ----- instances -----

  /** The private IPs the interfaces of a subnet hold. */
  function UsedIps(enis: map<Id, Eni>, subnet: Id): set<nat> {
    set e | e in enis && enis[e].subnet == subnet :: enis[e].privateIp
  }

  /** The public IPs the other interfaces of a region show. */
  function ShownIps(enis: map<Id, Eni>, region: string, but: Id): set<PublicIp> {
    set e | e in enis && enis[e].region == region && e != but && enis[e].publicIp.Some? :: enis[e].publicIp.value
  }

  /** `claimPublicIP` for an interface that wants an automatic address: None when the /24 is full. */
  function ClaimAuto(enis: map<Id, Eni>, region: string, eni: Id, auto: bool): Option<Option<PublicIp>> {
    if !auto then Some(None)
    else match FreeIp(Derived(AUTO_NET, eni), ShownIps(enis, region, eni))
      case None => None
      case Some(ip) => Some(Some(ip))
  }

  predicate GroupsUsable(db: Db, region: string, vpc: Id, groups: seq<Id>) {
    forall g :: g in groups ==> GroupHere(db, region, g) && db.groups[g].vpc == vpc
  }

  /** RunInstances: the instance and its primary interface, or nothing. */
  function RunInstance(db: Db, region: string, subnet: Id, groups: seq<Id>, want: Option<nat>, auto: bool, guarded: bool,
                       id: Id, eni: Id, tags: map<string, string>, eniTags: map<string, string>): Option<Db>
  {
    if !(subnet in db.subnets && db.subnets[subnet].region == region) then None
    else if !GroupsUsable(db, region, db.subnets[subnet].vpc, groups) then None
    else if id in db.instances || eni in db.enis then None
    else match PrivateIp(db.subnets[subnet].net, want, UsedIps(db.enis, subnet))
      case None => None
      case Some(ip) =>
        match ClaimAuto(db.enis, region, eni, auto)
        case None => None
        case Some(publicIp) =>
          var row := Eni(region, id, subnet, db.subnets[subnet].vpc, ip, publicIp, auto, groups);
          Some(Tagged(Tagged(db.(instances := db.instances[id := Instance(region, subnet, Running, guarded)],
                                 enis := db.enis[eni := row]),
                             InstanceRow(id), tags),
                      EniRow(eni), eniTags))
  }

  predicate InstanceHere(db: Db, region: string, id: Id) {
    id in db.instances && db.instances[id].region == region
  }

  /** ModifyInstanceAttribute of the termination guard; a terminated instance is refused. */
  function SetGuard(db: Db, region: string, id: Id, guarded: bool): Option<Db> {
    if !InstanceHere(db, region, id) || db.instances[id].state == Terminated then None
    else Some(db.(instances := db.instances[id := db.instances[id].(guarded := guarded)]))
  }

  /** ModifyNetworkInterfaceAttribute of the groups. */
  function SetGroups(db: Db, region: string, eni: Id, groups: seq<Id>): Option<Db> {
    if groups == [] || !(eni in db.enis && db.enis[eni].region == region) then None
    else
      var subnet := db.enis[eni].subnet;
      if !(subnet in db.subnets && db.subnets[subnet].region == region) then None
      else if !GroupsUsable(db, region, db.subnets[subnet].vpc, groups) then None
      else Some(db.(enis := db.enis[eni := db.enis[eni].(groups := groups)]))
  }

  /** The addresses of a terminated instance's interfaces, freed. */
  function Freed(addresses: map<Id, Address>, gone: set<Id>): map<Id, Address> {
    map a | a in addresses ::
      if addresses[a].on.Some? && addresses[a].on.value.instance in gone then addresses[a].(on := None) else addresses[a]
  }

  function EndedRows(instances: map<Id, Instance>, gone: set<Id>): map<Id, Instance> {
    map i | i in instances :: if i in gone then instances[i].(state := Terminated) else instances[i]
  }

  /** Instances moved to terminated: their interfaces deleted, their addresses freed. */
  function WithEnded(db: Db, gone: set<Id>): Db {
    Triggered(db, db.(
      instances := EndedRows(db.instances, gone),
      enis := EnisBut(db.enis, gone),
      addresses := Freed(db.addresses, gone)))
  }

  datatype Termination = Ended(db: Db, previous: seq<State>) | Blamed(id: Id)

  /** An id SetInstanceState refuses to terminate: unknown, or guarded and not terminated. */
  predicate Refuses(db: Db, region: string, id: Id) {
    !InstanceHere(db, region, id) || (db.instances[id].state != Terminated && db.instances[id].guarded)
  }

  /** `setInstanceStateTx` for terminated. */
  function EndOne(db: Db, region: string, id: Id): Db
    requires !Refuses(db, region, id)
  {
    if db.instances[id].state == Terminated then db else WithEnded(db, {id})
  }

  /** SetInstanceState to terminated: each id in turn, all or none. */
  function EndAll(db: Db, region: string, ids: seq<Id>): Termination
    decreases |ids|
  {
    if ids == [] then Ended(db, [])
    else if Refuses(db, region, ids[0]) then Blamed(ids[0])
    else match EndAll(EndOne(db, region, ids[0]), region, ids[1..])
      case Blamed(id) => Blamed(id)
      case Ended(after, previous) => Ended(after, [db.instances[ids[0]].state] + previous)
  }

  function Terminate(db: Db, region: string, ids: seq<Id>): Option<Db> {
    if ids == [] then None
    else match EndAll(db, region, ids)
      case Blamed(_) => None
      case Ended(after, _) => Some(after)
  }

  // ----- Elastic IPs -----

  function HeldIps(addresses: map<Id, Address>, region: string): set<PublicIp> {
    set a | a in addresses && addresses[a].region == region :: addresses[a].publicIp
  }

  function Allocate(db: Db, region: string, id: Id, tags: map<string, string>): Option<Db> {
    match FreeIp(Derived(EIP_NET, id), HeldIps(db.addresses, region))
    case None => None
    case Some(ip) =>
      if id in db.addresses then None
      else Some(Tagged(db.(addresses := db.addresses[id := Address(region, ip, None)]), AddressRow(id), tags))
  }

  predicate AddressHere(db: Db, region: string, id: Id) {
    id in db.addresses && db.addresses[id].region == region
  }

  /** An instance's interface; the run invariant says there is at most one. */
  ghost function EniOf(enis: map<Id, Eni>, instance: Id): Id
    requires HasEni(enis, instance)
  {
    var e :| e in enis && enis[e].instance == instance;
    e
  }

  /** `associationTarget`: the interface named, or the named instance's. */
  ghost function Target(db: Db, region: string, eni: Option<Id>, instance: Option<Id>): Option<Id> {
    if eni.Some? then
      if eni.value in db.enis && db.enis[eni.value].region == region
         && (instance.Some? ==> instance.value == db.enis[eni.value].instance)
      then eni else None
    else if instance.Some? && InstanceHere(db, region, instance.value) && HasEni(db.enis, instance.value)
    then Some(EniOf(db.enis, instance.value))
    else None
  }

  /** AssociateAddress; reassociation is refused, as are an address or an interface already associated. */
  ghost function Associate(db: Db, region: string, id: Id, eni: Option<Id>, instance: Option<Id>, privateIp: Option<nat>,
                           reassociate: bool, assoc: Id): Option<Db>
  {
    if !AddressHere(db, region, id) then None
    else match Target(db, region, eni, instance)
      case None => None
      case Some(e) =>
        if (privateIp.Some? && privateIp.value != db.enis[e].privateIp) || reassociate then None
        else if db.addresses[id].on.Some? || exists a :: OnEni(db.addresses, a, e) then None
        else Some(Placed(db, id, e, assoc))
  }

  /** The association stored, and the address shown by the interface. */
  function Placed(db: Db, id: Id, e: Id, assoc: Id): Db
    requires id in db.addresses && e in db.enis
  {
    var row := db.enis[e];
    db.(addresses := db.addresses[id := db.addresses[id].(on := Some(Attachment(assoc, e, row.instance, row.privateIp)))],
        enis := db.enis[e := row.(publicIp := Some(db.addresses[id].publicIp))])
  }

  predicate Carries(db: Db, region: string, a: Id, assoc: Id) {
    AddressHere(db, region, a) && db.addresses[a].on.Some? && db.addresses[a].on.value.id == assoc
  }

  ghost function AddressOf(db: Db, region: string, assoc: Id): Id
    requires exists a :: Carries(db, region, a, assoc)
  {
    var a :| Carries(db, region, a, assoc);
    a
  }

  /** An address cleared, if its interface is here; one launched with an automatic address gets one again. */
  function Cleared(db: Db, region: string, a: Id): Option<Db>
    requires a in db.addresses && db.addresses[a].on.Some?
  {
    var e := db.addresses[a].on.value.eni;
    if !(e in db.enis && db.enis[e].region == region) then None
    else match ClaimAuto(db.enis, region, e, db.enis[e].auto)
      case None => None
      case Some(publicIp) =>
        Some(db.(addresses := db.addresses[a := db.addresses[a].(on := None)],
                 enis := db.enis[e := db.enis[e].(publicIp := publicIp)]))
  }

  /** DisassociateAddress: an address that carries the association is cleared. */
  ghost function Disassociate(db: Db, region: string, assoc: Id): Option<Db> {
    if assoc == "" || !(exists a :: Carries(db, region, a, assoc)) then None
    else Cleared(db, region, AddressOf(db, region, assoc))
  }

  function Release(db: Db, region: string, id: Id): Option<Db> {
    if !AddressHere(db, region, id) || db.addresses[id].on.Some? then None
    else Some(Triggered(db, db.(addresses := db.addresses - {id})))
  }
}
