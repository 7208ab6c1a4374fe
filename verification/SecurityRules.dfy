/**
 * Security group rules: the rows authorize and revoke keep, their ordinals, and
 * the permissions they gather into.
 */
module SecurityRules {
  import opened Options

  /** A permission's identity: protocol and ports. */
  datatype PermKey = PermKey(protocol: string, fromPort: int, toPort: int)

  /** Which source column holds the value; the order is the one sources are listed in. */
  datatype SourceKind = Ipv4 | Ipv6 | GroupPair | PrefixList

  datatype Source = Source(kind: SourceKind, value: string)

  /** A source of a permission as a request names it. */
  datatype Grant = Grant(source: Source, user: string, description: string)

  /** The table's CHECKs: a source column is set, and a user only beside a group. */
  predicate Storable(g: Grant) {
    g.source.value != "" && (g.user != "" ==> g.source.kind == GroupPair)
  }

  datatype NewRule = NewRule(id: string, key: PermKey, grant: Grant)

  /** A row: one source of one permission of one direction of a group. */
  datatype Rule = Rule(
    id: string, group: string, egress: bool, permOrd: nat, srcOrd: nat, key: PermKey, grant: Grant)

  type Table = seq<Rule>

  // ----- the queries -----

  /** The rules of one direction of a group. */
  predicate InDirection(r: Rule, group: string, egress: bool) {
    r.group == group && r.egress == egress
  }

  predicate InPermission(r: Rule, group: string, egress: bool, key: PermKey) {
    InDirection(r, group, egress) && r.key == key
  }

  /** One more than the last permission's position in the direction. */
  function NextPermOrd(t: Table, group: string, egress: bool): (n: nat)
    ensures forall r :: r in t && InDirection(r, group, egress) ==> r.permOrd < n
    ensures n == 0 || exists r :: r in t && InDirection(r, group, egress) && n == r.permOrd + 1
  {
    if t == [] then 0
    else
      var rest := NextPermOrd(t[1..], group, egress);
      assert forall r :: r in t <==> r == t[0] || r in t[1..];
      if InDirection(t[0], group, egress) && t[0].permOrd >= rest then t[0].permOrd + 1 else rest
  }

  /** One more than the last source's position in the permission. */
  function NextSrcOrd(t: Table, group: string, egress: bool, key: PermKey): (n: nat)
    ensures forall r :: r in t && InPermission(r, group, egress, key) ==> r.srcOrd < n
  {
    if t == [] then 0
    else
      var rest := NextSrcOrd(t[1..], group, egress, key);
      assert forall r :: r in t <==> r == t[0] || r in t[1..];
      if InPermission(t[0], group, egress, key) && t[0].srcOrd >= rest then t[0].srcOrd + 1 else rest
  }

  /** The least position the permission's rules hold, if it has any. */
  function PermOrdOf(t: Table, group: string, egress: bool, key: PermKey): (n: Option<nat>)
    ensures n.None? ==> forall r :: r in t ==> !InPermission(r, group, egress, key)
    ensures n.Some? ==> exists r :: r in t && InPermission(r, group, egress, key) && r.permOrd == n.value
  {
    if t == [] then None
    else
      var rest := PermOrdOf(t[1..], group, egress, key);
      assert forall r :: r in t <==> r == t[0] || r in t[1..];
      if !InPermission(t[0], group, egress, key) then rest
      else if rest.Some? && rest.value <= t[0].permOrd then rest
      else Some(t[0].permOrd)
  }

  predicate Holds(t: Table, group: string, egress: bool, key: PermKey, source: Source) {
    exists r :: r in t && InPermission(r, group, egress, key) && r.grant.source == source
  }

  predicate HasId(t: Table, id: string) {
    exists r :: r in t && r.id == id
  }

  /** Where `ruleOrdinals` puts a rule. */
  function Placed(t: Table, group: string, egress: bool, n: NewRule): Rule {
    var ord := PermOrdOf(t, group, egress, n.key);
    Rule(n.id, group, egress, if ord.Some? then ord.value else NextPermOrd(t, group, egress),
         NextSrcOrd(t, group, egress, n.key), n.key, n.grant)
  }

  // ----- authorize and revoke -----

  datatype Authorized = Refused | Added(table: Table, added: seq<Rule>)

  /**
   * `AuthorizeSecurityGroupRules`: each rule whose source its permission lacks is
   * added; a stored id or a source a CHECK refuses fails the whole request.
   */
  function Authorize(t: Table, group: string, egress: bool, news: seq<NewRule>): Authorized
    decreases |news|
  {
    if news == [] then Added(t, [])
    else
      var n := news[0];
      if Holds(t, group, egress, n.key, n.grant.source) then Authorize(t, group, egress, news[1..])
      else if HasId(t, n.id) || !Storable(n.grant) then Refused
      else
        var row := Placed(t, group, egress, n);
        match Authorize(t + [row], group, egress, news[1..])
        case Refused => Refused
        case Added(table, added) => Added(table, [row] + added)
  }

  datatype Revocation = ById(id: string) | BySource(key: PermKey, source: Source)

  predicate Revokes(v: Revocation, group: string, egress: bool, r: Rule) {
    && InDirection(r, group, egress)
    && match v
       case ById(id) => r.id == id
       case BySource(key, source) => r.key == key && r.grant.source == source
  }

  function Without(t: Table, v: Revocation, group: string, egress: bool): (r: Table)
    ensures forall x :: x in r <==> x in t && !Revokes(v, group, egress, x)
    ensures |r| <= |t|
  {
    if t == [] then []
    else (if Revokes(v, group, egress, t[0]) then [] else [t[0]]) + Without(t[1..], v, group, egress)
  }

  predicate Names(t: Table, v: Revocation, group: string, egress: bool) {
    exists r :: r in t && Revokes(v, group, egress, r)
  }

  /** `RevokeSecurityGroupRules`: None when an id names no rule left in the direction. */
  function Revoke(t: Table, group: string, egress: bool, vs: seq<Revocation>): Option<Table>
    decreases |vs|
  {
    if vs == [] then Some(t)
    else if vs[0].ById? && !Names(t, vs[0], group, egress) then None
    else Revoke(Without(t, vs[0], group, egress), group, egress, vs[1..])
  }

  // ----- what every request keeps -----

  /** Two rows of one direction of one group. */
  ghost predicate Beside(r: Rule, s: Rule) {
    r.group == s.group && r.egress == s.egress
  }

  ghost predicate Compatible(r: Rule, s: Rule) {
    && r.id != s.id
    && (Beside(r, s) ==>
          && (r.permOrd == s.permOrd <==> r.key == s.key)
          && !(r.permOrd == s.permOrd && r.srcOrd == s.srcOrd)
          && !(r.key == s.key && r.grant.source == s.grant.source))
  }

  /**
   * In each direction a position is one permission, (permOrd, srcOrd) is unique
   * and no permission holds a source twice.
   */
  ghost predicate WellOrdered(t: Table) {
    && (forall i, j :: 0 <= i < j < |t| ==> Compatible(t[i], t[j]))
    && (forall r :: r in t ==> Storable(r.grant))
  }

  lemma WellOrderedAppends(t: Table, row: Rule)
    requires WellOrdered(t) && Storable(row.grant)
    requires forall r :: r in t ==> Compatible(r, row)
    ensures WellOrdered(t + [row])
  {
    var u := t + [row];
    forall i, j | 0 <= i < j < |u| ensures Compatible(u[i], u[j]) {
      assert u[i] in t;
    }
  }

  /** A placed rule is compatible with every row. */
  lemma PlacedIsCompatible(t: Table, group: string, egress: bool, n: NewRule)
    requires WellOrdered(t)
    requires !Holds(t, group, egress, n.key, n.grant.source) && !HasId(t, n.id)
    ensures forall r :: r in t ==> Compatible(r, Placed(t, group, egress, n))
  {
    var row := Placed(t, group, egress, n);
    var ord := PermOrdOf(t, group, egress, n.key);
    forall r | r in t && Beside(r, row) ensures r.permOrd == row.permOrd <==> r.key == row.key {
      if ord.Some? {
        var w :| w in t && InPermission(w, group, egress, n.key) && w.permOrd == ord.value;
        SamePlace(t, r, w);
      }
    }
  }

  /** Within one direction a position and a permission determine each other. */
  lemma SamePlace(t: Table, r: Rule, s: Rule)
    requires WellOrdered(t) && r in t && s in t && Beside(r, s)
    ensures r.permOrd == s.permOrd <==> r.key == s.key
    ensures r.permOrd == s.permOrd && r.srcOrd == s.srcOrd ==> r == s
    ensures r.key == s.key && r.grant.source == s.grant.source ==> r == s
  {
    var i :| 0 <= i < |t| && t[i] == r;
    var j :| 0 <= j < |t| && t[j] == s;
    if i < j { assert Compatible(t[i], t[j]); } else if j < i { assert Compatible(t[j], t[i]); }
  }

  lemma {:induction false} AuthorizeKeepsOrder(t: Table, group: string, egress: bool, news: seq<NewRule>)
    requires WellOrdered(t)
    ensures var a := Authorize(t, group, egress, news); a.Added? ==> WellOrdered(a.table)
    decreases |news|
  {
    if news != [] {
      var n := news[0];
      if Holds(t, group, egress, n.key, n.grant.source) {
        AuthorizeKeepsOrder(t, group, egress, news[1..]);
      } else if !HasId(t, n.id) && Storable(n.grant) {
        PlacedIsCompatible(t, group, egress, n);
        WellOrderedAppends(t, Placed(t, group, egress, n));
        AuthorizeKeepsOrder(t + [Placed(t, group, egress, n)], group, egress, news[1..]);
      }
    }
  }

  lemma {:induction false} WithoutKeepsOrder(t: Table, v: Revocation, group: string, egress: bool)
    requires WellOrdered(t)
    ensures WellOrdered(Without(t, v, group, egress))
  {
    if t != [] {
      WithoutKeepsOrder(t[1..], v, group, egress);
      var rest := Without(t[1..], v, group, egress);
      forall r | r in rest ensures Compatible(t[0], r) {
        var j :| 0 <= j < |t[1..]| && t[1..][j] == r;
        assert Compatible(t[0], t[j + 1]);
      }
    }
  }

  lemma {:induction false} RevokeKeepsOrder(t: Table, group: string, egress: bool, vs: seq<Revocation>)
    requires WellOrdered(t)
    ensures var r := Revoke(t, group, egress, vs); r.Some? ==> WellOrdered(r.value)
    decreases |vs|
  {
    if vs != [] && !(vs[0].ById? && !Names(t, vs[0], group, egress)) {
      WithoutKeepsOrder(t, vs[0], group, egress);
      RevokeKeepsOrder(Without(t, vs[0], group, egress), group, egress, vs[1..]);
    }
  }

  /** Every source asked for is held afterwards, and what was held stays. */
  lemma {:induction false} AuthorizeHolds(t: Table, group: string, egress: bool, news: seq<NewRule>)
    requires Authorize(t, group, egress, news).Added?
    ensures var a := Authorize(t, group, egress, news);
            && a.table == t + a.added
            && forall n :: n in news ==> Holds(a.table, group, egress, n.key, n.grant.source)
    decreases |news|
  {
    if news != [] {
      var n, a := news[0], Authorize(t, group, egress, news);
      if Holds(t, group, egress, n.key, n.grant.source) {
        AuthorizeHolds(t, group, egress, news[1..]);
        var r :| r in t && InPermission(r, group, egress, n.key) && r.grant.source == n.grant.source;
        assert r in a.table;
      } else {
        var row := Placed(t, group, egress, n);
        AuthorizeHolds(t + [row], group, egress, news[1..]);
        assert a.table == t + [row] + a.added[1..];
        assert a.added == [row] + a.added[1..];
        assert row in a.table;
      }
      assert forall m :: m in news <==> m == n || m in news[1..];
    }
  }

  lemma {:induction false} HeldAddsNothing(t: Table, group: string, egress: bool, news: seq<NewRule>)
    requires forall n :: n in news ==> Holds(t, group, egress, n.key, n.grant.source)
    ensures Authorize(t, group, egress, news) == Added(t, [])
    decreases |news|
  {
    if news != [] {
      assert news[0] in news;
      HeldAddsNothing(t, group, egress, news[1..]);
    }
  }

  ghost predicate SameSources(a: seq<NewRule>, b: seq<NewRule>) {
    |a| == |b| && forall i :: 0 <= i < |a| ==> a[i].key == b[i].key && a[i].grant.source == b[i].grant.source
  }

  /** Authorizing the same sources again, under any ids and descriptions, adds nothing. */
  lemma AuthorizeIsIdempotent(t: Table, group: string, egress: bool, news: seq<NewRule>, again: seq<NewRule>)
    requires SameSources(news, again)
    requires Authorize(t, group, egress, news).Added?
    ensures var u := Authorize(t, group, egress, news).table;
            Authorize(u, group, egress, again) == Added(u, [])
  {
    AuthorizeHolds(t, group, egress, news);
    var u := Authorize(t, group, egress, news).table;
    forall n | n in again ensures Holds(u, group, egress, n.key, n.grant.source) {
      var i :| 0 <= i < |again| && again[i] == n;
      assert news[i] in news;
    }
    HeldAddsNothing(u, group, egress, again);
  }

  // ----- revoking what was added -----

  lemma {:induction false} WithoutAppends(t: Table, u: Table, v: Revocation, group: string, egress: bool)
    ensures Without(t + u, v, group, egress) == Without(t, v, group, egress) + Without(u, v, group, egress)
  {
    if t == [] {
      assert t + u == u;
    } else {
      assert (t + u)[1..] == t[1..] + u;
      WithoutAppends(t[1..], u, v, group, egress);
    }
  }

  lemma {:induction false} WithoutNone(t: Table, v: Revocation, group: string, egress: bool)
    requires !Names(t, v, group, egress)
    ensures Without(t, v, group, egress) == t
  {
    if t != [] {
      assert t[0] in t && forall r :: r in t[1..] ==> r in t;
      WithoutNone(t[1..], v, group, egress);
    }
  }

  /** The revocation naming each row, by its id or by its source. */
  function Undo(rows: seq<Rule>, byId: bool): (r: seq<Revocation>)
    ensures |r| == |rows|
  {
    seq(|rows|, i requires 0 <= i < |rows| =>
      if byId then ById(rows[i].id) else BySource(rows[i].key, rows[i].grant.source))
  }

  lemma WithoutHead(row: Rule, rest: seq<Rule>, v: Revocation, group: string, egress: bool)
    requires Revokes(v, group, egress, row) && !Names(rest, v, group, egress)
    ensures Without([row] + rest, v, group, egress) == rest
  {
    WithoutNone(rest, v, group, egress);
    assert ([row] + rest)[1..] == rest;
  }

  /** Revoking a row by a revocation that names it alone leaves the rest in place. */
  lemma WithoutMiddle(t: Table, row: Rule, rest: seq<Rule>, v: Revocation, group: string, egress: bool)
    requires Revokes(v, group, egress, row)
    requires !Names(t, v, group, egress) && !Names(rest, v, group, egress)
    ensures Without(t + ([row] + rest), v, group, egress) == t + rest
  {
    WithoutAppends(t, [row] + rest, v, group, egress);
    WithoutNone(t, v, group, egress);
    WithoutHead(row, rest, v, group, egress);
  }

  lemma {:induction false} RevokeDropsSuffix(t: Table, rows: seq<Rule>, group: string, egress: bool, byId: bool)
    requires WellOrdered(t + rows) && forall r :: r in rows ==> InDirection(r, group, egress)
    ensures Revoke(t + rows, group, egress, Undo(rows, byId)) == Some(t)
    decreases |rows|
  {
    if rows == [] {
      assert t + rows == t;
    } else {
      var row, rest, vs := rows[0], rows[1..], Undo(rows, byId);
      assert rows == [row] + rest && row in rows && row in t + rows;
      OnlyItself(t, row, rest, vs[0], group, egress);
      WithoutMiddle(t, row, rest, vs[0], group, egress);
      DropOne(t, row, rest);
      assert vs[1..] == Undo(rest, byId);
      RevokeDropsSuffix(t, rest, group, egress, byId);
    }
  }

  lemma OnlyItself(t: Table, row: Rule, rest: seq<Rule>, v: Revocation, group: string, egress: bool)
    requires WellOrdered(t + ([row] + rest)) && InDirection(row, group, egress)
    requires v == ById(row.id) || v == BySource(row.key, row.grant.source)
    ensures !Names(t, v, group, egress) && !Names(rest, v, group, egress)
  {
    var all, k := t + ([row] + rest), |t|;
    assert all[k] == row;
    forall r | r in t ensures !Revokes(v, group, egress, r) {
      var i :| 0 <= i < |t| && t[i] == r;
      assert Compatible(all[i], all[k]);
    }
    forall r | r in rest ensures !Revokes(v, group, egress, r) {
      var i :| 0 <= i < |rest| && rest[i] == r;
      assert all[k + 1 + i] == r && Compatible(all[k], all[k + 1 + i]);
    }
  }

  lemma DropOne(t: Table, row: Rule, rest: seq<Rule>)
    requires WellOrdered(t + ([row] + rest))
    ensures WellOrdered(t + rest)
  {
    var all, u := t + ([row] + rest), t + rest;
    forall i, j | 0 <= i < j < |u| ensures Compatible(u[i], u[j]) {
      var x, y := if i < |t| then i else i + 1, if j < |t| then j else j + 1;
      assert u[i] == all[x] && u[j] == all[y] && Compatible(all[x], all[y]);
    }
    forall r | r in u ensures Storable(r.grant) {
      assert r in all;
    }
  }

  lemma {:induction false} AddedAreInDirection(t: Table, group: string, egress: bool, news: seq<NewRule>)
    ensures var a := Authorize(t, group, egress, news);
            a.Added? ==> forall r :: r in a.added ==> InDirection(r, group, egress)
    decreases |news|
  {
    if news != [] {
      var n := news[0];
      AddedAreInDirection(t, group, egress, news[1..]);
      AddedAreInDirection(t + [Placed(t, group, egress, n)], group, egress, news[1..]);
    }
  }

  /** Revoking exactly the added rules, by id or by source, restores the table: every id and ordinal. */
  lemma RevokeUndoesAuthorize(t: Table, group: string, egress: bool, news: seq<NewRule>, byId: bool)
    requires WellOrdered(t) && Authorize(t, group, egress, news).Added?
    ensures var a := Authorize(t, group, egress, news);
            Revoke(a.table, group, egress, Undo(a.added, byId)) == Some(t)
  {
    AuthorizeKeepsOrder(t, group, egress, news);
    AuthorizeHolds(t, group, egress, news);
    AddedAreInDirection(t, group, egress, news);
    RevokeDropsSuffix(t, Authorize(t, group, egress, news).added, group, egress, byId);
  }

  // ----- when a revoke is refused -----

  /** Revocation `i` names, by its id, a rule of the direction that no earlier one revokes. */
  ghost predicate FindsItsRule(t: Table, group: string, egress: bool, vs: seq<Revocation>, i: nat)
    requires i < |vs|
  {
    exists r :: r in t && Revokes(vs[i], group, egress, r) && !RevokedBefore(group, egress, vs, i, r)
  }

  ghost predicate RevokedBefore(group: string, egress: bool, vs: seq<Revocation>, i: nat, r: Rule)
    requires i <= |vs|
  {
    exists j :: 0 <= j < i && Revokes(vs[j], group, egress, r)
  }

  lemma RevokedBeforeTail(group: string, egress: bool, vs: seq<Revocation>, i: nat, r: Rule)
    requires 0 < i <= |vs|
    ensures RevokedBefore(group, egress, vs, i, r) <==>
            Revokes(vs[0], group, egress, r) || RevokedBefore(group, egress, vs[1..], i - 1, r)
  {
    if j :| 0 <= j < i && Revokes(vs[j], group, egress, r) {
      assert j > 0 ==> vs[1..][j - 1] == vs[j];
    }
    if j :| 0 <= j < i - 1 && Revokes(vs[1..][j], group, egress, r) {
      assert vs[j + 1] == vs[1..][j];
    }
  }

  lemma FindsAfterFirst(t: Table, group: string, egress: bool, vs: seq<Revocation>, i: nat)
    requires 0 < i < |vs|
    ensures FindsItsRule(t, group, egress, vs, i) <==>
            FindsItsRule(Without(t, vs[0], group, egress), group, egress, vs[1..], i - 1)
  {
    var u := Without(t, vs[0], group, egress);
    assert vs[1..][i - 1] == vs[i];
    forall r ensures r in t && !RevokedBefore(group, egress, vs, i, r) <==> r in u && !RevokedBefore(group, egress, vs[1..], i - 1, r) {
      RevokedBeforeTail(group, egress, vs, i, r);
    }
  }

  /**
   * A revoke, by ids and by sources together, is served exactly when each id names a
   * rule of the direction that nothing before it in the request revokes; otherwise
   * it is refused whole.
   */
  lemma {:induction false} RevokeRefusesExactly(t: Table, group: string, egress: bool, vs: seq<Revocation>)
    ensures Revoke(t, group, egress, vs).Some? <==>
            forall i :: 0 <= i < |vs| && vs[i].ById? ==> FindsItsRule(t, group, egress, vs, i)
    decreases |vs|
  {
    if vs != [] {
      var u := Without(t, vs[0], group, egress);
      RevokeRefusesExactly(u, group, egress, vs[1..]);
      FirstFinds(t, group, egress, vs);
      forall i | 0 < i < |vs|
        ensures FindsItsRule(t, group, egress, vs, i) <==> FindsItsRule(u, group, egress, vs[1..], i - 1) && vs[1..][i - 1] == vs[i]
      {
        FindsAfterFirst(t, group, egress, vs, i);
      }
      hide FindsItsRule;
      if forall i :: 0 <= i < |vs| && vs[i].ById? ==> FindsItsRule(t, group, egress, vs, i) {
        forall k | 0 <= k < |vs[1..]| && vs[1..][k].ById? ensures FindsItsRule(u, group, egress, vs[1..], k) {
          assert vs[k + 1] == vs[1..][k];
        }
      }
    }
  }

  lemma FirstFinds(t: Table, group: string, egress: bool, vs: seq<Revocation>)
    requires vs != []
    ensures FindsItsRule(t, group, egress, vs, 0) <==> Names(t, vs[0], group, egress)
  {
  }

  // ----- exactly when an authorize is served -----

  predicate Alike(n: NewRule, m: NewRule) {
    n.key == m.key && n.grant.source == m.grant.source
  }

  /** Rule `i` of the request names a source its permission does not hold, nor an earlier rule names. */
  ghost predicate Novel(t: Table, group: string, egress: bool, news: seq<NewRule>, i: int)
    requires 0 <= i < |news|
  {
    && (forall r :: r in t && r.group == group && r.egress == egress && r.key == news[i].key ==> r.grant.source != news[i].grant.source)
    && forall j :: 0 <= j < i ==> !Alike(news[j], news[i])
  }

  /** The table takes rule `i`: its grant passes the CHECKs, and its id is no stored rule's nor an earlier novel one's. */
  ghost predicate Takes(t: Table, group: string, egress: bool, news: seq<NewRule>, i: int)
    requires 0 <= i < |news|
  {
    && Storable(news[i].grant)
    && (forall r :: r in t ==> r.id != news[i].id)
    && forall j :: 0 <= j < i && Novel(t, group, egress, news, j) ==> news[j].id != news[i].id
  }

  /** A row of the table made of a rule asked for. */
  predicate MadeOf(r: Rule, group: string, egress: bool, n: NewRule) {
    r.id == n.id && r.group == group && r.egress == egress && r.key == n.key && r.grant == n.grant
  }

  /** What the first rule of a request changes for the rest: nothing if it is held, else one more row. */
  function AfterNew(t: Table, group: string, egress: bool, n: NewRule): Table {
    if Holds(t, group, egress, n.key, n.grant.source) then t else t + [Placed(t, group, egress, n)]
  }

  lemma NovelShifts(t: Table, group: string, egress: bool, news: seq<NewRule>, i: nat)
    requires i + 1 < |news|
    ensures Novel(t, group, egress, news, i + 1) <==> Novel(AfterNew(t, group, egress, news[0]), group, egress, news[1..], i)
  {
    var u, rest, n := AfterNew(t, group, egress, news[0]), news[1..], news[i + 1];
    assert rest[i] == n;
    assert forall j :: 0 <= j < i ==> rest[j] == news[j + 1];
    HoldsAfterNew(t, group, egress, news[0], n);
    if forall j :: 0 <= j < i ==> !Alike(rest[j], n) {
      forall j | 0 < j < i + 1 ensures !Alike(news[j], n) {
        assert rest[j - 1] == news[j];
      }
    }
  }

  lemma HoldsAfterNew(t: Table, group: string, egress: bool, first: NewRule, n: NewRule)
    ensures Holds(AfterNew(t, group, egress, first), group, egress, n.key, n.grant.source) <==>
            Holds(t, group, egress, n.key, n.grant.source) || Alike(first, n)
  {
    var u, row := AfterNew(t, group, egress, first), Placed(t, group, egress, first);
    assert Holds(t, group, egress, first.key, first.grant.source) || row in u;
  }

  lemma TakesShifts(t: Table, group: string, egress: bool, news: seq<NewRule>, i: nat)
    requires i + 1 < |news|
    ensures Takes(t, group, egress, news, i + 1) <==> Takes(AfterNew(t, group, egress, news[0]), group, egress, news[1..], i)
  {
    var u, rest := AfterNew(t, group, egress, news[0]), news[1..];
    assert rest[i] == news[i + 1];
    forall j | 0 <= j < i ensures Novel(t, group, egress, news, j + 1) <==> Novel(u, group, egress, rest, j) {
      NovelShifts(t, group, egress, news, j);
    }
    FirstIsNovel(t, group, egress, news);
    IdsAfterNew(t, group, egress, news[0], news[i + 1].id);
    hide Novel, AfterNew;
    assert forall j :: 0 <= j < i ==> rest[j] == news[j + 1];
    if forall j :: 0 <= j < i && Novel(u, group, egress, rest, j) ==> rest[j].id != rest[i].id {
      forall j | 0 < j < i + 1 && Novel(t, group, egress, news, j) ensures news[j].id != news[i + 1].id {
        assert rest[j - 1] == news[j] && Novel(t, group, egress, news, (j - 1) + 1);
      }
    }
  }

  lemma FirstIsNovel(t: Table, group: string, egress: bool, news: seq<NewRule>)
    requires news != []
    ensures Novel(t, group, egress, news, 0) <==> !Holds(t, group, egress, news[0].key, news[0].grant.source)
    ensures Takes(t, group, egress, news, 0) <==> Storable(news[0].grant) && !HasId(t, news[0].id)
  {
  }

  lemma IdsAfterNew(t: Table, group: string, egress: bool, first: NewRule, id: string)
    ensures (forall r :: r in AfterNew(t, group, egress, first) ==> r.id != id) <==>
            (forall r :: r in t ==> r.id != id) && (!Holds(t, group, egress, first.key, first.grant.source) ==> first.id != id)
  {
    var u, row := AfterNew(t, group, egress, first), Placed(t, group, egress, first);
    if !Holds(t, group, egress, first.key, first.grant.source) {
      assert row in u && forall r :: r in t ==> r in u;
    }
  }

  /** An authorize is served exactly when the table takes every novel rule of the request. */
  lemma {:induction false} AuthorizeServedExactly(t: Table, group: string, egress: bool, news: seq<NewRule>)
    ensures Authorize(t, group, egress, news).Added? <==>
            forall i :: 0 <= i < |news| && Novel(t, group, egress, news, i) ==> Takes(t, group, egress, news, i)
    decreases |news|
  {
    if news != [] {
      var u, rest := AfterNew(t, group, egress, news[0]), news[1..];
      FirstIsNovel(t, group, egress, news);
      AuthorizeServedExactly(u, group, egress, rest);
      forall i | 0 <= i < |rest|
        ensures Novel(t, group, egress, news, i + 1) <==> Novel(u, group, egress, rest, i)
        ensures Takes(t, group, egress, news, i + 1) <==> Takes(u, group, egress, rest, i)
      {
        NovelShifts(t, group, egress, news, i);
        TakesShifts(t, group, egress, news, i);
      }
      hide Novel, Takes, Placed;
      if forall i :: 0 <= i < |rest| && Novel(u, group, egress, rest, i) ==> Takes(u, group, egress, rest, i) {
        forall i | 0 < i < |news| && Novel(t, group, egress, news, i) ensures Takes(t, group, egress, news, i) {
          assert Novel(t, group, egress, news, (i - 1) + 1);
          assert Takes(u, group, egress, rest, i - 1);
        }
      }
      if forall i :: 0 <= i < |news| && Novel(t, group, egress, news, i) ==> Takes(t, group, egress, news, i) {
        forall i | 0 <= i < |rest| && Novel(u, group, egress, rest, i) ensures Takes(u, group, egress, rest, i) {
          assert Takes(t, group, egress, news, i + 1);
        }
      }
    }
  }

  /** `at` lists the request's novel rules in order, and the rows are made of them, one each. */
  ghost predicate RowsOf(rows: seq<Rule>, at: seq<nat>, t: Table, group: string, egress: bool, news: seq<NewRule>) {
    && |rows| == |at|
    && (forall k :: 0 <= k < |at| ==> at[k] < |news| && Novel(t, group, egress, news, at[k]) && MadeOf(rows[k], group, egress, news[at[k]]))
    && (forall k, l :: 0 <= k < l < |at| ==> at[k] < at[l])
    && (forall i :: 0 <= i < |news| && Novel(t, group, egress, news, i) ==> i in at)
  }

  function Shifted(at: seq<nat>): (r: seq<nat>)
    ensures |r| == |at|
  {
    seq(|at|, k requires 0 <= k < |at| => at[k] + 1)
  }

  /** The rest's rows are the novel rules' after the first, one place on. */
  lemma RowsShift(rows: seq<Rule>, at: seq<nat>, t: Table, group: string, egress: bool, news: seq<NewRule>)
    requires news != [] && RowsOf(rows, at, AfterNew(t, group, egress, news[0]), group, egress, news[1..])
    ensures |rows| == |at|
    ensures forall k :: 0 <= k < |at| ==>
              0 < Shifted(at)[k] < |news| && Novel(t, group, egress, news, Shifted(at)[k]) && MadeOf(rows[k], group, egress, news[Shifted(at)[k]])
    ensures forall k, l :: 0 <= k < l < |at| ==> Shifted(at)[k] < Shifted(at)[l]
    ensures forall i :: 0 < i < |news| && Novel(t, group, egress, news, i) ==> i in Shifted(at)
  {
    hide Novel, AfterNew, MadeOf;
    var u, rest := AfterNew(t, group, egress, news[0]), news[1..];
    forall k | 0 <= k < |at|
      ensures Novel(t, group, egress, news, Shifted(at)[k]) && MadeOf(rows[k], group, egress, news[Shifted(at)[k]])
    {
      NovelShifts(t, group, egress, news, at[k]);
      assert rest[at[k]] == news[at[k] + 1];
    }
    forall i | 0 < i < |news| && Novel(t, group, egress, news, i) ensures i in Shifted(at) {
      NovelShifts(t, group, egress, news, i - 1);
      var k :| 0 <= k < |at| && at[k] == i - 1;
      assert Shifted(at)[k] == i;
    }
  }

  lemma RowsStay(rows: seq<Rule>, at: seq<nat>, t: Table, group: string, egress: bool, news: seq<NewRule>)
    requires news != [] && RowsOf(rows, at, AfterNew(t, group, egress, news[0]), group, egress, news[1..])
    requires Holds(t, group, egress, news[0].key, news[0].grant.source)
    ensures RowsOf(rows, Shifted(at), t, group, egress, news)
  {
    RowsShift(rows, at, t, group, egress, news);
    FirstIsNovel(t, group, egress, news);
    hide Novel, AfterNew, Holds, MadeOf, Shifted;
  }

  lemma RowsGrow(row: Rule, rows: seq<Rule>, at: seq<nat>, t: Table, group: string, egress: bool, news: seq<NewRule>)
    requires news != [] && RowsOf(rows, at, AfterNew(t, group, egress, news[0]), group, egress, news[1..])
    requires !Holds(t, group, egress, news[0].key, news[0].grant.source) && MadeOf(row, group, egress, news[0])
    ensures RowsOf([row] + rows, [0] + Shifted(at), t, group, egress, news)
  {
    RowsShift(rows, at, t, group, egress, news);
    FirstIsNovel(t, group, egress, news);
    hide RowsOf, Novel, AfterNew, Holds, MadeOf, Shifted;
    RowsPrepend(row, rows, Shifted(at), t, group, egress, news);
  }

  lemma RowsPrepend(row: Rule, rows: seq<Rule>, at: seq<nat>, t: Table, group: string, egress: bool, news: seq<NewRule>)
    requires news != [] && |rows| == |at| && Novel(t, group, egress, news, 0) && MadeOf(row, group, egress, news[0])
    requires forall k :: 0 <= k < |at| ==> 0 < at[k] < |news| && Novel(t, group, egress, news, at[k]) && MadeOf(rows[k], group, egress, news[at[k]])
    requires forall k, l :: 0 <= k < l < |at| ==> at[k] < at[l]
    requires forall i :: 0 < i < |news| && Novel(t, group, egress, news, i) ==> i in at
    ensures RowsOf([row] + rows, [0] + at, t, group, egress, news)
  {
    hide Novel, MadeOf;
    var all := [0] + at;
    forall k | 0 <= k < |all|
      ensures all[k] < |news| && Novel(t, group, egress, news, all[k]) && MadeOf(([row] + rows)[k], group, egress, news[all[k]])
    {
      assert k > 0 ==> all[k] == at[k - 1] && ([row] + rows)[k] == rows[k - 1];
    }
  }

  /** Served, it adds a row for each novel rule, in the request's order, and no other. */
  lemma {:induction false} AuthorizeAddsTheNovel(t: Table, group: string, egress: bool, news: seq<NewRule>) returns (at: seq<nat>)
    ensures var a := Authorize(t, group, egress, news);
            a.Added? ==> a.table == t + a.added && RowsOf(a.added, at, t, group, egress, news)
    decreases |news|
  {
    at := [];
    if news != [] && Authorize(t, group, egress, news).Added? {
      AddedAfterNew(t, group, egress, news);
      hide Novel, RowsOf, Placed, Authorize, AfterNew, Holds, MadeOf;
      at := AuthorizeAddsTheNovel(AfterNew(t, group, egress, news[0]), group, egress, news[1..]);
      at := AddedRows(t, group, egress, news, at);
    }
  }

  lemma AddedRows(t: Table, group: string, egress: bool, news: seq<NewRule>, rest: seq<nat>) returns (at: seq<nat>)
    requires news != [] && Authorize(t, group, egress, news).Added?
    requires var u := AfterNew(t, group, egress, news[0]);
             var b := Authorize(u, group, egress, news[1..]);
             b.Added? && b.table == u + b.added && RowsOf(b.added, rest, u, group, egress, news[1..])
    ensures var a := Authorize(t, group, egress, news); a.table == t + a.added && RowsOf(a.added, at, t, group, egress, news)
  {
    AddedAfterNew(t, group, egress, news);
    PlacedIsMade(t, group, egress, news[0]);
    hide Novel, RowsOf, Placed, Authorize, AfterNew, Holds, MadeOf, Shifted;
    var added, row := Authorize(AfterNew(t, group, egress, news[0]), group, egress, news[1..]).added, Placed(t, group, egress, news[0]);
    if Holds(t, group, egress, news[0].key, news[0].grant.source) {
      at := Shifted(rest);
      RowsStay(added, rest, t, group, egress, news);
    } else {
      at := [0] + Shifted(rest);
      RowsGrow(row, added, rest, t, group, egress, news);
      Reassociates(t, row, added);
    }
  }

  lemma Reassociates(t: Table, row: Rule, added: seq<Rule>)
    ensures (t + [row]) + added == t + ([row] + added)
  {
  }

  lemma AddedAfterNew(t: Table, group: string, egress: bool, news: seq<NewRule>)
    requires news != [] && Authorize(t, group, egress, news).Added?
    ensures var u, row := AfterNew(t, group, egress, news[0]), Placed(t, group, egress, news[0]);
            var held := Holds(t, group, egress, news[0].key, news[0].grant.source);
            var a, b := Authorize(t, group, egress, news), Authorize(u, group, egress, news[1..]);
            && u == (if held then t else t + [row])
            && b.Added? && a.table == b.table && a.added == (if held then b.added else [row] + b.added)
  {
    hide Placed;
  }

  lemma PlacedIsMade(t: Table, group: string, egress: bool, n: NewRule)
    ensures MadeOf(Placed(t, group, egress, n), group, egress, n)
  {
  }
}
