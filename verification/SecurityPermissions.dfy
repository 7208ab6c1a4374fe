/** `sgRules` and `sgPermissions`: permissions as rules, and rules gathered back. */
module SecurityPermissions {
  import opened Sorting
  import opened SecurityRules

  /** A source on its kind's list; only a group pair names a user. */
  datatype Item = Item(value: string, user: string, description: string)

  datatype IpPermission = IpPermission(
    key: PermKey, ranges: seq<Item>, ranges6: seq<Item>, pairs: seq<Item>, prefixes: seq<Item>)

  // ----- permissions to rules -----

  function Grants(kind: SourceKind, items: seq<Item>): (r: seq<Grant>)
    ensures |r| == |items|
  {
    seq(|items|, i requires 0 <= i < |items| =>
      Grant(Source(kind, items[i].value), if kind == GroupPair then items[i].user else "", items[i].description))
  }

  /** A permission's sources in the order they are listed. */
  function GrantsOf(p: IpPermission): seq<Grant> {
    Grants(Ipv4, p.ranges) + Grants(Ipv6, p.ranges6) + Grants(GroupPair, p.pairs) + Grants(PrefixList, p.prefixes)
  }

  /** A rule less its row: what `sgRules` makes of one source. */
  datatype Line = Line(key: PermKey, grant: Grant)

  function Lines(key: PermKey, grants: seq<Grant>): (r: seq<Line>)
    ensures |r| == |grants|
  {
    seq(|grants|, i requires 0 <= i < |grants| => Line(key, grants[i]))
  }

  /** `sgRules`. */
  function LinesOf(perms: seq<IpPermission>): seq<Line> {
    if perms == [] then [] else Lines(perms[0].key, GrantsOf(perms[0])) + LinesOf(perms[1..])
  }

  method SgRules(perms: seq<IpPermission>) returns (out: seq<Line>)
    ensures out == LinesOf(perms)
  {
    hide Lines, Grants;
    out := [];
    for i := 0 to |perms|
      invariant out + LinesOf(perms[i..]) == LinesOf(perms)
    {
      var p := perms[i];
      assert perms[i..][1..] == perms[i + 1..];
      var block := AppendRules([], p.key, Ipv4, p.ranges);
      block := AppendRules(block, p.key, Ipv6, p.ranges6);
      block := AppendRules(block, p.key, GroupPair, p.pairs);
      block := AppendRules(block, p.key, PrefixList, p.prefixes);
      LinesJoin(p);
      assert out + (block + LinesOf(perms[i + 1..])) == (out + block) + LinesOf(perms[i + 1..]);
      out := out + block;
    }
  }

  lemma LinesJoin(p: IpPermission)
    ensures [] + Lines(p.key, Grants(Ipv4, p.ranges)) + Lines(p.key, Grants(Ipv6, p.ranges6))
            + Lines(p.key, Grants(GroupPair, p.pairs)) + Lines(p.key, Grants(PrefixList, p.prefixes))
            == Lines(p.key, GrantsOf(p))
  {
    hide Grants;
  }

  /** `appendRules`: one rule per source of one kind. */
  method AppendRules(before: seq<Line>, key: PermKey, kind: SourceKind, items: seq<Item>) returns (out: seq<Line>)
    ensures out == before + Lines(key, Grants(kind, items))
  {
    out := before;
    for i := 0 to |items|
      invariant out == before + Lines(key, Grants(kind, items))[..i]
    {
      out := out + [Line(key, Grants(kind, items)[i])];
    }
  }

  // ----- rules to permissions -----

  function Bare(key: PermKey): IpPermission {
    IpPermission(key, [], [], [], [])
  }

  /** A source appended to its kind's list. */
  function AddSource(p: IpPermission, g: Grant): IpPermission {
    match g.source.kind
    case Ipv4 => p.(ranges := p.ranges + [Item(g.source.value, "", g.description)])
    case Ipv6 => p.(ranges6 := p.ranges6 + [Item(g.source.value, "", g.description)])
    case GroupPair => p.(pairs := p.pairs + [Item(g.source.value, g.user, g.description)])
    case PrefixList => p.(prefixes := p.prefixes + [Item(g.source.value, "", g.description)])
  }

  /** One direction's rows gathered: a permission for each run of one permOrd. */
  function Gather(rows: seq<Rule>): (r: seq<IpPermission>)
    ensures rows != [] ==> r != []
  {
    if rows == [] then []
    else
      var n := |rows| - 1;
      var before, row := Gather(rows[..n]), rows[n];
      if n == 0 || rows[n - 1].permOrd != row.permOrd
      then before + [AddSource(Bare(row.key), row.grant)]
      else before[..|before| - 1] + [AddSource(before[|before| - 1], row.grant)]
  }

  /** One step of `sgPermissions`: a new permission when one starts, then the row's source. */
  function Extended(perms: seq<IpPermission>, row: Rule, starts: bool): seq<IpPermission>
    requires !starts ==> perms != []
  {
    var ps := if starts then perms + [Bare(row.key)] else perms;
    ps[..|ps| - 1] + [AddSource(ps[|ps| - 1], row.grant)]
  }

  predicate Starts(rows: seq<Rule>, k: nat)
    requires k < |rows|
  {
    k == 0 || rows[k - 1].permOrd != rows[k].permOrd
  }

  lemma GatherExtends(rows: seq<Rule>, k: nat)
    requires k < |rows|
    ensures !Starts(rows, k) ==> Gather(rows[..k]) != []
    ensures Gather(rows[..k + 1]) == Extended(Gather(rows[..k]), rows[k], Starts(rows, k))
  {
    var now := rows[..k + 1];
    assert now[..k] == rows[..k] && now[k] == rows[k];
    var before := Gather(rows[..k]);
    if Starts(rows, k) {
      assert (before + [Bare(rows[k].key)])[..|before|] == before;
    }
  }

  /** `sgPermissions` over a listing: the ingress rows, then the egress rows. */
  method SgPermissions(rules: seq<Rule>, ghost ins: seq<Rule>, ghost outs: seq<Rule>)
    returns (ingress: seq<IpPermission>, egress: seq<IpPermission>)
    requires rules == ins + outs
    requires (forall r :: r in ins ==> !r.egress) && (forall r :: r in outs ==> r.egress)
    ensures ingress == Gather(ins) && egress == Gather(outs)
  {
    assert Gather([]) == [] && ins[..0] == [] && outs[..0] == [];
    hide Gather, Extended, Starts;
    ingress, egress := [], [];
    ghost var n, m := 0, 0;
    for i := 0 to |rules|
      invariant n <= |ins| && m <= |outs| && i == n + m && (m > 0 ==> n == |ins|)
      invariant ingress == Gather(ins[..n]) && egress == Gather(outs[..m])
    {
      var r := rules[i];
      var starts := i == 0 || rules[i - 1].egress != r.egress || rules[i - 1].permOrd != r.permOrd;
      assert (n < |ins| ==> ins[n] in ins) && (m < |outs| ==> outs[m] in outs);
      if !r.egress {
        StartsIn(ins, outs, n);
        GatherExtends(ins, n);
        ingress := Extended(ingress, r, starts);
        n := n + 1;
      } else {
        StartsOut(ins, outs, m);
        GatherExtends(outs, m);
        egress := Extended(egress, r, starts);
        m := m + 1;
      }
    }
    assert ins[..|ins|] == ins && outs[..|outs|] == outs;
  }

  ghost predicate StartsAt(rules: seq<Rule>, i: nat)
    requires i < |rules|
  {
    i == 0 || rules[i - 1].egress != rules[i].egress || rules[i - 1].permOrd != rules[i].permOrd
  }

  lemma StartsIn(ins: seq<Rule>, outs: seq<Rule>, k: nat)
    requires k < |ins| && forall r :: r in ins ==> !r.egress
    ensures StartsAt(ins + outs, k) == Starts(ins, k)
  {
    assert ins[k] in ins && (k > 0 ==> ins[k - 1] in ins);
  }

  lemma StartsOut(ins: seq<Rule>, outs: seq<Rule>, k: nat)
    requires k < |outs| && (forall r :: r in ins ==> !r.egress) && (forall r :: r in outs ==> r.egress)
    ensures StartsAt(ins + outs, |ins| + k) == Starts(outs, k)
  {
    assert outs[k] in outs && (k > 0 ==> outs[k - 1] in outs);
    assert ins != [] ==> ins[|ins| - 1] in ins;
  }

  // ----- gathering keeps every source -----

  /** Adding a source inserts exactly it among the sources, description and user kept. */
  lemma AddSourceInserts(p: IpPermission, g: Grant) returns (front: seq<Grant>, back: seq<Grant>)
    requires Storable(g)
    ensures GrantsOf(p) == front + back && GrantsOf(AddSource(p, g)) == front + [g] + back
  {
    var a, b, c, d := Grants(Ipv4, p.ranges), Grants(Ipv6, p.ranges6), Grants(GroupPair, p.pairs), Grants(PrefixList, p.prefixes);
    match g.source.kind
    case Ipv4 =>
      front, back := a, b + c + d;
      GrantsAppend(p.ranges, g);
      hide Grants;
    case Ipv6 =>
      front, back := a + b, c + d;
      GrantsAppend(p.ranges6, g);
      hide Grants;
    case GroupPair =>
      front, back := a + b + c, d;
      GrantsAppend(p.pairs, g);
      hide Grants;
    case PrefixList =>
      front, back := a + b + c + d, [];
      GrantsAppend(p.prefixes, g);
      hide Grants;
  }

  lemma GrantsAppend(items: seq<Item>, g: Grant)
    requires Storable(g)
    ensures Grants(g.source.kind, items + [ItemOf(g)]) == Grants(g.source.kind, items) + [g]
  {
  }

  /** So it adds exactly its line. */
  lemma AddSourceAdds(p: IpPermission, g: Grant)
    requires Storable(g)
    ensures multiset(Lines(p.key, GrantsOf(AddSource(p, g)))) == multiset(Lines(p.key, GrantsOf(p))) + multiset{Line(p.key, g)}
  {
    var front, back := AddSourceInserts(p, g);
    var x, y := Lines(p.key, front), Lines(p.key, back);
    assert Lines(p.key, front + back) == x + y;
    assert Lines(p.key, front + [g] + back) == x + [Line(p.key, g)] + y;
  }

  lemma {:induction false} LinesAppend(ps: seq<IpPermission>, p: IpPermission)
    ensures LinesOf(ps + [p]) == LinesOf(ps) + Lines(p.key, GrantsOf(p))
  {
    if ps == [] {
      assert ps + [p] == [p];
    } else {
      assert (ps + [p])[1..] == ps[1..] + [p];
      LinesAppend(ps[1..], p);
    }
  }

  function LineOf(r: Rule): Line {
    Line(r.key, r.grant)
  }

  function LinesIn(rows: seq<Rule>): (r: seq<Line>)
    ensures |r| == |rows|
  {
    seq(|rows|, i requires 0 <= i < |rows| => LineOf(rows[i]))
  }

  /** Rows listed by position, one permission at each position, every row storable. */
  ghost predicate Listed(rows: seq<Rule>) {
    && (forall i, j :: 0 <= i < j < |rows| ==>
          rows[i].permOrd <= rows[j].permOrd && (rows[i].permOrd == rows[j].permOrd <==> rows[i].key == rows[j].key))
    && (forall r :: r in rows ==> Storable(r.grant))
  }

  ghost predicate DistinctKeys(ps: seq<IpPermission>) {
    forall i, j :: 0 <= i < j < |ps| ==> ps[i].key != ps[j].key
  }

  /** The permissions before the one row `n` goes to. */
  function Kept(rows: seq<Rule>, n: nat): seq<IpPermission>
    requires n < |rows|
  {
    var before := Gather(rows[..n]);
    if Starts(rows, n) then before
    else
      assert n > 0 && rows[..n] != [];
      before[..|before| - 1]
  }

  /** The permission row `n` goes to, before it does. */
  function Current(rows: seq<Rule>, n: nat): IpPermission
    requires n < |rows|
  {
    var before := Gather(rows[..n]);
    if Starts(rows, n) then Bare(rows[n].key)
    else
      assert n > 0 && rows[..n] != [];
      before[|before| - 1]
  }

  lemma GatherSplits(rows: seq<Rule>)
    requires rows != []
    ensures var n := |rows| - 1;
            && Gather(rows) == Kept(rows, n) + [AddSource(Current(rows, n), rows[n].grant)]
            && Gather(rows[..n]) == Kept(rows, n) + if Starts(rows, n) then [] else [Current(rows, n)]
  {
  }

  lemma ListedPrefix(rows: seq<Rule>, n: nat)
    requires Listed(rows) && n <= |rows|
    ensures Listed(rows[..n])
  {
    assert forall r :: r in rows[..n] ==> r in rows;
  }

  /** The open permission is the last row's. */
  lemma {:induction false} GatherEndsWithLast(rows: seq<Rule>)
    requires Listed(rows) && rows != []
    ensures Gather(rows)[|Gather(rows)| - 1].key == rows[|rows| - 1].key
  {
    var n := |rows| - 1;
    if n > 0 {
      ListedPrefix(rows, n);
      GatherEndsWithLast(rows[..n]);
    }
  }

  lemma CurrentKey(rows: seq<Rule>, n: nat)
    requires Listed(rows) && n < |rows|
    ensures Current(rows, n).key == rows[n].key
  {
    if !Starts(rows, n) {
      ListedPrefix(rows, n);
      GatherEndsWithLast(rows[..n]);
    }
  }

  lemma AddSourceKey(p: IpPermission, g: Grant)
    ensures AddSource(p, g).key == p.key
  {
  }

  /** The last row's permission goes last, under the row's key. */
  lemma GatherKeys(rows: seq<Rule>)
    requires Listed(rows) && rows != []
    ensures var n, ps := |rows| - 1, Gather(rows);
            && |ps| == |Kept(rows, n)| + 1 && ps[..|ps| - 1] == Kept(rows, n) && ps[|ps| - 1].key == rows[n].key
            && |Gather(rows[..n])| >= |Kept(rows, n)| && Gather(rows[..n])[..|Kept(rows, n)|] == Kept(rows, n)
            && (!Starts(rows, n) ==> |Gather(rows[..n])| == |ps| && Gather(rows[..n])[|ps| - 1].key == rows[n].key)
            && (Starts(rows, n) ==> Gather(rows[..n]) == Kept(rows, n))
  {
    var n := |rows| - 1;
    GatherSplits(rows);
    CurrentKey(rows, n);
    AddSourceKey(Current(rows, n), rows[n].grant);
    hide Gather, Kept, Current, AddSource, Starts, Listed;
  }

  /** A permission's key is a row's. */
  lemma {:induction false} GatherKeysAreRows(rows: seq<Rule>, p: IpPermission)
    requires Listed(rows) && p in Gather(rows)
    ensures exists i :: 0 <= i < |rows| && rows[i].key == p.key
  {
    var n := |rows| - 1;
    GatherKeys(rows);
    ListedPrefix(rows, n);
    var ps := Gather(rows);
    hide Gather, Kept, Listed;
    var l :| 0 <= l < |ps| && ps[l] == p;
    if l < |ps| - 1 {
      assert p == ps[..|ps| - 1][l] == Gather(rows[..n])[l];
      GatherKeysAreRows(rows[..n], p);
      var i :| 0 <= i < n && rows[..n][i].key == p.key;
      assert rows[i].key == p.key;
    } else {
      assert rows[n].key == p.key;
    }
  }

  /** A row's key is a permission's. */
  lemma {:induction false} RowsAreGathered(rows: seq<Rule>, i: nat) returns (k: nat)
    requires Listed(rows) && i < |rows|
    ensures k < |Gather(rows)| && Gather(rows)[k].key == rows[i].key
  {
    var n := |rows| - 1;
    GatherKeys(rows);
    ListedPrefix(rows, n);
    hide Gather, Kept, Listed;
    if i == n {
      k := |Gather(rows)| - 1;
    } else {
      k := RowsAreGathered(rows[..n], i);
      if k < |Kept(rows, n)| {
        assert Gather(rows)[k] == Kept(rows, n)[k] == Gather(rows[..n])[k];
      }
    }
  }

  /** No permission before the last row's has its key. */
  lemma KeptKeysDiffer(rows: seq<Rule>, k: nat)
    requires Listed(rows) && rows != [] && DistinctKeys(Gather(rows[..|rows| - 1])) && k < |Kept(rows, |rows| - 1)|
    ensures Kept(rows, |rows| - 1)[k].key != rows[|rows| - 1].key
  {
    var n := |rows| - 1;
    var kept, before := Kept(rows, n), Gather(rows[..n]);
    GatherKeys(rows);
    ListedPrefix(rows, n);
    hide Gather, Kept, Listed;
    if Starts(rows, n) {
      assert kept[k] in before;
      GatherKeysAreRows(rows[..n], kept[k]);
      var i :| 0 <= i < n && rows[..n][i].key == kept[k].key;
      StartsAnew(rows, i);
    } else {
      assert before[..|kept|][k] == before[k] == kept[k];
    }
  }

  /** A row that starts a permission has a key no earlier row has. */
  lemma StartsAnew(rows: seq<Rule>, i: nat)
    requires Listed(rows) && i < |rows| - 1 && Starts(rows, |rows| - 1)
    ensures rows[i].key != rows[|rows| - 1].key
  {
    var n := |rows| - 1;
    assert rows[i].permOrd <= rows[n - 1].permOrd < rows[n].permOrd;
  }

  /** One permission per key. */
  lemma {:induction false} GatherHasDistinctKeys(rows: seq<Rule>)
    requires Listed(rows)
    ensures DistinctKeys(Gather(rows))
  {
    if rows != [] {
      var n := |rows| - 1;
      ListedPrefix(rows, n);
      GatherHasDistinctKeys(rows[..n]);
      GatherKeys(rows);
      forall k | 0 <= k < |Kept(rows, n)| ensures Kept(rows, n)[k].key != rows[n].key {
        KeptKeysDiffer(rows, k);
      }
      hide Gather, Kept, Listed, Starts;
      PrefixAndLast(Gather(rows), Gather(rows[..n]), Kept(rows, n), rows[n].key);
    }
  }

  lemma PrefixAndLast(ps: seq<IpPermission>, before: seq<IpPermission>, kept: seq<IpPermission>, key: PermKey)
    requires |ps| == |kept| + 1 && ps[..|ps| - 1] == kept && ps[|ps| - 1].key == key
    requires |before| >= |kept| && before[..|kept|] == kept && DistinctKeys(before)
    requires forall k :: 0 <= k < |kept| ==> kept[k].key != key
    ensures DistinctKeys(ps)
  {
    forall i, j | 0 <= i < j < |ps| ensures ps[i].key != ps[j].key {
      assert ps[i] == kept[i] == before[i];
      assert j < |kept| ==> ps[j] == kept[j] == before[j];
    }
  }

  lemma ExtendAddsLine(kept: seq<IpPermission>, p: IpPermission, g: Grant)
    requires Storable(g)
    ensures multiset(LinesOf(kept + [AddSource(p, g)])) == multiset(LinesOf(kept)) + multiset(Lines(p.key, GrantsOf(p))) + multiset{Line(p.key, g)}
  {
    AddSourceAdds(p, g);
    AddSourceKey(p, g);
    LinesAppend(kept, AddSource(p, g));
    hide AddSource, GrantsOf, Lines, LinesOf;
    assert multiset(LinesOf(kept) + Lines(p.key, GrantsOf(AddSource(p, g)))) == multiset(LinesOf(kept)) + multiset(Lines(p.key, GrantsOf(AddSource(p, g))));
  }

  /** Each row adds exactly its line. */
  lemma GatherAddsLine(rows: seq<Rule>)
    requires Listed(rows) && rows != []
    ensures var n := |rows| - 1;
            multiset(LinesOf(Gather(rows))) == multiset(LinesOf(Gather(rows[..n]))) + multiset{LineOf(rows[n])}
  {
    var n := |rows| - 1;
    GatherSplits(rows);
    CurrentKey(rows, n);
    assert rows[n] in rows;
    var kept, current := Kept(rows, n), Current(rows, n);
    ExtendAddsLine(kept, current, rows[n].grant);
    if Starts(rows, n) {
      assert Lines(current.key, GrantsOf(current)) == [];
      assert kept + [] == kept;
    } else {
      LinesAppend(kept, current);
    }
  }

  /** Gathering permutes sources within a permission and loses nothing: `sgRules` of it holds every row's line. */
  lemma {:induction false} GatherConserves(rows: seq<Rule>)
    requires Listed(rows)
    ensures multiset(LinesOf(Gather(rows))) == multiset(LinesIn(rows))
  {
    if rows != [] {
      ListedPrefix(rows, |rows| - 1);
      GatherConserves(rows[..|rows| - 1]);
      GatherAddsLine(rows);
      LinesInAppend(rows);
    }
  }

  lemma LinesInAppend(rows: seq<Rule>)
    requires rows != []
    ensures multiset(LinesIn(rows)) == multiset(LinesIn(rows[..|rows| - 1])) + multiset{LineOf(rows[|rows| - 1])}
  {
    assert LinesIn(rows) == LinesIn(rows[..|rows| - 1]) + [LineOf(rows[|rows| - 1])];
  }

  // ----- the listing of a direction -----

  predicate Before(r: Rule, s: Rule) {
    r.permOrd < s.permOrd || (r.permOrd == s.permOrd && r.srcOrd <= s.srcOrd)
  }

  function Select(t: Table, group: string, egress: bool): (r: Table)
    ensures forall x :: x in r <==> x in t && InDirection(x, group, egress)
  {
    if t == [] then []
    else (if InDirection(t[0], group, egress) then [t[0]] else []) + Select(t[1..], group, egress)
  }

  /** `ListSecurityGroupRules`, one direction: by permission, then source. */
  function Listing(t: Table, group: string, egress: bool): (r: seq<Rule>)
    ensures multiset(r) == multiset(Select(t, group, egress))
    ensures forall x :: x in r <==> x in t && InDirection(x, group, egress)
  {
    var r := SortBy(Before, Select(t, group, egress));
    assert forall x :: x in r <==> x in multiset(r);
    assert forall x :: x in Select(t, group, egress) <==> x in multiset(Select(t, group, egress));
    r
  }

  lemma ListingIsListed(t: Table, group: string, egress: bool)
    requires WellOrdered(t)
    ensures Listed(Listing(t, group, egress))
  {
    var rows := Listing(t, group, egress);
    SortSorts(Before, Select(t, group, egress));
    forall i, j | 0 <= i < j < |rows|
      ensures rows[i].permOrd <= rows[j].permOrd && (rows[i].permOrd == rows[j].permOrd <==> rows[i].key == rows[j].key)
    {
      assert rows[i] in rows && rows[j] in rows;
      SamePlace(t, rows[i], rows[j]);
    }
  }

  /**
   * The permissions a well-ordered direction gathers into: one per key the rules
   * hold, and taken apart again they are the stored rules' lines, a permutation.
   */
  lemma GatheredIsStored(t: Table, group: string, egress: bool)
    requires WellOrdered(t)
    ensures var ps := Gather(Listing(t, group, egress));
            && DistinctKeys(ps)
            && (forall p :: p in ps ==> exists r :: r in t && InDirection(r, group, egress) && r.key == p.key)
            && (forall r :: r in t && InDirection(r, group, egress) ==> exists p :: p in ps && p.key == r.key)
            && multiset(LinesOf(ps)) == multiset(LinesIn(Listing(t, group, egress)))
  {
    var rows := Listing(t, group, egress);
    ListingIsListed(t, group, egress);
    GatherHasDistinctKeys(rows);
    GatherConserves(rows);
    forall p | p in Gather(rows) ensures exists r :: r in t && InDirection(r, group, egress) && r.key == p.key {
      GatherKeysAreRows(rows, p);
      var i :| 0 <= i < |rows| && rows[i].key == p.key;
      assert rows[i] in rows;
    }
    forall r | r in t && InDirection(r, group, egress) ensures exists p :: p in Gather(rows) && p.key == r.key {
      assert r in rows;
      var i :| 0 <= i < |rows| && rows[i] == r;
      var k := RowsAreGathered(rows, i);
    }
  }

  // ----- authorizing into an empty direction -----

  /** The request `sgRules` makes, with an id for each line. */
  function Requested(lines: seq<Line>, ids: seq<string>): (r: seq<NewRule>)
    requires |ids| == |lines|
    ensures |r| == |lines|
  {
    seq(|lines|, i requires 0 <= i < |lines| => NewRule(ids[i], lines[i].key, lines[i].grant))
  }

  /** A key comes back only right after itself. */
  ghost predicate Contiguous(lines: seq<Line>) {
    forall i, j :: 0 <= i < j < |lines| && lines[i].key == lines[j].key ==> lines[j - 1].key == lines[j].key
  }

  ghost predicate DistinctSources(lines: seq<Line>) {
    forall i, j :: 0 <= i < j < |lines| && lines[i].key == lines[j].key ==> lines[i].grant.source != lines[j].grant.source
  }

  ghost predicate FreshIds(t: Table, ids: seq<string>) {
    && (forall i, j :: 0 <= i < j < |ids| ==> ids[i] != ids[j])
    && (forall i, r :: 0 <= i < |ids| && r in t ==> r.id != ids[i])
  }

  ghost predicate StrictlyBefore(rows: seq<Rule>) {
    forall i, j :: 0 <= i < j < |rows| ==> Before(rows[i], rows[j])
  }

  /** The first `|done|` lines are the direction's rows, in listing order. */
  ghost predicate Loaded(t: Table, done: seq<Rule>, lines: seq<Line>, ids: seq<string>, group: string, egress: bool)
    requires |ids| == |lines|
  {
    && |done| <= |lines|
    && (forall r :: r in t ==> !InDirection(r, group, egress))
    && (forall r :: r in done ==> InDirection(r, group, egress))
    && (forall i :: 0 <= i < |done| ==> LineOf(done[i]) == lines[i] && done[i].id == ids[i])
    && StrictlyBefore(done)
    && WellOrdered(t + done)
  }

  lemma LoadedStep(t: Table, done: seq<Rule>, lines: seq<Line>, ids: seq<string>, group: string, egress: bool)
    requires |ids| == |lines| && Loaded(t, done, lines, ids, group, egress) && |done| < |lines|
    requires Contiguous(lines) && DistinctSources(lines) && FreshIds(t, ids)
    requires forall l :: l in lines ==> Storable(l.grant)
    ensures var n := NewRule(ids[|done|], lines[|done|].key, lines[|done|].grant);
            && !Holds(t + done, group, egress, n.key, n.grant.source) && !HasId(t + done, n.id) && Storable(n.grant)
            && Loaded(t, done + [Placed(t + done, group, egress, n)], lines, ids, group, egress)
  {
    hide Holds, HasId, WellOrdered, StrictlyBefore, Contiguous, DistinctSources, FreshIds, PermOrdOf, NextPermOrd, NextSrcOrd;
    var k, u := |done|, t + done;
    var n := NewRule(ids[k], lines[k].key, lines[k].grant);
    assert lines[k] in lines;
    NotHeldYet(t, done, lines, ids, group, egress);
    var row := Placed(u, group, egress, n);
    PlacedIsCompatible(u, group, egress, n);
    WellOrderedAppends(u, row);
    assert u + [row] == t + (done + [row]);
    PlacedIsLast(t, done, lines, ids, group, egress);
    assert InDirection(row, group, egress) && LineOf(row) == lines[k] && row.id == ids[k];
    hide Placed;
    StrictlyBeforeAppends(done, row);
  }

  lemma StrictlyBeforeAppends(done: seq<Rule>, row: Rule)
    requires StrictlyBefore(done) && forall i :: 0 <= i < |done| ==> Before(done[i], row)
    ensures StrictlyBefore(done + [row])
  {
  }

  lemma NotHeldYet(t: Table, done: seq<Rule>, lines: seq<Line>, ids: seq<string>, group: string, egress: bool)
    requires |ids| == |lines| && Loaded(t, done, lines, ids, group, egress) && |done| < |lines|
    requires DistinctSources(lines) && FreshIds(t, ids)
    ensures var n := NewRule(ids[|done|], lines[|done|].key, lines[|done|].grant);
            !Holds(t + done, group, egress, n.key, n.grant.source) && !HasId(t + done, n.id)
  {
    var k := |done|;
    forall r | r in t + done
      ensures !(InPermission(r, group, egress, lines[k].key) && r.grant.source == lines[k].grant.source) && r.id != ids[k]
    {
      if r in done {
        var i :| 0 <= i < |done| && done[i] == r;
        assert LineOf(done[i]) == lines[i];
      }
    }
  }

  /** The placed row comes after every row of the direction. */
  lemma PlacedIsLast(t: Table, done: seq<Rule>, lines: seq<Line>, ids: seq<string>, group: string, egress: bool)
    requires |ids| == |lines| && Loaded(t, done, lines, ids, group, egress) && |done| < |lines|
    requires Contiguous(lines)
    ensures var n := NewRule(ids[|done|], lines[|done|].key, lines[|done|].grant);
            forall i :: 0 <= i < |done| ==> Before(done[i], Placed(t + done, group, egress, n))
  {
    var k, u := |done|, t + done;
    var n := NewRule(ids[k], lines[k].key, lines[k].grant);
    if k > 0 {
      var last := done[k - 1];
      assert last in done;
      assert last in u && InDirection(last, group, egress);
      if PermOrdOf(u, group, egress, n.key).Some? {
        LastIsOpen(t, done, lines, ids, group, egress);
        OpenPosition(u, group, egress, n, last);
      }
      AfterAll(t, done, group, egress, n);
    }
  }

  lemma AfterAll(t: Table, done: seq<Rule>, group: string, egress: bool, n: NewRule)
    requires WellOrdered(t + done) && StrictlyBefore(done) && done != []
    requires forall r :: r in done ==> InDirection(r, group, egress)
    requires var last := done[|done| - 1];
             PermOrdOf(t + done, group, egress, n.key).Some? ==>
               last.key == n.key && Placed(t + done, group, egress, n).permOrd == last.permOrd
    ensures forall i :: 0 <= i < |done| ==> Before(done[i], Placed(t + done, group, egress, n))
  {
    var u, last := t + done, done[|done| - 1];
    assert last in done;
    assert last in u;
    forall i | 0 <= i < |done| ensures Before(done[i], Placed(u, group, egress, n)) {
      assert done[i] in done;
      assert done[i] in u;
      AfterEach(u, group, egress, n, done[i], last);
    }
  }

  /** A rule of a held permission is placed at that permission's position. */
  lemma OpenPosition(u: Table, group: string, egress: bool, n: NewRule, last: Rule)
    requires WellOrdered(u) && last in u && InDirection(last, group, egress) && last.key == n.key
    ensures Placed(u, group, egress, n).permOrd == last.permOrd
  {
    var ord := PermOrdOf(u, group, egress, n.key);
    assert InPermission(last, group, egress, n.key);
    var w :| w in u && InPermission(w, group, egress, n.key) && w.permOrd == ord.value;
    SamePlace(u, w, last);
  }

  lemma AfterEach(u: Table, group: string, egress: bool, n: NewRule, r: Rule, last: Rule)
    requires WellOrdered(u) && r in u && InDirection(r, group, egress)
    requires r == last || Before(r, last)
    requires PermOrdOf(u, group, egress, n.key).Some? ==>
               last in u && InDirection(last, group, egress) && last.key == n.key
               && Placed(u, group, egress, n).permOrd == last.permOrd
    ensures Before(r, Placed(u, group, egress, n))
  {
    if PermOrdOf(u, group, egress, n.key).Some? {
      SamePlace(u, r, last);
    }
  }

  /** A line whose key is already placed follows a line of that key. */
  lemma LastIsOpen(t: Table, done: seq<Rule>, lines: seq<Line>, ids: seq<string>, group: string, egress: bool)
    requires |ids| == |lines| && Loaded(t, done, lines, ids, group, egress) && 0 < |done| < |lines|
    requires Contiguous(lines) && PermOrdOf(t + done, group, egress, lines[|done|].key).Some?
    ensures done[|done| - 1].key == lines[|done|].key
  {
    hide WellOrdered, StrictlyBefore;
    var k, u := |done|, t + done;
    var w :| w in u && InPermission(w, group, egress, lines[k].key);
    assert w in done;
    var j :| 0 <= j < k && done[j] == w;
    assert LineOf(done[j]) == lines[j] && LineOf(done[k - 1]) == lines[k - 1];
  }

  lemma AuthorizeNext(t: Table, done: seq<Rule>, group: string, egress: bool, news: seq<NewRule>, k: nat)
    requires k < |news| && !Holds(t + done, group, egress, news[k].key, news[k].grant.source)
    requires !HasId(t + done, news[k].id) && Storable(news[k].grant)
    ensures var row := Placed(t + done, group, egress, news[k]);
            var rest := Authorize(t + (done + [row]), group, egress, news[k + 1..]);
            Authorize(t + done, group, egress, news[k..])
            == if rest.Refused? then Refused else Added(rest.table, [row] + rest.added)
  {
    var row := Placed(t + done, group, egress, news[k]);
    assert news[k..][1..] == news[k + 1..];
    assert (t + done) + [row] == t + (done + [row]);
  }

  /** Authorizing the lines after `done` adds them all, in listing order. */
  ghost predicate AllLoaded(
    t: Table, done: seq<Rule>, a: Authorized, lines: seq<Line>, ids: seq<string>, group: string, egress: bool)
    requires |ids| == |lines|
  {
    && a.Added? && a.table == t + (done + a.added) && |done + a.added| == |lines|
    && Loaded(t, done + a.added, lines, ids, group, egress)
  }

  lemma LoadedOneMore(
    t: Table, done: seq<Rule>, row: Rule, rest: Authorized, lines: seq<Line>, ids: seq<string>, group: string, egress: bool)
    requires |ids| == |lines| && AllLoaded(t, done + [row], rest, lines, ids, group, egress)
    ensures AllLoaded(t, done, Added(rest.table, [row] + rest.added), lines, ids, group, egress)
  {
    assert (done + [row]) + rest.added == done + ([row] + rest.added);
  }

  lemma {:induction false} LoadsAll(t: Table, done: seq<Rule>, lines: seq<Line>, ids: seq<string>, group: string, egress: bool)
    requires |ids| == |lines| && Loaded(t, done, lines, ids, group, egress)
    requires Contiguous(lines) && DistinctSources(lines) && FreshIds(t, ids)
    requires forall l :: l in lines ==> Storable(l.grant)
    ensures AllLoaded(t, done, Authorize(t + done, group, egress, Requested(lines, ids)[|done|..]), lines, ids, group, egress)
    decreases |lines| - |done|
  {
    var k, news := |done|, Requested(lines, ids);
    if k == |lines| {
      assert news[k..] == [] && done + [] == done;
    } else {
      LoadedStep(t, done, lines, ids, group, egress);
      var row := Placed(t + done, group, egress, news[k]);
      AuthorizeNext(t, done, group, egress, news, k);
      LoadsAll(t, done + [row], lines, ids, group, egress);
      LoadedOneMore(t, done, row, Authorize(t + (done + [row]), group, egress, news[k + 1..]), lines, ids, group, egress);
    }
  }

  // ----- gathering what was authorized -----

  /** Nonempty permissions of distinct keys, each source once and storable. */
  ghost predicate Proper(ps: seq<IpPermission>) {
    && DistinctKeys(ps)
    && forall p :: p in ps ==> ProperOne(p)
  }

  ghost predicate ProperOne(p: IpPermission) {
    && GrantsOf(p) != []
    && (forall g :: g in GrantsOf(p) ==> Storable(g))
    && (forall i, j :: 0 <= i < j < |GrantsOf(p)| ==> GrantsOf(p)[i].source != GrantsOf(p)[j].source)
    && (forall it :: it in p.ranges + p.ranges6 + p.prefixes ==> it.user == "")
  }

  /** The permission the grants build, one after the other. */
  function Collect(key: PermKey, grants: seq<Grant>): (p: IpPermission)
    ensures p.key == key
  {
    if grants == [] then Bare(key) else AddSource(Collect(key, grants[..|grants| - 1]), grants[|grants| - 1])
  }

  function ItemOf(g: Grant): Item {
    Item(g.source.value, if g.source.kind == GroupPair then g.user else "", g.description)
  }

  /** Items appended to a kind's list. */
  function Spread(p: IpPermission, kind: SourceKind, items: seq<Item>): IpPermission {
    match kind
    case Ipv4 => p.(ranges := p.ranges + items)
    case Ipv6 => p.(ranges6 := p.ranges6 + items)
    case GroupPair => p.(pairs := p.pairs + items)
    case PrefixList => p.(prefixes := p.prefixes + items)
  }

  lemma SpreadOne(p: IpPermission, kind: SourceKind, items: seq<Item>, g: Grant)
    requires items != [] && g.source.kind == kind && ItemOf(g) == items[|items| - 1]
    ensures AddSource(Spread(p, kind, items[..|items| - 1]), g) == Spread(p, kind, items)
  {
    var front, last := items[..|items| - 1], items[|items| - 1];
    assert items == front + [last];
    match kind
    case Ipv4 => assert (p.ranges + front) + [last] == p.ranges + items;
    case Ipv6 => assert (p.ranges6 + front) + [last] == p.ranges6 + items;
    case GroupPair => assert (p.pairs + front) + [last] == p.pairs + items;
    case PrefixList => assert (p.prefixes + front) + [last] == p.prefixes + items;
  }

  /** A run of one kind goes to that kind's list, in order. */
  lemma {:induction false} CollectRun(key: PermKey, before: seq<Grant>, kind: SourceKind, items: seq<Item>)
    requires kind != GroupPair ==> forall it :: it in items ==> it.user == ""
    ensures Collect(key, before + Grants(kind, items)) == Spread(Collect(key, before), kind, items)
  {
    if items == [] {
      assert before + Grants(kind, items) == before;
    } else {
      var n := |items| - 1;
      CollectRun(key, before, kind, items[..n]);
      var all := before + Grants(kind, items);
      assert all[..|all| - 1] == before + Grants(kind, items[..n]);
      assert items[n] in items;
      SpreadOne(Collect(key, before), kind, items, all[|all| - 1]);
    }
  }

  lemma NoUsers(p: IpPermission)
    requires ProperOne(p)
    ensures forall it :: it in p.ranges || it in p.ranges6 || it in p.prefixes ==> it.user == ""
  {
    var all := p.ranges + p.ranges6 + p.prefixes;
    assert forall it :: it in p.ranges || it in p.ranges6 || it in p.prefixes ==> it in all;
  }

  lemma SpreadAll(p: IpPermission)
    ensures Spread(Spread(Spread(Spread(Bare(p.key), Ipv4, p.ranges), Ipv6, p.ranges6), GroupPair, p.pairs), PrefixList, p.prefixes) == p
  {
    assert [] + p.ranges == p.ranges && [] + p.ranges6 == p.ranges6 && [] + p.pairs == p.pairs && [] + p.prefixes == p.prefixes;
  }

  /** A proper permission's sources, collected, are the permission. */
  lemma CollectIsInverse(p: IpPermission)
    requires ProperOne(p)
    ensures Collect(p.key, GrantsOf(p)) == p
  {
    NoUsers(p);
    var a, b, c := Grants(Ipv4, p.ranges), Grants(Ipv6, p.ranges6), Grants(GroupPair, p.pairs);
    assert Collect(p.key, []) == Bare(p.key);
    hide Collect, Grants, ProperOne, Spread;
    CollectRun(p.key, [], Ipv4, p.ranges);
    assert [] + a == a;
    CollectRun(p.key, a, Ipv6, p.ranges6);
    CollectRun(p.key, a + b, GroupPair, p.pairs);
    CollectRun(p.key, a + b + c, PrefixList, p.prefixes);
    SpreadAll(p);
  }

  /** The lines of `p` start at row `s`, after rows of other permissions. */
  ghost predicate BlockAt(rows: seq<Rule>, s: nat, p: IpPermission) {
    && s + |GrantsOf(p)| <= |rows|
    && (forall i :: 0 <= i < |GrantsOf(p)| ==> LineOf(rows[s + i]) == Line(p.key, GrantsOf(p)[i]))
    && (s > 0 && GrantsOf(p) != [] ==> rows[s - 1].key != p.key)
  }

  lemma CollectSteps(key: PermKey, grants: seq<Grant>, k: nat)
    requires 0 < k <= |grants|
    ensures Collect(key, grants[..k]) == AddSource(if k == 1 then Bare(key) else Collect(key, grants[..k - 1]), grants[k - 1])
  {
    assert grants[..k][..k - 1] == grants[..k - 1];
    assert k == 1 ==> grants[..0] == [];
  }

  lemma {:induction false} GatherBlock(rows: seq<Rule>, s: nat, p: IpPermission, k: nat)
    requires Listed(rows) && BlockAt(rows, s, p) && 0 < k <= |GrantsOf(p)|
    ensures Gather(rows[..s + k]) == Gather(rows[..s]) + [Collect(p.key, GrantsOf(p)[..k])]
    decreases k
  {
    var n, grants := s + k - 1, GrantsOf(p);
    GatherExtends(rows, n);
    BlockRow(rows, s, p, k);
    CollectSteps(p.key, grants, k);
    hide Gather, GrantsOf, Extended, Collect, Listed, BlockAt, Starts, AddSource;
    if k == 1 {
      ExtendNew(Gather(rows[..s]), rows[n]);
    } else {
      GatherBlock(rows, s, p, k - 1);
      ExtendLast(Gather(rows[..s]), Collect(p.key, grants[..k - 1]), rows[n]);
    }
  }

  /** Row `k` of a block starts a permission exactly when it is the first. */
  lemma BlockRow(rows: seq<Rule>, s: nat, p: IpPermission, k: nat)
    requires Listed(rows) && BlockAt(rows, s, p) && 0 < k <= |GrantsOf(p)|
    ensures var row := rows[s + k - 1]; row.key == p.key && row.grant == GrantsOf(p)[k - 1]
    ensures s + k - 1 < |rows| && (Starts(rows, s + k - 1) <==> k == 1)
  {
    hide GrantsOf;
    assert LineOf(rows[s + (k - 1)]) == Line(p.key, GrantsOf(p)[k - 1]);
    if k > 1 {
      assert LineOf(rows[s + (k - 2)]) == Line(p.key, GrantsOf(p)[k - 2]);
    }
  }

  lemma ExtendNew(ps: seq<IpPermission>, row: Rule)
    ensures Extended(ps, row, true) == ps + [AddSource(Bare(row.key), row.grant)]
  {
    assert (ps + [Bare(row.key)])[..|ps|] == ps;
  }

  lemma ExtendLast(ps: seq<IpPermission>, p: IpPermission, row: Rule)
    ensures Extended(ps + [p], row, false) == ps + [AddSource(p, row.grant)]
  {
    assert (ps + [p])[..|ps|] == ps;
  }

  lemma {:induction false} GatherReadsBack(rows: seq<Rule>, ps: seq<IpPermission>)
    requires Listed(rows) && Proper(ps) && LinesIn(rows) == LinesOf(ps)
    ensures Gather(rows) == ps
    decreases |ps|
  {
    if ps == [] {
      assert |rows| == |LinesIn(rows)| == 0;
    } else {
      var n := |ps| - 1;
      var front, p := ps[..n], ps[n];
      assert ps == front + [p] && p in ps;
      LinesAppend(front, p);
      SplitLines(rows, front, p);
      ListedPrefix(rows, |LinesOf(front)|);
      assert Proper(front) by {
        assert forall q :: q in front ==> q in ps;
      }
      GatherReadsBack(rows[..|LinesOf(front)|], front);
      GatherLastBlock(rows, front, p);
    }
  }

  lemma GatherLastBlock(rows: seq<Rule>, front: seq<IpPermission>, p: IpPermission)
    requires Listed(rows) && ProperOne(p) && DistinctKeys(front + [p])
    requires LinesIn(rows) == LinesOf(front) + Lines(p.key, GrantsOf(p))
    ensures |LinesOf(front)| <= |rows|
    ensures Gather(rows) == Gather(rows[..|LinesOf(front)|]) + [p]
  {
    var s, n := |LinesOf(front)|, |GrantsOf(p)|;
    SplitLines(rows, front, p);
    LastBlock(rows, front, p);
    GatherToEnd(rows, s, p);
    CollectIsInverse(p);
  }

  lemma GatherToEnd(rows: seq<Rule>, s: nat, p: IpPermission)
    requires Listed(rows) && BlockAt(rows, s, p) && GrantsOf(p) != [] && s + |GrantsOf(p)| == |rows|
    ensures Gather(rows) == Gather(rows[..s]) + [Collect(p.key, GrantsOf(p))]
  {
    var n := |GrantsOf(p)|;
    GatherBlock(rows, s, p, n);
    assert rows[..s + n] == rows && GrantsOf(p)[..n] == GrantsOf(p);
  }

  lemma SplitLines(rows: seq<Rule>, front: seq<IpPermission>, p: IpPermission)
    requires LinesIn(rows) == LinesOf(front) + Lines(p.key, GrantsOf(p))
    ensures var s := |LinesOf(front)|;
            && s + |GrantsOf(p)| == |rows|
            && LinesIn(rows[..s]) == LinesOf(front)
            && forall i :: 0 <= i < |GrantsOf(p)| ==> LineOf(rows[s + i]) == Line(p.key, GrantsOf(p)[i])
  {
    var s := |LinesOf(front)|;
    assert |LinesIn(rows)| == s + |GrantsOf(p)|;
    assert LinesIn(rows[..s]) == LinesIn(rows)[..s] == LinesOf(front);
    forall i | 0 <= i < |GrantsOf(p)| ensures LineOf(rows[s + i]) == Line(p.key, GrantsOf(p)[i]) {
      assert LinesIn(rows)[s + i] == Lines(p.key, GrantsOf(p))[i];
    }
  }

  lemma LastBlock(rows: seq<Rule>, front: seq<IpPermission>, p: IpPermission)
    requires LinesIn(rows) == LinesOf(front) + Lines(p.key, GrantsOf(p))
    requires DistinctKeys(front + [p])
    ensures BlockAt(rows, |LinesOf(front)|, p)
  {
    SplitLines(rows, front, p);
    var s := |LinesOf(front)|;
    if s > 0 {
      assert LineOf(rows[s - 1]) == LinesIn(rows)[s - 1] == LinesOf(front)[s - 1];
      LineKey(front, s - 1);
      var k :| 0 <= k < |front| && front[k].key == LinesOf(front)[s - 1].key;
      assert (front + [p])[k].key != (front + [p])[|front|].key;
    }
  }

  lemma {:induction false} LineKey(ps: seq<IpPermission>, i: nat)
    requires i < |LinesOf(ps)|
    ensures exists k :: 0 <= k < |ps| && ps[k].key == LinesOf(ps)[i].key
  {
    var block := Lines(ps[0].key, GrantsOf(ps[0]));
    if i >= |block| {
      LineKey(ps[1..], i - |block|);
      var k :| 0 <= k < |ps[1..]| && ps[1..][k].key == LinesOf(ps[1..])[i - |block|].key;
      assert ps[k + 1].key == LinesOf(ps)[i].key;
    } else {
      assert ps[0].key == LinesOf(ps)[i].key;
    }
  }

  /** The lines of distinct permissions come in runs, no source twice in one. */
  lemma {:induction false} ProperLines(ps: seq<IpPermission>)
    requires Proper(ps)
    ensures Contiguous(LinesOf(ps)) && DistinctSources(LinesOf(ps))
    ensures forall l :: l in LinesOf(ps) ==> Storable(l.grant)
  {
    if ps != [] {
      var p, rest := ps[0], ps[1..];
      assert p in ps && forall q :: q in rest ==> q in ps;
      ProperLines(rest);
      var block, tail, all := Lines(p.key, GrantsOf(p)), LinesOf(rest), LinesOf(ps);
      forall j | 0 <= j < |tail| ensures tail[j].key != p.key {
        LineKey(rest, j);
        var k :| 0 <= k < |rest| && rest[k].key == tail[j].key;
        assert ps[0].key != ps[k + 1].key;
      }
      RunsJoin(p.key, GrantsOf(p), tail);
      assert all == block + tail;
      assert forall l :: l in all ==> l in block || l in tail;
    }
  }

  lemma RunsJoin(key: PermKey, grants: seq<Grant>, tail: seq<Line>)
    requires Contiguous(tail) && DistinctSources(tail) && forall j :: 0 <= j < |tail| ==> tail[j].key != key
    requires forall i, j :: 0 <= i < j < |grants| ==> grants[i].source != grants[j].source
    ensures Contiguous(Lines(key, grants) + tail) && DistinctSources(Lines(key, grants) + tail)
  {
    var block, all := Lines(key, grants), Lines(key, grants) + tail;
    var m := |block|;
    forall i, j | 0 <= i < j < |all| && all[i].key == all[j].key
      ensures all[j - 1].key == all[j].key && all[i].grant.source != all[j].grant.source
    {
      if i >= m {
        assert all[i] == tail[i - m] && all[j] == tail[j - m] && all[j - 1] == tail[j - m - 1];
      }
    }
  }

  /**
   * Proper permissions authorized into an empty direction are all added, and
   * gathering the direction answers exactly the permissions that were sent.
   */
  lemma AuthorizeThenGather(t: Table, group: string, egress: bool, ps: seq<IpPermission>, ids: seq<string>)
    requires WellOrdered(t) && Proper(ps) && |ids| == |LinesOf(ps)| && FreshIds(t, ids)
    requires forall r :: r in t ==> !InDirection(r, group, egress)
    ensures var a := Authorize(t, group, egress, Requested(LinesOf(ps), ids));
            && a.Added? && |a.added| == |LinesOf(ps)|
            && Gather(Listing(a.table, group, egress)) == ps
  {
    var lines := LinesOf(ps);
    ProperLines(ps);
    assert t + [] == t;
    LoadsAll(t, [], lines, ids, group, egress);
    var news := Requested(lines, ids);
    assert news[0..] == news;
    var a := Authorize(t, group, egress, news);
    assert [] + a.added == a.added;
    ListedAsAdded(t, a.added, group, egress);
    assert LinesIn(a.added) == lines;
    ListingIsListed(a.table, group, egress);
    GatherReadsBack(a.added, ps);
  }

  lemma ListedAsAdded(t: Table, added: seq<Rule>, group: string, egress: bool)
    requires WellOrdered(t + added) && StrictlyBefore(added)
    requires (forall r :: r in t ==> !InDirection(r, group, egress)) && (forall r :: r in added ==> InDirection(r, group, egress))
    ensures Listing(t + added, group, egress) == added
  {
    SelectNone(t, group, egress);
    SelectAll(added, group, egress);
    SelectAppends(t, added, group, egress);
    assert Select(t + added, group, egress) == [] + added == added;
    forall r, s | r in added && s in added && Before(r, s) && Before(s, r) ensures r == s {
      assert r in t + added && s in t + added;
      SamePlace(t + added, r, s);
    }
    SortSorts(Before, added);
    assert multiset(SortBy(Before, added)) == multiset(added);
    SortedUnique(Before, added, SortBy(Before, added));
  }

  lemma {:induction false} SelectNone(t: Table, group: string, egress: bool)
    requires forall r :: r in t ==> !InDirection(r, group, egress)
    ensures Select(t, group, egress) == []
  {
    if t != [] {
      assert t[0] in t && forall r :: r in t[1..] ==> r in t;
      SelectNone(t[1..], group, egress);
    }
  }

  lemma {:induction false} SelectAll(t: Table, group: string, egress: bool)
    requires forall r :: r in t ==> InDirection(r, group, egress)
    ensures Select(t, group, egress) == t
  {
    if t != [] {
      assert t[0] in t && forall r :: r in t[1..] ==> r in t;
      SelectAll(t[1..], group, egress);
    }
  }

  lemma {:induction false} SelectAppends(t: Table, u: Table, group: string, egress: bool)
    ensures Select(t + u, group, egress) == Select(t, group, egress) + Select(u, group, egress)
  {
    if t == [] {
      assert t + u == u;
    } else {
      assert (t + u)[1..] == t[1..] + u;
      SelectAppends(t[1..], u, group, egress);
    }
  }
}
