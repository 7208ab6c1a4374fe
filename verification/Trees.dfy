/** Parsed bodies (`handlers/load_diff.go`): trees, their form and their meaning. */
module Trees {
  import opened Sorting
  import opened Text

  datatype Kind = TextNode | JsonString | JsonNumber | JsonBool

  /** What makes kids same-named siblings: compared as one group. */
  datatype GroupKey = GroupKey(name: string, json: bool, member: bool)

  datatype Tree = Tree(
    name: string, text: string, kind: Kind, json: bool, member: bool, kids: seq<Tree>, index: nat)
  {
    predicate Valued() {
      text != "" || kind != TextNode
    }

    /** No value and no kids: `Diff` treats such a node as absent. */
    predicate Blank() {
      !Valued() && kids == []
    }

    function Group(): GroupKey {
      GroupKey(name, json, member)
    }
  }

  /** The `&Tree{}` a missing field is compared with. */
  const EMPTY: Tree := Tree("", "", TextNode, false, false, [], 0)

  // ----- grouping kids -----

  function Keys(kids: seq<Tree>): (r: seq<GroupKey>)
    ensures |r| == |kids|
  {
    seq(|kids|, i requires 0 <= i < |kids| => kids[i].Group())
  }

  /** The positions holding `g`, ascending. */
  function Indices(keys: seq<GroupKey>, g: GroupKey): (r: seq<nat>)
    ensures forall k :: 0 <= k < |r| ==> r[k] < |keys| && keys[r[k]] == g
    ensures forall i :: 0 <= i < |keys| && keys[i] == g ==> i in r
    ensures forall k, l :: 0 <= k < l < |r| ==> r[k] < r[l]
  {
    if keys == [] then []
    else
      var n := |keys| - 1;
      Indices(keys[..n], g) + if keys[n] == g then [n] else []
  }

  function Pick<T>(vals: seq<T>, at: seq<nat>): (r: seq<T>)
    requires forall k :: 0 <= k < |at| ==> at[k] < |vals|
    ensures |r| == |at|
  {
    seq(|at|, k requires 0 <= k < |at| => vals[at[k]])
  }

  /** The values of the kids in group `g`, in kid order. */
  function GroupOf<T>(keys: seq<GroupKey>, vals: seq<T>, g: GroupKey): (r: seq<T>)
    requires |keys| == |vals|
  {
    Pick(vals, Indices(keys, g))
  }

  /** The distinct keys, in order of first appearance. */
  function Distinct(keys: seq<GroupKey>): (r: seq<GroupKey>)
    ensures forall g :: g in r <==> g in keys
    ensures forall i, j :: 0 <= i < j < |r| ==> r[i] != r[j]
  {
    if keys == [] then []
    else
      var n := |keys| - 1;
      var r := Distinct(keys[..n]);
      assert forall g :: g in keys <==> g in keys[..n] || g == keys[n];
      if keys[n] in r then r else r + [keys[n]]
  }

  predicate GroupLeq(g: GroupKey, h: GroupKey) {
    if g.name != h.name then Leq(g.name, h.name) else !g.member || h.member
  }

  /** `diffGroups`' order: by name, set members last. */
  function Order(keys: seq<GroupKey>): (r: seq<GroupKey>)
    ensures forall g :: g in r <==> g in keys
  {
    var r := SortBy(GroupLeq, Distinct(keys));
    assert forall g :: g in r <==> g in multiset(r);
    assert forall g :: g in Distinct(keys) <==> g in multiset(Distinct(keys));
    r
  }

  // ----- the form: a length-prefixed spelling -----

  function KindByte(k: Kind): char {
    match k
    case TextNode => 0 as char
    case JsonString => 1 as char
    case JsonNumber => 2 as char
    case JsonBool => 3 as char
  }

  function SpellParts(forms: seq<string>): string {
    if forms == [] then "" else Part(forms[0]) + SpellParts(forms[1..])
  }

  /** Set members' forms are sorted, other fields' kept in position. */
  function Arrange(g: GroupKey, forms: seq<string>): (r: seq<string>)
    ensures |r| == |forms|
  {
    if g.member then Sort(forms) else forms
  }

  function SpellGroup(g: GroupKey, forms: seq<string>): (r: string)
    ensures r != ""
  {
    Part(g.name) + SpellList(g.member, Arrange(g, forms))
  }

  function SpellList(member: bool, forms: seq<string>): string {
    (if member then "true" else "false") + (Itoa(|forms|) + ":" + SpellParts(forms))
  }

  function Spell(order: seq<GroupKey>, keys: seq<GroupKey>, forms: seq<string>): string
    requires |keys| == |forms|
  {
    if order == [] then ""
    else SpellGroup(order[0], GroupOf(keys, forms, order[0])) + Spell(order[1..], keys, forms)
  }

  function Head(kind: Kind, text: string): string {
    [KindByte(kind)] + Part(text)
  }

  /** `treeDiffer.form` without its memo. */
  function Form(t: Tree): string
    decreases t, 1
  {
    Head(t.kind, t.text) + Spell(Order(Keys(t.kids)), Keys(t.kids), KidForms(t))
  }

  function KidForms(t: Tree): (r: seq<string>)
    ensures |r| == |t.kids|
    ensures forall i :: 0 <= i < |r| ==> r[i] == Form(t.kids[i])
    decreases t, 0
  {
    seq(|t.kids|, i requires 0 <= i < |t.kids| => Form(t.kids[i]))
  }

  // ----- the meaning: fields by position, set members as multisets -----

  datatype Meaning = Meaning(
    kind: Kind, text: string, fields: map<GroupKey, seq<Meaning>>, sets: map<GroupKey, multiset<Meaning>>)

  function MeaningOf(t: Tree): Meaning
    decreases t, 1
  {
    var keys, ms := Keys(t.kids), KidMeanings(t);
    Meaning(t.kind, t.text, Fields(keys, ms), Sets(keys, ms))
  }

  function Fields<T>(keys: seq<GroupKey>, vals: seq<T>): map<GroupKey, seq<T>>
    requires |keys| == |vals|
  {
    map g | g in keys && !g.member :: GroupOf(keys, vals, g)
  }

  function Sets<T>(keys: seq<GroupKey>, vals: seq<T>): map<GroupKey, multiset<T>>
    requires |keys| == |vals|
  {
    map g | g in keys && g.member :: multiset(GroupOf(keys, vals, g))
  }

  function KidMeanings(t: Tree): (r: seq<Meaning>)
    ensures |r| == |t.kids|
    ensures forall i :: 0 <= i < |r| ==> r[i] == MeaningOf(t.kids[i])
    decreases t, 0
  {
    seq(|t.kids|, i requires 0 <= i < |t.kids| => MeaningOf(t.kids[i]))
  }

  /** Two lists of labelled values hold the same groups, members as multisets. */
  ghost predicate GroupsAgree<T>(ka: seq<GroupKey>, va: seq<T>, kb: seq<GroupKey>, vb: seq<T>)
    requires |ka| == |va| && |kb| == |vb|
  {
    && (forall g :: g in ka <==> g in kb)
    && (forall g :: g in ka ==> GroupAgrees(g, GroupOf(ka, va, g), GroupOf(kb, vb, g)))
  }

  ghost predicate GroupAgrees<T>(g: GroupKey, xs: seq<T>, ys: seq<T>) {
    if g.member then multiset(xs) == multiset(ys) else xs == ys
  }

  lemma MapsAreGroups<T>(ka: seq<GroupKey>, va: seq<T>, kb: seq<GroupKey>, vb: seq<T>)
    requires |ka| == |va| && |kb| == |vb|
    ensures Fields(ka, va) == Fields(kb, vb) && Sets(ka, va) == Sets(kb, vb) <==> GroupsAgree(ka, va, kb, vb)
  {
    if Fields(ka, va) == Fields(kb, vb) && Sets(ka, va) == Sets(kb, vb) {
      forall g ensures g in ka <==> g in kb {
        assert g in ka <==> g in Fields(ka, va) || g in Sets(ka, va);
        assert g in kb <==> g in Fields(kb, vb) || g in Sets(kb, vb);
      }
      forall g | g in ka ensures GroupAgrees(g, GroupOf(ka, va, g), GroupOf(kb, vb, g)) {
        if g.member { assert Sets(ka, va)[g] == Sets(kb, vb)[g]; } else { assert Fields(ka, va)[g] == Fields(kb, vb)[g]; }
      }
    }
  }

  // ----- the form is uniquely decodable -----

  lemma {:induction false} SpellPartsCancels(fs: seq<string>, x: string, hs: seq<string>, y: string)
    requires |fs| == |hs| && SpellParts(fs) + x == SpellParts(hs) + y
    ensures fs == hs && x == y
  {
    if fs == [] {
      assert SpellParts(fs) + x == x && SpellParts(hs) + y == y;
    } else {
      var fx, hy := SpellParts(fs[1..]) + x, SpellParts(hs[1..]) + y;
      assert SpellParts(fs) + x == Part(fs[0]) + fx;
      assert SpellParts(hs) + y == Part(hs[0]) + hy;
      PartCancels(fs[0], fx, hs[0], hy);
      SpellPartsCancels(fs[1..], x, hs[1..], y);
      assert fs == [fs[0]] + fs[1..] && hs == [hs[0]] + hs[1..];
    }
  }

  lemma {:induction false} SpellListCancels(m: bool, fs: seq<string>, x: string, n: bool, hs: seq<string>, y: string)
    requires SpellList(m, fs) + x == SpellList(n, hs) + y
    ensures m == n && fs == hs && x == y
  {
    var flagM, flagN := if m then "true" else "false", if n then "true" else "false";
    var restM, restN := Itoa(|fs|) + ":" + (SpellParts(fs) + x), Itoa(|hs|) + ":" + (SpellParts(hs) + y);
    assert SpellList(m, fs) + x == flagM + restM;
    assert SpellList(n, hs) + y == flagN + restN;
    assert (flagM + restM)[0] == flagM[0] && (flagN + restN)[0] == flagN[0];
    assert restM == (flagM + restM)[|flagM|..] && restN == (flagN + restN)[|flagN|..];
    NumberCancels(|fs|, SpellParts(fs) + x, |hs|, SpellParts(hs) + y);
    SpellPartsCancels(fs, x, hs, y);
  }

  lemma SpellGroupCancels(g: GroupKey, fs: seq<string>, x: string, h: GroupKey, hs: seq<string>, y: string)
    requires SpellGroup(g, fs) + x == SpellGroup(h, hs) + y
    ensures g.name == h.name && g.member == h.member
    ensures Arrange(g, fs) == Arrange(h, hs) && x == y
  {
    var lg, lh := SpellList(g.member, Arrange(g, fs)), SpellList(h.member, Arrange(h, hs));
    assert SpellGroup(g, fs) + x == Part(g.name) + (lg + x);
    assert SpellGroup(h, hs) + y == Part(h.name) + (lh + y);
    PartCancels(g.name, lg + x, h.name, lh + y);
    SpellListCancels(g.member, Arrange(g, fs), x, h.member, Arrange(h, hs), y);
  }

  /** One spelling, one list of groups. */
  lemma {:induction false} SpellInjective(
    oa: seq<GroupKey>, ka: seq<GroupKey>, fa: seq<string>, ob: seq<GroupKey>, kb: seq<GroupKey>, fb: seq<string>)
    requires |ka| == |fa| && |kb| == |fb|
    requires Spell(oa, ka, fa) == Spell(ob, kb, fb)
    ensures |oa| == |ob|
    ensures forall i :: 0 <= i < |oa| ==>
              && oa[i].name == ob[i].name && oa[i].member == ob[i].member
              && Arrange(oa[i], GroupOf(ka, fa, oa[i])) == Arrange(ob[i], GroupOf(kb, fb, ob[i]))
  {
    if oa != [] && ob != [] {
      SpellGroupCancels(oa[0], GroupOf(ka, fa, oa[0]), Spell(oa[1..], ka, fa),
                        ob[0], GroupOf(kb, fb, ob[0]), Spell(ob[1..], kb, fb));
      SpellInjective(oa[1..], ka, fa, ob[1..], kb, fb);
      forall i | 1 <= i < |oa|
        ensures oa[i].name == ob[i].name && oa[i].member == ob[i].member
        ensures Arrange(oa[i], GroupOf(ka, fa, oa[i])) == Arrange(ob[i], GroupOf(kb, fb, ob[i]))
      {
        assert oa[i] == oa[1..][i - 1] && ob[i] == ob[1..][i - 1];
      }
    }
  }

  lemma {:induction false} SpellCongruent(
    order: seq<GroupKey>, ka: seq<GroupKey>, fa: seq<string>, kb: seq<GroupKey>, fb: seq<string>)
    requires |ka| == |fa| && |kb| == |fb|
    requires forall g :: g in order ==> Arrange(g, GroupOf(ka, fa, g)) == Arrange(g, GroupOf(kb, fb, g))
    ensures Spell(order, ka, fa) == Spell(order, kb, fb)
  {
    if order != [] {
      assert order[0] in order;
      var xs, ys := GroupOf(ka, fa, order[0]), GroupOf(kb, fb, order[0]);
      assert |xs| == |Arrange(order[0], xs)| == |ys|;
      SpellCongruent(order[1..], ka, fa, kb, fb);
    }
  }

  ghost predicate OneProtocol(keys: seq<GroupKey>, json: bool) {
    forall g :: g in keys ==> g.json == json
  }

  lemma GroupLeqIsOrder()
    ensures TotalPreorder(GroupLeq)
  {
    LeqIsOrder();
    forall x: GroupKey, y: GroupKey, z: GroupKey | GroupLeq(x, y) && GroupLeq(y, z) ensures GroupLeq(x, z) {
      if x.name != y.name && y.name != z.name {
        assert Leq(x.name, z.name);
      }
    }
  }

  lemma DistinctSameMultiset(a: seq<GroupKey>, b: seq<GroupKey>)
    requires forall g :: g in a <==> g in b
    requires forall i, j :: 0 <= i < j < |a| ==> a[i] != a[j]
    requires forall i, j :: 0 <= i < j < |b| ==> b[i] != b[j]
    ensures multiset(a) == multiset(b)
  {
    forall g ensures multiset(a)[g] == multiset(b)[g] {
      CountDistinct(a, g);
      CountDistinct(b, g);
    }
  }

  lemma {:induction false} CountDistinct(a: seq<GroupKey>, g: GroupKey)
    requires forall i, j :: 0 <= i < j < |a| ==> a[i] != a[j]
    ensures multiset(a)[g] == if g in a then 1 else 0
  {
    if a != [] {
      var n := |a| - 1;
      assert a == a[..n] + [a[n]];
      CountDistinct(a[..n], g);
      assert g in a[..n] ==> g != a[n];
    }
  }

  /** Within one protocol, the key set alone fixes the order of the groups. */
  lemma OrderSeesSet(ka: seq<GroupKey>, kb: seq<GroupKey>, json: bool)
    requires OneProtocol(ka, json) && OneProtocol(kb, json)
    requires forall g :: g in ka <==> g in kb
    ensures Order(ka) == Order(kb)
  {
    GroupLeqIsOrder();
    LeqIsOrder();
    var da, db := Distinct(ka), Distinct(kb);
    DistinctSameMultiset(da, db);
    forall x, y | x in da && y in da && GroupLeq(x, y) && GroupLeq(y, x) ensures x == y {
      assert x.json == y.json;
    }
    SortAgrees(GroupLeq, da, db);
  }

  lemma ArrangeAgrees(g: GroupKey, xs: seq<string>, ys: seq<string>)
    ensures Arrange(g, xs) == Arrange(g, ys) <==> GroupAgrees(g, xs, ys)
  {
    SortSeesMultiset(xs, ys);
  }

  lemma SpellReadsGroups(ka: seq<GroupKey>, fa: seq<string>, kb: seq<GroupKey>, fb: seq<string>, json: bool)
    requires |ka| == |fa| && |kb| == |fb|
    requires OneProtocol(ka, json) && OneProtocol(kb, json)
    requires Spell(Order(ka), ka, fa) == Spell(Order(kb), kb, fb)
    ensures GroupsAgree(ka, fa, kb, fb)
  {
    var oa, ob := Order(ka), Order(kb);
    SpellInjective(oa, ka, fa, ob, kb, fb);
    SameNamesSameKeys(oa, ob, json);
    forall g | g in ka ensures GroupAgrees(g, GroupOf(ka, fa, g), GroupOf(kb, fb, g)) {
      assert g in oa;
      var i :| 0 <= i < |oa| && oa[i] == g;
      assert Arrange(oa[i], GroupOf(ka, fa, oa[i])) == Arrange(ob[i], GroupOf(kb, fb, ob[i]));
      ArrangeAgrees(g, GroupOf(ka, fa, g), GroupOf(kb, fb, g));
    }
  }

  lemma SameNamesSameKeys(a: seq<GroupKey>, b: seq<GroupKey>, json: bool)
    requires OneProtocol(a, json) && OneProtocol(b, json) && |a| == |b|
    requires forall i :: 0 <= i < |a| ==> a[i].name == b[i].name && a[i].member == b[i].member
    ensures a == b
  {
    forall i | 0 <= i < |a| ensures a[i] == b[i] {
      assert a[i] in a && b[i] in b;
    }
  }

  /** Two spellings are equal exactly when the groups they spell agree. */
  lemma SpellAgrees(ka: seq<GroupKey>, fa: seq<string>, kb: seq<GroupKey>, fb: seq<string>, json: bool)
    requires |ka| == |fa| && |kb| == |fb|
    requires OneProtocol(ka, json) && OneProtocol(kb, json)
    ensures Spell(Order(ka), ka, fa) == Spell(Order(kb), kb, fb) <==> GroupsAgree(ka, fa, kb, fb)
  {
    if Spell(Order(ka), ka, fa) == Spell(Order(kb), kb, fb) {
      SpellReadsGroups(ka, fa, kb, fb, json);
    }
    if GroupsAgree(ka, fa, kb, fb) {
      OrderSeesSet(ka, kb, json);
      var order := Order(ka);
      forall g | g in order ensures Arrange(g, GroupOf(ka, fa, g)) == Arrange(g, GroupOf(kb, fb, g)) {
        ArrangeAgrees(g, GroupOf(ka, fa, g), GroupOf(kb, fb, g));
      }
      SpellCongruent(order, ka, fa, kb, fb);
    }
  }

  /** Every node below the root is of one protocol, as a parsed body's are. */
  ghost predicate Uniform(t: Tree, json: bool) {
    forall k :: k in t.kids ==> k.json == json && Uniform(k, json)
  }

  lemma UniformKeys(t: Tree, json: bool)
    requires Uniform(t, json)
    ensures OneProtocol(Keys(t.kids), json)
  {
    var keys := Keys(t.kids);
    forall g | g in keys ensures g.json == json {
      var i :| 0 <= i < |keys| && keys[i] == g;
      assert t.kids[i] in t.kids;
    }
  }

  lemma HeadCancels(k: Kind, s: string, x: string, l: Kind, t: string, y: string)
    requires Head(k, s) + x == Head(l, t) + y
    ensures k == l && s == t && x == y
  {
    assert Head(k, s) + x == [KindByte(k)] + (Part(s) + x);
    assert Head(l, t) + y == [KindByte(l)] + (Part(t) + y);
    assert ([KindByte(k)] + (Part(s) + x))[0] == KindByte(k) && ([KindByte(l)] + (Part(t) + y))[0] == KindByte(l);
    assert Part(s) + x == ([KindByte(k)] + (Part(s) + x))[1..] && Part(t) + y == ([KindByte(l)] + (Part(t) + y))[1..];
    PartCancels(s, x, t, y);
  }

  /** A form splits back into the node's kind, its text and its groups. */
  lemma FormIsGroups(a: Tree, b: Tree, json: bool)
    requires Uniform(a, json) && Uniform(b, json)
    ensures Form(a) == Form(b) <==>
            a.kind == b.kind && a.text == b.text &&
            GroupsAgree(Keys(a.kids), KidForms(a), Keys(b.kids), KidForms(b))
  {
    var ka, kb, fa, fb := Keys(a.kids), Keys(b.kids), KidForms(a), KidForms(b);
    UniformKeys(a, json);
    UniformKeys(b, json);
    SpellAgrees(ka, fa, kb, fb, json);
    var sa, sb := Spell(Order(ka), ka, fa), Spell(Order(kb), kb, fb);
    assert Form(a) == Head(a.kind, a.text) + sa && Form(b) == Head(b.kind, b.text) + sb;
    if Form(a) == Form(b) {
      HeadCancels(a.kind, a.text, sa, b.kind, b.text, sb);
    }
  }

  // ----- transferring agreement between two labellings -----

  function Without<T>(s: seq<T>, i: nat): (r: seq<T>)
    requires i < |s|
    ensures |r| == |s| - 1
  {
    s[..i] + s[i + 1..]
  }

  lemma WithoutMultiset<T>(s: seq<T>, i: nat)
    requires i < |s|
    ensures multiset(s) == multiset(Without(s, i)) + multiset{s[i]}
  {
    assert s == s[..i] + [s[i]] + s[i + 1..];
  }

  lemma {:induction false} MultisetTransfers<A, B>(fa: seq<A>, ga: seq<B>, fb: seq<A>, gb: seq<B>)
    requires |fa| == |ga| && |fb| == |gb|
    requires forall i, j :: 0 <= i < |fa| && 0 <= j < |fb| && fa[i] == fb[j] ==> ga[i] == gb[j]
    requires multiset(fa) == multiset(fb)
    ensures multiset(ga) == multiset(gb)
  {
    assert |multiset(fa)| == |fa| && |multiset(fb)| == |fb|;
    if fa != [] {
      assert fa[0] in multiset(fb);
      var j :| 0 <= j < |fb| && fb[j] == fa[0];
      WithoutMultiset(fa, 0);
      WithoutMultiset(ga, 0);
      WithoutMultiset(fb, j);
      WithoutMultiset(gb, j);
      assert multiset(Without(fa, 0)) == multiset(fa) - multiset{fa[0]};
      assert multiset(Without(fb, j)) == multiset(fb) - multiset{fb[j]};
      assert forall i, k :: 0 <= i < |fa| - 1 && 0 <= k < |fb| - 1 && Without(fa, 0)[i] == Without(fb, j)[k] ==>
          Without(ga, 0)[i] == Without(gb, j)[k];
      MultisetTransfers(Without(fa, 0), Without(ga, 0), Without(fb, j), Without(gb, j));
    }
  }

  lemma GroupsTransfer<A, B>(
    ka: seq<GroupKey>, fa: seq<A>, ga: seq<B>, kb: seq<GroupKey>, fb: seq<A>, gb: seq<B>)
    requires |ka| == |fa| == |ga| && |kb| == |fb| == |gb|
    requires forall i, j :: 0 <= i < |fa| && 0 <= j < |fb| && fa[i] == fb[j] ==> ga[i] == gb[j]
    requires GroupsAgree(ka, fa, kb, fb)
    ensures GroupsAgree(ka, ga, kb, gb)
  {
    forall g | g in ka ensures GroupAgrees(g, GroupOf(ka, ga, g), GroupOf(kb, gb, g)) {
      var xs, ys := GroupOf(ka, fa, g), GroupOf(kb, fb, g);
      var us, vs := GroupOf(ka, ga, g), GroupOf(kb, gb, g);
      assert GroupAgrees(g, xs, ys);
      if g.member {
        MultisetTransfers(xs, us, ys, vs);
      } else {
        forall k | 0 <= k < |us| ensures us[k] == vs[k] {
          assert xs[k] == ys[k];
        }
      }
    }
  }

  lemma GroupsTransferBack<A, B>(
    ka: seq<GroupKey>, fa: seq<A>, ga: seq<B>, kb: seq<GroupKey>, fb: seq<A>, gb: seq<B>)
    requires |ka| == |fa| == |ga| && |kb| == |fb| == |gb|
    requires forall i, j :: 0 <= i < |fa| && 0 <= j < |fb| ==> (fa[i] == fb[j] <==> ga[i] == gb[j])
    ensures GroupsAgree(ka, fa, kb, fb) <==> GroupsAgree(ka, ga, kb, gb)
  {
    if GroupsAgree(ka, fa, kb, fb) { GroupsTransfer(ka, fa, ga, kb, fb, gb); }
    if GroupsAgree(ka, ga, kb, gb) { GroupsTransfer(ka, ga, fa, kb, gb, fb); }
  }

  /**
   * Two bodies of one protocol have one form exactly when they mean the same:
   * no two meanings share a spelling and no meaning has two.
   */
  lemma {:induction false} FormIsMeaning(a: Tree, b: Tree, json: bool)
    requires Uniform(a, json) && Uniform(b, json)
    ensures Form(a) == Form(b) <==> MeaningOf(a) == MeaningOf(b)
    decreases a, 1
  {
    var ka, kb := Keys(a.kids), Keys(b.kids);
    KidFormsAreMeanings(a, b, json);
    FormIsGroups(a, b, json);
    MapsAreGroups(ka, KidMeanings(a), kb, KidMeanings(b));
    GroupsTransferBack(ka, KidForms(a), KidMeanings(a), kb, KidForms(b), KidMeanings(b));
  }

  lemma {:induction false} KidFormsAreMeanings(a: Tree, b: Tree, json: bool)
    requires Uniform(a, json) && Uniform(b, json)
    ensures forall i, j :: 0 <= i < |a.kids| && 0 <= j < |b.kids| ==>
              (KidForms(a)[i] == KidForms(b)[j] <==> KidMeanings(a)[i] == KidMeanings(b)[j])
    decreases a, 0
  {
    forall i, j | 0 <= i < |a.kids| && 0 <= j < |b.kids|
      ensures KidForms(a)[i] == KidForms(b)[j] <==> KidMeanings(a)[i] == KidMeanings(b)[j]
    {
      assert a.kids[i] in a.kids && b.kids[j] in b.kids;
      FormIsMeaning(a.kids[i], b.kids[j], json);
    }
  }
}
