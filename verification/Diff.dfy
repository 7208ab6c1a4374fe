/** `diffIgnoring`: pruning, the root's rules, and `Diff` as an equivalence. */
module Diff {
  import opened Options
  import opened Text
  import opened Trees
  import opened TreeDiff

  // ----- URL decoding -----

  predicate IsHex(c: char) {
    IsDigit(c) || 'a' <= c <= 'f' || 'A' <= c <= 'F'
  }

  function HexValue(c: char): (v: nat)
    requires IsHex(c)
    ensures v < 16
  {
    if IsDigit(c) then DigitValue(c)
    else if 'a' <= c <= 'f' then 10 + (c as int - 'a' as int)
    else 10 + (c as int - 'A' as int)
  }

  /** `url.QueryUnescape`: None for a percent sign not before two hex digits. */
  function QueryUnescape(s: string): (r: Option<string>) {
    if s == "" then Some("")
    else if s[0] == '%' then
      if |s| < 3 || !IsHex(s[1]) || !IsHex(s[2]) then None
      else match QueryUnescape(s[3..])
        case None => None
        case Some(rest) => Some([(16 * HexValue(s[1]) + HexValue(s[2])) as char] + rest)
    else match QueryUnescape(s[1..])
      case None => None
      case Some(rest) => Some([if s[0] == '+' then ' ' else s[0]] + rest)
  }

  /** How a byte may be written in a query: as itself, a space as a plus, any as two hex digits after a percent sign. */
  predicate Writes(part: string, c: char) {
    || (part == [c] && c != '%' && c != '+')
    || (part == "+" && c == ' ')
    || (|part| == 3 && part[0] == '%' && IsHex(part[1]) && IsHex(part[2]) && 16 * HexValue(part[1]) + HexValue(part[2]) == c as int)
  }

  /** The text is the bytes of `s`, each written so. */
  ghost predicate WritesAll(text: string, s: string)
    decreases |s|
  {
    if s == "" then text == ""
    else exists n: nat :: n <= |text| && Writes(text[..n], s[0]) && WritesAll(text[n..], s[1..])
  }

  /** A query is decoded to exactly the bytes it writes, and is refused exactly when it writes none. */
  lemma {:induction false} UnescapesExactly(text: string, s: string)
    ensures QueryUnescape(text) == Some(s) <==> WritesAll(text, s)
    decreases |text|
  {
    if text != "" && s != "" {
      var n := if text[0] == '%' then 3 else 1;
      FirstPart(text, s[0]);
      if n <= |text| {
        HeadDecodes(text, s);
        UnescapesExactly(text[n..], s[1..]);
        hide Writes, QueryUnescape;
        if Writes(text[..n], s[0]) && WritesAll(text[n..], s[1..]) { assert WritesAll(text, s); }
      }
    }
  }

  lemma HeadDecodes(text: string, s: string)
    requires text != "" && s != ""
    ensures var n := if text[0] == '%' then 3 else 1;
            n <= |text| ==> (QueryUnescape(text) == Some(s) <==> Writes(text[..n], s[0]) && QueryUnescape(text[n..]) == Some(s[1..]))
  {
    var n := if text[0] == '%' then 3 else 1;
    if n <= |text| {
      var part := text[..n];
      assert part[0] == text[0] && (n == 3 ==> part[1] == text[1] && part[2] == text[2]);
      assert s == [s[0]] + s[1..];
      var rest := QueryUnescape(text[n..]);
      if rest.Some? && QueryUnescape(text).Some? {
        assert QueryUnescape(text).value[1..] == rest.value;
      }
    }
  }

  lemma FirstPart(text: string, c: char)
    requires text != ""
    ensures forall n: nat :: n <= |text| && Writes(text[..n], c) ==> n == if text[0] == '%' then 3 else 1
  {
    forall n: nat | n <= |text| && Writes(text[..n], c) ensures n == if text[0] == '%' then 3 else 1 {
      assert n > 0 ==> text[..n][0] == text[0];
    }
  }

  // ----- pruning -----

  const ALWAYS_IGNORED: set<string> :=
    {"requestId", "RequestId", "ResponseMetadata", "nextToken", "NextToken", "IsTruncated", "Marker"}

  /** The index-free paths a diff prunes and those it compares URL-decoded. */
  datatype Rules = Rules(ignore: set<string>, decode: set<string>)

  function Decoded(rules: Rules, text: string, shape: string): string {
    if shape in rules.decode && QueryUnescape(text).Some? then QueryUnescape(text).value else text
  }

  predicate Ignored(rules: Rules, k: Tree, shape: string) {
    k.name in ALWAYS_IGNORED || Join(shape, k.name) in rules.ignore
  }

  /** `treeDiffer.prune`: None when nothing under `t` is compared. */
  function Prune(rules: Rules, t: Tree, shape: string): (r: Option<Tree>)
    ensures r.Some? ==> !r.value.Blank() && Full(r.value)
    ensures r.Some? ==> r.value.Group() == t.Group() && r.value.kind == t.kind && r.value.index == t.index
    decreases t, 1
  {
    var c := t.(text := Decoded(rules, t.text, shape), kids := PruneKids(rules, t.kids, shape));
    if c.Blank() then None else Some(c)
  }

  function PruneKids(rules: Rules, kids: seq<Tree>, shape: string): (r: seq<Tree>)
    ensures forall k :: k in r ==> !k.Blank() && Full(k)
    decreases kids, 0
  {
    if kids == [] then []
    else
      var rest := PruneKids(rules, kids[1..], shape);
      if Ignored(rules, kids[0], shape) then rest
      else match Prune(rules, kids[0], Join(shape, kids[0].name))
        case None => rest
        case Some(k) => [k] + rest
  }

  /** A root stays, emptied, when nothing under it is compared. */
  function PruneRoot(rules: Rules, t: Tree): (r: Tree)
    ensures Full(r)
  {
    match Prune(rules, t, "")
    case Some(p) => p
    case None => EMPTY.(name := t.name, json := t.json)
  }

  // ----- the diff of two bodies -----

  function RootPath(t: Tree): (r: string)
    ensures r != ""
  {
    if t.name == "" then "." else Label(t.name, t.json)
  }

  function NameRoot(paths: seq<string>, t: Tree): (r: seq<string>)
    ensures |r| == |paths|
  {
    seq(|paths|, i requires 0 <= i < |paths| => if paths[i] == "" then RootPath(t) else paths[i])
  }

  /** Roots are told apart by name only when both have one. */
  predicate NamesAgree(a: Tree, b: Tree) {
    a.name == "" || b.name == "" || a.name == b.name
  }

  function OrEmpty(t: Option<Tree>): Tree {
    match t
    case None => EMPTY
    case Some(x) => x
  }

  /** `diffIgnoring`; a missing tree is an empty body. */
  function DiffIgnoring(hash: string -> nat, rules: Rules, recorded: Option<Tree>, rendered: Option<Tree>): Paths {
    var a, b := OrEmpty(recorded), OrEmpty(rendered);
    if !NamesAgree(a, b) then Paths([RootPath(a)], [RootPath(b)])
    else
      var p := Node(hash, PruneRoot(rules, a), PruneRoot(rules, b));
      Paths(Sort(NameRoot(p.rec, a)), Sort(NameRoot(p.ren, b)))
  }

  // ----- parsed bodies -----

  /** What the two parsers build: XML text has no JSON kind, JSON objects have no text. */
  ghost predicate WellKinded(t: Tree, json: bool) {
    (if json then t.kind == TextNode ==> t.text == "" else t.kind == TextNode)
  }

  ghost predicate Parsed(t: Tree, json: bool) {
    WellKinded(t, json) && forall k :: k in t.kids ==> k.json == json && Parsed(k, json)
  }

  lemma {:induction false} ParsedIsUniform(t: Tree, json: bool)
    requires Parsed(t, json)
    ensures Uniform(t, json)
  {
    forall k | k in t.kids ensures Uniform(k, json) {
      ParsedIsUniform(k, json);
    }
  }

  lemma {:induction false} PruneKeepsParsed(rules: Rules, t: Tree, shape: string, json: bool)
    requires Parsed(t, json)
    ensures var r := Prune(rules, t, shape); r.Some? ==> Parsed(r.value, json)
    decreases t, 1
  {
    PruneKidsKeepsParsed(rules, t.kids, shape, json);
    assert QueryUnescape("") == Some("");
  }

  lemma {:induction false} PruneKidsKeepsParsed(rules: Rules, kids: seq<Tree>, shape: string, json: bool)
    requires forall k :: k in kids ==> k.json == json && Parsed(k, json)
    ensures forall k :: k in PruneKids(rules, kids, shape) ==> k.json == json && Parsed(k, json)
    decreases kids, 0
  {
    if kids != [] {
      PruneKidsKeepsParsed(rules, kids[1..], shape, json);
      PruneKeepsParsed(rules, kids[0], Join(shape, kids[0].name), json);
    }
  }

  lemma PruneRootKeepsParsed(rules: Rules, t: Tree, json: bool)
    requires Parsed(t, json)
    ensures Parsed(PruneRoot(rules, t), json)
  {
    PruneKeepsParsed(rules, t, "", json);
  }

  // ----- bodies of different protocols -----

  /** Spellings that agree share a kid's form, whatever the protocols. */
  lemma SharedKidForm(a: Tree, b: Tree) returns (x: Tree, y: Tree)
    requires Form(a) == Form(b) && (a.kids != [] || b.kids != [])
    ensures x in a.kids && y in b.kids && Form(x) == Form(y)
  {
    var ka, kb, fa, fb := Keys(a.kids), Keys(b.kids), KidForms(a), KidForms(b);
    var oa, ob := Order(ka), Order(kb);
    HeadCancels(a.kind, a.text, Spell(oa, ka, fa), b.kind, b.text, Spell(ob, kb, fb));
    SpellInjective(oa, ka, fa, ob, kb, fb);
    hide Form, Spell, Order, Head;
    assert (ka != [] ==> ka[0] in oa) && (kb != [] ==> kb[0] in ob);
    var g, h := oa[0], ob[0];
    assert g in oa;
    GroupIsPresent(ka, fa, g);
    var xs, ys := GroupOf(ka, fa, g), GroupOf(kb, fb, h);
    ArrangeKeepsElements(g, xs);
    ArrangeKeepsElements(h, ys);
    assert xs[0] in ys;
    x := KidWithForm(a, g, xs[0]);
    y := KidWithForm(b, h, xs[0]);
  }

  lemma KidWithForm(t: Tree, g: GroupKey, f: string) returns (k: Tree)
    requires f in GroupOf(Keys(t.kids), KidForms(t), g)
    ensures k in t.kids && Form(k) == f
  {
    hide Form;
    var keys := Keys(t.kids);
    var l :| 0 <= l < |Indices(keys, g)| && GroupOf(keys, KidForms(t), g)[l] == f;
    k := t.kids[Indices(keys, g)[l]];
  }

  lemma ArrangeKeepsElements(g: GroupKey, forms: seq<string>)
    ensures forall f :: f in forms <==> f in Arrange(g, forms)
  {
    assert forall f :: f in forms <==> f in multiset(forms);
    assert forall f :: f in Arrange(g, forms) <==> f in multiset(Arrange(g, forms));
  }

  /** A JSON body and an XML one share a form only when neither holds anything below its root. */
  lemma {:induction false} FormTellsProtocol(a: Tree, b: Tree)
    requires Parsed(a, true) && Full(a) && Parsed(b, false) && Full(b)
    requires Form(a) == Form(b)
    ensures a.kids == [] && b.kids == []
    decreases a
  {
    if a.kids != [] || b.kids != [] {
      var x, y := SharedKidForm(a, b);
      FormTellsProtocol(x, y);
      HeadCancels(x.kind, x.text, Spell(Order(Keys(x.kids)), Keys(x.kids), KidForms(x)),
                  y.kind, y.text, Spell(Order(Keys(y.kids)), Keys(y.kids), KidForms(y)));
    }
  }

  lemma LoudGroupIsNamed(hash: string -> nat, a: Tree, b: Tree, g: GroupKey)
    requires g in Keys(a.kids) || g in Keys(b.kids)
    requires !Quiet(hash, GroupPlan(hash, g, KidsIn(a, g), KidsIn(b, g)))
    ensures !Node(hash, a, b).Empty()
  {
    var order := BothOrders(Keys(a.kids), Keys(b.kids));
    PlanIsQuiet(hash, order, a, b);
    RunIsEmpty(hash, Plan(hash, order, a, b), a, b);
  }

  /** A group only the recording holds is always named. */
  lemma LoneGroupIsNamed(hash: string -> nat, a: Tree, b: Tree, g: GroupKey, json: bool)
    requires Uniform(a, json) && Full(a)
    requires g in Keys(a.kids) && g !in Keys(b.kids)
    ensures !Node(hash, a, b).Empty()
  {
    var kidsA := KidsIn(a, g);
    GroupIsPresent(Keys(a.kids), a.kids, g);
    GroupIsPresent(Keys(b.kids), b.kids, g);
    forall x | x in kidsA ensures Node(hash, x, EMPTY).Empty() <==> Form(x) == Form(EMPTY) {
      NoPathsMeansEqualForms(hash, x, EMPTY, json);
    }
    GroupDecides(hash, g, kidsA, [], json);
    assert |multiset(FormsOf(kidsA))| == |FormsOf(kidsA)| > 0;
    LoudGroupIsNamed(hash, a, b, g);
  }

  /** The agreement of the two definitions of equal, for any two parsed and pruned bodies. */
  lemma NodeAgreesWithForm(hash: string -> nat, a: Tree, b: Tree, jsonA: bool, jsonB: bool)
    requires Parsed(a, jsonA) && Full(a) && Parsed(b, jsonB) && Full(b)
    ensures Node(hash, a, b).Empty() <==> Form(a) == Form(b)
  {
    ParsedIsUniform(a, jsonA);
    ParsedIsUniform(b, jsonB);
    if jsonA == jsonB {
      NoPathsMeansEqualForms(hash, a, b, jsonA);
    } else if a.kids == [] {
      NoPathsMeansEqualForms(hash, a, b, jsonB);
    } else if b.kids == [] {
      NoPathsMeansEqualForms(hash, a, b, jsonA);
    } else {
      UniformKeys(a, jsonA);
      UniformKeys(b, jsonB);
      assert Keys(a.kids)[0] in Keys(a.kids);
      LoneGroupIsNamed(hash, a, b, Keys(a.kids)[0], jsonA);
      if Form(a) == Form(b) {
        if jsonA { FormTellsProtocol(a, b); } else { FormTellsProtocol(b, a); }
      }
    }
  }

  // ----- `Diff` is empty -----

  /** A body some parser built, or none. */
  ghost predicate IsBody(t: Option<Tree>) {
    t.Some? ==> Parsed(t.value, true) || Parsed(t.value, false)
  }

  /** `Diff` names nothing on either side. */
  ghost predicate Same(hash: string -> nat, rules: Rules, a: Option<Tree>, b: Option<Tree>) {
    DiffIgnoring(hash, rules, a, b).Empty()
  }

  function PrunedForm(rules: Rules, t: Option<Tree>): string {
    Form(PruneRoot(rules, OrEmpty(t)))
  }

  lemma BodyIsParsed(t: Option<Tree>) returns (json: bool)
    requires IsBody(t)
    ensures Parsed(OrEmpty(t), json)
  {
    json := Parsed(OrEmpty(t), true);
  }

  lemma SameIsEqualForms(hash: string -> nat, rules: Rules, a: Option<Tree>, b: Option<Tree>)
    requires IsBody(a) && IsBody(b)
    ensures Same(hash, rules, a, b) <==>
            NamesAgree(OrEmpty(a), OrEmpty(b)) && PrunedForm(rules, a) == PrunedForm(rules, b)
  {
    var jsonA := BodyIsParsed(a);
    var jsonB := BodyIsParsed(b);
    var x, y := OrEmpty(a), OrEmpty(b);
    PruneRootKeepsParsed(rules, x, jsonA);
    PruneRootKeepsParsed(rules, y, jsonB);
    NodeAgreesWithForm(hash, PruneRoot(rules, x), PruneRoot(rules, y), jsonA, jsonB);
  }

  /** `Diff` compares meanings: text, kind, fields by position, set members as multisets. */
  lemma SameIsEqualMeaning(hash: string -> nat, rules: Rules, a: Option<Tree>, b: Option<Tree>, json: bool)
    requires Parsed(OrEmpty(a), json) && Parsed(OrEmpty(b), json)
    ensures Same(hash, rules, a, b) <==>
            && NamesAgree(OrEmpty(a), OrEmpty(b))
            && MeaningOf(PruneRoot(rules, OrEmpty(a))) == MeaningOf(PruneRoot(rules, OrEmpty(b)))
  {
    SameIsEqualForms(hash, rules, a, b);
    PruneRootKeepsParsed(rules, OrEmpty(a), json);
    PruneRootKeepsParsed(rules, OrEmpty(b), json);
    ParsedIsUniform(PruneRoot(rules, OrEmpty(a)), json);
    ParsedIsUniform(PruneRoot(rules, OrEmpty(b)), json);
    FormIsMeaning(PruneRoot(rules, OrEmpty(a)), PruneRoot(rules, OrEmpty(b)), json);
  }

  lemma SameIsReflexiveSymmetric(hash: string -> nat, rules: Rules, a: Option<Tree>, b: Option<Tree>)
    requires IsBody(a) && IsBody(b)
    ensures Same(hash, rules, a, a)
    ensures Same(hash, rules, a, b) <==> Same(hash, rules, b, a)
  {
    SameIsEqualForms(hash, rules, a, a);
    SameIsEqualForms(hash, rules, a, b);
    SameIsEqualForms(hash, rules, b, a);
  }

  /**
   * Two bodies each the same as a third are the same as one another exactly
   * when their root names agree: only an unnamed third lets them differ.
   */
  lemma SameIsTransitiveUpToNames(hash: string -> nat, rules: Rules, a: Option<Tree>, b: Option<Tree>, c: Option<Tree>)
    requires IsBody(a) && IsBody(b) && IsBody(c)
    requires Same(hash, rules, a, b) && Same(hash, rules, b, c)
    ensures Same(hash, rules, a, c) <==> NamesAgree(OrEmpty(a), OrEmpty(c))
    ensures OrEmpty(b).name != "" ==> Same(hash, rules, a, c)
  {
    SameIsEqualForms(hash, rules, a, b);
    SameIsEqualForms(hash, rules, b, c);
    SameIsEqualForms(hash, rules, a, c);
  }

  /** An empty root element. */
  function EmptyRoot(name: string): Option<Tree> {
    Some(EMPTY.(name := name))
  }

  /** An absent body is the same as two empty bodies that differ by their root's name. */
  lemma SameIsNotTransitive(hash: string -> nat, rules: Rules, n: string, m: string)
    requires n != "" && m != "" && n != m
    ensures IsBody(EmptyRoot(n)) && IsBody(EmptyRoot(m))
    ensures Same(hash, rules, EmptyRoot(n), None) && Same(hash, rules, None, EmptyRoot(m))
    ensures !Same(hash, rules, EmptyRoot(n), EmptyRoot(m))
  {
    EmptyRootIsAbsent(hash, rules, n);
    EmptyRootIsAbsent(hash, rules, m);
    SameIsReflexiveSymmetric(hash, rules, EmptyRoot(m), None);
    SameIsEqualForms(hash, rules, EmptyRoot(n), EmptyRoot(m));
  }

  lemma EmptyRootIsAbsent(hash: string -> nat, rules: Rules, n: string)
    ensures IsBody(EmptyRoot(n)) && Same(hash, rules, EmptyRoot(n), None)
  {
    assert Parsed(EMPTY.(name := n), false);
    BlankRootForm(rules, EMPTY.(name := n));
    BlankRootForm(rules, EMPTY);
    SameIsEqualForms(hash, rules, EmptyRoot(n), None);
  }

  lemma BlankRootForm(rules: Rules, t: Tree)
    requires t.Blank()
    ensures Form(PruneRoot(rules, t)) == Head(TextNode, "")
  {
    assert QueryUnescape("") == Some("");
    assert PruneKids(rules, t.kids, "") == [];
    var p := PruneRoot(rules, t);
    assert p.kids == [] && p.kind == TextNode && p.text == "";
    assert Keys(p.kids) == [] && Distinct([]) == [] && Order([]) == [];
  }

  // ----- what pruning drops never matters -----

  /** A node no diff sees where it stands: ignored, or empty once pruned. */
  predicate Vanishes(rules: Rules, k: Tree, shape: string) {
    Ignored(rules, k, shape) || Prune(rules, k, Join(shape, k.name)) == None
  }

  /**
   * `u` is `t` less some vanishing nodes, at any depth; the kept nodes' indexes
   * may differ, as they do when a body is written again without the dropped ones.
   */
  ghost predicate Trims(rules: Rules, t: Tree, u: Tree, shape: string)
    decreases t, 1
  {
    && u.Group() == t.Group() && u.text == t.text && u.kind == t.kind
    && TrimsKids(rules, t.kids, u.kids, shape)
  }

  ghost predicate TrimsKids(rules: Rules, ts: seq<Tree>, us: seq<Tree>, shape: string)
    decreases ts, 0
  {
    if ts == [] then us == []
    else
      || (Vanishes(rules, ts[0], shape) && TrimsKids(rules, ts[1..], us, shape))
      || (us != [] && Trims(rules, ts[0], us[0], Join(shape, ts[0].name)) && TrimsKids(rules, ts[1..], us[1..], shape))
  }

  /** A tree with every index forgotten. */
  function Unindexed(t: Tree): (r: Tree)
    decreases t, 1
  {
    t.(index := 0, kids := UnindexedKids(t.kids))
  }

  function UnindexedKids(kids: seq<Tree>): (r: seq<Tree>)
    ensures |r| == |kids|
    ensures forall i :: 0 <= i < |r| ==> r[i] == Unindexed(kids[i])
    decreases kids, 0
  {
    if kids == [] then [] else [Unindexed(kids[0])] + UnindexedKids(kids[1..])
  }

  lemma {:induction false} FormIgnoresIndexes(t: Tree)
    ensures Form(Unindexed(t)) == Form(t)
    decreases t
  {
    var u := Unindexed(t);
    forall i | 0 <= i < |t.kids| ensures KidForms(u)[i] == KidForms(t)[i] && Keys(u.kids)[i] == Keys(t.kids)[i] {
      assert t.kids[i] in t.kids;
      FormIgnoresIndexes(t.kids[i]);
    }
    assert KidForms(u) == KidForms(t) && Keys(u.kids) == Keys(t.kids);
  }

  lemma {:induction false} TrimKeepsPruned(rules: Rules, t: Tree, u: Tree, shape: string)
    requires Trims(rules, t, u, shape)
    ensures var p, q := Prune(rules, t, shape), Prune(rules, u, shape);
            p.Some? == q.Some? && (p.Some? ==> Unindexed(p.value) == Unindexed(q.value))
    decreases t, 1
  {
    TrimKeepsPrunedKids(rules, t.kids, u.kids, shape);
    var p, q := PruneKids(rules, t.kids, shape), PruneKids(rules, u.kids, shape);
    assert |UnindexedKids(p)| == |UnindexedKids(q)|;
  }

  lemma {:induction false} TrimKeepsPrunedKids(rules: Rules, ts: seq<Tree>, us: seq<Tree>, shape: string)
    requires TrimsKids(rules, ts, us, shape)
    ensures UnindexedKids(PruneKids(rules, ts, shape)) == UnindexedKids(PruneKids(rules, us, shape))
    decreases ts, 0
  {
    if ts != [] {
      if Vanishes(rules, ts[0], shape) && TrimsKids(rules, ts[1..], us, shape) {
        TrimKeepsPrunedKids(rules, ts[1..], us, shape);
      } else {
        TrimKeepsPruned(rules, ts[0], us[0], Join(shape, ts[0].name));
        TrimKeepsPrunedKids(rules, ts[1..], us[1..], shape);
      }
    }
  }

  lemma PrunedFormIgnoresTrim(rules: Rules, t: Tree, u: Tree)
    requires Trims(rules, t, u, "")
    ensures Form(PruneRoot(rules, t)) == Form(PruneRoot(rules, u))
  {
    TrimKeepsPruned(rules, t, u, "");
    FormIgnoresIndexes(PruneRoot(rules, t));
    FormIgnoresIndexes(PruneRoot(rules, u));
  }

  /** Adding or removing empty or ignored nodes, at any depth, never changes whether a body is the same as another. */
  lemma TrimNeverMatters(hash: string -> nat, rules: Rules, t: Tree, u: Tree, other: Option<Tree>)
    requires Trims(rules, t, u, "")
    requires IsBody(Some(t)) && IsBody(Some(u)) && IsBody(other)
    ensures Same(hash, rules, Some(t), other) <==> Same(hash, rules, Some(u), other)
    ensures Same(hash, rules, Some(t), Some(u))
  {
    PrunedFormIgnoresTrim(rules, t, u);
    SameIsEqualForms(hash, rules, Some(t), other);
    SameIsEqualForms(hash, rules, Some(u), other);
    SameIsEqualForms(hash, rules, Some(t), Some(u));
  }
}
