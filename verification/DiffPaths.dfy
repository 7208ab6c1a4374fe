/**
 * Which paths a diff names: the spellings of chains of kids, from the pruned roots
 * down to the values that differ and to the set members left over.
 */
module DiffPaths {
  import opened Options
  import opened Text
  import opened Trees
  import opened Members
  import opened TreeDiff
  import opened Diff

  /** Whose paths: the recording's or the rendering's. */
  datatype Side = Recording | Rendering

  function On<T>(side: Side, a: T, b: T): T {
    if side.Recording? then a else b
  }

  function Named(p: Paths, side: Side): seq<string> {
    On(side, p.rec, p.ren)
  }

  // ----- a node's kids, by group and place -----

  /** Where among the first `p` kids the group's are. */
  function Before(t: Tree, g: GroupKey, p: nat): set<nat> {
    set q: nat | q < p && q < |t.kids| && t.kids[q].Group() == g
  }

  function GroupSize(t: Tree, g: GroupKey): nat {
    |Before(t, g, |t.kids|)|
  }

  /** The group's kid with `i` of the group before it, or an empty node when there are not that many. */
  ghost predicate NthOrEmpty(t: Tree, g: GroupKey, i: nat, k: Tree) {
    if i < GroupSize(t, g) then exists p: nat :: p < |t.kids| && t.kids[p] == k && k.Group() == g && |Before(t, g, p)| == i
    else k == EMPTY
  }

  lemma {:induction false} SizeOfAscending(at: seq<nat>, i: nat)
    requires i <= |at| && forall k, l :: 0 <= k < l < |at| ==> at[k] < at[l]
    ensures |set k | 0 <= k < i :: at[k]| == i
  {
    if i > 0 {
      SizeOfAscending(at, i - 1);
      assert (set k | 0 <= k < i :: at[k]) == (set k | 0 <= k < i - 1 :: at[k]) + {at[i - 1]};
    }
  }

  function Firsts(at: seq<nat>, i: nat): set<nat>
    requires i <= |at|
  {
    set k | 0 <= k < i :: at[k]
  }

  lemma BeforeIsFirsts(t: Tree, g: GroupKey, i: nat, q: nat)
    requires i <= |Indices(Keys(t.kids), g)|
    ensures var at := Indices(Keys(t.kids), g);
            q in Before(t, g, if i < |at| then at[i] else |t.kids|) <==> q in Firsts(at, i)
  {
    var keys := Keys(t.kids);
    var at := Indices(keys, g);
    hide Indices;
    if q < |keys| && keys[q] == g {
      var k :| 0 <= k < |at| && at[k] == q;
      assert k < i ==> at[k] in Firsts(at, i);
    }
  }

  lemma BeforeIsPrefix(t: Tree, g: GroupKey, i: nat)
    requires i <= |Indices(Keys(t.kids), g)|
    ensures var at := Indices(Keys(t.kids), g);
            |Before(t, g, if i < |at| then at[i] else |t.kids|)| == i
  {
    var at := Indices(Keys(t.kids), g);
    var p := if i < |at| then at[i] else |t.kids|;
    SizeOfAscending(at, i);
    forall q: nat ensures q in Before(t, g, p) <==> q in Firsts(at, i) {
      BeforeIsFirsts(t, g, i, q);
    }
    hide Before, Indices, Keys;
    assert Before(t, g, p) == Firsts(at, i);
  }

  /** The group's i-th kid is the one `Node` compares there. */
  lemma NthIsAt(t: Tree, g: GroupKey, i: nat)
    ensures GroupSize(t, g) == |KidsIn(t, g)|
    ensures forall k :: NthOrEmpty(t, g, i, k) <==> k == At(KidsIn(t, g), i)
  {
    var at := Indices(Keys(t.kids), g);
    BeforeIsPrefix(t, g, |at|);
    if i < |at| {
      BeforeIsPrefix(t, g, i);
      PlaceIsIndex(t, g, i);
    }
    hide Before;
  }

  lemma PlaceIsIndex(t: Tree, g: GroupKey, i: nat)
    requires i < |Indices(Keys(t.kids), g)|
    ensures forall p: nat :: p < |t.kids| && t.kids[p].Group() == g && |Before(t, g, p)| == i ==> p == Indices(Keys(t.kids), g)[i]
  {
    var keys := Keys(t.kids);
    var at := Indices(keys, g);
    forall p: nat | p < |t.kids| && t.kids[p].Group() == g && |Before(t, g, p)| == i ensures p == at[i] {
      assert keys[p] == g;
      var j :| 0 <= j < |at| && at[j] == p;
      BeforeIsPrefix(t, g, j);
    }
  }

  // ----- links: the kids two nodes are compared by -----

  /** Two kids of a group compared with each other; an empty node stands for none. */
  datatype Link = Link(group: GroupKey, a: Tree, b: Tree)

  /** Fields of one name are compared place by place. */
  ghost predicate FieldLink(x: Tree, y: Tree, l: Link) {
    && !l.group.member
    && exists i: nat ::
         && (i < GroupSize(x, l.group) || i < GroupSize(y, l.group))
         && NthOrEmpty(x, l.group, i, l.a) && NthOrEmpty(y, l.group, i, l.b)
  }

  /** Set members are compared in the pairs chosen. */
  ghost predicate MemberLink(hash: string -> nat, x: Tree, y: Tree, l: Link) {
    && l.group.member
    && var as_, bs := KidsIn(x, l.group), KidsIn(y, l.group);
       exists c :: c in ChosenOf(hash, as_, bs) && l.a == as_[c.i] && l.b == bs[c.j]
  }

  ghost predicate Linked(hash: string -> nat, x: Tree, y: Tree, l: Link) {
    FieldLink(x, y, l) || MemberLink(hash, x, y, l)
  }

  /** A set member with no counterpart. */
  ghost predicate Spare(hash: string -> nat, x: Tree, y: Tree, side: Side, g: GroupKey, k: Tree) {
    && g.member
    && var as_, bs := KidsIn(x, g), KidsIn(y, g);
       var u, chosen := UnmatchedOf(as_, bs), ChosenOf(hash, as_, bs);
       match side
       case Recording => exists n :: n in Surplus(as_, u.a, Usedi(chosen)) && n < |as_| && k == as_[n]
       case Rendering => exists n :: n in Surplus(bs, u.b, Usedj(chosen)) && n < |bs| && k == bs[n]
  }

  // ----- spelling -----

  predicate LetterOrDigit(c: char) {
    'a' <= c <= 'z' || 'A' <= c <= 'Z' || '0' <= c <= '9'
  }

  /** Letters and digits, the first a letter. */
  predicate LettersAndDigits(word: string) {
    word != "" && !('0' <= word[0] <= '9') && forall i :: 0 <= i < |word| ==> LetterOrDigit(word[i])
  }

  /** How the protocol spells a member: with a capital first in JSON, and after an @ for an attribute in XML. */
  predicate SpeltAsMember(name: string, json: bool) {
    if json then LettersAndDigits(name) && 'A' <= name[0] <= 'Z'
    else LettersAndDigits(name) || (name != "" && name[0] == '@' && LettersAndDigits(name[1..]))
  }

  /** A name as a path shows it: any other than a member's is data. */
  function Shown(name: string, json: bool): string {
    if name == "" || SpeltAsMember(name, json) then name else "{key}"
  }

  lemma WordIs(s: string)
    ensures IsWord(s) == LettersAndDigits(s)
  {
    assert forall i :: 0 <= i < |s| ==> IsAlphaNumeric(s[i]) == LetterOrDigit(s[i]);
  }

  lemma ShownIsLabel(name: string, json: bool)
    ensures Shown(name, json) == Label(name, json)
  {
    if name != "" {
      WordIs(name);
      WordIs(name[1..]);
      if name[0] == '@' { assert !LetterOrDigit(name[0]); }
    }
  }

  /** A place shows on set members, on repeated names, and on kids that are not the first of their name. */
  predicate ShowsPlace(x: Tree, y: Tree, l: Link) {
    l.group.member || GroupSize(x, l.group) > 1 || GroupSize(y, l.group) > 1 || l.a.index > 0 || l.b.index > 0
  }

  function WithPlace(g: GroupKey, k: Tree): string {
    Shown(g.name, g.json) + "[" + Itoa(k.index) + "]"
  }

  function Segment(x: Tree, y: Tree, l: Link, side: Side): string {
    if ShowsPlace(x, y, l) then WithPlace(l.group, On(side, l.a, l.b)) else Shown(l.group.name, l.group.json)
  }

  /** Segments joined by slashes, those of unnamed kids left out. */
  function Slashed(segs: seq<string>): string {
    if segs == [] then ""
    else
      var rest := Slashed(segs[1..]);
      if segs[0] == "" then rest else if rest == "" then segs[0] else segs[0] + "/" + rest
  }

  // ----- chains -----

  /** Each link is between kids of the nodes the one before it compares. */
  ghost predicate Chain(hash: string -> nat, x: Tree, y: Tree, ls: seq<Link>)
    decreases |ls|
  {
    ls == [] || (Linked(hash, x, y, ls[0]) && Chain(hash, ls[0].a, ls[0].b, ls[1..]))
  }

  function Spelling(x: Tree, y: Tree, ls: seq<Link>, side: Side): seq<string>
    decreases |ls|
  {
    if ls == [] then [] else [Segment(x, y, ls[0], side)] + Spelling(ls[0].a, ls[0].b, ls[1..], side)
  }

  /** The node of a side that a chain ends at. */
  function EndOf(x: Tree, y: Tree, ls: seq<Link>, side: Side): Tree {
    if ls == [] then On(side, x, y) else On(side, ls[|ls| - 1].a, ls[|ls| - 1].b)
  }

  /** The chain ends at two nodes of different values, and this side's has one. */
  ghost predicate EndsInValue(x: Tree, y: Tree, ls: seq<Link>, side: Side) {
    var a, b := EndOf(x, y, ls, Recording), EndOf(x, y, ls, Rendering);
    (a.text != b.text || a.kind != b.kind) && EndOf(x, y, ls, side).Valued()
  }

  ghost predicate ValueAt(hash: string -> nat, x: Tree, y: Tree, ls: seq<Link>, side: Side, p: string) {
    Chain(hash, x, y, ls) && EndsInValue(x, y, ls, side) && p == Slashed(Spelling(x, y, ls, side))
  }

  ghost predicate MemberAt(hash: string -> nat, x: Tree, y: Tree, ls: seq<Link>, side: Side, g: GroupKey, k: Tree, p: string) {
    && Chain(hash, x, y, ls) && Spare(hash, EndOf(x, y, ls, Recording), EndOf(x, y, ls, Rendering), side, g, k)
    && p == Slashed(Spelling(x, y, ls, side) + [WithPlace(g, k)])
  }

  /** The path spells a chain to a value that differs, or to a member left over. */
  ghost predicate Differs(hash: string -> nat, x: Tree, y: Tree, side: Side, p: string) {
    || (exists ls :: ValueAt(hash, x, y, ls, side, p))
    || (exists ls, g, k :: MemberAt(hash, x, y, ls, side, g, k, p))
  }

  // ----- a chain's first link -----

  ghost predicate OwnDiffers(x: Tree, y: Tree, side: Side, p: string) {
    p == "" && (x.text != y.text || x.kind != y.kind) && On(side, x, y).Valued()
  }

  ghost predicate SpareDiffers(hash: string -> nat, x: Tree, y: Tree, side: Side, p: string) {
    exists g, k :: Spare(hash, x, y, side, g, k) && p == WithPlace(g, k)
  }

  ghost predicate LinkDiffers(hash: string -> nat, x: Tree, y: Tree, side: Side, l: Link, rel: string, p: string) {
    Linked(hash, x, y, l) && Differs(hash, l.a, l.b, side, rel) && p == Slashed([Segment(x, y, l, side), rel])
  }

  ghost predicate BelowDiffers(hash: string -> nat, x: Tree, y: Tree, side: Side, p: string) {
    exists l, rel :: LinkDiffers(hash, x, y, side, l, rel, p)
  }

  lemma SlashedHead(seg: string, segs: seq<string>)
    ensures Slashed([seg] + segs) == Slashed([seg, Slashed(segs)])
  {
    assert ([seg] + segs)[1..] == segs;
    assert [seg, Slashed(segs)][1..] == [Slashed(segs)];
    SlashedOne(Slashed(segs));
  }

  lemma SlashedOne(seg: string)
    ensures Slashed([seg]) == seg
  {
    assert [seg][1..] == [];
  }

  lemma EndOfTail(x: Tree, y: Tree, ls: seq<Link>, side: Side)
    requires ls != []
    ensures EndOf(x, y, ls, side) == EndOf(ls[0].a, ls[0].b, ls[1..], side)
  {
  }

  lemma ValueSteps(hash: string -> nat, x: Tree, y: Tree, ls: seq<Link>, side: Side, p: string)
    requires ValueAt(hash, x, y, ls, side, p)
    ensures OwnDiffers(x, y, side, p) || BelowDiffers(hash, x, y, side, p)
  {
    hide Linked, Segment;
    if ls != [] {
      var l, rest := ls[0], ls[1..];
      EndOfTail(x, y, ls, Recording);
      EndOfTail(x, y, ls, Rendering);
      var rel := Slashed(Spelling(l.a, l.b, rest, side));
      assert ValueAt(hash, l.a, l.b, rest, side, rel);
      SlashedHead(Segment(x, y, l, side), Spelling(l.a, l.b, rest, side));
      hide ValueAt, Slashed;
      assert LinkDiffers(hash, x, y, side, l, rel, p);
    }
  }

  lemma MemberSteps(hash: string -> nat, x: Tree, y: Tree, ls: seq<Link>, side: Side, g: GroupKey, k: Tree, p: string)
    requires MemberAt(hash, x, y, ls, side, g, k, p)
    ensures SpareDiffers(hash, x, y, side, p) || BelowDiffers(hash, x, y, side, p)
  {
    hide Linked, Segment, Spare, WithPlace;
    if ls == [] {
      SlashedOne(WithPlace(g, k));
      assert Spelling(x, y, ls, side) + [WithPlace(g, k)] == [WithPlace(g, k)];
    } else {
      var l, rest := ls[0], ls[1..];
      EndOfTail(x, y, ls, Recording);
      EndOfTail(x, y, ls, Rendering);
      var segs := Spelling(l.a, l.b, rest, side) + [WithPlace(g, k)];
      var rel := Slashed(segs);
      assert MemberAt(hash, l.a, l.b, rest, side, g, k, rel);
      assert Spelling(x, y, ls, side) + [WithPlace(g, k)] == [Segment(x, y, l, side)] + segs;
      SlashedHead(Segment(x, y, l, side), segs);
      hide MemberAt, Slashed;
      assert LinkDiffers(hash, x, y, side, l, rel, p);
    }
  }

  lemma LinkExtends(hash: string -> nat, x: Tree, y: Tree, side: Side, l: Link, rel: string, p: string)
    requires LinkDiffers(hash, x, y, side, l, rel, p)
    ensures Differs(hash, x, y, side, p)
  {
    hide Linked, Segment, Spare, WithPlace;
    if rest :| ValueAt(hash, l.a, l.b, rest, side, rel) {
      var ls := [l] + rest;
      assert ls[1..] == rest;
      EndOfTail(x, y, ls, Recording);
      EndOfTail(x, y, ls, Rendering);
      SlashedHead(Segment(x, y, l, side), Spelling(l.a, l.b, rest, side));
      assert ValueAt(hash, x, y, ls, side, p);
    } else {
      var rest, g, k :| MemberAt(hash, l.a, l.b, rest, side, g, k, rel);
      var ls := [l] + rest;
      assert ls[1..] == rest;
      EndOfTail(x, y, ls, Recording);
      EndOfTail(x, y, ls, Rendering);
      var segs := Spelling(l.a, l.b, rest, side) + [WithPlace(g, k)];
      SlashedHead(Segment(x, y, l, side), segs);
      assert Spelling(x, y, ls, side) + [WithPlace(g, k)] == [Segment(x, y, l, side)] + segs;
      assert MemberAt(hash, x, y, ls, side, g, k, p);
    }
  }

  lemma HereDiffers(hash: string -> nat, x: Tree, y: Tree, side: Side, p: string)
    ensures OwnDiffers(x, y, side, p) ==> Differs(hash, x, y, side, p)
    ensures SpareDiffers(hash, x, y, side, p) ==> Differs(hash, x, y, side, p)
  {
    hide Spare, WithPlace;
    if OwnDiffers(x, y, side, p) { assert ValueAt(hash, x, y, [], side, p); }
    if g, k :| Spare(hash, x, y, side, g, k) && p == WithPlace(g, k) {
      SlashedOne(p);
      assert Spelling(x, y, [], side) + [p] == [p];
      assert MemberAt(hash, x, y, [], side, g, k, p);
    }
  }

  /** A path that differs is the node's own, a member's here, or one below a link. */
  lemma DiffersSteps(hash: string -> nat, x: Tree, y: Tree, side: Side, p: string)
    ensures Differs(hash, x, y, side, p) <==>
            OwnDiffers(x, y, side, p) || SpareDiffers(hash, x, y, side, p) || BelowDiffers(hash, x, y, side, p)
  {
    hide ValueAt, MemberAt, OwnDiffers, SpareDiffers, LinkDiffers;
    HereDiffers(hash, x, y, side, p);
    if BelowDiffers(hash, x, y, side, p) {
      var l, rel :| LinkDiffers(hash, x, y, side, l, rel, p);
      LinkExtends(hash, x, y, side, l, rel, p);
    }
    if Differs(hash, x, y, side, p) {
      if ls :| ValueAt(hash, x, y, ls, side, p) {
        ValueSteps(hash, x, y, ls, side, p);
      } else {
        var ls, g, k :| MemberAt(hash, x, y, ls, side, g, k, p);
        MemberSteps(hash, x, y, ls, side, g, k, p);
      }
    }
  }

  // ----- what a node diff names, entry by entry -----

  /** The path is one the comparison names on this side. */
  ghost predicate EntryNames(hash: string -> nat, e: Entry, side: Side, p: string) {
    match e
    case Pair(segA, segB, a, b) =>
      exists rel :: rel in Named(Node(hash, a, b), side) && p == Join(On(side, segA, segB), rel)
    case RecordedOnly(seg) => side == Recording && p == seg
    case RenderedOnly(seg) => side == Rendering && p == seg
  }

  lemma UnderNames(seg: string, rels: seq<string>, p: string)
    ensures p in Under(seg, rels) <==> exists rel :: rel in rels && p == Join(seg, rel)
  {
    hide Join;
    var under := Under(seg, rels);
    if rel :| rel in rels && p == Join(seg, rel) {
      var i :| 0 <= i < |rels| && rels[i] == rel;
      assert under[i] == p;
    }
  }

  lemma EntryPathsNamed(hash: string -> nat, e: Entry, a: Tree, b: Tree, side: Side, p: string)
    requires Within([e], a.kids, b.kids)
    ensures p in Named(EntryPaths(hash, e, a, b), side) <==> EntryNames(hash, e, side, p)
  {
    hide Node, Join, Under;
    if e.Pair? {
      var r := Node(hash, e.a, e.b);
      if side == Recording {
        UnderNames(e.segA, r.rec, p);
        assert Named(EntryPaths(hash, e, a, b), side) == Under(e.segA, r.rec) && Named(r, side) == r.rec;
      } else {
        UnderNames(e.segB, r.ren, p);
        assert Named(EntryPaths(hash, e, a, b), side) == Under(e.segB, r.ren) && Named(r, side) == r.ren;
      }
    }
  }

  lemma {:induction false} RunNames(hash: string -> nat, plan: seq<Entry>, a: Tree, b: Tree, side: Side, p: string)
    requires Within(plan, a.kids, b.kids)
    ensures p in Named(Run(hash, plan, a, b), side) <==> exists e :: e in plan && EntryNames(hash, e, side, p)
  {
    if plan != [] {
      EntryPathsNamed(hash, plan[0], a, b, side, p);
      hide EntryPaths, EntryNames;
      RunNames(hash, plan[1..], a, b, side, p);
      assert forall e :: e in plan <==> e == plan[0] || e in plan[1..];
    }
  }

  lemma {:induction false} PlanHolds(hash: string -> nat, order: seq<GroupKey>, x: Tree, y: Tree, e: Entry)
    ensures e in Plan(hash, order, x, y) <==> exists g :: g in order && e in GroupPlan(hash, g, KidsIn(x, g), KidsIn(y, g))
  {
    hide GroupPlan, KidsIn;
    if order != [] {
      PlanHolds(hash, order[1..], x, y, e);
      assert forall g :: g in order <==> g == order[0] || g in order[1..];
    }
  }

  // ----- entries are links and spare members -----

  /** The entry of a link, or of a member left over. */
  ghost predicate GroupEntry(hash: string -> nat, x: Tree, y: Tree, g: GroupKey, e: Entry) {
    match e
    case Pair(segA, segB, a, b) =>
      var l := Link(g, a, b);
      Linked(hash, x, y, l) && segA == Segment(x, y, l, Recording) && segB == Segment(x, y, l, Rendering)
    case RecordedOnly(seg) => exists k :: Spare(hash, x, y, Recording, g, k) && seg == WithPlace(g, k)
    case RenderedOnly(seg) => exists k :: Spare(hash, x, y, Rendering, g, k) && seg == WithPlace(g, k)
  }

  lemma FieldEntryIs(x: Tree, y: Tree, g: GroupKey, i: nat)
    requires !g.member
    ensures var e, l := FieldEntry(Label(g.name, g.json), KidsIn(x, g), KidsIn(y, g), i), Link(g, At(KidsIn(x, g), i), At(KidsIn(y, g), i));
            e == Pair(Segment(x, y, l, Recording), Segment(x, y, l, Rendering), l.a, l.b)
  {
    ShownIsLabel(g.name, g.json);
    NthIsAt(x, g, i);
    NthIsAt(y, g, i);
    hide Label, Shown, KidsIn, NthOrEmpty;
  }

  lemma FieldLinkIs(x: Tree, y: Tree, l: Link)
    requires !l.group.member
    ensures FieldLink(x, y, l) <==>
            exists i: nat :: i < Longer(|KidsIn(x, l.group)|, |KidsIn(y, l.group)|)
                          && l.a == At(KidsIn(x, l.group), i) && l.b == At(KidsIn(y, l.group), i)
  {
    hide KidsIn, NthOrEmpty, GroupSize;
    if FieldLink(x, y, l) {
      var i: nat :| (i < GroupSize(x, l.group) || i < GroupSize(y, l.group)) && NthOrEmpty(x, l.group, i, l.a) && NthOrEmpty(y, l.group, i, l.b);
      NthIsAt(x, l.group, i);
      NthIsAt(y, l.group, i);
    }
    if i: nat :| i < Longer(|KidsIn(x, l.group)|, |KidsIn(y, l.group)|)
                 && l.a == At(KidsIn(x, l.group), i) && l.b == At(KidsIn(y, l.group), i) {
      NthIsAt(x, l.group, i);
      NthIsAt(y, l.group, i);
      assert (i < GroupSize(x, l.group) || i < GroupSize(y, l.group)) && NthOrEmpty(x, l.group, i, l.a) && NthOrEmpty(y, l.group, i, l.b);
    }
  }

  lemma FieldEntries(hash: string -> nat, x: Tree, y: Tree, g: GroupKey, e: Entry)
    requires !g.member
    ensures e in GroupPlan(hash, g, KidsIn(x, g), KidsIn(y, g)) <==> GroupEntry(hash, x, y, g, e)
  {
    var as_, bs, name := KidsIn(x, g), KidsIn(y, g), Label(g.name, g.json);
    var plan := FieldPlan(name, as_, bs);
    hide KidsIn, Label, FieldEntry, Segment, FieldLink, At;
    if e in plan {
      var i: nat :| i < |plan| && plan[i] == e;
      FieldEntryIs(x, y, g, i);
      FieldLinkIs(x, y, Link(g, At(as_, i), At(bs, i)));
    }
    if GroupEntry(hash, x, y, g, e) {
      NoSpareField(hash, x, y, g);
      var l := Link(g, e.a, e.b);
      FieldLinkIs(x, y, l);
      var i: nat :| i < Longer(|as_|, |bs|) && l.a == At(as_, i) && l.b == At(bs, i);
      FieldEntryIs(x, y, g, i);
      assert plan[i] == e;
    }
  }

  lemma NoSpareField(hash: string -> nat, x: Tree, y: Tree, g: GroupKey)
    requires !g.member
    ensures forall e :: GroupEntry(hash, x, y, g, e) ==> e.Pair? && FieldLink(x, y, Link(g, e.a, e.b))
  {
    hide FieldLink, Segment;
  }

  lemma PairHolds(name: string, as_: seq<Tree>, bs: seq<Tree>, chosen: seq<Candidate>, e: Entry)
    requires forall c :: c in chosen ==> c.i < |as_| && c.j < |bs|
    ensures e in PairEntries(name, as_, bs, chosen) <==>
            exists c :: c in chosen && e == Pair(Indexed(name, as_[c.i].index), Indexed(name, bs[c.j].index), as_[c.i], bs[c.j])
  {
    hide Indexed;
    var pairs := PairEntries(name, as_, bs, chosen);
    if c :| c in chosen && e == Pair(Indexed(name, as_[c.i].index), Indexed(name, bs[c.j].index), as_[c.i], bs[c.j]) {
      var k :| 0 <= k < |chosen| && chosen[k] == c;
      assert pairs[k] == e;
    }
    if e in pairs {
      var k :| 0 <= k < |pairs| && pairs[k] == e;
      assert chosen[k] in chosen;
    }
  }

  /** A member link's segments, at the places of its two kids. */
  lemma MemberSegments(x: Tree, y: Tree, l: Link)
    requires l.group.member
    ensures Segment(x, y, l, Recording) == Indexed(Label(l.group.name, l.group.json), l.a.index)
    ensures Segment(x, y, l, Rendering) == Indexed(Label(l.group.name, l.group.json), l.b.index)
  {
    ShownIsLabel(l.group.name, l.group.json);
    hide Label, Shown;
  }

  lemma MemberPairs(hash: string -> nat, x: Tree, y: Tree, g: GroupKey, e: Entry)
    requires g.member && e.Pair?
    ensures e in PairEntries(Label(g.name, g.json), KidsIn(x, g), KidsIn(y, g), ChosenOf(hash, KidsIn(x, g), KidsIn(y, g))) <==>
            GroupEntry(hash, x, y, g, e)
  {
    MemberSegments(x, y, Link(g, e.a, e.b));
    PairHolds(Label(g.name, g.json), KidsIn(x, g), KidsIn(y, g), ChosenOf(hash, KidsIn(x, g), KidsIn(y, g)), e);
    hide KidsIn, ChosenOf, Label, Indexed, Segment, PairEntries, FieldLink;
    assert GroupEntry(hash, x, y, g, e) <==>
           MemberLink(hash, x, y, Link(g, e.a, e.b)) && e.segA == Indexed(Label(g.name, g.json), e.a.index)
           && e.segB == Indexed(Label(g.name, g.json), e.b.index) by {
      NoFieldLink(x, y, Link(g, e.a, e.b));
    }
  }

  lemma NoFieldLink(x: Tree, y: Tree, l: Link)
    requires l.group.member
    ensures !FieldLink(x, y, l)
  {
  }

  lemma MemberSpares(hash: string -> nat, x: Tree, y: Tree, g: GroupKey, e: Entry)
    requires g.member
    ensures var as_, bs := KidsIn(x, g), KidsIn(y, g);
            var u, chosen := UnmatchedOf(as_, bs), ChosenOf(hash, as_, bs);
            && (e.RecordedOnly? ==>
                  (e in RecordedEntries(Label(g.name, g.json), as_, Surplus(as_, u.a, Usedi(chosen))) <==> GroupEntry(hash, x, y, g, e)))
            && (e.RenderedOnly? ==>
                  (e in RenderedEntries(Label(g.name, g.json), bs, Surplus(bs, u.b, Usedj(chosen))) <==> GroupEntry(hash, x, y, g, e)))
  {
    ShownIsLabel(g.name, g.json);
    hide KidsIn, ChosenOf, UnmatchedOf, Label, Shown, Surplus, Usedi, Usedj;
    var as_, bs := KidsIn(x, g), KidsIn(y, g);
    var u, chosen := UnmatchedOf(as_, bs), ChosenOf(hash, as_, bs);
    if e.RecordedOnly? {
      var left := Surplus(as_, u.a, Usedi(chosen));
      WholeEntries(Label(g.name, g.json), as_, left, e.seg);
      SpareKids(g, as_, left, e.seg);
      assert forall k :: Spare(hash, x, y, Recording, g, k) <==> KidIn(as_, left, k);
    } else if e.RenderedOnly? {
      var right := Surplus(bs, u.b, Usedj(chosen));
      WholeEntries(Label(g.name, g.json), bs, right, e.seg);
      SpareKids(g, bs, right, e.seg);
      assert forall k :: Spare(hash, x, y, Rendering, g, k) <==> KidIn(bs, right, k);
    }
  }

  predicate KidIn(kids: seq<Tree>, left: seq<nat>, k: Tree) {
    exists n :: n in left && n < |kids| && k == kids[n]
  }

  lemma SpareKids(g: GroupKey, kids: seq<Tree>, left: seq<nat>, seg: string)
    ensures (exists k :: KidIn(kids, left, k) && seg == WithPlace(g, k)) <==>
            exists n :: n in left && n < |kids| && seg == Shown(g.name, g.json) + "[" + Itoa(kids[n].index) + "]"
  {
    hide Shown, Itoa;
    if n :| n in left && n < |kids| && seg == Shown(g.name, g.json) + "[" + Itoa(kids[n].index) + "]" {
      assert KidIn(kids, left, kids[n]);
    }
  }

  lemma WholeEntries(name: string, kids: seq<Tree>, left: seq<nat>, seg: string)
    requires forall k :: 0 <= k < |left| ==> left[k] < |kids|
    ensures RecordedOnly(seg) in RecordedEntries(name, kids, left) <==>
            exists n :: n in left && n < |kids| && seg == name + "[" + Itoa(kids[n].index) + "]"
    ensures RenderedOnly(seg) in RenderedEntries(name, kids, left) <==>
            exists n :: n in left && n < |kids| && seg == name + "[" + Itoa(kids[n].index) + "]"
  {
    hide Itoa;
    if n :| n in left && n < |kids| && seg == name + "[" + Itoa(kids[n].index) + "]" {
      var k :| 0 <= k < |left| && left[k] == n;
      assert RecordedEntries(name, kids, left)[k] == RecordedOnly(seg);
      assert RenderedEntries(name, kids, left)[k] == RenderedOnly(seg);
    }
  }

  lemma MemberEntries(hash: string -> nat, x: Tree, y: Tree, g: GroupKey, e: Entry)
    requires g.member
    ensures e in GroupPlan(hash, g, KidsIn(x, g), KidsIn(y, g)) <==> GroupEntry(hash, x, y, g, e)
  {
    if e.Pair? { MemberPairs(hash, x, y, g, e); } else { MemberSpares(hash, x, y, g, e); }
    var as_, bs, name := KidsIn(x, g), KidsIn(y, g), Label(g.name, g.json);
    var u, chosen := UnmatchedOf(as_, bs), ChosenOf(hash, as_, bs);
    KindsOfEntries(name, as_, bs, chosen, Surplus(as_, u.a, Usedi(chosen)), Surplus(bs, u.b, Usedj(chosen)), e);
    hide KidsIn, ChosenOf, UnmatchedOf, Label, Surplus, GroupEntry, PairEntries, RecordedEntries, RenderedEntries, Usedi, Usedj;
  }

  lemma KindsOfEntries(name: string, as_: seq<Tree>, bs: seq<Tree>, chosen: seq<Candidate>, left: seq<nat>, right: seq<nat>, e: Entry)
    requires forall c :: c in chosen ==> c.i < |as_| && c.j < |bs|
    requires (forall k :: 0 <= k < |left| ==> left[k] < |as_|) && forall k :: 0 <= k < |right| ==> right[k] < |bs|
    ensures e in PairEntries(name, as_, bs, chosen) ==> e.Pair?
    ensures e in RecordedEntries(name, as_, left) ==> e.RecordedOnly?
    ensures e in RenderedEntries(name, bs, right) ==> e.RenderedOnly?
  {
    hide Indexed;
  }

  lemma GroupEntries(hash: string -> nat, x: Tree, y: Tree, g: GroupKey, e: Entry)
    ensures e in GroupPlan(hash, g, KidsIn(x, g), KidsIn(y, g)) <==> GroupEntry(hash, x, y, g, e)
  {
    hide GroupPlan, GroupEntry, KidsIn;
    if g.member { MemberEntries(hash, x, y, g, e); } else { FieldEntries(hash, x, y, g, e); }
  }

  /** A group with an entry is one of either node's. */
  lemma EntryHasGroup(hash: string -> nat, x: Tree, y: Tree, g: GroupKey, e: Entry)
    requires e in GroupPlan(hash, g, KidsIn(x, g), KidsIn(y, g))
    ensures g in Keys(x.kids) || g in Keys(y.kids)
  {
    GroupIsPresent(Keys(x.kids), x.kids, g);
    GroupIsPresent(Keys(y.kids), y.kids, g);
    if KidsIn(x, g) == [] && KidsIn(y, g) == [] {
      NothingToPlan(hash, g);
    }
  }

  lemma NothingToPlan(hash: string -> nat, g: GroupKey)
    ensures GroupPlan(hash, g, [], []) == []
  {
    var u := UnmatchedOf([], []);
    assert u.a == [] && u.b == [];
  }

  // ----- exactly the paths a node diff names -----

  ghost predicate SomeEntryNames(hash: string -> nat, x: Tree, y: Tree, side: Side, p: string) {
    exists g, e :: GroupEntry(hash, x, y, g, e) && EntryNames(hash, e, side, p)
  }

  lemma OwnNames(x: Tree, y: Tree, side: Side, p: string)
    ensures p in Named(Own(x, y), side) <==> OwnDiffers(x, y, side, p)
  {
  }

  lemma PlanNames(hash: string -> nat, x: Tree, y: Tree, side: Side, p: string)
    ensures var plan := Plan(hash, BothOrders(Keys(x.kids), Keys(y.kids)), x, y);
            (exists e :: e in plan && EntryNames(hash, e, side, p)) <==> SomeEntryNames(hash, x, y, side, p)
  {
    hide GroupPlan, GroupEntry, EntryNames, KidsIn, Keys;
    var order := BothOrders(Keys(x.kids), Keys(y.kids));
    var plan := Plan(hash, order, x, y);
    if e :| e in plan && EntryNames(hash, e, side, p) {
      PlanHolds(hash, order, x, y, e);
      var g :| g in order && e in GroupPlan(hash, g, KidsIn(x, g), KidsIn(y, g));
      GroupEntries(hash, x, y, g, e);
    }
    if SomeEntryNames(hash, x, y, side, p) {
      var g, e :| GroupEntry(hash, x, y, g, e) && EntryNames(hash, e, side, p);
      GroupEntries(hash, x, y, g, e);
      EntryHasGroup(hash, x, y, g, e);
      PlanHolds(hash, order, x, y, e);
    }
  }

  lemma NodeSteps(hash: string -> nat, x: Tree, y: Tree, side: Side, p: string)
    ensures p in Named(Node(hash, x, y), side) <==> OwnDiffers(x, y, side, p) || SomeEntryNames(hash, x, y, side, p)
  {
    var plan := Plan(hash, BothOrders(Keys(x.kids), Keys(y.kids)), x, y);
    OwnNames(x, y, side, p);
    PlanNames(hash, x, y, side, p);
    RunNames(hash, plan, x, y, side, p);
    hide Own, Plan, Run, OwnDiffers, SomeEntryNames, EntryNames, BothOrders, Keys;
    assert Named(Node(hash, x, y), side) == Named(Own(x, y), side) + Named(Run(hash, plan, x, y), side);
  }

  lemma LinkIsSmaller(hash: string -> nat, x: Tree, y: Tree, l: Link)
    requires Linked(hash, x, y, l)
    ensures Size(l.a) + Size(l.b) < Size(x) + Size(y)
  {
    var e := Pair(Segment(x, y, l, Recording), Segment(x, y, l, Rendering), l.a, l.b);
    assert GroupEntry(hash, x, y, l.group, e);
    GroupEntries(hash, x, y, l.group, e);
    hide Linked, Segment, GroupPlan, Size, GroupEntry;
    PairIsSmaller(hash, x, y, l.group, e);
  }

  lemma PairIsSmaller(hash: string -> nat, x: Tree, y: Tree, g: GroupKey, e: Entry)
    requires e in GroupPlan(hash, g, KidsIn(x, g), KidsIn(y, g)) && e.Pair?
    ensures Size(e.a) + Size(e.b) < Size(x) + Size(y)
  {
    var plan := GroupPlan(hash, g, KidsIn(x, g), KidsIn(y, g));
    hide GroupPlan, Size;
    EntryIsSmaller(plan, e, x, y);
  }

  lemma JoinIsSlashed(seg: string, rel: string)
    ensures Join(seg, rel) == Slashed([seg, rel])
  {
    assert [seg, rel][1..] == [rel];
    SlashedOne(rel);
  }

  /** With the links' own diffs decided, an entry's paths are a spare member's or one below a link. */
  lemma EntriesDiffer(hash: string -> nat, x: Tree, y: Tree, side: Side, p: string)
    requires forall l, rel :: Linked(hash, x, y, l) ==> (rel in Named(Node(hash, l.a, l.b), side) <==> Differs(hash, l.a, l.b, side, rel))
    ensures SomeEntryNames(hash, x, y, side, p) <==> SpareDiffers(hash, x, y, side, p) || BelowDiffers(hash, x, y, side, p)
  {
    hide Linked, Segment, Spare, WithPlace, Node, Differs, Join, Slashed;
    if SomeEntryNames(hash, x, y, side, p) {
      var g, e :| GroupEntry(hash, x, y, g, e) && EntryNames(hash, e, side, p);
      if e.Pair? {
        var l := Link(g, e.a, e.b);
        var rel :| rel in Named(Node(hash, e.a, e.b), side) && p == Join(On(side, e.segA, e.segB), rel);
        JoinIsSlashed(Segment(x, y, l, side), rel);
        assert LinkDiffers(hash, x, y, side, l, rel, p);
      }
    }
    if g, k :| Spare(hash, x, y, side, g, k) && p == WithPlace(g, k) {
      var e := if side.Recording? then RecordedOnly(p) else RenderedOnly(p);
      assert GroupEntry(hash, x, y, g, e) && EntryNames(hash, e, side, p);
    }
    if l, rel :| LinkDiffers(hash, x, y, side, l, rel, p) {
      var e := Pair(Segment(x, y, l, Recording), Segment(x, y, l, Rendering), l.a, l.b);
      JoinIsSlashed(Segment(x, y, l, side), rel);
      assert Link(l.group, e.a, e.b) == l;
      assert GroupEntry(hash, x, y, l.group, e) && EntryNames(hash, e, side, p);
    }
  }

  /**
   * A node diff names a path on a side exactly when it spells a chain to values that
   * differ, where this side has one, or to one of its members that is left over.
   */
  lemma {:induction false} NamedExactly(hash: string -> nat, x: Tree, y: Tree, side: Side, p: string)
    ensures p in Named(Node(hash, x, y), side) <==> Differs(hash, x, y, side, p)
    decreases Size(x) + Size(y)
  {
    hide Size, Linked, Node, Differs, OwnDiffers, SpareDiffers, BelowDiffers, SomeEntryNames;
    forall l, rel | Linked(hash, x, y, l)
      ensures rel in Named(Node(hash, l.a, l.b), side) <==> Differs(hash, l.a, l.b, side, rel)
    {
      LinkIsSmaller(hash, x, y, l);
      NamedExactly(hash, l.a, l.b, side, rel);
    }
    NodeSteps(hash, x, y, side, p);
    EntriesDiffer(hash, x, y, side, p);
    DiffersSteps(hash, x, y, side, p);
  }

  // ----- the paths of a diff of two bodies -----

  /** How a path is answered: a root that differs itself is named, or a dot if it has no name. */
  function Answered(root: Tree, p: string): string {
    if p != "" then p else if root.name == "" then "." else Shown(root.name, root.json)
  }

  /** The path is the root's, where the roots' names differ, or else spells a chain from the pruned roots to a difference. */
  ghost predicate DiffersAt(hash: string -> nat, rules: Rules, recorded: Option<Tree>, rendered: Option<Tree>, side: Side, p: string) {
    var a, b := OrEmpty(recorded), OrEmpty(rendered);
    if a.name != "" && b.name != "" && a.name != b.name then p == Answered(On(side, a, b), "")
    else exists q :: Differs(hash, PruneRoot(rules, a), PruneRoot(rules, b), side, q) && p == Answered(On(side, a, b), q)
  }

  /** Those are exactly the paths a diff of two bodies answers. */
  lemma DiffNamesExactly(hash: string -> nat, rules: Rules, recorded: Option<Tree>, rendered: Option<Tree>, side: Side, p: string)
    ensures p in Named(DiffIgnoring(hash, rules, recorded, rendered), side) <==> DiffersAt(hash, rules, recorded, rendered, side, p)
  {
    var a, b := OrEmpty(recorded), OrEmpty(rendered);
    ShownIsLabel(On(side, a, b).name, On(side, a, b).json);
    if !(a.name != "" && b.name != "" && a.name != b.name) {
      var x, y := PruneRoot(rules, a), PruneRoot(rules, b);
      var rels := Named(Node(hash, x, y), side);
      forall q ensures q in rels <==> Differs(hash, x, y, side, q) {
        NamedExactly(hash, x, y, side, q);
      }
      NameRootHolds(rels, On(side, a, b), p);
      SortHolds(NameRoot(rels, On(side, a, b)), p);
      hide Node, Differs, PruneRoot, Sort, NameRoot, Shown, Label;
    }
  }

  lemma NameRootHolds(rels: seq<string>, root: Tree, p: string)
    ensures p in NameRoot(rels, root) <==> exists q :: q in rels && p == Answered(root, q)
  {
    ShownIsLabel(root.name, root.json);
    hide Shown, Label;
    var named := NameRoot(rels, root);
    if q :| q in rels && p == Answered(root, q) {
      var i :| 0 <= i < |rels| && rels[i] == q;
      assert named[i] == p;
    }
    if p in named {
      var i :| 0 <= i < |named| && named[i] == p;
      assert rels[i] in rels;
    }
  }

  lemma SortHolds(s: seq<string>, p: string)
    ensures p in Sort(s) <==> p in s
  {
    assert p in s <==> p in multiset(s);
    assert p in Sort(s) <==> p in multiset(Sort(s));
  }

  // ----- the chains are in the trees -----

  /** Each node is a kid of the one before it. */
  ghost predicate Descends(root: Tree, nodes: seq<Tree>)
    decreases |nodes|
  {
    nodes == [] || (nodes[0] in root.kids && Descends(nodes[0], nodes[1..]))
  }

  function NodesOf(ls: seq<Link>, side: Side): (r: seq<Tree>)
    ensures |r| == |ls|
  {
    seq(|ls|, k requires 0 <= k < |ls| => On(side, ls[k].a, ls[k].b))
  }

  /** Nothing is below an empty node. */
  lemma {:induction false} EmptyEndsEmpty(hash: string -> nat, x: Tree, y: Tree, ls: seq<Link>, side: Side)
    requires Chain(hash, x, y, ls) && On(side, x, y) == EMPTY
    ensures EndOf(x, y, ls, side) == EMPTY
    decreases |ls|
  {
    hide Linked;
    if ls != [] {
      LinkIsKid(hash, x, y, ls[0], side);
      EndOfTail(x, y, ls, side);
      EmptyEndsEmpty(hash, ls[0].a, ls[0].b, ls[1..], side);
    }
  }

  lemma LinkIsKid(hash: string -> nat, x: Tree, y: Tree, l: Link, side: Side)
    requires Linked(hash, x, y, l)
    ensures On(side, l.a, l.b) in On(side, x, y).kids || On(side, l.a, l.b) == EMPTY
  {
    var e := Pair(Segment(x, y, l, Recording), Segment(x, y, l, Rendering), l.a, l.b);
    assert GroupEntry(hash, x, y, l.group, e);
    GroupEntries(hash, x, y, l.group, e);
    hide Linked, Segment, GroupPlan, GroupEntry;
    assert Within(GroupPlan(hash, l.group, KidsIn(x, l.group), KidsIn(y, l.group)), KidsIn(x, l.group), KidsIn(y, l.group));
  }

  /** A chain whose end on a side is there is a chain of that side's own kids. */
  lemma {:induction false} ChainDescends(hash: string -> nat, x: Tree, y: Tree, ls: seq<Link>, side: Side)
    requires Chain(hash, x, y, ls) && EndOf(x, y, ls, side) != EMPTY
    ensures Descends(On(side, x, y), NodesOf(ls, side))
    decreases |ls|
  {
    hide Linked;
    if ls != [] {
      var l, rest := ls[0], ls[1..];
      EndOfTail(x, y, ls, side);
      if On(side, l.a, l.b) == EMPTY { EmptyEndsEmpty(hash, l.a, l.b, rest, side); }
      LinkIsKid(hash, x, y, l, side);
      ChainDescends(hash, l.a, l.b, rest, side);
      assert NodesOf(ls, side)[1..] == NodesOf(rest, side);
    }
  }

  lemma SpareIsKid(hash: string -> nat, x: Tree, y: Tree, side: Side, g: GroupKey, k: Tree)
    requires Spare(hash, x, y, side, g, k)
    ensures k in On(side, x, y).kids && g.member
  {
    hide UnmatchedOf, ChosenOf, Surplus;
  }

  /**
   * So each path a side is answered spells a chain of that side's kids from its pruned root,
   * which ends at a node with a value or at a set member.
   */
  lemma NamedIsInItsTree(hash: string -> nat, x: Tree, y: Tree, side: Side, p: string) returns (ls: seq<Link>, spare: seq<Tree>)
    requires p in Named(Node(hash, x, y), side)
    ensures Chain(hash, x, y, ls) && Descends(On(side, x, y), NodesOf(ls, side)) && |spare| <= 1
    ensures spare == [] ==> EndOf(x, y, ls, side).Valued() && p == Slashed(Spelling(x, y, ls, side))
    ensures spare != [] ==> exists g: GroupKey :: g.member && spare[0] in EndOf(x, y, ls, side).kids
                              && p == Slashed(Spelling(x, y, ls, side) + [WithPlace(g, spare[0])])
  {
    NamedExactly(hash, x, y, side, p);
    hide Node, Linked, Segment, WithPlace, Slashed, Spare;
    if ls' :| ValueAt(hash, x, y, ls', side, p) {
      ls, spare := ls', [];
    } else {
      var ls', g, k :| MemberAt(hash, x, y, ls', side, g, k, p);
      ls, spare := ls', [k];
      SpareIsKid(hash, EndOf(x, y, ls, Recording), EndOf(x, y, ls, Rendering), side, g, k);
      assert On(side, EndOf(x, y, ls, Recording), EndOf(x, y, ls, Rendering)) == EndOf(x, y, ls, side);
    }
    ChainDescends(hash, x, y, ls, side);
  }

  /** A value a chain of fields leads to, whose counterpart differs, is named by its own spelling on its own side. */
  lemma FieldDifferenceIsNamed(hash: string -> nat, x: Tree, y: Tree, ls: seq<Link>, side: Side)
    requires FieldChain(x, y, ls) && EndsInValue(x, y, ls, side)
    ensures Slashed(Spelling(x, y, ls, side)) in Named(Node(hash, x, y), side)
  {
    FieldChainIsChain(hash, x, y, ls);
    var p := Slashed(Spelling(x, y, ls, side));
    assert ValueAt(hash, x, y, ls, side, p);
    NamedExactly(hash, x, y, side, p);
  }

  ghost predicate FieldChain(x: Tree, y: Tree, ls: seq<Link>)
    decreases |ls|
  {
    ls == [] || (FieldLink(x, y, ls[0]) && FieldChain(ls[0].a, ls[0].b, ls[1..]))
  }

  lemma {:induction false} FieldChainIsChain(hash: string -> nat, x: Tree, y: Tree, ls: seq<Link>)
    requires FieldChain(x, y, ls)
    ensures Chain(hash, x, y, ls)
    decreases |ls|
  {
    hide FieldLink;
    if ls != [] { FieldChainIsChain(hash, ls[0].a, ls[0].b, ls[1..]); }
  }
}
