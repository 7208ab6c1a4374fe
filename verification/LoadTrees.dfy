/** Building a parsed body, and finding a recorded item in one. */
module LoadTrees {
  import opened Options
  import opened Trees
  import TD = TreeDiff
  import opened Diff

  // ----- building -----

  /** How many of `kids` are in group `g`. */
  function CountIn(kids: seq<Tree>, g: GroupKey): (n: nat)
    ensures n == |Indices(Keys(kids), g)|
  {
    if kids == [] then 0
    else
      var m := |kids| - 1;
      assert Keys(kids)[..m] == Keys(kids[..m]);
      CountIn(kids[..m], g) + if kids[m].Group() == g then 1 else 0
  }

  /** Each kid's index is its place among its same-named siblings. */
  ghost predicate Numbered(kids: seq<Tree>) {
    forall i :: 0 <= i < |kids| ==> kids[i].index == |Indices(Keys(kids[..i]), kids[i].Group())|
  }

  /** A node while its body is parsed. */
  class Parent {
    var kids: seq<Tree>

    constructor ()
      ensures kids == [] && Numbered(kids)
    {
      kids := [];
    }

    /** `diffAppend`. */
    method Append(kid: Tree)
      requires Numbered(kids)
      modifies this
      ensures kids == old(kids) + [kid.(index := CountIn(old(kids), kid.Group()))]
      ensures Numbered(kids)
    {
      var index: nat := 0;
      for i := 0 to |kids|
        invariant index == CountIn(kids[..i], kid.Group())
      {
        assert kids[..i + 1][..i] == kids[..i];
        if kids[i].Group() == kid.Group() {
          index := index + 1;
        }
      }
      assert kids[..|kids|] == kids;
      ghost var was := kids;
      kids := kids + [kid.(index := index)];
      forall i | 0 <= i < |kids| ensures kids[i].index == |Indices(Keys(kids[..i]), kids[i].Group())| {
        assert kids[..i] == was[..i];
      }
    }
  }

  lemma {:induction false} IndicesOfPrefix(keys: seq<GroupKey>, n: nat, g: GroupKey)
    requires n <= |keys|
    ensures var k := |Indices(keys[..n], g)|; k <= |Indices(keys, g)| && Indices(keys, g)[..k] == Indices(keys[..n], g)
    decreases |keys|
  {
    if n == |keys| {
      assert keys[..n] == keys;
    } else {
      var m := |keys| - 1;
      assert keys[..m][..n] == keys[..n];
      IndicesOfPrefix(keys[..m], n, g);
    }
  }

  /** An index in a path names one kid: the kid at that place of its group. */
  lemma IndexNamesOneKid(kids: seq<Tree>, i: nat)
    requires Numbered(kids) && i < |kids|
    ensures var at := Indices(Keys(kids), kids[i].Group()); kids[i].index < |at| && at[kids[i].index] == i
  {
    var keys, g := Keys(kids), kids[i].Group();
    assert keys[..i] == Keys(kids[..i]) && keys[i] == g;
    PlaceOfKey(keys, i);
  }

  lemma PlaceOfKey(keys: seq<GroupKey>, i: nat)
    requires i < |keys|
    ensures var n, at := |Indices(keys[..i], keys[i])|, Indices(keys, keys[i]); n < |at| && at[n] == i
  {
    var g := keys[i];
    IndicesOfPrefix(keys, i + 1, g);
    assert keys[..i + 1][..i] == keys[..i];
    var before, upto := Indices(keys[..i], g), Indices(keys[..i + 1], g);
    assert upto == before + [i];
    assert Indices(keys, g)[..|upto|][|before|] == i;
  }

  lemma IndexesAreDistinct(kids: seq<Tree>, i: nat, j: nat)
    requires Numbered(kids) && i < |kids| && j < |kids| && i != j && kids[i].Group() == kids[j].Group()
    ensures kids[i].index != kids[j].index
  {
    IndexNamesOneKid(kids, i);
    IndexNamesOneKid(kids, j);
  }

  // ----- finding -----

  /** The nodes at a path of names under `t`, in document order. */
  function NodesAt(t: Tree, segs: seq<string>): (r: seq<Tree>)
    ensures segs == [] ==> r == [t]
    decreases t, 1
  {
    if segs == [] then [t] else KidsAt(t.kids, segs)
  }

  function KidsAt(kids: seq<Tree>, segs: seq<string>): seq<Tree>
    requires segs != []
    decreases kids, 0
  {
    if kids == [] then []
    else (if kids[0].name == segs[0] then NodesAt(kids[0], segs[1..]) else []) + KidsAt(kids[1..], segs)
  }

  /** What a walk answers, and how many nodes at the path it has seen. */
  datatype Walked = Walked(got: Option<Tree>, seen: nat)

  /** `Subtree`'s closure: its counter runs on from call to call. */
  function Walk(t: Tree, segs: seq<string>, index: nat, seen: nat): Walked
    decreases t, 1
  {
    if segs == [] then Walked(if seen == index then Some(t) else None, seen + 1)
    else
      var w := WalkKids(t.kids, segs, index, seen);
      if w.got.None? then w
      else Walked(Some(Tree(t.name, "", TextNode, t.json, t.member, [w.got.value], t.index)), w.seen)
  }

  function WalkKids(kids: seq<Tree>, segs: seq<string>, index: nat, seen: nat): Walked
    requires segs != []
    decreases kids, 0
  {
    if kids == [] then Walked(None, seen)
    else if kids[0].name != segs[0] then WalkKids(kids[1..], segs, index, seen)
    else
      var w := Walk(kids[0], segs[1..], index, seen);
      if w.got.Some? then w else WalkKids(kids[1..], segs, index, w.seen)
  }

  /** The parts of a path between slashes. */
  function Segments(path: string): (r: seq<string>)
    ensures r != []
  {
    if path == "" then [""]
    else
      var rest := Segments(path[1..]);
      if path[0] == '/' then [""] + rest else [[path[0]] + rest[0]] + rest[1..]
  }

  function Subtree(t: Tree, path: string, index: nat): Option<Tree> {
    Walk(t, Segments(path), index, 0).got
  }

  /** The node a chain of single kids ends at. */
  function End(c: Tree, depth: nat): Tree
    decreases depth
  {
    if depth == 0 || c.kids == [] then c else End(c.kids[0], depth - 1)
  }

  /** `c` is `t` cut down to one node at the path, each ancestor keeping its name and index. */
  ghost predicate Chain(c: Tree, t: Tree, segs: seq<string>)
    decreases |segs|
  {
    if segs == [] then c == t
    else
      && c.Group() == t.Group() && c.index == t.index && !c.Valued() && |c.kids| == 1
      && exists k :: k in t.kids && k.name == segs[0] && Chain(c.kids[0], k, segs[1..])
  }

  lemma {:induction false} WalkFinds(t: Tree, segs: seq<string>, index: nat, seen: nat)
    requires seen <= index
    ensures var w, at := Walk(t, segs, index, seen), NodesAt(t, segs);
            if index - seen < |at|
            then w.got.Some? && Chain(w.got.value, t, segs) && End(w.got.value, |segs|) == at[index - seen]
            else w == Walked(None, seen + |at|)
    decreases t, 1
  {
    if segs != [] {
      WalkKidsFinds(t.kids, segs, index, seen);
    }
  }

  lemma {:induction false} WalkKidsFinds(kids: seq<Tree>, segs: seq<string>, index: nat, seen: nat)
    requires seen <= index && segs != []
    ensures var w, at := WalkKids(kids, segs, index, seen), KidsAt(kids, segs);
            if index - seen < |at|
            then
              && w.got.Some? && End(w.got.value, |segs| - 1) == at[index - seen]
              && exists k :: k in kids && k.name == segs[0] && Chain(w.got.value, k, segs[1..])
            else w == Walked(None, seen + |at|)
    decreases kids, 0
  {
    if kids != [] {
      if kids[0].name == segs[0] {
        WalkFinds(kids[0], segs[1..], index, seen);
        var n := |NodesAt(kids[0], segs[1..])|;
        if index - seen >= n {
          WalkKidsFinds(kids[1..], segs, index, seen + n);
        } else {
          assert kids[0] in kids;
        }
      } else {
        WalkKidsFinds(kids[1..], segs, index, seen);
      }
    }
  }

  /** `Subtree` is the index-th node at the path in document order, under its ancestors' chain, or nil. */
  lemma SubtreeIsNth(t: Tree, path: string, index: nat)
    ensures var at, segs, s := NodesAt(t, Segments(path)), Segments(path), Subtree(t, path, index);
            && (s.Some? <==> index < |at|)
            && (s.Some? ==> Chain(s.value, t, segs) && End(s.value, |segs|) == at[index])
  {
    WalkFinds(t, Segments(path), index, 0);
  }

  /** `itemNode`: the item a chain ends at, unnamed. */
  function ItemNode(chain: Tree, path: string): Tree {
    End(chain, |Segments(path)|).(name := "", member := false, index := 0)
  }

  // ----- lining a rendering up with its recording -----

  /** `alignSubtree`: the recorded chain's indexes on the rendered chain, below the root. */
  function Aligned(recorded: Tree, rendered: Tree, depth: nat): Tree
    decreases depth
  {
    if depth == 0 || recorded.kids == [] || rendered.kids == [] then rendered
    else
      var k := Aligned(recorded.kids[0], rendered.kids[0], depth - 1).(index := recorded.kids[0].index);
      rendered.(kids := [k] + rendered.kids[1..])
  }

  lemma {:induction false} TrimsItself(rules: Rules, t: Tree, shape: string)
    ensures Trims(rules, t, t, shape)
    decreases t, 1
  {
    TrimsItselfKids(rules, t.kids, shape);
  }

  lemma {:induction false} TrimsItselfKids(rules: Rules, ts: seq<Tree>, shape: string)
    ensures TrimsKids(rules, ts, ts, shape)
    decreases ts, 0
  {
    if ts != [] {
      TrimsItself(rules, ts[0], TD.Join(shape, ts[0].name));
      TrimsItselfKids(rules, ts[1..], shape);
    }
  }

  lemma {:induction false} AlignedTrims(rules: Rules, recorded: Tree, rendered: Tree, depth: nat, shape: string, n: nat)
    ensures Trims(rules, Aligned(recorded, rendered, depth).(index := n), rendered, shape)
    decreases depth
  {
    var a := Aligned(recorded, rendered, depth).(index := n);
    if depth == 0 || recorded.kids == [] || rendered.kids == [] {
      TrimsItselfKids(rules, rendered.kids, shape);
    } else {
      var r := rendered.kids[0];
      AlignedTrims(rules, recorded.kids[0], r, depth - 1, TD.Join(shape, r.name), recorded.kids[0].index);
      TrimsItselfKids(rules, rendered.kids[1..], shape);
      assert a.kids[1..] == rendered.kids[1..];
    }
  }

  lemma {:induction false} AlignedIsParsed(recorded: Tree, rendered: Tree, depth: nat, json: bool)
    requires Parsed(rendered, json)
    ensures Parsed(Aligned(recorded, rendered, depth), json)
    decreases depth
  {
    if depth > 0 && recorded.kids != [] && rendered.kids != [] {
      AlignedIsParsed(recorded.kids[0], rendered.kids[0], depth - 1, json);
      var a := Aligned(recorded, rendered, depth);
      forall k | k in a.kids ensures k.json == json && Parsed(k, json) {
        assert k == a.kids[0] || k in rendered.kids;
        assert Aligned(recorded.kids[0], rendered.kids[0], depth - 1).json == rendered.kids[0].json;
      }
    }
  }

  /** Lining a rendering up changes the paths its differences are named by, never whether there are any. */
  lemma AligningNeverMatters(hash: string -> nat, rules: Rules, recorded: Tree, rendered: Tree, depth: nat, json: bool)
    requires Parsed(recorded, json) && Parsed(rendered, json)
    ensures Same(hash, rules, Some(recorded), Some(Aligned(recorded, rendered, depth))) <==>
            Same(hash, rules, Some(recorded), Some(rendered))
  {
    var a := Aligned(recorded, rendered, depth);
    AlignedTrims(rules, recorded, rendered, depth, "", a.index);
    AlignedIsParsed(recorded, rendered, depth, json);
    assert a.(index := a.index) == a && (IsBody(Some(a)) && IsBody(Some(rendered)) && IsBody(Some(recorded))) by {
      assert Parsed(a, true) || Parsed(a, false);
      assert Parsed(rendered, true) || Parsed(rendered, false);
      assert Parsed(recorded, true) || Parsed(recorded, false);
    }
    TrimNeverMatters(hash, rules, a, rendered, Some(recorded));
    SameIsReflexiveSymmetric(hash, rules, Some(recorded), Some(a));
    SameIsReflexiveSymmetric(hash, rules, Some(recorded), Some(rendered));
  }
}
