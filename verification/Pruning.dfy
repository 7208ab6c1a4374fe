/** What pruning leaves of a body: its values, by where they are, less those at ignored names and paths. */
module Pruning {
  import opened Options
  import opened Trees
  import TD = TreeDiff
  import opened Diff
  import opened DiffPaths

  /** Where a node is under the one above it. */
  datatype Step = Step(group: GroupKey, index: nat)

  /** A value and the steps down to it. */
  datatype Value = Value(at: seq<Step>, kind: Kind, text: string)

  /** The values of a tree, in document order. */
  function Values(t: Tree, at: seq<Step>): seq<Value>
    decreases t, 1
  {
    (if t.Valued() then [Value(at, t.kind, t.text)] else []) + KidValues(t.kids, at)
  }

  function KidValues(kids: seq<Tree>, at: seq<Step>): seq<Value>
    decreases kids, 0
  {
    if kids == [] then [] else Values(kids[0], at + [Step(kids[0].Group(), kids[0].index)]) + KidValues(kids[1..], at)
  }

  function Names(at: seq<Step>): (r: seq<string>)
    ensures |r| == |at|
  {
    seq(|at|, k requires 0 <= k < |at| => at[k].group.name)
  }

  /** A path of names from the root, without indexes. */
  function Path(at: seq<Step>): string {
    Slashed(Names(at))
  }

  /** The names a response carries about itself or its paging. */
  predicate AboutTheResponse(name: string) {
    || name == "requestId" || name == "RequestId" || name == "ResponseMetadata"
    || name == "nextToken" || name == "NextToken" || name == "IsTruncated" || name == "Marker"
  }

  /** The node after `n` steps is of such a name or at an ignored path. */
  predicate Dropped(rules: Rules, at: seq<Step>, n: int)
    requires 0 < n <= |at|
  {
    AboutTheResponse(at[n - 1].group.name) || Path(at[..n]) in rules.ignore
  }

  /** No node on the way to the value is dropped. */
  predicate Compared(rules: Rules, at: seq<Step>) {
    forall n :: 0 < n <= |at| ==> !Dropped(rules, at, n)
  }

  /** A value's text as it is compared: URL-decoded at the paths that ask for it, where it can be. */
  function ComparedText(rules: Rules, v: Value): string {
    if Path(v.at) in rules.decode && QueryUnescape(v.text).Some? then QueryUnescape(v.text).value else v.text
  }

  /** The values a diff compares, as it compares them. */
  function ComparedValues(rules: Rules, vs: seq<Value>): seq<Value> {
    if vs == [] then []
    else
      var v := vs[0].(text := ComparedText(rules, vs[0]));
      (if Compared(rules, v.at) && (v.text != "" || v.kind != TextNode) then [v] else []) + ComparedValues(rules, vs[1..])
  }

  lemma {:induction false} ComparedJoins(rules: Rules, a: seq<Value>, b: seq<Value>)
    ensures ComparedValues(rules, a + b) == ComparedValues(rules, a) + ComparedValues(rules, b)
  {
    hide Compared, ComparedText;
    if a == [] {
      assert a + b == b;
    } else {
      assert (a + b)[1..] == a[1..] + b;
      ComparedJoins(rules, a[1..], b);
    }
  }

  lemma {:induction false} SlashedSnoc(names: seq<string>, name: string)
    ensures Slashed(names + [name]) == TD.Join(Slashed(names), name)
  {
    if names == [] {
      assert names + [name] == [name];
      SlashedOne(name);
    } else {
      assert (names + [name])[1..] == names[1..] + [name];
      SlashedSnoc(names[1..], name);
    }
  }

  lemma PathSnoc(at: seq<Step>, s: Step)
    ensures Path(at + [s]) == TD.Join(Path(at), s.group.name)
  {
    assert Names(at + [s]) == Names(at) + [s.group.name];
    SlashedSnoc(Names(at), s.group.name);
    hide Slashed;
  }

  lemma ComparedSnoc(rules: Rules, at: seq<Step>, k: Tree)
    requires Compared(rules, at)
    ensures var below := at + [Step(k.Group(), k.index)];
            Compared(rules, below) <==> !Ignored(rules, k, Path(at))
  {
    var below := at + [Step(k.Group(), k.index)];
    PathSnoc(at, Step(k.Group(), k.index));
    hide Path;
    assert below[..|below|] == below;
    forall n | 0 < n <= |at| ensures Dropped(rules, below, n) == Dropped(rules, at, n) {
      assert below[..n] == at[..n];
    }
    assert Dropped(rules, below, |below|) == Ignored(rules, k, Path(at)) by {
      assert AboutTheResponse(k.name) <==> k.name in ALWAYS_IGNORED;
    }
  }

  /** Nothing below an ignored node is compared. */
  lemma {:induction false} NoneCompared(rules: Rules, t: Tree, at: seq<Step>, n: nat)
    requires 0 < n <= |at| && Dropped(rules, at, n)
    ensures ComparedValues(rules, Values(t, at)) == []
    decreases t, 1
  {
    NoneOfKids(rules, t.kids, at, n);
    var own := if t.Valued() then [Value(at, t.kind, t.text)] else [];
    ComparedJoins(rules, own, KidValues(t.kids, at));
    assert !Compared(rules, at);
    hide Dropped, Compared, ComparedText;
    assert ComparedValues(rules, own) == [];
  }

  lemma {:induction false} NoneOfKids(rules: Rules, kids: seq<Tree>, at: seq<Step>, n: nat)
    requires 0 < n <= |at| && Dropped(rules, at, n)
    ensures ComparedValues(rules, KidValues(kids, at)) == []
    decreases kids, 0
  {
    if kids != [] {
      var below := at + [Step(kids[0].Group(), kids[0].index)];
      assert below[..n] == at[..n];
      NoneCompared(rules, kids[0], below, n);
      NoneOfKids(rules, kids[1..], at, n);
      ComparedJoins(rules, Values(kids[0], below), KidValues(kids[1..], at));
    }
  }

  /** Of a node no step to which is ignored, pruning leaves the values compared. */
  lemma {:induction false} PruneLeaves(rules: Rules, t: Tree, at: seq<Step>)
    requires Compared(rules, at)
    ensures var p := Prune(rules, t, Path(at));
            (match p case Some(k) => Values(k, at) case None => []) == ComparedValues(rules, Values(t, at))
    decreases t, 1
  {
    PruneKidsLeaves(rules, t.kids, at);
    var own := if t.Valued() then [Value(at, t.kind, t.text)] else [];
    ComparedJoins(rules, own, KidValues(t.kids, at));
    OwnCompared(rules, t, at);
    hide Compared, ComparedText, Path, QueryUnescape;
  }

  lemma OwnCompared(rules: Rules, t: Tree, at: seq<Step>)
    requires Compared(rules, at)
    ensures var own := if t.Valued() then [Value(at, t.kind, t.text)] else [];
            var c := t.(text := Diff.Decoded(rules, t.text, Path(at)));
            ComparedValues(rules, own) == if c.Valued() then [Value(at, c.kind, c.text)] else []
  {
    hide Compared, Path;
    assert QueryUnescape("") == Some("");
    if t.Valued() {
      var own := [Value(at, t.kind, t.text)];
      assert own[1..] == [];
    }
  }

  lemma {:induction false} PruneKidsLeaves(rules: Rules, kids: seq<Tree>, at: seq<Step>)
    requires Compared(rules, at)
    ensures KidValues(PruneKids(rules, kids, Path(at)), at) == ComparedValues(rules, KidValues(kids, at))
    decreases kids, 0
  {
    if kids != [] {
      var k, rest := kids[0], kids[1..];
      var step := Step(k.Group(), k.index);
      var below := at + [step];
      PruneKidsLeaves(rules, rest, at);
      ComparedJoins(rules, Values(k, below), KidValues(rest, at));
      ComparedSnoc(rules, at, k);
      PathSnoc(at, step);
      if Ignored(rules, k, Path(at)) {
        IgnoredLeaves(rules, k, at);
      } else {
        PruneLeaves(rules, k, below);
      }
      hide Compared, ComparedText, Path, Prune, Ignored, ComparedValues, Values;
    }
  }

  lemma IgnoredLeaves(rules: Rules, k: Tree, at: seq<Step>)
    requires Ignored(rules, k, Path(at))
    ensures ComparedValues(rules, Values(k, at + [Step(k.Group(), k.index)])) == []
  {
    var below := at + [Step(k.Group(), k.index)];
    PathSnoc(at, Step(k.Group(), k.index));
    assert below[..|below|] == below;
    NoneCompared(rules, k, below, |below|);
  }

  /**
   * A pruned body holds, in order and at their places, exactly the values of the body that no
   * response name and no ignored path leads to, with those at decoded paths decoded.
   */
  lemma PrunedValues(rules: Rules, t: Tree)
    ensures Values(PruneRoot(rules, t), []) == ComparedValues(rules, Values(t, []))
  {
    assert Path([]) == "";
    PruneLeaves(rules, t, []);
  }
}
