/** `diffIgnoring` as it runs: one differ with one memo for the whole comparison. */
module DiffBodies {
  import opened Options
  import opened Text
  import opened Trees
  import opened TreeDiff
  import opened Diff
  import TreeDiffers
  import DP = DiffPaths

  /** The path of a root that differs itself. */
  method NameRoots(paths: seq<string>, t: Tree) returns (named: seq<string>)
    ensures named == NameRoot(paths, t)
  {
    named := paths;
    for i := 0 to |paths|
      invariant |named| == |paths|
      invariant forall k :: 0 <= k < |paths| ==> named[k] == if k < i then NameRoot(paths, t)[k] else paths[k]
    {
      if paths[i] == "" {
        named := named[i := RootPath(t)];
      }
    }
  }

  /**
   * The differ answers what the recursive definition does: each path that spells a difference on
   * its side, and none exactly when the bodies are the same.
   */
  method DiffBodies(hash: string -> nat, rules: Rules, recorded: Option<Tree>, rendered: Option<Tree>) returns (paths: Paths)
    ensures paths == DiffIgnoring(hash, rules, recorded, rendered)
    ensures forall side, p :: p in DP.Named(paths, side) <==> DP.DiffersAt(hash, rules, recorded, rendered, side, p)
    ensures IsBody(recorded) && IsBody(rendered) ==>
              (paths.Empty() <==>
                 NamesAgree(OrEmpty(recorded), OrEmpty(rendered)) && PrunedForm(rules, recorded) == PrunedForm(rules, rendered))
  {
    if IsBody(recorded) && IsBody(rendered) {
      SameIsEqualForms(hash, rules, recorded, rendered);
    }
    forall side, p
      ensures p in DP.Named(DiffIgnoring(hash, rules, recorded, rendered), side) <==> DP.DiffersAt(hash, rules, recorded, rendered, side, p)
    {
      DP.DiffNamesExactly(hash, rules, recorded, rendered, side, p);
    }
    hide DP.DiffersAt;
    var a, b := OrEmpty(recorded), OrEmpty(rendered);
    if !NamesAgree(a, b) {
      return Paths([RootPath(a)], [RootPath(b)]);
    }
    var d := new TreeDiffers.TreeDiffer(hash);
    var rec, ren := d.DiffNode(PruneRoot(rules, a), PruneRoot(rules, b));
    rec := NameRoots(rec, a);
    ren := NameRoots(ren, b);
    paths := Paths(Sort(rec), Sort(ren));
  }
}
