/** The pages of one recorded read, linked into chains by the tokens they carry and answer. */
module LoadPages {
  import opened Options

  /** A page: the token it carries, the token it answers, and its truncated field. "" is none. */
  datatype Page = Page(carried: string, next: string, flag: string)

  /** How a loader pages: whether it answers a token, and whether a truncated field. */
  datatype Paging = Paging(tokens: bool, truncates: bool)

  type Pages = seq<Page>

  datatype Refusal = Orphan(page: nat) | Truncated(page: nat)

  // ----- what links pages -----

  /** The latest of the first `n` pages to answer `token`. */
  function Answered(ps: Pages, n: nat, token: string): (r: Option<nat>)
    requires n <= |ps|
    ensures r.Some? ==> r.value < n && ps[r.value].next == token && token != ""
    ensures r.Some? ==> forall j :: r.value < j < n ==> ps[j].next != token
    ensures r.None? && token != "" ==> forall j :: 0 <= j < n ==> ps[j].next != token
  {
    if n == 0 || token == "" then None
    else if ps[n - 1].next == token then Some(n - 1)
    else Answered(ps, n - 1, token)
  }

  /** The page whose answer page `i` carries on from. */
  function Before(ps: Pages, p: Paging, i: nat): (r: Option<nat>)
    requires i < |ps|
    ensures r.Some? ==> r.value < i
  {
    if p.tokens then Answered(ps, i, ps[i].carried) else None
  }

  /** The first page of page `i`'s chain. */
  function Root(ps: Pages, p: Paging, i: nat): (r: nat)
    requires i < |ps|
    ensures r <= i
    decreases i
  {
    var b := Before(ps, p, i);
    if b.None? then i else Root(ps, p, b.value)
  }

  predicate AnswersMore(ps: Pages, p: Paging, i: nat)
    requires i < |ps|
  {
    p.tokens && (ps[i].next != "" || (p.truncates && ps[i].flag != "" && ps[i].flag != "false"))
  }

  predicate IsOrphan(ps: Pages, p: Paging, i: nat)
    requires i < |ps|
  {
    ps[i].carried != "" && Before(ps, p, i).None?
  }

  /** A page among the first `n` continues page `i`. */
  predicate Continued(ps: Pages, p: Paging, n: nat, i: nat)
    requires n <= |ps|
  {
    exists k :: 0 <= k < n && Before(ps, p, k) == Some(i)
  }

  /** The pages that answer more, in order, and that no page continues. */
  function Cut(ps: Pages, p: Paging, n: nat): seq<nat>
    requires n <= |ps|
  {
    if n == 0 then []
    else Cut(ps, p, n - 1) + if AnswersMore(ps, p, n - 1) && !Continued(ps, p, |ps|, n - 1) then [n - 1] else []
  }

  function Orphans(ps: Pages, p: Paging, n: nat): seq<nat>
    requires n <= |ps|
  {
    if n == 0 then [] else Orphans(ps, p, n - 1) + if IsOrphan(ps, p, n - 1) then [n - 1] else []
  }

  function Refusals(ps: Pages, p: Paging): seq<Refusal> {
    seq(|Orphans(ps, p, |ps|)|, k requires 0 <= k < |Orphans(ps, p, |ps|)| => Orphan(Orphans(ps, p, |ps|)[k]))
    + seq(|Cut(ps, p, |ps|)|, k requires 0 <= k < |Cut(ps, p, |ps|)| => Truncated(Cut(ps, p, |ps|)[k]))
  }

  /** The pages that answer more. */
  function More(ps: Pages, p: Paging, n: nat): (r: seq<nat>)
    requires n <= |ps|
    ensures forall k :: 0 <= k < |r| ==> r[k] < n
  {
    if n == 0 then [] else More(ps, p, n - 1) + if AnswersMore(ps, p, n - 1) then [n - 1] else []
  }

  /** The pages of a list not in `continued`. */
  function Uncontinued(more: seq<nat>, continued: set<nat>): seq<Refusal> {
    if more == [] then []
    else Uncontinued(more[..|more| - 1], continued) + if more[|more| - 1] in continued then [] else [Truncated(more[|more| - 1])]
  }

  function OrphanRefusals(ps: Pages, p: Paging, n: nat): seq<Refusal>
    requires n <= |ps|
  {
    if n == 0 then [] else OrphanRefusals(ps, p, n - 1) + if IsOrphan(ps, p, n - 1) then [Orphan(n - 1)] else []
  }

  lemma {:induction false} OrphansRefused(ps: Pages, p: Paging, n: nat)
    requires n <= |ps|
    ensures OrphanRefusals(ps, p, n) == seq(|Orphans(ps, p, n)|, k requires 0 <= k < |Orphans(ps, p, n)| => Orphan(Orphans(ps, p, n)[k]))
  {
    if n > 0 { OrphansRefused(ps, p, n - 1); }
  }

  lemma {:induction false} CutRefused(ps: Pages, p: Paging, n: nat, continued: set<nat>)
    requires n <= |ps|
    requires forall i :: 0 <= i < |ps| ==> (i in continued <==> Continued(ps, p, |ps|, i))
    ensures Uncontinued(More(ps, p, n), continued) == seq(|Cut(ps, p, n)|, k requires 0 <= k < |Cut(ps, p, n)| => Truncated(Cut(ps, p, n)[k]))
  {
    if n > 0 {
      CutRefused(ps, p, n - 1, continued);
      var m := More(ps, p, n);
      if AnswersMore(ps, p, n - 1) {
        assert m[..|m| - 1] == More(ps, p, n - 1);
      } else {
        assert m == More(ps, p, n - 1);
      }
    }
  }

  // ----- the loop -----

  /** The map the loop keeps: each token answered, by the latest page. */
  function AnsweredMap(ps: Pages, n: nat): (m: map<string, nat>)
    requires n <= |ps|
    ensures forall t :: (if t in m then Some(m[t]) else None) == Answered(ps, n, t)
  {
    if n == 0 then map[]
    else if ps[n - 1].next == "" then AnsweredMap(ps, n - 1)
    else AnsweredMap(ps, n - 1)[ps[n - 1].next := n - 1]
  }

  /** The set the loop keeps: the pages some page continued. */
  function ContinuedSet(ps: Pages, p: Paging, n: nat): (r: set<nat>)
    requires n <= |ps|
    ensures forall i :: i in r <==> Continued(ps, p, n, i)
  {
    if n == 0 then {}
    else ContinuedSet(ps, p, n - 1) + if Before(ps, p, n - 1).Some? then {Before(ps, p, n - 1).value} else {}
  }

  /** `pages`: one pass over the pages, by the tokens answered so far, then one over those that answer more. */
  method Link(ps: Pages, p: Paging, chain: array<nat>) returns (refusals: seq<Refusal>)
    requires chain.Length == |ps| && forall i :: 0 <= i < |ps| && !p.tokens ==> ps[i].carried == ""
    modifies chain
    ensures forall i :: 0 <= i < |ps| ==> chain[i] == Root(ps, p, i)
    ensures refusals == Refusals(ps, p)
  {
    var continued, more;
    refusals, more, continued := LinkInOrder(ps, p, chain);
    RefusalsAre(ps, p, continued);
    hide ContinuedSet, More, OrphanRefusals, Refusals, Uncontinued;
    for k := 0 to |more|
      invariant refusals == OrphanRefusals(ps, p, |ps|) + Uncontinued(more[..k], continued)
      invariant forall i :: 0 <= i < |ps| ==> chain[i] == Root(ps, p, i)
    {
      UncontinuedOneMore(refusals, more, k, continued);
      if more[k] !in continued {
        refusals := refusals + [Truncated(more[k])];
      }
    }
    assert more[..|more|] == more;
  }

  lemma UncontinuedOneMore(refusals: seq<Refusal>, more: seq<nat>, k: nat, continued: set<nat>)
    requires k < |more|
    ensures Uncontinued([], continued) == []
    ensures forall os: seq<Refusal> :: refusals == os + Uncontinued(more[..k], continued) ==>
              os + Uncontinued(more[..k + 1], continued) == refusals + if more[k] in continued then [] else [Truncated(more[k])]
  {
    assert more[..k + 1][..k] == more[..k];
  }

  lemma RefusalsAre(ps: Pages, p: Paging, continued: set<nat>)
    requires continued == ContinuedSet(ps, p, |ps|)
    ensures OrphanRefusals(ps, p, |ps|) + Uncontinued(More(ps, p, |ps|), continued) == Refusals(ps, p)
    ensures OrphanRefusals(ps, p, |ps|) + Uncontinued([], continued) == OrphanRefusals(ps, p, |ps|)
  {
    OrphansRefused(ps, p, |ps|);
    CutRefused(ps, p, |ps|, continued);
    hide More, OrphanRefusals, Cut, Orphans, ContinuedSet;
  }

  /** The pass over the pages in recorded order. */
  method LinkInOrder(ps: Pages, p: Paging, chain: array<nat>) returns (refusals: seq<Refusal>, more: seq<nat>, continued: set<nat>)
    requires chain.Length == |ps| && forall i :: 0 <= i < |ps| && !p.tokens ==> ps[i].carried == ""
    modifies chain
    ensures forall i :: 0 <= i < |ps| ==> chain[i] == Root(ps, p, i)
    ensures refusals == OrphanRefusals(ps, p, |ps|)
    ensures more == More(ps, p, |ps|) && continued == ContinuedSet(ps, p, |ps|)
  {
    hide Continued, Answered, Before, AnswersMore;
    var answered: map<string, nat> := map[];
    continued, more, refusals := {}, [], [];
    for i := 0 to |ps|
      invariant p.tokens ==> answered == AnsweredMap(ps, i)
      invariant !p.tokens ==> answered == map[]
      invariant continued == ContinuedSet(ps, p, i)
      invariant more == More(ps, p, i)
      invariant refusals == OrphanRefusals(ps, p, i)
      invariant forall k :: 0 <= k < i ==> chain[k] == Root(ps, p, k)
    {
      chain[i] := i;
      var token := ps[i].carried;
      CarriesOn(ps, p, i, answered);
      if token != "" {
        if token in answered {
          chain[i] := chain[answered[token]];
          continued := continued + {answered[token]};
        } else {
          refusals := refusals + [Orphan(i)];
        }
      }
      if p.tokens {
        if AnswersMore(ps, p, i) {
          more := more + [i];
        }
        if ps[i].next != "" {
          answered := answered[ps[i].next := i];
        }
      } else {
        NoTokens(ps, p, i);
      }
    }
  }

  lemma NoTokens(ps: Pages, p: Paging, i: nat)
    requires i < |ps| && !p.tokens
    ensures !AnswersMore(ps, p, i)
  {
  }

  /** A page's token is looked up among those answered so far. */
  lemma CarriesOn(ps: Pages, p: Paging, i: nat, answered: map<string, nat>)
    requires i < |ps| && (!p.tokens ==> ps[i].carried == "" && answered == map[])
    requires p.tokens ==> answered == AnsweredMap(ps, i)
    ensures var t := ps[i].carried; Before(ps, p, i) == if t != "" && t in answered then Some(answered[t]) else None
  {
  }

  lemma RefusedAreItsPages(ps: Pages, p: Paging)
    ensures forall k :: 0 <= k < |Refusals(ps, p)| ==> Refusals(ps, p)[k].page < |ps|
  {
    var os, cs := Orphans(ps, p, |ps|), Cut(ps, p, |ps|);
    OrphansAre(ps, p, |ps|);
    CutAre(ps, p, |ps|);
    assert forall k :: 0 <= k < |os| ==> os[k] in os;
    assert forall k :: 0 <= k < |cs| ==> cs[k] in cs;
  }

  // ----- what a chain is -----

  /** Chain ids are roots, and a page is in the chain of the page it continues. */
  lemma {:induction false} ChainsAreRooted(ps: Pages, p: Paging, i: nat)
    requires i < |ps|
    ensures var r := Root(ps, p, i); Root(ps, p, r) == r && Before(ps, p, r) == None
    decreases i
  {
    var b := Before(ps, p, i);
    if b.Some? { ChainsAreRooted(ps, p, b.value); }
  }

  lemma OrphansAre(ps: Pages, p: Paging, n: nat)
    requires n <= |ps|
    ensures forall i :: i in Orphans(ps, p, n) <==> 0 <= i < n && IsOrphan(ps, p, i)
  {
  }

  lemma CutAre(ps: Pages, p: Paging, n: nat)
    requires n <= |ps|
    ensures forall i :: i in Cut(ps, p, n) <==> 0 <= i < n && AnswersMore(ps, p, i) && !Continued(ps, p, |ps|, i)
  {
  }

  /** No page is refused exactly when every token carried was answered earlier and every page answering more is continued later. */
  lemma RefusedExactly(ps: Pages, p: Paging)
    ensures Refusals(ps, p) == [] <==>
            && (forall i :: 0 <= i < |ps| && ps[i].carried != "" ==> p.tokens && exists j :: 0 <= j < i && ps[j].next == ps[i].carried)
            && (forall i :: 0 <= i < |ps| && AnswersMore(ps, p, i) ==> exists k :: i < k < |ps| && Before(ps, p, k) == Some(i))
  {
    var n := |ps|;
    OrphansAre(ps, p, n);
    CutAre(ps, p, n);
    if Refusals(ps, p) == [] {
      assert Orphans(ps, p, n) == [] && Cut(ps, p, n) == [];
      forall i | 0 <= i < n && ps[i].carried != "" ensures p.tokens && exists j :: 0 <= j < i && ps[j].next == ps[i].carried {
        assert !IsOrphan(ps, p, i);
      }
      forall i | 0 <= i < n && AnswersMore(ps, p, i) ensures exists k :: i < k < n && Before(ps, p, k) == Some(i) {
        assert Continued(ps, p, n, i);
      }
    } else {
      if Orphans(ps, p, n) != [] {
        var i := Orphans(ps, p, n)[0];
        assert i in Orphans(ps, p, n) && IsOrphan(ps, p, i);
      } else {
        var i := Cut(ps, p, n)[0];
        assert i in Cut(ps, p, n) && !Continued(ps, p, n, i);
      }
    }
  }

  /** An unrefused read was followed to its end: from any page its chain goes on to a page that answers no more. */
  lemma {:induction false} UnrefusedReadsToTheEnd(ps: Pages, p: Paging, i: nat) returns (last: nat)
    requires Refusals(ps, p) == [] && i < |ps|
    ensures i <= last < |ps| && Root(ps, p, last) == Root(ps, p, i) && !AnswersMore(ps, p, last)
    decreases |ps| - i
  {
    RefusedExactly(ps, p);
    if !AnswersMore(ps, p, i) {
      last := i;
    } else {
      var k :| i < k < |ps| && Before(ps, p, k) == Some(i);
      last := UnrefusedReadsToTheEnd(ps, p, k);
    }
  }

  /** And it starts at a page that carries no token. */
  lemma UnrefusedStartsAtTheStart(ps: Pages, p: Paging, i: nat)
    requires Refusals(ps, p) == [] && i < |ps|
    ensures ps[Root(ps, p, i)].carried == ""
  {
    RefusedExactly(ps, p);
    ChainsAreRooted(ps, p, i);
  }
}
