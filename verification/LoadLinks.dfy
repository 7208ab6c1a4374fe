/** The exchanges of a load grouped into reads, and each read's pages linked into chains. */
module LoadLinks {
  import opened Options
  import opened Trees
  import opened LoadEnv
  import opened LoadRegistry
  import LP = LoadPages

  // ----- the fields a page answers -----

  /** `loadField`: the text of the first field of the name outside any set member. */
  function LoadField(t: Tree, name: string): string
    decreases t, 1
  {
    FieldIn(t.kids, name)
  }

  function FieldIn(kids: seq<Tree>, name: string): string
    decreases kids, 0
  {
    if kids == [] then ""
    else if kids[0].member then FieldIn(kids[1..], name)
    else if kids[0].name == name && kids[0].text != "" then kids[0].text
    else
      var below := LoadField(kids[0], name);
      if below != "" then below else FieldIn(kids[1..], name)
  }

  /** The nodes below, in document order, that no set member is or holds. */
  function Singles(kids: seq<Tree>): seq<Tree> {
    if kids == [] then []
    else (if kids[0].member then [] else [kids[0]] + Singles(kids[0].kids)) + Singles(kids[1..])
  }

  predicate Filled(t: Tree, name: string) {
    t.name == name && t.text != ""
  }

  /** The first of the nodes to have the name and a text. */
  predicate FirstFilled(ts: seq<Tree>, name: string, i: int) {
    0 <= i < |ts| && Filled(ts[i], name) && forall j :: 0 <= j < i ==> !Filled(ts[j], name)
  }

  lemma FirstOfJoin(a: seq<Tree>, b: seq<Tree>, name: string)
    ensures forall i :: FirstFilled(a, name, i) ==> FirstFilled(a + b, name, i) && (a + b)[i] == a[i]
    ensures (forall j :: 0 <= j < |a| ==> !Filled(a[j], name)) ==>
              forall i :: FirstFilled(b, name, i) ==> FirstFilled(a + b, name, i + |a|) && (a + b)[i + |a|] == b[i]
  {
  }

  lemma NoneOfJoin(a: seq<Tree>, b: seq<Tree>, name: string)
    ensures (forall t :: t in a + b ==> !Filled(t, name)) <==> (forall t :: t in a ==> !Filled(t, name)) && forall t :: t in b ==> !Filled(t, name)
  {
  }

  /** What a field answers: the text of the first such node, or nothing. */
  ghost predicate FieldIs(ts: seq<Tree>, name: string, v: string) {
    if v == "" then forall t :: t in ts ==> !Filled(t, name)
    else exists i :: FirstFilled(ts, name, i) && ts[i].text == v
  }

  lemma FieldJoins(a: seq<Tree>, b: seq<Tree>, name: string, v: string, w: string)
    requires FieldIs(a, name, v) && FieldIs(b, name, w)
    ensures FieldIs(a + b, name, if v != "" then v else w)
  {
    FirstOfJoin(a, b, name);
    NoneOfJoin(a, b, name);
    hide Filled;
    if v != "" {
      var i :| FirstFilled(a, name, i) && a[i].text == v;
      assert FirstFilled(a + b, name, i);
    } else if w != "" {
      var i :| FirstFilled(b, name, i) && b[i].text == w;
      assert forall j :: 0 <= j < |a| ==> a[j] in a;
      assert FirstFilled(a + b, name, i + |a|);
    }
  }

  lemma {:induction false} FieldInIs(kids: seq<Tree>, name: string)
    ensures FieldIs(Singles(kids), name, FieldIn(kids, name))
    decreases kids
  {
    if kids != [] {
      var k, rest := kids[0], kids[1..];
      FieldInIs(rest, name);
      if k.member {
        assert Singles(kids) == Singles(rest);
      } else {
        FieldInIs(k.kids, name);
        FieldOfOne(k, name);
        hide FieldIs;
        var own := if Filled(k, name) then k.text else "";
        var below := FieldIn(k.kids, name);
        FieldJoins([k], Singles(k.kids), name, own, below);
        FieldJoins([k] + Singles(k.kids), Singles(rest), name, if own != "" then own else below, FieldIn(rest, name));
      }
    }
  }

  lemma FieldOfOne(k: Tree, name: string)
    ensures FieldIs([k], name, if Filled(k, name) then k.text else "")
  {
    if Filled(k, name) { assert FirstFilled([k], name, 0); }
  }

  /** A page's field is the text of the first node of the name, in document order, that has one and is in no set member. */
  lemma LoadFieldIsFirst(t: Tree, name: string)
    ensures FieldIs(Singles(t.kids), name, LoadField(t, name))
  {
    FieldInIs(t.kids, name);
  }

  function PagingOf(l: Loader): LP.Paging {
    LP.Paging(l.responseToken != "", l.truncated != "")
  }

  /** An exchange as a page of its read. */
  function PageOf(e: Env, i: nat): LP.Page
    requires InEnv(e, i) && IsGood(e, i)
  {
    var x := e.exchanges[i];
    var l := LoaderFor(e.loaders, x.key);
    LP.Page(if l.requestToken == "" then "" else x.carried,
            LoadField(x.tree.value, l.responseToken), LoadField(x.tree.value, l.truncated))
  }

  // ----- reads -----

  /** A read: its action, and its params but for the request token. */
  datatype Read = Read(key: LoadKey, params: string)

  function ReadOf(e: Env, i: nat): Read
    requires i < |e.exchanges|
  {
    Read(e.exchanges[i].key, e.exchanges[i].params)
  }

  ghost predicate AllGood(e: Env, at: seq<nat>) {
    forall k :: 0 <= k < |at| ==> InEnv(e, at[k]) && IsGood(e, at[k])
  }

  ghost predicate Ascends(at: seq<nat>) {
    forall a, b :: 0 <= a < b < |at| ==> at[a] < at[b]
  }

  /** The exchanges of a list in one read, in order. */
  function In(e: Env, at: seq<nat>, r: Read): (s: seq<nat>)
    requires forall k :: 0 <= k < |at| ==> at[k] < |e.exchanges|
    ensures forall i :: i in s <==> i in at && ReadOf(e, i) == r
    ensures forall k :: 0 <= k < |s| ==> s[k] < |e.exchanges|
  {
    if at == [] then []
    else
      var n := |at| - 1;
      assert forall i :: i in at <==> i == at[n] || i in at[..n];
      var s := In(e, at[..n], r) + if ReadOf(e, at[n]) == r then [at[n]] else [];
      assert forall k :: 0 <= k < |s| ==> s[k] in s;
      s
  }

  lemma {:induction false} InAscends(e: Env, at: seq<nat>, r: Read)
    requires AllGood(e, at) && Ascends(at)
    ensures AllGood(e, In(e, at, r)) && Ascends(In(e, at, r))
  {
    if at != [] {
      var n := |at| - 1;
      InAscends(e, at[..n], r);
      var s := In(e, at[..n], r);
      forall k | 0 <= k < |s| ensures s[k] < at[n] {
        assert s[k] in s;
        var j :| 0 <= j < n && at[..n][j] == s[k];
        assert at[j] == s[k];
      }
    }
  }

  function PagesOf(e: Env, at: seq<nat>): (ps: LP.Pages)
    requires AllGood(e, at)
    ensures |ps| == |at|
  {
    seq(|at|, k requires 0 <= k < |at| => PageOf(e, at[k]))
  }

  function Place(at: seq<nat>, i: nat): (k: nat)
    requires i in at
    ensures k < |at| && at[k] == i
  {
    if at[0] == i then 0 else 1 + Place(at[1..], i)
  }

  lemma PlacesAscend(at: seq<nat>, j: nat, k: nat)
    requires Ascends(at) && j < |at| && k < |at|
    ensures j < k <==> at[j] < at[k]
    ensures j == k <==> at[j] == at[k]
  {
    if j < k {
      assert at[j] < at[k];
    } else if k < j {
      assert at[k] < at[j];
    }
  }

  lemma PlaceOfItem(at: seq<nat>, k: nat)
    requires Ascends(at) && k < |at|
    ensures Place(at, at[k]) == k
  {
    PlacesAscend(at, Place(at, at[k]), k);
  }

  /** The good exchanges of the read that exchange `i` is of, in recorded order. */
  ghost function Pages(e: Env, i: nat): (at: seq<nat>)
    requires e.Valid() && i < |e.exchanges|
    ensures AllGood(e, at) && Ascends(at)
    ensures forall j :: j in at <==> 0 <= j < |e.exchanges| && IsGood(e, j) && ReadOf(e, j) == ReadOf(e, i)
  {
    var good := GoodOf(e, |e.exchanges|);
    GoodAreGood(e);
    InAscends(e, good, ReadOf(e, i));
    In(e, good, ReadOf(e, i))
  }

  lemma GoodAreGood(e: Env)
    requires e.Valid()
    ensures AllGood(e, GoodOf(e, |e.exchanges|)) && Ascends(GoodOf(e, |e.exchanges|))
  {
    var good := GoodOf(e, |e.exchanges|);
    assert forall k :: 0 <= k < |good| ==> good[k] in good;
  }

  ghost function PagingAt(e: Env, i: nat): LP.Paging
    requires InEnv(e, i)
  {
    PagingOf(LoaderFor(e.loaders, e.exchanges[i].key))
  }

  /** `chain`: the first page of the exchange's chain. */
  ghost function ChainOf(e: Env, i: nat): nat {
    if e.Valid() && i < |e.exchanges| && IsGood(e, i) then
      var at := Pages(e, i);
      at[LP.Root(PagesOf(e, at), PagingAt(e, i), Place(at, i))]
    else i
  }

  /** No page of the exchange's read is an orphan or cut short. */
  ghost predicate ReadFits(e: Env, i: nat)
    requires e.Valid() && i < |e.exchanges|
  {
    LP.Refusals(PagesOf(e, Pages(e, i)), PagingAt(e, i)) == []
  }

  ghost predicate LinksFit(e: Env)
    requires e.Valid()
  {
    forall i :: 0 <= i < |e.exchanges| && IsGood(e, i) ==> ReadFits(e, i)
  }

  lemma PagesAreTheRead(e: Env, at: seq<nat>, r: Read, i: nat)
    requires e.Valid() && at == In(e, GoodOf(e, |e.exchanges|), r) && i in at
    ensures i < |e.exchanges| && IsGood(e, i) && Pages(e, i) == at && ReadOf(e, i) == r
    ensures PagingAt(e, i) == PagingOf(LoaderFor(e.loaders, r.key))
  {
  }

  /** What linking one read's pages tells of each page. */
  lemma LinkedRead(e: Env, at: seq<nat>, r: Read, k: nat)
    requires e.Valid() && at == In(e, GoodOf(e, |e.exchanges|), r) && k < |at|
    ensures AllGood(e, at) && Registered(e.loaders, r.key)
    ensures var ps, p := PagesOf(e, at), PagingOf(LoaderFor(e.loaders, r.key));
            && ChainOf(e, at[k]) == at[LP.Root(ps, p, k)]
            && (ReadFits(e, at[k]) <==> LP.Refusals(ps, p) == [])
  {
    PagesAreTheRead(e, at, r, at[k]);
    PlaceOfItem(at, k);
  }

  // ----- what fitting links mean -----

  /** An earlier page of the read answered the token the exchange carries. */
  ghost predicate Answered(e: Env, i: nat)
    requires InEnv(e, i) && IsGood(e, i)
  {
    exists j :: 0 <= j < i && InEnv(e, j) && IsGood(e, j) && ReadOf(e, j) == ReadOf(e, i)
             && PageOf(e, j).next == PageOf(e, i).carried
  }

  /** The exchange says more pages follow. */
  ghost predicate AnswersMore(e: Env, i: nat)
    requires InEnv(e, i) && IsGood(e, i)
  {
    var p := PageOf(e, i);
    PagingAt(e, i).tokens && (p.next != "" || (PagingAt(e, i).truncates && p.flag != "" && p.flag != "false"))
  }

  /** A later page of the read carries on from the exchange, in its chain. */
  ghost predicate Followed(e: Env, i: nat)
    requires e.Valid() && i < |e.exchanges| && IsGood(e, i)
  {
    exists j :: i < j < |e.exchanges| && IsGood(e, j) && ReadOf(e, j) == ReadOf(e, i) && CarriesOnFrom(e, j, i)
  }

  /** `i` is the latest earlier page of the read to answer the token `j` carries. */
  ghost predicate CarriesOnFrom(e: Env, j: nat, i: nat)
    requires InEnv(e, j) && IsGood(e, j) && InEnv(e, i) && IsGood(e, i)
  {
    && PageOf(e, j).carried != "" && PageOf(e, i).next == PageOf(e, j).carried && PagingAt(e, i).tokens
    && forall k :: i < k < j && InEnv(e, k) && IsGood(e, k) && ReadOf(e, k) == ReadOf(e, i) ==> PageOf(e, k).next != PageOf(e, j).carried
  }

  /** What linking asks of one page. */
  ghost predicate PageFits(e: Env, i: nat)
    requires e.Valid() && i < |e.exchanges| && IsGood(e, i)
  {
    && (PageOf(e, i).carried != "" ==> Answered(e, i))
    && (AnswersMore(e, i) ==> Followed(e, i))
  }

  lemma EarlierAnswer(e: Env, i: nat, k: nat)
    requires e.Valid() && i < |e.exchanges| && k < |Pages(e, i)|
    ensures var at := Pages(e, i);
            var ps := PagesOf(e, at);
            Answered(e, at[k]) <==> exists j :: 0 <= j < k && ps[j].next == ps[k].carried
  {
    hide PageOf, LoaderFor, GoodOf, In, Pages, IsGood, Env.Valid;
    var at := Pages(e, i);
    var ps := PagesOf(e, at);
    assert at[k] in at;
    if j :| 0 <= j < k && ps[j].next == ps[k].carried {
      assert at[j] in at && at[j] < at[k];
    }
    if j :| 0 <= j < at[k] && InEnv(e, j) && IsGood(e, j) && ReadOf(e, j) == ReadOf(e, at[k])
            && PageOf(e, j).next == PageOf(e, at[k]).carried {
      var m := Place(at, j);
      PlacesAscend(at, m, k);
      assert ps[m].next == ps[k].carried;
    }
  }

  /** Carrying on from a page is having it as the one before. */
  lemma BeforeIsCarriedOn(e: Env, i: nat, k: nat, m: nat)
    requires e.Valid() && i < |e.exchanges| && k < |Pages(e, i)| && m < k
    ensures var at := Pages(e, i);
            LP.Before(PagesOf(e, at), PagingAt(e, i), k) == Some(m) <==> CarriesOnFrom(e, at[k], at[m])
  {
    hide PageOf, LoaderFor, GoodOf, In, Pages, IsGood, LP.Answered;
    var at := Pages(e, i);
    var ps, p := PagesOf(e, at), PagingAt(e, i);
    assert at[k] in at && at[m] in at && at[m] < at[k];
    var b := LP.Before(ps, p, k);
    if b == Some(m) {
      forall j | at[m] < j < at[k] && InEnv(e, j) && IsGood(e, j) && ReadOf(e, j) == ReadOf(e, at[m])
        ensures PageOf(e, j).next != PageOf(e, at[k]).carried
      {
        var l := Place(at, j);
        PlacesAscend(at, m, l);
        PlacesAscend(at, l, k);
        assert ps[l].next != ps[k].carried;
      }
    }
    if CarriesOnFrom(e, at[k], at[m]) {
      OnlyOneBefore(e, at, ps, p, k, m);
    }
  }

  lemma OnlyOneBefore(e: Env, at: seq<nat>, ps: LP.Pages, p: LP.Paging, k: nat, m: nat)
    requires AllGood(e, at) && Ascends(at) && ps == PagesOf(e, at) && m < k < |at| && p.tokens
    requires forall j, l :: 0 <= j < l < |at| ==> ReadOf(e, at[j]) == ReadOf(e, at[l])
    requires ps[m].next == ps[k].carried != "" && CarriesOnFrom(e, at[k], at[m])
    ensures LP.Before(ps, p, k) == Some(m)
  {
    forall j | m < j < k ensures ps[j].next != ps[k].carried {
      assert at[m] < at[j] < at[k];
    }
    LatestAnswers(ps, k, m, ps[k].carried);
  }

  lemma {:induction false} LatestAnswers(ps: LP.Pages, n: nat, m: nat, token: string)
    requires m < n <= |ps| && ps[m].next == token != "" && forall j :: m < j < n ==> ps[j].next != token
    ensures LP.Answered(ps, n, token) == Some(m)
    decreases n
  {
    if m < n - 1 {
      LatestAnswers(ps, n - 1, m, token);
    }
  }

  lemma FollowedIsContinued(e: Env, i: nat, m: nat)
    requires e.Valid() && i < |e.exchanges| && m < |Pages(e, i)|
    ensures var at := Pages(e, i);
            Followed(e, at[m]) <==> exists k :: m < k < |at| && LP.Before(PagesOf(e, at), PagingAt(e, i), k) == Some(m)
  {
    var at := Pages(e, i);
    assert at[m] in at;
    if k :| m < k < |at| && LP.Before(PagesOf(e, at), PagingAt(e, i), k) == Some(m) {
      BeforeIsCarriedOn(e, i, k, m);
      assert at[k] in at && at[m] < at[k];
    }
    if j :| at[m] < j < |e.exchanges| && IsGood(e, j) && ReadOf(e, j) == ReadOf(e, at[m]) && CarriesOnFrom(e, j, at[m]) {
      var k := Place(at, j);
      PlacesAscend(at, m, k);
      BeforeIsCarriedOn(e, i, k, m);
    }
  }

  lemma ReadFitsExactly(e: Env, i: nat)
    requires e.Valid() && i < |e.exchanges|
    ensures ReadFits(e, i) <==> forall j :: j in Pages(e, i) ==> PageFits(e, j)
  {
    var at := Pages(e, i);
    var ps, p := PagesOf(e, at), PagingAt(e, i);
    LP.RefusedExactly(ps, p);
    forall k | 0 <= k < |at|
      ensures PageFits(e, at[k]) <==>
              && (ps[k].carried != "" ==> p.tokens && exists j :: 0 <= j < k && ps[j].next == ps[k].carried)
              && (LP.AnswersMore(ps, p, k) ==> exists l :: k < l < |ps| && LP.Before(ps, p, l) == Some(k))
    {
      assert at[k] in at;
      EarlierAnswer(e, i, k);
      FollowedIsContinued(e, i, k);
    }
    forall j | j in at ensures PageFits(e, j) <==> PageFits(e, at[Place(at, j)]) {
    }
  }

  /**
   * No page is refused, in any read, exactly when every token carried was answered
   * by an earlier page of its read and every page that answers more is followed.
   */
  lemma LinksFitExactly(e: Env)
    requires e.Valid()
    ensures LinksFit(e) <==> forall i :: 0 <= i < |e.exchanges| && IsGood(e, i) ==> PageFits(e, i)
  {
    forall i | 0 <= i < |e.exchanges| && IsGood(e, i)
      ensures ReadFits(e, i) <==> forall j :: j in Pages(e, i) ==> PageFits(e, j)
    {
      ReadFitsExactly(e, i);
    }
    if LinksFit(e) {
      forall i | 0 <= i < |e.exchanges| && IsGood(e, i) ensures PageFits(e, i) {
        assert i in Pages(e, i);
      }
    }
  }

  /** A page is in the chain of the page it carries on from. */
  lemma ChainGoesOn(e: Env, i: nat, j: nat)
    requires e.Valid() && i < j < |e.exchanges| && IsGood(e, i) && IsGood(e, j)
    requires ReadOf(e, i) == ReadOf(e, j) && CarriesOnFrom(e, j, i)
    ensures ChainOf(e, j) == ChainOf(e, i)
  {
    var at := Pages(e, j);
    assert at == Pages(e, i);
    var m, k := Place(at, i), Place(at, j);
    PlacesAscend(at, m, k);
    BeforeIsCarriedOn(e, j, k, m);
  }
}
