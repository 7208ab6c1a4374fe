/**
 * What a load is given: the recorded exchanges, and the loaders, whose own code is
 * a parameter: what it answers for an exchange, and for an item or a row on the
 * rows written so far.
 */
module LoadEnv {
  import opened Options
  import opened Sorting
  import opened Trees
  import opened LoadTrees
  import opened LoadRegistry

  datatype Ref = Ref(typ: string, id: string)

  /** A row an item references; with a path, its body holds a copy of the row there. */
  datatype Reference = Reference(ref: Ref, unread: bool, path: string, index: nat)

  datatype Item = Item(ref: Ref, path: string, index: nat, refs: seq<Reference>, writes: bool)

  datatype Row = Row(item: Item, exchange: nat)

  datatype Write = Write(ref: Ref, exchange: nat)

  /** What `guard` makes of a loader's step: done, refused on purpose, or failed. */
  datatype Outcome<T> = Fine(value: T) | Declined | Fails

  /**
   * An exchange: its status, its body if it parses, that body's error code, its
   * params less the request token, and the token it carries, "" for none.
   */
  datatype Exchange = Exchange(
    key: LoadKey, status: nat, tree: Option<Tree>, code: string, params: string, carried: string)

  datatype RulePath = RulePath(key: LoadKey, path: string)

  datatype Env = Env(
    exchanges: seq<Exchange>, loaders: seq<Loader>,
    decode: nat -> Outcome<seq<Item>>, write: (seq<Write>, Item) -> Outcome<()>,
    render: (seq<Write>, nat, Ref) -> Outcome<Option<Tree>>,
    ignores: seq<RulePath>, encoded: seq<RulePath>, hash: string -> nat)
  {
    /** A registry as `registerLoader` leaves it, with a loader for every exchange. */
    ghost predicate Valid() {
      && SortedBy(RankLeq, loaders) && DistinctKeys(loaders) && (forall l :: l in loaders ==> Paged(l))
      && forall i :: 0 <= i < |exchanges| ==> Registered(loaders, exchanges[i].key)
    }
  }

  /** Both page tokens or neither. */
  predicate Paged(l: Loader) {
    l.requestToken == "" <==> l.responseToken == ""
  }

  /** `loaderFor`. */
  function LoaderFor(ls: seq<Loader>, key: LoadKey): (l: Loader)
    requires Registered(ls, key)
    ensures l in ls && l.key == key
  {
    if ls[0].key == key then ls[0] else LoaderFor(ls[1..], key)
  }

  predicate Answered(x: Exchange) {
    200 <= x.status < 300
  }

  /** A non-2xx answer its loader reads as absence. */
  predicate NotFound(e: Env, i: nat)
    requires i < |e.exchanges|
  {
    var x := e.exchanges[i];
    !Answered(x) && x.tree.Some? && Registered(e.loaders, x.key) && x.code in LoaderFor(e.loaders, x.key).notFound
  }

  /** A 2xx answer whose body parses. */
  predicate IsGood(e: Env, i: nat)
    requires i < |e.exchanges|
  {
    Answered(e.exchanges[i]) && e.exchanges[i].tree.Some?
  }

  /** The exchanges to decode, in recorded order. */
  function GoodOf(e: Env, n: nat): (r: seq<nat>)
    requires n <= |e.exchanges|
    ensures forall i :: i in r <==> 0 <= i < n && IsGood(e, i)
    ensures forall a :: 0 <= a < |r| ==> r[a] < n
    ensures forall a, b :: 0 <= a < b < |r| ==> r[a] < r[b]
  {
    if n == 0 then [] else GoodOf(e, n - 1) + if IsGood(e, n - 1) then [n - 1] else []
  }

  /** Each of the first `n` exchanges is decoded or read absence. */
  predicate AllFit(e: Env, n: nat)
    requires n <= |e.exchanges|
    ensures AllFit(e, n) ==> forall i :: 0 <= i < n ==> IsGood(e, i) || NotFound(e, i)
  {
    n == 0 || (AllFit(e, n - 1) && (IsGood(e, n - 1) || NotFound(e, n - 1)))
  }

  /** How many of the first `n` exchanges read absence, by their loaders' types. */
  function AbsentOf(e: Env, n: nat): map<string, nat>
    requires n <= |e.exchanges|
  {
    if n == 0 then map[]
    else if NotFound(e, n - 1) then CountUp(AbsentOf(e, n - 1), LoaderFor(e.loaders, e.exchanges[n - 1].key).typ)
    else AbsentOf(e, n - 1)
  }

  lemma TheLoader(ls: seq<Loader>, l: Loader)
    requires DistinctKeys(ls) && l in ls
    ensures Registered(ls, l.key) && LoaderFor(ls, l.key) == l
  {
    var m := LoaderFor(ls, l.key);
    var i :| 0 <= i < |ls| && ls[i] == l;
    var j :| 0 <= j < |ls| && ls[j] == m;
    if i < j { assert ls[i].key != ls[j].key; } else if j < i { assert ls[j].key != ls[i].key; }
  }

  function RankOf(e: Env, i: nat): nat
    requires i < |e.exchanges| && Registered(e.loaders, e.exchanges[i].key)
  {
    LoaderFor(e.loaders, e.exchanges[i].key).rank
  }

  ghost predicate InEnv(e: Env, i: nat) {
    i < |e.exchanges| && Registered(e.loaders, e.exchanges[i].key)
  }

  /** The recorded item, or none when the loader named a path the body does not hold. */
  function Recorded(e: Env, i: nat, path: string, index: nat): Option<Tree>
    requires i < |e.exchanges|
  {
    if e.exchanges[i].tree.None? then None else Subtree(e.exchanges[i].tree.value, path, index)
  }

  function Counted(m: map<string, nat>, typ: string): nat {
    if typ in m then m[typ] else 0
  }

  function CountUp(m: map<string, nat>, typ: string): map<string, nat> {
    m[typ := Counted(m, typ) + 1]
  }
}
