/**
 * A hosted zone's record sets: the batch of changes that is checked whole before
 * any is applied, and the sorted, filtered list.
 */
module Route53 {
  import opened Options
  import opened Sorting
  import opened Text

  datatype Key = Key(name: string, kind: string, setId: string)

  /** What a record set holds beside its key. */
  datatype Value = Value(ttl: int, records: seq<string>, alias: string)

  type Records = map<Key, Value>

  datatype Change = Change(action: string, name: string, kind: string, setId: string, value: Value)

  // ----- names -----

  predicate Dotted(s: string) {
    s != "" && s[|s| - 1] == '.'
  }

  /** `r53FQDN`. */
  function Fqdn(name: string): string {
    if name != "" && !Dotted(name) then name + "." else name
  }

  function TrimDot(s: string): string {
    if Dotted(s) then s[..|s| - 1] else s
  }

  /** `r53IsApex`. */
  predicate IsApex(name: string, zone: string) {
    TrimDot(name) == TrimDot(zone)
  }

  /** However a record's name was sent, the name it is stored under is the apex or is not. */
  lemma StoredApex(name: string, zone: string)
    ensures IsApex(Fqdn(name), zone) <==> IsApex(name, zone)
    ensures Fqdn(Fqdn(name)) == Fqdn(name)
  {
  }

  function KeyOf(c: Change): Key {
    Key(Fqdn(c.name), c.kind, c.setId)
  }

  // ----- one change after another -----

  datatype Refusal = UnknownAction | ApexCname | Unnamed | Exists | NotFound

  /** A change refused whatever the zone holds. */
  function Malformed(zone: string, c: Change): Option<Refusal> {
    if c.action !in {"CREATE", "UPSERT", "DELETE"} then Some(UnknownAction)
    else if c.kind == "CNAME" && IsApex(c.name, zone) then Some(ApexCname)
    else if c.name == "" || c.kind == "" then Some(Unnamed)
    else None
  }

  /** A change refused for what the zone holds. */
  function Clash(c: Change, exists_: bool): Option<Refusal> {
    if c.action == "CREATE" && exists_ then Some(Exists)
    else if c.action == "DELETE" && !exists_ then Some(NotFound)
    else None
  }

  function Applied(records: Records, c: Change): Records {
    if c.action == "DELETE" then records - {KeyOf(c)} else records[KeyOf(c) := c.value]
  }

  datatype Outcome = Done(records: Records) | RefusedAt(index: nat, why: Refusal)

  /** The meaning of a batch: each change in turn on the zone the earlier ones left. */
  function Sequential(records: Records, zone: string, changes: seq<Change>): Outcome
    decreases |changes|
  {
    if changes == [] then Done(records)
    else
      var c := changes[0];
      var bad := Malformed(zone, c);
      var clash := Clash(c, KeyOf(c) in records);
      if bad.Some? then RefusedAt(0, bad.value)
      else if clash.Some? then RefusedAt(0, clash.value)
      else Later(1, Sequential(Applied(records, c), zone, changes[1..]))
  }

  function Later(n: nat, o: Outcome): Outcome {
    if o.Done? then o else RefusedAt(o.index + n, o.why)
  }

  /** The last change of a batch to a key, if any. */
  function LastOn(changes: seq<Change>, k: Key): (r: Option<Change>)
    ensures r.Some? ==> r.value in changes && KeyOf(r.value) == k
    ensures r.None? ==> forall c :: c in changes ==> KeyOf(c) != k
  {
    if changes == [] then None
    else if KeyOf(changes[|changes| - 1]) == k then Some(changes[|changes| - 1])
    else LastOn(changes[..|changes| - 1], k)
  }

  /** What a key holds once every change is applied: what the last change to it says. */
  function Finally(records: Records, changes: seq<Change>, k: Key): Option<Value> {
    match LastOn(changes, k)
    case None => if k in records then Some(records[k]) else None
    case Some(c) => if c.action == "DELETE" then None else Some(c.value)
  }

  lemma {:induction false} LastOnTail(changes: seq<Change>, k: Key)
    requires changes != []
    ensures LastOn(changes, k) ==
            if LastOn(changes[1..], k).Some? then LastOn(changes[1..], k)
            else if KeyOf(changes[0]) == k then Some(changes[0]) else None
  {
    var init := changes[..|changes| - 1];
    if |changes| > 1 {
      assert changes[1..][..|changes[1..]| - 1] == init[1..];
      assert init[0] == changes[0];
      if KeyOf(changes[|changes| - 1]) != k {
        LastOnTail(init, k);
      }
    } else {
      assert init == [];
    }
  }

  /** A batch that goes through leaves each key as the last change to it says, and no other key changed. */
  lemma {:induction false} LastChangeWins(records: Records, zone: string, changes: seq<Change>)
    ensures var o := Sequential(records, zone, changes);
            o.Done? ==> forall k :: (if k in o.records then Some(o.records[k]) else None) == Finally(records, changes, k)
    decreases |changes|
  {
    var o := Sequential(records, zone, changes);
    if changes != [] && o.Done? {
      var next := Applied(records, changes[0]);
      LastChangeWins(next, zone, changes[1..]);
      forall k ensures Finally(next, changes[1..], k) == Finally(records, changes, k) {
        LastOnTail(changes, k);
      }
    }
  }

  /** Two batches in a row are one: a batch may be cut anywhere. */
  lemma {:induction false} BatchesCompose(records: Records, zone: string, a: seq<Change>, b: seq<Change>)
    ensures Sequential(records, zone, a + b) ==
            match Sequential(records, zone, a)
            case Done(mid) => Later(|a|, Sequential(mid, zone, b))
            case RefusedAt(i, why) => RefusedAt(i, why)
    decreases |a|
  {
    if a == [] {
      assert a + b == b;
    } else {
      assert (a + b)[1..] == a[1..] + b;
      BatchesCompose(Applied(records, a[0]), zone, a[1..], b);
    }
  }

  // ----- exactly when a batch is served -----

  /** Change `j` is the last of the first `i` to write or delete the key. */
  predicate LatestOn(changes: seq<Change>, i: nat, k: Key, j: int)
    requires i <= |changes|
  {
    0 <= j < i && KeyOf(changes[j]) == k && forall m :: j < m < i ==> KeyOf(changes[m]) != k
  }

  /** The key is held just before change `i`: the last earlier change to it says so or, with none, the zone does. */
  ghost predicate HeldBefore(records: Records, changes: seq<Change>, i: nat, k: Key)
    requires i <= |changes|
  {
    || (k in records && forall j :: 0 <= j < i ==> KeyOf(changes[j]) != k)
    || exists j :: LatestOn(changes, i, k, j) && changes[j].action != "DELETE"
  }

  /** The change itself is one Route53 takes: a known action, no CNAME at the zone's name, a name and a type. */
  predicate WellFormed(zone: string, c: Change) {
    && (c.action == "CREATE" || c.action == "UPSERT" || c.action == "DELETE")
    && !(c.kind == "CNAME" && TrimDot(c.name) == TrimDot(zone))
    && c.name != "" && c.kind != ""
  }

  /** Why change `i` is refused, given the zone and the changes before it. */
  ghost predicate RefusedFor(records: Records, zone: string, changes: seq<Change>, i: nat, why: Refusal)
    requires i < |changes|
  {
    var c := changes[i];
    var known := c.action == "CREATE" || c.action == "UPSERT" || c.action == "DELETE";
    var apex := c.kind == "CNAME" && TrimDot(c.name) == TrimDot(zone);
    match why
    case UnknownAction => !known
    case ApexCname => known && apex
    case Unnamed => known && !apex && (c.name == "" || c.kind == "")
    case Exists => WellFormed(zone, c) && c.action == "CREATE" && HeldBefore(records, changes, i, KeyOf(c))
    case NotFound => WellFormed(zone, c) && c.action == "DELETE" && !HeldBefore(records, changes, i, KeyOf(c))
  }

  /** Change `i` may be made: well formed, no CREATE of a key held, no DELETE of one not held. */
  ghost predicate MayBeMade(records: Records, zone: string, changes: seq<Change>, i: nat)
    requires i < |changes|
  {
    var c := changes[i];
    && WellFormed(zone, c)
    && (c.action == "CREATE" ==> !HeldBefore(records, changes, i, KeyOf(c)))
    && (c.action == "DELETE" ==> HeldBefore(records, changes, i, KeyOf(c)))
  }

  lemma HeldAfterFirst(records: Records, changes: seq<Change>, i: nat, k: Key)
    requires i < |changes|
    ensures HeldBefore(records, changes, i + 1, k) <==> HeldBefore(Applied(records, changes[0]), changes[1..], i, k)
  {
    var rest := changes[1..];
    assert forall j :: 0 <= j < i ==> rest[j] == changes[j + 1];
    forall j | 0 <= j < i ensures LatestOn(rest, i, k, j) <==> LatestOn(changes, i + 1, k, j + 1) {
      LatestShifts(changes, i, k, j);
    }
    if j :| LatestOn(changes, i + 1, k, j) && changes[j].action != "DELETE" {
      assert j > 0 ==> LatestOn(rest, i, k, j - 1);
    }
    if j :| LatestOn(rest, i, k, j) && rest[j].action != "DELETE" {
      assert LatestOn(changes, i + 1, k, j + 1) && changes[j + 1] == rest[j];
    }
    if forall j :: 0 <= j < i ==> KeyOf(rest[j]) != k {
      assert LatestOn(changes, i + 1, k, 0) <==> KeyOf(changes[0]) == k;
      var n := i + 1;
      forall j | 0 < j < n ensures !LatestOn(changes, n, k, j) {
        assert rest[j - 1] == changes[j];
      }
      assert (forall j :: 0 <= j < i + 1 ==> KeyOf(changes[j]) != k) <==> KeyOf(changes[0]) != k;
    }
  }

  lemma LatestShifts(changes: seq<Change>, i: nat, k: Key, j: nat)
    requires i < |changes| && j < i
    ensures LatestOn(changes[1..], i, k, j) <==> LatestOn(changes, i + 1, k, j + 1)
  {
    var rest := changes[1..];
    if LatestOn(rest, i, k, j) {
      forall m | j + 1 < m < i + 1 ensures KeyOf(changes[m]) != k {
        assert rest[m - 1] == changes[m];
      }
    }
    if LatestOn(changes, i + 1, k, j + 1) {
      forall m | j < m < i ensures KeyOf(rest[m]) != k {
        assert rest[m] == changes[m + 1];
      }
    }
  }

  lemma AfterFirst(records: Records, zone: string, changes: seq<Change>, i: nat)
    requires i + 1 < |changes|
    ensures MayBeMade(records, zone, changes, i + 1) <==> MayBeMade(Applied(records, changes[0]), zone, changes[1..], i)
    ensures forall why ::
              RefusedFor(records, zone, changes, i + 1, why) <==> RefusedFor(Applied(records, changes[0]), zone, changes[1..], i, why)
  {
    HeldAfterFirst(records, changes, i, KeyOf(changes[i + 1]));
    hide HeldBefore, WellFormed, KeyOf, Applied;
    assert changes[1..][i] == changes[i + 1];
  }

  lemma FirstChange(records: Records, zone: string, changes: seq<Change>)
    requires changes != []
    ensures var c := changes[0];
            var bad, clash := Malformed(zone, c), Clash(c, KeyOf(c) in records);
            && (MayBeMade(records, zone, changes, 0) <==> bad.None? && clash.None?)
            && (bad.Some? ==> RefusedFor(records, zone, changes, 0, bad.value))
            && (bad.None? && clash.Some? ==> RefusedFor(records, zone, changes, 0, clash.value))
  {
    var k := KeyOf(changes[0]);
    assert !exists j :: LatestOn(changes, 0, k, j);
    assert HeldBefore(records, changes, 0, k) <==> k in records;
    var a := changes[0].action;
    assert a in {"CREATE", "UPSERT", "DELETE"} <==> a == "CREATE" || a == "UPSERT" || a == "DELETE";
  }

  /**
   * A batch is served exactly when every change in it may be made after those before
   * it; else the first that may not is refused, for what is wrong with it.
   */
  lemma {:induction false} BatchServedExactly(records: Records, zone: string, changes: seq<Change>)
    ensures match Sequential(records, zone, changes)
            case Done(_) => forall i :: 0 <= i < |changes| ==> MayBeMade(records, zone, changes, i)
            case RefusedAt(i, why) =>
              && i < |changes| && !MayBeMade(records, zone, changes, i) && RefusedFor(records, zone, changes, i, why)
              && forall j :: 0 <= j < i ==> MayBeMade(records, zone, changes, j)
    decreases |changes|
  {
    if changes != [] {
      FirstChange(records, zone, changes);
      var c := changes[0];
      hide MayBeMade, RefusedFor, Malformed, Clash, Applied, KeyOf;
      if Malformed(zone, c).None? && Clash(c, KeyOf(c) in records).None? {
        var next, rest := Applied(records, c), changes[1..];
        BatchServedExactly(next, zone, rest);
        var last := match Sequential(next, zone, rest) case Done(_) => |rest| case RefusedAt(m, _) => m;
        forall i | 0 <= i < |changes| && i <= last ensures MayBeMade(records, zone, changes, i) {
          if i > 0 { AfterFirst(records, zone, changes, i - 1); }
        }
        if last < |rest| { AfterFirst(records, zone, changes, last); }
      }
    }
  }

  // ----- what no batch stores -----

  /** No CNAME at the zone's own name, with or without its dot, and no empty name or type. */
  ghost predicate Sound(records: Records, zone: string) {
    forall k :: k in records ==> !(k.kind == "CNAME" && IsApex(k.name, zone)) && k.name != "" && k.kind != ""
  }

  lemma {:induction false} BatchKeepsSound(records: Records, zone: string, changes: seq<Change>)
    requires Sound(records, zone)
    ensures var o := Sequential(records, zone, changes); o.Done? ==> Sound(o.records, zone)
    decreases |changes|
  {
    if changes != [] && Malformed(zone, changes[0]).None? {
      StoredApex(changes[0].name, zone);
      BatchKeepsSound(Applied(records, changes[0]), zone, changes[1..]);
    }
  }

  /** `CreateHostedZone`'s NS and SOA record sets, under the name as it was sent. */
  function Seeds(zone: string, ns: Value, soa: Value): Records {
    map[Key(zone, "NS", "") := ns, Key(zone, "SOA", "") := soa]
  }

  /** Batches in turn on a new zone; one refused changes nothing. */
  function RunBatches(records: Records, zone: string, batches: seq<seq<Change>>): Records
    decreases |batches|
  {
    if batches == [] then records
    else
      var o := Sequential(records, zone, batches[0]);
      RunBatches(if o.Done? then o.records else records, zone, batches[1..])
  }

  lemma {:induction false} RunKeepsSound(records: Records, zone: string, batches: seq<seq<Change>>)
    requires Sound(records, zone)
    ensures Sound(RunBatches(records, zone, batches), zone)
    decreases |batches|
  {
    if batches != [] {
      BatchKeepsSound(records, zone, batches[0]);
      var o := Sequential(records, zone, batches[0]);
      RunKeepsSound(if o.Done? then o.records else records, zone, batches[1..]);
    }
  }

  /** No run of batches on a new zone stores a CNAME under the zone's name, with or without its trailing dot. */
  lemma NoApexCname(zone: string, ns: Value, soa: Value, batches: seq<seq<Change>>, k: Key)
    requires zone != "" && k in RunBatches(Seeds(zone, ns, soa), zone, batches) && k.kind == "CNAME"
    ensures !IsApex(k.name, zone)
    ensures !Dotted(zone) ==> k.name != zone && k.name != zone + "."
    ensures Dotted(zone) ==> k.name != zone && (k.name == TrimDot(zone) ==> Dotted(k.name))
  {
    RunKeepsSound(Seeds(zone, ns, soa), zone, batches);
    if !Dotted(zone) {
      assert TrimDot(zone + ".") == zone;
    }
  }

  // ----- a CNAME at the zone's name in other letters -----

  /** The batches of a run that went through, one after another. */
  function Served(records: Records, zone: string, batches: seq<seq<Change>>): seq<Change>
    decreases |batches|
  {
    if batches == [] then []
    else
      match Sequential(records, zone, batches[0])
      case Done(next) => batches[0] + Served(next, zone, batches[1..])
      case RefusedAt(_, _) => Served(records, zone, batches[1..])
  }

  /** A run of batches, some refused, is the one batch of all that was served. */
  lemma {:induction false} RunIsItsServed(records: Records, zone: string, batches: seq<seq<Change>>)
    ensures Sequential(records, zone, Served(records, zone, batches)) == Done(RunBatches(records, zone, batches))
    decreases |batches|
  {
    if batches != [] {
      match Sequential(records, zone, batches[0])
      case Done(next) =>
        RunIsItsServed(next, zone, batches[1..]);
        BatchesCompose(records, zone, batches[0], Served(next, zone, batches[1..]));
      case RefusedAt(_, _) =>
        RunIsItsServed(records, zone, batches[1..]);
    }
  }

  /** A name a client reads as the zone's own: listing orders and starts by the normalised name. */
  predicate AtApex(name: string, zone: string) {
    Normalise(name) == Normalise(zone)
  }

  /**
   * The refusal compares names as they are spelt: a CNAME at the zone's name is served exactly
   * when it spells that name otherwise, whatever its action and set identifier.
   */
  lemma ApexCnameServedExactly(records: Records, zone: string, c: Change)
    requires c.kind == "CNAME" && c.action in {"CREATE", "UPSERT"} && c.name != "" && AtApex(c.name, zone)
    ensures Sequential(records, zone, [c]).Done? <==>
            TrimDot(c.name) != TrimDot(zone) && !(c.action == "CREATE" && KeyOf(c) in records)
  {
    assert [c][1..] == [];
  }

  /** Some run of batches on a new zone stores a record set under the key. */
  ghost predicate Storable(zone: string, ns: Value, soa: Value, k: Key) {
    exists batches: seq<seq<Change>> :: StoredBy(zone, ns, soa, batches, k)
  }

  predicate StoredBy(zone: string, ns: Value, soa: Value, batches: seq<seq<Change>>, k: Key) {
    k in RunBatches(Seeds(zone, ns, soa), zone, batches)
  }

  /** A new zone's CNAMEs are what the last changes served to their keys say. */
  lemma StoredByLastServed(zone: string, ns: Value, soa: Value, batches: seq<seq<Change>>, k: Key)
    requires k.kind == "CNAME"
    ensures var last := LastOn(Served(Seeds(zone, ns, soa), zone, batches), k);
            StoredBy(zone, ns, soa, batches, k) <==> last.Some? && last.value.action != "DELETE"
  {
    var seeds := Seeds(zone, ns, soa);
    var served := Served(seeds, zone, batches);
    RunIsItsServed(seeds, zone, batches);
    LastChangeWins(seeds, zone, served);
    hide RunBatches, Served, Sequential, LastOn;
    var after := RunBatches(seeds, zone, batches);
    assert Sequential(seeds, zone, served) == Done(after);
    assert (if k in after then Some(after[k]) else None) == Finally(seeds, served, k);
  }

  lemma StoredIsSound(zone: string, ns: Value, soa: Value, batches: seq<seq<Change>>, k: Key)
    requires zone != "" && k.kind == "CNAME" && StoredBy(zone, ns, soa, batches, k)
    ensures k.name != "" && !IsApex(k.name, zone)
  {
    RunKeepsSound(Seeds(zone, ns, soa), zone, batches);
  }

  /**
   * After a run on a new zone a CNAME at its name is stored exactly when the last change served
   * to its key stored one, which spelt the zone's name otherwise.
   */
  lemma ApexCnameStoredExactly(zone: string, ns: Value, soa: Value, batches: seq<seq<Change>>, k: Key)
    requires zone != "" && k.kind == "CNAME" && AtApex(k.name, zone)
    ensures var last := LastOn(Served(Seeds(zone, ns, soa), zone, batches), k);
            StoredBy(zone, ns, soa, batches, k) <==>
              last.Some? && last.value.action != "DELETE" && TrimDot(last.value.name) != TrimDot(zone)
  {
    StoredByLastServed(zone, ns, soa, batches, k);
    if StoredBy(zone, ns, soa, batches, k) {
      StoredIsSound(zone, ns, soa, batches, k);
      hide Served, StoredBy;
      StoredApex(LastOn(Served(Seeds(zone, ns, soa), zone, batches), k).value.name, zone);
    }
  }

  /** A CNAME can come to be stored under a key exactly when the key's name ends in a dot and is not the zone's as it is spelt. */
  lemma CnameStorableExactly(zone: string, ns: Value, soa: Value, k: Key)
    requires zone != "" && k.kind == "CNAME"
    ensures Storable(zone, ns, soa, k) <==> Dotted(k.name) && !IsApex(k.name, zone)
  {
    hide StoredBy, Served;
    if Dotted(k.name) && !IsApex(k.name, zone) {
      OneUpsertStores(zone, ns, soa, k, ns);
    }
    if Storable(zone, ns, soa, k) {
      var batches :| StoredBy(zone, ns, soa, batches, k);
      StoredIsSound(zone, ns, soa, batches, k);
      StoredByLastServed(zone, ns, soa, batches, k);
    }
  }

  lemma OneUpsertStores(zone: string, ns: Value, soa: Value, k: Key, value: Value)
    requires k.kind == "CNAME" && Dotted(k.name) && !IsApex(k.name, zone)
    ensures StoredBy(zone, ns, soa, [[Change("UPSERT", k.name, "CNAME", k.setId, value)]], k)
  {
    var c := Change("UPSERT", k.name, "CNAME", k.setId, value);
    var seeds := Seeds(zone, ns, soa);
    assert [c][1..] == [] && [[c]][1..] == [];
    assert "UPSERT" in {"CREATE", "UPSERT", "DELETE"};
    assert Sequential(seeds, zone, [c]) == Done(seeds[k := value]);
    assert RunBatches(seeds, zone, [[c]]) == seeds[k := value];
  }

  predicate Letter(c: char) {
    'a' <= c <= 'z' || 'A' <= c <= 'Z'
  }

  predicate HasLetter(s: string) {
    exists i :: 0 <= i < |s| && Letter(s[i])
  }

  /** So a zone is kept free of a CNAME at its name exactly when its name has no letter to write otherwise. */
  lemma ZoneIsFreeOfApexCnameExactly(zone: string, ns: Value, soa: Value)
    requires zone != ""
    ensures (forall k :: Storable(zone, ns, soa, k) && k.kind == "CNAME" ==> !AtApex(k.name, zone)) <==> !HasLetter(zone)
  {
    if HasLetter(zone) {
      var name := OtherLetters(zone);
      CnameStorableExactly(zone, ns, soa, Key(name, "CNAME", ""));
    } else {
      forall k | Storable(zone, ns, soa, k) && k.kind == "CNAME" ensures !AtApex(k.name, zone) {
        CnameStorableExactly(zone, ns, soa, k);
        if AtApex(k.name, zone) { OneSpelling(k.name, zone); }
      }
    }
  }

  /** A name of the zone's letters with one written in the other case. */
  lemma OtherLetters(zone: string) returns (name: string)
    requires HasLetter(zone)
    ensures Dotted(name) && AtApex(name, zone) && !IsApex(name, zone)
  {
    var i :| 0 <= i < |zone| && Letter(zone[i]);
    var trimmed := TrimDot(zone);
    var other := if zone[i] <= 'Z' then LowerChar(zone[i]) else zone[i] - 'a' + 'A';
    name := trimmed[i := other] + ".";
    assert TrimDot(name) == trimmed[i := other];
    NormaliseTrims(name);
    NormaliseTrims(zone);
    assert ToLower(trimmed[i := other]) == ToLower(trimmed);
  }

  lemma NormaliseTrims(name: string)
    ensures Normalise(name) == ToLower(TrimDot(name))
  {
    if name != "" {
      assert ToLower(name)[..|name| - 1] == ToLower(name[..|name| - 1]);
    }
  }

  lemma OneSpelling(name: string, zone: string)
    requires AtApex(name, zone) && !HasLetter(zone)
    ensures IsApex(name, zone)
  {
    var a, b := TrimDot(name), TrimDot(zone);
    NormaliseTrims(name);
    NormaliseTrims(zone);
    assert |ToLower(a)| == |a| && |ToLower(b)| == |b|;
    forall i | 0 <= i < |a| ensures a[i] == b[i] {
      assert ToLower(a)[i] == ToLower(b)[i] && b[i] == zone[i];
    }
  }

  /** At this input: the zone's own name in capitals, stored as a CNAME beside its NS and SOA. */
  lemma ApexCnameInOtherLetters(ns: Value, soa: Value, value: Value)
    ensures AtApex("EXAMPLE.com.", "example.com")
    ensures StoredBy("example.com", ns, soa, [[Change("UPSERT", "EXAMPLE.com.", "CNAME", "", value)]], Key("EXAMPLE.com.", "CNAME", ""))
  {
    var zone, name := "example.com", "EXAMPLE.com.";
    assert ToLower(name) == "example.com.";
    assert ToLower(zone) == "example.com";
    assert TrimDot(name)[0] == 'E' && zone[0] == 'e';
    OneUpsertStores(zone, ns, soa, Key(name, "CNAME", ""), value);
  }

  // ----- the handler: an overlay check, then the writes -----

  class HostedZone {
    const name: string
    var records: Records

    constructor (name: string, ns: Value, soa: Value)
      ensures this.name == name && records == Seeds(name, ns, soa)
    {
      this.name := name;
      records := Seeds(name, ns, soa);
    }

    /** `r53ExistenceError`: the overlay says what the batch's earlier changes leave; a key it lacks is looked up. */
    method Existence(c: Change, overlay: map<Key, bool>) returns (clash: Option<Refusal>, next: map<Key, bool>)
      ensures var e := if KeyOf(c) in overlay then overlay[KeyOf(c)] else KeyOf(c) in records;
              clash == Clash(c, e) && next == overlay[KeyOf(c) := c.action != "DELETE"]
    {
      var exists_ := KeyOf(c) in records;
      if KeyOf(c) in overlay {
        exists_ := overlay[KeyOf(c)];
      }
      next := overlay[KeyOf(c) := c.action != "DELETE"];
      clash := Clash(c, exists_);
    }

    /** The validation loop: refused exactly where applying in turn would be, without writing. */
    method Validate(changes: seq<Change>) returns (refused: Option<(nat, Refusal)>)
      ensures match Sequential(records, name, changes)
              case Done(_) => refused == None
              case RefusedAt(i, why) => refused == Some((i, why))
      ensures refused.None? <==> forall i :: 0 <= i < |changes| ==> MayBeMade(records, name, changes, i)
    {
      BatchServedExactly(records, name, changes);
      hide MayBeMade, RefusedFor;
      var overlay: map<Key, bool> := map[];
      ghost var sim := records;
      assert changes[0..] == changes;
      for i := 0 to |changes|
        invariant forall k :: k in sim <==> if k in overlay then overlay[k] else k in records
        invariant Sequential(records, name, changes) == Later(i, Sequential(sim, name, changes[i..]))
      {
        var c := changes[i];
        assert changes[i..][0] == c && changes[i..][1..] == changes[i + 1..];
        var bad := Malformed(name, c);
        if bad.Some? {
          return Some((i, bad.value));
        }
        var clash;
        clash, overlay := Existence(c, overlay);
        if clash.Some? {
          return Some((i, clash.value));
        }
        sim := Applied(sim, c);
      }
      refused := None;
    }

    /** `DeleteRecordSet`, which fails on a missing set. */
    method Delete(k: Key) returns (ok: bool)
      modifies this
      ensures ok == (k in old(records)) && records == old(records) - {k}
    {
      ok := k in records;
      records := records - {k};
    }

    /** The whole request: refused with nothing written, or every change written, none failing half way. */
    method ChangeRecordSets(changes: seq<Change>) returns (refused: Option<(nat, Refusal)>)
      modifies this
      ensures match Sequential(old(records), name, changes)
              case Done(after) => refused == None && records == after
              case RefusedAt(i, why) => refused == Some((i, why)) && records == old(records)
      ensures refused.None? <==> forall i :: 0 <= i < |changes| ==> MayBeMade(old(records), name, changes, i)
      ensures refused.Some? ==>
                var (i, why) := refused.value;
                && i < |changes| && RefusedFor(old(records), name, changes, i, why)
                && forall j :: 0 <= j < i ==> MayBeMade(old(records), name, changes, j)
    {
      BatchServedExactly(records, name, changes);
      hide MayBeMade, RefusedFor;
      refused := Validate(changes);
      if refused.Some? {
        return;
      }
      assert changes[0..] == changes;
      for i := 0 to |changes|
        invariant Sequential(old(records), name, changes) == Sequential(records, name, changes[i..])
        invariant Sequential(records, name, changes[i..]).Done?
      {
        var c := changes[i];
        assert changes[i..][0] == c && changes[i..][1..] == changes[i + 1..];
        if c.action == "DELETE" {
          var ok := Delete(KeyOf(c));
          assert ok;
        } else {
          records := records[KeyOf(c) := c.value];
        }
      }
    }
  }

  // ----- listing -----

  datatype Row = Row(key: Key, value: Value)

  function LowerChar(c: char): char {
    if 'A' <= c <= 'Z' then c - 'A' + 'a' else c
  }

  /** `strings.ToLower` of a name of ASCII bytes. */
  function ToLower(s: string): (r: string)
    ensures |r| == |s|
  {
    seq(|s|, i requires 0 <= i < |s| => LowerChar(s[i]))
  }

  /** `r53NormaliseName`. */
  function Normalise(name: string): string {
    TrimDot(ToLower(name))
  }

  /** What rows are listed by: normalised name, type, set identifier. */
  datatype Place = Place(name: string, kind: string, setId: string)

  function PlaceOf(r: Row): Place {
    Place(Normalise(r.key.name), r.key.kind, r.key.setId)
  }

  predicate PlaceLeq(a: Place, b: Place) {
    if a.name != b.name then Leq(a.name, b.name)
    else if a.kind != b.kind then Leq(a.kind, b.kind)
    else Leq(a.setId, b.setId)
  }

  predicate RowLeq(a: Row, b: Row) {
    PlaceLeq(PlaceOf(a), PlaceOf(b))
  }

  lemma PlacesAreOrdered()
    ensures TotalPreorder(PlaceLeq) && forall a, b :: PlaceLeq(a, b) && PlaceLeq(b, a) ==> a == b
  {
    LeqIsOrder();
  }

  lemma RowsAreOrdered()
    ensures TotalPreorder(RowLeq)
  {
    PlacesAreOrdered();
  }

  /** The query's start key and page size; "" and 0 leave each out. */
  datatype Query = Query(name: string, kind: string, setId: string, maxItems: int)

  /** The filter's test, as the loop makes it. */
  predicate Skipped(q: Query, r: Row) {
    && q.name != ""
    && var n, s := Normalise(r.key.name), Normalise(q.name);
       || Less(n, s)
       || (n == s && q.kind != "" && Less(r.key.kind, q.kind))
       || (n == s && q.kind != "" && r.key.kind == q.kind && q.setId != "" && Less(r.key.setId, q.setId))
  }

  function Kept(q: Query, rows: seq<Row>): (r: seq<Row>) {
    if rows == [] then [] else Kept(q, rows[..|rows| - 1]) + if Skipped(q, rows[|rows| - 1]) then [] else [rows[|rows| - 1]]
  }

  function Limited(q: Query, rows: seq<Row>): seq<Row> {
    if q.maxItems > 0 && |rows| > q.maxItems then rows[..q.maxItems] else rows
  }

  function Listed(q: Query, rows: seq<Row>): seq<Row> {
    Limited(q, Kept(q, SortBy(RowLeq, rows)))
  }

  /** `r53ListResourceRecordSets` on the zone's rows. */
  method List(rows: seq<Row>, q: Query) returns (r: seq<Row>, ghost k: nat)
    ensures r == Listed(q, rows)
    ensures SortedRun(q, rows, k, r)
  {
    var sorted := SortBy(RowLeq, rows);
    r := [];
    for i := 0 to |sorted|
      invariant r == Kept(q, sorted[..i])
    {
      assert sorted[..i + 1][..i] == sorted[..i];
      if !Skipped(q, sorted[i]) {
        r := r + [sorted[i]];
      }
    }
    assert sorted[..|sorted|] == sorted;
    r := Limited(q, r);
    k := ListIsARun(q, rows);
  }

  /** The place a query starts at; a set identifier counts only beside a type. */
  function Start(q: Query): Place {
    if q.name == "" then Place("", "", "")
    else Place(Normalise(q.name), q.kind, if q.kind == "" then "" else q.setId)
  }

  /** The three tests are one comparison. */
  lemma SkippedIsBefore(q: Query, r: Row)
    ensures Skipped(q, r) <==> !PlaceLeq(Start(q), PlaceOf(r))
  {
    PlacesAreOrdered();
    LeqIsOrder();
  }

  /** Row `k` is the first not before the start key. */
  ghost predicate StartsAt(q: Query, sorted: seq<Row>, k: nat) {
    && k <= |sorted|
    && (forall i :: 0 <= i < k ==> !PlaceLeq(Start(q), PlaceOf(sorted[i])))
    && (forall i :: k <= i < |sorted| ==> PlaceLeq(Start(q), PlaceOf(sorted[i])))
  }

  lemma {:induction false} KeptIsSuffix(q: Query, rows: seq<Row>)
    requires SortedBy(RowLeq, rows)
    ensures |Kept(q, rows)| <= |rows| && StartsAt(q, rows, |rows| - |Kept(q, rows)|)
    ensures Kept(q, rows) == rows[|rows| - |Kept(q, rows)|..]
  {
    hide PlaceLeq, Skipped, Start, PlaceOf;
    if rows != [] {
      var init, last := rows[..|rows| - 1], rows[|rows| - 1];
      KeptIsSuffix(q, init);
      SkippedIsBefore(q, last);
      var kept, k := Kept(q, init), |init| - |Kept(q, init)|;
      if Skipped(q, last) {
        SkippedLast(q, rows, k);
        assert kept == [] && Kept(q, rows) == [];
      } else {
        assert Kept(q, rows) == kept + [last];
        assert rows[k..] == init[k..] + [last];
      }
    }
  }

  /** Once a row is kept, so is every later one. */
  lemma SkippedLast(q: Query, rows: seq<Row>, k: nat)
    requires rows != [] && SortedBy(RowLeq, rows) && StartsAt(q, rows[..|rows| - 1], k)
    requires !PlaceLeq(Start(q), PlaceOf(rows[|rows| - 1]))
    ensures k == |rows| - 1
  {
    PlacesAreOrdered();
    hide PlaceLeq, Start, PlaceOf;
    var init, last := rows[..|rows| - 1], rows[|rows| - 1];
    var x := if k < |init| then init[k] else last;
    assert forall i :: 0 <= i < |init| ==> RowLeq(init[i], last);
    assert k < |init| ==> PlaceLeq(Start(q), PlaceOf(x));
    assert RowLeq(x, last) || x == last;
  }

  function Taken(q: Query, left: nat): nat {
    if q.maxItems > 0 && left > q.maxItems then q.maxItems else left
  }

  /**
   * A run of the rows in (name, type, set identifier) order: it starts at the first
   * row not before the start key and takes maxItems rows, or all.
   */
  ghost predicate SortedRun(q: Query, rows: seq<Row>, k: nat, run: seq<Row>) {
    var sorted := SortBy(RowLeq, rows);
    && SortedBy(RowLeq, sorted) && multiset(sorted) == multiset(rows)
    && StartsAt(q, sorted, k)
    && run == sorted[k..k + Taken(q, |sorted| - k)]
  }

  /** A list is such a run. */
  lemma ListIsARun(q: Query, rows: seq<Row>) returns (k: nat)
    ensures SortedRun(q, rows, k, Listed(q, rows))
  {
    RowsAreOrdered();
    hide StartsAt, Kept, SortBy, RowLeq, PlaceLeq;
    var sorted := SortBy(RowLeq, rows);
    SortSorts(RowLeq, rows);
    KeptIsSuffix(q, sorted);
    k := |sorted| - |Kept(q, sorted)|;
  }

  /** Reading one record: with its own key and one item, its row comes first if no row shares its place. */
  lemma ReadsItsRecord(row: Row, rows: seq<Row>)
    requires row in rows && row.key.name != "" && row.key.kind != ""
    requires forall r :: r in rows && PlaceOf(r) == PlaceOf(row) ==> r == row
    ensures Listed(Query(row.key.name, row.key.kind, row.key.setId, 1), rows) == [row]
  {
    hide SortBy, RowLeq, PlaceLeq, Listed;
    var q := Query(row.key.name, row.key.kind, row.key.setId, 1);
    var k := ListIsARun(q, rows);
    var sorted := SortBy(RowLeq, rows);
    assert row in multiset(sorted) && Start(q) == PlaceOf(row);
    FirstIsTheRow(row, sorted, k);
    assert sorted[k] in multiset(sorted);
  }

  lemma FirstIsTheRow(row: Row, sorted: seq<Row>, k: nat)
    requires SortedBy(RowLeq, sorted) && row in sorted && k <= |sorted|
    requires forall i :: 0 <= i < k ==> !PlaceLeq(PlaceOf(row), PlaceOf(sorted[i]))
    requires forall i :: k <= i < |sorted| ==> PlaceLeq(PlaceOf(row), PlaceOf(sorted[i]))
    ensures k < |sorted| && PlaceOf(sorted[k]) == PlaceOf(row)
  {
    PlacesAreOrdered();
    hide PlaceLeq, PlaceOf;
    var j :| 0 <= j < |sorted| && sorted[j] == row;
    assert PlaceLeq(PlaceOf(row), PlaceOf(row)) && k <= j;
    if k < j { assert RowLeq(sorted[k], sorted[j]); }
  }
}
