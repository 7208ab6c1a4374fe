/** A Describe's filters from end to end: the request sent, the rows answered and what is refused. */
module FilterRequests {
  import opened Text
  import W = Wildcards
  import opened Filters

  /** A filter as a client asks for it: its list index, its name and its values. */
  datatype Asked = Asked(n: string, name: string, values: seq<string>)

  function NameParam(a: Asked): Param {
    Param("Filter." + a.n + ".Name", [a.name])
  }

  function ValueParam(a: Asked, m: nat): Param
    requires m < |a.values|
  {
    Param("Filter." + a.n + ".Value." + Itoa(m + 1), [a.values[m]])
  }

  /** The parameter is the filter's name, or one of its values. */
  ghost predicate SentFor(p: Param, a: Asked) {
    p == NameParam(a) || exists m: nat :: m < |a.values| && p == ValueParam(a, m)
  }

  /** The request holds these filters' parameters, in any order, and no other filter's. */
  ghost predicate Sends(ps: seq<Param>, asked: seq<Asked>) {
    && (forall p :: p in ps && "Filter." <= p.key ==> exists a :: a in asked && SentFor(p, a))
    && (forall a, p :: a in asked && SentFor(p, a) ==> p in ps)
  }

  /** Each filter has an index of its own. */
  ghost predicate Indexed(asked: seq<Asked>) {
    && (forall a :: a in asked ==> IsIndex(a.n))
    && (forall a, b :: a in asked && b in asked && a.n == b.n ==> a == b)
  }

  // ----- what its parameters say of a filter -----

  lemma {:induction false} CutAt(n: string, rest: string)
    requires forall i :: 0 <= i < |n| ==> n[i] != '.'
    ensures CutDot(n + "." + rest) == (n, rest)
  {
    var s := n + "." + rest;
    if n == "" {
      assert s[1..] == rest;
    } else {
      assert s[1..] == n[1..] + "." + rest;
      CutAt(n[1..], rest);
      assert n == [n[0]] + n[1..];
    }
  }

  lemma IndexHasNoDot(n: string)
    requires IsIndex(n)
    ensures forall i :: 0 <= i < |n| ==> n[i] != '.'
  {
  }

  lemma KeyCuts(p: Param, n: string, field: string)
    requires IsIndex(n) && p.key == "Filter." + n + "." + field
    ensures IsFilter(p) && NOf(p) == n && FieldOf(p) == field
  {
    IndexHasNoDot(n);
    CutAt(n, field);
    assert p.key[|PREFIX|..] == n + "." + field;
    hide CutDot;
  }

  lemma NameParamReads(a: Asked)
    requires IsIndex(a.n)
    ensures var p := NameParam(a); Under(p, a.n) && NamesIt(p) && !ValuesIt(p) && p.values[0] == a.name
  {
    KeyCuts(NameParam(a), a.n, "Name");
    hide CutDot;
  }

  lemma ValueParamReads(a: Asked, m: nat)
    requires IsIndex(a.n) && m < |a.values|
    ensures var p := ValueParam(a, m); Under(p, a.n) && !NamesIt(p) && ValuesIt(p) && p.values == [a.values[m]]
  {
    var field := "Value." + Itoa(m + 1);
    assert ValueParam(a, m).key == "Filter." + a.n + "." + field;
    KeyCuts(ValueParam(a, m), a.n, field);
    AtoiItoa(m + 1);
    assert field[|VALUE|..] == Itoa(m + 1);
    hide CutDot, Itoa, Atoi;
  }

  /** A parameter sent for a filter is under its index, and is its name or gives it a value. */
  lemma SentReads(p: Param, a: Asked)
    requires IsIndex(a.n) && SentFor(p, a)
    ensures IsFilter(p) && NOf(p) == a.n
    ensures NamesIt(p) <==> p == NameParam(a)
    ensures NamesIt(p) ==> p.values[0] == a.name
    ensures !NamesIt(p) ==> ValuesIt(p) && |p.values| == 1 && p.values[0] in a.values
  {
    NameParamReads(a);
    if p != NameParam(a) {
      var m: nat :| m < |a.values| && p == ValueParam(a, m);
      ValueParamReads(a, m);
    }
    hide NamesIt, ValuesIt, NOf, IsFilter;
  }

  ghost predicate AllFit(fits: string -> bool, asked: seq<Asked>) {
    forall a, v :: a in asked && v in a.values ==> fits(v)
  }

  /** What a filter read off the request holds: its name, its values' patterns, and nothing unreadable. */
  ghost predicate ReadAs(f: Filter, a: Asked) {
    f.n == a.n && f.name == a.name && !f.unreadable && forall w :: w in f.patterns <==> exists v :: v in a.values && w == W.Compiled(v)
  }

  lemma UnderIsSent(ps: seq<Param>, asked: seq<Asked>, a: Asked, p: Param)
    requires Sends(ps, asked) && Indexed(asked) && a in asked && p in ps && Under(p, a.n)
    ensures SentFor(p, a)
  {
    var b :| b in asked && SentFor(p, b);
    SentReads(p, b);
    hide SentFor, NOf;
  }

  lemma NotSpoilt(ps: seq<Param>, asked: seq<Asked>, a: Asked, fits: string -> bool)
    requires Sends(ps, asked) && Indexed(asked) && a in asked && AllFit(fits, asked)
    ensures !Spoilt(ps, a.n, fits)
  {
    forall p | p in ps && Under(p, a.n) ensures !Spoils(p, fits) {
      UnderIsSent(ps, asked, a, p);
      SentReads(p, a);
      hide SentFor, NamesIt, ValuesIt, NOf, Sends;
      if !NamesIt(p) { assert forall v :: v in p.values ==> v == p.values[0]; }
    }
  }

  lemma NamedAsAsked(ps: seq<Param>, asked: seq<Asked>, a: Asked, name: string)
    requires Sends(ps, asked) && Indexed(asked) && a in asked
    ensures Named(ps, a.n, name) <==> name == a.name
  {
    NameParamReads(a);
    assert SentFor(NameParam(a), a) && NameParam(a) in ps;
    if Named(ps, a.n, name) {
      var p :| p in ps && Under(p, a.n) && NamesIt(p) && p.values[0] == name;
      UnderIsSent(ps, asked, a, p);
      SentReads(p, a);
    }
  }

  lemma ValuedAsAsked(ps: seq<Param>, asked: seq<Asked>, a: Asked, w: W.Pattern, fits: string -> bool)
    requires Sends(ps, asked) && Indexed(asked) && a in asked && AllFit(fits, asked)
    ensures Valued(ps, a.n, w, fits) <==> exists v :: v in a.values && w == W.Compiled(v)
  {
    hide W.Compiled;
    if Valued(ps, a.n, w, fits) {
      var p :| p in ps && Under(p, a.n) && Gives(p, w, fits);
      UnderIsSent(ps, asked, a, p);
      SentReads(p, a);
      NameParamReads(a);
      var v :| v in p.values && fits(v) && W.Compiled(v) == w;
      assert v == p.values[0];
    }
    if v :| v in a.values && w == W.Compiled(v) {
      var m :| 0 <= m < |a.values| && a.values[m] == v;
      var p := ValueParam(a, m);
      ValueParamReads(a, m);
      assert SentFor(p, a) && p in ps && v in p.values;
      assert Gives(p, w, fits);
    }
  }

  lemma ReadsAsAsked(ps: seq<Param>, asked: seq<Asked>, a: Asked, f: Filter, fits: string -> bool)
    requires Sends(ps, asked) && Indexed(asked) && a in asked && AllFit(fits, asked)
    requires Reads(f, ps, fits) && f.n == a.n
    ensures ReadAs(f, a)
  {
    NotSpoilt(ps, asked, a, fits);
    NamedAsAsked(ps, asked, a, a.name);
    NamedAsAsked(ps, asked, a, f.name);
    forall w ensures Valued(ps, a.n, w, fits) <==> exists v :: v in a.values && w == W.Compiled(v) {
      ValuedAsAsked(ps, asked, a, w, fits);
    }
    hide W.Compiled, Named, Valued, Spoilt, Sends, IsIndex;
  }

  lemma PresentIsAsked(ps: seq<Param>, asked: seq<Asked>, n: string)
    requires Sends(ps, asked) && Indexed(asked)
    ensures Present(ps, n) <==> exists a :: a in asked && a.n == n
  {
    if Present(ps, n) {
      var p :| p in ps && Under(p, n);
      var a :| a in asked && SentFor(p, a);
      SentReads(p, a);
    }
    if a :| a in asked && a.n == n {
      NameParamReads(a);
      assert SentFor(NameParam(a), a) && NameParam(a) in ps;
    }
  }

  /** The filters parsed are those asked for, one each. */
  lemma ParsedAsAsked(ps: seq<Param>, asked: seq<Asked>, out: seq<Filter>, fits: string -> bool)
    requires Sends(ps, asked) && Indexed(asked) && AllFit(fits, asked) && Parsed(out, ps, fits)
    ensures forall f :: f in out ==> exists a :: a in asked && ReadAs(f, a)
    ensures forall a :: a in asked ==> exists f :: f in out && ReadAs(f, a)
  {
    hide Reads, ReadAs, Sends, Present, StrictlySorted, AllFit;
    forall n ensures Present(ps, n) <==> exists a :: a in asked && a.n == n {
      PresentIsAsked(ps, asked, n);
    }
    forall i | 0 <= i < |out| ensures exists a :: a in asked && ReadAs(out[i], a) {
      assert Ns(out)[i] in Ns(out);
      var a :| a in asked && a.n == out[i].n;
      ReadsAsAsked(ps, asked, a, out[i], fits);
    }
    forall a | a in asked ensures exists f :: f in out && ReadAs(f, a) {
      assert a.n in Ns(out);
      var i :| 0 <= i < |Ns(out)| && Ns(out)[i] == a.n;
      ReadsAsAsked(ps, asked, a, out[i], fits);
      assert out[i] in out;
    }
  }

  // ----- which rows are answered -----

  /** The tag's value for a filter name, its key and its value for two of them. */
  predicate TagHas(name: string, tag: Tag, v: string) {
    || (name == "tag-key" && v == tag.key)
    || (name == "tag-value" && v == tag.value)
    || (name == "tag:" + tag.key && tag.key != "" && v == tag.value)
  }

  /** A value the row has for a filter name: an attribute's, or a tag's. */
  predicate HasValue(t: Table, row: Row, name: string, v: string) {
    if name in t.names then v in row.values(name) && (v == "" ==> name in t.emptyIsValue)
    else
      && t.tagged
      && exists tag :: tag in row.tags && TagHas(name, tag, v)
  }

  /** A row passes a filter when one of its values for the name is what one of the filter's values means. */
  ghost predicate Answers(t: Table, row: Row, a: Asked) {
    exists v, value :: HasValue(t, row, a.name, v) && value in a.values && W.Means(value, v)
  }

  lemma {:induction false} PickedAre(name: string, tags: seq<Tag>, v: string)
    requires name == "tag-key" || name == "tag-value" || (TAG <= name && name != TAG)
    ensures v in Picked(name, tags) <==>
            exists tag :: tag in tags && TagHas(name, tag, v)
  {
    if tags != [] {
      PickedAre(name, tags[1..], v);
      HeadPicked(name, tags, v);
      hide TagHas, Picked;
      assert forall tag :: tag in tags <==> tag == tags[0] || tag in tags[1..];
    }
  }

  lemma HeadPicked(name: string, tags: seq<Tag>, v: string)
    requires tags != [] && (name == "tag-key" || name == "tag-value" || (TAG <= name && name != TAG))
    ensures v in Picked(name, tags) <==> TagHas(name, tags[0], v) || v in Picked(name, tags[1..])
  {
    PickedOne(name, tags[0]);
    var head := if name == "tag-key" then [tags[0].key]
                else if name == "tag-value" then [tags[0].value]
                else if TAG <= name && name[|TAG|..] == tags[0].key then [tags[0].value]
                else [];
    assert Picked(name, tags) == head + Picked(name, tags[1..]);
    assert v in head <==> TagHas(name, tags[0], v);
  }

  lemma PickedOne(name: string, tag: Tag)
    requires name == "tag-key" || name == "tag-value" || (TAG <= name && name != TAG)
    ensures TAG <= name && name != "tag-key" && name != "tag-value" ==> (name[|TAG|..] == tag.key <==> name == "tag:" + tag.key && tag.key != "")
    ensures name == "tag-key" || name == "tag-value" ==> name != "tag:" + tag.key
  {
    if TAG <= name {
      assert name == TAG + name[|TAG|..];
    }
    assert "tag-key"[3] != "tag:"[3] && "tag-value"[3] != "tag:"[3];
    assert ("tag:" + tag.key)[3] == ':';
  }

  lemma ValuesAre(t: Table, row: Row, name: string, v: string)
    ensures HasValue(t, row, name, v) <==> Honours(t, name) && v in ValuesFor(t, row, name).value
  {
    if name !in t.names {
      if Honours(t, name) {
        PickedAre(name, row.tags, v);
      } else if t.tagged {
        forall tag: Tag ensures name != "tag:" + tag.key || tag.key == "" {
          if name == "tag:" + tag.key { assert TAG <= name; }
        }
      }
      hide Picked;
    }
  }

  lemma PassesAsAsked(t: Table, row: Row, f: Filter, a: Asked)
    requires ReadAs(f, a)
    ensures Passes(t, row, f) <==> Answers(t, row, a)
  {
    hide W.Compiled, W.Means, W.Matches, HasValue, ValuesFor, Honours;
    forall v ensures HasValue(t, row, a.name, v) <==> Honours(t, a.name) && v in ValuesFor(t, row, a.name).value {
      ValuesAre(t, row, a.name, v);
    }
    forall value, v ensures W.Matches(W.Compiled(value), v) <==> W.Means(value, v) {
      W.CompiledMeans(value, v);
    }
    if Answers(t, row, a) {
      var v, value :| HasValue(t, row, a.name, v) && value in a.values && W.Means(value, v);
      assert W.Compiled(value) in f.patterns && W.Matches(W.Compiled(value), v);
    }
  }

  /**
   * A Describe answers a row exactly when, for every filter asked for, some value of the row for
   * its name is what one of the filter's values means; whatever order the parameters came in.
   */
  lemma AskedRowsPass(t: Table, row: Row, ps: seq<Param>, asked: seq<Asked>, out: seq<Filter>, fits: string -> bool)
    requires Sends(ps, asked) && Indexed(asked) && AllFit(fits, asked) && Parsed(out, ps, fits)
    ensures (forall f :: f in out ==> Passes(t, row, f)) <==> (forall a :: a in asked ==> Answers(t, row, a))
  {
    ParsedAsAsked(ps, asked, out, fits);
    hide ReadAs, Passes, Answers, Parsed, Sends, Indexed, AllFit;
    forall f, a | ReadAs(f, a) ensures Passes(t, row, f) <==> Answers(t, row, a) {
      PassesAsAsked(t, row, f, a);
    }
  }

  // ----- what is refused -----

  /** A name the table knows, or one of its tags'. */
  predicate Known(t: Table, name: string) {
    || name in t.names
    || (t.tagged && (name == "tag-key" || name == "tag-value" || (|name| > 4 && name[..4] == "tag:")))
  }

  /** The name a filter is refused by, if it is. */
  predicate RefusedAs(t: Table, a: Asked, name: string) {
    if a.name == "" || a.values == [] then name == "Filter." + a.n
    else !Known(t, a.name) && name == a.name
  }

  lemma KnownIsHonoured(t: Table, name: string)
    ensures Known(t, name) <==> Honours(t, name)
  {
    assert TAG <= name && name != TAG <==> |name| > 4 && name[..4] == "tag:";
  }

  lemma {:induction false} UnmodelledAre(t: Table, fs: seq<Filter>, name: string)
    ensures name in Unmodelled(t, fs) <==> exists f :: f in fs && FilterRefusedAs(t, f, name)
  {
    hide FilterRefusedAs;
    if fs != [] {
      UnmodelledAre(t, fs[1..], name);
      FirstRefused(t, fs, name);
      assert forall f :: f in fs <==> f == fs[0] || f in fs[1..];
    }
  }

  predicate FilterRefusedAs(t: Table, f: Filter, name: string) {
    if f.name == "" || f.patterns == [] || f.unreadable then name == PREFIX + f.n
    else !Honours(t, f.name) && name == f.name
  }

  lemma FirstRefused(t: Table, fs: seq<Filter>, name: string)
    requires fs != []
    ensures name in Unmodelled(t, fs) <==> FilterRefusedAs(t, fs[0], name) || name in Unmodelled(t, fs[1..])
  {
    hide Honours;
  }

  lemma RefusedAsAsked(t: Table, f: Filter, a: Asked, name: string)
    requires ReadAs(f, a)
    ensures FilterRefusedAs(t, f, name) <==> RefusedAs(t, a, name)
  {
    KnownIsHonoured(t, a.name);
    hide Known, Honours, W.Compiled;
    if f.patterns != [] { assert f.patterns[0] in f.patterns; }
    if a.values != [] { assert a.values[0] in a.values && W.Compiled(a.values[0]) in f.patterns; }
  }

  /** A Describe refuses exactly the filters without a name or a value, by their index, and those of names it does not know, by name. */
  lemma AskedIsRefused(t: Table, ps: seq<Param>, asked: seq<Asked>, out: seq<Filter>, fits: string -> bool, name: string)
    requires Sends(ps, asked) && Indexed(asked) && AllFit(fits, asked) && Parsed(out, ps, fits)
    ensures name in Refusal(t, out, []) <==> exists a :: a in asked && RefusedAs(t, a, name)
  {
    ParsedAsAsked(ps, asked, out, fits);
    RefusalNamesAll(t, out, []);
    UnmodelledAre(t, out, name);
    hide ReadAs, FilterRefusedAs, RefusedAs, Parsed, Sends, Indexed, AllFit, Refusal, Unmodelled;
    forall f, a | ReadAs(f, a) ensures FilterRefusedAs(t, f, name) <==> RefusedAs(t, a, name) {
      RefusedAsAsked(t, f, a, name);
    }
  }
}
