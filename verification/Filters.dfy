/**
 * The filters of an EC2 Describe: read off a parameter map in whatever order its
 * keys come, matched against a row, or refused by name.
 */
module Filters {
  import opened Options
  import opened Sorting
  import opened Text
  import W = Wildcards

  // ----- list indexes -----

  /** `ec2IsIndex`. */
  predicate IsIndex(s: string) {
    s != "" && AllDigits(s)
  }

  /** `ec2IndexOrder`: the shorter first, then bytewise. */
  predicate IndexLeq(a: string, b: string) {
    |a| < |b| || (|a| == |b| && Leq(a, b))
  }

  lemma IndexesAreOrdered()
    ensures TotalPreorder(IndexLeq)
    ensures forall a, b :: IndexLeq(a, b) && IndexLeq(b, a) ==> a == b
  {
    LeqIsOrder();
  }

  lemma {:induction false} FirstDigit(s: string)
    requires s != "" && AllDigits(s)
    ensures Atoi(s) == DigitValue(s[0]) * Pow10(|s| - 1) + Atoi(s[1..])
  {
    if |s| > 1 {
      var init := s[..|s| - 1];
      FirstDigit(init);
      assert s[1..][..|s| - 2] == init[1..];
      TenTimes(DigitValue(s[0]), Pow10(|s| - 2));
    } else {
      assert s[1..] == "" && s[..0] == "";
    }
  }

  lemma DigitsCompare(d: nat, x: nat, e: nat, y: nat, p: nat)
    requires x < p && y < p && d < e
    ensures d * p + x < e * p + y
    ensures e * p + y >= p
  {
    assert (e - d - 1) * p >= 0 && (e - 1) * p >= 0;
    assert e * p == d * p + p + (e - d - 1) * p;
  }

  lemma {:induction false} NumeralBounds(s: string)
    requires AllDigits(s)
    ensures Atoi(s) < Pow10(|s|)
    ensures s != "" && s[0] != '0' ==> Atoi(s) >= Pow10(|s| - 1)
  {
    if s != "" {
      FirstDigit(s);
      NumeralBounds(s[1..]);
      var d, x, p := DigitValue(s[0]), Atoi(s[1..]), Pow10(|s| - 1);
      assert Pow10(|s|) == 10 * p;
      hide Atoi, Pow10, AllDigits, IsDigit;
      DigitsCompare(d, x, 10, 0, p);
      if d > 0 { DigitsCompare(0, 0, d, x, p); }
    }
  }

  /** Numerals of one length are in order as their bytes are. */
  lemma {:induction false} SameLengthOrder(a: string, b: string)
    requires AllDigits(a) && AllDigits(b) && |a| == |b|
    ensures Leq(a, b) <==> Atoi(a) <= Atoi(b)
  {
    if a != "" {
      FirstDigit(a);
      FirstDigit(b);
      SameLengthOrder(a[1..], b[1..]);
      NumeralBounds(a[1..]);
      NumeralBounds(b[1..]);
      var d, e, p := DigitValue(a[0]), DigitValue(b[0]), Pow10(|a| - 1);
      hide Atoi, Pow10;
      if d < e { DigitsCompare(d, Atoi(a[1..]), e, Atoi(b[1..]), p); }
      if e < d { DigitsCompare(e, Atoi(b[1..]), d, Atoi(a[1..]), p); }
    }
  }

  lemma {:induction false} Pow10Grows(m: nat, n: nat)
    requires m <= n
    ensures Pow10(m) <= Pow10(n)
  {
    if m < n { Pow10Grows(m, n - 1); }
  }

  predicate Canonical(s: string) {
    IsIndex(s) && (s[0] == '0' ==> s == "0")
  }

  /** Indexes without leading zeros are ordered as the numbers they are. */
  lemma IndexOrderIsNumeric(a: string, b: string)
    requires Canonical(a) && Canonical(b)
    ensures IndexLeq(a, b) <==> Atoi(a) <= Atoi(b)
  {
    if |a| == |b| {
      SameLengthOrder(a, b);
    } else {
      ShorterIsLess(if |a| < |b| then a else b, if |a| < |b| then b else a);
    }
  }

  lemma ShorterIsLess(a: string, b: string)
    requires Canonical(a) && Canonical(b) && |a| < |b|
    ensures Atoi(a) < Atoi(b)
  {
    NumeralBounds(a);
    NumeralBounds(b);
    Pow10Grows(|a|, |b| - 1);
  }

  /** With leading zeros they are not: 01 is sorted after 2. */
  lemma LeadingZerosAreOutOfOrder()
    ensures IndexLeq("2", "01") && Atoi("2") > Atoi("01")
  {
    FirstDigit("2");
    FirstDigit("01");
    FirstDigit("1");
    assert "2"[1..] == "" && "01"[1..] == "1" && "1"[1..] == "";
  }

  /** A numeral with leading zeros is longer than the numeral of its value. */
  lemma ZerosAreLonger(x: string)
    requires IsIndex(x) && !Canonical(x)
    ensures Canonical(Itoa(Atoi(x))) && Atoi(Itoa(Atoi(x))) == Atoi(x) && |Itoa(Atoi(x))| < |x|
  {
    var v := Atoi(x);
    var y := Itoa(v);
    AtoiItoa(v);
    FirstDigit(x);
    NumeralBounds(x[1..]);
    assert v < Pow10(|x| - 1);
    if v > 0 {
      NumeralBounds(y);
      if |y| >= |x| { Pow10Grows(|x| - 1, |y| - 1); }
    }
  }

  /** An index is ordered as a number among the canonical ones exactly when it is canonical itself. */
  lemma OrderIsNumericExactly(x: string)
    requires IsIndex(x)
    ensures Canonical(x) <==> forall y :: Canonical(y) ==> (IndexLeq(x, y) <==> Atoi(x) <= Atoi(y))
  {
    if Canonical(x) {
      forall y | Canonical(y) ensures IndexLeq(x, y) <==> Atoi(x) <= Atoi(y) {
        IndexOrderIsNumeric(x, y);
      }
    } else {
      ZerosAreLonger(x);
      var y := Itoa(Atoi(x));
      assert !IndexLeq(x, y) && Atoi(x) <= Atoi(y);
    }
  }

  // ----- parsing -----

  /** A parameter and its values. */
  datatype Param = Param(key: string, values: seq<string>)

  datatype Filter = Filter(n: string, name: string, patterns: seq<W.Pattern>, unreadable: bool)

  const PREFIX := "Filter."
  const NAME := "Name"
  const VALUE := "Value."

  function CutDot(s: string): (string, string) {
    if s == "" then ("", "")
    else if s[0] == '.' then ("", s[1..])
    else ([s[0]] + CutDot(s[1..]).0, CutDot(s[1..]).1)
  }

  predicate IsFilter(p: Param) {
    PREFIX <= p.key
  }

  function NOf(p: Param): string
    requires IsFilter(p)
  {
    CutDot(p.key[|PREFIX|..]).0
  }

  function FieldOf(p: Param): string
    requires IsFilter(p)
  {
    CutDot(p.key[|PREFIX|..]).1
  }

  predicate Under(p: Param, n: string) {
    IsFilter(p) && NOf(p) == n
  }

  predicate NamesIt(p: Param) {
    IsFilter(p) && FieldOf(p) == NAME && |p.values| == 1
  }

  predicate ValuesIt(p: Param) {
    IsFilter(p) && VALUE <= FieldOf(p) && IsIndex(FieldOf(p)[|VALUE|..])
  }

  /** What makes its filter unreadable: neither one Name nor a Value.N, or a value too large to compile. */
  predicate Spoils(p: Param, fits: string -> bool) {
    IsFilter(p) && !NamesIt(p) && (ValuesIt(p) ==> exists v :: v in p.values && !fits(v))
  }

  /** Some parameter of the list gives filter `n` this name, this pattern, or spoils it. */
  predicate Named(ps: seq<Param>, n: string, name: string) {
    exists p :: p in ps && Under(p, n) && NamesIt(p) && p.values[0] == name
  }

  /** The parameter gives its filter this pattern. */
  predicate Gives(p: Param, pattern: W.Pattern, fits: string -> bool) {
    ValuesIt(p) && exists v :: v in p.values && fits(v) && W.Compiled(v) == pattern
  }

  predicate Valued(ps: seq<Param>, n: string, pattern: W.Pattern, fits: string -> bool) {
    exists p :: p in ps && Under(p, n) && Gives(p, pattern, fits)
  }

  predicate Spoilt(ps: seq<Param>, n: string, fits: string -> bool) {
    exists p :: p in ps && Under(p, n) && Spoils(p, fits)
  }

  predicate Present(ps: seq<Param>, n: string) {
    exists p :: p in ps && Under(p, n)
  }

  /** The filter is what the parameters say, in no order. */
  ghost predicate Reads(f: Filter, ps: seq<Param>, fits: string -> bool) {
    && (f.unreadable <==> !IsIndex(f.n) || Spoilt(ps, f.n, fits))
    && (if f.name == "" then forall name :: Named(ps, f.n, name) ==> name == "" else Named(ps, f.n, f.name))
    && (forall w :: w in f.patterns <==> Valued(ps, f.n, w, fits))
  }

  /** A map has each key once. */
  ghost predicate DistinctKeys(ps: seq<Param>) {
    forall i, j :: 0 <= i < j < |ps| ==> ps[i].key != ps[j].key
  }

  lemma {:induction false} CutDotRejoins(s: string)
    ensures var (n, field) := CutDot(s); (s == n + "." + field || (s == n && field == "")) && (forall i :: 0 <= i < |n| ==> n[i] != '.')
  {
    if s != "" && s[0] != '.' {
      CutDotRejoins(s[1..]);
      assert s == [s[0]] + s[1..];
    }
  }

  /** One key names a filter. */
  lemma NameKey(p: Param, q: Param)
    requires NamesIt(p) && NamesIt(q) && NOf(p) == NOf(q)
    ensures p.key == q.key
  {
    CutDotRejoins(p.key[|PREFIX|..]);
    CutDotRejoins(q.key[|PREFIX|..]);
    assert p.key == PREFIX + p.key[|PREFIX|..] && q.key == PREFIX + q.key[|PREFIX|..];
  }

  /** One parameter read into its filter. */
  method ReadParam(f: Filter, p: Param, fits: string -> bool) returns (g: Filter)
    requires IsFilter(p) && f.n == NOf(p)
    ensures g.n == f.n && g.name == (if NamesIt(p) then p.values[0] else f.name)
    ensures g.unreadable <==> f.unreadable || Spoils(p, fits)
    ensures forall w :: w in g.patterns <==> w in f.patterns || Gives(p, w, fits)
  {
    if NamesIt(p) {
      return f.(name := p.values[0]);
    }
    if !ValuesIt(p) {
      return f.(unreadable := true);
    }
    g := f;
    for i := 0 to |p.values|
      invariant g.n == f.n && g.name == f.name
      invariant g.unreadable <==> f.unreadable || exists v :: v in p.values[..i] && !fits(v)
      invariant forall w :: w in g.patterns <==> w in f.patterns || exists v :: v in p.values[..i] && fits(v) && W.Compiled(v) == w
    {
      var v := p.values[i];
      assert p.values[..i + 1] == p.values[..i] + [v];
      if fits(v) {
        var pattern := W.Compile(v);
        g := g.(patterns := g.patterns + [pattern]);
      } else {
        g := g.(unreadable := true);
      }
    }
    assert p.values[..|p.values|] == p.values;
  }

  /** Reading one more parameter of the filter. */
  lemma ReadsOneMore(f: Filter, g: Filter, ps: seq<Param>, p: Param, fits: string -> bool)
    requires Reads(f, ps, fits) && Under(p, f.n) && DistinctKeys(ps + [p])
    requires g.n == f.n && g.name == (if NamesIt(p) then p.values[0] else f.name)
    requires g.unreadable <==> f.unreadable || Spoils(p, fits)
    requires forall w :: w in g.patterns <==> w in f.patterns || Gives(p, w, fits)
    ensures Reads(g, ps + [p], fits)
  {
    var qs := ps + [p];
    assert forall q :: q in qs <==> q in ps || q == p;
    hide Gives, Spoils, IsIndex;
    assert Spoilt(qs, f.n, fits) <==> Spoilt(ps, f.n, fits) || Spoils(p, fits);
    forall w ensures Valued(qs, f.n, w, fits) <==> Valued(ps, f.n, w, fits) || Gives(p, w, fits) {
    }
    NamedOneMore(ps, p, f.n);
  }

  lemma NamedOneMore(ps: seq<Param>, p: Param, n: string)
    requires Under(p, n) && DistinctKeys(ps + [p])
    ensures forall name :: Named(ps + [p], n, name) <==> if NamesIt(p) then name == p.values[0] else Named(ps, n, name)
  {
    var qs := ps + [p];
    assert forall q :: q in qs <==> q in ps || q == p;
    if NamesIt(p) {
      forall q | q in ps && Under(q, n) ensures !NamesIt(q) {
        var i :| 0 <= i < |ps| && ps[i] == q;
        assert qs[i] == q && qs[|ps|] == p;
        assert NamesIt(q) ==> q.key == p.key by { if NamesIt(q) { NameKey(q, p); } }
      }
      forall name ensures Named(qs, n, name) <==> name == p.values[0] {
      }
    } else {
      forall name ensures Named(qs, n, name) <==> Named(ps, n, name) {
      }
    }
  }

  /** A parameter of another filter, or of none, is nothing to this one. */
  lemma ReadsUnmoved(f: Filter, ps: seq<Param>, p: Param, fits: string -> bool)
    requires Reads(f, ps, fits) && !Under(p, f.n)
    ensures Reads(f, ps + [p], fits)
  {
    var qs := ps + [p];
    assert forall q :: q in qs <==> q in ps || q == p;
    hide Gives, Spoils, IsIndex, NamesIt;
    assert Spoilt(qs, f.n, fits) <==> Spoilt(ps, f.n, fits);
    forall w ensures Valued(qs, f.n, w, fits) <==> Valued(ps, f.n, w, fits) {
    }
    forall name ensures Named(qs, f.n, name) <==> Named(ps, f.n, name) {
    }
  }

  /** The filters met so far, by their N. */
  ghost predicate Collected(byN: map<string, Filter>, ps: seq<Param>, fits: string -> bool) {
    && (forall n :: n in byN <==> Present(ps, n))
    && (forall n :: n in byN ==> byN[n].n == n && Reads(byN[n], ps, fits))
  }

  /** A filter no parameter named yet reads as nothing. */
  lemma ReadsFresh(n: string, ps: seq<Param>, fits: string -> bool)
    requires !Present(ps, n)
    ensures Reads(Filter(n, "", [], !IsIndex(n)), ps, fits)
  {
    hide Gives, Spoils, IsIndex, NamesIt;
  }

  lemma CollectedOneMore(byN: map<string, Filter>, g: Filter, ps: seq<Param>, p: Param, fits: string -> bool)
    requires Collected(byN, ps, fits) && IsFilter(p) && g.n == NOf(p) && Reads(g, ps + [p], fits)
    ensures Collected(byN[g.n := g], ps + [p], fits)
  {
    var qs, after := ps + [p], byN[g.n := g];
    assert forall q :: q in qs <==> q in ps || q == p;
    hide Reads;
    assert p in qs && Under(p, g.n);
    forall n ensures n in after <==> Present(qs, n) {
    }
    forall n | n in after && n != g.n ensures Reads(after[n], qs, fits) {
      ReadsUnmoved(byN[n], ps, p, fits);
    }
  }

  lemma CollectedUnmoved(byN: map<string, Filter>, ps: seq<Param>, p: Param, fits: string -> bool)
    requires Collected(byN, ps, fits) && !IsFilter(p)
    ensures Collected(byN, ps + [p], fits)
  {
    assert forall q :: q in ps + [p] <==> q in ps || q == p;
    hide Reads;
    forall n ensures n in byN <==> Present(ps + [p], n) {
    }
    forall n | n in byN ensures Reads(byN[n], ps + [p], fits) {
      ReadsUnmoved(byN[n], ps, p, fits);
    }
  }

  /** `parseEC2Filters`' loop over the map, in the order it happens to come. */
  method Collect(ps: seq<Param>, fits: string -> bool) returns (byN: map<string, Filter>)
    requires DistinctKeys(ps)
    ensures Collected(byN, ps, fits)
  {
    byN := map[];
    hide Reads, NamesIt, Gives, Spoils, IsIndex, CutDot;
    for i := 0 to |ps|
      invariant Collected(byN, ps[..i], fits)
    {
      var p := ps[i];
      assert ps[..i + 1] == ps[..i] + [p];
      if IsFilter(p) {
        var n := NOf(p);
        var f := Filter(n, "", [], !IsIndex(n));
        ReadsFresh'(n, ps[..i], byN, fits);
        if n in byN {
          f := byN[n];
        }
        var g := ReadParam(f, p, fits);
        ReadsOneMore(f, g, ps[..i], p, fits);
        CollectedOneMore(byN, g, ps[..i], p, fits);
        byN := byN[n := g];
      } else {
        CollectedUnmoved(byN, ps[..i], p, fits);
      }
    }
    assert ps[..|ps|] == ps;
  }

  lemma ReadsFresh'(n: string, ps: seq<Param>, byN: map<string, Filter>, fits: string -> bool)
    requires Collected(byN, ps, fits)
    ensures n !in byN ==> Reads(Filter(n, "", [], !IsIndex(n)), ps, fits)
  {
    if n !in byN { ReadsFresh(n, ps, fits); }
  }

  ghost predicate StrictlySorted(ns: seq<string>) {
    forall i, j :: 0 <= i < j < |ns| ==> IndexLeq(ns[i], ns[j]) && ns[i] != ns[j]
  }

  function Ns(fs: seq<Filter>): (r: seq<string>)
    ensures |r| == |fs|
  {
    seq(|fs|, i requires 0 <= i < |fs| => fs[i].n)
  }

  /** What the parse of a map of parameters is: its filters in N order, each read. */
  ghost predicate Parsed(out: seq<Filter>, ps: seq<Param>, fits: string -> bool) {
    && StrictlySorted(Ns(out))
    && (forall n :: n in Ns(out) <==> Present(ps, n))
    && (forall i :: 0 <= i < |out| ==> Reads(out[i], ps, fits))
  }

  /** The keys of a map, in some order. */
  method Keys(byN: map<string, Filter>) returns (ns: seq<string>)
    ensures forall n :: n in ns <==> n in byN
    ensures forall i, j :: 0 <= i < j < |ns| ==> ns[i] != ns[j]
  {
    var left := byN.Keys;
    ns := [];
    while left != {}
      invariant left <= byN.Keys
      invariant forall n :: n in ns <==> n in byN && n !in left
      invariant forall i, j :: 0 <= i < j < |ns| ==> ns[i] != ns[j]
      decreases left
    {
      var n :| n in left;
      left := left - {n};
      ns := ns + [n];
    }
  }

  /** Sorting keeps elements distinct. */
  lemma SortedDistinct(ns: seq<string>)
    requires forall i, j :: 0 <= i < j < |ns| ==> ns[i] != ns[j]
    ensures var s := SortBy(IndexLeq, ns); StrictlySorted(s) && forall n :: n in s <==> n in ns
  {
    IndexesAreOrdered();
    SortSorts(IndexLeq, ns);
    var s := SortBy(IndexLeq, ns);
    forall n ensures n in s <==> n in ns {
      assert n in multiset(s) <==> n in multiset(ns);
    }
    forall i, j | 0 <= i < j < |s| ensures s[i] != s[j] {
      OnceEach(ns, s[i]);
      TwicePlaced(s, i, j);
    }
  }

  lemma TwicePlaced(s: seq<string>, i: nat, j: nat)
    requires i < j < |s|
    ensures s[i] == s[j] ==> multiset(s)[s[i]] >= 2
  {
    var l, r := s[..j], s[j..];
    assert s == l + r && s[i] in l && s[j] in r;
    assert multiset(s)[s[i]] == multiset(l)[s[i]] + multiset(r)[s[i]];
  }

  lemma {:induction false} OnceEach(ns: seq<string>, n: string)
    requires forall i, j :: 0 <= i < j < |ns| ==> ns[i] != ns[j]
    ensures multiset(ns)[n] <= 1
  {
    if ns != [] {
      var init, last := ns[..|ns| - 1], ns[|ns| - 1];
      OnceEach(init, n);
      assert ns == init + [last];
      assert n == last ==> n !in init;
    }
  }

  lemma NsAppends(fs: seq<Filter>, f: Filter)
    ensures Ns(fs + [f]) == Ns(fs) + [f.n]
  {
  }

  /** `parseEC2Filters`. */
  method Parse(ps: seq<Param>, fits: string -> bool) returns (out: seq<Filter>)
    requires DistinctKeys(ps)
    ensures Parsed(out, ps, fits)
  {
    hide Reads, Present, IndexLeq, SortBy;
    var byN := Collect(ps, fits);
    var ns := Keys(byN);
    SortedDistinct(ns);
    ns := SortBy(IndexLeq, ns);
    out := [];
    for i := 0 to |ns|
      invariant Ns(out) == ns[..i]
      invariant forall k :: 0 <= k < |out| ==> Reads(out[k], ps, fits)
    {
      assert ns[i] in ns;
      NsAppends(out, byN[ns[i]]);
      out := out + [byN[ns[i]]];
      assert ns[..i + 1] == ns[..i] + [ns[i]];
    }
    assert ns[..|ns|] == ns;
  }

  // ----- no order of the map shows -----

  lemma {:induction false} StrictUnique(a: seq<string>, b: seq<string>)
    requires StrictlySorted(a) && StrictlySorted(b) && forall n :: n in a <==> n in b
    ensures a == b
  {
    IndexesAreOrdered();
    if a != [] && b != [] {
      assert a[0] in b && b[0] in a;
      assert IndexLeq(a[0], b[0]) && IndexLeq(b[0], a[0]);
      forall n ensures n in a[1..] <==> n in b[1..] {
        assert n in a <==> n == a[0] || n in a[1..];
        assert n in b <==> n == b[0] || n in b[1..];
      }
      StrictUnique(a[1..], b[1..]);
      assert a == [a[0]] + a[1..] && b == [b[0]] + b[1..];
    } else {
      Inhabited(a);
      Inhabited(b);
    }
  }

  ghost predicate AlikeOne(f: Filter, g: Filter) {
    f.n == g.n && f.name == g.name && f.unreadable == g.unreadable && forall w :: w in f.patterns <==> w in g.patterns
  }

  /** The same filters, but for the order of a filter's patterns. */
  ghost predicate Alike(a: seq<Filter>, b: seq<Filter>) {
    |a| == |b| && forall i :: 0 <= i < |a| ==> AlikeOne(a[i], b[i])
  }

  lemma ReadsAlike(f: Filter, g: Filter, ps: seq<Param>, qs: seq<Param>, fits: string -> bool)
    requires f.n == g.n && Reads(f, ps, fits) && Reads(g, qs, fits)
    requires DistinctKeys(ps) && forall p :: p in ps <==> p in qs
    ensures AlikeOne(f, g)
  {
    hide Spoils, Gives, IsIndex;
    assert Spoilt(ps, f.n, fits) <==> Spoilt(qs, f.n, fits);
    forall w ensures Valued(ps, f.n, w, fits) <==> Valued(qs, f.n, w, fits) {
    }
    forall name ensures Named(ps, f.n, name) <==> Named(qs, f.n, name) {
    }
    OneName(ps, f.n);
  }

  lemma OneName(ps: seq<Param>, n: string)
    requires DistinctKeys(ps)
    ensures forall x, y :: Named(ps, n, x) && Named(ps, n, y) ==> x == y
  {
    forall x, y | Named(ps, n, x) && Named(ps, n, y) ensures x == y {
      var p :| p in ps && Under(p, n) && NamesIt(p) && p.values[0] == x;
      var q :| q in ps && Under(q, n) && NamesIt(q) && q.values[0] == y;
      NameKey(p, q);
    }
  }

  /** Whatever order a map's keys come in, the filters parsed are alike. */
  lemma ParseSeesAMap(a: seq<Filter>, ps: seq<Param>, b: seq<Filter>, qs: seq<Param>, fits: string -> bool)
    requires Parsed(a, ps, fits) && Parsed(b, qs, fits)
    requires DistinctKeys(ps) && forall p :: p in ps <==> p in qs
    ensures Alike(a, b)
  {
    hide Reads;
    forall n ensures Present(ps, n) <==> Present(qs, n) {
    }
    StrictUnique(Ns(a), Ns(b));
    forall i | 0 <= i < |a| ensures AlikeOne(a[i], b[i]) {
      assert Ns(a)[i] == Ns(b)[i];
      ReadsAlike(a[i], b[i], ps, qs, fits);
    }
  }

  // ----- matching a row -----

  /** One pattern against one value, as a regular expression engine decides it. */
  predicate Accepts(pattern: W.Pattern, s: string)
    decreases |pattern|, |s|
  {
    if pattern == [] then s == ""
    else match pattern[0]
      case Lit(c) => s != "" && s[0] == c && Accepts(pattern[1..], s[1..])
      case AnyRun => Accepts(pattern[1..], s) || (s != "" && Accepts(pattern, s[1..]))
      case AtMostOne => Accepts(pattern[1..], s) || (s != "" && Accepts(pattern[1..], s[1..]))
  }

  lemma {:induction false} AcceptsMatches(pattern: W.Pattern, s: string)
    ensures Accepts(pattern, s) <==> W.Matches(pattern, s)
    decreases |pattern|, |s|
  {
    if pattern == [] {
      W.MatchesNothing(s);
    } else {
      var p, rest := pattern[0], pattern[1..];
      assert pattern == [p] + rest;
      AcceptsMatches(rest, s);
      if s != "" {
        AcceptsMatches(rest, s[1..]);
        AcceptsMatches(pattern, s[1..]);
      }
      match p
      case Lit(c) => W.MatchesLit(c, rest, s);
      case AnyRun => AnyRunStep(rest, s);
      case AtMostOne => W.MatchesOptional(rest, s);
    }
  }

  lemma AnyRunStep(rest: W.Pattern, s: string)
    ensures W.Matches([W.AnyRun] + rest, s) <==> W.Matches(rest, s) || (s != "" && W.Matches([W.AnyRun] + rest, s[1..]))
  {
    W.MatchesFirst(W.AnyRun, rest, s);
    assert s[0..] == s;
    if s != "" {
      W.MatchesFirst(W.AnyRun, rest, s[1..]);
      if k :| 0 <= k <= |s| && W.PieceMatches(W.AnyRun, s[..k]) && W.Matches(rest, s[k..]) {
        if k > 0 {
          assert s[1..][k - 1..] == s[k..];
          assert W.PieceMatches(W.AnyRun, s[1..][..k - 1]);
        }
      }
      if k :| 0 <= k <= |s| - 1 && W.PieceMatches(W.AnyRun, s[1..][..k]) && W.Matches(rest, s[1..][k..]) {
        assert s[k + 1..] == s[1..][k..];
        assert W.PieceMatches(W.AnyRun, s[..k + 1]);
      }
    }
  }

  datatype Tag = Tag(key: string, value: string)

  /** What a Describe honours: the names it knows, those whose "" is a value, and whether tags are among them. */
  datatype Table = Table(names: set<string>, emptyIsValue: set<string>, tagged: bool)

  /** A row: its values by filter name, and its resource's tags. */
  datatype Row = Row(values: string -> seq<string>, tags: seq<Tag>)

  const TAG := "tag:"

  predicate Honours(t: Table, name: string) {
    name in t.names || (t.tagged && (name == "tag-key" || name == "tag-value" || (TAG <= name && name != TAG)))
  }

  function NonEmpty(vs: seq<string>): (r: seq<string>)
    ensures forall v :: v in r <==> v in vs && v != ""
  {
    if vs == [] then [] else (if vs[0] == "" then [] else [vs[0]]) + NonEmpty(vs[1..])
  }

  /** The tags' keys or values that `name` picks. */
  function Picked(name: string, tags: seq<Tag>): seq<string> {
    if tags == [] then []
    else
      (if name == "tag-key" then [tags[0].key]
       else if name == "tag-value" then [tags[0].value]
       else if TAG <= name && name[|TAG|..] == tags[0].key then [tags[0].value]
       else []) + Picked(name, tags[1..])
  }

  /** `valuesFor`, on a row: None for a name the table does not honour. */
  function ValuesFor(t: Table, row: Row, name: string): (r: Option<seq<string>>)
    ensures r.Some? <==> Honours(t, name)
  {
    if name in t.names then Some(if name in t.emptyIsValue then row.values(name) else NonEmpty(row.values(name)))
    else if Honours(t, name) then Some(Picked(name, row.tags))
    else None
  }

  /** Some value of the row for the filter's name matches some pattern of it. */
  ghost predicate Passes(t: Table, row: Row, f: Filter) {
    && Honours(t, f.name)
    && exists v, w :: v in ValuesFor(t, row, f.name).value && w in f.patterns && W.Matches(w, v)
  }

  method AnyMatches(patterns: seq<W.Pattern>, v: string) returns (b: bool)
    ensures b <==> exists w :: w in patterns && W.Matches(w, v)
  {
    for i := 0 to |patterns|
      invariant forall k :: 0 <= k < i ==> !W.Matches(patterns[k], v)
    {
      AcceptsMatches(patterns[i], v);
      if Accepts(patterns[i], v) {
        return true;
      }
    }
    b := false;
  }

  /** `matches`: AND across the filters, OR within each. */
  method RowMatches(t: Table, row: Row, filters: seq<Filter>) returns (b: bool)
    ensures b <==> forall f :: f in filters ==> Passes(t, row, f)
  {
    for i := 0 to |filters|
      invariant forall k :: 0 <= k < i ==> Passes(t, row, filters[k])
    {
      var vs := ValuesFor(t, row, filters[i].name);
      b := false;
      if vs.Some? {
        for j := 0 to |vs.value|
          invariant forall k, w :: 0 <= k < j && w in filters[i].patterns ==> !W.Matches(w, vs.value[k])
          invariant !b
        {
          var any := AnyMatches(filters[i].patterns, vs.value[j]);
          if any {
            b := true;
            break;
          }
        }
      }
      if !b {
        assert !Passes(t, row, filters[i]);
        return;
      }
    }
    b := true;
  }

  /** Alike filters pass the same rows. */
  lemma AlikePass(t: Table, row: Row, a: seq<Filter>, b: seq<Filter>)
    requires Alike(a, b)
    ensures (forall f :: f in a ==> Passes(t, row, f)) <==> (forall f :: f in b ==> Passes(t, row, f))
  {
    forall i | 0 <= i < |a| ensures Passes(t, row, a[i]) <==> Passes(t, row, b[i]) {
      assert AlikeOne(a[i], b[i]);
    }
  }

  // ----- refusing -----

  /** What a table cannot honour: an unreadable filter by its N, another by its name. */
  function Unmodelled(t: Table, filters: seq<Filter>): seq<string> {
    if filters == [] then []
    else
      var f := filters[0];
      (if f.name == "" || f.patterns == [] || f.unreadable then [PREFIX + f.n]
       else if !Honours(t, f.name) then [f.name] else []) + Unmodelled(t, filters[1..])
  }

  lemma {:induction false} AlikeUnmodelled(t: Table, a: seq<Filter>, b: seq<Filter>)
    requires Alike(a, b)
    ensures Unmodelled(t, a) == Unmodelled(t, b)
  {
    if a != [] {
      assert AlikeOne(a[0], b[0]);
      SamePatterns(a[0].patterns, b[0].patterns);
      AlikeUnmodelled(t, a[1..], b[1..]);
    }
  }

  lemma SamePatterns(a: seq<W.Pattern>, b: seq<W.Pattern>)
    requires forall w :: w in a <==> w in b
    ensures a == [] <==> b == []
  {
    if a != [] { assert a[0] in b; }
    if b != [] { assert b[0] in a; }
  }

  /** The names `ec2Refuse` writes; no refusal is written when there are none. */
  function Refusal(t: Table, filters: seq<Filter>, more: seq<string>): seq<string> {
    Compact(Sort(Unmodelled(t, filters) + more))
  }

  /** A refusal names every name once, in byte order. */
  lemma RefusalNamesAll(t: Table, filters: seq<Filter>, more: seq<string>)
    ensures var r := Refusal(t, filters, more);
            Ascends(r) && forall n :: n in r <==> n in Unmodelled(t, filters) || n in more
  {
    SortedOnce(Unmodelled(t, filters) + more);
  }

  /** The same request reads the same refusal, whatever order its parameters come in. */
  lemma RefusalSeesAMap(t: Table, a: seq<Filter>, b: seq<Filter>, more: seq<string>, more': seq<string>)
    requires Alike(a, b) && forall n :: n in more <==> n in more'
    ensures Refusal(t, a, more) == Refusal(t, b, more')
  {
    AlikeUnmodelled(t, a, b);
    RefusalNamesAll(t, a, more);
    RefusalNamesAll(t, b, more');
    AscendingUnique(Refusal(t, a, more), Refusal(t, b, more'));
  }
}
