/** `diffNumber`: one spelling for each value a JSON number can denote. */
module JsonNumber {
  import opened Text

  /** An exponent part: its sign, '+' when none is written, and its digits. */
  datatype Exponent = NoExponent | Exponent(mark: char, sign: string, digits: string)

  /** The number grammar of section 6 of RFC 8259; `frac` is "" when there is no fraction. */
  datatype Number = Number(neg: bool, whole: string, frac: string, exp: Exponent) {
    predicate WellFormed() {
      && whole != "" && AllDigits(whole) && (whole[0] == '0' ==> whole == "0")
      && AllDigits(frac)
      && (exp.Exponent? ==>
            && (exp.mark == 'e' || exp.mark == 'E') && exp.sign in {"", "+", "-"}
            && exp.digits != "" && AllDigits(exp.digits))
    }

    function Body(): string {
      whole + if frac == "" then "" else "." + frac
    }

    function Tail(): string {
      if exp.NoExponent? then "" else [exp.mark] + (exp.sign + exp.digits)
    }

    function Text(): string {
      (if neg then "-" else "") + (Body() + Tail())
    }

    /** The digits of the number read without its point. */
    function Mantissa(): (m: string)
      requires WellFormed()
      ensures AllDigits(m) && m != ""
    {
      whole + frac
    }

    /** The exponent as written. */
    function Written(): int
      requires WellFormed()
    {
      if exp.NoExponent? then 0
      else if exp.sign == "-" then 0 - Atoi(exp.digits)
      else Atoi(exp.digits)
    }

    /** The value is ± Mantissa × 10^Scale. */
    function Scale(): int
      requires WellFormed()
    {
      Written() - |frac|
    }

    /** `strconv.Atoi` takes the exponent: it fits 64 bits. */
    predicate Parses()
      requires WellFormed()
    {
      InInt64(Written())
    }
  }

  const TWO63: int := 0x8000_0000_0000_0000

  predicate InInt64(x: int) {
    -TWO63 <= x < TWO63
  }

  /** Go's int arithmetic, modulo 2^64. */
  function Wrap(x: int): (r: int)
    ensures InInt64(r)
    ensures (x - r) % (2 * TWO63) == 0
    ensures InInt64(x) ==> r == x
  {
    (x + TWO63) % (2 * TWO63) - TWO63
  }

  // ----- what the number denotes -----

  /** |x| = |y| as rationals: both scaled to the smaller exponent. */
  predicate SameMagnitude(x: Number, y: Number)
    requires x.WellFormed() && y.WellFormed()
  {
    var low := if x.Scale() < y.Scale() then x.Scale() else y.Scale();
    Atoi(x.Mantissa()) * Pow10(x.Scale() - low) == Atoi(y.Mantissa()) * Pow10(y.Scale() - low)
  }

  predicate IsZero(x: Number)
    requires x.WellFormed()
  {
    Atoi(x.Mantissa()) == 0
  }

  /** x and y denote the same rational number. */
  predicate SameValue(x: Number, y: Number)
    requires x.WellFormed() && y.WellFormed()
  {
    SameMagnitude(x, y) && (IsZero(x) || x.neg == y.neg)
  }

  // ----- digits without outer zeros -----

  function TrimLeft(s: string): (r: string)
    ensures |r| <= |s|
    ensures r != "" ==> r[0] != '0'
  {
    if s != "" && s[0] == '0' then TrimLeft(s[1..]) else s
  }

  function TrimRight(s: string): (r: string)
    ensures r <= s
    ensures r != "" ==> r[|r| - 1] != '0'
  {
    if s != "" && s[|s| - 1] == '0' then TrimRight(s[..|s| - 1]) else s
  }

  /** The significant digits, "" for zero. */
  function Significant(x: Number): (r: string)
    requires x.WellFormed()
  {
    TrimRight(TrimLeft(x.Mantissa()))
  }

  /** The power of ten the significant digits carry. */
  function Power(x: Number): int
    requires x.WellFormed()
  {
    var m := TrimLeft(x.Mantissa());
    x.Scale() + |m| - |TrimRight(m)|
  }

  /** The power fits the 64-bit int it is computed in. */
  predicate Fits(x: Number)
    requires x.WellFormed()
  {
    x.Parses() && InInt64(Power(x))
  }

  function SpellInt(z: int): (s: string)
    ensures s != ""
  {
    if z < 0 then "-" + Itoa(-z) else Itoa(z)
  }

  /** What `diffNumber` answers for a number of the grammar. */
  function Spelling(x: Number): string
    requires x.WellFormed()
  {
    if !x.Parses() then x.Text()
    else if Significant(x) == "" then "0"
    else Spell(x.neg, Significant(x), Wrap(Power(x)))
  }

  function Spell(neg: bool, digits: string, power: int): string {
    (if neg then "-" else "") + (digits + ("e" + SpellInt(power)))
  }

  // ----- arithmetic of digit strings -----

  lemma AtoiAppend(s: string, c: char)
    requires AllDigits(s) && IsDigit(c)
    ensures AllDigits(s + [c]) && Atoi(s + [c]) == 10 * Atoi(s) + DigitValue(c)
  {
    assert (s + [c])[..|s|] == s;
  }

  lemma {:induction false} TrimLeftKeepsValue(s: string)
    requires AllDigits(s)
    ensures AllDigits(TrimLeft(s)) && Atoi(TrimLeft(s)) == Atoi(s)
  {
    if s != "" && s[0] == '0' {
      TrimLeftKeepsValue(s[1..]);
      LeadingZero(s);
    }
  }

  lemma {:induction false} LeadingZero(s: string)
    requires s != "" && AllDigits(s) && s[0] == '0'
    ensures Atoi(s[1..]) == Atoi(s)
  {
    if |s| == 1 {
      assert s[..0] == "" && s[1..] == "";
    } else {
      var front := s[..|s| - 1];
      LeadingZero(front);
      assert s[1..] == front[1..] + [s[|s| - 1]];
      AtoiAppend(front[1..], s[|s| - 1]);
    }
  }

  lemma {:induction false} TrimRightScales(s: string)
    requires AllDigits(s)
    ensures AllDigits(TrimRight(s))
    ensures Atoi(s) == Atoi(TrimRight(s)) * Pow10(|s| - |TrimRight(s)|)
  {
    if s != "" && s[|s| - 1] == '0' {
      var front := s[..|s| - 1];
      TrimRightScales(front);
      TenTimes(Atoi(TrimRight(front)), Pow10(|front| - |TrimRight(front)|));
    }
  }

  lemma {:induction false} CanonicalPositive(s: string)
    requires s != "" && AllDigits(s) && s[0] != '0'
    ensures Atoi(s) > 0
  {
    if |s| > 1 {
      CanonicalPositive(s[..|s| - 1]);
    } else {
      assert s[..0] == "";
    }
  }

  /** Digits without a leading zero are the numeral of their value. */
  lemma {:induction false} CanonicalUnique(s: string, t: string)
    requires AllDigits(s) && AllDigits(t)
    requires (s != "" ==> s[0] != '0') && (t != "" ==> t[0] != '0')
    requires Atoi(s) == Atoi(t)
    ensures s == t
  {
    if s != "" && t != "" {
      CanonicalUnique(s[..|s| - 1], t[..|t| - 1]);
      assert s == s[..|s| - 1] + [s[|s| - 1]] && t == t[..|t| - 1] + [t[|t| - 1]];
    } else if s != "" {
      CanonicalPositive(s);
    } else if t != "" {
      CanonicalPositive(t);
    }
  }

  lemma LastDigitShows(s: string)
    requires s != "" && AllDigits(s) && s[|s| - 1] != '0'
    ensures Atoi(s) % 10 != 0
  {
    LastDigit(Atoi(s[..|s| - 1]), DigitValue(s[|s| - 1]));
  }

  lemma LastDigit(n: nat, d: nat)
    requires d < 10
    ensures (10 * n + d) % 10 == d
  {
  }

  lemma {:induction false} PowerAdds(a: nat, b: nat)
    ensures Pow10(a + b) == Pow10(a) * Pow10(b)
  {
    if a > 0 {
      PowerAdds(a - 1, b);
      assert (10 * Pow10(a - 1)) * Pow10(b) == 10 * (Pow10(a - 1) * Pow10(b));
    }
  }

  lemma Cancels(x: nat, y: nat, p: nat)
    requires p > 0 && x * p == y * p
    ensures x == y
  {
    assert (x - y) * p == 0;
  }

  lemma LowerPowerDivides(d: nat, a: nat, e: nat, b: nat)
    requires a < b && d * Pow10(a) == e * Pow10(b)
    ensures d % 10 == 0
  {
    var k: nat := b - a - 1;
    PowerAdds(k + 1, a);
    Regroups(e, Pow10(k), Pow10(a));
    Cancels(d, 10 * (e * Pow10(k)), Pow10(a));
  }

  lemma Regroups(e: nat, q: nat, p: nat)
    ensures e * ((10 * q) * p) == (10 * (e * q)) * p
  {
    assert (10 * q) * p == 10 * (q * p);
    assert e * (q * p) == (e * q) * p;
  }

  /** A value not divisible by ten has one power of ten. */
  lemma OnePower(d: nat, a: nat, e: nat, b: nat)
    requires d % 10 != 0 && e % 10 != 0
    ensures d * Pow10(a) == e * Pow10(b) <==> d == e && a == b
  {
    if d * Pow10(a) == e * Pow10(b) {
      if a < b {
        LowerPowerDivides(d, a, e, b);
      } else if b < a {
        LowerPowerDivides(e, b, d, a);
      } else {
        Cancels(d, e, Pow10(a));
      }
    }
  }

  // ----- values and their normal parts -----

  /** The mantissa is the significant digits times a power of ten. */
  lemma MantissaSplits(x: Number) returns (k: nat)
    requires x.WellFormed()
    ensures AllDigits(Significant(x))
    ensures k == Power(x) - x.Scale() && Atoi(x.Mantissa()) == Atoi(Significant(x)) * Pow10(k)
    ensures Significant(x) != "" ==> Significant(x)[0] != '0' && Atoi(Significant(x)) % 10 != 0
    ensures Significant(x) == "" <==> IsZero(x)
  {
    var m := TrimLeft(x.Mantissa());
    TrimLeftKeepsValue(x.Mantissa());
    TrimRightScales(m);
    k := |m| - |TrimRight(m)|;
    if Significant(x) != "" {
      assert TrimRight(m)[0] == m[0];
      CanonicalPositive(Significant(x));
      LastDigitShows(Significant(x));
    }
  }

  lemma ScaledMantissa(d: nat, k: nat, s: nat)
    ensures (d * Pow10(k)) * Pow10(s) == d * Pow10(k + s)
  {
    PowerAdds(k, s);
    assert (d * Pow10(k)) * Pow10(s) == d * (Pow10(k) * Pow10(s));
  }

  /** Two nonzero numbers have one magnitude exactly when their digits and their power agree. */
  lemma MagnitudeIsNormal(x: Number, y: Number)
    requires x.WellFormed() && y.WellFormed() && !IsZero(x) && !IsZero(y)
    ensures SameMagnitude(x, y) <==> Significant(x) == Significant(y) && Power(x) == Power(y)
  {
    var k := MantissaSplits(x);
    var l := MantissaSplits(y);
    var low := if x.Scale() < y.Scale() then x.Scale() else y.Scale();
    var dx, dy := Atoi(Significant(x)), Atoi(Significant(y));
    ScaledMantissa(dx, k, x.Scale() - low);
    ScaledMantissa(dy, l, y.Scale() - low);
    OnePower(dx, k + (x.Scale() - low), dy, l + (y.Scale() - low));
    if dx == dy { CanonicalUnique(Significant(x), Significant(y)); }
  }

  lemma ZeroMagnitude(x: Number, y: Number)
    requires x.WellFormed() && y.WellFormed() && (IsZero(x) || IsZero(y))
    ensures SameMagnitude(x, y) <==> IsZero(x) && IsZero(y)
  {
    var low := if x.Scale() < y.Scale() then x.Scale() else y.Scale();
    if !IsZero(x) { assert Atoi(x.Mantissa()) * Pow10(x.Scale() - low) > 0; }
    if !IsZero(y) { assert Atoi(y.Mantissa()) * Pow10(y.Scale() - low) > 0; }
  }

  // ----- the spelling can be read back -----

  lemma SpellIntInjective(x: int, y: int)
    requires SpellInt(x) == SpellInt(y)
    ensures x == y
  {
    assert SpellInt(x)[0] == (if x < 0 then '-' else Itoa(x)[0]);
    assert SpellInt(y)[0] == (if y < 0 then '-' else Itoa(y)[0]);
    if x < 0 && y < 0 {
      assert Itoa(-x) == SpellInt(x)[1..] && Itoa(-y) == SpellInt(y)[1..];
      AtoiItoa(-x);
      AtoiItoa(-y);
    } else if x >= 0 && y >= 0 {
      AtoiItoa(x);
      AtoiItoa(y);
    }
  }

  lemma DigitsEndAtMark(s: string, x: string, t: string, y: string)
    requires AllDigits(s) && AllDigits(t)
    requires s + ("e" + x) == t + ("e" + y)
    ensures s == t && x == y
  {
    var l, r := s + ("e" + x), t + ("e" + y);
    assert l[|s|] == 'e' && r[|t|] == 'e';
    assert forall k :: 0 <= k < |s| ==> l[k] == s[k];
    assert forall k :: 0 <= k < |t| ==> r[k] == t[k];
    assert |s| == |t|;
    assert s == l[..|s|] && t == r[..|t|];
    assert x == l[|s| + 1..] && y == r[|t| + 1..];
  }

  lemma SpellInjective(n: bool, s: string, p: int, m: bool, t: string, q: int)
    requires s != "" && AllDigits(s) && t != "" && AllDigits(t)
    ensures Spell(n, s, p) == Spell(m, t, q) <==> n == m && s == t && p == q
  {
    var ps, qs := s + ("e" + SpellInt(p)), t + ("e" + SpellInt(q));
    assert ps[0] == s[0] && qs[0] == t[0];
    if Spell(n, s, p) == Spell(m, t, q) {
      assert (if n then "-" else "") + ps == Spell(n, s, p) && (if m then "-" else "") + qs == Spell(m, t, q);
      assert n == m by {
        assert Spell(n, s, p)[0] == (if n then '-' else s[0]);
        assert Spell(m, t, q)[0] == (if m then '-' else t[0]);
      }
      assert ps == Spell(n, s, p)[if n then 1 else 0..] && qs == Spell(m, t, q)[if m then 1 else 0..];
      DigitsEndAtMark(s, SpellInt(p), t, SpellInt(q));
      SpellIntInjective(p, q);
    }
  }

  lemma SpellIsNotZero(n: bool, s: string, p: int)
    requires s != "" && AllDigits(s)
    ensures Spell(n, s, p) != "0"
  {
    assert |Spell(n, s, p)| >= 2;
  }

  // ----- the theorem -----

  /**
   * Numbers whose exponent parses are spelled alike exactly when both are zero,
   * or their sign and digits agree and their powers of ten agree modulo 2^64.
   */
  lemma SpellingIsValueModuloWrap(x: Number, y: Number)
    requires x.WellFormed() && y.WellFormed() && x.Parses() && y.Parses()
    ensures Spelling(x) == Spelling(y) <==>
            || (IsZero(x) && IsZero(y))
            || (!IsZero(x) && !IsZero(y) && x.neg == y.neg && Significant(x) == Significant(y)
                && Wrap(Power(x)) == Wrap(Power(y)))
  {
    var _ := MantissaSplits(x);
    var _ := MantissaSplits(y);
    if !IsZero(x) { SpellIsNotZero(x.neg, Significant(x), Wrap(Power(x))); }
    if !IsZero(y) { SpellIsNotZero(y.neg, Significant(y), Wrap(Power(y))); }
    if !IsZero(x) && !IsZero(y) {
      SpellInjective(x.neg, Significant(x), Wrap(Power(x)), y.neg, Significant(y), Wrap(Power(y)));
    }
  }

  /** Within 64 bits, numbers are spelled alike exactly when they denote one rational. */
  lemma SpellingIsValue(x: Number, y: Number)
    requires x.WellFormed() && y.WellFormed() && Fits(x) && Fits(y)
    ensures Spelling(x) == Spelling(y) <==> SameValue(x, y)
  {
    SpellingIsValueModuloWrap(x, y);
    ValueIsNormal(x, y);
  }

  lemma ValueIsNormal(x: Number, y: Number)
    requires x.WellFormed() && y.WellFormed()
    ensures SameValue(x, y) <==>
            || (IsZero(x) && IsZero(y))
            || (!IsZero(x) && !IsZero(y) && x.neg == y.neg && Significant(x) == Significant(y) && Power(x) == Power(y))
  {
    if IsZero(x) || IsZero(y) {
      ZeroMagnitude(x, y);
    } else {
      MagnitudeIsNormal(x, y);
    }
  }

  /** The number of `digits` × 10^power, written with an exponent. */
  function Plain(neg: bool, digits: string, power: int): Number {
    Number(neg, digits, "", Exponent('e', if power < 0 then "-" else "", Itoa(if power < 0 then -power else power)))
  }

  lemma PlainIsNormal(neg: bool, digits: string, power: int)
    requires digits != "" && AllDigits(digits) && digits[0] != '0' && digits[|digits| - 1] != '0'
    ensures var y := Plain(neg, digits, power);
            y.WellFormed() && y.Written() == power && Significant(y) == digits && Power(y) == power && !IsZero(y)
  {
    var y := Plain(neg, digits, power);
    AtoiItoa(if power < 0 then -power else power);
    assert y.Mantissa() == digits;
    CanonicalPositive(digits);
  }

  /**
   * A nonzero number whose power of ten does not fit shares its spelling with a
   * different number that fits, so the spelling tells x from every fitting
   * number exactly when x fits.
   */
  lemma SpellingTellsExactlyTheFitting(x: Number)
    requires x.WellFormed() && x.Parses() && !IsZero(x)
    ensures Fits(x) <==>
            forall y: Number :: y.WellFormed() && Fits(y) ==> (Spelling(x) == Spelling(y) <==> SameValue(x, y))
  {
    if Fits(x) {
      forall y: Number | y.WellFormed() && Fits(y) ensures Spelling(x) == Spelling(y) <==> SameValue(x, y) {
        SpellingIsValue(x, y);
      }
    } else {
      var y := NotFittingShares(x);
      assert Spelling(x) == Spelling(y) && !SameValue(x, y);
    }
  }

  /** The fitting number a number that does not fit is taken for. */
  lemma NotFittingShares(x: Number) returns (y: Number)
    requires x.WellFormed() && x.Parses() && !IsZero(x) && !Fits(x)
    ensures y == Plain(x.neg, Significant(x), Wrap(Power(x)))
    ensures y.WellFormed() && Fits(y) && Spelling(x) == Spelling(y) && !SameValue(x, y)
  {
    var _ := MantissaSplits(x);
    var s := Significant(x);
    assert s[|s| - 1] != '0';
    y := Plain(x.neg, s, Wrap(Power(x)));
    PlainIsNormal(x.neg, s, Wrap(Power(x)));
    SpellingIsValueModuloWrap(x, y);
    ValueIsNormal(x, y);
  }

  /** The number 10e9223372036854775807, whose power of ten is one too many. */
  const TOO_FAR := Number(false, "10", "", Exponent('e', "", Itoa(TWO63 - 1)))

  lemma TooFarIs()
    ensures TOO_FAR.WellFormed() && TOO_FAR.Parses() && Significant(TOO_FAR) == "1" && Power(TOO_FAR) == TWO63
  {
    AtoiItoa(TWO63 - 1);
    hide Itoa, Atoi;
    assert "10"[..1] == "1" && TrimLeft("10") == "10" && TrimRight("1") == "1" && TrimRight("10") == "1";
    assert TOO_FAR.Mantissa() == "10";
  }

  lemma TooFarDoesNotFit()
    ensures TOO_FAR.WellFormed() && TOO_FAR.Parses() && !IsZero(TOO_FAR) && !Fits(TOO_FAR)
  {
    hide Itoa, Atoi, Significant, Power;
    TooFarIs();
    var _ := MantissaSplits(TOO_FAR);
  }

  /** It shares its spelling with 1e-9223372036854775808. */
  lemma FarApartShareASpelling()
    ensures TOO_FAR.WellFormed() && TOO_FAR.Parses() && !IsZero(TOO_FAR) && !Fits(TOO_FAR)
    ensures var y := Plain(false, "1", -TWO63);
            y.WellFormed() && Fits(y) && Spelling(TOO_FAR) == Spelling(y) && !SameValue(TOO_FAR, y)
  {
    hide Itoa, Atoi, Significant, Power, Plain, Number.WellFormed, IsZero, SameValue, Spelling, Number.Parses, Fits;
    TooFarIs();
    TooFarDoesNotFit();
    var y := NotFittingShares(TOO_FAR);
    assert Wrap(TWO63) == -TWO63;
  }

  // ----- exponents that do not parse -----

  /** Where a text's exponent starts, and its sign and digits. */
  lemma ExponentShows(x: Number)
    requires x.WellFormed()
    ensures var s := x.Body() + x.Tail();
            var i := IndexAny(s, "eE");
            (i >= 0 <==> x.exp.Exponent?) && (i >= 0 ==> s[i + 1..] == x.exp.sign + x.exp.digits)
  {
    BodyHasNoMark(x);
    hide IndexAny, Number.Body, Atoi;
    var s := x.Body() + x.Tail();
    if x.exp.Exponent? {
      MarkIsFirst(s, "eE", x.Body(), x.exp.mark, x.exp.sign + x.exp.digits);
    } else {
      assert s == x.Body();
    }
  }

  lemma SameRest(x: Number, y: Number)
    requires x.WellFormed() && y.WellFormed() && x.Text() == y.Text()
    ensures x.Body() + x.Tail() == y.Body() + y.Tail()
  {
    SignShows(x);
    SignShows(y);
    hide Number.Body, Number.Tail;
  }

  lemma DigitsTellParsing(x: Number, y: Number)
    requires x.WellFormed() && y.WellFormed() && x.exp.Exponent? && y.exp.Exponent?
    requires x.exp.sign + x.exp.digits == y.exp.sign + y.exp.digits
    ensures x.Parses() == y.Parses()
  {
    ExponentParses(x);
    ExponentParses(y);
    hide Number.Parses, Atoi;
  }

  /** A text has one reading of its exponent. */
  lemma TextTellsParsing(x: Number, y: Number)
    requires x.WellFormed() && y.WellFormed() && x.Text() == y.Text()
    ensures x.Parses() == y.Parses()
  {
    SameRest(x, y);
    ExponentShows(x);
    ExponentShows(y);
    hide IndexAny, Number.Body, Number.Tail, Number.Text;
    if x.exp.Exponent? {
      DigitsTellParsing(x, y);
    }
  }

  /** A spelling that was built is itself a number whose exponent parses. */
  lemma SpellingIsANumber(x: Number) returns (n: Number)
    requires x.WellFormed() && x.Parses()
    ensures n.WellFormed() && n.Parses() && n.Text() == Spelling(x)
  {
    var digits, power := Significant(x), Wrap(Power(x));
    if digits == "" {
      n := Number(false, "0", "", NoExponent);
    } else {
      var _ := MantissaSplits(x);
      n := Plain(x.neg, digits, power);
      PlainIsNormal(x.neg, digits, power);
      assert n.Body() == digits && n.Tail() == "e" + SpellInt(power);
    }
  }

  /**
   * Spellings in full: where both exponents parse, what the 64-bit arithmetic leaves
   * of the values decides; where one does not, the texts do.
   */
  lemma SpellingExactly(x: Number, y: Number)
    requires x.WellFormed() && y.WellFormed()
    ensures Spelling(x) == Spelling(y) <==>
            if x.Parses() && y.Parses() then
              || (IsZero(x) && IsZero(y))
              || (!IsZero(x) && !IsZero(y) && x.neg == y.neg && Significant(x) == Significant(y)
                  && Wrap(Power(x)) == Wrap(Power(y)))
            else x.Text() == y.Text()
  {
    if x.Parses() && y.Parses() {
      SpellingIsValueModuloWrap(x, y);
    } else {
      if x.Text() == y.Text() { TextTellsParsing(x, y); }
      if x.Parses() { OnlyOneParses(x, y); }
      if y.Parses() { OnlyOneParses(y, x); }
    }
  }

  lemma OnlyOneParses(x: Number, y: Number)
    requires x.WellFormed() && y.WellFormed() && x.Parses() && !y.Parses()
    ensures Spelling(x) != Spelling(y)
  {
    var n := SpellingIsANumber(x);
    if n.Text() == y.Text() {
      TextTellsParsing(n, y);
    }
  }

  /** Two numerals of one value are spelled alike exactly when both exponents parse or they are one text. */
  lemma ValueHasOneSpelling(x: Number, y: Number)
    requires x.WellFormed() && y.WellFormed() && SameValue(x, y)
    ensures Spelling(x) == Spelling(y) <==> (x.Parses() && y.Parses()) || x.Text() == y.Text()
  {
    SpellingExactly(x, y);
    ValueIsNormal(x, y);
  }

  /** 0e9223372036854775808 and 0 are one value, spelled in two ways. */
  lemma OneValueTwoSpellings()
    ensures var x, y := Number(false, "0", "", Exponent('e', "", Itoa(TWO63))), Number(false, "0", "", NoExponent);
            x.WellFormed() && y.WellFormed() && !x.Parses() && SameValue(x, y) && Spelling(x) != Spelling(y)
  {
    var x, y := Number(false, "0", "", Exponent('e', "", Itoa(TWO63))), Number(false, "0", "", NoExponent);
    AtoiItoa(TWO63);
    assert x.Mantissa() == "0" == y.Mantissa() && Atoi("0") == 0;
    ZeroMagnitude(x, y);
    assert y.Parses() && |x.Text()| > 1 && y.Text() == "0";
    ValueHasOneSpelling(x, y);
  }

  // ----- the code -----

  datatype ParsedInt = OutOfRange | Value(v: int)

  /** `strconv.Atoi` of a signed run of digits. */
  function ParseInt(s: string): ParsedInt
    requires s != "" && AllDigits(if s[0] in "+-" then s[1..] else s)
  {
    var v := if s[0] == '-' then 0 - Atoi(s[1..]) else if s[0] == '+' then Atoi(s[1..]) else Atoi(s);
    if InInt64(v) then Value(v) else OutOfRange
  }

  /** `strings.IndexAny` and `strings.IndexByte`: the first place any of `marks` stands, or -1. */
  function IndexAny(s: string, marks: string): (i: int)
    ensures -1 <= i < |s|
    ensures i >= 0 ==> s[i] in marks
    ensures forall k :: 0 <= k < (if i < 0 then |s| else i) ==> s[k] !in marks
  {
    if s == "" then -1
    else if s[0] in marks then 0
    else
      var rest := IndexAny(s[1..], marks);
      assert forall k :: 1 <= k < |s| ==> s[k] == s[1..][k - 1];
      if rest < 0 then -1 else 1 + rest
  }

  lemma MarkIsFirst(s: string, marks: string, front: string, c: char, back: string)
    requires s == front + ([c] + back) && c in marks && forall k :: 0 <= k < |front| ==> front[k] !in marks
    ensures IndexAny(s, marks) == |front| && s[..|front|] == front && s[|front| + 1..] == back
  {
    assert s[|front|] == c;
    assert forall k :: 0 <= k < |front| ==> s[k] == front[k];
  }

  lemma BodyHasNoMark(x: Number)
    requires x.WellFormed()
    ensures forall k :: 0 <= k < |x.Body()| ==> x.Body()[k] !in "eE-"
  {
  }

  /** Splits off an exponent; `ok` is false when it does not parse. */
  method TakeExponent(s: string, ghost x: Number) returns (ok: bool, body: string, exp: int)
    requires x.WellFormed() && s == x.Body() + x.Tail()
    ensures ok == x.Parses()
    ensures ok ==> body == x.Body() && exp == x.Written()
  {
    ok, body, exp := true, s, 0;
    BodyHasNoMark(x);
    if x.exp.Exponent? {
      MarkIsFirst(s, "eE", x.Body(), x.exp.mark, x.exp.sign + x.exp.digits);
    } else {
      assert s == x.Body();
    }
    var i := IndexAny(s, "eE");
    if i >= 0 {
      ExponentParses(x);
      var e := ParseInt(s[i + 1..]);
      if e.OutOfRange? {
        ok := false;
      } else {
        body, exp := s[..i], e.v;
      }
    }
  }

  /** Drops a point, moving the digits after it before it. */
  method TakePoint(s: string, exp: int, ghost x: Number) returns (digits: string, scaled: int)
    requires x.WellFormed() && x.Parses() && s == x.Body() && exp == x.Written()
    ensures digits == x.Mantissa() && scaled == Wrap(x.Scale())
  {
    digits, scaled := s, exp;
    if x.frac != "" {
      assert s == x.whole + (['.'] + x.frac);
      MarkIsFirst(s, ".", x.whole, '.', x.frac);
    } else {
      assert s == x.whole;
    }
    var i := IndexAny(s, ".");
    if i >= 0 {
      scaled := Wrap(exp - (|s| - i - 1));
      digits := s[..i] + s[i + 1..];
    }
  }

  /** Trims the digits' outer zeros, the right ones into the power. */
  method SpellDigits(sign: string, mantissa: string, exp: int, ghost x: Number) returns (r: string)
    requires x.WellFormed() && x.Parses() && sign == (if x.neg then "-" else "")
    requires mantissa == x.Mantissa() && exp == Wrap(x.Scale())
    ensures r == Spelling(x)
  {
    var s := TrimLeft(mantissa);
    if s == "" {
      return "0";
    }
    var digits := TrimRight(s);
    TrimRightStops(s);
    WrapAdds(x.Scale(), |s| - |digits|);
    var power := Wrap(exp + |s| - |digits|);
    assert power == Wrap(Power(x));
    r := sign + (digits + ("e" + SpellInt(power)));
  }

  lemma SignShows(x: Number)
    requires x.WellFormed()
    ensures var s := x.Text();
            s != "" && (s[0] == '-' <==> x.neg) && (if x.neg then s[1..] else s) == x.Body() + x.Tail()
  {
    assert (x.Body() + x.Tail())[0] == x.whole[0];
    assert IsDigit(x.whole[0]);
  }

  /** `diffNumber` on the text of a number. */
  method DiffNumber(num: string, ghost x: Number) returns (r: string)
    requires x.WellFormed() && num == x.Text()
    ensures r == Spelling(x)
  {
    var s, sign := num, "";
    SignShows(x);
    if s[0] == '-' {
      s, sign := s[1..], "-";
    }
    var ok, body, exp := TakeExponent(s, x);
    if !ok {
      return num;
    }
    s, exp := TakePoint(body, exp, x);
    r := SpellDigits(sign, s, exp, x);
  }

  lemma ExponentParses(x: Number)
    requires x.WellFormed() && x.exp.Exponent?
    ensures var s := x.exp.sign + x.exp.digits;
            && s != "" && AllDigits(if s[0] in "+-" then s[1..] else s)
            && (ParseInt(s) == if x.Parses() then Value(x.Written()) else OutOfRange)
  {
    var s := x.exp.sign + x.exp.digits;
    if x.exp.sign == "" {
      assert s == x.exp.digits;
      assert IsDigit(s[0]);
    } else {
      assert s[0] == x.exp.sign[0] && s[1..] == x.exp.digits;
    }
  }

  lemma {:induction false} TrimRightStops(s: string)
    requires s != "" && s[0] != '0'
    ensures TrimRight(s) != ""
  {
    if s[|s| - 1] == '0' {
      TrimRightStops(s[..|s| - 1]);
    }
  }

  lemma WrapAdds(x: int, n: int)
    ensures Wrap(Wrap(x) + n) == Wrap(x + n)
  {
    var m := 2 * TWO63;
    var k := (Wrap(x) - x) / m;
    assert Wrap(x) - x == m * k;
    ShiftKeepsRemainder(x + n + TWO63, m, k);
  }

  lemma ShiftKeepsRemainder(x: int, m: int, k: int)
    requires m > 0
    ensures (x + m * k) % m == x % m
  {
    var q := x / m;
    assert x + m * k == m * (q + k) + x % m;
    SameRemainder(x + m * k, m, q + k, x % m);
  }

  lemma SameRemainder(x: int, m: int, q: int, r: int)
    requires m > 0 && 0 <= r < m && x == m * q + r
    ensures x % m == r
  {
    var d := x / m - q;
    assert m * d == r - x % m;
  }
}
