/** The wildcards of an EC2 filter value, and the pattern they are compiled to. */
module Wildcards {

  /** One part of a compiled pattern: a quoted rune, `.*` or `.?`. */
  datatype Piece = Lit(c: char) | AnyRun | AtMostOne

  type Pattern = seq<Piece>

  const BACKSLASH := '\\'

  // ----- what a pattern matches -----

  predicate PieceMatches(p: Piece, s: string) {
    match p
    case Lit(c) => s == [c]
    case AnyRun => true
    case AtMostOne => |s| <= 1
  }

  function Join(parts: seq<string>): string {
    if parts == [] then "" else parts[0] + Join(parts[1..])
  }

  ghost predicate Splits(pattern: Pattern, parts: seq<string>, s: string) {
    && |parts| == |pattern| && Join(parts) == s
    && forall i :: 0 <= i < |parts| ==> PieceMatches(pattern[i], parts[i])
  }

  /** A pattern between `^` and `$` matches what splits into a match of each piece in turn. */
  ghost predicate Matches(pattern: Pattern, s: string) {
    exists parts :: Splits(pattern, parts, s)
  }

  // ----- what a filter value means -----

  /** AWS's wildcards: `*` any run, `?` zero or one, a backslash makes the next character literal, or at the end is itself. */
  ghost predicate Means(value: string, s: string)
    decreases |value|
  {
    if value == "" then s == ""
    else if value[0] == BACKSLASH then
      if |value| == 1 then s == [BACKSLASH]
      else s != "" && s[0] == value[1] && Means(value[2..], s[1..])
    else if value[0] == '*' then exists k :: 0 <= k <= |s| && Means(value[1..], s[k..])
    else if value[0] == '?' then Means(value[1..], s) || (s != "" && Means(value[1..], s[1..]))
    else s != "" && s[0] == value[0] && Means(value[1..], s[1..])
  }

  // ----- the compiler -----

  /** What the loop writes for the rest of a value. */
  function Rest(value: string, escaped: bool): Pattern {
    if value == "" then if escaped then [Lit(BACKSLASH)] else []
    else if escaped then [Lit(value[0])] + Rest(value[1..], false)
    else if value[0] == BACKSLASH then Rest(value[1..], true)
    else [if value[0] == '*' then AnyRun else if value[0] == '?' then AtMostOne else Lit(value[0])] + Rest(value[1..], false)
  }

  function Compiled(value: string): Pattern {
    Rest(value, false)
  }

  /** `ec2Wildcard`: the pattern written matches what the value means. */
  method Compile(value: string) returns (pattern: Pattern)
    ensures pattern == Compiled(value)
    ensures forall s :: Matches(pattern, s) <==> Means(value, s)
  {
    hide Means, Matches, Rest;
    pattern := [];
    var escaped := false;
    assert value[0..] == value;
    for i := 0 to |value|
      invariant pattern + Rest(value[i..], escaped) == Compiled(value)
    {
      RestReads(value, i, escaped, pattern);
      if escaped {
        pattern := pattern + [Lit(value[i])];
        escaped := false;
      } else if value[i] == BACKSLASH {
        escaped := true;
      } else if value[i] == '*' {
        pattern := pattern + [AnyRun];
      } else if value[i] == '?' {
        pattern := pattern + [AtMostOne];
      } else {
        pattern := pattern + [Lit(value[i])];
      }
    }
    RestEnds(value, escaped, pattern);
    if escaped {
      pattern := pattern + [Lit(BACKSLASH)];
    }
    assert pattern == Compiled(value);
    forall s ensures Matches(pattern, s) <==> Means(value, s) {
      CompiledMeans(value, s);
    }
  }

  /** What one character adds to a pattern. */
  lemma RestReads(value: string, i: nat, escaped: bool, pattern: Pattern)
    requires i < |value|
    ensures var c, rest := value[i], value[i + 1..];
            pattern + Rest(value[i..], escaped) ==
            if escaped then (pattern + [Lit(c)]) + Rest(rest, false)
            else if c == BACKSLASH then pattern + Rest(rest, true)
            else (pattern + [if c == '*' then AnyRun else if c == '?' then AtMostOne else Lit(c)]) + Rest(rest, false)
  {
    assert value[i..][0] == value[i] && value[i..][1..] == value[i + 1..];
  }

  lemma RestEnds(value: string, escaped: bool, pattern: Pattern)
    ensures pattern + Rest(value[|value|..], escaped) == if escaped then pattern + [Lit(BACKSLASH)] else pattern
  {
    assert value[|value|..] == "";
  }

  lemma MatchesNothing(s: string)
    ensures Matches([], s) <==> s == ""
  {
    assert s == "" ==> Splits([], [], s);
  }

  /** A pattern matches by its first piece taking a prefix and the others the rest. */
  lemma MatchesFirst(p: Piece, rest: Pattern, s: string)
    ensures Matches([p] + rest, s) <==> exists k :: 0 <= k <= |s| && PieceMatches(p, s[..k]) && Matches(rest, s[k..])
  {
    if parts :| Splits([p] + rest, parts, s) {
      var k := |parts[0]|;
      assert s[..k] == parts[0] && s[k..] == Join(parts[1..]);
      assert forall i :: 0 <= i < |rest| ==> ([p] + rest)[i + 1] == rest[i];
      assert Splits(rest, parts[1..], s[k..]);
    }
    if k :| 0 <= k <= |s| && PieceMatches(p, s[..k]) && Matches(rest, s[k..]) {
      var parts :| Splits(rest, parts, s[k..]);
      var all := [s[..k]] + parts;
      assert all[1..] == parts && s == s[..k] + s[k..];
      assert Splits([p] + rest, all, s);
    }
  }

  lemma MatchesLit(c: char, rest: Pattern, s: string)
    ensures Matches([Lit(c)] + rest, s) <==> s != "" && s[0] == c && Matches(rest, s[1..])
  {
    MatchesFirst(Lit(c), rest, s);
    if s != "" && s[0] == c && Matches(rest, s[1..]) {
      assert s[..1] == [c];
    }
  }

  lemma MatchesOptional(rest: Pattern, s: string)
    ensures Matches([AtMostOne] + rest, s) <==> Matches(rest, s) || (s != "" && Matches(rest, s[1..]))
  {
    MatchesFirst(AtMostOne, rest, s);
    assert s[0..] == s && |s[..0]| == 0;
    if s != "" { assert |s[..1]| == 1; }
    if k :| 0 <= k <= |s| && PieceMatches(AtMostOne, s[..k]) && Matches(rest, s[k..]) {
      assert k == 0 || k == 1;
    }
  }

  /** The loop's pattern matches exactly the strings the value means. */
  lemma {:induction false} CompiledMeans(value: string, s: string)
    ensures Matches(Compiled(value), s) <==> Means(value, s)
    decreases |value|
  {
    if value == "" {
      MatchesNothing(s);
    } else if value[0] == BACKSLASH {
      if |value| == 1 {
        assert value[1..] == "" && Compiled(value) == Rest("", true) == [Lit(BACKSLASH)] + [];
        MatchesLit(BACKSLASH, [], s);
        if s != "" { MatchesNothing(s[1..]); }
      } else {
        assert value[1..][0] == value[1] && value[1..][1..] == value[2..];
        assert Compiled(value) == Rest(value[1..], true) == [Lit(value[1])] + Compiled(value[2..]);
        MatchesLit(value[1], Compiled(value[2..]), s);
        if s != "" { CompiledMeans(value[2..], s[1..]); }
      }
    } else {
      var rest := value[1..];
      forall k | 0 <= k <= |s| ensures Matches(Compiled(rest), s[k..]) <==> Means(rest, s[k..]) {
        CompiledMeans(rest, s[k..]);
      }
      assert s[0..] == s;
      if value[0] == '*' {
        MatchesFirst(AnyRun, Compiled(rest), s);
      } else if value[0] == '?' {
        MatchesOptional(Compiled(rest), s);
      } else {
        MatchesLit(value[0], Compiled(rest), s);
      }
    }
  }

  // ----- what values can say -----

  /** A literal as a filter value: each wildcard and backslash escaped. */
  function Quote(t: string): string {
    if t == "" then ""
    else (if t[0] in {BACKSLASH, '*', '?'} then [BACKSLASH, t[0]] else [t[0]]) + Quote(t[1..])
  }

  /** A quoted literal takes itself off the front, whatever wildcards follow. */
  lemma {:induction false} QuoteIsLiteral(t: string, v: string, s: string)
    ensures Means(Quote(t) + v, s) <==> t <= s && Means(v, s[|t|..])
    decreases |t|
  {
    if t == "" {
      assert Quote(t) + v == v && s[0..] == s;
    } else {
      var w := Quote(t[1..]) + v;
      assert Quote(t) + v == (if t[0] in {BACKSLASH, '*', '?'} then [BACKSLASH, t[0]] else [t[0]]) + w;
      if t[0] in {BACKSLASH, '*', '?'} {
        assert (Quote(t) + v)[2..] == w;
      } else {
        assert (Quote(t) + v)[1..] == w;
      }
      if s != "" {
        QuoteIsLiteral(t[1..], v, s[1..]);
        assert t == [t[0]] + t[1..] && s == [s[0]] + s[1..];
        assert t <= s <==> t[0] == s[0] && t[1..] <= s[1..];
        if t <= s { assert s[1..][|t| - 1..] == s[|t|..]; }
      }
    }
  }

  /** Every literal can be asked for exactly, and `*` after it asks for all it begins, slashes and all. */
  lemma LiteralsAndPrefixes(t: string, s: string)
    ensures Means(Quote(t), s) <==> s == t
    ensures Means(Quote(t) + "*", s) <==> t <= s
  {
    assert Quote(t) + "" == Quote(t);
    QuoteIsLiteral(t, "", s);
    QuoteIsLiteral(t, "*", s);
    if t <= s {
      assert s == t + s[|t|..];
      var tail := s[|t|..];
      assert "*"[1..] == "" && tail[|tail|..] == "";
      assert Means("*"[1..], tail[|tail|..]);
    }
  }
}
