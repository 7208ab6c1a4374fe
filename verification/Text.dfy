/** Byte strings as Go sorts and spells them: a `char` stands for one byte. */
module Text {
  import opened Sorting

  /** Bytewise lexicographic order, the order of Go's `<` on strings. */
  predicate Leq(a: string, b: string) {
    a == "" || (b != "" && (a[0] < b[0] || (a[0] == b[0] && Leq(a[1..], b[1..]))))
  }

  predicate Less(a: string, b: string) {
    a != b && Leq(a, b)
  }

  lemma {:induction false} LeqTotal(a: string, b: string)
    ensures Leq(a, b) || Leq(b, a)
  {
    if a != "" && b != "" && a[0] == b[0] {
      LeqTotal(a[1..], b[1..]);
    }
  }

  lemma {:induction false} LeqAntisymmetric(a: string, b: string)
    requires Leq(a, b) && Leq(b, a)
    ensures a == b
  {
    if a != "" && b != "" {
      LeqAntisymmetric(a[1..], b[1..]);
      assert a == [a[0]] + a[1..] && b == [b[0]] + b[1..];
    }
  }

  lemma {:induction false} LeqTransitive(a: string, b: string, c: string)
    requires Leq(a, b) && Leq(b, c)
    ensures Leq(a, c)
  {
    if a != "" && a[0] == b[0] && b[0] == c[0] {
      LeqTransitive(a[1..], b[1..], c[1..]);
    }
  }

  lemma LeqIsOrder()
    ensures TotalPreorder(Leq)
    ensures forall x, y :: Leq(x, y) && Leq(y, x) ==> x == y
  {
    forall x: string, y: string ensures Leq(x, y) || Leq(y, x) {
      LeqTotal(x, y);
    }
    forall x: string, y: string, z: string | Leq(x, y) && Leq(y, z) ensures Leq(x, z) {
      LeqTransitive(x, y, z);
    }
    forall x, y | Leq(x, y) && Leq(y, x) ensures x == y {
      LeqAntisymmetric(x, y);
    }
  }

  /** `sort.Strings`. */
  function Sort(s: seq<string>): (r: seq<string>)
    ensures multiset(r) == multiset(s)
    ensures |r| == |s|
  {
    SortBy(Leq, s)
  }

  /** Sorting sees only the multiset: the reason a form may sort its members. */
  lemma SortSeesMultiset(a: seq<string>, b: seq<string>)
    ensures Sort(a) == Sort(b) <==> multiset(a) == multiset(b)
  {
    LeqIsOrder();
    SortAgrees(Leq, a, b);
  }

  // ----- sorted, each once -----

  /** `slices.Compact`. */
  function Compact(ns: seq<string>): (r: seq<string>)
    ensures forall n :: n in r <==> n in ns
    ensures ns != [] ==> r != [] && r[0] == ns[0]
  {
    if |ns| < 2 then ns
    else if ns[0] == ns[1] then Compact(ns[1..])
    else [ns[0]] + Compact(ns[1..])
  }

  ghost predicate Ascends(ns: seq<string>) {
    forall i, j :: 0 <= i < j < |ns| ==> Less(ns[i], ns[j])
  }

  lemma {:induction false} CompactAscends(ns: seq<string>)
    requires SortedBy(Leq, ns)
    ensures Ascends(Compact(ns))
  {
    if |ns| >= 2 {
      CompactAscends(ns[1..]);
      if ns[0] != ns[1] {
        var rest := Compact(ns[1..]);
        forall i | 0 <= i < |rest| ensures Less(ns[0], rest[i]) {
          LeqIsOrder();
          assert rest[i] in ns[1..];
          var j :| 1 <= j < |ns| && ns[j] == rest[i];
          assert Leq(ns[0], ns[1]) && (j == 1 || Leq(ns[1], ns[j]));
        }
      }
    }
  }

  lemma Inhabited(ns: seq<string>)
    ensures ns != [] ==> exists n :: n in ns
  {
    if ns != [] { assert ns[0] in ns; }
  }

  lemma {:induction false} AscendingUnique(a: seq<string>, b: seq<string>)
    requires Ascends(a) && Ascends(b) && forall n :: n in a <==> n in b
    ensures a == b
  {
    LeqIsOrder();
    if a != [] && b != [] {
      assert a[0] in b && b[0] in a;
      assert Leq(a[0], b[0]) && Leq(b[0], a[0]);
      forall n ensures n in a[1..] <==> n in b[1..] {
        assert n in a <==> n == a[0] || n in a[1..];
        assert n in b <==> n == b[0] || n in b[1..];
      }
      AscendingUnique(a[1..], b[1..]);
      assert a == [a[0]] + a[1..] && b == [b[0]] + b[1..];
    } else {
      Inhabited(a);
      Inhabited(b);
    }
  }

  /** Sorted and compacted: every name once, in byte order. */
  lemma SortedOnce(ns: seq<string>)
    ensures var r := Compact(Sort(ns)); Ascends(r) && forall n :: n in r <==> n in ns
  {
    LeqIsOrder();
    SortSorts(Leq, ns);
    CompactAscends(Sort(ns));
    forall n ensures n in Sort(ns) <==> n in ns {
      assert n in multiset(Sort(ns)) <==> n in multiset(ns);
    }
  }

  // ----- decimal numerals -----

  function Digit(d: nat): (c: char)
    requires d < 10
    ensures '0' <= c <= '9'
  {
    ('0' as int + d) as char
  }

  predicate IsDigit(c: char) {
    '0' <= c <= '9'
  }

  predicate AllDigits(s: string) {
    forall i :: 0 <= i < |s| ==> IsDigit(s[i])
  }

  /** `strconv.Itoa` of a natural number: canonical decimal digits. */
  function Itoa(n: nat): (s: string)
    ensures s != "" && AllDigits(s)
    ensures s[0] == '0' ==> n == 0
  {
    if n < 10 then [Digit(n)] else Itoa(n / 10) + [Digit(n % 10)]
  }

  function DigitValue(c: char): (d: nat)
    requires IsDigit(c)
    ensures d < 10
  {
    c as int - '0' as int
  }

  /** The number a run of decimal digits denotes, "" being 0. */
  function Atoi(s: string): nat
    requires AllDigits(s)
  {
    if s == "" then 0 else 10 * Atoi(s[..|s| - 1]) + DigitValue(s[|s| - 1])
  }

  function Pow10(n: nat): (p: nat)
    ensures p >= 1
  {
    if n == 0 then 1 else 10 * Pow10(n - 1)
  }

  lemma TenTimes(d: nat, p: nat)
    ensures 10 * (d * p) == d * (10 * p)
  {
  }

  lemma {:induction false} AtoiItoa(n: nat)
    ensures Atoi(Itoa(n)) == n
  {
    var s := Itoa(n);
    if n >= 10 {
      AtoiItoa(n / 10);
      assert s[..|s| - 1] == Itoa(n / 10);
    } else {
      assert s[..|s| - 1] == "";
    }
  }

  // ----- length-prefixed parts -----

  /** How `form` writes one part: its length, a colon, its bytes. */
  function Part(s: string): (r: string)
    ensures r != "" && IsDigit(r[0])
  {
    Itoa(|s|) + ":" + s
  }

  /** Digits up to a colon are read back whatever follows the colon. */
  lemma {:induction false} NumberCancels(m: nat, x: string, n: nat, y: string)
    requires Itoa(m) + ":" + x == Itoa(n) + ":" + y
    ensures m == n && x == y
  {
    var l, r := Itoa(m) + ":" + x, Itoa(n) + ":" + y;
    var i, j := |Itoa(m)|, |Itoa(n)|;
    assert l[i] == ':' && r[j] == ':';
    assert forall k :: 0 <= k < i ==> l[k] == Itoa(m)[k];
    assert forall k :: 0 <= k < j ==> r[k] == Itoa(n)[k];
    assert i == j;
    assert Itoa(m) == l[..i] && Itoa(n) == r[..j];
    AtoiItoa(m);
    AtoiItoa(n);
    assert x == l[i + 1..] && y == r[j + 1..];
  }

  /** A part is read back whatever follows it, so parts need no quoting. */
  lemma {:induction false} PartCancels(s: string, x: string, t: string, y: string)
    requires Part(s) + x == Part(t) + y
    ensures s == t && x == y
  {
    assert Part(s) + x == Itoa(|s|) + ":" + (s + x);
    assert Part(t) + y == Itoa(|t|) + ":" + (t + y);
    NumberCancels(|s|, s + x, |t|, t + y);
    assert s == (s + x)[..|s|] && t == (t + y)[..|t|];
    assert x == (s + x)[|s|..] && y == (t + y)[|t|..];
  }
}
