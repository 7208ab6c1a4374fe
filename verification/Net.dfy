/** Address blocks: overlap, containment, and the address a launch gets. */
module Net {
  import opened Options

  function Pow2(n: nat): (p: nat)
    ensures p >= 1
  {
    if n == 0 then 1 else 2 * Pow2(n - 1)
  }

  lemma {:induction false} Pow2Adds(a: nat, b: nat)
    ensures Pow2(a + b) == Pow2(a) * Pow2(b)
  {
    if a > 0 {
      Pow2Adds(a - 1, b);
      assert (2 * Pow2(a - 1)) * Pow2(b) == 2 * (Pow2(a - 1) * Pow2(b));
    }
  }

  function RoundedDown(x: nat, m: nat): nat
    requires m > 0
  {
    x - x % m
  }

  /** What `netip.ParsePrefix` answers: a prefix, its address unmasked, or an error. */
  datatype Prefix = Unparsed | Prefix(v6: bool, addr: nat, bits: nat) {
    function Width(): nat
      requires Prefix?
    {
      if v6 then 128 else 32
    }

    predicate Valid() {
      Prefix? ==> bits <= Width() && addr < Pow2(Width())
    }

    /** How many addresses the block holds. */
    function Size(): (n: nat)
      requires Prefix? && Valid()
      ensures n >= 1
    {
      Pow2(Width() - bits)
    }

    function Base(): nat
      requires Prefix? && Valid()
    {
      RoundedDown(addr, Size())
    }

    /** `Prefix.Contains`: one family, one network part. */
    predicate Contains(six: bool, x: nat)
      requires Prefix? && Valid()
    {
      v6 == six && x / Size() == addr / Size()
    }
  }

  /** `Prefix.Overlaps`: the shorter network parts agree. */
  predicate Overlaps(p: Prefix, q: Prefix)
    requires p.Prefix? && p.Valid() && q.Prefix? && q.Valid()
  {
    p.v6 == q.v6 &&
    var wide := if p.bits < q.bits then p else q;
    p.addr / wide.Size() == q.addr / wide.Size()
  }

  lemma NatProduct(a: nat, b: nat)
    ensures a * b >= 0
  {
  }

  /** A remainder of a remainder is below the product. */
  lemma TwoRemainders(a: nat, b: nat, s: nat, t: nat, r: nat)
    requires r < a && t < b
    ensures a * (b * s + t) + r == (a * b) * s + (a * t + r)
    ensures 0 <= a * t + r < a * b
  {
    MulMonotone(a, t, b - 1);
    NatProduct(a, t);
    assert a * (b - 1) == a * b - a;
    assert a * (b * s + t) == a * (b * s) + a * t;
    assert a * (b * s) == (a * b) * s;
  }

  lemma DivDiv(x: nat, a: nat, b: nat)
    requires a > 0 && b > 0
    ensures x / (a * b) == (x / a) / b
  {
    var q, r := x / a, x % a;
    var s, t := q / b, q % b;
    TwoRemainders(a, b, s, t, r);
    Positive(a, b);
    QuotientIs(x, a * b, s, a * t + r);
  }

  lemma Positive(a: nat, b: nat)
    requires a > 0 && b > 0
    ensures a * b > 0
  {
  }

  lemma MulMonotone(a: nat, x: int, y: int)
    requires x <= y
    ensures a * x <= a * y
  {
    assert a * (y - x) >= 0;
  }

  lemma QuotientIs(x: nat, m: nat, q: nat, r: nat)
    requires m > 0 && r < m && x == m * q + r
    ensures x / m == q
  {
    var d := x / m - q;
    assert m * d == r - x % m by {
      assert x == m * (x / m) + x % m;
      assert m * (x / m) - m * q == m * (x / m - q);
    }
    if d > 0 { MulMonotone(m, 1, d); } else if d < 0 { MulMonotone(m, d, -1); }
  }

  /** The wider block's network part is a quotient of the narrower one's. */
  lemma WiderQuotient(p: Prefix, q: Prefix, x: nat)
    requires p.Prefix? && p.Valid() && q.Prefix? && q.Valid() && p.v6 == q.v6 && p.bits <= q.bits
    ensures x / p.Size() == (x / q.Size()) / Pow2(q.bits - p.bits)
  {
    Pow2Adds(p.Width() - q.bits, q.bits - p.bits);
    DivDiv(x, q.Size(), Pow2(q.bits - p.bits));
  }

  /** The overlap check is exact: two blocks overlap when and only when they share an address. */
  lemma OverlapIsShared(p: Prefix, q: Prefix)
    requires p.Prefix? && p.Valid() && q.Prefix? && q.Valid()
    ensures Overlaps(p, q) <==> exists six, x: nat :: p.Contains(six, x) && q.Contains(six, x)
    ensures Overlaps(p, q) <==> Overlaps(q, p)
  {
    var wide, narrow := if p.bits < q.bits then p else q, if p.bits < q.bits then q else p;
    if Overlaps(p, q) {
      assert p.Contains(p.v6, narrow.addr) && q.Contains(p.v6, narrow.addr);
    }
    if six, x: nat :| p.Contains(six, x) && q.Contains(six, x) {
      WiderQuotient(wide, narrow, x);
      WiderQuotient(wide, narrow, narrow.addr);
    }
  }

  /** A block inside another, by its bits and first address, has all its addresses there. */
  lemma InsideIsSubset(outer: Prefix, inner: Prefix, x: nat)
    requires outer.Prefix? && outer.Valid() && inner.Prefix? && inner.Valid()
    requires inner.bits >= outer.bits && outer.Contains(inner.v6, inner.addr)
    requires inner.Contains(inner.v6, x)
    ensures outer.Contains(inner.v6, x)
  {
    WiderQuotient(outer, inner, x);
    WiderQuotient(outer, inner, inner.addr);
  }

  /** `subnetCIDRInRange`. */
  predicate InRange(vpc: Prefix, sub: Prefix)
    requires vpc.Valid() && sub.Valid()
  {
    && vpc.Prefix? && sub.Prefix?
    && 16 <= sub.bits <= 28 && sub.bits >= vpc.bits && vpc.Contains(sub.v6, sub.addr)
  }

  lemma {:induction false} Pow2Strict(a: nat, b: nat)
    requires a < b
    ensures Pow2(a) < Pow2(b)
  {
    if a < b - 1 { Pow2Strict(a, b - 1); }
  }

  /** Every address of one block is an address of the other. */
  ghost predicate Covers(outer: Prefix, inner: Prefix)
    requires outer.Prefix? && outer.Valid() && inner.Prefix? && inner.Valid()
  {
    forall six, x: nat :: inner.Contains(six, x) ==> outer.Contains(six, x)
  }

  /** A subnet's block is in range exactly when EC2 takes its size and the VPC's block covers it. */
  lemma InRangeIsCovered(vpc: Prefix, sub: Prefix)
    requires vpc.Prefix? && vpc.Valid() && sub.Prefix? && sub.Valid()
    ensures InRange(vpc, sub) <==> 16 <= sub.bits <= 28 && Covers(vpc, sub)
  {
    if InRange(vpc, sub) {
      forall six, x: nat | sub.Contains(six, x) ensures vpc.Contains(six, x) {
        InsideIsSubset(vpc, sub, x);
      }
    }
    if Covers(vpc, sub) {
      assert sub.Contains(sub.v6, sub.addr) && vpc.Contains(sub.v6, sub.addr);
      CoveredIsNoWider(vpc, sub);
    }
  }

  lemma CoveredIsNoWider(vpc: Prefix, sub: Prefix)
    requires vpc.Prefix? && vpc.Valid() && sub.Prefix? && sub.Valid() && vpc.v6 == sub.v6 && Covers(vpc, sub)
    ensures sub.bits >= vpc.bits
  {
    hide RoundedDown, Pow2;
    var low, high := sub.Base(), sub.Base() + sub.Size() - 1;
    ContainsIsRange(sub, low);
    ContainsIsRange(sub, high);
    assert sub.Contains(sub.v6, low) && sub.Contains(sub.v6, high);
    ContainsIsRange(vpc, low);
    ContainsIsRange(vpc, high);
    if sub.bits < vpc.bits { Pow2Strict(vpc.Width() - vpc.bits, sub.Width() - sub.bits); }
  }

  // ----- the private address of a launch -----

  /** An address AWS does not reserve: not one of the first four nor the last. */
  predicate Usable(p: Prefix, x: nat)
    requires p.Prefix? && p.Valid()
  {
    p.Base() + 4 <= x < p.Base() + p.Size() - 1
  }

  lemma Splits(x: nat, m: nat)
    requires m > 0
    ensures x == m * (x / m) + x % m && RoundedDown(x, m) == m * (x / m)
  {
  }

  lemma SameQuotient(a: nat, x: nat, m: nat)
    requires m > 0
    ensures x / m == a / m <==> RoundedDown(a, m) <= x < RoundedDown(a, m) + m
  {
    Splits(a, m);
    Splits(x, m);
    if RoundedDown(a, m) <= x < RoundedDown(a, m) + m {
      QuotientIs(x, m, a / m, x - RoundedDown(a, m));
    }
  }

  lemma ContainsIsRange(p: Prefix, x: nat)
    requires p.Prefix? && p.Valid()
    ensures p.Contains(p.v6, x) <==> p.Base() <= x < p.Base() + p.Size()
  {
    hide RoundedDown, Pow2;
    SameQuotient(p.addr, x, p.Size());
  }

  lemma UsableIsContained(p: Prefix, x: nat)
    requires p.Prefix? && p.Valid() && Usable(p, x)
    ensures p.Contains(p.v6, x)
  {
    ContainsIsRange(p, x);
  }

  /** The address `privateIP` answers: the wanted one, or else the lowest, if it is usable and free. */
  ghost predicate IsPrivateIp(p: Prefix, want: Option<nat>, used: set<nat>, r: Option<nat>)
    requires p.Prefix? && p.Valid()
  {
    match r
    case Some(x) =>
      && Usable(p, x) && x !in used && (want.Some? ==> x == want.value)
      && (want.None? ==> forall y :: Usable(p, y) && y !in used ==> x <= y)
    case None =>
      forall y :: Usable(p, y) && y !in used ==> want.Some? && y != want.value
  }

  /** `privateIP`'s walk from `addr` up to the address before `last`. */
  function Scan(addr: nat, last: int, want: Option<nat>, used: set<nat>): (r: Option<nat>)
    ensures r.Some? ==> addr <= r.value < last && r.value !in used && (want.Some? ==> r.value == want.value)
    ensures forall y :: addr <= y < (if r.Some? then r.value else last) ==> y in used || (want.Some? && y != want.value)
    decreases last - addr
  {
    if addr >= last then None
    else if addr !in used && (want.None? || want.value == addr) then Some(addr)
    else Scan(addr + 1, last, want, used)
  }

  /** `privateIP`: None for a block that is not IPv4 or has no such address. */
  function PrivateIp(p: Prefix, want: Option<nat>, used: set<nat>): (r: Option<nat>)
    requires p.Valid()
    ensures p.Prefix? && !p.v6 ==> IsPrivateIp(p, want, used, r)
    ensures p.Unparsed? || p.v6 ==> r.None?
  {
    if p.Unparsed? || p.v6 then None
    else Scan(p.Base() + 4, p.Base() + p.Size() - 1, want, used)
  }

  /** The loop of `privateIP`. */
  method FindPrivateIp(p: Prefix, want: Option<nat>, used: set<nat>) returns (r: Option<nat>)
    requires p.Valid()
    ensures r == PrivateIp(p, want, used)
  {
    if p.Unparsed? || p.v6 {
      return None;
    }
    var addr := p.Base() + 4;
    ghost var last := p.Base() + p.Size() - 1;
    ContainsIsRange(p, addr + 1);
    while p.Contains(false, addr + 1)
      invariant p.Contains(false, addr + 1) <==> addr < last
      invariant PrivateIp(p, want, used) == Scan(addr, last, want, used)
      decreases last - addr
    {
      if addr !in used && (want.None? || want.value == addr) {
        return Some(addr);
      }
      addr := addr + 1;
      ContainsIsRange(p, addr + 1);
    }
    r := None;
  }

  // ----- how many addresses a subnet serves -----

  /** `subnetAvailableIPs`. */
  function SubnetAvailable(p: Prefix): int
  {
    if p.Unparsed? || p.bits < 16 || p.bits > 28 then 251 else Pow2(32 - p.bits) - 5
  }

  /** The numbers from `lo` up to but not including `hi`. */
  ghost function Interval(lo: nat, hi: nat): (r: set<nat>)
    requires lo <= hi
    ensures forall x :: x in r <==> lo <= x < hi
    ensures |r| == hi - lo
    decreases hi - lo
  {
    if lo == hi then {} else Interval(lo, hi - 1) + {hi - 1}
  }

  ghost function UsableSet(p: Prefix): (r: set<nat>)
    requires p.Prefix? && p.Valid() && p.Size() >= 5
    ensures forall x: nat :: x in r <==> Usable(p, x)
    ensures |r| == p.Size() - 5
  {
    Interval(p.Base() + 4, p.Base() + p.Size() - 1)
  }

  lemma {:induction false} Pow2Grows(n: nat, k: nat)
    requires n >= k
    ensures Pow2(n) >= Pow2(k)
  {
    if n > k { Pow2Grows(n - 1, k); }
  }

  /** A subnet EC2 accepts has exactly the advertised number of usable addresses. */
  lemma UsableCount(p: Prefix)
    requires p.Prefix? && p.Valid() && !p.v6 && 16 <= p.bits <= 28
    ensures p.Size() >= 5 && |UsableSet(p)| == SubnetAvailable(p)
  {
    Pow2Grows(32 - p.bits, 4);
    assert Pow2(4) == 16;
  }

  lemma SubsetSize<T>(a: set<T>, b: set<T>)
    requires a <= b
    ensures |a| <= |b|
    ensures |a| == |b| ==> a == b
  {
    assert b == a + (b - a);
  }

  /**
   * A launch that asks for no address is served exactly while fewer usable
   * addresses are held than the subnet advertises.
   */
  lemma ServedUntilFull(p: Prefix, used: set<nat>)
    requires p.Prefix? && p.Valid() && !p.v6 && 16 <= p.bits <= 28
    requires forall x :: x in used ==> Usable(p, x)
    ensures PrivateIp(p, None, used).Some? <==> |used| < SubnetAvailable(p)
  {
    UsableCount(p);
    var r, all := PrivateIp(p, None, used), UsableSet(p);
    forall x | x in used ensures x in all {
    }
    SubsetSize(used, all);
    if r.None? {
      forall x | x in all ensures x in used {
      }
      assert all == used;
    } else {
      assert r.value in all && r.value !in used;
    }
  }
}
