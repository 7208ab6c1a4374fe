/** The public addresses a region hands out: one /24 for Elastic IPs, one for launches. */
module PublicIps {
  import opened Options

  /** An IPv4 address as its first three octets, dots included, and its last. */
  datatype PublicIp = PublicIp(net: string, last: nat)

  const EIP_NET := "203.0.113."
  const AUTO_NET := "192.0.2."

  /** `ec2DerivePublicIP`'s running sum: 31 times it plus each byte, in eight bits. */
  function HashFrom(sum: nat, id: string): (r: nat)
    requires sum < 256
    ensures r < 256
    decreases |id|
  {
    if id == "" then sum else HashFrom((sum * 31 + id[0] as int) % 256, id[1..])
  }

  method DerivePublicIp(net: string, id: string) returns (r: PublicIp)
    ensures r == Derived(net, id)
  {
    var sum: nat := 0;
    assert id[0..] == id;
    for i := 0 to |id|
      invariant sum < 256 && HashFrom(sum, id[i..]) == HashFrom(0, id)
    {
      assert id[i..][1..] == id[i + 1..];
      sum := (sum * 31 + id[i] as int) % 256;
    }
    r := PublicIp(net, sum);
  }

  function Derived(net: string, id: string): (r: PublicIp)
    ensures r.net == net && r.last < 256
  {
    PublicIp(net, HashFrom(0, id))
  }

  function Stepped(want: PublicIp, step: nat): PublicIp {
    PublicIp(want.net, (want.last + step) % 256)
  }

  /** The first address from `want` up, wrapping within its /24, not in `held`. */
  function FreeFrom(want: PublicIp, step: nat, held: set<PublicIp>): (r: Option<PublicIp>)
    requires step <= 256
    decreases 256 - step
  {
    if step == 256 then None
    else if Stepped(want, step) !in held then Some(Stepped(want, step))
    else FreeFrom(want, step + 1, held)
  }

  function FreeIp(want: PublicIp, held: set<PublicIp>): Option<PublicIp> {
    FreeFrom(want, 0, held)
  }

  /** `freeIP`. */
  method FindFreeIp(want: PublicIp, held: set<PublicIp>) returns (r: Option<PublicIp>)
    ensures r == FreeIp(want, held)
  {
    for step := 0 to 256
      invariant FreeIp(want, held) == FreeFrom(want, step, held)
    {
      var ip := Stepped(want, step);
      if ip !in held {
        return Some(ip);
      }
    }
    r := None;
  }

  /** How far up from `last` the address ending in `n` is. */
  function StepTo(last: nat, n: nat): (k: nat)
    requires last < 256 && n < 256
    ensures k < 256 && (last + k) % 256 == n
  {
    if last <= n then n - last else n + 256 - last
  }

  lemma SomeStep(want: PublicIp, n: nat)
    requires want.last < 256 && n < 256
    ensures Stepped(want, StepTo(want.last, n)) == PublicIp(want.net, n)
  {
  }

  lemma {:induction false} FreeFromSpec(want: PublicIp, step: nat, held: set<PublicIp>)
    requires step <= 256
    ensures var r := FreeFrom(want, step, held);
            if r.Some? then
              exists k: nat :: step <= k < 256 && r.value == Stepped(want, k) && r.value !in held
                            && forall j: nat :: step <= j < k ==> Stepped(want, j) in held
            else forall j: nat :: step <= j < 256 ==> Stepped(want, j) in held
    decreases 256 - step
  {
    if step < 256 && Stepped(want, step) in held {
      FreeFromSpec(want, step + 1, held);
    }
  }

  /** An address is found unless all 256 of the /24 are held, and it is never a held one. */
  lemma FreeIpSpec(want: PublicIp, held: set<PublicIp>)
    requires want.last < 256
    ensures var r := FreeIp(want, held);
            && (r.Some? ==> r.value.net == want.net && r.value.last < 256 && r.value !in held)
            && (r.None? <==> forall n: nat :: n < 256 ==> PublicIp(want.net, n) in held)
            && (want !in held ==> r == Some(want))
  {
    FreeFromSpec(want, 0, held);
    assert Stepped(want, 0) == want;
    assert forall k: nat :: Stepped(want, k).net == want.net && Stepped(want, k).last < 256;
    hide FreeFrom, Stepped;
    if FreeIp(want, held).None? {
      forall n: nat | n < 256 ensures PublicIp(want.net, n) in held {
        SomeStep(want, n);
      }
    }
  }
}
