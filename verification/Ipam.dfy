/**
  The MASQUE address allocator (tunnel/masque/ipam.go).
*/
module Ipam {
  import opened Words

  datatype Addr = Invalid | V4(n: nat) | V6(n: nat)
  datatype Request = Request(addr: Addr, id: nat, version: nat)
  datatype Assigned = Assigned(addr: Addr, id: nat, version: nat, prefixLength: nat)
  datatype Result = Leased(a: Assigned) | Exhausted

  /** An IPv4 prefix: base address and length. */
  datatype Prefix4 = Prefix4(base: nat, bits: nat) {
    predicate Valid() { base < Pow2(32) && bits <= 32 }

    /** Number of bits left for the host. */
    function HostBits(): nat
      requires bits <= 32
    {
      32 - bits
    }

    /** base & mask, the mask clearing the host bits. */
    function Network(): nat
      requires bits <= 32
    {
      Shl(Shr(base, HostBits()), HostBits())
    }

    /** ^mask: the last host number, which is the broadcast one. */
    function MaxHosts(): nat
      requires bits <= 32
    {
      Pow2(HostBits()) - 1
    }

    predicate Contains(a: Addr)
      requires bits <= 32
    {
      a.V4? && Shr(a.n, HostBits()) == Shr(base, HostBits())
    }

    /** (base & mask) | host. */
    function Candidate(host: nat): Addr
      requires bits <= 32
    {
      V4(Or(Network(), host))
    }
  }

  /** What the allocator needs to know of its IPv6 prefix. */
  type Prefix6 = Addr -> bool

  // ----- host arithmetic -----

  /** Host h of the prefix lies in the prefix, h above the network address. */
  lemma {:induction false} HostInPrefix(p: Prefix4, h: nat)
    requires p.bits <= 32 && h <= p.MaxHosts()
    ensures p.Candidate(h) == V4(p.Network() + h) && p.Contains(p.Candidate(h))
  {
    OrBelow(Shr(p.base, p.HostBits()), p.HostBits(), h);
  }

  // ----- specification -----

  predicate Usable(p4: Prefix4, p6: Prefix6, leased: set<Addr>, r: Request)
    requires p4.bits <= 32
  {
    r.addr != Invalid && (p4.Contains(r.addr) || p6(r.addr)) && r.addr !in leased
  }

  function FromRequest(r: Request): Assigned {
    Assigned(r.addr, r.id, r.version, if r.addr.V6? then 128 else 32)
  }

  /** h comes before host on the circle 2..max-1 walked from start. */
  predicate Before(start: nat, h: nat, host: nat) {
    if start <= host then start <= h < host else h >= start || h < host
  }

  /** What Allocate does: the first usable request, else the first free host at or after the
      cursor on the circle of hosts 2..MaxHosts-1, else nothing. */
  ghost predicate AllocateSpec(p4: Prefix4, p6: Prefix6, leased: set<Addr>, next: nat, reqs: seq<Request>,
                               r: Result, leased': set<Addr>, next': nat)
    requires p4.bits <= 30
  {
    var max := p4.MaxHosts();
    && 2 <= next' < max
    && match r
       case Leased(a) =>
         && a.addr !in leased && leased' == leased + {a.addr}
         && ((exists i | 0 <= i < |reqs| ::
               && Usable(p4, p6, leased, reqs[i]) && a == FromRequest(reqs[i]) && next' == next
               && forall j | 0 <= j < i :: !Usable(p4, p6, leased, reqs[j]))
             || (&& (forall j | 0 <= j < |reqs| :: !Usable(p4, p6, leased, reqs[j]))
                 && exists host | 2 <= host < max ::
                      && a == Assigned(p4.Candidate(host), if reqs == [] then 0 else reqs[0].id, 4, 32)
                      && next' == (if host + 1 >= max then 2 else host + 1)
                      && forall h | 2 <= h < max && Before(next, h, host) :: p4.Candidate(h) in leased))
       case Exhausted =>
         && leased' == leased
         && (forall j | 0 <= j < |reqs| :: !Usable(p4, p6, leased, reqs[j]))
         && (forall h | 2 <= h < max :: p4.Candidate(h) in leased)
  }

  class IPAM {
    const ipv4Prefix: Prefix4
    const ipv6Prefix: Prefix6
    var leased: set<Addr>
    var nextIPv4: nat

    /** Prefixes up to /30: host 2 must exist. */
    ghost predicate Valid()
      reads this
    {
      ipv4Prefix.Valid() && ipv4Prefix.bits <= 30 && 2 <= nextIPv4 < ipv4Prefix.MaxHosts()
    }

    constructor (p4: Prefix4, p6: Prefix6)
      requires p4.Valid() && p4.bits <= 30
      ensures Valid() && leased == {} && ipv4Prefix == p4 && ipv6Prefix == p6
    {
      ipv4Prefix, ipv6Prefix, leased, nextIPv4 := p4, p6, {}, 2;
      new;
      SmallPrefixRoom(p4);
    }

    method Allocate(reqs: seq<Request>) returns (r: Result)
      requires Valid()
      modifies this
      ensures Valid()
      ensures AllocateSpec(ipv4Prefix, ipv6Prefix, old(leased), old(nextIPv4), reqs, r, leased, nextIPv4)
    {
      for i := 0 to |reqs|
        invariant leased == old(leased) && nextIPv4 == old(nextIPv4)
        invariant forall j | 0 <= j < i :: !Usable(ipv4Prefix, ipv6Prefix, leased, reqs[j])
      {
        if reqs[i].addr != Invalid && (ipv4Prefix.Contains(reqs[i].addr) || ipv6Prefix(reqs[i].addr)) {
          if reqs[i].addr !in leased {
            leased := leased + {reqs[i].addr};
            assert Usable(ipv4Prefix, ipv6Prefix, old(leased), reqs[i]);
            return Leased(FromRequest(reqs[i]));
          }
        }
      }
      var host := ScanHosts();
      if host == 0 { return Exhausted; }
      leased := leased + {ipv4Prefix.Candidate(host)};
      r := Leased(Assigned(ipv4Prefix.Candidate(host), if |reqs| > 0 then reqs[0].id else 0, 4, 32));
    }

    /** The wrap-around scan; 0 when every host is leased. */
    method ScanHosts() returns (host: nat)
      requires Valid()
      modifies this`nextIPv4
      ensures Valid()
      ensures var max := ipv4Prefix.MaxHosts();
        if host == 0 then forall h | 2 <= h < max :: ipv4Prefix.Candidate(h) in leased
        else
          && 2 <= host < max && ipv4Prefix.Candidate(host) !in leased
          && nextIPv4 == (if host + 1 >= max then 2 else host + 1)
          && forall h | 2 <= h < max && Before(old(nextIPv4), h, host) :: ipv4Prefix.Candidate(h) in leased
    {
      var max := ipv4Prefix.MaxHosts();
      ghost var s := nextIPv4;
      var k := 0;
      while k < max
        invariant 0 <= k <= max && 2 <= nextIPv4 < max
        invariant k < max - s ==> nextIPv4 == s + k && forall h | s <= h < s + k :: ipv4Prefix.Candidate(h) in leased
        invariant max - s <= k <= max - 2 ==>
          && nextIPv4 == 2 + (k - (max - s))
          && forall h | s <= h < max || 2 <= h < nextIPv4 :: ipv4Prefix.Candidate(h) in leased
        invariant k >= max - 2 ==> forall h | 2 <= h < max :: ipv4Prefix.Candidate(h) in leased
      {
        var currHost := nextIPv4;
        nextIPv4 := nextIPv4 + 1;
        if nextIPv4 >= max { nextIPv4 := 2; }
        if ipv4Prefix.Candidate(currHost) !in leased { return currHost; }
        k := k + 1;
      }
      return 0;
    }

    method Release(addr: Addr)
      requires Valid()
      modifies this`leased
      ensures Valid() && leased == old(leased) - {addr}
    {
      leased := leased - {addr};
    }

    method IsAllocated(addr: Addr) returns (b: bool)
      ensures b == (addr in leased)
    {
      b := addr in leased;
    }
  }

  lemma {:induction false} SmallPrefixRoom(p: Prefix4)
    requires p.bits <= 30
    ensures p.MaxHosts() >= 3
  {
    Pow2Monotone(2, 32 - p.bits);
  }

  /** A scanned lease is a fresh in-subnet host that is neither the network address, nor the
      gateway .1, nor broadcast. Requested leases are only known to lie in a prefix. */
  lemma {:induction false} LeaseIsProper(p4: Prefix4, p6: Prefix6, leased: set<Addr>, next: nat, reqs: seq<Request>,
                                         a: Assigned, leased': set<Addr>, next': nat)
    requires p4.bits <= 30
    requires AllocateSpec(p4, p6, leased, next, reqs, Leased(a), leased', next')
    ensures a.addr !in leased && a.addr != Invalid && (p4.Contains(a.addr) || p6(a.addr))
    ensures (forall j | 0 <= j < |reqs| :: !Usable(p4, p6, leased, reqs[j])) ==>
      && p4.Contains(a.addr) && a.addr != V4(p4.Network()) && a.addr != V4(p4.Network() + 1)
      && a.addr != V4(p4.Network() + p4.MaxHosts())
      && a.version == 4 && a.id == (if reqs == [] then 0 else reqs[0].id)
    ensures a.prefixLength == if a.addr.V6? then 128 else 32
    ensures (exists j | 0 <= j < |reqs| :: Usable(p4, p6, leased, reqs[j])) ==>
      exists i | 0 <= i < |reqs| :: Usable(p4, p6, leased, reqs[i]) && reqs[i] == Request(a.addr, a.id, a.version)
  {
    if host :| 2 <= host < p4.MaxHosts() && a.addr == p4.Candidate(host) { HostInPrefix(p4, host); }
  }

  /** Releasing what was leased gives back the pool of before. */
  lemma {:induction false} ReleaseUndoes(p4: Prefix4, p6: Prefix6, leased: set<Addr>, next: nat, reqs: seq<Request>,
                                         a: Assigned, leased': set<Addr>, next': nat)
    requires p4.bits <= 30
    requires AllocateSpec(p4, p6, leased, next, reqs, Leased(a), leased', next')
    ensures a.addr in leased' && leased' - {a.addr} == leased
  {
    LeaseIsProper(p4, p6, leased, next, reqs, a, leased', next');
    assert leased' == leased + {a.addr};
  }

  /** In a pool whose hosts are all leased, a released host is the one that is leased next. */
  lemma {:induction false} ReleasedIsNext(p4: Prefix4, p6: Prefix6, leased: set<Addr>, next: nat, h: nat,
                                          r: Result, leased': set<Addr>, next': nat)
    requires p4.bits <= 30 && 2 <= next < p4.MaxHosts() && 2 <= h < p4.MaxHosts()
    requires forall k | 2 <= k < p4.MaxHosts() :: p4.Candidate(k) in leased
    requires AllocateSpec(p4, p6, leased - {p4.Candidate(h)}, next, [], r, leased', next')
    ensures r.Leased? && r.a.addr == p4.Candidate(h) && leased' == leased
  {
    forall k | 2 <= k < p4.MaxHosts() ensures p4.Candidate(k) == p4.Candidate(h) <==> k == h {
      HostInPrefix(p4, k);
      HostInPrefix(p4, h);
    }
    assert p4.Candidate(h) !in leased - {p4.Candidate(h)};
  }

  /** The allocator reports exhaustion exactly when no request is usable and every host is leased. */
  lemma {:induction false} ExhaustedExactly(p4: Prefix4, p6: Prefix6, leased: set<Addr>, next: nat, reqs: seq<Request>,
                                            r: Result, leased': set<Addr>, next': nat)
    requires p4.bits <= 30 && 2 <= next < p4.MaxHosts()
    requires AllocateSpec(p4, p6, leased, next, reqs, r, leased', next')
    ensures r.Exhausted? <==>
      && (forall j | 0 <= j < |reqs| :: !Usable(p4, p6, leased, reqs[j]))
      && (forall h | 2 <= h < p4.MaxHosts() :: p4.Candidate(h) in leased)
  {
  }

  /** For a /31 the scan offers only host 2, which is no host of the prefix: or-ing it into the
      network gives the network address itself or an address outside. A /32 has nothing to scan. */
  lemma {:induction false} TooLongPrefix(p: Prefix4)
    requires p.Valid() && p.bits >= 31
    ensures p.bits == 31 ==>
      && p.MaxHosts() == 1
      && (p.Candidate(2) == V4(p.Network()) || !p.Contains(p.Candidate(2)))
    ensures p.bits == 32 ==> p.MaxHosts() == 0
  {
    if p.bits == 31 {
      var q := p.base / 2;
      ShiftOne(p.base);
      ShiftOne(2 * q + 2);
      OrTwo(q);
    }
  }

  lemma {:induction false} ShiftOne(x: nat)
    ensures Shr(x, 1) == x / 2 && Shl(x, 1) == 2 * x && Pow2(1) == 2 && Pow2(0) == 1
    ensures Shl(x / 2, 1) == 2 * (x / 2)
  {
    assert Shr(x / 2, 0) == x / 2 && Shl(x, 0) == x && Shl(x / 2, 0) == x / 2;
    assert Pow2(1) == 2 * Pow2(0);
  }

  lemma {:induction false} OrTwo(q: nat)
    ensures Or(2 * q, 2) == (if q % 2 == 1 then 2 * q else 2 * q + 2)
  {
    OrZero(q / 2);
    assert Or(q, 1) == 1 + 2 * Or(q / 2, 0);
    assert Or(2 * q, 2) == 2 * Or(q, 1);
  }
}
