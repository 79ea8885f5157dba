/**
 * The server's IPv4 address allocator (`IpPool` in server/src/main.rs):
 * one subnet, the set of addresses already taken, first-fit allocation of
 * host offsets and release of single addresses.
 */
module Pool {

  import opened Wrappers
  import opened Ipv4

  /** The network address of `ip` under `mask` (`ip & mask`). */
  function Network(ip: U32, mask: U32): (n: U32)
    ensures n + Not(mask) <= U32_MAX
  {
    And(ip, mask)
  }

  /** The directed-broadcast address of `network` under `mask` (`network | !mask`). */
  function Broadcast(network: U32, mask: U32): (b: U32)
    ensures network <= b && Not(mask) <= b
  {
    Or(network, Not(mask))
  }

  /** The candidate at host offset `i` (`self.network + i`, a `u32` addition that must not overflow). */
  function Candidate(network: U32, i: nat): (c: U32)
    requires network + i <= U32_MAX
    ensures network <= c
  {
    network + i
  }

  /**
   * The first host offset in `i..=last` whose candidate address `network + k`
   * is not taken, if any: the reference definition the allocation loop follows.
   */
  function FirstFreeOffset(network: U32, last: U32, taken: set<U32>, i: nat): (r: Option<nat>)
    requires 1 <= i
    requires network + last <= U32_MAX
    ensures r.Some? ==> i <= r.value <= last && Candidate(network, r.value) !in taken
    ensures r.Some? ==> forall k :: i <= k < r.value ==> Candidate(network, k) in taken
    ensures r.None? ==> forall k :: i <= k <= last ==> Candidate(network, k) in taken
    decreases last - i
  {
    if i > last then None
    else if Candidate(network, i) !in taken then Some(i)
    else FirstFreeOffset(network, last, taken, i + 1)
  }

  /** Those first-fit facts pin the offset down: an offset with them is the one found. */
  lemma FirstFitUnique(network: U32, last: U32, taken: set<U32>, k: nat)
    requires network + last <= U32_MAX
    requires 1 <= k <= last && Candidate(network, k) !in taken
    requires forall j :: 1 <= j < k ==> Candidate(network, j) in taken
    ensures FirstFreeOffset(network, last, taken, 1) == Some(k)
  {
  }

  /** Under a contiguous netmask, the network address is `ip` with its host bits cleared. */
  lemma NetworkOfPrefix(ip: U32, h: nat)
    requires h <= 32
    ensures Network(ip, PrefixMask(h)) == ip - LowBits(ip, h)
    ensures LowBits(Network(ip, PrefixMask(h)), h) == 0
  {
    AndPrefixMask(ip, h);
    LowBitsCleared(ip, h);
  }

  /**
   * Under a contiguous netmask, every offset `network + 0..=!mask` above a
   * network address `network` (host bits clear) lies in that network's subnet.
   */
  lemma OffsetIsSubnetMember(network: U32, h: nat, a: U32)
    requires h <= 32 && LowBits(network, h) == 0
    requires network <= a <= network + Pow2(h) - 1
    ensures Network(a, PrefixMask(h)) == network
  {
    LowBitsOfOffset(network, a, h);
    NetworkOfPrefix(a, h);
  }

  /**
   * Under a contiguous netmask with `h` host bits, an address lies in the
   * server's subnet (it has the same network address) exactly when it is one
   * of the offsets `network + 0` to `network + !mask` the pool ranges over.
   */
  lemma InSubnet(ip: U32, h: nat, a: U32)
    requires h <= 32
    ensures var mask := PrefixMask(h);
            Network(a, mask) == Network(ip, mask) <==>
            Network(ip, mask) <= a <= Network(ip, mask) + Not(mask)
  {
    if Network(a, PrefixMask(h)) == Network(ip, PrefixMask(h)) {
      NetworkOfPrefix(a, h);
    }
    if Network(ip, PrefixMask(h)) <= a <= Network(ip, PrefixMask(h)) + Not(PrefixMask(h)) {
      NetworkOfPrefix(ip, h);
      OffsetIsSubnetMember(Network(ip, PrefixMask(h)), h, a);
    }
  }

  /** Under a contiguous netmask, the candidate `network + i` is `network | i`. */
  lemma CandidateIsOr(ip: U32, h: nat, i: nat)
    requires h <= 32
    requires i <= Not(PrefixMask(h))
    ensures var network := Network(ip, PrefixMask(h));
            Candidate(network, i) == Or(network, i)
  {
    NetworkOfPrefix(ip, h);
    OrHostOffset(Network(ip, PrefixMask(h)), i, h);
  }

  /**
   * Under a contiguous netmask, the last offset the scan tries, `!mask`, is
   * the broadcast address `network | !mask` that `new` reserves.
   */
  lemma BroadcastIsLastCandidate(ip: U32, h: nat)
    requires h <= 32
    ensures var mask := PrefixMask(h); var network := Network(ip, mask);
            Broadcast(network, mask) == Candidate(network, Not(mask))
  {
    CandidateIsOr(ip, h, Not(PrefixMask(h)));
  }

  class IpPool {
    var network: U32
    var mask: U32
    var serverIp: U32
    /** The taken addresses (the source's `allocated: HashMap<u32, ()>`, used as a set). */
    var allocations: set<U32>

    /** The pool's fixed shape: the server's own network, and the server address stays taken. */
    ghost predicate Valid()
      reads this
    {
      && network == Network(serverIp, mask)
      && serverIp in allocations
    }

    /** The three addresses `new` reserves: the server's, the network's and the broadcast address. */
    function Reserved(): (rs: set<U32>)
      reads this
      ensures serverIp in rs && network in rs && Broadcast(network, mask) in rs
      ensures |rs| <= 3
    {
      {serverIp, network, Broadcast(network, mask)}
    }

    /** All three reservations are still in place. */
    ghost predicate Reserving()
      reads this
    {
      Reserved() <= allocations
    }

    /** `IpPool::new`: the server's subnet, with the three reservations taken. */
    constructor (ip: U32, m: U32)
      ensures Valid() && Reserving()
      ensures serverIp == ip && mask == m && network == And(ip, m)
      ensures allocations == {ip, And(ip, m), Or(And(ip, m), Not(m))}
    {
      var net := Network(ip, m);
      var bcast := Broadcast(net, m);
      network, mask, serverIp := net, m, ip;
      new;
      allocations := {};
      allocations := allocations + {ip};
      allocations := allocations + {net};
      allocations := allocations + {bcast};
      assert Reserved() == allocations;
    }

    /**
     * `IpPool::allocate`: scan host offsets 1 to `!mask` in order, take the
     * first candidate `network + i` that is free and hand it out.
     * `range_size = !mask + 1` overflows `u32` when the mask is 0.0.0.0, so
     * the mask must not be zero.
     */
    method Allocate() returns (r: Option<U32>)
      requires Valid()
      requires mask != 0
      modifies this`allocations
      ensures Valid()
      ensures var f := FirstFreeOffset(network, Not(mask), old(allocations), 1);
              r == if f.Some? then Some(Candidate(network, f.value)) else None
      ensures r.Some? ==> r.value !in old(allocations) && allocations == old(allocations) + {r.value}
      ensures r.None? ==> allocations == old(allocations)
      ensures old(Reserving()) ==> Reserving()
      ensures old(Reserving()) && r.Some? ==> r.value !in Reserved()
    {
      var rangeSize := Not(mask) + 1;
      for i := 1 to rangeSize
        invariant allocations == old(allocations)
        invariant FirstFreeOffset(network, Not(mask), allocations, 1) == FirstFreeOffset(network, Not(mask), allocations, i)
      {
        var candidate := Candidate(network, i);
        if candidate !in allocations {
          assert FirstFreeOffset(network, Not(mask), allocations, i) == Some(i);
          allocations := allocations + {candidate};
          return Some(candidate);
        }
        assert FirstFreeOffset(network, Not(mask), allocations, i) == FirstFreeOffset(network, Not(mask), allocations, i + 1);
      }
      assert FirstFreeOffset(network, Not(mask), allocations, rangeSize) == None;
      return None;
    }

    /** `IpPool::release`: give an address back, unless it is the server's own. */
    method Release(ip: U32)
      requires Valid()
      modifies this`allocations
      ensures Valid()
      ensures allocations == if ip == serverIp then old(allocations) else old(allocations) - {ip}
      ensures ip !in Reserved() && old(Reserving()) ==> Reserving()
    {
      if ip != serverIp {
        allocations := allocations - {ip};
      }
    }
  }
}
