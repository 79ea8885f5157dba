/**
 * The server's session table (`ClientManager` in server/src/main.rs): one
 * map from assigned tunnel address to transport peer and one from peer to
 * address, kept inverse to each other, with addresses drawn from the pool.
 */
module Sessions {

  import opened Wrappers
  import opened Ipv4
  import opened Pool

  /** A UDP port (`u16`). */
  type U16 = x: int | 0 <= x < 0x1_0000

  /**
   * A transport peer (`SocketAddr`): an IPv4 or IPv6 host and a UDP port.
   * The server's socket is bound to 0.0.0.0 (server/src/main.rs:137), so only
   * `V4` peers arrive. `V6` keeps the other variant only abstractly: its
   * address bytes are not limited to sixteen, and it has no flow label or
   * scope id, which Rust's `SocketAddrV6` also compares.
   */
  datatype SocketAddr = V4(ip: U32, port: U16) | V6(segments: seq<Byte>, port: U16)

  /** `byIp[ip] == addr` exactly when `byAddr[addr] == ip`. */
  ghost predicate Inverse(byIp: map<U32, SocketAddr>, byAddr: map<SocketAddr, U32>)
  {
    && (forall ip :: ip in byIp ==> byIp[ip] in byAddr && byAddr[byIp[ip]] == ip)
    && (forall addr :: addr in byAddr ==> byAddr[addr] in byIp && byIp[byAddr[addr]] == addr)
  }

  /** Adding a pair whose address and peer are both new keeps the maps inverse. */
  lemma InverseInsert(byIp: map<U32, SocketAddr>, byAddr: map<SocketAddr, U32>, ip: U32, addr: SocketAddr)
    requires Inverse(byIp, byAddr)
    requires ip !in byIp && addr !in byAddr
    ensures Inverse(byIp[ip := addr], byAddr[addr := ip])
  {
  }

  /** Inverse maps pair addresses and peers one to one, so they have the same number of entries. */
  lemma {:induction false} InverseSameSize(byIp: map<U32, SocketAddr>, byAddr: map<SocketAddr, U32>)
    requires Inverse(byIp, byAddr)
    ensures |byIp| == |byAddr|
    decreases |byIp|
  {
    if byIp != map[] {
      var ip :| ip in byIp;
      var addr := byIp[ip];
      var byIp', byAddr' := byIp - {ip}, byAddr - {addr};
      assert byIp'.Keys == byIp.Keys - {ip};
      assert byAddr'.Keys == byAddr.Keys - {addr};
      assert Inverse(byIp', byAddr');
      InverseSameSize(byIp', byAddr');
    }
  }

  class ClientManager {
    var byIp: map<U32, SocketAddr>
    var byAddr: map<SocketAddr, U32>
    const pool: IpPool

    /** The two maps are inverse and every assigned address is taken in the pool. */
    ghost predicate Valid()
      reads this, pool
    {
      && pool.Valid()
      && Inverse(byIp, byAddr)
      && byIp.Keys <= pool.allocations
    }

    /** The pool still holds its reservations and none of them is assigned to a peer. */
    ghost predicate ReservedUnassigned()
      reads this, pool
    {
      pool.Reserving() && byIp.Keys !! pool.Reserved()
    }

    /** `ClientManager::new`: an empty table over the given pool. */
    constructor (p: IpPool)
      requires p.Valid()
      ensures Valid() && ReservedUnassigned() == p.Reserving()
      ensures pool == p && byIp == map[] && byAddr == map[]
    {
      byIp, byAddr, pool := map[], map[], p;
    }

    /**
     * `ClientManager::register`: the address already assigned to `addr`, or
     * else a fresh one from the pool, recorded in both maps.
     */
    method Register(addr: SocketAddr) returns (r: Option<U32>)
      requires Valid()
      requires pool.mask != 0
      modifies this, pool`allocations
      ensures Valid()
      ensures old(ReservedUnassigned()) ==> ReservedUnassigned()
      // a known peer keeps its address and nothing changes
      ensures addr in old(byAddr) ==>
                && r == Some(old(byAddr)[addr])
                && byIp == old(byIp) && byAddr == old(byAddr)
                && pool.allocations == old(pool.allocations)
      // a new peer gets the pool's first free address, if there is one
      ensures addr !in old(byAddr) ==>
                var f := FirstFreeOffset(pool.network, Not(pool.mask), old(pool.allocations), 1);
                r == if f.Some? then Some(Candidate(pool.network, f.value)) else None
      ensures addr !in old(byAddr) && r.Some? ==>
                && r.value !in old(pool.allocations) && r.value !in old(byIp)
                && byIp == old(byIp)[r.value := addr]
                && byAddr == old(byAddr)[addr := r.value]
                && pool.allocations == old(pool.allocations) + {r.value}
                && |byIp| == |old(byIp)| + 1
      ensures addr !in old(byAddr) && r.None? ==>
                byIp == old(byIp) && byAddr == old(byAddr) && pool.allocations == old(pool.allocations)
      ensures r.Some? ==> addr in byAddr && byAddr[addr] == r.value && byIp[r.value] == addr
    {
      if addr in byAddr {
        return Some(byAddr[addr]);
      }
      var ip := pool.Allocate();
      if ip.Some? {
        InverseInsert(byIp, byAddr, ip.value, addr);
        byIp := byIp[ip.value := addr];
        byAddr := byAddr[addr := ip.value];
        r := Some(ip.value);
      } else {
        r := None;
      }
    }

    /** `ClientManager::get_addr`: the peer an address is assigned to; under the invariant, that peer maps back to it. */
    function GetAddr(ip: U32): (r: Option<SocketAddr>)
      reads this
      ensures r.Some? <==> ip in byIp
      ensures r.Some? ==> r.value == byIp[ip]
      ensures Inverse(byIp, byAddr) && r.Some? ==> r.value in byAddr && byAddr[r.value] == ip
    {
      if ip in byIp then Some(byIp[ip]) else None
    }

    /** `ClientManager::get_ip`: the address assigned to a peer; under the invariant, that address maps back to it. */
    function GetIp(addr: SocketAddr): (r: Option<U32>)
      reads this
      ensures r.Some? <==> addr in byAddr
      ensures r.Some? ==> r.value == byAddr[addr]
      ensures Inverse(byIp, byAddr) && r.Some? ==> r.value in byIp && byIp[r.value] == addr
    {
      if addr in byAddr then Some(byAddr[addr]) else None
    }
  }

  /** Registering the same peer twice: the second call gives the same answer and changes nothing. */
  method RegisterTwice(mgr: ClientManager, addr: SocketAddr) returns (first: Option<U32>, second: Option<U32>)
    requires mgr.Valid() && mgr.pool.mask != 0
    modifies mgr, mgr.pool`allocations
    ensures mgr.Valid()
    ensures first.Some? ==> second == first
    ensures first.None? ==> second.None? && mgr.byIp == old(mgr.byIp) && mgr.byAddr == old(mgr.byAddr)
  {
    first := mgr.Register(addr);
    ghost var byIp, byAddr, taken := mgr.byIp, mgr.byAddr, mgr.pool.allocations;
    second := mgr.Register(addr);
    assert first.Some? ==> mgr.byIp == byIp && mgr.byAddr == byAddr && mgr.pool.allocations == taken;
  }
}
