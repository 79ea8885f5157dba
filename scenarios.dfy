/**
 * Concrete runs of the model with the server's default configuration
 * (TUN address 10.0.0.1, netmask 255.255.255.0).
 */
module Scenarios {

  import opened Wrappers
  import opened Ipv4
  import opened Pool
  import opened Sessions
  import opened Wire
  import opened Server

  /** On a fresh 10.0.0.0/24 pool (10.0.0.0, .1 and .255 reserved) first fit picks offset 2: 10.0.0.2. */
  lemma FirstClientGetsDotTwo()
    ensures FirstFreeOffset(0x0A00_0000, 0xFF, {0x0A00_0001, 0x0A00_0000, 0x0A00_00FF}, 1) == Some(2)
    ensures Candidate(0x0A00_0000, 2) == FromOctets(10, 0, 0, 2)
  {
    var taken: set<U32> := {0x0A00_0001, 0x0A00_0000, 0x0A00_00FF};
    assert Candidate(0x0A00_0000, 1) in taken;
    assert Candidate(0x0A00_0000, 2) !in taken;
  }

  /** The default netmask 255.255.255.0 is the contiguous mask with 8 host bits. */
  lemma DefaultMaskIsPrefix()
    ensures PrefixMask(8) == 0xFFFF_FF00
  {
    assert Pow2(8) == 0x100;
  }

  /** The host bits of 10.0.0.1 under a /24 netmask: offset 1. */
  lemma DefaultServerOffset()
    ensures LowBits(0x0A00_0001, 8) == 1
  {
    assert LowBits(0x0A00_0001, 8) == 2 * LowBits(0x0500_0000, 7) + 1;
    assert LowBits(0x0500_0000, 7) == 2 * LowBits(0x0280_0000, 6);
    assert LowBits(0x0280_0000, 6) == 2 * LowBits(0x0140_0000, 5);
    assert LowBits(0x0140_0000, 5) == 2 * LowBits(0x00A0_0000, 4);
    assert LowBits(0x00A0_0000, 4) == 2 * LowBits(0x0050_0000, 3);
    assert LowBits(0x0050_0000, 3) == 2 * LowBits(0x0028_0000, 2);
    assert LowBits(0x0028_0000, 2) == 2 * LowBits(0x0014_0000, 1);
    assert LowBits(0x0014_0000, 1) == 2 * LowBits(0x000A_0000, 0);
  }

  /**
   * For the default 10.0.0.1/24 the network address is 10.0.0.0, and `new`
   * reserves exactly 10.0.0.0, 10.0.0.1 and 10.0.0.255.
   */
  lemma DefaultReservations(ip: U32, mask: U32)
    requires ip == 0x0A00_0001 && mask == 0xFFFF_FF00
    ensures Network(ip, mask) == 0x0A00_0000
    ensures {ip, Network(ip, mask), Broadcast(Network(ip, mask), mask)} == {0x0A00_0000, 0x0A00_0001, 0x0A00_00FF}
  {
    DefaultMaskIsPrefix();
    NetworkOfPrefix(ip, 8);
    DefaultServerOffset();
    BroadcastIsLastCandidate(ip, 8);
  }

  /** The handshake reply for 10.0.0.2, byte by byte. */
  lemma ReplyForDotTwo()
    ensures HandshakeResponse(FromOctets(10, 0, 0, 2)) == [0x00, 0x02, 10, 0, 0, 2, 1, 0, 0, 0, 0, 0, 0, 0, 0]
  {
    OctetsOfFromOctets(10, 0, 0, 2);
  }

  /** An IPv4 header for 10.0.0.2 with no session holding that address is dropped silently. */
  lemma UnownedDestinationDropped(mgr: ClientManager, packet: Packet)
    requires |packet| >= 20 && packet[0] == 0x45
    requires packet[16..20] == [10, 0, 0, 2]
    requires FromOctets(10, 0, 0, 2) !in mgr.byIp
    ensures OnTunPacket(mgr, packet) == Drop
  {
    assert Destination(packet) == FromOctets(10, 0, 0, 2);
  }

  /** A data packet from a peer without a session never reaches the TUN device. */
  lemma UnknownPeerDataDropped(mgr: ClientManager, src: SocketAddr, packet: Packet)
    requires src !in mgr.byAddr
    ensures AdmitDatagram(mgr, src, packet) == Drop
  {
  }

  /** Whatever datagram arrives from `src`, every other peer keeps its session and its address. */
  method OtherSessionsSurvive(mgr: ClientManager, src: SocketAddr, packet: Packet, other: SocketAddr)
      returns (a: Action)
    requires mgr.Valid() && mgr.pool.mask != 0
    requires other != src && other in mgr.byAddr
    modifies mgr, mgr.pool`allocations
    ensures other in mgr.byAddr && mgr.byAddr[other] == old(mgr.byAddr[other])
    ensures mgr.byAddr[other] in mgr.byIp && mgr.byIp[mgr.byAddr[other]] == other
  {
    a := OnDatagram(mgr, src, packet);
  }

  /** On a fresh pool for 10.0.0.1/24 the first allocation hands out 10.0.0.2. */
  method DefaultFirstAllocation() returns (r: Option<U32>)
    ensures r == Some(FromOctets(10, 0, 0, 2))
  {
    var pool := new IpPool(0x0A00_0001, 0xFFFF_FF00);
    DefaultReservations(0x0A00_0001, 0xFFFF_FF00);
    FirstClientGetsDotTwo();
    assert Not(0xFFFF_FF00) == 0xFF;
    r := pool.Allocate();
  }
}
