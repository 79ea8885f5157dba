/**
 * The per-packet decisions of the server's event loop (`main` in
 * server/src/main.rs), without the sockets and the TUN device: each event
 * becomes an action that the loop would carry out.
 */
module Server {

  import opened Wrappers
  import opened Ipv4
  import opened Pool
  import opened Sessions
  import opened Wire

  /** What the loop does with one packet. */
  datatype Action =
    | Drop                                         // ignore the packet
    | WriteTun(packet: Packet)                     // write it to the TUN device
    | SendTo(peer: SocketAddr, packet: Packet)     // forward it to a client over UDP
    | Reply(peer: SocketAddr, packet: Packet)      // answer a handshake over UDP
    | Stop                                         // the TUN device reached end of stream

  /**
   * A datagram that is not a handshake request: it goes to the TUN device
   * exactly when its first byte is 0x45 and its sender has a session.
   */
  function AdmitDatagram(mgr: ClientManager, src: SocketAddr, packet: Packet): (a: Action)
    reads mgr
    ensures a == WriteTun(packet) || a == Drop
    ensures a.WriteTun? <==> IsDataPacket(packet) && src in mgr.byAddr
  {
    if IsDataPacket(packet) && mgr.GetIp(src).Some? then WriteTun(packet) else Drop
  }

  /**
   * A datagram from `src` (the UDP to TUN arm). A handshake request registers
   * the sender and is answered with its address; any other datagram goes
   * through `AdmitDatagram` and changes nothing.
   */
  method OnDatagram(mgr: ClientManager, src: SocketAddr, packet: Packet) returns (a: Action)
    requires mgr.Valid() && mgr.pool.mask != 0
    modifies mgr, mgr.pool`allocations
    ensures mgr.Valid()
    ensures old(mgr.ReservedUnassigned()) ==> mgr.ReservedUnassigned()
    ensures IsHandshakeRequest(packet) ==>
              && (a.Reply? <==> src in mgr.byAddr)
              && (a.Reply? ==> a == Reply(src, HandshakeResponse(mgr.byAddr[src])))
              && (!a.Reply? ==> a == Drop)
              && (src in old(mgr.byAddr) ==> a == Reply(src, HandshakeResponse(old(mgr.byAddr)[src])))
              && (src in old(mgr.byAddr) || !a.Reply? ==>
                    mgr.byIp == old(mgr.byIp) && mgr.byAddr == old(mgr.byAddr)
                    && mgr.pool.allocations == old(mgr.pool.allocations))
    // a new peer's handshake: the pool's first free address, recorded in both maps and taken in the pool
    ensures IsHandshakeRequest(packet) && src !in old(mgr.byAddr) ==>
              var f := FirstFreeOffset(mgr.pool.network, Not(mgr.pool.mask), old(mgr.pool.allocations), 1);
              (a.Reply? <==> f.Some?) &&
              (f.Some? ==>
                 var ip := Candidate(mgr.pool.network, f.value);
                 && a == Reply(src, HandshakeResponse(ip))
                 && ip !in old(mgr.pool.allocations) && ip !in old(mgr.byIp)
                 && mgr.byIp == old(mgr.byIp)[ip := src]
                 && mgr.byAddr == old(mgr.byAddr)[src := ip]
                 && mgr.pool.allocations == old(mgr.pool.allocations) + {ip})
    ensures !IsHandshakeRequest(packet) ==>
              && a == AdmitDatagram(mgr, src, packet)
              && mgr.byIp == old(mgr.byIp) && mgr.byAddr == old(mgr.byAddr)
              && mgr.pool.allocations == old(mgr.pool.allocations)
  {
    if IsHandshakeRequest(packet) {
      var ip := mgr.Register(src);
      if ip.Some? {
        a := Reply(src, HandshakeResponse(ip.value));
      } else {
        a := Drop;
      }
    } else {
      a := AdmitDatagram(mgr, src, packet);
    }
  }

  /**
   * A packet read from the TUN device (the TUN to UDP arm). An empty read ends
   * the loop; an IPv4 packet of at least 20 bytes goes to the peer holding
   * its destination address; everything else, a destination without a
   * session included, is dropped silently. Under the session invariant the
   * peer it goes to is the one that was assigned the destination address.
   */
  function OnTunPacket(mgr: ClientManager, packet: Packet): (a: Action)
    reads mgr
    ensures a == Stop <==> |packet| == 0
    ensures a.SendTo? <==> CarriesIpv4Header(packet) && Destination(packet) in mgr.byIp
    ensures a.SendTo? ==> a.packet == packet && a.peer == mgr.byIp[Destination(packet)]
    ensures a.Drop? || a.Stop? || a.SendTo?
    ensures Inverse(mgr.byIp, mgr.byAddr) && a.SendTo? ==>
              a.peer in mgr.byAddr && mgr.byAddr[a.peer] == Destination(packet)
  {
    if |packet| == 0 then Stop
    else if |packet| >= 20 && Version(packet) == 4 then
      match mgr.GetAddr(Destination(packet))
      case Some(peer) => SendTo(peer, packet)
      case None => Drop
    else Drop
  }
}
