/**
 * Byte layout of the packets the server inspects or builds: the handshake
 * request test, the data-packet test, the IPv4 header fields read on the
 * way back to a client, and the handshake reply
 * `[0x00, 0x02, IP(4), RouteCount(1), Route(8)...]`, each route being an
 * address and a netmask.
 */
module Wire {

  import opened Wrappers
  import opened Ipv4

  type Packet = seq<Byte>

  /**
   * A datagram that opens a session: at least two bytes, starting `00 01`.
   * It is never also a data packet, so the order of the two tests does not matter.
   */
  predicate IsHandshakeRequest(p: Packet): (r: bool)
    ensures r ==> !IsDataPacket(p)
  {
    |p| >= 2 && p[0] == 0x00 && p[1] == 0x01
  }

  /** A datagram carrying a tunnelled packet: its first byte is 0x45 (IPv4, 20-byte header). */
  predicate IsDataPacket(p: Packet): (r: bool)
    ensures r ==> |p| > 0 && Version(p) == 4
  {
    |p| > 0 && p[0] == 0x45
  }

  /** The version field of an IP header: the high nibble of the first byte (`packet[0] >> 4`). */
  function Version(p: Packet): (v: nat)
    requires |p| > 0
    ensures v < 16 && p[0] == 16 * v + p[0] % 16
    ensures v == 4 <==> 0x40 <= p[0] < 0x50
  {
    p[0] / 16
  }

  /** A packet long enough for an IPv4 header and marked as version 4: its first byte is 0x40 to 0x4F. */
  predicate CarriesIpv4Header(p: Packet): (r: bool)
    ensures r <==> |p| >= 20 && 0x40 <= p[0] < 0x50
  {
    |p| >= 20 && Version(p) == 4
  }

  /** The destination address of an IPv4 header: octets 16 to 19 (section 3.1 of RFC 791). */
  function Destination(p: Packet): (d: U32)
    requires |p| >= 20
    ensures Octets(d) == p[16..20]
  {
    OctetsOfFromOctets(p[16], p[17], p[18], p[19]);
    FromOctets(p[16], p[17], p[18], p[19])
  }

  /** A route the client is told to send through the tunnel. */
  datatype Route = Route(address: U32, mask: U32)

  /** What a handshake reply tells the client: its address and its routes. */
  datatype NetworkConfig = NetworkConfig(clientIp: U32, routes: seq<Route>)

  /** The one route the server hands out: 0.0.0.0 with mask 0.0.0.0, everything. */
  const DEFAULT_ROUTE := Route(0, 0)

  function EncodeRoutes(routes: seq<Route>): (b: Packet)
    ensures |b| == 8 * |routes|
  {
    if routes == [] then []
    else Octets(routes[0].address) + Octets(routes[0].mask) + EncodeRoutes(routes[1..])
  }

  /** Routes from `8 * n` bytes, or None if the length does not match. */
  function DecodeRoutes(b: Packet, n: nat): (r: Option<seq<Route>>)
    ensures r.Some? ==> |r.value| == n && |b| == 8 * n
    decreases n
  {
    if n == 0 then (if b == [] then Some([]) else None)
    else if |b| < 8 then None
    else
      var rest := DecodeRoutes(b[8..], n - 1);
      if rest.None? then None
      else Some([Route(FromOctets(b[0], b[1], b[2], b[3]), FromOctets(b[4], b[5], b[6], b[7]))] + rest.value)
  }

  lemma {:induction false} DecodeEncodeRoutes(routes: seq<Route>)
    ensures DecodeRoutes(EncodeRoutes(routes), |routes|) == Some(routes)
    decreases |routes|
  {
    if routes != [] {
      var b := EncodeRoutes(routes);
      var r := routes[0];
      assert b[8..] == EncodeRoutes(routes[1..]);
      DecodeEncodeRoutes(routes[1..]);
      assert b[..4] == Octets(r.address) && b[4..8] == Octets(r.mask);
      assert [r] + routes[1..] == routes;
    }
  }

  /** The bytes of a handshake reply; a reply can list at most 255 routes. */
  function EncodeHandshakeResponse(c: NetworkConfig): (b: Packet)
    requires |c.routes| < 0x100
    ensures |b| == 7 + 8 * |c.routes|
    ensures DecodeHandshakeResponse(b) == Some(c)
  {
    var b := [0x00, 0x02] + Octets(c.clientIp) + [|c.routes|] + EncodeRoutes(c.routes);
    assert b[7..] == EncodeRoutes(c.routes);
    DecodeEncodeRoutes(c.routes);
    b
  }

  /** A handshake reply as a client reads it, or None if it is not well formed. */
  function DecodeHandshakeResponse(b: Packet): (r: Option<NetworkConfig>)
    ensures r.Some? ==> |b| == 7 + 8 * |r.value.routes| && b[0] == 0x00 && b[1] == 0x02
    ensures r.Some? ==> Octets(r.value.clientIp) == b[2..6] && b[6] == |r.value.routes|
  {
    if |b| < 7 || b[0] != 0x00 || b[1] != 0x02 then None
    else
      var routes := DecodeRoutes(b[7..], b[6]);
      if routes.None? then None
      else
        OctetsOfFromOctets(b[2], b[3], b[4], b[5]);
        Some(NetworkConfig(FromOctets(b[2], b[3], b[4], b[5]), routes.value))
  }

  /** Eight zero bytes are the default route. */
  lemma DecodeDefaultRoute()
    ensures DecodeRoutes([0, 0, 0, 0, 0, 0, 0, 0], 1) == Some([DEFAULT_ROUTE])
  {
    var z: Packet := [0, 0, 0, 0, 0, 0, 0, 0];
    assert DecodeRoutes(z[8..], 0) == Some([]);
    assert FromOctets(z[0], z[1], z[2], z[3]) == 0 && FromOctets(z[4], z[5], z[6], z[7]) == 0;
    assert [Route(0, 0)] + [] == [Route(0, 0)];
  }

  /**
   * The reply the server sends to a handshake request: `00 02`, the assigned
   * address, a route count of 1 and the default route as address 0.0.0.0
   * and mask 0.0.0.0, fifteen bytes in all. A client reads back exactly the
   * assigned address and the default route.
   */
  function HandshakeResponse(ip: U32): (b: Packet)
    ensures |b| == 15
    ensures DecodeHandshakeResponse(b) == Some(NetworkConfig(ip, [DEFAULT_ROUTE]))
  {
    var b := [0x00, 0x02] + Octets(ip) + [1, 0, 0, 0, 0, 0, 0, 0, 0];
    assert b[7..] == [0, 0, 0, 0, 0, 0, 0, 0];
    DecodeDefaultRoute();
    assert b[2..6] == Octets(ip);
    b
  }

  /** A single route is encoded as its address octets followed by its mask octets. */
  lemma EncodeOneRoute(r: Route)
    ensures EncodeRoutes([r]) == Octets(r.address) + Octets(r.mask)
  {
    var rs := [r];
    assert rs[1..] == [];
  }

  /** A reply listing one route: `00 02`, the address, the count 1, then that route's address and mask. */
  lemma EncodeOneRouteResponse(ip: U32, r: Route)
    ensures EncodeHandshakeResponse(NetworkConfig(ip, [r]))
            == [0x00, 0x02] + Octets(ip) + [1] + Octets(r.address) + Octets(r.mask)
  {
    EncodeOneRoute(r);
  }

  lemma ZeroRouteBytes(head: Packet, z: Packet)
    requires z == [0, 0, 0, 0]
    ensures head + [1, 0, 0, 0, 0, 0, 0, 0, 0] == head + [1] + z + z
  {
  }

  /** The server's reply is the general reply layout for the assigned address and the single default route. */
  lemma HandshakeResponseIsEncoding(ip: U32)
    ensures HandshakeResponse(ip) == EncodeHandshakeResponse(NetworkConfig(ip, [DEFAULT_ROUTE]))
  {
    assert Octets(0) == [0, 0, 0, 0];
    ZeroRouteBytes([0x00, 0x02] + Octets(ip), Octets(0));
    EncodeOneRouteResponse(ip, DEFAULT_ROUTE);
  }

  /** A handshake reply is neither a handshake request nor a data packet. */
  lemma ReplyIsNotARequest(ip: U32)
    ensures !IsHandshakeRequest(HandshakeResponse(ip)) && !IsDataPacket(HandshakeResponse(ip))
  {
    var b := HandshakeResponse(ip);
    assert b[0] == 0x00 && b[1] == 0x02;
  }
}
