# ToyVPN server core in Dafny

This project models the packet-forwarding server of the ToyVPN tunnel, found in `server/src/main.rs`.
Clients open a session with a two-byte handshake over UDP. In reply the server gives each client a
tunnel address from its subnet and a default route. From then on the server relays raw IPv4 packets
between its TUN device and the clients:

- a datagram from a known peer is written to the TUN device;
- a packet read from the TUN device is sent to the peer that holds its destination address.

The model has six modules, each mirroring a part of the source, plus `Wrappers` (`wrappers.dfy`) for the `Option` type:

- `Ipv4` (`ipv4.dfy`): `u32` words, the bitwise operations the pool uses, and the octets of an
  address. It works on integers below 2^32. AND and OR are defined bit by bit, and `!a` is
  `u32::MAX - a`. All `u32` arithmetic is therefore explicit, and overflow is a proof
  obligation. For contiguous netmasks (`PrefixMask`) AND and OR are related to plain
  arithmetic on the host bits.
- `Pool` (`ip_pool.dfy`): the class `IpPool`. It has the source's fields. `allocated`, a
  `HashMap<u32, ()>`, becomes the set field `allocations`, since `allocated` is a Dafny keyword.
  Its methods are `new`, `allocate` and `release`. `FirstFreeOffset` is the reference
  definition of the first-fit scan, and `Allocate` is proved against it.
- `Sessions` (`sessions.dfy`): the class `ClientManager` with its two maps and the pool, and its
  methods `new`, `register`, `get_addr` and `get_ip`. It also proves that the two maps stay
  inverse to each other.
- `Wire` (`wire.dfy`): byte layout. It covers the handshake-request test (`00 01`), the data
  test (first byte `0x45`), the version nibble and the destination address of an IPv4 header,
  and the handshake reply `[00, 02, IP(4), RouteCount(1), Route(8)...]`. The reply is modelled
  together with a decoder for it.
- `Server` (`server.dfy`): the two arms of the `tokio::select!` loop in `main`, as single steps.
  Each step returns an `Action`: `Drop`, `WriteTun`, `SendTo`, `Reply`, or `Stop` (an empty TUN
  read ends the loop).
- `Scenarios` (`scenarios.dfy`): concrete cases with the default configuration 10.0.0.1/24.

Three facts about `server/src/main.rs` shape the model:

- `ClientManager` is keyed by the peer's socket address. It never removes an entry and never
  moves an address to another peer.
- A data datagram is admitted by its source socket address alone (`get_ip`).
- Return traffic from the TUN device is routed by the destination address in its IPv4 header
  (`get_addr`). A packet for an address no session holds is dropped on this arm. The UDP-to-TUN
  arm never checks destinations.

## Model

| member | source | states |
|---|---|---|
| `Ipv4.And` | server/src/main.rs:36 | `a & b` on `u32` is never larger than either operand |
| `Ipv4.Or` | server/src/main.rs:48 | `a OR b` on `u32` is never smaller than either operand |
| `Ipv4.NotFlipsEveryBit` | server/src/main.rs:48 | `!a` on `u32` (`Not`, which is `u32::MAX - a`) flips every bit of `a`: over the 32 bits `&` and `OR` work on, `a & !a` is 0 and `a OR !a` is `u32::MAX` |
| `Ipv4.FromOctets` | server/src/main.rs:212 | `Ipv4Addr::new(b0, b1, b2, b3)` as a `u32` is the big-endian value of the four octets; its top octet is `b0` and its low octet `b3` |
| `Ipv4.Octets` | server/src/main.rs:171 | the four octets of an address, most significant first; they rebuild the address |
| `Ipv4.OctetsOfFromOctets` | server/src/main.rs:212 | an address built from four octets (`Ipv4Addr::new`) yields the same four octets back |
| `Ipv4.OctetsInjective` | server/src/main.rs:171 | distinct addresses have distinct octets, so the reply identifies the address |
| `Ipv4.PrefixMask` | server/src/main.rs:20-22 | the contiguous netmask with `h` host bits (255.255.255.0 has 8); its complement `!mask` is 2^h - 1 |
| `Ipv4.AndPrefixMask` | server/src/main.rs:36 | AND with a contiguous netmask clears exactly the host bits of the address |
| `Ipv4.OrHostOffset` | server/src/main.rs:48 | OR of a word with clear host bits and a host offset is their sum |
| `Pool.Network` | server/src/main.rs:36 | `ip & mask` leaves room for all `!mask` host offsets without overflowing `u32` |
| `Pool.Broadcast` | server/src/main.rs:48 | `network OR !mask` is at least the network address and the host part |
| `Pool.Candidate` | server/src/main.rs:56 | `self.network + i`, defined only where the `u32` addition does not overflow; it is at least the network address |
| `Pool.FirstFreeOffset` | server/src/main.rs:54-62 | the scan from offset `i` returns an offset in `i..=last` whose candidate is free, with every earlier candidate taken; it returns None only if every candidate in range is taken |
| `Pool.FirstFitUnique` | server/src/main.rs:54-60 | the first-fit facts determine the offset: any free offset with all earlier ones taken is the one the scan returns |
| `Pool.NetworkOfPrefix` | server/src/main.rs:36 | under a contiguous netmask, `ip & mask` is `ip` with its host bits cleared, so the network address has no host bits |
| `Pool.InSubnet` | server/src/main.rs:54-56 | under a contiguous netmask, an address shares the server's network address exactly when it is `network + i` for an offset `i` in `0..=!mask`: the scan ranges over the whole subnet and nothing outside it |
| `Pool.CandidateIsOr` | server/src/main.rs:54-56 | under a contiguous netmask, the candidate `network + i` equals `network OR i` for every offset up to `!mask` |
| `Pool.BroadcastIsLastCandidate` | server/src/main.rs:48-56 | under a contiguous netmask, the broadcast address `network OR !mask` that `new` reserves is the last candidate the scan tries |
| `Pool.IpPool.Reserved` | server/src/main.rs:45-48 | the reserved set holds the server, network and broadcast addresses, and at most three addresses |
| `Pool.IpPool.constructor` | server/src/main.rs:33-49 | `network = ip & mask`, and `allocated` is exactly {server ip, network, network OR !mask} |
| `Pool.IpPool.Allocate` | server/src/main.rs:52-63 | returns `network + i` for the first-fit offset `i` of `1..=!mask`, which was free before; adds exactly it to `allocated`; returns None with the set unchanged when all are taken; never returns a reserved address while the reservations are in place |
| `Pool.IpPool.Release` | server/src/main.rs:66-71 | removes `ip` from `allocated` unless it is the server address, then nothing changes; no other entry is touched |
| `Sessions.InverseInsert` | server/src/main.rs:94-95 | adding an unassigned address for an unknown peer to both maps keeps them inverse |
| `Sessions.InverseSameSize` | server/src/main.rs:74-77 | inverse maps have the same number of entries: one peer per address and one address per peer |
| `Sessions.ClientManager.constructor` | server/src/main.rs:81-87 | both maps start empty over the given pool, and the invariant holds |
| `Sessions.ClientManager.Register` | server/src/main.rs:89-101 | a known peer gets its address back with maps and pool unchanged; a new peer gets the pool's first free address, recorded in both maps, with tables one entry larger; on exhaustion it returns None with everything unchanged; it keeps the maps inverse, keeps every assigned address taken in the pool, and never assigns a reserved address |
| `Sessions.ClientManager.GetAddr` | server/src/main.rs:103-105 | the peer an address is assigned to, if any; under the invariant that peer's `get_ip` is the address |
| `Sessions.ClientManager.GetIp` | server/src/main.rs:107-109 | the address a peer holds, if any; under the invariant that address's `get_addr` is the peer |
| `Sessions.RegisterTwice` | server/src/main.rs:89-92 | registering the same peer twice: the second call returns the first call's address |
| `Wire.IsHandshakeRequest` | server/src/main.rs:161 | the handshake test (`n >= 2`, bytes `00 01`); a datagram that passes it never also passes the data test, so the order of the two tests does not matter |
| `Wire.IsDataPacket` | server/src/main.rs:185 | the data test (`n > 0`, first byte 0x45); a datagram that passes it is marked IP version 4 |
| `Wire.Version` | server/src/main.rs:211 | the version is the high nibble of the first byte (`packet[0] >> 4`), and it is 4 exactly when the first byte is 0x40 to 0x4F |
| `Wire.CarriesIpv4Header` | server/src/main.rs:211 | the egress test `n >= 20 && packet[0] >> 4 == 4` holds exactly when there are at least 20 bytes and the first byte is 0x40 to 0x4F |
| `Wire.Destination` | server/src/main.rs:212 | the destination address is the one whose octets are bytes 16 to 19 of the header |
| `Wire.DecodeEncodeRoutes` | server/src/main.rs:175-177 | routes encoded as address and mask octets decode back to the same routes |
| `Wire.EncodeHandshakeResponse` | server/src/main.rs:166-177 | a reply of `7 + 8 * routes` bytes that decodes back to the address and routes it encodes |
| `Wire.DecodeHandshakeResponse` | server/src/main.rs:166 | a reply that parses starts `00 02`, carries the address octets at bytes 2 to 5, the route count at byte 6, and has exactly the length the count implies |
| `Wire.DecodeDefaultRoute` | server/src/main.rs:176-177 | eight zero bytes are the route 0.0.0.0 with mask 0.0.0.0 |
| `Wire.HandshakeResponse` | server/src/main.rs:168-177 | the reply is 15 bytes and decodes to the assigned address with the single default route |
| `Wire.EncodeOneRouteResponse` | server/src/main.rs:166-177 | a reply with one route is `00 02`, the address octets, the count 1, then the route's address and mask octets |
| `Wire.HandshakeResponseIsEncoding` | server/src/main.rs:168-177 | the bytes the server pushes are the general reply layout for the assigned address and the single route 0.0.0.0/0 |
| `Wire.ReplyIsNotARequest` | server/src/main.rs:161 | a reply from the server is neither a handshake request nor a data packet |
| `Server.AdmitDatagram` | server/src/main.rs:185-197 | a non-handshake datagram goes to TUN exactly when its first byte is 0x45 and its sender is in `by_addr`; otherwise it is dropped |
| `Server.OnDatagram` | server/src/main.rs:157-198 | a handshake request from a known peer is answered with that peer's 15-byte reply and changes nothing; from a new peer it is answered exactly when the pool has a free address, and then the first-fit address is recorded for the peer in both maps and taken in the pool, with every other session unchanged; on exhaustion it is dropped with no state change; any other datagram is decided by `AdmitDatagram` with no state change |
| `Server.OnTunPacket` | server/src/main.rs:205-228 | an empty read stops the loop; a packet is sent only when it has at least 20 bytes, version 4 and a destination in `by_ip`, and then unchanged to that destination's peer, which under the invariant is the peer holding that address; everything else is dropped |
| `Scenarios.FirstClientGetsDotTwo` | server/src/main.rs:54-59 | with 10.0.0.0, .1 and .255 taken in 10.0.0.0/24, the first-fit scan picks offset 2, the address 10.0.0.2 |
| `Scenarios.DefaultMaskIsPrefix` | server/src/main.rs:20-22 | the default netmask 255.255.255.0 is the contiguous mask with 8 host bits |
| `Scenarios.DefaultReservations` | server/src/main.rs:33-48 | for the default 10.0.0.1/24 the network address is 10.0.0.0, and the reservations `new` makes are exactly 10.0.0.0, 10.0.0.1 and 10.0.0.255 |
| `Scenarios.DefaultFirstAllocation` | server/src/main.rs:33-63 | a pool made by `new` for 10.0.0.1/24 hands out 10.0.0.2 on its first `allocate` |
| `Scenarios.ReplyForDotTwo` | server/src/main.rs:168-177 | the reply for 10.0.0.2 is `00 02 0a 00 00 02 01` followed by eight zero bytes |
| `Scenarios.UnownedDestinationDropped` | server/src/main.rs:211-223 | a TUN packet for 10.0.0.2 with no session owning it is dropped |
| `Scenarios.OtherSessionsSurvive` | server/src/main.rs:89-101 | after any datagram from one peer, every other peer still holds the same address, and that address still maps back to it |
| `Scenarios.UnknownPeerDataDropped` | server/src/main.rs:187-197 | a datagram from a peer without a session is never written to TUN |

## Left out

- The `tokio::select!` loop, the UDP socket, the TUN device and the `Arc<Mutex<...>>` locking (server/src/main.rs:112-234) are asynchronous I/O and concurrency. Only the decision each arm makes for one packet is modelled, as an `Action`.
- Send and write errors are only logged and swallowed, and are not modelled. Receive errors on either arm are logged, the loop goes on, and they produce no action either.
- The 4096-byte receive buffers truncate longer datagrams before the decision is made. The model starts from the bytes that were read.
- Command-line parsing with `clap`, and parsing of the TUN address and netmask strings (server/src/main.rs:9-23, 114-117), are library calls. The pool is built from the parsed `u32` values.
- All `println!`/`eprintln!` logging is left out, including the "No IPs available" message on exhaustion (modelled as `Drop`).
- client/rust/src/client.rs and client/rust/src/lib.rs are not part of this model. They are asynchronous task plumbing, atomic counters, timers, foreign-function scaffolding and callbacks, with no decision logic beyond the I/O.
- Session expiry, the idle sweep, roaming and per-session byte counters are absent from server/src/main.rs, so they are not modelled. The client's `total_tx`/`total_rx` counters belong to the client, which is not part of this model.
- Pool.IpPool.Allocate: requires a non-zero mask. `range_size = !mask + 1` overflows `u32` for the mask 0.0.0.0: a panic in a debug build, and in a release build a wrap to 0 that makes `allocate` return `None`. Neither outcome is modelled.
- Sessions.ClientManager.Register: requires a non-zero mask for every call, because its new-peer path calls `Allocate`. That includes a known peer, whose path never reaches `allocate` in the source.
- Sessions.RegisterTwice: requires a non-zero mask, for the same reason as `Register`.
- Server.OnDatagram: requires a non-zero mask for every datagram, because a handshake calls `Register`. That includes datagrams that are not handshakes and never reach the pool in the source.
- Pool.IpPool.Release: as in the source, only the server address is protected. Releasing the network or broadcast address removes that reservation. The guarantee that `Allocate` never returns a reserved address then no longer applies, so it is stated only while `Reserving()` holds. `ClientManager` never calls `release`, and the source marks it dead code.
- Sessions.ClientManager.constructor: the promise that no reserved address is assigned depends on the pool passed in still holding its reservations. That is the case for a pool fresh from `IpPool::new`, as in `main`.
- Bitwise AND and OR are related to `+` and `-` only for contiguous netmasks (`PrefixMask`). For any other mask, which the source also accepts, only their order bounds are proved.
