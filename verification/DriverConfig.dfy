/** The packed configuration handed to the driver, and the pointer walk that reads one back (conf/writer.go,
    conf/parser.go, driver/configuration_windows.go). A pointer into the buffer is an offset. */
module DriverConfig {
  import opened Bytes
  import opened Config
  import opened Netip
  import opened Records
  import opened Wrappers
  import Text

  const SIZEOF_INTERFACE: nat := 80
  const SIZEOF_PEER: nat := 136
  const SIZEOF_ALLOWED_IP: nat := 24
  const SIZEOF_SOCKADDR: nat := 28

  const INTERFACE_HAS_PRIVATE_KEY: nat := 2
  const INTERFACE_HAS_LISTEN_PORT: nat := 4
  const PEER_HAS_PUBLIC_KEY: nat := 1
  const PEER_HAS_PRESHARED_KEY: nat := 2
  const PEER_HAS_PERSISTENT_KEEPALIVE: nat := 4
  const PEER_HAS_ENDPOINT: nat := 8

  const AF_INET: nat := 2
  const AF_INET6: nat := 23

  type Buffer = seq<Byte>

  /** flags & bit != 0, for a power of two. */
  predicate Has(flags: nat, bit: nat)
    requires bit > 0
  {
    flags / bit % 2 == 1
  }

  // ---------------------------------------------------------------- the three records

  datatype RawInterface = RawInterface(flags: nat, listenPort: nat, privateKey: Key, publicKey: Key, peerCount: nat) {
    ghost predicate Valid() { flags < POW32 && listenPort < 0x1_0000 && peerCount < POW32 }
  }

  datatype RawPeer = RawPeer(
    flags: nat, publicKey: Key, presharedKey: Key, persistentKeepalive: nat, endpoint: Buffer,
    txBytes: nat, rxBytes: nat, lastHandshake: nat, allowedIPsCount: nat)
  {
    ghost predicate Valid() {
      && flags < POW32 && persistentKeepalive < 0x1_0000 && |endpoint| == SIZEOF_SOCKADDR
      && txBytes < POW32 * POW32 && rxBytes < POW32 * POW32 && lastHandshake < POW32 * POW32
      && allowedIPsCount < POW32
    }
  }

  datatype RawAllowedIP = RawAllowedIP(address: Buffer, addressFamily: nat, cidr: nat, flags: nat) {
    ghost predicate Valid() { |address| == 16 && addressFamily < 0x1_0000 && cidr < 256 && flags < POW32 }
  }

  function InterfacePieces(r: RawInterface): seq<Buffer> {
    [Encode(4, r.flags), Encode(2, r.listenPort), r.privateKey, r.publicKey, Zeros(2), Encode(4, r.peerCount), Zeros(4)]
  }

  function PeerPieces(r: RawPeer): seq<Buffer> {
    [Encode(4, r.flags), Zeros(4), r.publicKey, r.presharedKey, Encode(2, r.persistentKeepalive), Zeros(2), r.endpoint,
     Encode(8, r.txBytes), Encode(8, r.rxBytes), Encode(8, r.lastHandshake), Encode(4, r.allowedIPsCount), Zeros(4)]
  }

  function AllowedIPPieces(r: RawAllowedIP): seq<Buffer> {
    [r.address, Encode(2, r.addressFamily), Encode(1, r.cidr), Zeros(1), Encode(4, r.flags)]
  }

  /** The record at an offset, field by field. */
  function InterfaceAt(b: Buffer): RawInterface
    requires SIZEOF_INTERFACE <= |b|
  {
    RawInterface(Get(b, 0, 4), Get(b, 4, 2), b[6..38], b[38..70], Get(b, 72, 4))
  }

  function PeerAt(b: Buffer, p: nat): RawPeer
    requires p + SIZEOF_PEER <= |b|
  {
    RawPeer(Get(b, p, 4), b[p + 8..p + 40], b[p + 40..p + 72], Get(b, p + 72, 2), b[p + 76..p + 104],
            Get(b, p + 104, 8), Get(b, p + 112, 8), Get(b, p + 120, 8), Get(b, p + 128, 4))
  }

  function AllowedIPAt(b: Buffer, a: nat): RawAllowedIP
    requires a + SIZEOF_ALLOWED_IP <= |b|
  {
    RawAllowedIP(b[a..a + 16], Get(b, a + 16, 2), Get(b, a + 18, 1), Get(b, a + 20, 4))
  }

  lemma {:induction false} NumberPiece(n: nat, v: nat)
    requires v < Limit(n)
    ensures Decode(Encode(n, v)) == v
  {
    hide Limit, Encode, Decode;
    DecodeEncode(n, v);
    SmallMod(v, Limit(n));
  }

  lemma SmallMod(v: nat, m: nat)
    requires v < m
    ensures v % m == v
  {
  }

  lemma {:induction false} InterfaceOffsets(r: RawInterface)
    ensures var ps := InterfacePieces(r);
            && |ps| == 7 && Offset(ps, 1) == 4 && Offset(ps, 2) == 6 && Offset(ps, 3) == 38 && Offset(ps, 4) == 70
            && Offset(ps, 5) == 72 && Offset(ps, 6) == 76 && Offset(ps, 7) == SIZEOF_INTERFACE
  {
    var ps := InterfacePieces(r);
    assert Offset(ps, 0) == 0;
    assert Offset(ps, 1) == 4;
    assert Offset(ps, 2) == 6;
    assert Offset(ps, 3) == 38;
    assert Offset(ps, 4) == 70;
    assert Offset(ps, 5) == 72;
    assert Offset(ps, 6) == 76;
  }

  lemma {:induction false} PeerOffsets(r: RawPeer)
    requires r.Valid()
    ensures var ps := PeerPieces(r);
            && |ps| == 12 && Offset(ps, 2) == 8 && Offset(ps, 3) == 40 && Offset(ps, 4) == 72 && Offset(ps, 6) == 76
            && Offset(ps, 7) == 104 && Offset(ps, 8) == 112 && Offset(ps, 9) == 120 && Offset(ps, 10) == 128
            && Offset(ps, 12) == SIZEOF_PEER
  {
    var ps := PeerPieces(r);
    assert Offset(ps, 0) == 0;
    assert Offset(ps, 1) == 4;
    assert Offset(ps, 2) == 8;
    assert Offset(ps, 3) == 40;
    assert Offset(ps, 4) == 72;
    assert Offset(ps, 5) == 74;
    assert Offset(ps, 6) == 76;
    assert Offset(ps, 7) == 104;
    assert Offset(ps, 8) == 112;
    assert Offset(ps, 9) == 120;
    assert Offset(ps, 10) == 128;
    assert Offset(ps, 11) == 132;
  }

  lemma {:induction false} AllowedIPOffsets(r: RawAllowedIP)
    requires r.Valid()
    ensures var ps := AllowedIPPieces(r);
            && |ps| == 5 && Offset(ps, 1) == 16 && Offset(ps, 2) == 18 && Offset(ps, 3) == 19 && Offset(ps, 4) == 20
            && Offset(ps, 5) == SIZEOF_ALLOWED_IP
  {
    var ps := AllowedIPPieces(r);
    assert Offset(ps, 0) == 0;
    assert Offset(ps, 1) == 16;
    assert Offset(ps, 2) == 18;
    assert Offset(ps, 3) == 19;
    assert Offset(ps, 4) == 20;
  }

  /** A record that was appended is read back, and what follows it begins right after. */
  lemma {:induction false} InterfaceBack(b: Buffer, r: RawInterface, rest: Buffer)
    requires r.Valid() && b == Cat(InterfacePieces(r), rest)
    ensures SIZEOF_INTERFACE <= |b| && InterfaceAt(b) == r && b[SIZEOF_INTERFACE..] == rest
  {
    hide Cat, Offset, Encode, Decode, Limit, Zeros, InterfacePieces;
    Limits();
    InterfaceOffsets(r);
    var ps := InterfacePieces(r);
    assert b[0..] == b;
    Piece(b, 0, ps, rest, 7);
    InterfacePiecesAre(r);
    NumberAt(b, 0, ps, rest, 0, 4, r.flags);
    NumberAt(b, 0, ps, rest, 1, 2, r.listenPort);
    Piece(b, 0, ps, rest, 2);
    Piece(b, 0, ps, rest, 3);
    NumberAt(b, 0, ps, rest, 5, 4, r.peerCount);
    CatNone(rest);
    assert ps[7..] == [];
    OffsetZero(ps);
  }

  lemma InterfacePiecesAre(r: RawInterface)
    ensures var ps := InterfacePieces(r);
            && |ps| == 7 && ps[0] == Encode(4, r.flags) && ps[1] == Encode(2, r.listenPort) && ps[2] == r.privateKey
            && ps[3] == r.publicKey && ps[5] == Encode(4, r.peerCount)
  {
  }

  lemma OffsetZero(ps: seq<Buffer>)
    ensures Offset(ps, 0) == 0
  {
  }

  lemma CatNone(rest: Buffer)
    ensures Cat([], rest) == rest
  {
  }

  /** A number among the pieces of a record. */
  lemma {:induction false} NumberAt(b: Buffer, at: nat, ps: seq<Buffer>, rest: Buffer, k: nat, n: nat, v: nat)
    requires at <= |b| && b[at..] == Cat(ps, rest) && k < |ps| && ps[k] == Encode(n, v) && v < Limit(n)
    ensures at + Offset(ps, k) + n <= |b| && Get(b, at + Offset(ps, k), n) == v
  {
    hide Cat, Offset, Encode, Decode, Limit;
    Piece(b, at, ps, rest, k);
    NumberPiece(n, v);
  }

  lemma PeerPiecesAre(r: RawPeer)
    ensures var ps := PeerPieces(r);
            && |ps| == 12 && ps[0] == Encode(4, r.flags) && ps[2] == r.publicKey && ps[3] == r.presharedKey
            && ps[4] == Encode(2, r.persistentKeepalive) && ps[6] == r.endpoint && ps[7] == Encode(8, r.txBytes)
            && ps[8] == Encode(8, r.rxBytes) && ps[9] == Encode(8, r.lastHandshake)
            && ps[10] == Encode(4, r.allowedIPsCount)
  {
  }

  lemma {:induction false} PeerBack(b: Buffer, p: nat, r: RawPeer, rest: Buffer)
    requires r.Valid() && p <= |b| && b[p..] == Cat(PeerPieces(r), rest)
    ensures p + SIZEOF_PEER <= |b| && PeerAt(b, p) == r && b[p + SIZEOF_PEER..] == rest
  {
    hide Cat, Offset, Encode, Decode, Limit, Zeros, PeerPieces;
    Limits();
    PeerOffsets(r);
    var ps := PeerPieces(r);
    PeerPiecesAre(r);
    OffsetZero(ps);
    Piece(b, p, ps, rest, 12);
    NumberAt(b, p, ps, rest, 0, 4, r.flags);
    Piece(b, p, ps, rest, 2);
    Piece(b, p, ps, rest, 3);
    NumberAt(b, p, ps, rest, 4, 2, r.persistentKeepalive);
    Piece(b, p, ps, rest, 6);
    NumberAt(b, p, ps, rest, 7, 8, r.txBytes);
    NumberAt(b, p, ps, rest, 8, 8, r.rxBytes);
    NumberAt(b, p, ps, rest, 9, 8, r.lastHandshake);
    NumberAt(b, p, ps, rest, 10, 4, r.allowedIPsCount);
    CatNone(rest);
    assert ps[12..] == [];
  }

  lemma AllowedIPPiecesAre(r: RawAllowedIP)
    ensures var ps := AllowedIPPieces(r);
            && |ps| == 5 && ps[0] == r.address && ps[1] == Encode(2, r.addressFamily) && ps[2] == Encode(1, r.cidr)
            && ps[4] == Encode(4, r.flags)
  {
  }

  lemma {:induction false} AllowedIPBack(b: Buffer, a: nat, r: RawAllowedIP, rest: Buffer)
    requires r.Valid() && a <= |b| && b[a..] == Cat(AllowedIPPieces(r), rest)
    ensures a + SIZEOF_ALLOWED_IP <= |b| && AllowedIPAt(b, a) == r && b[a + SIZEOF_ALLOWED_IP..] == rest
  {
    hide Cat, Offset, Encode, Decode, Limit, Zeros, AllowedIPPieces;
    Limits();
    AllowedIPOffsets(r);
    var ps := AllowedIPPieces(r);
    AllowedIPPiecesAre(r);
    OffsetZero(ps);
    Piece(b, a, ps, rest, 5);
    Piece(b, a, ps, rest, 0);
    NumberAt(b, a, ps, rest, 1, 2, r.addressFamily);
    NumberAt(b, a, ps, rest, 2, 1, r.cidr);
    NumberAt(b, a, ps, rest, 4, 4, r.flags);
    CatNone(rest);
    assert ps[5..] == [];
  }

  // ---------------------------------------------------------------- socket addresses

  /** The scope that SetAddrPort makes of a zone. */
  function ScopeOf(zone: string): (s: nat)
    ensures s < POW32
  {
    match Text.ParseUint(zone, POW32)
    case Some(s) => s
    case None => 0
  }

  function SockaddrPieces(a: Addr, port: UInt16): seq<Buffer> {
    match a
    case NoAddr => [Zeros(SIZEOF_SOCKADDR)]
    case V4(bits) => [Encode(2, AF_INET), EncodeBig(2, port), EncodeBig(4, bits), Zeros(20)]
    case V6(bits, zone) =>
      [Encode(2, AF_INET6), EncodeBig(2, port), Zeros(4), EncodeBig(16, bits), Encode(4, ScopeOf(zone))]
  }

  function SetAddrPort(a: Addr, port: UInt16): Buffer { Cat(SockaddrPieces(a, port), []) }

  function SockaddrAddr(s: Buffer): Addr
    requires |s| == SIZEOF_SOCKADDR
  {
    var family := Get(s, 0, 2);
    if family == AF_INET then V4(DecodeBig(s[4..8]))
    else if family == AF_INET6 then
      var scope := Get(s, 24, 4);
      V6(DecodeBig(s[8..24]), if scope != 0 then Text.Decimal(scope) else "")
    else NoAddr
  }

  function SockaddrPort(s: Buffer): (port: UInt16)
    requires |s| == SIZEOF_SOCKADDR
  {
    var family := Get(s, 0, 2);
    if family == AF_INET || family == AF_INET6 then BigPort(s[2..4]) else 0
  }

  function BigPort(s: Buffer): (port: UInt16)
    requires |s| == 2
  {
    assert DecodeBig(s[..1]) == s[0] by { assert s[..1][..0] == []; }
    DecodeBig(s)
  }

  /** What a zone is after the trip through a scope number. */
  function Scoped(a: Addr): Addr {
    if a.V6? then a.(zone := if ScopeOf(a.zone) != 0 then Text.Decimal(ScopeOf(a.zone)) else "") else a
  }

  lemma {:induction false} WideLimit()
    ensures Limit(16) == POW128
  {
    Limits();
    assert Limit(9) == 256 * Limit(8);
    assert Limit(10) == 256 * Limit(9);
    assert Limit(11) == 256 * Limit(10);
    assert Limit(12) == 256 * Limit(11);
    assert Limit(13) == 256 * Limit(12);
    assert Limit(14) == 256 * Limit(13);
    assert Limit(15) == 256 * Limit(14);
  }

  lemma {:induction false} BigPiece(n: nat, v: nat)
    requires v < Limit(n)
    ensures DecodeBig(EncodeBig(n, v)) == v
  {
    hide Limit, EncodeBig, DecodeBig;
    DecodeEncodeBig(n, v);
    SmallMod(v, Limit(n));
  }

  lemma {:induction false} SockaddrSize(a: Addr, port: UInt16)
    ensures |SetAddrPort(a, port)| == SIZEOF_SOCKADDR
  {
    hide Encode, EncodeBig;
    var ps := SockaddrPieces(a, port);
    CatLength(ps, []);
    assert Offset(ps, 0) == 0;
    if a.NoAddr? {
      assert Offset(ps, 1) == 28;
    } else {
      assert Offset(ps, 1) == 2;
      assert Offset(ps, 2) == 4;
      assert Offset(ps, 3) == 8;
      assert a.V6? ==> Offset(ps, 4) == 24;
      assert Offset(ps, |ps|) == 28;
    }
  }

  lemma {:induction false} CatLength(ps: seq<Buffer>, rest: Buffer)
    ensures |Cat(ps, rest)| == Offset(ps, |ps|) + |rest|
  {
    if ps != [] {
      OffsetTail(ps, |ps|);
      CatLength(ps[1..], rest);
    }
  }

  /** Address and port survive; of the zone what its scope number keeps. */
  lemma {:induction false} SockaddrBack(a: Addr, port: UInt16)
    requires a.Valid()
    ensures var s := SetAddrPort(a, port);
            |s| == SIZEOF_SOCKADDR && SockaddrAddr(s) == Scoped(a) && SockaddrPort(s) == port
  {
    hide Encode, Decode, EncodeBig, DecodeBig, Limit, Cat, Zeros, Text.Decimal, Text.ParseUint;
    var ps, s := SockaddrPieces(a, port), SetAddrPort(a, port);
    SockaddrSize(a, port);
    Limits();
    WideLimit();
    assert s[0..] == s;
    assert Offset(ps, 0) == 0;
    assert Offset(ps, 1) == 2;
    assert Offset(ps, 2) == 4;
    NumberAt(s, 0, ps, [], 0, 2, if a.V4? then AF_INET else AF_INET6);
    Piece(s, 0, ps, [], 1);
    BigPiece(2, port);
    Piece(s, 0, ps, [], 2);
    match a
    case V4(bits) =>
      BigPiece(4, bits);
    case V6(bits, zone) =>
      assert Offset(ps, 3) == 8;
      assert Offset(ps, 4) == 24;
      Piece(s, 0, ps, [], 3);
      BigPiece(16, bits);
      NumberAt(s, 0, ps, [], 4, 4, ScopeOf(zone));
  }

  // ---------------------------------------------------------------- building

  function RawAllowedIPOf(p: Prefix): RawAllowedIP {
    match p.addr
    case NoAddr => RawAllowedIP(Zeros(16), 0, p.bits % 256, 0)
    case V4(bits) => RawAllowedIP(EncodeBig(4, bits) + Zeros(12), AF_INET, p.bits % 256, 0)
    case V6(bits, _) => RawAllowedIP(EncodeBig(16, bits), AF_INET6, p.bits % 256, 0)
  }

  /** The address an endpoint stands for, if its host is an address. */
  function HostAddr(net: Netip, e: Endpoint): Option<Addr> {
    if e.IsEmpty() then None else net.parseAddr(e.host)
  }

  function RawPeerOf(net: Netip, p: Peer): RawPeer {
    var addr := HostAddr(net, p.endpoint);
    var flags := PEER_HAS_PUBLIC_KEY + PEER_HAS_PERSISTENT_KEEPALIVE
                 + (if p.presharedKey != ZERO_KEY then PEER_HAS_PRESHARED_KEY else 0)
                 + (if addr.Some? then PEER_HAS_ENDPOINT else 0);
    RawPeer(flags, p.publicKey, p.presharedKey, p.persistentKeepalive,
            if addr.Some? then SetAddrPort(addr.value, p.endpoint.port) else Zeros(SIZEOF_SOCKADDR),
            0, 0, 0, |p.allowedIPs| % POW32)
  }

  function RawInterfaceOf(c: Config): RawInterface {
    RawInterface(INTERFACE_HAS_PRIVATE_KEY + INTERFACE_HAS_LISTEN_PORT, c.interface.listenPort, c.interface.privateKey,
                 ZERO_KEY, |c.peers| % POW32)
  }

  function AllowedIPsBytes(ips: seq<Prefix>, rest: Buffer): Buffer {
    if ips == [] then rest else Cat(AllowedIPPieces(RawAllowedIPOf(ips[0])), AllowedIPsBytes(ips[1..], rest))
  }

  function PeersBytes(net: Netip, ps: seq<Peer>): Buffer {
    if ps == [] then []
    else Cat(PeerPieces(RawPeerOf(net, ps[0])), AllowedIPsBytes(ps[0].allowedIPs, PeersBytes(net, ps[1..])))
  }

  function DriverBytes(net: Netip, c: Config): Buffer {
    Cat(InterfacePieces(RawInterfaceOf(c)), PeersBytes(net, c.peers))
  }

  function PeersSize(ps: seq<Peer>): nat {
    if ps == [] then 0 else SIZEOF_PEER + SIZEOF_ALLOWED_IP * |ps[0].allowedIPs| + PeersSize(ps[1..])
  }

  // ---------------------------------------------------------------- reading

  function FirstPeer(): nat { SIZEOF_INTERFACE }

  function NextPeer(b: Buffer, p: nat): nat
    requires p + SIZEOF_PEER <= |b|
  {
    p + SIZEOF_PEER + PeerAt(b, p).allowedIPsCount * SIZEOF_ALLOWED_IP
  }

  function FirstAllowedIP(p: nat): nat { p + SIZEOF_PEER }

  function NextAllowedIP(a: nat): nat { a + SIZEOF_ALLOWED_IP }

  /** The n allowed IPs from offset a are in the buffer. */
  predicate AllowedIPsFit(b: Buffer, a: nat, n: nat)
    decreases n
  {
    n == 0 || (a + SIZEOF_ALLOWED_IP <= |b| && AllowedIPsFit(b, NextAllowedIP(a), n - 1))
  }

  /** So are the n peers from offset p. */
  predicate PeersFit(b: Buffer, p: nat, n: nat)
    decreases n
  {
    n == 0 || (p + SIZEOF_PEER <= |b| && AllowedIPsFit(b, FirstAllowedIP(p), PeerAt(b, p).allowedIPsCount)
               && PeersFit(b, NextPeer(b, p), n - 1))
  }

  predicate Fits(b: Buffer) {
    SIZEOF_INTERFACE <= |b| && PeersFit(b, FirstPeer(), InterfaceAt(b).peerCount)
  }

  function PrefixOf(r: RawAllowedIP): Prefix
    requires |r.address| == 16
  {
    var ip := if r.addressFamily == AF_INET then V4(DecodeBig(r.address[..4]))
              else if r.addressFamily == AF_INET6 then V6(DecodeBig(r.address[..16]), "")
              else NoAddr;
    PrefixFrom(ip, r.cidr)
  }

  function ReadAllowedIPs(b: Buffer, a: nat, n: nat): seq<Prefix>
    requires AllowedIPsFit(b, a, n)
    decreases n
  {
    if n == 0 then [] else [PrefixOf(AllowedIPAt(b, a))] + ReadAllowedIPs(b, NextAllowedIP(a), n - 1)
  }

  /** netip.Addr.String, with the text it has for no address at all. */
  function HostOf(net: Netip, a: Addr): string { if a.NoAddr? then "invalid IP" else net.addrString(a) }

  datatype Stats = Stats(txBytes: nat, rxBytes: nat, lastHandshake: nat)

  function StatsOf(r: RawPeer): Stats { Stats(r.txBytes, r.rxBytes, r.lastHandshake) }

  function PeerOf(net: Netip, r: RawPeer, ips: seq<Prefix>): Peer
    requires |r.endpoint| == SIZEOF_SOCKADDR
  {
    Peer(if Has(r.flags, PEER_HAS_PUBLIC_KEY) then r.publicKey else ZERO_KEY,
         if Has(r.flags, PEER_HAS_PRESHARED_KEY) then r.presharedKey else ZERO_KEY,
         ips,
         if Has(r.flags, PEER_HAS_ENDPOINT) then Endpoint(HostOf(net, SockaddrAddr(r.endpoint)), SockaddrPort(r.endpoint))
         else Endpoint("", 0),
         if Has(r.flags, PEER_HAS_PERSISTENT_KEEPALIVE) then r.persistentKeepalive % 0x1_0000 else 0,
         NO_SECTION_COMMENTS)
  }

  function ReadPeers(net: Netip, b: Buffer, p: nat, n: nat): seq<(Peer, Stats)>
    requires PeersFit(b, p, n)
    decreases n
  {
    if n == 0 then []
    else
      var r := PeerAt(b, p);
      [(PeerOf(net, r, ReadAllowedIPs(b, FirstAllowedIP(p), r.allowedIPsCount)), StatsOf(r))]
      + ReadPeers(net, b, NextPeer(b, p), n - 1)
  }

  function ReadInterface(r: RawInterface, existing: Config): Interface {
    existing.interface.(
      privateKey := if Has(r.flags, INTERFACE_HAS_PRIVATE_KEY) then r.privateKey else ZERO_KEY,
      listenPort := if Has(r.flags, INTERFACE_HAS_LISTEN_PORT) then r.listenPort % 0x1_0000 else 0,
      comments := NO_SECTION_COMMENTS)
  }

  // ---------------------------------------------------------------- what the walk recovers

  function RecoveredEndpoint(net: Netip, e: Endpoint): Endpoint {
    match HostAddr(net, e)
    case Some(a) => Endpoint(net.addrString(Scoped(a)), e.port)
    case None => Endpoint("", 0)
  }

  function RecoveredPeer(net: Netip, p: Peer): Peer {
    Peer(p.publicKey, p.presharedKey, p.allowedIPs, RecoveredEndpoint(net, p.endpoint), p.persistentKeepalive,
         NO_SECTION_COMMENTS)
  }

  function Recovered(net: Netip, ps: seq<Peer>): seq<(Peer, Stats)> {
    if ps == [] then [] else [(RecoveredPeer(net, ps[0]), Stats(0, 0, 0))] + Recovered(net, ps[1..])
  }

  ghost predicate Packable(p: Peer) {
    |p.allowedIPs| < POW32 && forall i | 0 <= i < |p.allowedIPs| :: p.allowedIPs[i].Valid()
  }

  lemma {:induction false} AllowedIPBackToPrefix(p: Prefix)
    requires p.Valid()
    ensures RawAllowedIPOf(p).Valid() && PrefixOf(RawAllowedIPOf(p)) == p
  {
    hide EncodeBig, DecodeBig, Limit;
    Limits();
    WideLimit();
    match p.addr
    case V4(bits) =>
      BigPiece(4, bits);
      assert (EncodeBig(4, bits) + Zeros(12))[..4] == EncodeBig(4, bits);
    case V6(bits, _) =>
      BigPiece(16, bits);
      assert EncodeBig(16, bits)[..16] == EncodeBig(16, bits);
  }

  lemma {:induction false} AllowedIPsBack(b: Buffer, a: nat, ips: seq<Prefix>, rest: Buffer)
    requires a <= |b| && b[a..] == AllowedIPsBytes(ips, rest)
    requires forall i | 0 <= i < |ips| :: ips[i].Valid()
    ensures AllowedIPsFit(b, a, |ips|) && ReadAllowedIPs(b, a, |ips|) == ips
    ensures var e := a + |ips| * SIZEOF_ALLOWED_IP; e <= |b| && b[e..] == rest
    decreases |ips|
  {
    hide Cat, AllowedIPPieces, RawAllowedIPOf, PrefixOf, AllowedIPAt;
    if ips != [] {
      var r := RawAllowedIPOf(ips[0]);
      AllowedIPBackToPrefix(ips[0]);
      AllowedIPBack(b, a, r, AllowedIPsBytes(ips[1..], rest));
      AllowedIPsBack(b, a + SIZEOF_ALLOWED_IP, ips[1..], rest);
      assert ips == [ips[0]] + ips[1..];
    }
  }

  lemma {:induction false} RawPeerValid(net: Netip, p: Peer)
    requires net.Lawful() && Packable(p)
    ensures RawPeerOf(net, p).Valid() && RawPeerOf(net, p).allowedIPsCount == |p.allowedIPs|
  {
    hide SetAddrPort;
    if HostAddr(net, p.endpoint).Some? { SockaddrSize(HostAddr(net, p.endpoint).value, p.endpoint.port); }
  }

  /** The flags tell what was set. */
  lemma FlagsOf(net: Netip, p: Peer)
    ensures var flags := RawPeerOf(net, p).flags;
            && Has(flags, PEER_HAS_PUBLIC_KEY) && Has(flags, PEER_HAS_PERSISTENT_KEEPALIVE)
            && (Has(flags, PEER_HAS_PRESHARED_KEY) <==> p.presharedKey != ZERO_KEY)
            && (Has(flags, PEER_HAS_ENDPOINT) <==> HostAddr(net, p.endpoint).Some?)
  {
    hide SetAddrPort, HostAddr, Has;
    FlagBits(p.presharedKey != ZERO_KEY, HostAddr(net, p.endpoint).Some?);
  }

  lemma FlagBits(presharedKey: bool, endpoint: bool)
    ensures var flags := 5 + (if presharedKey then 2 else 0) + (if endpoint then 8 else 0);
            Has(flags, 1) && Has(flags, 4) && Has(flags, 2) == presharedKey && Has(flags, 8) == endpoint
  {
    if presharedKey {
      if endpoint { assert Has(15, 1) && Has(15, 2); } else { assert Has(7, 1) && Has(7, 2); }
    } else {
      if endpoint { assert Has(13, 1) && !Has(13, 2); } else { assert Has(5, 1) && !Has(5, 2); }
    }
  }

  lemma {:induction false} PeerOfRaw(net: Netip, p: Peer)
    requires net.Lawful() && Packable(p)
    ensures RawPeerOf(net, p).Valid() && PeerOf(net, RawPeerOf(net, p), p.allowedIPs) == RecoveredPeer(net, p)
    ensures StatsOf(RawPeerOf(net, p)) == Stats(0, 0, 0)
  {
    hide SetAddrPort, SockaddrAddr, SockaddrPort, Scoped, Has, HostAddr, Netip.Lawful;
    RawPeerValid(net, p);
    FlagsOf(net, p);
    HostAddrValid(net, p.endpoint);
    if HostAddr(net, p.endpoint).Some? {
      SockaddrBack(HostAddr(net, p.endpoint).value, p.endpoint.port);
      ScopedValid(HostAddr(net, p.endpoint).value);
    }
  }

  lemma HostAddrValid(net: Netip, e: Endpoint)
    requires net.Lawful()
    ensures HostAddr(net, e).Some? ==> HostAddr(net, e).value.Valid()
  {
  }

  lemma {:induction false} PeersBack(net: Netip, b: Buffer, p: nat, ps: seq<Peer>)
    requires net.Lawful() && forall i | 0 <= i < |ps| :: Packable(ps[i])
    requires p <= |b| && b[p..] == PeersBytes(net, ps)
    ensures PeersFit(b, p, |ps|) && ReadPeers(net, b, p, |ps|) == Recovered(net, ps)
    decreases |ps|
  {
    hide Cat, PeerPieces, RawPeerOf, PeerOf, PeerAt, RecoveredPeer, Netip.Lawful, Packable, AllowedIPsBytes, StatsOf,
         AllowedIPsFit, ReadAllowedIPs;
    if ps != [] {
      var q := ps[0];
      var r := RawPeerOf(net, q);
      PeerOfRaw(net, q);
      RawPeerValid(net, q);
      PeerBack(b, p, r, AllowedIPsBytes(q.allowedIPs, PeersBytes(net, ps[1..])));
      PackableIs(q);
      AllowedIPsBack(b, p + SIZEOF_PEER, q.allowedIPs, PeersBytes(net, ps[1..]));
      PeersBack(net, b, NextPeer(b, p), ps[1..]);
    }
  }

  lemma PackableIs(p: Peer)
    requires Packable(p)
    ensures |p.allowedIPs| < POW32 && forall i | 0 <= i < |p.allowedIPs| :: p.allowedIPs[i].Valid()
  {
  }

  /** The walk stays inside the buffer that was built, and recovers every key, port, keepalive and allowed IP, and the
      endpoints that are addresses. */
  lemma {:induction false} RoundTrip(net: Netip, c: Config, existing: Config)
    requires net.Lawful() && |c.peers| < POW32 && forall i | 0 <= i < |c.peers| :: Packable(c.peers[i])
    ensures var b := DriverBytes(net, c);
            && Fits(b) && InterfaceAt(b).peerCount == |c.peers|
            && ReadPeers(net, b, FirstPeer(), |c.peers|) == Recovered(net, c.peers)
            && ReadInterface(InterfaceAt(b), existing)
            == existing.interface.(privateKey := c.interface.privateKey, listenPort := c.interface.listenPort,
                                   comments := NO_SECTION_COMMENTS)
  {
    hide Cat, InterfacePieces, InterfaceAt, PeersBytes, PeersFit, ReadPeers, Netip.Lawful, Packable;
    var b := DriverBytes(net, c);
    InterfaceBack(b, RawInterfaceOf(c), PeersBytes(net, c.peers));
    PeersBack(net, b, SIZEOF_INTERFACE, c.peers);
  }

  function PeersOf(xs: seq<(Peer, Stats)>): (ps: seq<Peer>)
    ensures |ps| == |xs| && forall i | 0 <= i < |xs| :: ps[i] == xs[i].0
  {
    if xs == [] then [] else [xs[0].0] + PeersOf(xs[1..])
  }

  /** FromDriverConfiguration on a buffer that fits. */
  function ReadConfig(net: Netip, b: Buffer, existing: Config): Config
    requires Fits(b)
  {
    Config(existing.name, ReadInterface(InterfaceAt(b), existing),
           PeersOf(ReadPeers(net, b, FirstPeer(), InterfaceAt(b).peerCount)), [])
  }

  /** There is no zone, or a positive number below 2^32 without leading zeros. */
  ghost predicate ZoneKept(a: Addr) {
    a.V6? && a.zone != "" ==> exists n: nat :: 0 < n < POW32 && a.zone == Text.Decimal(n)
  }

  /** There is no endpoint, or its host is the canonical text of an address whose zone is kept. */
  ghost predicate Kept(net: Netip, e: Endpoint) {
    || e == Endpoint("", 0)
    || (HostAddr(net, e).Some? && net.addrString(HostAddr(net, e).value) == e.host && ZoneKept(HostAddr(net, e).value))
  }

  /** An address keeps its zone on the trip through a scope number exactly then. */
  lemma ScopedKeptIff(a: Addr)
    ensures Scoped(a) == a <==> ZoneKept(a)
  {
    hide Text.Decimal;
    if a.V6? {
      if n: nat :| 0 < n < POW32 && a.zone == Text.Decimal(n) {
        Text.DecimalValue(n);
      }
      if a.zone == Text.Decimal(ScopeOf(a.zone)) && ScopeOf(a.zone) != 0 {
        assert 0 < ScopeOf(a.zone) < POW32;
      }
    }
  }

  /** Whatever comes back with the text of the host is the address of the host. */
  lemma {:induction false} KeptIff(net: Netip, e: Endpoint)
    requires net.Lawful()
    ensures RecoveredEndpoint(net, e) == e <==> Kept(net, e)
  {
    hide Scoped, ZoneKept;
    if HostAddr(net, e).Some? {
      var a := HostAddr(net, e).value;
      ScopedKeptIff(a);
      ScopedValid(a);
      assert net.parseAddr(net.addrString(Scoped(a))) == Some(Scoped(a));
    }
  }

  lemma ScopedValid(a: Addr)
    requires a.Valid()
    ensures Scoped(a).Valid()
  {
    hide Text.Decimal;
  }

  ghost predicate Bare(net: Netip, p: Peer) { p.comments == NO_SECTION_COMMENTS && Kept(net, p.endpoint) }

  lemma {:induction false} RecoveredIff(net: Netip, ps: seq<Peer>)
    ensures |Recovered(net, ps)| == |ps|
    ensures forall i | 0 <= i < |ps| :: Recovered(net, ps)[i].0 == RecoveredPeer(net, ps[i])
  {
    hide RecoveredPeer;
    if ps != [] { RecoveredIff(net, ps[1..]); }
  }

  /** A configuration comes back from the driver as it went in exactly when it has no comments and every endpoint is
      kept. */
  lemma {:induction false} RoundTripIff(net: Netip, c: Config)
    requires net.Lawful() && |c.peers| < POW32 && forall i | 0 <= i < |c.peers| :: Packable(c.peers[i])
    ensures Fits(DriverBytes(net, c))
    ensures ReadConfig(net, DriverBytes(net, c), c) == c <==>
            && c.trailingComments == [] && c.interface.comments == NO_SECTION_COMMENTS
            && forall i | 0 <= i < |c.peers| :: Bare(net, c.peers[i])
  {
    hide DriverBytes, InterfaceAt, ReadPeers, Fits, Kept, RecoveredEndpoint, Recovered, Netip.Lawful, Packable, ReadInterface;
    RoundTrip(net, c, c);
    RecoveredIff(net, c.peers);
    var back := ReadConfig(net, DriverBytes(net, c), c);
    forall i | 0 <= i < |c.peers|
      ensures back.peers[i] == c.peers[i] <==> Bare(net, c.peers[i])
    {
      KeptIff(net, c.peers[i].endpoint);
    }
    if forall i | 0 <= i < |c.peers| :: Bare(net, c.peers[i]) {
      assert back.peers == c.peers;
    }
  }

  // ---------------------------------------------------------------- the program

  lemma {:induction false} AllowedIPsLength(ips: seq<Prefix>, rest: Buffer)
    requires forall i | 0 <= i < |ips| :: ips[i].Valid()
    ensures |AllowedIPsBytes(ips, rest)| == SIZEOF_ALLOWED_IP * |ips| + |rest|
  {
    hide Cat, AllowedIPPieces, RawAllowedIPOf;
    if ips != [] {
      var r := RawAllowedIPOf(ips[0]);
      AllowedIPBackToPrefix(ips[0]);
      CatLength(AllowedIPPieces(r), AllowedIPsBytes(ips[1..], rest));
      AllowedIPOffsets(r);
      AllowedIPsLength(ips[1..], rest);
    }
  }

  lemma {:induction false} PeersLength(net: Netip, ps: seq<Peer>)
    requires net.Lawful() && forall i | 0 <= i < |ps| :: Packable(ps[i])
    ensures |PeersBytes(net, ps)| == PeersSize(ps)
  {
    hide Cat, PeerPieces, RawPeerOf, AllowedIPsBytes, Packable, Netip.Lawful;
    if ps != [] {
      var r := RawPeerOf(net, ps[0]);
      RawPeerValid(net, ps[0]);
      PackableIs(ps[0]);
      CatLength(PeerPieces(r), AllowedIPsBytes(ps[0].allowedIPs, PeersBytes(net, ps[1..])));
      PeerOffsets(r);
      AllowedIPsLength(ps[0].allowedIPs, PeersBytes(net, ps[1..]));
      PeersLength(net, ps[1..]);
    }
  }

  /** What is built is as long as what was allocated for it. */
  lemma {:induction false} BuiltLength(net: Netip, c: Config)
    requires net.Lawful() && forall i | 0 <= i < |c.peers| :: Packable(c.peers[i])
    ensures |DriverBytes(net, c)| == SIZEOF_INTERFACE + PeersSize(c.peers)
  {
    hide Cat, InterfacePieces, PeersBytes, PeersSize, Packable, Netip.Lawful;
    CatLength(InterfacePieces(RawInterfaceOf(c)), PeersBytes(net, c.peers));
    InterfaceOffsets(RawInterfaceOf(c));
    PeersLength(net, c.peers);
  }

  /** A byte slice that grows by appending. `growths` counts how often it had to be moved to make room. */
  class ConfigBuilder {
    var buffer: Option<Buffer>
    var capacity: nat
    var growths: nat

    constructor ()
      ensures buffer == None && growths == 0
    {
      buffer := None;
      capacity := 0;
      growths := 0;
    }

    ghost function Bytes(): Buffer
      reads this
    {
      if buffer.Some? then buffer.value else []
    }

    method Preallocate(size: nat)
      requires size < POW32
      modifies this
      ensures old(buffer).None? ==> buffer == Some([]) && capacity == size
      ensures old(buffer).Some? ==> buffer == old(buffer) && capacity == old(capacity)
      ensures growths == old(growths)
    {
      if buffer.None? {
        buffer, capacity := Some([]), size;
      }
    }

    method Append(newBytes: Buffer)
      modifies this
      ensures buffer == Some(old(Bytes()) + newBytes)
      ensures |Bytes()| <= old(capacity) && old(buffer).Some? ==> growths == old(growths) && capacity == old(capacity)
    {
      var b := if buffer.Some? then buffer.value else [];
      if buffer.None? || |b| + |newBytes| > capacity {
        capacity := |b| + |newBytes|;
        growths := growths + 1;
      }
      buffer := Some(b + newBytes);
    }

    method AppendInterface(r: RawInterface)
      modifies this
      ensures buffer == Some(old(Bytes()) + Cat(InterfacePieces(r), []))
      ensures |Bytes()| <= old(capacity) && old(buffer).Some? ==> growths == old(growths) && capacity == old(capacity)
    {
      Append(Cat(InterfacePieces(r), []));
    }

    method AppendPeer(r: RawPeer)
      modifies this
      ensures buffer == Some(old(Bytes()) + Cat(PeerPieces(r), []))
      ensures |Bytes()| <= old(capacity) && old(buffer).Some? ==> growths == old(growths) && capacity == old(capacity)
    {
      Append(Cat(PeerPieces(r), []));
    }

    method AppendAllowedIP(r: RawAllowedIP)
      modifies this
      ensures buffer == Some(old(Bytes()) + Cat(AllowedIPPieces(r), []))
      ensures |Bytes()| <= old(capacity) && old(buffer).Some? ==> growths == old(growths) && capacity == old(capacity)
    {
      Append(Cat(AllowedIPPieces(r), []));
    }

    method Interface() returns (b: Buffer, size: nat)
      ensures b == Bytes() && size == |b| % POW32
    {
      b := if buffer.Some? then buffer.value else [];
      size := |b| % POW32;
    }
  }

  /** So far and what is still to come: appending a record moves it from one to the other. */
  lemma {:induction false} Appended(all: Buffer, done: Buffer, pieces: seq<Buffer>, rest: Buffer)
    requires all == done + Cat(pieces, rest)
    ensures all == done + Cat(pieces, []) + rest
  {
    CatThen(pieces, rest);
    assert done + Cat(pieces, []) + rest == done + (Cat(pieces, []) + rest);
  }

  method Preallocation(c: Config) returns (size: nat)
    ensures size == SIZEOF_INTERFACE + PeersSize(c.peers)
  {
    size := SIZEOF_INTERFACE + |c.peers| * SIZEOF_PEER;
    assert c.peers[0..] == c.peers;
    for i := 0 to |c.peers|
      invariant size + PeersSize(c.peers[i..]) == SIZEOF_INTERFACE + PeersSize(c.peers) + (|c.peers| - i) * SIZEOF_PEER
    {
      assert c.peers[i..][0] == c.peers[i] && c.peers[i..][1..] == c.peers[i + 1..];
      size := size + |c.peers[i].allowedIPs| * SIZEOF_ALLOWED_IP;
    }
  }

  /** Builds the buffer in one allocation, if its size fits in 32 bits. */
  method ToDriverConfiguration(net: Netip, config: Config) returns (b: Buffer, size: nat, growths: nat)
    requires net.Lawful() && forall i | 0 <= i < |config.peers| :: Packable(config.peers[i])
    ensures b == DriverBytes(net, config) && size == |b| % POW32
    ensures |b| == SIZEOF_INTERFACE + PeersSize(config.peers)
    ensures |b| < POW32 ==> growths == 0
  {
    hide Cat, InterfacePieces, PeerPieces, AllowedIPPieces, RawPeerOf, Netip.Lawful, PeersSize, Packable;
    var preallocation := Preallocation(config);
    BuiltLength(net, config);
    var c := new ConfigBuilder();
    c.Preallocate(preallocation % POW32);
    ghost var all := DriverBytes(net, config);
    assert all == [] + Cat(InterfacePieces(RawInterfaceOf(config)), PeersBytes(net, config.peers));
    Appended(all, [], InterfacePieces(RawInterfaceOf(config)), PeersBytes(net, config.peers));
    c.AppendInterface(RawInterfaceOf(config));
    assert config.peers[0..] == config.peers;
    for i := 0 to |config.peers|
      invariant c.buffer.Some? && all == c.Bytes() + PeersBytes(net, config.peers[i..])
      invariant |all| < POW32 ==> c.growths == 0 && c.capacity == |all|
    {
      var p := config.peers[i];
      assert config.peers[i..][0] == p && config.peers[i..][1..] == config.peers[i + 1..];
      AppendPeerAndIPs(c, net, p, all, PeersBytes(net, config.peers[i + 1..]));
    }
    growths := c.growths;
    b, size := c.Interface();
  }

  method AppendPeerAndIPs(c: ConfigBuilder, net: Netip, p: Peer, ghost all: Buffer, ghost rest: Buffer)
    requires c.buffer.Some?
    requires all == c.Bytes() + Cat(PeerPieces(RawPeerOf(net, p)), AllowedIPsBytes(p.allowedIPs, rest))
    modifies c
    ensures c.buffer.Some? && all == c.Bytes() + rest
    ensures old(c.capacity) >= |all| ==> c.growths == old(c.growths) && c.capacity == old(c.capacity)
  {
    hide Cat, PeerPieces, AllowedIPPieces, RawPeerOf, RawAllowedIPOf;
    Appended(all, c.Bytes(), PeerPieces(RawPeerOf(net, p)), AllowedIPsBytes(p.allowedIPs, rest));
    c.AppendPeer(RawPeerOf(net, p));
    assert p.allowedIPs[0..] == p.allowedIPs;
    for j := 0 to |p.allowedIPs|
      invariant c.buffer.Some? && all == c.Bytes() + AllowedIPsBytes(p.allowedIPs[j..], rest)
      invariant old(c.capacity) >= |all| ==> c.growths == old(c.growths) && c.capacity == old(c.capacity)
    {
      var ip := p.allowedIPs[j];
      assert p.allowedIPs[j..][0] == ip && p.allowedIPs[j..][1..] == p.allowedIPs[j + 1..];
      Appended(all, c.Bytes(), AllowedIPPieces(RawAllowedIPOf(ip)), AllowedIPsBytes(p.allowedIPs[j + 1..], rest));
      c.AppendAllowedIP(RawAllowedIPOf(ip));
    }
  }

  /** The walk over a buffer the driver returned. */
  method FromDriverConfiguration(net: Netip, b: Buffer, existing: Config) returns (conf: Config, stats: seq<Stats>)
    requires Fits(b)
    ensures conf == ReadConfig(net, b, existing)
    ensures |stats| == |conf.peers|
    ensures forall i | 0 <= i < |stats| ::
              stats[i] == ReadPeers(net, b, FirstPeer(), InterfaceAt(b).peerCount)[i].1
  {
    hide InterfaceAt, PeerAt, AllowedIPsFit, ReadAllowedIPs, PeerOf, StatsOf, ReadInterface;
    var interfaze := InterfaceAt(b);
    var p := FirstPeer();
    ghost var all := ReadPeers(net, b, p, interfaze.peerCount);
    var done: seq<(Peer, Stats)> := [];
    for i := 0 to interfaze.peerCount
      invariant PeersFit(b, p, interfaze.peerCount - i)
      invariant all == done + ReadPeers(net, b, p, interfaze.peerCount - i)
    {
      var r := PeerAt(b, p);
      var ips := WalkAllowedIPs(b, p, r.allowedIPsCount);
      assert |r.endpoint| == SIZEOF_SOCKADDR by { EndpointSize(b, p); }
      done := done + [(PeerOf(net, r, ips), StatsOf(r))];
      p := NextPeer(b, p);
    }
    assert all == done;
    var peers: seq<Peer> := [];
    stats := [];
    for i := 0 to |done|
      invariant |peers| == |stats| == i
      invariant forall k | 0 <= k < i :: peers[k] == done[k].0 && stats[k] == done[k].1
    {
      peers := peers + [done[i].0];
      stats := stats + [done[i].1];
    }
    assert peers == PeersOf(done);
    conf := Config(existing.name, ReadInterface(interfaze, existing), peers, []);
  }

  lemma EndpointSize(b: Buffer, p: nat)
    requires p + SIZEOF_PEER <= |b|
    ensures |PeerAt(b, p).endpoint| == SIZEOF_SOCKADDR
  {
  }

  method WalkAllowedIPs(b: Buffer, p: nat, n: nat) returns (ips: seq<Prefix>)
    requires p + SIZEOF_PEER <= |b| && AllowedIPsFit(b, FirstAllowedIP(p), n)
    ensures ips == ReadAllowedIPs(b, FirstAllowedIP(p), n)
  {
    hide AllowedIPAt, PrefixOf;
    var a := FirstAllowedIP(p);
    ghost var all := ReadAllowedIPs(b, a, n);
    ips := [];
    for j := 0 to n
      invariant AllowedIPsFit(b, a, n - j)
      invariant all == ips + ReadAllowedIPs(b, a, n - j)
    {
      assert |AllowedIPAt(b, a).address| == 16 by { AddressSize(b, a); }
      ips := ips + [PrefixOf(AllowedIPAt(b, a))];
      a := NextAllowedIP(a);
    }
  }

  lemma AddressSize(b: Buffer, a: nat)
    requires a + SIZEOF_ALLOWED_IP <= |b|
    ensures |AllowedIPAt(b, a).address| == 16
  {
  }
}
