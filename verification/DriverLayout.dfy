/** The driver's configuration buffer as bytes: what stands at which offset of a buffer that was built, and what the walk
    makes of the bytes of any buffer. */
module DriverLayout {
  import opened Bytes
  import opened Config
  import opened DriverConfig
  import opened Netip
  import opened Records
  import opened Wrappers
  import Pow
  import Text

  // ---------------------------------------------------------------- numbers

  /** Byte k of a little-endian number. */
  lemma {:induction false} EncodeAt(n: nat, v: nat, k: nat)
    requires k < n
    ensures Encode(n, v)[k] == v / Limit(k) % 256
  {
    if k > 0 {
      EncodeAt(n - 1, v / 256, k - 1);
      DivDiv(v, 256, Limit(k - 1));
    }
  }

  /** And of a big-endian one. */
  lemma {:induction false} EncodeBigAt(n: nat, v: nat, k: nat)
    requires k < n
    ensures EncodeBig(n, v)[k] == v / Limit(n - 1 - k) % 256
  {
    if k < n - 1 {
      EncodeBigAt(n - 1, v / 256, k);
      DivDiv(v, 256, Limit(n - 2 - k));
    }
  }

  lemma DivDiv(v: nat, a: nat, b: nat)
    requires a > 0 && b > 0
    ensures v / a / b == v / (a * b)
  {
    var q, r := v / a, v % a;
    var s, t := q / b, q % b;
    Quotient(v, a);
    Quotient(q, b);
    Distribute(a, b * s, t);
    Regroup(a, b, s);
    Remainder(a, b, t, r);
    Pow.DivModUnique(v, a * b, s, a * t + r);
  }

  lemma Quotient(v: nat, a: nat)
    requires a > 0
    ensures v == a * (v / a) + v % a && v % a < a
  {
  }

  lemma Distribute(a: nat, x: nat, y: nat)
    ensures a * (x + y) == a * x + a * y
  {
  }

  lemma Regroup(a: nat, b: nat, s: nat)
    ensures a * (b * s) == (a * b) * s
  {
  }

  lemma Remainder(a: nat, b: nat, t: nat, r: nat)
    requires t < b && r < a
    ensures a * t + r < a * b
  {
    assert a * (t + 1) <= a * b;
  }

  // ---------------------------------------------------------------- a socket address

  /** The numbers of Windows for the two families. */
  const INET: nat := 2
  const INET6: nat := 23

  function Word(s: Buffer): nat
    requires |s| == 2
  {
    s[0] as int + 256 * s[1] as int
  }

  function BigWord(s: Buffer): nat
    requires |s| == 2
  {
    256 * s[0] as int + s[1] as int
  }

  /** The bytes of a number, most significant first. */
  ghost predicate IsBig(s: Buffer, v: nat) {
    forall k | 0 <= k < |s| :: s[k] == v / Limit(|s| - 1 - k) % 256
  }

  /** A zone that is a number below 2^32 is its scope; any other has none. */
  ghost predicate IsScope(zone: string, scope: nat) {
    if zone != "" && Text.AllDigits(zone) && Text.DigitsValue(zone) < 0x1_0000_0000 then scope == Text.DigitsValue(zone)
    else scope == 0
  }

  /** The 28 bytes of a socket address: family, port in network order, address in network order, scope. */
  ghost predicate IsSockaddr(s: Buffer, a: Addr, port: UInt16) {
    && |s| == 28
    && match a
       case NoAddr => s == Zeros(28)
       case V4(bits) =>
         Word(s[0..2]) == INET && BigWord(s[2..4]) == port && IsBig(s[4..8], bits) && s[8..28] == Zeros(20)
       case V6(bits, zone) =>
         && Word(s[0..2]) == INET6 && BigWord(s[2..4]) == port && s[4..8] == Zeros(4) && IsBig(s[8..24], bits)
         && IsScope(zone, Get(s, 24, 4))
  }

  lemma {:induction false} TwoBytes(v: nat)
    requires v < 0x1_0000
    ensures Word(Encode(2, v)) == v && BigWord(EncodeBig(2, v)) == v
  {
    hide Encode, EncodeBig;
    Limits();
    EncodeAt(2, v, 0);
    EncodeAt(2, v, 1);
    EncodeBigAt(2, v, 0);
    EncodeBigAt(2, v, 1);
    assert Limit(0) == 1;
  }

  lemma {:induction false} BigBytes(n: nat, v: nat)
    ensures IsBig(EncodeBig(n, v), v)
  {
    hide EncodeBig, Limit;
    forall k | 0 <= k < n
      ensures EncodeBig(n, v)[k] == v / Limit(n - 1 - k) % 256
    {
      EncodeBigAt(n, v, k);
    }
  }

  lemma CatCons(p: Buffer, ps: seq<Buffer>, rest: Buffer)
    ensures Cat([p] + ps, rest) == p + Cat(ps, rest)
  {
    assert ([p] + ps)[1..] == ps;
  }

  lemma {:induction false} V4Pieces(family: Buffer, p: Buffer, x: Buffer, z: Buffer)
    requires |family| == 2 && |p| == 2 && |x| == 4 && |z| == 20
    ensures var s := Cat([family, p, x, z], []);
            |s| == 28 && s[0..2] == family && s[2..4] == p && s[4..8] == x && s[8..28] == z
  {
    hide Cat;
    CatCons(family, [p, x, z], []);
    CatCons(p, [x, z], []);
    CatCons(x, [z], []);
    CatCons(z, [], []);
    CatNone([]);
    assert [family] + [p, x, z] == [family, p, x, z] && [p] + [x, z] == [p, x, z] && [x] + [z] == [x, z];
    assert [z] + [] == [z];
  }

  lemma {:induction false} V6Pieces(family: Buffer, p: Buffer, z: Buffer, x: Buffer, scope: Buffer)
    requires |family| == 2 && |p| == 2 && |z| == 4 && |x| == 16 && |scope| == 4
    ensures var s := Cat([family, p, z, x, scope], []);
            |s| == 28 && s[0..2] == family && s[2..4] == p && s[4..8] == z && s[8..24] == x && s[24..28] == scope
  {
    hide Cat;
    CatCons(family, [p, z, x, scope], []);
    CatCons(p, [z, x, scope], []);
    CatCons(z, [x, scope], []);
    CatCons(x, [scope], []);
    CatCons(scope, [], []);
    CatNone([]);
    assert [family] + [p, z, x, scope] == [family, p, z, x, scope] && [p] + [z, x, scope] == [p, z, x, scope];
    assert [z] + [x, scope] == [z, x, scope] && [x] + [scope] == [x, scope] && [scope] + [] == [scope];
  }

  lemma ScopeIs(zone: string)
    ensures IsScope(zone, ScopeOf(zone))
  {
  }

  lemma {:induction false} ScopeBack(scope: nat)
    requires scope < POW32
    ensures Decode(Encode(4, scope)) == scope
  {
    hide Encode, Decode, Limit;
    Limits();
    NumberPiece(4, scope);
  }

  lemma {:induction false} SockaddrIs(a: Addr, port: UInt16)
    ensures IsSockaddr(SetAddrPort(a, port), a, port)
  {
    hide Encode, EncodeBig, Limit, Zeros, IsScope, Cat, Word, BigWord, IsBig, Decode;
    TwoBytes(port);
    TwoBytes(2);
    TwoBytes(23);
    match a
    case NoAddr =>
      CatCons(Zeros(28), [], []);
      CatNone([]);
      assert [Zeros(28)] + [] == [Zeros(28)];
    case V4(bits) =>
      BigBytes(4, bits);
      V4Pieces(Encode(2, 2), EncodeBig(2, port), EncodeBig(4, bits), Zeros(20));
    case V6(bits, zone) =>
      BigBytes(16, bits);
      V6Pieces(Encode(2, 23), EncodeBig(2, port), Zeros(4), EncodeBig(16, bits), Encode(4, ScopeOf(zone)));
      ScopeIs(zone);
      ScopeBack(ScopeOf(zone));
  }

  // ---------------------------------------------------------------- a buffer that was built

  /** An allowed IP is 24 bytes: address, family, length, no flags. */
  ghost predicate AllowedIPLaid(b: Buffer, a: nat, p: Prefix) {
    && a + 24 <= |b|
    && (match p.addr
        case NoAddr => false
        case V4(bits) => IsBig(b[a..a + 4], bits) && b[a + 4..a + 16] == Zeros(12) && Get(b, a + 16, 2) == INET
        case V6(bits, _) => IsBig(b[a..a + 16], bits) && Get(b, a + 16, 2) == INET6)
    && Get(b, a + 18, 1) == p.bits && Get(b, a + 20, 4) == 0
  }

  /** A peer is 136 bytes: flags that say what is set, keys, keepalive, endpoint, no statistics, and the number of allowed
      IPs, which follow. */
  ghost predicate PeerLaid(net: Netip, b: Buffer, o: nat, p: Peer) {
    var host := if p.endpoint.host == "" then None else net.parseAddr(p.endpoint.host);
    && o + 136 + 24 * |p.allowedIPs| <= |b|
    && Get(b, o, 4) == 0x1 + 0x4 + (if p.presharedKey == Zeros(32) then 0 else 0x2) + (if host.None? then 0 else 0x8)
    && b[o + 8..o + 40] == p.publicKey && b[o + 40..o + 72] == p.presharedKey
    && Get(b, o + 72, 2) == p.persistentKeepalive
    && (match host
        case None => b[o + 76..o + 104] == Zeros(28)
        case Some(a) => IsSockaddr(b[o + 76..o + 104], a, p.endpoint.port))
    && Get(b, o + 104, 8) == 0 && Get(b, o + 112, 8) == 0 && Get(b, o + 120, 8) == 0
    && Get(b, o + 128, 4) == |p.allowedIPs|
    && forall j: nat | j < |p.allowedIPs| :: AllowedIPLaid(b, o + 136 + 24 * j, p.allowedIPs[j])
  }

  /** Where the i-th peer begins. */
  function PeerStart(peers: seq<Peer>, i: nat): nat
    requires i <= |peers|
  {
    if i == 0 then 80 else PeerStart(peers, i - 1) + 136 + 24 * |peers[i - 1].allowedIPs|
  }

  lemma {:induction false} OneAllowedIPLaid(b: Buffer, a: nat, p: Prefix, rest: Buffer)
    requires p.Valid() && a <= |b| && b[a..] == Cat(AllowedIPPieces(RawAllowedIPOf(p)), rest)
    ensures AllowedIPLaid(b, a, p) && b[a + 24..] == rest
  {
    hide EncodeBig, Get, Cat, AllowedIPPieces, IsBig, Zeros;
    var r := RawAllowedIPOf(p);
    AllowedIPBackToPrefix(p);
    AllowedIPBack(b, a, r, rest);
    assert AllowedIPAt(b, a) == r;
    match p.addr
    case V4(bits) =>
      BigBytes(4, bits);
      var x := b[a..a + 16];
      assert x == EncodeBig(4, bits) + Zeros(12);
      assert b[a..a + 4] == x[..4] && b[a + 4..a + 16] == x[4..];
    case V6(bits, _) =>
      BigBytes(16, bits);
  }

  lemma {:induction false} AllowedIPsLaid(b: Buffer, a: nat, ips: seq<Prefix>, rest: Buffer, j: nat)
    requires (forall i | 0 <= i < |ips| :: ips[i].Valid()) && a <= |b| && b[a..] == AllowedIPsBytes(ips, rest)
    requires j < |ips|
    ensures AllowedIPLaid(b, a + 24 * j, ips[j])
    decreases j
  {
    hide AllowedIPLaid, AllowedIPPieces, Cat, RawAllowedIPOf;
    OneAllowedIPLaid(b, a, ips[0], AllowedIPsBytes(ips[1..], rest));
    if j > 0 {
      OneLaidFits(b, a, ips[0]);
      AllowedIPsLaid(b, a + 24, ips[1..], rest, j - 1);
    }
  }

  lemma OneLaidFits(b: Buffer, a: nat, p: Prefix)
    requires AllowedIPLaid(b, a, p)
    ensures a + 24 <= |b|
  {
  }

  lemma {:induction false} OnePeerLaid(net: Netip, b: Buffer, o: nat, p: Peer, rest: Buffer)
    requires net.Lawful() && Packable(p) && o <= |b|
    requires b[o..] == Cat(PeerPieces(RawPeerOf(net, p)), AllowedIPsBytes(p.allowedIPs, rest))
    ensures PeerLaid(net, b, o, p)
    ensures o + 136 + 24 * |p.allowedIPs| <= |b| && b[o + 136 + 24 * |p.allowedIPs|..] == rest
  {
    hide Cat, PeerPieces, AllowedIPsBytes, Get, AllowedIPLaid, IsSockaddr, SetAddrPort, Netip.Lawful, Zeros;
    var r := RawPeerOf(net, p);
    RawPeerValid(net, p);
    PackableIs(p);
    PeerBack(b, o, r, AllowedIPsBytes(p.allowedIPs, rest));
    assert PeerAt(b, o) == r;
    AllowedIPsBack(b, o + 136, p.allowedIPs, rest);
    forall j: nat | j < |p.allowedIPs|
      ensures AllowedIPLaid(b, o + 136 + 24 * j, p.allowedIPs[j])
    {
      AllowedIPsLaid(b, o + 136, p.allowedIPs, rest, j);
    }
    if HostAddr(net, p.endpoint).Some? {
      SockaddrIs(HostAddr(net, p.endpoint).value, p.endpoint.port);
    }
  }

  lemma {:induction false} PeersLaid(net: Netip, b: Buffer, peers: seq<Peer>, i: nat)
    requires net.Lawful() && (forall k | 0 <= k < |peers| :: Packable(peers[k])) && i <= |peers|
    requires 80 <= |b| && b[80..] == PeersBytes(net, peers)
    ensures PeerStart(peers, i) <= |b| && b[PeerStart(peers, i)..] == PeersBytes(net, peers[i..])
    ensures forall k | 0 <= k < i :: PeerLaid(net, b, PeerStart(peers, k), peers[k])
    decreases i
  {
    hide Cat, PeerPieces, AllowedIPsBytes, RawPeerOf, PeerLaid, Netip.Lawful, Packable;
    if i == 0 {
      assert peers[0..] == peers;
    } else {
      PeersLaid(net, b, peers, i - 1);
      assert peers[i - 1..][0] == peers[i - 1] && peers[i - 1..][1..] == peers[i..];
      OnePeerLaid(net, b, PeerStart(peers, i - 1), peers[i - 1], PeersBytes(net, peers[i..]));
    }
  }

  /** What stands where in the buffer that is built: an interface of 80 bytes whose flags say that it has a private key and
      a port, and the peers one after the other. */
  lemma {:induction false} BuiltLayout(net: Netip, c: Config)
    requires net.Lawful() && |c.peers| < POW32 && forall i | 0 <= i < |c.peers| :: Packable(c.peers[i])
    ensures var b := DriverBytes(net, c);
            && |b| == PeerStart(c.peers, |c.peers|)
            && 80 <= |b| && Get(b, 0, 4) == 0x2 + 0x4 && Get(b, 4, 2) == c.interface.listenPort
            && b[6..38] == c.interface.privateKey && b[38..70] == Zeros(32) && Get(b, 72, 4) == |c.peers|
            && forall i | 0 <= i < |c.peers| :: PeerLaid(net, b, PeerStart(c.peers, i), c.peers[i])
  {
    hide Cat, InterfacePieces, PeersBytes, Get, PeerLaid, Netip.Lawful, Packable, PeerStart, Zeros;
    var b := DriverBytes(net, c);
    InterfaceBack(b, RawInterfaceOf(c), PeersBytes(net, c.peers));
    PeersLaid(net, b, c.peers, |c.peers|);
    assert InterfaceAt(b) == RawInterfaceOf(c);
    NoPeers(net, c.peers);
  }

  lemma NoPeers(net: Netip, peers: seq<Peer>)
    ensures PeersBytes(net, peers[|peers|..]) == []
  {
  }

  // ---------------------------------------------------------------- any buffer

  /** The number of a run of bytes, most significant first. */
  function Big(s: Buffer): nat { DecodeBig(s) }

  /** The address of a socket address: by its family, or none. */
  function AddressIn(s: Buffer): Addr
    requires |s| == 28
  {
    if Word(s[0..2]) == INET then V4(Big(s[4..8]))
    else if Word(s[0..2]) == INET6 then V6(Big(s[8..24]), if Get(s, 24, 4) == 0 then "" else Text.Decimal(Get(s, 24, 4)))
    else NoAddr
  }

  /** An endpoint is the text of the address and the port in network order; of no address, the text of none and port 0. */
  function EndpointIn(net: Netip, s: Buffer): Endpoint
    requires |s| == 28
  {
    match AddressIn(s)
    case NoAddr => Endpoint("invalid IP", 0)
    case _ => Endpoint(net.addrString(AddressIn(s)), 256 * (s[2] as int) + s[3] as int)
  }

  /** A prefix: by its family, of a length that the family has. */
  ghost predicate ReadsPrefix(s: Buffer, p: Prefix)
    requires |s| == 24
  {
    var bits: int := s[18];
    if Word(s[16..18]) == INET then p == Prefix(V4(Big(s[0..4])), if bits <= 32 then bits else -1)
    else if Word(s[16..18]) == INET6 then p == Prefix(V6(Big(s[0..16]), ""), if bits <= 128 then bits else -1)
    else p == Prefix(NoAddr, -1)
  }

  /** A peer read from offset o: what its flags announce, and nothing else. */
  ghost predicate PeerRead(net: Netip, b: Buffer, o: nat, p: Peer, stats: Stats) {
    && o + 136 + 24 * |p.allowedIPs| <= |b|
    && var flags := Get(b, o, 4);
       && p.publicKey == (if flags % 2 == 1 then b[o + 8..o + 40] else Zeros(32))
       && p.presharedKey == (if flags / 2 % 2 == 1 then b[o + 40..o + 72] else Zeros(32))
       && p.persistentKeepalive == (if flags / 4 % 2 == 1 then Get(b, o + 72, 2) else 0)
       && p.endpoint == (if flags / 8 % 2 == 1 then EndpointIn(net, b[o + 76..o + 104]) else Endpoint("", 0))
       && stats == Stats(Get(b, o + 104, 8), Get(b, o + 112, 8), Get(b, o + 120, 8))
       && |p.allowedIPs| == Get(b, o + 128, 4)
       && (forall j: nat | j < |p.allowedIPs| ::
             var a := o + 136 + 24 * j; ReadsPrefix(b[a..a + 24], p.allowedIPs[j]))
       && p.comments == NO_SECTION_COMMENTS
  }

  /** Where the walk is after i peers from offset o. */
  function WalkFrom(b: Buffer, o: nat, i: nat): nat
    decreases i
  {
    if i == 0 || o + 136 > |b| then o else WalkFrom(b, o + 136 + 24 * Get(b, o + 128, 4), i - 1)
  }

  lemma {:induction false} SmallGet(b: Buffer, o: nat)
    requires o + 2 <= |b|
    ensures Get(b, o, 2) == Word(b[o..o + 2]) && Get(b, o, 2) < 0x1_0000
    ensures Get(b, o, 1) == b[o]
  {
    var s := b[o..o + 2];
    assert s[1..][1..] == [] && Decode([]) == 0;
    assert Decode(s[1..]) == s[1] + 256 * Decode(s[1..][1..]);
    var t := b[o..o + 1];
    assert t[1..] == [] && Decode(t) == t[0] + 256 * Decode(t[1..]);
  }

  lemma {:induction false} SmallBig(s: Buffer)
    requires |s| == 2
    ensures DecodeBig(s) == BigWord(s)
  {
    assert s[..1][..0] == [] && DecodeBig([]) == 0;
    assert DecodeBig(s[..1]) == 256 * DecodeBig(s[..1][..0]) + s[..1][0];
  }

  lemma {:induction false} EndpointRead(net: Netip, s: Buffer)
    requires |s| == 28
    ensures Endpoint(HostOf(net, SockaddrAddr(s)), SockaddrPort(s)) == EndpointIn(net, s)
  {
    hide DecodeBig, Get;
    SmallGet(s, 0);
    SmallBig(s[2..4]);
  }

  lemma {:induction false} PrefixRead(b: Buffer, a: nat)
    requires a + 24 <= |b|
    ensures ReadsPrefix(b[a..a + 24], PrefixOf(AllowedIPAt(b, a)))
  {
    hide DecodeBig, Get;
    var s := b[a..a + 24];
    SmallGet(b, a + 16);
    SmallGet(b, a + 18);
    assert s[16..18] == b[a + 16..a + 18] && s[18] == b[a + 18] && s[0..16] == b[a..a + 16];
    assert s[0..4] == b[a..a + 16][..4] && s[0..16] == b[a..a + 16][..16];
  }

  lemma {:induction false} PrefixesRead(b: Buffer, a: nat, n: nat, j: nat)
    requires AllowedIPsFit(b, a, n) && j < n && |ReadAllowedIPs(b, a, n)| == n
    ensures a + 24 * j + 24 <= |b| && ReadsPrefix(b[a + 24 * j..a + 24 * j + 24], ReadAllowedIPs(b, a, n)[j])
    decreases j
  {
    hide ReadsPrefix, PrefixOf, AllowedIPAt;
    if j == 0 {
      PrefixRead(b, a);
    } else {
      PrefixesRead(b, a + 24, n - 1, j - 1);
    }
  }

  lemma {:induction false} PrefixCount(b: Buffer, a: nat, n: nat)
    requires AllowedIPsFit(b, a, n)
    ensures |ReadAllowedIPs(b, a, n)| == n && (n > 0 ==> a + 24 * n <= |b|)
    decreases n
  {
    hide PrefixOf, AllowedIPAt;
    if n > 0 {
      PrefixCount(b, a + 24, n - 1);
    }
  }

  lemma {:induction false} OnePeerRead(net: Netip, b: Buffer, o: nat)
    requires o + 136 <= |b| && AllowedIPsFit(b, o + 136, Get(b, o + 128, 4))
    ensures var r := PeerAt(b, o);
            && AllowedIPsFit(b, FirstAllowedIP(o), r.allowedIPsCount) && |r.endpoint| == 28
            && PeerRead(net, b, o, PeerOf(net, r, ReadAllowedIPs(b, FirstAllowedIP(o), r.allowedIPsCount)), StatsOf(r))
  {
    hide Get, ReadAllowedIPs, AllowedIPsFit, ReadsPrefix, SockaddrAddr, SockaddrPort, EndpointIn, HostOf, Zeros;
    var n := Get(b, o + 128, 4);
    PrefixCount(b, o + 136, n);
    forall j: nat | j < n
      ensures var a := o + 136 + 24 * j;
              a + 24 <= |b| && ReadsPrefix(b[a..a + 24], ReadAllowedIPs(b, o + 136, n)[j])
    {
      PrefixesRead(b, o + 136, n, j);
    }
    EndpointRead(net, b[o + 76..o + 104]);
    SmallGet(b, o + 72);
  }

  lemma {:induction false} PeersRead(net: Netip, b: Buffer, o: nat, n: nat, i: nat)
    requires PeersFit(b, o, n) && i < n
    ensures |ReadPeers(net, b, o, n)| == n
    ensures var (peer, stats) := ReadPeers(net, b, o, n)[i]; PeerRead(net, b, WalkFrom(b, o, i), peer, stats)
    decreases n
  {
    hide Get, ReadAllowedIPs, AllowedIPsFit, PeerOf, StatsOf, PeerRead;
    ReadCount(net, b, o, n);
    if i == 0 {
      OnePeerRead(net, b, o);
    } else {
      PeersRead(net, b, NextPeer(b, o), n - 1, i - 1);
    }
  }

  lemma {:induction false} ReadCount(net: Netip, b: Buffer, o: nat, n: nat)
    requires PeersFit(b, o, n)
    ensures |ReadPeers(net, b, o, n)| == n
    decreases n
  {
    hide Get, ReadAllowedIPs, AllowedIPsFit, PeerOf, StatsOf;
    if n > 0 {
      ReadCount(net, b, NextPeer(b, o), n - 1);
    }
  }

  /** What the walk makes of any buffer that holds what it announces: as many peers as bytes 72 to 75 say, each read from
      where the one before it ends; key and port of the interface if bits 1 and 2 of its flags are set, all else as in the
      configuration that was there. */
  lemma {:induction false} WalkReads(net: Netip, b: Buffer, existing: Config)
    requires Fits(b)
    ensures var c, n := ReadConfig(net, b, existing), Get(b, 72, 4);
            && c.name == existing.name && c.trailingComments == []
            && c.interface == existing.interface.(
              privateKey := if Get(b, 0, 4) / 2 % 2 == 1 then b[6..38] else Zeros(32),
              listenPort := if Get(b, 0, 4) / 4 % 2 == 1 then Word(b[4..6]) else 0,
              comments := NO_SECTION_COMMENTS)
            && |c.peers| == n && |ReadPeers(net, b, 80, n)| == n
            && forall i: nat | i < n ::
                 PeerRead(net, b, WalkFrom(b, 80, i), c.peers[i], ReadPeers(net, b, 80, n)[i].1)
  {
    hide Get, PeersFit, ReadPeers, PeerRead, Zeros;
    var n := Get(b, 72, 4);
    SmallGet(b, 4);
    ReadCount(net, b, 80, n);
    forall i: nat | i < n
      ensures PeerRead(net, b, WalkFrom(b, 80, i), ReadPeers(net, b, 80, n)[i].0, ReadPeers(net, b, 80, n)[i].1)
    {
      PeersRead(net, b, 80, n, i);
    }
  }
}
