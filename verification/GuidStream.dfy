/** A reader for the stream that is hashed into a GUID, written from its documented layout, and the orders in which peers
    and allowed IPs stand there. */
module GuidStream {
  import opened Bytes
  import opened Config
  import opened DeterministicGuid
  import opened Netip
  import opened Records
  import opened Sorting
  import opened Wrappers

  type Stream = seq<Byte>

  // ---------------------------------------------------------------- the orders

  /** Keys stand in the order of the numbers that they are, most significant byte first. */
  lemma {:induction false} KeysAsNumbers(a: Stream, b: Stream)
    requires |a| == |b|
    ensures BytesLess(a, b) <==> DecodeBig(a) < DecodeBig(b)
    decreases |a|
  {
    hide Limit;
    if a != [] {
      KeysAsNumbers(a[1..], b[1..]);
      FirstByte(a);
      FirstByte(b);
      BigBound(a[1..]);
      BigBound(b[1..]);
      FirstDecides(a[0], b[0], DecodeBig(a[1..]), DecodeBig(b[1..]), Limit(|a| - 1));
    }
  }

  lemma FirstDecides(x: nat, y: nat, r: nat, s: nat, limit: nat)
    requires r < limit && s < limit
    ensures x * limit + r < y * limit + s <==> x < y || (x == y && r < s)
  {
    if x < y { assert (x + 1) * limit <= y * limit; }
    if y < x { assert (y + 1) * limit <= x * limit; }
  }

  lemma {:induction false} BigBound(s: Stream)
    ensures DecodeBig(s) < Limit(|s|)
    decreases |s|
  {
    if s != [] {
      BigBound(s[..|s| - 1]);
    }
  }

  lemma {:induction false} FirstByte(s: Stream)
    requires s != []
    ensures DecodeBig(s) == s[0] * Limit(|s| - 1) + DecodeBig(s[1..])
    decreases |s|
  {
    var n := |s| - 1;
    if n == 0 {
      assert s[..0] == [] && s[1..] == [];
    } else {
      FirstByte(s[..n]);
      assert s[..n][1..] == s[1..][..n - 1] && s[1..][n - 1] == s[n];
      Shift(s[0], Limit(n - 1));
    }
  }

  lemma Shift(x: nat, limit: nat)
    ensures 256 * (x * limit) == x * (256 * limit)
  {
  }

  /** Prefixes stand by family, IPv4 first, then by length, then by address. */
  predicate Before(p: Prefix, q: Prefix) {
    || (p.addr.V4? && q.addr.V6?)
    || (p.addr.V4? == q.addr.V4? && !p.addr.NoAddr? && !q.addr.NoAddr?
        && (p.bits < q.bits || (p.bits == q.bits && p.addr.bits < q.addr.bits)))
  }

  lemma PrefixesBefore(p: Prefix, q: Prefix)
    requires p.Valid() && q.Valid()
    ensures PrefixLess(p, q) <==> Before(p, q)
  {
  }

  // ---------------------------------------------------------------- the reader

  datatype PeerText = PeerText(key: Stream, ips: seq<Stream>)

  /** What a stream says. */
  datatype Tunnel = Tunnel(name: Stream, publicKey: Stream, peers: seq<PeerText>)

  /** A number is 32 bits, little endian. */
  function TakeNumber(s: Stream): Option<(nat, Stream)> {
    if |s| < 4 then None
    else Some((s[0] as int + 0x100 * s[1] as int + 0x1_0000 * s[2] as int + 0x100_0000 * s[3] as int, s[4..]))
  }

  function Take(s: Stream, n: nat): Option<(Stream, Stream)> {
    if |s| < n then None else Some((s[..n], s[n..]))
  }

  /** A string is its length and its bytes. */
  function TakeString(s: Stream): Option<(Stream, Stream)> {
    match TakeNumber(s)
    case None => None
    case Some((n, rest)) => Take(rest, n)
  }

  function TakeStrings(s: Stream, n: nat): Option<(seq<Stream>, Stream)>
    decreases n
  {
    if n == 0 then Some(([], s))
    else
      match TakeString(s)
      case None => None
      case Some((x, rest)) =>
        match TakeStrings(rest, n - 1)
        case None => None
        case Some((xs, end)) => Some(([x] + xs, end))
  }

  /** A peer is its key of 32 bytes, the number of its allowed IPs and those as strings. */
  function TakePeer(s: Stream): Option<(PeerText, Stream)> {
    match Take(s, 32)
    case None => None
    case Some((key, rest)) =>
      match TakeNumber(rest)
      case None => None
      case Some((n, ips)) =>
        match TakeStrings(ips, n)
        case None => None
        case Some((xs, end)) => Some((PeerText(key, xs), end))
  }

  function TakePeers(s: Stream, n: nat): Option<(seq<PeerText>, Stream)>
    decreases n
  {
    if n == 0 then Some(([], s))
    else
      match TakePeer(s)
      case None => None
      case Some((p, rest)) =>
        match TakePeers(rest, n - 1)
        case None => None
        case Some((ps, end)) => Some(([p] + ps, end))
  }

  /** After the label: the name, the public key, the number of peers and the peers, and nothing else. */
  function ReadTunnel(s: Stream): Option<Tunnel> {
    match TakeString(s)
    case None => None
    case Some((name, rest)) =>
      match Take(rest, 32)
      case None => None
      case Some((key, more)) =>
        match TakeNumber(more)
        case None => None
        case Some((n, peers)) =>
          match TakePeers(peers, n)
          case None => None
          case Some((ps, end)) => if end == [] then Some(Tunnel(name, key, ps)) else None
  }

  // ---------------------------------------------------------------- reading what was written

  lemma {:induction false} NumberTaken(n: nat, rest: Stream)
    requires n < NUMBERS
    ensures TakeNumber(Num(n) + rest) == Some((n, rest))
  {
    hide Num, Decode;
    NumBack(n);
    DecodeFour(Num(n));
    assert (Num(n) + rest)[4..] == rest;
    assert forall k | 0 <= k < 4 :: (Num(n) + rest)[k] == Num(n)[k];
  }

  lemma {:induction false} BytesTaken(a: Stream, rest: Stream)
    ensures Take(a + rest, |a|) == Some((a, rest))
  {
    assert (a + rest)[..|a|] == a && (a + rest)[|a|..] == rest;
  }

  lemma {:induction false} StringTaken(a: Stream, rest: Stream)
    requires |a| < NUMBERS
    ensures TakeString(Str(a) + rest) == Some((a, rest))
  {
    hide Num, TakeNumber;
    assert Str(a) + rest == Num(|a|) + (a + rest);
    NumberTaken(|a|, a + rest);
    BytesTaken(a, rest);
  }

  function Notations(env: Env, ps: seq<Prefix>): seq<Stream> {
    if ps == [] then [] else [env.Notation(ps[0])] + Notations(env, ps[1..])
  }

  lemma {:induction false} PrefixesTaken(env: Env, ps: seq<Prefix>, rest: Stream)
    requires PrefixesOk(env, ps)
    ensures TakeStrings(PrefixParts(env, ps) + rest, |ps|) == Some((Notations(env, ps), rest))
    decreases |ps|
  {
    hide Str, TakeString;
    if ps == [] {
      assert PrefixParts(env, ps) + rest == rest;
    } else {
      var more := PrefixParts(env, ps[1..]);
      assert PrefixParts(env, ps) + rest == Str(env.Notation(ps[0])) + (more + rest);
      StringTaken(env.Notation(ps[0]), more + rest);
      PrefixesTaken(env, ps[1..], rest);
    }
  }

  /** A peer as it should stand in the stream. */
  function Written(env: Env, p: Peer): PeerText {
    PeerText(p.publicKey, Notations(env, Sort(p.allowedIPs, PrefixLess)))
  }

  function AllWritten(env: Env, ps: seq<Peer>): (r: seq<PeerText>)
    ensures |r| == |ps| && forall i | 0 <= i < |r| :: r[i] == Written(env, ps[i])
  {
    if ps == [] then [] else [Written(env, ps[0])] + AllWritten(env, ps[1..])
  }

  lemma {:induction false} PeerTaken(env: Env, p: Peer, rest: Stream)
    requires PeerOk(env, p)
    ensures TakePeer(PeerPart(env, p) + rest) == Some((Written(env, p), rest))
  {
    hide Num, TakeNumber, Take, PrefixParts, TakeStrings, Sort;
    var ips := Sort(p.allowedIPs, PrefixLess);
    var parts := PrefixParts(env, ips);
    SortedOk(env, p);
    assert PeerPart(env, p) + rest == p.publicKey + (Num(|ips|) + (parts + rest));
    BytesTaken(p.publicKey, Num(|ips|) + (parts + rest));
    NumberTaken(|ips|, parts + rest);
    PrefixesTaken(env, ips, rest);
  }

  lemma {:induction false} SortedOk(env: Env, p: Peer)
    requires PeerOk(env, p)
    ensures var ips := Sort(p.allowedIPs, PrefixLess); |ips| == |p.allowedIPs| && PrefixesOk(env, ips)
  {
    var ips := Sort(p.allowedIPs, PrefixLess);
    SameElements(p.allowedIPs, ips);
    forall i | 0 <= i < |ips|
      ensures |env.Notation(ips[i])| < NUMBERS
    {
      assert ips[i] in p.allowedIPs;
    }
  }

  lemma {:induction false} PeersTaken(env: Env, ps: seq<Peer>, rest: Stream)
    requires PeersOk(env, ps)
    ensures TakePeers(PeerParts(env, ps) + rest, |ps|) == Some((AllWritten(env, ps), rest))
    decreases |ps|
  {
    hide PeerPart, TakePeer, PeerOk, Written;
    if ps == [] {
      assert PeerParts(env, ps) + rest == rest;
    } else {
      var more := PeerParts(env, ps[1..]);
      assert PeerParts(env, ps) + rest == PeerPart(env, ps[0]) + (more + rest);
      PeerTaken(env, ps[0], more + rest);
      PeersTaken(env, ps[1..], rest);
    }
  }

  lemma {:induction false} BodyTaken(env: Env, name: Stream, key: Key, ps: seq<Peer>)
    requires |name| < NUMBERS && |ps| < NUMBERS && PeersOk(env, ps)
    ensures ReadTunnel(Str(name) + (key + (Num(|ps|) + PeerParts(env, ps)))) == Some(Tunnel(name, key, AllWritten(env, ps)))
  {
    hide Num, Str, TakeNumber, TakeString, Take, TakePeers, PeerParts, PeersOk, AllWritten;
    var parts := PeerParts(env, ps);
    StringTaken(name, key + (Num(|ps|) + parts));
    BytesTaken(key, Num(|ps|) + parts);
    NumberTaken(|ps|, parts);
    PeersTaken(env, ps, []);
    assert parts + [] == parts;
  }

  /** What a stream says is read back: after the label, the name, the public key, and the peers in the order of their keys,
      each with the notations of its allowed IPs. */
  lemma {:induction false} StreamReads(env: Env, c: Config, s: Stream) returns (ps: seq<Peer>)
    requires Encodable(env, c) && ValidPeers(c.peers) && MayHash(env, c, s)
    ensures multiset(ps) == multiset(c.peers)
    ensures forall i, j | 0 <= i < j < |ps| :: DecodeBig(ps[i].publicKey) <= DecodeBig(ps[j].publicKey)
    ensures var heading := Ascii("Deterministic" + " WireGuard Windows GUID v1 jason@zx2c4.com");
            && heading <= s
            && ReadTunnel(s[|heading|..])
            == Some(Tunnel(env.text(c.name), env.publicKey(c.interface.privateKey), AllWritten(env, ps)))
  {
    hide Num, Str, PeerParts, ReadTunnel, PeersOk, AllWritten, Ascii, Ordered, DecodeBig, ValidPeers;
    ps :| Rearranged(c, ps) && s == Hashed(env, c, ps);
    RearrangedKeeps(env, c, ps);
    KeysInOrder(ps);
    var name := Str(env.text(c.name));
    var rest: Stream := env.publicKey(c.interface.privateKey) + (Num(|ps|) + PeerParts(env, ps));
    BodyTaken(env, env.text(c.name), env.publicKey(c.interface.privateKey), ps);
    Regrouped(Ascii(DETERMINISTIC_LABEL), name, rest);
  }

  lemma {:induction false} KeysInOrder(ps: seq<Peer>)
    requires Ordered(ps, PeerLess)
    ensures forall i, j | 0 <= i < j < |ps| :: DecodeBig(ps[i].publicKey) <= DecodeBig(ps[j].publicKey)
  {
    hide BytesLess, DecodeBig;
    forall i, j | 0 <= i < j < |ps|
      ensures DecodeBig(ps[i].publicKey) <= DecodeBig(ps[j].publicKey)
    {
      assert !PeerLess(ps[j], ps[i]);
      KeysAsNumbers(ps[j].publicKey, ps[i].publicKey);
    }
  }

  lemma {:induction false} Regrouped(a: Stream, b: Stream, c: Stream)
    ensures a <= (a + b) + c && ((a + b) + c)[|a|..] == b + c
  {
  }

  /** The label is the one documented, byte by byte. */
  lemma {:induction false} AsciiIs(s: string, k: nat)
    requires k < |s| && s[k] < '\U{80}'
    ensures Ascii(s)[k] == s[k] as int
    decreases k
  {
    if k > 0 {
      AsciiIs(s[1..], k - 1);
    }
  }

  /** The allowed IPs of a peer stand in order. */
  lemma {:induction false} WrittenInOrder(env: Env, p: Peer) returns (ips: seq<Prefix>)
    requires forall x | x in p.allowedIPs :: x.Valid()
    ensures multiset(ips) == multiset(p.allowedIPs) && Written(env, p) == PeerText(p.publicKey, Notations(env, ips))
    ensures forall i, j | 0 <= i < j < |ips| :: !Before(ips[j], ips[i])
  {
    hide Notations, PrefixLess, Before, StrictWeak, Tieless, Sort;
    ips := Sort(p.allowedIPs, PrefixLess);
    PrefixOrder(p.allowedIPs);
    SortOrdered(p.allowedIPs, PrefixLess);
    SameElements(p.allowedIPs, ips);
    forall i, j | 0 <= i < j < |ips|
      ensures !Before(ips[j], ips[i])
    {
      assert ips[i] in p.allowedIPs && ips[j] in p.allowedIPs;
      PrefixesBefore(ips[j], ips[i]);
    }
  }
}
