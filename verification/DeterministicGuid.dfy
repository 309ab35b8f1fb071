/** The bytes hashed into the GUID of a tunnel's adapter (tunnel/deterministicguid.go). */
module DeterministicGuid {
  import opened Bytes
  import opened Config
  import opened Netip
  import opened Sorting
  import opened Wrappers

  const LABEL_END := " WireGuard Windows GUID v1 jason@zx2c4.com"
  const DETERMINISTIC_LABEL := "Deterministic" + LABEL_END
  const FIXED_LABEL := "Fixed" + LABEL_END
  const NUMBERS: nat := 0x1_0000_0000

  type Text = seq<Byte>

  function Ascii(s: string): (b: Text)
    ensures |b| == |s|
  {
    if s == "" then [] else [(s[0] as int) % 256] + Ascii(s[1..])
  }

  /** What the stream depends on outside the repository: the NFC form of a string as UTF-8, the public key of a private
      key, and the canonical notation of a prefix. */
  datatype Env = Env(text: string -> Text, publicKey: Key -> Key, prefixString: Prefix -> string) {
    function Notation(p: Prefix): Text { text(prefixString(p)) }

    /** Different prefixes are written differently. */
    ghost predicate Lawful() {
      forall p: Prefix, q: Prefix :: p.Valid() && q.Valid() && Notation(p) == Notation(q) ==> p == q
    }
  }

  // ---------------------------------------------------------------- the two orders

  /** bytes.Compare(a, b) < 0. */
  predicate BytesLess(a: Text, b: Text) {
    if b == [] then false
    else if a == [] then true
    else if a[0] != b[0] then a[0] < b[0]
    else BytesLess(a[1..], b[1..])
  }

  predicate PeerLess(p: Peer, q: Peer) { BytesLess(p.publicKey, q.publicKey) }

  /** By family, then by length, then by address. */
  predicate PrefixLess(p: Prefix, q: Prefix) {
    var bi, bj := p.addr.BitLen(), q.addr.BitLen();
    if bi != bj then bi < bj
    else if p.bits != q.bits then p.bits < q.bits
    else bi != 0 && p.addr.bits < q.addr.bits
  }

  // ---------------------------------------------------------------- the stream

  function Str(b: Text): Text { Num(|b|) + b }

  function PrefixParts(env: Env, ps: seq<Prefix>): Text {
    if ps == [] then [] else Str(env.Notation(ps[0])) + PrefixParts(env, ps[1..])
  }

  function PeerPart(env: Env, p: Peer): Text {
    p.publicKey + (Num(|p.allowedIPs|) + PrefixParts(env, Sort(p.allowedIPs, PrefixLess)))
  }

  function PeerParts(env: Env, ps: seq<Peer>): Text {
    if ps == [] then [] else PeerPart(env, ps[0]) + PeerParts(env, ps[1..])
  }

  function Head(heading: string, name: Text): Text { Ascii(heading) + Str(name) }

  function Hashed(env: Env, c: Config, sorted: seq<Peer>): Text {
    Head(DETERMINISTIC_LABEL, env.text(c.name)) + (env.publicKey(c.interface.privateKey) + (Num(|sorted|) + PeerParts(env, sorted)))
  }

  ghost predicate Rearranged(c: Config, ps: seq<Peer>) {
    multiset(ps) == multiset(c.peers) && Ordered(ps, PeerLess)
  }

  /** A stream that sort.Slice allows: it says nothing about the order of peers that share a key. */
  ghost predicate MayHash(env: Env, c: Config, s: Text) {
    exists ps :: Rearranged(c, ps) && s == Hashed(env, c, ps)
  }

  /** Every number fits in 32 bits; the function panics otherwise. */
  predicate NamedOk(env: Env, c: Config) { |env.text(c.name)| < NUMBERS }

  predicate PrefixesOk(env: Env, ps: seq<Prefix>) {
    forall i | 0 <= i < |ps| :: |env.Notation(ps[i])| < NUMBERS
  }

  predicate PeerOk(env: Env, p: Peer) { |p.allowedIPs| < NUMBERS && PrefixesOk(env, p.allowedIPs) }

  predicate PeersOk(env: Env, ps: seq<Peer>) { forall i | 0 <= i < |ps| :: PeerOk(env, ps[i]) }

  predicate Encodable(env: Env, c: Config) {
    NamedOk(env, c) && |c.peers| < NUMBERS && PeersOk(env, c.peers)
  }

  ghost predicate ValidPeers(ps: seq<Peer>) {
    forall p, x :: p in ps && x in p.allowedIPs ==> x.Valid()
  }

  // ---------------------------------------------------------------- the orders are good for sorting

  lemma {:induction false} BytesLessLaws(a: Text, b: Text, c: Text)
    ensures BytesLess(a, b) ==> !BytesLess(b, a)
    ensures !BytesLess(a, b) && !BytesLess(b, a) ==> a == b
    ensures !BytesLess(a, b) && !BytesLess(b, c) ==> !BytesLess(a, c)
  {
    if a != [] && b != [] && c != [] {
      BytesLessLaws(a[1..], b[1..], c[1..]);
    } else if a != [] && b != [] {
      BytesLessLaws(a[1..], b[1..], []);
    }
    assert a != [] ==> a == [a[0]] + a[1..];
    assert b != [] ==> b == [b[0]] + b[1..];
  }

  lemma {:induction false} PeerOrder()
    ensures StrictWeak(PeerLess)
  {
    hide BytesLess;
    forall p, q, r
      ensures PeerLess(p, q) ==> !PeerLess(q, p)
      ensures !PeerLess(p, q) && !PeerLess(q, r) ==> !PeerLess(p, r)
    {
      BytesLessLaws(p.publicKey, q.publicKey, r.publicKey);
    }
  }

  lemma {:induction false} PrefixOrder(ps: seq<Prefix>)
    requires forall x :: x in ps ==> x.Valid()
    ensures StrictWeak(PrefixLess) && Tieless(ps, PrefixLess)
  {
  }

  // ---------------------------------------------------------------- what identifies a tunnel

  /** A peer as the stream sees it. */
  datatype Entry = Entry(key: Key, ips: multiset<Prefix>)

  ghost function EntryOf(p: Peer): Entry { Entry(p.publicKey, multiset(p.allowedIPs)) }

  ghost function Entries(ps: seq<Peer>): (es: seq<Entry>)
    ensures |es| == |ps| && forall i | 0 <= i < |ps| :: es[i] == EntryOf(ps[i])
  {
    Map((p: Peer) => EntryOf(p), ps)
  }

  ghost predicate SameIdentity(env: Env, c: Config, d: Config) {
    && env.text(c.name) == env.text(d.name)
    && env.publicKey(c.interface.privateKey) == env.publicKey(d.interface.privateKey)
    && multiset(Entries(c.peers)) == multiset(Entries(d.peers))
  }

  /** Peers with the same key have the same allowed IPs, as multisets. Distinct keys are a special case. */
  ghost predicate Consistent(ps: seq<Peer>) {
    forall p, q :: p in ps && q in ps && p.publicKey == q.publicKey ==> EntryOf(p) == EntryOf(q)
  }

  lemma {:induction false} DistinctIsConsistent(ps: seq<Peer>)
    requires DistinctKeys(ps)
    ensures Consistent(ps)
  {
  }

  // ---------------------------------------------------------------- reading the stream back

  lemma {:induction false} Cut(a: Text, b: Text, r: Text, t: Text)
    requires |a| == |b| && a + r == b + t
    ensures a == b && r == t
  {
    assert a == (a + r)[..|a|] && b == (b + t)[..|b|];
    assert r == (a + r)[|a|..] && t == (b + t)[|b|..];
  }

  lemma {:induction false} CutNum(m: nat, n: nat, r: Text, t: Text)
    requires m < NUMBERS && n < NUMBERS && Num(m) + r == Num(n) + t
    ensures m == n && r == t
  {
    hide Num;
    Cut(Num(m), Num(n), r, t);
    NumBack(m);
    NumBack(n);
  }

  lemma {:induction false} Join(a: Text, b: Text, r: Text)
    ensures (a + b) + r == a + (b + r)
  {
  }

  lemma {:induction false} CutStr(a: Text, b: Text, r: Text, t: Text)
    requires |a| < NUMBERS && |b| < NUMBERS && Str(a) + r == Str(b) + t
    ensures a == b && r == t
  {
    hide Num;
    Join(Num(|a|), a, r);
    Join(Num(|b|), b, t);
    CutNum(|a|, |b|, a + r, b + t);
    Cut(a, b, r, t);
  }

  lemma {:induction false} CutPrefixes(env: Env, ps: seq<Prefix>, qs: seq<Prefix>, r: Text, t: Text)
    requires env.Lawful() && PrefixesOk(env, ps) && PrefixesOk(env, qs)
    requires forall i | 0 <= i < |ps| :: ps[i].Valid()
    requires forall i | 0 <= i < |qs| :: qs[i].Valid()
    requires |ps| == |qs| && PrefixParts(env, ps) + r == PrefixParts(env, qs) + t
    ensures ps == qs && r == t
  {
    hide Str;
    if ps == [] {
      assert [] + r == r && [] + t == t;
    } else {
      var a, b := env.Notation(ps[0]), env.Notation(qs[0]);
      Join(Str(a), PrefixParts(env, ps[1..]), r);
      Join(Str(b), PrefixParts(env, qs[1..]), t);
      CutStr(a, b, PrefixParts(env, ps[1..]) + r, PrefixParts(env, qs[1..]) + t);
      CutPrefixes(env, ps[1..], qs[1..], r, t);
      HeadTail(ps, qs);
    }
  }

  /** Sorting keeps the numbers within bounds and the prefixes valid. */
  lemma {:induction false} SortedPrefixes(env: Env, p: Peer)
    requires PeerOk(env, p) && forall x | x in p.allowedIPs :: x.Valid()
    ensures var ips := Sort(p.allowedIPs, PrefixLess);
            |ips| == |p.allowedIPs| && PrefixesOk(env, ips) && forall i | 0 <= i < |ips| :: ips[i].Valid()
  {
    var ips := Sort(p.allowedIPs, PrefixLess);
    SameElements(ips, p.allowedIPs);
    forall i | 0 <= i < |ips|
      ensures |env.Notation(ips[i])| < NUMBERS && ips[i].Valid()
    {
      assert ips[i] in p.allowedIPs;
    }
  }

  lemma {:induction false} CutPeer(env: Env, p: Peer, q: Peer, r: Text, t: Text)
    requires env.Lawful() && PeerOk(env, p) && PeerOk(env, q)
    requires forall x | x in p.allowedIPs :: x.Valid()
    requires forall x | x in q.allowedIPs :: x.Valid()
    requires PeerPart(env, p) + r == PeerPart(env, q) + t
    ensures EntryOf(p) == EntryOf(q) && r == t
  {
    hide Num, PrefixParts, Sort, PrefixesOk, Env.Lawful;
    var xs, ys := Sort(p.allowedIPs, PrefixLess), Sort(q.allowedIPs, PrefixLess);
    var u, v := PrefixParts(env, xs), PrefixParts(env, ys);
    Join(p.publicKey, Num(|p.allowedIPs|) + u, r);
    Join(q.publicKey, Num(|q.allowedIPs|) + v, t);
    Join(Num(|p.allowedIPs|), u, r);
    Join(Num(|q.allowedIPs|), v, t);
    Cut(p.publicKey, q.publicKey, Num(|p.allowedIPs|) + (u + r), Num(|q.allowedIPs|) + (v + t));
    CutNum(|p.allowedIPs|, |q.allowedIPs|, u + r, v + t);
    SortedPrefixes(env, p);
    SortedPrefixes(env, q);
    CutPrefixes(env, xs, ys, r, t);
  }

  lemma {:induction false} CutPeers(env: Env, ps: seq<Peer>, qs: seq<Peer>)
    requires env.Lawful() && PeersOk(env, ps) && PeersOk(env, qs) && ValidPeers(ps) && ValidPeers(qs)
    requires |ps| == |qs| && PeerParts(env, ps) == PeerParts(env, qs)
    ensures Entries(ps) == Entries(qs)
  {
    hide PeerPart, PeerOk, Env.Lawful;
    if ps != [] {
      assert ps[0] in ps && qs[0] in qs;
      CutPeer(env, ps[0], qs[0], PeerParts(env, ps[1..]), PeerParts(env, qs[1..]));
      assert forall p :: p in ps[1..] ==> p in ps;
      assert forall q :: q in qs[1..] ==> q in qs;
      CutPeers(env, ps[1..], qs[1..]);
      EntriesFirst(ps);
      EntriesFirst(qs);
    }
  }

  lemma {:induction false} EntriesFirst(ps: seq<Peer>)
    requires ps != []
    ensures Entries(ps) == [EntryOf(ps[0])] + Entries(ps[1..])
  {
  }

  // ---------------------------------------------------------------- the stream depends on the entries only

  lemma {:induction false} PartOfEntry(env: Env, p: Peer, q: Peer)
    requires EntryOf(p) == EntryOf(q) && forall x | x in p.allowedIPs :: x.Valid()
    ensures PeerPart(env, p) == PeerPart(env, q)
  {
    hide PrefixLess, StrictWeak, Ordered;
    var xs, ys := Sort(p.allowedIPs, PrefixLess), Sort(q.allowedIPs, PrefixLess);
    SameElements(xs, p.allowedIPs);
    PrefixOrder(xs);
    SortOrdered(p.allowedIPs, PrefixLess);
    SortOrdered(q.allowedIPs, PrefixLess);
    OrderedUnique(xs, ys, PrefixLess);
    SameLength(p.allowedIPs, q.allowedIPs);
  }

  lemma {:induction false} PartsOfEntries(env: Env, ps: seq<Peer>, qs: seq<Peer>)
    requires Entries(ps) == Entries(qs) && ValidPeers(ps)
    ensures PeerParts(env, ps) == PeerParts(env, qs)
  {
    hide PeerPart, EntryOf;
    assert |ps| == |Entries(ps)| == |qs|;
    if ps != [] {
      assert Entries(ps)[0] == Entries(qs)[0];
      assert ps[0] in ps;
      PartOfEntry(env, ps[0], qs[0]);
      EntriesFirst(ps);
      EntriesFirst(qs);
      assert Entries(ps[1..]) == Entries(ps)[1..] == Entries(qs[1..]);
      assert forall p :: p in ps[1..] ==> p in ps;
      PartsOfEntries(env, ps[1..], qs[1..]);
    }
  }

  predicate EntryLess(a: Entry, b: Entry) { BytesLess(a.key, b.key) }

  lemma {:induction false} EntryOrder()
    ensures StrictWeak(EntryLess)
  {
    hide BytesLess;
    forall p, q, r
      ensures EntryLess(p, q) ==> !EntryLess(q, p)
      ensures !EntryLess(p, q) && !EntryLess(q, r) ==> !EntryLess(p, r)
    {
      BytesLessLaws(p.key, q.key, r.key);
    }
  }

  lemma {:induction false} EntriesTieless(ps: seq<Peer>)
    requires Consistent(ps)
    ensures Tieless(Entries(ps), EntryLess)
  {
    hide BytesLess, EntryOf;
    var es := Entries(ps);
    forall a, b | a in es && b in es && !EntryLess(a, b) && !EntryLess(b, a)
      ensures a == b
    {
      var i :| 0 <= i < |es| && es[i] == a;
      var j :| 0 <= j < |es| && es[j] == b;
      BytesLessLaws(a.key, b.key, b.key);
      KeyOfEntry(ps[i]);
      KeyOfEntry(ps[j]);
      assert ps[i] in ps && ps[j] in ps;
    }
  }

  lemma KeyOfEntry(p: Peer)
    ensures EntryOf(p).key == p.publicKey
  {
  }

  lemma {:induction false} EntriesOrdered(ps: seq<Peer>)
    requires Ordered(ps, PeerLess)
    ensures Ordered(Entries(ps), EntryLess)
  {
    hide BytesLess;
    var es := Entries(ps);
    forall i, j | 0 <= i < j < |es|
      ensures !EntryLess(es[j], es[i])
    {
      assert !PeerLess(ps[j], ps[i]);
    }
  }

  /** Rearranging peers keeps their entries, their validity and their bounds. */
  lemma {:induction false} RearrangedKeeps(env: Env, c: Config, ps: seq<Peer>)
    requires Rearranged(c, ps)
    ensures |ps| == |c.peers| && multiset(Entries(ps)) == multiset(Entries(c.peers))
    ensures forall p :: p in ps <==> p in c.peers
    ensures ValidPeers(c.peers) ==> ValidPeers(ps)
    ensures PeersOk(env, c.peers) ==> PeersOk(env, ps)
    ensures Consistent(c.peers) <==> Consistent(ps)
  {
    hide Ordered, PeerOk, EntryOf;
    SameElements(ps, c.peers);
    MapMultiset((p: Peer) => EntryOf(p), ps, c.peers);
    if PeersOk(env, c.peers) {
      forall i | 0 <= i < |ps|
        ensures PeerOk(env, ps[i])
      {
        assert ps[i] in c.peers;
      }
    }
  }

  // ---------------------------------------------------------------- main results

  /** Reading a stream back: tunnels with the same stream have the same name, the same public key, and the same peers
      with the same allowed IPs. */
  lemma {:induction false} StreamGivesIdentity(env: Env, c: Config, d: Config, s: Text)
    requires env.Lawful() && Encodable(env, c) && Encodable(env, d) && ValidPeers(c.peers) && ValidPeers(d.peers)
    requires MayHash(env, c, s) && MayHash(env, d, s)
    ensures SameIdentity(env, c, d)
  {
    hide Rearranged, PeersOk, Num, Str, PeerParts, Consistent, ValidPeers, Env.Lawful, Entries;
    var ps :| Rearranged(c, ps) && s == Hashed(env, c, ps);
    var qs :| Rearranged(d, qs) && s == Hashed(env, d, qs);
    RearrangedKeeps(env, c, ps);
    RearrangedKeeps(env, d, qs);
    var k, l := env.publicKey(c.interface.privateKey), env.publicKey(d.interface.privateKey);
    var r, t := Num(|ps|) + PeerParts(env, ps), Num(|qs|) + PeerParts(env, qs);
    CutHead(DETERMINISTIC_LABEL, env.text(c.name), env.text(d.name), k + r, l + t);
    Cut(k, l, r, t);
    CutNum(|ps|, |qs|, PeerParts(env, ps), PeerParts(env, qs));
    CutPeers(env, ps, qs);
  }

  lemma {:induction false} CutHead(heading: string, a: Text, b: Text, r: Text, t: Text)
    requires |a| < NUMBERS && |b| < NUMBERS && Head(heading, a) + r == Head(heading, b) + t
    ensures a == b && r == t
  {
    hide Str, Ascii;
    Join(Ascii(heading), Str(a), r);
    Join(Ascii(heading), Str(b), t);
    Cut(Ascii(heading), Ascii(heading), Str(a) + r, Str(b) + t);
    CutStr(a, b, r, t);
  }

  /** The order of peers and of allowed IPs does not matter, nor does the sorting algorithm. */
  lemma {:induction false} IdentityGivesStream(env: Env, c: Config, d: Config, s: Text, t: Text)
    requires SameIdentity(env, c, d) && Consistent(c.peers) && ValidPeers(c.peers)
    requires MayHash(env, c, s) && MayHash(env, d, t)
    ensures s == t
  {
    hide PeersOk, Num, PeerParts, Consistent, ValidPeers, Entries, Ordered, Head, BytesLess;
    var ps :| Rearranged(c, ps) && s == Hashed(env, c, ps);
    var qs :| Rearranged(d, qs) && t == Hashed(env, d, qs);
    RearrangedKeeps(env, c, ps);
    RearrangedKeeps(env, d, qs);
    EntriesTieless(ps);
    EntriesOrdered(ps);
    EntriesOrdered(qs);
    EntryOrder();
    OrderedUnique(Entries(ps), Entries(qs), EntryLess);
    PartsOfEntries(env, ps, qs);
  }

  ghost predicate DistinctKeys(ps: seq<Peer>) {
    forall i, j | 0 <= i < j < |ps| :: ps[i].publicKey != ps[j].publicKey
  }

  /** With distinct keys, rearranging the allowed IPs of each peer and then the peers leaves the stream as it was. */
  lemma {:induction false} RearrangingKeepsStream(env: Env, c: Config, d: Config, shuffled: seq<Peer>, s: Text, t: Text)
    requires DistinctKeys(c.peers) && ValidPeers(c.peers)
    requires |shuffled| == |c.peers| && forall i | 0 <= i < |shuffled| :: EntryOf(shuffled[i]) == EntryOf(c.peers[i])
    requires multiset(d.peers) == multiset(shuffled)
    requires env.text(d.name) == env.text(c.name) && d.interface.privateKey == c.interface.privateKey
    requires MayHash(env, c, s) && MayHash(env, d, t)
    ensures s == t
  {
    hide MayHash, ValidPeers, EntryOf;
    DistinctIsConsistent(c.peers);
    assert Entries(shuffled) == Entries(c.peers);
    MapMultiset((p: Peer) => EntryOf(p), d.peers, shuffled);
    IdentityGivesStream(env, c, d, s, t);
  }

  /** With distinct keys, or more generally consistent ones, two tunnels have the same stream exactly when they have the
      same identity. */
  lemma {:induction false} StreamsEqualIff(env: Env, c: Config, d: Config, s: Text, t: Text)
    requires env.Lawful() && Encodable(env, c) && Encodable(env, d) && ValidPeers(c.peers) && ValidPeers(d.peers)
    requires Consistent(c.peers) && MayHash(env, c, s) && MayHash(env, d, t)
    ensures s == t <==> SameIdentity(env, c, d)
  {
    hide SameIdentity, MayHash, Encodable, Consistent, Env.Lawful;
    if s == t {
      StreamGivesIdentity(env, c, d, s);
    }
    if SameIdentity(env, c, d) {
      IdentityGivesStream(env, c, d, s, t);
    }
  }

  /** Two peers of equal key can trade places in a sorted list. */
  lemma {:induction false} Trade(c: Config, ps: seq<Peer>, i: nat, j: nat)
    requires Rearranged(c, ps) && i < j < |ps| && ps[i].publicKey == ps[j].publicKey
    ensures Rearranged(c, ps[i := ps[j]][j := ps[i]])
  {
    hide BytesLess;
    var qs := ps[i := ps[j]][j := ps[i]];
    assert multiset(qs) == multiset(ps);
    forall k | 0 <= k < |ps|
      ensures qs[k].publicKey == ps[k].publicKey
    {
    }
    forall k, l | 0 <= k < l < |qs|
      ensures !PeerLess(qs[l], qs[k])
    {
      assert !PeerLess(ps[l], ps[k]);
    }
  }

  lemma {:induction false} SomeRearrangement(c: Config) returns (ps: seq<Peer>)
    ensures Rearranged(c, ps)
  {
    PeerOrder();
    SortOrdered(c.peers, PeerLess);
    ps := Sort(c.peers, PeerLess);
  }

  /** The stream of a tunnel is determined exactly when peers that share a key have the same allowed IPs. */
  lemma {:induction false} DeterminedIff(env: Env, c: Config)
    requires env.Lawful() && Encodable(env, c) && ValidPeers(c.peers)
    ensures (forall s, t :: MayHash(env, c, s) && MayHash(env, c, t) ==> s == t) <==> Consistent(c.peers)
  {
    hide MayHash, Encodable, ValidPeers, Env.Lawful, Consistent, Rearranged, Hashed;
    if Consistent(c.peers) {
      forall s, t | MayHash(env, c, s) && MayHash(env, c, t)
        ensures s == t
      {
        IdentityGivesStream(env, c, c, s, t);
      }
    } else {
      var s, t := TwoStreams(env, c);
    }
  }

  lemma {:induction false} Conflict(ps: seq<Peer>) returns (k: nat, l: nat)
    requires !Consistent(ps)
    ensures k < l < |ps| && ps[k].publicKey == ps[l].publicKey && EntryOf(ps[k]) != EntryOf(ps[l])
  {
    hide EntryOf;
    var p, q :| p in ps && q in ps && p.publicKey == q.publicKey && EntryOf(p) != EntryOf(q);
    var i :| 0 <= i < |ps| && ps[i] == p;
    var j :| 0 <= j < |ps| && ps[j] == q;
    k, l := if i < j then i else j, if i < j then j else i;
  }

  lemma {:induction false} TwoStreams(env: Env, c: Config) returns (s: Text, t: Text)
    requires env.Lawful() && Encodable(env, c) && ValidPeers(c.peers) && !Consistent(c.peers)
    ensures MayHash(env, c, s) && MayHash(env, c, t) && s != t
  {
    hide ValidPeers, Env.Lawful, Rearranged, PeersOk, EntryOf, Hashed, Encodable, Consistent;
    var ps := SomeRearrangement(c);
    RearrangedKeeps(env, c, ps);
    var k, l := Conflict(ps);
    Trade(c, ps, k, l);
    var qs := ps[k := ps[l]][l := ps[k]];
    s, t := Hashed(env, c, ps), Hashed(env, c, qs);
    assert Entries(ps)[k] != Entries(qs)[k];
    OneOrder(env, c, ps, qs);
  }

  /** A stream shows the order in which the peers were taken. */
  lemma {:induction false} OneOrder(env: Env, c: Config, ps: seq<Peer>, qs: seq<Peer>)
    requires env.Lawful() && Encodable(env, c) && ValidPeers(c.peers) && Rearranged(c, ps) && Rearranged(c, qs)
    ensures Hashed(env, c, ps) == Hashed(env, c, qs) ==> Entries(ps) == Entries(qs)
  {
    hide Rearranged, PeersOk, Num, Str, PeerParts, Consistent, ValidPeers, Env.Lawful, Entries, Head;
    RearrangedKeeps(env, c, ps);
    RearrangedKeeps(env, c, qs);
    var k := env.publicKey(c.interface.privateKey);
    var r, t := Num(|ps|) + PeerParts(env, ps), Num(|qs|) + PeerParts(env, qs);
    if Hashed(env, c, ps) == Hashed(env, c, qs) {
      CutHead(DETERMINISTIC_LABEL, env.text(c.name), env.text(c.name), k + r, k + t);
      Cut(k, k, r, t);
      CutNum(|ps|, |qs|, PeerParts(env, ps), PeerParts(env, qs));
      CutPeers(env, ps, qs);
    }
  }

  /** The two labels keep the two kinds of GUID apart. */
  lemma {:induction false} KindsApart(env: Env, c: Config, d: Config, s: Text)
    requires MayHash(env, c, s)
    ensures s != Head(FIXED_LABEL, env.text(d.name))
  {
    hide Head, Rearranged, PeerParts, Num;
    var ps :| Rearranged(c, ps) && s == Hashed(env, c, ps);
    Labels();
    HeadFirst(DETERMINISTIC_LABEL, env.text(c.name));
    HeadFirst(FIXED_LABEL, env.text(d.name));
    assert s[0] == 'D' as int;
  }

  lemma Labels()
    ensures DETERMINISTIC_LABEL != "" && DETERMINISTIC_LABEL[0] == 'D'
    ensures FIXED_LABEL != "" && FIXED_LABEL[0] == 'F'
  {
  }

  lemma {:induction false} HeadFirst(heading: string, name: Text)
    requires heading != "" && (heading[0] as int) < 128
    ensures Head(heading, name) != [] && Head(heading, name)[0] == heading[0] as int
  {
    hide Str;
    assert Ascii(heading)[0] == heading[0] as int;
  }

  /** The fixed kind depends on the name alone. */
  lemma {:induction false} FixedIff(a: Text, b: Text)
    requires |a| < NUMBERS && |b| < NUMBERS
    ensures Head(FIXED_LABEL, a) == Head(FIXED_LABEL, b) <==> a == b
  {
    hide Head;
    if Head(FIXED_LABEL, a) == Head(FIXED_LABEL, b) {
      CutHead(FIXED_LABEL, a, b, [], []);
    }
  }

  // ---------------------------------------------------------------- the program

  /** The state of the hash: what was written to it. None once a number was out of bounds and the program panicked. */
  class Hash {
    var written: Option<Text>

    constructor (heading: string)
      ensures written == Some(Ascii(heading))
    {
      written := Some(Ascii(heading));
    }

    method Write(b: Text)
      modifies this
      ensures written == if old(written).None? then None else Some(old(written).value + b)
    {
      if written.Some? { written := Some(written.value + b); }
    }

    method Number(i: nat)
      modifies this
      ensures written == if old(written).None? || i >= NUMBERS then None else Some(old(written).value + Num(i))
    {
      if i > 0xffff_ffff {
        written := None;
      } else {
        Write(Num(i));
      }
    }

    method String(env: Env, s: string)
      modifies this
      ensures written == if old(written).None? || |env.text(s)| >= NUMBERS then None
                         else Some(old(written).value + Str(env.text(s)))
    {
      hide Num;
      var bytes := env.text(s);
      Number(|bytes|);
      ghost var middle := written;
      Write(bytes);
      if middle.Some? { Join(old(written).value, Num(|bytes|), bytes); }
    }
  }

  /** Writes one peer. */
  method WritePeer(b2: Hash, env: Env, peer: Peer)
    requires forall x | x in peer.allowedIPs :: x.Valid()
    modifies b2
    ensures b2.written == if old(b2.written).None? || !PeerOk(env, peer) then None
                          else Some(old(b2.written).value + PeerPart(env, peer))
  {
    hide Num, Str, Sort, PrefixLess, PrefixParts, Ordered, StrictWeak;
    ghost var was := b2.written;
    b2.Write(peer.publicKey);
    b2.Number(|peer.allowedIPs|);
    PrefixOrder(peer.allowedIPs);
    var sortedAllowedIPs := SortSlice(peer.allowedIPs, PrefixLess);
    SortedIs(env, peer.allowedIPs, sortedAllowedIPs);
    ghost var before := b2.written;
    PartsNone(env);
    assert sortedAllowedIPs[..0] == [] && (before.Some? ==> before.value + [] == before.value);
    for i := 0 to |sortedAllowedIPs|
      invariant b2.written == if before.None? || !PrefixesOk(env, sortedAllowedIPs[..i]) then None
                              else Some(before.value + PrefixParts(env, sortedAllowedIPs[..i]))
    {
      PartsEnd(env, sortedAllowedIPs[..i], sortedAllowedIPs[i]);
      assert sortedAllowedIPs[..i] + [sortedAllowedIPs[i]] == sortedAllowedIPs[..i + 1];
      b2.String(env, env.prefixString(sortedAllowedIPs[i]));
      if before.Some? { Join(before.value, PrefixParts(env, sortedAllowedIPs[..i]), Str(env.Notation(sortedAllowedIPs[i]))); }
    }
    assert sortedAllowedIPs[..|sortedAllowedIPs|] == sortedAllowedIPs;
    if before.Some? {
      Join(was.value, peer.publicKey, Num(|peer.allowedIPs|));
      Join(was.value, peer.publicKey + Num(|peer.allowedIPs|), PrefixParts(env, sortedAllowedIPs));
      Join(peer.publicKey, Num(|peer.allowedIPs|), PrefixParts(env, sortedAllowedIPs));
    }
  }

  lemma PartsNone(env: Env)
    ensures PrefixParts(env, []) == [] && PrefixesOk(env, []) && PeerParts(env, []) == [] && PeersOk(env, [])
  {
  }

  lemma {:induction false} PartsEnd(env: Env, ps: seq<Prefix>, p: Prefix)
    ensures PrefixParts(env, ps + [p]) == PrefixParts(env, ps) + Str(env.Notation(p))
    ensures PrefixesOk(env, ps + [p]) <==> PrefixesOk(env, ps) && |env.Notation(p)| < NUMBERS
  {
    hide Str;
    if ps == [] {
      assert [] + [p] == [p];
    } else {
      PartsEnd(env, ps[1..], p);
      assert (ps + [p])[1..] == ps[1..] + [p];
    }
    assert forall i | 0 <= i < |ps| :: (ps + [p])[i] == ps[i];
    assert (ps + [p])[|ps|] == p;
  }

  /** Whatever the library's algorithm, it sorts prefixes the one way there is. */
  lemma {:induction false} SortedIs(env: Env, ps: seq<Prefix>, qs: seq<Prefix>)
    requires multiset(qs) == multiset(ps) && Ordered(qs, PrefixLess) && forall x | x in ps :: x.Valid()
    ensures qs == Sort(ps, PrefixLess) && (PrefixesOk(env, qs) <==> PrefixesOk(env, ps))
  {
    hide PrefixLess, Ordered, StrictWeak;
    SameElements(qs, ps);
    PrefixOrder(qs);
    SortOrdered(ps, PrefixLess);
    OrderedUnique(qs, Sort(ps, PrefixLess), PrefixLess);
    PrefixesOkIff(env, ps);
    PrefixesOkIff(env, qs);
  }

  lemma {:induction false} PrefixesOkIff(env: Env, ps: seq<Prefix>)
    ensures PrefixesOk(env, ps) <==> forall x | x in ps :: |env.Notation(x)| < NUMBERS
  {
  }

  /** The stream hashed for a tunnel, or None if the program panics. */
  method DeterministicGuid(env: Env, c: Config, useFixed: bool) returns (stream: Option<Text>)
    requires ValidPeers(c.peers)
    ensures useFixed ==> stream == if NamedOk(env, c) then Some(Head(FIXED_LABEL, env.text(c.name))) else None
    ensures !useFixed ==> (stream.Some? <==> Encodable(env, c))
    ensures !useFixed && stream.Some? ==> MayHash(env, c, stream.value)
  {
    hide Num, Str, Ascii, PeerParts, PeersOk, Rearranged, StrictWeak, Ordered, MayHash, Hashed, ValidPeers, Consistent, Entries;
    var b2 := new Hash(if useFixed then FIXED_LABEL else DETERMINISTIC_LABEL);
    b2.String(env, c.name);
    if useFixed { return b2.written; }
    b2.Write(env.publicKey(c.interface.privateKey));
    b2.Number(|c.peers|);
    PeerOrder();
    var sortedPeers := SortSlice(c.peers, PeerLess);
    IsRearranged(c, sortedPeers);
    RearrangedKeeps(env, c, sortedPeers);
    WritePeers(b2, env, sortedPeers);
    stream := b2.written;
    OkRearranged(env, c, sortedPeers);
    if stream.Some? {
      IsHash(env, c, sortedPeers, stream.value);
    }
  }

  lemma {:induction false} IsHash(env: Env, c: Config, ps: seq<Peer>, s: Text)
    requires Rearranged(c, ps)
    requires s == ((Head(DETERMINISTIC_LABEL, env.text(c.name)) + env.publicKey(c.interface.privateKey)) + Num(|ps|))
               + PeerParts(env, ps)
    ensures MayHash(env, c, s)
  {
    hide Head, Num, PeerParts, Rearranged;
    JoinFour(Head(DETERMINISTIC_LABEL, env.text(c.name)), env.publicKey(c.interface.privateKey), Num(|ps|), PeerParts(env, ps));
  }

  lemma {:induction false} JoinFour(a: Text, b: Text, c: Text, d: Text)
    ensures ((a + b) + c) + d == a + (b + (c + d))
  {
  }

  method WritePeers(b2: Hash, env: Env, sortedPeers: seq<Peer>)
    requires ValidPeers(sortedPeers)
    modifies b2
    ensures b2.written == if old(b2.written).None? || !PeersOk(env, sortedPeers) then None
                          else Some(old(b2.written).value + PeerParts(env, sortedPeers))
  {
    hide PeerPart, PeerOk, PeerParts, PeersOk;
    ghost var before := b2.written;
    PartsNone(env);
    assert sortedPeers[..0] == [] && (before.Some? ==> before.value + [] == before.value);
    for i := 0 to |sortedPeers|
      invariant b2.written == if before.None? || !PeersOk(env, sortedPeers[..i]) then None
                              else Some(before.value + PeerParts(env, sortedPeers[..i]))
    {
      assert sortedPeers[i] in sortedPeers;
      PeersEnd(env, sortedPeers[..i], sortedPeers[i]);
      assert sortedPeers[..i] + [sortedPeers[i]] == sortedPeers[..i + 1];
      WritePeer(b2, env, sortedPeers[i]);
      if before.Some? { Join(before.value, PeerParts(env, sortedPeers[..i]), PeerPart(env, sortedPeers[i])); }
    }
    assert sortedPeers[..|sortedPeers|] == sortedPeers;
  }

  lemma IsRearranged(c: Config, ps: seq<Peer>)
    requires multiset(ps) == multiset(c.peers) && Ordered(ps, PeerLess)
    ensures Rearranged(c, ps)
  {
  }

  lemma {:induction false} OkRearranged(env: Env, c: Config, ps: seq<Peer>)
    requires Rearranged(c, ps)
    ensures PeersOk(env, ps) <==> PeersOk(env, c.peers)
  {
    hide PeerOk;
    SameElements(ps, c.peers);
    PeersOkIff(env, ps);
    PeersOkIff(env, c.peers);
  }

  lemma {:induction false} PeersOkIff(env: Env, ps: seq<Peer>)
    ensures PeersOk(env, ps) <==> forall p | p in ps :: PeerOk(env, p)
  {
    hide PeerOk;
  }

  lemma {:induction false} PeersEnd(env: Env, ps: seq<Peer>, p: Peer)
    ensures PeerParts(env, ps + [p]) == PeerParts(env, ps) + PeerPart(env, p)
    ensures PeersOk(env, ps + [p]) <==> PeersOk(env, ps) && PeerOk(env, p)
  {
    hide PeerPart, PeerOk;
    if ps == [] {
      assert [] + [p] == [p];
    } else {
      PeersEnd(env, ps[1..], p);
      assert (ps + [p])[1..] == ps[1..] + [p];
    }
    assert forall i | 0 <= i < |ps| :: (ps + [p])[i] == ps[i];
    assert (ps + [p])[|ps|] == p;
  }
}
