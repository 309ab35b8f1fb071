/** The parser of wg-quick text (conf/parser.go): what each line does to the configuration being built, and the loop
    that does it. */
module ConfParser {
  import opened Wrappers
  import opened Text
  import opened Netip
  import opened Config
  import Base64
  import TunnelName

  datatype ParseError =
    | InvalidTunnelName
    | LineOutsideSection
    | MissingSeparator
    | MissingValue
    | UnknownInterfaceKey
    | UnknownPeerKey
    | InvalidNumber
    | InvalidMTU
    | InvalidPort
    | InvalidKeepalive
    | InvalidBase64
    | InvalidKeyLength
    | EmptyListItem
    | InvalidAddress
    | MissingEndpointPort
    | InvalidEndpointHost
    | InvalidEndpointBrackets
    | MissingPrivateKey
    | MissingPublicKey

  // ---------------------------------------------------------------- values

  function ParseIPCidr(net: Netip, s: string): Result<Prefix, ParseError> {
    match net.parsePrefix(s)
    case Some(p) => Ok(p)
    case None =>
      match net.parseAddr(s)
      case Some(a) => Ok(PrefixFrom(a, a.BitLen()))
      case None => Err(InvalidAddress)
  }

  /** An integer between `low` and `high`; both errors of the number parsers. */
  function ParseRange(s: string, low: nat, high: nat, outside: ParseError): Result<UInt16, ParseError>
    requires high < 0x1_0000
  {
    match Atoi(s)
    case None => Err(InvalidNumber)
    case Some(m) => if m < low || m > high then Err(outside) else Ok(m)
  }

  function ParseMTU(s: string): Result<UInt16, ParseError> { ParseRange(s, 576, 65535, InvalidMTU) }

  function ParsePort(s: string): Result<UInt16, ParseError> { ParseRange(s, 0, 65535, InvalidPort) }

  function ParsePersistentKeepalive(s: string): Result<UInt16, ParseError> {
    if s == "off" then Ok(0) else ParseRange(s, 0, 65535, InvalidKeepalive)
  }

  function ParseTableOff(s: string): Result<bool, ParseError> {
    if s == "off" then Ok(true)
    else if s == "auto" || s == "main" || ParseUint(s, POW32).Some? then Ok(false)
    else Err(InvalidNumber)
  }

  function ParseKeyBase64(s: string): Result<Key, ParseError> {
    match Base64.Decode(s)
    case None => Err(InvalidBase64)
    case Some(k) => if |k| != KEY_LENGTH then Err(InvalidKeyLength) else Ok(k)
  }

  predicate Bracketed(host: string)
    requires host != ""
  {
    host[0] == '[' || host[|host| - 1] == ']' || ':' in host
  }

  predicate HoldsIPv6(net: Netip, host: string)
    requires host != ""
  {
    && |host| > 3
    && host[0] == '['
    && host[|host| - 1] == ']'
    && ':' in host
    && var percent := FindLast(host, '%');
       var end := if percent > 1 then percent else |host| - 1;
       var address := net.parseAddr(host[1..end]);
       address.Some? && address.value.V6?
  }

  function ParseEndpoint(net: Netip, s: string): Result<Endpoint, ParseError> {
    var i := FindLast(s, ':');
    if i < 0 then Err(MissingEndpointPort)
    else if i == 0 then Err(InvalidEndpointHost)
    else
      var host := s[..i];
      match ParsePort(s[i + 1..])
      case Err(e) => Err(e)
      case Ok(port) =>
        if !Bracketed(host) then Ok(Endpoint(host, port))
        else if HoldsIPv6(net, host) then Ok(Endpoint(host[1..|host| - 1], port))
        else Err(InvalidEndpointBrackets)
  }

  function TrimAll(parts: seq<string>): Result<seq<string>, ParseError> {
    if parts == [] then Ok([])
    else if TrimSpace(parts[0]) == "" then Err(EmptyListItem)
    else
      match TrimAll(parts[1..])
      case Err(e) => Err(e)
      case Ok(rest) => Ok([TrimSpace(parts[0])] + rest)
  }

  function SplitList(s: string): Result<seq<string>, ParseError> { TrimAll(Split(s, ',')) }

  function ParseIPCidrs(net: Netip, items: seq<string>): Result<seq<Prefix>, ParseError> {
    if items == [] then Ok([])
    else
      match ParseIPCidr(net, items[0])
      case Err(e) => Err(e)
      case Ok(p) =>
        match ParseIPCidrs(net, items[1..])
        case Err(e) => Err(e)
        case Ok(rest) => Ok([p] + rest)
  }

  /** A comma separated list of prefixes. */
  function ParsePrefixes(net: Netip, val: string): Result<seq<Prefix>, ParseError> {
    match SplitList(val)
    case Err(e) => Err(e)
    case Ok(items) => ParseIPCidrs(net, items)
  }

  /** The items of a DNS line that are addresses, and those that are search domains. */
  function Servers(net: Netip, items: seq<string>): seq<Addr> {
    if items == [] then []
    else (if net.parseAddr(items[0]).Some? then [net.parseAddr(items[0]).value] else []) + Servers(net, items[1..])
  }

  function SearchDomains(net: Netip, items: seq<string>): seq<string> {
    if items == [] then []
    else (if net.parseAddr(items[0]).Some? then [] else [items[0]]) + SearchDomains(net, items[1..])
  }

  // ---------------------------------------------------------------- lines

  predicate IsCommentPadding(c: char) { c == ' ' || c == '\t' || c == '\r' }

  function Before(s: string, c: char): string { s[..Find(s, c)] }

  function After(s: string, c: char): string { if Find(s, c) == |s| then "" else s[Find(s, c) + 1..] }

  function CommentOf(line: string): string {
    if Find(line, '#') == |line| then "" else "#" + TrimRight(After(line, '#'), IsCommentPadding)
  }

  /** The key with the given lower-case name. */
  function KeyOf(name: string): Option<ConfKey> {
    match name
    case "privatekey" => Some(PrivateKey)
    case "listenport" => Some(ListenPort)
    case "address" => Some(Address)
    case "dns" => Some(DNS)
    case "mtu" => Some(MTU)
    case "preup" => Some(PreUp)
    case "postup" => Some(PostUp)
    case "predown" => Some(PreDown)
    case "postdown" => Some(PostDown)
    case "table" => Some(Table)
    case "publickey" => Some(PublicKey)
    case "presharedkey" => Some(PresharedKey)
    case "allowedips" => Some(AllowedIPs)
    case "endpoint" => Some(EndpointKey)
    case "persistentkeepalive" => Some(PersistentKeepalive)
    case _ => None
  }

  /** Keys whose value is the whole rest of the line, hash signs included. */
  predicate IsHook(key: ConfKey) { key.PreUp? || key.PostUp? || key.PreDown? || key.PostDown? }

  datatype Line =
    | Blank(comment: string)
    | InterfaceHeader(comment: string)
    | PeerHeader(comment: string)
    | NoSeparator
    | Assignment(key: Option<ConfKey>, val: string, comment: string)

  predicate IsInterfaceTitle(name: string) { name == "[interface]" }

  predicate IsPeerTitle(name: string) { name == "[peer]" }

  function Scan(line: string): Line {
    var comment := CommentOf(line);
    var stripped := TrimSpace(Before(line, '#'));
    var name := ToLower(TrimSpace(Before(stripped, '=')));
    var hasValue := '=' in stripped;
    if stripped == "" then Blank(comment)
    else if IsInterfaceTitle(name) && !hasValue then InterfaceHeader(comment)
    else if IsPeerTitle(name) && !hasValue then PeerHeader(comment)
    else if !hasValue then NoSeparator
    else
      var key := KeyOf(name);
      if key.Some? && IsHook(key.value) then Assignment(key, TrimSpace(After(line, '=')), "")
      else Assignment(key, TrimSpace(After(stripped, '=')), comment)
  }

  // ---------------------------------------------------------------- one line

  datatype Section = InInterface | InPeer | NotInASection

  datatype State = State(
    section: Section,
    interface: Interface,
    peers: seq<Peer>,
    peer: Option<Peer>,
    pending: seq<string>,
    sawPrivateKey: bool)

  const START: State := State(NotInASection, EMPTY_INTERFACE, [], None, [], false)

  function MaybeAddPeer(peers: seq<Peer>, peer: Option<Peer>): seq<Peer> {
    match peer
    case None => peers
    case Some(p) => peers + [p]
  }

  /** Comments found later are appended to those found before. */
  function Merge(c: Comments, before: seq<string>, suffix: string): Comments {
    Comments(c.before + before,
             if suffix == "" then c.suffix else if c.suffix == "" then suffix else c.suffix + " " + suffix)
  }

  function Annotate(sc: SectionComments, key: ConfKey, before: seq<string>, suffix: string): SectionComments {
    if before == [] && suffix == "" then sc
    else sc.(lines := sc.lines[key := Merge(Lookup(sc.lines, key), before, suffix)])
  }

  function SetInterfaceField(net: Netip, i: Interface, key: ConfKey, val: string): Result<Interface, ParseError> {
    match key
    case PrivateKey =>
      (match ParseKeyBase64(val) case Err(e) => Err(e) case Ok(k) => Ok(i.(privateKey := k)))
    case ListenPort =>
      (match ParsePort(val) case Err(e) => Err(e) case Ok(p) => Ok(i.(listenPort := p)))
    case MTU =>
      (match ParseMTU(val) case Err(e) => Err(e) case Ok(m) => Ok(i.(mtu := m)))
    case Address =>
      (match ParsePrefixes(net, val) case Err(e) => Err(e) case Ok(ps) => Ok(i.(addresses := i.addresses + ps)))
    case DNS =>
      (match SplitList(val)
       case Err(e) => Err(e)
       case Ok(items) =>
         Ok(i.(dns := i.dns + Servers(net, items), dnsSearch := i.dnsSearch + SearchDomains(net, items))))
    case PreUp => Ok(i.(preUp := val))
    case PostUp => Ok(i.(postUp := val))
    case PreDown => Ok(i.(preDown := val))
    case PostDown => Ok(i.(postDown := val))
    case Table =>
      (match ParseTableOff(val) case Err(e) => Err(e) case Ok(t) => Ok(i.(tableOff := t)))
    case _ => Err(UnknownInterfaceKey)
  }

  function SetPeerField(net: Netip, p: Peer, key: ConfKey, val: string): Result<Peer, ParseError> {
    match key
    case PublicKey =>
      (match ParseKeyBase64(val) case Err(e) => Err(e) case Ok(k) => Ok(p.(publicKey := k)))
    case PresharedKey =>
      (match ParseKeyBase64(val) case Err(e) => Err(e) case Ok(k) => Ok(p.(presharedKey := k)))
    case AllowedIPs =>
      (match ParsePrefixes(net, val) case Err(e) => Err(e) case Ok(ps) => Ok(p.(allowedIPs := p.allowedIPs + ps)))
    case PersistentKeepalive =>
      (match ParsePersistentKeepalive(val) case Err(e) => Err(e) case Ok(k) => Ok(p.(persistentKeepalive := k)))
    case EndpointKey =>
      (match ParseEndpoint(net, val) case Err(e) => Err(e) case Ok(ep) => Ok(p.(endpoint := ep)))
    case _ => Err(UnknownPeerKey)
  }

  predicate InSection(st: State) {
    st.section.InInterface? || (st.section.InPeer? && st.peer.Some?)
  }

  function Assign(net: Netip, st: State, key: ConfKey, val: string, comment: string): Result<State, ParseError> {
    if st.section.InInterface? then
      var i := st.interface;
      match SetInterfaceField(net, i.(comments := Annotate(i.comments, key, st.pending, comment)), key, val)
      case Err(e) => Err(e)
      case Ok(i') =>
        Ok(st.(interface := i', pending := [], sawPrivateKey := st.sawPrivateKey || key == PrivateKey))
    else if InSection(st) then
      var p := st.peer.value;
      match SetPeerField(net, p.(comments := Annotate(p.comments, key, st.pending, comment)), key, val)
      case Err(e) => Err(e)
      case Ok(p') => Ok(st.(peer := Some(p'), pending := []))
    else Err(LineOutsideSection)
  }

  function Step(net: Netip, st: State, line: string): Result<State, ParseError> {
    match Scan(line)
    case Blank(comment) => Ok(st.(pending := st.pending + [comment]))
    case InterfaceHeader(comment) =>
      var c := st.interface.comments;
      Ok(st.(section := InInterface,
             peers := MaybeAddPeer(st.peers, st.peer),
             interface := st.interface.(comments := c.(header := Merge(c.header, st.pending, comment))),
             pending := []))
    case PeerHeader(comment) =>
      Ok(st.(section := InPeer,
             peers := MaybeAddPeer(st.peers, st.peer),
             peer := Some(EMPTY_PEER.(comments := SectionComments(Comments(st.pending, comment), map[]))),
             pending := []))
    case NoSeparator => if !InSection(st) then Err(LineOutsideSection) else Err(MissingSeparator)
    case Assignment(key, val, comment) =>
      if !InSection(st) then Err(LineOutsideSection)
      else if val == "" then Err(MissingValue)
      else if key.None? then Err(if st.section.InInterface? then UnknownInterfaceKey else UnknownPeerKey)
      else Assign(net, st, key.value, val, comment)
  }

  function Run(net: Netip, st: State, lines: seq<string>): Result<State, ParseError>
    decreases |lines|
  {
    if lines == [] then Ok(st)
    else
      match Step(net, st, lines[0])
      case Err(e) => Err(e)
      case Ok(st') => Run(net, st', lines[1..])
  }

  // ---------------------------------------------------------------- the end of the text

  /** Consecutive blank lines become one. */
  function Collapse(run: seq<string>): (out: seq<string>)
    ensures forall l | l in out :: l in run
  {
    if run == [] then []
    else
      var out := Collapse(run[..|run| - 1]);
      var last := run[|run| - 1];
      if last == "" && out != [] && out[|out| - 1] == "" then out else out + [last]
  }

  function Prune(run: seq<string>, dropLeading: bool, dropTrailing: bool): (out: seq<string>)
    ensures forall l | l in out :: l in run
  {
    var a := Collapse(run);
    var b := if dropLeading && a != [] && a[0] == "" then a[1..] else a;
    var c := if dropTrailing && b != [] && b[|b| - 1] == "" then b[..|b| - 1] else b;
    if c == [""] then [] else c
  }

  function PruneKey(c: Comments): Comments { c.(before := Prune(c.before, false, false)) }

  function PruneSection(sc: SectionComments): SectionComments {
    SectionComments(
      sc.header.(before := Prune(sc.header.before, true, false)),
      map k | k in sc.lines && PruneKey(sc.lines[k]) != NO_COMMENTS :: PruneKey(sc.lines[k]))
  }

  function PrunePeers(peers: seq<Peer>): (r: seq<Peer>)
    ensures |r| == |peers|
    ensures forall i | 0 <= i < |r| :: r[i] == peers[i].(comments := PruneSection(peers[i].comments))
  {
    seq(|peers|, i requires 0 <= i < |peers| => peers[i].(comments := PruneSection(peers[i].comments)))
  }

  predicate AllPublicKeysSet(peers: seq<Peer>) {
    forall i | 0 <= i < |peers| :: peers[i].publicKey != ZERO_KEY
  }

  function Finish(st: State, name: string): Result<Config, ParseError> {
    var peers := PrunePeers(MaybeAddPeer(st.peers, st.peer));
    if !st.sawPrivateKey then Err(MissingPrivateKey)
    else if !AllPublicKeysSet(peers) then Err(MissingPublicKey)
    else
      Ok(Config(name,
                st.interface.(comments := PruneSection(st.interface.comments)),
                peers,
                Prune(st.pending, false, true)))
  }

  /** What parsing a text under a tunnel name means. */
  function Parse(net: Netip, s: string, name: string): Result<Config, ParseError> {
    if !TunnelName.IsValid(name) then Err(InvalidTunnelName)
    else
      match Run(net, START, Split(s, '\n'))
      case Err(e) => Err(e)
      case Ok(st) => Finish(st, name)
  }
}
