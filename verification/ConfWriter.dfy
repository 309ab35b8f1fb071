/** The printer of wg-quick text (conf/writer.go): the lines it produces, and the code that appends them to a builder. */
module ConfWriter {
  import opened Text
  import opened Netip
  import opened Config
  import Base64

  /** The keys of an [Interface] section, in the order in which they are printed. */
  function InterfaceKey(n: nat): ConfKey
    requires n < 10
  {
    match n
    case 0 => PrivateKey
    case 1 => ListenPort
    case 2 => Address
    case 3 => DNS
    case 4 => MTU
    case 5 => PreUp
    case 6 => PostUp
    case 7 => PreDown
    case 8 => PostDown
    case _ => Table
  }

  /** The keys of a [Peer] section, in the order in which they are printed. */
  function PeerKey(n: nat): ConfKey
    requires n < 5
  {
    match n
    case 0 => PublicKey
    case 1 => PresharedKey
    case 2 => AllowedIPs
    case 3 => EndpointKey
    case _ => PersistentKeepalive
  }

  function Unlines(lines: seq<string>): string {
    if lines == [] then "" else lines[0] + "\n" + Unlines(lines[1..])
  }

  lemma {:induction false} UnlinesConcat(a: seq<string>, b: seq<string>)
    ensures Unlines(a + b) == Unlines(a) + Unlines(b)
  {
    if a == [] {
      assert a + b == b;
    } else {
      UnlinesConcat(a[1..], b);
      assert (a + b)[1..] == a[1..] + b;
    }
  }

  function PrefixStrings(net: Netip, ps: seq<Prefix>): seq<string> {
    if ps == [] then [] else [net.prefixString(ps[0])] + PrefixStrings(net, ps[1..])
  }

  function AddrStrings(net: Netip, addrs: seq<Addr>): seq<string> {
    if addrs == [] then [] else [net.addrString(addrs[0])] + AddrStrings(net, addrs[1..])
  }

  function EndpointString(e: Endpoint): string {
    if ':' in e.host then "[" + e.host + "]:" + Decimal(e.port) else e.host + ":" + Decimal(e.port)
  }

  // ---------------------------------------------------------------- the lines

  function CommentedLine(c: Comments, line: string): seq<string> {
    c.before + [if c.suffix == "" then line else line + " " + c.suffix]
  }

  function FieldLines(sc: SectionComments, key: ConfKey, present: bool, value: string): seq<string> {
    if !present && Lookup(sc.lines, key) == NO_COMMENTS then []
    else CommentedLine(Lookup(sc.lines, key), Spelling(key) + " = " + value)
  }

  /** A field without comments is one line, the key in its usual spelling. */
  lemma FieldTexts(header: Comments, value: string)
    ensures var bare := SectionComments(header, map[]);
            && FieldLines(bare, PrivateKey, true, value) == ["PrivateKey" + " = " + value]
            && FieldLines(bare, ListenPort, true, value) == ["ListenPort" + " = " + value]
            && FieldLines(bare, Address, true, value) == ["Address" + " = " + value]
            && FieldLines(bare, DNS, true, value) == ["DNS" + " = " + value]
            && FieldLines(bare, MTU, true, value) == ["MTU" + " = " + value]
            && FieldLines(bare, PreUp, true, value) == ["PreUp" + " = " + value]
            && FieldLines(bare, PostUp, true, value) == ["PostUp" + " = " + value]
            && FieldLines(bare, PreDown, true, value) == ["PreDown" + " = " + value]
            && FieldLines(bare, PostDown, true, value) == ["PostDown" + " = " + value]
            && FieldLines(bare, Table, true, value) == ["Table" + " = " + value]
            && FieldLines(bare, PublicKey, true, value) == ["PublicKey" + " = " + value]
            && FieldLines(bare, PresharedKey, true, value) == ["PresharedKey" + " = " + value]
            && FieldLines(bare, AllowedIPs, true, value) == ["AllowedIPs" + " = " + value]
            && FieldLines(bare, EndpointKey, true, value) == ["Endpoint" + " = " + value]
            && FieldLines(bare, PersistentKeepalive, true, value) == ["PersistentKeepalive" + " = " + value]
  {
  }

  /** Whether the writer considers the field at all: lists are skipped when empty, whatever their comments. */
  predicate InterfaceConsidered(i: Interface, key: ConfKey) {
    (key == Address ==> i.addresses != []) && (key == DNS ==> i.dns != [] || i.dnsSearch != [])
  }

  predicate InterfacePresent(i: Interface, key: ConfKey) {
    match key
    case ListenPort => i.listenPort > 0
    case MTU => i.mtu > 0
    case PreUp => i.preUp != ""
    case PostUp => i.postUp != ""
    case PreDown => i.preDown != ""
    case PostDown => i.postDown != ""
    case Table => i.tableOff
    case _ => true
  }

  function InterfaceValue(net: Netip, i: Interface, key: ConfKey): string {
    match key
    case PrivateKey => Base64.Encode(i.privateKey)
    case ListenPort => Decimal(i.listenPort)
    case Address => Join(PrefixStrings(net, i.addresses), ", ")
    case DNS => Join(AddrStrings(net, i.dns) + i.dnsSearch, ", ")
    case MTU => Decimal(i.mtu)
    case PreUp => i.preUp
    case PostUp => i.postUp
    case PreDown => i.preDown
    case PostDown => i.postDown
    case _ => if i.tableOff then "off" else "auto"
  }

  predicate PeerConsidered(p: Peer, key: ConfKey) { key == AllowedIPs ==> p.allowedIPs != [] }

  predicate PeerPresent(p: Peer, key: ConfKey) {
    match key
    case PresharedKey => p.presharedKey != ZERO_KEY
    case EndpointKey => !p.endpoint.IsEmpty()
    case PersistentKeepalive => p.persistentKeepalive > 0
    case _ => true
  }

  function PeerValue(net: Netip, p: Peer, key: ConfKey): string {
    match key
    case PublicKey => Base64.Encode(p.publicKey)
    case PresharedKey => Base64.Encode(p.presharedKey)
    case AllowedIPs => Join(PrefixStrings(net, p.allowedIPs), ", ")
    case EndpointKey => EndpointString(p.endpoint)
    case _ => Decimal(p.persistentKeepalive)
  }

  function InterfaceFieldLines(net: Netip, i: Interface, key: ConfKey): seq<string> {
    if !InterfaceConsidered(i, key) then []
    else FieldLines(i.comments, key, InterfacePresent(i, key), InterfaceValue(net, i, key))
  }

  /** The lines of the first n fields. */
  function InterfaceFields(net: Netip, i: Interface, n: nat): seq<string>
    requires n <= 10
  {
    if n == 0 then [] else InterfaceFields(net, i, n - 1) + InterfaceFieldLines(net, i, InterfaceKey(n - 1))
  }

  function PeerFieldLines(net: Netip, p: Peer, key: ConfKey): seq<string> {
    if !PeerConsidered(p, key) then []
    else FieldLines(p.comments, key, PeerPresent(p, key), PeerValue(net, p, key))
  }

  function PeerFields(net: Netip, p: Peer, n: nat): seq<string>
    requires n <= 5
  {
    if n == 0 then [] else PeerFields(net, p, n - 1) + PeerFieldLines(net, p, PeerKey(n - 1))
  }

  function InterfaceLines(net: Netip, i: Interface): seq<string> {
    CommentedLine(i.comments.header, "[Interface]") + InterfaceFields(net, i, 10)
  }

  function PeerLines(net: Netip, p: Peer): seq<string> {
    [""] + CommentedLine(p.comments.header, "[Peer]") + PeerFields(net, p, 5)
  }

  function AllPeerLines(net: Netip, ps: seq<Peer>): seq<string> {
    if ps == [] then [] else PeerLines(net, ps[0]) + AllPeerLines(net, ps[1..])
  }

  function PrintLines(net: Netip, c: Config): seq<string> {
    InterfaceLines(net, c.interface) + AllPeerLines(net, c.peers) + c.trailingComments
  }

  /** What printing a configuration means. */
  function Print(net: Netip, c: Config): string { Unlines(PrintLines(net, c)) }

  // ---------------------------------------------------------------- the code

  /** strings.Builder, with the lines it holds. */
  class Builder {
    var text: string
    ghost var lines: seq<string>

    ghost predicate Valid()
      reads this
    {
      text == Unlines(lines)
    }

    constructor ()
      ensures Valid() && lines == []
    {
      text := "";
      lines := [];
    }

    method WriteString(s: string)
      modifies this`text
      ensures text == old(text) + s
    {
      text := text + s;
    }

    method WriteByte(c: char)
      modifies this`text
      ensures text == old(text) + [c]
    {
      text := text + [c];
    }

    /** Declares that a whole line has just been written. */
    ghost method EndLine(line: string)
      requires text == Unlines(lines) + line + "\n"
      modifies this`lines
      ensures Valid() && lines == old(lines) + [line]
    {
      UnlinesConcat(lines, [line]);
      assert Unlines([line]) == line + "\n";
      lines := lines + [line];
    }

    method WriteBareLine(line: string)
      requires Valid()
      modifies this
      ensures Valid() && lines == old(lines) + [line]
    {
      WriteString(line);
      WriteByte('\n');
      EndLine(line);
    }

    method WriteLine(c: Comments, line: string)
      requires Valid()
      modifies this
      ensures Valid() && lines == old(lines) + CommentedLine(c, line)
    {
      for i := 0 to |c.before|
        invariant Valid() && lines == old(lines) + c.before[..i]
      {
        WriteBareLine(c.before[i]);
      }
      WriteString(line);
      ghost var whole := line;
      if |c.suffix| != 0 {
        WriteByte(' ');
        WriteString(c.suffix);
        whole := line + " " + c.suffix;
      }
      WriteByte('\n');
      assert text == Unlines(lines) + whole + "\n";
      EndLine(whole);
    }

    method WriteField(comments: SectionComments, key: ConfKey, present: bool, value: string)
      requires Valid()
      modifies this
      ensures Valid() && lines == old(lines) + FieldLines(comments, key, present, value)
    {
      var c := Lookup(comments.lines, key);
      if !present && |c.before| == 0 && |c.suffix| == 0 {
        return;
      }
      WriteLine(c, Spelling(key) + " = " + value);
    }
  }

  method StringsOfPrefixes(net: Netip, ps: seq<Prefix>) returns (strings: seq<string>)
    ensures strings == PrefixStrings(net, ps)
  {
    strings := [];
    for i := 0 to |ps|
      invariant strings + PrefixStrings(net, ps[i..]) == PrefixStrings(net, ps)
    {
      strings := strings + [net.prefixString(ps[i])];
      assert ps[i..][1..] == ps[i + 1..];
    }
  }

  method StringsOfAddrs(net: Netip, addrs: seq<Addr>) returns (strings: seq<string>)
    ensures strings == AddrStrings(net, addrs)
  {
    strings := [];
    for i := 0 to |addrs|
      invariant strings + AddrStrings(net, addrs[i..]) == AddrStrings(net, addrs)
    {
      strings := strings + [net.addrString(addrs[i])];
      assert addrs[i..][1..] == addrs[i + 1..];
    }
  }

  lemma InterfaceNoFields(net: Netip, i: Interface)
    ensures InterfaceFields(net, i, 0) == []
  {
  }

  lemma PeerNoFields(net: Netip, p: Peer)
    ensures PeerFields(net, p, 0) == []
  {
  }

  lemma SkipInterfaceField(net: Netip, i: Interface, n: nat)
    requires n < 10 && !InterfaceConsidered(i, InterfaceKey(n))
    ensures InterfaceFields(net, i, n + 1) == InterfaceFields(net, i, n)
  {
  }

  lemma SkipPeerField(net: Netip, p: Peer, n: nat)
    requires n < 5 && !PeerConsidered(p, PeerKey(n))
    ensures PeerFields(net, p, n + 1) == PeerFields(net, p, n)
  {
  }

  /** The n-th field of an interface, written after the fields before it. */
  method WriteInterfaceField(net: Netip, output: Builder, i: Interface, key: ConfKey, present: bool, value: string,
                             ghost start: seq<string>, ghost n: nat)
    requires n < 10 && key == InterfaceKey(n)
    requires present == InterfacePresent(i, key) && value == InterfaceValue(net, i, key)
    requires InterfaceConsidered(i, key)
    requires output.Valid() && output.lines == start + InterfaceFields(net, i, n)
    modifies output
    ensures output.Valid() && output.lines == start + InterfaceFields(net, i, n + 1)
  {
    hide InterfaceValue, InterfacePresent, FieldLines, Unlines;
    output.WriteField(i.comments, key, present, value);
  }

  method WriteInterface(net: Netip, output: Builder, i: Interface)
    requires output.Valid()
    modifies output
    ensures output.Valid() && output.lines == old(output.lines) + InterfaceLines(net, i)
  {
    hide InterfaceFields, InterfaceFieldLines, FieldLines, Decimal, Join, Base64.Encode, PrefixStrings, AddrStrings, CommentedLine, Unlines;
    InterfaceNoFields(net, i);
    output.WriteLine(i.comments.header, "[Interface]");
    ghost var start := output.lines;
    WriteInterfaceField(net, output, i, PrivateKey, true, Base64.Encode(i.privateKey), start, 0);
    WriteInterfaceField(net, output, i, ListenPort, i.listenPort > 0, Decimal(i.listenPort), start, 1);
    if |i.addresses| > 0 {
      var addrStrings := StringsOfPrefixes(net, i.addresses);
      WriteInterfaceField(net, output, i, Address, true, Join(addrStrings, ", "), start, 2);
    } else {
      SkipInterfaceField(net, i, 2);
    }
    if |i.dns| + |i.dnsSearch| > 0 {
      var addrStrings := StringsOfAddrs(net, i.dns);
      WriteInterfaceField(net, output, i, DNS, true, Join(addrStrings + i.dnsSearch, ", "), start, 3);
    } else {
      SkipInterfaceField(net, i, 3);
    }
    WriteInterfaceField(net, output, i, MTU, i.mtu > 0, Decimal(i.mtu), start, 4);
    WriteHooksAndTable(net, output, i, start);
  }

  method WriteHooksAndTable(net: Netip, output: Builder, i: Interface, ghost start: seq<string>)
    requires output.Valid() && output.lines == start + InterfaceFields(net, i, 5)
    modifies output
    ensures output.Valid() && output.lines == start + InterfaceFields(net, i, 10)
  {
    hide InterfaceFields, InterfaceFieldLines, FieldLines, Decimal, Join, Base64.Encode, PrefixStrings, AddrStrings, Unlines;
    WriteInterfaceField(net, output, i, PreUp, i.preUp != "", i.preUp, start, 5);
    WriteInterfaceField(net, output, i, PostUp, i.postUp != "", i.postUp, start, 6);
    WriteInterfaceField(net, output, i, PreDown, i.preDown != "", i.preDown, start, 7);
    WriteInterfaceField(net, output, i, PostDown, i.postDown != "", i.postDown, start, 8);
    var table := "auto";
    if i.tableOff {
      table := "off";
    }
    WriteInterfaceField(net, output, i, Table, i.tableOff, table, start, 9);
  }

  method WritePeerField(net: Netip, output: Builder, p: Peer, key: ConfKey, present: bool, value: string,
                        ghost start: seq<string>, ghost n: nat)
    requires n < 5 && key == PeerKey(n)
    requires present == PeerPresent(p, key) && value == PeerValue(net, p, key) && PeerConsidered(p, key)
    requires output.Valid() && output.lines == start + PeerFields(net, p, n)
    modifies output
    ensures output.Valid() && output.lines == start + PeerFields(net, p, n + 1)
  {
    hide PeerValue, PeerPresent, FieldLines, Unlines;
    output.WriteField(p.comments, key, present, value);
  }

  method WritePeer(net: Netip, output: Builder, peer: Peer)
    requires output.Valid()
    modifies output
    ensures output.Valid() && output.lines == old(output.lines) + PeerLines(net, peer)
  {
    hide PeerFields, CommentedLine, Unlines;
    output.WriteBareLine("");
    output.WriteLine(peer.comments.header, "[Peer]");
    WritePeerFields(net, output, peer);
  }

  method WritePeerFields(net: Netip, output: Builder, peer: Peer)
    requires output.Valid()
    modifies output
    ensures output.Valid() && output.lines == old(output.lines) + PeerFields(net, peer, 5)
  {
    hide PeerFields, PeerFieldLines, FieldLines, Decimal, Join, Base64.Encode, PrefixStrings, EndpointString, CommentedLine, Unlines;
    PeerNoFields(net, peer);
    ghost var start := output.lines;
    WritePeerField(net, output, peer, PublicKey, true, Base64.Encode(peer.publicKey), start, 0);
    WritePeerField(net, output, peer, PresharedKey, peer.presharedKey != ZERO_KEY, Base64.Encode(peer.presharedKey),
                   start, 1);
    if |peer.allowedIPs| > 0 {
      var addrStrings := StringsOfPrefixes(net, peer.allowedIPs);
      WritePeerField(net, output, peer, AllowedIPs, true, Join(addrStrings, ", "), start, 2);
    } else {
      SkipPeerField(net, peer, 2);
    }
    WritePeerField(net, output, peer, EndpointKey, !peer.endpoint.IsEmpty(), EndpointString(peer.endpoint), start, 3);
    WritePeerField(net, output, peer, PersistentKeepalive, peer.persistentKeepalive > 0,
                   Decimal(peer.persistentKeepalive), start, 4);
  }

  method ToWgQuick(net: Netip, conf: Config) returns (text: string)
    ensures text == Print(net, conf)
  {
    hide InterfaceLines, PeerLines;
    var output := new Builder();
    WriteInterface(net, output, conf.interface);
    for i := 0 to |conf.peers|
      invariant output.Valid()
      invariant output.lines + AllPeerLines(net, conf.peers[i..])
             == InterfaceLines(net, conf.interface) + AllPeerLines(net, conf.peers)
    {
      WritePeer(net, output, conf.peers[i]);
      assert conf.peers[i..][1..] == conf.peers[i + 1..];
    }
    ghost var sections := output.lines;
    for i := 0 to |conf.trailingComments|
      invariant output.Valid() && output.lines == sections + conf.trailingComments[..i]
    {
      output.WriteBareLine(conf.trailingComments[i]);
    }
    assert conf.trailingComments[..|conf.trailingComments|] == conf.trailingComments;
    assert sections == InterfaceLines(net, conf.interface) + AllPeerLines(net, conf.peers);
    text := output.text;
  }
}
