/** The parsing loop of conf/parser.go, in the form it has there, proved to compute ConfParser.Parse. */
module ConfReader {
  import opened Wrappers
  import opened Text
  import opened Netip
  import opened Config
  import opened ConfParser
  import ConfMeaning
  import TunnelName

  method ReadList(s: string) returns (r: Result<seq<string>, ParseError>)
    ensures r == SplitList(s)
  {
    hide TrimSpace;
    var parts := Split(s, ',');
    var out := [];
    assert parts[0..] == parts && forall rest: seq<string> :: [] + rest == rest;
    for i := 0 to |parts|
      invariant TrimAll(parts) == match TrimAll(parts[i..]) { case Err(e) => Err(e) case Ok(rest) => Ok(out + rest) }
    {
      var trim := TrimSpace(parts[i]);
      assert parts[i..][1..] == parts[i + 1..];
      if |trim| == 0 {
        return Err(EmptyListItem);
      }
      assert forall rest: seq<string> :: out + ([trim] + rest) == (out + [trim]) + rest;
      out := out + [trim];
    }
    assert out + [] == out;
    return Ok(out);
  }

  /** Appends the prefixes of a list to those already known. */
  method ReadPrefixes(net: Netip, val: string, known: seq<Prefix>) returns (r: Result<seq<Prefix>, ParseError>)
    ensures r == match ParsePrefixes(net, val) { case Err(e) => Err(e) case Ok(ps) => Ok(known + ps) }
  {
    hide SplitList, ParseIPCidr;
    var items := ReadList(val);
    if items.Err? {
      return Err(items.error);
    }
    var addresses := items.value;
    var all := known;
    assert addresses[0..] == addresses;
    for i := 0 to |addresses|
      invariant match ParseIPCidrs(net, addresses[i..]) { case Err(e) => Err(e) case Ok(ps) => Ok(all + ps) }
             == match ParseIPCidrs(net, addresses) { case Err(e) => Err(e) case Ok(ps) => Ok(known + ps) }
    {
      var a := ParseIPCidr(net, addresses[i]);
      assert addresses[i..][1..] == addresses[i + 1..];
      if a.Err? {
        return Err(a.error);
      }
      assert forall rest :: all + ([a.value] + rest) == (all + [a.value]) + rest;
      all := all + [a.value];
    }
    assert all + [] == all;
    return Ok(all);
  }

  method ReadServers(net: Netip, items: seq<string>, knownDNS: seq<Addr>, knownSearch: seq<string>)
    returns (dns: seq<Addr>, search: seq<string>)
    ensures dns == knownDNS + Servers(net, items)
    ensures search == knownSearch + SearchDomains(net, items)
  {
    dns, search := knownDNS, knownSearch;
    for i := 0 to |items|
      invariant dns + Servers(net, items[i..]) == knownDNS + Servers(net, items)
      invariant search + SearchDomains(net, items[i..]) == knownSearch + SearchDomains(net, items)
    {
      assert items[i..][1..] == items[i + 1..];
      var a := net.parseAddr(items[i]);
      if a.None? {
        search := search + [items[i]];
      } else {
        dns := dns + [a.value];
      }
    }
  }

  method ReadInterfaceField(net: Netip, before: Interface, key: ConfKey, val: string)
    returns (r: Result<Interface, ParseError>)
    ensures r == SetInterfaceField(net, before, key, val)
  {
    hide ParseKeyBase64, ParsePort, ParseMTU, ParseTableOff, ParsePrefixes, SplitList, Servers, SearchDomains;
    var interface := before;
    match key {
    case PrivateKey =>
      var k := ParseKeyBase64(val);
      if k.Err? { return Err(k.error); }
      interface := interface.(privateKey := k.value);
    case ListenPort =>
      var p := ParsePort(val);
      if p.Err? { return Err(p.error); }
      interface := interface.(listenPort := p.value);
    case MTU =>
      var m := ParseMTU(val);
      if m.Err? { return Err(m.error); }
      interface := interface.(mtu := m.value);
    case Address =>
      var addresses := ReadPrefixes(net, val, interface.addresses);
      if addresses.Err? { return Err(addresses.error); }
      interface := interface.(addresses := addresses.value);
    case DNS =>
      var items := ReadList(val);
      if items.Err? { return Err(items.error); }
      var dns, search := ReadServers(net, items.value, interface.dns, interface.dnsSearch);
      interface := interface.(dns := dns, dnsSearch := search);
    case PreUp => interface := interface.(preUp := val);
    case PostUp => interface := interface.(postUp := val);
    case PreDown => interface := interface.(preDown := val);
    case PostDown => interface := interface.(postDown := val);
    case Table =>
      var tableOff := ParseTableOff(val);
      if tableOff.Err? { return Err(tableOff.error); }
      interface := interface.(tableOff := tableOff.value);
    case _ => return Err(UnknownInterfaceKey);
    }
    return Ok(interface);
  }

  method ReadPeerField(net: Netip, before: Peer, key: ConfKey, val: string) returns (r: Result<Peer, ParseError>)
    ensures r == SetPeerField(net, before, key, val)
  {
    hide ParseKeyBase64, ParsePersistentKeepalive, ParseEndpoint, ParsePrefixes;
    var peer := before;
    match key {
    case PublicKey =>
      var k := ParseKeyBase64(val);
      if k.Err? { return Err(k.error); }
      peer := peer.(publicKey := k.value);
    case PresharedKey =>
      var k := ParseKeyBase64(val);
      if k.Err? { return Err(k.error); }
      peer := peer.(presharedKey := k.value);
    case AllowedIPs =>
      var addresses := ReadPrefixes(net, val, peer.allowedIPs);
      if addresses.Err? { return Err(addresses.error); }
      peer := peer.(allowedIPs := addresses.value);
    case PersistentKeepalive =>
      var p := ParsePersistentKeepalive(val);
      if p.Err? { return Err(p.error); }
      peer := peer.(persistentKeepalive := p.value);
    case EndpointKey =>
      var e := ParseEndpoint(net, val);
      if e.Err? { return Err(e.error); }
      peer := peer.(endpoint := e.value);
    case _ => return Err(UnknownPeerKey);
    }
    return Ok(peer);
  }

  /** The loop of PruneComments. */
  method CollapseBlankLines(run: seq<string>) returns (out: seq<string>)
    ensures out == Collapse(run)
  {
    out := [];
    for i := 0 to |run|
      invariant out == Collapse(run[..i])
    {
      assert run[..i + 1][..i] == run[..i];
      if !(run[i] == "" && |out| != 0 && out[|out| - 1] == "") {
        out := out + [run[i]];
      }
    }
    assert run[..|run|] == run;
  }

  method PruneComments(run: seq<string>, dropLeading: bool, dropTrailing: bool) returns (out: seq<string>)
    ensures out == Prune(run, dropLeading, dropTrailing)
  {
    hide Collapse;
    out := CollapseBlankLines(run);
    if dropLeading && |out| != 0 && out[0] == "" {
      out := out[1..];
    }
    if dropTrailing && |out| != 0 && out[|out| - 1] == "" {
      out := out[..|out| - 1];
    }
    if |out| == 0 || (|out| == 1 && out[0] == "") {
      out := [];
    }
  }

  /** Visits the keys in an unspecified order, deleting those whose comments vanish. */
  method PruneSectionComments(section: SectionComments) returns (s: SectionComments)
    ensures s == PruneSection(section)
  {
    hide Prune;
    var before := PruneComments(section.header.before, true, false);
    var lines := section.lines;
    var todo := section.lines.Keys;
    while todo != {}
      invariant todo <= section.lines.Keys && lines.Keys <= section.lines.Keys
      invariant forall k | k in todo :: k in lines && lines[k] == section.lines[k]
      invariant forall k | k in section.lines.Keys - todo ::
                  if PruneKey(section.lines[k]) == NO_COMMENTS then k !in lines
                  else k in lines && lines[k] == PruneKey(section.lines[k])
    {
      var key :| key in todo;
      var c := lines[key];
      var pruned := PruneComments(c.before, false, false);
      c := c.(before := pruned);
      if |c.before| == 0 && |c.suffix| == 0 {
        lines := lines - {key};
      } else {
        lines := lines[key := c];
      }
      todo := todo - {key};
    }
    s := SectionComments(section.header.(before := before), lines);
  }

  method FromWgQuick(net: Netip, s: string, name: string) returns (r: Result<Config, ParseError>)
    ensures r == Parse(net, s, name)
    ensures r.Ok? <==> ConfMeaning.Accepted(net, s, name)
    ensures r.Ok? ==> r.value.name == name && ConfMeaning.Means(net, s, r.value)
    ensures r.Err? ==> ConfMeaning.Refusal(net, s, name, r.error)
  {
    hide Scan, Split, Run, Step, Finish, TunnelName.IsValid, SetInterfaceField, SetPeerField, ConfMeaning.Accepted,
         ConfMeaning.Means, ConfMeaning.Refusal;
    ConfMeaning.ParseMeans(net, s, name);
    if Parse(net, s, name).Err? { ConfMeaning.ParseFails(net, s, name); }
    if !TunnelName.IsValid(name) {
      return Err(InvalidTunnelName);
    }
    var lines := Split(s, '\n');
    var state := START;
    assert lines[0..] == lines;
    for i := 0 to |lines|
      invariant Run(net, START, lines) == Run(net, state, lines[i..])
    {
      RunCons(net, state, lines, i);
      var next := ReadLine(net, state, lines[i]);
      if next.Err? {
        return Err(next.error);
      }
      state := next.value;
    }
    assert lines[|lines|..] == [];
    RunEmpty(net, state);
    r := FinishReading(state, name);
  }

  lemma RunEmpty(net: Netip, st: State)
    ensures Run(net, st, []) == Ok(st)
  {
  }

  lemma {:induction false} RunCons(net: Netip, st: State, lines: seq<string>, i: nat)
    requires i < |lines|
    ensures Run(net, st, lines[i..])
         == match Step(net, st, lines[i]) { case Err(e) => Err(e) case Ok(st') => Run(net, st', lines[i + 1..]) }
  {
    hide Step;
    assert lines[i..][0] == lines[i] && lines[i..][1..] == lines[i + 1..];
  }

  /** One turn of the loop over the lines. */
  method ReadLine(net: Netip, before: State, line: string) returns (r: Result<State, ParseError>)
    ensures r == Step(net, before, line)
  {
    hide TrimSpace, TrimRight, Find, ToLower, KeyOf, SetInterfaceField, SetPeerField, IsInterfaceTitle, IsPeerTitle, After,
         ConfParser.Before, IsHook;
    var conf, peers, peer := before.interface, before.peers, before.peer;
    var section, pendingComments, sawPrivateKey := before.section, before.pending, before.sawPrivateKey;
    var code, comment := ConfParser.Before(line, '#'), CommentOf(line);
    var stripped := TrimSpace(code);
    if |stripped| == 0 {
      return Ok(before.(pending := pendingComments + [comment]));
    }
    var hasValue := '=' in stripped;
    var name := ToLower(TrimSpace(ConfParser.Before(stripped, '=')));
    if IsInterfaceTitle(name) && !hasValue {
      peers := MaybeAddPeer(peers, peer);
      var h := conf.comments.header;
      h := h.(before := h.before + pendingComments);
      if |comment| != 0 {
        if |h.suffix| == 0 {
          h := h.(suffix := comment);
        } else {
          h := h.(suffix := h.suffix + " " + comment);
        }
      }
      conf := conf.(comments := conf.comments.(header := h));
      return Ok(State(InInterface, conf, peers, peer, [], sawPrivateKey));
    }
    if IsPeerTitle(name) && !hasValue {
      peers := MaybeAddPeer(peers, peer);
      peer := Some(EMPTY_PEER.(comments := SectionComments(Comments(pendingComments, comment), map[])));
      return Ok(State(InPeer, conf, peers, peer, [], sawPrivateKey));
    }
    if !InSection(before) {
      return Err(LineOutsideSection);
    }
    if !hasValue {
      return Err(MissingSeparator);
    }
    var key := KeyOf(name);
    var val := TrimSpace(After(stripped, '='));
    if key.Some? && IsHook(key.value) {
      val := TrimSpace(After(line, '='));
      comment := "";
    }
    if |val| == 0 {
      return Err(MissingValue);
    }
    if key.None? {
      return Err(if section.InInterface? then UnknownInterfaceKey else UnknownPeerKey);
    }
    r := ReadAssignment(net, before, key.value, val, comment);
  }

  /** Two suffixes of one key share its line, a space between them if both say something. */
  function JoinSuffixes(a: string, b: string): string {
    a + (if a != "" && b != "" then " " else "") + b
  }

  /** Attaches the waiting comment lines and the comment of the line itself to a key. */
  method NoteComments(before: SectionComments, key: ConfKey, pendingComments: seq<string>, comment: string)
    returns (section: SectionComments)
    ensures section == Annotate(before, key, pendingComments, comment)
    ensures Lookup(section.lines, key).before == Lookup(before.lines, key).before + pendingComments
    ensures Lookup(section.lines, key).suffix == JoinSuffixes(Lookup(before.lines, key).suffix, comment)
    ensures key in section.lines <==> key in before.lines || pendingComments != [] || comment != ""
    ensures section.lines - {key} == before.lines - {key} && section.header == before.header
  {
    section := before;
    if |pendingComments| != 0 || |comment| != 0 {
      var c := Lookup(section.lines, key);
      c := c.(before := c.before + pendingComments);
      if |comment| != 0 {
        if |c.suffix| == 0 {
          c := c.(suffix := comment);
        } else {
          c := c.(suffix := c.suffix + " " + comment);
        }
      }
      section := section.(lines := section.lines[key := c]);
    }
  }

  method ReadAssignment(net: Netip, before: State, key: ConfKey, val: string, comment: string)
    returns (r: Result<State, ParseError>)
    requires InSection(before)
    ensures r == Assign(net, before, key, val, comment)
  {
    hide SetInterfaceField, SetPeerField, Annotate;
    var conf, peer, pendingComments := before.interface, before.peer, before.pending;
    var section := conf.comments;
    if before.section.InPeer? {
      section := peer.value.comments;
    }
    section := NoteComments(section, key, pendingComments, comment);
    if before.section.InInterface? {
      var i := ReadInterfaceField(net, conf.(comments := section), key, val);
      if i.Err? {
        return Err(i.error);
      }
      var sawPrivateKey := before.sawPrivateKey;
      if key == PrivateKey {
        sawPrivateKey := true;
      }
      return Ok(before.(interface := i.value, pending := [], sawPrivateKey := sawPrivateKey));
    } else {
      var p := ReadPeerField(net, peer.value.(comments := section), key, val);
      if p.Err? {
        return Err(p.error);
      }
      return Ok(before.(peer := Some(p.value), pending := []));
    }
  }

  /** What is left to do after the last line. */
  method FinishReading(st: State, name: string) returns (r: Result<Config, ParseError>)
    ensures r == Finish(st, name)
  {
    hide Prune, PruneSection;
    var peers := MaybeAddPeer(st.peers, st.peer);
    var trailing := PruneComments(st.pending, false, true);
    var section := PruneSectionComments(st.interface.comments);
    var pruned := [];
    for i := 0 to |peers|
      invariant |pruned| == i
      invariant forall j | 0 <= j < i :: pruned[j] == peers[j].(comments := PruneSection(peers[j].comments))
    {
      var comments := PruneSectionComments(peers[i].comments);
      pruned := pruned + [peers[i].(comments := comments)];
    }
    assert pruned == PrunePeers(peers);
    if !st.sawPrivateKey {
      return Err(MissingPrivateKey);
    }
    for i := 0 to |pruned|
      invariant forall j | 0 <= j < i :: pruned[j].publicKey != ZERO_KEY
    {
      if pruned[i].publicKey == ZERO_KEY {
        return Err(MissingPublicKey);
      }
    }
    return Ok(Config(name, st.interface.(comments := section), pruned, trailing));
  }
}
