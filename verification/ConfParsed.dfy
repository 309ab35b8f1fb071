/** Whatever the parser accepts is canonical. */
module ConfParsed {
  import opened Wrappers
  import opened Text
  import opened Netip
  import opened Config
  import opened ConfParser
  import opened ConfWriter
  import opened ConfCanonical
  import TunnelName

  // ---------------------------------------------------------------- lines

  lemma {:induction false} CommentOfClean(line: string)
    requires '\n' !in line
    ensures CommentLine(CommentOf(line))
  {
    if Find(line, '#') < |line| {
      var rest := TrimRight(After(line, '#'), IsCommentPadding);
      assert forall c | c in rest :: c in line;
    }
  }

  lemma {:induction false} CutKeepsOut(s: string, c: char, d: char)
    requires d !in s
    ensures d !in Before(s, c) && d !in After(s, c)
  {
  }

  lemma {:induction false} BeforeStops(s: string, c: char)
    ensures c !in Before(s, c)
  {
    FindAbsent(s, c);
  }

  lemma {:induction false} ValuesClean(line: string)
    requires '\n' !in line
    ensures var val := TrimSpace(After(TrimSpace(Before(line, '#')), '='));
            Trimmed(val) && '#' !in val && '\n' !in val
    ensures Trimmed(TrimSpace(After(line, '='))) && '\n' !in TrimSpace(After(line, '='))
  {
    hide Before, After, TrimSpace, Trimmed;
    var code := Before(line, '#');
    BeforeStops(line, '#');
    CutKeepsOut(line, '#', '\n');
    CutKeepsOut(line, '=', '\n');
    TrimKeepsOut(code, '#');
    TrimKeepsOut(code, '\n');
    CutKeepsOut(TrimSpace(code), '=', '#');
    CutKeepsOut(TrimSpace(code), '=', '\n');
    TrimKeepsOut(After(TrimSpace(code), '='), '#');
    TrimKeepsOut(After(TrimSpace(code), '='), '\n');
    TrimKeepsOut(After(line, '='), '\n');
  }

  /** The parts of a scanned line are free of the characters that would end them. */
  lemma {:induction false} ScanClean(line: string)
    requires '\n' !in line
    ensures match Scan(line)
            case Blank(c) => CommentLine(c)
            case InterfaceHeader(c) => CommentLine(c)
            case PeerHeader(c) => CommentLine(c)
            case NoSeparator => true
            case Assignment(key, val, c) =>
              && CommentLine(c) && Trimmed(val) && '\n' !in val
              && (if key.Some? && IsHook(key.value) then c == "" else '#' !in val)
  {
    hide ToLower, KeyOf, CommentOf, CommentLine, Before, After, TrimSpace, Trimmed, IsHook, IsInterfaceTitle, IsPeerTitle;
    CommentOfClean(line);
    ValuesClean(line);
    NoComment();
  }

  lemma NoComment()
    ensures CommentLine("")
  {
  }

  // ---------------------------------------------------------------- values

  lemma {:induction false} PrefixParsed(net: Netip, s: string)
    requires net.Lawful() && ParseIPCidr(net, s).Ok?
    ensures ParseIPCidr(net, s).value.Valid()
  {
  }

  lemma {:induction false} PrefixesParsed(net: Netip, items: seq<string>)
    requires net.Lawful() && ParseIPCidrs(net, items).Ok?
    ensures |ParseIPCidrs(net, items).value| == |items|
    ensures forall p | p in ParseIPCidrs(net, items).value :: p.Valid()
  {
    if items != [] {
      PrefixParsed(net, items[0]);
      PrefixesParsed(net, items[1..]);
    }
  }

  lemma {:induction false} TrimAllItems(parts: seq<string>)
    requires TrimAll(parts).Ok?
    requires forall i | 0 <= i < |parts| :: ',' !in parts[i] && '#' !in parts[i] && '\n' !in parts[i]
    ensures |TrimAll(parts).value| == |parts| && forall s | s in TrimAll(parts).value :: Item(s)
  {
    if parts != [] {
      TrimKeepsOut(parts[0], ',');
      TrimKeepsOut(parts[0], '#');
      TrimKeepsOut(parts[0], '\n');
      TrimAllItems(parts[1..]);
    }
  }

  lemma {:induction false} ListParsed(val: string)
    requires '#' !in val && '\n' !in val && SplitList(val).Ok?
    ensures SplitList(val).value != [] && forall s | s in SplitList(val).value :: Item(s)
  {
    SplitKeepsOut(val, ',', '#');
    SplitKeepsOut(val, ',', '\n');
    TrimAllItems(Split(val, ','));
  }

  lemma {:induction false} ServersParsed(net: Netip, items: seq<string>)
    requires net.Lawful() && forall s | s in items :: Item(s)
    ensures forall a | a in Servers(net, items) :: ServerOk(net, a)
    ensures forall d | d in SearchDomains(net, items) :: DomainOk(net, d)
    ensures |Servers(net, items)| + |SearchDomains(net, items)| == |items|
  {
    if items != [] {
      assert Item(items[0]);
      ServersParsed(net, items[1..]);
    }
  }

  lemma {:induction false} EndpointReparsed(net: Netip, host: string, port: UInt16)
    requires host != ""
    requires Bracketed(host) ==> HoldsIPv6(net, host)
    ensures ParseEndpoint(net, host + ":" + Decimal(port))
         == Ok(Endpoint(if Bracketed(host) then host[1..|host| - 1] else host, port))
  {
    DecimalClean(port, ':');
    AtoiDecimal(port);
    FindLastAt(host, ':', Decimal(port));
    assert host + ":" + Decimal(port) == host + [':'] + Decimal(port);
  }

  /** An accepted endpoint prints to a text that is accepted as the same endpoint. */
  lemma {:induction false} EndpointParsed(net: Netip, s: string)
    requires ValueText(s) && ParseEndpoint(net, s).Ok?
    ensures EndpointOk(net, ParseEndpoint(net, s).value) && ParseEndpoint(net, s).value.host != ""
  {
    hide Decimal, Atoi, FindLast, HoldsIPv6;
    var e := ParseEndpoint(net, s).value;
    var host := s[..FindLast(s, ':')];
    assert host[0] == s[0];
    DecimalClean(e.port, '#');
    DecimalClean(e.port, '\n');
    EndpointHost(net, s);
  }

  lemma {:induction false} Unbracket(host: string, port: string)
    requires |host| > 3 && host[0] == '[' && host[|host| - 1] == ']' && ':' in host
    ensures var inner := host[1..|host| - 1];
            inner != "" && ':' in inner && "[" + inner + "]:" + port == host + ":" + port
  {
    var j :| 0 <= j < |host| && host[j] == ':';
    var inner := host[1..|host| - 1];
    assert inner[j - 1] == ':';
    assert host == "[" + inner + "]";
    assert "]:" == "]" + ":";
  }

  lemma {:induction false} EndpointHost(net: Netip, s: string)
    requires ParseEndpoint(net, s).Ok?
    ensures var e := ParseEndpoint(net, s).value;
            var host := s[..FindLast(s, ':')];
            EndpointString(e) == host + ":" + Decimal(e.port)
            && e.host != "" && (Bracketed(host) ==> host == "[" + e.host + "]" && ':' in e.host)
  {
    hide Decimal, ParsePort, FindLast;
    var e := ParseEndpoint(net, s).value;
    var host := s[..FindLast(s, ':')];
    if Bracketed(host) {
      Unbracket(host, Decimal(e.port));
    }
  }

  // ---------------------------------------------------------------- sections

  lemma {:induction false} MergeClean(c: Comments, before: seq<string>, suffix: string)
    requires CleanComments(c) && (forall l | l in before :: CommentLine(l)) && CommentLine(suffix)
    ensures CleanComments(Merge(c, before, suffix))
    ensures c.suffix == "" && suffix == "" ==> Merge(c, before, suffix).suffix == ""
  {
    if suffix != "" && c.suffix != "" {
      var s := c.suffix + " " + suffix;
      assert s[0] == c.suffix[0] && s[|s| - 1] == suffix[|suffix| - 1];
    }
  }

  lemma {:induction false} AnnotateClean(sc: SectionComments, key: ConfKey, before: seq<string>, suffix: string)
    requires CleanSection(sc) && (forall l | l in before :: CommentLine(l)) && CommentLine(suffix)
    ensures CleanSection(Annotate(sc, key, before, suffix))
    ensures Annotate(sc, key, before, suffix).header == sc.header
    ensures forall k | k in Annotate(sc, key, before, suffix).lines :: k == key || k in sc.lines
    ensures forall k | k in Annotate(sc, key, before, suffix).lines && k != key ::
              Annotate(sc, key, before, suffix).lines[k] == sc.lines[k]
    ensures suffix == "" && (key in sc.lines ==> sc.lines[key].suffix == "") && key in Annotate(sc, key, before, suffix).lines
            ==> Annotate(sc, key, before, suffix).lines[key].suffix == ""
  {
    hide CommentLine, Merge;
    NoComment();
    assert CleanComments(NO_COMMENTS);
    MergeClean(Lookup(sc.lines, key), before, suffix);
  }

  /** A parsed field is one that will be printed, and the other fields stay so. */
  lemma {:induction false} InterfaceFieldSet(net: Netip, i: Interface, key: ConfKey, val: string)
    requires net.Lawful() && InterfaceFieldsOk(net, i) && SetInterfaceField(net, i, key, val).Ok?
    requires val != "" && Trimmed(val) && '\n' !in val && (IsHook(key) || '#' !in val)
    ensures var i' := SetInterfaceField(net, i, key, val).value;
            && InterfaceFieldsOk(net, i') && InterfaceHas(i', key) && i'.comments == i.comments
            && forall k | InterfaceHas(i, k) :: InterfaceHas(i', k)
  {
    hide Netip.Lawful, ParseKeyBase64, ParsePort, ParseTableOff, ParseIPCidrs, SplitList, Servers, SearchDomains, Prefix.Valid,
         ServerOk, DomainOk, Trimmed;
    if key == Address {
      ListParsed(val);
      PrefixesParsed(net, SplitList(val).value);
    } else if key == DNS {
      ListParsed(val);
      ServersParsed(net, SplitList(val).value);
    }
  }

  lemma {:induction false} PeerFieldSet(net: Netip, p: Peer, key: ConfKey, val: string)
    requires net.Lawful() && PeerFieldsOk(net, p) && SetPeerField(net, p, key, val).Ok?
    requires ValueText(val)
    ensures var p' := SetPeerField(net, p, key, val).value;
            && PeerFieldsOk(net, p') && PeerHas(p', key) && p'.comments == p.comments
            && forall k | PeerHas(p, k) :: PeerHas(p', k)
  {
    hide Netip.Lawful, ParseKeyBase64, ParsePersistentKeepalive, ParseIPCidrs, SplitList, Prefix.Valid, EndpointOk, ParseEndpoint, Trimmed;
    if key == AllowedIPs {
      ListParsed(val);
      PrefixesParsed(net, SplitList(val).value);
    } else if key == EndpointKey {
      EndpointParsed(net, val);
    }
  }

  lemma {:induction false} InterfaceAssigned(net: Netip, i: Interface, key: ConfKey, val: string, before: seq<string>, suffix: string)
    requires net.Lawful() && InterfaceOk(net, i)
    requires (forall l | l in before :: CommentLine(l)) && CommentLine(suffix)
    requires val != "" && Trimmed(val) && '\n' !in val && (if IsHook(key) then suffix == "" else '#' !in val)
    requires SetInterfaceField(net, i.(comments := Annotate(i.comments, key, before, suffix)), key, val).Ok?
    ensures InterfaceOk(net, SetInterfaceField(net, i.(comments := Annotate(i.comments, key, before, suffix)), key, val).value)
  {
    hide SetInterfaceField, Annotate, CleanComments, CommentLine, Trimmed, InterfaceHas, CleanSection, InterfaceFieldsOk;
    var i0 := i.(comments := Annotate(i.comments, key, before, suffix));
    AnnotateClean(i.comments, key, before, suffix);
    SameFields(net, i, i0.comments);
    InterfaceFieldSet(net, i0, key, val);
  }

  lemma SameFields(net: Netip, i: Interface, sc: SectionComments)
    ensures InterfaceFieldsOk(net, i.(comments := sc)) == InterfaceFieldsOk(net, i)
    ensures forall k :: InterfaceHas(i.(comments := sc), k) == InterfaceHas(i, k)
  {
  }

  lemma SamePeerFields(net: Netip, p: Peer, sc: SectionComments)
    ensures PeerFieldsOk(net, p.(comments := sc)) == PeerFieldsOk(net, p)
    ensures forall k :: PeerHas(p.(comments := sc), k) == PeerHas(p, k)
  {
  }

  lemma {:induction false} PeerAssigned(net: Netip, p: Peer, key: ConfKey, val: string, before: seq<string>, suffix: string)
    requires net.Lawful() && PeerOk(net, p)
    requires (forall l | l in before :: CommentLine(l)) && CommentLine(suffix)
    requires ValueText(val)
    requires SetPeerField(net, p.(comments := Annotate(p.comments, key, before, suffix)), key, val).Ok?
    ensures PeerOk(net, SetPeerField(net, p.(comments := Annotate(p.comments, key, before, suffix)), key, val).value)
  {
    hide SetPeerField, Annotate, CleanComments, CommentLine, ValueText, PeerHas, CleanSection, PeerFieldsOk;
    var p0 := p.(comments := Annotate(p.comments, key, before, suffix));
    AnnotateClean(p.comments, key, before, suffix);
    SamePeerFields(net, p, p0.comments);
    PeerFieldSet(net, p0, key, val);
  }

  // ---------------------------------------------------------------- whole texts

  ghost predicate StateOk(net: Netip, st: State) {
    && InterfaceOk(net, st.interface)
    && (forall p | p in MaybeAddPeer(st.peers, st.peer) :: PeerOk(net, p))
    && (forall p | p in st.peers :: PeerOk(net, p))
    && (forall l | l in st.pending :: CommentLine(l))
  }

  lemma {:induction false} StartOk(net: Netip)
    ensures StateOk(net, START)
  {
  }

  lemma {:induction false} HeaderOk(net: Netip, st: State, suffix: string)
    requires StateOk(net, st) && CommentLine(suffix)
    ensures InterfaceOk(net, st.interface.(comments := st.interface.comments.(
                header := Merge(st.interface.comments.header, st.pending, suffix))))
    ensures PeerOk(net, EMPTY_PEER.(comments := SectionComments(Comments(st.pending, suffix), map[])))
  {
    hide Merge, CommentLine, InterfaceFieldsOk, InterfaceHas;
    var c := st.interface.comments;
    MergeClean(c.header, st.pending, suffix);
    SameFields(net, st.interface, c.(header := Merge(c.header, st.pending, suffix)));
  }

  lemma {:induction false} StepOk(net: Netip, st: State, line: string)
    requires net.Lawful() && StateOk(net, st) && '\n' !in line && Step(net, st, line).Ok?
    ensures StateOk(net, Step(net, st, line).value)
  {
    hide Scan, CommentLine, InterfaceOk, PeerOk, SetInterfaceField, SetPeerField, Annotate, Merge, Trimmed, IsHook;
    ScanClean(line);
    match Scan(line)
    case Blank(c) =>
    case InterfaceHeader(c) => HeaderOk(net, st, c);
    case PeerHeader(c) => HeaderOk(net, st, c);
    case NoSeparator =>
    case Assignment(key, val, c) =>
      if st.section.InInterface? {
        InterfaceAssigned(net, st.interface, key.value, val, st.pending, c);
      } else {
        assert st.peer.value in MaybeAddPeer(st.peers, st.peer);
        AssignedToPeer(net, st, key.value, val, c);
      }
  }

  lemma {:induction false} AssignedToPeer(net: Netip, st: State, key: ConfKey, val: string, c: string)
    requires net.Lawful() && StateOk(net, st) && st.section.InPeer? && st.peer.Some?
    requires val != "" && Trimmed(val) && '\n' !in val && CommentLine(c) && (if IsHook(key) then c == "" else '#' !in val)
    requires Assign(net, st, key, val, c).Ok?
    ensures StateOk(net, Assign(net, st, key, val, c).value)
  {
    hide CommentLine, InterfaceOk, PeerOk, Annotate, Trimmed, ParsePrefixes, ParseKeyBase64, ParsePersistentKeepalive, ParseEndpoint;
    assert st.peer.value in MaybeAddPeer(st.peers, st.peer);
    assert !IsHook(key);
    PeerAssigned(net, st.peer.value, key, val, st.pending, c);
  }

  lemma {:induction false} RunOk(net: Netip, st: State, lines: seq<string>)
    requires net.Lawful() && StateOk(net, st) && Run(net, st, lines).Ok?
    requires forall i | 0 <= i < |lines| :: '\n' !in lines[i]
    ensures StateOk(net, Run(net, st, lines).value)
    decreases |lines|
  {
    hide Step, StateOk;
    if lines != [] {
      StepOk(net, st, lines[0]);
      RunOk(net, Step(net, st, lines[0]).value, lines[1..]);
    }
  }

  lemma {:induction false} PrunedInterfaceOk(net: Netip, i: Interface)
    requires InterfaceOk(net, i)
    ensures InterfaceOk(net, i.(comments := PruneSection(i.comments)))
  {
    hide InterfaceFieldsOk, InterfaceHas, Prune;
    SameFields(net, i, PruneSection(i.comments));
    PruneSectionTight(i.comments);
  }

  lemma {:induction false} PrunedPeerOk(net: Netip, p: Peer)
    requires PeerOk(net, p)
    ensures PeerOk(net, p.(comments := PruneSection(p.comments)))
  {
    hide PeerFieldsOk, PeerHas, Prune;
    SamePeerFields(net, p, PruneSection(p.comments));
    PruneSectionTight(p.comments);
  }

  lemma {:induction false} FinishOk(net: Netip, st: State, name: string)
    requires StateOk(net, st) && TunnelName.IsValid(name) && Finish(st, name).Ok?
    ensures Canonical(net, Finish(st, name).value)
  {
    hide InterfaceOk, PeerOk, PruneSection, Prune, Tight, TightSection, CommentLine, TunnelName.IsValid;
    var c := Finish(st, name).value;
    PrunedInterfaceOk(net, st.interface);
    PruneSectionTight(st.interface.comments);
    PruneTight(st.pending, false, true);
    var peers := MaybeAddPeer(st.peers, st.peer);
    forall i | 0 <= i < |c.peers|
      ensures PeerOk(net, c.peers[i]) && TightSection(c.peers[i].comments)
    {
      assert peers[i] in peers;
      PrunedPeerOk(net, peers[i]);
      PruneSectionTight(peers[i].comments);
    }
  }

  /** Every accepted text yields a canonical configuration. */
  lemma {:induction false} ParsedIsCanonical(net: Netip, s: string, name: string)
    requires net.Lawful() && Parse(net, s, name).Ok?
    ensures Canonical(net, Parse(net, s, name).value) && Parse(net, s, name).value.name == name
  {
    hide Run, Split, StateOk, Canonical, TunnelName.IsValid;
    StartOk(net);
    RunOk(net, START, Split(s, '\n'));
    FinishOk(net, Run(net, START, Split(s, '\n')).value, name);
  }
}
