/** Printing a canonical configuration and parsing the text gives the configuration back. */
module ConfRoundTrip {
  import opened Wrappers
  import opened Text
  import opened Netip
  import opened Config
  import opened ConfParser
  import opened ConfWriter
  import opened ConfCanonical
  import ConfParsed
  import Base64
  import TunnelName

  // ---------------------------------------------------------------- scanning printed lines

  lemma {:induction false} ScanCommentLine(l: string)
    requires CommentLine(l)
    ensures Scan(l) == Blank(l)
  {
    hide ToLower, KeyOf;
    TrimId("");
    if l == "" {
      assert Before(l, '#') == "";
    } else {
      assert Before(l, '#') == "";
      assert l == "#" + l[1..];
      TrimRightOf(l[1..], "", IsCommentPadding);
      assert l[1..] + "" == l[1..];
    }
  }

  function WithSuffix(body: string, suffix: string): string {
    if suffix == "" then body else body + " " + suffix
  }

  /** The code and the comment of a printed line. */
  lemma {:induction false} CodeAndComment(body: string, suffix: string)
    requires Trimmed(body) && '#' !in body && CommentLine(suffix)
    ensures TrimSpace(Before(WithSuffix(body, suffix), '#')) == body
    ensures CommentOf(WithSuffix(body, suffix)) == suffix
  {
    if suffix == "" {
      FindAbsent(body, '#');
      assert body[..|body|] == body;
      TrimId(body);
    } else {
      CommentAfter(body, suffix);
    }
  }

  lemma {:induction false} CommentAfter(body: string, suffix: string)
    requires Trimmed(body) && '#' !in body && CommentText(suffix)
    ensures TrimSpace(Before(body + " " + suffix, '#')) == body
    ensures CommentOf(body + " " + suffix) == suffix
  {
    hide TrimSpace, TrimRight, Trimmed;
    var rest := suffix[1..];
    assert suffix == "#" + rest;
    assert body + " " + suffix == (body + " ") + ['#'] + rest;
    FindAt(body + " ", '#', rest);
    TrimAfter(body);
    TrimRightOf(rest, "", IsCommentPadding);
    assert rest + "" == rest;
  }

  lemma TitleText()
    ensures ToLower("[Interface]") == "[interface]" && '#' !in "[Interface]" && '=' !in "[Interface]"
    ensures ToLower("[Peer]") == "[peer]" && '#' !in "[Peer]" && '=' !in "[Peer]"
    ensures Trimmed("[Interface]") && Trimmed("[Peer]")
  {
  }

  lemma {:induction false} ScanTitle(suffix: string)
    requires CommentLine(suffix)
    ensures Scan(WithSuffix("[Interface]", suffix)) == InterfaceHeader(suffix)
    ensures Scan(WithSuffix("[Peer]", suffix)) == PeerHeader(suffix)
  {
    hide ToLower, CommentLine, CommentOf, KeyOf, WithSuffix, TrimSpace, Trimmed, Before;
    TitleText();
    CodeAndComment("[Interface]", suffix);
    CodeAndComment("[Peer]", suffix);
    TrimId("[Interface]");
    TrimId("[Peer]");
    WholeBefore("[Interface]");
    WholeBefore("[Peer]");
  }

  lemma {:induction false} WholeBefore(s: string)
    requires '=' !in s
    ensures Before(s, '=') == s
  {
    FindAbsent(s, '=');
  }

  function LowerName(k: ConfKey): string {
    match k
    case PrivateKey => "privatekey"
    case ListenPort => "listenport"
    case Address => "address"
    case DNS => "dns"
    case MTU => "mtu"
    case PreUp => "preup"
    case PostUp => "postup"
    case PreDown => "predown"
    case PostDown => "postdown"
    case Table => "table"
    case PublicKey => "publickey"
    case PresharedKey => "presharedkey"
    case AllowedIPs => "allowedips"
    case EndpointKey => "endpoint"
    case PersistentKeepalive => "persistentkeepalive"
  }

  lemma LowerNames1(k: ConfKey)
    requires k.PrivateKey? || k.ListenPort? || k.Address? || k.DNS? || k.MTU?
    ensures ToLower(Spelling(k)) == LowerName(k)
  {
  }

  lemma LowerNames2(k: ConfKey)
    requires k.PreUp? || k.PostUp? || k.PreDown? || k.PostDown? || k.Table?
    ensures ToLower(Spelling(k)) == LowerName(k)
  {
  }

  lemma LowerNames3(k: ConfKey)
    requires k.PublicKey? || k.PresharedKey? || k.AllowedIPs?
    ensures ToLower(Spelling(k)) == LowerName(k)
  {
  }

  lemma LowerNames4(k: ConfKey)
    requires k.EndpointKey? || k.PersistentKeepalive?
    ensures ToLower(Spelling(k)) == LowerName(k)
  {
  }

  lemma NameIsKey(k: ConfKey)
    ensures KeyOf(LowerName(k)) == Some(k)
  {
  }

  lemma NameIsNoTitle(k: ConfKey)
    ensures !IsInterfaceTitle(LowerName(k)) && !IsPeerTitle(LowerName(k))
  {
  }

  /** The printed spelling of a key is read as that key. */
  lemma KeyNames(k: ConfKey)
    ensures var name := ToLower(Spelling(k));
            KeyOf(name) == Some(k) && !IsInterfaceTitle(name) && !IsPeerTitle(name)
  {
    hide ToLower, Spelling, LowerName, KeyOf, IsInterfaceTitle, IsPeerTitle;
    NameIsKey(k);
    NameIsNoTitle(k);
    if k.PrivateKey? || k.ListenPort? || k.Address? || k.DNS? || k.MTU? {
      LowerNames1(k);
    } else if k.PreUp? || k.PostUp? || k.PreDown? || k.PostDown? || k.Table? {
      LowerNames2(k);
    } else if k.PublicKey? || k.PresharedKey? || k.AllowedIPs? {
      LowerNames3(k);
    } else {
      LowerNames4(k);
    }
  }

  lemma SpellingWithoutHash(k: ConfKey)
    ensures '#' !in Spelling(k)
  {
  }

  lemma SpellingWithoutEquals(k: ConfKey)
    ensures '=' !in Spelling(k)
  {
  }

  lemma SpellingWithoutNewline(k: ConfKey)
    ensures '\n' !in Spelling(k)
  {
  }

  lemma SpellingTrimmed(k: ConfKey)
    ensures Spelling(k) != "" && Trimmed(Spelling(k))
  {
  }

  lemma SpellingClean(k: ConfKey)
    ensures var s := Spelling(k);
            s != "" && Trimmed(s) && '#' !in s && '=' !in s && '\n' !in s
  {
    hide Spelling;
    SpellingWithoutHash(k);
    SpellingWithoutEquals(k);
    SpellingWithoutNewline(k);
    SpellingTrimmed(k);
  }

  // ---------------------------------------------------------------- scanning fields

  /** A line of a key that may carry a comment. */
  lemma {:induction false} ScanField(k: ConfKey, v: string, suffix: string)
    requires !IsHook(k) && ValueText(v) && CommentLine(suffix)
    ensures Scan(WithSuffix(Spelling(k) + " = " + v, suffix)) == Assignment(Some(k), v, suffix)
  {
    hide Spelling, ToLower, KeyOf, CommentLine, CommentOf, WithSuffix, TrimSpace, IsInterfaceTitle, IsPeerTitle;
    var s := Spelling(k);
    SpellingClean(k);
    KeyNames(k);
    var body := s + " = " + v;
    CodeAndComment(body, suffix);
    assert body == (s + " ") + ['='] + (" " + v);
    FindAt(s + " ", '=', " " + v);
    TrimAfter(s);
    TrimBefore(v);
  }

  /** Trimming keeps everything up to a character that is not white space. */
  lemma {:induction false} TrimKeepsHead(head: string, tail: string)
    requires head != "" && Trimmed(head)
    ensures head <= TrimSpace(head + tail)
  {
    hide TrimLeft, TrimRight;
    var s := head + tail;
    assert s[0] == head[0];
    TrimLeftOf("", s, IsSpace);
    assert "" + s == s;
    var r := TrimRight(s, IsSpace);
    assert s[|head| - 1] == head[|head| - 1];
    assert head == s[..|head|];
  }

  /** A hook's value is the rest of the line, whatever the cut at a hash sign leaves of it. */
  lemma {:induction false} ScanHook(k: ConfKey, v: string)
    requires IsHook(k) && HookOk(v)
    ensures Scan(Spelling(k) + " = " + v) == Assignment(Some(k), v, "")
  {
    hide Spelling, ToLower, KeyOf, CommentOf, TrimSpace, Trimmed, IsInterfaceTitle, IsPeerTitle, IsSpace;
    var s := Spelling(k);
    SpellingClean(k);
    KeyNames(k);
    var line := s + " = " + v;
    var head := s + " =";
    assert line == (s + " ") + ['='] + (" " + v);
    FindAt(s + " ", '=', " " + v);
    TrimBefore(v);
    TrimAfter(s);
    HeadBeforeHash(k, v);
    var stripped := TrimSpace(Before(line, '#'));
    assert head <= stripped;
    var more := stripped[|head|..];
    assert stripped == (s + " ") + ['='] + more;
    FindAt(s + " ", '=', more);
  }

  lemma {:induction false} HeadBeforeHash(k: ConfKey, v: string)
    ensures Spelling(k) + " =" <= TrimSpace(Before(Spelling(k) + " = " + v, '#'))
  {
    hide Spelling, TrimSpace, Trimmed;
    SpellingClean(k);
    var s := Spelling(k);
    var head := s + " =";
    var line := s + " = " + v;
    assert line == head + (" " + v);
    assert Trimmed(head) by {
      HeadTrimmed(s);
    }
    var code := Before(line, '#');
    assert '#' !in head;
    assert forall i | 0 <= i < |head| :: line[i] == head[i];
    assert code == head + code[|head|..];
    TrimKeepsHead(head, code[|head|..]);
  }

  lemma {:induction false} HeadTrimmed(s: string)
    requires s != "" && Trimmed(s)
    ensures Trimmed(s + " =")
  {
    assert (s + " =")[0] == s[0];
  }

  // ---------------------------------------------------------------- printed values

  lemma {:induction false} DecimalText(n: nat)
    ensures ValueText(Decimal(n))
  {
    DecimalClean(n, '#');
    DecimalClean(n, '\n');
  }

  lemma {:induction false} KeyText(k: Key)
    ensures ValueText(Base64.Encode(k)) && ParseKeyBase64(Base64.Encode(k)) == Ok(k)
  {
    hide Base64.Encode, Base64.Decode;
    Base64.EncodeShape(k);
    Base64.DecodeEncode(k);
  }

  lemma {:induction false} JoinText(items: seq<string>)
    requires items != [] && forall s | s in items :: Item(s)
    ensures ValueText(Join(items, ", "))
  {
    assert Item(items[0]);
    if |items| > 1 {
      var rest := Join(items[1..], ", ");
      JoinText(items[1..]);
      var all := items[0] + ", " + rest;
      assert all[0] == items[0][0] && all[|all| - 1] == rest[|rest| - 1];
    }
  }

  lemma {:induction false} TrimAllCons(part: string, rest: seq<string>)
    requires TrimSpace(part) != "" && TrimAll(rest).Ok?
    ensures TrimAll([part] + rest) == Ok([TrimSpace(part)] + TrimAll(rest).value)
  {
    hide TrimSpace;
    assert ([part] + rest)[1..] == rest;
  }

  lemma {:induction false} TrimAllJoined(pre: string, items: seq<string>)
    requires pre == "" || pre == " "
    requires items != [] && forall s | s in items :: Item(s)
    ensures TrimAll(Split(pre + Join(items, ", "), ',')) == Ok(items)
    decreases |items|
  {
    hide TrimSpace, Trimmed, Split, TrimAll;
    var first := pre + items[0];
    assert Item(items[0]);
    FirstTrimmed(pre, items[0]);
    if |items| == 1 {
      NoItems();
      SplitSingle(first, ',');
      TrimAllCons(first, []);
      assert [first] + [] == [first];
      assert pre + Join(items, ", ") == first;
      assert TrimAll([first]) == Ok([items[0]] + []);
      assert items == [items[0]] + [];
    } else {
      var rest := " " + Join(items[1..], ", ");
      assert pre + Join(items, ", ") == first + [','] + rest;
      SplitCons(first, ',', rest);
      TrimAllJoined(" ", items[1..]);
      TrimAllCons(first, Split(rest, ','));
      assert items == [items[0]] + items[1..];
    }
  }

  lemma NoItems()
    ensures TrimAll([]) == Ok([])
  {
  }

  lemma {:induction false} FirstTrimmed(pre: string, item: string)
    requires (pre == "" || pre == " ") && Item(item)
    ensures TrimSpace(pre + item) == item && ',' !in pre + item
  {
    if pre == "" {
      assert pre + item == item;
      TrimId(item);
    } else {
      TrimBefore(item);
    }
  }

  /** A printed list is read as its items. */
  lemma {:induction false} SplitListJoined(items: seq<string>)
    requires items != [] && forall s | s in items :: Item(s)
    ensures SplitList(Join(items, ", ")) == Ok(items)
  {
    TrimAllJoined("", items);
    assert "" + Join(items, ", ") == Join(items, ", ");
  }

  lemma {:induction false} PrefixReads(net: Netip, p: Prefix)
    requires net.Lawful() && p.Valid()
    ensures Item(net.prefixString(p)) && ParseIPCidr(net, net.prefixString(p)) == Ok(p)
  {
    hide Item;
  }

  /** A canonical endpoint is read back from its text. */
  lemma {:induction false} EndpointReads(net: Netip, e: Endpoint)
    requires EndpointOk(net, e) && e.host != ""
    ensures ParseEndpoint(net, EndpointString(e)) == Ok(e) && ValueText(EndpointString(e))
  {
    hide Decimal, ParseEndpoint, ValueText, HoldsIPv6, FindLast;
    if ':' in e.host {
      var host := "[" + e.host + "]";
      assert host[1..|host| - 1] == e.host;
      ConfParsed.EndpointReparsed(net, host, e.port);
      assert "[" + e.host + "]:" + Decimal(e.port) == host + ":" + Decimal(e.port) by { assert "]:" == "]" + ":"; }
    } else {
      ConfParsed.EndpointReparsed(net, e.host, e.port);
    }
  }

  lemma {:induction false} PrefixStringsParse(net: Netip, ps: seq<Prefix>)
    requires net.Lawful()
    requires forall p | p in ps :: p.Valid()
    ensures |PrefixStrings(net, ps)| == |ps|
    ensures forall s | s in PrefixStrings(net, ps) :: Item(s)
    ensures ParseIPCidrs(net, PrefixStrings(net, ps)) == Ok(ps)
  {
    hide ParseIPCidr, Item;
    if ps != [] {
      assert ps[0].Valid();
      PrefixReads(net, ps[0]);
      PrefixStringsParse(net, ps[1..]);
      assert ps == [ps[0]] + ps[1..];
    }
  }

  lemma {:induction false} PrefixListText(net: Netip, ps: seq<Prefix>)
    requires net.Lawful()
    requires ps != [] && forall p | p in ps :: p.Valid()
    ensures var v := Join(PrefixStrings(net, ps), ", "); ValueText(v) && ParsePrefixes(net, v) == Ok(ps)
  {
    hide Netip.Lawful, PrefixStrings, Join, SplitList, ParseIPCidrs, Prefix.Valid, Item, ValueText;
    PrefixStringsParse(net, ps);
    JoinText(PrefixStrings(net, ps));
    SplitListJoined(PrefixStrings(net, ps));
  }

  lemma {:induction false} SearchStringsParse(net: Netip, search: seq<string>)
    requires forall d | d in search :: DomainOk(net, d)
    ensures Servers(net, search) == [] && SearchDomains(net, search) == search
  {
    hide Item;
    if search != [] {
      assert DomainOk(net, search[0]);
      SearchStringsParse(net, search[1..]);
      assert search == [search[0]] + search[1..];
    }
  }

  lemma {:induction false} ServerStringsParse(net: Netip, dns: seq<Addr>, search: seq<string>)
    requires net.Lawful()
    requires (forall a | a in dns :: ServerOk(net, a)) && (forall d | d in search :: DomainOk(net, d))
    ensures var items := AddrStrings(net, dns) + search;
            Servers(net, items) == dns && SearchDomains(net, items) == search
    ensures |AddrStrings(net, dns)| == |dns| && forall s | s in AddrStrings(net, dns) :: Item(s)
  {
    hide Item;
    var items := AddrStrings(net, dns) + search;
    if dns == [] {
      SearchStringsParse(net, search);
      assert items == search;
    } else {
      assert ServerOk(net, dns[0]);
      ServerStringsParse(net, dns[1..], search);
      assert items[1..] == AddrStrings(net, dns[1..]) + search;
      assert dns == [dns[0]] + dns[1..];
    }
  }

  lemma {:induction false} ServerListText(net: Netip, dns: seq<Addr>, search: seq<string>)
    requires net.Lawful()
    requires dns != [] || search != []
    requires (forall a | a in dns :: ServerOk(net, a)) && (forall d | d in search :: DomainOk(net, d))
    ensures var items := AddrStrings(net, dns) + search;
            ValueText(Join(items, ", ")) && SplitList(Join(items, ", ")) == Ok(items)
    ensures Servers(net, AddrStrings(net, dns) + search) == dns
    ensures SearchDomains(net, AddrStrings(net, dns) + search) == search
  {
    hide Netip.Lawful, AddrStrings, Servers, SearchDomains, Join, SplitList, Item, ValueText, ServerOk;
    var items := AddrStrings(net, dns) + search;
    ServerStringsParse(net, dns, search);
    JoinText(items);
    SplitListJoined(items);
  }

  // ---------------------------------------------------------------- running printed lines

  lemma {:induction false} RunConcat(net: Netip, st: State, a: seq<string>, b: seq<string>)
    ensures Run(net, st, a + b)
         == match Run(net, st, a) { case Err(e) => Err(e) case Ok(st') => Run(net, st', b) }
    decreases |a|
  {
    hide Step;
    if a == [] {
      assert a + b == b;
    } else {
      assert (a + b)[1..] == a[1..] + b;
      if Step(net, st, a[0]).Ok? {
        RunConcat(net, Step(net, st, a[0]).value, a[1..], b);
      }
    }
  }

  lemma {:induction false} RunOne(net: Netip, st: State, line: string)
    ensures Run(net, st, [line]) == Step(net, st, line)
  {
    hide Step;
    assert [line][1..] == [];
  }

  /** Comment lines wait for the line they belong to. */
  lemma {:induction false} RunComments(net: Netip, st: State, lines: seq<string>)
    requires forall l | l in lines :: CommentLine(l)
    ensures Run(net, st, lines) == Ok(st.(pending := st.pending + lines))
    decreases |lines|
  {
    hide Scan, CommentLine;
    if lines == [] {
      assert st.pending + lines == st.pending;
    } else {
      ScanCommentLine(lines[0]);
      var st' := st.(pending := st.pending + [lines[0]]);
      assert Step(net, st, lines[0]) == Ok(st');
      RunComments(net, st', lines[1..]);
      assert st'.pending + lines[1..] == st.pending + lines;
    }
  }

  lemma {:induction false} RunCommentedLine(net: Netip, st: State, c: Comments, body: string)
    requires CleanComments(c)
    ensures Run(net, st, CommentedLine(c, body))
         == Step(net, st.(pending := st.pending + c.before), WithSuffix(body, c.suffix))
  {
    hide Step, CommentLine;
    RunComments(net, st, c.before);
    RunConcat(net, st, c.before, [WithSuffix(body, c.suffix)]);
    RunOne(net, st.(pending := st.pending + c.before), WithSuffix(body, c.suffix));
  }

  // ---------------------------------------------------------------- interface fields

  function InterfacePosition(k: ConfKey): nat {
    match k
    case PrivateKey => 0
    case ListenPort => 1
    case Address => 2
    case DNS => 3
    case MTU => 4
    case PreUp => 5
    case PostUp => 6
    case PreDown => 7
    case PostDown => 8
    case Table => 9
    case _ => 10
  }

  function MaskLines(lines: map<ConfKey, Comments>, position: ConfKey -> nat, n: nat): map<ConfKey, Comments> {
    map k | k in lines && position(k) < n :: lines[k]
  }

  /** The interface as it is after its first n fields have been read. */
  function MaskInterface(i: Interface, n: nat): Interface {
    Interface(
      if n > 0 then i.privateKey else ZERO_KEY,
      if n > 2 then i.addresses else [],
      if n > 1 then i.listenPort else 0,
      if n > 4 then i.mtu else 0,
      if n > 3 then i.dns else [],
      if n > 3 then i.dnsSearch else [],
      if n > 5 then i.preUp else "",
      if n > 6 then i.postUp else "",
      if n > 7 then i.preDown else "",
      if n > 8 then i.postDown else "",
      n > 9 && i.tableOff,
      SectionComments(i.comments.header, MaskLines(i.comments.lines, InterfacePosition, n)))
  }

  ghost predicate InterfacePrinted(i: Interface, k: ConfKey) {
    InterfaceConsidered(i, k) && (InterfacePresent(i, k) || Lookup(i.comments.lines, k) != NO_COMMENTS)
  }

  lemma {:induction false} AnnotateMasked(sc: SectionComments, position: ConfKey -> nat, n: nat, k: ConfKey)
    requires position(k) == n && forall j | position(j) == n :: j == k
    requires TightSection(sc)
    ensures var c := Lookup(sc.lines, k);
            Annotate(sc.(lines := MaskLines(sc.lines, position, n)), k, c.before, c.suffix)
            == sc.(lines := MaskLines(sc.lines, position, n + 1))
  {
    hide Tight;
    var c := Lookup(sc.lines, k);
    var before, after := MaskLines(sc.lines, position, n), MaskLines(sc.lines, position, n + 1);
    assert k !in before;
    if k in sc.lines {
      assert c != NO_COMMENTS;
      assert Merge(NO_COMMENTS, c.before, c.suffix) == c by {
        assert [] + c.before == c.before;
      }
      assert before[k := c] == after;
    } else {
      assert before == after;
    }
  }

  lemma {:induction false} MaskSkips(i: Interface, n: nat)
    requires n < 10 && InterfaceCommentsOk(i) && !InterfacePrinted(i, InterfaceKey(n)) && TightSection(i.comments)
    ensures MaskInterface(i, n + 1) == MaskInterface(i, n)
  {
    hide Tight;
    var k := InterfaceKey(n);
    assert k !in i.comments.lines;
    assert MaskLines(i.comments.lines, InterfacePosition, n + 1) == MaskLines(i.comments.lines, InterfacePosition, n);
  }

  /** Reading the printed value of the n-th field sets exactly that field. */
  lemma {:induction false} InterfaceFieldRead(net: Netip, i: Interface, n: nat, sc: SectionComments)
    requires net.Lawful()
    requires n < 10 && InterfaceFieldsOk(net, i) && InterfaceCommentsOk(i) && InterfacePrinted(i, InterfaceKey(n))
    requires TightSection(i.comments)
    ensures var k := InterfaceKey(n);
            var v := InterfaceValue(net, i, k);
            && SetInterfaceField(net, MaskInterface(i, n).(comments := sc), k, v)
               == Ok(MaskInterface(i, n + 1).(comments := sc))
            && (if IsHook(k) then v != "" && HookOk(v) else ValueText(v))
  {
    hide Netip.Lawful, ParseKeyBase64, Base64.Encode, Decimal, Atoi, ParseUint, SplitList, Join, PrefixStrings, AddrStrings, Servers,
         SearchDomains, ParsePrefixes, Prefix.Valid, ServerOk, DomainOk, MaskLines, Tight, ValueText, HookOk;
    var k := InterfaceKey(n);
    assert k in i.comments.lines ==> InterfaceHas(i, k);
    match k
    case PrivateKey => KeyText(i.privateKey);
    case ListenPort =>
      DecimalText(i.listenPort);
      AtoiDecimal(i.listenPort);
    case MTU =>
      DecimalText(i.mtu);
      AtoiDecimal(i.mtu);
    case Address =>
      PrefixListText(net, i.addresses);
      assert [] + i.addresses == i.addresses;
    case DNS =>
      ServerListText(net, i.dns, i.dnsSearch);
      assert [] + i.dns == i.dns && [] + i.dnsSearch == i.dnsSearch;
    case Table => TableText();
    case _ =>
  }

  lemma TableText()
    ensures ValueText("off") && ValueText("auto")
    ensures ParseTableOff("off") == Ok(true) && ParseTableOff("auto") == Ok(false)
  {
    assert "auto"[0] != "off"[0];
  }

  lemma {:induction false} ScanKeyLine(k: ConfKey, v: string, c: Comments)
    requires CleanComments(c)
    requires if IsHook(k) then v != "" && HookOk(v) && c.suffix == "" else ValueText(v)
    ensures Scan(WithSuffix(Spelling(k) + " = " + v, c.suffix)) == Assignment(Some(k), v, c.suffix) && v != ""
  {
    hide Scan, CommentLine, Spelling;
    if IsHook(k) {
      ScanHook(k, v);
    } else {
      ScanField(k, v, c.suffix);
    }
  }

  lemma {:induction false} OwnComments(sc: SectionComments, k: ConfKey)
    requires CleanSection(sc)
    ensures CleanComments(Lookup(sc.lines, k))
  {
    hide CommentLine;
    ConfParsed.NoComment();
  }

  /** The lines of the n-th field take the state from n fields read to n + 1 fields read. */
  lemma {:induction false} RunInterfaceField(net: Netip, st: State, i: Interface, n: nat)
    requires net.Lawful()
    requires n < 10 && InterfaceOk(net, i) && TightSection(i.comments)
    requires st.section.InInterface? && st.pending == [] && st.interface == MaskInterface(i, n)
    ensures Run(net, st, InterfaceFieldLines(net, i, InterfaceKey(n)))
         == Ok(st.(interface := MaskInterface(i, n + 1), sawPrivateKey := st.sawPrivateKey || n == 0))
  {
    hide Netip.Lawful, Run, Scan, Spelling, InterfaceValue, CommentedLine, SetInterfaceField, Annotate, InterfaceFieldsOk, CleanComments,
         ValueText, HookOk, MaskLines, Tight;
    var k := InterfaceKey(n);
    var c := Lookup(i.comments.lines, k);
    var v := InterfaceValue(net, i, k);
    if InterfacePrinted(i, k) {
      var masked := MaskInterface(i, n);
      var noted := i.comments.(lines := MaskLines(i.comments.lines, InterfacePosition, n + 1));
      OwnComments(i.comments, k);
      RunCommentedLine(net, st, c, Spelling(k) + " = " + v);
      InterfaceFieldRead(net, i, n, noted);
      ScanKeyLine(k, v, c);
      AnnotateMasked(i.comments, InterfacePosition, n, k);
      assert [] + c.before == c.before;
    } else {
      MaskSkips(i, n);
      assert n != 0;
      RunNothing(net, st);
    }
  }

  lemma {:induction false} RunNothing(net: Netip, st: State)
    ensures Run(net, st, []) == Ok(st)
  {
  }

  lemma {:induction false} RunInterfaceFields(net: Netip, st: State, i: Interface, n: nat)
    requires net.Lawful()
    requires n <= 10 && InterfaceOk(net, i) && TightSection(i.comments)
    requires st.section.InInterface? && st.pending == [] && st.interface == MaskInterface(i, 0)
    ensures Run(net, st, InterfaceFields(net, i, n))
         == Ok(st.(interface := MaskInterface(i, n), sawPrivateKey := st.sawPrivateKey || n > 0))
  {
    hide Netip.Lawful, Run, InterfaceFieldLines, MaskInterface, InterfaceOk, TightSection;
    if n == 0 {
      RunNothing(net, st);
    } else {
      RunInterfaceFields(net, st, i, n - 1);
      var st' := st.(interface := MaskInterface(i, n - 1), sawPrivateKey := st.sawPrivateKey || n > 1);
      RunInterfaceField(net, st', i, n - 1);
      RunConcat(net, st, InterfaceFields(net, i, n - 1), InterfaceFieldLines(net, i, InterfaceKey(n - 1)));
    }
  }

  lemma {:induction false} MaskAll(i: Interface)
    requires InterfaceCommentsOk(i)
    ensures MaskInterface(i, 10) == i
  {
    assert MaskLines(i.comments.lines, InterfacePosition, 10) == i.comments.lines;
  }

  lemma {:induction false} MaskNone(i: Interface)
    ensures MaskInterface(i, 0) == EMPTY_INTERFACE.(comments := SectionComments(i.comments.header, map[]))
  {
    assert MaskLines(i.comments.lines, InterfacePosition, 0) == map[];
  }

  lemma {:induction false} RunInterface(net: Netip, i: Interface)
    requires net.Lawful()
    requires InterfaceOk(net, i) && TightSection(i.comments)
    ensures Run(net, START, InterfaceLines(net, i)) == Ok(State(InInterface, i, [], None, [], true))
  {
    hide Netip.Lawful, Run, Scan, CommentedLine, InterfaceFields, MaskInterface, CleanComments, TightSection, InterfaceFieldsOk, Merge;
    var c := i.comments.header;
    RunCommentedLine(net, START, c, "[Interface]");
    HeaderSuffix(c);
    ScanTitle(c.suffix);
    MaskNone(i);
    MergeNothing(c);
    var st := State(InInterface, MaskInterface(i, 0), [], None, [], false);
    RunInterfaceFields(net, st, i, 10);
    MaskAll(i);
    RunConcat(net, START, CommentedLine(c, "[Interface]"), InterfaceFields(net, i, 10));
  }

  lemma {:induction false} HeaderSuffix(c: Comments)
    requires CleanComments(c)
    ensures CommentLine(c.suffix)
  {
  }

  lemma {:induction false} MergeNothing(c: Comments)
    ensures Merge(NO_COMMENTS, START.pending + c.before, c.suffix) == c
  {
    assert [] + ([] + c.before) == c.before;
  }

  // ---------------------------------------------------------------- peer fields

  function PeerPosition(k: ConfKey): nat {
    match k
    case PublicKey => 0
    case PresharedKey => 1
    case AllowedIPs => 2
    case EndpointKey => 3
    case PersistentKeepalive => 4
    case _ => 5
  }

  /** The peer as it is after its first n fields have been read. */
  function MaskPeer(p: Peer, n: nat): Peer {
    Peer(
      if n > 0 then p.publicKey else ZERO_KEY,
      if n > 1 then p.presharedKey else ZERO_KEY,
      if n > 2 then p.allowedIPs else [],
      if n > 3 then p.endpoint else Endpoint("", 0),
      if n > 4 then p.persistentKeepalive else 0,
      SectionComments(p.comments.header, MaskLines(p.comments.lines, PeerPosition, n)))
  }

  ghost predicate PeerPrinted(p: Peer, k: ConfKey) {
    PeerConsidered(p, k) && (PeerPresent(p, k) || Lookup(p.comments.lines, k) != NO_COMMENTS)
  }

  /** The comments of the keys of a section are tight, whatever the header is. */
  ghost predicate TightLines(sc: SectionComments) {
    forall k | k in sc.lines :: Tight(sc.lines[k].before, false, false) && sc.lines[k] != NO_COMMENTS
  }

  lemma {:induction false} PeerMaskSkips(net: Netip, p: Peer, n: nat)
    requires n < 5 && PeerFieldsOk(net, p) && PeerCommentsOk(p) && !PeerPrinted(p, PeerKey(n)) && TightLines(p.comments)
    ensures MaskPeer(p, n + 1) == MaskPeer(p, n)
  {
    hide Tight, Prefix.Valid, ParseEndpoint;
    var k := PeerKey(n);
    assert k !in p.comments.lines;
    assert MaskLines(p.comments.lines, PeerPosition, n + 1) == MaskLines(p.comments.lines, PeerPosition, n);
  }

  lemma {:induction false} PeerFieldRead(net: Netip, p: Peer, n: nat, sc: SectionComments)
    requires net.Lawful()
    requires n < 5 && PeerFieldsOk(net, p) && PeerCommentsOk(p) && PeerPrinted(p, PeerKey(n)) && TightLines(p.comments)
    ensures var k := PeerKey(n);
            var v := PeerValue(net, p, k);
            && SetPeerField(net, MaskPeer(p, n).(comments := sc), k, v) == Ok(MaskPeer(p, n + 1).(comments := sc))
            && ValueText(v)
  {
    hide Netip.Lawful, ParseKeyBase64, Base64.Encode, Decimal, Atoi, Join, PrefixStrings, ParsePrefixes, Prefix.Valid, ParseEndpoint,
         EndpointString, MaskLines, Tight, ValueText;
    var k := PeerKey(n);
    assert k in p.comments.lines ==> PeerHas(p, k);
    match k
    case PublicKey => KeyText(p.publicKey);
    case PresharedKey => KeyText(p.presharedKey);
    case AllowedIPs =>
      PrefixListText(net, p.allowedIPs);
      assert [] + p.allowedIPs == p.allowedIPs;
    case PersistentKeepalive =>
      DecimalText(p.persistentKeepalive);
      AtoiDecimal(p.persistentKeepalive);
      DecimalIsNotOff(p.persistentKeepalive);
    case EndpointKey => EndpointReads(net, p.endpoint);
    case _ =>
  }

  lemma {:induction false} DecimalIsNotOff(n: nat)
    ensures Decimal(n) != "off"
  {
    assert !IsDigit("off"[0]);
  }

  lemma {:induction false} PeerAnnotateMasked(sc: SectionComments, n: nat, k: ConfKey)
    requires PeerPosition(k) == n && n < 5
    requires TightLines(sc)
    ensures var c := Lookup(sc.lines, k);
            Annotate(sc.(lines := MaskLines(sc.lines, PeerPosition, n)), k, c.before, c.suffix)
            == sc.(lines := MaskLines(sc.lines, PeerPosition, n + 1))
  {
    hide Annotate, MaskLines;
    assert TightSection(SectionComments(NO_COMMENTS, sc.lines));
    AnnotateMasked(SectionComments(NO_COMMENTS, sc.lines), PeerPosition, n, k);
    AnnotateKeepsHeader(SectionComments(NO_COMMENTS, MaskLines(sc.lines, PeerPosition, n)), sc.header, k,
                        Lookup(sc.lines, k));
  }

  lemma {:induction false} AnnotateKeepsHeader(sc: SectionComments, header: Comments, k: ConfKey, c: Comments)
    ensures Annotate(sc.(header := header), k, c.before, c.suffix)
         == Annotate(sc, k, c.before, c.suffix).(header := header)
  {
  }

  lemma {:induction false} RunPeerField(net: Netip, st: State, p: Peer, n: nat)
    requires net.Lawful()
    requires n < 5 && PeerOk(net, p) && TightLines(p.comments)
    requires st.section.InPeer? && st.pending == [] && st.peer == Some(MaskPeer(p, n))
    ensures Run(net, st, PeerFieldLines(net, p, PeerKey(n))) == Ok(st.(peer := Some(MaskPeer(p, n + 1))))
  {
    hide Netip.Lawful, Run, Scan, Spelling, PeerValue, CommentedLine, SetPeerField, Annotate, PeerFieldsOk, CleanComments,
         ValueText, MaskLines, Tight;
    var k := PeerKey(n);
    var c := Lookup(p.comments.lines, k);
    var v := PeerValue(net, p, k);
    if PeerPrinted(p, k) {
      var noted := p.comments.(lines := MaskLines(p.comments.lines, PeerPosition, n + 1));
      OwnComments(p.comments, k);
      RunCommentedLine(net, st, c, Spelling(k) + " = " + v);
      PeerFieldRead(net, p, n, noted);
      ScanKeyLine(k, v, c);
      PeerAnnotateMasked(p.comments, n, k);
      assert [] + c.before == c.before;
    } else {
      PeerMaskSkips(net, p, n);
      RunNothing(net, st);
    }
  }

  lemma {:induction false} RunPeerFields(net: Netip, st: State, p: Peer, n: nat)
    requires net.Lawful()
    requires n <= 5 && PeerOk(net, p) && TightLines(p.comments)
    requires st.section.InPeer? && st.pending == [] && st.peer == Some(MaskPeer(p, 0))
    ensures Run(net, st, PeerFields(net, p, n)) == Ok(st.(peer := Some(MaskPeer(p, n))))
  {
    hide Netip.Lawful, Run, PeerFieldLines, MaskPeer, PeerOk, TightLines;
    if n == 0 {
      RunNothing(net, st);
    } else {
      RunPeerFields(net, st, p, n - 1);
      RunPeerField(net, st.(peer := Some(MaskPeer(p, n - 1))), p, n - 1);
      RunConcat(net, st, PeerFields(net, p, n - 1), PeerFieldLines(net, p, PeerKey(n - 1)));
    }
  }

  lemma {:induction false} MaskAllPeer(p: Peer)
    requires PeerCommentsOk(p)
    ensures MaskPeer(p, 5) == p
  {
    assert MaskLines(p.comments.lines, PeerPosition, 5) == p.comments.lines;
  }

  lemma {:induction false} MaskNonePeer(p: Peer)
    ensures MaskPeer(p, 0) == EMPTY_PEER.(comments := SectionComments(p.comments.header, map[]))
  {
    assert MaskLines(p.comments.lines, PeerPosition, 0) == map[];
  }

  /** A peer as it is read, with the blank line that the writer put before it. */
  function Loosen(p: Peer): Peer {
    p.(comments := p.comments.(header := p.comments.header.(before := [""] + p.comments.header.before)))
  }

  lemma {:induction false} LooseFieldLines(net: Netip, p: Peer, n: nat)
    requires n <= 5
    ensures PeerFields(net, Loosen(p), n) == PeerFields(net, p, n)
  {
    hide PeerValue;
    if n > 0 {
      LooseFieldLines(net, p, n - 1);
      assert PeerValue(net, Loosen(p), PeerKey(n - 1)) == PeerValue(net, p, PeerKey(n - 1)) by {
        LooseValue(net, p, PeerKey(n - 1));
      }
    }
  }

  lemma {:induction false} LooseValue(net: Netip, p: Peer, k: ConfKey)
    ensures PeerValue(net, Loosen(p), k) == PeerValue(net, p, k)
  {
  }

  lemma {:induction false} LooseOk(net: Netip, p: Peer)
    requires PeerOk(net, p) && TightSection(p.comments)
    ensures PeerOk(net, Loosen(p)) && TightLines(Loosen(p).comments)
  {
    hide Prefix.Valid, EndpointOk, Tight;
  }

  lemma {:induction false} RunPeer(net: Netip, st: State, p: Peer)
    requires net.Lawful()
    requires PeerOk(net, p) && TightSection(p.comments) && st.pending == []
    ensures Run(net, st, PeerLines(net, p))
         == Ok(st.(section := InPeer, peers := MaybeAddPeer(st.peers, st.peer), peer := Some(Loosen(p))))
  {
    hide Netip.Lawful, Run, Scan, CommentedLine, PeerFields, MaskPeer, CleanComments, TightSection, PeerFieldsOk, Merge, TightLines;
    var c := p.comments.header;
    var st0 := st.(pending := [""]);
    RunOneBlank(net, st);
    RunCommentedLine(net, st0, c, "[Peer]");
    HeaderSuffix(c);
    ScanTitle(c.suffix);
    LooseOk(net, p);
    MaskNonePeer(Loosen(p));
    var st1 := st.(section := InPeer, peers := MaybeAddPeer(st.peers, st.peer), peer := Some(MaskPeer(Loosen(p), 0)));
    assert Run(net, st0, CommentedLine(c, "[Peer]")) == Ok(st1);
    RunPeerFields(net, st1, Loosen(p), 5);
    LooseFieldLines(net, p, 5);
    MaskAllPeer(Loosen(p));
    RunConcat(net, st, [""], CommentedLine(c, "[Peer]"));
    RunConcat(net, st, [""] + CommentedLine(c, "[Peer]"), PeerFields(net, p, 5));
  }

  lemma {:induction false} RunOneBlank(net: Netip, st: State)
    requires st.pending == []
    ensures Run(net, st, [""]) == Ok(st.(pending := [""]))
  {
    hide Scan, Run;
    ScanCommentLine("");
    RunOne(net, st, "");
    assert [] + [""] == [""];
  }

  function LoosenAll(ps: seq<Peer>): (r: seq<Peer>)
    ensures |r| == |ps| && forall i | 0 <= i < |ps| :: r[i] == Loosen(ps[i])
  {
    seq(|ps|, i requires 0 <= i < |ps| => Loosen(ps[i]))
  }

  lemma {:induction false} LoosenCons(ps: seq<Peer>)
    requires ps != []
    ensures LoosenAll(ps) == [Loosen(ps[0])] + LoosenAll(ps[1..])
  {
    hide Loosen;
  }

  lemma {:induction false} RunPeers(net: Netip, st: State, ps: seq<Peer>) returns (st': State)
    requires net.Lawful()
    requires forall i | 0 <= i < |ps| :: PeerOk(net, ps[i]) && TightSection(ps[i].comments)
    requires st.pending == []
    ensures Run(net, st, AllPeerLines(net, ps)) == Ok(st')
    ensures st'.interface == st.interface && st'.sawPrivateKey == st.sawPrivateKey && st'.pending == []
    ensures MaybeAddPeer(st'.peers, st'.peer) == MaybeAddPeer(st.peers, st.peer) + LoosenAll(ps)
    decreases |ps|
  {
    hide Netip.Lawful, Run, PeerLines, PeerOk, TightSection, Loosen, LoosenAll;
    if ps == [] {
      RunNothing(net, st);
      st' := st;
    } else {
      RunPeer(net, st, ps[0]);
      var st1 := st.(section := InPeer, peers := MaybeAddPeer(st.peers, st.peer), peer := Some(Loosen(ps[0])));
      st' := RunPeers(net, st1, ps[1..]);
      RunConcat(net, st, PeerLines(net, ps[0]), AllPeerLines(net, ps[1..]));
      LoosenCons(ps);
    }
  }

  // ---------------------------------------------------------------- whole texts

  lemma {:induction false} FieldLinesHaveNoNewline(key: ConfKey, v: string, sc: SectionComments, present: bool)
    requires CleanSection(sc) && (present || Lookup(sc.lines, key) != NO_COMMENTS ==> '\n' !in v)
    ensures forall l | l in FieldLines(sc, key, present, v) :: '\n' !in l
  {
    hide Spelling;
    SpellingWithoutNewline(key);
  }

  lemma {:induction false} CommentedLineHasNoNewline(c: Comments, line: string)
    requires CleanComments(c) && '\n' !in line
    ensures forall l | l in CommentedLine(c, line) :: '\n' !in l
  {
  }

  lemma {:induction false} InterfaceHasNoNewline(net: Netip, i: Interface, n: nat)
    requires net.Lawful()
    requires n <= 10 && InterfaceOk(net, i) && TightSection(i.comments)
    ensures forall l | l in InterfaceFields(net, i, n) :: '\n' !in l
  {
    hide Netip.Lawful, InterfaceValue, InterfacePresent, FieldLines, InterfaceFieldsOk, InterfaceHas, ValueText, Trimmed, TightSection, CleanSection;
    if n > 0 {
      var k := InterfaceKey(n - 1);
      InterfaceHasNoNewline(net, i, n - 1);
      if InterfacePrinted(i, k) {
        InterfaceFieldRead(net, i, n - 1, i.comments);
        ValueHasNoNewline(InterfaceValue(net, i, k));
      }
      if InterfaceConsidered(i, k) {
        FieldLinesHaveNoNewline(k, InterfaceValue(net, i, k), i.comments, InterfacePresent(i, k));
      }
    }
  }

  lemma {:induction false} ValueHasNoNewline(v: string)
    ensures ValueText(v) || HookOk(v) ==> '\n' !in v
  {
  }

  lemma {:induction false} PeerHasNoNewline(net: Netip, p: Peer, n: nat)
    requires net.Lawful()
    requires n <= 5 && PeerOk(net, p) && TightLines(p.comments)
    ensures forall l | l in PeerFields(net, p, n) :: '\n' !in l
  {
    hide Netip.Lawful, PeerValue, PeerPresent, FieldLines, PeerFieldsOk, PeerHas, ValueText, TightLines, CleanSection;
    if n > 0 {
      var k := PeerKey(n - 1);
      PeerHasNoNewline(net, p, n - 1);
      if PeerPrinted(p, k) {
        PeerFieldRead(net, p, n - 1, p.comments);
        ValueHasNoNewline(PeerValue(net, p, k));
      }
      if PeerConsidered(p, k) {
        FieldLinesHaveNoNewline(k, PeerValue(net, p, k), p.comments, PeerPresent(p, k));
      }
    }
  }

  lemma {:induction false} PeersHaveNoNewline(net: Netip, ps: seq<Peer>)
    requires net.Lawful()
    requires forall i | 0 <= i < |ps| :: PeerOk(net, ps[i]) && TightSection(ps[i].comments)
    ensures forall l | l in AllPeerLines(net, ps) :: '\n' !in l
  {
    hide Netip.Lawful, PeerFields, PeerFieldsOk, PeerHas, CommentedLine, Tight, CleanComments;
    if ps != [] {
      PeerHasNoNewline(net, ps[0], 5);
      CommentedLineHasNoNewline(ps[0].comments.header, "[Peer]");
      PeersHaveNoNewline(net, ps[1..]);
    }
  }

  lemma {:induction false} PrintedHasNoNewline(net: Netip, c: Config)
    requires net.Lawful()
    requires Canonical(net, c)
    ensures forall l | l in PrintLines(net, c) :: '\n' !in l
  {
    hide Netip.Lawful, InterfaceFields, AllPeerLines, InterfaceFieldsOk, InterfaceHas, CommentedLine, Tight, CleanComments, PeerOk,
         TunnelName.IsValid;
    InterfaceHasNoNewline(net, c.interface, 10);
    CommentedLineHasNoNewline(c.interface.comments.header, "[Interface]");
    PeersHaveNoNewline(net, c.peers);
  }

  lemma {:induction false} SplitUnlines(lines: seq<string>)
    requires forall l | l in lines :: '\n' !in l
    ensures Split(Unlines(lines), '\n') == lines + [""]
  {
    if lines == [] {
      SplitSingle("", '\n');
    } else {
      SplitUnlines(lines[1..]);
      SplitCons(lines[0], '\n', Unlines(lines[1..]));
      assert lines[0] + "\n" + Unlines(lines[1..]) == lines[0] + ['\n'] + Unlines(lines[1..]);
      assert lines + [""] == [lines[0]] + (lines[1..] + [""]);
    }
  }

  lemma {:induction false} TightenPeers(ps: seq<Peer>)
    requires forall i | 0 <= i < |ps| :: TightSection(ps[i].comments)
    ensures PrunePeers(LoosenAll(ps)) == ps
  {
    hide Tight, Prune;
    forall i | 0 <= i < |ps|
      ensures PruneSection(Loosen(ps[i]).comments) == ps[i].comments
    {
      PruneSectionId(ps[i].comments);
      PruneAfterBlank(ps[i].comments.header.before);
    }
  }

  lemma {:induction false} FinishPrinted(net: Netip, c: Config, st: State)
    requires Canonical(net, c)
    requires st.interface == c.interface && st.sawPrivateKey && st.pending == c.trailingComments + [""]
    requires MaybeAddPeer(st.peers, st.peer) == LoosenAll(c.peers)
    ensures Finish(st, c.name) == Ok(c)
  {
    hide InterfaceOk, PeerOk, TightSection, Tight, Prune, PruneSection, PrunePeers, LoosenAll, TunnelName.IsValid, CommentLine;
    PruneSectionId(c.interface.comments);
    PruneBeforeBlank(c.trailingComments);
    TightenPeers(c.peers);
  }

  /** A canonical configuration is what its printed text parses to. */
  lemma {:induction false} CanonicalRoundTrip(net: Netip, c: Config)
    requires net.Lawful()
    requires Canonical(net, c)
    ensures Parse(net, Print(net, c), c.name) == Ok(c)
  {
    hide Netip.Lawful, Run, Finish, Split, Unlines, InterfaceLines, AllPeerLines, InterfaceOk, PeerOk, TightSection, Tight, LoosenAll,
         TunnelName.IsValid, CommentLine;
    PrintedHasNoNewline(net, c);
    SplitUnlines(PrintLines(net, c));
    var a, b, t := InterfaceLines(net, c.interface), AllPeerLines(net, c.peers), c.trailingComments;
    var st1 := State(InInterface, c.interface, [], None, [], true);
    RunInterface(net, c.interface);
    var st2 := RunPeers(net, st1, c.peers);
    ConfParsed.NoComment();
    RunComments(net, st2, t + [""]);
    var st3 := st2.(pending := t + [""]);
    RunConcat(net, START, a, b);
    RunConcat(net, START, a + b, t + [""]);
    assert PrintLines(net, c) + [""] == a + b + (t + [""]);
    assert [] + (t + [""]) == t + [""];
    assert [] + LoosenAll(c.peers) == LoosenAll(c.peers);
    FinishPrinted(net, c, st3);
  }

  /** The printer and the parser are inverse on everything the parser accepts, comments included. */
  lemma {:induction false} ParsePrintParse(net: Netip, s: string, name: string)
    requires net.Lawful() && Parse(net, s, name).Ok?
    ensures var c := Parse(net, s, name).value;
            Parse(net, Print(net, c), name) == Ok(c)
  {
    hide Parse, Print, Canonical;
    ConfParsed.ParsedIsCanonical(net, s, name);
    CanonicalRoundTrip(net, Parse(net, s, name).value);
  }

  /** Formatting a text twice is formatting it once. */
  lemma {:induction false} FormatIdempotent(net: Netip, s: string, name: string)
    requires net.Lawful() && Parse(net, s, name).Ok?
    ensures var once := Print(net, Parse(net, s, name).value);
            Parse(net, once, name).Ok? && Print(net, Parse(net, once, name).value) == once
  {
    hide Parse, Print;
    ParsePrintParse(net, s, name);
  }

  /** Exactly the canonical configurations survive printing and parsing. */
  lemma {:induction false} RoundTripIffCanonical(net: Netip, c: Config)
    requires net.Lawful()
    ensures Parse(net, Print(net, c), c.name) == Ok(c) <==> Canonical(net, c)
  {
    hide Parse, Print, Canonical;
    if Parse(net, Print(net, c), c.name) == Ok(c) {
      ConfParsed.ParsedIsCanonical(net, Print(net, c), c.name);
    }
    if Canonical(net, c) {
      CanonicalRoundTrip(net, c);
    }
  }
}
