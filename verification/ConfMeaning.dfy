/** What wg-quick text means, said about its lines and not by a running state: which lines are accepted, which value each
    field of the configuration has, and which error the first bad line gives. */
module ConfMeaning {
  import opened Wrappers
  import opened Text
  import opened Netip
  import opened Config
  import opened ConfParser
  import ConfRoundTrip
  import Base64
  import TunnelName

  // ---------------------------------------------------------------- letters

  predicate OtherCase(c: char, d: char) {
    || ('A' <= c <= 'Z' && d as int == c as int + 32)
    || ('A' <= d <= 'Z' && c as int == d as int + 32)
  }

  /** The same letter in either case; the dotted capital I and the Kelvin sign have an ASCII lower case too. */
  predicate SameLetter(c: char, d: char) {
    || c == d || OtherCase(c, d)
    || (c == '\U{130}' && (d == 'i' || d == 'I')) || (c == '\U{212a}' && (d == 'k' || d == 'K'))
  }

  predicate SameWord(s: string, word: string) {
    |s| == |word| && forall i | 0 <= i < |s| :: SameLetter(s[i], word[i])
  }

  predicate Ascii(s: string) { forall i | 0 <= i < |s| :: s[i] < '\U{80}' }

  lemma SameLetterIff(c: char, d: char)
    requires d < '\U{80}'
    ensures SameLetter(c, d) <==> ToLowerChar(c) == ToLowerChar(d)
  {
  }

  lemma {:induction false} SameWordIff(s: string, word: string)
    requires Ascii(word)
    ensures SameWord(s, word) <==> ToLower(s) == ToLower(word)
  {
    hide SameLetter, ToLowerChar;
    forall i | 0 <= i < |s| && i < |word|
      ensures SameLetter(s[i], word[i]) <==> ToLower(s)[i] == ToLower(word)[i]
    {
      SameLetterIff(s[i], word[i]);
    }
    if ToLower(s) == ToLower(word) {
      assert |s| == |word|;
    }
  }

  lemma SpellingAscii(k: ConfKey)
    ensures Ascii(Spelling(k))
  {
    hide Ascii;
    if k.PrivateKey? || k.ListenPort? || k.Address? || k.DNS? || k.MTU? || k.PreUp? || k.PostUp? {
      FirstSpellings(k);
    } else {
      OtherSpellings(k);
    }
  }

  lemma FirstSpellings(k: ConfKey)
    requires k.PrivateKey? || k.ListenPort? || k.Address? || k.DNS? || k.MTU? || k.PreUp? || k.PostUp?
    ensures Ascii(Spelling(k))
  {
  }

  lemma OtherSpellings(k: ConfKey)
    requires !(k.PrivateKey? || k.ListenPort? || k.Address? || k.DNS? || k.MTU? || k.PreUp? || k.PostUp?)
    ensures Ascii(Spelling(k))
  {
  }

  lemma {:induction false} KeyOfName(name: string, k: ConfKey)
    requires KeyOf(name) == Some(k)
    ensures name == ConfRoundTrip.LowerName(k)
  {
  }

  lemma {:induction false} LowerSpelling(k: ConfKey)
    ensures ToLower(Spelling(k)) == ConfRoundTrip.LowerName(k)
  {
    hide ToLower, Spelling, ConfRoundTrip.LowerName, KeyOf;
    ConfRoundTrip.KeyNames(k);
    KeyOfName(ToLower(Spelling(k)), k);
  }

  /** A key is known by its spelling, in any case. */
  lemma {:induction false} KeyIff(s: string, k: ConfKey)
    ensures KeyOf(ToLower(s)) == Some(k) <==> SameWord(s, Spelling(k))
  {
    hide ToLower, Spelling, KeyOf, SameWord, Ascii;
    SpellingAscii(k);
    SameWordIff(s, Spelling(k));
    ConfRoundTrip.KeyNames(k);
    if KeyOf(ToLower(s)) == Some(k) {
      KeyOfName(ToLower(s), k);
      LowerSpelling(k);
    }
  }

  lemma {:induction false} TitleIff(s: string)
    ensures IsInterfaceTitle(ToLower(s)) <==> SameWord(s, "[Interface]")
    ensures IsPeerTitle(ToLower(s)) <==> SameWord(s, "[Peer]")
  {
    hide ToLower, SameWord;
    ConfRoundTrip.TitleText();
    SameWordIff(s, "[Interface]");
    SameWordIff(s, "[Peer]");
  }

  // ---------------------------------------------------------------- lines

  /** A text cut at the first occurrence of a character. */
  lemma {:induction false} CutIs(s: string, c: char)
    ensures c !in Before(s, c)
    ensures if c in s then s == Before(s, c) + [c] + After(s, c) else Before(s, c) == s && After(s, c) == ""
  {
    hide Find;
    FindAbsent(s, c);
    var i := Find(s, c);
    if i < |s| {
      assert s == s[..i] + [c] + s[i + 1..];
    }
  }

  /** The comment of a line begins with its first hash sign; blanks, tabs and carriage returns at the end are no part of
      it. A line without hash sign has none. */
  lemma {:induction false} CommentIs(code: string, text: string, tail: string)
    requires '#' !in code && forall i | 0 <= i < |tail| :: tail[i] in {' ', '\t', '\r'}
    requires text != "" ==> text[|text| - 1] !in {' ', '\t', '\r'}
    ensures CommentOf(code) == "" && CommentOf(code + "#" + text + tail) == "#" + text
  {
    hide TrimRight, Find;
    var line := code + "#" + text + tail;
    FindAbsent(code, '#');
    FindAt(code, '#', text + tail);
    assert line == code + ['#'] + (text + tail);
    TrimRightOf(text, tail, IsCommentPadding);
  }

  /** A line without its comment and the white space around it. */
  function Code(line: string): string { TrimSpace(Before(line, '#')) }

  predicate OpensInterface(line: string) { SameWord(Code(line), "[Interface]") }

  predicate OpensPeer(line: string) { SameWord(Code(line), "[Peer]") }

  /** The line sets something: its left side is the name of the key, in any case. */
  predicate Sets(line: string, key: ConfKey) {
    '=' in Code(line) && SameWord(TrimSpace(Before(Code(line), '=')), Spelling(key))
  }

  /** What it sets it to. A hook takes the rest of the line, hash signs included. */
  function ValueIn(line: string, key: ConfKey): string {
    TrimSpace(After(if key in {PreUp, PostUp, PreDown, PostDown} then line else Code(line), '='))
  }

  lemma {:induction false} ScanIs(line: string)
    ensures Scan(line).Blank? <==> Code(line) == ""
    ensures Scan(line).InterfaceHeader? <==> OpensInterface(line)
    ensures Scan(line).PeerHeader? <==> OpensPeer(line)
    ensures Scan(line).NoSeparator? <==> Code(line) != "" && '=' !in Code(line) && !OpensInterface(line) && !OpensPeer(line)
    ensures Scan(line).Assignment? <==> '=' in Code(line)
    ensures forall k :: Scan(line).Assignment? && Scan(line).key == Some(k) <==> Sets(line, k)
    ensures forall k | Sets(line, k) :: Scan(line).val == ValueIn(line, k)
    ensures Scan(line).Assignment? && Scan(line).key.None? ==> Scan(line).val == TrimSpace(After(Code(line), '='))
  {
    hide ToLower, KeyOf, SameWord, TrimSpace, CommentOf, Before, After, IsInterfaceTitle, IsPeerTitle;
    var code := Code(line);
    CutIs(code, '=');
    TitleIff(code);
    TitlesPlain(code);
    TrimmedTwice(line);
    forall k
      ensures KeyOf(ToLower(TrimSpace(Before(code, '=')))) == Some(k) <==> SameWord(TrimSpace(Before(code, '=')), Spelling(k))
    {
      KeyIff(TrimSpace(Before(code, '=')), k);
    }
  }

  lemma {:induction false} TitlesPlain(code: string)
    ensures SameWord(code, "[Interface]") || SameWord(code, "[Peer]") ==> code != "" && '=' !in code
    ensures !SameWord(code, "[Interface]") || !SameWord(code, "[Peer]")
  {
    hide ToLower;
    TitleIff(code);
    LowerKeepsEquals(code);
  }

  lemma {:induction false} LowerKeepsEquals(s: string)
    ensures '=' in s ==> '=' in ToLower(s)
  {
    if '=' in s {
      var i :| 0 <= i < |s| && s[i] == '=';
      assert ToLower(s)[i] == '=';
    }
  }

  lemma {:induction false} TrimmedTwice(line: string)
    ensures TrimSpace(Code(line)) == Code(line)
  {
    TrimId(Code(line));
  }

  // ---------------------------------------------------------------- values

  /** The text is decimal digits, after a sign or without one, and n their value. */
  predicate Spells(s: string, n: int) {
    && s != ""
    && if s[0] == '+' || s[0] == '-' then
         && |s| > 1 && AllDigits(s[1..])
         && n == if s[0] == '-' then 0 - DigitsValue(s[1..]) else DigitsValue(s[1..])
       else AllDigits(s) && n == DigitsValue(s)
  }

  ghost predicate SpellsBetween(s: string, low: int, high: int, n: int) { low <= n <= high && Spells(s, n) }

  lemma {:induction false} AtoiIff(s: string, n: int)
    ensures Atoi(s) == Some(n) <==> SpellsBetween(s, -0x8000_0000_0000_0000, 0x7fff_ffff_ffff_ffff, n)
  {
    hide DigitsValue;
  }

  lemma {:induction false} RangeIff(s: string, low: nat, high: nat, outside: ParseError)
    requires high < 0x1_0000
    ensures forall n: int :: ParseRange(s, low, high, outside) == Ok(n) <==> SpellsBetween(s, low, high, n)
  {
    hide Atoi, Spells;
    forall n: int
      ensures ParseRange(s, low, high, outside) == Ok(n) <==> SpellsBetween(s, low, high, n)
    {
      AtoiIff(s, n);
    }
  }

  /** The pieces between commas, without the white space around them. */
  function Items(val: string): seq<string> { TrimEach(Split(val, ',')) }

  function TrimEach(parts: seq<string>): seq<string> {
    seq(|parts|, i requires 0 <= i < |parts| => TrimSpace(parts[i]))
  }

  lemma {:induction false} TrimAllIs(parts: seq<string>)
    ensures TrimAll(parts) == if "" in TrimEach(parts) then Err(EmptyListItem) else Ok(TrimEach(parts))
  {
    hide TrimSpace;
    if parts == [] {
      assert TrimEach(parts) == [];
    } else {
      TrimAllIs(parts[1..]);
      assert TrimEach(parts) == [TrimSpace(parts[0])] + TrimEach(parts[1..]);
    }
  }

  lemma {:induction false} SplitListIs(val: string)
    ensures SplitList(val) == if "" in Items(val) then Err(EmptyListItem) else Ok(Items(val))
  {
    TrimAllIs(Split(val, ','));
  }

  /** What a prefix reads as; an address on its own is a prefix of full length, its zone dropped. */
  ghost predicate IsPrefix(net: Netip, item: string, p: Prefix) {
    match net.parsePrefix(item)
    case Some(q) => p == q
    case None =>
      net.parseAddr(item).Some?
      && var a := net.parseAddr(item).value;
         p == Prefix(a.WithoutZone(), if a.V4? then 32 else if a.V6? then 128 else -1)
  }

  lemma PrefixIff(net: Netip, item: string)
    ensures forall p :: ParseIPCidr(net, item) == Ok(p) <==> IsPrefix(net, item, p)
  {
  }

  ghost predicate ArePrefixes(net: Netip, items: seq<string>, ps: seq<Prefix>) {
    |ps| == |items| && forall i | 0 <= i < |items| :: IsPrefix(net, items[i], ps[i])
  }

  ghost predicate ReadsPrefix(net: Netip, item: string) { exists p :: IsPrefix(net, item, p) }

  lemma {:induction false} PrefixesAre(net: Netip, items: seq<string>)
    ensures match ParseIPCidrs(net, items)
            case Ok(ps) => ArePrefixes(net, items, ps) && forall item | item in items :: ReadsPrefix(net, item)
            case Err(e) => exists item :: item in items && !ReadsPrefix(net, item)
  {
    hide ParseIPCidr, IsPrefix;
    if items != [] {
      PrefixIff(net, items[0]);
      PrefixesAre(net, items[1..]);
      if ParseIPCidr(net, items[0]).Ok? {
        assert IsPrefix(net, items[0], ParseIPCidr(net, items[0]).value);
        if ParseIPCidrs(net, items[1..]).Err? {
          var item :| item in items[1..] && !ReadsPrefix(net, item);
          assert item in items;
        }
      } else {
        assert forall p :: IsPrefix(net, items[0], p) ==> ParseIPCidr(net, items[0]) == Ok(p);
        assert items[0] in items;
      }
    }
  }

  /** An IPv6 address in brackets, its zone after the last percent sign; or anything without colon and brackets. */
  ghost predicate IsHost(net: Netip, text: string, host: string) {
    && text != ""
    && if text[0] == '[' || text[|text| - 1] == ']' || ':' in text then
         && text == "[" + host + "]" && ':' in host && |host| > 1
         && var zone := FindLast(host, '%');
            var address := net.parseAddr(if zone > 0 then host[..zone] else host);
            address.Some? && address.value.V6?
       else host == text
  }

  /** Host and port, a colon between them. */
  ghost predicate IsEndpoint(net: Netip, s: string, e: Endpoint) {
    var colon := FindLast(s, ':');
    && colon > 0
    && IsHost(net, s[..colon], e.host)
    && SpellsBetween(s[colon + 1..], 0, 65535, e.port)
  }

  lemma {:induction false} HostIff(net: Netip, text: string)
    requires text != ""
    ensures forall host :: IsHost(net, text, host)
              <==> if Bracketed(text) then HoldsIPv6(net, text) && host == text[1..|text| - 1] else host == text
  {
    hide FindLast;
    forall host
      ensures IsHost(net, text, host)
         <==> if Bracketed(text) then HoldsIPv6(net, text) && host == text[1..|text| - 1] else host == text
    {
      if Bracketed(text) && |text| > 3 {
        var inner := text[1..|text| - 1];
        if text[0] == '[' && text[|text| - 1] == ']' {
          assert text == "[" + inner + "]";
          Percent(text, inner);
          ColonInside(text, inner);
        }
        if text == "[" + host + "]" {
          assert text[0] == '[' && text[|text| - 1] == ']' && host == inner;
        }
      }
    }
  }

  lemma {:induction false} ColonInside(text: string, inner: string)
    requires text == "[" + inner + "]"
    ensures ':' in text <==> ':' in inner
  {
  }

  lemma {:induction false} Percent(text: string, inner: string)
    requires text == "[" + inner + "]"
    ensures FindLast(inner, '%') == if FindLast(text, '%') < 0 then -1 else FindLast(text, '%') - 1
    ensures FindLast(text, '%') != 0
    ensures FindLast(text, '%') > 0 ==> text[1..FindLast(text, '%')] == inner[..FindLast(inner, '%')]
  {
    hide FindLast;
    var i, j := FindLast(text, '%'), FindLast(inner, '%');
    assert forall k | 0 <= k < |inner| :: text[k + 1] == inner[k];
    assert text[|text| - 1] == ']';
    if j >= 0 { assert text[j + 1] == '%'; }
  }

  lemma {:induction false} EndpointIff(net: Netip, s: string)
    ensures forall e :: ParseEndpoint(net, s) == Ok(e) <==> IsEndpoint(net, s, e)
  {
    hide FindLast, IsHost, HoldsIPv6, Bracketed, ParsePort, SpellsBetween;
    var colon := FindLast(s, ':');
    if colon > 0 {
      HostIff(net, s[..colon]);
      PortIff(s[colon + 1..]);
    }
  }

  lemma {:induction false} PortIff(s: string)
    ensures forall n: int :: ParsePort(s) == Ok(n) <==> SpellsBetween(s, 0, 65535, n)
  {
    RangeIff(s, 0, 65535, InvalidPort);
  }

  // ---------------------------------------------------------------- sections

  /** The section that the n-th line is in: what the last title before it says. */
  function PlaceAt(lines: seq<string>, n: nat): Section
    decreases n
  {
    if n == 0 || n > |lines| then NotInASection
    else if OpensInterface(lines[n - 1]) then InInterface
    else if OpensPeer(lines[n - 1]) then InPeer
    else PlaceAt(lines, n - 1)
  }

  /** All that the first n lines set a key of the interface to, in order. */
  function InterfaceValues(lines: seq<string>, n: nat, key: ConfKey): seq<string>
    decreases n
  {
    if n == 0 || n > |lines| then []
    else
      var line := lines[n - 1];
      InterfaceValues(lines, n - 1, key)
      + if PlaceAt(lines, n - 1) == InInterface && Sets(line, key) then [ValueIn(line, key)] else []
  }

  /** All that they set a key of the latest peer to. */
  function PeerValues(lines: seq<string>, n: nat, key: ConfKey): seq<string>
    decreases n
  {
    if n == 0 || n > |lines| then []
    else
      var line := lines[n - 1];
      if OpensPeer(line) then []
      else
        PeerValues(lines, n - 1, key)
        + if PlaceAt(lines, n - 1) == InPeer && Sets(line, key) then [ValueIn(line, key)] else []
  }

  predicate HasPeer(lines: seq<string>, n: nat)
    decreases n
  {
    0 < n <= |lines| && (OpensPeer(lines[n - 1]) || HasPeer(lines, n - 1))
  }

  /** Where the latest peer is added to the configuration: at every title after it. */
  function Additions(lines: seq<string>, n: nat): seq<nat>
    decreases n
  {
    if n == 0 || n > |lines| then []
    else
      Additions(lines, n - 1)
      + if (OpensInterface(lines[n - 1]) || OpensPeer(lines[n - 1])) && HasPeer(lines, n - 1) then [n - 1] else []
  }

  /** And at the end of the text. */
  function AllAdditions(lines: seq<string>): seq<nat> {
    Additions(lines, |lines|) + if HasPeer(lines, |lines|) then [|lines|] else []
  }

  // ---------------------------------------------------------------- fields

  type Given = ConfKey -> seq<string>

  function InterfaceGiven(lines: seq<string>, n: nat): Given { key => InterfaceValues(lines, n, key) }

  function PeerGiven(lines: seq<string>, n: nat): Given { key => PeerValues(lines, n, key) }

  function Last(vals: seq<string>): string
    requires vals != []
  {
    vals[|vals| - 1]
  }

  /** The items of all the lists, one after the other. */
  function AllItems(vals: seq<string>): seq<string> {
    if vals == [] then [] else AllItems(vals[..|vals| - 1]) + Items(Last(vals))
  }

  function Addresses(net: Netip, items: seq<string>): seq<string> {
    if items == [] then []
    else (if net.parseAddr(items[0]).Some? then [items[0]] else []) + Addresses(net, items[1..])
  }

  function Others(net: Netip, items: seq<string>): seq<string> {
    if items == [] then []
    else (if net.parseAddr(items[0]).None? then [items[0]] else []) + Others(net, items[1..])
  }

  ghost predicate AreAddresses(net: Netip, items: seq<string>, addrs: seq<Addr>) {
    |addrs| == |items| && forall i | 0 <= i < |items| :: net.parseAddr(items[i]) == Some(addrs[i])
  }

  predicate IsKey(val: string, k: Key) { Base64.Decode(val) == Some(k) }

  ghost predicate IsKeepalive(val: string, n: int) { (val == "off" && n == 0) || SpellsBetween(val, 0, 65535, n) }

  predicate IsTable(val: string) {
    || val in {"off", "auto", "main"}
    || (val != "" && AllDigits(val) && DigitsValue(val) < 0x1_0000_0000)
  }

  /** The field has the value that the last of the values given to its key has, or that all of them together have; without
      any, its default. */
  ghost predicate InterfaceFieldSays(net: Netip, vals: seq<string>, i: Interface, key: ConfKey) {
    match key
    case PrivateKey => if vals == [] then i.privateKey == ZERO_KEY else IsKey(Last(vals), i.privateKey)
    case ListenPort => if vals == [] then i.listenPort == 0 else SpellsBetween(Last(vals), 0, 65535, i.listenPort)
    case MTU => if vals == [] then i.mtu == 0 else SpellsBetween(Last(vals), 576, 65535, i.mtu)
    case Address => ArePrefixes(net, AllItems(vals), i.addresses)
    case DNS => AreAddresses(net, Addresses(net, AllItems(vals)), i.dns) && i.dnsSearch == Others(net, AllItems(vals))
    case PreUp => i.preUp == if vals == [] then "" else Last(vals)
    case PostUp => i.postUp == if vals == [] then "" else Last(vals)
    case PreDown => i.preDown == if vals == [] then "" else Last(vals)
    case PostDown => i.postDown == if vals == [] then "" else Last(vals)
    case Table => i.tableOff <==> vals != [] && Last(vals) == "off"
    case _ => true
  }

  ghost predicate PeerFieldSays(net: Netip, vals: seq<string>, p: Peer, key: ConfKey) {
    match key
    case PublicKey => if vals == [] then p.publicKey == ZERO_KEY else IsKey(Last(vals), p.publicKey)
    case PresharedKey => if vals == [] then p.presharedKey == ZERO_KEY else IsKey(Last(vals), p.presharedKey)
    case AllowedIPs => ArePrefixes(net, AllItems(vals), p.allowedIPs)
    case EndpointKey => if vals == [] then p.endpoint == Endpoint("", 0) else IsEndpoint(net, Last(vals), p.endpoint)
    case PersistentKeepalive =>
      if vals == [] then p.persistentKeepalive == 0 else IsKeepalive(Last(vals), p.persistentKeepalive)
    case _ => true
  }

  ghost predicate InterfaceSays(net: Netip, v: Given, i: Interface) {
    forall key :: InterfaceFieldSays(net, v(key), i, key)
  }

  ghost predicate PeerSays(net: Netip, v: Given, p: Peer) {
    forall key :: PeerFieldSays(net, v(key), p, key)
  }

  /** The values that a key may have. */
  ghost predicate InterfaceTakes(net: Netip, key: ConfKey, val: string) {
    match key
    case PrivateKey => exists k: Key :: IsKey(val, k)
    case ListenPort => exists n :: SpellsBetween(val, 0, 65535, n)
    case MTU => exists n :: SpellsBetween(val, 576, 65535, n)
    case Address => "" !in Items(val) && forall item | item in Items(val) :: ReadsPrefix(net, item)
    case DNS => "" !in Items(val)
    case Table => IsTable(val)
    case _ => key in {PreUp, PostUp, PreDown, PostDown}
  }

  ghost predicate PeerTakes(net: Netip, key: ConfKey, val: string) {
    match key
    case PublicKey => exists k: Key :: IsKey(val, k)
    case PresharedKey => exists k: Key :: IsKey(val, k)
    case AllowedIPs => "" !in Items(val) && forall item | item in Items(val) :: ReadsPrefix(net, item)
    case EndpointKey => exists e :: IsEndpoint(net, val, e)
    case PersistentKeepalive => exists n :: IsKeepalive(val, n)
    case _ => false
  }

  // ---------------------------------------------------------------- one field

  lemma {:induction false} ServersAre(net: Netip, items: seq<string>)
    ensures AreAddresses(net, Addresses(net, items), Servers(net, items))
    ensures SearchDomains(net, items) == Others(net, items)
  {
    if items != [] {
      ServersAre(net, items[1..]);
    }
  }

  lemma {:induction false} MoreAddresses(net: Netip, items: seq<string>, more: seq<string>)
    ensures Addresses(net, items + more) == Addresses(net, items) + Addresses(net, more)
    decreases |items|
  {
    if items == [] {
      assert items + more == more;
    } else {
      MoreAddresses(net, items[1..], more);
      assert (items + more)[1..] == items[1..] + more && (items + more)[0] == items[0];
    }
  }

  lemma {:induction false} MoreOthers(net: Netip, items: seq<string>, more: seq<string>)
    ensures Others(net, items + more) == Others(net, items) + Others(net, more)
    decreases |items|
  {
    if items == [] {
      assert items + more == more;
    } else {
      MoreOthers(net, items[1..], more);
      assert (items + more)[1..] == items[1..] + more && (items + more)[0] == items[0];
    }
  }

  lemma {:induction false} MoreItems(vals: seq<string>, val: string)
    ensures AllItems(vals + [val]) == AllItems(vals) + Items(val) && Last(vals + [val]) == val
  {
    assert (vals + [val])[..|vals|] == vals;
  }

  lemma {:induction false} MorePrefixes(net: Netip, items: seq<string>, ps: seq<Prefix>, items': seq<string>, ps': seq<Prefix>)
    requires ArePrefixes(net, items, ps) && ArePrefixes(net, items', ps')
    ensures ArePrefixes(net, items + items', ps + ps')
  {
    hide IsPrefix;
  }

  lemma {:induction false} MoreDns(net: Netip, items: seq<string>, dns: seq<Addr>, items': seq<string>, dns': seq<Addr>)
    requires AreAddresses(net, Addresses(net, items), dns) && AreAddresses(net, Addresses(net, items'), dns')
    ensures AreAddresses(net, Addresses(net, items + items'), dns + dns')
  {
    MoreAddresses(net, items, items');
  }

  lemma {:induction false} PrefixListIs(net: Netip, val: string)
    ensures match ParsePrefixes(net, val)
            case Ok(ps) => ArePrefixes(net, Items(val), ps) && "" !in Items(val)
                           && forall item | item in Items(val) :: ReadsPrefix(net, item)
            case Err(_) => "" in Items(val) || exists item :: item in Items(val) && !ReadsPrefix(net, item)
  {
    hide Items, IsPrefix, ParseIPCidr;
    SplitListIs(val);
    PrefixesAre(net, Items(val));
  }

  lemma {:induction false} KeyIs(val: string)
    ensures forall k: Key :: ParseKeyBase64(val) == Ok(k) <==> IsKey(val, k)
    ensures ParseKeyBase64(val).Ok? <==> exists k: Key :: IsKey(val, k)
  {
    hide Base64.Decode;
    if ParseKeyBase64(val).Ok? {
      assert IsKey(val, ParseKeyBase64(val).value);
    }
  }

  lemma {:induction false} NumberTaken(val: string, low: nat, high: nat, outside: ParseError)
    requires high < 0x1_0000
    ensures ParseRange(val, low, high, outside).Ok? <==> exists n :: SpellsBetween(val, low, high, n)
    ensures ParseRange(val, low, high, outside).Ok? ==>
              SpellsBetween(val, low, high, ParseRange(val, low, high, outside).value)
  {
    hide Spells, Atoi, ParseRange;
    RangeIff(val, low, high, outside);
    if ParseRange(val, low, high, outside).Ok? {
      assert SpellsBetween(val, low, high, ParseRange(val, low, high, outside).value);
    }
  }

  lemma {:induction false} KeepaliveTaken(val: string)
    ensures ParsePersistentKeepalive(val).Ok? <==> exists n :: IsKeepalive(val, n)
    ensures ParsePersistentKeepalive(val).Ok? ==> IsKeepalive(val, ParsePersistentKeepalive(val).value)
  {
    hide Spells, Atoi, ParseRange;
    NumberTaken(val, 0, 65535, InvalidKeepalive);
    assert val == "off" ==> IsKeepalive(val, 0);
    if ParseRange(val, 0, 65535, InvalidKeepalive).Ok? {
      assert IsKeepalive(val, ParseRange(val, 0, 65535, InvalidKeepalive).value);
    }
  }

  lemma TableTaken(val: string)
    ensures ParseTableOff(val).Ok? <==> IsTable(val)
    ensures ParseTableOff(val).Ok? ==> (ParseTableOff(val).value <==> val == "off")
  {
  }

  lemma {:induction false} InterfaceFieldTaken(net: Netip, i: Interface, key: ConfKey, val: string)
    ensures SetInterfaceField(net, i, key, val).Ok? <==> InterfaceTakes(net, key, val)
  {
    hide ParseKeyBase64, ParseRange, ParseTableOff, ParsePrefixes, SplitList, Servers, SearchDomains, IsKey, SpellsBetween,
         IsTable, Items, ReadsPrefix;
    KeyIs(val);
    NumberTaken(val, 0, 65535, InvalidPort);
    NumberTaken(val, 576, 65535, InvalidMTU);
    TableTaken(val);
    PrefixListIs(net, val);
    SplitListIs(val);
  }

  lemma {:induction false} InterfaceFieldSet(net: Netip, vals: seq<string>, i: Interface, key: ConfKey, val: string)
    requires SetInterfaceField(net, i, key, val).Ok? && InterfaceFieldSays(net, vals, i, key)
    ensures InterfaceFieldSays(net, vals + [val], SetInterfaceField(net, i, key, val).value, key)
  {
    hide ParseKeyBase64, ParseRange, ParseTableOff, ParsePrefixes, SplitList, Servers, SearchDomains, IsKey, SpellsBetween,
         IsTable, Items, ReadsPrefix, AllItems, Last, Addresses, Others, ArePrefixes, AreAddresses;
    MoreItems(vals, val);
    match key
    case PrivateKey => KeyIs(val);
    case ListenPort => NumberTaken(val, 0, 65535, InvalidPort);
    case MTU => NumberTaken(val, 576, 65535, InvalidMTU);
    case Table => TableTaken(val);
    case Address =>
      PrefixListIs(net, val);
      MorePrefixes(net, AllItems(vals), i.addresses, Items(val), ParsePrefixes(net, val).value);
    case DNS =>
      SplitListIs(val);
      ServersAre(net, Items(val));
      MoreOthers(net, AllItems(vals), Items(val));
      MoreDns(net, AllItems(vals), i.dns, Items(val), Servers(net, Items(val)));
    case _ =>
  }

  lemma {:induction false} OtherInterfaceFields(net: Netip, vals: seq<string>, i: Interface, key: ConfKey, val: string,
                                                other: ConfKey)
    requires SetInterfaceField(net, i, key, val).Ok? && other != key && InterfaceFieldSays(net, vals, i, other)
    ensures InterfaceFieldSays(net, vals, SetInterfaceField(net, i, key, val).value, other)
  {
    hide ParseKeyBase64, ParseRange, ParseTableOff, ParsePrefixes, SplitList, Servers, SearchDomains, IsKey, SpellsBetween,
         AllItems, Last, Addresses, Others, ArePrefixes, AreAddresses;
  }

  lemma {:induction false} InterfaceSet(net: Netip, v: Given, v': Given, i: Interface, key: ConfKey, val: string)
    requires InterfaceSays(net, v, i) && SetInterfaceField(net, i, key, val).Ok?
    requires v'(key) == v(key) + [val] && forall k :: k != key ==> v'(k) == v(k)
    ensures InterfaceSays(net, v', SetInterfaceField(net, i, key, val).value)
  {
    hide SetInterfaceField, InterfaceFieldSays;
    var i' := SetInterfaceField(net, i, key, val).value;
    forall k
      ensures InterfaceFieldSays(net, v'(k), i', k)
    {
      if k == key {
        InterfaceFieldSet(net, v(key), i, key, val);
      } else {
        OtherInterfaceFields(net, v(k), i, key, val, k);
      }
    }
  }

  lemma {:induction false} PeerFieldTaken(net: Netip, p: Peer, key: ConfKey, val: string)
    ensures SetPeerField(net, p, key, val).Ok? <==> PeerTakes(net, key, val)
  {
    hide ParseKeyBase64, ParsePersistentKeepalive, ParsePrefixes, ParseEndpoint, IsKey, IsKeepalive, Items, ReadsPrefix,
         IsEndpoint;
    KeyIs(val);
    KeepaliveTaken(val);
    PrefixListIs(net, val);
    EndpointTaken(net, val);
  }

  lemma {:induction false} EndpointTaken(net: Netip, val: string)
    ensures ParseEndpoint(net, val).Ok? <==> exists e :: IsEndpoint(net, val, e)
    ensures ParseEndpoint(net, val).Ok? ==> IsEndpoint(net, val, ParseEndpoint(net, val).value)
  {
    hide ParseEndpoint, IsEndpoint;
    EndpointIff(net, val);
    if ParseEndpoint(net, val).Ok? {
      assert IsEndpoint(net, val, ParseEndpoint(net, val).value);
    }
  }

  lemma {:induction false} PeerFieldSet(net: Netip, vals: seq<string>, p: Peer, key: ConfKey, val: string)
    requires SetPeerField(net, p, key, val).Ok? && PeerFieldSays(net, vals, p, key)
    ensures PeerFieldSays(net, vals + [val], SetPeerField(net, p, key, val).value, key)
  {
    hide ParseKeyBase64, ParsePersistentKeepalive, ParsePrefixes, ParseEndpoint, IsKey, IsKeepalive, Items, ReadsPrefix,
         IsEndpoint, AllItems, Last, ArePrefixes;
    MoreItems(vals, val);
    match key
    case PublicKey => KeyIs(val);
    case PresharedKey => KeyIs(val);
    case PersistentKeepalive => KeepaliveTaken(val);
    case EndpointKey => EndpointTaken(net, val);
    case AllowedIPs =>
      PrefixListIs(net, val);
      MorePrefixes(net, AllItems(vals), p.allowedIPs, Items(val), ParsePrefixes(net, val).value);
    case _ =>
  }

  lemma {:induction false} OtherPeerFields(net: Netip, vals: seq<string>, p: Peer, key: ConfKey, val: string, other: ConfKey)
    requires SetPeerField(net, p, key, val).Ok? && other != key && PeerFieldSays(net, vals, p, other)
    ensures PeerFieldSays(net, vals, SetPeerField(net, p, key, val).value, other)
  {
    hide ParseKeyBase64, ParsePersistentKeepalive, ParsePrefixes, ParseEndpoint, IsKey, IsKeepalive, IsEndpoint, AllItems,
         Last, ArePrefixes;
  }

  lemma {:induction false} PeerSet(net: Netip, v: Given, v': Given, p: Peer, key: ConfKey, val: string)
    requires PeerSays(net, v, p) && SetPeerField(net, p, key, val).Ok?
    requires v'(key) == v(key) + [val] && forall k :: k != key ==> v'(k) == v(k)
    ensures PeerSays(net, v', SetPeerField(net, p, key, val).value)
  {
    hide SetPeerField, PeerFieldSays;
    var p' := SetPeerField(net, p, key, val).value;
    forall k
      ensures PeerFieldSays(net, v'(k), p', k)
    {
      if k == key {
        PeerFieldSet(net, v(key), p, key, val);
      } else {
        OtherPeerFields(net, v(k), p, key, val, k);
      }
    }
  }

  // ---------------------------------------------------------------- the whole text

  /** Whether a section takes what a line sets. */
  ghost predicate Takes(net: Netip, place: Section, key: ConfKey, val: string) {
    || (place == InInterface && InterfaceTakes(net, key, val))
    || (place == InPeer && PeerTakes(net, key, val))
  }

  /** A line that is accepted where it stands. */
  ghost predicate GoodLine(net: Netip, lines: seq<string>, n: nat)
    requires n < |lines|
  {
    var line := lines[n];
    || Code(line) == "" || OpensInterface(line) || OpensPeer(line)
    || exists key ::
         && Sets(line, key) && ValueIn(line, key) != ""
         && Takes(net, PlaceAt(lines, n), key, ValueIn(line, key))
  }

  ghost predicate PeersSay(net: Netip, lines: seq<string>, ends: seq<nat>, peers: seq<Peer>) {
    |peers| == |ends| && forall j | 0 <= j < |ends| :: PeerSays(net, PeerGiven(lines, ends[j]), peers[j])
  }

  /** The running state says what the first n lines say. */
  ghost predicate StateSays(net: Netip, lines: seq<string>, n: nat, st: State) {
    && st.section == PlaceAt(lines, n)
    && (st.section.InPeer? ==> st.peer.Some?)
    && (st.sawPrivateKey <==> InterfaceValues(lines, n, PrivateKey) != [])
    && InterfaceSays(net, InterfaceGiven(lines, n), st.interface)
    && (st.peer.Some? <==> HasPeer(lines, n))
    && (st.peer.Some? ==> PeerSays(net, PeerGiven(lines, n), st.peer.value))
    && PeersSay(net, lines, Additions(lines, n), st.peers)
  }

  lemma {:induction false} NextLine(lines: seq<string>, n: nat)
    requires n < |lines|
    ensures var line := lines[n];
            && PlaceAt(lines, n + 1) == (if OpensInterface(line) then InInterface
                                         else if OpensPeer(line) then InPeer else PlaceAt(lines, n))
            && (HasPeer(lines, n + 1) <==> OpensPeer(line) || HasPeer(lines, n))
            && Additions(lines, n + 1)
            == Additions(lines, n)
               + if (OpensInterface(line) || OpensPeer(line)) && HasPeer(lines, n) then [n] else []
  {
    hide OpensInterface, OpensPeer;
  }

  lemma {:induction false} NextValues(lines: seq<string>, n: nat, key: ConfKey)
    requires n < |lines|
    ensures var line := lines[n];
            && InterfaceGiven(lines, n + 1)(key)
            == InterfaceGiven(lines, n)(key)
               + (if PlaceAt(lines, n) == InInterface && Sets(line, key) then [ValueIn(line, key)] else [])
            && PeerGiven(lines, n + 1)(key)
            == (if OpensPeer(line) then []
                else PeerGiven(lines, n)(key)
                     + if PlaceAt(lines, n) == InPeer && Sets(line, key) then [ValueIn(line, key)] else [])
  {
    hide OpensInterface, OpensPeer, Sets, ValueIn, PlaceAt;
  }

  /** What is said does not depend on comments. */
  lemma {:induction false} SameInterfaceSays(net: Netip, v: Given, v': Given, i: Interface, c: SectionComments)
    requires InterfaceSays(net, v, i) && forall key :: v'(key) == v(key)
    ensures InterfaceSays(net, v', i.(comments := c))
  {
    forall key
      ensures InterfaceFieldSays(net, v'(key), i.(comments := c), key)
    {
      hide IsKey, SpellsBetween, ArePrefixes, AreAddresses;
      assert InterfaceFieldSays(net, v(key), i, key);
    }
  }

  lemma {:induction false} SamePeerSays(net: Netip, v: Given, v': Given, p: Peer, c: SectionComments)
    requires PeerSays(net, v, p) && forall key :: v'(key) == v(key)
    ensures PeerSays(net, v', p.(comments := c))
  {
    forall key
      ensures PeerFieldSays(net, v'(key), p.(comments := c), key)
    {
      hide IsKey, IsKeepalive, ArePrefixes, IsEndpoint;
      assert PeerFieldSays(net, v(key), p, key);
    }
  }

  lemma {:induction false} EmptySays(net: Netip, v: Given, c: SectionComments)
    requires forall key :: v(key) == []
    ensures InterfaceSays(net, v, EMPTY_INTERFACE.(comments := c)) && PeerSays(net, v, EMPTY_PEER.(comments := c))
  {
  }

  lemma {:induction false} StartSays(net: Netip, lines: seq<string>)
    ensures StateSays(net, lines, 0, START)
  {
    EmptySays(net, InterfaceGiven(lines, 0), NO_SECTION_COMMENTS);
  }

  lemma {:induction false} PeersSayMore(net: Netip, lines: seq<string>, ends: seq<nat>, peers: seq<Peer>, end: nat, p: Peer)
    requires PeersSay(net, lines, ends, peers) && PeerSays(net, PeerGiven(lines, end), p)
    ensures PeersSay(net, lines, ends + [end], peers + [p])
  {
    hide PeerSays;
  }

  /** A line that sets nothing. */
  lemma {:induction false} QuietLine(net: Netip, lines: seq<string>, n: nat, st: State)
    requires n < |lines| && StateSays(net, lines, n, st)
    requires var scan := Scan(lines[n]); scan.Blank? || scan.InterfaceHeader? || scan.PeerHeader?
    ensures GoodLine(net, lines, n)
    ensures Step(net, st, lines[n]).Ok? && StateSays(net, lines, n + 1, Step(net, st, lines[n]).value)
  {
    hide Scan, Code, OpensInterface, OpensPeer, Sets, ValueIn, InterfaceSays, PeerSays, PlaceAt, HasPeer, Additions,
         InterfaceValues, PeerValues, PeersSay;
    var line := lines[n];
    ScanIs(line);
    NextLine(lines, n);
    forall key
      ensures InterfaceGiven(lines, n + 1)(key) == InterfaceGiven(lines, n)(key)
    {
      NextValues(lines, n, key);
    }
    forall key
      ensures PeerGiven(lines, n + 1)(key) == if OpensPeer(line) then [] else PeerGiven(lines, n)(key)
    {
      NextValues(lines, n, key);
    }
    var st' := Step(net, st, line).value;
    SameInterfaceSays(net, InterfaceGiven(lines, n), InterfaceGiven(lines, n + 1), st.interface, st'.interface.comments);
    if OpensPeer(line) {
      var v := PeerGiven(lines, n + 1);
      forall key
        ensures v(key) == []
      {
        NextValues(lines, n, key);
      }
      EmptySays(net, v, st'.peer.value.comments);
    } else if st.peer.Some? {
      SamePeerSays(net, PeerGiven(lines, n), PeerGiven(lines, n + 1), st.peer.value, st.peer.value.comments);
    }
    if st.peer.Some? {
      PeersSayMore(net, lines, Additions(lines, n), st.peers, n, st.peer.value);
    }
    assert InterfaceGiven(lines, n + 1)(PrivateKey) == InterfaceGiven(lines, n)(PrivateKey);
    assert Additions(lines, n) + [] == Additions(lines, n);
  }

  lemma {:induction false} GoodSetting(net: Netip, lines: seq<string>, n: nat)
    requires n < |lines| && (Scan(lines[n]).NoSeparator? || Scan(lines[n]).Assignment?)
    ensures GoodLine(net, lines, n)
       <==> && Scan(lines[n]).Assignment? && Scan(lines[n]).key.Some? && Scan(lines[n]).val != ""
            && Takes(net, PlaceAt(lines, n), Scan(lines[n]).key.value, Scan(lines[n]).val)
  {
    hide Scan, Code, OpensInterface, OpensPeer, Sets, ValueIn, PlaceAt, InterfaceTakes, PeerTakes;
    ScanIs(lines[n]);
    var scan := Scan(lines[n]);
    if scan.Assignment? && scan.key.Some? {
      assert Sets(lines[n], scan.key.value);
    }
  }

  lemma {:induction false} AssignTaken(net: Netip, st: State, key: ConfKey, val: string, comment: string)
    requires st.section.InPeer? ==> st.peer.Some?
    ensures Assign(net, st, key, val, comment).Ok? <==> Takes(net, st.section, key, val)
  {
    hide SetInterfaceField, SetPeerField, InterfaceTakes, PeerTakes, Annotate;
    var i := st.interface;
    InterfaceFieldTaken(net, i.(comments := Annotate(i.comments, key, st.pending, comment)), key, val);
    if st.section.InPeer? {
      var p := st.peer.value;
      PeerFieldTaken(net, p.(comments := Annotate(p.comments, key, st.pending, comment)), key, val);
    }
  }

  /** A line of any other kind is accepted exactly when it is good. */
  lemma {:induction false} OtherLine(net: Netip, lines: seq<string>, n: nat, st: State)
    requires n < |lines| && StateSays(net, lines, n, st)
    requires var scan := Scan(lines[n]); scan.NoSeparator? || scan.Assignment?
    ensures Step(net, st, lines[n]).Ok? <==> GoodLine(net, lines, n)
  {
    hide Scan, InterfaceSays, PeerSays, PlaceAt, HasPeer, Additions, InterfaceValues, PeerValues, PeersSay, GoodLine, Assign;
    var scan := Scan(lines[n]);
    GoodSetting(net, lines, n);
    if scan.Assignment? && scan.key.Some? {
      AssignTaken(net, st, scan.key.value, scan.val, scan.comment);
    }
  }

  lemma {:induction false} SettingLine(net: Netip, lines: seq<string>, n: nat, st: State)
    requires n < |lines| && StateSays(net, lines, n, st)
    requires Scan(lines[n]).Assignment? && Step(net, st, lines[n]).Ok?
    ensures StateSays(net, lines, n + 1, Step(net, st, lines[n]).value)
  {
    hide Scan, Code, OpensInterface, OpensPeer, Sets, ValueIn, InterfaceSays, PeerSays, PlaceAt, HasPeer, Additions,
         InterfaceValues, PeerValues, PeersSay, SetInterfaceField, SetPeerField, Annotate;
    var line := lines[n];
    ScanIs(line);
    NextLine(lines, n);
    var key, val, comment := Scan(line).key.value, Scan(line).val, Scan(line).comment;
    assert Sets(line, key) && val == ValueIn(line, key);
    var i := st.interface;
    var i0 := i.(comments := Annotate(i.comments, key, st.pending, comment));
    assert Additions(lines, n) + [] == Additions(lines, n);
    forall k
      ensures InterfaceGiven(lines, n + 1)(k)
           == InterfaceGiven(lines, n)(k) + if st.section.InInterface? && k == key then [val] else []
    {
      NextValues(lines, n, k);
    }
    forall k
      ensures PeerGiven(lines, n + 1)(k) == PeerGiven(lines, n)(k) + if st.section.InPeer? && k == key then [val] else []
    {
      NextValues(lines, n, k);
    }
    SameInterfaceSays(net, InterfaceGiven(lines, n), InterfaceGiven(lines, n), i, i0.comments);
    if st.section.InInterface? {
      InterfaceSet(net, InterfaceGiven(lines, n), InterfaceGiven(lines, n + 1), i0, key, val);
      if st.peer.Some? {
        SamePeerSays(net, PeerGiven(lines, n), PeerGiven(lines, n + 1), st.peer.value, st.peer.value.comments);
      }
    } else {
      var p := st.peer.value;
      var p0 := p.(comments := Annotate(p.comments, key, st.pending, comment));
      SamePeerSays(net, PeerGiven(lines, n), PeerGiven(lines, n), p, p0.comments);
      PeerSet(net, PeerGiven(lines, n), PeerGiven(lines, n + 1), p0, key, val);
      SameInterfaceSays(net, InterfaceGiven(lines, n), InterfaceGiven(lines, n + 1), i, i.comments);
    }
    assert InterfaceGiven(lines, n + 1)(PrivateKey) == InterfaceValues(lines, n + 1, PrivateKey);
    assert InterfaceGiven(lines, n)(PrivateKey) == InterfaceValues(lines, n, PrivateKey);
  }

  lemma {:induction false} RunMore(net: Netip, lines: seq<string>, n: nat)
    requires n < |lines|
    ensures Run(net, START, lines[..n + 1])
         == match Run(net, START, lines[..n]) { case Err(e) => Err(e) case Ok(st) => Step(net, st, lines[n]) }
  {
    hide Step;
    assert lines[..n + 1] == lines[..n] + [lines[n]];
    ConfRoundTrip.RunConcat(net, START, lines[..n], [lines[n]]);
    if Run(net, START, lines[..n]).Ok? {
      ConfRoundTrip.RunOne(net, Run(net, START, lines[..n]).value, lines[n]);
    }
  }

  /** The first n lines are accepted exactly when each of them is good, and then the state says what they say. */
  lemma {:induction false} RunSays(net: Netip, lines: seq<string>, n: nat)
    requires n <= |lines|
    ensures var r := Run(net, START, lines[..n]);
            && (r.Ok? <==> forall i | 0 <= i < n :: GoodLine(net, lines, i))
            && (r.Ok? ==> StateSays(net, lines, n, r.value))
    decreases n
  {
    hide Step, StateSays, GoodLine, Scan, START;
    if n == 0 {
      StartSays(net, lines);
    } else {
      RunSays(net, lines, n - 1);
      RunMore(net, lines, n - 1);
      if Run(net, START, lines[..n - 1]).Ok? {
        LineSays(net, lines, n - 1, Run(net, START, lines[..n - 1]).value);
      }
    }
  }

  lemma {:induction false} LineSays(net: Netip, lines: seq<string>, n: nat, st: State)
    requires n < |lines| && StateSays(net, lines, n, st)
    ensures Step(net, st, lines[n]).Ok? <==> GoodLine(net, lines, n)
    ensures Step(net, st, lines[n]).Ok? ==> StateSays(net, lines, n + 1, Step(net, st, lines[n]).value)
  {
    hide StateSays, GoodLine, Scan, Assign;
    var scan := Scan(lines[n]);
    if scan.NoSeparator? || scan.Assignment? {
      OtherLine(net, lines, n, st);
      if Step(net, st, lines[n]).Ok? {
        SettingLine(net, lines, n, st);
      }
    } else {
      QuietLine(net, lines, n, st);
    }
  }

  ghost predicate HasPublicKey(lines: seq<string>, end: nat) {
    var vals := PeerValues(lines, end, PublicKey);
    vals != [] && !IsKey(Last(vals), ZERO_KEY)
  }

  /** Which texts are accepted: the name is valid, every line is good where it stands, there is a private key, and every
      peer has a public key that is not zero. */
  ghost predicate Accepted(net: Netip, s: string, name: string) {
    var lines := Split(s, '\n');
    && TunnelName.IsValid(name)
    && (forall i | 0 <= i < |lines| :: GoodLine(net, lines, i))
    && InterfaceValues(lines, |lines|, PrivateKey) != []
    && forall end | end in AllAdditions(lines) :: HasPublicKey(lines, end)
  }

  /** The configuration says what the lines say, field by field and peer by peer. */
  ghost predicate Means(net: Netip, s: string, c: Config) {
    var lines := Split(s, '\n');
    && InterfaceSays(net, InterfaceGiven(lines, |lines|), c.interface)
    && PeersSay(net, lines, AllAdditions(lines), c.peers)
  }

  lemma {:induction false} AllPeersSay(net: Netip, lines: seq<string>, st: State)
    requires StateSays(net, lines, |lines|, st)
    ensures PeersSay(net, lines, AllAdditions(lines), MaybeAddPeer(st.peers, st.peer))
  {
    hide PeersSay, PeerSays, InterfaceSays;
    if st.peer.Some? {
      PeersSayMore(net, lines, Additions(lines, |lines|), st.peers, |lines|, st.peer.value);
    }
    assert Additions(lines, |lines|) + [] == Additions(lines, |lines|);
  }

  lemma {:induction false} PublicKeyIff(net: Netip, lines: seq<string>, end: nat, p: Peer)
    requires PeerSays(net, PeerGiven(lines, end), p)
    ensures p.publicKey != ZERO_KEY <==> HasPublicKey(lines, end)
  {
    assert PeerFieldSays(net, PeerGiven(lines, end)(PublicKey), p, PublicKey);
  }

  lemma {:induction false} PrunedPeersSay(net: Netip, lines: seq<string>, ends: seq<nat>, peers: seq<Peer>)
    requires PeersSay(net, lines, ends, peers)
    ensures PeersSay(net, lines, ends, PrunePeers(peers))
    ensures AllPublicKeysSet(PrunePeers(peers)) <==> forall end | end in ends :: HasPublicKey(lines, end)
  {
    hide PeerSays, PruneSection, HasPublicKey;
    var pruned := PrunePeers(peers);
    forall j | 0 <= j < |ends|
      ensures PeerSays(net, PeerGiven(lines, ends[j]), pruned[j])
      ensures pruned[j].publicKey != ZERO_KEY <==> HasPublicKey(lines, ends[j])
    {
      SamePeerSays(net, PeerGiven(lines, ends[j]), PeerGiven(lines, ends[j]), peers[j], pruned[j].comments);
      PublicKeyIff(net, lines, ends[j], pruned[j]);
    }
  }

  /** Parsing accepts exactly the texts whose lines are good, and gives the configuration that they describe. */
  lemma {:induction false} ParseMeans(net: Netip, s: string, name: string)
    ensures Parse(net, s, name).Ok? <==> Accepted(net, s, name)
    ensures Parse(net, s, name).Ok? ==> Parse(net, s, name).value.name == name && Means(net, s, Parse(net, s, name).value)
  {
    hide Run, GoodLine, PeersSay, PrunePeers, AllPublicKeysSet, HasPublicKey, TunnelName.IsValid, PruneSection, Prune,
         InterfaceSays, PeerSays, Split, START;
    var lines := Split(s, '\n');
    RunSays(net, lines, |lines|);
    assert lines[..|lines|] == lines;
    if Run(net, START, lines).Ok? {
      var st := Run(net, START, lines).value;
      AllPeersSay(net, lines, st);
      PrunedPeersSay(net, lines, AllAdditions(lines), MaybeAddPeer(st.peers, st.peer));
      SameInterfaceSays(net, InterfaceGiven(lines, |lines|), InterfaceGiven(lines, |lines|), st.interface,
                        PruneSection(st.interface.comments));
    }
  }

  // ---------------------------------------------------------------- errors

  /** What is wrong with a text that should be a number within bounds. */
  ghost function NumberError(val: string, outside: ParseError): ParseError {
    if exists n :: SpellsBetween(val, -0x8000_0000_0000_0000, 0x7fff_ffff_ffff_ffff, n) then outside else InvalidNumber
  }

  function KeyError(val: string): ParseError { if Base64.Decode(val).None? then InvalidBase64 else InvalidKeyLength }

  function ListError(val: string): ParseError { if "" in Items(val) then EmptyListItem else InvalidAddress }

  ghost predicate SpellsPort(s: string) { exists n :: SpellsBetween(s, 0, 65535, n) }

  ghost function EndpointError(net: Netip, val: string): ParseError {
    var colon := FindLast(val, ':');
    if colon < 0 then MissingEndpointPort
    else if colon == 0 then InvalidEndpointHost
    else if SpellsPort(val[colon + 1..]) then InvalidEndpointBrackets
    else NumberError(val[colon + 1..], InvalidPort)
  }

  ghost function InterfaceError(net: Netip, key: ConfKey, val: string): ParseError {
    match key
    case PrivateKey => KeyError(val)
    case ListenPort => NumberError(val, InvalidPort)
    case MTU => NumberError(val, InvalidMTU)
    case Address => ListError(val)
    case DNS => EmptyListItem
    case Table => InvalidNumber
    case _ => UnknownInterfaceKey
  }

  ghost function PeerError(net: Netip, key: ConfKey, val: string): ParseError {
    match key
    case PublicKey => KeyError(val)
    case PresharedKey => KeyError(val)
    case AllowedIPs => ListError(val)
    case EndpointKey => EndpointError(net, val)
    case PersistentKeepalive => NumberError(val, InvalidKeepalive)
    case _ => UnknownPeerKey
  }

  ghost function SettingError(net: Netip, place: Section, key: ConfKey, val: string): ParseError {
    if val == "" then MissingValue
    else if place.InInterface? then InterfaceError(net, key, val)
    else PeerError(net, key, val)
  }

  /** What is wrong with a line that is not good in its section. */
  ghost predicate LineError(net: Netip, place: Section, line: string, e: ParseError) {
    if place.NotInASection? then e == LineOutsideSection
    else if '=' !in Code(line) then e == MissingSeparator
    else if exists key :: Sets(line, key) then
      forall key | Sets(line, key) :: e == SettingError(net, place, key, ValueIn(line, key))
    else if TrimSpace(After(Code(line), '=')) == "" then e == MissingValue
    else e == if place.InInterface? then UnknownInterfaceKey else UnknownPeerKey
  }

  lemma {:induction false} RangeFails(val: string, low: nat, high: nat, outside: ParseError)
    requires high < 0x1_0000
    ensures ParseRange(val, low, high, outside).Err? ==>
              ParseRange(val, low, high, outside).error == NumberError(val, outside)
  {
    hide Atoi, Spells;
    forall n: int
      ensures Atoi(val) == Some(n) <==> SpellsBetween(val, -0x8000_0000_0000_0000, 0x7fff_ffff_ffff_ffff, n)
    {
      AtoiIff(val, n);
    }
    if Atoi(val).Some? {
      assert SpellsBetween(val, -0x8000_0000_0000_0000, 0x7fff_ffff_ffff_ffff, Atoi(val).value);
    }
  }

  lemma {:induction false} EndpointFails(net: Netip, val: string)
    ensures ParseEndpoint(net, val).Err? ==> ParseEndpoint(net, val).error == EndpointError(net, val)
  {
    hide FindLast, HoldsIPv6, Bracketed, ParseRange, SpellsBetween, NumberError;
    var colon := FindLast(val, ':');
    if colon > 0 {
      RangeFails(val[colon + 1..], 0, 65535, InvalidPort);
      NumberTaken(val[colon + 1..], 0, 65535, InvalidPort);
    }
  }

  lemma {:induction false} PrefixesFail(net: Netip, items: seq<string>)
    ensures ParseIPCidrs(net, items).Err? ==> ParseIPCidrs(net, items).error == InvalidAddress
  {
    if items != [] {
      PrefixesFail(net, items[1..]);
    }
  }

  lemma {:induction false} ListFails(net: Netip, val: string)
    ensures ParsePrefixes(net, val).Err? ==> ParsePrefixes(net, val).error == ListError(val)
    ensures SplitList(val).Err? ==> SplitList(val).error == EmptyListItem
  {
    hide Items, ParseIPCidr;
    SplitListIs(val);
    PrefixesFail(net, Items(val));
  }

  lemma KeyFails(val: string)
    ensures ParseKeyBase64(val).Err? ==> ParseKeyBase64(val).error == KeyError(val)
  {
    hide Base64.Decode;
  }

  lemma TableFails(val: string)
    ensures ParseTableOff(val).Err? ==> ParseTableOff(val).error == InvalidNumber
  {
  }

  lemma {:induction false} KeepaliveFails(val: string)
    ensures ParsePersistentKeepalive(val).Err? ==>
              ParsePersistentKeepalive(val).error == NumberError(val, InvalidKeepalive)
  {
    hide ParseRange, NumberError;
    RangeFails(val, 0, 65535, InvalidKeepalive);
  }

  lemma {:induction false} InterfaceFails(net: Netip, i: Interface, key: ConfKey, val: string)
    ensures SetInterfaceField(net, i, key, val).Err? ==>
              SetInterfaceField(net, i, key, val).error == InterfaceError(net, key, val)
  {
    hide ParseKeyBase64, ParseRange, ParsePrefixes, SplitList, KeyError, ListError, NumberError, ParseTableOff;
    KeyFails(val);
    RangeFails(val, 0, 65535, InvalidPort);
    RangeFails(val, 576, 65535, InvalidMTU);
    ListFails(net, val);
    TableFails(val);
  }

  lemma {:induction false} PeerFails(net: Netip, p: Peer, key: ConfKey, val: string)
    ensures SetPeerField(net, p, key, val).Err? ==> SetPeerField(net, p, key, val).error == PeerError(net, key, val)
  {
    hide ParseKeyBase64, ParsePersistentKeepalive, ParsePrefixes, KeyError, ListError, NumberError, ParseEndpoint,
         EndpointError;
    KeyFails(val);
    KeepaliveFails(val);
    ListFails(net, val);
    EndpointFails(net, val);
  }

  lemma {:induction false} AssignFails(net: Netip, st: State, key: ConfKey, val: string, comment: string)
    requires InSection(st) && val != "" && Assign(net, st, key, val, comment).Err?
    ensures Assign(net, st, key, val, comment).error == SettingError(net, st.section, key, val)
  {
    hide SetInterfaceField, SetPeerField, Annotate, InterfaceError, PeerError;
    var i := st.interface;
    InterfaceFails(net, i.(comments := Annotate(i.comments, key, st.pending, comment)), key, val);
    if st.section.InPeer? {
      var p := st.peer.value;
      PeerFails(net, p.(comments := Annotate(p.comments, key, st.pending, comment)), key, val);
    }
  }

  lemma {:induction false} StepFails(net: Netip, lines: seq<string>, n: nat, st: State)
    requires n < |lines| && StateSays(net, lines, n, st) && Step(net, st, lines[n]).Err?
    ensures LineError(net, PlaceAt(lines, n), lines[n], Step(net, st, lines[n]).error)
  {
    hide Scan, Code, OpensInterface, OpensPeer, Sets, ValueIn, InterfaceSays, PeerSays, PlaceAt, HasPeer, Additions,
         InterfaceValues, PeerValues, PeersSay, InterfaceError, PeerError, Assign;
    var scan := Scan(lines[n]);
    ScanIs(lines[n]);
    if scan.Assignment? && scan.key.Some? {
      assert Sets(lines[n], scan.key.value) && scan.val == ValueIn(lines[n], scan.key.value);
      if InSection(st) && scan.val != "" {
        AssignFails(net, st, scan.key.value, scan.val, scan.comment);
      }
    }
  }

  /** The error of a refused text: the name's, or else that of the first bad line, or else that of a missing key. */
  ghost predicate Refusal(net: Netip, s: string, name: string, e: ParseError) {
    var lines := Split(s, '\n');
    if !TunnelName.IsValid(name) then e == InvalidTunnelName
    else if exists i :: 0 <= i < |lines| && !GoodLine(net, lines, i) then
      exists i ::
        && 0 <= i < |lines| && !GoodLine(net, lines, i) && (forall j | 0 <= j < i :: GoodLine(net, lines, j))
        && LineError(net, PlaceAt(lines, i), lines[i], e)
    else e == if InterfaceValues(lines, |lines|, PrivateKey) == [] then MissingPrivateKey else MissingPublicKey
  }

  lemma {:induction false} RunFails(net: Netip, lines: seq<string>, n: nat) returns (i: nat)
    requires n <= |lines| && Run(net, START, lines[..n]).Err?
    ensures i < n && !GoodLine(net, lines, i) && (forall j | 0 <= j < i :: GoodLine(net, lines, j))
    ensures LineError(net, PlaceAt(lines, i), lines[i], Run(net, START, lines[..n]).error)
    decreases n
  {
    hide Step, StateSays, GoodLine, Scan, START, LineError, PlaceAt;
    RunNothing(net, lines);
    if n > 0 {
      RunMore(net, lines, n - 1);
      RunSays(net, lines, n - 1);
      if Run(net, START, lines[..n - 1]).Err? {
        i := RunFails(net, lines, n - 1);
      } else {
        i := n - 1;
        LineSays(net, lines, i, Run(net, START, lines[..i]).value);
        StepFails(net, lines, i, Run(net, START, lines[..i]).value);
      }
    }
  }

  lemma RunNothing(net: Netip, lines: seq<string>)
    ensures Run(net, START, lines[..0]).Ok?
  {
  }

  lemma {:induction false} ParseFails(net: Netip, s: string, name: string)
    requires Parse(net, s, name).Err?
    ensures Refusal(net, s, name, Parse(net, s, name).error)
  {
    hide Run, GoodLine, PeersSay, PrunePeers, AllPublicKeysSet, TunnelName.IsValid, PruneSection, Prune, InterfaceSays,
         PeerSays, Split, START, LineError, PlaceAt;
    var lines := Split(s, '\n');
    RunSays(net, lines, |lines|);
    assert lines[..|lines|] == lines;
    if TunnelName.IsValid(name) && Run(net, START, lines).Err? {
      var i := RunFails(net, lines, |lines|);
    }
  }
}
