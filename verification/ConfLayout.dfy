/** How printed text looks: no run of blank lines, no blank line at the top. */
module ConfLayout {
  import opened Netip
  import opened Config
  import opened ConfParser
  import opened ConfWriter
  import opened ConfCanonical
  import opened ConfRoundTrip
  import ConfParsed

  /** Blank lines stand alone, and the last line is not blank. */
  ghost predicate Block(lines: seq<string>) {
    NoDoubleBlank(lines) && (lines != [] ==> lines[|lines| - 1] != "")
  }

  lemma {:induction false} BlockThen(a: seq<string>, b: seq<string>)
    requires Block(a) && NoDoubleBlank(b)
    ensures NoDoubleBlank(a + b)
    ensures Block(b) ==> Block(a + b)
  {
    var c := a + b;
    forall i, j | 0 <= i < j < |c| && j == i + 1
      ensures c[i] != "" || c[j] != ""
    {
      if j < |a| {
        assert a[i] != "" || a[j] != "";
      } else if i >= |a| {
        assert b[i - |a|] != "" || b[j - |a|] != "";
      }
    }
  }

  lemma {:induction false} CommentedBlock(c: Comments, body: string)
    requires NoDoubleBlank(c.before) && body != ""
    ensures Block(CommentedLine(c, body))
  {
    var lines := CommentedLine(c, body);
    assert lines[|c.before|] != "";
    forall i, j | 0 <= i < j < |lines| && j == i + 1
      ensures lines[i] != "" || lines[j] != ""
    {
      if j < |c.before| {
        assert c.before[i] != "" || c.before[j] != "";
      }
    }
  }

  lemma {:induction false} FieldBlock(sc: SectionComments, key: ConfKey, present: bool, value: string)
    requires TightLines(sc)
    ensures Block(FieldLines(sc, key, present, value))
  {
    hide Spelling, CommentedLine, Block;
    var body := Spelling(key) + " = " + value;
    assert |body| >= 3;
    NoLines();
    if key in sc.lines {
      CommentedBlock(sc.lines[key], body);
    } else {
      CommentedBlock(NO_COMMENTS, body);
    }
  }

  lemma NoLines()
    ensures Block([])
  {
  }

  lemma {:induction false} InterfaceBlock(net: Netip, i: Interface, n: nat)
    requires n <= 10 && TightLines(i.comments)
    ensures Block(InterfaceFields(net, i, n))
  {
    hide Block, FieldLines, InterfaceValue, InterfacePresent, NoDoubleBlank, TightLines;
    NoLines();
    if n > 0 {
      var k := InterfaceKey(n - 1);
      InterfaceBlock(net, i, n - 1);
      FieldBlock(i.comments, k, InterfacePresent(i, k), InterfaceValue(net, i, k));
      BlockIsSpaced(InterfaceFieldLines(net, i, k));
      BlockThen(InterfaceFields(net, i, n - 1), InterfaceFieldLines(net, i, k));
    }
  }

  lemma {:induction false} PeerBlock(net: Netip, p: Peer, n: nat)
    requires n <= 5 && TightLines(p.comments)
    ensures Block(PeerFields(net, p, n))
  {
    hide Block, FieldLines, PeerValue, PeerPresent, NoDoubleBlank, TightLines;
    NoLines();
    if n > 0 {
      var k := PeerKey(n - 1);
      PeerBlock(net, p, n - 1);
      FieldBlock(p.comments, k, PeerPresent(p, k), PeerValue(net, p, k));
      BlockIsSpaced(PeerFieldLines(net, p, k));
      BlockThen(PeerFields(net, p, n - 1), PeerFieldLines(net, p, k));
    }
  }

  lemma BlockIsSpaced(lines: seq<string>)
    requires Block(lines)
    ensures NoDoubleBlank(lines)
  {
  }

  lemma {:induction false} WholePeerBlock(net: Netip, p: Peer)
    requires TightSection(p.comments)
    ensures Block(PeerLines(net, p))
  {
    hide PeerFields, Block;
    var c := p.comments.header;
    var loose := Loosen(p).comments.header;
    assert NoDoubleBlank(loose.before) by {
      forall i, j | 0 <= i < j < |loose.before| && j == i + 1
        ensures loose.before[i] != "" || loose.before[j] != ""
      {
        if i > 0 {
          assert c.before[i - 1] != "" || c.before[j - 1] != "";
        }
      }
    }
    CommentedBlock(loose, "[Peer]");
    assert CommentedLine(loose, "[Peer]") == [""] + CommentedLine(c, "[Peer]");
    PeerBlock(net, p, 5);
    BlockIsSpaced(PeerFields(net, p, 5));
    BlockThen([""] + CommentedLine(c, "[Peer]"), PeerFields(net, p, 5));
  }

  lemma {:induction false} AllPeersBlock(net: Netip, ps: seq<Peer>)
    requires forall i | 0 <= i < |ps| :: TightSection(ps[i].comments)
    ensures Block(AllPeerLines(net, ps))
  {
    hide PeerLines, Block, TightSection, NoDoubleBlank;
    NoLines();
    if ps != [] {
      WholePeerBlock(net, ps[0]);
      AllPeersBlock(net, ps[1..]);
      BlockIsSpaced(AllPeerLines(net, ps[1..]));
      BlockThen(PeerLines(net, ps[0]), AllPeerLines(net, ps[1..]));
    }
  }

  lemma {:induction false} PrintedLinesSpaced(net: Netip, c: Config)
    requires Canonical(net, c)
    ensures NoDoubleBlank(PrintLines(net, c)) && PrintLines(net, c) != [] && PrintLines(net, c)[0] != ""
  {
    hide InterfaceFields, AllPeerLines, Block, InterfaceOk, PeerOk, TunnelName.IsValid, CommentLine, NoDoubleBlank;
    var h := c.interface.comments.header;
    var header, fields := CommentedLine(h, "[Interface]"), InterfaceFields(net, c.interface, 10);
    CommentedBlock(h, "[Interface]");
    InterfaceBlock(net, c.interface, 10);
    BlockIsSpaced(fields);
    BlockThen(header, fields);
    AllPeersBlock(net, c.peers);
    BlockIsSpaced(AllPeerLines(net, c.peers));
    BlockThen(header + fields, AllPeerLines(net, c.peers));
    BlockThen(header + fields + AllPeerLines(net, c.peers), c.trailingComments);
    assert header[0] != "";
  }

  ghost predicate ThreeNewlinesAt(s: string, i: nat) {
    i + 2 < |s| && s[i] == '\n' && s[i + 1] == '\n' && s[i + 2] == '\n'
  }

  lemma {:induction false} UnlinesHead(lines: seq<string>)
    requires forall l | l in lines :: '\n' !in l
    ensures Unlines(lines) != "" && Unlines(lines)[0] == '\n' ==> lines != [] && lines[0] == ""
    ensures |Unlines(lines)| > 1 && Unlines(lines)[0] == '\n' && Unlines(lines)[1] == '\n'
            ==> |lines| > 1 && lines[0] == "" && lines[1] == ""
  {
    if lines != [] {
      var l := lines[0];
      var rest := Unlines(lines[1..]);
      assert l in lines;
      assert Unlines(lines) == l + "\n" + rest;
      if l == "" && |lines| > 1 {
        assert lines[1..][0] in lines;
        assert rest == lines[1] + "\n" + Unlines(lines[1..][1..]);
      }
    }
  }

  lemma {:induction false} NoThreeNewlines(lines: seq<string>, i: nat)
    requires (forall l | l in lines :: '\n' !in l) && NoDoubleBlank(lines)
    ensures !ThreeNewlinesAt(Unlines(lines), i)
    decreases |lines|
  {
    if lines != [] {
      var l, rest := lines[0], Unlines(lines[1..]);
      var s := Unlines(lines);
      assert l in lines;
      assert s == l + "\n" + rest;
      assert NoDoubleBlank(lines[1..]) by {
        forall m, n | 0 <= m < n < |lines[1..]| && n == m + 1
          ensures lines[1..][m] != "" || lines[1..][n] != ""
        {
          assert lines[m + 1] != "" || lines[n + 1] != "";
        }
      }
      UnlinesHead(lines[1..]);
      assert forall j | |l| < j < |s| :: s[j] == rest[j - |l| - 1];
      assert |lines| > 2 ==> lines[1] != "" || lines[2] != "";
      if i > |l| {
        NoThreeNewlines(lines[1..], i - |l| - 1);
      } else if i < |l| {
        assert s[i] == l[i];
      }
    }
  }

  /** Printing an accepted text leaves no two blank lines in a row and none at the top. */
  lemma {:induction false} PrintedLayout(net: Netip, s: string, name: string)
    requires net.Lawful() && Parse(net, s, name).Ok?
    ensures var text := Print(net, Parse(net, s, name).value);
            text != "" && text[0] != '\n' && forall i: nat :: !ThreeNewlinesAt(text, i)
  {
    hide Parse, PrintLines, Canonical, ThreeNewlinesAt, NoDoubleBlank;
    var c := Parse(net, s, name).value;
    ConfParsed.ParsedIsCanonical(net, s, name);
    PrintedLinesSpaced(net, c);
    PrintedHasNoNewline(net, c);
    UnlinesHead(PrintLines(net, c));
    forall i: nat
      ensures !ThreeNewlinesAt(Print(net, c), i)
    {
      NoThreeNewlines(PrintLines(net, c), i);
    }
  }
}
