/** The configurations that survive printing and parsing: what the parser can produce, said field by field. */
module ConfCanonical {
  import opened Wrappers
  import opened Text
  import opened Netip
  import opened Config
  import opened ConfParser
  import opened ConfWriter
  import TunnelName

  ghost predicate CommentText(s: string) {
    s != "" && s[0] == '#' && '\n' !in s && !IsCommentPadding(s[|s| - 1])
  }

  /** A comment, or a blank line. */
  ghost predicate CommentLine(s: string) { s == "" || CommentText(s) }

  ghost predicate CleanComments(c: Comments) {
    (forall l | l in c.before :: CommentLine(l)) && CommentLine(c.suffix)
  }

  ghost predicate NoDoubleBlank(run: seq<string>) {
    forall i, j | 0 <= i < j < |run| && j == i + 1 :: run[i] != "" || run[j] != ""
  }

  /** No two blank lines in a row, none where they are dropped, and never just one blank line. */
  ghost predicate Tight(run: seq<string>, dropLeading: bool, dropTrailing: bool) {
    && NoDoubleBlank(run)
    && (run != [] && dropLeading ==> run[0] != "")
    && (run != [] && dropTrailing ==> run[|run| - 1] != "")
    && run != [""]
  }

  ghost predicate TightSection(sc: SectionComments) {
    && Tight(sc.header.before, true, false)
    && forall k | k in sc.lines :: Tight(sc.lines[k].before, false, false) && sc.lines[k] != NO_COMMENTS
  }

  ghost predicate CleanSection(sc: SectionComments) {
    CleanComments(sc.header) && forall k | k in sc.lines :: CleanComments(sc.lines[k])
  }

  // ---------------------------------------------------------------- fields

  ghost predicate ServerOk(net: Netip, a: Addr) { a.Valid() && Item(net.addrString(a)) }

  ghost predicate DomainOk(net: Netip, d: string) { Item(d) && net.parseAddr(d).None? }

  ghost predicate HookOk(s: string) { Trimmed(s) && '\n' !in s }

  /** A value as it can stand on a line that may end in a comment. */
  ghost predicate ValueText(s: string) { s != "" && Trimmed(s) && '#' !in s && '\n' !in s }

  /** A host with a colon is an IPv6 address, printed in brackets; any other host has no bracket at either end. */
  ghost predicate EndpointOk(net: Netip, e: Endpoint) {
    if e.host == "" then e.port == 0
    else
      && ValueText(EndpointString(e))
      && (if ':' in e.host then HoldsIPv6(net, "[" + e.host + "]")
          else e.host[0] != '[' && e.host[|e.host| - 1] != ']')
  }

  ghost predicate InterfaceFieldsOk(net: Netip, i: Interface) {
    && (forall p | p in i.addresses :: p.Valid())
    && (forall a | a in i.dns :: ServerOk(net, a))
    && (forall d | d in i.dnsSearch :: DomainOk(net, d))
    && (i.mtu == 0 || 576 <= i.mtu)
    && HookOk(i.preUp) && HookOk(i.postUp) && HookOk(i.preDown) && HookOk(i.postDown)
  }

  ghost predicate IsPeerKey(k: ConfKey) {
    k.PublicKey? || k.PresharedKey? || k.AllowedIPs? || k.EndpointKey? || k.PersistentKeepalive?
  }

  /** The field is one the writer prints, with a value that parses. */
  ghost predicate InterfaceHas(i: Interface, k: ConfKey) {
    match k
    case Address => i.addresses != []
    case DNS => i.dns != [] || i.dnsSearch != []
    case MTU => i.mtu != 0
    case PreUp => i.preUp != ""
    case PostUp => i.postUp != ""
    case PreDown => i.preDown != ""
    case PostDown => i.postDown != ""
    case _ => !IsPeerKey(k)
  }

  ghost predicate PeerHas(p: Peer, k: ConfKey) {
    match k
    case AllowedIPs => p.allowedIPs != []
    case EndpointKey => p.endpoint.host != ""
    case _ => IsPeerKey(k)
  }

  /** A key that owns comments is printed again; hooks own no suffix. */
  ghost predicate InterfaceCommentsOk(i: Interface) {
    forall k | k in i.comments.lines :: InterfaceHas(i, k) && (IsHook(k) ==> i.comments.lines[k].suffix == "")
  }

  ghost predicate InterfaceOk(net: Netip, i: Interface) {
    InterfaceFieldsOk(net, i) && InterfaceCommentsOk(i) && CleanSection(i.comments)
  }

  ghost predicate PeerFieldsOk(net: Netip, p: Peer) {
    (forall a | a in p.allowedIPs :: a.Valid()) && EndpointOk(net, p.endpoint)
  }

  ghost predicate PeerCommentsOk(p: Peer) {
    forall k | k in p.comments.lines :: PeerHas(p, k)
  }

  ghost predicate PeerOk(net: Netip, p: Peer) {
    PeerFieldsOk(net, p) && PeerCommentsOk(p) && CleanSection(p.comments)
  }

  ghost predicate Canonical(net: Netip, c: Config) {
    && TunnelName.IsValid(c.name)
    && InterfaceOk(net, c.interface) && TightSection(c.interface.comments)
    && (forall i | 0 <= i < |c.peers| ::
          && PeerOk(net, c.peers[i]) && TightSection(c.peers[i].comments)
          && c.peers[i].publicKey != ZERO_KEY)
    && (forall l | l in c.trailingComments :: CommentLine(l))
    && Tight(c.trailingComments, false, true)
  }

  // ---------------------------------------------------------------- pruning

  lemma {:induction false} CollapseTight(run: seq<string>)
    ensures NoDoubleBlank(Collapse(run))
  {
    if run != [] {
      CollapseTight(run[..|run| - 1]);
    }
  }

  lemma {:induction false} CollapseId(run: seq<string>)
    requires NoDoubleBlank(run)
    ensures Collapse(run) == run
  {
    if run != [] {
      var n := |run| - 1;
      var init := run[..n];
      assert NoDoubleBlank(init) by {
        forall i, j | 0 <= i < j < |init| && j == i + 1
          ensures init[i] != "" || init[j] != ""
        {
          assert run[i] != "" || run[j] != "";
        }
      }
      CollapseId(init);
      assert n > 0 ==> init[n - 1] == run[n - 1] && (run[n - 1] != "" || run[n] != "");
      assert run == init + [run[n]];
    }
  }

  lemma {:induction false} PruneTight(run: seq<string>, dropLeading: bool, dropTrailing: bool)
    ensures Tight(Prune(run, dropLeading, dropTrailing), dropLeading, dropTrailing)
  {
    CollapseTight(run);
  }

  lemma {:induction false} PruneId(run: seq<string>, dropLeading: bool, dropTrailing: bool)
    requires Tight(run, dropLeading, dropTrailing)
    ensures Prune(run, dropLeading, dropTrailing) == run
  {
    CollapseId(run);
  }

  /** The blank line that the writer puts before a peer is dropped again. */
  lemma {:induction false} PruneAfterBlank(run: seq<string>)
    requires Tight(run, true, false)
    ensures Prune([""] + run, true, false) == run
  {
    CollapseId([""] + run);
  }

  /** So is the empty piece after the last line feed. */
  lemma {:induction false} PruneBeforeBlank(run: seq<string>)
    requires Tight(run, false, true)
    ensures Prune(run + [""], false, true) == run
  {
    CollapseId(run + [""]);
    assert (run + [""])[..|run|] == run;
  }

  lemma {:induction false} PruneSectionTight(sc: SectionComments)
    ensures TightSection(PruneSection(sc))
    ensures CleanSection(sc) ==> CleanSection(PruneSection(sc))
  {
    PruneTight(sc.header.before, true, false);
    forall k | k in PruneSection(sc).lines
      ensures Tight(PruneSection(sc).lines[k].before, false, false)
    {
      PruneTight(sc.lines[k].before, false, false);
    }
  }

  lemma {:induction false} PruneSectionId(sc: SectionComments)
    requires TightSection(sc)
    ensures PruneSection(sc) == sc
  {
    PruneId(sc.header.before, true, false);
    forall k | k in sc.lines
      ensures PruneKey(sc.lines[k]) == sc.lines[k]
    {
      PruneId(sc.lines[k].before, false, false);
    }
  }

  /** Pruning twice is pruning once, so peers that share their comments may be pruned one after the other. */
  lemma {:induction false} PruneSectionIdempotent(sc: SectionComments)
    ensures PruneSection(PruneSection(sc)) == PruneSection(sc)
  {
    PruneSectionTight(sc);
    PruneSectionId(PruneSection(sc));
  }
}
