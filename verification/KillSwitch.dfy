/** The kill switch of the editor, which rewrites the default routes of a tunnel, and the decision it steers
    (ui/editdialog.go, tunnel/addressconfig.go). */
module KillSwitch {
  import opened Config
  import opened ConfCanonical
  import opened ConfParser
  import opened ConfReader
  import opened ConfWriter
  import opened Netip
  import opened Wrappers
  import ConfMeaning
  import ConfParsed
  import ConfRoundTrip
  import Pow
  import TunnelName

  const V4_ALL: Prefix := Prefix(V4(0), 0)
  const V6_ALL: Prefix := Prefix(V6(0, ""), 0)
  const V4_LOW: Prefix := Prefix(V4(0), 1)
  const V4_HIGH: Prefix := Prefix(V4(0x8000_0000), 1)
  const V6_LOW: Prefix := Prefix(V6(0, ""), 1)
  const V6_HIGH: Prefix := Prefix(V6(0x8000_0000_0000_0000_0000_0000_0000_0000, ""), 1)

  type Prefixes = seq<Prefix>

  predicate IsHalf(p: Prefix) { p == V4_LOW || p == V4_HIGH || p == V6_LOW || p == V6_HIGH }

  predicate IsAll(p: Prefix) { p == V4_ALL || p == V6_ALL }

  function Keep(ips: Prefixes, drop: Prefix -> bool): Prefixes {
    if ips == [] then [] else Keep(ips[..|ips| - 1], drop) + if drop(ips[|ips| - 1]) then [] else [ips[|ips| - 1]]
  }

  /** The halves of one family, joined if both were found. */
  function Joined(low: bool, high: bool, all: Prefix, lo: Prefix, hi: Prefix): Prefixes {
    if low && high then [all] else if low then [lo] else if high then [hi] else []
  }

  function SwitchOn(ips: Prefixes): Option<Prefixes> {
    var l4, h4, l6, h6 := V4_LOW in ips, V4_HIGH in ips, V6_LOW in ips, V6_HIGH in ips;
    if !((l4 && h4) || (l6 && h6)) then None
    else Some(Keep(ips, IsHalf) + Joined(l4, h4, V4_ALL, V4_LOW, V4_HIGH) + Joined(l6, h6, V6_ALL, V6_LOW, V6_HIGH))
  }

  function SwitchOff(ips: Prefixes): Option<Prefixes> {
    if !(V4_ALL in ips || V6_ALL in ips) then None
    else Some(Keep(ips, IsAll)
              + (if V4_ALL in ips then [V4_LOW, V4_HIGH] else [])
              + (if V6_ALL in ips then [V6_LOW, V6_HIGH] else []))
  }

  // ---------------------------------------------------------------- coverage

  ghost predicate Covered(a: Addr, ips: Prefixes) { exists p :: p in ips && Contains(p, a) }

  lemma {:induction false} KeepIn(ips: Prefixes, drop: Prefix -> bool, p: Prefix)
    ensures p in Keep(ips, drop) <==> p in ips && !drop(p)
    decreases |ips|
  {
    if ips != [] {
      KeepIn(ips[..|ips| - 1], drop, p);
      assert ips == ips[..|ips| - 1] + [ips[|ips| - 1]];
    }
  }

  /** The prefixes after switching on, as a set. */
  lemma {:induction false} OnIn(ips: Prefixes, p: Prefix)
    requires SwitchOn(ips).Some?
    ensures p in SwitchOn(ips).value <==>
            || (p in ips && !IsHalf(p))
            || (p == V4_ALL && V4_LOW in ips && V4_HIGH in ips)
            || ((p == V4_LOW || p == V4_HIGH) && p in ips && !(V4_LOW in ips && V4_HIGH in ips))
            || (p == V6_ALL && V6_LOW in ips && V6_HIGH in ips)
            || ((p == V6_LOW || p == V6_HIGH) && p in ips && !(V6_LOW in ips && V6_HIGH in ips))
  {
    hide Keep;
    KeepIn(ips, IsHalf, p);
  }

  lemma {:induction false} OffIn(ips: Prefixes, p: Prefix)
    requires SwitchOff(ips).Some?
    ensures p in SwitchOff(ips).value <==>
            || (p in ips && !IsAll(p))
            || ((p == V4_LOW || p == V4_HIGH) && V4_ALL in ips)
            || ((p == V6_LOW || p == V6_HIGH) && V6_ALL in ips)
  {
    hide Keep;
    KeepIn(ips, IsAll, p);
  }

  /** A default route covers what its two halves cover. */
  lemma {:induction false} HalvesCover(a: Addr)
    requires a.Valid()
    ensures Contains(V4_ALL, a) <==> Contains(V4_LOW, a) || Contains(V4_HIGH, a)
    ensures Contains(V6_ALL, a) <==> Contains(V6_LOW, a) || Contains(V6_HIGH, a)
  {
    hide Pow.Pow2;
    Sizes();
    match a
    case V4(b) =>
      Halved(b, 0x8000_0000);
    case V6(b, zone) =>
      Halved(b, 0x8000_0000_0000_0000_0000_0000_0000_0000);
  }

  lemma Halved(b: nat, half: nat)
    requires half > 0 && b < 2 * half
    ensures b / half == 0 || b / half == 1
    ensures b / (2 * half) == 0 && 0 / half == 0 && half / half == 1 && 0 / (2 * half) == 0
  {
    Pow.DivModUnique(b, half, if b < half then 0 else 1, if b < half then b else b - half);
    Pow.DivModUnique(b, 2 * half, 0, b);
    Pow.DivModUnique(0, half, 0, 0);
    Pow.DivModUnique(half, half, 1, 0);
    Pow.DivModUnique(0, 2 * half, 0, 0);
  }

  lemma Sizes()
    ensures Pow.Pow2(31) == 0x8000_0000 && Pow.Pow2(32) == POW32
    ensures Pow.Pow2(127) == 0x8000_0000_0000_0000_0000_0000_0000_0000 && Pow.Pow2(128) == POW128
  {
    hide Pow.Pow2;
    Eight(0);
    Eight(8);
    Eight(16);
    Eight(24);
    Eight(32);
    Eight(40);
    Eight(48);
    Eight(56);
    Eight(64);
    Eight(72);
    Eight(80);
    Eight(88);
    Eight(96);
    Eight(104);
    Eight(112);
    Eight(120);
    Zero();
    Last(31);
    Last(127);
  }

  lemma Zero()
    ensures Pow.Pow2(0) == 1
  {
  }

  lemma Last(k: nat)
    ensures Pow.Pow2(k + 1) == 2 * Pow.Pow2(k)
  {
  }

  lemma Eight(k: nat)
    ensures Pow.Pow2(k + 8) == 256 * Pow.Pow2(k)
  {
    assert Pow.Pow2(k + 2) == 4 * Pow.Pow2(k);
    assert Pow.Pow2(k + 4) == 4 * Pow.Pow2(k + 2);
    assert Pow.Pow2(k + 6) == 4 * Pow.Pow2(k + 4);
  }

  /** Switching on leaves the covered addresses as they were. */
  lemma {:induction false} OnCovers(ips: Prefixes, a: Addr)
    requires SwitchOn(ips).Some? && a.Valid()
    ensures Covered(a, SwitchOn(ips).value) <==> Covered(a, ips)
  {
    hide SwitchOn, Contains;
    HalvesCover(a);
    var after := SwitchOn(ips).value;
    forall p
      ensures p in ips && Contains(p, a) ==> Covered(a, after)
      ensures p in after && Contains(p, a) ==> Covered(a, ips)
    {
      OnIn(ips, p);
      OnIn(ips, V4_ALL);
      OnIn(ips, V6_ALL);
    }
  }

  /** So does switching off. */
  lemma {:induction false} OffCovers(ips: Prefixes, a: Addr)
    requires SwitchOff(ips).Some? && a.Valid()
    ensures Covered(a, SwitchOff(ips).value) <==> Covered(a, ips)
  {
    hide SwitchOff, Contains;
    HalvesCover(a);
    var after := SwitchOff(ips).value;
    forall p
      ensures p in ips && Contains(p, a) ==> Covered(a, after)
      ensures p in after && Contains(p, a) ==> Covered(a, ips)
    {
      OffIn(ips, p);
      OffIn(ips, V4_LOW);
      OffIn(ips, V4_HIGH);
      OffIn(ips, V6_LOW);
      OffIn(ips, V6_HIGH);
    }
  }

  /** On and off again brings the same prefixes back, as a set, if and only if there was no default route to begin with:
      such a route comes back as halves. */
  lemma {:induction false} OnOff(ips: Prefixes)
    requires SwitchOn(ips).Some?
    ensures SwitchOff(SwitchOn(ips).value).Some?
    ensures (forall p :: p in SwitchOff(SwitchOn(ips).value).value <==> p in ips) <==> V4_ALL !in ips && V6_ALL !in ips
  {
    hide SwitchOff, SwitchOn;
    OnIn(ips, V4_ALL);
    OnIn(ips, V6_ALL);
    var on := SwitchOn(ips).value;
    OnHasAll(ips);
    OffSome(on);
    OffIn(on, V4_ALL);
    OffIn(on, V6_ALL);
    forall p
      ensures V4_ALL !in ips && V6_ALL !in ips ==> (p in SwitchOff(on).value <==> p in ips)
    {
      OnIn(ips, p);
      OffIn(on, p);
    }
  }

  lemma {:induction false} OnHasAll(ips: Prefixes)
    requires SwitchOn(ips).Some?
    ensures V4_ALL in SwitchOn(ips).value || V6_ALL in SwitchOn(ips).value
  {
    OnIn(ips, V4_ALL);
    OnIn(ips, V6_ALL);
  }

  /** Switching on succeeds when both halves of a family are there, switching off when a default route is. */
  lemma OnSome(ips: Prefixes)
    ensures SwitchOn(ips).Some?
       <==> || (Prefix(V4(0), 1) in ips && Prefix(V4(0x8000_0000), 1) in ips)
            || (Prefix(V6(0, ""), 1) in ips && Prefix(V6(POW128 / 2, ""), 1) in ips)
  {
  }

  lemma OffSome(ips: Prefixes)
    ensures SwitchOff(ips).Some? <==> V4_ALL in ips || V6_ALL in ips
  {
  }

  // ---------------------------------------------------------------- the firewall's decision

  predicate IsDefault(p: Prefix) { p.bits == 0 && p == Masked(p) }

  function DoNotRestrict(c: Config): bool {
    !(|c.peers| == 1 && !c.interface.tableOff && exists p :: p in c.peers[0].allowedIPs && IsDefault(p))
  }

  /** The default routes of the two families are the only ones. */
  lemma {:induction false} DefaultIff(p: Prefix)
    requires p.Valid()
    ensures IsDefault(p) <==> IsAll(p)
  {
    hide Pow.Pow2;
    Sizes();
  }

  /** The loop of enableFirewall. */
  method Restriction(c: Config) returns (doNotRestrict: bool)
    ensures doNotRestrict == DoNotRestrict(c)
  {
    hide IsDefault;
    doNotRestrict := true;
    if |c.peers| == 1 && !c.interface.tableOff {
      var ips := c.peers[0].allowedIPs;
      for i := 0 to |ips|
        invariant doNotRestrict && forall j | 0 <= j < i :: !IsDefault(ips[j])
      {
        if IsDefault(ips[i]) {
          doNotRestrict := false;
          break;
        }
      }
    }
  }

  // ---------------------------------------------------------------- the check box

  const TEMPORARY := "temporary"

  function Switched(block: bool, ips: Prefixes): Option<Prefixes> { if block then SwitchOn(ips) else SwitchOff(ips) }

  function WithAllowedIPs(c: Config, ips: Prefixes): Config
    requires |c.peers| == 1
  {
    c.(peers := [c.peers[0].(allowedIPs := ips)])
  }

  /** The configuration after a toggle; None if the text does not parse or there is nothing to switch. */
  function Toggled(net: Netip, text: string, block: bool): Option<Config> {
    match Parse(net, text, TEMPORARY)
    case Err(_) => None
    case Ok(cfg) =>
      if |cfg.peers| != 1 then None
      else
        match Switched(block, cfg.peers[0].allowedIPs)
        case None => None
        case Some(ips) => Some(WithAllowedIPs(cfg, ips))
  }

  method RewriteOn(ips: Prefixes) returns (r: Option<Prefixes>)
    ensures r == SwitchOn(ips)
  {
    hide Keep;
    var newAllowedIPs: Prefixes := [];
    var foundV401, foundV41281, foundV600001, foundV680001 := false, false, false, false;
    assert ips[..0] == [] && Keep([], IsHalf) == [] by { NothingKept(IsHalf); }
    for i := 0 to |ips|
      invariant newAllowedIPs == Keep(ips[..i], IsHalf)
      invariant foundV401 == (V4_LOW in ips[..i]) && foundV41281 == (V4_HIGH in ips[..i])
      invariant foundV600001 == (V6_LOW in ips[..i]) && foundV680001 == (V6_HIGH in ips[..i])
    {
      var allowedip := ips[i];
      assert ips[..i + 1] == ips[..i] + [allowedip];
      KeepEnd(ips[..i], IsHalf, allowedip);
      if allowedip == V6_LOW {
        foundV600001 := true;
      } else if allowedip == V6_HIGH {
        foundV680001 := true;
      } else if allowedip == V4_LOW {
        foundV401 := true;
      } else if allowedip == V4_HIGH {
        foundV41281 := true;
      } else {
        newAllowedIPs := newAllowedIPs + [allowedip];
      }
    }
    assert ips[..|ips|] == ips;
    if !((foundV401 && foundV41281) || (foundV600001 && foundV680001)) { return None; }
    ghost var kept := newAllowedIPs;
    if foundV401 && foundV41281 {
      newAllowedIPs := newAllowedIPs + [V4_ALL];
    } else if foundV401 {
      newAllowedIPs := newAllowedIPs + [V4_LOW];
    } else if foundV41281 {
      newAllowedIPs := newAllowedIPs + [V4_HIGH];
    }
    if foundV600001 && foundV680001 {
      newAllowedIPs := newAllowedIPs + [V6_ALL];
    } else if foundV600001 {
      newAllowedIPs := newAllowedIPs + [V6_LOW];
    } else if foundV680001 {
      newAllowedIPs := newAllowedIPs + [V6_HIGH];
    }
    assert newAllowedIPs == kept + Joined(foundV401, foundV41281, V4_ALL, V4_LOW, V4_HIGH)
                                 + Joined(foundV600001, foundV680001, V6_ALL, V6_LOW, V6_HIGH);
    return Some(newAllowedIPs);
  }

  lemma NothingKept(drop: Prefix -> bool)
    ensures Keep([], drop) == []
  {
  }

  lemma {:induction false} KeepEnd(ips: Prefixes, drop: Prefix -> bool, p: Prefix)
    ensures Keep(ips + [p], drop) == Keep(ips, drop) + if drop(p) then [] else [p]
  {
    assert (ips + [p])[..|ips|] == ips;
  }

  method RewriteOff(ips: Prefixes) returns (r: Option<Prefixes>)
    ensures r == SwitchOff(ips)
  {
    hide Keep;
    var newAllowedIPs: Prefixes := [];
    var foundV400, foundV600000 := false, false;
    assert ips[..0] == [] && Keep([], IsAll) == [] by { NothingKept(IsAll); }
    for i := 0 to |ips|
      invariant newAllowedIPs == Keep(ips[..i], IsAll)
      invariant foundV400 == (V4_ALL in ips[..i]) && foundV600000 == (V6_ALL in ips[..i])
    {
      var allowedip := ips[i];
      assert ips[..i + 1] == ips[..i] + [allowedip];
      KeepEnd(ips[..i], IsAll, allowedip);
      if allowedip == V6_ALL {
        foundV600000 := true;
      } else if allowedip == V4_ALL {
        foundV400 := true;
      } else {
        newAllowedIPs := newAllowedIPs + [allowedip];
      }
    }
    assert ips[..|ips|] == ips;
    if !(foundV400 || foundV600000) { return None; }
    ghost var kept := newAllowedIPs;
    if foundV400 {
      newAllowedIPs := newAllowedIPs + [V4_LOW];
      newAllowedIPs := newAllowedIPs + [V4_HIGH];
    }
    if foundV600000 {
      newAllowedIPs := newAllowedIPs + [V6_LOW];
      newAllowedIPs := newAllowedIPs + [V6_HIGH];
    }
    assert newAllowedIPs == kept + (if foundV400 then [V4_LOW, V4_HIGH] else []) + (if foundV600000 then [V6_LOW, V6_HIGH] else []);
    return Some(newAllowedIPs);
  }

  /** The text of the editor after the box was clicked. */
  method OnCheckedChanged(net: Netip, text: string, block: bool) returns (r: string)
    ensures r == match Toggled(net, text, block)
                 case Some(cfg) => Print(net, cfg)
                 case None => text
  {
    hide Parse, Print, SwitchOn, SwitchOff, ConfMeaning.Accepted, ConfMeaning.Means, ConfMeaning.Refusal;
    var parsed := FromWgQuick(net, text, TEMPORARY);
    if parsed.Err? { return text; }
    var cfg := parsed.value;
    if |cfg.peers| != 1 { return text; }
    var newAllowedIPs;
    if block {
      newAllowedIPs := RewriteOn(cfg.peers[0].allowedIPs);
    } else {
      newAllowedIPs := RewriteOff(cfg.peers[0].allowedIPs);
    }
    if newAllowedIPs.None? { return text; }
    r := ToWgQuick(net, WithAllowedIPs(cfg, newAllowedIPs.value));
  }

  // ---------------------------------------------------------------- main results

  lemma {:induction false} SwitchedIn(block: bool, ips: Prefixes, p: Prefix)
    requires Switched(block, ips).Some?
    ensures p in Switched(block, ips).value ==> p in ips || IsHalf(p) || IsAll(p)
    ensures block ==> V4_ALL in Switched(block, ips).value || V6_ALL in Switched(block, ips).value
    ensures !block && IsAll(p) ==> p !in Switched(block, ips).value
  {
    if block {
      OnIn(ips, p);
      OnIn(ips, V4_ALL);
      OnIn(ips, V6_ALL);
    } else {
      OffIn(ips, p);
    }
  }

  lemma {:induction false} ConstantsValid(p: Prefix)
    requires IsHalf(p) || IsAll(p)
    ensures p.Valid()
  {
  }

  lemma {:induction false} RewrittenIsCanonical(net: Netip, c: Config, block: bool)
    requires net.Lawful() && Canonical(net, c) && |c.peers| == 1 && Switched(block, c.peers[0].allowedIPs).Some?
    ensures Canonical(net, WithAllowedIPs(c, Switched(block, c.peers[0].allowedIPs).value))
  {
    hide Switched, Netip.Lawful, InterfaceOk, TightSection, Tight, CleanSection, EndpointOk, Prefix.Valid, CommentLine,
         TunnelName.IsValid, IsHalf, IsAll;
    var was, ips := c.peers[0], Switched(block, c.peers[0].allowedIPs).value;
    var p := was.(allowedIPs := ips);
    forall x | x in ips
      ensures x.Valid()
    {
      SwitchedIn(block, was.allowedIPs, x);
      if x !in was.allowedIPs {
        ConstantsValid(x);
      }
    }
    SwitchedIn(block, was.allowedIPs, V4_ALL);
    SwitchedNotEmpty(block, was.allowedIPs);
    assert PeerOk(net, was);
    assert forall k :: PeerHas(was, k) ==> PeerHas(p, k);
    assert PeerOk(net, p);
  }

  lemma {:induction false} SwitchedNotEmpty(block: bool, ips: Prefixes)
    requires Switched(block, ips).Some?
    ensures Switched(block, ips).value != []
  {
    if block {
      SwitchedIn(block, ips, V4_ALL);
    } else {
      OffIn(ips, V4_LOW);
      OffIn(ips, V6_LOW);
    }
  }

  /** A successful toggle: the new text parses to the old configuration with other allowed IPs that cover the same
      addresses. Switched on, traffic is restricted unless routes are left to the user; switched off, it is not. */
  lemma {:induction false} ToggleIsSafe(net: Netip, text: string, block: bool)
    requires net.Lawful() && Toggled(net, text, block).Some?
    ensures var before, after := Parse(net, text, TEMPORARY).value, Toggled(net, text, block).value;
            && |before.peers| == 1 == |after.peers|
            && after == WithAllowedIPs(before, after.peers[0].allowedIPs)
            && Parse(net, Print(net, after), TEMPORARY) == Ok(after)
            && (forall a: Addr :: a.Valid() ==>
                  (Covered(a, after.peers[0].allowedIPs) <==> Covered(a, before.peers[0].allowedIPs)))
            && DoNotRestrict(after) == (!block || before.interface.tableOff)
  {
    hide Parse, Print, Switched, Canonical, Covered, Netip.Lawful, DoNotRestrict;
    ConfParsed.ParsedIsCanonical(net, text, TEMPORARY);
    var before, after := Parse(net, text, TEMPORARY).value, Toggled(net, text, block).value;
    RewrittenIsCanonical(net, before, block);
    ConfRoundTrip.CanonicalRoundTrip(net, after);
    forall a: Addr | a.Valid()
      ensures Covered(a, after.peers[0].allowedIPs) <==> Covered(a, before.peers[0].allowedIPs)
    {
      SwitchedCovers(block, before.peers[0].allowedIPs, a);
    }
    Decision(net, before, block);
  }

  lemma {:induction false} SwitchedCovers(block: bool, ips: Prefixes, a: Addr)
    requires Switched(block, ips).Some? && a.Valid()
    ensures Covered(a, Switched(block, ips).value) <==> Covered(a, ips)
  {
    hide Covered;
    if block { OnCovers(ips, a); } else { OffCovers(ips, a); }
  }

  lemma {:induction false} Decision(net: Netip, before: Config, block: bool)
    requires net.Lawful() && Canonical(net, before) && |before.peers| == 1
    requires Switched(block, before.peers[0].allowedIPs).Some?
    ensures DoNotRestrict(WithAllowedIPs(before, Switched(block, before.peers[0].allowedIPs).value))
         == (!block || before.interface.tableOff)
  {
    hide Switched, Netip.Lawful, InterfaceOk, TightSection, Tight, CleanSection, EndpointOk, Prefix.Valid, CommentLine,
         TunnelName.IsValid, IsHalf, IsAll, IsDefault;
    var ips := before.peers[0].allowedIPs;
    var after := Switched(block, ips).value;
    assert PeerOk(net, before.peers[0]);
    forall x | x in after
      ensures IsDefault(x) == IsAll(x)
    {
      SwitchedIn(block, ips, x);
      if x in ips {  } else { ConstantsValid(x); }
      DefaultIff(x);
    }
    SwitchedIn(block, ips, V4_ALL);
    AllsAre();
    forall x | x in after && !block
      ensures !IsAll(x)
    {
      SwitchedIn(block, ips, x);
    }
  }

  lemma AllsAre()
    ensures IsAll(V4_ALL) && IsAll(V6_ALL)
  {
  }
}
