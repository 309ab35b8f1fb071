/** The laws asked of the parser and printer of addresses can be met: a plain notation, zones included, that has them. */
module NetipModel {
  import opened Netip
  import opened Text
  import opened Wrappers

  // ---------------------------------------------------------------- addresses

  function Family(a: Addr): nat { if a.V4? then 4 else if a.V6? then 6 else 0 }

  function ZoneSuffix(a: Addr): string { if a.V6? && a.zone != "" then "%" + a.zone else "" }

  /** Family and number, and the zone if there is one. */
  function PlainAddr(a: Addr): string {
    Decimal(Family(a)) + ":" + (Decimal(if a.NoAddr? then 0 else a.bits) + ZoneSuffix(a))
  }

  lemma {:induction false} PlainAddrInjective(a: Addr, b: Addr)
    requires a.Valid() && b.Valid() && PlainAddr(a) == PlainAddr(b)
    ensures a == b
  {
    hide Decimal, ZoneSuffix;
    DecimalClean(Family(a), ':');
    DecimalClean(Family(b), ':');
    FindAt(Decimal(Family(a)), ':', Decimal(a.bits) + ZoneSuffix(a));
    FindAt(Decimal(Family(b)), ':', Decimal(b.bits) + ZoneSuffix(b));
    DecimalInjective(Family(a), Family(b));
    ZoneSplit(a, b);
  }

  /** A numeral has no percent sign, so number and zone can be told apart. */
  lemma {:induction false} ZoneSplit(a: Addr, b: Addr)
    requires !a.NoAddr? && !b.NoAddr? && a.V6? == b.V6?
    requires Decimal(a.bits) + ZoneSuffix(a) == Decimal(b.bits) + ZoneSuffix(b)
    ensures a == b
  {
    hide Decimal;
    DecimalClean(a.bits, '%');
    DecimalClean(b.bits, '%');
    ZoneStart(Decimal(a.bits), a);
    ZoneStart(Decimal(b.bits), b);
    DecimalInjective(a.bits, b.bits);
  }

  lemma {:induction false} ZoneStart(digits: string, a: Addr)
    requires '%' !in digits
    ensures var s := digits + ZoneSuffix(a);
            && Find(s, '%') == |digits| && s[..|digits|] == digits
            && (a.V6? ==> a.zone == if |digits| < |s| then s[|digits| + 1..] else "")
  {
    hide Find;
    var s := digits + ZoneSuffix(a);
    if ZoneSuffix(a) == "" {
      assert s == digits;
      FindAbsent(digits, '%');
    } else {
      assert s == digits + ['%'] + a.zone;
      FindAt(digits, '%', a.zone);
    }
  }

  ghost function ParsePlainAddr(s: string): Option<Addr> {
    if exists a: Addr :: a.Valid() && PlainAddr(a) == s then
      var a: Addr :| a.Valid() && PlainAddr(a) == s;
      Some(a)
    else None
  }

  // ---------------------------------------------------------------- prefixes

  /** Family, address and length, as numbers. */
  function Plain(p: Prefix): string {
    if !p.IsValid() then "-"
    else Decimal(Family(p.addr)) + ":" + (Decimal(p.addr.bits) + "/" + Decimal(p.bits))
  }

  lemma {:induction false} PlainItem(p: Prefix)
    requires p.IsValid()
    ensures Item(Plain(p))
  {
    hide Decimal, Trimmed;
    PlainTrimmed(p);
    NoPunctuation(Family(p.addr));
    NoPunctuation(p.addr.bits);
    NoPunctuation(p.bits);
  }

  lemma NoPunctuation(n: nat)
    ensures ',' !in Decimal(n) && '#' !in Decimal(n) && '\n' !in Decimal(n)
  {
    DecimalClean(n, ',');
    DecimalClean(n, '#');
    DecimalClean(n, '\n');
  }

  lemma {:induction false} PlainTrimmed(p: Prefix)
    requires p.IsValid()
    ensures Trimmed(Plain(p))
  {
    hide Decimal;
    var s, d, e := Plain(p), Decimal(Family(p.addr)), Decimal(p.bits);
    assert IsDigit(d[0]) && s[0] == d[0];
    assert IsDigit(e[|e| - 1]) && s[|s| - 1] == e[|e| - 1];
  }

  lemma {:induction false} PlainInjective(p: Prefix, q: Prefix)
    requires p.Valid() && q.Valid() && Plain(p) == Plain(q)
    ensures p == q
  {
    hide Decimal;
    DecimalClean(Family(p.addr), ':');
    DecimalClean(Family(q.addr), ':');
    DecimalClean(p.addr.bits, '/');
    DecimalClean(q.addr.bits, '/');
    FindAt(Decimal(Family(p.addr)), ':', Decimal(p.addr.bits) + "/" + Decimal(p.bits));
    FindAt(Decimal(Family(q.addr)), ':', Decimal(q.addr.bits) + "/" + Decimal(q.bits));
    FindAt(Decimal(p.addr.bits), '/', Decimal(p.bits));
    FindAt(Decimal(q.addr.bits), '/', Decimal(q.bits));
    DecimalInjective(Family(p.addr), Family(q.addr));
    DecimalInjective(p.addr.bits, q.addr.bits);
    DecimalInjective(p.bits, q.bits);
  }

  ghost function ParsePlain(s: string): Option<Prefix> {
    if exists p: Prefix :: p.Valid() && Plain(p) == s then
      var p: Prefix :| p.Valid() && Plain(p) == s;
      Some(p)
    else None
  }

  // ---------------------------------------------------------------- the laws

  /** Some parser and printer are lawful and read every address and prefix. */
  lemma {:induction false} LawfulExists()
    ensures exists net: Netip ::
              && net.Lawful()
              && (forall a: Addr :: a.Valid() ==> exists s :: net.parseAddr(s) == Some(a))
              && (forall p: Prefix :: p.Valid() ==> exists s :: net.parsePrefix(s) == Some(p))
  {
    hide Plain, PlainAddr, Item;
    var net := Netip(s => ParsePlainAddr(s), s => ParsePlain(s), a => PlainAddr(a), p => Plain(p));
    forall p: Prefix | p.Valid()
      ensures net.parsePrefix(net.prefixString(p)) == Some(p) && Item(net.prefixString(p))
    {
      PlainItem(p);
      PlainInjective(p, ParsePlain(Plain(p)).value);
    }
    forall a: Addr | a.Valid()
      ensures net.parseAddr(net.addrString(a)) == Some(a)
    {
      PlainAddrInjective(a, ParsePlainAddr(PlainAddr(a)).value);
    }
    assert net.Lawful();
  }
}
