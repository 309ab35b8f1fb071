/** Go's net/netip as the modelled code uses it. Addresses and prefixes are concrete values; the parser and the printer
    of the library are a record of functions, constrained only by the laws its documentation states. */
module Netip {
  import opened Pow
  import opened Text
  import opened Wrappers

  const POW32: nat := 0x1_0000_0000
  const POW128: nat := 0x1_0000_0000_0000_0000_0000_0000_0000_0000

  /** No address (the zero value), an IPv4 address, or an IPv6 address (IPv4-mapped ones included) with its scope zone. */
  datatype Addr = NoAddr | V4(bits: nat) | V6(bits: nat, zone: string) {
    ghost predicate Valid() {
      match this
      case NoAddr => false
      case V4(b) => b < POW32
      case V6(b, _) => b < POW128
    }

    function BitLen(): (n: nat)
      ensures n == if V4? then 32 else if V6? then 128 else 0
    {
      match this
      case NoAddr => 0
      case V4(_) => 32
      case V6(_, _) => 128
    }

    function WithoutZone(): Addr {
      if V6? then V6(bits, "") else this
    }
  }

  /** An address with a prefix length, -1 if it is none. */
  datatype Prefix = Prefix(addr: Addr, bits: int) {
    predicate IsValid() { !addr.NoAddr? && 0 <= bits <= addr.BitLen() }

    ghost predicate Valid() {
      IsValid() && addr.Valid() && addr.WithoutZone() == addr
    }
  }

  const NO_PREFIX: Prefix := Prefix(NoAddr, -1)

  /** netip.PrefixFrom: the zone of the address is dropped, a length out of range makes the prefix invalid. */
  function PrefixFrom(a: Addr, bits: int): Prefix {
    Prefix(a.WithoutZone(), if !a.NoAddr? && 0 <= bits <= a.BitLen() then bits else -1)
  }

  /** netip.Prefix.Contains: same family, no zone, and the same leading bits. */
  predicate Contains(p: Prefix, a: Addr) {
    && p.IsValid() && !a.NoAddr?
    && p.addr.V4? == a.V4?
    && (a.V6? ==> a.zone == "")
    && p.addr.bits / Pow2(a.BitLen() - p.bits) == a.bits / Pow2(a.BitLen() - p.bits)
  }

  /** netip.Prefix.Masked: the bits after the prefix cleared. */
  function Masked(p: Prefix): Prefix {
    if !p.IsValid() then NO_PREFIX
    else
      var size := Pow2(p.addr.BitLen() - p.bits);
      match p.addr
      case V4(b) => Prefix(V4(b / size * size), p.bits)
      case V6(b, zone) => Prefix(V6(b / size * size, zone), p.bits)
  }

  /** Clearing the bits after a prefix gives the least multiple of its size that its address reaches. */
  lemma MaskedIs(p: Prefix)
    requires p.Valid()
    ensures var size, first := Pow2(p.addr.BitLen() - p.bits), Masked(p).addr;
            && Masked(p).IsValid() && Masked(p).bits == p.bits && first.V4? == p.addr.V4? && first.V6? == p.addr.V6?
            && first.bits <= p.addr.bits < first.bits + size && exists k: nat :: first.bits == k * size
  {
    var size := Pow2(p.addr.BitLen() - p.bits);
    var q := p.addr.bits / size;
    assert p.addr.bits == size * q + p.addr.bits % size;
    assert Masked(p).addr.bits == q * size;
  }

  /** A prefix contains the addresses of its family, without zone, from its first one on, two to the number of its free
      bits. */
  lemma ContainsIff(p: Prefix, a: Addr)
    requires p.Valid() && a.Valid()
    ensures Contains(p, a)
       <==> && Masked(p).addr.V4? == a.V4? && (a.V6? ==> a.zone == "")
            && Masked(p).addr.bits <= a.bits < Masked(p).addr.bits + Pow2((if a.V4? then 32 else 128) - p.bits)
  {
    if p.addr.V4? == a.V4? {
      var size := Pow2(a.BitLen() - p.bits);
      SameQuotient(p.addr.bits, a.bits, size);
    }
  }

  lemma SameQuotient(x: nat, y: nat, size: nat)
    requires size > 0
    ensures x / size == y / size <==> x / size * size <= y < x / size * size + size
  {
    var q := x / size;
    if q * size <= y < q * size + size {
      DivModUnique(y, size, q, y - q * size);
    } else {
      assert y == size * (y / size) + y % size;
    }
  }

  /** The text of an address or prefix as it can stand alone, or in a comma separated list, on a line whose comments
      begin with a hash sign. */
  predicate Item(s: string) {
    s != "" && Trimmed(s) && ',' !in s && '#' !in s && '\n' !in s
  }

  datatype Netip = Netip(
    parseAddr: string -> Option<Addr>,
    parsePrefix: string -> Option<Prefix>,
    addrString: Addr -> string,
    prefixString: Prefix -> string)
  {
    /** Printing a valid prefix or address and parsing it gives it back. A printed prefix has no white space and no
        punctuation of the configuration language. A printed address can repeat the characters of a zone, so it is clean
        whenever the text it was parsed from is. */
    ghost predicate Lawful() {
      && (forall p: Prefix :: p.Valid() ==>
                                parsePrefix(prefixString(p)) == Some(p) && Item(prefixString(p)))
      && (forall s :: parsePrefix(s).Some? ==> parsePrefix(s).value.Valid())
      && (forall a: Addr :: a.Valid() ==> parseAddr(addrString(a)) == Some(a))
      && (forall s :: parseAddr(s).Some? ==>
                        parseAddr(s).value.Valid() && (Item(s) ==> Item(addrString(parseAddr(s).value))))
    }
  }
}
