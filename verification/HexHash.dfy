/** hash_from_hex (installer/fetcher/filelist.c): reading a hash in hexadecimal without a branch. */
module HexHash {
  import opened Bytes
  import opened CInt
  import opened Pow
  import opened Wrappers
  import Text

  const HASH_BYTES: nat := 32

  function HexDigit(c: char): Option<nat> {
    if '0' <= c <= '9' then Some(c as int - '0' as int)
    else if 'a' <= c <= 'f' then Some(c as int - 'a' as int + 10)
    else if 'A' <= c <= 'F' then Some(c as int - 'A' as int + 10)
    else None
  }

  // ---------------------------------------------------------------- one digit, as computed

  function CNum(c: Byte): Byte { U8(Xor(c, 48)) }

  function CNum0(c: Byte): Byte { U8(U32(CNum(c) - 10) / 256) }

  function CAlpha(c: Byte): Byte { U8(U32(And(c, U32(-1 - 32)) - 55)) }

  function CAlpha0(c: Byte): Byte { U8(U32(Xor(U32(CAlpha(c) - 10), U32(CAlpha(c) - 16))) / 256) }

  function CVal(c: Byte): Byte { U8(Or(And(CNum0(c), CNum(c)), And(CAlpha0(c), CAlpha(c)))) }

  function CBad(c: Byte): Byte { U8(Shr(Or(CNum0(c), CAlpha0(c)) - 1, 256)) }

  /** c ^ 48 is below ten for the ten digits only. */
  lemma {:induction false} CNumIs(c: Byte)
    ensures CNum(c) < 10 <==> 48 <= c < 58
    ensures 48 <= c < 58 ==> CNum(c) == c - 48
  {
    hide And, Xor, U8;
    XorSum(c, 48);
    And48(c);
    Flipped(c / 16, c % 16);
    ByteItself(Xor(c, 48));
  }

  lemma ByteItself(x: int)
    ensures 0 <= x < 256 ==> U8(x) == x
  {
  }

  /** Flipping the two bits of 48 brings a high digit of 3 to 0, and no other. */
  lemma Flipped(h: nat, l: nat)
    requires h < 16 && l < 16
    ensures var x := 16 * h + l + 48 - 32 * (h % 4);
            0 <= x < 256 && (x < 10 <==> h == 3 && l < 10)
  {
    assert h % 4 == 3 ==> h >= 3;
    assert h % 4 == 2 ==> h >= 2;
  }

  lemma {:induction false} And48(c: Byte)
    ensures And(c, 48) == 16 * (c / 16 % 4)
  {
    hide And;
    Powers();
    AndStep(c, 48);
    AndStep(c / 2, 24);
    AndStep(c / 4, 12);
    AndStep(c / 8, 6);
    AndMask(c / 16, 2);
    FourIs();
    assert c / 2 / 2 == c / 4 && c / 4 / 2 == c / 8 && c / 8 / 2 == c / 16;
  }

  lemma FourIs()
    ensures Pow2(2) == 4 && Pow2(1) == 2
  {
  }

  lemma {:induction false} And32(c: Byte)
    ensures And(c, 32) == 32 * (c / 32 % 2)
  {
    hide And;
    AndStep(c, 32);
    AndStep(c / 2, 16);
    AndStep(c / 4, 8);
    AndStep(c / 8, 4);
    AndStep(c / 16, 2);
    AndMask(c / 32, 1);
    FourIs();
    assert c / 2 / 2 == c / 4 && c / 4 / 2 == c / 8 && c / 8 / 2 == c / 16 && c / 16 / 2 == c / 32;
  }

  lemma {:induction false} CAlphaIs(c: Byte)
    ensures 10 <= CAlpha(c) < 16 <==> 65 <= c < 71 || 97 <= c < 103
    ensures 65 <= c < 71 ==> CAlpha(c) == c - 55
    ensures 97 <= c < 103 ==> CAlpha(c) == c - 87
  {
    hide And, U8, U32;
    AndNot32(c);
    UpperCase(c);
    ByteOfSmall(c - 32 * (c / 32 % 2) - 55);
  }

  /** The bit of lower case is set from 32 to 63, from 96 to 127 and so on. */
  lemma UpperCase(c: Byte)
    ensures c / 32 % 2 == if c < 32 || 64 <= c < 96 || 128 <= c < 160 || 192 <= c < 224 then 0 else 1
  {
  }

  lemma ByteOfSmall(x: int)
    requires -256 <= x < 256
    ensures U8(U32(x)) == if x < 0 then 256 + x else x
  {
  }

  lemma {:induction false} AndNot32(c: Byte)
    ensures And(c, U32(-1 - 32)) == c - 32 * (c / 32 % 2)
  {
    hide And, U32;
    Powers();
    AndLow(c, U32(-33), 8);
    AndLow(c, -33, 8);
    Low33();
    AndComplement(c, 32);
    And32(c);
  }

  lemma Low33()
    ensures U32(-33) % 256 == -33 % 256
  {
  }

  /** The two differences have different signs exactly between 10 and 16. */
  lemma {:induction false} CAlpha0Is(c: Byte)
    ensures CAlpha0(c) == if 10 <= CAlpha(c) < 16 then 255 else 0
  {
    hide Xor, CAlpha, And;
    Powers();
    var a: int := CAlpha(c);
    XorMod(a - 10, a - 16, 32);
    XorRange(a - 10, a - 16, 8);
    SpreadSign(Xor(a - 10, a - 16));
  }

  lemma {:induction false} CNum0Is(c: Byte)
    ensures CNum0(c) == if CNum(c) < 10 then 255 else 0
  {
    hide CNum;
    SpreadSign(CNum(c) - 10);
  }

  lemma SpreadSign(x: int)
    requires -256 <= x < 256
    ensures U8(U32(x) / 256) == if x < 0 then 255 else 0
    ensures U32(U32(x)) == U32(x)
  {
    assert x < 0 ==> U32(x) == 0x1_0000_0000 + x;
  }

  lemma {:induction false} AndByte(x: Byte)
    ensures And(255, x) == x && And(0, x) == 0
  {
    hide And;
    Powers();
    AndComm(255, x);
    AndMask(x, 8);
    AndUnits(x);
  }

  lemma OrZero(x: int)
    ensures Or(x, 0) == x && Or(0, x) == x
  {
  }

  /** The accumulated flag stays 0 for a digit and becomes 255 for anything else; the value is the digit's. */
  lemma {:induction false} DigitIs(c: Byte)
    ensures match HexDigit(c as char)
            case Some(v) => CBad(c) == 0 && CVal(c) == v
            case None => CBad(c) == 255
  {
    hide CNum, CNum0, CAlpha, CAlpha0, And, Or;
    CNumIs(c);
    CNum0Is(c);
    CAlphaIs(c);
    CAlpha0Is(c);
    AndByte(CNum(c));
    AndByte(CAlpha(c));
    OrZero(CNum(c));
    OrZero(CAlpha(c));
    OrZero(255);
    OrZero(0);
  }

  // ---------------------------------------------------------------- the whole hash

  predicate AllHex(s: string) { forall i | 0 <= i < |s| :: HexDigit(s[i]).Some? }

  function HexChar(v: nat): char
    requires v < 16
  {
    if v < 10 then (v + '0' as int) as char else (v - 10 + 'a' as int) as char
  }

  /** Ordinary lower-case hexadecimal. */
  function LowerHex(b: seq<Byte>): string {
    if b == [] then "" else [HexChar(b[0] / 16), HexChar(b[0] % 16)] + LowerHex(b[1..])
  }

  lemma HexCharBack(c: char)
    requires HexDigit(c).Some?
    ensures HexDigit(c).value < 16 && HexChar(HexDigit(c).value) == Text.ToLowerChar(c)
  {
  }

  lemma {:induction false} LowerHexEnd(b: seq<Byte>, x: Byte)
    ensures LowerHex(b + [x]) == LowerHex(b) + [HexChar(x / 16), HexChar(x % 16)]
  {
    hide HexChar;
    if b == [] {
      assert [x][1..] == [];
      assert b + [x] == [x];
    } else {
      LowerHexEnd(b[1..], x);
      assert (b + [x])[1..] == b[1..] + [x];
    }
  }

  /** ret |= bad keeps a zero only if both are zero. */
  lemma {:induction false} OrFlags(a: int, b: int)
    requires (a == 0 || a == 255) && (b == 0 || b == 255)
    ensures Or(a, b) == if a == 0 && b == 0 then 0 else 255
  {
    hide Or;
    OrZero(255);
    OrZero(0);
    OrSum(255, 255);
    AndByte(255);
  }

  /** The two digits of a byte do not overlap. */
  lemma {:induction false} OrNibbles(h: nat, l: nat)
    requires h < 16 && l < 16
    ensures Or(U8(h * 16), l) == h * 16 + l
  {
    hide Or;
    Powers();
    OrSum(16 * h, l);
    AndApart(h, l, 4);
  }

  function Code(c: char): Byte { c as int % 256 }

  /** The byte written for two characters, digits or not. */
  function RawByte(c: char, d: char): Byte { U8(Or(U8(CVal(Code(c)) * 16), CVal(Code(d)))) }

  /** What is left in the buffer, whether the text is accepted or not. */
  function RawHash(hex: string): (b: seq<Byte>)
    ensures |b| == |hex| / 2
  {
    if |hex| < 2 then [] else RawHash(hex[..|hex| - 2]) + [RawByte(hex[|hex| - 2], hex[|hex| - 1])]
  }

  lemma {:induction false} RawByteIs(c: char, d: char)
    requires c as int < 256 && d as int < 256 && HexDigit(c).Some? && HexDigit(d).Some?
    ensures [HexChar(RawByte(c, d) / 16), HexChar(RawByte(c, d) % 16)] == [Text.ToLowerChar(c), Text.ToLowerChar(d)]
  {
    hide CVal, HexDigit, HexChar, Text.ToLowerChar, RawByte, Code;
    CharDigitIs(c);
    CharDigitIs(d);
    HexCharBack(c);
    HexCharBack(d);
    RawByteParts(c, d);
  }

  lemma {:induction false} RawByteParts(c: char, d: char)
    requires CVal(Code(c)) < 16 && CVal(Code(d)) < 16
    ensures RawByte(c, d) / 16 == CVal(Code(c)) && RawByte(c, d) % 16 == CVal(Code(d))
  {
    hide CVal, Code, Or;
    OrNibbles(CVal(Code(c)), CVal(Code(d)));
  }

  lemma CodeBack(c: char)
    requires c as int < 256
    ensures Code(c) as char == c
  {
  }

  lemma {:induction false} CharDigitIs(c: char)
    requires c as int < 256
    ensures match HexDigit(c)
            case Some(v) => CBad(Code(c)) == 0 && CVal(Code(c)) == v
            case None => CBad(Code(c)) == 255
  {
    hide CBad, CVal, Code, HexDigit;
    CodeBack(c);
    DigitIs(Code(c));
  }

  lemma {:induction false} FlagStep(ret: int, c: char)
    requires (ret == 0 || ret == 255) && c as int < 256
    ensures var r := U8(Or(ret, CBad(Code(c)))); (r == 0 || r == 255) && (r == 0 <==> ret == 0 && HexDigit(c).Some?)
  {
    hide CBad, Code, HexDigit, Or;
    CharDigitIs(c);
    OrFlags(ret, CBad(Code(c)));
  }

  /** Hexadecimal text is read in the ordinary way: writing the hash in hexadecimal gives the text back in lower case. */
  lemma {:induction false} RawHashIs(hex: string)
    requires |hex| % 2 == 0 && AllHex(hex) && forall i | 0 <= i < |hex| :: hex[i] as int < 256
    ensures LowerHex(RawHash(hex)) == Text.ToLower(hex)
    decreases |hex|
  {
    hide HexDigit, RawByte, HexChar, Text.ToLowerChar;
    if hex != "" {
      var s, c, d := hex[..|hex| - 2], hex[|hex| - 2], hex[|hex| - 1];
      assert hex == s + [c, d];
      RawHashIs(s);
      RawByteIs(c, d);
      LowerHexEnd(RawHash(s), RawByte(c, d));
      ToLowerEnd(s, c, d);
    }
  }

  /** Accepts exactly 64 hexadecimal digits of either case, and reads them in the ordinary way. The buffer is
      overwritten either way. */
  method HashFromHex(hash: array<Byte>, hex: string) returns (ok: bool)
    requires hash.Length == HASH_BYTES && |hex| >= 64 && forall i | 0 <= i < |hex| :: hex[i] as int < 256
    modifies hash
    ensures ok <==> AllHex(hex[..64])
    ensures hash[..] == RawHash(hex[..64])
    ensures ok ==> LowerHex(hash[..]) == Text.ToLower(hex[..64])
  {
    hide CBad, CVal, HexDigit, HexChar, Or, And, IsZero, Text.ToLower, LowerHex, Code, U8, RawHash, AllHex;
    NothingRead();
    var ret: int := 0;
    assert hash[..0] == [] && hex[..0] == "";
    for k := 0 to 32
      invariant ret == 0 || ret == 255
      invariant ret == 0 <==> AllHex(hex[..2 * k])
      invariant hash[..k] == RawHash(hex[..2 * k])
    {
      ghost var before := hash[..k];
      var i := 2 * k;
      var c, d := Code(hex[i]), Code(hex[i + 1]);
      FlagStep(ret, hex[i]);
      ret := U8(Or(ret, CBad(c)));
      var cAcc := U8(CVal(c) * 16);
      FlagStep(ret, hex[i + 1]);
      ret := U8(Or(ret, CBad(d)));
      hash[i / 2] := U8(Or(cAcc, CVal(d)));
      assert hex[..2 * (k + 1)] == hex[..2 * k] + [hex[i], hex[i + 1]];
      AllHexEnd(hex[..2 * k], hex[i], hex[i + 1]);
      RawHashEnd(hex[..2 * k], hex[i], hex[i + 1]);
      assert hash[..k + 1] == before + [hash[k]];
    }
    assert hash[..32] == hash[..];
    IsZeroIs(ret);
    ok := IsZero(ret);
    if ok { RawHashIs(hex[..64]); }
  }

  lemma NothingRead()
    ensures AllHex("") && RawHash("") == []
  {
  }

  lemma {:induction false} RawHashEnd(s: string, c: char, d: char)
    ensures RawHash(s + [c, d]) == RawHash(s) + [RawByte(c, d)]
  {
    hide RawByte;
    var t := s + [c, d];
    assert t[..|t| - 2] == s;
  }

  lemma {:induction false} AllHexEnd(s: string, c: char, d: char)
    ensures AllHex(s + [c, d]) <==> AllHex(s) && HexDigit(c).Some? && HexDigit(d).Some?
  {
    hide HexDigit;
    var t := s + [c, d];
    assert t[|s|] == c && t[|s| + 1] == d;
    assert forall i | 0 <= i < |s| :: t[i] == s[i];
  }

  lemma {:induction false} ToLowerEnd(s: string, c: char, d: char)
    ensures Text.ToLower(s + [c, d]) == Text.ToLower(s) + [Text.ToLowerChar(c), Text.ToLowerChar(d)]
  {
    hide Text.ToLowerChar;
  }
}
