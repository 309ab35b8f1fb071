/** The branch-free decoders of the fetcher (installer/fetcher/filelist.c). */
module Signify {
  import opened Base64
  import Bytes
  import opened CInt
  import opened Pow
  import opened Wrappers

  type Byte = Bytes.Byte

  const KEY_BYTES: nat := 42
  const SIGNATURE_BYTES: nat := 74

  /** A char of the compiler used, which is signed. */
  function SignedChar(c: char): (v: int)
    ensures -128 <= v < 128
  {
    var n := c as int % 256;
    if n >= 128 then n - 256 else n
  }

  /** Text as it lies in memory, one byte a character. */
  ghost predicate InBytes(s: string) { forall i | 0 <= i < |s| :: s[i] as int < 256 }

  // ---------------------------------------------------------------- one symbol

  /** x if c lies strictly between lo and hi, else 0, without a branch. */
  function Between(lo: int, hi: int, c: int, x: int): int {
    And(Shr(And(lo - c, c - hi), 256), x)
  }

  function CharValue(c: int): int {
    -1
    + Between('A' as int - 1, 'Z' as int + 1, c, c - 64)
    + Between('a' as int - 1, 'z' as int + 1, c, c - 70)
    + Between('0' as int - 1, '9' as int + 1, c, c + 5)
    + Between('+' as int - 1, '+' as int + 1, c, 63)
    + Between('/' as int - 1, '/' as int + 1, c, 64)
  }

  lemma {:induction false} BetweenIs(lo: int, hi: int, c: int, x: int)
    requires -256 <= lo - c < 256 && -256 <= c - hi < 256
    ensures Between(lo, hi, c, x) == if lo < c < hi then x else 0
  {
    Powers();
    AndRange(lo - c, c - hi, 8);
    AndUnits(x);
  }

  /** The sum of masked terms is the value of the symbol, or -1 for a character that is none. */
  lemma {:induction false} CharValueIs(c: char)
    requires c as int < 256
    ensures CharValue(SignedChar(c)) == match SymbolValue(c) case Some(v) => v case None => -1
  {
    hide Between;
    var n := SignedChar(c);
    BetweenIs('A' as int - 1, 'Z' as int + 1, n, n - 64);
    BetweenIs('a' as int - 1, 'z' as int + 1, n, n - 70);
    BetweenIs('0' as int - 1, '9' as int + 1, n, n + 5);
    BetweenIs('+' as int - 1, '+' as int + 1, n, 63);
    BetweenIs('/' as int - 1, '/' as int + 1, n, 64);
  }

  // ---------------------------------------------------------------- four symbols

  function Folded(src: string, i: nat): int
    requires i <= 4 && |src| == 4
  {
    if i == 0 then 0 else Or(Folded(src, i - 1), CharValue(SignedChar(src[i - 1])) * Pow2(18 - 6 * (i - 1)))
  }

  method DecodeBase64(src: string) returns (val: int)
    requires |src| == 4
    ensures val == Folded(src, 4)
  {
    val := 0;
    for i := 0 to 4
      invariant val == Folded(src, i)
    {
      val := Or(val, CharValue(SignedChar(src[i])) * Pow2(18 - 6 * i));
    }
  }

  predicate Symbols(s: string) { forall i | 0 <= i < |s| :: SymbolValue(s[i]).Some? }

  function ValueOf(c: char): Sextet {
    match SymbolValue(c)
    case Some(v) => v
    case None => 0
  }

  /** Values shifted into free bits are added; a value of -1 makes the whole negative for good. */
  lemma {:induction false} FoldStep(acc: int, v: int, s: nat, h: int)
    requires s <= 18 && Within(acc, 24) && (acc < 0 || acc == Pow2(s + 6) * h) && -1 <= v < 64
    ensures var r := Or(acc, v * Pow2(s));
            && Within(r, 24) && (r < 0 <==> acc < 0 || v < 0)
            && (acc >= 0 && v >= 0 ==> r == acc + v * Pow2(s))
  {
    ShiftRange(v, s);
    OrRange(acc, v * Pow2(s), 24);
    if acc >= 0 && v >= 0 {
      OrSum(acc, v * Pow2(s));
      AndApart(h, v * Pow2(s), s + 6);
    }
  }

  lemma {:induction false} ShiftRange(v: int, s: nat)
    requires s <= 18 && -1 <= v < 64
    ensures Within(v * Pow2(s), 24) && (v < 0 <==> v * Pow2(s) < 0)
    ensures v >= 0 ==> v * Pow2(s) < Pow2(s + 6)
  {
    hide Pow2;
    Pow2Grows(s, 18);
    Powers();
    SixMore(s);
    var p: int := Pow2(s);
    assert v >= 0 ==> 0 <= v * p <= 63 * p;
    assert v < 0 ==> v * p == -p;
  }

  lemma SixMore(s: nat)
    ensures Pow2(s + 6) == 64 * Pow2(s)
  {
    assert Pow2(s + 2) == 4 * Pow2(s);
    assert Pow2(s + 4) == 4 * Pow2(s + 2);
  }

  lemma {:induction false} Pow2Grows(a: nat, b: nat)
    requires a <= b
    ensures Pow2(a) <= Pow2(b)
    decreases b
  {
    if a < b { Pow2Grows(a, b - 1); }
  }

  /** Four symbols give their 24 bits, anything else a negative number. */
  lemma {:induction false} FoldedIs(src: string)
    requires |src| == 4 && InBytes(src)
    ensures Within(Folded(src, 4), 24) && (Folded(src, 4) < 0 <==> !Symbols(src))
    ensures Symbols(src) ==>
              Folded(src, 4) == ((ValueOf(src[0]) * 64 + ValueOf(src[1])) * 64 + ValueOf(src[2])) * 64 + ValueOf(src[3])
  {
    hide Or, CharValue, Within, SymbolValue;
    Powers();
    assert Pow2(0) == 1;
    CharValueIs(src[0]);
    CharValueIs(src[1]);
    CharValueIs(src[2]);
    CharValueIs(src[3]);
    WithinZero();
    assert Folded(src, 0) == 0;
    var v0: int, v1: int, v2: int := ValueOf(src[0]), ValueOf(src[1]), ValueOf(src[2]);
    FoldStep(Folded(src, 0), CharValue(SignedChar(src[0])), 18, 0);
    FoldStep(Folded(src, 1), CharValue(SignedChar(src[1])), 12, v0);
    FoldStep(Folded(src, 2), CharValue(SignedChar(src[2])), 6, v0 * 64 + v1);
    FoldStep(Folded(src, 3), CharValue(SignedChar(src[3])), 0, (v0 * 64 + v1) * 64 + v2);
    assert Symbols(src) <==> SymbolValue(src[0]).Some? && SymbolValue(src[1]).Some? && SymbolValue(src[2]).Some?
                             && SymbolValue(src[3]).Some?;
  }

  lemma WithinZero()
    ensures Within(0, 24)
  {
  }

  // ---------------------------------------------------------------- whole quanta

  /** The three bytes of a value of 24 bits; of a negative one whatever its low bits give. */
  function High(val: int): Byte { U8(And(Shr(val, 0x1_0000), 0xff)) }

  function Middle(val: int): Byte { U8(And(Shr(val, 0x100), 0xff)) }

  function Low(val: int): Byte { U8(And(val, 0xff)) }

  /** (uint32_t)val >> 31 is the sign. */
  function SignBit(val: int): int { U32(val) / 0x8000_0000 }

  lemma {:induction false} ByteOf(x: int)
    ensures And(x, 0xff) == x % 256
  {
    Powers();
    AndMask(x, 8);
  }

  lemma {:induction false} BytesOfValue(src: string)
    requires |src| == 4 && InBytes(src) && Symbols(src)
    ensures var val := Folded(src, 4);
            [High(val), Middle(val), Low(val)] ==
            ThreeBytes(ValueOf(src[0]), ValueOf(src[1]), ValueOf(src[2]), ValueOf(src[3]))
  {
    hide Folded, ValueOf, Within, High, Middle, Low, ThreeBytes, SymbolValue;
    FoldedIs(src);
    BytesOfSum(Folded(src, 4), ValueOf(src[0]), ValueOf(src[1]), ValueOf(src[2]), ValueOf(src[3]));
  }

  lemma {:induction false} BytesOfSum(val: int, a: Sextet, b: Sextet, c: Sextet, d: Sextet)
    requires val == ((a * 64 + b) * 64 + c) * 64 + d
    ensures [High(val), Middle(val), Low(val)] == ThreeBytes(a, b, c, d)
  {
    hide High, Middle, Low;
    BytesAre(val);
    ThreeParts(a, b, c, d);
  }

  lemma {:induction false} BytesAre(val: int)
    ensures High(val) == val / 0x1_0000 % 256 && Middle(val) == val / 0x100 % 256 && Low(val) == val % 256
  {
    hide And;
    ByteOf(Shr(val, 0x1_0000));
    ByteOf(Shr(val, 0x100));
    ByteOf(val);
  }

  lemma ThreeParts(a: int, b: int, c: int, d: int)
    requires 0 <= a < 64 && 0 <= b < 64 && 0 <= c < 64 && 0 <= d < 64
    ensures var val := ((a * 64 + b) * 64 + c) * 64 + d;
            && val / 0x1_0000 % 256 == a * 4 + b / 16
            && val / 0x100 % 256 == b % 16 * 16 + c / 4
            && val % 256 == c % 4 * 64 + d
  {
    var val := ((a * 64 + b) * 64 + c) * 64 + d;
    var b1, b0, c1, c0 := b / 16, b % 16, c / 4, c % 4;
    assert b == b1 * 16 + b0 && c == c1 * 4 + c0;
    ByteParts(a * 4 + b1, b0 * 16 + c1, c0 * 64 + d);
  }

  lemma ByteParts(x: int, y: int, z: int)
    requires 0 <= x < 256 && 0 <= y < 256 && 0 <= z < 256
    ensures var val := x * 0x1_0000 + y * 0x100 + z;
            val / 0x1_0000 % 256 == x && val / 0x100 % 256 == y && val % 256 == z
  {
    var val := x * 0x1_0000 + y * 0x100 + z;
    DivModUnique(val, 0x1_0000, x, y * 0x100 + z);
    DivModUnique(val, 0x100, x * 0x100 + y, z);
    DivModUnique(x * 0x100 + y, 0x100, x, y);
  }

  lemma {:induction false} SignBitIs(val: int)
    requires Within(val, 24)
    ensures SignBit(val) == if val < 0 then 1 else 0
  {
    Powers();
  }

  /** Four symbols are the encoding of the bytes they decode to. */
  lemma {:induction false} QuantumBack(src: string)
    requires |src| == 4 && InBytes(src) && Symbols(src)
    ensures var val := Folded(src, 4); Encode([High(val), Middle(val), Low(val)]) == src
  {
    hide Folded, High, Middle, Low, Symbol, SymbolValue, ThreeBytes, Quantum;
    var val := Folded(src, 4);
    var b := [High(val), Middle(val), Low(val)];
    BytesOfValue(src);
    QuantumOfValues(ValueOf(src[0]), ValueOf(src[1]), ValueOf(src[2]), ValueOf(src[3]));
    SymbolOfValue(src[0]);
    SymbolOfValue(src[1]);
    SymbolOfValue(src[2]);
    SymbolOfValue(src[3]);
    assert b[3..] == [];
    assert Encode([]) == "";
    assert Encode(b) == Quantum(b[0], b[1], b[2]) + Encode(b[3..]);
    assert src == [src[0], src[1], src[2], src[3]];
  }

  lemma {:induction false} WholeSymbols(k: seq<Byte>)
    requires |k| % 3 == 0
    ensures Symbols(Encode(k))
  {
    hide Symbol, SymbolValue, Sextet0, Sextet1, Sextet2, Sextet3;
    if k != [] {
      QuantumValues(k[0], k[1], k[2]);
      WholeSymbols(k[3..]);
    }
  }

  /** The loop of both decoders: n quanta into an array. `ret` collects the signs. */
  method DecodeQuantaInto(out: array<Byte>, base64: string, n: nat) returns (ret: int)
    requires InBytes(base64) && 4 * n <= |base64| && 3 * n <= out.Length
    modifies out
    ensures 0 <= ret < 256 && (ret == 0 <==> Symbols(base64[..4 * n]))
    ensures ret == 0 ==> Encode(out[..3 * n]) == base64[..4 * n]
    ensures out[3 * n..] == old(out[3 * n..])
  {
    hide Encode, Folded, SymbolValue, High, Middle, Low, Or, Within, SignBit;
    ret := 0;
    EncodeNothing();
    assert out[..0] == [] && base64[..0] == "";
    for i := 0 to n
      invariant ret == 0 || ret == 1
      invariant ret == 0 <==> Symbols(base64[..4 * i])
      invariant ret == 0 ==> Encode(out[..3 * i]) == base64[..4 * i]
      invariant out[3 * n..] == old(out[3 * n..])
    {
      ghost var before := out[..3 * i];
      var src := base64[4 * i..4 * i + 4];
      var val := DecodeBase64(src);
      FoldedIs(src);
      SignBitIs(val);
      OrBits(ret, SignBit(val));
      ret := U8(Or(ret, SignBit(val)));
      out[3 * i + 0] := High(val);
      out[3 * i + 1] := Middle(val);
      out[3 * i + 2] := Low(val);
      assert out[..3 * (i + 1)] == before + [High(val), Middle(val), Low(val)];
      SymbolsAppend(base64[..4 * i], src);
      assert base64[..4 * (i + 1)] == base64[..4 * i] + src;
      EncodeAppend(before, [High(val), Middle(val), Low(val)]);
      if ret == 0 { QuantumBack(src); }
    }
  }

  lemma EncodeNothing()
    ensures Encode([]) == ""
  {
  }

  lemma OrBits(a: int, b: int)
    requires (a == 0 || a == 1) && (b == 0 || b == 1)
    ensures Or(a, b) == if a == 0 && b == 0 then 0 else 1
  {
  }

  lemma {:induction false} SymbolsAppend(a: string, b: string)
    ensures Symbols(a + b) <==> Symbols(a) && Symbols(b)
  {
    hide SymbolValue;
    if Symbols(a + b) {
      assert forall i | 0 <= i < |a| :: a[i] == (a + b)[i];
      assert forall i | 0 <= i < |b| :: b[i] == (a + b)[|a| + i];
    }
  }

  /** Accepts exactly the encodings of 42 bytes, and decodes them. */
  method SignifyPubkeyFromBase64(key: array<Byte>, base64: string) returns (ok: bool)
    requires key.Length == KEY_BYTES && |base64| == 56 && InBytes(base64)
    modifies key
    ensures ok <==> exists k: seq<Byte> :: |k| == KEY_BYTES && Encode(k) == base64
    ensures ok ==> Encode(key[..]) == base64
  {
    hide Encode, SymbolValue, IsZero;
    var ret := DecodeQuantaInto(key, base64, KEY_BYTES / 3);
    assert base64[..56] == base64 && key[..KEY_BYTES] == key[..];
    IsZeroIs(ret);
    ok := IsZero(ret);
    if k: seq<Byte> :| |k| == KEY_BYTES && Encode(k) == base64 {
      WholeSymbols(k);
    }
    assert ok ==> |key[..]| == KEY_BYTES && Encode(key[..]) == base64;
  }

  // ---------------------------------------------------------------- signatures

  /** The last quantum of a signature, its padding read as 'A', and what follows of it. */
  lemma {:induction false} LastQuantum(tail: string)
    requires |tail| == 4 && InBytes(tail) && tail[3] == '='
    ensures var val := Folded(tail[..3] + "A", 4);
            (val >= 0 && Low(val) == 0) <==> exists a: Byte, b: Byte :: Encode([a, b]) == tail
    ensures var val := Folded(tail[..3] + "A", 4);
            val >= 0 && Low(val) == 0 ==> Encode([High(val), Middle(val)]) == tail
  {
    hide Folded, High, Middle, Low, Symbol, SymbolValue, ThreeBytes, Quantum;
    var src := tail[..3] + "A";
    var val := Folded(src, 4);
    FoldedIs(src);
    if val >= 0 && Low(val) == 0 {
      QuantumBack(src);
      EncodePad(High(val), Middle(val), 0);
      assert Encode([High(val), Middle(val)]) == src[..3] + "=" == tail;
    }
    if a: Byte, b: Byte :| Encode([a, b]) == tail {
      EncodePad(a, b, 0);
      QuantumValues(a, b, 0);
      var q := Quantum(a, b, 0);
      assert src[..3] == q[..3];
      assert forall i | 0 <= i < 3 :: src[i] == q[i];
      SymbolA();
      BytesOfValue(src);
      LastBits(a, b);
    }
  }

  lemma SymbolA()
    ensures SymbolValue('A') == Some(0)
  {
  }

  lemma EncodePad(a: Byte, b: Byte, c: Byte)
    ensures Encode([a, b]) == Quantum(a, b, 0)[..3] + "="
    ensures Encode([a, b, c]) == Quantum(a, b, c)
  {
    hide Quantum;
    assert [a, b, c][3..] == [];
    assert Encode([]) == "";
  }

  lemma LastBits(a: Byte, b: Byte)
    ensures ThreeBytes(Sextet0(a), Sextet1(a, b), Sextet2(b, 0), 0)[2] == 0
  {
  }

  /** Accepts exactly the encodings of 74 bytes, and decodes them. A text without the final padding leaves the buffer
      alone. */
  method SignifySignatureFromBase64(sig: array<Byte>, base64: string) returns (ok: bool)
    requires sig.Length == SIGNATURE_BYTES && |base64| == 100 && InBytes(base64)
    modifies sig
    ensures ok <==> exists k: seq<Byte> :: |k| == SIGNATURE_BYTES && Encode(k) == base64
    ensures ok ==> Encode(sig[..]) == base64
    ensures base64[99] != '=' ==> sig[..] == old(sig[..])
  {
    hide Encode, SymbolValue, IsZero, Folded, High, Middle, Low, Or, SignBit, Within;
    SignatureShape(base64);
    if base64[99] != '=' {
      return false;
    }
    var ret := DecodeQuantaInto(sig, base64, SIGNATURE_BYTES / 3);
    ghost var whole := sig[..72];
    var i := SIGNATURE_BYTES / 3;
    var src := [base64[i * 4 + 0], base64[i * 4 + 1], base64[i * 4 + 2], 'A'];
    var val := DecodeBase64(src);
    ghost var tail := base64[96..];
    assert src == tail[..3] + "A";
    FoldedIs(src);
    LastQuantum(tail);
    var flags := Or(SignBit(val), And(val, 0xff));
    FlagsAre(val);
    LastFlags(ret, flags);
    ret := U8(Or(ret, flags));
    sig[i * 3 + 0] := High(val);
    sig[i * 3 + 1] := Middle(val);
    IsZeroIs(ret);
    ok := IsZero(ret);
    assert sig[..] == whole + [High(val), Middle(val)];
    EncodeAppend(whole, [High(val), Middle(val)]);
    assert base64 == base64[..96] + tail;
  }

  /** The text splits into 24 quanta and a padded one. */
  lemma {:induction false} SignatureShape(base64: string)
    requires |base64| == 100 && InBytes(base64)
    ensures (exists k: seq<Byte> :: |k| == SIGNATURE_BYTES && Encode(k) == base64) <==>
            base64[99] == '=' && Symbols(base64[..96]) && exists a: Byte, b: Byte :: Encode([a, b]) == base64[96..]
  {
    hide Encode, SymbolValue;
    if k: seq<Byte> :| |k| == SIGNATURE_BYTES && Encode(k) == base64 {
      var h, t := k[..72], k[72..];
      assert k == h + t && t == [k[72], k[73]];
      EncodeAppend(h, t);
      WholeSymbols(h);
      EncodeShape(h);
      assert base64[..96] == Encode(h) && base64[96..] == Encode([k[72], k[73]]);
      PadLast(k[72], k[73]);
      assert base64[99] == base64[96..][3];
    }
    if Symbols(base64[..96]) {
      if a: Byte, b: Byte :| Encode([a, b]) == base64[96..] {
        var h := SomeBytes(base64[..96]);
        EncodeAppend(h, [a, b]);
        assert base64 == base64[..96] + base64[96..];
        assert |h + [a, b]| == SIGNATURE_BYTES && Encode(h + [a, b]) == base64;
      }
    }
  }

  lemma PadLast(a: Byte, b: Byte)
    ensures |Encode([a, b])| == 4 && Encode([a, b])[3] == '='
  {
    hide Quantum;
  }

  /** Whole quanta of symbols are the encoding of some bytes. */
  lemma {:induction false} SomeBytes(s: string) returns (k: seq<Byte>)
    requires InBytes(s) && Symbols(s) && |s| % 4 == 0
    ensures |k| == |s| / 4 * 3 && Encode(k) == s
  {
    hide Encode, SymbolValue, High, Middle, Low, Folded;
    if s == "" {
      EncodeNothing();
      k := [];
    } else {
      var rest := SomeBytes(s[4..]);
      var src := s[..4];
      QuantumBack(src);
      var b := [High(Folded(src, 4)), Middle(Folded(src, 4)), Low(Folded(src, 4))];
      EncodeAppend(b, rest);
      k := b + rest;
      assert s == src + s[4..];
    }
  }

  lemma {:induction false} FlagsAre(val: int)
    requires Within(val, 24)
    ensures var flags := Or(SignBit(val), And(val, 0xff));
            0 <= flags < 256 && (flags == 0 <==> val >= 0 && Low(val) == 0)
  {
    hide Or, And;
    SignBitIs(val);
    ByteOf(val);
    BytesAre(val);
    LastFlags(SignBit(val), And(val, 0xff));
  }

  lemma {:induction false} LastFlags(a: int, b: int)
    requires 0 <= a < 256 && 0 <= b < 256
    ensures 0 <= Or(a, b) < 256 && (Or(a, b) == 0 <==> a == 0 && b == 0)
  {
    hide Or;
    Powers();
    OrRange(a, b, 8);
  }
}
