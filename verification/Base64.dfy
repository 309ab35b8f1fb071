/** Base64 with the standard alphabet: the encoder of RFC 4648, section 4, and the decoder of Go's encoding/base64
    (StdEncoding), which skips carriage returns and line feeds and does not insist on zero trailing bits. */
module Base64 {
  import opened Wrappers

  import opened Bytes

  type Sextet = n: nat | n < 64

  function Symbol(i: Sextet): (c: char) {
    if i < 26 then ('A' as int + i) as char
    else if i < 52 then ('a' as int + (i - 26)) as char
    else if i < 62 then ('0' as int + (i - 52)) as char
    else if i == 62 then '+'
    else '/'
  }

  function SymbolValue(c: char): Option<Sextet> {
    if 'A' <= c <= 'Z' then Some(c as int - 'A' as int)
    else if 'a' <= c <= 'z' then Some(c as int - 'a' as int + 26)
    else if '0' <= c <= '9' then Some(c as int - '0' as int + 52)
    else if c == '+' then Some(62)
    else if c == '/' then Some(63)
    else None
  }

  lemma SymbolInverse(i: Sextet)
    ensures SymbolValue(Symbol(i)) == Some(i)
  {
  }

  lemma SymbolOfValue(c: char)
    requires SymbolValue(c).Some?
    ensures Symbol(SymbolValue(c).value) == c
  {
  }

  predicate IsEncodingChar(c: char) { SymbolValue(c).Some? || c == '=' }

  /** The four groups of six bits in three bytes. */
  function Sextet0(a: Byte): Sextet { a / 4 }

  function Sextet1(a: Byte, b: Byte): Sextet { a % 4 * 16 + b / 16 }

  function Sextet2(b: Byte, c: Byte): Sextet { b % 16 * 4 + c / 64 }

  function Sextet3(c: Byte): Sextet { c % 64 }

  /** Three bytes as four symbols. */
  function Quantum(a: Byte, b: Byte, c: Byte): (s: string)
    ensures |s| == 4
  {
    [Symbol(Sextet0(a)), Symbol(Sextet1(a, b)), Symbol(Sextet2(b, c)), Symbol(Sextet3(c))]
  }

  lemma QuantumValues(a: Byte, b: Byte, c: Byte)
    ensures var s := Quantum(a, b, c);
            && SymbolValue(s[0]) == Some(Sextet0(a)) && SymbolValue(s[1]) == Some(Sextet1(a, b))
            && SymbolValue(s[2]) == Some(Sextet2(b, c)) && SymbolValue(s[3]) == Some(Sextet3(c))
  {
    SymbolInverse(Sextet0(a));
    SymbolInverse(Sextet1(a, b));
    SymbolInverse(Sextet2(b, c));
    SymbolInverse(Sextet3(c));
  }

  function Encode(b: seq<Byte>): string {
    if |b| == 0 then ""
    else if |b| == 1 then Quantum(b[0], 0, 0)[..2] + "=="
    else if |b| == 2 then Quantum(b[0], b[1], 0)[..3] + "="
    else Quantum(b[0], b[1], b[2]) + Encode(b[3..])
  }

  lemma {:induction false} EncodeShape(b: seq<Byte>)
    ensures |Encode(b)| == (|b| + 2) / 3 * 4
    ensures forall i | 0 <= i < |Encode(b)| :: IsEncodingChar(Encode(b)[i])
  {
    hide Sextet0, Sextet1, Sextet2, Sextet3, Symbol, SymbolValue;
    if |b| == 1 {
      QuantumValues(b[0], 0, 0);
    } else if |b| == 2 {
      QuantumValues(b[0], b[1], 0);
    } else if |b| > 2 {
      QuantumValues(b[0], b[1], b[2]);
      EncodeShape(b[3..]);
    }
  }

  /** The bytes of four symbols, the missing ones of a padded quantum standing for zero. */
  function ThreeBytes(i0: Sextet, i1: Sextet, i2: Sextet, i3: Sextet): (b: seq<Byte>)
    ensures |b| == 3
  {
    [i0 * 4 + i1 / 16, i1 % 16 * 16 + i2 / 4, i2 % 4 * 64 + i3]
  }

  function DecodeQuanta(s: string): Option<seq<Byte>> {
    if s == "" then Some([])
    else if |s| < 4 then None
    else
      var v0, v1, v2, v3 := SymbolValue(s[0]), SymbolValue(s[1]), SymbolValue(s[2]), SymbolValue(s[3]);
      if v0.None? || v1.None? then None
      else if |s| == 4 && s[2] == '=' && s[3] == '=' then Some(ThreeBytes(v0.value, v1.value, 0, 0)[..1])
      else if v2.None? then None
      else if |s| == 4 && s[3] == '=' then Some(ThreeBytes(v0.value, v1.value, v2.value, 0)[..2])
      else if v3.None? then None
      else
        match DecodeQuanta(s[4..])
        case None => None
        case Some(rest) => Some(ThreeBytes(v0.value, v1.value, v2.value, v3.value) + rest)
  }

  function SkipNewlines(s: string): string {
    if s == "" then "" else (if s[0] == '\r' || s[0] == '\n' then "" else [s[0]]) + SkipNewlines(s[1..])
  }

  /** base64.StdEncoding.DecodeString. */
  function Decode(s: string): Option<seq<Byte>> {
    DecodeQuanta(SkipNewlines(s))
  }

  lemma SkipNothing(s: string)
    requires '\r' !in s && '\n' !in s
    ensures SkipNewlines(s) == s
  {
  }

  lemma SextetBytes(a: Byte, b: Byte, c: Byte)
    ensures ThreeBytes(Sextet0(a), Sextet1(a, b), Sextet2(b, c), Sextet3(c)) == [a, b, c]
  {
  }

  lemma DecodeOne(a: Byte)
    ensures DecodeQuanta(Encode([a])) == Some([a])
  {
    QuantumValues(a, 0, 0);
    SextetBytes(a, 0, 0);
    var q := Quantum(a, 0, 0);
    assert Encode([a]) == [q[0], q[1], '=', '='];
    assert ThreeBytes(Sextet0(a), Sextet1(a, 0), 0, 0)[..1] == [a];
  }

  lemma DecodeTwo(a: Byte, b: Byte)
    ensures DecodeQuanta(Encode([a, b])) == Some([a, b])
  {
    QuantumValues(a, b, 0);
    SextetBytes(a, b, 0);
    var q := Quantum(a, b, 0);
    assert Encode([a, b]) == [q[0], q[1], q[2], '='];
    assert ThreeBytes(Sextet0(a), Sextet1(a, b), Sextet2(b, 0), 0)[..2] == [a, b];
  }

  lemma {:induction false} DecodeQuantum(q: string, rest: string)
    requires |q| == 4 && forall i | 0 <= i < 4 :: SymbolValue(q[i]).Some?
    requires DecodeQuanta(rest).Some?
    ensures DecodeQuanta(q + rest)
            == Some(ThreeBytes(SymbolValue(q[0]).value, SymbolValue(q[1]).value, SymbolValue(q[2]).value,
                          SymbolValue(q[3]).value) + DecodeQuanta(rest).value)
  {
    var s := q + rest;
    assert s[4..] == rest;
    assert s[0] == q[0] && s[1] == q[1] && s[2] == q[2] && s[3] == q[3];
  }

  lemma {:induction false} DecodeQuantaEncode(b: seq<Byte>)
    ensures DecodeQuanta(Encode(b)) == Some(b)
  {
    if |b| == 0 {
    } else if |b| == 1 {
      DecodeOne(b[0]);
      assert b == [b[0]];
    } else if |b| == 2 {
      DecodeTwo(b[0], b[1]);
      assert b == [b[0], b[1]];
    } else {
      QuantumValues(b[0], b[1], b[2]);
      SextetBytes(b[0], b[1], b[2]);
      DecodeQuantaEncode(b[3..]);
      DecodeQuantum(Quantum(b[0], b[1], b[2]), Encode(b[3..]));
      assert b == [b[0], b[1], b[2]] + b[3..];
    }
  }

  /** Decoding undoes encoding, for byte strings of any length. */
  lemma {:induction false} DecodeEncode(b: seq<Byte>)
    ensures Decode(Encode(b)) == Some(b)
  {
    EncodeShape(b);
    SkipNothing(Encode(b));
    DecodeQuantaEncode(b);
  }

  /** Whole quanta are encoded one by one. */
  lemma {:induction false} EncodeAppend(a: seq<Byte>, b: seq<Byte>)
    requires |a| % 3 == 0
    ensures Encode(a + b) == Encode(a) + Encode(b)
  {
    hide Quantum;
    if a == [] {
      assert a + b == b;
    } else {
      EncodeAppend(a[3..], b);
      assert (a + b)[3..] == a[3..] + b;
      assert (a + b)[0] == a[0] && (a + b)[1] == a[1] && (a + b)[2] == a[2];
    }
  }

  /** The symbols of the bytes of four symbols. */
  lemma QuantumOfValues(i0: Sextet, i1: Sextet, i2: Sextet, i3: Sextet)
    ensures var b := ThreeBytes(i0, i1, i2, i3);
            Quantum(b[0], b[1], b[2]) == [Symbol(i0), Symbol(i1), Symbol(i2), Symbol(i3)]
  {
    hide Symbol;
    var b := ThreeBytes(i0, i1, i2, i3);
    assert Sextet0(b[0]) == i0;
    assert Sextet1(b[0], b[1]) == i1;
    assert Sextet2(b[1], b[2]) == i2;
    assert Sextet3(b[2]) == i3;
  }
}
