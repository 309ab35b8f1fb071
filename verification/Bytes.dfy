/** Bytes, and little-endian numbers of any width. */
module Bytes {
  import opened Pow

  type Byte = n: nat | n < 256

  function Zeros(n: nat): (z: seq<Byte>)
    ensures |z| == n && forall i | 0 <= i < n :: z[i] == 0
  {
    if n == 0 then [] else [0] + Zeros(n - 1)
  }

  /** 256 to the n-th power: one more than the largest number of n bytes. */
  function Limit(n: nat): (r: nat)
    ensures r > 0
  {
    if n == 0 then 1 else 256 * Limit(n - 1)
  }

  /** The n low bytes of a number, least significant first. */
  function Encode(n: nat, v: nat): (s: seq<Byte>)
    ensures |s| == n
  {
    if n == 0 then [] else [v % 256] + Encode(n - 1, v / 256)
  }

  function Decode(s: seq<Byte>): nat {
    if s == [] then 0 else s[0] + 256 * Decode(s[1..])
  }

  lemma {:induction false} DecodeBound(s: seq<Byte>)
    ensures Decode(s) < Limit(|s|)
  {
    if s != [] {
      DecodeBound(s[1..]);
    }
  }

  lemma DivMod256(v: nat, m: nat)
    requires m > 0
    ensures v % 256 + 256 * (v / 256 % m) == v % (256 * m)
  {
    var q, r := v / 256 / m, v / 256 % m;
    assert v / 256 == q * m + r;
    assert v == (256 * m) * q + (256 * r + v % 256);
    assert 256 * r + v % 256 < 256 * m;
    ModUnique(v, 256 * m, q, 256 * r + v % 256);
  }

  /** Encoding keeps a number modulo the limit. */
  lemma {:induction false} DecodeEncode(n: nat, v: nat)
    ensures Decode(Encode(n, v)) == v % Limit(n)
  {
    if n > 0 {
      DecodeEncode(n - 1, v / 256);
      assert Encode(n, v)[1..] == Encode(n - 1, v / 256);
      DivMod256(v, Limit(n - 1));
    }
  }

  lemma {:induction false} EncodeDecode(s: seq<Byte>)
    ensures Encode(|s|, Decode(s)) == s
  {
    if s != [] {
      EncodeDecode(s[1..]);
      assert s == [s[0]] + s[1..];
    }
  }

  lemma Limits()
    ensures Limit(1) == 0x100 && Limit(2) == 0x1_0000 && Limit(4) == 0x1_0000_0000
    ensures Limit(8) == 0x1_0000_0000_0000_0000
  {
    assert Limit(3) == 0x100_0000;
    assert Limit(5) == 0x100_0000_0000;
    assert Limit(6) == 0x1_0000_0000_0000;
    assert Limit(7) == 0x100_0000_0000_0000;
  }

  /** A 32-bit number, as the formats of this program have it. */
  function Num(n: nat): (b: seq<Byte>)
    ensures |b| == 4
  {
    Encode(4, n)
  }

  lemma {:induction false} NumBack(n: nat)
    requires n < 0x1_0000_0000
    ensures Decode(Num(n)) == n
  {
    Limits();
    DecodeEncode(4, n);
  }

  /** The number that four bytes are. */
  lemma {:induction false} DecodeFour(s: seq<Byte>)
    requires |s| == 4
    ensures Decode(s) == s[0] as int + 0x100 * s[1] as int + 0x1_0000 * s[2] as int + 0x100_0000 * s[3] as int
  {
    assert Decode(s[1..]) == s[1] + 256 * Decode(s[2..]) by { assert s[1..][1..] == s[2..]; }
    assert Decode(s[2..]) == s[2] + 256 * Decode(s[3..]) by { assert s[2..][1..] == s[3..]; }
    assert Decode(s[3..]) == s[3] by { assert s[3..][1..] == []; }
  }

  // ---------------------------------------------------------------- numbers inside a longer string of bytes

  function Get(m: seq<Byte>, a: nat, n: nat): nat
    requires a + n <= |m|
  {
    Decode(m[a..a + n])
  }

  function Put(m: seq<Byte>, a: nat, n: nat, v: nat): (m': seq<Byte>)
    requires a + n <= |m|
    ensures |m'| == |m|
  {
    m[..a] + Encode(n, v) + m[a + n..]
  }

  lemma {:induction false} GetPut(m: seq<Byte>, a: nat, n: nat, v: nat)
    requires a + n <= |m|
    ensures Get(Put(m, a, n, v), a, n) == v % Limit(n)
    ensures forall i | 0 <= i < |m| && !(a <= i < a + n) :: Put(m, a, n, v)[i] == m[i]
  {
    assert Put(m, a, n, v)[a..a + n] == Encode(n, v);
    DecodeEncode(n, v);
  }

  /** Equal numbers have equal bytes. */
  lemma {:induction false} SameBytes(m: seq<Byte>, m': seq<Byte>, a: nat, n: nat)
    requires a + n <= |m| && a + n <= |m'| && Get(m, a, n) == Get(m', a, n)
    ensures forall i | a <= i < a + n :: m[i] == m'[i]
  {
    EncodeDecode(m[a..a + n]);
    EncodeDecode(m'[a..a + n]);
    forall i | a <= i < a + n
      ensures m[i] == m'[i]
    {
      assert m[a..a + n][i - a] == m'[a..a + n][i - a];
    }
  }

  lemma {:induction false} SameNumber(m: seq<Byte>, m': seq<Byte>, a: nat, n: nat)
    requires a + n <= |m| && a + n <= |m'| && forall i | a <= i < a + n :: m[i] == m'[i]
    ensures Get(m, a, n) == Get(m', a, n)
  {
    assert m[a..a + n] == m'[a..a + n];
  }
}
