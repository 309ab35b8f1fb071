/** The integers of C: two's complement of unlimited width, with the bitwise operators, and the conversions that cut a
    value to a width. Every int value of the modelled code fits in 32 bits, so the width shows only at conversions. */
module CInt {
  import opened Pow

  function Abs(a: int): nat { if a < 0 then -a else a }

  function And(a: int, b: int): int
    decreases Abs(a) + Abs(b)
  {
    if a == 0 || b == 0 then 0
    else if a == -1 then b
    else if b == -1 then a
    else 2 * And(a / 2, b / 2) + (a % 2) * (b % 2)
  }

  function Or(a: int, b: int): int
    decreases Abs(a) + Abs(b)
  {
    if a == -1 || b == -1 then -1
    else if a == 0 then b
    else if b == 0 then a
    else 2 * Or(a / 2, b / 2) + (if a % 2 == 1 || b % 2 == 1 then 1 else 0)
  }

  function Xor(a: int, b: int): int
    decreases Abs(a) + Abs(b)
  {
    if a == 0 then b
    else if b == 0 then a
    else if a == -1 then -1 - b
    else if b == -1 then -1 - a
    else 2 * Xor(a / 2, b / 2) + (if a % 2 != b % 2 then 1 else 0)
  }

  /** a >> n with n given as two to the n: the sign bit moves in. */
  function Shr(a: int, pow: int): int
    requires pow > 0
  {
    a / pow
  }

  function U8(a: int): (r: nat)
    ensures r < 0x100
  {
    a % 0x100
  }

  function U32(a: int): (r: nat)
    ensures r < 0x1_0000_0000
  {
    a % 0x1_0000_0000
  }

  /** A signed value of k bits and a sign. */
  predicate Within(a: int, k: nat) {
    var p: int := Pow2(k);
    -p <= a < p
  }

  // ---------------------------------------------------------------- laws

  lemma {:induction false} AndComm(a: int, b: int)
    ensures And(a, b) == And(b, a)
    decreases Abs(a) + Abs(b)
  {
    if a == 0 || b == 0 || a == -1 || b == -1 {
    } else {
      AndComm(a / 2, b / 2);
    }
  }

  lemma {:induction false} OrSum(a: int, b: int)
    ensures Or(a, b) == a + b - And(a, b)
    decreases Abs(a) + Abs(b)
  {
    if a == 0 || b == 0 || a == -1 || b == -1 {
    } else {
      OrSum(a / 2, b / 2);
      Halves(a);
      Halves(b);
      Bits(a % 2, b % 2);
    }
  }

  lemma {:induction false} XorSum(a: int, b: int)
    ensures Xor(a, b) == a + b - 2 * And(a, b)
    decreases Abs(a) + Abs(b)
  {
    if a == 0 || b == 0 || a == -1 || b == -1 {
    } else {
      XorSum(a / 2, b / 2);
      Halves(a);
      Halves(b);
      Bits(a % 2, b % 2);
    }
  }

  lemma Halves(a: int)
    ensures a == 2 * (a / 2) + a % 2 && 0 <= a % 2 < 2
  {
  }

  lemma Bits(x: int, y: int)
    requires 0 <= x < 2 && 0 <= y < 2
    ensures x * y == if x == 1 && y == 1 then 1 else 0
  {
  }

  /** One step of And, whatever the arguments. */
  lemma {:induction false} AndStep(a: int, b: int)
    ensures And(a, b) == 2 * And(a / 2, b / 2) + (if a % 2 == 1 && b % 2 == 1 then 1 else 0)
  {
    Halves(a);
    Halves(b);
    Bits(a % 2, b % 2);
  }

  /** And stays between the smallest power of two below its arguments, and either argument that is not negative. */
  lemma {:induction false} AndRange(a: int, b: int, k: nat)
    requires Within(a, k) && Within(b, k)
    ensures Within(And(a, b), k)
    ensures And(a, b) < 0 <==> a < 0 && b < 0
    ensures a >= 0 ==> And(a, b) <= a
    ensures b >= 0 ==> And(a, b) <= b
    decreases k
  {
    if k > 0 {
      AndRange(a / 2, b / 2, k - 1);
      AndStep(a, b);
      Halves(a);
      Halves(b);
    }
  }

  /** Masking with a low block of ones is taking a remainder. */
  lemma {:induction false} AndMask(a: int, k: nat)
    ensures And(a, Pow2(k) - 1) == a % Pow2(k)
    decreases k
  {
    if k == 0 {
    } else {
      var p := Pow2(k - 1);
      AndMask(a / 2, k - 1);
      AndStep(a, Pow2(k) - 1);
      assert (2 * p - 1) / 2 == p - 1 && (2 * p - 1) % 2 == 1;
      ModDouble(a, p);
    }
  }

  lemma ModDouble(a: int, p: nat)
    requires p > 0
    ensures a % (2 * p) == 2 * (a / 2 % p) + a % 2
  {
    var q, r := a / 2 / p, a / 2 % p;
    assert a / 2 == q * p + r;
    assert a == (2 * p) * q + (2 * r + a % 2);
    ModUnique(a, 2 * p, q, 2 * r + a % 2);
  }

  /** A value below two to the k shares no bit with a multiple of it. */
  lemma {:induction false} AndApart(h: int, l: nat, k: nat)
    requires l < Pow2(k)
    ensures And(Pow2(k) * h, l) == 0
    decreases k
  {
    if k == 0 {
    } else {
      var p := Pow2(k - 1);
      assert Pow2(k) * h == 2 * (p * h);
      AndApart(h, l / 2, k - 1);
      AndStep(2 * (p * h), l);
    }
  }

  /** Or is 0 only for zeros, and negative as soon as one argument is. */
  lemma {:induction false} OrRange(a: int, b: int, k: nat)
    requires Within(a, k) && Within(b, k)
    ensures Within(Or(a, b), k)
    ensures Or(a, b) < 0 <==> a < 0 || b < 0
    ensures Or(a, b) == 0 <==> a == 0 && b == 0
    decreases k
  {
    if k == 0 {
    } else if a == 0 || b == 0 || a == -1 || b == -1 {
    } else {
      Halves(a);
      Halves(b);
      OrRange(a / 2, b / 2, k - 1);
    }
  }

  /** Xor is negative when the signs differ. */
  lemma {:induction false} XorRange(a: int, b: int, k: nat)
    requires Within(a, k) && Within(b, k)
    ensures Within(Xor(a, b), k)
    ensures Xor(a, b) < 0 <==> ((a < 0) != (b < 0))
    decreases k
  {
    if k == 0 {
    } else if a == 0 || b == 0 || a == -1 || b == -1 {
    } else {
      Halves(a);
      Halves(b);
      XorRange(a / 2, b / 2, k - 1);
    }
  }

  lemma {:induction false} XorStep(a: int, b: int)
    ensures Xor(a, b) == 2 * Xor(a / 2, b / 2) + (if a % 2 != b % 2 then 1 else 0)
  {
    Halves(a);
    Halves(b);
  }

  /** Cutting the arguments cuts the result. */
  lemma {:induction false} XorMod(a: int, b: int, k: nat)
    ensures Xor(a % Pow2(k), b % Pow2(k)) == Xor(a, b) % Pow2(k)
    decreases k
  {
    hide Xor;
    if k == 0 {
      XorZero();
      assert a % 1 == 0 && b % 1 == 0;
    } else {
      XorMod(a / 2, b / 2, k - 1);
      XorModStep(a, b, Pow2(k - 1));
    }
  }

  lemma {:induction false} XorModStep(a: int, b: int, p: nat)
    requires p > 0 && Xor(a / 2 % p, b / 2 % p) == Xor(a / 2, b / 2) % p
    ensures Xor(a % (2 * p), b % (2 * p)) == Xor(a, b) % (2 * p)
  {
    hide Xor;
    var x, y, z := a / 2 % p, b / 2 % p, Xor(a / 2, b / 2);
    var e := if a % 2 != b % 2 then 1 else 0;
    ModDouble(a, p);
    ModDouble(b, p);
    XorStep(a, b);
    XorDoubled(x, a % 2, y, b % 2);
    DoubleMod(z, e, p);
  }

  lemma {:induction false} XorDoubled(x: int, d: int, y: int, e: int)
    requires 0 <= d < 2 && 0 <= e < 2
    ensures Xor(2 * x + d, 2 * y + e) == 2 * Xor(x, y) + (if d != e then 1 else 0)
  {
    hide Xor;
    XorStep(2 * x + d, 2 * y + e);
  }

  lemma DoubleMod(z: int, e: int, p: nat)
    requires p > 0 && 0 <= e < 2
    ensures (2 * z + e) % (2 * p) == 2 * (z % p) + e
  {
    ModDouble(2 * z + e, p);
    assert (2 * z + e) / 2 == z;
  }

  lemma XorZero()
    ensures Xor(0, 0) == 0
  {
  }

  lemma Powers()
    ensures Pow2(4) == 16 && Pow2(6) == 64 && Pow2(8) == 256 && Pow2(12) == 4096 && Pow2(18) == 0x4_0000
    ensures Pow2(24) == 0x100_0000 && Pow2(32) == 0x1_0000_0000
  {
    assert Pow2(2) == 4;
    assert Pow2(10) == 1024;
    assert Pow2(14) == 0x4000;
    assert Pow2(16) == 0x1_0000;
    assert Pow2(20) == 0x10_0000;
    assert Pow2(22) == 0x40_0000;
    assert Pow2(26) == 0x400_0000;
    assert Pow2(28) == 0x1000_0000;
    assert Pow2(30) == 0x4000_0000;
  }

  /** The complement keeps what the mask drops. */
  lemma {:induction false} AndComplement(a: int, b: int)
    ensures And(a, -1 - b) == a - And(a, b)
    decreases Abs(a) + Abs(b)
  {
    if a == 0 || b == 0 || a == -1 || b == -1 {
    } else {
      AndComplement(a / 2, b / 2);
      assert (-1 - b) / 2 == -1 - b / 2 && (-1 - b) % 2 == 1 - b % 2;
      AndStep(a, b);
      AndStep(a, -1 - b);
      Halves(a);
    }
  }

  /** Against a value of k bits only k bits matter. */
  lemma {:induction false} AndLow(a: nat, b: int, k: nat)
    requires a < Pow2(k)
    ensures And(a, b) == And(a, b % Pow2(k))
    decreases k
  {
    if k > 0 {
      AndLow(a / 2, b / 2, k - 1);
      AndLowStep(a, b, Pow2(k - 1));
    }
  }

  lemma {:induction false} AndLowStep(a: nat, b: int, p: nat)
    requires p > 0 && And(a / 2, b / 2) == And(a / 2, b / 2 % p)
    ensures And(a, b) == And(a, b % (2 * p))
  {
    hide And;
    var y := b / 2 % p;
    ModDouble(b, p);
    AndStep(a, b);
    AndDoubled(a, y, b % 2);
  }

  lemma {:induction false} AndDoubled(a: int, y: int, e: int)
    requires 0 <= e < 2
    ensures And(a, 2 * y + e) == 2 * And(a / 2, y) + (if a % 2 == 1 && e == 1 then 1 else 0)
  {
    hide And;
    AndStep(a, 2 * y + e);
  }

  lemma AndUnits(x: int)
    ensures And(-1, x) == x && And(0, x) == 0
  {
  }

  /** 1 & ((ret - 1) >> 8), as the decoders end. */
  function IsZero(ret: int): bool { And(1, Shr(ret - 1, 256)) == 1 }

  lemma {:induction false} IsZeroIs(ret: int)
    requires 0 <= ret < 256
    ensures IsZero(ret) <==> ret == 0
  {
    AndComm(1, Shr(ret - 1, 256));
    AndUnits(1);
  }
}
