/** Powers of two, and what determines a quotient and a remainder. */
module Pow {
  function Pow2(k: nat): (p: nat)
    ensures p > 0
  {
    if k == 0 then 1 else 2 * Pow2(k - 1)
  }

  // ---------------------------------------------------------------- division

  lemma ModUnique(v: int, m: nat, q: int, r: int)
    requires 0 <= r < m && v == m * q + r
    ensures v % m == r
  {
    var q' := v / m;
    assert v == m * q' + v % m;
    assert q' < q ==> m * (q' + 1) <= m * q;
    assert q < q' ==> m * (q + 1) <= m * q';
  }

  lemma DivModUnique(v: int, m: nat, q: int, r: int)
    requires 0 <= r < m && v == m * q + r
    ensures v / m == q && v % m == r
  {
    ModUnique(v, m, q, r);
    Cancel(m, v / m, q);
  }

  lemma Cancel(m: nat, a: int, b: int)
    requires m > 0 && m * a == m * b
    ensures a == b
  {
    assert m * (a - b) == 0;
  }

  /** A remainder may be taken before adding. */
  lemma ModAdd(a: int, b: int, m: nat)
    requires m > 0
    ensures (a % m + b) % m == (a + b) % m
  {
    var s := a % m + b;
    var q, t := a / m, s / m;
    assert a == m * q + a % m && s == m * t + s % m;
    assert m * q + m * t == m * (q + t);
    ModUnique(a + b, m, q + t, s % m);
  }

  /** So may a remainder modulo a multiple. */
  lemma ModOfMultiple(a: int, b: int, m: nat, k: nat)
    requires m > 0 && k > 0 && m * k > 0
    ensures (a + b % (m * k)) % m == (a + b) % m
  {
    var r, q := b % (m * k), b / (m * k);
    var s := a + r;
    var t := s / m;
    assert b == (m * k) * q + r && s == m * t + s % m;
    assert (m * k) * q == m * (k * q);
    assert m * (k * q) + m * t == m * (k * q + t);
    ModUnique(a + b, m, k * q + t, s % m);
  }
}
