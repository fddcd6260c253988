/**
  The C integer operators the header codec is written with, on non-negative
  integers: shifts are multiplication and division by a power of two, and the
  bitwise `&` and `|` are defined bit by bit. The lemmas connect the bitwise
  operators to arithmetic: masking with `2^k - 1` keeps the remainder modulo
  `2^k`, and `|` of two values whose bits do not overlap is their sum.
 */
module Bits {

  function Pow2(k: nat): (p: nat)
    ensures p >= 1
  {
    if k == 0 then 1 else 2 * Pow2(k - 1)
  }

  /** `x >> k` on a non-negative value. */
  function Shr(x: nat, k: nat): nat
  {
    DivNonNegative(x, Pow2(k));
    x / Pow2(k)
  }

  lemma DivNonNegative(x: nat, d: nat)
    requires d > 0
    ensures x / d >= 0
  {
  }

  /** `x << k` on a non-negative value held in a wide enough integer. */
  function Shl(x: nat, k: nat): nat
  {
    x * Pow2(k)
  }

  /** Bitwise `a & b`, least significant bit first. */
  function And(a: nat, b: nat): nat
    decreases a
  {
    if a == 0 || b == 0 then 0
    else 2 * And(a / 2, b / 2) + (if a % 2 == 1 && b % 2 == 1 then 1 else 0)
  }

  /** Bitwise `a | b`, least significant bit first. */
  function Or(a: nat, b: nat): nat
    decreases a + b
  {
    if a == 0 then b
    else if b == 0 then a
    else 2 * Or(a / 2, b / 2) + (if a % 2 == 1 || b % 2 == 1 then 1 else 0)
  }

  lemma Pow2Values()
    ensures Pow2(1) == 2 && Pow2(2) == 4 && Pow2(3) == 8 && Pow2(4) == 16
    ensures Pow2(5) == 32 && Pow2(6) == 64 && Pow2(8) == 256
  {
  }

  /** The shifts by the constant distances the header codec uses. */
  lemma ShiftValues(x: nat)
    ensures Shr(x, 3) == x / 8 && Shr(x, 4) == x / 16 && Shr(x, 5) == x / 32
    ensures Shr(x, 6) == x / 64 && Shr(x, 8) == x / 256
  {
    Pow2Values();
  }

  /** Quotient and remainder are determined by any decomposition `x == d * q + r` with `0 <= r < d`. */
  lemma DivMod(x: int, d: int, q: int, r: int)
    requires d > 0 && 0 <= r < d && x == d * q + r
    ensures x / d == q && x % d == r
  {
    var q' := x / d;
    var r' := x % d;
    assert d * q' + r' == d * q + r;
    if q' < q {
      assert d * (q - q') == d * q - d * q';
      MulAtLeast(d, q - q');
      assert false;
    } else if q < q' {
      assert d * (q' - q) == d * q' - d * q;
      MulAtLeast(d, q' - q);
      assert false;
    }
  }

  lemma MulAtLeast(d: int, k: int)
    requires d > 0 && k >= 1
    ensures d * k >= d
  {
  }

  lemma MulDouble(x: int, p: int)
    ensures x * (2 * p) == 2 * (x * p)
  {
  }

  lemma SameSum(a: int, b: int, c: int, d: int, e: int)
    requires a == 2 * c + e && b == 2 * d + e && c == d
    ensures a == b
  {
  }

  /** Splitting off the lowest bit of a remainder modulo an even power of two. */
  lemma ModDouble(x: nat, p: nat)
    requires p >= 1
    ensures x % (2 * p) == 2 * ((x / 2) % p) + x % 2
  {
    var q := x / 2;
    var a := q / p;
    var c := q % p;
    assert q == p * a + c;
    assert x == (2 * p) * a + (2 * c + x % 2);
    DivMod(x, 2 * p, a, 2 * c + x % 2);
  }

  /** Masking with `2^k - 1` keeps exactly the low `k` bits. */
  lemma {:induction false} AndLowMask(x: nat, k: nat)
    ensures And(x, Pow2(k) - 1) == x % Pow2(k)
  {
    if k == 0 {
    } else if x == 0 {
    } else {
      var p := Pow2(k - 1);
      var m := Pow2(k) - 1;
      assert And(x, m) == 2 * And(x / 2, p - 1) + x % 2 by {
        assert m / 2 == p - 1 && m % 2 == 1;
      }
      assert And(x / 2, p - 1) == (x / 2) % p by {
        AndLowMask(x / 2, k - 1);
      }
      assert x % Pow2(k) == 2 * ((x / 2) % p) + x % 2 by {
        ModDouble(x, p);
      }
      SameSum(And(x, m), x % Pow2(k), And(x / 2, p - 1), (x / 2) % p, x % 2);
    }
  }

  /** Shifting both operands left by `k` commutes with `|`. */
  lemma {:induction false} OrShift(a: nat, b: nat, k: nat)
    ensures Or(a * Pow2(k), b * Pow2(k)) == Or(a, b) * Pow2(k)
  {
    if k == 0 {
    } else if a == 0 {
    } else if b == 0 {
    } else {
      var p := Pow2(k - 1);
      assert Pow2(k) == 2 * p;
      var ap, bp := a * p, b * p;
      MulDouble(a, p);
      MulDouble(b, p);
      assert ap > 0 && bp > 0 by { MulAtLeast(p, a); MulAtLeast(p, b); }
      assert Or(2 * ap, 2 * bp) == 2 * Or(ap, bp);
      OrShift(a, b, k - 1);
      MulDouble(Or(a, b), p);
    }
  }

  /** `|` of a value shifted past the other's highest bit is a sum. */
  lemma {:induction false} OrDisjoint(a: nat, b: nat, k: nat)
    requires b < Pow2(k)
    ensures Or(a * Pow2(k), b) == a * Pow2(k) + b
  {
    if k == 0 {
    } else if a == 0 {
    } else if b == 0 {
    } else {
      var p := Pow2(k - 1);
      assert a * Pow2(k) == 2 * (a * p);
      assert a * p > 0;
      OrDisjoint(a, b / 2, k - 1);
    }
  }
}
