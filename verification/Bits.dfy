/** Bitwise `|` and `&` on unsigned numbers, as far as table indices and buffer growth need them. */
module Bits {

  function Pow2(k: nat): (p: nat)
    ensures p >= 1
  {
    if k == 0 then 1 else 2 * Pow2(k - 1)
  }

  function Or(a: nat, b: nat): nat {
    if a == 0 then b
    else if b == 0 then a
    else 2 * Or(a / 2, b / 2) + (if a % 2 == 1 || b % 2 == 1 then 1 else 0)
  }

  function And(a: nat, b: nat): nat {
    if a == 0 || b == 0 then 0
    else 2 * And(a / 2, b / 2) + (if a % 2 == 1 && b % 2 == 1 then 1 else 0)
  }

  /** `|` is at least both operands and at most their sum. */
  lemma {:induction false} OrBounds(a: nat, b: nat)
    ensures Or(a, b) >= a && Or(a, b) >= b && Or(a, b) <= a + b
  {
    if a != 0 && b != 0 { OrBounds(a / 2, b / 2); }
  }

  /** `|` stays within the width of its operands. */
  lemma {:induction false} OrWidth(a: nat, b: nat, k: nat)
    requires a < Pow2(k) && b < Pow2(k)
    ensures Or(a, b) < Pow2(k)
  {
    if k > 0 && a != 0 && b != 0 { OrWidth(a / 2, b / 2, k - 1); }
  }

  /** The bit of a number at place `k`. */
  predicate Bit(x: nat, k: nat) {
    if k == 0 then x % 2 == 1 else Bit(x / 2, k - 1)
  }

  lemma {:induction false} ZeroBits(k: nat)
    ensures !Bit(0, k)
  {
    if k > 0 { ZeroBits(k - 1); }
  }

  /** A bit of `|` is set exactly where an operand has it. */
  lemma {:induction false} OrBits(a: nat, b: nat, k: nat)
    ensures Bit(Or(a, b), k) <==> Bit(a, k) || Bit(b, k)
  {
    ZeroBits(k);
    if k > 0 && a != 0 && b != 0 { OrBits(a / 2, b / 2, k - 1); }
  }

  /** A bit of `&` is set exactly where both operands have it. */
  lemma {:induction false} AndBits(a: nat, b: nat, k: nat)
    ensures Bit(And(a, b), k) <==> Bit(a, k) && Bit(b, k)
  {
    ZeroBits(k);
    if k > 0 && a != 0 && b != 0 { AndBits(a / 2, b / 2, k - 1); }
  }

  /** Numbers with the same bits are the same. */
  lemma {:induction false} SameBits(a: nat, b: nat)
    requires forall k: nat :: Bit(a, k) == Bit(b, k)
    ensures a == b
    decreases a + b
  {
    assert Bit(a, 0) == Bit(b, 0);
    if a + b > 0 {
      forall k: nat ensures Bit(a / 2, k) == Bit(b / 2, k) { assert Bit(a, k + 1) == Bit(b, k + 1); }
      SameBits(a / 2, b / 2);
    }
  }

  /** Masking with one less than a power of two is the remainder. */
  lemma {:induction false} MaskIsRemainder(x: nat, k: nat)
    ensures And(x, Pow2(k) - 1) == x % Pow2(k)
  {
    hide And;
    AndStep(x, Pow2(k) - 1);
    if k > 0 {
      MaskIsRemainder(x / 2, k - 1);
      HalfMask(Pow2(k - 1));
      RemainderSplit(x, Pow2(k - 1));
    }
  }

  lemma HalfMask(p: nat)
    requires p > 0
    ensures (2 * p - 1) / 2 == p - 1 && (2 * p - 1) % 2 == 1
  {
  }

  lemma RemainderSplit(x: nat, p: nat)
    requires p > 0
    ensures x % (2 * p) == 2 * (x / 2 % p) + x % 2
  {
    var q, r := x / 2 / p, x / 2 % p;
    assert x / 2 == q * p + r;
    assert x == q * (2 * p) + (2 * r + x % 2);
    RemainderIs(x, 2 * p, q, 2 * r + x % 2);
  }

  lemma RemainderIs(x: nat, m: nat, q: nat, r: nat)
    requires m > 0 && x == q * m + r && r < m
    ensures x % m == r
  {
    var d := x / m - q;
    assert x == (x / m) * m + x % m;
    assert d * m == (x / m) * m - q * m;
  }

  /** Masking with one less than a power of two stays below it, is the identity below it,
      and takes one full turn off up to twice it. */
  lemma {:induction false} AndMask(x: nat, k: nat)
    ensures And(x, Pow2(k) - 1) < Pow2(k)
    ensures x < Pow2(k) ==> And(x, Pow2(k) - 1) == x
    ensures Pow2(k) <= x < 2 * Pow2(k) ==> And(x, Pow2(k) - 1) == x - Pow2(k)
  {
    if k > 0 && x > 0 {
      AndMask(x / 2, k - 1);
      assert (Pow2(k) - 1) / 2 == Pow2(k - 1) - 1;
    }
  }

  lemma AndStep(a: nat, b: nat)
    ensures And(a, b) == 2 * And(a / 2, b / 2) + (if a % 2 == 1 && b % 2 == 1 then 1 else 0)
    ensures b == 0 ==> And(a, b) == 0
  {
  }

  lemma Low4(x: nat)
    ensures x / 2 / 2 / 2 / 2 == x / 16
    ensures x % 16 == x % 2 + 2 * (x / 2 % 2) + 4 * (x / 2 / 2 % 2) + 8 * (x / 2 / 2 / 2 % 2)
  {
    var a := x / 2;
    var b := a / 2;
    var c := b / 2;
    var d := c / 2;
    assert x == 16 * d + 8 * (c % 2) + 4 * (b % 2) + 2 * (a % 2) + x % 2;
  }

  lemma OrStep(a: nat, b: nat)
    ensures Or(a, b) == 2 * Or(a / 2, b / 2) + (if a % 2 == 1 || b % 2 == 1 then 1 else 0)
    ensures b == 0 ==> Or(a, b) == a
  {
  }

  /** `x | 32` adds the bit where it is clear. */
  lemma OrBit5(x: nat)
    requires x / 16 / 2 % 2 == 0
    ensures Or(x, 32) == x + 32
  {
    hide Or;
    OrDouble(x, 16);
    OrDouble(x / 2, 8);
    OrDouble(x / 2 / 2, 4);
    OrDouble(x / 2 / 2 / 2, 2);
    Low4(x);
    OrBit1(x / 16);
  }

  /** An even operand passes the last bit on. */
  lemma OrDouble(a: nat, b: nat)
    ensures Or(a, 2 * b) == 2 * Or(a / 2, b) + a % 2
  {
    OrStep(a, 2 * b);
  }

  lemma OrBit1(d: nat)
    requires d / 2 % 2 == 0
    ensures Or(d, 2) == d + 2
  {
    hide Or;
    OrDouble(d, 1);
    OrStep(d / 2, 1);
    OrStep(d / 2 / 2, 0);
  }

  lemma Mask5(d: nat)
    ensures And(d, 2) == 2 * (d / 2 % 2)
  {
    hide And;
    AndStep(d, 2);
    AndStep(d / 2, 1);
    AndStep(d / 2 / 2, 0);
  }

  /** `x & 0x2f` looks at the bits 0 to 3 and 5. */
  lemma AndBits0To3And5(x: nat)
    ensures And(x, 0x2f) == x % 16 + 32 * (x / 16 / 2 % 2)
  {
    hide And;
    Low4(x);
    AndStep(x, 47);
    AndStep(x / 2, 23);
    AndStep(x / 2 / 2, 11);
    AndStep(x / 2 / 2 / 2, 5);
    Mask5(x / 16);
  }
}
