/** Python's bitwise operators on non-negative integers, defined bit by bit,
    and the arithmetic facts the codec relies on. */
module Bits {

  /** A numpy `uint8` sample. */
  type byte = x: int | 0 <= x < 256

  function Pow2(k: nat): (r: nat)
    ensures r >= 1
    ensures k >= 1 ==> r % 2 == 0
  {
    if k == 0 then 1 else 2 * Pow2(k - 1)
  }

  /** `a & b` */
  function And(a: nat, b: nat): (r: nat)
    ensures r <= a && r <= b
    decreases a + b
  {
    if a == 0 || b == 0 then 0
    else 2 * And(a / 2, b / 2) + (if a % 2 == 1 && b % 2 == 1 then 1 else 0)
  }

  /** `a | b` */
  function Or(a: nat, b: nat): (r: nat)
    ensures r >= a && r >= b
    decreases a + b
  {
    if a == 0 then b
    else if b == 0 then a
    else 2 * Or(a / 2, b / 2) + (if a % 2 == 1 || b % 2 == 1 then 1 else 0)
  }

  /** `a ^ b` */
  function Xor(a: nat, b: nat): nat
    decreases a + b
  {
    if a == 0 then b
    else if b == 0 then a
    else 2 * Xor(a / 2, b / 2) + (if a % 2 != b % 2 then 1 else 0)
  }

  /** `a >> k`: `k` halvings. */
  function ShiftRight(a: nat, k: nat): nat
  {
    if k == 0 then a else ShiftRight(a / 2, k - 1)
  }

  /** `a << k` on a numpy uint8 array: the shifted value wraps modulo 256. */
  function ShiftLeftByte(a: nat, k: nat): (r: nat)
    ensures r < 256
  {
    (a * Pow2(k)) % 256
  }

  // The recursive definitions above, read off the lowest bit for every input.

  lemma AndStep(a: nat, b: nat)
    ensures And(a, b) == 2 * And(a / 2, b / 2) + (if a % 2 == 1 && b % 2 == 1 then 1 else 0)
  {
  }

  lemma OrStep(a: nat, b: nat)
    ensures Or(a, b) == 2 * Or(a / 2, b / 2) + (if a % 2 == 1 || b % 2 == 1 then 1 else 0)
  {
    if a == 0 {
      assert Or(0, b / 2) == b / 2;
    } else if b == 0 {
      assert Or(a / 2, 0) == a / 2;
    }
  }

  lemma XorStep(a: nat, b: nat)
    ensures Xor(a, b) == 2 * Xor(a / 2, b / 2) + (if a % 2 != b % 2 then 1 else 0)
  {
    if a == 0 {
      assert Xor(0, b / 2) == b / 2;
    } else if b == 0 {
      assert Xor(a / 2, 0) == a / 2;
    }
  }

  /** Division with remainder is unique. */
  lemma DivModUnique(a: int, d: int, q: int, r: int)
    requires d > 0 && 0 <= r < d && a == d * q + r
    ensures a / d == q && a % d == r
  {
    var q', r' := a / d, a % d;
    assert a == d * q' + r' && 0 <= r' < d;
    if q' < q {
      MulGap(d, q', q);
    } else if q < q' {
      MulGap(d, q, q');
    }
  }

  lemma MulGap(d: int, lo: int, hi: int)
    requires d > 0 && lo < hi
    ensures d * hi >= d * lo + d
  {
    assert d * hi == d * lo + d * (hi - lo - 1) + d;
    assert d * (hi - lo - 1) >= 0;
  }

  /** The remainder modulo 2p, read off from the remainder of the halved value. */
  lemma ModDouble(a: nat, p: nat)
    requires p > 0
    ensures a % (2 * p) == 2 * ((a / 2) % p) + a % 2
  {
    var q, r := (a / 2) / p, (a / 2) % p;
    assert a / 2 == p * q + r;
    assert a == (2 * p) * q + (2 * r + a % 2);
    DivModUnique(a, 2 * p, q, 2 * r + a % 2);
  }

  /** Masking with k one-bits keeps the value modulo 2^k: `a & (2^k - 1) == a % 2^k`. */
  lemma {:induction false} AndLowMask(a: nat, k: nat)
    ensures And(a, Pow2(k) - 1) == a % Pow2(k)
    decreases k
  {
    if k > 0 {
      var p := Pow2(k - 1);
      assert Pow2(k) == 2 * p;
      OddHalves(Pow2(k) - 1, p - 1);
      AndStep(a, Pow2(k) - 1);
      AndLowMask(a / 2, k - 1);
      ModDouble(a, p);
      assert a % 2 == 1 || a % 2 == 0;
    }
  }

  lemma OddHalves(m: nat, q: nat)
    requires m == 2 * q + 1
    ensures m / 2 == q && m % 2 == 1
  {
  }

  /** `a >> 2` is `a / 4` and `a >> 4` is `a / 16`. */
  lemma ShiftRightSmall(a: nat)
    ensures ShiftRight(a, 2) == a / 4 && ShiftRight(a, 4) == a / 16
  {
    var a2 := a / 2 / 2;
    assert ShiftRight(a, 2) == ShiftRight(a / 2, 1) == ShiftRight(a2, 0) == a2;
    assert ShiftRight(a, 4) == ShiftRight(a2, 2) == ShiftRight(a2 / 2, 1) == ShiftRight(a2 / 2 / 2, 0);
  }

  /** `a & 0b11` is `a % 4` and `a & 0b1111` is `a % 16`. */
  lemma AndMasks(a: nat)
    ensures And(a, 3) == a % 4 && And(a, 15) == a % 16
  {
    AndLowMask(a, 2);
    AndLowMask(a, 4);
  }

  /** `a & 0b11`: the two low bits of `a`. */
  function LowTwo(a: nat): (r: byte)
    ensures r == a % 4
  {
    AndMasks(a);
    And(a, 3)
  }

  /** Masking with a multiple of four drops the two low bits of `a`. */
  lemma AndTimesFour(a: nat, b: nat)
    ensures And(a, 4 * b) == 4 * And(a / 4, b)
  {
    assert (4 * b) / 2 == 2 * b && (4 * b) % 2 == 0;
    assert (2 * b) / 2 == b && (2 * b) % 2 == 0;
    assert a / 2 / 2 == a / 4;
    calc {
      And(a, 4 * b);
      == { AndStep(a, 4 * b); }
      2 * And(a / 2, 2 * b);
      == { AndStep(a / 2, 2 * b); }
      2 * (2 * And(a / 2 / 2, b));
    }
  }

  /** `a & 0b11111100` clears the two low bits of a byte. */
  lemma AndClearLow2(a: nat)
    requires a < 256
    ensures And(a, 252) == a - a % 4
  {
    assert Pow2(6) == 64;
    calc {
      And(a, 252);
      == { AndTimesFour(a, 63); }
      4 * And(a / 4, 63);
      == { AndLowMask(a / 4, 6); }
      4 * ((a / 4) % 64);
      ==
      4 * (a / 4);
    }
  }

  /** Or-ing a value below 2^k into a multiple of 2^k is addition. */
  lemma {:induction false} OrDisjoint(m: nat, b: nat, k: nat)
    requires b < Pow2(k)
    ensures Or(m * Pow2(k), b) == m * Pow2(k) + b
    decreases k
  {
    if k == 0 {
      assert b == 0;
    } else {
      var p := Pow2(k - 1);
      assert m * Pow2(k) == 2 * (m * p);
      OrStep(m * Pow2(k), b);
      OrDisjoint(m, b / 2, k - 1);
    }
  }

  /** `a ^ 0b11` complements the two low bits and keeps the others. */
  lemma XorThree(a: nat)
    ensures Xor(a, 3) == a - a % 4 + (3 - a % 4)
  {
    assert a / 2 / 2 == a / 4;
    assert Xor(a / 4, 0) == a / 4;
    calc {
      Xor(a, 3);
      == { XorStep(a, 3); }
      2 * Xor(a / 2, 1) + (if a % 2 != 1 then 1 else 0);
      == { XorStep(a / 2, 1); }
      2 * (2 * (a / 4) + (if (a / 2) % 2 != 1 then 1 else 0)) + (if a % 2 != 1 then 1 else 0);
    }
  }

  /** Xor-ing twice with the same value restores the original. */
  lemma {:induction false} XorInvolutive(a: nat, b: nat)
    ensures Xor(Xor(a, b), b) == a
    decreases a + b
  {
    var x := Xor(a, b);
    XorStep(a, b);
    XorStep(x, b);
    if a != 0 && b != 0 {
      XorInvolutive(a / 2, b / 2);
      assert x / 2 == Xor(a / 2, b / 2);
    } else if a == 0 {
      assert x == b;
      XorSelf(b);
    } else {
      assert x == a;
    }
  }

  lemma {:induction false} XorSelf(a: nat)
    ensures Xor(a, a) == 0
    decreases a
  {
    if a != 0 {
      XorSelf(a / 2);
    }
  }

  /** Or-ing two values below 2^k stays below 2^k. */
  lemma {:induction false} OrBelow(a: nat, b: nat, k: nat)
    requires a < Pow2(k) && b < Pow2(k)
    ensures Or(a, b) < Pow2(k)
    decreases k
  {
    if k > 0 {
      OrStep(a, b);
      OrBelow(a / 2, b / 2, k - 1);
    }
  }

  /** `v ^ 0b11` on a sample: its two low bits complemented. */
  function Flip(v: byte): (r: byte)
    ensures r / 4 == v / 4 && r % 4 == 3 - v % 4
  {
    XorThree(v);
    Xor(v, 3)
  }

  /** Flipping twice restores the sample. */
  lemma FlipInvolutive(v: byte)
    ensures Flip(Flip(v)) == v
  {
  }
}
