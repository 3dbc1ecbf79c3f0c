/** Python's unbounded integers seen as bit strings: powers, `int.bit_length`
    and bitwise exclusive or on non-negative integers. */
module Bits {

  /** `base ** k` */
  function Pow(base: nat, k: nat): nat {
    if k == 0 then 1 else base * Pow(base, k - 1)
  }

  lemma {:induction false} PowPositive(base: nat, k: nat)
    requires base > 0
    ensures Pow(base, k) > 0
  {
    if k > 0 {
      PowPositive(base, k - 1);
    }
  }

  lemma MulAssoc(a: int, b: int, c: int)
    ensures a * (b * c) == (a * b) * c
  {
  }

  lemma {:induction false} PowAdd(base: nat, a: nat, b: nat)
    ensures Pow(base, a + b) == Pow(base, a) * Pow(base, b)
  {
    if a > 0 {
      PowAdd(base, a - 1, b);
      var x, y := Pow(base, a - 1), Pow(base, b);
      assert Pow(base, a + b) == base * Pow(base, a - 1 + b);
      assert Pow(base, a) == base * x;
      MulAssoc(base, x, y);
    }
  }

  /** Four-to-the-k and 256-to-the-k as powers of two: a base-4 digit is two
      bits and a byte is eight. */
  lemma {:induction false} PowOfPow(base: nat, e: nat, k: nat)
    ensures Pow(Pow(base, e), k) == Pow(base, e * k)
  {
    if k > 0 {
      PowOfPow(base, e, k - 1);
      PowAdd(base, e, e * (k - 1));
      assert e + e * (k - 1) == e * k;
    }
  }

  lemma {:induction false} PowMonotone(base: nat, a: nat, b: nat)
    requires base > 0 && a <= b
    ensures Pow(base, a) <= Pow(base, b)
  {
    if a < b {
      PowMonotone(base, a, b - 1);
      PowPositive(base, b - 1);
    }
  }

  /** Python's `n.bit_length()` for a non-negative `n`. */
  function BitLength(n: nat): nat {
    if n == 0 then 0 else 1 + BitLength(n / 2)
  }

  /** `n` fits in `BitLength(n)` bits, and in no fewer. */
  lemma {:induction false} BitLengthBounds(n: nat)
    ensures n < Pow(2, BitLength(n))
    ensures n > 0 ==> Pow(2, BitLength(n) - 1) <= n
  {
    if n > 0 {
      BitLengthBounds(n / 2);
    }
  }

  /** The bit length is determined by the power-of-two interval holding `n`. */
  lemma {:induction false} BitLengthOf(n: nat, k: nat)
    requires k > 0 && Pow(2, k - 1) <= n < Pow(2, k)
    ensures BitLength(n) == k
  {
    if k > 1 {
      assert Pow(2, k - 1) == 2 * Pow(2, k - 2);
      BitLengthOf(n / 2, k - 1);
    } else {
      assert n == 1;
    }
  }

  /** Python's `a ^ b` on non-negative integers, one bit at a time from the
      least significant end. */
  function Xor(a: nat, b: nat): nat
    decreases a + b
  {
    if a == 0 && b == 0 then 0
    else 2 * Xor(a / 2, b / 2) + (a % 2 + b % 2) % 2
  }

  lemma {:induction false} XorCommutes(a: nat, b: nat)
    ensures Xor(a, b) == Xor(b, a)
    decreases a + b
  {
    if a != 0 || b != 0 {
      XorCommutes(a / 2, b / 2);
    }
  }

  lemma {:induction false} XorZero(a: nat)
    ensures Xor(a, 0) == a
  {
    if a != 0 {
      XorZero(a / 2);
    }
  }

  lemma HalfOfTwice(q: nat, r: nat)
    requires r < 2
    ensures (2 * q + r) / 2 == q && (2 * q + r) % 2 == r
  {
  }

  /** The low bit of `a ^ b` is the exclusive or of the low bits, and the
      rest is the exclusive or of the rest. */
  lemma {:induction false} XorHalves(a: nat, b: nat)
    ensures Xor(a, b) / 2 == Xor(a / 2, b / 2)
    ensures Xor(a, b) % 2 == (a % 2 + b % 2) % 2
  {
    if a != 0 || b != 0 {
      HalfOfTwice(Xor(a / 2, b / 2), (a % 2 + b % 2) % 2);
    }
  }

  lemma ParityCancel(p: nat, q: nat)
    requires p < 2 && q < 2
    ensures ((p + q) % 2 + q) % 2 == p
  {
  }

  /** Exclusive or with the same key twice gives the original back. */
  lemma {:induction false} XorCancel(a: nat, b: nat)
    ensures Xor(Xor(a, b), b) == a
    decreases a + b
  {
    if b == 0 {
      XorZero(a);
      XorZero(Xor(a, b));
    } else {
      var x := Xor(a, b);
      XorHalves(a, b);
      XorCancel(a / 2, b / 2);
      var h, low := Xor(x / 2, b / 2), (x % 2 + b % 2) % 2;
      assert Xor(x, b) == 2 * h + low;
      assert h == a / 2;
      ParityCancel(a % 2, b % 2);
      assert low == a % 2;
    }
  }

  /** Exclusive or of two `k`-bit numbers is a `k`-bit number. */
  lemma {:induction false} XorBound(a: nat, b: nat, k: nat)
    requires a < Pow(2, k) && b < Pow(2, k)
    ensures Xor(a, b) < Pow(2, k)
    decreases a + b
  {
    if a == 0 && b == 0 {
      PowPositive(2, k);
    } else {
      assert k > 0;
      XorBound(a / 2, b / 2, k - 1);
    }
  }
}
