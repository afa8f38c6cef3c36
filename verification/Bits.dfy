/** Bitwise operations on natural numbers, bit by bit. */
module Bits {
  function Pow2(n: nat): nat {
    if n == 0 then 1 else 2 * Pow2(n - 1)
  }

  function Bit(x: nat, i: nat): (b: nat)
    ensures b < 2
  {
    if i == 0 then x % 2 else Bit(x / 2, i - 1)
  }

  function And(a: nat, b: nat): nat {
    if a == 0 || b == 0 then 0 else (if a % 2 == 1 && b % 2 == 1 then 1 else 0) + 2 * And(a / 2, b / 2)
  }

  function Or(a: nat, b: nat): nat
    decreases a + b
  {
    if a == 0 && b == 0 then 0 else (if a % 2 == 1 || b % 2 == 1 then 1 else 0) + 2 * Or(a / 2, b / 2)
  }

  function Xor(a: nat, b: nat): nat
    decreases a + b
  {
    if a == 0 && b == 0 then 0 else (if a % 2 == b % 2 then 0 else 1) + 2 * Xor(a / 2, b / 2)
  }

  function Shr(x: nat, n: nat): nat
    decreases n
  {
    if n == 0 then x else Shr(x / 2, n - 1)
  }

  // ---------- one bit at a time ----------

  lemma Halve(bit: nat, rest: nat)
    requires bit < 2
    ensures (bit + 2 * rest) / 2 == rest && (bit + 2 * rest) % 2 == bit
  {
  }

  lemma XorParts(a: nat, b: nat)
    ensures Xor(a, b) % 2 == (if a % 2 == b % 2 then 0 else 1) && Xor(a, b) / 2 == Xor(a / 2, b / 2)
  {
    if a != 0 || b != 0 { Halve(if a % 2 == b % 2 then 0 else 1, Xor(a / 2, b / 2)); }
  }

  lemma OrParts(a: nat, b: nat)
    ensures Or(a, b) % 2 == (if a % 2 == 1 || b % 2 == 1 then 1 else 0) && Or(a, b) / 2 == Or(a / 2, b / 2)
  {
    if a != 0 || b != 0 { Halve(if a % 2 == 1 || b % 2 == 1 then 1 else 0, Or(a / 2, b / 2)); }
  }

  lemma AndParts(a: nat, b: nat)
    ensures And(a, b) % 2 == (if a % 2 == 1 && b % 2 == 1 then 1 else 0) && And(a, b) / 2 == And(a / 2, b / 2)
  {
    if a != 0 && b != 0 { Halve(if a % 2 == 1 && b % 2 == 1 then 1 else 0, And(a / 2, b / 2)); }
  }

  lemma {:induction false} XorBit(a: nat, b: nat, i: nat)
    ensures Bit(Xor(a, b), i) == if Bit(a, i) == Bit(b, i) then 0 else 1
    decreases i
  {
    hide Xor;
    XorParts(a, b);
    if i > 0 { XorBit(a / 2, b / 2, i - 1); }
  }

  lemma {:induction false} OrBit(a: nat, b: nat, i: nat)
    ensures Bit(Or(a, b), i) == if Bit(a, i) == 1 || Bit(b, i) == 1 then 1 else 0
    decreases i
  {
    hide Or;
    OrParts(a, b);
    if i > 0 { OrBit(a / 2, b / 2, i - 1); }
  }

  lemma {:induction false} AndBit(a: nat, b: nat, i: nat)
    ensures Bit(And(a, b), i) == if Bit(a, i) == 1 && Bit(b, i) == 1 then 1 else 0
    decreases i
  {
    hide And;
    AndParts(a, b);
    if i > 0 { AndBit(a / 2, b / 2, i - 1); }
  }

  lemma {:induction false} Bound(a: nat, b: nat, n: nat)
    requires a < Pow2(n) && b < Pow2(n)
    ensures And(a, b) < Pow2(n) && Or(a, b) < Pow2(n) && Xor(a, b) < Pow2(n)
    decreases n
  {
    if n > 0 { Bound(a / 2, b / 2, n - 1); }
  }

  /** A number below 2^n has no bits from the n-th on. */
  lemma {:induction false} BitsEnd(x: nat, n: nat, i: nat)
    requires x < Pow2(n) && i >= n
    ensures Bit(x, i) == 0
    decreases i
  {
    if i > 0 { BitsEnd(x / 2, if n == 0 then 0 else n - 1, i - 1); }
  }

  /** The complement to 2^n - 1 turns every bit around. */
  lemma {:induction false} ComplementBit(x: nat, n: nat, i: nat)
    requires x < Pow2(n) && i < n
    ensures Bit(Pow2(n) - 1 - x, i) == 1 - Bit(x, i)
    decreases n
  {
    var y := Pow2(n) - 1 - x;
    assert Pow2(n) == 2 * Pow2(n - 1);
    assert y % 2 == 1 - x % 2 && y / 2 == Pow2(n - 1) - 1 - x / 2;
    if i > 0 { ComplementBit(x / 2, n - 1, i - 1); }
  }

  lemma {:induction false} SameBits(a: nat, b: nat, n: nat)
    requires a < Pow2(n) && b < Pow2(n) && forall i :: 0 <= i < n ==> Bit(a, i) == Bit(b, i)
    ensures a == b
    decreases n
  {
    if n > 0 {
      assert Bit(a, 0) == Bit(b, 0);
      forall i | 0 <= i < n - 1 ensures Bit(a / 2, i) == Bit(b / 2, i) {
        assert Bit(a, i + 1) == Bit(b, i + 1);
      }
      SameBits(a / 2, b / 2, n - 1);
    }
  }

  // ---------- shifts ----------

  lemma {:induction false} ShiftLeftBit(x: nat, n: nat, i: nat)
    ensures Bit(x * Pow2(n), i) == if i < n then 0 else Bit(x, i - n)
    decreases n
  {
    if n > 0 {
      var y := x * Pow2(n - 1);
      assert x * Pow2(n) == 2 * y;
      assert 2 * y % 2 == 0 && 2 * y / 2 == y;
      if i > 0 { ShiftLeftBit(x, n - 1, i - 1); }
    } else {
      assert x * 1 == x;
    }
  }

  lemma {:induction false} ShiftRightBit(x: nat, n: nat, i: nat)
    ensures Bit(Shr(x, n), i) == Bit(x, i + n)
    decreases n
  {
    if n > 0 { ShiftRightBit(x / 2, n - 1, i); }
  }

  /** Shifting right divides. */
  lemma {:induction false} ShrDivides(x: nat, n: nat)
    ensures Pow2(n) > 0 && Shr(x, n) == x / Pow2(n)
    decreases n
  {
    Positive(n);
    if n > 0 {
      Positive(n - 1);
      ShrDivides(x / 2, n - 1);
      DivTwice(x, Pow2(n - 1));
    }
  }

  lemma {:induction false} Positive(n: nat)
    ensures Pow2(n) > 0
  {
    if n > 0 { Positive(n - 1); }
  }

  lemma DivTwice(x: nat, d: nat)
    requires d > 0
    ensures x / (2 * d) == x / 2 / d
  {
    var q, r := x / 2 / d, x / 2 % d;
    assert x / 2 == q * d + r;
    assert x == (2 * d) * q + (2 * r + x % 2);
    Quotient(x, 2 * d, q, 2 * r + x % 2);
  }

  lemma Quotient(x: nat, d: nat, q: nat, r: nat)
    requires d > 0 && x == d * q + r && r < d
    ensures x / d == q
  {
    var q', r' := x / d, x % d;
    assert d * q' + r' == d * q + r;
    Apart(d, q', q, r - r');
  }

  lemma Apart(d: int, a: int, b: int, r: int)
    requires d > 0 && d * a == d * b + r && -d < r < d
    ensures a == b
  {
    var k := a - b;
    assert d * k == r;
    if k >= 1 { Grows(d, k); }
    if k <= -1 {
      assert d * -k == -r;
      Grows(d, -k);
    }
  }

  lemma Grows(d: int, k: int)
    requires d > 0 && k >= 1
    ensures d * k >= d
  {
  }

  lemma {:induction false} LowBit(x: nat, n: nat, i: nat)
    requires i < n
    ensures Pow2(n) > 0 && Bit(x % Pow2(n), i) == Bit(x, i)
    decreases n
  {
    Positive(n);
    Positive(n - 1);
    ModHalf(x, Pow2(n - 1));
    if i > 0 { LowBit(x / 2, n - 1, i - 1); }
  }

  lemma ModHalf(x: nat, d: nat)
    requires d > 0
    ensures x % (2 * d) % 2 == x % 2 && x % (2 * d) / 2 == x / 2 % d
  {
    var q, r := x / 2 / d, x / 2 % d;
    assert x / 2 == q * d + r;
    var low := 2 * r + x % 2;
    assert x == (2 * d) * q + low;
    Quotient(x, 2 * d, q, low);
    assert x % (2 * d) == low;
  }

  /** Or of a shifted number and one below the gap is their sum. */
  lemma {:induction false} OrShifted(x: nat, y: nat, n: nat)
    requires y < Pow2(n)
    ensures Or(x * Pow2(n), y) == x * Pow2(n) + y
    decreases n
  {
    if n == 0 {
      assert x * 1 == x;
      OrAlone(x);
    } else {
      var z := x * Pow2(n - 1);
      assert x * Pow2(n) == 2 * z;
      assert 2 * z % 2 == 0 && 2 * z / 2 == z;
      OrShifted(x, y / 2, n - 1);
      OrParts(2 * z, y);
    }
  }

  lemma {:induction false} OrAlone(x: nat)
    ensures Or(x, 0) == x
  {
    if x > 0 { OrAlone(x / 2); }
  }

  /** Exclusive or works on the high and the low part of its arguments separately. */
  lemma {:induction false} XorSplit(h: nat, l: nat, g: nat, m: nat, n: nat)
    requires l < Pow2(n) && m < Pow2(n)
    ensures Xor(h * Pow2(n) + l, g * Pow2(n) + m) == Xor(h, g) * Pow2(n) + Xor(l, m)
    decreases n
  {
    if n > 0 {
      XorSplit(h, l / 2, g, m / 2, n - 1);
      XorSplitStep(h, l, g, m, Pow2(n - 1));
    } else {
      assert h * 1 == h && g * 1 == g && Xor(h, g) * 1 == Xor(h, g);
    }
  }

  lemma XorSplitStep(h: nat, l: nat, g: nat, m: nat, half: nat)
    requires Xor(h * half + l / 2, g * half + m / 2) == Xor(h, g) * half + Xor(l / 2, m / 2)
    ensures Xor(h * (2 * half) + l, g * (2 * half) + m) == Xor(h, g) * (2 * half) + Xor(l, m)
  {
    hide *;
    var a, b := h * (2 * half) + l, g * (2 * half) + m;
    Halved(h, l, half);
    Halved(g, m, half);
    Halved(Xor(h, g), Xor(l, m), half);
    XorParts(a, b);
    XorParts(l, m);
    SameHalves(Xor(a, b), Xor(h, g) * (2 * half) + Xor(l, m));
  }

  lemma SameHalves(x: nat, y: nat)
    requires x / 2 == y / 2 && x % 2 == y % 2
    ensures x == y
  {
  }

  lemma Halved(h: nat, l: nat, half: nat)
    ensures (h * (2 * half) + l) / 2 == h * half + l / 2 && (h * (2 * half) + l) % 2 == l % 2
  {
    assert h * (2 * half) == 2 * (h * half);
  }

  lemma {:induction false} XorCommutes(a: nat, b: nat)
    ensures Xor(a, b) == Xor(b, a)
    decreases a + b
  {
    if a != 0 || b != 0 { XorCommutes(a / 2, b / 2); }
  }

  lemma {:induction false} XorNothing(a: nat)
    ensures Xor(a, 0) == a
  {
    if a > 0 { XorNothing(a / 2); }
  }

  /** Four more bits at the low end. */
  lemma XorNibble(h: nat, g: nat, k: nat, a: nat, b: nat, c: nat)
    requires Xor(h, g) == k && Xor(a, b) == c && a < 16 && b < 16
    ensures Xor(16 * h + a, 16 * g + b) == 16 * k + c
  {
    assert Pow2(4) == 16;
    hide *;
    XorSplit(h, a, g, b, 4);
  }

  /** Exclusive or with `n` set bits is the complement. */
  lemma {:induction false} XorOnes(x: nat, n: nat)
    requires x < Pow2(n)
    ensures Xor(x, Pow2(n) - 1) == Pow2(n) - 1 - x
    decreases n
  {
    if n > 0 {
      var half := Pow2(n - 1);
      XorOnes(x / 2, n - 1);
      assert (2 * half - 1) % 2 == 1 && (2 * half - 1) / 2 == half - 1;
      hide Xor, Pow2;
      XorParts(x, 2 * half - 1);
    }
  }

  /** A common part of both sides can be taken out. */
  lemma XorCommon(a: nat, b: nat, p: nat)
    ensures Xor(Xor(a, p), Xor(b, p)) == Xor(a, b) && Xor(Xor(a, p), b) == Xor(Xor(a, b), p)
  {
    hide *;
    XorAssociative(a, p, b);
    XorCommutes(p, b);
    XorAssociative(a, b, p);
    XorAssociative(Xor(a, p), b, p);
    XorAssociative(Xor(a, b), p, p);
    XorZero(p, p);
    XorNothing(Xor(a, b));
  }

  /** And with the number whose low `n` bits are set keeps the remainder. */
  lemma {:induction false} AndMask(x: nat, n: nat)
    ensures Pow2(n) > 0 && And(x, Pow2(n) - 1) == x % Pow2(n)
    decreases n
  {
    Positive(n);
    if n > 0 {
      Positive(n - 1);
      var half := Pow2(n - 1);
      AndMask(x / 2, n - 1);
      ModHalf(x, half);
      assert (2 * half - 1) % 2 == 1 && (2 * half - 1) / 2 == half - 1;
      AndParts(x, 2 * half - 1);
    }
  }

  // ---------- laws the hash code relies on ----------

  lemma {:induction false} XorAssociative(a: nat, b: nat, c: nat)
    ensures Xor(Xor(a, b), c) == Xor(a, Xor(b, c))
    decreases a + b + c
  {
    if a + b + c > 0 {
      XorAssociative(a / 2, b / 2, c / 2);
      hide *;
      XorParts(a, b);
      XorParts(b, c);
      XorParts(Xor(a, b), c);
      XorParts(a, Xor(b, c));
    }
  }

  lemma {:induction false} XorZero(a: nat, b: nat)
    ensures Xor(a, b) == 0 <==> a == b
    decreases a + b
  {
    if a != 0 || b != 0 { XorZero(a / 2, b / 2); }
  }

  lemma {:induction false} OrZero(a: nat, b: nat)
    ensures Or(a, b) == 0 <==> a == 0 && b == 0
    decreases a + b
  {
    if a != 0 || b != 0 { OrZero(a / 2, b / 2); }
  }
}
