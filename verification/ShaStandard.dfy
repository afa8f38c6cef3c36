/** What FIPS 180-4 asks of the constants and functions of SHA-256, stated without the code's own names for them. */
module ShaStandard {
  import opened Bytes
  import opened Word32
  import opened Sha256
  import Bits

  // ---------- the constants of sections 4.2.2 and 5.3.3: fractions of roots of the first primes ----------

  ghost predicate Prime(n: nat) {
    n >= 2 && forall d :: 2 <= d < n ==> n % d != 0
  }

  ghost function PrimesBelow(n: nat): nat {
    if n == 0 then 0 else PrimesBelow(n - 1) + if Prime(n - 1) then 1 else 0
  }

  const PRIMES: seq<nat> :=
    ([2, 3, 5, 7, 11, 13, 17, 19]
     + [23, 29, 31, 37, 41, 43, 47, 53]
     + [59, 61, 67, 71, 73, 79, 83, 89]
     + [97, 101, 103, 107, 109, 113, 127, 131])
    + ([137, 139, 149, 151, 157, 163, 167, 173]
       + [179, 181, 191, 193, 197, 199, 211, 223]
       + [227, 229, 233, 239, 241, 251, 257, 263]
       + [269, 271, 277, 281, 283, 293, 307, 311])

  /** Not divisible by a smaller one of the primes up to 17. */
  predicate Passes(n: nat) {
    && (n % 2 != 0 || n == 2) && (n % 3 != 0 || n == 3) && (n % 5 != 0 || n == 5) && (n % 7 != 0 || n == 7)
    && (n % 11 != 0 || n == 11) && (n % 13 != 0 || n == 13) && (n % 17 != 0 || n == 17)
  }

  lemma Divides(n: nat, d: nat, m: nat)
    requires d > 0 && m > 0 && n % d == 0 && d % m == 0
    ensures n % m == 0
  {
    var a, b := n / d, d / m;
    assert n == d * a && d == m * b;
    assert n == m * (b * a);
    MultipleOf(m, b * a);
  }

  lemma MultipleOf(m: nat, k: nat)
    requires m > 0
    ensures m * k % m == 0
  {
    Bits.Quotient(m * k, m, k, 0);
  }

  /** Below 19 squared, the seven smallest primes decide. */
  lemma PassesIsPrime(n: nat)
    requires 2 <= n < 361
    ensures Prime(n) <==> Passes(n)
  {
    if Passes(n) {
      forall d | 2 <= d < n ensures n % d != 0 {
        if n % d == 0 { NoDivisor(n, d); }
      }
    }
  }

  lemma NoDivisor(n: nat, d: nat)
    requires 2 <= d < n < 361 && n % d == 0
    ensures !Passes(n)
  {
    var e := n / d;
    assert n == d * e;
    if d <= 18 {
      SmallDivisor(n, d);
    } else {
      assert 2 <= e <= 18 by { Cofactor(n, d, e); }
      assert n == e * d;
      MultipleOf(e, d);
      SmallDivisor(n, e);
    }
  }

  lemma Product(d: nat, e: nat)
    requires d >= 19 && e >= 19
    ensures d * e >= 361
  {
    assert (d - 19) * (e - 19) >= 0;
  }

  lemma Cofactor(n: nat, d: nat, e: nat)
    requires n == d * e && 19 <= d < n < 361
    ensures 2 <= e <= 18
  {
    if e >= 19 { Product(d, e); }
  }

  lemma SmallDivisor(n: nat, d: nat)
    requires 2 <= d <= 18 && d < n && n % d == 0
    ensures !Passes(n)
  {
    var m := if d % 2 == 0 then 2 else if d % 3 == 0 then 3 else if d % 5 == 0 then 5 else d;
    Divides(n, d, m);
  }

  /** Going up from `a` with `i` primes behind, the numbers that pass are the entries `i` to `j` of the table. */
  predicate Walk(a: nat, i: nat, b: nat, j: nat)
    decreases b - a
  {
    if a >= b then a == b && i == j
    else if Passes(a) then i < 64 && PRIMES[i] == a && Walk(a + 1, i + 1, b, j)
    else Walk(a + 1, i, b, j)
  }

  ghost predicate IsPrimeNumber(p: nat, i: nat) {
    Prime(p) && PrimesBelow(p) == i
  }

  lemma WalkStep(a: nat, i: nat, b: nat, j: nat)
    requires Walk(a, i, b, j) && a < b
    ensures Walk(a + 1, if Passes(a) then i + 1 else i, b, j) && (Passes(a) ==> i < 64 && PRIMES[i] == a)
  {
    hide Passes, PRIMES;
  }

  lemma CountStep(a: nat)
    requires 2 <= a < 361
    ensures PrimesBelow(a + 1) == PrimesBelow(a) + if Passes(a) then 1 else 0
    ensures Passes(a) ==> IsPrimeNumber(a, PrimesBelow(a))
  {
    hide Passes, Prime;
    PassesIsPrime(a);
  }

  lemma {:induction false} WalkFinds(a: nat, i: nat, b: nat, j: nat)
    requires Walk(a, i, b, j) && 2 <= a && b <= 361 && PrimesBelow(a) == i
    ensures PrimesBelow(b) == j
    ensures forall k :: i <= k < j && k < 64 ==> IsPrimeNumber(PRIMES[k], k)
    decreases b - a
  {
    hide Passes, PRIMES, IsPrimeNumber, PrimesBelow;
    if a < b {
      WalkStep(a, i, b, j);
      CountStep(a);
      WalkFinds(a + 1, if Passes(a) then i + 1 else i, b, j);
    }
  }

  lemma NoneBelowTwo()
    ensures PrimesBelow(2) == 0
  {
    assert PrimesBelow(0) == 0 && !Prime(0) && !Prime(1);
    assert PrimesBelow(1) == 0;
  }

  lemma Decades0()
    ensures Walk(2, 0, 10, 4) && Walk(10, 4, 20, 8) && Walk(20, 8, 30, 10) && Walk(30, 10, 40, 12)
  {
  }

  lemma Decades1()
    ensures Walk(40, 12, 50, 15) && Walk(50, 15, 60, 17) && Walk(60, 17, 70, 19) && Walk(70, 19, 80, 22)
  {
  }

  lemma Decades2()
    ensures Walk(80, 22, 90, 24) && Walk(90, 24, 100, 25) && Walk(100, 25, 110, 29) && Walk(110, 29, 120, 30)
  {
  }

  lemma Decades3()
    ensures Walk(120, 30, 130, 31) && Walk(130, 31, 140, 34) && Walk(140, 34, 150, 35) && Walk(150, 35, 160, 37)
  {
  }

  lemma Decades4()
    ensures Walk(160, 37, 170, 39) && Walk(170, 39, 180, 41) && Walk(180, 41, 190, 42) && Walk(190, 42, 200, 46)
  {
  }

  lemma Decades5()
    ensures Walk(200, 46, 210, 46) && Walk(210, 46, 220, 47) && Walk(220, 47, 230, 50) && Walk(230, 50, 240, 52)
  {
  }

  lemma Decades6()
    ensures Walk(240, 52, 250, 53) && Walk(250, 53, 260, 55) && Walk(260, 55, 270, 57) && Walk(270, 57, 280, 59)
  {
  }

  lemma Decades7()
    ensures Walk(280, 59, 290, 61) && Walk(290, 61, 300, 62) && Walk(300, 62, 310, 63) && Walk(310, 63, 312, 64)
  {
  }

  lemma PrimesOf0()
    ensures PrimesBelow(80) == 22 && forall k :: 0 <= k < 22 ==> IsPrimeNumber(PRIMES[k], k)
  {
    hide *;
    Sizes();
    NoneBelowTwo();
    Decades0();
    Decades1();
    WalkFinds(2, 0, 10, 4);
    WalkFinds(10, 4, 20, 8);
    WalkFinds(20, 8, 30, 10);
    WalkFinds(30, 10, 40, 12);
    WalkFinds(40, 12, 50, 15);
    WalkFinds(50, 15, 60, 17);
    WalkFinds(60, 17, 70, 19);
    WalkFinds(70, 19, 80, 22);
  }

  lemma PrimesOf1()
    requires PrimesBelow(80) == 22
    ensures PrimesBelow(160) == 37 && forall k :: 22 <= k < 37 ==> IsPrimeNumber(PRIMES[k], k)
  {
    hide *;
    Sizes();
    Decades2();
    Decades3();
    WalkFinds(80, 22, 90, 24);
    WalkFinds(90, 24, 100, 25);
    WalkFinds(100, 25, 110, 29);
    WalkFinds(110, 29, 120, 30);
    WalkFinds(120, 30, 130, 31);
    WalkFinds(130, 31, 140, 34);
    WalkFinds(140, 34, 150, 35);
    WalkFinds(150, 35, 160, 37);
  }

  lemma PrimesOf2()
    requires PrimesBelow(160) == 37
    ensures PrimesBelow(240) == 52 && forall k :: 37 <= k < 52 ==> IsPrimeNumber(PRIMES[k], k)
  {
    hide *;
    Sizes();
    Decades4();
    Decades5();
    WalkFinds(160, 37, 170, 39);
    WalkFinds(170, 39, 180, 41);
    WalkFinds(180, 41, 190, 42);
    WalkFinds(190, 42, 200, 46);
    WalkFinds(200, 46, 210, 46);
    WalkFinds(210, 46, 220, 47);
    WalkFinds(220, 47, 230, 50);
    WalkFinds(230, 50, 240, 52);
  }

  lemma PrimesOf3()
    requires PrimesBelow(240) == 52
    ensures PrimesBelow(312) == 64 && forall k :: 52 <= k < 64 ==> IsPrimeNumber(PRIMES[k], k)
  {
    hide *;
    Sizes();
    Decades6();
    Decades7();
    WalkFinds(240, 52, 250, 53);
    WalkFinds(250, 53, 260, 55);
    WalkFinds(260, 55, 270, 57);
    WalkFinds(270, 57, 280, 59);
    WalkFinds(280, 59, 290, 61);
    WalkFinds(290, 61, 300, 62);
    WalkFinds(300, 62, 310, 63);
    WalkFinds(310, 63, 312, 64);
  }

  /** The table holds the first 64 primes: below entry `i` there are exactly `i`. */
  lemma PrimeAt(i: nat)
    requires i < 64
    ensures IsPrimeNumber(PRIMES[i], i)
  {
    hide *;
    Sizes();
    PrimesOf0();
    PrimesOf1();
    PrimesOf2();
    PrimesOf3();
  }

  function Square(r: nat): nat {
    r * r
  }

  function Cube(r: nat): nat {
    r * r * r
  }

  function Root3(p: nat): nat {
    if p < 8 then 1 else if p < 27 then 2 else if p < 64 then 3 else if p < 125 then 4 else if p < 216 then 5 else 6
  }

  predicate Fits(i: nat)
    requires i < 64
  {
    var r := Root3(PRIMES[i]) * RANGE + K[i];
    Cube(r) <= PRIMES[i] * Cube(RANGE) < Cube(r + 1)
  }

  predicate AllFit(i: nat, j: nat)
    requires j <= 64
    decreases j - i
  {
    i >= j || (Fits(i) && AllFit(i + 1, j))
  }

  lemma {:induction false} OneFits(i: nat, j: nat, k: nat)
    requires j <= 64 && AllFit(i, j) && i <= k < j
    ensures Fits(k)
    decreases k - i
  {
    hide Fits;
    if i < k { OneFits(i + 1, j, k); }
  }

  lemma Fractions0()
    ensures AllFit(0, 8)
  {
  }

  lemma Fractions1()
    ensures AllFit(8, 16)
  {
  }

  lemma Fractions2()
    ensures AllFit(16, 24)
  {
  }

  lemma Fractions3()
    ensures AllFit(24, 32)
  {
  }

  lemma Fractions4()
    ensures AllFit(32, 40)
  {
  }

  lemma Fractions5()
    ensures AllFit(40, 48)
  {
  }

  lemma Fractions6()
    ensures AllFit(48, 56)
  {
  }

  lemma Fractions7()
    ensures AllFit(56, 64)
  {
  }

  lemma Fractions(k: nat)
    requires k < 64
    ensures Fits(k)
  {
    hide *;
    Fractions0();
    Fractions1();
    Fractions2();
    Fractions3();
    Fractions4();
    Fractions5();
    Fractions6();
    Fractions7();
    var r := 8 * (k / 8);
    assert AllFit(r, r + 8);
    OneFits(r, r + 8, k);
  }

  lemma Sizes()
    ensures |K| == 64 && |PRIMES| == 64
  {
  }

  lemma RootOf(i: nat) returns (r: nat)
    requires i < 64 && Fits(i)
    ensures Cube(r) <= PRIMES[i] * Cube(0x1_0000_0000) < Cube(r + 1) && K[i] == r % 0x1_0000_0000
  {
    hide K, PRIMES, Root3, Cube;
    Sizes();
    r := Root3(PRIMES[i]) * RANGE + K[i];
  }

  /** Round constant `i`: the first 32 bits of the fraction of the cube root of prime number `i`. */
  lemma RoundConstant(i: nat) returns (p: nat, r: nat)
    requires i < |K|
    ensures IsPrimeNumber(p, i)
    ensures Cube(r) <= p * Cube(0x1_0000_0000) < Cube(r + 1) && K[i] == r % 0x1_0000_0000
  {
    assert |K| == 64;
    hide *;
    PrimeAt(i);
    Fractions(i);
    p := PRIMES[i];
    r := RootOf(i);
  }

  function Root2(p: nat): nat {
    if p < 4 then 1 else if p < 9 then 2 else if p < 16 then 3 else 4
  }

  predicate FitsSquare(i: nat)
    requires i < 8
  {
    var r := Root2(PRIMES[i]) * RANGE + H0[i];
    Square(r) <= PRIMES[i] * Square(RANGE) < Square(r + 1)
  }

  lemma SquareFractions()
    ensures FitsSquare(0) && FitsSquare(1) && FitsSquare(2) && FitsSquare(3)
    ensures FitsSquare(4) && FitsSquare(5) && FitsSquare(6) && FitsSquare(7)
  {
  }

  /** Word `i` of the initial value: the same with the square root. */
  lemma InitialWord(i: nat) returns (p: nat, r: nat)
    requires i < 8
    ensures IsPrimeNumber(p, i)
    ensures Square(r) <= p * Square(0x1_0000_0000) < Square(r + 1) && H0[i] == r % 0x1_0000_0000
  {
    hide IsPrimeNumber, Square;
    PrimeAt(i);
    SquareFractions();
    p := PRIMES[i];
    r := Root2(p) * RANGE + H0[i];
  }

  // ---------- the functions of section 4.1.2, bit by bit ----------

  lemma ChoiceBit(e: u32, f: u32, g: u32, i: nat)
    requires i < 32
    ensures Bits.Bit(Choice(e, f, g), i) == if Bits.Bit(e, i) == 1 then Bits.Bit(f, i) else Bits.Bit(g, i)
  {
    hide And, Xor, Not, Bits.Bit;
    NotBit(e, i);
    BitwiseBit(e, f, i);
    BitwiseBit(Not(e), g, i);
    BitwiseBit(And(e, f), And(Not(e), g), i);
  }

  lemma MajorityBit(a: u32, b: u32, c: u32, i: nat)
    ensures Bits.Bit(Majority(a, b, c), i) == if Bits.Bit(a, i) + Bits.Bit(b, i) + Bits.Bit(c, i) >= 2 then 1 else 0
  {
    hide And, Xor, Bits.Bit;
    BitwiseBit(a, b, i);
    BitwiseBit(a, c, i);
    BitwiseBit(b, c, i);
    BitwiseBit(And(a, b), And(a, c), i);
    BitwiseBit(Xor(And(a, b), And(a, c)), And(b, c), i);
  }

  lemma ThreeBit(x: u32, y: u32, z: u32, i: nat)
    ensures Bits.Bit(Xor(Xor(x, y), z), i) == (Bits.Bit(x, i) + Bits.Bit(y, i) + Bits.Bit(z, i)) % 2
  {
    hide Xor, Bits.Bit;
    BitwiseBit(x, y, i);
    BitwiseBit(Xor(x, y), z, i);
  }

  /** Each bit of the four sigmas adds three bits of the argument, turned or shifted by the standard's amounts. */
  lemma SigmaBits(x: u32, i: nat)
    requires i < 32
    ensures Bits.Bit(BigSigma0(x), i)
            == (Bits.Bit(x, (i + 2) % 32) + Bits.Bit(x, (i + 13) % 32) + Bits.Bit(x, (i + 22) % 32)) % 2
    ensures Bits.Bit(BigSigma1(x), i)
            == (Bits.Bit(x, (i + 6) % 32) + Bits.Bit(x, (i + 11) % 32) + Bits.Bit(x, (i + 25) % 32)) % 2
    ensures Bits.Bit(SmallSigma0(x), i)
            == (Bits.Bit(x, (i + 7) % 32) + Bits.Bit(x, (i + 18) % 32) + if i + 3 < 32 then Bits.Bit(x, i + 3) else 0) % 2
    ensures Bits.Bit(SmallSigma1(x), i)
            == (Bits.Bit(x, (i + 17) % 32) + Bits.Bit(x, (i + 19) % 32) + if i + 10 < 32 then Bits.Bit(x, i + 10) else 0) % 2
  {
    SigmasAre(x);
    hide *;
    ThreeTurned(x, 2, 13, 22, i);
    ThreeTurned(x, 6, 11, 25, i);
    TwoTurned(x, 7, 18, 3, i);
    TwoTurned(x, 17, 19, 10, i);
  }

  lemma SigmasAre(x: u32)
    ensures BigSigma0(x) == Xor(Xor(Rotr(x, 2), Rotr(x, 13)), Rotr(x, 22))
    ensures BigSigma1(x) == Xor(Xor(Rotr(x, 6), Rotr(x, 11)), Rotr(x, 25))
    ensures SmallSigma0(x) == Xor(Xor(Rotr(x, 7), Rotr(x, 18)), Shr(x, 3))
    ensures SmallSigma1(x) == Xor(Xor(Rotr(x, 17), Rotr(x, 19)), Shr(x, 10))
  {
  }

  lemma ThreeTurned(x: u32, j: nat, k: nat, l: nat, i: nat)
    requires j <= 32 && k <= 32 && l <= 32 && i < 32
    ensures Bits.Bit(Xor(Xor(Rotr(x, j), Rotr(x, k)), Rotr(x, l)), i)
            == (Bits.Bit(x, (i + j) % 32) + Bits.Bit(x, (i + k) % 32) + Bits.Bit(x, (i + l) % 32)) % 2
  {
    hide *;
    ThreeBit(Rotr(x, j), Rotr(x, k), Rotr(x, l), i);
    RotrBit(x, j, i);
    RotrBit(x, k, i);
    RotrBit(x, l, i);
  }

  lemma TwoTurned(x: u32, j: nat, k: nat, l: nat, i: nat)
    requires j <= 32 && k <= 32 && i < 32
    ensures Bits.Bit(Xor(Xor(Rotr(x, j), Rotr(x, k)), Shr(x, l)), i)
            == (Bits.Bit(x, (i + j) % 32) + Bits.Bit(x, (i + k) % 32) + if i + l < 32 then Bits.Bit(x, i + l) else 0) % 2
  {
    hide *;
    ThreeBit(Rotr(x, j), Rotr(x, k), Shr(x, l), i);
    RotrBit(x, j, i);
    RotrBit(x, k, i);
    ShrBit(x, l, i);
  }
}
