/**
 Machine words as natural numbers, and the p-code operators over them.

 A word of `n` bits is a natural number below `Pow2(n)`.  The bitwise operators are
 defined one bit at a time from the bottom, so that a proof about a loop over bits
 can follow the number itself: `x == x % 2 + 2 * (x / 2)`.
 */
module Words {

  /* ---------- operand sizes, in bits ---------- */

  const BYTE: nat := 8
  const DWORD: nat := 4 * BYTE
  const QWORD: nat := 8 * BYTE
  const OWORD: nat := 16 * BYTE
  const YWORD: nat := 32 * BYTE

  /* ---------- powers of two and single bits ---------- */

  function Pow2(n: nat): (p: nat)
    ensures p > 0
  {
    if n == 0 then 1 else 2 * Pow2(n - 1)
  }

  function BitValue(b: bool): nat {
    if b then 1 else 0
  }

  /** Bit `i` of `x`, counting from the least significant. */
  predicate Bit(x: nat, i: nat) {
    if i == 0 then x % 2 == 1 else Bit(x / 2, i - 1)
  }

  function PopCount(x: nat): nat {
    if x == 0 then 0 else x % 2 + PopCount(x / 2)
  }

  /** The number of set bits of `x` below position `i`. */
  function Rank(x: nat, i: nat): nat {
    if i == 0 then 0 else Rank(x, i - 1) + BitValue(Bit(x, i - 1))
  }

  /* ---------- bitwise operators ---------- */

  function And(x: nat, y: nat): nat {
    if x == 0 || y == 0 then 0
    else BitValue(x % 2 == 1 && y % 2 == 1) + 2 * And(x / 2, y / 2)
  }

  function Or(x: nat, y: nat): nat {
    if x == 0 && y == 0 then 0
    else BitValue(x % 2 == 1 || y % 2 == 1) + 2 * Or(x / 2, y / 2)
  }

  function Xor(x: nat, y: nat): nat {
    if x == 0 && y == 0 then 0
    else BitValue(x % 2 != y % 2) + 2 * Xor(x / 2, y / 2)
  }

  /* ---------- the p-code operators at a width of n bits ---------- */

  /** The low `k` bits of an integer in two's complement. */
  function Low(x: int, k: nat): (r: nat)
    ensures r < Pow2(k)
  {
    ModRange(x, Pow2(k));
    x % Pow2(k)
  }

  /** What is left of `x` above its low `k` bits. */
  function High(x: nat, k: nat): nat {
    DivNonNeg(x, Pow2(k));
    x / Pow2(k)
  }

  function Product(x: nat, y: nat): nat {
    x * y
  }

  function IntAdd(n: nat, x: nat, y: nat): nat {
    Low(x + y, n)
  }

  function IntSub(n: nat, x: nat, y: nat): nat {
    Low(x - y, n)
  }

  function IntNeg(n: nat, x: nat): nat {
    Low(0 - x, n)
  }

  function IntMult(n: nat, x: nat, y: nat): nat {
    Low(x * y, n)
  }

  /** A shift by the width or more gives 0. */
  function IntLeft(n: nat, x: nat, k: nat): nat {
    if k >= n then 0 else Low(x * Pow2(k), n)
  }

  function IntRight(n: nat, x: nat, k: nat): nat {
    if k >= n then 0 else High(x, k)
  }

  predicate IntSlessZero(n: nat, x: nat)
    requires n > 0
  {
    x >= Pow2(n - 1)
  }

  /* ---------- arithmetic of division, for any divisor ---------- */

  lemma ModRange(x: int, d: int)
    requires d > 0
    ensures 0 <= x % d < d
  {}

  lemma DivNonNeg(x: nat, d: int)
    requires d > 0
    ensures 0 <= x / d
  {}

  lemma DivMod(x: int, d: int)
    requires d > 0
    ensures x == (x / d) * d + x % d
  {}

  lemma MulMonotone(a: int, b: int, c: nat)
    requires a <= b
    ensures a * c <= b * c
  {}

  /** A multiple of `d` strictly between `-d` and `d` is zero. */
  lemma SmallMultiple(k: int, d: int, e: int)
    requires d > 0 && k * d == e && -d < e < d
    ensures k == 0 && e == 0
  {
    if k >= 1 {
      MulMonotone(1, k, d);
    } else if k <= -1 {
      MulMonotone(k, -1, d);
    }
  }

  /** Quotient and remainder are determined by the equation they satisfy. */
  lemma DivModUnique(x: int, d: nat, q: int, r: int)
    requires d > 0 && x == q * d + r && 0 <= r < d
    ensures x / d == q && x % d == r
  {
    DivMod(x, d);
    ModRange(x, d);
    SmallMultiple(q - x / d, d, x % d - r);
  }

  lemma DivBelow(x: nat, d: nat, b: nat)
    requires d > 0 && x < b * d
    ensures x / d < b
  {
    DivMod(x, d);
    ModRange(x, d);
    if x / d >= b {
      MulMonotone(b, x / d, d);
    }
  }

  lemma HalveThenDivide(x: int, p: nat)
    requires p > 0
    ensures x / (2 * p) == (x / 2) / p
    ensures x % (2 * p) == x % 2 + 2 * ((x / 2) % p)
  {
    var q, r := (x / 2) / p, (x / 2) % p;
    DivMod(x / 2, p);
    ModRange(x / 2, p);
    assert x == q * (2 * p) + (2 * r + x % 2);
    DivModUnique(x, 2 * p, q, 2 * r + x % 2);
  }

  lemma DivideThenHalve(x: nat, p: nat)
    requires p > 0
    ensures x / (2 * p) == (x / p) / 2
    ensures x % (2 * p) == x % p + (if (x / p) % 2 == 1 then p else 0)
  {
    var q, r := x / p, x % p;
    DivMod(x, p);
    ModRange(x, p);
    HalveFactor(q, p);
    DivModUnique(x, 2 * p, q / 2, (if q % 2 == 1 then p else 0) + r);
  }

  lemma HalveFactor(q: int, p: nat)
    ensures q * p == (q / 2) * (2 * p) + (if q % 2 == 1 then p else 0)
  {
    assert q == 2 * (q / 2) + q % 2;
  }

  lemma ScaleSum(q: nat, d: nat, r: nat, p: nat)
    ensures (q * d + r) * p == q * (d * p) + r * p
  {
    assert (q * d + r) * p == (q * d) * p + r * p;
    assert (q * d) * p == q * (d * p);
  }

  lemma ScaleBelow(r: nat, d: nat, p: nat)
    requires r < d && p > 0
    ensures 0 <= r * p < d * p
  {
    MulMonotone(r + 1, d, p);
    assert (r + 1) * p == r * p + p;
  }

  lemma BelowNext(r: nat, f: nat, d: nat, p: nat)
    requires r < p && f < d
    ensures 0 <= r + f * p < d * p
  {
    MulMonotone(f + 1, d, p);
    assert (f + 1) * p == f * p + p;
  }

  /* ---------- powers of two ---------- */

  lemma DoubleProduct(x: nat, y: nat)
    ensures (2 * x) * y == 2 * (x * y) == x * (2 * y)
  {}

  lemma Pow2Step(n: nat)
    requires n > 0
    ensures Pow2(n) == 2 * Pow2(n - 1) && Pow2(0) == 1
  {}

  lemma Pow2Add(a: nat, b: nat)
    ensures Pow2(a + b) == Pow2(a) * Pow2(b)
  {
    if a == 0 {
    } else {
      Pow2Add(a - 1, b);
      DoubleProduct(Pow2(a - 1), Pow2(b));
    }
  }

  lemma Pow2Monotone(a: nat, b: nat)
    requires a <= b
    ensures Pow2(a) <= Pow2(b)
  {
    if a == b {
    } else {
      Pow2Monotone(a, b - 1);
    }
  }

  lemma Pow2Increases(a: nat, b: nat)
    requires a < b
    ensures Pow2(a) < Pow2(b)
  {
    Pow2Monotone(a + 1, b);
  }

  lemma BelowPow2(n: nat)
    ensures n < Pow2(n)
  {
    if n == 0 {
    } else {
      BelowPow2(n - 1);
    }
  }

  lemma ByteRange()
    ensures Pow2(BYTE) == 256
  {
    assert Pow2(4) == 16;
  }

  /** A number congruent to `x` and small enough is its low part. */
  lemma LowUnique(x: int, k: nat, q: int, r: nat)
    requires x == q * Pow2(k) + r && r < Pow2(k)
    ensures Low(x, k) == r
  {
    DivModUnique(x, Pow2(k), q, r);
  }

  lemma LowSmall(x: nat, k: nat)
    requires x < Pow2(k)
    ensures Low(x, k) == x
  {
    DivModUnique(x, Pow2(k), 0, x);
  }

  /** Taking off k + 1 low bits, from the bottom or from the top of them. */
  lemma HighLowStep(x: nat, k: nat)
    ensures High(x, k + 1) == High(x / 2, k) == High(x, k) / 2
    ensures Low(x, k + 1) == x % 2 + 2 * Low(x / 2, k)
  {
    HalveThenDivide(x, Pow2(k));
    DivideThenHalve(x, Pow2(k));
  }

  lemma HighLowZero(x: nat)
    ensures High(x, 0) == x && Low(x, 0) == 0
  {
    DivModUnique(x, 1, x, 0);
  }

  lemma BitIsHigh(x: nat, i: nat)
    ensures Bit(x, i) <==> High(x, i) % 2 == 1
  {
    if i == 0 {
      HighLowZero(x);
    } else {
      BitIsHigh(x / 2, i - 1);
      HighLowStep(x, i - 1);
    }
  }

  lemma HighHigh(x: nat, a: nat, b: nat)
    ensures High(High(x, a), b) == High(x, a + b)
  {
    if b == 0 {
      HighLowZero(High(x, a));
    } else {
      HighHigh(x, a, b - 1);
      HighLowStep(High(x, a), b - 1);
      HighLowStep(x, a + b - 1);
    }
  }

  lemma HighLow(x: nat, k: nat)
    ensures x == High(x, k) * Pow2(k) + Low(x, k)
  {
    DivMod(x, Pow2(k));
  }

  lemma LowAtMost(x: nat, k: nat)
    ensures Low(x, k) <= x
  {
    HighLow(x, k);
    MulMonotone(0, High(x, k), Pow2(k));
  }

  lemma HighLowUnique(x: nat, k: nat, q: nat, r: nat)
    requires x == q * Pow2(k) + r && r < Pow2(k)
    ensures High(x, k) == q && Low(x, k) == r
  {
    DivModUnique(x, Pow2(k), q, r);
  }

  lemma HighBelow(x: nat, n: nat, k: nat)
    requires x < Pow2(n) && k <= n
    ensures High(x, k) < Pow2(n - k)
  {
    Pow2Add(n - k, k);
    DivBelow(x, Pow2(k), Pow2(n - k));
  }

  lemma HighLowPast(x: nat, n: nat, k: nat)
    requires x < Pow2(n) && n <= k
    ensures High(x, k) == 0 && Low(x, k) == x
  {
    Pow2Monotone(n, k);
    DivModUnique(x, Pow2(k), 0, x);
  }

  /** IntRight at any count is the quotient by the power of two. */
  lemma IntRightIsHigh(n: nat, x: nat, k: nat)
    requires x < Pow2(n)
    ensures IntRight(n, x, k) == High(x, k)
  {
    if k >= n { HighLowPast(x, n, k); }
  }

  /* ---------- bits determine the number ---------- */

  lemma BitOfZero(i: nat)
    ensures !Bit(0, i)
  {
    if i == 0 {
    } else {
      BitOfZero(i - 1);
    }
  }

  lemma BitBeyond(x: nat, n: nat, i: nat)
    requires x < Pow2(n) && n <= i
    ensures !Bit(x, i)
  {
    HighLowPast(x, n, i);
    BitIsHigh(x, i);
  }

  lemma {:induction false} BitExtensionality(x: nat, y: nat)
    requires forall i: nat :: Bit(x, i) == Bit(y, i)
    ensures x == y
    decreases x + y
  {
    if x == 0 && y == 0 {
    } else {
      assert Bit(x, 0) == Bit(y, 0);
      forall i: nat ensures Bit(x / 2, i) == Bit(y / 2, i) {
        assert Bit(x, i + 1) == Bit(y, i + 1);
      }
      BitExtensionality(x / 2, y / 2);
    }
  }

  lemma BitOfPow2(k: nat, i: nat)
    ensures Bit(Pow2(k), i) <==> i == k
  {
    if k == 0 {
      if i > 0 { BitOfZero(i - 1); }
    } else if i > 0 {
      assert Pow2(k) / 2 == Pow2(k - 1);
      BitOfPow2(k - 1, i - 1);
    }
  }

  lemma ConsParts(b: nat, h: nat)
    requires b < 2
    ensures (b + 2 * h) / 2 == h && (b + 2 * h) % 2 == b
  {}

  /** The bits of a number put together from a low bit and the rest. */
  lemma BitOfCons(b: bool, h: nat, i: nat)
    ensures Bit(BitValue(b) + 2 * h, i) <==> if i == 0 then b else Bit(h, i - 1)
  {
    assert (BitValue(b) + 2 * h) / 2 == h;
  }

  lemma {:induction false} BitOfAnd(x: nat, y: nat, i: nat)
    ensures Bit(And(x, y), i) <==> Bit(x, i) && Bit(y, i)
    decreases i
  {
    AndStep(x, y);
    BitOfCons(x % 2 == 1 && y % 2 == 1, And(x / 2, y / 2), i);
    if i == 0 {
    } else {
      BitOfAnd(x / 2, y / 2, i - 1);
    }
  }

  lemma {:induction false} BitOfOr(x: nat, y: nat, i: nat)
    ensures Bit(Or(x, y), i) <==> Bit(x, i) || Bit(y, i)
    decreases i
  {
    OrStep(x, y);
    BitOfCons(x % 2 == 1 || y % 2 == 1, Or(x / 2, y / 2), i);
    if i == 0 {
    } else {
      BitOfOr(x / 2, y / 2, i - 1);
    }
  }

  lemma {:induction false} BitOfXor(x: nat, y: nat, i: nat)
    ensures Bit(Xor(x, y), i) <==> Bit(x, i) != Bit(y, i)
    decreases i
  {
    XorStep(x, y);
    BitOfCons(x % 2 != y % 2, Xor(x / 2, y / 2), i);
    if i == 0 {
    } else {
      BitOfXor(x / 2, y / 2, i - 1);
    }
  }

  lemma BitOfHigh(x: nat, k: nat, i: nat)
    ensures Bit(High(x, k), i) == Bit(x, k + i)
  {
    BitIsHigh(High(x, k), i);
    BitIsHigh(x, k + i);
    HighHigh(x, k, i);
  }

  lemma {:induction false} BitOfLow(x: nat, k: nat, i: nat)
    ensures Bit(Low(x, k), i) <==> i < k && Bit(x, i)
    decreases k
  {
    if k == 0 {
      HighLowZero(x);
      BitOfZero(i);
    } else {
      HighLowStep(x, k - 1);
      var half := Low(x / 2, k - 1);
      assert (x % 2 + 2 * half) / 2 == half;
      if i > 0 {
        BitOfLow(x / 2, k - 1, i - 1);
      }
    }
  }

  lemma {:induction false} BitOfMulPow2(x: nat, k: nat, i: nat)
    ensures Bit(x * Pow2(k), i) <==> i >= k && Bit(x, i - k)
    decreases k
  {
    if k == 0 {
    } else {
      MulPow2Step(x, k);
      if i > 0 { BitOfMulPow2(x, k - 1, i - 1); }
    }
  }

  /* ---------- the bitwise operators as arithmetic ---------- */

  lemma AndStep(x: nat, y: nat)
    ensures And(x, y) == BitValue(x % 2 == 1 && y % 2 == 1) + 2 * And(x / 2, y / 2)
  {}

  lemma OrStep(x: nat, y: nat)
    ensures Or(x, y) == BitValue(x % 2 == 1 || y % 2 == 1) + 2 * Or(x / 2, y / 2)
  {}

  lemma XorStep(x: nat, y: nat)
    ensures Xor(x, y) == BitValue(x % 2 != y % 2) + 2 * Xor(x / 2, y / 2)
  {}

  /** Masking with a single bit keeps exactly that bit. */
  lemma {:induction false} AndPow2(x: nat, k: nat)
    ensures And(x, Pow2(k)) == (if Bit(x, k) then Pow2(k) else 0)
    decreases k
  {
    AndStep(x, Pow2(k));
    if k == 0 {
    } else {
      assert Pow2(k) / 2 == Pow2(k - 1);
      AndPow2(x / 2, k - 1);
    }
  }

  lemma {:induction false} AndCommutes(x: nat, y: nat)
    ensures And(x, y) == And(y, x)
    decreases x
  {
    if x == 0 || y == 0 {
    } else {
      AndCommutes(x / 2, y / 2);
    }
  }

  lemma AndOne(x: nat)
    ensures And(x, 1) == x % 2
  {
    AndPow2(x, 0);
  }

  lemma AndOnesStep(x: nat, ones: nat)
    ensures And(x, 2 * ones + 1) == x % 2 + 2 * And(x / 2, ones)
  {
    ConsParts(1, ones);
    AndStep(x, 2 * ones + 1);
  }

  lemma AndZero(x: nat)
    ensures And(x, 0) == 0
  {}

  /** Masking with k ones keeps the low k bits. */
  lemma {:induction false} AndLowMask(x: nat, k: nat)
    ensures And(x, Pow2(k) - 1) == Low(x, k)
    decreases k
  {
    hide And, Low;
    if k == 0 {
      HighLowZero(x);
      AndZero(x);
    } else {
      AndOnesStep(x, Pow2(k - 1) - 1);
      AndLowMask(x / 2, k - 1);
      HighLowStep(x, k - 1);
    }
  }

  /** An OR of words with no common position is their sum. */
  lemma {:induction false} OrDisjoint(lo: nat, hi: nat, k: nat)
    requires lo < Pow2(k)
    ensures Or(lo, hi * Pow2(k)) == lo + hi * Pow2(k)
    decreases k
  {
    if k == 0 {
      assert hi * Pow2(0) == hi;
      OrZero(hi);
    } else {
      MulPow2Step(hi, k);
      OrDisjoint(lo / 2, hi, k - 1);
      OrStep(lo, hi * Pow2(k));
    }
  }

  /** Setting a bit above all others adds its weight. */
  lemma BitOfTop(lo: nat, k: nat, i: nat)
    requires lo < Pow2(k)
    ensures Or(lo, Pow2(k)) == lo + Pow2(k)
    ensures Bit(lo + Pow2(k), i) <==> i == k || Bit(lo, i)
  {
    OrDisjoint(lo, 1, k);
    BitOfOr(lo, Pow2(k), i);
    BitOfPow2(k, i);
  }

  lemma OrZero(x: nat)
    ensures Or(0, x) == x == Or(x, 0)
  {
    if x == 0 {
    } else {
      OrZero(x / 2);
    }
  }

  lemma XorZero(x: nat)
    ensures Xor(0, x) == x == Xor(x, 0)
  {
    if x == 0 {
    } else {
      XorZero(x / 2);
    }
  }

  lemma XorSelf(x: nat)
    ensures Xor(x, x) == 0
  {
    if x == 0 {
    } else {
      XorSelf(x / 2);
    }
  }

  lemma XorCommutes(x: nat, y: nat)
    ensures Xor(x, y) == Xor(y, x)
  {
    if x == 0 && y == 0 {
    } else {
      XorCommutes(x / 2, y / 2);
    }
  }

  lemma {:induction false} XorAssociates(x: nat, y: nat, z: nat)
    ensures Xor(Xor(x, y), z) == Xor(x, Xor(y, z))
  {
    forall i: nat ensures Bit(Xor(Xor(x, y), z), i) == Bit(Xor(x, Xor(y, z)), i) {
      BitOfXor(x, y, i);
      BitOfXor(y, z, i);
      BitOfXor(Xor(x, y), z, i);
      BitOfXor(x, Xor(y, z), i);
    }
    BitExtensionality(Xor(Xor(x, y), z), Xor(x, Xor(y, z)));
  }

  lemma XorDouble(x: nat, y: nat)
    ensures Xor(2 * x, 2 * y) == 2 * Xor(x, y)
  {
    XorStep(2 * x, 2 * y);
  }

  lemma {:induction false} XorMulPow2(x: nat, y: nat, k: nat)
    ensures Xor(x * Pow2(k), y * Pow2(k)) == Xor(x, y) * Pow2(k)
    decreases k
  {
    if k == 0 {
    } else {
      MulPow2Step(x, k);
      MulPow2Step(y, k);
      MulPow2Step(Xor(x, y), k);
      XorDouble(x * Pow2(k - 1), y * Pow2(k - 1));
      XorMulPow2(x, y, k - 1);
    }
  }

  lemma MulPow2Step(x: nat, k: nat)
    requires k > 0
    ensures x * Pow2(k) == 2 * (x * Pow2(k - 1))
  {
    DoubleProduct(x, Pow2(k - 1));
  }

  lemma {:induction false} XorBelow(x: nat, y: nat, n: nat)
    requires x < Pow2(n) && y < Pow2(n)
    ensures Xor(x, y) < Pow2(n)
    decreases n
  {
    if n == 0 {
    } else {
      XorBelow(x / 2, y / 2, n - 1);
      XorStep(x, y);
    }
  }

  lemma {:induction false} AndBelow(x: nat, y: nat)
    ensures And(x, y) <= x && And(x, y) <= y
    decreases x
  {
    if x == 0 || y == 0 {
    } else {
      AndBelow(x / 2, y / 2);
    }
  }

  lemma PopCountBelow(x: nat, n: nat)
    requires x < Pow2(n)
    ensures PopCount(x) <= n
    decreases n
  {
    if n == 0 || x == 0 {
    } else {
      PopCountBelow(x / 2, n - 1);
    }
  }

  /* ---------- bit lengths ---------- */

  /** The number of bits needed to write `x`. */
  function BitLength(x: nat): nat {
    if x == 0 then 0 else 1 + BitLength(x / 2)
  }

  lemma {:induction false} BitLengthRange(x: nat, n: nat)
    ensures BitLength(x) <= n <==> x < Pow2(n)
    decreases n
  {
    if n == 0 || x == 0 {
    } else {
      BitLengthRange(x / 2, n - 1);
    }
  }
}
