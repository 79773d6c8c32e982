/**
 Carry-less multiplication: the row-by-row loop of the `pclmul` macro, the column
 sums of the Intel manual (Volume 2, chapter 4, PCLMULQDQ "Operation"), and the
 algebra of polynomials over GF(2).
 */
module Clmul {
  import opened Words

  /** Multiplication of polynomials over GF(2), coefficients as bits. */
  function ClMul(a: nat, b: nat): nat
    decreases a
  {
    if a == 0 then 0 else Xor(if a % 2 == 1 then b else 0, 2 * ClMul(a / 2, b))
  }

  /* ---------- the macro's loop ---------- */

  method PclmulLoop(src1: nat, src2: nat) returns (dest: nat)
    requires src1 < Pow2(QWORD) && src2 < Pow2(QWORD)
    ensures dest == ClMul(src1, src2)
  {
    var i := 0;
    var temp := 0;
    HighLowZero(src1);
    while i <= QWORD - 1
      invariant i <= QWORD
      invariant temp == ClMul(Low(src1, i), src2)
    {
      OneRow(src1, src2, i);
      if And(src1, IntLeft(OWORD, 1, i)) != 0 {
        temp := Xor(temp, IntLeft(OWORD, src2, i));
      }
      i := IntAdd(DWORD, i, 1);
    }
    HighLowPast(src1, QWORD, QWORD);
    dest := temp;
  }

  lemma OneRow(src1: nat, src2: nat, i: nat)
    requires src2 < Pow2(QWORD) && i < QWORD
    ensures IntAdd(DWORD, i, 1) == i + 1
    ensures And(src1, IntLeft(OWORD, 1, i)) != 0 <==> Bit(src1, i)
    ensures ClMul(Low(src1, i + 1), src2) ==
            if Bit(src1, i) then Xor(ClMul(Low(src1, i), src2), IntLeft(OWORD, src2, i))
            else ClMul(Low(src1, i), src2)
  {
    SmallCounter(i);
    NoBitLost(1, OWORD, 1, i);
    NoBitLost(QWORD, OWORD, src2, i);
    AndPow2(src1, i);
    RowStep(src1, src2, i);
    XorZero(ClMul(Low(src1, i), src2));
  }

  lemma SmallCounter(i: nat)
    requires i < QWORD
    ensures IntAdd(DWORD, i, 1) == i + 1
  {
    hide Low;
    Pow2Monotone(BYTE, DWORD);
    ByteRange();
    LowSmall(i + 1, DWORD);
  }

  /** No bit of an n-bit operand is shifted out of a row of n + i bits or more. */
  lemma NoBitLost(n: nat, wide: nat, x: nat, i: nat)
    requires x < Pow2(n) && n > 0 && n + i <= wide
    ensures IntLeft(wide, x, i) == x * Pow2(i)
  {
    Pow2Add(n, i);
    ScaleBelow(x, Pow2(n), Pow2(i));
    Pow2Monotone(n + i, wide);
    LowSmall(x * Pow2(i), wide);
  }

  lemma ClMulCons(d: nat, h: nat, b: nat)
    requires d < 2
    ensures ClMul(d + 2 * h, b) == Xor(if d == 1 then b else 0, 2 * ClMul(h, b))
  {
    ConsParts(d, h);
  }

  lemma PushRow(r: nat, u: nat, v: nat)
    ensures Xor(r, 2 * Xor(u, v)) == Xor(Xor(r, 2 * u), 2 * v)
  {
    XorDouble(u, v);
    XorAssociates(r, 2 * u, 2 * v);
  }

  /** What round `i` of the loop adds. */
  function Row(a: nat, b: nat, i: nat): nat {
    if Bit(a, i) then b * Pow2(i) else 0
  }

  lemma RowHalve(a: nat, b: nat, i: nat)
    requires i > 0
    ensures Row(a, b, i) == 2 * Row(a / 2, b, i - 1)
  {
    MulPow2Step(b, i);
  }

  lemma FirstRow(a: nat, b: nat)
    ensures ClMul(Low(a, 1), b) == Xor(ClMul(Low(a, 0), b), Row(a, b, 0))
  {
    HighLowStep(a, 0);
    HighLowZero(a);
    HighLowZero(a / 2);
    XorZero(b);
  }

  /** Looking at one more bit of the first operand adds one shifted row. */
  lemma {:induction false} RowStep(a: nat, b: nat, i: nat)
    ensures ClMul(Low(a, i + 1), b) == Xor(ClMul(Low(a, i), b), Row(a, b, i))
    decreases i
  {
    if i == 0 {
      FirstRow(a, b);
    } else {
      LowCons(a, b, i);
      LowCons(a, b, i - 1);
      RowStep(a / 2, b, i - 1);
      RowHalve(a, b, i);
      PushRow(if a % 2 == 1 then b else 0, ClMul(Low(a / 2, i - 1), b), Row(a / 2, b, i - 1));
    }
  }

  lemma LowCons(a: nat, b: nat, i: nat)
    ensures ClMul(Low(a, i + 1), b) == Xor(if a % 2 == 1 then b else 0, 2 * ClMul(Low(a / 2, i), b))
  {
    HighLowStep(a, i);
    ClMulCons(a % 2, Low(a / 2, i), b);
  }

  /* ---------- the manual's columns ---------- */

  /** The XOR of a[j] & b[k - j] over lo <= j < hi. */
  predicate Column(a: nat, b: nat, k: nat, lo: nat, hi: nat)
    requires hi <= k + 1
    decreases hi - lo
  {
    lo < hi && (Bit(a, lo) && Bit(b, k - lo)) != Column(a, b, k, lo + 1, hi)
  }

  /** Bit k of DEST in the manual: columns up to 63 start at j = 0, later ones at
      j = k - 63 and end at j = 63; column 127 is empty. */
  predicate ManualColumn(a: nat, b: nat, k: nat) {
    if k < QWORD then Column(a, b, k, 0, k + 1)
    else k < OWORD && Column(a, b, k, k - (QWORD - 1), QWORD)
  }

  lemma {:induction false} ColumnShift(a: nat, b: nat, k: nat, lo: nat, hi: nat)
    requires k > 0 && hi <= k
    ensures Column(a, b, k, lo + 1, hi + 1) == Column(a / 2, b, k - 1, lo, hi)
    decreases hi - lo
  {
    if lo >= hi {
    } else {
      ColumnShift(a, b, k, lo + 1, hi);
    }
  }

  lemma {:induction false} BitOfClMul(a: nat, b: nat, k: nat)
    ensures Bit(ClMul(a, b), k) <==> Column(a, b, k, 0, k + 1)
    decreases k
  {
    hide Xor, ClMul;
    var r := if a % 2 == 1 then b else 0;
    var rest := ClMul(a / 2, b);
    ClMulCons(a % 2, a / 2, b);
    BitOfXor(r, 2 * rest, k);
    BitOfZero(k);
    BitOfCons(false, rest, k);
    if k == 0 {
    } else {
      ColumnShift(a, b, k, 0, k);
      BitOfClMul(a / 2, b, k - 1);
    }
  }

  lemma {:induction false} ColumnSplit(a: nat, b: nat, k: nat, lo: nat, mid: nat, hi: nat)
    requires lo <= mid <= hi <= k + 1
    ensures Column(a, b, k, lo, hi) == (Column(a, b, k, lo, mid) != Column(a, b, k, mid, hi))
    decreases mid - lo
  {
    if lo >= mid {
    } else {
      ColumnSplit(a, b, k, lo + 1, mid, hi);
    }
  }

  lemma {:induction false} EmptyColumn(a: nat, b: nat, k: nat, lo: nat, hi: nat)
    requires hi <= k + 1
    requires forall j: nat :: lo <= j < hi ==> !(Bit(a, j) && Bit(b, k - j))
    ensures !Column(a, b, k, lo, hi)
    decreases hi - lo
  {
    if lo >= hi {
    } else {
      EmptyColumn(a, b, k, lo + 1, hi);
    }
  }

  /** Bit by bit, the product is the column sums the manual prescribes. */
  lemma ClMulIsManual(a: nat, b: nat, k: nat)
    requires a < Pow2(QWORD) && b < Pow2(QWORD)
    ensures Bit(ClMul(a, b), k) <==> ManualColumn(a, b, k)
  {
    BitOfClMul(a, b, k);
    if k >= QWORD {
      var lo := k - (QWORD - 1);
      forall j: nat | QWORD <= j < k + 1 ensures !(Bit(a, j) && Bit(b, k - j)) {
        BitBeyond(a, QWORD, j);
      }
      forall j: nat | 0 <= j < lo && j < k + 1 ensures !(Bit(a, j) && Bit(b, k - j)) {
        BitBeyond(b, QWORD, k - j);
      }
      EmptyColumn(a, b, k, QWORD, k + 1);
      ColumnSplit(a, b, k, 0, QWORD, k + 1);
      if k < OWORD - 1 {
        EmptyColumn(a, b, k, 0, lo);
        ColumnSplit(a, b, k, 0, lo, QWORD);
      } else {
        EmptyColumn(a, b, k, 0, QWORD);
      }
    }
  }

  /* ---------- polynomial algebra ---------- */

  lemma XorExchange(a: nat, b: nat, c: nat, d: nat)
    ensures Xor(Xor(a, b), Xor(c, d)) == Xor(Xor(a, c), Xor(b, d))
  {
    XorAssociates(a, b, Xor(c, d));
    XorAssociates(b, c, d);
    XorCommutes(b, c);
    XorAssociates(c, b, d);
    XorAssociates(a, c, Xor(b, d));
  }

  lemma RowChoice(p: bool, q: bool, b: nat)
    ensures Xor(if p then b else 0, if q then b else 0) == if p != q then b else 0
  {
    XorSelf(b);
    XorZero(b);
  }

  lemma AddRows(r: nat, s: nat, u: nat, v: nat)
    ensures Xor(Xor(r, s), 2 * Xor(u, v)) == Xor(Xor(r, 2 * u), Xor(s, 2 * v))
  {
    XorDouble(u, v);
    XorExchange(r, s, 2 * u, 2 * v);
  }

  lemma {:induction false} ClMulDistributes(a: nat, c: nat, b: nat)
    ensures ClMul(Xor(a, c), b) == Xor(ClMul(a, b), ClMul(c, b))
    decreases a + c
  {
    hide Xor;
    if a == 0 && c == 0 {
      XorZero(0);
    } else {
      var p, q := a % 2 == 1, c % 2 == 1;
      XorStep(a, c);
      ClMulCons(BitValue(p != q), Xor(a / 2, c / 2), b);
      ClMulCons(a % 2, a / 2, b);
      ClMulCons(c % 2, c / 2, b);
      ClMulDistributes(a / 2, c / 2, b);
      RowChoice(p, q, b);
      AddRows(if p then b else 0, if q then b else 0, ClMul(a / 2, b), ClMul(c / 2, b));
    }
  }

  lemma {:induction false} ClMulConsRight(a: nat, d: nat, h: nat)
    requires d < 2
    ensures ClMul(a, d + 2 * h) == Xor(if d == 1 then a else 0, 2 * ClMul(a, h))
    decreases a
  {
    if a == 0 {
    } else {
      ClMulConsRight(a / 2, d, h);
      LowAndHighRows(a, d, h);
      SwapRows(BitValue(a % 2 == 1 && d == 1), if a % 2 == 1 then h else 0,
               if d == 1 then a / 2 else 0, 2 * ClMul(a / 2, h));
    }
  }

  lemma SwapRows(e: nat, r: nat, t: nat, m: nat)
    ensures Xor(Xor(e, 2 * r), 2 * Xor(t, m)) == Xor(Xor(e, 2 * t), 2 * Xor(r, m))
  {
    XorDouble(t, m);
    XorDouble(r, m);
    XorExchange(e, 2 * r, 2 * t, 2 * m);
  }

  lemma LowAndHighRows(a: nat, d: nat, h: nat)
    requires d < 2
    ensures (if a % 2 == 1 then d + 2 * h else 0)
         == Xor(BitValue(a % 2 == 1 && d == 1), 2 * (if a % 2 == 1 then h else 0))
    ensures (if d == 1 then a else 0)
         == Xor(BitValue(a % 2 == 1 && d == 1), 2 * (if d == 1 then a / 2 else 0))
  {
    XorLowBit(BitValue(a % 2 == 1 && d == 1), if a % 2 == 1 then h else 0);
    XorLowBit(BitValue(a % 2 == 1 && d == 1), if d == 1 then a / 2 else 0);
  }

  lemma XorLowBit(d: nat, h: nat)
    requires d < 2
    ensures Xor(d, 2 * h) == d + 2 * h
  {
    hide Xor;
    XorStep(d, 2 * h);
    XorZero(h);
  }

  /** The loop treats its operands differently; the product does not. */
  lemma {:induction false} ClMulCommutes(a: nat, b: nat)
    ensures ClMul(a, b) == ClMul(b, a)
    decreases a
  {
    ClMulConsRight(b, a % 2, a / 2);
    if a == 0 {
      ClMulZero(b);
    } else {
      ClMulCommutes(a / 2, b);
    }
  }

  lemma ClMulZero(a: nat)
    ensures ClMul(a, 0) == 0
  {
    if a == 0 {
    } else {
      ClMulZero(a / 2);
    }
  }

  lemma {:induction false} ClMulAssociates(a: nat, b: nat, c: nat)
    ensures ClMul(ClMul(a, b), c) == ClMul(a, ClMul(b, c))
    decreases a
  {
    hide Xor;
    if a == 0 {
    } else {
      var u := ClMul(a / 2, b);
      ClMulAssociates(a / 2, b, c);
      ClMulDistributes(if a % 2 == 1 then b else 0, 2 * u, c);
      ClMulCons(0, u, c);
      XorZero(2 * ClMul(u, c));
    }
  }

  /* ---------- degrees ---------- */

  lemma {:induction false} BitLengthOfXor(x: nat, y: nat)
    requires BitLength(x) < BitLength(y)
    ensures BitLength(Xor(x, y)) == BitLength(y)
    decreases y
  {
    XorStep(x, y);
    if y / 2 == 0 {
    } else {
      BitLengthOfXor(x / 2, y / 2);
      ConsParts(BitValue(x % 2 != y % 2), Xor(x / 2, y / 2));
    }
  }

  /** Degrees add: the product of nonzero polynomials has no cancellation at the top. */
  lemma {:induction false} ClMulDegree(a: nat, b: nat)
    requires a > 0 && b > 0
    ensures ClMul(a, b) > 0
    ensures BitLength(ClMul(a, b)) == BitLength(a) + BitLength(b) - 1
    decreases a
  {
    if a == 1 {
      XorZero(b);
    } else {
      var rest := ClMul(a / 2, b);
      ClMulDegree(a / 2, b);
      ConsParts(0, rest);
      BitLengthOfXor(if a % 2 == 1 then b else 0, 2 * rest);
    }
  }

  /** The product of 64-bit operands fits below bit 127. */
  lemma ClMulBelow(a: nat, b: nat)
    requires a < Pow2(QWORD) && b < Pow2(QWORD)
    ensures ClMul(a, b) < Pow2(OWORD - 1)
  {
    if a == 0 || b == 0 {
      ClMulZero(a);
    } else {
      ClMulDegree(a, b);
      BitLengthRange(a, QWORD);
      BitLengthRange(b, QWORD);
      BitLengthRange(ClMul(a, b), OWORD - 1);
    }
  }

  /** Multiplication by a nonzero polynomial can be undone. */
  lemma ClMulCancels(a: nat, b: nat, c: nat)
    requires a > 0 && ClMul(a, b) == ClMul(a, c)
    ensures b == c
  {
    ClMulCommutes(a, b);
    ClMulCommutes(a, c);
    ClMulDistributes(b, c, a);
    XorSelf(ClMul(b, a));
    if Xor(b, c) != 0 {
      ClMulDegree(Xor(b, c), a);
    }
    XorAssociates(b, c, c);
    XorSelf(c);
    XorZero(b);
    XorZero(c);
  }

  /* ---------- products of halves ---------- */

  lemma {:induction false} ClMulShift(a: nat, b: nat, k: nat)
    ensures ClMul(a * Pow2(k), b) == ClMul(a, b) * Pow2(k)
    decreases k
  {
    hide Xor, ClMul;
    if k == 0 {
    } else {
      MulPow2Step(a, k);
      MulPow2Step(ClMul(a, b), k);
      ClMulCons(0, a * Pow2(k - 1), b);
      XorZero(2 * ClMul(a * Pow2(k - 1), b));
      ClMulShift(a, b, k - 1);
    }
  }

  lemma XorOfHalves(x: nat, k: nat)
    ensures x == Xor(Low(x, k), High(x, k) * Pow2(k))
  {
    HighLow(x, k);
    XorDisjoint(Low(x, k), High(x, k), k);
  }

  lemma {:induction false} XorDisjoint(lo: nat, hi: nat, k: nat)
    requires lo < Pow2(k)
    ensures Xor(lo, hi * Pow2(k)) == lo + hi * Pow2(k)
    decreases k
  {
    hide Xor;
    if k == 0 {
      XorZero(hi);
    } else {
      MulPow2Step(hi, k);
      XorDisjoint(lo / 2, hi, k - 1);
      XorStep(lo, hi * Pow2(k));
    }
  }

  /** Four products of halves put together at their weights. */
  function FourParts(ll: nat, lh: nat, hl: nat, hh: nat, k: nat): nat {
    Xor(Xor(ll, lh * Pow2(k)), Xor(hl, hh * Pow2(k)) * Pow2(k))
  }

  lemma PartsJoin(low: nat, high: nat, ll: nat, lh: nat, hl: nat, hh: nat, k: nat)
    requires low == Xor(ll, lh * Pow2(k)) && high == Xor(hl, hh * Pow2(k))
    ensures Xor(low, high * Pow2(k)) == FourParts(ll, lh, hl, hh, k)
  {
    hide Pow2, Xor;
  }

  /** The four products of halves, at their weights, make the whole product. */
  lemma ClMulOfHalves(x: nat, y: nat, k: nat)
    ensures var (x0, x1, y0, y1) := (Low(x, k), High(x, k), Low(y, k), High(y, k));
            ClMul(x, y) == FourParts(ClMul(x0, y0), ClMul(x0, y1), ClMul(x1, y0), ClMul(x1, y1), k)
  {
    hide Low, High, Pow2, ClMul, Xor, FourParts;
    var (x0, x1, y0, y1) := (Low(x, k), High(x, k), Low(y, k), High(y, k));
    ClMulLeftHalves(x, y, k);
    ClMulRightHalves(x0, y, k);
    ClMulRightHalves(x1, y, k);
    PartsJoin(ClMul(x0, y), ClMul(x1, y), ClMul(x0, y0), ClMul(x0, y1), ClMul(x1, y0), ClMul(x1, y1), k);
  }

  lemma ClMulLeftHalves(x: nat, y: nat, k: nat)
    ensures ClMul(x, y) == Xor(ClMul(Low(x, k), y), ClMul(High(x, k), y) * Pow2(k))
  {
    hide Low, High, Pow2, ClMul, Xor;
    XorOfHalves(x, k);
    ClMulDistributes(Low(x, k), High(x, k) * Pow2(k), y);
    ClMulShift(High(x, k), y, k);
  }

  lemma ClMulRightHalves(x: nat, y: nat, k: nat)
    ensures ClMul(x, y) == Xor(ClMul(x, Low(y, k)), ClMul(x, High(y, k)) * Pow2(k))
  {
    hide Low, High, Pow2, ClMul, Xor;
    XorOfHalves(y, k);
    RightDistributes(x, Low(y, k), High(y, k) * Pow2(k));
    ClMulShiftRight(x, High(y, k), k);
  }

  lemma ClMulShiftRight(a: nat, b: nat, k: nat)
    ensures ClMul(a, b * Pow2(k)) == ClMul(a, b) * Pow2(k)
  {
    hide Pow2, ClMul;
    ClMulCommutes(a, b * Pow2(k));
    ClMulShift(b, a, k);
    ClMulCommutes(a, b);
  }

  /** Karatsuba: the two middle products from one more product of half sums. */
  lemma Karatsuba(x0: nat, x1: nat, y0: nat, y1: nat)
    ensures Xor(ClMul(x0, y1), ClMul(x1, y0)) ==
            Xor(ClMul(Xor(x0, x1), Xor(y0, y1)), Xor(ClMul(x0, y0), ClMul(x1, y1)))
  {
    var ll, lh, hl, hh := ClMul(x0, y0), ClMul(x0, y1), ClMul(x1, y0), ClMul(x1, y1);
    ClMulDistributes(x0, x1, Xor(y0, y1));
    RightDistributes(x0, y0, y1);
    RightDistributes(x1, y0, y1);
    XorCommutes(hl, hh);
    XorExchange(ll, lh, hh, hl);
    XorCommutes(Xor(ll, hh), Xor(lh, hl));
    XorAssociates(Xor(lh, hl), Xor(ll, hh), Xor(ll, hh));
    XorSelf(Xor(ll, hh));
    XorZero(Xor(lh, hl));
  }

  lemma RightDistributes(a: nat, b: nat, c: nat)
    ensures ClMul(a, Xor(b, c)) == Xor(ClMul(a, b), ClMul(a, c))
  {
    ClMulCommutes(a, Xor(b, c));
    ClMulDistributes(b, c, a);
    ClMulCommutes(a, b);
    ClMulCommutes(a, c);
  }
}
