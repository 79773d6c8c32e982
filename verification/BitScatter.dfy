/**
 PDEP and PEXT: scattering the low bits of a word to the positions of a mask, and
 gathering the bits at those positions back.

 Three forms of each operation are related here: the loop of the instruction, the
 index-based loop of the Intel manual (Volume 2, chapter 4, "Operation"), and a
 recursion over the mask from which the algebra of the two is proved.
 */
module BitScatter {
  import opened Words

  /* ---------- the manual's loops ---------- */

  /** DEST after the manual's PDEP loop has visited the mask positions below `i`;
      its counter k is then Rank(mask, i). */
  function ManualDeposit(source: nat, mask: nat, i: nat): nat {
    if i == 0 then 0
    else
      ManualDeposit(source, mask, i - 1) +
      (if Bit(mask, i - 1) && Bit(source, Rank(mask, i - 1)) then Pow2(i - 1) else 0)
  }

  /** DEST after the manual's PEXT loop has visited the mask positions below `i`. */
  function ManualExtract(source: nat, mask: nat, i: nat): nat {
    if i == 0 then 0
    else
      ManualExtract(source, mask, i - 1) +
      (if Bit(mask, i - 1) && Bit(source, i - 1) then Pow2(Rank(mask, i - 1)) else 0)
  }

  /* ---------- recursion over the mask ---------- */

  function Deposit(source: nat, mask: nat): nat
    decreases mask
  {
    if mask == 0 then 0
    else if mask % 2 == 1 then source % 2 + 2 * Deposit(source / 2, mask / 2)
    else 2 * Deposit(source, mask / 2)
  }

  function Extract(source: nat, mask: nat): nat
    decreases mask
  {
    if mask == 0 then 0
    else if mask % 2 == 1 then source % 2 + 2 * Extract(source / 2, mask / 2)
    else Extract(source / 2, mask / 2)
  }

  /* ---------- the instruction loops ---------- */

  /** The body of PDEP at a width of `n` bits: the index bit walks up until it is
      shifted out, and the source is consumed from the bottom. */
  method PdepLoop(n: nat, vexVVVV: nat, rm: nat) returns (resultTmp: nat)
    requires n > 0 && vexVVVV < Pow2(n) && rm < Pow2(n)
    ensures resultTmp == ManualDeposit(vexVVVV, rm, n)
  {
    var sourceTmp := vexVVVV;
    var indexTmp := 1;
    resultTmp := 0;
    ghost var i := 0;
    HighLowZero(vexVVVV);
    while true
      invariant i < n && indexTmp == Pow2(i)
      invariant sourceTmp == High(vexVVVV, Rank(rm, i)) && sourceTmp < Pow2(n)
      invariant resultTmp == ManualDeposit(vexVVVV, rm, i) < Pow2(i)
      decreases n - i
    {
      var maskBit := And(rm, indexTmp);
      AndPow2(rm, i);
      if maskBit != 0 {
        DepositStep(n, vexVVVV, Rank(rm, i), resultTmp, i);
        resultTmp := Or(resultTmp, IntMult(n, maskBit, And(sourceTmp, 1)));
        sourceTmp := IntRight(n, sourceTmp, 1);
      }
      ShiftIndexUp(n, i);
      indexTmp := IntLeft(n, indexTmp, 1);
      i := i + 1;
      if indexTmp == 0 { break; }
    }
  }

  /** The body of PEXT at a width of `n` bits: the index bit walks down from the
      top, and the result is shifted up once per mask bit. */
  method PextLoop(n: nat, vexVVVV: nat, rm: nat) returns (resultTmp: nat)
    requires n > 0 && vexVVVV < Pow2(n) && rm < Pow2(n)
    ensures resultTmp == ManualExtract(vexVVVV, rm, n)
  {
    hide High, Or, And, IntLeft, IntRight, Pow2;
    var indexTmp := Pow2(n - 1);
    resultTmp := 0;
    ghost var j := n;
    HighLowPast(rm, n, n);
    while true
      invariant 0 < j <= n && indexTmp == Pow2(j - 1)
      invariant resultTmp == Extract(High(vexVVVV, j), High(rm, j))
      decreases j
    {
      var maskBit := And(rm, indexTmp);
      AndPow2(rm, j - 1);
      ExtractStep(n, vexVVVV, rm, j - 1);
      if maskBit != 0 {
        AndCommutes(maskBit, vexVVVV);
        AndPow2(vexVVVV, j - 1);
        resultTmp := Or(IntLeft(n, resultTmp, 1), BitValue(And(maskBit, vexVVVV) != 0));
      }
      ShiftIndexDown(n, j - 1);
      indexTmp := IntRight(n, indexTmp, 1);
      j := j - 1;
      if indexTmp == 0 { break; }
    }
    HighLowZero(vexVVVV);
    HighLowZero(rm);
    ExtractIsManual(vexVVVV, rm, n);
  }

  lemma ShiftIndexUp(n: nat, i: nat)
    requires i < n
    ensures IntLeft(n, Pow2(i), 1) == if i + 1 < n then Pow2(i + 1) else 0
  {
    assert Pow2(1) == 2;
    if i + 1 < n {
      Pow2Monotone(i + 2, n);
      LowSmall(Pow2(i + 1), n);
    } else if n > 1 {
      LowUnique(Pow2(n), n, 1, 0);
    }
  }

  lemma ShiftIndexDown(n: nat, j: nat)
    requires j < n
    ensures IntRight(n, Pow2(j), 1) == if j > 0 then Pow2(j - 1) else 0
  {
    assert Pow2(1) == 2;
  }

  /** The mask bit times the lowest source bit is the mask bit or nothing. */
  lemma MaskBitTimesLowBit(n: nat, source: nat, k: nat, i: nat)
    requires i < n
    ensures IntMult(n, Pow2(i), And(High(source, k), 1)) == if Bit(source, k) then Pow2(i) else 0
  {
    AndOne(High(source, k));
    BitIsHigh(source, k);
    Pow2Monotone(i + 1, n);
    LowSmall(Pow2(i), n);
    LowSmall(0, n);
  }

  lemma DepositStep(n: nat, source: nat, k: nat, result: nat, i: nat)
    requires i < n && source < Pow2(n) && result < Pow2(i)
    ensures Or(result, IntMult(n, Pow2(i), And(High(source, k), 1)))
         == result + (if Bit(source, k) then Pow2(i) else 0)
    ensures IntRight(n, High(source, k), 1) == High(source, k + 1) < Pow2(n)
  {
    MaskBitTimesLowBit(n, source, k, i);
    BitOfTop(result, i, 0);
    OrZero(result);
    HighHalve(n, source, k);
  }

  lemma HighHalve(n: nat, x: nat, k: nat)
    requires n > 0 && x < Pow2(n)
    ensures IntRight(n, High(x, k), 1) == High(x, k + 1) <= High(x, k) < Pow2(n)
  {
    if k <= n {
      HighBelow(x, n, k);
      Pow2Monotone(n - k, n);
    } else {
      HighLowPast(x, n, k);
    }
    HighLowStep(x, k);
    assert Pow2(1) == 2;
    IntRightIsHigh(n, High(x, k), 1);
  }

  lemma ExtractStep(n: nat, source: nat, mask: nat, j: nat)
    requires j < n && mask < Pow2(n)
    ensures var r := Extract(High(source, j + 1), High(mask, j + 1));
            Extract(High(source, j), High(mask, j)) ==
            if Bit(mask, j) then Or(IntLeft(n, r, 1), BitValue(Bit(source, j))) else r
  {
    HighLowStep(source, j);
    HighLowStep(mask, j);
    BitIsHigh(source, j);
    BitIsHigh(mask, j);
    var m := High(mask, j + 1);
    var r := Extract(High(source, j + 1), m);
    HighBelow(mask, n, j + 1);
    PopCountBelow(m, n - j - 1);
    ExtractBelow(High(source, j + 1), m);
    Pow2Monotone(PopCount(m), n - j - 1);
    Pow2Monotone(n - j - 1, n - 1);
    ShiftInBit(n, r, Bit(source, j));
  }

  lemma ShiftInBit(n: nat, r: nat, b: bool)
    requires n > 0 && r < Pow2(n - 1)
    ensures Or(IntLeft(n, r, 1), BitValue(b)) == 2 * r + BitValue(b)
  {
    hide Or, Low;
    assert Pow2(1) == 2;
    LowSmall(2 * r, n);
    OrStep(2 * r, BitValue(b));
    OrZero(r);
  }

  /* ---------- what the operations are, bit by bit ---------- */

  lemma RankStep(mask: nat, i: nat)
    requires i > 0
    ensures Rank(mask, i) == mask % 2 + Rank(mask / 2, i - 1)
  {
    if i <= 1 {
    } else {
      RankStep(mask, i - 1);
    }
  }

  /** The population count counts the set bits, position by position. */
  lemma {:induction false} PopCountIsRank(x: nat, k: nat)
    ensures PopCount(Low(x, k)) == Rank(x, k)
    decreases k
  {
    hide Low;
    if k == 0 {
      HighLowZero(x);
    } else {
      HighLowStep(x, k - 1);
      PopCountIsRank(x / 2, k - 1);
      RankStep(x, k);
      ConsParts(x % 2, Low(x / 2, k - 1));
    }
  }

  lemma {:induction false} BitOfDeposit(source: nat, mask: nat, j: nat)
    ensures Bit(Deposit(source, mask), j) <==> Bit(mask, j) && Bit(source, Rank(mask, j))
    decreases mask
  {
    if mask == 0 {
      BitOfZero(j);
    } else {
      if j > 0 { RankStep(mask, j); }
      if mask % 2 == 1 {
        BitOfCons(source % 2 == 1, Deposit(source / 2, mask / 2), j);
        if j > 0 { BitOfDeposit(source / 2, mask / 2, j - 1); }
      } else {
        BitOfCons(false, Deposit(source, mask / 2), j);
        if j > 0 { BitOfDeposit(source, mask / 2, j - 1); }
      }
    }
  }

  /** Every mask position holds the source bit of its rank; all others are clear. */
  lemma {:induction false} BitOfManualDeposit(source: nat, mask: nat, n: nat, j: nat)
    ensures ManualDeposit(source, mask, n) < Pow2(n)
    ensures Bit(ManualDeposit(source, mask, n), j) <==>
            j < n && Bit(mask, j) && Bit(source, Rank(mask, j))
    decreases n
  {
    if n == 0 {
      BitOfZero(j);
    } else {
      BitOfManualDeposit(source, mask, n - 1, j);
      BitOfTop(ManualDeposit(source, mask, n - 1), n - 1, j);
    }
  }

  lemma {:induction false} DepositIsManual(source: nat, mask: nat, n: nat)
    requires mask < Pow2(n)
    ensures Deposit(source, mask) == ManualDeposit(source, mask, n)
  {
    forall j: nat ensures Bit(Deposit(source, mask), j) == Bit(ManualDeposit(source, mask, n), j) {
      BitOfDeposit(source, mask, j);
      BitOfManualDeposit(source, mask, n, j);
      if j >= n { BitBeyond(mask, n, j); }
    }
    BitExtensionality(Deposit(source, mask), ManualDeposit(source, mask, n));
  }

  /** The bit of rank r in the result is the source bit under the mask bit of rank r. */
  lemma {:induction false} BitOfExtract(source: nat, mask: nat, j: nat)
    requires Bit(mask, j)
    ensures Bit(Extract(source, mask), Rank(mask, j)) == Bit(source, j)
    decreases mask
  {
    if mask == 0 {
      BitOfZero(j);
    } else {
      if j > 0 {
        RankStep(mask, j);
        BitOfExtract(source / 2, mask / 2, j - 1);
      }
      if mask % 2 == 1 {
        BitOfCons(source % 2 == 1, Extract(source / 2, mask / 2), Rank(mask, j));
      }
    }
  }

  lemma {:induction false} ExtractBelow(source: nat, mask: nat)
    ensures Extract(source, mask) < Pow2(PopCount(mask))
    decreases mask
  {
    if mask == 0 {
    } else {
      ExtractBelow(source / 2, mask / 2);
    }
  }

  lemma {:induction false} ManualExtractStep(source: nat, mask: nat, n: nat)
    requires n > 0
    ensures ManualExtract(source, mask, n) ==
            if mask % 2 == 1
            then source % 2 + 2 * ManualExtract(source / 2, mask / 2, n - 1)
            else ManualExtract(source / 2, mask / 2, n - 1)
    decreases n
  {
    hide Low, High;
    if n <= 1 {
    } else {
      ManualExtractStep(source, mask, n - 1);
      RankStep(mask, n - 1);
    }
  }

  lemma {:induction false} ExtractIsManual(source: nat, mask: nat, n: nat)
    requires mask < Pow2(n)
    ensures Extract(source, mask) == ManualExtract(source, mask, n)
    decreases n
  {
    if n == 0 {
    } else {
      ManualExtractStep(source, mask, n);
      ExtractIsManual(source / 2, mask / 2, n - 1);
    }
  }

  /* ---------- the two operations undo each other ---------- */

  lemma {:induction false} ExtractOfDeposit(source: nat, mask: nat)
    ensures Extract(Deposit(source, mask), mask) == Low(source, PopCount(mask))
    decreases mask
  {
    hide Low;
    if mask == 0 {
      HighLowZero(source);
    } else if mask % 2 == 1 {
      ExtractOfDeposit(source / 2, mask / 2);
      ConsParts(source % 2, Deposit(source / 2, mask / 2));
      HighLowStep(source, PopCount(mask / 2));
    } else {
      ExtractOfDeposit(source, mask / 2);
      ConsParts(0, Deposit(source, mask / 2));
    }
  }

  lemma {:induction false} DepositOfExtract(x: nat, mask: nat)
    ensures Deposit(Extract(x, mask), mask) == And(x, mask)
    decreases mask
  {
    if mask == 0 {
    } else {
      AndStep(x, mask);
      DepositOfExtract(x / 2, mask / 2);
    }
  }

  /** PEXT after PDEP with the same mask returns the low popcount(mask) source bits. */
  lemma PextOfPdep(n: nat, source: nat, mask: nat)
    requires mask < Pow2(n)
    ensures ManualExtract(ManualDeposit(source, mask, n), mask, n) == Low(source, PopCount(mask))
  {
    DepositIsManual(source, mask, n);
    ExtractIsManual(Deposit(source, mask), mask, n);
    ExtractOfDeposit(source, mask);
  }

  /** PDEP after PEXT with the same mask clears the bits outside the mask. */
  lemma PdepOfPext(n: nat, x: nat, mask: nat)
    requires mask < Pow2(n)
    ensures ManualDeposit(ManualExtract(x, mask, n), mask, n) == And(x, mask)
  {
    ExtractIsManual(x, mask, n);
    DepositIsManual(Extract(x, mask), mask, n);
    DepositOfExtract(x, mask);
  }

  /** PDEP counts through the subsets of the mask in increasing order, and reaches
      every one of them; PEXT gives the place of a subset in that order. */
  lemma {:induction false} DepositMonotone(s: nat, t: nat, mask: nat)
    requires s < t < Pow2(PopCount(mask))
    ensures Deposit(s, mask) < Deposit(t, mask)
    decreases mask
  {
    if mask % 2 == 1 {
      if s / 2 < t / 2 {
        DepositMonotone(s / 2, t / 2, mask / 2);
      }
    } else {
      DepositMonotone(s, t, mask / 2);
    }
  }

  lemma DepositImage(mask: nat, x: nat)
    ensures And(x, mask) == x ==>
              Extract(x, mask) < Pow2(PopCount(mask)) && Deposit(Extract(x, mask), mask) == x
    ensures forall s: nat :: s < Pow2(PopCount(mask)) && Deposit(s, mask) == x ==> And(x, mask) == x
  {
    DepositOfExtract(x, mask);
    ExtractBelow(x, mask);
    forall s: nat | s < Pow2(PopCount(mask)) && Deposit(s, mask) == x ensures And(x, mask) == x {
      ExtractOfDeposit(s, mask);
      LowSmall(s, PopCount(mask));
    }
  }

  lemma PdepMonotone(n: nat, s: nat, t: nat, mask: nat)
    requires mask < Pow2(n) && s < t < Pow2(PopCount(mask))
    ensures ManualDeposit(s, mask, n) < ManualDeposit(t, mask, n)
  {
    DepositIsManual(s, mask, n);
    DepositIsManual(t, mask, n);
    DepositMonotone(s, t, mask);
  }

  lemma PdepReachesSubsets(n: nat, x: nat, mask: nat)
    requires mask < Pow2(n)
    ensures And(x, mask) == x <==>
              exists s: nat :: s < Pow2(PopCount(mask)) && ManualDeposit(s, mask, n) == x
  {
    forall s: nat ensures ManualDeposit(s, mask, n) == Deposit(s, mask) {
      DepositIsManual(s, mask, n);
    }
    DepositImage(mask, x);
    if And(x, mask) == x {
      assert ManualDeposit(Extract(x, mask), mask, n) == x;
    }
  }
}
