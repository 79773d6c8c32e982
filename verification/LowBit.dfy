/**
 TZCNT, BLSI, BLSR and BLSMSK: finding, isolating, clearing and masking up to the
 lowest set bit of a word, and walking over all its set bits with them.
 */
module LowBit {
  import opened Words

  /** The manual's count: positions are inspected upwards while they are clear and
      inside the operand. */
  function TrailingZeros(n: nat, x: nat): nat {
    if n == 0 || x % 2 == 1 then 0 else 1 + TrailingZeros(n - 1, x / 2)
  }

  /** The weight of the lowest set bit, or 0. */
  function LowestBit(x: nat): (r: nat)
    ensures r <= x && (r == 0 <==> x == 0)
  {
    if x == 0 then 0 else if x % 2 == 1 then 1 else 2 * LowestBit(x / 2)
  }

  /* ---------- TZCNT ---------- */

  /** After `c` rounds the operand is shifted down with ones in its top `c` places,
      and all the positions passed were clear. */
  ghost predicate AtRound(n: nat, x: nat, c: nat, input: nat) {
    && c <= n
    && input == High(x, c) + Pow2(n) - Pow2(n - c)
    && TrailingZeros(n, x) == c + TrailingZeros(n - c, High(x, c))
  }

  /** The body of TZCNT at a width of `n` bits: a one is shifted in at the top each
      round, so the loop meets a set bit after at most `n` rounds. */
  method TzcntLoop(n: nat, rm: nat) returns (countTmp: nat)
    requires n > 0 && rm < Pow2(n)
    ensures countTmp == TrailingZeros(n, rm)
  {
    countTmp := 0;
    var inputTmp := rm;
    HighLowZero(rm);
    while And(inputTmp, 1) == 0
      invariant AtRound(n, rm, countTmp, inputTmp)
      decreases n - countTmp
    {
      SentinelStep(n, rm, countTmp, inputTmp);
      countTmp := IntAdd(n, countTmp, 1);
      inputTmp := Or(IntRight(n, inputTmp, 1), Pow2(n - 1));
    }
    SentinelExit(n, rm, countTmp, inputTmp);
  }

  lemma SentinelStep(n: nat, x: nat, c: nat, input: nat)
    requires n > 0 && x < Pow2(n) && AtRound(n, x, c, input) && And(input, 1) == 0
    ensures IntAdd(n, c, 1) == c + 1 <= n
    ensures AtRound(n, x, c + 1, Or(IntRight(n, input, 1), Pow2(n - 1)))
  {
    AndOne(input);
    SentinelParity(n, x, c, input);
    BelowPow2(n);
    LowSmall(c + 1, n);
    HighLowStep(x, c);
    SentinelShift(n, x, c, input);
  }

  lemma SentinelShift(n: nat, x: nat, c: nat, input: nat)
    requires c < n && x < Pow2(n) && High(x, c) % 2 == 0
    requires input == High(x, c) + Pow2(n) - Pow2(n - c)
    ensures Or(IntRight(n, input, 1), Pow2(n - 1)) == High(x, c + 1) + Pow2(n) - Pow2(n - c - 1)
  {
    hide High, Low, Or, IntRight;
    HighLowStep(x, c);
    HighBelow(x, n, c + 1);
    HighBelow(x, n, c);
    var next := High(x, c + 1) + Pow2(n - 1) - Pow2(n - c - 1);
    assert input == 2 * next;
    assert Pow2(1) == 2;
    IntRightIsHigh(n, input, 1);
    HighLowUnique(input, 1, next, 0);
    BitOfTop(next, n - 1, 0);
  }

  /** Below the top the sentinels are even, so the parity is that of the operand. */
  lemma SentinelParity(n: nat, x: nat, c: nat, input: nat)
    requires n > 0 && x < Pow2(n) && c <= n && input == High(x, c) + Pow2(n) - Pow2(n - c)
    ensures if c < n then input % 2 == High(x, c) % 2 else input % 2 == 1
  {
    hide High, Low, Pow2;
    Pow2Step(n);
    if c < n {
      Pow2Step(n - c);
      EvenGap(Pow2(n - 1), Pow2(n - c - 1), High(x, c));
    } else {
      HighLowPast(x, n, n);
      OddGap(Pow2(n - 1));
    }
  }

  lemma EvenGap(p: nat, q: nat, h: nat)
    ensures (h + 2 * p - 2 * q) % 2 == h % 2
  {}

  lemma OddGap(p: nat)
    ensures (2 * p - 1) % 2 == 1
  {}

  lemma SentinelExit(n: nat, x: nat, c: nat, input: nat)
    requires n > 0 && x < Pow2(n) && AtRound(n, x, c, input) && And(input, 1) != 0
    ensures TrailingZeros(n, x) == c
  {
    AndOne(input);
    SentinelParity(n, x, c, input);
  }

  /** The count is the index of the lowest set bit, and the width only for zero. */
  lemma {:induction false} TrailingZerosMeaning(n: nat, x: nat, i: nat)
    requires x < Pow2(n)
    ensures TrailingZeros(n, x) <= n
    ensures TrailingZeros(n, x) == n <==> x == 0
    ensures x > 0 ==> Bit(x, TrailingZeros(n, x)) && LowestBit(x) == Pow2(TrailingZeros(n, x))
    ensures i < TrailingZeros(n, x) ==> !Bit(x, i)
    decreases n
  {
    if n > 0 && x % 2 == 0 {
      TrailingZerosMeaning(n - 1, x / 2, if i > 0 then i - 1 else 0);
    }
  }

  /* ---------- BLSI, BLSR, BLSMSK ---------- */

  lemma NegValue(n: nat, x: nat)
    requires x < Pow2(n)
    ensures IntNeg(n, x) == if x == 0 then 0 else Pow2(n) - x
    ensures IntSub(n, x, 1) == if x == 0 then Pow2(n) - 1 else x - 1
  {
    var p := Pow2(n);
    if x == 0 {
      LowSmall(0, n);
      LowUnique(x - 1, n, -1, p - 1);
    } else {
      LowUnique(0 - x, n, -1, p - x);
      LowSmall(x - 1, n);
    }
  }

  lemma {:induction false} AndComplement(n: nat, y: nat)
    requires y < Pow2(n)
    ensures And(Pow2(n) - 1 - y, y) == 0
    decreases n
  {
    if n == 0 {
    } else {
      var z := Pow2(n) - 1 - y;
      assert z / 2 == Pow2(n - 1) - 1 - y / 2;
      AndStep(z, y);
      AndComplement(n - 1, y / 2);
    }
  }

  lemma {:induction false} AndNegate(n: nat, x: nat)
    requires 0 < x < Pow2(n)
    ensures And(Pow2(n) - x, x) == LowestBit(x)
    decreases n
  {
    hide And;
    var h := x / 2;
    var z := Pow2(n) - x;
    AndStep(z, x);
    if x % 2 == 1 {
      ConsParts(1, Pow2(n - 1) - 1 - h);
      AndComplement(n - 1, h);
    } else {
      ConsParts(0, Pow2(n - 1) - h);
      AndNegate(n - 1, h);
    }
  }

  /** -x & x is the lowest set bit of x. */
  lemma BlsiValue(n: nat, x: nat)
    requires x < Pow2(n)
    ensures And(IntNeg(n, x), x) == LowestBit(x)
  {
    NegValue(n, x);
    if x > 0 { AndNegate(n, x); }
  }

  lemma AndSelf(x: nat)
    ensures And(x, x) == x
  {
    if x == 0 {
    } else {
      AndSelf(x / 2);
    }
  }

  lemma {:induction false} AndPredecessor(x: nat)
    requires x > 0
    ensures And(x - 1, x) == x - LowestBit(x)
    decreases x
  {
    AndStep(x - 1, x);
    if x % 2 == 1 {
      assert (x - 1) / 2 == x / 2;
      AndSelf(x / 2);
    } else {
      assert (x - 1) / 2 == x / 2 - 1;
      AndPredecessor(x / 2);
    }
  }

  /** (x - 1) & x clears the lowest set bit of x. */
  lemma BlsrValue(n: nat, x: nat)
    requires x < Pow2(n)
    ensures And(IntSub(n, x, 1), x) == x - LowestBit(x)
  {
    NegValue(n, x);
    if x > 0 { AndPredecessor(x); }
  }

  lemma {:induction false} XorPredecessor(x: nat)
    requires x > 0
    ensures Xor(x - 1, x) == 2 * LowestBit(x) - 1
    decreases x
  {
    XorStep(x - 1, x);
    if x % 2 == 1 {
      assert (x - 1) / 2 == x / 2;
      XorSelf(x / 2);
    } else {
      assert (x - 1) / 2 == x / 2 - 1;
      XorPredecessor(x / 2);
    }
  }

  /** (x - 1) ^ x has ones up to and including the lowest set bit; all ones for 0. */
  lemma BlsmskValue(n: nat, x: nat)
    requires x < Pow2(n)
    ensures Xor(IntSub(n, x, 1), x) == if x == 0 then Pow2(n) - 1 else 2 * LowestBit(x) - 1
  {
    NegValue(n, x);
    if x > 0 { XorPredecessor(x); } else { XorZero(Pow2(n) - 1); }
  }

  /* ---------- walking over the set bits ---------- */

  lemma PopCountStep(x: nat)
    ensures PopCount(x) == x % 2 + PopCount(x / 2)
  {}

  lemma {:induction false} BitOfClearLowest(n: nat, x: nat, j: nat)
    requires 0 < x < Pow2(n)
    ensures Bit(x - LowestBit(x), j) <==> Bit(x, j) && j != TrailingZeros(n, x)
    ensures PopCount(x - LowestBit(x)) == PopCount(x) - 1
    decreases n
  {
    hide Bit, PopCount;
    var h := x / 2;
    BitOfCons(x % 2 == 1, h, j);
    PopCountStep(x);
    PopCountStep(x - LowestBit(x));
    if x % 2 == 1 {
      assert x - LowestBit(x) == 2 * h;
      BitOfCons(false, h, j);
    } else {
      var rest := h - LowestBit(h);
      assert x - LowestBit(x) == 2 * rest;
      ConsParts(0, rest);
      BitOfCons(false, rest, j);
      BitOfClearLowest(n - 1, h, if j > 0 then j - 1 else 0);
    }
  }

  /** The TZCNT results of the loop "TZCNT, then BLSR, until zero". */
  function ScanPositions(n: nat, x: nat): (ps: seq<nat>)
    decreases x
  {
    if x == 0 then [] else [TrailingZeros(n, x)] + ScanPositions(n, x - LowestBit(x))
  }

  /** The BLSI results along the same loop. */
  function ScanBits(x: nat): (bs: seq<nat>)
    decreases x
  {
    if x == 0 then [] else [LowestBit(x)] + ScanBits(x - LowestBit(x))
  }

  function SumOfPowers(ps: seq<nat>): nat {
    if ps == [] then 0 else Pow2(ps[0]) + SumOfPowers(ps[1..])
  }

  function Sum(s: seq<nat>): nat {
    if s == [] then 0 else s[0] + Sum(s[1..])
  }

  /** Every set bit is visited, and nothing else. */
  lemma {:induction false} ScanVisitsSetBits(n: nat, x: nat, j: nat)
    requires x < Pow2(n)
    ensures j in ScanPositions(n, x) <==> Bit(x, j)
    decreases x
  {
    if x == 0 {
      BitOfZero(j);
    } else {
      ScanVisitsSetBits(n, x - LowestBit(x), j);
      BitOfClearLowest(n, x, j);
      TrailingZerosMeaning(n, x, 0);
    }
  }

  /** One round per set bit. */
  lemma {:induction false} ScanCounts(n: nat, x: nat)
    requires x < Pow2(n)
    ensures |ScanPositions(n, x)| == PopCount(x)
    decreases x
  {
    if x == 0 {
    } else {
      ScanCounts(n, x - LowestBit(x));
      BitOfClearLowest(n, x, 0);
    }
  }

  /** The isolated bits are the powers of two of the positions. */
  lemma {:induction false} ScanBitsArePowers(n: nat, x: nat)
    requires x < Pow2(n)
    ensures |ScanBits(x)| == |ScanPositions(n, x)|
    ensures forall k :: 0 <= k < |ScanBits(x)| ==> ScanBits(x)[k] == Pow2(ScanPositions(n, x)[k])
    decreases x
  {
    hide Pow2, TrailingZeros, LowestBit;
    if x == 0 {
    } else {
      ScanBitsArePowers(n, x - LowestBit(x));
      TrailingZerosMeaning(n, x, 0);
    }
  }

  /** They are distinct, coming in strictly increasing order. */
  lemma ScanBitsIncrease(n: nat, x: nat, k: nat, l: nat)
    requires x < Pow2(n) && k < l < |ScanBits(x)|
    ensures ScanBits(x)[k] < ScanBits(x)[l]
  {
    hide Pow2, ScanPositions, ScanBits;
    ScanBitsArePowers(n, x);
    ScanIncreases(n, x, k, l);
    Pow2Increases(ScanPositions(n, x)[k], ScanPositions(n, x)[l]);
  }

  /** They add up to the word, and so do the powers of two of the positions. */
  lemma {:induction false} ScanBitsAddUp(n: nat, x: nat)
    requires x < Pow2(n)
    ensures Sum(ScanBits(x)) == x
    ensures SumOfPowers(ScanPositions(n, x)) == x
    decreases x
  {
    hide Pow2, TrailingZeros, LowestBit;
    if x == 0 {
    } else {
      ScanBitsAddUp(n, x - LowestBit(x));
      TrailingZerosMeaning(n, x, 0);
    }
  }

  /** The positions come in strictly increasing order. */
  lemma {:induction false} ScanIncreases(n: nat, x: nat, k: nat, l: nat)
    requires x < Pow2(n) && k < l < |ScanPositions(n, x)|
    ensures ScanPositions(n, x)[k] < ScanPositions(n, x)[l]
    decreases x
  {
    var rest := x - LowestBit(x);
    var ps := ScanPositions(n, rest);
    if k > 0 {
      ScanIncreases(n, rest, k - 1, l - 1);
    } else {
      var j := ps[l - 1];
      ScanVisitsSetBits(n, rest, j);
      BitOfClearLowest(n, x, j);
      TrailingZerosMeaning(n, x, j);
    }
  }
}
