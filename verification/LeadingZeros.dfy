/**
 LZCNT: the binary search that evaluates its p-code operator, and the count of the
 manual.
 */
module LeadingZeros {
  import opened Words

  /* ---------- masks of leading ones ---------- */

  /** Ones in the top `t` of `n` positions. */
  function TopMask(n: nat, t: nat): (m: nat)
    requires t <= n
    ensures m < Pow2(n)
  {
    Pow2Monotone(n - t, n);
    Pow2(n) - Pow2(n - t)
  }

  lemma {:induction false} BitOfOnes(k: nat, i: nat)
    ensures Bit(Pow2(k) - 1, i) <==> i < k
    decreases k
  {
    if k == 0 {
      BitOfZero(i);
    } else {
      BitOfCons(true, Pow2(k - 1) - 1, i);
      if i > 0 { BitOfOnes(k - 1, i - 1); }
    }
  }

  lemma OnesTimes(t: nat, k: nat)
    ensures (Pow2(t) - 1) * Pow2(k) == Pow2(t + k) - Pow2(k)
  {
    Pow2Add(t, k);
    assert (Pow2(t) - 1) * Pow2(k) == Pow2(t) * Pow2(k) - Pow2(k);
  }

  lemma BitOfTopMask(n: nat, t: nat, i: nat)
    requires t <= n
    ensures Bit(TopMask(n, t), i) <==> n - t <= i < n
  {
    OnesTimes(t, n - t);
    BitOfMulPow2(Pow2(t) - 1, n - t, i);
    if i >= n - t { BitOfOnes(t, i - (n - t)); }
  }

  /** The mask meets the value unless the value lies below it. */
  lemma MaskTest(n: nat, t: nat, v: nat)
    requires t <= n && v < Pow2(n)
    ensures And(TopMask(n, t), v) == 0 <==> v < Pow2(n - t)
  {
    var m := TopMask(n, t);
    if v < Pow2(n - t) {
      forall i: nat ensures Bit(And(m, v), i) == Bit(0, i) {
        BitOfAnd(m, v, i);
        BitOfTopMask(n, t, i);
        BitOfZero(i);
        if i >= n - t { BitBeyond(v, n - t, i); }
      }
      BitExtensionality(And(m, v), 0);
    } else {
      var i := BitLength(v) - 1;
      BitLengthRange(v, n);
      BitLengthRange(v, n - t);
      LeadingBit(v);
      BitOfAnd(m, v, i);
      BitOfTopMask(n, t, i);
      BitOfZero(i);
    }
  }

  lemma LeadingBit(v: nat)
    requires v > 0
    ensures BitLength(v) > 0 && Bit(v, BitLength(v) - 1)
  {
    hide Pow2;
    if v <= 1 {
    } else {
      LeadingBit(v / 2);
    }
  }

  lemma {:induction false} WidenMask(n: nat, t: nat, s: nat)
    requires s <= t && t + s <= n
    ensures Or(TopMask(n, t), IntRight(n, TopMask(n, t), s)) == TopMask(n, t + s)
  {
    var m := TopMask(n, t);
    IntRightIsHigh(n, m, s);
    forall i: nat ensures Bit(Or(m, High(m, s)), i) == Bit(TopMask(n, t + s), i) {
      BitOfOr(m, High(m, s), i);
      BitOfHigh(m, s, i);
      BitOfTopMask(n, t, i);
      BitOfTopMask(n, t, s + i);
      BitOfTopMask(n, t + s, i);
    }
    BitExtensionality(Or(m, High(m, s)), TopMask(n, t + s));
  }

  lemma {:induction false} NarrowMask(n: nat, t: nat, s: nat)
    requires s <= t <= n && s < n
    ensures And(TopMask(n, t), IntLeft(n, TopMask(n, t), s)) == TopMask(n, t - s)
  {
    var m := TopMask(n, t);
    var shifted := IntLeft(n, m, s);
    forall i: nat ensures Bit(And(m, shifted), i) == Bit(TopMask(n, t - s), i) {
      BitOfAnd(m, shifted, i);
      BitOfLow(m * Pow2(s), n, i);
      BitOfMulPow2(m, s, i);
      BitOfTopMask(n, t, i);
      if i >= s { BitOfTopMask(n, t, i - s); }
      BitOfTopMask(n, t - s, i);
    }
    BitExtensionality(And(m, shifted), TopMask(n, t - s));
  }

  /* ---------- count_leading_zeros ---------- */

  /** Halving the mask size `s` each round, the search keeps the leading one within the
      next 2 * s positions below the `bit` zeros found so far. */
  ghost predicate Search(k: nat, val: nat, mask: nat, s: nat, bit: nat) {
    var n := Pow2(k);
    && bit + 2 * s <= n
    && mask == TopMask(n, bit + s)
    && Pow2(n - bit - 2 * s) <= val < Pow2(n - bit)
  }

  /** The leading one is just below `bit` zeros. */
  ghost predicate Found(k: nat, val: nat, bit: nat) {
    var n := Pow2(k);
    bit < n && Pow2(n - bit - 1) <= val < Pow2(n - bit)
  }

  /** The loop of count_leading_zeros for words of 2^k bits (the source has k = 6). */
  method CountLeadingZeros(k: nat, val: nat) returns (r: nat)
    requires k > 0 && val < Pow2(Pow2(k))
    ensures r == Pow2(k) - BitLength(val)
  {
    hide And, Or, IntLeft, IntRight, Search, Found;
    var n := Pow2(k);
    if val == 0 {
      return n;
    }
    var mask: nat := Pow2(n) - 1;
    var maskSize: nat := Pow2(k - 1);
    mask := And(mask, IntLeft(n, mask, maskSize));
    var bit: nat := 0;
    SearchStart(k, val);
    ghost var j: nat := k - 1;
    while true
      invariant j < k && maskSize == Pow2(j)
      invariant Search(k, val, mask, maskSize, bit)
      decreases j
    {
      SearchStep(k, val, mask, j, bit);
      if And(mask, val) == 0 {
        bit := bit + maskSize;
        maskSize := maskSize / 2;
        mask := Or(mask, IntRight(n, mask, maskSize));
      } else {
        maskSize := maskSize / 2;
        mask := And(mask, IntLeft(n, mask, maskSize));
      }
      if maskSize == 0 { break; }
      j := j - 1;
    }
    FoundIsLength(k, val, bit);
    return bit;
  }

  lemma FoundIsLength(k: nat, val: nat, bit: nat)
    requires Found(k, val, bit)
    ensures bit == Pow2(k) - BitLength(val)
  {
    hide Pow2, BitLength;
    BitLengthRange(val, Pow2(k) - bit);
    BitLengthRange(val, Pow2(k) - bit - 1);
  }

  lemma SearchStart(k: nat, val: nat)
    requires k > 0 && 0 < val < Pow2(Pow2(k))
    ensures var n := Pow2(k);
            Search(k, val, And(Pow2(n) - 1, IntLeft(n, Pow2(n) - 1, Pow2(k - 1))), Pow2(k - 1), 0)
  {
    NarrowMask(Pow2(k), Pow2(k), Pow2(k - 1));
  }

  /** One round at mask size 2^j. */
  lemma SearchStep(k: nat, val: nat, mask: nat, j: nat, bit: nat)
    requires Search(k, val, mask, Pow2(j), bit)
    ensures var (n, s) := (Pow2(k), Pow2(j));
            && s / 2 == (if j == 0 then 0 else Pow2(j - 1))
            && if And(mask, val) == 0
               then if j == 0 then Found(k, val, bit + s)
                    else Search(k, val, Or(mask, IntRight(n, mask, s / 2)), s / 2, bit + s)
               else if j == 0 then Found(k, val, bit)
                    else Search(k, val, And(mask, IntLeft(n, mask, s / 2)), s / 2, bit)
  {
    hide And, Or, IntLeft, IntRight;
    var n, s := Pow2(k), Pow2(j);
    Pow2Monotone(n - bit, n);
    MaskTest(n, bit + s, val);
    if j > 0 {
      WidenMask(n, bit + s, s / 2);
      NarrowMask(n, bit + s, s / 2);
    }
  }

  /* ---------- the manual's count ---------- */

  /** The manual's count, downwards from the top bit. */
  function LeadingZeroCount(n: nat, x: nat): nat {
    if n == 0 || Bit(x, n - 1) then 0 else 1 + LeadingZeroCount(n - 1, x)
  }

  lemma {:induction false} LeadingZeroCountMeaning(n: nat, x: nat)
    requires x < Pow2(n)
    ensures LeadingZeroCount(n, x) == n - BitLength(x)
    decreases n
  {
    BitLengthRange(x, n);
    if n == 0 {
    } else {
      BitIsHigh(x, n - 1);
      BitLengthRange(x, n - 1);
      if x < Pow2(n - 1) {
        HighLowPast(x, n - 1, n - 1);
        LeadingZeroCountMeaning(n - 1, x);
      } else {
        HighLowUnique(x, n - 1, 1, x - Pow2(n - 1));
      }
    }
  }
}
