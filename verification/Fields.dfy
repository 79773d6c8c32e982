/**
 BEXTR, BZHI and RORX: the shift-and-mask expressions of the instructions as exact
 quotients and remainders by powers of two, for every 8-bit count.
 */
module Fields {
  import opened Words

  /* ---------- BEXTR and BZHI ---------- */

  /** The field of `len` bits starting at bit `start`. */
  function Field(x: nat, start: nat, len: nat): nat {
    Low(High(x, start), len)
  }

  /** A mask of `len` ones; all ones when `len` is the width or more. */
  lemma MaskOfOnes(n: nat, len: nat)
    ensures IntSub(n, IntLeft(n, 1, len), 1) == Pow2(if len < n then len else n) - 1
  {
    var p := Pow2(n);
    if len < n {
      Pow2Monotone(len + 1, n);
      LowSmall(Pow2(len), n);
      LowSmall(Pow2(len) - 1, n);
    } else {
      LowUnique(0 - 1, n, -1, p - 1);
    }
  }

  /** The BEXTR expression is the field, also when it starts or ends past the width. */
  lemma BextrValue(n: nat, x: nat, start: nat, len: nat)
    requires x < Pow2(n)
    ensures And(IntRight(n, x, start), IntSub(n, IntLeft(n, 1, len), 1)) == Field(x, start, len)
  {
    IntRightIsHigh(n, x, start);
    MaskOfOnes(n, len);
    var h := High(x, start);
    if len < n {
      AndLowMask(h, len);
    } else {
      HighAtMost(x, start);
      AndLowMask(h, n);
      HighLowPast(h, n, n);
      HighLowPast(h, n, len);
    }
  }

  lemma HighAtMost(x: nat, k: nat)
    ensures High(x, k) <= x
  {
    HighLow(x, k);
    MulMonotone(1, Pow2(k), High(x, k));
  }

  /** Shifting up and back down by `s` keeps the low `n - s` bits. */
  lemma ShiftUpDown(n: nat, x: nat, s: nat)
    requires x < Pow2(n) && s <= n
    ensures IntRight(n, IntLeft(n, x, s), s) == Low(x, n - s)
  {
    if s == n {
      HighLowZero(x);
    } else {
      ShiftUp(n, x, s);
      HighLowUnique(Low(x, n - s) * Pow2(s), s, Low(x, n - s), 0);
    }
  }

  /** A left shift drops the bits that leave the word. */
  lemma ShiftUp(n: nat, x: nat, s: nat)
    requires s < n
    ensures IntLeft(n, x, s) == Low(x, n - s) * Pow2(s)
  {
    var q, r, p := High(x, n - s), Low(x, n - s), Pow2(s);
    HighLow(x, n - s);
    Pow2Add(n - s, s);
    ScaleSum(q, Pow2(n - s), r, p);
    ScaleBelow(r, Pow2(n - s), p);
    LowUnique(x * p, n, q, r * p);
  }

  /** The 8-bit shift amount BZHI computes from its index. */
  function BzhiShift(n: nat, index: nat): nat {
    IntMult(BYTE, BitValue(index <= n), IntSub(BYTE, n, index))
  }

  /** BZHI keeps the bits below the index; an index past the width keeps all. */
  lemma BzhiValue(n: nat, x: nat, index: nat)
    requires x < Pow2(n) && n < 256
    ensures var shift := BzhiShift(n, index);
            IntRight(n, IntLeft(n, x, shift), shift) == Low(x, index)
  {
    ByteRange();
    if index <= n {
      LowSmall(n - index, BYTE);
      ShiftUpDown(n, x, n - index);
    } else {
      LowSmall(0, BYTE);
      ShiftUpDown(n, x, 0);
      HighLowPast(x, n, n);
      HighLowPast(x, n, index);
    }
  }

  /** BZHI of a shifted word is BEXTR: the same field by a mask or by two shifts. */
  lemma BzhiOfShiftIsBextr(n: nat, x: nat, start: nat, len: nat)
    requires x < Pow2(n) && n < 256
    ensures var (y, shift) := (IntRight(n, x, start), BzhiShift(n, len));
            IntRight(n, IntLeft(n, y, shift), shift) == And(y, IntSub(n, IntLeft(n, 1, len), 1))
  {
    hide High, Low, Pow2;
    IntRightIsHigh(n, x, start);
    HighAtMost(x, start);
    BextrValue(n, x, start, len);
    BzhiValue(n, High(x, start), len);
  }

  /** Taking the low bits of the quotient, with the low bits below it, is taking more
      low bits. */
  lemma FieldJoins(x: nat, start: nat, len: nat)
    ensures Low(x, start + len) == Low(x, start) + Field(x, start, len) * Pow2(start)
  {
    var h, p := High(x, start), Pow2(start);
    HighLow(x, start);
    HighLow(h, len);
    Pow2Add(len, start);
    ScaleSum(High(h, len), Pow2(len), Low(h, len), p);
    ScaleBelow(Low(h, len), Pow2(len), p);
    BelowNext(Low(x, start), Low(h, len), Pow2(len), p);
    HighLowUnique(x, start + len, High(h, len), Low(x, start) + Low(h, len) * p);
  }

  function Total(widths: seq<nat>): nat {
    if widths == [] then 0 else widths[0] + Total(widths[1..])
  }

  /** The consecutive fields of `x` from bit `start` on, each at its own weight. */
  function FieldSum(x: nat, start: nat, widths: seq<nat>): nat
    decreases |widths|
  {
    if widths == [] then 0
    else Field(x, start, widths[0]) * Pow2(start) + FieldSum(x, start + widths[0], widths[1..])
  }

  /** Cutting a word into fields loses nothing and doubles nothing. */
  lemma {:induction false} FieldsCoverWord(n: nat, x: nat, start: nat, widths: seq<nat>)
    requires x < Pow2(n) && start + Total(widths) == n
    ensures Low(x, start) + FieldSum(x, start, widths) == x
    decreases |widths|
  {
    if widths == [] {
      HighLowPast(x, n, n);
    } else {
      FieldJoins(x, start, widths[0]);
      FieldsCoverWord(n, x, start + widths[0], widths[1..]);
    }
  }

  /* ---------- RORX ---------- */

  function RotateRight(n: nat, x: nat, k: nat): nat
    requires k < n
  {
    High(x, k) + Low(x, k) * Pow2(n - k)
  }

  lemma RotateIsOr(n: nat, x: nat, k: nat)
    requires x < Pow2(n) && k < n
    ensures Or(High(x, k), Low(x, k) * Pow2(n - k)) == RotateRight(n, x, k) < Pow2(n)
  {
    HighBelow(x, n, k);
    OrDisjoint(High(x, k), Low(x, k), n - k);
    BelowNext(High(x, k), Low(x, k), Pow2(k), Pow2(n - k));
    Pow2Add(k, n - k);
  }

  /** The two opposite shifts of RORX make a rotation; a count of 0 is the identity. */
  lemma RorxValue(n: nat, x: nat, k: nat)
    requires x < Pow2(n) && k < n
    ensures Or(IntRight(n, x, k), IntLeft(n, x, n - k)) == RotateRight(n, x, k)
  {
    if k == 0 {
      HighLowZero(x);
      OrZero(x);
    } else {
      ShiftUp(n, x, n - k);
      RotateIsOr(n, x, k);
    }
  }

  lemma BitOfRotate(n: nat, x: nat, k: nat, i: nat)
    requires x < Pow2(n) && k < n
    ensures Bit(RotateRight(n, x, k), i) <==> i < n && Bit(x, if i + k < n then i + k else i + k - n)
  {
    RotateIsOr(n, x, k);
    BitOfOr(High(x, k), Low(x, k) * Pow2(n - k), i);
    BitOfHigh(x, k, i);
    BitOfMulPow2(Low(x, k), n - k, i);
    if i >= n - k {
      BitOfLow(x, k, i - (n - k));
      BitBeyond(x, n, k + i);
    }
  }

  /** Rotations add up modulo the width; in particular they undo each other. */
  lemma {:induction false} RotationsCompose(n: nat, x: nat, j: nat, k: nat)
    requires x < Pow2(n) && j < n && k < n
    ensures RotateRight(n, x, j) < Pow2(n)
    ensures RotateRight(n, RotateRight(n, x, j), k)
         == RotateRight(n, x, if j + k < n then j + k else j + k - n)
  {
    var m := if j + k < n then j + k else j + k - n;
    var y := RotateRight(n, x, j);
    RotateIsOr(n, x, j);
    forall i: nat ensures Bit(RotateRight(n, y, k), i) == Bit(RotateRight(n, x, m), i) {
      BitOfRotate(n, y, k, i);
      BitOfRotate(n, x, m, i);
      BitOfRotate(n, x, j, if i + k < n then i + k else if i < n then i + k - n else i);
    }
    BitExtensionality(RotateRight(n, y, k), RotateRight(n, x, m));
  }
}
