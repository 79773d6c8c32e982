/**
 What the instructions do, seen from outside: each statement is about the registers,
 memory and flags before and after one instruction, bit by bit, and names none of the
 functions that compute the result.
 */
module Effects {
  import opened Words
  import opened BitScatter
  import opened LowBit
  import opened LeadingZeros
  import opened Fields
  import opened Clmul
  import opened Isa
  import opened Rereads

  /* ---------- operands ---------- */

  /** A register operand has the low bits of the register. */
  lemma RegisterOperand(gpr: seq<nat>, mem: Memory, w: nat, r: nat, j: nat)
    requires r < |gpr|
    ensures Bit(Value(gpr, mem, w, InRegister(r)), j) <==> j < w && Bit(gpr[r], j)
    ensures Bit(Get(gpr, w, r), j) <==> j < w && Bit(gpr[r], j)
  {
    BitOfLow(gpr[r], w, j);
  }

  /** A vector operand has 128 bits, of a vector register or of memory. */
  lemma VectorOperand(st: State, r: nat, rm: Operand, j: nat)
    requires r < |st.vec| && !rm.InRegister? && OperandOk(|st.gpr|, rm)
    ensures Bit(VectorValue(st, InRegister(r)), j) <==> j < 128 && Bit(st.vec[r], j)
    ensures VectorValue(st, rm) == Value(st.gpr, st.mem, 128, rm)
  {
    BitOfLow(st.vec[r], OWORD, j);
  }

  /** Bit j of byte i of a word is that bit of the byte i places further up in memory. */
  lemma {:induction false} BitOfBytes(mem: Memory, a: nat, k: nat, i: nat, j: nat)
    requires i < k && j < BYTE
    ensures Bit(Bytes(mem, a, k), BYTE * i + j) == Bit(mem((a + i) % Pow2(QWORD)), j)
    decreases k
  {
    hide Bit, Pow2, Low, High;
    var first, rest := mem(Low(a, QWORD)), Bytes(mem, a + 1, k - 1);
    var v := Bytes(mem, a, k);
    ByteRange();
    HighLowUnique(v, BYTE, rest, first);
    if i == 0 {
      BitOfLow(v, BYTE, j);
      LowIsRemainder(a);
    } else {
      BitOfHigh(v, BYTE, BYTE * (i - 1) + j);
      BitOfBytes(mem, a + 1, k - 1, i - 1, j);
    }
  }

  lemma LowIsRemainder(a: nat)
    ensures Low(a, QWORD) == a % Pow2(QWORD)
  {}

  /** A memory operand has the bytes at its address, lowest first. */
  lemma MemoryOperand(gpr: seq<nat>, mem: Memory, k: nat, base: nat, i: nat, j: nat)
    requires base < |gpr| && j < 8 && i < k
    ensures Bit(Value(gpr, mem, 8 * k, AtRegister(base)), 8 * i + j)
         == Bit(mem((gpr[base] + i) % Pow2(QWORD)), j)
  {
    hide Bytes, Bit, Pow2;
    assert 8 * k / BYTE == k;
    BitOfBytes(mem, gpr[base], k, i, j);
  }

  /** A computed address is base plus scaled index plus displacement. */
  lemma ComputedAddress(gpr: seq<nat>, mem: Memory, w: nat, base: nat, index: nat, scale: nat, disp: nat)
    requires base < |gpr| && index < |gpr|
    ensures Value(gpr, mem, w, AtSum([(base, 1), (index, scale)], disp))
         == Load(mem, w, (gpr[base] + gpr[index] * scale + disp) % Pow2(QWORD))
    ensures Value(gpr, mem, w, AtSum([(base, 1)], disp)) == Load(mem, w, (gpr[base] + disp) % Pow2(QWORD))
    ensures Value(gpr, mem, w, AtSum([], disp)) == Load(mem, w, disp % Pow2(QWORD))
  {
    hide Load, Low, Pow2;
    var t: seq<(nat, nat)>, u: seq<(nat, nat)> := [(base, 1), (index, scale)], [(base, 1)];
    assert t[1..] == [(index, scale)] && |t[1..][1..]| == 0 && |u[1..]| == 0;
    assert ScaledSum(gpr, t[1..]) == gpr[index] * scale + ScaledSum(gpr, t[1..][1..]);
    assert ScaledSum(gpr, t) == gpr[base] + gpr[index] * scale;
    assert ScaledSum(gpr, u) == gpr[base];
    LowIsRemainder(gpr[base] + gpr[index] * scale + disp);
    LowIsRemainder(gpr[base] + disp);
    LowIsRemainder(disp);
  }

  /* ---------- what an instruction leaves alone ---------- */

  /** Of registers and memory only general register `d` differs.  A 32-bit instruction
      clears its upper half, a 16-bit one keeps all but the low 16 bits. */
  ghost predicate OnlyRegister(st: State, st': State, z: Size, d: nat) {
    && d < |st.gpr| == |st'.gpr| && st'.vec == st.vec && st'.mem == st.mem
    && (forall r :: 0 <= r < |st.gpr| && r != d ==> st'.gpr[r] == st.gpr[r])
    && (z == Dword ==> st'.gpr[d] < 0x1_0000_0000)
    && (z == Word ==> st'.gpr[d] / 0x1_0000 == st.gpr[d] / 0x1_0000)
  }

  lemma SizeLimits()
    ensures Bits(Word) == 16 && Bits(Dword) == 32 && Bits(Qword) == 64
    ensures Pow2(2 * BYTE) == 0x1_0000 && Pow2(DWORD) == 0x1_0000_0000
  {
    ByteRange();
    Pow2Add(BYTE, BYTE);
    Pow2Add(2 * BYTE, 2 * BYTE);
  }

  /** What every write of a general register has in common. */
  lemma WriteEffect(st: State, st': State, z: Size, d: nat, v: nat)
    requires d < |st.gpr| && v < Pow2(Bits(z))
    requires st'.gpr == Put(st.gpr, z, d, v) && st'.vec == st.vec && st'.mem == st.mem
    ensures OnlyRegister(st, st', z, d) && Get(st'.gpr, Bits(z), d) == v
  {
    hide Low, High, Pow2, SubWrite;
    SizeLimits();
    if z == Word {
      SubWriteParts(Bits(z), st.gpr[d], v);
      HighIsQuotient(st'.gpr[d]);
      HighIsQuotient(st.gpr[d]);
    } else {
      LowSmall(v, Bits(z));
    }
  }

  lemma HighIsQuotient(x: nat)
    ensures High(x, 2 * BYTE) == x / 0x1_0000
  {
    SizeLimits();
  }

  /* ---------- addition, multiplication, moves ---------- */

  lemma AdcxEffect(st: State, z: Size, d: nat, rm: Operand)
    requires |st.gpr| > RDX && Encodable(st, Adcx(z, d, rm))
    ensures var (n, st') := (Bits(z), Exec(st, Adcx(z, d, rm)));
            && OnlyRegister(st, st', z, d)
            && (st'.zf, st'.sf, st'.of, st'.pf) == (st.zf, st.sf, st.of, st.pf)
            && Get(st'.gpr, n, d) + (if st'.cf then Pow2(n) else 0)
               == Get(st.gpr, n, d) + Value(st.gpr, st.mem, n, rm) + (if st.cf then 1 else 0)
  {
    hide Low, Pow2, Put, OnlyRegister, Value;
    var n := Bits(z);
    var sum := Get(st.gpr, n, d) + Value(st.gpr, st.mem, n, rm) + BitValue(st.cf);
    SumParts(n, Get(st.gpr, n, d), Value(st.gpr, st.mem, n, rm), BitValue(st.cf));
    WriteEffect(st, Exec(st, Adcx(z, d, rm)), z, d, Low(sum, n));
  }

  lemma AdoxEffect(st: State, z: Size, d: nat, rm: Operand)
    requires |st.gpr| > RDX && Encodable(st, Adox(z, d, rm))
    ensures var (n, st') := (Bits(z), Exec(st, Adox(z, d, rm)));
            && OnlyRegister(st, st', z, d)
            && (st'.cf, st'.zf, st'.sf, st'.pf) == (st.cf, st.zf, st.sf, st.pf)
            && Get(st'.gpr, n, d) + (if st'.of then Pow2(n) else 0)
               == Get(st.gpr, n, d) + Value(st.gpr, st.mem, n, rm) + (if st.of then 1 else 0)
  {
    hide Low, Pow2, Put, OnlyRegister, Value;
    var n := Bits(z);
    var sum := Get(st.gpr, n, d) + Value(st.gpr, st.mem, n, rm) + BitValue(st.of);
    SumParts(n, Get(st.gpr, n, d), Value(st.gpr, st.mem, n, rm), BitValue(st.of));
    WriteEffect(st, Exec(st, Adox(z, d, rm)), z, d, Low(sum, n));
  }

  lemma SumParts(n: nat, x: nat, y: nat, c: nat)
    requires x < Pow2(n) && y < Pow2(n) && c < 2
    ensures var sum := x + y + c;
            Low(sum, n) + (if sum >= Pow2(n) then Pow2(n) else 0) == sum && Low(sum, n) < Pow2(n)
  {
    hide Low, Pow2;
    var sum := x + y + c;
    if sum >= Pow2(n) {
      LowUnique(sum, n, 1, sum - Pow2(n));
    } else {
      LowSmall(sum, n);
    }
  }

  /** With different destinations both halves of the product; with one destination the
      high half. */
  lemma MulxEffect(st: State, z: Size, hi: nat, lo: nat, rm: Operand)
    requires |st.gpr| > RDX && Encodable(st, Mulx(z, hi, lo, rm))
    ensures var (n, st') := (Bits(z), Exec(st, Mulx(z, hi, lo, rm)));
            var product := Get(st.gpr, n, 2) * Value(st.gpr, st.mem, n, rm);
            && st' == st.(gpr := st'.gpr) && |st'.gpr| == |st.gpr|
            && (forall r :: 0 <= r < |st.gpr| && r != hi && r != lo ==> st'.gpr[r] == st.gpr[r])
            && st'.gpr[hi] == product / Pow2(n)
            && (hi != lo ==> st'.gpr[lo] == product % Pow2(n))
  {}

  lemma MovEffect(st: State, z: Size, d: nat, rm: Operand)
    requires |st.gpr| > RDX && Encodable(st, Mov(z, d, rm))
    ensures var st' := Exec(st, Mov(z, d, rm));
            && st' == st.(gpr := st'.gpr) && OnlyRegister(st, st', z, d)
            && Get(st'.gpr, Bits(z), d) == Value(st.gpr, st.mem, Bits(z), rm)
  {
    hide Low, Pow2, Put, OnlyRegister, Value;
    WriteEffect(st, Exec(st, Mov(z, d, rm)), z, d, Value(st.gpr, st.mem, Bits(z), rm));
  }

  lemma XorEffect(st: State, z: Size, d: nat, rm: Operand, j: nat)
    requires |st.gpr| > RDX && Encodable(st, XorRegister(z, d, rm))
    ensures var (n, st') := (Bits(z), Exec(st, XorRegister(z, d, rm)));
            && OnlyRegister(st, st', z, d)
            && (Bit(Get(st'.gpr, n, d), j) <==> Bit(Get(st.gpr, n, d), j) != Bit(Value(st.gpr, st.mem, n, rm), j))
            && !st'.cf && !st'.of && (st'.zf <==> Get(st'.gpr, n, d) == 0)
            && (st'.sf <==> Bit(Get(st'.gpr, n, d), n - 1))
            && (st'.pf <==> Rank(Get(st'.gpr, n, d), BYTE) % 2 == 0)
  {
    hide Low, Pow2, Put, OnlyRegister, Value, Xor, Bit, PopCount, Rank;
    var n := Bits(z);
    var x, y := Get(st.gpr, n, d), Value(st.gpr, st.mem, n, rm);
    XorBelow(x, y, n);
    BitOfXor(x, y, j);
    PopCountIsRank(Xor(x, y), BYTE);
    WriteEffect(st, Exec(st, XorRegister(z, d, rm)), z, d, Xor(x, y));
  }

  /* ---------- bit fields ---------- */

  /** Bits 0-7 of the control register are the start, bits 8-15 the length. */
  lemma BextrEffect(st: State, z: Size, d: nat, rm: Operand, c: nat, start: nat, len: nat, rest: nat, j: nat)
    requires |st.gpr| > RDX && Encodable(st, Bextr(z, d, rm, c))
    requires start < 256 && len < 256 && st.gpr[c] == start + 256 * (len + 256 * rest)
    ensures var (n, st') := (Bits(z), Exec(st, Bextr(z, d, rm, c)));
            && OnlyRegister(st, st', z, d)
            && (Bit(Get(st'.gpr, n, d), j) <==> j < len && Bit(Value(st.gpr, st.mem, n, rm), start + j))
            && (st'.zf <==> Get(st'.gpr, n, d) == 0) && !st'.cf && !st'.of
            && (st'.sf, st'.pf) == (st.sf, st.pf)
  {
    hide Low, High, Pow2, Put, OnlyRegister, Value, Bit;
    var x := Value(st.gpr, st.mem, Bits(z), rm);
    ControlBytes(st.gpr[c], start, len, rest);
    HighAtMost(x, start);
    LowAtMost(High(x, start), len);
    BitOfLow(High(x, start), len, j);
    BitOfHigh(x, start, j);
    WriteEffect(st, Exec(st, Bextr(z, d, rm, c)), z, d, Field(x, start, len));
  }

  lemma ControlBytes(ctl: nat, start: nat, len: nat, rest: nat)
    requires start < 256 && len < 256 && ctl == start + 256 * (len + 256 * rest)
    ensures Low(ctl, BYTE) == start && Low(High(ctl, BYTE), BYTE) == len
  {
    hide Low, High, Pow2;
    ByteRange();
    HighLowUnique(ctl, BYTE, len + 256 * rest, start);
    HighLowUnique(len + 256 * rest, BYTE, rest, len);
  }

  lemma BzhiEffect(st: State, z: Size, d: nat, rm: Operand, x: nat, index: nat, rest: nat, j: nat)
    requires |st.gpr| > RDX && Encodable(st, Bzhi(z, d, rm, x))
    requires index < 256 && st.gpr[x] == index + 256 * rest
    ensures var (n, st') := (Bits(z), Exec(st, Bzhi(z, d, rm, x)));
            && OnlyRegister(st, st', z, d)
            && (Bit(Get(st'.gpr, n, d), j) <==> j < index && Bit(Value(st.gpr, st.mem, n, rm), j))
            && (st'.zf <==> Get(st'.gpr, n, d) == 0) && (st'.sf <==> Bit(Get(st'.gpr, n, d), n - 1))
            && (st'.cf <==> index >= n) && !st'.of && st'.pf == st.pf
  {
    hide Low, High, Pow2, Put, OnlyRegister, Value, Bit;
    var v := Value(st.gpr, st.mem, Bits(z), rm);
    ByteRange();
    HighLowUnique(st.gpr[x], BYTE, rest, index);
    LowAtMost(v, index);
    BitOfLow(v, index, j);
    WriteEffect(st, Exec(st, Bzhi(z, d, rm, x)), z, d, Low(v, index));
  }

  /** The immediate counts modulo the width. */
  lemma RorxEffect(st: State, z: Size, d: nat, rm: Operand, imm8: nat, k: nat, rest: nat, j: nat)
    requires |st.gpr| > RDX && Encodable(st, Rorx(z, d, rm, imm8))
    requires k < Bits(z) && imm8 == k + Bits(z) * rest
    ensures var (n, st') := (Bits(z), Exec(st, Rorx(z, d, rm, imm8)));
            && st' == st.(gpr := st'.gpr) && OnlyRegister(st, st', z, d)
            && (Bit(Get(st'.gpr, n, d), j) <==>
                j < n && Bit(Value(st.gpr, st.mem, n, rm), if j + k < n then j + k else j + k - n))
  {
    hide Low, High, Pow2, Put, OnlyRegister, Value, Bit;
    var v := Value(st.gpr, st.mem, Bits(z), rm);
    CountIs(z, imm8, k, rest);
    RotateIsOr(Bits(z), v, k);
    BitOfRotate(Bits(z), v, k, j);
    WriteEffect(st, Exec(st, Rorx(z, d, rm, imm8)), z, d, RotateRight(Bits(z), v, k));
  }

  lemma CountIs(z: Size, imm8: nat, k: nat, rest: nat)
    requires z != Word && k < Bits(z) && imm8 == k + Bits(z) * rest
    ensures RotateCount(z, imm8) == k
  {
    hide Low;
    assert Pow2(5) == 32 && Pow2(6) == 64;
    LowUnique(imm8, if z == Qword then 6 else 5, rest, k);
  }

  /* ---------- lowest and highest bits ---------- */

  /** `j` is the position of the lowest set bit. */
  ghost predicate Lowest(x: nat, j: nat) {
    Bit(x, j) && forall i: nat :: i < j ==> !Bit(x, i)
  }

  lemma LowestIs(n: nat, x: nat, j: nat)
    requires x < Pow2(n)
    ensures Lowest(x, j) <==> x > 0 && j == TrailingZeros(n, x)
    ensures Bit(LowestBit(x), j) <==> Lowest(x, j)
  {
    hide Bit, Pow2, TrailingZeros, LowestBit;
    var t := TrailingZeros(n, x);
    TrailingZerosMeaning(n, x, j);
    forall i: nat ensures i < t ==> !Bit(x, i) { TrailingZerosMeaning(n, x, i); }
    BitOfPow2(t, j);
    BitOfZero(j);
    LowestBitZero(x);
  }

  lemma BlsiEffect(st: State, z: Size, d: nat, rm: Operand, j: nat)
    requires |st.gpr| > RDX && Encodable(st, Blsi(z, d, rm))
    ensures var (n, x, st') := (Bits(z), Value(st.gpr, st.mem, Bits(z), rm), Exec(st, Blsi(z, d, rm)));
            && OnlyRegister(st, st', z, d)
            && (Bit(Get(st'.gpr, n, d), j) <==> Lowest(x, j))
            && (st'.zf <==> x == 0) && (st'.sf <==> Bit(Get(st'.gpr, n, d), n - 1))
            && (st'.cf <==> x != 0) && !st'.of && st'.pf == st.pf
  {
    hide Low, Pow2, Put, OnlyRegister, Value, Bit, Lowest, LowestBit;
    var x := Value(st.gpr, st.mem, Bits(z), rm);
    LowestIs(Bits(z), x, j);
    LowestBitZero(x);
    WriteEffect(st, Exec(st, Blsi(z, d, rm)), z, d, LowestBit(x));
  }

  lemma OnesToLowest(n: nat, x: nat, j: nat)
    requires x < Pow2(n)
    ensures var r := if x == 0 then Pow2(n) - 1 else 2 * LowestBit(x) - 1;
            r < Pow2(n) && (Bit(r, j) <==> j < n && forall i: nat :: i < j ==> !Bit(x, i))
  {
    hide Bit, Pow2, TrailingZeros, LowestBit;
    var t := TrailingZeros(n, x);
    TrailingZerosMeaning(n, x, j);
    if x == 0 {
      BitOfOnes(n, j);
      forall i: nat ensures !Bit(0, i) { BitOfZero(i); }
    } else {
      forall i: nat ensures i < t ==> !Bit(x, i) { TrailingZerosMeaning(n, x, i); }
      Pow2Step(t + 1);
      Pow2Monotone(t + 1, n);
      BitOfOnes(t + 1, j);
      assert 2 * LowestBit(x) - 1 == Pow2(t + 1) - 1;
      if j > t { assert Bit(x, t); }
    }
  }

  lemma BlsmskEffect(st: State, z: Size, d: nat, rm: Operand, j: nat)
    requires |st.gpr| > RDX && Encodable(st, Blsmsk(z, d, rm))
    ensures var (n, x, st') := (Bits(z), Value(st.gpr, st.mem, Bits(z), rm), Exec(st, Blsmsk(z, d, rm)));
            && OnlyRegister(st, st', z, d)
            && (Bit(Get(st'.gpr, n, d), j) <==> j < n && forall i: nat :: i < j ==> !Bit(x, i))
            && !st'.zf && (st'.sf <==> Bit(Get(st'.gpr, n, d), n - 1))
            && (st'.cf <==> x == 0) && !st'.of && st'.pf == st.pf
  {
    hide Low, Pow2, Put, OnlyRegister, Value, Bit, LowestBit;
    var n, x := Bits(z), Value(st.gpr, st.mem, Bits(z), rm);
    OnesToLowest(n, x, j);
    LowestBitZero(x);
    WriteEffect(st, Exec(st, Blsmsk(z, d, rm)), z, d, if x == 0 then Pow2(n) - 1 else 2 * LowestBit(x) - 1);
  }

  lemma BlsrEffect(st: State, z: Size, d: nat, rm: Operand, j: nat)
    requires |st.gpr| > RDX && Encodable(st, Blsr(z, d, rm))
    ensures var (n, x, st') := (Bits(z), Value(st.gpr, st.mem, Bits(z), rm), Exec(st, Blsr(z, d, rm)));
            && OnlyRegister(st, st', z, d)
            && (Bit(Get(st'.gpr, n, d), j) <==> Bit(x, j) && !Lowest(x, j))
            && (st'.zf <==> Get(st'.gpr, n, d) == 0) && (st'.sf <==> Bit(Get(st'.gpr, n, d), n - 1))
            && (st'.cf <==> x == 0) && !st'.of && st'.pf == st.pf
  {
    hide Low, Pow2, Put, OnlyRegister, Value, Bit, Lowest, LowestBit;
    var n, x := Bits(z), Value(st.gpr, st.mem, Bits(z), rm);
    LowestIs(n, x, j);
    LowestBitZero(x);
    BitOfZero(j);
    if x > 0 { BitOfClearLowest(n, x, j); }
    WriteEffect(st, Exec(st, Blsr(z, d, rm)), z, d, x - LowestBit(x));
  }

  /** The position of the lowest set bit, or the width. */
  lemma TzcntEffect(st: State, z: Size, d: nat, rm: Operand)
    requires |st.gpr| > RDX && Encodable(st, Tzcnt(z, d, rm))
    ensures var (n, x, st') := (Bits(z), Value(st.gpr, st.mem, Bits(z), rm), Exec(st, Tzcnt(z, d, rm)));
            && OnlyRegister(st, st', z, d)
            && (if x == 0 then Get(st'.gpr, n, d) == n else Lowest(x, Get(st'.gpr, n, d)))
            && (st'.cf <==> x == 0) && (st'.zf <==> Bit(x, 0))
            && (st'.sf, st'.of, st'.pf) == (st.sf, st.of, st.pf)
  {
    hide Low, Pow2, Put, OnlyRegister, Value, Bit, TrailingZeros;
    var n, x := Bits(z), Value(st.gpr, st.mem, Bits(z), rm);
    var t := TrailingZeros(n, x);
    TrailingZerosMeaning(n, x, 0);
    LowestIs(n, x, t);
    BitOfZero(0);
    BelowPow2(n);
    WriteEffect(st, Exec(st, Tzcnt(z, d, rm)), z, d, t);
  }

  /** `j` is the position of the highest set bit. */
  ghost predicate Highest(x: nat, j: nat) {
    Bit(x, j) && forall i: nat :: i > j ==> !Bit(x, i)
  }

  lemma HighestIs(x: nat)
    requires x > 0
    ensures BitLength(x) > 0 && Highest(x, BitLength(x) - 1)
  {
    hide Bit, BitLength;
    var n := BitLength(x);
    LeadingBit(x);
    BitLengthRange(x, n);
    forall i: nat ensures i >= n ==> !Bit(x, i) {
      if i >= n { BitBeyond(x, n, i); }
    }
  }

  lemma LzcntEffect(st: State, z: Size, d: nat, rm: Operand)
    requires |st.gpr| > RDX && Encodable(st, Lzcnt(z, d, rm))
    ensures var (n, x, st') := (Bits(z), Value(st.gpr, st.mem, Bits(z), rm), Exec(st, Lzcnt(z, d, rm)));
            && OnlyRegister(st, st', z, d)
            && (if x == 0 then Get(st'.gpr, n, d) == n
                else Get(st'.gpr, n, d) < n && Highest(x, n - 1 - Get(st'.gpr, n, d)))
            && (st'.cf <==> x == 0) && (st'.zf <==> Bit(x, n - 1))
            && (st'.sf, st'.of, st'.pf) == (st.sf, st.of, st.pf)
  {
    hide Low, Pow2, Put, OnlyRegister, Value, LeadingZeroCount, Bit, BitLength, Highest;
    var n, x := Bits(z), Value(st.gpr, st.mem, Bits(z), rm);
    LeadingZeroCountMeaning(n, x);
    CountRange(n, x);
    BitLengthRange(x, n);
    BitLengthRange(x, 0);
    TopBitCounts(n, x);
    if x > 0 { HighestIs(x); }
    WriteEffect(st, Exec(st, Lzcnt(z, d, rm)), z, d, LeadingZeroCount(n, x));
  }

  lemma TopBitCounts(n: nat, x: nat)
    requires n > 0 && x < Pow2(n)
    ensures LeadingZeroCount(n, x) == 0 <==> Bit(x, n - 1)
  {}

  /** As its constructor has it BLSI differs in CF only, which is taken from the word at
      the new address if the operand was addressed by the destination. */
  lemma BlsiAsWritten(st: State, z: Size, d: nat, rm: Operand)
    requires |st.gpr| > RDX && Encodable(st, Blsi(z, d, rm))
    ensures var (n, st', manual) := (Bits(z), Written(st, Blsi(z, d, rm)), Exec(st, Blsi(z, d, rm)));
            && st' == manual.(cf := st'.cf)
            && (st'.cf <==> if rm == AtRegister(d) then Load(st.mem, n, st'.gpr[d]) != 0
                            else Value(st.gpr, st.mem, n, rm) != 0)
  {
    hide Low, Load, Pow2, LowestBit, Bit, Value, Reread;
    var n, x := Bits(z), Value(st.gpr, st.mem, Bits(z), rm);
    LowestBitZero(x);
    LowSmall(LowestBit(x), n);
    RereadCases(st.gpr, st.mem, n, d, LowestBit(x), rm);
  }

  /** The same for LZCNT, whose count is the register read back as source; its new
      address keeps the bits above the width until CF has been taken. */
  lemma LzcntAsWritten(st: State, z: Size, d: nat, rm: Operand, upper: nat, low: nat)
    requires |st.gpr| > RDX && Encodable(st, Lzcnt(z, d, rm))
    requires low < Pow2(Bits(z)) && upper % Pow2(Bits(z)) == 0 && st.gpr[d] == upper + low
    ensures var (n, st', manual) := (Bits(z), Written(st, Lzcnt(z, d, rm)), Exec(st, Lzcnt(z, d, rm)));
            && st' == manual.(cf := st'.cf)
            && (st'.cf <==> if rm == InRegister(d) then Get(st'.gpr, n, d) == 0
                            else if rm == AtRegister(d) then Load(st.mem, n, upper + Get(st'.gpr, n, d)) == 0
                            else Value(st.gpr, st.mem, n, rm) == 0)
  {
    hide Low, High, Load, Pow2, LeadingZeroCount, Put, Bit, Value, Reread, OnlyRegister;
    var n, x := Bits(z), Value(st.gpr, st.mem, Bits(z), rm);
    var c := LeadingZeroCount(n, x);
    CountRange(n, x);
    UpperPart(n, st.gpr[d], upper, low, c);
    SubWriteParts(n, st.gpr[d], c);
    RereadCases(st.gpr, st.mem, n, d, SubWrite(n, st.gpr[d], c), rm);
    WriteEffect(st, Written(st, Lzcnt(z, d, rm)), z, d, c);
  }

  lemma UpperPart(n: nat, x: nat, upper: nat, low: nat, c: nat)
    requires low < Pow2(n) && upper % Pow2(n) == 0 && x == upper + low
    ensures SubWrite(n, x, c) == upper + c
  {
    hide Pow2, Low, High;
    var q := upper / Pow2(n);
    DivMod(upper, Pow2(n));
    DivNonNeg(upper, Pow2(n));
    HighLowUnique(x, n, q, low);
  }

  /* ---------- scatter and gather ---------- */

  /** Bit j of the destination is set iff j is in the mask and the source bit of its rank
      is set; nothing of the old destination is left. */
  lemma PdepEffect(st: State, z: Size, d: nat, s: nat, rm: Operand, j: nat)
    requires |st.gpr| > RDX && Encodable(st, Pdep(z, d, s, rm))
    ensures var (n, m, st') := (Bits(z), Value(st.gpr, st.mem, Bits(z), rm), Exec(st, Pdep(z, d, s, rm)));
            && st' == st.(gpr := st'.gpr) && OnlyRegister(st, st', z, d)
            && (Bit(Get(st'.gpr, n, d), j) <==> j < n && Bit(m, j) && Bit(Get(st.gpr, n, s), Rank(m, j)))
  {
    hide Low, Pow2, Put, OnlyRegister, Value, Bit, Rank, ManualDeposit;
    var n, m, x := Bits(z), Value(st.gpr, st.mem, Bits(z), rm), Get(st.gpr, Bits(z), s);
    BitOfManualDeposit(x, m, n, j);
    WriteEffect(st, Exec(st, Pdep(z, d, s, rm)), z, d, ManualDeposit(x, m, n));
  }

  /** The destination bit of the rank of a mask position is the source bit there; the
      bits from the number of mask positions on are clear. */
  lemma PextEffect(st: State, z: Size, d: nat, s: nat, rm: Operand, j: nat)
    requires |st.gpr| > RDX && Encodable(st, Pext(z, d, s, rm))
    ensures var (n, m, st') := (Bits(z), Value(st.gpr, st.mem, Bits(z), rm), Exec(st, Pext(z, d, s, rm)));
            && st' == st.(gpr := st'.gpr) && OnlyRegister(st, st', z, d)
            && (Bit(m, j) ==> Bit(Get(st'.gpr, n, d), Rank(m, j)) == Bit(Get(st.gpr, n, s), j))
            && (j >= Rank(m, n) ==> !Bit(Get(st'.gpr, n, d), j))
  {
    hide Low, Pow2, Put, OnlyRegister, Value, Bit, Rank, ManualExtract, Extract, PopCount;
    var n, m, x := Bits(z), Value(st.gpr, st.mem, Bits(z), rm), Get(st.gpr, Bits(z), s);
    ExtractIsManual(x, m, n);
    if Bit(m, j) { BitOfExtract(x, m, j); }
    ExtractBelow(x, m);
    PopCountIsRank(m, n);
    LowSmall(m, n);
    PopCountBelow(m, n);
    Pow2Monotone(PopCount(m), n);
    if j >= PopCount(m) { BitBeyond(Extract(x, m), PopCount(m), j); }
    WriteEffect(st, Exec(st, Pext(z, d, s, rm)), z, d, ManualExtract(x, m, n));
  }

  /* ---------- carry-less multiplication ---------- */

  /** The XOR, over i below `count`, of bit o1 + i of x and bit o2 + k - i of y, both
      within their quadwords. */
  predicate Products(x: nat, o1: nat, y: nat, o2: nat, k: nat, count: nat) {
    count > 0 &&
    Products(x, o1, y, o2, k, count - 1) !=
    (var i := count - 1; i <= k && k - i < 64 && Bit(x, o1 + i) && Bit(y, o2 + (k - i)))
  }

  lemma HalfBit(x: nat, high: bool, i: nat)
    ensures Bit(Half(x, high), i) <==> i < 64 && Bit(x, (if high then 64 else 0) + i)
  {
    hide Low, High, Bit;
    BitOfLow(High(x, QWORD), QWORD, i);
    BitOfHigh(x, QWORD, i);
    BitOfLow(x, QWORD, i);
  }

  lemma {:induction false} ProductsAreColumn(x: nat, h1: bool, y: nat, h2: bool, k: nat, count: nat)
    requires count <= 64 && count <= k + 1
    ensures Products(x, if h1 then 64 else 0, y, if h2 then 64 else 0, k, count)
         == Column(Half(x, h1), Half(y, h2), k, 0, count)
    decreases count
  {
    hide Bit, Half;
    if count == 0 {
    } else {
      var i := count - 1;
      ProductsAreColumn(x, h1, y, h2, k, i);
      ColumnSplit(Half(x, h1), Half(y, h2), k, 0, i, count);
      HalfBit(x, h1, i);
      HalfBit(y, h2, k - i);
    }
  }

  lemma {:induction false} NoMoreProducts(x: nat, o1: nat, y: nat, o2: nat, k: nat, count: nat)
    requires count >= k + 1
    ensures Products(x, o1, y, o2, k, count) == Products(x, o1, y, o2, k, k + 1)
    decreases count
  {
    hide Bit;
    if count == k + 1 {
    } else {
      NoMoreProducts(x, o1, y, o2, k, count - 1);
    }
  }

  /** Bit by bit, the product of two quadwords. */
  lemma QuadwordsMultiply(x: nat, h1: bool, y: nat, h2: bool, k: nat)
    ensures Bit(ClMul(Half(x, h1), Half(y, h2)), k)
        <==> Products(x, if h1 then 64 else 0, y, if h2 then 64 else 0, k, 64)
  {
    hide Bit, Half, ClMul, Column, Products;
    var a, b := Half(x, h1), Half(y, h2);
    BitOfClMul(a, b, k);
    if k < 64 {
      ProductsAreColumn(x, h1, y, h2, k, k + 1);
      NoMoreProducts(x, if h1 then 64 else 0, y, if h2 then 64 else 0, k, 64);
    } else {
      ProductsAreColumn(x, h1, y, h2, k, 64);
      forall j: nat | 64 <= j < k + 1 ensures !(Bit(a, j) && Bit(b, k - j)) {
        HalfBit(x, h1, j);
      }
      EmptyColumn(a, b, k, 64, k + 1);
      ColumnSplit(a, b, k, 0, 64, k + 1);
    }
  }

  /** Immediate bit 0 chooses the quadword of the first source, bit 4 that of the second;
      the upper half of the destination is cleared (VEX) or kept. */
  lemma PclmulqdqEffect(st: State, vex: bool, d: nat, a: nat, b: Operand, imm8: nat, k: nat)
    requires |st.gpr| > RDX && Encodable(st, Pclmulqdq(vex, d, a, b, imm8))
    ensures var st' := Exec(st, Pclmulqdq(vex, d, a, b, imm8));
            var o1, o2 := if imm8 % 2 == 1 then 64 else 0, if imm8 / 16 % 2 == 1 then 64 else 0;
            && st' == st.(vec := st'.vec) && |st'.vec| == |st.vec|
            && (forall r :: 0 <= r < |st.vec| && r != d ==> st'.vec[r] == st.vec[r])
            && (Bit(st'.vec[d], k) <==>
                if k < 128 then Products(st.vec[a], o1, VectorValue(st, b), o2, k, 64)
                else !vex && Bit(st.vec[d], k))
  {
    hide Low, High, Pow2, Bit, ClMul, Half, Products, VectorValue, SubWrite;
    var h1, h2 := Bit(imm8, 0), Bit(imm8, 4);
    ImmediateBits(imm8);
    var x, y := Low(st.vec[a], OWORD), VectorValue(st, b);
    var r := ClMul(Half(x, h1), Half(y, h2));
    ProductFits(x, h1, y, h2);
    QuadwordsMultiply(st.vec[a], h1, y, h2, k);
    LowHalves(st.vec[a], h1);
    if vex {
      if k >= 128 { BitBeyond(r, OWORD, k); }
    } else {
      BitOfSubWrite(OWORD, st.vec[d], r, k);
    }
  }

  lemma ImmediateBits(imm8: nat)
    ensures Bit(imm8, 0) <==> imm8 % 2 == 1
    ensures Bit(imm8, 4) <==> imm8 / 16 % 2 == 1
  {
    assert Pow2(4) == 16;
    BitIsHigh(imm8, 4);
  }

  lemma ProductFits(x: nat, h1: bool, y: nat, h2: bool)
    ensures ClMul(Half(x, h1), Half(y, h2)) < Pow2(OWORD)
  {
    hide Pow2, ClMul;
    ClMulBelow(Half(x, h1), Half(y, h2));
    Pow2Monotone(OWORD - 1, OWORD);
  }

  lemma LowHalves(x: nat, h: bool)
    ensures Half(Low(x, OWORD), h) == Half(x, h)
  {
    hide Low, High, Pow2, Bit, Half;
    forall i: nat ensures Bit(Half(Low(x, OWORD), h), i) == Bit(Half(x, h), i) {
      HalfBit(Low(x, OWORD), h, i);
      HalfBit(x, h, i);
      BitOfLow(x, OWORD, (if h then 64 else 0) + i);
    }
    BitExtensionality(Half(Low(x, OWORD), h), Half(x, h));
  }
}
