/**
 Short instruction sequences: a scatter undone by a gather, the loop over the set
 bits of a register, and a wide carry-less product from the quadword products.
 */
module Programs {
  import opened Words
  import opened BitScatter
  import opened LowBit
  import opened Clmul
  import opened Isa
  import opened Rereads
  import opened BigInteger
  import opened Machine

  lemma GetBelow(st: State, z: Size, rm: Operand)
    requires OperandOk(|st.gpr|, rm)
    ensures Value(st.gpr, st.mem, Bits(z), rm) < Pow2(Bits(z))
  {}

  lemma ReadBack(gpr: seq<nat>, z: Size, r: nat, v: nat)
    requires r < |gpr| && z != Word && v < Pow2(Bits(z))
    ensures Get(Put(gpr, z, r, v), Bits(z), r) == v
  {
    LowSmall(v, Bits(z));
  }

  lemma ValueIsGet(gpr: seq<nat>, mem: Memory, z: Size, r: nat)
    requires r < |gpr|
    ensures Value(gpr, mem, Bits(z), InRegister(r)) == Get(gpr, Bits(z), r)
  {}

  lemma PutEffect(gpr: seq<nat>, z: Size, r: nat, v: nat)
    requires r < |gpr| && z != Word && v < Pow2(Bits(z)) && RegistersOk(gpr, QWORD)
    ensures |Put(gpr, z, r, v)| == |gpr| && RegistersOk(Put(gpr, z, r, v), QWORD)
    ensures forall q :: 0 <= q < |gpr| ==>
              Get(Put(gpr, z, r, v), Bits(z), q) == if q == r then v else Get(gpr, Bits(z), q)
  {
    hide Low, Pow2;
    LowSmall(v, Bits(z));
    SizesFit(z);
  }

  /** PDEP into a register and PEXT from it under the same mask give back the low
      popcount(mask) bits of the source; the two other registers may coincide with
      each other and with the mask. */
  lemma GatherAfterScatter(st: State, z: Size, d: nat, t: nat, s: nat, mask: Operand)
    requires WellFormed(st) && z != Word && d < |st.gpr| && t < |st.gpr| && s < |st.gpr|
    requires OperandOk(|st.gpr|, mask) && !Reads(mask, t)
    ensures var st' := ExecPext(ExecPdep(st, z, t, s, mask), z, d, t, mask);
            var m := Value(st.gpr, st.mem, Bits(z), mask);
            && Get(st'.gpr, Bits(z), d) == Low(Get(st.gpr, Bits(z), s), PopCount(m))
            && st' == st.(gpr := st'.gpr)
  {
    hide Low, Pow2, ManualDeposit, ManualExtract, PopCount, Value, Reads;
    var n, m, x := Bits(z), Value(st.gpr, st.mem, Bits(z), mask), Get(st.gpr, Bits(z), s);
    GetBelow(st, z, mask);
    BitOfManualDeposit(x, m, n, 0);
    ReadBack(st.gpr, z, t, ManualDeposit(x, m, n));
    var mid := ExecPdep(st, z, t, s, mask);
    ValueDepends(st.gpr, mid.gpr, st.mem, n, mask);
    PextOfPdep(n, x, m);
    LowAtMost(x, PopCount(m));
    ReadBack(mid.gpr, z, d, Low(x, PopCount(m)));
  }

  /* ---------- the set-bit loop ---------- */

  /** One round of "TZCNT t, x; BLSI u, x; BLSR x, x". */
  function ScanRound(st: State, z: Size, t: nat, u: nat, x: nat): State
    requires t < |st.gpr| && u < |st.gpr| && x < |st.gpr|
  {
    ExecBlsr(ExecBlsi(ExecTzcnt(st, z, t, InRegister(x)), z, u, InRegister(x)), z, x, InRegister(x))
  }

  /** The registers of the loop exist and are different. */
  predicate ScanOk(st: State, z: Size, t: nat, u: nat, x: nat) {
    && WellFormed(st) && z != Word
    && t < |st.gpr| && u < |st.gpr| && x < |st.gpr| && t != u && t != x && u != x
  }

  lemma ScanRoundEffect(st: State, z: Size, t: nat, u: nat, x: nat)
    requires ScanOk(st, z, t, u, x)
    ensures var (n, v, st') := (Bits(z), Get(st.gpr, Bits(z), x), ScanRound(st, z, t, u, x));
            && v < Pow2(n)
            && ScanOk(st', z, t, u, x)
            && Get(st'.gpr, n, t) == TrailingZeros(n, v)
            && Get(st'.gpr, n, u) == LowestBit(v)
            && Get(st'.gpr, n, x) == v - LowestBit(v)
            && (st'.zf <==> v - LowestBit(v) == 0)
  {
    hide Low, High, Pow2, TrailingZeros, LowestBit, Bit, Put, Get, Value, RegistersOk;
    var n, v := Bits(z), Get(st.gpr, Bits(z), x);
    GetBelow(st, z, InRegister(x));
    ValueIsGet(st.gpr, st.mem, z, x);
    TrailingZerosMeaning(n, v, 0);
    BelowPow2(n);
    SizesFit(z);
    var s1 := ExecTzcnt(st, z, t, InRegister(x));
    PutEffect(st.gpr, z, t, TrailingZeros(n, v));
    ValueIsGet(s1.gpr, s1.mem, z, x);
    var s2 := ExecBlsi(s1, z, u, InRegister(x));
    PutEffect(s1.gpr, z, u, LowestBit(v));
    ValueIsGet(s2.gpr, s2.mem, z, x);
    PutEffect(s2.gpr, z, x, v - LowestBit(v));
  }

  lemma SizesFit(z: Size)
    ensures Pow2(Bits(z)) <= Pow2(QWORD)
  {
    Pow2Monotone(Bits(z), QWORD);
  }

  /** What registers `t` and `u` hold after each round of the loop "until x is zero". */
  ghost function ScanLoop(st: State, z: Size, t: nat, u: nat, x: nat): seq<(nat, nat)>
    requires ScanOk(st, z, t, u, x)
    decreases Get(st.gpr, Bits(z), x)
  {
    if Get(st.gpr, Bits(z), x) == 0 then []
    else
      ScanRoundEffect(st, z, t, u, x);
      var next := ScanRound(st, z, t, u, x);
      [(Get(next.gpr, Bits(z), t), Get(next.gpr, Bits(z), u))] + ScanLoop(next, z, t, u, x)
  }

  /** The loop visits exactly the set bits, in increasing order, one per round: first
      the position, then its power of two. */
  lemma {:induction false} ScanLoopVisitsSetBits(st: State, z: Size, t: nat, u: nat, x: nat)
    requires ScanOk(st, z, t, u, x)
    ensures var (v, rounds) := (Get(st.gpr, Bits(z), x), ScanLoop(st, z, t, u, x));
            && |rounds| == |ScanPositions(Bits(z), v)| == |ScanBits(v)|
            && forall k :: 0 <= k < |rounds| ==> rounds[k] == (ScanPositions(Bits(z), v)[k], ScanBits(v)[k])
    decreases Get(st.gpr, Bits(z), x)
  {
    hide Low, Pow2, TrailingZeros, LowestBit, ScanRound, WellFormed;
    if Get(st.gpr, Bits(z), x) == 0 {
    } else {
      ScanRoundEffect(st, z, t, u, x);
      ScanLoopVisitsSetBits(ScanRound(st, z, t, u, x), z, t, u, x);
    }
  }

  /* ---------- wide carry-less products ---------- */

  /** The result of the VEX form for one immediate. */
  function QuadwordProduct(st: State, d: nat, a: nat, b: nat, imm8: nat): nat
    requires d < |st.vec| && a < |st.vec| && b < |st.vec|
  {
    ExecPclmulqdq(st, true, d, a, InRegister(b), imm8).vec[d]
  }

  /** The four immediates 00H, 10H, 01H and 11H give, at their weights, the whole
      product of the two 128-bit registers. */
  lemma FourQuadwordProducts(st: State, d: nat, a: nat, b: nat)
    requires WellFormed(st) && d < |st.vec| && a < |st.vec| && b < |st.vec|
    ensures ClMul(Low(st.vec[a], OWORD), Low(st.vec[b], OWORD)) ==
            FourParts(QuadwordProduct(st, d, a, b, 0x00), QuadwordProduct(st, d, a, b, 0x10),
                      QuadwordProduct(st, d, a, b, 0x01), QuadwordProduct(st, d, a, b, 0x11), QWORD)
  {
    hide Low, High, Pow2, ClMul, FourParts, Bit;
    var x, y := Low(st.vec[a], OWORD), Low(st.vec[b], OWORD);
    ImmediateBits();
    TopQuadword(x);
    TopQuadword(y);
    ClMulOfHalves(x, y, QWORD);
  }

  lemma ImmediateBits()
    ensures !Bit(0x00, 0) && !Bit(0x00, 4) && Bit(0x01, 0) && !Bit(0x01, 4)
    ensures !Bit(0x10, 0) && Bit(0x10, 4) && Bit(0x11, 0) && Bit(0x11, 4)
  {}

  lemma TopQuadword(x: nat)
    requires x < Pow2(OWORD)
    ensures Low(High(x, QWORD), QWORD) == High(x, QWORD)
  {
    HighBelow(x, OWORD, QWORD);
    LowSmall(High(x, QWORD), QWORD);
  }

  /* ---------- long multiplication by the constructors ---------- */

  /** No instruction of the program reads its operand again after a write. */
  predicate NoRereads(program: seq<Instr>) {
    forall k :: 0 <= k < |program| ==> NoReread(program[k])
  }

  lemma {:induction false} RowNoRereads(acc: seq<nat>, hi: nat, lo: nat, a: seq<Operand>)
    requires |acc| == |a| + 1
    ensures NoRereads(MulRow(acc, hi, lo, a))
    decreases |a|
  {
    if a == [] {
    } else {
      RowNoRereads(acc[1..], hi, lo, a[1..]);
    }
  }

  lemma {:induction false} ProgramNoRereads(acc: seq<nat>, hi: nat, lo: nat, zero: nat, a: seq<Operand>, b: seq<Operand>)
    requires |acc| == |a| + |b|
    ensures NoRereads(MulProgram(acc, hi, lo, zero, a, b))
    decreases |b|
  {
    if b == [] {
    } else {
      var p := acc[..|a| + 1];
      RowNoRereads(p, hi, lo, a);
      assert NoRereads(MulRound(p, hi, lo, zero, a, b[0]));
      ProgramNoRereads(acc[1..], hi, lo, zero, a, b[1..]);
    }
  }

  /** The constructors of MULX, ADCX, ADOX, MOV and XOR, run on the registers and memory
      of a processor, multiply numbers of any length exactly. */
  method Multiply(cpu: Processor, acc: seq<nat>, hi: nat, lo: nat, zero: nat, a: seq<Operand>, b: seq<Operand>)
    requires cpu.Valid() && |acc| == |a| + |b| && FactorsOk(|cpu.gpr|, acc, hi, lo, zero, a, b)
    requires TopLimbsZero(cpu.gpr, acc, |a|)
    modifies cpu
    ensures cpu.Valid() && Untouched(old(cpu.Snapshot()), cpu.Snapshot(), [hi, lo, RDX, zero] + acc)
    ensures b != [] ==> !cpu.cf && !cpu.of
    ensures Number(cpu.gpr, acc)
            == old(Number(cpu.gpr, acc))
               + Product(old(OperandNumber(cpu.gpr, cpu.mem, a)), old(OperandNumber(cpu.gpr, cpu.mem, b)))
  {
    hide Run, RunWritten, MulProgram, Number, OperandNumber, Product, NoReread, RegistersOk, FactorsOk, TopLimbsZero;
    ghost var st := cpu.Snapshot();
    var program := MulProgram(acc, hi, lo, zero, a, b);
    MultiplicationExact(st, acc, hi, lo, zero, a, b);
    ProgramNoRereads(acc, hi, lo, zero, a, b);
    WithoutRereads(st, program);
    cpu.Execute(program);
  }
}
