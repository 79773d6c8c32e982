/**
 The architectural state touched by the modelled instructions, and what the Intel
 manual (Volume 2, the "Operation" section of each instruction) says they do to it.
 Every source is read in the state before the instruction.
 */
module Isa {
  import opened Words
  import opened BitScatter
  import opened LowBit
  import opened LeadingZeros
  import opened Fields
  import opened Clmul

  /** The operand sizes of the general-register forms. */
  datatype Size = Word | Dword | Qword

  function Bits(z: Size): (n: nat)
    ensures n > 0
  {
    match z
    case Word => 2 * BYTE
    case Dword => DWORD
    case Qword => QWORD
  }

  const RDX: nat := 2

  type byte = b: nat | b < 256

  /** Memory by address.  None of the instructions writes it. */
  type Memory = nat -> byte

  /** General registers, vector registers and the flags these instructions assign. */
  datatype State = State(gpr: seq<nat>, vec: seq<nat>, mem: Memory,
                         cf: bool, zf: bool, sf: bool, of: bool, pf: bool)

  /** An r/m operand: a register, the word at the address a register holds, or the word
      at a sum of scaled registers (register and scale) and a displacement.  The first
      two are read through the register each time; the sum is computed once, before the
      instruction. */
  datatype Operand = InRegister(r: nat) | AtRegister(base: nat) | AtSum(terms: seq<(nat, nat)>, disp: nat)

  datatype Instr =
    | Adcx(z: Size, dst: nat, rm: Operand)
    | Adox(z: Size, dst: nat, rm: Operand)
    | Bextr(z: Size, dst: nat, rm: Operand, ctl: nat)
    | Blsi(z: Size, dst: nat, rm: Operand)
    | Blsmsk(z: Size, dst: nat, rm: Operand)
    | Blsr(z: Size, dst: nat, rm: Operand)
    | Lzcnt(z: Size, dst: nat, rm: Operand)
    | Tzcnt(z: Size, dst: nat, rm: Operand)
    | Bzhi(z: Size, dst: nat, rm: Operand, idx: nat)
    | Mulx(z: Size, hi: nat, lo: nat, rm: Operand)
    | Pdep(z: Size, dst: nat, src: nat, rm: Operand)
    | Pext(z: Size, dst: nat, src: nat, rm: Operand)
    | Rorx(z: Size, dst: nat, rm: Operand, imm8: nat)
    | Mov(z: Size, dst: nat, rm: Operand)
    | XorRegister(z: Size, dst: nat, rm: Operand)
    | Pclmulqdq(vex: bool, dst: nat, src1: nat, src2: Operand, imm8: nat)

  predicate RegistersOk(regs: seq<nat>, bits: nat) {
    forall r :: 0 <= r < |regs| ==> regs[r] < Pow2(bits)
  }

  predicate WellFormed(st: State) {
    |st.gpr| > RDX && RegistersOk(st.gpr, QWORD) && RegistersOk(st.vec, YWORD)
  }

  /** The registers of the operand exist. */
  predicate OperandOk(count: nat, rm: Operand) {
    match rm
    case InRegister(r) => r < count
    case AtRegister(base) => base < count
    case AtSum(terms, disp) => forall k :: 0 <= k < |terms| ==> terms[k].0 < count
  }

  /** The same for an operand that may be a vector register. */
  predicate VectorOperandOk(st: State, rm: Operand) {
    if rm.InRegister? then rm.r < |st.vec| else OperandOk(|st.gpr|, rm)
  }

  /** The value or the address of the operand depends on general register `r`. */
  predicate Reads(rm: Operand, r: nat) {
    match rm
    case InRegister(q) => q == r
    case AtRegister(base) => base == r
    case AtSum(terms, disp) => exists k :: 0 <= k < |terms| && terms[k].0 == r
  }

  /** The operands exist, and the instruction has a form of this width. */
  predicate Encodable(st: State, i: Instr) {
    var n := |st.gpr|;
    match i
    case Tzcnt(z, d, rm) => d < n && OperandOk(n, rm)
    case Lzcnt(z, d, rm) => d < n && OperandOk(n, rm)
    case Bextr(z, d, rm, c) => z != Word && d < n && c < n && OperandOk(n, rm)
    case Bzhi(z, d, rm, x) => z != Word && d < n && x < n && OperandOk(n, rm)
    case Mulx(z, hi, lo, rm) => z != Word && hi < n && lo < n && OperandOk(n, rm)
    case Pdep(z, d, s, rm) => z != Word && d < n && s < n && OperandOk(n, rm)
    case Pext(z, d, s, rm) => z != Word && d < n && s < n && OperandOk(n, rm)
    case Rorx(z, d, rm, imm) => z != Word && d < n && imm < 256 && OperandOk(n, rm)
    case Pclmulqdq(vex, d, a, b, imm) =>
      d < |st.vec| && a < |st.vec| && imm < 256 && VectorOperandOk(st, b) && (!vex ==> a == d)
    case _ => i.z != Word && i.dst < n && OperandOk(n, i.rm)
  }

  /* ---------- reading and writing operands ---------- */

  /** Reg16, Reg32 or Reg64: the low part of a general register. */
  function Get(gpr: seq<nat>, w: nat, r: nat): nat
    requires r < |gpr|
  {
    Low(gpr[r], w)
  }

  /** The little-endian word of `k` bytes at an address. */
  function Bytes(mem: Memory, a: nat, k: nat): (v: nat)
    ensures v < Pow2(BYTE * k)
    decreases k
  {
    if k == 0 then 0
    else
      var first, rest := mem(Low(a, QWORD)), Bytes(mem, a + 1, k - 1);
      BytesBelow(first, rest, k);
      first + 256 * rest
  }

  lemma BytesBelow(b: byte, rest: nat, k: nat)
    requires k > 0 && rest < Pow2(BYTE * (k - 1))
    ensures b + 256 * rest < Pow2(BYTE * k)
  {
    ByteRange();
    Pow2Add(BYTE, BYTE * (k - 1));
    BelowNext(b, rest, Pow2(BYTE * (k - 1)), 256);
  }

  /** The word of `w` bits at an address. */
  function Load(mem: Memory, w: nat, a: nat): (v: nat)
    ensures v < Pow2(w)
  {
    Pow2Monotone(BYTE * (w / BYTE), w);
    Bytes(mem, a, w / BYTE)
  }

  function ScaledSum(gpr: seq<nat>, terms: seq<(nat, nat)>): nat
    requires forall k :: 0 <= k < |terms| ==> terms[k].0 < |gpr|
  {
    if terms == [] then 0 else Product(gpr[terms[0].0], terms[0].1) + ScaledSum(gpr, terms[1..])
  }

  /** An operand of `w` bits. */
  function Value(gpr: seq<nat>, mem: Memory, w: nat, rm: Operand): (v: nat)
    requires OperandOk(|gpr|, rm)
    ensures v < Pow2(w)
  {
    match rm
    case InRegister(r) => Low(gpr[r], w)
    case AtRegister(base) => Load(mem, w, gpr[base])
    case AtSum(terms, disp) => Load(mem, w, Low(ScaledSum(gpr, terms) + disp, QWORD))
  }

  function VectorValue(st: State, rm: Operand): (v: nat)
    requires VectorOperandOk(st, rm)
    ensures v < Pow2(OWORD)
  {
    if rm.InRegister? then Low(st.vec[rm.r], OWORD) else Value(st.gpr, st.mem, OWORD, rm)
  }

  lemma {:induction false} SumDepends(gpr: seq<nat>, gpr': seq<nat>, terms: seq<(nat, nat)>)
    requires |gpr| == |gpr'| && forall k :: 0 <= k < |terms| ==> terms[k].0 < |gpr|
    requires forall k :: 0 <= k < |terms| ==> gpr[terms[k].0] == gpr'[terms[k].0]
    ensures ScaledSum(gpr, terms) == ScaledSum(gpr', terms)
    decreases |terms|
  {
    if terms == [] {
    } else {
      SumDepends(gpr, gpr', terms[1..]);
    }
  }

  /** An operand depends on the registers it reads, and on no other. */
  lemma ValueDepends(gpr: seq<nat>, gpr': seq<nat>, mem: Memory, w: nat, rm: Operand)
    requires |gpr| == |gpr'| && OperandOk(|gpr|, rm)
    requires forall r :: 0 <= r < |gpr| && Reads(rm, r) ==> gpr[r] == gpr'[r]
    ensures Value(gpr, mem, w, rm) == Value(gpr', mem, w, rm)
  {
    if rm.AtSum? {
      forall k | 0 <= k < |rm.terms| ensures gpr[rm.terms[k].0] == gpr'[rm.terms[k].0] {
        assert Reads(rm, rm.terms[k].0);
      }
      SumDepends(gpr, gpr', rm.terms);
    }
  }

  /** Replacing the low `w` bits. */
  function SubWrite(w: nat, x: nat, v: nat): nat {
    High(x, w) * Pow2(w) + v
  }

  lemma SubWriteParts(w: nat, x: nat, v: nat)
    requires v < Pow2(w)
    ensures Low(SubWrite(w, x, v), w) == v && High(SubWrite(w, x, v), w) == High(x, w)
  {
    HighLowUnique(SubWrite(w, x, v), w, High(x, w), v);
  }

  lemma BitOfSubWrite(w: nat, x: nat, v: nat, k: nat)
    requires v < Pow2(w)
    ensures Bit(SubWrite(w, x, v), k) == if k < w then Bit(v, k) else Bit(x, k)
  {
    hide Low, High, Pow2, Bit, SubWrite;
    var y := SubWrite(w, x, v);
    SubWriteParts(w, x, v);
    if k < w {
      BitOfLow(y, w, k);
    } else {
      BitOfHigh(y, w, k - w);
      BitOfHigh(x, w, k - w);
    }
  }

  /** Writing the low `w` bits of a `w`-bit register writes all of it. */
  lemma SubWriteWhole(w: nat, x: nat, v: nat)
    requires x < Pow2(w)
    ensures SubWrite(w, x, v) == v
  {
    HighLowPast(x, w, w);
  }

  /** A 32-bit result clears the upper half of its register, a 16-bit one keeps the
      rest of it. */
  function Put(gpr: seq<nat>, z: Size, r: nat, v: nat): seq<nat>
    requires r < |gpr|
  {
    gpr[r := if z == Word then SubWrite(Bits(z), gpr[r], v) else v]
  }

  /** The selected quadword of a vector operand. */
  function Half(x: nat, high: bool): (h: nat)
    ensures h < Pow2(QWORD)
  {
    if high then Low(High(x, QWORD), QWORD) else Low(x, QWORD)
  }

  /* ---------- the instructions ---------- */

  /** Add with carry through CF (ADCX) or OF (ADOX); no other flag is touched. */
  function ExecAdcx(st: State, z: Size, d: nat, rm: Operand): State
    requires d < |st.gpr| && OperandOk(|st.gpr|, rm)
  {
    var sum := Get(st.gpr, Bits(z), d) + Value(st.gpr, st.mem, Bits(z), rm) + BitValue(st.cf);
    st.(gpr := Put(st.gpr, z, d, Low(sum, Bits(z))), cf := sum >= Pow2(Bits(z)))
  }

  function ExecAdox(st: State, z: Size, d: nat, rm: Operand): State
    requires d < |st.gpr| && OperandOk(|st.gpr|, rm)
  {
    var sum := Get(st.gpr, Bits(z), d) + Value(st.gpr, st.mem, Bits(z), rm) + BitValue(st.of);
    st.(gpr := Put(st.gpr, z, d, Low(sum, Bits(z))), of := sum >= Pow2(Bits(z)))
  }

  /** CTL holds the start in bits 0-7 and the length in bits 8-15. */
  function ExecBextr(st: State, z: Size, d: nat, rm: Operand, c: nat): State
    requires d < |st.gpr| && c < |st.gpr| && OperandOk(|st.gpr|, rm)
  {
    var r := Field(Value(st.gpr, st.mem, Bits(z), rm), Low(st.gpr[c], BYTE), Low(High(st.gpr[c], BYTE), BYTE));
    st.(gpr := Put(st.gpr, z, d, r), zf := r == 0, of := false, cf := false)
  }

  function ExecBlsi(st: State, z: Size, d: nat, rm: Operand): State
    requires d < |st.gpr| && OperandOk(|st.gpr|, rm)
  {
    var x := Value(st.gpr, st.mem, Bits(z), rm);
    var r := LowestBit(x);
    st.(gpr := Put(st.gpr, z, d, r), zf := r == 0, sf := Bit(r, Bits(z) - 1), cf := x != 0, of := false)
  }

  function ExecBlsmsk(st: State, z: Size, d: nat, rm: Operand): State
    requires d < |st.gpr| && OperandOk(|st.gpr|, rm)
  {
    var x := Value(st.gpr, st.mem, Bits(z), rm);
    var r := if x == 0 then Pow2(Bits(z)) - 1 else 2 * LowestBit(x) - 1;
    st.(gpr := Put(st.gpr, z, d, r), zf := false, sf := Bit(r, Bits(z) - 1), cf := x == 0, of := false)
  }

  function ExecBlsr(st: State, z: Size, d: nat, rm: Operand): State
    requires d < |st.gpr| && OperandOk(|st.gpr|, rm)
  {
    var x := Value(st.gpr, st.mem, Bits(z), rm);
    var r := x - LowestBit(x);
    st.(gpr := Put(st.gpr, z, d, r), zf := r == 0, sf := Bit(r, Bits(z) - 1), cf := x == 0, of := false)
  }

  function ExecLzcnt(st: State, z: Size, d: nat, rm: Operand): State
    requires d < |st.gpr| && OperandOk(|st.gpr|, rm)
  {
    var c := LeadingZeroCount(Bits(z), Value(st.gpr, st.mem, Bits(z), rm));
    st.(gpr := Put(st.gpr, z, d, c), cf := c == Bits(z), zf := c == 0)
  }

  function ExecTzcnt(st: State, z: Size, d: nat, rm: Operand): State
    requires d < |st.gpr| && OperandOk(|st.gpr|, rm)
  {
    var c := TrailingZeros(Bits(z), Value(st.gpr, st.mem, Bits(z), rm));
    st.(gpr := Put(st.gpr, z, d, c), cf := c == Bits(z), zf := c == 0)
  }

  function ExecBzhi(st: State, z: Size, d: nat, rm: Operand, x: nat): State
    requires d < |st.gpr| && x < |st.gpr| && OperandOk(|st.gpr|, rm)
  {
    var n := Low(st.gpr[x], BYTE);
    var r := Low(Value(st.gpr, st.mem, Bits(z), rm), n);
    st.(gpr := Put(st.gpr, z, d, r), zf := r == 0, sf := Bit(r, Bits(z) - 1), cf := n > Bits(z) - 1, of := false)
  }

  /** RDX times the operand; the high half is stored last. */
  function ExecMulx(st: State, z: Size, hi: nat, lo: nat, rm: Operand): State
    requires |st.gpr| > RDX && hi < |st.gpr| && lo < |st.gpr| && OperandOk(|st.gpr|, rm)
  {
    var p := Product(Get(st.gpr, Bits(z), RDX), Value(st.gpr, st.mem, Bits(z), rm));
    st.(gpr := Put(Put(st.gpr, z, lo, Low(p, Bits(z))), z, hi, High(p, Bits(z))))
  }

  function ExecPdep(st: State, z: Size, d: nat, s: nat, rm: Operand): State
    requires d < |st.gpr| && s < |st.gpr| && OperandOk(|st.gpr|, rm)
  {
    st.(gpr := Put(st.gpr, z, d, ManualDeposit(Get(st.gpr, Bits(z), s), Value(st.gpr, st.mem, Bits(z), rm), Bits(z))))
  }

  function ExecPext(st: State, z: Size, d: nat, s: nat, rm: Operand): State
    requires d < |st.gpr| && s < |st.gpr| && OperandOk(|st.gpr|, rm)
  {
    st.(gpr := Put(st.gpr, z, d, ManualExtract(Get(st.gpr, Bits(z), s), Value(st.gpr, st.mem, Bits(z), rm), Bits(z))))
  }

  /** Five or six bits of the immediate count. */
  function RotateCount(z: Size, imm8: nat): (k: nat)
    ensures k < Bits(z)
  {
    var k := if z == Qword then 6 else if z == Dword then 5 else 4;
    assert Pow2(4) == 16 && Pow2(5) == 32 && Pow2(6) == 64;
    Low(imm8, k)
  }

  function ExecRorx(st: State, z: Size, d: nat, rm: Operand, imm8: nat): State
    requires d < |st.gpr| && OperandOk(|st.gpr|, rm)
  {
    st.(gpr := Put(st.gpr, z, d, RotateRight(Bits(z), Value(st.gpr, st.mem, Bits(z), rm), RotateCount(z, imm8))))
  }

  function ExecMov(st: State, z: Size, d: nat, rm: Operand): State
    requires d < |st.gpr| && OperandOk(|st.gpr|, rm)
  {
    st.(gpr := Put(st.gpr, z, d, Value(st.gpr, st.mem, Bits(z), rm)))
  }

  /** PF is the even parity of the low byte. */
  function ExecXor(st: State, z: Size, d: nat, rm: Operand): State
    requires d < |st.gpr| && OperandOk(|st.gpr|, rm)
  {
    var r := Xor(Get(st.gpr, Bits(z), d), Value(st.gpr, st.mem, Bits(z), rm));
    st.(gpr := Put(st.gpr, z, d, r), cf := false, of := false,
        zf := r == 0, sf := Bit(r, Bits(z) - 1), pf := PopCount(Low(r, BYTE)) % 2 == 0)
  }

  /** Immediate bits 0 and 4 select the quadwords; the VEX form clears the upper half
      of the destination, the other form keeps it. */
  function ExecPclmulqdq(st: State, vex: bool, d: nat, a: nat, b: Operand, imm8: nat): State
    requires d < |st.vec| && a < |st.vec| && VectorOperandOk(st, b)
  {
    var r := ClMul(Half(Low(st.vec[a], OWORD), Bit(imm8, 0)), Half(VectorValue(st, b), Bit(imm8, 4)));
    st.(vec := st.vec[d := if vex then r else SubWrite(OWORD, st.vec[d], r)])
  }

  function Exec(st: State, i: Instr): (st': State)
    requires Encodable(st, i) && |st.gpr| > RDX
  {
    match i
    case Adcx(z, d, rm) => ExecAdcx(st, z, d, rm)
    case Adox(z, d, rm) => ExecAdox(st, z, d, rm)
    case Bextr(z, d, rm, c) => ExecBextr(st, z, d, rm, c)
    case Blsi(z, d, rm) => ExecBlsi(st, z, d, rm)
    case Blsmsk(z, d, rm) => ExecBlsmsk(st, z, d, rm)
    case Blsr(z, d, rm) => ExecBlsr(st, z, d, rm)
    case Lzcnt(z, d, rm) => ExecLzcnt(st, z, d, rm)
    case Tzcnt(z, d, rm) => ExecTzcnt(st, z, d, rm)
    case Bzhi(z, d, rm, x) => ExecBzhi(st, z, d, rm, x)
    case Mulx(z, hi, lo, rm) => ExecMulx(st, z, hi, lo, rm)
    case Pdep(z, d, s, rm) => ExecPdep(st, z, d, s, rm)
    case Pext(z, d, s, rm) => ExecPext(st, z, d, s, rm)
    case Rorx(z, d, rm, imm) => ExecRorx(st, z, d, rm, imm)
    case Mov(z, d, rm) => ExecMov(st, z, d, rm)
    case XorRegister(z, d, rm) => ExecXor(st, z, d, rm)
    case Pclmulqdq(vex, d, a, b, imm) => ExecPclmulqdq(st, vex, d, a, b, imm)
  }

  /** The same registers exist, and memory is the same. */
  ghost predicate SameShape(st: State, st': State) {
    |st'.gpr| == |st.gpr| && |st'.vec| == |st.vec| && st'.mem == st.mem
  }

  lemma ExecKeepsShape(st: State, i: Instr)
    requires Encodable(st, i) && |st.gpr| > RDX
    ensures SameShape(st, Exec(st, i))
  {
    hide Low, Pow2;
  }

  lemma ShapeDecidesEncodable(st: State, st': State, i: Instr)
    requires SameShape(st, st')
    ensures Encodable(st, i) <==> Encodable(st', i)
  {}

  predicate Loadable(st: State, program: seq<Instr>) {
    |st.gpr| > RDX && forall k :: 0 <= k < |program| ==> Encodable(st, program[k])
  }

  lemma LoadableRest(st: State, program: seq<Instr>)
    requires program != [] && Loadable(st, program)
    ensures Loadable(Exec(st, program[0]), program[1..])
  {
    var next := Exec(st, program[0]);
    ExecKeepsShape(st, program[0]);
    forall k | 0 <= k < |program| - 1 ensures Encodable(next, program[1..][k]) {
      ShapeDecidesEncodable(st, next, program[k + 1]);
    }
  }

  /** Executing a program, first instruction first. */
  function Run(st: State, program: seq<Instr>): State
    requires Loadable(st, program)
    decreases |program|
  {
    if program == [] then st
    else
      LoadableRest(st, program);
      Run(Exec(st, program[0]), program[1..])
  }
}
