/**
 The instruction constructors of the SLEIGH specification, statement by statement,
 over a processor whose registers and flags they assign.  Each is proved to do what
 the manual says (module Isa), whatever registers coincide.
 */
module Machine {
  import opened Words
  import opened BitScatter
  import opened LowBit
  import opened Fields
  import opened Clmul
  import opened Isa
  import opened LeadingZeros
  import opened Rereads

  /* ---------- facts about sub-registers ---------- */

  lemma LowOfLow(x: nat, k: nat)
    ensures Low(Low(x, k), k) == Low(x, k) && High(Low(x, k), k) == 0
  {
    HighLowPast(Low(x, k), k, k);
  }

  lemma SubWriteBelow(n: nat, w: nat, x: nat, v: nat)
    requires v < Pow2(w) && w <= n && x < Pow2(n)
    ensures SubWrite(w, x, v) < Pow2(n)
  {
    HighBelow(x, n, w);
    BelowNext(v, High(x, w), Pow2(n - w), Pow2(w));
    Pow2Add(n - w, w);
  }

  /** The assignment and the zero extension together are one architectural write. */
  lemma CheckedWrite(gpr: seq<nat>, z: Size, r: nat, v: nat)
    requires r < |gpr| && RegistersOk(gpr, QWORD) && v < Pow2(Bits(z))
    ensures var written := gpr[r := SubWrite(Bits(z), gpr[r], v)];
            (if z == Dword then written[r := Low(written[r], DWORD)] else written) == Put(gpr, z, r, v)
  {
    hide Low, High, Pow2;
    SubWriteParts(Bits(z), gpr[r], v);
    if z == Qword { SubWriteWhole(QWORD, gpr[r], v); }
  }

  lemma SignBit(w: nat, v: nat)
    requires w > 0 && v < Pow2(w)
    ensures IntSlessZero(w, v) <==> Bit(v, w - 1)
  {
    BitIsHigh(v, w - 1);
    if v >= Pow2(w - 1) {
      HighLowUnique(v, w - 1, 1, v - Pow2(w - 1));
    } else {
      HighLowPast(v, w - 1, w - 1);
    }
  }

  /** PCLMULLQLQDQ, PCLMULHQLQDQ, PCLMULLQHQDQ and PCLMULHQHQDQ: the first name is the
      quadword of the first source. */
  datatype PclmulForm = LqLq | HqLq | LqHq | HqHq {
    function Imm8(): nat {
      match this
      case LqLq => 0x00
      case HqLq => 0x01
      case LqHq => 0x10
      case HqHq => 0x11
    }
  }

  lemma FormSelects(form: PclmulForm)
    ensures Bit(form.Imm8(), 0) <==> form.HqLq? || form.HqHq?
    ensures Bit(form.Imm8(), 4) <==> form.LqHq? || form.HqHq?
  {
    assert Bit(0x10, 4) && Bit(0x11, 4) && !Bit(0x00, 4) && !Bit(0x01, 4);
  }

  lemma ClMulFits(a: nat, b: nat)
    requires a < Pow2(QWORD) && b < Pow2(QWORD)
    ensures ClMul(a, b) < Pow2(OWORD)
  {
    ClMulBelow(a, b);
    Pow2Monotone(OWORD - 1, OWORD);
  }

  class Processor {
    var gpr: seq<nat>
    var vec: seq<nat>
    const mem: Memory
    var cf: bool
    var zf: bool
    var sf: bool
    var of: bool
    var pf: bool

    constructor (st: State)
      ensures Snapshot() == st && (WellFormed(st) ==> Valid())
    {
      gpr, vec, mem := st.gpr, st.vec, st.mem;
      cf, zf, sf, of, pf := st.cf, st.zf, st.sf, st.of, st.pf;
    }

    function Snapshot(): State
      reads this
    {
      State(gpr, vec, mem, cf, zf, sf, of, pf)
    }

    ghost predicate Valid()
      reads this`gpr, this`vec
    {
      |gpr| > RDX && RegistersOk(gpr, QWORD) && RegistersOk(vec, YWORD)
    }

    /** The value of an r/m operand now: a register is read, or memory is loaded through
        the address.  A constructor that reads its operand after a write must read what
        was exported for it before the write (Exported). */
    function Read(z: Size, rm: Operand): (v: nat)
      requires Valid() && OperandOk(|gpr|, rm)
      reads this`gpr, this`vec
      ensures v == Value(gpr, mem, Bits(z), rm) < Pow2(Bits(z))
    {
      Value(gpr, mem, Bits(z), rm)
    }

    /** Assignment to Reg16, Reg32 or Reg64: the low part of a general register. */
    method Assign(z: Size, r: nat, v: nat)
      requires Valid() && r < |gpr| && v < Pow2(Bits(z))
      modifies this`gpr
      ensures Valid() && gpr == old(gpr)[r := SubWrite(Bits(z), old(gpr[r]), v)]
      ensures Low(gpr[r], Bits(z)) == v
    {
      SubWriteBelow(QWORD, Bits(z), gpr[r], v);
      SubWriteParts(Bits(z), gpr[r], v);
      gpr := gpr[r := SubWrite(Bits(z), gpr[r], v)];
    }

    /** check_Reg32_dest and check_vexVVVV_r32_dest: zero extension after a 32-bit
        destination; the 16- and 64-bit constructors build nothing. */
    method BuildCheckDest(z: Size, r: nat)
      requires Valid() && r < |gpr|
      modifies this`gpr
      ensures Valid()
      ensures gpr == if z == Dword then old(gpr)[r := Low(old(gpr[r]), DWORD)] else old(gpr)
    {
      if z == Dword {
        Pow2Monotone(DWORD, QWORD);
        gpr := gpr[r := Low(gpr[r], DWORD)];
      }
    }

    /** The two together. */
    method AssignChecked(z: Size, r: nat, v: nat)
      requires Valid() && r < |gpr| && v < Pow2(Bits(z))
      modifies this`gpr
      ensures Valid() && gpr == Put(old(gpr), z, r, v)
      ensures Low(gpr[r], Bits(z)) == v
    {
      hide Low, High, Pow2, SubWrite, Put;
      CheckedWrite(gpr, z, r, v);
      Assign(z, r, v);
      BuildCheckDest(z, r);
      LowOfLow(v, Bits(z));
      HighLowPast(v, Bits(z), Bits(z));
    }

    /** The ZF and SF statements that read the register just written. */
    method ZeroAndSign(z: Size, reg: nat)
      requires Valid() && reg < |gpr|
      modifies this`zf, this`sf
      ensures zf == (Low(gpr[reg], Bits(z)) == 0)
      ensures sf == Bit(Low(gpr[reg], Bits(z)), Bits(z) - 1)
    {
      SignBit(Bits(z), Low(gpr[reg], Bits(z)));
      zf := Low(gpr[reg], Bits(z)) == 0;
      sf := IntSlessZero(Bits(z), Low(gpr[reg], Bits(z)));
    }

    /* ---------- adx.sinc ---------- */

    method Adcx(z: Size, reg: nat, rm: Operand)
      requires Valid() && z != Word && reg < |gpr| && OperandOk(|gpr|, rm)
      modifies this
      ensures Valid() && Snapshot() == ExecAdcx(old(Snapshot()), z, reg, rm)
    {
      hide Low, High, Pow2, RegistersOk, Value;
      AddWithCarry(Bits(z), Low(gpr[reg], Bits(z)), Read(z, rm), BitValue(cf));
      var tmp := IntAdd(Bits(z) + BYTE, IntAdd(Bits(z) + BYTE, Low(gpr[reg], Bits(z)), Read(z, rm)), BitValue(cf));
      var tmpCF := Low(High(tmp, Bits(z)), BYTE);
      cf := tmpCF != 0;
      AssignChecked(z, reg, Low(tmp, Bits(z)));
    }

    method Adox(z: Size, reg: nat, rm: Operand)
      requires Valid() && z != Word && reg < |gpr| && OperandOk(|gpr|, rm)
      modifies this
      ensures Valid() && Snapshot() == ExecAdox(old(Snapshot()), z, reg, rm)
    {
      hide Low, High, Pow2, RegistersOk, Value;
      AddWithCarry(Bits(z), Low(gpr[reg], Bits(z)), Read(z, rm), BitValue(of));
      var tmp := IntAdd(Bits(z) + BYTE, IntAdd(Bits(z) + BYTE, Low(gpr[reg], Bits(z)), Read(z, rm)), BitValue(of));
      var tmpOF := Low(High(tmp, Bits(z)), BYTE);
      of := tmpOF != 0;
      AssignChecked(z, reg, Low(tmp, Bits(z)));
    }

    /* ---------- bmi1.sinc ---------- */

    method Bextr(z: Size, reg: nat, rm: Operand, vexVVVV: nat)
      requires Valid() && z != Word && reg < |gpr| && vexVVVV < |gpr|
      requires OperandOk(|gpr|, rm)
      modifies this
      ensures Valid() && Snapshot() == ExecBextr(old(Snapshot()), z, reg, rm, vexVVVV)
    {
      hide Low, High, Pow2, RegistersOk, Value;
      var sourceTmp := Low(gpr[vexVVVV], BYTE);
      var lengthTmp := Low(High(gpr[vexVVVV], BYTE), BYTE);
      BextrValue(Bits(z), Read(z, rm), sourceTmp, lengthTmp);
      FieldBelow(Bits(z), Read(z, rm), sourceTmp, lengthTmp);
      var v := And(IntRight(Bits(z), Read(z, rm), sourceTmp), IntSub(Bits(z), IntLeft(Bits(z), 1, lengthTmp), 1));
      AssignChecked(z, reg, v);
      zf := Low(gpr[reg], Bits(z)) == 0;
      of := false;
      cf := false;
    }

    /** CF is computed from the operand read again after the destination has been
        written, which may be the source, or the register that holds its address. */
    method Blsi(z: Size, vexVVVV: nat, rm: Operand)
      requires Valid() && z != Word && vexVVVV < |gpr| && OperandOk(|gpr|, rm)
      modifies this
      ensures Valid() && Snapshot() == WrittenBlsi(old(Snapshot()), z, vexVVVV, rm)
    {
      hide Low, High, Pow2, And, LowestBit, Bit, IntNeg, RegistersOk, Value;
      var operand := Exported(gpr, rm);
      ExportedKeepsValue(gpr, mem, Bits(z), rm);
      BlsiValue(Bits(z), Read(z, operand));
      AssignChecked(z, vexVVVV, And(IntNeg(Bits(z), Read(z, operand)), Read(z, operand)));
      ZeroAndSign(z, vexVVVV);
      cf := Read(z, operand) != 0;
      of := false;
    }

    method Blsmsk(z: Size, vexVVVV: nat, rm: Operand)
      requires Valid() && z != Word && vexVVVV < |gpr| && OperandOk(|gpr|, rm)
      modifies this
      ensures Valid() && Snapshot() == ExecBlsmsk(old(Snapshot()), z, vexVVVV, rm)
    {
      hide Low, High, Pow2, Xor, LowestBit, Bit, SubWrite, Put, IntSlessZero, RegistersOk, Value;
      cf := Read(z, rm) == 0;
      var v := Xor(IntSub(Bits(z), Read(z, rm), 1), Read(z, rm));
      BlsmskValue(Bits(z), Read(z, rm));
      XorBelow(IntSub(Bits(z), Read(z, rm), 1), Read(z, rm), Bits(z));
      CheckedWrite(gpr, z, vexVVVV, v);
      SignBit(Bits(z), v);
      Assign(z, vexVVVV, v);
      sf := IntSlessZero(Bits(z), Low(gpr[vexVVVV], Bits(z)));
      BuildCheckDest(z, vexVVVV);
      zf := false;
      of := false;
    }

    method Blsr(z: Size, vexVVVV: nat, rm: Operand)
      requires Valid() && z != Word && vexVVVV < |gpr| && OperandOk(|gpr|, rm)
      modifies this
      ensures Valid() && Snapshot() == ExecBlsr(old(Snapshot()), z, vexVVVV, rm)
    {
      hide Low, High, Pow2, And, LowestBit, Bit, IntSub, RegistersOk, Value;
      cf := Read(z, rm) == 0;
      BlsrValue(Bits(z), Read(z, rm));
      var v := And(IntSub(Bits(z), Read(z, rm), 1), Read(z, rm));
      AssignChecked(z, vexVVVV, v);
      ZeroAndSign(z, vexVVVV);
      of := false;
    }

    method Tzcnt(z: Size, reg: nat, rm: Operand)
      requires Valid() && reg < |gpr| && OperandOk(|gpr|, rm)
      modifies this
      ensures Valid() && Snapshot() == ExecTzcnt(old(Snapshot()), z, reg, rm)
    {
      hide Low, High, Pow2, RegistersOk, Value;
      var countTmp := TzcntLoop(Bits(z), Read(z, rm));
      TrailingZerosMeaning(Bits(z), Read(z, rm), 0);
      BelowPow2(Bits(z));
      zf := countTmp == 0;
      cf := Read(z, rm) == 0;
      AssignChecked(z, reg, countTmp);
    }

    /* ---------- bmi2.sinc ---------- */

    method Bzhi(z: Size, reg: nat, rm: Operand, vexVVVV: nat)
      requires Valid() && z != Word && reg < |gpr| && vexVVVV < |gpr|
      requires OperandOk(|gpr|, rm)
      modifies this
      ensures Valid() && Snapshot() == ExecBzhi(old(Snapshot()), z, reg, rm, vexVVVV)
    {
      hide Low, High, Pow2, RegistersOk, Value;
      var indexTmp := Low(gpr[vexVVVV], BYTE);
      var shift := IntMult(BYTE, BitValue(indexTmp <= Bits(z)), IntSub(BYTE, Bits(z), indexTmp));
      BzhiValue(Bits(z), Read(z, rm), indexTmp);
      LowAtMost(Read(z, rm), indexTmp);
      AssignChecked(z, reg, IntRight(Bits(z), IntLeft(Bits(z), Read(z, rm), shift), shift));
      ZeroAndSign(z, reg);
      cf := indexTmp > Bits(z) - 1;
      of := false;
    }

    method Mulx(z: Size, reg: nat, vexVVVV: nat, rm: Operand)
      requires Valid() && z != Word && reg < |gpr| && vexVVVV < |gpr|
      requires OperandOk(|gpr|, rm)
      modifies this
      ensures Valid() && Snapshot() == ExecMulx(old(Snapshot()), z, reg, vexVVVV, rm)
    {
      hide Low, High, Pow2, RegistersOk, Value;
      var temp := IntMult(2 * Bits(z), Low(gpr[RDX], Bits(z)), Read(z, rm));
      WideProduct(Bits(z), Low(gpr[RDX], Bits(z)), Read(z, rm));
      AssignChecked(z, vexVVVV, Low(temp, Bits(z)));
      AssignChecked(z, reg, High(temp, Bits(z)));
    }

    method Pdep(z: Size, reg: nat, vexVVVV: nat, rm: Operand)
      requires Valid() && z != Word && reg < |gpr| && vexVVVV < |gpr|
      requires OperandOk(|gpr|, rm)
      modifies this
      ensures Valid() && Snapshot() == ExecPdep(old(Snapshot()), z, reg, vexVVVV, rm)
    {
      hide Low, High, Pow2, RegistersOk, Value;
      var resultTmp := PdepLoop(Bits(z), Low(gpr[vexVVVV], Bits(z)), Read(z, rm));
      BitOfManualDeposit(Low(gpr[vexVVVV], Bits(z)), Read(z, rm), Bits(z), 0);
      AssignChecked(z, reg, resultTmp);
    }

    /** The 32-bit form zero-extends its destination before writing it. */
    method Pext(z: Size, reg: nat, vexVVVV: nat, rm: Operand)
      requires Valid() && z != Word && reg < |gpr| && vexVVVV < |gpr|
      requires OperandOk(|gpr|, rm)
      modifies this
      ensures Valid() && Snapshot() == ExecPext(old(Snapshot()), z, reg, vexVVVV, rm)
    {
      hide Low, High, Pow2, ManualExtract, Value;
      var resultTmp := PextLoop(Bits(z), Low(gpr[vexVVVV], Bits(z)), Read(z, rm));
      ManualExtractBelow(Low(gpr[vexVVVV], Bits(z)), Read(z, rm), Bits(z));
      BuildCheckDest(z, reg);
      if z == Dword { LowOfLow(old(gpr[reg]), DWORD); } else { SubWriteWhole(QWORD, gpr[reg], resultTmp); }
      Assign(z, reg, resultTmp);
    }

    method Rorx(z: Size, reg: nat, rm: Operand, imm8: nat)
      requires Valid() && z != Word && reg < |gpr| && imm8 < 256 && OperandOk(|gpr|, rm)
      modifies this
      ensures Valid() && Snapshot() == ExecRorx(old(Snapshot()), z, reg, rm, imm8)
    {
      hide Low, High, Pow2, RegistersOk, Value;
      var shiftTmp := And(imm8, if z == Dword then 0x1F else 0x3F);
      ShiftMask(z, imm8);
      RorxValue(Bits(z), Read(z, rm), shiftTmp);
      RotateIsOr(Bits(z), Read(z, rm), shiftTmp);
      AssignChecked(z, reg,
        Or(IntRight(Bits(z), Read(z, rm), shiftTmp), IntLeft(Bits(z), Read(z, rm), IntSub(BYTE, Bits(z), shiftTmp))));
    }

    /* ---------- lzcnt.sinc ---------- */

    /** The flag macro reads both the destination and the source after the write. */
    method Lzcnt(z: Size, reg: nat, rm: Operand)
      requires Valid() && reg < |gpr| && OperandOk(|gpr|, rm)
      modifies this
      ensures Valid() && Snapshot() == WrittenLzcnt(old(Snapshot()), z, reg, rm)
    {
      hide Low, High, Pow2, LeadingZeroCount, SubWrite, Put, RegistersOk, Value;
      var operand := Exported(gpr, rm);
      ExportedKeepsValue(gpr, mem, Bits(z), rm);
      LzcountFits(z, Read(z, operand));
      var count := CountLeadingZeros(6, Read(z, operand));
      CheckedWrite(gpr, z, reg, count - (QWORD - Bits(z)));
      Assign(z, reg, count - (QWORD - Bits(z)));
      zf := Low(gpr[reg], Bits(z)) == 0;
      cf := Read(z, operand) == 0;
      BuildCheckDest(z, reg);
    }

    /* ---------- pclmulqdq.sinc ---------- */

    /** XmmReg1 = temp, and YmmReg1 = zext(XmmReg1) in the VEX constructors. */
    method AssignXmm(vex: bool, reg: nat, v: nat)
      requires Valid() && reg < |vec| && v < Pow2(OWORD)
      modifies this`vec
      ensures Valid()
      ensures vec == old(vec)[reg := if vex then v else SubWrite(OWORD, old(vec[reg]), v)]
    {
      Pow2Monotone(OWORD, YWORD);
      SubWriteBelow(YWORD, OWORD, vec[reg], v);
      SubWriteParts(OWORD, vec[reg], v);
      vec := vec[reg := SubWrite(OWORD, vec[reg], v)];
      if vex { vec := vec[reg := Low(vec[reg], OWORD)]; }
    }

    /** The general constructors: two bits of the immediate choose the quadwords. */
    method Pclmulqdq(vex: bool, reg: nat, src1Reg: nat, src2Rm: Operand, imm8: nat)
      requires Valid() && reg < |vec| && src1Reg < |vec| && VectorOperandOk(Snapshot(), src2Rm)
      requires !vex ==> src1Reg == reg
      modifies this
      ensures Valid()
      ensures Snapshot() == ExecPclmulqdq(old(Snapshot()), vex, reg, src1Reg, src2Rm, imm8)
    {
      hide Low, High, Pow2, ClMul, Bit, RegistersOk, Value;
      var src1, src2;
      if Bit(imm8, 0) {
        src1 := Half(Low(vec[src1Reg], OWORD), true);
      } else {
        src1 := Half(Low(vec[src1Reg], OWORD), false);
      }
      var m := VectorValue(Snapshot(), src2Rm);
      if Bit(imm8, 4) {
        src2 := Half(m, true);
      } else {
        src2 := Half(m, false);
      }
      var temp := PclmulLoop(src1, src2);
      ClMulFits(src1, src2);
      AssignXmm(vex, reg, temp);
    }

    /** The constructors with a fixed immediate, by the quadwords they name. */
    method PclmulNamed(vex: bool, reg: nat, src1Reg: nat, src2Reg: nat, form: PclmulForm)
      requires Valid() && reg < |vec| && src1Reg < |vec| && src2Reg < |vec|
      requires !vex ==> src1Reg == reg
      modifies this
      ensures Valid()
      ensures Snapshot() ==
              ExecPclmulqdq(old(Snapshot()), vex, reg, src1Reg, InRegister(src2Reg), form.Imm8())
    {
      hide Low, High, Pow2, ClMul, Bit, RegistersOk, Value;
      FormSelects(form);
      var x, y := Low(vec[src1Reg], OWORD), Low(vec[src2Reg], OWORD);
      var src1, src2;
      match form {
        case LqLq => src1, src2 := Half(x, false), Half(y, false);
        case HqLq => src1, src2 := Half(x, true), Half(y, false);
        case LqHq => src1, src2 := Half(x, false), Half(y, true);
        case HqHq => src1, src2 := Half(x, true), Half(y, true);
      }
      var temp := PclmulLoop(src1, src2);
      ClMulFits(src1, src2);
      AssignXmm(vex, reg, temp);
    }

    /* ---------- ia.sinc: the two instructions the multiplication needs besides ---------- */

    method Mov(z: Size, reg: nat, rm: Operand)
      requires Valid() && z != Word && reg < |gpr| && OperandOk(|gpr|, rm)
      modifies this
      ensures Valid() && Snapshot() == ExecMov(old(Snapshot()), z, reg, rm)
    {
      hide Low, High, Pow2, RegistersOk, Value;
      AssignChecked(z, reg, Read(z, rm));
    }

    method XorRegister(z: Size, reg: nat, rm: Operand)
      requires Valid() && z != Word && reg < |gpr| && OperandOk(|gpr|, rm)
      modifies this
      ensures Valid() && Snapshot() == ExecXor(old(Snapshot()), z, reg, rm)
    {
      hide Low, High, Pow2, RegistersOk, Value;
      cf := false;
      of := false;
      var v := Xor(Low(gpr[reg], Bits(z)), Read(z, rm));
      XorBelow(Low(gpr[reg], Bits(z)), Read(z, rm), Bits(z));
      AssignChecked(z, reg, v);
      ZeroAndSign(z, reg);
      ParityByte(v);
      pf := And(PopCount(And(Low(gpr[reg], Bits(z)), 0xFF)), 1) == 0;
    }

    /** Every instruction of module Isa is executed by its constructor; module Rereads
        says when that is what the manual has. */
    method Step(i: Instr)
      requires Valid() && Encodable(Snapshot(), i)
      modifies this
      ensures Valid() && Snapshot() == Written(old(Snapshot()), i)
    {
      hide WrittenBlsi, WrittenLzcnt, ExecLzcnt, ExecAdcx, ExecAdox, ExecBextr, ExecBlsi, ExecBlsmsk, ExecBlsr, ExecTzcnt, ExecBzhi, ExecMulx,
           ExecPdep, ExecPext, ExecRorx, ExecMov, ExecXor, ExecPclmulqdq, Bits, RegistersOk;
      match i
      case Adcx(z, d, rm) => Adcx(z, d, rm);
      case Adox(z, d, rm) => Adox(z, d, rm);
      case Bextr(z, d, rm, c) => Bextr(z, d, rm, c);
      case Blsi(z, d, rm) => Blsi(z, d, rm);
      case Blsmsk(z, d, rm) => Blsmsk(z, d, rm);
      case Blsr(z, d, rm) => Blsr(z, d, rm);
      case Lzcnt(z, d, rm) => Lzcnt(z, d, rm);
      case Tzcnt(z, d, rm) => Tzcnt(z, d, rm);
      case Bzhi(z, d, rm, x) => Bzhi(z, d, rm, x);
      case Mulx(z, hi, lo, rm) => Mulx(z, hi, lo, rm);
      case Pdep(z, d, s, rm) => Pdep(z, d, s, rm);
      case Pext(z, d, s, rm) => Pext(z, d, s, rm);
      case Rorx(z, d, rm, imm8) => Rorx(z, d, rm, imm8);
      case Mov(z, d, rm) => Mov(z, d, rm);
      case XorRegister(z, d, rm) => XorRegister(z, d, rm);
      case Pclmulqdq(vex, d, a, b, imm8) => Pclmulqdq(vex, d, a, b, imm8);
    }

    /** A program, one instruction after the other.  It makes the manual's state change
        unless a CF on the way is read back wrongly. */
    method Execute(program: seq<Instr>)
      requires Valid() && Loadable(Snapshot(), program)
      modifies this
      ensures Valid() && Snapshot() == RunWritten(old(Snapshot()), program)
      ensures AgreesAlong(old(Snapshot()), program) ==> Snapshot() == Run(old(Snapshot()), program)
      decreases |program|
    {
      hide Exec, Written, Encodable, RegistersOk, Agrees;
      if program == [] { return; }
      WrittenLoadableRest(Snapshot(), program);
      LoadableRest(Snapshot(), program);
      WrittenIsManualExactly(Snapshot(), program[0]);
      Step(program[0]);
      Execute(program[1..]);
    }
  }

  /* ---------- arithmetic of single constructors ---------- */

  /** The carry byte above the sum is the carry out. */
  lemma AddWithCarry(w: nat, x: nat, y: nat, c: nat)
    requires x < Pow2(w) && y < Pow2(w) && c < 2
    ensures var tmp := IntAdd(w + BYTE, IntAdd(w + BYTE, x, y), c);
            && Low(tmp, w) == Low(x + y + c, w)
            && (Low(High(tmp, w), BYTE) != 0 <==> x + y + c >= Pow2(w))
  {
    hide Low, High, Pow2;
    var sum := x + y + c;
    ByteRange();
    Pow2Add(w, BYTE);
    LowSmall(x + y, w + BYTE);
    LowSmall(sum, w + BYTE);
    if sum >= Pow2(w) {
      HighLowUnique(sum, w, 1, sum - Pow2(w));
      LowSmall(1, BYTE);
    } else {
      HighLowUnique(sum, w, 0, sum);
      LowSmall(0, BYTE);
    }
  }

  /** The PF statement takes the parity of the low byte. */
  lemma ParityByte(v: nat)
    ensures And(PopCount(And(v, 0xFF)), 1) == PopCount(Low(v, BYTE)) % 2
  {
    hide And, Low, PopCount;
    ByteRange();
    AndLowMask(v, BYTE);
    AndOne(PopCount(Low(v, BYTE)));
  }

  lemma FieldBelow(w: nat, x: nat, start: nat, len: nat)
    requires x < Pow2(w)
    ensures Field(x, start, len) < Pow2(w)
  {
    HighAtMost(x, start);
    LowAtMost(High(x, start), len);
  }

  lemma WideProduct(w: nat, x: nat, y: nat)
    requires x < Pow2(w) && y < Pow2(w)
    ensures IntMult(2 * w, x, y) == Product(x, y)
    ensures High(Product(x, y), w) < Pow2(w)
  {
    hide Low, High, Pow2;
    Pow2Add(w, w);
    MulMonotone(x, Pow2(w), y);
    ScaleBelow(y, Pow2(w), Pow2(w));
    assert Pow2(w) * y == y * Pow2(w);
    LowSmall(x * y, 2 * w);
    HighBelow(Product(x, y), 2 * w, w);
  }

  lemma SixBitsCount()
    ensures Pow2(6) == QWORD
  {}

  /** The 64-bit count, less the missing bits of a shorter operand. */
  lemma LzcountFits(z: Size, x: nat)
    requires x < Pow2(Bits(z))
    ensures x < Pow2(Pow2(6))
    ensures Pow2(6) - BitLength(x) - (QWORD - Bits(z)) == LeadingZeroCount(Bits(z), x) < Pow2(Bits(z))
  {
    hide Low, High, Pow2, BitLength, LeadingZeroCount;
    SixBitsCount();
    Pow2Monotone(Bits(z), QWORD);
    LeadingZeroCountMeaning(Bits(z), x);
    BitLengthRange(x, Bits(z));
    BelowPow2(Bits(z));
  }

  lemma ManualExtractBelow(source: nat, mask: nat, w: nat)
    requires mask < Pow2(w)
    ensures ManualExtract(source, mask, w) < Pow2(w)
  {
    ExtractIsManual(source, mask, w);
    ExtractBelow(source, mask);
    PopCountBelow(mask, w);
    Pow2Monotone(PopCount(mask), w);
  }

  lemma ShiftMask(z: Size, imm8: nat)
    requires z != Word
    ensures And(imm8, if z == Dword then 0x1F else 0x3F) == RotateCount(z, imm8)
    ensures IntSub(BYTE, Bits(z), RotateCount(z, imm8)) == Bits(z) - RotateCount(z, imm8)
  {
    hide And, Low;
    assert Pow2(5) == 32 && Pow2(6) == 64;
    AndLowMask(imm8, if z == Dword then 5 else 6);
    ByteRange();
    LowSmall(Bits(z) - RotateCount(z, imm8), BYTE);
  }
}
