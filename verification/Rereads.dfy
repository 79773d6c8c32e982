/**
 The two constructors that read their r/m operand again after writing a register:
 BLSI and LZCNT take CF from it.  If the register written is the operand, or holds its
 address, what they read is not the original source.
 */
module Rereads {
  import opened Words
  import opened LowBit
  import opened LeadingZeros
  import opened Isa

  /* ---------- reading an operand again ---------- */

  /** What an operand stands for during the instruction: a register, or the address in a
      register, is read anew each time; a sum has been computed before. */
  function Exported(gpr: seq<nat>, rm: Operand): (operand: Operand)
    requires OperandOk(|gpr|, rm)
    ensures OperandOk(|gpr|, operand)
  {
    match rm
    case AtSum(terms, disp) => AtSum([], Low(ScaledSum(gpr, terms) + disp, QWORD))
    case _ => rm
  }

  /** The value of the operand after `v` has been written to register `d`. */
  function Reread(gpr: seq<nat>, mem: Memory, w: nat, d: nat, v: nat, rm: Operand): nat
    requires d < |gpr| && OperandOk(|gpr|, rm)
  {
    Value(gpr[d := v], mem, w, Exported(gpr, rm))
  }

  lemma ExportedKeepsValue(gpr: seq<nat>, mem: Memory, w: nat, rm: Operand)
    requires OperandOk(|gpr|, rm)
    ensures Value(gpr, mem, w, Exported(gpr, rm)) == Value(gpr, mem, w, rm)
  {
    hide Low, Load;
    if rm.AtSum? { LowSmall(Low(ScaledSum(gpr, rm.terms) + rm.disp, QWORD), QWORD); }
  }

  /** Only the destination itself and memory at its address read back differently. */
  lemma RereadCases(gpr: seq<nat>, mem: Memory, w: nat, d: nat, v: nat, rm: Operand)
    requires d < |gpr| && OperandOk(|gpr|, rm)
    ensures Reread(gpr, mem, w, d, v, rm) ==
            if rm == InRegister(d) then Low(v, w)
            else if rm == AtRegister(d) then Load(mem, w, v)
            else Value(gpr, mem, w, rm)
  {
    hide Low, Load;
    if rm.AtSum? { LowSmall(Low(ScaledSum(gpr, rm.terms) + rm.disp, QWORD), QWORD); }
  }

  /* ---------- the instructions as their constructors have them ---------- */

  /** The 32-bit form zero-extends its destination before CF is computed. */
  function WrittenBlsi(st: State, z: Size, d: nat, rm: Operand): State
    requires z != Word && d < |st.gpr| && OperandOk(|st.gpr|, rm)
  {
    var n := Bits(z);
    var r := LowestBit(Value(st.gpr, st.mem, n, rm));
    st.(gpr := Put(st.gpr, z, d, r), zf := r == 0, sf := Bit(r, n - 1),
        cf := Reread(st.gpr, st.mem, n, d, r, rm) != 0, of := false)
  }

  /** The 32-bit form computes CF before its destination is zero-extended. */
  function WrittenLzcnt(st: State, z: Size, d: nat, rm: Operand): State
    requires d < |st.gpr| && OperandOk(|st.gpr|, rm)
  {
    var n := Bits(z);
    var c := LeadingZeroCount(n, Value(st.gpr, st.mem, n, rm));
    st.(gpr := Put(st.gpr, z, d, c), zf := c == 0,
        cf := Reread(st.gpr, st.mem, n, d, SubWrite(n, st.gpr[d], c), rm) == 0)
  }

  /* ---------- when they are right ---------- */

  /** CF of BLSI is right unless the address of the source is overwritten and exactly
      one of the words at the old and at the new address is zero. */
  predicate BlsiAgrees(st: State, z: Size, d: nat, rm: Operand)
    requires d < |st.gpr| && OperandOk(|st.gpr|, rm)
  {
    var x := Value(st.gpr, st.mem, Bits(z), rm);
    rm == AtRegister(d) ==> (x != 0 <==> Load(st.mem, Bits(z), LowestBit(x)) != 0)
  }

  /** CF of LZCNT needs a source that is neither zero nor negative when that is
      overwritten itself, and the same words zero when its address is. */
  predicate LzcntAgrees(st: State, z: Size, d: nat, rm: Operand)
    requires d < |st.gpr| && OperandOk(|st.gpr|, rm)
  {
    var n, x := Bits(z), Value(st.gpr, st.mem, Bits(z), rm);
    && (rm == InRegister(d) ==> 0 < x < Pow2(n - 1))
    && (rm == AtRegister(d) ==>
          (x == 0 <==> Load(st.mem, n, SubWrite(n, st.gpr[d], LeadingZeroCount(n, x))) == 0))
  }

  lemma BlsiFlagsExactly(st: State, z: Size, d: nat, rm: Operand)
    requires z != Word && d < |st.gpr| && OperandOk(|st.gpr|, rm)
    ensures WrittenBlsi(st, z, d, rm) == ExecBlsi(st, z, d, rm) <==> BlsiAgrees(st, z, d, rm)
  {
    hide Low, Load, Pow2, LowestBit, Put, Bit, Reread, Value;
    var n, x := Bits(z), Value(st.gpr, st.mem, Bits(z), rm);
    RereadCases(st.gpr, st.mem, n, d, LowestBit(x), rm);
    LowestBitZero(x);
    LowSmall(LowestBit(x), n);
  }

  lemma LowestBitZero(x: nat)
    ensures LowestBit(x) <= x && (LowestBit(x) == 0 <==> x == 0)
  {}

  lemma LzcntFlagsExactly(st: State, z: Size, d: nat, rm: Operand)
    requires d < |st.gpr| && OperandOk(|st.gpr|, rm)
    ensures WrittenLzcnt(st, z, d, rm) == ExecLzcnt(st, z, d, rm) <==> LzcntAgrees(st, z, d, rm)
  {
    hide Low, Load, Pow2, LeadingZeroCount, Put, SubWrite, Reread, Value, BitLength;
    var n, x := Bits(z), Value(st.gpr, st.mem, Bits(z), rm);
    CountRange(n, x);
    var c := LeadingZeroCount(n, x);
    RereadCases(st.gpr, st.mem, n, d, SubWrite(n, st.gpr[d], c), rm);
    SubWriteParts(n, st.gpr[d], c);
  }

  lemma CountRange(n: nat, x: nat)
    requires 0 < n && x < Pow2(n)
    ensures LeadingZeroCount(n, x) <= n && LeadingZeroCount(n, x) < Pow2(n)
    ensures LeadingZeroCount(n, x) == n <==> x == 0
    ensures LeadingZeroCount(n, x) == 0 <==> x >= Pow2(n - 1)
  {
    hide LeadingZeroCount, Pow2;
    LeadingZeroCountMeaning(n, x);
    BitLengthRange(x, n);
    BitLengthRange(x, n - 1);
    BelowPow2(n);
  }

  /* ---------- inputs on which they are wrong ---------- */

  /** LZCNT r, r on a zero register leaves CF clear, where the manual sets it. */
  lemma LzcntOfZeroOntoItself(st: State, d: nat)
    requires d < |st.gpr| && st.gpr[d] == 0
    ensures ExecLzcnt(st, Qword, d, InRegister(d)).cf && !WrittenLzcnt(st, Qword, d, InRegister(d)).cf
  {
    hide Low, Pow2, LeadingZeroCount, Put, SubWrite;
    LowSmall(0, QWORD);
    CountRange(QWORD, 0);
    SubWriteParts(QWORD, 0, QWORD);
  }

  /** A memory with one byte set. */
  ghost predicate SingleByte(mem: Memory, at: nat, b: byte) {
    mem(at) == b && forall a: nat :: a != at ==> mem(a) == 0
  }

  /** The word at an address below 2^16 is zero unless it meets the byte, and is the byte
      where that comes first. */
  lemma {:induction false} BytesOfSingle(mem: Memory, at: nat, b: byte, a: nat, k: nat)
    requires SingleByte(mem, at, b) && a + k <= Pow2(2 * BYTE)
    ensures at < a || a + k <= at ==> Bytes(mem, a, k) == 0
    ensures a == at && k > 0 ==> Bytes(mem, a, k) == b
    decreases k
  {
    hide Low, Pow2;
    if k == 0 {
    } else {
      Pow2Monotone(2 * BYTE, QWORD);
      LowSmall(a, QWORD);
      BytesOfSingle(mem, at, b, a + 1, k - 1);
    }
  }

  lemma QuadwordOfSingle(mem: Memory, at: nat, b: byte, a: nat)
    requires SingleByte(mem, at, b) && a <= 0x1000
    ensures at < a || a + 8 <= at ==> Load(mem, QWORD, a) == 0
    ensures a == at ==> Load(mem, QWORD, a) == b
  {
    hide Pow2, Low, Bytes;
    ByteRange();
    Pow2Add(BYTE, BYTE);
    BytesOfSingle(mem, at, b, a, 8);
  }

  /** LZCNT r, [r] with r = 1000H, where memory is zero but for a 1 at address 64: the
      count is 64, and CF is clear where the manual sets it. */
  lemma LzcntThroughItself(st: State, d: nat)
    requires d < |st.gpr| && st.gpr[d] == 0x1000 && SingleByte(st.mem, QWORD, 1)
    ensures ExecLzcnt(st, Qword, d, AtRegister(d)).cf && !WrittenLzcnt(st, Qword, d, AtRegister(d)).cf
  {
    hide Low, Load, Pow2, LeadingZeroCount, Put, SubWrite, SingleByte;
    QuadwordOfSingle(st.mem, QWORD, 1, 0x1000);
    QuadwordOfSingle(st.mem, QWORD, 1, QWORD);
    CountRange(QWORD, 0);
    SmallAddress();
    SubWriteWhole(QWORD, 0x1000, QWORD);
  }

  lemma SmallAddress()
    ensures 0x1000 < Pow2(QWORD)
  {
    ByteRange();
    Pow2Add(BYTE, BYTE);
    Pow2Monotone(2 * BYTE, QWORD);
  }

  /** BLSI r, [r] with r = 1000H, where memory is zero but for an 8 at that address: the
      result is 8, and CF is clear where the manual sets it. */
  lemma BlsiThroughItself(st: State, d: nat)
    requires d < |st.gpr| && st.gpr[d] == 0x1000 && SingleByte(st.mem, 0x1000, 8)
    ensures ExecBlsi(st, Qword, d, AtRegister(d)).cf && !WrittenBlsi(st, Qword, d, AtRegister(d)).cf
  {
    hide Load, Put, Bit, SingleByte;
    QuadwordOfSingle(st.mem, 0x1000, 8, 0x1000);
    QuadwordOfSingle(st.mem, 0x1000, 8, 8);
    assert LowestBit(8) == 8;
  }

  /* ---------- all instructions ---------- */

  /** The state change an instruction's constructor makes. */
  function Written(st: State, i: Instr): State
    requires Encodable(st, i) && |st.gpr| > RDX
  {
    match i
    case Blsi(z, d, rm) => WrittenBlsi(st, z, d, rm)
    case Lzcnt(z, d, rm) => WrittenLzcnt(st, z, d, rm)
    case _ => Exec(st, i)
  }

  predicate Agrees(st: State, i: Instr)
    requires Encodable(st, i)
  {
    match i
    case Blsi(z, d, rm) => BlsiAgrees(st, z, d, rm)
    case Lzcnt(z, d, rm) => LzcntAgrees(st, z, d, rm)
    case _ => true
  }

  /** The constructors make the manual's state change exactly when CF agrees. */
  lemma WrittenIsManualExactly(st: State, i: Instr)
    requires Encodable(st, i) && |st.gpr| > RDX
    ensures Written(st, i) == Exec(st, i) <==> Agrees(st, i)
  {
    hide WrittenBlsi, WrittenLzcnt, BlsiAgrees, LzcntAgrees, ExecBlsi, ExecLzcnt;
    match i
    case Blsi(z, d, rm) => BlsiFlagsExactly(st, z, d, rm);
    case Lzcnt(z, d, rm) => LzcntFlagsExactly(st, z, d, rm);
    case _ =>
  }

  lemma WrittenKeepsShape(st: State, i: Instr)
    requires Encodable(st, i) && |st.gpr| > RDX
    ensures SameShape(st, Written(st, i))
  {
    hide Low, Load, Pow2, Reread, Exec;
    if !i.Blsi? && !i.Lzcnt? { ExecKeepsShape(st, i); }
  }

  lemma WrittenLoadableRest(st: State, program: seq<Instr>)
    requires program != [] && Loadable(st, program)
    ensures Loadable(Written(st, program[0]), program[1..])
  {
    hide Written, Encodable;
    var next := Written(st, program[0]);
    WrittenKeepsShape(st, program[0]);
    forall k | 0 <= k < |program| - 1 ensures Encodable(next, program[1..][k]) {
      ShapeDecidesEncodable(st, next, program[k + 1]);
    }
  }

  /** Executing a program by the constructors. */
  function RunWritten(st: State, program: seq<Instr>): State
    requires Loadable(st, program)
    decreases |program|
  {
    if program == [] then st
    else
      WrittenLoadableRest(st, program);
      RunWritten(Written(st, program[0]), program[1..])
  }

  /** No CF is read back wrongly on the way. */
  predicate AgreesAlong(st: State, program: seq<Instr>)
    requires Loadable(st, program)
    decreases |program|
  {
    program == [] ||
    (Agrees(st, program[0]) &&
     (LoadableRest(st, program); AgreesAlong(Exec(st, program[0]), program[1..])))
  }

  /** What can be seen without running it: no BLSI or LZCNT overwrites the register it
      reads its address from, and no LZCNT its own source. */
  predicate NoReread(i: Instr) {
    && ((i.Blsi? || i.Lzcnt?) ==> i.rm != AtRegister(i.dst))
    && (i.Lzcnt? ==> i.rm != InRegister(i.dst))
  }

  lemma {:induction false} WithoutRereads(st: State, program: seq<Instr>)
    requires Loadable(st, program) && forall k :: 0 <= k < |program| ==> NoReread(program[k])
    ensures AgreesAlong(st, program)
    decreases |program|
  {
    hide Exec, Encodable;
    if program == [] {
    } else {
      LoadableRest(st, program);
      assert NoReread(program[0]);
      WithoutRereads(Exec(st, program[0]), program[1..]);
    }
  }

  /** Then the constructors do what the manual says, over the whole program. */
  lemma {:induction false} WrittenRunIsManual(st: State, program: seq<Instr>)
    requires Loadable(st, program) && AgreesAlong(st, program)
    ensures RunWritten(st, program) == Run(st, program)
    decreases |program|
  {
    hide Exec, Written, Encodable, Agrees;
    if program == [] {
    } else {
      LoadableRest(st, program);
      WrittenIsManualExactly(st, program[0]);
      WrittenRunIsManual(Exec(st, program[0]), program[1..]);
    }
  }
}
