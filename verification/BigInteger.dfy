/**
 Multi-precision arithmetic with ADCX, ADOX and MULX: exact addition chains, the
 freedom to interleave the two carry chains, and full multiplication.
 Programs are sequences of 64-bit instructions of module Isa.
 */
module BigInteger {
  import opened Words
  import opened Isa

  /* ---------- programs ---------- */

  lemma RunStep(st: State, i: Instr, rest: seq<Instr>)
    requires |st.gpr| > RDX && Encodable(st, i) && Loadable(Exec(st, i), rest)
    ensures Loadable(st, [i] + rest)
    ensures Run(st, [i] + rest) == Run(Exec(st, i), rest)
  {
    var program := [i] + rest;
    var next := Exec(st, i);
    ExecKeepsShape(st, i);
    forall k | 0 <= k < |program| ensures Encodable(st, program[k]) {
      if k > 0 { ShapeDecidesEncodable(st, next, rest[k - 1]); }
    }
    assert program[1..] == rest;
  }

  lemma RunNothing(st: State)
    requires |st.gpr| > RDX
    ensures Loadable(st, []) && Run(st, []) == st
  {}

  lemma LoadableIn(st: State, st': State, program: seq<Instr>)
    requires SameShape(st, st') && Loadable(st, program)
    ensures Loadable(st', program)
  {
    forall k | 0 <= k < |program| ensures Encodable(st', program[k]) {
      ShapeDecidesEncodable(st, st', program[k]);
    }
  }

  lemma {:induction false} RunKeepsShape(st: State, program: seq<Instr>)
    requires Loadable(st, program)
    ensures SameShape(st, Run(st, program))
    decreases |program|
  {
    if program == [] {
    } else {
      LoadableRest(st, program);
      ExecKeepsShape(st, program[0]);
      RunKeepsShape(Exec(st, program[0]), program[1..]);
    }
  }

  lemma {:induction false} RunAppend(st: State, p: seq<Instr>, q: seq<Instr>)
    requires Loadable(st, p) && Loadable(st, q)
    ensures Loadable(Run(st, p), q) && Loadable(st, p + q)
    ensures Run(st, p + q) == Run(Run(st, p), q)
    decreases |p|
  {
    hide Exec, Encodable;
    if p == [] {
      assert p + q == q;
    } else {
      var next := Exec(st, p[0]);
      LoadableRest(st, p);
      ExecKeepsShape(st, p[0]);
      LoadableIn(st, next, q);
      RunAppend(next, p[1..], q);
      RunStep(st, p[0], p[1..] + q);
      assert [p[0]] + (p[1..] + q) == p + q;
    }
  }

  /* ---------- interleaving the two carry chains ---------- */

  predicate Avoids(rm: Operand, r: nat) {
    !Reads(rm, r)
  }

  /** An ADCX and an ADOX that touch no common register, except for reading. */
  predicate Independent(c: Instr, o: Instr) {
    c.Adcx? && o.Adox? && c.dst != o.dst && Avoids(c.rm, o.dst) && Avoids(o.rm, c.dst)
  }

  lemma ChainsCommute(st: State, c: Instr, o: Instr)
    requires |st.gpr| > RDX && Encodable(st, c) && Encodable(st, o) && Independent(c, o)
    ensures Encodable(Exec(st, c), o) && Encodable(Exec(st, o), c)
    ensures Exec(Exec(st, c), o) == Exec(Exec(st, o), c)
  {
    hide Low, Pow2, Value, Reads;
    var sum := Get(st.gpr, Bits(c.z), c.dst) + Value(st.gpr, st.mem, Bits(c.z), c.rm) + BitValue(st.cf);
    var sum' := Get(st.gpr, Bits(o.z), o.dst) + Value(st.gpr, st.mem, Bits(o.z), o.rm) + BitValue(st.of);
    var v, v' := Low(sum, Bits(c.z)), Low(sum', Bits(o.z));
    ValueDepends(st.gpr, Exec(st, c).gpr, st.mem, Bits(o.z), o.rm);
    ValueDepends(st.gpr, Exec(st, o).gpr, st.mem, Bits(c.z), c.rm);
    assert st.gpr[c.dst := v][o.dst := v'] == st.gpr[o.dst := v'][c.dst := v];
  }

  /** `r` consists of all of `p` and all of `q`, each in its own order. */
  predicate Interleaves(p: seq<Instr>, q: seq<Instr>, r: seq<Instr>)
    decreases |r|
  {
    if r == [] then p == [] && q == []
    else
      || (p != [] && p[0] == r[0] && Interleaves(p[1..], q, r[1..]))
      || (q != [] && q[0] == r[0] && Interleaves(p, q[1..], r[1..]))
  }

  /** Taking from the front of one or the other, by a list of choices. */
  function Merge(p: seq<Instr>, q: seq<Instr>, choices: seq<bool>): seq<Instr>
    decreases |p| + |q|
  {
    if p == [] then q
    else if q == [] then p
    else if choices == [] || choices[0] then [p[0]] + Merge(p[1..], q, if choices == [] then [] else choices[1..])
    else [q[0]] + Merge(p, q[1..], choices[1..])
  }

  /** Whatever the choices, the result is an interleaving. */
  lemma {:induction false} MergeInterleaves(p: seq<Instr>, q: seq<Instr>, choices: seq<bool>)
    ensures Interleaves(p, q, Merge(p, q, choices))
    decreases |p| + |q|
  {
    var r := Merge(p, q, choices);
    if p == [] && q == [] {
    } else if p == [] {
      MergeInterleaves(p, q[1..], choices);
      assert r[1..] == Merge(p, q[1..], choices);
    } else if q == [] {
      MergeInterleaves(p[1..], q, choices);
      assert r[1..] == Merge(p[1..], q, choices);
    } else if choices == [] || choices[0] {
      var more := if choices == [] then [] else choices[1..];
      MergeInterleaves(p[1..], q, more);
      assert r[1..] == Merge(p[1..], q, more);
    } else {
      MergeInterleaves(p, q[1..], choices[1..]);
      assert r[1..] == Merge(p, q[1..], choices[1..]);
    }
  }

  /** An interleaving has the instructions of both, each as often as they had it. */
  lemma {:induction false} InterleavesCounts(p: seq<Instr>, q: seq<Instr>, r: seq<Instr>)
    requires Interleaves(p, q, r)
    ensures multiset(r) == multiset(p) + multiset(q)
    decreases |r|
  {
    if r == [] {
    } else if p != [] && p[0] == r[0] && Interleaves(p[1..], q, r[1..]) {
      InterleavesCounts(p[1..], q, r[1..]);
      assert r == [r[0]] + r[1..] && p == [p[0]] + p[1..];
    } else {
      InterleavesCounts(p, q[1..], r[1..]);
      assert r == [r[0]] + r[1..] && q == [q[0]] + q[1..];
    }
  }

  predicate AllIndependent(p: seq<Instr>, q: seq<Instr>) {
    forall i, j :: 0 <= i < |p| && 0 <= j < |q| ==> Independent(p[i], q[j])
  }

  /** An ADOX may be moved behind a whole ADCX chain. */
  lemma {:induction false} MoveBehind(st: State, p: seq<Instr>, o: Instr, rest: seq<Instr>)
    requires Loadable(st, p) && Loadable(st, [o]) && Loadable(st, rest)
    requires forall i :: 0 <= i < |p| ==> Independent(p[i], o)
    ensures Loadable(st, p + [o] + rest) && Encodable(st, o)
    ensures Loadable(Exec(st, o), p + rest)
    ensures Run(Exec(st, o), p + rest) == Run(st, p + [o] + rest)
    decreases |p|
  {
    hide Exec, Encodable, Independent;
    assert o == [o][0];
    var st' := Exec(st, o);
    ExecKeepsShape(st, o);
    if p == [] {
      LoadableIn(st, st', rest);
      RunStep(st, o, rest);
      assert p + rest == rest && p + [o] + rest == [o] + rest;
    } else {
      var c, tail := p[0], p[1..];
      var next := Exec(st, c);
      LoadableRest(st, p);
      ExecKeepsShape(st, c);
      LoadableIn(st, next, [o]);
      LoadableIn(st, next, rest);
      MoveBehind(next, tail, o, rest);
      ChainsCommute(st, c, o);
      RunStep(st, c, tail + [o] + rest);
      RunStep(st', c, tail + rest);
      assert [c] + (tail + [o] + rest) == p + [o] + rest;
      assert [c] + (tail + rest) == p + rest;
    }
  }

  /** Every interleaving of an ADCX chain and an ADOX chain does what running one and
      then the other does: same registers, same flags. */
  lemma {:induction false} InterleavingIrrelevant(st: State, p: seq<Instr>, q: seq<Instr>, r: seq<Instr>)
    requires Loadable(st, p) && Loadable(st, q)
    requires AllIndependent(p, q) && Interleaves(p, q, r)
    ensures Loadable(st, r) && Loadable(st, p + q)
    ensures Run(st, r) == Run(st, p + q)
    decreases |r|
  {
    if r == [] {
      assert p + q == r;
    } else {
      var i, rest := r[0], r[1..];
      assert r == [i] + rest;
      if p != [] && p[0] == i && Interleaves(p[1..], q, rest) {
        TakeFromFirst(st, p, q, rest);
      } else {
        TakeFromSecond(st, p, q, rest);
      }
    }
  }

  lemma {:induction false} TakeFromFirst(st: State, p: seq<Instr>, q: seq<Instr>, rest: seq<Instr>)
    requires Loadable(st, p) && Loadable(st, q) && AllIndependent(p, q)
    requires p != [] && Interleaves(p[1..], q, rest)
    ensures Loadable(st, [p[0]] + rest) && Loadable(st, p + q)
    ensures Run(st, [p[0]] + rest) == Run(st, p + q)
    decreases |rest| + 1, 0
  {
    hide Exec, Encodable, Independent;
    var next := Exec(st, p[0]);
    LoadableRest(st, p);
    ExecKeepsShape(st, p[0]);
    LoadableIn(st, next, q);
    InterleavingIrrelevant(next, p[1..], q, rest);
    RunStep(st, p[0], rest);
    RunStep(st, p[0], p[1..] + q);
    assert [p[0]] + (p[1..] + q) == p + q;
  }

  lemma {:induction false} TakeFromSecond(st: State, p: seq<Instr>, q: seq<Instr>, rest: seq<Instr>)
    requires Loadable(st, p) && Loadable(st, q) && AllIndependent(p, q)
    requires q != [] && Interleaves(p, q[1..], rest)
    ensures Loadable(st, [q[0]] + rest) && Loadable(st, p + q)
    ensures Run(st, [q[0]] + rest) == Run(st, p + q)
    decreases |rest| + 1, 0
  {
    hide Exec, Encodable, Independent;
    var o, tail := q[0], q[1..];
    var next := Exec(st, o);
    LoadableRest(st, q);
    ExecKeepsShape(st, o);
    LoadableIn(st, next, p);
    InterleavingIrrelevant(next, p, tail, rest);
    RunStep(st, o, rest);
    assert Loadable(st, [o]);
    LoadableIn(next, st, tail);
    MoveBehind(st, p, o, tail);
    assert p + [o] + tail == p + q by { assert [o] + tail == q; }
  }

  /* ---------- numbers in registers ---------- */

  predicate RegistersExist(count: nat, rs: seq<nat>) {
    forall k :: 0 <= k < |rs| ==> rs[k] < count
  }

  predicate OperandsExist(count: nat, a: seq<Operand>) {
    forall k :: 0 <= k < |a| ==> OperandOk(count, a[k])
  }

  /** The number in a list of 64-bit registers, least significant limb first. */
  function Number(gpr: seq<nat>, rs: seq<nat>): nat
    requires RegistersExist(|gpr|, rs)
  {
    if rs == [] then 0 else gpr[rs[0]] + Product(Pow2(QWORD), Number(gpr, rs[1..]))
  }

  /** The number in a list of 64-bit operands. */
  function OperandNumber(gpr: seq<nat>, mem: Memory, a: seq<Operand>): nat
    requires OperandsExist(|gpr|, a)
  {
    if a == [] then 0 else Value(gpr, mem, QWORD, a[0]) + Product(Pow2(QWORD), OperandNumber(gpr, mem, a[1..]))
  }

  /** Two register files agree on a list of registers, or on the registers a list of
      operands reads. */
  predicate SameRegisters(gpr: seq<nat>, gpr': seq<nat>, rs: seq<nat>) {
    |gpr| == |gpr'| && forall r :: r in rs && r < |gpr| ==> gpr[r] == gpr'[r]
  }

  predicate ReadsAny(a: seq<Operand>, r: nat) {
    exists k :: 0 <= k < |a| && Reads(a[k], r)
  }

  predicate SameOperands(gpr: seq<nat>, gpr': seq<nat>, a: seq<Operand>) {
    |gpr| == |gpr'| && forall r :: 0 <= r < |gpr| && ReadsAny(a, r) ==> gpr[r] == gpr'[r]
  }

  lemma {:induction false} NumberDepends(gpr: seq<nat>, gpr': seq<nat>, rs: seq<nat>)
    requires RegistersExist(|gpr|, rs) && SameRegisters(gpr, gpr', rs)
    ensures Number(gpr, rs) == Number(gpr', rs)
    decreases |rs|
  {
    if rs == [] {
    } else {
      assert rs[0] in rs;
      NumberDepends(gpr, gpr', rs[1..]);
    }
  }

  lemma ReadsAnyTail(a: seq<Operand>, r: nat)
    requires a != [] && ReadsAny(a[1..], r)
    ensures ReadsAny(a, r)
  {
    var k :| 0 <= k < |a[1..]| && Reads(a[1..][k], r);
    assert Reads(a[k + 1], r);
  }

  lemma {:induction false} OperandNumberDepends(gpr: seq<nat>, gpr': seq<nat>, mem: Memory, a: seq<Operand>)
    requires OperandsExist(|gpr|, a) && SameOperands(gpr, gpr', a)
    ensures OperandNumber(gpr, mem, a) == OperandNumber(gpr', mem, a)
    decreases |a|
  {
    if a == [] {
    } else {
      forall r | 0 <= r < |gpr| && Reads(a[0], r) ensures gpr[r] == gpr'[r] {
        assert ReadsAny(a, r);
      }
      forall r | 0 <= r < |gpr| && ReadsAny(a[1..], r) ensures gpr[r] == gpr'[r] {
        ReadsAnyTail(a, r);
      }
      ValueDepends(gpr, gpr', mem, QWORD, a[0]);
      OperandNumberDepends(gpr, gpr', mem, a[1..]);
    }
  }

  /** Bit j of limb i of a number stands at position 64 * i + j. */
  lemma LimbBit(limb: nat, rest: nat, x: nat, i: nat, j: nat)
    requires limb < Pow2(QWORD) && j < QWORD && x == limb + Product(Pow2(QWORD), rest)
    ensures Bit(x, QWORD * i + j) == if i == 0 then Bit(limb, j) else Bit(rest, QWORD * (i - 1) + j)
  {
    hide Low, High, Pow2, Bit;
    assert Product(Pow2(QWORD), rest) == rest * Pow2(QWORD);
    HighLowUnique(x, QWORD, rest, limb);
    if i == 0 {
      BitOfLow(x, QWORD, j);
    } else {
      BitOfHigh(x, QWORD, QWORD * (i - 1) + j);
    }
  }

  lemma {:induction false} NumberBit(gpr: seq<nat>, rs: seq<nat>, i: nat, j: nat)
    requires RegistersExist(|gpr|, rs) && RegistersOk(gpr, QWORD) && i < |rs| && j < QWORD
    ensures Bit(Number(gpr, rs), QWORD * i + j) == Bit(gpr[rs[i]], j)
    decreases i
  {
    hide Pow2, Product, Bit;
    LimbBit(gpr[rs[0]], Number(gpr, rs[1..]), Number(gpr, rs), i, j);
    if i == 0 {
    } else {
      NumberBit(gpr, rs[1..], i - 1, j);
    }
  }

  lemma {:induction false} OperandNumberBit(gpr: seq<nat>, mem: Memory, a: seq<Operand>, i: nat, j: nat)
    requires OperandsExist(|gpr|, a) && i < |a| && j < QWORD
    ensures Bit(OperandNumber(gpr, mem, a), QWORD * i + j) == Bit(Value(gpr, mem, QWORD, a[i]), j)
    decreases i
  {
    hide Pow2, Product, Bit, Value;
    OperandFits(gpr, mem, a[0]);
    LimbBit(Value(gpr, mem, QWORD, a[0]), OperandNumber(gpr, mem, a[1..]), OperandNumber(gpr, mem, a), i, j);
    if i == 0 {
    } else {
      OperandNumberBit(gpr, mem, a[1..], i - 1, j);
    }
  }

  lemma OperandFits(gpr: seq<nat>, mem: Memory, rm: Operand)
    requires OperandOk(|gpr|, rm)
    ensures Value(gpr, mem, QWORD, rm) < Pow2(QWORD)
  {}

  /* ---------- one addition with carry ---------- */

  /** The two add-with-carry instructions differ only in the flag they use. */
  function Add(useOf: bool, dst: nat, rm: Operand): Instr {
    if useOf then Adox(Qword, dst, rm) else Adcx(Qword, dst, rm)
  }

  function Carry(useOf: bool, st: State): nat {
    BitValue(if useOf then st.of else st.cf)
  }

  function SetCarry(useOf: bool, st: State, carry: bool): State {
    if useOf then st.(of := carry) else st.(cf := carry)
  }

  /** Sum and carry out together are the exact sum; nothing else changes. */
  lemma AddEffect(useOf: bool, st: State, dst: nat, rm: Operand)
    requires WellFormed(st) && dst < |st.gpr| && OperandOk(|st.gpr|, rm)
    ensures Encodable(st, Add(useOf, dst, rm))
    ensures var st' := Exec(st, Add(useOf, dst, rm));
            && WellFormed(st') && |st'.gpr| == |st.gpr|
            && st' == SetCarry(useOf, st, Carry(useOf, st') == 1).(gpr := st.gpr[dst := st'.gpr[dst]])
            && st'.gpr[dst] + Product(Pow2(QWORD), Carry(useOf, st'))
               == st.gpr[dst] + Value(st.gpr, st.mem, QWORD, rm) + Carry(useOf, st)
  {
    hide Exec, Encodable, Add, Low, Pow2, Product, WellFormed, Value;
    var x, y, c := st.gpr[dst], Value(st.gpr, st.mem, QWORD, rm), Carry(useOf, st);
    LimbBelow(st, dst);
    OperandBelow(st, rm);
    AddState(useOf, st, dst, rm);
    CarryOut(x, y, c);
    WriteKeepsWellFormed(st, dst, Low(x + y + c, QWORD));
    FlagsKeepWellFormed(st.(gpr := st.gpr[dst := Low(x + y + c, QWORD)]),
                        Exec(st, Add(useOf, dst, rm)));
  }

  lemma AddState(useOf: bool, st: State, dst: nat, rm: Operand)
    requires WellFormed(st) && dst < |st.gpr| && |st.gpr| > RDX && OperandOk(|st.gpr|, rm)
    ensures Encodable(st, Add(useOf, dst, rm))
    ensures var sum := st.gpr[dst] + Value(st.gpr, st.mem, QWORD, rm) + Carry(useOf, st);
            Exec(st, Add(useOf, dst, rm))
            == SetCarry(useOf, st, sum >= Pow2(QWORD)).(gpr := st.gpr[dst := Low(sum, QWORD)])
  {
    hide Low, Pow2, WellFormed, RegistersOk, Value;
    LimbBelow(st, dst);
    LowSmall(st.gpr[dst], QWORD);
  }

  lemma OperandBelow(st: State, rm: Operand)
    requires OperandOk(|st.gpr|, rm)
    ensures Value(st.gpr, st.mem, QWORD, rm) < Pow2(QWORD)
  {}

  lemma LimbBelow(st: State, r: nat)
    requires WellFormed(st) && r < |st.gpr|
    ensures st.gpr[r] < Pow2(QWORD) && |st.gpr| > RDX
  {}

  lemma HasRdx(st: State)
    requires WellFormed(st)
    ensures |st.gpr| > RDX
  {}

  lemma WriteKeepsWellFormed(st: State, r: nat, v: nat)
    requires WellFormed(st) && r < |st.gpr| && v < Pow2(QWORD)
    ensures WellFormed(st.(gpr := st.gpr[r := v]))
  {}

  lemma FlagsKeepWellFormed(st: State, st': State)
    requires WellFormed(st) && st'.gpr == st.gpr && st'.vec == st.vec
    ensures WellFormed(st')
  {}

  lemma CarryOut(x: nat, y: nat, c: nat)
    requires x < Pow2(QWORD) && y < Pow2(QWORD) && c < 2
    ensures var sum := x + y + c;
            Low(sum, QWORD) + Product(Pow2(QWORD), BitValue(sum >= Pow2(QWORD))) == sum
  {
    var sum := x + y + c;
    if sum >= Pow2(QWORD) {
      LowUnique(sum, QWORD, 1, sum - Pow2(QWORD));
    } else {
      LowSmall(sum, QWORD);
    }
  }

  /* ---------- addition chains ---------- */

  function Chain(useOf: bool, dst: seq<nat>, src: seq<Operand>): seq<Instr>
    requires |dst| == |src|
  {
    if dst == [] then [] else [Add(useOf, dst[0], src[0])] + Chain(useOf, dst[1..], src[1..])
  }

  /** No register is written twice, and none is read after it has been written. */
  predicate ChainOk(count: nat, dst: seq<nat>, src: seq<Operand>)
    requires |dst| == |src|
  {
    && RegistersExist(count, dst) && OperandsExist(count, src)
    && (forall i, j :: 0 <= i < j < |dst| ==> dst[i] != dst[j])
    && (forall i, j :: 0 <= i < j < |dst| ==> Avoids(src[j], dst[i]))
  }

  /** The weight of limb `n`. */
  function LimbWeight(n: nat): nat {
    Pow2(QWORD * n)
  }

  lemma LimbWeightStep(n: nat)
    requires n > 0
    ensures LimbWeight(n) == Product(Pow2(QWORD), LimbWeight(n - 1))
    ensures LimbWeight(0) == 1
  {
    Pow2Add(QWORD, QWORD * (n - 1));
  }

  /** Frame: a program has left these registers as they were. */
  ghost predicate Untouched(st: State, st': State, written: seq<nat>) {
    |st'.gpr| == |st.gpr| && st'.vec == st.vec && st'.mem == st.mem &&
    forall r :: 0 <= r < |st.gpr| && r !in written ==> st'.gpr[r] == st.gpr[r]
  }

  lemma CarryUp(b: nat, w: nat, g': nat, g: nat, x: nat, c: nat, c1: nat, l': nat, l: nat, s: nat, c': nat)
    requires g' + Product(b, c1) == g + x + c
    requires l' + Product(w, c') == l + s + c1
    ensures (g' + Product(b, l')) + Product(Product(b, w), c') == (g + Product(b, l)) + (x + Product(b, s)) + c
  {
    assert b * (l' + w * c') == b * (l + s + c1);
    assert b * (w * c') == (b * w) * c';
  }

  /** A chain over n limbs is exact addition of the two numbers and the carry in. */
  lemma {:induction false} ChainAdds(useOf: bool, st: State, dst: seq<nat>, src: seq<Operand>)
    requires WellFormed(st) && |dst| == |src| && ChainOk(|st.gpr|, dst, src)
    ensures Loadable(st, Chain(useOf, dst, src))
    ensures var st' := Run(st, Chain(useOf, dst, src));
            && WellFormed(st') && Untouched(st, st', dst)
            && st' == SetCarry(useOf, st, Carry(useOf, st') == 1).(gpr := st'.gpr)
            && Number(st'.gpr, dst) + Product(LimbWeight(|dst|), Carry(useOf, st'))
               == Number(st.gpr, dst) + OperandNumber(st.gpr, st.mem, src) + Carry(useOf, st)
    decreases |dst|
  {
    hide Exec, Encodable, Run, Low, Pow2, Product, Add, LimbWeight, WellFormed, ChainOk, Untouched, Number, OperandNumber;
    HasRdx(st);
    if dst == [] {
      RunNothing(st);
      EmptyChain(useOf, st);
    } else {
      var d, tail, rest := dst[0], dst[1..], src[1..];
      var head := Add(useOf, d, src[0]);
      ChainOkRest(|st.gpr|, dst, src);
      AddEffect(useOf, st, d, src[0]);
      var mid := Exec(st, head);
      ChainAdds(useOf, mid, tail, rest);
      RunStep(st, head, Chain(useOf, tail, rest));
      var st' := Run(mid, Chain(useOf, tail, rest));
      UntouchedCons(st, mid, st', dst);
      ChainSumCons(useOf, st, mid, st', dst, src);
    }
  }

  lemma UntouchedCons(st: State, mid: State, st': State, written: seq<nat>)
    requires written != [] && written[0] < |st.gpr| == |mid.gpr| && written[0] !in written[1..]
    requires mid.gpr == st.gpr[written[0] := mid.gpr[written[0]]] && mid.vec == st.vec && mid.mem == st.mem
    requires Untouched(mid, st', written[1..])
    ensures |st'.gpr| == |st.gpr|
    ensures Untouched(st, st', written) && st'.gpr[written[0]] == mid.gpr[written[0]]
  {
    assert forall r :: r in written[1..] ==> r in written;
    assert written[0] in written;
  }

  lemma EmptyChain(useOf: bool, st: State)
    ensures Number(st.gpr, []) + Product(LimbWeight(0), Carry(useOf, st))
            == Number(st.gpr, []) + OperandNumber(st.gpr, st.mem, []) + Carry(useOf, st)
    ensures Untouched(st, st, [])
  {
    hide Product, LimbWeight;
    LimbWeightStep(1);
    ProductOne(Carry(useOf, st));
  }

  lemma ChainOkRest(count: nat, dst: seq<nat>, src: seq<Operand>)
    requires |dst| == |src| > 0 && ChainOk(count, dst, src)
    ensures ChainOk(count, dst[1..], src[1..])
    ensures dst[0] < count && OperandOk(count, src[0]) && dst[0] !in dst[1..]
  {}

  /** One limb in front of a chain. */
  lemma ChainSumCons(useOf: bool, st: State, mid: State, st': State, dst: seq<nat>, src: seq<Operand>)
    requires |dst| == |src| > 0 && ChainOk(|st.gpr|, dst, src) && |mid.gpr| == |st'.gpr| == |st.gpr|
    requires ChainOk(|st.gpr|, dst[1..], src[1..])
    requires mid.mem == st.mem
    requires mid.gpr == st.gpr[dst[0] := mid.gpr[dst[0]]] && st'.gpr[dst[0]] == mid.gpr[dst[0]]
    requires mid.gpr[dst[0]] + Product(Pow2(QWORD), Carry(useOf, mid))
             == st.gpr[dst[0]] + Value(st.gpr, st.mem, QWORD, src[0]) + Carry(useOf, st)
    requires Number(st'.gpr, dst[1..]) + Product(LimbWeight(|dst| - 1), Carry(useOf, st'))
             == Number(mid.gpr, dst[1..]) + OperandNumber(mid.gpr, mid.mem, src[1..]) + Carry(useOf, mid)
    ensures Number(st'.gpr, dst) + Product(LimbWeight(|dst|), Carry(useOf, st'))
            == Number(st.gpr, dst) + OperandNumber(st.gpr, st.mem, src) + Carry(useOf, st)
  {
    hide Pow2, Low, Product, LimbWeight, Value, Reads;
    var d, tail, rest := dst[0], dst[1..], src[1..];
    NumberDepends(st.gpr, mid.gpr, tail);
    OperandNumberDepends(st.gpr, mid.gpr, st.mem, rest);
    LimbWeightStep(|dst|);
    CarryUp(Pow2(QWORD), LimbWeight(|tail|), mid.gpr[d], st.gpr[d], Value(st.gpr, st.mem, QWORD, src[0]),
            Carry(useOf, st), Carry(useOf, mid), Number(st'.gpr, tail), Number(st.gpr, tail),
            OperandNumber(st.gpr, st.mem, rest), Carry(useOf, st'));
  }

  lemma {:induction false} ChainAt(useOf: bool, dst: seq<nat>, src: seq<Operand>, k: nat)
    requires |dst| == |src| && k < |dst|
    ensures |Chain(useOf, dst, src)| == |dst| && Chain(useOf, dst, src)[k] == Add(useOf, dst[k], src[k])
    decreases |dst|
  {
    hide Add;
    if |dst| <= 1 {
    } else {
      ChainAt(useOf, dst[1..], src[1..], if k > 0 then k - 1 else 0);
    }
  }

  /** The chains write different registers, and neither reads what the other writes. */
  predicate ChainsApart(d1: seq<nat>, s1: seq<Operand>, d2: seq<nat>, s2: seq<Operand>) {
    && (forall r :: r in d1 ==> r !in d2)
    && (forall r :: r in d2 ==> !ReadsAny(s1, r))
    && (forall r :: r in d1 ==> !ReadsAny(s2, r))
  }

  lemma ApartIsIndependent(d1: seq<nat>, s1: seq<Operand>, d2: seq<nat>, s2: seq<Operand>)
    requires |d1| == |s1| && |d2| == |s2| && ChainsApart(d1, s1, d2, s2)
    ensures AllIndependent(Chain(false, d1, s1), Chain(true, d2, s2))
  {
    var p, q := Chain(false, d1, s1), Chain(true, d2, s2);
    if d1 != [] { ChainAt(false, d1, s1, 0); }
    if d2 != [] { ChainAt(true, d2, s2, 0); }
    forall i, j | 0 <= i < |p| && 0 <= j < |q| ensures Independent(p[i], q[j]) {
      ChainAt(false, d1, s1, i);
      ChainAt(true, d2, s2, j);
      assert d1[i] in d1 && d2[j] in d2 && !ReadsAny(s1, d2[j]) && !ReadsAny(s2, d1[i]);
    }
  }

  /** However an ADCX chain and an ADOX chain that are apart are interleaved, both sums
      are exact: each with the carry in and out of its own flag. */
  lemma InterleavedChainsAdd(st: State, d1: seq<nat>, s1: seq<Operand>, d2: seq<nat>, s2: seq<Operand>, r: seq<Instr>)
    requires WellFormed(st) && |d1| == |s1| && |d2| == |s2|
    requires ChainOk(|st.gpr|, d1, s1) && ChainOk(|st.gpr|, d2, s2) && ChainsApart(d1, s1, d2, s2)
    requires Interleaves(Chain(false, d1, s1), Chain(true, d2, s2), r)
    ensures Loadable(st, r)
    ensures var st' := Run(st, r);
            && Untouched(st, st', d1 + d2) && FlagsOnlyCarry(st, st')
            && Number(st'.gpr, d1) + Product(LimbWeight(|d1|), Carry(false, st'))
               == Number(st.gpr, d1) + OperandNumber(st.gpr, st.mem, s1) + Carry(false, st)
            && Number(st'.gpr, d2) + Product(LimbWeight(|d2|), Carry(true, st'))
               == Number(st.gpr, d2) + OperandNumber(st.gpr, st.mem, s2) + Carry(true, st)
  {
    hide Run, Chain, Number, OperandNumber, Product, LimbWeight, WellFormed, Encodable;
    var p, q := Chain(false, d1, s1), Chain(true, d2, s2);
    ChainAdds(false, st, d1, s1);
    ChainAdds(true, st, d2, s2);
    ApartIsIndependent(d1, s1, d2, s2);
    InterleavingIrrelevant(st, p, q, r);
    RunAppend(st, p, q);
    var mid := Run(st, p);
    ChainAdds(true, mid, d2, s2);
    NumberDepends(st.gpr, mid.gpr, d2);
    OperandNumberDepends(st.gpr, mid.gpr, st.mem, s2);
    NumberDepends(mid.gpr, Run(mid, q).gpr, d1);
  }

  lemma ProductOne(x: nat)
    ensures Product(1, x) == x == Product(x, 1) && Product(x, 0) == 0
  {}

  /* ---------- one row: a times one limb, added to an accumulator ---------- */

  /** MULX gives the exact product in two registers and touches no flag. */
  lemma MulxEffect(st: State, hi: nat, lo: nat, rm: Operand)
    requires WellFormed(st) && hi < |st.gpr| && lo < |st.gpr| && hi != lo
    requires OperandOk(|st.gpr|, rm)
    ensures Encodable(st, Mulx(Qword, hi, lo, rm))
    ensures var st' := Exec(st, Mulx(Qword, hi, lo, rm));
            && WellFormed(st') && |st'.gpr| == |st.gpr|
            && st' == st.(gpr := st.gpr[lo := st'.gpr[lo]][hi := st'.gpr[hi]])
            && st'.gpr[lo] + Product(Pow2(QWORD), st'.gpr[hi])
               == Product(st.gpr[RDX], Value(st.gpr, st.mem, QWORD, rm))
  {
    hide Low, High, Pow2, WellFormed, Product;
    LimbBelow(st, hi);
    LimbBelow(st, RDX);
    var x, y := st.gpr[RDX], Value(st.gpr, st.mem, QWORD, rm);
    var p := Product(x, y);
    LowSmall(x, QWORD);
    TwoLimbs(x, y);
    WriteKeepsWellFormed(st, lo, Low(p, QWORD));
    WriteKeepsWellFormed(st.(gpr := st.gpr[lo := Low(p, QWORD)]), hi, High(p, QWORD));
  }

  lemma TwoLimbs(x: nat, y: nat)
    requires x < Pow2(QWORD) && y < Pow2(QWORD)
    ensures var p := Product(x, y);
            High(p, QWORD) < Pow2(QWORD) && Low(p, QWORD) + Product(Pow2(QWORD), High(p, QWORD)) == p
  {
    HighLow(Product(x, y), QWORD);
    ProductBelow(x, y, Pow2(QWORD), Pow2(QWORD));
    Pow2Add(QWORD, QWORD);
    HighBelow(Product(x, y), QWORD + QWORD, QWORD);
  }

  lemma ProductBelow(x: nat, y: nat, b: nat, d: nat)
    requires x < b && y < d
    ensures Product(x, y) < b * d
  {
    MulMonotone(x, b, y);
    ScaleBelow(y, d, b);
  }

  function MulRow(acc: seq<nat>, hi: nat, lo: nat, a: seq<Operand>): seq<Instr>
    requires |acc| == |a| + 1
    decreases |a|
  {
    if a == [] then []
    else
      [Mulx(Qword, hi, lo, a[0])] +
      ([Add(false, acc[0], InRegister(lo))] +
       ([Add(true, acc[1], InRegister(hi))] + MulRow(acc[1..], hi, lo, a[1..])))
  }

  /** The accumulator registers are distinct, the scratch registers and RDX are not
      among them, and no operand of the row is overwritten by it. */
  predicate RowOk(count: nat, acc: seq<nat>, hi: nat, lo: nat, a: seq<Operand>) {
    && RegistersExist(count, acc) && OperandsExist(count, a)
    && RDX < count && hi < count && lo < count && hi != lo && hi != RDX && lo != RDX
    && hi !in acc && lo !in acc && RDX !in acc
    && (forall i, j :: 0 <= i < j < |acc| ==> acc[i] != acc[j])
    && (forall k :: 0 <= k < |a| ==> Avoids(a[k], hi) && Avoids(a[k], lo))
    && (forall k, r :: 0 <= k < |a| && r in acc ==> Avoids(a[k], r))
  }

  lemma RowOkHead(count: nat, acc: seq<nat>, hi: nat, lo: nat, a: seq<Operand>)
    requires a != [] && |acc| == |a| + 1 && RowOk(count, acc, hi, lo, a)
    ensures RDX < count && hi < count && lo < count && acc[0] < count && acc[1] < count
    ensures OperandOk(count, a[0])
    ensures acc[0] != acc[1] && hi != lo && RDX !in {hi, lo, acc[0], acc[1]}
    ensures acc[0] !in {hi, lo} && acc[1] !in {hi, lo} && acc[0] !in acc[1..]
  {
    assert acc[0] in acc && acc[1] in acc;
  }

  /** What the three instructions of a limb do, state by state; `l` and `h` are the
      halves of the product. */
  lemma LimbEffect(st: State, acc: seq<nat>, hi: nat, lo: nat, a: seq<Operand>)
    returns (s1: State, s2: State, s3: State, l: nat, h: nat)
    requires WellFormed(st) && a != [] && |acc| == |a| + 1 && RowOk(|st.gpr|, acc, hi, lo, a)
    ensures Encodable(st, Mulx(Qword, hi, lo, a[0])) && s1 == Exec(st, Mulx(Qword, hi, lo, a[0]))
    ensures |s1.gpr| == |s2.gpr| == |s3.gpr| == |st.gpr| > RDX
    ensures Encodable(s1, Add(false, acc[0], InRegister(lo)))
    ensures s2 == Exec(s1, Add(false, acc[0], InRegister(lo)))
    ensures Encodable(s2, Add(true, acc[1], InRegister(hi)))
    ensures s3 == Exec(s2, Add(true, acc[1], InRegister(hi)))
    ensures WellFormed(s3) && FlagsOnlyCarry(st, s3)
    ensures Untouched(st, s3, [hi, lo, acc[0], acc[1]])
    ensures l + Product(Pow2(QWORD), h) == Product(st.gpr[RDX], Value(st.gpr, st.mem, QWORD, a[0]))
    ensures s3.gpr[acc[0]] + Product(Pow2(QWORD), Carry(false, s3)) == st.gpr[acc[0]] + l + Carry(false, st)
    ensures s3.gpr[acc[1]] + Product(Pow2(QWORD), Carry(true, s3)) == st.gpr[acc[1]] + h + Carry(true, st)
  {
    hide Exec, Encodable, Low, Pow2, Product, Add, WellFormed, RegistersOk, RowOk;
    RowOkHead(|st.gpr|, acc, hi, lo, a);
    MulxEffect(st, hi, lo, a[0]);
    s1 := Exec(st, Mulx(Qword, hi, lo, a[0]));
    AddEffect(false, s1, acc[0], InRegister(lo));
    s2 := Exec(s1, Add(false, acc[0], InRegister(lo)));
    AddEffect(true, s2, acc[1], InRegister(hi));
    s3 := Exec(s2, Add(true, acc[1], InRegister(hi)));
    l, h := s1.gpr[lo], s1.gpr[hi];
    LimbBelow(s1, lo);
    LimbBelow(s1, hi);
    LowSmall(l, QWORD);
    LowSmall(h, QWORD);
  }

  /** The arithmetic of one limb of a row: `b` is the base, `m` the multiplier, `w` the
      weight above the remaining limbs. */
  lemma RowUp(b: nat, w: nat, m: nat, a0: nat, a1: nat, l: nat, h: nat,
              g0: nat, g1: nat, n2: nat, c: nat, o: nat,
              g0': nat, g1': nat, c1: nat, o1: nat, n': nat, c': nat, o': nat)
    requires l + b * h == m * a0
    requires g0' + b * c1 == g0 + l + c
    requires g1' + b * o1 == g1 + h + o
    requires n' + w * c' + (b * w) * o' == (g1' + b * n2) + m * a1 + c1 + b * o1
    ensures (g0' + b * n') + (b * w) * c' + (b * (b * w)) * o'
         == (g0 + b * (g1 + b * n2)) + m * (a0 + b * a1) + c + b * o
  {
    Spread4(b, n', w * c', (b * w) * o', 0);
    Spread4(b, g1' + b * n2, m * a1, c1, b * o1);
    Spread4(b, g1', b * o1, 0, 0);
    Spread4(b, g1, h, o, 0);
    Spread4(b, g1', b * n2, 0, 0);
    Spread4(b, g1, b * n2, 0, 0);
    Spread4(m, a0, b * a1, 0, 0);
    Regroup(b, w, c');
    Regroup(b, b * w, o');
    Regroup(m, b, a1);
    Regroup(b, m, a1);
    assert m * b == b * m;
  }

  lemma Spread4(b: nat, x: int, y: int, z: int, t: int)
    ensures b * (x + y + z + t) == b * x + b * y + b * z + b * t
  {}

  lemma Regroup(x: nat, y: nat, z: nat)
    ensures x * (y * z) == (x * y) * z
  {}

  predicate FlagsOnlyCarry(st: State, st': State) {
    st'.zf == st.zf && st'.sf == st.sf && st'.pf == st.pf
  }

  /** The exact effect of a row on accumulator and carries: CF leaves at limb n, OF at
      limb n + 1, and OF comes in at limb 1. */
  ghost predicate RowSum(st: State, st': State, acc: seq<nat>, a: seq<Operand>)
    requires |st.gpr| == |st'.gpr| > RDX && |acc| == |a| + 1
    requires RegistersExist(|st.gpr|, acc) && OperandsExist(|st.gpr|, a)
  {
    Number(st'.gpr, acc) + Product(LimbWeight(|a|), Carry(false, st'))
      + Product(LimbWeight(|a| + 1), Carry(true, st'))
    == Number(st.gpr, acc) + Product(st.gpr[RDX], OperandNumber(st.gpr, st.mem, a))
       + Carry(false, st) + Product(Pow2(QWORD), Carry(true, st))
  }

  lemma RowOkRest(count: nat, acc: seq<nat>, hi: nat, lo: nat, a: seq<Operand>)
    requires a != [] && |acc| == |a| + 1 && RowOk(count, acc, hi, lo, a)
    ensures RowOk(count, acc[1..], hi, lo, a[1..])
    ensures acc[0] in acc && acc[1] in acc && a[0] in a
    ensures forall r :: r in acc[2..] ==> r != acc[0] && r != acc[1] && r != hi && r != lo
    ensures forall r :: ReadsAny(a[1..], r) ==> r != acc[0] && r != acc[1] && r != hi && r != lo
    ensures RDX != acc[0] && RDX != acc[1] && RDX != hi && RDX != lo
  {
    assert acc[0] in acc && acc[1] in acc;
    assert forall r :: r in acc[1..] ==> r in acc;
    forall k, r | 0 <= k < |a[1..]| && r in acc[1..] ensures Avoids(a[1..][k], r) {
      assert a[1..][k] == a[k + 1];
    }
    forall k | 0 <= k < |a[1..]| ensures Avoids(a[1..][k], hi) && Avoids(a[1..][k], lo) {
      assert a[1..][k] == a[k + 1];
    }
    forall r | r in acc[2..] ensures r != acc[0] && r != acc[1] && r != hi && r != lo {
      var k :| 0 <= k < |acc[2..]| && acc[2..][k] == r;
      assert acc[k + 2] == r;
    }
    forall r | ReadsAny(a[1..], r) ensures r != acc[0] && r != acc[1] && r != hi && r != lo {
      var k :| 0 <= k < |a[1..]| && Reads(a[1..][k], r);
      assert Reads(a[k + 1], r);
    }
  }

  lemma RowOkExists(count: nat, acc: seq<nat>, hi: nat, lo: nat, a: seq<Operand>)
    requires RowOk(count, acc, hi, lo, a)
    ensures RegistersExist(count, acc) && OperandsExist(count, a) && RDX < count
  {}

  lemma NumberTwo(gpr: seq<nat>, acc: seq<nat>)
    requires |acc| >= 2 && RegistersExist(|gpr|, acc)
    ensures Number(gpr, acc) == gpr[acc[0]] + Pow2(QWORD) * Number(gpr, acc[1..])
    ensures Number(gpr, acc[1..]) == gpr[acc[1]] + Pow2(QWORD) * Number(gpr, acc[2..])
  {
    assert acc[1..][1..] == acc[2..] && acc[1..][0] == acc[1];
  }

  lemma OperandNumberCons(gpr: seq<nat>, mem: Memory, a: seq<Operand>)
    requires a != [] && OperandsExist(|gpr|, a)
    ensures OperandNumber(gpr, mem, a) == Value(gpr, mem, QWORD, a[0]) + Product(Pow2(QWORD), OperandNumber(gpr, mem, a[1..]))
  {}

  lemma NumberCons(gpr: seq<nat>, rs: seq<nat>)
    requires rs != [] && RegistersExist(|gpr|, rs)
    ensures Number(gpr, rs) == gpr[rs[0]] + Product(Pow2(QWORD), Number(gpr, rs[1..]))
  {}

  lemma EmptyRow(st: State, acc: seq<nat>)
    requires WellFormed(st) && |acc| == 1 && RegistersExist(|st.gpr|, acc)
    ensures RowSum(st, st, acc, [])
  {
    LimbWeightStep(1);
    ProductOne(Carry(false, st));
    ProductOne(Carry(true, st));
    ProductOne(st.gpr[RDX]);
    ProductOne(LimbWeight(1));
    ProductOne(Pow2(QWORD));
    assert LimbWeight(1) == Pow2(QWORD);
  }

  /** One limb in front of a row. */
  lemma RowSumCons(st: State, s3: State, st': State, acc: seq<nat>, hi: nat, lo: nat, a: seq<Operand>, l: nat, h: nat)
    requires WellFormed(st) && a != [] && |acc| == |a| + 1 && RowOk(|st.gpr|, acc, hi, lo, a)
    requires |st.gpr| == |s3.gpr| == |st'.gpr|
    requires Untouched(st, s3, [hi, lo, acc[0], acc[1]])
    requires l + Product(Pow2(QWORD), h) == Product(st.gpr[RDX], Value(st.gpr, st.mem, QWORD, a[0]))
    requires s3.gpr[acc[0]] + Product(Pow2(QWORD), Carry(false, s3)) == st.gpr[acc[0]] + l + Carry(false, st)
    requires s3.gpr[acc[1]] + Product(Pow2(QWORD), Carry(true, s3)) == st.gpr[acc[1]] + h + Carry(true, st)
    requires st'.gpr[acc[0]] == s3.gpr[acc[0]]
    requires RegistersExist(|st.gpr|, acc[1..]) && OperandsExist(|st.gpr|, a[1..])
    requires RowSum(s3, st', acc[1..], a[1..])
    ensures RowSum(st, st', acc, a)
  {
    hide Pow2, WellFormed, Number, OperandNumber, LimbWeight, Low, RowOk, Value, Reads;
    RowOkRest(|st.gpr|, acc, hi, lo, a);
    RowOkExists(|st.gpr|, acc, hi, lo, a);
    var tail := acc[1..];
    NumberTwo(st.gpr, acc);
    NumberTwo(s3.gpr, acc);
    NumberTwo(st'.gpr, acc);
    OperandNumberCons(st.gpr, st.mem, a);
    NumberDepends(st.gpr, s3.gpr, acc[2..]);
    OperandNumberDepends(st.gpr, s3.gpr, st.mem, a[1..]);
    LimbWeightStep(|a|);
    LimbWeightStep(|a| + 1);
    RowUp(Pow2(QWORD), LimbWeight(|a| - 1), st.gpr[RDX], Value(st.gpr, st.mem, QWORD, a[0]),
          OperandNumber(st.gpr, st.mem, a[1..]), l, h, st.gpr[acc[0]], st.gpr[acc[1]], Number(st.gpr, acc[2..]),
          Carry(false, st), Carry(true, st), s3.gpr[acc[0]], s3.gpr[acc[1]], Carry(false, s3),
          Carry(true, s3), Number(st'.gpr, tail), Carry(false, st'), Carry(true, st'));
  }

  /** A row adds the whole product of RDX and the operands to the accumulator, for any
      number of limbs and any incoming carries. */
  lemma {:induction false} RowMultiplies(st: State, acc: seq<nat>, hi: nat, lo: nat, a: seq<Operand>)
    requires WellFormed(st) && |acc| == |a| + 1 && RowOk(|st.gpr|, acc, hi, lo, a)
    ensures Loadable(st, MulRow(acc, hi, lo, a))
    ensures var st' := Run(st, MulRow(acc, hi, lo, a));
            && WellFormed(st') && Untouched(st, st', [hi, lo] + acc)
            && FlagsOnlyCarry(st, st')
            && RowSum(st, st', acc, a)
    decreases |a|
  {
    hide Exec, Encodable, Pow2, Product, Add, WellFormed, RowSum, RowOk, LimbWeight;
    RowOkExists(|st.gpr|, acc, hi, lo, a);
    if a == [] {
      EmptyRow(st, acc);
      LimbBelow(st, acc[0]);
    } else {
      RowOkHead(|st.gpr|, acc, hi, lo, a);
      RowOkRest(|st.gpr|, acc, hi, lo, a);
      RowOkExists(|st.gpr|, acc[1..], hi, lo, a[1..]);
      var s1, s2, s3, l, h := LimbEffect(st, acc, hi, lo, a);
      var rest := MulRow(acc[1..], hi, lo, a[1..]);
      RowMultiplies(s3, acc[1..], hi, lo, a[1..]);
      var st' := Run(s3, rest);
      RunStep(s2, Add(true, acc[1], InRegister(hi)), rest);
      var tail2 := [Add(true, acc[1], InRegister(hi))] + rest;
      RunStep(s1, Add(false, acc[0], InRegister(lo)), tail2);
      var tail1 := [Add(false, acc[0], InRegister(lo))] + tail2;
      RunStep(st, Mulx(Qword, hi, lo, a[0]), tail1);
      assert acc[0] !in [hi, lo] + acc[1..];
      RowSumCons(st, s3, st', acc, hi, lo, a, l, h);
    }
  }

  /* ---------- sizes ---------- */

  lemma {:induction false} NumberBelow(gpr: seq<nat>, rs: seq<nat>)
    requires RegistersExist(|gpr|, rs) && RegistersOk(gpr, QWORD)
    ensures Number(gpr, rs) < LimbWeight(|rs|)
    decreases |rs|
  {
    LimbWeightStep(|rs| + 1);
    if rs == [] {
    } else {
      LimbWeightStep(|rs|);
      NumberBelow(gpr, rs[1..]);
      LimbsBelow(gpr[rs[0]], Number(gpr, rs[1..]), Pow2(QWORD), LimbWeight(|rs| - 1));
    }
  }

  lemma {:induction false} OperandNumberBelow(gpr: seq<nat>, mem: Memory, a: seq<Operand>)
    requires OperandsExist(|gpr|, a)
    ensures OperandNumber(gpr, mem, a) < LimbWeight(|a|)
    decreases |a|
  {
    LimbWeightStep(|a| + 1);
    if a == [] {
    } else {
      LimbWeightStep(|a|);
      OperandNumberBelow(gpr, mem, a[1..]);
      LimbsBelow(Value(gpr, mem, QWORD, a[0]), OperandNumber(gpr, mem, a[1..]), Pow2(QWORD), LimbWeight(|a| - 1));
    }
  }

  lemma LimbsBelow(g: nat, rest: nat, b: nat, w: nat)
    requires g < b && rest < w
    ensures g + Product(b, rest) < Product(b, w)
  {
    BelowNext(g, rest, w, b);
  }

  lemma {:induction false} NumberSplit(gpr: seq<nat>, p: seq<nat>, q: seq<nat>)
    requires RegistersExist(|gpr|, p + q) && RegistersExist(|gpr|, p) && RegistersExist(|gpr|, q)
    ensures Number(gpr, p + q) == Number(gpr, p) + Product(LimbWeight(|p|), Number(gpr, q))
    decreases |p|
  {
    if p == [] {
      assert p + q == q;
      LimbWeightStep(1);
      ProductOne(Number(gpr, q));
    } else {
      assert (p + q)[1..] == p[1..] + q;
      NumberSplit(gpr, p[1..], q);
      LimbWeightStep(|p|);
      SplitUp(Pow2(QWORD), LimbWeight(|p| - 1), gpr[p[0]], Number(gpr, p[1..]), Number(gpr, q));
    }
  }

  lemma SplitUp(b: nat, w: nat, g: nat, x: nat, y: nat)
    ensures g + Product(b, x + Product(w, y)) == (g + Product(b, x)) + Product(Product(b, w), y)
  {
    Spread4(b, x, w * y, 0, 0);
    Regroup(b, w, y);
  }

  /* ---------- one round: load the multiplier, clear the carries, row, last carry ---------- */

  function MulRound(acc: seq<nat>, hi: nat, lo: nat, zero: nat, a: seq<Operand>, m: Operand): seq<Instr>
    requires |acc| == |a| + 1
  {
    [Mov(Qword, RDX, m)] +
    ([XorRegister(Qword, zero, InRegister(zero))] +
     (MulRow(acc, hi, lo, a) + [Add(false, acc[|a|], InRegister(zero))]))
  }

  predicate AvoidsAll(rm: Operand, acc: seq<nat>, hi: nat, lo: nat, zero: nat) {
    && Avoids(rm, hi) && Avoids(rm, lo) && Avoids(rm, zero) && Avoids(rm, RDX)
    && forall r :: r in acc ==> Avoids(rm, r)
  }

  /** All registers distinct, and no operand among the registers written. */
  predicate MulOk(count: nat, acc: seq<nat>, hi: nat, lo: nat, zero: nat, a: seq<Operand>) {
    && RowOk(count, acc, hi, lo, a)
    && zero < count && zero != hi && zero != lo && zero != RDX && zero !in acc
    && (forall k :: 0 <= k < |a| ==> Avoids(a[k], zero) && Avoids(a[k], RDX))
  }

  /** Loading RDX and clearing both carries. */
  lemma PrepareEffect(st: State, zero: nat, m: Operand) returns (s1: State, s2: State)
    requires WellFormed(st) && zero < |st.gpr| && zero != RDX && OperandOk(|st.gpr|, m)
    ensures Encodable(st, Mov(Qword, RDX, m)) && s1 == Exec(st, Mov(Qword, RDX, m))
    ensures |s1.gpr| == |s2.gpr| == |st.gpr|
    ensures Encodable(s1, XorRegister(Qword, zero, InRegister(zero)))
    ensures s2 == Exec(s1, XorRegister(Qword, zero, InRegister(zero)))
    ensures WellFormed(s2) && Untouched(st, s2, [RDX, zero])
    ensures s2.gpr[RDX] == Value(st.gpr, st.mem, QWORD, m) && s2.gpr[zero] == 0 && !s2.cf && !s2.of
  {
    hide Low, Pow2, Xor, WellFormed, PopCount, Bit;
    LimbBelow(st, zero);
    var v := Value(st.gpr, st.mem, QWORD, m);
    s1 := Exec(st, Mov(Qword, RDX, m));
    WriteKeepsWellFormed(st, RDX, v);
    XorSelf(Get(s1.gpr, QWORD, zero));
    s2 := Exec(s1, XorRegister(Qword, zero, InRegister(zero)));
    WriteKeepsWellFormed(s1, zero, 0);
    FlagsKeepWellFormed(s1.(gpr := s1.gpr[zero := 0]), s2);
  }

  /** A number below w plus a one-limb multiple of another is below b * w. */
  lemma NoOverflow(w: nat, b: nat, n: nat, m: nat, a: nat)
    requires n < w && m < b && a < w
    ensures n + Product(m, a) < Product(b, w)
  {
    MulMonotone(m, b - 1, a);
    MulMonotone(a, w - 1, b - 1);
    assert (b - 1) * a == a * (b - 1);
    assert (w - 1) * (b - 1) == w * (b - 1) - (b - 1);
    assert w * (b - 1) == b * w - w;
  }

  /** The row's carries, given that the total fits: OF is clear, and adding CF to the
      top limb finishes the sum. */
  lemma FinishRound(w: nat, b: nat, sum: nat, low: nat, top: nat, cf: nat, of: nat, top': nat, cf': nat)
    requires sum < Product(b, w) && cf < 2 && of < 2 && cf' < 2
    requires (low + Product(w, top)) + Product(w, cf) + Product(Product(b, w), of) == sum
    requires top' + Product(b, cf') == top + 0 + cf
    ensures of == 0 && cf' == 0 && low + Product(w, top') == sum
  {
    if of == 1 {
      ProductOne(Product(b, w));
    } else {
      ProductOne(Product(b, w));
      Spread4(w, top, cf, 0, 0);
      Spread4(w, top', b * cf', 0, 0);
      assert w * (b * cf') == (b * w) * cf';
      if cf' == 1 {
        MulMonotone(0, top', w);
      }
      assert w * top' == top' * w;
    }
  }

  lemma TopZero(gpr: seq<nat>, acc: seq<nat>)
    requires |acc| > 0 && RegistersExist(|gpr|, acc) && RegistersOk(gpr, QWORD)
    requires RegistersExist(|gpr|, acc[..|acc| - 1])
    ensures Number(gpr, acc) == Number(gpr, acc[..|acc| - 1])
                                + Product(LimbWeight(|acc| - 1), gpr[acc[|acc| - 1]])
    ensures Number(gpr, acc[..|acc| - 1]) < LimbWeight(|acc| - 1)
  {
    hide Number, Product, LimbWeight;
    var p, q := acc[..|acc| - 1], [acc[|acc| - 1]];
    assert p + q == acc;
    NumberSplit(gpr, p, q);
    NumberBelow(gpr, p);
    NumberOne(gpr, acc[|acc| - 1]);
  }

  lemma NumberOne(gpr: seq<nat>, r: nat)
    requires r < |gpr|
    ensures Number(gpr, [r]) == gpr[r]
  {
    assert [r][1..] == [];
  }

  /** A round adds the operands times the multiplier to an accumulator whose top limb
      is zero, exactly, and leaves no carry. */
  lemma RoundMultiplies(st: State, acc: seq<nat>, hi: nat, lo: nat, zero: nat, a: seq<Operand>, m: Operand)
    requires WellFormed(st) && |acc| == |a| + 1 && MulOk(|st.gpr|, acc, hi, lo, zero, a)
    requires OperandOk(|st.gpr|, m) && AvoidsAll(m, acc, hi, lo, zero)
    requires st.gpr[acc[|a|]] == 0
    ensures Loadable(st, MulRound(acc, hi, lo, zero, a, m))
    ensures var st' := Run(st, MulRound(acc, hi, lo, zero, a, m));
            && WellFormed(st') && !st'.cf && !st'.of
            && Untouched(st, st', [hi, lo, RDX, zero] + acc)
            && Number(st'.gpr, acc)
               == Number(st.gpr, acc) + Product(Value(st.gpr, st.mem, QWORD, m), OperandNumber(st.gpr, st.mem, a))
  {
    hide Exec, Low, Pow2, Product, Add, WellFormed, Number, OperandNumber, LimbWeight, Run, MulRow;
    var s1, s2 := PrepareEffect(st, zero, m);
    RowMultiplies(s2, acc, hi, lo, a);
    var row := MulRow(acc, hi, lo, a);
    var s3 := Run(s2, row);
    var top := acc[|a|];
    assert top in acc;
    AddEffect(false, s3, top, InRegister(zero));
    var s4 := Exec(s3, Add(false, top, InRegister(zero)));
    RoundSum(st, s2, s3, s4, acc, zero, a, m);
    RoundProgram(st, s1, s2, s3, s4, acc, hi, lo, zero, a, m);
  }

  lemma RoundProgram(st: State, s1: State, s2: State, s3: State, s4: State,
                     acc: seq<nat>, hi: nat, lo: nat, zero: nat, a: seq<Operand>, m: Operand)
    requires |acc| == |a| + 1 && |st.gpr| > RDX
    requires Encodable(st, Mov(Qword, RDX, m)) && s1 == Exec(st, Mov(Qword, RDX, m))
    requires |s1.gpr| == |s2.gpr| == |s3.gpr| == |st.gpr|
    requires Encodable(s1, XorRegister(Qword, zero, InRegister(zero)))
    requires s2 == Exec(s1, XorRegister(Qword, zero, InRegister(zero)))
    requires Loadable(s2, MulRow(acc, hi, lo, a)) && s3 == Run(s2, MulRow(acc, hi, lo, a))
    requires Encodable(s3, Add(false, acc[|a|], InRegister(zero)))
    requires s4 == Exec(s3, Add(false, acc[|a|], InRegister(zero)))
    ensures Loadable(st, MulRound(acc, hi, lo, zero, a, m))
    ensures Run(st, MulRound(acc, hi, lo, zero, a, m)) == s4
  {
    hide Exec, Encodable, MulRow, Add;
    var row := MulRow(acc, hi, lo, a);
    var last := [Add(false, acc[|a|], InRegister(zero))];
    RunKeepsShape(s2, row);
    ExecKeepsShape(s3, last[0]);
    RunStep(s3, last[0], []);
    assert last == [last[0]] + [];
    LoadableIn(s3, s2, last);
    RunAppend(s2, row, last);
    RunStep(s1, XorRegister(Qword, zero, InRegister(zero)), row + last);
    RunStep(st, Mov(Qword, RDX, m), [XorRegister(Qword, zero, InRegister(zero))] + (row + last));
  }

  lemma ZeroRegister(gpr: seq<nat>, mem: Memory, r: nat)
    requires r < |gpr| && gpr[r] == 0
    ensures Value(gpr, mem, QWORD, InRegister(r)) == 0
  {
    LowSmall(0, QWORD);
  }

  lemma RoundSum(st: State, s2: State, s3: State, s4: State,
                 acc: seq<nat>, zero: nat, a: seq<Operand>, m: Operand)
    requires |acc| == |a| + 1 && WellFormed(st) && WellFormed(s2) && WellFormed(s3) && WellFormed(s4)
    requires |s2.gpr| == |s3.gpr| == |s4.gpr| == |st.gpr| && s2.mem == st.mem
    requires RegistersExist(|st.gpr|, acc) && OperandsExist(|st.gpr|, a)
    requires OperandOk(|st.gpr|, m) && zero < |st.gpr| && s3.gpr[zero] == 0
    requires forall i, j :: 0 <= i < j < |acc| ==> acc[i] != acc[j]
    requires SameRegisters(st.gpr, s2.gpr, acc) && SameOperands(st.gpr, s2.gpr, a)
    requires s2.gpr[RDX] == Value(st.gpr, st.mem, QWORD, m) && !s2.cf && !s2.of
    requires RowSum(s2, s3, acc, a) && st.gpr[acc[|a|]] == 0
    requires s4.gpr == s3.gpr[acc[|a|] := s4.gpr[acc[|a|]]] && s4.of == s3.of
    requires s4.gpr[acc[|a|]] + Product(Pow2(QWORD), Carry(false, s4))
             == s3.gpr[acc[|a|]] + Value(s3.gpr, s3.mem, QWORD, InRegister(zero)) + Carry(false, s3)
    ensures !s4.cf && !s4.of
    ensures Number(s4.gpr, acc)
            == Number(st.gpr, acc) + Product(Value(st.gpr, st.mem, QWORD, m), OperandNumber(st.gpr, st.mem, a))
  {
    hide Pow2, Low, Product, Number, OperandNumber, LimbWeight, Value, RegistersOk;
    var n := |a|;
    var low := acc[..n];
    assert RegistersExist(|st.gpr|, low);
    NumberDepends(st.gpr, s2.gpr, acc);
    OperandNumberDepends(st.gpr, s2.gpr, st.mem, a);
    TopZero(st.gpr, acc);
    TopZero(s3.gpr, acc);
    TopZero(s4.gpr, acc);
    NumberDepends(s3.gpr, s4.gpr, low);
    OperandNumberBelow(st.gpr, st.mem, a);
    ZeroRegister(s3.gpr, s3.mem, zero);
    ProductOne(LimbWeight(n));
    ProductOne(Pow2(QWORD));
    LimbWeightStep(n + 1);
    var sum := Number(st.gpr, acc) + Product(Value(st.gpr, st.mem, QWORD, m), OperandNumber(st.gpr, st.mem, a));
    NoOverflow(LimbWeight(n), Pow2(QWORD), Number(st.gpr, low), Value(st.gpr, st.mem, QWORD, m),
               OperandNumber(st.gpr, st.mem, a));
    FinishRound(LimbWeight(n), Pow2(QWORD), sum, Number(s3.gpr, low), s3.gpr[acc[n]],
                Carry(false, s3), Carry(true, s3), s4.gpr[acc[n]], Carry(false, s4));
  }

  /* ---------- full multiplication ---------- */

  /** One round per limb of `b`, each one limb further up the accumulator. */
  function MulProgram(acc: seq<nat>, hi: nat, lo: nat, zero: nat, a: seq<Operand>, b: seq<Operand>): seq<Instr>
    requires |acc| == |a| + |b|
    decreases |b|
  {
    if b == [] then []
    else MulRound(acc[..|a| + 1], hi, lo, zero, a, b[0]) + MulProgram(acc[1..], hi, lo, zero, a, b[1..])
  }

  predicate FactorsOk(count: nat, acc: seq<nat>, hi: nat, lo: nat, zero: nat, a: seq<Operand>, b: seq<Operand>) {
    && MulOk(count, acc, hi, lo, zero, a)
    && OperandsExist(count, b)
    && forall k :: 0 <= k < |b| ==> AvoidsAll(b[k], acc, hi, lo, zero)
  }

  predicate TopLimbsZero(gpr: seq<nat>, acc: seq<nat>, n: nat) {
    forall k :: n <= k < |acc| && acc[k] < |gpr| ==> gpr[acc[k]] == 0
  }

  lemma FactorsOkParts(count: nat, acc: seq<nat>, hi: nat, lo: nat, zero: nat, a: seq<Operand>, b: seq<Operand>)
    requires |acc| == |a| + |b| && b != [] && FactorsOk(count, acc, hi, lo, zero, a, b)
    ensures MulOk(count, acc[..|a| + 1], hi, lo, zero, a)
    ensures AvoidsAll(b[0], acc[..|a| + 1], hi, lo, zero) && OperandOk(count, b[0])
    ensures FactorsOk(count, acc[1..], hi, lo, zero, a, b[1..])
  {
    var p, q := acc[..|a| + 1], acc[1..];
    assert forall r :: r in p || r in q ==> r in acc;
    assert forall k :: 0 <= k < |b[1..]| ==> b[1..][k] == b[k + 1];
  }

  /** The operands of the remaining rounds, and the limbs above this round, are as
      they were. */
  lemma RoundFrame(st: State, mid: State, acc: seq<nat>, hi: nat, lo: nat, zero: nat, a: seq<Operand>, b: seq<Operand>)
    requires |acc| == |a| + |b| && b != [] && FactorsOk(|st.gpr|, acc, hi, lo, zero, a, b)
    requires Untouched(st, mid, [hi, lo, RDX, zero] + acc[..|a| + 1])
    requires TopLimbsZero(st.gpr, acc, |a|)
    ensures SameOperands(st.gpr, mid.gpr, a) && SameOperands(st.gpr, mid.gpr, b[1..])
    ensures SameRegisters(st.gpr, mid.gpr, acc[|a| + 1..])
    ensures TopLimbsZero(mid.gpr, acc[1..], |a|)
  {
    var p, written := acc[..|a| + 1], [hi, lo, RDX, zero] + acc[..|a| + 1];
    assert forall r :: r in p ==> r in acc;
    forall r | ReadsAny(a, r) ensures r !in written {
      var k :| 0 <= k < |a| && Reads(a[k], r);
      assert Avoids(a[k], RDX);
    }
    forall r | ReadsAny(b[1..], r) ensures r !in written {
      var k :| 0 <= k < |b[1..]| && Reads(b[1..][k], r);
      assert AvoidsAll(b[k + 1], acc, hi, lo, zero);
    }
    forall k | |a| + 1 <= k < |acc| ensures acc[k] !in written {
      assert acc[k] in acc;
    }
    forall r | r in acc[|a| + 1..] ensures r !in written {
      var k :| 0 <= k < |acc[|a| + 1..]| && acc[|a| + 1..][k] == r;
      assert acc[k + |a| + 1] == r;
    }
    forall k | |a| <= k < |acc[1..]| && acc[1..][k] < |mid.gpr| ensures mid.gpr[acc[1..][k]] == 0 {
      assert acc[1..][k] == acc[k + 1];
    }
  }

  /** What a round adds to its part of the accumulator it adds to all of it. */
  lemma RoundInAccumulator(st: State, mid: State, acc: seq<nat>, n: nat, product: nat)
    requires n + 1 <= |acc| && |st.gpr| == |mid.gpr| && RegistersExist(|st.gpr|, acc)
    requires RegistersExist(|st.gpr|, acc[..n + 1]) && RegistersExist(|st.gpr|, acc[n + 1..])
    requires SameRegisters(st.gpr, mid.gpr, acc[n + 1..])
    requires Number(mid.gpr, acc[..n + 1]) == Number(st.gpr, acc[..n + 1]) + product
    ensures Number(mid.gpr, acc) == Number(st.gpr, acc) + product
  {
    hide Number, Product, LimbWeight;
    assert acc == acc[..n + 1] + acc[n + 1..];
    NumberSplit(st.gpr, acc[..n + 1], acc[n + 1..]);
    NumberSplit(mid.gpr, acc[..n + 1], acc[n + 1..]);
    NumberDepends(st.gpr, mid.gpr, acc[n + 1..]);
  }

  /** The limbs of the multiplier, from the second one on, count for the base. */
  lemma NextLimbs(w: nat, a: nat, b0: nat, b1: nat, g: nat, n0: nat, n1: nat, n2: nat)
    requires g + Product(w, n1) == n0 + Product(b0, a)
    requires n2 == n1 + Product(a, b1)
    ensures g + Product(w, n2) == n0 + Product(a, b0 + Product(w, b1))
  {
    Spread4(w, n1, a * b1, 0, 0);
    Spread4(a, b0, w * b1, 0, 0);
    Regroup(w, a, b1);
    Regroup(a, w, b1);
    assert w * a == a * w && b0 * a == a * b0;
  }

  /** Later rounds on top of a first one. */
  lemma RoundThenRest(st: State, mid: State, st': State, acc: seq<nat>, a: seq<Operand>, b: seq<Operand>)
    requires acc != [] && b != [] && |st.gpr| == |mid.gpr| == |st'.gpr| && mid.mem == st.mem
    requires RegistersExist(|st.gpr|, acc) && RegistersExist(|st.gpr|, acc[1..])
    requires OperandsExist(|st.gpr|, a) && OperandsExist(|st.gpr|, b) && OperandsExist(|st.gpr|, b[1..])
    requires SameOperands(st.gpr, mid.gpr, a) && SameOperands(st.gpr, mid.gpr, b[1..])
    requires Number(mid.gpr, acc)
             == Number(st.gpr, acc) + Product(Value(st.gpr, st.mem, QWORD, b[0]), OperandNumber(st.gpr, st.mem, a))
    requires st'.gpr[acc[0]] == mid.gpr[acc[0]]
    requires Number(st'.gpr, acc[1..])
             == Number(mid.gpr, acc[1..])
                + Product(OperandNumber(mid.gpr, mid.mem, a), OperandNumber(mid.gpr, mid.mem, b[1..]))
    ensures Number(st'.gpr, acc)
            == Number(st.gpr, acc) + Product(OperandNumber(st.gpr, st.mem, a), OperandNumber(st.gpr, st.mem, b))
  {
    hide Low, Pow2, Product, Number, OperandNumber, Value;
    var q := acc[1..];
    NumberCons(mid.gpr, acc);
    NumberCons(st'.gpr, acc);
    OperandNumberCons(st.gpr, st.mem, b);
    OperandNumberDepends(st.gpr, mid.gpr, st.mem, a);
    OperandNumberDepends(st.gpr, mid.gpr, st.mem, b[1..]);
    NextLimbs(Pow2(QWORD), OperandNumber(st.gpr, st.mem, a), Value(st.gpr, st.mem, QWORD, b[0]),
              OperandNumber(st.gpr, st.mem, b[1..]), mid.gpr[acc[0]], Number(st.gpr, acc),
              Number(mid.gpr, q), Number(st'.gpr, q));
  }

  lemma FramesJoin(st: State, mid: State, st': State, acc: seq<nat>, n: nat, hi: nat, lo: nat, zero: nat)
    requires n <= |acc| && |acc| > 0 && |st.gpr| > acc[0]
    requires forall i, j :: 0 <= i < j < |acc| ==> acc[i] != acc[j]
    requires hi !in acc && lo !in acc && RDX !in acc && zero !in acc
    requires Untouched(st, mid, [hi, lo, RDX, zero] + acc[..n])
    requires Untouched(mid, st', [hi, lo, RDX, zero] + acc[1..])
    ensures Untouched(st, st', [hi, lo, RDX, zero] + acc)
    ensures st'.gpr[acc[0]] == mid.gpr[acc[0]]
  {
    assert acc[0] in acc && acc[0] !in [hi, lo, RDX, zero] + acc[1..];
    assert forall r :: r in acc[..n] || r in acc[1..] ==> r in acc;
  }

  /** Multiplication of numbers of any length by MULX, ADCX and ADOX is exact: the
      product is added to the accumulator, and no carry is left. */
  lemma {:induction false} MultiplicationExact(st: State, acc: seq<nat>, hi: nat, lo: nat, zero: nat,
                                               a: seq<Operand>, b: seq<Operand>)
    requires WellFormed(st) && |acc| == |a| + |b| && FactorsOk(|st.gpr|, acc, hi, lo, zero, a, b)
    requires TopLimbsZero(st.gpr, acc, |a|)
    ensures Loadable(st, MulProgram(acc, hi, lo, zero, a, b))
    ensures var st' := Run(st, MulProgram(acc, hi, lo, zero, a, b));
            && WellFormed(st') && Untouched(st, st', [hi, lo, RDX, zero] + acc)
            && (b != [] ==> !st'.cf && !st'.of)
            && Number(st'.gpr, acc)
               == Number(st.gpr, acc) + Product(OperandNumber(st.gpr, st.mem, a), OperandNumber(st.gpr, st.mem, b))
    decreases |b|
  {
    hide Exec, Low, Pow2, Product, WellFormed, LimbWeight, MulRound, OperandNumber, Number;
    if b == [] {
      LimbBelow(st, RDX);
      NoLimbs(st.gpr, st.mem, OperandNumber(st.gpr, st.mem, a));
    } else {
      var p, q := acc[..|a| + 1], acc[1..];
      var first, rest := MulRound(p, hi, lo, zero, a, b[0]), MulProgram(q, hi, lo, zero, a, b[1..]);
      FactorsOkParts(|st.gpr|, acc, hi, lo, zero, a, b);
      RoundMultiplies(st, p, hi, lo, zero, a, b[0]);
      var mid := Run(st, first);
      RoundFrame(st, mid, acc, hi, lo, zero, a, b);
      RoundInAccumulator(st, mid, acc, |a|, Product(Value(st.gpr, st.mem, QWORD, b[0]), OperandNumber(st.gpr, st.mem, a)));
      MultiplicationExact(mid, q, hi, lo, zero, a, b[1..]);
      FramesJoin(st, mid, Run(mid, rest), acc, |a| + 1, hi, lo, zero);
      RoundThenRest(st, mid, Run(mid, rest), acc, a, b);
      LoadableIn(mid, st, rest);
      RunAppend(st, first, rest);
    }
  }

  lemma NoLimbs(gpr: seq<nat>, mem: Memory, x: nat)
    ensures OperandNumber(gpr, mem, []) == 0 && Product(x, OperandNumber(gpr, mem, [])) == 0
  {}

  const RSP: nat := 4

  /** The first `n` registers that are neither RDX nor the stack pointer. */
  function Accumulator(n: nat): (acc: seq<nat>)
    ensures |acc| == n
  {
    seq(n, k requires 0 <= k < n => if k < RDX then k else if k < RSP - 1 then k + 1 else k + 2)
  }

  /** Words in memory, at fixed addresses or relative to the stack pointer. */
  ghost predicate OnStack(a: seq<Operand>) {
    forall k, r: nat :: 0 <= k < |a| && Reads(a[k], r) ==> r == RSP && !a[k].InRegister?
  }

  lemma ElevenLimbsFit(n: nat, a: seq<Operand>, b: seq<Operand>)
    requires n == |a| + |b| <= 11 && OnStack(a) && OnStack(b)
    ensures FactorsOk(16, Accumulator(n), 13, 14, 15, a, b)
    ensures RSP !in [13, 14, RDX, 15] + Accumulator(n)
  {
    hide Reads;
    StackOperandsExist(a);
    StackOperandsExist(b);
  }

  lemma StackOperandsExist(a: seq<Operand>)
    requires OnStack(a)
    ensures OperandsExist(16, a)
  {
    forall k | 0 <= k < |a| ensures OperandOk(16, a[k]) {
      match a[k]
      case InRegister(r) => assert Reads(a[k], r);
      case AtRegister(base) => assert Reads(a[k], base);
      case AtSum(terms, disp) =>
        forall j | 0 <= j < |terms| ensures terms[j].0 < 16 {
          assert Reads(a[k], terms[j].0);
        }
    }
  }

  /** Sixteen registers are enough for a product of eleven limbs from memory: besides
      the accumulator, two scratch registers, a zero and RDX; the stack pointer and the
      operands are left alone. */
  lemma ElevenLimbProduct(st: State, a: seq<Operand>, b: seq<Operand>)
    requires WellFormed(st) && |st.gpr| == 16 && |a| + |b| <= 11 && OnStack(a) && OnStack(b)
    requires Number(st.gpr, Accumulator(|a| + |b|)) == 0
    ensures var acc := Accumulator(|a| + |b|);
            && FactorsOk(16, acc, 13, 14, 15, a, b)
            && Loadable(st, MulProgram(acc, 13, 14, 15, a, b))
            && var st' := Run(st, MulProgram(acc, 13, 14, 15, a, b));
               && |st'.gpr| == 16 && st'.gpr[RSP] == st.gpr[RSP]
               && Number(st'.gpr, acc) == Product(OperandNumber(st.gpr, st.mem, a), OperandNumber(st.gpr, st.mem, b))
  {
    hide Pow2, Run, MulProgram, Number, OperandNumber, Product, Encodable;
    var acc := Accumulator(|a| + |b|);
    ElevenLimbsFit(|a| + |b|, a, b);
    ZeroLimbs(st.gpr, acc);
    MultiplicationExact(st, acc, 13, 14, 15, a, b);
  }

  /** A number is zero only if its limbs are. */
  lemma {:induction false} ZeroLimbs(gpr: seq<nat>, rs: seq<nat>)
    requires RegistersExist(|gpr|, rs) && Number(gpr, rs) == 0
    ensures TopLimbsZero(gpr, rs, 0)
    decreases |rs|
  {
    if rs == [] {
    } else {
      ZeroHead(gpr[rs[0]], Pow2(QWORD), Number(gpr, rs[1..]));
      ZeroLimbs(gpr, rs[1..]);
      forall k | 0 <= k < |rs| && rs[k] < |gpr| ensures gpr[rs[k]] == 0 {
        if k > 0 { assert rs[1..][k - 1] == rs[k]; }
      }
    }
  }

  lemma ZeroHead(g: nat, b: nat, rest: nat)
    requires b > 0 && g + Product(b, rest) == 0
    ensures g == 0 && rest == 0
  {
    if rest > 0 { ProductPositive(b, rest); }
  }

  lemma ProductPositive(b: nat, rest: nat)
    requires b > 0 && rest > 0
    ensures Product(b, rest) > 0
  {}
}
