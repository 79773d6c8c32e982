# Verification of lldbghidra

This project models parts of lldbghidra, an LLDB plugin around Ghidra's decompiler, and
proves properties of the models. Two groups of files are covered.

**Instruction semantics.** The SLEIGH constructors for the bit-manipulation, add-with-carry
and carry-less multiplication instructions of x86 are small programs over machine words.

- `Words.dfy`: words as natural numbers, the p-code operators over them at a width of n bits,
  and the arithmetic of their bits. All arithmetic is modulo 2^n, and a shift by the width or
  more gives 0 (`third_party/ghidra-decompiler/opbehavior.cc`, lines 290-440).
- `BitScatter.dfy`, `LowBit.dfy`, `LeadingZeros.dfy`, `Fields.dfy`, `Clmul.dfy`: the loops and
  expressions of PDEP, PEXT, TZCNT, BLSI, BLSR, BLSMSK, LZCNT, BEXTR, BZHI, RORX and PCLMULQDQ
  for every width, refined to the "Operation" sections of the Intel 64 and IA-32 Architectures
  Software Developer's Manual, Volume 2 (chapters 3 and 4), and the algebra of the results.
- `Isa.dfy`: the registers and flags, and what the manual says each instruction does to them.
- `Effects.dfy`: the same once more from outside, one statement per instruction about bits of registers,
  memory and flags before and after it, without the functions that compute the result.
- `Machine.dfy`: the constructors statement by statement on a class whose methods assign
  registers and flags in the order of the source. The constructors of different widths are one
  method with a size parameter; the order of the 32-bit zero extension is kept. Every method but
  those of BLSI and LZCNT is proved to make the manual's state change for all operands, coinciding
  registers included.
- `Rereads.dfy`: BLSI and LZCNT, which read their operand again after they have written a register,
  and exactly when that makes no difference. A memory operand is loaded each time it is read. An
  address that is just a register is taken from it each time; a computed address is fixed before
  the instruction begins (`third_party/ghidra-decompiler/sleigh.cc`, lines 221-247).
- `BigInteger.dfy`, `Programs.dfy`: sequences of instructions. The number of general registers
  is not fixed, so the limb counts of the multiplication are not either; `ElevenLimbProduct`
  gives an allocation for sixteen registers.

**Plugin.**

- `Address.dfy`: `parseAddress` with strtoull in base 0 (section 7.22.1.4 of ISO/IEC 9899:2011),
  the joining of the arguments, and hexadecimal printing.
- `Scope.dfy`: the function cache of `LLDBScope`. The symbol tables are an oracle, a function
  from addresses to symbols that does not change during a history. Whether the internal scope
  already has some entry for a range is an unconstrained input of each lookup.
- `Emit.dfy`: `EmitAnsi` and a model of a terminal that interprets SGR sequences (section 8.3.117
  of ECMA-48).
- `LoadImage.dfy`: `loadFill`. What a ReadMemory call stores, counts and reports as an error are
  three independent inputs.
- `Lldb.dfy`: the invalid address and an option type.

Some properties one might expect hold only under a condition, which is proved exact:

- LZCNT takes CF from its operand after the destination is written. With destination and source
  the same register the flag is right only for a source that is neither zero nor negative; with a
  source addressed by the destination, only if the word at the new address is zero just when the
  word at the old one is (`Rereads.LzcntFlagsExactly`).
- BLSI does the same. With destination and source the same register the flag is right all the same;
  with a source addressed by the destination, only under that condition (`Rereads.BlsiFlagsExactly`).
- `findFunction` is independent of earlier lookups only if every function symbol's start resolves
  to a function with the same start and name (`Scope.HistoryIndependence`).
- `findFunction` is non-null at exactly the load starts of function symbols only if every load start
  resolves to a function with that start (`Scope.LoadStartsExactly`).
- `findContainer` registers the function around any address, but returns its entry only for the first
  bytes of it (`Scope.LookupExactly`).
- `loadFill` leaves bytes of one source only if the reader that decides stored all the bytes it
  counts (`LoadImage.OneSourceExactly`).

## Model

| member | source | states |
|---|---|---|
| BitScatter.PdepLoop | specfiles/Ghidra/Processors/x86/data/languages/bmi2.sinc:90-106 | PDEP's loop, which consumes the source and multiplies mask bits, ends and yields the DEST of the manual's index-based loop, at every width |
| BitScatter.PextLoop | specfiles/Ghidra/Processors/x86/data/languages/bmi2.sinc:133-146 | PEXT's loop, which walks down from the top bit with a shifted accumulator, ends and yields the DEST of the manual's upward loop, at every width |
| BitScatter.BitOfManualDeposit | specfiles/Ghidra/Processors/x86/data/languages/bmi2.sinc:95-104 | bit j of PDEP is set iff j is in the mask and the source bit of rank j is set; the result fits the width |
| BitScatter.BitOfExtract | specfiles/Ghidra/Processors/x86/data/languages/bmi2.sinc:136-144 | the PEXT bit of rank j is the source bit at mask position j |
| BitScatter.ExtractBelow | specfiles/Ghidra/Processors/x86/data/languages/bmi2.sinc:136-144 | PEXT is below 2^popcount(mask) |
| BitScatter.PopCountIsRank | specfiles/Ghidra/Processors/x86/data/languages/bmi2.sinc:136-144 | the population count of the low k bits counts the set positions below k |
| BitScatter.DepositIsManual | specfiles/Ghidra/Processors/x86/data/languages/bmi2.sinc:88-107 | the recursion over the mask is the manual's PDEP loop |
| BitScatter.ExtractIsManual | specfiles/Ghidra/Processors/x86/data/languages/bmi2.sinc:131-147 | the recursion over the mask is the manual's PEXT loop |
| BitScatter.PextOfPdep | specfiles/Ghidra/Processors/x86/data/languages/bmi2.sinc:88-147 | PEXT after PDEP under one mask is the source modulo 2^popcount(mask), for all widths, sources and masks |
| BitScatter.PdepOfPext | specfiles/Ghidra/Processors/x86/data/languages/bmi2.sinc:88-147 | PDEP after PEXT under one mask is the word AND the mask |
| BitScatter.PdepMonotone | specfiles/Ghidra/Processors/x86/data/languages/bmi2.sinc:88-107 | on counters below 2^popcount(mask) PDEP is strictly increasing |
| BitScatter.PdepReachesSubsets | specfiles/Ghidra/Processors/x86/data/languages/bmi2.sinc:88-107 | the PDEP values of those counters are exactly the subsets of the mask |
| LowBit.TzcntLoop | specfiles/Ghidra/Processors/x86/data/languages/bmi1.sinc:181-191 | the sentinel loop ends within n rounds for every n-bit word and counts as the manual's loop does |
| LowBit.TrailingZerosMeaning | specfiles/Ghidra/Processors/x86/data/languages/bmi1.sinc:142-194 | the count is the index of the lowest set bit, and n exactly for 0; all lower bits are clear |
| LowBit.BlsiValue | specfiles/Ghidra/Processors/x86/data/languages/bmi1.sinc:79 | -x & x at width n is the lowest set bit of x |
| LowBit.BlsrValue | specfiles/Ghidra/Processors/x86/data/languages/bmi1.sinc:132 | (x - 1) & x at width n is x without its lowest set bit, 0 for 0 |
| LowBit.BlsmskValue | specfiles/Ghidra/Processors/x86/data/languages/bmi1.sinc:106 | (x - 1) ^ x at width n is the ones up to the lowest set bit, all ones for 0 |
| LowBit.BitOfClearLowest | specfiles/Ghidra/Processors/x86/data/languages/bmi1.sinc:129-138 | clearing the lowest bit changes that bit only and lowers the population count by one |
| LowBit.ScanVisitsSetBits | specfiles/Ghidra/Processors/x86/data/languages/bmi1.sinc:128-194 | the positions of the loop TZCNT, BLSR are exactly the set bits |
| LowBit.ScanCounts | specfiles/Ghidra/Processors/x86/data/languages/bmi1.sinc:116-194 | that loop takes popcount(x) rounds |
| LowBit.ScanBitsArePowers | specfiles/Ghidra/Processors/x86/data/languages/bmi1.sinc:64-194 | the BLSI values along that loop are, round by round, the powers of two of the positions |
| LowBit.ScanBitsIncrease | specfiles/Ghidra/Processors/x86/data/languages/bmi1.sinc:64-138 | those values are distinct, each below the next |
| LowBit.ScanBitsAddUp | specfiles/Ghidra/Processors/x86/data/languages/bmi1.sinc:64-138 | they add up to the word, as the powers of two of the TZCNT positions do |
| LowBit.ScanIncreases | specfiles/Ghidra/Processors/x86/data/languages/bmi1.sinc:128-194 | the positions come in strictly increasing order |
| LeadingZeros.CountLeadingZeros | third_party/ghidra-decompiler/address.cc:773-795 | the binary search over masks ends and returns the number of leading zeros, for words of 2^k bits |
| LeadingZeros.LeadingZeroCountMeaning | specfiles/Ghidra/Processors/x86/data/languages/lzcnt.sinc:26-30 | the manual's downward count is the width less the bit length |
| Fields.BextrValue | specfiles/Ghidra/Processors/x86/data/languages/bmi1.sinc:51-54 | the BEXTR expression is (x / 2^start) mod 2^len, also for starts and lengths past the width |
| Fields.BzhiValue | specfiles/Ghidra/Processors/x86/data/languages/bmi2.sinc:27-33 | the two shifts by the saturated 8-bit amount are x mod 2^index, for every index |
| Fields.BzhiOfShiftIsBextr | specfiles/Ghidra/Processors/x86/data/languages/bmi2.sinc:25-40 | BZHI by the length of a word shifted down by the start is BEXTR, for every start and length |
| Fields.FieldsCoverWord | specfiles/Ghidra/Processors/x86/data/languages/bmi1.sinc:49-60 | for widths that add up to n, the consecutive fields at their weights add up to the word |
| Fields.RorxValue | specfiles/Ghidra/Processors/x86/data/languages/bmi2.sinc:160-165 | the two opposite shifts are a rotation, count 0 included |
| Fields.BitOfRotate | specfiles/Ghidra/Processors/x86/data/languages/bmi2.sinc:160-165 | bit i of the rotation is bit (i + k) mod n of the word |
| Fields.RotationsCompose | specfiles/Ghidra/Processors/x86/data/languages/bmi2.sinc:160-165 | rotations add their counts modulo n, so they undo each other |
| Clmul.PclmulLoop | specfiles/Ghidra/Processors/x86/data/languages/pclmulqdq.sinc:4-17 | the row loop of the macro ends and yields the product of polynomials over GF(2), with no shifted bit lost |
| Clmul.ClMulIsManual | specfiles/Ghidra/Processors/x86/data/languages/pclmulqdq.sinc:4-17 | bit k of the product is the manual's column XOR for column k, with the manual's index limits; column 127 and beyond are 0 |
| Clmul.ClMulCommutes | specfiles/Ghidra/Processors/x86/data/languages/pclmulqdq.sinc:4-17 | the product is commutative although the loop tests one operand and shifts the other |
| Clmul.ClMulDistributes | specfiles/Ghidra/Processors/x86/data/languages/pclmulqdq.sinc:4-17 | the product distributes over XOR |
| Clmul.ClMulAssociates | specfiles/Ghidra/Processors/x86/data/languages/pclmulqdq.sinc:4-17 | the product is associative |
| Clmul.ClMulDegree | specfiles/Ghidra/Processors/x86/data/languages/pclmulqdq.sinc:4-17 | degrees of nonzero polynomials add, so there are no zero divisors |
| Clmul.ClMulBelow | specfiles/Ghidra/Processors/x86/data/languages/pclmulqdq.sinc:4-17 | the product of 64-bit operands is below 2^127 |
| Clmul.ClMulCancels | specfiles/Ghidra/Processors/x86/data/languages/pclmulqdq.sinc:4-17 | a nonzero factor can be cancelled |
| Clmul.ClMulOfHalves | specfiles/Ghidra/Processors/x86/data/languages/pclmulqdq.sinc:19-45 | the four products of halves at their weights make the whole product |
| Clmul.Karatsuba | specfiles/Ghidra/Processors/x86/data/languages/pclmulqdq.sinc:19-45 | the two middle products come from one product of half sums |
| Machine.SignBit | third_party/ghidra-decompiler/opbehavior.cc:197-215 | a signed comparison with 0 is the top bit of the operand |
| Isa.ValueDepends | specfiles/Ghidra/Processors/x86/data/languages/ia.sinc:1087-1107 | an operand, its address included, depends on the registers it names and on no other |
| Effects.RegisterOperand | specfiles/Ghidra/Processors/x86/data/languages/ia.sinc:1485-1493 | a register operand has the low bits of the register |
| Effects.VectorOperand | specfiles/Ghidra/Processors/x86/data/languages/pclmulqdq.sinc:47-172 | a vector operand has 128 bits, of a vector register or of memory |
| Effects.MemoryOperand | specfiles/Ghidra/Processors/x86/data/languages/ia.sinc:1485-1493 | a memory operand has the bytes at its address, lowest first, addresses wrapping at 2^64 |
| Effects.ComputedAddress | specfiles/Ghidra/Processors/x86/data/languages/ia.sinc:1087-1107 | the address is base plus scaled index plus displacement |
| Effects.AdcxEffect | specfiles/Ghidra/Processors/x86/data/languages/adx.sinc:1-15 | after ADCX sum and CF are the exact sum of both operands and CF; no other flag, register or memory changes |
| Effects.AdoxEffect | specfiles/Ghidra/Processors/x86/data/languages/adx.sinc:18-32 | after ADOX sum and OF are the exact sum of both operands and OF; nothing else changes |
| Effects.MulxEffect | specfiles/Ghidra/Processors/x86/data/languages/bmi2.sinc:44-61 | after MULX the first destination is the high half of RDX times the operand, and the second, if it is another register, the low half; no flag changes |
| Effects.MovEffect | specfiles/Ghidra/Processors/x86/data/languages/ia.sinc:3947-3949 | after MOV the destination is the operand and nothing else changes |
| Effects.XorEffect | specfiles/Ghidra/Processors/x86/data/languages/ia.sinc:4996-4998 | after XOR each destination bit is the exclusive or, CF = OF = 0, and ZF, SF and PF describe the result |
| Effects.BextrEffect | specfiles/Ghidra/Processors/x86/data/languages/bmi1.sinc:34-60 | after BEXTR destination bit j is source bit start + j for j below the length, with start and length the two low bytes of the control register; flags |
| Effects.BzhiEffect | specfiles/Ghidra/Processors/x86/data/languages/bmi2.sinc:6-40 | after BZHI destination bit j is source bit j for j below the low byte of the index register; flags |
| Effects.RorxEffect | specfiles/Ghidra/Processors/x86/data/languages/bmi2.sinc:151-165 | after RORX destination bit j is source bit j + imm8 modulo the width; no flag changes |
| Effects.BlsiEffect | specfiles/Ghidra/Processors/x86/data/languages/bmi1.sinc:64-86 | after BLSI exactly the lowest set bit of the source is set; all flags as in the manual |
| Effects.BlsmskEffect | specfiles/Ghidra/Processors/x86/data/languages/bmi1.sinc:90-112 | after BLSMSK the bits with no set source bit below them are set; flags |
| Effects.BlsrEffect | specfiles/Ghidra/Processors/x86/data/languages/bmi1.sinc:116-138 | after BLSR the source bits but the lowest are set; flags |
| Effects.TzcntEffect | specfiles/Ghidra/Processors/x86/data/languages/bmi1.sinc:142-194 | after TZCNT the destination is the position of the lowest set bit, or the width; CF, ZF; the other flags are kept |
| Effects.LzcntEffect | specfiles/Ghidra/Processors/x86/data/languages/lzcnt.sinc:12-30 | the LZCNT of the manual: distance of the highest set bit from the top, or the width; CF, ZF |
| Effects.PdepEffect | specfiles/Ghidra/Processors/x86/data/languages/bmi2.sinc:65-107 | after PDEP destination bit j is set iff j is in the mask and the source bit of its rank is set; nothing of the old destination is left and no flag changes |
| Effects.PextEffect | specfiles/Ghidra/Processors/x86/data/languages/bmi2.sinc:111-147 | after PEXT the destination bit of the rank of a mask position is the source bit there, higher bits are clear, and no flag changes |
| Effects.PclmulqdqEffect | specfiles/Ghidra/Processors/x86/data/languages/pclmulqdq.sinc:47-172 | destination bit k is the XOR over i + j = k of bit i of the quadword of the first source that immediate bit 0 chooses and bit j of the one of the second that bit 4 chooses; the upper half is cleared (VEX) or kept |
| Effects.BlsiAsWritten | specfiles/Ghidra/Processors/x86/data/languages/bmi1.sinc:77-86 | the constructor of BLSI differs from the manual in CF only, which tests the word at the new address if the destination held the address |
| Effects.LzcntAsWritten | specfiles/Ghidra/Processors/x86/data/languages/lzcnt.sinc:24-30 | the constructor of LZCNT differs in CF only, which tests the count, or the word at the new address |
| Rereads.RereadCases | specfiles/Ghidra/Processors/x86/data/languages/ia.sinc:1087-1107 | after a write to a register an operand reads back differently only if it is that register, or memory at the address in it |
| Rereads.BlsiFlagsExactly | specfiles/Ghidra/Processors/x86/data/languages/bmi1.sinc:64-86 | BLSI makes the manual's state change iff its source is not memory addressed by the destination, or the word at the old address and the word at the result are both zero or both not |
| Rereads.BlsiThroughItself | specfiles/Ghidra/Processors/x86/data/languages/bmi1.sinc:77-86 | BLSI r, [r] with r = 1000H and an 8 there as the only byte set: the manual sets CF and the constructor does not |
| Rereads.LzcntFlagsExactly | specfiles/Ghidra/Processors/x86/data/languages/lzcnt.sinc:1-30 | LZCNT makes the manual's state change iff neither its source is its destination and zero or negative, nor its source is memory addressed by the destination and CF differs between the word at the old and at the new address |
| Rereads.LzcntOfZeroOntoItself | specfiles/Ghidra/Processors/x86/data/languages/lzcnt.sinc:1-30 | LZCNT r, r of a zero register, where the manual sets CF and the constructor does not |
| Rereads.LzcntThroughItself | specfiles/Ghidra/Processors/x86/data/languages/lzcnt.sinc:1-30 | LZCNT r, [r] with r = 1000H and a 1 at address 64 as the only byte set: the manual sets CF and the constructor does not |
| Rereads.WrittenIsManualExactly | specfiles/Ghidra/Processors/x86/data/languages/bmi1.sinc:1-194 | any modelled instruction makes the manual's state change iff the CF of a BLSI or LZCNT agrees |
| Rereads.WrittenRunIsManual | specfiles/Ghidra/Processors/x86/data/languages/bmi1.sinc:1-194 | over a whole program the constructors do what the manual says if it agrees at every step |
| Rereads.WithoutRereads | specfiles/Ghidra/Processors/x86/data/languages/bmi1.sinc:64-86 | it agrees at every step of a program in which no BLSI or LZCNT overwrites the register of its address, and no LZCNT its source |
| Machine.Processor.BuildCheckDest | specfiles/Ghidra/Processors/x86/data/languages/ia.sinc:1497-1512 | a 32-bit destination is zero-extended, other sizes are left alone |
| Machine.Processor.Adcx | specfiles/Ghidra/Processors/x86/data/languages/adx.sinc:1-15 | as the manual: exact sum with CF in and out, no other flag, 32 and 64 bits |
| Machine.Processor.Adox | specfiles/Ghidra/Processors/x86/data/languages/adx.sinc:18-32 | as the manual: exact sum with OF in and out, no other flag, 32 and 64 bits |
| Machine.Processor.Bextr | specfiles/Ghidra/Processors/x86/data/languages/bmi1.sinc:34-60 | as the manual on the original source: field, ZF, CF = OF = 0, whatever registers coincide |
| Machine.Processor.Blsi | specfiles/Ghidra/Processors/x86/data/languages/bmi1.sinc:64-86 | lowest set bit, ZF, SF, OF = 0, and CF from the operand read again after the destination, possibly the source or the register of its address, is written |
| Machine.Processor.Blsmsk | specfiles/Ghidra/Processors/x86/data/languages/bmi1.sinc:90-112 | as the manual on the original source: mask, SF, CF, ZF = OF = 0 |
| Machine.Processor.Blsr | specfiles/Ghidra/Processors/x86/data/languages/bmi1.sinc:116-138 | as the manual on the original source: value, ZF, SF, CF, OF = 0 |
| Machine.Processor.Tzcnt | specfiles/Ghidra/Processors/x86/data/languages/bmi1.sinc:142-194 | as the manual: count, CF iff the source is 0, ZF iff the count is 0, at 16, 32 and 64 bits; a 16-bit result keeps the rest of its register |
| Machine.Processor.Bzhi | specfiles/Ghidra/Processors/x86/data/languages/bmi2.sinc:6-40 | as the manual: low bits below the index, ZF, SF, CF iff the index passes the width |
| Machine.Processor.Mulx | specfiles/Ghidra/Processors/x86/data/languages/bmi2.sinc:44-61 | as the manual: both halves of RDX times the operand, high half last, no flag touched |
| Machine.Processor.Pdep | specfiles/Ghidra/Processors/x86/data/languages/bmi2.sinc:65-107 | as the manual: PDEP of the two source operands, no flag touched |
| Machine.Processor.Pext | specfiles/Ghidra/Processors/x86/data/languages/bmi2.sinc:111-147 | as the manual, although the 32-bit form zero-extends its destination before it writes it |
| Machine.Processor.Rorx | specfiles/Ghidra/Processors/x86/data/languages/bmi2.sinc:151-165 | as the manual: rotation by five or six bits of the immediate, no flag touched |
| Machine.Processor.Lzcnt | specfiles/Ghidra/Processors/x86/data/languages/lzcnt.sinc:12-30 | the count of the original source, with CF from the operand read again after the write and before the zero extension |
| Machine.Processor.Pclmulqdq | specfiles/Ghidra/Processors/x86/data/languages/pclmulqdq.sinc:47-172 | as the manual: product of the quadwords chosen by immediate bits 0 and 4; the VEX form clears the upper half, the other keeps it |
| Machine.Processor.PclmulNamed | specfiles/Ghidra/Processors/x86/data/languages/pclmulqdq.sinc:19-123 | each named constructor is the general one with immediate 00H, 01H, 10H or 11H |
| Machine.FormSelects | specfiles/Ghidra/Processors/x86/data/languages/pclmulqdq.sinc:19-45 | the immediate of a named constructor selects the high quadwords its name selects, first source first |
| Machine.Processor.Mov | specfiles/Ghidra/Processors/x86/data/languages/ia.sinc:3947-3949 | a register receives the operand, no flag touched |
| Machine.Processor.XorRegister | specfiles/Ghidra/Processors/x86/data/languages/ia.sinc:4996-4998 | the XOR, CF = OF = 0, ZF, SF and PF of the result |
| Machine.Processor.Step | specfiles/Ghidra/Processors/x86/data/languages/bmi2.sinc:1-165 | executing any of the instructions, of this file and of bmi1, lzcnt, adx, pclmulqdq and ia, is the state change of its constructor, which `Rereads.WrittenIsManualExactly` compares with the manual |
| Machine.Processor.Execute | specfiles/Ghidra/Processors/x86/data/languages/adx.sinc:1-32 | executing a program by the constructors is the run of their state changes, and the run of the manual if CF agrees at every step |
| BigInteger.NumberBit | specfiles/Ghidra/Processors/x86/data/languages/bmi2.sinc:55-61 | bit j of limb i is bit 64 i + j of the number in a list of registers |
| BigInteger.OperandNumberBit | specfiles/Ghidra/Processors/x86/data/languages/bmi2.sinc:55-61 | the same for a list of operands |
| BigInteger.MergeInterleaves | specfiles/Ghidra/Processors/x86/data/languages/adx.sinc:10-32 | any sequence of choices between two chains gives an interleaving of them |
| BigInteger.InterleavesCounts | specfiles/Ghidra/Processors/x86/data/languages/adx.sinc:10-32 | an interleaving has the instructions of both chains and no other |
| BigInteger.ChainsCommute | specfiles/Ghidra/Processors/x86/data/languages/adx.sinc:10-32 | an ADCX and an ADOX commute if neither writes a register the other uses, for its value or its address |
| BigInteger.InterleavingIrrelevant | specfiles/Ghidra/Processors/x86/data/languages/adx.sinc:10-32 | every interleaving of such an ADCX chain and ADOX chain gives the state of running one after the other |
| BigInteger.AddEffect | specfiles/Ghidra/Processors/x86/data/languages/adx.sinc:10-32 | sum and carry out together are the exact sum, and nothing else changes |
| BigInteger.ChainAdds | specfiles/Ghidra/Processors/x86/data/languages/adx.sinc:10-32 | a chain over n limbs is exact addition with carry in and carry out, by either flag, for every n |
| BigInteger.InterleavedChainsAdd | specfiles/Ghidra/Processors/x86/data/languages/adx.sinc:10-32 | under every interleaving both chains are exact additions, each with its own carry in and out, and no other register changes |
| BigInteger.MulxEffect | specfiles/Ghidra/Processors/x86/data/languages/bmi2.sinc:55-61 | the two registers hold the exact product and the flags are kept |
| BigInteger.RowMultiplies | specfiles/Ghidra/Processors/x86/data/languages/bmi2.sinc:55-61 | for every limb count, MULX, ADCX, ADOX per limb add RDX times the operands to the accumulator, with the final CF at limb n and OF at limb n + 1 |
| BigInteger.RoundMultiplies | specfiles/Ghidra/Processors/x86/data/languages/adx.sinc:10-32 | with a zero top limb, clear carries and a final ADCX, a row is exact and leaves no carry |
| BigInteger.MultiplicationExact | specfiles/Ghidra/Processors/x86/data/languages/adx.sinc:10-32 | rows for every limb of a second number add the product of the two numbers to the accumulator, exactly, without a carry, touching no other register, for every pair of lengths |
| BigInteger.ElevenLimbProduct | specfiles/Ghidra/Processors/x86/data/languages/bmi2.sinc:55-61 | with sixteen registers the program multiplies any two numbers of together eleven limbs, at fixed or stack addresses, exactly and leaves the stack pointer alone |
| Programs.Multiply | specfiles/Ghidra/Processors/x86/data/languages/adx.sinc:10-32 | the constructors themselves, run on a processor, multiply numbers of any length exactly, touching no register but the accumulator, scratch registers and RDX |
| Programs.GatherAfterScatter | specfiles/Ghidra/Processors/x86/data/languages/bmi2.sinc:65-147 | PDEP then PEXT through a register gives back the low popcount(mask) source bits and keeps the flags |
| Programs.ScanRoundEffect | specfiles/Ghidra/Processors/x86/data/languages/bmi1.sinc:64-194 | after TZCNT, BLSI, BLSR the registers hold position, lowest bit and rest, and the ZF that ends the loop says whether the rest is zero |
| Programs.ScanLoopVisitsSetBits | specfiles/Ghidra/Processors/x86/data/languages/bmi1.sinc:64-194 | the values left by TZCNT and BLSI in the loop with BLSR are the set-bit positions and their powers of two, in order |
| Programs.FourQuadwordProducts | specfiles/Ghidra/Processors/x86/data/languages/pclmulqdq.sinc:93-147 | the four immediates give, at their weights, the product of the two 128-bit registers |
| Address.SixBlanks | src/DecompileCommand.cpp:41 | the six blanks of the C locale |
| Address.DigitValues | src/DecompileCommand.cpp:48 | digits of either case are worth their places among the sixteen |
| Address.NoOtherDigits | src/DecompileCommand.cpp:48 | no other character is a digit |
| Address.EvalIsPlaceValues | src/DecompileCommand.cpp:48 | a digit string is worth the sum of its digits at their place values |
| Address.NumeralConverts | src/DecompileCommand.cpp:46-50 | the digit run strtoull takes after a numeral's prefix is the whole numeral |
| Address.Outcome | src/DecompileCommand.cpp:41-57 | the branches of parseAddress decide exactly whether the string is blanks, an optional plus, one numeral below 2^64 and blanks |
| Address.ParseAddress | src/DecompileCommand.cpp:38-58 | returns v < 2^64 - 1 iff the string denotes v; null and every other string give LLDB_INVALID_ADDRESS |
| Address.DenotesUnique | src/DecompileCommand.cpp:46-57 | a string denotes at most one address |
| Address.PrintThenParse | src/DecompileCommand.cpp:204-208 | printing an address in hexadecimal and reading it back is the identity below the all-ones address |
| Address.HexShape | src/DecompileCommand.cpp:204-208 | printed addresses have lower-case digits and no leading zero |
| Address.HexIsParsed | src/DecompileCommand.cpp:46-50 | a hexadecimal number in either case, behind either prefix, is read as itself below 2^64 - 1 and as the invalid address from there on |
| Address.TypedIsParsed | src/DecompileCommand.cpp:38-58 | any digits of the base of their prefix, with blanks around them and a plus sign, are read as their place values below 2^64 - 1 and as the invalid address from there on |
| Address.NotAddresses | src/DecompileCommand.cpp:38-58 | "08", "0x", "-1" and the empty string are not addresses |
| Address.JoinArguments | src/DecompileCommand.cpp:76-83 | the argument loop joins with single spaces |
| Address.JoinAppend | src/DecompileCommand.cpp:76-83 | between any two parts of the joined arguments stands one space |
| Address.JoinedArgumentsDenote | src/DecompileCommand.cpp:76-90 | joined arguments are an address iff exactly one of them denotes it and all others are blank |
| Scope.LLDBScope.constructor | src/LLDBScope.cpp:13-19 | a new scope has an empty cache |
| Scope.LLDBScope.RegisterFunction | src/LLDBScope.cpp:29-59 | returns the entry of the symbol's start, adding it under the display name only if there was none; nothing for an unloaded symbol |
| Scope.LLDBScope.QueryLLDBAbsolute | src/LLDBScope.cpp:61-87 | registers and returns the function of the symbol found, if its type and its start allow |
| Scope.LLDBScope.FindAddr | src/LLDBScope.cpp:93-102 | an internal entry wins; otherwise the symbol must start at the address, and its map entry is returned |
| Scope.LLDBScope.FindContainer | src/LLDBScope.cpp:104-113 | an internal entry wins; otherwise any function symbol found at the address is registered, and its map entry is returned if it covers the address |
| Scope.LookupRegisters | src/LLDBScope.cpp:61-113 | by the fields of the symbol: a lookup adds its function under the display name, else the non-empty name, else "func_unknown", at its load start, iff it is a code or resolver symbol, loaded, not registered, and starts there or findContainer asks |
| Scope.LookupExactly | third_party/ghidra-decompiler/database.cc:282-297 | a lookup through the symbol tables returns an entry iff a function is found whose first bytes, as many as a function symbol takes, cover the address; the difference is taken modulo 2^32 |
| Scope.LLDBScope.FindFunction | src/LLDBScope.cpp:115-125 | answers from the cache, else from the symbol that starts at the address, leaving it cached |
| Scope.AnswerFromSymbol | src/LLDBScope.cpp:115-125 | an unregistered address is answered iff a code or resolver symbol found there starts there, under its display name, else name, else "func_unknown" |
| Scope.AnswerFromCache | src/LLDBScope.cpp:115-117 | a registered address is answered with its entry and nothing is looked up |
| Scope.LLDBScope.ClearAll | src/LLDBScope.h:58 | the cache becomes empty |
| Scope.ReachableInvariant | src/LLDBScope.cpp:29-125 | after every history no key is registered twice and every entry is the valid start and name of a code or resolver symbol |
| Scope.CallsOnlyAppend | src/LLDBScope.cpp:29-125 | over any number of calls without a clear no entry is removed, renamed or moved |
| Scope.FunctionsAreLoadStarts | src/LLDBScope.cpp:115-125 | on symbol tables consistent at symbol starts, findFunction is non-null, after every history, iff the address is the load start of a code or resolver symbol |
| Scope.LoadStartsExactly | src/LLDBScope.cpp:61-125 | on any symbol tables that equivalence holds iff at every load start the symbol found is a function that starts there |
| Scope.HistoryIndependence | src/LLDBScope.cpp:61-125 | findFunction answers after every history as on an empty cache iff every function symbol's start resolves to a function of that start and name |
| Emit.EmitAnsi.EmitColored | src/EmitAnsi.cpp:24-66 | appends the token, wrapped in its colour and a reset when it has one |
| Emit.EmitAnsi.TagLine | src/EmitAnsi.h:29-30 | appends a newline and exactly as many spaces as the indent level, none for a negative one |
| Emit.EmitAnsi.TagLineAt | src/EmitAnsi.h:31-32 | appends a newline and exactly the given number of spaces, none for a negative one |
| Emit.EmitAnsi.OpenParen | src/EmitAnsi.h:51-52 | appends the text, raises the level, returns the id |
| Emit.EmitAnsi.CloseParen | src/EmitAnsi.h:53-54 | appends the text and lowers the level |
| Emit.EmitAnsi.StartIndent | third_party/ghidra-decompiler/prettyprint.hh:371 | raises the indent level by the increment |
| Emit.EmitAnsi.StopIndent | third_party/ghidra-decompiler/prettyprint.hh:378 | lowers the indent level by the increment |
| Emit.TokenBytes | src/EmitAnsi.cpp:7-31 | the bytes written for a token of each class |
| Emit.ColorGivesStyle | src/EmitAnsi.cpp:7-22 | read as SGR parameters, the sequence of each class sets exactly the documented style |
| Emit.DocumentAppend | src/EmitAnsi.cpp:24-66 | what is emitted later follows, at the indent level reached before it |
| Emit.DocumentOnScreen | src/EmitAnsi.cpp:24-66 | for every sequence of calls a terminal shows each token in the style of its class and all else plain, and is back in the default style at the end |
| Emit.CellsSpellPlainText | third_party/ghidra-decompiler/prettyprint.hh:547-594 | the characters shown are those the plain emitter writes |
| Emit.ErasureGivesPlainText | src/EmitAnsi.cpp:7-66 | erasing the SGR sequences gives exactly the plain emitter's text |
| Emit.EmitCall | src/EmitAnsi.h:29-54 | each call of the emitter appends its text and moves the two levels as it should |
| Emit.EmitAll | src/EmitAnsi.cpp:24-66 | any sequence of calls appends exactly its document, and moves the level of parentheses by opens minus closes |
| LoadImage.LoadFill | src/LLDBLoadImage.cpp:19-45 | byte by byte, in each case of process and target: the stored bytes of the deciding reader up to its count and the size, older bytes where it counted more than it stored, then zeros; bytes past the size and buffers of no size are untouched |
| LoadImage.HonestFill | src/LLDBLoadImage.cpp:30-44 | a reader that stored what it counts leaves a prefix of its own bytes and then zeros, whatever another reader left before |
| LoadImage.OneSourceExactly | src/LLDBLoadImage.cpp:30-44 | the buffer depends on the deciding reader alone iff that reader stored every byte it counts |
| LoadImage.MixedSources | src/LLDBLoadImage.cpp:30-44 | a failing process read and a target read that counts a byte it did not store leave bytes of both |

## Left out

- Encoding: operand patterns, prefixes and the choice of an address form. Addresses are sums of scaled registers and a displacement modulo 2^64; 16- and 32-bit addresses are not modelled, and a segment base counts as part of the displacement.
- AF: no modelled instruction assigns it. Flags the manual leaves undefined keep their value, as in the constructors.
- ANDN, SARX, SHLX, SHRX: one primitive operation each.
- Other instruction files (AVX, SGX, CET, MPX, SHA and the AArch64 files): opaque operations or straight copies for the most part.
- The decompiler library: only count_leading_zeros, the evaluation of p-code operators and the plain emitter are used here.
- Scope.LLDBScope.RegisterFunction: an empty display name, for which the internal scope would make up a name that depends on earlier ones, is excluded by the type.
- Scope.LLDBScope.FindAddr: whether the internal scope has an entry of its own for the range asked for is an input, and so is the size of a function symbol; range lookups are not modelled. FindContainer likewise.
- Scope.HistoryIndependence: the symbol tables are fixed during a history; loading a module is not modelled.
- Emit.ErasureGivesPlainText: token texts hold no escape character, as a text ending in a partial sequence would join the next colour.
- Emit.EmitAnsi.OpenParen: the level is an unbounded integer, not a 32-bit one.
- Address.ParseAddress: strtoull and isspace in the C locale with the numerals of ISO/IEC 9899:2011; the binary prefix of later editions is not modelled.
- Addresses in the command after parsing: resolving file addresses, symbol names and the current frame, and all error texts but the printed number.
- LoadImage.LoadFill: a reader is taken to store at most as many bytes as it is asked for; getReadonly is not modelled.
- Construction and delegation: Plugin.cpp, LLDBArchitecture, LLDBTypeFactory, LLDBCommentDatabase, LLDBPrintC and the string tables of ArchMap.cpp.
