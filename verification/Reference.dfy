/**
 * The reference decoder and interpreter (`randomx-core/src/program.rs`, `randomx-core/src/vm.rs`):
 * typed operand stores, optional immediates, and a panic wherever an operand has the wrong kind.
 */
module Reference {
  import opened Words
  import opened Wrappers
  import opened Machine
  import opened Reciprocals

  datatype Opcode =
    | NOP | IADD_RS | IADD_M | ISUB_R | ISUB_M | IMUL_R | IMUL_M | IMULH_R | IMULH_M
    | ISMULH_R | ISMULH_M | IMUL_RCP | INEG_R | IXOR_R | IXOR_M | IROR_R | IROL_R | ISWAP_R
    | FSWAP_R | FADD_R | FADD_M | FSUB_R | FSUB_M | FSCAL_R | FMUL_R | FDIV_M | FSQRT_R
    | CBRANCH | CFROUND | ISTORE

  datatype Store =
    | NONE | R(ix: nat) | F(ix: nat) | E(ix: nat) | A(ix: nat) | Imm
    | L1(reg: Store) | L2(reg: Store) | L3(reg: Store)

  datatype Mode = NoMode | Cond(level: nat) | Shft(shift: nat)

  datatype Instr = Instr(
    op: Opcode, dst: Store, src: Store, imm: Option<i32>, mode: Mode, target: Option<int>, reciprocal: u64)

  // ---------- decoder ----------

  /** The instruction fields as the reference extracts them: mask first, then shift. */
  datatype Word = Word(op: nat, dst: nat, src: nat, modi: nat, imm: i32)

  function WordOf(raw: u64): Word
  {
    Word(BitAnd(raw, 0xff),
         BitAnd(raw, 0xff00) / 0x100,
         BitAnd(raw, 0xff_0000) / 0x1_0000,
         BitAnd(raw, 0xff00_0000) / 0x100_0000,
         CastI32(BitAnd(raw, 0xffff_ffff_0000_0000) / TWO32))
  }

  /** `as i32` keeps the low 32 bits. */
  function CastI32(x: nat): i32 { SignedLow32(x % TWO32) }

  function RReg(i: nat): Store { R(i % 8) }

  function AReg(i: nat): Store { A(i % 4) }

  function EReg(i: nat): Store { E(i % 4) }

  function FReg(i: nat): Store { F(i % 4) }

  function NewInstr(op: Opcode, dst: Store, src: Store, imm: i32): Instr
  {
    if src == dst then Instr(op, dst, NONE, Some(imm), NoMode, None, 0)
    else Instr(op, dst, src, None, NoMode, None, 0)
  }

  function NewLcacheInstr(op: Opcode, dst: Store, src: nat, imm: i32, modi: nat): Instr
  {
    if RReg(src) == dst then
      AndLe(Low32(imm), SCRATCHPAD_L3_MASK);
      Instr(op, dst, L3(Imm), Some(BitAnd(Low32(imm), SCRATCHPAD_L3_MASK)), NoMode, None, 0)
    else Instr(op, dst, L12Cache(src, modi), Some(imm), NoMode, None, 0)
  }

  function LCache(dst: nat, modi: nat): Store
  {
    if modi / 16 < 14 then (if modi % 4 == 0 then L2(RReg(dst)) else L1(RReg(dst))) else L3(RReg(dst))
  }

  function L12Cache(src: nat, modi: nat): Store
  {
    if modi % 4 == 0 then L2(RReg(src)) else L1(RReg(src))
  }

  function Imm63(imm: i32): i32
  {
    AndLe(Low32(imm), 63);
    BitAnd(Low32(imm), 63)
  }

  function Used(usage: seq<int>, q: nat, index: int): (u: seq<int>)
    requires |usage| == 8 && q < 8
    ensures |u| == 8
  {
    usage[q := index]
  }

  datatype Decoded = Decoded(instr: Instr, usage: seq<int>)

  function RegInstr(op: Opcode, x: Word): Instr
  {
    Instr(op, RReg(x.dst), RReg(x.src), None, NoMode, None, 0)
  }

  function DecodeArithmetic(x: Word, index: int, usage: seq<int>): Decoded
    requires |usage| == 8
  {
    var op, dst, src := x.op, RReg(x.dst), RReg(x.src);
    Decoded(
      if op < 0x10 then
        Instr(IADD_RS, dst, src, if dst == R(5) then Some(x.imm) else None, Shft(x.modi / 4 % 4), None, 0)
      else if op < 0x17 then NewLcacheInstr(IADD_M, dst, x.src, x.imm, x.modi)
      else if op < 0x27 then NewInstr(ISUB_R, dst, src, x.imm)
      else if op < 0x2e then NewLcacheInstr(ISUB_M, dst, x.src, x.imm, x.modi)
      else if op < 0x3e then NewInstr(IMUL_R, dst, src, x.imm)
      else if op < 0x42 then NewLcacheInstr(IMUL_M, dst, x.src, x.imm, x.modi)
      else if op < 0x46 then RegInstr(IMULH_R, x)
      else if op < 0x47 then NewLcacheInstr(IMULH_M, dst, x.src, x.imm, x.modi)
      else if op < 0x4b then RegInstr(ISMULH_R, x)
      else NewLcacheInstr(ISMULH_M, dst, x.src, x.imm, x.modi),
      Used(usage, x.dst % 8, index))
  }

  function DecodeReciprocal(x: Word, index: int, usage: seq<int>): Decoded
    requires |usage| == 8
  {
    var divisor := Low32(x.imm);
    var instr := Instr(IMUL_RCP, RReg(x.dst), NONE, Some(x.imm), NoMode, None, 0);
    if IsZeroOrPowerOfTwo(divisor) then Decoded(instr, usage)
    else
      ZeroOrPowerOfTwo(divisor);
      Decoded(instr.(reciprocal := Reciprocal(divisor)), Used(usage, x.dst % 8, index))
  }

  function DecodeBitwise(x: Word, index: int, usage: seq<int>): Decoded
    requires |usage| == 8
  {
    var op, dst, src := x.op, RReg(x.dst), RReg(x.src);
    var used := Used(usage, x.dst % 8, index);
    if op < 0x54 then DecodeReciprocal(x, index, usage)
    else if op < 0x56 then Decoded(NewInstr(INEG_R, dst, NONE, x.imm), used)
    else if op < 0x65 then Decoded(NewInstr(IXOR_R, dst, src, x.imm), used)
    else if op < 0x6a then Decoded(NewLcacheInstr(IXOR_M, dst, x.src, x.imm, x.modi), used)
    else if op < 0x72 then Decoded(NewInstr(IROR_R, dst, src, Imm63(x.imm)), used)
    else if op < 0x74 then Decoded(NewInstr(IROL_R, dst, src, Imm63(x.imm)), used)
    else if x.src % 8 != x.dst % 8 then Decoded(RegInstr(ISWAP_R, x), Used(used, x.src % 8, index))
    else Decoded(NewInstr(NOP, NONE, NONE, x.imm), usage)
  }

  function DecodeFloat(x: Word): Instr
  {
    var op := x.op;
    if op < 0x7c then
      NewInstr(FSWAP_R, if x.dst % 8 >= 4 then E(x.dst % 8 % 4) else F(x.dst % 8 % 4), NONE, x.imm)
    else if op < 0x8c then NewInstr(FADD_R, FReg(x.dst), AReg(x.src), x.imm)
    else if op < 0x91 then NewLcacheInstr(FADD_M, FReg(x.dst), x.src, x.imm, x.modi)
    else if op < 0xa1 then NewInstr(FSUB_R, FReg(x.dst), AReg(x.src), x.imm)
    else if op < 0xa6 then NewLcacheInstr(FSUB_M, FReg(x.dst), x.src, x.imm, x.modi)
    else if op < 0xac then NewInstr(FSCAL_R, FReg(x.dst), NONE, x.imm)
    else if op < 0xcc then NewInstr(FMUL_R, EReg(x.dst), AReg(x.src), x.imm)
    else if op < 0xd0 then NewLcacheInstr(FDIV_M, EReg(x.dst), x.src, x.imm, x.modi)
    else NewInstr(FSQRT_R, EReg(x.dst), NONE, x.imm)
  }

  function DecodeControl(x: Word, index: int, usage: seq<int>): Decoded
    requires |usage| == 8
  {
    if x.op < 0xef then
      Decoded(Instr(CBRANCH, RReg(x.dst), NONE, Some(x.imm), Cond(x.modi / 16), Some(usage[x.dst % 8]), 0),
              seq(8, _ => index))
    else if x.op < 0xf0 then
      Decoded(Instr(CFROUND, NONE, RReg(x.src), Some(Imm63(x.imm)), NoMode, None, 0), usage)
    else if x.op < 0x100 then
      Decoded(Instr(ISTORE, LCache(x.dst, x.modi), RReg(x.src), Some(x.imm), NoMode, None, 0), usage)
    else Decoded(NewInstr(NOP, NONE, NONE, x.imm), usage)
  }

  function DecodeWord(x: Word, index: int, usage: seq<int>): Decoded
    requires |usage| == 8
  {
    if x.op < 0x4c then DecodeArithmetic(x, index, usage)
    else if x.op < 0x78 then DecodeBitwise(x, index, usage)
    else if x.op < 0xd6 then Decoded(DecodeFloat(x), usage)
    else DecodeControl(x, index, usage)
  }

  function DecodeInstruction(raw: u64, index: int, usage: seq<int>): Decoded
    requires |usage| == 8
  {
    DecodeWord(WordOf(raw), index, usage)
  }

  // ---------- operand access ----------

  function ReadR(vm: Vm, s: Store): Result<u64>
  {
    if s.R? && s.ix < |vm.r| then Ok(vm.r[s.ix]) else Panic
  }

  function WriteR(vm: Vm, s: Store, v: u64): Result<Vm>
  {
    if s.R? && s.ix < |vm.r| then Ok(vm.(r := vm.r[s.ix := v])) else Panic
  }

  function ReadFloat(regs: seq<Lanes>, s: Store, kind: bool): Result<Lanes>
  {
    if kind && (s.F? || s.E? || s.A?) && s.ix < |regs| then Ok(regs[s.ix]) else Panic
  }

  function ReadF(vm: Vm, s: Store): Result<Lanes> { ReadFloat(vm.f, s, s.F?) }

  function ReadE(vm: Vm, s: Store): Result<Lanes> { ReadFloat(vm.e, s, s.E?) }

  function ReadA(vm: Vm, s: Store): Result<Lanes> { ReadFloat(vm.a, s, s.A?) }

  function WriteF(vm: Vm, s: Store, v: Lanes): Result<Vm>
  {
    if s.F? && s.ix < |vm.f| then Ok(vm.(f := vm.f[s.ix := v])) else Panic
  }

  function WriteE(vm: Vm, s: Store, v: Lanes): Result<Vm>
  {
    if s.E? && s.ix < |vm.e| then Ok(vm.(e := vm.e[s.ix := v])) else Panic
  }

  function Unwrap<T>(o: Option<T>): Result<T>
  {
    match o
    case Some(v) => Ok(v)
    case None => Panic
  }

  function ImmOrR(vm: Vm, i: Instr): Result<u64>
  {
    if i.src == NONE then
      var imm :- Unwrap(i.imm);
      Ok(imm % TWO64)
    else ReadR(vm, i.src)
  }

  /** The masked address of a memory operand; `L3` sources are absolute, destinations are not. */
  function Address(vm: Vm, s: Store, imm: u64, absolute: bool): Result<nat>
  {
    match s
    case L1(d) => var b :- ReadR(vm, d); Ok(BitAnd(WAdd(b, imm), SCRATCHPAD_L1_MASK))
    case L2(d) => var b :- ReadR(vm, d); Ok(BitAnd(WAdd(b, imm), SCRATCHPAD_L2_MASK))
    case L3(d) =>
      if absolute then Ok(BitAnd(imm, SCRATCHPAD_L3_MASK))
      else var b :- ReadR(vm, d); Ok(BitAnd(WAdd(b, imm), SCRATCHPAD_L3_MASK))
    case _ => Panic
  }

  function Load(vm: Vm, i: Instr): Result<u64>
  {
    var imm :- Unwrap(i.imm);
    var a :- Address(vm, i.src, SignExtend32(imm), true);
    if a / 8 < |vm.pad| then Ok(vm.pad[a / 8]) else Panic
  }

  // ---------- effects ----------

  /** The new value of an integer destination. */
  function IntegerResult(vm: Vm, i: Instr): Result<u64>
  {
    var d :- ReadR(vm, i.dst);
    match i.op
    case IADD_RS =>
      var s :- ReadR(vm, i.src);
      if i.mode.Shft? then
        var v := Shl64(s, i.mode.shift);
        Ok(WAdd(d, if i.imm.Some? then WAdd(v, SignExtend32(i.imm.value)) else v))
      else Panic
    case IADD_M => var v :- Load(vm, i); Ok(WAdd(d, v))
    case ISUB_R => var v :- ImmOrR(vm, i); Ok(WSub(d, v))
    case ISUB_M => var v :- Load(vm, i); Ok(WSub(d, v))
    case IMUL_R => var v :- ImmOrR(vm, i); Ok(WMul(d, v))
    case IMUL_M => var v :- Load(vm, i); Ok(WMul(d, v))
    case IMULH_R => var v :- ReadR(vm, i.src); Ok(Mulh(v, d))
    case IMULH_M => var v :- Load(vm, i); Ok(Mulh(v, d))
    case ISMULH_R => var v :- ReadR(vm, i.src); Ok(Smulh(v, d))
    case ISMULH_M => var v :- Load(vm, i); Ok(Smulh(v, d))
    case IMUL_RCP => Ok(if i.reciprocal != 0 then WMul(d, i.reciprocal) else d)
    case INEG_R => Ok(WAdd(Not(d), 1))
    case IXOR_R => var v :- ImmOrR(vm, i); Ok(Xor64(d, v))
    case IXOR_M => var v :- Load(vm, i); Ok(Xor64(d, v))
    case IROR_R => var v :- ImmOrR(vm, i); Ok(RotateRight(d, BitAnd(v, 0xff_ffff)))
    case IROL_R => var v :- ImmOrR(vm, i); Ok(RotateLeft(d, BitAnd(v, 0xff_ffff)))
    case _ => Panic
  }

  function ExecFloat(fpu: Fpu, vm: Vm, i: Instr): Result<Vm>
  {
    match i.op
    case FSWAP_R =>
      if i.dst.E? then var x :- ReadE(vm, i.dst); WriteE(vm, i.dst, SwapLanes(x))
      else var x :- ReadF(vm, i.dst); WriteF(vm, i.dst, SwapLanes(x))
    case FADD_R =>
      var s :- ReadA(vm, i.src);
      var d :- ReadF(vm, i.dst);
      WriteF(vm, i.dst, Lift2(fpu.add, vm.mode, s, d))
    case FADD_M =>
      var w :- Load(vm, i);
      var d :- ReadF(vm, i.dst);
      WriteF(vm, i.dst, Lift2(fpu.add, vm.mode, d, Convert(fpu, w)))
    case FSUB_R =>
      var s :- ReadA(vm, i.src);
      var d :- ReadF(vm, i.dst);
      WriteF(vm, i.dst, Lift2(fpu.sub, vm.mode, d, s))
    case FSUB_M =>
      var w :- Load(vm, i);
      var d :- ReadF(vm, i.dst);
      WriteF(vm, i.dst, Lift2(fpu.sub, vm.mode, d, Convert(fpu, w)))
    case FSCAL_R =>
      var d :- ReadF(vm, i.dst);
      WriteF(vm, i.dst, XorLanes(d, Lanes(0x80f0_0000_0000_0000, 0x80f0_0000_0000_0000)))
    case FMUL_R =>
      var s :- ReadA(vm, i.src);
      var d :- ReadE(vm, i.dst);
      WriteE(vm, i.dst, Lift2(fpu.mul, vm.mode, s, d))
    case FDIV_M =>
      var w :- Load(vm, i);
      var d :- ReadE(vm, i.dst);
      WriteE(vm, i.dst, Lift2(fpu.div, vm.mode, d, MaskExponentMantissa(vm.eMask, Convert(fpu, w))))
    case FSQRT_R =>
      var d :- ReadE(vm, i.dst);
      WriteE(vm, i.dst, Lanes(fpu.sqrt(vm.mode, d.low), fpu.sqrt(vm.mode, d.high)))
    case _ => Panic
  }

  function ExecCbranch(vm: Vm, i: Instr): Result<Vm>
  {
    var imm :- Unwrap(i.imm);
    var target :- Unwrap(i.target);
    var d :- ReadR(vm, i.dst);
    if i.mode.Cond? && i.mode.level < 16 then
      var shift := i.mode.level + 8;
      Pow2At64();
      Pow2Mono(shift, 64);
      ShlIsMul(1, shift);
      ShlIsMul(1, shift - 1);
      Pow2Mono(shift - 1, 64);
      var increment := And64(Or64(SignExtend32(imm), Shl(1, shift)), Not(Shl(1, shift - 1)));
      var sum := WAdd(d, increment);
      var v :- WriteR(vm, i.dst, sum);
      Ok(if BitAnd(sum, Shl(0xff, shift)) == 0 then v.(pc := target) else v)
    else Panic
  }

  function ExecControl(vm: Vm, i: Instr): Result<Vm>
  {
    match i.op
    case NOP => Ok(vm)
    case ISWAP_R =>
      var s :- ReadR(vm, i.src);
      var d :- ReadR(vm, i.dst);
      var v :- WriteR(vm, i.dst, s);
      WriteR(v, i.src, d)
    case CBRANCH => ExecCbranch(vm, i)
    case CFROUND =>
      var s :- ReadR(vm, i.src);
      var imm :- Unwrap(i.imm);
      Ok(vm.(mode := ModeOf(RotateRight(s, Low32(imm)) % 4)))
    case ISTORE =>
      var imm :- Unwrap(i.imm);
      var a :- Address(vm, i.dst, SignExtend32(imm), false);
      var s :- ReadR(vm, i.src);
      if a / 8 < |vm.pad| then Ok(vm.(pad := vm.pad[a / 8 := s])) else Panic
    case _ => Panic
  }

  function Execute(fpu: Fpu, vm: Vm, i: Instr): Result<Vm>
  {
    match i.op
    case NOP | ISWAP_R | CBRANCH | CFROUND | ISTORE => ExecControl(vm, i)
    case FSWAP_R | FADD_R | FADD_M | FSUB_R | FSUB_M | FSCAL_R | FMUL_R | FDIV_M | FSQRT_R =>
      ExecFloat(fpu, vm, i)
    case _ =>
      var v :- IntegerResult(vm, i);
      WriteR(vm, i.dst, v)
  }

  // ---------- a whole program ----------

  /** `Program::from_bytes` on the instruction words: instructions and the final usage table. */
  function Decode(words: seq<u64>): (p: (seq<Instr>, seq<int>))
    ensures |p.0| == |words| && |p.1| == 8
  {
    if |words| == 0 then ([], [-1, -1, -1, -1, -1, -1, -1, -1])
    else
      var n := |words| - 1;
      var (before, usage) := Decode(words[..n]);
      var d := DecodeInstruction(words[n], n, usage);
      UsageLength(words[n], n, usage);
      (before + [d.instr], d.usage)
  }

  lemma UsageLength(raw: u64, index: int, usage: seq<int>)
    requires |usage| == 8
    ensures |DecodeInstruction(raw, index, usage).usage| == 8
  {
    hide BitAnd, NewInstr, NewLcacheInstr, Imm63, WordOf;
  }
}
