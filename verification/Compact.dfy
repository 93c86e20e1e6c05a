/** The compact decoder and interpreter (`randomx-sp1/src/lib.rs`), as functions on values. */
module Compact {
  import opened Words
  import opened Machine
  import opened Reciprocals

  const NO_REG: u8 := 255
  const CONDITION_OFFSET: nat := 8
  const STORE_L3_CONDITION: nat := 14

  datatype Effect =
    | Nop
    | IaddRs | IaddM | IsubR | IsubImm | IsubM | ImulR | ImulImm | ImulM
    | ImulhR | ImulhM | IsmulhR | IsmulhM | ImulRcp | InegR
    | IxorR | IxorImm | IxorM | IrorR | IrorImm | IrolR | IrolImm | IswapR
    | FswapF | FswapE | FaddR | FaddM | FsubR | FsubM | FscalR
    | FmulR | FdivM | FsqrtR
    | Cbranch | Cfround | Istore

  datatype Instr = Instr(
    effect: Effect, imm: u64, target: int, memoryMask: u32, dst: u8, src: u8, mode: u8)

  // ---------- well-formed operands ----------

  /** Byte offset of an integer register, and of a 128-bit float register. */
  predicate RegOffset(o: u8) { o < 64 && o % 8 == 0 }

  predicate FloatOffset(o: u8) { o < 64 && o % 16 == 0 }

  predicate MemoryOperand(i: Instr)
  {
    (i.src == NO_REG || RegOffset(i.src)) && IsMemoryMask(i.memoryMask)
  }

  /** Every access the effect makes without a check is in bounds. */
  predicate Fits(i: Instr)
  {
    match i.effect
    case Nop => true
    case IaddRs | IsubR | ImulR | ImulhR | IsmulhR | IxorR | IrorR | IrolR | IswapR =>
      RegOffset(i.dst) && RegOffset(i.src)
    case IsubImm | ImulImm | ImulRcp | InegR | IxorImm | IrorImm | IrolImm =>
      RegOffset(i.dst)
    case IaddM | IsubM | ImulM | ImulhM | IsmulhM | IxorM =>
      RegOffset(i.dst) && MemoryOperand(i)
    case FswapF | FswapE | FscalR | FsqrtR => FloatOffset(i.dst)
    case FaddR | FsubR | FmulR => FloatOffset(i.dst) && FloatOffset(i.src)
    case FaddM | FsubM | FdivM => FloatOffset(i.dst) && MemoryOperand(i)
    case Cbranch => RegOffset(i.dst) && 8 <= i.mode <= 23
    case Cfround => RegOffset(i.src)
    case Istore => RegOffset(i.dst) && RegOffset(i.src) && IsMemoryMask(i.memoryMask)
  }

  // ---------- register and scratchpad access ----------

  function R(vm: Vm, o: u8): u64
    requires vm.Valid() && RegOffset(o)
  {
    vm.r[o / 8]
  }

  function SetR(vm: Vm, o: u8, v: u64): (w: Vm)
    requires vm.Valid() && RegOffset(o)
    ensures w.Valid()
  {
    vm.(r := vm.r[o / 8 := v])
  }

  function F(vm: Vm, o: u8): Lanes
    requires vm.Valid() && FloatOffset(o)
  {
    vm.f[o / 16]
  }

  function SetF(vm: Vm, o: u8, v: Lanes): (w: Vm)
    requires vm.Valid() && FloatOffset(o)
    ensures w.Valid()
  {
    vm.(f := vm.f[o / 16 := v])
  }

  function E(vm: Vm, o: u8): Lanes
    requires vm.Valid() && FloatOffset(o)
  {
    vm.e[o / 16]
  }

  function SetE(vm: Vm, o: u8, v: Lanes): (w: Vm)
    requires vm.Valid() && FloatOffset(o)
    ensures w.Valid()
  {
    vm.(e := vm.e[o / 16 := v])
  }

  function A(vm: Vm, o: u8): Lanes
    requires vm.Valid() && FloatOffset(o)
  {
    vm.a[o / 16]
  }

  function Loaded(vm: Vm, i: Instr): u64
    requires vm.Valid() && MemoryOperand(i)
  {
    var address := if i.src == NO_REG then i.imm else WAdd(R(vm, i.src), i.imm);
    OffsetInBounds(address, i.memoryMask);
    vm.pad[BitAnd(address, i.memoryMask) / 8]
  }

  function Stored(vm: Vm, i: Instr): (v: Vm)
    requires vm.Valid() && RegOffset(i.dst) && RegOffset(i.src) && IsMemoryMask(i.memoryMask)
    ensures v.Valid()
  {
    var address := WAdd(R(vm, i.dst), i.imm);
    OffsetInBounds(address, i.memoryMask);
    vm.(pad := vm.pad[BitAnd(address, i.memoryMask) / 8 := R(vm, i.src)])
  }

  // ---------- effects ----------

  const FSCAL_MASK: u64 := 0x80f0_0000_0000_0000

  /** `destination & (CONDITION_MASK << shift) == 0`. */
  predicate ConditionHolds(d: u64, shift: nat)
  {
    BitAnd(d, Shl(0xff, shift)) == 0
  }

  function ExecCbranch(vm: Vm, i: Instr): (v: Vm)
    requires vm.Valid() && RegOffset(i.dst)
    ensures v.Valid()
  {
    var d := WAdd(R(vm, i.dst), i.imm);
    var v := SetR(vm, i.dst, d);
    if ConditionHolds(d, i.mode) then v.(pc := i.target) else v
  }

  /** The second operand: a source register, a scratchpad word, or the immediate. */
  function Operand(vm: Vm, i: Instr): u64
    requires vm.Valid() && Fits(i) && WritesOne(i.effect)
  {
    if ReadsRegister(i.effect) then R(vm, i.src)
    else if ReadsMemory(i.effect) then Loaded(vm, i)
    else i.imm
  }

  predicate ReadsRegister(e: Effect)
  {
    match e
    case IaddRs | IsubR | ImulR | ImulhR | IsmulhR | IxorR | IrorR | IrolR => true
    case _ => false
  }

  predicate ReadsMemory(e: Effect)
  {
    match e
    case IaddM | IsubM | ImulM | ImulhM | IsmulhM | IxorM => true
    case _ => false
  }

  /** What an integer effect makes of the destination `d` and the second operand `s`. */
  function Combine(i: Instr, d: u64, s: u64): u64
    requires WritesOne(i.effect)
  {
    match i.effect
    case IaddRs => WAdd(d, WAdd(Shl64(s, i.mode), i.imm))
    case IaddM => WAdd(d, s)
    case IsubR | IsubImm | IsubM => WSub(d, s)
    case ImulR | ImulImm | ImulM => WMul(d, s)
    case ImulhR | ImulhM => Mulh(s, d)
    case IsmulhR | IsmulhM => Smulh(s, d)
    case ImulRcp => if s != 0 then WMul(d, s) else d
    case InegR => WAdd(Not(d), 1)
    case IxorR | IxorImm | IxorM => Xor64(d, s)
    case IrorR => RotateRight(d, BitAnd(s, 0xff_ffff))
    case IrorImm => RotateRight(d, s % TWO32)
    case IrolR => RotateLeft(d, BitAnd(s, 0xff_ffff))
    case IrolImm => RotateLeft(d, s % TWO32)
  }

  /** The new value of `dst` for the integer effects that write exactly that register. */
  function Alu(vm: Vm, i: Instr): u64
    requires vm.Valid() && Fits(i) && WritesOne(i.effect)
  {
    Combine(i, R(vm, i.dst), Operand(vm, i))
  }

  predicate WritesOne(e: Effect)
  {
    match e
    case IaddRs | IaddM | IsubR | IsubImm | IsubM | ImulR | ImulImm | ImulM => true
    case ImulhR | ImulhM | IsmulhR | IsmulhM | ImulRcp | InegR => true
    case IxorR | IxorImm | IxorM | IrorR | IrorImm | IrolR | IrolImm => true
    case _ => false
  }

  predicate IsFloat(e: Effect)
  {
    match e
    case FswapF | FswapE | FaddR | FaddM | FsubR | FsubM | FscalR | FmulR | FdivM | FsqrtR => true
    case _ => false
  }

  function ExecFloat(fpu: Fpu, vm: Vm, i: Instr): (v: Vm)
    requires vm.Valid() && Fits(i) && IsFloat(i.effect)
    ensures v.Valid()
  {
    match i.effect
    case FswapF => SetF(vm, i.dst, SwapLanes(F(vm, i.dst)))
    case FswapE => SetE(vm, i.dst, SwapLanes(E(vm, i.dst)))
    case FaddR => SetF(vm, i.dst, Lift2(fpu.add, vm.mode, F(vm, i.dst), A(vm, i.src)))
    case FaddM => SetF(vm, i.dst, Lift2(fpu.add, vm.mode, F(vm, i.dst), Convert(fpu, Loaded(vm, i))))
    case FsubR => SetF(vm, i.dst, Lift2(fpu.sub, vm.mode, F(vm, i.dst), A(vm, i.src)))
    case FsubM => SetF(vm, i.dst, Lift2(fpu.sub, vm.mode, F(vm, i.dst), Convert(fpu, Loaded(vm, i))))
    case FscalR => SetF(vm, i.dst, XorLanes(F(vm, i.dst), Lanes(FSCAL_MASK, FSCAL_MASK)))
    case FmulR => SetE(vm, i.dst, Lift2(fpu.mul, vm.mode, E(vm, i.dst), A(vm, i.src)))
    case FdivM =>
      var divisor := MaskExponentMantissa(vm.eMask, Convert(fpu, Loaded(vm, i)));
      SetE(vm, i.dst, Lift2(fpu.div, vm.mode, E(vm, i.dst), divisor))
    case FsqrtR =>
      var x := E(vm, i.dst);
      SetE(vm, i.dst, Lanes(fpu.sqrt(vm.mode, x.low), fpu.sqrt(vm.mode, x.high)))
  }

  function ExecCfround(vm: Vm, i: Instr): (v: Vm)
    requires vm.Valid() && RegOffset(i.src)
    ensures v.Valid()
  {
    vm.(mode := ModeOf(BitAnd(RotateRight(R(vm, i.src), i.imm % TWO32), 3)))
  }

  function Exec(fpu: Fpu, vm: Vm, i: Instr): (v: Vm)
    requires vm.Valid() && Fits(i)
    ensures v.Valid()
  {
    if WritesOne(i.effect) then SetR(vm, i.dst, Alu(vm, i))
    else if IsFloat(i.effect) then ExecFloat(fpu, vm, i)
    else
      match i.effect
      case IswapR => SetR(SetR(vm, i.dst, R(vm, i.src)), i.src, R(vm, i.dst))
      case Cbranch => ExecCbranch(vm, i)
      case Cfround => ExecCfround(vm, i)
      case Istore => Stored(vm, i)
      case _ => vm
  }

  // ---------- decoder ----------

  /** Which entries of the last-writer table an instruction overwrites with its own index. */
  datatype Touched = TouchNone | TouchOne(reg: nat) | TouchTwo(reg: nat, other: nat) | TouchAll

  datatype Decoded = Decoded(instr: Instr, touched: Touched)

  function RegisterByteOffset(index: u8, stride: nat): u8
    requires index == NO_REG || (index < 8 && stride <= 16)
  {
    if index == NO_REG then NO_REG else index * stride
  }

  function New(e: Effect, dst: u8, src: u8, imm: u64, mode: u8): Instr
    requires (dst == NO_REG || dst < 8) && (src == NO_REG || src < 8)
  {
    Instr(e, imm, 0, 0, RegisterByteOffset(dst, 8), RegisterByteOffset(src, 8), mode)
  }

  function NewFloat(e: Effect, dst: u8, src: u8): Instr
    requires (dst == NO_REG || dst < 4) && (src == NO_REG || src < 4)
  {
    New(e, dst, src, 0, 0).(dst := RegisterByteOffset(dst, 16), src := RegisterByteOffset(src, 16))
  }

  datatype Level = MemL1 | MemL2 | MemL3

  function MemoryMask(level: Level): u32
  {
    match level
    case MemL1 => SCRATCHPAD_L1_MASK
    case MemL2 => SCRATCHPAD_L2_MASK
    case MemL3 => SCRATCHPAD_L3_MASK
  }

  function NewMemory(e: Effect, dst: u8, src: u8, imm: u64, level: Level): Instr
    requires (dst == NO_REG || dst < 8) && (src == NO_REG || src < 8)
  {
    New(e, dst, src, imm, 0).(memoryMask := MemoryMask(level))
  }

  function DecodeRegOrImm(onReg: Effect, onImm: Effect, dst: u8, src: u8, imm: i32): Instr
    requires dst < 8 && src < 8
  {
    if dst == src then New(onImm, dst, NO_REG, SignExtend32(imm), 0) else New(onReg, dst, src, 0, 0)
  }

  function DecodeMemory(e: Effect, dst: u8, address: u8, imm: i32, modifier: u8, same: bool): Instr
    requires dst < 8 && address < 8
  {
    if same then NewMemory(e, dst, NO_REG, And64(Low32(imm), SCRATCHPAD_L3_MASK), MemL3)
    else NewMemory(e, dst, address, SignExtend32(imm), if BitAnd(modifier, 3) == 0 then MemL2 else MemL1)
  }

  function DecodeFloatMemory(e: Effect, dst: u8, address: u8, imm: i32, modifier: u8): Instr
    requires dst < 4 && address < 8
  {
    DecodeMemory(e, dst, address, imm, modifier, false).(dst := RegisterByteOffset(dst, 16))
  }

  /** `1 << n` for the branch condition bits. */
  function OneShl(n: nat): (x: u64)
    requires n < 64
    ensures x == Shl(1, n)
  {
    ShlIsMul(1, n);
    Pow2Mono(n, 64);
    Pow2At64();
    Shl(1, n)
  }

  /** The branch increment: bit `shift` forced to one, bit `shift - 1` to zero. */
  function Increment(imm: i32, shift: nat): u64
    requires 8 <= shift <= 23
  {
    And64(Or64(SignExtend32(imm), OneShl(shift)), Not(OneShl(shift - 1)))
  }

  /** `(imm32 & 63)` on the two's complement representation. */
  function Imm63(imm: i32): (x: i32)
    ensures 0 <= x < 64
  {
    AndLe(Low32(imm), 63);
    BitAnd(Low32(imm), 63)
  }

  function SafeReciprocal(divisor: u64): u64
    requires !IsZeroOrPowerOfTwo(divisor)
  {
    ZeroOrPowerOfTwo(divisor);
    Reciprocal(divisor)
  }

  /** The five fields of an instruction word. */
  datatype Fields = Fields(op: u8, dst: u8, src: u8, modifier: u8, imm: i32)

  function FieldsOf(raw: u64): Fields
  {
    Fields(raw % 0x100, raw / 0x100 % 0x100, raw / 0x1_0000 % 0x100, raw / 0x100_0000 % 0x100,
           SignedLow32(raw / TWO32))
  }

  /** Opcodes below 0x4c: additions, subtractions and multiplications. */
  function DecodeArithmetic(x: Fields): Decoded
  {
    var op, d, s, imm, modifier := x.op, x.dst % 8, x.src % 8, x.imm, x.modifier;
    Decoded(
      if op < 0x10 then
        New(IaddRs, d, s, if d == 5 then SignExtend32(imm) else 0, BitAndShift(modifier))
      else if op < 0x17 then DecodeMemory(IaddM, d, s, imm, modifier, d == s)
      else if op < 0x27 then DecodeRegOrImm(IsubR, IsubImm, d, s, imm)
      else if op < 0x2e then DecodeMemory(IsubM, d, s, imm, modifier, d == s)
      else if op < 0x3e then DecodeRegOrImm(ImulR, ImulImm, d, s, imm)
      else if op < 0x42 then DecodeMemory(ImulM, d, s, imm, modifier, d == s)
      else if op < 0x46 then New(ImulhR, d, s, 0, 0)
      else if op < 0x47 then DecodeMemory(ImulhM, d, s, imm, modifier, d == s)
      else if op < 0x4b then New(IsmulhR, d, s, 0, 0)
      else DecodeMemory(IsmulhM, d, s, imm, modifier, d == s),
      TouchOne(d))
  }

  /** Opcodes 0x4c..0x77: reciprocal, negation, xor, rotations and swaps. */
  function DecodeBitwise(x: Fields): Decoded
  {
    var op, d, s, imm, modifier := x.op, x.dst % 8, x.src % 8, x.imm, x.modifier;
    if op < 0x54 then
      var divisor := Low32(imm);
      if IsZeroOrPowerOfTwo(divisor) then Decoded(New(ImulRcp, d, NO_REG, 0, 0), TouchNone)
      else Decoded(New(ImulRcp, d, NO_REG, SafeReciprocal(divisor), 0), TouchOne(d))
    else if op < 0x56 then Decoded(New(InegR, d, NO_REG, 0, 0), TouchOne(d))
    else if op < 0x65 then Decoded(DecodeRegOrImm(IxorR, IxorImm, d, s, imm), TouchOne(d))
    else if op < 0x6a then Decoded(DecodeMemory(IxorM, d, s, imm, modifier, d == s), TouchOne(d))
    else if op < 0x72 then Decoded(DecodeRegOrImm(IrorR, IrorImm, d, s, Imm63(imm)), TouchOne(d))
    else if op < 0x74 then Decoded(DecodeRegOrImm(IrolR, IrolImm, d, s, Imm63(imm)), TouchOne(d))
    else if d == s then Decoded(New(Nop, NO_REG, NO_REG, 0, 0), TouchNone)
    else Decoded(New(IswapR, d, s, 0, 0), TouchTwo(d, s))
  }

  /** Opcodes 0x78..0xd5: the float instructions, which touch no integer register. */
  function DecodeFloat(x: Fields): Instr
  {
    var op, d, s, imm, modifier := x.op, x.dst % 8, x.src % 8, x.imm, x.modifier;
    var fd, fs := x.dst % 4, x.src % 4;
    if op < 0x7c then NewFloat(if d >= 4 then FswapE else FswapF, d % 4, NO_REG)
    else if op < 0x8c then NewFloat(FaddR, fd, fs)
    else if op < 0x91 then DecodeFloatMemory(FaddM, fd, s, imm, modifier)
    else if op < 0xa1 then NewFloat(FsubR, fd, fs)
    else if op < 0xa6 then DecodeFloatMemory(FsubM, fd, s, imm, modifier)
    else if op < 0xac then NewFloat(FscalR, fd, NO_REG)
    else if op < 0xcc then NewFloat(FmulR, fd, fs)
    else if op < 0xd0 then DecodeFloatMemory(FdivM, fd, s, imm, modifier)
    else NewFloat(FsqrtR, fd, NO_REG)
  }

  /** Opcodes from 0xd6: branch, rounding mode and store. */
  function DecodeControl(x: Fields, usage: seq<int>): Decoded
    requires |usage| == 8
  {
    var op, d, s, imm, modifier := x.op, x.dst % 8, x.src % 8, x.imm, x.modifier;
    if op < 0xef then
      var shift := modifier / 16 + CONDITION_OFFSET;
      Decoded(New(Cbranch, d, NO_REG, Increment(imm, shift), shift).(target := usage[d]), TouchAll)
    else if op < 0xf0 then Decoded(New(Cfround, NO_REG, s, Imm63(imm), 0), TouchNone)
    else
      var level := if modifier / 16 >= STORE_L3_CONDITION then MemL3
                   else if BitAnd(modifier, 3) == 0 then MemL2 else MemL1;
      Decoded(NewMemory(Istore, d, s, SignExtend32(imm), level), TouchNone)
  }

  function DecodeFields(x: Fields, usage: seq<int>): Decoded
    requires |usage| == 8
  {
    if x.op < 0x4c then DecodeArithmetic(x)
    else if x.op < 0x78 then DecodeBitwise(x)
    else if x.op < 0xd6 then Decoded(DecodeFloat(x), TouchNone)
    else DecodeControl(x, usage)
  }

  function DecodeInstruction(raw: u64, usage: seq<int>): Decoded
    requires |usage| == 8
  {
    DecodeFields(FieldsOf(raw), usage)
  }

  /** `(modifier >> 2) & 3`. */
  function BitAndShift(modifier: u8): (m: u8)
    ensures m < 4
  {
    AndLe(modifier / 4, 3);
    BitAnd(modifier / 4, 3)
  }

  function Touch(usage: seq<int>, t: Touched, index: int): (u: seq<int>)
    requires |usage| == 8
    ensures |u| == 8
  {
    seq(8, q requires 0 <= q < 8 => if Touches(t, q) then index else usage[q])
  }

  predicate Touches(t: Touched, q: nat)
  {
    match t
    case TouchNone => false
    case TouchOne(reg) => q == reg
    case TouchTwo(reg, other) => q == reg || q == other
    case TouchAll => true
  }

  /** The last-writer table after decoding all of `words`. */
  function UsageAfter(words: seq<u64>): (u: seq<int>)
    ensures |u| == 8
  {
    if |words| == 0 then [-1, -1, -1, -1, -1, -1, -1, -1]
    else
      var n := |words| - 1;
      var before := UsageAfter(words[..n]);
      Touch(before, DecodeInstruction(words[n], before).touched, n)
  }

  /** `CompactProgram::from_bytes` on the instruction words. */
  function Decode(words: seq<u64>): (p: seq<Instr>)
    ensures |p| == |words|
  {
    if |words| == 0 then []
    else
      var n := |words| - 1;
      Decode(words[..n]) + [DecodeInstruction(words[n], UsageAfter(words[..n])).instr]
  }
}
