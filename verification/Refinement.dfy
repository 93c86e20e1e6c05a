/** The compact decoder and interpreter agree with the reference ones, word by word and run by run. */
module Refinement {
  import opened Words
  import opened Wrappers
  import opened Machine
  import opened Reciprocals
  import C = Compact
  import Rf = Reference

  ghost predicate SameWord(x: C.Fields, w: Rf.Word)
  {
    x.op == w.op && x.dst == w.dst && x.src == w.src && x.modifier == w.modi && x.imm == w.imm
  }

  /** Masking a field in place and shifting it down is shifting first and masking then. */
  lemma MaskThenShift(x: nat, width: nat, s: nat, mask: nat, p: nat)
    requires p == Pow2(s) && mask == (Pow2(width) - 1) * p
    ensures BitAnd(x, mask) / p == x / p % Pow2(width)
  {
    hide BitAnd, Pow2;
    AndShift(x, Pow2(width) - 1, s);
    ShlIsMul(Pow2(width) - 1, s);
    ShrIsDiv(x, s);
    AndOnes(x / p, width);
    var v := x / p % Pow2(width);
    ShlIsMul(v, s);
    DivModUnique(v * p, p, v, 0);
  }

  lemma FieldsAgree(raw: u64)
    ensures SameWord(C.FieldsOf(raw), Rf.WordOf(raw))
  {
    hide BitAnd;
    Pow2At16();
    Pow2At32();
    Pow2Add(16, 8);
    assert Pow2(0) == 1;
    MaskThenShift(raw, 8, 0, 0xff, 1);
    MaskThenShift(raw, 8, 8, 0xff00, 0x100);
    MaskThenShift(raw, 8, 16, 0xff_0000, 0x1_0000);
    MaskThenShift(raw, 8, 24, 0xff00_0000, 0x100_0000);
    MaskThenShift(raw, 32, 32, 0xffff_ffff_0000_0000, TWO32);
    Small32(raw / TWO32);
  }

  lemma Small32(x: nat)
    requires x < TWO32
    ensures x % TWO32 == x && x % TWO32 % TWO32 == x
  {
  }

  // ---------- operands ----------

  lemma Mod4(x: nat)
    ensures BitAnd(x, 3) == x % 4
  {
    assert Pow2(2) == 4;
    AndOnes(x, 2);
  }

  lemma SmallImm(imm: i32)
    requires imm >= 0
    ensures SignExtend32(imm) == imm && imm % TWO64 == imm && Low32(imm) == imm
  {
  }

  lemma ImmediateLoad(vm: Vm, op: Rf.Opcode, e: C.Effect, dst: Rf.Store, d: u8, x: C.Fields, w: Rf.Word)
    requires vm.Valid() && SameWord(x, w) && dst == Rf.R(d) && d < 8 && d == x.src % 8
    ensures var ri := Rf.NewLcacheInstr(op, dst, w.src, w.imm, w.modi);
      var ci := C.DecodeMemory(e, d, x.src % 8, x.imm, x.modifier, true);
      C.MemoryOperand(ci) && Rf.Load(vm, ri) == Ok(C.Loaded(vm, ci))
  {
    hide BitAnd, SignExtend32;
    var a := BitAnd(Low32(x.imm), SCRATCHPAD_L3_MASK);
    AndLe(Low32(x.imm), SCRATCHPAD_L3_MASK);
    SmallImm(a);
    OffsetInBounds(a, SCRATCHPAD_L3_MASK);
  }

  lemma RegisterLoad(vm: Vm, op: Rf.Opcode, e: C.Effect, dst: Rf.Store, d: u8, x: C.Fields, w: Rf.Word)
    requires vm.Valid() && SameWord(x, w) && dst != Rf.R(x.src % 8) && d < 8
    ensures var ri := Rf.NewLcacheInstr(op, dst, w.src, w.imm, w.modi);
      var ci := C.DecodeMemory(e, d, x.src % 8, x.imm, x.modifier, false);
      C.MemoryOperand(ci) && Rf.Load(vm, ri) == Ok(C.Loaded(vm, ci))
  {
    hide BitAnd, SignExtend32;
    Mod4(x.modifier);
    var ci := C.DecodeMemory(e, d, x.src % 8, x.imm, x.modifier, false);
    OffsetInBounds(WAdd(C.R(vm, ci.src), ci.imm), ci.memoryMask);
  }

  /** A memory source loads the same word, whether its address is absolute or register-based. */
  lemma LoadAgrees(vm: Vm, op: Rf.Opcode, e: C.Effect, x: C.Fields, w: Rf.Word)
    requires vm.Valid() && SameWord(x, w)
    ensures var ri := Rf.NewLcacheInstr(op, Rf.RReg(w.dst), w.src, w.imm, w.modi);
      var ci := C.DecodeMemory(e, x.dst % 8, x.src % 8, x.imm, x.modifier, x.dst % 8 == x.src % 8);
      C.MemoryOperand(ci) && Rf.Load(vm, ri) == Ok(C.Loaded(vm, ci))
  {
    if x.dst % 8 == x.src % 8 {
      ImmediateLoad(vm, op, e, Rf.RReg(w.dst), x.dst % 8, x, w);
    } else {
      RegisterLoad(vm, op, e, Rf.RReg(w.dst), x.dst % 8, x, w);
    }
  }

  lemma FloatLoadAgrees(vm: Vm, op: Rf.Opcode, e: C.Effect, dst: Rf.Store, x: C.Fields, w: Rf.Word)
    requires vm.Valid() && SameWord(x, w) && (dst.F? || dst.E?)
    ensures var ri := Rf.NewLcacheInstr(op, dst, w.src, w.imm, w.modi);
      var ci := C.DecodeFloatMemory(e, x.dst % 4, x.src % 8, x.imm, x.modifier);
      C.MemoryOperand(ci) && Rf.Load(vm, ri) == Ok(C.Loaded(vm, ci))
  {
    hide BitAnd, SignExtend32;
    RegisterLoad(vm, op, e, dst, x.dst % 4, x, w);
  }

  /** A register source, or the sign-extended immediate when source and destination coincide. */
  lemma OperandAgrees(vm: Vm, op: Rf.Opcode, onReg: C.Effect, onImm: C.Effect, x: C.Fields, w: Rf.Word, imm: i32)
    requires vm.Valid() && SameWord(x, w)
    ensures var ri := Rf.NewInstr(op, Rf.RReg(w.dst), Rf.RReg(w.src), imm);
      var ci := C.DecodeRegOrImm(onReg, onImm, x.dst % 8, x.src % 8, imm);
      && ri.op == op && ri.dst == Rf.R(x.dst % 8) && ci.dst == 8 * (x.dst % 8)
      && (x.dst % 8 == x.src % 8 ==> ci.effect == onImm && Rf.ImmOrR(vm, ri) == Ok(ci.imm))
      && (x.dst % 8 != x.src % 8 ==>
            ci.effect == onReg && C.RegOffset(ci.src) && Rf.ImmOrR(vm, ri) == Ok(C.R(vm, ci.src)))
  {
    hide SignExtend32;
    SignExtendIsCast(imm);
  }

  // ---------- decoding and executing one instruction ----------

  ghost predicate Agrees(fpu: Fpu, vm: Vm, ri: Rf.Instr, ci: C.Instr)
    requires vm.Valid()
  {
    C.Fits(ci) && Rf.Execute(fpu, vm, ri) == Ok(C.Exec(fpu, vm, ci))
  }

  predicate IsInteger(op: Rf.Opcode)
  {
    op in {Rf.IADD_RS, Rf.IADD_M, Rf.ISUB_R, Rf.ISUB_M, Rf.IMUL_R, Rf.IMUL_M, Rf.IMULH_R, Rf.IMULH_M,
           Rf.ISMULH_R, Rf.ISMULH_M, Rf.IMUL_RCP, Rf.INEG_R, Rf.IXOR_R, Rf.IXOR_M, Rf.IROR_R, Rf.IROL_R}
  }

  /** Two integer instructions agree when they compute the same value for the same register. */
  lemma IntegerAgrees(fpu: Fpu, vm: Vm, ri: Rf.Instr, ci: C.Instr)
    requires vm.Valid() && IsInteger(ri.op) && C.WritesOne(ci.effect) && C.Fits(ci)
    requires ri.dst == Rf.R(ci.dst / 8) && Rf.IntegerResult(vm, ri) == Ok(C.Alu(vm, ci))
    ensures Agrees(fpu, vm, ri, ci)
  {
    hide Rf.IntegerResult, C.Alu;
    hide Rf.ExecFloat, Rf.ExecControl, C.ExecFloat, C.ExecCbranch, C.ExecCfround, C.Stored;
  }

  ghost predicate MemoryPair(op: Rf.Opcode, e: C.Effect)
  {
    match op
    case IADD_M => e == C.IaddM
    case ISUB_M => e == C.IsubM
    case IMUL_M => e == C.ImulM
    case IMULH_M => e == C.ImulhM
    case ISMULH_M => e == C.IsmulhM
    case IXOR_M => e == C.IxorM
    case _ => false
  }

  lemma MemoryAgrees(fpu: Fpu, vm: Vm, op: Rf.Opcode, e: C.Effect, x: C.Fields, w: Rf.Word)
    requires vm.Valid() && SameWord(x, w) && MemoryPair(op, e)
    ensures Agrees(fpu, vm, Rf.NewLcacheInstr(op, Rf.RReg(w.dst), w.src, w.imm, w.modi),
                   C.DecodeMemory(e, x.dst % 8, x.src % 8, x.imm, x.modifier, x.dst % 8 == x.src % 8))
  {
    hide Rf.ExecFloat, Rf.ExecControl, C.ExecFloat, C.ExecCbranch, C.ExecCfround, C.Stored;
    hide BitAnd, SignExtend32, Rf.Load, C.Loaded, Mulh, Smulh, WMul, WAdd, WSub, Xor64, And64;
    hide C.Exec, Rf.Execute;
    LoadAgrees(vm, op, e, x, w);
    IntegerAgrees(fpu, vm, Rf.NewLcacheInstr(op, Rf.RReg(w.dst), w.src, w.imm, w.modi),
                  C.DecodeMemory(e, x.dst % 8, x.src % 8, x.imm, x.modifier, x.dst % 8 == x.src % 8));
  }

  lemma RegisterAgrees(fpu: Fpu, vm: Vm, op: Rf.Opcode, onReg: C.Effect, onImm: C.Effect, x: C.Fields, w: Rf.Word)
    requires vm.Valid() && SameWord(x, w)
    requires (op, onReg, onImm) in {(Rf.ISUB_R, C.IsubR, C.IsubImm), (Rf.IMUL_R, C.ImulR, C.ImulImm),
                                    (Rf.IXOR_R, C.IxorR, C.IxorImm)}
    ensures Agrees(fpu, vm, Rf.NewInstr(op, Rf.RReg(w.dst), Rf.RReg(w.src), w.imm),
                   C.DecodeRegOrImm(onReg, onImm, x.dst % 8, x.src % 8, x.imm))
  {
    hide Rf.ExecFloat, Rf.ExecControl, C.ExecFloat, C.ExecCbranch, C.ExecCfround, C.Stored;
    hide SignExtend32, WMul, WSub, Xor64, Rf.ImmOrR;
    hide C.Exec, Rf.Execute;
    OperandAgrees(vm, op, onReg, onImm, x, w, x.imm);
    IntegerAgrees(fpu, vm, Rf.NewInstr(op, Rf.RReg(w.dst), Rf.RReg(w.src), w.imm),
                  C.DecodeRegOrImm(onReg, onImm, x.dst % 8, x.src % 8, x.imm));
  }

  lemma SmallRotation(v: u64)
    requires v < 64
    ensures BitAnd(v, 0xff_ffff) == v && v % TWO32 == v
  {
    hide BitAnd;
    Pow2At16();
    Pow2Add(16, 8);
    AndOnes(v, 24);
  }

  lemma RotateAgrees(fpu: Fpu, vm: Vm, op: Rf.Opcode, onReg: C.Effect, onImm: C.Effect, x: C.Fields, w: Rf.Word)
    requires vm.Valid() && SameWord(x, w)
    requires (op, onReg, onImm) in {(Rf.IROR_R, C.IrorR, C.IrorImm), (Rf.IROL_R, C.IrolR, C.IrolImm)}
    ensures Agrees(fpu, vm, Rf.NewInstr(op, Rf.RReg(w.dst), Rf.RReg(w.src), Rf.Imm63(w.imm)),
                   C.DecodeRegOrImm(onReg, onImm, x.dst % 8, x.src % 8, C.Imm63(x.imm)))
  {
    hide Rf.ExecFloat, Rf.ExecControl, C.ExecFloat, C.ExecCbranch, C.ExecCfround, C.Stored;
    hide BitAnd, SignExtend32, RotateLeft, RotateRight, Rf.ImmOrR;
    var imm := C.Imm63(x.imm);
    OperandAgrees(vm, op, onReg, onImm, x, w, imm);
    hide C.Exec, Rf.Execute;
    SmallImm(imm);
    SmallRotation(imm);
    IntegerAgrees(fpu, vm, Rf.NewInstr(op, Rf.RReg(w.dst), Rf.RReg(w.src), imm),
                  C.DecodeRegOrImm(onReg, onImm, x.dst % 8, x.src % 8, imm));
  }

  lemma ScaledAddAgrees(fpu: Fpu, vm: Vm, x: C.Fields, w: Rf.Word, index: int, usage: seq<int>)
    requires vm.Valid() && SameWord(x, w) && x.op < 0x10 && |usage| == 8
    ensures Agrees(fpu, vm, Rf.DecodeArithmetic(w, index, usage).instr, C.DecodeArithmetic(x).instr)
  {
    hide Rf.ExecFloat, Rf.ExecControl, C.ExecFloat, C.ExecCbranch, C.ExecCfround, C.Stored;
    hide BitAnd, SignExtend32, Shl;
    Mod4(x.modifier / 4);
    hide C.Exec, Rf.Execute;
    Small64(Shl64(vm.r[x.src % 8], x.modifier / 4 % 4));
    IntegerAgrees(fpu, vm, Rf.DecodeArithmetic(w, index, usage).instr, C.DecodeArithmetic(x).instr);
  }

  lemma HighMultiplyAgrees(fpu: Fpu, vm: Vm, op: Rf.Opcode, e: C.Effect, x: C.Fields, w: Rf.Word)
    requires vm.Valid() && SameWord(x, w)
    requires (op, e) in {(Rf.IMULH_R, C.ImulhR), (Rf.ISMULH_R, C.IsmulhR)}
    ensures Agrees(fpu, vm, Rf.RegInstr(op, w), C.New(e, x.dst % 8, x.src % 8, 0, 0))
  {
    hide Mulh, Smulh, C.Exec, Rf.Execute;
    IntegerAgrees(fpu, vm, Rf.RegInstr(op, w), C.New(e, x.dst % 8, x.src % 8, 0, 0));
  }

  lemma SwapAgrees(fpu: Fpu, vm: Vm, x: C.Fields, w: Rf.Word)
    requires vm.Valid() && SameWord(x, w)
    ensures Agrees(fpu, vm, Rf.RegInstr(Rf.ISWAP_R, w), C.New(C.IswapR, x.dst % 8, x.src % 8, 0, 0))
  {
    hide Rf.IntegerResult, C.Alu, Rf.ExecFloat, C.ExecFloat, C.ExecCbranch, C.ExecCfround, C.Stored, Rf.ExecCbranch;
  }

  /** The reference writes the same entries of the usage table. */
  lemma OneTouched(usage: seq<int>, q: nat, index: int)
    requires |usage| == 8 && q < 8
    ensures Rf.Used(usage, q, index) == C.Touch(usage, C.TouchOne(q), index)
  {
  }

  lemma TwoTouched(usage: seq<int>, p: nat, q: nat, index: int)
    requires |usage| == 8 && p < 8 && q < 8
    ensures Rf.Used(Rf.Used(usage, p, index), q, index) == C.Touch(usage, C.TouchTwo(p, q), index)
    ensures usage == C.Touch(usage, C.TouchNone, index)
    ensures seq(8, _ => index) == C.Touch(usage, C.TouchAll, index)
  {
  }

  ghost predicate Matches(fpu: Fpu, vm: Vm, r: Rf.Decoded, c: C.Decoded, index: int, usage: seq<int>)
    requires vm.Valid() && |usage| == 8
  {
    Agrees(fpu, vm, r.instr, c.instr) && r.usage == C.Touch(usage, c.touched, index)
  }

  lemma ArithmeticMatches(fpu: Fpu, vm: Vm, x: C.Fields, w: Rf.Word, index: int, usage: seq<int>)
    requires vm.Valid() && SameWord(x, w) && x.op < 0x4c && |usage| == 8
    ensures Matches(fpu, vm, Rf.DecodeArithmetic(w, index, usage), C.DecodeArithmetic(x), index, usage)
  {
    hide Agrees, Rf.NewInstr, Rf.NewLcacheInstr, C.DecodeMemory, C.DecodeRegOrImm, C.New, BitAnd, SignExtend32;
    OneTouched(usage, x.dst % 8, index);
    var op := x.op;
    if op < 0x10 {
      ScaledAddAgrees(fpu, vm, x, w, index, usage);
    } else if op < 0x17 {
      MemoryAgrees(fpu, vm, Rf.IADD_M, C.IaddM, x, w);
    } else if op < 0x27 {
      RegisterAgrees(fpu, vm, Rf.ISUB_R, C.IsubR, C.IsubImm, x, w);
    } else if op < 0x2e {
      MemoryAgrees(fpu, vm, Rf.ISUB_M, C.IsubM, x, w);
    } else if op < 0x3e {
      RegisterAgrees(fpu, vm, Rf.IMUL_R, C.ImulR, C.ImulImm, x, w);
    } else if op < 0x42 {
      MemoryAgrees(fpu, vm, Rf.IMUL_M, C.ImulM, x, w);
    } else if op < 0x46 {
      HighMultiplyAgrees(fpu, vm, Rf.IMULH_R, C.ImulhR, x, w);
    } else if op < 0x47 {
      MemoryAgrees(fpu, vm, Rf.IMULH_M, C.ImulhM, x, w);
    } else if op < 0x4b {
      HighMultiplyAgrees(fpu, vm, Rf.ISMULH_R, C.IsmulhR, x, w);
    } else {
      MemoryAgrees(fpu, vm, Rf.ISMULH_M, C.IsmulhM, x, w);
    }
  }

  lemma ReciprocalMatches(fpu: Fpu, vm: Vm, x: C.Fields, w: Rf.Word, index: int, usage: seq<int>)
    requires vm.Valid() && SameWord(x, w) && x.op < 0x54 && |usage| == 8
    ensures Matches(fpu, vm, Rf.DecodeReciprocal(w, index, usage), C.DecodeBitwise(x), index, usage)
  {
    hide Rf.ExecFloat, Rf.ExecControl, C.ExecFloat, C.ExecCbranch, C.ExecCfround, C.Stored;
    hide WMul, IsZeroOrPowerOfTwo, Reciprocal;
    OneTouched(usage, x.dst % 8, index);
    TwoTouched(usage, 0, 0, index);
  }

  lemma NegationAgrees(fpu: Fpu, vm: Vm, x: C.Fields, w: Rf.Word)
    requires vm.Valid() && SameWord(x, w)
    ensures Agrees(fpu, vm, Rf.NewInstr(Rf.INEG_R, Rf.RReg(w.dst), Rf.NONE, w.imm),
                   C.New(C.InegR, x.dst % 8, C.NO_REG, 0, 0))
    ensures Agrees(fpu, vm, Rf.NewInstr(Rf.NOP, Rf.NONE, Rf.NONE, w.imm), C.New(C.Nop, C.NO_REG, C.NO_REG, 0, 0))
  {
    hide Rf.ExecFloat, C.ExecFloat, C.ExecCbranch, C.ExecCfround, C.Stored, Rf.ExecCbranch;
  }

  lemma BitwiseMatches(fpu: Fpu, vm: Vm, x: C.Fields, w: Rf.Word, index: int, usage: seq<int>)
    requires vm.Valid() && SameWord(x, w) && x.op < 0x78 && |usage| == 8
    ensures Matches(fpu, vm, Rf.DecodeBitwise(w, index, usage), C.DecodeBitwise(x), index, usage)
  {
    hide Agrees, Rf.NewInstr, Rf.NewLcacheInstr, C.DecodeMemory, C.DecodeRegOrImm, C.New, BitAnd, SignExtend32;
    hide Rf.DecodeReciprocal, Rf.Imm63, C.Imm63, IsZeroOrPowerOfTwo, C.SafeReciprocal, Rf.Used, C.Touch;
    OneTouched(usage, x.dst % 8, index);
    TwoTouched(usage, x.dst % 8, x.src % 8, index);
    var op := x.op;
    if op < 0x54 {
      ReciprocalMatches(fpu, vm, x, w, index, usage);
    } else if op < 0x56 {
      NegationAgrees(fpu, vm, x, w);
    } else if op < 0x65 {
      RegisterAgrees(fpu, vm, Rf.IXOR_R, C.IxorR, C.IxorImm, x, w);
    } else if op < 0x6a {
      MemoryAgrees(fpu, vm, Rf.IXOR_M, C.IxorM, x, w);
    } else if op < 0x72 {
      RotateAgrees(fpu, vm, Rf.IROR_R, C.IrorR, C.IrorImm, x, w);
    } else if op < 0x74 {
      RotateAgrees(fpu, vm, Rf.IROL_R, C.IrolR, C.IrolImm, x, w);
    } else {
      SwapAgrees(fpu, vm, x, w);
      NegationAgrees(fpu, vm, x, w);
    }
  }

  // ---------- float instructions ----------

  ghost predicate FloatPair(op: Rf.Opcode, e: C.Effect, dst: Rf.Store, fd: nat)
  {
    match op
    case FADD_M => e == C.FaddM && dst == Rf.F(fd)
    case FSUB_M => e == C.FsubM && dst == Rf.F(fd)
    case FDIV_M => e == C.FdivM && dst == Rf.E(fd)
    case _ => false
  }

  predicate IsFloatOp(op: Rf.Opcode)
  {
    op in {Rf.FSWAP_R, Rf.FADD_R, Rf.FADD_M, Rf.FSUB_R, Rf.FSUB_M, Rf.FSCAL_R, Rf.FMUL_R, Rf.FDIV_M, Rf.FSQRT_R}
  }

  lemma FloatAgrees(fpu: Fpu, vm: Vm, ri: Rf.Instr, ci: C.Instr)
    requires vm.Valid() && IsFloatOp(ri.op) && C.IsFloat(ci.effect) && C.Fits(ci)
    requires Rf.ExecFloat(fpu, vm, ri) == Ok(C.ExecFloat(fpu, vm, ci))
    ensures Agrees(fpu, vm, ri, ci)
  {
    hide Rf.ExecFloat, C.ExecFloat, Rf.IntegerResult, C.Alu, Rf.ExecControl, C.ExecCbranch, C.ExecCfround, C.Stored;
  }

  lemma FloatMemoryAgrees(fpu: Fpu, vm: Vm, op: Rf.Opcode, e: C.Effect, dst: Rf.Store, x: C.Fields, w: Rf.Word)
    requires vm.Valid() && SameWord(x, w) && FloatPair(op, e, dst, x.dst % 4)
    ensures Agrees(fpu, vm, Rf.NewLcacheInstr(op, dst, w.src, w.imm, w.modi),
                   C.DecodeFloatMemory(e, x.dst % 4, x.src % 8, x.imm, x.modifier))
  {
    hide BitAnd, SignExtend32, Rf.Load, C.Loaded, Convert, MaskExponentMantissa, C.Exec, Rf.Execute;
    FloatLoadAgrees(vm, op, e, dst, x, w);
    FloatAgrees(fpu, vm, Rf.NewLcacheInstr(op, dst, w.src, w.imm, w.modi),
                C.DecodeFloatMemory(e, x.dst % 4, x.src % 8, x.imm, x.modifier));
  }

  lemma FloatRegisterAgrees(fpu: Fpu, vm: Vm, x: C.Fields, w: Rf.Word)
    requires vm.Valid() && SameWord(x, w) && Commutative(fpu)
    requires 0x7c <= x.op < 0x8c || 0x91 <= x.op < 0xa1 || 0xac <= x.op < 0xcc
    ensures Agrees(fpu, vm, Rf.DecodeFloat(w), C.DecodeFloat(x))
  {
    hide C.DecodeFloatMemory, Rf.NewLcacheInstr, C.Exec, Rf.Execute;
    FloatAgrees(fpu, vm, Rf.DecodeFloat(w), C.DecodeFloat(x));
  }

  lemma FloatUnaryAgrees(fpu: Fpu, vm: Vm, x: C.Fields, w: Rf.Word)
    requires vm.Valid() && SameWord(x, w)
    requires 0x78 <= x.op < 0x7c || 0xa6 <= x.op < 0xac || 0xd0 <= x.op < 0xd6
    ensures Agrees(fpu, vm, Rf.DecodeFloat(w), C.DecodeFloat(x))
  {
    hide C.DecodeFloatMemory, Rf.NewLcacheInstr, Xor64, C.Exec, Rf.Execute;
    FloatAgrees(fpu, vm, Rf.DecodeFloat(w), C.DecodeFloat(x));
  }

  lemma FloatMatches(fpu: Fpu, vm: Vm, x: C.Fields, w: Rf.Word, index: int, usage: seq<int>)
    requires vm.Valid() && SameWord(x, w) && 0x78 <= x.op < 0xd6 && |usage| == 8 && Commutative(fpu)
    ensures Matches(fpu, vm, Rf.Decoded(Rf.DecodeFloat(w), usage), C.Decoded(C.DecodeFloat(x), C.TouchNone), index, usage)
  {
    hide Agrees, Rf.NewInstr, Rf.NewLcacheInstr, C.DecodeFloatMemory, C.NewFloat, Commutative;
    TwoTouched(usage, 0, 0, index);
    var op := x.op;
    if 0x8c <= op < 0x91 {
      FloatMemoryAgrees(fpu, vm, Rf.FADD_M, C.FaddM, Rf.FReg(w.dst), x, w);
    } else if 0xa1 <= op < 0xa6 {
      FloatMemoryAgrees(fpu, vm, Rf.FSUB_M, C.FsubM, Rf.FReg(w.dst), x, w);
    } else if 0xcc <= op < 0xd0 {
      FloatMemoryAgrees(fpu, vm, Rf.FDIV_M, C.FdivM, Rf.EReg(w.dst), x, w);
    } else if 0x7c <= op < 0x8c || 0x91 <= op < 0xa1 || 0xac <= op < 0xcc {
      FloatRegisterAgrees(fpu, vm, x, w);
    } else {
      FloatUnaryAgrees(fpu, vm, x, w);
    }
  }

  // ---------- control instructions ----------

  lemma BranchAgrees(fpu: Fpu, vm: Vm, x: C.Fields, w: Rf.Word, index: int, usage: seq<int>)
    requires vm.Valid() && SameWord(x, w) && 0xd6 <= x.op < 0xef && |usage| == 8
    ensures Agrees(fpu, vm, Rf.DecodeControl(w, index, usage).instr, C.DecodeControl(x, usage).instr)
  {
    hide Rf.IntegerResult, C.Alu, Rf.ExecFloat, C.ExecFloat;
    hide BitAnd, BitOr, SignExtend32, WAdd, Not;
  }

  lemma RoundingAgrees(fpu: Fpu, vm: Vm, x: C.Fields, w: Rf.Word, index: int, usage: seq<int>)
    requires vm.Valid() && SameWord(x, w) && x.op == 0xef && |usage| == 8
    ensures Agrees(fpu, vm, Rf.DecodeControl(w, index, usage).instr, C.DecodeControl(x, usage).instr)
  {
    hide Rf.IntegerResult, C.Alu, Rf.ExecFloat, C.ExecFloat;
    hide BitAnd, RotateRight;
    var imm := C.Imm63(x.imm);
    SmallImm(imm);
    Mod4(RotateRight(vm.r[x.src % 8], imm));
  }

  lemma StoreAgrees(fpu: Fpu, vm: Vm, x: C.Fields, w: Rf.Word, index: int, usage: seq<int>)
    requires vm.Valid() && SameWord(x, w) && 0xf0 <= x.op && |usage| == 8
    ensures Agrees(fpu, vm, Rf.DecodeControl(w, index, usage).instr, C.DecodeControl(x, usage).instr)
  {
    hide Rf.IntegerResult, C.Alu, Rf.ExecFloat, C.ExecFloat;
    hide BitAnd, SignExtend32, WAdd;
    Mod4(x.modifier);
    var ci := C.DecodeControl(x, usage).instr;
    OffsetInBounds(WAdd(C.R(vm, ci.dst), ci.imm), ci.memoryMask);
  }

  lemma ControlMatches(fpu: Fpu, vm: Vm, x: C.Fields, w: Rf.Word, index: int, usage: seq<int>)
    requires vm.Valid() && SameWord(x, w) && 0xd6 <= x.op && |usage| == 8
    ensures Matches(fpu, vm, Rf.DecodeControl(w, index, usage), C.DecodeControl(x, usage), index, usage)
  {
    hide Agrees, C.New, C.NewMemory, Rf.LCache, BitAnd, SignExtend32, C.Increment;
    TwoTouched(usage, 0, 0, index);
    if x.op < 0xef {
      BranchAgrees(fpu, vm, x, w, index, usage);
    } else if x.op < 0xf0 {
      RoundingAgrees(fpu, vm, x, w, index, usage);
    } else {
      StoreAgrees(fpu, vm, x, w, index, usage);
    }
  }

  /**
   * For every instruction word, usage table and machine state, the compact pair of decoder and
   * effect does what the reference pair does, and the reference does not panic.
   */
  lemma WordRefines(fpu: Fpu, vm: Vm, raw: u64, index: int, usage: seq<int>)
    requires vm.Valid() && |usage| == 8 && Commutative(fpu)
    ensures Matches(fpu, vm, Rf.DecodeInstruction(raw, index, usage), C.DecodeInstruction(raw, usage), index, usage)
  {
    hide Matches, Commutative, C.FieldsOf, Rf.WordOf, Rf.DecodeArithmetic, C.DecodeArithmetic, Rf.DecodeBitwise;
    hide C.DecodeBitwise, Rf.DecodeFloat, C.DecodeFloat, Rf.DecodeControl, C.DecodeControl;
    FieldsAgree(raw);
    var x, w := C.FieldsOf(raw), Rf.WordOf(raw);
    if x.op < 0x4c {
      ArithmeticMatches(fpu, vm, x, w, index, usage);
    } else if x.op < 0x78 {
      BitwiseMatches(fpu, vm, x, w, index, usage);
    } else if x.op < 0xd6 {
      FloatMatches(fpu, vm, x, w, index, usage);
    } else {
      ControlMatches(fpu, vm, x, w, index, usage);
    }
  }
}
