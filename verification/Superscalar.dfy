/** The static tables of the SuperscalarHash generator (`randomx-core/src/superscalar.rs`). */
module Superscalar {
  import opened Words
  import opened Reciprocals

  const SUPERSCALAR_LATENCY: nat := 170
  const CYCLE_MAP_SIZE: nat := 174
  const SUPERSCALAR_MAX_SIZE: nat := 512
  const LOOK_FORWARD_CYCLES: nat := 4
  const MAX_THROWAWAY_COUNT: nat := 256

  datatype Op =
    | INVALID | ISUB_R | IXOR_R | IADD_RS | IMUL_R | IROR_C | IADD_C7 | IXOR_C7 | IADD_C8 | IXOR_C8
    | IADD_C9 | IXOR_C9 | IMULH_R | ISMULH_R | IMUL_RCP

  /** Execution port masks; units are numbered 0 (P0), 1 (P1) and 2 (P5). */
  datatype Port = NULL | P0 | P1 | P5 | P01 | P05 | P015

  predicate Runs(p: Port, unit: nat)
  {
    match p
    case NULL => false
    case P0 => unit == 0
    case P1 => unit == 1
    case P5 => unit == 2
    case P01 => unit == 0 || unit == 1
    case P05 => unit == 0 || unit == 2
    case P015 => unit <= 2
  }

  datatype MacroOp = MacroOp(size: nat, latency: nat, uop1: Port, uop2: Port, dependent: bool)

  const SUB_RR := MacroOp(3, 1, P015, NULL, false)
  const XOR_RR := MacroOp(3, 1, P015, NULL, false)
  const IMUL_WIDE := MacroOp(3, 4, P1, P5, false)
  const MUL_WIDE := MacroOp(3, 4, P1, P5, false)
  const MOV_RR := MacroOp(3, 1, NULL, NULL, false)
  const LEA_SIB := MacroOp(4, 1, P01, NULL, false)
  const IMUL_RR_DEP := MacroOp(4, 3, P1, NULL, true)
  const ROR_RI := MacroOp(4, 1, P05, NULL, false)
  const ADD_RI := MacroOp(7, 1, P015, NULL, false)
  const XOR_RI := MacroOp(7, 1, P015, NULL, false)
  const MOV_RI64 := MacroOp(10, 1, P015, NULL, false)
  const IMUL_RR := MacroOp(4, 3, P1, NULL, false)

  /** Two micro-ops of one macro-op never compete for the same unit. */
  predicate Schedulable(m: MacroOp)
  {
    m.uop2 == NULL || (m.uop1 == P1 && m.uop2 == P5)
  }

  datatype Info = Info(macroOps: seq<MacroOp>, resultOp: int, dstOp: int, srcOp: int)

  function InfoOf(op: Op): (i: Info)
    ensures forall k :: 0 <= k < |i.macroOps| ==> Schedulable(i.macroOps[k]) && i.macroOps[k].latency >= 1
    ensures op != INVALID ==> 0 <= i.resultOp < |i.macroOps| && (0 <= i.srcOp ==> i.srcOp == i.resultOp)
    ensures op != INVALID ==> (ReadsSource(op) <==> 0 <= i.srcOp)
  {
    match op
    case INVALID => Info([], 0, 0, 0)
    case ISUB_R => Info([SUB_RR], 0, 0, 0)
    case IXOR_R => Info([XOR_RR], 0, 0, 0)
    case IADD_RS => Info([LEA_SIB], 0, 0, 0)
    case IMUL_R => Info([IMUL_RR], 0, 0, 0)
    case IROR_C => Info([ROR_RI], 0, 0, -1)
    case IADD_C7 | IADD_C8 | IADD_C9 => Info([ADD_RI], 0, 0, -1)
    case IXOR_C7 | IXOR_C8 | IXOR_C9 => Info([XOR_RI], 0, 0, -1)
    case IMULH_R => Info([MOV_RR, MUL_WIDE, MOV_RR], 1, 0, 1)
    case ISMULH_R => Info([MOV_RR, IMUL_WIDE, MOV_RR], 1, 0, 1)
    case IMUL_RCP => Info([MOV_RI64, IMUL_RR_DEP], 1, 1, -1)
  }

  /** The latency of the macro-op that delivers the result; it is also the one that reads the source. */
  function ResultLatency(op: Op): nat
  {
    if op == INVALID then 0 else InfoOf(op).macroOps[InfoOf(op).resultOp].latency
  }

  /** The ports that can run the result macro-op's first micro-op. */
  function ResultPort(op: Op): (p: Port)
    ensures op != INVALID ==> p != NULL
  {
    if op == INVALID then NULL else InfoOf(op).macroOps[InfoOf(op).resultOp].uop1
  }

  predicate IsHighMultiply(op: Op) { op == IMULH_R || op == ISMULH_R }

  predicate IsMultiplication(op: Op) { op == IMUL_R || op == IMULH_R || op == ISMULH_R || op == IMUL_RCP }

  predicate ReadsSource(op: Op)
  {
    op == ISUB_R || op == IXOR_R || op == IADD_RS || op == IMUL_R || IsHighMultiply(op)
  }

  /** High multiplies take three macro-ops, reciprocal ones two and all others one. */
  lemma InfoKinds(op: Op)
    requires op != INVALID
    ensures var i := InfoOf(op);
      if IsHighMultiply(op) then
        |i.macroOps| == 3 && i.resultOp == 1 && i.dstOp == 0 && i.srcOp == 1 && ResultLatency(op) == 4
      else if op == IMUL_RCP then
        |i.macroOps| == 2 && i.resultOp == 1 && i.dstOp == 1 && i.srcOp == -1 && ResultLatency(op) == 3
      else
        |i.macroOps| == 1 && i.resultOp == 0 && i.dstOp == 0 && ResultLatency(op) >= 1
        && i.srcOp == if ReadsSource(op) then 0 else -1
  {
  }

  lemma FirstIndependent(op: Op)
    ensures InfoOf(op).macroOps != [] ==> !InfoOf(op).macroOps[0].dependent
  {
  }

  lemma NothingBehind(op: Op)
    ensures InfoOf(op).resultOp >= 0
  {
  }

  lemma NoMacroOps()
    ensures InfoOf(INVALID).macroOps == []
  {
  }

  /** A macro-op after the result is an eliminated move. */
  lemma AfterResult(op: Op, index: nat)
    requires InfoOf(op).resultOp < index < |InfoOf(op).macroOps|
    ensures InfoOf(op).macroOps[index].uop1 == NULL
  {
  }

  /** A high multiply starts with an eliminated move. */
  lemma FirstMove(op: Op)
    ensures IsHighMultiply(op) ==> |InfoOf(op).macroOps| == 3 && InfoOf(op).macroOps[0] == MOV_RR
  {
  }

  datatype ScInstr = ScInstr(
    op: Op, dst: int, src: int, modV: u8, imm32: u32, reciprocal: u64,
    opGroup: Op, opGroupPar: int, canReuse: bool, groupParIsSource: bool)

  const NULL_INSTR := ScInstr(INVALID, -1, -1, 0, 0, 0, INVALID, -1, false, false)

  /** Operations that count as the same when a destination is chosen. */
  function GroupOf(op: Op): Op
  {
    match op
    case ISUB_R | IADD_RS => IADD_RS
    case IADD_C7 | IADD_C8 | IADD_C9 => IADD_C7
    case IXOR_C7 | IXOR_C8 | IXOR_C9 => IXOR_C7
    case _ => op
  }

  /** What creation fixes for good: the operand-independent part of an instruction. */
  predicate Created(i: ScInstr)
  {
    && i.op != INVALID
    && i.opGroup == GroupOf(i.op)
    && (i.canReuse <==> IsHighMultiply(i.op))
    && (i.groupParIsSource <==> GroupOf(i.op) != IADD_C7 && GroupOf(i.op) != IXOR_C7 && !i.canReuse)
    && (i.op == IROR_C ==> 1 <= i.imm32 < 64)
    && (i.op == IMUL_RCP ==> !IsZeroOrPowerOfTwo(i.imm32) && i.imm32 != 0 && i.reciprocal == Reciprocal(i.imm32))
  }

  /** An emitted instruction: registers in range, and the operand rules of the generator. */
  predicate WellFormed(i: ScInstr)
  {
    && Created(i)
    && 0 <= i.dst < 8
    && (if ReadsSource(i.op) then 0 <= i.src < 8 else i.src == -1)
    && (i.src == i.dst ==> IsHighMultiply(i.op))
    && (i.op == IADD_RS ==> i.dst != 5)
  }

  // ---------- decode buffers ----------

  datatype DecoderBuffer = DecoderBuffer(index: nat, counts: seq<nat>)

  const BUFFER_484 := DecoderBuffer(0, [4, 8, 4])
  const BUFFER_7333 := DecoderBuffer(1, [7, 3, 3, 3])
  const BUFFER_3733 := DecoderBuffer(2, [3, 7, 3, 3])
  const BUFFER_493 := DecoderBuffer(3, [4, 9, 3])
  const BUFFER_4444 := DecoderBuffer(4, [4, 4, 4, 4])
  const BUFFER_3310 := DecoderBuffer(5, [3, 3, 10])

  predicate IsBuffer(b: DecoderBuffer)
  {
    b == BUFFER_484 || b == BUFFER_7333 || b == BUFFER_3733 || b == BUFFER_493 || b == BUFFER_4444 || b == BUFFER_3310
  }

  /** The bytes of the first `n` slots; every buffer holds 16 bytes. */
  function SlotBytes(counts: seq<nat>, n: nat): nat
    requires n <= |counts|
  {
    if n == 0 then 0 else SlotBytes(counts, n - 1) + counts[n - 1]
  }

  lemma BufferHolds16(b: DecoderBuffer, n: nat)
    requires IsBuffer(b) && n <= |b.counts|
    ensures 3 <= |b.counts| <= 4 && SlotBytes(b.counts, |b.counts|) == 16 && SlotBytes(b.counts, n) <= 16
  {
    var c := b.counts;
    assert SlotBytes(c, 0) == 0;
    assert SlotBytes(c, 1) == c[0];
    assert SlotBytes(c, 2) == c[0] + c[1];
    assert SlotBytes(c, 3) == c[0] + c[1] + c[2];
    if |c| == 4 {
      assert SlotBytes(c, 4) == c[0] + c[1] + c[2] + c[3];
    }
  }
}
