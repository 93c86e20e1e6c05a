/**
 * What `ScProgram::generate` computes, as a function of the byte stream: one round of the slot
 * loop, one decode buffer, one whole generation.
 */
module ScMachine {
  import opened Words
  import opened Wrappers
  import opened Reciprocals
  import opened Superscalar
  import opened ByteStream
  import opened PortMap
  import opened ScHistory

  // ---------- operand selection ----------

  /** The ready registers among the first `n`, in ascending order. */
  function Sources(regs: seq<RegisterInfo>, cycle: nat, n: nat): (s: seq<nat>)
    requires n <= |regs|
    ensures forall k :: 0 <= k < |s| ==> s[k] < n
    ensures forall i, j :: 0 <= i < j < |s| ==> s[i] < s[j]
    ensures forall r :: 0 <= r < n ==> (r in s <==> regs[r].latency <= cycle)
  {
    if n == 0 then []
    else Sources(regs, cycle, n - 1) + if regs[n - 1].latency <= cycle then [n - 1] else []
  }

  /** A register may be overwritten when it is ready and no rule of the generator forbids it. */
  predicate Eligible(instr: ScInstr, i: nat, v: RegisterInfo, cycle: nat, allowChainMul: bool)
  {
    && v.latency <= cycle
    && (instr.canReuse || i != instr.src)
    && (allowChainMul || instr.opGroup != IMUL_R || v.lastOpGroup != IMUL_R)
    && !Repeats(instr, v)
    && (instr.op != IADD_RS || i != 5)
  }

  function Destinations(instr: ScInstr, regs: seq<RegisterInfo>, cycle: nat, chain: bool, n: nat): (s: seq<nat>)
    requires n <= |regs|
    ensures forall k :: 0 <= k < |s| ==> s[k] < n
    ensures forall i, j :: 0 <= i < j < |s| ==> s[i] < s[j]
    ensures forall r :: 0 <= r < n ==> (r in s <==> Eligible(instr, r, regs[r], cycle, chain))
  {
    if n == 0 then []
    else Destinations(instr, regs, cycle, chain, n - 1)
         + if Eligible(instr, n - 1, regs[n - 1], cycle, chain) then [n - 1] else []
  }

  /** The choice that the byte stream makes; a single candidate draws nothing. */
  function Picked(s: seq<nat>, blocks: nat -> Block, at: Cursor): (r: nat)
    requires s != []
    ensures r in s
  {
    s[if |s| > 1 then U32At(blocks, at) % |s| else 0]
  }

  /** Two ready registers of which r5 is one: an IADD_RS leaves the other for its destination. */
  predicate ReservesOther(op: Op, s: seq<nat>)
  {
    |s| == 2 && op == IADD_RS && (s[0] == 5 || s[1] == 5)
  }

  function SourceChoice(blocks: nat -> Block, regs: seq<RegisterInfo>, i: ScInstr, cycle: nat, at: Cursor)
    : Option<(ScInstr, Cursor)>
    requires |regs| == 8
  {
    var s := Sources(regs, cycle, 8);
    if ReservesOther(i.op, s) then Some((i.(src := 5, opGroupPar := 5), at))
    else if s == [] then None
    else
      var c := Picked(s, blocks, at);
      Some((i.(src := c, opGroupPar := if i.groupParIsSource then c else i.opGroupPar),
            if |s| > 1 then AfterU32(at) else at))
  }

  function DestinationChoice(
      blocks: nat -> Block, regs: seq<RegisterInfo>, i: ScInstr, cycle: nat, chain: bool, at: Cursor)
    : Option<(ScInstr, Cursor)>
    requires |regs| == 8
  {
    var s := Destinations(i, regs, cycle, chain, 8);
    if s == [] then None
    else Some((i.(dst := Picked(s, blocks, at)), if |s| > 1 then AfterU32(at) else at))
  }

  /** The outcome of a look-ahead: the instruction, the cycle reached and the place in the stream. */
  datatype Look = Look(ok: bool, instr: ScInstr, cycle: nat, at: Cursor)

  function SourceLook(
      blocks: nat -> Block, regs: seq<RegisterInfo>, i: ScInstr, cycle: nat, at: Cursor, left: nat): (l: Look)
    requires |regs| == 8
    ensures cycle <= l.cycle
    decreases left
  {
    if left == 0 then Look(false, i, cycle, at)
    else
      match SourceChoice(blocks, regs, i, cycle, at)
      case Some(c) => Look(true, c.0, cycle, c.1)
      case None => SourceLook(blocks, regs, i, cycle + 1, at, left - 1)
  }

  function DestinationLook(
      blocks: nat -> Block, regs: seq<RegisterInfo>, i: ScInstr, cycle: nat, chain: bool, at: Cursor, left: nat)
    : (l: Look)
    requires |regs| == 8
    ensures cycle <= l.cycle
    decreases left
  {
    if left == 0 then Look(false, i, cycle, at)
    else
      match DestinationChoice(blocks, regs, i, cycle, chain, at)
      case Some(c) => Look(true, c.0, cycle, c.1)
      case None => DestinationLook(blocks, regs, i, cycle + 1, chain, at, left - 1)
  }

  function OperandLook(
      blocks: nat -> Block, regs: seq<RegisterInfo>, i: ScInstr, index: nat, start: nat, chain: bool, at: Cursor)
    : (l: Look)
    requires |regs| == 8
    ensures start <= l.cycle
  {
    var info := InfoOf(i.op);
    var l := if index == info.srcOp then SourceLook(blocks, regs, i, start, at, LOOK_FORWARD_CYCLES)
             else Look(true, i, start, at);
    if !l.ok || index != info.dstOp then l
    else DestinationLook(blocks, regs, l.instr, l.cycle, chain, l.at, LOOK_FORWARD_CYCLES)
  }

  // ---------- creation ----------

  function Blank(op: Op, group: Op, par: int, reuse: bool, parIsSource: bool): ScInstr
  {
    ScInstr(op, -1, -1, 0, 0, 0, group, par, reuse, parIsSource)
  }

  /** What creation takes from the stream: modifier, immediate or group parameter, and where it leaves it. */
  ghost predicate Draws(i: ScInstr, blocks: nat -> Block, from: Cursor, to: Cursor)
  {
    && (if i.op == IADD_RS then i.modV == ByteAt(blocks, from) && to == AfterByte(from) else i.modV == 0)
    && match i.op
       case IROR_C => DrawsRotation(blocks, from, i.imm32, to)
       case IMUL_RCP => DrawsDivisor(blocks, from, i.imm32, to) && i.opGroupPar == -1
       case IADD_C7 | IADD_C8 | IADD_C9 | IXOR_C7 | IXOR_C8 | IXOR_C9 =>
         i.imm32 == U32At(blocks, from) && to == AfterU32(from) && i.opGroupPar == -1
       case IMULH_R | ISMULH_R =>
         i.opGroupPar % TWO32 == U32At(blocks, from) && -0x8000_0000 <= i.opGroupPar < 0x8000_0000
         && to == AfterU32(from) && i.imm32 == 0
       case IADD_RS => i.imm32 == 0
       case _ => i.imm32 == 0 && to == from
  }

  predicate IsSlot(size: nat) { size == 3 || size == 4 || size == 7 || size == 8 || size == 9 || size == 10 }

  /** The first macro-op fits the slot; multi-macro-op instructions only start in a last slot. */
  predicate FitsSlot(op: Op, size: nat, isLast: bool)
  {
    && |InfoOf(op).macroOps| > 0 && InfoOf(op).macroOps[0].size <= size
    && (IsHighMultiply(op) ==> size == 3 && isLast)
    && (op == IMUL_RCP ==> size == 10)
  }

  lemma BufferSlots(b: DecoderBuffer)
    requires IsBuffer(b)
    ensures forall k :: 0 <= k < |b.counts| ==> IsSlot(b.counts[k])
  {
  }

  /** The two slots whose operation is not drawn. */
  predicate FixedOp(size: nat, fetchType: nat, isLast: bool)
  {
    size == 10 || (size == 4 && fetchType == 4 && !isLast)
  }

  /** The operation made for a slot; all but two choices are drawn from the next byte. */
  function OpFor(size: nat, fetchType: nat, isLast: bool, b: u8): Op
    requires IsSlot(size)
  {
    if size == 10 then IMUL_RCP
    else if size == 4 && fetchType == 4 && !isLast then IMUL_R
    else if size == 3 && isLast then [ISUB_R, IXOR_R, IMULH_R, ISMULH_R][b % 4]
    else if size == 3 then [ISUB_R, IXOR_R][b % 2]
    else if size == 4 then [IROR_C, IADD_RS][b % 2]
    else if size == 7 then [IXOR_C7, IADD_C7][b % 2]
    else if size == 8 then [IXOR_C8, IADD_C8][b % 2]
    else [IXOR_C9, IADD_C9][b % 2]
  }

  lemma OpFits(size: nat, fetchType: nat, isLast: bool, b: u8)
    requires IsSlot(size)
    ensures var op := OpFor(size, fetchType, isLast, b);
      op != INVALID && InfoOf(op).macroOps != [] && FitsSlot(op, size, isLast)
  {
    if size != 3 && size != 4 && size != 10 {
      assert OpFor(size, fetchType, isLast, b) in [IXOR_C7, IADD_C7, IXOR_C8, IADD_C8, IXOR_C9, IADD_C9];
    }
  }

  /** The instruction that an operation becomes, with what it takes from the stream. */
  ghost function CreatedBy(blocks: nat -> Block, op: Op, at: Cursor): (ScInstr, Cursor)
    requires op != INVALID && Patient(blocks)
  {
    assert RotationComes(blocks, at) && DivisorComes(blocks, at);
    match op
    case ISUB_R => (Blank(op, IADD_RS, 0, false, true), at)
    case IXOR_R | IMUL_R => (Blank(op, op, 0, false, true), at)
    case IADD_RS => (Blank(op, op, 0, false, true).(modV := ByteAt(blocks, at)), AfterByte(at))
    case IROR_C =>
      var d := Rotation(blocks, at);
      (Blank(op, op, 0, false, true).(imm32 := d.0), d.1)
    case IADD_C7 | IADD_C8 | IADD_C9 =>
      (Blank(op, IADD_C7, -1, false, false).(imm32 := U32At(blocks, at)), AfterU32(at))
    case IXOR_C7 | IXOR_C8 | IXOR_C9 =>
      (Blank(op, IXOR_C7, -1, false, false).(imm32 := U32At(blocks, at)), AfterU32(at))
    case IMULH_R | ISMULH_R =>
      var w := U32At(blocks, at);
      (Blank(op, op, if w < 0x8000_0000 then w else w - TWO32, true, false), AfterU32(at))
    case IMUL_RCP =>
      var d := Divisor(blocks, at);
      ZeroOrPowerOfTwo(d.0);
      (Blank(op, op, -1, false, true).(imm32 := d.0, reciprocal := Reciprocal(d.0)), d.1)
  }

  /** Creation fixes the operand-independent part, and what it draws is what the stream holds. */
  lemma CreatedFacts(blocks: nat -> Block, op: Op, at: Cursor)
    requires op != INVALID && Patient(blocks)
    ensures var (i, to) := CreatedBy(blocks, op, at);
      Created(i) && i.op == op && i.dst == -1 && i.src == -1 && Draws(i, blocks, at, to)
  {
    hide IsZeroOrPowerOfTwo, Reciprocal, ByteAt, U32At, DrawsRotation, DrawsDivisor;
    assert RotationComes(blocks, at) && DivisorComes(blocks, at);
    if op == IMUL_RCP {
      ZeroOrPowerOfTwo(Divisor(blocks, at).0);
    }
  }

  ghost function CreatedForSlot(blocks: nat -> Block, size: nat, fetchType: nat, isLast: bool, at: Cursor)
    : (ScInstr, Cursor)
    requires IsSlot(size) && Patient(blocks)
  {
    OpFits(size, fetchType, isLast, ByteAt(blocks, at));
    CreatedBy(blocks, OpFor(size, fetchType, isLast, ByteAt(blocks, at)),
              if FixedOp(size, fetchType, isLast) then at else AfterByte(at))
  }

  function NextBuffer(op: Op, decodeCycle: nat, mulCount: nat, x: u8): DecoderBuffer
  {
    if IsHighMultiply(op) then BUFFER_3310
    else if mulCount < decodeCycle + 1 then BUFFER_4444
    else if op == IMUL_RCP then (if x % 2 == 1 then BUFFER_484 else BUFFER_493)
    else [BUFFER_484, BUFFER_7333, BUFFER_3733, BUFFER_493][x % 4]
  }

  // ---------- laws of the choices ----------

  /** Which bytes give which operation: two slots are fixed, the others offer two or four, by the low bits. */
  lemma SlotOperations(size: nat, fetchType: nat, isLast: bool, b: u8)
    requires IsSlot(size)
    ensures var op := OpFor(size, fetchType, isLast, b);
      && (op == IMUL_RCP <==> size == 10)
      && (op == IMUL_R <==> size == 4 && fetchType == 4 && !isLast)
      && (op == IMULH_R <==> size == 3 && isLast && b % 4 == 2)
      && (op == ISMULH_R <==> size == 3 && isLast && b % 4 == 3)
      && (op == ISUB_R <==> size == 3 && b % 2 == 0 && !(isLast && b % 4 == 2))
      && (op == IXOR_R <==> size == 3 && b % 2 == 1 && !(isLast && b % 4 == 3))
      && (op == IROR_C <==> size == 4 && !(fetchType == 4 && !isLast) && b % 2 == 0)
      && (op == IADD_RS <==> size == 4 && !(fetchType == 4 && !isLast) && b % 2 == 1)
      && (op == IXOR_C7 <==> size == 7 && b % 2 == 0) && (op == IADD_C7 <==> size == 7 && b % 2 == 1)
      && (op == IXOR_C8 <==> size == 8 && b % 2 == 0) && (op == IADD_C8 <==> size == 8 && b % 2 == 1)
      && (op == IXOR_C9 <==> size == 9 && b % 2 == 0) && (op == IADD_C9 <==> size == 9 && b % 2 == 1)
  {
  }

  /** Which buffer follows: high multiplies and a lack of multiplications decide first, then the low bits. */
  lemma BufferChoices(op: Op, decodeCycle: nat, mulCount: nat, x: u8)
    ensures var b := NextBuffer(op, decodeCycle, mulCount, x);
      var free := !IsHighMultiply(op) && mulCount > decodeCycle;
      && (b.counts == [3, 3, 10] <==> IsHighMultiply(op))
      && (b.counts == [4, 4, 4, 4] <==> !IsHighMultiply(op) && mulCount <= decodeCycle)
      && (b.counts == [4, 8, 4] <==> free && if op == IMUL_RCP then x % 2 == 1 else x % 4 == 0)
      && (b.counts == [4, 9, 3] <==> free && if op == IMUL_RCP then x % 2 == 0 else x % 4 == 3)
      && (b.counts == [7, 3, 3, 3] <==> free && op != IMUL_RCP && x % 4 == 1)
      && (b.counts == [3, 7, 3, 3] <==> free && op != IMUL_RCP && x % 4 == 2)
  {
  }

  // ---------- one round of the slot loop ----------

  datatype Outcome = Filled | Retry | Stop

  datatype State = State(
    prog: seq<ScInstr>, current: ScInstr, macroOpIndex: nat, cycle: nat, depCycle: nat, saturated: bool,
    mulCount: nat, decodeCycle: nat, throwAway: nat, buffer: DecoderBuffer, bufferIndex: nat, codeSize: nat,
    rows: seq<Row>, regs: seq<RegisterInfo>, at: Cursor)

  function Initial(at: Cursor): State
  {
    State([], NULL_INSTR, 0, 0, 0, false, 0, 0, 0, DecoderBuffer(0, []), 0, 0,
          seq(CYCLE_MAP_SIZE, _ => [NULL, NULL, NULL]), seq(8, _ => RegisterInfo(0, INVALID, -1)), at)
  }

  predicate Unfinished(s: State) { s.macroOpIndex < |InfoOf(s.current.op).macroOps| }

  predicate InRound(s: State)
  {
    && IsBuffer(s.buffer) && s.bufferIndex < |s.buffer.counts| && |s.regs| == 8 && s.throwAway <= MAX_THROWAWAY_COUNT
  }

  /** A new instruction unless one is unfinished; none when the ports are saturated or the program is full. */
  ghost function Begun(blocks: nat -> Block, s: State): (r: (bool, State))
    requires Patient(blocks) && InRound(s)
    ensures InRound(r.1) && (r.0 ==> Unfinished(r.1))
    ensures r.1 == s.(current := r.1.current, macroOpIndex := r.1.macroOpIndex, at := r.1.at)
  {
    if Unfinished(s) then (true, s)
    else if s.saturated || |s.prog| >= SUPERSCALAR_MAX_SIZE then (false, s)
    else
      var size, isLast := s.buffer.counts[s.bufferIndex], |s.buffer.counts| == s.bufferIndex + 1;
      BufferSlots(s.buffer);
      CreatedUnfinished(blocks, size, s.buffer.index, isLast, s.at);
      var (i, to) := CreatedForSlot(blocks, size, s.buffer.index, isLast, s.at);
      (true, s.(current := i, macroOpIndex := 0, at := to))
  }

  lemma CreatedUnfinished(blocks: nat -> Block, size: nat, fetchType: nat, isLast: bool, at: Cursor)
    requires IsSlot(size) && Patient(blocks)
    ensures |InfoOf(CreatedForSlot(blocks, size, fetchType, isLast, at).0.op).macroOps| > 0
  {
    OpFits(size, fetchType, isLast, ByteAt(blocks, at));
    var op := OpFor(size, fetchType, isLast, ByteAt(blocks, at));
    CreatedOp(blocks, op, if FixedOp(size, fetchType, isLast) then at else AfterByte(at));
  }

  lemma CreatedOp(blocks: nat -> Block, op: Op, at: Cursor)
    requires op != INVALID && Patient(blocks)
    ensures CreatedBy(blocks, op, at).0.op == op
  {
    hide Patient;
  }

  function Discarded(s: State): (Outcome, State)
  {
    if s.throwAway < MAX_THROWAWAY_COUNT
    then (Retry, s.(throwAway := s.throwAway + 1, macroOpIndex := |InfoOf(s.current.op).macroOps|))
    else (Stop, s.(current := NULL_INSTR))
  }

  lemma DiscardedIs(s: State, t: State, o: Outcome)
    requires t == s.(throwAway := t.throwAway, macroOpIndex := t.macroOpIndex, current := t.current)
    requires if s.throwAway < MAX_THROWAWAY_COUNT
             then o == Retry && t.throwAway == s.throwAway + 1 && t.current == s.current
                  && t.macroOpIndex == |InfoOf(s.current.op).macroOps|
             else o == Stop && t.throwAway == s.throwAway && t.current == NULL_INSTR && t.macroOpIndex == s.macroOpIndex
    ensures (o, t) == Discarded(s)
  {
    hide InfoOf;
  }

  /** The next macro-op booked in cycle `c` is recorded; `top` is the cycle counter before any look-ahead. */
  function Noted(s: State, top: nat, c: nat): State
    requires Unfinished(s)
  {
    var info := InfoOf(s.current.op);
    var m := info.macroOps[s.macroOpIndex];
    var done := s.macroOpIndex + 1 >= |info.macroOps|;
    var ready := RegisterInfo(c + m.latency, s.current.opGroup, s.current.opGroupPar);
    s.(depCycle := c + m.latency,
       regs := if s.macroOpIndex == info.resultOp && 0 <= s.current.dst < |s.regs|
               then s.regs[s.current.dst := ready] else s.regs,
       codeSize := s.codeSize + m.size,
       bufferIndex := s.bufferIndex + 1,
       macroOpIndex := s.macroOpIndex + 1,
       saturated := s.saturated || c >= SUPERSCALAR_LATENCY,
       cycle := top,
       prog := if done then s.prog + [s.current] else s.prog,
       mulCount := s.mulCount + if done && IsMultiplication(s.current.op) then 1 else 0)
  }

  /** Field by field, what recording a booked macro-op changes. */
  lemma NotedIs(s: State, t: State, top: nat, c: nat)
    requires Unfinished(s) && |s.regs| == 8
    requires t == s.(depCycle := t.depCycle, regs := t.regs, codeSize := t.codeSize, bufferIndex := t.bufferIndex,
                     macroOpIndex := t.macroOpIndex, saturated := t.saturated, cycle := top, prog := t.prog,
                     mulCount := t.mulCount)
    requires var info := InfoOf(s.current.op);
      var m := info.macroOps[s.macroOpIndex];
      var done := s.macroOpIndex + 1 >= |info.macroOps|;
      && t.depCycle == c + m.latency && t.codeSize == s.codeSize + m.size && t.bufferIndex == s.bufferIndex + 1
      && t.macroOpIndex == s.macroOpIndex + 1 && t.saturated == (s.saturated || c >= SUPERSCALAR_LATENCY)
      && t.prog == (if done then s.prog + [s.current] else s.prog)
      && t.mulCount == s.mulCount + (if done && IsMultiplication(s.current.op) then 1 else 0)
      && t.regs == if s.macroOpIndex == info.resultOp && 0 <= s.current.dst < 8
                   then s.regs[s.current.dst := RegisterInfo(t.depCycle, s.current.opGroup, s.current.opGroupPar)]
                   else s.regs
    ensures t == Noted(s, top, c)
  {
    hide InfoOf;
  }

  function Committed(s: State, top: nat, c: nat): State
    requires Unfinished(s)
  {
    var m := InfoOf(s.current.op).macroOps[s.macroOpIndex];
    Noted(s.(throwAway := 0, rows := Book(s.rows, c, m)), top, c)
  }

  /** The commitment of a macro-op whose operands are ready in cycle `ready`. */
  ghost function CommitFrom(s: State, top: nat, ready: nat): (Outcome, State)
    requires Unfinished(s)
  {
    match Earliest(s.rows, ready, InfoOf(s.current.op).macroOps[s.macroOpIndex])
    case None => (Stop, s.(throwAway := 0, saturated := true))
    case Some(c) => (Filled, Committed(s, top, c))
  }

  lemma CommitFromIs(s: State, t: State, top: nat, ready: nat, c: Option<nat>)
    requires Unfinished(s) && c == Earliest(s.rows, ready, InfoOf(s.current.op).macroOps[s.macroOpIndex])
    requires var m := InfoOf(s.current.op).macroOps[s.macroOpIndex];
      if c.None? then t == s.(throwAway := 0, saturated := true)
      else t == Noted(s.(throwAway := 0, rows := Book(s.rows, c.value, m)), top, c.value)
    ensures (if c.None? then Stop else Filled, t) == CommitFrom(s, top, ready)
  {
    hide InfoOf, Noted, Book, Earliest;
  }

  /** The operands looked up from cycle `start` on; every cycle looked ahead moves `cycle` on. */
  function Looked(s: State, l: Look, start: nat): State
    requires start <= l.cycle
  {
    s.(current := l.instr, cycle := s.cycle + (l.cycle - start), at := l.at)
  }

  lemma LookedIs(s: State, t: State, l: Look, start: nat)
    requires start <= l.cycle && t == s.(current := l.instr, cycle := s.cycle + (l.cycle - start), at := l.at)
    ensures t == Looked(s, l, start)
  {
  }

  /** What follows once an instruction stands in the slot. */
  ghost function Attempt(blocks: nat -> Block, s: State): (Outcome, State)
    requires InRound(s) && Unfinished(s)
  {
    var m := InfoOf(s.current.op).macroOps[s.macroOpIndex];
    match Earliest(s.rows, StartCycle(m, s.cycle, s.depCycle), m)
    case None => (Stop, s.(saturated := true))
    case Some(start) =>
      var l := OperandLook(blocks, s.regs, s.current, s.macroOpIndex, start, s.throwAway > 0, s.at);
      LookKeepsOp(blocks, s.regs, s.current, s.macroOpIndex, start, s.throwAway > 0, s.at);
      if l.ok then CommitFrom(Looked(s, l, start), s.cycle, l.cycle) else Discarded(Looked(s, l, start))
  }

  lemma LookKeepsOp(
      blocks: nat -> Block, regs: seq<RegisterInfo>, i: ScInstr, index: nat, start: nat, chain: bool, at: Cursor)
    requires |regs| == 8
    ensures OperandLook(blocks, regs, i, index, start, chain, at).instr.op == i.op
  {
    hide InfoOf;
    var l := SourceLook(blocks, regs, i, start, at, LOOK_FORWARD_CYCLES);
    SourceKeepsOp(blocks, regs, i, start, at, LOOK_FORWARD_CYCLES);
    DestinationKeepsOp(blocks, regs, l.instr, l.cycle, chain, l.at, LOOK_FORWARD_CYCLES);
    DestinationKeepsOp(blocks, regs, i, start, chain, at, LOOK_FORWARD_CYCLES);
  }

  lemma {:induction false} SourceKeepsOp(
      blocks: nat -> Block, regs: seq<RegisterInfo>, i: ScInstr, cycle: nat, at: Cursor, left: nat)
    requires |regs| == 8
    ensures SourceLook(blocks, regs, i, cycle, at, left).instr.op == i.op
    decreases left
  {
    hide Sources, Picked;
    if left > 0 {
      SourceKeepsOp(blocks, regs, i, cycle + 1, at, left - 1);
    }
  }

  lemma {:induction false} DestinationKeepsOp(
      blocks: nat -> Block, regs: seq<RegisterInfo>, i: ScInstr, cycle: nat, chain: bool, at: Cursor, left: nat)
    requires |regs| == 8
    ensures DestinationLook(blocks, regs, i, cycle, chain, at, left).instr.op == i.op
    decreases left
  {
    hide Destinations, Picked;
    if left > 0 {
      DestinationKeepsOp(blocks, regs, i, cycle + 1, chain, at, left - 1);
    }
  }

  ghost function Round(blocks: nat -> Block, s: State): (Outcome, State)
    requires Patient(blocks) && InRound(s)
  {
    var (ok, t) := Begun(blocks, s);
    if ok then Attempt(blocks, t) else (Stop, s)
  }

  /** A round either fills a slot, or uses up a discard, or ends the buffer. */
  lemma RoundProgress(blocks: nat -> Block, s: State)
    requires Patient(blocks) && InRound(s)
    ensures var (o, t) := Round(blocks, s);
      && t.buffer == s.buffer && t.decodeCycle == s.decodeCycle && |t.regs| == 8 && t.throwAway <= MAX_THROWAWAY_COUNT
      && (o == Filled ==> t.bufferIndex == s.bufferIndex + 1)
      && (o == Retry ==> t.bufferIndex == s.bufferIndex && t.throwAway == s.throwAway + 1)
  {
    hide Patient, InfoOf, Earliest, OperandLook, Begun, Book;
  }

  // ---------- whole buffers and whole generations ----------

  predicate HoldsBuffer(s: State) { IsBuffer(s.buffer) && |s.regs| == 8 && s.throwAway <= MAX_THROWAWAY_COUNT }

  /** The slots of one buffer. */
  ghost function FilledFrom(blocks: nat -> Block, s: State): (t: State)
    requires Patient(blocks) && HoldsBuffer(s)
    ensures HoldsBuffer(t) && t.decodeCycle == s.decodeCycle
    decreases |s.buffer.counts| - s.bufferIndex, MAX_THROWAWAY_COUNT - s.throwAway
  {
    if s.bufferIndex >= |s.buffer.counts| then s
    else
      RoundProgress(blocks, s);
      var (o, t) := Round(blocks, s);
      if o == Stop then t else FilledFrom(blocks, t)
  }

  function Fetched(blocks: nat -> Block, s: State): (t: State)
    ensures IsBuffer(t.buffer)
  {
    var draws := !IsHighMultiply(s.current.op) && s.mulCount >= s.decodeCycle + 1;
    s.(buffer := NextBuffer(s.current.op, s.decodeCycle, s.mulCount, ByteAt(blocks, s.at)), bufferIndex := 0,
       at := if draws then AfterByte(s.at) else s.at)
  }

  lemma FetchedIs(blocks: nat -> Block, s: State, t: State)
    requires t == s.(buffer := t.buffer, bufferIndex := 0, at := t.at)
    requires t.buffer == NextBuffer(s.current.op, s.decodeCycle, s.mulCount, ByteAt(blocks, s.at))
    requires t.at == if IsHighMultiply(s.current.op) || s.mulCount < s.decodeCycle + 1 then s.at else AfterByte(s.at)
    ensures t == Fetched(blocks, s)
  {
    hide NextBuffer, ByteAt, AfterByte;
  }

  /** One decode cycle: fetch a buffer, fill its slots, move both counters on. */
  ghost function Decoded(blocks: nat -> Block, s: State): (t: State)
    requires Patient(blocks) && |s.regs| == 8 && s.throwAway <= MAX_THROWAWAY_COUNT
    ensures |t.regs| == 8 && t.throwAway <= MAX_THROWAWAY_COUNT && t.decodeCycle == s.decodeCycle + 1
  {
    var t := FilledFrom(blocks, Fetched(blocks, s));
    t.(cycle := t.cycle + 1, decodeCycle := t.decodeCycle + 1)
  }

  predicate GoesOn(s: State)
  {
    s.decodeCycle < SUPERSCALAR_LATENCY && !s.saturated && |s.prog| < SUPERSCALAR_MAX_SIZE
  }

  /** The state in which generation from `s` ends: the stream determines it. */
  ghost function Generated(blocks: nat -> Block, s: State): State
    requires Patient(blocks) && |s.regs| == 8 && s.throwAway <= MAX_THROWAWAY_COUNT
    decreases SUPERSCALAR_LATENCY - s.decodeCycle
  {
    if GoesOn(s) then Generated(blocks, Decoded(blocks, s)) else s
  }

  // ---------- where instructions come from ----------

  /** The event of a first macro-op is that of the operation drawn at its place of the stream for its slot. */
  ghost predicate DrawnAt(e: Event, blocks: nat -> Block, buffers: seq<DecoderBuffer>)
  {
    && e.decodeCycle < |buffers|
    && var b := buffers[e.decodeCycle];
    && e.slot < |b.counts|
    && (e.index == 0 ==> OpDrawn(e.op, b, e.slot, blocks, e.from))
  }

  ghost predicate OpDrawn(op: Op, b: DecoderBuffer, slot: nat, blocks: nat -> Block, from: Cursor)
    requires slot < |b.counts|
  {
    IsSlot(b.counts[slot]) && op == OpFor(b.counts[slot], b.index, |b.counts| == slot + 1, ByteAt(blocks, from))
  }

  /** The drawn fields of an instruction are those that the stream holds behind its operation byte, if it has one. */
  ghost predicate Origin(i: ScInstr, blocks: nat -> Block, from: Cursor)
  {
    && i.op != INVALID && Patient(blocks)
    && var c := CreatedBy(blocks, i.op, if i.op == IMUL_RCP || i.op == IMUL_R then from else AfterByte(from)).0;
    && i.modV == c.modV && i.imm32 == c.imm32 && i.reciprocal == c.reciprocal
  }

  /** Choosing registers leaves the drawn fields alone. */
  lemma OriginSame(i: ScInstr, j: ScInstr, blocks: nat -> Block, from: Cursor)
    requires j == i.(src := j.src, dst := j.dst, opGroupPar := j.opGroupPar)
    ensures Origin(i, blocks, from) ==> Origin(j, blocks, from)
  {
    hide CreatedBy, Patient;
  }

  /** Every started instruction was drawn for its slot, and every emitted one has the fields drawn with it. */
  ghost predicate Roots(h: seq<Event>, prog: seq<ScInstr>, blocks: nat -> Block, buffers: seq<DecoderBuffer>)
  {
    && (forall k :: 0 <= k < |h| ==> DrawnAt(h[k], blocks, buffers))
    && |prog| == |Retired(h)|
    && (forall k :: 0 <= k < |prog| ==> Origin(prog[k], blocks, h[Retired(h)[k]].from))
  }

  lemma RootsNext(
      h: seq<Event>, e: Event, prog: seq<ScInstr>, i: ScInstr, blocks: nat -> Block, buffers: seq<DecoderBuffer>)
    requires Roots(h, prog, blocks, buffers) && DrawnAt(e, blocks, buffers) && Origin(i, blocks, e.from)
    ensures Roots(h + [e], if Completes(e) then prog + [i] else prog, blocks, buffers)
  {
    hide Completes, Retired, DrawnAt, Origin;
    RetiredNext(h, e);
    var g := h + [e];
    assert forall k :: 0 <= k < |h| ==> g[k] == h[k];
  }

  lemma RootsFetched(
      h: seq<Event>, prog: seq<ScInstr>, blocks: nat -> Block, buffers: seq<DecoderBuffer>, b: DecoderBuffer)
    requires Roots(h, prog, blocks, buffers)
    ensures Roots(h, prog, blocks, buffers + [b])
  {
    hide Retired, Origin, OpDrawn;
    forall k | 0 <= k < |h|
      ensures DrawnAt(h[k], blocks, buffers + [b])
    {
      assert DrawnAt(h[k], blocks, buffers);
    }
  }

  lemma CreatedOrigin(blocks: nat -> Block, b: DecoderBuffer, slot: nat, at: Cursor)
    requires IsBuffer(b) && slot < |b.counts| && Patient(blocks) && IsSlot(b.counts[slot])
    ensures var (i, to) := CreatedForSlot(blocks, b.counts[slot], b.index, |b.counts| == slot + 1, at);
      OpDrawn(i.op, b, slot, blocks, at) && Origin(i, blocks, at)
  {
    hide Patient, CreatedBy, ByteAt, AfterByte;
    var size, isLast := b.counts[slot], |b.counts| == slot + 1;
    var op := OpFor(size, b.index, isLast, ByteAt(blocks, at));
    OpFits(size, b.index, isLast, ByteAt(blocks, at));
    CreatedOp(blocks, op, if FixedOp(size, b.index, isLast) then at else AfterByte(at));
    SlotOperations(size, b.index, isLast, ByteAt(blocks, at));
  }

  // ---------- when generation may stop ----------

  function Latencies(regs: seq<RegisterInfo>): (s: seq<nat>)
    ensures |s| == |regs| && forall r :: 0 <= r < |s| ==> s[r] == regs[r].latency
  {
    seq(|regs|, r requires 0 <= r < |regs| => regs[r].latency)
  }

  /** Some macro-op executes in or after the last cycle of the latency budget. */
  ghost predicate Late(h: seq<Event>) { exists k :: 0 <= k < |h| && h[k].cycle >= SUPERSCALAR_LATENCY }

  /**
   * Macro-op `index` of `op` fits in no cycle from `start` on, where it may start: the cycle `now`,
   * the result of the macro-op before it, or the ready cycle of a register.
   */
  ghost predicate StuckAt(h: seq<Event>, rows: seq<Row>, ready: seq<nat>, now: int, op: Op, index: nat, start: nat)
  {
    && index < |InfoOf(op).macroOps|
    && (forall c :: c >= start ==> !Fits(rows, c, InfoOf(op).macroOps[index]))
    && (start == now || (h != [] && start == h[|h| - 1].cycle + Mop(h[|h| - 1]).latency)
        || exists r :: 0 <= r < |ready| && ready[r] == start)
  }

  ghost predicate Saturates(h: seq<Event>, rows: seq<Row>, ready: seq<nat>, now: int)
  {
    Late(h) || exists op, index, start :: StuckAt(h, rows, ready, now, op, index, start)
  }

  lemma LateSaturates(h: seq<Event>, rows: seq<Row>, ready: seq<nat>, now: int)
    ensures Late(h) ==> Saturates(h, rows, ready, now)
  {
  }

  lemma EarliestHere(g: seq<Row>, start: nat, m: MacroOp)
    ensures Fits(g, start, m) ==> Earliest(g, start, m) == Some(start)
  {
  }

  lemma LateMore(h: seq<Event>, e: Event)
    requires Late(h) || e.cycle >= SUPERSCALAR_LATENCY
    ensures Late(h + [e])
  {
    var g := h + [e];
    if Late(h) {
      var k :| 0 <= k < |h| && h[k].cycle >= SUPERSCALAR_LATENCY;
      assert g[k] == h[k];
    } else {
      assert g[|h|] == e;
    }
  }

  lemma {:induction false} EarliestNone(g: seq<Row>, start: nat, m: MacroOp)
    requires Earliest(g, start, m) == None
    ensures forall c :: c >= start ==> !Fits(g, c, m)
    decreases |g| - start
  {
    if start >= |g| {
      Beyond(g, m);
    } else {
      EarliestNone(g, start + 1, m);
    }
  }
}
