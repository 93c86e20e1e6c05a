/**
 * `ScProgram::generate` (`randomx-core/src/superscalar.rs`): decode buffers are filled with
 * instructions whose macro-ops are scheduled on the port map, registers are chosen by readiness,
 * and instructions that find no operand are discarded and retried.
 */
module ScGenerator {
  import opened Words
  import opened Wrappers
  import opened Reciprocals
  import opened Superscalar
  import opened ByteStream
  import opened PortMap
  import opened ScHistory
  import opened ScMachine

  // ---------- operand selection ----------

  method SelectRegister(available: seq<nat>, gen: Generator) returns (choice: nat)
    requires available != []
    modifies gen
    ensures choice == Picked(available, gen.blocks, old(gen.at))
    ensures gen.at == if |available| > 1 then AfterU32(old(gen.at)) else old(gen.at)
  {
    var index := 0;
    if |available| > 1 {
      var w := gen.GetU32();
      index := w % |available|;
    }
    choice := available[index];
  }

  method ReadySources(cycle: nat, registers: array<RegisterInfo>) returns (available: seq<nat>)
    requires registers.Length == 8
    ensures available == Sources(registers[..], cycle, 8)
  {
    available := [];
    for i := 0 to 8
      invariant available == Sources(registers[..], cycle, i)
    {
      if registers[i].latency <= cycle {
        available := available + [i];
      }
    }
  }

  method OpenDestinations(instr: ScInstr, cycle: nat, chain: bool, registers: array<RegisterInfo>)
    returns (available: seq<nat>)
    requires registers.Length == 8
    ensures available == Destinations(instr, registers[..], cycle, chain, 8)
  {
    hide Eligible;
    available := [];
    for i := 0 to 8
      invariant available == Destinations(instr, registers[..], cycle, chain, i)
    {
      if Eligible(instr, i, registers[i], cycle, chain) {
        available := available + [i];
      }
    }
  }

  /** A register may be read once its latest result is ready. */
  method SelectSource(instr: ScInstr, cycle: nat, registers: array<RegisterInfo>, gen: Generator)
    returns (ok: bool, chosen: ScInstr)
    requires registers.Length == 8
    modifies gen
    ensures ok <==> exists i :: 0 <= i < 8 && registers[i].latency <= cycle
    ensures ok ==> 0 <= chosen.src < 8 && registers[chosen.src].latency <= cycle
    ensures var s := Sources(registers[..], cycle, 8);
      ok ==> s != [] && chosen.src == if ReservesOther(instr.op, s) then 5 else Picked(s, gen.blocks, old(gen.at))
    ensures chosen == instr.(src := chosen.src, opGroupPar := chosen.opGroupPar)
    ensures ok && (instr.groupParIsSource || instr.op != IADD_RS) ==>
              chosen.opGroupPar == if instr.groupParIsSource then chosen.src else instr.opGroupPar
    ensures !ok ==> chosen == instr && gen.at == old(gen.at)
    ensures SourceChoice(gen.blocks, registers[..], instr, cycle, old(gen.at))
            == if ok then Some((chosen, gen.at)) else None
  {
    hide U32At, AfterU32, Sources;
    var available := ReadySources(cycle, registers);
    assert forall k :: 0 <= k < 8 ==> (k in available <==> registers[k].latency <= cycle);
    chosen := instr;
    if ReservesOther(instr.op, available) {
      assert 5 in available;
      chosen := instr.(src := 5, opGroupPar := 5);
      return true, chosen;
    }
    if available == [] {
      return false, chosen;
    }
    assert available[0] in available;
    var choice := SelectRegister(available, gen);
    chosen := instr.(src := choice, opGroupPar := if instr.groupParIsSource then choice else instr.opGroupPar);
    ok := true;
  }

  method SelectDestination(
      instr: ScInstr, cycle: nat, allowChainMul: bool, registers: array<RegisterInfo>, gen: Generator)
    returns (ok: bool, chosen: ScInstr)
    requires registers.Length == 8
    modifies gen
    ensures ok <==> exists i :: 0 <= i < 8 && Eligible(instr, i, registers[i], cycle, allowChainMul)
    ensures ok ==> 0 <= chosen.dst < 8 && Eligible(instr, chosen.dst, registers[chosen.dst], cycle, allowChainMul)
    ensures var s := Destinations(instr, registers[..], cycle, allowChainMul, 8);
      ok ==> s != [] && chosen.dst == Picked(s, gen.blocks, old(gen.at))
    ensures chosen == instr.(dst := chosen.dst)
    ensures !ok ==> chosen == instr && gen.at == old(gen.at)
    ensures DestinationChoice(gen.blocks, registers[..], instr, cycle, allowChainMul, old(gen.at))
            == if ok then Some((chosen, gen.at)) else None
  {
    hide Eligible, U32At, AfterU32, Destinations;
    var available := OpenDestinations(instr, cycle, allowChainMul, registers);
    assert forall k :: 0 <= k < 8 ==> (k in available <==> Eligible(instr, k, registers[k], cycle, allowChainMul));
    chosen := instr;
    if available == [] {
      return false, chosen;
    }
    assert available[0] in available;
    var choice := SelectRegister(available, gen);
    chosen := instr.(dst := choice);
    ok := true;
  }

  // ---------- creation ----------

  method Create(op: Op, gen: Generator) returns (instr: ScInstr)
    requires op != INVALID && Patient(gen.blocks)
    modifies gen
    ensures Created(instr) && instr.op == op && instr.dst == -1 && instr.src == -1
    ensures Draws(instr, gen.blocks, old(gen.at), gen.at)
    ensures (instr, gen.at) == CreatedBy(gen.blocks, op, old(gen.at))
  {
    hide Patient, Created, Draws;
    match op {
      case ISUB_R => instr := Blank(op, IADD_RS, 0, false, true);
      case IXOR_R => instr := Blank(op, IXOR_R, 0, false, true);
      case IADD_RS =>
        var b := gen.GetByte();
        instr := Blank(op, IADD_RS, 0, false, true).(modV := b);
      case IMUL_R => instr := Blank(op, IMUL_R, 0, false, true);
      case IROR_C =>
        var r := gen.DrawRotation();
        instr := Blank(op, IROR_C, 0, false, true).(imm32 := r);
      case IADD_C7 | IADD_C8 | IADD_C9 =>
        var w := gen.GetU32();
        instr := Blank(op, IADD_C7, -1, false, false).(imm32 := w);
      case IXOR_C7 | IXOR_C8 | IXOR_C9 =>
        var w := gen.GetU32();
        instr := Blank(op, IXOR_C7, -1, false, false).(imm32 := w);
      case IMULH_R | ISMULH_R =>
        var w := gen.GetU32();
        instr := Blank(op, op, if w < 0x8000_0000 then w else w - TWO32, true, false);
      case IMUL_RCP =>
        var w := gen.DrawDivisor();
        ZeroOrPowerOfTwo(w);
        var rcp := RandomxReciprocal(w);
        instr := Blank(op, IMUL_RCP, -1, false, true).(imm32 := w, reciprocal := rcp);
    }
    CreatedFacts(gen.blocks, op, old(gen.at));
  }

  method CreateForSlot(gen: Generator, size: nat, fetchType: nat, isLast: bool) returns (instr: ScInstr)
    requires IsSlot(size) && Patient(gen.blocks)
    modifies gen
    ensures Created(instr) && instr.dst == -1 && instr.src == -1 && FitsSlot(instr.op, size, isLast)
    ensures instr.op == OpFor(size, fetchType, isLast, ByteAt(gen.blocks, old(gen.at)))
    ensures var from := if FixedOp(size, fetchType, isLast) then old(gen.at) else AfterByte(old(gen.at));
      Draws(instr, gen.blocks, from, gen.at)
    ensures instr.op != INVALID && InfoOf(instr.op).macroOps != []
    ensures (instr, gen.at) == CreatedForSlot(gen.blocks, size, fetchType, isLast, old(gen.at))
  {
    hide FitsSlot, Patient, Created, Draws, CreatedBy, InfoOf;
    var op;
    if size == 10 {
      op := IMUL_RCP;
    } else if size == 4 && fetchType == 4 && !isLast {
      op := IMUL_R;
    } else {
      var b := gen.GetByte();
      op := OpFor(size, fetchType, isLast, b);
    }
    OpFits(size, fetchType, isLast, ByteAt(gen.blocks, old(gen.at)));
    instr := Create(op, gen);
  }

  /** An unfinished high multiply gets the 3-3-10 buffer, an unfinished reciprocal a first slot of four. */
  method FetchNext(instr: ScInstr, decodeCycle: nat, mulCount: nat, gen: Generator) returns (b: DecoderBuffer)
    modifies gen
    ensures b == NextBuffer(instr.op, decodeCycle, mulCount, ByteAt(gen.blocks, old(gen.at)))
    ensures gen.at ==
            if IsHighMultiply(instr.op) || mulCount < decodeCycle + 1 then old(gen.at) else AfterByte(old(gen.at))
    ensures IsBuffer(b)
    ensures IsHighMultiply(instr.op) || instr.op == IMUL_RCP ==> SlotFor(instr.op, 1, b, 0)
  {
    if IsHighMultiply(instr.op) {
      return BUFFER_3310;
    }
    if mulCount < decodeCycle + 1 {
      return BUFFER_4444;
    }
    if instr.op == IMUL_RCP {
      var x := gen.GetByte();
      return if x % 2 == 1 then BUFFER_484 else BUFFER_493;
    }
    var x := gen.GetByte();
    b := [BUFFER_484, BUFFER_7333, BUFFER_3733, BUFFER_493][x % 4];
  }

  // ---------- operands ----------

  /** A high multiply has its destination already, and it is ready at most three cycles on. */
  ghost predicate AwaitsResult(i: ScInstr, regs: seq<RegisterInfo>, top: nat)
    requires |regs| == 8
  {
    && i.src == -1
    && (if !IsHighMultiply(i.op) then i.dst == -1
        else 0 <= i.dst < 8 && regs[i.dst].latency <= top + 3 && !Repeats(i, regs[i.dst]))
  }

  /** The source is ready in cycle `s`, and the destination before a result issued then. */
  ghost predicate Timed(i: ScInstr, regs: seq<RegisterInfo>, s: nat)
    requires |regs| == 8
  {
    && WellFormed(i)
    && (ReadsSource(i.op) ==> regs[i.src].latency <= s)
    && regs[i.dst].latency < s + ResultLatency(i.op) && !Repeats(i, regs[i.dst])
  }

  /** The looked-up source and destination are what the next macro-op needs. */
  lemma OperandsChosen(
      created: ScInstr, sourced: ScInstr, chosen: ScInstr, index: nat, regs: seq<RegisterInfo>,
      top: nat, start: nat, middle: nat, s: nat, chain: bool)
    requires |regs| == 8 && Created(created) && index <= InfoOf(created.op).resultOp && top <= start <= middle <= s
    requires if index == 0 then created.dst == -1 && created.src == -1 else AwaitsResult(created, regs, top)
    requires index == 0 && IsHighMultiply(created.op) ==> start == top
    requires sourced == created.(src := sourced.src, opGroupPar := sourced.opGroupPar)
    requires IsHighMultiply(created.op) ==> sourced.opGroupPar == created.opGroupPar
    requires if index == InfoOf(created.op).srcOp then 0 <= sourced.src < 8 && regs[sourced.src].latency <= middle
             else sourced == created && middle == start
    requires chosen == sourced.(dst := chosen.dst)
    requires if index == InfoOf(created.op).dstOp
             then 0 <= chosen.dst < 8 && s <= middle + 3 && Eligible(sourced, chosen.dst, regs[chosen.dst], s, chain)
             else chosen == sourced && s == middle
    ensures Created(chosen)
    ensures if index < InfoOf(chosen.op).resultOp then AwaitsResult(chosen, regs, top) else Timed(chosen, regs, s)
  {
    InfoKinds(created.op);
  }

  // ---------- slots ----------

  /** Macro-op `index` of `op` stands in a slot made for it: the first where it fits, others where they must. */
  ghost predicate SlotFor(op: Op, index: nat, b: DecoderBuffer, slot: nat)
  {
    && IsBuffer(b) && slot < |b.counts| && index < |InfoOf(op).macroOps|
    && (index == 0 ==> FitsSlot(op, b.counts[slot], |b.counts| == slot + 1))
    && (index > 0 && IsHighMultiply(op) ==> b == BUFFER_3310 && slot == index - 1)
    && (index > 0 && op == IMUL_RCP ==> slot == 0 && b.counts[0] == 4)
  }

  /** An unfinished instruction continues in the next slot, or with its second macro-op in the next buffer. */
  ghost predicate NextSlot(op: Op, index: nat, b: DecoderBuffer, slot: nat)
  {
    if slot < |b.counts| then SlotFor(op, index, b, slot)
    else index == 1 && (IsHighMultiply(op) || op == IMUL_RCP)
  }

  /** A macro-op never stands in a slot smaller than its size, and its successor's place is determined. */
  lemma SlotFits(op: Op, index: nat, b: DecoderBuffer, slot: nat)
    requires SlotFor(op, index, b, slot)
    ensures IsBuffer(b) && slot < |b.counts| && index < |InfoOf(op).macroOps|
    ensures InfoOf(op).macroOps[index].size <= b.counts[slot]
    ensures index + 1 < |InfoOf(op).macroOps| ==> NextSlot(op, index + 1, b, slot + 1)
  {
  }

  /** An empty history owes nothing to an empty program, map and register table. */
  lemma NothingYet(blocks: nat -> Block, at: Cursor)
    ensures Ports([], Initial(at).rows) && Recorded([], [], []) && Scheduled([], []) && Multiplications([]) == 0
    ensures InSync(Initial(at).regs, [], [], None) && Slots([], []) && AllEarlier([], 0, 0) && CodeBytes([]) == 0
    ensures Roots([], [], blocks, [])
  {
    forall c, u: nat | 0 <= c < CYCLE_MAP_SIZE && u < 3
      ensures Initial(at).rows[c][u] != NULL <==> Occupied([], c, u)
    {
    }
  }

  class ScGenerator {
    const busy: array<Row>
    const registers: array<RegisterInfo>
    const gen: Generator
    var prog: seq<ScInstr>
    var current: ScInstr
    var macroOpIndex: nat
    var cycle: nat
    var depCycle: nat
    var saturated: bool
    var mulCount: nat
    var decodeCycle: nat
    var throwAway: nat
    var buffer: DecoderBuffer
    var bufferIndex: nat
    var codeSize: nat
    // the committed macro-ops, the buffers fetched, the result cycles of the program and of `current`
    ghost var history: seq<Event>
    ghost var buffers: seq<DecoderBuffer>
    ghost var issues: seq<nat>
    ghost var issue: nat
    // where the unfinished instruction was drawn
    ghost var drawn: Cursor

    ghost function State(): State
      reads this`prog, this`current, this`macroOpIndex, this`cycle, this`depCycle, this`saturated, this`mulCount
      reads this`decodeCycle, this`throwAway, this`buffer, this`bufferIndex, this`codeSize, busy, registers, gen
    {
      ScMachine.State(prog, current, macroOpIndex, cycle, depCycle, saturated, mulCount, decodeCycle, throwAway, buffer,
                      bufferIndex, codeSize, busy[..], registers[..], gen.at)
    }

    function MacroOps(): seq<MacroOp>
      reads this`current
    {
      InfoOf(current.op).macroOps
    }

    predicate Pending()
      reads this`current, this`macroOpIndex
    {
      macroOpIndex < |MacroOps()|
    }

    /** The result of the unfinished instruction is already scheduled. */
    predicate Resulted()
      reads this`current, this`macroOpIndex
    {
      Pending() && macroOpIndex > InfoOf(current.op).resultOp
    }

    ghost predicate Shape()
    {
      busy.Length == CYCLE_MAP_SIZE && registers.Length == 8 && Patient(gen.blocks)
    }

    /** The port map is that of the history. */
    ghost predicate Logged()
      reads this`history, busy
    {
      Ports(history, busy[..])
    }

    /** The register table is that of the latest results. */
    ghost predicate Synced(resulted: bool)
      requires |prog| == |issues| && registers.Length == 8
      reads this`current, this`prog, this`issues, this`issue, registers
    {
      var latest := if resulted then Some((current.dst, ResultInfo(current, issue))) else None;
      InSync(registers[..], prog, issues, latest)
    }

    ghost predicate Emitted()
      reads this`prog, this`issues, this`mulCount
    {
      |prog| == |issues| <= SUPERSCALAR_MAX_SIZE && Scheduled(prog, issues) && mulCount == Multiplications(prog)
    }

    /** The program is the one that the history completes, and the history ends with the unfinished instruction. */
    ghost predicate Traced()
      reads this`history, this`prog, this`issues, this`issue, this`current, this`macroOpIndex, this`depCycle, this`drawn
    {
      && Recorded(history, prog, issues)
      && (Pending() ==> Tail(history, current.op, macroOpIndex, issue, depCycle, drawn))
    }

    ghost predicate Valid()
      reads this`current, this`macroOpIndex, this`prog, this`issues, this`issue, this`history, this`mulCount
      reads this`depCycle, this`drawn, busy, registers
    {
      Shape() && Logged() && Emitted() && Synced(Resulted()) && Traced()
    }

    lemma Lengths()
      requires Valid()
      ensures Shape() && Logged() && Emitted() && Synced(Resulted()) && Traced() && |prog| == |issues|
    {
    }

    /** What a state without a scheduled result rests on, whatever instruction comes next. */
    lemma ValidParts()
      requires Valid() && !Resulted()
      ensures Shape() && Logged() && Emitted() && Recorded(history, prog, issues)
      ensures |registers[..]| == 8 && InSync(registers[..], prog, issues, None)
      ensures Pending() ==> Tail(history, current.op, macroOpIndex, issue, depCycle, drawn)
    {
      hide Ports, Scheduled, InSync, Recorded, Tail, InfoOf, Patient;
    }

    lemma ValidWith()
      requires Shape() && Logged() && Emitted() && Recorded(history, prog, issues)
      requires InSync(registers[..], prog, issues, None) && !Resulted()
      requires Pending() ==> Tail(history, current.op, macroOpIndex, issue, depCycle, drawn)
      ensures Valid()
    {
      hide Ports, Scheduled, InSync, Recorded, InfoOf, Patient, Tail;
    }

    lemma ValidFrom()
      requires Shape() && Logged() && Emitted() && Recorded(history, prog, issues)
      requires InSync(registers[..], prog, issues, None) && (!Pending() || macroOpIndex == 0)
      ensures Valid()
    {
      hide Valid, Ports, Scheduled, InSync, Recorded, InfoOf, Patient;
      NothingBehind(current.op);
      ValidWith();
    }

    ghost predicate Issued()
      requires |prog| == |issues|
      reads this`current, this`prog, this`issues, this`issue
    {
      WellFormed(current) && Timely(prog, issues, current, issue)
    }

    /** What is known of an instruction of which `macroOpIndex` macro-ops are scheduled. */
    ghost predicate Staged()
      requires registers.Length == 8 && |prog| == |issues|
      reads this`current, this`macroOpIndex, this`prog, this`issues, this`issue, this`cycle, registers
    {
      StagedAt(cycle)
    }

    ghost predicate StagedAt(c: nat)
      requires registers.Length == 8 && |prog| == |issues|
      reads this`current, this`macroOpIndex, this`prog, this`issues, this`issue, registers
    {
      && current.op != INVALID && Created(current) && |prog| < SUPERSCALAR_MAX_SIZE && Pending()
      && var result := InfoOf(current.op).resultOp;
      && (macroOpIndex == 0 ==> current.dst == -1 && current.src == -1)
      && (0 < macroOpIndex <= result ==> AwaitsResult(current, registers[..], c))
      && (macroOpIndex > result ==> Issued())
    }

    /** The operands that the next macro-op needs are chosen and ready in cycle `s`. */
    ghost predicate Chosen(top: nat, s: nat)
      requires registers.Length == 8 && |prog| == |issues|
      reads this`current, this`macroOpIndex, this`prog, this`issues, this`issue, registers
    {
      && current.op != INVALID && Created(current) && |prog| < SUPERSCALAR_MAX_SIZE && Pending() && top <= s
      && var result := InfoOf(current.op).resultOp;
      && (macroOpIndex < result ==> AwaitsResult(current, registers[..], top))
      && (macroOpIndex == result ==> Timed(current, registers[..], s))
      && (macroOpIndex > result ==> Issued())
    }

    /** Macro-op `index` is scheduled and its result, if it is the result macro-op, recorded. */
    ghost predicate Booked(top: nat, index: int)
      reads this`current, this`prog, this`issues, this`issue, this`mulCount, registers
    {
      && Emitted() && Created(current) && |prog| < SUPERSCALAR_MAX_SIZE && registers.Length == 8
      && var result := InfoOf(current.op).resultOp;
      && Synced(index >= result)
      && (if index < result then AwaitsResult(current, registers[..], top) else Issued())
    }

    lemma StaysStaged()
      requires macroOpIndex > 0 && Pending() && Booked(cycle, macroOpIndex - 1)
      ensures Emitted() && Staged() && Synced(Resulted())
    {
      hide LastWrite, Scheduled, WellFormed, Timely, InfoOf;
    }

    ghost predicate InSlot()
      reads this`buffer, this`bufferIndex, this`current, this`macroOpIndex
    {
      SlotFor(current.op, macroOpIndex, buffer, bufferIndex)
    }

    /** The slots before the next one are accounted for. */
    ghost predicate Accounted()
      reads this`buffer, this`bufferIndex, this`codeSize, this`history, this`buffers, this`decodeCycle
    {
      && IsBuffer(buffer) && Sized(codeSize, decodeCycle, history, buffer.counts, bufferIndex)
      && Slots(history, buffers) && AllEarlier(history, decodeCycle, bufferIndex)
      && |buffers| == decodeCycle + 1 && buffers[decodeCycle] == buffer
    }

    /** Between slots: an unfinished instruction continues in the next slot, or in the next buffer. */
    ghost predicate Continues()
      requires registers.Length == 8 && |prog| == |issues|
      reads this`current, this`macroOpIndex, this`prog, this`issues, this`issue, this`cycle, registers
      reads this`buffer, this`bufferIndex
    {
      Pending() ==> macroOpIndex > 0 && Staged() && NextSlot(current.op, macroOpIndex, buffer, bufferIndex)
    }

    lemma Idle()
      requires registers.Length == 8 && |prog| == |issues| && !Pending()
      ensures Continues()
    {
    }

    lemma HasBuffer()
      requires Accounted()
      ensures IsBuffer(buffer)
    {
    }

    /** Every instruction so far, the unfinished one included, stands where the stream put it. */
    ghost predicate Rooted()
      reads this`history, this`prog, this`buffers, this`current, this`macroOpIndex, this`drawn, this`buffer
      reads this`bufferIndex
    {
      && Roots(history, prog, gen.blocks, buffers)
      && (Pending() ==> Origin(current, gen.blocks, drawn) && (macroOpIndex == 0 ==> Drawn()))
    }

    ghost predicate Drawn()
      reads this`current, this`drawn, this`buffer, this`bufferIndex
    {
      bufferIndex < |buffer.counts| && OpDrawn(current.op, buffer, bufferIndex, gen.blocks, drawn)
    }

    /** While slots are filled, only a late macro-op has saturated the ports. */
    ghost predicate Lit()
      reads this`saturated, this`history
    {
      saturated ==> Late(history)
    }

    ghost predicate Evident(now: int)
      reads this`saturated, this`history, busy, registers
    {
      saturated ==> Saturates(history, busy[..], Latencies(registers[..]), now)
    }

    ghost predicate Kept()
      reads this, busy, registers
    {
      Valid() && Accounted() && decodeCycle <= cycle && throwAway <= MAX_THROWAWAY_COUNT
    }

    ghost predicate Between()
      reads this, busy, registers
    {
      Kept() && Continues()
    }

    /** Between buffers, at most the first macro-op of an instruction is behind. */
    predicate Carried()
      reads this`current, this`macroOpIndex
    {
      macroOpIndex == 1 && (IsHighMultiply(current.op) || current.op == IMUL_RCP)
    }

    ghost predicate Open()
      requires registers.Length == 8 && |prog| == |issues|
      reads this`current, this`macroOpIndex, this`prog, this`issues, this`issue, this`cycle, registers
    {
      Pending() ==> Staged() && Carried()
    }

    ghost predicate Resting()
      reads this, busy, registers
    {
      && Valid() && !Resulted() && decodeCycle <= cycle && throwAway <= MAX_THROWAWAY_COUNT
      && codeSize == CodeBytes(history) && codeSize <= 16 * decodeCycle
      && Slots(history, buffers) && AllEarlier(history, decodeCycle, 0) && |buffers| == decodeCycle
      && (saturated || Open()) && Rooted() && Evident(cycle - 1)
    }

    constructor (gen: Generator)
      requires Patient(gen.blocks)
      ensures this.gen == gen && fresh(busy) && fresh(registers)
      ensures Resting() && decodeCycle == 0 && State() == Initial(gen.at)
    {
      busy := new Row[CYCLE_MAP_SIZE](_ => [NULL, NULL, NULL]);
      registers := new RegisterInfo[8](_ => RegisterInfo(0, INVALID, -1));
      this.gen := gen;
      prog, current, macroOpIndex := [], NULL_INSTR, 0;
      cycle, depCycle, saturated, mulCount, decodeCycle, throwAway := 0, 0, false, 0, 0, 0;
      buffer, bufferIndex, codeSize := DecoderBuffer(0, []), 0, 0;
      history, buffers, issues, issue, drawn := [], [], [], 0, gen.at;
      new;
      hide Ports, Recorded, Scheduled, Multiplications, InSync, Slots, AllEarlier, CodeBytes, Roots, Saturates, InfoOf;
      hide Patient;
      NoMacroOps();
      assert busy[..] == Initial(gen.at).rows && registers[..] == Initial(gen.at).regs;
      NothingYet(gen.blocks, gen.at);
    }

    /** Looks ahead at most four cycles for a ready source register. */
    method LookForSource(instr: ScInstr, start: nat) returns (ok: bool, chosen: ScInstr, s: nat)
      requires Shape()
      modifies gen
      ensures start <= s && chosen == instr.(src := chosen.src, opGroupPar := chosen.opGroupPar)
      ensures Created(instr) && IsHighMultiply(instr.op) ==> chosen.opGroupPar == instr.opGroupPar
      ensures ok ==> 0 <= chosen.src < 8 && registers[chosen.src].latency <= s
      ensures !ok ==> s == start + LOOK_FORWARD_CYCLES && forall i :: 0 <= i < 8 ==> registers[i].latency >= s
      ensures ok && s > start ==> registers[chosen.src].latency == s
      ensures Look(ok, chosen, s, gen.at)
              == SourceLook(gen.blocks, registers[..], instr, start, old(gen.at), LOOK_FORWARD_CYCLES)
    {
      hide Sources, Picked, SourceChoice, ReservesOther, Patient;
      ok, chosen, s := false, instr, start;
      while s < start + LOOK_FORWARD_CYCLES
        invariant start <= s <= start + LOOK_FORWARD_CYCLES && chosen == instr && !ok && gen.at == old(gen.at)
        invariant s > start ==> forall i :: 0 <= i < 8 ==> registers[i].latency >= s
        invariant SourceLook(gen.blocks, registers[..], instr, start, old(gen.at), LOOK_FORWARD_CYCLES)
                  == SourceLook(gen.blocks, registers[..], instr, s, gen.at, start + LOOK_FORWARD_CYCLES - s)
      {
        ok, chosen := SelectSource(chosen, s, registers, gen);
        if ok {
          return;
        }
        s := s + 1;
      }
    }

    /** Looks ahead at most four cycles for a destination register. */
    method LookForDestination(instr: ScInstr, start: nat) returns (ok: bool, chosen: ScInstr, s: nat)
      requires Shape()
      modifies gen
      ensures start <= s && chosen == instr.(dst := chosen.dst)
      ensures ok ==> s <= start + 3 && 0 <= chosen.dst < 8
      ensures ok ==> Eligible(instr, chosen.dst, registers[chosen.dst], s, throwAway > 0)
      ensures !ok ==> s == start + LOOK_FORWARD_CYCLES
      ensures ok && s > start ==> registers[chosen.dst].latency == s
      ensures Look(ok, chosen, s, gen.at)
              == DestinationLook(gen.blocks, registers[..], instr, start, throwAway > 0, old(gen.at), LOOK_FORWARD_CYCLES)
    {
      hide Destinations, Picked, DestinationChoice, Patient;
      ok, chosen, s := false, instr, start;
      while s < start + LOOK_FORWARD_CYCLES
        invariant start <= s <= start + LOOK_FORWARD_CYCLES && chosen == instr && !ok && gen.at == old(gen.at)
        invariant s > start ==> forall i :: 0 <= i < 8 ==> !Eligible(instr, i, registers[i], s - 1, throwAway > 0)
        invariant
          DestinationLook(gen.blocks, registers[..], instr, start, throwAway > 0, old(gen.at), LOOK_FORWARD_CYCLES) ==
          DestinationLook(gen.blocks, registers[..], instr, s, throwAway > 0, gen.at, start + LOOK_FORWARD_CYCLES - s)
      {
        ok, chosen := SelectDestination(chosen, s, throwAway > 0, registers, gen);
        if ok {
          return;
        }
        s := s + 1;
      }
    }

    /** Discards the current instruction, or gives up on the buffer after too many discards. */
    method Discard() returns (outcome: Outcome)
      requires Valid() && !Resulted() && throwAway <= MAX_THROWAWAY_COUNT
      modifies this`throwAway, this`macroOpIndex, this`current
      ensures Valid() && !Pending() && outcome != Filled
      ensures outcome == Retry ==> throwAway == old(throwAway) + 1
      ensures throwAway <= MAX_THROWAWAY_COUNT
      ensures (outcome, State()) == Discarded(old(State()))
    {
      hide Valid, Emitted, Logged, Shape, Resulted, InSync, Recorded, InfoOf, Tail, Discarded;
      ValidParts();
      NoMacroOps();
      ghost var before := State();
      if throwAway < MAX_THROWAWAY_COUNT {
        throwAway := throwAway + 1;
        macroOpIndex := |MacroOps()|;
        outcome := Retry;
      } else {
        current := NULL_INSTR;
        outcome := Stop;
      }
      ValidFrom();
      DiscardedIs(before, State(), outcome);
    }

    /** Draws a new instruction for the slot. */
    method Draw()
      requires Shape() && IsBuffer(buffer) && bufferIndex < |buffer.counts| && |prog| < SUPERSCALAR_MAX_SIZE
      requires |prog| == |issues|
      modifies this`current, this`macroOpIndex, this`drawn, gen
      ensures macroOpIndex == 0 && Pending() && Staged() && InSlot()
      ensures drawn == old(gen.at) && Origin(current, gen.blocks, drawn) && Drawn()
      ensures IsSlot(buffer.counts[bufferIndex])
      ensures (current, gen.at) == CreatedForSlot(gen.blocks, buffer.counts[bufferIndex], buffer.index,
                                                  |buffer.counts| == bufferIndex + 1, old(gen.at))
    {
      hide Patient, IsBuffer, OpFor, Created, FitsSlot, Draws, Origin, CreatedForSlot, OpDrawn;
      BufferSlots(buffer);
      var size, isLast := buffer.counts[bufferIndex], |buffer.counts| == bufferIndex + 1;
      drawn := gen.at;
      CreatedOrigin(gen.blocks, buffer, bufferIndex, gen.at);
      current := CreateForSlot(gen, size, buffer.index, isLast);
      macroOpIndex := 0;
    }

    /** Starts a new instruction unless one is unfinished. */
    method Begin() returns (ok: bool)
      requires Valid() && Rooted() && Continues() && IsBuffer(buffer) && bufferIndex < |buffer.counts|
      modifies this`current, this`macroOpIndex, this`drawn, gen
      ensures Valid() && Rooted() && (ok ==> Pending() && Staged() && InSlot())
      ensures !ok ==> !Pending() && current == old(current) && macroOpIndex == old(macroOpIndex) && gen.at == old(gen.at)
      ensures InRound(old(State())) ==> (ok, State()) == Begun(gen.blocks, old(State()))
    {
      hide Valid, Emitted, Logged, Patient, InSync, IsBuffer, Recorded, Roots, Origin, CreatedForSlot, OpDrawn, SlotFor;
      hide StagedAt, InfoOf;
      assert |prog| == |issues| && Shape() by { Lengths(); }
      ok := true;
      if !Pending() {
        if saturated || |prog| >= SUPERSCALAR_MAX_SIZE {
          return false;
        }
        ValidParts();
        Draw();
        ValidFrom();
      }
    }

    /** Looks for the registers that the next macro-op needs. */
    method Lookup(start: nat) returns (ok: bool, chosen: ScInstr, s: nat, ghost sourced: ScInstr, ghost middle: nat)
      requires Shape()
      modifies gen
      ensures start <= middle <= s
      ensures Look(ok, chosen, s, gen.at)
              == OperandLook(gen.blocks, registers[..], current, macroOpIndex, start, throwAway > 0, old(gen.at))
      ensures sourced == current.(src := sourced.src, opGroupPar := sourced.opGroupPar)
      ensures Created(current) && IsHighMultiply(current.op) ==> sourced.opGroupPar == current.opGroupPar
      ensures chosen == sourced.(dst := chosen.dst)
      ensures macroOpIndex != InfoOf(current.op).srcOp ==> sourced == current && middle == start
      ensures macroOpIndex != InfoOf(current.op).dstOp ==> chosen == sourced && s == middle
      ensures macroOpIndex != InfoOf(current.op).srcOp && macroOpIndex != InfoOf(current.op).dstOp ==> ok
      ensures ok && macroOpIndex == InfoOf(current.op).srcOp ==>
                0 <= sourced.src < 8 && registers[sourced.src].latency <= middle
      ensures ok && macroOpIndex == InfoOf(current.op).dstOp ==>
                && 0 <= chosen.dst < 8 && s <= middle + 3
                && Eligible(sourced, chosen.dst, registers[chosen.dst], s, throwAway > 0)
      ensures ok && s > start ==> exists r :: 0 <= r < 8 && registers[r].latency == s
    {
      hide Patient, InfoOf, Eligible, SourceLook, DestinationLook, Created;
      var info := InfoOf(current.op);
      ok, chosen, s := true, current, start;
      if macroOpIndex == info.srcOp {
        ok, chosen, s := LookForSource(chosen, s);
      }
      sourced, middle := chosen, s;
      if ok && macroOpIndex == info.dstOp {
        ok, chosen, s := LookForDestination(chosen, s);
      }
    }

    /** The registers found are what the next macro-op needs. */
    method Operands(top: nat, start: nat) returns (ok: bool, chosen: ScInstr, s: nat)
      requires Shape() && |prog| == |issues| && Staged() && top == cycle <= start
      requires macroOpIndex == 0 && IsHighMultiply(current.op) ==> start == cycle
      modifies gen
      ensures chosen == current.(src := chosen.src, dst := chosen.dst, opGroupPar := chosen.opGroupPar) && start <= s
      ensures macroOpIndex > InfoOf(current.op).resultOp ==> ok && chosen == current
      ensures ok && macroOpIndex < InfoOf(current.op).resultOp ==>
                Created(chosen) && AwaitsResult(chosen, registers[..], top)
      ensures ok && macroOpIndex == InfoOf(current.op).resultOp ==> Created(chosen) && Timed(chosen, registers[..], s)
      ensures ok && s > start ==> exists r :: 0 <= r < 8 && registers[r].latency == s
      ensures Look(ok, chosen, s, gen.at)
              == OperandLook(gen.blocks, registers[..], current, macroOpIndex, start, throwAway > 0, old(gen.at))
    {
      hide LastWrite, Timely, Patient, InfoOf, WellFormed, Eligible, Timed, AwaitsResult, OperandLook;
      InfoKinds(current.op);
      ghost var sourced, middle;
      ok, chosen, s, sourced, middle := Lookup(start);
      if ok && macroOpIndex <= InfoOf(current.op).resultOp {
        OperandsChosen(current, sourced, chosen, macroOpIndex, registers[..], top, start, middle, s, throwAway > 0);
      }
    }

    /** The operands are chosen: what the next macro-op needs in cycle `s`. */
    lemma ChosenWith(top: nat, s: nat)
      requires registers.Length == 8 && |prog| == |issues| && Pending() && top <= s
      requires current.op != INVALID && |prog| < SUPERSCALAR_MAX_SIZE && Created(current)
      requires macroOpIndex < InfoOf(current.op).resultOp ==> AwaitsResult(current, registers[..], top)
      requires macroOpIndex == InfoOf(current.op).resultOp ==> Timed(current, registers[..], s)
      requires macroOpIndex > InfoOf(current.op).resultOp ==> Issued()
      ensures Chosen(top, s)
    {
      hide Created, AwaitsResult, Timed, Issued, InfoOf;
    }

    lemma StagedParts()
      requires registers.Length == 8 && |prog| == |issues| && Staged()
      ensures current.op != INVALID && |prog| < SUPERSCALAR_MAX_SIZE && Created(current) && Pending()
      ensures macroOpIndex > InfoOf(current.op).resultOp ==> Issued()
    {
      hide Created, AwaitsResult, Timed, Issued, InfoOf;
    }

    lemma NotResulted()
      ensures macroOpIndex <= InfoOf(current.op).resultOp ==> !Resulted()
      ensures macroOpIndex > InfoOf(current.op).resultOp && Pending() ==> Resulted()
    {
    }

    /** Takes over an instruction with chosen registers, and the cycles looked ahead. */
    method Adopt(chosen: ScInstr, ahead: nat)
      requires Valid() && InSlot() && Pending()
      requires chosen == current.(src := chosen.src, dst := chosen.dst, opGroupPar := chosen.opGroupPar)
      requires Resulted() ==> chosen == current
      modifies this`current, this`cycle
      ensures current == chosen && Valid() && InSlot() && Pending()
      ensures State() == old(State()).(current := chosen, cycle := old(cycle) + ahead)
    {
      hide Valid, InSync, Emitted, Logged, Shape, SlotFor, InfoOf, Recorded, Tail;
      ghost var resulted := Resulted();
      if !resulted {
        ValidParts();
      }
      cycle := cycle + ahead;
      current := chosen;
      if !resulted {
        ValidWith();
      }
    }

    /** Chooses those registers; every cycle looked ahead moves `cycle` on. */
    method Choose(top: nat, start: nat) returns (ok: bool, s: nat)
      requires Valid() && Staged() && InSlot() && top == cycle <= start
      requires macroOpIndex == 0 && IsHighMultiply(current.op) ==> start == cycle
      modifies this`current, this`cycle, gen
      ensures current == old(current).(src := current.src, dst := current.dst, opGroupPar := current.opGroupPar)
      ensures cycle >= top && start <= s && Valid() && InSlot() && (ok ==> Chosen(top, s))
      ensures !ok ==> !Resulted()
      ensures ok && s > start ==> exists r :: 0 <= r < 8 && registers[r].latency == s
      ensures var l := OperandLook(gen.blocks, registers[..], old(current), macroOpIndex, start, throwAway > 0,
                                   old(gen.at));
        ok == l.ok && s == l.cycle && State() == Looked(old(State()), l, start)
    {
      hide Valid, OperandLook, InSync, Emitted, Logged, Issued, Created, Patient, SlotFor, InfoOf, Timed, AwaitsResult;
      hide Recorded, Tail, Looked, Staged, Chosen, Resulted;
      assert Shape() && |prog| == |issues| by { Lengths(); }
      StagedParts();
      NotResulted();
      ghost var before := State();
      var chosen;
      ok, chosen, s := Operands(top, start);
      Adopt(chosen, s - start);
      if ok {
        ChosenWith(top, s);
      }
      NotResulted();
      LookedIs(before, State(), Look(ok, chosen, s, gen.at), start);
    }

    /** The next macro-op as an event in cycle `c`, on the units that the map prefers there. */
    ghost function NextEvent(c: nat, rows: seq<Row>): Event
      requires Pending()
      reads this`current, this`macroOpIndex, this`decodeCycle, this`bufferIndex, this`drawn
    {
      Commit(current.op, macroOpIndex, decodeCycle, bufferIndex, c,
             if c < |rows| then UnitsOf(rows[c], MacroOps()[macroOpIndex]) else {}, drawn)
    }

    ghost predicate IsNext(e: Event)
      reads this`current, this`macroOpIndex, this`decodeCycle, this`bufferIndex, this`drawn
    {
      && e.op == current.op && e.index == macroOpIndex && e.decodeCycle == decodeCycle && e.slot == bufferIndex
      && e.from == drawn
    }

    /** Books the ports of the next macro-op from cycle `s` on. */
    method BookNext(s: nat) returns (c: Option<nat>)
      requires Shape() && Logged() && Pending()
      modifies busy
      ensures c == Earliest(old(busy[..]), s, MacroOps()[macroOpIndex])
      ensures c.None? ==> Logged() && !Resulted() && busy[..] == old(busy[..])
      ensures c.Some? ==>
                && s <= c.value && busy[..] == Book(old(busy[..]), c.value, MacroOps()[macroOpIndex])
                && Ports(history + [NextEvent(c.value, old(busy[..]))], busy[..])
    {
      hide Ports, Fits, InfoOf, Book, UnitsOf;
      var mop := MacroOps()[macroOpIndex];
      ghost var before := busy[..];
      if Resulted() {
        AfterResult(current.op, macroOpIndex);
      }
      c := ScheduleMop(true, mop, busy, s, s);
      if c.Some? {
        PortsNext(history, before, NextEvent(c.value, before), busy[..]);
      }
    }

    /** The result macro-op in cycle `c` makes the destination register ready in `depCycle`. */
    method WriteResult(ghost top: nat, ghost s: nat, c: nat)
      requires Shape() && Emitted() && Synced(Resulted()) && Chosen(top, s) && s <= c
      requires depCycle == c + MacroOps()[macroOpIndex].latency
      modifies registers, this`issue
      ensures Booked(top, macroOpIndex)
      ensures issue == if macroOpIndex == InfoOf(current.op).resultOp then c else old(issue)
      ensures registers[..] == if macroOpIndex == InfoOf(current.op).resultOp && 0 <= current.dst < 8
        then old(registers[..])[current.dst := RegisterInfo(depCycle, current.opGroup, current.opGroupPar)]
        else old(registers[..])
    {
      hide LastWrite, Scheduled, Created, Patient, Multiplications;
      if macroOpIndex == InfoOf(current.op).resultOp {
        registers[current.dst] := RegisterInfo(depCycle, current.opGroup, current.opGroupPar);
        issue := c;
      }
    }

    /** Retires a finished instruction. */
    method Retire(ghost top: nat)
      requires Booked(top, |MacroOps()| - 1)
      modifies this`mulCount, this`prog, this`issues
      ensures Emitted() && Synced(false)
      ensures prog == old(prog) + [current] && issues == old(issues) + [issue]
      ensures mulCount == old(mulCount) + if IsMultiplication(current.op) then 1 else 0
    {
      hide LastWrite, Scheduled, Timely, WellFormed, InfoOf, InSync, Multiplications, ResultInfo;
      InfoKinds(current.op);
      SyncAppend(registers[..], prog, issues, current, issue);
      if IsMultiplication(current.op) {
        mulCount := mulCount + 1;
      }
      ScheduledNext(prog, issues, current, issue);
      prog := prog + [current];
      issues := issues + [issue];
    }

    /** Accounts for the slot of a macro-op in cycle `c` and moves on to the next macro-op and slot. */
    method TakeSlot(top: nat, c: nat, ghost e: Event)
      requires InSlot() && Accounted() && Pending() && IsNext(e) && decodeCycle <= e.cycle
      modifies this`codeSize, this`history, this`bufferIndex, this`macroOpIndex, this`saturated, this`cycle
      ensures Accounted() && bufferIndex == old(bufferIndex) + 1 && macroOpIndex == old(macroOpIndex) + 1
      ensures history == old(history) + [e] && macroOpIndex <= |MacroOps()|
      ensures codeSize == old(codeSize) + MacroOps()[old(macroOpIndex)].size
      ensures saturated == (old(saturated) || c >= SUPERSCALAR_LATENCY) && cycle == top
      ensures Pending() ==> NextSlot(current.op, macroOpIndex, buffer, bufferIndex)
    {
      hide InfoOf, SlotFor, NextSlot, Sized, IsBuffer, Slots, AllEarlier;
      SlotFits(current.op, macroOpIndex, buffer, bufferIndex);
      var size := MacroOps()[macroOpIndex].size;
      SizedNext(codeSize, decodeCycle, history, buffer.counts, bufferIndex, e);
      SlotsNext(history, buffers, e);
      history := history + [e];
      codeSize := codeSize + size;
      bufferIndex := bufferIndex + 1;
      macroOpIndex := macroOpIndex + 1;
      if c >= SUPERSCALAR_LATENCY {
        saturated := true;
      }
      cycle := top;
    }

    /** Moves past a filled slot and retires a finished instruction. */
    method Advance(top: nat, c: nat, ghost e: Event)
      requires Shape() && InSlot() && Accounted() && Pending() && Booked(top, macroOpIndex) && decodeCycle <= top <= c
      requires IsNext(e) && e.cycle == c && Ports(history + [e], busy[..])
      requires Extends(history, e, prog, issues, current, issue, depCycle) && throwAway <= MAX_THROWAWAY_COUNT
      modifies this`codeSize, this`history, this`bufferIndex, this`macroOpIndex, this`saturated, this`cycle
      modifies this`mulCount, this`prog, this`issues
      ensures Between() && bufferIndex == old(bufferIndex) + 1 && history == old(history) + [e]
      ensures macroOpIndex == old(macroOpIndex) + 1 && codeSize == old(codeSize) + MacroOps()[old(macroOpIndex)].size
      ensures saturated == (old(saturated) || c >= SUPERSCALAR_LATENCY) && cycle == top
      ensures var done := macroOpIndex >= |MacroOps()|;
        && prog == (if done then old(prog) + [current] else old(prog))
        && mulCount == old(mulCount) + if done && IsMultiplication(current.op) then 1 else 0
    {
      hide Emitted, Ports, Patient, Accounted, SlotFor, NextSlot, InfoOf, Booked, Synced, Staged, Recorded, Tail;
      TakeSlot(top, c, e);
      if macroOpIndex >= |MacroOps()| {
        Retire(top);
      } else {
        StaysStaged();
      }
    }

    lemma DrawsNext(e: Event)
      requires Accounted() && Rooted() && Pending() && InSlot() && IsNext(e)
      ensures DrawnAt(e, gen.blocks, buffers)
    {
      hide Roots, Origin, OpDrawn, Sized, Slots, AllEarlier, InfoOf;
    }

    /** Records a booked macro-op: its result, its slot and the instruction it may complete. */
    method Record(top: nat, ghost start: nat, c: nat, ghost e: Event)
      requires Pending() && Booking(top, start, e) && e.cycle == c && InSlot()
      requires Accounted() && throwAway <= MAX_THROWAWAY_COUNT && decodeCycle <= top <= start
      requires Ports(history + [e], busy[..])
      modifies this, registers
      ensures Between() && bufferIndex == old(bufferIndex) + 1 && history == old(history) + [e]
      ensures drawn == old(drawn) && buffers == old(buffers) && buffer == old(buffer) && decodeCycle == old(decodeCycle)
      ensures State() == Noted(old(State()), top, c)
    {
      hide Noted, Emitted, Ports, Patient, SlotFor, InfoOf, Booked, Chosen, Accounted, Extends, Synced, Between, Traced;
      ghost var before := State();
      Settle(top, start, c, e);
      Advance(top, c, e);
      NotedIs(before, State(), top, c);
    }

    /** The next macro-op is booked as event `e`, but nothing else of it is recorded. */
    ghost predicate Booking(top: nat, start: nat, e: Event)
      reads this, registers
    {
      && Shape() && Emitted() && Synced(Resulted()) && Traced() && Pending() && Chosen(top, start) && start <= e.cycle
      && (macroOpIndex > 0 && MacroOps()[macroOpIndex].dependent ==> depCycle <= start)
      && IsNext(e)
    }

    /** The result of a booked macro-op: when its successor may start, and when its register is ready. */
    method Settle(ghost top: nat, ghost start: nat, c: nat, ghost e: Event)
      requires Pending() && Booking(top, start, e) && e.cycle == c
      modifies this`depCycle, this`issue, registers
      ensures Booked(top, macroOpIndex) && Extends(history, e, prog, issues, current, issue, depCycle)
      ensures depCycle == c + MacroOps()[macroOpIndex].latency
      ensures registers[..] == if macroOpIndex == InfoOf(current.op).resultOp && 0 <= current.dst < 8
        then old(registers[..])[current.dst := RegisterInfo(depCycle, current.opGroup, current.opGroupPar)]
        else old(registers[..])
    {
      hide Emitted, Patient, InfoOf, Booked, Chosen, Recorded, Tail, Extends, Synced;
      ghost var issued := if macroOpIndex == InfoOf(current.op).resultOp then c else issue;
      RecordNext(history, e, prog, issues, current, issue, issued, depCycle);
      depCycle := c + MacroOps()[macroOpIndex].latency;
      WriteResult(top, start, c);
    }

    /** A macro-op that fits nowhere from `start` on, where it may start, saturates the ports. */
    lemma Stuck(start: nat)
      requires Shape() && Pending() && Earliest(busy[..], start, MacroOps()[macroOpIndex]).None?
      requires start == cycle || (exists r :: 0 <= r < 8 && registers[r].latency == start)
               || (history != [] && start == history[|history| - 1].cycle + Mop(history[|history| - 1]).latency)
      ensures Saturates(history, busy[..], Latencies(registers[..]), cycle)
    {
      hide InfoOf, Fits, Late, Earliest;
      EarliestNone(busy[..], start, MacroOps()[macroOpIndex]);
      ghost var ready := Latencies(registers[..]);
      if r :| 0 <= r < 8 && registers[r].latency == start {
        assert ready[r] == start;
      }
      assert StuckAt(history, busy[..], ready, cycle, current.op, macroOpIndex, start);
    }

    /** Everything is ready for the commitment of the next macro-op from cycle `start` on. */
    ghost predicate Committable(top: nat, start: nat)
      reads this, busy, registers
    {
      && Kept() && Rooted() && Lit() && InSlot() && Pending() && Chosen(top, start) && decodeCycle <= top <= start
      && (macroOpIndex > 0 && MacroOps()[macroOpIndex].dependent ==> depCycle <= start)
      && (Earliest(busy[..], start, MacroOps()[macroOpIndex]).None? ==>
            exists r :: 0 <= r < 8 && registers[r].latency == start)
    }

    /** The record of a macro-op leaves every instruction where the stream put it. */
    lemma RootedAfter(h: seq<Event>, e: Event, p: seq<ScInstr>, i: ScInstr)
      requires Roots(h, p, gen.blocks, buffers) && DrawnAt(e, gen.blocks, buffers) && Origin(i, gen.blocks, e.from)
      requires history == h + [e] && prog == (if Completes(e) then p + [i] else p)
      requires macroOpIndex > 0 && current == i && drawn == e.from
      ensures Rooted()
    {
      hide Roots, Origin, DrawnAt, Completes;
      RootsNext(h, e, p, i, gen.blocks, buffers);
    }

    lemma BookingNow(top: nat, start: nat, e: Event)
      requires Shape() && Emitted() && Synced(Resulted()) && Traced() && Pending() && Chosen(top, start) && IsNext(e)
      requires start <= e.cycle && (macroOpIndex > 0 && MacroOps()[macroOpIndex].dependent ==> depCycle <= start)
      ensures Booking(top, start, e)
    {
      hide Emitted, Synced, Traced, Chosen, InfoOf, Patient;
    }

    lemma BetweenKept()
      requires Between()
      ensures Kept()
    {
    }

    /** Books and accounts for a macro-op whose operands are chosen. */
    method CommitNext(top: nat, start: nat) returns (outcome: Outcome)
      requires Committable(top, start)
      modifies this, busy, registers
      ensures Kept() && Rooted() && Evident(cycle) && outcome != Retry && (outcome == Filled ==> Lit())
      ensures buffer == old(buffer) && decodeCycle == old(decodeCycle)
      ensures outcome == Stop ==> saturated && !Resulted() && bufferIndex == old(bufferIndex)
      ensures outcome == Filled ==> Between() && bufferIndex == old(bufferIndex) + 1
      ensures Unfinished(old(State())) && (outcome, State()) == CommitFrom(old(State()), top, start)
    {
      hide Emitted, Ports, Patient, SlotFor, InfoOf, Chosen, Accounted, Traced, Synced, Continues, Noted, Book, Rooted;
      hide Saturates, Late, Earliest, CommitFrom, Booking, Between;
      ghost var was := State();
      throwAway := 0;
      ghost var before := busy[..];
      var c := BookNext(start);
      if c.None? {
        saturated := true;
        Stuck(start);
        CommitFromIs(was, State(), top, start, c);
        return Stop;
      }
      ghost var e := NextEvent(c.value, before);
      BookingNow(top, start, e);
      RecordRooted(top, start, c.value, e);
      CommitFromIs(was, State(), top, start, c);
      BetweenKept();
      return Filled;
    }

    method RecordRooted(top: nat, ghost start: nat, c: nat, ghost e: Event)
      requires Pending() && Booking(top, start, e) && e.cycle == c && InSlot()
      requires Accounted() && throwAway <= MAX_THROWAWAY_COUNT && decodeCycle <= top <= start
      requires Ports(history + [e], busy[..]) && Rooted() && Lit()
      modifies this, registers
      ensures Between() && Rooted() && Lit() && Evident(cycle) && bufferIndex == old(bufferIndex) + 1
      ensures buffer == old(buffer) && decodeCycle == old(decodeCycle)
      ensures State() == Noted(old(State()), top, c)
    {
      hide Emitted, Ports, Patient, SlotFor, InfoOf, Chosen, Accounted, Traced, Synced, Between;
      hide Roots, Origin, Late, DrawnAt, OpDrawn;
      ghost var h, p := history, prog;
      DrawsNext(e);
      assert Roots(h, p, gen.blocks, buffers) && Origin(current, gen.blocks, drawn);
      Record(top, start, c, e);
      RootedAfter(h, e, p, current);
      if saturated {
        LateMore(h, e);
      }
    }

    /** The first cycle that has the ports of the next macro-op; nothing is booked yet. */
    method Peek() returns (c: Option<nat>)
      requires Valid() && Pending()
      modifies busy
      ensures Valid()
      ensures c.None? ==> !Resulted()
      ensures c.Some? ==> cycle <= c.value && (MacroOps()[macroOpIndex].dependent ==> depCycle <= c.value)
      ensures c.Some? && macroOpIndex == 0 && IsHighMultiply(current.op) ==> c.value == cycle
      ensures State() == old(State())
      ensures var mop := MacroOps()[macroOpIndex];
        && c == Earliest(busy[..], StartCycle(mop, cycle, depCycle), mop)
        && (c.Some? ==> Fits(busy[..], c.value, mop))
    {
      hide Free, Ports, Emitted, Traced, Synced, Patient, InfoOf;
      var mop := MacroOps()[macroOpIndex];
      if Resulted() {
        AfterResult(current.op, macroOpIndex);
      }
      FirstMove(current.op);
      c := ScheduleMop(false, mop, busy, cycle, depCycle);
      assert macroOpIndex == 0 && IsHighMultiply(current.op) ==> Fits(old(busy[..]), cycle, mop);
    }

    /** Only a second macro-op waits for the one before it. */
    lemma DependentStart()
      requires Valid() && Pending()
      ensures var start := StartCycle(MacroOps()[macroOpIndex], cycle, depCycle);
        start == cycle
        || (history != [] && start == history[|history| - 1].cycle + Mop(history[|history| - 1]).latency)
    {
      hide Ports, Emitted, Synced, Recorded, Patient, InfoOf;
      Lengths();
      FirstIndependent(current.op);
    }

    /** Everything before the commitment: a macro-op with its operands, a discard, or a stop. */
    method Prepare(top: nat) returns (outcome: Outcome, s: nat)
      requires Between() && Rooted() && Lit() && bufferIndex < |buffer.counts| && top == cycle
      modifies this`current, this`macroOpIndex, this`drawn, this`cycle, this`throwAway, this`saturated, busy, gen
      ensures outcome == Filled ==> Committable(top, s)
      ensures outcome != Filled ==> Kept() && Rooted()
      ensures outcome == Retry ==> !Pending() && Lit() && throwAway == old(throwAway) + 1
      ensures outcome == Stop ==> Evident(cycle) && !Resulted() && (saturated || !Pending())
      ensures InRound(old(State())) && (outcome == Filled ==> Unfinished(State()))
      ensures Round(gen.blocks, old(State()))
              == if outcome == Filled then CommitFrom(State(), top, s) else (outcome, State())
    {
      hide Valid, Patient, Continues, SlotFor, InfoOf, Staged, Chosen, Accounted, IsBuffer;
      hide OperandLook, Begun, Earliest, Discarded, CommitFrom, Fits, Rooted, Saturates, Late;
      assert Shape() && |prog| == |issues| by { Lengths(); }
      assert IsBuffer(buffer) by { HasBuffer(); }
      s := top;
      var begun := Begin();
      if !begun {
        LateSaturates(history, busy[..], Latencies(registers[..]), cycle);
        return Stop, s;
      }
      outcome, s := TryNext(top);
    }

    /** What follows once an instruction stands in the slot. */
    method TryNext(top: nat) returns (outcome: Outcome, s: nat)
      requires Kept() && Rooted() && Lit() && Pending() && Staged() && InSlot() && top == cycle
      modifies this`current, this`macroOpIndex, this`cycle, this`throwAway, this`saturated, busy, gen
      ensures outcome == Filled ==> Committable(top, s)
      ensures outcome != Filled ==> Kept() && Rooted()
      ensures outcome == Retry ==> !Pending() && Lit() && throwAway == old(throwAway) + 1
      ensures outcome == Stop ==> Evident(cycle) && !Resulted() && (saturated || !Pending())
      ensures InRound(old(State())) && Unfinished(old(State())) && (outcome == Filled ==> Unfinished(State()))
      ensures Attempt(gen.blocks, old(State()))
              == if outcome == Filled then CommitFrom(State(), top, s) else (outcome, State())
    {
      hide Valid, Patient, SlotFor, InfoOf, Staged, Chosen, Accounted, IsBuffer;
      hide OperandLook, Earliest, Discarded, CommitFrom, Fits, Rooted, Saturates, Late;
      assert Shape() && |prog| == |issues| by { Lengths(); }
      RoundShape();
      s := top;
      var start := Peek();
      if start.None? {
        saturated := true;
        DependentStart();
        Stuck(StartCycle(MacroOps()[macroOpIndex], cycle, depCycle));
        return Stop, s;
      }
      EarliestHere(busy[..], start.value, MacroOps()[macroOpIndex]);
      outcome, s := SelectNext(top, start.value);
      LateSaturates(history, busy[..], Latencies(registers[..]), cycle);
    }

    /** Chooses the operands from cycle `start` on, which has the ports, or discards the instruction. */
    method SelectNext(top: nat, start: nat) returns (outcome: Outcome, s: nat)
      requires Kept() && Rooted() && Lit() && Pending() && Staged() && InSlot() && top == cycle <= start
      requires macroOpIndex == 0 && IsHighMultiply(current.op) ==> start == cycle
      requires MacroOps()[macroOpIndex].dependent ==> depCycle <= start
      requires Earliest(busy[..], start, MacroOps()[macroOpIndex]) == Some(start)
      modifies this`current, this`macroOpIndex, this`cycle, this`throwAway, gen
      ensures outcome == Filled ==> Committable(top, s)
      ensures outcome != Filled ==> Kept() && Rooted() && Lit() && !Pending()
      ensures outcome == Retry ==> throwAway == old(throwAway) + 1
      ensures |registers[..]| == 8
      ensures var l := OperandLook(gen.blocks, registers[..], old(current), old(macroOpIndex), start, old(throwAway) > 0,
                                   old(gen.at));
        && (outcome == Filled <==> l.ok)
        && (if l.ok then s == l.cycle && State() == Looked(old(State()), l, start)
            else (outcome, State()) == Discarded(Looked(old(State()), l, start)))
    {
      hide Valid, Patient, SlotFor, InfoOf, Staged, Chosen, Accounted, IsBuffer, Roots, Origin, OpDrawn;
      hide OperandLook, Earliest, Discarded, Fits, Rooted, Late;
      assert Shape() && |prog| == |issues| by { Lengths(); }
      RootsOf();
      ghost var before := current;
      var ok;
      ok, s := Choose(top, start);
      OriginSame(before, current, gen.blocks, drawn);
      outcome := Filled;
      if ok {
        RootedFrom();
      } else {
        outcome := Discard();
        RootedIdle();
      }
    }

    lemma RoundShape()
      requires Kept() && InSlot()
      ensures InRound(State())
    {
      hide Valid, InfoOf;
      Lengths();
    }

    lemma RootsOf()
      requires Rooted() && Pending()
      ensures Roots(history, prog, gen.blocks, buffers) && Origin(current, gen.blocks, drawn)
      ensures macroOpIndex == 0 ==> Drawn()
    {
    }

    lemma RootedFrom()
      requires Roots(history, prog, gen.blocks, buffers) && Origin(current, gen.blocks, drawn)
      requires macroOpIndex == 0 ==> Drawn()
      ensures Rooted()
    {
    }

    lemma RootedIdle()
      requires Roots(history, prog, gen.blocks, buffers) && !Pending()
      ensures Rooted()
    {
    }

    /** One round of the slot loop: fill the slot, discard an instruction and retry, or stop. */
    method FillSlot() returns (outcome: Outcome)
      requires Between() && Rooted() && Lit() && bufferIndex < |buffer.counts|
      modifies this, busy, registers, gen
      ensures Kept() && Rooted() && buffer == old(buffer) && decodeCycle == old(decodeCycle)
      ensures if outcome == Stop then Evident(cycle) else Lit()
      ensures outcome == Filled ==> Between() && bufferIndex == old(bufferIndex) + 1
      ensures outcome == Retry ==> Between() && bufferIndex == old(bufferIndex) && throwAway == old(throwAway) + 1
      ensures outcome == Stop ==> !Resulted() && (saturated || !Pending())
      ensures InRound(old(State())) && (outcome, State()) == Round(gen.blocks, old(State()))
    {
      hide Committable, Valid, Patient, Continues, InfoOf, Accounted, Round, CommitFrom, InRound, Rooted, Saturates;
      assert Shape() && |prog| == |issues| by { Lengths(); }
      var top, s := cycle, 0;
      outcome, s := Prepare(top);
      if outcome == Filled {
        outcome := CommitNext(top, s);
      } else if outcome == Retry {
        Idle();
      }
    }

    method GetBuffer()
      modifies this`buffer, this`bufferIndex, gen
      ensures IsBuffer(buffer) && bufferIndex == 0
      ensures IsHighMultiply(current.op) || current.op == IMUL_RCP ==> SlotFor(current.op, 1, buffer, 0)
      ensures State() == Fetched(gen.blocks, old(State()))
    {
      hide NextBuffer, ByteAt, AfterByte, SlotFor, IsBuffer, Fetched, InfoOf;
      ghost var before := State();
      buffer := FetchNext(current, decodeCycle, mulCount, gen);
      bufferIndex := 0;
      FetchedIs(gen.blocks, before, State());
    }

    lemma AccountedFirst()
      requires IsBuffer(buffer) && bufferIndex == 0 && Sized(codeSize, decodeCycle, history, buffer.counts, 0)
      requires Slots(history, buffers) && AllEarlier(history, decodeCycle, 0)
      requires |buffers| == decodeCycle + 1 && buffers[decodeCycle] == buffer
      ensures Accounted()
    {
      hide IsBuffer, Sized, Slots, AllEarlier;
    }

    lemma ContinuesFirst()
      requires registers.Length == 8 && |prog| == |issues| && Open() && bufferIndex == 0 && IsBuffer(buffer)
      requires IsHighMultiply(current.op) || current.op == IMUL_RCP ==> SlotFor(current.op, 1, buffer, 0)
      ensures Continues()
    {
      hide StagedAt, SlotFor, InfoOf;
    }

    lemma RestingParts()
      requires Resting()
      ensures Valid() && Shape() && |prog| == |issues| && decodeCycle <= cycle && throwAway <= MAX_THROWAWAY_COUNT
      ensures codeSize == CodeBytes(history) && codeSize <= 16 * decodeCycle
      ensures Slots(history, buffers) && AllEarlier(history, decodeCycle, 0) && |buffers| == decodeCycle
      ensures Roots(history, prog, gen.blocks, buffers) && (Pending() ==> Origin(current, gen.blocks, drawn))
      ensures saturated || Open()
    {
      hide Valid, CodeBytes, Slots, AllEarlier, Roots, Origin, Saturates, Staged, InfoOf;
      Lengths();
    }

    /** Before the first slot: the unfinished instruction, if any, has one macro-op behind it. */
    lemma BetweenFirst()
      requires Valid() && Shape() && |prog| == |issues| && decodeCycle <= cycle && throwAway <= MAX_THROWAWAY_COUNT
      requires Accounted() && Continues() && Open() && !saturated
      requires Roots(history, prog, gen.blocks, buffers) && (Pending() ==> Origin(current, gen.blocks, drawn))
      ensures Between() && Rooted() && Lit()
    {
      hide Valid, Accounted, Continues, Roots, Origin, Staged, InfoOf, Patient;
    }

    /** Fetches the buffer that continues the unfinished instruction, if there is one. */
    method Fetch()
      requires Resting() && !saturated
      modifies this`buffer, this`bufferIndex, this`buffers, gen
      ensures Between() && Rooted() && Lit() && bufferIndex == 0 && decodeCycle == old(decodeCycle)
      ensures State() == Fetched(gen.blocks, old(State()))
    {
      hide Resting, Between, Rooted, Lit, Open, Roots, Origin, Sized, Fetched, Accounted, Continues;
      hide Valid, InfoOf, SlotFor, IsBuffer, Patient, CodeBytes, Slots, AllEarlier;
      RestingParts();
      GetBuffer();
      SizedStart(codeSize, decodeCycle, history, buffer.counts);
      SlotsFetched(history, buffers, buffer);
      RootsFetched(history, prog, gen.blocks, buffers, buffer);
      buffers := buffers + [buffer];
      AccountedFirst();
      ContinuesFirst();
      BetweenFirst();
    }

    /** Fills the slots of one decode buffer. */
    method FillBuffer()
      requires Between() && Rooted() && Lit() && bufferIndex == 0
      modifies this, busy, registers, gen
      ensures Kept() && Rooted() && Evident(cycle) && decodeCycle == old(decodeCycle) && !Resulted()
      ensures saturated || (Pending() ==> Staged() && Carried())
      ensures HoldsBuffer(old(State())) && State() == FilledFrom(gen.blocks, old(State()))
    {
      hide Emitted, Traced, Synced, Ports, Patient, SlotFor, Staged, Accounted, InfoOf, Round, Rooted, Late;
      assert HoldsBuffer(State()) by { HasBuffer(); }
      while bufferIndex < |buffer.counts|
        invariant Between() && Rooted() && Lit() && decodeCycle == old(decodeCycle) && HoldsBuffer(State())
        invariant FilledFrom(gen.blocks, State()) == FilledFrom(gen.blocks, old(State()))
        decreases |buffer.counts| - bufferIndex, MAX_THROWAWAY_COUNT - throwAway
      {
        ghost var before := State();
        RoundProgress(gen.blocks, before);
        var outcome := FillSlot();
        if outcome == Stop {
          return;
        }
      }
      if Pending() {
        InfoKinds(current.op);
      }
    }

    lemma StagedLater(c: nat)
      requires registers.Length == 8 && |prog| == |issues| && cycle == c + 1 && Pending()
      requires StagedAt(c)
      ensures Staged()
    {
      hide Issued, Created, InfoOf;
    }

    method NextCycle()
      requires Kept() && Rooted() && Evident(cycle) && !Resulted() && (saturated || Open())
      modifies this`cycle, this`decodeCycle
      ensures Resting() && decodeCycle == old(decodeCycle) + 1 && cycle == old(cycle) + 1
    {
      hide Valid, StagedAt, InfoOf, Patient, Slots, CodeBytes, IsBuffer, AllEarlier, Sized, Rooted, Saturates;
      assert Shape() && |prog| == |issues| by { Lengths(); }
      SizedFull(codeSize, decodeCycle, history, buffer, bufferIndex);
      AllEarlierNext(history, decodeCycle, bufferIndex);
      ghost var c := cycle;
      cycle := cycle + 1;
      decodeCycle := decodeCycle + 1;
      if !saturated && Pending() {
        StagedLater(c);
      }
    }

    /** One decode cycle. */
    method DecodeBuffer()
      requires Resting() && !saturated
      modifies this, busy, registers, gen
      ensures Resting() && decodeCycle == old(decodeCycle) + 1
      ensures |old(State()).regs| == 8 && State() == Decoded(gen.blocks, old(State()))
    {
      hide Kept, Between, Staged, Patient, Slots, AllEarlier, CodeBytes, Valid, Fetched, FilledFrom, Rooted;
      assert |prog| == |issues| && Shape() by { Lengths(); }
      Fetch();
      FillBuffer();
      NextCycle();
    }

    /** What a generation that has come to rest has established. */
    lemma Final()
      requires Resting()
      ensures |prog| <= SUPERSCALAR_MAX_SIZE && mulCount == Multiplications(prog)
      ensures Grouped(history) && Emits(history, prog) && Scheduled(prog, Issues(history)) && Ports(history, busy[..])
      ensures |buffers| == decodeCycle && Slots(history, buffers)
      ensures codeSize == CodeBytes(history) && codeSize <= 16 * decodeCycle
      ensures registers.Length == 8 && Roots(history, prog, gen.blocks, buffers)
      ensures forall r :: 0 <= r < 8 ==> registers[r].latency == LastWrite(prog, Issues(history), r).latency
      ensures saturated ==> Saturates(history, busy[..], Latencies(registers[..]), cycle - 1)
    {
      hide Scheduled, Patient, Ports, InfoOf, Slots, Grouped, Emits, LastWrite, Multiplications, CodeBytes, Issues, Roots;
      hide Saturates, Origin, Tail, AllEarlier;
      ValidParts();
    }

    /** The outer loop of `generate`. */
    method Run()
      requires Resting() && decodeCycle <= SUPERSCALAR_LATENCY
      modifies this, busy, registers, gen
      ensures Resting() && decodeCycle <= SUPERSCALAR_LATENCY
      ensures decodeCycle == SUPERSCALAR_LATENCY || saturated || |prog| >= SUPERSCALAR_MAX_SIZE
      ensures |old(State()).regs| == 8 && State() == Generated(gen.blocks, old(State()))
    {
      hide Valid, Patient, Slots, AllEarlier, CodeBytes, Rooted, Saturates, Decoded;
      assert Shape() by { Lengths(); }
      while decodeCycle < SUPERSCALAR_LATENCY && !saturated && |prog| < SUPERSCALAR_MAX_SIZE
        invariant Resting() && decodeCycle <= SUPERSCALAR_LATENCY
        invariant Generated(gen.blocks, State()) == Generated(gen.blocks, old(State()))
        decreases SUPERSCALAR_LATENCY - decodeCycle
      {
        DecodeBuffer();
      }
    }
  }

  /**
   * `generate`: terminates and returns at most 512 well-formed instructions, the port map and the
   * ready cycles of the registers, all determined by the stream. The history of committed macro-ops
   * accounts for them: it fills decode slots in order and never beyond their size, its entries are
   * disjoint and exactly the busy ones of the port map, and the instructions it completes are the
   * program, whose sources are ready when they are read and whose results advance their registers.
   * Generation ends only when a budget is used up or the ports are saturated.
   */
  method Generate(gen: Generator)
    returns (prog: seq<ScInstr>, mulCount: nat, codeSize: nat, decodeCycles: nat, portMap: seq<Row>,
             cpuLatencies: seq<nat>, lastCycle: nat, ghost history: seq<Event>, ghost buffers: seq<DecoderBuffer>)
    requires Patient(gen.blocks)
    modifies gen
    ensures |prog| <= SUPERSCALAR_MAX_SIZE && mulCount == Multiplications(prog)
    ensures Grouped(history) && Emits(history, prog) && Scheduled(prog, Issues(history))
    ensures Ports(history, portMap)
    ensures |buffers| == decodeCycles <= SUPERSCALAR_LATENCY && Slots(history, buffers)
    ensures codeSize == CodeBytes(history) && codeSize <= 16 * decodeCycles
    ensures |cpuLatencies| == 8
    ensures forall r :: 0 <= r < 8 ==> cpuLatencies[r] == LastWrite(prog, Issues(history), r).latency
    ensures Roots(history, prog, gen.blocks, buffers)
    ensures decodeCycles == SUPERSCALAR_LATENCY || |prog| == SUPERSCALAR_MAX_SIZE
            || Saturates(history, portMap, cpuLatencies, lastCycle - 1)
    ensures var t := Generated(gen.blocks, Initial(old(gen.at)));
      && prog == t.prog && mulCount == t.mulCount && codeSize == t.codeSize && decodeCycles == t.decodeCycle
      && portMap == t.rows && cpuLatencies == Latencies(t.regs) && lastCycle == t.cycle && gen.at == t.at
  {
    hide ScGenerator.Resting, Scheduled, Patient, Ports, InfoOf, Slots, Grouped, Emits, LastWrite, Multiplications;
    hide CodeBytes, Issues, Initial, Roots, Saturates, Generated;
    var g := new ScGenerator(gen);
    g.Run();
    g.Final();
    cpuLatencies := Latencies(g.registers[..]);
    return g.prog, g.mulCount, g.codeSize, g.decodeCycle, g.busy[..], cpuLatencies, g.cycle, g.history, g.buffers;
  }
}
