/**
 * Executing SuperscalarHash programs (`randomx-core/src/superscalar.rs`): the predecoded program,
 * run by a table of paired handlers, computes what sequential execution of the program computes.
 */
module ScExecutor {
  import opened Words
  import opened Wrappers
  import opened Reciprocals
  import opened Superscalar

  type Registers = s: seq<u64> | |s| == 8 witness seq(8, _ => 0)

  function Extended(imm: u32): u64
  {
    if imm > 0x7fff_ffff then Or64(imm, 0xffff_ffff_0000_0000) else imm
  }

  /** Sign extension is the cast of the immediate read as a signed number. */
  lemma ExtendedIsCast(imm: u32)
    ensures Extended(imm) == (if imm < 0x8000_0000 then imm else imm - TWO32) % TWO64
  {
    SignExtendIsCast(if imm < 0x8000_0000 then imm else imm - TWO32);
    if imm >= 0x8000_0000 {
      DivModUnique(imm - TWO32, TWO32, -1, imm);
    }
  }

  function ModShift(modV: u8): nat { modV / 4 % 4 }

  // ---------- sequential execution ----------

  function Source(i: ScInstr, ds: Registers): u64
  {
    if 0 <= i.src < 8 then ds[i.src] else 0
  }

  /** One instruction of `execute_reference`; the reciprocal is taken from the divisor itself. */
  function Step(i: ScInstr, ds: Registers): Registers
    requires WellFormed(i)
  {
    var d, s := ds[i.dst], Source(i, ds);
    var v :=
      match i.op
      case ISUB_R => WSub(d, s)
      case IXOR_R => Xor64(d, s)
      case IADD_RS => WAdd(d, Shl64(s, ModShift(i.modV)))
      case IMUL_R => WMul(d, s)
      case IROR_C => RotateRight(d, i.imm32)
      case IADD_C7 | IADD_C8 | IADD_C9 => WAdd(d, Extended(i.imm32))
      case IXOR_C7 | IXOR_C8 | IXOR_C9 => Xor64(d, Extended(i.imm32))
      case IMULH_R => Mulh(d, s)
      case ISMULH_R => Smulh(d, s)
      case IMUL_RCP => WMul(d, Reciprocal(i.imm32));
    ds[i.dst := v]
  }

  predicate Program(prog: seq<ScInstr>) { forall k :: 0 <= k < |prog| ==> WellFormed(prog[k]) }

  /** The register file after the first `n` instructions. */
  function After(prog: seq<ScInstr>, n: nat, ds: Registers): Registers
    requires Program(prog) && n <= |prog|
  {
    if n == 0 then ds else Step(prog[n - 1], After(prog, n - 1, ds))
  }

  // ---------- predecoding ----------

  datatype ExecOp = IsubR | IxorR | IaddRs | ImulR | IrorC | IaddC | IxorC | ImulhR | IsmulhR | ImulRcp

  /** The discriminant of an opcode. */
  function Number(op: ExecOp): (n: nat)
    ensures n < 10
  {
    match op
    case IsubR => 0 case IxorR => 1 case IaddRs => 2 case ImulR => 3 case IrorC => 4
    case IaddC => 5 case IxorC => 6 case ImulhR => 7 case IsmulhR => 8 case ImulRcp => 9
  }

  datatype ExecInstr = ExecInstr(immediate: u64, pairHandlerOffset: nat, dstOffset: u8, srcOffset: u8, opcode: ExecOp)

  function DecodeOp(i: ScInstr): (ExecOp, u64)
    requires i.op != INVALID
  {
    match i.op
    case ISUB_R => (IsubR, 0)
    case IXOR_R => (IxorR, 0)
    case IADD_RS => (IaddRs, ModShift(i.modV))
    case IMUL_R => (ImulR, 0)
    case IROR_C => (IrorC, i.imm32)
    case IADD_C7 | IADD_C8 | IADD_C9 => (IaddC, Extended(i.imm32))
    case IXOR_C7 | IXOR_C8 | IXOR_C9 => (IxorC, Extended(i.imm32))
    case IMULH_R => (ImulhR, 0)
    case ISMULH_R => (IsmulhR, 0)
    case IMUL_RCP => (ImulRcp, i.reciprocal)
  }

  /** `ScExecInstr::decode`; none where the source panics. */
  function Decode(i: ScInstr): Option<ExecInstr>
  {
    if i.op == INVALID || !(0 <= i.dst < 8) || !(-1 <= i.src < 8) then None
    else
      var (opcode, immediate) := DecodeOp(i);
      Some(ExecInstr(immediate, 0, i.dst * 8, if i.src < 0 then 0 else i.src * 8, opcode))
  }

  /** Reading a register through a byte offset. */
  function ReadAt(ds: Registers, offset: nat): u64
    requires offset % 8 == 0 && offset <= 56
  {
    ds[offset / 8]
  }

  predicate Offsets(e: ExecInstr)
  {
    e.dstOffset % 8 == 0 && e.dstOffset <= 56 && e.srcOffset % 8 == 0 && e.srcOffset <= 56
  }

  /** The value an opcode number computes. */
  function Result(number: nat, e: ExecInstr, ds: Registers): u64
    requires number < 10 && Offsets(e)
  {
    var d, s := ReadAt(ds, e.dstOffset), ReadAt(ds, e.srcOffset);
    match number
    case 0 => WSub(d, s)
    case 1 => Xor64(d, s)
    case 2 => WAdd(d, Shl64(s, e.immediate))
    case 3 => WMul(d, s)
    case 4 => RotateRight(d, e.immediate)
    case 5 => WAdd(d, e.immediate)
    case 6 => Xor64(d, e.immediate)
    case 7 => Mulh(d, s)
    case 8 => Smulh(d, s)
    case _ => WMul(d, e.immediate)
  }

  /** `e` is a predecoded form of `i`, whatever its handler offset. */
  ghost predicate Decodes(e: ExecInstr, i: ScInstr)
  {
    Decode(i) == Some(e.(pairHandlerOffset := 0))
  }

  /** A well-formed instruction decodes, its offsets are in bounds, and its opcode has the reference effect. */
  lemma DecodeRefines(i: ScInstr, e: ExecInstr, ds: Registers)
    requires WellFormed(i) && Decodes(e, i)
    ensures Offsets(e) && e.dstOffset / 8 == i.dst
    ensures ds[i.dst := Result(Number(e.opcode), e, ds)] == Step(i, ds)
  {
    hide WSub, WMul, WAdd, Xor64, Shl64, RotateRight, Mulh, Smulh, Extended, ModShift, Reciprocal, IsZeroOrPowerOfTwo;
  }

  ghost predicate AllDecode(exec: seq<ExecInstr>, prog: seq<ScInstr>)
  {
    |exec| == |prog| && forall k :: 0 <= k < |exec| ==> Decodes(exec[k], prog[k])
  }

  function PairIndex(first: ExecInstr, second: ExecInstr): nat
  {
    10 * Number(first.opcode) + Number(second.opcode)
  }

  /** The first `n` pairs hold the byte offset of their handler in their first instruction. */
  ghost predicate Paired(exec: seq<ExecInstr>, n: int)
  {
    forall p {:trigger exec[2 * p]} :: 0 <= p < n && 2 * p + 1 < |exec| ==>
      exec[2 * p].pairHandlerOffset == PairIndex(exec[2 * p], exec[2 * p + 1]) * 8
  }

  ghost predicate Predecoded(exec: seq<ExecInstr>, prog: seq<ScInstr>)
  {
    AllDecode(exec, prog) && Paired(exec, |exec| / 2)
  }

  /** Linking a pair keeps its decoding and the earlier links. */
  lemma LinkOne(exec: seq<ExecInstr>, prog: seq<ScInstr>, n: nat, linked: seq<ExecInstr>)
    requires AllDecode(exec, prog) && Paired(exec, n) && 2 * n + 1 < |exec|
    requires linked == exec[2 * n := exec[2 * n].(pairHandlerOffset := PairIndex(exec[2 * n], exec[2 * n + 1]) * 8)]
    ensures AllDecode(linked, prog) && Paired(linked, n + 1)
  {
    hide Decode, PairIndex;
    SamePair(exec[2 * n], exec[2 * n + 1], linked[2 * n]);
    forall p | 0 <= p < n + 1 && 2 * p + 1 < |linked|
      ensures linked[2 * p].pairHandlerOffset == PairIndex(linked[2 * p], linked[2 * p + 1]) * 8
    {
      assert p < n ==> exec[2 * p] == linked[2 * p] && exec[2 * p + 1] == linked[2 * p + 1];
    }
  }

  lemma SamePair(first: ExecInstr, second: ExecInstr, linked: ExecInstr)
    requires linked.opcode == first.opcode
    ensures PairIndex(linked, second) == PairIndex(first, second)
  {
  }

  method Predecode(prog: seq<ScInstr>) returns (exec: seq<ExecInstr>)
    requires Program(prog)
    ensures Predecoded(exec, prog)
  {
    hide Paired, PairIndex;
    exec := [];
    for k := 0 to |prog|
      invariant |exec| == k && forall j :: 0 <= j < k ==> Decodes(exec[j], prog[j])
    {
      exec := exec + [Decode(prog[k]).value];
    }
    exec := LinkPairs(exec, prog);
  }

  method LinkPairs(decoded: seq<ExecInstr>, ghost prog: seq<ScInstr>) returns (exec: seq<ExecInstr>)
    requires AllDecode(decoded, prog)
    ensures Predecoded(exec, prog)
  {
    hide Decodes, PairIndex;
    exec := decoded;
    var n := 0;
    while 2 * n + 1 < |exec|
      invariant 2 * n <= |exec| && AllDecode(exec, prog) && Paired(exec, n)
    {
      var linked := exec[2 * n := exec[2 * n].(pairHandlerOffset := PairIndex(exec[2 * n], exec[2 * n + 1]) * 8)];
      LinkOne(exec, prog, n, linked);
      exec := linked;
      n := n + 1;
    }
  }

  // ---------- paired execution ----------

  /** `PAIR_HANDLERS`: the opcode numbers for which each of the 100 handlers is made. */
  const PAIR_HANDLERS: seq<(nat, nat)> := seq(100, k requires 0 <= k => (k / 10, k % 10))

  /** `execute_compact_instruction_known` and, with the instruction's own number, `…_unchecked`. */
  method ExecuteKnown(number: nat, ds: array<u64>, e: ExecInstr, ghost i: ScInstr)
    requires ds.Length == 8 && WellFormed(i) && Decodes(e, i) && number == Number(e.opcode)
    modifies ds
    ensures ds[..] == Step(i, old(ds[..]))
  {
    hide WSub, WMul, WAdd, Xor64, Shl64, RotateRight, Mulh, Smulh, Step, WellFormed, Decodes;
    DecodeRefines(i, e, ds[..]);
    var d, s := ds[e.dstOffset / 8], ds[e.srcOffset / 8];
    var result;
    match number {
      case 0 => result := WSub(d, s);
      case 1 => result := Xor64(d, s);
      case 2 => result := WAdd(d, Shl64(s, e.immediate));
      case 3 => result := WMul(d, s);
      case 4 => result := RotateRight(d, e.immediate);
      case 5 => result := WAdd(d, e.immediate);
      case 6 => result := Xor64(d, e.immediate);
      case 7 => result := Mulh(d, s);
      case 8 => result := Smulh(d, s);
      case _ => result := WMul(d, e.immediate);
    }
    ds[e.dstOffset / 8] := result;
  }

  /** The first `k` instructions of the program have been executed. */
  ghost predicate Reached(ds: seq<u64>, prog: seq<ScInstr>, k: int, start: Registers)
  {
    |ds| == 8 && Program(prog) && 0 <= k <= |prog| && ds == After(prog, k, start)
  }

  /** Runs the handler found at the byte offset of the pair's first instruction. */
  method ExecutePair(exec: seq<ExecInstr>, p: nat, ds: array<u64>, ghost prog: seq<ScInstr>, ghost start: Registers)
    requires Predecoded(exec, prog) && 2 * p + 1 < |exec| && Reached(ds[..], prog, 2 * p, start)
    modifies ds
    ensures Reached(ds[..], prog, 2 * p + 2, start)
  {
    hide Step, WellFormed, Decodes;
    var first, second := exec[2 * p], exec[2 * p + 1];
    assert first.pairHandlerOffset == PairIndex(first, second) * 8;
    var handler := PAIR_HANDLERS[first.pairHandlerOffset / 8];
    ExecuteKnown(handler.0, ds, first, prog[2 * p]);
    assert ds[..] == After(prog, 2 * p + 1, start);
    ExecuteKnown(handler.1, ds, second, prog[2 * p + 1]);
  }

  /** `execute_compact_unchecked`: chunks of sixteen pairs, the remaining pairs, an odd last instruction. */
  method ExecuteUnchecked(exec: seq<ExecInstr>, ds: array<u64>, ghost prog: seq<ScInstr>)
    requires ds.Length == 8 && Program(prog) && Predecoded(exec, prog)
    modifies ds
    ensures ds[..] == After(prog, |prog|, old(ds[..]))
  {
    hide Step, WellFormed, Decodes, Paired;
    ghost var start := ds[..];
    var p := ExecutePairs(exec, ds, prog, start);
    if 2 * p < |exec| {
      ExecuteKnown(Number(exec[2 * p].opcode), ds, exec[2 * p], prog[2 * p]);
    }
  }

  method ExecutePairs(exec: seq<ExecInstr>, ds: array<u64>, ghost prog: seq<ScInstr>, ghost start: Registers)
    returns (p: nat)
    requires Predecoded(exec, prog) && Reached(ds[..], prog, 0, start)
    modifies ds
    ensures p == |exec| / 2 && Reached(ds[..], prog, 2 * p, start)
  {
    hide Reached, Predecoded;
    p := 0;
    while |exec| - 2 * p >= 32
      invariant 2 * p <= |exec| && Reached(ds[..], prog, 2 * p, start)
    {
      ExecuteChunk(exec, p, ds, prog, start);
      p := p + 16;
    }
    while |exec| - 2 * p >= 2
      invariant 2 * p <= |exec| && Reached(ds[..], prog, 2 * p, start)
    {
      ExecutePair(exec, p, ds, prog, start);
      p := p + 1;
    }
  }

  method ExecuteChunk(exec: seq<ExecInstr>, p: nat, ds: array<u64>, ghost prog: seq<ScInstr>, ghost start: Registers)
    requires Predecoded(exec, prog) && 2 * p + 32 <= |exec| && Reached(ds[..], prog, 2 * p, start)
    modifies ds
    ensures Reached(ds[..], prog, 2 * p + 32, start)
  {
    hide Reached, Predecoded;
    ExecutePair(exec, p, ds, prog, start);
    ExecutePair(exec, p + 1, ds, prog, start);
    ExecutePair(exec, p + 2, ds, prog, start);
    ExecutePair(exec, p + 3, ds, prog, start);
    ExecutePair(exec, p + 4, ds, prog, start);
    ExecutePair(exec, p + 5, ds, prog, start);
    ExecutePair(exec, p + 6, ds, prog, start);
    ExecutePair(exec, p + 7, ds, prog, start);
    ExecutePair(exec, p + 8, ds, prog, start);
    ExecutePair(exec, p + 9, ds, prog, start);
    ExecutePair(exec, p + 10, ds, prog, start);
    ExecutePair(exec, p + 11, ds, prog, start);
    ExecutePair(exec, p + 12, ds, prog, start);
    ExecutePair(exec, p + 13, ds, prog, start);
    ExecutePair(exec, p + 14, ds, prog, start);
    ExecutePair(exec, p + 15, ds, prog, start);
  }

  /** `execute_reference`. */
  method ExecuteReference(prog: seq<ScInstr>, ds: array<u64>)
    requires ds.Length == 8 && Program(prog)
    modifies ds
    ensures ds[..] == After(prog, |prog|, old(ds[..]))
  {
    hide Step, WellFormed;
    ghost var start := ds[..];
    for k := 0 to |prog|
      invariant ds[..] == After(prog, k, start)
    {
      ReferenceStep(prog[k], ds);
    }
  }

  method ReferenceStep(i: ScInstr, ds: array<u64>)
    requires ds.Length == 8 && WellFormed(i)
    modifies ds
    ensures ds[..] == Step(i, old(ds[..]))
  {
    hide WSub, WMul, WAdd, Xor64, Shl64, RotateRight, Mulh, Smulh, Extended, ModShift, Reciprocal, IsZeroOrPowerOfTwo;
    var d := ds[i.dst];
    match i.op {
      case ISUB_R => ds[i.dst] := WSub(d, ds[i.src]);
      case IXOR_R => ds[i.dst] := Xor64(d, ds[i.src]);
      case IADD_RS => ds[i.dst] := WAdd(d, Shl64(ds[i.src], ModShift(i.modV)));
      case IMUL_R => ds[i.dst] := WMul(d, ds[i.src]);
      case IROR_C => ds[i.dst] := RotateRight(d, i.imm32);
      case IADD_C7 | IADD_C8 | IADD_C9 => ds[i.dst] := WAdd(d, Extended(i.imm32));
      case IXOR_C7 | IXOR_C8 | IXOR_C9 => ds[i.dst] := Xor64(d, Extended(i.imm32));
      case IMULH_R => ds[i.dst] := Mulh(d, ds[i.src]);
      case ISMULH_R => ds[i.dst] := Smulh(d, ds[i.src]);
      case IMUL_RCP =>
        var rcp := RandomxReciprocal(i.imm32);
        ds[i.dst] := WMul(d, rcp);
    }
  }
}
