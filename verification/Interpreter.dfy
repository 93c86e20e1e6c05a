/** The compact interpreter as it runs: registers and scratchpad updated in place (`randomx-sp1/src/lib.rs`). */
module Interpreter {
  import opened Words
  import opened Machine
  import opened Termination
  import opened Iterations
  import C = Compact

  /** The last-writer table, updated in place while a program is decoded. */
  method DecodeInstruction(raw: u64, index: int, usage: array<int>) returns (instr: C.Instr)
    requires usage.Length == 8
    modifies usage
    ensures var d := C.DecodeInstruction(raw, old(usage[..]));
      instr == d.instr && usage[..] == C.Touch(old(usage[..]), d.touched, index)
  {
    var d := C.DecodeInstruction(raw, usage[..]);
    instr := d.instr;
    TouchedRegisters(raw, usage[..]);
    match d.touched {
      case TouchNone =>
      case TouchOne(q) =>
        usage[q] := index;
      case TouchTwo(q, s) =>
        usage[q] := index;
        usage[s] := index;
      case TouchAll =>
        for k := 0 to 8
          invariant forall j :: 0 <= j < k ==> usage[j] == index
        {
          usage[k] := index;
        }
    }
  }

  lemma TouchedRegisters(raw: u64, usage: seq<int>)
    requires |usage| == 8
    ensures var t := C.DecodeInstruction(raw, usage).touched;
      (t.TouchOne? ==> t.reg < 8) && (t.TouchTwo? ==> t.reg < 8 && t.other < 8)
  {
    hide BitAnd, SignExtend32, C.New, C.DecodeMemory, C.DecodeRegOrImm, C.DecodeFloat, C.Increment;
  }

  /** `CompactProgram::from_bytes`: two instructions out of every 128-bit word. */
  method DecodeProgram(words: seq<u64>) returns (p: seq<C.Instr>)
    requires |words| % 2 == 0
    ensures p == C.Decode(words)
  {
    var usage := new int[8](_ => -1);
    p := [];
    for k := 0 to |words| / 2
      invariant p == C.Decode(words[..2 * k])
      invariant usage[..] == C.UsageAfter(words[..2 * k])
    {
      var low := DecodeInstruction(words[2 * k], 2 * k, usage);
      p := p + [low];
      assert words[..2 * k + 1][..2 * k] == words[..2 * k];
      assert p == C.Decode(words[..2 * k + 1]);
      assert usage[..] == C.UsageAfter(words[..2 * k + 1]);
      var high := DecodeInstruction(words[2 * k + 1], 2 * k + 1, usage);
      p := p + [high];
      assert words[..2 * k + 2][..2 * k + 1] == words[..2 * k + 1];
    }
    assert words[..2 * (|words| / 2)] == words;
  }

  class Vm {
    const r: array<u64>
    const f: array<Lanes>
    const e: array<Lanes>
    const a: array<Lanes>
    const pad: array<u64>
    var pc: int
    var mode: RoundingMode
    var eMask: Lanes
    var readReg: seq<nat>
    var datasetOffset: nat
    var mx: u64
    var ma: u64

    ghost predicate Valid()
      reads this
    {
      && r.Length == 8 && f.Length == 4 && e.Length == 4 && a.Length == 4
      && pad.Length == SCRATCHPAD_WORDS
      && r != pad && f != e && f != a && e != a
      && |readReg| == 4 && (forall k :: 0 <= k < 4 ==> readReg[k] < 8)
    }

    ghost function State(): Machine.Vm
      reads this, r, f, e, a, pad
    {
      Machine.Vm(r[..], f[..], e[..], a[..], pad[..], pc, mode, eMask, readReg, datasetOffset, mx, ma)
    }

    /** `new_vm`: a zeroed machine. */
    constructor ()
      ensures Valid() && State().Valid()
      ensures fresh(r) && fresh(f) && fresh(e) && fresh(a) && fresh(pad)
      ensures forall k :: 0 <= k < SCRATCHPAD_WORDS ==> pad[k] == 0
    {
      r := new u64[8](_ => 0);
      f := new Lanes[4](_ => Lanes(0, 0));
      e := new Lanes[4](_ => Lanes(0, 0));
      a := new Lanes[4](_ => Lanes(0, 0));
      pad := new u64[SCRATCHPAD_WORDS](_ => 0);
      pc, mode, eMask, readReg := 0, Nearest, Lanes(0, 0), [0, 0, 0, 0];
      datasetOffset, mx, ma := 0, 0, 0;
    }

    method Load(i: C.Instr) returns (w: u64)
      requires Valid() && C.MemoryOperand(i)
      ensures w == C.Loaded(State(), i)
    {
      var address := if i.src == C.NO_REG then i.imm else WAdd(r[i.src / 8], i.imm);
      OffsetInBounds(address, i.memoryMask);
      w := pad[BitAnd(address, i.memoryMask) / 8];
    }

    /** The integer effects with one destination register. */
    method ExecuteInteger(i: C.Instr)
      requires Valid() && C.Fits(i) && C.WritesOne(i.effect)
      modifies r
      ensures State() == C.SetR(old(State()), i.dst, C.Alu(old(State()), i))
    {
      hide C.Combine, BitAnd;
      var s := i.imm;
      if C.ReadsRegister(i.effect) {
        s := r[i.src / 8];
      } else if C.ReadsMemory(i.effect) {
        s := Load(i);
      }
      r[i.dst / 8] := C.Combine(i, r[i.dst / 8], s);
    }

    method ExecuteFloat(fpu: Fpu, i: C.Instr)
      requires Valid() && C.Fits(i) && C.IsFloat(i.effect)
      modifies f, e
      ensures State() == C.ExecFloat(fpu, old(State()), i)
    {
      hide BitAnd, C.Loaded, Lift2, Convert, MaskExponentMantissa, XorLanes, SwapLanes;
      var d := i.dst / 16;
      match i.effect {
        case FswapF => f[d] := SwapLanes(f[d]);
        case FswapE => e[d] := SwapLanes(e[d]);
        case FaddR => f[d] := Lift2(fpu.add, mode, f[d], a[i.src / 16]);
        case FaddM =>
          var w := Load(i);
          f[d] := Lift2(fpu.add, mode, f[d], Convert(fpu, w));
        case FsubR => f[d] := Lift2(fpu.sub, mode, f[d], a[i.src / 16]);
        case FsubM =>
          var w := Load(i);
          f[d] := Lift2(fpu.sub, mode, f[d], Convert(fpu, w));
        case FscalR => f[d] := XorLanes(f[d], Lanes(C.FSCAL_MASK, C.FSCAL_MASK));
        case FmulR => e[d] := Lift2(fpu.mul, mode, e[d], a[i.src / 16]);
        case FdivM =>
          var w := Load(i);
          var v := Convert(fpu, w);
          var divisor := MaskExponentMantissa(eMask, v);
          e[d] := Lift2(fpu.div, mode, e[d], divisor);
        case FsqrtR => e[d] := Lanes(fpu.sqrt(mode, e[d].low), fpu.sqrt(mode, e[d].high));
      }
    }

    /** One dispatched effect. */
    method Execute(fpu: Fpu, i: C.Instr)
      requires Valid() && C.Fits(i)
      modifies this`pc, this`mode, r, f, e, pad
      ensures Valid() && State() == C.Exec(fpu, old(State()), i)
    {
      hide BitAnd, C.Combine, C.ExecFloat, C.Alu;
      if C.WritesOne(i.effect) {
        ExecuteInteger(i);
      } else if C.IsFloat(i.effect) {
        ExecuteFloat(fpu, i);
      } else {
        match i.effect {
          case IswapR =>
            var source, destination := r[i.src / 8], r[i.dst / 8];
            r[i.dst / 8] := source;
            r[i.src / 8] := destination;
          case Cbranch =>
            var destination := WAdd(r[i.dst / 8], i.imm);
            r[i.dst / 8] := destination;
            if C.ConditionHolds(destination, i.mode) {
              pc := i.target;
            }
          case Cfround =>
            mode := ModeOf(BitAnd(RotateRight(r[i.src / 8], i.imm % TWO32), 3));
          case Istore =>
            var address := WAdd(r[i.dst / 8], i.imm);
            OffsetInBounds(address, i.memoryMask);
            pad[BitAnd(address, i.memoryMask) / 8] := r[i.src / 8];
          case _ =>
        }
      }
    }

    /**
     * The `while pc < PROGRAM_SIZE` loop: it ends, after at most three turns per instruction, and
     * every fetch it makes is in bounds.
     */
    method RunInstructions(fpu: Fpu, p: seq<C.Instr>, ghost words: seq<u64>)
      requires Valid() && State().Valid() && p == C.Decode(words) && pc == 0
      modifies this`pc, this`mode, r, f, e, pad
      ensures Valid() && State() == Finish(fpu, words, old(State()))
    {
      hide C.Exec, C.Fits, C.Decode, Trace;
      ghost var start, n := State(), 0;
      ghost var bound := 3 * |words|;
      DecodedIsRunnable(words);
      IterationTerminates(fpu, words, start);
      TraceStart(fpu, p, start);
      while pc < |p|
        invariant Valid() && n <= bound
        invariant State() == Trace(fpu, p, start, n).vm
        decreases bound - n
      {
        assert n < bound;
        TraceNext(fpu, p, start, n);
        Execute(fpu, p[pc]);
        pc := pc + 1;
        n := n + 1;
      }
      TraceStable(fpu, p, start, n, bound);
    }

    /** The register loop shared by the scratchpad and the dataset line. */
    method XorInto(line: seq<u64>)
      requires Valid() && |line| == 8
      modifies r
      ensures r[..] == XorWords(old(r[..]), line)
    {
      hide Xor64;
      for i := 0 to 8
        invariant forall j :: 0 <= j < i ==> r[j] == Xor64(old(r[j]), line[j])
        invariant forall j :: i <= j < 8 ==> r[j] == old(r[j])
      {
        r[i] := Xor64(r[i], line[i]);
      }
      ghost var w := XorWords(old(r[..]), line);
      assert forall j :: 0 <= j < 8 ==> r[..][j] == w[j];
    }

    method LoadFloats(fpu: Fpu, line: nat)
      requires Valid() && line + 8 <= SCRATCHPAD_WORDS
      modifies f, e
      ensures f[..] == LoadedF(fpu, pad[..], line) && e[..] == LoadedE(fpu, eMask, pad[..], line)
    {
      hide Convert, MaskExponentMantissa;
      for i := 0 to 4
        invariant forall j :: 0 <= j < i ==> f[j] == Convert(fpu, pad[line + j])
      {
        f[i] := Convert(fpu, pad[line + i]);
      }
      for i := 0 to 4
        invariant forall j :: 0 <= j < i ==> e[j] == MaskExponentMantissa(eMask, Convert(fpu, pad[line + 4 + j]))
        invariant forall j :: 0 <= j < 4 ==> f[j] == Convert(fpu, pad[line + j])
      {
        e[i] := MaskExponentMantissa(eMask, Convert(fpu, pad[line + 4 + i]));
      }
    }

    /** Loads the registers from the two scratchpad lines. */
    method MixIn(fpu: Fpu, line0: nat, line1: nat)
      requires Valid() && State().Valid()
      requires line0 + 8 <= SCRATCHPAD_WORDS && line1 + 8 <= SCRATCHPAD_WORDS
      modifies this`pc, r, f, e
      ensures Valid() && State() == Machine.MixIn(fpu, old(State()), line0, line1)
    {
      hide XorWords, LoadedF;
      XorInto(pad[line0..line0 + 8]);
      LoadFloats(fpu, line1);
      pc := 0;
    }

    method MergeFloats()
      requires Valid()
      modifies f
      ensures f[..] == MergedFloats(old(f[..]), e[..])
    {
      hide Xor64;
      for i := 0 to 4
        invariant forall j :: 0 <= j < i ==> f[j] == XorLanes(old(f[j]), e[j])
        invariant forall j :: i <= j < 4 ==> f[j] == old(f[j])
      {
        f[i] := XorLanes(f[i], e[i]);
      }
      ghost var w := MergedFloats(old(f[..]), e[..]);
      assert forall j :: 0 <= j < 4 ==> f[..][j] == w[j];
    }

    /** Reads the dataset, writes the integer registers to one line and `f xor e` to the other. */
    method MixOut(dataset: Dataset, line0: nat, line1: nat)
      requires Valid() && State().Valid() && MemoryRegistersOk(State())
      requires line0 + 8 <= SCRATCHPAD_WORDS && line1 + 8 <= SCRATCHPAD_WORDS
      modifies this`mx, this`ma, r, f, pad
      ensures Valid() && State() == Machine.MixOut(dataset, old(State()), line0, line1)
    {
      hide Xor64, And64, XorWords, MergedFloats, Interleave;
      var mixed := Xor64(mx, Xor64(r[readReg[2]], r[readReg[3]]));
      XorInto(DatasetRead(dataset, datasetOffset + ma));
      mx, ma := ma, And64(mixed, CACHE_LINE_ALIGN_MASK);
      WriteBack(line0, line1);
    }

    /** The write-back of both lines. */
    method WriteBack(line0: nat, line1: nat)
      requires Valid() && line0 + 8 <= SCRATCHPAD_WORDS && line1 + 8 <= SCRATCHPAD_WORDS
      modifies f, pad
      ensures f[..] == MergedFloats(old(f[..]), e[..])
      ensures pad[..] == (var p := old(pad[..line1]) + r[..] + old(pad[line1 + 8..]);
                          p[..line0] + Interleave(f[..]) + p[line0 + 8..])
    {
      hide MergedFloats, Interleave;
      StoreLine(line1);
      ghost var p := pad[..];
      MergeFloats();
      StoreFloats(line0);
      assert pad[..] == p[..line0] + Interleave(f[..]) + p[line0 + 8..];
    }

    method StoreLine(line: nat)
      requires Valid() && line + 8 <= SCRATCHPAD_WORDS
      modifies pad
      ensures pad[..] == old(pad[..line]) + r[..] + old(pad[line + 8..])
    {
      for i := 0 to 8
        invariant forall j :: 0 <= j < i ==> pad[line + j] == r[j]
        invariant forall j :: 0 <= j < pad.Length && !(line <= j < line + i) ==> pad[j] == old(pad[j])
      {
        pad[line + i] := r[i];
      }
    }

    method StoreFloats(line: nat)
      requires Valid() && line + 8 <= SCRATCHPAD_WORDS
      modifies pad
      ensures pad[..] == old(pad[..line]) + Interleave(f[..]) + old(pad[line + 8..])
    {
      for i := 0 to 4
        invariant forall j :: 0 <= j < i ==> pad[line + 2 * j] == f[j].low && pad[line + 2 * j + 1] == f[j].high
        invariant forall j :: 0 <= j < pad.Length && !(line <= j < line + 2 * i) ==> pad[j] == old(pad[j])
      {
        pad[line + 2 * i] := f[i].low;
        pad[line + 2 * i + 1] := f[i].high;
      }
      Stored(old(pad[..]), line, Interleave(f[..]), pad[..], f[..]);
    }

    /** `init_vm`. */
    method Init(entropy: seq<u64>)
      requires Valid() && State().Valid() && |entropy| == 16
      modifies this`ma, this`mx, this`readReg, this`datasetOffset, this`eMask, a, r
      ensures Valid() && State() == InitVm(old(State()), entropy)
    {
      hide InitialA, FloatMask, And64, ReadRegisters, DatasetOffset;
      InitFloats(entropy);
      ma := And64(entropy[8], CACHE_LINE_ALIGN_MASK) % TWO32;
      mx := entropy[10] % TWO32;
      readReg := ReadRegisters(entropy[12]);
      datasetOffset := DatasetOffset(entropy[13]);
      eMask := Lanes(FloatMask(entropy[14]), FloatMask(entropy[15]));
      ClearRegisters();
    }

    method InitFloats(entropy: seq<u64>)
      requires Valid() && |entropy| == 16
      modifies a
      ensures a[..] == InitialA(entropy)
    {
      hide SmallPositiveFloatBits;
      for i := 0 to 4
        invariant forall j :: 0 <= j < i ==>
          a[j] == Lanes(SmallPositiveFloatBits(entropy[2 * j]), SmallPositiveFloatBits(entropy[2 * j + 1]))
      {
        a[i] := Lanes(SmallPositiveFloatBits(entropy[2 * i]), SmallPositiveFloatBits(entropy[2 * i + 1]));
      }
      ghost var w := InitialA(entropy);
      assert forall j :: 0 <= j < 4 ==> a[..][j] == w[j];
    }

    method ClearRegisters()
      requires Valid()
      modifies r
      ensures r[..] == seq(8, _ => 0)
    {
      for i := 0 to 8
        invariant forall j :: 0 <= j < i ==> r[j] == 0
      {
        r[i] := 0;
      }
    }

    /** `run`: one program image, 2048 iterations. */
    method Run(fpu: Fpu, dataset: Dataset, image: seq<u64>)
      requires Valid() && State().Valid() && |image| == 272
      modifies this, r, f, e, a, pad
      ensures Valid() && State() == RunProgram(fpu, dataset, image, old(State()))
    {
      hide Machine.MixIn, Machine.MixOut, Finish, InitVm, C.Decode, Lines, Trace;
      ghost var words := image[16..];
      var p := DecodeProgram(image[16..]);
      Init(image[..16]);
      ghost var start := State();
      var sp0, sp1 := mx % TWO32, ma % TWO32;
      for n := 0 to PROGRAM_ITERATIONS
        invariant Valid() && State().Valid() && MemoryRegistersOk(State())
        invariant State() == RunFor(fpu, dataset, words, start, n)
        invariant sp0 == (if n == 0 then start.mx % TWO32 else 0)
        invariant sp1 == (if n == 0 then start.ma % TWO32 else 0)
      {
        ghost var before := State();
        var line0, line1 := SelectLines(sp0, sp1);
        MixIn(fpu, line0, line1);
        MixInFacts(fpu, before, line0, line1);
        IterationTerminates(fpu, words, State());
        TraceKeepsConfig(fpu, C.Decode(words), State(), 3 * |words|);
        FinishIsTrace(fpu, words, State());
        RunInstructions(fpu, p, words);
        MixOut(dataset, line0, line1);
        assert State() == Iteration(fpu, dataset, words, before, sp0, sp1);
        sp0, sp1 := 0, 0;
      }
    }

    method SelectLines(sp0: u32, sp1: u32) returns (line0: nat, line1: nat)
      requires Valid() && State().Valid()
      ensures (line0, line1) == Lines(State(), sp0, sp1)
    {
      var mix := Xor64(r[readReg[0]], r[readReg[1]]);
      line0 := LineIndex(Xor32(sp0, mix % TWO32));
      line1 := LineIndex(Xor32(sp1, mix / TWO32));
    }
  }

  /** A line whose words are the interleaved lanes, in a scratchpad otherwise unchanged. */
  lemma Stored(was: seq<u64>, line: nat, w: seq<u64>, now: seq<u64>, f: seq<Lanes>)
    requires |was| == |now| && line + 8 <= |was| && |f| == 4 && w == Interleave(f)
    requires forall j :: 0 <= j < 4 ==> now[line + 2 * j] == f[j].low && now[line + 2 * j + 1] == f[j].high
    requires forall j :: 0 <= j < |was| && !(line <= j < line + 8) ==> now[j] == was[j]
    ensures now == was[..line] + w + was[line + 8..]
  {
    assert now[line + 2 * 0] == w[0] && now[line + 2 * 0 + 1] == w[1];
    assert now[line + 2 * 1] == w[2] && now[line + 2 * 1 + 1] == w[3];
    assert now[line + 2 * 2] == w[4] && now[line + 2 * 2 + 1] == w[5];
    assert now[line + 2 * 3] == w[6] && now[line + 2 * 3 + 1] == w[7];
    assert forall j :: 0 <= j < 8 ==> now[line + j] == w[j];
    assert forall j :: 0 <= j < |was| ==> now[j] == (was[..line] + w + was[line + 8..])[j];
  }

  lemma FinishIsTrace(fpu: Fpu, words: seq<u64>, vm: Machine.Vm)
    requires vm.Valid() && vm.pc == 0
    ensures Runnable(C.Decode(words))
    ensures Finish(fpu, words, vm) == Trace(fpu, C.Decode(words), vm, 3 * |words|).vm
  {
    IterationTerminates(fpu, words, vm);
  }

  lemma TraceStart(fpu: Fpu, p: seq<C.Instr>, vm: Machine.Vm)
    requires Runnable(p) && vm.Valid() && vm.pc == 0
    ensures Trace(fpu, p, vm, 0).vm == vm
  {
  }

  /** The next fetch is in bounds, and the trace continues with its effect. */
  lemma TraceNext(fpu: Fpu, p: seq<C.Instr>, vm: Machine.Vm, n: nat)
    requires Runnable(p) && vm.Valid() && vm.pc == 0
    requires Trace(fpu, p, vm, n).vm.pc < |p|
    ensures var v := Trace(fpu, p, vm, n).vm;
      && 0 <= v.pc && v.Valid() && C.Fits(p[v.pc])
      && Trace(fpu, p, vm, n + 1).vm == C.Exec(fpu, v, p[v.pc]).(pc := C.Exec(fpu, v, p[v.pc]).pc + 1)
  {
    hide C.Exec, C.Fits, IsTaken;
  }
}
