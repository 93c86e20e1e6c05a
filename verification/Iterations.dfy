/** Whole runs: 2048 iterations of mixing in, executing the program and mixing out. */
module Iterations {
  import opened Words
  import opened Wrappers
  import opened Machine
  import opened Termination
  import C = Compact
  import Rf = Reference
  import opened ReferenceRuns
  import Refinement

  // ---------- what a program cannot change ----------

  /** The configuration and the memory registers, which no instruction writes. */
  ghost predicate SameConfig(v: Vm, w: Vm)
  {
    && v.a == w.a && v.eMask == w.eMask && v.readReg == w.readReg
    && v.datasetOffset == w.datasetOffset && v.mx == w.mx && v.ma == w.ma
  }

  lemma ExecKeepsConfig(fpu: Fpu, vm: Vm, i: C.Instr)
    requires vm.Valid() && C.Fits(i)
    ensures SameConfig(C.Exec(fpu, vm, i), vm)
  {
    hide C.Alu, BitAnd, WAdd, RotateRight;
  }

  lemma {:induction false} TraceKeepsConfig(fpu: Fpu, p: seq<C.Instr>, vm: Vm, n: nat)
    requires Runnable(p) && vm.Valid() && vm.pc == 0
    ensures SameConfig(Trace(fpu, p, vm, n).vm, vm)
  {
    hide C.Exec, C.Fits, IsTaken;
    if n > 0 {
      TraceKeepsConfig(fpu, p, vm, n - 1);
      var run := Trace(fpu, p, vm, n - 1);
      if run.vm.pc < |p| {
        ExecKeepsConfig(fpu, run.vm, p[run.vm.pc]);
      }
    }
  }

  // ---------- one iteration, and a run of them ----------

  /** The two scratchpad lines an iteration works on. */
  function Lines(vm: Vm, sp0: u32, sp1: u32): (l: (nat, nat))
    requires vm.Valid()
    ensures l.0 + 8 <= SCRATCHPAD_WORDS && l.1 + 8 <= SCRATCHPAD_WORDS
  {
    var mix := Xor64(vm.r[vm.readReg[0]], vm.r[vm.readReg[1]]);
    var address0, address1 := Xor32(sp0, mix % TWO32), Xor32(sp1, mix / TWO32);
    LineFits(address0);
    LineFits(address1);
    (LineIndex(address0), LineIndex(address1))
  }

  /** `MixOut` is defined after the program: the memory registers are still in range. */
  ghost function Iteration(fpu: Fpu, dataset: Dataset, words: seq<u64>, vm: Vm, sp0: u32, sp1: u32): (v: Vm)
    requires vm.Valid() && MemoryRegistersOk(vm)
    ensures v.Valid() && MemoryRegistersOk(v)
  {
    var (line0, line1) := Lines(vm, sp0, sp1);
    var start := MixIn(fpu, vm, line0, line1);
    IterationTerminates(fpu, words, start);
    TraceKeepsConfig(fpu, C.Decode(words), start, 3 * |words|);
    MixOut(dataset, Finish(fpu, words, start), line0, line1)
  }

  /** `n` iterations; only the first one sees the initial scratchpad addresses. */
  ghost function RunFor(fpu: Fpu, dataset: Dataset, words: seq<u64>, vm: Vm, n: nat): (v: Vm)
    requires vm.Valid() && MemoryRegistersOk(vm)
    ensures v.Valid() && MemoryRegistersOk(v)
  {
    if n == 0 then vm
    else if n == 1 then Iteration(fpu, dataset, words, vm, vm.mx % TWO32, vm.ma % TWO32)
    else Iteration(fpu, dataset, words, RunFor(fpu, dataset, words, vm, n - 1), 0, 0)
  }

  /** `run` on a program image of 16 entropy words and 256 instruction words. */
  ghost function RunProgram(fpu: Fpu, dataset: Dataset, image: seq<u64>, vm: Vm): (v: Vm)
    requires vm.Valid() && |image| == 272
    ensures v.Valid() && MemoryRegistersOk(v)
  {
    RunFor(fpu, dataset, image[16..], InitVm(vm, image[..16]), PROGRAM_ITERATIONS)
  }

  // ---------- refinement of whole runs ----------

  /** Decoding a whole program: equal usage tables, and instruction by instruction the same effect. */
  lemma {:induction false} ProgramRefines(words: seq<u64>, fpu: Fpu, vm: Vm, k: nat)
    requires vm.Valid() && Machine.Commutative(fpu)
    ensures Rf.Decode(words).1 == C.UsageAfter(words)
    ensures k < |words| ==> Refinement.Agrees(fpu, vm, Rf.Decode(words).0[k], C.Decode(words)[k])
  {
    hide Refinement.Agrees, Rf.DecodeInstruction, C.DecodeInstruction, C.Touch;
    if |words| > 0 {
      var n := |words| - 1;
      ProgramRefines(words[..n], fpu, vm, k);
      Refinement.WordRefines(fpu, vm, words[n], n, C.UsageAfter(words[..n]));
    }
  }

  /** One turn of the reference loop is one step of the compact one. */
  ghost predicate StepAgrees(fpu: Fpu, rp: seq<Rf.Instr>, p: seq<C.Instr>, v: Vm)
    requires Runnable(p) && v.Valid() && 0 <= v.pc < |p| == |rp|
  {
    var w := Rf.Execute(fpu, v, rp[v.pc]);
    w.Ok? && w.value.(pc := w.value.pc + 1) == Step(fpu, p, v)
  }

  lemma StepRefines(fpu: Fpu, words: seq<u64>, v: Vm)
    requires Runnable(C.Decode(words)) && v.Valid() && 0 <= v.pc < |words| && Machine.Commutative(fpu)
    ensures StepAgrees(fpu, Rf.Decode(words).0, C.Decode(words), v)
  {
    hide C.Exec, C.Fits, Rf.Execute, Rf.Decode, C.Decode, Machine.Commutative, Runnable, Refinement.Agrees, Step;
    hide StepAgrees;
    ProgramRefines(words, fpu, v, v.pc);
    AgreeingStep(fpu, Rf.Decode(words).0, C.Decode(words), v);
  }

  lemma AgreeingStep(fpu: Fpu, rp: seq<Rf.Instr>, p: seq<C.Instr>, v: Vm)
    requires Runnable(p) && v.Valid() && 0 <= v.pc < |p| == |rp|
    requires Refinement.Agrees(fpu, v, rp[v.pc], p[v.pc])
    ensures StepAgrees(fpu, rp, p, v)
  {
    hide C.Exec, C.Fits, Rf.Execute;
  }

  lemma {:induction false} StepsRefine(fpu: Fpu, words: seq<u64>, vm: Vm, n: nat)
    requires vm.Valid() && vm.pc == 0 && Machine.Commutative(fpu) && Runnable(C.Decode(words))
    ensures ReferenceSteps(fpu, Rf.Decode(words).0, vm, n) == Ok(Trace(fpu, C.Decode(words), vm, n).vm)
  {
    hide Step, Rf.Execute, Rf.Decode, C.Decode, IsTaken, Machine.Commutative, Runnable;
    if n > 0 {
      StepsRefine(fpu, words, vm, n - 1);
      var v := Trace(fpu, C.Decode(words), vm, n - 1).vm;
      if v.pc < |words| {
        StepRefines(fpu, words, v);
      }
    }
  }

  lemma IterationRefines(fpu: Fpu, dataset: Dataset, words: seq<u64>, vm: Vm, sp0: u32, sp1: u32)
    requires vm.Valid() && MemoryRegistersOk(vm) && Machine.Commutative(fpu)
    ensures ReferenceIteration(fpu, dataset, words, vm, sp0, sp1) == Ok(Iteration(fpu, dataset, words, vm, sp0, sp1))
  {
    hide MixIn, MixOut, ReferenceMixIn, ReferenceMixOut, Trace, ReferenceSteps, Machine.Commutative, C.Decode, Rf.Decode;
    hide LineIndex, BitAnd;
    var (line0, line1) := Lines(vm, sp0, sp1);
    var mix := Xor64(vm.r[vm.readReg[0]], vm.r[vm.readReg[1]]);
    LineIsQuotient(Xor32(sp0, mix % TWO32));
    LineIsQuotient(Xor32(sp1, mix / TWO32));
    var start := MixIn(fpu, vm, line0, line1);
    MixInRefines(fpu, vm, line0, line1);
    MixInFacts(fpu, vm, line0, line1);
    IterationTerminates(fpu, words, start);
    TraceKeepsConfig(fpu, C.Decode(words), start, 3 * |words|);
    StepsRefine(fpu, words, start, 3 * |words|);
    MixOutRefines(dataset, Finish(fpu, words, start), line0, line1);
  }

  lemma MixInFacts(fpu: Fpu, vm: Vm, line0: nat, line1: nat)
    requires vm.Valid() && line0 + 8 <= SCRATCHPAD_WORDS && line1 + 8 <= SCRATCHPAD_WORDS
    ensures var v := MixIn(fpu, vm, line0, line1);
      v.pc == 0 && SameConfig(v, vm)
  {
  }

  lemma {:induction false} RunForRefines(fpu: Fpu, dataset: Dataset, words: seq<u64>, vm: Vm, n: nat)
    requires vm.Valid() && MemoryRegistersOk(vm) && Machine.Commutative(fpu)
    ensures ReferenceRunFor(fpu, dataset, words, vm, n) == Ok(RunFor(fpu, dataset, words, vm, n))
  {
    hide Iteration, ReferenceIteration, Machine.Commutative;
    if n == 1 {
      IterationRefines(fpu, dataset, words, vm, vm.mx % TWO32, vm.ma % TWO32);
    } else if n > 1 {
      RunForRefines(fpu, dataset, words, vm, n - 1);
      IterationRefines(fpu, dataset, words, RunFor(fpu, dataset, words, vm, n - 1), 0, 0);
    }
  }

  /** The optimised run and the reference run end in the same machine state, without a panic. */
  lemma RunRefines(fpu: Fpu, dataset: Dataset, image: seq<u64>, vm: Vm)
    requires vm.Valid() && |image| == 272 && Machine.Commutative(fpu)
    ensures ReferenceRun(fpu, dataset, image, vm) == Ok(RunProgram(fpu, dataset, image, vm))
  {
    hide InitVm, Machine.Commutative;
    RunForRefines(fpu, dataset, image[16..], InitVm(vm, image[..16]), PROGRAM_ITERATIONS);
  }
}
