/** Execution counts of one program iteration, and the step bound they imply. */
module Termination {
  import opened Words
  import opened Machine
  import opened Compact
  import opened Branches

  /** Operands fit and branches lead backwards: what a run needs to be defined at all. */
  ghost predicate Runnable(p: seq<Instr>)
  {
    forall i :: 0 <= i < |p| ==> Fits(p[i]) && (p[i].effect == Cbranch ==> -1 <= p[i].target < i)
  }

  /** One turn of the `while vm.pc < PROGRAM_SIZE` loop. */
  ghost function Step(fpu: Fpu, p: seq<Instr>, vm: Vm): (v: Vm)
    requires Runnable(p) && vm.Valid() && 0 <= vm.pc < |p|
    ensures v.Valid() && 0 <= v.pc <= |p|
  {
    var v := Exec(fpu, vm, p[vm.pc]);
    assert v.pc == vm.pc || (p[vm.pc].effect == Cbranch && v.pc == p[vm.pc].target) by {
      if p[vm.pc].effect != Cbranch {
        OnlyBranchesJump(fpu, vm, p[vm.pc]);
      }
    }
    v.(pc := v.pc + 1)
  }

  /** A run together with how often each instruction was executed and each branch taken. */
  datatype Run = Run(vm: Vm, executed: seq<nat>, taken: seq<nat>)

  ghost predicate Shaped(p: seq<Instr>, run: Run)
  {
    run.vm.Valid() && 0 <= run.vm.pc <= |p| && |run.executed| == |p| && |run.taken| == |p|
  }

  ghost predicate IsTaken(fpu: Fpu, p: seq<Instr>, vm: Vm)
    requires Runnable(p) && vm.Valid() && 0 <= vm.pc < |p|
  {
    p[vm.pc].effect == Cbranch && ConditionHolds(WAdd(R(vm, p[vm.pc].dst), p[vm.pc].imm), p[vm.pc].mode)
  }

  ghost function Advance(fpu: Fpu, p: seq<Instr>, run: Run): (next: Run)
    requires Runnable(p) && Shaped(p, run)
    ensures Shaped(p, next)
  {
    if run.vm.pc == |p| then run
    else
      var k := run.vm.pc;
      Run(Step(fpu, p, run.vm),
          run.executed[k := run.executed[k] + 1],
          if IsTaken(fpu, p, run.vm) then run.taken[k := run.taken[k] + 1] else run.taken)
  }

  /** The first `n` steps of an iteration that starts at `vm`. */
  ghost function Trace(fpu: Fpu, p: seq<Instr>, vm: Vm, n: nat): (run: Run)
    requires Runnable(p) && vm.Valid() && vm.pc == 0
    ensures Shaped(p, run)
  {
    if n == 0 then Run(vm, seq(|p|, _ => 0), seq(|p|, _ => 0))
    else Advance(fpu, p, Trace(fpu, p, vm, n - 1))
  }

  // ---------- the invariant ----------

  /** `b` is the next branch at or after `k`, or the end of the program. */
  ghost predicate IsNextBranch(p: seq<Instr>, k: nat, b: nat)
  {
    && k <= b <= |p|
    && (forall j :: k <= j < b ==> p[j].effect != Cbranch)
    && (b < |p| ==> p[b].effect == Cbranch)
  }

  lemma {:induction false} FindNextBranch(p: seq<Instr>, k: nat) returns (b: nat)
    requires k <= |p|
    ensures IsNextBranch(p, k, b)
    decreases |p| - k
  {
    if k == |p| || p[k].effect == Cbranch {
      b := k;
    } else {
      b := FindNextBranch(p, k + 1);
    }
  }

  ghost predicate HasBranch(p: seq<Instr>)
  {
    exists j :: 0 <= j < |p| && p[j].effect == Cbranch
  }

  /** How often an instruction can run: three times, but once in a program without branches. */
  ghost function Cap(p: seq<Instr>): nat { if HasBranch(p) then 3 else 1 }

  ghost function RegionStart(p: seq<Instr>, b: nat): int
  {
    if b < |p| then p[b].target + 1 else |p|
  }

  ghost function TimesTaken(run: Run, b: nat): nat { if b < |run.taken| then run.taken[b] else 0 }

  /** The execution counts seen from the program counter, whose next branch is `b`. */
  ghost predicate Counts(p: seq<Instr>, run: Run, b: nat)
    requires Shaped(p, run)
  {
    var k, n, start := run.vm.pc, TimesTaken(run, b), RegionStart(p, b);
    && n <= 2
    && (n > 0 ==> start <= k)
    && (forall j :: 0 <= j < k ==> run.executed[j] <= Cap(p))
    && (forall j :: 0 <= j < k && start <= j ==> run.executed[j] == n + 1)
    && (forall j :: k <= j < |p| ==> run.executed[j] == if start <= j <= b then n else 0)
    && (forall j :: 0 <= j < |p| ==> run.taken[j] <= 2 && (j > b ==> run.taken[j] == 0))
  }

  /** After `n` taken branches the last `n` sums have cleared the condition byte. */
  ghost predicate Controlled(p: seq<Instr>, run: Run, b: nat)
    requires Shaped(p, run) && Structured(p)
  {
    b < |p| && p[b].effect == Cbranch ==>
      && (TimesTaken(run, b) >= 1 ==> ConditionHolds(R(run.vm, p[b].dst), p[b].mode))
      && (TimesTaken(run, b) >= 2 ==>
            ConditionHolds(WSub(R(run.vm, p[b].dst), p[b].imm), p[b].mode))
  }

  ghost predicate Inv(p: seq<Instr>, run: Run, b: nat)
    requires Structured(p)
  {
    Shaped(p, run) && IsNextBranch(p, run.vm.pc, b) && Counts(p, run, b) && Controlled(p, run, b)
  }

  lemma AddThenSub(d: u64, c: u64)
    ensures WSub(WAdd(d, c), c) == d && WAdd(WSub(d, c), c) == d
  {
  }

  /** A step that is not a branch. */
  lemma StraightStep(fpu: Fpu, p: seq<Instr>, run: Run, b: nat)
    requires Runnable(p) && Structured(p) && Inv(p, run, b)
    requires run.vm.pc < |p| && p[run.vm.pc].effect != Cbranch
    ensures Inv(p, Advance(fpu, p, run), b)
  {
    hide BitAnd, Writes;
    var k := run.vm.pc;
    var next := Advance(fpu, p, run);
    OnlyBranchesJump(fpu, run.vm, p[k]);
    assert next.vm.pc == k + 1 && next.taken == run.taken;
    if b < |p| && TimesTaken(run, b) > 0 {
      assert Region(p, b);
      ExecKeepsRegister(fpu, run.vm, p[k], p[b].dst / 8);
    }
  }

  /** A branch that is taken: it was taken at most once before. */
  lemma TakenStep(fpu: Fpu, p: seq<Instr>, run: Run)
    requires Runnable(p) && Structured(p) && 0 <= run.vm.pc < |p| && Inv(p, run, run.vm.pc)
    requires IsTaken(fpu, p, run.vm)
    ensures Inv(p, Advance(fpu, p, run), run.vm.pc)
  {
    hide BitAnd, Writes;
    var k := run.vm.pc;
    var i := p[k];
    var next := Advance(fpu, p, run);
    assert Region(p, k);
    var d := R(run.vm, i.dst);
    AddThenSub(d, i.imm);
    if run.taken[k] == 2 {
      NoThreeInARow(WSub(d, i.imm), i.imm, i.mode);
    }
    assert next.vm.pc == i.target + 1;
  }

  /** A branch that falls through is never reached again. */
  lemma FallThrough(fpu: Fpu, p: seq<Instr>, run: Run, b: nat)
    requires Runnable(p) && Structured(p) && 0 <= run.vm.pc < |p| && Inv(p, run, run.vm.pc)
    requires p[run.vm.pc].effect == Cbranch && !IsTaken(fpu, p, run.vm)
    requires IsNextBranch(p, run.vm.pc + 1, b)
    ensures Inv(p, Advance(fpu, p, run), b)
  {
    hide BitAnd, Writes;
    var k := run.vm.pc;
    var next := Advance(fpu, p, run);
    assert next.vm.pc == k + 1;
    if b < |p| {
      assert Region(p, b);
      assert RegionStart(p, b) > k;
    }
  }

  lemma AdvanceInv(fpu: Fpu, p: seq<Instr>, run: Run, b: nat) returns (b': nat)
    requires Runnable(p) && Structured(p) && Inv(p, run, b)
    ensures Inv(p, Advance(fpu, p, run), b')
  {
    var k := run.vm.pc;
    if k == |p| {
      b' := b;
    } else if p[k].effect != Cbranch {
      StraightStep(fpu, p, run, b);
      b' := b;
    } else if IsTaken(fpu, p, run.vm) {
      TakenStep(fpu, p, run);
      b' := k;
    } else {
      b' := FindNextBranch(p, k + 1);
      FallThrough(fpu, p, run, b');
    }
  }

  lemma {:induction false} TraceInv(fpu: Fpu, p: seq<Instr>, vm: Vm, n: nat) returns (b: nat)
    requires Runnable(p) && Structured(p) && vm.Valid() && vm.pc == 0
    ensures Inv(p, Trace(fpu, p, vm, n), b)
  {
    if n == 0 {
      b := FindNextBranch(p, 0);
    } else {
      b := TraceInv(fpu, p, vm, n - 1);
      b := AdvanceInv(fpu, p, Trace(fpu, p, vm, n - 1), b);
    }
  }

  // ---------- counting ----------

  /** Executions of the first `n` instructions; `Work` leaves the branches out. */
  ghost function Total(executed: seq<nat>, n: nat): nat
    requires n <= |executed|
  {
    if n == 0 then 0 else Total(executed, n - 1) + executed[n - 1]
  }

  ghost function Work(p: seq<Instr>, executed: seq<nat>, n: nat): nat
    requires n <= |p| == |executed|
  {
    if n == 0 then 0
    else Work(p, executed, n - 1) + if p[n - 1].effect == Cbranch then 0 else executed[n - 1]
  }

  ghost function BranchCount(p: seq<Instr>, n: nat): (c: nat)
    requires n <= |p|
    ensures c <= n
  {
    if n == 0 then 0 else BranchCount(p, n - 1) + if p[n - 1].effect == Cbranch then 1 else 0
  }

  lemma {:induction false} TotalIncrement(executed: seq<nat>, k: nat, n: nat)
    requires k < |executed| && n <= |executed|
    ensures Total(executed[k := executed[k] + 1], n) == Total(executed, n) + if k < n then 1 else 0
  {
    if n > 0 {
      TotalIncrement(executed, k, n - 1);
    }
  }

  lemma {:induction false} WorkIncrement(p: seq<Instr>, executed: seq<nat>, k: nat, n: nat)
    requires k < |executed| == |p| && n <= |p|
    ensures Work(p, executed[k := executed[k] + 1], n)
            == Work(p, executed, n) + if k < n && p[k].effect != Cbranch then 1 else 0
  {
    if n > 0 {
      WorkIncrement(p, executed, k, n - 1);
    }
  }

  lemma {:induction false} TotalBound(executed: seq<nat>, cap: nat, n: nat)
    requires n <= |executed| && forall j :: 0 <= j < n ==> executed[j] <= cap
    ensures Total(executed, n) <= cap * n
    ensures (exists j :: 0 <= j < n && executed[j] < cap) ==> Total(executed, n) < cap * n
  {
    if n > 0 {
      TotalBound(executed, cap, n - 1);
      assert cap * n == cap * (n - 1) + cap;
    }
  }

  lemma {:induction false} WorkBound(p: seq<Instr>, executed: seq<nat>, cap: nat, n: nat)
    requires n <= |p| == |executed| && forall j :: 0 <= j < n ==> executed[j] <= cap
    ensures Work(p, executed, n) <= cap * (n - BranchCount(p, n))
  {
    if n > 0 {
      WorkBound(p, executed, cap, n - 1);
      var c := n - 1 - BranchCount(p, n - 1);
      assert cap * (c + 1) == cap * c + cap;
    }
  }

  lemma {:induction false} BranchCounted(p: seq<Instr>, n: nat)
    requires n <= |p|
    ensures (exists j :: 0 <= j < n && p[j].effect == Cbranch) ==> BranchCount(p, n) > 0
  {
    if n > 0 {
      BranchCounted(p, n - 1);
    }
  }

  /** The number of non-branch instructions executed so far. */
  ghost function Effects(p: seq<Instr>, run: Run): nat
    requires Shaped(p, run)
  {
    Work(p, run.executed, |p|)
  }

  /** Every step is counted, until the program ends. */
  lemma {:induction false} StepsCounted(fpu: Fpu, p: seq<Instr>, vm: Vm, n: nat)
    requires Runnable(p) && vm.Valid() && vm.pc == 0
    ensures Trace(fpu, p, vm, n).vm.pc == |p| || Total(Trace(fpu, p, vm, n).executed, |p|) == n
  {
    hide Exec, Step, IsTaken, Fits, Runnable;
    if n == 0 {
      ZeroTotal(Trace(fpu, p, vm, 0).executed, |p|);
    } else {
      var before := Trace(fpu, p, vm, n - 1);
      StepsCounted(fpu, p, vm, n - 1);
      if before.vm.pc < |p| {
        TotalIncrement(before.executed, before.vm.pc, |p|);
      }
    }
  }

  lemma {:induction false} ZeroTotal(executed: seq<nat>, n: nat)
    requires n <= |executed| && forall j :: 0 <= j < n ==> executed[j] == 0
    ensures Total(executed, n) == 0
  {
    if n > 0 {
      ZeroTotal(executed, n - 1);
    }
  }

  lemma InvBounds(p: seq<Instr>, run: Run, b: nat)
    requires Structured(p) && Inv(p, run, b)
    ensures forall j :: 0 <= j < |p| ==> run.executed[j] <= Cap(p)
    ensures run.vm.pc < |p| ==> run.executed[run.vm.pc] < Cap(p)
  {
    var k := run.vm.pc;
    if b < |p| {
      assert HasBranch(p);
    }
  }

  // ---------- the theorems ----------

  lemma DecodedIsRunnable(words: seq<u64>)
    ensures Structured(Decode(words)) && Runnable(Decode(words))
  {
    DecodeStructured(words);
    var p := Decode(words);
    forall i | 0 <= i < |p|
      ensures Fits(p[i]) && (p[i].effect == Cbranch ==> -1 <= p[i].target < i)
    {
      assert Region(p, i);
    }
  }

  /** At every point of every iteration no branch was taken thrice and no instruction ran four times. */
  lemma ExecutionCounts(fpu: Fpu, words: seq<u64>, vm: Vm, n: nat)
    requires vm.Valid() && vm.pc == 0
    ensures Runnable(Decode(words))
    ensures var run := Trace(fpu, Decode(words), vm, n);
      forall j :: 0 <= j < |words| ==> run.executed[j] <= 3 && run.taken[j] <= 2
  {
    DecodedIsRunnable(words);
    var b := TraceInv(fpu, Decode(words), vm, n);
    InvBounds(Decode(words), Trace(fpu, Decode(words), vm, n), b);
  }

  /** Every iteration ends: three steps per instruction are enough (768 for 256 instructions). */
  lemma IterationTerminates(fpu: Fpu, words: seq<u64>, vm: Vm)
    requires vm.Valid() && vm.pc == 0
    ensures Runnable(Decode(words))
    ensures Trace(fpu, Decode(words), vm, 3 * |words|).vm.pc == |words|
  {
    hide Exec, Step, IsTaken, Fits, Decode, Inv, Structured, Runnable, Trace;
    DecodedIsRunnable(words);
    var p := Decode(words);
    var run := Trace(fpu, p, vm, 3 * |p|);
    var b := TraceInv(fpu, p, vm, 3 * |p|);
    StepsCounted(fpu, p, vm, 3 * |p|);
    if run.vm.pc < |p| {
      InvBounds(p, run, b);
      assert run.executed[run.vm.pc] < 3;
      TotalBound(run.executed, 3, |p|);
    }
  }

  /** A program of 256 instructions executes at most 255 * 3 = 765 non-branch effects. */
  lemma BoundedEffects(fpu: Fpu, words: seq<u64>, vm: Vm, n: nat)
    requires vm.Valid() && vm.pc == 0 && |words| == 256
    ensures Runnable(Decode(words))
    ensures Effects(Decode(words), Trace(fpu, Decode(words), vm, n)) <= 765
  {
    hide Exec, Step, IsTaken, Fits, Decode, Inv, Structured, Runnable, Trace;
    DecodedIsRunnable(words);
    var p := Decode(words);
    var run := Trace(fpu, p, vm, n);
    var b := TraceInv(fpu, p, vm, n);
    InvBounds(p, run, b);
    WorkBound(p, run.executed, Cap(p), |p|);
    BranchCounted(p, |p|);
    if HasBranch(p) {
      assert 3 * (256 - BranchCount(p, 256)) <= 765;
    }
  }

  /** Once the program counter reaches the end, nothing changes any more. */
  lemma {:induction false} TraceStable(fpu: Fpu, p: seq<Instr>, vm: Vm, n: nat, m: nat)
    requires Runnable(p) && vm.Valid() && vm.pc == 0 && n <= m
    requires Trace(fpu, p, vm, n).vm.pc == |p|
    ensures Trace(fpu, p, vm, m) == Trace(fpu, p, vm, n)
    decreases m
  {
    hide Exec, Step, IsTaken, Fits, Runnable;
    if n < m {
      TraceStable(fpu, p, vm, n, m - 1);
    }
  }

  /** The state in which an iteration's instruction loop ends. */
  ghost function Finish(fpu: Fpu, words: seq<u64>, vm: Vm): (v: Vm)
    requires vm.Valid() && vm.pc == 0
    ensures v.Valid() && v.pc == |words|
  {
    IterationTerminates(fpu, words, vm);
    Trace(fpu, Decode(words), vm, 3 * |words|).vm
  }
}
