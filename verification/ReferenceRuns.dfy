/**
 * The reference `run` (`randomx-core/src/vm.rs`): bounds-checked loops that mix a scratchpad line
 * in and out around the program, and the proof that they mix as the compact machine does.
 */
module ReferenceRuns {
  import opened Words
  import opened Wrappers
  import opened Machine
  import Rf = Reference

  // ---------- mixing in ----------

  /** `for i in 0..n { r[i] ^= scratchpad[line + i] }`. */
  function XorLoop(vm: Vm, line: nat, n: nat): Result<Vm>
  {
    if n == 0 then Ok(vm)
    else
      var v :- XorLoop(vm, line, n - 1);
      var i := n - 1;
      if i < |v.r| && line + i < |v.pad| then Ok(v.(r := v.r[i := Xor64(v.r[i], v.pad[line + i])])) else Panic
  }

  function LoadFLoop(fpu: Fpu, vm: Vm, line: nat, n: nat): Result<Vm>
  {
    if n == 0 then Ok(vm)
    else
      var v :- LoadFLoop(fpu, vm, line, n - 1);
      var i := n - 1;
      if i < |v.f| && line + i < |v.pad| then Ok(v.(f := v.f[i := Convert(fpu, v.pad[line + i])])) else Panic
  }

  function LoadELoop(fpu: Fpu, vm: Vm, line: nat, n: nat): Result<Vm>
  {
    if n == 0 then Ok(vm)
    else
      var v :- LoadELoop(fpu, vm, line, n - 1);
      var i := n - 1;
      if i < |v.e| && line + i + 4 < |v.pad|
      then Ok(v.(e := v.e[i := MaskExponentMantissa(v.eMask, Convert(fpu, v.pad[line + i + 4]))])) else Panic
  }

  function ReferenceMixIn(fpu: Fpu, vm: Vm, line0: nat, line1: nat): Result<Vm>
  {
    var v1 :- XorLoop(vm, line0, 8);
    var v2 :- LoadFLoop(fpu, v1, line1, 4);
    var v3 :- LoadELoop(fpu, v2, line1, 4);
    Ok(v3.(pc := 0))
  }

  // ---------- mixing out ----------

  function DatasetLoop(vm: Vm, line: Line, n: nat): Result<Vm>
    requires n <= 8
  {
    if n == 0 then Ok(vm)
    else
      var v :- DatasetLoop(vm, line, n - 1);
      var i := n - 1;
      if i < |v.r| then Ok(v.(r := v.r[i := Xor64(v.r[i], line[i])])) else Panic
  }

  function StoreLoop(vm: Vm, line: nat, n: nat): Result<Vm>
  {
    if n == 0 then Ok(vm)
    else
      var v :- StoreLoop(vm, line, n - 1);
      var i := n - 1;
      if i < |v.r| && line + i < |v.pad| then Ok(v.(pad := v.pad[line + i := v.r[i]])) else Panic
  }

  function MergeLoop(vm: Vm, n: nat): Result<Vm>
  {
    if n == 0 then Ok(vm)
    else
      var v :- MergeLoop(vm, n - 1);
      var i := n - 1;
      if i < |v.f| && i < |v.e| then Ok(v.(f := v.f[i := XorLanes(v.f[i], v.e[i])])) else Panic
  }

  function StoreFloatLoop(vm: Vm, line: nat, n: nat): Result<Vm>
  {
    if n == 0 then Ok(vm)
    else
      var v :- StoreFloatLoop(vm, line, n - 1);
      var i := n - 1;
      var ix := line + 2 * i;
      if i < |v.f| && ix + 1 < |v.pad| then Ok(v.(pad := v.pad[ix := v.f[i].low][ix + 1 := v.f[i].high])) else Panic
  }

  function ReferenceMixOut(dataset: Dataset, vm: Vm, line0: nat, line1: nat): Result<Vm>
    requires vm.Valid()
  {
    var mx := Xor64(vm.mx, Xor64(vm.r[vm.readReg[2]], vm.r[vm.readReg[3]]));
    var v1 :- DatasetLoop(vm, dataset((vm.datasetOffset + vm.ma) / 64), 8);
    var v2 := v1.(mx := v1.ma, ma := And64(mx, CACHE_LINE_ALIGN_MASK));
    var v3 :- StoreLoop(v2, line1, 8);
    var v4 :- MergeLoop(v3, 4);
    StoreFloatLoop(v4, line0, 4)
  }

  // ---------- the run ----------

  /** `n` turns of the reference loop, which indexes with bounds checks. */
  ghost function ReferenceSteps(fpu: Fpu, p: seq<Rf.Instr>, vm: Vm, n: nat): Result<Vm>
  {
    if n == 0 then Ok(vm)
    else
      var v :- ReferenceSteps(fpu, p, vm, n - 1);
      if v.pc >= |p| then Ok(v)
      else if v.pc < 0 then Panic
      else
        var w :- Rf.Execute(fpu, v, p[v.pc]);
        Ok(w.(pc := w.pc + 1))
  }

  /** One iteration; a program that were still running after three turns per instruction counts as a panic. */
  ghost function ReferenceIteration(
      fpu: Fpu, dataset: Dataset, words: seq<u64>, vm: Vm, sp0: u32, sp1: u32): Result<Vm>
    requires vm.Valid()
  {
    var mix := Xor64(vm.r[vm.readReg[0]], vm.r[vm.readReg[1]]);
    var line0 := BitAnd(Xor32(sp0, mix % TWO32), SCRATCHPAD_LINE_MASK) / 8;
    var line1 := BitAnd(Xor32(sp1, mix / TWO32), SCRATCHPAD_LINE_MASK) / 8;
    var start :- ReferenceMixIn(fpu, vm, line0, line1);
    var v :- ReferenceSteps(fpu, Rf.Decode(words).0, start, 3 * |words|);
    if v.Valid() && v.pc == |words| then ReferenceMixOut(dataset, v, line0, line1) else Panic
  }

  ghost function ReferenceRunFor(fpu: Fpu, dataset: Dataset, words: seq<u64>, vm: Vm, n: nat): Result<Vm>
    requires vm.Valid()
  {
    if n == 0 then Ok(vm)
    else if n == 1 then ReferenceIteration(fpu, dataset, words, vm, vm.mx % TWO32, vm.ma % TWO32)
    else
      var v :- ReferenceRunFor(fpu, dataset, words, vm, n - 1);
      if v.Valid() then ReferenceIteration(fpu, dataset, words, v, 0, 0) else Panic
  }

  ghost function ReferenceRun(fpu: Fpu, dataset: Dataset, image: seq<u64>, vm: Vm): Result<Vm>
    requires vm.Valid() && |image| == 272
  {
    ReferenceRunFor(fpu, dataset, image[16..], InitVm(vm, image[..16]), PROGRAM_ITERATIONS)
  }

  // ---------- the loops mix as the compact machine does ----------

  lemma {:induction false} XorLoopIs(vm: Vm, line: nat, n: nat)
    requires vm.Valid() && line + 8 <= SCRATCHPAD_WORDS && n <= 8
    ensures XorLoop(vm, line, n) == Ok(vm.(r := XorWords(vm.r, vm.pad[line..line + 8])[..n] + vm.r[n..]))
    ensures n == 8 ==> XorLoop(vm, line, n) == Ok(vm.(r := XorWords(vm.r, vm.pad[line..line + 8])))
  {
    hide Xor64;
    var target := XorWords(vm.r, vm.pad[line..line + 8]);
    if n > 0 {
      XorLoopIs(vm, line, n - 1);
      var before := target[..n - 1] + vm.r[n - 1..];
      assert before[n - 1 := target[n - 1]] == target[..n] + vm.r[n..];
    } else {
      assert target[..0] + vm.r[0..] == vm.r;
    }
    assert n == 8 ==> target[..n] + vm.r[n..] == target;
  }

  lemma {:induction false} LoadFLoopIs(fpu: Fpu, vm: Vm, line: nat, n: nat)
    requires vm.Valid() && line + 8 <= SCRATCHPAD_WORDS && n <= 4
    ensures LoadFLoop(fpu, vm, line, n) == Ok(vm.(f := LoadedF(fpu, vm.pad, line)[..n] + vm.f[n..]))
    ensures n == 4 ==> LoadFLoop(fpu, vm, line, n) == Ok(vm.(f := LoadedF(fpu, vm.pad, line)))
  {
    hide Convert, LoadedF;
    var target := LoadedF(fpu, vm.pad, line);
    if n > 0 {
      LoadFLoopIs(fpu, vm, line, n - 1);
      LoadedAt(fpu, vm.eMask, vm.pad, line, n - 1);
      var before := target[..n - 1] + vm.f[n - 1..];
      assert before[n - 1 := target[n - 1]] == target[..n] + vm.f[n..];
    } else {
      assert target[..0] + vm.f[0..] == vm.f;
    }
    assert n == 4 ==> target[..n] + vm.f[n..] == target;
  }

  lemma LoadedAt(fpu: Fpu, eMask: Lanes, pad: seq<u64>, line: nat, i: nat)
    requires line + 8 <= |pad| && i < 4
    ensures LoadedF(fpu, pad, line)[i] == Convert(fpu, pad[line + i])
    ensures LoadedE(fpu, eMask, pad, line)[i] == MaskExponentMantissa(eMask, Convert(fpu, pad[line + i + 4]))
  {
    hide Convert, MaskExponentMantissa;
  }

  lemma {:induction false} LoadELoopIs(fpu: Fpu, vm: Vm, line: nat, n: nat)
    requires vm.Valid() && line + 8 <= SCRATCHPAD_WORDS && n <= 4
    ensures LoadELoop(fpu, vm, line, n) == Ok(vm.(e := LoadedE(fpu, vm.eMask, vm.pad, line)[..n] + vm.e[n..]))
    ensures n == 4 ==> LoadELoop(fpu, vm, line, n) == Ok(vm.(e := LoadedE(fpu, vm.eMask, vm.pad, line)))
  {
    hide Convert, MaskExponentMantissa, LoadedE;
    var target := LoadedE(fpu, vm.eMask, vm.pad, line);
    if n > 0 {
      LoadELoopIs(fpu, vm, line, n - 1);
      LoadedAt(fpu, vm.eMask, vm.pad, line, n - 1);
      var before := target[..n - 1] + vm.e[n - 1..];
      assert before[n - 1 := target[n - 1]] == target[..n] + vm.e[n..];
    } else {
      assert target[..0] + vm.e[0..] == vm.e;
    }
    assert n == 4 ==> target[..n] + vm.e[n..] == target;
  }

  lemma MixInRefines(fpu: Fpu, vm: Vm, line0: nat, line1: nat)
    requires vm.Valid() && line0 + 8 <= SCRATCHPAD_WORDS && line1 + 8 <= SCRATCHPAD_WORDS
    ensures ReferenceMixIn(fpu, vm, line0, line1) == Ok(MixIn(fpu, vm, line0, line1))
  {
    hide XorWords, LoadedF, LoadedE, XorLoop, LoadFLoop, LoadELoop;
    XorLoopIs(vm, line0, 8);
    var v1 := vm.(r := XorWords(vm.r, vm.pad[line0..line0 + 8]));
    LoadFLoopIs(fpu, v1, line1, 4);
    var v2 := v1.(f := LoadedF(fpu, v1.pad, line1));
    LoadELoopIs(fpu, v2, line1, 4);
  }

  lemma {:induction false} DatasetLoopIs(vm: Vm, line: Line, n: nat)
    requires vm.Valid() && n <= 8
    ensures DatasetLoop(vm, line, n) == Ok(vm.(r := XorWords(vm.r, line)[..n] + vm.r[n..]))
    ensures n == 8 ==> DatasetLoop(vm, line, n) == Ok(vm.(r := XorWords(vm.r, line)))
  {
    hide Xor64;
    var target := XorWords(vm.r, line);
    if n > 0 {
      DatasetLoopIs(vm, line, n - 1);
      var before := target[..n - 1] + vm.r[n - 1..];
      assert before[n - 1 := target[n - 1]] == target[..n] + vm.r[n..];
    } else {
      assert target[..0] + vm.r[0..] == vm.r;
    }
    assert n == 8 ==> target[..n] + vm.r[n..] == target;
  }

  /** A scratchpad with the first `n` of some words written at `line`. */
  function Written(pad: seq<u64>, line: nat, w: seq<u64>, n: nat): (p: seq<u64>)
    requires n <= |w| && line + |w| <= |pad|
    ensures |p| == |pad|
  {
    pad[..line] + w[..n] + pad[line + n..]
  }

  lemma WrittenNext(pad: seq<u64>, line: nat, w: seq<u64>, n: nat)
    requires n < |w| && line + |w| <= |pad|
    ensures Written(pad, line, w, n)[line + n := w[n]] == Written(pad, line, w, n + 1)
  {
  }

  lemma WrittenNone(pad: seq<u64>, line: nat, w: seq<u64>)
    requires line + |w| <= |pad|
    ensures Written(pad, line, w, 0) == pad
    ensures Written(pad, line, w, |w|) == pad[..line] + w + pad[line + |w|..]
  {
  }

  lemma {:induction false} StoreLoopIs(vm: Vm, line: nat, n: nat)
    requires vm.Valid() && line + 8 <= SCRATCHPAD_WORDS && n <= 8
    ensures StoreLoop(vm, line, n) == Ok(vm.(pad := Written(vm.pad, line, vm.r, n)))
  {
    hide Written;
    if n > 0 {
      StoreLoopIs(vm, line, n - 1);
      WrittenNext(vm.pad, line, vm.r, n - 1);
    } else {
      WrittenNone(vm.pad, line, vm.r);
    }
  }

  lemma {:induction false} MergeLoopIs(vm: Vm, n: nat)
    requires vm.Valid() && n <= 4
    ensures MergeLoop(vm, n) == Ok(vm.(f := MergedFloats(vm.f, vm.e)[..n] + vm.f[n..]))
    ensures n == 4 ==> MergeLoop(vm, n) == Ok(vm.(f := MergedFloats(vm.f, vm.e)))
  {
    hide XorLanes;
    var target := MergedFloats(vm.f, vm.e);
    if n > 0 {
      MergeLoopIs(vm, n - 1);
      var before := target[..n - 1] + vm.f[n - 1..];
      assert before[n - 1 := target[n - 1]] == target[..n] + vm.f[n..];
    } else {
      assert target[..0] + vm.f[0..] == vm.f;
    }
    assert n == 4 ==> target[..n] + vm.f[n..] == target;
  }

  lemma {:induction false} StoreFloatLoopIs(vm: Vm, line: nat, n: nat)
    requires vm.Valid() && line + 8 <= SCRATCHPAD_WORDS && n <= 4
    ensures StoreFloatLoop(vm, line, n) == Ok(vm.(pad := Written(vm.pad, line, Interleave(vm.f), 2 * n)))
  {
    hide Written;
    var w := Interleave(vm.f);
    if n > 0 {
      StoreFloatLoopIs(vm, line, n - 1);
      WrittenNext(vm.pad, line, w, 2 * n - 2);
      WrittenNext(vm.pad, line, w, 2 * n - 1);
      assert w[2 * (n - 1)] == vm.f[n - 1].low && w[2 * (n - 1) + 1] == vm.f[n - 1].high;
    } else {
      WrittenNone(vm.pad, line, w);
    }
  }

  lemma MixOutRefines(dataset: Dataset, vm: Vm, line0: nat, line1: nat)
    requires vm.Valid() && MemoryRegistersOk(vm)
    requires line0 + 8 <= SCRATCHPAD_WORDS && line1 + 8 <= SCRATCHPAD_WORDS
    ensures ReferenceMixOut(dataset, vm, line0, line1) == Ok(MixOut(dataset, vm, line0, line1))
  {
    hide XorWords, MergedFloats, Interleave, Written, Xor64, And64, DatasetLoop, StoreLoop, MergeLoop, StoreFloatLoop;
    var line := dataset((vm.datasetOffset + vm.ma) / 64);
    DatasetLoopIs(vm, line, 8);
    var mx := Xor64(vm.mx, Xor64(vm.r[vm.readReg[2]], vm.r[vm.readReg[3]]));
    var v2 := vm.(r := XorWords(vm.r, line), mx := vm.ma, ma := And64(mx, CACHE_LINE_ALIGN_MASK));
    StoreLoopIs(v2, line1, 8);
    WrittenNone(v2.pad, line1, v2.r);
    var v3 := v2.(pad := Written(v2.pad, line1, v2.r, 8));
    MergeLoopIs(v3, 4);
    var v4 := v3.(f := MergedFloats(v3.f, v3.e));
    StoreFloatLoopIs(v4, line0, 4);
    WrittenNone(v4.pad, line0, Interleave(v4.f));
  }
}
