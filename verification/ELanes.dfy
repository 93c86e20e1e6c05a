/**
 * The E registers never leave the positive normal range: every lane is +infinity or at least
 * 2^-1020 at every step of every iteration, whatever rounding modes the program selects.
 */
module ELanes {
  import opened Words
  import opened Machine
  import opened Binary64
  import opened SoftFloat
  import opened SoftFloatProofs
  import opened Termination
  import opened Iterations
  import C = Compact

  // ---------- a correctly rounding floating-point unit ----------

  ghost function ExactMul(a: u64, b: u64): real { R(Value(a) * Value(b)) / R(Pow2(1074)) }

  ghost function ExactDiv(a: u64, b: u64): real
    requires Value(b) != 0
  {
    R(Value(a) * Pow2(1074)) / R(Value(b))
  }

  ghost predicate IsRoot(x: real, a: u64) { x >= 0.0 && x * x == R(Value(a) * Pow2(1074)) }

  ghost predicate RoundsMul(fpu: Fpu)
  {
    forall m: RoundingMode, a: u64, b: u64 {:trigger fpu.mul(m, a, b)} ::
      (Finite(a) && Finite(b) ==> IsRounded(m, ExactMul(a, b), fpu.mul(m, a, b)))
      && (a == INF && Finite(b) && Value(b) > 0 ==> fpu.mul(m, a, b) == INF)
  }

  ghost predicate RoundsDiv(fpu: Fpu)
  {
    forall m: RoundingMode, a: u64, b: u64 {:trigger fpu.div(m, a, b)} ::
      (Finite(a) && Finite(b) && Value(b) != 0 ==> IsRounded(m, ExactDiv(a, b), fpu.div(m, a, b)))
      && (a == INF && Finite(b) && Value(b) > 0 ==> fpu.div(m, a, b) == INF)
  }

  ghost predicate RoundsSqrt(fpu: Fpu)
  {
    forall m: RoundingMode, a: u64 {:trigger fpu.sqrt(m, a)} ::
      (Finite(a) && !Negative(a) ==> exists x: real :: IsRoot(x, a) && IsRounded(m, x, fpu.sqrt(m, a)))
      && (a == INF ==> fpu.sqrt(m, a) == INF)
  }

  /** Products, quotients and roots are correctly rounded, which is all that the E registers need. */
  ghost predicate RoundsProducts(fpu: Fpu) { RoundsMul(fpu) && RoundsDiv(fpu) && RoundsSqrt(fpu) }

  // ---------- lanes ----------

  /** Plus infinity, or a positive finite value of at least 2^-k. */
  ghost predicate AtLeast(b: u64, k: nat)
    requires k <= 1022
  {
    b == INF || (!Negative(b) && Finite(b) && Value(b) >= Pow2(1074 - k))
  }

  /** The position of the power of two 2^-k. */
  function PowerPosition(k: nat): int
    requires k <= 1022
  {
    (1023 - k) * TWO52
  }

  lemma PowerIsRepresentable(k: nat)
    requires k <= 1022
    ensures 0 < PowerPosition(k) < INF && At(PowerPosition(k)) == Pow2(1074 - k)
  {
    hide Pow2;
    var e := 1023 - k;
    assert PowerPosition(k) / TWO52 == e && PowerPosition(k) % TWO52 == 0;
    Pow2Add(52, e - 1);
    PowAt52();
  }

  lemma PowAt52()
    ensures Pow2(52) == TWO52
  {
    hide Pow2;
    PowersAt();
    NextPower(53);
  }

  /** Rounding in any mode is monotone and keeps representable values: it cannot pass a power of two. */
  lemma RoundedAtLeast(mode: RoundingMode, x: real, b: u64, k: nat)
    requires k <= 1022 && IsRounded(mode, x, b) && x >= R(Pow2(1074 - k))
    ensures AtLeast(b, k)
  {
    hide Units, Pow2, PowerPosition;
    var q := PowerPosition(k);
    PowerIsRepresentable(k);
    MagnitudeCases(b);
    if mode == Nearest {
      if Infinite(b) {
      } else {
        NothingBetween(x, Position(b), q);
        if Position(b) < q {
          AtIncreases(Position(b), q);
        }
      }
    }
  }

  lemma MulRounded(fpu: Fpu, m: RoundingMode, a: u64, b: u64)
    requires RoundsMul(fpu) && Finite(b)
    ensures Finite(a) ==> IsRounded(m, ExactMul(a, b), fpu.mul(m, a, b))
    ensures a == INF && Value(b) > 0 ==> fpu.mul(m, a, b) == INF
  {
    hide IsRounded, Value, ExactMul;
  }

  lemma DivRounded(fpu: Fpu, m: RoundingMode, a: u64, b: u64)
    requires RoundsDiv(fpu) && Finite(b) && Value(b) > 0
    ensures Finite(a) ==> IsRounded(m, ExactDiv(a, b), fpu.div(m, a, b))
    ensures a == INF ==> fpu.div(m, a, b) == INF
  {
    hide IsRounded, Value, ExactDiv;
  }

  lemma SqrtRounded(fpu: Fpu, m: RoundingMode, a: u64) returns (x: real)
    requires RoundsSqrt(fpu) && Finite(a) && !Negative(a)
    ensures IsRoot(x, a) && IsRounded(m, x, fpu.sqrt(m, a))
  {
    hide IsRounded, IsRoot;
    var n := fpu.sqrt(m, a);
    x :| IsRoot(x, a) && IsRounded(m, x, n);
  }

  lemma MulKeeps(fpu: Fpu, m: RoundingMode, a: u64, b: u64, k: nat)
    requires RoundsProducts(fpu) && k <= 1022 && AtLeast(a, k)
    requires Finite(b) && Value(b) >= Pow2(1074)
    ensures AtLeast(fpu.mul(m, a, b), k)
  {
    hide Units, Pow2, IsRounded, Value, RoundsMul, RoundsDiv, RoundsSqrt;
    MulRounded(fpu, m, a, b);
    if a != INF {
      ProductBound(Value(a), Value(b), Pow2(1074), Pow2(1074 - k));
      RoundedAtLeast(m, ExactMul(a, b), fpu.mul(m, a, b), k);
    }
  }

  lemma ProductBound(a: int, b: int, p: nat, t: nat)
    requires a >= t && b >= p > 0
    ensures R(a * b) / R(p) >= R(t)
  {
    MulMono(t, a, p);
    MulMono(p, b, a);
    RealProduct(t, p);
    QuotientAtLeast(R(a * b), R(p), R(t));
  }

  lemma QuotientAtLeast(y: real, d: real, v: real)
    requires d > 0.0 && y >= v * d
    ensures y / d >= v
  {
    assert (y / d) * d == y;
    if y / d < v {
      RealMono(y / d, v, d);
    }
  }

  lemma DivHalves(fpu: Fpu, m: RoundingMode, a: u64, b: u64, k: nat)
    requires RoundsProducts(fpu) && k < 1022 && AtLeast(a, k)
    requires Finite(b) && 0 < Value(b) <= 2 * Pow2(1074)
    ensures AtLeast(fpu.div(m, a, b), k + 1)
  {
    hide Units, Pow2, IsRounded, Value, RoundsMul, RoundsDiv, RoundsSqrt;
    DivRounded(fpu, m, a, b);
    if a != INF {
      NextPower(1074 - k);
      QuotientBound(Value(a), Value(b), Pow2(1074), Pow2(1074 - (k + 1)));
      RoundedAtLeast(m, ExactDiv(a, b), fpu.div(m, a, b), k + 1);
    }
  }

  lemma QuotientBound(a: int, b: int, p: nat, t: nat)
    requires 0 < b <= 2 * p && a >= 2 * t
    ensures R(a * p) / R(b) >= R(t)
  {
    MulMono(2 * t, a, p);
    MulMono(b, 2 * p, t);
    assert 2 * t * p == 2 * p * t;
    assert R(t) * R(b) == R(b * t);
    QuotientAtLeast(R(a * p), R(b), R(t));
  }

  lemma SqrtKeeps(fpu: Fpu, m: RoundingMode, a: u64, k: nat)
    requires RoundsProducts(fpu) && k <= 1022 && AtLeast(a, k)
    ensures AtLeast(fpu.sqrt(m, a), k)
  {
    hide Units, Pow2, IsRounded, Value, RoundsMul, RoundsDiv, IsRoot;
    if a != INF {
      var x := SqrtRounded(fpu, m, a);
      RootBound(x, a, k);
      RoundedAtLeast(m, x, fpu.sqrt(m, a), k);
    } else {
      assert fpu.sqrt(m, a) == INF;
    }
  }

  lemma RootBound(x: real, a: u64, k: nat)
    requires k <= 1022 && IsRoot(x, a) && Value(a) >= Pow2(1074 - k)
    ensures x >= R(Pow2(1074 - k))
  {
    hide Pow2, Value;
    var t, p := Pow2(1074 - k), Pow2(1074);
    Pow2Mono(1074 - k, 1074);
    MulMono(t, p, t);
    MulMono(t, Value(a), p);
    assert p * t == t * p;
    RealProduct(t, t);
    if x < R(t) {
      SquareOrder(x, R(t));
    }
  }

  // ---------- the values the machine feeds in ----------

  /** A masked operand lies in [2^-255, 2). */
  ghost predicate MaskedOperand(b: u64) { 0x3000_0000_0000_0000 <= b < 0x4000_0000_0000_0000 }

  /** An exponent mask forces the high bits of a masked operand. */
  ghost predicate GoodMask(m: u64) { 0x3000_0000_0000_0000 <= m < 0x4000_0000_0000_0000 }

  /** A group register lane lies in [1, 2^32). */
  ghost predicate GroupOperand(b: u64) { 0x3ff0_0000_0000_0000 <= b < 0x41f0_0000_0000_0000 }

  lemma MaskLaneRange(v: u64, m: u64)
    requires GoodMask(m)
    ensures MaskedOperand(MaskLane(v, m))
  {
    hide BitAnd, BitOr;
    AndLe(v, DYNAMIC_MANTISSA_MASK);
    OrGe(And64(v, DYNAMIC_MANTISSA_MASK), m);
    OrBelow62(And64(v, DYNAMIC_MANTISSA_MASK), m);
  }

  lemma OrBelow62(a: nat, b: nat)
    requires a < 0x4000_0000_0000_0000 && b < 0x4000_0000_0000_0000
    ensures BitOr(a, b) < 0x4000_0000_0000_0000
  {
    hide BitOr, Pow2;
    Pow2At64();
    NextPower(64);
    NextPower(63);
    BitBound(a, b, 62);
  }

  lemma FloatMaskRange(entropy: u64)
    ensures GoodMask(FloatMask(entropy))
  {
    hide BitAnd, BitOr, StaticExponent;
    AndLe(entropy, 0x3f_ffff);
    OrGe(And64(entropy, 0x3f_ffff), StaticExponent(entropy));
    OrBelow62(And64(entropy, 0x3f_ffff), StaticExponent(entropy));
  }

  lemma GroupRange(entropy: u64)
    ensures GroupOperand(SmallPositiveFloatBits(entropy))
  {
    hide BitAnd, BitOr, Shr, Pow2;
    TopBits(entropy);
    var top := Shr(entropy, 59) + 1023;
    assert Pow2(11) == 2048 by { PowEleven(); }
    AndOnes(top, 11);
    var mantissa := BitAnd(entropy, 0xf_ffff_ffff_ffff);
    AndLe(entropy, 0xf_ffff_ffff_ffff);
    PowAt52();
    OrDisjoint(top, mantissa, 52);
  }

  lemma TopBits(x: u64)
    ensures Shr(x, 59) < 32
  {
    hide Pow2, Shr;
    ShrIsDiv(x, 59);
    Pow2At64();
    Pow2Add(59, 5);
    assert Pow2(5) == 32 by { PowFive(); }
    DivModBelow(x, Pow2(59), 32);
  }

  lemma PowFive()
    ensures Pow2(5) == 32
  {
  }

  lemma DivModBelow(x: nat, d: nat, q: nat)
    requires d > 0 && x < q * d
    ensures x / d < q
  {
    DivMod(x, d);
    if x / d >= q {
      MulMono(q, x / d, d);
    }
  }

  /** Operand ranges as values. */
  lemma MaskedValue(b: u64)
    requires MaskedOperand(b)
    ensures Finite(b) && !Negative(b) && AtLeast(b, 255) && 0 < Value(b) <= 2 * Pow2(1074)
  {
    hide Units, Pow2;
    MagnitudeCases(b);
    PowerIsRepresentable(255);
    PowerIsRepresentable(0);
    NextUnitsOf(b, 255);
    AboveOne(b);
    Pow2Mono(0, 819);
  }

  lemma NextUnitsOf(b: u64, k: nat)
    requires k <= 1022 && PowerPosition(k) <= b < INF
    ensures Units(b) >= At(PowerPosition(k))
  {
    hide Units;
    if PowerPosition(k) < b {
      UnitsIncrease(PowerPosition(k), b);
    }
  }

  lemma AboveOne(b: u64)
    requires b < 0x4000_0000_0000_0000
    ensures Units(b) <= 2 * Pow2(1074)
  {
    hide Pow2, Units;
    UnitsIncrease(b, 0x4000_0000_0000_0000);
    assert Units(0x4000_0000_0000_0000) == 2 * Pow2(1074) by { UnitsOfTwo(); }
  }

  lemma UnitsOfTwo()
    ensures Units(0x4000_0000_0000_0000) == 2 * Pow2(1074)
  {
    hide Pow2;
    Pow2Add(52, 1023);
    PowAt52();
    NextPower(1075);
  }

  lemma GroupValue(b: u64)
    requires GroupOperand(b)
    ensures Finite(b) && Value(b) >= Pow2(1074)
  {
    hide Units, Pow2;
    MagnitudeCases(b);
    PowerIsRepresentable(0);
    NextUnitsOf(b, 0);
  }

  // ---------- every step ----------

  ghost predicate GoodConfig(vm: Vm)
    requires vm.Valid()
  {
    && GoodMask(vm.eMask.low) && GoodMask(vm.eMask.high)
    && forall i :: 0 <= i < 4 ==> GroupOperand(vm.a[i].low) && GroupOperand(vm.a[i].high)
  }

  ghost predicate LanesAtLeast(e: seq<Lanes>, k: nat)
    requires k <= 1022
  {
    forall i :: 0 <= i < |e| ==> AtLeast(e[i].low, k) && AtLeast(e[i].high, k)
  }

  lemma Weaken(e: seq<Lanes>, k: nat, l: nat)
    requires k <= l <= 1022 && LanesAtLeast(e, k)
    ensures LanesAtLeast(e, l)
  {
    hide Pow2, Value;
    Pow2Mono(1074 - l, 1074 - k);
  }

  /** Replacing one register by two good lanes. */
  lemma LanesUpdate(e: seq<Lanes>, d: nat, x: Lanes, k: nat)
    requires k <= 1022 && LanesAtLeast(e, k) && d < |e| && AtLeast(x.low, k) && AtLeast(x.high, k)
    ensures LanesAtLeast(e[d := x], k)
  {
    hide AtLeast;
  }

  lemma MulStep(fpu: Fpu, m: RoundingMode, x: Lanes, y: Lanes, k: nat)
    requires RoundsProducts(fpu) && k <= 1022 && AtLeast(x.low, k) && AtLeast(x.high, k)
    requires GroupOperand(y.low) && GroupOperand(y.high)
    ensures var z := Lift2(fpu.mul, m, x, y); AtLeast(z.low, k) && AtLeast(z.high, k)
  {
    hide AtLeast, GroupOperand, RoundsProducts;
    GroupValue(y.low);
    GroupValue(y.high);
    MulKeeps(fpu, m, x.low, y.low, k);
    MulKeeps(fpu, m, x.high, y.high, k);
  }

  lemma DivStep(fpu: Fpu, m: RoundingMode, x: Lanes, w: Lanes, mask: Lanes, k: nat)
    requires RoundsProducts(fpu) && k < 1022 && AtLeast(x.low, k) && AtLeast(x.high, k)
    requires GoodMask(mask.low) && GoodMask(mask.high)
    ensures var z := Lift2(fpu.div, m, x, MaskExponentMantissa(mask, w)); AtLeast(z.low, k + 1) && AtLeast(z.high, k + 1)
  {
    hide AtLeast, GoodMask, MaskLane, RoundsProducts, MaskedOperand;
    MaskLaneRange(w.low, mask.low);
    MaskLaneRange(w.high, mask.high);
    MaskedValue(MaskLane(w.low, mask.low));
    MaskedValue(MaskLane(w.high, mask.high));
    DivHalves(fpu, m, x.low, MaskLane(w.low, mask.low), k);
    DivHalves(fpu, m, x.high, MaskLane(w.high, mask.high), k);
  }

  /** One float effect: only a division can halve the bound, and only once. */
  lemma FloatStep(fpu: Fpu, vm: Vm, i: C.Instr, k: nat)
    requires vm.Valid() && C.Fits(i) && C.IsFloat(i.effect) && RoundsProducts(fpu) && GoodConfig(vm)
    requires k < 1022 && LanesAtLeast(vm.e, k)
    ensures LanesAtLeast(C.ExecFloat(fpu, vm, i).e, k + 1)
  {
    hide AtLeast, C.Loaded, Convert, GoodMask, GroupOperand, RoundsProducts, XorLanes, Lift2, MaskExponentMantissa;
    Weaken(vm.e, k, k + 1);
    var d := i.dst / 16;
    match i.effect {
      case FmulR =>
        MulStep(fpu, vm.mode, vm.e[d], vm.a[i.src / 16], k + 1);
        LanesUpdate(vm.e, d, Lift2(fpu.mul, vm.mode, vm.e[d], vm.a[i.src / 16]), k + 1);
      case FdivM =>
        var w := Convert(fpu, C.Loaded(vm, i));
        DivStep(fpu, vm.mode, vm.e[d], w, vm.eMask, k);
        LanesUpdate(vm.e, d, Lift2(fpu.div, vm.mode, vm.e[d], MaskExponentMantissa(vm.eMask, w)), k + 1);
      case FsqrtR =>
        SqrtKeeps(fpu, vm.mode, vm.e[d].low, k + 1);
        SqrtKeeps(fpu, vm.mode, vm.e[d].high, k + 1);
        LanesUpdate(vm.e, d, Lanes(fpu.sqrt(vm.mode, vm.e[d].low), fpu.sqrt(vm.mode, vm.e[d].high)), k + 1);
      case FswapE =>
        LanesUpdate(vm.e, d, SwapLanes(vm.e[d]), k + 1);
      case _ =>
    }
  }

  lemma ExecStep(fpu: Fpu, vm: Vm, i: C.Instr, k: nat)
    requires vm.Valid() && C.Fits(i) && RoundsProducts(fpu) && GoodConfig(vm)
    requires k < 1022 && LanesAtLeast(vm.e, k)
    ensures LanesAtLeast(C.Exec(fpu, vm, i).e, k + 1)
    ensures i.effect == C.Cbranch ==> LanesAtLeast(C.Exec(fpu, vm, i).e, k)
  {
    hide AtLeast, C.ExecFloat, C.Alu, RoundsProducts, GoodConfig, BitAnd;
    Weaken(vm.e, k, k + 1);
    if C.IsFloat(i.effect) {
      FloatStep(fpu, vm, i, k);
    }
  }

  lemma {:induction false} EffectsStep(fpu: Fpu, p: seq<C.Instr>, vm: Vm, n: nat)
    requires Runnable(p) && vm.Valid() && vm.pc == 0 && n > 0
    ensures var before, after := Trace(fpu, p, vm, n - 1), Trace(fpu, p, vm, n);
      && (before.vm.pc == |p| ==> after == before)
      && (before.vm.pc < |p| ==>
            && after.vm.e == C.Exec(fpu, before.vm, p[before.vm.pc]).e
            && Effects(p, after) == Effects(p, before) + if p[before.vm.pc].effect == C.Cbranch then 0 else 1)
  {
    hide C.Exec, C.Fits, IsTaken;
    var before := Trace(fpu, p, vm, n - 1);
    if before.vm.pc < |p| {
      WorkIncrement(p, before.executed, before.vm.pc, |p|);
    }
  }

  /** After any number of steps the bound has dropped by at most one binade per effect. */
  lemma {:induction false} TraceLanes(fpu: Fpu, words: seq<u64>, vm: Vm, n: nat)
    requires |words| == 256 && RoundsProducts(fpu)
    requires vm.Valid() && vm.pc == 0 && GoodConfig(vm) && LanesAtLeast(vm.e, 255)
    ensures Runnable(C.Decode(words))
    ensures var run := Trace(fpu, C.Decode(words), vm, n);
      Effects(C.Decode(words), run) <= 765 && LanesAtLeast(run.vm.e, 255 + Effects(C.Decode(words), run))
  {
    hide LanesAtLeast, Trace, Effects, C.Exec, C.Decode, RoundsProducts, GoodConfig, Runnable, C.Fits;
    var p := C.Decode(words);
    DecodedIsRunnable(words);
    BoundedEffects(fpu, words, vm, n);
    if n == 0 {
      TraceZero(fpu, p, vm);
    } else {
      TraceLanes(fpu, words, vm, n - 1);
      BoundedEffects(fpu, words, vm, n - 1);
      EffectsStep(fpu, p, vm, n);
      var before := Trace(fpu, p, vm, n - 1);
      if before.vm.pc < |p| {
        TraceKeepsConfig(fpu, p, vm, n - 1);
        ConfigCarries(before.vm, vm);
        InstructionFits(p, before.vm.pc);
        if 255 + Effects(p, before) < 1022 {
          ExecStep(fpu, before.vm, p[before.vm.pc], 255 + Effects(p, before));
        }
      }
    }
  }

  lemma InstructionFits(p: seq<C.Instr>, k: nat)
    requires Runnable(p) && k < |p|
    ensures C.Fits(p[k])
  {
  }

  lemma ConfigCarries(v: Vm, w: Vm)
    requires v.Valid() && w.Valid() && SameConfig(v, w) && GoodConfig(w)
    ensures GoodConfig(v)
  {
  }

  lemma TraceZero(fpu: Fpu, p: seq<C.Instr>, vm: Vm)
    requires Runnable(p) && vm.Valid() && vm.pc == 0
    ensures Trace(fpu, p, vm, 0).vm == vm && Effects(p, Trace(fpu, p, vm, 0)) == 0
  {
    ZeroWork(p, Trace(fpu, p, vm, 0).executed, |p|);
  }

  lemma {:induction false} ZeroWork(p: seq<C.Instr>, executed: seq<nat>, n: nat)
    requires n <= |p| == |executed| && forall j :: 0 <= j < n ==> executed[j] == 0
    ensures Work(p, executed, n) == 0
  {
    if n > 0 {
      ZeroWork(p, executed, n - 1);
    }
  }

  // ---------- every iteration of every run ----------

  lemma InitGivesGoodConfig(vm: Vm, entropy: seq<u64>)
    requires vm.Valid() && |entropy| == 16
    ensures GoodConfig(InitVm(vm, entropy))
  {
    hide SmallPositiveFloatBits, FloatMask, GroupOperand, GoodMask;
    FloatMaskRange(entropy[14]);
    FloatMaskRange(entropy[15]);
    forall i | 0 <= i < 8
      ensures GroupOperand(SmallPositiveFloatBits(entropy[i]))
    {
      GroupRange(entropy[i]);
    }
  }

  /** The program and the mixing steps keep the configuration. */
  lemma IterationKeepsConfig(fpu: Fpu, dataset: Dataset, words: seq<u64>, vm: Vm, sp0: u32, sp1: u32)
    requires vm.Valid() && MemoryRegistersOk(vm) && GoodConfig(vm)
    ensures GoodConfig(Iteration(fpu, dataset, words, vm, sp0, sp1))
  {
    hide Lines, Trace, C.Decode, GoodMask, GroupOperand, Runnable;
    var (line0, line1) := Lines(vm, sp0, sp1);
    var start := MixIn(fpu, vm, line0, line1);
    IterationTerminates(fpu, words, start);
    TraceKeepsConfig(fpu, C.Decode(words), start, 3 * |words|);
  }

  lemma {:induction false} RunKeepsConfig(fpu: Fpu, dataset: Dataset, words: seq<u64>, vm: Vm, n: nat)
    requires vm.Valid() && MemoryRegistersOk(vm) && GoodConfig(vm)
    ensures GoodConfig(RunFor(fpu, dataset, words, vm, n))
  {
    hide Iteration, GoodConfig;
    if n == 1 {
      IterationKeepsConfig(fpu, dataset, words, vm, vm.mx % TWO32, vm.ma % TWO32);
    } else if n > 1 {
      RunKeepsConfig(fpu, dataset, words, vm, n - 1);
      IterationKeepsConfig(fpu, dataset, words, RunFor(fpu, dataset, words, vm, n - 1), 0, 0);
    }
  }

  lemma LoadedLane(fpu: Fpu, eMask: Lanes, w: u64)
    requires GoodMask(eMask.low) && GoodMask(eMask.high)
    ensures var v := MaskExponentMantissa(eMask, Convert(fpu, w));
      AtLeast(v.low, 255) && AtLeast(v.high, 255)
  {
    hide MaskLane, AtLeast, Convert, GoodMask, MaskedOperand;
    var c := Convert(fpu, w);
    MaskLaneRange(c.low, eMask.low);
    MaskLaneRange(c.high, eMask.high);
    MaskedValue(MaskLane(c.low, eMask.low));
    MaskedValue(MaskLane(c.high, eMask.high));
  }

  lemma LoadedLanes(fpu: Fpu, eMask: Lanes, pad: seq<u64>, line: nat)
    requires GoodMask(eMask.low) && GoodMask(eMask.high) && line + 8 <= |pad|
    ensures LanesAtLeast(LoadedE(fpu, eMask, pad, line), 255)
  {
    hide AtLeast, GoodMask, MaskExponentMantissa, Convert;
    var e := LoadedE(fpu, eMask, pad, line);
    forall i | 0 <= i < |e|
      ensures AtLeast(e[i].low, 255) && AtLeast(e[i].high, 255)
    {
      LoadedLane(fpu, eMask, pad[line + 4 + i]);
    }
  }

  lemma MixInLanes(fpu: Fpu, vm: Vm, line0: nat, line1: nat)
    requires vm.Valid() && GoodConfig(vm)
    requires line0 + 8 <= SCRATCHPAD_WORDS && line1 + 8 <= SCRATCHPAD_WORDS
    ensures var v := MixIn(fpu, vm, line0, line1);
      v.pc == 0 && GoodConfig(v) && LanesAtLeast(v.e, 255)
  {
    hide GoodMask, GroupOperand, LanesAtLeast, LoadedE, LoadedF, XorWords;
    LoadedLanes(fpu, vm.eMask, vm.pad, line1);
  }

  /** The bit patterns from 2^-1020 up to plus infinity: no zero, subnormal, negative value or NaN. */
  predicate NormalOrInfinite(b: u64) { 3 * TWO52 <= b <= INF }

  lemma AtLeastIsNormal(b: u64)
    requires AtLeast(b, 1020)
    ensures NormalOrInfinite(b)
  {
    hide Units, Pow2;
    MagnitudeCases(b);
    PowerIsRepresentable(1020);
    if b < 3 * TWO52 {
      UnitsIncrease(b, 3 * TWO52);
    }
  }

  /**
   * In iteration `n` of any run, after any number `t` of instructions, every lane of every E
   * register is +infinity or a positive normal number of at least 2^-1020.
   */
  lemma ELanesStayNormal(fpu: Fpu, dataset: Dataset, image: seq<u64>, vm: Vm, n: nat, sp0: u32, sp1: u32, t: nat)
    requires RoundsProducts(fpu) && vm.Valid() && |image| == 272
    ensures var words := image[16..];
      var v := RunFor(fpu, dataset, words, InitVm(vm, image[..16]), n);
      var start := MixIn(fpu, v, Lines(v, sp0, sp1).0, Lines(v, sp0, sp1).1);
      && Runnable(C.Decode(words))
      && forall i :: 0 <= i < 4 ==>
           && NormalOrInfinite(Trace(fpu, C.Decode(words), start, t).vm.e[i].low)
           && NormalOrInfinite(Trace(fpu, C.Decode(words), start, t).vm.e[i].high)
  {
    hide Trace, Effects, C.Decode, RoundsProducts, GoodConfig, Runnable, MixIn, Lines, InitVm, RunFor, AtLeast;
    hide NormalOrInfinite;
    var words := image[16..];
    DecodedIsRunnable(words);
    InitGivesGoodConfig(vm, image[..16]);
    RunKeepsConfig(fpu, dataset, words, InitVm(vm, image[..16]), n);
    var v := RunFor(fpu, dataset, words, InitVm(vm, image[..16]), n);
    var (line0, line1) := Lines(v, sp0, sp1);
    var start := MixIn(fpu, v, line0, line1);
    MixInLanes(fpu, v, line0, line1);
    TraceLanes(fpu, words, start, t);
    var run := Trace(fpu, C.Decode(words), start, t);
    Weaken(run.vm.e, 255 + Effects(C.Decode(words), run), 1020);
    forall i | 0 <= i < 4
      ensures NormalOrInfinite(run.vm.e[i].low) && NormalOrInfinite(run.vm.e[i].high)
    {
      AtLeastIsNormal(run.vm.e[i].low);
      AtLeastIsNormal(run.vm.e[i].high);
    }
  }
}
