/** The floating-point unit of `softfp` meets what the machine's proofs ask of a unit. */
module SoftFpu {
  import opened Words
  import opened Machine
  import opened Binary64
  import opened SoftFloat
  import opened SoftFloatProofs
  import opened ELanes

  /** Round-to-nearest operations, as the platform provides them. */
  datatype NearestOps = NearestOps(
    add: (u64, u64) -> u64, sub: (u64, u64) -> u64, mul: (u64, u64) -> u64, div: (u64, u64) -> u64,
    sqrt: u64 -> u64, fromInt: i32 -> u64)

  /** The floating-point unit that `softfp` builds on top of them. */
  function SoftFpu(ops: NearestOps): Fpu
  {
    Fpu((m: RoundingMode, a: u64, b: u64) => AddInner(ops.add(a, b), a, b, m),
        (m: RoundingMode, a: u64, b: u64) => Sub(ops.sub(a, b), ops.add(a, FlipSign(b)), a, b, m),
        (m: RoundingMode, a: u64, b: u64) => MulInner(ops.mul(a, b), a, b, m),
        (m: RoundingMode, a: u64, b: u64) => DivInner(ops.div(a, b), a, b, m),
        (m: RoundingMode, a: u64) => SqrtInner(ops.sqrt(a), a, m),
        ops.fromInt)
  }

  ghost predicate NearestRoot(a: u64, n: u64) { exists x: real :: IsRoot(x, a) && IsNearest(x, n) }

  ghost predicate RoundsSums(fpu: Fpu)
  {
    forall m: RoundingMode, a: u64, b: u64 :: Finite(a) && Finite(b) ==>
      && IsRounded(m, R(Value(a) + Value(b)), fpu.add(m, a, b))
      && IsRounded(m, R(Value(a) - Value(b)), fpu.sub(m, a, b))
  }

  /** All five operations are correctly rounded on finite operands. */
  ghost predicate CorrectlyRounds(fpu: Fpu) { RoundsSums(fpu) && RoundsProducts(fpu) }

  ghost predicate NearestSums(ops: NearestOps)
  {
    && (forall a: u64, b: u64 :: Finite(a) && Finite(b) ==> IsNearest(R(Value(a) + Value(b)), ops.add(a, b)))
    && (forall a: u64, b: u64 :: Finite(a) && Finite(b) ==> IsNearest(R(Value(a) - Value(b)), ops.sub(a, b)))
  }

  ghost predicate CorrectNearest(ops: NearestOps) { NearestSums(ops) && NearestProducts(ops) }

  ghost predicate NearestProducts(ops: NearestOps)
  {
    && (forall a: u64, b: u64 {:trigger ops.mul(a, b)} ::
          (Finite(a) && Finite(b) ==> IsNearest(ExactMul(a, b), ops.mul(a, b)))
          && (a == INF && Finite(b) && Value(b) > 0 ==> ops.mul(a, b) == INF))
    && (forall a: u64, b: u64 {:trigger ops.div(a, b)} ::
          (Finite(a) && Finite(b) && Value(b) != 0 ==> IsNearest(ExactDiv(a, b), ops.div(a, b)))
          && (a == INF && Finite(b) && Value(b) > 0 ==> ops.div(a, b) == INF))
    && (forall a: u64 {:trigger ops.sqrt(a)} ::
          (Finite(a) && !Negative(a) ==> NearestRoot(a, ops.sqrt(a)))
          && (a == INF ==> ops.sqrt(a) == INF))
  }

  lemma InfIsInfinite()
    ensures Infinite(INF)
  {
  }

  lemma SoftMul(ops: NearestOps, m: RoundingMode, a: u64, b: u64)
    requires NearestProducts(ops) && Finite(a) && Finite(b)
    ensures IsRounded(m, ExactMul(a, b), MulInner(ops.mul(a, b), a, b, m))
  {
    hide IsRounded, IsNearest, Value, Pow2, MulInner;
    MulRounds(ExactMul(a, b), ops.mul(a, b), a, b, m);
  }

  lemma SoftDiv(ops: NearestOps, m: RoundingMode, a: u64, b: u64)
    requires NearestProducts(ops) && Finite(a) && Finite(b) && Value(b) != 0
    ensures IsRounded(m, ExactDiv(a, b), DivInner(ops.div(a, b), a, b, m))
  {
    hide IsRounded, IsNearest, Pow2, DivInner, Units;
    ZeroUnits();
    DivRounds(ExactDiv(a, b), ops.div(a, b), a, b, m);
  }

  lemma SoftSqrt(ops: NearestOps, m: RoundingMode, a: u64)
    requires NearestProducts(ops) && Finite(a) && !Negative(a)
    ensures exists x: real :: IsRoot(x, a) && IsRounded(m, x, SqrtInner(ops.sqrt(a), a, m))
  {
    hide IsRounded, IsNearest, Pow2, SqrtInner, Units;
    var n := ops.sqrt(a);
    assert NearestRoot(a, n);
    var x: real :| IsRoot(x, a) && IsNearest(x, n);
    SqrtRounds(x, n, a, m);
    assert IsRoot(x, a) && IsRounded(m, x, SqrtInner(n, a, m));
  }

  lemma SoftSums(ops: NearestOps, m: RoundingMode, a: u64, b: u64)
    requires NearestSums(ops) && Finite(a) && Finite(b)
    ensures IsRounded(m, R(Value(a) + Value(b)), AddInner(ops.add(a, b), a, b, m))
    ensures IsRounded(m, R(Value(a) - Value(b)), Sub(ops.sub(a, b), ops.add(a, FlipSign(b)), a, b, m))
  {
    hide IsRounded, IsNearest, Units, AddInner, Sub;
    AddRounds(R(Value(a) + Value(b)), ops.add(a, b), a, b, m);
    Flipped(b);
    SubRounds(R(Value(a) - Value(b)), ops.sub(a, b), ops.add(a, FlipSign(b)), a, b, m);
  }

  lemma Flipped(b: u64)
    ensures Value(FlipSign(b)) == -Value(b) && (Finite(FlipSign(b)) <==> Finite(b))
  {
    hide Units;
    FlipPosition(b);
    Mirror(Position(b));
  }

  /** With correct round-to-nearest operations, the software unit rounds correctly in all four modes. */
  lemma SoftFpuRounds(ops: NearestOps)
    requires CorrectNearest(ops)
    ensures CorrectlyRounds(SoftFpu(ops))
  {
    hide IsRounded, IsNearest, Value, Pow2, IsRoot, ExactMul, ExactDiv, Finite, ApplyMode;
    var fpu := SoftFpu(ops);
    InfIsInfinite();
    assert RoundsSums(fpu) by {
      forall m: RoundingMode, a: u64, b: u64 | Finite(a) && Finite(b)
        ensures IsRounded(m, R(Value(a) + Value(b)), fpu.add(m, a, b))
        ensures IsRounded(m, R(Value(a) - Value(b)), fpu.sub(m, a, b))
      {
        SoftSums(ops, m, a, b);
      }
    }
    assert RoundsMul(fpu) by {
      forall m: RoundingMode, a: u64, b: u64 | Finite(a) && Finite(b)
        ensures IsRounded(m, ExactMul(a, b), fpu.mul(m, a, b))
      {
        SoftMul(ops, m, a, b);
      }
    }
    assert RoundsDiv(fpu) by {
      forall m: RoundingMode, a: u64, b: u64 | Finite(a) && Finite(b) && Value(b) != 0
        ensures IsRounded(m, ExactDiv(a, b), fpu.div(m, a, b))
      {
        SoftDiv(ops, m, a, b);
      }
    }
    assert RoundsSqrt(fpu) by {
      forall m: RoundingMode, a: u64 | Finite(a) && !Negative(a)
        ensures exists x: real :: IsRoot(x, a) && IsRounded(m, x, fpu.sqrt(m, a))
      {
        SoftSqrt(ops, m, a);
      }
    }
  }

  // ---------- operand order ----------

  lemma AddCommutes(n: u64, a: u64, b: u64, m: RoundingMode)
    ensures AddInner(n, a, b, m) == AddInner(n, b, a, m)
  {
    hide MagnitudeOf, CompareNearbyScaled, ApplyMode, Shl128;
    var ma, mb := MagnitudeOf(a), MagnitudeOf(b);
    if ma.scale == mb.scale {
      AlignedSymmetric(ma, mb);
    }
  }

  lemma AlignedSymmetric(a: Scaled, b: Scaled)
    requires a.scale == b.scale
    ensures Aligned(a, b, true) == Aligned(b, a, true)
  {
    hide Shl;
    assert Shl(a.coefficient, 0) == a.coefficient && Shl(b.coefficient, 0) == b.coefficient by {
      ShlIsMul(a.coefficient, 0);
      ShlIsMul(b.coefficient, 0);
    }
    AddMod128(a.coefficient, b.coefficient);
    AddMod128(b.coefficient, a.coefficient);
  }

  lemma AddMod128(x: nat, y: nat)
    ensures (x % TWO128 + y) % TWO128 == (x + y) % TWO128
  {
    DivMod(x, TWO128);
    AddMultiple(x % TWO128 + y, x / TWO128, TWO128);
  }

  lemma MulCommutes(n: u64, a: u64, b: u64, m: RoundingMode)
    ensures MulInner(n, a, b, m) == MulInner(n, b, a, m)
  {
    hide MagnitudeOf, CompareNearbyScaled, ApplyMode;
    var ma, mb := MagnitudeOf(a), MagnitudeOf(b);
    assert ma.coefficient * mb.coefficient == mb.coefficient * ma.coefficient;
  }

  /** Over commutative nearest operations the software unit may exchange operands, as both interpreters do. */
  lemma SoftFpuCommutes(ops: NearestOps)
    requires forall a: u64, b: u64 :: ops.add(a, b) == ops.add(b, a) && ops.mul(a, b) == ops.mul(b, a)
    ensures Machine.Commutative(SoftFpu(ops))
  {
    hide AddInner, MulInner;
    forall m: RoundingMode, a: u64, b: u64
      ensures AddInner(ops.add(a, b), a, b, m) == AddInner(ops.add(b, a), b, a, m)
      ensures MulInner(ops.mul(a, b), a, b, m) == MulInner(ops.mul(b, a), b, a, m)
    {
      AddCommutes(ops.add(a, b), a, b, m);
      MulCommutes(ops.mul(a, b), a, b, m);
    }
  }
}
