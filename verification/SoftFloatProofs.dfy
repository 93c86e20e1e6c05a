/**
 * The 128-bit comparisons lose nothing, and every operation returns the correctly rounded result
 * (sections 4.3.2, 6.3 and 7.4 of IEEE 754-2019) given any correct round-to-nearest result.
 */
module SoftFloatProofs {
  import opened Words
  import opened Machine
  import opened Binary64
  import opened SoftFloat

  const TWO125: nat := 0x2000_0000_0000_0000_0000_0000_0000_0000

  // ---------- weights: scaled coefficients as integers ----------

  /** `m * 2^k` as an integer. */
  function Weight(m: Scaled, k: int): nat
    requires m.scale + k >= 0
  {
    var p := Pow2(m.scale + k);
    MulMono(0, m.coefficient, p);
    m.coefficient * p
  }

  lemma PowersAt()
    ensures Pow2(53) == TWO53 && Pow2(125) == TWO125 && Pow2(128) == TWO128
  {
    hide Pow2;
    Pow2At64();
    Pow2Add(64, 64);
    Pow2Add(125, 3);
    assert Pow2(3) == 8 by { PowThree(); }
    Pow2Add(53, 11);
    assert Pow2(11) == 2048 by { PowEleven(); }
  }

  lemma PowThree()
    ensures Pow2(3) == 8
  {
  }

  lemma PowEleven()
    ensures Pow2(11) == 2048
  {
  }

  /** The magnitude of a finite value: its weight is the value in units. */
  lemma MagnitudeFacts(b: u64)
    requires Finite(b)
    ensures var m := MagnitudeOf(b);
      && m.coefficient < TWO53
      && -1074 <= m.scale
      && Weight(m, 1074) == Units(Magnitude(b))
      && Pow2(m.scale + 1074) == Ulp(Magnitude(b))
      && (m.coefficient == 0 <==> Magnitude(b) == 0)
  {
    hide Pow2;
    FirstPower();
    MagnitudeCases(b);
    var k := Magnitude(b);
    assert b % TWO52 == k % TWO52;
    if k < TWO52 {
      assert k / TWO52 == 0 && k % TWO52 == k;
    } else {
      assert k / TWO52 > 0;
    }
  }

  lemma CmpScale(u: int, v: int, p: int)
    requires p > 0
    ensures Cmp(u * p, v * p) == Cmp(u, v)
  {
    if u < v {
      MulMono(u + 1, v, p);
    } else if v < u {
      MulMono(v + 1, u, p);
    }
  }

  /** A shift that stays below 2^128 is exact. */
  lemma ShiftExact(c: nat, d: nat, w: int)
    requires c > 0 && w == c * Pow2(d) && w < TWO128
    ensures d < 128 && Shl128(c, d) == w
  {
    hide Pow2;
    MulMono(1, c, Pow2(d));
    PowersAt();
    if d >= 128 {
      Pow2Mono(128, d);
    }
    ShlIsMul(c, d);
  }

  lemma SplitWeight(m: Scaled, k: int, d: nat)
    requires m.scale - d + k >= 0
    ensures Weight(m, k) == (m.coefficient * Pow2(d)) * Pow2(m.scale - d + k)
  {
    hide Pow2;
    Pow2Add(d, m.scale - d + k);
    MulAssoc(m.coefficient, Pow2(d), Pow2(m.scale - d + k));
  }

  /** The larger-scaled coefficient, aligned to the smaller scale, fits in 128 bits. */
  ghost predicate AlignmentFits(a: Scaled, b: Scaled)
  {
    && (a.scale >= b.scale ==> a.coefficient * Pow2(a.scale - b.scale) < TWO128)
    && (a.scale < b.scale ==> b.coefficient * Pow2(b.scale - a.scale) < TWO128)
  }

  /** A comparison in u128 that loses nothing: both coefficients fit, and so does the one it shifts, by less than 128. */
  ghost predicate Lossless(a: Scaled, b: Scaled)
  {
    && a.coefficient < TWO128 && b.coefficient < TWO128
    && (a.coefficient > 0 && b.coefficient > 0 ==>
          AlignmentFits(a, b) && a.scale - b.scale < 128 && b.scale - a.scale < 128)
  }

  /** A positive coefficient that fits when shifted is shifted by less than 128. */
  lemma ShiftBelow128(c: nat, d: nat)
    requires c > 0 && c * Pow2(d) < TWO128
    ensures d < 128
  {
    hide Pow2;
    if d >= 128 {
      PowersAt();
      Pow2Mono(128, d);
      MulMono(1, c, Pow2(d));
    }
  }

  lemma FittingIsLossless(a: Scaled, b: Scaled)
    requires a.coefficient < TWO128 && b.coefficient < TWO128 && AlignmentFits(a, b)
    ensures Lossless(a, b)
  {
    hide Pow2;
    if a.coefficient > 0 && b.coefficient > 0 {
      if a.scale >= b.scale {
        ShiftBelow128(a.coefficient, a.scale - b.scale);
      } else {
        ShiftBelow128(b.coefficient, b.scale - a.scale);
      }
    }
  }

  /** A lossless comparison is the comparison of the values. */
  lemma LosslessIsExact(a: Scaled, b: Scaled, k: int)
    requires a.scale + k >= 0 && b.scale + k >= 0 && Lossless(a, b)
    ensures CompareNearbyScaled(a, b) == Cmp(Weight(a, k), Weight(b, k))
  {
    hide Pow2, CompareNearbyScaled, Weight;
    if a.coefficient == 0 || b.coefficient == 0 {
      ZeroCompare(a, b, k);
    } else {
      CompareExact(a, b, k);
    }
  }

  /** When the alignment fits, the 128-bit comparison is the comparison of the values. */
  lemma CompareExact(a: Scaled, b: Scaled, k: int)
    requires a.scale + k >= 0 && b.scale + k >= 0 && AlignmentFits(a, b)
    ensures CompareNearbyScaled(a, b) == Cmp(Weight(a, k), Weight(b, k))
  {
    hide Pow2, Shl128;
    if a.coefficient == 0 || b.coefficient == 0 {
      ZeroCompare(a, b, k);
    } else if a.scale >= b.scale {
      var d := a.scale - b.scale;
      SplitWeight(a, k, d);
      ShiftExact(a.coefficient, d, a.coefficient * Pow2(d));
      CmpScale(a.coefficient * Pow2(d), b.coefficient, Pow2(b.scale + k));
      if d == 0 {
        FirstPower();
      }
    } else {
      var d := b.scale - a.scale;
      SplitWeight(b, k, d);
      ShiftExact(b.coefficient, d, b.coefficient * Pow2(d));
      CmpScale(a.coefficient, b.coefficient * Pow2(d), Pow2(a.scale + k));
    }
  }

  lemma ZeroCompare(a: Scaled, b: Scaled, k: int)
    requires a.scale + k >= 0 && b.scale + k >= 0 && (a.coefficient == 0 || b.coefficient == 0)
    ensures CompareNearbyScaled(a, b) == Cmp(Weight(a, k), Weight(b, k))
  {
    hide Pow2;
    if a.coefficient > 0 {
      MulMono(1, a.coefficient, Pow2(a.scale + k));
    }
    if b.coefficient > 0 {
      MulMono(1, b.coefficient, Pow2(b.scale + k));
    }
  }

  /** Values within a factor of four of each other, with coefficients below 2^125, align without loss. */
  lemma NearbyFits(a: Scaled, b: Scaled, k: int)
    requires a.scale + k >= 0 && b.scale + k >= 0
    requires a.coefficient < TWO125 && b.coefficient < TWO125
    requires Weight(a, k) <= 4 * Weight(b, k) && Weight(b, k) <= 4 * Weight(a, k)
    ensures AlignmentFits(a, b)
  {
    hide Pow2, Weight;
    if a.scale >= b.scale {
      AlignmentBound(a, b, k);
    } else {
      AlignmentBound(b, a, k);
    }
  }

  lemma AlignmentBound(a: Scaled, b: Scaled, k: int)
    requires a.scale >= b.scale && b.scale + k >= 0 && Weight(a, k) <= 4 * Weight(b, k)
    ensures a.coefficient * Pow2(a.scale - b.scale) <= 4 * b.coefficient
  {
    hide Pow2, Weight;
    var p := Pow2(b.scale + k);
    SplitWeight(a, k, a.scale - b.scale);
    WeightIs(b, k);
    MulAssoc(4, b.coefficient, p);
    Cancel(a.coefficient * Pow2(a.scale - b.scale), 4 * b.coefficient, p);
  }

  lemma Cancel(u: int, v: int, p: int)
    requires p > 0 && u * p <= v * p
    ensures u <= v
  {
    if u > v {
      MulMono(v + 1, u, p);
    }
  }

  /** The product of two 53-bit coefficients is exact, and so is its weight. */
  lemma ProductWeight(a: Scaled, b: Scaled)
    requires a.coefficient < TWO53 && b.coefficient < TWO53 && a.scale >= -1074 && b.scale >= -1074
    ensures ProductFits(a, b)
    ensures var m := MultiplyMagnitudes(a, b);
      && m.coefficient < TWO125
      && m.scale + 2148 >= 0
      && Weight(m, 2148) == Weight(a, 1074) * Weight(b, 1074)
      && (m.coefficient == 0 <==> a.coefficient == 0 || b.coefficient == 0)
  {
    hide Pow2;
    var c, d := a.coefficient, b.coefficient;
    var p, q := Pow2(a.scale + 1074), Pow2(b.scale + 1074);
    Pow2Add(a.scale + 1074, b.scale + 1074);
    MulMono(c, TWO53 - 1, d);
    MulMono(0, c, d);
    ModBig(c * d);
    if c > 0 && d > 0 {
      MulMono(1, c, d);
    }
    FourFactors(c, d, p, q);
  }

  lemma ModBig(x: nat)
    requires x < TWO128
    ensures x % TWO128 == x
  {
  }

  lemma FourFactors(c: int, d: int, p: int, q: int)
    ensures (c * d) * (p * q) == (c * p) * (d * q)
  {
    MulAssoc(c, d, p * q);
    MulAssoc(c, p, d * q);
    MulAssoc(d, p, q);
    MulAssoc(p, d, q);
  }

  lemma LiftWeight(m: Scaled)
    requires m.scale >= -1074
    ensures Weight(m, 2148) == Weight(m, 1074) * Pow2(1074)
  {
    hide Pow2;
    Pow2Add(m.scale + 1074, 1074);
    MulAssoc(m.coefficient, Pow2(m.scale + 1074), Pow2(1074));
  }

  // ---------- from magnitudes to signed values ----------

  /** Rounding is symmetric: the magnitude of the nearest value is nearest to the magnitude. */
  lemma MagnitudeNear(x: real, n: u64)
    requires IsNearest(x, n) && Finite(n)
    ensures Near(AbsR(x), Magnitude(n))
    ensures R(Value(n)) == if x < 0.0 then -R(Units(Magnitude(n))) else R(Units(Magnitude(n)))
  {
    hide Units;
    ZeroUnits();
    if x < 0.0 {
      NearMirror(x, Position(n));
    } else if x == 0.0 {
      NearRepresentable(x, Position(n), 0);
    }
  }

  /** Reversing the relation of the magnitudes gives the relation of negative values. */
  lemma SignedRelation(x: real, n: u64, relation: Ordering, negative: bool)
    requires IsNearest(x, n) && Finite(n)
    requires x != 0.0 ==> negative == (x < 0.0)
    requires Relates(relation, AbsR(x), R(Units(Magnitude(n))))
    ensures Relates(ReverseIfNegative(relation, negative), x, R(Value(n)))
  {
    hide Units, Near;
    MagnitudeNear(x, n);
    if x == 0.0 {
      ZeroUnits();
      ZeroIsItself(n);
    }
  }

  /** Comparing `x` with `n` is comparing multiples of them by a positive factor `d`. */
  lemma RelatesScaled(x: real, n: int, d: real, a: int, b: int)
    requires d > 0.0 && x * d == R(a) && R(n) * d == R(b)
    ensures Relates(Cmp(a, b), x, R(n))
  {
    var y := R(n);
    if x < y {
      RealMono(x, y, d);
    } else if y < x {
      RealMono(y, x, d);
    }
  }

  lemma RealMono(x: real, y: real, d: real)
    requires d > 0.0 && x < y
    ensures x * d < y * d
  {
  }

  lemma RatioScaled(x: real, n: int, d: real, a: int, b: int)
    requires d > 0.0 && x * d == R(a) && R(n) * d == R(b)
    requires R(n) <= 2.0 * x && x <= 2.0 * R(n)
    ensures b <= 2 * a && a <= 2 * b
  {
    var y := R(n);
    RealMonoLe(y, 2.0 * x, d);
    RealMonoLe(x, 2.0 * y, d);
    Twice(x, d);
    Twice(y, d);
  }

  lemma Twice(x: real, d: real)
    ensures (2.0 * x) * d == 2.0 * (x * d)
  {
  }

  lemma RealMonoLe(x: real, y: real, d: real)
    requires d > 0.0 && x <= y
    ensures x * d <= y * d
  {
  }

  lemma RealProduct(a: int, b: int)
    ensures R(a * b) == R(a) * R(b)
  {
  }

  // ---------- multiplication ----------

  /** Either one side is zero, or the two sides are within a factor of two. */
  ghost predicate Nearby(x: real, k: int) { x == 0.0 || k == 0 || (R(k) <= 2.0 * x && x <= 2.0 * R(k)) }

  lemma NearestIsNearby(x: real, n: u64)
    requires IsNearest(x, n) && Finite(n)
    ensures Nearby(AbsR(x), Units(Magnitude(n)))
  {
    hide Units, Near;
    MagnitudeNear(x, n);
    if x != 0.0 && Magnitude(n) > 0 {
      WithinBinade(AbsR(x), Magnitude(n));
    } else {
      ZeroUnits();
    }
  }

  /** `m` is `y * d` in units of 2^-2148. */
  ghost predicate Scales(y: real, d: real, m: Scaled) { m.scale + 2148 >= 0 && y * d == R(Weight(m, 2148)) }

  /** Weights in proportion to two nearby values compare without loss. */
  lemma ComparisonFits(x: real, k: int, d: real, exact: Scaled, near: Scaled)
    requires exact.coefficient < TWO125 && near.coefficient < TWO125
    requires d > 0.0 && Scales(x, d, exact) && Scales(R(k), d, near) && Nearby(x, k)
    ensures Lossless(exact, near)
  {
    hide Pow2, Weight, AlignmentFits;
    if exact.coefficient > 0 && near.coefficient > 0 {
      PositiveWeight(exact, 2148);
      PositiveWeight(near, 2148);
      RatioScaled(x, k, d, Weight(exact, 2148), Weight(near, 2148));
      NearbyFits(exact, near, 2148);
      FittingIsLossless(exact, near);
    }
  }

  /** Weights in proportion to `x` and `k`: the 128-bit comparison decides between `x` and `k`. */
  lemma ComparisonRelates(x: real, k: int, d: real, exact: Scaled, near: Scaled)
    requires Lossless(exact, near) && d > 0.0 && Scales(x, d, exact) && Scales(R(k), d, near)
    ensures Relates(CompareNearbyScaled(exact, near), x, R(k))
  {
    hide Pow2, CompareNearbyScaled, Weight, Lossless;
    RelatesScaled(x, k, d, Weight(exact, 2148), Weight(near, 2148));
    LosslessIsExact(exact, near, 2148);
  }

  ghost predicate ProductFits(a: Scaled, b: Scaled) { a.coefficient * b.coefficient < TWO128 }

  lemma ProductScales(y: real, d: int, m: Scaled)
    requires m.scale + 2148 >= 0 && y * R(d) == R(Weight(m, 2148))
    ensures Scales(y, R(d), m)
  {
    hide Weight;
  }

  lemma UnitScales(u: int, d: int, m: Scaled)
    requires m.scale + 2148 >= 0 && Weight(m, 2148) == u * d
    ensures Scales(R(u), R(d), m)
  {
    hide Weight;
    RealProduct(u, d);
  }

  lemma LiftScales(u: int, m: Scaled)
    requires m.scale >= -1074 && Weight(m, 2148) == u * Pow2(1074)
    ensures Scales(R(u), R(Pow2(1074)), m)
  {
    hide Weight, Pow2;
    RealProduct(u, Pow2(1074));
  }

  /** What the comparison inside `mul` compares: nothing is lost, and the weights are in proportion. */
  lemma MulParts(x: real, n: u64, a: u64, b: u64)
    requires Finite(a) && Finite(b) && IsNearest(x, n) && Finite(n)
    requires AbsR(x) * R(Pow2(1074)) == R(Units(Magnitude(a)) * Units(Magnitude(b)))
    ensures var exact, near := MultiplyMagnitudes(MagnitudeOf(a), MagnitudeOf(b)), MagnitudeOf(n);
      && ProductFits(MagnitudeOf(a), MagnitudeOf(b)) && Lossless(exact, near)
      && R(Pow2(1074)) > 0.0 && Scales(AbsR(x), R(Pow2(1074)), exact)
      && Scales(R(Units(Magnitude(n))), R(Pow2(1074)), near)
  {
    hide Units, Pow2, Near, MultiplyMagnitudes, MagnitudeOf, Weight, IsNearest, AbsR, Nearby, Lossless, ProductFits;
    hide Scales;
    var ma, mb, near := MagnitudeOf(a), MagnitudeOf(b), MagnitudeOf(n);
    MagnitudeFacts(a);
    MagnitudeFacts(b);
    MagnitudeFacts(n);
    ProductWeight(ma, mb);
    ProductScales(AbsR(x), Pow2(1074), MultiplyMagnitudes(ma, mb));
    LiftWeight(near);
    LiftScales(Units(Magnitude(n)), near);
    NearestIsNearby(x, n);
    ComparisonFits(AbsR(x), Units(Magnitude(n)), R(Pow2(1074)), MultiplyMagnitudes(ma, mb), near);
  }

  lemma MulRelation(x: real, n: u64, a: u64, b: u64)
    requires Finite(a) && Finite(b) && IsNearest(x, n) && Finite(n)
    requires AbsR(x) * R(Pow2(1074)) == R(Units(Magnitude(a)) * Units(Magnitude(b)))
    ensures Relates(CompareNearbyScaled(MultiplyMagnitudes(MagnitudeOf(a), MagnitudeOf(b)), MagnitudeOf(n)),
                    AbsR(x), R(Units(Magnitude(n))))
  {
    hide Units, Pow2, CompareNearbyScaled, MultiplyMagnitudes, MagnitudeOf, Weight, IsNearest, AbsR, Relates, Lossless;
    hide Scales;
    MulParts(x, n, a, b);
    ComparisonRelates(AbsR(x), Units(Magnitude(n)), R(Pow2(1074)),
                      MultiplyMagnitudes(MagnitudeOf(a), MagnitudeOf(b)), MagnitudeOf(n));
  }

  lemma PositiveWeight(m: Scaled, k: int)
    requires m.scale + k >= 0 && m.coefficient > 0
    ensures Weight(m, k) > 0
  {
    hide Pow2;
    MulMono(1, m.coefficient, Pow2(m.scale + k));
  }

  lemma ValueParts(b: u64)
    ensures Value(b) == if Negative(b) then -Units(Magnitude(b)) else Units(Magnitude(b))
  {
    hide Units;
    ZeroUnits();
  }

  lemma ProductParts(a: u64, b: u64)
    ensures Value(a) * Value(b) ==
            if Negative(a) != Negative(b) then -(Units(Magnitude(a)) * Units(Magnitude(b)))
            else Units(Magnitude(a)) * Units(Magnitude(b))
    ensures Units(Magnitude(a)) * Units(Magnitude(b)) >= 0
  {
    hide Units, Value;
    ValueParts(a);
    ValueParts(b);
    MulMono(0, Units(Magnitude(a)), Units(Magnitude(b)));
  }

  /** `x * d` has the sign of `x` and the magnitude of `|x| * d`. */
  lemma ScaledParts(x: real, d: real)
    requires d > 0.0
    ensures AbsR(x) * d == AbsR(x * d)
    ensures (x < 0.0 <==> x * d < 0.0) && (x == 0.0 <==> x * d == 0.0)
  {
    if x < 0.0 {
      RealMono(x, 0.0, d);
    } else if x > 0.0 {
      RealMono(0.0, x, d);
    }
  }

  /** `mul`: correctly rounded in every mode, for all finite operands. */
  lemma MulRounds(x: real, n: u64, a: u64, b: u64, mode: RoundingMode)
    requires Finite(a) && Finite(b) && IsNearest(x, n)
    requires x * R(Pow2(1074)) == R(Value(a) * Value(b))
    ensures IsRounded(mode, x, MulInner(n, a, b, mode))
  {
    hide Units, Pow2, Near, CompareNearbyScaled, MultiplyMagnitudes, MagnitudeOf, Value, IsRounded, ApplyMode;
    if Infinite(n) {
      OverflowRounds(x, n, mode);
    } else {
      NearestIsFinite(x, n);
      ScaledParts(x, R(Pow2(1074)));
      ProductParts(a, b);
      MulRelation(x, n, a, b);
      var negative := Negative(a) != Negative(b);
      var relation := CompareNearbyScaled(MultiplyMagnitudes(MagnitudeOf(a), MagnitudeOf(b)), MagnitudeOf(n));
      SignedRelation(x, n, relation, negative);
      ApplyModeRounds(x, n, ReverseIfNegative(relation, negative), negative, mode);
    }
  }

  /** `mul` loses no bit in u128, for all finite operands and any nearest result it compares with. */
  lemma MulLossless(x: real, n: u64, a: u64, b: u64)
    requires Finite(a) && Finite(b) && IsNearest(x, n) && !Infinite(n)
    requires x * R(Pow2(1074)) == R(Value(a) * Value(b))
    ensures ProductFits(MagnitudeOf(a), MagnitudeOf(b))
    ensures Lossless(MultiplyMagnitudes(MagnitudeOf(a), MagnitudeOf(b)), MagnitudeOf(n))
  {
    hide Units, Pow2, Near, Lossless, ProductFits, MultiplyMagnitudes, MagnitudeOf, Value;
    NearestIsFinite(x, n);
    ScaledParts(x, R(Pow2(1074)));
    ProductParts(a, b);
    MulParts(x, n, a, b);
  }

  lemma NearestIsFinite(x: real, n: u64)
    requires IsNearest(x, n) && !Infinite(n)
    ensures Finite(n)
  {
  }

  // ---------- division ----------

  lemma DivParts(x: real, n: u64, a: u64, b: u64)
    requires Finite(a) && Finite(b) && Magnitude(b) != 0 && IsNearest(x, n) && Finite(n)
    requires AbsR(x) * R(Units(Magnitude(b))) == R(Units(Magnitude(a)) * Pow2(1074))
    ensures var exact, near := MagnitudeOf(a), MultiplyMagnitudes(MagnitudeOf(n), MagnitudeOf(b));
      && ProductFits(MagnitudeOf(n), MagnitudeOf(b)) && Lossless(exact, near)
      && R(Units(Magnitude(b))) > 0.0 && Scales(AbsR(x), R(Units(Magnitude(b))), exact)
      && Scales(R(Units(Magnitude(n))), R(Units(Magnitude(b))), near)
  {
    hide Units, Pow2, Near, MultiplyMagnitudes, MagnitudeOf, Weight, IsNearest, AbsR, Nearby, Lossless, ProductFits;
    hide Scales;
    var exact, mn, mb := MagnitudeOf(a), MagnitudeOf(n), MagnitudeOf(b);
    MagnitudeFacts(a);
    MagnitudeFacts(b);
    MagnitudeFacts(n);
    ProductWeight(mn, mb);
    LiftWeight(exact);
    PositiveWeight(mb, 1074);
    ProductScales(AbsR(x), Units(Magnitude(b)), exact);
    UnitScales(Units(Magnitude(n)), Units(Magnitude(b)), MultiplyMagnitudes(mn, mb));
    NearestIsNearby(x, n);
    ComparisonFits(AbsR(x), Units(Magnitude(n)), R(Units(Magnitude(b))), exact, MultiplyMagnitudes(mn, mb));
  }

  lemma DivRelation(x: real, n: u64, a: u64, b: u64)
    requires Finite(a) && Finite(b) && Magnitude(b) != 0 && IsNearest(x, n) && Finite(n)
    requires AbsR(x) * R(Units(Magnitude(b))) == R(Units(Magnitude(a)) * Pow2(1074))
    ensures Relates(CompareNearbyScaled(MagnitudeOf(a), MultiplyMagnitudes(MagnitudeOf(n), MagnitudeOf(b))),
                    AbsR(x), R(Units(Magnitude(n))))
  {
    hide Units, Pow2, CompareNearbyScaled, MultiplyMagnitudes, MagnitudeOf, Weight, IsNearest, AbsR, Relates, Lossless;
    hide Scales;
    DivParts(x, n, a, b);
    ComparisonRelates(AbsR(x), Units(Magnitude(n)), R(Units(Magnitude(b))),
                      MagnitudeOf(a), MultiplyMagnitudes(MagnitudeOf(n), MagnitudeOf(b)));
  }

  /** `div` loses no bit in u128, for all finite operands, non-zero divisors and any nearest result. */
  lemma DivLossless(x: real, n: u64, a: u64, b: u64)
    requires Finite(a) && Finite(b) && Magnitude(b) != 0 && IsNearest(x, n) && !Infinite(n)
    requires x * R(Value(b)) == R(Value(a) * Pow2(1074))
    ensures ProductFits(MagnitudeOf(n), MagnitudeOf(b))
    ensures Lossless(MagnitudeOf(a), MultiplyMagnitudes(MagnitudeOf(n), MagnitudeOf(b)))
  {
    hide Units, Pow2, Near, Lossless, ProductFits, MultiplyMagnitudes, MagnitudeOf, Value;
    NearestIsFinite(x, n);
    QuotientParts(x, a, b);
    DivParts(x, n, a, b);
  }

  /** `div`: correctly rounded in every mode, for all finite operands and non-zero divisors. */
  lemma DivRounds(x: real, n: u64, a: u64, b: u64, mode: RoundingMode)
    requires Finite(a) && Finite(b) && Magnitude(b) != 0 && IsNearest(x, n)
    requires x * R(Value(b)) == R(Value(a) * Pow2(1074))
    ensures IsRounded(mode, x, DivInner(n, a, b, mode))
  {
    hide Units, Pow2, Near, CompareNearbyScaled, MultiplyMagnitudes, MagnitudeOf, Value, IsRounded, ApplyMode;
    if Infinite(n) {
      OverflowRounds(x, n, mode);
    } else {
      NearestIsFinite(x, n);
      QuotientParts(x, a, b);
      DivRelation(x, n, a, b);
      var negative := Negative(a) != Negative(b);
      var relation := CompareNearbyScaled(MagnitudeOf(a), MultiplyMagnitudes(MagnitudeOf(n), MagnitudeOf(b)));
      SignedRelation(x, n, relation, negative);
      ApplyModeRounds(x, n, ReverseIfNegative(relation, negative), negative, mode);
    }
  }

  lemma QuotientParts(x: real, a: u64, b: u64)
    requires Finite(b) && Magnitude(b) != 0 && x * R(Value(b)) == R(Value(a) * Pow2(1074))
    ensures AbsR(x) * R(Units(Magnitude(b))) == R(Units(Magnitude(a)) * Pow2(1074))
    ensures x != 0.0 ==> (x < 0.0) == (Negative(a) != Negative(b))
  {
    hide Units, Pow2, Value;
    ValueParts(a);
    ValueParts(b);
    UnitsIncrease(0, Magnitude(b));
    ZeroUnits();
    var d, p := R(Units(Magnitude(b))), Pow2(1074);
    ScaledParts(x, d);
    MulMono(0, Units(Magnitude(a)), p);
    assert x * -d == -(x * d);
    assert Value(a) * p == (if Negative(a) then -(Units(Magnitude(a)) * p) else Units(Magnitude(a)) * p);
  }

  // ---------- square root ----------

  lemma SquareOrder(x: real, y: real)
    requires 0.0 <= x < y
    ensures x * x < y * y
  {
    var z := x;
    calc {
      x * x;
    <= { RealMonoNonneg(x, y, z); assert x * z <= y * z; }
      y * z;
    ==
      z * y;
    <  { RealMono(z, y, y); }
      y * y;
    }
  }

  lemma CmpSquares(x: real, y: real, a: int, b: int)
    requires x >= 0.0 && y >= 0.0 && x * x == R(a) && y * y == R(b)
    ensures Relates(Cmp(a, b), x, y)
  {
    if x < y {
      SquareOrder(x, y);
    } else if y < x {
      SquareOrder(y, x);
    }
  }

  lemma RatioSquares(x: real, y: real, a: int, b: int)
    requires x >= 0.0 && y >= 0.0 && x * x == R(a) && y * y == R(b)
    requires x <= 2.0 * y && y <= 2.0 * x
    ensures a <= 4 * b && b <= 4 * a
  {
    SquareRatio(x, y);
    SquareRatio(y, x);
  }

  lemma SquareRatio(x: real, y: real)
    requires 0.0 <= x <= 2.0 * y
    ensures x * x <= 4.0 * (y * y)
  {
    var z := 2.0 * y;
    RealMonoNonneg(x, z, x);
    RealMonoNonneg(x, z, z);
    assert z * z == 4.0 * (y * y);
  }

  lemma RealMonoNonneg(x: real, y: real, d: real)
    requires d >= 0.0 && x <= y
    ensures x * d <= y * d
  {
  }

  lemma SquaresFit(x: real, k: int, exact: Scaled, near: Scaled)
    requires exact.scale + 2148 >= 0 && near.scale + 2148 >= 0
    requires exact.coefficient < TWO125 && near.coefficient < TWO125
    requires x >= 0.0 && k >= 0 && x * x == R(Weight(exact, 2148)) && R(k) * R(k) == R(Weight(near, 2148))
    requires Nearby(x, k)
    ensures Lossless(exact, near)
  {
    hide Pow2, Weight, AlignmentFits;
    if exact.coefficient > 0 && near.coefficient > 0 {
      PositiveWeight(exact, 2148);
      PositiveWeight(near, 2148);
      RatioSquares(x, R(k), Weight(exact, 2148), Weight(near, 2148));
      NearbyFits(exact, near, 2148);
      FittingIsLossless(exact, near);
    }
  }

  lemma SquaresRelate(x: real, k: int, exact: Scaled, near: Scaled)
    requires exact.scale + 2148 >= 0 && near.scale + 2148 >= 0 && Lossless(exact, near)
    requires x >= 0.0 && k >= 0 && x * x == R(Weight(exact, 2148)) && R(k) * R(k) == R(Weight(near, 2148))
    ensures Relates(CompareNearbyScaled(exact, near), x, R(k))
  {
    hide Pow2, CompareNearbyScaled, Weight, Lossless;
    CmpSquares(x, R(k), Weight(exact, 2148), Weight(near, 2148));
    LosslessIsExact(exact, near, 2148);
  }

  lemma SqrtParts(x: real, n: u64, a: u64)
    requires Finite(a) && IsNearest(x, n) && Finite(n) && x >= 0.0
    requires x * x == R(Units(Magnitude(a)) * Pow2(1074))
    ensures var exact, near := MagnitudeOf(a), MultiplyMagnitudes(MagnitudeOf(n), MagnitudeOf(n));
      && ProductFits(MagnitudeOf(n), MagnitudeOf(n)) && Lossless(exact, near)
      && exact.scale + 2148 >= 0 && near.scale + 2148 >= 0 && x * x == R(Weight(exact, 2148))
      && R(Units(Magnitude(n))) * R(Units(Magnitude(n))) == R(Weight(near, 2148))
  {
    hide Units, Pow2, Near, MultiplyMagnitudes, MagnitudeOf, Weight, IsNearest, Nearby, Lossless, ProductFits;
    var exact, mn := MagnitudeOf(a), MagnitudeOf(n);
    MagnitudeFacts(a);
    MagnitudeFacts(n);
    ProductWeight(mn, mn);
    LiftWeight(exact);
    NearestIsNearby(x, n);
    RealProduct(Units(Magnitude(n)), Units(Magnitude(n)));
    SquaresFit(x, Units(Magnitude(n)), exact, MultiplyMagnitudes(mn, mn));
  }

  lemma SqrtRelation(x: real, n: u64, a: u64)
    requires Finite(a) && IsNearest(x, n) && Finite(n) && x >= 0.0
    requires x * x == R(Units(Magnitude(a)) * Pow2(1074))
    ensures Relates(CompareNearbyScaled(MagnitudeOf(a), MultiplyMagnitudes(MagnitudeOf(n), MagnitudeOf(n))),
                    x, R(Units(Magnitude(n))))
  {
    hide Units, Pow2, CompareNearbyScaled, MultiplyMagnitudes, MagnitudeOf, Weight, IsNearest, Relates, Lossless;
    SqrtParts(x, n, a);
    SquaresRelate(x, Units(Magnitude(n)), MagnitudeOf(a), MultiplyMagnitudes(MagnitudeOf(n), MagnitudeOf(n)));
  }

  /** `sqrt` loses no bit in u128, for all finite operands that are not negative and any nearest result. */
  lemma SqrtLossless(x: real, n: u64, a: u64)
    requires Finite(a) && IsNearest(x, n) && x >= 0.0
    requires x * x == R(Value(a) * Pow2(1074)) && Value(a) >= 0
    ensures ProductFits(MagnitudeOf(n), MagnitudeOf(n))
    ensures Lossless(MagnitudeOf(a), MultiplyMagnitudes(MagnitudeOf(n), MagnitudeOf(n)))
  {
    hide Units, Pow2, Near, Lossless, ProductFits, MultiplyMagnitudes, MagnitudeOf, Value;
    ValueParts(a);
    RootIsFinite(x, n, a);
    SqrtParts(x, n, a);
  }

  /** The value that stands for infinity, in units: 2^2098. */
  lemma InfinityUnits()
    ensures Units(INF) > 4 * Pow2(1074) > 0
  {
    hide Pow2;
    assert INF / TWO52 == 2047 && INF % TWO52 == 0;
    Pow2Mono(1074, 2046);
    MulMono(Pow2(1074), Pow2(2046), TWO52);
  }

  lemma NoSuchSquare(t: int, v: int, p: int)
    requires 0 <= v <= t && 0 < 4 * p < t
    ensures t * t > 4 * (v * p)
  {
    MulMono(v, t, p);
    MulMono(4 * p + 1, t, t);
  }

  /** A root never overflows. */
  lemma RootIsFinite(x: real, n: u64, a: u64)
    requires Finite(a) && IsNearest(x, n) && x >= 0.0
    requires x * x == R(Units(Magnitude(a)) * Pow2(1074))
    ensures Finite(n)
  {
    hide Units, Pow2;
    if !Finite(n) {
      var t, v, p := Units(INF), Units(Magnitude(a)), Pow2(1074);
      InfinityUnits();
      UnitsIncrease(Magnitude(a), INF);
      assert R(t) <= 2.0 * x;
      SquareRatio(R(t), x);
      RealProduct(t, t);
      NoSuchSquare(t, v, p);
    }
  }

  /** `sqrt`: correctly rounded in every mode, for all finite operands that are not negative. */
  lemma SqrtRounds(x: real, n: u64, a: u64, mode: RoundingMode)
    requires Finite(a) && IsNearest(x, n) && x >= 0.0
    requires x * x == R(Value(a) * Pow2(1074)) && Value(a) >= 0
    ensures IsRounded(mode, x, SqrtInner(n, a, mode))
  {
    hide Units, Pow2, Near, CompareNearbyScaled, MultiplyMagnitudes, MagnitudeOf, Value, IsRounded, ApplyMode;
    ValueParts(a);
    RootIsFinite(x, n, a);
    SqrtRelation(x, n, a);
    var relation := CompareNearbyScaled(MagnitudeOf(a), MultiplyMagnitudes(MagnitudeOf(n), MagnitudeOf(n)));
    SignedRelation(x, n, relation, false);
    ApplyModeRounds(x, n, relation, false, mode);
  }

  // ---------- addition ----------

  /** A summand below half an ulp of the other does not move the nearest value off it. */
  lemma SmallSummand(x: real, p: int, big: nat, small: int)
    requires Near(x, p) && p >= 0 && big < INF && small > 0
    requires x == R(Units(big) + small) && 2 * small < Ulp(big)
    ensures p == big
  {
    hide Units, Ulp;
    if p < big {
      NothingBetween(x, p, big);
      AtIncreases(p, big);
    } else if p > big {
      Midpoints(x, p);
      NextUnits(big);
      AtIncreases(big, p);
      if big + 1 < p { AtIncreases(big + 1, p); AtIncreases(big, p - 1); }
    }
  }

  lemma UlpStep(k: nat)
    requires k >= 1
    ensures 2 * Ulp(k - 1) >= Ulp(k)
  {
    hide Pow2;
    if k >= TWO52 {
      var e := k / TWO52;
      if k - 1 < TWO52 {
        assert e == 1;
        FirstPower();
      } else if (k - 1) / TWO52 != e {
        assert (k - 1) / TWO52 == e - 1;
        NextPower(e - 1);
      }
    }
  }

  /** The same for a subtrahend, below a quarter of an ulp. */
  lemma SmallSubtrahend(x: real, p: int, big: nat, small: int)
    requires Near(x, p) && p >= 0 && big < INF && small > 0
    requires x == R(Units(big) - small) && 4 * small < Ulp(big)
    ensures p == big
  {
    hide Units, Ulp;
    NotAbove(x, p, big);
    if p < big {
      Midpoints(x, p);
      NextUnits(big - 1);
      UlpStep(big);
      if p + 1 < big { AtIncreases(p + 1, big); AtIncreases(p, big - 1); }
    }
  }

  lemma NotAbove(x: real, p: int, big: nat)
    requires Near(x, p) && p >= 0 && big < INF && x <= R(Units(big))
    ensures p <= big && Units(p) <= Units(big)
  {
    hide Units;
    if p > big {
      NothingBetween(x, p, big);
      AtIncreases(big, p);
    } else if p < big {
      AtIncreases(p, big);
    }
  }

  /** The aligned sum or difference is exact up to a distance of 75 places. */
  lemma AlignedExact(big: Scaled, small: Scaled, plus: bool)
    requires big.coefficient < TWO53 && 0 < small.coefficient < TWO53
    requires 0 <= big.scale - small.scale <= 75 && small.scale >= -1074
    requires plus || Weight(big, 1074) > Weight(small, 1074)
    ensures var m := Aligned(big, small, plus);
      var shifted := big.coefficient * Pow2(big.scale - small.scale);
      && shifted < TWO128 && m.coefficient < TWO128
      && m.coefficient == (if plus then shifted + small.coefficient else shifted - small.coefficient)
      && m.scale == small.scale
      && Weight(m, 1074) == (if plus then Weight(big, 1074) + Weight(small, 1074)
                             else Weight(big, 1074) - Weight(small, 1074))
      && (big.scale - small.scale <= 53 ==> m.coefficient < TWO125)
  {
    hide Pow2, Shl128, Weight;
    var d := big.scale - small.scale;
    var shifted := big.coefficient * Pow2(d);
    var p := Pow2(small.scale + 1074);
    ShiftedBound(big.coefficient, d);
    if big.coefficient > 0 {
      ShiftExact(big.coefficient, d, shifted);
    } else {
      ShiftZero(d);
    }
    SplitWeight(big, 1074, d);
    WeightIs(small, 1074);
    if !plus {
      if shifted <= small.coefficient {
        MulMono(shifted, small.coefficient, p);
      }
      Distribute(shifted - small.coefficient, small.coefficient, p);
      ModBig(shifted - small.coefficient);
    } else {
      Distribute(shifted, small.coefficient, p);
      ModBig(shifted + small.coefficient);
    }
    WeightIs(Aligned(big, small, plus), 1074);
  }

  lemma WeightIs(m: Scaled, k: int)
    requires m.scale + k >= 0
    ensures Weight(m, k) == m.coefficient * Pow2(m.scale + k)
  {
  }

  lemma ShiftZero(d: nat)
    ensures Shl128(0, d) == 0
  {
    ShlIsMul(0, d % 128);
  }

  const TWO106: nat := 0x4_0000_0000_0000_0000_0000_0000_00

  lemma ShiftedBound(c: nat, d: nat)
    requires c < TWO53 && d <= 75
    ensures 0 <= c * Pow2(d) <= TWO128 - Pow2(d) && Pow2(d) >= 1
    ensures c * Pow2(d) + TWO53 <= TWO128
    ensures d <= 53 ==> c * Pow2(d) <= TWO106
  {
    hide Pow2;
    PowersAt();
    Pow2Add(53, 75);
    Pow2Mono(d, 75);
    MulMono(0, c, Pow2(d));
    MulMono(c, TWO53 - 1, Pow2(d));
    if d <= 53 {
      Pow2Mono(d, 53);
    } else {
      Pow2Mono(53, d);
    }
  }

  lemma SameMagnitude(a: u64, b: u64)
    requires Magnitude(a) == Magnitude(b)
    ensures MagnitudeOf(a) == MagnitudeOf(b)
  {
    MagnitudeCases(a);
    MagnitudeCases(b);
    assert SIGN % TWO52 == 0;
  }

  /** From 54 places on the smaller operand is below half an ulp of the larger, from 55 below a quarter. */
  lemma SmallBelowUlp(big: Scaled, small: Scaled)
    requires small.coefficient < TWO53 && small.scale >= -1074 && big.scale - small.scale >= 54
    ensures 2 * Weight(small, 1074) < Pow2(big.scale + 1074)
    ensures big.scale - small.scale >= 55 ==> 4 * Weight(small, 1074) < Pow2(big.scale + 1074)
  {
    hide Pow2;
    var d := big.scale - small.scale;
    var p := Pow2(small.scale + 1074);
    Pow2Add(d, small.scale + 1074);
    PowersAt();
    NextPower(54);
    NextPower(55);
    Pow2Mono(54, d);
    MulMono(small.coefficient, TWO53 - 1, p);
    MulMono(2 * TWO53, Pow2(d), p);
    if d >= 55 {
      Pow2Mono(55, d);
      MulMono(4 * TWO53, Pow2(d), p);
    }
  }

  /** The relation computed for two operands of the same sign. */
  function SumRelation(n: u64, big: u64, small: u64): Ordering
    requires MagnitudeOf(big).scale >= MagnitudeOf(small).scale
  {
    if MagnitudeOf(big).scale - MagnitudeOf(small).scale <= 75
    then CompareNearbyScaled(Aligned(MagnitudeOf(big), MagnitudeOf(small), true), MagnitudeOf(n)) else Greater
  }

  /** Same-sign addition in u128: the aligned sum and its comparison lose nothing, and where nearest may stand. */
  ghost predicate SumFits(big: Scaled, small: Scaled, near: Scaled)
  {
    var d := big.scale - small.scale;
    && d >= 0
    && (d <= 75 ==>
          && big.coefficient * Pow2(d) + small.coefficient < TWO128
          && Aligned(big, small, true).coefficient == big.coefficient * Pow2(d) + small.coefficient
          && Lossless(Aligned(big, small, true), near))
    && (d > 75 ==> near == big)
    && (near.scale > big.scale ==> d <= 53)
  }

  lemma SumParts(x: real, n: u64, big: u64, small: u64)
    requires Finite(big) && Finite(small) && Finite(n) && Magnitude(big) != 0 && Magnitude(small) != 0
    requires MagnitudeOf(big).scale >= MagnitudeOf(small).scale
    requires Near(x, Magnitude(n)) && x == R(Units(Magnitude(big)) + Units(Magnitude(small)))
    ensures SumFits(MagnitudeOf(big), MagnitudeOf(small), MagnitudeOf(n))
  {
    hide Units, Ulp, Pow2, Near, Aligned, MagnitudeOf, Weight, AlignmentFits, Lossless;
    var mb, ms, mn := MagnitudeOf(big), MagnitudeOf(small), MagnitudeOf(n);
    MagnitudeFacts(big);
    MagnitudeFacts(small);
    MagnitudeFacts(n);
    PositiveWeight(mb, 1074);
    PositiveWeight(ms, 1074);
    var d := mb.scale - ms.scale;
    if d >= 54 {
      SmallBelowUlp(mb, ms);
      SmallSummand(x, Magnitude(n), Magnitude(big), Units(Magnitude(small)));
      SameMagnitude(n, big);
    }
    if d <= 75 {
      AlignedExact(mb, ms, true);
      var exact := Aligned(mb, ms, true);
      if d <= 53 {
        SumIsNearby(x, n, exact);
      } else {
        ShiftedFits(exact, mb, d);
      }
      FittingIsLossless(exact, mn);
    }
  }

  lemma ShiftedFits(exact: Scaled, big: Scaled, d: nat)
    requires big.scale == exact.scale + d && big.coefficient * Pow2(d) < TWO128 && d > 0
    ensures AlignmentFits(exact, big)
  {
  }

  lemma SumRelates(x: real, n: u64, big: u64, small: u64)
    requires Finite(big) && Finite(small) && Finite(n) && Magnitude(big) != 0 && Magnitude(small) != 0
    requires MagnitudeOf(big).scale >= MagnitudeOf(small).scale
    requires Near(x, Magnitude(n)) && x == R(Units(Magnitude(big)) + Units(Magnitude(small)))
    ensures Relates(SumRelation(n, big, small), x, R(Units(Magnitude(n))))
  {
    hide Units, Ulp, Pow2, Near, CompareNearbyScaled, Aligned, MagnitudeOf, Weight, Lossless;
    var mb, ms, mn := MagnitudeOf(big), MagnitudeOf(small), MagnitudeOf(n);
    MagnitudeFacts(big);
    MagnitudeFacts(small);
    MagnitudeFacts(n);
    PositiveWeight(ms, 1074);
    SumParts(x, n, big, small);
    if mb.scale - ms.scale <= 75 {
      AlignedExact(mb, ms, true);
      LosslessIsExact(Aligned(mb, ms, true), mn, 1074);
    }
  }

  /** `add` of operands of the same sign loses no bit, for all finite operands and any nearest result. */
  lemma SumLossless(x: real, n: u64, a: u64, b: u64)
    requires Finite(a) && Finite(b) && IsNearest(x, n) && !Infinite(n) && x == R(Value(a) + Value(b))
    requires Magnitude(a) != 0 && Magnitude(b) != 0 && Negative(a) == Negative(b)
    ensures var ma, mb, mn := MagnitudeOf(a), MagnitudeOf(b), MagnitudeOf(n);
      if ma.scale >= mb.scale then SumFits(ma, mb, mn) else SumFits(mb, ma, mn)
  {
    hide Units, Near, SumFits, MagnitudeOf, Value, IsNearest;
    NearestIsFinite(x, n);
    ValueParts(a);
    ValueParts(b);
    ZeroUnits();
    UnitsIncrease(0, Magnitude(a));
    UnitsIncrease(0, Magnitude(b));
    MagnitudeNear(x, n);
    if MagnitudeOf(a).scale >= MagnitudeOf(b).scale {
      SumParts(AbsR(x), n, a, b);
    } else {
      SumParts(AbsR(x), n, b, a);
    }
  }

  lemma SumIsNearby(x: real, n: u64, exact: Scaled)
    requires Finite(n) && exact.scale >= -1074 && exact.coefficient < TWO125
    requires Near(x, Magnitude(n)) && x == R(Weight(exact, 1074)) && x >= 1.0
    ensures AlignmentFits(exact, MagnitudeOf(n))
  {
    hide Units, Ulp, Pow2, Near, MagnitudeOf, Weight, AlignmentFits;
    MagnitudeFacts(n);
    WithinBinade(x, Magnitude(n));
    Midpoints(x, Magnitude(n));
    if Magnitude(n) == 0 {
      FirstUnits();
      assert false;
    }
    NearbyFits(exact, MagnitudeOf(n), 1074);
  }

  lemma FirstUnits()
    ensures Units(0) == 0 && Units(1) == 1
  {
  }

  /** The relation computed for two operands of opposite sign, the first one larger. */
  function DifferenceRelation(n: u64, big: u64, small: u64): Ordering
    requires MagnitudeOf(big).scale >= MagnitudeOf(small).scale
  {
    if MagnitudeOf(big).scale - MagnitudeOf(small).scale <= 75
    then CompareNearbyScaled(Aligned(MagnitudeOf(big), MagnitudeOf(small), false), MagnitudeOf(n)) else Less
  }

  /** The difference and its nearest value align in 128 bits, in whichever direction the scales differ. */
  lemma DifferenceFits(x: real, n: u64, mb: Scaled, ms: Scaled, big: nat)
    requires Finite(n) && big < INF && Weight0(mb) == Units(big) && mb.coefficient < TWO53
    requires 0 < ms.coefficient < TWO53 && ms.scale >= -1074 && 0 <= mb.scale - ms.scale <= 75
    requires Weight0(mb) > Weight0(ms)
    requires Near(x, Magnitude(n)) && x == R(Weight0(mb) - Weight0(ms))
    ensures AlignmentFits(Aligned(mb, ms, false), MagnitudeOf(n))
  {
    hide Units, Ulp, Pow2, Near, MagnitudeOf, Weight, Aligned;
    var mn, exact := MagnitudeOf(n), Aligned(mb, ms, false);
    var d := mb.scale - ms.scale;
    AlignedExact(mb, ms, false);
    MagnitudeFacts(n);
    NotAbove(x, Magnitude(n), big);
    if mn.scale > ms.scale {
      SplitWeight(mn, 1074, mn.scale - ms.scale);
      SplitWeight(mb, 1074, d);
      Cancel(mn.coefficient * Pow2(mn.scale - ms.scale), mb.coefficient * Pow2(d), Pow2(ms.scale + 1074));
    } else {
      SmallScale(x, n, exact);
    }
  }

  ghost function Weight0(m: Scaled): int { if m.scale >= -1074 then Weight(m, 1074) else 0 }

  lemma SmallScale(x: real, n: u64, exact: Scaled)
    requires Finite(n) && exact.scale >= -1074 && MagnitudeOf(n).scale <= exact.scale
    requires Near(x, Magnitude(n)) && x == R(Weight(exact, 1074)) && x >= 1.0
    ensures exact.coefficient * Pow2(exact.scale - MagnitudeOf(n).scale) < TWO128
  {
    hide Units, Ulp, Pow2, Near, MagnitudeOf, Weight;
    var mn := MagnitudeOf(n);
    MagnitudeFacts(n);
    WithinBinade(x, Magnitude(n));
    Midpoints(x, Magnitude(n));
    if Magnitude(n) == 0 {
      FirstUnits();
      assert false;
    }
    AlignmentBound(exact, mn, 1074);
  }

  /** Opposite-sign addition in u128: the aligned difference and its comparison lose nothing. */
  ghost predicate DifferenceKept(big: Scaled, small: Scaled, near: Scaled)
  {
    var d := big.scale - small.scale;
    && d >= 0
    && (d <= 75 ==>
          && small.coefficient <= big.coefficient * Pow2(d) < TWO128
          && Aligned(big, small, false).coefficient == big.coefficient * Pow2(d) - small.coefficient
          && Lossless(Aligned(big, small, false), near))
    && (d > 75 ==> near == big)
    && near.scale <= big.scale
  }

  lemma DifferenceParts(x: real, n: u64, big: u64, small: u64)
    requires Finite(big) && Finite(small) && Finite(n) && Magnitude(small) != 0
    requires Magnitude(big) > Magnitude(small) && MagnitudeOf(big).scale >= MagnitudeOf(small).scale
    requires Near(x, Magnitude(n)) && x == R(Units(Magnitude(big)) - Units(Magnitude(small)))
    ensures DifferenceKept(MagnitudeOf(big), MagnitudeOf(small), MagnitudeOf(n))
  {
    hide Units, Ulp, Pow2, Near, Aligned, MagnitudeOf, Weight, AlignmentFits, Lossless;
    var mb, ms, mn := MagnitudeOf(big), MagnitudeOf(small), MagnitudeOf(n);
    MagnitudeFacts(big);
    MagnitudeFacts(small);
    MagnitudeFacts(n);
    PositiveWeight(ms, 1074);
    UnitsIncrease(Magnitude(small), Magnitude(big));
    NotAbove(x, Magnitude(n), Magnitude(big));
    ScaleOrder(big, n);
    if mb.scale - ms.scale <= 75 {
      AlignedExact(mb, ms, false);
      DifferenceFits(x, n, mb, ms, Magnitude(big));
      FittingIsLossless(Aligned(mb, ms, false), mn);
    } else {
      SmallBelowUlp(mb, ms);
      SmallSubtrahend(x, Magnitude(n), Magnitude(big), Units(Magnitude(small)));
      SameMagnitude(n, big);
    }
  }

  lemma DifferenceRelates(x: real, n: u64, big: u64, small: u64)
    requires Finite(big) && Finite(small) && Finite(n) && Magnitude(small) != 0
    requires Magnitude(big) > Magnitude(small) && MagnitudeOf(big).scale >= MagnitudeOf(small).scale
    requires Near(x, Magnitude(n)) && x == R(Units(Magnitude(big)) - Units(Magnitude(small)))
    ensures Relates(DifferenceRelation(n, big, small), x, R(Units(Magnitude(n))))
  {
    hide Units, Ulp, Pow2, Near, CompareNearbyScaled, Aligned, MagnitudeOf, Weight, Lossless;
    var mb, ms, mn := MagnitudeOf(big), MagnitudeOf(small), MagnitudeOf(n);
    MagnitudeFacts(big);
    MagnitudeFacts(small);
    MagnitudeFacts(n);
    PositiveWeight(ms, 1074);
    UnitsIncrease(Magnitude(small), Magnitude(big));
    DifferenceParts(x, n, big, small);
    if mb.scale - ms.scale <= 75 {
      AlignedExact(mb, ms, false);
      LosslessIsExact(Aligned(mb, ms, false), mn, 1074);
    }
  }

  /** `add` of operands of opposite sign loses no bit, for all finite operands and any nearest result. */
  lemma DifferenceLossless(x: real, n: u64, a: u64, b: u64)
    requires Finite(a) && Finite(b) && IsNearest(x, n) && !Infinite(n) && x == R(Value(a) + Value(b))
    requires Magnitude(a) != 0 && Magnitude(b) != 0 && Negative(a) != Negative(b) && Magnitude(a) != Magnitude(b)
    ensures var ma, mb, mn := MagnitudeOf(a), MagnitudeOf(b), MagnitudeOf(n);
      if Magnitude(a) > Magnitude(b) then DifferenceKept(ma, mb, mn) else DifferenceKept(mb, ma, mn)
  {
    hide Units, Near, DifferenceKept, MagnitudeOf, Value, IsNearest;
    NearestIsFinite(x, n);
    ValueParts(a);
    ValueParts(b);
    ScaleOrder(a, b);
    MagnitudeNear(x, n);
    if Magnitude(a) > Magnitude(b) {
      UnitsIncrease(Magnitude(b), Magnitude(a));
      DifferenceParts(AbsR(x), n, a, b);
    } else {
      UnitsIncrease(Magnitude(a), Magnitude(b));
      DifferenceParts(AbsR(x), n, b, a);
    }
  }

  lemma AddWithZero(x: real, n: u64, a: u64, b: u64)
    requires Finite(a) && Finite(b) && IsNearest(x, n) && Finite(n) && x == R(Value(a) + Value(b))
    requires Magnitude(a) == 0 || Magnitude(b) == 0
    ensures x == R(Value(n))
  {
    hide Units;
    ZeroUnits();
    if Magnitude(a) == 0 {
      NearRepresentable(x, Position(n), Position(b));
    } else {
      NearRepresentable(x, Position(n), Position(a));
    }
  }

  lemma AddSameSign(x: real, n: u64, a: u64, b: u64)
    requires Finite(a) && Finite(b) && IsNearest(x, n) && Finite(n) && x == R(Value(a) + Value(b))
    requires Magnitude(a) != 0 && Magnitude(b) != 0 && Negative(a) == Negative(b)
    ensures var (relation, negative) := AddRelation(n, a, b);
      Relates(relation, x, R(Value(n))) && (x != 0.0 ==> negative == (x < 0.0))
  {
    hide Units, Near, CompareNearbyScaled, Aligned, MagnitudeOf, Value, IsNearest;
    MagnitudeFacts(a);
    MagnitudeFacts(b);
    ValueParts(a);
    ValueParts(b);
    UnitsIncrease(0, Magnitude(a));
    UnitsIncrease(0, Magnitude(b));
    ZeroUnits();
    MagnitudeNear(x, n);
    var negative := Negative(a);
    if MagnitudeOf(a).scale >= MagnitudeOf(b).scale {
      SumRelates(AbsR(x), n, a, b);
      SignedRelation(x, n, SumRelation(n, a, b), negative);
    } else {
      SumRelates(AbsR(x), n, b, a);
      SignedRelation(x, n, SumRelation(n, b, a), negative);
    }
  }

  lemma AddOppositeSign(x: real, n: u64, a: u64, b: u64)
    requires Finite(a) && Finite(b) && IsNearest(x, n) && Finite(n) && x == R(Value(a) + Value(b))
    requires Magnitude(a) != 0 && Magnitude(b) != 0 && Negative(a) != Negative(b)
    ensures var (relation, negative) := AddRelation(n, a, b);
      Relates(relation, x, R(Value(n))) && (x != 0.0 ==> negative == (x < 0.0))
  {
    hide Units, Near, CompareNearbyScaled, Aligned, MagnitudeOf, Value, IsNearest;
    MagnitudeFacts(a);
    MagnitudeFacts(b);
    ValueParts(a);
    ValueParts(b);
    ScaleOrder(a, b);
    MagnitudeNear(x, n);
    if Magnitude(a) == Magnitude(b) {
      CancelsToZero(x, n);
    } else if Magnitude(a) > Magnitude(b) {
      UnitsIncrease(Magnitude(b), Magnitude(a));
      DifferenceRelates(AbsR(x), n, a, b);
      SignedRelation(x, n, DifferenceRelation(n, a, b), Negative(a));
    } else {
      UnitsIncrease(Magnitude(a), Magnitude(b));
      DifferenceRelates(AbsR(x), n, b, a);
      SignedRelation(x, n, DifferenceRelation(n, b, a), Negative(b));
    }
  }

  lemma CancelsToZero(x: real, n: u64)
    requires IsNearest(x, n) && Finite(n) && x == 0.0
    ensures R(Value(n)) == 0.0
  {
    hide Units;
    ZeroIsItself(n);
  }

  /** The relation `add` computes is the true one, for all finite operands. */
  lemma AddRelationTrue(x: real, n: u64, a: u64, b: u64)
    requires Finite(a) && Finite(b) && IsNearest(x, n) && Finite(n) && x == R(Value(a) + Value(b))
    ensures var (relation, negative) := AddRelation(n, a, b);
      Relates(relation, x, R(Value(n))) && (x != 0.0 ==> negative == (x < 0.0))
  {
    hide Units, Near, CompareNearbyScaled, Aligned, Value;
    if Magnitude(a) == 0 || Magnitude(b) == 0 {
      AddWithZero(x, n, a, b);
      MagnitudeFacts(a);
      MagnitudeFacts(b);
    } else if Negative(a) == Negative(b) {
      AddSameSign(x, n, a, b);
    } else {
      AddOppositeSign(x, n, a, b);
    }
  }

  /** `add`: correctly rounded in every mode, for all finite operands. */
  lemma AddRounds(x: real, n: u64, a: u64, b: u64, mode: RoundingMode)
    requires Finite(a) && Finite(b) && IsNearest(x, n) && x == R(Value(a) + Value(b))
    ensures IsRounded(mode, x, AddInner(n, a, b, mode))
  {
    hide Units, Near, AddRelation, Value, ApplyMode, IsRounded;
    if Infinite(n) {
      OverflowRounds(x, n, mode);
    } else {
      NearestIsFinite(x, n);
      AddRelationTrue(x, n, a, b);
      var (relation, negative) := AddRelation(n, a, b);
      ApplyModeRounds(x, n, relation, negative, mode);
      if Magnitude(n) == 0 && relation == Equal && Negative(a) != Negative(b) && mode == Down {
        ZeroDown(x, n, relation);
      }
    }
  }

  lemma ZeroDown(x: real, n: u64, relation: Ordering)
    requires IsNearest(x, n) && Magnitude(n) == 0 && relation == Equal && Relates(relation, x, R(Value(n)))
    ensures IsRounded(Down, x, SIGN)
  {
    hide Units;
    ZeroUnits();
    MagnitudeCases(n);
    MagnitudeCases(SIGN);
    assert Position(n) == 0 && Position(SIGN) == 0;
    FloorOfNearest(x, n, relation);
  }

  /** `sub`: correctly rounded in every mode, for all finite operands. */
  lemma SubRounds(x: real, difference: u64, sum: u64, a: u64, b: u64, mode: RoundingMode)
    requires Finite(a) && Finite(b) && IsNearest(x, difference) && IsNearest(x, sum) && x == R(Value(a) - Value(b))
    ensures IsRounded(mode, x, Sub(difference, sum, a, b, mode))
  {
    hide Units, AddInner, Near;
    if mode != Nearest {
      FlipPosition(b);
      Mirror(Position(b));
      AddRounds(x, sum, a, FlipSign(b), mode);
    }
  }

  // ---------- signs of zero (section 6.3 of IEEE 754-2019) ----------

  /**
   * An exact zero sum: operands of opposite sign give -0 when rounding down; in all other cases
   * the zero is the nearest one, which is -0 for two negative zeros and +0 otherwise.
   */
  lemma ZeroSumSign(n: u64, a: u64, b: u64, mode: RoundingMode)
    requires Finite(a) && Finite(b) && Value(a) + Value(b) == 0 && IsNearest(0.0, n)
    ensures Magnitude(n) == 0
    ensures AddInner(n, a, b, mode) == if Negative(a) != Negative(b) && mode == Down then SIGN else n
  {
    hide Units, Near, CompareNearbyScaled, Aligned, MagnitudeOf;
    ZeroNearest(n);
    MagnitudeFacts(a);
    MagnitudeFacts(b);
    OppositeMagnitudes(a, b);
    ApplyEqual(n, Negative(n), mode);
    ApplyEqual(n, false, mode);
    ApplyEqual(n, true, mode);
  }

  lemma ZeroNearest(n: u64)
    requires IsNearest(0.0, n)
    ensures Magnitude(n) == 0
  {
    hide Units;
    ZeroUnits();
    NearRepresentable(0.0, Position(n), 0);
  }

  /** Finite values that cancel are equal in magnitude, and of opposite sign unless they are zero. */
  lemma OppositeMagnitudes(a: u64, b: u64)
    requires Finite(a) && Finite(b) && Value(a) + Value(b) == 0
    ensures Magnitude(a) == Magnitude(b) && (Negative(a) == Negative(b) ==> Magnitude(a) == 0)
  {
    hide Units;
    ZeroUnits();
    ValueParts(a);
    ValueParts(b);
    if Magnitude(a) < Magnitude(b) {
      UnitsIncrease(Magnitude(a), Magnitude(b));
    } else if Magnitude(b) < Magnitude(a) {
      UnitsIncrease(Magnitude(b), Magnitude(a));
    } else if Magnitude(a) > 0 {
      UnitsIncrease(0, Magnitude(a));
    }
  }

  lemma ApplyEqual(n: u64, negative: bool, mode: RoundingMode)
    ensures ApplyMode(n, Equal, negative, mode) == n
  {
  }

  /** A zero product or quotient keeps, in every mode, the sign that rounding to nearest gives it. */
  lemma ZeroProductSign(n: u64, a: u64, b: u64, mode: RoundingMode)
    requires Finite(a) && Finite(b) && (Magnitude(a) == 0 || Magnitude(b) == 0) && Magnitude(n) == 0
    ensures MulInner(n, a, b, mode) == n
  {
    hide CompareNearbyScaled, MagnitudeOf, MultiplyMagnitudes;
    ZeroCoefficient(a);
    ZeroCoefficient(b);
    ZeroCoefficient(n);
    ZeroProduct(MagnitudeOf(a), MagnitudeOf(b));
    ZerosCompare(MultiplyMagnitudes(MagnitudeOf(a), MagnitudeOf(b)), MagnitudeOf(n));
    ApplyEqual(n, Negative(a) != Negative(b), mode);
  }

  lemma ZeroQuotientSign(n: u64, a: u64, b: u64, mode: RoundingMode)
    requires Finite(b) && Magnitude(a) == 0 && Magnitude(n) == 0
    ensures DivInner(n, a, b, mode) == n
  {
    hide CompareNearbyScaled, MagnitudeOf, MultiplyMagnitudes;
    ZeroCoefficient(a);
    ZeroCoefficient(n);
    ZeroProduct(MagnitudeOf(n), MagnitudeOf(b));
    ZerosCompare(MagnitudeOf(a), MultiplyMagnitudes(MagnitudeOf(n), MagnitudeOf(b)));
    ApplyEqual(n, Negative(a) != Negative(b), mode);
  }

  lemma ZeroCoefficient(b: u64)
    ensures Magnitude(b) == 0 ==> MagnitudeOf(b).coefficient == 0
  {
    MagnitudeCases(b);
  }

  lemma ZeroProduct(a: Scaled, b: Scaled)
    requires a.coefficient == 0 || b.coefficient == 0
    ensures MultiplyMagnitudes(a, b).coefficient == 0
  {
  }

  lemma ZerosCompare(a: Scaled, b: Scaled)
    requires a.coefficient == 0 && b.coefficient == 0
    ensures CompareNearbyScaled(a, b) == Equal
  {
  }
}
