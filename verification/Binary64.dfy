/**
 * The binary64 format and its rounding attributes (sections 4.3.1 and 4.3.2 of IEEE 754-2019).
 * All values are measured in units of 2^-1074, the least positive binary64 number, so that every
 * finite value is an integer and exact results are reals.
 */
module Binary64 {
  import opened Words
  import opened Machine

  const SIGN: nat := 0x8000_0000_0000_0000
  const TWO52: nat := 0x10_0000_0000_0000
  /** Bit pattern of positive infinity; every smaller magnitude is finite. */
  const INF: int := 0x7ff0_0000_0000_0000

  function Magnitude(b: u64): (m: int)
    ensures 0 <= m < SIGN
  {
    b % SIGN
  }

  predicate Negative(b: u64) { b >= SIGN }

  predicate Finite(b: u64) { Magnitude(b) < INF }

  predicate Infinite(b: u64) { Magnitude(b) == INF }

  /** The weight of the last place of the magnitude `k`, and the value of that magnitude. */
  function Ulp(k: nat): (u: nat)
    ensures u > 0
  {
    if k < TWO52 then 1 else Pow2(k / TWO52 - 1)
  }

  function Units(k: nat): (u: int)
    ensures u >= 0
  {
    if k < TWO52 then k else (k % TWO52 + TWO52) * Ulp(k)
  }

  /** Position on the number line: consecutive integers are adjacent binary64 values. */
  function Position(b: u64): int { if Negative(b) then -Magnitude(b) else Magnitude(b) }

  function At(p: int): int { if p < 0 then -Units(-p) else Units(p) }

  function Value(b: u64): int { At(Position(b)) }

  // ---------- adjacency ----------

  lemma NextUnits(k: nat)
    ensures Units(k + 1) == Units(k) + Ulp(k)
    ensures k >= 1 ==> Ulp(k) <= Units(k)
  {
    hide Pow2;
    if k + 1 < TWO52 {
    } else if k + 1 == TWO52 {
      assert Pow2(0) == 1 by { FirstPower(); }
    } else {
      var e, f := k / TWO52, k % TWO52;
      var u := Pow2(e - 1);
      Distribute(f + TWO52, 1, u);
      MulMono(1, f + TWO52, u);
      if f + 1 < TWO52 {
        assert (k + 1) / TWO52 == e && (k + 1) % TWO52 == f + 1;
      } else {
        assert (k + 1) / TWO52 == e + 1 && (k + 1) % TWO52 == 0;
        NextPower(e);
        Assoc2(TWO52, u);
      }
    }
  }

  lemma FirstPower()
    ensures Pow2(0) == 1
  {
  }

  lemma NextPower(e: nat)
    requires e >= 1
    ensures Pow2(e) == 2 * Pow2(e - 1)
  {
  }

  lemma Distribute(a: int, b: int, c: int)
    ensures (a + b) * c == a * c + b * c
  {
  }

  lemma {:induction false} UnitsIncrease(j: nat, k: nat)
    requires j < k
    ensures Units(j) < Units(k)
    decreases k
  {
    hide Units, Ulp;
    NextUnits(k - 1);
    if j < k - 1 {
      UnitsIncrease(j, k - 1);
    }
  }

  /** The value grows strictly with the position. */
  lemma AtIncreases(p: int, q: int)
    requires p < q
    ensures At(p) < At(q)
  {
    hide Units;
    assert Units(0) == 0 by { ZeroUnits(); }
    if q <= 0 {
      if q < 0 { UnitsIncrease(-q, -p); } else { UnitsIncrease(0, -p); }
    } else if p < 0 {
      UnitsIncrease(0, -p);
      UnitsIncrease(0, q);
    } else {
      UnitsIncrease(p, q);
    }
  }

  lemma ZeroUnits()
    ensures Units(0) == 0
  {
  }

  // ---------- rounding ----------

  function AbsR(x: real): real { if x < 0.0 then -x else x }

  function R(i: int): real { i as real }

  /** Twice the magnitude from which on round-to-nearest overflows: `2^1024 - 2^970`, doubled. */
  ghost function OverflowThreshold2(): int { Units(INF - 1) + Units(INF) }

  /** The finite value at position `p` is as near to `x` as any finite value. */
  ghost predicate Near(x: real, p: int)
  {
    && -INF < p < INF
    && 2.0 * AbsR(x) < R(OverflowThreshold2())
    && forall q :: -INF < q < INF ==> AbsR(x - R(At(p))) <= AbsR(x - R(At(q)))
  }

  ghost predicate SignAgrees(x: real, b: u64)
  {
    (x > 0.0 ==> !Negative(b)) && (x < 0.0 ==> Negative(b))
  }

  /**
   * `n` is a correct round-to-nearest result for the exact result `x`; either neighbour is
   * accepted on a tie, so round-to-nearest-even results are included.
   */
  ghost predicate IsNearest(x: real, n: u64)
  {
    && SignAgrees(x, n)
    && (Near(x, Position(n)) || (Infinite(n) && x != 0.0 && 2.0 * AbsR(x) >= R(OverflowThreshold2())))
  }

  /** The greatest value not above `x`; minus infinity when every finite value is above. */
  ghost predicate IsFloor(x: real, b: u64)
  {
    if Finite(b) then
      R(Value(b)) <= x && forall q :: -INF < q < INF && R(At(q)) <= x ==> At(q) <= Value(b)
    else Position(b) == -INF && forall q :: -INF < q < INF ==> R(At(q)) > x
  }

  /** The least value not below `x`; plus infinity when every finite value is below. */
  ghost predicate IsCeiling(x: real, b: u64)
  {
    if Finite(b) then
      R(Value(b)) >= x && forall q :: -INF < q < INF && R(At(q)) >= x ==> At(q) >= Value(b)
    else Position(b) == INF && forall q :: -INF < q < INF ==> R(At(q)) < x
  }

  /** `b` is the result of rounding `x` in the given mode. */
  ghost predicate IsRounded(mode: RoundingMode, x: real, b: u64)
  {
    && SignAgrees(x, b)
    && match mode
       case Nearest => IsNearest(x, b)
       case Down => IsFloor(x, b)
       case Up => IsCeiling(x, b)
       case TowardZero => if x < 0.0 then IsCeiling(x, b) else IsFloor(x, b)
  }

  // ---------- consequences of being nearest ----------

  lemma Mirror(p: int)
    ensures At(-p) == -At(p)
  {
    ZeroUnits();
  }

  /** No value lies strictly between `x` and the nearest value. */
  lemma NothingBetween(x: real, p: int, q: int)
    requires Near(x, p) && -INF < q < INF
    ensures !(R(At(p)) < R(At(q)) <= x) && !(x <= R(At(q)) < R(At(p)))
  {
    assert AbsR(x - R(At(p))) <= AbsR(x - R(At(q)));
  }

  /** The midpoints around the nearest value enclose `x`. */
  lemma Midpoints(x: real, p: int)
    requires Near(x, p) && p >= 0
    ensures 2.0 * x <= R(At(p) + At(p + 1))
    ensures p > 0 ==> 2.0 * x >= R(At(p) + At(p - 1))
  {
    AtIncreases(p, p + 1);
    AtIncreases(p - 1, p);
    if p + 1 < INF {
      assert AbsR(x - R(At(p))) <= AbsR(x - R(At(p + 1)));
    }
    if p > 0 {
      assert AbsR(x - R(At(p))) <= AbsR(x - R(At(p - 1)));
    }
  }

  /** A positive exact result and its nearest value differ at most by a factor of two. */
  lemma WithinBinade(x: real, p: int)
    requires Near(x, p) && x > 0.0 && p >= 0
    ensures R(Units(p)) <= 2.0 * x
    ensures p > 0 ==> x <= 2.0 * R(Units(p))
  {
    hide Units, Ulp;
    ZeroUnits();
    assert AbsR(x - R(At(p))) <= AbsR(x - R(At(0)));
    Midpoints(x, p);
    NextUnits(p);
  }

  lemma NearMirror(x: real, p: int)
    requires Near(x, p)
    ensures Near(-x, -p)
  {
    Mirror(p);
    forall q | -INF < q < INF
      ensures AbsR(-x - R(At(-p))) <= AbsR(-x - R(At(q)))
    {
      Mirror(q);
      assert AbsR(x - R(At(p))) <= AbsR(x - R(At(-q)));
    }
  }

  /** A representable exact result is its own nearest value. */
  lemma NearRepresentable(x: real, p: int, q: int)
    requires Near(x, p) && -INF < q < INF && R(At(q)) == x
    ensures p == q
  {
    assert AbsR(x - R(At(p))) <= AbsR(x - R(At(q)));
    if p < q {
      AtIncreases(p, q);
    } else if q < p {
      AtIncreases(q, p);
    }
  }
}
