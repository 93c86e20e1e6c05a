/**
 * Directed rounding from a round-to-nearest result (`softfp/src/lib.rs`). The code compares the
 * exact result with the nearest one in 128-bit integers and moves by at most one place.
 * Masking the sign bit away is written `% 2^63`, testing it `>= 2^63`.
 */
module SoftFloat {
  import opened Words
  import opened Machine
  import opened Binary64

  const TWO128: nat := 0x1_0000_0000_0000_0000_0000_0000_0000_0000
  const TWO53: nat := 0x20_0000_0000_0000

  datatype Ordering = Less | Equal | Greater {
    function Reverse(): Ordering
    {
      match this
      case Less => Greater
      case Equal => Equal
      case Greater => Less
    }
  }

  function Cmp(a: int, b: int): Ordering { if a < b then Less else if a == b then Equal else Greater }

  /** `coefficient * 2^scale`; the coefficient is a u128 in the source. */
  datatype Scaled = Scaled(coefficient: nat, scale: int)

  function MagnitudeOf(bits: u64): Scaled
  {
    var exponent, fraction := Magnitude(bits) / TWO52, bits % TWO52;
    if exponent == 0 then Scaled(fraction, -1074) else Scaled(fraction + TWO52, exponent - 1023 - 52)
  }

  /** `c << n` on u128: the shift amount is taken modulo 128 and high bits are lost. */
  function Shl128(c: nat, n: nat): nat { Shl(c, n % 128) % TWO128 }

  function CompareNearbyScaled(a: Scaled, b: Scaled): Ordering
  {
    if a.coefficient == 0 || b.coefficient == 0 then Cmp(a.coefficient, b.coefficient)
    else if a.scale == b.scale then Cmp(a.coefficient, b.coefficient)
    else if a.scale > b.scale then Cmp(Shl128(a.coefficient, a.scale - b.scale), b.coefficient)
    else Cmp(a.coefficient, Shl128(b.coefficient, b.scale - a.scale))
  }

  function MultiplyMagnitudes(a: Scaled, b: Scaled): Scaled
  {
    Scaled(a.coefficient * b.coefficient % TWO128, a.scale + b.scale)
  }

  function ReverseIfNegative(o: Ordering, negative: bool): Ordering { if negative then o.Reverse() else o }

  function NextUp(bits: u64): u64
  {
    if Magnitude(bits) == 0 then 1
    else if !Negative(bits) then (bits + 1) % TWO64
    else bits - 1
  }

  function NextDown(bits: u64): u64
  {
    if Magnitude(bits) == 0 then SIGN + 1
    else if !Negative(bits) then bits - 1
    else (bits + 1) % TWO64
  }

  function ApplyMode(nearest: u64, relation: Ordering, negative: bool, mode: RoundingMode): u64
  {
    match mode
    case Nearest => nearest
    case Down => if relation == Less then NextDown(nearest) else nearest
    case Up => if relation == Greater then NextUp(nearest) else nearest
    case TowardZero =>
      if negative && relation == Greater then NextUp(nearest)
      else if !negative && relation == Less then NextDown(nearest)
      else nearest
  }

  function DirectedOverflow(nearest: u64, mode: RoundingMode): u64
  {
    ApplyMode(nearest, if Negative(nearest) then Greater else Less, Negative(nearest), mode)
  }

  /** The exact magnitude of a sum (`plus`) or difference of two magnitudes, aligned to the smaller scale. */
  function Aligned(big: Scaled, small: Scaled, plus: bool): Scaled
    requires big.scale >= small.scale
  {
    var shifted := Shl128(big.coefficient, big.scale - small.scale);
    Scaled((if plus then shifted + small.coefficient else shifted - small.coefficient) % TWO128, small.scale)
  }

  /** The relation of the exact sum to `nearest`, and whether the sum is negative. */
  function AddRelation(nearest: u64, a: u64, b: u64): (Ordering, bool)
  {
    var ma, mb := MagnitudeOf(a), MagnitudeOf(b);
    if ma.coefficient == 0 || mb.coefficient == 0 then (Equal, Negative(nearest))
    else if Negative(a) == Negative(b) then
      var (big, small) := if ma.scale >= mb.scale then (ma, mb) else (mb, ma);
      var relation := if big.scale - small.scale <= 75
                      then CompareNearbyScaled(Aligned(big, small, true), MagnitudeOf(nearest)) else Greater;
      (ReverseIfNegative(relation, Negative(a)), Negative(a))
    else if Magnitude(a) == Magnitude(b) then (Equal, false)
    else
      var (big, small, negative) :=
        if Magnitude(a) > Magnitude(b) then (ma, mb, Negative(a)) else (mb, ma, Negative(b));
      var relation := if big.scale - small.scale <= 75 then (
                        assert big.scale >= small.scale by { ScaleOrder(a, b); }
                        CompareNearbyScaled(Aligned(big, small, false), MagnitudeOf(nearest))
                      ) else Less;
      (ReverseIfNegative(relation, negative), negative)
  }

  lemma ScaleOrder(a: u64, b: u64)
    ensures Magnitude(a) >= Magnitude(b) ==> MagnitudeOf(a).scale >= MagnitudeOf(b).scale
    ensures Magnitude(b) >= Magnitude(a) ==> MagnitudeOf(b).scale >= MagnitudeOf(a).scale
  {
  }

  function AddInner(nearest: u64, a: u64, b: u64, mode: RoundingMode): u64
  {
    if Infinite(a) || Infinite(b) then nearest
    else if Infinite(nearest) then DirectedOverflow(nearest, mode)
    else
      var (relation, negative) := AddRelation(nearest, a, b);
      if Magnitude(nearest) == 0 && relation == Equal && Negative(a) != Negative(b) && mode == Down then SIGN
      else ApplyMode(nearest, relation, negative, mode)
  }

  function FlipSign(b: u64): u64 { if Negative(b) then b - SIGN else b + SIGN }

  /** `sub`: the nearest difference in nearest mode, otherwise the addition of `-b` with its own nearest sum. */
  function Sub(difference: u64, sum: u64, a: u64, b: u64, mode: RoundingMode): u64
  {
    if mode == Nearest then difference else AddInner(sum, a, FlipSign(b), mode)
  }

  function MulInner(nearest: u64, a: u64, b: u64, mode: RoundingMode): u64
  {
    if Infinite(a) || Infinite(b) then nearest
    else if Infinite(nearest) then DirectedOverflow(nearest, mode)
    else
      var negative := Negative(a) != Negative(b);
      var exact := MultiplyMagnitudes(MagnitudeOf(a), MagnitudeOf(b));
      ApplyMode(nearest, ReverseIfNegative(CompareNearbyScaled(exact, MagnitudeOf(nearest)), negative), negative, mode)
  }

  function DivInner(nearest: u64, a: u64, b: u64, mode: RoundingMode): u64
  {
    if Infinite(a) || Infinite(b) then nearest
    else if Infinite(nearest) then DirectedOverflow(nearest, mode)
    else
      var negative := Negative(a) != Negative(b);
      var product := MultiplyMagnitudes(MagnitudeOf(nearest), MagnitudeOf(b));
      ApplyMode(nearest, ReverseIfNegative(CompareNearbyScaled(MagnitudeOf(a), product), negative), negative, mode)
  }

  function SqrtInner(nearest: u64, a: u64, mode: RoundingMode): u64
  {
    if Infinite(a) then nearest
    else
      var squared := MultiplyMagnitudes(MagnitudeOf(nearest), MagnitudeOf(nearest));
      ApplyMode(nearest, CompareNearbyScaled(MagnitudeOf(a), squared), false, mode)
  }

  // ---------- moving by one place ----------

  lemma NextPositions(b: u64)
    requires Magnitude(b) <= INF
    ensures Position(b) > -INF ==> Position(NextDown(b)) == Position(b) - 1
    ensures Position(b) < INF ==> Position(NextUp(b)) == Position(b) + 1
  {
    MagnitudeCases(b);
    MagnitudeCases(NextDown(b));
    MagnitudeCases(NextUp(b));
    if b + 1 < TWO64 {
      Small64(b + 1);
    }
  }

  lemma MagnitudeCases(b: u64)
    ensures Magnitude(b) == if Negative(b) then b - SIGN else b
  {
  }

  ghost predicate Relates(relation: Ordering, x: real, v: real)
  {
    match relation
    case Less => x < v
    case Equal => x == v
    case Greater => x > v
  }

  /** The value one place below a nearest value that is too large is the greatest not above. */
  lemma FloorOfNearest(x: real, n: u64, relation: Ordering)
    requires Near(x, Position(n)) && Relates(relation, x, R(Value(n)))
    ensures IsFloor(x, if relation == Less then NextDown(n) else n)
  {
    hide Units, Near;
    var p := Position(n);
    NearIsFinite(x, n);
    NextPositions(n);
    forall q | -INF < q < INF
      ensures if relation == Less then (q < p ==> R(At(q)) <= x) && (q >= p ==> R(At(q)) > x)
              else q > p ==> R(At(q)) > x
    {
      NothingBetween(x, p, q);
      if q < p { AtIncreases(q, p); } else if q > p { AtIncreases(p, q); }
    }
    if relation == Less {
      BelowIsFloor(x, p, NextDown(n));
    } else {
      UpTo(x, p);
    }
  }

  lemma NearIsFinite(x: real, n: u64)
    requires Near(x, Position(n))
    ensures Finite(n) && -INF < Position(n) < INF
  {
  }

  lemma UpTo(x: real, p: int)
    requires forall q :: -INF < q < INF ==> q > p ==> R(At(q)) > x
    ensures forall q :: -INF < q < INF && R(At(q)) <= x ==> At(q) <= At(p)
  {
    forall q | -INF < q < INF && R(At(q)) <= x
      ensures At(q) <= At(p)
    {
      if q < p { AtIncreases(q, p); }
    }
  }

  lemma BelowIsFloor(x: real, p: int, b: u64)
    requires -INF < p < INF && Position(b) == p - 1
    requires forall q :: -INF < q < INF ==> (q < p ==> R(At(q)) <= x) && (q >= p ==> R(At(q)) > x)
    ensures IsFloor(x, b)
  {
    hide Units;
    if p - 1 > -INF {
      assert Finite(b);
      UpTo(x, p - 1);
    } else {
      assert !Finite(b);
    }
  }

  lemma CeilingMirror(x: real, b: u64)
    requires IsFloor(-x, FlipSign(b))
    ensures IsCeiling(x, b)
  {
    hide Units;
    FlipPosition(b);
    Mirror(Position(b));
    forall q | -INF < q < INF
      ensures At(-q) == -At(q)
      ensures R(At(q)) >= x <==> R(At(-q)) <= -x
    {
      Mirror(q);
    }
    if Finite(b) {
      forall q | -INF < q < INF && R(At(q)) >= x
        ensures At(q) >= Value(b)
      {
        assert R(At(-q)) <= -x;
        assert At(-q) <= Value(FlipSign(b));
      }
    } else {
      forall q | -INF < q < INF
        ensures R(At(q)) < x
      {
        assert R(At(-q)) > -x;
      }
    }
  }

  lemma FlipPosition(b: u64)
    ensures Position(FlipSign(b)) == -Position(b) && Magnitude(FlipSign(b)) == Magnitude(b)
    ensures FlipSign(FlipSign(b)) == b
  {
    MagnitudeCases(b);
    MagnitudeCases(FlipSign(b));
  }

  lemma FlipNext(n: u64)
    requires Magnitude(n) < INF
    ensures FlipSign(NextUp(n)) == NextDown(FlipSign(n))
  {
    MagnitudeCases(n);
    MagnitudeCases(FlipSign(n));
    Small64(n + 1);
  }

  lemma CeilingOfNearest(x: real, n: u64, relation: Ordering)
    requires Near(x, Position(n)) && Relates(relation, x, R(Value(n)))
    ensures IsCeiling(x, if relation == Greater then NextUp(n) else n)
  {
    hide Units, Near, NextUp, NextDown, FlipSign, IsFloor, IsCeiling;
    NearIsFinite(x, n);
    FlipPosition(n);
    Mirror(Position(n));
    NearMirror(x, Position(n));
    FloorOfNearest(-x, FlipSign(n), relation.Reverse());
    FlipNext(n);
    CeilingMirror(x, if relation == Greater then NextUp(n) else n);
  }

  lemma NextSigns(x: real, n: u64, relation: Ordering)
    requires SignAgrees(x, n) && Near(x, Position(n)) && Relates(relation, x, R(Value(n)))
    ensures relation == Less ==> SignAgrees(x, NextDown(n))
    ensures relation == Greater ==> SignAgrees(x, NextUp(n))
  {
    hide Units, Near;
    NearIsFinite(x, n);
    MagnitudeCases(n);
    ZeroUnits();
    if Magnitude(n) != 0 {
      Small64(n + 1);
    }
  }

  /** From a nearest result and its exact relation, the mode selects the correctly rounded result. */
  lemma ApplyModeRounds(x: real, n: u64, relation: Ordering, negative: bool, mode: RoundingMode)
    requires IsNearest(x, n) && Finite(n) && Relates(relation, x, R(Value(n)))
    requires x != 0.0 ==> negative == (x < 0.0)
    ensures IsRounded(mode, x, ApplyMode(n, relation, negative, mode))
  {
    hide Units, IsFloor, IsCeiling, Near, NextUp, NextDown;
    FloorOfNearest(x, n, relation);
    CeilingOfNearest(x, n, relation);
    NextSigns(x, n, relation);
    if x == 0.0 {
      ZeroIsItself(n);
    }
  }

  lemma ZeroIsItself(n: u64)
    requires Near(0.0, Position(n))
    ensures Value(n) == 0
  {
    ZeroUnits();
    NearRepresentable(0.0, Position(n), 0);
  }

  /** Overflow: infinity or the largest finite value, whichever the mode asks for. */
  lemma OverflowRounds(x: real, n: u64, mode: RoundingMode)
    requires IsNearest(x, n) && Infinite(n)
    ensures IsRounded(mode, x, DirectedOverflow(n, mode))
  {
    hide Units;
    MagnitudeCases(n);
    if Negative(n) {
      BeyondIsFloor(-x, FlipSign(n));
      FlipPosition(n);
      MagnitudeCases(n - 1);
      FlipPosition(n - 1);
      BelowInfinity();
      assert FlipSign(n) == INF && FlipSign(n - 1) == INF - 1;
      CeilingMirror(x, n - 1);
      FloorMirror(x, n);
    } else {
      BeyondIsFloor(x, n);
    }
  }

  lemma BelowInfinity()
    ensures Position(INF) == INF && Position(INF - 1) == INF - 1 && Finite(INF - 1) && !Finite(INF)
  {
  }

  lemma BeyondIsFloor(x: real, n: u64)
    requires n == INF && x > 0.0 && 2.0 * x >= R(OverflowThreshold2())
    ensures IsFloor(x, INF - 1) && IsCeiling(x, INF)
  {
    hide Units;
    BelowInfinity();
    AtIncreases(INF - 1, INF);
    forall q | -INF < q < INF
      ensures R(At(q)) < x && At(q) <= At(INF - 1)
    {
      if q < INF - 1 { AtIncreases(q, INF - 1); }
    }
  }

  lemma FloorMirror(x: real, b: u64)
    requires IsCeiling(-x, FlipSign(b)) && !Finite(b)
    ensures IsFloor(x, b)
  {
    hide Units;
    FlipPosition(b);
    forall q | -INF < q < INF
      ensures R(At(q)) > x
    {
      Mirror(q);
      assert R(At(-q)) < -x;
    }
  }
}
