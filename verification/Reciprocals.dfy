/** `randomx_reciprocal` (`randomx-core/src/common.rs`): bit-serial division in wrapping u64 arithmetic. */
module Reciprocals {
  import opened Words

  /** The position of the highest set bit, counted from one. */
  function BitLength(x: nat): nat
  {
    if x == 0 then 0 else 1 + BitLength(x / 2)
  }

  lemma {:induction false} BitLengthBounds(x: nat)
    requires x > 0
    ensures BitLength(x) > 0
    ensures Pow2(BitLength(x) - 1) <= x < Pow2(BitLength(x))
  {
    if x > 1 {
      BitLengthBounds(x / 2);
    }
  }

  /** The value the loop computes, as one exact division reduced to 64 bits. */
  function Reciprocal(divisor: u64): u64
    requires divisor != 0
  {
    Pow2(63 + BitLength(divisor)) / divisor % TWO64
  }

  /** Doubling the dividend: the quotient gains a bit and the remainder stays reduced. */
  lemma DoubleDividend(n: nat, d: nat)
    requires d > 0
    ensures n % d >= d - n % d ==> 2 * n / d == 2 * (n / d) + 1 && 2 * n % d == 2 * (n % d) - d
    ensures n % d < d - n % d ==> 2 * n / d == 2 * (n / d) && 2 * n % d == 2 * (n % d)
  {
    var q, r := n / d, n % d;
    DivMod(n, d);
    if r >= d - r {
      assert 2 * n == (2 * q + 1) * d + (2 * r - d);
      DivModUnique(2 * n, d, 2 * q + 1, 2 * r - d);
    } else {
      assert 2 * n == (2 * q) * d + 2 * r;
      DivModUnique(2 * n, d, 2 * q, 2 * r);
    }
  }

  lemma WrapDouble(q: nat)
    ensures WMul(q % TWO64, 2) == 2 * q % TWO64
    ensures WAdd(WMul(q % TWO64, 2), 1) == (2 * q + 1) % TWO64
  {
    var k, m := q / TWO64, q % TWO64;
    DivMod(q, TWO64);
    AddMultiple(2 * m, 2 * k, TWO64);
    AddMultiple(2 * m + 1, 2 * k, TWO64);
    DivMod(2 * m, TWO64);
    AddMultiple(2 * m % TWO64 + 1, 2 * m / TWO64, TWO64);
  }

  lemma WrapRemainder(d: u64, r: u64)
    requires r < d
    ensures WSub(d, r) == d - r
    ensures 2 * r >= d ==> WSub(WMul(r, 2), d) == 2 * r - d
    ensures 2 * r < d ==> WMul(r, 2) == 2 * r
  {
  }

  /** One round on wrapping words computes the exact quotient and remainder of the doubled dividend. */
  lemma RoundExact(n: nat, d: u64, q: u64, r: u64)
    requires d > 0 && q == n / d % TWO64 && r == n % d
    ensures r >= WSub(d, r) ==>
              WAdd(WMul(q, 2), 1) == 2 * n / d % TWO64 && WSub(WMul(r, 2), d) == 2 * n % d
    ensures r < WSub(d, r) ==> WMul(q, 2) == 2 * n / d % TWO64 && WMul(r, 2) == 2 * n % d
  {
    DivMod(n, d);
    DoubleDividend(n, d);
    WrapDouble(n / d);
    WrapRemainder(d, r);
  }

  /** `2^(63 + k)`, the dividend after `k` rounds. */
  function Dividend(k: nat): (n: nat)
    ensures n > 0
  {
    if k == 0 then 0x8000_0000_0000_0000 else 2 * Dividend(k - 1)
  }

  lemma {:induction false} DividendIsPower(k: nat)
    ensures Dividend(k) == Pow2(63 + k)
  {
    if k == 0 {
      Pow2At64();
    } else {
      DividendIsPower(k - 1);
    }
  }

  /** Quotient and remainder after `k` rounds of the loop, on wrapping words. */
  function Rounds(divisor: u64, k: nat): (u64, u64)
    requires divisor != 0
  {
    if k == 0 then
      DivMod(0x8000_0000_0000_0000, divisor);
      (0x8000_0000_0000_0000 / divisor, 0x8000_0000_0000_0000 % divisor)
    else
      var (q, r) := Rounds(divisor, k - 1);
      if r >= WSub(divisor, r) then (WAdd(WMul(q, 2), 1), WSub(WMul(r, 2), divisor)) else (WMul(q, 2), WMul(r, 2))
  }

  lemma {:induction false} RoundsDivide(divisor: u64, k: nat)
    requires divisor != 0
    ensures Rounds(divisor, k) == (Dividend(k) / divisor % TWO64, Dividend(k) % divisor)
  {
    hide WMul, WAdd, WSub;
    if k > 0 {
      RoundsDivide(divisor, k - 1);
      RoundExact(Dividend(k - 1), divisor, Rounds(divisor, k - 1).0, Rounds(divisor, k - 1).1);
    } else {
      Small64(Dividend(0) / divisor);
    }
  }

  method RandomxReciprocal(divisor: u64) returns (quotient: u64)
    requires divisor != 0
    ensures quotient == Reciprocal(divisor)
  {
    quotient := 0x8000_0000_0000_0000 / divisor;
    var remainder: u64 := 0x8000_0000_0000_0000 % divisor;
    var bsr := 0;
    var bit := divisor;
    while bit != 0
      invariant bsr + BitLength(bit) == BitLength(divisor)
    {
      bsr := bsr + 1;
      bit := bit / 2;
    }
    for k := 0 to bsr
      invariant (quotient, remainder) == Rounds(divisor, k)
    {
      if remainder >= WSub(divisor, remainder) {
        quotient := WAdd(WMul(quotient, 2), 1);
        remainder := WSub(WMul(remainder, 2), divisor);
      } else {
        quotient := WMul(quotient, 2);
        remainder := WMul(remainder, 2);
      }
    }
    RoundsDivide(divisor, bsr);
    DividendIsPower(bsr);
  }

  /**
   * For every divisor that is not a power of two the result is `floor(2^x / divisor)` for the
   * largest `x` whose quotient still fits in 64 bits.
   */
  lemma LargestQuotient(divisor: u64)
    requires !IsZeroOrPowerOfTwo(divisor)
    ensures divisor != 0
    ensures var x := 63 + BitLength(divisor);
      && Reciprocal(divisor) == Pow2(x) / divisor < TWO64
      && forall y: nat :: y > x ==> Pow2(y) / divisor >= TWO64
  {
    hide Pow2, BitAnd, BitLength;
    StrictlyBetweenPowers(divisor);
    QuotientFits(divisor, BitLength(divisor));
    Small64(Pow2(63 + BitLength(divisor)) / divisor);
    forall y: nat | y > 63 + BitLength(divisor)
      ensures Pow2(y) / divisor >= TWO64
    {
      QuotientTooLarge(divisor, BitLength(divisor), y);
    }
  }

  lemma StrictlyBetweenPowers(divisor: u64)
    requires !IsZeroOrPowerOfTwo(divisor)
    ensures divisor != 0 && BitLength(divisor) > 0
    ensures Pow2(BitLength(divisor) - 1) < divisor < Pow2(BitLength(divisor))
  {
    ZeroOrPowerOfTwo(divisor);
    BitLengthBounds(divisor);
  }

  lemma QuotientFits(d: nat, b: nat)
    requires b > 0 && Pow2(b - 1) < d
    ensures Pow2(63 + b) / d < TWO64
  {
    Pow2At64();
    Pow2Add(64, b - 1);
    QuotientBelow(Pow2(63 + b), d, Pow2(b - 1));
  }

  lemma QuotientTooLarge(d: nat, b: nat, y: nat)
    requires 0 < d < Pow2(b) && y > 63 + b
    ensures Pow2(y) / d >= TWO64
  {
    Pow2At64();
    Pow2Add(64, b);
    Pow2Mono(64 + b, y);
    QuotientAbove(Pow2(y), d, Pow2(b));
  }

  lemma QuotientBelow(n: nat, d: nat, p: nat)
    requires 0 < p < d && n == TWO64 * p
    ensures n / d < TWO64
  {
    DivMod(n, d);
    if n / d >= TWO64 {
      MulMono(TWO64, n / d, d);
    }
  }

  lemma QuotientAbove(n: nat, d: nat, p: nat)
    requires 0 < d < p && n >= TWO64 * p
    ensures n / d >= TWO64
  {
    DivMod(n, d);
    if n / d < TWO64 {
      MulMono(n / d, TWO64 - 1, d);
    }
  }

  /** For a power of two the quotient is `2^64`, which the wrapping arithmetic reduces to zero. */
  lemma PowerOfTwoReciprocal(k: nat, d: u64)
    requires d == Pow2(k)
    ensures Reciprocal(d) == 0
  {
    BitLengthOfPower(k);
    Pow2At64();
    Pow2Add(64, k);
    var n := Pow2(64 + k);
    DivModUnique(n, d, TWO64, 0);
  }

  lemma {:induction false} BitLengthOfPower(k: nat)
    ensures BitLength(Pow2(k)) == k + 1
  {
    if k > 0 {
      BitLengthOfPower(k - 1);
      assert Pow2(k) / 2 == Pow2(k - 1);
    }
  }

  /** None of the five wrapping operations of a round differs from exact arithmetic. */
  predicate RoundIsExact(divisor: u64, q: u64, r: u64)
  {
    && WSub(divisor, r) == divisor - r
    && WMul(q, 2) == 2 * q && WMul(r, 2) == 2 * r
    && (r >= WSub(divisor, r) ==>
          && WAdd(WMul(q, 2), 1) == WMul(q, 2) + 1
          && WSub(WMul(r, 2), divisor) == WMul(r, 2) - divisor)
  }

  ghost predicate AllExact(divisor: u64)
    requires divisor != 0
  {
    forall k :: 0 <= k < BitLength(divisor) ==> ExactAt(divisor, k)
  }

  predicate ExactAt(divisor: u64, k: nat)
    requires divisor != 0
  {
    RoundIsExact(divisor, Rounds(divisor, k).0, Rounds(divisor, k).1)
  }

  lemma DoublingFits(q: u64, r: u64, d: u64, q': nat)
    requires 0 <= r < d <= 0x8000_0000_0000_0000 && q' < TWO64 && q' == 2 * q + if r >= d - r then 1 else 0
    ensures RoundIsExact(d, q, r)
  {
    Small64(2 * q);
    Small64(2 * r);
    Small64(d - r);
    Small64(2 * q + if r >= d - r then 1 else 0);
    if r >= d - r {
      Small64(2 * r - d);
    }
  }

  /** The quotient of every round is below 2^64 when that of the last one is. */
  lemma QuotientsFit(divisor: u64, k: nat)
    requires !IsZeroOrPowerOfTwo(divisor) && divisor != 0 && k <= BitLength(divisor)
    ensures 0 <= Dividend(k) / divisor < TWO64
  {
    hide Dividend, Pow2, BitLength, IsZeroOrPowerOfTwo;
    var n := BitLength(divisor);
    StrictlyBetweenPowers(divisor);
    QuotientFits(divisor, n);
    DividendIsPower(k);
    Pow2Mono(63 + k, 63 + n);
    DivMod(Pow2(63 + k), divisor);
    DivMod(Pow2(63 + n), divisor);
    if Pow2(63 + k) / divisor >= TWO64 {
      MulMono(Pow2(63 + n) / divisor + 1, Pow2(63 + k) / divisor, divisor);
    }
  }

  lemma ExactRound(divisor: u64, k: nat)
    requires !IsZeroOrPowerOfTwo(divisor) && 0 < divisor <= 0x8000_0000_0000_0000 && k < BitLength(divisor)
    ensures ExactAt(divisor, k)
  {
    hide RoundIsExact, IsZeroOrPowerOfTwo, Rounds, BitLength;
    RoundsDivide(divisor, k);
    QuotientsFit(divisor, k);
    QuotientsFit(divisor, k + 1);
    var n := Dividend(k);
    Small64(n / divisor);
    DivMod(n, divisor);
    DoubleDividend(n, divisor);
    DoublingFits(n / divisor, n % divisor, divisor, 2 * n / divisor);
  }

  /** The last doubling of a power of two's quotient gives 2^64. */
  lemma PowerOfTwoWraps(j: nat, divisor: u64)
    requires divisor == Pow2(j)
    ensures BitLength(divisor) == j + 1 && !ExactAt(divisor, j)
  {
    hide Pow2, Rounds, BitLength, Dividend;
    BitLengthOfPower(j);
    RoundsDivide(divisor, j);
    DividendIsPower(j);
    Pow2Add(63, j);
    var h := Pow2(63);
    assert h == 0x8000_0000_0000_0000 by { DividendIsPower(0); FirstDividend(); }
    DivModUnique(h * Pow2(j), divisor, h, 0);
    Small64(h);
  }

  lemma FirstDividend()
    ensures Dividend(0) == 0x8000_0000_0000_0000
  {
  }

  /** Above 2^63 the first remainder is 2^63, whose double wraps to zero. */
  lemma LargeDivisorWraps(divisor: u64)
    requires divisor > 0x8000_0000_0000_0000
    ensures BitLength(divisor) > 0 && !ExactAt(divisor, 0)
  {
    DivModUnique(0x8000_0000_0000_0000, divisor, 0, 0x8000_0000_0000_0000);
    BitLengthBounds(divisor);
  }

  /**
   * All wrapping operations of all rounds are exact if and only if the divisor is at most 2^63 and
   * no power of two. (Beyond 2^63 the wraps cancel, and the result is right all the same.)
   */
  lemma WrappingIsExact(divisor: u64)
    requires divisor != 0
    ensures AllExact(divisor) <==> divisor <= 0x8000_0000_0000_0000 && !IsZeroOrPowerOfTwo(divisor)
  {
    hide ExactAt, IsZeroOrPowerOfTwo, BitLength;
    ZeroOrPowerOfTwo(divisor);
    if divisor > 0x8000_0000_0000_0000 {
      LargeDivisorWraps(divisor);
    } else if IsZeroOrPowerOfTwo(divisor) {
      var j: nat :| divisor == Pow2(j);
      PowerOfTwoWraps(j, divisor);
    } else {
      forall k | 0 <= k < BitLength(divisor)
        ensures ExactAt(divisor, k)
      {
        ExactRound(divisor, k);
      }
    }
  }

  /** The largest divisor: already the first doubling of its remainder wraps to zero. */
  lemma LargestDivisor()
    ensures WMul(Rounds(0xffff_ffff_ffff_ffff, 0).1, 2) == 0 && !AllExact(0xffff_ffff_ffff_ffff)
  {
    LargeDivisorWraps(0xffff_ffff_ffff_ffff);
    DivModUnique(0x8000_0000_0000_0000, 0xffff_ffff_ffff_ffff, 0, 0x8000_0000_0000_0000);
  }
}
