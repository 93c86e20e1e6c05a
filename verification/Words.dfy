/** Fixed-width machine words as naturals, with the bitwise operators the RandomX code uses. */
module Words {

  type u64 = x: nat | x < 0x1_0000_0000_0000_0000
  type u32 = x: nat | x < 0x1_0000_0000
  type u8 = x: nat | x < 0x100
  type i32 = x: int | -0x8000_0000 <= x < 0x8000_0000

  const TWO64: nat := 0x1_0000_0000_0000_0000
  const TWO32: nat := 0x1_0000_0000

  // ---------- powers of two ----------

  function Pow2(n: nat): (p: nat)
    ensures p > 0
  {
    if n == 0 then 1 else 2 * Pow2(n - 1)
  }

  lemma {:induction false} Pow2Add(a: nat, b: nat)
    ensures Pow2(a + b) == Pow2(a) * Pow2(b)
  {
    if a == 0 {
    } else {
      Pow2Add(a - 1, b);
      assert Pow2(a + b) == 2 * Pow2(a - 1 + b);
    }
  }

  lemma {:induction false} Pow2Mono(a: nat, b: nat)
    requires a <= b
    ensures Pow2(a) <= Pow2(b)
    ensures a < b ==> 2 * Pow2(a) <= Pow2(b)
    decreases b
  {
    if a < b {
      Pow2Mono(a, b - 1);
    }
  }

  lemma Pow2At16()
    ensures Pow2(8) == 0x100 && Pow2(16) == 0x1_0000
  {
    assert Pow2(8) == 0x100;
    Pow2Add(8, 8);
  }

  lemma Pow2At32()
    ensures Pow2(32) == TWO32
  {
    Pow2At16();
    Pow2Add(16, 16);
  }

  lemma Pow2At64()
    ensures Pow2(64) == TWO64
  {
    Pow2At32();
    Pow2Add(32, 32);
  }

  // ---------- multiplication and division facts ----------

  lemma MulMono(a: int, b: int, c: int)
    requires a <= b && c >= 0
    ensures a * c <= b * c
  {
  }

  lemma MulAssoc(a: int, b: int, c: int)
    ensures (a * b) * c == a * (b * c)
  {
  }

  lemma DivMod(x: int, d: int)
    requires d > 0
    ensures x == x / d * d + x % d && 0 <= x % d < d
  {
  }

  lemma Unique(d: int, q: int, r: int, q': int, r': int)
    requires d > 0 && q * d + r == q' * d + r' && 0 <= r < d && 0 <= r' < d
    ensures q == q' && r == r'
  {
    assert (q - q') * d == r' - r;
    if q > q' {
      MulMono(1, q - q', d);
    } else if q < q' {
      assert (q' - q) * d == r - r';
      MulMono(1, q' - q, d);
    }
  }

  /** The quotient and remainder are determined by `x == q * d + r`, `0 <= r < d`. */
  lemma DivModUnique(x: int, d: int, q: int, r: int)
    requires d > 0 && x == q * d + r && 0 <= r < d
    ensures x / d == q && x % d == r
  {
    DivMod(x, d);
    Unique(d, q, r, x / d, x % d);
  }

  lemma AddMultiple(x: int, k: int, d: int)
    requires d > 0
    ensures (x + k * d) % d == x % d
  {
    DivMod(x, d);
    assert x + k * d == (x / d + k) * d + x % d;
    DivModUnique(x + k * d, d, x / d + k, x % d);
  }

  lemma DivModBound(x: int, d: int, q: int)
    requires d > 0 && 0 <= x <= q * d
    ensures 0 <= x / d <= q
  {
    DivMod(x, d);
    if x / d > q {
      MulMono(q + 1, x / d, d);
    }
    if x / d < 0 {
      MulMono(x / d, -1, d);
    }
  }

  lemma DivDiv(x: nat, a: nat, b: nat)
    requires a > 0 && b > 0
    ensures a * b > 0
    ensures x / a / b == x / (a * b)
    ensures x % (a * b) == (x / a % b) * a + x % a
  {
    var q := x / a;
    var p, r := q / b, q % b;
    DivMod(x, a);
    DivMod(q, b);
    assert (p * b + r) * a == p * (a * b) + r * a;
    MulMono(r, b - 1, a);
    assert (b - 1) * a + a == a * b;
    MulMono(0, r, a);
    DivModUnique(x, a * b, p, r * a + x % a);
  }

  /** Reducing modulo a multiple of `d` does not change the remainder modulo `d`. */
  lemma ModOfMod(x: int, d: nat, k: nat)
    requires d > 0 && k > 0
    ensures d * k > 0 && (x % (d * k)) % d == x % d
  {
    var q, r := x / (d * k), x % (d * k);
    DivMod(x, d * k);
    DivMod(r, d);
    assert q * (d * k) == (q * k) * d;
    assert (q * k) * d + r / d * d == (q * k + r / d) * d;
    DivModUnique(x, d, q * k + r / d, r % d);
  }

  // ---------- bitwise operators ----------

  /** `x >> n` and `x << n` (the latter without truncation). */
  function Shr(x: nat, n: nat): nat { if n == 0 then x else Shr(x / 2, n - 1) }

  function Shl(x: nat, n: nat): nat { if n == 0 then x else 2 * Shl(x, n - 1) }

  function Bit(x: nat, k: nat): (b: nat)
    ensures b < 2
  {
    Shr(x, k) % 2
  }

  lemma {:induction false} ShrIsDiv(x: nat, n: nat)
    ensures Shr(x, n) == x / Pow2(n)
  {
    if n > 0 {
      ShrIsDiv(x / 2, n - 1);
      DivDiv(x, 2, Pow2(n - 1));
    }
  }

  lemma {:induction false} ShlIsMul(x: nat, n: nat)
    ensures Shl(x, n) == x * Pow2(n)
  {
    if n > 0 {
      ShlIsMul(x, n - 1);
      Assoc2(x, Pow2(n - 1));
    }
  }

  lemma Assoc2(a: int, p: int)
    ensures a * (2 * p) == 2 * (a * p)
  {
  }

  function BitAnd(a: nat, b: nat): nat
  {
    if a == 0 || b == 0 then 0
    else 2 * BitAnd(a / 2, b / 2) + (if a % 2 == 1 && b % 2 == 1 then 1 else 0)
  }

  function BitOr(a: nat, b: nat): nat
  {
    if a == 0 then b else if b == 0 then a
    else 2 * BitOr(a / 2, b / 2) + (if a % 2 == 1 || b % 2 == 1 then 1 else 0)
  }

  function BitXor(a: nat, b: nat): nat
  {
    if a == 0 then b else if b == 0 then a
    else 2 * BitXor(a / 2, b / 2) + (if a % 2 != b % 2 then 1 else 0)
  }

  /** The three operators act on the lowest bit and on the rest, also at zero. */
  lemma Unfold(a: nat, b: nat)
    ensures BitAnd(a, b) / 2 == BitAnd(a / 2, b / 2)
    ensures BitAnd(a, b) % 2 == (if a % 2 == 1 && b % 2 == 1 then 1 else 0)
    ensures BitOr(a, b) / 2 == BitOr(a / 2, b / 2)
    ensures BitOr(a, b) % 2 == (if a % 2 == 1 || b % 2 == 1 then 1 else 0)
    ensures BitXor(a, b) / 2 == BitXor(a / 2, b / 2)
    ensures BitXor(a, b) % 2 == (if a % 2 != b % 2 then 1 else 0)
  {
  }

  lemma {:induction false} BitsOf(a: nat, b: nat, k: nat)
    ensures Bit(BitAnd(a, b), k) == (if Bit(a, k) == 1 && Bit(b, k) == 1 then 1 else 0)
    ensures Bit(BitOr(a, b), k) == (if Bit(a, k) == 1 || Bit(b, k) == 1 then 1 else 0)
    ensures Bit(BitXor(a, b), k) == (if Bit(a, k) != Bit(b, k) then 1 else 0)
    decreases k
  {
    Unfold(a, b);
    if k > 0 {
      BitsOf(a / 2, b / 2, k - 1);
    }
  }

  lemma {:induction false} BitBound(a: nat, b: nat, n: nat)
    requires a < Pow2(n) && b < Pow2(n)
    ensures BitAnd(a, b) < Pow2(n) && BitOr(a, b) < Pow2(n) && BitXor(a, b) < Pow2(n)
  {
    if n > 0 {
      Unfold(a, b);
      BitBound(a / 2, b / 2, n - 1);
    }
  }

  lemma {:induction false} XorComm(a: nat, b: nat)
    ensures BitXor(a, b) == BitXor(b, a)
    decreases a + b
  {
    if a > 0 && b > 0 {
      XorComm(a / 2, b / 2);
    }
  }

  lemma {:induction false} OrComm(a: nat, b: nat)
    ensures BitOr(a, b) == BitOr(b, a)
    decreases a + b
  {
    if a > 0 && b > 0 {
      OrComm(a / 2, b / 2);
    }
  }

  lemma {:induction false} XorAssoc(a: nat, b: nat, c: nat)
    ensures BitXor(BitXor(a, b), c) == BitXor(a, BitXor(b, c))
    decreases a + b + c
  {
    if a > 0 && b > 0 && c > 0 {
      var ab, bc := BitXor(a, b), BitXor(b, c);
      var l, r := BitXor(ab, c), BitXor(a, bc);
      XorAssoc(a / 2, b / 2, c / 2);
      assert l / 2 == r / 2 && l % 2 == r % 2 by {
        Unfold(a, b);
        Unfold(b, c);
        Unfold(ab, c);
        Unfold(a, bc);
      }
    }
  }

  lemma {:induction false} AndLe(x: nat, m: nat)
    ensures BitAnd(x, m) <= m
  {
    if x > 0 && m > 0 {
      AndLe(x / 2, m / 2);
    }
  }

  lemma {:induction false} OrGe(a: nat, b: nat)
    ensures BitOr(a, b) >= b
  {
    if a > 0 && b > 0 {
      OrGe(a / 2, b / 2);
    }
  }

  lemma {:induction false} AndAssoc(a: nat, b: nat, c: nat)
    ensures BitAnd(BitAnd(a, b), c) == BitAnd(a, BitAnd(b, c))
    decreases a + b + c
  {
    if a > 0 && b > 0 && c > 0 {
      var ab, bc := BitAnd(a, b), BitAnd(b, c);
      var l, r := BitAnd(ab, c), BitAnd(a, bc);
      AndAssoc(a / 2, b / 2, c / 2);
      assert l / 2 == r / 2 && l % 2 == r % 2 by {
        Unfold(a, b);
        Unfold(b, c);
        Unfold(ab, c);
        Unfold(a, bc);
      }
    }
  }

  lemma AndDouble(x: nat, m: nat)
    ensures BitAnd(x, 2 * m) == 2 * BitAnd(x / 2, m)
  {
    Unfold(x, 2 * m);
  }

  /** A mask shifted left selects the field of the word shifted right. */
  lemma {:induction false} AndShift(x: nat, m: nat, s: nat)
    ensures BitAnd(x, Shl(m, s)) == Shl(BitAnd(Shr(x, s), m), s)
    decreases s
  {
    if s > 0 {
      AndDouble(x, Shl(m, s - 1));
      AndShift(x / 2, m, s - 1);
    }
  }

  lemma AndTimes8(x: nat, m: nat)
    ensures BitAnd(x, 8 * m) == 8 * BitAnd(x / 8, m)
  {
    assert Pow2(3) == 8;
    AndShift(x, m, 3);
    ShlIsMul(m, 3);
    ShrIsDiv(x, 3);
    ShlIsMul(BitAnd(x / 8, m), 3);
  }

  lemma AndZero(x: nat)
    ensures BitAnd(x, 0) == 0
  {
  }

  lemma {:induction false} AndOnes(x: nat, w: nat)
    ensures BitAnd(x, Pow2(w) - 1) == x % Pow2(w)
  {
    hide BitAnd, BitOr, BitXor;
    var m := Pow2(w) - 1;
    if w == 0 {
      AndZero(x);
    } else {
      assert m / 2 == Pow2(w - 1) - 1 && m % 2 == 1;
      AndOnes(x / 2, w - 1);
      DivDiv(x, 2, Pow2(w - 1));
      Unfold(x, m);
    }
  }

  /** Disjoint high and low parts are joined by `|` as by `+`. */
  lemma {:induction false} OrDisjoint(hi: nat, lo: nat, k: nat)
    requires lo < Pow2(k)
    ensures BitOr(hi * Pow2(k), lo) == hi * Pow2(k) + lo
  {
    if k > 0 {
      var h := hi * Pow2(k - 1);
      assert hi * Pow2(k) == 2 * h;
      OrDisjoint(hi, lo / 2, k - 1);
      Unfold(2 * h, lo);
    }
  }

  /** `v & (v - 1) == 0` singles out zero and the powers of two. */
  predicate IsZeroOrPowerOfTwo(v: u64)
  {
    BitAnd(v, WSub(v, 1)) == 0
  }

  lemma {:induction false} PowerOfTwoClears(k: nat)
    ensures BitAnd(Pow2(k), Pow2(k) - 1) == 0
  {
    if k == 0 {
      assert BitAnd(1, 0) == 0;
    } else {
      PowerOfTwoClears(k - 1);
      Unfold(Pow2(k), Pow2(k) - 1);
    }
  }

  lemma {:induction false} ClearsIsPowerOfTwo(v: nat) returns (k: nat)
    requires v > 0 && BitAnd(v, v - 1) == 0
    ensures v == Pow2(k)
  {
    if v == 1 {
      k := 0;
    } else {
      Unfold(v, v - 1);
      if v % 2 == 1 {
        AndSelf(v / 2);
      }
      k := ClearsIsPowerOfTwo(v / 2);
      k := k + 1;
    }
  }

  lemma ZeroOrPowerOfTwo(v: u64)
    ensures IsZeroOrPowerOfTwo(v) <==> v == 0 || exists k: nat :: v == Pow2(k)
  {
    if v > 0 {
      DivModUnique(v - 1, TWO64, 0, v - 1);
      if IsZeroOrPowerOfTwo(v) {
        var k := ClearsIsPowerOfTwo(v);
      }
      if k: nat :| v == Pow2(k) {
        PowerOfTwoClears(k);
      }
    }
  }

  lemma {:induction false} AndSelf(x: nat)
    ensures BitAnd(x, x) == x
  {
    if x > 0 {
      AndSelf(x / 2);
    }
  }

  // ---------- wrapping u64 arithmetic ----------

  lemma Small64(x: nat)
    requires x < TWO64
    ensures x % TWO64 == x
  {
  }

  function WAdd(a: u64, b: u64): u64 { (a + b) % TWO64 }

  function WSub(a: u64, b: u64): u64 { (a - b) % TWO64 }

  function WMul(a: u64, b: u64): u64 { (a * b) % TWO64 }

  function Not(a: u64): u64 { TWO64 - 1 - a }

  function And64(a: u64, b: u64): u64 { Pow2At64(); BitBound(a, b, 64); BitAnd(a, b) }

  function Or64(a: u64, b: u64): u64 { Pow2At64(); BitBound(a, b, 64); BitOr(a, b) }

  function Xor64(a: u64, b: u64): u64 { Pow2At64(); BitBound(a, b, 64); BitXor(a, b) }

  function Shl64(a: u64, n: nat): u64 { Shl(a, n) % TWO64 }

  function RotateRight(a: u64, n: nat): u64
  {
    var k := n % 64;
    (a / Pow2(k) + (a % Pow2(k)) * Pow2(64 - k)) % TWO64
  }

  function RotateLeft(a: u64, n: nat): u64 { RotateRight(a, 64 - n % 64) }

  // ---------- laws of shifts and rotations ----------

  /** Below place `s` the bits of `low + high * 2^s` are those of `low`, from `s` on those of `high`. */
  lemma LowBits(low: nat, high: nat, s: nat, i: nat)
    requires low < Pow2(s) && i < s
    ensures (low + high * Pow2(s)) / Pow2(i) % 2 == low / Pow2(i) % 2
  {
    hide Pow2;
    var p, h := Pow2(i), Pow2(s - i - 1);
    Pow2Add(s - i - 1, 1);
    Pow2AtOne();
    Pow2Add(i, s - i);
    Regroup(high, p, h);
    EvenTail(low, high * h, p);
  }

  lemma Regroup(a: int, p: int, h: int)
    ensures a * (p * (h * 2)) == (2 * (a * h)) * p
  {
  }

  lemma EvenTail(low: int, c: int, p: int)
    requires p > 0
    ensures (low + (2 * c) * p) / p % 2 == low / p % 2
  {
    DivMod(low, p);
    Distributes(low / p, 2 * c, p);
    DivModUnique(low + (2 * c) * p, p, low / p + 2 * c, low % p);
    AddMultiple(low / p, c, 2);
  }

  lemma Distributes(a: int, b: int, p: int)
    ensures (a + b) * p == a * p + b * p
  {
  }

  lemma Pow2AtOne()
    ensures Pow2(1) == 2 && Pow2(0) == 1
  {
  }

  lemma HighBits(low: nat, high: nat, s: nat, i: nat)
    requires low < Pow2(s) && i >= s
    ensures (low + high * Pow2(s)) / Pow2(i) == high / Pow2(i - s)
  {
    hide Pow2;
    var x := low + high * Pow2(s);
    MulMono(0, high, Pow2(s));
    DivModUnique(x, Pow2(s), high, low);
    Pow2Add(s, i - s);
    DivDiv(x, Pow2(s), Pow2(i - s));
  }

  /** The two parts that a rotation exchanges. */
  lemma RotateParts(a: u64, n: nat)
    ensures var k := n % 64;
      var high, low := a / Pow2(k), a % Pow2(k);
      && a == low + high * Pow2(k) && 0 <= low < Pow2(k) && 0 <= high < Pow2(64 - k)
      && RotateRight(a, n) == high + low * Pow2(64 - k)
  {
    hide Pow2;
    var k := n % 64;
    var high, low := a / Pow2(k), a % Pow2(k);
    DivMod(a, Pow2(k));
    Pow2Add(k, 64 - k);
    Pow2At64();
    RotatedFits(high, low, Pow2(k), Pow2(64 - k));
    Small64(high + low * Pow2(64 - k));
  }

  lemma RotatedFits(high: int, low: int, p: int, q: int)
    requires p > 0 && q > 0 && 0 <= low < p && 0 <= high * p + low < p * q
    ensures 0 <= high < q && 0 <= high + low * q < p * q
  {
    if high >= q {
      MulMono(q, high, p);
    } else if high < 0 {
      MulMono(high, -1, p);
    }
    MulMono(low, p - 1, q);
    MulMono(0, low, q);
  }

  /** Bit `i` of a word rotated right by `n` is bit `i + n`, counted cyclically, of the word. */
  lemma RotateRightBits(a: u64, n: nat, i: nat)
    requires i < 64
    ensures RotateRight(a, n) / Pow2(i) % 2 == a / Pow2((i + n) % 64) % 2
  {
    hide Pow2, RotateRight;
    var k := n % 64;
    var high, low := a / Pow2(k), a % Pow2(k);
    RotateParts(a, n);
    CyclicIndex(i, n);
    if i < 64 - k {
      LowBits(high, low, 64 - k, i);
      HighBits(low, high, k, i + k);
    } else {
      HighBits(high, low, 64 - k, i);
      LowBits(low, high, k, i - (64 - k));
    }
  }

  lemma CyclicIndex(i: nat, n: nat)
    requires i < 64
    ensures (i + n) % 64 == if i + n % 64 < 64 then i + n % 64 else i + n % 64 - 64
  {
  }

  /** Bit `i` of a word rotated left by `n` is bit `i - n`, counted cyclically, of the word. */
  lemma RotateLeftBits(a: u64, n: nat, i: nat)
    requires i < 64
    ensures RotateLeft(a, n) / Pow2(i) % 2 == a / Pow2((i - n) % 64) % 2
  {
    hide Pow2, RotateRight;
    RotateRightBits(a, 64 - n % 64, i);
    CyclicDifference(i, n);
  }

  lemma CyclicDifference(i: nat, n: nat)
    ensures (i + (64 - n % 64)) % 64 == (i - n) % 64
  {
    DivMod(n, 64);
    AddMultiple(i - n, 1 + n / 64, 64);
  }

  lemma RotateBack(a: u64, n: nat, m: nat)
    requires m % 64 == (64 - n % 64) % 64
    ensures RotateRight(RotateRight(a, n), m) == a
  {
    hide Pow2, RotateRight;
    var k := n % 64;
    var high, low := a / Pow2(k), a % Pow2(k);
    RotateParts(a, n);
    var r := RotateRight(a, n);
    RotateParts(r, m);
    Pow2AtOne();
    if k > 0 {
      DivModUnique(r, Pow2(64 - k), low, high);
    }
  }

  /** The two rotations undo each other. */
  lemma RotationsInverse(a: u64, n: nat)
    ensures RotateLeft(RotateRight(a, n), n) == a && RotateRight(RotateLeft(a, n), n) == a
  {
    hide RotateRight;
    RotateBack(a, n, 64 - n % 64);
    RotateBack(a, 64 - n % 64, n);
  }

  /** Shifting left multiplies by a power of two. */
  lemma ShlIsProduct(a: u64, n: nat)
    ensures Shl64(a, n) == a * Pow2(n) % TWO64
  {
    ShlIsMul(a, n);
  }

  /** Two's complement reading of a 64-bit word. */
  function Signed(a: u64): int { if a < 0x8000_0000_0000_0000 then a else a - TWO64 }

  /** High half of the unsigned product (`mulh`). */
  function Mulh(a: u64, b: u64): u64
  {
    MulMono(a, TWO64 - 1, b);
    MulMono(0, a, b);
    DivModBound(a * b, TWO64, b);
    a * b / TWO64
  }

  /** High half of the signed product (`smulh`); the arithmetic shift is a floor. */
  function Smulh(a: u64, b: u64): u64 { Signed(a) * Signed(b) / TWO64 % TWO64 }

  /** High and low half make up the exact product, unsigned and signed. */
  lemma MulhHalves(a: u64, b: u64)
    ensures Mulh(a, b) * TWO64 + WMul(a, b) == a * b
  {
    DivMod(a * b, TWO64);
  }

  lemma SmulhHalves(a: u64, b: u64)
    ensures Signed(Smulh(a, b)) * TWO64 + WMul(a, b) == Signed(a) * Signed(b)
  {
    var x, y := Signed(a), Signed(b);
    var p := x * y;
    SignedBounds(x, y);
    DivMod(p, TWO64);
    SignedQuotient(p / TWO64);
    SignedCongruent(a, b);
  }

  lemma SignedBounds(x: int, y: int)
    requires -0x8000_0000_0000_0000 <= x < 0x8000_0000_0000_0000 && -0x8000_0000_0000_0000 <= y < 0x8000_0000_0000_0000
    ensures -0x4000_0000_0000_0000 <= x * y / TWO64 <= 0x4000_0000_0000_0000
  {
    var h := 0x8000_0000_0000_0000;
    var p := x * y;
    assert -(h * h) <= p <= h * h by { SquareBound(x, y, h); }
    DivMod(p, TWO64);
  }

  lemma SquareBound(x: int, y: int, h: int)
    requires -h <= x <= h && -h <= y <= h
    ensures -(h * h) <= x * y <= h * h
  {
    var u, v := if x < 0 then -x else x, if y < 0 then -y else y;
    MulMono(u, h, v);
    MulMono(v, h, h);
    MulMono(0, u, v);
    assert x * y == u * v || x * y == -(u * v);
  }

  lemma SignedQuotient(q: int)
    requires -0x8000_0000_0000_0000 <= q < 0x8000_0000_0000_0000
    ensures 0 <= q % TWO64 < TWO64 && Signed(q % TWO64) == q
  {
    if q < 0 {
      DivModUnique(q, TWO64, -1, q + TWO64);
    }
  }

  lemma SignedCongruent(a: u64, b: u64)
    ensures Signed(a) * Signed(b) % TWO64 == a * b % TWO64
  {
    var x, y := Signed(a), Signed(b);
    var i, j := if a == x then 0 else 1, if b == y then 0 else 1;
    assert x == a - i * TWO64 && y == b - j * TWO64;
    var c := i * j * TWO64 - i * b - j * a;
    assert x * y == a * b + c * TWO64;
    AddMultiple(a * b, c, TWO64);
  }

  /** `imm as u32`. */
  function Low32(imm: int): u32 { imm % TWO32 }

  /** `u64_from_i32_imm`: sign extension written with an explicit mask. */
  function SignExtend32(imm: i32): u64
  {
    var x := Low32(imm);
    if x > 0x7fff_ffff then
      Or64(x, 0xffff_ffff_0000_0000)
    else x
  }

  /** The mask-based sign extension is the `as u64` cast of the signed immediate. */
  lemma SignExtendIsCast(imm: i32)
    ensures SignExtend32(imm) == imm % TWO64
  {
    var x := Low32(imm);
    if imm < 0 {
      DivModUnique(imm, TWO32, -1, imm + TWO32);
      DivModUnique(imm, TWO64, -1, imm + TWO64);
      HighOnes(x);
    }
  }

  lemma HighOnes(x: u32)
    ensures BitOr(x, 0xffff_ffff_0000_0000) == x + 0xffff_ffff_0000_0000
  {
    Pow2At32();
    OrComm(x, 0xffff_ffff * Pow2(32));
    OrDisjoint(0xffff_ffff, x, 32);
  }
}
