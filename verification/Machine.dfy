/** The RandomX virtual machine state shared by both interpreters (`randomx-core/src/vm.rs`). */
module Machine {
  import opened Words

  const SCRATCHPAD_WORDS: nat := 262_144
  const SCRATCHPAD_L1_MASK: u64 := 0x3ff8
  const SCRATCHPAD_L2_MASK: u64 := 0x3fff8
  const SCRATCHPAD_L3_MASK: u64 := 0x1ffff8
  const SCRATCHPAD_LINE_MASK: u64 := 0x1fffc0
  const CACHE_LINE_ALIGN_MASK: u64 := 0x7fff_ffc0
  const DYNAMIC_MANTISSA_MASK: u64 := 0xff_ffff_ffff_ffff
  const DATASET_EXTRA_ITEMS: nat := 524_287
  const MAX_DATASET_ITEM: nat := 34_078_718
  const PROGRAM_ITERATIONS: nat := 2048

  datatype RoundingMode = Nearest | Down | Up | TowardZero

  /** The `fprc` encoding of the rounding modes. */
  function ModeOf(fprc: nat): RoundingMode
  {
    match fprc
    case 0 => Nearest
    case 1 => Down
    case 2 => Up
    case _ => TowardZero
  }

  /** A 128-bit register as two binary64 bit patterns. */
  datatype Lanes = Lanes(low: u64, high: u64)

  /** The binary64 operations, one rounding mode and one lane at a time. */
  datatype Fpu = Fpu(
    add: (RoundingMode, u64, u64) -> u64,
    sub: (RoundingMode, u64, u64) -> u64,
    mul: (RoundingMode, u64, u64) -> u64,
    div: (RoundingMode, u64, u64) -> u64,
    sqrt: (RoundingMode, u64) -> u64,
    fromInt: i32 -> u64)

  /** Both interpreters may exchange the operands of an addition or a multiplication. */
  ghost predicate Commutative(fpu: Fpu)
  {
    forall m: RoundingMode, x: u64, y: u64 ::
      fpu.add(m, x, y) == fpu.add(m, y, x) && fpu.mul(m, x, y) == fpu.mul(m, y, x)
  }

  function Lift2(op: (RoundingMode, u64, u64) -> u64, m: RoundingMode, x: Lanes, y: Lanes): Lanes
  {
    Lanes(op(m, x.low, y.low), op(m, x.high, y.high))
  }

  function XorLanes(x: Lanes, y: Lanes): Lanes
  {
    Lanes(Xor64(x.low, y.low), Xor64(x.high, y.high))
  }

  function SwapLanes(x: Lanes): Lanes { Lanes(x.high, x.low) }

  function SignedLow32(x: u32): i32 { if x < 0x8000_0000 then x else x - TWO32 }

  /** `m128i::lower_to_m128d`: the two 32-bit halves of a word converted to binary64. */
  function Convert(fpu: Fpu, w: u64): Lanes
  {
    Lanes(fpu.fromInt(SignedLow32(w % TWO32)), fpu.fromInt(SignedLow32(w / TWO32)))
  }

  /** The lanes are the conversions of the two signed halves of the word, the low half first. */
  lemma ConvertHalves(fpu: Fpu, w: u64, low: i32, high: i32)
    requires w == low % TWO32 + TWO32 * (high % TWO32)
    ensures Convert(fpu, w) == Lanes(fpu.fromInt(low), fpu.fromInt(high))
  {
    DivModUnique(w, TWO32, high % TWO32, low % TWO32);
    HalfValue(low);
    HalfValue(high);
  }

  lemma HalfValue(x: i32)
    ensures SignedLow32(x % TWO32) == x
  {
  }

  /** The encoding: odd modes round positive results down, the modes from 2 on round negative results up. */
  lemma ModeBits(fprc: nat)
    requires fprc < 4
    ensures fprc % 2 == 1 <==> ModeOf(fprc) == Down || ModeOf(fprc) == TowardZero
    ensures fprc >= 2 <==> ModeOf(fprc) == Up || ModeOf(fprc) == TowardZero
  {
  }

  datatype Vm = Vm(
    r: seq<u64>,
    f: seq<Lanes>,
    e: seq<Lanes>,
    a: seq<Lanes>,
    pad: seq<u64>,
    pc: int,
    mode: RoundingMode,
    eMask: Lanes,
    readReg: seq<nat>,
    datasetOffset: nat,
    mx: u64,
    ma: u64)
  {
    predicate Valid()
    {
      && |r| == 8 && |f| == 4 && |e| == 4 && |a| == 4
      && |pad| == SCRATCHPAD_WORDS
      && |readReg| == 4 && (forall k :: 0 <= k < 4 ==> readReg[k] < 8)
    }
  }

  /** `mask_register_exponent_mantissa`, one lane. */
  function MaskLane(value: u64, mask: u64): u64
  {
    Or64(And64(value, DYNAMIC_MANTISSA_MASK), mask)
  }

  /** The low 56 bits of the value under the mask. */
  lemma MaskLaneFields(value: u64, mask: u64)
    ensures MaskLane(value, mask) == BitOr(value % Pow2(56), mask)
  {
    hide BitAnd, BitOr, Pow2;
    assert Pow2(56) == DYNAMIC_MANTISSA_MASK + 1 by { Pow2At56(); }
    AndOnes(value, 56);
  }

  lemma Pow2At56()
    ensures Pow2(56) == 0x100_0000_0000_0000 && Pow2(52) == 0x10_0000_0000_0000 && Pow2(60) == 0x1000_0000_0000_0000
  {
    hide Pow2;
    Pow2At64();
    assert Pow2(4) == 16 && Pow2(8) == 256 && Pow2(12) == 4096 by { SmallPowers(); }
    Pow2Add(56, 8);
    Pow2Add(52, 12);
    Pow2Add(60, 4);
  }

  lemma SmallPowers()
    ensures Pow2(4) == 16 && Pow2(5) == 32 && Pow2(8) == 256 && Pow2(11) == 2048 && Pow2(12) == 4096
  {
  }

  function MaskExponentMantissa(mask: Lanes, v: Lanes): Lanes
  {
    Lanes(MaskLane(v.low, mask.low), MaskLane(v.high, mask.high))
  }

  predicate IsMemoryMask(m: nat)
  {
    m == SCRATCHPAD_L1_MASK || m == SCRATCHPAD_L2_MASK || m == SCRATCHPAD_L3_MASK
  }

  /** Every instruction memory mask yields an aligned in-bounds byte offset. */
  lemma OffsetInBounds(address: nat, mask: nat)
    requires IsMemoryMask(mask)
    ensures BitAnd(address, mask) % 8 == 0
    ensures BitAnd(address, mask) / 8 < SCRATCHPAD_WORDS
  {
    hide BitAnd;
    AndLe(address, mask);
    AndTimes8(address, mask / 8);
  }

  // ---------- one program iteration: mixing in, mixing out ----------

  /** A dataset item: eight words. */
  type Line = s: seq<u64> | |s| == 8 witness [0, 0, 0, 0, 0, 0, 0, 0]

  type Dataset = nat -> Line

  /** `(address & SCRATCHPAD_L3_MASK_U32) >> 3`: the first word of a scratchpad line. */
  function LineIndex(address: u32): nat
  {
    Shr(BitAnd(address, SCRATCHPAD_LINE_MASK), 3)
  }

  lemma LineIsQuotient(address: u32)
    ensures LineIndex(address) == BitAnd(address, SCRATCHPAD_LINE_MASK) / 8
  {
    hide BitAnd;
    assert Pow2(3) == 8;
    ShrIsDiv(BitAnd(address, SCRATCHPAD_LINE_MASK), 3);
  }

  function Xor32(x: u32, y: u32): u32
  {
    Pow2At32();
    BitBound(x, y, 32);
    BitXor(x, y)
  }

  lemma LineFits(address: u32)
    ensures LineIndex(address) % 8 == 0
    ensures LineIndex(address) + 8 <= SCRATCHPAD_WORDS
  {
    hide BitAnd, Shr;
    LineIsQuotient(address);
    AndLe(address, SCRATCHPAD_LINE_MASK);
    AndTimes8(address, SCRATCHPAD_LINE_MASK / 8);
    AndTimes8(address / 8, SCRATCHPAD_LINE_MASK / 64);
  }

  lemma SmallMod(x: nat)
    requires x < TWO32
    ensures x % TWO32 == x
  {
  }

  function XorWords(x: seq<u64>, y: seq<u64>): (z: seq<u64>)
    requires |x| == |y|
    ensures |z| == |x|
  {
    seq(|x|, i requires 0 <= i < |x| => Xor64(x[i], y[i]))
  }

  function LoadedF(fpu: Fpu, pad: seq<u64>, line: nat): (f: seq<Lanes>)
    requires line + 8 <= |pad|
    ensures |f| == 4
  {
    seq(4, i requires 0 <= i < 4 => Convert(fpu, pad[line + i]))
  }

  function LoadedE(fpu: Fpu, eMask: Lanes, pad: seq<u64>, line: nat): (e: seq<Lanes>)
    requires line + 8 <= |pad|
    ensures |e| == 4
  {
    seq(4, i requires 0 <= i < 4 => MaskExponentMantissa(eMask, Convert(fpu, pad[line + 4 + i])))
  }

  function MergedFloats(f: seq<Lanes>, e: seq<Lanes>): (m: seq<Lanes>)
    requires |f| == |e| == 4
    ensures |m| == 4
  {
    seq(4, i requires 0 <= i < 4 => XorLanes(f[i], e[i]))
  }

  /** Loads `r`, `f` and `e` from the two scratchpad lines at `line0` and `line1`. */
  function MixIn(fpu: Fpu, vm: Vm, line0: nat, line1: nat): (v: Vm)
    requires vm.Valid() && line0 + 8 <= SCRATCHPAD_WORDS && line1 + 8 <= SCRATCHPAD_WORDS
    ensures v.Valid()
  {
    vm.(r := XorWords(vm.r, vm.pad[line0..line0 + 8]),
        f := LoadedF(fpu, vm.pad, line1),
        e := LoadedE(fpu, vm.eMask, vm.pad, line1),
        pc := 0)
  }

  /** `self.mem.dataset_read`: only in-bounds, aligned offsets are ever asked for. */
  function DatasetRead(dataset: Dataset, offset: nat): Line
    requires offset % 64 == 0 && offset / 64 <= MAX_DATASET_ITEM
  {
    dataset(offset / 64)
  }

  /** The memory registers: `ma` is line-aligned, `mx` need not be until it is used. */
  predicate MemoryRegistersOk(vm: Vm)
  {
    && vm.datasetOffset % 64 == 0 && vm.datasetOffset / 64 <= DATASET_EXTRA_ITEMS
    && vm.ma % 64 == 0 && vm.ma <= CACHE_LINE_ALIGN_MASK
  }

  lemma AlignedAddress(x: u64)
    ensures And64(x, CACHE_LINE_ALIGN_MASK) % 64 == 0
    ensures And64(x, CACHE_LINE_ALIGN_MASK) <= CACHE_LINE_ALIGN_MASK
  {
    hide BitAnd;
    AndLe(x, CACHE_LINE_ALIGN_MASK);
    AndTimes8(x, CACHE_LINE_ALIGN_MASK / 8);
    AndTimes8(x / 8, CACHE_LINE_ALIGN_MASK / 64);
  }

  /** Updates `mx`, reads the dataset at `ma`, exchanges the two and writes both lines back. */
  function MixOut(dataset: Dataset, vm: Vm, line0: nat, line1: nat): (v: Vm)
    requires vm.Valid() && MemoryRegistersOk(vm)
    requires line0 + 8 <= SCRATCHPAD_WORDS && line1 + 8 <= SCRATCHPAD_WORDS
    ensures v.Valid() && MemoryRegistersOk(v)
  {
    var mixed := Xor64(vm.mx, Xor64(vm.r[vm.readReg[2]], vm.r[vm.readReg[3]]));
    AlignedAddress(mixed);
    var r := XorWords(vm.r, DatasetRead(dataset, vm.datasetOffset + vm.ma));
    var f := MergedFloats(vm.f, vm.e);
    var pad := vm.pad[..line1] + r + vm.pad[line1 + 8..];
    vm.(r := r, f := f, mx := vm.ma, ma := And64(mixed, CACHE_LINE_ALIGN_MASK),
        pad := pad[..line0] + Interleave(f) + pad[line0 + 8..])
  }

  /** The low and high lanes of four registers in scratchpad order. */
  function Interleave(f: seq<Lanes>): (w: seq<u64>)
    requires |f| == 4
    ensures |w| == 8
  {
    [f[0].low, f[0].high, f[1].low, f[1].high, f[2].low, f[2].high, f[3].low, f[3].high]
  }

  // ---------- configuration from the program entropy ----------

  function SmallPositiveFloatBits(entropy: u64): u64
  {
    // (((entropy >> 59) + 1023) & 0x7ff) << 52 | (entropy & mantissa mask)
    var exponent := BitAnd(Shr(entropy, 59) + 1023, 0x7ff);
    AndLe(Shr(entropy, 59) + 1023, 0x7ff);
    AndLe(entropy, 0xf_ffff_ffff_ffff);
    Or64(exponent * 0x10_0000_0000_0000, BitAnd(entropy, 0xf_ffff_ffff_ffff))
  }

  function StaticExponent(entropy: u64): (x: u64)
    ensures x <= 0x3ff0_0000_0000_0000
    ensures x >= 0x3000_0000_0000_0000
  {
    ShrTop(entropy);
    var exponent := BitOr(0x300, Shr(entropy, 60) * 16);
    BitBoundAt10(0x300, Shr(entropy, 60) * 16);
    OrComm(0x300, Shr(entropy, 60) * 16);
    OrGe(Shr(entropy, 60) * 16, 0x300);
    exponent * 0x10_0000_0000_0000
  }

  lemma ShrTop(x: u64)
    ensures Shr(x, 60) < 16
  {
    ShrIsDiv(x, 60);
    Pow2At64();
    Pow2Add(60, 4);
    DivModBound(x, Pow2(60), 16);
    assert Pow2(4) == 16;
  }

  lemma BitBoundAt10(a: nat, b: nat)
    requires a < 0x400 && b < 0x400
    ensures BitOr(a, b) < 0x400
  {
    hide BitOr;
    assert Pow2(10) == 0x400;
    BitBound(a, b, 10);
  }

  function FloatMask(entropy: u64): u64
  {
    Or64(And64(entropy, 0x3f_ffff), StaticExponent(entropy))
  }

  /** The four address registers, one out of each pair. */
  function ReadRegisters(d: u64): (s: seq<nat>)
    ensures |s| == 4 && forall k :: 0 <= k < 4 ==> s[k] < 8
  {
    [d % 2, 2 + d / 2 % 2, 4 + d / 4 % 2, 6 + d / 8 % 2]
  }

  function DatasetOffset(w: u64): (o: nat)
    ensures o % 64 == 0 && o / 64 <= DATASET_EXTRA_ITEMS
  {
    w % (DATASET_EXTRA_ITEMS + 1) * 64
  }

  function InitialA(entropy: seq<u64>): (a: seq<Lanes>)
    requires |entropy| == 16
    ensures |a| == 4
  {
    seq(4, i requires 0 <= i < 4 =>
      Lanes(SmallPositiveFloatBits(entropy[2 * i]), SmallPositiveFloatBits(entropy[2 * i + 1])))
  }

  /** `init_vm`: everything the 16 entropy words decide before the first iteration. */
  function InitVm(vm: Vm, entropy: seq<u64>): (v: Vm)
    requires vm.Valid() && |entropy| == 16
    ensures v.Valid() && MemoryRegistersOk(v)
  {
    AlignedAddress(entropy[8]);
    SmallMod(And64(entropy[8], CACHE_LINE_ALIGN_MASK));
    vm.(a := InitialA(entropy),
        ma := And64(entropy[8], CACHE_LINE_ALIGN_MASK) % TWO32,
        mx := entropy[10] % TWO32,
        readReg := ReadRegisters(entropy[12]),
        datasetOffset := DatasetOffset(entropy[13]),
        eMask := Lanes(FloatMask(entropy[14]), FloatMask(entropy[15])),
        r := seq(8, _ => 0))
  }

  // ---------- what the entropy words encode ----------

  /** The mantissa is the low 52 bits and the exponent counts up from that of 1 with the top five bits. */
  lemma SmallPositiveFields(entropy: u64)
    ensures SmallPositiveFloatBits(entropy) == (1023 + entropy / Pow2(59)) * Pow2(52) + entropy % Pow2(52)
  {
    hide BitAnd, BitOr, Pow2, Shr;
    Pow2At56();
    var top := entropy / Pow2(59);
    ExponentField(entropy);
    AndOnes(entropy, 52);
    DivMod(entropy, Pow2(52));
    OrDisjoint(top + 1023, entropy % Pow2(52), 52);
  }

  lemma ExponentField(entropy: u64)
    ensures 0 <= entropy / Pow2(59) < 32
    ensures BitAnd(Shr(entropy, 59) + 1023, 0x7ff) == entropy / Pow2(59) + 1023
  {
    hide BitAnd, Pow2, Shr;
    TopFive(entropy);
    ShrIsDiv(entropy, 59);
    assert Pow2(11) == 2048 by { SmallPowers(); }
    AndOnes(entropy / Pow2(59) + 1023, 11);
  }

  lemma TopFive(x: u64)
    ensures 0 <= x / Pow2(59) < 32
  {
    hide Pow2;
    Pow2At64();
    Pow2Add(59, 5);
    assert Pow2(5) == 32 by { SmallPowers(); }
    DivMod(x, Pow2(59));
    DivModBound(x, Pow2(59), 32);
  }

  /** The mask exponent is 0x300 with the top four bits above its low four. */
  lemma StaticExponentFields(entropy: u64)
    ensures StaticExponent(entropy) == (0x300 + 16 * (entropy / Pow2(60))) * Pow2(52)
  {
    hide BitOr, Pow2, Shr;
    Pow2At56();
    ShrTop(entropy);
    ShrIsDiv(entropy, 60);
    var top := entropy / Pow2(60);
    assert Pow2(8) == 256 by { SmallPowers(); }
    OrDisjoint(3, 16 * top, 8);
  }
}
