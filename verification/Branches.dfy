/**
 * Why one program iteration terminates: the decoder's last-writer table confines every backward
 * branch to a region free of other branches and of other writes to the controlling register, and
 * the increment makes three consecutive taken branches impossible.
 */
module Branches {
  import opened Words
  import opened Machine
  import opened Compact

  // ---------- what an instruction may change ----------

  /** The instruction may change integer register `q`. */
  predicate Writes(i: Instr, q: nat)
  {
    if WritesOne(i.effect) then i.dst == 8 * q && !(i.effect == ImulRcp && i.imm == 0)
    else if i.effect == IswapR then i.dst == 8 * q || i.src == 8 * q
    else i.effect == Cbranch && i.dst == 8 * q
  }

  lemma ExecKeepsRegister(fpu: Fpu, vm: Vm, i: Instr, q: nat)
    requires vm.Valid() && Fits(i) && q < 8 && !Writes(i, q)
    ensures Exec(fpu, vm, i).r[q] == vm.r[q]
  {
    if WritesOne(i.effect) {
      if i.dst == 8 * q {
        assert Alu(vm, i) == R(vm, i.dst);
      }
    } else if IsFloat(i.effect) {
      FloatKeepsIntegers(fpu, vm, i);
    }
  }

  lemma FloatKeepsIntegers(fpu: Fpu, vm: Vm, i: Instr)
    requires vm.Valid() && Fits(i) && IsFloat(i.effect)
    ensures ExecFloat(fpu, vm, i).r == vm.r && ExecFloat(fpu, vm, i).pc == vm.pc
  {
  }

  lemma OnlyBranchesJump(fpu: Fpu, vm: Vm, i: Instr)
    requires vm.Valid() && Fits(i) && i.effect != Cbranch
    ensures Exec(fpu, vm, i).pc == vm.pc
  {
    if IsFloat(i.effect) {
      FloatKeepsIntegers(fpu, vm, i);
    }
  }

  // ---------- what the decoder guarantees ----------

  /** The increment carries into the condition byte an odd amount, with a zero bit below it. */
  predicate GoodIncrement(imm: u64, shift: nat)
  {
    shift > 0 && Bit(imm, shift) == 1 && Bit(imm, shift - 1) == 0
  }

  lemma {:induction false} BitOfOne(s: nat, k: nat)
    ensures Bit(Shl(1, s), k) == if s == k then 1 else 0
  {
    if s > 0 && k > 0 {
      BitOfOne(s - 1, k - 1);
    } else if s == 0 && k > 0 {
      ZeroBits(k - 1);
    }
  }

  lemma {:induction false} ZeroBits(k: nat)
    ensures Bit(0, k) == 0
  {
    if k > 0 {
      ZeroBits(k - 1);
    }
  }

  lemma {:induction false} BitOfNot(x: nat, n: nat, k: nat)
    requires x < Pow2(n) && k < n
    ensures Bit(Pow2(n) - 1 - x, k) == 1 - Bit(x, k)
    decreases n
  {
    if k > 0 {
      assert (Pow2(n) - 1 - x) / 2 == Pow2(n - 1) - 1 - x / 2;
      BitOfNot(x / 2, n - 1, k - 1);
    }
  }

  lemma IncrementIsGood(imm: i32, shift: nat)
    requires 8 <= shift <= 23
    ensures GoodIncrement(Increment(imm, shift), shift)
  {
    hide Bit, BitAnd, BitOr, Shl, Pow2, SignExtend32;
    var x, one, below := SignExtend32(imm), OneShl(shift), OneShl(shift - 1);
    var y := Or64(x, one);
    Pow2At64();
    BitsOf(x, one, shift);
    BitOfOne(shift, shift);
    BitsOf(y, Not(below), shift);
    BitsOf(y, Not(below), shift - 1);
    BitOfNot(below, 64, shift);
    BitOfNot(below, 64, shift - 1);
    BitOfOne(shift - 1, shift);
    BitOfOne(shift - 1, shift - 1);
  }

  /** One decoded word: operands in bounds, and untouched registers are not written. */
  ghost predicate DecodesWell(d: Decoded, usage: seq<int>)
    requires |usage| == 8
  {
    && Fits(d.instr)
    && (d.instr.effect == Cbranch ==>
          && d.instr.target == usage[d.instr.dst / 8]
          && d.touched == TouchAll
          && GoodIncrement(d.instr.imm, d.instr.mode))
    && (forall q :: 0 <= q < 8 && !Touches(d.touched, q) ==> !Writes(d.instr, q))
  }

  lemma DecodedArithmetic(x: Fields, usage: seq<int>)
    requires |usage| == 8 && x.op < 0x4c
    ensures DecodesWell(DecodeArithmetic(x), usage)
  {
    hide BitAnd, SignExtend32, And64;
  }

  lemma DecodedBitwise(x: Fields, usage: seq<int>)
    requires |usage| == 8 && x.op < 0x78
    ensures DecodesWell(DecodeBitwise(x), usage)
  {
    hide BitAnd, BitOr, SignExtend32, And64;
  }

  lemma FloatOperands(x: Fields)
    ensures Fits(DecodeFloat(x)) && IsFloat(DecodeFloat(x).effect)
  {
    hide BitAnd, BitOr, SignExtend32, And64, DecodeFloatMemory, MemoryOperand, NewFloat;
    FloatRegisterOperands(x);
    FloatMemoryOperands(FaddM, x);
    FloatMemoryOperands(FsubM, x);
    FloatMemoryOperands(FdivM, x);
  }

  lemma FloatRegisterOperands(x: Fields)
    ensures forall e, d: u8, s: u8 {:trigger NewFloat(e, d, s)} :: d < 4 && (s < 4 || s == NO_REG) ==>
      var i := NewFloat(e, d, s); i.effect == e && FloatOffset(i.dst) && (s < 4 ==> FloatOffset(i.src))
  {
  }

  lemma FloatMemoryOperands(e: Effect, x: Fields)
    ensures var i := DecodeFloatMemory(e, x.dst % 4, x.src % 8, x.imm, x.modifier);
      i.effect == e && FloatOffset(i.dst) && MemoryOperand(i)
  {
    hide BitAnd, BitOr, SignExtend32, And64;
  }

  lemma DecodedFloat(x: Fields, usage: seq<int>)
    requires |usage| == 8
    ensures DecodesWell(Decoded(DecodeFloat(x), TouchNone), usage)
  {
    FloatOperands(x);
  }

  lemma DecodedControl(x: Fields, usage: seq<int>)
    requires |usage| == 8
    ensures DecodesWell(DecodeControl(x, usage), usage)
  {
    hide BitAnd, BitOr, SignExtend32, And64, Increment, GoodIncrement, Bit, Shl;
    if x.op < 0xef {
      IncrementIsGood(x.imm, x.modifier / 16 + CONDITION_OFFSET);
    }
  }

  lemma DecodedWord(raw: u64, usage: seq<int>)
    requires |usage| == 8
    ensures DecodesWell(DecodeInstruction(raw, usage), usage)
  {
    var x := FieldsOf(raw);
    if x.op < 0x4c {
      DecodedArithmetic(x, usage);
    } else if x.op < 0x78 {
      DecodedBitwise(x, usage);
    } else if x.op < 0xd6 {
      DecodedFloat(x, usage);
    } else {
      DecodedControl(x, usage);
    }
  }

  /** Branch `i` returns into a region without branches and without writes to its register. */
  ghost predicate Region(p: seq<Instr>, i: nat)
    requires i < |p|
  {
    p[i].effect == Cbranch ==>
      && -1 <= p[i].target < i
      && GoodIncrement(p[i].imm, p[i].mode)
      && forall j :: p[i].target < j < i ==> p[j].effect != Cbranch && !Writes(p[j], p[i].dst / 8)
  }

  ghost predicate Structured(p: seq<Instr>)
  {
    forall i :: 0 <= i < |p| ==> Fits(p[i]) && Region(p, i)
  }

  /** After entry `q` of the table no instruction writes `q` and none branches. */
  ghost predicate LastWriters(p: seq<Instr>, usage: seq<int>)
    requires |usage| == 8
  {
    forall q :: 0 <= q < 8 ==>
      && -1 <= usage[q] < |p|
      && forall j :: usage[q] < j < |p| ==> p[j].effect != Cbranch && !Writes(p[j], q)
  }

  lemma {:induction false} DecodeStructured(words: seq<u64>)
    ensures Structured(Decode(words))
    ensures LastWriters(Decode(words), UsageAfter(words))
  {
    hide DecodeInstruction, Writes, GoodIncrement;
    if |words| > 0 {
      var n := |words| - 1;
      var before, usage := Decode(words[..n]), UsageAfter(words[..n]);
      DecodeStructured(words[..n]);
      DecodedWord(words[n], usage);
      var d := DecodeInstruction(words[n], usage);
      var p := Decode(words);
      assert p == before + [d.instr];
      forall i | 0 <= i < |p|
        ensures Fits(p[i]) && Region(p, i)
      {
        if i < n {
          assert Region(before, i);
        }
      }
    }
  }

  // ---------- the carry argument ----------

  /** Three consecutive sums of an increment cannot all clear the condition byte. */
  lemma NoThreeInARow(d: u64, imm: u64, shift: nat)
    requires 8 <= shift <= 23 && GoodIncrement(imm, shift)
    requires ConditionHolds(d, shift) && ConditionHolds(WAdd(d, imm), shift)
    ensures !ConditionHolds(WAdd(WAdd(d, imm), imm), shift)
  {
    var h := Pow2(shift - 1);
    var m := 256 * Pow2(shift);
    var d1 := WAdd(d, imm);
    var d2 := WAdd(d1, imm);
    LowPart(imm, shift, m);
    ConditionIsRange(d, shift, m);
    ConditionIsRange(d1, shift, m);
    ConditionIsRange(d2, shift, m);
    AddLow(d, imm, shift, m);
    AddLow(d1, imm, shift, m);
    CarryTwice(h, 2 * h, m, d % m, d1 % m, d2 % m, imm % m);
  }

  /** In the field of `8 + shift` low bits the condition says that only the low part is left. */
  lemma ConditionIsRange(d: u64, shift: nat, m: nat)
    requires m == 256 * Pow2(shift)
    ensures ConditionHolds(d, shift) <==> d % m < Pow2(shift)
  {
    AndShift(d, 0xff, shift);
    var x := Shr(d, shift);
    assert Pow2(8) == 256;
    AndOnes(x, 8);
    ShlIsMul(BitAnd(x, 0xff), shift);
    ShrIsDiv(d, shift);
    DivDiv(d, Pow2(shift), 256);
    ProductZero(x % 256, Pow2(shift), d % Pow2(shift));
  }

  lemma ProductZero(a: nat, p: nat, r: nat)
    requires p > 0 && r < p
    ensures a * p == 0 <==> a * p + r < p
  {
    if a > 0 {
      MulMono(1, a, p);
    }
  }

  /** The increment's low `shift` bits are below one half, and its condition byte is not zero. */
  lemma LowPart(imm: u64, shift: nat, m: nat)
    requires GoodIncrement(imm, shift) && m == 256 * Pow2(shift)
    ensures Pow2(shift) <= imm % m < m
    ensures imm % m % Pow2(shift) < Pow2(shift - 1)
  {
    var h, s := Pow2(shift - 1), Pow2(shift);
    ShrIsDiv(imm, shift);
    ShrIsDiv(imm, shift - 1);
    LowHalf(imm, h, s);
    HighByte(imm, s, m);
    ModOfMod(imm, s, 256);
  }

  lemma LowHalf(x: nat, h: nat, s: nat)
    requires h > 0 && s == 2 * h && x / h % 2 == 0
    ensures x % s < h
  {
    DivDiv(x, h, 2);
    DivMod(x, h);
  }

  lemma HighByte(x: nat, s: nat, m: nat)
    requires s > 0 && m == 256 * s && x / s % 2 == 1
    ensures s <= x % m < m
  {
    var byte := x / s % 256;
    assert byte >= 1;
    DivDiv(x, s, 256);
    MulMono(1, byte, s);
    DivMod(x, s);
    DivMod(x, m);
  }

  lemma AddLow(d: u64, imm: u64, shift: nat, m: nat)
    requires shift <= 23 && m == 256 * Pow2(shift)
    ensures WAdd(d, imm) % m == (d % m + imm % m) % m
  {
    var k := Pow2(56 - shift);
    Pow2At64();
    Pow2Add(shift, 56 - shift);
    Pow2Add(8, 56);
    assert Pow2(8) == 256;
    MulAssoc(256, Pow2(shift), k);
    ModOfMod(d + imm, m, k);
    AddMod(d, imm, m);
  }

  lemma AddMod(x: nat, y: nat, m: nat)
    requires m > 0
    ensures (x + y) % m == (x % m + y % m) % m
  {
    DivMod(x, m);
    DivMod(y, m);
    var z := x % m + y % m;
    DivMod(z, m);
    var q := x / m + y / m + z / m;
    assert x + y == q * m + z % m;
    DivModUnique(x + y, m, q, z % m);
  }

  /** Reducing a number below twice the modulus. */
  lemma ModOnce(x: nat, m: nat)
    requires 0 < m && x < 2 * m
    ensures x % m == if x < m then x else x - m
  {
    if x < m {
      DivModUnique(x, m, 0, x);
    } else {
      DivModUnique(x, m, 1, x - m);
    }
  }

  lemma CarryTwice(h: nat, s: nat, m: nat, d0: nat, d1: nat, d2: nat, c: nat)
    requires h > 0 && s == 2 * h && m == 256 * s
    requires d0 < s && d1 < s && s <= c < m
    requires d1 == (d0 + c) % m && d2 == (d1 + c) % m
    requires c % s < h
    ensures d2 >= s
  {
    ModOnce(d0 + c, m);
    ModOnce(d1 + c, m);
    if d2 < s {
      var gap := m - c;
      assert d2 + 2 * gap == d0;
      DivModUnique(c, s, 255, s - gap);
    }
  }
}
