/** `Blake2Generator`: bytes drawn from a chain of 64-byte blocks, the hash left arbitrary. */
module ByteStream {
  import opened Words

  type Block = s: seq<u8> | |s| == 64 witness seq(64, _ => 0)

  /** Block number and position in it; position 64 means that the block is used up. */
  datatype Cursor = Cursor(block: nat, index: nat)

  /** `check_data`: a value never spans two blocks. */
  function Ready(c: Cursor, needed: nat): (r: Cursor)
    requires needed <= 64
    ensures r.index + needed <= 64
  {
    if c.index + needed > 64 then Cursor(c.block + 1, 0) else c
  }

  function ByteAt(blocks: nat -> Block, c: Cursor): u8
  {
    var r := Ready(c, 1);
    blocks(r.block)[r.index]
  }

  function AfterByte(c: Cursor): Cursor
  {
    var r := Ready(c, 1);
    Cursor(r.block, r.index + 1)
  }

  function LittleEndian(s: seq<u8>): u32
    requires |s| == 4
  {
    var b0: int, b1: int, b2: int, b3: int := s[0], s[1], s[2], s[3];
    b0 + 0x100 * b1 + 0x1_0000 * b2 + 0x100_0000 * b3
  }

  /** The bytes of the number, lowest first. */
  lemma LittleEndianBytes(s: seq<u8>)
    requires |s| == 4
    ensures var n := LittleEndian(s);
      n % 0x100 == s[0] && n / 0x100 % 0x100 == s[1] && n / 0x100 / 0x100 % 0x100 == s[2]
      && n / 0x100 / 0x100 / 0x100 == s[3]
  {
    var b0: int, b1: int, b2: int, b3: int := s[0], s[1], s[2], s[3];
    DivModUnique(b0 + 0x100 * (b1 + 0x100 * (b2 + 0x100 * b3)), 0x100, b1 + 0x100 * (b2 + 0x100 * b3), b0);
    DivModUnique(b1 + 0x100 * (b2 + 0x100 * b3), 0x100, b2 + 0x100 * b3, b1);
    DivModUnique(b2 + 0x100 * b3, 0x100, b3, b2);
  }

  function U32At(blocks: nat -> Block, c: Cursor): u32
  {
    var r := Ready(c, 4);
    LittleEndian(blocks(r.block)[r.index..r.index + 4])
  }

  function AfterU32(c: Cursor): Cursor
  {
    var r := Ready(c, 4);
    Cursor(r.block, r.index + 4)
  }

  /** One of the next `n + 1` bytes has a non-zero rotation amount in its low six bits. */
  ghost predicate RotationWithin(blocks: nat -> Block, c: Cursor, n: nat)
    decreases n
  {
    ByteAt(blocks, c) % 64 != 0 || (n > 0 && RotationWithin(blocks, AfterByte(c), n - 1))
  }

  /** One of the next `n + 1` words is an admissible divisor. */
  ghost predicate DivisorWithin(blocks: nat -> Block, c: Cursor, n: nat)
    decreases n
  {
    !IsZeroOrPowerOfTwo(U32At(blocks, c)) || (n > 0 && DivisorWithin(blocks, AfterU32(c), n - 1))
  }

  function AfterBytes(c: Cursor, n: nat): Cursor { if n == 0 then c else AfterByte(AfterBytes(c, n - 1)) }

  function AfterU32s(c: Cursor, n: nat): Cursor { if n == 0 then c else AfterU32(AfterU32s(c, n - 1)) }

  /** `r` is the first acceptable rotation from `c` on, after `n` rejected bytes. */
  ghost predicate RotationAfter(blocks: nat -> Block, c: Cursor, n: nat, r: nat)
  {
    && r == ByteAt(blocks, AfterBytes(c, n)) % 64 != 0
    && forall k :: 0 <= k < n ==> ByteAt(blocks, AfterBytes(c, k)) % 64 == 0
  }

  /** The rejection loop of IROR_C takes `r` from the stream and leaves it at `to`. */
  ghost predicate DrawsRotation(blocks: nat -> Block, c: Cursor, r: nat, to: Cursor)
  {
    exists n: nat :: RotationAfter(blocks, c, n, r) && to == AfterBytes(c, n + 1)
  }

  /** `w` is the first admissible divisor from `c` on, after `n` rejected words. */
  ghost predicate DivisorAfter(blocks: nat -> Block, c: Cursor, n: nat, w: u32)
  {
    && w == U32At(blocks, AfterU32s(c, n)) && !IsZeroOrPowerOfTwo(w)
    && forall k :: 0 <= k < n ==> IsZeroOrPowerOfTwo(U32At(blocks, AfterU32s(c, k)))
  }

  ghost predicate DrawsDivisor(blocks: nat -> Block, c: Cursor, w: u32, to: Cursor)
  {
    exists n: nat :: DivisorAfter(blocks, c, n, w) && to == AfterU32s(c, n + 1)
  }

  lemma {:induction false} AfterBytesNext(c: Cursor, n: nat)
    ensures AfterBytes(AfterByte(c), n) == AfterBytes(c, n + 1)
  {
    if n > 0 {
      AfterBytesNext(c, n - 1);
    }
  }

  lemma {:induction false} AfterU32sNext(c: Cursor, n: nat)
    ensures AfterU32s(AfterU32(c), n) == AfterU32s(c, n + 1)
  {
    if n > 0 {
      AfterU32sNext(c, n - 1);
    }
  }

  /** A stream that yields a rotation yields a first one. */
  lemma {:induction false} RotationFound(blocks: nat -> Block, c: Cursor, n: nat) returns (k: nat)
    requires RotationWithin(blocks, c, n)
    ensures RotationAfter(blocks, c, k, ByteAt(blocks, AfterBytes(c, k)) % 64)
    decreases n
  {
    hide ByteAt, AfterByte;
    if ByteAt(blocks, c) % 64 != 0 {
      k := 0;
    } else {
      k := RotationFound(blocks, AfterByte(c), n - 1);
      AfterBytesNext(c, k);
      forall i | 0 <= i < k + 1
        ensures ByteAt(blocks, AfterBytes(c, i)) % 64 == 0
      {
        if i > 0 {
          AfterBytesNext(c, i - 1);
        }
      }
      k := k + 1;
    }
  }

  lemma {:induction false} DivisorFound(blocks: nat -> Block, c: Cursor, n: nat) returns (k: nat)
    requires DivisorWithin(blocks, c, n)
    ensures DivisorAfter(blocks, c, k, U32At(blocks, AfterU32s(c, k)))
    decreases n
  {
    hide U32At, AfterU32, IsZeroOrPowerOfTwo;
    if !IsZeroOrPowerOfTwo(U32At(blocks, c)) {
      k := 0;
    } else {
      k := DivisorFound(blocks, AfterU32(c), n - 1);
      AfterU32sNext(c, k);
      forall i | 0 <= i < k + 1
        ensures IsZeroOrPowerOfTwo(U32At(blocks, AfterU32s(c, i)))
      {
        if i > 0 {
          AfterU32sNext(c, i - 1);
        }
      }
      k := k + 1;
    }
  }

  ghost predicate FirstAt(blocks: nat -> Block, c: Cursor, n: nat)
  {
    RotationAfter(blocks, c, n, ByteAt(blocks, AfterBytes(c, n)) % 64)
  }

  ghost predicate FirstDivisorAt(blocks: nat -> Block, c: Cursor, n: nat)
  {
    DivisorAfter(blocks, c, n, U32At(blocks, AfterU32s(c, n)))
  }

  /** The rotation that the stream holds at `c`, and the place behind it. */
  ghost function Rotation(blocks: nat -> Block, c: Cursor): (d: (nat, Cursor))
    requires RotationComes(blocks, c)
    ensures DrawsRotation(blocks, c, d.0, d.1) && 1 <= d.0 < 64
  {
    assert exists n: nat :: FirstAt(blocks, c, n) by {
      var m: nat :| RotationWithin(blocks, c, m);
      var k := RotationFound(blocks, c, m);
      assert FirstAt(blocks, c, k);
    }
    var n: nat :| FirstAt(blocks, c, n);
    (ByteAt(blocks, AfterBytes(c, n)) % 64, AfterBytes(c, n + 1))
  }

  ghost function Divisor(blocks: nat -> Block, c: Cursor): (d: (u32, Cursor))
    requires DivisorComes(blocks, c)
    ensures DrawsDivisor(blocks, c, d.0, d.1) && !IsZeroOrPowerOfTwo(d.0)
  {
    assert exists n: nat :: FirstDivisorAt(blocks, c, n) by {
      var m: nat :| DivisorWithin(blocks, c, m);
      var k := DivisorFound(blocks, c, m);
      assert FirstDivisorAt(blocks, c, k);
    }
    var n: nat :| FirstDivisorAt(blocks, c, n);
    (U32At(blocks, AfterU32s(c, n)), AfterU32s(c, n + 1))
  }

  /** What a rejection loop draws is determined by the stream. */
  lemma RotationUnique(blocks: nat -> Block, c: Cursor, r: nat, to: Cursor)
    requires RotationComes(blocks, c) && DrawsRotation(blocks, c, r, to)
    ensures (r, to) == Rotation(blocks, c)
  {
    hide ByteAt, AfterBytes;
    var n: nat :| RotationAfter(blocks, c, n, r) && to == AfterBytes(c, n + 1);
    var d := Rotation(blocks, c);
    var m: nat :| RotationAfter(blocks, c, m, d.0) && d.1 == AfterBytes(c, m + 1);
    assert n == m;
  }

  lemma DivisorUnique(blocks: nat -> Block, c: Cursor, w: u32, to: Cursor)
    requires DivisorComes(blocks, c) && DrawsDivisor(blocks, c, w, to)
    ensures (w, to) == Divisor(blocks, c)
  {
    hide U32At, AfterU32s, IsZeroOrPowerOfTwo;
    var n: nat :| DivisorAfter(blocks, c, n, w) && to == AfterU32s(c, n + 1);
    var d := Divisor(blocks, c);
    var m: nat :| DivisorAfter(blocks, c, m, d.0) && d.1 == AfterU32s(c, m + 1);
    assert n == m;
  }

  /** The stream never starves a rejection loop. */
  ghost predicate Patient(blocks: nat -> Block)
  {
    forall c: Cursor :: RotationComes(blocks, c) && DivisorComes(blocks, c)
  }

  ghost predicate RotationComes(blocks: nat -> Block, c: Cursor) { exists n: nat :: RotationWithin(blocks, c, n) }

  ghost predicate DivisorComes(blocks: nat -> Block, c: Cursor) { exists n: nat :: DivisorWithin(blocks, c, n) }

  class Generator {
    const blocks: nat -> Block
    var at: Cursor

    constructor (blocks: nat -> Block)
      ensures this.blocks == blocks && at == Cursor(0, 64)
    {
      this.blocks := blocks;
      at := Cursor(0, 64);
    }

    method GetByte() returns (b: u8)
      modifies this
      ensures b == ByteAt(blocks, old(at)) && at == AfterByte(old(at))
    {
      at := Ready(at, 1);
      b := blocks(at.block)[at.index];
      at := Cursor(at.block, at.index + 1);
    }

    method GetU32() returns (w: u32)
      modifies this
      ensures w == U32At(blocks, old(at)) && at == AfterU32(old(at))
    {
      at := Ready(at, 4);
      w := LittleEndian(blocks(at.block)[at.index..at.index + 4]);
      at := Cursor(at.block, at.index + 4);
    }

    /** The rejection loop of IROR_C: the first byte whose low six bits are not all zero. */
    method DrawRotation() returns (r: nat)
      requires Patient(blocks)
      modifies this
      ensures 1 <= r < 64 && DrawsRotation(blocks, old(at), r, at)
      ensures RotationComes(blocks, old(at)) && (r, at) == Rotation(blocks, old(at))
    {
      hide ByteAt, AfterByte;
      assert RotationComes(blocks, at);
      ghost var n: nat :| RotationWithin(blocks, at, n);
      ghost var start, drawn := at, 0;
      var b := GetByte();
      r := b % 64;
      while r == 0
        invariant r < 64 && r == ByteAt(blocks, AfterBytes(start, drawn)) % 64 && at == AfterBytes(start, drawn + 1)
        invariant forall k :: 0 <= k < drawn ==> ByteAt(blocks, AfterBytes(start, k)) % 64 == 0
        invariant n >= 0 && (r == 0 ==> n > 0 && RotationWithin(blocks, at, n - 1))
        decreases n
      {
        b := GetByte();
        r := b % 64;
        n := n - 1;
        drawn := drawn + 1;
      }
      assert RotationAfter(blocks, start, drawn, r);
      RotationUnique(blocks, start, r, at);
    }

    /** The rejection loop of IMUL_RCP: the first word that is neither zero nor a power of two. */
    method DrawDivisor() returns (w: u32)
      requires Patient(blocks)
      modifies this
      ensures !IsZeroOrPowerOfTwo(w) && DrawsDivisor(blocks, old(at), w, at)
      ensures DivisorComes(blocks, old(at)) && (w, at) == Divisor(blocks, old(at))
    {
      hide U32At, AfterU32, IsZeroOrPowerOfTwo;
      assert DivisorComes(blocks, at);
      ghost var n: nat :| DivisorWithin(blocks, at, n);
      ghost var start, drawn := at, 0;
      w := GetU32();
      while IsZeroOrPowerOfTwo(w)
        invariant w == U32At(blocks, AfterU32s(start, drawn)) && at == AfterU32s(start, drawn + 1)
        invariant forall k :: 0 <= k < drawn ==> IsZeroOrPowerOfTwo(U32At(blocks, AfterU32s(start, k)))
        invariant n >= 0 && (IsZeroOrPowerOfTwo(w) ==> n > 0 && DivisorWithin(blocks, at, n - 1))
        decreases n
      {
        w := GetU32();
        n := n - 1;
        drawn := drawn + 1;
      }
      assert DivisorAfter(blocks, start, drawn, w);
      DivisorUnique(blocks, start, w, at);
    }
  }
}
