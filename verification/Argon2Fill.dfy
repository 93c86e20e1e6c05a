/**
 * The fixed one-lane Argon2d fill (`argon2/src/core.rs`): which block each step reads, against
 * section 3.4.2 of RFC 9106, and what the three passes leave in memory.
 */
module Argon2Fill {
  import opened Words
  import opened Argon2Block

  const LANE_LENGTH: nat := 262144
  const SEGMENT_LENGTH: nat := 65536
  const LANE_MASK: nat := 262143
  const SYNC_POINTS: nat := 4

  // ---------- the reference window of section 3.4.2 of RFC 9106 ----------

  /** The block indices of the first `n` blocks of a slice. */
  function Segment(slice: nat, n: nat): (s: seq<nat>)
    ensures |s| == n && forall k :: 0 <= k < n ==> s[k] == slice * SEGMENT_LENGTH + k
  {
    seq(n, k requires 0 <= k => slice * SEGMENT_LENGTH + k)
  }

  /** Blocks in the order of their computation: the last finished segments and the current one so far. */
  function Computed(first: bool, slice: nat, index: nat): seq<nat>
    requires slice < SYNC_POINTS
  {
    var n := SEGMENT_LENGTH;
    (if !first then Segment((slice + 1) % 4, n) + Segment((slice + 2) % 4, n) + Segment((slice + 3) % 4, n)
     else if slice == 0 then []
     else if slice == 1 then Segment(0, n)
     else if slice == 2 then Segment(0, n) + Segment(1, n)
     else Segment(0, n) + Segment(1, n) + Segment(2, n))
    + Segment(slice, index)
  }

  /** The window leaves out the block computed last. */
  function Window(first: bool, slice: nat, index: nat): seq<nat>
    requires slice < SYNC_POINTS && Computed(first, slice, index) != []
  {
    var c := Computed(first, slice, index);
    c[..|c| - 1]
  }

  /** `a * b >> 32`, below `a`. */
  function Scaled(a: nat, b: nat): (r: nat)
    requires b < TWO32
    ensures r <= a && (a > 0 ==> r < a)
  {
    ScaledBelow(a, b);
    a * b / TWO32
  }

  lemma ScaledBelow(a: nat, b: nat)
    requires b < TWO32
    ensures 0 <= a * b / TWO32 <= a && (a > 0 ==> a * b / TWO32 < a)
  {
    var r := a * b / TWO32;
    DivMod(a * b, TWO32);
    MulMono(0, a, b);
    MulMono(b, TWO32 - 1, a);
    if r >= a && a > 0 {
      MulMono(a, r, TWO32);
      assert false;
    }
    if r < 0 {
      MulMono(r, -1, TWO32);
      assert false;
    }
  }

  /** The position that the low half of a block's first word selects in a window of `size` blocks. */
  function Selected(size: nat, word: u64): (z: nat)
    requires size > 0
    ensures z < size
  {
    var j := word % TWO32;
    size - 1 - Scaled(size, Scaled(j, j))
  }

  lemma ScaledBounds(a: nat, b: nat)
    requires b < TWO32
    ensures Scaled(a, b) * TWO32 <= a * b < (Scaled(a, b) + 1) * TWO32
  {
    DivMod(a * b, TWO32);
  }

  lemma ScaledGrows(a: nat, b: nat, a': nat, b': nat)
    requires a <= a' && b <= b' < TWO32
    ensures Scaled(a, b) <= Scaled(a', b')
  {
    hide Scaled;
    ScaledBounds(a, b);
    ScaledBounds(a', b');
    MulMono(a, a', b);
    MulMono(b, b', a');
  }

  /**
   * The mapping of section 3.4.2 of RFC 9106: with `x` the square of the low half of the word in
   * units of 2^32, the distance from the newest block of the window is `size * x` in those units.
   */
  lemma SelectedDistance(size: nat, word: u64, x: nat)
    requires size > 0
    requires var j := word % TWO32; x * TWO32 <= j * j < (x + 1) * TWO32
    ensures var z := Selected(size, word); (size - 1 - z) * TWO32 <= size * x < (size - z) * TWO32
  {
    hide Scaled;
    var j := word % TWO32;
    ScaledBounds(j, j);
    SameQuotient(x, Scaled(j, j), j * j);
    ScaledBounds(size, x);
  }

  lemma SameQuotient(x: int, y: int, n: int)
    requires x * TWO32 <= n < (x + 1) * TWO32 && y * TWO32 <= n < (y + 1) * TWO32
    ensures x == y
  {
  }

  /** Larger words never select newer blocks, and a zero low half selects the newest. */
  lemma SelectedOrder(size: nat, v: u64, w: u64)
    requires size > 0
    ensures v % TWO32 <= w % TWO32 ==> Selected(size, w) <= Selected(size, v)
    ensures v % TWO32 == 0 ==> Selected(size, v) == size - 1
  {
    hide Scaled;
    var i, j := v % TWO32, w % TWO32;
    if i <= j {
      ScaledGrows(i, i, j, j);
      ScaledGrows(size, Scaled(i, i), size, Scaled(j, j));
    }
    if i == 0 {
      ScaledBounds(size, 0);
    }
  }

  /** In the first pass blocks are computed in the order of the lane. */
  lemma FirstComputed(slice: nat, index: nat)
    requires slice < SYNC_POINTS && index < SEGMENT_LENGTH
    ensures var c := Computed(true, slice, index);
      |c| == slice * SEGMENT_LENGTH + index && forall z :: 0 <= z < |c| ==> c[z] == z
  {
  }

  /** Later passes look back on a cyclic run that starts behind the current slice. */
  lemma LaterComputed(slice: nat, index: nat, z: nat)
    requires slice < SYNC_POINTS && index < SEGMENT_LENGTH && z < LANE_LENGTH - SEGMENT_LENGTH + index
    ensures var c := Computed(false, slice, index);
      && |c| == LANE_LENGTH - SEGMENT_LENGTH + index
      && c[z] == (var a := (slice + 1) * SEGMENT_LENGTH + z; if a < LANE_LENGTH then a else a - LANE_LENGTH)
  {
  }

  /** Blocks before the current one in the lane, cyclically. */
  function Previous(cur: nat): (p: nat)
    requires cur < LANE_LENGTH
    ensures p < LANE_LENGTH && p != cur
  {
    if cur == 0 then LANE_LENGTH - 1 else cur - 1
  }

  function WindowSize(first: bool, slice: nat, index: nat): int
  {
    if first then slice * SEGMENT_LENGTH + index - 1 else LANE_LENGTH - SEGMENT_LENGTH + index - 1
  }

  /** Where the window lies in the lane: it avoids the current and the previous block. */
  lemma WindowPlace(first: bool, slice: nat, index: nat, z: nat)
    requires slice < SYNC_POINTS && index < SEGMENT_LENGTH && z < WindowSize(first, slice, index)
    ensures Computed(first, slice, index) != [] && |Window(first, slice, index)| == WindowSize(first, slice, index)
    ensures var cur, b := slice * SEGMENT_LENGTH + index, Window(first, slice, index)[z];
      && b < LANE_LENGTH && b != cur && b != Previous(cur)
      && (first ==> b == z && b < cur - 1)
      && (!first && slice == 3 ==> b == z)
      && (!first && slice < 3 ==> b == ((slice + 1) * SEGMENT_LENGTH + z) % LANE_LENGTH)
  {
    hide Computed;
    if first {
      FirstComputed(slice, index);
    } else {
      LaterComputed(slice, index, z);
      var a := (slice + 1) * SEGMENT_LENGTH + z;
      DivModUnique(a, LANE_LENGTH, if a < LANE_LENGTH then 0 else 1, if a < LANE_LENGTH then a else a - LANE_LENGTH);
    }
  }

  // ---------- the passes ----------

  /** The block that the step at `cur` reads besides the previous one, given the previous one's first word. */
  function Reference(first: bool, cur: nat, word: u64): (b: nat)
    requires cur < LANE_LENGTH && (first ==> cur >= 2)
    ensures b < LANE_LENGTH && b != cur && b != Previous(cur) && (first ==> b < cur - 1)
  {
    var slice, index := cur / SEGMENT_LENGTH, cur % SEGMENT_LENGTH;
    WindowPlace(first, slice, index, 0);
    var w := Window(first, slice, index);
    WindowPlace(first, slice, index, Selected(|w|, word));
    w[Selected(|w|, word)]
  }

  predicate IsBase(first: bool, base: seq<Block>, n: nat)
  {
    n <= LANE_LENGTH && if first then |base| == 2 && n >= 2 else |base| == LANE_LENGTH
  }

  /**
   * The blocks after the steps before `n` of a pass. The first pass extends the two initial blocks,
   * a later one overwrites the lane with the xor of old and new contents.
   */
  function Pass(p: Permutation, first: bool, base: seq<Block>, n: nat): (m: seq<Block>)
    requires IsBase(first, base, n)
    ensures |m| == if first then n else LANE_LENGTH
  {
    if n == (if first then 2 else 0) then base
    else
      var m, cur := Pass(p, first, base, n - 1), n - 1;
      var prev := m[Previous(cur)];
      var next := Compress(p, prev, m[Reference(first, cur, prev[0])]);
      if first then m + [next] else m[cur := XorBlocks(m[cur], next)]
  }

  /** The whole fill from the first two blocks. */
  function Fill(p: Permutation, b0: Block, b1: Block): (m: seq<Block>)
    ensures |m| == LANE_LENGTH
  {
    var n := LANE_LENGTH;
    Pass(p, false, Pass(p, false, Pass(p, true, [b0, b1], n), n), n)
  }

  // ---------- the code ----------

  datatype Slot = Empty | Full(block: Block)

  /** The offset arithmetic of one step, with its masks in place of the window. */
  method ReferenceOffset(first: bool, slice: nat, cur: nat, word: u64) returns (refOffset: nat)
    requires slice < SYNC_POINTS && slice * SEGMENT_LENGTH <= cur < (slice + 1) * SEGMENT_LENGTH && (first ==> cur >= 2)
    ensures refOffset == Reference(first, cur, word)
  {
    hide BitAnd, Window, Scaled;
    var index := cur - slice * SEGMENT_LENGTH;
    DivModUnique(cur, SEGMENT_LENGTH, slice, index);
    var area := if first then cur - 1 else LANE_LENGTH - SEGMENT_LENGTH + index - 1;
    var relative := BitAnd(word, 0xffff_ffff);
    assert relative == word % TWO32 by { Pow2At32(); AndOnes(word, 32); }
    relative := Scaled(relative, relative);
    relative := area - 1 - Scaled(area, relative);
    var start := if first || slice == SYNC_POINTS - 1 then 0 else (slice + 1) * SEGMENT_LENGTH;
    var absolute := start + relative;
    WindowPlace(first, slice, index, relative);
    if first || slice == SYNC_POINTS - 1 {
      refOffset := absolute;
    } else {
      refOffset := BitAnd(absolute, LANE_MASK);
      assert refOffset == absolute % LANE_LENGTH by { LaneMask(absolute); }
    }
  }

  lemma PreviousMasked(cur: nat)
    requires cur < LANE_LENGTH
    ensures BitAnd((cur - 1) % TWO32, LANE_MASK) == Previous(cur)
  {
    hide BitAnd;
    LaneMask((cur - 1) % TWO32);
  }

  lemma LaneMask(x: nat)
    ensures BitAnd(x, LANE_MASK) == x % LANE_LENGTH
  {
    assert Pow2(18) == LANE_LENGTH by { Pow2At16(); assert Pow2(17) == 131072; }
    AndOnes(x, 18);
  }

  /** `fill_block_raw` on a slot of the lane; an empty slot is not read. */
  method FillBlock(p: Permutation, withXor: bool, prev: Block, ref: Block, slot: Slot) returns (b: Block)
    requires withXor ==> slot.Full?
    ensures b == if withXor then XorBlocks(slot.block, Compress(p, prev, ref)) else Compress(p, prev, ref)
  {
    hide Compress, Xor64;
    var next := new Cell[128](k requires 0 <= k < 128 => if slot.Full? then Init(slot.block[k]) else Uninit);
    FillBlockRaw(p, withXor, prev, ref, next);
    var cells := next[..];
    b := seq(128, k requires 0 <= k < 128 => cells[k].word);
  }

  /** Memory holds the blocks of the pass so far; in the first pass nothing beyond them is initialised. */
  ghost predicate Reached(p: Permutation, first: bool, base: seq<Block>, mem: seq<Slot>, n: int)
  {
    && 0 <= n && IsBase(first, base, n) && |mem| == LANE_LENGTH
    && var m := Pass(p, first, base, n);
    && (forall k :: 0 <= k < |m| ==> mem[k] == Full(m[k]))
    && (forall k :: |m| <= k < LANE_LENGTH ==> mem[k] == Empty)
  }

  /** The step at `cur` reads two initialised slots, both different from the one it writes. */
  lemma Reads(p: Permutation, first: bool, base: seq<Block>, mem: seq<Slot>, cur: nat)
    requires Reached(p, first, base, mem, cur) && cur < LANE_LENGTH
    ensures var m := Pass(p, first, base, cur);
      && Previous(cur) < |m| && mem[Previous(cur)] == Full(m[Previous(cur)])
      && var ref := Reference(first, cur, m[Previous(cur)][0]);
      && ref < |m| && mem[ref] == Full(m[ref])
      && (first <==> mem[cur] == Empty) && (!first ==> mem[cur] == Full(m[cur]))
  {
    hide Pass, Reference;
  }

  lemma Writes(p: Permutation, first: bool, base: seq<Block>, mem: seq<Slot>, cur: nat, b: Block)
    requires Reached(p, first, base, mem, cur) && cur < LANE_LENGTH
    requires var m := Pass(p, first, base, cur);
      var prev := m[Previous(cur)];
      var next := Compress(p, prev, m[Reference(first, cur, prev[0])]);
      b == if first then next else XorBlocks(m[cur], next)
    ensures Reached(p, first, base, mem[cur := Full(b)], cur + 1)
  {
    hide Reference, Compress, XorBlocks;
    var m, m' := Pass(p, first, base, cur), Pass(p, first, base, cur + 1);
    assert m' == if first then m + [b] else m[cur := b];
  }

  /** One segment of a pass; `withXor` goes with the later passes. */
  method FillSegment(p: Permutation, first: bool, withXor: bool, slice: nat, mem: array<Slot>, ghost base: seq<Block>)
    requires slice < SYNC_POINTS && withXor == !first
    requires Reached(p, first, base, mem[..], if first && slice == 0 then 2 else slice * SEGMENT_LENGTH)
    modifies mem
    ensures Reached(p, first, base, mem[..], (slice + 1) * SEGMENT_LENGTH)
  {
    hide Reached, Reference, Pass, Compress, BitAnd, Computed, Window;
    var startingIndex := if first && slice == 0 then 2 else 0;
    var segmentStart := slice * SEGMENT_LENGTH;
    var segmentEnd := segmentStart + SEGMENT_LENGTH;
    var firstOffset := segmentStart + startingIndex;
    var prevOffset := BitAnd((firstOffset - 1) % TWO32, LANE_MASK);
    PreviousMasked(firstOffset);
    for cur := firstOffset to segmentEnd
      invariant Reached(p, first, base, mem[..], cur)
      invariant cur < segmentEnd ==> prevOffset == Previous(cur)
    {
      FillStep(p, first, withXor, slice, mem, prevOffset, cur, base);
      prevOffset := cur;
    }
  }

  method FillStep(
      p: Permutation, first: bool, withXor: bool, slice: nat, mem: array<Slot>, prevOffset: nat, cur: nat,
      ghost base: seq<Block>)
    requires slice < SYNC_POINTS && slice * SEGMENT_LENGTH <= cur < (slice + 1) * SEGMENT_LENGTH && withXor == !first
    requires Reached(p, first, base, mem[..], cur) && prevOffset == Previous(cur)
    modifies mem
    ensures Reached(p, first, base, mem[..], cur + 1)
  {
    hide Reference, Pass, Compress, XorBlocks;
    Reads(p, first, base, mem[..], cur);
    var refOffset := ReferenceOffset(first, slice, cur, mem[prevOffset].block[0]);
    var b := FillBlock(p, withXor, mem[prevOffset].block, mem[refOffset].block, mem[cur]);
    Writes(p, first, base, mem[..], cur, b);
    ghost var was := mem[..];
    mem[cur] := Full(b);
    assert mem[..] == was[cur := Full(b)];
  }

  method FillPass(p: Permutation, first: bool, withXor: bool, mem: array<Slot>, ghost base: seq<Block>)
    requires withXor == !first && Reached(p, first, base, mem[..], if first then 2 else 0)
    modifies mem
    ensures Reached(p, first, base, mem[..], LANE_LENGTH)
  {
    hide Reached;
    FillSegment(p, first, withXor, 0, mem, base);
    FillSegment(p, first, withXor, 1, mem, base);
    FillSegment(p, first, withXor, 2, mem, base);
    FillSegment(p, first, withXor, 3, mem, base);
  }

  /** The four bytes of a small number, little endian. */
  function Bytes4(x: u8): seq<u8> { [x, 0, 0, 0] }

  /** The 72-byte seed of one of the first two blocks. */
  function SeedBytes(prehash: seq<u8>, i: nat): seq<u8>
    requires i < 2
  {
    prehash + Bytes4(i) + Bytes4(0)
  }

  /** The seed is the digest, the block number and the lane number 0, both in four bytes, lowest first. */
  lemma SeedLayout(prehash: seq<u8>, i: nat)
    requires |prehash| == 64 && i < 2
    ensures var s := SeedBytes(prehash, i);
      && |s| == 72 && s[..64] == prehash
      && s[64] + 0x100 * s[65] + 0x1_0000 * s[66] + 0x100_0000 * s[67] == i
      && s[68] + 0x100 * s[69] + 0x1_0000 * s[70] + 0x100_0000 * s[71] == 0
  {
  }

  /** The first two blocks hash their seeds. */
  function SeedBlock(hprime: seq<u8> -> Block, prehash: seq<u8>, i: nat): Block
    requires i < 2
  {
    hprime(SeedBytes(prehash, i))
  }

  /** `initialize_randomx`: every slot ends up initialised with the block that the specification assigns to it. */
  method Initialize(p: Permutation, hprime: seq<u8> -> Block, prehash: seq<u8>) returns (mem: array<Slot>)
    requires |prehash| == 64
    ensures fresh(mem) && mem.Length == LANE_LENGTH
    ensures var m := Fill(p, SeedBlock(hprime, prehash, 0), SeedBlock(hprime, prehash, 1));
      forall k :: 0 <= k < LANE_LENGTH ==> mem[k] == Full(m[k])
  {
    hide Pass;
    mem := new Slot[LANE_LENGTH](_ => Empty);
    for i := 0 to 2
      invariant forall k :: 0 <= k < i ==> mem[k] == Full(SeedBlock(hprime, prehash, k))
      invariant forall k :: i <= k < LANE_LENGTH ==> mem[k] == Empty
    {
      mem[i] := Full(SeedBlock(hprime, prehash, i));
    }
    ghost var n := LANE_LENGTH;
    ghost var base := [mem[0].block, mem[1].block];
    PassStarts(p, true, base);
    FillPass(p, true, false, mem, base);
    ghost var one := Pass(p, true, base, n);
    PassStarts(p, false, one);
    FillPass(p, false, true, mem, one);
    ghost var two := Pass(p, false, one, n);
    PassStarts(p, false, two);
    FillPass(p, false, true, mem, two);
  }

  lemma PassStarts(p: Permutation, first: bool, base: seq<Block>)
    requires |base| == if first then 2 else LANE_LENGTH
    ensures Pass(p, first, base, if first then 2 else 0) == base
  {
  }
}
