/**
 * The compression function of Argon2 (`fill_block_raw` in `argon2/src/core.rs`) against section 3.5
 * of RFC 9106. Storage that may be uninitialised is an array of cells.
 */
module Argon2Block {
  import opened Words

  type Block = s: seq<u64> | |s| == 128 witness seq(128, _ => 0)

  type Sixteen = s: seq<u64> | |s| == 16 witness seq(16, _ => 0)

  /** The round permutation, left arbitrary. */
  type Permutation = Sixteen -> Sixteen

  datatype Cell = Uninit | Init(word: u64)

  // ---------- section 3.5 of RFC 9106 ----------

  function XorBlocks(a: Block, b: Block): (r: Block)
  {
    seq(128, k requires 0 <= k < 128 => Xor64(a[k], b[k]))
  }

  function Column(b: Block, i: nat): Sixteen
    requires i < 8
  {
    b[16 * i..16 * i + 16]
  }

  function ColumnsWord(p: Permutation, r: Block, m: nat): u64
    requires m < 128
  {
    p(Column(r, m / 16))[m % 16]
  }

  /** The permutation of each run of sixteen words. */
  function Columns(p: Permutation, r: Block): Block
  {
    seq(128, m requires 0 <= m < 128 => ColumnsWord(p, r, m))
  }

  /** The word at place `k` of row `i`: rows are made of pairs of words sixteen apart. */
  function RowIndex(i: int, k: int): int { 2 * i + 16 * (k / 2) + k % 2 }

  function Row(q: Block, i: nat): Sixteen
    requires i < 8
  {
    seq(16, k requires 0 <= k < 16 => q[RowIndex(i, k)])
  }

  function RowsWord(p: Permutation, q: Block, m: nat): u64
    requires m < 128
  {
    p(Row(q, m % 16 / 2))[2 * (m / 16) + m % 2]
  }

  function Rows(p: Permutation, q: Block): Block
  {
    seq(128, m requires 0 <= m < 128 => RowsWord(p, q, m))
  }

  /** `G(X, Y)`: R xor P(R), the permutation applied to the columns and then to the rows. */
  function Compress(p: Permutation, x: Block, y: Block): Block
  {
    var r := XorBlocks(x, y);
    XorBlocks(r, Rows(p, Columns(p, r)))
  }

  // ---------- indices ----------

  /** Each word lies in exactly one row, at exactly one place. */
  lemma RowIndexInverse(i: int, k: int)
    requires 0 <= i < 8 && 0 <= k < 16
    ensures 0 <= RowIndex(i, k) < 128
    ensures RowIndex(i, k) % 16 / 2 == i && 2 * (RowIndex(i, k) / 16) + RowIndex(i, k) % 2 == k
  {
    var m := RowIndex(i, k);
    DivModUnique(m, 16, k / 2, 2 * i + k % 2);
  }

  lemma RowIndexOnto(m: int)
    requires 0 <= m < 128
    ensures 0 <= m % 16 / 2 < 8 && 0 <= 2 * (m / 16) + m % 2 < 16
    ensures RowIndex(m % 16 / 2, 2 * (m / 16) + m % 2) == m
  {
  }

  lemma RowsAt(p: Permutation, q: Block, i: nat, k: nat)
    requires i < 8 && k < 16
    ensures 0 <= RowIndex(i, k) < 128 && Rows(p, q)[RowIndex(i, k)] == p(Row(q, i))[k]
  {
    hide RowIndex, Row;
    RowIndexInverse(i, k);
  }

  lemma ColumnsAt(p: Permutation, r: Block, i: nat, k: nat)
    requires i < 8 && k < 16
    ensures Columns(p, r)[16 * i + k] == p(Column(r, i))[k]
  {
    DivModUnique(16 * i + k, 16, i, k);
  }

  // ---------- the fused function ----------

  /** The destination after the column loop: R, or the old word xor R. */
  ghost function Accumulated(withXor: bool, was: seq<Cell>, r: Block, m: int): u64
    requires 0 <= m < |was| == 128
  {
    if withXor && was[m].Init? then Xor64(was[m].word, r[m]) else r[m]
  }

  ghost predicate ColumnsDone(
      p: Permutation, withXor: bool, was: seq<Cell>, r: Block, next: seq<Cell>, scratch: seq<Cell>, n: int)
  {
    && |was| == |next| == |scratch| == 128 && 0 <= n <= 128
    && (forall m :: 0 <= m < n ==> next[m] == Init(Accumulated(withXor, was, r, m)))
    && (forall m :: 0 <= m < n ==> scratch[m] == Init(Columns(p, r)[m]))
    && (forall m :: n <= m < 128 ==> next[m] == was[m])
  }

  /** One turn of the column loop; the destination is read only under `withXor`. */
  method ColumnStep(
      p: Permutation, withXor: bool, prev: Block, ref: Block, next: array<Cell>, scratch: array<Cell>, i: nat,
      ghost was: seq<Cell>)
    requires i < 8 && next != scratch && (forall m :: 0 <= m < |was| ==> withXor ==> was[m].Init?)
    requires ColumnsDone(p, withXor, was, XorBlocks(ref, prev), next[..], scratch[..], 16 * i)
    modifies next, scratch
    ensures ColumnsDone(p, withXor, was, XorBlocks(ref, prev), next[..], scratch[..], 16 * i + 16)
  {
    hide Xor64, Columns;
    var base := 16 * i;
    ghost var r := XorBlocks(ref, prev);
    var v: Sixteen := seq(16, k requires 0 <= k < 16 => Xor64(ref[base + k], prev[base + k]));
    assert v == Column(r, i);
    for k := 0 to 16
      invariant next.Length == scratch.Length == 128 && scratch[..] == old(scratch[..])
      invariant forall m :: 0 <= m < base + k ==> next[m] == Init(Accumulated(withXor, was, r, m))
      invariant forall m :: base + k <= m < 128 ==> next[m] == was[m]
    {
      if withXor {
        next[base + k] := Init(Xor64(next[base + k].word, v[k]));
      } else {
        next[base + k] := Init(v[k]);
      }
    }
    v := p(v);
    ghost var filled := next[..];
    for k := 0 to 16
      invariant scratch.Length == 128 && next[..] == filled
      invariant forall m :: 0 <= m < base + k ==> scratch[m] == Init(Columns(p, r)[m])
    {
      ColumnsAt(p, r, i, k);
      scratch[base + k] := Init(v[k]);
    }
  }

  /** The row loop has folded in the rows before `i` and the first `k` places of row `i`. */
  ghost predicate RowsDone(p: Permutation, acc: seq<u64>, q: Block, next: seq<Cell>, i: int, k: int)
  {
    && |acc| == |next| == 128
    && forall i', k' :: 0 <= i' < 8 && 0 <= k' < 16 ==> RowWord(p, acc, q, next, i, k, i', k')
  }

  ghost predicate RowWord(p: Permutation, acc: seq<u64>, q: Block, next: seq<Cell>, i: int, k: int, i': int, k': int)
    requires |acc| == |next| == 128 && 0 <= i' < 8 && 0 <= k' < 16
  {
    var m := RowIndex(i', k');
    var done := i' < i || (i' == i && k' < k);
    0 <= m < 128 && next[m] == Init(if done then Xor64(acc[m], p(Row(q, i'))[k']) else acc[m])
  }

  lemma RowsNext(p: Permutation, acc: seq<u64>, q: Block, next: seq<Cell>, after: seq<Cell>, i: int, k: int)
    requires RowsDone(p, acc, q, next, i, k) && 0 <= i < 8 && 0 <= k < 16 && 0 <= RowIndex(i, k) < 128
    requires after == next[RowIndex(i, k) := Init(Xor64(acc[RowIndex(i, k)], p(Row(q, i))[k]))]
    ensures RowsDone(p, acc, q, after, i, k + 1)
  {
    hide Xor64, RowIndex, Row;
    var k1 := k + 1;
    forall i', k' | 0 <= i' < 8 && 0 <= k' < 16
      ensures RowWord(p, acc, q, after, i, k1, i', k')
    {
      assert RowWord(p, acc, q, next, i, k, i', k');
      RowIndexInverse(i, k);
      RowIndexInverse(i', k');
    }
  }

  lemma RowsWrap(p: Permutation, acc: seq<u64>, q: Block, next: seq<Cell>, i: int)
    requires RowsDone(p, acc, q, next, i, 16)
    ensures RowsDone(p, acc, q, next, i + 1, 0)
  {
    hide Xor64, RowIndex, Row;
    var i1 := i + 1;
    forall i', k' | 0 <= i' < 8 && 0 <= k' < 16
      ensures RowWord(p, acc, q, next, i1, 0, i', k')
    {
      assert RowWord(p, acc, q, next, i, 16, i', k');
    }
  }

  /** One turn of the row loop: it reads only written scratch words. */
  method RowStep(p: Permutation, next: array<Cell>, scratch: array<Cell>, i: nat, ghost acc: seq<u64>, ghost q: Block)
    requires i < 8 && next != scratch && next.Length == scratch.Length == 128
    requires forall m :: 0 <= m < 128 ==> scratch[m] == Init(q[m])
    requires RowsDone(p, acc, q, next[..], i, 0)
    modifies next
    ensures RowsDone(p, acc, q, next[..], i + 1, 0)
  {
    hide Xor64, RowsDone;
    var cells := scratch[..];
    var v: Sixteen := seq(16, k requires 0 <= k < 16 => cells[RowIndex(i, k)].word);
    assert v == Row(q, i);
    v := p(v);
    for k := 0 to 16
      invariant next.Length == 128 && RowsDone(p, acc, q, next[..], i, k)
    {
      var m := RowIndex(i, k);
      ghost var before := next[..];
      RowAt(p, acc, q, before, i, k);
      next[m] := Init(Xor64(next[m].word, v[k]));
      RowsNext(p, acc, q, before, next[..], i, k);
    }
    RowsWrap(p, acc, q, next[..], i);
  }

  lemma RowAt(p: Permutation, acc: seq<u64>, q: Block, next: seq<Cell>, i: nat, k: nat)
    requires RowsDone(p, acc, q, next, i, k) && i < 8 && k < 16
    ensures |acc| == |next| == 128 && 0 <= RowIndex(i, k) < 128 && next[RowIndex(i, k)] == Init(acc[RowIndex(i, k)])
  {
    hide RowIndex;
    assert RowWord(p, acc, q, next, i, k, i, k);
  }

  /** What a finished destination word is, whatever the order in which the terms were folded in. */
  lemma Finished(p: Permutation, withXor: bool, was: seq<Cell>, r: Block, acc: seq<u64>, next: seq<Cell>, m: int)
    requires |was| == 128 && 0 <= m < 128 && |acc| == 128 && acc[m] == Accumulated(withXor, was, r, m)
    requires RowsDone(p, acc, Columns(p, r), next, 8, 0) && (withXor ==> was[m].Init?)
    ensures next[m] == Init(
      var g := Xor64(r[m], Rows(p, Columns(p, r))[m]);
      if withXor then Xor64(was[m].word, g) else g)
  {
    hide BitXor, Columns, Row, Rows;
    RowIndexOnto(m);
    var i, k := m % 16 / 2, 2 * (m / 16) + m % 2;
    assert RowWord(p, acc, Columns(p, r), next, 8, 0, i, k);
    RowsAt(p, Columns(p, r), i, k);
    if withXor {
      XorAssoc(was[m].word, r[m], Rows(p, Columns(p, r))[m]);
    }
  }

  /**
   * `fill_block_raw`: the destination becomes the compression of the two inputs, xor its old
   * contents when `withXor`; otherwise its old contents may be uninitialised.
   */
  method FillBlockRaw(p: Permutation, withXor: bool, prev: Block, ref: Block, next: array<Cell>)
    requires next.Length == 128 && (withXor ==> forall m :: 0 <= m < 128 ==> next[m].Init?)
    modifies next
    ensures forall m :: 0 <= m < 128 ==>
      next[m] == Init(
        var g := Compress(p, prev, ref)[m];
        if withXor then Xor64(old(next[m]).word, g) else g)
  {
    hide Xor64, Columns, Rows, RowsDone, XorBlocks;
    ghost var was := next[..];
    ghost var r := XorBlocks(ref, prev);
    ghost var q := Columns(p, r);
    var scratch := new Cell[128](_ => Uninit);
    for i := 0 to 8
      invariant ColumnsDone(p, withXor, was, r, next[..], scratch[..], 16 * i)
    {
      ColumnStep(p, withXor, prev, ref, next, scratch, i, was);
    }
    ghost var acc := seq(128, m requires 0 <= m < 128 => Accumulated(withXor, was, r, m));
    RowsStart(p, acc, q, next[..]);
    XorBlocksComm(ref, prev);
    for i := 0 to 8
      invariant RowsDone(p, acc, q, next[..], i, 0)
      invariant forall m :: 0 <= m < 128 ==> scratch[m] == Init(q[m])
    {
      RowStep(p, next, scratch, i, acc, q);
    }
    forall m | 0 <= m < 128
      ensures next[m] == Init(
        var g := Compress(p, prev, ref)[m];
        if withXor then Xor64(was[m].word, g) else g)
    {
      CompressAt(p, prev, ref, m);
      Finished(p, withXor, was, r, acc, next[..], m);
    }
  }

  lemma XorBlocksComm(a: Block, b: Block)
    ensures XorBlocks(a, b) == XorBlocks(b, a)
  {
    hide BitXor;
    forall m | 0 <= m < 128
      ensures XorBlocks(a, b)[m] == XorBlocks(b, a)[m]
    {
      XorComm(a[m], b[m]);
    }
  }

  lemma CompressAt(p: Permutation, x: Block, y: Block, m: nat)
    requires m < 128
    ensures var r := XorBlocks(x, y); Compress(p, x, y)[m] == Xor64(r[m], Rows(p, Columns(p, r))[m])
  {
    hide Xor64, Columns, Rows;
  }

  lemma RowsStart(p: Permutation, acc: seq<u64>, q: Block, next: seq<Cell>)
    requires |acc| == |next| == 128 && forall m :: 0 <= m < 128 ==> next[m] == Init(acc[m])
    ensures RowsDone(p, acc, q, next, 0, 0)
  {
    hide Xor64, Row;
    forall i', k' | 0 <= i' < 8 && 0 <= k' < 16
      ensures RowWord(p, acc, q, next, 0, 0, i', k')
    {
      RowIndexInverse(i', k');
    }
  }
}
