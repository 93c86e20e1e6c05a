/** The CryptoNote tree hash and the difficulty check (`audit/src/monero.rs`). */
module Monero {
  import opened Words
  import opened Wrappers

  // ---------- the tree ----------

  datatype Tree<Hash> = Leaf(hash: Hash) | Node(left: Tree<Hash>, right: Tree<Hash>)

  function Eval<Hash>(pair: (Hash, Hash) -> Hash, t: Tree<Hash>): Hash
  {
    match t
    case Leaf(h) => h
    case Node(l, r) => pair(Eval(pair, l), Eval(pair, r))
  }

  /** The leaves from left to right. */
  function Leaves<Hash>(t: Tree<Hash>): seq<Hash>
  {
    match t
    case Leaf(h) => [h]
    case Node(l, r) => Leaves(l) + Leaves(r)
  }

  /** The depths of the leaves from left to right, below a root at depth `d`. */
  function Depths<Hash>(t: Tree<Hash>, d: nat): (s: seq<nat>)
    ensures |s| == |Leaves(t)| > 0
  {
    match t
    case Leaf(_) => [d]
    case Node(l, r) => Depths(l, d + 1) + Depths(r, d + 1)
  }

  ghost predicate Ascending(s: seq<nat>) { forall i, j :: 0 <= i < j < |s| ==> s[i] <= s[j] }

  /** No two depths differ by more than one. */
  ghost predicate Balanced(s: seq<nat>) { forall i, j :: 0 <= i < |s| && 0 <= j < |s| ==> s[j] <= s[i] + 1 }

  /** The perfect binary tree of height `k` over a row of subtrees. */
  function Perfect<Hash>(row: seq<Tree<Hash>>, k: nat): Tree<Hash>
    requires |row| == Pow2(k)
  {
    if k == 0 then row[0]
    else Node(Perfect(row[..Pow2(k - 1)], k - 1), Perfect(row[Pow2(k - 1)..], k - 1))
  }

  /** `k` is the exponent of the largest power of two below `n`. */
  predicate RowExponent(n: nat, k: nat) { Pow2(k) < n <= 2 * Pow2(k) }

  function ExponentBelow(n: nat, k: nat): (e: nat)
    requires n > Pow2(k)
    ensures RowExponent(n, e)
    decreases n - Pow2(k)
  {
    if 2 * Pow2(k) < n then ExponentBelow(n, k + 1) else k
  }

  /** The bottom row: the first hashes stand alone and the others are paired, so that the row has 2^k trees. */
  function BottomRow<Hash>(hashes: seq<Hash>, k: nat): (row: seq<Tree<Hash>>)
    requires RowExponent(|hashes|, k)
    ensures |row| == Pow2(k)
  {
    var direct := 2 * Pow2(k) - |hashes|;
    seq(Pow2(k), j requires 0 <= j < Pow2(k) =>
      if j < direct then Leaf(hashes[j])
      else Node(Leaf(hashes[2 * j - direct]), Leaf(hashes[2 * j - direct + 1])))
  }

  function TreeOf<Hash>(hashes: seq<Hash>): Tree<Hash>
    requires hashes != []
  {
    if |hashes| == 1 then Leaf(hashes[0])
    else var k := ExponentBelow(|hashes|, 0); Perfect(BottomRow(hashes, k), k)
  }

  // ---------- the tree is over all leaves, in order, and balanced ----------

  function RowLeaves<Hash>(row: seq<Tree<Hash>>): seq<Hash>
  {
    if row == [] then [] else RowLeaves(row[..|row| - 1]) + Leaves(row[|row| - 1])
  }

  lemma {:induction false} RowLeavesAppend<Hash>(a: seq<Tree<Hash>>, b: seq<Tree<Hash>>)
    ensures RowLeaves(a + b) == RowLeaves(a) + RowLeaves(b)
  {
    if b == [] {
      assert a + b == a;
    } else {
      var n := |b| - 1;
      assert (a + b)[..|a + b| - 1] == a + b[..n];
      RowLeavesAppend(a, b[..n]);
    }
  }

  lemma {:induction false} PerfectLeaves<Hash>(row: seq<Tree<Hash>>, k: nat)
    requires |row| == Pow2(k)
    ensures Leaves(Perfect(row, k)) == RowLeaves(row)
  {
    hide RowLeaves;
    if k == 0 {
      SingleRow(row, 0);
    } else {
      var h := Pow2(k - 1);
      assert row == row[..h] + row[h..];
      RowLeavesAppend(row[..h], row[h..]);
      PerfectLeaves(row[..h], k - 1);
      PerfectLeaves(row[h..], k - 1);
    }
  }

  lemma {:induction false} BottomLeaves<Hash>(hashes: seq<Hash>, k: nat, n: nat)
    requires RowExponent(|hashes|, k) && n <= Pow2(k)
    ensures RowLeaves(BottomRow(hashes, k)[..n]) == hashes[..Consumed(hashes, k, n)]
  {
    hide Pow2, BottomRow;
    var row := BottomRow(hashes, k);
    if n > 0 {
      BottomLeaves(hashes, k, n - 1);
      assert row[..n][..n - 1] == row[..n - 1];
      BottomNext(hashes, k, n - 1);
    }
  }

  /** How many hashes the first `n` trees of the bottom row hold. */
  function Consumed<Hash>(hashes: seq<Hash>, k: nat, n: nat): (c: nat)
    requires RowExponent(|hashes|, k) && n <= Pow2(k)
    ensures c <= |hashes|
  {
    var direct := 2 * Pow2(k) - |hashes|;
    if n <= direct then n else 2 * n - direct
  }

  lemma BottomNext<Hash>(hashes: seq<Hash>, k: nat, n: nat)
    requires RowExponent(|hashes|, k) && n < Pow2(k)
    ensures hashes[..Consumed(hashes, k, n + 1)] == hashes[..Consumed(hashes, k, n)] + Leaves(BottomRow(hashes, k)[n])
  {
    hide Pow2;
    var m, t := Consumed(hashes, k, n), BottomRow(hashes, k)[n];
    if t.Node? {
      PairLeaves(t, hashes[m], hashes[m + 1]);
    }
  }

  lemma PairLeaves<Hash>(t: Tree<Hash>, a: Hash, b: Hash)
    requires t == Node(Leaf(a), Leaf(b))
    ensures Leaves(t) == [a, b]
  {
    assert Leaves(t.left) == [a] && Leaves(t.right) == [b];
  }

  // ---------- leaf depths ----------

  /** The leaf depths of a row of trees whose roots stand at depth `d`. */
  function RowDepths<Hash>(row: seq<Tree<Hash>>, d: nat): seq<nat>
  {
    if row == [] then [] else RowDepths(row[..|row| - 1], d) + Depths(row[|row| - 1], d)
  }

  lemma {:induction false} RowDepthsAppend<Hash>(a: seq<Tree<Hash>>, b: seq<Tree<Hash>>, d: nat)
    ensures RowDepths(a + b, d) == RowDepths(a, d) + RowDepths(b, d)
  {
    hide Depths;
    if b == [] {
      assert a + b == a;
    } else {
      var n := |b| - 1;
      assert (a + b)[..|a + b| - 1] == a + b[..n];
      RowDepthsAppend(a, b[..n], d);
    }
  }

  lemma SingleRow<Hash>(row: seq<Tree<Hash>>, d: nat)
    requires |row| == 1
    ensures RowDepths(row, d) == Depths(row[0], d) && RowLeaves(row) == Leaves(row[0])
  {
    assert row[..0] == [] && RowDepths(row[..0], d) == [] && RowLeaves(row[..0]) == [];
  }

  lemma {:induction false} PerfectDepths<Hash>(row: seq<Tree<Hash>>, k: nat, d: nat)
    requires |row| == Pow2(k)
    ensures Depths(Perfect(row, k), d) == RowDepths(row, d + k)
  {
    hide RowDepths, Leaves;
    if k == 0 {
      SingleRow(row, d);
    } else {
      var h := Pow2(k - 1);
      assert row == row[..h] + row[h..];
      RowDepthsAppend(row[..h], row[h..], d + k);
      PerfectDepths(row[..h], k - 1, d + 1);
      PerfectDepths(row[h..], k - 1, d + 1);
    }
  }

  /** `n` depths of which the first `direct` are `d` and the others one more. */
  function Level(n: nat, direct: nat, d: nat): (s: seq<nat>)
    ensures |s| == n && Ascending(s) && Balanced(s)
  {
    seq(n, j requires 0 <= j < n => if j < direct then d else d + 1)
  }

  lemma {:induction false} BottomDepths<Hash>(hashes: seq<Hash>, k: nat, n: nat, d: nat)
    requires RowExponent(|hashes|, k) && n <= Pow2(k)
    ensures RowDepths(BottomRow(hashes, k)[..n], d) == Level(Consumed(hashes, k, n), 2 * Pow2(k) - |hashes|, d)
  {
    hide Pow2;
    var row := BottomRow(hashes, k);
    if n > 0 {
      BottomDepths(hashes, k, n - 1, d);
      assert row[..n][..n - 1] == row[..n - 1];
      if n <= 2 * Pow2(k) - |hashes| {
        assert Depths(row[n - 1], d) == [d];
      } else {
        PairDepths(row[n - 1], d);
      }
    }
  }

  lemma PairDepths<Hash>(t: Tree<Hash>, d: nat)
    requires t.Node? && t.left.Leaf? && t.right.Leaf?
    ensures Depths(t, d) == [d + 1, d + 1] && Leaves(t) == [t.left.hash, t.right.hash]
  {
    assert Depths(t.left, d + 1) == [d + 1] && Depths(t.right, d + 1) == [d + 1];
    PairLeaves(t, t.left.hash, t.right.hash);
  }

  /**
   * Every hash is a leaf exactly once, in order; the depths of any two leaves differ by at most
   * one, and the deeper leaves stand to the right.
   */
  lemma TreeLayout<Hash>(hashes: seq<Hash>)
    requires hashes != []
    ensures Leaves(TreeOf(hashes)) == hashes
    ensures Ascending(Depths(TreeOf(hashes), 0)) && Balanced(Depths(TreeOf(hashes), 0))
  {
    hide Pow2, Perfect, BottomRow, RowLeaves, RowDepths, Level, Ascending, Balanced, ExponentBelow;
    FirstPower();
    if |hashes| > 1 {
      var k := ExponentBelow(|hashes|, 0);
      var row := BottomRow(hashes, k);
      assert row[..Pow2(k)] == row && hashes[..|hashes|] == hashes;
      PerfectLeaves(row, k);
      BottomLeaves(hashes, k, Pow2(k));
      PerfectDepths(row, k, 0);
      BottomDepths(hashes, k, Pow2(k), k);
    } else {
      SingleLayout(hashes[0]);
    }
  }

  lemma FirstPower()
    ensures Pow2(0) == 1
  {
  }

  lemma SingleLayout<Hash>(h: Hash)
    ensures Leaves(Leaf(h)) == [h] && Ascending(Depths(Leaf(h), 0)) && Balanced(Depths(Leaf(h), 0))
  {
  }

  // ---------- no other tree has this layout ----------

  /** All leaves stand at depth `k` or `k + 1`. */
  ghost predicate Within<Hash>(t: Tree<Hash>, d: nat, k: nat)
  {
    forall i :: 0 <= i < |Depths(t, d)| ==> d + k <= Depths(t, d)[i] <= d + k + 1
  }

  lemma WithinParts<Hash>(t: Tree<Hash>, d: nat, k: nat)
    requires t.Node? && Within(t, d, k) && k > 0
    ensures Within(t.left, d + 1, k - 1) && Within(t.right, d + 1, k - 1)
  {
    var l, r := Depths(t.left, d + 1), Depths(t.right, d + 1);
    assert Depths(t, d) == l + r;
    assert forall i :: 0 <= i < |l| ==> Depths(t, d)[i] == l[i];
    assert forall i :: 0 <= i < |r| ==> Depths(t, d)[|l| + i] == r[i];
  }

  /** The subtrees at depth `k`. */
  function RowAt<Hash>(t: Tree<Hash>, k: nat): (row: seq<Tree<Hash>>)
  {
    if k == 0 then [t] else if t.Leaf? then [] else RowAt(t.left, k - 1) + RowAt(t.right, k - 1)
  }

  ghost predicate IsRow<Hash>(row: seq<Tree<Hash>>)
  {
    forall j :: 0 <= j < |row| ==> row[j].Leaf? || (row[j].left.Leaf? && row[j].right.Leaf?)
  }

  lemma Shallow<Hash>(t: Tree<Hash>, d: nat)
    requires Within(t, d, 0)
    ensures t.Leaf? || (t.left.Leaf? && t.right.Leaf?)
  {
    if t.Node? {
      var l, r := Depths(t.left, d + 1), Depths(t.right, d + 1);
      assert Depths(t, d) == l + r;
      assert Depths(t, d)[0] == l[0] && Depths(t, d)[|l|] == r[0];
      DeepNode(t.left, d + 1);
      DeepNode(t.right, d + 1);
    }
  }

  lemma {:induction false} DeepNode<Hash>(t: Tree<Hash>, d: nat)
    ensures Depths(t, d)[0] >= d && (t.Node? ==> Depths(t, d)[0] > d)
  {
    if t.Node? {
      DeepNode(t.left, d + 1);
    }
  }

  /** A tree with all leaves at two neighbouring depths is the perfect tree over its row. */
  lemma {:induction false} RowRebuilds<Hash>(t: Tree<Hash>, d: nat, k: nat)
    requires Within(t, d, k)
    ensures |RowAt(t, k)| == Pow2(k) && Perfect(RowAt(t, k), k) == t && IsRow(RowAt(t, k))
    decreases k
  {
    if k == 0 {
      Shallow(t, d);
    } else {
      if t.Leaf? {
        assert Depths(t, d)[0] == d;
      }
      WithinParts(t, d, k);
      RowRebuilds(t.left, d + 1, k - 1);
      RowRebuilds(t.right, d + 1, k - 1);
      var row := RowAt(t, k);
      assert row[..Pow2(k - 1)] == RowAt(t.left, k - 1) && row[Pow2(k - 1)..] == RowAt(t.right, k - 1);
    }
  }

  /** In a row with ascending leaf depths no pair stands before a single leaf. */
  lemma PairsLast<Hash>(row: seq<Tree<Hash>>, d: nat, i: nat, j: nat)
    requires IsRow(row) && Ascending(RowDepths(row, d)) && i < j < |row| && row[i].Node?
    ensures row[j].Node?
  {
    PairDepths(row[i], d);
    if row[j].Leaf? {
      var a := EntryOf(row, d, i);
      var b := EntryOf(row, d, j);
      EntriesOrdered(row, d, i, j);
    }
  }

  /** The position of the first leaf of tree `i` among the leaves of the row. */
  function FirstOf<Hash>(row: seq<Tree<Hash>>, d: nat, i: nat): nat
    requires i < |row|
  {
    |RowDepths(row[..i], d)|
  }

  lemma EntryOf<Hash>(row: seq<Tree<Hash>>, d: nat, i: nat) returns (p: nat)
    requires i < |row|
    ensures p == FirstOf(row, d, i) && p < |RowDepths(row, d)| && RowDepths(row, d)[p] == Depths(row[i], d)[0]
  {
    p := FirstOf(row, d, i);
    RowSplits(row, d, i);
  }

  lemma RowSplits<Hash>(row: seq<Tree<Hash>>, d: nat, i: nat)
    requires i < |row|
    ensures RowDepths(row, d) == RowDepths(row[..i], d) + Depths(row[i], d) + RowDepths(row[i + 1..], d)
    ensures RowLeaves(row) == RowLeaves(row[..i]) + Leaves(row[i]) + RowLeaves(row[i + 1..])
    ensures RowDepths(row[..i + 1], d) == RowDepths(row[..i], d) + Depths(row[i], d)
    ensures RowLeaves(row[..i + 1]) == RowLeaves(row[..i]) + Leaves(row[i])
  {
    assert row[..i + 1][..i] == row[..i];
    assert row == row[..i + 1] + row[i + 1..];
    RowDepthsAppend(row[..i + 1], row[i + 1..], d);
    RowLeavesAppend(row[..i + 1], row[i + 1..]);
  }

  lemma {:induction false} EntriesOrdered<Hash>(row: seq<Tree<Hash>>, d: nat, i: nat, j: nat)
    requires i < j < |row|
    ensures FirstOf(row, d, i) < FirstOf(row, d, j)
    decreases j - i
  {
    RowSplits(row, d, j - 1);
    if i < j - 1 {
      EntriesOrdered(row, d, i, j - 1);
    }
  }

  /** The number of single leaves at the start of the row. */
  function Singles<Hash>(row: seq<Tree<Hash>>): (p: nat)
    ensures p <= |row| && (forall j :: 0 <= j < p ==> row[j].Leaf?) && (p < |row| ==> row[p].Node?)
  {
    if row == [] || row[0].Node? then 0 else 1 + Singles(row[1..])
  }

  /** How many leaves the first `n` trees of a row with `p` singles hold. */
  function Held(n: nat, p: nat): int { if n <= p then n else 2 * n - p }

  lemma {:induction false} RowCounts<Hash>(row: seq<Tree<Hash>>, p: nat, n: nat)
    requires IsRow(row) && n <= |row| && p <= |row| && forall j :: 0 <= j < |row| ==> (row[j].Leaf? <==> j < p)
    ensures |RowLeaves(row[..n])| == Held(n, p)
  {
    if n > 0 {
      RowCounts(row, p, n - 1);
      RowSplits(row, 0, n - 1);
      if n > p {
        PairDepths(row[n - 1], 0);
      }
    }
  }

  /** A row of singles and then pairs over all hashes is the bottom row. */
  lemma RowIsBottom<Hash>(row: seq<Tree<Hash>>, hashes: seq<Hash>, k: nat, d: nat)
    requires |row| == Pow2(k) && RowExponent(|hashes|, k) && IsRow(row)
    requires RowLeaves(row) == hashes && Ascending(RowDepths(row, d))
    ensures row == BottomRow(hashes, k)
  {
    hide Pow2, BottomRow;
    var p := Singles(row);
    forall j | 0 <= j < |row|
      ensures row[j].Leaf? <==> j < p
    {
      if j > p {
        PairsLast(row, d, p, j);
      }
    }
    assert row[..|row|] == row;
    RowCounts(row, p, |row|);
    assert p == 2 * Pow2(k) - |hashes|;
    forall j | 0 <= j < |row|
      ensures row[j] == BottomRow(hashes, k)[j]
    {
      RowCounts(row, p, j);
      RowSplits(row, d, j);
      TreeAt(row, hashes, k, p, j);
    }
  }

  lemma TreeAt<Hash>(row: seq<Tree<Hash>>, hashes: seq<Hash>, k: nat, p: nat, j: nat)
    requires RowExponent(|hashes|, k) && |row| == Pow2(k) && IsRow(row) && j < |row| && p == 2 * Pow2(k) - |hashes|
    requires row[j].Leaf? <==> j < p
    requires RowLeaves(row[..j]) + Leaves(row[j]) <= hashes && |RowLeaves(row[..j])| == Held(j, p)
    ensures row[j] == BottomRow(hashes, k)[j]
  {
    hide Pow2;
    var t, before := row[j], RowLeaves(row[..j]);
    var s := before + Leaves(t);
    if t.Leaf? {
      assert s[|before|] == t.hash && hashes[|before|] == s[|before|];
    } else {
      PairDepths(t, 0);
      assert s[|before|] == t.left.hash && s[|before| + 1] == t.right.hash;
      assert hashes[|before|] == s[|before|] && hashes[|before| + 1] == s[|before| + 1];
    }
  }

  lemma {:induction false} ExponentUnique(n: nat, k: nat, l: nat)
    requires RowExponent(n, k) && RowExponent(n, l)
    ensures k == l
  {
    if k < l {
      Pow2Mono(k + 1, l);
    } else if l < k {
      Pow2Mono(l + 1, k);
    }
  }

  /** A row whose last tree is a pair holds more than 2^k and at most 2^(k+1) leaves. */
  lemma RowSize<Hash>(row: seq<Tree<Hash>>, k: nat, d: nat)
    requires |row| == Pow2(k) && IsRow(row) && Ascending(RowDepths(row, d)) && row[|row| - 1].Node?
    ensures RowExponent(|RowLeaves(row)|, k)
  {
    hide Pow2;
    var p := Singles(row);
    forall j | 0 <= j < |row|
      ensures row[j].Leaf? <==> j < p
    {
      if j > p {
        PairsLast(row, d, p, j);
      }
    }
    assert row[..|row|] == row;
    RowCounts(row, p, |row|);
  }

  /** The last leaf of an ascending tree is a deepest one. */
  lemma DepthsWithin<Hash>(t: Tree<Hash>) returns (k: nat)
    requires t.Node? && Ascending(Depths(t, 0)) && Balanced(Depths(t, 0))
    ensures Within(t, 0, k) && Depths(t, 0)[|Depths(t, 0)| - 1] == k + 1
  {
    var s := Depths(t, 0);
    DeepNode(t, 0);
    assert s[0] <= s[|s| - 1];
    k := s[|s| - 1] - 1;
  }

  lemma LastIsPair<Hash>(row: seq<Tree<Hash>>, d: nat)
    requires row != [] && RowDepths(row, d)[|RowDepths(row, d)| - 1] == d + 1
    ensures row[|row| - 1].Node?
  {
  }

  /** The layout determines the tree: in order, balanced, and the deeper leaves to the right. */
  lemma OnlyTree<Hash>(hashes: seq<Hash>, t: Tree<Hash>)
    requires Leaves(t) == hashes && Ascending(Depths(t, 0)) && Balanced(Depths(t, 0))
    ensures hashes != [] && t == TreeOf(hashes)
  {
    hide Pow2, Perfect, BottomRow, Within, RowAt, IsRow, Ascending, Balanced, ExponentBelow, RowDepths, RowLeaves;
    assert |Depths(t, 0)| == |hashes|;
    if t.Node? {
      var k := DepthsWithin(t);
      RowRebuilds(t, 0, k);
      var row := RowAt(t, k);
      PerfectLeaves(row, k);
      PerfectDepths(row, k, 0);
      LastIsPair(row, k);
      RowSize(row, k, k);
      RowIsBottom(row, hashes, k, k);
      TwoOrMore(t);
      FirstPower();
      ExponentUnique(|hashes|, k, ExponentBelow(|hashes|, 0));
    }
  }

  lemma TwoOrMore<Hash>(t: Tree<Hash>)
    requires t.Node?
    ensures |Leaves(t)| >= 2
  {
    assert |Depths(t.left, 1)| > 0 && |Depths(t.right, 1)| > 0;
  }

  // ---------- folding level by level ----------

  /** The value of the perfect tree over a row of hashes. */
  function PerfectHash<Hash>(pair: (Hash, Hash) -> Hash, s: seq<Hash>, k: nat): Hash
    requires |s| == Pow2(k)
  {
    if k == 0 then s[0]
    else pair(PerfectHash(pair, s[..Pow2(k - 1)], k - 1), PerfectHash(pair, s[Pow2(k - 1)..], k - 1))
  }

  function Folded<Hash>(pair: (Hash, Hash) -> Hash, s: seq<Hash>, n: nat): seq<Hash>
    requires 2 * n <= |s|
  {
    seq(n, d requires 0 <= d < n => pair(s[2 * d], s[2 * d + 1]))
  }

  lemma FoldFirst<Hash>(pair: (Hash, Hash) -> Hash, s: seq<Hash>)
    requires |s| == Pow2(1)
    ensures |s| == 2 && Folded(pair, s, 1) == [pair(s[0], s[1])]
  {
  }

  lemma FoldSplits<Hash>(pair: (Hash, Hash) -> Hash, s: seq<Hash>, h: nat)
    requires |s| == 4 * h
    ensures Folded(pair, s, 2 * h)[..h] == Folded(pair, s[..2 * h], h)
    ensures Folded(pair, s, 2 * h)[h..] == Folded(pair, s[2 * h..], h)
  {
  }

  /** Folding a level bottom-up does not change the value of the tree above it. */
  lemma {:induction false} FoldKeeps<Hash>(pair: (Hash, Hash) -> Hash, s: seq<Hash>, k: nat)
    requires |s| == Pow2(k + 1)
    ensures PerfectHash(pair, Folded(pair, s, Pow2(k)), k) == PerfectHash(pair, s, k + 1)
  {
    hide Folded;
    if k == 0 {
      FoldFirst(pair, s);
      PairHash(pair, s);
    } else {
      var h := Pow2(k - 1);
      var l, r := s[..2 * h], s[2 * h..];
      FoldSplits(pair, s, h);
      FoldKeeps(pair, l, k - 1);
      FoldKeeps(pair, r, k - 1);
    }
  }

  ghost predicate Evaluates<Hash>(pair: (Hash, Hash) -> Hash, row: seq<Tree<Hash>>, s: seq<Hash>)
  {
    |row| == |s| && forall j :: 0 <= j < |row| ==> s[j] == Eval(pair, row[j])
  }

  lemma {:induction false} PerfectEval<Hash>(pair: (Hash, Hash) -> Hash, row: seq<Tree<Hash>>, s: seq<Hash>, k: nat)
    requires |row| == Pow2(k) && Evaluates(pair, row, s)
    ensures Eval(pair, Perfect(row, k)) == PerfectHash(pair, s, k)
  {
    if k > 0 {
      var h := Pow2(k - 1);
      PerfectEval(pair, row[..h], s[..h], k - 1);
      PerfectEval(pair, row[h..], s[h..], k - 1);
    }
  }

  // ---------- the code ----------

  /** The length of the bottom row: the largest power of two below the number of hashes. */
  method RowLength(count: nat) returns (len: nat)
    requires count >= 3
    ensures len == Pow2(ExponentBelow(count, 0)) && 2 <= len < count <= 2 * len
  {
    len := 1;
    ghost var k := 0;
    while len * 2 < count
      invariant len == Pow2(k) && len < count && ExponentBelow(count, k) == ExponentBelow(count, 0)
      decreases count - len
    {
      len := len * 2;
      k := k + 1;
    }
  }

  method FillRow<Hash>(pair: (Hash, Hash) -> Hash, hashes: seq<Hash>, len: nat, ghost k: nat, filler: Hash)
    returns (level: array<Hash>)
    requires len == Pow2(k) && RowExponent(|hashes|, k)
    ensures fresh(level) && level.Length == len && Evaluates(pair, BottomRow(hashes, k), level[..])
  {
    hide Pow2;
    var direct := 2 * len - |hashes|;
    level := new Hash[len](_ => filler);
    for j := 0 to direct
      invariant forall i :: 0 <= i < j ==> level[i] == hashes[i]
    {
      level[j] := hashes[j];
    }
    var source := direct;
    for j := direct to len
      invariant source == 2 * j - direct
      invariant forall i :: 0 <= i < j ==> level[i] == Eval(pair, BottomRow(hashes, k)[i])
    {
      level[j] := pair(hashes[source], hashes[source + 1]);
      source := source + 2;
    }
    assert source == |hashes|;
  }

  /** Folds one level onto its own first half; every slot read still holds the level below. */
  method FoldLevel<Hash>(pair: (Hash, Hash) -> Hash, level: array<Hash>, len: nat)
    requires 2 * len <= level.Length
    modifies level
    ensures level[..len] == Folded(pair, old(level[..]), len)
  {
    for d := 0 to len
      invariant level[..d] == Folded(pair, old(level[..]), d)
      invariant forall i :: d <= i < level.Length ==> level[i] == old(level[i])
    {
      level[d] := pair(level[2 * d], level[2 * d + 1]);
    }
  }

  /** `tree_hash`: the value of the tree over all hashes; it panics exactly on the empty list. */
  method TreeHash<Hash>(pair: (Hash, Hash) -> Hash, hashes: seq<Hash>) returns (r: Result<Hash>)
    ensures r.Panic? <==> hashes == []
    ensures hashes != [] ==> r == Ok(Eval(pair, TreeOf(hashes)))
  {
    if hashes == [] {
      return Panic;
    }
    if |hashes| == 1 {
      return Ok(hashes[0]);
    }
    if |hashes| == 2 {
      TwoLeaves(pair, hashes);
      return Ok(pair(hashes[0], hashes[1]));
    }
    var h := FoldAll(pair, hashes);
    r := Ok(h);
  }

  lemma TwoLeaves<Hash>(pair: (Hash, Hash) -> Hash, hashes: seq<Hash>)
    requires |hashes| == 2
    ensures Eval(pair, TreeOf(hashes)) == pair(hashes[0], hashes[1])
  {
    assert ExponentBelow(2, 0) == 0;
    assert BottomRow(hashes, 0)[0] == Node(Leaf(hashes[0]), Leaf(hashes[1]));
  }

  method FoldAll<Hash>(pair: (Hash, Hash) -> Hash, hashes: seq<Hash>) returns (r: Hash)
    requires |hashes| >= 3
    ensures r == Eval(pair, TreeOf(hashes))
  {
    hide PerfectHash, Perfect, BottomRow, Eval, ExponentBelow;
    var len := RowLength(|hashes|);
    ghost var k := ExponentBelow(|hashes|, 0);
    assert k >= 1 by { assert Pow2(0) == 1; }
    var level := FillRow(pair, hashes, len, k, hashes[0]);
    PerfectEval(pair, BottomRow(hashes, k), level[..], k);
    assert level[..len] == level[..];
    while len > 2
      invariant k >= 1 && len == Pow2(k) && len <= level.Length
      invariant PerfectHash(pair, level[..len], k) == Eval(pair, TreeOf(hashes))
      decreases len
    {
      len := len / 2;
      k := k - 1;
      HalveLevel(pair, level, len, k);
    }
    LastLevel(k);
    r := pair(level[0], level[1]);
    PairHash(pair, level[..len]);
  }

  lemma LastLevel(k: nat)
    requires 1 <= k && Pow2(k) <= 2
    ensures k == 1
  {
  }

  lemma PairHash<Hash>(pair: (Hash, Hash) -> Hash, s: seq<Hash>)
    requires |s| == Pow2(1)
    ensures |s| == 2 && PerfectHash(pair, s, 1) == pair(s[0], s[1])
  {
    assert Pow2(1) == 2 && Pow2(0) == 1;
    assert PerfectHash(pair, s[..1], 0) == s[0] && PerfectHash(pair, s[1..], 0) == s[1];
  }

  method HalveLevel<Hash>(pair: (Hash, Hash) -> Hash, level: array<Hash>, len: nat, ghost k: nat)
    requires len == Pow2(k) && 2 * len == Pow2(k + 1) <= level.Length
    modifies level
    ensures PerfectHash(pair, level[..len], k) == PerfectHash(pair, old(level[..2 * len]), k + 1)
  {
    hide PerfectHash, Pow2;
    ghost var before := level[..2 * len];
    FoldLevel(pair, level, len);
    assert Folded(pair, old(level[..]), len) == Folded(pair, before, len);
    FoldKeeps(pair, before, k);
  }

  // ---------- difficulty ----------

  /** A little-endian number. */
  function Value(s: seq<u8>): nat
  {
    if s == [] then 0 else ValueNext(Value(s[..|s| - 1]), |s| - 1, s[|s| - 1])
  }

  function ValueNext(low: nat, n: nat, b: nat): nat
  {
    MulMono(0, b, Pow2(8 * n));
    low + b * Pow2(8 * n)
  }

  lemma {:induction false} ValueAppend(a: seq<u8>, b: seq<u8>)
    ensures Value(a + b) == Value(a) + Value(b) * Pow2(8 * |a|)
  {
    if b == [] {
      assert a + b == a;
    } else {
      var n, x := |b| - 1, b[|b| - 1];
      assert (a + b)[..|a + b| - 1] == a + b[..n];
      ValueAppend(a, b[..n]);
      Pow2Add(8 * n, 8 * |a|);
      Distribute(Value(b[..n]), x, Pow2(8 * n), Pow2(8 * |a|));
    }
  }

  lemma Distribute(v: int, x: int, p: int, q: int)
    ensures (v + x * p) * q == v * q + x * (p * q)
  {
  }

  lemma {:induction false} ValueBound(s: seq<u8>)
    ensures Value(s) < Pow2(8 * |s|)
  {
    if s != [] {
      var n, x: int := |s| - 1, s[|s| - 1];
      ValueBound(s[..n]);
      Pow2Add(8, 8 * n);
      assert Pow2(8) == 256;
      MulMono(x, 255, Pow2(8 * n));
    }
  }

  /** One limb: the carry out of a partial product is the part of the product above its limbs. */
  lemma CarryNext(low: nat, p: int, limb: nat, d: nat, carry: nat)
    requires p > 0 && carry == low * d / p
    ensures (low + limb * p) * d / (p * TWO64) == (limb * d + carry) / TWO64
  {
    var rest := low * d % p;
    DivMod(low * d, p);
    Distribute(low, limb, p, d);
    var product := limb * d + carry;
    assert (low + limb * p) * d == product * p + rest by { Regroup(limb, p, d, carry); }
    DivModUnique(product * p + rest, p, product, rest);
    MulMono(0, limb, d);
    MulMono(0, product, p);
    DivDiv(product * p + rest, p, TWO64);
  }

  lemma Regroup(limb: int, p: int, d: int, carry: int)
    ensures limb * (p * d) + carry * p == (limb * d + carry) * p
  {
  }

  /** No limb product with its carry exceeds 128 bits. */
  lemma ProductFits(limb: u64, d: u64, carry: u64)
    ensures 0 <= limb * d + carry < TWO64 * TWO64 && 0 <= (limb * d + carry) / TWO64 < TWO64
  {
    MulMono(limb, TWO64 - 1, d);
    MulMono(d, TWO64 - 1, TWO64 - 1);
    MulMono(0, limb, d);
    DivModBound(limb * d + carry, TWO64, TWO64 - 1);
  }

  /** `meets_difficulty`: the 256-bit hash times the difficulty stays below 2^256. */
  method MeetsDifficulty(hash: seq<u8>, difficulty: u64) returns (ok: bool)
    requires |hash| == 32
    ensures ok <==> Value(hash) * difficulty < Pow2(256)
  {
    hide Value, Pow2;
    var carry: u64 := 0;
    CarryStarts(hash, difficulty);
    for i := 0 to 4
      invariant carry == Value(hash[..8 * i]) * difficulty / Pow2(64 * i)
    {
      var chunk := hash[8 * i..8 * i + 8];
      assert Value(chunk) < TWO64 by { ValueBound(chunk); Pow2At64(); }
      var limb: u64 := Value(chunk);
      ProductFits(limb, difficulty, carry);
      var product := limb * difficulty + carry;
      CarryStep(hash, i, difficulty, carry);
      carry := product / TWO64;
    }
    assert hash[..32] == hash;
    ok := carry == 0;
    ZeroQuotient(Value(hash) * difficulty, Pow2(256));
  }

  lemma CarryStarts(hash: seq<u8>, d: u64)
    ensures Value(hash[..0]) * d / Pow2(0) == 0
  {
  }

  lemma CarryStep(hash: seq<u8>, i: nat, d: u64, carry: nat)
    requires i < 4 && |hash| == 32 && carry == Value(hash[..8 * i]) * d / Pow2(64 * i)
    ensures Value(hash[..8 * i + 8]) * d / Pow2(64 * i + 64) == (Value(hash[8 * i..8 * i + 8]) * d + carry) / TWO64
  {
    hide Value;
    assert hash[..8 * i + 8] == hash[..8 * i] + hash[8 * i..8 * i + 8];
    ValueAppend(hash[..8 * i], hash[8 * i..8 * i + 8]);
    Pow2Add(64 * i, 64);
    Pow2At64();
    CarryNext(Value(hash[..8 * i]), Pow2(64 * i), Value(hash[8 * i..8 * i + 8]), d, carry);
  }

  lemma ZeroQuotient(x: int, p: int)
    requires p > 0 && x >= 0
    ensures x / p == 0 <==> x < p
  {
    DivMod(x, p);
  }
}
