/** The binary indexed trees of djlc/include/bit.h. */
module Fenwick {
  import opened Bits

  const INT_RANGE: nat := 0x8000_0000  // one more than the largest C int

  // ----- The lowest set bit ------------------------------------------------

  /** The largest power of two dividing x, by repeated halving. */
  function Low(x: nat): (l: nat)
    requires x > 0
    ensures 1 <= l <= x
  {
    if x % 2 == 1 then 1 else 2 * Low(x / 2)
  }

  /** A word and its bitwise complement share no bit. */
  lemma {:induction false} AndComplement(y: nat, k: nat)
    requires y < Pow2(k)
    ensures And(y, Pow2(k) - 1 - y) == 0
  {
    if y != 0 && Pow2(k) - 1 - y != 0 {
      AndComplement(y / 2, k - 1);
    }
  }

  lemma {:induction false} LowBitIsLowAt(x: nat, w: nat)
    requires 0 < x < Pow2(w)
    ensures And(x, Pow2(w) - x) == Low(x)
  {
    var y := Pow2(w) - x;
    assert Pow2(w) == 2 * Pow2(w - 1);
    if x % 2 == 1 {
      assert y % 2 == 1 && y / 2 == Pow2(w - 1) - 1 - x / 2;
      AndComplement(x / 2, w - 1);
    } else {
      assert y % 2 == 0 && y / 2 == Pow2(w - 1) - x / 2;
      LowBitIsLowAt(x / 2, w - 1);
    }
  }

  lemma NegIsComplement(x: nat, w: nat)
    requires 0 < x < Pow2(w)
    ensures Neg(x, w) == Pow2(w) - x
  {
    DivUnique(Pow2(w) - x, Pow2(w), 0, Pow2(w) - x);
  }

  /** x & (-x) on a 32-bit two's complement word isolates the largest power of two dividing x. */
  lemma LowBitTrick(x: nat)
    requires 0 < x < INT_RANGE
    ensures x < Pow2(32) && And(x, Neg(x, 32)) == Low(x)
  {
    WordSizes();
    NegIsComplement(x, 32);
    LowBitIsLowAt(x, 32);
  }

  method LowBit(x: nat) returns (l: nat)
    requires 0 < x < INT_RANGE
    ensures l == Low(x)
  {
    LowBitTrick(x);
    l := And(x, Neg(x, 32));
  }

  // ----- Which nodes cover which positions ---------------------------------

  /** Tree node `node` holds the sum of the positions node - Low(node) .. node - 1. */
  predicate Covers(node: nat, pos: nat)
    requires node > 0
  {
    node - Low(node) <= pos < node
  }

  lemma {:induction false} LowOfNext(node: nat)
    requires node > 0
    ensures Low(node + Low(node)) >= 2 * Low(node)
  {
    if node % 2 == 0 {
      LowOfNext(node / 2);
      assert node + Low(node) == 2 * (node / 2 + Low(node / 2));
    }
  }

  lemma {:induction false} LowBetween(node: nat, other: nat)
    requires 0 < node < other < node + Low(node)
    ensures Low(other) <= other - node
  {
    if other % 2 == 0 {
      LowBetween(node / 2, other / 2);
    }
  }

  /** The update loop's jump goes from one covering node to the very next one. */
  lemma NextCover(node: nat, pos: nat)
    requires node > 0 && Covers(node, pos)
    ensures Covers(node + Low(node), pos)
    ensures forall other: nat | node < other < node + Low(node) :: !Covers(other, pos)
  {
    LowOfNext(node);
    forall other: nat | node < other < node + Low(node)
      ensures !Covers(other, pos)
    {
      LowBetween(node, other);
    }
  }

  lemma {:induction false} LowIsPow2(x: nat) returns (k: nat)
    requires x > 0
    ensures Low(x) == Pow2(k)
  {
    if x % 2 == 1 {
      k := 0;
    } else {
      k := LowIsPow2(x / 2);
      k := k + 1;
    }
  }

  /** Jumps stay below any power of two above the start, so for trees of fewer
      than 2^30 positions every index of the update loop fits a C int. */
  lemma {:induction false} JumpStaysBelow(node: nat, k: nat)
    requires 0 < node < Pow2(k)
    ensures node + Low(node) <= Pow2(k)
  {
    if node % 2 == 0 {
      JumpStaysBelow(node / 2, k - 1);
    }
  }

  lemma {:induction false} LowOfPow2(k: nat)
    ensures Low(Pow2(k)) == Pow2(k)
  {
    if k != 0 {
      LowOfPow2(k - 1);
    }
  }

  /** The exact size up to which `idx += lowbit(idx)` never leaves the 32-bit int range. */
  lemma JumpFitsInt(n: nat)
    ensures (forall node: nat | 0 < node <= n :: node + Low(node) < INT_RANGE) <==> n < INT_RANGE / 2
  {
    WordSizes();
    if n < INT_RANGE / 2 {
      forall node: nat | 0 < node <= n
        ensures node + Low(node) < INT_RANGE
      {
        JumpStaysBelow(node, 30);
      }
    } else {
      LowOfPow2(30);
      assert Pow2(30) + Low(Pow2(30)) == INT_RANGE;
    }
  }

  /** From node on, no jump of an update in a tree of n entries leaves the int range. */
  ghost predicate JumpsFit(node: nat, n: nat)
    decreases n - node
  {
    0 < node <= n ==> node + Low(node) < INT_RANGE && JumpsFit(node + Low(node), n)
  }

  /** An update of position i in a tree of n entries stays in the int range. */
  ghost predicate UpdateFits(i: nat, n: nat) {
    JumpsFit(i + 1, n)
  }

  lemma {:induction false} JumpsFitFrom(node: nat, n: nat)
    requires n < INT_RANGE / 2
    ensures JumpsFit(node, n)
    decreases n - node
  {
    if 0 < node <= n {
      JumpFitsInt(n);
      JumpsFitFrom(node + Low(node), n);
    }
  }

  /** Every update of a tree of n entries stays in the int range exactly if n < 2^30. */
  lemma UpdatesFitInt(n: nat)
    ensures (forall i: nat | i < n :: UpdateFits(i, n)) <==> n < INT_RANGE / 2
  {
    if n < INT_RANGE / 2 {
      forall i: nat | i < n
        ensures UpdateFits(i, n)
      {
        JumpsFitFrom(i + 1, n);
      }
    } else {
      var i: nat := INT_RANGE / 2 - 1;
      assert Low(i + 1) == i + 1 by {
        WordSizes();
        LowOfPow2(30);
      }
      assert !UpdateFits(i, n);
    }
  }

  // ----- Interval sums -----------------------------------------------------

  /** a[lo] + ... + a[hi - 1]. */
  function Sum(a: seq<int>, lo: nat, hi: nat): int
    requires lo <= hi <= |a|
    decreases hi
  {
    if lo == hi then 0 else Sum(a, lo, hi - 1) + a[hi - 1]
  }

  lemma {:induction false} SumSplit(a: seq<int>, lo: nat, mid: nat, hi: nat)
    requires lo <= mid <= hi <= |a|
    ensures Sum(a, lo, hi) == Sum(a, lo, mid) + Sum(a, mid, hi)
    decreases hi
  {
    if mid < hi {
      SumSplit(a, lo, mid, hi - 1);
    }
  }

  lemma {:induction false} SumUpdate(a: seq<int>, lo: nat, hi: nat, i: nat, v: int)
    requires lo <= hi <= |a| && i < |a|
    ensures Sum(a[i := v], lo, hi) == Sum(a, lo, hi) + (if lo <= i < hi then v - a[i] else 0)
    decreases hi
  {
    if lo < hi {
      SumUpdate(a, lo, hi - 1, i, v);
    }
  }

  // ----- The tree invariant ------------------------------------------------

  /** The tree invariant: each node holds the sum of the positions it covers. */
  ghost predicate Represents(tree: seq<int>, a: seq<int>) {
    && |tree| == |a| + 1
    && forall node: nat | 0 < node <= |a| :: tree[node] == Sum(a, node - Low(node), node)
  }

  /** Every node below `done` that covers i already holds its sum plus delta. */
  ghost predicate PartlyAdded(tree: seq<int>, a: seq<int>, i: nat, delta: int, done: nat) {
    && |tree| == |a| + 1
    && forall node: nat | 0 < node <= |a| ::
         tree[node] == Sum(a, node - Low(node), node) + if Covers(node, i) && node < done then delta else 0
  }

  lemma NothingAdded(tree: seq<int>, a: seq<int>, i: nat, delta: int)
    requires Represents(tree, a) && i < |a|
    ensures Covers(i + 1, i) && PartlyAdded(tree, a, i, delta, i + 1)
  {
  }

  lemma AddAtNode(tree: seq<int>, a: seq<int>, i: nat, delta: int, node: nat)
    requires 0 < node <= |a| && Covers(node, i)
    requires PartlyAdded(tree, a, i, delta, node)
    ensures node < |tree|
    ensures PartlyAdded(tree[node := tree[node] + delta], a, i, delta, node + Low(node))
  {
    NextCover(node, i);
  }

  lemma AllAdded(tree: seq<int>, a: seq<int>, i: nat, delta: int, done: nat)
    requires i < |a| < done
    requires PartlyAdded(tree, a, i, delta, done)
    ensures Represents(tree, a[i := a[i] + delta])
  {
    forall node: nat | 0 < node <= |a|
      ensures tree[node] == Sum(a[i := a[i] + delta], node - Low(node), node)
    {
      SumUpdate(a, node - Low(node), node, i, a[i] + delta);
    }
  }

  // ----- The one-dimensional tree ------------------------------------------

  class Tree {
    var tree: array<int>
    const n: nat
    ghost var values: seq<int>  // the array the tree stands for

    ghost predicate Valid()
      reads this, tree
    {
      && n < INT_RANGE
      && tree.Length == n + 1 && |values| == n
      && Represents(tree[..], values)
    }

    constructor (n: nat)
      requires n < INT_RANGE
      ensures Valid() && fresh(tree)
      ensures this.n == n && values == seq(n, _ => 0)
    {
      this.n := n;
      tree := new int[n + 1](_ => 0);
      values := seq(n, _ => 0);
      new;
      ZerosRepresent(tree[..], n);
    }

    method Clear()
      requires Valid()
      modifies this, tree
      ensures Valid() && tree == old(tree) && values == seq(n, _ => 0)
    {
      forall node | 0 <= node <= n {
        tree[node] := 0;
      }
      values := seq(n, _ => 0);
      ZerosRepresent(tree[..], n);
    }

    /** Says also whether the index stays in the int range, as it does in C. */
    method Update(i: nat, delta: int) returns (ghost fits: bool)
      requires Valid() && i < n
      modifies this, tree
      ensures Valid() && tree == old(tree)
      ensures values == old(values)[i := old(values)[i] + delta]
      ensures fits <==> UpdateFits(i, n)
    {
      fits := true;
      hide Represents;
      hide PartlyAdded;
      hide Covers;
      var idx := i + 1;
      NothingAdded(tree[..], values, i, delta);
      while idx <= n
        invariant 0 < idx && Covers(idx, i)
        invariant tree == old(tree) && values == old(values)
        invariant PartlyAdded(tree[..], values, i, delta, idx)
        invariant UpdateFits(i, n) <==> fits && JumpsFit(idx, n)
      {
        NextCover(idx, i);
        AddAtNode(tree[..], values, i, delta, idx);
        tree[idx] := tree[idx] + delta;
        var jump := LowBit(idx);
        idx := idx + jump;
        fits := fits && idx < INT_RANGE;
      }
      AllAdded(tree[..], values, i, delta, idx);
      values := values[i := values[i] + delta];
    }

    /** The sum of positions 0 .. i; an i of -1 gives the empty sum. */
    method Query(i: int) returns (sum: int)
      requires Valid() && -1 <= i < n
      ensures sum == Sum(values, 0, i + 1)
    {
      sum := 0;
      var idx := i + 1;
      while idx > 0
        invariant 0 <= idx <= i + 1
        invariant sum == Sum(values, idx, i + 1)
      {
        SumSplit(values, idx - Low(idx), idx, i + 1);
        sum := sum + tree[idx];
        var jump := LowBit(idx);
        idx := idx - jump;
      }
    }

    method RangeSum(left: nat, right: nat) returns (sum: int)
      requires Valid() && left <= right < n
      ensures sum == Sum(values, left, right + 1)
    {
      if left == 0 {
        sum := Query(right);
      } else {
        SumSplit(values, 0, left, right + 1);
        sum := Query(right);
        var before := Query(left - 1);
        sum := sum - before;
      }
    }

    method Set(i: nat, val: int) returns (ghost fits: bool)
      requires Valid() && i < n
      modifies this, tree
      ensures Valid() && tree == old(tree)
      ensures values == old(values)[i := val]
      ensures fits <==> UpdateFits(i, n)
    {
      var oldVal := RangeSum(i, i);
      assert oldVal == values[i] by {
        assert Sum(values, i, i + 1) == Sum(values, i, i) + values[i];
      }
      fits := Update(i, val - oldVal);
    }

    /** Loads the first `count` elements of arr; positions beyond them are zero
        and elements beyond the tree's size are ignored. */
    method Build(arr: array<int>, count: nat) returns (ghost fits: bool)
      requires Valid() && arr != tree && count <= arr.Length && count < INT_RANGE
      modifies this, tree
      ensures Valid() && tree == old(tree)
      ensures values == seq(n, k requires 0 <= k < n reads arr => if k < count then arr[k] else 0)
      ensures fits <==> forall k: nat | k < count && k < n :: UpdateFits(k, n)
    {
      hide UpdateFits;
      hide Represents;
      hide Low;
      fits := true;
      Clear();
      var i := 0;
      while i < count
        invariant i <= count && Valid() && tree == old(tree)
        invariant forall k | 0 <= k < n :: values[k] == if k < i then arr[k] else 0
        invariant fits <==> forall k: nat | k < i && k < n :: UpdateFits(k, n)
      {
        var idx := i + 1;
        var delta := arr[i];
        if idx <= n {
          var fit := Update(i, delta);
          fits := fits && fit;
        }
        i := i + 1;
      }
    }
  }

  lemma {:induction false} SumOfZeros(a: seq<int>, lo: nat, hi: nat)
    requires lo <= hi <= |a| && forall k | 0 <= k < |a| :: a[k] == 0
    ensures Sum(a, lo, hi) == 0
    decreases hi
  {
    if lo < hi {
      SumOfZeros(a, lo, hi - 1);
    }
  }

  lemma ZerosRepresent(tree: seq<int>, n: nat)
    requires |tree| == n + 1 && forall k | 0 <= k <= n :: tree[k] == 0
    ensures Represents(tree, seq(n, _ => 0))
  {
    forall node: nat | 0 < node <= n
      ensures Sum(seq(n, _ => 0), node - Low(node), node) == 0
    {
      SumOfZeros(seq(n, _ => 0), node - Low(node), node);
    }
  }
}
