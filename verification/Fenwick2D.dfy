/** The two-dimensional binary indexed tree of djlc/include/bit.h. */
module Fenwick2D {
  import opened Fenwick

  type Grid = seq<seq<int>>

  predicate IsGrid(a: Grid, rows: nat, cols: nat) {
    |a| == rows && forall r | 0 <= r < rows :: |a[r]| == cols
  }

  function AddAt(a: Grid, row: nat, col: nat, delta: int): Grid
    requires row < |a| && col < |a[row]|
  {
    a[row := a[row][col := a[row][col] + delta]]
  }

  // ----- Double sums -------------------------------------------------------

  /** The plain double sum over rows r1 .. r2 - 1 and columns c1 .. c2 - 1. */
  function Sum2(a: Grid, r1: nat, r2: nat, c1: nat, c2: nat): int
    requires r1 <= r2 <= |a| && c1 <= c2
    requires forall r | 0 <= r < |a| :: c2 <= |a[r]|
    decreases r2
  {
    if r1 == r2 then 0 else Sum2(a, r1, r2 - 1, c1, c2) + Sum(a[r2 - 1], c1, c2)
  }

  lemma {:induction false} SplitRows(a: Grid, r1: nat, mid: nat, r2: nat, c1: nat, c2: nat)
    requires r1 <= mid <= r2 <= |a| && c1 <= c2
    requires forall r | 0 <= r < |a| :: c2 <= |a[r]|
    ensures Sum2(a, r1, r2, c1, c2) == Sum2(a, r1, mid, c1, c2) + Sum2(a, mid, r2, c1, c2)
    decreases r2
  {
    if mid < r2 {
      SplitRows(a, r1, mid, r2 - 1, c1, c2);
    }
  }

  lemma {:induction false} SplitCols(a: Grid, r1: nat, r2: nat, c1: nat, mid: nat, c2: nat)
    requires r1 <= r2 <= |a| && c1 <= mid <= c2
    requires forall r | 0 <= r < |a| :: c2 <= |a[r]|
    ensures Sum2(a, r1, r2, c1, c2) == Sum2(a, r1, r2, c1, mid) + Sum2(a, r1, r2, mid, c2)
    decreases r2
  {
    if r1 < r2 {
      SplitCols(a, r1, r2 - 1, c1, mid, c2);
      SumSplit(a[r2 - 1], c1, mid, c2);
    }
  }

  lemma {:induction false} Sum2AddAt(a: Grid, rows: nat, cols: nat, row: nat, col: nat, delta: int,
                                     r1: nat, r2: nat, c1: nat, c2: nat)
    requires IsGrid(a, rows, cols) && row < rows && col < cols
    requires r1 <= r2 <= rows && c1 <= c2 <= cols
    ensures Sum2(AddAt(a, row, col, delta), r1, r2, c1, c2)
            == Sum2(a, r1, r2, c1, c2) + if r1 <= row < r2 && c1 <= col < c2 then delta else 0
    decreases r2
  {
    if r1 < r2 {
      Sum2AddAt(a, rows, cols, row, col, delta, r1, r2 - 1, c1, c2);
      if row == r2 - 1 {
        SumUpdate(a[row], c1, c2, col, a[row][col] + delta);
      }
    }
  }

  lemma {:induction false} Sum2OfZeros(rows: nat, cols: nat, r1: nat, r2: nat, c1: nat, c2: nat)
    requires r1 <= r2 <= rows && c1 <= c2 <= cols
    ensures Sum2(Zeros(rows, cols), r1, r2, c1, c2) == 0
    decreases r2
  {
    if r1 < r2 {
      Sum2OfZeros(rows, cols, r1, r2 - 1, c1, c2);
      SumOfZeros(Zeros(rows, cols)[r2 - 1], c1, c2);
    }
  }

  function Zeros(rows: nat, cols: nat): (z: Grid)
    ensures IsGrid(z, rows, cols)
  {
    seq(rows, _ => seq(cols, _ => 0))
  }

  /** Inclusion and exclusion of the four prefix sums around a rectangle. */
  lemma RectangleFromPrefixes(a: Grid, r1: nat, c1: nat, r2: nat, c2: nat)
    requires r1 <= r2 <= |a| && c1 <= c2
    requires forall r | 0 <= r < |a| :: c2 <= |a[r]|
    ensures Sum2(a, r1, r2, c1, c2)
            == Sum2(a, 0, r2, 0, c2) - Sum2(a, 0, r1, 0, c2) - Sum2(a, 0, r2, 0, c1) + Sum2(a, 0, r1, 0, c1)
  {
    SplitRows(a, 0, r1, r2, 0, c2);
    SplitCols(a, r1, r2, 0, c1, c2);
    SplitRows(a, 0, r1, r2, 0, c1);
  }

  // ----- The tree ----------------------------------------------------------

  /** The sum of the block of positions that node (p, q) covers. */
  function Block(a: Grid, rows: nat, cols: nat, p: nat, q: nat): int
    requires IsGrid(a, rows, cols) && 0 < p <= rows && 0 < q <= cols
  {
    Sum2(a, p - Low(p), p, q - Low(q), q)
  }

  class Tree2D {
    var tree: array2<int>
    const rows: nat
    const cols: nat
    ghost var values: Grid  // the matrix the tree stands for

    ghost predicate Shape()
      reads this
    {
      && rows < INT_RANGE && cols < INT_RANGE
      && tree.Length0 == rows + 1 && tree.Length1 == cols + 1
      && IsGrid(values, rows, cols)
    }

    ghost predicate Valid()
      reads this, tree
    {
      && Shape()
      && forall p: nat, q: nat | 0 < p <= rows && 0 < q <= cols :: tree[p, q] == Block(values, rows, cols, p, q)
    }

    constructor (rows: nat, cols: nat)
      requires rows < INT_RANGE && cols < INT_RANGE
      ensures Valid() && fresh(tree)
      ensures this.rows == rows && this.cols == cols && values == Zeros(rows, cols)
    {
      this.rows := rows;
      this.cols := cols;
      tree := new int[rows + 1, cols + 1]((_, _) => 0);
      values := Zeros(rows, cols);
      new;
      forall p: nat, q: nat | 0 < p <= rows && 0 < q <= cols
        ensures Block(values, rows, cols, p, q) == 0
      {
        Sum2OfZeros(rows, cols, p - Low(p), p, q - Low(q), q);
      }
    }

    /** The inner loop of the update: adds delta along row i of the tree. Says also
        whether the index stays in the int range. */
    method UpdateRow(i: nat, col: nat, delta: int) returns (ghost fits: bool)
      requires Shape() && 0 < i <= rows && col < cols
      modifies tree
      ensures forall p, q | 0 <= p <= rows && 0 < q <= cols ::
          tree[p, q] == old(tree[p, q]) + if p == i && Covers(q, col) then delta else 0
      ensures fits <==> UpdateFits(col, cols)
    {
      fits := true;
      var j := col + 1;
      assert forall q | 0 < q < j :: !Covers(q, col);
      while j <= cols
        invariant col < j && Covers(j, col)
        invariant forall p, q | 0 <= p <= rows && 0 < q <= cols ::
            tree[p, q] == old(tree[p, q]) + if p == i && Covers(q, col) && q < j then delta else 0
        invariant UpdateFits(col, cols) <==> fits && JumpsFit(j, cols)
      {
        NextCover(j, col);
        tree[i, j] := tree[i, j] + delta;
        var jump := LowBit(j);
        j := j + jump;
        fits := fits && j < INT_RANGE;
      }
    }

    method Update(row: nat, col: nat, delta: int) returns (ghost fits: bool)
      requires Valid() && row < rows && col < cols
      modifies this, tree
      ensures Valid() && tree == old(tree)
      ensures values == AddAt(old(values), row, col, delta)
      ensures fits <==> UpdateFits(row, rows) && UpdateFits(col, cols)
    {
      fits := true;
      var i := row + 1;
      while i <= rows
        invariant row < i && Covers(i, row)
        invariant tree == old(tree) && values == old(values)
        invariant forall p, q | 0 < p <= rows && 0 < q <= cols ::
            tree[p, q] == old(tree[p, q]) + if Covers(p, row) && Covers(q, col) && p < i then delta else 0
        invariant UpdateFits(row, rows) && UpdateFits(col, cols) <==> fits && JumpsFit(i, rows) && UpdateFits(col, cols)
        invariant i > row + 1 ==> (fits ==> UpdateFits(col, cols))
      {
        NextCover(i, row);
        var fit := UpdateRow(i, col, delta);
        var jump := LowBit(i);
        i := i + jump;
        fits := fits && fit && i < INT_RANGE;
      }
      values := AddAt(values, row, col, delta);
      forall p: nat, q: nat | 0 < p <= rows && 0 < q <= cols
        ensures tree[p, q] == Block(values, rows, cols, p, q)
      {
        Sum2AddAt(old(values), rows, cols, row, col, delta, p - Low(p), p, q - Low(q), q);
      }
    }

    /** The inner loop of the query: the sum of node row i over columns 0 .. col. */
    method QueryRow(i: nat, col: int) returns (sum: int)
      requires Valid() && 0 < i <= rows && -1 <= col < cols
      ensures sum == Sum2(values, i - Low(i), i, 0, col + 1)
    {
      sum := 0;
      var j := col + 1;
      SumOfNoColumns(values, i - Low(i), i, j);
      while j > 0
        invariant 0 <= j <= col + 1
        invariant sum == Sum2(values, i - Low(i), i, j, col + 1)
      {
        SplitCols(values, i - Low(i), i, j - Low(j), j, col + 1);
        sum := sum + tree[i, j];
        var jump := LowBit(j);
        j := j - jump;
      }
    }

    /** The sum of the prefix rectangle (0, 0) .. (row, col). */
    method Query(row: int, col: int) returns (sum: int)
      requires Valid() && -1 <= row < rows && -1 <= col < cols
      ensures sum == Sum2(values, 0, row + 1, 0, col + 1)
    {
      sum := 0;
      var i := row + 1;
      while i > 0
        invariant 0 <= i <= row + 1
        invariant sum == Sum2(values, i, row + 1, 0, col + 1)
      {
        SplitRows(values, i - Low(i), i, row + 1, 0, col + 1);
        var part := QueryRow(i, col);
        sum := sum + part;
        var jump := LowBit(i);
        i := i - jump;
      }
    }

    method RangeSum(r1: nat, c1: nat, r2: nat, c2: nat) returns (sum: int)
      requires Valid() && r1 <= r2 < rows && c1 <= c2 < cols
      ensures sum == Sum2(values, r1, r2 + 1, c1, c2 + 1)
    {
      RectangleFromPrefixes(values, r1, c1, r2 + 1, c2 + 1);
      SumOfNoColumns(values, 0, r1, 0);
      SumOfNoColumns(values, 0, r2 + 1, 0);
      sum := Query(r2, c2);
      if r1 > 0 {
        var above := Query(r1 - 1, c2);
        sum := sum - above;
      }
      if c1 > 0 {
        var before := Query(r2, c1 - 1);
        sum := sum - before;
      }
      if r1 > 0 && c1 > 0 {
        var corner := Query(r1 - 1, c1 - 1);
        sum := sum + corner;
      }
    }
  }

  lemma {:induction false} SumOfNoColumns(a: Grid, r1: nat, r2: nat, c: nat)
    requires r1 <= r2 <= |a|
    requires forall r | 0 <= r < |a| :: c <= |a[r]|
    ensures Sum2(a, r1, r2, c, c) == 0
    decreases r2
  {
    if r1 < r2 {
      SumOfNoColumns(a, r1, r2 - 1, c);
    }
  }
}
