/** In-place operations on square matrices, and two ways to rotate one. */
module Matrix {

  // ----- Square grids of values --------------------------------------------

  ghost predicate IsSquare(g: seq<seq<int>>) {
    forall i | 0 <= i < |g| :: |g[i]| == |g|
  }

  ghost function Transposed(g: seq<seq<int>>): (t: seq<seq<int>>)
    requires IsSquare(g)
    ensures IsSquare(t)
  {
    seq(|g|, i requires 0 <= i < |g| => seq(|g|, j requires 0 <= j < |g| => g[j][i]))
  }

  ghost function RowsReversed(g: seq<seq<int>>): (t: seq<seq<int>>)
    requires IsSquare(g)
    ensures IsSquare(t)
  {
    seq(|g|, i requires 0 <= i < |g| => seq(|g|, j requires 0 <= j < |g| => g[i][|g| - 1 - j]))
  }

  ghost function ColsReversed(g: seq<seq<int>>): (t: seq<seq<int>>)
    requires IsSquare(g)
    ensures IsSquare(t)
  {
    seq(|g|, i requires 0 <= i < |g| => g[|g| - 1 - i])
  }

  /** The clockwise quarter turn: column i, read upwards, becomes row i. */
  ghost function Cw(g: seq<seq<int>>): (t: seq<seq<int>>)
    requires IsSquare(g)
    ensures IsSquare(t)
  {
    seq(|g|, i requires 0 <= i < |g| => seq(|g|, j requires 0 <= j < |g| => g[|g| - 1 - j][i]))
  }

  /** The counter-clockwise quarter turn: column n - 1 - i, read downwards, becomes row i. */
  ghost function Ccw(g: seq<seq<int>>): (t: seq<seq<int>>)
    requires IsSquare(g)
    ensures IsSquare(t)
  {
    seq(|g|, i requires 0 <= i < |g| => seq(|g|, j requires 0 <= j < |g| => g[j][|g| - 1 - i]))
  }

  /** Turning one way and then the other gives the matrix back. */
  lemma TurnsUndo(g: seq<seq<int>>)
    requires IsSquare(g)
    ensures Ccw(Cw(g)) == g && Cw(Ccw(g)) == g
  {
    forall i | 0 <= i < |g|
      ensures Ccw(Cw(g))[i] == g[i] && Cw(Ccw(g))[i] == g[i]
    {
    }
  }

  /** Transposing and then reversing turns the matrix; two quarter turns reverse rows and columns. */
  lemma TurnsComposed(g: seq<seq<int>>)
    requires IsSquare(g)
    ensures RowsReversed(Transposed(g)) == Cw(g)
    ensures ColsReversed(Transposed(g)) == Ccw(g)
    ensures ColsReversed(RowsReversed(g)) == Cw(Cw(g))
  {
    forall i | 0 <= i < |g|
      ensures RowsReversed(Transposed(g))[i] == Cw(g)[i]
      ensures ColsReversed(Transposed(g))[i] == Ccw(g)[i]
      ensures ColsReversed(RowsReversed(g))[i] == Cw(Cw(g))[i]
    {
    }
  }

  // ----- Matrices in memory ------------------------------------------------

  ghost predicate Square(m: array2<int>) {
    m.Length0 == m.Length1
  }

  /** The matrix as a grid. */
  ghost function Grid(m: array2<int>): (g: seq<seq<int>>)
    requires Square(m)
    reads m
    ensures |g| == m.Length0 && IsSquare(g)
    ensures forall i, j | 0 <= i < |g| && 0 <= j < |g| :: g[i][j] == m[i, j]
  {
    seq(m.Length0, i requires 0 <= i < m.Length0 reads m => seq(m.Length1, j requires 0 <= j < m.Length1 reads m => m[i, j]))
  }

  lemma SameGrid(a: seq<seq<int>>, b: seq<seq<int>>)
    requires IsSquare(a) && IsSquare(b) && |a| == |b|
    requires forall i, j | 0 <= i < |a| && 0 <= j < |a| :: a[i][j] == b[i][j]
    ensures a == b
  {
    forall i | 0 <= i < |a|
      ensures a[i] == b[i]
    {
    }
  }

  /** djlc_matrix_transpose. */
  method Transpose(m: array2<int>)
    requires Square(m)
    modifies m
    ensures Grid(m) == Transposed(old(Grid(m)))
  {
    var n := m.Length0;
    for i := 0 to n
      invariant forall r, c | 0 <= r < n && 0 <= c < n ::
                  m[r, c] == if (r < i || c < i) then old(m[c, r]) else old(m[r, c])
    {
      for j := i + 1 to n
        invariant forall r, c | 0 <= r < n && 0 <= c < n ::
                    m[r, c] == if (r < i || c < i || (r == i && c < j) || (c == i && r < j)) then old(m[c, r]) else old(m[r, c])
      {
        m[i, j], m[j, i] := m[j, i], m[i, j];
      }
    }
    SameGrid(Grid(m), Transposed(old(Grid(m))));
  }

  /** djlc_matrix_reverse_rows. */
  method ReverseRows(m: array2<int>)
    requires Square(m)
    modifies m
    ensures Grid(m) == RowsReversed(old(Grid(m)))
  {
    var n := m.Length0;
    for i := 0 to n
      invariant forall r, c | 0 <= r < n && 0 <= c < n :: m[r, c] == if r < i then old(m[r, n - 1 - c]) else old(m[r, c])
    {
      var j, k := 0, n - 1;
      while j < k
        invariant 0 <= j && j + k == n - 1
        invariant forall r, c | 0 <= r < n && 0 <= c < n ::
                    m[r, c] == if r < i || (r == i && (c < j || c > k)) then old(m[r, n - 1 - c]) else old(m[r, c])
      {
        m[i, j], m[i, k] := m[i, k], m[i, j];
        j, k := j + 1, k - 1;
      }
    }
    SameGrid(Grid(m), RowsReversed(old(Grid(m))));
  }

  /** djlc_matrix_reverse_cols. */
  method ReverseCols(m: array2<int>)
    requires Square(m)
    modifies m
    ensures Grid(m) == ColsReversed(old(Grid(m)))
  {
    var n := m.Length0;
    for j := 0 to n
      invariant forall r, c | 0 <= r < n && 0 <= c < n :: m[r, c] == if c < j then old(m[n - 1 - r, c]) else old(m[r, c])
    {
      var i, k := 0, n - 1;
      while i < k
        invariant 0 <= i && i + k == n - 1
        invariant forall r, c | 0 <= r < n && 0 <= c < n ::
                    m[r, c] == if c < j || (c == j && (r < i || r > k)) then old(m[n - 1 - r, c]) else old(m[r, c])
      {
        m[i, j], m[k, j] := m[k, j], m[i, j];
        i, k := i + 1, k - 1;
      }
    }
    SameGrid(Grid(m), ColsReversed(old(Grid(m))));
  }

  /** djlc_matrix_rotate_90_cw. */
  method Rotate90Cw(m: array2<int>)
    requires Square(m)
    modifies m
    ensures Grid(m) == Cw(old(Grid(m)))
  {
    TurnsComposed(Grid(m));
    Transpose(m);
    ReverseRows(m);
  }

  /** djlc_matrix_rotate_90_ccw. */
  method Rotate90Ccw(m: array2<int>)
    requires Square(m)
    modifies m
    ensures Grid(m) == Ccw(old(Grid(m)))
  {
    TurnsComposed(Grid(m));
    Transpose(m);
    ReverseCols(m);
  }

  /** djlc_matrix_rotate_180. */
  method Rotate180(m: array2<int>)
    requires Square(m)
    modifies m
    ensures Grid(m) == Cw(Cw(old(Grid(m))))
  {
    TurnsComposed(Grid(m));
    ReverseRows(m);
    ReverseCols(m);
  }

  // ----- Rotation layer by layer -------------------------------------------

  /** Cell (i, j) lies in one of the outermost `layers` rings. */
  predicate InRings(n: nat, layers: nat, i: int, j: int) {
    i < layers || j < layers || i > n - 1 - layers || j > n - 1 - layers
  }

  /** How far along its side, clockwise, a cell of ring r lies. */
  function Along(n: nat, r: nat, i: int, j: int): int {
    var last := n - 1 - r;
    if i == r && j < last then j - r
    else if j == last && i < last then i - r
    else if i == last && j > r then last - j
    else last - i
  }

  /** Cell (i, j) has been turned: it lies in an outer ring, or among the first o along a side of ring r. */
  predicate Turned(n: nat, r: nat, o: nat, i: int, j: int) {
    InRings(n, r, i, j) || (InRings(n, r + 1, i, j) && Along(n, r, i, j) < o)
  }

  /** The four cells that one step of the layer rotation exchanges. */
  predicate InCycle(n: nat, r: nat, o: nat, i: int, j: int) {
    var last := n - 1 - r;
    (i == r && j == r + o) || (i == r + o && j == last) || (i == last && j == last - o) || (i == last - o && j == r)
  }

  /** One step turns exactly its four cells. */
  lemma TurnedNext(n: nat, r: nat, o: nat, i: int, j: int)
    requires r + o < n - 1 - r && 0 <= i < n && 0 <= j < n
    ensures Turned(n, r, o + 1, i, j) <==> Turned(n, r, o, i, j) || InCycle(n, r, o, i, j)
    ensures InCycle(n, r, o, i, j) ==> !Turned(n, r, o, i, j)
    ensures InCycle(n, r, o, i, j) ==> InCycle(n, r, o, n - 1 - j, i)
  {
  }

  /** A finished ring is one more outer ring. */
  lemma RingDone(n: nat, r: nat, i: int, j: int)
    requires r < n / 2 && 0 <= i < n && 0 <= j < n
    ensures Turned(n, r, n - 1 - r - r, i, j) <==> Turned(n, r + 1, 0, i, j)
  {
  }

  /** What is left once all rings are done is the centre, which turns to itself. */
  lemma CentreStays(n: nat, i: int, j: int)
    requires 0 <= i < n && 0 <= j < n && !Turned(n, n / 2, 0, i, j)
    ensures n - 1 - j == i && i == j
  {
  }

  /** The turned cells hold their turned values, the others their old ones. */
  ghost predicate PartlyTurned(m: array2<int>, g: seq<seq<int>>, r: nat, o: nat)
    requires Square(m) && |g| == m.Length0 && IsSquare(g)
    reads m
  {
    forall i, j | 0 <= i < |g| && 0 <= j < |g| :: CellOk(m, g, r, o, i, j)
  }

  ghost predicate CellOk(m: array2<int>, g: seq<seq<int>>, r: nat, o: nat, i: int, j: int)
    requires Square(m) && |g| == m.Length0 && IsSquare(g) && 0 <= i < |g| && 0 <= j < |g|
    reads m
  {
    m[i, j] == if Turned(|g|, r, o, i, j) then g[|g| - 1 - j][i] else g[i][j]
  }

  /** The exchange of four cells at offset o of ring r. */
  method Exchange(m: array2<int>, r: nat, o: nat)
    requires Square(m) && r + o < m.Length0 - 1 - r
    modifies m
    ensures forall i, j | 0 <= i < m.Length0 && 0 <= j < m.Length0 ::
              m[i, j] == if InCycle(m.Length0, r, o, i, j) then old(m[m.Length0 - 1 - j, i]) else old(m[i, j])
  {
    var first, last, i := r, m.Length0 - 1 - r, r + o;
    var top := m[first, i];
    m[first, i] := m[last - o, first];
    m[last - o, first] := m[last, last - o];
    m[last, last - o] := m[i, last];
    m[i, last] := top;
  }

  method TurnStep(m: array2<int>, ghost g: seq<seq<int>>, r: nat, o: nat)
    requires Square(m) && |g| == m.Length0 && IsSquare(g) && r + o < m.Length0 - 1 - r && PartlyTurned(m, g, r, o)
    modifies m
    ensures PartlyTurned(m, g, r, o + 1)
  {
    ghost var n, next := m.Length0, o + 1;
    Exchange(m, r, o);
    forall i, j | 0 <= i < n && 0 <= j < n
      ensures CellOk(m, g, r, next, i, j)
    {
      TurnedNext(n, r, o, i, j);
      assert old(CellOk(m, g, r, o, i, j));
      if InCycle(n, r, o, i, j) {
        TurnedNext(n, r, o, n - 1 - j, i);
        assert old(CellOk(m, g, r, o, n - 1 - j, i));
      }
    }
  }

  lemma RingFinished(m: array2<int>, g: seq<seq<int>>, r: nat, next: nat)
    requires Square(m) && |g| == m.Length0 && IsSquare(g) && r < |g| / 2 && next == r + 1
    requires PartlyTurned(m, g, r, |g| - 1 - r - r)
    ensures PartlyTurned(m, g, next, 0)
  {
    var n := |g|;
    forall i, j | 0 <= i < n && 0 <= j < n
      ensures CellOk(m, g, next, 0, i, j)
    {
      RingDone(n, r, i, j);
      assert CellOk(m, g, r, n - 1 - r - r, i, j);
    }
  }

  lemma AllTurned(m: array2<int>, g: seq<seq<int>>)
    requires Square(m) && |g| == m.Length0 && IsSquare(g) && PartlyTurned(m, g, |g| / 2, 0)
    ensures Grid(m) == Cw(g)
  {
    var n := |g|;
    forall i, j | 0 <= i < n && 0 <= j < n
      ensures Grid(m)[i][j] == Cw(g)[i][j]
    {
      assert CellOk(m, g, n / 2, 0, i, j);
      if !Turned(n, n / 2, 0, i, j) {
        CentreStays(n, i, j);
      }
    }
    SameGrid(Grid(m), Cw(g));
  }

  /** djlc_matrix_rotate_90_layer. */
  method Rotate90Layer(m: array2<int>)
    requires Square(m)
    modifies m
    ensures Grid(m) == Cw(old(Grid(m)))
  {
    var n := m.Length0;
    ghost var g := Grid(m);
    for layer := 0 to n / 2
      invariant PartlyTurned(m, g, layer, 0)
    {
      hide PartlyTurned;
      var last := n - 1 - layer;
      for i := layer to last
        invariant PartlyTurned(m, g, layer, i - layer)
      {
        TurnStep(m, g, layer, i - layer);
      }
      RingFinished(m, g, layer, layer + 1);
    }
    AllTurned(m, g);
  }
}
