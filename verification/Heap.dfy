/** The binary heap of ints, in min and max order. */
module Heap {

  /** djlc_heap_int_cmp: a belongs strictly above b. */
  predicate Above(isMax: bool, a: int, b: int) {
    if isMax then a > b else a < b
  }

  function Parent(i: nat): nat
    requires i > 0
  {
    (i - 1) / 2
  }

  ghost predicate EdgeOk(isMax: bool, s: seq<int>, j: nat)
    requires 0 < j < |s|
  {
    !Above(isMax, s[j], s[Parent(j)])
  }

  /** No entry belongs above its parent. */
  ghost predicate Ordered(isMax: bool, s: seq<int>) {
    forall j: nat | 0 < j < |s| :: EdgeOk(isMax, s, j)
  }

  /** x belongs above no entry more than any other: it is an extreme of s. */
  ghost predicate IsTop(isMax: bool, s: multiset<int>, x: int) {
    x in s && forall y | y in s :: !Above(isMax, y, x)
  }

  /** In a heap, the root is an extreme. */
  lemma {:induction false} RootIsTop(isMax: bool, s: seq<int>, k: nat)
    requires Ordered(isMax, s) && k < |s|
    ensures !Above(isMax, s[k], s[0])
    decreases k
  {
    if k > 0 {
      assert EdgeOk(isMax, s, k);
      RootIsTop(isMax, s, Parent(k));
    }
  }

  lemma RootOfAll(isMax: bool, s: seq<int>)
    requires Ordered(isMax, s) && |s| > 0
    ensures IsTop(isMax, multiset(s), s[0])
  {
    assert s[0] in multiset(s);
    forall y | y in multiset(s)
      ensures !Above(isMax, y, s[0])
    {
      var k :| 0 <= k < |s| && s[k] == y;
      RootIsTop(isMax, s, k);
    }
  }

  // ----- Moving an entry up or down ----------------------------------------

  function Swap(s: seq<int>, i: nat, j: nat): seq<int>
    requires i < |s| && j < |s|
  {
    s[i := s[j]][j := s[i]]
  }

  lemma SwapKeeps(s: seq<int>, i: nat, j: nat)
    requires i < |s| && j < |s|
    ensures multiset(Swap(s, i, j)) == multiset(s)
  {
  }

  /** All edges with a parent at lo or later are in order, except between i and its
      parent; and i's children are in order with i's parent. */
  ghost predicate OrderedButUp(isMax: bool, s: seq<int>, i: nat)
    requires i < |s|
  {
    && (forall j: nat | 0 < j < |s| && j != i :: EdgeOk(isMax, s, j))
    && (i > 0 ==> forall j: nat | 0 < j < |s| && Parent(j) == i :: !Above(isMax, s[j], s[Parent(i)]))
  }

  lemma UpStep(isMax: bool, s: seq<int>, i: nat)
    requires 0 < i < |s| && OrderedButUp(isMax, s, i) && Above(isMax, s[i], s[Parent(i)])
    ensures OrderedButUp(isMax, Swap(s, i, Parent(i)), Parent(i))
  {
    var p := Parent(i);
    var t := Swap(s, i, p);
    forall j: nat | 0 < j < |t| && j != p
      ensures EdgeOk(isMax, t, j)
    {
      assert j != i ==> EdgeOk(isMax, s, j);
    }
    if p > 0 {
      assert EdgeOk(isMax, s, p);
      forall j: nat | 0 < j < |t| && Parent(j) == p
        ensures !Above(isMax, t[j], t[Parent(p)])
      {
        assert j != i ==> EdgeOk(isMax, s, j);
      }
    }
  }

  /** All edges with a parent at lo or later are in order, except those below i;
      and i's children are in order with i's parent, if that is at lo or later. */
  ghost predicate OrderedButDown(isMax: bool, s: seq<int>, lo: nat, i: nat)
    requires i < |s|
  {
    && (forall j: nat | 0 < j < |s| && Parent(j) >= lo && Parent(j) != i :: EdgeOk(isMax, s, j))
    && (i > 0 && Parent(i) >= lo ==>
          forall j: nat | 0 < j < |s| && Parent(j) == i :: !Above(isMax, s[j], s[Parent(i)]))
  }

  /** All edges with a parent at lo or later are in order. */
  ghost predicate OrderedFrom(isMax: bool, s: seq<int>, lo: nat) {
    forall j: nat | 0 < j < |s| && Parent(j) >= lo :: EdgeOk(isMax, s, j)
  }

  /** c is the child of i that may stand above the other. */
  ghost predicate IsBestChild(isMax: bool, s: seq<int>, i: nat, c: nat) {
    && 0 < c < |s| && Parent(c) == i
    && forall j: nat | 0 < j < |s| && Parent(j) == i :: !Above(isMax, s[j], s[c])
  }

  lemma DownStep(isMax: bool, s: seq<int>, lo: nat, i: nat, c: nat)
    requires i < |s| && lo <= i && OrderedButDown(isMax, s, lo, i)
    requires IsBestChild(isMax, s, i, c) && Above(isMax, s[c], s[i])
    ensures OrderedButDown(isMax, Swap(s, i, c), lo, c)
  {
    var t := Swap(s, i, c);
    forall j: nat | 0 < j < |t| && Parent(j) >= lo && Parent(j) != c
      ensures EdgeOk(isMax, t, j)
    {
      assert Parent(j) != i ==> EdgeOk(isMax, s, j);
    }
    forall j: nat | 0 < j < |t| && Parent(j) == c
      ensures !Above(isMax, t[j], t[Parent(c)])
    {
      assert EdgeOk(isMax, s, j);
    }
  }

  lemma DownEnd(isMax: bool, s: seq<int>, lo: nat, i: nat)
    requires i < |s| && lo <= i && OrderedButDown(isMax, s, lo, i)
    requires 2 * i + 1 >= |s| || exists c: nat :: IsBestChild(isMax, s, i, c) && !Above(isMax, s[c], s[i])
    ensures OrderedFrom(isMax, s, lo)
  {
    forall j: nat | 0 < j < |s| && Parent(j) >= lo
      ensures EdgeOk(isMax, s, j)
    {
    }
  }

  /** Moving the hole from i to c, with val to be put into it, swaps the two entries. */
  lemma HoleMoves(d: seq<int>, i: nat, c: nat, val: int)
    requires i < |d| && c < |d| && i != c
    ensures d[i := d[c]][c := val] == Swap(d[i := val], i, c)
    ensures multiset(Swap(d[i := val], i, c)) == multiset(d[i := val])
  {
    SwapKeeps(d[i := val], i, c);
  }

  /** The bubble-up loop: puts val into the hole at `start`. */
  method SiftUp(isMax: bool, data: array<int>, size: nat, start: nat, val: int)
    requires start < size <= data.Length && OrderedButUp(isMax, data[..size][start := val], start)
    modifies data
    ensures Ordered(isMax, data[..size])
    ensures multiset(data[..size]) == multiset(old(data[..size])[start := val])
  {
    ghost var s, m := data[..size][start := val], multiset(data[..size][start := val]);
    var i := start;
    while i > 0
      invariant 0 <= i < size && |s| == size && data[..size][i := val] == s
      invariant OrderedButUp(isMax, s, i) && multiset(s) == m
    {
      var p := (i - 1) / 2;
      if !Above(isMax, val, data[p]) {
        break;
      }
      UpStep(isMax, s, i);
      HoleMoves(data[..size], i, p, val);
      s := Swap(s, i, p);
      data[i] := data[p];
      i := p;
    }
    data[i] := val;
    assert data[..size] == s;
  }

  /** The child of i that may stand above the other. */
  method BestChild(isMax: bool, data: array<int>, size: nat, i: nat, ghost s: seq<int>) returns (c: nat)
    requires 2 * i + 1 < size <= data.Length && |s| == size
    requires forall j | 0 <= j < size && j != i :: s[j] == data[j]
    ensures c < size && IsBestChild(isMax, s, i, c)
  {
    c := 2 * i + 1;
    if c + 1 < size && Above(isMax, data[c + 1], data[c]) {
      c := c + 1;
    }
  }

  /** The bubble-down loop of pop and heapify: puts val into the hole at `start`. */
  method SiftDown(isMax: bool, data: array<int>, size: nat, ghost lo: nat, start: nat, val: int)
    requires lo <= start < size <= data.Length && OrderedButDown(isMax, data[..size][start := val], lo, start)
    modifies data
    ensures OrderedFrom(isMax, data[..size], lo)
    ensures multiset(data[..size]) == multiset(old(data[..size])[start := val])
  {
    ghost var s, m := data[..size][start := val], multiset(data[..size][start := val]);
    var i := start;
    while 2 * i + 1 < size
      invariant lo <= i < size && |s| == size && data[..size][i := val] == s
      invariant OrderedButDown(isMax, s, lo, i) && multiset(s) == m
    {
      var c := BestChild(isMax, data, size, i, s);
      if !Above(isMax, data[c], val) {
        break;
      }
      DownStep(isMax, s, lo, i, c);
      HoleMoves(data[..size], i, c, val);
      s := Swap(s, i, c);
      data[i] := data[c];
      i := c;
    }
    DownEnd(isMax, s, lo, i);
    data[i] := val;
    assert data[..size] == s;
  }

  lemma AllEdges(isMax: bool, s: seq<int>)
    requires OrderedFrom(isMax, s, 0)
    ensures Ordered(isMax, s)
  {
  }

  /** A heap without its root, the last entry put in the root's place. */
  lemma RootReplaced(isMax: bool, s: seq<int>)
    requires Ordered(isMax, s) && |s| > 1
    ensures var rest := s[..|s| - 1][0 := s[|s| - 1]];
            OrderedButDown(isMax, rest, 0, 0) && multiset(s) == multiset(rest) + multiset{s[0]}
  {
    var n := |s| - 1;
    var rest := s[..n][0 := s[n]];
    assert s == [s[0]] + s[1..n] + [s[n]] && rest == [s[n]] + s[1..n];
    forall j: nat | 0 < j < n && Parent(j) != 0
      ensures EdgeOk(isMax, rest, j)
    {
      assert EdgeOk(isMax, s, j);
    }
  }

  /** A heap with val put in behind its last entry. */
  lemma LeafAdded(isMax: bool, s: seq<int>, val: int)
    requires Ordered(isMax, s)
    ensures OrderedButUp(isMax, s + [val], |s|)
  {
    forall j: nat | 0 < j < |s|
      ensures EdgeOk(isMax, s + [val], j)
    {
      assert EdgeOk(isMax, s, j);
    }
  }

  /** The rest of pop when more than one entry is left: the last entry sinks from the root. */
  method MoveLastToRoot(isMax: bool, data: array<int>, size: nat)
    requires 1 < size <= data.Length && Ordered(isMax, data[..size])
    modifies data
    ensures Ordered(isMax, data[..size - 1])
    ensures multiset(old(data[..size])) == multiset(data[..size - 1]) + multiset{old(data[0])}
  {
    RootReplaced(isMax, data[..size]);
    assert data[..size - 1] == data[..size][..size - 1];
    SiftDown(isMax, data, size - 1, 0, 0, data[size - 1]);
    AllEdges(isMax, data[..size - 1]);
  }

  class IntHeap {
    var data: array<int>
    var size: nat
    const isMax: bool

    ghost predicate Valid()
      reads this
    {
      size <= data.Length && data.Length >= 1
    }

    ghost function Contents(): seq<int>
      requires Valid()
      reads this, data
    {
      data[..size]
    }

    /** djlc_heap_int_init. */
    constructor (capacity: nat, isMax: bool)
      requires capacity >= 1
      ensures Valid() && fresh(data) && Contents() == [] && this.isMax == isMax
    {
      data := new int[capacity];
      size := 0;
      this.isMax := isMax;
    }

    /** Doubles the capacity when the array is full. */
    method Reserve()
      requires Valid()
      modifies this
      ensures Valid() && Contents() == old(Contents()) && size < data.Length && size == old(size)
      ensures data == old(data) || fresh(data)
    {
      if size >= data.Length {
        var bigger := new int[2 * data.Length];
        forall i | 0 <= i < size {
          bigger[i] := data[i];
        }
        assert bigger[..size] == data[..size];
        data := bigger;
      }
    }

    /** djlc_heap_int_push. */
    method Push(val: int)
      requires Valid() && Ordered(isMax, Contents())
      modifies this, data
      ensures Valid() && Ordered(isMax, Contents())
      ensures multiset(Contents()) == multiset(old(Contents())) + multiset{val}
      ensures data == old(data) || fresh(data)
    {
      ghost var s := Contents();
      Reserve();
      LeafAdded(isMax, s, val);
      size := size + 1;
      assert data[..size][size - 1 := val] == s + [val];
      SiftUp(isMax, data, size, size - 1, val);
    }

    /** djlc_heap_int_pop. */
    method Pop() returns (ok: bool, val: int)
      requires Valid() && Ordered(isMax, Contents())
      modifies this`size, data
      ensures Valid() && Ordered(isMax, Contents()) && (ok <==> old(size) > 0)
      ensures !ok ==> Contents() == old(Contents())
      ensures ok ==> size == old(size) - 1 && IsTop(isMax, multiset(old(Contents())), val)
      ensures ok ==> multiset(old(Contents())) == multiset(Contents()) + multiset{val}
    {
      if size == 0 {
        return false, 0;
      }
      RootOfAll(isMax, Contents());
      ok, val := true, data[0];
      if size == 1 {
        assert Contents() == [val];
      } else {
        MoveLastToRoot(isMax, data, size);
      }
      size := size - 1;
    }

    /** djlc_heap_int_peek. */
    method Peek() returns (ok: bool, val: int)
      requires Valid() && Ordered(isMax, Contents())
      ensures ok <==> size > 0
      ensures ok ==> IsTop(isMax, multiset(Contents()), val)
    {
      if size == 0 {
        return false, 0;
      }
      RootOfAll(isMax, Contents());
      return true, data[0];
    }

    /** djlc_heap_int_heapify, on any contents. */
    method Heapify()
      requires Valid()
      modifies data
      ensures Ordered(isMax, Contents()) && multiset(Contents()) == multiset(old(Contents()))
    {
      var i := size / 2;
      while i > 0
        invariant 0 <= i <= size / 2 && OrderedFrom(isMax, Contents(), i) && multiset(Contents()) == multiset(old(Contents()))
      {
        i := i - 1;
        assert Contents()[i := data[i]] == Contents();
        SiftDown(isMax, data, size, i, i, data[i]);
      }
    }
  }

  // ----- Popping until empty -----------------------------------------------

  ghost predicate Sorted(isMax: bool, s: seq<int>) {
    forall i, j | 0 <= i < j < |s| :: !Above(isMax, s[j], s[i])
  }

  /** No entry of the rest belongs above one already taken. */
  ghost predicate Precedes(isMax: bool, taken: seq<int>, rest: multiset<int>) {
    forall i, y | 0 <= i < |taken| && y in rest :: !Above(isMax, y, taken[i])
  }

  lemma TakeNext(isMax: bool, taken: seq<int>, rest: multiset<int>, val: int, rest': multiset<int>)
    requires Sorted(isMax, taken) && Precedes(isMax, taken, rest)
    requires IsTop(isMax, rest, val) && rest == rest' + multiset{val}
    ensures Sorted(isMax, taken + [val]) && Precedes(isMax, taken + [val], rest')
  {
    assert forall y | y in rest' :: y in rest;
  }

  /** Popping until the heap is empty yields its contents in order: ascending for a
      min heap, descending for a max heap. */
  method PopAll(h: IntHeap) returns (out: seq<int>)
    requires h.Valid() && Ordered(h.isMax, h.Contents())
    modifies h, h.data
    ensures Sorted(h.isMax, out) && multiset(out) == multiset(old(h.Contents()))
  {
    out := [];
    ghost var all := multiset(h.Contents());
    while h.size > 0
      invariant h.data == old(h.data) && h.Valid() && Ordered(h.isMax, h.Contents())
      invariant multiset(out) + multiset(h.Contents()) == all
      invariant Sorted(h.isMax, out) && Precedes(h.isMax, out, multiset(h.Contents()))
      decreases h.size
    {
      ghost var rest := multiset(h.Contents());
      var ok, val := h.Pop();
      TakeNext(h.isMax, out, rest, val, multiset(h.Contents()));
      out := out + [val];
    }
  }
}
