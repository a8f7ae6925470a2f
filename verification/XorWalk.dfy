/** Why walking down a binary trie, greedily bit by bit, finds the value with the
    largest or the smallest XOR. */
module XorWalk {
  import opened Bits
  import opened TrieKeys

  /** The XOR of y's path with num's, i steps above the leaves. */
  function Gap(b: nat, y: nat, num: nat, i: nat): nat {
    Xor(Shr(Pow2(b) + y, i), Path(num, b, i))
  }

  /** Some live value ends below cur, at i steps above the leaves. */
  ghost predicate Alive(live: seq<nat>, b: nat, i: nat, cur: nat) {
    && i <= b && Pow2(b - i) <= cur < 2 * Pow2(b - i) && Tally(live, b, cur) > 0
    && forall y | y in live :: y < Pow2(b)
  }

  /** No live value's path has a larger XOR with num's than the path to cur. */
  ghost predicate IsMax(live: seq<nat>, b: nat, num: nat, i: nat, cur: nat) {
    && Alive(live, b, i, cur)
    && forall y | y in live :: Gap(b, y, num, i) <= Xor(cur, Path(num, b, i))
  }

  /** No live value's path has a smaller XOR with num's than the path to cur. */
  ghost predicate IsMin(live: seq<nat>, b: nat, num: nat, i: nat, cur: nat) {
    && Alive(live, b, i, cur)
    && forall y | y in live :: Gap(b, y, num, i) >= Xor(cur, Path(num, b, i))
  }

  lemma Start(live: seq<nat>, b: nat, num: nat)
    requires live != [] && forall y | y in live :: y < Pow2(b)
    ensures IsMax(live, b, num, b, 1) && IsMin(live, b, num, b, 1) && Xor(1, Path(num, b, b)) == 0
  {
    PathStart(num, b);
    forall y | y in live
      ensures Shr(Pow2(b) + y, b) == 1 && EndsBelow(b, y, 1)
    {
      AboveLevel(Pow2(b) + y, b, b);
      UnderIsShr(Pow2(b) + y, b, b, 1);
    }
    assert live[0] in live;
    TallyPositive(live, b, 1);
  }

  /** One bit further down. */
  lemma GapStep(b: nat, y: nat, num: nat, i: nat)
    requires i < b && y < Pow2(b)
    ensures Gap(b, y, num, i) == 2 * Gap(b, y, num, i + 1) + (if Shr(Pow2(b) + y, i) % 2 != BitAt(num, i) then 1 else 0)
  {
    var a := Shr(Pow2(b) + y, i);
    ShrStep(Pow2(b) + y, i);
    PathStep(num, b, i);
    XorDown(a / 2, Path(num, b, i + 1), a % 2, BitAt(num, i));
  }

  /** A value whose path agrees with cur's above level i goes on to one of cur's children. */
  lemma OnCur(live: seq<nat>, b: nat, y: nat, num: nat, i: nat, cur: nat)
    requires Alive(live, b, i + 1, cur) && y in live
    requires Gap(b, y, num, i + 1) == Xor(cur, Path(num, b, i + 1))
    ensures EndsBelow(b, y, 2 * cur + Shr(Pow2(b) + y, i) % 2)
    ensures Tally(live, b, 2 * cur + Shr(Pow2(b) + y, i) % 2) > 0
  {
    var leaf := Pow2(b) + y;
    XorInjective(Shr(leaf, i + 1), cur, Path(num, b, i + 1));
    ShrStep(leaf, i);
    AboveLevel(leaf, b, i);
    UnderIsShr(leaf, b, i, Shr(leaf, i));
    TallyPositive(live, b, Shr(leaf, i));
  }

  /** A child is live if it holds a value, and surely if its sibling holds none. */
  lemma ChildAlive(live: seq<nat>, b: nat, i: nat, cur: nat, bit: nat)
    requires i < b && Alive(live, b, i + 1, cur) && bit < 2
    requires Tally(live, b, 2 * cur + bit) > 0 || Tally(live, b, 2 * cur + 1 - bit) == 0
    ensures Alive(live, b, i, 2 * cur + bit)
  {
    Pow2Monotone(b - i - 1, b - 1);
    TallyChildren(live, b, cur);
    assert Pow2(b - i) == 2 * Pow2(b - i - 1);
  }

  lemma NextGap(b: nat, num: nat, i: nat, cur: nat, bit: nat)
    requires i < b && bit < 2
    ensures Xor(2 * cur + bit, Path(num, b, i)) == 2 * Xor(cur, Path(num, b, i + 1)) + (if bit != BitAt(num, i) then 1 else 0)
  {
    hide Path;
    PathStep(num, b, i);
    XorDown(cur, Path(num, b, i + 1), bit, BitAt(num, i));
  }

  /** Some live value differs from num in the next bit: taking that bit is best. */
  lemma MaxTake(live: seq<nat>, b: nat, num: nat, i: nat, cur: nat, next: nat)
    requires i < b && IsMax(live, b, num, i + 1, cur) && next == 2 * cur + 1 - BitAt(num, i)
    requires Tally(live, b, next) > 0
    ensures IsMax(live, b, num, i, next)
    ensures Xor(next, Path(num, b, i)) == 2 * Xor(cur, Path(num, b, i + 1)) + 1
  {
    hide Alive;
    hide Xor;
    hide Path;
    hide Gap;
    hide Shr;
    hide Tally;
    hide BitAt;
    hide Pow2;
    ChildAlive(live, b, i, cur, 1 - BitAt(num, i));
    NextGap(b, num, i, cur, 1 - BitAt(num, i));
    forall y | y in live
      ensures Gap(b, y, num, i) <= Xor(next, Path(num, b, i))
    {
      LiveBelow(live, b, i + 1, cur, y);
      GapStep(b, y, num, i);
    }
  }

  /** No live value differs from num in the next bit: the other child is left. */
  lemma MaxStay(live: seq<nat>, b: nat, num: nat, i: nat, cur: nat, next: nat)
    requires i < b && IsMax(live, b, num, i + 1, cur) && next == 2 * cur + BitAt(num, i)
    requires Tally(live, b, 2 * cur + 1 - BitAt(num, i)) == 0
    ensures IsMax(live, b, num, i, next)
    ensures Xor(next, Path(num, b, i)) == 2 * Xor(cur, Path(num, b, i + 1))
  {
    hide Alive;
    hide Xor;
    hide Path;
    hide Gap;
    hide Shr;
    hide Tally;
    hide BitAt;
    hide Pow2;
    ChildAlive(live, b, i, cur, BitAt(num, i));
    NextGap(b, num, i, cur, BitAt(num, i));
    forall y | y in live
      ensures Gap(b, y, num, i) <= Xor(next, Path(num, b, i))
    {
      LiveBelow(live, b, i + 1, cur, y);
      if Gap(b, y, num, i + 1) == Xor(cur, Path(num, b, i + 1)) {
        OnCur(live, b, y, num, i, cur);
      }
      GapStep(b, y, num, i);
    }
  }

  /** Some live value agrees with num in the next bit: taking that bit is best. */
  lemma MinTake(live: seq<nat>, b: nat, num: nat, i: nat, cur: nat, next: nat)
    requires i < b && IsMin(live, b, num, i + 1, cur) && next == 2 * cur + BitAt(num, i)
    requires Tally(live, b, next) > 0
    ensures IsMin(live, b, num, i, next)
    ensures Xor(next, Path(num, b, i)) == 2 * Xor(cur, Path(num, b, i + 1))
  {
    hide Alive;
    hide Xor;
    hide Path;
    hide Gap;
    hide Shr;
    hide Tally;
    hide BitAt;
    hide Pow2;
    ChildAlive(live, b, i, cur, BitAt(num, i));
    NextGap(b, num, i, cur, BitAt(num, i));
    forall y | y in live
      ensures Gap(b, y, num, i) >= Xor(next, Path(num, b, i))
    {
      LiveBelow(live, b, i + 1, cur, y);
      GapStep(b, y, num, i);
    }
  }

  /** No live value agrees with num in the next bit: the other child is left. */
  lemma MinStay(live: seq<nat>, b: nat, num: nat, i: nat, cur: nat, next: nat)
    requires i < b && IsMin(live, b, num, i + 1, cur) && next == 2 * cur + 1 - BitAt(num, i)
    requires Tally(live, b, 2 * cur + BitAt(num, i)) == 0
    ensures IsMin(live, b, num, i, next)
    ensures Xor(next, Path(num, b, i)) == 2 * Xor(cur, Path(num, b, i + 1)) + 1
  {
    hide Alive;
    hide Xor;
    hide Path;
    hide Gap;
    hide Shr;
    hide Tally;
    hide BitAt;
    hide Pow2;
    ChildAlive(live, b, i, cur, 1 - BitAt(num, i));
    NextGap(b, num, i, cur, 1 - BitAt(num, i));
    forall y | y in live
      ensures Gap(b, y, num, i) >= Xor(next, Path(num, b, i))
    {
      LiveBelow(live, b, i + 1, cur, y);
      if Gap(b, y, num, i + 1) == Xor(cur, Path(num, b, i + 1)) {
        OnCur(live, b, y, num, i, cur);
      }
      GapStep(b, y, num, i);
    }
  }

  lemma LiveBelow(live: seq<nat>, b: nat, i: nat, cur: nat, y: nat)
    requires Alive(live, b, i, cur) && y in live
    ensures y < Pow2(b)
  {
  }

  /** At the leaf, the XOR of the paths is the XOR of the numbers. */
  lemma Finish(live: seq<nat>, b: nat, num: nat, cur: nat)
    requires Alive(live, b, 0, cur)
    ensures forall y | y in live :: Gap(b, y, num, 0) == Xor(y, Low(num, b))
    ensures exists x :: x in live && Xor(cur, Path(num, b, 0)) == Xor(x, Low(num, b))
    ensures Xor(cur, Path(num, b, 0)) < Pow2(b)
  {
    PathStart(num, b);
    forall y | y in live
      ensures Gap(b, y, num, 0) == Xor(y, Low(num, b))
    {
      XorOfLeaves(y, Low(num, b), b);
    }
    TallyPositive(live, b, cur);
    var x :| x in live && EndsBelow(b, x, cur);
    UnderLeaf(Pow2(b) + x, cur, b);
    XorOfLeaves(x, Low(num, b), b);
    XorBound(x, Low(num, b), b);
  }

  // ----- The walk with its result -------------------------------------------

  /** The state of max_xor's loop i steps above the leaves. */
  ghost predicate MaxWalk(live: seq<nat>, b: nat, num: nat, i: nat, cur: nat, result: nat) {
    if live == [] then result == 0
    else IsMax(live, b, num, i, cur) && result == Xor(cur, Path(num, b, i)) * Pow2(i)
  }

  /** The state of min_xor's loop i steps above the leaves. */
  ghost predicate MinWalk(live: seq<nat>, b: nat, num: nat, i: nat, cur: nat, result: nat) {
    live != [] ==> IsMin(live, b, num, i, cur) && result == Xor(cur, Path(num, b, i)) * Pow2(i)
  }

  lemma WalkStart(live: seq<nat>, b: nat, num: nat)
    requires forall y | y in live :: y < Pow2(b)
    ensures MaxWalk(live, b, num, b, 1, 0) && MinWalk(live, b, num, b, 1, 0)
  {
    if live != [] {
      Start(live, b, num);
    }
  }

  lemma MaxWalkStep(live: seq<nat>, b: nat, num: nat, i: nat, cur: nat, result: nat)
    requires i < b && MaxWalk(live, b, num, i + 1, cur, result)
    ensures Tally(live, b, Kid(cur, 1 - BitAt(num, i))) > 0 ==>
              MaxWalk(live, b, num, i, Kid(cur, 1 - BitAt(num, i)), Or(result, Pow2(i)))
    ensures Tally(live, b, Kid(cur, 1 - BitAt(num, i))) == 0 ==>
              MaxWalk(live, b, num, i, Kid(cur, BitAt(num, i)), result)
    ensures live != [] && Tally(live, b, Kid(cur, 1 - BitAt(num, i))) == 0 ==> Tally(live, b, Kid(cur, BitAt(num, i))) > 0
  {
    if live != [] {
      var v, want := Xor(cur, Path(num, b, i + 1)), Kid(cur, 1 - BitAt(num, i));
      if Tally(live, b, want) > 0 {
        MaxTake(live, b, num, i, cur, want);
        AddBit(result, v, i);
      } else {
        MaxStay(live, b, num, i, cur, Kid(cur, BitAt(num, i)));
        SkipBit(v, i);
      }
    }
  }

  lemma MinWalkStep(live: seq<nat>, b: nat, num: nat, i: nat, cur: nat, result: nat)
    requires i < b && MinWalk(live, b, num, i + 1, cur, result)
    ensures Tally(live, b, Kid(cur, BitAt(num, i))) > 0 ==>
              MinWalk(live, b, num, i, Kid(cur, BitAt(num, i)), result)
    ensures Tally(live, b, Kid(cur, BitAt(num, i))) == 0 ==>
              MinWalk(live, b, num, i, Kid(cur, 1 - BitAt(num, i)), Or(result, Pow2(i)))
    ensures live != [] && Tally(live, b, Kid(cur, BitAt(num, i))) == 0 ==> Tally(live, b, Kid(cur, 1 - BitAt(num, i))) > 0
  {
    if live != [] {
      var v, same := Xor(cur, Path(num, b, i + 1)), Kid(cur, BitAt(num, i));
      if Tally(live, b, same) > 0 {
        MinTake(live, b, num, i, cur, same);
        SkipBit(v, i);
      } else {
        MinStay(live, b, num, i, cur, Kid(cur, 1 - BitAt(num, i)));
        AddBit(result, v, i);
      }
    }
  }

  /** The walk ends at a leaf, or early in a trie without values. */
  lemma WalkEnd(live: seq<nat>, b: nat, num: nat, i: nat, cur: nat, result: nat)
    requires i == 0 || live == []
    ensures MaxWalk(live, b, num, i, cur, result) ==> IsMaxXor(live, Low(num, b), result)
    ensures MinWalk(live, b, num, i, cur, result) && live != [] ==> IsMinXor(live, Low(num, b), result)
    ensures MaxWalk(live, b, num, i, cur, result) ==> result < Pow2(b)
    ensures MinWalk(live, b, num, i, cur, result) && live != [] ==> result < Pow2(b)
  {
    if live != [] && (MaxWalk(live, b, num, 0, cur, result) || MinWalk(live, b, num, 0, cur, result)) {
      Finish(live, b, num, cur);
    }
  }

  /** result is the largest XOR of n with one of the values, 0 if there is none. */
  ghost predicate IsMaxXor(live: seq<nat>, n: nat, result: nat) {
    && (if live == [] then result == 0 else exists x :: x in live && Xor(x, n) == result)
    && forall y | y in live :: Xor(y, n) <= result
  }

  /** result is the smallest XOR of n with one of the values. */
  ghost predicate IsMinXor(live: seq<nat>, n: nat, result: nat) {
    && (exists x :: x in live && Xor(x, n) == result)
    && forall y | y in live :: result <= Xor(y, n)
  }

  /** A result with all bits from i + 1 on set gets bit i. */
  lemma AllBitsDown(b: nat, i: nat, result: nat)
    requires i < b && result == Pow2(b) - Pow2(i + 1)
    ensures Or(result, Pow2(i)) == Pow2(b) - Pow2(i)
  {
    var top, p := Pow2(b - i - 1), Pow2(i);
    Pow2Add(b - i - 1, i + 1);
    assert Pow2(i + 1) == 2 * p;
    AllBitsProduct(top, p);
    AddBit(result, top - 1, i);
  }

  lemma AllBitsProduct(top: nat, p: nat)
    requires top >= 1
    ensures top * (2 * p) - 2 * p == (top - 1) * (2 * p)
    ensures (2 * (top - 1) + 1) * p == top * (2 * p) - p
  {
  }

  lemma AddBit(result: nat, v: nat, i: nat)
    requires result == v * Pow2(i + 1)
    ensures Or(result, Pow2(i)) == (2 * v + 1) * Pow2(i)
  {
    OrDisjoint(v, i + 1, Pow2(i));
    SkipBit(v, i);
  }

  lemma SkipBit(v: nat, i: nat)
    ensures v * Pow2(i + 1) == (2 * v) * Pow2(i) && (2 * v + 1) * Pow2(i) == (2 * v) * Pow2(i) + Pow2(i)
  {
    Halves(v, Pow2(i));
  }

  lemma Halves(v: nat, p: nat)
    ensures v * (2 * p) == (2 * v) * p && (2 * v + 1) * p == (2 * v) * p + p
  {
  }
}
