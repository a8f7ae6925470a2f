/** Numbering the nodes of a binary trie: the root is 1, the children of k are
    2k and 2k + 1, and with b bits the value x ends at the leaf 2^b + x. */
module TrieKeys {
  import opened Bits

  /** k is a or lies on the way from a up to the root. */
  predicate Under(a: nat, k: nat) {
    a == k || (a > k && Under(a / 2, k))
  }

  /** The leaf of x is k or below k. */
  predicate EndsBelow(b: nat, x: nat, k: nat) {
    Under(Pow2(b) + x, k)
  }

  /** How many of the values end below k. */
  function Tally(live: seq<nat>, b: nat, k: nat): nat {
    if live == [] then 0
    else (if EndsBelow(b, live[0], k) then 1 else 0) + Tally(live[1..], b, k)
  }

  lemma {:induction false} ShrStep(a: nat, r: nat)
    ensures Shr(a, r + 1) == Shr(a, r) / 2
    decreases r
  {
    if r != 0 {
      ShrStep(a / 2, r - 1);
    }
  }

  lemma {:induction false} UnderAbove(a: nat, r: nat)
    requires Shr(a, r) >= 1
    ensures Under(a, Shr(a, r))
    decreases r
  {
    if r != 0 {
      UnderAbove(a / 2, r - 1);
      if a == 0 {
        ShrZero(r);
      }
      UnderLess(a / 2, Shr(a, r));
    }
  }

  lemma {:induction false} ShrZero(r: nat)
    ensures Shr(0, r) == 0
  {
    if r != 0 {
      ShrZero(r - 1);
    }
  }

  lemma {:induction false} UnderLess(a: nat, k: nat)
    ensures Under(a, k) ==> k <= a
  {
    if a > k {
      UnderLess(a / 2, k);
    }
  }

  /** Everything above a node of the last level but itself lies on a higher level. */
  lemma UnderLeaf(a: nat, k: nat, b: nat)
    requires Pow2(b) <= k && a < 2 * Pow2(b)
    ensures Under(a, k) <==> a == k
  {
    UnderLess(a / 2, k);
  }

  /** Below k, and not k itself: below one of the two children. */
  lemma {:induction false} UnderChild(a: nat, k: nat)
    requires k >= 1
    ensures Under(a, k) <==> a == k || Under(a, 2 * k) || Under(a, 2 * k + 1)
    ensures !(Under(a, 2 * k) && Under(a, 2 * k + 1))
  {
    UnderLess(a, 2 * k);
    UnderLess(a, 2 * k + 1);
    if a > k {
      UnderChild(a / 2, k);
      if a / 2 == k {
        UnderSelfOnly(a, 2 * k);
        UnderSelfOnly(a, 2 * k + 1);
      }
    }
  }

  lemma UnderSelfOnly(a: nat, k: nat)
    requires k >= 1 && a / 2 < k
    ensures Under(a, k) <==> a == k
  {
    UnderLess(a / 2, k);
  }

  /** Two nodes r steps above leaves of the same level: below k means being k. */
  lemma {:induction false} UnderIsShr(a: nat, b: nat, r: nat, k: nat)
    requires r <= b && Pow2(b) <= a < 2 * Pow2(b) && Pow2(b - r) <= k < 2 * Pow2(b - r)
    ensures Under(a, k) <==> Shr(a, r) == k
    decreases r
  {
    if r == 0 {
      UnderLeaf(a, k, b);
    } else {
      UnderIsShr(a / 2, b - 1, r - 1, k);
      Pow2Monotone(b - r, b - 1);
      assert a > k;
    }
  }

  lemma {:induction false} AboveLevel(a: nat, b: nat, r: nat)
    requires r <= b && Pow2(b) <= a < 2 * Pow2(b)
    ensures Pow2(b - r) <= Shr(a, r) < 2 * Pow2(b - r)
    decreases r
  {
    if r != 0 {
      AboveLevel(a / 2, b - 1, r - 1);
    }
  }

  lemma {:induction false} TallyPositive(live: seq<nat>, b: nat, k: nat)
    ensures Tally(live, b, k) > 0 <==> exists x :: x in live && EndsBelow(b, x, k)
  {
    if live != [] {
      TallyPositive(live[1..], b, k);
      assert live == [live[0]] + live[1..];
    }
  }

  function Without(live: seq<nat>, x: nat): seq<nat> {
    if live == [] then []
    else if live[0] == x then live[1..]
    else [live[0]] + Without(live[1..], x)
  }

  lemma {:induction false} WithoutTally(live: seq<nat>, x: nat, b: nat, k: nat)
    requires x in live
    ensures Tally(Without(live, x), b, k) == Tally(live, b, k) - (if EndsBelow(b, x, k) then 1 else 0)
  {
    if live[0] != x {
      WithoutTally(live[1..], x, b, k);
    }
  }

  lemma {:induction false} WithoutMultiset(live: seq<nat>, x: nat)
    ensures multiset(Without(live, x)) == multiset(live) - multiset{x}
    ensures forall y | y in Without(live, x) :: y in live
  {
    if live != [] {
      WithoutMultiset(live[1..], x);
      assert live == [live[0]] + live[1..];
      if live[0] != x {
        assert multiset(Without(live, x)) == multiset{live[0]} + multiset(Without(live[1..], x));
      }
    }
  }

  // ----- XOR along the way down --------------------------------------------

  lemma XorDown(a: nat, c: nat, d: nat, e: nat)
    requires d < 2 && e < 2
    ensures Xor(2 * a + d, 2 * c + e) == 2 * Xor(a, c) + (if d != e then 1 else 0)
  {
  }

  lemma {:induction false} XorInjective(a: nat, b: nat, c: nat)
    requires Xor(a, c) == Xor(b, c)
    ensures a == b
    decreases a + b + c
  {
    if a + b + c > 0 {
      XorSplit(a, c);
      XorSplit(b, c);
      XorInjective(a / 2, b / 2, c / 2);
    }
  }

  lemma XorSplit(a: nat, c: nat)
    ensures Xor(a, c) / 2 == Xor(a / 2, c / 2) && (Xor(a, c) % 2 == 1 <==> a % 2 != c % 2)
  {
  }

  /** The leading ones of two leaves cancel. */
  lemma {:induction false} XorOfLeaves(x: nat, y: nat, b: nat)
    requires x < Pow2(b) && y < Pow2(b)
    ensures Xor(Pow2(b) + x, Pow2(b) + y) == Xor(x, y)
    decreases b
  {
    hide Xor;
    if b != 0 {
      HalfLeaf(x, b);
      HalfLeaf(y, b);
      XorOfLeaves(x / 2, y / 2, b - 1);
      XorSplit(Pow2(b) + x, Pow2(b) + y);
      XorSplit(x, y);
    } else {
      XorSelf();
    }
  }

  lemma HalfLeaf(x: nat, b: nat)
    requires b != 0
    ensures Pow2(b) == 2 * Pow2(b - 1)
    ensures (Pow2(b) + x) / 2 == Pow2(b - 1) + x / 2 && (Pow2(b) + x) % 2 == x % 2
  {
  }

  lemma XorSelf()
    ensures Xor(1, 1) == Xor(0, 0) == 0 && Pow2(0) == 1
  {
    assert Xor(1, 1) == 2 * Xor(0, 0);
  }

  lemma {:induction false} XorBound(x: nat, y: nat, b: nat)
    requires x < Pow2(b) && y < Pow2(b)
    ensures Xor(x, y) < Pow2(b)
    decreases b
  {
    if b != 0 {
      XorBound(x / 2, y / 2, b - 1);
    }
  }

  /** The part of a number that a trie of b bits sees. */
  function Low(num: nat, b: nat): (x: nat)
    ensures x < Pow2(b)
    ensures num < Pow2(b) ==> x == num
  {
    Remainder(num, Pow2(b))
  }

  function Remainder(x: nat, p: nat): (r: nat)
    requires p > 0
    ensures r < p && (x < p ==> r == x)
  {
    x % p
  }

  /** Bit i of the leaf is bit i of the number, which may exceed the trie's range. */
  lemma LeafBit(num: nat, b: nat, i: nat)
    requires i < b
    ensures Shr(Pow2(b) + Low(num, b), i) % 2 == Shr(num, i) % 2
  {
    hide Shr;
    var p, r := Pow2(b), Low(num, b);
    var q := num / p;
    ShrOfSum(q, r, b, i);
    ShrOfSum(1, r, b, i);
    assert q * p + r == num && 1 * p + r == p + r by {
      hide Pow2;
      Recompose(num, p);
    }
  }

  lemma Recompose(x: nat, p: nat)
    requires p > 0
    ensures x / p * p + x % p == x && 1 * p == p
  {
  }

  lemma {:induction false} ShrOfSum(q: nat, r: nat, b: nat, i: nat)
    requires i < b
    ensures Shr(q * Pow2(b) + r, i) % 2 == Shr(r, i) % 2
    decreases i
  {
    assert q * Pow2(b) == 2 * (q * Pow2(b - 1));
    if i != 0 {
      assert (q * Pow2(b) + r) / 2 == q * Pow2(b - 1) + r / 2;
      ShrOfSum(q, r / 2, b - 1, i - 1);
    }
  }

  // ----- Paths -------------------------------------------------------------

  function Kid(k: nat, bit: nat): nat {
    2 * k + bit
  }

  function Leaf(num: nat, b: nat): nat {
    Pow2(b) + Low(num, b)
  }

  /** The key on num's path i steps above the leaf. */
  function Path(num: nat, b: nat, i: nat): nat {
    Shr(Leaf(num, b), i)
  }

  function BitAt(num: nat, i: nat): (bit: nat)
    ensures bit < 2
  {
    Shr(num, i) % 2
  }

  /** The key reached by taking the bit against num's at each step, i steps above the leaf. */
  function AgainstPath(num: nat, b: nat, i: nat): nat
    decreases b - i
  {
    if i >= b then 1 else 2 * AgainstPath(num, b, i + 1) + 1 - BitAt(num, i)
  }

  lemma PathStep(num: nat, b: nat, i: nat)
    requires i < b
    ensures Path(num, b, i) == 2 * Path(num, b, i + 1) + BitAt(num, i)
    ensures 1 <= Path(num, b, i + 1) < Pow2(b)
  {
    hide Shr;
    ShrStep(Leaf(num, b), i);
    LeafBit(num, b, i);
    AboveLevel(Leaf(num, b), b, i + 1);
    Pow2Monotone(b - i - 1, b - 1);
  }

  lemma PathStart(num: nat, b: nat)
    ensures Path(num, b, b) == 1 && Path(num, b, 0) == Pow2(b) + Low(num, b)
  {
    AboveLevel(Leaf(num, b), b, b);
  }

  lemma {:induction false} TallyChildren(live: seq<nat>, b: nat, k: nat)
    requires k >= 1
    ensures Tally(live, b, k) >= Tally(live, b, 2 * k) + Tally(live, b, 2 * k + 1)
    ensures k < Pow2(b) ==> Tally(live, b, k) == Tally(live, b, 2 * k) + Tally(live, b, 2 * k + 1)
  {
    if live != [] {
      TallyChildren(live[1..], b, k);
      UnderChild(Pow2(b) + live[0], k);
    }
  }

  /** What ends at the leaf of x is x. */
  lemma TallyLeaf(live: seq<nat>, b: nat, x: nat)
    requires x < Pow2(b) && forall y | y in live :: y < Pow2(b)
    ensures Tally(live, b, Pow2(b) + x) > 0 <==> x in live
  {
    var leaf := Pow2(b) + x;
    TallyPositive(live, b, leaf);
    if y :| y in live && EndsBelow(b, y, leaf) {
      UnderLeaf(Pow2(b) + y, leaf, b);
    }
    assert EndsBelow(b, x, leaf);
  }
}
