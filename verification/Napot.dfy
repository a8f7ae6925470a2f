/** The power-of-two arithmetic of the memory protection unit: rounding a size up
    in a 64-bit register, and the NAPOT encoding of an address range. */
module Napot {
  import opened Bits

  const WORD: nat := 0x1_0000_0000_0000_0000
  const HALF_WORD: nat := 0x8000_0000_0000_0000

  // ----- Rounding up to a power of two --------------------------------------

  /** r is the least power of two that is at least n. */
  ghost predicate IsLeastPower(n: nat, r: nat) {
    && (exists k: nat :: r == Pow2(k))
    && n <= r
    && forall k: nat | n <= Pow2(k) :: r <= Pow2(k)
  }

  /** n rounded up to a power of two. */
  function NextPower(n: nat): nat {
    if n <= 1 then 1 else Pow2(TopBit(n - 1) + 1)
  }

  lemma NextPowerIsLeast(n: nat)
    ensures IsLeastPower(n, NextPower(n))
  {
    if n <= 1 {
      assert Pow2(0) == 1;
    } else {
      var t := TopBit(n - 1);
      forall k: nat | n <= Pow2(k)
        ensures Pow2(t + 1) <= Pow2(k)
      {
        if k <= t {
          Pow2Monotone(k, t);
        } else {
          Pow2Monotone(t + 1, k);
        }
      }
    }
  }

  /** Bit i of y says whether one of the w bits of x from i on is set. */
  ghost predicate Smeared(x: nat, w: nat, y: nat) {
    forall i: nat :: Bit(y, i) <==> SetWithin(x, w, i)
  }

  ghost predicate SetWithin(x: nat, w: nat, i: nat) {
    exists j: nat :: i <= j < i + w && Bit(x, j)
  }

  /** OR-ing a number with itself shifted by w doubles the width of the smear. */
  lemma SmearStep(x: nat, w: nat, y: nat)
    requires Smeared(x, w, y)
    ensures Smeared(x, 2 * w, Or(y, Shr(y, w)))
  {
    forall i: nat
      ensures Bit(Or(y, Shr(y, w)), i) <==> SetWithin(x, 2 * w, i)
    {
      BitOfOr(y, Shr(y, w), i);
      BitOfShr(y, w, i);
      assert Bit(y, i) <==> SetWithin(x, w, i);
      assert Bit(y, w + i) <==> SetWithin(x, w, w + i);
      if j: nat :| i <= j < i + 2 * w && Bit(x, j) {
        assert if j < i + w then SetWithin(x, w, i) else SetWithin(x, w, w + i);
      }
    }
  }

  lemma SmearStart(x: nat)
    ensures Smeared(x, 1, x)
  {
    forall i: nat
      ensures Bit(x, i) <==> SetWithin(x, 1, i)
    {
      if j: nat :| i <= j < i + 1 && Bit(x, j) {
        assert j == i;
      }
    }
  }

  /** Smeared over its whole width, a number below 2^w has all bits set from its highest down. */
  lemma SmearEnd(x: nat, w: nat, y: nat)
    requires 0 < x < Pow2(w) && Smeared(x, w, y)
    ensures y == Pow2(TopBit(x) + 1) - 1 && TopBit(x) < w
  {
    var t := TopBit(x);
    if t >= w {
      HighBitsClear(x, w, t);
    }
    forall i: nat
      ensures Bit(y, i) == Bit(Pow2(t + 1) - 1, i)
    {
      BitOfOnes(t + 1, i);
      assert Bit(y, i) <==> SetWithin(x, w, i);
      if i <= t {
        assert i <= t < i + w && Bit(x, t);
      } else {
        forall j: nat | i <= j
          ensures !Bit(x, j)
        {
          HighBitsClear(x, t + 1, j);
        }
      }
    }
    SameBits(y, Pow2(t + 1) - 1);
  }

  /** next_power_of_2 in a 64-bit register. It rounds up exactly when the result
      fits; sizes above 2^63 wrap to zero. */
  method NextPowerOf2(size: nat) returns (n: nat)
    requires size < WORD
    ensures n == NextPower(size) % WORD
    ensures IsLeastPower(size, n) <==> size <= HALF_WORD
    ensures n == 0 <==> size > HALF_WORD
  {
    hide IsLeastPower;
    hide Pow2;
    hide Smeared;
    hide Or;
    hide Shr;
    NextPowerFits(size);
    if size == 0 {
      return 1;
    }
    n := size - 1;
    ghost var x := n;
    SmearStart(x);
    SmearStep(x, 1, n);
    n := Or(n, Shr(n, 1));
    SmearStep(x, 2, n);
    n := Or(n, Shr(n, 2));
    SmearStep(x, 4, n);
    n := Or(n, Shr(n, 4));
    SmearStep(x, 8, n);
    n := Or(n, Shr(n, 8));
    SmearStep(x, 16, n);
    n := Or(n, Shr(n, 16));
    SmearStep(x, 32, n);
    n := Or(n, Shr(n, 32));
    SmearedAll(size, 64, n);
    n := (n + 1) % WORD;
  }

  lemma SmearedAll(size: nat, w: nat, n: nat)
    requires 0 < size < WORD && w == 64 && Smeared(size - 1, w, n)
    ensures n + 1 == NextPower(size)
  {
    WordSizes();
    if size == 1 {
      forall i: nat
        ensures Bit(n, i) == Bit(0, i)
      {
        assert Bit(n, i) <==> SetWithin(0, w, i);
        forall j: nat
          ensures !Bit(0, j)
        {
          BitOfZero(j);
        }
      }
      SameBits(n, 0);
    } else {
      SmearEnd(size - 1, w, n);
    }
  }

  /** The rounded size fits a 64-bit word exactly up to 2^63, and is 2^64 above. */
  lemma NextPowerFits(size: nat)
    requires size < WORD
    ensures size <= HALF_WORD ==> NextPower(size) < WORD
    ensures size > HALF_WORD ==> NextPower(size) == WORD
    ensures IsLeastPower(size, NextPower(size) % WORD) <==> size <= HALF_WORD
  {
    NextPowerIsLeast(size);
    if size > 1 {
      PowerFits(size - 1, TopBit(size - 1), 63);
    }
    hide NextPower;
  }

  lemma PowerFits(x: nat, t: nat, h: nat)
    requires Pow2(t) <= x < Pow2(t + 1) && x < WORD && h == 63
    ensures x < HALF_WORD ==> Pow2(t + 1) < WORD
    ensures x >= HALF_WORD ==> Pow2(t + 1) == WORD
  {
    WordSizes();
    assert Pow2(h) == HALF_WORD && Pow2(h + 1) == WORD;
    hide Pow2;
    if t > h {
      Pow2Monotone(h + 1, t);
    } else if t < h {
      Pow2Monotone(t + 1, h);
    }
  }

  // ----- The NAPOT encoding ------------------------------------------------

  function TrailingOnes(a: nat): nat {
    if a % 2 == 0 then 0 else 1 + TrailingOnes(a / 2)
  }

  /** The address range a pmpaddr value stands for, as section 3.7.1 of the RISC-V
      Privileged Specification v1.12 defines it: k trailing ones mean a range of
      2^(k+3) bytes, and the bits above the zero that follows them are its base. */
  function Decode(a: nat): (int, nat) {
    var k := TrailingOnes(a);
    (4 * (a - (Pow2(k) - 1)), Pow2(k + 3))
  }

  lemma {:induction false} TrailingOnesOf(q: nat, k: nat)
    ensures TrailingOnes(2 * q * Pow2(k) + Pow2(k) - 1) == k
    decreases k
  {
    var a := 2 * q * Pow2(k) + Pow2(k) - 1;
    if k > 0 {
      Doubled(q, Pow2(k - 1));
      TrailingOnesOf(q, k - 1);
    }
  }

  lemma Doubled(q: nat, p: nat)
    ensures 2 * q * (2 * p) == 2 * (2 * q * p)
  {
  }

  lemma {:induction false} TrailingOnesMeans(a: nat) returns (q: nat)
    ensures a == 2 * q * Pow2(TrailingOnes(a)) + Pow2(TrailingOnes(a)) - 1
    decreases a
  {
    if a % 2 == 0 {
      q := a / 2;
    } else {
      q := TrailingOnesMeans(a / 2);
      Doubled(q, Pow2(TrailingOnes(a / 2)));
    }
  }

  /** Which powers of two a register value of all trailing ones below 2^j encodes. */
  lemma PowerOfThree(rounded: nat, j: nat)
    requires rounded == Pow2(j + 3)
    ensures rounded == 8 * Pow2(j) && Shr(rounded, 3) == Pow2(j)
  {
    EightFold(j);
    assert Shr(rounded, 3) == rounded / 2 / 2 / 2;
  }

  lemma EightFold(j: nat)
    ensures Pow2(j + 3) == 8 * Pow2(j)
  {
    assert Pow2(j + 3) == 2 * Pow2(j + 2) && Pow2(j + 2) == 2 * Pow2(j + 1);
  }

  /** Filling up with j ones keeps what stands above them. */
  lemma {:induction false} OrOnes(x: nat, j: nat)
    ensures Or(x, Pow2(j) - 1) == Shr(x, j) * Pow2(j) + Pow2(j) - 1
    decreases j
  {
    hide Or;
    hide Shr;
    hide Pow2;
    if j == 0 {
      OrZero(x);
      FirstOnes(x);
    } else {
      MoreOnes(x, j);
      OrOnes(x / 2, j - 1);
      OrOddStep(x, Pow2(j) - 1);
      OneMore(Or(x / 2, Pow2(j - 1) - 1), Shr(x, j), Pow2(j - 1));
    }
  }

  lemma FirstOnes(x: nat)
    ensures Pow2(0) == 1 && Shr(x, 0) * 1 == x
  {
  }

  lemma MoreOnes(x: nat, j: nat)
    requires j > 0
    ensures Pow2(j) == 2 * Pow2(j - 1) && Shr(x, j) == Shr(x / 2, j - 1)
    ensures (Pow2(j) - 1) % 2 == 1 && (Pow2(j) - 1) / 2 == Pow2(j - 1) - 1
  {
  }

  lemma OneMore(o: nat, h: nat, p: nat)
    requires o == h * p + p - 1
    ensures 1 + 2 * o == h * (2 * p) + 2 * p - 1
  {
  }

  lemma OrOddStep(x: nat, y: nat)
    requires y % 2 == 1
    ensures Or(x, y) == 1 + 2 * Or(x / 2, y / 2)
  {
  }

  lemma TimesFacts(k: nat, p: nat)
    ensures (8 * p) * k == 8 * (k * p) && k * (2 * p) == (2 * k) * p == 2 * (k * p) && (2 * k + 1) * p == 2 * (k * p) + p
    ensures p * k == k * p && 2 * k * p == 2 * (k * p)
  {
  }

  /** What a base that is not aligned encodes: the naturally aligned range around it exactly
      if the base lies in the lower half of that range; else some longer range. */
  lemma MisalignedDecodes(base: nat, j: nat, a: nat)
    requires a == Or(Shr(base, 2), Pow2(j) - 1)
    ensures Decode(a) == (base - base % Pow2(j + 3), Pow2(j + 3)) <==> base % Pow2(j + 3) < Pow2(j + 2)
  {
    var p, q := Pow2(j), Shr(Shr(base, 2), j);
    OrOnes(Shr(base, 2), j);
    EightFold(j);
    assert Pow2(j + 2) == 4 * p by {
      assert Pow2(j + 2) == 2 * Pow2(j + 1);
    }
    BaseParts(base, j);
    hide Or;
    hide Shr;
    hide Pow2;
    hide Decode;
    Halfway(base, p, q);
    if q % 2 == 0 {
      EvenDecodes(q / 2, j, a);
    } else {
      OddDecodes(q / 2, j, a);
    }
  }

  lemma BaseParts(base: nat, j: nat)
    ensures 4 * (Shr(Shr(base, 2), j) * Pow2(j)) <= base < 4 * (Shr(Shr(base, 2), j) * Pow2(j)) + 4 * Pow2(j)
  {
    assert Shr(base, 2) == base / 2 / 2;
    ShrIsDiv(Shr(base, 2), j);
    hide Shr;
    hide Pow2;
    DivParts(base / 2 / 2, Pow2(j));
  }

  lemma DivParts(x: nat, p: nat)
    requires p > 0
    ensures x / p * p <= x < x / p * p + p
  {
    TimesFacts(x / p, p);
  }

  /** Where the base lies in the range of 8 * p around it, by the parity of its part above p. */
  lemma Halfway(base: nat, p: nat, q: nat)
    requires p > 0 && 4 * (q * p) <= base < 4 * (q * p) + 4 * p
    ensures base % (8 * p) < 4 * p <==> q % 2 == 0
    ensures q % 2 == 0 ==> base - base % (8 * p) == 8 * (q / 2 * p)
  {
    var k, e := q / 2, base - 4 * (q * p);
    TimesFacts(k, p);
    if q % 2 == 0 {
      assert q == 2 * k;
      DivUnique(base, 8 * p, k, e);
    } else {
      assert q == 2 * k + 1;
      DivUnique(base, 8 * p, k, 4 * p + e);
    }
  }

  lemma EvenDecodes(k: nat, j: nat, a: nat)
    requires a == (2 * k) * Pow2(j) + Pow2(j) - 1
    ensures Decode(a) == (8 * (k * Pow2(j)), Pow2(j + 3))
  {
    TrailingOnesOf(k, j);
    TimesFacts(k, Pow2(j));
  }

  /** With a one more, the range is longer. */
  lemma OddDecodes(k: nat, j: nat, a: nat)
    requires a == (2 * k + 1) * Pow2(j) + Pow2(j) - 1
    ensures Decode(a).1 != Pow2(j + 3)
  {
    var t := TrailingOnes(a);
    var m := TrailingOnesMeans(a);
    TimesFacts(m, Pow2(j));
    TimesFacts(k, Pow2(j));
    if t == j {
      SameParity(k, m, Pow2(j));
    }
    if Pow2(t + 3) == Pow2(j + 3) {
      PowersDiffer(t + 3, j + 3);
    }
  }

  lemma SameParity(k: nat, m: nat, p: nat)
    requires p > 0
    ensures 2 * (k * p) + p != 2 * (m * p)
  {
    if k < m {
      MulAtLeast(p, m - k);
      assert p * (m - k) == m * p - k * p;
    } else {
      MulAtLeast(p, k - m + 1);
      assert p * (k - m + 1) == k * p - m * p + p;
    }
  }

  /** A range of 2^(j+3) bytes is encoded exactly if its base is aligned to its size. */
  lemma EncodeIff(base: nat, j: nat, a: nat)
    requires a == Or(Shr(base, 2), Pow2(j) - 1)
    ensures Decode(a) == (base, Pow2(j + 3)) <==> base % Pow2(j + 3) == 0
    ensures base % Pow2(j + 3) == 0 ==> a == base / 4 + Pow2(j) - 1
  {
    hide Or;
    hide Shr;
    hide Decode;
    hide Pow2;
    if base % Pow2(j + 3) == 0 {
      EncodeAligned(base, j, a);
    }
    if Decode(a) == (base, Pow2(j + 3)) {
      DecodeAligned(base, j, a);
    }
  }

  lemma EncodeAligned(base: nat, j: nat, a: nat)
    requires a == Or(Shr(base, 2), Pow2(j) - 1) && base % Pow2(j + 3) == 0
    ensures Decode(a) == (base, Pow2(j + 3)) && a == base / 4 + Pow2(j) - 1
  {
    hide Or;
    hide Shr;
    hide TrailingOnes;
    var p := Pow2(j);
    EightFold(j);
    var q := base / (8 * p);
    Aligned(base, p, q);
    ShrIsDiv(base, 2);
    assert Pow2(2) == 4;
    OrDisjoint(2 * q, j, p - 1);
    TrailingOnesOf(q, j);
  }

  lemma DecodeAligned(base: nat, j: nat, a: nat)
    requires Decode(a) == (base, Pow2(j + 3))
    ensures base % Pow2(j + 3) == 0
  {
    PowersDiffer(TrailingOnes(a) + 3, j + 3);
    var q := TrailingOnesMeans(a);
    EightFold(j);
    EightTimes(base, Pow2(j), q);
  }

  lemma Aligned(base: nat, p: nat, q: nat)
    requires p > 0 && base % (8 * p) == 0 && q == base / (8 * p)
    ensures base == 8 * (q * p) && base / 4 == 2 * q * p
  {
    assert base == 8 * p * q;
  }

  lemma EightTimes(base: nat, p: nat, q: nat)
    requires p > 0 && base == 4 * (2 * q * p)
    ensures base % (8 * p) == 0
  {
    DivUnique(base, 8 * p, q, 0);
  }

  lemma PowersDiffer(a: nat, b: nat)
    requires Pow2(a) == Pow2(b)
    ensures a == b
  {
    if a < b {
      Pow2Monotone(a, b);
    } else if b < a {
      Pow2Monotone(b, a);
    }
  }

  /** pmp_napot_addr: the encoded range is exactly the requested one, its size rounded
      up, if and only if that size is from 5 to 2^63 bytes and the base is aligned to
      the rounded size. From a base that is not, the range around it is encoded if and
      only if the base is in its lower half. Other sizes give all ones. Within a 56-bit address space the value fits the 54-bit field. */
  method PmpNapotAddr(base: nat, size: nat) returns (addr: nat)
    requires base < WORD && size < WORD
    ensures Decode(addr) == (base, NextPower(size)) <==> 5 <= size <= HALF_WORD && base % NextPower(size) == 0
    ensures 5 <= size <= HALF_WORD ==>
              && AroundBase(base, NextPower(size), addr)
              && addr == base / 4 / (NextPower(size) / 8) * (NextPower(size) / 8) + NextPower(size) / 8 - 1
    ensures size < 5 || size > HALF_WORD ==> addr == WORD - 1
    ensures 5 <= size && base % NextPower(size) == 0 && base + NextPower(size) <= 0x100_0000_0000_0000 ==>
              addr < 0x40_0000_0000_0000
  {
    hide AroundBase;
    hide NextPower;
    hide Or;
    hide Shr;
    hide Decode;
    hide IsLeastPower;
    NextPowerFits(size);
    var napotSize := NextPowerOf2(size);
    addr := Or(Shr(base, 2), (Shr(napotSize, 3) + WORD - 1) % WORD);
    if 5 <= size <= HALF_WORD {
      Encoded(base, size, addr);
    } else {
      NotEncoded(base, size, addr);
    }
  }

  lemma Encoded(base: nat, size: nat, addr: nat)
    requires base < WORD && 5 <= size <= HALF_WORD
    requires NextPower(size) < WORD && addr == Or(Shr(base, 2), (Shr(NextPower(size), 3) + WORD - 1) % WORD)
    ensures Decode(addr) == (base, NextPower(size)) <==> base % NextPower(size) == 0
    ensures AroundBase(base, NextPower(size), addr)
    ensures NextPower(size) / 8 > 0
    ensures addr == base / 4 / (NextPower(size) / 8) * (NextPower(size) / 8) + NextPower(size) / 8 - 1
    ensures base % NextPower(size) == 0 && base + NextPower(size) <= 0x100_0000_0000_0000 ==> addr < 0x40_0000_0000_0000
  {
    var j := EightOrMore(size);
    PowerOfThree(NextPower(size), j);
    hide NextPower;
    hide Or;
    hide Shr;
    hide Pow2;
    hide Decode;
    hide AroundBase;
    WrapDown(Pow2(j));
    EncodeIff(base, j, addr);
    AroundIff(base, j, addr);
    EncodeValue(base, j, addr);
    HalfPower(j);
  }

  lemma AroundIff(base: nat, j: nat, addr: nat)
    requires addr == Or(Shr(base, 2), Pow2(j) - 1)
    ensures AroundBase(base, Pow2(j + 3), addr)
  {
    hide Decode;
    hide Or;
    hide Shr;
    MisalignedDecodes(base, j, addr);
    HalfPower(j);
  }

  /** The range the value stands for is the one of rounded bytes around the base, aligned to its
      size, exactly if the base is in its lower half. */
  ghost predicate AroundBase(base: nat, rounded: nat, addr: nat)
    requires rounded > 0
  {
    Decode(addr) == (base - base % rounded, rounded) <==> base % rounded < rounded / 2
  }

  lemma HalfPower(j: nat)
    ensures Pow2(j + 3) / 2 == Pow2(j + 2) && Pow2(j + 3) / 8 == Pow2(j)
  {
    EightFold(j);
  }

  lemma EncodeValue(base: nat, j: nat, a: nat)
    requires a == Or(Shr(base, 2), Pow2(j) - 1)
    ensures a == base / 4 / Pow2(j) * Pow2(j) + Pow2(j) - 1
  {
    OrOnes(Shr(base, 2), j);
    ShrIsDiv(Shr(base, 2), j);
    QuarterIsShr(base);
  }

  lemma QuarterIsShr(base: nat)
    ensures Shr(base, 2) == base / 4
  {
    assert Shr(base, 2) == base / 2 / 2;
  }

  lemma WrapDown(x: nat)
    requires 1 <= x <= WORD
    ensures (x + WORD - 1) % WORD == x - 1
  {
  }

  lemma EightOrMore(size: nat) returns (j: nat)
    requires size >= 5
    ensures NextPower(size) == Pow2(j + 3)
  {
    var t := TopBit(size - 1);
    if t < 2 {
      Pow2Monotone(t + 1, 2);
    }
    j := t - 2;
  }

  /** Sizes below 5 round to less than 8, and larger ones than 2^63 wrap to zero: the
      shift by three leaves nothing, and the register is filled with ones. */
  lemma NotEncoded(base: nat, size: nat, addr: nat)
    requires base < WORD && (size < 5 || HALF_WORD < size < WORD)
    requires addr == Or(Shr(base, 2), (Shr(NextPower(size) % WORD, 3) + WORD - 1) % WORD)
    ensures Decode(addr) != (base, NextPower(size)) && addr == WORD - 1
    ensures size >= 5 ==> NextPower(size) > 0x100_0000_0000_0000
  {
    hide Decode;
    hide Or;
    hide Shr;
    NextPowerFits(size);
    ShiftedOut(size);
    hide *;
    AllOnes(base, addr, 64);
  }

  lemma ShiftedOut(size: nat)
    requires size < 5 || HALF_WORD < size < WORD
    ensures Shr(NextPower(size) % WORD, 3) == 0
    ensures size < 5 ==> NextPower(size) < WORD
  {
    var rounded := NextPower(size) % WORD;
    NextPowerFits(size);
    if size < 5 {
      assert Pow2(2) == 4;
      NextPowerIsLeast(size);
      assert size <= Pow2(2);
    }
    hide NextPower;
    assert Shr(rounded, 3) == rounded / 2 / 2 / 2;
  }

  /** A register of ones stands for more than the whole address space. */
  lemma AllOnes(base: nat, addr: nat, w: nat)
    requires base < WORD && w == 64 && addr == Or(Shr(base, 2), WORD - 1)
    ensures Decode(addr).1 > WORD && addr == WORD - 1
  {
    WordSizes();
    ShrIsDiv(base, 2);
    forall i: nat
      ensures Bit(addr, i) == Bit(WORD - 1, i)
    {
      BitOfOr(Shr(base, 2), WORD - 1, i);
      BitOfOnes(w, i);
      if i >= w {
        HighBitsClear(Shr(base, 2), w, i);
      }
    }
    SameBits(addr, WORD - 1);
    TrailingOnesOf(0, w);
    Pow2Monotone(w, w + 3);
  }
}
