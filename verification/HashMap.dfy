/** The hash map from ints to ints: open addressing with linear probing. */
module HashMap {
  import opened Bits
  import opened Sequences

  datatype State = EMPTY | OCCUPIED | DELETED

  datatype Entry = Entry(key: int, value: int, state: State)

  const WORD: nat := 0x1_0000_0000

  /** One mixing round of djlc_hm_hash on a 32-bit word. */
  function Mix(k: nat): nat {
    Xor(Shr(k, 16), k) * 0x45d9f3b % WORD
  }

  /** djlc_hm_hash. */
  function Hash(key: int, n: nat): (h: nat)
    requires n > 0
    ensures h < n
  {
    var k := Mix(Mix(key % WORD));
    Xor(Shr(k, 16), k) % n
  }

  // ----- Probing on values -------------------------------------------------

  /** The slot d steps after h. */
  function Step(h: nat, d: nat, n: nat): nat {
    if h + d < n then h + d else h + d - n
  }

  ghost predicate Holds(e: seq<Entry>, i: nat, key: int) {
    i < |e| && e[i].state == OCCUPIED && e[i].key == key
  }

  /** The first d slots probed for a key hold other keys. */
  ghost predicate Passed(e: seq<Entry>, key: int, d: nat) {
    |e| > 0 && d <= |e| && forall c: nat | c < d :: Other(e, key, Step(Hash(key, |e|), c, |e|))
  }

  ghost predicate Other(e: seq<Entry>, key: int, i: nat) {
    i < |e| && e[i].state == OCCUPIED && e[i].key != key
  }

  /** An occupied slot is where probing for its key first finds it. */
  ghost predicate Reachable(e: seq<Entry>, i: nat) {
    |e| > 0 && i < |e| && exists d: nat :: d < |e| && i == Step(Hash(e[i].key, |e|), d, |e|) && Passed(e, e[i].key, d)
  }

  ghost predicate AllReachable(e: seq<Entry>) {
    && (forall i: nat | i < |e| && e[i].state == OCCUPIED :: Reachable(e, i))
    && (forall i: nat | i < |e| :: e[i].state != DELETED)
  }

  /** The occupied slots hold exactly the map. */
  ghost predicate Represents(e: seq<Entry>, m: map<int, int>) {
    && (forall i: nat | i < |e| && e[i].state == OCCUPIED :: e[i].key in m && m[e[i].key] == e[i].value)
    && (forall k | k in m :: Stored(e, k))
  }

  ghost predicate Stored(e: seq<Entry>, key: int) {
    exists i: nat :: Holds(e, i, key)
  }

  /** The slot that holds a key is not among those passed on the way to it. */
  lemma FirstFound(e: seq<Entry>, key: int, c: nat, d: nat)
    requires Passed(e, key, d) && c < |e| && Holds(e, Step(Hash(key, |e|), c, |e|), key)
    ensures d <= c
  {
  }

  lemma SlotSeen(e: seq<Entry>, key: int, c: nat, d: nat)
    requires Passed(e, key, d)
    ensures c < d ==> Other(e, key, Step(Hash(key, |e|), c, |e|))
  {
  }

  /** A probe that reaches an empty slot, or comes round, has not missed the key. */
  lemma Absent(e: seq<Entry>, m: map<int, int>, key: int, d: nat)
    requires AllReachable(e) && Represents(e, m) && Passed(e, key, d)
    requires d == |e| || e[Step(Hash(key, |e|), d, |e|)].state == EMPTY
    ensures key !in m
  {
    if key in m {
      assert Stored(e, key);
      var i: nat :| Holds(e, i, key);
      assert Reachable(e, i);
      var c: nat :| c < |e| && i == Step(Hash(key, |e|), c, |e|) && Passed(e, key, c);
      FirstFound(e, key, c, d);
      SlotSeen(e, key, d, c);
    }
  }

  /** Past a slot with another key, the probe goes on. */
  lemma StepNext(h: nat, d: nat, n: nat)
    requires h < n && d < n
    ensures (Step(h, d, n) + 1) % n == Step(h, d + 1, n) < n
    ensures Step(h, d + 1, n) == h <==> d + 1 == n
  {
    if Step(h, d, n) + 1 == n {
    } else {
      assert Step(h, d, n) + 1 < n;
    }
  }

  lemma NextProbe(e: seq<Entry>, key: int, d: nat)
    requires Passed(e, key, d) && d < |e| && Other(e, key, Step(Hash(key, |e|), d, |e|))
    ensures Passed(e, key, d + 1)
    ensures (Step(Hash(key, |e|), d, |e|) + 1) % |e| == Step(Hash(key, |e|), d + 1, |e|)
    ensures Step(Hash(key, |e|), d + 1, |e|) == Hash(key, |e|) <==> d + 1 == |e|
  {
    hide Hash;
    StepNext(Hash(key, |e|), d, |e|);
  }

  lemma NoneDeleted(e: seq<Entry>, m: map<int, int>, i: nat)
    requires AllReachable(e) && Represents(e, m) && i < |e|
    ensures e[i].state != DELETED
    ensures e[i].state == OCCUPIED ==> e[i].key in m && m[e[i].key] == e[i].value
  {
  }

  /** No key sits in two slots. */
  lemma OneSlotEach(e: seq<Entry>, i: nat, j: nat)
    requires AllReachable(e) && i < |e| && j < |e| && e[i].state == e[j].state == OCCUPIED && e[i].key == e[j].key
    ensures i == j
  {
    assert Reachable(e, i) && Reachable(e, j);
    var key := e[i].key;
    var c: nat :| c < |e| && i == Step(Hash(key, |e|), c, |e|) && Passed(e, key, c);
    var d: nat :| d < |e| && j == Step(Hash(key, |e|), d, |e|) && Passed(e, key, d);
    FirstFound(e, key, c, d);
    FirstFound(e, key, d, c);
  }

  /** With all slots occupied, there are as many keys as slots. */
  lemma FullTable(e: seq<Entry>, m: map<int, int>)
    requires AllReachable(e) && Represents(e, m)
    requires forall i | 0 <= i < |e| :: e[i].state == OCCUPIED
    ensures |m| >= |e|
  {
    var keys := seq(|e|, i requires 0 <= i < |e| => e[i].key);
    forall i, j | 0 <= i < j < |keys|
      ensures keys[i] != keys[j]
    {
      if keys[i] == keys[j] {
        OneSlotEach(e, i, j);
      }
    }
    DistinctSize(keys);
    SubsetSize(ToSet(keys), m.Keys);
  }

  /** A probe that comes round has seen every slot occupied. */
  lemma AroundMeansFull(e: seq<Entry>, key: int)
    requires Passed(e, key, |e|)
    ensures forall i | 0 <= i < |e| :: e[i].state == OCCUPIED
  {
    forall i | 0 <= i < |e|
      ensures e[i].state == OCCUPIED
    {
      var h := Hash(key, |e|);
      var c: nat := if i >= h then i - h else i - h + |e|;
      assert Step(h, c, |e|) == i && Other(e, key, Step(h, c, |e|));
    }
  }

  /** Filling the free slot that a probe for the key found. */
  lemma Filled(e: seq<Entry>, m: map<int, int>, key: int, value: int, d: nat)
    requires AllReachable(e) && Represents(e, m) && Passed(e, key, d) && d < |e|
    requires e[Step(Hash(key, |e|), d, |e|)].state == EMPTY
    ensures var e' := e[Step(Hash(key, |e|), d, |e|) := Entry(key, value, OCCUPIED)];
            AllReachable(e') && Represents(e', m[key := value])
    ensures key !in m
  {
    var at := Step(Hash(key, |e|), d, |e|);
    var e' := e[at := Entry(key, value, OCCUPIED)];
    Absent(e, m, key, d);
    forall i: nat | i < |e| && e'[i].state == OCCUPIED
      ensures Reachable(e', i)
    {
      if i == at {
        PassedStill(e, e', key, d, at);
      } else {
        assert Reachable(e, i);
        var c: nat :| c < |e| && i == Step(Hash(e[i].key, |e|), c, |e|) && Passed(e, e[i].key, c);
        PassedStill(e, e', e[i].key, c, at);
      }
    }
    forall k | k in m[key := value]
      ensures Stored(e', k)
    {
      if k == key {
        assert Holds(e', at, k);
      } else {
        assert Stored(e, k);
        var i: nat :| Holds(e, i, k);
        assert Holds(e', i, k);
      }
    }
  }

  /** A change of a slot that was free, or that keeps its key, disturbs no probe. */
  lemma PassedStill(e: seq<Entry>, e': seq<Entry>, key: int, d: nat, at: nat)
    requires Passed(e, key, d) && at < |e| && |e'| == |e|
    requires forall i | 0 <= i < |e| && i != at :: e'[i] == e[i]
    requires e[at].state != OCCUPIED || (e'[at].state == OCCUPIED && e'[at].key == e[at].key)
    ensures Passed(e', key, d)
  {
    forall c: nat | c < d
      ensures Other(e', key, Step(Hash(key, |e|), c, |e|))
    {
      assert Other(e, key, Step(Hash(key, |e|), c, |e|));
    }
  }

  /** A new value in the slot that holds the key. */
  lemma Updated(e: seq<Entry>, m: map<int, int>, key: int, value: int, at: nat)
    requires AllReachable(e) && Represents(e, m) && Holds(e, at, key)
    ensures AllReachable(e[at := Entry(key, value, OCCUPIED)])
    ensures Represents(e[at := Entry(key, value, OCCUPIED)], m[key := value]) && key in m
  {
    var e' := e[at := Entry(key, value, OCCUPIED)];
    forall i: nat | i < |e| && e'[i].state == OCCUPIED
      ensures Reachable(e', i)
      ensures e'[i].key in m[key := value] && m[key := value][e'[i].key] == e'[i].value
    {
      assert Reachable(e, i);
      var c: nat :| c < |e| && i == Step(Hash(e[i].key, |e|), c, |e|) && Passed(e, e[i].key, c);
      PassedStill(e, e', e[i].key, c, at);
      if e[i].key == key {
        OneSlotEach(e, i, at);
      }
    }
    forall k | k in m[key := value]
      ensures Stored(e', k)
    {
      assert Stored(e, k);
      var i: nat :| Holds(e, i, k);
      assert Holds(e', i, k);
    }
  }

  class IntMap {
    const entries: array<Entry>
    var size: nat
    ghost var view: map<int, int>

    ghost predicate Valid()
      reads this, entries
    {
      entries.Length > 0 && AllReachable(entries[..]) && Represents(entries[..], view) && size == |view|
    }

    /** djlc_hm_init. */
    constructor (capacity: nat)
      requires capacity > 0
      ensures Valid() && view == map[] && fresh(entries) && entries.Length == capacity
    {
      entries := new Entry[capacity](_ => Entry(0, 0, EMPTY));
      size := 0;
      view := map[];
    }

    /** djlc_hm_put. At three quarters full it refuses every key, even one it holds. */
    method Put(key: int, value: int) returns (ok: bool)
      requires Valid()
      modifies this, entries
      ensures Valid() && (ok <==> old(size) < entries.Length * 3 / 4)
      ensures view == if ok then old(view)[key := value] else old(view)
    {
      var n := entries.Length;
      if size >= n * 3 / 4 {
        return false;
      }
      var start := Hash(key, n);
      var idx := start;
      ghost var d: nat := 0;
      hide AllReachable;
      hide Represents;
      hide Hash;
      while true
        invariant d < n && idx == Step(start, d, n) && Passed(entries[..], key, d)
        invariant Valid() && size == old(size) && view == old(view)
        decreases n - d
      {
        NoneDeleted(entries[..], view, idx);
        if entries[idx].state != OCCUPIED {
          Filled(entries[..], view, key, value, d);
          Write(idx, key, value, size + 1);
          return true;
        }
        if entries[idx].key == key {
          Updated(entries[..], view, key, value, idx);
          Write(idx, key, value, size);
          return true;
        }
        NextProbe(entries[..], key, d);
        idx := (idx + 1) % n;
        d := d + 1;
        if idx == start {
          break;
        }
      }
      AroundMeansFull(entries[..], key);
      FullTable(entries[..], view);
      assert false;
    }

    /** Writes one entry. */
    method Write(idx: nat, key: int, value: int, newSize: nat)
      requires idx < entries.Length && AllReachable(entries[..][idx := Entry(key, value, OCCUPIED)])
      requires Represents(entries[..][idx := Entry(key, value, OCCUPIED)], view[key := value])
      requires newSize == |view[key := value]|
      modifies this, entries
      ensures Valid() && view == old(view)[key := value]
    {
      entries[idx] := Entry(key, value, OCCUPIED);
      size := newSize;
      view := view[key := value];
      assert entries[..] == old(entries[..])[idx := Entry(key, value, OCCUPIED)];
    }

    /** djlc_hm_get. */
    method Get(key: int) returns (found: bool, value: int)
      requires Valid()
      ensures found <==> key in view
      ensures found ==> value == view[key]
    {
      var n := entries.Length;
      var start := Hash(key, n);
      var idx := start;
      ghost var d: nat := 0;
      hide AllReachable;
      hide Represents;
      hide Hash;
      while true
        invariant d < n && idx == Step(start, d, n) && Passed(entries[..], key, d)
        decreases n - d
      {
        if entries[idx].state == EMPTY {
          Absent(entries[..], view, key, d);
          return false, 0;
        }
        NoneDeleted(entries[..], view, idx);
        if entries[idx].state == OCCUPIED && entries[idx].key == key {
          return true, entries[idx].value;
        }
        NextProbe(entries[..], key, d);
        idx := (idx + 1) % n;
        d := d + 1;
        if idx == start {
          break;
        }
      }
      Absent(entries[..], view, key, n);
      return false, 0;
    }

    /** djlc_hm_contains. */
    method Contains(key: int) returns (found: bool)
      requires Valid()
      ensures found <==> key in view
    {
      var value;
      found, value := Get(key);
    }
  }
}
