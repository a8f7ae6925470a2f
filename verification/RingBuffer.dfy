/** The message queue's ring buffer: fixed-size items copied byte by byte into a
    buffer whose slots are reused in a circle. */
module RingBuffer {
  import opened Bits

  type Byte = b: int | 0 <= b < 256

  // ----- The circle on values -----------------------------------------------

  /** Slot number k, counted around a circle of n slots. */
  function Around(k: nat, n: nat): nat {
    if k < n then k else k - n
  }

  /** The count items from slot head on. */
  function Items<T>(slots: seq<T>, head: nat, count: nat): (items: seq<T>)
    requires count <= |slots| && (|slots| > 0 ==> head < |slots|)
    ensures |items| == count && forall i | 0 <= i < count :: items[i] == slots[Around(head + i, |slots|)]
  {
    seq(count, i requires 0 <= i < count => slots[Around(head + i, |slots|)])
  }

  lemma AppendItem<T>(slots: seq<T>, head: nat, count: nat, item: T)
    requires head < |slots| && count < |slots|
    ensures Items(slots[Around(head + count, |slots|) := item], head, count + 1) == Items(slots, head, count) + [item]
  {
    var after := Items(slots[Around(head + count, |slots|) := item], head, count + 1);
    forall i | 0 <= i <= count
      ensures after[i] == (Items(slots, head, count) + [item])[i]
    {
    }
  }

  /** The slot in front of the first item. */
  function Previous(head: nat, n: nat): (k: nat)
    requires head < n
    ensures k < n
  {
    if head == 0 then n - 1 else head - 1
  }

  lemma PrependItem<T>(slots: seq<T>, head: nat, count: nat, item: T)
    requires head < |slots| && count < |slots|
    ensures Items(slots[Previous(head, |slots|) := item], Previous(head, |slots|), count + 1) == [item] + Items(slots, head, count)
  {
    var first := Previous(head, |slots|);
    var after := Items(slots[first := item], first, count + 1);
    forall i | 0 <= i <= count
      ensures after[i] == ([item] + Items(slots, head, count))[i]
    {
      if i > 0 {
        assert Around(first + i, |slots|) == Around(head + (i - 1), |slots|);
      }
    }
  }

  lemma DropItem<T>(slots: seq<T>, head: nat, count: nat)
    requires head < |slots| && 0 < count <= |slots|
    ensures Items(slots, head, count)[0] == slots[head]
    ensures Items(slots, Around(head + 1, |slots|), count - 1) == Items(slots, head, count)[1..]
  {
    var rest := Items(slots, Around(head + 1, |slots|), count - 1);
    assert Around(head + 0, |slots|) == head;
    forall i | 0 <= i < |rest|
      ensures rest[i] == Items(slots, head, count)[1..][i]
    {
      assert Around(Around(head + 1, |slots|) + i, |slots|) == Around(head + (i + 1), |slots|);
    }
  }

  lemma AroundIsMod(k: nat, n: nat)
    requires n > 0 && k < 2 * n
    ensures k % n == Around(k, n)
  {
  }

  // ----- Slots of bytes ----------------------------------------------------

  /** Slot k of n slots of size bytes lies inside the buffer, and other slots lie elsewhere. */
  lemma SlotInside(k: nat, n: nat, size: nat)
    requires k < n
    ensures k * size + size <= n * size
  {
    Distribute(k, n - k, size);
    MulAtLeast(size, n - k);
  }

  lemma Distribute(a: nat, b: nat, c: nat)
    ensures (a + b) * c == a * c + c * b
  {
  }

  function Slot(bytes: seq<Byte>, k: nat, size: nat): seq<Byte>
    requires k * size + size <= |bytes|
  {
    bytes[k * size..k * size + size]
  }

  /** The buffer cut into its n slots. */
  function Slots(bytes: seq<Byte>, n: nat, size: nat): (s: seq<seq<Byte>>)
    requires n * size <= |bytes|
    ensures |s| == n
  {
    seq(n, k requires 0 <= k < n => (SlotInside(k, n, size); Slot(bytes, k, size)))
  }

  /** Writing the bytes of slot k changes that slot only. */
  lemma SlotWritten(bytes: seq<Byte>, bytes': seq<Byte>, n: nat, size: nat, k: nat, item: seq<Byte>)
    requires n * size <= |bytes| == |bytes'| && k < n && |item| == size && k * size + size <= |bytes|
    requires forall b | 0 <= b < |bytes| ::
               bytes'[b] == if k * size <= b < k * size + size then item[b - k * size] else bytes[b]
    ensures Slots(bytes', n, size) == Slots(bytes, n, size)[k := item]
  {
    forall j | 0 <= j < n
      ensures Slots(bytes', n, size)[j] == Slots(bytes, n, size)[k := item][j]
    {
      SlotInside(j, n, size);
      if j < k {
        SlotInside(j, k, size);
      } else if k < j {
        SlotInside(k, j, size);
      }
    }
  }

  /** The fields of queue_t that hold the messages. */
  class Ring {
    const buffer: array<Byte>
    const itemSize: nat
    const capacity: nat
    var count: nat
    var head: nat
    var tail: nat

    ghost predicate Valid()
      reads this
    {
      && capacity * itemSize <= buffer.Length && count <= capacity
      && (capacity > 0 ==> head < capacity && tail == Around(head + count, capacity))
    }

    /** The messages, the oldest first. */
    ghost function Messages(): seq<seq<Byte>>
      requires Valid()
      reads this, buffer
    {
      Items(Slots(buffer[..], capacity, itemSize), head, count)
    }

    /** queue_init. */
    constructor (buffer: array<Byte>, itemSize: nat, capacity: nat)
      requires capacity * itemSize <= buffer.Length
      ensures Valid() && Messages() == []
      ensures this.buffer == buffer && this.itemSize == itemSize && this.capacity == capacity
    {
      this.buffer := buffer;
      this.itemSize := itemSize;
      this.capacity := capacity;
      count := 0;
      head := 0;
      tail := 0;
    }

    /** Copies an item into slot k. */
    method CopyIn(k: nat, item: seq<Byte>)
      requires capacity * itemSize <= buffer.Length && k < capacity && |item| == itemSize
      modifies buffer
      ensures Slots(buffer[..], capacity, itemSize) == Slots(old(buffer[..]), capacity, itemSize)[k := item]
    {
      SlotInside(k, capacity, itemSize);
      ghost var before := buffer[..];
      var start := k * itemSize;
      for i := 0 to itemSize
        invariant forall b | 0 <= b < buffer.Length ::
                    buffer[b] == if start <= b < start + i then item[b - start] else before[b]
      {
        buffer[start + i] := item[i];
      }
      SlotWritten(before, buffer[..], capacity, itemSize, k, item);
    }

    /** Copies slot k out. */
    method CopyOut(k: nat) returns (item: seq<Byte>)
      requires capacity * itemSize <= buffer.Length && k < capacity
      ensures item == Slots(buffer[..], capacity, itemSize)[k]
    {
      SlotInside(k, capacity, itemSize);
      var start := k * itemSize;
      item := buffer[start..start + itemSize];
    }

    /** The non-blocking part of queue_send. */
    method Send(item: seq<Byte>) returns (ok: bool)
      requires Valid() && |item| == itemSize
      modifies this`count, this`tail, buffer
      ensures Valid() && (ok <==> old(|Messages()|) < capacity)
      ensures Messages() == if ok then old(Messages()) + [item] else old(Messages())
    {
      if count < capacity {
        AppendItem(Slots(buffer[..], capacity, itemSize), head, count, item);
        CopyIn(tail, item);
        AroundIsMod(tail + 1, capacity);
        tail := (tail + 1) % capacity;
        count := count + 1;
        return true;
      }
      return false;
    }

    /** The non-blocking part of queue_send_front. */
    method SendFront(item: seq<Byte>) returns (ok: bool)
      requires Valid() && |item| == itemSize
      modifies this`count, this`head, buffer
      ensures Valid() && (ok <==> old(|Messages()|) < capacity)
      ensures Messages() == if ok then [item] + old(Messages()) else old(Messages())
    {
      if count < capacity {
        PrependItem(Slots(buffer[..], capacity, itemSize), head, count, item);
        head := Previous(head, capacity);
        CopyIn(head, item);
        count := count + 1;
        return true;
      }
      return false;
    }

    /** The non-blocking part of queue_receive. */
    method Receive() returns (ok: bool, item: seq<Byte>)
      requires Valid()
      modifies this`count, this`head
      ensures Valid() && (ok <==> old(Messages()) != [])
      ensures ok ==> [item] + Messages() == old(Messages())
      ensures !ok ==> Messages() == []
    {
      if count > 0 {
        DropItem(Slots(buffer[..], capacity, itemSize), head, count);
        item := CopyOut(head);
        AroundIsMod(head + 1, capacity);
        head := (head + 1) % capacity;
        count := count - 1;
        return true, item;
      }
      return false, [];
    }

    /** queue_peek. */
    method Peek() returns (ok: bool, item: seq<Byte>)
      requires Valid()
      ensures ok <==> Messages() != []
      ensures ok ==> item == Messages()[0]
    {
      if count == 0 {
        return false, [];
      }
      DropItem(Slots(buffer[..], capacity, itemSize), head, count);
      item := CopyOut(head);
      return true, item;
    }
  }
}
