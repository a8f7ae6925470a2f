/** Task states and the list operations of the kernel's queues, on values. */
module TaskData {
  import opened Sequences

  datatype TaskState = READY | RUNNING | BLOCKED | SUSPENDED | DELETED

  datatype WakeReason = NONE | SIGNALED | TIMEOUT

  /** ids without its k-th element. */
  function DropAt(ids: seq<nat>, k: nat): seq<nat>
    requires k < |ids|
  {
    ids[..k] + ids[k + 1..]
  }

  /** ids with t as its k-th element. */
  function InsertAt(ids: seq<nat>, k: nat, t: nat): seq<nat>
    requires k <= |ids|
  {
    ids[..k] + [t] + ids[k..]
  }

  lemma DropKeepsDistinct(ids: seq<nat>, k: nat, n: nat)
    requires k < |ids| && Distinct(ids) && Below(ids, n)
    ensures Distinct(DropAt(ids, k)) && Below(DropAt(ids, k), n) && |DropAt(ids, k)| == |ids| - 1
    ensures forall i | 0 <= i < |ids| :: i != k ==> ids[i] in DropAt(ids, k)
    ensures ids[k] !in DropAt(ids, k)
    ensures forall t | t in DropAt(ids, k) :: t in ids
  {
    forall i | 0 <= i < |ids| && i != k
      ensures ids[i] in DropAt(ids, k)
    {
      assert DropAt(ids, k)[if i < k then i else i - 1] == ids[i];
    }
  }

  lemma InsertKeepsDistinct(ids: seq<nat>, k: nat, t: nat, n: nat)
    requires k <= |ids| && Distinct(ids) && Below(ids, n) && t !in ids && t < n
    ensures Distinct(InsertAt(ids, k, t)) && Below(InsertAt(ids, k, t), n) && |InsertAt(ids, k, t)| == |ids| + 1
    ensures forall u :: u in InsertAt(ids, k, t) <==> u in ids || u == t
  {
    forall u | u in ids || u == t
      ensures u in InsertAt(ids, k, t)
    {
      if u == t {
        assert InsertAt(ids, k, t)[k] == t;
      } else {
        var i :| 0 <= i < |ids| && ids[i] == u;
        assert InsertAt(ids, k, t)[if i < k then i else i + 1] == u;
      }
    }
  }

  /** ids without its first occurrence of t. */
  function Without(ids: seq<nat>, t: nat): seq<nat> {
    if ids == [] then []
    else if ids[0] == t then ids[1..]
    else [ids[0]] + Without(ids[1..], t)
  }

  lemma {:induction false} WithoutAt(ids: seq<nat>, k: nat)
    requires k < |ids| && Distinct(ids)
    ensures Without(ids, ids[k]) == DropAt(ids, k)
  {
    if k != 0 {
      WithoutAt(ids[1..], k - 1);
    }
  }

  lemma {:induction false} WithoutLast(ids: seq<nat>, t: nat)
    requires t !in ids
    ensures Without(ids + [t], t) == ids
  {
    if ids != [] {
      assert (ids + [t])[1..] == ids[1..] + [t];
      WithoutLast(ids[1..], t);
    }
  }

  lemma {:induction false} WithoutAbsent(ids: seq<nat>, t: nat)
    requires t !in ids
    ensures Without(ids, t) == ids
  {
    if ids != [] {
      WithoutAbsent(ids[1..], t);
    }
  }

  /** t placed behind every task of at least its priority, in front of the others. */
  function InsertByPriority(prio: seq<nat>, ids: seq<nat>, t: nat): seq<nat>
    requires t < |prio| && forall i | 0 <= i < |ids| :: ids[i] < |prio|
  {
    if ids == [] || prio[ids[0]] < prio[t] then [t] + ids
    else [ids[0]] + InsertByPriority(prio, ids[1..], t)
  }

  lemma {:induction false} InsertByPriorityAt(prio: seq<nat>, ids: seq<nat>, t: nat, k: nat)
    requires t < |prio| && forall i | 0 <= i < |ids| :: ids[i] < |prio|
    requires k <= |ids|
    requires forall i | 0 <= i < k :: prio[ids[i]] >= prio[t]
    requires k < |ids| ==> prio[ids[k]] < prio[t]
    ensures InsertByPriority(prio, ids, t) == InsertAt(ids, k, t)
  {
    if k != 0 {
      InsertByPriorityAt(prio, ids[1..], t, k - 1);
      assert ids[1..][..k - 1] == ids[1..k];
    }
  }

  lemma {:induction false} WithoutMembers(l: seq<nat>, t: nat)
    ensures forall x | x in Without(l, t) :: x in l
    ensures forall x | x in l && x != t :: x in Without(l, t)
    ensures Distinct(l) ==> t !in Without(l, t)
    ensures Distinct(l) ==> Distinct(Without(l, t))
  {
    if l != [] {
      var rest := l[1..];
      assert l == [l[0]] + rest;
      WithoutMembers(rest, t);
      if Distinct(l) {
        assert forall i | 0 <= i < |rest| :: rest[i] == l[i + 1];
        assert l[0] !in rest;
      }
    }
  }

  lemma WithoutBelow(l: seq<nat>, t: nat, n: int)
    requires Below(l, n)
    ensures Below(Without(l, t), n)
  {
    WithoutMembers(l, t);
    forall i | 0 <= i < |Without(l, t)|
      ensures 0 <= Without(l, t)[i] < n
    {
      assert Without(l, t)[i] in l;
    }
  }

  /** t is in some queue. */
  ghost predicate Listed(queues: seq<seq<nat>>, t: nat) {
    exists p :: 0 <= p < |queues| && t in queues[p]
  }

  /** No task is in two of the queues. */
  ghost predicate Disjoint(queues: seq<seq<nat>>) {
    forall p, q, t | 0 <= p < q < |queues| && t in queues[p] :: t !in queues[q]
  }

  /** Changing one queue keeps the queues disjoint if only an unlisted task is new to it. */
  lemma DisjointAfter(queues: seq<seq<nat>>, k: nat, ids: seq<nat>, t: nat)
    requires Disjoint(queues) && k < |queues|
    requires forall u | u in ids :: u in queues[k] || (u == t && !Listed(queues, t))
    ensures Disjoint(queues[k := ids])
  {
  }

  /** Insertion leaves the others in their order. */
  lemma {:induction false} InsertByPriorityOthers(prio: seq<nat>, ids: seq<nat>, t: nat)
    requires t < |prio| && t !in ids && forall i | 0 <= i < |ids| :: ids[i] < |prio|
    ensures Without(InsertByPriority(prio, ids, t), t) == ids
  {
    if ids != [] && prio[ids[0]] >= prio[t] {
      InsertByPriorityOthers(prio, ids[1..], t);
    } else {
      assert ([t] + ids)[1..] == ids;
    }
  }

  lemma {:induction false} InsertByPriorityMembers(prio: seq<nat>, ids: seq<nat>, t: nat)
    requires t < |prio| && forall i | 0 <= i < |ids| :: ids[i] < |prio|
    ensures forall u :: u in InsertByPriority(prio, ids, t) <==> u in ids || u == t
    ensures |InsertByPriority(prio, ids, t)| == |ids| + 1
  {
    if ids != [] && prio[ids[0]] >= prio[t] {
      InsertByPriorityMembers(prio, ids[1..], t);
      assert ids == [ids[0]] + ids[1..];
    }
  }
}
