# Verified models of the djlc algorithms and of the danieRTOS v3 kernel core

Two parts of the repository are modelled here. The first is the header-only C library
`djlc`: its graph, number-theory, index-tree, union-find, interval, trie, heap, matrix and
hash-map code. The second is the multi-core kernel `daniertos/v3-smp`: its ready queues and
scheduler, its priority-inheritance mutex, counting semaphore, delay list and message
queue, and the address arithmetic of its memory protection.

Code that changes things in place stays imperative. The C structures are classes with the
same fields, the intrusive `next` and `delay_next` links are real references between control
blocks, and the loops are loops with invariants. Each such method is tied by its contract to
a plain mathematical view (a sequence, a map, a partition, a multiset of live values, or a
kernel state on values), and the results a caller relies on are proved about that view.

## How it is laid out

| part | modules |
|---|---|
| Graph | `GraphTheory` (walks, cycles), `Kahn` and `ShortestWalks` (what the two searches keep), `Graph` (the code), `Sequences` (the pigeonhole principle) |
| Modular arithmetic | `NumberTheory` (congruence, Euclid, binomials, Fermat), `ModMath` (the code, in 64-bit integers) |
| Fenwick trees | `Fenwick`, `Fenwick2D`, with the bit operations of `Bits` |
| Union-find | `Partitions` (equivalence closure), `Forests` (parent arrays), `UnionFind`; `Ratios`, `WeightedUnionFind` |
| Other djlc code | `Interval`, `TrieKeys` + `XorWalk` + `BitTrie`, `Heap`, `Matrix`, `HashMap` |
| Scheduler | `TaskData`, `TaskLists` and `AllQueues` (linked lists of control blocks), `Scheduling` (the steps on values), `SchedulerSafety`, `SchedulerRuns`, `StepEffects` (the whole effect of each step), `RoundRobin`, `IdleChoice`, `CornerCases` (runs that end in the cases warned of), `Kernel` (the code) |
| Mutex and semaphore | `WaitOrder`, `MutexProtocol`, `Mutexes`, `SemaphoreProtocol`, `Semaphores` |
| Delays, messages, protection | `DelayProtocol`, `Delays`, `Ticks`; `RingBuffer`, `MessageQueues`; `Napot` |

The scheduler, the mutex, the semaphore and the delay list are each described twice: as
functions on values, about which the theorems over whole runs are proved, and as a class
working on linked control blocks, whose methods are proved to compute exactly those functions.

## Main results

* `SchedulerRuns.SchedulerSafe`: from boot, under every sequence of core start, reschedule, block
  and wake steps on any number of cores, and of task creation and priority change as further
  atomic steps (which the source makes them on one core only, see the assumptions), no task is current on two cores, every
  task is in at most one ready queue and once there, queued tasks are ready and on no core,
  a core runs only tasks whose affinity allows it, and no ready task is forgotten.
* `StepEffects`: what each of these steps makes of the whole state, and `AffinityHonoured`: a task created for
  some cores is never current on another.
* `RoundRobin.RoundRobinFair`: m consecutive reschedules run each of the m tasks of the top
  eligible class exactly once.
* `MutexProtocol.MutexSafe`, `HandOff`: over every run the owner has the maximum of its base
  priority and all waiters' priorities, the wait queue is sorted with ties in order of
  arrival, the mutex is free only when nobody waits, and the last unlock hands it to the
  highest-priority longest waiter. `LockEffect`, `UnlockEffect`: what one call does in every case.
* `SemaphoreProtocol.SemaphoreSafe`: counts are conserved, and nobody waits while one is available.
* `DelayProtocol.DelayIsExact`: a task delayed by d ticks at tick T is made ready by the tick
  to T + d, and blocked until then.
* `Graph.Graph.TopoSort`, `Bfs`: exactly the nodes no cycle leads to are placed, all of them
  when the graph is acyclic; distances are shortest.
* `ModMath.Factorials.NCr`: Pascal's number modulo a prime, exactly when the table stays below the prime.
* `UnionFind.UnionFind`: connectivity is the equivalence closure of the united pairs, with logarithmic
  depth; `WeightedUnionFind.WeightedUnionFind.Query`: the ratio forced by the merging unions;
  `QueriesCompose`: the results of queries compose.
* `Interval.MinRemove`: the greedy choice removes the fewest intervals.
* `BitTrie.BitTrie`: counts are exact and `MaxXor`/`MinXor` return true extremes over the live values.
* Fenwick sums in one and two dimensions, heap order and heap sort, both matrix rotations, the
  hash map as a finite map, the message queue as a sequence of messages, and the decoding of
  `pmp_napot_addr`.

## Where the code does less than it seems to promise

The code is modelled as it is; the exact condition is proved each time.

* `djlc_mod_pow` gives 1 for modulus 1 and exponent 0 or less, where the power's residue is 0;
  otherwise it is right (`ModMath.PowModReduced`).
* `djlc_mod_inv` and `djlc_mod_div` never report failure. Over a prime the first is an inverse if and only
  if the number is not a multiple of the prime; the second undoes a multiplication if and only if the
  divisor is not a multiple, or the dividend is one as well.
* The factorial tables are inverse to each other if and only if the largest index is below the prime;
  with a larger table every binomial and every arrangement comes out 0.
* `djlc_interval_cmp_by_end` orders by subtraction; it agrees with the intended order if and only if the
  difference fits an int (`Interval.CompareIsOrder`).
* A Fenwick update on a tree of n entries never leaves the 32-bit range if and only if n < 2^30
  (`Fenwick.UpdatesFitInt`). The update methods cover all sizes and say, for each position, whether the index
  stays in range; where it does not, C gives no meaning to the update.
* Removing an absent number from the counted trie lowers the counts on its path as far as the path exists.
  After a removal the counts are those of some collection of values if and only if the number was live or
  the root had no child in its direction (`BitTrie.BitTrie.Remove`); `BitTrie.DishonestRemoval` inserts 0,
  removes 1 and has wrong counts.
* On a trie with no live value `djlc_bit_trie_min_xor` may return more than 0: its result has as many leading
  bits as nodes left behind lead against the number's bits, so it is 0 if and only if the root has no child
  against the top bit (`BitTrie.BitTrie.MinXor`).
* A hash map at three quarters of its capacity refuses every `put`, also one that would only change the
  value of a key it already holds (`HashMap.IntMap.Put`).
* Waking a blocked task keeps the scheduler invariant if and only if no core still holds that task as its
  current one (`SchedulerSafety.WakeSafeIff`). Nothing in `task_make_ready` checks this;
  `CornerCases.WakeTooSoon` is a run to such a state.
* The idle tasks are meant for when nothing else is ready (`task.c:165`), but `sched_schedule` queues a running
  idle task like any other (`scheduler.c:283-286`). So a core runs its idle task although another task is queued
  for it if and only if, after that requeueing, no level above the idle task's own has an eligible task
  and the idle task is the first eligible one of its level (`IdleChoice.IdleOvertakesIff`). A task of a higher
  level never loses to it. `CornerCases.IdleOvertakes` is the run: start, create a task of priority 0, reschedule twice.
* The mutex's `lock_count` is eight bits wide. It is the nesting depth if and only if the depth stays below
  256; the 256th lock makes it 0, and the next unlock gives the mutex away (`MutexProtocol.RecursiveLockIff`;
  `CornerCases.LockCountWraps` is a run that gets there).
* `sem_init_counting` does not check its counts: the semaphore's count stays between 0 and its maximum in all
  runs if and only if the initial one is in that range (`SemaphoreProtocol.CountInRangeIff`).
* `next_power_of_2` is the least power of two at or above its argument if and only if that is at most 2^63;
  above it wraps to 0. `pmp_napot_addr` decodes to the rounded region, as section 3.7.1 of the RISC-V
  Privileged Specification v1.12 reads it, if and only if 5 <= size <= 2^63 and the base is aligned to the rounded size. From
  another base it stands for the aligned range around it if and only if the base is in the lower half of that range;
  other sizes give all ones.

## Assumptions about the callers

These stand as preconditions or as the guard of a step in a run.

* djlc: indices are in range, capacities are positive where the code divides by them, and a modulus m
  satisfies m > 0 and (m-1)^2 <= 2^63 - 1.
* Starting a core, rescheduling, blocking and waking are the bodies run under the scheduler lock, so they are atomic
  on any number of cores. `task_create` (`task.c:183`) and `task_set_priority` (`task.c:502`) only mask the interrupts of
  their own core and change the shared queues without that lock: that they are atomic steps is given on one core, and on
  several it is assumed here that no other core is at the queues meanwhile. A core starts once, only a running task that is not
  an idle task blocks itself, and only a blocked task that no core holds is woken.
* Mutex, semaphore and message-queue calls are atomic on one core. They wait for ever or not at all. A wake-up of
  their waiters comes only from them, and the priorities of an owner and of waiters are not set by anybody else.
* No tick, and no signal to the semaphore just waited for, falls between a task's blocking itself and its yielding of the core.

## Model

| member | source | states |
|---|---|---|
| Graph.Graph.constructor | djlc/include/graph.h:36-51 | n nodes, no edges, in-degrees consistent |
| Graph.Graph.AddEdge | djlc/include/graph.h:65-74 | exactly one more edge u to v, parallel edges and self-loops included, and the stored in-degrees still count all edges |
| Graph.Graph.ResetIndegree | djlc/include/graph.h:77-84 | from arbitrary in-degrees to the edge counts, the graph itself untouched |
| Graph.Graph.TopoSort | djlc/include/graph.h:92-119 | exactly the nodes that no walk from a cycle leads to are placed, and their number is returned, n if and only if the graph is acyclic; they are distinct and each comes after all its predecessors; the rest of the array is left alone |
| Graph.Graph.EnqueueSources | djlc/include/graph.h:97-104 | the queue holds exactly the nodes without incoming edges, each once |
| Graph.Graph.RelaxEdges | djlc/include/graph.h:107-115 | taking one node's edges away keeps the search invariant and never fills the queue beyond n |
| Graph.Graph.HasCycle | djlc/include/graph.h:122-124 | true if and only if some walk returns to its start |
| Graph.Graph.CanFinish | djlc/include/graph.h:127-129 | true if and only if the graph is acyclic |
| Graph.Graph.Bfs | djlc/include/graph.h:135-157 | dist[v] is the length of a shortest walk, -1 exactly for unreachable nodes; the result is the largest distance and is attained |
| Graph.Graph.Discover | djlc/include/graph.h:145-153 | looking along one node's edges keeps the search invariant, and the queue never overflows |
| Kahn.FullOrderAcyclic | djlc/include/graph.h:92-119 | a topological order of all nodes excludes every cycle |
| Kahn.LeftOutMeansCycle | djlc/include/graph.h:92-119 | when every node left out has a predecessor that is left out too, each of them is at the end of a walk from a cycle (by pigeonhole on a walk of n + 1 nodes) |
| Kahn.PlacedNotBehindCycle | djlc/include/graph.h:92-119 | no walk from a cycle ends at a placed node |
| Kahn.BackwardWalk | djlc/include/graph.h:92-119 | from a node left out there is a walk backwards of any length |
| Kahn.WalkMovesForward | djlc/include/graph.h:92-119 | a walk ending at a placed node starts at a placed node, and strictly earlier unless it has no edge |
| Kahn.Take | djlc/include/graph.h:105-108 | taking a node off the queue makes all its edges pending |
| Kahn.Room | djlc/include/graph.h:109-115 | the target of a pending edge has a positive in-degree, is not yet queued, and there is room for it |
| Kahn.Enqueue | djlc/include/graph.h:109-115 | a node whose last edge was taken away may be queued: all its predecessors are finished |
| Kahn.Finish | djlc/include/graph.h:92-119 | at the end the queue is a topological order of exactly the nodes no cycle leads to, and holds all nodes if and only if the graph is acyclic |
| ShortestWalks.SearchNew | djlc/include/graph.h:145-153 | a newly found node gets a distance no smaller than any before, there is room for it in the queue, and the search invariant holds |
| ShortestWalks.WalksAreSettled | djlc/include/graph.h:135-157 | when the queue is used up, no walk to a node is shorter than its distance |
| ShortestWalks.SearchEnd | djlc/include/graph.h:135-157 | all distances are shortest and the last node queued has the largest |
| ModMath.Mod | djlc/include/mod_math.h:34-38 | the non-negative residue, for negative numbers as well, although C truncates |
| ModMath.ModAdd | djlc/include/mod_math.h:41-43 | the sum's residue, without 64-bit overflow |
| ModMath.ModSub | djlc/include/mod_math.h:46-48 | the difference's non-negative residue, without overflow |
| ModMath.ModMul | djlc/include/mod_math.h:51-53 | the product's residue; the intermediate product fits 64 bits |
| ModMath.ModPow | djlc/include/mod_math.h:60-71 | repeated squaring computes the reduced power for every exponent, 1 for those not positive |
| ModMath.PowModReduced | djlc/include/mod_math.h:60-71 | that value is the power's residue if and only if the modulus is not 1 or the exponent is positive |
| ModMath.ModInv | djlc/include/mod_math.h:79-81 | a residue unless the modulus is 1; over a prime, the number times it has residue 1 if and only if the number is no multiple of the prime |
| ModMath.InverseIff | djlc/include/mod_math.h:79-81 | over a prime, that power is an inverse if and only if the number is not a multiple of the prime |
| ModMath.ModDiv | djlc/include/mod_math.h:84-86 | the dividend times the power of the divisor, reduced; over a prime, multiplying back gives the dividend if and only if the divisor is no multiple of the prime or the dividend is one |
| ModMath.FillFactorials | djlc/include/mod_math.h:109-113 | entry i is i! modulo the modulus |
| ModMath.FillInverses | djlc/include/mod_math.h:115-119 | every product of an entry and its counterpart is the same residue, the one at the top |
| ModMath.Factorials.constructor | djlc/include/mod_math.h:100-124 | over a prime, fact[i] times inv_fact[i] is 1 for the indices up to n if and only if n is below the prime |
| ModMath.Factorials.NCr | djlc/include/mod_math.h:133-138 | over a prime, Pascal's C(n, r) modulo it for a table below the prime, 0 for a larger table and for r outside 0..n |
| ModMath.Factorials.NPr | djlc/include/mod_math.h:141-144 | likewise C(n, r) * r!, the number of arrangements |
| NumberTheory.Fermat | djlc/include/mod_math.h:79-81 | a^p is congruent to a for every prime p |
| NumberTheory.FermatInverse | djlc/include/mod_math.h:79-81 | a * a^(p-2) is congruent to 1 if and only if p does not divide a |
| NumberTheory.Euclid | djlc/include/mod_math.h:79-81 | a prime dividing a product divides a factor |
| NumberTheory.Binomial | djlc/include/mod_math.h:79-81 | the sum of C(n, j) a^j is (1 + a)^n |
| NumberTheory.PrimeDividesFact | djlc/include/mod_math.h:100-124 | a prime divides n! if and only if it is at most n |
| NumberTheory.ChooseFactorials | djlc/include/mod_math.h:133-138 | Pascal's recursion and the factorial quotient agree |
| Fenwick.LowBitTrick | djlc/include/bit.h:37-39 | x & -x in 32-bit two's complement is the largest power of two dividing x |
| Fenwick.LowBit | djlc/include/bit.h:37-39 | the expression computes that power |
| Fenwick.NextCover | djlc/include/bit.h:70-76 | the jump node + lowbit(node) goes to the next node whose interval holds the position, with none in between |
| Fenwick.JumpFitsInt | djlc/include/bit.h:70-76 | no jump from a node of a tree of n entries leaves the int range if and only if n < 2^30 |
| Fenwick.UpdatesFitInt | djlc/include/bit.h:70-76 | the updates of all positions keep the index in the int range if and only if n < 2^30 |
| Fenwick.AllAdded | djlc/include/bit.h:70-76 | once the jumps pass n, every node's sum includes the change |
| Fenwick.Tree.constructor | djlc/include/bit.h:41-45 | all values are 0 |
| Fenwick.Tree.Clear | djlc/include/bit.h:52-54 | all values are 0 again |
| Fenwick.Tree.Build | djlc/include/bit.h:57-67 | the element by element build represents the given array, cut or padded with zeros to n entries; the int range is kept if and only if every single update keeps it |
| Fenwick.Tree.Update | djlc/include/bit.h:70-76 | exactly the value at i changes, by delta; tells whether every jump of the index stays in the int range |
| Fenwick.Tree.Query | djlc/include/bit.h:79-87 | the sum of the values up to and including i, 0 for i = -1 |
| Fenwick.Tree.RangeSum | djlc/include/bit.h:90-93 | the sum of the values from left to right |
| Fenwick.Tree.Set | djlc/include/bit.h:96-99 | exactly the value at i changes, to val; tells the same |
| Fenwick2D.Tree2D.constructor | djlc/include/bit.h:112-126 | the grid of zeros |
| Fenwick2D.Tree2D.UpdateRow | djlc/include/bit.h:138-140 | the inner loop adds delta to exactly those entries of one row whose interval holds the column; tells whether the index stays in the int range |
| Fenwick2D.Tree2D.Update | djlc/include/bit.h:136-142 | exactly one cell of the grid changes, by delta; both jump loops end; tells whether both indices stay in the int range |
| Fenwick2D.Tree2D.QueryRow | djlc/include/bit.h:148-150 | the inner loop sums a band of rows up to the column |
| Fenwick2D.Tree2D.Query | djlc/include/bit.h:145-153 | the double sum over the rectangle from the origin |
| Fenwick2D.Tree2D.RangeSum | djlc/include/bit.h:156-162 | the double sum over any rectangle |
| Fenwick2D.RectangleFromPrefixes | djlc/include/bit.h:156-162 | inclusion and exclusion of four corner sums gives the rectangle |
| UnionFind.UnionFind.constructor | djlc/include/union_find.h:51-66 | nothing united, n components |
| UnionFind.UnionFind.Find | djlc/include/union_find.h:76-81 | the representative; exactly the nodes on the way to it are re-pointed to it, all representatives kept, and 2 to the number of parent steps is at most n |
| UnionFind.UnionFind.Union | djlc/include/union_find.h:84-100 | the pair joins the history; true if and only if the two were not yet equivalent, and then one component fewer |
| UnionFind.UnionFind.Connected | djlc/include/union_find.h:103-105 | true if and only if the two are in the equivalence closure of all united pairs |
| UnionFind.UnionFind.Count | djlc/include/union_find.h:108-110 | the number of classes of that closure |
| UnionFind.UnionStep | djlc/include/union_find.h:84-100 | linking by rank keeps the forest, the tree sizes and the link to the closure, and loses one root |
| Forests.DepthIsLogarithmic | djlc/include/union_find.h:76-100 | 2 to the depth of any node is at most n |
| Forests.CompressKeepsAll | djlc/include/union_find.h:76-81 | re-pointing a node to its root changes no root of any node |
| Forests.LinkRedirects | djlc/include/union_find.h:84-100 | linking two roots keeps ranks increasing and moves exactly one class |
| Forests.LinkKeepsSizes | djlc/include/union_find.h:84-100 | a root of rank k still has at least 2^k nodes |
| Partitions.SameRepresentative | djlc/include/union_find.h:103-105 | equal representatives if and only if equivalent |
| Partitions.TracksMerged | djlc/include/union_find.h:84-100 | redirecting one class to the other is the closure with one more pair |
| Partitions.RedirectLosesOne | djlc/include/union_find.h:84-100 | one representative fewer after a merge |
| Partitions.ClassCount | djlc/include/union_find.h:108-110 | as many equivalence classes as representatives |
| WeightedUnionFind.WeightedUnionFind.constructor | djlc/include/union_find.h:123-137 | nothing united, no ratio known |
| WeightedUnionFind.WeightedUnionFind.Find | djlc/include/union_find.h:146-153 | root and ratio to the root of every node are kept while exactly the nodes on the path are re-pointed to the root, and weight[x] becomes x's ratio |
| WeightedUnionFind.WeightedUnionFind.Union | djlc/include/union_find.h:156-166 | the ratio is recorded if and only if the two were in different classes, and the weights solve all recorded ratios |
| WeightedUnionFind.WeightedUnionFind.Hang | djlc/include/union_find.h:160-165 | hanging one root under the other with the computed weight satisfies the new ratio and all earlier ones |
| WeightedUnionFind.WeightedUnionFind.Query | djlc/include/union_find.h:169-174 | inside a class the quotient that every solution of the recorded ratios has, between classes -1; the ratios themselves are not changed |
| WeightedUnionFind.WeightedUnionFind.QueriesCompose | djlc/include/union_find.h:169-174 | for x, y and z of one class, query(x, y) times query(y, z) is query(x, z), although each query re-points paths |
| WeightedUnionFind.RatioStep | djlc/include/union_find.h:156-166 | a merging union keeps forest, closure and solved ratios |
| Ratios.CompressKeepsRatios | djlc/include/union_find.h:146-153 | re-pointing a node with its full product changes no ratio |
| Ratios.LinkSolves | djlc/include/union_find.h:156-166 | scaling one class by the link weight solves one more ratio, and every solution is a multiple of it on each class |
| Ratios.RatioInSolution | djlc/include/union_find.h:169-174 | every solution of the recorded ratios has the same quotient within a class |
| Interval.CompareIsOrder | djlc/include/interval.h:49-54 | comparing by subtraction is the order by end, then start, if and only if the difference fits an int |
| Interval.SortByEnd | djlc/include/interval.h:118-121 | sorted by that order, and a permutation |
| Interval.MinRemove | djlc/include/interval.h:118-132 | some pairwise non-overlapping choice keeps all but the returned number of intervals, and none keeps more; the array is left sorted, a permutation |
| Interval.KeptIsIndependent | djlc/include/interval.h:71-73 | the kept intervals do not overlap pairwise, also not in zero-length cases |
| Interval.KeptIsLargest | djlc/include/interval.h:118-132 | no non-overlapping choice is larger: two of its members never have the same kept interval as owner |
| Interval.SameOwnerOverlap | djlc/include/interval.h:118-132 | two intervals with the same owner overlap |
| Interval.BestFamily | djlc/include/interval.h:118-132 | optimality carries over from the sorted array to the given order |
| BitTrie.BitTrie.constructor | djlc/include/bit_trie.h:49-53 | an empty trie; a max_bits that is not positive means 32 |
| BitTrie.BitTrie.Insert | djlc/include/bit_trie.h:68-78 | one more live value; every node below the root counts the live values with its prefix |
| BitTrie.BitTrie.CountChild | djlc/include/bit_trie.h:71-77 | one step down: the child is made when missing and its count raised |
| BitTrie.BitTrie.Remove | djlc/include/bit_trie.h:81-89 | of a live value, one occurrence goes and all counts stay exact; of another number, exactly the counts on its existing path are one too low; the counts are then those of some collection if and only if the number was live or the root had no child in its direction |
| BitTrie.BitTrie.CountOut | djlc/include/bit_trie.h:81-89 | the walk lowers exactly the counts from below the root to where the path ends |
| BitTrie.BitTrie.RemoveHonestIff | djlc/include/bit_trie.h:81-89 | when the number was absent, the lowered counts fit some collection of values if and only if the walk never left the root |
| BitTrie.BitTrie.StopsAtRoot | djlc/include/bit_trie.h:81-89 | the walk never leaves the root if and only if the root has no child for the number's top bit |
| BitTrie.DishonestRemoval | djlc/include/bit_trie.h:68-89 | one value inserted and one absent number removed: the counts fit no collection of values |
| BitTrie.BitTrie.Contains | djlc/include/bit_trie.h:92-102 | true if and only if the number's low bits are live |
| BitTrie.BitTrie.MaxXor | djlc/include/bit_trie.h:109-125 | attained by a live value and exceeded by none; 0 when nothing is live |
| BitTrie.BitTrie.MinXor | djlc/include/bit_trie.h:128-144 | for a non-empty trie, attained by a live value and undercut by none; for an empty one, the top bits set for as many steps as nodes exist against the number's bits, so 0 if and only if the root has no such child |
| BitTrie.MaxXorPair | djlc/include/bit_trie.h:147-158 | the largest XOR over all pairs of the array, each paired also with itself, 0 for an empty one |
| XorWalk.MaxTake | djlc/include/bit_trie.h:114-119 | going to a live node of the opposite bit keeps the subtree of the largest values and adds the bit |
| XorWalk.MaxStay | djlc/include/bit_trie.h:119-122 | with no live value there, the walk on the same bit still holds the largest |
| XorWalk.MinTake | djlc/include/bit_trie.h:133-138 | going to a live node of the same bit keeps the subtree of the smallest values |
| XorWalk.MinStay | djlc/include/bit_trie.h:138-141 | with none there, the other bit costs one and still holds the smallest |
| XorWalk.Finish | djlc/include/bit_trie.h:109-144 | at a leaf, the bits collected are the XOR with a live value |
| XorWalk.WalkEnd | djlc/include/bit_trie.h:109-144 | the collected result is the extreme |
| TrieKeys.TallyLeaf | djlc/include/bit_trie.h:92-102 | a leaf's count is positive if and only if its value is live |
| TrieKeys.WithoutTally | djlc/include/bit_trie.h:81-89 | removing a live value lowers by one exactly the counts of its prefixes |
| Heap.IntHeap.constructor | djlc/include/heap.h:35-42 | empty, of the chosen mode |
| Heap.IntHeap.Push | djlc/include/heap.h:63-81 | heap order kept, exactly the new value added |
| Heap.IntHeap.Pop | djlc/include/heap.h:83-100 | fails if and only if empty; otherwise an extreme value leaves, exactly that one, and heap order is kept |
| Heap.IntHeap.Peek | djlc/include/heap.h:102-106 | fails if and only if empty; otherwise an extreme value |
| Heap.IntHeap.Heapify | djlc/include/heap.h:109-122 | heap order from any array, the values permuted |
| Heap.SiftUp | djlc/include/heap.h:71-79 | the bubble-up loop restores order from one displaced leaf, with the values kept |
| Heap.SiftDown | djlc/include/heap.h:88-98 | the bubble-down loop restores order from one displaced node, for the part of the heap from any index on |
| Heap.MoveLastToRoot | djlc/include/heap.h:83-100 | the last value takes the root's place and sinks; what left is the old root |
| Heap.RootOfAll | djlc/include/heap.h:102-106 | in an ordered heap nothing is above the root |
| Heap.UpStep | djlc/include/heap.h:71-79 | one swap with the parent moves the only possible disorder up |
| Heap.TakeNext | djlc/include/heap.h:83-100 | an extreme of what is left continues the sorted output |
| Heap.PopAll | djlc/include/heap.h:83-100 | popping until empty gives a sorted permutation, in both modes |
| Matrix.Transpose | djlc/include/matrix.h:27-35 | the transposed matrix, in place |
| Matrix.ReverseRows | djlc/include/matrix.h:38-46 | every row reversed |
| Matrix.ReverseCols | djlc/include/matrix.h:49-57 | every column reversed |
| Matrix.Rotate90Cw | djlc/include/matrix.h:60-63 | result[i][j] is old[n-1-j][i] |
| Matrix.Rotate90Ccw | djlc/include/matrix.h:66-69 | result[i][j] is old[j][n-1-i] |
| Matrix.Rotate180 | djlc/include/matrix.h:72-75 | two quarter turns |
| Matrix.Rotate90Layer | djlc/include/matrix.h:80-98 | the layer by layer exchange is the same quarter turn, for every n |
| Matrix.Exchange | djlc/include/matrix.h:87-95 | one four-way exchange turns exactly the four cells of its cycle |
| Matrix.TurnsUndo | djlc/include/matrix.h:60-69 | either quarter turn undoes the other |
| Matrix.TurnsComposed | djlc/include/matrix.h:60-75 | transposing and reversing is a quarter turn, reversing both ways a half turn |
| Matrix.RingFinished | djlc/include/matrix.h:80-98 | a full layer turned is the start of the next |
| Matrix.AllTurned | djlc/include/matrix.h:80-98 | with all layers turned, the centre included, the matrix is the quarter turn |
| HashMap.Hash | djlc/include/hashmap_int.h:61-68 | the 32-bit mixing lands below the capacity |
| HashMap.IntMap.constructor | djlc/include/hashmap_int.h:42-48 | the empty map |
| HashMap.IntMap.Put | djlc/include/hashmap_int.h:71-97 | succeeds if and only if fewer than three quarters of the capacity are in use; then exactly this key's value is set |
| HashMap.IntMap.Get | djlc/include/hashmap_int.h:100-117 | found if and only if the key is in the map, with its value |
| HashMap.IntMap.Contains | djlc/include/hashmap_int.h:120-123 | true if and only if the key is in the map |
| HashMap.Absent | djlc/include/hashmap_int.h:100-117 | a probe that meets an empty slot, or comes round, proves the key absent |
| HashMap.Filled | djlc/include/hashmap_int.h:71-97 | filling the first empty slot of the probe keeps every other key reachable |
| HashMap.Updated | djlc/include/hashmap_int.h:71-97 | overwriting a key's slot changes only its value |
| HashMap.FullTable | djlc/include/hashmap_int.h:71-97 | a table without an empty slot holds as many keys as slots, so below the limit a probe ends |
| TaskLists.TaskQueue.LinkAfter | daniertos/v3-smp/src/kernel/scheduler.c:40-70 | linking a control block behind a position inserts exactly it there, and leaves all other links |
| TaskLists.TaskQueue.UnlinkAfter | daniertos/v3-smp/src/kernel/scheduler.c:72-105 | unlinking at a position drops exactly that one and clears its link |
| TaskLists.TaskQueue.Append | daniertos/v3-smp/src/kernel/scheduler.c:40-70 | at the tail of the list |
| TaskLists.TaskQueue.Remove | daniertos/v3-smp/src/kernel/scheduler.c:72-105 | exactly that task leaves, and whether it was there |
| TaskLists.TaskQueue.AddByPriority | daniertos/v3-smp/src/kernel/mutex.c:14-22 | before the first of lower priority, so behind its equals |
| TaskLists.TaskQueue.Pop | daniertos/v3-smp/src/kernel/mutex.c:24-33 | the head leaves, its link cleared; null for an empty queue |
| TaskData.InsertByPriorityAt | daniertos/v3-smp/src/kernel/mutex.c:14-22 | the place the walk stops at is the insertion place, all before at least as high, the next lower |
| AllQueues.AllQueues.Append | daniertos/v3-smp/src/kernel/scheduler.c:40-70 | with all queues sharing the one link per control block, appending changes no other queue |
| AllQueues.AllQueues.Remove | daniertos/v3-smp/src/kernel/scheduler.c:72-105 | removing changes no other queue |
| AllQueues.AllQueues.AddByPriority | daniertos/v3-smp/src/kernel/mutex.c:14-22 | a wait queue insertion changes no other queue |
| AllQueues.AllQueues.Pop | daniertos/v3-smp/src/kernel/mutex.c:24-33 | a wait queue pop changes no other queue |
| SchedulerSafety.RemoveReadyRemoves | daniertos/v3-smp/src/kernel/scheduler.c:72-105 | looking at the priority's own level first, then at all levels, takes the task out of every level |
| SchedulerSafety.SelectFits | daniertos/v3-smp/src/kernel/scheduler.c:115-138 | what is selected is ready, eligible and current nowhere |
| SchedulerSafety.StartKeeps | daniertos/v3-smp/src/kernel/scheduler.c:149-200 | starting a core keeps the scheduler invariant |
| SchedulerSafety.ScheduleKeeps | daniertos/v3-smp/src/kernel/scheduler.c:269-320 | rescheduling a core keeps it |
| SchedulerSafety.BlockKeeps | daniertos/v3-smp/src/kernel/task.c:533-543 | blocking oneself keeps it, and finds nothing to remove from a queue |
| SchedulerSafety.WakeSafeIff | daniertos/v3-smp/src/kernel/task.c:521-531 | waking a blocked task keeps the invariant if and only if no core still holds it |
| SchedulerSafety.ReprioritizeKeeps | daniertos/v3-smp/src/kernel/task.c:495-514 | changing a priority, with requeueing of a ready task, keeps the invariant |
| SchedulerSafety.ReprioritizeMoves | daniertos/v3-smp/src/kernel/task.c:495-514 | a ready task ends behind all others of its new level, although it is searched for under the new priority; no other task moves, no other priority changes |
| StepEffects.BoostEffect | daniertos/v3-smp/src/kernel/mutex.c:83-94 | a lower priority is raised, and then a ready task requeued; a priority at least as high leaves everything as it was |
| SchedulerRuns.BootInv | daniertos/v3-smp/src/kernel/task.c:143-169 | the state after task_init has the invariant |
| SchedulerSafety.QueueAndUnqueue | daniertos/v3-smp/src/kernel/task.c:143-169 | queueing a task and taking it off again, as task_init does with an idle one, leaves everything as it was |
| SchedulerRuns.CreateKeeps | daniertos/v3-smp/src/kernel/task.c:171-237 | creating a task keeps it, also when the pool is full |
| SchedulerRuns.SetPriorityKeeps | daniertos/v3-smp/src/kernel/task.c:495-514 | setting a base priority keeps it |
| SchedulerRuns.StepKeeps | daniertos/v3-smp/src/kernel/scheduler.c:40-320 | every step allowed keeps it |
| SchedulerRuns.RunsKeep | daniertos/v3-smp/src/kernel/scheduler.c:40-320 | every run from boot keeps it, for any number of cores |
| SchedulerRuns.SchedulerSafe | daniertos/v3-smp/src/kernel/scheduler.c:40-320 | in every state of every run: current on one core at most, queued once at most, queued means ready and running nowhere, affinity respected, no ready task forgotten |
| SchedulerRuns.ScheduleIsTop | daniertos/v3-smp/src/kernel/scheduler.c:115-320 | the core gets the first task of the highest level with one that may run there, the task that was running, idle or not, having joined the end of its queue; with no such task queued, the idle task |
| StepEffects.LevelOrder | daniertos/v3-smp/src/kernel/scheduler.c:40-70 | the four queues are in the order of priorities, the last for all from 3 on |
| StepEffects.BootEffect | daniertos/v3-smp/src/kernel/task.c:143-169 | each core has an idle task of priority 0, ready, in no queue, whose mask has exactly the bit of that core |
| StepEffects.CreateEffect | daniertos/v3-smp/src/kernel/task.c:171-237 | the new task is ready, of the given priority and base priority, last of its level, and may run on a core if and only if the affinity is 0 or has its bit; everything else is as before; nothing happens when 16 tasks exist |
| StepEffects.AffinityHonoured | daniertos/v3-smp/src/kernel/task.c:171-237 | over every run, a task created with a non-zero affinity is current only on cores whose bit it has |
| StepEffects.SetPriorityEffect | daniertos/v3-smp/src/kernel/task.c:495-514 | both priorities become the given one, all others are kept; a ready task goes last of the new level, any other leaves the queues alone; the other tasks keep their order |
| StepEffects.BlockEffect | daniertos/v3-smp/src/kernel/task.c:533-543 | the task is blocked and in no ready queue, everything else is as before |
| StepEffects.WakeEffect | daniertos/v3-smp/src/kernel/task.c:521-531 | the task is ready and joins the tail of its level, everything else is as before |
| StepEffects.StartEffect | daniertos/v3-smp/src/kernel/scheduler.c:149-200 | a core that starts runs the first eligible task of the highest priority, taken off its queue; everything else is as before |
| StepEffects.ScheduleEffect | daniertos/v3-smp/src/kernel/scheduler.c:269-320 | with the task that was running put last of its level, the first eligible one of the highest priority, or else the idle task, is taken off its queue and runs; everything else is as before |
| RoundRobin.TurnStep | daniertos/v3-smp/src/kernel/scheduler.c:269-320 | a reschedule runs the first of the top eligible class and puts it behind the others |
| RoundRobin.RoundRobinFair | daniertos/v3-smp/src/kernel/scheduler.c:115-320 | as many reschedules in a row as the class has tasks, the running one included, run each exactly once |
| IdleChoice.IdleOvertakesIff | daniertos/v3-smp/src/kernel/scheduler.c:269-320 | the idle task runs although another is queued for the core if and only if no higher level has an eligible task and the idle task is first among its equals; a task of a higher level never loses to it |
| IdleChoice.SelectsIdle | daniertos/v3-smp/src/kernel/scheduler.c:115-138 | the search returns the idle task exactly when it is queued first so, or nothing is queued for the core |
| CornerCases.IdleOvertakes | daniertos/v3-smp/src/kernel/scheduler.c:269-320 | a run from boot after which the idle task is current while a ready, eligible task of priority 0 is queued |
| CornerCases.WakeTooSoon | daniertos/v3-smp/src/kernel/task.c:521-543 | a run from boot after which waking the task that just blocked breaks the scheduler invariant |
| Kernel.Kernel.TaskInit | daniertos/v3-smp/src/kernel/task.c:143-169 | the linked structures of a booted kernel represent the boot state |
| Kernel.Kernel.TaskCreate | daniertos/v3-smp/src/kernel/task.c:171-237 | a new control block with the given priorities, ready and queued, allowed on the kernel's cores of the mask or on all for a mask of 0; null exactly when the pool is full |
| Kernel.Kernel.AddReady | daniertos/v3-smp/src/kernel/scheduler.c:40-70 | the list code computes the step on values: state ready, tail of the queue of its capped level |
| Kernel.Kernel.RemoveReady | daniertos/v3-smp/src/kernel/scheduler.c:72-105 | the list code computes the step on values, with the search through all levels |
| Kernel.Kernel.RemoveFromAny | daniertos/v3-smp/src/kernel/scheduler.c:90-105 | the fall-back search takes out the first occurrence from level 0 up |
| Kernel.Kernel.SelectNext | daniertos/v3-smp/src/kernel/scheduler.c:115-138 | the nested search returns the selection on values, the core's idle task as last resort |
| Kernel.Kernel.FirstOnCore | daniertos/v3-smp/src/kernel/scheduler.c:115-138 | the first task of one level whose affinity mask has the core's bit |
| Kernel.Kernel.Dispatch | daniertos/v3-smp/src/kernel/scheduler.c:300-320 | selection, removal from its queue, running, current: the start step on values |
| Kernel.Kernel.Start | daniertos/v3-smp/src/kernel/scheduler.c:149-200 | the selection part of sched_start is the start step |
| Kernel.Kernel.Schedule | daniertos/v3-smp/src/kernel/scheduler.c:269-320 | requeueing the task that was running, an idle one included, then dispatching: the reschedule step |
| Kernel.Kernel.QueueMembership | daniertos/v3-smp/src/kernel/scheduler.c:40-105 | with the scheduler invariant and blocked waiters, a running task is in no list and a ready one in no wait queue |
| Kernel.Kernel.Block | daniertos/v3-smp/src/kernel/task.c:533-543 | the block step |
| Kernel.Kernel.MakeReady | daniertos/v3-smp/src/kernel/task.c:521-531 | the wake step |
| Kernel.Kernel.Reprioritize | daniertos/v3-smp/src/kernel/task.c:495-514 | the effective priority changes; a ready task moves to the tail of its new level |
| Kernel.Kernel.SetPriority | daniertos/v3-smp/src/kernel/task.c:495-514 | base and effective priority become the argument, the state is kept, and the queues change as in the step on values |
| Kernel.Kernel.AddWaiter | daniertos/v3-smp/src/kernel/mutex.c:14-22 | into one wait queue by priority, nothing else changed |
| Kernel.Kernel.PopWaiter | daniertos/v3-smp/src/kernel/mutex.c:24-33 | the first waiter leaves and is then in no queue at all |
| Kernel.Kernel.Boost | daniertos/v3-smp/src/kernel/mutex.c:83-94 | the owner's priority rises to the waiter's, if lower; a ready owner is requeued |
| Kernel.Kernel.Sleep | daniertos/v3-smp/src/kernel/semaphore.c:81-132 | into the wait queue and blocked |
| Kernel.Kernel.BoostAndSleep | daniertos/v3-smp/src/kernel/mutex.c:83-110 | boost, wait queue and block in this order |
| Kernel.Kernel.Wake | daniertos/v3-smp/src/kernel/mutex.c:150-165 | wake reason set and made ready |
| Kernel.Kernel.WakeFirst | daniertos/v3-smp/src/kernel/semaphore.c:139-158 | the first waiter is taken out, marked as signalled and made ready; nothing happens for an empty queue |
| WaitOrder.InsertOrdered | daniertos/v3-smp/src/kernel/mutex.c:14-22 | inserting a newcomer keeps the queue sorted by priority, then by arrival |
| WaitOrder.WaitAdd | daniertos/v3-smp/src/kernel/semaphore.c:17-28 | a task that blocks and joins keeps all waiters blocked, known and in order |
| WaitOrder.WaitPop | daniertos/v3-smp/src/kernel/semaphore.c:33-44 | the head precedes all others in priority and arrival |
| WaitOrder.KernelStepFrame | daniertos/v3-smp/src/kernel/scheduler.c:40-320 | no kernel step but a wake unblocks a task, and none but a priority change alters a priority |
| MutexProtocol.LockKeeps | daniertos/v3-smp/src/kernel/mutex.c:59-125 | taking, nesting, waiting and being refused keep the mutex invariant |
| MutexProtocol.WaitKeeps | daniertos/v3-smp/src/kernel/mutex.c:83-110 | boosting the owner and joining the queue restores the inherited maximum |
| MutexProtocol.UnlockKeeps | daniertos/v3-smp/src/kernel/mutex.c:132-168 | unlocking at any depth, by the owner or another, keeps the invariant |
| MutexProtocol.HandOverKeeps | daniertos/v3-smp/src/kernel/mutex.c:145-168 | the new owner already has the maximum of its own and all remaining waiters' priorities |
| MutexProtocol.KernelMoveKeeps | daniertos/v3-smp/src/kernel/scheduler.c:40-320 | scheduling in between keeps it |
| MutexProtocol.MutexRunsKeep | daniertos/v3-smp/src/kernel/mutex.c:14-168 | every run of locks, unlocks and kernel steps keeps it |
| MutexProtocol.MutexSafe | daniertos/v3-smp/src/kernel/mutex.c:14-168 | free only when nobody waits, count equals depth, waiters blocked and sorted with ties by arrival, owner at the maximum of its base and all waiters' priorities, all others at their base |
| MutexProtocol.HandOff | daniertos/v3-smp/src/kernel/mutex.c:132-168 | the mutex changes hands exactly at the last unlock: to nobody without waiters, else to the highest, longest waiter, which becomes ready; in both cases the caller is back at its base priority and no other priority changes; an inner unlock only lowers the count |
| MutexProtocol.LockEffect | daniertos/v3-smp/src/kernel/mutex.c:59-125 | over every run and for both kinds of call: from free, the caller owns with count and depth 1; by the owner, count and depth rise; by another not waiting, nothing changes; by another waiting, it is blocked and queued, the owner stays with at least its priority, and nothing else changes |
| MutexProtocol.WaitEffect | daniertos/v3-smp/src/kernel/mutex.c:83-110 | the waiting case: the other waiters keep their order, only the owner's priority and place and the caller's state change |
| MutexProtocol.UnlockEffect | daniertos/v3-smp/src/kernel/mutex.c:132-168 | over every run: nothing by another than the owner; one level less when nested; else own priority back, and free, or the first waiter owner, ready and last of its level |
| MutexProtocol.RecursiveLockIff | daniertos/v3-smp/src/kernel/mutex.c:59-82 | one more lock by the owner is counted right if and only if the depth was below 255; from there the wrapped count makes one unlock give the mutex away |
| CornerCases.NestedLocks | daniertos/v3-smp/src/kernel/mutex.c:59-82 | every nesting depth up to 255 is reached by a run |
| CornerCases.LockCountWraps | daniertos/v3-smp/src/kernel/mutex.c:59-168 | a run to depth 255, where one more lock makes the count 0 and the next unlock gives the mutex away |
| Mutexes.Mutex.constructor | daniertos/v3-smp/src/kernel/mutex.c:52-57 | free, nobody waits |
| Mutexes.Mutex.Lock | daniertos/v3-smp/src/kernel/mutex.c:59-125 | the code computes the lock of the protocol, up to the yield; it succeeds at once if and only if the mutex was free or the caller's, and is refused if and only if another owns it and the caller does not wait |
| Mutexes.Mutex.RunsMayLock | daniertos/v3-smp/src/kernel/mutex.c:59-125 | in every run, as long as the other wait queues hold blocked tasks, the running caller is in no queue and a ready owner in no wait queue |
| Mutexes.Mutex.Wait | daniertos/v3-smp/src/kernel/mutex.c:83-110 | the waiting branch does |
| Mutexes.Mutex.Unlock | daniertos/v3-smp/src/kernel/mutex.c:132-168 | the code computes the unlock of the protocol, and a new owner is marked as signalled |
| Mutexes.Mutex.Release | daniertos/v3-smp/src/kernel/mutex.c:145-168 | the last unlock does |
| SemaphoreProtocol.WaitKeeps | daniertos/v3-smp/src/kernel/semaphore.c:81-132 | waiting keeps the semaphore invariant |
| SemaphoreProtocol.SignalKeeps | daniertos/v3-smp/src/kernel/semaphore.c:139-158 | signalling keeps it |
| SemaphoreProtocol.SemaphoreRunsKeep | daniertos/v3-smp/src/kernel/semaphore.c:17-158 | every run keeps it |
| SemaphoreProtocol.SemaphoreSafe | daniertos/v3-smp/src/kernel/semaphore.c:17-158 | count plus waits granted is the initial count plus signals given less those lost; somebody waits only when the count is not positive; the queue is sorted with ties by arrival |
| SemaphoreProtocol.CountInRangeIff | daniertos/v3-smp/src/kernel/semaphore.c:67-79 | the count stays between 0 and the maximum in all runs if and only if the initial one is there |
| SemaphoreProtocol.WaitEffect | daniertos/v3-smp/src/kernel/semaphore.c:81-132 | over every run and for both kinds of call: a positive count falls by one and one wait is granted; else nothing changes, or the caller is blocked and queued, the other waiters in their order |
| SemaphoreProtocol.SignalEffect | daniertos/v3-smp/src/kernel/semaphore.c:139-158 | over every run: the first waiter becomes ready, last of its level, or the count rises unless at its maximum; nothing else changes |
| SemaphoreProtocol.SignalGoesToFirst | daniertos/v3-smp/src/kernel/semaphore.c:139-158 | with waiters the count stays and the highest, longest one becomes ready; without, the count rises or, exactly at the maximum, the signal is lost |
| Semaphores.Semaphore.constructor | daniertos/v3-smp/src/kernel/semaphore.c:67-79 | the given counts, unchecked, nobody waits |
| Semaphores.Semaphore.Wait | daniertos/v3-smp/src/kernel/semaphore.c:81-132 | the code computes the wait of the protocol, up to the yield; it succeeds at once, taking one off, if and only if the count was positive, and is refused if and only if it was not and the caller does not wait |
| Semaphores.Semaphore.RunsMayWait | daniertos/v3-smp/src/kernel/semaphore.c:81-132 | in every run, as long as the other wait queues hold blocked tasks, the running caller is in no queue |
| Semaphores.Semaphore.Join | daniertos/v3-smp/src/kernel/semaphore.c:81-132 | the waiting branch blocks the caller and queues it by priority |
| Semaphores.Semaphore.Signal | daniertos/v3-smp/src/kernel/semaphore.c:139-158 | the code computes the signal of the protocol, and the woken task is marked as signalled |
| DelayProtocol.InsertSorted | daniertos/v3-smp/src/kernel/delay.c:27-39 | insertion keeps the list sorted by wake tick, ties in order of the calls |
| DelayProtocol.RemoveMembers | daniertos/v3-smp/src/kernel/delay.c:72-88 | exactly one task's entry leaves, order kept |
| DelayProtocol.ExpireWakes | daniertos/v3-smp/src/kernel/delay.c:41-59 | exactly the due entries leave and their tasks become ready, the others stay, and the scheduler invariant is kept |
| DelayProtocol.TickMoveKeeps | daniertos/v3-smp/src/kernel/tick.c:53-62 | a tick wakes exactly the entries of that tick |
| DelayProtocol.ExpireEffect | daniertos/v3-smp/src/kernel/delay.c:41-59 | exactly the due tasks become ready and join their levels in the order of the list; every other task, place and entry stays |
| DelayProtocol.TickEffect | daniertos/v3-smp/src/kernel/tick.c:53-62 | the same of every tick in the runs |
| DelayProtocol.DelayMoveKeeps | daniertos/v3-smp/src/kernel/delay.c:90-111 | delaying by d >= 1 lists the caller at tick + d and blocks it, no other state changed; delaying by 0 changes neither list nor tasks |
| DelayProtocol.DelayEffect | daniertos/v3-smp/src/kernel/delay.c:90-111 | d >= 1 blocks the caller and adds its entry for tick + d, the other entries in their order; 0 changes nothing |
| DelayProtocol.RemoveMoveKeeps | daniertos/v3-smp/src/kernel/delay.c:72-88 | taking a task off the list keeps the others |
| DelayProtocol.MovesKeep | daniertos/v3-smp/src/kernel/delay.c:27-111 | every run keeps the delay invariant |
| DelayProtocol.DelaysSafe | daniertos/v3-smp/src/kernel/delay.c:27-111 | in every run from start the list is sorted, has each task once, all still to come and all blocked |
| DelayProtocol.WokenExactly | daniertos/v3-smp/src/kernel/delay.c:27-111 | a listed entry stays and its task stays blocked before its tick; from then on, the tick to exactly that value is in the run and made the task ready |
| DelayProtocol.DelayIsExact | daniertos/v3-smp/src/kernel/delay.c:27-111 | a task delayed d >= 1 ticks at tick T and not removed is woken by the tick to exactly T + d |
| Delays.DelayList.LinkAfter | daniertos/v3-smp/src/kernel/delay.c:27-39 | linking in between two control blocks |
| Delays.DelayList.UnlinkAfter | daniertos/v3-smp/src/kernel/delay.c:72-88 | unlinking |
| Delays.DelayList.Add | daniertos/v3-smp/src/kernel/delay.c:27-39 | the linked list's entries are the sorted insertion |
| Delays.DelayList.Remove | daniertos/v3-smp/src/kernel/delay.c:72-88 | the linked list's entries are the removal, also of a task not on it |
| Delays.DelayList.Pop | daniertos/v3-smp/src/kernel/delay.c:41-59 | the head entry leaves |
| Ticks.SystemTick.constructor | daniertos/v3-smp/src/kernel/delay.c:27-59 | nobody delayed, tick 0 |
| Ticks.SystemTick.WakeOne | daniertos/v3-smp/src/kernel/delay.c:41-59 | the head leaves the list, is marked as timed out and made ready; delayed tasks stay out of all queues |
| Ticks.SystemTick.CheckWakeups | daniertos/v3-smp/src/kernel/delay.c:41-59 | the loop computes the expiry of the protocol, and exactly the tasks that leave the list are marked as timed out |
| Ticks.SystemTick.TickIncrement | daniertos/v3-smp/src/kernel/tick.c:53-62 | the code computes the tick of the protocol, and exactly the tasks that leave the list are marked as timed out |
| Ticks.SystemTick.DelayTicks | daniertos/v3-smp/src/kernel/delay.c:90-111 | the code computes the delay of the protocol, up to the yield, and forgets why the task last woke |
| Ticks.SystemTick.DelayRemove | daniertos/v3-smp/src/kernel/delay.c:72-88 | the code computes the removal of the protocol |
| RingBuffer.Ring.constructor | daniertos/v3-smp/src/kernel/queue.c:50-60 | no message |
| RingBuffer.Ring.Send | daniertos/v3-smp/src/kernel/queue.c:67-85 | fails if and only if full; otherwise the message is last, byte for byte, and no other is touched |
| RingBuffer.Ring.SendFront | daniertos/v3-smp/src/kernel/queue.c:126-143 | fails if and only if full; otherwise the message is first |
| RingBuffer.Ring.Receive | daniertos/v3-smp/src/kernel/queue.c:158-175 | fails if and only if empty; otherwise the first message is returned and leaves |
| RingBuffer.Ring.Peek | daniertos/v3-smp/src/kernel/queue.c:209-221 | the first message, left in place |
| RingBuffer.SlotWritten | daniertos/v3-smp/src/kernel/queue.c:67-85 | writing one slot's bytes changes exactly that message |
| MessageQueues.MessageQueue.WakeOne | daniertos/v3-smp/src/kernel/queue.c:67-85 | the first waiter of one of the two queues leaves it, is marked as signalled and made ready, the messages untouched |
| MessageQueues.MessageQueue.TrySend | daniertos/v3-smp/src/kernel/queue.c:67-85 | the message goes last, the first receiver leaves its wait queue, is marked as signalled and made ready; neither happens when the queue is full |
| MessageQueues.MessageQueue.TrySendFront | daniertos/v3-smp/src/kernel/queue.c:126-143 | the message goes first and the first receiver wakes likewise; neither when full |
| MessageQueues.MessageQueue.TryReceive | daniertos/v3-smp/src/kernel/queue.c:158-175 | the first message leaves and the first sender wakes likewise; neither when empty |
| Napot.NextPowerOf2 | daniertos/v3-smp/src/hal/pmp.c:67-78 | the least power of two at or above size if and only if size <= 2^63; 0 exactly above |
| Napot.NextPowerIsLeast | daniertos/v3-smp/src/hal/pmp.c:67-78 | one above all ones of size - 1 is the least power of two at or above size |
| Napot.NextPowerFits | daniertos/v3-smp/src/hal/pmp.c:67-78 | it fits 64 bits if and only if size <= 2^63 |
| Napot.SmearEnd | daniertos/v3-smp/src/hal/pmp.c:67-78 | six doublings of the shift set every bit below the top one |
| Napot.PmpNapotAddr | daniertos/v3-smp/src/hal/pmp.c:80-93 | decodes to exactly base and rounded size if and only if 5 <= size <= 2^63 and the base is aligned to it; to the aligned range around the base if and only if that is in its lower half; all ones for other sizes; below 2^56 the value fits the 54-bit register |
| Napot.EncodeIff | daniertos/v3-smp/src/hal/pmp.c:80-93 | for a power of two of at least 8, the encoding decodes back if and only if the base is aligned |
| Napot.MisalignedDecodes | daniertos/v3-smp/src/hal/pmp.c:80-93 | the decoded range is the naturally aligned one around any base if and only if the base lies in its lower half |
| Napot.NotEncoded | daniertos/v3-smp/src/hal/pmp.c:80-93 | sizes below 5 and above 2^63 give all ones and never decode back, whatever the base |
| Napot.TrailingOnesMeans | daniertos/v3-smp/src/hal/pmp.c:80-93 | the decoding reads the ones at the end of the address, and the rest above them |

## Left out

djlc:

- Growth and allocation: capacities double without failing, `free` functions are not modelled.
- Machine integers where nothing is claimed about them: Fenwick sums, in-degrees, distances and trie counts are unbounded integers.
- Doubles: the ratios of the weighted union-find are reals, so rounding is not captured.
- WeightedUnionFind.WeightedUnionFind.Union: a ratio of 0, which the source takes and would later divide by, is not covered; over the reals no result could be named for it.
- WeightedUnionFind.WeightedUnionFind.Hang: likewise for non-zero ratios only.
- `qsort`: `SortByEnd` is an insertion sort of ours with the same comparator; any sorted permutation serves the result.
- The other interval functions (merging, insertion, the binary searches), which have easier claims.
- BitTrie.MaxXorPair: negative numbers are not covered; it uses 32 bits, and a signed result would be read differently. Numbers given to the trie are read by their low max_bits bits.
- Removal from the hash map: the header has none, so the deleted state is in the type and never arises.
- Matrices are two-dimensional arrays, so rows that alias each other are not captured.
- Stacks, vectors, string and tree headers, and the other small utilities.

Kernel:

- Timed waits, wait-queue removal, and what a blocked caller does after it resumes.
- Interleavings of several cores inside mutex, semaphore and message-queue calls: their runs are those of atomic calls on one core, one such object at a time. The scheduler's and the delay list's runs are for any number of cores.
- MutexProtocol.MutexSafe: for one mutex at a time; a task that holds one mutex and waits for another is not covered, since the code restores the base priority at every last unlock.
- SchedulerRuns.CreateKeeps: a step of its own also on several cores, although `task_create` takes no lock the other cores respect.
- SchedulerRuns.SetPriorityKeeps: likewise for `task_set_priority`.
- Ticks.SystemTick.TickIncrement: tick and wake-ups are one atomic step, although the source releases the lock between wake-ups; ticks are unbounded; the request to reschedule at the end is left out, since a reschedule may follow any step.
- Ticks.SystemTick.CheckWakeups: one atomic step, although the source releases its lock around every wake-up.
- DelayProtocol.TickMoveKeeps: likewise one atomic step.
- Mutexes.Mutex.Lock: ends at the yield, which is a step of its own; what a caller that waited returns after it resumes is not modelled.
- Semaphores.Semaphore.Wait: likewise.
- Kernel.Kernel.TaskInit: the idle tasks are made directly as ready and not queued, where the source queues each and takes it out again, to the same effect (`SchedulerSafety.QueueAndUnqueue`).
- Kernel.Kernel.TaskCreate: the search for a free or deleted control block is not modelled.
- Deleting, suspending, resuming and exiting tasks, and the reuse of their control blocks: task numbers only grow.
- Stack pointers, pointer range checks, trap frames, control registers, and the writing of the protection registers.
- `sched_start_ap`, `delay_ms`, `delay_until`, `queue_reset` and the blocking paths of the message queue, where a caller that was woken tries once more without waiting and may still fail.
- The v0, v1 and v2 kernels, drivers, start-up code and demos.
