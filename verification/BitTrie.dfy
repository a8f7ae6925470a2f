/** The counted binary trie: insertion, removal, membership and XOR extremes. */
module BitTrie {
  import opened Bits
  import opened TrieKeys
  import opened XorWalk

  class Node {
    var zero: Node?
    var one: Node?
    var count: int
    ghost const key: nat

    constructor (ghost key: nat)
      ensures zero == null && one == null && count == 0 && this.key == key
    {
      this.key := key;
      zero := null;
      one := null;
      count := 0;
    }

    function Child(bit: nat): Node?
      reads this
    {
      if bit == 0 then zero else one
    }
  }

  ghost function At(nodes: map<nat, Node>, k: nat): Node? {
    if k in nodes then nodes[k] else null
  }

  class BitTrie {
    const maxBits: nat
    const root: Node
    ghost var nodes: map<nat, Node>   // every node by its key
    ghost var live: seq<nat>          // the values inserted and not removed

    ghost function Repr(): set<Node>
      reads this
    {
      nodes.Values
    }

    /** The links lead to the children by key, and every node but the root has its parent. */
    ghost predicate Linked()
      reads this, nodes.Values`zero, nodes.Values`one
    {
      && maxBits >= 1 && 1 in nodes && nodes[1] == root
      && (forall k | k in nodes :: 1 <= k == nodes[k].key && (k >= 2 ==> k / 2 in nodes))
      && (forall k | k in nodes && k < Pow2(maxBits) :: LinksOk(k))
    }

    ghost predicate LinksOk(k: nat)
      requires k in nodes
      reads this, nodes.Values`zero, nodes.Values`one
    {
      nodes[k].zero == At(nodes, 2 * k) && nodes[k].one == At(nodes, 2 * k + 1)
    }

    /** Each node but the root counts the live values below it, plus delta on the way down to cur. */
    ghost predicate Counted(cur: nat, delta: int)
      reads this, nodes.Values`count
    {
      forall k | k in nodes && k >= 2 :: nodes[k].count == Expected(k, cur, delta)
    }

    ghost function Expected(k: nat, cur: nat, delta: int): int
      reads this
    {
      Tally(live, maxBits, k) + (if Under(cur, k) then delta else 0)
    }

    /** Every node on the path of a live value exists. */
    ghost predicate Covered()
      reads this
    {
      forall x | x in live :: x < Pow2(maxBits) && forall k: nat | k >= 1 && EndsBelow(maxBits, x, k) :: k in nodes
    }

    ghost predicate Valid()
      reads this, nodes.Values
    {
      Linked() && Counted(1, 0) && Covered()
    }

    /** djlc_bit_trie_init. */
    constructor (maxBits: int)
      ensures Valid() && live == [] && fresh(Repr())
      ensures this.maxBits == if maxBits > 0 then maxBits else 32
    {
      this.maxBits := if maxBits > 0 then maxBits else 32;
      root := new Node(1);
      live := [];
      new;
      nodes := map[1 := root];
    }

    lemma {:induction false} AncestorsExist(a: nat, k: nat)
      requires Linked() && a in nodes && k >= 1 && Under(a, k)
      ensures k in nodes
    {
      if a != k {
        UnderLess(a / 2, k);
        AncestorsExist(a / 2, k);
      }
    }

    /** Where no node is, no live value ends below. */
    lemma NoNodeNoValue(k: nat)
      requires Covered() && k >= 1 && k !in nodes
      ensures Tally(live, maxBits, k) == 0
    {
      TallyPositive(live, maxBits, k);
    }

    /** The child of cur for the given bit, made if it does not exist. */
    method MakeChild(ghost cur: nat, node: Node, bit: nat) returns (child: Node)
      requires Linked() && cur in nodes && nodes[cur] == node && cur < Pow2(maxBits) && bit < 2
      modifies this`nodes, node
      ensures Linked() && 2 * cur + bit in nodes && child == nodes[2 * cur + bit]
      ensures Kept(old(nodes), 2 * cur + bit)
      ensures forall k | k in old(nodes) :: nodes[k].count == old(nodes[k].count)
      ensures 2 * cur + bit !in old(nodes) ==> fresh(child) && child.count == 0
    {
      assert LinksOk(cur);
      if node.Child(bit) == null {
        child := new Node(2 * cur + bit);
        AddNode(cur, node, bit, child);
      } else {
        child := node.Child(bit);
      }
    }

    /** At most the node `key` is new. */
    ghost predicate Kept(before: map<nat, Node>, key: nat)
      reads this
    {
      && (forall k | k in before :: k in nodes && nodes[k] == before[k])
      && (forall k | k in nodes :: k in before || k == key)
    }

    /** Links a new node in below cur. */
    method AddNode(ghost cur: nat, node: Node, bit: nat, child: Node)
      requires Linked() && cur in nodes && nodes[cur] == node && bit < 2
      requires 2 * cur + bit !in nodes && child.key == 2 * cur + bit
      requires child.zero == null && child.one == null
      modifies this`nodes, node`zero, node`one
      ensures Linked() && nodes == old(nodes)[2 * cur + bit := child]
    {
      ghost var key := 2 * cur + bit;
      if bit == 0 {
        node.zero := child;
      } else {
        node.one := child;
      }
      nodes := nodes[key := child];
      assert key / 2 == cur;
      assert 2 * key / 2 == key && (2 * key + 1) / 2 == key;
      forall k | k in nodes && k < Pow2(maxBits)
        ensures LinksOk(k)
      {
        if k != key && k != cur {
          assert old(LinksOk(k)) && 2 * k != key && 2 * k + 1 != key;
        } else if k == cur {
          assert old(k < Pow2(maxBits) ==> LinksOk(k));
        }
      }
    }

    /** The child on the path, which need not exist yet, counting as before. */
    method ReachChild(ghost cur: nat, node: Node, bit: nat) returns (child: Node)
      requires Linked() && Covered() && Counted(cur, 1) && cur in nodes && nodes[cur] == node && cur < Pow2(maxBits) && bit < 2
      modifies this`nodes, node
      ensures Linked() && Covered() && Counted(cur, 1) && 2 * cur + bit in nodes && child == nodes[2 * cur + bit]
      ensures fresh(nodes.Values - old(nodes.Values))
    {
      ghost var key := 2 * cur + bit;
      if key !in nodes {
        NoNodeNoValue(key);
      }
      UnderLess(cur, key);
      assert 1 <= cur < key;
      child := MakeChild(cur, node, bit);
      hide Linked;
    }

    /** Adds to one node's count. */
    method Bump(ghost key: nat, node: Node, delta: int)
      requires Linked() && key in nodes && nodes[key] == node && Counted(key / 2, delta) && key >= 2
      modifies node`count
      ensures Counted(key, delta)
    {
      assert forall k | k in nodes :: nodes[k].key == k;
      hide Linked;
      UnderLess(key / 2, key);
      node.count := node.count + delta;
    }

    /** Walking down num's path, node is the one i steps above the leaf. */
    ghost predicate Reached(num: nat, i: nat, node: Node)
      reads this, nodes.Values`zero, nodes.Values`one
    {
      && Linked() && Covered() && i <= maxBits
      && Path(num, maxBits, i) in nodes && node == nodes[Path(num, maxBits, i)]
    }

    /** Goes down one step of num's path and counts there. */
    method CountChild(num: nat, i: nat, node: Node) returns (child: Node)
      requires Reached(num, i + 1, node) && Counted(Path(num, maxBits, i + 1), 1)
      modifies this`nodes, nodes.Values
      ensures Reached(num, i, child) && Counted(Path(num, maxBits, i), 1)
      ensures fresh(nodes.Values - old(nodes.Values))
    {
      PathStep(num, maxBits, i);
      hide Linked;
      hide Covered;
      hide Counted;
      hide Path;
      child := ReachChild(Path(num, maxBits, i + 1), node, BitAt(num, i));
      Bump(Path(num, maxBits, i), child, 1);
    }

    /** djlc_bit_trie_insert; bits beyond the trie's range are cut off. */
    method Insert(num: nat)
      requires Valid()
      modifies this, Repr()
      ensures Valid() && live == [Low(num, maxBits)] + old(live)
      ensures fresh(Repr() - old(Repr()))
    {
      var node, i: nat := root, maxBits;
      PathStart(num, maxBits);
      UnderRoot(1);
      while i > 0
        invariant Reached(num, i, node) && Counted(Path(num, maxBits, i), 1) && live == old(live)
        invariant fresh(nodes.Values - old(nodes.Values))
      {
        hide Reached;
        hide Counted;
        hide Path;
        i := i - 1;
        node := CountChild(num, i, node);
      }
      AddLive(Low(num, maxBits));
    }

    /** Once every node on the path has counted it, x is a live value. */
    ghost method AddLive(x: nat)
      requires Linked() && Covered() && x < Pow2(maxBits) && Pow2(maxBits) + x in nodes && Counted(Pow2(maxBits) + x, 1)
      modifies this`live
      ensures Valid() && live == [x] + old(live)
    {
      UnderRoot(1);
      PathExists(x);
      hide Linked;
      live := [x] + live;
      assert live[1..] == old(live) && live[0] == x;
      assert Covered();
      forall k | k in nodes && k >= 2
        ensures nodes[k].count == Expected(k, 1, 0)
      {
        assert Tally(live, maxBits, k) == (if EndsBelow(maxBits, x, k) then 1 else 0) + Tally(old(live), maxBits, k);
      }
    }

    lemma PathExists(x: nat)
      requires Linked() && Pow2(maxBits) + x in nodes
      ensures forall k: nat | k >= 1 && EndsBelow(maxBits, x, k) :: k in nodes
    {
      forall k: nat | k >= 1 && EndsBelow(maxBits, x, k)
        ensures k in nodes
      {
        AncestorsExist(Pow2(maxBits) + x, k);
      }
    }

    lemma UnderRoot(delta: int)
      requires Linked()
      ensures Counted(1, delta) <==> Counted(1, 0)
      ensures forall k | k in nodes && k >= 2 :: !Under(1, k)
    {
      forall k | k in nodes && k >= 2
        ensures !Under(1, k)
      {
        UnderLess(1, k);
      }
    }

    /** node is the node of key cur, i steps above the leaves. */
    ghost predicate Located(i: nat, cur: nat, node: Node)
      reads this, nodes.Values`zero, nodes.Values`one
    {
      && Linked() && i <= maxBits && cur in nodes && nodes[cur] == node
      && Pow2(maxBits - i) <= cur < 2 * Pow2(maxBits - i)
    }

    /** What following a link means: the child is the node of its key, counts the
        live values below it, and if it is missing there are none. */
    lemma LocatedLink(i: nat, cur: nat, node: Node, bit: nat)
      requires Valid() && i < maxBits && Located(i + 1, cur, node) && bit < 2
      ensures node.Child(bit) == null <==> Kid(cur, bit) !in nodes
      ensures var child := node.Child(bit);
              if child == null then Tally(live, maxBits, Kid(cur, bit)) == 0
              else Located(i, Kid(cur, bit), child) && child.count == Tally(live, maxBits, Kid(cur, bit))
    {
      Pow2Monotone(maxBits - i - 1, maxBits - 1);
      assert Pow2(maxBits - i) == 2 * Pow2(maxBits - i - 1);
      assert LinksOk(cur);
      var key := Kid(cur, bit);
      if key !in nodes {
        NoNodeNoValue(key);
      } else {
        assert nodes[key].count == Expected(key, 1, 0);
      }
    }

    /** Following num's next bit leads to the next node of its path, if it exists. */
    lemma ReachedLink(num: nat, i: nat, node: Node)
      requires i < maxBits && Reached(num, i + 1, node)
      ensures node.Child(BitAt(num, i)) == At(nodes, Path(num, maxBits, i))
      ensures Path(num, maxBits, i) == 2 * Path(num, maxBits, i + 1) + BitAt(num, i) && Path(num, maxBits, i + 1) >= 1
    {
      PathStep(num, maxBits, i);
      assert LinksOk(Path(num, maxBits, i + 1));
    }

    /** Where num's path is not built, or no live value ends below it, num is not live. */
    lemma NotLive(num: nat, i: nat)
      requires Covered() && i <= maxBits
      requires Path(num, maxBits, i) !in nodes || Tally(live, maxBits, Path(num, maxBits, i)) == 0
      ensures Low(num, maxBits) !in live
    {
      AboveLevel(Leaf(num, maxBits), maxBits, i);
      UnderAbove(Leaf(num, maxBits), i);
      assert EndsBelow(maxBits, Low(num, maxBits), Path(num, maxBits, i));
      TallyPositive(live, maxBits, Path(num, maxBits, i));
    }

    /** djlc_bit_trie_contains. */
    method Contains(num: nat) returns (found: bool)
      requires Valid()
      ensures found <==> Low(num, maxBits) in live
    {
      var node: Node, i: nat := root, maxBits;
      PathStart(num, maxBits);
      while i > 0
        invariant Reached(num, i, node)
        invariant i < maxBits ==> node.count != 0
      {
        i := i - 1;
        ReachedLink(num, i, node);
        var child := node.Child(BitAt(num, i));
        if child == null || child.count == 0 {
          assert child != null ==> child.count == Expected(Path(num, maxBits, i), 1, 0);
          NotLive(num, i);
          return false;
        }
        node := child;
      }
      LeafIsLive(num);
      return true;
    }

    /** A counted leaf is a live value. */
    lemma LeafIsLive(num: nat)
      requires Valid() && Path(num, maxBits, 0) in nodes && nodes[Path(num, maxBits, 0)].count != 0
      ensures Low(num, maxBits) in live
    {
      PathStart(num, maxBits);
      Pow2Monotone(1, maxBits);
      var leaf := Path(num, maxBits, 0);
      assert nodes[leaf].count == Expected(leaf, 1, 0);
      TallyLeaf(live, maxBits, Low(num, maxBits));
    }

    lemma RootLocated()
      requires Valid()
      ensures Located(maxBits, 1, root) && forall y | y in live :: y < Pow2(maxBits)
    {
    }

    /** One step of max_xor: where the walk goes on, and the result so far; null in
        a part of the trie that was never built. */
    method MaxChild(num: nat, i: nat, ghost cur: nat, node: Node, result: nat) returns (child: Node?, ghost key: nat, next: nat)
      requires Valid() && i < maxBits && Located(i + 1, cur, node) && MaxWalk(live, maxBits, num, i + 1, cur, result)
      ensures child == null ==> live == [] && next == result
      ensures child != null ==> Located(i, key, child) && MaxWalk(live, maxBits, num, i, key, next)
    {
      var bit := BitAt(num, i);
      LocatedLink(i, cur, node, bit);
      LocatedLink(i, cur, node, 1 - bit);
      MaxWalkStep(live, maxBits, num, i, cur, result);
      hide Valid;
      hide Located;
      hide MaxWalk;
      var wanted, other := node.Child(1 - bit), node.Child(bit);
      if wanted != null && wanted.count > 0 {
        return wanted, Kid(cur, 1 - bit), Or(result, Pow2(i));
      } else if other != null {
        return other, Kid(cur, bit), result;
      }
      return null, cur, result;
    }

    /** djlc_bit_trie_max_xor: the largest XOR of num, cut to the trie's range, with
        a live value; 0 if there is none. */
    method MaxXor(num: nat) returns (result: nat)
      requires Valid()
      ensures IsMaxXor(live, Low(num, maxBits), result)
      ensures result < Pow2(maxBits)
    {
      var node: Node, i: nat := root, maxBits;
      ghost var cur: nat, level: nat := 1, maxBits;
      result := 0;
      RootLocated();
      WalkStart(live, maxBits, num);
      while i > 0
        invariant level == i && Located(i, cur, node) && MaxWalk(live, maxBits, num, i, cur, result)
      {
        hide Valid;
        hide Located;
        hide MaxWalk;
        i := i - 1;
        var child: Node?;
        child, cur, result := MaxChild(num, i, cur, node, result);
        if child == null {
          break;
        }
        node := child;
        level := i;
      }
      WalkEnd(live, maxBits, num, level, cur, result);
    }

    /** One step of min_xor: where the walk goes on, and the result so far; null in
        a part of the trie that was never built. */
    method MinChild(num: nat, i: nat, ghost cur: nat, node: Node, result: nat) returns (child: Node?, ghost key: nat, next: nat)
      requires Valid() && i < maxBits && Located(i + 1, cur, node) && MinWalk(live, maxBits, num, i + 1, cur, result)
      ensures child == null ==> live == [] && next == result
      ensures child != null ==> Located(i, key, child) && MinWalk(live, maxBits, num, i, key, next)
      ensures live == [] ==> (child == null <==> Kid(cur, 1 - BitAt(num, i)) !in nodes)
      ensures live == [] && child != null ==> key == Kid(cur, 1 - BitAt(num, i)) && next == Or(result, Pow2(i))
    {
      var bit := BitAt(num, i);
      LocatedLink(i, cur, node, bit);
      LocatedLink(i, cur, node, 1 - bit);
      MinWalkStep(live, maxBits, num, i, cur, result);
      hide Valid;
      hide Located;
      hide MinWalk;
      var wanted, other := node.Child(bit), node.Child(1 - bit);
      if wanted != null && wanted.count > 0 {
        return wanted, Kid(cur, bit), result;
      } else if other != null {
        return other, Kid(cur, 1 - bit), Or(result, Pow2(i));
      }
      return null, cur, result;
    }

    /** djlc_bit_trie_min_xor: the smallest XOR of num, cut to the trie's range, with
        a live value. When there is none, the nodes left behind still lead the walk,
        always against num's bit: the result has as many leading bits as steps exist. */
    method MinXor(num: nat) returns (result: nat)
      requires Valid()
      ensures live != [] ==> IsMinXor(live, Low(num, maxBits), result) && result < Pow2(maxBits)
      ensures live == [] ==> exists i: nat :: AgainstEnds(num, i) && result == Pow2(maxBits) - Pow2(i)
      ensures live == [] ==> (result == 0 <==> root.Child(1 - BitAt(num, maxBits - 1)) == null)
    {
      var node: Node, i: nat := root, maxBits;
      ghost var cur: nat, level: nat := 1, maxBits;
      result := 0;
      RootLocated();
      WalkStart(live, maxBits, num);
      while i > 0
        invariant level == i && Located(i, cur, node) && MinWalk(live, maxBits, num, i, cur, result)
        invariant live == [] ==> Against(num, i, cur, result)
      {
        hide Valid;
        hide Located;
        hide MinWalk;
        hide AgainstPath;
        i := i - 1;
        AgainstStep(num, i, cur, result);
        var child: Node?;
        child, cur, result := MinChild(num, i, cur, node, result);
        if child == null {
          assert live == [] ==> AgainstEnds(num, level);
          break;
        }
        node := child;
        level := i;
      }
      WalkEnd(live, maxBits, num, level, cur, result);
      if live == [] {
        assert AgainstEnds(num, level);
        AgainstZero(num, level);
      }
    }

    /** The walk against num's bits has come to cur, i steps above the leaves. */
    ghost predicate Against(num: nat, i: nat, cur: nat, result: nat)
      reads this
    {
      i <= maxBits && cur in nodes && cur == AgainstPath(num, maxBits, i) && result == Pow2(maxBits) - Pow2(i)
    }

    /** The walk against num's bits ends i steps above the leaves: at a leaf, or where no node follows. */
    ghost predicate AgainstEnds(num: nat, i: nat)
      reads this
    {
      && i <= maxBits && AgainstPath(num, maxBits, i) in nodes
      && (i > 0 ==> AgainstPath(num, maxBits, i - 1) !in nodes)
    }

    lemma AgainstStep(num: nat, i: nat, cur: nat, result: nat)
      requires i < maxBits
      ensures AgainstPath(num, maxBits, i) == Kid(AgainstPath(num, maxBits, i + 1), 1 - BitAt(num, i))
      ensures Against(num, i + 1, cur, result) ==> Or(result, Pow2(i)) == Pow2(maxBits) - Pow2(i)
    {
      if Against(num, i + 1, cur, result) {
        AllBitsDown(maxBits, i, result);
      }
    }

    lemma AgainstZero(num: nat, i: nat)
      requires Linked() && AgainstEnds(num, i)
      ensures Pow2(maxBits) - Pow2(i) == 0 <==> root.Child(1 - BitAt(num, maxBits - 1)) == null
    {
      RootChild(1 - BitAt(num, maxBits - 1));
      assert AgainstPath(num, maxBits, maxBits) == 1;
      assert AgainstPath(num, maxBits, maxBits - 1) == 2 + 1 - BitAt(num, maxBits - 1);
      if i < maxBits {
        Pow2Monotone(i, maxBits);
        AgainstAbove(num, i, maxBits - 1);
        AncestorsExist(AgainstPath(num, maxBits, i), AgainstPath(num, maxBits, maxBits - 1));
      }
    }

    lemma {:induction false} AgainstAbove(num: nat, i: nat, j: nat)
      requires i <= j < maxBits
      ensures AgainstPath(num, maxBits, j) >= 2
      ensures Under(AgainstPath(num, maxBits, i), AgainstPath(num, maxBits, j))
      ensures AgainstPath(num, maxBits, i) >= 2
      decreases j - i
    {
      AgainstPositive(num, j + 1);
      if i < j {
        AgainstAbove(num, i + 1, j);
      }
    }

    lemma {:induction false} AgainstPositive(num: nat, i: nat)
      ensures AgainstPath(num, maxBits, i) >= 1
      decreases maxBits - i
    {
      if i < maxBits {
        AgainstPositive(num, i + 1);
      }
    }

    /** num's path ends at key, `stop`: at its leaf, or where no node follows. */
    ghost predicate StopsAt(num: nat, stop: nat)
      reads this
    {
      stop in nodes && exists i: nat :: EndsPath(num, i, stop)
    }

    ghost predicate EndsPath(num: nat, i: nat, stop: nat)
      reads this
    {
      i <= maxBits && stop == Path(num, maxBits, i) && (i > 0 ==> Path(num, maxBits, i - 1) !in nodes)
    }

    /** djlc_bit_trie_remove. A live value is taken out; any other number still
        lowers the counts on its path as far as the path exists. So the counts stay
        those of some collection exactly if the number was live, or the root had no
        child in its direction. */
    method Remove(num: nat) returns (ghost stop: nat)
      requires Valid()
      modifies this`live, nodes.Values
      ensures nodes == old(nodes) && Linked() && Covered()
      ensures Low(num, maxBits) in old(live) ==> Valid() && live == Without(old(live), Low(num, maxBits))
      ensures Low(num, maxBits) !in old(live) ==> live == old(live) && Counted(stop, -1) && StopsAt(num, stop)
      ensures Honest() <==> old(Low(num, maxBits) in live || root.Child(BitAt(num, maxBits - 1)) == null)
    {
      hide Counted;
      hide CountsAre;
      RootChild(BitAt(num, maxBits - 1));
      stop := CountOut(num);
      RootChild(BitAt(num, maxBits - 1));
      if Low(num, maxBits) in live {
        DropLive(Low(num, maxBits));
        ValidIsHonest();
      } else {
        RemoveHonestIff(num, stop);
        StopsAtRoot(num, stop);
      }
    }

    lemma RootChild(bit: nat)
      requires Linked() && bit < 2
      ensures root.Child(bit) == At(nodes, 2 + bit)
    {
      assert LinksOk(1);
    }

    lemma FirstChild()
      requires Valid() && maxBits == 2 && live == [Low(0, 2)]
      ensures live == [0] && Low(1, maxBits) !in live
      ensures BitAt(1, maxBits - 1) == 0 && root.Child(0) != null
    {
      assert Pow2(2) == 4;
      assert EndsBelow(2, 0, 2) by {
        assert Under(4, 2);
      }
      assert 0 in live;
      RootChild(0);
    }

    lemma ValidIsHonest()
      requires Valid()
      ensures Honest()
    {
      UnderRoot(0);
      assert CountsAre(live);
    }

    /** The walk stops at the root exactly if the root has no child in num's direction. */
    lemma StopsAtRoot(num: nat, stop: nat)
      requires Linked() && StopsAt(num, stop)
      ensures stop == 1 <==> root.Child(BitAt(num, maxBits - 1)) == null
    {
      var i: nat :| EndsPath(num, i, stop);
      PathStart(num, maxBits);
      PathStep(num, maxBits, maxBits - 1);
      RootChild(BitAt(num, maxBits - 1));
      if i < maxBits {
        PathAbove(num, i, maxBits - 1);
        AncestorsExist(stop, Path(num, maxBits, maxBits - 1));
      }
    }

    /** num's path goes down from each of its keys to the later ones. */
    lemma {:induction false} PathAbove(num: nat, i: nat, j: nat)
      requires i <= j < maxBits
      ensures Path(num, maxBits, i) >= 2 && Under(Path(num, maxBits, i), Path(num, maxBits, j))
      decreases j - i
    {
      PathStep(num, maxBits, i);
      if i < j {
        PathAbove(num, i + 1, j);
      }
    }

    /** The walk of djlc_bit_trie_remove. */
    method CountOut(num: nat) returns (ghost stop: nat)
      requires Valid()
      modifies nodes.Values
      ensures Linked() && Covered() && Counted(stop, -1) && StopsAt(num, stop)
      ensures Low(num, maxBits) in live ==> stop == Pow2(maxBits) + Low(num, maxBits)
    {
      var node: Node, i: nat := root, maxBits;
      PathStart(num, maxBits);
      UnderRoot(-1);
      while i > 0
        invariant Reached(num, i, node) && Counted(Path(num, maxBits, i), -1)
      {
        hide Reached;
        hide Counted;
        hide Path;
        i := i - 1;
        ReachedLink(num, i, node);
        var child := node.Child(BitAt(num, i));
        if child == null {
          StopHere(num, i, node);
          return Path(num, maxBits, i + 1);
        }
        Uncount(num, i, node, child);
        node := child;
      }
      stop := Path(num, maxBits, 0);
      assert EndsPath(num, 0, stop);
    }

    lemma StopHere(num: nat, i: nat, node: Node)
      requires i < maxBits && Reached(num, i + 1, node) && node.Child(BitAt(num, i)) == null
      ensures Linked() && Covered() && Low(num, maxBits) !in live && StopsAt(num, Path(num, maxBits, i + 1))
    {
      ReachedLink(num, i, node);
      NotLive(num, i);
      assert EndsPath(num, i + 1, Path(num, maxBits, i + 1));
    }

    method Uncount(num: nat, i: nat, node: Node, child: Node)
      requires i < maxBits && Reached(num, i + 1, node) && Counted(Path(num, maxBits, i + 1), -1)
      requires node.Child(BitAt(num, i)) == child
      modifies child`count
      ensures Reached(num, i, child) && Counted(Path(num, maxBits, i), -1)
    {
      ReachedLink(num, i, node);
      hide Linked;
      hide Covered;
      hide Counted;
      hide Path;
      Bump(Path(num, maxBits, i), child, -1);
    }

    /** Once every node on the path has counted it out, x is live once less. */
    ghost method DropLive(x: nat)
      requires Linked() && Covered() && x in live && Counted(Pow2(maxBits) + x, -1)
      modifies this`live
      ensures Valid() && live == Without(old(live), x)
    {
      WithoutMultiset(live, x);
      forall k | k in nodes && k >= 2
        ensures nodes[k].count == Tally(Without(live, x), maxBits, k)
      {
        WithoutTally(live, x, maxBits, k);
      }
      hide Linked;
      hide Tally;
      hide Without;
      hide EndsBelow;
      live := Without(live, x);
      assert Covered();
    }

    /** The counts are those of some collection of values. */
    ghost predicate Honest()
      reads this, nodes.Values`count
    {
      exists values: seq<nat> :: CountsAre(values)
    }

    ghost predicate CountsAre(values: seq<nat>)
      reads this, nodes.Values`count
    {
      forall k | k in nodes && k >= 2 :: nodes[k].count == Tally(values, maxBits, k)
    }

    /** Removing a number that is not live leaves honest counts exactly if it changed
        none, the root having no child in its direction. */
    lemma RemoveHonestIff(num: nat, stop: nat)
      requires Linked() && Covered() && Counted(stop, -1) && StopsAt(num, stop) && Low(num, maxBits) !in live
      ensures Honest() <==> stop == 1
    {
      var i: nat :| EndsPath(num, i, stop);
      if stop == 1 {
        UnderRoot(-1);
        assert CountsAre(live);
      } else {
        forall values: seq<nat>
          ensures !CountsAre(values)
        {
          DishonestCounts(num, i, stop, values);
        }
      }
    }

    lemma DishonestCounts(num: nat, i: nat, stop: nat, values: seq<nat>)
      requires Linked() && Covered() && Counted(stop, -1) && Low(num, maxBits) !in live
      requires stop in nodes && stop != 1 && EndsPath(num, i, stop)
      ensures !CountsAre(values)
    {
      assert nodes[stop].count == Tally(live, maxBits, stop) - 1;
      if i == 0 {
        PathStart(num, maxBits);
        TallyLeaf(live, maxBits, Low(num, maxBits));
      } else {
        PathStep(num, maxBits, i - 1);
        var missing, other := Path(num, maxBits, i - 1), Kid(stop, 1 - BitAt(num, i - 1));
        NoNodeNoValue(missing);
        TallyChildren(live, maxBits, stop);
        TallyChildren(values, maxBits, stop);
        UnderLess(stop, other);
        if other in nodes {
          assert nodes[other].count == Tally(live, maxBits, other);
        } else {
          NoNodeNoValue(other);
        }
      }
    }
  }

  /** One value inserted and another number removed: the counts are wrong. */
  method DishonestRemoval() returns (trie: BitTrie)
    ensures fresh(trie) && trie.live == [0] && !trie.Honest()
  {
    trie := new BitTrie(2);
    trie.Insert(0);
    trie.FirstChild();
    hide *;
    var stop := trie.Remove(1);
  }

  lemma {:induction false} XorSymmetric(a: nat, b: nat)
    ensures Xor(a, b) == Xor(b, a)
    decreases a + b
  {
    if a + b > 0 {
      XorSymmetric(a / 2, b / 2);
    }
  }

  /** Ints that are not negative. */
  ghost predicate NonNegativeInts(nums: seq<nat>) {
    forall i | 0 <= i < |nums| :: nums[i] < 0x8000_0000
  }

  /** djlc_bit_trie_max_xor_pair, for numbers that are not negative: the largest XOR
      of two entries, 0 for no entries. No bit 31 is ever set, so it fits an int. */
  method MaxXorPair(nums: array<nat>) returns (best: nat)
    requires NonNegativeInts(nums[..])
    ensures BestPair(nums[..], nums.Length, best) && best < 0x8000_0000
  {
    hide BitTrie.Valid;
    hide BitTrie.Repr;
    hide IsReverse;
    hide BestPair;
    hide NonNegativeInts;
    ghost var s := nums[..];
    PairStart(s);
    var trie := new BitTrie(32);
    best := 0;
    var n := 0;
    while n < nums.Length
      invariant n <= nums.Length && trie.Valid() && trie.maxBits == 32 && fresh(trie)
      invariant forall x | x in trie.Repr() :: fresh(x)
      invariant IsReverse(trie.live, s, n) && BestPair(s, n, best)
    {
      best := PairRound(trie, nums[n], s, n, best);
      n := n + 1;
    }
    PairBound(s, best);
  }

  /** Inserts the next number and compares it with all up to it. */
  method PairRound(trie: BitTrie, num: nat, ghost nums: seq<nat>, ghost n: nat, best: nat) returns (next: nat)
    requires trie.Valid() && trie.maxBits == 32 && n < |nums| && num == nums[n] && NonNegativeInts(nums)
    requires IsReverse(trie.live, nums, n) && BestPair(nums, n, best)
    modifies trie, trie.Repr()
    ensures trie.Valid() && forall x | x in trie.Repr() :: x in old(trie.Repr()) || fresh(x)
    ensures IsReverse(trie.live, nums, n + 1) && BestPair(nums, n + 1, next)
  {
    hide BitTrie.Valid;
    hide BitTrie.Repr;
    hide IsReverse;
    hide BestPair;
    hide IsMaxXor;
    hide Low;
    hide Pow2;
    FitsTrie(num, trie.maxBits);
    ReverseStep(trie.live, nums, n);
    trie.Insert(num);
    var x := trie.MaxXor(num);
    PairStep(nums, n, trie.live, best, x);
    next := if x > best then x else best;
  }

  /** live is the first n numbers, last first. */
  ghost predicate IsReverse(live: seq<nat>, nums: seq<nat>, n: nat) {
    |live| == n <= |nums| && forall k | 0 <= k < n :: live[k] == nums[n - 1 - k]
  }

  /** best is the largest XOR of two of the first n numbers, 0 if n is 0. */
  ghost predicate BestPair(nums: seq<nat>, n: nat, best: nat)
    requires n <= |nums|
  {
    && (forall i, j | 0 <= i < n && 0 <= j < n :: Xor(nums[i], nums[j]) <= best)
    && (if n == 0 then best == 0 else exists i, j :: 0 <= i < n && 0 <= j < n && Xor(nums[i], nums[j]) == best)
  }

  lemma ReverseStep(live: seq<nat>, nums: seq<nat>, n: nat)
    requires IsReverse(live, nums, n) && n < |nums|
    ensures IsReverse([nums[n]] + live, nums, n + 1)
  {
  }

  lemma PairStep(nums: seq<nat>, n: nat, live: seq<nat>, best: nat, x: nat)
    requires n < |nums| && BestPair(nums, n, best) && IsMaxXor(live, nums[n], x)
    requires IsReverse(live, nums, n + 1)
    ensures BestPair(nums, n + 1, if x > best then x else best)
  {
    var best' := if x > best then x else best;
    forall i, j | 0 <= i <= n && 0 <= j <= n
      ensures Xor(nums[i], nums[j]) <= best'
    {
      XorSymmetric(nums[i], nums[j]);
      assert live[n - i] == nums[i] && live[n - j] == nums[j];
      assert live[n - i] in live && live[n - j] in live;
    }
    var y :| y in live && Xor(y, nums[n]) == x;
    var k :| 0 <= k <= n && live[k] == y;
    assert Xor(nums[n - k], nums[n]) == x;
  }

  lemma FitsTrie(x: nat, b: nat)
    requires x < 0x8000_0000 && b == 32
    ensures Low(x, b) == x
  {
    WordSizes();
  }

  lemma PairStart(nums: seq<nat>)
    ensures IsReverse([], nums, 0) && BestPair(nums, 0, 0)
  {
  }

  lemma PairBound(nums: seq<nat>, best: nat)
    requires BestPair(nums, |nums|, best) && NonNegativeInts(nums)
    ensures best < 0x8000_0000
  {
    if |nums| > 0 {
      var i, j :| 0 <= i < |nums| && 0 <= j < |nums| && Xor(nums[i], nums[j]) == best;
      XorFitsInt(nums[i], nums[j], 31);
    }
  }

  lemma XorFitsInt(x: nat, y: nat, b: nat)
    requires x < 0x8000_0000 && y < 0x8000_0000 && b == 31
    ensures Xor(x, y) < 0x8000_0000
  {
    WordSizes();
    XorBound(x, y, b);
  }
}
