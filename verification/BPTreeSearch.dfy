/** The search on any tree that the validator accepts, not only on trees that inserts have built. */
module BPTreeSearch {
  import opened BPTreeGraph
  import opened BPTree
  import opened BPTreeValidate

  /** A leaf below n holds the key at position `at`. */
  ghost predicate HoldsKey(n: Node, leaf: Node, at: nat, key: Key, rank: map<Node, nat>)
    reads rank.Keys, leaf
    requires Finite(rank) && n in rank
  {
    && Under(n, leaf, rank) && leaf.isLeaf && at < leaf.keyCount && at < |leaf.keys| && at < |leaf.offsets|
    && leaf.keys[at] == key
  }

  /** What is known of the node that a descent has come to. */
  ghost predicate OnTheWay(root: Node, n: Node, key: Key, parent: Node?, lower: Bound, upper: Bound, depth: nat, d: nat, rank: map<Node, nat>)
    reads rank.Keys
    requires Finite(rank) && root in rank
  {
    && n in rank && Accepts(n, parent, lower, upper, depth, d, rank)
    && Under(root, n, rank) && Descend(root, key, rank) == Descend(n, key, rank)
  }

  lemma {:induction false} UnderChild(n: Node, m: Node, i: nat, rank: map<Node, nat>)
    requires Finite(rank) && n in rank && m in rank && Under(n, m, rank) && !m.isLeaf
    requires i <= m.keyCount && i < ORDER && i < |m.children| && m.children[i] != null && m.children[i] in rank
    ensures Under(n, m.children[i], rank)
    decreases rank[n]
  {
    assert FiniteAt(n, rank);
    if n == m {
      assert Under(m.children[i], m.children[i], rank);
    } else {
      var j :| 0 <= j <= n.keyCount && j < ORDER && n.children[j] != null && Under(n.children[j], m, rank);
      UnderChild(n.children[j], m, i, rank);
    }
  }

  lemma StepDown(root: Node, n: Node, key: Key, parent: Node?, lower: Bound, upper: Bound, depth: nat, d: nat, rank: map<Node, nat>)
    requires Finite(rank) && root in rank && OnTheWay(root, n, key, parent, lower, upper, depth, d, rank) && !n.isLeaf
    ensures n.keyCount <= MAX_KEYS && |n.keys| == MAX_KEYS && |n.children| == ORDER
    ensures var i := ChildIndex(n.keys[..n.keyCount], key);
            && n.children[i] != null && n.children[i] in rank && rank[n.children[i]] < rank[n]
            && OnTheWay(root, n.children[i], key, n, ChildLower(n, i, lower), ChildUpper(n, i, upper), depth + 1, d, rank)
  {
    assert FiniteAt(n, rank);
    var i := ChildIndex(n.keys[..n.keyCount], key);
    assert ChildAccepted(n, i, lower, upper, depth, d, rank);
    UnderChild(root, n, i, rank);
  }

  /** find_leaf_node on an accepted tree. */
  method FindLeafNode(root: Node, key: Key, ghost d: nat, ghost rank: map<Node, nat>) returns (leaf: Node)
    requires Finite(rank) && root in rank && Accepts(root, null, NONE, NONE, 0, d, rank)
    ensures leaf in rank && leaf.isLeaf && Under(root, leaf, rank) && Descend(root, key, rank) == leaf
    ensures |leaf.keys| == |leaf.offsets| == MAX_KEYS && leaf.keyCount <= MAX_KEYS && Increasing(leaf.keys[..leaf.keyCount])
  {
    hide Finite;
    leaf := root;
    ghost var parent: Node?, lower, upper, depth := null, NONE, NONE, 0;
    while !leaf.isLeaf
      invariant OnTheWay(root, leaf, key, parent, lower, upper, depth, d, rank)
      decreases if leaf in rank then rank[leaf] else 0
    {
      StepDown(root, leaf, key, parent, lower, upper, depth, d, rank);
      ghost var ks := leaf.keys[..leaf.keyCount];
      var i := 0;
      while i < leaf.keyCount && key >= leaf.keys[i]
        invariant i <= leaf.keyCount && (i > 0 ==> leaf.keys[i - 1] <= key)
      {
        i := i + 1;
      }
      ChildIndexIs(ks, key, i);
      parent, lower, upper, depth := leaf, ChildLower(leaf, i, lower), ChildUpper(leaf, i, upper), depth + 1;
      leaf := leaf.children[i];
    }
  }

  /** bptree_search on an accepted tree: a key is found exactly when some leaf holds it, and then with the offset that
      stands beside it. */
  method SearchAccepted(root: Node, key: Key, ghost d: nat, ghost rank: map<Node, nat>) returns (offset: int, found: bool)
    requires Finite(rank) && root in rank && Accepts(root, null, NONE, NONE, 0, d, rank)
    ensures forall leaf: Node, at: nat :: HoldsKey(root, leaf, at, key, rank) ==> found && offset == leaf.offsets[at]
    ensures found ==> exists leaf: Node, at: nat :: HoldsKey(root, leaf, at, key, rank) && leaf.offsets[at] == offset
  {
    hide Finite, Accepts, Descend, Under, Increasing;
    var leaf := FindLeafNode(root, key, d, rank);
    forall other: Node, at: nat | HoldsKey(root, other, at, key, rank) ensures other == leaf {
      AcceptedFinds(root, null, NONE, NONE, 0, d, other, at, rank);
    }
    for i := 0 to leaf.keyCount
      invariant forall j :: 0 <= j < i ==> leaf.keys[j] != key
    {
      if leaf.keys[i] == key {
        assert HoldsKey(root, leaf, i, key, rank);
        forall at: nat | at < leaf.keyCount && leaf.keys[at] == key ensures at == i {
          OnePosition(leaf, i, at);
        }
        return leaf.offsets[i], true;
      }
    }
    return 0, false;
  }
}
