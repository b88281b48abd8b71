/** The structural validator, on any finite heap of nodes, well-formed or not.

    A ghost rank that goes down from parent to child says that a tree is finite; a second
    one that goes down along `next` says that a chain is.  The validator is proved to decide
    a declarative predicate; every tree built by inserts satisfies it, and a tree that
    satisfies it is searched correctly. */
module BPTreeValidate {
  import opened BPTreeGraph
  import opened BPTree
  import opened BPTreeFacts

  /** The C struct fixes the array lengths; nothing else is assumed of a node. */
  ghost predicate Laid(n: Node)
    reads n
  {
    |n.keys| == MAX_KEYS && |n.offsets| == MAX_KEYS && |n.children| == ORDER
  }

  ghost predicate FiniteAt(n: Node, rank: map<Node, nat>)
    reads n
    requires n in rank
  {
    && Laid(n)
    && (!n.isLeaf ==> forall i :: 0 <= i <= n.keyCount && i < ORDER && n.children[i] != null ==>
          n.children[i] in rank && rank[n.children[i]] < rank[n])
  }

  ghost predicate Finite(rank: map<Node, nat>)
    reads rank.Keys
  {
    forall n :: n in rank ==> FiniteAt(n, rank)
  }

  /** An optional bound on keys. */
  datatype Bound = Bound(has: bool, key: Key)

  ghost predicate InBounds(k: Key, lower: Bound, upper: Bound) {
    (lower.has ==> lower.key <= k) && (upper.has ==> k < upper.key)
  }

  ghost predicate BoundsOk(lower: Bound, upper: Bound) {
    lower.has && upper.has ==> lower.key < upper.key
  }

  function ChildLower(n: Node, i: nat, lower: Bound): Bound
    reads n
    requires i <= n.keyCount <= |n.keys|
  {
    if i > 0 then Bound(true, n.keys[i - 1]) else lower
  }

  function ChildUpper(n: Node, i: nat, upper: Bound): Bound
    reads n
    requires i <= n.keyCount <= |n.keys|
  {
    if i < n.keyCount then Bound(true, n.keys[i]) else upper
  }

  /** The subtree at n is a B+Tree over the bounds, with its leaves at depth leafDepth. */
  ghost predicate Accepts(n: Node?, parent: Node?, lower: Bound, upper: Bound, depth: nat, leafDepth: nat, rank: map<Node, nat>)
    reads rank.Keys
    requires Finite(rank) && (n != null ==> n in rank)
    decreases if n == null then 0 else rank[n], 1
  {
    && n != null && FiniteAt(n, rank)
    && n.parent == parent
    && n.keyCount <= MAX_KEYS
    && Increasing(n.keys[..n.keyCount])
    && if n.isLeaf then
         (forall i :: 0 <= i < n.keyCount ==> InBounds(n.keys[i], lower, upper)) && depth == leafDepth
       else
         forall i :: 0 <= i <= n.keyCount ==> ChildAccepted(n, i, lower, upper, depth, leafDepth, rank)
  }

  ghost predicate ChildAccepted(n: Node, i: nat, lower: Bound, upper: Bound, depth: nat, leafDepth: nat, rank: map<Node, nat>)
    reads rank.Keys
    requires Finite(rank) && n in rank && FiniteAt(n, rank) && !n.isLeaf && i <= n.keyCount <= MAX_KEYS
    decreases rank[n], 0
  {
    && n.children[i] != null
    && BoundsOk(ChildLower(n, i, lower), ChildUpper(n, i, upper))
    && Accepts(n.children[i], n, ChildLower(n, i, lower), ChildUpper(n, i, upper), depth + 1, leafDepth, rank)
  }

  /** The leaves of a subtree are at one depth only. */
  lemma {:induction false} OneLeafDepth(n: Node?, parent: Node?, lower: Bound, upper: Bound, depth: nat, d: nat, e: nat, rank: map<Node, nat>)
    requires Finite(rank) && (n != null ==> n in rank)
    requires Accepts(n, parent, lower, upper, depth, d, rank) && Accepts(n, parent, lower, upper, depth, e, rank)
    ensures d == e
    decreases if n == null then 0 else rank[n]
  {
    if !n.isLeaf {
      assert ChildAccepted(n, 0, lower, upper, depth, d, rank) && ChildAccepted(n, 0, lower, upper, depth, e, rank);
      OneLeafDepth(n.children[0], n, ChildLower(n, 0, lower), ChildUpper(n, 0, upper), depth + 1, d, e, rank);
    }
  }

  datatype ValidationState = Unset | LeafDepth(depth: nat)

  /** Checks the subtree at `node` and records the depth of the first leaf. */
  method ValidateNode(node: Node?, parent: Node?, lower: Bound, upper: Bound, depth: nat, before: ValidationState,
                      ghost rank: map<Node, nat>)
    returns (ok: bool, state: ValidationState)
    requires Finite(rank) && (node != null ==> node in rank)
    ensures ok ==> state.LeafDepth? && (before.LeafDepth? ==> state == before)
    ensures ok ==> Accepts(node, parent, lower, upper, depth, state.depth, rank)
    ensures !ok ==> forall d :: (before.LeafDepth? ==> d == before.depth) ==>
              !Accepts(node, parent, lower, upper, depth, d, rank)
    decreases if node == null then 0 else rank[node]
  {
    state := before;
    if node == null {
      return false, state;
    }
    assert FiniteAt(node, rank);
    if node.parent != parent {
      return false, state;
    }
    if node.keyCount > MAX_KEYS {
      return false, state;
    }
    ghost var ks := node.keys[..node.keyCount];
    var i := 1;
    while i < node.keyCount
      invariant 1 <= i
      invariant forall j :: 0 < j < i && j < node.keyCount ==> ks[j - 1] < ks[j]
    {
      if node.keys[i - 1] >= node.keys[i] {
        assert !(ks[i - 1] < ks[i]);
        return false, state;
      }
      i := i + 1;
    }
    AdjacentIncreasing(ks);
    if node.isLeaf {
      i := 0;
      while i < node.keyCount
        invariant 0 <= i <= node.keyCount
        invariant forall j :: 0 <= j < i ==> InBounds(node.keys[j], lower, upper)
      {
        if (lower.has && node.keys[i] < lower.key) || (upper.has && node.keys[i] >= upper.key) {
          assert !InBounds(node.keys[i], lower, upper);
          return false, state;
        }
        i := i + 1;
      }
      if state == Unset {
        state := LeafDepth(depth);
      } else if state.depth != depth {
        return false, state;
      }
      return true, state;
    }
    ok, state := ValidateChildren(node, parent, lower, upper, depth, before, rank);
  }

  /** An accepted node has every child accepted at the one leaf depth. */
  lemma AcceptedChild(n: Node, parent: Node?, lower: Bound, upper: Bound, depth: nat, d: nat, i: nat, rank: map<Node, nat>)
    requires Finite(rank) && n in rank && FiniteAt(n, rank) && !n.isLeaf && i <= n.keyCount <= MAX_KEYS
    ensures Accepts(n, parent, lower, upper, depth, d, rank) ==> ChildAccepted(n, i, lower, upper, depth, d, rank)
    ensures Accepts(n, parent, lower, upper, depth, d, rank) ==>
      forall e :: ChildAccepted(n, 0, lower, upper, depth, e, rank) ==> d == e
  {
    if Accepts(n, parent, lower, upper, depth, d, rank) {
      forall e | ChildAccepted(n, 0, lower, upper, depth, e, rank)
        ensures d == e
      {
        assert ChildAccepted(n, 0, lower, upper, depth, d, rank);
        OneLeafDepth(n.children[0], n, ChildLower(n, 0, lower), ChildUpper(n, 0, upper), depth + 1, d, e, rank);
      }
    }
  }

  lemma AllAccepted(n: Node, parent: Node?, lower: Bound, upper: Bound, depth: nat, d: nat, rank: map<Node, nat>)
    requires Finite(rank) && n in rank && FiniteAt(n, rank) && !n.isLeaf && n.parent == parent && n.keyCount <= MAX_KEYS
    requires Increasing(n.keys[..n.keyCount])
    requires forall i :: 0 <= i <= n.keyCount ==> ChildAccepted(n, i, lower, upper, depth, d, rank)
    ensures Accepts(n, parent, lower, upper, depth, d, rank)
  {
    hide Increasing, ChildAccepted;
  }

  lemma ChildDecides(n: Node, i: nat, lower: Bound, upper: Bound, depth: nat, d: nat, rank: map<Node, nat>)
    requires Finite(rank) && n in rank && FiniteAt(n, rank) && !n.isLeaf && i <= n.keyCount <= MAX_KEYS
    ensures ChildAccepted(n, i, lower, upper, depth, d, rank) <==>
            && n.children[i] != null && BoundsOk(ChildLower(n, i, lower), ChildUpper(n, i, upper))
            && n.children[i] in rank
            && Accepts(n.children[i], n, ChildLower(n, i, lower), ChildUpper(n, i, upper), depth + 1, d, rank)
  {
    hide Accepts, Increasing;
  }

  /** The loop over the children of an internal node. */
  method ValidateChildren(node: Node, parent: Node?, lower: Bound, upper: Bound, depth: nat, before: ValidationState,
                          ghost rank: map<Node, nat>)
    returns (ok: bool, state: ValidationState)
    requires Finite(rank) && node in rank && FiniteAt(node, rank) && !node.isLeaf
    requires node.parent == parent && node.keyCount <= MAX_KEYS && Increasing(node.keys[..node.keyCount])
    ensures ok ==> state.LeafDepth? && (before.LeafDepth? ==> state == before)
    ensures ok ==> Accepts(node, parent, lower, upper, depth, state.depth, rank)
    ensures !ok ==> forall d :: (before.LeafDepth? ==> d == before.depth) ==>
              !Accepts(node, parent, lower, upper, depth, d, rank)
    decreases rank[node], 0
  {
    hide Accepts, ChildAccepted, Finite, FiniteAt, Increasing;
    state := before;
    NodeLaid(node, rank);
    for i := 0 to node.keyCount + 1
      invariant before.LeafDepth? ==> state == before
      invariant if i > 0 then state.LeafDepth? else state == before
      invariant forall j :: 0 <= j < i ==> ChildAccepted(node, j, lower, upper, depth, state.depth, rank)
    {
      assert i > 0 ==> ChildAccepted(node, 0, lower, upper, depth, state.depth, rank);
      forall d
        ensures Accepts(node, parent, lower, upper, depth, d, rank) ==> ChildAccepted(node, i, lower, upper, depth, d, rank)
        ensures Accepts(node, parent, lower, upper, depth, d, rank) && i > 0 ==> d == state.depth
      {
        AcceptedChild(node, parent, lower, upper, depth, d, i, rank);
      }
      forall d
        ensures ChildAccepted(node, i, lower, upper, depth, d, rank) <==>
                && node.children[i] != null && BoundsOk(ChildLower(node, i, lower), ChildUpper(node, i, upper))
                && node.children[i] in rank
                && Accepts(node.children[i], node, ChildLower(node, i, lower), ChildUpper(node, i, upper), depth + 1, d, rank)
      {
        ChildDecides(node, i, lower, upper, depth, d, rank);
      }
      var childLower, childUpper := ChildLower(node, i, lower), ChildUpper(node, i, upper);
      if node.children[i] == null {
        return false, state;
      }
      if childLower.has && childUpper.has && childLower.key >= childUpper.key {
        return false, state;
      }
      ChildRanked(node, i, rank);
      ghost var known := state;
      ok, state := ValidateNode(node.children[i], node, childLower, childUpper, depth + 1, state, rank);
      if !ok {
        forall d | before.LeafDepth? ==> d == before.depth
          ensures !Accepts(node, parent, lower, upper, depth, d, rank)
        {
          ChildDecides(node, i, lower, upper, depth, d, rank);
          AcceptedChild(node, parent, lower, upper, depth, d, i, rank);
          assert known.LeafDepth? && d != known.depth ==> i > 0 && ChildAccepted(node, 0, lower, upper, depth, known.depth, rank);
        }
        return false, state;
      }
    }
    AllAccepted(node, parent, lower, upper, depth, state.depth, rank);
    ok := true;
  }

  lemma NodeLaid(n: Node, rank: map<Node, nat>)
    requires n in rank && FiniteAt(n, rank)
    ensures |n.keys| == MAX_KEYS && |n.children| == ORDER
  {
  }

  lemma ChildRanked(n: Node, i: nat, rank: map<Node, nat>)
    requires n in rank && FiniteAt(n, rank) && !n.isLeaf && i <= n.keyCount && i < ORDER && i < |n.children|
    requires n.children[i] != null
    ensures n.children[i] in rank && rank[n.children[i]] < rank[n]
  {
  }

  // ----- The whole tree -----

  /** Every node met from n along `next` is laid out and the walk ends. */
  ghost predicate ChainFinite(steps: map<Node, nat>)
    reads steps.Keys
  {
    forall n :: n in steps ==> Laid(n) && (n.next != null ==> n.next in steps && steps[n.next] < steps[n])
  }

  ghost function ChainFrom(n: Node?, steps: map<Node, nat>): (ns: seq<Node>)
    reads steps.Keys
    requires ChainFinite(steps) && (n != null ==> n in steps)
    ensures forall m :: m in ns ==> m in steps
    decreases if n == null then 0 else steps[n] + 1
  {
    if n == null then [] else [n] + ChainFrom(n.next, steps)
  }

  ghost function LeftmostFrom(n: Node, rank: map<Node, nat>): Node?
    reads rank.Keys
    requires Finite(rank) && n in rank
    decreases rank[n]
  {
    assert FiniteAt(n, rank);
    if n.isLeaf then n
    else if n.children[0] == null then null
    else LeftmostFrom(n.children[0], rank)
  }

  /** Only leaves, all with their keys inside the array. */
  ghost predicate AllLeaves(ns: seq<Node>)
    reads ns
  {
    forall n :: n in ns ==> n.isLeaf && Laid(n) && n.keyCount <= MAX_KEYS
  }

  ghost function KeysAlong(ns: seq<Node>): seq<Key>
    reads ns
    requires AllLeaves(ns)
  {
    if ns == [] then []
    else
      var n := ns[0];
      assert n in ns && Laid(n);
      n.keys[..n.keyCount] + KeysAlong(ns[1..])
  }

  const NONE: Bound := Bound(false, 0)

  ghost predicate RootAccepted(root: Node, rank: map<Node, nat>)
    reads rank.Keys
    requires Finite(rank) && root in rank
  {
    exists d :: Accepts(root, null, NONE, NONE, 0, d, rank)
  }

  /** The chain consists of leaves, and their keys rise and are as many as the tree says. */
  ghost predicate ChainAccepted(ns: seq<Node>, keyCount: nat)
    reads ns
  {
    && AllLeaves(ns)
    && Increasing(KeysAlong(ns))
    && |KeysAlong(ns)| == keyCount
  }

  /** What the caller must provide for the walk to end and stay inside the nodes. */
  ghost predicate Walkable(root: Node, rank: map<Node, nat>, steps: map<Node, nat>)
    reads rank.Keys, steps.Keys
  {
    && Finite(rank) && root in rank && ChainFinite(steps)
    && (RootAccepted(root, rank) ==>
          && (LeftmostFrom(root, rank) != null ==> LeftmostFrom(root, rank) in steps)
          && (forall n :: n in steps && n.isLeaf ==> n.keyCount <= MAX_KEYS))
  }

  ghost predicate TreeAccepted(t: Tree, rank: map<Node, nat>, steps: map<Node, nat>)
    reads t, rank.Keys, steps.Keys
    requires t.root != null ==> Walkable(t.root, rank, steps)
  {
    if t.root == null then t.keyCount == 0
    else
      && RootAccepted(t.root, rank)
      && ChainAccepted(ChainFrom(LeftmostFrom(t.root, rank), steps), t.keyCount)
  }

  method FindLeftmostLeaf(root: Node, ghost rank: map<Node, nat>) returns (leaf: Node?)
    requires Finite(rank) && root in rank
    ensures leaf == LeftmostFrom(root, rank)
  {
    var node: Node? := root;
    while node != null && !node.isLeaf
      invariant node != null ==> node in rank && LeftmostFrom(node, rank) == LeftmostFrom(root, rank)
      invariant node == null ==> LeftmostFrom(root, rank) == null
      decreases if node == null then 0 else rank[node] + 1
    {
      assert FiniteAt(node, rank);
      node := node.children[0];
    }
    leaf := node;
  }

  /** The checks of one leaf of the chain against the last key seen so far. */
  method WalkLeaf(leaf: Node, hasPrevious: bool, previous: Key) returns (ok: bool, last: Key)
    requires Laid(leaf) && leaf.keyCount <= MAX_KEYS
    ensures ok <==> Increasing((if hasPrevious then [previous] else []) + leaf.keys[..leaf.keyCount])
    ensures ok ==> last == if leaf.keyCount > 0 then leaf.keys[leaf.keyCount - 1] else previous
  {
    last := previous;
    var has := hasPrevious;
    ghost var all := (if hasPrevious then [previous] else []) + leaf.keys[..leaf.keyCount];
    ghost var off := if hasPrevious then 1 else 0;
    for i := 0 to leaf.keyCount
      invariant has <==> i > 0 || hasPrevious
      invariant last == if i > 0 then leaf.keys[i - 1] else previous
      invariant forall j :: 0 < j < off + i ==> all[j - 1] < all[j]
    {
      assert all[off + i] == leaf.keys[i] && (has ==> all[off + i - 1] == last);
      if has && last >= leaf.keys[i] {
        return false, last;
      }
      last := leaf.keys[i];
      has := true;
    }
    AdjacentIncreasing(all);
    ok := true;
  }

  /** Comparing neighbours is enough. */
  lemma {:induction false} AdjacentIncreasing(ks: seq<Key>)
    requires forall i :: 0 < i < |ks| ==> ks[i - 1] < ks[i]
    ensures Increasing(ks)
  {
    if |ks| > 1 {
      var front := ks[..|ks| - 1];
      assert forall i :: 0 <= i < |front| ==> front[i] == ks[i];
      AdjacentIncreasing(front);
      forall i, j | 0 <= i < j < |ks| ensures ks[i] < ks[j] {
        if j == |ks| - 1 {
          assert front[|front| - 1] < ks[j] && (i < |front| - 1 ==> front[i] < front[|front| - 1]);
        } else {
          assert front[i] < front[j];
        }
      }
    }
  }

  lemma IncreasingConcat(a: seq<Key>, b: seq<Key>)
    requires Increasing(a)
    ensures Increasing(a + b) <==> Increasing((if a == [] then [] else [a[|a| - 1]]) + b)
  {
    var t := (if a == [] then [] else [a[|a| - 1]]) + b;
    if Increasing(t) {
      forall i | 0 < i < |a + b|
        ensures (a + b)[i - 1] < (a + b)[i]
      {
        if i >= |a| && a != [] {
          assert t[i - |a|] < t[i - |a| + 1];
        } else if a == [] {
          assert t[i - 1] < t[i];
        }
      }
      AdjacentIncreasing(a + b);
    }
    if Increasing(a + b) && a != [] {
      assert forall i :: 0 <= i < |t| ==> t[i] == (a + b)[|a| - 1 + i];
    }
  }

  lemma IncreasingPrefix(a: seq<Key>, b: seq<Key>)
    ensures Increasing(a + b) ==> Increasing(a)
  {
    assert forall i :: 0 <= i < |a| ==> a[i] == (a + b)[i];
  }

  /** The rest of the walk succeeds when the keys seen so far are `seen`. */
  ghost predicate WalkOk(n: Node?, seen: seq<Key>, keyCount: nat, steps: map<Node, nat>)
    reads steps.Keys
    requires ChainFinite(steps) && (n != null ==> n in steps)
    requires forall m :: m in steps && m.isLeaf ==> m.keyCount <= MAX_KEYS
    decreases if n == null then 0 else steps[n] + 1
  {
    if n == null then |seen| == keyCount
    else n.isLeaf && Increasing(seen + n.keys[..n.keyCount]) && WalkOk(n.next, seen + n.keys[..n.keyCount], keyCount, steps)
  }

  /** Checking leaf by leaf is checking the whole chain. */
  lemma {:induction false} WalkIsChain(n: Node?, seen: seq<Key>, keyCount: nat, steps: map<Node, nat>)
    requires ChainFinite(steps) && (n != null ==> n in steps)
    requires forall m :: m in steps && m.isLeaf ==> m.keyCount <= MAX_KEYS
    requires Increasing(seen)
    ensures WalkOk(n, seen, keyCount, steps) <==>
      var ns := ChainFrom(n, steps);
      && AllLeaves(ns)
      && Increasing(seen + KeysAlong(ns)) && |seen + KeysAlong(ns)| == keyCount
    decreases if n == null then 0 else steps[n] + 1
  {
    hide Increasing, KeysAlong, AllLeaves;
    var ns := ChainFrom(n, steps);
    if n == null {
      NoLeaves();
      assert seen + [] == seen;
    } else {
      var rest := ChainFrom(n.next, steps);
      LeavesCons(n, rest);
      if n.isLeaf {
        var ks := n.keys[..n.keyCount];
        if Increasing(seen + ks) {
          WalkIsChain(n.next, seen + ks, keyCount, steps);
        }
        if AllLeaves(rest) {
          assert seen + (ks + KeysAlong(rest)) == (seen + ks) + KeysAlong(rest);
          IncreasingPrefix(seen + ks, KeysAlong(rest));
        }
      }
    }
  }

  lemma NoLeaves()
    ensures AllLeaves([]) && KeysAlong([]) == []
  {
  }

  lemma LeavesCons(n: Node, rest: seq<Node>)
    ensures AllLeaves([n] + rest) <==> n.isLeaf && Laid(n) && n.keyCount <= MAX_KEYS && AllLeaves(rest)
    ensures AllLeaves([n] + rest) ==> KeysAlong([n] + rest) == n.keys[..n.keyCount] + KeysAlong(rest)
  {
    assert ([n] + rest)[1..] == rest;
    assert n in [n] + rest && (forall m :: m in rest ==> m in [n] + rest);
  }

  lemma WalkIsAccepted(n: Node?, keyCount: nat, steps: map<Node, nat>)
    requires ChainFinite(steps) && (n != null ==> n in steps)
    requires forall m :: m in steps && m.isLeaf ==> m.keyCount <= MAX_KEYS
    ensures WalkOk(n, [], keyCount, steps) <==> ChainAccepted(ChainFrom(n, steps), keyCount)
  {
    WalkIsChain(n, [], keyCount, steps);
    var ns := ChainFrom(n, steps);
    if AllLeaves(ns) {
      assert [] + KeysAlong(ns) == KeysAlong(ns);
    }
  }

  lemma NothingIncreases()
    ensures Increasing([])
  {
  }

  lemma ChainStep(n: Node, steps: map<Node, nat>)
    requires ChainFinite(steps) && n in steps
    ensures Laid(n) && (n.next != null ==> n.next in steps && steps[n.next] < steps[n])
  {
  }

  /** Walks the leaf chain, checking order and counting keys. */
  method ValidateChain(first: Node?, keyCount: nat, ghost steps: map<Node, nat>) returns (ok: bool)
    requires ChainFinite(steps) && (first != null ==> first in steps)
    requires forall n :: n in steps && n.isLeaf ==> n.keyCount <= MAX_KEYS
    ensures ok <==> WalkOk(first, [], keyCount, steps)
  {
    hide Increasing, ChainFinite;
    NothingIncreases();
    var counted := 0;
    var hasPrevious, previous: Key := false, 0;
    var leaf := first;
    ghost var seen: seq<Key> := [];
    while leaf != null
      invariant leaf != null ==> leaf in steps
      invariant WalkOk(leaf, seen, keyCount, steps) <==> WalkOk(first, [], keyCount, steps)
      invariant Increasing(seen) && counted == |seen|
      invariant hasPrevious <==> seen != []
      invariant hasPrevious ==> previous == seen[|seen| - 1]
      decreases if leaf == null then 0 else steps[leaf] + 1
    {
      ChainStep(leaf, steps);
      if !leaf.isLeaf {
        return false;
      }
      ghost var ks := leaf.keys[..leaf.keyCount];
      IncreasingConcat(seen, ks);
      var good, last := WalkLeaf(leaf, hasPrevious, previous);
      if !good {
        return false;
      }
      hasPrevious, previous := hasPrevious || leaf.keyCount > 0, last;
      counted := counted + leaf.keyCount;
      seen := seen + ks;
      leaf := leaf.next;
    }
    ok := counted == keyCount;
  }

  /** Decides, for any finite heap of nodes, whether it is a well-formed tree. */
  method Validate(t: Tree, ghost rank: map<Node, nat>, ghost steps: map<Node, nat>) returns (ok: bool)
    requires t.root != null ==> Walkable(t.root, rank, steps)
    ensures ok <==> TreeAccepted(t, rank, steps)
  {
    hide Accepts, Finite, ChainFinite, Increasing;
    if t.root == null {
      return t.keyCount == 0;
    }
    var good, state := ValidateNode(t.root, null, NONE, NONE, 0, Unset, rank);
    if !good {
      return false;
    }
    var leaf := FindLeftmostLeaf(t.root, rank);
    WalkIsAccepted(leaf, t.keyCount, steps);
    ok := ValidateChain(leaf, t.keyCount, steps);
  }

  // ----- Every tree built by inserts is accepted -----

  ghost function RankOf(g: Graph): map<Node, nat> {
    map n | n in g :: g[n].height
  }

  ghost function StepsOf(g: Graph): map<Node, nat>
    requires forall n :: n in g ==> g[n].lo <= KEY_LIMIT
  {
    map n | n in g && g[n].isLeaf :: KEY_LIMIT - g[n].lo
  }

  /** A bound of the validator that stands for one end of the range of a node. */
  ghost predicate LowerIs(b: Bound, lo: nat) {
    if b.has then b.key == lo else lo == 0
  }

  ghost predicate UpperIs(b: Bound, hi: nat) {
    if b.has then b.key == hi else hi == KEY_LIMIT
  }

  lemma RankFinite(g: Graph, root: Node)
    requires Mirrors(g) && IsTree(g, root, null, null)
    ensures Finite(RankOf(g))
  {
    var rank := RankOf(g);
    forall n | n in rank
      ensures FiniteAt(n, rank)
    {
      assert CellOk(g[n]) && NodeOk(g, root, n, null, null);
      if !n.isLeaf {
        forall i | 0 <= i <= n.keyCount && i < ORDER && n.children[i] != null
          ensures n.children[i] in rank && rank[n.children[i]] < rank[n]
        {
          assert g[n].children[i] == n.children[i];
          assert ChildOk(g, n, i, null, null);
        }
      }
    }
  }

  lemma {:induction false} NodeAccepted(g: Graph, root: Node, n: Node, lower: Bound, upper: Bound)
    requires Mirrors(g) && IsTree(g, root, null, null) && n in g && Finite(RankOf(g))
    requires LowerIs(lower, g[n].lo) && UpperIs(upper, g[n].hi) && g[n].height <= g[root].height
    ensures Accepts(n, g[n].parent, lower, upper, g[root].height - g[n].height, g[root].height, RankOf(g))
    decreases g[n].height
  {
    hide CellOk, NodeOk;
    var rank, depth := RankOf(g), g[root].height - g[n].height;
    NodeLocallyOk(g, root, n, lower, upper);
    if !n.isLeaf {
      forall i | 0 <= i <= n.keyCount
        ensures ChildAccepted(n, i, lower, upper, depth, g[root].height, rank)
      {
        ChildNodeAccepted(g, root, n, i, lower, upper);
        NodeAccepted(g, root, n.children[i], ChildLower(n, i, lower), ChildUpper(n, i, upper));
      }
    }
  }

  lemma NodeLocallyOk(g: Graph, root: Node, n: Node, lower: Bound, upper: Bound)
    requires Mirrors(g) && IsTree(g, root, null, null) && n in g && Finite(RankOf(g))
    requires LowerIs(lower, g[n].lo) && UpperIs(upper, g[n].hi)
    ensures FiniteAt(n, RankOf(g)) && n.keyCount <= MAX_KEYS && Increasing(n.keys[..n.keyCount])
    ensures n.isLeaf == g[n].isLeaf == (g[n].height == 0) && n.parent == g[n].parent
    ensures n.isLeaf ==> forall i :: 0 <= i < n.keyCount ==> InBounds(n.keys[i], lower, upper)
  {
    assert CellOk(g[n]) && FiniteAt(n, RankOf(g));
    assert n.keys[..n.keyCount] == g[n].keys;
    assert forall i :: 0 <= i < n.keyCount ==> n.keys[i] == g[n].keys[i];
  }

  lemma ChildNodeAccepted(g: Graph, root: Node, n: Node, i: nat, lower: Bound, upper: Bound)
    requires Mirrors(g) && IsTree(g, root, null, null) && n in g && !g[n].isLeaf && i <= n.keyCount
    requires LowerIs(lower, g[n].lo) && UpperIs(upper, g[n].hi)
    ensures n.keyCount <= |n.keys| && i < |n.children| && n.children[i] != null && n.children[i] in g
    ensures var c := n.children[i];
            && g[c].parent == n && g[c].height + 1 == g[n].height
            && LowerIs(ChildLower(n, i, lower), g[c].lo) && UpperIs(ChildUpper(n, i, upper), g[c].hi)
            && BoundsOk(ChildLower(n, i, lower), ChildUpper(n, i, upper))
  {
    assert CellOk(g[n]) && NodeOk(g, root, n, null, null);
    assert g[n].children[i] == n.children[i];
    assert ChildOk(g, n, i, null, null);
    assert CellOk(g[n.children[i]]);
    assert i > 0 ==> g[n].keys[i - 1] == n.keys[i - 1];
    assert i < n.keyCount ==> g[n].keys[i] == n.keys[i];
  }

  lemma LeavesFinite(g: Graph, root: Node, contents: map<Key, int>)
    requires Mirrors(g) && IsIndex(g, root, null, null, contents)
    ensures forall n :: n in g ==> g[n].lo <= KEY_LIMIT
    ensures ChainFinite(StepsOf(g))
  {
    forall n | n in g
      ensures g[n].lo <= KEY_LIMIT && Laid(n)
    {
      assert CellOk(g[n]);
    }
    var steps := StepsOf(g);
    forall n | n in steps && n.next != null
      ensures n.next in steps && steps[n.next] < steps[n]
    {
      assert CellOk(g[n]) && LeafOk(g, n, contents);
    }
  }

  lemma {:induction false} LeftmostSame(g: Graph, root: Node, n: Node)
    requires Mirrors(g) && IsTree(g, root, null, null) && n in g && Finite(RankOf(g))
    ensures LeftmostFrom(n, RankOf(g)) == Leftmost(g, root, n)
    decreases g[n].height
  {
    assert FiniteAt(n, RankOf(g));
    if !n.isLeaf {
      assert CellOk(g[n]);
      assert g[n].children[0] == n.children[0];
      ChildRange(g, root, n, 0);
      LeftmostSame(g, root, n.children[0]);
    }
  }

  lemma {:induction false} ChainSame(g: Graph, root: Node, contents: map<Key, int>, n: Node)
    requires Mirrors(g) && IsIndex(g, root, null, null, contents) && n in g && g[n].isLeaf
    requires (forall m :: m in g ==> g[m].lo <= KEY_LIMIT) && ChainFinite(StepsOf(g))
    ensures ChainFrom(n, StepsOf(g)) == Chain(g, root, contents, n)
    decreases KEY_LIMIT - g[n].lo
  {
    assert CellOk(g[n]) && LeafOk(g, n, contents);
    if n.next != null {
      ChainSame(g, root, contents, n.next);
    }
  }

  lemma {:induction false} KeysSame(g: Graph, ns: seq<Node>)
    requires Mirrors(g) && (forall n :: n in ns ==> n in g && g[n].isLeaf)
    ensures AllLeaves(ns) && KeysAlong(ns) == KeysOf(g, ns)
  {
    if ns != [] {
      assert ns[0] in ns;
      KeysSame(g, ns[1..]);
    }
  }

  /** The validator accepts every tree that inserts can build. */
  lemma BuiltTreeAccepted(t: Tree)
    requires t.Valid() && t.root != null
    ensures forall n :: n in t.graph ==> t.graph[n].lo <= KEY_LIMIT
    ensures Walkable(t.root, RankOf(t.graph), StepsOf(t.graph))
    ensures TreeAccepted(t, RankOf(t.graph), StepsOf(t.graph))
  {
    var g, root := t.graph, t.root;
    RankFinite(g, root);
    LeavesFinite(g, root, t.contents);
    assert CellOk(g[root]) && NodeOk(g, root, root, null, null);
    NodeAccepted(g, root, root, NONE, NONE);
    LeftmostSame(g, root, root);
    ChainSame(g, root, t.contents, Leftmost(g, root, root));
    ChainKeys(g, root, t.contents);
    ChainIsInOrder(g, root, t.contents);
    InOrderLinked(g, root, t.contents, root);
    KeysSame(g, InOrder(g, root, root));
  }

  // ----- What acceptance is worth -----

  /** The number of separators that are not greater than the key: the child to descend to. */
  function ChildIndex(ks: seq<Key>, key: Key): (i: nat)
    ensures i <= |ks|
    ensures forall j :: 0 <= j < i ==> ks[j] <= key
    ensures i < |ks| ==> key < ks[i]
  {
    if ks == [] || key < ks[0] then 0 else 1 + ChildIndex(ks[1..], key)
  }

  lemma {:induction false} ChildIndexIs(ks: seq<Key>, key: Key, i: nat)
    requires Increasing(ks) && i <= |ks| && (i > 0 ==> ks[i - 1] <= key) && (i < |ks| ==> key < ks[i])
    ensures ChildIndex(ks, key) == i
  {
    if i > 0 {
      assert i > 1 ==> ks[0] < ks[i - 1];
      assert forall j :: 0 <= j < |ks| - 1 ==> ks[1..][j] == ks[j + 1];
      ChildIndexIs(ks[1..], key, i - 1);
    }
  }

  /** The leaf that a search for the key ends in. */
  ghost function Descend(n: Node, key: Key, rank: map<Node, nat>): Node?
    reads rank.Keys
    requires Finite(rank) && n in rank
    decreases rank[n]
  {
    assert FiniteAt(n, rank);
    if n.isLeaf then n
    else if n.keyCount > MAX_KEYS then null
    else
      var c := n.children[ChildIndex(n.keys[..n.keyCount], key)];
      if c == null then null else Descend(c, key, rank)
  }

  ghost predicate Under(n: Node, m: Node, rank: map<Node, nat>)
    reads rank.Keys
    requires Finite(rank) && n in rank
    decreases rank[n]
  {
    assert FiniteAt(n, rank);
    || n == m
    || (!n.isLeaf && exists i :: 0 <= i <= n.keyCount && i < ORDER && n.children[i] != null && Under(n.children[i], m, rank))
  }

  /** The keys below an accepted node are inside its bounds. */
  lemma {:induction false} KeysBounded(n: Node, parent: Node?, lower: Bound, upper: Bound, depth: nat, d: nat,
                                       leaf: Node, at: nat, rank: map<Node, nat>)
    requires Finite(rank) && n in rank && Accepts(n, parent, lower, upper, depth, d, rank)
    requires Under(n, leaf, rank) && leaf.isLeaf && at < leaf.keyCount && at < |leaf.keys|
    ensures InBounds(leaf.keys[at], lower, upper)
    decreases rank[n]
  {
    if n != leaf {
      var i :| 0 <= i <= n.keyCount && i < ORDER && n.children[i] != null && Under(n.children[i], leaf, rank);
      assert ChildAccepted(n, i, lower, upper, depth, d, rank);
      KeysBounded(n.children[i], n, ChildLower(n, i, lower), ChildUpper(n, i, upper), depth + 1, d, leaf, at, rank);
      assert ChildAccepted(n, 0, lower, upper, depth, d, rank) && ChildAccepted(n, n.keyCount, lower, upper, depth, d, rank);
      var ks := n.keys[..n.keyCount];
      assert i > 1 ==> ks[0] < ks[i - 1];
      assert i + 1 < n.keyCount ==> ks[i] < ks[n.keyCount - 1];
    }
  }

  /** In an accepted tree, searching for a key that some leaf holds leads to that very leaf. */
  lemma {:induction false} AcceptedFinds(n: Node, parent: Node?, lower: Bound, upper: Bound, depth: nat, d: nat,
                                         leaf: Node, at: nat, rank: map<Node, nat>)
    requires Finite(rank) && n in rank && Accepts(n, parent, lower, upper, depth, d, rank)
    requires Under(n, leaf, rank) && leaf.isLeaf && at < leaf.keyCount && at < |leaf.keys|
    ensures Descend(n, leaf.keys[at], rank) == leaf
    decreases rank[n]
  {
    if n != leaf {
      var i :| 0 <= i <= n.keyCount && i < ORDER && n.children[i] != null && Under(n.children[i], leaf, rank);
      assert ChildAccepted(n, i, lower, upper, depth, d, rank);
      var key, ks := leaf.keys[at], n.keys[..n.keyCount];
      var lo, hi := ChildLower(n, i, lower), ChildUpper(n, i, upper);
      KeysBounded(n.children[i], n, lo, hi, depth + 1, d, leaf, at, rank);
      AcceptedFinds(n.children[i], n, lo, hi, depth + 1, d, leaf, at, rank);
      ChildIndexIs(ks, key, i);
    }
  }

  /** And in a leaf with rising keys it stands at one position only, so the scan of the leaf returns its own offset. */
  lemma OnePosition(leaf: Node, i: nat, j: nat)
    requires leaf.keyCount <= |leaf.keys| && Increasing(leaf.keys[..leaf.keyCount])
    requires i < leaf.keyCount && j < leaf.keyCount && leaf.keys[i] == leaf.keys[j]
    ensures i == j
  {
    var ks := leaf.keys[..leaf.keyCount];
    assert ks[i] == leaf.keys[i] && ks[j] == leaf.keys[j];
  }
}
