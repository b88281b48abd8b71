/** What the structural validator accepts, without its bounds and its recursion: a tree in which every node is in order,
    every separator separates, and all leaves are equally deep. */
module BPTreeShape {
  import opened BPTreeGraph
  import opened BPTree
  import opened BPTreeValidate

  /** m is k levels below n. */
  ghost predicate Below(n: Node, m: Node, k: nat, rank: map<Node, nat>)
    reads rank.Keys
    requires Finite(rank) && n in rank
    decreases k
  {
    assert FiniteAt(n, rank);
    if k == 0 then m == n
    else
      !n.isLeaf && exists i: nat :: i <= n.keyCount && i < ORDER && n.children[i] != null && Below(n.children[i], m, k - 1, rank)
  }

  /** At most 63 rising keys, and children that know their parent. */
  ghost predicate Shape(m: Node, rank: map<Node, nat>)
    reads rank.Keys
    requires Finite(rank) && m in rank
  {
    assert FiniteAt(m, rank);
    && m.keyCount <= MAX_KEYS
    && (forall i, j :: 0 <= i < j < m.keyCount ==> m.keys[i] < m.keys[j])
    && (!m.isLeaf ==> forall i :: 0 <= i <= m.keyCount ==> m.children[i] != null && m.children[i].parent == m)
  }

  /** The keys of x lie between the separators around child i of m; only a key in a leaf may equal the left one. */
  ghost predicate Between(m: Node, i: nat, x: Node)
    reads m, x
    requires i <= m.keyCount <= |m.keys| && x.keyCount <= |x.keys|
  {
    forall at :: 0 <= at < x.keyCount ==>
      && (i > 0 ==> m.keys[i - 1] < x.keys[at] || (x.isLeaf && m.keys[i - 1] == x.keys[at]))
      && (i < m.keyCount ==> x.keys[at] < m.keys[i])
  }

  /** All that is below child i of m lies between the separators. */
  ghost predicate Separates(m: Node, i: nat, rank: map<Node, nat>)
    reads rank.Keys
    requires Finite(rank) && m in rank && Shape(m, rank) && !m.isLeaf && i <= m.keyCount
  {
    assert FiniteAt(m, rank);
    forall x, k: nat :: x in rank && Below(m.children[i], x, k, rank) ==> x.keyCount <= |x.keys| && Between(m, i, x)
  }

  ghost predicate NodeOk(m: Node, rank: map<Node, nat>)
    reads rank.Keys
    requires Finite(rank) && m in rank
  {
    Shape(m, rank) && (!m.isLeaf ==> forall i :: 0 <= i <= m.keyCount ==> Separates(m, i, rank))
  }

  ghost predicate AllNodesOk(n: Node, rank: map<Node, nat>)
    reads rank.Keys
    requires Finite(rank) && n in rank
  {
    forall m, k: nat :: m in rank && Below(n, m, k, rank) ==> NodeOk(m, rank)
  }

  ghost predicate LeafBelow(n: Node, m: Node, k: nat, rank: map<Node, nat>)
    reads rank.Keys
    requires Finite(rank) && n in rank
  {
    m in rank && m.isLeaf && Below(n, m, k, rank)
  }

  ghost predicate EquallyDeep(n: Node, rank: map<Node, nat>)
    reads rank.Keys
    requires Finite(rank) && n in rank
  {
    forall m, e, k: nat, l: nat :: m in rank && e in rank && LeafBelow(n, m, k, rank) && LeafBelow(n, e, l, rank) ==> k == l
  }

  // ----- An accepted tree has that shape -----

  /** The bounds of a node below are inside those above it. */
  ghost predicate Tighter(lower: Bound, upper: Bound, lo: Bound, hi: Bound) {
    && (lower.has ==> lo.has && lower.key <= lo.key)
    && (upper.has ==> hi.has && hi.key <= upper.key)
  }

  lemma ChildTighter(n: Node, parent: Node?, lower: Bound, upper: Bound, depth: nat, d: nat, i: nat, rank: map<Node, nat>)
    requires Finite(rank) && n in rank && Accepts(n, parent, lower, upper, depth, d, rank) && !n.isLeaf && i <= n.keyCount
    ensures n.keyCount <= |n.keys| && Tighter(lower, upper, ChildLower(n, i, lower), ChildUpper(n, i, upper))
    ensures ChildAccepted(n, i, lower, upper, depth, d, rank)
  {
    assert ChildAccepted(n, i, lower, upper, depth, d, rank);
    assert ChildAccepted(n, 0, lower, upper, depth, d, rank) && ChildAccepted(n, n.keyCount, lower, upper, depth, d, rank);
    var ks := n.keys[..n.keyCount];
    assert i > 1 ==> ks[0] < ks[i - 1];
    assert i + 1 < n.keyCount ==> ks[i] < ks[n.keyCount - 1];
  }

  /** A node below an accepted one is accepted, for bounds inside those above. */
  lemma {:induction false} BelowAccepted(n: Node, parent: Node?, lower: Bound, upper: Bound, depth: nat, d: nat,
                                         m: Node, k: nat, rank: map<Node, nat>)
    returns (p: Node?, lo: Bound, hi: Bound)
    requires Finite(rank) && n in rank && Accepts(n, parent, lower, upper, depth, d, rank) && BoundsOk(lower, upper)
    requires Below(n, m, k, rank)
    ensures m in rank && Accepts(m, p, lo, hi, depth + k, d, rank)
    ensures Tighter(lower, upper, lo, hi) && BoundsOk(lo, hi)
    decreases k
  {
    hide Accepts, Increasing;
    if k == 0 {
      p, lo, hi := parent, lower, upper;
    } else {
      assert FiniteAt(n, rank);
      var i: nat :| i <= n.keyCount && i < ORDER && n.children[i] != null && Below(n.children[i], m, k - 1, rank);
      ChildTighter(n, parent, lower, upper, depth, d, i, rank);
      p, lo, hi := BelowAccepted(n.children[i], n, ChildLower(n, i, lower), ChildUpper(n, i, upper), depth + 1, d, m, k - 1, rank);
    }
  }

  /** The keys of an accepted node are inside its bounds, and those of an internal one strictly. */
  lemma OwnKeysInside(m: Node, p: Node?, lo: Bound, hi: Bound, depth: nat, d: nat, at: nat, rank: map<Node, nat>)
    requires Finite(rank) && m in rank && Accepts(m, p, lo, hi, depth, d, rank) && at < m.keyCount
    ensures m.keyCount <= |m.keys| && InBounds(m.keys[at], lo, hi) && (!m.isLeaf && lo.has ==> lo.key < m.keys[at])
  {
    if !m.isLeaf {
      assert ChildAccepted(m, 0, lo, hi, depth, d, rank) && ChildAccepted(m, m.keyCount, lo, hi, depth, d, rank);
      var ks := m.keys[..m.keyCount];
      assert ks[at] == m.keys[at] && (at > 0 ==> ks[0] < ks[at]);
      assert at + 1 < m.keyCount ==> ks[at] < ks[m.keyCount - 1];
    }
  }

  lemma AcceptedShape(m: Node, p: Node?, lo: Bound, hi: Bound, depth: nat, d: nat, rank: map<Node, nat>)
    requires Finite(rank) && m in rank && Accepts(m, p, lo, hi, depth, d, rank)
    ensures Shape(m, rank)
  {
    assert FiniteAt(m, rank);
    var ks := m.keys[..m.keyCount];
    forall i, j | 0 <= i < j < m.keyCount ensures m.keys[i] < m.keys[j] {
      assert ks[i] < ks[j];
    }
    if !m.isLeaf {
      forall i | 0 <= i <= m.keyCount ensures m.children[i] != null && m.children[i].parent == m {
        assert ChildAccepted(m, i, lo, hi, depth, d, rank);
        assert Accepts(m.children[i], m, ChildLower(m, i, lo), ChildUpper(m, i, hi), depth + 1, d, rank);
      }
    }
  }

  lemma AcceptedSeparates(m: Node, p: Node?, lo: Bound, hi: Bound, depth: nat, d: nat, i: nat, rank: map<Node, nat>)
    requires Finite(rank) && m in rank && Accepts(m, p, lo, hi, depth, d, rank) && BoundsOk(lo, hi)
    requires Shape(m, rank) && !m.isLeaf && i <= m.keyCount
    ensures Separates(m, i, rank)
  {
    hide Accepts, Increasing, Below;
    assert FiniteAt(m, rank);
    ChildTighter(m, p, lo, hi, depth, d, i, rank);
    var c, lower, upper := m.children[i], ChildLower(m, i, lo), ChildUpper(m, i, hi);
    forall x, k: nat | x in rank && Below(c, x, k, rank) ensures x.keyCount <= |x.keys| && Between(m, i, x) {
      var q, l, h := BelowAccepted(c, m, lower, upper, depth + 1, d, x, k, rank);
      AcceptedShape(x, q, l, h, depth + 1 + k, d, rank);
      assert FiniteAt(x, rank);
      forall at | 0 <= at < x.keyCount ensures InBounds(x.keys[at], l, h) && (!x.isLeaf && l.has ==> l.key < x.keys[at]) {
        OwnKeysInside(x, q, l, h, depth + 1 + k, d, at, rank);
      }
    }
  }

  lemma AcceptedNodeOk(m: Node, p: Node?, lo: Bound, hi: Bound, depth: nat, d: nat, rank: map<Node, nat>)
    requires Finite(rank) && m in rank && Accepts(m, p, lo, hi, depth, d, rank) && BoundsOk(lo, hi)
    ensures NodeOk(m, rank)
  {
    hide Accepts, Shape, Separates, Finite;
    AcceptedShape(m, p, lo, hi, depth, d, rank);
    if !m.isLeaf {
      forall i | 0 <= i <= m.keyCount ensures Separates(m, i, rank) {
        AcceptedSeparates(m, p, lo, hi, depth, d, i, rank);
      }
    }
  }

  lemma LeafDepthIs(m: Node, p: Node?, lo: Bound, hi: Bound, depth: nat, d: nat, rank: map<Node, nat>)
    requires Finite(rank) && m in rank && Accepts(m, p, lo, hi, depth, d, rank) && m.isLeaf
    ensures depth == d
  {
  }

  lemma AcceptedRoot(root: Node, d: nat, rank: map<Node, nat>)
    requires Finite(rank) && root in rank && Accepts(root, null, NONE, NONE, 0, d, rank)
    ensures root.parent == null && AllNodesOk(root, rank) && EquallyDeep(root, rank)
  {
    hide NodeOk, Below, Finite;
    forall m, k: nat | m in rank && Below(root, m, k, rank) ensures NodeOk(m, rank) && (m.isLeaf ==> k == d) {
      var p, lo, hi := BelowAccepted(root, null, NONE, NONE, 0, d, m, k, rank);
      AcceptedNodeOk(m, p, lo, hi, k, d, rank);
      if m.isLeaf {
        LeafDepthIs(m, p, lo, hi, k, d, rank);
      }
    }
  }

  // ----- And a tree of that shape is accepted -----

  /** The keys below n are inside the bounds. */
  ghost predicate AllInside(n: Node, lower: Bound, upper: Bound, rank: map<Node, nat>)
    reads rank.Keys
    requires Finite(rank) && n in rank
  {
    forall x, k: nat, at :: x in rank && Below(n, x, k, rank) && 0 <= at < x.keyCount && at < |x.keys| ==> KeyInside(x, at, lower, upper)
  }

  ghost predicate KeyInside(x: Node, at: nat, lower: Bound, upper: Bound)
    reads x
    requires at < |x.keys|
  {
    InBounds(x.keys[at], lower, upper) && (!x.isLeaf && lower.has ==> lower.key < x.keys[at])
  }

  ghost predicate LeavesAt(n: Node, depth: int, rank: map<Node, nat>)
    reads rank.Keys
    requires Finite(rank) && n in rank
  {
    forall m, k: nat :: m in rank && LeafBelow(n, m, k, rank) ==> k == depth
  }

  lemma BelowSelf(n: Node, rank: map<Node, nat>)
    requires Finite(rank) && n in rank
    ensures Below(n, n, 0, rank)
  {
  }

  lemma BelowChild(n: Node, i: nat, m: Node, k: nat, rank: map<Node, nat>)
    requires Finite(rank) && n in rank && Shape(n, rank) && !n.isLeaf && i <= n.keyCount
    requires Below(n.children[i], m, k, rank)
    ensures Below(n, m, k + 1, rank)
  {
    assert FiniteAt(n, rank);
    var l := k + 1;
    assert n.children[i] != null && i < ORDER && Below(n.children[i], m, l - 1, rank);
  }

  /** What holds for the whole subtree holds for that of a child. */
  lemma ChildParts(n: Node, i: nat, lower: Bound, upper: Bound, depth: int, rank: map<Node, nat>)
    requires Finite(rank) && n in rank && Shape(n, rank) && !n.isLeaf && i <= n.keyCount
    requires AllNodesOk(n, rank) && LeavesAt(n, depth, rank) && AllInside(n, lower, upper, rank) && Separates(n, i, rank)
    ensures n.keyCount <= |n.keys| && i < |n.children| && n.children[i] != null && n.children[i] in rank
    ensures var c := n.children[i];
            && AllNodesOk(c, rank) && LeavesAt(c, depth - 1, rank)
            && AllInside(c, ChildLower(n, i, lower), ChildUpper(n, i, upper), rank)
  {
    hide Below, NodeOk;
    assert FiniteAt(n, rank);
    var c := n.children[i];
    forall m, k: nat | m in rank && Below(c, m, k, rank) ensures Below(n, m, k + 1, rank) {
      BelowChild(n, i, m, k, rank);
    }
    forall m, k: nat | m in rank && LeafBelow(c, m, k, rank) ensures k == depth - 1 {
      assert LeafBelow(n, m, k + 1, rank);
    }
    forall x, k: nat, at | x in rank && Below(c, x, k, rank) && 0 <= at < x.keyCount && at < |x.keys|
      ensures KeyInside(x, at, ChildLower(n, i, lower), ChildUpper(n, i, upper))
    {
      assert Below(n, x, k + 1, rank) && KeyInside(x, at, lower, upper);
      assert Between(n, i, x);
    }
  }

  lemma OwnKeyInside(n: Node, at: nat, lower: Bound, upper: Bound, rank: map<Node, nat>)
    requires Finite(rank) && n in rank && AllInside(n, lower, upper, rank) && at < n.keyCount && at < |n.keys|
    ensures KeyInside(n, at, lower, upper)
  {
    hide Below, KeyInside;
    BelowSelf(n, rank);
  }

  lemma ChildBounds(n: Node, i: nat, lower: Bound, upper: Bound, rank: map<Node, nat>)
    requires Finite(rank) && n in rank && Shape(n, rank) && !n.isLeaf && i <= n.keyCount
    requires AllInside(n, lower, upper, rank) && BoundsOk(lower, upper)
    ensures n.keyCount <= |n.keys| && BoundsOk(ChildLower(n, i, lower), ChildUpper(n, i, upper))
  {
    hide Below, AllInside;
    assert FiniteAt(n, rank);
    if i < n.keyCount {
      OwnKeyInside(n, i, lower, upper, rank);
    }
    if i > 0 {
      OwnKeyInside(n, i - 1, lower, upper, rank);
    }
  }

  lemma {:induction false} ShapedAccepted(n: Node, lower: Bound, upper: Bound, depth: nat, d: nat, rank: map<Node, nat>)
    requires Finite(rank) && n in rank && BoundsOk(lower, upper)
    requires AllNodesOk(n, rank) && LeavesAt(n, d - depth, rank) && AllInside(n, lower, upper, rank)
    ensures Accepts(n, n.parent, lower, upper, depth, d, rank)
    decreases rank[n]
  {
    hide Below, Separates, AllNodesOk, AllInside, LeavesAt, ChildAccepted;
    SelfOk(n, d - depth, rank);
    assert FiniteAt(n, rank);
    forall i, j | 0 <= i < j < n.keyCount ensures n.keys[..n.keyCount][i] < n.keys[..n.keyCount][j] {
    }
    if n.isLeaf {
      OwnInside(n, lower, upper, rank);
    } else {
      forall i | 0 <= i <= n.keyCount ensures ChildAccepted(n, i, lower, upper, depth, d, rank) {
        ChildParts(n, i, lower, upper, d - depth, rank);
        ChildBounds(n, i, lower, upper, rank);
        ShapedAccepted(n.children[i], ChildLower(n, i, lower), ChildUpper(n, i, upper), depth + 1, d, rank);
        ChildDecides(n, i, lower, upper, depth, d, rank);
      }
    }
  }

  lemma SelfOk(n: Node, depth: int, rank: map<Node, nat>)
    requires Finite(rank) && n in rank && AllNodesOk(n, rank) && LeavesAt(n, depth, rank)
    ensures NodeOk(n, rank) && (n.isLeaf ==> depth == 0)
  {
    hide Below, NodeOk;
    BelowSelf(n, rank);
    assert n.isLeaf ==> LeafBelow(n, n, 0, rank);
  }

  lemma OwnInside(n: Node, lower: Bound, upper: Bound, rank: map<Node, nat>)
    requires Finite(rank) && n in rank && AllInside(n, lower, upper, rank) && n.keyCount <= |n.keys|
    ensures forall i :: 0 <= i < n.keyCount ==> InBounds(n.keys[i], lower, upper)
  {
    hide Below, AllInside;
    forall i | 0 <= i < n.keyCount ensures InBounds(n.keys[i], lower, upper) {
      OwnKeyInside(n, i, lower, upper, rank);
    }
  }

  lemma AllUnbounded(n: Node, rank: map<Node, nat>)
    requires Finite(rank) && n in rank
    ensures AllInside(n, NONE, NONE, rank)
  {
  }

  /** The validator accepts the nodes of a tree exactly when the root has no parent, every node below it has rising keys,
      children that point back to it and separators that separate all that is below, and all leaves are equally deep. */
  lemma RootExact(root: Node, rank: map<Node, nat>)
    requires Finite(rank) && root in rank
    ensures RootAccepted(root, rank) <==> root.parent == null && AllNodesOk(root, rank) && EquallyDeep(root, rank)
  {
    hide Below, Accepts, AllNodesOk, AllInside, LeafBelow, Finite;
    if RootAccepted(root, rank) {
      var d :| Accepts(root, null, NONE, NONE, 0, d, rank);
      AcceptedRoot(root, d, rank);
    }
    if root.parent == null && AllNodesOk(root, rank) && EquallyDeep(root, rank) {
      var d := 0;
      if m, k: nat :| m in rank && LeafBelow(root, m, k, rank) {
        d := k;
      }
      AllUnbounded(root, rank);
      ShapedAccepted(root, NONE, NONE, 0, d, rank);
    }
  }

  // ----- The chain of leaves -----

  ghost predicate Position(ns: seq<Node>, i: int, a: int)
    reads ns
  {
    0 <= i < |ns| && 0 <= a < ns[i].keyCount && a < |ns[i].keys|
  }

  /** Along the chain every key is smaller than every later one. */
  ghost predicate Rising(ns: seq<Node>)
    reads ns
  {
    forall i, a, j, b :: Position(ns, i, a) && Position(ns, j, b) && (i < j || (i == j && a < b)) ==> ns[i].keys[a] < ns[j].keys[b]
  }

  ghost function KeyTotal(ns: seq<Node>): nat
    reads ns
  {
    if ns == [] then 0 else ns[0].keyCount + KeyTotal(ns[1..])
  }

  /** Where a key of the chain stands in the list of all its keys. */
  ghost function Place(ns: seq<Node>, i: nat, a: nat): nat
    reads ns
    requires i < |ns|
  {
    if i == 0 then a else ns[0].keyCount + Place(ns[1..], i - 1, a)
  }

  lemma {:induction false} PlaceHolds(ns: seq<Node>, i: nat, a: nat)
    requires AllLeaves(ns) && Position(ns, i, a)
    ensures Place(ns, i, a) < |KeysAlong(ns)| && KeysAlong(ns)[Place(ns, i, a)] == ns[i].keys[a]
  {
    assert ns[0] in ns && Laid(ns[0]);
    if i > 0 {
      assert ns[1..][i - 1] == ns[i];
      PlaceHolds(ns[1..], i - 1, a);
    }
  }

  lemma {:induction false} PlacesOrdered(ns: seq<Node>, i: nat, a: nat, j: nat, b: nat)
    requires AllLeaves(ns) && Position(ns, i, a) && Position(ns, j, b) && (i < j || (i == j && a < b))
    ensures Place(ns, i, a) < Place(ns, j, b)
  {
    if i > 0 {
      assert ns[1..][i - 1] == ns[i] && ns[1..][j - 1] == ns[j];
      PlacesOrdered(ns[1..], i - 1, a, j - 1, b);
    }
  }

  lemma {:induction false} PlacedAll(ns: seq<Node>, k: nat) returns (i: nat, a: nat)
    requires AllLeaves(ns) && k < |KeysAlong(ns)|
    ensures Position(ns, i, a) && Place(ns, i, a) == k
  {
    assert ns[0] in ns && Laid(ns[0]);
    if k < ns[0].keyCount {
      i, a := 0, k;
    } else {
      i, a := PlacedAll(ns[1..], k - ns[0].keyCount);
      assert ns[1..][i] == ns[i + 1] && ns[1..] == ns[1..][0..];
      i := i + 1;
    }
  }

  lemma {:induction false} TotalIsLength(ns: seq<Node>)
    requires AllLeaves(ns)
    ensures |KeysAlong(ns)| == KeyTotal(ns)
  {
    if ns != [] {
      assert ns[0] in ns && Laid(ns[0]);
      TotalIsLength(ns[1..]);
    }
  }

  lemma RisingExact(ns: seq<Node>)
    requires AllLeaves(ns)
    ensures Increasing(KeysAlong(ns)) <==> Rising(ns)
  {
    hide AllLeaves, KeysAlong, Place;
    if Increasing(KeysAlong(ns)) {
      forall i, a, j, b | Position(ns, i, a) && Position(ns, j, b) && (i < j || (i == j && a < b))
        ensures ns[i].keys[a] < ns[j].keys[b]
      {
        PlaceHolds(ns, i, a);
        PlaceHolds(ns, j, b);
        PlacesOrdered(ns, i, a, j, b);
      }
    }
    if Rising(ns) {
      forall k, l | 0 <= k < l < |KeysAlong(ns)| ensures KeysAlong(ns)[k] < KeysAlong(ns)[l] {
        var i, a := PlacedAll(ns, k);
        var j, b := PlacedAll(ns, l);
        PlaceHolds(ns, i, a);
        PlaceHolds(ns, j, b);
        if !(i < j || (i == j && a < b)) && !(i == j && a == b) {
          PlacesOrdered(ns, j, b, i, a);
        }
      }
    }
  }

  /** The validator accepts exactly the trees whose nodes have that shape and whose chain of leaves, from the leftmost one,
      consists of leaves, rises throughout and has as many keys as the tree says. */
  lemma TreeExact(t: Tree, rank: map<Node, nat>, steps: map<Node, nat>)
    requires t.root != null ==> Walkable(t.root, rank, steps)
    ensures t.root != null ==>
      (RootAccepted(t.root, rank) <==> t.root.parent == null && AllNodesOk(t.root, rank) && EquallyDeep(t.root, rank))
    ensures TreeAccepted(t, rank, steps) <==>
      if t.root == null then t.keyCount == 0
      else
        && RootAccepted(t.root, rank)
        && var chain := ChainFrom(LeftmostFrom(t.root, rank), steps);
           AllLeaves(chain) && Rising(chain) && KeyTotal(chain) == t.keyCount
  {
    hide AllNodesOk, EquallyDeep, AllLeaves, Rising, Increasing, Finite, ChainFinite;
    if t.root != null {
      RootExact(t.root, rank);
      if RootAccepted(t.root, rank) {
        var chain := ChainFrom(LeftmostFrom(t.root, rank), steps);
        if AllLeaves(chain) {
          RisingExact(chain);
          TotalIsLength(chain);
        }
      }
    }
  }
}
