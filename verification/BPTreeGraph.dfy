/** The B+Tree seen as a graph of nodes: a map from node to what the node holds.

    A cell carries, besides the fields of the C struct, its height above the leaves and
    the half-open key range [lo, hi) that it is responsible for.  With these, being a
    B+Tree is a conjunction of facts about one node and its neighbours, so each update is
    checked node by node and never by unfolding the whole tree.
  */
module BPTreeGraph {

  /** The largest number of children of a node. */
  const ORDER: nat := 64
  const MAX_KEYS: nat := ORDER - 1

  /** One more than the largest uint64_t. */
  const KEY_LIMIT: nat := 0x1_0000_0000_0000_0000

  type Key = k: nat | k < KEY_LIMIT

  /** A leaf or internal node.  The arrays are part of the node itself, as in the C
      struct: fixed-length sequences whose entries are assigned one at a time. */
  class Node {
    const isLeaf: bool
    var keyCount: nat
    var keys: seq<Key>
    var parent: Node?
    var next: Node?
    var children: seq<Node?>
    var offsets: seq<int>

    ghost var height: nat
    ghost var lo: nat
    ghost var hi: nat

    constructor (isLeaf: bool)
      ensures this.isLeaf == isLeaf && keyCount == 0 && Sized()
      ensures parent == null && next == null
    {
      this.isLeaf := isLeaf;
      keyCount := 0;
      keys, offsets, children := NoKeys(), NoOffsets(), NoChildren();
      parent, next := null, null;
    }

    ghost predicate Sized()
      reads this
    {
      |keys| == MAX_KEYS && |offsets| == MAX_KEYS && |children| == ORDER && keyCount <= MAX_KEYS
    }

    /** The part of the arrays that is in use. */
    ghost function View(): Cell
      reads this
      requires Sized()
    {
      Cell(isLeaf, keys[..keyCount],
           if isLeaf then offsets[..keyCount] else [],
           if isLeaf then [] else children[..keyCount + 1],
           parent, next, height, lo, hi)
    }
  }

  /** How the fields of a node show in its view. */
  lemma ViewFields(n: Node)
    requires n.Sized()
    ensures var c := n.View();
            && c.isLeaf == n.isLeaf && |c.keys| == n.keyCount <= MAX_KEYS && c.keys == n.keys[..n.keyCount]
            && |n.keys| == |n.offsets| == MAX_KEYS && |n.children| == ORDER
            && c.parent == n.parent && c.next == n.next
            && c.height == n.height && c.lo == n.lo && c.hi == n.hi
            && (n.isLeaf ==> c.offsets == n.offsets[..n.keyCount] && c.children == [])
            && (!n.isLeaf ==> c.children == n.children[..n.keyCount + 1] && c.offsets == [])
  {
  }

  function NoKeys(): (s: seq<Key>)
    ensures |s| == MAX_KEYS
  {
    seq(MAX_KEYS, _ => 0)
  }

  function NoOffsets(): (s: seq<int>)
    ensures |s| == MAX_KEYS
  {
    seq(MAX_KEYS, _ => 0)
  }

  function NoChildren(): (s: seq<Node?>)
    ensures |s| == ORDER
  {
    seq(ORDER, _ => null)
  }

  datatype Cell = Cell(
    isLeaf: bool,
    keys: seq<Key>,
    offsets: seq<int>,
    children: seq<Node?>,
    parent: Node?,
    next: Node?,
    height: nat,
    lo: nat,
    hi: nat)
  {
    /** The node is responsible for key k. */
    ghost predicate Covers(k: nat) {
      lo <= k < hi
    }
  }

  type Graph = map<Node, Cell>

  /** The fewest keys a node other than the root may have. */
  function MinKeys(isLeaf: bool): nat {
    if isLeaf then ORDER / 2 else ORDER / 2 - 1
  }

  ghost predicate Increasing(ks: seq<Key>) {
    forall i, j :: 0 <= i < j < |ks| ==> ks[i] < ks[j]
  }

  /** What holds of a node by itself. */
  ghost predicate CellOk(c: Cell) {
    && 1 <= |c.keys| <= MAX_KEYS
    && (c.isLeaf <==> c.height == 0)
    && (c.isLeaf ==> |c.offsets| == |c.keys|)
    && (!c.isLeaf ==> |c.children| == |c.keys| + 1)
    && c.lo < c.hi <= KEY_LIMIT
    && Increasing(c.keys)
    && (forall i :: 0 <= i < |c.keys| ==> c.lo <= c.keys[i] < c.hi)
    && (!c.isLeaf ==> c.lo < c.keys[0])
  }

  /** The upper bound of c as its parent sees it.  While `right` has been split off `left`
      but is not yet in the parent, the parent still counts its keys as those of `left`. */
  ghost function SeenHi(g: Graph, c: Node, left: Node?, right: Node?): nat
    requires c in g
  {
    if c == left && right != null && right in g then g[right].hi else g[c].hi
  }

  /** Child i of n lies between the separators around it. */
  ghost predicate ChildOk(g: Graph, n: Node, i: nat, left: Node?, right: Node?)
    requires n in g && CellOk(g[n]) && i < |g[n].children|
  {
    var p := g[n];
    var c := p.children[i];
    && c != null && c in g && c != right
    && g[c].parent == n
    && g[c].height + 1 == p.height
    && g[c].lo == (if i == 0 then p.lo else p.keys[i - 1])
    && SeenHi(g, c, left, right) == (if i == |p.keys| then p.hi else p.keys[i])
  }

  ghost predicate ChildrenOk(g: Graph, n: Node, left: Node?, right: Node?)
    requires n in g && CellOk(g[n])
  {
    !g[n].isLeaf ==> forall i :: 0 <= i < |g[n].children| ==> ChildOk(g, n, i, left, right)
  }

  ghost predicate ParentOk(g: Graph, root: Node, n: Node, left: Node?, right: Node?)
    requires n in g && root in g
  {
    var p := g[n].parent;
    && g[n].height <= g[root].height
    && (p == null ==> n == root || n == right)
    && (n == root ==> p == null)
    && (p != null ==>
          && p in g && g[p].height == g[n].height + 1 && !g[p].isLeaf
          && (n != right ==> n in g[p].children))
    && (p != null || n == left || n == right ==> MinKeys(g[n].isLeaf) <= |g[n].keys|)
  }

  ghost predicate NodeOk(g: Graph, root: Node, n: Node, left: Node?, right: Node?)
    requires n in g && root in g && CellOk(g[n])
  {
    ChildrenOk(g, n, left, right) && ParentOk(g, root, n, left, right)
  }

  /** `right` was split off `left` and has not been given to their parent yet. */
  ghost predicate SplitPair(g: Graph, left: Node, right: Node)
    requires left in g && right in g
  {
    && left != right
    && g[left].height == g[right].height
    && g[left].hi == g[right].lo
    && g[left].parent == g[right].parent
  }

  /** The graph is a B+Tree.  `left` and `right` are null except in the middle of a split,
      when `right` is reachable through the leaf chain only. */
  ghost predicate IsTree(g: Graph, root: Node, left: Node?, right: Node?) {
    && root in g
    && (left == null <==> right == null)
    && (left != null && right != null ==> left in g && right in g && right != root && SplitPair(g, left, right))
    && g[root].lo == 0 && SeenHi(g, root, left, right) == KEY_LIMIT
    && (forall n {:trigger CellOk(g[n])} :: n in g ==> CellOk(g[n]))
    && (forall n {:trigger NodeOk(g, root, n, left, right)} :: n in g ==> NodeOk(g, root, n, left, right))
  }

  /** The pairs (ks[i], os[i]) are those of the abstract map with keys in [lo, hi). */
  ghost predicate Agree(ks: seq<Key>, os: seq<int>, lo: nat, hi: nat, contents: map<Key, int>)
    requires |ks| == |os|
  {
    && (forall i :: 0 <= i < |ks| ==> ks[i] in contents && contents[ks[i]] == os[i])
    && (forall k :: k in contents && lo <= k < hi ==> k in ks)
  }

  /** A leaf agrees with the abstract map on its range, and the chain goes on where it ends. */
  ghost predicate LeafOk(g: Graph, n: Node, contents: map<Key, int>)
    requires n in g && CellOk(g[n]) && g[n].isLeaf
  {
    var c := g[n];
    && (c.next == null <==> c.hi == KEY_LIMIT)
    && (c.next != null ==> c.next in g && g[c.next].isLeaf && g[c.next].lo == c.hi)
    && Agree(c.keys, c.offsets, c.lo, c.hi, contents)
  }

  ghost predicate LeavesOk(g: Graph, contents: map<Key, int>)
    requires forall n {:trigger CellOk(g[n])} :: n in g ==> CellOk(g[n])
  {
    forall n {:trigger LeafOk(g, n, contents)} :: n in g && g[n].isLeaf ==> LeafOk(g, n, contents)
  }

  /** The graph is a B+Tree, up to a pending split, that stores the abstract map. */
  ghost predicate IsIndex(g: Graph, root: Node, left: Node?, right: Node?, contents: map<Key, int>) {
    IsTree(g, root, left, right) && LeavesOk(g, contents)
  }

  /** The range of a child lies inside that of its parent, and siblings do not overlap. */
  lemma ChildRange(g: Graph, root: Node, n: Node, i: nat)
    requires IsTree(g, root, null, null) && n in g && !g[n].isLeaf && i < |g[n].children|
    ensures ChildOk(g, n, i, null, null)
    ensures g[g[n].children[i]].height + 1 == g[n].height
    ensures g[n].lo <= g[g[n].children[i]].lo && g[g[n].children[i]].hi <= g[n].hi
  {
    assert NodeOk(g, root, n, null, null);
  }

  lemma SiblingRange(g: Graph, root: Node, n: Node, i: nat, j: nat)
    requires IsTree(g, root, null, null) && n in g && !g[n].isLeaf && i < j < |g[n].children|
    ensures ChildOk(g, n, i, null, null) && ChildOk(g, n, j, null, null)
    ensures g[g[n].children[i]].hi <= g[g[n].children[j]].lo
  {
    assert NodeOk(g, root, n, null, null);
  }

  lemma BelowRoot(g: Graph, root: Node, n: Node)
    requires IsTree(g, root, null, null) && n in g
    ensures n != root ==> g[n].height < g[root].height
  {
    assert NodeOk(g, root, n, null, null);
    if n != root {
      assert NodeOk(g, root, g[n].parent, null, null);
    }
  }

  /** At every height, at most one node is responsible for a key. */
  lemma {:induction false} OneCover(g: Graph, root: Node, m: Node, n: Node, k: nat)
    requires IsTree(g, root, null, null)
    requires m in g && n in g && g[m].height == g[n].height && g[m].Covers(k) && g[n].Covers(k)
    ensures m == n
    decreases g[root].height - g[m].height
  {
    assert NodeOk(g, root, m, null, null) && NodeOk(g, root, n, null, null);
    BelowRoot(g, root, m);
    BelowRoot(g, root, n);
    if m != root {
      var p, q := g[m].parent, g[n].parent;
      assert NodeOk(g, root, p, null, null) && NodeOk(g, root, q, null, null);
      var i :| 0 <= i < |g[p].children| && g[p].children[i] == m;
      var j :| 0 <= j < |g[q].children| && g[q].children[j] == n;
      ChildRange(g, root, p, i);
      ChildRange(g, root, q, j);
      OneCover(g, root, p, q, k);
      if i < j {
        SiblingRange(g, root, p, i, j);
      } else if j < i {
        SiblingRange(g, root, p, j, i);
      }
    }
  }

  /** The children of n are in h what they were in g. */
  ghost predicate SameBelow(g: Graph, h: Graph, n: Node, left: Node?, right: Node?, left': Node?, right': Node?) {
    forall c :: c in g && g[c].parent == n && c != right ==>
      && c in h && c != right' && h[c].parent == n
      && h[c].lo == g[c].lo && h[c].height == g[c].height
      && SeenHi(h, c, left', right') == SeenHi(g, c, left, right)
  }

  lemma ChildrenKept(g: Graph, h: Graph, n: Node, left: Node?, right: Node?, left': Node?, right': Node?)
    requires n in g && n in h && CellOk(g[n]) && CellOk(h[n])
    requires h[n] == g[n].(parent := h[n].parent, next := h[n].next) || (g[n].isLeaf && h[n].isLeaf)
    requires ChildrenOk(g, n, left, right) && SameBelow(g, h, n, left, right, left', right')
    ensures ChildrenOk(h, n, left', right')
  {
    if !h[n].isLeaf {
      forall i | 0 <= i < |h[n].children|
        ensures ChildOk(h, n, i, left', right')
      {
        assert ChildOk(g, n, i, left, right);
      }
    }
  }

  // ----- The updates -----

  /** s with x put at index `at` and the rest moved up by one. */
  function InsertAt<T>(s: seq<T>, at: nat, x: T): (r: seq<T>)
    requires at <= |s|
    ensures |r| == |s| + 1 && r[at] == x
  {
    s[..at] + [x] + s[at..]
  }

  /** `after` is `before` with x put at index `at` and the rest moved up by one. */
  ghost predicate Inserted<T>(before: seq<T>, after: seq<T>, count: nat, at: nat, x: T)
  {
    && at <= count <= |before| && count < |after|
    && (forall j :: 0 <= j < at ==> after[j] == before[j])
    && after[at] == x
    && (forall j :: at < j <= count ==> after[j] == before[j - 1])
  }

  lemma InsertedIsInsertAt<T>(before: seq<T>, after: seq<T>, count: nat, at: nat, x: T)
    requires Inserted(before, after, count, at, x)
    ensures after[..count + 1] == InsertAt(before[..count], at, x)
  {
  }

  lemma WholeSlices<T>(s: seq<T>, a: nat, b: nat)
    requires a <= |s| && b <= |s|
    ensures s[0..a] == s[..a] && s[b..|s|] == s[b..]
  {
  }

  /** `at` is the place of `key` among `ks`. */
  ghost predicate IsPlace(ks: seq<Key>, at: nat, key: Key) {
    && at <= |ks|
    && (forall j :: 0 <= j < at ==> ks[j] < key)
    && (forall j :: at <= j < |ks| ==> key < ks[j])
  }

  lemma InsertAtIncreasing(ks: seq<Key>, at: nat, key: Key)
    requires Increasing(ks) && IsPlace(ks, at, key)
    ensures Increasing(InsertAt(ks, at, key))
  {
  }

  lemma InsertAtMembers<T>(s: seq<T>, at: nat, x: T, y: T)
    requires at <= |s|
    ensures y in InsertAt(s, at, x) <==> y == x || y in s
  {
    if y in s {
      var i :| 0 <= i < |s| && s[i] == y;
      assert InsertAt(s, at, x)[if i < at then i else i + 1] == y;
    }
    assert InsertAt(s, at, x)[at] == x;
  }

  ghost function GrownLeaf(c: Cell, at: nat, key: Key, offset: int): Cell
    requires at <= |c.keys| && at <= |c.offsets|
  {
    c.(keys := InsertAt(c.keys, at, key), offsets := InsertAt(c.offsets, at, offset))
  }

  lemma GrownLeafOk(c: Cell, at: nat, key: Key, offset: int)
    requires CellOk(c) && c.isLeaf && c.Covers(key) && |c.keys| < MAX_KEYS && IsPlace(c.keys, at, key)
    ensures CellOk(GrownLeaf(c, at, key, offset))
  {
    InsertAtIncreasing(c.keys, at, key);
  }

  /** Changing what a leaf holds, but not its place, is no concern of the other nodes. */
  lemma LeafReplaced(g: Graph, root: Node, leaf: Node, c: Cell)
    requires IsTree(g, root, null, null) && leaf in g && g[leaf].isLeaf
    requires CellOk(c) && c == g[leaf].(keys := c.keys, offsets := c.offsets) && |g[leaf].keys| <= |c.keys|
    ensures IsTree(g[leaf := c], root, null, null)
  {
    var h := g[leaf := c];
    forall n | n in h
      ensures NodeOk(h, root, n, null, null)
    {
      assert NodeOk(g, root, n, null, null);
      ChildrenKept(g, h, n, null, null, null, null);
    }
  }

  /** Inserting into a leaf with room keeps the tree and adds the pair to its contents. */
  lemma LeafGrew(g: Graph, root: Node, leaf: Node, at: nat, key: Key, offset: int, contents: map<Key, int>)
    requires IsIndex(g, root, null, null, contents)
    requires leaf in g && g[leaf].isLeaf && g[leaf].Covers(key) && |g[leaf].keys| < MAX_KEYS
    requires CellOk(g[leaf]) && IsPlace(g[leaf].keys, at, key)
    ensures IsIndex(g[leaf := GrownLeaf(g[leaf], at, key, offset)], root, null, null, contents[key := offset])
  {
    hide InsertAt, Agree, NodeOk;
    var c := GrownLeaf(g[leaf], at, key, offset);
    var h := g[leaf := c];
    GrownLeafOk(g[leaf], at, key, offset);
    LeafReplaced(g, root, leaf, c);
    forall n | n in h && h[n].isLeaf
      ensures LeafOk(h, n, contents[key := offset])
    {
      if n == leaf {
        assert LeafOk(g, n, contents);
        AgreeInsert(g[n].keys, g[n].offsets, g[n].lo, g[n].hi, contents, at, key, offset);
      } else {
        OtherLeaf(g, h, root, leaf, n, key, offset, contents);
      }
    }
  }

  /** A leaf other than the one that covers the new key has nothing to do with it. */
  lemma OtherLeaf(g: Graph, h: Graph, root: Node, leaf: Node, n: Node, key: Key, offset: int, contents: map<Key, int>)
    requires IsTree(g, root, null, null) && LeavesOk(g, contents)
    requires leaf in g && g[leaf].isLeaf && g[leaf].Covers(key)
    requires n in g && n != leaf && g[n].isLeaf && n in h && h[n] == g[n]
    requires leaf in h && h[leaf].isLeaf && h[leaf].lo == g[leaf].lo
    requires forall m :: m in g && m != leaf ==> m in h && h[m] == g[m]
    ensures CellOk(h[n]) && LeafOk(h, n, contents[key := offset])
  {
    assert CellOk(g[n]) && CellOk(g[leaf]) && LeafOk(g, n, contents);
    if g[n].Covers(key) {
      OneCover(g, root, leaf, n, key);
    }
  }

  lemma AgreeInsert(ks: seq<Key>, os: seq<int>, lo: nat, hi: nat, contents: map<Key, int>, at: nat, key: Key, offset: int)
    requires |ks| == |os| && Agree(ks, os, lo, hi, contents) && IsPlace(ks, at, key)
    ensures Agree(InsertAt(ks, at, key), InsertAt(os, at, offset), lo, hi, contents[key := offset])
  {
    var ks', after := InsertAt(ks, at, key), contents[key := offset];
    forall k | k in after && lo <= k < hi
      ensures k in ks'
    {
      InsertAtMembers(ks, at, key, k);
    }
    forall i | 0 <= i < |ks'|
      ensures ks'[i] in after && after[ks'[i]] == InsertAt(os, at, offset)[i]
    {
      var j := if i < at then i else i - 1;
      assert i != at ==> ks'[i] == ks[j] && ks[j] != key;
    }
  }

  lemma AgreeLower(ks: seq<Key>, os: seq<int>, lo: nat, hi: nat, contents: map<Key, int>, half: nat)
    requires |ks| == |os| && Agree(ks, os, lo, hi, contents) && Increasing(ks) && half < |ks| && lo <= ks[half] < hi
    ensures Agree(ks[..half], os[..half], lo, ks[half], contents)
  {
    forall k | k in contents && lo <= k < ks[half] ensures k in ks[..half] {
      var i :| 0 <= i < |ks| && ks[i] == k;
      assert ks[..half][i] == k;
    }
  }

  lemma AgreeUpper(ks: seq<Key>, os: seq<int>, lo: nat, hi: nat, contents: map<Key, int>, half: nat)
    requires |ks| == |os| && Agree(ks, os, lo, hi, contents) && Increasing(ks) && half < |ks| && lo <= ks[half] < hi
    ensures Agree(ks[half..], os[half..], ks[half], hi, contents)
  {
    forall k | k in contents && ks[half] <= k < hi ensures k in ks[half..] {
      var i :| 0 <= i < |ks| && ks[i] == k;
      assert ks[half..][i - half] == k;
    }
  }

  lemma AgreeSplit(ks: seq<Key>, os: seq<int>, lo: nat, hi: nat, contents: map<Key, int>, half: nat)
    requires |ks| == |os| && Agree(ks, os, lo, hi, contents) && Increasing(ks) && half < |ks| && lo <= ks[half] < hi
    ensures Agree(ks[..half], os[..half], lo, ks[half], contents)
    ensures Agree(ks[half..], os[half..], ks[half], hi, contents)
  {
    hide Agree, Increasing;
    AgreeLower(ks, os, lo, hi, contents, half);
    AgreeUpper(ks, os, lo, hi, contents, half);
  }

  // ----- Splitting a leaf -----

  ghost function LeftLeaf(m: Cell, right: Node): Cell
    requires |m.keys| == |m.offsets| == ORDER
  {
    m.(keys := m.keys[..ORDER / 2], offsets := m.offsets[..ORDER / 2], next := right, hi := m.keys[ORDER / 2])
  }

  ghost function RightLeaf(m: Cell): Cell
    requires |m.keys| == |m.offsets| == ORDER
  {
    m.(keys := m.keys[ORDER / 2..], offsets := m.offsets[ORDER / 2..], lo := m.keys[ORDER / 2])
  }

  /** A full leaf takes one more pair and gives its upper half to `right`. */
  ghost function LeafSplit(g: Graph, leaf: Node, right: Node, at: nat, key: Key, offset: int): Graph
    requires leaf in g && |g[leaf].keys| == |g[leaf].offsets| == MAX_KEYS && at <= MAX_KEYS
  {
    var m := GrownLeaf(g[leaf], at, key, offset);
    g[leaf := LeftLeaf(m, right)][right := RightLeaf(m)]
  }

  /** A leaf with one pair too many. */
  ghost predicate Overfull(m: Cell) {
    && m.isLeaf && m.height == 0 && m.hi <= KEY_LIMIT
    && |m.keys| == |m.offsets| == ORDER
    && Increasing(m.keys)
    && (forall i :: 0 <= i < |m.keys| ==> m.lo <= m.keys[i] < m.hi)
  }

  lemma GrownLeafOverfull(c: Cell, at: nat, key: Key, offset: int)
    requires CellOk(c) && c.isLeaf && c.Covers(key) && |c.keys| == MAX_KEYS && IsPlace(c.keys, at, key)
    ensures Overfull(GrownLeaf(c, at, key, offset))
  {
    InsertAtIncreasing(c.keys, at, key);
  }

  lemma LeafHalvesOk(m: Cell, right: Node)
    requires Overfull(m)
    ensures CellOk(LeftLeaf(m, right)) && CellOk(RightLeaf(m))
  {
    assert m.keys[0] < m.keys[ORDER / 2];
  }

  /** The two cells that leaf m is split into share its range. */
  ghost predicate Halves(g: Graph, m: Node, lc: Cell, rc: Cell)
    requires m in g
  {
    && CellOk(lc) && CellOk(rc) && lc.isLeaf && rc.isLeaf
    && lc.lo == g[m].lo && lc.hi == rc.lo && rc.hi == g[m].hi
    && lc.parent == rc.parent == g[m].parent
    && MinKeys(true) <= |lc.keys| && MinKeys(true) <= |rc.keys|
  }

  lemma SplitKeepsChildren(g: Graph, root: Node, m: Node, right: Node, lc: Cell, rc: Cell, n: Node)
    requires IsTree(g, root, null, null) && m in g && right !in g && g[m].isLeaf && Halves(g, m, lc, rc) && n in g
    ensures CellOk(g[m := lc][right := rc][n]) && ChildrenOk(g[m := lc][right := rc], n, m, right)
  {
    hide ParentOk;
    var h := g[m := lc][right := rc];
    assert CellOk(g[m]) && NodeOk(g, root, n, null, null);
    if n != m && !g[n].isLeaf {
      forall i | 0 <= i < |g[n].children| ensures ChildOk(h, n, i, m, right) {
        assert ChildOk(g, n, i, null, null);
      }
    }
  }

  lemma SplitKeepsParent(g: Graph, root: Node, m: Node, right: Node, lc: Cell, rc: Cell, n: Node)
    requires IsTree(g, root, null, null) && m in g && right !in g && g[m].isLeaf && Halves(g, m, lc, rc) && n in g
    ensures ParentOk(g[m := lc][right := rc], root, n, m, right)
  {
    hide ChildrenOk;
    assert CellOk(g[m]) && CellOk(g[n]) && NodeOk(g, root, n, null, null);
  }

  lemma SplitKeepsNode(g: Graph, root: Node, m: Node, right: Node, lc: Cell, rc: Cell, n: Node)
    requires IsTree(g, root, null, null) && m in g && right !in g && g[m].isLeaf && Halves(g, m, lc, rc) && n in g
    ensures CellOk(g[m := lc][right := rc][n]) && NodeOk(g[m := lc][right := rc], root, n, m, right)
  {
    hide CellOk, ChildrenOk, ParentOk, IsTree, Halves;
    SplitKeepsChildren(g, root, m, right, lc, rc, n);
    SplitKeepsParent(g, root, m, right, lc, rc, n);
  }

  /** Leaf m gives the upper part of its range to `right`; their parent does not know yet. */
  lemma SplitKeepsTree(g: Graph, root: Node, m: Node, right: Node, lc: Cell, rc: Cell)
    requires IsTree(g, root, null, null) && m in g && right !in g && g[m].isLeaf && Halves(g, m, lc, rc)
    ensures IsTree(g[m := lc][right := rc], root, m, right)
  {
    var h := g[m := lc][right := rc];
    forall n | n in h
      ensures CellOk(h[n]) && NodeOk(h, root, n, m, right)
    {
      SplitKeepsNode(g, root, m, right, lc, rc, if n == right then m else n);
    }
  }

  lemma LeafHalvesAgree(g: Graph, leaf: Node, right: Node, at: nat, key: Key, offset: int, contents: map<Key, int>)
    requires leaf in g && right !in g && CellOk(g[leaf]) && g[leaf].isLeaf && g[leaf].Covers(key)
    requires LeafOk(g, leaf, contents) && |g[leaf].keys| == MAX_KEYS && IsPlace(g[leaf].keys, at, key)
    ensures var m := GrownLeaf(g[leaf], at, key, offset);
            var lc, rc := LeftLeaf(m, right), RightLeaf(m);
            && Agree(lc.keys, lc.offsets, lc.lo, lc.hi, contents[key := offset])
            && Agree(rc.keys, rc.offsets, rc.lo, rc.hi, contents[key := offset])
  {
    hide Agree, InsertAt;
    var c := g[leaf];
    var m := GrownLeaf(c, at, key, offset);
    GrownLeafOverfull(c, at, key, offset);
    AgreeInsert(c.keys, c.offsets, c.lo, c.hi, contents, at, key, offset);
    AgreeSplit(m.keys, m.offsets, m.lo, m.hi, contents[key := offset], ORDER / 2);
  }

  /** Splitting a leaf keeps everything except that `right` is still missing from its parent. */
  lemma LeafWasSplit(g: Graph, root: Node, leaf: Node, right: Node, at: nat, key: Key, offset: int, contents: map<Key, int>)
    requires IsIndex(g, root, null, null, contents) && right !in g
    requires leaf in g && g[leaf].isLeaf && g[leaf].Covers(key) && |g[leaf].keys| == MAX_KEYS
    requires CellOk(g[leaf]) && IsPlace(g[leaf].keys, at, key)
    ensures IsIndex(LeafSplit(g, leaf, right, at, key, offset), root, leaf, right, contents[key := offset])
    ensures LeafSplit(g, leaf, right, at, key, offset).Keys == g.Keys + {right}
  {
    hide Agree, InsertAt;
    var h := LeafSplit(g, leaf, right, at, key, offset);
    GrownLeafOverfull(g[leaf], at, key, offset);
    LeafHalvesOk(GrownLeaf(g[leaf], at, key, offset), right);
    SplitKeepsTree(g, root, leaf, right, h[leaf], h[right]);
    assert LeafOk(g, leaf, contents);
    LeafHalvesAgree(g, leaf, right, at, key, offset, contents);
    forall n | n in h && h[n].isLeaf
      ensures LeafOk(h, n, contents[key := offset])
    {
      if n != leaf && n != right {
        OtherLeaf(g, h, root, leaf, n, key, offset, contents);
      }
    }
  }

  // ----- Linking the right half into the parent -----

  /** The leaves agree between two graphs in everything but their parents. */
  ghost predicate SameLeaves(g: Graph, h: Graph) {
    && (forall n :: n in g && g[n].isLeaf ==> n in h && h[n] == g[n].(parent := h[n].parent))
    && (forall n :: n in h && h[n].isLeaf ==> n in g && g[n].isLeaf)
  }

  lemma SameLeavesOk(g: Graph, h: Graph, contents: map<Key, int>)
    requires (forall n {:trigger CellOk(g[n])} :: n in g ==> CellOk(g[n])) && (forall n {:trigger CellOk(h[n])} :: n in h ==> CellOk(h[n]))
    requires LeavesOk(g, contents) && SameLeaves(g, h)
    ensures LeavesOk(h, contents)
  {
    forall n | n in h && h[n].isLeaf
      ensures LeafOk(h, n, contents)
    {
      assert LeafOk(g, n, contents);
    }
  }

  ghost function RootCell(g: Graph, left: Node, right: Node): Cell
    requires left in g && right in g && g[right].lo < KEY_LIMIT
  {
    Cell(false, [g[right].lo], [], [left, right], null, null, g[left].height + 1, g[left].lo, g[right].hi)
  }

  /** A new root above the two halves of the old one. */
  ghost function RootGrown(g: Graph, left: Node, right: Node, top: Node): Graph
    requires left in g && right in g && g[right].lo < KEY_LIMIT
  {
    g[left := g[left].(parent := top)][right := g[right].(parent := top)][top := RootCell(g, left, right)]
  }

  /** What a new root changes in a node: its parent, if it is one of the halves. */
  lemma RootGrewCell(g: Graph, left: Node, right: Node, top: Node, n: Node)
    requires left in g && right in g && g[right].lo < KEY_LIMIT && top !in g && n in g
    ensures var h := RootGrown(g, left, right, top);
            n in h && h[n] == if n == left || n == right then g[n].(parent := top) else g[n]
  {
  }

  lemma RootGrewChild(g: Graph, left: Node, right: Node, top: Node, n: Node, i: nat)
    requires left in g && right in g && g[left].parent == null && g[right].parent == null && g[right].lo < KEY_LIMIT
    requires top !in g && n in g && CellOk(g[n]) && i < |g[n].children| && ChildOk(g, n, i, left, right)
    ensures var h := RootGrown(g, left, right, top);
            CellOk(h[n]) && i < |h[n].children| && ChildOk(h, n, i, null, null)
  {
    hide RootGrown;
    RootGrewCell(g, left, right, top, n);
    RootGrewCell(g, left, right, top, g[n].children[i]);
  }

  lemma RootGrewChildren(g: Graph, root: Node, left: Node, right: Node, top: Node, n: Node)
    requires IsTree(g, root, left, right) && left in g && right in g && g[left].parent == null && top !in g
    requires n in g && g[right].lo < KEY_LIMIT
    ensures var h := RootGrown(g, left, right, top);
            CellOk(h[n]) && ChildrenOk(h, n, null, null)
  {
    hide ParentOk, RootGrown, ChildOk;
    var h := RootGrown(g, left, right, top);
    assert CellOk(g[n]) && NodeOk(g, root, n, left, right);
    RootGrewCell(g, left, right, top, n);
    if !h[n].isLeaf {
      forall i | 0 <= i < |h[n].children| ensures ChildOk(h, n, i, null, null) {
        RootGrewChild(g, left, right, top, n, i);
      }
    }
  }

  lemma RootTop(g: Graph, left: Node, right: Node, top: Node)
    requires left in g && right in g && g[right].lo < KEY_LIMIT
    ensures top in RootGrown(g, left, right, top) && RootGrown(g, left, right, top)[top] == RootCell(g, left, right)
  {
  }

  lemma RootGrewParentOf(g: Graph, left: Node, right: Node, top: Node, n: Node)
    requires left in g && right in g && left != right && g[left].parent == null && g[right].parent == null
    requires g[right].lo < KEY_LIMIT && g[right].height == g[left].height && top !in g && n in g
    requires ParentOk(g, left, n, left, right)
    ensures top in RootGrown(g, left, right, top) && n in RootGrown(g, left, right, top)
    ensures ParentOk(RootGrown(g, left, right, top), top, n, null, null)
  {
    hide RootGrown;
    RootGrewCell(g, left, right, top, n);
    RootTop(g, left, right, top);
    if g[n].parent != null {
      RootGrewCell(g, left, right, top, g[n].parent);
    }
  }

  lemma RootGrewParent(g: Graph, root: Node, left: Node, right: Node, top: Node, n: Node)
    requires IsTree(g, root, left, right) && left in g && right in g && g[left].parent == null && top !in g
    requires n in g && g[right].lo < KEY_LIMIT
    ensures top in RootGrown(g, left, right, top) && n in RootGrown(g, left, right, top)
    ensures ParentOk(RootGrown(g, left, right, top), top, n, null, null)
  {
    hide ChildrenOk, RootGrown, CellOk;
    assert CellOk(g[n]) && CellOk(g[left]);
    assert NodeOk(g, root, n, left, right) && NodeOk(g, root, left, left, right);
    RootGrewParentOf(g, left, right, top, n);
  }

  lemma RootGrewNode(g: Graph, root: Node, left: Node, right: Node, top: Node, n: Node)
    requires IsTree(g, root, left, right) && left in g && right in g && g[left].parent == null && top !in g
    requires n in g && g[right].lo < KEY_LIMIT && CellOk(RootCell(g, left, right))
    ensures var h := RootGrown(g, left, right, top);
            CellOk(h[n]) && NodeOk(h, top, n, null, null)
  {
    hide CellOk, ChildrenOk, ParentOk, IsTree, RootGrown;
    RootGrewChildren(g, root, left, right, top, n);
    RootGrewParent(g, root, left, right, top, n);
  }

  lemma RootGrewLeaves(g: Graph, left: Node, right: Node, top: Node)
    requires left in g && right in g && left != right && top !in g && g[right].lo < KEY_LIMIT
    ensures SameLeaves(g, RootGrown(g, left, right, top))
  {
  }

  /** When the two halves have no parent, a root above them completes the tree. */
  lemma RootGrew(g: Graph, root: Node, left: Node, right: Node, top: Node)
    requires IsTree(g, root, left, right) && left in g && right in g && g[left].parent == null && top !in g
    requires g[right].lo < KEY_LIMIT
    ensures IsTree(RootGrown(g, left, right, top), top, null, null)
    ensures SameLeaves(g, RootGrown(g, left, right, top))
  {
    hide CellOk, NodeOk, SameLeaves;
    var h := RootGrown(g, left, right, top);
    RootTopOk(g, root, left, right, top);
    RootGrewLeaves(g, left, right, top);
    forall n | n in h
      ensures CellOk(h[n]) && NodeOk(h, top, n, null, null)
    {
      if n != top {
        RootGrewNode(g, root, left, right, top, n);
      }
    }
  }

  lemma RootTopOk(g: Graph, root: Node, left: Node, right: Node, top: Node)
    requires IsTree(g, root, left, right) && left in g && right in g && g[left].parent == null && top !in g
    requires g[right].lo < KEY_LIMIT
    ensures var h := RootGrown(g, left, right, top);
            CellOk(h[top]) && NodeOk(h, top, top, null, null) && h[top].lo == 0 && h[top].hi == KEY_LIMIT
  {
    assert CellOk(g[left]) && CellOk(g[right]) && NodeOk(g, root, left, left, right);
    var h := RootGrown(g, left, right, top);
    assert ChildOk(h, top, 0, null, null) && ChildOk(h, top, 1, null, null);
  }

  /** Child i lies between the separators around it. */
  ghost predicate Between(g: Graph, ks: seq<Key>, cs: seq<Node?>, i: nat, lo: nat, hi: nat, height: nat)
    requires |cs| == |ks| + 1 && i < |cs|
  {
    var c := cs[i];
    && c != null && c in g
    && g[c].height + 1 == height
    && g[c].lo == (if i == 0 then lo else ks[i - 1])
    && g[c].hi == (if i == |ks| then hi else ks[i])
  }

  /** Keys ks separate children cs over the range [lo, hi), all just below height `height`. */
  ghost predicate Separated(g: Graph, ks: seq<Key>, cs: seq<Node?>, lo: nat, hi: nat, height: nat) {
    && |cs| == |ks| + 1
    && Increasing(ks)
    && (forall i :: 0 <= i < |ks| ==> lo < ks[i] < hi)
    && (forall i :: 0 <= i < |cs| ==> Between(g, ks, cs, i, lo, hi, height))
  }

  ghost function GrownInternal(c: Cell, at: nat, sep: Key, right: Node): Cell
    requires at <= |c.keys| && at < |c.children|
  {
    c.(keys := InsertAt(c.keys, at, sep), children := InsertAt(c.children, at + 1, right))
  }

  /** `right` is to go just after child `at` of node p, which is its other half. */
  ghost predicate Pending(g: Graph, root: Node, p: Node, at: nat, left: Node, right: Node) {
    && IsTree(g, root, left, right) && left in g && right in g
    && p in g && !g[p].isLeaf && g[left].parent == p
    && at < |g[p].children| && g[p].children[at] == left
  }

  ghost function MergedCell(g: Graph, root: Node, p: Node, at: nat, left: Node, right: Node): (m: Cell)
    requires Pending(g, root, p, at, left, right)
    ensures |m.children| == |m.keys| + 1 == |g[p].keys| + 2
    ensures m == g[p].(keys := m.keys, children := m.children)
  {
    SeparatorPlace(g, root, p, at, left, right);
    GrownInternal(g[p], at, g[right].lo, right)
  }

  lemma SeparatorPlace(g: Graph, root: Node, p: Node, at: nat, left: Node, right: Node)
    requires Pending(g, root, p, at, left, right)
    ensures g[right].lo < KEY_LIMIT && at <= |g[p].keys| && |g[p].children| == |g[p].keys| + 1
    ensures g[left].hi == g[right].lo && g[right].height + 1 == g[p].height && g[right].parent == p
    ensures g[p].lo < g[right].lo < g[p].hi
    ensures g[right].hi == if at == |g[p].keys| then g[p].hi else g[p].keys[at]
    ensures IsPlace(g[p].keys, at, g[right].lo)
  {
    assert CellOk(g[p]) && CellOk(g[left]) && CellOk(g[right]);
    assert NodeOk(g, root, p, left, right);
    assert ChildOk(g, p, at, left, right);
  }

  /** A node with the pending separator and child put in covers its own range again. */
  lemma Merged(g: Graph, root: Node, p: Node, at: nat, left: Node, right: Node)
    requires Pending(g, root, p, at, left, right)
    ensures var m := MergedCell(g, root, p, at, left, right);
            Separated(g, m.keys, m.children, g[p].lo, g[p].hi, g[p].height)
  {
    SeparatorPlace(g, root, p, at, left, right);
    assert CellOk(g[p]);
    InsertAtIncreasing(g[p].keys, at, g[right].lo);
    var m := MergedCell(g, root, p, at, left, right);
    assert forall i :: 0 <= i < |g[p].keys| ==> g[p].lo < g[p].keys[i];
    assert forall i :: 0 <= i < |m.keys| ==> g[p].lo < m.keys[i] < g[p].hi;
    forall i | 0 <= i < |m.children|
      ensures Between(g, m.keys, m.children, i, g[p].lo, g[p].hi, g[p].height)
    {
      MergedChild(g, root, p, at, left, right, i);
    }
  }

  /** What a child's place says, in terms of the separators around it. */
  lemma ChildBetween(g: Graph, p: Node, i: nat, left: Node?, right: Node?)
    requires p in g && CellOk(g[p]) && i < |g[p].children| && ChildOk(g, p, i, left, right)
    ensures var c := g[p].children[i];
            && c != null && c in g && c != right && g[c].parent == p && g[c].height + 1 == g[p].height
            && g[c].lo == (if i == 0 then g[p].lo else g[p].keys[i - 1])
            && (if c == left && right != null && right in g then g[right].hi else g[c].hi)
               == (if i == |g[p].keys| then g[p].hi else g[p].keys[i])
  {
  }

  /** Only child `at` is the left half. */
  lemma ChildAt(g: Graph, root: Node, p: Node, at: nat, left: Node, right: Node, j: nat)
    requires Pending(g, root, p, at, left, right) && j < |g[p].children|
    ensures |g[p].children| == |g[p].keys| + 1
    ensures var c := g[p].children[j];
            && c != null && c in g && g[c].parent == p && g[c].height + 1 == g[p].height
            && g[c].lo == (if j == 0 then g[p].lo else g[p].keys[j - 1])
            && (j != at ==> g[c].hi == if j == |g[p].keys| then g[p].hi else g[p].keys[j])
  {
    hide ChildOk, ParentOk;
    assert CellOk(g[p]) && NodeOk(g, root, p, left, right);
    ChildBetween(g, p, j, left, right);
    ChildBetween(g, p, at, left, right);
    if j < at {
      assert (if j == 0 then g[p].lo else g[p].keys[j - 1]) < g[p].keys[at - 1];
    } else if at < j {
      assert (if at == 0 then g[p].lo else g[p].keys[at - 1]) < g[p].keys[j - 1];
    }
  }

  /** Where the entries of the merged cell come from. */
  lemma MergedEntries(g: Graph, root: Node, p: Node, at: nat, left: Node, right: Node, i: nat)
    requires Pending(g, root, p, at, left, right) && i < |MergedCell(g, root, p, at, left, right).children|
    ensures var m := MergedCell(g, root, p, at, left, right);
            && at <= |g[p].keys| && |g[p].children| == |g[p].keys| + 1
            && m.children[i] == (if i <= at then g[p].children[i] else if i == at + 1 then right else g[p].children[i - 1])
            && (i < |m.keys| ==>
                  m.keys[i] == if i < at then g[p].keys[i] else if i == at then g[right].lo else g[p].keys[i - 1])
            && (i > 0 ==>
                  m.keys[i - 1] == if i <= at then g[p].keys[i - 1] else if i == at + 1 then g[right].lo else g[p].keys[i - 2])
  {
    hide Pending, CellOk, IsTree;
    SeparatorPlace(g, root, p, at, left, right);
  }

  lemma MergedChild(g: Graph, root: Node, p: Node, at: nat, left: Node, right: Node, i: nat)
    requires Pending(g, root, p, at, left, right)
    requires i < |MergedCell(g, root, p, at, left, right).children|
    ensures var m := MergedCell(g, root, p, at, left, right);
            && Between(g, m.keys, m.children, i, g[p].lo, g[p].hi, g[p].height)
            && g[m.children[i]].parent == p
  {
    hide MergedCell, CellOk, IsTree, NodeOk, ChildOk;
    SeparatorPlace(g, root, p, at, left, right);
    MergedEntries(g, root, p, at, left, right, i);
    ChildAt(g, root, p, at, left, right, if i <= at then i else i - 1);
  }

  lemma MergedFamily(g: Graph, root: Node, p: Node, at: nat, left: Node, right: Node, c: Node)
    requires Pending(g, root, p, at, left, right) && c in g
    ensures c in MergedCell(g, root, p, at, left, right).children <==> g[c].parent == p
  {
    var m := MergedCell(g, root, p, at, left, right);
    assert CellOk(g[p]) && CellOk(g[c]);
    if c in m.children {
      var i :| 0 <= i < |m.children| && m.children[i] == c;
      MergedChild(g, root, p, at, left, right, i);
    }
    if g[c].parent == p {
      assert NodeOk(g, root, c, left, right);
      InsertAtMembers(g[p].children, at + 1, right, c);
    }
  }

  /** p takes the pending separator and child. */
  ghost function InternalGrown(g: Graph, root: Node, p: Node, at: nat, left: Node, right: Node): Graph
    requires Pending(g, root, p, at, left, right)
  {
    g[p := MergedCell(g, root, p, at, left, right)]
  }

  lemma InternalGrewNode(g: Graph, root: Node, p: Node, at: nat, left: Node, right: Node, n: Node)
    requires Pending(g, root, p, at, left, right) && |g[p].keys| < MAX_KEYS && n in g && n != p
    requires CellOk(MergedCell(g, root, p, at, left, right))
    ensures var h := InternalGrown(g, root, p, at, left, right);
            CellOk(h[n]) && NodeOk(h, root, n, null, null)
  {
    hide MergedCell;
    var h := InternalGrown(g, root, p, at, left, right);
    assert CellOk(g[n]) && NodeOk(g, root, n, left, right);
    ChildrenKept(g, h, n, left, right, null, null);
    MergedFamily(g, root, p, at, left, right, n);
  }

  lemma InternalGrewTop(g: Graph, root: Node, p: Node, at: nat, left: Node, right: Node)
    requires Pending(g, root, p, at, left, right) && |g[p].keys| < MAX_KEYS
    ensures var h := InternalGrown(g, root, p, at, left, right);
            CellOk(h[p]) && NodeOk(h, root, p, null, null)
  {
    hide MergedCell;
    Merged(g, root, p, at, left, right);
    var h := InternalGrown(g, root, p, at, left, right);
    assert CellOk(g[p]) && NodeOk(g, root, p, left, right);
    assert CellOk(h[p]);
    forall i | 0 <= i < |h[p].children|
      ensures ChildOk(h, p, i, null, null)
    {
      MergedChild(g, root, p, at, left, right, i);
    }
  }

  lemma PendingFacts(g: Graph, root: Node, p: Node, at: nat, left: Node, right: Node)
    requires Pending(g, root, p, at, left, right)
    ensures at <= |g[p].keys| && |g[p].children| == |g[p].keys| + 1 && right != p && g[right].parent == p
    ensures forall c :: c in g[p].children ==> c != null && c in g && c != p && g[c].parent == p
  {
    assert CellOk(g[p]) && CellOk(g[right]) && NodeOk(g, root, p, left, right) && NodeOk(g, root, right, left, right);
    forall c | c in g[p].children
      ensures c != null && c in g && c != p && g[c].parent == p
    {
      var i :| 0 <= i < |g[p].children| && g[p].children[i] == c;
      assert ChildOk(g, p, i, left, right);
    }
    assert ChildOk(g, p, at, left, right);
  }

  lemma LeftNotRoot(g: Graph, root: Node, p: Node, at: nat, left: Node, right: Node)
    requires Pending(g, root, p, at, left, right)
    ensures left != root && g[root].hi == KEY_LIMIT
  {
    assert CellOk(g[left]) && NodeOk(g, root, left, left, right);
    assert left != root;
    assert SeenHi(g, root, left, right) == g[root].hi;
  }

  /** A parent with room takes the pending child, which completes the tree. */
  lemma InternalGrew(g: Graph, root: Node, p: Node, at: nat, left: Node, right: Node)
    requires Pending(g, root, p, at, left, right) && |g[p].keys| < MAX_KEYS
    ensures IsTree(InternalGrown(g, root, p, at, left, right), root, null, null)
    ensures SameLeaves(g, InternalGrown(g, root, p, at, left, right))
  {
    hide MergedCell, NodeOk;
    var h := InternalGrown(g, root, p, at, left, right);
    InternalGrewTop(g, root, p, at, left, right);
    LeftNotRoot(g, root, p, at, left, right);
    forall n | n in h
      ensures CellOk(h[n]) && NodeOk(h, root, n, null, null)
    {
      if n != p {
        InternalGrewNode(g, root, p, at, left, right, n);
      }
    }
  }

  // ----- Splitting an internal node -----

  ghost function LeftInternal(m: Cell): Cell
    requires |m.keys| == ORDER && |m.children| == ORDER + 1
  {
    m.(keys := m.keys[..ORDER / 2], children := m.children[..ORDER / 2 + 1], hi := m.keys[ORDER / 2])
  }

  ghost function RightInternal(m: Cell): Cell
    requires |m.keys| == ORDER && |m.children| == ORDER + 1
  {
    Cell(false, m.keys[ORDER / 2 + 1..], [], m.children[ORDER / 2 + 1..],
         m.parent, null, m.height, m.keys[ORDER / 2], m.hi)
  }

  ghost function Reparent(g: Graph, cs: seq<Node?>, p: Node): Graph {
    map n | n in g :: if n in cs then g[n].(parent := p) else g[n]
  }

  /** The two halves of m go to p and `other`, and the children of the upper half follow. */
  ghost function Divided(g: Graph, p: Node, m: Cell, other: Node): Graph
    requires |m.keys| == ORDER && |m.children| == ORDER + 1
  {
    Reparent(g, RightInternal(m).children, other)[p := LeftInternal(m)][other := RightInternal(m)]
  }

  /** A full node takes the pending child and gives its upper half to `other`; the middle
      separator goes to neither and is left for their parent. */
  ghost function InternalSplit(g: Graph, root: Node, p: Node, at: nat, left: Node, right: Node, other: Node): Graph
    requires Pending(g, root, p, at, left, right) && |g[p].keys| == MAX_KEYS
  {
    Divided(g, p, MergedCell(g, root, p, at, left, right), other)
  }

  /** Increasing keys within bounds stay so on both sides of the middle one. */
  lemma HalvesIncrease(ks: seq<Key>, lo: nat, hi: nat)
    requires |ks| == ORDER && Increasing(ks) && forall i :: 0 <= i < |ks| ==> lo < ks[i] < hi
    ensures var front, back := ks[..ORDER / 2], ks[ORDER / 2 + 1..];
            && Increasing(front) && Increasing(back)
            && (forall i :: 0 <= i < |front| ==> lo < front[i] < ks[ORDER / 2])
            && (forall i :: 0 <= i < |back| ==> ks[ORDER / 2] < back[i] < hi)
  {
  }

  lemma InternalHalvesOk(g: Graph, root: Node, p: Node, at: nat, left: Node, right: Node)
    requires Pending(g, root, p, at, left, right) && |g[p].keys| == MAX_KEYS
    ensures var m := MergedCell(g, root, p, at, left, right);
            CellOk(LeftInternal(m)) && CellOk(RightInternal(m))
  {
    hide MergedCell;
    Merged(g, root, p, at, left, right);
    assert CellOk(g[p]);
    var m := MergedCell(g, root, p, at, left, right);
    HalvesIncrease(m.keys, m.lo, m.hi);
  }

  lemma InternalSplitFamily(g: Graph, root: Node, p: Node, at: nat, left: Node, right: Node, other: Node, i: nat)
    requires Pending(g, root, p, at, left, right) && |g[p].keys| == MAX_KEYS && other !in g && i <= ORDER
    ensures var m := MergedCell(g, root, p, at, left, right);
            var h := InternalSplit(g, root, p, at, left, right, other);
            var c := m.children[i];
            && Between(g, m.keys, m.children, i, g[p].lo, g[p].hi, g[p].height)
            && c in h && c != p && c != other
            && h[c] == g[c].(parent := if i <= ORDER / 2 then p else other)
  {
    hide MergedCell;
    Merged(g, root, p, at, left, right);
    MergedChild(g, root, p, at, left, right, i);
    var m := MergedCell(g, root, p, at, left, right);
    var c := m.children[i];
    var upper := m.children[ORDER / 2 + 1..];
    if i <= ORDER / 2 {
      if c in upper {
        var j :| 0 <= j < |upper| && upper[j] == c;
        MergedDistinct(g, root, p, at, left, right, i, ORDER / 2 + 1 + j);
      }
    } else {
      assert upper[i - ORDER / 2 - 1] == c;
    }
  }

  lemma MergedDistinct(g: Graph, root: Node, p: Node, at: nat, left: Node, right: Node, i: nat, j: nat)
    requires Pending(g, root, p, at, left, right)
    requires i < j < |MergedCell(g, root, p, at, left, right).children|
    ensures var m := MergedCell(g, root, p, at, left, right);
            m.children[i] != m.children[j]
  {
    hide MergedCell;
    Merged(g, root, p, at, left, right);
    var m := MergedCell(g, root, p, at, left, right);
    assert Between(g, m.keys, m.children, i, g[p].lo, g[p].hi, g[p].height);
    assert Between(g, m.keys, m.children, j, g[p].lo, g[p].hi, g[p].height);
    assert (if i == 0 then g[p].lo else m.keys[i - 1]) < m.keys[j - 1];
  }

  /** What the halves of a split internal node are. */
  lemma InternalSplitCells(g: Graph, root: Node, p: Node, at: nat, left: Node, right: Node, other: Node)
    requires Pending(g, root, p, at, left, right) && |g[p].keys| == MAX_KEYS && other !in g
    ensures var h := InternalSplit(g, root, p, at, left, right, other);
            var m := MergedCell(g, root, p, at, left, right);
            p in h && other in h && h[p] == LeftInternal(m) && h[other] == RightInternal(m) && h.Keys == g.Keys + {other}
  {
    hide MergedCell, LeftInternal, RightInternal;
  }

  lemma LeftHalfChild(g: Graph, root: Node, p: Node, at: nat, left: Node, right: Node, other: Node, i: nat)
    requires Pending(g, root, p, at, left, right) && |g[p].keys| == MAX_KEYS && other !in g && i <= ORDER / 2
    ensures var h := InternalSplit(g, root, p, at, left, right, other);
            p in h && CellOk(h[p]) && i < |h[p].children| && ChildOk(h, p, i, p, other)
  {
    hide MergedCell, InternalSplit, CellOk, Pending;
    InternalHalvesOk(g, root, p, at, left, right);
    InternalSplitCells(g, root, p, at, left, right, other);
    InternalSplitFamily(g, root, p, at, left, right, other, i);
  }

  lemma RightHalfChild(g: Graph, root: Node, p: Node, at: nat, left: Node, right: Node, other: Node, i: nat)
    requires Pending(g, root, p, at, left, right) && |g[p].keys| == MAX_KEYS && other !in g && i < ORDER - ORDER / 2
    ensures var h := InternalSplit(g, root, p, at, left, right, other);
            other in h && CellOk(h[other]) && i < |h[other].children| && ChildOk(h, other, i, p, other)
  {
    hide MergedCell, InternalSplit, CellOk, Pending;
    InternalHalvesOk(g, root, p, at, left, right);
    InternalSplitCells(g, root, p, at, left, right, other);
    InternalSplitFamily(g, root, p, at, left, right, other, ORDER / 2 + 1 + i);
  }

  /** Both halves of a split internal node are in order. */
  lemma InternalSplitHalves(g: Graph, root: Node, p: Node, at: nat, left: Node, right: Node, other: Node)
    requires Pending(g, root, p, at, left, right) && |g[p].keys| == MAX_KEYS && other !in g
    ensures var h := InternalSplit(g, root, p, at, left, right, other);
            && p in h && other in h && CellOk(h[p]) && CellOk(h[other])
            && ChildrenOk(h, p, p, other) && ChildrenOk(h, other, p, other)
  {
    hide MergedCell, InternalSplit, CellOk, Pending, ChildOk;
    InternalHalvesOk(g, root, p, at, left, right);
    InternalSplitCells(g, root, p, at, left, right, other);
    var h := InternalSplit(g, root, p, at, left, right, other);
    forall i | 0 <= i < |h[p].children|
      ensures ChildOk(h, p, i, p, other)
    {
      LeftHalfChild(g, root, p, at, left, right, other, i);
    }
    forall i | 0 <= i < |h[other].children|
      ensures ChildOk(h, other, i, p, other)
    {
      RightHalfChild(g, root, p, at, left, right, other, i);
    }
  }

  lemma InternalSplitOther(g: Graph, root: Node, p: Node, at: nat, left: Node, right: Node, other: Node, c: Node)
    requires Pending(g, root, p, at, left, right) && |g[p].keys| == MAX_KEYS && other !in g
    requires c in g && c != p && g[c].parent != p
    ensures InternalSplit(g, root, p, at, left, right, other)[c] == g[c]
  {
    hide MergedCell;
    MergedFamily(g, root, p, at, left, right, c);
    var m := MergedCell(g, root, p, at, left, right);
    assert forall i :: ORDER / 2 < i <= ORDER ==> m.children[i] != c;
  }

  /** A child of the split node goes with its half. */
  lemma InternalSplitChild(g: Graph, root: Node, p: Node, at: nat, left: Node, right: Node, other: Node, c: Node)
    requires Pending(g, root, p, at, left, right) && |g[p].keys| == MAX_KEYS && other !in g
    requires c in g && g[c].parent == p
    ensures c != p
    ensures var h := InternalSplit(g, root, p, at, left, right, other);
            && c in h && h[c] == g[c].(parent := h[c].parent)
            && (h[c].parent == p || h[c].parent == other) && h[c].parent in h
            && c in h[h[c].parent].children
  {
    hide MergedCell;
    MergedFamily(g, root, p, at, left, right, c);
    var m := MergedCell(g, root, p, at, left, right);
    var i :| 0 <= i < |m.children| && m.children[i] == c;
    InternalSplitFamily(g, root, p, at, left, right, other, i);
    if i > ORDER / 2 {
      assert m.children[ORDER / 2 + 1..][i - ORDER / 2 - 1] == c;
    } else {
      assert m.children[..ORDER / 2 + 1][i] == c;
    }
  }

  lemma ParentFacts(g: Graph, root: Node, p: Node, at: nat, left: Node, right: Node)
    requires Pending(g, root, p, at, left, right)
    ensures p in g && !g[p].isLeaf && g[p].parent != p
  {
    assert CellOk(g[p]) && NodeOk(g, root, p, left, right);
  }

  /** What the split of an internal node does to each node. */
  lemma InternalSplitMoves(g: Graph, root: Node, p: Node, at: nat, left: Node, right: Node, other: Node)
    requires Pending(g, root, p, at, left, right) && |g[p].keys| == MAX_KEYS && other !in g
    ensures var h := InternalSplit(g, root, p, at, left, right, other);
            && h.Keys == g.Keys + {other}
            && h[p].lo == g[p].lo && h[p].hi == h[other].lo && h[other].hi == g[p].hi
            && h[p].height == h[other].height == g[p].height && !h[p].isLeaf && !h[other].isLeaf
            && h[p].parent == h[other].parent == g[p].parent
            && |h[p].keys| == ORDER / 2 && |h[other].keys| == ORDER / 2 - 1
            && (forall c :: c in g && c != p ==> h[c] == g[c].(parent := h[c].parent))
            && (forall c :: c in g && c != p && g[c].parent != p ==> h[c].parent == g[c].parent)
            && (forall c :: c in g && g[c].parent == p ==> h[c].parent == p || h[c].parent == other)
            && (forall c :: c in g && g[c].parent == p ==> h[c].parent != null && h[c].parent in h && c in h[h[c].parent].children)
  {
    hide MergedCell, InternalSplit, Pending;
    InternalSplitCells(g, root, p, at, left, right, other);
    ParentFacts(g, root, p, at, left, right);
    var h := InternalSplit(g, root, p, at, left, right, other);
    forall c | c in g
      ensures c != p ==> h[c] == g[c].(parent := h[c].parent)
      ensures c != p && g[c].parent != p ==> h[c].parent == g[c].parent
      ensures g[c].parent == p ==> h[c].parent == p || h[c].parent == other
      ensures g[c].parent == p ==> h[c].parent in h && c in h[h[c].parent].children
    {
      if g[c].parent == p {
        InternalSplitChild(g, root, p, at, left, right, other, c);
      } else if c != p {
        InternalSplitOther(g, root, p, at, left, right, other, c);
      }
    }
  }

  lemma InternalSplitNode(g: Graph, root: Node, p: Node, at: nat, left: Node, right: Node, other: Node, n: Node)
    requires Pending(g, root, p, at, left, right) && |g[p].keys| == MAX_KEYS && other !in g && n in g && n != p
    ensures var h := InternalSplit(g, root, p, at, left, right, other);
            n in h && CellOk(h[n]) && ChildrenOk(h, n, p, other)
  {
    hide InternalSplit;
    var h := InternalSplit(g, root, p, at, left, right, other);
    InternalSplitMoves(g, root, p, at, left, right, other);
    assert CellOk(g[n]) && NodeOk(g, root, n, left, right);
    assert CellOk(g[p]) && CellOk(g[left]) && NodeOk(g, root, left, left, right);
    ChildrenKept(g, h, n, left, right, p, other);
  }

  lemma InternalSplitParent(g: Graph, root: Node, p: Node, at: nat, left: Node, right: Node, other: Node, n: Node)
    requires Pending(g, root, p, at, left, right) && |g[p].keys| == MAX_KEYS && other !in g
    requires var h := InternalSplit(g, root, p, at, left, right, other); n in h && CellOk(h[n]) && root in h
    ensures var h := InternalSplit(g, root, p, at, left, right, other);
            ParentOk(h, root, n, p, other)
  {
    hide InternalSplit;
    var h := InternalSplit(g, root, p, at, left, right, other);
    InternalSplitMoves(g, root, p, at, left, right, other);
    var m := if n == other then p else n;
    assert CellOk(g[p]) && CellOk(g[m]) && NodeOk(g, root, m, left, right) && NodeOk(g, root, p, left, right);
    assert CellOk(g[right]) && CellOk(g[left]);
  }

  lemma InternalSplitNodeOk(g: Graph, root: Node, p: Node, at: nat, left: Node, right: Node, other: Node, n: Node)
    requires Pending(g, root, p, at, left, right) && |g[p].keys| == MAX_KEYS && other !in g
    requires n == other || n in g
    ensures var h := InternalSplit(g, root, p, at, left, right, other);
            n in h && root in h && CellOk(h[n]) && NodeOk(h, root, n, p, other)
  {
    hide InternalSplit;
    InternalSplitMoves(g, root, p, at, left, right, other);
    InternalSplitHalves(g, root, p, at, left, right, other);
    if n != p && n != other {
      InternalSplitNode(g, root, p, at, left, right, other, n);
    }
    InternalSplitParent(g, root, p, at, left, right, other, n);
  }

  lemma InternalSplitRange(g: Graph, root: Node, p: Node, at: nat, left: Node, right: Node, other: Node)
    requires Pending(g, root, p, at, left, right) && |g[p].keys| == MAX_KEYS && other !in g
    ensures var h := InternalSplit(g, root, p, at, left, right, other);
            && root in h && p in h && other in h && other != root && SplitPair(h, p, other)
            && h[root].lo == 0 && SeenHi(h, root, p, other) == KEY_LIMIT
  {
    hide InternalSplit;
    InternalSplitMoves(g, root, p, at, left, right, other);
    assert CellOk(g[left]) && NodeOk(g, root, left, left, right);
  }

  /** Splitting an internal node hands the pending pair one level up. */
  lemma InternalWasSplit(g: Graph, root: Node, p: Node, at: nat, left: Node, right: Node, other: Node)
    requires Pending(g, root, p, at, left, right) && |g[p].keys| == MAX_KEYS && other !in g
    ensures IsTree(InternalSplit(g, root, p, at, left, right, other), root, p, other)
    ensures SameLeaves(g, InternalSplit(g, root, p, at, left, right, other))
  {
    hide InternalSplit, CellOk, NodeOk, SameLeaves;
    var h := InternalSplit(g, root, p, at, left, right, other);
    InternalSplitLeaves(g, root, p, at, left, right, other);
    InternalSplitRange(g, root, p, at, left, right, other);
    InternalSplitMoves(g, root, p, at, left, right, other);
    forall n | n in h
      ensures CellOk(h[n]) && NodeOk(h, root, n, p, other)
    {
      InternalSplitNodeOk(g, root, p, at, left, right, other, n);
    }
  }

  lemma InternalSplitLeaves(g: Graph, root: Node, p: Node, at: nat, left: Node, right: Node, other: Node)
    requires Pending(g, root, p, at, left, right) && |g[p].keys| == MAX_KEYS && other !in g
    ensures SameLeaves(g, InternalSplit(g, root, p, at, left, right, other))
  {
    hide InternalSplit;
    InternalSplitMoves(g, root, p, at, left, right, other);
  }

  // ----- The first key -----

  ghost function FirstLeaf(key: Key, offset: int): Cell {
    Cell(true, [key], [offset], [], null, null, 0, 0, KEY_LIMIT)
  }

  lemma FirstLeafOk(leaf: Node, key: Key, offset: int)
    ensures IsIndex(map[leaf := FirstLeaf(key, offset)], leaf, null, null, map[key := offset])
  {
    var g := map[leaf := FirstLeaf(key, offset)];
    assert NodeOk(g, leaf, leaf, null, null);
  }

  // ----- The steps that link the right half, with the stored map -----

  lemma IndexRootGrew(g: Graph, root: Node, left: Node, right: Node, top: Node, contents: map<Key, int>)
    requires IsIndex(g, root, left, right, contents) && left in g && right in g && g[left].parent == null && top !in g
    requires g[right].lo < KEY_LIMIT
    ensures IsIndex(RootGrown(g, left, right, top), top, null, null, contents)
  {
    RootGrew(g, root, left, right, top);
    SameLeavesOk(g, RootGrown(g, left, right, top), contents);
  }

  lemma IndexInternalGrew(g: Graph, root: Node, p: Node, at: nat, left: Node, right: Node, contents: map<Key, int>)
    requires IsIndex(g, root, left, right, contents)
    requires Pending(g, root, p, at, left, right) && |g[p].keys| < MAX_KEYS
    ensures IsIndex(InternalGrown(g, root, p, at, left, right), root, null, null, contents)
  {
    InternalGrew(g, root, p, at, left, right);
    SameLeavesOk(g, InternalGrown(g, root, p, at, left, right), contents);
  }

  lemma IndexInternalSplit(g: Graph, root: Node, p: Node, at: nat, left: Node, right: Node, other: Node, contents: map<Key, int>)
    requires IsIndex(g, root, left, right, contents)
    requires Pending(g, root, p, at, left, right) && |g[p].keys| == MAX_KEYS && other !in g
    ensures var h := InternalSplit(g, root, p, at, left, right, other);
            && IsIndex(h, root, p, other, contents)
            && h.Keys == g.Keys + {other} && root in g
            && h[root].height == g[root].height && h[p].height == g[p].height <= g[root].height
  {
    hide InternalSplit;
    InternalSplitMoves(g, root, p, at, left, right, other);
    assert CellOk(g[p]) && NodeOk(g, root, p, left, right);
    InternalWasSplit(g, root, p, at, left, right, other);
    SameLeavesOk(g, InternalSplit(g, root, p, at, left, right, other), contents);
  }

  /** The leaf that covers a key stores it if any does. */
  lemma LeafHolds(g: Graph, root: Node, leaf: Node, contents: map<Key, int>, key: Key)
    requires IsIndex(g, root, null, null, contents) && leaf in g && g[leaf].isLeaf && g[leaf].Covers(key)
    ensures CellOk(g[leaf]) && g[leaf].height == 0 && LeafOk(g, leaf, contents)
    ensures key in g[leaf].keys <==> key in contents
  {
    assert CellOk(g[leaf]) && LeafOk(g, leaf, contents);
  }

  /** The parent of the left half, if it has one, knows it as a child. */
  lemma LeftInParent(g: Graph, root: Node, left: Node, right: Node, contents: map<Key, int>)
    requires IsIndex(g, root, left, right, contents) && left in g && right in g
    ensures root in g && g[left].height <= g[root].height && g[right].lo < KEY_LIMIT && left != right
    ensures g[left].parent != null ==>
      && g[left].parent in g && !g[g[left].parent].isLeaf
      && g[left].height < g[g[left].parent].height <= g[root].height
      && left in g[g[left].parent].children
      && |g[g[left].parent].children| == |g[g[left].parent].keys| + 1
  {
    assert CellOk(g[left]) && CellOk(g[right]) && NodeOk(g, root, left, left, right);
    if g[left].parent != null {
      assert CellOk(g[g[left].parent]) && NodeOk(g, root, g[left].parent, left, right);
    }
  }
}
