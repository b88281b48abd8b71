/** The B+Tree that maps row ids to byte offsets in the data file, as heap operations.

    Every method is proved against the graph of the nodes it works on: what it does to
    the heap is the update of the same name in BPTreeGraph.
  */
module BPTree {
  import opened BPTreeGraph

  /** The heap nodes hold what the graph says. */
  ghost predicate Mirrors(g: Graph)
    reads g.Keys
  {
    forall n :: n in g ==> n.Sized() && n.View() == g[n]
  }

  lemma MirrorFields(g: Graph, n: Node)
    requires Mirrors(g) && n in g
    ensures n.Sized() && n.View() == g[n] && g[n].isLeaf == n.isLeaf && |g[n].keys| == n.keyCount <= |n.keys|
    ensures n.isLeaf ==> g[n].children == [] && |g[n].offsets| == n.keyCount
  {
  }

  /** Copies `count` entries to temp, leaving room for x at index `at`. */
  method CopyWithInsert<T>(src: seq<T>, count: nat, at: nat, x: T, temp: array<T>)
    requires at <= count <= |src| && count < temp.Length
    modifies temp
    ensures temp[..count + 1] == InsertAt(src[..count], at, x)
  {
    for i := 0 to at
      invariant forall j :: 0 <= j < i ==> temp[j] == src[j]
    {
      temp[i] := src[i];
    }
    temp[at] := x;
    for i := at to count
      invariant forall j :: 0 <= j < at ==> temp[j] == src[j]
      invariant temp[at] == x
      invariant forall j :: at < j <= i ==> temp[j] == src[j - 1]
    {
      temp[i + 1] := src[i];
    }
  }

  /** The first index whose key is not smaller than `key`. */
  method LowerBound(leaf: Node, key: Key) returns (at: nat)
    requires leaf.Sized() && CellOk(leaf.View())
    ensures at <= leaf.keyCount
    ensures forall j :: 0 <= j < at ==> leaf.keys[j] < key
    ensures forall j :: at <= j < leaf.keyCount ==> key <= leaf.keys[j]
    ensures key in leaf.View().keys <==> at < leaf.keyCount && leaf.keys[at] == key
    ensures key !in leaf.View().keys ==> IsPlace(leaf.View().keys, at, key)
  {
    at := 0;
    while at < leaf.keyCount && leaf.keys[at] < key
      invariant at <= leaf.keyCount
      invariant forall j :: 0 <= j < at ==> leaf.keys[j] < key
    {
      at := at + 1;
    }
    ghost var ks := leaf.View().keys;
    assert forall j :: at <= j < |ks| ==> key <= ks[j] && (key == ks[j] ==> j == at);
  }

  /** Shifts the entries of a leaf from `at` on up by one and puts the pair there. */
  method ShiftIntoLeaf(leaf: Node, at: nat, key: Key, offset: int)
    requires leaf.Sized() && at <= leaf.keyCount < MAX_KEYS
    modifies leaf`keys, leaf`offsets, leaf`keyCount
    ensures leaf.Sized() && leaf.keyCount == old(leaf.keyCount) + 1
    ensures Inserted(old(leaf.keys), leaf.keys, old(leaf.keyCount), at, key)
    ensures Inserted(old(leaf.offsets), leaf.offsets, old(leaf.keyCount), at, offset)
  {
    var i := leaf.keyCount;
    while i > at
      invariant at <= i <= leaf.keyCount == old(leaf.keyCount)
      invariant |leaf.keys| == |leaf.offsets| == MAX_KEYS
      invariant forall j :: 0 <= j < i ==> leaf.keys[j] == old(leaf.keys)[j] && leaf.offsets[j] == old(leaf.offsets)[j]
      invariant forall j :: i < j <= leaf.keyCount ==>
        leaf.keys[j] == old(leaf.keys)[j - 1] && leaf.offsets[j] == old(leaf.offsets)[j - 1]
    {
      leaf.keys := leaf.keys[i := leaf.keys[i - 1]];
      leaf.offsets := leaf.offsets[i := leaf.offsets[i - 1]];
      i := i - 1;
    }
    leaf.keys := leaf.keys[at := key];
    leaf.offsets := leaf.offsets[at := offset];
    leaf.keyCount := leaf.keyCount + 1;
  }

  /** Puts a pair into a leaf that has room, unless its key is there already. */
  method InsertIntoLeaf(leaf: Node, key: Key, offset: int) returns (ok: bool, ghost at: nat)
    requires leaf.Sized() && CellOk(leaf.View()) && leaf.isLeaf && leaf.keyCount < MAX_KEYS
    modifies leaf`keys, leaf`offsets, leaf`keyCount
    ensures leaf.Sized()
    ensures ok <==> key !in old(leaf.View().keys)
    ensures !ok ==> unchanged(leaf)
    ensures ok ==> IsPlace(old(leaf.View().keys), at, key) && leaf.View() == GrownLeaf(old(leaf.View()), at, key, offset)
  {
    var index := LowerBound(leaf, key);
    at := index;
    if index < leaf.keyCount && leaf.keys[index] == key {
      return false, at;
    }
    ShiftIntoLeaf(leaf, index, key, offset);
    InsertedIsInsertAt(old(leaf.keys), leaf.keys, old(leaf.keyCount), at, key);
    InsertedIsInsertAt(old(leaf.offsets), leaf.offsets, old(leaf.keyCount), at, offset);
    ok := true;
  }

  /** Shifts the keys of an internal node from `at` on up by one, and the children after `at`. */
  method ShiftIntoInternal(node: Node, at: nat, sep: Key, right: Node)
    requires node.Sized() && at <= node.keyCount < MAX_KEYS
    modifies node`keys, node`children
    ensures |node.keys| == MAX_KEYS && |node.children| == ORDER
    ensures Inserted(old(node.keys), node.keys, node.keyCount, at, sep)
    ensures Inserted(old(node.children), node.children, node.keyCount + 1, at + 1, right)
  {
    var i := node.keyCount;
    while i > at
      invariant at <= i <= node.keyCount
      invariant |node.keys| == MAX_KEYS && node.children == old(node.children)
      invariant forall j :: 0 <= j < i ==> node.keys[j] == old(node.keys)[j]
      invariant forall j :: i < j <= node.keyCount ==> node.keys[j] == old(node.keys)[j - 1]
    {
      node.keys := node.keys[i := node.keys[i - 1]];
      i := i - 1;
    }
    i := node.keyCount + 1;
    ghost var shifted := node.keys;
    while i > at + 1
      invariant at + 1 <= i <= node.keyCount + 1
      invariant node.keys == shifted && |node.children| == ORDER
      invariant forall j :: 0 <= j < i ==> node.children[j] == old(node.children)[j]
      invariant forall j :: i < j <= node.keyCount + 1 ==> node.children[j] == old(node.children)[j - 1]
    {
      node.children := node.children[i := node.children[i - 1]];
      i := i - 1;
    }
    node.keys := node.keys[at := sep];
    node.children := node.children[at + 1 := right];
  }

  /** Puts a separator and the child to its right into an internal node that has room. */
  method InsertIntoInternal(node: Node, at: nat, sep: Key, right: Node)
    requires node.Sized() && !node.isLeaf && node.keyCount < MAX_KEYS && at <= node.keyCount && right != node
    modifies node`keys, node`children, node`keyCount, right`parent
    ensures node.Sized() && right.parent == node
    ensures node.View() == GrownInternal(old(node.View()), at, sep, right)
    ensures right.Sized() == old(right.Sized())
    ensures old(right.Sized()) ==> right.View() == old(right.View()).(parent := node)
  {
    hide InsertAt;
    ShiftIntoInternal(node, at, sep, right);
    right.parent := node;
    node.keyCount := node.keyCount + 1;
    InsertedIsInsertAt(old(node.keys), node.keys, old(node.keyCount), at, sep);
    InsertedIsInsertAt(old(node.children), node.children, old(node.keyCount) + 1, at + 1, right);
  }

  /** Clears a leaf and refills it with `count` pairs of the temporary arrays. */
  method FillLeaf(node: Node, tempKeys: array<Key>, tempOffsets: array<int>, from: nat, count: nat)
    requires node.Sized() && node.isLeaf && count <= MAX_KEYS
    requires from + count <= tempKeys.Length == tempOffsets.Length
    modifies node`keys, node`offsets, node`keyCount
    ensures node.Sized()
    ensures node.View() == old(node.View()).(keys := tempKeys[from..from + count], offsets := tempOffsets[from..from + count])
  {
    node.keys, node.offsets := NoKeys(), NoOffsets();
    node.keyCount := count;
    for i := 0 to count
      invariant |node.keys| == |node.offsets| == MAX_KEYS && node.keyCount == count
      invariant forall j :: 0 <= j < i ==> node.keys[j] == tempKeys[from + j] && node.offsets[j] == tempOffsets[from + j]
    {
      node.keys := node.keys[i := tempKeys[from + i]];
      node.offsets := node.offsets[i := tempOffsets[from + i]];
    }
    assert node.keys[..count] == tempKeys[from..from + count];
    assert node.offsets[..count] == tempOffsets[from..from + count];
  }

  /** Copies `count` children of the temporary array to the node and makes it their parent. */
  method AdoptChildren(node: Node, tempChildren: array<Node?>, from: nat, count: nat, ghost nodes: set<Node>)
    requires |node.children| == ORDER && count <= ORDER && from + count <= tempChildren.Length
    requires forall j :: from <= j < from + count ==> tempChildren[j] != null && tempChildren[j] != node && tempChildren[j] in nodes
    modifies node`children, (nodes - {node})`parent
    ensures |node.children| == ORDER && node.children[..count] == tempChildren[from..from + count]
    ensures forall c :: c in nodes && c != node ==>
      c.parent == if c in tempChildren[from..from + count] then node else old(c.parent)
  {
    for i := 0 to count
      modifies node`children, (nodes - {node})`parent
      invariant |node.children| == ORDER
      invariant node.children[..i] == tempChildren[from..from + i]
      invariant forall c :: c in nodes && c != node ==>
        c.parent == if c in tempChildren[from..from + i] then node else old(c.parent)
    {
      var child := tempChildren[from + i];
      node.children := node.children[i := child];
      if child != null {
        child.parent := node;
      }
      assert tempChildren[from..from + (i + 1)] == tempChildren[from..from + i] + [child];
    }
  }

  method FillKeys(node: Node, tempKeys: array<Key>, from: nat, count: nat)
    requires |node.keys| == MAX_KEYS && count <= MAX_KEYS && from + count <= tempKeys.Length
    modifies node`keys
    ensures |node.keys| == MAX_KEYS && node.keys[..count] == tempKeys[from..from + count]
  {
    for i := 0 to count
      invariant |node.keys| == MAX_KEYS
      invariant forall j :: 0 <= j < i ==> node.keys[j] == tempKeys[from + j]
    {
      node.keys := node.keys[i := tempKeys[from + i]];
    }
  }

  /** Clears an internal node, refills it with `count` keys and the children around them, and
      makes it their parent. */
  method FillInternal(node: Node, tempKeys: array<Key>, tempChildren: array<Node?>, from: nat, count: nat,
                      ghost nodes: set<Node>)
    requires node.Sized() && !node.isLeaf && count <= MAX_KEYS && forall c :: c in nodes ==> c.Sized()
    requires from + count <= tempKeys.Length && from + count < tempChildren.Length
    requires forall j :: from <= j <= from + count ==> tempChildren[j] != null && tempChildren[j] != node && tempChildren[j] in nodes
    modifies node`keys, node`children, node`keyCount, (nodes - {node})`parent
    ensures node.Sized()
    ensures node.View() ==
      old(node.View()).(keys := tempKeys[from..from + count], children := tempChildren[from..from + count + 1])
    ensures forall c :: c in nodes ==> c.Sized()
    ensures forall c :: c in nodes && c != node ==>
      c.View() == if c in tempChildren[from..from + count + 1] then old(c.View()).(parent := node) else old(c.View())
  {
    node.keys, node.children := NoKeys(), NoChildren();
    node.keyCount := count;
    FillKeys(node, tempKeys, from, count);
    AdoptChildren(node, tempChildren, from, count + 1, nodes);
  }

  method MakeRootLeaf(key: Key, offset: int) returns (leaf: Node)
    ensures fresh(leaf) && leaf.Sized() && leaf.View() == FirstLeaf(key, offset)
  {
    leaf := new Node(true);
    leaf.keys := leaf.keys[0 := key];
    leaf.offsets := leaf.offsets[0 := offset];
    leaf.keyCount := 1;
    leaf.height, leaf.lo, leaf.hi := 0, 0, KEY_LIMIT;
  }

  method MakeRoot(left: Node, sep: Key, right: Node) returns (top: Node)
    ensures fresh(top) && top.Sized()
    ensures top.View() == Cell(false, [sep], [], [left, right], null, null, left.height + 1, left.lo, right.hi)
  {
    top := new Node(false);
    top.keys := top.keys[0 := sep];
    top.children := top.children[0 := left];
    top.children := top.children[1 := right];
    top.keyCount := 1;
    top.height, top.lo, top.hi := left.height + 1, left.lo, right.hi;
  }

  method SetParent(n: Node, parent: Node)
    requires n.Sized()
    modifies n`parent
    ensures n.Sized() && n.View() == old(n.View()).(parent := parent)
  {
    n.parent := parent;
  }

  /** The two halves of a leaf, before they are linked. */
  method DivideLeaf(leaf: Node, newLeaf: Node, at: nat, key: Key, offset: int)
    requires leaf != newLeaf && leaf.Sized() && newLeaf.Sized() && leaf.isLeaf && newLeaf.isLeaf
    requires leaf.keyCount == MAX_KEYS && at <= MAX_KEYS
    modifies leaf`keys, leaf`offsets, leaf`keyCount, newLeaf`keys, newLeaf`offsets, newLeaf`keyCount
    ensures leaf.Sized() && newLeaf.Sized()
    ensures var m := GrownLeaf(old(leaf.View()), at, key, offset);
            && leaf.View() == old(leaf.View()).(keys := m.keys[..ORDER / 2], offsets := m.offsets[..ORDER / 2])
            && newLeaf.View() == old(newLeaf.View()).(keys := m.keys[ORDER / 2..], offsets := m.offsets[ORDER / 2..])
  {
    hide InsertAt, Node.View, Node.Sized;
    ViewFields(leaf);
    var tempKeys := new Key[ORDER];
    var tempOffsets := new int[ORDER];
    CopyWithInsert(leaf.keys, leaf.keyCount, at, key, tempKeys);
    CopyWithInsert(leaf.offsets, leaf.keyCount, at, offset, tempOffsets);
    ghost var m := GrownLeaf(leaf.View(), at, key, offset);
    assert tempKeys[..] == m.keys && tempOffsets[..] == m.offsets;
    var total := leaf.keyCount + 1;
    var leftCount := total / 2;
    var rightCount := total - leftCount;
    FillLeaf(leaf, tempKeys, tempOffsets, 0, leftCount);
    FillLeaf(newLeaf, tempKeys, tempOffsets, leftCount, rightCount);
    WholeSlices(m.keys, leftCount, leftCount);
    WholeSlices(m.offsets, leftCount, leftCount);
  }

  /** Puts the new leaf after the old one in the chain, under the same parent. */
  method LinkLeaf(leaf: Node, newLeaf: Node)
    requires leaf != newLeaf && leaf.Sized() && newLeaf.Sized() && newLeaf.keyCount > 0
    modifies leaf`next, leaf`hi, newLeaf`next, newLeaf`parent, newLeaf`height, newLeaf`lo, newLeaf`hi
    ensures leaf.Sized() && newLeaf.Sized()
    ensures leaf.View() == old(leaf.View()).(next := newLeaf, hi := newLeaf.View().keys[0])
    ensures newLeaf.View() == old(newLeaf.View()).(next := old(leaf.next), parent := leaf.parent, height := 0,
                                                   lo := newLeaf.View().keys[0], hi := old(leaf.hi))
  {
    newLeaf.next := leaf.next;
    newLeaf.parent := leaf.parent;
    leaf.next := newLeaf;
    newLeaf.height, newLeaf.lo, newLeaf.hi := 0, newLeaf.keys[0], leaf.hi;
    leaf.hi := newLeaf.lo;
  }

  lemma MirrorsTwo(g: Graph, a: Node, ca: Cell, b: Node, cb: Cell)
    requires a.Sized() && a.View() == ca && b.Sized() && b.View() == cb && a != b
    requires forall c :: c in g && c != a && c != b ==> c.Sized() && c.View() == g[c]
    ensures Mirrors(g[a := ca][b := cb])
  {
    hide Node.View, Node.Sized;
  }

  /** A full leaf gives the upper half of its pairs, with the new one, to a new leaf. */
  method SplitOffLeaf(leaf: Node, at: nat, key: Key, offset: int, ghost g: Graph) returns (newLeaf: Node)
    requires Mirrors(g) && leaf in g && leaf.isLeaf && g[leaf].height == 0 && g[leaf].children == []
    requires |g[leaf].keys| == |g[leaf].offsets| == MAX_KEYS && at <= MAX_KEYS
    modifies leaf
    ensures fresh(newLeaf) && Mirrors(LeafSplit(g, leaf, newLeaf, at, key, offset))
    ensures |newLeaf.keys| > 0 && newLeaf.keys[0] == LeafSplit(g, leaf, newLeaf, at, key, offset)[newLeaf].lo
  {
    hide Node.View, Node.Sized, InsertAt;
    ViewFields(leaf);
    newLeaf := new Node(true);
    ViewFields(newLeaf);
    DivideLeaf(leaf, newLeaf, at, key, offset);
    ViewFields(newLeaf);
    LinkLeaf(leaf, newLeaf);
    ViewFields(newLeaf);
    ghost var m := GrownLeaf(g[leaf], at, key, offset);
    MirrorsTwo(g, leaf, LeftLeaf(m, newLeaf), newLeaf, RightLeaf(m));
  }

  /** The two halves of an internal node and the new parents of the children of the upper half. */
  method DivideInternal(node: Node, rightNode: Node, at: nat, sep: Key, right: Node, ghost g: Graph) returns (promoted: Key)
    requires Mirrors(g) && node in g && rightNode !in g && right in g && rightNode.Sized()
    requires !node.isLeaf && !rightNode.isLeaf && |g[node].keys| == MAX_KEYS && |g[node].children| == ORDER && at <= MAX_KEYS
    requires right != node && g[right].parent == node
    requires forall c :: c in g[node].children ==> c != null && c in g && c != node && g[c].parent == node
    modifies node`keys, node`children, node`keyCount, rightNode`keys, rightNode`children, rightNode`keyCount, g.Keys`parent
    ensures rightNode.Sized() && (forall c :: c in g ==> c.Sized())
    ensures var m := GrownInternal(g[node], at, sep, right);
            && promoted == m.keys[ORDER / 2]
            && node.View() == g[node].(keys := m.keys[..ORDER / 2], children := m.children[..ORDER / 2 + 1])
            && rightNode.View() ==
                 old(rightNode.View()).(keys := m.keys[ORDER / 2 + 1..], children := m.children[ORDER / 2 + 1..])
            && (forall c :: c in g && c != node ==>
                  c.View() == if c in m.children[ORDER / 2 + 1..] then g[c].(parent := rightNode) else g[c])
  {
    hide InsertAt, Node.View, Node.Sized;
    ghost var m := GrownInternal(g[node], at, sep, right);
    var tempKeys, tempChildren := MergeChildren(node, at, sep, right, g);
    var total := node.keyCount + 1;
    var split := total / 2;
    promoted := tempKeys[split];
    FillInternal(node, tempKeys, tempChildren, 0, split, g.Keys);
    var rightCount := total - split - 1;
    FillInternal(rightNode, tempKeys, tempChildren, split + 1, rightCount, g.Keys);
    WholeSlices(m.keys, split, split + 1);
    WholeSlices(m.children, split + 1, split + 1);
  }

  /** The keys and children of a full node with the new ones among them. */
  method MergeChildren(node: Node, at: nat, sep: Key, right: Node, ghost g: Graph)
    returns (tempKeys: array<Key>, tempChildren: array<Node?>)
    requires Mirrors(g) && node in g && right in g && !node.isLeaf
    requires |g[node].keys| == MAX_KEYS && |g[node].children| == ORDER && at <= MAX_KEYS
    requires right != node && g[right].parent == node
    requires forall c :: c in g[node].children ==> c != null && c in g && c != node && g[c].parent == node
    ensures fresh(tempKeys) && fresh(tempChildren) && |node.keys| == node.keyCount == MAX_KEYS
    ensures var m := GrownInternal(g[node], at, sep, right);
            && tempKeys[..] == m.keys && tempChildren[..] == m.children
            && (forall i :: 0 <= i < |m.children| ==>
                  m.children[i] != null && m.children[i] in g && m.children[i] != node && g[m.children[i]].parent == node)
  {
    hide InsertAt;
    ghost var m := GrownInternal(g[node], at, sep, right);
    tempKeys := new Key[ORDER];
    tempChildren := new Node?[ORDER + 1];
    CopyWithInsert(node.keys, node.keyCount, at, sep, tempKeys);
    CopyWithInsert(node.children, node.keyCount + 1, at + 1, right, tempChildren);
    assert tempKeys[..] == m.keys && tempChildren[..] == m.children;
    forall i | 0 <= i < |m.children|
      ensures m.children[i] != null && m.children[i] in g && m.children[i] != node && g[m.children[i]].parent == node
    {
      InsertAtMembers(g[node].children, at + 1, right, m.children[i]);
    }
  }

  lemma MirrorsDivided(g: Graph, node: Node, m: Cell, rightNode: Node)
    requires node in g && |m.keys| == ORDER && |m.children| == ORDER + 1
    requires forall c :: c in g ==> c.Sized()
    requires rightNode.Sized() && rightNode.View() == RightInternal(m) && node.View() == LeftInternal(m)
    requires forall c :: c in g && c != node && c != rightNode ==>
      c.View() == if c in RightInternal(m).children then g[c].(parent := rightNode) else g[c]
    ensures node != rightNode ==> Mirrors(Divided(g, node, m, rightNode))
  {
    hide Node.View, Node.Sized, LeftInternal, RightInternal;
  }

  lemma MirrorsUpdated(g: Graph, node: Node, m: Cell)
    requires node in g && node.Sized() && node.View() == m
    requires forall c :: c in g && c != node ==> c.Sized() && c.View() == g[c]
    ensures Mirrors(g[node := m])
  {
    hide Node.View, Node.Sized;
  }

  lemma LeafCell(g: Graph, leaf: Node)
    requires Mirrors(g) && leaf in g
    ensures g[leaf].isLeaf == leaf.isLeaf && |g[leaf].keys| == leaf.keyCount
  {
    hide Node.View, Node.Sized;
    ViewFields(leaf);
  }

  /** Insertion into a leaf with room, as it shows in the graph. */
  method AddToLeaf(leaf: Node, key: Key, offset: int, ghost g: Graph) returns (ok: bool, ghost at: nat)
    requires Mirrors(g) && leaf in g && g[leaf].isLeaf && CellOk(g[leaf]) && |g[leaf].keys| < MAX_KEYS
    modifies leaf`keys, leaf`offsets, leaf`keyCount
    ensures ok <==> key !in g[leaf].keys
    ensures !ok ==> unchanged(leaf) && Mirrors(g)
    ensures ok ==> IsPlace(g[leaf].keys, at, key) && Mirrors(g[leaf := GrownLeaf(g[leaf], at, key, offset)])
  {
    hide CellOk, GrownLeaf, IsPlace, Node.View, Node.Sized;
    ViewFields(leaf);
    ok, at := InsertIntoLeaf(leaf, key, offset);
    if ok {
      MirrorsUpdated(g, leaf, GrownLeaf(g[leaf], at, key, offset));
    }
  }

  /** A full internal node gives the upper half of its children, with the new one, to a new node. */
  method SplitOffInternal(node: Node, at: nat, sep: Key, right: Node, ghost g: Graph) returns (promoted: Key, rightNode: Node)
    requires Mirrors(g) && node in g && right in g && !node.isLeaf
    requires |g[node].keys| == MAX_KEYS && |g[node].children| == ORDER && at <= MAX_KEYS
    requires right != node && g[right].parent == node
    requires forall c :: c in g[node].children ==> c != null && c in g && c != node && g[c].parent == node
    modifies g.Keys
    ensures fresh(rightNode)
    ensures var m := GrownInternal(g[node], at, sep, right);
            Mirrors(Divided(g, node, m, rightNode)) && promoted == Divided(g, node, m, rightNode)[rightNode].lo
  {
    hide Node.View, Node.Sized, InsertAt;
    ViewFields(node);
    rightNode := new Node(false);
    ViewFields(rightNode);
    promoted := DivideInternal(node, rightNode, at, sep, right, g);
    ViewFields(node);
    LinkInternal(node, rightNode, promoted);
    MirrorsDivided(g, node, GrownInternal(g[node], at, sep, right), rightNode);
  }

  method LinkInternal(node: Node, rightNode: Node, promoted: Key)
    requires node != rightNode && node.Sized() && rightNode.Sized()
    modifies node`hi, rightNode`parent, rightNode`height, rightNode`lo, rightNode`hi
    ensures node.Sized() && rightNode.Sized()
    ensures node.View() == old(node.View()).(hi := promoted)
    ensures rightNode.View() ==
      old(rightNode.View()).(parent := node.parent, height := node.height, lo := promoted, hi := old(node.hi))
  {
    rightNode.parent := node.parent;
    rightNode.height, rightNode.lo, rightNode.hi := node.height, promoted, node.hi;
    node.hi := promoted;
  }

  /** A new root over the two halves of the old one. */
  method AddRoot(left: Node, sep: Key, right: Node, ghost g: Graph) returns (newRoot: Node)
    requires Mirrors(g) && left in g && right in g && left != right && sep == g[right].lo
    modifies left`parent, right`parent
    ensures fresh(newRoot) && Mirrors(RootGrown(g, left, right, newRoot))
  {
    hide Node.View, Node.Sized;
    ViewFields(left);
    ViewFields(right);
    newRoot := MakeRoot(left, sep, right);
    SetParent(left, newRoot);
    SetParent(right, newRoot);
  }

  class Tree {
    var root: Node?
    var keyCount: nat

    ghost var graph: Graph
    ghost var contents: map<Key, int>

    constructor ()
      ensures Valid() && contents == map[] && graph == map[]
    {
      root, keyCount := null, 0;
      graph, contents := map[], map[];
    }

    ghost predicate Valid()
      reads this, graph.Keys
    {
      && Mirrors(graph)
      && keyCount == |contents|
      && if root == null then graph == map[] && contents == map[] else IsIndex(graph, root, null, null, contents)
    }

    method FindLeaf(key: Key) returns (leaf: Node)
      requires Valid() && root != null
      ensures leaf in graph && leaf.isLeaf && graph[leaf].Covers(key) && leaf.keyCount <= MAX_KEYS
    {
      var node := root;
      while !node.isLeaf
        invariant node in graph && graph[node].Covers(key)
        decreases node.height
      {
        assert CellOk(graph[node]);
        var i := 0;
        while i < node.keyCount && key >= node.keys[i]
          invariant i <= node.keyCount
          invariant i > 0 ==> node.keys[i - 1] <= key
        {
          i := i + 1;
        }
        assert NodeOk(graph, root, node, null, null);
        assert ChildOk(graph, node, i, null, null);
        node := node.children[i];
      }
      leaf := node;
    }

    method Search(key: Key) returns (offset: int, found: bool)
      requires Valid()
      ensures found <==> key in contents
      ensures offset == if found then contents[key] else 0
    {
      hide IsIndex, Node.View, Node.Sized, CellOk;
      if root == null {
        return 0, false;
      }
      var leaf := FindLeaf(key);
      ViewFields(leaf);
      LeafHolds(graph, root, leaf, contents, key);
      for i := 0 to leaf.keyCount
        invariant forall j :: 0 <= j < i ==> leaf.keys[j] != key
      {
        if leaf.keys[i] == key {
          assert graph[leaf].keys[i] == key;
          return leaf.offsets[i], true;
        }
      }
      return 0, false;
    }

    method Insert(key: Key, offset: int) returns (ok: bool)
      requires Valid()
      modifies this, graph.Keys
      ensures Valid() && fresh(graph.Keys - old(graph.Keys))
      ensures ok <==> key !in old(contents)
      ensures contents == if ok then old(contents)[key := offset] else old(contents)
      ensures !ok ==> unchanged(this) && unchanged(graph.Keys)
    {
      hide IsIndex, Mirrors;
      if root == null {
        FirstKey(key, offset);
        return true;
      }
      var leaf := FindLeaf(key);
      if leaf.keyCount < MAX_KEYS {
        ok := GrowLeaf(leaf, key, offset);
      } else {
        ok := SplitLeaf(leaf, key, offset);
      }
      if ok {
        keyCount := keyCount + 1;
      }
    }

    /** The first insert makes a root leaf. */
    method FirstKey(key: Key, offset: int)
      requires Valid() && root == null
      modifies this
      ensures Valid() && fresh(graph.Keys) && root != null
      ensures contents == map[key := offset]
    {
      hide IsIndex;
      var leaf := MakeRootLeaf(key, offset);
      root, keyCount := leaf, 1;
      graph, contents := map[leaf := FirstLeaf(key, offset)], map[key := offset];
      assert |contents| == 1;
      FirstLeafOk(leaf, key, offset);
    }

    /** Inserts into a leaf that has room. */
    method GrowLeaf(leaf: Node, key: Key, offset: int) returns (ok: bool)
      requires root != null && Mirrors(graph) && IsIndex(graph, root, null, null, contents)
      requires leaf in graph && leaf.isLeaf && graph[leaf].Covers(key) && leaf.keyCount < MAX_KEYS
      modifies this`graph, this`contents, leaf
      ensures Mirrors(graph) && graph.Keys == old(graph.Keys)
      ensures IsIndex(graph, root, null, null, contents)
      ensures ok <==> key !in old(contents)
      ensures contents == if ok then old(contents)[key := offset] else old(contents)
      ensures !ok ==> unchanged(this) && unchanged(leaf)
    {
      hide IsIndex, LeafOk, GrownLeaf, Mirrors, Node.View, Node.Sized;
      LeafCell(graph, leaf);
      LeafHolds(graph, root, leaf, contents, key);
      ghost var at;
      ok, at := AddToLeaf(leaf, key, offset, graph);
      if ok {
        LeafGrew(graph, root, leaf, at, key, offset, contents);
        graph, contents := graph[leaf := GrownLeaf(graph[leaf], at, key, offset)], contents[key := offset];
      }
    }

    /** Splits a full leaf while inserting a pair and has the new half linked into the tree. */
    method SplitLeaf(leaf: Node, key: Key, offset: int) returns (ok: bool)
      requires root != null && Mirrors(graph) && IsIndex(graph, root, null, null, contents)
      requires leaf in graph && leaf.isLeaf && graph[leaf].Covers(key) && leaf.keyCount == MAX_KEYS
      modifies this`root, this`graph, this`contents, graph.Keys
      ensures Mirrors(graph) && fresh(graph.Keys - old(graph.Keys))
      ensures root != null && IsIndex(graph, root, null, null, contents)
      ensures ok <==> key !in old(contents)
      ensures contents == if ok then old(contents)[key := offset] else old(contents)
      ensures !ok ==> unchanged(this) && unchanged(graph.Keys)
    {
      hide IsIndex, CellOk, LeafOk, LeafSplit, Node.View, Node.Sized, Mirrors;
      MirrorFields(graph, leaf);
      LeafHolds(graph, root, leaf, contents, key);
      var at := LowerBound(leaf, key);
      if at < leaf.keyCount && leaf.keys[at] == key {
        return false;
      }
      var newLeaf := SplitOffLeaf(leaf, at, key, offset, graph);
      LeafWasSplit(graph, root, leaf, newLeaf, at, key, offset, contents);
      graph := LeafSplit(graph, leaf, newLeaf, at, key, offset);
      contents := contents[key := offset];
      InsertIntoParent(leaf, newLeaf.keys[0], newLeaf);
      ok := true;
    }

    /** Links `right` into the parent of `left`, growing a new root or splitting upwards as needed.
        The recursion climbs: the distance of `left` from the root decreases. */
    method InsertIntoParent(left: Node, sep: Key, right: Node)
      requires root != null && Mirrors(graph) && left in graph && right in graph && sep == graph[right].lo
      requires IsIndex(graph, root, left, right, contents)
      modifies this`root, this`graph, graph.Keys
      ensures Mirrors(graph) && fresh(graph.Keys - old(graph.Keys))
      ensures root != null && IsIndex(graph, root, null, null, contents)
      decreases graph[root].height - graph[left].height, 0
    {
      LeftInParent(graph, root, left, right, contents);
      var parent := left.parent;
      if parent == null {
        GrowRoot(left, sep, right);
        return;
      }
      var i := 0;
      while i <= parent.keyCount && parent.children[i] != left
        invariant i <= parent.keyCount + 1
        invariant forall j :: 0 <= j < i ==> parent.children[j] != left
      {
        i := i + 1;
      }
      // The C code returns an error when `left` is not found; it always is.
      assert i <= parent.keyCount by {
        var j :| 0 <= j < |graph[parent].children| && graph[parent].children[j] == left;
        assert parent.children[j] == left;
      }
      if parent.keyCount < MAX_KEYS {
        GrowInternal(parent, i, sep, left, right);
      } else {
        SplitInternal(parent, i, sep, left, right);
      }
    }

    method GrowRoot(left: Node, sep: Key, right: Node)
      requires root != null && Mirrors(graph) && left in graph && right in graph && sep == graph[right].lo
      requires IsIndex(graph, root, left, right, contents) && graph[left].parent == null
      modifies this`root, this`graph, left`parent, right`parent
      ensures Mirrors(graph) && fresh(graph.Keys - old(graph.Keys))
      ensures root != null && IsIndex(graph, root, null, null, contents)
    {
      hide IsIndex, Mirrors;
      LeftInParent(graph, root, left, right, contents);
      var newRoot := AddRoot(left, sep, right, graph);
      IndexRootGrew(graph, root, left, right, newRoot, contents);
      graph := RootGrown(graph, left, right, newRoot);
      root := newRoot;
    }

    method GrowInternal(node: Node, at: nat, sep: Key, ghost left: Node, right: Node)
      requires root != null && Mirrors(graph) && IsIndex(graph, root, left, right, contents)
      requires Pending(graph, root, node, at, left, right) && sep == graph[right].lo && node.keyCount < MAX_KEYS
      modifies this`graph, node, right`parent
      ensures Mirrors(graph) && graph.Keys == old(graph.Keys)
      ensures IsIndex(graph, root, null, null, contents)
    {
      hide IsIndex, IsTree, InsertAt, Node.View, Node.Sized;
      ViewFields(node);
      PendingFacts(graph, root, node, at, left, right);
      IndexInternalGrew(graph, root, node, at, left, right, contents);
      InsertIntoInternal(node, at, sep, right);
      MirrorsUpdated(graph, node, MergedCell(graph, root, node, at, left, right));
      graph := InternalGrown(graph, root, node, at, left, right);
    }

    /** Splits a full internal node while inserting a child and passes the middle separator up. */
    method SplitInternal(node: Node, at: nat, sep: Key, ghost left: Node, right: Node)
      requires root != null && Mirrors(graph) && IsIndex(graph, root, left, right, contents)
      requires Pending(graph, root, node, at, left, right) && sep == graph[right].lo && |graph[node].keys| == MAX_KEYS
      modifies this`root, this`graph, graph.Keys
      ensures Mirrors(graph) && fresh(graph.Keys - old(graph.Keys))
      ensures root != null && IsIndex(graph, root, null, null, contents)
      decreases graph[root].height - graph[node].height, 1
    {
      hide IsIndex, IsTree, Divided, Mirrors, InsertAt;
      PendingFacts(graph, root, node, at, left, right);
      MirrorFields(graph, node);
      var promoted, rightNode := SplitOffInternal(node, at, sep, right, graph);
      IndexInternalSplit(graph, root, node, at, left, right, rightNode, contents);
      graph := InternalSplit(graph, root, node, at, left, right, rightNode);
      InsertIntoParent(node, promoted, rightNode);
    }
  }

  /** The map that a sequence of inserts builds: the first offset given for a key stays. */
  ghost function FirstWins(pairs: seq<(Key, int)>): map<Key, int> {
    if pairs == [] then map[]
    else
      var before := FirstWins(pairs[..|pairs| - 1]);
      var (key, offset) := pairs[|pairs| - 1];
      if key in before then before else before[key := offset]
  }

  /** No earlier pair has the key of pair i. */
  ghost predicate FirstOfKey(pairs: seq<(Key, int)>, i: nat)
    requires i < |pairs|
  {
    forall j :: 0 <= j < i ==> pairs[j].0 != pairs[i].0
  }

  lemma {:induction false} FirstWinsKeys(pairs: seq<(Key, int)>, k: Key)
    ensures k in FirstWins(pairs) <==> exists i :: 0 <= i < |pairs| && pairs[i].0 == k
  {
    if pairs != [] {
      var front := pairs[..|pairs| - 1];
      FirstWinsKeys(front, k);
      assert pairs == front + [pairs[|pairs| - 1]];
      if i :| 0 <= i < |front| && front[i].0 == k {
        assert pairs[i].0 == k;
      }
    }
  }

  lemma {:induction false} FirstWinsOffset(pairs: seq<(Key, int)>, i: nat)
    requires i < |pairs| && FirstOfKey(pairs, i)
    ensures pairs[i].0 in FirstWins(pairs) && FirstWins(pairs)[pairs[i].0] == pairs[i].1
  {
    var front := pairs[..|pairs| - 1];
    if i < |front| {
      assert forall j :: 0 <= j <= i ==> front[j] == pairs[j];
      FirstWinsOffset(front, i);
    } else {
      FirstWinsKeys(front, pairs[i].0);
    }
  }

  /** It has exactly the keys inserted, each with the offset of its first occurrence. */
  lemma FirstWinsSpec(pairs: seq<(Key, int)>)
    ensures forall k :: k in FirstWins(pairs) <==> exists i :: 0 <= i < |pairs| && pairs[i].0 == k
    ensures forall i :: 0 <= i < |pairs| && FirstOfKey(pairs, i) ==>
      pairs[i].0 in FirstWins(pairs) && FirstWins(pairs)[pairs[i].0] == pairs[i].1
  {
    hide FirstWins, FirstOfKey;
    forall k ensures k in FirstWins(pairs) <==> exists i :: 0 <= i < |pairs| && pairs[i].0 == k {
      FirstWinsKeys(pairs, k);
    }
    forall i | 0 <= i < |pairs| && FirstOfKey(pairs, i)
      ensures pairs[i].0 in FirstWins(pairs) && FirstWins(pairs)[pairs[i].0] == pairs[i].1
    {
      FirstWinsOffset(pairs, i);
    }
  }

  lemma FirstOfKeyIsNew(pairs: seq<(Key, int)>, i: nat)
    requires i < |pairs|
    ensures FirstOfKey(pairs, i) <==> pairs[i].0 !in FirstWins(pairs[..i])
    ensures FirstWins(pairs[..i + 1]) ==
      if FirstOfKey(pairs, i) then FirstWins(pairs[..i])[pairs[i].0 := pairs[i].1] else FirstWins(pairs[..i])
  {
    assert pairs[..i + 1][..i] == pairs[..i];
    FirstWinsSpec(pairs[..i]);
    assert forall j :: 0 <= j < i ==> pairs[..i][j] == pairs[j];
  }

  /** Any sequence of inserts: an insert is refused just when its key came before, and the tree
      ends up with the first offset of every key. */
  method InsertAll(pairs: seq<(Key, int)>) returns (t: Tree, accepted: seq<bool>)
    ensures fresh(t) && fresh(t.graph.Keys) && t.Valid() && t.contents == FirstWins(pairs)
    ensures |accepted| == |pairs|
    ensures forall i :: 0 <= i < |pairs| ==> (accepted[i] <==> FirstOfKey(pairs, i))
  {
    hide Tree.Valid, FirstWins, FirstOfKey, Mirrors, IsIndex;
    t := new Tree();
    accepted := [];
    EmptyWins();
    for n := 0 to |pairs|
      invariant fresh(t) && fresh(t.graph.Keys) && t.Valid() && t.contents == FirstWins(pairs[..n])
      invariant |accepted| == n
      invariant forall i :: 0 <= i < n ==> (accepted[i] <==> FirstOfKey(pairs, i))
    {
      FirstOfKeyIsNew(pairs, n);
      var ok := t.Insert(pairs[n].0, pairs[n].1);
      accepted := accepted + [ok];
    }
    assert pairs[..|pairs|] == pairs;
  }

  lemma EmptyWins()
    ensures FirstWins([]) == map[]
  {
  }
}
