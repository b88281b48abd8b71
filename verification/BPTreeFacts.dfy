/** What follows for a whole tree from the invariant that every insert keeps: the leaf chain
    is the in-order walk, its keys are the stored keys in order, and the tree is balanced. */
module BPTreeFacts {
  import opened BPTreeGraph

  // ----- The leaf chain -----

  /** The leaves below n, from left to right. */
  ghost function InOrder(g: Graph, root: Node, n: Node): seq<Node>
    requires IsTree(g, root, null, null) && n in g
    decreases g[n].height, ORDER + 1
  {
    assert CellOk(g[n]);
    if g[n].isLeaf then [n] else InOrderOf(g, root, n, |g[n].children|)
  }

  /** The leaves below the first i children of n. */
  ghost function InOrderOf(g: Graph, root: Node, n: Node, i: nat): seq<Node>
    requires IsTree(g, root, null, null) && n in g && !g[n].isLeaf && i <= |g[n].children| <= ORDER
    decreases g[n].height, i
  {
    if i == 0 then []
    else
      ChildRange(g, root, n, i - 1);
      InOrderOf(g, root, n, i - 1) + InOrder(g, root, g[n].children[i - 1])
  }

  /** The leaf reached by following the first child, where a walk of the chain starts. */
  ghost function Leftmost(g: Graph, root: Node, n: Node): (leaf: Node)
    requires IsTree(g, root, null, null) && n in g
    ensures leaf in g && g[leaf].isLeaf && g[leaf].lo == g[n].lo
    decreases g[n].height
  {
    if g[n].isLeaf then n
    else
      assert CellOk(g[n]);
      ChildRange(g, root, n, 0);
      Leftmost(g, root, g[n].children[0])
  }

  /** The nodes met when following `next` from n. */
  ghost function Chain(g: Graph, root: Node, contents: map<Key, int>, n: Node): seq<Node>
    requires IsIndex(g, root, null, null, contents) && n in g && g[n].isLeaf
    decreases KEY_LIMIT - g[n].lo
  {
    assert CellOk(g[n]) && LeafOk(g, n, contents);
    if g[n].next == null then [n]
    else
      assert CellOk(g[g[n].next]);
      [n] + Chain(g, root, contents, g[n].next)
  }

  /** Consecutive leaves of the chain that together cover [lo, hi). */
  ghost predicate Linked(g: Graph, ns: seq<Node>, lo: nat, hi: nat) {
    && |ns| > 0
    && (forall i :: 0 <= i < |ns| ==> ns[i] in g && g[ns[i]].isLeaf)
    && g[ns[0]].lo == lo && g[ns[|ns| - 1]].hi == hi
    && (forall i :: 0 < i < |ns| ==> g[ns[i - 1]].next == ns[i] && g[ns[i - 1]].hi == g[ns[i]].lo)
  }

  lemma LinkedConcat(g: Graph, root: Node, contents: map<Key, int>, a: seq<Node>, b: seq<Node>, lo: nat, mid: nat, hi: nat)
    requires IsIndex(g, root, null, null, contents) && Linked(g, a, lo, mid) && Linked(g, b, mid, hi)
    ensures Linked(g, a + b, lo, hi)
  {
    var last, first := a[|a| - 1], b[0];
    assert CellOk(g[last]) && CellOk(g[first]) && LeafOk(g, last, contents);
    assert CellOk(g[g[last].next]);
    OneCover(g, root, g[last].next, first, mid);
    forall i | 0 < i < |a + b|
      ensures g[(a + b)[i - 1]].next == (a + b)[i] && g[(a + b)[i - 1]].hi == g[(a + b)[i]].lo
    {
      if i > |a| {
        assert (a + b)[i - 1] == b[i - |a| - 1] && (a + b)[i] == b[i - |a|];
      }
    }
  }

  lemma {:induction false} InOrderLinked(g: Graph, root: Node, contents: map<Key, int>, n: Node)
    requires IsIndex(g, root, null, null, contents) && n in g
    ensures Linked(g, InOrder(g, root, n), g[n].lo, g[n].hi)
    ensures InOrder(g, root, n)[0] == Leftmost(g, root, n)
    decreases g[n].height, ORDER + 1
  {
    assert CellOk(g[n]);
    if !g[n].isLeaf {
      InOrderOfLinked(g, root, contents, n, |g[n].children|);
      ChildRange(g, root, n, |g[n].children| - 1);
    }
  }

  lemma {:induction false} InOrderOfLinked(g: Graph, root: Node, contents: map<Key, int>, n: Node, i: nat)
    requires IsIndex(g, root, null, null, contents) && n in g && !g[n].isLeaf && 0 < i <= |g[n].children| <= ORDER
    ensures ChildOk(g, n, i - 1, null, null)
    ensures Linked(g, InOrderOf(g, root, n, i), g[n].lo, g[g[n].children[i - 1]].hi)
    ensures InOrderOf(g, root, n, i)[0] == Leftmost(g, root, n)
    decreases g[n].height, i
  {
    ChildRange(g, root, n, i - 1);
    var c := g[n].children[i - 1];
    InOrderLinked(g, root, contents, c);
    if i == 1 {
      assert InOrderOf(g, root, n, 1) == [] + InOrder(g, root, c) == InOrder(g, root, c);
    } else {
      InOrderOfLinked(g, root, contents, n, i - 1);
      SiblingRange(g, root, n, i - 2, i - 1);
      assert CellOk(g[n]);
      assert g[g[n].children[i - 2]].hi == g[n].keys[i - 2] == g[c].lo;
      LinkedConcat(g, root, contents, InOrderOf(g, root, n, i - 1), InOrder(g, root, c), g[n].lo, g[c].lo, g[c].hi);
    }
  }

  lemma {:induction false} LinkedIsChain(g: Graph, root: Node, contents: map<Key, int>, ns: seq<Node>, lo: nat)
    requires IsIndex(g, root, null, null, contents) && Linked(g, ns, lo, KEY_LIMIT)
    ensures Chain(g, root, contents, ns[0]) == ns
  {
    assert CellOk(g[ns[0]]) && LeafOk(g, ns[0], contents);
    if |ns| > 1 {
      assert CellOk(g[ns[1]]) && CellOk(g[ns[|ns| - 1]]);
      LinkedRise(g, root, ns, lo, 1);
      LinkedIsChain(g, root, contents, ns[1..], g[ns[1]].lo);
    }
  }

  /** Along the chain the ranges only go up. */
  lemma {:induction false} LinkedRise(g: Graph, root: Node, ns: seq<Node>, lo: nat, i: nat)
    requires IsTree(g, root, null, null) && Linked(g, ns, lo, KEY_LIMIT) && 0 < i < |ns|
    ensures g[ns[0]].hi <= g[ns[i]].lo < KEY_LIMIT
    decreases i
  {
    assert CellOk(g[ns[i]]) && CellOk(g[ns[i - 1]]);
    if i > 1 {
      LinkedRise(g, root, ns, lo, i - 1);
    }
  }

  /** Walking the chain from the leftmost leaf visits every leaf once, in order. */
  lemma ChainIsInOrder(g: Graph, root: Node, contents: map<Key, int>)
    requires IsIndex(g, root, null, null, contents)
    ensures Chain(g, root, contents, Leftmost(g, root, root)) == InOrder(g, root, root)
  {
    InOrderLinked(g, root, contents, root);
    LinkedIsChain(g, root, contents, InOrder(g, root, root), 0);
  }

  // ----- The keys along the chain -----

  /** The keys of some leaves, one leaf after the other. */
  ghost function KeysOf(g: Graph, ns: seq<Node>): seq<Key>
    requires forall n :: n in ns ==> n in g
  {
    if ns == [] then [] else g[ns[0]].keys + KeysOf(g, ns[1..])
  }

  lemma {:induction false} LinkedKeys(g: Graph, root: Node, contents: map<Key, int>, ns: seq<Node>, lo: nat)
    requires IsIndex(g, root, null, null, contents) && Linked(g, ns, lo, KEY_LIMIT)
    ensures Increasing(KeysOf(g, ns))
    ensures forall k :: k in KeysOf(g, ns) <==> k in contents && lo <= k
  {
    var n := ns[0];
    assert CellOk(g[n]) && LeafOk(g, n, contents);
    if |ns| == 1 {
      assert KeysOf(g, ns[1..]) == [];
      assert KeysOf(g, ns) == g[n].keys;
    } else {
      LinkedRise(g, root, ns, lo, 1);
      LinkedKeys(g, root, contents, ns[1..], g[ns[1]].lo);
      ConcatIncreasing(g[n].keys, KeysOf(g, ns[1..]), g[n].hi);
    }
    forall k
      ensures k in KeysOf(g, ns) <==> k in contents && lo <= k
    {
      assert k in KeysOf(g, ns) <==> k in g[n].keys || k in KeysOf(g, ns[1..]);
      assert k in g[n].keys <==> k in contents && g[n].Covers(k);
    }
  }

  lemma ConcatIncreasing(a: seq<Key>, b: seq<Key>, mid: nat)
    requires Increasing(a) && Increasing(b)
    requires (forall i :: 0 <= i < |a| ==> a[i] < mid) && (forall k :: k in b ==> mid <= k)
    ensures Increasing(a + b)
  {
    forall i, j | 0 <= i < j < |a + b|
      ensures (a + b)[i] < (a + b)[j]
    {
      if i < |a| <= j {
        assert b[j - |a|] in b;
      }
    }
  }

  /** A walk of the chain meets exactly the stored keys, smallest first. */
  lemma ChainKeys(g: Graph, root: Node, contents: map<Key, int>)
    requires IsIndex(g, root, null, null, contents)
    ensures var ns := Chain(g, root, contents, Leftmost(g, root, root));
            && (forall n :: n in ns ==> n in g)
            && Increasing(KeysOf(g, ns))
            && (forall k :: k in KeysOf(g, ns) <==> k in contents)
            && |KeysOf(g, ns)| == |contents|
  {
    ChainIsInOrder(g, root, contents);
    InOrderLinked(g, root, contents, root);
    var ns := InOrder(g, root, root);
    LinkedKeys(g, root, contents, ns, 0);
    IncreasingCount(KeysOf(g, ns), contents.Keys);
  }

  lemma {:induction false} IncreasingCount(ks: seq<Key>, s: set<Key>)
    requires Increasing(ks) && (forall k :: k in ks <==> k in s)
    ensures |ks| == |s|
  {
    if ks == [] {
      assert s == {};
    } else {
      var last := ks[|ks| - 1];
      var front := ks[..|ks| - 1];
      assert ks == front + [last];
      IncreasingCount(front, s - {last});
    }
  }

  // ----- Balance -----

  function Pow32(h: nat): nat {
    if h == 0 then 1 else 32 * Pow32(h - 1)
  }

  ghost function Stored(contents: map<Key, int>, lo: nat, hi: nat): set<Key> {
    set k | k in contents && lo <= k < hi
  }

  lemma StoredSplit(contents: map<Key, int>, lo: nat, mid: nat, hi: nat)
    requires lo <= mid <= hi
    ensures |Stored(contents, lo, hi)| == |Stored(contents, lo, mid)| + |Stored(contents, mid, hi)|
  {
    assert Stored(contents, lo, hi) == Stored(contents, lo, mid) + Stored(contents, mid, hi);
  }

  lemma MulGrows(a: nat, b: nat, c: nat)
    requires a <= b
    ensures a * c <= b * c
  {
  }

  lemma MulSucc(a: nat, c: nat)
    ensures (a + 1) * c == a * c + c
  {
  }

  /** A node other than the root at height h stores at least 32^(h+1) keys. */
  lemma {:induction false} NodeStores(g: Graph, root: Node, contents: map<Key, int>, n: Node)
    requires IsIndex(g, root, null, null, contents) && n in g && n != root
    ensures |Stored(contents, g[n].lo, g[n].hi)| >= Pow32(g[n].height + 1)
    decreases g[n].height, ORDER + 1
  {
    assert CellOk(g[n]) && NodeOk(g, root, n, null, null);
    if g[n].isLeaf {
      assert LeafOk(g, n, contents);
      LeafStores(g, n, contents);
    } else {
      ChildrenStore(g, root, contents, n, |g[n].children|);
      MulGrows(32, |g[n].children|, Pow32(g[n].height));
    }
  }

  lemma LeafStores(g: Graph, n: Node, contents: map<Key, int>)
    requires n in g && CellOk(g[n]) && g[n].isLeaf && LeafOk(g, n, contents)
    ensures |Stored(contents, g[n].lo, g[n].hi)| == |g[n].keys|
  {
    IncreasingCount(g[n].keys, Stored(contents, g[n].lo, g[n].hi));
  }

  /** The first i children of n store at least 32^h keys each. */
  lemma {:induction false} ChildrenStore(g: Graph, root: Node, contents: map<Key, int>, n: Node, i: nat)
    requires IsIndex(g, root, null, null, contents) && n in g && !g[n].isLeaf && 0 < i <= |g[n].children| <= ORDER
    ensures ChildOk(g, n, i - 1, null, null)
    ensures |Stored(contents, g[n].lo, g[g[n].children[i - 1]].hi)| >= i * Pow32(g[n].height)
    decreases g[n].height, i
  {
    ChildRange(g, root, n, i - 1);
    var c := g[n].children[i - 1];
    assert CellOk(g[c]) && CellOk(g[n]) && NodeOk(g, root, n, null, null);
    BelowRoot(g, root, n);
    NodeStores(g, root, contents, c);
    if i > 1 {
      ChildrenStore(g, root, contents, n, i - 1);
      ChildRange(g, root, n, i - 2);
      StoredSplit(contents, g[n].lo, g[c].lo, g[c].hi);
      MulSucc(i - 1, Pow32(g[n].height));
    }
  }

  /** A tree with h >= 1 internal levels holds at least 2 * 32^h keys, so its depth is logarithmic. */
  lemma Balanced(g: Graph, root: Node, contents: map<Key, int>)
    requires IsIndex(g, root, null, null, contents) && !g[root].isLeaf
    ensures |contents| >= 2 * Pow32(g[root].height)
  {
    assert CellOk(g[root]);
    var m := |g[root].children|;
    ChildrenStore(g, root, contents, root, m);
    MulGrows(2, m, Pow32(g[root].height));
    assert Stored(contents, 0, KEY_LIMIT) == contents.Keys;
  }
}
