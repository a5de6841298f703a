// The B-tree of B-Tree.cpp over int keys, duplicates allowed. A node is
// modelled as a value: an operation that edits a node's vectors in place
// returns the edited node, and the tree object owns the root and reassigns it.

module BTrees {
  import opened SortedSeq
  import opened NodeSeq

  /** ceil(order / 2.0) - 1, the key count below which a node counts as deficient. */
  function MinKeys(order: int): (r: int)
    ensures order >= 0 ==> 2 * (r + 1) - 1 <= order <= 2 * (r + 1)
  {
    (order + 1) / 2 - 1
  }

  /** A node: the fields of BTreeNode, with the child pointers as the child values. */
  datatype Node = Node(order: int, minKeys: int, isLeaf: bool, keys: seq<int>, children: seq<Node>)

  /** A freshly constructed node: no keys, no children. */
  function NewNode(order: int, isLeaf: bool): (n: Node)
    ensures n.order == order && n.minKeys == MinKeys(order) && n.isLeaf == isLeaf
    ensures n.keys == [] && n.children == []
  {
    Node(order, MinKeys(order), isLeaf, [], [])
  }

  /** The in-order key sequence of a subtree: what traverse emits for it. */
  function Contents(n: Node): seq<int>
    decreases n, 1
  {
    if n.isLeaf || |n.children| != |n.keys| + 1 then n.keys
    else InOrder(n.keys, Walks(n.children))
  }

  /** The in-order sequences of a run of subtrees. */
  function Walks(cs: seq<Node>): (r: seq<seq<int>>)
    ensures |r| == |cs|
    ensures forall k :: 0 <= k < |cs| ==> r[k] == Contents(cs[k])
    decreases cs, 0
  {
    seq(|cs|, k requires 0 <= k < |cs| => Contents(cs[k]))
  }

  /**
   * The structure insert and remove keep: every leaf at depth h, one key
   * fewer than children at every internal node, and no empty node below
   * the root.
   */
  predicate Shaped(n: Node, h: nat, ord: int)
    decreases n, 1
  {
    n.order == ord && n.minKeys == MinKeys(ord) &&
    (h == 0 ==> n.isLeaf && n.children == []) &&
    (h > 0 ==> !n.isLeaf && |n.children| == |n.keys| + 1 && AllShaped(n.children, h - 1, ord))
  }

  /** A run of non-empty subtrees, each shaped with its leaves at depth h. */
  predicate AllShaped(cs: seq<Node>, h: nat, ord: int)
    decreases cs, 0
  {
    forall k :: 0 <= k < |cs| ==> cs[k].keys != [] && Shaped(cs[k], h, ord)
  }

  lemma ChildShaped(n: Node, h: nat, k: int)
    requires Shaped(n, h, n.order) && h > 0 && 0 <= k < |n.children|
    ensures n.children[k].keys != [] && Shaped(n.children[k], h - 1, n.order)
  {
    assert AllShaped(n.children, h - 1, n.order);
  }

  lemma AllShapedConcat(a: seq<Node>, b: seq<Node>, h: nat, ord: int)
    ensures AllShaped(a + b, h, ord) <==> AllShaped(a, h, ord) && AllShaped(b, h, ord)
  {
    if AllShaped(a, h, ord) && AllShaped(b, h, ord) {
      forall k | 0 <= k < |a + b| ensures (a + b)[k].keys != [] && Shaped((a + b)[k], h, ord) {
        if k >= |a| { assert (a + b)[k] == b[k - |a|]; }
      }
    }
    if AllShaped(a + b, h, ord) {
      forall k | 0 <= k < |a| ensures a[k].keys != [] && Shaped(a[k], h, ord) {
        assert (a + b)[k] == a[k];
      }
      forall k | 0 <= k < |b| ensures b[k].keys != [] && Shaped(b[k], h, ord) {
        assert (a + b)[|a| + k] == b[k];
      }
    }
  }

  lemma AllShapedSlice(cs: seq<Node>, lo: int, hi: int, h: nat, ord: int)
    requires AllShaped(cs, h, ord) && 0 <= lo <= hi <= |cs|
    ensures AllShaped(cs[lo..hi], h, ord)
  {
    forall k | 0 <= k < hi - lo ensures cs[lo..hi][k].keys != [] && Shaped(cs[lo..hi][k], h, ord) {
      assert cs[lo..hi][k] == cs[lo + k];
    }
  }

  lemma WalksConcat(a: seq<Node>, b: seq<Node>)
    ensures Walks(a + b) == Walks(a) + Walks(b)
  {
    var w, v := Walks(a + b), Walks(a) + Walks(b);
    forall k | 0 <= k < |a + b| ensures w[k] == v[k] {
      if k < |a| {
        assert (a + b)[k] == a[k];
      } else {
        assert (a + b)[k] == b[k - |a|];
      }
    }
  }

  lemma WalksSlice(cs: seq<Node>, lo: int, hi: int)
    requires 0 <= lo <= hi <= |cs|
    ensures Walks(cs[lo..hi]) == Walks(cs)[lo..hi]
  {
    var w, v := Walks(cs[lo..hi]), Walks(cs)[lo..hi];
    forall k | 0 <= k < hi - lo ensures w[k] == v[k] {
      WalkAt(cs, lo, hi, k);
    }
  }

  lemma WalkAt(cs: seq<Node>, lo: int, hi: int, k: int)
    requires 0 <= lo <= hi <= |cs| && 0 <= k < hi - lo
    ensures Walks(cs[lo..hi])[k] == Walks(cs)[lo + k]
  {
    var s := cs[lo..hi];
    assert s[k] == cs[lo + k];
  }

  lemma WalksUpdate(cs: seq<Node>, i: int, c: Node)
    requires 0 <= i < |cs|
    ensures Walks(cs[i := c]) == Walks(cs)[i := Contents(c)]
  {
    var w, v := Walks(cs[i := c]), Walks(cs)[i := Contents(c)];
    forall k | 0 <= k < |cs| ensures w[k] == v[k] {
    }
  }

  /** The depth of the leaves, read along the leftmost path. */
  function Height(n: Node): nat
  {
    if n.isLeaf || n.children == [] then 0 else 1 + Height(n.children[0])
  }

  /** A well-formed subtree whose in-order walk is non-decreasing. */
  predicate ValidNode(n: Node)
  {
    n.order >= 5 && Shaped(n, Height(n), n.order) && Sorted(Contents(n))
  }

  lemma {:induction false} ShapedHeight(n: Node, h: nat, ord: int)
    requires Shaped(n, h, ord)
    ensures Height(n) == h
    decreases n
  {
    if h > 0 {
      ShapedHeight(n.children[0], h - 1, ord);
    }
  }

  lemma {:induction false} NonEmpty(n: Node, h: nat)
    requires Shaped(n, h, n.order) && n.keys != []
    ensures Contents(n) != []
  {
    if h > 0 {
      KeyIn(n.keys, Walks(n.children), 0);
    }
  }

  /**
   * findKey: the first position whose key is not below key. On sorted keys
   * key is present exactly when it sits at that position.
   */
  method FindKey(n: Node, key: int) returns (idx: int)
    ensures 0 <= idx <= |n.keys|
    ensures forall j :: 0 <= j < idx ==> n.keys[j] < key
    ensures idx < |n.keys| ==> key <= n.keys[idx]
    ensures Sorted(n.keys) ==> (key in n.keys <==> idx < |n.keys| && n.keys[idx] == key)
  {
    idx := 0;
    while idx < |n.keys| && n.keys[idx] < key
      invariant 0 <= idx <= |n.keys|
      invariant forall j :: 0 <= j < idx ==> n.keys[j] < key
    {
      idx := idx + 1;
    }
  }

  /**
   * splitChild(i): the full child y = children[i] keeps its keys below
   * position order / 2, the key there moves up to keys[i], and a new right
   * sibling takes the keys above it (and, when internal, the children to
   * their right).
   */
  function SplitChild(n: Node, i: int): (r: Node)
    requires !n.isLeaf && |n.children| == |n.keys| + 1 && 0 <= i < |n.children|
    requires n.order >= 3 && |n.children[i].keys| == n.order - 1
    requires !n.children[i].isLeaf ==> |n.children[i].children| == |n.children[i].keys| + 1
    ensures |r.keys| == |n.keys| + 1 && |r.children| == |n.children| + 1
    ensures |r.children[i].keys| == n.order / 2 && |r.children[i + 1].keys| == n.order - 2 - n.order / 2
    ensures r.children[i].keys + [r.keys[i]] + r.children[i + 1].keys == n.children[i].keys
    ensures r.keys == n.keys[..i] + [n.children[i].keys[n.order / 2]] + n.keys[i..]
    ensures forall k :: 0 <= k < i ==> r.children[k] == n.children[k]
    ensures forall k :: i + 1 < k < |r.children| ==> r.children[k] == n.children[k - 1]
    ensures r.children[i].isLeaf == r.children[i + 1].isLeaf == n.children[i].isLeaf
    ensures !n.children[i].isLeaf ==>
      r.children[i].children == n.children[i].children[..n.order / 2 + 1]
      && r.children[i + 1].children == n.children[i].children[n.order / 2 + 1..]
  {
    var y := n.children[i];
    var mid := n.order / 2;
    var lo, hi := LowerHalf(y, mid), UpperHalf(y, mid, n.order);
    assert y.keys == lo.keys + [y.keys[mid]] + hi.keys;
    var ks := n.keys[..i] + [y.keys[mid]] + n.keys[i..];
    var cs := n.children[..i] + [lo, hi] + n.children[i + 1..];
    assert ks[i] == y.keys[mid] && cs[i] == lo && cs[i + 1] == hi;
    assert forall k :: i + 1 < k < |cs| ==> cs[k] == n.children[i + 1..][k - i - 2];
    n.(keys := ks, children := cs)
  }

  /** The keys and children of y below its key mid: what splitChild leaves in y. */
  function LowerHalf(y: Node, mid: int): Node
    requires 0 <= mid < |y.keys|
    requires !y.isLeaf ==> |y.children| == |y.keys| + 1
  {
    y.(keys := y.keys[..mid], children := if y.isLeaf then y.children else y.children[..mid + 1])
  }

  /** A new node of order ord with the keys and children of y above its key mid. */
  function UpperHalf(y: Node, mid: int, ord: int): Node
    requires 0 <= mid < |y.keys|
    requires !y.isLeaf ==> |y.children| == |y.keys| + 1
  {
    var z := NewNode(ord, y.isLeaf);
    z.(keys := y.keys[mid + 1..], children := if y.isLeaf then z.children else y.children[mid + 1..])
  }

  /** Both halves of a shaped node are shaped, and the walk of y is lower half, key mid, upper half. */
  lemma HalvesShaped(y: Node, mid: int, h: nat)
    requires Shaped(y, h, y.order) && 0 < mid < |y.keys| - 1
    ensures Shaped(LowerHalf(y, mid), h, y.order) && Shaped(UpperHalf(y, mid, y.order), h, y.order)
    ensures LowerHalf(y, mid).keys != [] && UpperHalf(y, mid, y.order).keys != []
    ensures Contents(y) == Contents(LowerHalf(y, mid)) + [y.keys[mid]] + Contents(UpperHalf(y, mid, y.order))
  {
    HalvesShape(y, mid, h);
    HalvesContents(y, mid, h);
  }

  lemma HalvesShape(y: Node, mid: int, h: nat)
    requires Shaped(y, h, y.order) && 0 < mid < |y.keys| - 1
    ensures Shaped(LowerHalf(y, mid), h, y.order) && Shaped(UpperHalf(y, mid, y.order), h, y.order)
  {
    if h > 0 {
      var n := |y.children|;
      assert y.children[..mid + 1] == y.children[0..mid + 1] && y.children[mid + 1..] == y.children[mid + 1..n];
      AllShapedSlice(y.children, 0, mid + 1, h - 1, y.order);
      AllShapedSlice(y.children, mid + 1, n, h - 1, y.order);
    }
  }

  lemma HalvesContents(y: Node, mid: int, h: nat)
    requires Shaped(y, h, y.order) && 0 < mid < |y.keys| - 1
    ensures Contents(y) == Contents(LowerHalf(y, mid)) + [y.keys[mid]] + Contents(UpperHalf(y, mid, y.order))
  {
    var y', z := LowerHalf(y, mid), UpperHalf(y, mid, y.order);
    if h == 0 {
      assert y.keys == y'.keys + [y.keys[mid]] + z.keys;
    } else {
      var n := |y.children|;
      WalksSlice(y.children, 0, mid + 1);
      WalksSlice(y.children, mid + 1, n);
      assert y.children[..mid + 1] == y.children[0..mid + 1] && y.children[mid + 1..] == y.children[mid + 1..n];
      var W := Walks(y.children);
      assert W[..mid + 1] == W[0..mid + 1] && W[mid + 1..] == W[mid + 1..n];
      assert Contents(y') == InOrder(y.keys[..mid], W[..mid + 1]);
      assert Contents(z) == InOrder(y.keys[mid + 1..], W[mid + 1..]);
      SplitContents(y.keys, W, mid);
    }
  }

  lemma SpliceWalks(cs: seq<Node>, i: int, a: Node, b: Node)
    requires 0 <= i < |cs|
    ensures Walks(cs[..i] + [a, b] + cs[i + 1..]) == Walks(cs)[..i] + [Contents(a), Contents(b)] + Walks(cs)[i + 1..]
  {
    var L, R, N, P := cs[..i], cs[i + 1..], |cs|, Walks(cs);
    WalksConcat(L, [a, b]);
    WalksConcat(L + [a, b], R);
    WalksSlice(cs, 0, i);
    WalksSlice(cs, i + 1, N);
    assert L == cs[0..i] && R == cs[i + 1..N];
    assert P[..i] == P[0..i] && P[i + 1..] == P[i + 1..N];
    assert Walks([a, b]) == [Contents(a), Contents(b)];
  }

  lemma SpliceAllShaped(cs: seq<Node>, i: int, a: Node, b: Node, h: nat, ord: int)
    requires AllShaped(cs, h, ord) && 0 <= i < |cs|
    requires Shaped(a, h, ord) && Shaped(b, h, ord) && a.keys != [] && b.keys != []
    ensures AllShaped(cs[..i] + [a, b] + cs[i + 1..], h, ord)
  {
    var L, R, N := cs[..i], cs[i + 1..], |cs|;
    assert L == cs[0..i] && R == cs[i + 1..N];
    AllShapedSlice(cs, 0, i, h, ord);
    AllShapedSlice(cs, i + 1, N, h, ord);
    assert AllShaped([a, b], h, ord);
    AllShapedConcat(L, [a, b], h, ord);
    AllShapedConcat(L + [a, b], R, h, ord);
  }

  /**
   * Child i of a shaped node replaced by two shaped subtrees a and b with key
   * m between them, where a, m, b walk as child i did: the node stays shaped
   * and walks as before.
   */
  lemma SpliceShaped(n: Node, h: nat, i: int, a: Node, m: int, b: Node)
    requires Shaped(n, h, n.order) && h > 0 && 0 <= i < |n.children|
    requires Shaped(a, h - 1, n.order) && Shaped(b, h - 1, n.order) && a.keys != [] && b.keys != []
    requires Contents(n.children[i]) == Contents(a) + [m] + Contents(b)
    ensures Shaped(n.(keys := n.keys[..i] + [m] + n.keys[i..], children := n.children[..i] + [a, b] + n.children[i + 1..]), h, n.order)
    ensures Contents(n.(keys := n.keys[..i] + [m] + n.keys[i..], children := n.children[..i] + [a, b] + n.children[i + 1..])) == Contents(n)
  {
    SplitAt(n.keys, Walks(n.children), i, Contents(a), m, Contents(b));
    SpliceWalks(n.children, i, a, b);
    SpliceAllShaped(n.children, i, a, b, h - 1, n.order);
  }

  /** The split keeps the parent's in-order sequence, its height and its shape. */
  lemma SplitChildPreserves(n: Node, i: int)
    requires ValidNode(n) && !n.isLeaf && 0 <= i < |n.children| && |n.children[i].keys| == n.order - 1
    ensures Shaped(n.children[i], Height(n) - 1, n.order)
    ensures ValidNode(SplitChild(n, i)) && Height(SplitChild(n, i)) == Height(n)
    ensures Contents(SplitChild(n, i)) == Contents(n)
  {
    SplitChildShaped(n, i, Height(n));
    ShapedValid(SplitChild(n, i), Contents(n));
  }

  lemma SplitChildShaped(n: Node, i: int, h: nat)
    requires Shaped(n, h, n.order) && h > 0 && n.order >= 5 && 0 <= i < |n.children|
    requires |n.children[i].keys| == n.order - 1
    ensures Shaped(n.children[i], h - 1, n.order)
    ensures Shaped(SplitChild(n, i), h, n.order) && Height(SplitChild(n, i)) == h
    ensures SplitChild(n, i).order == n.order && Contents(SplitChild(n, i)) == Contents(n)
  {
    var y, mid := n.children[i], n.order / 2;
    ChildShaped(n, h, i);
    HalvesShaped(y, mid, h - 1);
    SpliceShaped(n, h, i, LowerHalf(y, mid), y.keys[mid], UpperHalf(y, mid, n.order));
    ShapedHeight(SplitChild(n, i), h, n.order);
  }

  /** A node shaped at its own height, of order at least five, whose walk is sorted, is valid. */
  lemma ShapedValid(r: Node, ws: seq<int>)
    requires r.order >= 5 && Shaped(r, Height(r), r.order) && Contents(r) == ws && Sorted(ws)
    ensures ValidNode(r)
  {
  }

  /** A child of a valid node is itself valid, one level lower, and lies between its separators. */
  lemma ChildValid(n: Node, k: int)
    requires ValidNode(n) && !n.isLeaf && 0 <= k < |n.children|
    ensures ValidNode(n.children[k]) && n.children[k].order == n.order && n.children[k].keys != []
    ensures Height(n.children[k]) == Height(n) - 1
    ensures forall x :: x in Contents(n.children[k]) ==> (k > 0 ==> n.keys[k - 1] <= x) && (k < |n.keys| ==> x <= n.keys[k])
  {
    ChildShaped(n, Height(n), k);
    ShapedHeight(n.children[k], Height(n) - 1, n.order);
    ChildBounds(n.keys, Walks(n.children), k);
  }

  lemma ReplaceAllShaped(cs: seq<Node>, t: int, c: Node, h: nat, ord: int)
    requires AllShaped(cs, h, ord) && 0 <= t < |cs| && Shaped(c, h, ord) && c.keys != []
    ensures AllShaped(cs[t := c], h, ord)
  {
  }

  /** Child j and the separators of a shaped node replaced, keeping their number: still shaped at the same height. */
  lemma RelabelShaped(n: Node, h: nat, j: int, c: Node, ks: seq<int>, r: Node)
    requires Shaped(n, h, n.order) && h > 0 && 0 <= j < |n.children| && |ks| == |n.keys|
    requires Shaped(c, h - 1, n.order) && c.keys != []
    requires r == n.(keys := ks, children := n.children[j := c])
    ensures Shaped(r, h, n.order) && Height(r) == h
  {
    ReplaceAllShaped(n.children, j, c, h - 1, n.order);
    InnerShaped(r, h, n.order);
  }

  /** An internal node whose children are shaped one level lower is shaped, at that height. */
  lemma InnerShaped(r: Node, h: nat, ord: int)
    requires h > 0 && r.order == ord && r.minKeys == MinKeys(ord) && !r.isLeaf && |r.children| == |r.keys| + 1
    requires AllShaped(r.children, h - 1, ord)
    ensures Shaped(r, h, ord) && Height(r) == h
  {
    ShapedHeight(r, h, ord);
  }

  /** Relabelling the keys and replacing child j changes only the j-th walk and the keys. */
  lemma ReplacedContents(n: Node, ks: seq<int>, j: int, c: Node)
    requires !n.isLeaf && |n.children| == |n.keys| + 1 && |ks| == |n.keys| && 0 <= j < |n.children|
    ensures Contents(n.(keys := ks, children := n.children[j := c])) == InOrder(ks, Walks(n.children)[j := Contents(c)])
  {
    WalksUpdate(n.children, j, c);
  }

  /**
   * Child t of a valid node replaced by a valid subtree of the same height
   * whose keys stay between the separators around t: the node stays valid,
   * and its multiset of keys trades the old child's keys for the new one's.
   */
  lemma ReplaceChildValid(m: Node, t: int, c: Node)
    requires ValidNode(m) && !m.isLeaf && 0 <= t < |m.children|
    requires ValidNode(c) && c.order == m.order && Height(c) == Height(m) - 1 && c.keys != []
    requires forall x :: x in Contents(c) ==> (t > 0 ==> m.keys[t - 1] <= x) && (t < |m.keys| ==> x <= m.keys[t])
    ensures ValidNode(m.(children := m.children[t := c])) && Height(m.(children := m.children[t := c])) == Height(m)
    ensures multiset(Contents(m.(children := m.children[t := c]))) + multiset(Contents(m.children[t]))
         == multiset(Contents(m)) + multiset(Contents(c))
  {
    var h := Height(m);
    ReplaceChildContents(m, t, c);
    assert Shaped(m, h, m.order) && h > 0;
    RelabelShaped(m, h, t, c, m.keys, m.(children := m.children[t := c]));
  }

  /** The walk side of ReplaceChildValid. */
  lemma ReplaceChildContents(m: Node, t: int, c: Node)
    requires !m.isLeaf && |m.children| == |m.keys| + 1 && 0 <= t < |m.children|
    requires Sorted(Contents(m)) && Sorted(Contents(c))
    requires forall x :: x in Contents(c) ==> (t > 0 ==> m.keys[t - 1] <= x) && (t < |m.keys| ==> x <= m.keys[t])
    ensures Sorted(Contents(m.(children := m.children[t := c])))
    ensures multiset(Contents(m.(children := m.children[t := c]))) + multiset(Contents(m.children[t]))
         == multiset(Contents(m)) + multiset(Contents(c))
  {
    var W, C := Walks(m.children), Contents(c);
    var r := m.(children := m.children[t := c]);
    assert r == m.(keys := m.keys, children := m.children[t := c]);
    ReplacedContents(m, m.keys, t, c);
    assert Contents(r) == InOrder(m.keys, W[t := C]);
    assert Contents(m) == InOrder(m.keys, W) && W[t] == Contents(m.children[t]);
    ReplaceChild(m.keys, W, t, C);
  }

  /**
   * The scan of insertNonFull (B-Tree.cpp:103, 109-112): step left from the
   * last key while the key there is greater than key, then one step right.
   * On sorted keys this is the upper-bound position.
   */
  method ScanFromRight(keys: seq<int>, key: int) returns (i: int)
    ensures 0 <= i <= |keys|
    ensures i > 0 ==> keys[i - 1] <= key
    ensures forall j :: i <= j < |keys| ==> key < keys[j]
    ensures Sorted(keys) ==> i == UpperBound(keys, key)
  {
    i := |keys| - 1;
    while i >= 0 && keys[i] > key
      invariant -1 <= i < |keys|
      invariant forall j :: i < j < |keys| ==> key < keys[j]
    {
      i := i - 1;
    }
    i := i + 1;
    if Sorted(keys) {
      assert forall j :: 0 <= j < i ==> keys[j] <= key;
      UpperBoundUnique(keys, key, i);
    }
  }

  /**
   * insertNonFull: a leaf takes key at its upper-bound position; an internal
   * node scans its keys from the right for the child to descend into, splits
   * that child first when it holds order - 1 keys, and inserts there.
   */
  method InsertNonFull(n: Node, key: int) returns (r: Node)
    requires ValidNode(n)
    ensures ValidNode(r) && r.order == n.order && Height(r) == Height(n) && |r.keys| >= |n.keys|
    ensures Contents(r) == InsertSorted(Contents(n), key)
    decreases Height(n)
  {
    if n.isLeaf {
      r := n.(keys := InsertSorted(n.keys, key));
      LeafInsert(n, key);
      return;
    }
    KeysSorted(n.keys, Walks(n.children));
    var i := ScanFromRight(n.keys, key);
    var m, j := SplitIfFull(n, i, key);
    ChildValid(m, j);
    var c := InsertNonFull(m.children[j], key);
    r := m.(children := m.children[j := c]);
    InsertedInChild(n, m, j, c, key);
  }

  /**
   * The split step of insertNonFull: a full child i is split first, and the
   * descent moves to its new right half when the key lifted into n is less
   * than key.
   */
  method SplitIfFull(n: Node, i: int, key: int) returns (m: Node, j: int)
    requires ValidNode(n) && !n.isLeaf && 0 <= i < |n.children|
    requires i > 0 ==> n.keys[i - 1] <= key
    requires i < |n.keys| ==> key <= n.keys[i]
    ensures DescentReady(n, m, j, key)
    ensures |n.children[i].keys| == n.order - 1 ==>
      (!n.children[i].isLeaf ==> |n.children[i].children| == |n.children[i].keys| + 1) &&
      m == SplitChild(n, i) && j == (if m.keys[i] < key then i + 1 else i)
    ensures |n.children[i].keys| != n.order - 1 ==> m == n && j == i
  {
    m, j := n, i;
    if |n.children[i].keys| == n.order - 1 {
      SplitStep(n, i, key);
      m := SplitChild(n, i);
      if m.keys[i] < key {
        j := i + 1;
      }
    } else {
      KeepDescent(n, i, key);
    }
  }

  /** Without a split, insertNonFull descends into child i of n itself. */
  lemma KeepDescent(n: Node, i: int, key: int)
    requires ValidNode(n) && !n.isLeaf && 0 <= i < |n.children|
    requires i > 0 ==> n.keys[i - 1] <= key
    requires i < |n.keys| ==> key <= n.keys[i]
    ensures DescentReady(n, n, i, key)
  {
  }

  /** A leaf that takes key at its upper-bound position stays a valid leaf. */
  lemma LeafInsert(n: Node, key: int)
    requires ValidNode(n) && n.isLeaf
    ensures ValidNode(n.(keys := InsertSorted(n.keys, key))) && Height(n.(keys := InsertSorted(n.keys, key))) == 0
    ensures Contents(n.(keys := InsertSorted(n.keys, key))) == InsertSorted(Contents(n), key)
  {
    InsertSortedIsInsertion(n.keys, key);
    assert Shaped(n.(keys := InsertSorted(n.keys, key)), 0, n.order);
  }

  /** After the split, the child insertNonFull picks by comparing with the new key still brackets key. */
  lemma SplitBounds(n: Node, i: int, key: int)
    requires !n.isLeaf && |n.children| == |n.keys| + 1 && 0 <= i < |n.children|
    requires n.order >= 3 && |n.children[i].keys| == n.order - 1
    requires !n.children[i].isLeaf ==> |n.children[i].children| == |n.children[i].keys| + 1
    requires i > 0 ==> n.keys[i - 1] <= key
    requires i < |n.keys| ==> key <= n.keys[i]
    ensures var m, t := SplitChild(n, i), if SplitChild(n, i).keys[i] < key then i + 1 else i;
      (t > 0 ==> m.keys[t - 1] <= key) && (t < |m.keys| ==> key <= m.keys[t])
  {
    var m := SplitChild(n, i);
    assert m.keys == n.keys[..i] + [m.keys[i]] + n.keys[i..];
  }

  /**
   * m is n, possibly with a child split, and its child i is where key
   * belongs: the separators around it bracket key.
   */
  predicate DescentReady(n: Node, m: Node, i: int, key: int)
  {
    ValidNode(m) && !m.isLeaf && 0 <= i < |m.children| && m.order == n.order && |m.keys| >= |n.keys| &&
    Height(m) == Height(n) && Contents(m) == Contents(n) &&
    (i > 0 ==> m.keys[i - 1] <= key) && (i < |m.keys| ==> key <= m.keys[i])
  }

  lemma SplitStep(n: Node, i: int, key: int)
    requires ValidNode(n) && !n.isLeaf && 0 <= i < |n.children| && |n.children[i].keys| == n.order - 1
    requires i > 0 ==> n.keys[i - 1] <= key
    requires i < |n.keys| ==> key <= n.keys[i]
    ensures Shaped(n.children[i], Height(n) - 1, n.order)
    ensures DescentReady(n, SplitChild(n, i), if SplitChild(n, i).keys[i] < key then i + 1 else i, key)
  {
    SplitChildPreserves(n, i);
    SplitBounds(n, i, key);
  }

  /** The last step of insertNonFull: the child that took key put back into the node. */
  lemma InsertedInChild(n: Node, m: Node, i: int, c: Node, key: int)
    requires DescentReady(n, m, i, key)
    requires ValidNode(c) && c.order == m.order && Height(c) == Height(m) - 1 && c.keys != []
    requires Contents(c) == InsertSorted(Contents(m.children[i]), key)
    ensures var r := m.(children := m.children[i := c]);
      ValidNode(r) && r.order == n.order && Height(r) == Height(n) && |r.keys| >= |n.keys| &&
      Contents(r) == InsertSorted(Contents(n), key)
  {
    var child := m.children[i];
    ChildValid(m, i);
    InsertSortedIsInsertion(Contents(child), key);
    forall x | x in Contents(c) ensures (i > 0 ==> m.keys[i - 1] <= x) && (i < |m.keys| ==> x <= m.keys[i]) {
      assert x in multiset(Contents(child)) + multiset{key} by {
        assert x in multiset(Contents(c));
      }
      if x != key {
        assert x in multiset(Contents(child));
        assert x in Contents(child);
      }
    }
    ReplaceChildValid(m, i, c);
    var r := m.(children := m.children[i := c]);
    InsertSortedIsInsertion(Contents(n), key);
    MultisetCancel(multiset(Contents(r)), multiset(Contents(child)), multiset(Contents(m)), multiset{key});
    SortedUnique(Contents(r), InsertSorted(Contents(n), key));
  }

  /**
   * traverse: the keys of a subtree in order, each child walked before the
   * key that follows it; the sequence stands for what traverse prints.
   */
  method Traverse(n: Node) returns (walk: seq<int>)
    requires Shaped(n, Height(n), n.order)
    ensures walk == Contents(n)
    decreases n
  {
    var ks := n.keys;
    ghost var W := Walks(n.children);
    walk := [];
    var i := 0;
    while i < |ks|
      invariant 0 <= i <= |ks|
      invariant n.isLeaf ==> walk == ks[..i]
      invariant !n.isLeaf ==> walk == Before(ks, W, i)
    {
      if !n.isLeaf {
        var w := TraverseChild(n, i);
        BeforeStep(ks, W, i);
        walk := walk + w;
      }
      walk := walk + [ks[i]];
      i := i + 1;
    }
    if !n.isLeaf {
      var w := TraverseChild(n, i);
      Around(ks, W, i);
      walk := walk + w;
    } else {
      assert ks[..i] == ks;
    }
  }

  /** The walk of child k of an internal node, by traverse. */
  method TraverseChild(n: Node, k: int) returns (walk: seq<int>)
    requires Shaped(n, Height(n), n.order) && !n.isLeaf && 0 <= k < |n.children|
    ensures walk == Walks(n.children)[k]
    decreases n, 0
  {
    ChildShaped(n, Height(n), k);
    ShapedHeight(n.children[k], Height(n) - 1, n.order);
    walk := Traverse(n.children[k]);
  }
}
