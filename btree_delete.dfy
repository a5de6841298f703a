// Deletion from the B-tree of B-Tree.cpp: BTreeNode::remove and the helpers
// it calls. As in btree.dfy a node is a value, and an operation that edits
// a node (or its children) in place returns the edited node.

module BTreeDelete {
  import opened SortedSeq
  import opened NodeSeq
  import opened BTrees

  /** minKeys is at least two for every order the tree accepts. */
  lemma MinKeysAtLeastTwo(order: int)
    requires order >= 5
    ensures MinKeys(order) >= 2
  {
  }

  /** y without its first key and, when internal, its first child. */
  function DropFirst(y: Node): Node
    requires y.keys != [] && (!y.isLeaf ==> y.children != [])
  {
    y.(keys := y.keys[1..], children := if y.isLeaf then y.children else y.children[1..])
  }

  /** y without its last key and, when internal, its last child. */
  function DropLast(y: Node): Node
    requires y.keys != [] && (!y.isLeaf ==> y.children != [])
  {
    y.(keys := y.keys[..|y.keys| - 1], children := if y.isLeaf then y.children else y.children[..|y.children| - 1])
  }

  /** The walk of y's first child; nothing for a leaf. */
  function FirstWalk(y: Node): seq<int>
    requires !y.isLeaf ==> y.children != []
  {
    if y.isLeaf then [] else Contents(y.children[0])
  }

  /** The walk of y's last child; nothing for a leaf. */
  function LastWalk(y: Node): seq<int>
    requires !y.isLeaf ==> y.children != []
  {
    if y.isLeaf then [] else Contents(y.children[|y.children| - 1])
  }

  /** A shaped node walks as its first child, its first key, then the rest of it. */
  lemma FrontSplit(y: Node, h: nat)
    requires Shaped(y, h, y.order) && y.keys != []
    ensures Shaped(DropFirst(y), h, y.order)
    ensures Contents(y) == FirstWalk(y) + [y.keys[0]] + Contents(DropFirst(y))
  {
    if h == 0 {
      assert y.keys == [y.keys[0]] + y.keys[1..];
    } else {
      var n := |y.children|;
      assert y.children[1..] == y.children[1..n];
      AllShapedSlice(y.children, 1, n, h - 1, y.order);
      FrontWalk(y.keys, y.children);
    }
  }

  lemma FrontWalk(ks: seq<int>, cs: seq<Node>)
    requires |cs| == |ks| + 1 && ks != []
    ensures InOrder(ks, Walks(cs)) == Contents(cs[0]) + [ks[0]] + InOrder(ks[1..], Walks(cs[1..]))
  {
    var W, n := Walks(cs), |cs|;
    SplitContents(ks, W, 0);
    WalksSlice(cs, 1, n);
    assert cs[1..] == cs[1..n] && W[1..] == W[1..n];
    assert ks[..0] == [] && W[..1] == [W[0]];
  }

  /** A shaped node walks as the rest of it, its last key, then its last child. */
  lemma BackSplit(y: Node, h: nat)
    requires Shaped(y, h, y.order) && y.keys != []
    ensures Shaped(DropLast(y), h, y.order)
    ensures Contents(y) == Contents(DropLast(y)) + [y.keys[|y.keys| - 1]] + LastWalk(y)
  {
    var m := |y.keys| - 1;
    if h == 0 {
      assert y.keys == y.keys[..m] + [y.keys[m]];
    } else {
      assert y.children[..m + 1] == y.children[0..m + 1];
      AllShapedSlice(y.children, 0, m + 1, h - 1, y.order);
      BackWalk(y.keys, y.children);
    }
  }

  lemma BackWalk(ks: seq<int>, cs: seq<Node>)
    requires |cs| == |ks| + 1 && ks != []
    ensures InOrder(ks, Walks(cs)) == InOrder(ks[..|ks| - 1], Walks(cs[..|ks|])) + [ks[|ks| - 1]] + Contents(cs[|ks|])
  {
    var W, m := Walks(cs), |ks| - 1;
    WalksSlice(cs, 0, m + 1);
    assert cs[..m + 1] == cs[0..m + 1] && W[..m + 1] == W[0..m + 1];
    assert W[m + 1] == Contents(cs[m + 1]);
  }

  /** Every key of a shaped node occurs in its walk. */
  lemma NodeKeyIn(y: Node, h: nat, i: int)
    requires Shaped(y, h, y.order) && 0 <= i < |y.keys|
    ensures y.keys[i] in Contents(y)
  {
    if h > 0 {
      KeyIn(y.keys, Walks(y.children), i);
    }
  }

  /**
   * Children j and j+1 and separator j of a shaped node replaced by two shaped
   * subtrees a, b and a key k that walk as the old window did: the node
   * stays shaped and walks as before.
   */
  lemma WindowReplaced(n: Node, h: nat, j: int, a: Node, k: int, b: Node)
    requires Shaped(n, h, n.order) && h > 0 && 0 <= j < |n.keys|
    requires Shaped(a, h - 1, n.order) && Shaped(b, h - 1, n.order) && a.keys != [] && b.keys != []
    requires Contents(a) + [k] + Contents(b) == Contents(n.children[j]) + [n.keys[j]] + Contents(n.children[j + 1])
    ensures Shaped(n.(keys := n.keys[j := k], children := n.children[j := a][j + 1 := b]), h, n.order)
    ensures Contents(n.(keys := n.keys[j := k], children := n.children[j := a][j + 1 := b])) == Contents(n)
  {
    var W := Walks(n.children);
    WalksUpdate(n.children, j, a);
    WalksUpdate(n.children[j := a], j + 1, b);
    assert W[j] == Contents(n.children[j]) && W[j + 1] == Contents(n.children[j + 1]);
    assert W[j := Contents(a)][j + 1 := Contents(b)] == Walks(n.children[j := a][j + 1 := b]);
    BorrowAt(n.keys, W, j, Contents(a), k, Contents(b));
  }

  /**
   * borrowFromPrev(idx): the last key of child idx-1 moves up to separator
   * idx-1, the old separator moves down to the front of child idx, and (for
   * internal children) the last child of idx-1 becomes the first of idx.
   */
  function BorrowFromPrev(n: Node, idx: int): (r: Node)
    requires !n.isLeaf && |n.children| == |n.keys| + 1 && 0 < idx < |n.children|
    requires n.children[idx - 1].keys != []
    requires !n.children[idx].isLeaf ==> n.children[idx - 1].children != []
    ensures !r.isLeaf && |r.keys| == |n.keys| && |r.children| == |n.children|
    ensures |r.children[idx].keys| == |n.children[idx].keys| + 1
    ensures |r.children[idx - 1].keys| == |n.children[idx - 1].keys| - 1
    ensures r.children[idx - 1].keys + [r.keys[idx - 1]] + r.children[idx].keys
         == n.children[idx - 1].keys + [n.keys[idx - 1]] + n.children[idx].keys
    ensures r.keys[idx - 1] == n.children[idx - 1].keys[|n.children[idx - 1].keys| - 1]
    ensures forall k :: 0 <= k < |n.keys| && k != idx - 1 ==> r.keys[k] == n.keys[k]
    ensures forall k :: 0 <= k < |n.children| && k != idx - 1 && k != idx ==> r.children[k] == n.children[k]
    ensures r.children[idx - 1].isLeaf == n.children[idx - 1].isLeaf && r.children[idx].isLeaf == n.children[idx].isLeaf
    ensures !n.children[idx].isLeaf ==>
      r.children[idx].children == [n.children[idx - 1].children[|n.children[idx - 1].children| - 1]] + n.children[idx].children
      && r.children[idx - 1].children == n.children[idx - 1].children[..|n.children[idx - 1].children| - 1]
  {
    var child, sibling := n.children[idx], n.children[idx - 1];
    var last := sibling.keys[|sibling.keys| - 1];
    var child' := child.(keys := [n.keys[idx - 1]] + child.keys,
                         children := if child.isLeaf then child.children
                                     else [sibling.children[|sibling.children| - 1]] + child.children);
    var sibling' := sibling.(keys := sibling.keys[..|sibling.keys| - 1],
                             children := if child.isLeaf then sibling.children
                                         else sibling.children[..|sibling.children| - 1]);
    assert sibling.keys == sibling'.keys + [last];
    n.(keys := n.keys[idx - 1 := last], children := n.children[idx - 1 := sibling'][idx := child'])
  }

  /**
   * borrowFromNext(idx): the first key of child idx+1 moves up to separator
   * idx, the old separator moves down to the back of child idx, and (for
   * internal children) the first child of idx+1 becomes the last of idx.
   */
  function BorrowFromNext(n: Node, idx: int): (r: Node)
    requires !n.isLeaf && |n.children| == |n.keys| + 1 && 0 <= idx < |n.keys|
    requires n.children[idx + 1].keys != []
    requires !n.children[idx].isLeaf ==> n.children[idx + 1].children != []
    ensures !r.isLeaf && |r.keys| == |n.keys| && |r.children| == |n.children|
    ensures |r.children[idx].keys| == |n.children[idx].keys| + 1
    ensures |r.children[idx + 1].keys| == |n.children[idx + 1].keys| - 1
    ensures r.children[idx].keys + [r.keys[idx]] + r.children[idx + 1].keys
         == n.children[idx].keys + [n.keys[idx]] + n.children[idx + 1].keys
    ensures r.keys[idx] == n.children[idx + 1].keys[0]
    ensures forall k :: 0 <= k < |n.keys| && k != idx ==> r.keys[k] == n.keys[k]
    ensures forall k :: 0 <= k < |n.children| && k != idx && k != idx + 1 ==> r.children[k] == n.children[k]
    ensures r.children[idx].isLeaf == n.children[idx].isLeaf && r.children[idx + 1].isLeaf == n.children[idx + 1].isLeaf
    ensures !n.children[idx].isLeaf ==>
      r.children[idx].children == n.children[idx].children + [n.children[idx + 1].children[0]]
      && r.children[idx + 1].children == n.children[idx + 1].children[1..]
  {
    var child, sibling := n.children[idx], n.children[idx + 1];
    var first := sibling.keys[0];
    var child' := child.(keys := child.keys + [n.keys[idx]],
                         children := if child.isLeaf then child.children else child.children + [sibling.children[0]]);
    var sibling' := sibling.(keys := sibling.keys[1..],
                             children := if child.isLeaf then sibling.children else sibling.children[1..]);
    assert sibling.keys == [first] + sibling'.keys;
    n.(keys := n.keys[idx := first], children := n.children[idx := child'][idx + 1 := sibling'])
  }

  /** The two children borrowFromPrev rebuilds are shaped and walk as the old window. */
  lemma BorrowFromPrevChildren(n: Node, idx: int, h: nat)
    requires Shaped(n, h, n.order) && h > 0 && 0 < idx < |n.children| && |n.children[idx - 1].keys| >= 2
    ensures !n.children[idx].isLeaf ==> n.children[idx - 1].children != []
    ensures var r := BorrowFromPrev(n, idx);
      Shaped(r.children[idx - 1], h - 1, n.order) && Shaped(r.children[idx], h - 1, n.order) &&
      r.children[idx - 1].keys != [] && r.children[idx].keys != [] &&
      Contents(r.children[idx - 1]) + [r.keys[idx - 1]] + Contents(r.children[idx])
        == Contents(n.children[idx - 1]) + [n.keys[idx - 1]] + Contents(n.children[idx])
  {
    PrevSiblingPart(n, idx, h);
    PrevChildPart(n, idx, h);
    var r := BorrowFromPrev(n, idx);
    var sibling := n.children[idx - 1];
    RegroupWindow(Contents(r.children[idx - 1]), r.keys[idx - 1], LastWalk(sibling), n.keys[idx - 1], Contents(n.children[idx]));
  }

  lemma PrevSiblingPart(n: Node, idx: int, h: nat)
    requires Shaped(n, h, n.order) && h > 0 && 0 < idx < |n.children| && |n.children[idx - 1].keys| >= 2
    ensures !n.children[idx].isLeaf ==> n.children[idx - 1].children != []
    ensures var r, sibling := BorrowFromPrev(n, idx), n.children[idx - 1];
      Shaped(r.children[idx - 1], h - 1, n.order) && r.children[idx - 1].keys != [] &&
      Contents(sibling) == Contents(r.children[idx - 1]) + [r.keys[idx - 1]] + LastWalk(sibling)
  {
    var sibling := n.children[idx - 1];
    ChildShaped(n, h, idx - 1);
    ChildShaped(n, h, idx);
    assert BorrowFromPrev(n, idx).children[idx - 1] == DropLast(sibling);
    BackSplit(sibling, h - 1);
  }

  lemma PrevChildPart(n: Node, idx: int, h: nat)
    requires Shaped(n, h, n.order) && h > 0 && 0 < idx < |n.children| && |n.children[idx - 1].keys| >= 2
    ensures !n.children[idx].isLeaf ==> n.children[idx - 1].children != []
    ensures !n.children[idx - 1].isLeaf ==> n.children[idx - 1].children != []
    ensures var r, sibling := BorrowFromPrev(n, idx), n.children[idx - 1];
      Shaped(r.children[idx], h - 1, n.order) && r.children[idx].keys != [] &&
      Contents(r.children[idx]) == LastWalk(sibling) + [n.keys[idx - 1]] + Contents(n.children[idx])
  {
    var child, sibling := n.children[idx], n.children[idx - 1];
    ChildShaped(n, h, idx - 1);
    ChildShaped(n, h, idx);
    var e := if child.isLeaf then child else sibling.children[|sibling.children| - 1];
    if h > 1 {
      ChildShaped(sibling, h - 1, |sibling.children| - 1);
    }
    PushFront(child, n.keys[idx - 1], e, h - 1);
  }

  /** A shaped node with key k and, when internal, subtree e put in front of its own. */
  lemma PushFront(y: Node, k: int, e: Node, h: nat)
    requires Shaped(y, h, y.order) && (h > 0 ==> Shaped(e, h - 1, y.order) && e.keys != [])
    ensures var y' := y.(keys := [k] + y.keys, children := if y.isLeaf then y.children else [e] + y.children);
      Shaped(y', h, y.order) && y'.keys != [] &&
      Contents(y') == (if y.isLeaf then [] else Contents(e)) + [k] + Contents(y)
  {
    var y' := y.(keys := [k] + y.keys, children := if y.isLeaf then y.children else [e] + y.children);
    if h > 0 {
      assert AllShaped([e], h - 1, y.order);
      AllShapedConcat([e], y.children, h - 1, y.order);
    }
    assert Shaped(y', h, y.order);
    assert DropFirst(y') == y;
    FrontSplit(y', h);
  }

  /** A shaped node with key k and, when internal, subtree e put after its own. */
  lemma PushBack(y: Node, k: int, e: Node, h: nat)
    requires Shaped(y, h, y.order) && (h > 0 ==> Shaped(e, h - 1, y.order) && e.keys != [])
    ensures var y' := y.(keys := y.keys + [k], children := if y.isLeaf then y.children else y.children + [e]);
      Shaped(y', h, y.order) && y'.keys != [] &&
      Contents(y') == Contents(y) + [k] + (if y.isLeaf then [] else Contents(e))
  {
    var y' := y.(keys := y.keys + [k], children := if y.isLeaf then y.children else y.children + [e]);
    if h > 0 {
      assert AllShaped([e], h - 1, y.order);
      AllShapedConcat(y.children, [e], h - 1, y.order);
    }
    assert Shaped(y', h, y.order);
    assert DropLast(y') == y;
    BackSplit(y', h);
  }

  /** The two children borrowFromNext rebuilds are shaped and walk as the old window. */
  lemma BorrowFromNextChildren(n: Node, idx: int, h: nat)
    requires Shaped(n, h, n.order) && h > 0 && 0 <= idx < |n.keys| && |n.children[idx + 1].keys| >= 2
    ensures !n.children[idx].isLeaf ==> n.children[idx + 1].children != []
    ensures var r := BorrowFromNext(n, idx);
      Shaped(r.children[idx], h - 1, n.order) && Shaped(r.children[idx + 1], h - 1, n.order) &&
      r.children[idx].keys != [] && r.children[idx + 1].keys != [] &&
      Contents(r.children[idx]) + [r.keys[idx]] + Contents(r.children[idx + 1])
        == Contents(n.children[idx]) + [n.keys[idx]] + Contents(n.children[idx + 1])
  {
    NextSiblingPart(n, idx, h);
    NextChildPart(n, idx, h);
    var r := BorrowFromNext(n, idx);
    var sibling := n.children[idx + 1];
    RegroupWindow(Contents(n.children[idx]), n.keys[idx], FirstWalk(sibling), r.keys[idx], Contents(r.children[idx + 1]));
  }

  lemma NextSiblingPart(n: Node, idx: int, h: nat)
    requires Shaped(n, h, n.order) && h > 0 && 0 <= idx < |n.keys| && |n.children[idx + 1].keys| >= 2
    ensures !n.children[idx].isLeaf ==> n.children[idx + 1].children != []
    ensures var r, sibling := BorrowFromNext(n, idx), n.children[idx + 1];
      Shaped(r.children[idx + 1], h - 1, n.order) && r.children[idx + 1].keys != [] &&
      Contents(sibling) == FirstWalk(sibling) + [r.keys[idx]] + Contents(r.children[idx + 1])
  {
    var sibling := n.children[idx + 1];
    ChildShaped(n, h, idx);
    ChildShaped(n, h, idx + 1);
    assert BorrowFromNext(n, idx).children[idx + 1] == DropFirst(sibling);
    FrontSplit(sibling, h - 1);
  }

  lemma NextChildPart(n: Node, idx: int, h: nat)
    requires Shaped(n, h, n.order) && h > 0 && 0 <= idx < |n.keys| && |n.children[idx + 1].keys| >= 2
    ensures !n.children[idx].isLeaf ==> n.children[idx + 1].children != []
    ensures !n.children[idx + 1].isLeaf ==> n.children[idx + 1].children != []
    ensures var r, sibling := BorrowFromNext(n, idx), n.children[idx + 1];
      Shaped(r.children[idx], h - 1, n.order) && r.children[idx].keys != [] &&
      Contents(r.children[idx]) == Contents(n.children[idx]) + [n.keys[idx]] + FirstWalk(sibling)
  {
    var child, sibling := n.children[idx], n.children[idx + 1];
    ChildShaped(n, h, idx);
    ChildShaped(n, h, idx + 1);
    var e := if child.isLeaf then child else sibling.children[0];
    if h > 1 {
      ChildShaped(sibling, h - 1, 0);
    }
    PushBack(child, n.keys[idx], e, h - 1);
  }

  /** Regrouping a five-part window. */
  lemma RegroupWindow(a: seq<int>, k1: int, e: seq<int>, k2: int, b: seq<int>)
    ensures a + [k1] + e + [k2] + b == a + [k1] + (e + [k2] + b)
    ensures a + [k1] + e + [k2] + b == (a + [k1] + e) + [k2] + b
  {
  }

  /** borrowFromPrev keeps the node valid, its height and its in-order sequence. */
  lemma BorrowFromPrevPreserves(n: Node, idx: int)
    requires ValidNode(n) && !n.isLeaf && 0 < idx < |n.children| && |n.children[idx - 1].keys| > n.minKeys
    ensures n.children[idx - 1].keys != [] && (!n.children[idx].isLeaf ==> n.children[idx - 1].children != [])
    ensures ValidNode(BorrowFromPrev(n, idx)) && BorrowFromPrev(n, idx).order == n.order
    ensures Height(BorrowFromPrev(n, idx)) == Height(n) && Contents(BorrowFromPrev(n, idx)) == Contents(n)
  {
    MinKeysAtLeastTwo(n.order);
    BorrowFromPrevShaped(n, idx, Height(n));
    ShapedValid(BorrowFromPrev(n, idx), Contents(n));
  }

  lemma BorrowFromPrevShaped(n: Node, idx: int, h: nat)
    requires Shaped(n, h, n.order) && h > 0 && 0 < idx < |n.children| && |n.children[idx - 1].keys| >= 2
    ensures !n.children[idx].isLeaf ==> n.children[idx - 1].children != []
    ensures Shaped(BorrowFromPrev(n, idx), h, n.order) && Height(BorrowFromPrev(n, idx)) == h
    ensures BorrowFromPrev(n, idx).order == n.order && Contents(BorrowFromPrev(n, idx)) == Contents(n)
  {
    BorrowFromPrevChildren(n, idx, h);
    var r := BorrowFromPrev(n, idx);
    WindowReplaced(n, h, idx - 1, r.children[idx - 1], r.keys[idx - 1], r.children[idx]);
    assert r == n.(keys := n.keys[idx - 1 := r.keys[idx - 1]], children := n.children[idx - 1 := r.children[idx - 1]][idx := r.children[idx]]);
    ShapedHeight(r, h, n.order);
  }

  /** borrowFromNext keeps the node valid, its height and its in-order sequence. */
  lemma BorrowFromNextPreserves(n: Node, idx: int)
    requires ValidNode(n) && !n.isLeaf && 0 <= idx < |n.keys| && |n.children[idx + 1].keys| > n.minKeys
    ensures n.children[idx + 1].keys != [] && (!n.children[idx].isLeaf ==> n.children[idx + 1].children != [])
    ensures ValidNode(BorrowFromNext(n, idx)) && BorrowFromNext(n, idx).order == n.order
    ensures Height(BorrowFromNext(n, idx)) == Height(n) && Contents(BorrowFromNext(n, idx)) == Contents(n)
  {
    MinKeysAtLeastTwo(n.order);
    BorrowFromNextShaped(n, idx, Height(n));
    ShapedValid(BorrowFromNext(n, idx), Contents(n));
  }

  lemma BorrowFromNextShaped(n: Node, idx: int, h: nat)
    requires Shaped(n, h, n.order) && h > 0 && 0 <= idx < |n.keys| && |n.children[idx + 1].keys| >= 2
    ensures !n.children[idx].isLeaf ==> n.children[idx + 1].children != []
    ensures Shaped(BorrowFromNext(n, idx), h, n.order) && Height(BorrowFromNext(n, idx)) == h
    ensures BorrowFromNext(n, idx).order == n.order && Contents(BorrowFromNext(n, idx)) == Contents(n)
  {
    BorrowFromNextChildren(n, idx, h);
    var r := BorrowFromNext(n, idx);
    WindowReplaced(n, h, idx, r.children[idx], r.keys[idx], r.children[idx + 1]);
    assert r == n.(keys := n.keys[idx := r.keys[idx]], children := n.children[idx := r.children[idx]][idx + 1 := r.children[idx + 1]]);
    ShapedHeight(r, h, n.order);
  }

  /** Child idx after merge(idx): its own keys, separator idx, then its right sibling's keys (and children). */
  function MergedChild(child: Node, k: int, sibling: Node): Node
  {
    child.(keys := child.keys + [k] + sibling.keys,
           children := if child.isLeaf then child.children else child.children + sibling.children)
  }

  /**
   * merge(idx): child idx absorbs separator idx and its right sibling;
   * the separator and the sibling leave the node.
   */
  function Merged(n: Node, idx: int): (r: Node)
    requires !n.isLeaf && |n.children| == |n.keys| + 1 && 0 <= idx < |n.keys|
    ensures !r.isLeaf && |r.keys| == |n.keys| - 1 && |r.children| == |n.children| - 1
    ensures r.keys == MergedKeys(n.keys, idx)
    ensures r.children[idx].keys == n.children[idx].keys + [n.keys[idx]] + n.children[idx + 1].keys
    ensures forall k :: 0 <= k < |r.children| && k != idx ==> r.children[k] == n.children[if k < idx then k else k + 1]
  {
    n.(keys := MergedKeys(n.keys, idx),
       children := n.children[..idx] + [MergedChild(n.children[idx], n.keys[idx], n.children[idx + 1])] + n.children[idx + 2..])
  }

  /** merge as B-Tree.cpp writes it: the sibling's keys, then its children, appended one at a time. */
  method Merge(n: Node, idx: int) returns (r: Node)
    requires !n.isLeaf && |n.children| == |n.keys| + 1 && 0 <= idx < |n.keys|
    ensures r == Merged(n, idx)
  {
    var child, sibling := n.children[idx], n.children[idx + 1];
    var keys := child.keys + [n.keys[idx]];
    for t := 0 to |sibling.keys|
      invariant keys == child.keys + [n.keys[idx]] + sibling.keys[..t]
    {
      keys := keys + [sibling.keys[t]];
    }
    assert sibling.keys[..|sibling.keys|] == sibling.keys;
    var children := child.children;
    if !child.isLeaf {
      for t := 0 to |sibling.children|
        invariant children == child.children + sibling.children[..t]
      {
        children := children + [sibling.children[t]];
      }
      assert sibling.children[..|sibling.children|] == sibling.children;
    }
    r := n.(keys := n.keys[..idx] + n.keys[idx + 1..],
            children := n.children[..idx] + [child.(keys := keys, children := children)] + n.children[idx + 2..]);
  }

  /** The merged child is shaped one level down and walks as child, separator, sibling. */
  lemma MergedChildShaped(n: Node, idx: int, h: nat)
    requires Shaped(n, h, n.order) && h > 0 && 0 <= idx < |n.keys|
    ensures var c := MergedChild(n.children[idx], n.keys[idx], n.children[idx + 1]);
      Shaped(c, h - 1, n.order) && |c.keys| >= 3 &&
      Contents(c) == Contents(n.children[idx]) + [n.keys[idx]] + Contents(n.children[idx + 1])
  {
    var child, sibling := n.children[idx], n.children[idx + 1];
    ChildShaped(n, h, idx);
    ChildShaped(n, h, idx + 1);
    if h > 1 {
      WalksConcat(child.children, sibling.children);
      InOrderConcat(child.keys, n.keys[idx], sibling.keys, Walks(child.children), Walks(sibling.children));
      AllShapedConcat(child.children, sibling.children, h - 2, n.order);
    }
  }

  lemma JoinWalks(cs: seq<Node>, i: int, c: Node)
    requires 0 <= i < |cs| - 1
    ensures Walks(cs[..i] + [c] + cs[i + 2..]) == Walks(cs)[..i] + [Contents(c)] + Walks(cs)[i + 2..]
  {
    var L, R, N, P := cs[..i], cs[i + 2..], |cs|, Walks(cs);
    WalksConcat(L, [c]);
    WalksConcat(L + [c], R);
    WalksSlice(cs, 0, i);
    WalksSlice(cs, i + 2, N);
    assert L == cs[0..i] && R == cs[i + 2..N];
    assert P[..i] == P[0..i] && P[i + 2..] == P[i + 2..N];
    assert Walks([c]) == [Contents(c)];
  }

  lemma JoinAllShaped(cs: seq<Node>, i: int, c: Node, h: nat, ord: int)
    requires AllShaped(cs, h, ord) && 0 <= i < |cs| - 1
    requires Shaped(c, h, ord) && c.keys != []
    ensures AllShaped(cs[..i] + [c] + cs[i + 2..], h, ord)
  {
    var L, R, N := cs[..i], cs[i + 2..], |cs|;
    assert L == cs[0..i] && R == cs[i + 2..N];
    AllShapedSlice(cs, 0, i, h, ord);
    AllShapedSlice(cs, i + 2, N, h, ord);
    assert AllShaped([c], h, ord);
    AllShapedConcat(L, [c], h, ord);
    AllShapedConcat(L + [c], R, h, ord);
  }

  /**
   * Children j, j+1 and separator j of a shaped node replaced by one shaped
   * subtree that walks as the three did: the node stays shaped and walks as before.
   */
  lemma JoinReplaced(n: Node, h: nat, j: int, c: Node)
    requires Shaped(n, h, n.order) && h > 0 && 0 <= j < |n.keys|
    requires Shaped(c, h - 1, n.order) && c.keys != []
    requires Contents(c) == Contents(n.children[j]) + [n.keys[j]] + Contents(n.children[j + 1])
    ensures Shaped(n.(keys := MergedKeys(n.keys, j), children := n.children[..j] + [c] + n.children[j + 2..]), h, n.order)
    ensures Contents(n.(keys := MergedKeys(n.keys, j), children := n.children[..j] + [c] + n.children[j + 2..])) == Contents(n)
  {
    var W := Walks(n.children);
    JoinWalks(n.children, j, c);
    assert W[j] == Contents(n.children[j]) && W[j + 1] == Contents(n.children[j + 1]);
    assert Walks(n.children[..j] + [c] + n.children[j + 2..]) == MergedChildren(n.keys, W, j);
    MergeAt(n.keys, W, j);
    JoinAllShaped(n.children, j, c, h - 1, n.order);
  }

  /** merge keeps the node valid, its height and its in-order sequence. */
  lemma MergePreserves(n: Node, idx: int)
    requires ValidNode(n) && !n.isLeaf && 0 <= idx < |n.keys|
    ensures ValidNode(Merged(n, idx)) && Merged(n, idx).order == n.order && Height(Merged(n, idx)) == Height(n)
    ensures Contents(Merged(n, idx)) == Contents(n) && |Merged(n, idx).children[idx].keys| >= 3
  {
    var h := Height(n);
    var c := MergedChild(n.children[idx], n.keys[idx], n.children[idx + 1]);
    MergedChildShaped(n, idx, h);
    JoinReplaced(n, h, idx, c);
    ShapedHeight(Merged(n, idx), h, n.order);
  }

  /** removeFromLeaf: the key at idx erased. */
  function RemoveFromLeaf(n: Node, idx: int): (r: Node)
    requires 0 <= idx < |n.keys|
    ensures |r.keys| == |n.keys| - 1
    ensures multiset(r.keys) == multiset(n.keys) - multiset{n.keys[idx]}
    ensures r.keys[..idx] == n.keys[..idx] && r.keys[idx..] == n.keys[idx + 1..]
  {
    assert n.keys == n.keys[..idx] + [n.keys[idx]] + n.keys[idx + 1..];
    n.(keys := n.keys[..idx] + n.keys[idx + 1..])
  }

  /** Erasing key idx of a valid leaf removes that key from its in-order sequence. */
  lemma LeafRemove(n: Node, idx: int)
    requires ValidNode(n) && n.isLeaf && 0 <= idx < |n.keys|
    ensures ValidNode(RemoveFromLeaf(n, idx)) && Height(RemoveFromLeaf(n, idx)) == Height(n)
    ensures Contents(RemoveFromLeaf(n, idx)) == RemoveOne(Contents(n), n.keys[idx])
  {
    var a, b := n.keys[..idx], n.keys[idx + 1..];
    assert n.keys == a + ([n.keys[idx]] + b);
    SortedAppend(a, [n.keys[idx]] + b);
    SortedAppend([n.keys[idx]], b);
    forall x, y | x in a && y in b ensures x <= y {
      assert y in [n.keys[idx]] + b;
    }
    SortedAppend(a, b);
    var r := RemoveFromLeaf(n, idx);
    assert Shaped(r, 0, n.order);
    RemoveOneSorted(n.keys, n.keys[idx]);
    SortedUnique(r.keys, RemoveOne(n.keys, n.keys[idx]));
  }

  /** The walk of a shaped node ends as the walk of its last child. */
  lemma LastOfLastChild(y: Node, h: nat)
    requires Shaped(y, h, y.order) && h > 0 && y.keys != []
    ensures var c := y.children[|y.children| - 1];
      Shaped(c, h - 1, y.order) && c.keys != [] && Contents(c) != [] && Contents(y) != [] &&
      Last(Contents(y)) == Last(Contents(c))
  {
    LastChildWalk(y, h);
    InOrderLast(y.keys, Walks(y.children));
  }

  lemma LastChildWalk(y: Node, h: nat)
    requires Shaped(y, h, y.order) && h > 0 && y.keys != []
    ensures var c := y.children[|y.children| - 1];
      Shaped(c, h - 1, y.order) && c.keys != [] && Contents(c) != [] &&
      |y.children| == |y.keys| + 1 && Walks(y.children)[|y.keys|] == Contents(c) &&
      Contents(y) == InOrder(y.keys, Walks(y.children))
  {
    var c := y.children[|y.children| - 1];
    ChildShaped(y, h, |y.children| - 1);
    NonEmpty(c, h - 1);
  }

  /** The walk of a shaped node starts as the walk of its first child. */
  lemma FirstOfFirstChild(y: Node, h: nat)
    requires Shaped(y, h, y.order) && h > 0 && y.keys != []
    ensures var c := y.children[0];
      Shaped(c, h - 1, y.order) && c.keys != [] && Contents(c) != [] && Contents(y) != [] &&
      Contents(y)[0] == Contents(c)[0]
  {
    var c, W := y.children[0], Walks(y.children);
    ChildShaped(y, h, 0);
    NonEmpty(c, h - 1);
    assert W[0] == Contents(c);
    assert Contents(y) == InOrder(y.keys, W);
    InOrderFirst(y.keys, W);
  }

  /** p occurs in s and nothing in s exceeds it. */
  predicate Greatest(p: int, s: seq<int>)
  {
    p in s && forall x :: x in s ==> x <= p
  }

  /** p occurs in s and nothing in s is below it. */
  predicate Least(p: int, s: seq<int>)
  {
    p in s && forall x :: x in s ==> p <= x
  }

  /** getPredecessor(idx): the last key of the rightmost leaf under child idx, the largest key there. */
  method GetPredecessor(n: Node, idx: int) returns (p: int)
    requires ValidNode(n) && !n.isLeaf && 0 <= idx < |n.children|
    ensures Contents(n.children[idx]) != [] && p == Contents(n.children[idx])[|Contents(n.children[idx])| - 1]
    ensures Greatest(p, Contents(n.children[idx]))
  {
    var cur := n.children[idx];
    ghost var h: nat := Height(n) - 1;
    ChildValid(n, idx);
    NonEmpty(cur, h);
    while !cur.isLeaf
      invariant Shaped(cur, h, n.order) && cur.keys != [] && Contents(cur) != []
      invariant Last(Contents(cur)) == Last(Contents(n.children[idx]))
      decreases h
    {
      LastOfLastChild(cur, h);
      cur := cur.children[|cur.children| - 1];
      h := h - 1;
    }
    p := cur.keys[|cur.keys| - 1];
    SortedLast(Contents(n.children[idx]));
  }

  /** getSuccessor(idx): the first key of the leftmost leaf under child idx+1, the smallest key there. */
  method GetSuccessor(n: Node, idx: int) returns (s: int)
    requires ValidNode(n) && !n.isLeaf && 0 <= idx < |n.keys|
    ensures Contents(n.children[idx + 1]) != [] && s == Contents(n.children[idx + 1])[0]
    ensures Least(s, Contents(n.children[idx + 1]))
  {
    var cur := n.children[idx + 1];
    ghost var h: nat := Height(n) - 1;
    ChildValid(n, idx + 1);
    NonEmpty(cur, h);
    while !cur.isLeaf
      invariant Shaped(cur, h, n.order) && cur.keys != [] && Contents(cur) != []
      invariant Contents(cur)[0] == Contents(n.children[idx + 1])[0]
      decreases h
    {
      FirstOfFirstChild(cur, h);
      cur := cur.children[0];
      h := h - 1;
    }
    s := cur.keys[0];
    SortedFirst(Contents(n.children[idx + 1]));
  }

  /** findKey's position for a key that is not a separator: strictly between its neighbours. */
  predicate Gap(ks: seq<int>, idx: int, key: int)
  {
    0 <= idx <= |ks| && (idx > 0 ==> ks[idx - 1] < key) && (idx < |ks| ==> key < ks[idx])
  }

  /**
   * m is n after the restructuring remove may do, and child t of m is where
   * remove descends: it lies strictly between the separators around key, and
   * it has a key to spare.
   */
  predicate RemoveReady(n: Node, m: Node, t: int, key: int)
  {
    ValidNode(m) && !m.isLeaf && 0 <= t < |m.children| && m.order == n.order &&
    Height(m) == Height(n) && Contents(m) == Contents(n) && |m.keys| >= |n.keys| - 1 &&
    |m.children[t].keys| >= 2 &&
    (t > 0 ==> m.keys[t - 1] < key) && (t < |m.keys| ==> key < m.keys[t])
  }

  /** Child idx has more than minKeys keys: remove descends into it as it is. */
  lemma KeepReady(n: Node, idx: int, key: int)
    requires ValidNode(n) && !n.isLeaf && Gap(n.keys, idx, key) && |n.children[idx].keys| > n.minKeys
    ensures RemoveReady(n, n, idx, key)
  {
    MinKeysAtLeastTwo(n.order);
  }

  /** After borrowFromPrev, child idx still lies between the separators around key. */
  lemma PrevReady(n: Node, idx: int, key: int)
    requires ValidNode(n) && !n.isLeaf && Gap(n.keys, idx, key) && idx > 0
    requires |n.children[idx - 1].keys| > n.minKeys
    ensures n.children[idx - 1].keys != [] && (!n.children[idx].isLeaf ==> n.children[idx - 1].children != [])
    ensures RemoveReady(n, BorrowFromPrev(n, idx), idx, key) && |BorrowFromPrev(n, idx).keys| == |n.keys|
  {
    BorrowFromPrevPreserves(n, idx);
    var m := BorrowFromPrev(n, idx);
    ChildValid(n, idx);
    PrevSeparator(n, idx);
    assert m.keys[idx - 1] < key;
    assert idx < |m.keys| ==> m.keys[idx] == n.keys[idx];
    assert |m.children[idx].keys| >= 2;
  }

  /** The key borrowFromPrev lifts comes from child idx-1, so it is at most the old separator. */
  lemma PrevSeparator(n: Node, idx: int)
    requires ValidNode(n) && !n.isLeaf && 0 < idx < |n.children|
    requires |n.children[idx - 1].keys| > n.minKeys
    ensures n.children[idx - 1].keys != [] && (!n.children[idx].isLeaf ==> n.children[idx - 1].children != [])
    ensures BorrowFromPrev(n, idx).keys[idx - 1] <= n.keys[idx - 1]
  {
    var sibling := n.children[idx - 1];
    ChildShaped(n, Height(n), idx);
    ChildShaped(n, Height(n), idx - 1);
    ChildValid(n, idx - 1);
    NodeKeyIn(sibling, Height(n) - 1, |sibling.keys| - 1);
  }

  /** After borrowFromNext, child idx still lies between the separators around key. */
  lemma NextReady(n: Node, idx: int, key: int)
    requires ValidNode(n) && !n.isLeaf && Gap(n.keys, idx, key) && idx < |n.keys|
    requires |n.children[idx + 1].keys| > n.minKeys
    ensures n.children[idx + 1].keys != [] && (!n.children[idx].isLeaf ==> n.children[idx + 1].children != [])
    ensures RemoveReady(n, BorrowFromNext(n, idx), idx, key) && |BorrowFromNext(n, idx).keys| == |n.keys|
  {
    BorrowFromNextPreserves(n, idx);
    var m := BorrowFromNext(n, idx);
    ChildValid(n, idx);
    NextSeparator(n, idx);
    assert key < m.keys[idx];
    assert idx > 0 ==> m.keys[idx - 1] == n.keys[idx - 1];
    assert |m.children[idx].keys| >= 2;
  }

  /** The key borrowFromNext lifts comes from child idx+1, so it is at least the old separator. */
  lemma NextSeparator(n: Node, idx: int)
    requires ValidNode(n) && !n.isLeaf && 0 <= idx < |n.keys|
    requires |n.children[idx + 1].keys| > n.minKeys
    ensures n.children[idx + 1].keys != [] && (!n.children[idx].isLeaf ==> n.children[idx + 1].children != [])
    ensures n.keys[idx] <= BorrowFromNext(n, idx).keys[idx]
  {
    var sibling := n.children[idx + 1];
    ChildShaped(n, Height(n), idx);
    ChildShaped(n, Height(n), idx + 1);
    ChildValid(n, idx + 1);
    NodeKeyIn(sibling, Height(n) - 1, 0);
  }

  /** After merge(idx), the merged child idx lies between the separators around key. */
  lemma MergeReady(n: Node, idx: int, key: int)
    requires ValidNode(n) && !n.isLeaf && Gap(n.keys, idx, key) && idx < |n.keys|
    ensures RemoveReady(n, Merged(n, idx), idx, key) && |Merged(n, idx).keys| >= idx
  {
    MergePreserves(n, idx);
    KeysSorted(n.keys, Walks(n.children));
    var m := Merged(n, idx);
    if idx < |m.keys| {
      assert m.keys[idx] == n.keys[idx + 1];
    }
    if idx > 0 {
      assert m.keys[idx - 1] == n.keys[idx - 1];
    }
  }

  /** When key lies past the last separator, merge(idx - 1) and descend into the merged last child. */
  lemma MergeLeftReady(n: Node, idx: int, key: int)
    requires ValidNode(n) && !n.isLeaf && Gap(n.keys, idx, key) && idx == |n.keys| > 0
    ensures RemoveReady(n, Merged(n, idx - 1), idx - 1, key) && |Merged(n, idx - 1).keys| == idx - 1
  {
    MergePreserves(n, idx - 1);
    KeysSorted(n.keys, Walks(n.children));
    var m := Merged(n, idx - 1);
    if idx - 1 > 0 {
      assert m.keys[idx - 2] == n.keys[idx - 2];
    }
  }

  lemma MultisetDrop(r: multiset<int>, a: multiset<int>, m: multiset<int>, c: multiset<int>, key: int)
    requires r + a == m + c
    requires c + multiset{key} == a || (c == a && key !in m)
    ensures r == m - multiset{key}
  {
    forall x ensures r[x] == (m - multiset{key})[x] {
      assert (r + a)[x] == (m + c)[x];
    }
  }

  /**
   * Child t of a valid node replaced by the result of removing key from it,
   * where the child holds key whenever the node does: the node stays valid
   * and loses the first copy of key from its in-order sequence.
   */
  lemma RemovedInChild(m: Node, t: int, c: Node, key: int)
    requires ValidNode(m) && !m.isLeaf && 0 <= t < |m.children|
    requires ValidNode(c) && c.order == m.order && Height(c) == Height(m) - 1 && c.keys != []
    requires Contents(c) == RemoveOne(Contents(m.children[t]), key)
    requires key in Contents(m) ==> key in Contents(m.children[t])
    ensures ValidNode(m.(children := m.children[t := c])) && Height(m.(children := m.children[t := c])) == Height(m)
    ensures Contents(m.(children := m.children[t := c])) == RemoveOne(Contents(m), key)
  {
    var child := m.children[t];
    ChildValid(m, t);
    forall x | x in Contents(c) ensures (t > 0 ==> m.keys[t - 1] <= x) && (t < |m.keys| ==> x <= m.keys[t]) {
      assert x in multiset(Contents(c));
      assert x in multiset(Contents(child));
      assert x in Contents(child);
    }
    ReplaceChildValid(m, t, c);
    var r := m.(children := m.children[t := c]);
    if key in Contents(child) {
      MultisetRestore(Contents(c), Contents(child), key);
    }
    MultisetDrop(multiset(Contents(r)), multiset(Contents(child)), multiset(Contents(m)), multiset(Contents(c)), key);
    RemoveOneUnique(Contents(r), Contents(m), key);
  }

  /** The last step of remove: the child key was removed from put back into the node. */
  lemma RemovedBelow(n: Node, m: Node, t: int, c: Node, key: int)
    requires RemoveReady(n, m, t, key)
    requires ValidNode(c) && c.order == m.order && Height(c) == Height(m) - 1
    requires |c.keys| >= |m.children[t].keys| - 1
    requires Contents(c) == RemoveOne(Contents(m.children[t]), key)
    ensures key in Contents(m.children[t]) <==> key in Contents(n)
    ensures var r := m.(children := m.children[t := c]);
      ValidNode(r) && r.order == n.order && Height(r) == Height(n) && |r.keys| >= |n.keys| - 1 &&
      Contents(r) == RemoveOne(Contents(n), key)
  {
    assert Walks(m.children)[t] == Contents(m.children[t]);
    DescendFind(m.keys, Walks(m.children), t, key);
    RemovedInChild(m, t, c, key);
  }

  /**
   * BTreeNode::remove: when key is separator idx, remove it from a leaf or
   * through removeFromNonLeaf; otherwise a leaf reports it missing, and an
   * internal node first tops up the child it descends into (borrowing from
   * a sibling with keys to spare, else merging with one) and removes key
   * there. found tells whether key was present (the source's "not found"
   * message when it is false).
   */
  method RemoveFrom(n: Node, key: int) returns (r: Node, found: bool)
    requires ValidNode(n) && n.keys != []
    ensures ValidNode(r) && r.order == n.order && Height(r) == Height(n) && |r.keys| >= |n.keys| - 1
    ensures Contents(r) == RemoveOne(Contents(n), key)
    ensures found <==> key in Contents(n)
    decreases Height(n), 1
  {
    if !n.isLeaf {
      KeysSorted(n.keys, Walks(n.children));
    }
    var idx := FindKey(n, key);
    if idx < |n.keys| && n.keys[idx] == key {
      NodeKeyIn(n, Height(n), idx);
      found := true;
      if n.isLeaf {
        r := RemoveFromLeaf(n, idx);
        LeafRemove(n, idx);
      } else {
        r := RemoveFromNonLeaf(n, idx);
      }
      return;
    }
    if n.isLeaf {
      r, found := n, false;
      return;
    }
    assert Gap(n.keys, idx, key);
    var flag := idx == |n.keys|;
    var m := FillChild(n, idx, key);
    var t := if flag && idx > |m.keys| then idx - 1 else idx;
    ChildValid(m, t);
    var c, f := RemoveFrom(m.children[t], key);
    r := m.(children := m.children[t := c]);
    found := f;
    RemovedBelow(n, m, t, c, key);
  }

  /**
   * The refill step of remove: before descending into child idx, a child at
   * minKeys borrows from its left sibling, else from its right sibling, else
   * is merged with one of them. The child remove then descends into is the
   * one the source picks with its flag: idx, or idx-1 when the last child
   * was merged into its left sibling.
   */
  method FillChild(n: Node, idx: int, key: int) returns (m: Node)
    requires ValidNode(n) && !n.isLeaf && n.keys != [] && Gap(n.keys, idx, key)
    ensures RemoveReady(n, m, if idx == |n.keys| && idx > |m.keys| then idx - 1 else idx, key)
    ensures |n.children[idx].keys| > n.minKeys ==> m == n
    ensures |m.keys| < |n.keys| <==>
      (|n.children[idx].keys| <= n.minKeys &&
       !(idx > 0 && |n.children[idx - 1].keys| > n.minKeys) && !(idx < |n.keys| && |n.children[idx + 1].keys| > n.minKeys))
  {
    m := n;
    if |n.children[idx].keys| <= n.minKeys {
      if idx > 0 && |n.children[idx - 1].keys| > n.minKeys {
        PrevReady(n, idx, key);
        m := BorrowFromPrev(n, idx);
      } else if idx < |n.keys| && |n.children[idx + 1].keys| > n.minKeys {
        NextReady(n, idx, key);
        m := BorrowFromNext(n, idx);
      } else if idx < |n.keys| {
        m := Merge(n, idx);
        MergeReady(n, idx, key);
      } else {
        m := Merge(n, idx - 1);
        MergeLeftReady(n, idx, key);
      }
    } else {
      KeepReady(n, idx, key);
    }
  }

  /**
   * removeFromNonLeaf(idx): separator idx is replaced by its predecessor when
   * child idx has keys to spare, else by its successor when child idx+1 has,
   * and that key is removed from the child; otherwise the two children are
   * merged around the separator and it is removed from the merged child.
   */
  method RemoveFromNonLeaf(n: Node, idx: int) returns (r: Node)
    requires ValidNode(n) && !n.isLeaf && 0 <= idx < |n.keys|
    ensures ValidNode(r) && r.order == n.order && Height(r) == Height(n) && |r.keys| >= |n.keys| - 1
    ensures Contents(r) == RemoveOne(Contents(n), n.keys[idx])
    decreases Height(n), 0
  {
    var k := n.keys[idx];
    MinKeysAtLeastTwo(n.order);
    if |n.children[idx].keys| > n.minKeys {
      var pred := GetPredecessor(n, idx);
      ChildValid(n, idx);
      var c, f := RemoveFrom(n.children[idx], pred);
      r := n.(keys := n.keys[idx := pred], children := n.children[idx := c]);
      PredecessorReplaced(n, idx, pred, c);
    } else if |n.children[idx + 1].keys| > n.minKeys {
      var succ := GetSuccessor(n, idx);
      ChildValid(n, idx + 1);
      var c, f := RemoveFrom(n.children[idx + 1], succ);
      r := n.(keys := n.keys[idx := succ], children := n.children[idx + 1 := c]);
      SuccessorReplaced(n, idx, succ, c);
    } else {
      var m := Merge(n, idx);
      MergedHoldsKey(n, idx);
      var c, f := RemoveFrom(m.children[idx], k);
      r := m.(children := m.children[idx := c]);
      RemovedInChild(m, idx, c, k);
    }
  }

  /** After merge(idx) the merged child is valid and holds the old separator idx. */
  lemma MergedHoldsKey(n: Node, idx: int)
    requires ValidNode(n) && !n.isLeaf && 0 <= idx < |n.keys|
    ensures ValidNode(Merged(n, idx)) && Merged(n, idx).order == n.order && Height(Merged(n, idx)) == Height(n)
    ensures Contents(Merged(n, idx)) == Contents(n)
    ensures ValidNode(Merged(n, idx).children[idx]) && Merged(n, idx).children[idx].order == n.order
    ensures Height(Merged(n, idx).children[idx]) == Height(n) - 1 && |Merged(n, idx).children[idx].keys| >= 2
    ensures n.keys[idx] in Contents(Merged(n, idx).children[idx])
  {
    var m := Merged(n, idx);
    MergePreserves(n, idx);
    ChildValid(m, idx);
    MergedChildKey(n, idx, Height(n));
  }

  lemma MergedChildKey(n: Node, idx: int, h: nat)
    requires Shaped(n, h, n.order) && h > 0 && 0 <= idx < |n.keys|
    ensures n.keys[idx] in Contents(Merged(n, idx).children[idx])
  {
    var c := MergedChild(n.children[idx], n.keys[idx], n.children[idx + 1]);
    MergedChildShaped(n, idx, h);
    assert Merged(n, idx).children[idx] == c;
  }

  /** The node after a separator swap: shaped like n, sorted, one copy of the old separator fewer. */
  lemma SwapValid(n: Node, r: Node, ks: seq<int>, j: int, c: Node)
    requires ValidNode(n) && !n.isLeaf && |ks| == |n.keys| && 0 <= j < |n.children|
    requires ValidNode(c) && c.order == n.order && Height(c) == Height(n) - 1 && c.keys != []
    requires r == n.(keys := ks, children := n.children[j := c])
    requires Sorted(Contents(r))
    ensures ValidNode(r) && Height(r) == Height(n)
  {
    var h := Height(n);
    assert Shaped(n, h, n.order) && h > 0;
    assert Shaped(c, h - 1, n.order);
    RelabelShaped(n, h, j, c, ks, r);
  }

  /** Separator idx replaced by the largest key p of child idx, removed from that child. */
  lemma PredecessorReplaced(n: Node, idx: int, p: int, c: Node)
    requires ValidNode(n) && !n.isLeaf && 0 <= idx < |n.keys|
    requires Contents(n.children[idx]) != [] && p == Contents(n.children[idx])[|Contents(n.children[idx])| - 1]
    requires ValidNode(c) && c.order == n.order && Height(c) == Height(n) - 1 && c.keys != []
    requires Contents(c) == RemoveOne(Contents(n.children[idx]), p)
    ensures var r := n.(keys := n.keys[idx := p], children := n.children[idx := c]);
      ValidNode(r) && Height(r) == Height(n) && Contents(r) == RemoveOne(Contents(n), n.keys[idx])
  {
    var r := n.(keys := n.keys[idx := p], children := n.children[idx := c]);
    var W := Walks(n.children);
    assert Contents(n) == InOrder(n.keys, W);
    ReplacedContents(n, n.keys[idx := p], idx, c);
    assert W[idx] == Contents(n.children[idx]);
    PredecessorSwap(n.keys, W, idx, p, Contents(c));
    SwapValid(n, r, n.keys[idx := p], idx, c);
  }

  /** Separator idx replaced by the smallest key s of child idx+1, removed from that child. */
  lemma SuccessorReplaced(n: Node, idx: int, s: int, c: Node)
    requires ValidNode(n) && !n.isLeaf && 0 <= idx < |n.keys|
    requires Contents(n.children[idx + 1]) != [] && s == Contents(n.children[idx + 1])[0]
    requires ValidNode(c) && c.order == n.order && Height(c) == Height(n) - 1 && c.keys != []
    requires Contents(c) == RemoveOne(Contents(n.children[idx + 1]), s)
    ensures var r := n.(keys := n.keys[idx := s], children := n.children[idx + 1 := c]);
      ValidNode(r) && Height(r) == Height(n) && Contents(r) == RemoveOne(Contents(n), n.keys[idx])
  {
    var r := n.(keys := n.keys[idx := s], children := n.children[idx + 1 := c]);
    var W := Walks(n.children);
    assert Contents(n) == InOrder(n.keys, W);
    ReplacedContents(n, n.keys[idx := s], idx + 1, c);
    assert W[idx + 1] == Contents(n.children[idx + 1]);
    SuccessorSwap(n.keys, W, idx, s, Contents(c));
    SwapValid(n, r, n.keys[idx := s], idx + 1, c);
  }
}
