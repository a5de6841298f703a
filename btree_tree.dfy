// The BTree object of B-Tree.cpp: it owns the root pointer (null for an
// empty tree), grows the tree at the root on insert and shrinks it there on
// remove.

module Tree {
  import opened SortedSeq
  import opened NodeSeq
  import opened BTrees
  import opened BTreeDelete

  /** A root that may be absent; local to this module. */
  datatype Option<T> = None | Some(value: T)

  /** A fresh leaf root holding one key. */
  function SingletonLeaf(order: int, key: int): (n: Node)
    ensures n.isLeaf && n.keys == [key] && n.order == order
  {
    NewNode(order, true).(keys := [key])
  }

  lemma SingletonValid(order: int, key: int)
    requires order >= 5
    ensures ValidNode(SingletonLeaf(order, key)) && Height(SingletonLeaf(order, key)) == 0
    ensures Contents(SingletonLeaf(order, key)) == [key]
  {
    assert Shaped(SingletonLeaf(order, key), 0, order);
  }

  /** The new root insert makes above a full root: no keys, the old root as its only child. */
  function Grown(rt: Node): (n: Node)
    ensures !n.isLeaf && n.keys == [] && n.children == [rt] && n.order == rt.order
  {
    NewNode(rt.order, false).(children := [rt])
  }

  /** Putting a keyless node above the root adds one level and changes no key. */
  lemma GrowRoot(rt: Node)
    requires ValidNode(rt) && rt.keys != []
    ensures ValidNode(Grown(rt)) && Height(Grown(rt)) == Height(rt) + 1
    ensures Contents(Grown(rt)) == Contents(rt)
  {
    GrownContents(rt);
    GrownShaped(rt);
  }

  lemma GrownContents(rt: Node)
    ensures Contents(Grown(rt)) == Contents(rt)
  {
    var n := Grown(rt);
    assert Walks(n.children)[0] == Contents(rt);
  }

  lemma GrownShaped(rt: Node)
    requires ValidNode(rt) && rt.keys != []
    ensures Shaped(Grown(rt), Height(rt) + 1, rt.order) && Height(Grown(rt)) == Height(rt) + 1
  {
    var n := Grown(rt);
    assert AllShaped(n.children, Height(rt), rt.order);
    ShapedHeight(n, Height(rt) + 1, rt.order);
  }

  /** A keyless internal root holds the whole tree in its only child. */
  lemma Collapse(r: Node)
    requires ValidNode(r) && !r.isLeaf && r.keys == []
    ensures ValidNode(r.children[0]) && r.children[0].order == r.order && r.children[0].keys != []
    ensures Height(r.children[0]) == Height(r) - 1
    ensures Contents(r.children[0]) == Contents(r)
  {
    ChildValid(r, 0);
    assert Walks(r.children)[0] == Contents(r.children[0]);
  }

  /**
   * The full-root case of insert: a keyless internal node is put above the
   * root, the old root is split under it, and the key goes into the half
   * on its side of the lifted key. The tree grows by one level, and the new
   * root holds exactly the lifted key.
   */
  method InsertAtFullRoot(rt: Node, key: int) returns (r: Node)
    requires ValidNode(rt) && |rt.keys| == rt.order - 1
    ensures ValidNode(r) && r.order == rt.order && Height(r) == Height(rt) + 1
    ensures |r.keys| == 1 && |r.children| == 2 && r.keys[0] == rt.keys[rt.order / 2]
    ensures Contents(r) == InsertSorted(Contents(rt), key)
  {
    var newRoot := Grown(rt);
    GrowRoot(rt);
    var m := SplitChild(newRoot, 0);
    SplitStep(newRoot, 0, key);
    var i := 0;
    if m.keys[0] < key {
      i := i + 1;
    }
    ChildValid(m, i);
    var c := InsertNonFull(m.children[i], key);
    InsertedInChild(newRoot, m, i, c, key);
    r := m.(children := m.children[i := c]);
  }

  class BTree {
    var root: Option<Node>
    const order: int

    /** Every node is valid for order, and a root that exists holds a key. */
    ghost predicate Valid()
      reads this
    {
      order >= 5 &&
      (root.Some? ==> ValidNode(root.value) && root.value.order == order && root.value.keys != [])
    }

    /** The in-order key sequence of the whole tree. */
    ghost function Walk(): seq<int>
      reads this
    {
      if root.None? then [] else Contents(root.value)
    }

    constructor(order: int)
      requires order >= 5
      ensures Valid() && Walk() == [] && root == None && this.order == order
    {
      this.order := order;
      root := None;
    }

    /**
     * insert: an empty tree gets a one-key leaf; a full root is split under
     * a new root, which makes the tree one level taller; otherwise the key
     * goes down from the root as it is.
     */
    method Insert(key: int)
      modifies this
      requires Valid()
      ensures Valid() && Walk() == InsertSorted(old(Walk()), key)
      ensures old(root) == None ==> root == Some(SingletonLeaf(order, key))
      ensures old(root).Some? && |old(root).value.keys| == order - 1 ==>
        root.Some? && Height(root.value) == Height(old(root).value) + 1 &&
        |root.value.keys| == 1 && |root.value.children| == 2
      ensures old(root).Some? && |old(root).value.keys| != order - 1 ==>
        root.Some? && Height(root.value) == Height(old(root).value)
    {
      if root.None? {
        SingletonValid(order, key);
        root := Some(SingletonLeaf(order, key));
        return;
      }
      var rt := root.value;
      if |rt.keys| == order - 1 {
        var r := InsertAtFullRoot(rt, key);
        root := Some(r);
      } else {
        var r := InsertNonFull(rt, key);
        root := Some(r);
      }
    }

    /**
     * remove: nothing happens on an empty tree; otherwise the key is removed
     * from the root down, and a root left without keys gives way to its only
     * child, or to the empty tree when it was a leaf. found tells whether
     * the key was there; it stands for the "not found" message on a
     * non-empty tree, and is false on an empty one, where nothing is printed.
     */
    method Remove(key: int) returns (found: bool)
      modifies this
      requires Valid()
      ensures Valid() && Walk() == RemoveOne(old(Walk()), key)
      ensures found <==> key in old(Walk())
      ensures root.Some? ==>
        (old(root).Some? && Height(old(root).value) - 1 <= Height(root.value) <= Height(old(root).value))
    {
      if root.None? {
        found := false;
        return;
      }
      var r, f := RemoveFrom(root.value, key);
      found := f;
      if |r.keys| == 0 {
        if !r.isLeaf {
          Collapse(r);
          root := Some(r.children[0]);
        } else {
          root := None;
        }
      } else {
        root := Some(r);
      }
    }

    /** The root is absent exactly when the tree holds no key. */
    lemma EmptyIffNoRoot()
      requires Valid()
      ensures root.None? <==> Walk() == []
    {
      if root.Some? {
        NonEmpty(root.value, Height(root.value));
      }
    }

    /** traverse: the keys of the tree in order, nothing for an empty tree. */
    method Traverse() returns (walk: seq<int>)
      requires Valid()
      ensures walk == Walk()
      ensures Sorted(walk)
    {
      walk := [];
      if root.Some? {
        walk := BTrees.Traverse(root.value);
      }
    }
  }

  // The scenario of the program's main, order 5, one step per lemma, on the
  // walks that BTree.Insert and BTree.Remove promise: eight keys go into an
  // empty tree, then 6 (present), 13 (absent) and 7 (present) are removed.

  /**
   * The program's main on the tree object: order 5, the eight insertions,
   * then the removals of 6, 13 and 7, with the traversal after each phase
   * and whether each removed key was found.
   */
  method MainScenario() returns (before: seq<int>, found6: bool, after6: seq<int>,
                                 found13: bool, after13: seq<int>, found7: bool, after7: seq<int>)
    ensures before == [5, 6, 7, 10, 12, 17, 20, 30]
    ensures found6 && after6 == [5, 7, 10, 12, 17, 20, 30]
    ensures !found13 && after13 == [5, 7, 10, 12, 17, 20, 30]
    ensures found7 && after7 == [5, 10, 12, 17, 20, 30]
  {
    var t := new BTree(5);
    MainInserts(t);
    before := t.Traverse();
    MainRemove6();
    found6 := t.Remove(6);
    after6 := t.Traverse();
    MainRemove13();
    found13 := t.Remove(13);
    after13 := t.Traverse();
    MainRemove7();
    found7 := t.Remove(7);
    after7 := t.Traverse();
  }

  /** The eight insertions of main, 10, 20, 5, 6, 12, 30, 7, 17, into an empty tree. */
  method MainInserts(t: BTree)
    modifies t
    requires t.Valid() && t.Walk() == []
    ensures t.Valid() && t.Walk() == [5, 6, 7, 10, 12, 17, 20, 30]
  {
    MainInsert1();
    t.Insert(10);
    MainInsert2();
    t.Insert(20);
    MainInsert3();
    t.Insert(5);
    MainInsert4();
    t.Insert(6);
    MainInsert5();
    t.Insert(12);
    MainInsert6();
    t.Insert(30);
    MainInsert7();
    t.Insert(7);
    MainInsert8();
    t.Insert(17);
  }

  lemma MainInsert1()
    ensures InsertSorted([], 10) == [10]
  {
    InsertStep([], [], 10, [], [10]);
  }

  lemma MainInsert2()
    ensures InsertSorted([10], 20) == [10, 20]
  {
    InsertStep([10], [10], 20, [], [10, 20]);
  }

  lemma MainInsert3()
    ensures InsertSorted([10, 20], 5) == [5, 10, 20]
  {
    InsertStep([10, 20], [], 5, [10, 20], [5, 10, 20]);
  }

  lemma MainInsert4()
    ensures InsertSorted([5, 10, 20], 6) == [5, 6, 10, 20]
  {
    InsertStep([5, 10, 20], [5], 6, [10, 20], [5, 6, 10, 20]);
  }

  lemma MainInsert5()
    ensures InsertSorted([5, 6, 10, 20], 12) == [5, 6, 10, 12, 20]
  {
    InsertStep([5, 6, 10, 20], [5, 6, 10], 12, [20], [5, 6, 10, 12, 20]);
  }

  lemma MainInsert6()
    ensures InsertSorted([5, 6, 10, 12, 20], 30) == [5, 6, 10, 12, 20, 30]
  {
    InsertStep([5, 6, 10, 12, 20], [5, 6, 10, 12, 20], 30, [], [5, 6, 10, 12, 20, 30]);
  }

  lemma MainInsert7()
    ensures InsertSorted([5, 6, 10, 12, 20, 30], 7) == [5, 6, 7, 10, 12, 20, 30]
  {
    InsertStep([5, 6, 10, 12, 20, 30], [5, 6], 7, [10, 12, 20, 30], [5, 6, 7, 10, 12, 20, 30]);
  }

  lemma MainInsert8()
    ensures InsertSorted([5, 6, 7, 10, 12, 20, 30], 17) == [5, 6, 7, 10, 12, 17, 20, 30]
  {
    InsertStep([5, 6, 7, 10, 12, 20, 30], [5, 6, 7, 10, 12], 17, [20, 30], [5, 6, 7, 10, 12, 17, 20, 30]);
  }

  lemma MainRemove6()
    ensures 6 in [5, 6, 7, 10, 12, 17, 20, 30]
    ensures RemoveOne([5, 6, 7, 10, 12, 17, 20, 30], 6) == [5, 7, 10, 12, 17, 20, 30]
  {
    RemoveStep([5, 6, 7, 10, 12, 17, 20, 30], [5], 6, [7, 10, 12, 17, 20, 30], [5, 7, 10, 12, 17, 20, 30]);
  }

  lemma MainRemove13()
    ensures 13 !in [5, 7, 10, 12, 17, 20, 30]
    ensures RemoveOne([5, 7, 10, 12, 17, 20, 30], 13) == [5, 7, 10, 12, 17, 20, 30]
  {
    assert 13 !in [5, 7, 10, 12, 17, 20, 30];
  }

  lemma MainRemove7()
    ensures 7 in [5, 7, 10, 12, 17, 20, 30]
    ensures RemoveOne([5, 7, 10, 12, 17, 20, 30], 7) == [5, 10, 12, 17, 20, 30]
  {
    RemoveStep([5, 7, 10, 12, 17, 20, 30], [5], 7, [10, 12, 17, 20, 30], [5, 10, 12, 17, 20, 30]);
  }

  /** One insertion of the scenario: s split around x, r the sequence with x put in between. */
  lemma InsertStep(s: seq<int>, a: seq<int>, x: int, b: seq<int>, r: seq<int>)
    requires s == a + b && r == a + [x] + b
    requires forall y :: y in a ==> y <= x
    requires forall y :: y in b ==> x < y
    ensures InsertSorted(s, x) == r
  {
    InsertSortedBetween(a, x, b);
  }

  /** One removal of the scenario: s with its first x dropped is r. */
  lemma RemoveStep(s: seq<int>, a: seq<int>, x: int, b: seq<int>, r: seq<int>)
    requires s == a + [x] + b && x !in a && r == a + b
    ensures RemoveOne(s, x) == r
  {
    RemoveOneFirst(a, x, b);
  }
}
