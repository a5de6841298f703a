// The in-order key sequence of a B-tree node, computed from the node's own
// keys and the in-order sequences of its children. The node-level
// rebalancing steps (split, merge, borrow) move keys without changing that
// sequence; replacing a separator by its predecessor or successor, removed
// from the child below, takes exactly one copy of the separator out of it.

module NodeSeq {
  import opened SortedSeq

  /** children[0], keys[0], children[1], ..., keys[n-1], children[n]. */
  function InOrder(ks: seq<int>, cs: seq<seq<int>>): seq<int>
    requires |cs| == |ks| + 1
    decreases |ks|
  {
    if |ks| == 0 then cs[0]
    else InOrder(ks[..|ks| - 1], cs[..|ks|]) + [ks[|ks| - 1]] + cs[|ks|]
  }

  /** Everything the in-order walk emits before child j. */
  function Before(ks: seq<int>, cs: seq<seq<int>>, j: int): seq<int>
    requires |cs| == |ks| + 1 && 0 <= j <= |ks|
  {
    if j == 0 then [] else InOrder(ks[..j - 1], cs[..j]) + [ks[j - 1]]
  }

  /** Everything the in-order walk emits after child j. */
  function After(ks: seq<int>, cs: seq<seq<int>>, j: int): seq<int>
    requires |cs| == |ks| + 1 && 0 <= j <= |ks|
  {
    if j == |ks| then [] else [ks[j]] + InOrder(ks[j + 1..], cs[j + 1..])
  }

  /** A node's walk splits at any of its keys into the walks of the two halves. */
  lemma {:induction false} InOrderConcat(k1: seq<int>, k: int, k2: seq<int>, c1: seq<seq<int>>, c2: seq<seq<int>>)
    requires |c1| == |k1| + 1 && |c2| == |k2| + 1
    ensures InOrder(k1 + [k] + k2, c1 + c2) == InOrder(k1, c1) + [k] + InOrder(k2, c2)
    decreases |k2|
  {
    var ks, cs := k1 + [k] + k2, c1 + c2;
    if k2 == [] {
      assert ks[..|ks| - 1] == k1 && cs[..|ks|] == c1 && cs[|ks|] == c2[0];
    } else {
      var n := |k2|;
      assert ks[..|ks| - 1] == k1 + [k] + k2[..n - 1];
      assert cs[..|ks|] == c1 + c2[..n];
      InOrderConcat(k1, k, k2[..n - 1], c1, c2[..n]);
      assert ks[|ks| - 1] == k2[n - 1] && cs[|ks|] == c2[n];
    }
  }

  /** The walk up to child j + 1 extends the walk up to child j by that child and key j. */
  lemma {:induction false} BeforeStep(ks: seq<int>, cs: seq<seq<int>>, j: int)
    requires |cs| == |ks| + 1 && 0 <= j < |ks|
    ensures Before(ks, cs, j + 1) == Before(ks, cs, j) + cs[j] + [ks[j]]
  {
    if j > 0 {
      assert ks[..j][..j - 1] == ks[..j - 1] && cs[..j + 1][..j] == cs[..j];
    }
  }

  /** A node's walk split at its key m: the lower half, key m, the upper half. */
  lemma {:induction false} SplitContents(ks: seq<int>, cs: seq<seq<int>>, m: int)
    requires |cs| == |ks| + 1 && 0 <= m < |ks|
    ensures InOrder(ks, cs) == InOrder(ks[..m], cs[..m + 1]) + [ks[m]] + InOrder(ks[m + 1..], cs[m + 1..])
  {
    assert ks == ks[..m] + [ks[m]] + ks[m + 1..];
    assert cs == cs[..m + 1] + cs[m + 1..];
    InOrderConcat(ks[..m], ks[m], ks[m + 1..], cs[..m + 1], cs[m + 1..]);
  }

  lemma {:induction false} Around(ks: seq<int>, cs: seq<seq<int>>, j: int)
    requires |cs| == |ks| + 1 && 0 <= j <= |ks|
    ensures InOrder(ks, cs) == Before(ks, cs, j) + cs[j] + After(ks, cs, j)
  {
    if j < |ks| {
      var k1, k2, c1, c2 := ks[..j], ks[j + 1..], cs[..j + 1], cs[j + 1..];
      assert ks == k1 + [ks[j]] + k2;
      assert cs == c1 + c2;
      InOrderConcat(k1, ks[j], k2, c1, c2);
      assert InOrder(k1, c1) == Before(ks, cs, j) + cs[j] by {
        if j > 0 {
          assert k1[..j - 1] == ks[..j - 1] && c1[..j] == cs[..j];
        }
      }
    }
  }

  lemma {:induction false} SortedAppend(a: seq<int>, b: seq<int>)
    ensures Sorted(a + b) <==> Sorted(a) && Sorted(b) && (forall x, y :: x in a && y in b ==> x <= y)
  {
    var s := a + b;
    if Sorted(a) && Sorted(b) && (forall x, y :: x in a && y in b ==> x <= y) {
      forall i, j | 0 <= i < j < |s| ensures s[i] <= s[j] {
        if j < |a| {
          assert s[i] == a[i] && s[j] == a[j];
        } else if i >= |a| {
          assert s[i] == b[i - |a|] && s[j] == b[j - |a|];
        } else {
          assert s[i] == a[i] && s[i] in a;
          assert s[j] == b[j - |a|] && s[j] in b;
        }
      }
    }
    if Sorted(s) {
      forall x, y | x in a && y in b ensures x <= y {
        var i :| 0 <= i < |a| && a[i] == x;
        var j :| 0 <= j < |b| && b[j] == y;
        assert s[i] == x && s[|a| + j] == y;
      }
      forall i, j | 0 <= i < j < |b| ensures b[i] <= b[j] {
        assert s[|a| + i] == b[i] && s[|a| + j] == b[j];
      }
      forall i, j | 0 <= i < j < |a| ensures a[i] <= a[j] {
        assert s[i] == a[i] && s[j] == a[j];
      }
    }
  }

  lemma {:induction false} SortedLast(s: seq<int>)
    requires Sorted(s) && s != []
    ensures forall x :: x in s ==> x <= s[|s| - 1]
  {
  }

  lemma {:induction false} SortedFirst(s: seq<int>)
    requires Sorted(s) && s != []
    ensures forall x :: x in s ==> s[0] <= x
  {
  }

  /** The three parts of a node's walk around child j, and what sortedness says of them. */
  lemma {:induction false} AroundSorted(ks: seq<int>, cs: seq<seq<int>>, j: int)
    requires |cs| == |ks| + 1 && 0 <= j <= |ks|
    requires Sorted(InOrder(ks, cs))
    ensures Sorted(Before(ks, cs, j)) && Sorted(cs[j]) && Sorted(After(ks, cs, j))
    ensures forall x :: x in Before(ks, cs, j) ==> x <= ks[j - 1]
    ensures forall x :: x in After(ks, cs, j) ==> ks[j] <= x
    ensures forall x :: x in cs[j] ==> (j > 0 ==> ks[j - 1] <= x) && (j < |ks| ==> x <= ks[j])
    ensures forall x, y :: x in Before(ks, cs, j) && y in After(ks, cs, j) ==> x <= y
  {
    var b, a := Before(ks, cs, j), After(ks, cs, j);
    Around(ks, cs, j);
    SortedAppend(b + cs[j], a);
    SortedAppend(b, cs[j]);
    if j > 0 {
      SortedLast(b);
      assert ks[j - 1] in b;
    }
    if j < |ks| {
      SortedFirst(a);
      assert ks[j] in a;
    }
    forall x | x in cs[j] ensures x in b + cs[j] { }
    forall x | x in b ensures x in b + cs[j] { }
  }

  /** Child j lies between its neighbouring separators (inclusive, duplicates allowed). */
  lemma {:induction false} ChildBounds(ks: seq<int>, cs: seq<seq<int>>, j: int)
    requires |cs| == |ks| + 1 && 0 <= j <= |ks|
    requires Sorted(InOrder(ks, cs))
    ensures Sorted(cs[j])
    ensures forall x :: x in cs[j] ==> (j > 0 ==> ks[j - 1] <= x) && (j < |ks| ==> x <= ks[j])
  {
    AroundSorted(ks, cs, j);
  }

  lemma {:induction false} KeyIn(ks: seq<int>, cs: seq<seq<int>>, i: int)
    requires |cs| == |ks| + 1 && 0 <= i < |ks|
    ensures ks[i] in InOrder(ks, cs)
  {
    Around(ks, cs, i);
  }

  /** The separators themselves are in order. */
  lemma {:induction false} KeysSorted(ks: seq<int>, cs: seq<seq<int>>)
    requires |cs| == |ks| + 1
    requires Sorted(InOrder(ks, cs))
    ensures Sorted(ks)
  {
    forall i, j | 0 <= i < j < |ks| ensures ks[i] <= ks[j] {
      KeysOrdered(ks, cs, i, j);
    }
  }

  lemma {:induction false} KeysOrdered(ks: seq<int>, cs: seq<seq<int>>, i: int, j: int)
    requires |cs| == |ks| + 1 && 0 <= i < j < |ks|
    requires Sorted(InOrder(ks, cs))
    ensures ks[i] <= ks[j]
  {
    AroundSorted(ks, cs, j);
    if i < j - 1 {
      KeyIn(ks[..j - 1], cs[..j], i);
    }
    assert ks[i] in Before(ks, cs, j);
    assert ks[j] in After(ks, cs, j);
  }

  /** If key lies strictly between the separators around child t, only child t can hold it. */
  lemma {:induction false} DescendFind(ks: seq<int>, cs: seq<seq<int>>, t: int, key: int)
    requires |cs| == |ks| + 1 && 0 <= t <= |ks|
    requires Sorted(InOrder(ks, cs))
    requires t > 0 ==> ks[t - 1] < key
    requires t < |ks| ==> key < ks[t]
    ensures key in InOrder(ks, cs) <==> key in cs[t]
  {
    AroundSorted(ks, cs, t);
    Around(ks, cs, t);
  }

  /** Sortedness survives replacing the middle of b + m + a by a sorted m2 that fits between. */
  lemma {:induction false} SortedReplaceMiddle(b: seq<int>, m: seq<int>, m2: seq<int>, a: seq<int>)
    requires Sorted(b + m + a) && Sorted(m2)
    requires b != [] ==> forall x :: x in m2 ==> b[|b| - 1] <= x
    requires a != [] ==> forall x :: x in m2 ==> x <= a[0]
    ensures Sorted(b + m2 + a)
  {
    SortedAppend(b + m, a);
    SortedAppend(b, m);
    if b != [] {
      SortedLast(b);
    }
    if a != [] {
      SortedFirst(a);
    }
    SortedAppend(b, m2);
    var bm2 := b + m2;
    forall x, y | x in bm2 && y in a ensures x <= y {
      if x in b {
        assert x in b + m;
      } else {
        assert x in m2;
      }
    }
    SortedAppend(bm2, a);
  }

  lemma {:induction false} AroundReplaced(ks: seq<int>, cs: seq<seq<int>>, j: int, c: seq<int>)
    requires |cs| == |ks| + 1 && 0 <= j <= |ks|
    ensures InOrder(ks, cs[j := c]) == Before(ks, cs, j) + c + After(ks, cs, j)
  {
    var cs' := cs[j := c];
    Around(ks, cs', j);
    if j > 0 {
      assert cs'[..j] == cs[..j];
    }
    if j < |ks| {
      assert cs'[j + 1..] == cs[j + 1..];
    }
  }

  /** Replacing child j by a sorted sequence that stays between the same separators. */
  lemma {:induction false} ReplaceChild(ks: seq<int>, cs: seq<seq<int>>, j: int, c: seq<int>)
    requires |cs| == |ks| + 1 && 0 <= j <= |ks|
    requires Sorted(InOrder(ks, cs)) && Sorted(c)
    requires forall x :: x in c ==> (j > 0 ==> ks[j - 1] <= x) && (j < |ks| ==> x <= ks[j])
    ensures Sorted(InOrder(ks, cs[j := c]))
    ensures multiset(InOrder(ks, cs[j := c])) + multiset(cs[j]) == multiset(InOrder(ks, cs)) + multiset(c)
  {
    var b, a := Before(ks, cs, j), After(ks, cs, j);
    Around(ks, cs, j);
    AroundReplaced(ks, cs, j, c);
    SortedReplaceMiddle(b, cs[j], c, a);
  }

  /** The node left by merging children j and j+1 around separator j. */
  function MergedKeys(ks: seq<int>, j: int): seq<int>
    requires 0 <= j < |ks|
  {
    ks[..j] + ks[j + 1..]
  }

  function MergedChildren(ks: seq<int>, cs: seq<seq<int>>, j: int): seq<seq<int>>
    requires |cs| == |ks| + 1 && 0 <= j < |ks|
  {
    cs[..j] + [cs[j] + [ks[j]] + cs[j + 1]] + cs[j + 2..]
  }

  lemma {:induction false} MergedBefore(ks: seq<int>, cs: seq<seq<int>>, j: int)
    requires |cs| == |ks| + 1 && 0 <= j < |ks|
    ensures Before(MergedKeys(ks, j), MergedChildren(ks, cs, j), j) == Before(ks, cs, j)
  {
    var ks', cs' := MergedKeys(ks, j), MergedChildren(ks, cs, j);
    if j > 0 {
      assert ks'[..j - 1] == ks[..j - 1] && cs'[..j] == cs[..j] && ks'[j - 1] == ks[j - 1];
    }
  }

  lemma {:induction false} MergedAfter(ks: seq<int>, cs: seq<seq<int>>, j: int)
    requires |cs| == |ks| + 1 && 0 <= j < |ks|
    ensures After(MergedKeys(ks, j), MergedChildren(ks, cs, j), j) == After(ks[j + 1..], cs[j + 1..], 0)
  {
    var ks', cs' := MergedKeys(ks, j), MergedChildren(ks, cs, j);
    if j + 1 < |ks| {
      assert ks'[j] == ks[j + 1];
      assert ks'[j + 1..] == ks[j + 1..][1..];
      assert cs'[j + 1..] == cs[j + 1..][1..];
    }
  }

  lemma {:induction false} MergedAround(ks: seq<int>, cs: seq<seq<int>>, j: int)
    requires |cs| == |ks| + 1 && 0 <= j < |ks|
    ensures InOrder(MergedKeys(ks, j), MergedChildren(ks, cs, j))
         == Before(ks, cs, j) + (cs[j] + [ks[j]] + cs[j + 1]) + After(ks[j + 1..], cs[j + 1..], 0)
  {
    var ks', cs' := MergedKeys(ks, j), MergedChildren(ks, cs, j);
    Around(ks', cs', j);
    MergedBefore(ks, cs, j);
    MergedAfter(ks, cs, j);
    assert cs'[j] == cs[j] + [ks[j]] + cs[j + 1];
  }

  /** Merging children j and j+1 around separator j leaves the walk unchanged. */
  lemma {:induction false} MergeAt(ks: seq<int>, cs: seq<seq<int>>, j: int)
    requires |cs| == |ks| + 1 && 0 <= j < |ks|
    ensures InOrder(MergedKeys(ks, j), MergedChildren(ks, cs, j)) == InOrder(ks, cs)
  {
    MergedAround(ks, cs, j);
    AfterStep(ks, cs, j);
    Around(ks, cs, j);
    Regroup(Before(ks, cs, j), cs[j], ks[j], cs[j + 1], After(ks[j + 1..], cs[j + 1..], 0));
  }

  /** What follows child j: separator j, child j + 1, then what follows child j + 1. */
  lemma {:induction false} AfterStep(ks: seq<int>, cs: seq<seq<int>>, j: int)
    requires |cs| == |ks| + 1 && 0 <= j < |ks|
    ensures After(ks, cs, j) == [ks[j]] + (cs[j + 1] + After(ks[j + 1..], cs[j + 1..], 0))
  {
    var k2, c2 := ks[j + 1..], cs[j + 1..];
    var r, t := InOrder(k2, c2), After(k2, c2, 0);
    assert After(ks, cs, j) == [ks[j]] + r;
    Around(k2, c2, 0);
    assert Before(k2, c2, 0) == [];
    assert r == [] + c2[0] + t;
    assert c2[0] == cs[j + 1];
    assert [] + c2[0] + t == c2[0] + t;
  }

  lemma Regroup(b: seq<int>, x: seq<int>, k: int, y: seq<int>, t: seq<int>)
    ensures b + (x + [k] + y) + t == b + x + ([k] + (y + t))
  {
  }

  /** Splitting child i = a + [m] + b into a and b, with m promoted to separator i. */
  lemma {:induction false} SplitAt(ks: seq<int>, cs: seq<seq<int>>, i: int, a: seq<int>, m: int, b: seq<int>)
    requires |cs| == |ks| + 1 && 0 <= i <= |ks|
    requires cs[i] == a + [m] + b
    ensures InOrder(ks[..i] + [m] + ks[i..], cs[..i] + [a, b] + cs[i + 1..]) == InOrder(ks, cs)
  {
    var ks', cs' := ks[..i] + [m] + ks[i..], cs[..i] + [a, b] + cs[i + 1..];
    MergeAt(ks', cs', i);
    assert MergedKeys(ks', i) == ks;
    assert MergedChildren(ks', cs', i) == cs;
  }

  /** Replacing the window child j, separator j, child j+1 by one with the same walk. */
  lemma {:induction false} WindowAt(ks: seq<int>, cs: seq<seq<int>>, j: int, a: seq<int>, k: int, b: seq<int>)
    requires |cs| == |ks| + 1 && 0 <= j < |ks|
    ensures InOrder(ks[j := k], cs[j := a][j + 1 := b])
         == InOrder(MergedKeys(ks, j), MergedChildren(ks, cs, j)[j := a + [k] + b])
  {
    var ks', cs' := ks[j := k], cs[j := a][j + 1 := b];
    MergeAt(ks', cs', j);
    assert MergedKeys(ks', j) == MergedKeys(ks, j);
    assert MergedChildren(ks', cs', j) == MergedChildren(ks, cs, j)[j := a + [k] + b];
  }

  /** Borrowing through separator j (either direction) leaves the walk unchanged. */
  lemma {:induction false} BorrowAt(ks: seq<int>, cs: seq<seq<int>>, j: int, a: seq<int>, k: int, b: seq<int>)
    requires |cs| == |ks| + 1 && 0 <= j < |ks|
    requires a + [k] + b == cs[j] + [ks[j]] + cs[j + 1]
    ensures InOrder(ks[j := k], cs[j := a][j + 1 := b]) == InOrder(ks, cs)
  {
    WindowAt(ks, cs, j, a, k, b);
    MergeAt(ks, cs, j);
    assert MergedChildren(ks, cs, j)[j := a + [k] + b] == MergedChildren(ks, cs, j);
  }

  /** Replacing the window around separator j by a sorted one within the outer separators. */
  lemma {:induction false} ReplaceWindow(ks: seq<int>, cs: seq<seq<int>>, j: int, a: seq<int>, k: int, b: seq<int>)
    requires |cs| == |ks| + 1 && 0 <= j < |ks|
    requires Sorted(InOrder(ks, cs)) && Sorted(a + [k] + b)
    requires forall x :: x in a + [k] + b ==> (j > 0 ==> ks[j - 1] <= x) && (j + 1 < |ks| ==> x <= ks[j + 1])
    ensures Sorted(InOrder(ks[j := k], cs[j := a][j + 1 := b]))
    ensures multiset(InOrder(ks[j := k], cs[j := a][j + 1 := b])) + multiset(cs[j] + [ks[j]] + cs[j + 1])
         == multiset(InOrder(ks, cs)) + multiset(a + [k] + b)
  {
    var mk, mc := MergedKeys(ks, j), MergedChildren(ks, cs, j);
    MergeAt(ks, cs, j);
    WindowAt(ks, cs, j, a, k, b);
    if j > 0 {
      assert mk[j - 1] == ks[j - 1];
    }
    if j < |mk| {
      assert mk[j] == ks[j + 1];
    }
    ReplaceChild(mk, mc, j, a + [k] + b);
  }

  /** The window child j, separator p, child j+1 is sorted and within the outer separators. */
  lemma {:induction false} WindowFits(ks: seq<int>, cs: seq<seq<int>>, j: int, a: seq<int>, k: int, b: seq<int>)
    requires |cs| == |ks| + 1 && 0 <= j < |ks|
    requires Sorted(InOrder(ks, cs))
    requires Sorted(a) && Sorted(b)
    requires forall x :: x in a ==> x <= k && (j > 0 ==> ks[j - 1] <= x)
    requires forall y :: y in b ==> k <= y && (j + 1 < |ks| ==> y <= ks[j + 1])
    requires j > 0 ==> ks[j - 1] <= k
    requires j + 1 < |ks| ==> k <= ks[j + 1]
    ensures Sorted(a + [k] + b)
    ensures forall x :: x in a + [k] + b ==> (j > 0 ==> ks[j - 1] <= x) && (j + 1 < |ks| ==> x <= ks[j + 1])
  {
    var ak := a + [k];
    SortedAppend(a, [k]);
    forall x, y | x in ak && y in b ensures x <= y {
    }
    SortedAppend(ak, b);
  }

  lemma {:induction false} MultisetRestore(c: seq<int>, t: seq<int>, x: int)
    requires x in t && multiset(c) == multiset(t) - multiset{x}
    ensures multiset(c) + multiset{x} == multiset(t)
  {
    assert x in multiset(t);
  }

  /** Bookkeeping for a window whose one side lost a copy of its extreme key k2 that replaced separator k. */
  lemma {:induction false} WindowMultiset(n: seq<int>, o: seq<int>, a: seq<int>, k: int, b: seq<int>, a2: seq<int>, k2: int, b2: seq<int>)
    requires multiset(a2) + multiset{k2} + multiset(b2) == multiset(a) + multiset(b)
    requires multiset(n) + multiset(a + [k] + b) == multiset(o) + multiset(a2 + [k2] + b2)
    ensures multiset(n) == multiset(o) - multiset{k}
  {
    var w := multiset(a2 + [k2] + b2);
    assert multiset(a + [k] + b) == w + multiset{k};
    forall x ensures (multiset(n) + multiset{k})[x] == multiset(o)[x] {
      assert (multiset(n) + (w + multiset{k}))[x] == (multiset(o) + w)[x];
    }
    assert multiset(n) + multiset{k} == multiset(o);
  }

  /** Separator j replaced by the maximum p of child j, which loses one copy of p. */
  lemma {:induction false} PredecessorStep(ks: seq<int>, cs: seq<seq<int>>, j: int, c: seq<int>)
    requires |cs| == |ks| + 1 && 0 <= j < |ks|
    requires Sorted(InOrder(ks, cs)) && cs[j] != []
    requires Sorted(c) && multiset(c) == multiset(cs[j]) - multiset{cs[j][|cs[j]| - 1]}
    ensures Sorted(InOrder(ks[j := cs[j][|cs[j]| - 1]], cs[j := c]))
    ensures multiset(InOrder(ks[j := cs[j][|cs[j]| - 1]], cs[j := c])) == multiset(InOrder(ks, cs)) - multiset{ks[j]}
  {
    var p, d := cs[j][|cs[j]| - 1], cs[j + 1];
    PredecessorWindow(ks, cs, j, c, p, d);
    ReplaceWindow(ks, cs, j, c, p, d);
    assert cs[j := c][j + 1 := d] == cs[j := c];
    PredecessorCount(InOrder(ks[j := p], cs[j := c]), InOrder(ks, cs), cs[j], ks[j], d, c);
  }

  /** The rest of child j, its maximum p, child j+1 fits where the old window was. */
  lemma {:induction false} PredecessorWindow(ks: seq<int>, cs: seq<seq<int>>, j: int, c: seq<int>, p: int, d: seq<int>)
    requires |cs| == |ks| + 1 && 0 <= j < |ks|
    requires Sorted(InOrder(ks, cs)) && cs[j] != [] && p == cs[j][|cs[j]| - 1] && d == cs[j + 1]
    requires Sorted(c) && multiset(c) == multiset(cs[j]) - multiset{p}
    ensures Sorted(c + [p] + d)
    ensures forall x :: x in c + [p] + d ==> (j > 0 ==> ks[j - 1] <= x) && (j + 1 < |ks| ==> x <= ks[j + 1])
  {
    ChildBounds(ks, cs, j);
    ChildBounds(ks, cs, j + 1);
    KeysSorted(ks, cs);
    SortedLast(cs[j]);
    assert p in cs[j];
    forall x | x in c ensures x in cs[j] {
      assert x in multiset(c);
    }
    WindowFits(ks, cs, j, c, p, d);
  }

  lemma {:induction false} PredecessorCount(n: seq<int>, o: seq<int>, a: seq<int>, k: int, d: seq<int>, c: seq<int>)
    requires a != [] && multiset(c) == multiset(a) - multiset{a[|a| - 1]}
    requires multiset(n) + multiset(a + [k] + d) == multiset(o) + multiset(c + [a[|a| - 1]] + d)
    ensures multiset(n) == multiset(o) - multiset{k}
  {
    MultisetRestore(c, a, a[|a| - 1]);
    WindowMultiset(n, o, a, k, d, c, a[|a| - 1], d);
  }

  /** Separator j replaced by the minimum s of child j+1, which loses one copy of s. */
  lemma {:induction false} SuccessorStep(ks: seq<int>, cs: seq<seq<int>>, j: int, c: seq<int>)
    requires |cs| == |ks| + 1 && 0 <= j < |ks|
    requires Sorted(InOrder(ks, cs)) && cs[j + 1] != []
    requires Sorted(c) && multiset(c) == multiset(cs[j + 1]) - multiset{cs[j + 1][0]}
    ensures Sorted(InOrder(ks[j := cs[j + 1][0]], cs[j + 1 := c]))
    ensures multiset(InOrder(ks[j := cs[j + 1][0]], cs[j + 1 := c])) == multiset(InOrder(ks, cs)) - multiset{ks[j]}
  {
    var s, a := cs[j + 1][0], cs[j];
    SuccessorWindow(ks, cs, j, c, a, s);
    assert cs[j := a][j + 1 := c] == cs[j + 1 := c];
    ReplaceWindow(ks, cs, j, a, s, c);
    SuccessorCount(InOrder(ks[j := s], cs[j + 1 := c]), InOrder(ks, cs), a, ks[j], cs[j + 1], c);
  }

  /** The window child j, the minimum s of child j+1, the rest of child j+1 fits where the old window was. */
  lemma {:induction false} SuccessorWindow(ks: seq<int>, cs: seq<seq<int>>, j: int, c: seq<int>, a: seq<int>, s: int)
    requires |cs| == |ks| + 1 && 0 <= j < |ks|
    requires Sorted(InOrder(ks, cs)) && cs[j + 1] != [] && a == cs[j] && s == cs[j + 1][0]
    requires Sorted(c) && multiset(c) == multiset(cs[j + 1]) - multiset{s}
    ensures Sorted(a + [s] + c)
    ensures forall x :: x in a + [s] + c ==> (j > 0 ==> ks[j - 1] <= x) && (j + 1 < |ks| ==> x <= ks[j + 1])
  {
    ChildBounds(ks, cs, j);
    ChildBounds(ks, cs, j + 1);
    KeysSorted(ks, cs);
    SortedFirst(cs[j + 1]);
    assert s in cs[j + 1];
    forall y | y in c ensures y in cs[j + 1] {
      assert y in multiset(c);
    }
    assert ks[j] <= s;
    forall x | x in a ensures x <= s {
    }
    WindowFits(ks, cs, j, a, s, c);
  }

  lemma {:induction false} SuccessorCount(n: seq<int>, o: seq<int>, a: seq<int>, k: int, d: seq<int>, c: seq<int>)
    requires d != [] && multiset(c) == multiset(d) - multiset{d[0]}
    requires multiset(n) + multiset(a + [k] + d) == multiset(o) + multiset(a + [d[0]] + c)
    ensures multiset(n) == multiset(o) - multiset{k}
  {
    MultisetRestore(c, d, d[0]);
    assert multiset(a) + multiset{d[0]} + multiset(c) == multiset(a) + multiset(d);
    WindowMultiset(n, o, a, k, d, a, d[0], c);
  }

  /** Separator j replaced by the maximum p of child j, which loses p: the walk loses one copy of the separator. */
  lemma PredecessorSwap(ks: seq<int>, cs: seq<seq<int>>, j: int, p: int, c: seq<int>)
    requires |cs| == |ks| + 1 && 0 <= j < |ks|
    requires Sorted(InOrder(ks, cs)) && cs[j] != [] && p == cs[j][|cs[j]| - 1]
    requires Sorted(c) && c == RemoveOne(cs[j], p)
    ensures Sorted(InOrder(ks[j := p], cs[j := c]))
    ensures InOrder(ks[j := p], cs[j := c]) == RemoveOne(InOrder(ks, cs), ks[j])
  {
    PredecessorStep(ks, cs, j, c);
    RemoveOneUnique(InOrder(ks[j := p], cs[j := c]), InOrder(ks, cs), ks[j]);
  }

  /** Separator j replaced by the minimum s of child j+1, which loses s: the walk loses one copy of the separator. */
  lemma SuccessorSwap(ks: seq<int>, cs: seq<seq<int>>, j: int, s: int, c: seq<int>)
    requires |cs| == |ks| + 1 && 0 <= j < |ks|
    requires Sorted(InOrder(ks, cs)) && cs[j + 1] != [] && s == cs[j + 1][0]
    requires Sorted(c) && c == RemoveOne(cs[j + 1], s)
    ensures Sorted(InOrder(ks[j := s], cs[j + 1 := c]))
    ensures InOrder(ks[j := s], cs[j + 1 := c]) == RemoveOne(InOrder(ks, cs), ks[j])
  {
    SuccessorStep(ks, cs, j, c);
    RemoveOneUnique(InOrder(ks[j := s], cs[j + 1 := c]), InOrder(ks, cs), ks[j]);
  }

  /** A walk ends as its last child does. */
  lemma {:induction false} InOrderLast(ks: seq<int>, cs: seq<seq<int>>)
    requires |cs| == |ks| + 1 && cs[|ks|] != []
    ensures InOrder(ks, cs) != [] && InOrder(ks, cs)[|InOrder(ks, cs)| - 1] == cs[|ks|][|cs[|ks|]| - 1]
  {
    if |ks| > 0 {
      var front, c := InOrder(ks[..|ks| - 1], cs[..|ks|]) + [ks[|ks| - 1]], cs[|ks|];
      assert InOrder(ks, cs) == front + c;
      assert (front + c)[|front + c| - 1] == c[|c| - 1];
    }
  }

  /** A walk starts as its first child does. */
  lemma {:induction false} InOrderFirst(ks: seq<int>, cs: seq<seq<int>>)
    requires |cs| == |ks| + 1 && cs[0] != []
    ensures InOrder(ks, cs) != [] && InOrder(ks, cs)[0] == cs[0][0]
    decreases |ks|
  {
    if |ks| > 0 {
      var front := InOrder(ks[..|ks| - 1], cs[..|ks|]);
      InOrderFirst(ks[..|ks| - 1], cs[..|ks|]);
      assert InOrder(ks, cs) == front + ([ks[|ks| - 1]] + cs[|ks|]);
    }
  }
}
