// Sorted integer sequences: the abstract value of a B-tree is the
// non-decreasing sequence of its keys, duplicates included.

module SortedSeq {

  /** Non-decreasing order (duplicates allowed). */
  predicate Sorted(s: seq<int>)
  {
    forall i, j :: 0 <= i < j < |s| ==> s[i] <= s[j]
  }

  /** The index std::upper_bound returns: the first element greater than x. */
  function UpperBound(s: seq<int>, x: int): (r: nat)
    ensures r <= |s|
  {
    if s == [] || x < s[0] then 0 else 1 + UpperBound(s[1..], x)
  }

  /** Everything before the upper bound is at most x; in a sorted sequence everything from it on is greater. */
  lemma {:induction false} UpperBoundSplits(s: seq<int>, x: int)
    ensures forall j :: 0 <= j < UpperBound(s, x) ==> s[j] <= x
    ensures Sorted(s) ==> forall j :: UpperBound(s, x) <= j < |s| ==> x < s[j]
  {
    if s != [] && x >= s[0] {
      var t := s[1..];
      UpperBoundSplits(t, x);
      forall j | 0 <= j < UpperBound(s, x) ensures s[j] <= x {
        if j > 0 { assert s[j] == t[j - 1]; }
      }
      if Sorted(s) {
        SortedTail(s);
        forall j | UpperBound(s, x) <= j < |s| ensures x < s[j] {
          assert s[j] == t[j - 1];
        }
      }
    }
  }

  /** The upper-bound position is the only split point with nothing above x before it and nothing up to x after it. */
  lemma {:induction false} UpperBoundUnique(s: seq<int>, x: int, i: int)
    requires 0 <= i <= |s|
    requires forall j :: 0 <= j < i ==> s[j] <= x
    requires forall j :: i <= j < |s| ==> x < s[j]
    ensures i == UpperBound(s, x)
  {
    if i > 0 {
      UpperBoundUnique(s[1..], x, i - 1);
    }
  }

  /** The last element of a non-empty sequence. */
  function Last(s: seq<int>): int
    requires s != []
  {
    s[|s| - 1]
  }

  /** x inserted after every element not greater than it. */
  function InsertSorted(s: seq<int>, x: int): (r: seq<int>)
  {
    var p := UpperBound(s, x);
    s[..p] + [x] + s[p..]
  }

  /** x goes in between a part with nothing greater than x and a part with everything greater. */
  lemma InsertSortedBetween(a: seq<int>, x: int, b: seq<int>)
    requires forall y :: y in a ==> y <= x
    requires forall y :: y in b ==> x < y
    ensures InsertSorted(a + b, x) == a + [x] + b
  {
    var s := a + b;
    forall j | 0 <= j < |a| ensures s[j] <= x {
      assert s[j] == a[j] && a[j] in a;
    }
    forall j | |a| <= j < |s| ensures x < s[j] {
      assert s[j] == b[j - |a|] && b[j - |a|] in b;
    }
    UpperBoundUnique(s, x, |a|);
    assert s[..|a|] == a && s[|a|..] == b;
  }

  lemma InsertSortedIsInsertion(s: seq<int>, x: int)
    requires Sorted(s)
    ensures Sorted(InsertSorted(s, x))
    ensures multiset(InsertSorted(s, x)) == multiset(s) + multiset{x}
  {
    var p := UpperBound(s, x);
    UpperBoundSplits(s, x);
    SortedSplice(s, x, p);
    InsertSortedMultiset(s, x, p);
  }

  lemma InsertSortedMultiset(s: seq<int>, x: int, p: int)
    requires 0 <= p <= |s|
    ensures multiset(s[..p] + [x] + s[p..]) == multiset(s) + multiset{x}
  {
    assert s == s[..p] + s[p..];
  }

  /** An element at least everything before position p and at most everything from p on keeps a sorted sequence sorted. */
  lemma SortedSplice(s: seq<int>, x: int, p: int)
    requires Sorted(s) && 0 <= p <= |s|
    requires forall i :: 0 <= i < p ==> s[i] <= x
    requires forall i :: p <= i < |s| ==> x <= s[i]
    ensures Sorted(s[..p] + [x] + s[p..])
  {
    var r := s[..p] + [x] + s[p..];
    forall k | 0 <= k < |r| ensures r[k] == if k < p then s[k] else if k == p then x else s[k - 1] {
    }
    forall i, j | 0 <= i < j < |r| ensures r[i] <= r[j] {
      if j < p {
        assert r[i] == s[i] && r[j] == s[j];
      } else if j == p {
        assert r[i] == s[i];
      } else if i > p {
        assert r[i] == s[i - 1] && r[j] == s[j - 1];
      } else if i == p {
        assert r[j] == s[j - 1];
      } else {
        assert r[i] == s[i] && r[j] == s[j - 1];
      }
    }
  }

  /** s with its first occurrence of x removed; s itself when x does not occur. */
  function RemoveOne(s: seq<int>, x: int): (r: seq<int>)
    ensures multiset(r) == multiset(s) - multiset{x}
    ensures x !in s ==> r == s
  {
    if s == [] then []
    else if s[0] == x then
      assert s == [s[0]] + s[1..];
      s[1..]
    else
      assert s == [s[0]] + s[1..];
      [s[0]] + RemoveOne(s[1..], x)
  }

  /** RemoveOne drops the first occurrence of x and keeps the rest in order. */
  lemma {:induction false} RemoveOneFirst(a: seq<int>, x: int, b: seq<int>)
    requires x !in a
    ensures RemoveOne(a + [x] + b, x) == a + b
  {
    var s := a + [x] + b;
    if a == [] {
      assert s == [x] + b;
    } else {
      var t := a[1..];
      assert a == [a[0]] + t;
      assert s[0] == a[0] && s[0] != x;
      assert s[1..] == t + [x] + b;
      RemoveOneFirst(t, x, b);
      var u := [a[0]] + (t + b);
      forall k | 0 <= k < |u| ensures u[k] == (a + b)[k] {
        if 0 < k <= |t| { assert u[k] == t[k - 1] == a[k]; }
      }
    }
  }

  lemma {:induction false} RemoveOneSorted(s: seq<int>, x: int)
    requires Sorted(s)
    ensures Sorted(RemoveOne(s, x))
  {
    if s != [] && s[0] != x {
      var s' := s[1..];
      var t := RemoveOne(s', x);
      SortedTail(s);
      RemoveOneSorted(s', x);
      forall y | y in t ensures s[0] <= y {
        assert y in multiset(t);
        assert y in multiset(s');
        var k :| 0 <= k < |s'| && s'[k] == y;
        assert s[k + 1] == y;
      }
      SortedCons(s[0], t);
    }
  }

  lemma SortedCons(h: int, t: seq<int>)
    requires Sorted(t)
    requires forall y :: y in t ==> h <= y
    ensures Sorted([h] + t)
  {
    var r := [h] + t;
    forall i, j | 0 <= i < j < |r| ensures r[i] <= r[j] {
      assert r[j] == t[j - 1] && t[j - 1] in t;
      if i > 0 { assert r[i] == t[i - 1]; }
    }
  }

  lemma {:induction false} SortedMin(s: seq<int>, y: int)
    requires Sorted(s) && y in multiset(s)
    ensures s[0] <= y
  {
    var j :| 0 <= j < |s| && s[j] == y;
  }

  /** A sorted sequence is determined by its multiset of elements. */
  lemma {:induction false} SortedUnique(a: seq<int>, b: seq<int>)
    requires Sorted(a) && Sorted(b)
    requires multiset(a) == multiset(b)
    ensures a == b
    decreases |a|
  {
    if a == [] {
      assert |b| == |multiset(b)|;
    } else {
      SortedHeads(a, b);
      MultisetTail(a, b);
      SortedTail(a);
      SortedTail(b);
      SortedUnique(a[1..], b[1..]);
      assert a == [a[0]] + a[1..];
      assert b == [b[0]] + b[1..];
    }
  }

  /** Two sorted sequences with the same elements start with the same element. */
  lemma SortedHeads(a: seq<int>, b: seq<int>)
    requires Sorted(a) && Sorted(b) && a != []
    requires multiset(a) == multiset(b)
    ensures b != [] && a[0] == b[0]
  {
    assert a[0] in multiset(b);
    SortedMin(b, a[0]);
    assert b[0] in multiset(a);
    SortedMin(a, b[0]);
  }

  /** Equal multisets with equal first elements have equal tails. */
  lemma MultisetTail(a: seq<int>, b: seq<int>)
    requires a != [] && b != [] && a[0] == b[0]
    requires multiset(a) == multiset(b)
    ensures multiset(a[1..]) == multiset(b[1..])
  {
    assert a == [a[0]] + a[1..];
    assert b == [b[0]] + b[1..];
    assert multiset(a) == multiset{a[0]} + multiset(a[1..]);
    assert multiset(b) == multiset{a[0]} + multiset(b[1..]);
    var ta, tb := multiset(a[1..]), multiset(b[1..]);
    forall y ensures ta[y] == tb[y] {
      assert multiset(a)[y] == multiset(b)[y];
    }
  }

  lemma SortedTail(s: seq<int>)
    requires Sorted(s) && s != []
    ensures Sorted(s[1..])
  {
    var t := s[1..];
    forall i, j | 0 <= i < j < |t| ensures t[i] <= t[j] {
      assert t[i] == s[i + 1] && t[j] == s[j + 1];
    }
  }

  /** Removing what was just inserted gives back the original sequence. */
  lemma RemoveInsertRoundTrip(s: seq<int>, x: int)
    requires Sorted(s)
    ensures RemoveOne(InsertSorted(s, x), x) == s
  {
    InsertSortedIsInsertion(s, x);
    RemoveOneSorted(InsertSorted(s, x), x);
    var r := RemoveOne(InsertSorted(s, x), x);
    assert multiset(r) == multiset(s);
    SortedUnique(r, s);
  }

  /** RemoveOne on a sorted sequence is the only sorted sequence with one copy of x fewer. */
  lemma RemoveOneUnique(r: seq<int>, s: seq<int>, x: int)
    requires Sorted(r) && Sorted(s)
    requires multiset(r) == multiset(s) - multiset{x}
    ensures r == RemoveOne(s, x)
  {
    RemoveOneSorted(s, x);
    SortedUnique(r, RemoveOne(s, x));
  }

  /** Cancelling a common part from both sides of a multiset equation. */
  lemma MultisetCancel(a: multiset<int>, b: multiset<int>, c: multiset<int>, d: multiset<int>)
    requires a + b == c + (b + d)
    ensures a == c + d
  {
    forall x ensures a[x] == (c + d)[x] {
      assert (a + b)[x] == (c + (b + d))[x];
    }
  }
}
