// The suffix trie of suffix_trie.cpp: a 26-way trie over the letters A-Z,
// case-insensitive, holding every suffix of the inserted words. A node is
// modelled as a value: insert returns the node with the path filled in, and
// the trie object owns the root and reassigns it.

module SuffixTries {

  /** A slot that may hold a child; local to this module. */
  datatype Option<T> = None | Some(value: T)

  /** The fan-out of a node: one slot per letter. */
  const Fanout := 26

  predicate IsLetter(c: char)
  {
    'A' <= c <= 'Z' || 'a' <= c <= 'z'
  }

  /** toupper on ASCII: a lower-case letter goes to its capital, every other character stays. */
  function Upper(c: char): (r: char)
    ensures IsLetter(c) <==> 'A' <= r <= 'Z'
    ensures !IsLetter(c) ==> r == c
    ensures 'A' <= c <= 'Z' ==> r == c
    ensures 'a' <= c <= 'z' ==> r as int - 'A' as int == c as int - 'a' as int
  {
    if 'a' <= c <= 'z' then (c as int - 32) as char else c
  }

  /** The letter whose slot is i. */
  function Letter(i: int): (r: char)
    requires 0 <= i < Fanout
    ensures 'A' <= r <= 'Z'
  {
    ('A' as int + i) as char
  }

  /** getIndex: the slot of a character, 0..25 exactly for the letters, either case. */
  function GetIndex(c: char): (r: int)
    ensures 0 <= r < Fanout <==> IsLetter(c)
    ensures IsLetter(c) ==> Letter(r) == Upper(c)
  {
    Upper(c) as int - 'A' as int
  }

  /** Two letters share a slot exactly when they are the same letter up to case. */
  lemma GetIndexCaseFold(c: char, d: char)
    requires IsLetter(c) && IsLetter(d)
    ensures GetIndex(c) == GetIndex(d) <==> Upper(c) == Upper(d)
  {
    if GetIndex(c) == GetIndex(d) {
      assert Letter(GetIndex(c)) == Letter(GetIndex(d));
    }
  }

  /** A node: the character of its edge, one slot per letter, and the end-of-suffix mark. */
  datatype TrieNode = TrieNode(data: char, children: seq<Option<TrieNode>>, isTerminal: bool)

  /** A freshly constructed node: every slot empty, not a suffix end. */
  function NewNode(ch: char): (n: TrieNode)
    ensures n.data == ch && !n.isTerminal && |n.children| == Fanout
    ensures forall i :: 0 <= i < Fanout ==> n.children[i] == None
  {
    TrieNode(ch, seq(Fanout, _ => None), false)
  }

  /** Every node of the subtree has its 26 slots. */
  predicate Slots(n: TrieNode)
    decreases n
  {
    |n.children| == Fanout &&
    forall i :: 0 <= i < Fanout && n.children[i].Some? ==> Slots(n.children[i].value)
  }

  /** Every node below n stores the letter of the slot it hangs in. */
  predicate Labelled(n: TrieNode)
    decreases n
  {
    forall i :: 0 <= i < |n.children| && i < Fanout && n.children[i].Some? ==>
      n.children[i].value.data == Letter(i) && Labelled(n.children[i].value)
  }

  /** The slot sequence q leads from n to a node. */
  predicate HasPath(n: TrieNode, q: seq<int>)
    decreases q
  {
    q == [] || (0 <= q[0] < |n.children| && n.children[q[0]].Some? && HasPath(n.children[q[0]].value, q[1..]))
  }

  /** The slot sequence q leads from n to a node marked as a suffix end. */
  predicate TerminalAt(n: TrieNode, q: seq<int>)
    decreases q
  {
    if q == [] then n.isTerminal
    else 0 <= q[0] < |n.children| && n.children[q[0]].Some? && TerminalAt(n.children[q[0]].value, q[1..])
  }

  /**
   * b is a with some empty slots filled: every node of a is still there at
   * the same place, with the same character, and keeps its suffix mark.
   */
  predicate Grows(a: TrieNode, b: TrieNode)
    decreases a
  {
    a.data == b.data && (a.isTerminal ==> b.isTerminal) && |a.children| == |b.children| &&
    forall i :: 0 <= i < |a.children| && a.children[i].Some? ==>
      b.children[i].Some? && Grows(a.children[i].value, b.children[i].value)
  }

  lemma {:induction false} GrowsRefl(a: TrieNode)
    ensures Grows(a, a)
    decreases a
  {
    forall i | 0 <= i < |a.children| && a.children[i].Some? ensures Grows(a.children[i].value, a.children[i].value) {
      GrowsRefl(a.children[i].value);
    }
  }

  /** A grown trie keeps every path it had. */
  lemma {:induction false} GrowsKeepsPaths(a: TrieNode, b: TrieNode, q: seq<int>)
    requires Grows(a, b) && HasPath(a, q)
    ensures HasPath(b, q)
    decreases q
  {
    if q != [] {
      GrowsKeepsPaths(a.children[q[0]].value, b.children[q[0]].value, q[1..]);
    }
  }

  predicate AllLetters(s: seq<char>)
  {
    forall k :: 0 <= k < |s| ==> IsLetter(s[k])
  }

  /** The slots a string spells. */
  function Indices(s: seq<char>): (r: seq<int>)
    ensures |r| == |s|
    ensures forall k :: 0 <= k < |s| ==> r[k] == GetIndex(s[k])
  {
    seq(|s|, k requires 0 <= k < |s| => GetIndex(s[k]))
  }

  /** The string with every letter upper-cased. */
  function Uppers(s: seq<char>): (r: seq<char>)
    ensures |r| == |s|
    ensures forall k :: 0 <= k < |s| ==> r[k] == Upper(s[k])
  {
    seq(|s|, k requires 0 <= k < |s| => Upper(s[k]))
  }

  predicate IsPrefix(q: seq<int>, s: seq<int>)
  {
    |q| <= |s| && s[..|q|] == q
  }

  /** Where the run of letters that starts at pos ends: the first non-letter at or after pos, or the end. */
  function Run(w: seq<char>, pos: int): (r: int)
    requires 0 <= pos <= |w|
    ensures pos <= r <= |w| && AllLetters(w[pos..r])
    ensures r < |w| ==> !IsLetter(w[r])
    decreases |w| - pos
  {
    if pos == |w| || !IsLetter(w[pos]) then pos
    else
      var r := Run(w, pos + 1);
      assert w[pos..r] == [w[pos]] + w[pos + 1..r];
      r
  }

  /** A run of letters from i reaches at least as far as any all-letter stretch from i. */
  lemma {:induction false} RunCovers(w: seq<char>, i: int, j: int)
    requires 0 <= i <= j <= |w| && AllLetters(w[i..j])
    ensures j <= Run(w, i)
    decreases j - i
  {
    if i < j {
      assert IsLetter(w[i..j][0]);
      assert w[i + 1..j] == w[i..j][1..];
      RunCovers(w, i + 1, j);
    }
  }

  /**
   * search: the string from pos on is found from node n exactly when it is
   * all letters and its slots spell a path; the suffix marks are not read.
   */
  function Search(n: TrieNode, word: seq<char>, pos: int): (r: bool)
    requires Slots(n) && 0 <= pos <= |word|
    ensures r <==> AllLetters(word[pos..]) && HasPath(n, Indices(word[pos..]))
    decreases |word| - pos
  {
    if pos == |word| then true
    else
      var index := GetIndex(word[pos]);
      IndicesCons(word, pos);
      if index < 0 || index >= Fanout then false
      else if n.children[index].None? then false
      else Search(n.children[index].value, word, pos + 1)
  }

  /** The slots of word from pos on: that of word[pos], then those of the rest. */
  lemma IndicesCons(word: seq<char>, pos: int)
    requires 0 <= pos < |word|
    ensures Indices(word[pos..]) == [GetIndex(word[pos])] + Indices(word[pos + 1..])
    ensures AllLetters(word[pos..]) <==> IsLetter(word[pos]) && AllLetters(word[pos + 1..])
  {
    var u, t := word[pos..], word[pos + 1..];
    assert u == [word[pos]] + t;
    if IsLetter(word[pos]) && AllLetters(t) {
      forall k | 0 <= k < |u| ensures IsLetter(u[k]) {
        if k > 0 { assert u[k] == t[k - 1]; }
      }
    }
  }

  /** The node structure, suffix marks ignored: two nodes with the same slots filled. */
  predicate SameShape(a: TrieNode, b: TrieNode)
    decreases a
  {
    |a.children| == |b.children| &&
    forall i :: 0 <= i < |a.children| ==>
      a.children[i].Some? == b.children[i].Some? &&
      (a.children[i].Some? ==> SameShape(a.children[i].value, b.children[i].value))
  }

  /** search answers the same on two tries that differ only in their suffix marks. */
  lemma {:induction false} SearchIgnoresTerminal(a: TrieNode, b: TrieNode, word: seq<char>, pos: int)
    requires Slots(a) && Slots(b) && SameShape(a, b) && 0 <= pos <= |word|
    ensures Search(a, word, pos) == Search(b, word, pos)
    decreases |word| - pos
  {
    if pos < |word| {
      var index := GetIndex(word[pos]);
      if 0 <= index < Fanout && a.children[index].Some? {
        SearchIgnoresTerminal(a.children[index].value, b.children[index].value, word, pos + 1);
      }
    }
  }

  /**
   * insert: walks or creates the path of the letters of word from pos on,
   * upper-cased, filling only empty slots. At the end of the word the last
   * node is marked; at the first non-letter the walk stops without a mark.
   */
  method Insert(node: TrieNode, word: seq<char>, pos: int) returns (r: TrieNode)
    requires Slots(node) && 0 <= pos <= |word|
    ensures Slots(r) && Grows(node, r)
    ensures Labelled(node) ==> Labelled(r)
    ensures forall q :: HasPath(r, q) <==> HasPath(node, q) || IsPrefix(q, Indices(word[pos..Run(word, pos)]))
    ensures forall q :: TerminalAt(r, q) <==> TerminalAt(node, q) || (Run(word, pos) == |word| && q == Indices(word[pos..]))
    decreases |word| - pos
  {
    if pos == |word| {
      r := node.(isTerminal := true);
      GrowsRefl(node);
      return;
    }
    var index := GetIndex(word[pos]);
    if index < 0 || index >= Fanout {
      r := node;
      GrowsRefl(node);
      return;
    }
    var child;
    if node.children[index].None? {
      child := NewNode(Upper(word[pos]));
    } else {
      child := node.children[index].value;
    }
    var c := Insert(child, word, pos + 1);
    r := node.(children := node.children[index := Some(c)]);
    GrownBelow(node, index, child, c, r);
    if Labelled(node) {
      assert child.data == Letter(index) && Labelled(child);
      LabelledBelow(node, index, c, r);
    }
    var R := Run(word, pos);
    assert R == Run(word, pos + 1);
    var u, v := word[pos..R], word[pos..];
    assert u[0] == word[pos] && u[1..] == word[pos + 1..R];
    assert v[0] == word[pos] && v[1..] == word[pos + 1..];
    IndicesHead(u);
    IndicesHead(v);
    PathsBelow(node, index, child, c, r, Indices(word[pos + 1..R]), Indices(u));
    MarksBelow(node, index, child, c, r, R == |word|, Indices(word[pos + 1..]), Indices(v));
  }

  /** The slots of a non-empty string: that of its first character, then those of the rest. */
  lemma IndicesHead(u: seq<char>)
    requires u != []
    ensures Indices(u) == [GetIndex(u[0])] + Indices(u[1..])
  {
  }

  lemma LabelledBelow(node: TrieNode, index: int, c: TrieNode, r: TrieNode)
    requires Labelled(node) && |node.children| == Fanout && 0 <= index < Fanout
    requires c.data == Letter(index) && Labelled(c)
    requires r == node.(children := node.children[index := Some(c)])
    ensures Labelled(r)
  {
    forall i | 0 <= i < |r.children| && i < Fanout && r.children[i].Some?
      ensures r.children[i].value.data == Letter(i) && Labelled(r.children[i].value)
    {
      if i != index {
        assert r.children[i] == node.children[i];
      }
    }
  }

  lemma GrownBelow(node: TrieNode, index: int, child: TrieNode, c: TrieNode, r: TrieNode)
    requires Slots(node) && 0 <= index < Fanout
    requires node.children[index].Some? ==> child == node.children[index].value
    requires Slots(c) && Grows(child, c)
    requires r == node.(children := node.children[index := Some(c)])
    ensures Slots(r) && Grows(node, r)
  {
    forall i | 0 <= i < |node.children| && i != index && node.children[i].Some?
      ensures Grows(node.children[i].value, r.children[i].value)
    {
      GrowsRefl(node.children[i].value);
    }
  }

  /** The paths below r: those of node, and index followed by the paths s' added under child. */
  lemma PathsBelow(node: TrieNode, index: int, child: TrieNode, c: TrieNode, r: TrieNode, s': seq<int>, s: seq<int>)
    requires Slots(node) && 0 <= index < Fanout && s == [index] + s'
    requires child == if node.children[index].None? then NewNode(child.data) else node.children[index].value
    requires forall q :: HasPath(c, q) <==> HasPath(child, q) || IsPrefix(q, s')
    requires r == node.(children := node.children[index := Some(c)])
    ensures forall q :: HasPath(r, q) <==> HasPath(node, q) || IsPrefix(q, s)
  {
    forall q ensures HasPath(r, q) <==> HasPath(node, q) || IsPrefix(q, s) {
      if q != [] && q[0] == index {
        assert IsPrefix(q, s) <==> IsPrefix(q[1..], s');
        assert HasPath(r, q) <==> HasPath(c, q[1..]);
        if node.children[index].None? {
          assert HasPath(child, q[1..]) <==> q[1..] == [];
        }
      }
    }
  }

  /** The marks below r: those of node, and index followed by the mark t' added under child. */
  lemma MarksBelow(node: TrieNode, index: int, child: TrieNode, c: TrieNode, r: TrieNode, full: bool, t': seq<int>, t: seq<int>)
    requires Slots(node) && 0 <= index < Fanout && t == [index] + t'
    requires child == if node.children[index].None? then NewNode(child.data) else node.children[index].value
    requires forall q :: TerminalAt(c, q) <==> TerminalAt(child, q) || (full && q == t')
    requires r == node.(children := node.children[index := Some(c)])
    ensures forall q :: TerminalAt(r, q) <==> TerminalAt(node, q) || (full && q == t)
  {
    forall q ensures TerminalAt(r, q) <==> TerminalAt(node, q) || (full && q == t) {
      if q != [] && q[0] == index {
        assert q == t <==> q[1..] == t';
        assert TerminalAt(r, q) <==> TerminalAt(c, q[1..]);
        if node.children[index].None? {
          assert !TerminalAt(child, q[1..]);
        }
      }
    }
  }

  /** The slot path q is that of a non-empty all-letter stretch of w starting at a. */
  ghost predicate Stretch(q: seq<int>, w: seq<char>, a: int)
  {
    exists b :: 0 <= a < b <= |w| && AllLetters(w[a..b]) && q == Indices(w[a..b])
  }

  /** The slot path q is that of a non-empty all-letter stretch of w. */
  ghost predicate Occurs(q: seq<int>, w: seq<char>)
  {
    exists a :: 0 <= a < |w| && Stretch(q, w, a)
  }

  /** The slot path q is that of a non-empty all-letter suffix of w. */
  ghost predicate EndsSuffix(q: seq<int>, w: seq<char>)
  {
    exists a :: 0 <= a < |w| && AllLetters(w[a..]) && q == Indices(w[a..])
  }

  /** The paths insert adds from a are the empty path and those of the letter stretches from a. */
  lemma PrefixOfRun(w: seq<char>, a: int, q: seq<int>)
    requires 0 <= a < |w|
    ensures IsPrefix(q, Indices(w[a..Run(w, a)])) <==> q == [] || Stretch(q, w, a)
  {
    var R := Run(w, a);
    var run := w[a..R];
    if q != [] && IsPrefix(q, Indices(run)) {
      var b := a + |q|;
      var u := w[a..b];
      assert run[..|q|] == u;
      assert Indices(run)[..|q|] == Indices(u);
      forall m | 0 <= m < |u| ensures IsLetter(u[m]) {
        assert u[m] == run[m];
      }
      assert 0 <= a < b <= |w| && AllLetters(u) && q == Indices(u);
    }
    if Stretch(q, w, a) {
      var b :| 0 <= a < b <= |w| && AllLetters(w[a..b]) && q == Indices(w[a..b]);
      RunCovers(w, a, b);
      var u := w[a..b];
      assert run[..b - a] == u;
      assert Indices(run)[..b - a] == Indices(u);
    }
  }

  /** insert marks a node exactly when the word is all letters from a on. */
  lemma RunFull(w: seq<char>, a: int)
    requires 0 <= a <= |w|
    ensures Run(w, a) == |w| <==> AllLetters(w[a..])
  {
    if AllLetters(w[a..]) {
      assert w[a..|w|] == w[a..];
      RunCovers(w, a, |w|);
    }
  }

  /** A non-empty all-letter string whose slots match a stretch of w matches it up to case, and back. */
  lemma OccursUpToCase(s: seq<char>, w: seq<char>)
    requires AllLetters(s) && s != []
    ensures Occurs(Indices(s), w) <==> exists i, j :: 0 <= i <= j <= |w| && Uppers(w[i..j]) == Uppers(s)
  {
    if Occurs(Indices(s), w) {
      var i :| 0 <= i < |w| && Stretch(Indices(s), w, i);
      var j :| 0 <= i < j <= |w| && AllLetters(w[i..j]) && Indices(s) == Indices(w[i..j]);
      SameUpToCase(s, w[i..j]);
    }
    if i, j :| 0 <= i <= j <= |w| && Uppers(w[i..j]) == Uppers(s) {
      SameUpToCase(s, w[i..j]);
      assert Stretch(Indices(s), w, i);
    }
  }

  /** For an all-letter s: t has the same slots and is all letters exactly when it upper-cases to the same string. */
  lemma SameUpToCase(s: seq<char>, t: seq<char>)
    requires AllLetters(s)
    ensures AllLetters(t) && Indices(s) == Indices(t) <==> Uppers(s) == Uppers(t)
  {
    if AllLetters(t) && Indices(s) == Indices(t) {
      forall k | 0 <= k < |s| ensures Uppers(s)[k] == Uppers(t)[k] {
        assert Indices(s)[k] == Indices(t)[k];
        GetIndexCaseFold(s[k], t[k]);
      }
    }
    if Uppers(s) == Uppers(t) {
      assert |s| == |t|;
      forall k | 0 <= k < |t| ensures IsLetter(t[k]) && Indices(s)[k] == Indices(t)[k] {
        assert Uppers(s)[k] == Uppers(t)[k];
        GetIndexCaseFold(s[k], t[k]);
      }
    }
  }

  /** The trie object: the root node, and (for the proofs) the words inserted so far. */
  class SuffixTrie {
    var root: TrieNode
    ghost var words: seq<seq<char>>

    /**
     * The paths of the trie are exactly those of the letter stretches of
     * the inserted words, and the marked ones exactly those of their
     * all-letter suffixes.
     */
    ghost predicate Inv()
      reads this
    {
      Slots(root) && Labelled(root) &&
      (forall q :: HasPath(root, q) <==> q == [] || exists w :: w in words && Occurs(q, w)) &&
      (forall q :: TerminalAt(root, q) <==> exists w :: w in words && EndsSuffix(q, w))
    }

    constructor()
      ensures Inv() && words == [] && root == NewNode('\0')
    {
      root := NewNode('\0');
      words := [];
    }

    /** insertWord: every suffix of word, from each position in turn. */
    method InsertWord(word: seq<char>)
      modifies this
      requires Inv()
      ensures Inv() && words == old(words) + [word]
      ensures Grows(old(root), root)
    {
      ghost var r0 := root;
      GrowsRefl(root);
      for i := 0 to |word|
        invariant words == old(words)
        invariant Slots(root) && Labelled(root) && Grows(r0, root)
        invariant forall q :: HasPath(root, q) <==>
          HasPath(r0, q) || (i > 0 && q == []) || exists a :: 0 <= a < i && Stretch(q, word, a)
        invariant forall q :: TerminalAt(root, q) <==>
          TerminalAt(r0, q) || exists a :: 0 <= a < i && AllLetters(word[a..]) && q == Indices(word[a..])
      {
        ghost var before := root;
        root := Insert(root, word, i);
        GrowsTrans(r0, before, root);
        RunFull(word, i);
        forall q ensures HasPath(root, q) <==>
          HasPath(r0, q) || (i + 1 > 0 && q == []) || exists a :: 0 <= a < i + 1 && Stretch(q, word, a)
        {
          PrefixOfRun(word, i, q);
        }
      }
      ghost var ws := words;
      words := words + [word];
      forall q ensures HasPath(root, q) <==> q == [] || exists w :: w in words && Occurs(q, w) {
        assert (exists w :: w in words && Occurs(q, w)) <==> (exists w :: w in ws && Occurs(q, w)) || Occurs(q, word);
      }
      forall q ensures TerminalAt(root, q) <==> exists w :: w in words && EndsSuffix(q, w) {
        assert (exists w :: w in words && EndsSuffix(q, w)) <==> (exists w :: w in ws && EndsSuffix(q, w)) || EndsSuffix(q, word);
      }
    }

    /** searchWord: the whole string is found from the root. */
    function SearchWord(word: seq<char>): (r: bool)
      reads this
      requires Slots(root)
      ensures r <==> AllLetters(word) && HasPath(root, Indices(word))
    {
      Search(root, word, 0)
    }

    /**
     * searchWord is exact: it holds for the empty string, and otherwise
     * exactly when the string is all letters and occurs, up to case, as a
     * contiguous stretch of some inserted word.
     */
    lemma SearchWordExact(s: seq<char>)
      requires Inv()
      ensures SearchWord(s) <==>
        s == [] || (AllLetters(s) && exists w :: w in words && exists i, j :: 0 <= i <= j <= |w| && Uppers(w[i..j]) == Uppers(s))
    {
      if s != [] && AllLetters(s) {
        assert Indices(s) != [];
        forall w | w in words
          ensures Occurs(Indices(s), w) <==> exists i, j :: 0 <= i <= j <= |w| && Uppers(w[i..j]) == Uppers(s)
        {
          OccursUpToCase(s, w);
        }
      }
    }

    /** Every all-letter stretch of an inserted word is found, in either case. */
    lemma SubstringFound(w: seq<char>, i: int, j: int, s: seq<char>)
      requires Inv() && w in words && 0 <= i <= j <= |w|
      requires AllLetters(w[i..j]) && Uppers(s) == Uppers(w[i..j])
      ensures SearchWord(s)
    {
      var u := w[i..j];
      assert |s| == |u|;
      forall k | 0 <= k < |s| ensures IsLetter(s[k]) {
        assert Uppers(s)[k] == Uppers(u)[k] && IsLetter(u[k]);
      }
      SearchWordExact(s);
    }
  }

  lemma {:induction false} GrowsTrans(a: TrieNode, b: TrieNode, c: TrieNode)
    requires Grows(a, b) && Grows(b, c)
    ensures Grows(a, c)
    decreases a
  {
    forall i | 0 <= i < |a.children| && a.children[i].Some? ensures Grows(a.children[i].value, c.children[i].value) {
      GrowsTrans(a.children[i].value, b.children[i].value, c.children[i].value);
    }
  }

  /** The program's main: after inserting BANANA, ANA, NANA and BAN are present and APPLE is not. */
  method Banana() returns (ana: bool, nana: bool, ban: bool, apple: bool)
    ensures ana && nana && ban && !apple
  {
    var t := new SuffixTrie();
    t.InsertWord("BANANA");
    BananaSearches(t);
    ana := t.SearchWord("ANA");
    nana := t.SearchWord("NANA");
    ban := t.SearchWord("BAN");
    apple := t.SearchWord("APPLE");
  }

  /** What searchWord answers on a trie holding exactly the suffixes of BANANA. */
  lemma BananaSearches(t: SuffixTrie)
    requires t.Inv() && t.words == ["BANANA"]
    ensures t.SearchWord("ANA") && t.SearchWord("NANA") && t.SearchWord("BAN") && !t.SearchWord("APPLE")
  {
    var w := "BANANA";
    assert w in t.words;
    BananaSlices(w);
    BananaStretch(t, w, 1, 4);
    BananaStretch(t, w, 2, 6);
    BananaStretch(t, w, 0, 3);
    AppleAbsent(t);
  }

  lemma BananaSlices(w: seq<char>)
    requires w == "BANANA"
    ensures AllLetters(w) && w[1..4] == "ANA" && w[2..6] == "NANA" && w[0..3] == "BAN"
  {
  }

  lemma AppleAbsent(t: SuffixTrie)
    requires t.Inv() && t.words == ["BANANA"]
    ensures !t.SearchWord("APPLE")
  {
    var apple := "APPLE";
    t.SearchWordExact(apple);
    NoApple(t.words[0]);
    assert apple != [];
    assert forall w :: w in t.words ==> w == t.words[0];
  }

  lemma BananaStretch(t: SuffixTrie, w: seq<char>, i: int, j: int)
    requires t.Inv() && w in t.words && AllLetters(w) && 0 <= i <= j <= |w|
    ensures t.SearchWord(w[i..j])
  {
    assert AllLetters(w[i..j]);
    t.SubstringFound(w, i, j, w[i..j]);
  }

  /** No stretch of BANANA reads APPLE: BANANA has no P. */
  lemma NoApple(w: seq<char>)
    requires w == "BANANA"
    ensures !exists i, j :: 0 <= i <= j <= |w| && Uppers(w[i..j]) == Uppers("APPLE")
  {
    var apple := Uppers("APPLE");
    assert |apple| == 5 && apple[1] == 'P';
    forall i, j | 0 <= i <= j <= |w| ensures Uppers(w[i..j]) != apple {
      var u := Uppers(w[i..j]);
      if |u| == 5 {
        assert u[1] == Upper(w[i + 1]);
        assert w[i + 1] == 'B' || w[i + 1] == 'A' || w[i + 1] == 'N';
        assert u[1] != apple[1];
      }
    }
  }
}
