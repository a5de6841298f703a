# B-tree and suffix trie, modelled in Dafny

This project models two small C++ programs and proves properties of the models.

**B-Tree.cpp** is a B-tree of `int` keys. Duplicates are allowed. A node is split when it holds exactly
`order - 1` keys; no upper bound on a node's keys is claimed. Insertion splits such nodes on the
way down (`splitChild`, `insertNonFull`). Deletion tops
up a child before descending into it, by borrowing from a sibling or merging with one. A key that
is a separator is replaced by its predecessor or successor. The `BTree` object owns the root. It
grows the tree at the root on insert and shrinks it there on remove.

The abstract value of a tree is its in-order key sequence, `Contents`: what `traverse` prints.
The model proves the following:

- Every operation keeps the tree valid: all leaves at the same depth, `|children| == |keys| + 1`
  at every internal node, no keyless node below the root, and a non-decreasing in-order sequence.
- Insertion puts the key at its upper-bound position in that sequence (`InsertSorted`).
- Removal drops one copy of the key (`RemoveOne`) and reports whether the key was present. An
  absent key leaves the sequence unchanged.
- The rebalancing steps (split, borrow from either side, merge) leave the sequence unchanged.
- Replacing a separator by its predecessor or successor, and removing that key from the child
  below, takes exactly one copy of the old separator out of the sequence.
- Removing a key just inserted gives back the original sequence.

**suffix_trie.cpp** is a 26-way trie that stores every suffix of the words inserted into it. It
folds letters to upper case, and each suffix stops at its first non-letter. `searchWord` tells whether an
all-letter string (or the empty string) occurs as a contiguous stretch of an inserted word. The model proves the following:

- `insert` only fills empty slots.
- A new node stores its upper-cased letter.
- The trie's paths are exactly the letter stretches of the inserted words, and its marked nodes
  exactly their all-letter suffixes.
- `searchWord` is exact: it holds exactly when the string is empty, or is an all-letter string
  that, up to case, is a stretch of some inserted word. A string holding a non-letter is never
  found.
- `search` never reads the suffix marks.

Nodes of both structures are modelled as immutable values (`datatype`s). An operation that edits
a node in place returns the edited node, and the owning object (`Tree.BTree`,
`SuffixTries.SuffixTrie`) reassigns its root field. Loops in the source are methods with loop
invariants: `findKey`, the right-to-left scan of `insertNonFull`, the descents of
`getPredecessor` and `getSuccessor`, the appends of `merge`, `traverse` and `insertWord`.

Files:
- `sorted_seq.dfy` (module `SortedSeq`): sorted sequences, upper bound, sorted insertion and
  removal of one copy.
- `node_seq.dfy` (module `NodeSeq`): the in-order sequence of a node built from its keys and its
  children's sequences, and how splitting, merging, borrowing and swapping move keys within it.
- `btree.dfy` (module `BTrees`): the node, its validity, `findKey`, `splitChild`,
  `insertNonFull` and `traverse`.
- `btree_delete.dfy` (module `BTreeDelete`): `remove` and its helpers.
- `btree_tree.dfy` (module `Tree`): the `BTree` object and the scenario of the program's `main`.
- `suffix_trie.dfy` (module `SuffixTries`): the trie, the `SuffixTrie` object and its `main`.

Where the code departs from a textbook B-tree, the model follows the code:
- A child is topped up when it holds `<= minKeys` keys.
- Keys equal to a separator may sit in the children on either side of it, because the code
  allows duplicates and inserts with `upper_bound`.
- Occupancy bounds (at most `order - 1` keys per node) are not kept; see "Left out".
- The model requires `order >= 5`: with order 3 or 4, `splitChild` leaves an empty half, and a
  later `back()` or `front()` reads an empty vector.

## Model

| member | source | states |
|---|---|---|
| BTrees.MinKeys | B-Tree.cpp:18 | minKeys is ceil(order / 2) - 1: twice minKeys plus one is `order` or `order - 1` |
| BTrees.NewNode | B-Tree.cpp:15-19 | a new node has the given order and leaf flag, minKeys from the order, and no keys or children |
| BTrees.FindKey | B-Tree.cpp:149-154 | the index is the first position whose key is not below `key`; on sorted keys, `key` is present exactly when it sits there |
| BTrees.SplitChild | B-Tree.cpp:126-144 | the child's key at `order / 2` is inserted into the node's keys at position i, and the two halves take the places i and i+1 of the child, every other key and child staying in place; the left half keeps `order / 2` keys and the right half gets `order - 2 - order / 2`; left half, lifted key and right half spell the old child's keys; both halves keep the child's leaf flag, and an internal child's first `order / 2 + 1` children go to the left half and the rest to the right |
| BTrees.SplitChildPreserves | B-Tree.cpp:126-144 | splitting a full child keeps the node valid, its height and its in-order sequence |
| BTrees.HalvesShaped | B-Tree.cpp:131-143 | both halves of a split node are shaped and non-empty, and the old walk is lower half, median, upper half |
| BTrees.ScanFromRight | B-Tree.cpp:103-112 | the scan stops after the last key not above `key`; on sorted keys this is the upper-bound position |
| BTrees.SplitIfFull | B-Tree.cpp:114-120 | a full child is split and the descent moves right when the lifted key is below `key`; otherwise nothing changes; the chosen child brackets `key` |
| BTrees.InsertNonFull | B-Tree.cpp:102-124 | the node stays valid with the same height, and its in-order sequence is the old one with `key` inserted after every key not greater than it |
| BTrees.LeafInsert | B-Tree.cpp:105-107 | inserting at the upper bound keeps a leaf valid and inserts `key` into its walk |
| BTrees.InsertedInChild | B-Tree.cpp:122 | a child that took `key`, put back into the node, makes the node's walk the old walk with `key` inserted |
| BTrees.ChildValid | B-Tree.cpp:9-13 | a child of a valid node is valid, one level lower, non-empty, and lies between its separators |
| BTrees.ReplaceChildValid | B-Tree.cpp:122 | a child replaced by a valid subtree that fits between its separators keeps the node valid and trades one child's keys for the other's |
| BTrees.Traverse | B-Tree.cpp:63-72 | the walk is the node's in-order sequence: each child's walk before the key that follows it |
| BTreeDelete.BorrowFromPrev | B-Tree.cpp:251-265 | the left sibling loses its last key, the child gains one, the lifted key is the sibling's old last key, the key window around the separator reads the same, and the other separators and children are unchanged; leaf flags are kept, and for internal children the sibling's last child moves to the front of the child's children |
| BTreeDelete.BorrowFromPrevPreserves | B-Tree.cpp:251-265 | borrowing from the left keeps the node valid, its height and its in-order sequence |
| BTreeDelete.BorrowFromNext | B-Tree.cpp:267-280 | the right sibling loses its first key, the child gains one, the lifted key is the sibling's old first key, the window reads the same, and the other separators and children are unchanged; leaf flags are kept, and for internal children the sibling's first child moves to the back of the child's children |
| BTreeDelete.BorrowFromNextPreserves | B-Tree.cpp:267-280 | borrowing from the right keeps the node valid, its height and its in-order sequence |
| BTreeDelete.Merged | B-Tree.cpp:282-301 | the node loses separator idx and child idx+1; child idx holds its keys, the separator, then the sibling's keys; every other child is unchanged |
| BTreeDelete.Merge | B-Tree.cpp:282-298 | appending the separator and then the sibling's keys and children one at a time gives exactly `Merged` |
| BTreeDelete.MergePreserves | B-Tree.cpp:282-301 | merging keeps the node valid, its height and its in-order sequence, and the merged child has at least three keys |
| BTreeDelete.RemoveFromLeaf | B-Tree.cpp:214-216 | one key fewer: the keys before idx are kept, the keys after it shift down, and the multiset loses `keys[idx]` |
| BTreeDelete.LeafRemove | B-Tree.cpp:214-216 | erasing key idx of a valid leaf keeps it valid and removes one copy of that key from its walk |
| BTreeDelete.GetPredecessor | B-Tree.cpp:237-242 | the result is the last key of child idx's walk, and the greatest key in it |
| BTreeDelete.GetSuccessor | B-Tree.cpp:244-249 | the result is the first key of child idx+1's walk, and the least key in it |
| BTreeDelete.PrevReady | B-Tree.cpp:192-193 | after borrowing from the left, the node is valid with the same walk, and child idx has a key to spare and still brackets `key` |
| BTreeDelete.NextReady | B-Tree.cpp:195-197 | after borrowing from the right, the node is valid with the same walk, and child idx has a key to spare and still brackets `key` |
| BTreeDelete.MergeReady | B-Tree.cpp:200-201 | after merge(idx), the node is valid with the same walk, and the merged child brackets `key` |
| BTreeDelete.MergeLeftReady | B-Tree.cpp:202-208 | when `key` is past the last separator, merge(idx - 1) leaves the merged last child bracketing `key`, and the flag test picks it |
| BTreeDelete.FillChild | B-Tree.cpp:188-205 | the child descended into (idx, or idx-1 after a left merge) has a key to spare and brackets `key`, with the walk unchanged; nothing changes when child idx has keys to spare; the node loses a key exactly when neither sibling could lend |
| BTreeDelete.RemovedBelow | B-Tree.cpp:207-210 | the chosen child holds `key` exactly when the node does, and removing it there removes one copy from the node's walk |
| BTreeDelete.RemoveFrom | B-Tree.cpp:173-212 | the node stays valid with the same height; its walk loses one copy of `key` (unchanged when absent); `found` holds exactly when `key` was present |
| BTreeDelete.RemoveFromNonLeaf | B-Tree.cpp:218-235 | the node stays valid with the same height, and its walk loses one copy of separator idx |
| BTreeDelete.PredecessorReplaced | B-Tree.cpp:221-225 | replacing separator idx by its predecessor, removed from child idx, removes one copy of the old separator from the walk |
| BTreeDelete.SuccessorReplaced | B-Tree.cpp:226-230 | replacing separator idx by its successor, removed from child idx+1, removes one copy of the old separator from the walk |
| BTreeDelete.MergedHoldsKey | B-Tree.cpp:231-234 | after merge(idx), the merged child is valid, has a key to spare and holds the old separator |
| Tree.SingletonValid | B-Tree.cpp:79-82 | the first insertion makes a valid leaf root whose walk is `[key]` |
| Tree.GrowRoot | B-Tree.cpp:86-87 | a keyless root above a full root is valid, one level taller, and walks as the old root |
| Tree.InsertAtFullRoot | B-Tree.cpp:85-96 | the tree grows by one level; the new root holds exactly the old root's median key and two children; the walk is the old one with `key` inserted |
| Tree.Collapse | B-Tree.cpp:162-167 | a keyless internal root holds the whole tree in its only child, which is valid and one level lower |
| Tree.BTree.constructor | B-Tree.cpp:47 | a new tree is empty and valid |
| Tree.BTree.Insert | B-Tree.cpp:77-100 | the tree stays valid and its walk is the old walk with `key` inserted; an empty tree gets a one-key leaf; a full root makes the tree one level taller with a one-key root; otherwise the height is unchanged |
| Tree.BTree.Remove | B-Tree.cpp:156-171 | the tree stays valid and its walk loses one copy of `key`; `found` holds exactly when `key` was present; the height drops by at most one |
| Tree.BTree.EmptyIffNoRoot | B-Tree.cpp:162-167 | the root is absent exactly when the tree holds no key |
| Tree.BTree.Traverse | B-Tree.cpp:51-53 | the walk is the tree's key sequence, and it is non-decreasing |
| Tree.MainScenario | B-Tree.cpp:306-335 | on a new order-5 tree object: after the eight insertions the traversal is [5, 6, 7, 10, 12, 17, 20, 30]; 6 is found and removed, 13 is not found and nothing changes, 7 is found and removed, with the traversal after each removal |
| Tree.MainInserts | B-Tree.cpp:310-313 | inserting 10, 20, 5, 6, 12, 30, 7, 17 into an empty tree object gives the traversal [5, 6, 7, 10, 12, 17, 20, 30] |
| Tree.MainInsert1 | B-Tree.cpp:310-313 | inserting 10 into the empty tree gives [10] |
| Tree.MainInsert2 | B-Tree.cpp:310-313 | then 20 gives [10, 20] |
| Tree.MainInsert3 | B-Tree.cpp:310-313 | then 5 gives [5, 10, 20] |
| Tree.MainInsert4 | B-Tree.cpp:310-313 | then 6 gives [5, 6, 10, 20] |
| Tree.MainInsert5 | B-Tree.cpp:310-313 | then 12 gives [5, 6, 10, 12, 20] |
| Tree.MainInsert6 | B-Tree.cpp:310-313 | then 30 gives [5, 6, 10, 12, 20, 30] |
| Tree.MainInsert7 | B-Tree.cpp:310-313 | then 7 gives [5, 6, 7, 10, 12, 20, 30] |
| Tree.MainInsert8 | B-Tree.cpp:310-313 | then 17 gives [5, 6, 7, 10, 12, 17, 20, 30], the first traversal |
| Tree.MainRemove6 | B-Tree.cpp:319 | 6 is present, and removing it gives [5, 7, 10, 12, 17, 20, 30] |
| Tree.MainRemove13 | B-Tree.cpp:324 | 13 is absent, and removing it leaves the walk unchanged |
| Tree.MainRemove7 | B-Tree.cpp:329 | 7 is present, and removing it gives [5, 10, 12, 17, 20, 30] |
| SortedSeq.UpperBoundSplits | B-Tree.cpp:106 | everything before the upper bound is at most `x`; in a sorted sequence everything from it on is greater |
| SortedSeq.UpperBoundUnique | B-Tree.cpp:106 | any position with nothing greater before it and everything greater from it on is the upper bound |
| SortedSeq.InsertSortedBetween | B-Tree.cpp:106 | `x` goes exactly between a part with nothing greater than `x` and a part with everything greater |
| SortedSeq.InsertSortedIsInsertion | B-Tree.cpp:106 | sorted insertion keeps a sequence sorted and adds exactly one copy of `x` |
| SortedSeq.RemoveOne | B-Tree.cpp:173-212 | removal takes one copy of `x` out of the multiset, and changes nothing when `x` is absent |
| SortedSeq.RemoveOneFirst | B-Tree.cpp:173-212 | removal drops the first occurrence of `x` and keeps everything else in order |
| SortedSeq.RemoveOneSorted | B-Tree.cpp:173-212 | removal keeps a sequence sorted |
| SortedSeq.RemoveOneUnique | B-Tree.cpp:173-212 | the sorted sequence with one copy of `x` fewer is unique |
| SortedSeq.RemoveInsertRoundTrip | B-Tree.cpp:77-212 | removing a key just inserted into a sorted sequence gives back the sequence |
| SortedSeq.SortedUnique | B-Tree.cpp:63-72 | two sorted sequences with the same multiset are equal, so the walk is determined by the keys |
| NodeSeq.InOrderConcat | B-Tree.cpp:63-72 | a node's walk splits at any of its keys into the walks of the two halves |
| NodeSeq.ChildBounds | B-Tree.cpp:63-72 | in a node with a sorted walk, each child's walk is sorted and lies between its neighbouring separators |
| NodeSeq.KeysSorted | B-Tree.cpp:12 | the separators of a node with a sorted walk are in order |
| NodeSeq.DescendFind | B-Tree.cpp:207-210 | when `key` lies strictly between the separators around child t, the node holds `key` exactly when child t does |
| SuffixTries.Upper | suffix_trie.cpp:29 | `toupper`: a lower-case letter maps to its own capital, a capital and any other character are unchanged, and the result is a capital exactly for letters |
| SuffixTries.GetIndex | suffix_trie.cpp:28-31 | the slot lies in 0..25 exactly for letters of either case, and the slot's letter is the upper-cased character |
| SuffixTries.GetIndexCaseFold | suffix_trie.cpp:28-31 | two letters share a slot exactly when they are the same letter up to case |
| SuffixTries.NewNode | suffix_trie.cpp:11-16 | a new node stores its character, has 26 empty slots and is not a suffix end |
| SuffixTries.Search | suffix_trie.cpp:58-71 | the string from `pos` on is found exactly when it is all letters and its slots spell a path from the node |
| SuffixTries.SearchIgnoresTerminal | suffix_trie.cpp:58-71 | two tries with the same slots filled answer every search alike, whatever their suffix marks |
| SuffixTries.Insert | suffix_trie.cpp:34-49 | only empty slots are filled, existing nodes keep their character and mark, new nodes store the upper-cased letter of their slot; the new paths are the prefixes of the letter run from `pos`; the only new mark is at the whole rest of the word, when it is all letters |
| SuffixTries.GrowsKeepsPaths | suffix_trie.cpp:45-46 | a trie whose empty slots were filled keeps every path it had |
| SuffixTries.GrowsTrans | suffix_trie.cpp:52-55 | filling slots in two rounds is filling slots once |
| SuffixTries.PrefixOfRun | suffix_trie.cpp:37-48 | the paths insert adds from `a` are the empty path and those of the all-letter stretches starting at `a` |
| SuffixTries.RunFull | suffix_trie.cpp:37-43 | insert reaches the end of the word from `a` exactly when the word is all letters from `a` on |
| SuffixTries.SameUpToCase | suffix_trie.cpp:28-31 | for an all-letter string, another string is all letters with the same slots exactly when both upper-case to the same string |
| SuffixTries.OccursUpToCase | suffix_trie.cpp:58-75 | a non-empty all-letter string has the slot path of a stretch of `w` exactly when it equals a stretch of `w` up to case |
| SuffixTries.SuffixTrie.constructor | suffix_trie.cpp:23-25 | a new trie has a bare root with character `'\0'`, holds no word, and satisfies the trie invariant |
| SuffixTries.SuffixTrie.InsertWord | suffix_trie.cpp:52-55 | the trie invariant is kept with `word` added to the inserted words, and the old trie only had slots filled |
| SuffixTries.SuffixTrie.SearchWord | suffix_trie.cpp:73-75 | the whole string is found exactly when it is all letters and its slots spell a path from the root |
| SuffixTries.SuffixTrie.SearchWordExact | suffix_trie.cpp:73-75 | searchWord holds exactly for the empty string and the all-letter strings that equal, up to case, a stretch of an inserted word |
| SuffixTries.SuffixTrie.SubstringFound | suffix_trie.cpp:52-75 | every all-letter stretch of an inserted word is found, in either case |
| SuffixTries.Banana | suffix_trie.cpp:78-88 | after inserting BANANA into a new trie, ANA, NANA and BAN are found and APPLE is not |
| SuffixTries.BananaSearches | suffix_trie.cpp:80-85 | on a trie holding exactly BANANA, the four searches answer present, present, present, absent |
| SuffixTries.AppleAbsent | suffix_trie.cpp:85 | on a trie holding exactly BANANA, APPLE is not found |
| SuffixTries.NoApple | suffix_trie.cpp:85 | no stretch of BANANA reads APPLE up to case |

## Left out

- Nodes are values, not heap objects. The model does not capture aliasing, identity or update in
  place of `BTreeNode` or `TrieNode` objects. Each operation returns the edited node, and its
  parent or owner stores it back.
- Memory management is not modelled. This includes the destructors, `delete sibling` in `merge`
  (B-Tree.cpp:300) and `delete old` in `BTree::remove` (B-Tree.cpp:169). Both deletes run
  `~BTreeNode`, which frees the children the surviving node has just taken over. The model keeps
  those children and does not reproduce the dangling pointers.
- Occupancy bounds are not claimed. With an odd order, `merge` can build a node with `order` keys:
  two children at `minKeys`, plus the separator, is `2 * minKeys + 1 == order`. A node with that
  many keys is never split again, because `insertNonFull` only splits at exactly `order - 1` keys.
  The model proves validity without an upper bound on the key count.
- Tree.BTree.constructor: requires `order >= 5` instead of handling smaller orders; the source does
  not check the order at all.
- Output with `cout` is not modelled as I/O. `traverse` returns the walk as a sequence. The "not
  found" message of `remove` on a non-empty tree is the `found` result; on an empty tree `found`
  is false and the source prints nothing. The "Present"/"Not Present" lines of the
  trie's `main` are the booleans `Banana` returns.
- The `main` of B-Tree.cpp is restated on a `BTree` object by `Tree.MainScenario`, using the walks
  that `BTree.Insert` and `BTree.Remove` promise and one lemma per step (`Tree.MainInsert1` to
  `Tree.MainRemove7`). The node layout of the concrete tree is not computed.
- `toupper` is modelled for ASCII only, as in the "C" locale. Characters outside A-Z and a-z
  are not letters. The undefined behaviour of `toupper` on a negative `char` is not modelled.
- C++ `int` keys are modelled as unbounded integers. No key arithmetic in the source can overflow.
- The trie nodes the source allocates and never frees are not modelled.
- The trie nodes store their slots as a sequence of 26 optional children, not as an array of
  pointers.
