# Forest: a verified model of the double-array trie and the binary search tree

This project models the core of the Forest library in Dafny and proves properties of that model.
The library is a small collection of tree data structures:

- **`DoubleArrayTrie`** — an incrementally built set of strings.
  - Its state is two integer arrays, `base` and `check`, plus a character array `tail` that holds the `'#'`-terminated rest of each key, and a cursor `tailPosition` at which the next run is appended.
  - A node `n` with a positive `base[n]` has a child for character `c` at slot `base[n] + value(c)`, provided `check[slot] == n`.
  - A negative `base[n]` points into the tail at offset `-base[n]`.
  - Every write goes through `Set*Value`, which doubles the array until the index fits.
- **`BinarySearchTree` and `BinarySearchTreeNode`** — an unbalanced binary search tree used as a map from keys to values.
  - The tree has a mutable `Root` and `Count`. Nodes have mutable `Left`, `Right`, `Owner` and `Value`.
  - It supports insertion (through the indexer, `Add(key, value)` and `Add(node)`), lookup, three-case deletion and clearing.
  - It has pre-, in- and post-order enumerators driven by explicit stacks, minimum and maximum, and a node's predecessor and successor.
- **`TemporaryCharacterValueMapper`** — the mapping between characters and the integer values the trie uses.
- **`IEnumerableOfTExtensions.Concat`** — appends one element to an enumeration.

## Modules

- `Wrappers` (wrappers.dfy) — `Option`, `Result`, and the exceptions the C# members throw on purpose.
- `CharacterValues` (character_values.dfy) — the character/value mapping and its round trips.
- `Enumerables` (enumerables.dfy) — `Concat`.
- `TrieModel` (trie_model.dfy) — the trie's four fields as a value (`Arrays`) and the effect of every trie operation as a function of it.
  - Where the C# code would throw (an unchecked read out of range, a negative index) or never return, the function gives `None`.
- `Trie` (trie.dfy) — class `DoubleArrayTrie`.
  - The arrays are sequence fields that the methods reassign. The C# arrays never leave the object, and `Array.Resize` reallocates them, so no other code can observe a write. The one exception is `SetArrays`; see `WithArrays` under "Left out".
  - Every method is proved to leave `State()` equal to the corresponding `TrieModel` function of the old state.
- `TrieProperties` (trie_properties.dfy) — what the trie promises, proved about the `TrieModel` functions. This covers:
  - tail writing;
  - the least free base value;
  - what `Add` leaves behind, including membership after the append path on any state;
  - the behaviour of a fresh trie.
- `TrieFixture` (trie_fixture.dfy) — the hand-built arrays of the library's `ContainsKey` test, and the walks that find "bachelor", "jar", "badge" and "baby" in them but not "bad".
- `TreeShapes` (tree_shapes.dfy) — a tree shape as a value, and the source's operations on it. It covers:
  - search, the parent search, insertion and deletion;
  - the three traversals;
  - minimum, maximum, predecessor and successor.

  It also proves the ordering, key-set, size, entry-map and in-order properties.
- `BinarySearchTrees` (bst.dfy) — classes `BinarySearchTreeNode` and `BinarySearchTree`.
  - The tree keeps a ghost `shape`. `Valid()` says four things:
    - the `Left`/`Right` pointers from `Root` spell out that shape;
    - the shape is in search-tree order;
    - `Count` is its size;
    - every node is owned by the tree.
  - Every mutator states its new shape as a `TreeShapes` function of the old one, and its new dictionary `Values(shape)` in terms of the old dictionary.

## Where the code and its documentation differ

- `Add` is documented to answer false when "the key is already present" (src/Forest/DoubleArrayTrie.cs:30).
  - The code also answers false, changing nothing, when the key runs out while still following transitions (src/Forest/DoubleArrayTrie.cs:105).
  - Such a key is not a member, because members always end in a tail run.
  - `TrieProperties.FreshReinsert` exhibits this. After the first `Add` of a key of two or more lower-case letters to a new trie, `Add` of the key's first letter alone answers false, and that one-letter key is not a member.
  - The model follows the code. `TrieProperties.InsertFalseChangesNothing` gives both reasons for a false answer.
- `Add` answers true for a key of one character, but `ContainsKey` does not find that key afterwards.
  - On a new trie, `Add("a")` takes the free slot for `a` under the root, points its `base` at the tail cursor, writes only a '#' there, and answers true (src/Forest/DoubleArrayTrie.cs:81-97).
  - `ContainsKey("a")` follows the same transition, and then its loop ends with the key (src/Forest/DoubleArrayTrie.cs:259). It never reads the negative `base` of the new slot, and it answers false (src/Forest/DoubleArrayTrie.cs:324).
  - `TrieProperties.FreshSingleLetter` exhibits this. On a new trie, `Add` of a one-letter key answers true, and afterwards the key is not a member and the lookup walk answers false.
  - For this reason `FreshCells`, `FreshInsert`, `FreshMember`, `FreshLookup` and `FreshReinsert` require a key of at least two letters. The model follows the code.

## Model

| member | source | states |
|---|---|---|
| CharacterValues.GetCharacterValue | src/Forest/TemporaryCharacterValueMapper.cs:33-42 | '#' maps to -1 and '^' is the only other character that does; every character other than '#' maps to `(int)c - 95` |
| CharacterValues.GetCharacter | src/Forest/TemporaryCharacterValueMapper.cs:23-31 | -1 maps to '#'; any other value to the 16-bit code unit of `v + 95` (wrapping as the unchecked cast does) |
| CharacterValues.CodeUnitOf | src/Forest/TemporaryCharacterValueMapper.cs:30 | the unchecked `(char)` cast yields a code unit, equal to `v + 95` whenever that is in range |
| CharacterValues.ValueRoundTrip | src/Forest/TemporaryCharacterValueMapper.cs:7-42 | every value in the declared range 1..26 survives `GetCharacter` then `GetCharacterValue` |
| CharacterValues.ValueRoundTripExact | src/Forest/TemporaryCharacterValueMapper.cs:23-42 | a value survives the round trip exactly when its character is not '#' (value -60) |
| CharacterValues.CharacterRoundTrip | src/Forest/TemporaryCharacterValueMapper.cs:23-42 | every character survives `GetCharacterValue` then `GetCharacter` except '^', whose value collides with the terminator's |
| Enumerables.Concat | src/Forest/IEnumerableOfTExtensions.cs:7-15 | the result is `self` in order followed by `item`: length one more, prefix `self`, last element `item` |
| TrieModel.Initial | src/Forest/DoubleArrayTrie.cs:12-24 | a new trie has three arrays of 16 zero/blank cells except `base[1] == 1`, and the tail cursor at 1 |
| TrieModel.GrownLengthIsLeastDoubling | src/Forest/DoubleArrayTrie.cs:427-435 | growth stops at the first length that holds the index; that length is the old length times a power of two |
| TrieModel.GrowCells | src/Forest/DoubleArrayTrie.cs:427-435 | growing keeps every old cell and fills every new cell with the default value |
| TrieModel.SetAtCells | src/Forest/DoubleArrayTrie.cs:416-425 | a write through `SetBaseValue`: the doubled length, the new value at the index, the other old cells kept, the new cells zero |
| TrieModel.WriteKeyCells | src/Forest/DoubleArrayTrie.cs:224-231 | the loop of `SetTailValues` stores the key's characters at consecutive cells from the cursor and keeps every other cell |
| TrieModel.TailMatchesCells | src/Forest/DoubleArrayTrie.cs:327-390 | `CheckTailValues(key, k, t)` succeeds exactly when `k < |key|` and the rest of the key (free of '#') is stored at `t`, in range, followed by '#' |
| TrieModel.ReachStops | src/Forest/DoubleArrayTrie.cs:259-320 | once the lookup walk has stopped at a character it follows no later transition |
| TrieModel.LookupIsMember | src/Forest/DoubleArrayTrie.cs:248-325 | the `ContainsKey` loop answers exactly membership: a walk of checked transitions ending in a matching tail run |
| TrieModel.ProbeFromAvailable | src/Forest/DoubleArrayTrie.cs:202-216 | the inner probe loop accepts a base value exactly when every slot `b + value(c)` is in range and free |
| TrieModel.Descend | src/Forest/DoubleArrayTrie.cs:41-105 | the descent of `Add` stops at a tail run only on a negative base, at a free slot only where `check` is 0, and in both cases before the key's end |
| TrieModel.CommonPrefix | src/Forest/DoubleArrayTrie.cs:182-196 | the count of common characters never extends past the key (what it counts is stated in `CommonPrefixMeaning`) |
| TrieModel.CommonPrefixMeaning | src/Forest/DoubleArrayTrie.cs:182-196 | the counted characters of the key equal the tail cell for cell, and unless the key runs out, the next key character differs from the next tail cell, which exists |
| TrieModel.NextTerminatorIsFirst | src/Forest/DoubleArrayTrie.cs:157-179 | the terminator that ends a copied run is the first one after its start |
| TrieModel.OverwriteBounds | src/Forest/DoubleArrayTrie.cs:153-180 | where `OverwriteTail` returns, every cell it reads and writes is inside the tail, and the new run is read before it is overwritten |
| TrieModel.OverwriteCells | src/Forest/DoubleArrayTrie.cs:153-180 | `OverwriteTail(old, new)` copies the run at `new` with its '#' to `old`, turns the rest of the old run up to its '#' into '?', and keeps every other cell |
| TrieModel.PlaceCommon | src/Forest/DoubleArrayTrie.cs:119-129 | placing the common characters changes only `base` and `check`, never the tail or the cursor |
| TrieModel.Relocate | src/Forest/DoubleArrayTrie.cs:136-141 | moving the old run under its new slot changes only `base` and `check` |
| TrieModel.Resolve | src/Forest/DoubleArrayTrie.cs:108-151 | conflict resolution, where the C# code does not throw or loop, leaves the three arrays non-empty and the cursor positive |
| TrieModel.Split | src/Forest/DoubleArrayTrie.cs:131-150 | the split after the common characters, where it does not throw, leaves the three arrays non-empty and the cursor positive |
| TrieModel.SetTail | src/Forest/DoubleArrayTrie.cs:220-240 | writing a run changes neither `base` nor `check` |
| TrieModel.SetBase | src/Forest/DoubleArrayTrie.cs:416-425 | writing `base` changes nothing else |
| TrieModel.SetCheck | src/Forest/DoubleArrayTrie.cs:461-470 | writing `check` changes nothing else |
| TrieModel.AppendBranch | src/Forest/DoubleArrayTrie.cs:81-97 | the append path keeps the arrays non-empty and the cursor positive |
| Trie.DoubleArrayTrie.constructor | src/Forest/DoubleArrayTrie.cs:12-24 | the new trie's state is `Initial()` |
| Trie.DoubleArrayTrie.WithArrays | src/Forest/DoubleArrayTrie.cs:538-543 | the fixture constructor installs the given non-empty arrays, with the cursor at its initial 1 |
| Trie.DoubleArrayTrie.TryGetBaseValue | src/Forest/DoubleArrayTrie.cs:392-414 | found exactly when the index is in range; the value is the cell, or 0 past the end |
| Trie.DoubleArrayTrie.TryGetCheckValue | src/Forest/DoubleArrayTrie.cs:437-459 | found exactly when the index is in range; the value is the cell, or 0 past the end |
| Trie.DoubleArrayTrie.TryGetTailValue | src/Forest/DoubleArrayTrie.cs:482-494 | found exactly when the index is in range; the value is the cell, or '#' past the end |
| Trie.DoubleArrayTrie.ResizeBaseIfNecessary | src/Forest/DoubleArrayTrie.cs:427-435 | the array is doubled until the index fits, old cells kept and new cells 0 |
| Trie.DoubleArrayTrie.ResizeCheckIfNecessary | src/Forest/DoubleArrayTrie.cs:472-480 | the same for `check` |
| Trie.DoubleArrayTrie.ResizeTailIfNecessary | src/Forest/DoubleArrayTrie.cs:507-515 | the same for `tail`, new cells holding `'\0'` |
| Trie.DoubleArrayTrie.SetBaseValue | src/Forest/DoubleArrayTrie.cs:416-425 | the state after the write is `SetBase` of the old state: only `base` changes, as `SetAtCells` spells out |
| Trie.DoubleArrayTrie.SetCheckValue | src/Forest/DoubleArrayTrie.cs:461-470 | the state after the write is `SetCheck` of the old state |
| Trie.DoubleArrayTrie.SetTailValue | src/Forest/DoubleArrayTrie.cs:496-505 | the tail after the write is grown by doubling and holds the value at the index |
| Trie.DoubleArrayTrie.CheckTailValues | src/Forest/DoubleArrayTrie.cs:327-390 | the answer is `TailMatches`, characterised cell by cell in `TailMatchesCells` |
| Trie.DoubleArrayTrie.ContainsKey | src/Forest/DoubleArrayTrie.cs:248-325 | a null key throws ArgumentNullException before anything is read; otherwise the answer is membership, and nothing is written |
| Trie.DoubleArrayTrie.SetTailValues | src/Forest/DoubleArrayTrie.cs:220-240 | the new state is `SetTail` of the old: `base` and `check` are untouched (see `TrieProperties.SetTailStoresRun`) |
| Trie.DoubleArrayTrie.GetCommonPrefixCharacters | src/Forest/DoubleArrayTrie.cs:182-196 | the result is the key's characters from the offset, as many as `CommonPrefix` counts; they equal the tail from its offset, and the next key character, if any, differs from the next tail cell |
| Trie.DoubleArrayTrie.GetAvailableBaseValue | src/Forest/DoubleArrayTrie.cs:198-218 | the result is the search result whose minimality `TrieProperties.AvailableBaseIsLeast` proves |
| Trie.DoubleArrayTrie.OverwriteTail | src/Forest/DoubleArrayTrie.cs:153-180 | the tail after the call is `Overwrite` of the old tail, characterised in `TrieModel.OverwriteCells`; nothing else changes |
| Trie.DoubleArrayTrie.ResolveConflict | src/Forest/DoubleArrayTrie.cs:108-151 | the new state is `Resolve` of the old, on the inputs where the C# code neither throws nor loops |
| Trie.DoubleArrayTrie.PlaceCommonCharacters | src/Forest/DoubleArrayTrie.cs:119-129 | the loop over the common characters yields the state and last slot of `PlaceCommon` |
| Trie.DoubleArrayTrie.SplitAt | src/Forest/DoubleArrayTrie.cs:131-150 | the rest of `ResolveConflict` yields the state of `Split` |
| Trie.DoubleArrayTrie.RelocateRun | src/Forest/DoubleArrayTrie.cs:136-143 | the old run gets its new slot and the tail becomes `Overwrite` of the old tail |
| Trie.DoubleArrayTrie.AppendUnder | src/Forest/DoubleArrayTrie.cs:145-150 | the key's next character gets a branch under the split node, pointing at the rest of the key |
| Trie.DoubleArrayTrie.AppendBranchAt | src/Forest/DoubleArrayTrie.cs:81-97 | the free slot points at the cursor and is owned by the node, then the rest of the key is written |
| Trie.DoubleArrayTrie.Locate | src/Forest/DoubleArrayTrie.cs:41-105 | the descent loop of `Add` stops where `Descend` says |
| Trie.DoubleArrayTrie.Add | src/Forest/DoubleArrayTrie.cs:32-106 | a null key throws ArgumentNullException and changes nothing; otherwise result and new state are those of `Insert` |
| TrieProperties.SetTailStoresRun | src/Forest/DoubleArrayTrie.cs:220-240 | the cursor moves by the run's length plus one, every old cell outside the run is kept, and `CheckTailValues(key, k, p)` then succeeds |
| TrieProperties.AvailableBaseIsLeast | src/Forest/DoubleArrayTrie.cs:198-218 | `GetAvailableBaseValue` returns the least base from 1 whose slots for all characters are in range and free |
| TrieProperties.InsertFalseChangesNothing | src/Forest/DoubleArrayTrie.cs:43-105 | `Add` answers false exactly on a matching tail run or a key that ends inside transitions, and then all four fields are unchanged |
| TrieProperties.AppendBranchAdvancesCursor | src/Forest/DoubleArrayTrie.cs:81-97 | the append path moves the cursor past the rest of the key and its '#' |
| TrieProperties.SplitAdvancesCursor | src/Forest/DoubleArrayTrie.cs:131-150 | the split moves the cursor on |
| TrieProperties.ResolveAdvancesCursor | src/Forest/DoubleArrayTrie.cs:108-151 | conflict resolution moves the cursor on |
| TrieProperties.InsertTrueAdvancesCursor | src/Forest/DoubleArrayTrie.cs:43-105 | when `Add` answers true the tail cursor has strictly increased |
| TrieProperties.AppendMember | src/Forest/DoubleArrayTrie.cs:81-97 | on any state, when the walk of `Add` stops at a free slot under a node it really reached (checked transitions, positive base) with at least one character left for the tail, the append path makes the key a member and `ContainsKey` then answers true |
| TrieProperties.FreshCells | src/Forest/DoubleArrayTrie.cs:81-97 | adding a lower-case key of length at least 2 to a new trie sets `check[1 + value(k[0])] = 1` and `base[1 + value(k[0])] = -1`, and stores the rest at tail offset 1 |
| TrieProperties.FreshInsert | src/Forest/DoubleArrayTrie.cs:15-97 | that first `Add` answers true |
| TrieProperties.FreshMember | src/Forest/DoubleArrayTrie.cs:248-325 | after it the key is a member |
| TrieProperties.FreshLookup | src/Forest/DoubleArrayTrie.cs:248-325 | after it `ContainsKey` answers true without throwing |
| TrieProperties.FreshReinsert | src/Forest/DoubleArrayTrie.cs:43-105 | a second `Add` of the key answers false and changes nothing; so does `Add` of its first character, which is not a member |
| TrieProperties.FreshSingleLetter | src/Forest/DoubleArrayTrie.cs:81-97 | on a new trie, `Add` of a one-letter key answers true and writes only a '#' to the tail, yet the key is not a member and the `ContainsKey` walk (lines 248-325) answers false |
| TrieFixture.WalkBachelor | test/Forest.Test/DoubleArrayTrieTests.cs:100-115 | on any arrays holding the test's cells, `b`, `a`, `c` lead to node 5, whose tail run "helor#" completes "bachelor": the lookup answers true and the key is a member |
| TrieFixture.WalkJar | test/Forest.Test/DoubleArrayTrieTests.cs:105-107 | on those cells, `j` leads to node 15 and the tail run "ar#": "jar" is found |
| TrieFixture.WalkBadge | test/Forest.Test/DoubleArrayTrieTests.cs:105-107 | on those cells, `b`, `a`, `d` lead to node 6 and the tail run "ge#": "badge" is found |
| TrieFixture.WalkBaby | test/Forest.Test/DoubleArrayTrieTests.cs:105-107 | on those cells, `b`, `a`, `b` lead to node 4 and the tail run "y#": "baby" is found |
| TrieFixture.WalkBad | test/Forest.Test/DoubleArrayTrieTests.cs:105-107 | on those cells, "bad" runs out on node 6 without reaching a tail run: the lookup answers false and it is not a member |
| TrieFixture.FixtureWords | test/Forest.Test/DoubleArrayTrieTests.cs:105-107 | the test's own arrays hold "bachelor", "jar", "badge" and "baby" and not "bad" |
| TrieFixture.FindBachelor | test/Forest.Test/DoubleArrayTrieTests.cs:100-115 | the test itself: a trie given the arrays by `WithArrays` (`SetArrays`, src/Forest/DoubleArrayTrie.cs:538-543) answers `ContainsKey("bachelor")` with true |
| TreeShapes.InOrderKeysAreKeys | src/Forest/BinarySearchTree.cs:339-372 | the in-order keys are the tree's keys, one per node |
| TreeShapes.TraversalLengths | src/Forest/BinarySearchTree.cs:339-441 | each traversal lists as many nodes as the tree has |
| TreeShapes.InOrderIncreasing | src/Forest/BinarySearchTree.cs:339-372 | in-order enumeration of an ordered tree yields strictly increasing keys |
| TreeShapes.Find | src/Forest/BinarySearchTree.cs:443-466 | the subtree the search finds holds the searched key |
| TreeShapes.FindIsMember | src/Forest/BinarySearchTree.cs:443-466 | in an ordered tree the search finds a node exactly when the key is present |
| TreeShapes.FindParentFacts | src/Forest/BinarySearchTree.cs:468-494 | the parent the search reports is a node of the tree whose left or right child, by key comparison, is the found subtree |
| TreeShapes.InsertProperties | src/Forest/BinarySearchTree.cs:141-191 | inserting a new key adds exactly that key and node, keeps the ordering and grows the size by one |
| TreeShapes.InsertFind | src/Forest/BinarySearchTree.cs:141-191 | after insertion the key is found as a leaf holding the new node; every other key finds what it found before |
| TreeShapes.InsertInOrder | src/Forest/BinarySearchTree.cs:141-191 | in-order, the new node lands at its key's rank: after the smaller keys, before the larger |
| TreeShapes.InsertEntries | src/Forest/BinarySearchTree.cs:141-191 | the key-to-node map gains exactly the new entry |
| TreeShapes.InsertReplaces | src/Forest/BinarySearchTree.cs:172-187 | insertion hangs a leaf where the search falls off the tree |
| TreeShapes.DetachMinimumProperties | src/Forest/BinarySearchTree.cs:707-720 | unlinking the minimum of a right subtree removes a node without a left child holding the smallest key, and keeps the rest ordered |
| TreeShapes.RemoveRootProperties | src/Forest/BinarySearchTree.cs:664-762 | replacing a node by its left child, its right child or its successor removes exactly its key, keeps the ordering, and in-order joins its two subtrees |
| TreeShapes.RemoveProperties | src/Forest/BinarySearchTree.cs:620-684 | removing a present key removes exactly that key, shrinks the size by one and keeps the ordering |
| TreeShapes.RemoveAbsent | src/Forest/BinarySearchTree.cs:630-637 | removing an absent key changes nothing |
| TreeShapes.RemoveNodes | src/Forest/BinarySearchTree.cs:664-684 | removal adds no node |
| TreeShapes.RemoveFind | src/Forest/BinarySearchTree.cs:620-684 | after removal every other key still finds the same node |
| TreeShapes.RemoveInOrder | src/Forest/BinarySearchTree.cs:620-684 | the in-order sequence after removal is the old one minus the removed node, at its key's rank |
| TreeShapes.RemoveEntries | src/Forest/BinarySearchTree.cs:620-684 | the key-to-node map loses exactly the removed key |
| TreeShapes.RemoveReplaces | src/Forest/BinarySearchTree.cs:686-762 | removal replaces the found subtree by its root's replacement and leaves the rest of the tree in place |
| TreeShapes.EntriesFind | src/Forest/BinarySearchTree.cs:443-466 | the key-to-node map holds a key exactly when the search finds it, mapped to the node found |
| TreeShapes.LeftmostIsMinimum | src/Forest/BinarySearchTreeNode.cs:77-92 | following `Left` ends at the smallest key of the subtree |
| TreeShapes.RightmostIsMaximum | src/Forest/BinarySearchTreeNode.cs:54-69 | following `Right` ends at the largest key of the subtree |
| TreeShapes.PredecessorIsGreatestBelow | src/Forest/BinarySearchTreeNode.cs:99-134 | the predecessor is the node with the largest key smaller than the node's own, or none if there is none |
| TreeShapes.SuccessorIsLeastAbove | src/Forest/BinarySearchTreeNode.cs:141-176 | the successor is the node with the smallest key larger than the node's own, or none |
| TreeShapes.SuccessorChainsInOrder | src/Forest/BinarySearchTreeNode.cs:141-176 | chaining `GetSuccessor` from the minimum visits the keys in ascending order, then none |
| TreeShapes.PredecessorChainsInOrder | src/Forest/BinarySearchTreeNode.cs:99-134 | chaining `GetPredecessor` from the maximum visits the keys in descending order, then none |
| TreeShapes.MaximumBelowIsLeftMaximum | src/Forest/BinarySearchTreeNode.cs:106-109 | with a left child, every smaller key in the tree is at most the maximum of the left subtree |
| TreeShapes.MinimumAboveIsRightMinimum | src/Forest/BinarySearchTreeNode.cs:141-176 | with a right child, every larger key in the tree is at least the minimum of the right subtree |
| BinarySearchTrees.Values | src/Forest/BinarySearchTree.cs:61-131 | the dictionary the tree implements has exactly the tree's keys |
| BinarySearchTrees.InOrderKeysOfNodes | src/Forest/BinarySearchTree.cs:517-530 | the keys of the in-order nodes are the in-order keys |
| BinarySearchTrees.FoundByKey | src/Forest/BinarySearchTree.cs:275-283 | in an ordered tree every node is the one its own key finds, so `item == FindNode(item.Key)` is membership |
| BinarySearchTrees.KeyedDistinct | src/Forest/BinarySearchTree.cs:141-191 | a tree with distinct ordered keys holds each node once |
| BinarySearchTrees.ValuesInsert | src/Forest/BinarySearchTree.cs:172-190 | inserting a new node adds exactly its key and value to the dictionary |
| BinarySearchTrees.ValuesRemoved | src/Forest/BinarySearchTree.cs:664-684 | removing a key from the shape removes exactly that key from the dictionary |
| BinarySearchTrees.PostOrderNodes | src/Forest/BinarySearchTree.cs:254-261 | post-order lists every node of the tree and no other |
| BinarySearchTrees.BinarySearchTreeNode.constructor | src/Forest/BinarySearchTreeNode.cs:17-46 | a new node holds its key and value and has no children and no owner |
| BinarySearchTrees.BinarySearchTreeNode.GetMaximum | src/Forest/BinarySearchTreeNode.cs:54-69 | an unowned node throws InvalidOperationException; otherwise the result has no right child, is the node itself when it has none, and holds the largest key of its subtree |
| BinarySearchTrees.BinarySearchTreeNode.GetMinimum | src/Forest/BinarySearchTreeNode.cs:77-92 | the mirror image: no left child, and the smallest key of the subtree |
| BinarySearchTrees.BinarySearchTreeNode.GetPredecessor | src/Forest/BinarySearchTreeNode.cs:99-134 | an unowned node throws; otherwise the result is the node of the owning tree with the largest smaller key, or null |
| BinarySearchTrees.BinarySearchTreeNode.GetSuccessor | src/Forest/BinarySearchTreeNode.cs:141-176 | an unowned node throws; otherwise the node with the smallest larger key, or null |
| BinarySearchTrees.BinarySearchTree.constructor | src/Forest/BinarySearchTree.cs:16-19 | a new tree is empty: no root, count 0 |
| BinarySearchTrees.BinarySearchTree.FindNode | src/Forest/BinarySearchTree.cs:443-466 | the result is non-null exactly when the key is present, and then is the tree's node with that key |
| BinarySearchTrees.BinarySearchTree.FindNodeWithParent | src/Forest/BinarySearchTree.cs:468-494 | as `FindNode`, and the parent is null for the root or the node whose left/right child (by comparison) the found node is |
| BinarySearchTrees.BinarySearchTree.Get | src/Forest/BinarySearchTree.cs:63-78 | the getter returns the key's value, or throws KeyNotFoundException exactly when the key is missing |
| BinarySearchTrees.BinarySearchTree.TryGetValue | src/Forest/BinarySearchTree.cs:772-791 | true with the key's value when present; false and the default value 0 when missing |
| BinarySearchTrees.BinarySearchTree.ContainsKey | src/Forest/BinarySearchTree.cs:291-301 | true exactly when the key is present |
| BinarySearchTrees.BinarySearchTree.Contains | src/Forest/BinarySearchTree.cs:275-283 | a null item throws ArgumentNullException; otherwise true exactly when the node is in the tree |
| BinarySearchTrees.BinarySearchTree.GetMaximum | src/Forest/BinarySearchTree.cs:535-543 | null exactly for an empty tree; otherwise a node holding the largest key |
| BinarySearchTrees.BinarySearchTree.GetMinimum | src/Forest/BinarySearchTree.cs:548-556 | null exactly for an empty tree; otherwise a node holding the smallest key |
| BinarySearchTrees.BinarySearchTree.Locate | src/Forest/BinarySearchTree.cs:148-170 | the search loop shared by the three insertions: the node with the key, or the parent to hang it under with the comparison result |
| BinarySearchTrees.BinarySearchTree.Hang | src/Forest/BinarySearchTree.cs:172-190 | hanging a new node where the search fell off keeps the invariant, adds one to `Count` and one entry to the dictionary |
| BinarySearchTrees.BinarySearchTree.Link | src/Forest/BinarySearchTree.cs:174-188 | setting the parent's child (or `Root`) spells out the inserted shape |
| BinarySearchTrees.BinarySearchTree.Set | src/Forest/BinarySearchTree.cs:79-131 | the setter maps the key to the value; an existing key keeps the shape and `Count`, a new key is inserted with `Count` one more |
| BinarySearchTrees.BinarySearchTree.Add | src/Forest/BinarySearchTree.cs:141-191 | a present key throws ArgumentException and changes nothing; otherwise the key is inserted with its value, `Count` one more, every other entry kept |
| BinarySearchTrees.BinarySearchTree.AddNode | src/Forest/BinarySearchTree.cs:196-251 | null throws ArgumentNullException, an owned node InvalidOperationException, a present key ArgumentException, all changing nothing; otherwise the node is linked in and owned by the tree |
| BinarySearchTrees.BinarySearchTree.Remove | src/Forest/BinarySearchTree.cs:620-684 | answers whether the key was present; the key, and only it, leaves the tree and the dictionary, `Count` drops by one exactly then, and the removed node is detached (`Left`, `Right` and `Owner` null) |
| BinarySearchTrees.BinarySearchTree.RemoveItem | src/Forest/BinarySearchTree.cs:645-662 | null throws; a node of the tree is removed and detached, anything else leaves the tree unchanged and answers false |
| BinarySearchTrees.BinarySearchTree.RemoveNode | src/Forest/BinarySearchTree.cs:664-684 | the node's key leaves the tree and the dictionary, the invariant holds, `Count` drops by one and the node is detached |
| BinarySearchTrees.BinarySearchTree.ReplaceNode | src/Forest/BinarySearchTree.cs:666-677 | the three-way choice among the replacements spells out the shape without the node's key |
| BinarySearchTrees.BinarySearchTree.ReplaceNodeWithLeftNode | src/Forest/BinarySearchTree.cs:686-705 | a node without a right child is replaced by its left subtree; the pointers spell out the shape without its key |
| BinarySearchTrees.BinarySearchTree.ReplaceNodeWithRightNode | src/Forest/BinarySearchTree.cs:741-762 | a node whose right child has no left child is replaced by that child; the pointers spell out the shape without its key |
| BinarySearchTrees.BinarySearchTree.ReplaceNodeWithMinimumNode | src/Forest/BinarySearchTree.cs:707-739 | otherwise the minimum of the right subtree is unlinked and takes the node's place; the pointers spell out the shape without its key |
| BinarySearchTrees.BinarySearchTree.Clear | src/Forest/BinarySearchTree.cs:254-266 | the tree becomes empty with `Count` 0 and every former node detached |
| BinarySearchTrees.BinarySearchTree.EnumerateInOrder | src/Forest/BinarySearchTree.cs:339-372 | the stack-driven walk yields exactly the in-order sequence |
| BinarySearchTrees.BinarySearchTree.EnumeratePreOrder | src/Forest/BinarySearchTree.cs:417-441 | the stack-driven walk yields exactly the pre-order sequence |
| BinarySearchTrees.BinarySearchTree.EnumeratePostOrder | src/Forest/BinarySearchTree.cs:374-415 | the walk over `PostOrderNode` entries yields exactly the post-order sequence |
| BinarySearchTrees.BinarySearchTree.GetNodes | src/Forest/BinarySearchTree.cs:566-589 | the nodes in the chosen traversal order |
| BinarySearchTrees.BinarySearchTree.GetKeys | src/Forest/BinarySearchTree.cs:517-530 | the keys of those nodes; in-order they are strictly increasing |
| BinarySearchTrees.BinarySearchTree.GetValues | src/Forest/BinarySearchTree.cs:599-612 | the values of those nodes, in the same order |
| BinarySearchTrees.BinarySearchTree.GetEnumerator | src/Forest/BinarySearchTree.cs:499-502 | the default enumeration is in-order |
| BinarySearchTrees.BinarySearchTree.CopyTo | src/Forest/BinarySearchTree.cs:315-337 | null, an index outside the array and too little room throw the documented exceptions and write nothing; otherwise the in-order nodes are written from the index and every other cell is kept |

## Left out

- Logging: the `Debug.WriteLine` calls and `GetCurrentState` produce output only.
- Comparers: keys are `int` and `Compare` is the natural order. The tree constructor that takes an `IComparer` (src/Forest/BinarySearchTree.cs:25-28) and the `Comparer` property are not modelled.
- Values are `int`, and `default(TValue)` is 0.
- Null keys: an `int` key cannot be null. So the `ArgumentNullException` for a null key is not modelled in these places: the indexer, `Add`, `ContainsKey`, `Remove`, `TryGetValue` and the node constructor. Null node and array arguments are modelled as error results.
- Lazy enumeration: traversals return the whole sequence. `Clear` takes the post-order list first and then detaches the nodes. This is equivalent, because post-order yields a node only after both its subtrees have been walked.
- `GetKeys`, `GetNodes` and `GetValues` throw `ArgumentOutOfRangeException` for an undefined enum value. The traversal kind here is a three-constructor datatype, so that case cannot arise.
- The `ICollection` plumbing (`IsReadOnly` and the non-generic `GetEnumerator`) is not modelled.
- Integer width: `Count`, array indices, base values and `tailPosition` are unbounded. 32-bit overflow is not modelled. The `(char)` cast in `GetCharacter` does wrap at 16 bits.
- Characters: Dafny's `char` cannot hold a UTF-16 surrogate. So `GetCharacter` requires a non-surrogate result, and the round trips are stated for non-surrogate characters.
  - The same holds for the keys of `Add`, `ContainsKey` and `CheckTailValues`. A C# key is a sequence of UTF-16 code units: `key.Length` and `key[keyIndex]` (src/Forest/DoubleArrayTrie.cs:43 and :75) see the two halves of a surrogate pair as two characters, and a key may hold a lone surrogate.
  - A Dafny `string` is a sequence of Unicode scalar values, so a key here holds no surrogate at all. Keys outside the Basic Multilingual Plane, and keys with lone surrogates, are not modelled.
- Trie.DoubleArrayTrie.ContainsKey: requires that the walk does not throw. In the source, a negative slot index makes the `check` read throw `IndexOutOfRangeException`; `TrieModel.Lookup` gives `None` exactly there.
- Trie.DoubleArrayTrie.Add: requires that `TrieModel.Insert` is not `None`. That excludes every input on which the C# code throws or loops forever:
  - a negative slot index;
  - an unchecked `tail` or `check` read past the end in conflict resolution;
  - a key that is a prefix of the stored run;
  - an `OverwriteTail` whose run has no terminator.
- Trie.DoubleArrayTrie.ResolveConflict: same requirement. Its effect is stated as the state function `Resolve`, not as membership of the key afterwards. That is false in general, because of the following:
  - the descent that ignores `check` ownership;
  - `checkIndex` staying 0 without common characters;
  - `baseIndex` never advancing with two or more common characters;
  - the length passed as a tail offset to `OverwriteTail`.
- Trie.DoubleArrayTrie.GetAvailableBaseValue: requires that the search ends before an unchecked read past `check`, where the C# code throws.
- Trie.DoubleArrayTrie.OverwriteTail: requires the run to end in a terminator inside the tail, read before it is overwritten. Otherwise the C# loop reads out of range, or doubles the tail until memory runs out.
- Trie.DoubleArrayTrie.WithArrays: a fixture constructor on a fresh trie with non-empty arrays. `SetArrays` on a used trie keeps its cursor; that is not modelled.
  - `SetArrays` stores the caller's own arrays, so in C# the caller sees every later in-place write until the first resize reallocates that array. `WithArrays` copies the contents into sequence fields, so this aliasing is not modelled.
- BinarySearchTrees.BinarySearchTree.AddNode: requires an unowned node to have no children. The source does not check this. Every unowned node the library produces already has none, because `Left` and `Right` are set only by the tree and are cleared when a node leaves it.
- Relocation of a node whose slot belongs to another parent: the source has no such step, so there is none here.
