# B-tree insertion of `Simulador.py`, modelled in Dafny

This project models the insertion engine of the B-tree simulator in
`Simulador.py`: the node record `BTreeNode`, and the `BTree` class with its
constructor, `insert`, `_insert_non_full` and `split_child`. The algorithm is
single-pass insertion with top-down preemptive splitting. A node holds at
most `max_keys = order - 1` keys. A full child is split at
`mid_index = max_keys // 2` before the descent enters it, and a full root
is split under a new root, which makes the tree one level higher.

Files:

- `nodes.dfy` (module `Nodes`)
  - the `Node` datatype;
  - Python's `list.insert` as `InsertAt`;
  - the multiset of keys held by a subtree (`Contents`);
  - the B-tree invariants. `WellShaped` covers the key bound and the child
    count. `Ordered` covers sorted keys and each subtree within the range of
    its slot. `Balanced` covers all leaves at the same depth;
  - the replacement of one child by its updated copy;
  - the strict ordering that follows when no key is repeated.
- `splitting.dfy` (module `Splitting`)
  - `split_child`: the cut of the full child (`SplitNode`, lines 53-67) and
    the update of the parent (`SplitChild`, lines 70-74);
  - the lemmas showing that a split keeps the invariants and the keys.
- `btree.dfy` (module `BTrees`)
  - the `BTree` class with `Insert` and `InsertNonFull`;
  - the right-to-left scan (`FindSlot`) as a method with a `while` loop;
  - the lemmas for the leaf case, the descent after a split, and the growth
    of the root.

`BTreeNode` (Simulador.py:4-8) is the datatype `Node(leaf, keys, children)`.
Its constructor's default `leaf=False` is never relied on: both creation
sites pass the flag explicitly (`BTreeNode(True)` for the first root at
line 14, `BTreeNode(False)` for a new root at line 19), and the model
writes the flag out at both places, as it does for the two halves of a
split (lines 56-57).

Nodes are values. Each node is owned by exactly one parent slot, and no node
is shared, so updating a node's lists in place has the same effect as
building the updated node and storing it back in its slot. `Insert` does
exactly that: it reassigns the `root` field.

The model follows the code, which departs from the textbook B-tree in
three ways:

- `insert` never rejects a key that is already present. A leaf puts the new
  key after the equal keys it holds. After a split, the test
  `key > node.keys[i]` (line 42) sends a key equal to the promoted median to
  the left. So the order invariant proved here is non-strict: keys are
  non-decreasing, and every subtree lies in the closed range between its
  neighbouring keys. `DistinctStrictlyOrdered` shows that this becomes the
  usual strict order whenever no key occurs twice: every node's keys increase
  strictly, and every subtree lies strictly between the keys that bound its
  slot. `BTree.Insert` keeps that order when the inserted key is fresh.
- The split point is `max_keys // 2`. Dafny's `/` agrees with Python's `//`
  here because both operands are non-negative.
- No minimum occupancy is kept. For order 3 the right half of a split has
  no key at all (`SplitNodeShape`).

## Model

| member | source | states |
|---|---|---|
| Nodes.InsertAt | Simulador.py:31 | `list.insert(i, x)`: the result is one longer; for `i` within the list, the prefix before `i` is kept, `x` sits at `i` and the rest follows it; past the end, `x` is appended; the multiset gains exactly `x` |
| Nodes.ContentsOfAllSlot | Simulador.py:46 | the keys of a list of subtrees are those before slot `j`, those of subtree `j` and those after it |
| Nodes.ContentsOfAllUpdate | Simulador.py:46 | replacing subtree `j` by one that holds one more `key` adds exactly one `key` to the list's keys |
| Nodes.ChildIsBTree | Simulador.py:46 | a subtree of a B-tree is a B-tree exactly one level lower, whose keys lie in the range of its slot |
| Nodes.SortedInsert | Simulador.py:29-31 | inserting a key at a position whose range contains it keeps a sorted key list sorted |
| Nodes.ReplaceChild | Simulador.py:46 | updating the child at slot `i` in place, with a result of the same height holding one more `key` in the slot's range, leaves a B-tree of the same height holding one more `key` |
| Nodes.DistinctStrictlyOrdered | Simulador.py:29-31 | in an ordered tree where no key occurs twice, every node's keys increase strictly and every subtree lies strictly between the keys that bound its slot |
| Nodes.FreshKeyNoRepeats | Simulador.py:16-23 | adding a key not yet present to keys without repeats leaves no repeats |
| Splitting.Take | Simulador.py:66 | Python's `s[:n]`: a prefix of `s` of length `n`, or all of `s` when it is shorter |
| Splitting.Drop | Simulador.py:67 | Python's `s[n:]`: what `s[:n]` leaves, so the two concatenate back to `s` |
| Splitting.SplitNode | Simulador.py:53-67 | the halves inherit the child's `leaf` flag; left keys, median and right keys concatenate to the child's keys, with `mid` keys on the left; an internal child's children are shared out in order, `mid + 1` to the left; a leaf's halves have no children |
| Splitting.SplitChild | Simulador.py:48-74 | the parent keeps its `leaf` flag and gains exactly one key and one child |
| Splitting.SplitChildInTwoPlaces | Simulador.py:70-74 | the parent changes in exactly two places: the median is inserted at key index `i`, and child `i` is replaced by the left half followed by the right half; all other keys and children keep their order |
| Splitting.SplitNodeShape | Simulador.py:53-62 | splitting a full well-shaped node leaves `max_keys // 2` keys on the left and `max_keys - max_keys // 2 - 1` on the right, neither of them full; both halves are well shaped; for order 3 the right half is empty |
| Splitting.SplitNodeContents | Simulador.py:60-67 | the halves and the median together hold exactly the keys of the split node |
| Splitting.MedianSeparates | Simulador.py:60-62 | with sorted keys, every left key is at most the median and every right key at least it; with strictly increasing keys, strictly so |
| Splitting.SplitNodeOrdered | Simulador.py:56-67 | the halves of an ordered node are ordered; every key held under the left half, its subtrees included, is at most the median, and every key held under the right half is at least the median |
| Splitting.SplitNodeBalanced | Simulador.py:65-67 | both halves keep all their leaves at the depth of the split node's leaves |
| Splitting.SplitChildHalves | Simulador.py:53-74 | after the split, the children at slots `i` and `i + 1` have `max_keys // 2` and `max_keys - max_keys // 2 - 1` keys, so neither is full |
| Splitting.SplitChildShape | Simulador.py:70-74 | splitting a full child of a well-shaped parent that has room for one more key leaves the parent well shaped |
| Splitting.SplitChildOrdered | Simulador.py:70-74 | a split keeps the parent ordered: the median lands between its neighbouring keys, and each half lies within its new slot |
| Splitting.SplitChildBalanced | Simulador.py:70-74 | a split keeps every leaf at the same depth |
| Splitting.SplitChildContents | Simulador.py:60-74 | a split moves keys but neither adds nor loses any |
| Splitting.SpliceKeeps | Simulador.py:70-74 | inserting the median and replacing subtree `i` by the two halves keeps the node's keys |
| Splitting.SplitChildPreserves | Simulador.py:48-74 | `split_child` on a B-tree node with room whose child `i` is full gives a B-tree node of the same height with the same keys, in which neither new half is full |
| BTrees.FindSlot | Simulador.py:26-30 | the scan stops one past the last key that is at most `key`: the key just before the result is at most `key`, and every key from the result on is greater |
| BTrees.LeafInsert | Simulador.py:27-31 | inserting into a leaf with room, just after the last key not greater than `key`, gives a sorted B-tree leaf holding one more `key` |
| BTrees.DescentAfterSplit | Simulador.py:42-43 | a key in slot `i` before the split lies in slot `i + 1` after it when it is greater than the promoted median, and in slot `i` otherwise |
| BTrees.SplitThenDescend | Simulador.py:33-43 | splitting the full child whose range holds `key` keeps the node a B-tree of the same height and keys; the child then chosen has room and has a range that holds `key` |
| BTrees.GrowRoot | Simulador.py:17-22 | a new internal root above a full root, followed by the split of that root, is a B-tree one level higher with the same keys |
| BTrees.GrowRootShape | Simulador.py:17-22 | the new root holds exactly the old root's median, and neither of its two children is full |
| BTrees.NewRootAbove | Simulador.py:19-20 | a new internal root whose only child is a B-tree is a B-tree one level higher with the same keys |
| BTrees.BTree.constructor | Simulador.py:11-14 | a tree of order `order` has `max_keys = order - 1` and an empty leaf as root |
| BTrees.BTree.InsertNonFull | Simulador.py:25-46 | on a B-tree node with room, the result is a B-tree of the same height and kind with one more `key`; a leaf gets `key` just after its last key not greater than `key`; an internal node with no full child gains no key and no child |
| BTrees.BTree.Insert | Simulador.py:16-23 | the tree stays a B-tree and gains one occurrence of `key`; when the root was full, the height grows by one and the new root holds exactly the old root's median over two children; otherwise the height is unchanged; inserting a fresh key into a tree without repeated keys keeps every node strictly ordered |

## Left out

- `visualize` and `_add_nodes` (Simulador.py:79-97) render the tree with graphviz and write files. This is I/O through a foreign library.
- `menu` (Simulador.py:99-134) is interactive console input and output.
- `remove` (Simulador.py:76-77) is a `pass` stub with no behaviour.
- Search, validation and repair do not exist in `Simulador.py`. Membership and validity appear only as ghost predicates (`Contents`, `IsBTree`).
- Node identity and update in place: nodes are values, so aliasing between nodes is not modelled. None arises in the source, because every node has exactly one owner.
- BTrees.BTree.constructor: requires `order >= 3`. The constructor itself accepts any `order`, and only the menu restricts it to 3..7.
- Splitting.SplitChild: the source raises `IndexError` when `i` is not a valid child index (line 50) or when the child has at most `max_keys // 2` keys (line 61). The model instead requires a valid `i` and a child with more keys; every call in the source passes a valid index and a full child.
- Splitting.SplitChildPreserves: requires a full child and a parent with room, as both calls in the source ensure. The split of an arbitrary non-full child is not covered.
- No minimum-occupancy invariant is stated, because the code does not keep one.
