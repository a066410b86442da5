/**
 * The `BTree` class: construction, `insert` and `_insert_non_full`, the
 * single-pass insertion with top-down preemptive splitting.
 */
module BTrees {
  import opened Nodes
  import opened Splitting

  /**
   * The right-to-left scan of `_insert_non_full`: starting at the last key,
   * step left while `key` is smaller than the key under the index. The result
   * is one past the index where the scan stops, that is one past the last key
   * that is at most `key`, or 0 when every key is greater than `key`.
   */
  method FindSlot(keys: seq<int>, key: int) returns (slot: nat)
    ensures slot <= |keys|
    ensures 0 < slot ==> keys[slot - 1] <= key
    ensures forall j :: slot <= j < |keys| ==> key < keys[j]
  {
    var i := |keys| - 1;
    while i >= 0 && key < keys[i]
      invariant -1 <= i < |keys|
      invariant forall j :: i < j < |keys| ==> key < keys[j]
    {
      i := i - 1;
    }
    slot := i + 1;
  }

  /** `r` is `keys` with `key` inserted just after the last key that is at most `key`. */
  ghost predicate InsertedAfterLastNotGreater(keys: seq<int>, key: int, r: seq<int>)
  {
    exists p :: 0 <= p <= |keys| && r == InsertAt(keys, p, key) &&
      (0 < p ==> keys[p - 1] <= key) && (forall j :: p <= j < |keys| ==> key < keys[j])
  }

  /** No child of `n` is full. */
  ghost predicate ChildrenHaveRoom(n: Node, maxKeys: int)
  {
    forall j :: 0 <= j < |n.children| ==> |n.children[j].keys| < maxKeys
  }

  /**
   * The descent step after a split of child `i`: a key in slot `i` of the old
   * keys lies in slot `i + 1` of the new keys when it is greater than the
   * promoted median, and in slot `i` otherwise.
   */
  lemma DescentAfterSplit(keys: seq<int>, i: nat, median: int, key: int)
    requires i <= |keys| && InSlot(keys, i, key)
    ensures InSlot(InsertAt(keys, i, median), if key > median then i + 1 else i, key)
  {
    InSlotAfterInsert(keys, i, median, if key > median then i + 1 else i, key);
  }

  /**
   * Splitting the full child at slot `i`, whose range holds `key`, keeps the
   * node a B-tree of the same height with the same keys, and the child the
   * descent then chooses (one slot right exactly when `key` is greater than
   * the promoted median) has room and has a range that holds `key`.
   */
  lemma SplitThenDescend(node: Node, maxKeys: nat, i: nat, key: int)
    requires IsBTree(node, maxKeys) && |node.keys| < maxKeys
    requires i < |node.children| && |node.children[i].keys| == maxKeys && InSlot(node.keys, i, key)
    ensures var n := SplitChild(node, i, maxKeys);
      var j := if key > n.keys[i] then i + 1 else i;
      IsBTree(n, maxKeys) && Height(n) == Height(node) && Contents(n) == Contents(node) &&
      j < |n.children| && |n.children[j].keys| < maxKeys && InSlot(n.keys, j, key)
  {
    var n := SplitChild(node, i, maxKeys);
    SplitChildPreserves(node, i, maxKeys);
    assert i <= |node.keys|;
    assert n.keys == InsertAt(node.keys, i, n.keys[i]);
    DescentAfterSplit(node.keys, i, n.keys[i], key);
  }

  /**
   * Inserting `key` into a leaf with room, just after the last key that is at
   * most `key`, keeps a sorted B-tree leaf holding one more `key`.
   */
  lemma LeafInsert(node: Node, maxKeys: int, i: nat, key: int)
    requires IsBTree(node, maxKeys) && node.leaf && |node.keys| < maxKeys
    requires i <= |node.keys| && (0 < i ==> node.keys[i - 1] <= key)
    requires forall j :: i <= j < |node.keys| ==> key < node.keys[j]
    ensures var r := node.(keys := InsertAt(node.keys, i, key));
      IsBTree(r, maxKeys) && Height(r) == Height(node) && Contents(r) == Contents(node) + multiset{key} &&
      r.leaf && r.children == [] && InsertedAfterLastNotGreater(node.keys, key, r.keys)
  {
    var r := node.(keys := InsertAt(node.keys, i, key));
    assert InSlot(node.keys, i, key);
    SortedInsert(node.keys, i, key);
    assert WellShaped(r, maxKeys);
    assert Ordered(r);
    assert Height(r) == 0 == Height(node);
  }

  /**
   * Growing a full root: a new internal root with the old root as its only
   * child, followed by the split of that child, is a B-tree one level higher
   * with the same keys.
   */
  lemma GrowRoot(root: Node, maxKeys: nat)
    requires IsBTree(root, maxKeys) && |root.keys| == maxKeys && 0 < maxKeys
    ensures var r := SplitChild(Node(false, [], [root]), 0, maxKeys);
      IsBTree(r, maxKeys) && Height(r) == Height(root) + 1 && Contents(r) == Contents(root) && !r.leaf
  {
    NewRootAbove(root, maxKeys);
    SplitChildPreserves(Node(false, [], [root]), 0, maxKeys);
  }

  /** The grown root holds the old root's median as its one key, and neither of its two children is full. */
  lemma GrowRootShape(root: Node, maxKeys: nat)
    requires |root.keys| == maxKeys && 0 < maxKeys
    ensures var r := SplitChild(Node(false, [], [root]), 0, maxKeys);
      r.keys == [root.keys[maxKeys / 2]] && |r.children| == 2 && ChildrenHaveRoom(r, maxKeys)
  {
    var r := SplitChild(Node(false, [], [root]), 0, maxKeys);
    SplitChildInTwoPlaces(Node(false, [], [root]), 0, maxKeys);
    SplitChildHalves(Node(false, [], [root]), 0, maxKeys);
  }

  /** A new internal root whose only child is a B-tree is a B-tree one level higher with the same keys. */
  lemma NewRootAbove(root: Node, maxKeys: nat)
    requires IsBTree(root, maxKeys)
    ensures IsBTree(Node(false, [], [root]), maxKeys)
    ensures Height(Node(false, [], [root])) == Height(root) + 1
    ensures Contents(Node(false, [], [root])) == Contents(root)
  {
    var parent := Node(false, [], [root]);
    assert WellShaped(parent, maxKeys);
    assert Ordered(parent) by {
      assert SubtreeInSlot(root, [], 0);
    }
    assert Balanced(parent, Height(root) + 1);
    assert [root][..0] == [];
    assert ContentsOfAll([root]) == ContentsOfAll([]) + Contents(root);
  }

  /**
   * What `_insert_non_full(node, key)` achieves: `r` is a B-tree of the same
   * height and kind as `node` holding one more `key`; a leaf gets `key` just
   * after its last key that is at most `key`, and an internal node none of
   * whose children is full gains no key and no child.
   */
  ghost predicate InsertedBelow(node: Node, key: int, r: Node, maxKeys: nat)
  {
    IsBTree(r, maxKeys) && Height(r) == Height(node) && r.leaf == node.leaf &&
    Contents(r) == Contents(node) + multiset{key} &&
    (node.leaf ==> r.children == [] && InsertedAfterLastNotGreater(node.keys, key, r.keys)) &&
    (!node.leaf && ChildrenHaveRoom(node, maxKeys) ==> r.keys == node.keys && |r.children| == |node.children|)
  }

  class BTree {
    const order: int
    const maxKeys: nat
    var root: Node

    /** The tree invariant: a valid order and a root that is a B-tree with at most `order - 1` keys per node. */
    ghost predicate Valid()
      reads this
    {
      3 <= order && maxKeys == order - 1 && IsBTree(root, maxKeys)
    }

    /** `BTree(order)`: an empty leaf as root. */
    constructor (order: int)
      requires 3 <= order
      ensures Valid() && this.order == order && maxKeys == order - 1
      ensures root == Node(true, [], [])
    {
      this.order := order;
      maxKeys := order - 1;
      root := Node(true, [], []);
    }

    /**
     * `insert(key)`: when the root is full, a new internal root is installed
     * above it and the old root is split under it, growing the height by
     * one; then the key is inserted below the (possibly new) root. The tree
     * stays a B-tree and holds one more occurrence of `key`, whether or not
     * `key` was already present; when it was not, and no key occurred twice,
     * every node's keys still increase strictly.
     */
    method Insert(key: int)
      requires Valid()
      modifies this
      ensures Valid()
      ensures Contents(root) == old(Contents(root)) + multiset{key}
      ensures old(|root.keys|) == maxKeys ==>
        Height(root) == old(Height(root)) + 1 && !root.leaf &&
        root.keys == [old(root.keys[maxKeys / 2])] && |root.children| == 2
      ensures old(|root.keys|) < maxKeys ==>
        Height(root) == old(Height(root)) && root.leaf == old(root.leaf)
      ensures NoRepeats(old(Contents(root))) && key !in old(Contents(root)) ==>
        NoRepeats(Contents(root)) && StrictlyOrdered(root)
    {
      var r := root;
      if |r.keys| == maxKeys {
        GrowRoot(r, maxKeys);
        GrowRootShape(r, maxKeys);
        var newRoot := Node(false, [], [root]);
        newRoot := SplitChild(newRoot, 0, maxKeys);
        root := newRoot;
      }
      root := InsertNonFull(root, key);
      if NoRepeats(old(Contents(root))) && key !in old(Contents(root)) {
        FreshKeyNoRepeats(old(Contents(root)), key);
        DistinctStrictlyOrdered(root);
      }
    }

    /**
     * `_insert_non_full(node, key)` on a node with room for one more key. In
     * a leaf the key goes just after the last key that is at most `key`. In
     * an internal node the child whose range holds `key` is split first when
     * it is full, and the descent moves one slot right exactly when `key` is
     * greater than the promoted median; the key is then inserted into that
     * child. The result is a B-tree of the same height holding one more `key`,
     * and an internal node none of whose children is full gains no key.
     */
    method InsertNonFull(node: Node, key: int) returns (r: Node)
      requires IsBTree(node, maxKeys) && |node.keys| < maxKeys
      ensures InsertedBelow(node, key, r, maxKeys)
      decreases Height(node)
    {
      var i := FindSlot(node.keys, key);
      if node.leaf {
        LeafInsert(node, maxKeys, i, key);
        r := node.(keys := InsertAt(node.keys, i, key));
        return;
      }
      var n := node;
      ChildIsBTree(n, maxKeys, i);
      if |n.children[i].keys| == maxKeys {
        SplitThenDescend(node, maxKeys, i, key);
        n := SplitChild(n, i, maxKeys);
        if key > n.keys[i] {
          i := i + 1;
        }
      }
      ChildIsBTree(n, maxKeys, i);
      var c := InsertNonFull(n.children[i], key);
      ReplaceChild(n, maxKeys, i, c, key);
      r := n.(children := n.children[i := c]);
    }
  }
}
