/**
 * `BTree.split_child`: a full child is cut at `max_keys // 2`; its median
 * key moves up into the parent and the child is replaced by a left and a
 * right half.
 */
module Splitting {
  import opened Nodes

  /** Python's `s[:n]` for `n >= 0`: the first `n` elements, or all of `s` when it is shorter. */
  function Take<T>(s: seq<T>, n: nat): (r: seq<T>)
    ensures |r| == (if n <= |s| then n else |s|) && r <= s
  {
    if n <= |s| then s[..n] else s
  }

  /** Python's `s[n:]` for `n >= 0`: what `Take(s, n)` leaves. */
  function Drop<T>(s: seq<T>, n: nat): (r: seq<T>)
    ensures Take(s, n) + r == s
  {
    if n <= |s| then s[n..] else []
  }

  /** The two fresh nodes and the promoted key that a split produces. */
  datatype Halves = Halves(left: Node, median: int, right: Node)

  /**
   * The slicing of `split_child`: the keys before `mid` go left, the key at
   * `mid` moves up, the keys after it go right; an internal node's first
   * `mid + 1` children go left and the rest go right. Both halves take the
   * child's leaf flag, and a leaf's halves have no children.
   */
  function SplitNode(child: Node, mid: nat): (h: Halves)
    requires mid < |child.keys|
    ensures h.left.leaf == child.leaf && h.right.leaf == child.leaf
    ensures h.left.keys + [h.median] + h.right.keys == child.keys
    ensures |h.left.keys| == mid && |h.right.keys| == |child.keys| - mid - 1
    ensures !child.leaf ==> h.left.children + h.right.children == child.children
    ensures !child.leaf && mid < |child.children| ==> |h.left.children| == mid + 1
    ensures child.leaf ==> h.left.children == [] && h.right.children == []
  {
    var left := Node(child.leaf, child.keys[..mid], if child.leaf then [] else Take(child.children, mid + 1));
    var right := Node(child.leaf, child.keys[mid + 1..], if child.leaf then [] else Drop(child.children, mid + 1));
    assert child.keys[..mid] + [child.keys[mid]] == child.keys[..mid + 1];
    assert child.keys == child.keys[..mid + 1] + child.keys[mid + 1..];
    Halves(left, child.keys[mid], right)
  }

  /**
   * `split_child(parent, i)`: the child at slot `i` is split at
   * `maxKeys / 2`; the parent gains the median at key index `i` and the right
   * half at child index `i + 1`, the left half takes slot `i`, and every
   * other key and child of the parent stays where it was or moves one place
   * to the right.
   */
  function SplitChild(parent: Node, i: nat, maxKeys: nat): (r: Node)
    requires i < |parent.children|
    requires maxKeys / 2 < |parent.children[i].keys|
    ensures r.leaf == parent.leaf
    ensures |r.keys| == |parent.keys| + 1 && |r.children| == |parent.children| + 1
  {
    var h := SplitNode(parent.children[i], maxKeys / 2);
    Node(parent.leaf, InsertAt(parent.keys, i, h.median), InsertAt(parent.children[i := h.left], i + 1, h.right))
  }

  /**
   * `split_child` changes the parent in exactly two places: the median of
   * the child at slot `i` is inserted at key index `i`, and the child at
   * slot `i` is replaced by its left half followed by its right half.
   */
  lemma SplitChildInTwoPlaces(parent: Node, i: nat, maxKeys: nat)
    requires i < |parent.children|
    requires maxKeys / 2 < |parent.children[i].keys|
    ensures var r := SplitChild(parent, i, maxKeys);
      var h := SplitNode(parent.children[i], maxKeys / 2);
      r.keys == InsertAt(parent.keys, i, h.median) &&
      (i <= |parent.keys| ==> r.keys == parent.keys[..i] + [h.median] + parent.keys[i..]) &&
      r.children == parent.children[..i] + [h.left, h.right] + parent.children[i + 1..]
  {
    var h := SplitNode(parent.children[i], maxKeys / 2);
    var u := parent.children[i := h.left];
    var children := InsertAt(u, i + 1, h.right);
    assert u[..i + 1] == parent.children[..i] + [h.left] && u[i + 1..] == parent.children[i + 1..];
    assert children == u[..i + 1] + [h.right] + u[i + 1..];
    assert children == parent.children[..i] + [h.left, h.right] + parent.children[i + 1..];
  }

  // ---------------------------------------------------------------------
  // Properties of one split
  // ---------------------------------------------------------------------

  /**
   * Splitting a node with room for nothing more (`maxKeys` keys) leaves
   * `maxKeys / 2` keys on the left and `maxKeys - maxKeys / 2 - 1` on the
   * right, so neither half is full; with `maxKeys == 2` (order 3) the right
   * half has no key at all. Both halves keep the child's shape.
   */
  lemma SplitNodeShape(child: Node, maxKeys: nat)
    requires WellShaped(child, maxKeys) && |child.keys| == maxKeys && maxKeys / 2 < maxKeys
    ensures var h := SplitNode(child, maxKeys / 2);
      WellShaped(h.left, maxKeys) && WellShaped(h.right, maxKeys) &&
      |h.left.keys| == maxKeys / 2 < maxKeys &&
      |h.right.keys| == maxKeys - maxKeys / 2 - 1 < maxKeys &&
      (maxKeys == 2 ==> h.right.keys == [])
  {
    var mid := maxKeys / 2;
    var h := SplitNode(child, mid);
    if !child.leaf {
      forall j | 0 <= j < |h.left.children|
        ensures WellShaped(h.left.children[j], maxKeys)
      {
        assert h.left.children[j] == child.children[j];
      }
      forall j | 0 <= j < |h.right.children|
        ensures WellShaped(h.right.children[j], maxKeys)
      {
        assert h.right.children[j] == child.children[j + mid + 1];
      }
    }
  }

  /** The halves and the median together hold exactly the keys of the split node. */
  lemma SplitNodeContents(child: Node, mid: nat)
    requires mid < |child.keys| && (child.leaf ==> child.children == [])
    ensures var h := SplitNode(child, mid);
      Contents(h.left) + multiset{h.median} + Contents(h.right) == Contents(child)
  {
    var h := SplitNode(child, mid);
    assert multiset(child.keys) == multiset(h.left.keys) + multiset{h.median} + multiset(h.right.keys) by {
      assert child.keys == h.left.keys + [h.median] + h.right.keys;
    }
    ContentsOfAllAppend(h.left.children, h.right.children);
    assert ContentsOfAll(child.children) == ContentsOfAll(h.left.children) + ContentsOfAll(h.right.children);
  }

  /**
   * In a node with sorted keys, the median is no smaller than any left key and
   * no larger than any right key; with strictly increasing keys it separates
   * them strictly.
   */
  lemma MedianSeparates(child: Node, mid: nat)
    requires mid < |child.keys| && Sorted(child.keys)
    ensures var h := SplitNode(child, mid);
      (forall k :: k in h.left.keys ==> k <= h.median) &&
      (forall k :: k in h.right.keys ==> h.median <= k)
    ensures var h := SplitNode(child, mid);
      StrictlySorted(child.keys) ==>
        (forall k :: k in h.left.keys ==> k < h.median) &&
        (forall k :: k in h.right.keys ==> h.median < k)
  {
    var h := SplitNode(child, mid);
    assert h.median == child.keys[mid];
    forall k | k in h.left.keys ensures k <= h.median {
      var a :| 0 <= a < |h.left.keys| && h.left.keys[a] == k;
      assert child.keys[a] == k;
    }
    forall k | k in h.right.keys ensures h.median <= k {
      var b :| 0 <= b < |h.right.keys| && h.right.keys[b] == k;
      assert child.keys[b + mid + 1] == k;
    }
    if StrictlySorted(child.keys) {
      forall k | k in h.left.keys ensures k < h.median {
        var a :| 0 <= a < |h.left.keys| && h.left.keys[a] == k;
        assert child.keys[a] == k;
      }
      forall k | k in h.right.keys ensures h.median < k {
        var b :| 0 <= b < |h.right.keys| && h.right.keys[b] == k;
        assert child.keys[b + mid + 1] == k;
      }
    }
  }

  /**
   * The halves of an ordered node are ordered, every key of the left half
   * (subtrees included) is at most the median and every key of the right
   * half is at least the median.
   */
  lemma SplitNodeOrdered(child: Node, maxKeys: int, mid: nat)
    requires WellShaped(child, maxKeys) && Ordered(child) && mid < |child.keys|
    ensures var h := SplitNode(child, mid);
      Ordered(h.left) && Ordered(h.right) &&
      SubtreeInSlot(h.left, [h.median], 0) && SubtreeInSlot(h.right, [h.median], 1)
  {
    MedianSeparates(child, mid);
    LeftHalfOrdered(child, maxKeys, mid);
    RightHalfOrdered(child, maxKeys, mid);
    LeftHalfBelowMedian(child, maxKeys, mid);
    RightHalfAboveMedian(child, maxKeys, mid);
  }

  lemma LeftHalfOrdered(child: Node, maxKeys: int, mid: nat)
    requires WellShaped(child, maxKeys) && Ordered(child) && mid < |child.keys|
    ensures Ordered(SplitNode(child, mid).left)
  {
    var h := SplitNode(child, mid);
    forall j | 0 <= j < |h.left.children|
      ensures Ordered(h.left.children[j]) && SubtreeInSlot(h.left.children[j], h.left.keys, j)
    {
      assert h.left.children[j] == child.children[j];
      assert SubtreeInSlot(child.children[j], child.keys, j);
    }
  }

  lemma RightHalfOrdered(child: Node, maxKeys: int, mid: nat)
    requires WellShaped(child, maxKeys) && Ordered(child) && mid < |child.keys|
    ensures Ordered(SplitNode(child, mid).right)
  {
    var h := SplitNode(child, mid);
    assert h.right.keys == child.keys[mid + 1..];
    SortedSuffix(child.keys, mid + 1);
    if !child.leaf {
      assert h.right.children == child.children[mid + 1..];
      forall j | 0 <= j < |h.right.children|
        ensures Ordered(h.right.children[j]) && SubtreeInSlot(h.right.children[j], h.right.keys, j)
      {
        SuffixChildInSlot(child, mid + 1, j);
      }
    }
  }

  lemma SortedSuffix(s: seq<int>, d: nat)
    requires Sorted(s) && d <= |s|
    ensures Sorted(s[d..])
  {
    forall a, b | 0 <= a < b < |s| - d ensures s[d..][a] <= s[d..][b] {
      assert s[d..][a] == s[a + d] && s[d..][b] == s[b + d];
    }
  }

  lemma SuffixChildInSlot(n: Node, d: nat, j: nat)
    requires Ordered(n) && d <= |n.keys| && j + d < |n.children|
    ensures Ordered(n.children[j + d]) && SubtreeInSlot(n.children[j + d], n.keys[d..], j)
  {
    var c := n.children[j + d];
    assert SubtreeInSlot(c, n.keys, j + d);
    forall k | k in Contents(c) ensures InSlot(n.keys[d..], j, k) {
      InSlotSuffix(n.keys, d, j, k);
    }
  }

  /** A slot of the keys after position `d` has the range of the slot `d` places further on. */
  lemma InSlotSuffix(keys: seq<int>, d: nat, j: nat, k: int)
    requires d <= |keys| && InSlot(keys, j + d, k)
    ensures InSlot(keys[d..], j, k)
  {
  }

  lemma LeftHalfBelowMedian(child: Node, maxKeys: int, mid: nat)
    requires WellShaped(child, maxKeys) && Ordered(child) && mid < |child.keys|
    requires forall k :: k in SplitNode(child, mid).left.keys ==> k <= SplitNode(child, mid).median
    ensures SubtreeInSlot(SplitNode(child, mid).left, [SplitNode(child, mid).median], 0)
  {
    var h := SplitNode(child, mid);
    var bound := [h.median];
    forall j | 0 <= j < |h.left.children|
      ensures SubtreeInSlot(h.left.children[j], bound, 0)
    {
      assert h.left.children[j] == child.children[j];
      SubtreeWithinKey(child, j, mid);
    }
    SubtreeInSlotFromParts(h.left, bound, 0);
  }

  lemma RightHalfAboveMedian(child: Node, maxKeys: int, mid: nat)
    requires WellShaped(child, maxKeys) && Ordered(child) && mid < |child.keys|
    requires forall k :: k in SplitNode(child, mid).right.keys ==> SplitNode(child, mid).median <= k
    ensures SubtreeInSlot(SplitNode(child, mid).right, [SplitNode(child, mid).median], 1)
  {
    var h := SplitNode(child, mid);
    var bound := [h.median];
    assert !child.leaf ==> h.right.children == child.children[mid + 1..];
    assert !child.leaf ==> |child.children| == |child.keys| + 1;
    forall j | 0 <= j < |h.right.children|
      ensures SubtreeInSlot(h.right.children[j], bound, 1)
    {
      assert h.right.children[j] == child.children[j + mid + 1];
      SubtreeWithinKey(child, j + mid + 1, mid);
    }
    SubtreeInSlotFromParts(h.right, bound, 1);
  }

  /**
   * In an ordered node, subtree `j` lies below key `mid` when `j <= mid`
   * (slot 0 of `[keys[mid]]`) and above it when `j > mid` (slot 1).
   */
  lemma SubtreeWithinKey(n: Node, j: nat, mid: nat)
    requires Ordered(n) && j < |n.children| && j <= |n.keys| && mid < |n.keys|
    ensures SubtreeInSlot(n.children[j], [n.keys[mid]], if j <= mid then 0 else 1)
  {
    var c := n.children[j];
    assert SubtreeInSlot(c, n.keys, j);
    if j <= mid {
      assert n.keys[j] <= n.keys[mid];
    } else {
      assert n.keys[mid] <= n.keys[j - 1];
    }
    forall k | k in Contents(c) ensures InSlot([n.keys[mid]], if j <= mid then 0 else 1, k) {
      assert InSlot(n.keys, j, k);
    }
  }

  /** A node lies in a slot when its own keys and all its subtrees do. */
  lemma SubtreeInSlotFromParts(n: Node, keys: seq<int>, j: int)
    requires forall k :: k in n.keys ==> InSlot(keys, j, k)
    requires forall c :: 0 <= c < |n.children| ==> SubtreeInSlot(n.children[c], keys, j)
    ensures SubtreeInSlot(n, keys, j)
  {
    forall k | k in Contents(n) ensures InSlot(keys, j, k) {
      if k !in multiset(n.keys) {
        var c := HoldingChild(n.children, k);
      }
    }
  }

  /** Both halves of a node whose leaves are at depth `h` have their leaves at depth `h`. */
  lemma SplitNodeBalanced(child: Node, mid: nat, h: nat)
    requires Balanced(child, h) && mid < |child.keys|
    ensures Balanced(SplitNode(child, mid).left, h) && Balanced(SplitNode(child, mid).right, h)
  {
    var s := SplitNode(child, mid);
    if !child.leaf {
      forall j | 0 <= j < |s.left.children|
        ensures Balanced(s.left.children[j], h - 1)
      {
        assert s.left.children[j] == child.children[j];
      }
      forall j | 0 <= j < |s.right.children|
        ensures Balanced(s.right.children[j], h - 1)
      {
        assert s.right.children[j] == child.children[j + mid + 1];
      }
    }
  }

  // ---------------------------------------------------------------------
  // The parent after a split
  // ---------------------------------------------------------------------

  /** How the slot ranges of the parent's keys move when the median is inserted at key index `i`. */
  lemma InSlotAfterInsert(keys: seq<int>, i: nat, m: int, j: nat, k: int)
    requires i <= |keys|
    ensures j < i && InSlot(keys, j, k) ==> InSlot(InsertAt(keys, i, m), j, k)
    ensures j == i && InSlot(keys, i, k) && k <= m ==> InSlot(InsertAt(keys, i, m), j, k)
    ensures j == i + 1 && InSlot(keys, i, k) && m <= k ==> InSlot(InsertAt(keys, i, m), j, k)
    ensures i + 1 < j && InSlot(keys, j - 1, k) ==> InSlot(InsertAt(keys, i, m), j, k)
  {
  }

  /**
   * The two halves a split leaves at slots `i` and `i + 1` have `maxKeys / 2`
   * and `maxKeys - maxKeys / 2 - 1` keys, so neither is full.
   */
  lemma SplitChildHalves(parent: Node, i: nat, maxKeys: nat)
    requires i < |parent.children| && |parent.children[i].keys| == maxKeys && 0 < maxKeys
    ensures var r := SplitChild(parent, i, maxKeys);
      |r.children[i].keys| == maxKeys / 2 < maxKeys &&
      |r.children[i + 1].keys| == maxKeys - maxKeys / 2 - 1 < maxKeys
  {
    SplitChildInTwoPlaces(parent, i, maxKeys);
  }

  /** Splitting a full child of a well-shaped parent with room for one more key yields a well-shaped parent. */
  lemma SplitChildShape(parent: Node, i: nat, maxKeys: nat)
    requires WellShaped(parent, maxKeys) && |parent.keys| < maxKeys
    requires i < |parent.children| && |parent.children[i].keys| == maxKeys
    ensures WellShaped(SplitChild(parent, i, maxKeys), maxKeys)
  {
    var r := SplitChild(parent, i, maxKeys);
    var h := SplitNode(parent.children[i], maxKeys / 2);
    SplitChildInTwoPlaces(parent, i, maxKeys);
    SplitNodeShape(parent.children[i], maxKeys);
    SpliceWellShaped(parent.children, i, h.left, h.right, maxKeys);
  }

  /** Replacing subtree `i` by two well-shaped subtrees keeps every subtree well-shaped. */
  lemma SpliceWellShaped(cs: seq<Node>, i: nat, left: Node, right: Node, maxKeys: int)
    requires i < |cs| && forall j :: 0 <= j < |cs| ==> WellShaped(cs[j], maxKeys)
    requires WellShaped(left, maxKeys) && WellShaped(right, maxKeys)
    ensures var spliced := cs[..i] + [left, right] + cs[i + 1..];
      forall j :: 0 <= j < |spliced| ==> WellShaped(spliced[j], maxKeys)
  {
    var spliced := cs[..i] + [left, right] + cs[i + 1..];
    forall j | 0 <= j < |spliced|
      ensures WellShaped(spliced[j], maxKeys)
    {
      if j < i {
        assert spliced[j] == cs[j];
      } else if i + 1 < j {
        assert spliced[j] == cs[j - 1];
      }
    }
  }

  /** A split keeps the parent ordered: the median lands between its neighbours and each half in its new slot. */
  lemma SplitChildOrdered(parent: Node, i: nat, maxKeys: nat)
    requires WellShaped(parent, maxKeys) && Ordered(parent)
    requires i < |parent.children| && maxKeys / 2 < |parent.children[i].keys|
    ensures Ordered(SplitChild(parent, i, maxKeys))
  {
    var r := SplitChild(parent, i, maxKeys);
    var child := parent.children[i];
    var h := SplitNode(child, maxKeys / 2);
    assert !parent.leaf && i <= |parent.keys|;
    SplitChildInTwoPlaces(parent, i, maxKeys);
    assert SubtreeInSlot(child, parent.keys, i);
    SplitNodeContents(child, maxKeys / 2);
    SplitNodeOrdered(child, maxKeys, maxKeys / 2);
    assert h.median in Contents(child) by {
      assert h.median == child.keys[maxKeys / 2];
    }
    SortedInsert(parent.keys, i, h.median);
    forall j | 0 <= j < |r.children|
      ensures Ordered(r.children[j]) && SubtreeInSlot(r.children[j], r.keys, j)
    {
      if j < i {
        var c := parent.children[j];
        assert r.children[j] == c && SubtreeInSlot(c, parent.keys, j);
        forall k | k in Contents(c) ensures InSlot(r.keys, j, k) {
          InSlotAfterInsert(parent.keys, i, h.median, j, k);
        }
      } else if j == i {
        assert r.children[j] == h.left;
        forall k | k in Contents(h.left) ensures InSlot(r.keys, j, k) {
          assert k in Contents(child) && InSlot([h.median], 0, k);
          InSlotAfterInsert(parent.keys, i, h.median, j, k);
        }
      } else if j == i + 1 {
        assert r.children[j] == h.right;
        forall k | k in Contents(h.right) ensures InSlot(r.keys, j, k) {
          assert k in Contents(child) && InSlot([h.median], 1, k);
          InSlotAfterInsert(parent.keys, i, h.median, j, k);
        }
      } else {
        var c := parent.children[j - 1];
        assert r.children[j] == c && SubtreeInSlot(c, parent.keys, j - 1);
        forall k | k in Contents(c) ensures InSlot(r.keys, j, k) {
          InSlotAfterInsert(parent.keys, i, h.median, j, k);
        }
      }
    }
  }

  /** A split keeps every leaf at the same depth. */
  lemma SplitChildBalanced(parent: Node, i: nat, maxKeys: nat, ht: nat)
    requires Balanced(parent, ht) && !parent.leaf
    requires i < |parent.children| && maxKeys / 2 < |parent.children[i].keys|
    ensures Balanced(SplitChild(parent, i, maxKeys), ht)
  {
    var r := SplitChild(parent, i, maxKeys);
    var h := SplitNode(parent.children[i], maxKeys / 2);
    SplitChildInTwoPlaces(parent, i, maxKeys);
    SplitNodeBalanced(parent.children[i], maxKeys / 2, ht - 1);
    forall j | 0 <= j < |r.children|
      ensures Balanced(r.children[j], ht - 1)
    {
      if j < i {
        assert r.children[j] == parent.children[j];
      } else if j == i {
        assert r.children[j] == h.left;
      } else if j == i + 1 {
        assert r.children[j] == h.right;
      } else {
        assert r.children[j] == parent.children[j - 1];
      }
    }
  }

  /** A split moves keys but neither adds nor loses any. */
  lemma SplitChildContents(parent: Node, i: nat, maxKeys: nat)
    requires WellShaped(parent, maxKeys)
    requires i < |parent.children| && maxKeys / 2 < |parent.children[i].keys|
    ensures Contents(SplitChild(parent, i, maxKeys)) == Contents(parent)
  {
    assert i <= |parent.keys|;
    assert parent.children[i].leaf ==> parent.children[i].children == [];
    SplitChildKeeps(parent, i, maxKeys);
  }

  lemma SplitChildKeeps(parent: Node, i: nat, maxKeys: nat)
    requires i < |parent.children| && i <= |parent.keys| && maxKeys / 2 < |parent.children[i].keys|
    requires parent.children[i].leaf ==> parent.children[i].children == []
    ensures Contents(SplitChild(parent, i, maxKeys)) == Contents(parent)
  {
    var h := SplitNode(parent.children[i], maxKeys / 2);
    SplitNodeContents(parent.children[i], maxKeys / 2);
    SplitChildInTwoPlaces(parent, i, maxKeys);
    SpliceKeeps(parent.keys, parent.children, i, h.left, h.median, h.right);
  }

  /**
   * Inserting `m` at key index `i` while replacing subtree `i` by two subtrees
   * that, with `m`, hold its keys keeps the keys of a node.
   */
  lemma SpliceKeeps(keys: seq<int>, cs: seq<Node>, i: nat, left: Node, m: int, right: Node)
    requires i < |cs| && Contents(left) + multiset{m} + Contents(right) == Contents(cs[i])
    ensures multiset(InsertAt(keys, i, m)) + ContentsOfAll(cs[..i] + [left, right] + cs[i + 1..])
         == multiset(keys) + ContentsOfAll(cs)
  {
    ContentsOfAllSplice(cs, i, left, right);
    ContentsOfAllSlot(cs, i);
  }

  /** Keys of a sequence of subtrees in which slot `i` is replaced by two subtrees. */
  lemma ContentsOfAllSplice(cs: seq<Node>, i: nat, left: Node, right: Node)
    requires i < |cs|
    ensures ContentsOfAll(cs[..i] + [left, right] + cs[i + 1..])
         == ContentsOfAll(cs[..i]) + Contents(left) + Contents(right) + ContentsOfAll(cs[i + 1..])
  {
    ContentsOfAllAppend(cs[..i] + [left, right], cs[i + 1..]);
    ContentsOfAllAppend(cs[..i], [left, right]);
    assert [left, right][..1] == [left] && [left][..0] == [];
    assert ContentsOfAll([left]) == Contents(left);
    assert ContentsOfAll([left, right]) == Contents(left) + Contents(right);
  }

  /**
   * `split_child` on a B-tree node with room for one more key whose child at
   * slot `i` is full yields a B-tree node of the same height with the same
   * keys, and neither half it creates is full.
   */
  lemma SplitChildPreserves(parent: Node, i: nat, maxKeys: nat)
    requires IsBTree(parent, maxKeys) && |parent.keys| < maxKeys
    requires i < |parent.children| && |parent.children[i].keys| == maxKeys
    ensures var r := SplitChild(parent, i, maxKeys);
      IsBTree(r, maxKeys) && Height(r) == Height(parent) && Contents(r) == Contents(parent) &&
      !r.leaf && |r.children[i].keys| < maxKeys && |r.children[i + 1].keys| < maxKeys
  {
    var r := SplitChild(parent, i, maxKeys);
    SplitChildShape(parent, i, maxKeys);
    SplitChildHalves(parent, i, maxKeys);
    SplitChildOrdered(parent, i, maxKeys);
    SplitChildBalanced(parent, i, maxKeys, Height(parent));
    BalancedHeight(r, maxKeys, Height(parent));
    SplitChildContents(parent, i, maxKeys);
  }
}
