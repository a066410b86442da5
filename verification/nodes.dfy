/**
 * The node record of the B-tree (`BTreeNode`) and the structural
 * invariants that the insertion engine keeps.
 *
 * A node owns its children exclusively (no node is reachable from two
 * parent slots), so a node is modelled as a value: an update of a node's
 * key or child list in place becomes the construction of the updated node.
 */
module Nodes {

  /** `BTreeNode`: a leaf flag, the keys and (for internal nodes) the children. */
  datatype Node = Node(leaf: bool, keys: seq<int>, children: seq<Node>)

  /** Python's `list.insert(i, x)`: inserts before index `i`, appending when `i` is past the end. */
  function InsertAt<T>(s: seq<T>, i: nat, x: T): (r: seq<T>)
    ensures |r| == |s| + 1
    ensures i <= |s| ==> r[..i] == s[..i] && r[i] == x && r[i + 1..] == s[i..]
    ensures i > |s| ==> r == s + [x]
    ensures multiset(r) == multiset(s) + multiset{x}
  {
    if i <= |s| then
      assert s == s[..i] + s[i..];
      s[..i] + [x] + s[i..]
    else
      s + [x]
  }

  // ---------------------------------------------------------------------
  // Contents: the multiset of keys stored in a subtree
  // ---------------------------------------------------------------------

  ghost function Contents(n: Node): multiset<int>
    decreases n
  {
    multiset(n.keys) + ContentsOfAll(n.children)
  }

  ghost function ContentsOfAll(cs: seq<Node>): multiset<int>
    decreases cs
  {
    if cs == [] then multiset{} else ContentsOfAll(cs[..|cs| - 1]) + Contents(cs[|cs| - 1])
  }

  /** The keys of a sequence of subtrees are those of its two parts. */
  lemma {:induction false} ContentsOfAllAppend(a: seq<Node>, b: seq<Node>)
    ensures ContentsOfAll(a + b) == ContentsOfAll(a) + ContentsOfAll(b)
    decreases |b|
  {
    if b == [] {
      assert a + b == a;
    } else {
      var b' := b[..|b| - 1];
      assert (a + b)[..|a + b| - 1] == a + b';
      assert (a + b)[|a + b| - 1] == b[|b| - 1];
      ContentsOfAllAppend(a, b');
      assert b[..|b| - 1] == b';
    }
  }

  /** Every key of the `j`-th subtree is a key of the whole sequence, and some subtree holds each key. */
  lemma ContentsOfAllSlot(cs: seq<Node>, j: nat)
    requires j < |cs|
    ensures ContentsOfAll(cs) == ContentsOfAll(cs[..j]) + Contents(cs[j]) + ContentsOfAll(cs[j + 1..])
  {
    var front := cs[..j + 1];
    assert front[..j] == cs[..j] && front[j] == cs[j];
    assert ContentsOfAll(front) == ContentsOfAll(cs[..j]) + Contents(cs[j]);
    assert cs == front + cs[j + 1..];
    ContentsOfAllAppend(front, cs[j + 1..]);
  }

  /** A key of a sequence of subtrees lies in one of them. */
  lemma {:induction false} HoldingChild(cs: seq<Node>, k: int) returns (j: nat)
    requires k in ContentsOfAll(cs)
    ensures j < |cs| && k in Contents(cs[j])
    decreases |cs|
  {
    var last := |cs| - 1;
    if k in Contents(cs[last]) {
      j := last;
    } else {
      j := HoldingChild(cs[..last], k);
      assert cs[..last][j] == cs[j];
    }
  }

  /** Replacing a subtree by one with `key` added adds `key` to the keys of the sequence. */
  lemma ContentsOfAllUpdate(cs: seq<Node>, j: nat, c: Node, key: int)
    requires j < |cs| && Contents(c) == Contents(cs[j]) + multiset{key}
    ensures ContentsOfAll(cs[j := c]) == ContentsOfAll(cs) + multiset{key}
  {
    var cs' := cs[j := c];
    assert cs'[..j] == cs[..j] && cs'[j + 1..] == cs[j + 1..];
    ContentsOfAllSlot(cs, j);
    ContentsOfAllSlot(cs', j);
  }

  // ---------------------------------------------------------------------
  // Structural invariants
  // ---------------------------------------------------------------------

  /** Keys in non-decreasing order (insertion never rejects a repeated key). */
  ghost predicate Sorted(s: seq<int>)
  {
    forall a, b :: 0 <= a < b < |s| ==> s[a] <= s[b]
  }

  /**
   * `k` belongs to the range of child slot `j` of a node with keys `keys`:
   * between `keys[j - 1]` and `keys[j]`, where a missing neighbour is no bound.
   */
  ghost predicate InSlot(keys: seq<int>, j: int, k: int)
  {
    (0 < j <= |keys| ==> keys[j - 1] <= k) && (0 <= j < |keys| ==> k <= keys[j])
  }

  /** Every key of subtree `c` lies in the range of slot `j` of `keys`. */
  ghost predicate SubtreeInSlot(c: Node, keys: seq<int>, j: int)
  {
    forall k :: k in Contents(c) ==> InSlot(keys, j, k)
  }

  /** Shape: at most `maxKeys` keys, leaves without children, one more child than keys otherwise. */
  ghost predicate WellShaped(n: Node, maxKeys: int)
    decreases n
  {
    |n.keys| <= maxKeys &&
    (n.leaf ==> n.children == []) &&
    (!n.leaf ==> |n.children| == |n.keys| + 1) &&
    forall j :: 0 <= j < |n.children| ==> WellShaped(n.children[j], maxKeys)
  }

  /** Search-tree order: sorted keys, and each subtree within the range of its slot. */
  ghost predicate Ordered(n: Node)
    decreases n
  {
    Sorted(n.keys) &&
    forall j :: 0 <= j < |n.children| ==> Ordered(n.children[j]) && SubtreeInSlot(n.children[j], n.keys, j)
  }

  /** Every leaf lies exactly `h` levels below `n`. */
  ghost predicate Balanced(n: Node, h: nat)
    decreases n
  {
    if n.leaf then h == 0
    else 0 < h && forall j :: 0 <= j < |n.children| ==> Balanced(n.children[j], h - 1)
  }

  /** The length of the leftmost path from `n` down to a leaf. */
  ghost function Height(n: Node): nat
    decreases n
  {
    if n.leaf || n.children == [] then 0 else 1 + Height(n.children[0])
  }

  /** The invariants of a B-tree whose nodes hold at most `maxKeys` keys. */
  ghost predicate IsBTree(n: Node, maxKeys: int)
  {
    WellShaped(n, maxKeys) && Ordered(n) && Balanced(n, Height(n))
  }

  /** In a well-shaped tree whose leaves are all at depth `h`, the height is `h`. */
  lemma {:induction false} BalancedHeight(n: Node, maxKeys: int, h: nat)
    requires WellShaped(n, maxKeys) && Balanced(n, h)
    ensures Height(n) == h
    decreases n
  {
    if !n.leaf {
      BalancedHeight(n.children[0], maxKeys, h - 1);
    }
  }

  /** A subtree of a B-tree is a B-tree one level lower. */
  lemma ChildIsBTree(n: Node, maxKeys: int, j: nat)
    requires IsBTree(n, maxKeys) && j < |n.children|
    ensures IsBTree(n.children[j], maxKeys)
    ensures Height(n.children[j]) + 1 == Height(n)
    ensures SubtreeInSlot(n.children[j], n.keys, j)
  {
    BalancedHeight(n.children[j], maxKeys, Height(n) - 1);
  }

  /** Inserting `x` at a position whose range contains it keeps a sequence sorted. */
  lemma SortedInsert(s: seq<int>, i: nat, x: int)
    requires Sorted(s) && i <= |s| && InSlot(s, i, x)
    ensures Sorted(InsertAt(s, i, x))
  {
    var r := InsertAt(s, i, x);
    forall a, b | 0 <= a < b < |r|
      ensures r[a] <= r[b]
    {
      if b < i {
        assert r[a] == s[a] && r[b] == s[b];
      } else if b == i {
        assert r[a] == s[a] <= s[i - 1];
      } else if a < i {
        assert r[a] == s[a] && r[b] == s[b - 1];
      } else if a == i {
        assert r[b] == s[b - 1] && s[i] <= s[b - 1];
      } else {
        assert r[a] == s[a - 1] && r[b] == s[b - 1];
      }
    }
  }

  /**
   * Replacing child `i` of a B-tree by a B-tree of the same height that holds
   * the same keys plus `key`, where `key` lies in slot `i`, yields a B-tree of
   * the same height that holds one more `key`.
   */
  lemma ReplaceChild(n: Node, maxKeys: int, i: nat, c: Node, key: int)
    requires IsBTree(n, maxKeys) && i < |n.children|
    requires IsBTree(c, maxKeys) && Height(c) == Height(n.children[i])
    requires Contents(c) == Contents(n.children[i]) + multiset{key}
    requires InSlot(n.keys, i, key)
    ensures IsBTree(n.(children := n.children[i := c]), maxKeys)
    ensures Height(n.(children := n.children[i := c])) == Height(n)
    ensures Contents(n.(children := n.children[i := c])) == Contents(n) + multiset{key}
  {
    var r := n.(children := n.children[i := c]);
    ChildIsBTree(n, maxKeys, i);
    ReplaceChildShape(n, maxKeys, i, c);
    assert WellShaped(r, maxKeys);
    ReplaceChildOrdered(n, i, c, key);
    assert Ordered(r);
    assert !n.leaf;
    BalancedHeight(c, maxKeys, Height(c));
    ReplaceChildBalanced(n, Height(n), i, c);
    assert Balanced(r, Height(n));
    BalancedHeight(r, maxKeys, Height(n));
    assert Height(r) == Height(n);
    ContentsOfAllUpdate(n.children, i, c, key);
  }

  lemma ReplaceChildShape(n: Node, maxKeys: int, i: nat, c: Node)
    requires WellShaped(n, maxKeys) && i < |n.children| && WellShaped(c, maxKeys)
    ensures WellShaped(n.(children := n.children[i := c]), maxKeys)
  {
    var r := n.(children := n.children[i := c]);
    forall j | 0 <= j < |r.children|
      ensures WellShaped(r.children[j], maxKeys)
    {
      if j != i { assert r.children[j] == n.children[j]; }
    }
  }

  lemma ReplaceChildOrdered(n: Node, i: nat, c: Node, key: int)
    requires Ordered(n) && i < |n.children| && Ordered(c)
    requires Contents(c) == Contents(n.children[i]) + multiset{key}
    requires InSlot(n.keys, i, key)
    ensures Ordered(n.(children := n.children[i := c]))
  {
    var r := n.(children := n.children[i := c]);
    forall j | 0 <= j < |r.children|
      ensures Ordered(r.children[j]) && SubtreeInSlot(r.children[j], r.keys, j)
    {
      if j != i {
        assert r.children[j] == n.children[j];
      } else {
        assert SubtreeInSlot(n.children[i], n.keys, i);
        forall k | k in Contents(c) ensures InSlot(r.keys, i, k) {
          if k != key { assert k in Contents(n.children[i]); }
        }
      }
    }
  }

  lemma ReplaceChildBalanced(n: Node, h: nat, i: nat, c: Node)
    requires Balanced(n, h) && !n.leaf && i < |n.children| && Balanced(c, h - 1)
    ensures Balanced(n.(children := n.children[i := c]), h)
  {
    var r := n.(children := n.children[i := c]);
    forall j | 0 <= j < |r.children|
      ensures Balanced(r.children[j], h - 1)
    {
      if j != i { assert r.children[j] == n.children[j]; }
    }
  }

  // ---------------------------------------------------------------------
  // Distinct keys
  // ---------------------------------------------------------------------

  /** Every key occurs at most once. */
  ghost predicate NoRepeats(m: multiset<int>)
  {
    forall k :: k in m ==> m[k] == 1
  }

  /** Keys in strictly increasing order. */
  ghost predicate StrictlySorted(s: seq<int>)
  {
    forall a, b :: 0 <= a < b < |s| ==> s[a] < s[b]
  }

  /** `k` lies strictly between the neighbouring keys of slot `j` of `keys`. */
  ghost predicate InOpenSlot(keys: seq<int>, j: int, k: int)
  {
    (0 < j <= |keys| ==> keys[j - 1] < k) && (0 <= j < |keys| ==> k < keys[j])
  }

  /** Every key of subtree `c` lies strictly inside the range of slot `j` of `keys`. */
  ghost predicate SubtreeInOpenSlot(c: Node, keys: seq<int>, j: int)
  {
    forall k :: k in Contents(c) ==> InOpenSlot(keys, j, k)
  }

  /**
   * The strict search-tree order: strictly increasing keys in every node,
   * and every subtree strictly between the keys that bound its slot.
   */
  ghost predicate StrictlyOrdered(n: Node)
    decreases n
  {
    StrictlySorted(n.keys) &&
    forall j :: 0 <= j < |n.children| ==> StrictlyOrdered(n.children[j]) && SubtreeInOpenSlot(n.children[j], n.keys, j)
  }

  /** Two equal entries of a sequence make its key occur at least twice. */
  lemma RepeatedEntry(s: seq<int>, a: nat, b: nat)
    requires a < b < |s|
    ensures s[a] == s[b] ==> multiset(s)[s[a]] >= 2
  {
    assert s == s[..b] + s[b..];
    assert s[..b][a] == s[a] && s[b..][0] == s[b];
  }

  /** The keys of a subtree are among the keys of its parent. */
  lemma ChildContentsWithin(n: Node, j: nat)
    requires j < |n.children|
    ensures Contents(n.children[j]) <= Contents(n)
  {
    ContentsOfAllSlot(n.children, j);
  }

  /** A key of a node that also lies in one of its subtrees occurs at least twice in the node's subtree. */
  lemma KeyAlsoInSubtree(n: Node, j: nat, k: int)
    requires j < |n.children| && k in Contents(n.children[j])
    ensures k in n.keys ==> Contents(n)[k] >= 2
  {
    ContentsOfAllSlot(n.children, j);
    assert ContentsOfAll(n.children)[k] >= 1;
  }

  /**
   * In an ordered tree in which no key occurs twice, the non-strict order
   * is strict: every node's keys increase strictly, and every subtree lies
   * strictly between the keys that bound its slot.
   */
  lemma {:induction false} DistinctStrictlyOrdered(n: Node)
    requires Ordered(n) && NoRepeats(Contents(n))
    ensures StrictlyOrdered(n)
    decreases n
  {
    forall a, b | 0 <= a < b < |n.keys|
      ensures n.keys[a] < n.keys[b]
    {
      RepeatedEntry(n.keys, a, b);
      assert n.keys[a] in Contents(n);
    }
    forall j | 0 <= j < |n.children|
      ensures StrictlyOrdered(n.children[j]) && SubtreeInOpenSlot(n.children[j], n.keys, j)
    {
      var c := n.children[j];
      ChildContentsWithin(n, j);
      forall k | k in Contents(c) ensures Contents(c)[k] == 1 {
        assert Contents(c)[k] <= Contents(n)[k];
      }
      DistinctStrictlyOrdered(c);
      forall k | k in Contents(c) ensures InOpenSlot(n.keys, j, k) {
        assert InSlot(n.keys, j, k);
        KeyAlsoInSubtree(n, j, k);
        if 0 < j <= |n.keys| {
          assert n.keys[j - 1] in n.keys;
        }
        if j < |n.keys| {
          assert n.keys[j] in n.keys;
        }
      }
    }
  }

  /** Adding a key that is not yet present to keys without repeats leaves no repeats. */
  lemma FreshKeyNoRepeats(m: multiset<int>, key: int)
    requires NoRepeats(m) && key !in m
    ensures NoRepeats(m + multiset{key})
  {
    forall k | k in m + multiset{key} ensures (m + multiset{key})[k] == 1 {
      if k == key {
        assert m[k] == 0;
      } else {
        assert k in m;
      }
    }
  }
}
