/**
  Removal by key. The node removed is the one search finds first; removing a
  key that search does not find leaves the tree as it was. A node with two
  children is not unlinked itself: it takes the key and value of its in-order
  successor (the leftmost node of its right subtree, which has no left child)
  and that successor is unlinked instead. A node with at most one child is
  replaced by that child, or by nothing.
 */
module Removal {
  import opened KeyOrder
  import opened Trees
  import opened Wrappers
  import opened Lookup
  import Insertion

  /**
    The leftmost node of a non-empty tree, reached by following left links
    (`succNode` when applied to a right subtree). It has no left child and
    holds the first entry of the in-order sequence.
   */
  function LeftmostNode<V>(t: Tree<V>): (m: Tree<V>)
    requires t.Node?
    ensures m.Node? && m.left == Leaf
    ensures m.key in KeySet(t)
    ensures (m.key, m.value) == Inorder(t)[0]
  {
    if t.left == Leaf then t else LeftmostNode(t.left)
  }

  /** Unlinks the leftmost node: the in-order sequence loses its first entry. */
  function RemoveMin<V>(t: Tree<V>): (r: Tree<V>)
    requires t.Node?
    ensures Inorder(r) == Inorder(t)[1..]
  {
    if t.left == Leaf then t.right
    else
      var l' := RemoveMin(t.left);
      assert (Inorder(t.left) + [(t.key, t.value)] + Inorder(t.right))[1..]
          == Inorder(t.left)[1..] + [(t.key, t.value)] + Inorder(t.right);
      Node(l', t.key, t.value, t.right)
  }

  /**
    Removes the root entry of a non-empty tree, in the way `remove(node)` does
    for the node it is given: with two children, the successor's entry moves
    into the root and the successor is unlinked; otherwise the only child (or
    nothing) takes the root's place. Either way the root's entry is deleted
    from the in-order sequence and the rest keeps its order.
   */
  function RemoveRoot<V>(t: Tree<V>): (r: Tree<V>)
    requires t.Node?
    ensures Inorder(r) == Inorder(t.left) + Inorder(t.right)
  {
    if t.left.Node? && t.right.Node? then
      var succ := LeftmostNode(t.right);
      Node(t.left, succ.key, succ.value, RemoveMin(t.right))
    else if t.left.Node? then t.left
    else t.right
  }

  /** `remove(key)`: removes the node that `SearchRecursive(t, k)` finds, if any. */
  function Remove<V>(t: Tree<V>, k: Key): (r: Tree<V>)
    ensures SearchRecursive(t, k).None? ==> r == t
  {
    match t
    case Leaf => Leaf
    case Node(l, nk, nv, rt) =>
      if k == nk then RemoveRoot(t)
      else if Less(k, nk) then Node(Remove(l, k), nk, nv, rt)
      else Node(l, nk, nv, Remove(rt, k))
  }

  /** The position, in the in-order sequence, of the node search finds. */
  function FoundIndex<V>(t: Tree<V>, k: Key): (i: nat)
    requires SearchRecursive(t, k).Some?
    ensures i < Size(t)
  {
    match t
    case Node(l, nk, _, r) =>
      if k == nk then Size(l)
      else if Less(k, nk) then FoundIndex(l, k)
      else Size(l) + 1 + FoundIndex(r, k)
  }

  /**
    On an ordered tree, search stops at the first in-order entry with key `k`:
    the entry at `FoundIndex` is the one search returns, and no earlier entry
    carries `k`. So `search` reads, and `remove(key)` deletes, the first of
    several equal keys.
   */
  lemma {:induction false} FoundIsFirst<V>(t: Tree<V>, k: Key)
    requires Ordered(t) && SearchRecursive(t, k).Some?
    ensures FoundIndex(t, k) < |Inorder(t)|
    ensures Inorder(t)[FoundIndex(t, k)] == (k, SearchRecursive(t, k).value.value)
    ensures forall j | 0 <= j < FoundIndex(t, k) :: Inorder(t)[j].0 != k
  {
    match t
    case Node(l, nk, nv, r) =>
      if k == nk {
        FirstAtRoot(t);
      } else if Less(k, nk) {
        FoundIsFirst(l, k);
        FirstInLeft(t, k, FoundIndex(l, k));
      } else {
        FoundIsFirst(r, k);
        FirstInRight(t, k, FoundIndex(r, k));
      }
  }

  /** No key of the left subtree equals the root key. */
  lemma FirstAtRoot<V>(t: Tree<V>)
    requires t.Node? && AllLess(t.left, t.key)
    ensures Inorder(t)[Size(t.left)] == (t.key, t.value)
    ensures forall j | 0 <= j < Size(t.left) :: Inorder(t)[j].0 != t.key
  {
    var s, L := Inorder(t), Inorder(t.left);
    InorderKeys(t.left);
    forall j | 0 <= j < |L|
      ensures s[j].0 != t.key
    {
      assert s[j] == L[j];
      LessIrreflexive(t.key);
    }
  }

  /** An index into the left subtree keeps its place in the whole sequence. */
  lemma FirstInLeft<V>(t: Tree<V>, k: Key, i: nat)
    requires t.Node? && i < Size(t.left)
    requires forall j | 0 <= j < i :: Inorder(t.left)[j].0 != k
    ensures Inorder(t)[i] == Inorder(t.left)[i]
    ensures forall j | 0 <= j < i :: Inorder(t)[j].0 != k
  {
  }

  /**
    An index into the right subtree moves past the left subtree and the root,
    neither of which holds a key that is not less than the root key.
   */
  lemma FirstInRight<V>(t: Tree<V>, k: Key, i: nat)
    requires t.Node? && AllLess(t.left, t.key) && k != t.key && !Less(k, t.key)
    requires i < Size(t.right)
    requires forall j | 0 <= j < i :: Inorder(t.right)[j].0 != k
    ensures Inorder(t)[Size(t.left) + 1 + i] == Inorder(t.right)[i]
    ensures forall j | 0 <= j < Size(t.left) + 1 + i :: Inorder(t)[j].0 != k
  {
    var s, L, R := Inorder(t), Inorder(t.left), Inorder(t.right);
    assert s[|L| + 1 + i] == R[i];
    InorderKeys(t.left);
    forall j | 0 <= j < |L| + 1 + i
      ensures s[j].0 != k
    {
      if j < |L| {
        assert s[j] == L[j];
      } else if j > |L| {
        assert s[j] == R[j - |L| - 1];
      }
    }
  }

  /** On an ordered tree the leftmost node holds a least key. */
  lemma {:induction false} LeftmostIsLeast<V>(t: Tree<V>)
    requires t.Node? && Ordered(t)
    ensures NoneLess(t, LeftmostNode(t).key)
  {
    var m := LeftmostNode(t).key;
    if t.left != Leaf {
      assert LeftmostNode(t) == LeftmostNode(t.left);
      LeftmostIsLeast(t.left);
      // m < t.key, and every key of the right subtree is >= t.key
      assert m in KeySet(t.left);
      forall x | x in KeySet(t)
        ensures !Less(x, m)
      {
        if x in KeySet(t.left) {
        } else if x == t.key {
          LessAsymmetric(m, t.key);
        } else if x in KeySet(t.right) {
          if Less(x, m) {
            LessTransitive(x, m, t.key);
          }
        }
      }
    } else {
      LessIrreflexive(m);
    }
  }

  lemma {:induction false} RemoveMinKeys<V>(t: Tree<V>)
    requires t.Node?
    ensures KeySet(RemoveMin(t)) <= KeySet(t)
    ensures KeyBag(RemoveMin(t)) + multiset{LeftmostNode(t).key} == KeyBag(t)
  {
    if t.left != Leaf {
      RemoveMinKeys(t.left);
    }
  }

  lemma {:induction false} RemoveMinOrdered<V>(t: Tree<V>)
    requires t.Node? && Ordered(t)
    ensures Ordered(RemoveMin(t))
  {
    if t.left != Leaf {
      RemoveMinOrdered(t.left);
      RemoveMinKeys(t.left);
    }
  }

  lemma RemoveRootKeySet<V>(t: Tree<V>)
    requires t.Node?
    ensures KeySet(RemoveRoot(t)) <= KeySet(t)
  {
    if t.left.Node? && t.right.Node? {
      RemoveMinKeys(t.right);
    }
  }

  lemma RemoveRootKeyBag<V>(t: Tree<V>)
    requires t.Node?
    ensures KeyBag(RemoveRoot(t)) + multiset{t.key} == KeyBag(t)
  {
    if t.left.Node? && t.right.Node? {
      var m := LeftmostNode(t.right).key;
      RemoveMinKeys(t.right);
      assert KeyBag(RemoveRoot(t)) == KeyBag(t.left) + multiset{m} + KeyBag(RemoveMin(t.right));
    }
  }


  /**
    Moving the successor's entry into the root keeps the ordering property:
    it is at least the old root key, so above everything on the left, and it
    is a least key of the right subtree.
   */
  lemma RemoveRootOrdered<V>(t: Tree<V>)
    requires t.Node? && Ordered(t)
    ensures Ordered(RemoveRoot(t))
  {
    if t.left.Node? && t.right.Node? {
      var m := LeftmostNode(t.right).key;
      LeftmostIsLeast(t.right);
      RemoveMinOrdered(t.right);
      RemoveMinKeys(t.right);
      forall x | x in KeySet(t.left)
        ensures Less(x, m)
      {
        LessThenAtMost(x, t.key, m);
      }
    }
  }

  /**
    The two-children case: the node keeps its place and its left subtree and
    takes the entry that follows it in the in-order sequence, which comes from
    a node without a left child.
   */
  lemma RemoveRootTwoChildren<V>(t: Tree<V>)
    requires t.Node? && t.left.Node? && t.right.Node?
    ensures RemoveRoot(t).Node? && RemoveRoot(t).left == t.left
    ensures Size(t.left) + 1 < |Inorder(t)|
    ensures (RemoveRoot(t).key, RemoveRoot(t).value) == Inorder(t)[Size(t.left) + 1]
    ensures LeftmostNode(t.right).left == Leaf
  {
    var m := LeftmostNode(t.right);
    assert RemoveRoot(t) == Node(t.left, m.key, m.value, RemoveMin(t.right));
    assert Inorder(t)[Size(t.left) + 1] == (m.key, m.value) by {
      var L, R := Inorder(t.left), Inorder(t.right);
      assert Inorder(t) == L + [(t.key, t.value)] + R;
      assert Inorder(t)[|L| + 1] == R[0];
    }
  }

  /**
    Removing a key that search finds deletes exactly that node's entry from
    the in-order sequence and keeps every other entry in order.
   */
  ghost predicate RemovesFoundEntry<V>(t: Tree<V>, k: Key)
    requires SearchRecursive(t, k).Some?
  {
    var s, i := Inorder(t), FoundIndex(t, k);
    i < |s|
    && s[i] == (k, SearchRecursive(t, k).value.value)
    && Inorder(Remove(t, k)) == s[..i] + s[i + 1..]
  }

  lemma {:induction false} RemoveInorder<V>(t: Tree<V>, k: Key)
    requires SearchRecursive(t, k).Some?
    ensures RemovesFoundEntry(t, k)
  {
    match t
    case Node(l, nk, nv, r) =>
      if k == nk {
        RemoveInorderHere(t, k);
      } else if Less(k, nk) {
        RemoveInorder(l, k);
        RemoveInorderLeft(t, k);
      } else {
        RemoveInorder(r, k);
        RemoveInorderRight(t, k);
      }
  }

  lemma RemoveInorderHere<V>(t: Tree<V>, k: Key)
    requires t.Node? && k == t.key
    ensures RemovesFoundEntry(t, k)
  {
    var s, L := Inorder(t), Inorder(t.left);
    assert s[..|L|] == L;
    assert s[|L| + 1..] == Inorder(t.right);
  }

  lemma RemoveInorderLeft<V>(t: Tree<V>, k: Key)
    requires t.Node? && k != t.key && Less(k, t.key)
    requires SearchRecursive(t.left, k).Some? && RemovesFoundEntry(t.left, k)
    ensures RemovesFoundEntry(t, k)
  {
    var rest := [(t.key, t.value)] + Inorder(t.right);
    var j := FoundIndex(t.left, k);
    assert FoundIndex(t, k) == j;
    assert Remove(t, k) == Node(Remove(t.left, k), t.key, t.value, t.right);
    assert Inorder(t) == Inorder(t.left) + rest;
    assert Inorder(Remove(t, k)) == Inorder(Remove(t.left, k)) + rest;
    DeleteFromPrefix(Inorder(t.left), rest, j);
  }

  lemma RemoveInorderRight<V>(t: Tree<V>, k: Key)
    requires t.Node? && k != t.key && !Less(k, t.key)
    requires SearchRecursive(t.right, k).Some? && RemovesFoundEntry(t.right, k)
    ensures RemovesFoundEntry(t, k)
  {
    var front := Inorder(t.left) + [(t.key, t.value)];
    var j := FoundIndex(t.right, k);
    assert FoundIndex(t, k) == |front| + j;
    assert Inorder(t) == front + Inorder(t.right);
    assert Inorder(Remove(t, k)) == front + Inorder(Remove(t.right, k));
    DeleteFromSuffix(front, Inorder(t.right), j);
  }

  lemma DeleteFromPrefix<T>(a: seq<T>, b: seq<T>, i: nat)
    requires i < |a|
    ensures (a[..i] + a[i + 1..]) + b == (a + b)[..i] + (a + b)[i + 1..]
    ensures (a + b)[i] == a[i]
  {
    assert (a + b)[..i] == a[..i];
    assert (a + b)[i + 1..] == a[i + 1..] + b;
  }

  lemma DeleteFromSuffix<T>(a: seq<T>, b: seq<T>, i: nat)
    requires i < |b|
    ensures a + (b[..i] + b[i + 1..]) == (a + b)[..|a| + i] + (a + b)[|a| + i + 1..]
    ensures (a + b)[|a| + i] == b[i]
  {
    assert (a + b)[..|a| + i] == a + b[..i];
    assert (a + b)[|a| + i + 1..] == b[i + 1..];
  }

  /** Removing a found key deletes exactly one entry: the one search returned. */
  lemma RemoveEntries<V>(t: Tree<V>, k: Key)
    requires SearchRecursive(t, k).Some?
    ensures Entries(Remove(t, k)) + multiset{(k, SearchRecursive(t, k).value.value)} == Entries(t)
  {
    RemoveInorder(t, k);
    InorderEntries(t);
    InorderEntries(Remove(t, k));
    DeleteMultiset(Inorder(t), FoundIndex(t, k));
  }

  lemma DeleteMultiset<T>(s: seq<T>, i: nat)
    requires i < |s|
    ensures multiset(s[..i] + s[i + 1..]) + multiset{s[i]} == multiset(s)
  {
    assert s == s[..i] + [s[i]] + s[i + 1..];
  }

  lemma {:induction false} RemoveKeys<V>(t: Tree<V>, k: Key)
    requires SearchRecursive(t, k).Some?
    ensures KeySet(Remove(t, k)) <= KeySet(t)
    ensures KeyBag(Remove(t, k)) + multiset{k} == KeyBag(t)
  {
    match t
    case Node(l, nk, nv, r) =>
      if k == nk {
        RemoveRootKeySet(t);
        RemoveRootKeyBag(t);
      } else if Less(k, nk) {
        RemoveKeys(l, k);
      } else {
        RemoveKeys(r, k);
      }
  }

  /** Removal keeps the ordering property. */
  lemma {:induction false} RemoveOrdered<V>(t: Tree<V>, k: Key)
    requires Ordered(t)
    ensures Ordered(Remove(t, k))
  {
    match t
    case Leaf =>
    case Node(l, nk, nv, r) =>
      if k == nk {
        RemoveRootOrdered(t);
      } else if Less(k, nk) {
        RemoveOrdered(l, k);
        if SearchRecursive(l, k).Some? {
          RemoveKeys(l, k);
        }
      } else {
        RemoveOrdered(r, k);
        if SearchRecursive(r, k).Some? {
          RemoveKeys(r, k);
        }
      }
  }

  /**
    Removing a key that is absent changes nothing, so in particular the
    in-order sequence and the height stay the same.
   */
  lemma RemoveAbsent<V>(t: Tree<V>, k: Key)
    requires Ordered(t) && k !in KeySet(t)
    ensures Remove(t, k) == t
    ensures Inorder(Remove(t, k)) == Inorder(t) && Height(Remove(t, k)) == Height(t)
  {
  }

  /**
    Removing a key right after inserting it gives back the keys the tree
    held before: the insertion adds one occurrence of k, and search is sure
    to find a node with key k, whose removal takes one occurrence away.
   */
  lemma InsertThenRemoveKeys<V>(t: Tree<V>, k: Key, v: V)
    ensures KeyBag(Remove(Insertion.Insert(t, k, v), k)) == KeyBag(t)
  {
    var t' := Insertion.Insert(t, k, v);
    Insertion.SearchAfterInsert(t, k, v);
    assert SearchRecursive(t', k).Some?;
    RemoveKeys(t', k);
    Insertion.InsertKeyBag(t, k, v);
    MultisetCancel(KeyBag(Remove(t', k)), KeyBag(t), k);
  }

  /** Removes the given keys one at a time, in order. */
  function RemoveEach<V>(t: Tree<V>, ks: seq<Key>): Tree<V>
    decreases |ks|
  {
    if |ks| == 0 then t else RemoveEach(Remove(t, ks[0]), ks[1..])
  }

  /**
    Removing every stored key, one at a time and in any order, empties the
    tree, leaving height -1.
   */
  lemma {:induction false} RemoveEachEmpties<V>(t: Tree<V>, ks: seq<Key>)
    requires Ordered(t) && multiset(ks) == KeyBag(t)
    ensures RemoveEach(t, ks) == Leaf
    ensures Height(RemoveEach(t, ks)) == -1
    decreases |ks|
  {
    KeyBagSupport(t);
    if |ks| == 0 {
      assert t == Leaf;
    } else {
      var k, rest := ks[0], ks[1..];
      assert ks == [k] + rest;
      assert multiset(ks) == multiset{k} + multiset(rest);
      assert k in KeySet(t);
      RemoveKeys(t, k);
      MultisetCancel(KeyBag(Remove(t, k)), multiset(rest), k);
      RemoveOrdered(t, k);
      RemoveEachEmpties(Remove(t, k), rest);
    }
  }

  lemma MultisetCancel<T>(a: multiset<T>, b: multiset<T>, x: T)
    requires a + multiset{x} == multiset{x} + b
    ensures a == b
  {
    forall y
      ensures a[y] == b[y]
    {
      assert (a + multiset{x})[y] == (multiset{x} + b)[y];
    }
  }
}
