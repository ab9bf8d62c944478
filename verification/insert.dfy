/**
  Insertion. A new node always becomes a leaf: the descent goes left when the
  new key is strictly less than the node's key and right otherwise, so an
  equal key lands in the right subtree, after the entries already stored with
  that key.
 */
module Insertion {
  import opened KeyOrder
  import opened Trees
  import opened Wrappers
  import opened Lookup

  /**
    The recursive insertion, also what `insert` does on an empty tree (the new
    node becomes the root).
   */
  function Insert<V>(t: Tree<V>, k: Key, v: V): (r: Tree<V>)
    ensures Size(r) == Size(t) + 1
  {
    match t
    case Leaf => Node(Leaf, k, v, Leaf)
    case Node(l, nk, nv, rt) =>
      if Less(k, nk) then Node(Insert(l, k, v), nk, nv, rt)
      else Node(l, nk, nv, Insert(rt, k, v))
  }

  /** Insertion adds exactly the entry (k, v) and nothing else. */
  lemma {:induction false} InsertEntries<V>(t: Tree<V>, k: Key, v: V)
    ensures Entries(Insert(t, k, v)) == Entries(t) + multiset{(k, v)}
  {
    match t
    case Leaf =>
    case Node(l, nk, nv, r) =>
      if Less(k, nk) {
        InsertEntries(l, k, v);
      } else {
        InsertEntries(r, k, v);
      }
  }

  /** Insertion adds one occurrence of k to the keys. */
  lemma {:induction false} InsertKeyBag<V>(t: Tree<V>, k: Key, v: V)
    ensures KeyBag(Insert(t, k, v)) == KeyBag(t) + multiset{k}
  {
    match t
    case Leaf =>
    case Node(l, nk, nv, r) =>
      if Less(k, nk) {
        InsertKeyBag(l, k, v);
      } else {
        InsertKeyBag(r, k, v);
      }
  }

  lemma {:induction false} InsertKeySet<V>(t: Tree<V>, k: Key, v: V)
    ensures KeySet(Insert(t, k, v)) == KeySet(t) + {k}
  {
    match t
    case Leaf =>
    case Node(l, nk, nv, r) =>
      if Less(k, nk) {
        InsertKeySet(l, k, v);
      } else {
        InsertKeySet(r, k, v);
      }
  }

  /**
    Insertion keeps the ordering property: the descent sends k left only below
    a node whose key is strictly greater, and right only below a node whose key
    is less than or equal to it.
   */
  lemma {:induction false} InsertOrdered<V>(t: Tree<V>, k: Key, v: V)
    requires Ordered(t)
    ensures Ordered(Insert(t, k, v))
  {
    match t
    case Leaf =>
    case Node(l, nk, nv, r) =>
      if Less(k, nk) {
        InsertOrdered(l, k, v);
        InsertKeySet(l, k, v);
      } else {
        InsertOrdered(r, k, v);
        InsertKeySet(r, k, v);
      }
  }

  /** The position, in the in-order sequence, at which insertion places its entry. */
  function InsertionIndex<V>(t: Tree<V>, k: Key): (i: nat)
    ensures i <= Size(t)
  {
    match t
    case Leaf => 0
    case Node(l, nk, _, r) =>
      if Less(k, nk) then InsertionIndex(l, k)
      else Size(l) + 1 + InsertionIndex(r, k)
  }

  /**
    Insertion splices the new entry into the in-order sequence, at
    `InsertionIndex`, and changes nothing else in it.
   */
  lemma {:induction false} InsertInorder<V>(t: Tree<V>, k: Key, v: V)
    ensures InsertionIndex(t, k) <= |Inorder(t)|
    ensures Inorder(Insert(t, k, v))
         == Inorder(t)[..InsertionIndex(t, k)] + [(k, v)] + Inorder(t)[InsertionIndex(t, k)..]
  {
    match t
    case Leaf =>
    case Node(l, nk, nv, r) =>
      var L, R := Inorder(l), Inorder(r);
      assert Inorder(t) == L + ([(nk, nv)] + R);
      if Less(k, nk) {
        var il := InsertionIndex(l, k);
        assert InsertionIndex(t, k) == il;
        InsertInorder(l, k, v);
        assert Inorder(Insert(t, k, v)) == Inorder(Insert(l, k, v)) + ([(nk, nv)] + R);
        SpliceIntoPrefix(L, [(nk, nv)] + R, il, (k, v));
      } else {
        var ir := InsertionIndex(r, k);
        assert InsertionIndex(t, k) == |L| + 1 + ir;
        InsertInorder(r, k, v);
        assert Inorder(Insert(t, k, v)) == (L + [(nk, nv)]) + Inorder(Insert(r, k, v));
        SpliceIntoSuffix(L + [(nk, nv)], R, ir, (k, v));
      }
  }

  lemma SpliceIntoPrefix<T>(a: seq<T>, b: seq<T>, i: nat, x: T)
    requires i <= |a|
    ensures (a[..i] + [x] + a[i..]) + b == (a + b)[..i] + [x] + (a + b)[i..]
  {
    assert (a + b)[..i] == a[..i];
    assert (a + b)[i..] == a[i..] + b;
  }

  lemma SpliceIntoSuffix<T>(a: seq<T>, b: seq<T>, i: nat, x: T)
    requires i <= |b|
    ensures a + (b[..i] + [x] + b[i..]) == (a + b)[..|a| + i] + [x] + (a + b)[|a| + i..]
  {
    assert (a + b)[..|a| + i] == a + b[..i];
    assert (a + b)[|a| + i..] == b[i..];
  }

  /**
    On an ordered tree, the insertion index separates the entries whose key is
    less than or equal to k from those whose key is greater: a new entry goes
    after every entry already stored with an equal key.
   */
  lemma {:induction false} InsertionIndexSplits<V>(t: Tree<V>, k: Key)
    requires Ordered(t)
    ensures var s, i := Inorder(t), InsertionIndex(t, k);
      i <= |s|
      && (forall j | 0 <= j < i :: !Less(k, s[j].0))
      && (forall j | i <= j < |s| :: Less(k, s[j].0))
  {
    match t
    case Leaf =>
    case Node(l, nk, nv, r) =>
      InsertionIndexSplits(l, k);
      InsertionIndexSplits(r, k);
      InorderKeys(l);
      InorderKeys(r);
      var s, L, R := Inorder(t), Inorder(l), Inorder(r);
      var i := InsertionIndex(t, k);
      forall j | 0 <= j < i
        ensures !Less(k, s[j].0)
      {
        if j < |L| {
          assert s[j] == L[j];
          if !Less(k, nk) && Less(k, s[j].0) {
            LessTransitive(k, s[j].0, nk);
          }
        } else if j > |L| {
          assert s[j] == R[j - |L| - 1];
        }
      }
      forall j | i <= j < |s|
        ensures Less(k, s[j].0)
      {
        if j < |L| {
          assert s[j] == L[j];
        } else if j > |L| {
          assert s[j] == R[j - |L| - 1];
          if Less(k, nk) {
            LessThenAtMost(k, nk, s[j].0);
          }
        }
      }
  }

  /** Whatever the insertion order, an in-order traversal stays sorted by key. */
  lemma InsertKeepsSorted<V>(t: Tree<V>, k: Key, v: V)
    requires Ordered(t)
    ensures SortedByKey(Inorder(Insert(t, k, v)))
  {
    InsertOrdered(t, k, v);
    InorderSorted(Insert(t, k, v));
  }

  /**
    Searching for k after inserting it: if a node with key k was already found
    before, it still shadows the new one (the new node lands deeper, in a right
    subtree); otherwise the search now finds the inserted value.
   */
  lemma {:induction false} SearchAfterInsert<V>(t: Tree<V>, k: Key, v: V)
    ensures Search(Insert(t, k, v), k) == if Search(t, k).Success? then Search(t, k) else Success(v)
  {
    match t
    case Leaf =>
    case Node(l, nk, nv, r) =>
      if k == nk {
        LessIrreflexive(k);
      } else if Less(k, nk) {
        SearchAfterInsert(l, k, v);
      } else {
        SearchAfterInsert(r, k, v);
      }
  }

  /** After inserting a key not previously present, search returns the inserted value. */
  lemma SearchFindsNewKey<V>(t: Tree<V>, k: Key, v: V)
    requires k !in KeySet(t)
    ensures Search(Insert(t, k, v), k) == Success(v)
  {
    SearchAfterInsert(t, k, v);
  }
}
