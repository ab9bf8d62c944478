/**
  The binary search tree as an immutable inductive value.

  `Node(left, key, value, right)` plays the role of a heap node whose `left_` and
  `right_` pointers own the two subtrees; `Leaf` plays the role of a null
  pointer. Parent links are not stored here: in this layer a node's parent is
  simply the node whose subtree it is. The linked layer (module LinkedTree)
  stores them explicitly and relates itself back to this one.
 */
module Trees {
  import opened KeyOrder

  datatype Tree<V> = Leaf | Node(left: Tree<V>, key: Key, value: V, right: Tree<V>)

  function Size<V>(t: Tree<V>): nat
  {
    match t
    case Leaf => 0
    case Node(l, _, _, r) => Size(l) + 1 + Size(r)
  }

  /** Every (key, value) entry stored in the tree, with multiplicity. */
  ghost function Entries<V>(t: Tree<V>): multiset<(Key, V)>
  {
    match t
    case Leaf => multiset{}
    case Node(l, k, v, r) => Entries(l) + multiset{(k, v)} + Entries(r)
  }

  /** Every key stored in the tree, with multiplicity. */
  ghost function KeyBag<V>(t: Tree<V>): multiset<Key>
  {
    match t
    case Leaf => multiset{}
    case Node(l, k, _, r) => KeyBag(l) + multiset{k} + KeyBag(r)
  }

  ghost function KeySet<V>(t: Tree<V>): set<Key>
  {
    match t
    case Leaf => {}
    case Node(l, k, _, r) => KeySet(l) + {k} + KeySet(r)
  }

  /** Every key of `t` is strictly less than `k`. */
  ghost predicate AllLess<V>(t: Tree<V>, k: Key)
  {
    forall x | x in KeySet(t) :: Less(x, k)
  }

  /** Every key of `t` is greater than or equal to `k`. */
  ghost predicate NoneLess<V>(t: Tree<V>, k: Key)
  {
    forall x | x in KeySet(t) :: !Less(x, k)
  }

  /**
    The ordering property with duplicates allowed: every key of a node's left
    subtree is strictly less than the node's key, and every key of its right
    subtree is greater than or equal to it.
   */
  ghost predicate Ordered<V>(t: Tree<V>)
  {
    match t
    case Leaf => true
    case Node(l, k, _, r) => AllLess(l, k) && NoneLess(r, k) && Ordered(l) && Ordered(r)
  }

  /** The entries in the order an in-order traversal visits (and prints) them, one per node. */
  function Inorder<V>(t: Tree<V>): (s: seq<(Key, V)>)
    ensures |s| == Size(t)
  {
    match t
    case Leaf => []
    case Node(l, k, v, r) => Inorder(l) + [(k, v)] + Inorder(r)
  }

  /** Keys never decrease along `s`. */
  ghost predicate SortedByKey<V>(s: seq<(Key, V)>)
  {
    forall i, j | 0 <= i < j < |s| :: !Less(s[j].0, s[i].0)
  }

  /** Edge count of the longest root-to-leaf path; -1 for the empty tree. */
  function Height<V>(t: Tree<V>): (h: int)
    ensures h >= -1
    ensures h == -1 <==> t == Leaf
  {
    match t
    case Leaf => -1
    case Node(l, _, _, r) =>
      var hl := Height(l);
      var hr := Height(r);
      1 + (if hl < hr then hr else hl)
  }

  function Pow2(n: nat): nat
  {
    if n == 0 then 1 else 2 * Pow2(n - 1)
  }

  lemma {:induction false} KeyBagSupport<V>(t: Tree<V>)
    ensures forall k :: k in KeyBag(t) <==> k in KeySet(t)
    ensures |KeyBag(t)| == Size(t)
  {
    match t
    case Leaf =>
    case Node(l, _, _, r) =>
      KeyBagSupport(l);
      KeyBagSupport(r);
  }

  /** The in-order sequence lists exactly the stored entries, each once. */
  lemma {:induction false} InorderEntries<V>(t: Tree<V>)
    ensures multiset(Inorder(t)) == Entries(t)
  {
    match t
    case Leaf =>
    case Node(l, k, v, r) =>
      InorderEntries(l);
      InorderEntries(r);
  }

  lemma {:induction false} InorderKeys<V>(t: Tree<V>)
    ensures forall i | 0 <= i < |Inorder(t)| :: Inorder(t)[i].0 in KeySet(t)
  {
    match t
    case Leaf =>
    case Node(l, k, v, r) =>
      InorderKeys(l);
      InorderKeys(r);
      var L, R := Inorder(l), Inorder(r);
      forall i | 0 <= i < |Inorder(t)|
        ensures Inorder(t)[i].0 in KeySet(t)
      {
        if i < |L| {
          assert Inorder(t)[i] == L[i];
        } else if i > |L| {
          assert Inorder(t)[i] == R[i - |L| - 1];
        }
      }
  }

  /** An ordered tree enumerates its entries in non-decreasing key order. */
  lemma {:induction false} InorderSorted<V>(t: Tree<V>)
    requires Ordered(t)
    ensures SortedByKey(Inorder(t))
  {
    match t
    case Leaf =>
    case Node(l, k, v, r) =>
      InorderSorted(l);
      InorderSorted(r);
      InorderKeys(l);
      InorderKeys(r);
      var s, L, R := Inorder(t), Inorder(l), Inorder(r);
      forall i, j | 0 <= i < j < |s|
        ensures !Less(s[j].0, s[i].0)
      {
        if j < |L| {
          assert s[i] == L[i] && s[j] == L[j];
        } else if j == |L| {
          assert s[i] == L[i];
          LessAsymmetric(L[i].0, k);
        } else if i < |L| {
          assert s[i] == L[i] && s[j] == R[j - |L| - 1];
          if Less(s[j].0, s[i].0) {
            LessTransitive(s[j].0, s[i].0, k);
          }
        } else if i == |L| {
          assert s[j] == R[j - |L| - 1];
        } else {
          assert s[i] == R[i - |L| - 1] && s[j] == R[j - |L| - 1];
        }
      }
  }

  /**
    Height against size: a tree of height h holds at least h + 1 and at most
    2^(h+1) - 1 entries.
   */
  lemma {:induction false} HeightBounds<V>(t: Tree<V>)
    ensures Height(t) + 1 <= Size(t) < Pow2(Height(t) + 1)
  {
    match t
    case Leaf =>
    case Node(l, _, _, r) =>
      HeightBounds(l);
      HeightBounds(r);
      var hl, hr := Height(l), Height(r);
      if hl < hr {
        PowMonotone(hl + 1, hr + 1);
      } else {
        PowMonotone(hr + 1, hl + 1);
      }
  }

  lemma {:induction false} PowMonotone(a: nat, b: nat)
    requires a <= b
    ensures Pow2(a) <= Pow2(b)
    decreases b
  {
    if a < b {
      PowMonotone(a, b - 1);
    }
  }
}
