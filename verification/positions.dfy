/**
  Positions in a tree, named by the path of left/right steps from the root.
  The linked layer needs them to say where a pointer operation acts: the null
  slot an insertion fills, the node a removal unlinks, the successor the
  two-children case unlinks instead.
 */
module Positions {
  import opened KeyOrder
  import opened Trees
  import opened Lookup
  import opened Insertion
  import opened Removal

  datatype Side = Left | Right

  type Path = seq<Side>

  function Child<V>(t: Tree<V>, d: Side): Tree<V>
    requires t.Node?
  {
    if d == Left then t.left else t.right
  }

  /** `t` with its child on side d replaced by c. */
  function WithChild<V>(t: Tree<V>, d: Side, c: Tree<V>): Tree<V>
    requires t.Node?
  {
    if d == Left then Node(c, t.key, t.value, t.right) else Node(t.left, t.key, t.value, c)
  }

  /** Every step of the path but possibly the last leaves from a node. */
  ghost predicate OnTree<V>(t: Tree<V>, p: Path)
    decreases |p|
  {
    |p| == 0 || (t.Node? && OnTree(Child(t, p[0]), p[1..]))
  }

  function SubAt<V>(t: Tree<V>, p: Path): Tree<V>
    requires OnTree(t, p)
    decreases |p|
  {
    if |p| == 0 then t else SubAt(Child(t, p[0]), p[1..])
  }

  function ReplaceAt<V>(t: Tree<V>, p: Path, s: Tree<V>): Tree<V>
    requires OnTree(t, p)
    decreases |p|
  {
    if |p| == 0 then s else WithChild(t, p[0], ReplaceAt(Child(t, p[0]), p[1..], s))
  }

  /** Walking p then q is walking p + q. */
  lemma {:induction false} SubAtAppend<V>(t: Tree<V>, p: Path, q: Path)
    requires OnTree(t, p) && OnTree(SubAt(t, p), q)
    ensures OnTree(t, p + q)
    ensures SubAt(t, p + q) == SubAt(SubAt(t, p), q)
    decreases |p|
  {
    if |p| > 0 {
      assert (p + q)[0] == p[0] && (p + q)[1..] == p[1..] + q;
      SubAtAppend(Child(t, p[0]), p[1..], q);
    } else {
      assert p + q == q;
    }
  }

  /** Replacing below p + q is replacing at p with a tree changed below q. */
  lemma {:induction false} ReplaceAtAppend<V>(t: Tree<V>, p: Path, q: Path, s: Tree<V>)
    requires OnTree(t, p) && OnTree(SubAt(t, p), q)
    ensures OnTree(t, p + q)
    ensures ReplaceAt(t, p + q, s) == ReplaceAt(t, p, ReplaceAt(SubAt(t, p), q, s))
    decreases |p|
  {
    SubAtAppend(t, p, q);
    if |p| > 0 {
      assert (p + q)[0] == p[0] && (p + q)[1..] == p[1..] + q;
      ReplaceAtAppend(Child(t, p[0]), p[1..], q, s);
    } else {
      assert p + q == q;
    }
  }

  /** A second replacement below the first one only changes the first replacement. */
  lemma {:induction false} ReplaceWithin<V>(t: Tree<V>, p: Path, a: Tree<V>, q: Path, s: Tree<V>)
    requires OnTree(t, p) && OnTree(a, q)
    ensures OnTree(ReplaceAt(t, p, a), p + q)
    ensures ReplaceAt(ReplaceAt(t, p, a), p + q, s) == ReplaceAt(t, p, ReplaceAt(a, q, s))
    decreases |p|
  {
    if |p| > 0 {
      assert (p + q)[0] == p[0] && (p + q)[1..] == p[1..] + q;
      ReplaceWithin(Child(t, p[0]), p[1..], a, q, s);
    } else {
      assert p + q == q;
    }
  }

  lemma {:induction false} ReplaceAtLands<V>(t: Tree<V>, p: Path, s: Tree<V>)
    requires OnTree(t, p)
    ensures OnTree(ReplaceAt(t, p, s), p) && SubAt(ReplaceAt(t, p, s), p) == s
    decreases |p|
  {
    if |p| > 0 {
      ReplaceAtLands(Child(t, p[0]), p[1..], s);
    }
  }

  /** Replacing the subtree at p changes the size by the difference of the two subtrees. */
  lemma {:induction false} ReplaceAtSize<V>(t: Tree<V>, p: Path, s: Tree<V>)
    requires OnTree(t, p)
    ensures Size(ReplaceAt(t, p, s)) + Size(SubAt(t, p)) == Size(t) + Size(s)
    decreases |p|
  {
    if |p| > 0 {
      ReplaceAtSize(Child(t, p[0]), p[1..], s);
    }
  }

  /** The descent `insert` makes: it ends at the empty slot the new node fills. */
  function InsertPath<V>(t: Tree<V>, k: Key): (p: Path)
    ensures OnTree(t, p) && SubAt(t, p) == Leaf
  {
    match t
    case Leaf => []
    case Node(l, nk, _, r) =>
      if Less(k, nk) then [Left] + InsertPath(l, k) else [Right] + InsertPath(r, k)
  }

  /** Insertion puts a new leaf node into the empty slot its descent ends at. */
  lemma {:induction false} InsertAtPath<V>(t: Tree<V>, k: Key, v: V)
    ensures Insert(t, k, v) == ReplaceAt(t, InsertPath(t, k), Node(Leaf, k, v, Leaf))
  {
    match t
    case Leaf =>
    case Node(l, nk, _, r) =>
      var p := InsertPath(t, k);
      if Less(k, nk) {
        InsertAtPath(l, k, v);
        assert p[0] == Left && p[1..] == InsertPath(l, k);
      } else {
        InsertAtPath(r, k, v);
        assert p[0] == Right && p[1..] == InsertPath(r, k);
      }
  }

  /** The descent search makes to the node it finds. */
  function SearchPath<V>(t: Tree<V>, k: Key): (p: Path)
    requires SearchRecursive(t, k).Some?
    ensures OnTree(t, p) && SubAt(t, p) == SearchRecursive(t, k).value
  {
    match t
    case Node(l, nk, _, r) =>
      if k == nk then []
      else if Less(k, nk) then [Left] + SearchPath(l, k)
      else [Right] + SearchPath(r, k)
  }

  /** Removal replaces the found node's subtree by that subtree without its root entry. */
  lemma {:induction false} RemoveAtPath<V>(t: Tree<V>, k: Key)
    requires SearchRecursive(t, k).Some?
    ensures Remove(t, k) == ReplaceAt(t, SearchPath(t, k), RemoveRoot(SearchRecursive(t, k).value))
  {
    match t
    case Node(l, nk, _, r) =>
      var p := SearchPath(t, k);
      if k == nk {
      } else if Less(k, nk) {
        RemoveAtPath(l, k);
        assert p[0] == Left && p[1..] == SearchPath(l, k);
      } else {
        RemoveAtPath(r, k);
        assert p[0] == Right && p[1..] == SearchPath(r, k);
      }
  }

  /** The all-left descent to the leftmost node. */
  function LeftPath<V>(t: Tree<V>): (p: Path)
    requires t.Node?
    ensures OnTree(t, p) && SubAt(t, p) == LeftmostNode(t)
    ensures forall i | 0 <= i < |p| :: p[i] == Left
    decreases t
  {
    if t.left == Leaf then [] else [Left] + LeftPath(t.left)
  }

  /** Removing the minimum unlinks the leftmost node, putting its right subtree in its place. */
  lemma {:induction false} RemoveMinAtPath<V>(t: Tree<V>)
    requires t.Node?
    ensures RemoveMin(t) == ReplaceAt(t, LeftPath(t), LeftmostNode(t).right)
    decreases t
  {
    if t.left != Leaf {
      RemoveMinAtPath(t.left);
      var p := LeftPath(t);
      assert p[0] == Left && p[1..] == LeftPath(t.left);
    }
  }

  /** The last step of a path leaves from a node, and lands on that node's child. */
  lemma {:induction false} SubAtSnoc<V>(t: Tree<V>, p: Path, d: Side)
    requires OnTree(t, p + [d])
    ensures OnTree(t, p) && SubAt(t, p).Node? && SubAt(t, p + [d]) == Child(SubAt(t, p), d)
    decreases |p|
  {
    if |p| > 0 {
      assert (p + [d])[0] == p[0] && (p + [d])[1..] == p[1..] + [d];
      SubAtSnoc(Child(t, p[0]), p[1..], d);
    } else {
      assert p + [d] == [d];
    }
  }

  /** One more left step of the successor walk keeps the rest of the all-left descent ahead. */
  lemma LeftPathStep<V>(r: Tree<V>, q: Path)
    requires r.Node? && OnTree(r, q) && SubAt(r, q).Node? && SubAt(r, q).left.Node?
    requires LeftPath(r) == q + LeftPath(SubAt(r, q))
    ensures OnTree(r, q + [Left]) && SubAt(r, q + [Left]) == SubAt(r, q).left
    ensures LeftPath(r) == q + [Left] + LeftPath(SubAt(r, q + [Left]))
  {
    var m := SubAt(r, q);
    SubAtAppend(r, q, [Left]);
    assert LeftPath(m) == [Left] + LeftPath(m.left);
    assert q + [Left] + LeftPath(m.left) == q + ([Left] + LeftPath(m.left));
  }

  /**
    The two-children case of removal, stated on positions: writing the
    successor's entry into the node at p and then unlinking the successor
    (the leftmost node of the right subtree, reached by one right step and the
    all-left descent) removes the node's entry as `RemoveRoot` does.
   */
  lemma SuccessorRemoval<V>(t: Tree<V>, p: Path)
    requires OnTree(t, p) && SubAt(t, p).Node? && SubAt(t, p).left.Node? && SubAt(t, p).right.Node?
    ensures var sub := SubAt(t, p);
      var m := LeftmostNode(sub.right);
      var t1 := ReplaceAt(t, p, Node(sub.left, m.key, m.value, sub.right));
      && OnTree(t1, p + [Right] + LeftPath(sub.right))
      && SubAt(t1, p + [Right] + LeftPath(sub.right)) == m
      && ReplaceAt(t1, p + [Right] + LeftPath(sub.right), m.right) == ReplaceAt(t, p, RemoveRoot(sub))
  {
    var sub := SubAt(t, p);
    var r := sub.right;
    var m := LeftmostNode(r);
    var lp := LeftPath(r);
    var n1 := Node(sub.left, m.key, m.value, r);
    var q := [Right] + lp;
    assert q[0] == Right && q[1..] == lp;
    assert OnTree(n1, q) && SubAt(n1, q) == m;
    ReplaceAtLands(t, p, n1);
    var t1 := ReplaceAt(t, p, n1);
    SubAtAppend(t1, p, q);
    assert p + [Right] + lp == p + q;
    ReplaceWithin(t, p, n1, q, m.right);
    RemoveMinAtPath(r);
    assert ReplaceAt(n1, q, m.right) == RemoveRoot(sub);
  }
}
