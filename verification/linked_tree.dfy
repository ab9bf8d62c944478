/**
  The pointer-level tree: nodes with `left_`, `right_` and `parent_` links.

  Nodes live in a store addressed by index, with `Null` (-1) for the null
  pointer; `Linked(cells, root)` is a `BinarySearchTree` object, its `root_`
  and the nodes it owns. `Repr(h, p, parent, t)` says that the node at address
  p, whose parent is `parent`, heads a finite tree of distinct nodes shaped
  like the value `t` of the functional layer, holding the same keys and values,
  and that every child's parent link points back at the node that owns it.
 */
module LinkedTree {
  import opened KeyOrder
  import opened Trees
  import opened Positions

  const Null: int := -1

  datatype Cell<V> = Cell(key: Key, value: V, left: int, right: int, parent: int)

  /** A tree object: the node store and `root_`. */
  datatype Linked<V> = Linked(cells: seq<Cell<V>>, root: int)

  /** The child link on side d. */
  function Slot<V>(c: Cell<V>, d: Side): int
  {
    if d == Left then c.left else c.right
  }

  function SetSlot<V>(c: Cell<V>, d: Side, x: int): (c': Cell<V>)
    ensures Slot(c', d) == x
    ensures Slot(c', if d == Left then Right else Left) == Slot(c, if d == Left then Right else Left)
    ensures c'.key == c.key && c'.value == c.value && c'.parent == c.parent
  {
    if d == Left then c.(left := x) else c.(right := x)
  }

  /** The addresses of the nodes making up the tree headed at p. */
  ghost function Addrs<V>(h: seq<Cell<V>>, p: int, t: Tree<V>): set<int>
    decreases t
  {
    match t
    case Leaf => {}
    case Node(l, _, _, r) =>
      if 0 <= p < |h| then {p} + Addrs(h, h[p].left, l) + Addrs(h, h[p].right, r) else {p}
  }

  ghost predicate Repr<V>(h: seq<Cell<V>>, p: int, parent: int, t: Tree<V>)
    decreases t
  {
    match t
    case Leaf => p == Null
    case Node(l, k, v, r) =>
      && 0 <= p < |h|
      && h[p].key == k && h[p].value == v && h[p].parent == parent
      && Repr(h, h[p].left, p, l)
      && Repr(h, h[p].right, p, r)
      && p !in Addrs(h, h[p].left, l)
      && p !in Addrs(h, h[p].right, r)
      && Addrs(h, h[p].left, l) !! Addrs(h, h[p].right, r)
  }

  /** The tree object stands for the functional tree t. */
  ghost predicate Abstracts<V>(a: Linked<V>, t: Tree<V>)
  {
    Repr(a.cells, a.root, Null, t)
  }

  /** The address reached by following the path's links from p. */
  ghost function AddrAt<V>(h: seq<Cell<V>>, p: int, t: Tree<V>, path: Path): int
    requires OnTree(t, path)
    decreases |path|
  {
    if |path| == 0 then p
    else if 0 <= p < |h| then AddrAt(h, Slot(h[p], path[0]), Child(t, path[0]), path[1..])
    else Null
  }

  /** The address of the node the path's last step leaves from (`parent` for the empty path). */
  ghost function ParentAt<V>(h: seq<Cell<V>>, p: int, parent: int, t: Tree<V>, path: Path): int
    requires OnTree(t, path)
    decreases |path|
  {
    if |path| == 0 then parent
    else if 0 <= p < |h| then ParentAt(h, Slot(h[p], path[0]), p, Child(t, path[0]), path[1..])
    else Null
  }

  lemma {:induction false} ReprBounds<V>(h: seq<Cell<V>>, p: int, parent: int, t: Tree<V>)
    requires Repr(h, p, parent, t)
    ensures forall a | a in Addrs(h, p, t) :: 0 <= a < |h|
    ensures t.Node? ==> p in Addrs(h, p, t)
    ensures |Addrs(h, p, t)| == Size(t)
    decreases t
  {
    match t
    case Leaf =>
    case Node(l, _, _, r) =>
      var A, B := Addrs(h, h[p].left, l), Addrs(h, h[p].right, r);
      assert forall a | a in A :: 0 <= a < |h| by {
        ReprBounds(h, h[p].left, p, l);
      }
      assert forall a | a in B :: 0 <= a < |h| by {
        ReprBounds(h, h[p].right, p, r);
      }
      assert |A| == Size(l) && |B| == Size(r) by {
        ReprBounds(h, h[p].left, p, l);
        ReprBounds(h, h[p].right, p, r);
      }
      CardJoin(p, A, B);
  }

  /** The nodes of two disjoint subtrees and their parent number one more than both. */
  lemma CardJoin(p: int, A: set<int>, B: set<int>)
    requires A !! B && p !in A && p !in B
    ensures |{p} + A + B| == 1 + |A| + |B|
  {
    assert A * B == {};
    assert |A + B| == |A| + |B|;
    assert {p} + A + B == {p} + (A + B);
  }

  /**
    The representation only depends on the cells of the tree's own nodes: a
    store that agrees with h on them represents the same tree.
   */
  lemma {:induction false} ReprFrame<V>(h: seq<Cell<V>>, h': seq<Cell<V>>, p: int, parent: int, t: Tree<V>)
    requires Repr(h, p, parent, t)
    requires forall a | a in Addrs(h, p, t) :: 0 <= a < |h| && 0 <= a < |h'| && h'[a] == h[a]
    ensures Repr(h', p, parent, t)
    ensures Addrs(h', p, t) == Addrs(h, p, t)
    decreases t
  {
    match t
    case Leaf =>
    case Node(l, _, _, r) =>
      ReprFrame(h, h', h[p].left, p, l);
      ReprFrame(h, h', h[p].right, p, r);
  }

  /** Pointing a node's parent link elsewhere re-parents the tree it heads. */
  lemma Reparent<V>(h: seq<Cell<V>>, p: int, parent: int, t: Tree<V>, parent': int)
    requires Repr(h, p, parent, t) && t.Node?
    ensures Repr(h[p := h[p].(parent := parent')], p, parent', t)
    ensures Addrs(h[p := h[p].(parent := parent')], p, t) == Addrs(h, p, t)
  {
    var h' := h[p := h[p].(parent := parent')];
    var l, r := h[p].left, h[p].right;
    assert Addrs(h, p, t) == {p} + Addrs(h, l, t.left) + Addrs(h, r, t.right);
    ReparentCore(h, h', p, l, r, t, parent');
  }

  /** Reparent, from the facts that make up the node's representation. */
  lemma ReparentCore<V>(h: seq<Cell<V>>, h': seq<Cell<V>>, p: int, l: int, r: int, t: Tree<V>, parent': int)
    requires t.Node? && 0 <= p < |h| && h[p].left == l && h[p].right == r
    requires h[p].key == t.key && h[p].value == t.value
    requires Repr(h, l, p, t.left) && Repr(h, r, p, t.right)
    requires p !in Addrs(h, l, t.left) && p !in Addrs(h, r, t.right)
    requires Addrs(h, l, t.left) !! Addrs(h, r, t.right)
    requires h' == h[p := h[p].(parent := parent')]
    ensures Repr(h', p, parent', t)
    ensures Addrs(h', p, t) == {p} + Addrs(h, l, t.left) + Addrs(h, r, t.right)
  {
    ReprBounds(h, l, p, t.left);
    ReprFrame(h, h', l, p, t.left);
    ReprBounds(h, r, p, t.right);
    ReprFrame(h, h', r, p, t.right);
    Join(h', p, parent', t, l, r);
  }

  /**
    Every node reached along a path heads the corresponding subtree, with the
    node the last step left from as its parent, and its nodes are among the
    tree's nodes (below the first step's child, when the path is not empty).
   */
  lemma {:induction false} ReprAt<V>(h: seq<Cell<V>>, p: int, parent: int, t: Tree<V>, path: Path)
    requires Repr(h, p, parent, t) && OnTree(t, path)
    ensures Repr(h, AddrAt(h, p, t, path), ParentAt(h, p, parent, t, path), SubAt(t, path))
    ensures Addrs(h, AddrAt(h, p, t, path), SubAt(t, path)) <= Addrs(h, p, t)
    ensures |path| > 0 ==>
      Addrs(h, AddrAt(h, p, t, path), SubAt(t, path)) <= Addrs(h, Slot(h[p], path[0]), Child(t, path[0]))
    decreases |path|
  {
    if |path| > 0 {
      var d := path[0];
      ReprAt(h, Slot(h[p], d), p, Child(t, d), path[1..]);
    }
  }

  /** One more step from a node: the address is that node's link, the parent that node. */
  lemma {:induction false} AddrAtStep<V>(h: seq<Cell<V>>, p: int, parent: int, t: Tree<V>, path: Path, d: Side)
    requires Repr(h, p, parent, t) && OnTree(t, path) && SubAt(t, path).Node?
    ensures OnTree(t, path + [d])
    ensures SubAt(t, path + [d]) == Child(SubAt(t, path), d)
    ensures 0 <= AddrAt(h, p, t, path) < |h|
    ensures AddrAt(h, p, t, path + [d]) == Slot(h[AddrAt(h, p, t, path)], d)
    ensures ParentAt(h, p, parent, t, path + [d]) == AddrAt(h, p, t, path)
    decreases |path|
  {
    if |path| == 0 {
      assert path + [d] == [d];
    } else {
      assert (path + [d])[0] == path[0] && (path + [d])[1..] == path[1..] + [d];
      AddrAtStep(h, Slot(h[p], path[0]), p, Child(t, path[0]), path[1..], d);
    }
  }

  /** Parent links match child links: the pointer-level invariant, stated on the store. */
  ghost predicate LinksConsistent<V>(h: seq<Cell<V>>, nodes: set<int>)
  {
    forall a | a in nodes ::
      0 <= a < |h|
      && (h[a].left != Null ==> 0 <= h[a].left < |h| && h[h[a].left].parent == a)
      && (h[a].right != Null ==> 0 <= h[a].right < |h| && h[h[a].right].parent == a)
  }

  /**
    A represented tree has consistent parent links, its root's parent link is
    the given parent, and its nodes' links stay inside it.
   */
  lemma {:induction false} ReprLinks<V>(h: seq<Cell<V>>, p: int, parent: int, t: Tree<V>)
    requires Repr(h, p, parent, t)
    ensures LinksConsistent(h, Addrs(h, p, t))
    ensures t.Node? ==> h[p].parent == parent
    ensures forall a | a in Addrs(h, p, t) ::
      (h[a].left == Null || h[a].left in Addrs(h, p, t)) && (h[a].right == Null || h[a].right in Addrs(h, p, t))
    decreases t
  {
    match t
    case Leaf =>
    case Node(l, _, _, r) =>
      ReprLinks(h, h[p].left, p, l);
      ReprLinks(h, h[p].right, p, r);
      ReprBounds(h, h[p].left, p, l);
      ReprBounds(h, h[p].right, p, r);
  }

  /**
    Linking a represented tree s into a node's child slot d: if the store keeps
    every other node of the old tree, changes the node itself only in that
    slot, and s's nodes are not among the nodes kept, the node now heads its
    tree with s in place of the old child.
   */
  lemma ReplaceRootChild<V>(h: seq<Cell<V>>, h': seq<Cell<V>>, p: int, parent: int, t: Tree<V>, d: Side,
                            x: int, s: Tree<V>)
    requires Repr(h, p, parent, t) && t.Node?
    requires forall a | a in Addrs(h, p, t) && a !in Addrs(h, Slot(h[p], d), Child(t, d)) && a != p ::
      0 <= a < |h| && 0 <= a < |h'| && h'[a] == h[a]
    requires 0 <= p < |h'| && h'[p] == SetSlot(h[p], d, x)
    requires Repr(h', x, p, s)
    requires Addrs(h', x, s) !! (Addrs(h, p, t) - Addrs(h, Slot(h[p], d), Child(t, d)))
    ensures Repr(h', p, parent, WithChild(t, d, s))
    ensures Addrs(h', p, WithChild(t, d, s)) == (Addrs(h, p, t) - Addrs(h, Slot(h[p], d), Child(t, d))) + Addrs(h', x, s)
  {
    if d == Left {
      ReplaceLeftChild(h, h', p, parent, t, x, s);
    } else {
      ReplaceRightChild(h, h', p, parent, t, x, s);
    }
  }

  /** A cell linked to two disjoint trees hanging from it, and holding neither, heads their join. */
  lemma Join<V>(h: seq<Cell<V>>, p: int, parent: int, t: Tree<V>, l: int, r: int)
    requires t.Node? && 0 <= p < |h|
    requires h[p].key == t.key && h[p].value == t.value && h[p].parent == parent
    requires h[p].left == l && h[p].right == r
    requires Repr(h, l, p, t.left) && Repr(h, r, p, t.right)
    requires p !in Addrs(h, l, t.left) && p !in Addrs(h, r, t.right)
    requires Addrs(h, l, t.left) !! Addrs(h, r, t.right)
    ensures Repr(h, p, parent, t)
    ensures Addrs(h, p, t) == {p} + Addrs(h, l, t.left) + Addrs(h, r, t.right)
  {
  }

  lemma ReplaceLeftChild<V>(h: seq<Cell<V>>, h': seq<Cell<V>>, p: int, parent: int, t: Tree<V>, x: int, s: Tree<V>)
    requires Repr(h, p, parent, t) && t.Node?
    requires forall a | a in Addrs(h, p, t) && a !in Addrs(h, h[p].left, t.left) && a != p ::
      0 <= a < |h| && 0 <= a < |h'| && h'[a] == h[a]
    requires 0 <= p < |h'| && h'[p] == h[p].(left := x)
    requires Repr(h', x, p, s)
    requires Addrs(h', x, s) !! (Addrs(h, p, t) - Addrs(h, h[p].left, t.left))
    ensures Repr(h', p, parent, Node(s, t.key, t.value, t.right))
    ensures Addrs(h', p, Node(s, t.key, t.value, t.right)) == (Addrs(h, p, t) - Addrs(h, h[p].left, t.left)) + Addrs(h', x, s)
  {
    var A, B := Addrs(h, h[p].left, t.left), Addrs(h, h[p].right, t.right);
    assert Addrs(h, p, t) == {p} + A + B && A !! B && p !in A && p !in B;
    assert Repr(h', h[p].right, p, t.right) && Addrs(h', h[p].right, t.right) == B by {
      ReprBounds(h, h[p].right, p, t.right);
      assert forall a | a in B :: 0 <= a < |h| && 0 <= a < |h'| && h'[a] == h[a];
      ReprFrame(h, h', h[p].right, p, t.right);
    }
    var S := Addrs(h', x, s);
    assert Addrs(h', p, Node(s, t.key, t.value, t.right)) == {p} + S + B by {
      Join(h', p, parent, Node(s, t.key, t.value, t.right), x, h[p].right);
    }
    assert Addrs(h, p, t) - A == {p} + B;
    Regroup(p, S, B);
  }

  lemma ReplaceRightChild<V>(h: seq<Cell<V>>, h': seq<Cell<V>>, p: int, parent: int, t: Tree<V>, x: int, s: Tree<V>)
    requires Repr(h, p, parent, t) && t.Node?
    requires forall a | a in Addrs(h, p, t) && a !in Addrs(h, h[p].right, t.right) && a != p ::
      0 <= a < |h| && 0 <= a < |h'| && h'[a] == h[a]
    requires 0 <= p < |h'| && h'[p] == h[p].(right := x)
    requires Repr(h', x, p, s)
    requires Addrs(h', x, s) !! (Addrs(h, p, t) - Addrs(h, h[p].right, t.right))
    ensures Repr(h', p, parent, Node(t.left, t.key, t.value, s))
    ensures Addrs(h', p, Node(t.left, t.key, t.value, s)) == (Addrs(h, p, t) - Addrs(h, h[p].right, t.right)) + Addrs(h', x, s)
  {
    var A, B := Addrs(h, h[p].left, t.left), Addrs(h, h[p].right, t.right);
    assert Addrs(h, p, t) == {p} + A + B && A !! B && p !in A && p !in B;
    assert Repr(h', h[p].left, p, t.left) && Addrs(h', h[p].left, t.left) == A by {
      ReprBounds(h, h[p].left, p, t.left);
      assert forall a | a in A :: 0 <= a < |h| && 0 <= a < |h'| && h'[a] == h[a];
      ReprFrame(h, h', h[p].left, p, t.left);
    }
    var S := Addrs(h', x, s);
    assert Addrs(h', p, Node(t.left, t.key, t.value, s)) == {p} + A + S by {
      Join(h', p, parent, Node(t.left, t.key, t.value, s), h[p].left, x);
    }
    assert Addrs(h, p, t) - B == {p} + A;
  }

  lemma Regroup(p: int, S: set<int>, B: set<int>)
    ensures ({p} + B) + S == {p} + S + B
  {
  }

  /**
    The same, for the child slot d of the node at the end of a path: the tree
    headed at p now stands for `ReplaceAt(t, path + [d], s)`, and its nodes
    are the old ones minus the old child's, plus s's.
   */
  lemma {:induction false} ReplaceChildAt<V>(h: seq<Cell<V>>, h': seq<Cell<V>>, p: int, parent: int, t: Tree<V>,
                                             path: Path, d: Side, q: int, x: int, s: Tree<V>)
    requires Repr(h, p, parent, t) && OnTree(t, path) && SubAt(t, path).Node?
    requires q == AddrAt(h, p, t, path) && 0 <= q < |h|
    requires forall a | a in Addrs(h, p, t) && a !in Addrs(h, Slot(h[q], d), Child(SubAt(t, path), d)) && a != q ::
      0 <= a < |h| && 0 <= a < |h'| && h'[a] == h[a]
    requires 0 <= q < |h'| && h'[q] == SetSlot(h[q], d, x)
    requires Repr(h', x, q, s)
    requires Addrs(h', x, s) !! (Addrs(h, p, t) - Addrs(h, Slot(h[q], d), Child(SubAt(t, path), d)))
    ensures OnTree(t, path + [d])
    ensures Repr(h', p, parent, ReplaceAt(t, path + [d], s))
    ensures Addrs(h', p, ReplaceAt(t, path + [d], s))
         == (Addrs(h, p, t) - Addrs(h, Slot(h[q], d), Child(SubAt(t, path), d))) + Addrs(h', x, s)
    decreases |path|, 1
  {
    AddrAtStep(h, p, parent, t, path, d);
    if |path| == 0 {
      assert path + [d] == [d];
      ReplaceRootChild(h, h', p, parent, t, d, x, s);
    } else {
      ReplaceChildBelow(h, h', p, parent, t, path, d, q, x, s);
    }
  }

  /** The inductive step of `ReplaceChildAt`: the slot lies inside the child the path starts into. */
  lemma {:induction false} ReplaceChildBelow<V>(h: seq<Cell<V>>, h': seq<Cell<V>>, p: int, parent: int, t: Tree<V>,
                                                path: Path, d: Side, q: int, x: int, s: Tree<V>)
    requires Repr(h, p, parent, t) && OnTree(t, path) && SubAt(t, path).Node? && |path| > 0
    requires q == AddrAt(h, p, t, path) && 0 <= q < |h|
    requires forall a | a in Addrs(h, p, t) && a !in Addrs(h, Slot(h[q], d), Child(SubAt(t, path), d)) && a != q ::
      0 <= a < |h| && 0 <= a < |h'| && h'[a] == h[a]
    requires 0 <= q < |h'| && h'[q] == SetSlot(h[q], d, x)
    requires Repr(h', x, q, s)
    requires Addrs(h', x, s) !! (Addrs(h, p, t) - Addrs(h, Slot(h[q], d), Child(SubAt(t, path), d)))
    ensures OnTree(t, path + [d])
    ensures Repr(h', p, parent, ReplaceAt(t, path + [d], s))
    ensures Addrs(h', p, ReplaceAt(t, path + [d], s))
         == (Addrs(h, p, t) - Addrs(h, Slot(h[q], d), Child(SubAt(t, path), d))) + Addrs(h', x, s)
    decreases |path|, 0
  {
    AddrAtStep(h, p, parent, t, path, d);
    var e, rest := path[0], path[1..];
    var c, ct := Slot(h[p], e), Child(t, e);
    var X := Addrs(h, Slot(h[q], d), Child(SubAt(t, path), d));
    BelowFirstStep(h, p, parent, t, path, d);
    ReplaceChildAt(h, h', c, p, ct, rest, d, q, x, s);
    var ct' := ReplaceAt(ct, rest + [d], s);
    assert (path + [d])[0] == e && (path + [d])[1..] == rest + [d];
    assert ReplaceAt(t, path + [d], s) == WithChild(t, e, ct');
    assert h'[p] == SetSlot(h[p], e, c);
    ReplaceRootChild(h, h', p, parent, t, e, c, ct');
  }

  /** Where the slot below a non-empty path lies: inside the child the path starts into. */
  lemma BelowFirstStep<V>(h: seq<Cell<V>>, p: int, parent: int, t: Tree<V>, path: Path, d: Side)
    requires Repr(h, p, parent, t) && OnTree(t, path) && SubAt(t, path).Node? && |path| > 0
    ensures 0 <= AddrAt(h, p, t, path) < |h|
    ensures var q := AddrAt(h, p, t, path);
      && Addrs(h, Slot(h[q], d), Child(SubAt(t, path), d)) <= Addrs(h, Slot(h[p], path[0]), Child(t, path[0]))
      && q in Addrs(h, Slot(h[p], path[0]), Child(t, path[0]))
    ensures Addrs(h, Slot(h[p], path[0]), Child(t, path[0])) <= Addrs(h, p, t)
    ensures p !in Addrs(h, Slot(h[p], path[0]), Child(t, path[0]))
  {
    AddrAtStep(h, p, parent, t, path, d);
    assert (path + [d])[0] == path[0];
    ReprAt(h, p, parent, t, path + [d]);
    ReprAt(h, p, parent, t, path);
    ReprBounds(h, AddrAt(h, p, t, path), ParentAt(h, p, parent, t, path), SubAt(t, path));
  }

  /** Following p then q is following p + q. */
  lemma {:induction false} AddrAtAppend<V>(h: seq<Cell<V>>, x: int, t: Tree<V>, p: Path, q: Path)
    requires OnTree(t, p) && OnTree(SubAt(t, p), q)
    ensures OnTree(t, p + q)
    ensures AddrAt(h, x, t, p + q) == AddrAt(h, AddrAt(h, x, t, p), SubAt(t, p), q)
    decreases |p|
  {
    SubAtAppend(t, p, q);
    if |p| > 0 {
      assert (p + q)[0] == p[0] && (p + q)[1..] == p[1..] + q;
      if 0 <= x < |h| {
        AddrAtAppend(h, Slot(h[x], p[0]), Child(t, p[0]), p[1..], q);
      }
    } else {
      assert p + q == q;
    }
  }

  /** Addresses along a path depend on the child links alone, not on keys, values or parents. */
  lemma {:induction false} AddrAtLinksOnly<V>(h: seq<Cell<V>>, h': seq<Cell<V>>, x: int, t: Tree<V>, t': Tree<V>, p: Path)
    requires OnTree(t, p) && OnTree(t', p)
    requires |h'| == |h| && forall a | 0 <= a < |h| :: h'[a].left == h[a].left && h'[a].right == h[a].right
    ensures AddrAt(h', x, t', p) == AddrAt(h, x, t, p)
    decreases |p|
  {
    if |p| > 0 && 0 <= x < |h| {
      assert Slot(h'[x], p[0]) == Slot(h[x], p[0]);
      AddrAtLinksOnly(h, h', Slot(h[x], p[0]), Child(t, p[0]), Child(t', p[0]), p[1..]);
    }
  }
}
