/**
  Pointer-level insertion: `insert` allocates the new node and hands it to
  `insertIterative` or to `insertRecursive`, which hang it as a leaf in the
  empty slot the descent ends at and point its parent link at the node above.
 */
module LinkedInsert {
  import opened KeyOrder
  import opened Trees
  import opened Positions
  import opened LinkedTree
  import Insertion

  /**
    Besides node n, no cell's key, value or parent link changes, and a child
    link changes only from null to n. Within the tree, `Repr` fixes which
    link that is: the slot the descent ends at.
   */
  ghost predicate OnlyLinksNew<V>(h: seq<Cell<V>>, h': seq<Cell<V>>, n: int)
  {
    && |h'| == |h|
    && forall a | 0 <= a < |h| && a != n ::
      && h'[a].key == h[a].key && h'[a].value == h[a].value && h'[a].parent == h[a].parent
      && (h'[a].left == h[a].left || (h[a].left == Null && h'[a].left == n))
      && (h'[a].right == h[a].right || (h[a].right == Null && h'[a].right == n))
  }

  /** The fresh node n keeps its key and value and stays a leaf. */
  ghost predicate IsNewLeaf<V>(h: seq<Cell<V>>, h': seq<Cell<V>>, n: int)
    requires 0 <= n < |h| && |h'| == |h|
  {
    h'[n].key == h[n].key && h'[n].value == h[n].value && h'[n].left == Null && h'[n].right == Null
  }

  /**
    One descent step of insertion: inserting below the child the key's
    comparison picks is inserting below the current node.
   */
  lemma InsertBelow<V>(t: Tree<V>, path: Path, k: Key, v: V, d: Side)
    requires OnTree(t, path) && SubAt(t, path).Node?
    requires d == (if Less(k, SubAt(t, path).key) then Left else Right)
    ensures OnTree(t, path + [d]) && SubAt(t, path + [d]) == Child(SubAt(t, path), d)
    ensures ReplaceAt(t, path + [d], Insertion.Insert(SubAt(t, path + [d]), k, v))
         == ReplaceAt(t, path, Insertion.Insert(SubAt(t, path), k, v))
  {
    var sub := SubAt(t, path);
    SubAtAppend(t, path, [d]);
    ReplaceAtAppend(t, path, [d], Insertion.Insert(Child(sub, d), k, v));
    assert ReplaceAt(sub, [d], Insertion.Insert(Child(sub, d), k, v)) == Insertion.Insert(sub, k, v);
  }

  /**
    Linking the fresh leaf n into the empty slot d of the node q at the end of
    the path, and pointing n's parent link at q, yields the tree with that
    slot filled, made of the old nodes and n.
   */
  lemma AttachLeaf<V>(h: seq<Cell<V>>, root: int, t: Tree<V>, path: Path, d: Side, q: int, n: int, h': seq<Cell<V>>)
    requires Repr(h, root, Null, t) && OnTree(t, path) && SubAt(t, path).Node?
    requires q == AddrAt(h, root, t, path) && 0 <= q < |h| && Slot(h[q], d) == Null
    requires 0 <= n < |h| && n !in Addrs(h, root, t) && h[n].left == Null && h[n].right == Null
    requires |h'| == |h| && h'[q] == SetSlot(h[q], d, n) && h'[n] == h[n].(parent := q)
    requires forall a | 0 <= a < |h| && a != q && a != n :: h'[a] == h[a]
    ensures OnTree(t, path + [d]) && SubAt(t, path + [d]) == Leaf
    ensures Repr(h', root, Null, ReplaceAt(t, path + [d], Node(Leaf, h[n].key, h[n].value, Leaf)))
    ensures Addrs(h', root, ReplaceAt(t, path + [d], Node(Leaf, h[n].key, h[n].value, Leaf))) == Addrs(h, root, t) + {n}
    ensures q in Addrs(h, root, t)
  {
    var sub := SubAt(t, path);
    assert Child(sub, d) == Leaf && q in Addrs(h, root, t) by {
      ReprAt(h, root, Null, t, path);
      ReprBounds(h, q, ParentAt(h, root, Null, t, path), sub);
    }
    assert forall a | a in Addrs(h, root, t) :: 0 <= a < |h| by {
      ReprBounds(h, root, Null, t);
    }
    assert OnTree(t, path + [d]) && SubAt(t, path + [d]) == Leaf by {
      SubAtAppend(t, path, [d]);
    }
    var s := Node(Leaf, h[n].key, h[n].value, Leaf);
    assert Repr(h', n, q, s) && Addrs(h', n, s) == {n} by {
      NewLeafRepr(h', n, q, h[n].key, h[n].value);
    }
    assert forall a | a in Addrs(h, root, t) && a != q :: 0 <= a < |h| && 0 <= a < |h'| && h'[a] == h[a];
    FillSlot(h, h', root, t, path, d, q, n, s);
  }

  /** Linking a tree whose only node is n into an empty slot adds exactly n. */
  lemma FillSlot<V>(h: seq<Cell<V>>, h': seq<Cell<V>>, root: int, t: Tree<V>, path: Path, d: Side, q: int, n: int,
                    s: Tree<V>)
    requires Repr(h, root, Null, t) && OnTree(t, path) && SubAt(t, path).Node? && Child(SubAt(t, path), d) == Leaf
    requires q == AddrAt(h, root, t, path) && 0 <= q < |h| && Slot(h[q], d) == Null
    requires forall a | a in Addrs(h, root, t) && a != q :: 0 <= a < |h| && 0 <= a < |h'| && h'[a] == h[a]
    requires 0 <= q < |h'| && h'[q] == SetSlot(h[q], d, n)
    requires Repr(h', n, q, s) && Addrs(h', n, s) == {n} && n !in Addrs(h, root, t)
    ensures OnTree(t, path + [d])
    ensures Repr(h', root, Null, ReplaceAt(t, path + [d], s))
    ensures Addrs(h', root, ReplaceAt(t, path + [d], s)) == Addrs(h, root, t) + {n}
  {
    assert Addrs(h, Slot(h[q], d), Child(SubAt(t, path), d)) == {};
    ReplaceChildAt(h, h', root, Null, t, path, d, q, n, s);
  }

  /** The two writes that hang n below q touch no other node. */
  lemma StoreAfterAttach<V>(h: seq<Cell<V>>, q: int, d: Side, n: int, h': seq<Cell<V>>)
    requires 0 <= q < |h| && 0 <= n < |h| && q != n
    requires h' == h[q := SetSlot(h[q], d, n)][n := h[n].(parent := q)]
    ensures |h'| == |h| && h'[q] == SetSlot(h[q], d, n) && h'[n] == h[n].(parent := q)
    ensures forall a | 0 <= a < |h| && a != q && a != n :: h'[a] == h[a]
  {
  }

  /** A node with null child links heads a one-node tree. */
  lemma NewLeafRepr<V>(h: seq<Cell<V>>, n: int, parent: int, k: Key, v: V)
    requires 0 <= n < |h| && h[n].key == k && h[n].value == v && h[n].left == Null && h[n].right == Null
    requires h[n].parent == parent
    ensures Repr(h, n, parent, Node(Leaf, k, v, Leaf)) && Addrs(h, n, Node(Leaf, k, v, Leaf)) == {n}
  {
  }

  /**
    `insertRecursive(parent, nodeToInsert)`: descends from `parent`, the node
    at the end of `path`, and hangs the fresh leaf n where the subtree's own
    insertion would.
   */
  method InsertRecursive<V>(h: seq<Cell<V>>, parent: int, n: int, ghost root: int, ghost t: Tree<V>, ghost path: Path)
    returns (h': seq<Cell<V>>)
    requires Repr(h, root, Null, t) && OnTree(t, path) && SubAt(t, path).Node?
    requires parent == AddrAt(h, root, t, path)
    requires 0 <= n < |h| && n !in Addrs(h, root, t) && h[n].left == Null && h[n].right == Null
    ensures Repr(h', root, Null, ReplaceAt(t, path, Insertion.Insert(SubAt(t, path), h[n].key, h[n].value)))
    ensures Addrs(h', root, ReplaceAt(t, path, Insertion.Insert(SubAt(t, path), h[n].key, h[n].value)))
         == Addrs(h, root, t) + {n}
    ensures OnlyLinksNew(h, h', n) && IsNewLeaf(h, h', n)
    ensures h'[n].parent in Addrs(h, root, t)
    decreases Size(SubAt(t, path))
  {
    ReprAt(h, root, Null, t, path);
    var d := if Less(h[n].key, h[parent].key) then Left else Right;
    InsertBelow(t, path, h[n].key, h[n].value, d);
    AddrAtStep(h, root, Null, t, path, d);
    if Less(h[n].key, h[parent].key) {
      if h[parent].left == Null {
        h' := h[parent := h[parent].(left := n)][n := h[n].(parent := parent)];
        StoreAfterAttach(h, parent, d, n, h');
        AttachLeaf(h, root, t, path, d, parent, n, h');
      } else {
        h' := InsertRecursive(h, h[parent].left, n, root, t, path + [Left]);
      }
    } else {
      if h[parent].right == Null {
        h' := h[parent := h[parent].(right := n)][n := h[n].(parent := parent)];
        StoreAfterAttach(h, parent, d, n, h');
        AttachLeaf(h, root, t, path, d, parent, n, h');
      } else {
        h' := InsertRecursive(h, h[parent].right, n, root, t, path + [Right]);
      }
    }
  }

  /** Hanging n in the empty slot the descent reached completes the insertion. */
  lemma AttachCompletes<V>(h0: seq<Cell<V>>, root: int, t: Tree<V>, path: Path, d: Side, q: int, n: int,
                           h: seq<Cell<V>>, k: Key, v: V)
    requires Repr(h0, root, Null, t) && OnTree(t, path) && SubAt(t, path).Node?
    requires d == (if Less(k, SubAt(t, path).key) then Left else Right)
    requires q == AddrAt(h0, root, t, path) && 0 <= q < |h0| && Slot(h0[q], d) == Null
    requires 0 <= n < |h0| && n !in Addrs(h0, root, t) && h0[n].left == Null && h0[n].right == Null
    requires h0[n].key == k && h0[n].value == v
    requires Insertion.Insert(t, k, v) == ReplaceAt(t, path, Insertion.Insert(SubAt(t, path), k, v))
    requires h == h0[q := SetSlot(h0[q], d, n)][n := h0[n].(parent := q)]
    ensures Repr(h, root, Null, Insertion.Insert(t, k, v))
    ensures Addrs(h, root, Insertion.Insert(t, k, v)) == Addrs(h0, root, t) + {n}
    ensures OnlyLinksNew(h0, h, n) && IsNewLeaf(h0, h, n) && h[n].parent in Addrs(h0, root, t)
  {
    InsertBelow(t, path, k, v, d);
    ReprAt(h0, root, Null, t, path);
    ReprBounds(h0, AddrAt(h0, root, t, path), ParentAt(h0, root, Null, t, path), SubAt(t, path));
    ReprBounds(h0, root, Null, t);
    assert q in Addrs(h0, root, t);
    StoreAfterAttach(h0, q, d, n, h);
    AttachLeaf(h0, root, t, path, d, q, n, h);
  }

  /**
    `insertIterative(node)`: clears the node's child links, makes it the root
    of an empty tree, and otherwise walks down from `root_` until the slot the
    key's comparisons pick is null, and hangs the node there.
   */
  method InsertIterative<V>(a: Linked<V>, n: int, ghost t: Tree<V>) returns (b: Linked<V>)
    requires Abstracts(a, t)
    requires 0 <= n < |a.cells| && n !in Addrs(a.cells, a.root, t)
    ensures Abstracts(b, Insertion.Insert(t, a.cells[n].key, a.cells[n].value))
    ensures Addrs(b.cells, b.root, Insertion.Insert(t, a.cells[n].key, a.cells[n].value)) == Addrs(a.cells, a.root, t) + {n}
    ensures OnlyLinksNew(a.cells, b.cells, n) && IsNewLeaf(a.cells, b.cells, n)
    ensures a.root == Null ==> b.root == n && b.cells[n].parent == Null
    ensures a.root != Null ==> b.root == a.root && b.cells[n].parent in Addrs(a.cells, a.root, t)
  {
    ghost var k, v := a.cells[n].key, a.cells[n].value;
    var h := a.cells[n := a.cells[n].(left := Null, right := Null)];
    Detached(a.cells, h, a.root, t, n);
    if a.root == Null {
      h := h[n := h[n].(parent := Null)];
      b := Linked(h, n);
      FirstNode(a.cells, b.cells, n, t);
      return;
    }
    ghost var h0 := h;
    var cur := a.root;
    ghost var path: Path := [];
    while cur != Null
      invariant cur != Null ==>
        && h == h0 && OnTree(t, path) && SubAt(t, path).Node? && cur == AddrAt(h0, a.root, t, path)
        && Insertion.Insert(t, k, v) == ReplaceAt(t, path, Insertion.Insert(SubAt(t, path), k, v))
      invariant cur == Null ==>
        && Repr(h, a.root, Null, Insertion.Insert(t, k, v))
        && Addrs(h, a.root, Insertion.Insert(t, k, v)) == Addrs(h0, a.root, t) + {n}
        && OnlyLinksNew(h0, h, n) && IsNewLeaf(h0, h, n)
        && h[n].parent in Addrs(h0, a.root, t)
      decreases if cur != Null then Size(SubAt(t, path)) + 1 else 0
    {
      ReprAt(h0, a.root, Null, t, path);
      ghost var d := if Less(h[n].key, h[cur].key) then Left else Right;
      InsertBelow(t, path, k, v, d);
      AddrAtStep(h0, a.root, Null, t, path, d);
      if Less(h[n].key, h[cur].key) {
        if h[cur].left == Null {
          h := h[cur := h[cur].(left := n)][n := h[n].(parent := cur)];
          AttachCompletes(h0, a.root, t, path, d, cur, n, h, k, v);
          cur := Null;
        } else {
          cur := h[cur].left;
          path := path + [Left];
        }
      } else {
        if h[cur].right == Null {
          h := h[cur := h[cur].(right := n)][n := h[n].(parent := cur)];
          AttachCompletes(h0, a.root, t, path, d, cur, n, h, k, v);
          cur := Null;
        } else {
          cur := h[cur].right;
          path := path + [Right];
        }
      }
    }
    b := Linked(h, a.root);
    Relink(a.cells, h0, h, n);
  }

  /** Clearing the links of a node outside the tree keeps the tree. */
  lemma Detached<V>(h: seq<Cell<V>>, h': seq<Cell<V>>, root: int, t: Tree<V>, n: int)
    requires Repr(h, root, Null, t) && 0 <= n < |h| && n !in Addrs(h, root, t)
    requires h' == h[n := h[n].(left := Null, right := Null)]
    ensures Repr(h', root, Null, t) && Addrs(h', root, t) == Addrs(h, root, t)
  {
    ReprBounds(h, root, Null, t);
    ReprFrame(h, h', root, Null, t);
  }

  /** Into an empty tree, the node becomes the root, a one-node tree. */
  lemma FirstNode<V>(h: seq<Cell<V>>, h': seq<Cell<V>>, n: int, t: Tree<V>)
    requires Repr(h, Null, Null, t) && 0 <= n < |h|
    requires h' == h[n := h[n].(left := Null, right := Null)][n := h[n].(left := Null, right := Null, parent := Null)]
    ensures t == Leaf && Insertion.Insert(t, h[n].key, h[n].value) == Node(Leaf, h[n].key, h[n].value, Leaf)
    ensures Repr(h', n, Null, Insertion.Insert(t, h[n].key, h[n].value))
    ensures Addrs(h', n, Insertion.Insert(t, h[n].key, h[n].value)) == Addrs(h, Null, t) + {n}
    ensures OnlyLinksNew(h, h', n) && IsNewLeaf(h, h', n) && h'[n].parent == Null
  {
    NewLeafRepr(h', n, Null, h[n].key, h[n].value);
  }

  /** The facts stated of the store with n's links cleared carry over to the store before. */
  lemma Relink<V>(h: seq<Cell<V>>, h0: seq<Cell<V>>, h': seq<Cell<V>>, n: int)
    requires 0 <= n < |h| && h0 == h[n := h[n].(left := Null, right := Null)]
    requires OnlyLinksNew(h0, h', n) && IsNewLeaf(h0, h', n)
    ensures OnlyLinksNew(h, h', n) && IsNewLeaf(h, h', n)
  {
  }

  /**
    `insert(key, value)`: allocates the node (at the end of the store, every
    link null) and inserts it with the iterative or the recursive algorithm,
    as `iterative` selects. Either way the tree gains exactly the entry
    (key, value), as a leaf whose parent link names the node above it (null
    when it becomes the root), and no other node changes beyond the one link
    that now points at it.
   */
  method Insert<V>(a: Linked<V>, k: Key, v: V, iterative: bool, ghost t: Tree<V>) returns (b: Linked<V>)
    requires Abstracts(a, t)
    ensures Abstracts(b, Insertion.Insert(t, k, v))
    ensures |b.cells| == |a.cells| + 1
    ensures Addrs(b.cells, b.root, Insertion.Insert(t, k, v)) == Addrs(a.cells, a.root, t) + {|a.cells|}
    ensures b.cells[|a.cells|].key == k && b.cells[|a.cells|].value == v
    ensures b.cells[|a.cells|].left == Null && b.cells[|a.cells|].right == Null
    ensures a.root == Null ==> b.root == |a.cells| && b.cells[|a.cells|].parent == Null
    ensures a.root != Null ==> b.root == a.root && b.cells[|a.cells|].parent in Addrs(a.cells, a.root, t)
    ensures OnlyLinksNew(a.cells + [Cell(k, v, Null, Null, Null)], b.cells, |a.cells|)
  {
    var n := |a.cells|;
    var h := a.cells + [Cell(k, v, Null, Null, Null)];
    ReprBounds(a.cells, a.root, Null, t);
    ReprFrame(a.cells, h, a.root, Null, t);
    if iterative {
      b := InsertIterative(Linked(h, a.root), n, t);
    } else if a.root == Null {
      b := Linked(h, n);
    } else {
      var h' := InsertRecursive(h, a.root, n, a.root, t, []);
      b := Linked(h', a.root);
    }
  }
}
