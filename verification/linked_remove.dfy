/**
  Pointer-level removal: `replaceChild`, `remove(node)` and `remove(key)`.

  `remove(node)` copies the in-order successor's key and value into a node
  with two children and then removes the successor, which has no left child;
  a node with at most one child is unlinked by pointing its parent's link
  (or `root_`) at that child and the child's parent link back at the parent
  (or at null). The unlinked node's cell is left in the store, unreachable.
 */
module LinkedRemove {
  import opened KeyOrder
  import opened Trees
  import opened Positions
  import opened LinkedTree
  import Removal
  import LinkedSearch
  import Lookup

  /**
    `replaceChild(parent, currentChild, newChild)`: when neither of the
    parent's child links is `currentChild` it answers false and changes
    nothing; otherwise it points that link (the left one when both match) at
    `newChild`, points `newChild`'s parent link at the parent unless
    `newChild` is null, and answers true. No other link, key or value moves.
   */
  function ReplaceChild<V>(h: seq<Cell<V>>, parent: int, currentChild: int, newChild: int): (r: (seq<Cell<V>>, bool))
    requires 0 <= parent < |h| && (newChild == Null || 0 <= newChild < |h|)
    ensures |r.0| == |h|
    ensures !r.1 <==> h[parent].left != currentChild && h[parent].right != currentChild
    ensures !r.1 ==> r.0 == h
    ensures r.1 && h[parent].left == currentChild ==>
      r.0[parent].left == newChild && r.0[parent].right == h[parent].right
    ensures r.1 && h[parent].left != currentChild ==>
      r.0[parent].right == newChild && r.0[parent].left == h[parent].left
    ensures r.1 && newChild != Null ==> r.0[newChild].parent == parent
    ensures forall a | 0 <= a < |h| :: r.0[a].key == h[a].key && r.0[a].value == h[a].value
    ensures forall a | 0 <= a < |h| && a != parent :: r.0[a].left == h[a].left && r.0[a].right == h[a].right
    ensures forall a | 0 <= a < |h| && a != newChild :: r.0[a].parent == h[a].parent
  {
    if h[parent].left != currentChild && h[parent].right != currentChild then (h, false)
    else
      var h1 := if h[parent].left == currentChild then h[parent := h[parent].(left := newChild)]
                else h[parent := h[parent].(right := newChild)];
      var h2 := if newChild != Null then h1[newChild := h1[newChild].(parent := parent)] else h1;
      (h2, true)
  }

  /** The tree with the node at `path` removed as `remove(node)` removes it (unchanged at a null position). */
  ghost function RemoveAt<V>(t: Tree<V>, path: Path): Tree<V>
    requires OnTree(t, path)
  {
    if SubAt(t, path).Node? then ReplaceAt(t, path, Removal.RemoveRoot(SubAt(t, path))) else t
  }

  /** Removing at a node position leaves the tree one node smaller. */
  lemma {:induction false} RemoveAtSize<V>(t: Tree<V>, path: Path)
    requires OnTree(t, path) && SubAt(t, path).Node?
    ensures Size(RemoveAt(t, path)) + 1 == Size(t)
  {
    ReplaceAtSize(t, path, Removal.RemoveRoot(SubAt(t, path)));
  }

  /** A store that abstracts `RemoveAt(t, path)` holds one node fewer than one that abstracts `t`. */
  lemma LosesOne<V>(a: Linked<V>, b: Linked<V>, t: Tree<V>, path: Path)
    requires Abstracts(a, t) && OnTree(t, path) && SubAt(t, path).Node? && Abstracts(b, RemoveAt(t, path))
    ensures |Addrs(b.cells, b.root, RemoveAt(t, path))| + 1 == |Addrs(a.cells, a.root, t)|
  {
    ReprBounds(a.cells, a.root, Null, t);
    ReprBounds(b.cells, b.root, Null, RemoveAt(t, path));
    RemoveAtSize(t, path);
  }

  /** The two child links of a node never name the same non-null node. */
  lemma OtherSlotDiffers<V>(h: seq<Cell<V>>, q: int, parent: int, s: Tree<V>, e: Side, c: int)
    requires Repr(h, q, parent, s) && s.Node? && Slot(h[q], e) == c && c != Null
    ensures Slot(h[q], if e == Left then Right else Left) != c
  {
    ReprBounds(h, h[q].left, q, s.left);
    ReprBounds(h, h[q].right, q, s.right);
  }

  /** A node with at most one child: that child heads what `RemoveRoot` leaves. */
  lemma OnlyChild<V>(h: seq<Cell<V>>, c: int, parent: int, sub: Tree<V>, n: int)
    requires Repr(h, c, parent, sub) && sub.Node? && (sub.left == Leaf || sub.right == Leaf)
    requires n == (if h[c].left != Null then h[c].left else h[c].right)
    ensures Repr(h, n, c, Removal.RemoveRoot(sub))
    ensures Addrs(h, c, sub) == {c} + Addrs(h, n, Removal.RemoveRoot(sub))
    ensures c !in Addrs(h, n, Removal.RemoveRoot(sub))
    ensures n == Null || 0 <= n < |h|
    ensures n == Null <==> Removal.RemoveRoot(sub) == Leaf
  {
    if sub.left.Node? {
      assert Removal.RemoveRoot(sub) == sub.left && n == h[c].left;
    } else {
      assert Removal.RemoveRoot(sub) == sub.right && n == h[c].right;
    }
  }

  /** The store after `replaceChild(q, c, n)` when c hangs in q's slot e. */
  lemma SpliceStore<V>(h: seq<Cell<V>>, q: int, e: Side, c: int, n: int, h': seq<Cell<V>>)
    requires 0 <= q < |h| && Slot(h[q], e) == c && c != Null
    requires Slot(h[q], if e == Left then Right else Left) != c
    requires (n == Null || 0 <= n < |h|) && n != q
    requires h' == ReplaceChild(h, q, c, n).0
    ensures ReplaceChild(h, q, c, n).1
    ensures |h'| == |h| && h'[q] == SetSlot(h[q], e, n)
    ensures n != Null ==> h'[n] == h[n].(parent := q)
    ensures forall a | 0 <= a < |h| && a != q && a != n :: h'[a] == h[a]
  {
  }

  /** A subtree whose root's parent link alone was redirected to q now hangs below q. */
  lemma Rehung<V>(h: seq<Cell<V>>, h': seq<Cell<V>>, n: int, c: int, q: int, u: Tree<V>)
    requires Repr(h, n, c, u) && |h'| == |h|
    requires n != Null ==> 0 <= n < |h| && h'[n] == h[n].(parent := q)
    requires forall a | a in Addrs(h, n, u) && a != n :: 0 <= a < |h| && h'[a] == h[a]
    ensures Repr(h', n, q, u) && Addrs(h', n, u) == Addrs(h, n, u)
  {
    if u.Node? {
      Reparent(h, n, c, u, q);
      ReprBounds(h, n, c, u);
      ReprFrame(h[n := h[n].(parent := q)], h', n, q, u);
    }
  }

  /**
    Unlinking a non-root node c with at most one child through
    `replaceChild(c.parent, c, child)`: the call succeeds, and the tree loses
    exactly the node c, its child (if any) taking c's place.
   */
  lemma SpliceOut<V>(h: seq<Cell<V>>, root: int, t: Tree<V>, path: Path, c: int, q: int, n: int, h': seq<Cell<V>>)
    requires Repr(h, root, Null, t) && OnTree(t, path) && |path| > 0
    requires SubAt(t, path).Node? && (SubAt(t, path).left == Leaf || SubAt(t, path).right == Leaf)
    requires c == AddrAt(h, root, t, path) && 0 <= c < |h| && q == h[c].parent
    requires n == (if h[c].left != Null then h[c].left else h[c].right)
    requires 0 <= q < |h| && (n == Null || 0 <= n < |h|)
    requires h' == ReplaceChild(h, q, c, n).0
    ensures ReplaceChild(h, q, c, n).1
    ensures Repr(h', root, Null, ReplaceAt(t, path, Removal.RemoveRoot(SubAt(t, path))))
    ensures Addrs(h', root, ReplaceAt(t, path, Removal.RemoveRoot(SubAt(t, path)))) == Addrs(h, root, t) - {c}
  {
    var p0, e := path[..|path| - 1], path[|path| - 1];
    assert path == p0 + [e];
    SubAtSnoc(t, p0, e);
    AddrAtStep(h, root, Null, t, p0, e);
    ReprAt(h, root, Null, t, path);
    ReprAt(h, root, Null, t, p0);
    OnlyChild(h, c, q, SubAt(t, path), n);
    OtherSlotDiffers(h, q, ParentAt(h, root, Null, t, p0), SubAt(t, p0), e, c);
    ReprBounds(h, c, q, SubAt(t, path));
    SpliceStore(h, q, e, c, n, h');
    UnlinkAt(h, h', root, t, p0, e, c, q, n);
  }

  /** `SpliceOut`, stated on the store the splice leaves rather than on the call making it. */
  lemma UnlinkAt<V>(h: seq<Cell<V>>, h': seq<Cell<V>>, root: int, t: Tree<V>, p0: Path, e: Side, c: int, q: int, n: int)
    requires Repr(h, root, Null, t) && OnTree(t, p0) && SubAt(t, p0).Node?
    requires q == AddrAt(h, root, t, p0) && 0 <= q < |h| && c == Slot(h[q], e)
    requires Child(SubAt(t, p0), e).Node?
    requires Child(SubAt(t, p0), e).left == Leaf || Child(SubAt(t, p0), e).right == Leaf
    requires 0 <= c < |h| && n == (if h[c].left != Null then h[c].left else h[c].right)
    requires |h'| == |h| && h'[q] == SetSlot(h[q], e, n)
    requires n != Null ==> 0 <= n < |h| && h'[n] == h[n].(parent := q)
    requires forall a | 0 <= a < |h| && a != q && a != n :: h'[a] == h[a]
    ensures OnTree(t, p0 + [e])
    ensures Repr(h', root, Null, ReplaceAt(t, p0 + [e], Removal.RemoveRoot(Child(SubAt(t, p0), e))))
    ensures Addrs(h', root, ReplaceAt(t, p0 + [e], Removal.RemoveRoot(Child(SubAt(t, p0), e))))
         == Addrs(h, root, t) - {c}
  {
    var sub := Child(SubAt(t, p0), e);
    var u := Removal.RemoveRoot(sub);
    UnlinkFacts(h, h', root, t, p0, e, c, q, n);
    ReplaceChildAt(h, h', root, Null, t, p0, e, q, n, u);
    var A, C := Addrs(h, root, t), Addrs(h, c, sub);
    assert (A - C) + Addrs(h, n, u) == A - {c};
  }

  /** What `UnlinkAt` needs to know about the unlinked node, its child and their addresses. */
  lemma UnlinkFacts<V>(h: seq<Cell<V>>, h': seq<Cell<V>>, root: int, t: Tree<V>, p0: Path, e: Side, c: int, q: int, n: int)
    requires Repr(h, root, Null, t) && OnTree(t, p0) && SubAt(t, p0).Node?
    requires q == AddrAt(h, root, t, p0) && 0 <= q < |h| && c == Slot(h[q], e)
    requires Child(SubAt(t, p0), e).Node?
    requires Child(SubAt(t, p0), e).left == Leaf || Child(SubAt(t, p0), e).right == Leaf
    requires 0 <= c < |h| && n == (if h[c].left != Null then h[c].left else h[c].right)
    requires |h'| == |h| && h'[q] == SetSlot(h[q], e, n)
    requires n != Null ==> 0 <= n < |h| && h'[n] == h[n].(parent := q)
    requires forall a | 0 <= a < |h| && a != q && a != n :: h'[a] == h[a]
    ensures var sub := Child(SubAt(t, p0), e);
      var u := Removal.RemoveRoot(sub);
      && Repr(h', n, q, u) && Addrs(h', n, u) == Addrs(h, n, u)
      && Addrs(h, c, sub) == {c} + Addrs(h, n, u) && c !in Addrs(h, n, u)
      && Addrs(h, c, sub) <= Addrs(h, root, t) && q !in Addrs(h, c, sub)
    ensures forall a | a in Addrs(h, root, t) :: 0 <= a < |h|
  {
    var sub := Child(SubAt(t, p0), e);
    var u := Removal.RemoveRoot(sub);
    AddrAtStep(h, root, Null, t, p0, e);
    ReprAt(h, root, Null, t, p0 + [e]);
    ReprAt(h, root, Null, t, p0);
    OnlyChild(h, c, q, sub, n);
    ReprBounds(h, root, Null, t);
    Rehung(h, h', n, c, q, u);
  }

  /**
    Removing the root when it has at most one child: `root_` becomes that
    child, whose parent link is set to null.
   */
  lemma SpliceRoot<V>(h: seq<Cell<V>>, root: int, t: Tree<V>, n: int, h': seq<Cell<V>>)
    requires Repr(h, root, Null, t) && t.Node? && (t.left == Leaf || t.right == Leaf) && 0 <= root < |h|
    requires n == (if h[root].left != Null then h[root].left else h[root].right)
    requires n == Null || 0 <= n < |h|
    requires h' == if n != Null then h[n := h[n].(parent := Null)] else h
    ensures Repr(h', n, Null, Removal.RemoveRoot(t))
    ensures Addrs(h', n, Removal.RemoveRoot(t)) == Addrs(h, root, t) - {root}
  {
    OnlyChild(h, root, Null, t, n);
    if n != Null {
      Reparent(h, n, root, Removal.RemoveRoot(t), Null);
    }
  }

  /** The node at the end of a non-empty path is not the root. */
  lemma BelowRoot<V>(h: seq<Cell<V>>, root: int, t: Tree<V>, path: Path)
    requires Repr(h, root, Null, t) && OnTree(t, path) && SubAt(t, path).Node?
    ensures AddrAt(h, root, t, path) == root <==> |path| == 0
  {
    ReprAt(h, root, Null, t, path);
    ReprBounds(h, AddrAt(h, root, t, path), ParentAt(h, root, Null, t, path), SubAt(t, path));
  }

  /** Overwriting a node's key and value relabels the subtree it heads. */
  lemma RelabelHere<V>(h: seq<Cell<V>>, h': seq<Cell<V>>, c: int, parent: int, sub: Tree<V>, k: Key, v: V)
    requires Repr(h, c, parent, sub) && sub.Node?
    requires |h'| == |h| && h'[c] == h[c].(key := k, value := v)
    requires forall a | 0 <= a < |h| && a != c :: h'[a] == h[a]
    ensures Repr(h', c, parent, Node(sub.left, k, v, sub.right))
    ensures Addrs(h', c, Node(sub.left, k, v, sub.right)) == Addrs(h, c, sub)
  {
    ReprBounds(h, h[c].left, c, sub.left);
    ReprBounds(h, h[c].right, c, sub.right);
    ReprFrame(h, h', h[c].left, c, sub.left);
    ReprFrame(h, h', h[c].right, c, sub.right);
  }

  /** Overwriting the key and value of the node at a path relabels that position of the tree. */
  lemma RelabelAt<V>(h: seq<Cell<V>>, h': seq<Cell<V>>, root: int, t: Tree<V>, path: Path, c: int, k: Key, v: V)
    requires Repr(h, root, Null, t) && OnTree(t, path) && SubAt(t, path).Node?
    requires c == AddrAt(h, root, t, path) && 0 <= c < |h|
    requires |h'| == |h| && h'[c] == h[c].(key := k, value := v)
    requires forall a | 0 <= a < |h| && a != c :: h'[a] == h[a]
    ensures Repr(h', root, Null, ReplaceAt(t, path, Node(SubAt(t, path).left, k, v, SubAt(t, path).right)))
    ensures Addrs(h', root, ReplaceAt(t, path, Node(SubAt(t, path).left, k, v, SubAt(t, path).right)))
         == Addrs(h, root, t)
  {
    var sub := SubAt(t, path);
    var s := Node(sub.left, k, v, sub.right);
    var X := Addrs(h, c, sub);
    var pc := ParentAt(h, root, Null, t, path);
    assert Repr(h, c, pc, sub) && X <= Addrs(h, root, t) && c in X by {
      ReprAt(h, root, Null, t, path);
      ReprBounds(h, c, pc, sub);
    }
    assert Repr(h', c, pc, s) && Addrs(h', c, s) == X by {
      RelabelHere(h, h', c, pc, sub, k, v);
    }
    if |path| > 0 {
      RelabelBelow(h, h', root, t, path, c, s);
    }
  }

  /** The relabelled node hangs from the same parent slot, so the rest of the tree is unchanged. */
  lemma RelabelBelow<V>(h: seq<Cell<V>>, h': seq<Cell<V>>, root: int, t: Tree<V>, path: Path, c: int, s: Tree<V>)
    requires Repr(h, root, Null, t) && OnTree(t, path) && SubAt(t, path).Node? && |path| > 0
    requires c == AddrAt(h, root, t, path) && 0 <= c < |h|
    requires |h'| == |h| && h'[c].left == h[c].left && h'[c].right == h[c].right
    requires forall a | 0 <= a < |h| && a != c :: h'[a] == h[a]
    requires Repr(h', c, ParentAt(h, root, Null, t, path), s)
    requires Addrs(h', c, s) == Addrs(h, c, SubAt(t, path)) && c in Addrs(h', c, s)
    requires Addrs(h, c, SubAt(t, path)) <= Addrs(h, root, t)
    ensures Repr(h', root, Null, ReplaceAt(t, path, s))
    ensures Addrs(h', root, ReplaceAt(t, path, s)) == Addrs(h, root, t)
  {
    var p0, e := path[..|path| - 1], path[|path| - 1];
    assert path == p0 + [e];
    assert OnTree(t, p0) && SubAt(t, p0).Node? && Child(SubAt(t, p0), e) == SubAt(t, path) by {
      SubAtSnoc(t, p0, e);
    }
    var q := AddrAt(h, root, t, p0);
    assert 0 <= q < |h| && Slot(h[q], e) == c && ParentAt(h, root, Null, t, path) == q by {
      AddrAtStep(h, root, Null, t, p0, e);
    }
    assert q != c by {
      ReprAt(h, root, Null, t, p0);
    }
    assert h'[q] == SetSlot(h[q], e, c);
    assert forall a | a in Addrs(h, root, t) :: 0 <= a < |h| by {
      ReprBounds(h, root, Null, t);
    }
    ReplaceChildAt(h, h', root, Null, t, p0, e, q, c, s);
  }



  /**
    `remove(node)` for the node at `path` (null when the path ends at an empty
    slot): the tree becomes `RemoveAt(t, path)` on a subset of the nodes it
    had, one fewer when there is one to remove, the store keeps its length,
    and the root, if any, still has a null parent link.
   */
  method RemoveNode<V>(a: Linked<V>, node: int, ghost t: Tree<V>, ghost path: Path) returns (b: Linked<V>)
    requires Abstracts(a, t) && OnTree(t, path) && node == AddrAt(a.cells, a.root, t, path)
    ensures Abstracts(b, RemoveAt(t, path))
    ensures |b.cells| == |a.cells|
    ensures Addrs(b.cells, b.root, RemoveAt(t, path)) <= Addrs(a.cells, a.root, t)
    ensures SubAt(t, path).Node? ==> |Addrs(b.cells, b.root, RemoveAt(t, path))| + 1 == |Addrs(a.cells, a.root, t)|
    ensures node == Null ==> b == a
    ensures b.root != Null ==> 0 <= b.root < |b.cells| && b.cells[b.root].parent == Null
    decreases if SubAt(t, path).Node? && SubAt(t, path).left.Node? && SubAt(t, path).right.Node? then 1 else 0
  {
    var h := a.cells;
    ReprAt(h, a.root, Null, t, path);
    if node == Null {
      return a;
    }
    ghost var sub := SubAt(t, path);
    if h[node].left != Null && h[node].right != Null {
      var succ, walk := FindSuccessor(h, a.root, t, path, node);
      // Copy the successor's key and value into the node, then remove the successor.
      var h1 := h[node := h[node].(key := h[succ].key, value := h[succ].value)];
      ghost var t1 := ReplaceAt(t, path, Node(sub.left, h[succ].key, h[succ].value, sub.right));
      ghost var path2 := path + [Right] + walk;
      SuccessorStep(h, h1, a.root, t, path, node, succ, walk, t1, path2);
      b := RemoveNode(Linked(h1, a.root), succ, t1, path2);
    } else {
      b := Unlink(a, node, t, path);
    }
  }

  /** The successor of a node with two children: the leftmost node of its right subtree. */
  method FindSuccessor<V>(h: seq<Cell<V>>, root: int, ghost t: Tree<V>, ghost path: Path, node: int)
    returns (succ: int, ghost walk: Path)
    requires Repr(h, root, Null, t) && OnTree(t, path) && node == AddrAt(h, root, t, path)
    requires 0 <= node < |h| && h[node].left != Null && h[node].right != Null
    ensures SubAt(t, path).Node? && SubAt(t, path).left.Node? && SubAt(t, path).right.Node?
    ensures OnTree(SubAt(t, path).right, walk) && SubAt(SubAt(t, path).right, walk).Node?
    ensures succ == AddrAt(h, h[node].right, SubAt(t, path).right, walk) && 0 <= succ < |h| && h[succ].left == Null
    ensures LeftPath(SubAt(t, path).right) == walk + LeftPath(SubAt(SubAt(t, path).right, walk))
  {
    ReprAt(h, root, Null, t, path);
    ghost var sub := SubAt(t, path);
    succ := h[node].right;
    ghost var rc, r := succ, sub.right;
    AddrAtStep(h, root, Null, t, path, Right);
    ReprAt(h, root, Null, t, path + [Right]);
    walk := [];
    while h[succ].left != Null
      invariant OnTree(r, walk) && SubAt(r, walk).Node? && succ == AddrAt(h, rc, r, walk) && 0 <= succ < |h|
      invariant LeftPath(r) == walk + LeftPath(SubAt(r, walk))
      decreases Size(SubAt(r, walk))
    {
      ReprAt(h, rc, node, r, walk);
      AddrAtStep(h, rc, node, r, walk, Left);
      LeftPathStep(r, walk);
      ReprAt(h, rc, node, r, walk + [Left]);
      succ := h[succ].left;
      walk := walk + [Left];
    }
  }

  /**
    Cases 2 to 4 of removal: a node with at most one child is replaced by that
    child, as the new root with a null parent or through its parent's slot.
   */
  method Unlink<V>(a: Linked<V>, node: int, ghost t: Tree<V>, ghost path: Path) returns (b: Linked<V>)
    requires Abstracts(a, t) && OnTree(t, path) && node == AddrAt(a.cells, a.root, t, path)
    requires 0 <= node < |a.cells| && (a.cells[node].left == Null || a.cells[node].right == Null)
    ensures Abstracts(b, RemoveAt(t, path))
    ensures |b.cells| == |a.cells|
    ensures Addrs(b.cells, b.root, RemoveAt(t, path)) <= Addrs(a.cells, a.root, t)
    ensures SubAt(t, path).Node? ==> |Addrs(b.cells, b.root, RemoveAt(t, path))| + 1 == |Addrs(a.cells, a.root, t)|
    ensures b.root != Null ==> 0 <= b.root < |b.cells| && b.cells[b.root].parent == Null
  {
    var h := a.cells;
    ReprAt(h, a.root, Null, t, path);
    ghost var sub := SubAt(t, path);
    BelowRoot(h, a.root, t, path);
    if node == a.root {
      var newRoot := if h[node].left != Null then h[node].left else h[node].right;
      OnlyChild(h, node, Null, sub, newRoot);
      var h' := if newRoot != Null then h[newRoot := h[newRoot].(parent := Null)] else h;
      SpliceRoot(h, a.root, t, newRoot, h');
      b := Linked(h', newRoot);
    } else {
      var child := if h[node].left != Null then h[node].left else h[node].right;
      OnlyChild(h, node, ParentAt(h, a.root, Null, t, path), sub, child);
      NonRootParent(h, a.root, t, path);
      var (h', _) := ReplaceChild(h, h[node].parent, node, child);
      SpliceOut(h, a.root, t, path, node, h[node].parent, child, h');
      b := Linked(h', a.root);
    }
    LosesOne(a, b, t, path);
  }


  /**
    After the successor walk: relabelling the node with the successor's entry
    gives a tree in which the successor sits at `path2` with no left child,
    and removing it there completes the removal of the node at `path`.
   */
  lemma SuccessorStep<V>(h: seq<Cell<V>>, h1: seq<Cell<V>>, root: int, t: Tree<V>, path: Path, node: int,
                         succ: int, walk: Path, t1: Tree<V>, path2: Path)
    requires Repr(h, root, Null, t) && OnTree(t, path)
    requires SubAt(t, path).Node? && SubAt(t, path).left.Node? && SubAt(t, path).right.Node?
    requires node == AddrAt(h, root, t, path) && 0 <= node < |h|
    requires OnTree(SubAt(t, path).right, walk) && SubAt(SubAt(t, path).right, walk).Node?
    requires succ == AddrAt(h, h[node].right, SubAt(t, path).right, walk) && 0 <= succ < |h| && h[succ].left == Null
    requires LeftPath(SubAt(t, path).right) == walk + LeftPath(SubAt(SubAt(t, path).right, walk))
    requires h1 == h[node := h[node].(key := h[succ].key, value := h[succ].value)]
    requires t1 == ReplaceAt(t, path, Node(SubAt(t, path).left, h[succ].key, h[succ].value, SubAt(t, path).right))
    requires path2 == path + [Right] + walk
    ensures Repr(h1, root, Null, t1) && Addrs(h1, root, t1) == Addrs(h, root, t)
    ensures OnTree(t1, path2) && succ == AddrAt(h1, root, t1, path2)
    ensures SubAt(t1, path2).Node? && SubAt(t1, path2).left == Leaf
    ensures RemoveAt(t1, path2) == RemoveAt(t, path)
  {
    var sub := SubAt(t, path);
    var r := sub.right;
    var rc := h[node].right;
    AddrAtStep(h, root, Null, t, path, Right);
    ReprAt(h, root, Null, t, path + [Right]);
    ReprAt(h, rc, node, r, walk);
    assert LeftPath(SubAt(r, walk)) == [] && walk + [] == walk;
    var m := Removal.LeftmostNode(r);
    assert SubAt(r, walk) == m;
    RelabelAt(h, h1, root, t, path, node, m.key, m.value);
    SuccessorRemoval(t, path);
    AddrAtAppend(h, root, t, path + [Right], walk);
    AddrAtLinksOnly(h, h1, root, t, t1, path2);
  }

  /** A node below the root has a parent link naming a node of the store. */
  lemma NonRootParent<V>(h: seq<Cell<V>>, root: int, t: Tree<V>, path: Path)
    requires Repr(h, root, Null, t) && OnTree(t, path) && SubAt(t, path).Node? && |path| > 0
    ensures 0 <= AddrAt(h, root, t, path) < |h|
    ensures 0 <= h[AddrAt(h, root, t, path)].parent < |h|
  {
    var p0, e := path[..|path| - 1], path[|path| - 1];
    assert path == p0 + [e];
    SubAtSnoc(t, p0, e);
    AddrAtStep(h, root, Null, t, p0, e);
    ReprAt(h, root, Null, t, path);
  }

  /**
    `remove(key)`: finds the first node holding the key with the iterative or
    the recursive search, as `iterative` selects, and removes it; when the key
    is absent the tree object is left exactly as it was.
   */
  method RemoveKey<V>(a: Linked<V>, k: Key, iterative: bool, ghost t: Tree<V>) returns (b: Linked<V>)
    requires Abstracts(a, t)
    ensures Abstracts(b, Removal.Remove(t, k))
    ensures |b.cells| == |a.cells|
    ensures Addrs(b.cells, b.root, Removal.Remove(t, k)) <= Addrs(a.cells, a.root, t)
    ensures Lookup.SearchRecursive(t, k).None? ==> b == a
  {
    var node;
    if iterative {
      node := LinkedSearch.SearchIterative(a, k, t);
    } else {
      node := LinkedSearch.SearchRecursive(a.cells, a.root, k, Null, t);
    }
    if node == Null {
      ghost var path := InsertPath(t, k);
      ReprAt(a.cells, a.root, Null, t, path);
      b := RemoveNode(a, node, t, path);
    } else {
      ghost var path := SearchPath(t, k);
      RemoveAtPath(t, k);
      b := RemoveNode(a, node, t, path);
    }
  }
}
