/**
  The copy constructor's `makeCopy` and `clear`.

  `makeCopy` allocates a fresh node for every node of the original, in
  pre-order, links the copies of the children under it and points their
  parent links back at it. Allocation appends a cell to the store the copy
  is built in. `clear` deletes the nodes in post-order, children before their
  parent, and then sets `root_` to null; the model returns the order in which
  the nodes are deleted.
 */
module LinkedCopy {
  import opened KeyOrder
  import opened Trees
  import opened LinkedTree

  /**
    `makeCopy(originalNode)`, building into store g: the copy heads a tree
    holding the same entries in the same shape, with consistent parent links,
    made only of cells appended to g; the cells of g are kept as they are.
   */
  method MakeCopy<V>(h: seq<Cell<V>>, node: int, ghost parent: int, ghost t: Tree<V>, g: seq<Cell<V>>)
    returns (g': seq<Cell<V>>, c: int)
    requires Repr(h, node, parent, t)
    ensures Repr(g', c, Null, t)
    ensures |g'| == |g| + Size(t) && forall a | 0 <= a < |g| :: g'[a] == g[a]
    ensures forall a | a in Addrs(g', c, t) :: |g| <= a < |g'|
    ensures c == Null <==> node == Null
    ensures node != Null ==> c == |g|
    decreases t
  {
    if node == Null {
      return g, Null;
    }
    c := |g|;
    var g0 := g + [Cell(h[node].key, h[node].value, Null, Null, Null)];
    var g1, l := MakeCopy(h, h[node].left, node, t.left, g0);
    var g2, r := MakeCopy(h, h[node].right, node, t.right, g1);
    Kept(g1, g2, l, t.left);
    Separate(g2, c, l, r, t, |g0|, |g1|);
    g' := Attach(g2, c, l, r);
    Attached(g2, c, l, r, t);
    assert forall a | a in Addrs(g', c, t) :: |g| <= a < |g'|;
    assert forall a | 0 <= a < |g| :: g'[a] == g2[a] == g1[a] == g0[a];
  }

  /**
    The writes `makeCopy` makes once both copies exist: the new cell's child
    links, then the parent link of each non-null child.
   */
  function Attach<V>(g: seq<Cell<V>>, c: int, l: int, r: int): (g': seq<Cell<V>>)
    requires 0 <= c < |g| && (l == Null || 0 <= l < |g|) && (r == Null || 0 <= r < |g|)
    ensures |g'| == |g|
  {
    SetParent(SetParent(g[c := g[c].(left := l, right := r)], l, c), r, c)
  }

  /** Points the parent link of x, when it is not null, at c. */
  function SetParent<V>(g: seq<Cell<V>>, x: int, c: int): (g': seq<Cell<V>>)
    requires x == Null || 0 <= x < |g|
    ensures |g'| == |g|
  {
    if x != Null then g[x := g[x].(parent := c)] else g
  }

  /**
    The new cell c sits below both copies' cells, which lie in disjoint
    ranges of the store: the two copies are disjoint and hold neither c nor
    any cell below it.
   */
  lemma Separate<V>(g: seq<Cell<V>>, c: int, l: int, r: int, t: Tree<V>, lo: int, mid: int)
    requires t.Node? && 0 <= c < lo <= mid <= |g|
    requires Repr(g, l, Null, t.left) && Repr(g, r, Null, t.right)
    requires forall a | a in Addrs(g, l, t.left) :: lo <= a < mid
    requires forall a | a in Addrs(g, r, t.right) :: mid <= a < |g|
    ensures Addrs(g, l, t.left) !! Addrs(g, r, t.right)
    ensures c !in Addrs(g, l, t.left) && c !in Addrs(g, r, t.right)
    ensures l == Null || (l in Addrs(g, l, t.left) && lo <= l < |g|)
    ensures r == Null || (r in Addrs(g, r, t.right) && lo <= r < |g|)
  {
    ReprBounds(g, l, Null, t.left);
    ReprBounds(g, r, Null, t.right);
    forall a | a in Addrs(g, l, t.left)
      ensures a !in Addrs(g, r, t.right)
    {
    }
  }

  /**
    A new cell c holding the entry of t's root, outside two disjoint copies
    of its subtrees, heads a copy of t once `makeCopy`'s writes are made; no
    other cell changes.
   */
  lemma Attached<V>(g: seq<Cell<V>>, c: int, l: int, r: int, t: Tree<V>)
    requires t.Node? && 0 <= c < |g| && g[c] == Cell(t.key, t.value, Null, Null, Null)
    requires Repr(g, l, Null, t.left) && Repr(g, r, Null, t.right)
    requires Addrs(g, l, t.left) !! Addrs(g, r, t.right)
    requires c !in Addrs(g, l, t.left) && c !in Addrs(g, r, t.right)
    requires l == Null || (l in Addrs(g, l, t.left) && 0 <= l < |g|)
    requires r == Null || (r in Addrs(g, r, t.right) && 0 <= r < |g|)
    ensures Repr(Attach(g, c, l, r), c, Null, t)
    ensures Addrs(Attach(g, c, l, r), c, t) == {c} + Addrs(g, l, t.left) + Addrs(g, r, t.right)
    ensures forall a | 0 <= a < |g| && a != c && a != l && a != r :: Attach(g, c, l, r)[a] == g[a]
  {
    ReprBounds(g, l, Null, t.left);
    ReprBounds(g, r, Null, t.right);
    var g3 := g[c := g[c].(left := l, right := r)];
    assert SetParent(SetParent(g3, l, c), r, c) == Attach(g, c, l, r);
    SetLinks(g, g3, c, l, r, t);
    HangBoth(g3, c, l, r, t);
  }

  /** Pointing both copies' parent links at c, which links to them, makes c head the copied tree. */
  lemma HangBoth<V>(g: seq<Cell<V>>, c: int, l: int, r: int, t: Tree<V>)
    requires t.Node? && 0 <= c < |g| && g[c] == Cell(t.key, t.value, l, r, Null)
    requires Repr(g, l, Null, t.left) && Repr(g, r, Null, t.right)
    requires forall a | a in Addrs(g, l, t.left) :: 0 <= a < |g|
    requires forall a | a in Addrs(g, r, t.right) :: 0 <= a < |g|
    requires Addrs(g, l, t.left) !! Addrs(g, r, t.right)
    requires c !in Addrs(g, l, t.left) && c !in Addrs(g, r, t.right)
    requires (l == Null || l in Addrs(g, l, t.left)) && (r == Null || r in Addrs(g, r, t.right))
    ensures (l == Null || 0 <= l < |g|) && (r == Null || 0 <= r < |g|)
    ensures Repr(SetParent(SetParent(g, l, c), r, c), c, Null, t)
    ensures Addrs(SetParent(SetParent(g, l, c), r, c), c, t) == {c} + Addrs(g, l, t.left) + Addrs(g, r, t.right)
    ensures forall a | 0 <= a < |g| && a != c && a != l && a != r :: SetParent(SetParent(g, l, c), r, c)[a] == g[a]
  {
    var g4 := SetParent(g, l, c);
    Hang(g, c, l, t.left, r, Null, t.right);
    HangRight(g4, c, l, r, t);
  }

  /** The second of the two parent-link writes, then the join. */
  lemma HangRight<V>(g: seq<Cell<V>>, c: int, l: int, r: int, t: Tree<V>)
    requires t.Node? && 0 <= c < |g| && g[c] == Cell(t.key, t.value, l, r, Null)
    requires Repr(g, l, c, t.left) && Repr(g, r, Null, t.right)
    requires forall a | a in Addrs(g, l, t.left) :: 0 <= a < |g|
    requires forall a | a in Addrs(g, r, t.right) :: 0 <= a < |g|
    requires Addrs(g, l, t.left) !! Addrs(g, r, t.right)
    requires c !in Addrs(g, l, t.left) && c !in Addrs(g, r, t.right)
    requires r == Null || r in Addrs(g, r, t.right)
    ensures r == Null || 0 <= r < |g|
    ensures Repr(SetParent(g, r, c), c, Null, t)
    ensures Addrs(SetParent(g, r, c), c, t) == {c} + Addrs(g, l, t.left) + Addrs(g, r, t.right)
  {
    var g5 := SetParent(g, r, c);
    Hang(g, c, r, t.right, l, c, t.left);
    Join(g5, c, Null, t, l, r);
  }

  /** Appending cells keeps a tree made of the earlier cells. */
  lemma Kept<V>(g: seq<Cell<V>>, g': seq<Cell<V>>, x: int, s: Tree<V>)
    requires Repr(g, x, Null, s) && |g| <= |g'| && forall a | 0 <= a < |g| :: g'[a] == g[a]
    ensures Repr(g', x, Null, s) && Addrs(g', x, s) == Addrs(g, x, s)
  {
    ReprBounds(g, x, Null, s);
    ReprFrame(g, g', x, Null, s);
  }

  /** Writing the child links of a cell outside both copies keeps the copies. */
  lemma SetLinks<V>(g: seq<Cell<V>>, g': seq<Cell<V>>, c: int, l: int, r: int, t: Tree<V>)
    requires t.Node? && 0 <= c < |g|
    requires Repr(g, l, Null, t.left) && Repr(g, r, Null, t.right)
    requires c !in Addrs(g, l, t.left) && c !in Addrs(g, r, t.right)
    requires forall a | a in Addrs(g, l, t.left) :: 0 <= a < |g|
    requires forall a | a in Addrs(g, r, t.right) :: 0 <= a < |g|
    requires g' == g[c := g[c].(left := l, right := r)]
    ensures Repr(g', l, Null, t.left) && Addrs(g', l, t.left) == Addrs(g, l, t.left)
    ensures Repr(g', r, Null, t.right) && Addrs(g', r, t.right) == Addrs(g, r, t.right)
  {
    ReprFrame(g, g', l, Null, t.left);
    ReprFrame(g, g', r, Null, t.right);
  }

  /**
    Pointing the parent link of the copy at x to c makes c its parent and
    keeps the other copy, which does not contain x.
   */
  lemma Hang<V>(g: seq<Cell<V>>, c: int, x: int, s: Tree<V>, y: int, py: int, o: Tree<V>)
    requires Repr(g, x, Null, s) && Repr(g, y, py, o)
    requires x !in Addrs(g, y, o) && 0 <= c < |g| && c != x
    requires forall a | a in Addrs(g, y, o) :: 0 <= a < |g|
    ensures x == Null || 0 <= x < |g|
    ensures Repr(SetParent(g, x, c), x, c, s) && Addrs(SetParent(g, x, c), x, s) == Addrs(g, x, s)
    ensures Repr(SetParent(g, x, c), y, py, o) && Addrs(SetParent(g, x, c), y, o) == Addrs(g, y, o)
    ensures SetParent(g, x, c)[c] == g[c]
  {
    if x != Null {
      Reparent(g, x, Null, s, c);
      ReprFrame(g, SetParent(g, x, c), y, py, o);
    }
  }

  /**
    The copy constructor: a new tree object whose store holds exactly the
    copies, standing for the same tree as the original.
   */
  method CopyTree<V>(a: Linked<V>, ghost t: Tree<V>) returns (b: Linked<V>)
    requires Abstracts(a, t)
    ensures Abstracts(b, t)
    ensures |b.cells| == Size(t)
    ensures Addrs(b.cells, b.root, t) == Below(Size(t))
    ensures LinksConsistent(b.cells, Addrs(b.cells, b.root, t))
  {
    var cells, root := MakeCopy(a.cells, a.root, Null, t, []);
    b := Linked(cells, root);
    ReprBounds(cells, root, Null, t);
    ReprLinks(cells, root, Null, t);
    Fills(Addrs(cells, root, t), Size(t));
  }

  /** The addresses 0 .. n - 1. */
  ghost function Below(n: nat): (r: set<int>)
    ensures forall a :: a in r <==> 0 <= a < n
    ensures |r| == n
  {
    if n == 0 then {} else Below(n - 1) + {n - 1}
  }

  /** A set of n addresses all below n is every address below n. */
  lemma Fills(s: set<int>, n: nat)
    requires forall a | a in s :: 0 <= a < n
    requires |s| == n
    ensures s == Below(n)
  {
    var rest := Below(n) - s;
    assert Below(n) == s + rest;
    assert |rest| == 0;
  }

  /** p is a child of q in store h. */
  ghost predicate ChildOf<V>(h: seq<Cell<V>>, p: int, q: int)
  {
    0 <= q < |h| && p != Null && (h[q].left == p || h[q].right == p)
  }

  /** In the deletion order s, no node is deleted before its children. */
  ghost predicate ChildrenFirst<V>(h: seq<Cell<V>>, s: seq<int>)
  {
    forall i, j | 0 <= i < |s| && 0 <= j < |s| && ChildOf(h, s[i], s[j]) :: i < j
  }

  predicate Distinct(s: seq<int>)
  {
    forall i, j | 0 <= i < j < |s| :: s[i] != s[j]
  }

  /**
    `clear(node)`: the addresses it deletes, in order. Every node of the tree
    is deleted exactly once, and each after its children, so no node is read
    after it is deleted.
   */
  method ClearFrom<V>(h: seq<Cell<V>>, node: int, ghost parent: int, ghost t: Tree<V>) returns (freed: seq<int>)
    requires Repr(h, node, parent, t)
    ensures (set a | a in freed) == Addrs(h, node, t)
    ensures |freed| == Size(t) && Distinct(freed)
    ensures ChildrenFirst(h, freed)
    ensures node != Null ==> |freed| > 0 && freed[|freed| - 1] == node
    decreases t
  {
    if node == Null {
      return [];
    }
    var l := ClearFrom(h, h[node].left, node, t.left);
    var r := ClearFrom(h, h[node].right, node, t.right);
    freed := l + r + [node];
    ClearStep(h, node, parent, t, l, r);
  }

  /** The deletions of the two subtrees followed by the node's own make the node's deletion order. */
  lemma ClearStep<V>(h: seq<Cell<V>>, node: int, parent: int, t: Tree<V>, l: seq<int>, r: seq<int>)
    requires Repr(h, node, parent, t) && t.Node?
    requires (set a | a in l) == Addrs(h, h[node].left, t.left) && Distinct(l) && ChildrenFirst(h, l)
    requires (set a | a in r) == Addrs(h, h[node].right, t.right) && Distinct(r) && ChildrenFirst(h, r)
    requires |l| == Size(t.left) && |r| == Size(t.right)
    ensures (set a | a in l + r + [node]) == Addrs(h, node, t)
    ensures |l + r + [node]| == Size(t) && Distinct(l + r + [node])
    ensures ChildrenFirst(h, l + r + [node])
  {
    var L, R := Addrs(h, h[node].left, t.left), Addrs(h, h[node].right, t.right);
    Closed(h, node, parent, t);
    PostOrder(h, l, r, node, L, R);
  }

  /**
    The two subtrees of a node are disjoint, do not hold the node, and hold
    the children of their own nodes; the node's children head them.
   */
  lemma Closed<V>(h: seq<Cell<V>>, node: int, parent: int, t: Tree<V>)
    requires Repr(h, node, parent, t) && t.Node?
    ensures var L, R := Addrs(h, h[node].left, t.left), Addrs(h, h[node].right, t.right);
      && Addrs(h, node, t) == L + R + {node}
      && L !! R && node !in L && node !in R
      && (h[node].left == Null || h[node].left in L) && (h[node].right == Null || h[node].right in R)
      && (forall a | a in L :: 0 <= a < |h| && (h[a].left == Null || h[a].left in L) && (h[a].right == Null || h[a].right in L))
      && (forall a | a in R :: 0 <= a < |h| && (h[a].left == Null || h[a].left in R) && (h[a].right == Null || h[a].right in R))
  {
    ClosedBelow(h, h[node].left, node, t.left);
    ClosedBelow(h, h[node].right, node, t.right);
  }

  /** A represented tree holds the children of its own nodes, and its head when it is not empty. */
  lemma ClosedBelow<V>(h: seq<Cell<V>>, p: int, parent: int, t: Tree<V>)
    requires Repr(h, p, parent, t)
    ensures p == Null || p in Addrs(h, p, t)
    ensures forall a | a in Addrs(h, p, t) ::
      0 <= a < |h| && (h[a].left == Null || h[a].left in Addrs(h, p, t)) && (h[a].right == Null || h[a].right in Addrs(h, p, t))
  {
    ReprLinks(h, p, parent, t);
    ReprBounds(h, p, parent, t);
  }

  /**
    Deleting a left part, then a right part, then their parent keeps the
    parts' properties when the parts are disjoint and closed under child
    links, and the parent heads them.
   */
  lemma PostOrder<V>(h: seq<Cell<V>>, l: seq<int>, r: seq<int>, node: int, L: set<int>, R: set<int>)
    requires 0 <= node < |h|
    requires (set a | a in l) == L && (set a | a in r) == R
    requires Distinct(l) && Distinct(r) && ChildrenFirst(h, l) && ChildrenFirst(h, r)
    requires L !! R && node !in L && node !in R
    requires (h[node].left == Null || h[node].left in L) && (h[node].right == Null || h[node].right in R)
    requires forall a | a in L :: 0 <= a < |h| && (h[a].left == Null || h[a].left in L) && (h[a].right == Null || h[a].right in L)
    requires forall a | a in R :: 0 <= a < |h| && (h[a].left == Null || h[a].left in R) && (h[a].right == Null || h[a].right in R)
    ensures Distinct(l + r + [node]) && ChildrenFirst(h, l + r + [node])
    ensures (set a | a in l + r + [node]) == L + R + {node}
  {
    var s := l + r + [node];
    forall i, j | 0 <= i < |s| && 0 <= j < |s| && ChildOf(h, s[i], s[j])
      ensures i < j
    {
      if j < |l| {
        assert s[j] == l[j] && s[j] in L;
        if i >= |l| {
          assert false;
        }
        assert s[i] == l[i];
      } else if j < |l| + |r| {
        assert s[j] == r[j - |l|] && s[j] in R;
        if i < |l| {
          assert false;
        } else if i == |s| - 1 {
          assert false;
        }
        assert s[i] == r[i - |l|];
      }
    }
    forall i, j | 0 <= i < j < |s|
      ensures s[i] != s[j]
    {
      if j < |l| {
        assert s[i] == l[i] && s[j] == l[j];
      } else if j < |l| + |r| {
        if i < |l| {
          assert s[i] in L && s[j] in R;
        } else {
          assert s[i] == r[i - |l|] && s[j] == r[j - |l|];
        }
      } else if i < |l| {
        assert s[i] in L;
      } else {
        assert s[i] in R;
      }
    }
  }

  /**
    `clear()`: every node of the tree is deleted, children first, and the
    tree object then stands for the empty tree. The deleted cells stay in
    the store, unreachable.
   */
  method Clear<V>(a: Linked<V>, ghost t: Tree<V>) returns (b: Linked<V>, freed: seq<int>)
    requires Abstracts(a, t)
    ensures Abstracts(b, Leaf) && b.root == Null && b.cells == a.cells
    ensures (set x | x in freed) == Addrs(a.cells, a.root, t)
    ensures |freed| == Size(t) && Distinct(freed)
    ensures ChildrenFirst(a.cells, freed)
  {
    freed := ClearFrom(a.cells, a.root, Null, t);
    b := Linked(a.cells, Null);
  }
}
