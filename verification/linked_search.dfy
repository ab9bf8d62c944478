/**
  The read-only pointer walks: the two searches, `search`, the in-order
  traversal and `getHeight`, run on the node store and related to the
  functional layer through `Repr`.
 */
module LinkedSearch {
  import opened KeyOrder
  import opened Trees
  import opened Wrappers
  import opened Positions
  import opened LinkedTree
  import Lookup

  /**
    The iterative search: walking from `root_`, it stops at the first node
    holding k and returns null when it falls off the tree. The node it returns
    is the one the functional search finds, reached along the same descent.
   */
  method SearchIterative<V>(a: Linked<V>, k: Key, ghost t: Tree<V>) returns (node: int)
    requires Abstracts(a, t)
    ensures node == Null <==> Lookup.SearchRecursive(t, k).None?
    ensures node != Null ==>
      && Lookup.SearchRecursive(t, k).Some?
      && node == AddrAt(a.cells, a.root, t, SearchPath(t, k))
      && 0 <= node < |a.cells|
      && a.cells[node].key == k && a.cells[node].value == Lookup.SearchRecursive(t, k).value.value
  {
    var h := a.cells;
    var cur := a.root;
    ghost var path: Path := [];
    while cur != Null
      invariant OnTree(t, path) && cur == AddrAt(h, a.root, t, path)
      invariant Lookup.SearchRecursive(SubAt(t, path), k) == Lookup.SearchRecursive(t, k)
      invariant Lookup.SearchRecursive(t, k).Some? ==> SearchPath(t, k) == path + SearchPath(SubAt(t, path), k)
      decreases Size(SubAt(t, path))
    {
      ReprAt(h, a.root, Null, t, path);
      ghost var sub := SubAt(t, path);
      if k == h[cur].key {
        assert Lookup.SearchRecursive(sub, k) == Some(sub);
        assert SearchPath(sub, k) == [] && path + [] == path;
        return cur;
      }
      ghost var d := if Less(k, h[cur].key) then Left else Right;
      SearchStep(t, path, k, d);
      AddrAtStep(h, a.root, Null, t, path, d);
      if Less(k, h[cur].key) {
        cur := h[cur].left;
      } else {
        cur := h[cur].right;
      }
      path := path + [d];
    }
    ReprAt(h, a.root, Null, t, path);
    return Null;
  }

  /** One step of the descent keeps the search's answer and its path ahead. */
  lemma SearchStep<V>(t: Tree<V>, path: Path, k: Key, d: Side)
    requires OnTree(t, path) && SubAt(t, path).Node?
    requires k != SubAt(t, path).key && d == (if Less(k, SubAt(t, path).key) then Left else Right)
    requires Lookup.SearchRecursive(SubAt(t, path), k) == Lookup.SearchRecursive(t, k)
    requires Lookup.SearchRecursive(t, k).Some? ==> SearchPath(t, k) == path + SearchPath(SubAt(t, path), k)
    ensures OnTree(t, path + [d]) && SubAt(t, path + [d]) == Child(SubAt(t, path), d)
    ensures Lookup.SearchRecursive(SubAt(t, path + [d]), k) == Lookup.SearchRecursive(t, k)
    ensures Lookup.SearchRecursive(t, k).Some? ==> SearchPath(t, k) == path + [d] + SearchPath(SubAt(t, path + [d]), k)
  {
    var sub := SubAt(t, path);
    SubAtAppend(t, path, [d]);
    if Lookup.SearchRecursive(t, k).Some? {
      assert Lookup.SearchRecursive(Child(sub, d), k) == Lookup.SearchRecursive(sub, k);
      var rest := SearchPath(Child(sub, d), k);
      assert SearchPath(sub, k) == [d] + rest;
      ConcatAssoc(path, [d], rest);
    }
  }

  lemma ConcatAssoc<T>(a: seq<T>, b: seq<T>, c: seq<T>)
    ensures a + b + c == a + (b + c)
  {
  }

  /**
    The recursive search from `node`: the same answer as the iterative
    search, for any subtree.
   */
  method SearchRecursive<V>(h: seq<Cell<V>>, node: int, k: Key, ghost parent: int, ghost t: Tree<V>)
    returns (found: int)
    requires Repr(h, node, parent, t)
    ensures found == Null <==> Lookup.SearchRecursive(t, k).None?
    ensures found != Null ==> found == AddrAt(h, node, t, SearchPath(t, k))
    decreases t
  {
    if node != Null {
      if k == h[node].key {
        return node;
      } else if Less(k, h[node].key) {
        found := SearchRecursive(h, h[node].left, k, node, t.left);
        return found;
      } else {
        found := SearchRecursive(h, h[node].right, k, node, t.right);
        return found;
      }
    }
    return Null;
  }

  /**
    `search`: the node found by the iterative or the recursive search, as
    `iterative` selects; its value, or `invalid_argument("Key not found")`
    when there is none. On an ordered tree it fails exactly when k is absent.
   */
  method Search<V>(a: Linked<V>, k: Key, iterative: bool, ghost t: Tree<V>) returns (r: Result<V, Lookup.SearchError>)
    requires Abstracts(a, t)
    ensures r == Lookup.Search(t, k)
    ensures r.Failure? ==> r.error == Lookup.KeyNotFound
    ensures Ordered(t) ==> (r.Failure? <==> k !in KeySet(t))
    ensures r.Success? ==> (k, r.value) in Entries(t)
  {
    var node;
    if iterative {
      node := SearchIterative(a, k, t);
    } else {
      node := SearchRecursive(a.cells, a.root, k, Null, t);
      if node != Null {
        ReprAt(a.cells, a.root, Null, t, SearchPath(t, k));
      }
    }
    if node == Null {
      return Failure(Lookup.KeyNotFound);
    }
    return Success(a.cells[node].value);
  }

  /** The in-order traversal from `node`, collecting the entries it would print. */
  method InorderFrom<V>(h: seq<Cell<V>>, node: int, ghost parent: int, ghost t: Tree<V>)
    returns (s: seq<(Key, V)>)
    requires Repr(h, node, parent, t)
    ensures s == Inorder(t)
    ensures multiset(s) == Entries(t)
    ensures Ordered(t) ==> SortedByKey(s)
    decreases t
  {
    if node == Null {
      return [];
    }
    var l := InorderFrom(h, h[node].left, node, t.left);
    var r := InorderFrom(h, h[node].right, node, t.right);
    s := l + [(h[node].key, h[node].value)] + r;
    InorderEntries(t);
    if Ordered(t) {
      InorderSorted(t);
    }
  }

  /** `getHeight` from `node`: -1 at null, else one more than the taller child. */
  method GetHeight<V>(h: seq<Cell<V>>, node: int, ghost parent: int, ghost t: Tree<V>) returns (height: int)
    requires Repr(h, node, parent, t)
    ensures height == Height(t)
    ensures height >= -1 && (height == -1 <==> node == Null)
    ensures height + 1 <= Size(t) < Pow2(height + 1)
    decreases t
  {
    HeightBounds(t);
    if node == Null {
      return -1;
    }
    var leftHeight := GetHeight(h, h[node].left, node, t.left);
    var rightHeight := GetHeight(h, h[node].right, node, t.right);
    return 1 + (if leftHeight < rightHeight then rightHeight else leftHeight);
  }
}
