/**
  Lookup by key. Both variants descend from the root, compare the query with
  the node's key, stop at the first equal key, go left when the query is
  strictly less and right otherwise. A found node is returned as its subtree,
  which is what the node pointer designates.
 */
module Lookup {
  import opened KeyOrder
  import opened Trees
  import opened Wrappers

  /** The error `search` reports for a missing key (`std::invalid_argument`). */
  datatype SearchError = InvalidArgument(message: string)

  const KeyNotFound: SearchError := InvalidArgument("Key not found")

  /**
    The recursive search. A hit is a node holding the query key whose entry
    is stored in the tree; on an ordered tree, a miss happens exactly when no
    node holds the key.
   */
  function SearchRecursive<V>(t: Tree<V>, k: Key): (found: Option<Tree<V>>)
    ensures found.Some? ==> found.value.Node? && found.value.key == k
    ensures found.Some? ==> (k, found.value.value) in Entries(t) && k in KeySet(t)
    ensures Ordered(t) ==> (found.None? <==> k !in KeySet(t))
  {
    match t
    case Leaf => None
    case Node(l, nk, _, r) =>
      if k == nk then Some(t)
      else if Less(k, nk) then SearchRecursive(l, k)
      else SearchRecursive(r, k)
  }

  /** The iterative search: a cursor walks down from the root. */
  method SearchIterative<V>(t: Tree<V>, k: Key) returns (found: Option<Tree<V>>)
    ensures found == SearchRecursive(t, k)
  {
    var cur := t;
    while cur.Node?
      invariant SearchRecursive(cur, k) == SearchRecursive(t, k)
      decreases cur
    {
      if k == cur.key {
        return Some(cur);
      } else if Less(k, cur.key) {
        cur := cur.left;
      } else {
        cur := cur.right;
      }
    }
    return None;
  }

  /**
    The public search: the value of the first matching node, or the
    "Key not found" error. On an ordered tree it fails exactly when the key
    is absent.
   */
  function Search<V>(t: Tree<V>, k: Key): (r: Result<V, SearchError>)
    ensures r.Success? ==> (k, r.value) in Entries(t)
    ensures r.Failure? ==> r.error == KeyNotFound
    ensures Ordered(t) ==> (r.Failure? <==> k !in KeySet(t))
  {
    match SearchRecursive(t, k)
    case None => Failure(KeyNotFound)
    case Some(node) => Success(node.value)
  }
}
