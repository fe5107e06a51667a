/**
 * The node structure of an unbalanced binary search tree used as an ordered
 * map from integer keys to values, and the four recursions over it: lookup,
 * insertion, deletion and extraction of the minimum.
 *
 * An owned `Option<Box<Node>>` slot is a `Tree`: `Leaf` is the empty slot and
 * `Node` a node owning its two child slots. The recursions consume a subtree
 * and return the rebuilt one, so they are pure functions here.
 */
module Trees {

  /** The one error kind of the map. */
  datatype MapError = KeyNotFound

  datatype Result<T> = Ok(value: T) | Err(error: MapError)

  datatype Option<T> = None | Some(value: T) {
    /** Turns an absent value into `Err(error)`. */
    function OkOr(error: MapError): (r: Result<T>)
      ensures r.Ok? <==> Some?
      ensures r.Ok? ==> r.value == value
      ensures r.Err? ==> r.error == error
    {
      match this
      case Some(v) => Ok(v)
      case None => Err(error)
    }
  }

  datatype Tree<V> = Leaf | Node(key: int, value: V, left: Tree<V>, right: Tree<V>)

  /** The keys stored anywhere in `t`. */
  ghost function Keys<V>(t: Tree<V>): set<int>
  {
    match t
    case Leaf => {}
    case Node(k, _, l, r) => Keys(l) + {k} + Keys(r)
  }

  /** The ordering invariant: every left key is smaller, every right key larger. */
  ghost predicate BST<V>(t: Tree<V>)
  {
    match t
    case Leaf => true
    case Node(k, _, l, r) =>
      && BST(l) && BST(r)
      && (forall x :: x in Keys(l) ==> x < k)
      && (forall x :: x in Keys(r) ==> k < x)
  }

  /** The abstract map a tree stands for (in a BST the three parts are disjoint). */
  ghost function Contents<V>(t: Tree<V>): (m: map<int, V>)
    ensures m.Keys == Keys(t)
  {
    match t
    case Leaf => map[]
    case Node(k, v, l, r) => (Contents(l) + Contents(r))[k := v]
  }

  /** The number of nodes. */
  ghost function Size<V>(t: Tree<V>): nat
  {
    match t
    case Leaf => 0
    case Node(_, _, l, r) => Size(l) + 1 + Size(r)
  }

  /** `a` and `b` have the same nodes with the same keys; only values may differ. */
  ghost predicate SameShape<V>(a: Tree<V>, b: Tree<V>)
  {
    match (a, b)
    case (Leaf, Leaf) => true
    case (Node(ka, _, la, ra), Node(kb, _, lb, rb)) =>
      ka == kb && SameShape(la, lb) && SameShape(ra, rb)
    case _ => false
  }

  /** The subtree at which a search for `key` stops: the node holding it, or an empty slot. */
  ghost function Find<V>(t: Tree<V>, key: int): Tree<V>
  {
    match t
    case Leaf => Leaf
    case Node(k, _, l, r) =>
      if key == k then t
      else if key < k then Find(l, key)
      else Find(r, key)
  }

  /** The read-only descent of `get_recursive`. */
  function GetRecursive<V>(t: Tree<V>, key: int): (r: Result<V>)
    ensures r.Ok? ==> key in Keys(t)
    ensures BST(t) ==>
      r == if key in Contents(t) then Ok(Contents(t)[key]) else Err(KeyNotFound)
  {
    match t
    case Leaf => Err(KeyNotFound)
    case Node(k, v, l, rt) =>
      if key == k then Ok(v)
      else if key < k then GetRecursive(l, key)
      else GetRecursive(rt, key)
  }

  /**
   * `insert_recursive`: a new leaf where the descent falls off the tree, or
   * the value overwritten (key and children kept) where the key is found.
   */
  function InsertRecursive<V>(t: Tree<V>, key: int, value: V): (r: Tree<V>)
    ensures Keys(r) == Keys(t) + {key}
  {
    match t
    case Leaf => Node(key, value, Leaf, Leaf)
    case Node(k, v, l, rt) =>
      if key == k then Node(k, value, l, rt)
      else if key < k then Node(k, v, InsertRecursive(l, key, value), rt)
      else Node(k, v, l, InsertRecursive(rt, key, value))
  }

  /**
   * `extract_min` on a present node: the value and key of the leftmost node,
   * and the subtree left once that node is replaced by its right child.
   */
  function ExtractMin<V>(t: Tree<V>): (res: (V, int, Tree<V>))
    requires t.Node?
    ensures Keys(t) == Keys(res.2) + {res.1}
    ensures Size(res.2) == Size(t) - 1
    ensures BST(t) ==>
      && BST(res.2)
      && (forall x :: x in Keys(t) ==> res.1 <= x)
      && (forall x :: x in Keys(res.2) ==> res.1 < x)
      && res.1 in Contents(t) && Contents(t)[res.1] == res.0
      && Contents(res.2) == Contents(t) - {res.1}
  {
    match t
    case Node(k, v, l, r) =>
      if l.Leaf? then (v, k, r)
      else
        var (minValue, minKey, newLeft) := ExtractMin(l);
        (minValue, minKey, Node(k, v, newLeft, r))
  }

  /**
   * `delete_recursive`: the rebuilt subtree, paired with what the source
   * writes to its `deleted_value` out-parameter (`None` when untouched).
   * A node with two children takes the key and value of its in-order
   * successor, extracted from its right subtree.
   */
  function DeleteRecursive<V>(t: Tree<V>, key: int): (res: (Tree<V>, Option<V>))
    ensures res.1.None? ==> res.0 == t
    ensures Keys(res.0) <= Keys(t)
  {
    match t
    case Leaf => (Leaf, None)
    case Node(k, v, l, r) =>
      if key < k then
        var (newLeft, deleted) := DeleteRecursive(l, key);
        (Node(k, v, newLeft, r), deleted)
      else if key > k then
        var (newRight, deleted) := DeleteRecursive(r, key);
        (Node(k, v, l, newRight), deleted)
      else
        match (l, r)
        case (Leaf, Leaf) => (Leaf, Some(v))
        case (Node(_, _, _, _), Leaf) => (l, Some(v))
        case (Leaf, Node(_, _, _, _)) => (r, Some(v))
        case (Node(_, _, _, _), Node(_, _, _, _)) =>
          var (successorValue, successorKey, newRight) := ExtractMin(r);
          (Node(successorKey, successorValue, l, newRight), Some(v))
  }

  /** In a BST, an insertion keeps the ordering and maps `key` to `value`. */
  lemma {:induction false} InsertContents<V>(t: Tree<V>, key: int, value: V)
    requires BST(t)
    ensures BST(InsertRecursive(t, key, value))
    ensures Contents(InsertRecursive(t, key, value)) == Contents(t)[key := value]
  {
    match t
    case Leaf =>
    case Node(k, v, l, r) =>
      if key == k {
        UpdateTwice(Contents(l) + Contents(r), k, v, value);
      } else if key < k {
        InsertContents(l, key, value);
        assert key !in Contents(r);
        UpdateBelow(Contents(l), Contents(r), key, value, k, v);
      } else {
        InsertContents(r, key, value);
        UpdateAbove(Contents(l), Contents(r), key, value, k, v);
      }
  }

  /**
   * In a BST, a deletion keeps the ordering, removes `key` from the map and
   * reports the value it had, if any.
   */
  lemma {:induction false} DeleteContents<V>(t: Tree<V>, key: int)
    requires BST(t)
    ensures BST(DeleteRecursive(t, key).0)
    ensures Contents(DeleteRecursive(t, key).0) == Contents(t) - {key}
    ensures DeleteRecursive(t, key).1
         == if key in Contents(t) then Some(Contents(t)[key]) else None
  {
    match t
    case Leaf =>
    case Node(k, v, l, r) =>
      if key < k {
        DeleteContents(l, key);
        assert key !in Contents(r);
        RemoveBelow(Contents(l), Contents(r), key, k, v);
      } else if key > k {
        DeleteContents(r, key);
        assert key !in Contents(l);
        RemoveAbove(Contents(l), Contents(r), key, k, v);
      } else {
        RemoveRoot(t);
      }
  }

  /** Removing the root key of a BST node leaves the map that the deletion builds. */
  lemma RemoveRoot<V>(t: Tree<V>)
    requires t.Node? && BST(t)
    ensures BST(DeleteRecursive(t, t.key).0)
    ensures Contents(DeleteRecursive(t, t.key).0) == Contents(t) - {t.key}
  {
    var Node(k, v, l, r) := t;
    DropRoot(Contents(l), Contents(r), k, v);
    if l.Node? && r.Node? {
      PromoteSuccessor(t);
    }
  }

  /** The two-children case: the in-order successor takes the deleted node's place. */
  lemma PromoteSuccessor<V>(t: Tree<V>)
    requires t.Node? && t.left.Node? && t.right.Node? && BST(t)
    ensures BST(DeleteRecursive(t, t.key).0)
    ensures Contents(DeleteRecursive(t, t.key).0) == Contents(t.left) + Contents(t.right)
  {
    var Node(k, v, l, r) := t;
    var (sv, sk, nr) := ExtractMin(r);
    assert DeleteRecursive(t, k).0 == Node(sk, sv, l, nr);
    assert k < sk;
    ReinsertMin(Contents(l), Contents(r), sk);
  }

  // Small facts about maps, used to rebuild a node's contents.

  lemma UpdateTwice<V>(m: map<int, V>, k: int, v: V, w: V)
    ensures m[k := w] == m[k := v][k := w]
  {
  }

  lemma UpdateBelow<V>(ml: map<int, V>, mr: map<int, V>, key: int, value: V, k: int, v: V)
    requires key < k && key !in mr
    ensures (ml[key := value] + mr)[k := v] == (ml + mr)[k := v][key := value]
  {
  }

  lemma UpdateAbove<V>(ml: map<int, V>, mr: map<int, V>, key: int, value: V, k: int, v: V)
    requires k < key
    ensures (ml + mr[key := value])[k := v] == (ml + mr)[k := v][key := value]
  {
  }

  lemma RemoveBelow<V>(ml: map<int, V>, mr: map<int, V>, key: int, k: int, v: V)
    requires key < k && key !in mr
    ensures (ml - {key} + mr)[k := v] == (ml + mr)[k := v] - {key}
  {
  }

  lemma RemoveAbove<V>(ml: map<int, V>, mr: map<int, V>, key: int, k: int, v: V)
    requires k < key && key !in ml
    ensures (ml + (mr - {key}))[k := v] == (ml + mr)[k := v] - {key}
  {
  }

  lemma DropRoot<V>(ml: map<int, V>, mr: map<int, V>, k: int, v: V)
    requires k !in ml && k !in mr
    ensures (ml + mr)[k := v] - {k} == ml + mr
  {
  }

  lemma ReinsertMin<V>(ml: map<int, V>, mr: map<int, V>, sk: int)
    requires sk in mr && sk !in ml
    ensures (ml + (mr - {sk}))[sk := mr[sk]] == ml + mr
  {
  }

  // ---------------------------------------------------------------------
  // Lemmas. Those stated without `BST` hold for every tree, because the
  // operations involved follow the same search path.
  // ---------------------------------------------------------------------

  /** After an insertion, looking up the inserted key yields the new value. */
  lemma {:induction false} GetInsertSame<V>(t: Tree<V>, key: int, value: V)
    ensures GetRecursive(InsertRecursive(t, key, value), key) == Ok(value)
  {
    match t
    case Leaf =>
    case Node(k, _, l, r) =>
      if key < k { GetInsertSame(l, key, value); }
      else if key > k { GetInsertSame(r, key, value); }
  }

  /** An insertion leaves the lookup of every other key unchanged. */
  lemma {:induction false} GetInsertOther<V>(t: Tree<V>, key: int, value: V, other: int)
    requires other != key
    ensures GetRecursive(InsertRecursive(t, key, value), other) == GetRecursive(t, other)
  {
    match t
    case Leaf =>
    case Node(k, _, l, r) =>
      if key < k { GetInsertOther(l, key, value, other); }
      else if key > k { GetInsertOther(r, key, value, other); }
  }

  /** Inserting a key that is found rewrites a value and nothing else of the shape. */
  lemma {:induction false} InsertExistingKeepsShape<V>(t: Tree<V>, key: int, value: V)
    requires GetRecursive(t, key).Ok?
    ensures SameShape(InsertRecursive(t, key, value), t)
  {
    match t
    case Node(k, _, l, r) =>
      SameShapeReflexive(l);
      SameShapeReflexive(r);
      if key < k { InsertExistingKeepsShape(l, key, value); }
      else if key > k { InsertExistingKeepsShape(r, key, value); }
  }

  lemma {:induction false} SameShapeReflexive<V>(t: Tree<V>)
    ensures SameShape(t, t)
  {
    match t
    case Leaf =>
    case Node(_, _, l, r) =>
      SameShapeReflexive(l);
      SameShapeReflexive(r);
  }

  /**
   * Inserting a key that is not found adds exactly one leaf: the search for
   * the key now stops at a childless node holding it, and deleting that key
   * again gives back the original tree and the inserted value.
   */
  lemma {:induction false} InsertNewAddsOneLeaf<V>(t: Tree<V>, key: int, value: V)
    requires GetRecursive(t, key).Err?
    ensures Find(InsertRecursive(t, key, value), key) == Node(key, value, Leaf, Leaf)
    ensures DeleteRecursive(InsertRecursive(t, key, value), key) == (t, Some(value))
  {
    match t
    case Leaf =>
    case Node(k, _, l, r) =>
      if key < k { InsertNewAddsOneLeaf(l, key, value); }
      else { InsertNewAddsOneLeaf(r, key, value); }
  }

  /** An insertion adds one node exactly when the key was not found. */
  lemma {:induction false} InsertSize<V>(t: Tree<V>, key: int, value: V)
    ensures Size(InsertRecursive(t, key, value))
         == Size(t) + if GetRecursive(t, key).Ok? then 0 else 1
  {
    match t
    case Leaf =>
    case Node(k, _, l, r) =>
      if key < k { InsertSize(l, key, value); }
      else if key > k { InsertSize(r, key, value); }
  }

  /** Deletion reports exactly what a lookup of the same key finds. */
  lemma {:induction false} DeleteReportsLookup<V>(t: Tree<V>, key: int)
    ensures DeleteRecursive(t, key).1.OkOr(KeyNotFound) == GetRecursive(t, key)
  {
    match t
    case Leaf =>
    case Node(k, _, l, r) =>
      if key < k { DeleteReportsLookup(l, key); }
      else if key > k { DeleteReportsLookup(r, key); }
  }

  /** A deletion removes one node exactly when the key was found. */
  lemma {:induction false} DeleteSize<V>(t: Tree<V>, key: int)
    ensures Size(DeleteRecursive(t, key).0)
         == Size(t) - if DeleteRecursive(t, key).1.Some? then 1 else 0
  {
    match t
    case Leaf =>
    case Node(k, _, l, r) =>
      if key < k { DeleteSize(l, key); }
      else if key > k { DeleteSize(r, key); }
  }

  /** In a BST, after a deletion the key is gone and every other lookup is unchanged. */
  lemma GetAfterDelete<V>(t: Tree<V>, key: int, other: int)
    requires BST(t)
    ensures GetRecursive(DeleteRecursive(t, key).0, other)
         == if other == key then Err(KeyNotFound) else GetRecursive(t, other)
  {
    DeleteContents(t, key);
  }
}
