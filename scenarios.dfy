/**
 * Concrete scenarios of the map, most of them the repository's unit tests: each
 * lemma builds a tree by successive insertions and states what lookups and
 * deletions on it give.
 */
module Scenarios {
  import opened Trees

  /** The tree obtained by inserting `entries` one after another into `t`. */
  function InsertAll<V>(t: Tree<V>, entries: seq<(int, V)>): (r: Tree<V>)
    decreases |entries|
  {
    if entries == [] then t
    else InsertAll(InsertRecursive(t, entries[0].0, entries[0].1), entries[1..])
  }

  /** An empty map finds nothing, and deleting from it reports `KeyNotFound`. */
  lemma EmptyMap<V>(key: int)
    ensures GetRecursive<V>(Leaf, key) == Err(KeyNotFound)
    ensures DeleteRecursive<V>(Leaf, key) == (Leaf, None)
    ensures DeleteRecursive<V>(Leaf, key).1.OkOr(KeyNotFound) == Err(KeyNotFound)
  {
  }

  /** A value inserted into an empty map is found under its key. */
  lemma InsertAndRetrieve()
    ensures GetRecursive(InsertAll(Leaf, [(42, "hello")]), 42) == Ok("hello")
  {
  }

  /** Deleting a leaf. */
  lemma DeleteLeafNode()
    ensures var t := InsertAll(Leaf, [(50, "root"), (30, "left"), (70, "right")]);
      var (t', deleted) := DeleteRecursive(t, 30);
      && deleted.OkOr(KeyNotFound) == Ok("left")
      && GetRecursive(t', 30) == Err(KeyNotFound)
      && GetRecursive(t', 50) == Ok("root")
      && GetRecursive(t', 70) == Ok("right")
  {
  }

  /** Deleting a node with one child splices the child in. */
  lemma DeleteNodeWithOneChild()
    ensures var t := InsertAll(Leaf, [(50, "root"), (30, "left"), (20, "left-left")]);
      var (t', deleted) := DeleteRecursive(t, 30);
      && deleted.OkOr(KeyNotFound) == Ok("left")
      && t' == Node(50, "root", Node(20, "left-left", Leaf, Leaf), Leaf)
      && GetRecursive(t', 30) == Err(KeyNotFound)
      && GetRecursive(t', 50) == Ok("root")
      && GetRecursive(t', 20) == Ok("left-left")
  {
  }

  /** Deleting a node with two children promotes its in-order successor. */
  lemma DeleteNodeWithTwoChildren()
    ensures var t := InsertAll(Leaf, [(50, "root"), (30, "left"), (70, "right"), (60, "right-left"), (80, "right-right")]);
      var (t', deleted) := DeleteRecursive(t, 70);
      && deleted.OkOr(KeyNotFound) == Ok("right")
      && t' == Node(50, "root", Node(30, "left", Leaf, Leaf),
                    Node(80, "right-right", Node(60, "right-left", Leaf, Leaf), Leaf))
      && GetRecursive(t', 70) == Err(KeyNotFound)
      && GetRecursive(t', 50) == Ok("root")
      && GetRecursive(t', 30) == Ok("left")
      && GetRecursive(t', 60) == Ok("right-left")
      && GetRecursive(t', 80) == Ok("right-right")
  {
  }

  /** Deleting the root of a three-node tree. */
  lemma DeleteRootNode()
    ensures var t := InsertAll(Leaf, [(50, "root"), (30, "left"), (70, "right")]);
      var (t', deleted) := DeleteRecursive(t, 50);
      && deleted.OkOr(KeyNotFound) == Ok("root")
      && t' == Node(70, "right", Node(30, "left", Leaf, Leaf), Leaf)
      && GetRecursive(t', 50) == Err(KeyNotFound)
      && GetRecursive(t', 30) == Ok("left")
      && GetRecursive(t', 70) == Ok("right")
  {
  }

  /** Overwriting a key, then deleting a root with two children. */
  lemma OverwriteThenDeleteRoot()
    ensures var t := InsertAll(Leaf, [(5, "a"), (3, "b"), (8, "c"), (3, "z")]);
      && GetRecursive(t, 3) == Ok("z")
      && GetRecursive(t, 8) == Ok("c")
      && var (t', deleted) := DeleteRecursive(t, 5);
      && deleted == Some("a")
      && t' == Node(8, "c", Node(3, "z", Leaf, Leaf), Leaf)
      && GetRecursive(t', 5) == Err(KeyNotFound)
  {
  }

  /** Deleting an absent key reports `KeyNotFound` and leaves the tree as it was. */
  lemma DeleteNonexistentKey()
    ensures var t := InsertAll(Leaf, [(50, "root")]);
      var (t', deleted) := DeleteRecursive(t, 99);
      && deleted.OkOr(KeyNotFound) == Err(KeyNotFound)
      && t' == t
      && GetRecursive(t', 50) == Ok("root")
  {
  }
}
