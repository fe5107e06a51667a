/**
 * The map object: it owns the root slot of the tree and updates it in place
 * with the result of each recursion.
 */
module BinaryTreeMaps {
  import opened Trees

  class BinaryTreeMap<V> {
    var root: Tree<V>

    /** The ordering invariant holds of the whole tree. */
    ghost predicate Valid()
      reads this
    {
      BST(root)
    }

    /** The abstract key-to-value map the object stands for. */
    ghost function Model(): map<int, V>
      reads this
    {
      Contents(root)
    }

    /** `new`: an empty map. */
    constructor ()
      ensures Valid()
      ensures root == Leaf && Model() == map[]
    {
      root := Leaf;
    }

    /** Maps `key` to `value`, adding the key or overwriting its value. */
    method Insert(key: int, value: V)
      requires Valid()
      modifies this
      ensures Valid()
      ensures root == InsertRecursive(old(root), key, value)
      ensures Model() == old(Model())[key := value]
      ensures Get(key) == Ok(value)
      ensures forall other :: other != key ==> Get(other) == old(Get(other))
    {
      InsertContents(root, key, value);
      root := InsertRecursive(root, key, value);
    }

    /**
     * Removes `key`, returning the value it had, or `Err(KeyNotFound)` and
     * no change when it is absent.
     */
    method Delete(key: int) returns (res: Result<V>)
      requires Valid()
      modifies this
      ensures Valid()
      ensures root == DeleteRecursive(old(root), key).0
      ensures Model() == old(Model()) - {key}
      ensures res == old(Get(key))
      ensures res.Err? ==> root == old(root)
      ensures Get(key) == Err(KeyNotFound)
      ensures forall other :: other != key ==> Get(other) == old(Get(other))
    {
      DeleteContents(root, key);
      var (newRoot, deletedValue) := DeleteRecursive(root, key);
      root := newRoot;
      res := deletedValue.OkOr(KeyNotFound);
    }

    /** Looks `key` up: its value, or `Err(KeyNotFound)`. */
    function Get(key: int): (r: Result<V>)
      requires Valid()
      reads this
      ensures r == if key in Model() then Ok(Model()[key]) else Err(KeyNotFound)
    {
      GetRecursive(root, key)
    }
  }
}
