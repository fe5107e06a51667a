# BinaryTreeMap in Dafny

A model of `BinaryTreeMap<K, V>`, an ordered key-to-value map stored in an
unbalanced binary search tree. The map owns an optional root node; every node
owns a key, a value and two optional children. Four recursions work on the
tree:

- lookup (`get_recursive`) descends by comparing keys;
- insertion (`insert_recursive`) adds a leaf where the descent falls off the
  tree, or overwrites the value of the node holding the key;
- deletion (`delete_recursive`) removes the node holding the key, splicing in
  its only child, or, for a node with two children, promoting its in-order
  successor taken out of the right subtree by `extract_min`;
- `extract_min` removes the leftmost node of a non-empty subtree and returns
  its value, its key and the remaining subtree.

Files:

- `trees.dfy`, module `Trees`: the `Tree` datatype (`Leaf` is an empty child
  slot), `MapError`, `Result`, `Option`, the specification functions `Keys`,
  `Contents` (the abstract `map<int, V>`), `BST` (the ordering invariant),
  `Size`, `SameShape` and `Find` (where a search stops), the four recursions as functions, and the lemmas
  about them.
- `binary_tree_map.dfy`, module `BinaryTreeMaps`: the class
  `BinaryTreeMap` whose `root` field `Insert` and `Delete` reassign, as the
  source does, with `Valid()` (the root is a BST) and `Model()` (its contents).
- `scenarios.dfy`, module `Scenarios`: the unit tests of the repository as
  concrete lemmas.

Several lemmas hold for every tree, ordered or not, because the two
operations they relate follow the same search path: insert-then-get,
non-interference of insertion, deletion reporting what a lookup finds, and the
node counts. The statements in terms of `Contents` need the BST invariant.

`delete` returns `Err(KeyNotFound)` for an absent key (src/lib.rs:58). An
update on an existing key keeps the node's key and rewrites only its value
(src/lib.rs:38-41).

## Model

| member | source | states |
|---|---|---|
| `Trees.GetRecursive` | src/lib.rs:118-129 | a hit is a stored key; on a BST the lookup yields `Ok` of the key's value in the abstract map exactly when the key is present, else `Err(KeyNotFound)` |
| `Trees.InsertRecursive` | src/lib.rs:28-53 | the keys of the result are the old keys plus the inserted key |
| `Trees.InsertContents` | src/lib.rs:28-53 | on a BST, insertion keeps the ordering invariant and the contents become `Contents[key := value]` |
| `Trees.GetInsertSame` | src/lib.rs:28-53 | after `insert(k, v)` a lookup of `k` yields `Ok(v)`, whether or not `k` was present |
| `Trees.GetInsertOther` | src/lib.rs:42-49 | `insert(k, v)` leaves the lookup of every other key unchanged |
| `Trees.InsertExistingKeepsShape` | src/lib.rs:38-41 | inserting a key that is found keeps every node, key and child link; only a value changes |
| `Trees.InsertNewAddsOneLeaf` | src/lib.rs:30-35 | inserting a key that is not found adds exactly one leaf: the search for the key ends at a new childless node holding the key and value, and deleting the key again gives back the original tree and the inserted value |
| `Trees.InsertSize` | src/lib.rs:28-53 | insertion adds one node when the key is not found and none when it is |
| `Trees.ExtractMin` | src/lib.rs:99-112 | the returned key is stored in the input and the rest holds all other nodes, one fewer; on a BST the key is the minimum, the value is its value, the rest is a BST of exactly the remaining entries, all with larger keys |
| `Trees.DeleteRecursive` | src/lib.rs:61-97 | when nothing is reported deleted the tree is returned unchanged; the result never gains a key |
| `Trees.DeleteContents` | src/lib.rs:61-97 | on a BST, deletion keeps the ordering invariant, the contents become `Contents - {key}`, and the reported value is the key's value exactly when it was present |
| `Trees.RemoveRoot` | src/lib.rs:74-92 | removing a BST node's own key (no child, one child, two children) keeps the ordering and drops exactly that key |
| `Trees.PromoteSuccessor` | src/lib.rs:83-90 | the two-children case: the node rebuilt from the right subtree's minimum is a BST holding both subtrees' entries |
| `Trees.DeleteReportsLookup` | src/lib.rs:55-75 | the value written to `deleted_value`, turned into a `Result`, is exactly what a lookup of the key returns |
| `Trees.DeleteSize` | src/lib.rs:61-97 | deletion removes one node when a value is reported and none otherwise |
| `Trees.GetAfterDelete` | src/lib.rs:61-97 | on a BST, after deleting `k` a lookup of `k` fails and every other lookup is unchanged |
| `Trees.Option.OkOr` | src/lib.rs:58 | a present value becomes `Ok` of it, an absent one the given error |
| `BinaryTreeMaps.BinaryTreeMap.constructor` | src/lib.rs:20-22 | a new map has an empty root and no entries |
| `BinaryTreeMaps.BinaryTreeMap.Insert` | src/lib.rs:24-26 | the root is replaced by the insertion's result; the invariant holds, the model becomes `old[key := value]`, `get(key)` is `Ok(value)` and other lookups are unchanged |
| `BinaryTreeMaps.BinaryTreeMap.Delete` | src/lib.rs:55-59 | the root is replaced by the deletion's result; the invariant holds, the model loses `key`, the result equals the lookup before the call (`Err(KeyNotFound)` leaving the root unchanged when absent), `get(key)` now fails and other lookups are unchanged |
| `BinaryTreeMaps.BinaryTreeMap.Get` | src/lib.rs:114-116 | `Ok` of the key's value in the model, or `Err(KeyNotFound)` when absent |
| `Scenarios.EmptyMap` | src/lib.rs:136-141 | an empty tree finds nothing and deleting from it reports `KeyNotFound` (also the test at src/lib.rs:151-156) |
| `Scenarios.InsertAndRetrieve` | src/lib.rs:143-149 | a value inserted into an empty map is found under its key |
| `Scenarios.DeleteLeafNode` | src/lib.rs:159-174 | deleting a leaf returns its value and keeps the other entries |
| `Scenarios.DeleteNodeWithOneChild` | src/lib.rs:177-191 | deleting a node with one child splices the child in |
| `Scenarios.DeleteNodeWithTwoChildren` | src/lib.rs:194-212 | deleting a node with two children puts its successor in its place |
| `Scenarios.DeleteRootNode` | src/lib.rs:215-229 | deleting the root of a three-node tree promotes the right child |
| `Scenarios.DeleteNonexistentKey` | src/lib.rs:232-241 | deleting an absent key reports `KeyNotFound` and leaves the tree as it was |
| `Scenarios.OverwriteThenDeleteRoot` | src/lib.rs:24-97 | an overwrite is seen by a later lookup; deleting a two-children root whose right child has no left child promotes that child |

## Left out

- Ownership and allocation (`Box`, `Option::take`, moving children out of a node) are memory management; subtrees are immutable datatype values and the recursions return rebuilt subtrees.
- The `&mut Option<V>` out-parameter of `delete_recursive` is modelled as the second component of the function's result.
- The lifetime-annotated reference returned by `get_recursive` is modelled as the value itself inside `Result`.
- Keys are `int` rather than a generic `K: Ord`; the three-way comparison becomes `<`, `>` and equality on integers.
- The derived `Debug` and `PartialEq` implementations have no behaviour to model.
- Repeated lookups giving the same answer holds by construction, since lookup is a function.
- The class methods require the ordering invariant `Valid()`, which the constructor establishes and every method keeps; the source states no such precondition because its fields are private.
