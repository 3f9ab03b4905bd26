# Red-black tree map, modelled in Dafny

This project models `RedBlackTree<Key, T>` from `red_black_tree.hpp`. The class is an ordered map
from keys to values, kept as a red-black tree in the style of Cormen, Leiserson, Rivest and
Stein. One shared black sentinel node, `nil_`, stands for every missing child and for the
root's parent, and doubles as the end position of iteration.

The model is a Dafny class, `RedBlackTrees.RedBlackTree<V>`, with integer keys and a generic
value type. The nodes live in an arena: parallel sequences `key`, `val`, `color`, `left`,
`right` and `parent`, indexed by node id. Slot `NIL` (0) is the sentinel. Pointer
assignments in the source become sequence updates on these fields.

Four ghost fields carry the proof state:

- `Live`: the set of nodes in the tree.
- `Sub`: each node's subtree, as a set of ids.
- `Bh`: each node's black height.
- `Index`: the node holding each key.

`Valid()` states the invariant every public operation keeps. The links form one binary
search tree over `Live`; the sentinel is black; every path down from a node meets the same
number of black nodes; no red node has a red child; and the root is black. `Contents()` is
the map that the tree stands for.

Files:

- `arena.dfy`: the arena's shape and order invariants, and the two rotations as functions on links, with lemmas that they keep shape and order.
- `rules.dfy`: the red-black rules, and one lemma per case of the insert fixup.
- `attach.dfy`: the search for an insertion point, and hanging a new red leaf there.
- `delete_rules.dfy`: one lemma per case of the delete fixup.
- `removal.dfy`: `Transplant` and the unlinking that `Delete` performs.
- `navigation.dfy`: least and greatest nodes of a subtree, and successor and predecessor.
- `teardown.dfy`: the stack-free post-order walk of `Clear`.
- `indexing.dfy`: the correspondence between keys and nodes, and the map it defines.
- `red_black_tree.dfy`: the class, and the fixup loops as value-level methods.

## Model

| member | source | states |
|---|---|---|
| RedBlackTrees.RedBlackTree.constructor | red_black_tree.hpp:134-139 | The new tree is valid and maps no key; the root is the sentinel, and the sentinel is black. |
| RedBlackTrees.RedBlackTree.LeftRotate | red_black_tree.hpp:149-165 | The links become `RotateLeft` of the old links; the subtree sets follow the rotation. |
| RedBlackTrees.RedBlackTree.RightRotate | red_black_tree.hpp:168-184 | The links become `RotateRight` of the old links; the subtree sets follow the rotation. |
| Arena.RotateLeftFacts | red_black_tree.hpp:149-165 | `RotateLeft` moves x's right child y into x's place, makes x y's left child and gives x y's old left subtree; every other link is unchanged. |
| Arena.RotateRightFacts | red_black_tree.hpp:168-184 | The mirror statement for `RotateRight`. |
| Arena.RotateLeftShaped | red_black_tree.hpp:149-165 | A left rotation at a node with a right child keeps the links one binary tree over the same nodes. |
| Arena.RotateRightShaped | red_black_tree.hpp:168-184 | A right rotation at a node with a left child keeps the links one binary tree over the same nodes. |
| Arena.RotateLeftOrdered | red_black_tree.hpp:149-165 | A left rotation keeps search-tree order. |
| Arena.RotateRightOrdered | red_black_tree.hpp:168-184 | A right rotation keeps search-tree order. |
| Arena.SearchStep | red_black_tree.hpp:192-199 | At a live node, a smaller key lies in the left subtree and a larger key in the right one, and both subtrees are strictly smaller. This is what the search loops rely on. |
| RedBlackTrees.RedBlackTree.Find | red_black_tree.hpp:187-201 | The position is not `End()` exactly when the key is in the map; then its node holds that key and the mapped value. |
| RedBlackTrees.RedBlackTree.At | red_black_tree.hpp:204-218 | The result is the mapped value when the key is present, and otherwise the out-of-range failure. |
| RedBlackTrees.RedBlackTree.Descend | red_black_tree.hpp:249-258 | The search ends at a link whose target is the key's node when the key is present, and empty otherwise; a new leaf with the key may hang there. |
| Attachment.DescendStep | red_black_tree.hpp:249-258 | One step of the descent keeps the link valid for the key and moves to a strictly smaller subtree that still holds the key's node. |
| Attachment.AttachState | red_black_tree.hpp:259-264 | Hanging a red leaf with black height 1 at an empty fitting link of a red-black tree gives the state the insert fixup starts from. |
| Attachment.AttachOrdered | red_black_tree.hpp:259-262 | The new leaf keeps the links one binary tree and keeps search-tree order. |
| RedBlackTrees.RedBlackTree.AddLeaf | red_black_tree.hpp:259-265 | Adding and fixing up a leaf for an absent key keeps the tree valid, adds exactly that key with its value, and adds one node; every existing node keeps its key and value. |
| RedBlackTrees.RedBlackTree.Insert | red_black_tree.hpp:246-268 | Inserts exactly when the key is absent. The map gains the pair, or nothing changes at all. The position holds the key either way. Every node already in the tree stays in it with its key and value, so other positions stay valid. |
| RedBlackTrees.RedBlackTree.Subscript | red_black_tree.hpp:221-243 | A present key's value is returned and nothing changes. An absent key is added with the default value, which is returned. The key is mapped to the result afterwards. Every node already in the tree stays in it with its key and value. |
| Indexing.IndexAdd | red_black_tree.hpp:259-264 | A new node at the next slot with a new key keeps keys and nodes one to one, and the map gains exactly that key. |
| Indexing.MapOfAdd | red_black_tree.hpp:259-264 | Storing a value at a fresh slot for a new key updates the map at that key only. |
| RedBlackRules.InsertRecolorStep | red_black_tree.hpp:280-285 | With a red uncle, recolouring parent and uncle black and the grandparent red keeps the fixup state at the grandparent, and the climb makes progress. |
| RedBlackRules.InsertInnerLeftStep | red_black_tree.hpp:288-294 | With a black uncle and z an inner right child, rotating left at the parent keeps the fixup state and makes the old parent an outer child. |
| RedBlackRules.InsertOuterLeftStep | red_black_tree.hpp:295-297 | With z an outer left child, recolouring and rotating right at the grandparent keeps the state and leaves z's parent black. |
| RedBlackRules.InsertInnerRightStep | red_black_tree.hpp:311-317 | The mirror of the inner left step. |
| RedBlackRules.InsertOuterRightStep | red_black_tree.hpp:318-320 | The mirror of the outer left step. |
| RedBlackRules.InsertFinish | red_black_tree.hpp:324 | Once z's parent is black, painting the root black gives a red-black tree. |
| RedBlackTrees.InsertFixupLeftCase | red_black_tree.hpp:276-299 | One pass for a parent that is a left child keeps the fixup state, and either ends the loop or strictly moves z up. |
| RedBlackTrees.InsertFixupRightCase | red_black_tree.hpp:300-322 | The mirror pass, with the same guarantee. |
| RedBlackTrees.FixInsert | red_black_tree.hpp:271-325 | From a tree whose only possible fault is a red z under a red parent, the loop and the final recolouring give a red-black tree over the same nodes and keys. |
| RedBlackTrees.RedBlackTree.InsertFixup | red_black_tree.hpp:271-325 | Leaves the tree valid and the map unchanged. |
| RedBlackTrees.RedBlackTree.Transplant | red_black_tree.hpp:328-337 | The links become `Transplanted` of the old links. |
| Removal.TransplantFacts | red_black_tree.hpp:328-337 | v takes u's place under u's parent, or as root when u was the root, and v's parent becomes u's parent; all other links are unchanged. |
| RedBlackTrees.RedBlackTree.TreeMinimum | red_black_tree.hpp:340-345 | For a node, the result is the node of least key in its subtree and has no left child; for the sentinel, the result is the sentinel. |
| RedBlackTrees.RedBlackTree.TreeMaximum | red_black_tree.hpp:348-353 | For a node, the result is the node of greatest key in its subtree and has no right child; for the sentinel, the result is the sentinel. |
| Navigation.LeftSpineEnd | red_black_tree.hpp:342-344 | The end of the left links from n holds the least key of n's subtree. |
| Navigation.RightSpineEnd | red_black_tree.hpp:350-352 | The end of the right links from n holds the greatest key of n's subtree. |
| RedBlackTrees.RedBlackTree.TreeSuccessor | red_black_tree.hpp:356-368 | The result is the node with the least key above n's, or the sentinel exactly when n holds the greatest key. |
| Navigation.SuccessorBelow | red_black_tree.hpp:359-360 | When n has a right child, the least node of the right subtree holds the next larger key in the whole tree. |
| Navigation.ClimbGreatest | red_black_tree.hpp:362-366 | Climbing from a right child keeps n the greatest key of the current subtree, and the climb makes progress. |
| Navigation.SuccessorAbove | red_black_tree.hpp:362-367 | Where the climb stops, the parent holds the next larger key; a missing parent means n holds the greatest key. |
| Navigation.Apart | red_black_tree.hpp:356-383 | A node outside a subtree has a key below every key of that subtree, or above every key of it. |
| RedBlackTrees.RedBlackTree.TreePredecessor | red_black_tree.hpp:371-383 | The corrected predecessor of the Findings row, whose tests are against `nil_` as in `TreeSuccessor`: the result is the node with the greatest key below n's, or the sentinel exactly when n holds the least key. The lines as written differ for nodes without a left child. |
| Navigation.PredecessorBelow | red_black_tree.hpp:374-375 | When n has a left child, the greatest node of the left subtree holds the next smaller key. |
| Navigation.ClimbLeast | red_black_tree.hpp:377-381 | Climbing from a left child keeps n the least key of the current subtree, and the climb makes progress. |
| Navigation.PredecessorAbove | red_black_tree.hpp:377-382 | Where the climb stops, the parent holds the next smaller key; a missing parent means n holds the least key. |
| RedBlackTrees.RedBlackTree.TreePredecessorAsWritten | red_black_tree.hpp:371-383 | The code as written always takes the left-subtree branch. For a node without a left child it runs `TreeMaximum(nil_)`, which reads the sentinel's uninitialised right link; with the model's sentinel links (see Left out) that gives the sentinel. A node with a left child gets its true predecessor. |
| RedBlackTrees.PredecessorCounterexample | red_black_tree.hpp:374-375 | Exhibits a red-black tree in which node 2 has no left child, so the code as written runs `TreeMaximum(nil_)` instead of climbing, although node 1 holds the next smaller key. |
| RedBlackTrees.RedBlackTree.Unlink | red_black_tree.hpp:389-428 | Picks z itself when a child is missing, and otherwise z's successor. The links and colours become `Unlinked` and `Recolored`. x is the node that moves into the vacated position. The flag says whether the node that left that position was black. |
| Removal.SpliceState | red_black_tree.hpp:393-404 | Splicing out a node with at most one child leaves a red-black tree when it was red, and the delete-fixup state at its child when it was black. |
| Removal.LiftState | red_black_tree.hpp:405-428 | Replacing a two-child node by its successor, which takes the node's colour, leaves a red-black tree when the successor was red, and the delete-fixup state at the successor's old right child when it was black. |
| Removal.UnlinkState | red_black_tree.hpp:389-428 | Both unlinking cases together: the tree is red-black or in the delete-fixup state, according to the colour of the node that left its position. |
| Indexing.IndexRemove | red_black_tree.hpp:432 | Forgetting a node keeps keys and nodes one to one, and removes exactly its key from the map. |
| RedBlackTrees.RedBlackTree.Excise | red_black_tree.hpp:389-428 | After unlinking, the tree without z is red-black, or in the delete-fixup state at x exactly when a black node left. |
| RedBlackTrees.RedBlackTree.Delete | red_black_tree.hpp:386-433 | The tree stays valid, the map loses exactly the deleted node's key, and only that node leaves the tree. |
| DeleteRules.DeleteRedSiblingLeftStep | red_black_tree.hpp:444-450 | A red sibling turns black, the parent red, and a left rotation at the parent keeps the fixup state and gives x a black sibling. |
| DeleteRules.DeleteRecolorLeftStep | red_black_tree.hpp:451-455 | A black sibling with black children turns red, and the extra black moves up to the parent. |
| DeleteRules.DeleteInnerLeftStep | red_black_tree.hpp:458-464 | A sibling whose near child alone is red is rotated right, which gives it a red far child. |
| DeleteRules.DeleteOuterLeftStep | red_black_tree.hpp:465-469 | With a red far child, recolouring and rotating left at the parent absorbs the extra black and ends the loop at the root. |
| DeleteRules.DeleteRedSiblingRightStep | red_black_tree.hpp:475-481 | The mirror of the red-sibling left step. |
| DeleteRules.DeleteRecolorRightStep | red_black_tree.hpp:482-486 | The mirror of the recolour left step. |
| DeleteRules.DeleteInnerRightStep | red_black_tree.hpp:489-495 | The mirror of the inner left step. |
| DeleteRules.DeleteOuterRightStep | red_black_tree.hpp:496-500 | The mirror of the outer left step. |
| DeleteRules.DeleteFinish | red_black_tree.hpp:504 | When x is the root or red, painting it black gives a red-black tree. |
| RedBlackTrees.DeleteRedSiblingLeftCase | red_black_tree.hpp:443-450 | Keeps the fixup state and leaves x a black sibling with x's subtree unchanged. |
| RedBlackTrees.DeleteInnerLeftCase | red_black_tree.hpp:458-464 | Keeps the fixup state and leaves x a black sibling whose far child is red. |
| RedBlackTrees.DeleteOuterLeftCase | red_black_tree.hpp:465-469 | Keeps the fixup state with x moved to the root, which is strictly higher. |
| RedBlackTrees.DeleteFixupLeftCase | red_black_tree.hpp:441-471 | One pass for x a left child keeps the fixup state and strictly moves x up. |
| RedBlackTrees.DeleteRedSiblingRightCase | red_black_tree.hpp:474-481 | The mirror of the red-sibling left case. |
| RedBlackTrees.DeleteInnerRightCase | red_black_tree.hpp:489-495 | The mirror of the inner left case. |
| RedBlackTrees.DeleteOuterRightCase | red_black_tree.hpp:496-500 | The mirror of the outer left case. |
| RedBlackTrees.DeleteFixupRightCase | red_black_tree.hpp:472-502 | The mirror pass, with the same guarantee. |
| RedBlackTrees.FixDelete | red_black_tree.hpp:436-505 | From the state where x carries one extra black, the loop and the final recolouring give a red-black tree over the same nodes and keys. |
| RedBlackTrees.RedBlackTree.DeleteFixup | red_black_tree.hpp:436-505 | Leaves the tree valid and the map unchanged. |
| RedBlackTrees.RedBlackTree.Release | red_black_tree.hpp:511-529 | The walk frees every node of the tree exactly once, and each node only after the rest of its subtree. |
| RedBlackTrees.RedBlackTree.DescendRight | red_black_tree.hpp:514-517 | The descent ends at a node whose left subtree is freed and which has no right child. |
| RedBlackTrees.RedBlackTree.ClimbAndFree | red_black_tree.hpp:518-528 | The climb frees at least one node and keeps the post-order record. Ending at the sentinel means nothing is left; otherwise the walk resumes at a node whose left subtree is freed. |
| Teardown.WalkStart | red_black_tree.hpp:512 | The least node of the tree starts the walk: nothing is freed, and its left subtree is empty. |
| Teardown.Descend | red_black_tree.hpp:514-517 | Moving to the least node of the right subtree keeps the walk's state at a strictly smaller subtree. |
| Teardown.ClimbStep | red_black_tree.hpp:520-525 | Freeing a right child keeps the climb's state at its parent, which is still allocated. |
| Teardown.ClimbExit | red_black_tree.hpp:527-528 | Freeing the node where the climb stops empties the tree at the root, and otherwise resumes the walk at its parent. |
| Teardown.Comparable | red_black_tree.hpp:518-528 | Two nodes above a common node lie one inside the other's subtree. |
| Teardown.PostOrderAppend | red_black_tree.hpp:522 | Freeing a node whose subtree is otherwise freed keeps the post-order. |
| RedBlackTrees.RedBlackTree.Clear | red_black_tree.hpp:508-530 | Afterwards the tree is valid and empty, with the sentinel as root. |
| RedBlackTrees.RedBlackTree.Begin | red_black_tree.hpp:533-536 | The position is `End()` exactly when the map is empty; otherwise it holds the least key. |
| RedBlackTrees.RedBlackTree.End | red_black_tree.hpp:539-542 | The end position holds no node of the tree. |
| RedBlackTrees.RedBlackTree.Next | red_black_tree.hpp:119-124 | `++` gives `End()` exactly when the position holds the greatest key, and otherwise the position of the next larger key. |
| RedBlackTrees.RedBlackTree.Prev | red_black_tree.hpp:126-131 | `--` through the corrected, `nil_`-tested predecessor of the Findings row: `End()` exactly when the position holds the least key, and otherwise the position of the next smaller key. The lines as written differ at nodes without a left child. |

## Left out

- Memory: `new` and `delete` are not modelled. A new node takes the next arena slot, and freed slots are never reused. `Clear` records the order in which its walk frees the nodes and leaves the arena in place. The destructor only calls `Clear` and frees the sentinel.
- Sentinel links: the source's `Node()` constructor leaves the sentinel's children uninitialised. The model sets them to the sentinel itself. So `TreeMinimum(nil_)`, which `Begin()` runs on an empty tree, reads a defined link and stops at once. The same holds for `TreeMaximum(nil_)`, which the as-written `TreePredecessor` reaches (see Findings).
- Templates: keys are `int`, compared by `<` and `==`. `T()` is the value given to the constructor as `Default`.
- `operator*` and `operator->`, and the `std::iterator` base class, are not modelled.
- Iterator `==` and `!=`: `Iterator` holds only its node, so Dafny's equality on `Iterator` is node equality, as in the source. The tree pointer an iterator carries is not modelled.
- Iterator validity: `++`, `--` and `Delete` require a position that holds a node of the tree. Decrementing `End()` and using an iterator after its node was deleted are undefined in the source and are excluded by these preconditions.
- RedBlackTrees.RedBlackTree.Subscript and RedBlackTrees.RedBlackTree.At: return the value, not a reference into the node, so assigning through the result is not modelled.
- RedBlackTrees.RedBlackTree.At: `std::out_of_range` becomes the `OutOfRange` result; its message text is not modelled.
- The fixup loops: `InsertFixup` and `DeleteFixup` run on a copy of the links and colours (`FixInsert`, `FixDelete`), and the result is written back once. Their rotations use the `RotateLeft` and `RotateRight` functions, which the `LeftRotate` and `RightRotate` methods are proved to compute. Order of evaluation is unaffected, since the loops touch no other state.
- Helper split: the descent of `Insert` and `operator[]` is `Descend`. Hanging the new leaf is `Hang` and `Graft`. Unlinking in `Delete` is `Unlink`, `Detach` and `Replace`, and `Excise` and `Settle` finish the job.
- Concurrency and exception safety are out of scope.

## Findings

| source | as written | input that shows it | evidently intended | confidence | as-written member | corrected member |
|---|---|---|---|---|---|---|
| red_black_tree.hpp:374-377 | `TreePredecessor` tests `node->left` and `parent` against null, but missing children and the root's parent are `nil_`, which is never null. So the first branch is always taken, and a node without a left child gets `TreeMaximum(nil_)`, which reads the sentinel's uninitialised right link: undefined behaviour. With the model's sentinel links (see Left out) this yields `End()`. | Root 1 (key 1, black) with right child 2 (key 2, red). `--` at key 2 takes `TreeMaximum(nil_)` instead of reaching key 1. | Test against `nil_`, mirroring `TreeSuccessor`, so that `--` at key 2 reaches key 1. | not executed | RedBlackTrees.RedBlackTree.TreePredecessorAsWritten, RedBlackTrees.PredecessorCounterexample | RedBlackTrees.RedBlackTree.TreePredecessor |
