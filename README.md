# dstl-js data structures in Dafny

A model of the data-structure core of dstl-js, a TypeScript library, with
proofs of what its operations do. The model covers five classes:

- `Stack` (packages/stack/src/Stack.ts): an array used as a LIFO stack.
- `Queue` (packages/queue/src/Queue.ts): an array read at `start` and
  written at `end`, compacted once the dead prefix outweighs the live part.
- `LinkList` (packages/linklist/src/LinkList.ts): a doubly linked list with
  `head`, `tail` and `size`.
- `BSTree` (packages/bst/src/BSTree.ts): a binary search tree. Its nodes carry
  `key`, `value`, `type` (root, left or right), `parent`, `left` and `right`.
  The ordering comes from a pluggable comparer, and a `repeatable` flag
  admits equal keys. The class has iterative pre-, in-, post- and level-order
  traversals, built on `Stack` and `Queue`, and left and right rotations.
- `AVLTree` (packages/avl/src/AVLTree.ts): a `BSTree` whose nodes also carry
  a `balanceFactor`. After `_insert` and `_remove` it walks up the parent
  links, adjusts the factors and rotates (LL, RR, LR, RL).

How the model is laid out:

- Each class is a Dafny `class` whose methods update its fields in place, as
  the TypeScript methods do.
- Linked nodes live in an arena, a `seq` of node records indexed by `Ptr =
  Null | At(i)`. A node is never freed, so a detached node keeps its stale
  fields, as a JavaScript object still held by a caller would.
- A ghost `Shape` (`Empty | Fork(left, id, right)`) is the tree that the
  arena's child links trace from the root. `WellLinked` ties arena and shape
  together: exact child links, unique ids, `type` tags matching each slot,
  and parent links (with exceptions, below).
- Each tree operation is specified by a function of the whole old state.
  Examples are `InsertArena`, `RemoveArena`, `RotateLeftArena`,
  `AvlInsert` and `AvlRemove`. The methods are proved to compute exactly
  that function. Lemmas then prove what each function keeps: the invariants,
  the in-order listing, the key/value multiset, and the BST order under a
  ranking comparer.
- Traversal methods are proved to yield exactly the recursive pre-, in- and
  post-order, and the breadth-first order.

Keys are integers, and a comparer is any `(int, int) -> int`. The library's
default comparer, `Math.sign(a - b)`, is `BSTrees.DefaultComparer`. Facts
about order assume a *ranking* comparer, one that equals
`Sign(rank(x) - rank(y))` for some `rank`.

Behaviour of the code as written, which the model follows on purpose:

- `LinkList.entries` and `forEach` test `if (current)` where a loop was
  evidently meant. They yield the first element only.
- `LinkList._findNode` maps a negative index to `size - (index % size)`.
  That value is at least `size`, so `at` and `removeAt` with a negative
  index find nothing.
- `LinkList.indexOf` scans from the tail, so it returns the *last* position
  of a value, or -1.
- `BSTree.remove` overwrites the target with the pair of its successor (or
  predecessor) and detaches that node. It then returns the detached node's
  pair, that is the successor's pair, not the removed one
  (`Removing.ReportedAt`).
- When `remove` splices a node out, it re-tags the child that moves up but
  leaves that child's `parent` pointing at the detached node. The ghost set
  `loose` records such stale links.
- `BSTree.next` and `prev` look only inside the found node's right (left)
  subtree. A successor higher up the tree is not found, and the result is
  `null`.
- `BSTree._findNode` loops forever on a comparer result outside {-1, 0, 1},
  and `_insert` then returns `null` without inserting.
- `AVLTree._insert` runs its balance walk even when `_insert` only
  overwrote a value. It starts from the overwritten node's parent and
  changes factors.
- After `_adjustment` rotates a node during `_remove`, the walk goes on at
  that node's new parent, the node the rotation promoted. That node's
  factor is 0 after the rotation. The walk moves it to +1 or -1 and stops
  there, so the promoted node keeps a factor that is not its height
  difference (`RemoveWalk.AfterRotation`).
- During `_remove`, a node can reach +2 or -2 while its heavy child has
  factor 0. `_getRotateType` then finds no case. `_adjustment` climbs past
  the node without rotating, so the factor of magnitude 2 survives
  `_remove`. Removing key 1 from a right-leaning tree of keys 1 to 5 does
  this (`RemoveWalk.RemoveLeavesTwo`).

## Model

| member | source | states |
|---|---|---|
| Stacks.Stack.constructor | packages/stack/src/Stack.ts:8-10 | pushing every element of the iterable leaves exactly that sequence, its last element on top |
| Stacks.Stack.Top | packages/stack/src/Stack.ts:19-22 | nothing exactly when the stack is empty, otherwise the most recently pushed value |
| Stacks.Stack.Values | packages/stack/src/Stack.ts:24-26 | yields every stored value once, from the top down |
| Stacks.Stack.Push | packages/stack/src/Stack.ts:28-31 | appends the value, which becomes the top; the size grows by one |
| Stacks.Stack.Pop | packages/stack/src/Stack.ts:33-35 | returns the old top (nothing when empty) and the remaining values are the old ones without it |
| Stacks.Stack.Clear | packages/stack/src/Stack.ts:37-40 | leaves the stack empty |
| Queues.Queue.constructor | packages/queue/src/Queue.ts:14-16 | enqueuing the iterable in order leaves exactly its elements, front first |
| Queues.Queue.Enqueue | packages/queue/src/Queue.ts:26-37 | the value joins the back and the size grows by one; the array is compacted to start at 0 exactly when `start / end` exceeds 0.5 and more than `_MaxChunk` (1024) values are live |
| Queues.Queue.Dequeue | packages/queue/src/Queue.ts:39-42 | on an empty queue returns nothing and changes nothing; otherwise returns the front value, drops it, and advances `start` without touching the array |
| Queues.Queue.Peek | packages/queue/src/Queue.ts:49-52 | nothing exactly when the queue is empty, otherwise the front value |
| Queues.Queue.Clear | packages/queue/src/Queue.ts:44-47 | empties the queue and resets `start`, `end` and `size` to 0 |
| Queues.Queue.Values | packages/queue/src/Queue.ts:54-56 | yields exactly the live values, front first |
| LinkLists.LinkList.constructor | packages/linklist/src/LinkList.ts:16-18 | pushing every element of the iterable leaves a well-linked list holding exactly that sequence |
| LinkLists.LinkList.Head | packages/linklist/src/LinkList.ts:28-30 | the first value, or nothing for an empty list |
| LinkLists.LinkList.Tail | packages/linklist/src/LinkList.ts:32-34 | the last value, or nothing for an empty list |
| LinkLists.LinkList.Entries | packages/linklist/src/LinkList.ts:36-40 | as written, yields at most one entry: the head value at index 0 |
| LinkLists.LinkList.Push | packages/linklist/src/LinkList.ts:50-61 | appends the value at the tail, keeps every `next`/`prev` link mutual, and makes the new node the head as well on an empty list |
| LinkLists.LinkList.Unshift | packages/linklist/src/LinkList.ts:63-74 | prepends the value at the head with the links kept mutual |
| LinkLists.LinkList.Shift | packages/linklist/src/LinkList.ts:76-83 | returns and removes the first value (nothing and no change when empty); a list of one becomes empty with null head and tail |
| LinkLists.LinkList.Pop | packages/linklist/src/LinkList.ts:85-92 | returns and removes the last value (nothing and no change when empty) |
| LinkLists.LinkList.IndexOf | packages/linklist/src/LinkList.ts:94-102 | the scan from the tail returns the last position holding the value, or -1 |
| LinkLists.LastIndexOf | packages/linklist/src/LinkList.ts:94-102 | a result of -1 or a position holding the value, with no later position holding it |
| LinkLists.LastIndexOfIsLast | packages/linklist/src/LinkList.ts:94-102 | any index that holds the value with none after it equals `LastIndexOf`, so it is the only result fitting that description |
| LinkLists.LinkList.FindNode | packages/linklist/src/LinkList.ts:138-148 | the node at a position in 0..size-1, and null for every other index, negative ones included |
| LinkLists.JsRem | packages/linklist/src/LinkList.ts:139 | JavaScript's `%`: the remainder takes the sign of the dividend and is smaller than the divisor in magnitude |
| LinkLists.LinkList.ValueAt | packages/linklist/src/LinkList.ts:104-107 | the value at an index inside the list, nothing otherwise |
| LinkLists.LinkList.RemoveAt | packages/linklist/src/LinkList.ts:109-120 | outside the list returns nothing and changes nothing; inside, returns the value there and the list is the old one without it, with the links kept mutual |
| LinkLists.LinkList.UnlinkInner | packages/linklist/src/LinkList.ts:114-119 | unlinking an inner node joins its neighbours and removes exactly its value |
| LinkLists.LinkList.Clear | packages/linklist/src/LinkList.ts:122-126 | leaves an empty list with null head and tail and size 0 |
| LinkLists.ChainPush | packages/linklist/src/LinkList.ts:50-61 | linking a new cell after the tail yields a valid chain whose values are the old ones plus the new value |
| LinkLists.ChainUnshift | packages/linklist/src/LinkList.ts:63-74 | linking a new cell before the head yields a valid chain with the new value in front |
| LinkLists.ChainShift | packages/linklist/src/LinkList.ts:76-83 | clearing the second cell's `prev` yields the chain of all but the first cell |
| LinkLists.ChainPop | packages/linklist/src/LinkList.ts:85-92 | clearing the second-to-last cell's `next` yields the chain of all but the last cell |
| LinkLists.ChainUnlink | packages/linklist/src/LinkList.ts:114-119 | joining the neighbours of the k-th cell yields a chain whose values drop exactly the k-th one |
| BSTrees.DefaultRanked | packages/bst/src/BSTree.ts:52-53 | the default comparer `Math.sign(a - b)` ranks integer keys by their own value |
| BSTrees.BSTree.constructor | packages/bst/src/BSTree.ts:50-55 | an empty tree with the given comparer and `repeatable` flag, after `batchInsert` of the iterable; the result is well linked and ordered |
| BSTrees.BSTree.Size | packages/bst/src/BSTree.ts:63-65 | the stored size equals the number of nodes in the tree and the length of its listing |
| BSTrees.BSTree.IsEmpty | packages/bst/src/BSTree.ts:67-69 | true exactly when the tree has no node |
| BSTrees.BSTree.BatchInsert | packages/bst/src/BSTree.ts:76-79 | the state after `_insert` of each item in turn, still well linked |
| BSTrees.BSTree.Insert | packages/bst/src/BSTree.ts:254-277 | the new state is `InsertArena` of the old (a root on an empty tree, a value overwrite on an equal key unless repeatable, a new leaf in the first empty slot) and returns that node |
| BSTrees.BSTree.FindNode | packages/bst/src/BSTree.ts:318-327 | the node the comparer-guided descent meets with result 0, or null when it falls off the tree |
| BSTrees.BSTree.Find | packages/bst/src/BSTree.ts:81-83 | nothing exactly when the descent finds no node; otherwise the value stored under a key the comparer calls equal |
| BSTrees.BSTree.Has | packages/bst/src/BSTree.ts:222-224 | true exactly when the descent finds a node |
| BSTrees.BSTree.Min | packages/bst/src/BSTree.ts:202-207 | null exactly on an empty tree, otherwise the first entry of the in-order listing |
| BSTrees.BSTree.Max | packages/bst/src/BSTree.ts:209-214 | null exactly on an empty tree, otherwise the last entry of the in-order listing |
| BSTrees.BSTree.GetNextNode | packages/bst/src/BSTree.ts:242-246 | the leftmost node of the right subtree, or null |
| BSTrees.BSTree.GetPrevNode | packages/bst/src/BSTree.ts:248-252 | the rightmost node of the left subtree, or null |
| BSTrees.BSTree.Next | packages/bst/src/BSTree.ts:194-200 | null for a key not found; otherwise null exactly when the found node's right subtree is empty, and else the entry right after the node's in the in-order listing |
| BSTrees.BSTree.Prev | packages/bst/src/BSTree.ts:186-192 | the mirror image: the entry right before the found node's, when its left subtree is not empty |
| BSTrees.BSTree.RemoveNode | packages/bst/src/BSTree.ts:279-303 | for a missing key, null and no change; otherwise the state `RemoveArena` leaves: one node fewer, the listing without the target's entry, the detached node returned with the successor's (or predecessor's) pair, and the moved child's parent link stale |
| BSTrees.BSTree.Detach | packages/bst/src/BSTree.ts:279-300 | the arena writes of `_remove` after the target is found, node by node |
| BSTrees.BSTree.SpliceOut | packages/bst/src/BSTree.ts:284-288 | copies the victim's pair into the target, hangs the victim's child in its slot and re-tags that child |
| BSTrees.BSTree.Remove | packages/bst/src/BSTree.ts:85-95 | for a single key: an empty result and an unchanged listing when the key is missing; otherwise one pair, which is the successor's (or predecessor's, or the target's) entry, and the listing without the target's entry |
| BSTrees.BSTree.RotateLeft | packages/bst/src/BSTree.ts:329-346 | false and no change without a right child; otherwise the right child takes the node's slot, and the tree stays well linked with the same in-order sequence and listing |
| BSTrees.BSTree.RotateRight | packages/bst/src/BSTree.ts:348-365 | the mirror image of `RotateLeft` |
| BSTrees.RotateLeftKeeps | packages/bst/src/BSTree.ts:329-346 | a left rotation at a node with a right child keeps the tree well linked, its size, its in-order sequence and its listing |
| BSTrees.RotateRightKeeps | packages/bst/src/BSTree.ts:348-365 | the same for a right rotation |
| BSTrees.BSTree.Preorder | packages/bst/src/BSTree.ts:122-134 | the stack loop yields exactly the recursive pre-order walk |
| BSTrees.BSTree.Inorder | packages/bst/src/BSTree.ts:136-149 | the stack loop yields exactly the recursive in-order walk |
| BSTrees.BSTree.EntriesInOrder | packages/bst/src/BSTree.ts:110-120 | `entries` yields every entry of the in-order listing, as (value, key) |
| BSTrees.BSTree.Postorder | packages/bst/src/BSTree.ts:151-172 | the stack loop with its `visited` marker yields exactly the recursive post-order walk |
| BSTrees.BSTree.PostStuck | packages/bst/src/BSTree.ts:161-171 | one step at the stack's top: descend into an unvisited right subtree, or yield and pop; each step makes progress |
| BSTrees.BSTree.Sequence | packages/bst/src/BSTree.ts:174-184 | the queue loop yields exactly the breadth-first order of the nodes, each with its depth counted from 1 |
| BSTrees.BSTree.EnqueueChildren | packages/bst/src/BSTree.ts:181-182 | enqueues the left, then the right child with depth plus one |
| BSTrees.BSTree.Depth | packages/bst/src/BSTree.ts:57-61 | the greatest depth the level-order walk reports is the tree's height, 0 when empty |
| BSTrees.BSTree.Clear | packages/bst/src/BSTree.ts:216-220 | an empty tree of size 0 |
| Inserting.InsertKeeps | packages/bst/src/BSTree.ts:254-277 | insertion keeps the tree well linked, and adds one node exactly when it attaches or roots a node |
| Inserting.InsertOrdered | packages/bst/src/BSTree.ts:254-277 | insertion keeps the BST order |
| Inserting.InsertPairs | packages/bst/src/BSTree.ts:254-277 | the key/value multiset gains the new pair, has the overwritten pair replaced, or (on a comparer result outside {-1, 0, 1}) is unchanged |
| Inserting.InsertFind | packages/bst/src/BSTree.ts:254-277 | without `repeatable`, `find` of the inserted key afterwards returns the inserted value |
| Inserting.RepeatableAttaches | packages/bst/src/BSTree.ts:264 | with `repeatable`, an insertion never overwrites |
| Inserting.DescendLocate | packages/bst/src/BSTree.ts:262-273 | without `repeatable`, insertion overwrites exactly when `_findNode` finds the key, and at that node |
| Inserting.OverwriteListing | packages/bst/src/BSTree.ts:271 | overwriting a value changes that one entry of the listing and nothing else |
| Inserting.InsertAllKeeps | packages/bst/src/BSTree.ts:76-79 | a batch insertion keeps the tree well linked and ordered |
| Search.LocateSound | packages/bst/src/BSTree.ts:318-327 | a node `_findNode` returns is in the tree and compares equal to the key |
| Search.LocateComplete | packages/bst/src/BSTree.ts:318-327 | in an ordered tree under a ranking comparer, `_findNode` misses exactly when no node compares equal |
| Search.LeftmostFirst | packages/bst/src/BSTree.ts:202-207 | the leftmost node exists exactly for a nonempty tree and is the first in in-order |
| Search.RightmostLast | packages/bst/src/BSTree.ts:209-214 | the rightmost node exists exactly for a nonempty tree and is the last in in-order |
| Search.LeftmostLeast | packages/bst/src/BSTree.ts:202-207 | in an ordered tree the leftmost key has the least rank |
| Search.RightmostGreatest | packages/bst/src/BSTree.ts:209-214 | in an ordered tree the rightmost key has the greatest rank |
| Search.NextFollows | packages/bst/src/BSTree.ts:242-246 | the node `_getNextNode` finds comes right after `x` in in-order |
| Search.PrevPrecedes | packages/bst/src/BSTree.ts:248-252 | the node `_getPrevNode` finds comes right before `x` in in-order |
| Order.OrderedAscending | packages/bst/src/BSTree.ts:136-149 | under a ranking comparer, the tree is ordered exactly when its in-order listing ascends (strictly, or weakly when repeatable) |
| Order.InOrderDistinct | packages/bst/src/BSTree.ts:136-149 | the in-order walk visits each node once and has as many entries as the tree has nodes |
| Removing.RemoveKeeps | packages/bst/src/BSTree.ts:279-303 | removal keeps the tree well linked except for the moved child's stale parent link; the victim leaves, the listing loses the target's entry, and the detached node keeps the reported pair |
| Removing.RemoveOrdered | packages/bst/src/BSTree.ts:279-303 | under a ranking comparer, removal keeps the BST order |
| Removing.RemovePairs | packages/bst/src/BSTree.ts:279-303 | the key/value multiset loses exactly the target's pair |
| Splicing.RemoveSuccessor | packages/bst/src/BSTree.ts:283-290 | the successor branch: the successor's right subtree takes its slot, and the listing drops the target's entry, which the successor's pair overwrote |
| Splicing.RemovePredecessor | packages/bst/src/BSTree.ts:291-298 | the predecessor branch, the mirror image |
| Splicing.RemoveLeaf | packages/bst/src/BSTree.ts:299-300 | a target with no children, other than the root, leaves its parent's slot empty and drops out of the listing |
| Splicing.SpliceCells | packages/bst/src/BSTree.ts:287-288 | the splice writes the parent's slot and the child's tag, and no other cell |
| Rotation.RotLRotR | packages/bst/src/BSTree.ts:329-365 | a right rotation undoes a left rotation of the shape |
| Rotation.RotRRotL | packages/bst/src/BSTree.ts:329-365 | a left rotation undoes a right rotation of the shape |
| Rotation.RotLKeeps | packages/bst/src/BSTree.ts:329-346 | a left rotation keeps the set of nodes, the in-order sequence, the count and uniqueness |
| Rotation.RotRKeeps | packages/bst/src/BSTree.ts:348-365 | the same for a right rotation |
| Rotation.RotateLeftCells | packages/bst/src/BSTree.ts:329-346 | `_rotateLeft` writes the node, its right child, that child's left child and the parent's slot, and nothing else |
| Rotation.RotateRightCells | packages/bst/src/BSTree.ts:348-365 | the mirror image for `_rotateRight` |
| Rotation.RotateLeftTree | packages/bst/src/BSTree.ts:329-346 | on the arena, `_rotateLeft` keeps every shape invariant, the nodes, the in-order sequence and every stored pair |
| Rotation.RotateRightTree | packages/bst/src/BSTree.ts:348-365 | the same for `_rotateRight` |
| Rotation.RotateUndo | packages/bst/src/BSTree.ts:329-365 | `_rotateRight` on the promoted node restores the arena and root exactly as they were before `_rotateLeft` |
| Traversal.OrdersCover | packages/bst/src/BSTree.ts:122-172 | pre-, in- and post-order each visit exactly the nodes of the tree |
| Traversal.OrdersPermute | packages/bst/src/BSTree.ts:122-172 | the three orders are permutations of one another, each as long as the tree's node count |
| Traversal.PreOrderDistinct | packages/bst/src/BSTree.ts:122-134 | pre-order visits no node twice |
| Traversal.PostOrderDistinct | packages/bst/src/BSTree.ts:151-172 | post-order visits no node twice |
| Traversal.InWalkListing | packages/bst/src/BSTree.ts:136-149 | the in-order walk yields the listing's entries, value before key |
| Traversal.InWalkAscending | packages/bst/src/BSTree.ts:136-149 | in an ordered tree the in-order walk yields keys in ascending rank |
| Traversal.PostInvStuck | packages/bst/src/BSTree.ts:161-165 | the `visited` test is exact: the top's right child is unvisited exactly when the walk has not yet entered it |
| Traversal.PostInvPush | packages/bst/src/BSTree.ts:156-159 | pushing and going left keeps the post-order loop invariant and decreases the work measure |
| Traversal.PostInvRight | packages/bst/src/BSTree.ts:162-165 | turning into the right subtree keeps the invariant and decreases the work measure |
| Traversal.PostInvPop | packages/bst/src/BSTree.ts:167-170 | yielding and popping the top keeps the invariant and records the node as visited |
| Traversal.BfsStep | packages/bst/src/BSTree.ts:178-183 | one dequeue step yields the front node at its depth and queues its children, the remaining work shrinking |
| Traversal.LevelOrderCovers | packages/bst/src/BSTree.ts:174-184 | the level-order walk visits every node of the tree exactly once |
| Traversal.LevelOrderSorted | packages/bst/src/BSTree.ts:174-184 | the level-order walk reports depths in non-decreasing order |
| Traversal.LevelOrderDeepest | packages/bst/src/BSTree.ts:174-184 | every reported depth is at most the tree's height, and for a nonempty tree some node reports exactly the height |
| Balancing.InsertClimb | packages/avl/src/AVLTree.ts:23-32 | the balance walk of `_insert` keeps the state invariants and stops, if anywhere, at a tree node |
| Balancing.InsertClimbStops | packages/avl/src/AVLTree.ts:25-32 | the walk stops only at a node whose factor left [-1, 1], and it changes no factor outside the tree |
| Balancing.RotateTypeOf | packages/avl/src/AVLTree.ts:61-70 | LL or LR only at factor 2 with a left child, RR or RL only at factor -2 with a right child, and no rotation exactly when the heavy side's child has no factor of ±1 |
| Balancing.RotateLL | packages/avl/src/AVLTree.ts:77-80 | the LL case keeps the nodes, the in-order sequence and every stored pair |
| Balancing.RotateRR | packages/avl/src/AVLTree.ts:81-84 | the RR case keeps the nodes, the in-order sequence and every stored pair |
| Balancing.RotateLR | packages/avl/src/AVLTree.ts:85-98 | the LR case keeps the nodes, the in-order sequence and every stored pair |
| Balancing.RotateRL | packages/avl/src/AVLTree.ts:99-111 | the RL case keeps the nodes, the in-order sequence and every stored pair |
| Balancing.Rotate | packages/avl/src/AVLTree.ts:72-113 | every rotation keeps the nodes, the in-order sequence and every stored pair |
| Balancing.FactorsLL | packages/avl/src/AVLTree.ts:77-80 | without a left child nothing changes; otherwise the left child becomes the node's parent, both factors become 0, and no other factor changes |
| Balancing.FactorsRR | packages/avl/src/AVLTree.ts:81-84 | the mirror image for the RR case |
| Balancing.FactorsLR | packages/avl/src/AVLTree.ts:85-98 | the grandchild rises above the node with factor 0; the left child gets 1 when the grandchild's factor was -1, the node gets -1 when it was 1, all else 0; no other factor changes |
| Balancing.FactorsRL | packages/avl/src/AVLTree.ts:99-111 | the mirror image for the RL case |
| Balancing.RotateLifts | packages/avl/src/AVLTree.ts:72-113 | after the rotation `_getRotateType` chose, the rotated node hangs below a node of factor 0 that sits at the rotated node's old depth |
| Balancing.Adjust | packages/avl/src/AVLTree.ts:55-59 | `_adjustment` keeps the nodes, the in-order sequence and the pairs; a node it returns is in the tree no deeper than `x`, and now hangs below a node of factor 0 at its old depth |
| Balancing.AdjustFinds | packages/avl/src/AVLTree.ts:55-59 | `_adjustment` returns nothing and changes nothing, or returns the first node on the way up that has a rotation type, after that rotation |
| Balancing.RemoveClimb | packages/avl/src/AVLTree.ts:39-52 | the balance walk of `_remove` keeps the nodes, the in-order sequence and the pairs |
| Balancing.AvlInsert | packages/avl/src/AVLTree.ts:21-35 | the AVL `_insert` leaves the same nodes, order and pairs as the plain BST insertion |
| Balancing.AvlInsertListing | packages/avl/src/AVLTree.ts:21-35 | the AVL tree lists exactly the entries, and holds as many nodes as, the plain BST insertion leaves; under a ranking comparer it stays ordered |
| Balancing.AvlRemove | packages/avl/src/AVLTree.ts:36-54 | the AVL `_remove` leaves the same nodes, order and pairs as the plain BST removal |
| Balancing.RemovedGood | packages/avl/src/AVLTree.ts:37-40 | when the victim has no child, the BST removal keeps every parent link exact and the walk's start, the victim's old parent, is in the tree |
| Balancing.AvlRemoveListing | packages/avl/src/AVLTree.ts:36-54 | the AVL tree lists the old entries without the target's, holds one node fewer, and under a ranking comparer stays ordered |
| Balancing.AvlInsertAll | packages/bst/src/BSTree.ts:76-79 | inserting a batch into an AVL tree keeps the state invariants |
| AVLTrees.AVLTree.constructor | packages/bst/src/BSTree.ts:50-55 | an empty AVL tree after the AVL `_insert` of each element of the iterable |
| AVLTrees.AVLTree.BatchInsert | packages/bst/src/BSTree.ts:76-79 | the state after the AVL `_insert` of each item in turn |
| AVLTrees.AVLTree.Insert | packages/avl/src/AVLTree.ts:21-35 | the new state is `AvlInsert` of the old, and the node returned is the one the BST insertion returned |
| AVLTrees.AVLTree.InsertWalk | packages/avl/src/AVLTree.ts:23-32 | the loop leaves the factors, and stops at the node, that `InsertClimb` describes |
| AVLTrees.AVLTree.Adjustment | packages/avl/src/AVLTree.ts:55-59 | the state and node are those that `Adjust` describes |
| AVLTrees.AVLTree.Rotate | packages/avl/src/AVLTree.ts:72-113 | the state is the one `Balancing.Rotate` describes for the chosen case |
| AVLTrees.AVLTree.RotateLLAt | packages/avl/src/AVLTree.ts:77-80 | the state is the one `RotateLL` describes |
| AVLTrees.AVLTree.RotateRRAt | packages/avl/src/AVLTree.ts:81-84 | the state is the one `RotateRR` describes |
| AVLTrees.AVLTree.RotateLRAt | packages/avl/src/AVLTree.ts:85-98 | the state is the one `RotateLR` describes |
| AVLTrees.AVLTree.RotateRLAt | packages/avl/src/AVLTree.ts:99-111 | the state is the one `RotateRL` describes |
| AVLTrees.AVLTree.Remove | packages/avl/src/AVLTree.ts:36-54 | for a missing key, an empty result and no change; otherwise the state is `AvlRemove` of the old, the listing loses the target's entry, and the one pair returned is the entry the BST removal reports |
| AVLTrees.AVLTree.RemoveWalk | packages/avl/src/AVLTree.ts:39-52 | the loop leaves the state that `RemoveClimb` describes |
| AVLTrees.AVLTree.RemoveStep | packages/avl/src/AVLTree.ts:41-51 | one pass of the loop preserves the remaining walk's result, and climbs, or stays once after a rotation |
| AvlHeights.BalancedEven | packages/avl/src/AVLTree.ts:21-35 | the balance invariant stated node by node is the same as the recursive one: every factor is its subtree's height difference and lies in [-1, 1] |
| AvlHeights.Step | packages/avl/src/AVLTree.ts:25-31 | one step of the `_insert` walk writes the parent's true height difference: at 0 every factor is true, at +1 or -1 the walk goes on from the parent, and beyond it breaks off with the parent two higher on the side it came from |
| AvlHeights.StepArena | packages/avl/src/AVLTree.ts:25-31 | the same step read off the node's `parent` and `type` fields, moving to a shallower node |
| AvlHeights.ClimbEven | packages/avl/src/AVLTree.ts:23-32 | the `_insert` walk from a grown subtree ends with every factor true, or breaks off at a node whose heavy child leans one way |
| AvlHeights.RotatedLL | packages/avl/src/AVLTree.ts:77-80 | at the node the insert walk broke off at, the LL rotation leaves every factor true |
| AvlHeights.RotatedRR | packages/avl/src/AVLTree.ts:81-84 | the mirror image for the RR rotation |
| AvlHeights.RotatedLR | packages/avl/src/AVLTree.ts:85-98 | at the node the insert walk broke off at, the LR rotation and its factor table leave every factor true |
| AvlHeights.RotatedRL | packages/avl/src/AVLTree.ts:99-111 | the mirror image for the RL rotation |
| AvlHeights.AdjustEven | packages/avl/src/AVLTree.ts:55-59 | after the insert walk breaks off, `_adjustment` rotates that node itself and leaves every factor true |
| AvlHeights.AttachRising | packages/avl/src/AVLTree.ts:21-24 | a key the BST insertion attaches becomes a new leaf with factor 0, every other factor true when the leaf is counted as no height |
| AvlHeights.AvlInsertBalanced | packages/avl/src/AVLTree.ts:21-35 | when `_insert` adds a node, into an empty tree or as a new leaf, a tree whose factors are all true and in [-1, 1] stays so |
| RemoveWalk.AdjustAbove | packages/avl/src/AVLTree.ts:55-59 | the node `_adjustment` rotates, if any, is the start node or one of its ancestors |
| RemoveWalk.RotateNear | packages/avl/src/AVLTree.ts:72-113 | a rotation changes factors only at the rotated node, its children and grandchildren; the rotated node ends in [-1, 1] below the promoted node |
| RemoveWalk.AfterRotation | packages/avl/src/AVLTree.ts:44-51 | right after a rotation the walk moves the promoted node's factor from 0 to -1 (from the left) or +1 (from the right) and ends there |
| RemoveWalk.RemoveClimbStops | packages/avl/src/AVLTree.ts:39-52 | the `_remove` walk changes factors only on and near the path up from its start; it ends at a node with a nonzero factor that is out of [-1, 1] only where `_getRotateType` finds no case; it climbs past the root only with the root at 0 |
| RemoveWalk.RemoveLeavesTwo | packages/avl/src/AVLTree.ts:36-70 | on a concrete balanced tree, removing a leaf leaves the root at factor -2, so `_remove` does not keep the balance invariant |

## Left out

- Generators and iteration protocol: `values`, `keys`, `entries` and the
  traversals return sequences instead of lazy generators, so interleaving a
  generator with updates is not modelled. `Symbol.iterator`, the
  `forEach` methods and their callbacks, and `values`/`keys` of `LinkList`
  (projections of `entries`) are not modelled separately.
- `BSTree.forEach` dispatches on a traversal type to one of the four
  traversal methods, which are modelled; the dispatch itself is not.
- Keys are unbounded integers, and the default comparer is written on
  them. Floating-point keys, `NaN` and the infinities are out of scope.
- The TypeScript typing of the constructors (`BSTreeArgs`), the
  `isUndefined` helper and the `?? false` defaulting are modelled only by
  passing explicit arguments.
- Memory behaviour: `Queue` compaction is modelled as the state change it
  makes (`start` resets to 0), not as freeing memory.
- `size`/`isEmpty` getters of `Stack`, `Queue` and `LinkList` are plain
  field reads and have no rows of their own.
- BSTrees.BSTree.Remove: models one key. The array form of `remove` maps
  `_remove` over the keys and drops the misses; it is not modelled.
- BSTrees.BSTree.RemoveNode: requires that the node it detaches has an
  exact parent link (`Detachable`). When an earlier removal left a stale
  link on that node, the code writes into an already detached node. That
  corrupts the tree, and the model does not follow it.
- BSTrees.BSTree.RotateLeft: requires that the rotated node's own parent
  link is exact. RotateRight requires the same.
- BSTrees.BSTree.FindNode: requires `Comparable`: the comparer returns -1,
  0 or 1 at every node on the search path. On another result the source's
  loop never ends. Find, Has, Next, Prev and Remove inherit this
  requirement.
- Order and search-completeness lemmas (`OrderedAscending`,
  `LocateComplete`, `RemoveOrdered`, the `Leftmost`/`Rightmost` facts)
  assume a ranking comparer. Insertion keeps the structural invariants for
  any comparer.
- AVLTrees.AVLTree.Remove: requires that the node `_remove` detaches (the
  successor, predecessor or leaf target) has no child. When it has one,
  the BST splice leaves the child that moves up with its `parent` still
  pointing at the detached node. Inserting 2, 1, 3, 4 and removing 2 is
  such a case: node 3 is detached and node 4 keeps `parent` = 3. The
  removal's own walk is not affected, since it starts at the detached
  node's old parent and climbs through live ancestors only. But a later
  walk that climbs through the moved-up child, or a rotation that pivots
  on it, follows the stale link into the detached node. The AVL class
  keeps every parent link exact (`loose == {}`) so that every walk and
  rotation stays inside the tree, and it does not model removals that
  leave a stale link.
- The AVL balance theorem is proved for `_insert` when it adds a node
  (`AvlInsertBalanced`). It is not proved for `_remove`, which does not keep
  it (`RemoveLeavesTwo`), nor for an `_insert` that only overwrites a
  value, whose walk starts above an unchanged subtree and can move a factor
  away from its height difference.
