# Bid binary search tree

A model of the unbalanced binary search tree of auction bids in
`BinarySearchTree.cpp`. The tree is keyed by the string `bidId`. Nodes are
allocated on the heap, and their `left`/`right` child pointers are updated in
place. The model covers:

- inserting a bid (`Insert` / `addNode`);
- finding a bid by id (`Search`);
- removing a bid by id (`Remove` / `removeNode`);
- the three traversals that print the bids.

The project has four modules:

- `StringOrder` (`string_order.dfy`) is the order on ids. It is the sign of
  `std::string::compare`: characters are compared one position at a time, and
  a proper prefix sorts first.
- `BidTree` (`bid_tree.dfy`) holds the bid record and the tree as a value
  (`Tree = Empty | Branch(left, bid, right)`). `Insert`, `Find` and `Remove`
  follow `addNode`, the `Search` loop and `removeNode` branch for branch.
  They are the specifications for the heap code. This module also defines:
  - the multiset of stored bids (`Bids`), and the count of bids with a given
    id (`Count`);
  - the ordering invariant `IsBst`: ids strictly below a node go left, ids at
    or above it go right, so equal ids go right as `addNode` sends them;
  - the lemmas about all of these;
  - the remove that the code actually performs (`RemoveAsWritten`).
- `Traversals` (`traversals.dfy`) gives each traversal as the sequence of
  bids it prints, in the order its name promises. Next to each is the
  sequence the code as written prints. The comments inside `preOrder`
  (BinarySearchTree.cpp:347-348) say "postOrder left / postOrder right", and
  `postOrder` is headed "Pre order root" (BinarySearchTree.cpp:327). These
  are read as copy slips: pre-order recurses with pre-order, and post-order
  with post-order.
- `LinkedBst` (`linked_bst.dfy`) has the classes `Node` and
  `BinarySearchTree`. They carry ghost footprints (`Repr`) and the ghost
  value (`Content`) of the tree they hold. Each method is proved to leave
  `Content` equal to the matching `BidTree` function of the old `Content`.
  - `AddNode` and `RemoveNode` are recursive and update nodes in place.
  - `Search` and `Successor` are the source's `while` loops.
  - `Remove` rebinds the root. `RemoveAsWritten` drops `removeNode`'s result,
    as the source's `Remove` does.

The data model:

- `BidTree.Bid` is the `Bid` struct (BinarySearchTree.cpp:24-34).
- `BidTree.Tree` is the value of a `Node` subtree (BinarySearchTree.cpp:37-55).
- `LinkedBst.Node` is the `Node` struct itself, and `LinkedBst.BinarySearchTree`
  is the class (BinarySearchTree.cpp:64-86).

## Model

| member | source | states |
|---|---|---|
| StringOrder.Compare | BinarySearchTree.cpp:175-182 | The comparison is -1, 0 or 1, and it is 0 exactly when the two ids are equal. |
| StringOrder.CompareFlip | BinarySearchTree.cpp:175-182 | Swapping the operands negates the result, so `node.compare(id) == 0` and `id.compare(node) < 0` in the search ask consistent questions. |
| StringOrder.LessTrichotomy | BinarySearchTree.cpp:207 | Two distinct ids are ordered one way, never both ways, and no id is below itself. |
| StringOrder.LessTransitive | BinarySearchTree.cpp:207 | The order on ids is transitive, which is what makes the descent order an ordering invariant. |
| BidTree.EmptyBid | BinarySearchTree.cpp:30-33 | A default-constructed bid has an empty id. This is the "not found" result of `Search`. |
| BidTree.Insert | BinarySearchTree.cpp:203-235 | The tree value after `addNode`: left where the node's id compares greater than the new id, right otherwise, a new leaf at the first empty slot. Its properties are the four `Insert…` lemmas below. |
| BidTree.InsertContents | BinarySearchTree.cpp:203-235 | After insertion the stored bids are exactly the old ones plus the new bid. |
| BidTree.InsertKeepsNodes | BinarySearchTree.cpp:203-235 | Every existing node keeps its bid and its position. Exactly one node is added. |
| BidTree.InsertPreservesBst | BinarySearchTree.cpp:207-233 | Insertion keeps the ordering invariant, duplicates included: the greater-than test sends an equal id right. |
| BidTree.Find | BinarySearchTree.cpp:166-195 | A found bid is stored in the tree and carries the requested id. |
| BidTree.FindComplete | BinarySearchTree.cpp:170-194 | On an ordered tree the search finds a bid exactly when some stored bid carries the id. |
| BidTree.SentinelMeansAbsent | BinarySearchTree.cpp:192-194 | For a non-empty id, the result has an empty id exactly when no stored bid carries the id. |
| BidTree.InsertThenFind | BinarySearchTree.cpp:166-195 | After an insert the id is found. The result is the new bid unless an equal id was already reachable, which then hides the new one. |
| BidTree.Leftmost | BinarySearchTree.cpp:295-299 | The bid the successor loop stops at, reached by following left children. `LeftmostStored` and `LeftmostIsMinimum` state what it is. |
| BidTree.LeftmostStored | BinarySearchTree.cpp:295-299 | The bid reached by following left pointers is a stored bid. |
| BidTree.LeftmostIsMinimum | BinarySearchTree.cpp:295-299 | On an ordered subtree that bid has the smallest id. |
| BidTree.RemoveLeftmost | BinarySearchTree.cpp:301 | The right subtree once the recursive call has cut out its leftmost node; `RemoveSuccessor` proves that the call does exactly this on an ordered subtree. |
| BidTree.RemoveLeftmostContents | BinarySearchTree.cpp:293-302 | Cutting out the leftmost node removes exactly its bid. |
| BidTree.RemoveLeftmostCount | BinarySearchTree.cpp:293-302 | Cutting out the leftmost node counts its id once less and every other id as before. |
| BidTree.RemoveLeftmostPreservesBst | BinarySearchTree.cpp:293-302 | Cutting out the leftmost node keeps the ordering invariant. |
| BidTree.Remove | BinarySearchTree.cpp:243-305 | The tree value after `removeNode`, case for case. `RemoveAbsent`, `RemovePresent`, `RemovePreservesBst` and `RemoveThenFind` state its properties. |
| BidTree.RemoveAbsent | BinarySearchTree.cpp:246-260 | Removing an id that no bid carries (an empty subtree included) gives back the same tree. |
| BidTree.RemoveSuccessor | BinarySearchTree.cpp:301 | In an ordered subtree, removing the leftmost node's id cuts out exactly that leftmost node. |
| BidTree.RemoveTwoChildren | BinarySearchTree.cpp:293-302 | In the two-child case the node stays, takes the leftmost bid of its right subtree, and that node leaves the right subtree. |
| BidTree.RemovePresent | BinarySearchTree.cpp:243-305 | Removing a stored id deletes exactly one bid, the one the search finds. One fewer bid carries the id, and the ordering invariant holds. |
| BidTree.RemoveLeftStep | BinarySearchTree.cpp:252-254 | When the id sorts below the node, what removal does to the left subtree it does to the whole tree. |
| BidTree.RemoveRightStep | BinarySearchTree.cpp:258-260 | When the id sorts above the node, what removal does to the right subtree it does to the whole tree. |
| BidTree.RemoveAtMatch | BinarySearchTree.cpp:262-303 | At the node holding the id, that node's bid is the one removed, whatever its number of children. |
| BidTree.RemoveAtOneChild | BinarySearchTree.cpp:266-287 | On any tree, a leaf becomes empty and a node with one child is replaced by that child, and exactly the node's bid goes. On an ordered tree the order is kept. |
| BidTree.RemoveAtTwoChildren | BinarySearchTree.cpp:293-302 | In the two-child case exactly the node's own bid disappears, and the order is kept. |
| BidTree.SuccessorKeepsOrder | BinarySearchTree.cpp:300-301 | Moving the successor's bid into the node and cutting it from the right subtree keeps the ordering invariant. |
| BidTree.RemovePreservesBst | BinarySearchTree.cpp:243-305 | Removal keeps the ordering invariant whether or not the id is stored. |
| BidTree.RemoveThenFind | BinarySearchTree.cpp:243-305 | When the id is stored once, it can no longer be found after removal. |
| BidTree.RemoveAsWritten | BinarySearchTree.cpp:156-161 | The tree value after the source's `Remove`, which drops `removeNode`'s result. In the model, a cut-out root node is read as it was; `RemoveAsWrittenDiverges` compares it with the rebinding remove. |
| BidTree.RemoveAsWrittenDiverges | BinarySearchTree.cpp:156-161 | The source's `Remove` agrees with the rebinding one exactly when the root node is not cut out. When it is cut out, the model, which reads the released node as it was, still finds the removed bid. |
| BidTree.RemoveAsWrittenLeaf | BinarySearchTree.cpp:156-161 | With a single stored bid, in the model the source's `Remove` leaves the bid in place (C++ deletes the node and leaves `root` dangling), while the rebinding remove empties the tree. |
| Traversals.InOrder | BinarySearchTree.cpp:314-315 | The documented in-order sequence: left subtree, node, right subtree. `InOrderComplete` and `InOrderAscending` state its properties. |
| Traversals.PreOrder | BinarySearchTree.cpp:344-348 | The pre-order sequence: node, then left and right subtrees in pre-order. `PreOrderComplete` states its property. |
| Traversals.PostOrder | BinarySearchTree.cpp:327-331 | The post-order sequence: left subtree, right subtree, then the node, as the comment lists them. `PostOrderComplete` states its property. |
| Traversals.InOrderComplete | BinarySearchTree.cpp:307-323 | The documented in-order traversal visits every stored bid exactly once. |
| Traversals.InOrderAscending | BinarySearchTree.cpp:314-315 | On an ordered tree the in-order traversal lists the bids by ascending id. |
| Traversals.PreOrderComplete | BinarySearchTree.cpp:342-358 | The documented pre-order traversal visits every stored bid exactly once. |
| Traversals.PostOrderComplete | BinarySearchTree.cpp:325-340 | The documented post-order traversal visits every stored bid exactly once. |
| Traversals.InOrderAsWritten | BinarySearchTree.cpp:307-324 | What `inOrder` prints as written: it returns before the right recursion. |
| Traversals.PreOrderAsWritten | BinarySearchTree.cpp:342-358 | What `preOrder` prints as written: it returns right after the node. |
| Traversals.PostOrderAsWritten | BinarySearchTree.cpp:325-340 | What `postOrder` prints as written: both children go through `inOrder` as written, then the node. |
| Traversals.InOrderAsWrittenExact | BinarySearchTree.cpp:307-324 | In-order as written prints the documented sequence exactly when no node has a right child. |
| Traversals.InOrderAsWrittenShorter | BinarySearchTree.cpp:318-322 | In-order as written never prints more bids than the documented order. |
| Traversals.InOrderAsWrittenMissesRight | BinarySearchTree.cpp:321-322 | When the root has a right child, in-order as written prints fewer bids than are stored. |
| Traversals.InOrderAsWrittenDropsRightChild | BinarySearchTree.cpp:321-322 | On a root with one right child, in-order as written prints only the root. |
| Traversals.PreOrderAsWrittenStopsAtRoot | BinarySearchTree.cpp:353-355 | On a root with one left child, pre-order as written prints only the root. |
| Traversals.PostOrderAsWrittenChain | BinarySearchTree.cpp:334-335 | On a right-leaning chain of three bids, post-order as written prints two of them, in an order that is not post-order. |
| LinkedBst.Node.constructor | BinarySearchTree.cpp:51-54 | A new node is a well-formed leaf holding the bid, with both children null. |
| LinkedBst.BinarySearchTree.constructor | BinarySearchTree.cpp:91-96 | A new tree is empty (its root is null). |
| LinkedBst.BinarySearchTree.Insert | BinarySearchTree.cpp:139-151 | The tree stays well formed and afterwards holds the value insertion gives, whether or not it was empty. |
| LinkedBst.BinarySearchTree.AddNode | BinarySearchTree.cpp:203-235 | Updating nodes in place gives the value insertion gives. Only fresh nodes join the footprint. |
| LinkedBst.BinarySearchTree.RemoveNode | BinarySearchTree.cpp:243-305 | The returned subtree holds the value removal gives. The node passed in is returned unless it holds the id with at most one child, and then it is left as it was. |
| LinkedBst.BinarySearchTree.RemoveBelow | BinarySearchTree.cpp:252-260 | Rebinding a child to the result of the recursive call replaces that child subtree by its value after removal. |
| LinkedBst.BinarySearchTree.ReplaceBySuccessor | BinarySearchTree.cpp:293-302 | The node takes the leftmost bid of its right subtree, and that id is removed from the right subtree. |
| LinkedBst.BinarySearchTree.Successor | BinarySearchTree.cpp:295-299 | The loop reaches the leftmost bid of the subtree. On an ordered subtree it has the smallest id. |
| LinkedBst.BinarySearchTree.Remove | BinarySearchTree.cpp:156-161 | With the root rebound, the tree stays well formed and holds the value removal gives. |
| LinkedBst.BinarySearchTree.RemoveAsWritten | BinarySearchTree.cpp:156-161 | Without rebinding, the tree holds the value of the source's remove: in the model, unchanged when the root node is cut out (C++ leaves the root dangling), otherwise the value removal gives. |
| LinkedBst.BinarySearchTree.Search | BinarySearchTree.cpp:166-195 | The loop returns the bid the descent finds, or the empty-id bid. A result with a non-empty id carries the requested id and is stored. With no bid of that id stored, the result is the empty-id bid. Nothing is changed. |

## Left out

- `loadBids` and the CSV parser (BinarySearchTree.cpp:381-419) are not modelled: they do file I/O through a library that is not part of this model.
- `strToDouble` (BinarySearchTree.cpp:429-433) is not modelled because it parses floating point. `amount` is a `real` that is carried along and never examined.
- `displayBid` and the `cout` output of the traversals are console formatting. Each traversal is the sequence of bids it would print.
- The public `InOrder`, `PostOrder` and `PreOrder` wrappers (BinarySearchTree.cpp:109-134) only pass `root` to the private traversal. They are the traversal functions applied to a tree's `Content`.
- `main` (BinarySearchTree.cpp:438-531) is left out: it is the interactive menu, `cin` and `clock()` timing.
- The destructor (BinarySearchTree.cpp:101-104) and `delete` (BinarySearchTree.cpp:270, 280, 286) have no counterpart. An excised node is dropped from the tree, and its memory is not modelled.
- BidTree.RemoveAsWrittenLeaf: "the source's `Remove` leaves the bid in place" holds in the model only. In C++ `removeNode` deletes the single node and `root` dangles, so later use is undefined behaviour.
- BidTree.RemoveAsWritten: a root node that `removeNode` cut out is read with its old fields. In C++ `delete` has destroyed it, so the value given is that of the model only.
- BidTree.RemoveAsWrittenDiverges: "the removed bid is still found" holds in the model only. In C++ a later `Search` reads the deleted root node, which is undefined behaviour.
- LinkedBst.BinarySearchTree.RemoveAsWritten: when the root node is cut out, C++ has deleted it, so the root pointer dangles. The model keeps that node as it was, so it reads the tree as unchanged. It does not capture the undefined behaviour of later uses.
- LinkedBst.BinarySearchTree.Insert: the ordering invariant is not restated on the heap object. It holds through `Content == BidTree.Insert(old(Content), b)` together with `BidTree.InsertPreservesBst`.
- LinkedBst.BinarySearchTree.Remove: the ordering invariant holds through its `Content` postcondition and `BidTree.RemovePreservesBst`, and is not restated on the object.
- LinkedBst.BinarySearchTree.Search: completeness on an ordered tree holds through its first postcondition together with `BidTree.FindComplete` and `BidTree.SentinelMeansAbsent`, and is not restated on the method.
- Ids are Dafny strings, and characters are compared by code. `std::string::compare` compares `char`s as unsigned bytes, so the order agrees when each character stands for one byte. Encodings are not modelled.

## Findings

| source | as written | input that shows it | evidently intended | confidence | as-written member | corrected member |
|---|---|---|---|---|---|---|
| BinarySearchTree.cpp:160 | `Remove` drops `removeNode`'s result, so `root` is never rebound | a tree holding one bid with id "A", then `Remove("A")` | `root = removeNode(root, bidId)`, which empties the tree | not executed | LinkedBst.BinarySearchTree.RemoveAsWritten | LinkedBst.BinarySearchTree.Remove |
| BinarySearchTree.cpp:321-322 | `inOrder` returns before visiting the right subtree | a root "1" with right child "2" prints only "1" | left subtree, node, then right subtree: every bid in ascending id order | not executed | Traversals.InOrderAsWrittenMissesRight | Traversals.InOrderAscending |
| BinarySearchTree.cpp:353-355 | `preOrder` returns right after printing the node | a root "2" with left child "1" prints only "2" | node, then left subtree, then right subtree, each bid once | not executed | Traversals.PreOrderAsWrittenStopsAtRoot | Traversals.PreOrderComplete |
| BinarySearchTree.cpp:334-335 | `postOrder` descends with `inOrder` rather than with itself | the chain "1" → "2" → "3" (right children) prints "2", "1" | left subtree, right subtree, then the node, each bid once: "3", "2", "1" | not executed | Traversals.PostOrderAsWrittenChain | Traversals.PostOrderComplete |
