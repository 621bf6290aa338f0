# data-structs: ropes and a doubly linked list, in Dafny

This project models the rope and the doubly linked list of the `data-structs`
Rust crate, together with the Fibonacci helper the rope's balance test uses.

- **Rope nodes** (`rope_node.dfy`, module `RopeNodes`). A rope is a binary tree.
  Its nodes are `Node(left, right, weight)`, `Leaf(value)` and `None` (`Empty`
  here). The text of a rope is the text of its leaves, from left to right. The
  module models `get_char_rec` (lookup routed by weight), `map_leaf`, `get_depth`
  and `Display`.
- **The rope iterator** (`rope_iter.dfy`, module `RopeIterator`). `RopeIter` is a
  class whose one field is the explicit stack. `next` and
  `collect_parent_right_nodes` are methods that update that field. Each method
  is proved against `Step`, a pure step function on stacks. `Drain` follows
  `Step` until its first `None`. `Yielded(n)` is what a `for` loop over `n`
  receives, and `YText(n)` is the text of those leaves. The iterator stops as
  soon as a node, rather than a leaf, comes to the top of the stack. Because of
  that, `len`, `split`, `substring`, `insert` and `rebalance`, which are all
  written over the iterator, see `YText` and not always the full text.
- **The bulk builder** (`rope_builder.dfy`, module `RopeBuilder`). This is
  `FromIterator`. It keeps the leaves of its input, then pairs neighbours round
  by round until a single entry is left. Each round promotes an odd last entry
  unchanged.
- **Rope operations** (`rope_ops.dfy`, module `RopeOps`). These are the methods
  of `RopeNodeWrapper`: `len`, `concat`, `split`, `substring`, `insert`,
  `is_balanced` and `rebalance`. `split` and `substring` are methods with their
  loops, proved against specification functions.
- **`Rope`** (`rope.dfy`, module `Ropes`). This is the owner of one root.
  `insert`, `substring` and `rebalance` replace that root.
- **The earlier single-file rope** (`legacy_rope.dfy`, module `LegacyRopes`). Its
  root starts as `None`. It has the same lookup as the current rope. Its
  iterator hands out the leaves' strings.
- **The doubly linked list** (`doubly_linked_list.dfy`, module `LinkedLists`).
  The list is a class with `head` and `tail` fields over `ListItem` objects. Each
  item has `value`, `next` and `prev` fields. A ghost sequence `items` records
  the chain from head to tail. `Valid()` states that the list is distinct, that
  the forward and backward links are consistent, and that `head` and `tail` are
  correct.
- **Test scenarios** (`rope_fixtures.dfy`, `linked_list_fixtures.dfy`). The
  crate's unit tests are restated as lemmas and methods over the model.

Integers are `nat`, and strings are sequences of characters.

## Model

| member | source | states |
|---|---|---|
| Fibonacci.GetFibonacciNumber | src/helpers/fibonacci_seq.rs:3-24 | The loop returns `Fib(num)`: 1 for every `num <= 2` (0 included), and otherwise the sum of the two previous terms (1, 1, 2, 3, 5, … from 1). The result is at least 1. |
| Fibonacci.FibMonotone | src/helpers/fibonacci_seq.rs:3-24 | The sequence never decreases. |
| Fibonacci.FibBelowPow2 | src/helpers/fibonacci_seq.rs:3-24 | `fib(k + 2) <= 2^(k-1) + 1` for `k >= 1`. The balance proof of the builder needs this bound. |
| RopeNodes.MapLeaf | src/rope/rope_node.rs:247-252 | A string comes back exactly when the node is a leaf, and it is that leaf's value. |
| RopeNodes.GetChar | src/rope/rope_node.rs:261-273 | When every weight equals the length of its left subtree's text, the lookup returns the `index`-th character of the text, or nothing past its end. A `None` node returns nothing. |
| RopeNodes.TextIsLeafText | src/rope/rope_node.rs:8-24 | A tree's text is the concatenation of its leaves' strings, in order. |
| RopeNodes.Depth | src/rope/rope_node.rs:208-218 | The depth of a tree is smaller than its number of nodes, counting leaves and `None`. |
| RopeNodes.Render | src/rope/rope_node.rs:28-39 | The rendering names the variant at its head: `None` exactly for `None`, a leading `Leaf(` exactly for a leaf, and a leading `Node(` exactly for a node. |
| RopeNodes.LeavesWithinDepth | src/rope/rope_node.rs:208-218 | A tree of depth `d` has at most `2^d` leaves. |
| RopeIterator.RopeIter.CollectParentRightNodes | src/rope/rope_iter.rs:9-35 | The loop pushes the parent's right child, then that child's left spine down to its first leaf. Nothing is pushed for a leaf parent or a `None` child. |
| RopeIterator.RopeIter.Next | src/rope/rope_iter.rs:41-57 | The new state and the result are `Step` of the old stack. The leaves still to come are the yielded leaf followed by what the new stack yields, or nothing once `None` is returned. |
| RopeIterator.Iter | src/rope/rope.rs:37-55 | The new iterator's stack is the root's left spine, bottom first. |
| RopeIterator.Collect | src/rope/rope.rs:163-168 | Running the iterator to its first `None` collects exactly `Drain` of the starting stack. |
| RopeIterator.YieldedIsPrefix | src/rope/rope_iter.rs:41-57 | The iterator yields only the tree's leaves, in order: what it yields is a prefix of them. |
| RopeIterator.YieldedSafe | src/rope/rope_iter.rs:9-57 | A tree with no `None` left child, and `None` right children only on its rightmost path, is walked completely. It yields all its leaves and shows all its text. |
| RopeIterator.EmptyLeftChildEndsIteration | src/rope/rope_iter.rs:41-57 | A node with a `None` left child yields nothing, although it has a leaf. |
| RopeIterator.EmptyRightChildEndsIteration | src/rope/rope_iter.rs:9-35 | A `None` right child below another node ends the walk: the leaf after it is never yielded. |
| RopeIterator.StepKeepsChain | src/rope/rope_iter.rs:41-57 | Every stack `next` produces stays a chain of strictly shallower nodes, so the stack never holds more than depth + 1 entries. |
| RopeIterator.DrainFixedYieldsAllLeaves | src/rope/rope_iter.rs:41-57 | The corrected walk yields every leaf of every tree, in order. |
| RopeBuilder.Build | src/rope/rope_node.rs:276-321 | The rounds loop builds `BuildSpec(items)`. The result holds exactly the input's leaves, with correct weights, and is walked completely: what it yields and shows is its leaves and its text. |
| RopeBuilder.CollectEntries | src/rope/rope_node.rs:276-321 | Each leaf becomes the entry `(leaf, its length, 0)`. Other nodes are dropped. |
| RopeBuilder.PairUp | src/rope/rope_node.rs:276-321 | One round pairs neighbours `2i` and `2i+1` under a node weighted by the left entry's length, and promotes an odd last entry unchanged. |
| RopeBuilder.BuildFacts | src/rope/rope_node.rs:276-321 | The built tree's leaves are the input's leaves in order. Its weights are correct, it has no `None` node when it is not empty, and the iterator walks all of it. |
| RopeBuilder.BuildBalanced | src/rope/rope_node.rs:276-321 | A tree built from at least one leaf meets the balance criterion: leaves >= `fib(depth + 2)`. |
| RopeOps.Len | src/rope/rope_node.rs:204-206 | `len` is the length of the text the iterator shows. |
| RopeOps.Concat | src/rope/rope_node.rs:56-72 | The new tree's leaves and text are those of `a` followed by those of `b`. |
| RopeOps.ConcatFacts | src/rope/rope_node.rs:56-72 | The weight is the length of what `a` shows. When `a` is walked completely and both inputs have correct weights, the result has correct weights. Two further conditions give the text: `a` has no `None` child at all, not even on its rightmost path, and `b` is walked completely. Then the result shows `a`'s text followed by `b`'s, and its length is the sum. |
| RopeOps.ConcatLeafFirst | src/rope/rope_node.rs:56-72 | A leaf placed first is yielded first, followed by whatever `b` yields. |
| RopeOps.Split | src/rope/rope_node.rs:98-152 | The loop returns `SplitSpec`: `(None, n)` at 0, `(n, None)` at or past the length, and otherwise the builder over the leaves before and after the cut. The leaf that holds the cut is divided in two. |
| RopeOps.SplitText | src/rope/rope_node.rs:98-152 | The left part shows the shown text up to the index and the right part the rest, with the index clamped to the length. An inner cut gives two complete trees with correct weights. |
| RopeOps.SplitLeavesShape | src/rope/rope_node.rs:98-152 | Over the leaves the iterator yields, `split` does one of two things. It may keep every leaf whole and in order across the two parts. Otherwise it cuts exactly one leaf into two non-empty pieces: the first ends the left part and the second starts the right part. Every other leaf is kept unchanged and in order. |
| RopeOps.SplitConcatRoundTrip | src/rope/rope_node.rs:98-152 | For an inner index, concatenating the two parts gives back the shown text. |
| RopeOps.SplitAtZeroConcatLosesText | src/rope/rope_node.rs:98-152 | At index 0 the left part is `None`, so concatenating the parts yields nothing. |
| RopeOps.SplitPastEndRoundTrip | src/rope/rope_node.rs:98-152 | At or past the length, the right part is `None`. Concatenating the parts yields the same leaves and shows the same text as the tree, for every tree. |
| RopeOps.WindowText | src/rope/rope_node.rs:154-202 | The intended scan keeps exactly the characters from `start`, `len` of them, clamped to the text. |
| RopeOps.ScanAgreesWithWindow | src/rope/rope_node.rs:154-202 | Whenever the scan as written does not underflow, it keeps the same leaves as the intended scan. |
| RopeOps.ScanUnderflowsOnShortWindow | src/rope/rope_node.rs:177-179 | A window that starts at a leaf and is one character shorter than the leaf makes the scan as written subtract below zero. The intended scan keeps that prefix. |
| RopeOps.ScanUnderflowsOnLastChar | src/rope/rope_node.rs:194 | A window that starts at a leaf's last character makes the scan as written subtract below zero. The intended scan keeps that character. |
| RopeOps.SubstringText | src/rope/rope_node.rs:154-202 | The intended substring shows the clamped slice of the shown text, is walked completely and has correct weights. |
| RopeOps.Substring | src/rope/rope_node.rs:154-202 | The loop returns the scan as written, with an underflow reported as `Err`. When it succeeds, the result is the intended substring. |
| RopeOps.InsertSplices | src/rope/rope_node.rs:220-234 | Inserting puts `value` into the shown text at the clamped index, and weights stay correct. Appending is covered only for a tree with no `None` child at all, not even on its rightmost path. |
| RopeOps.InsertAtEndDropsLeaf | src/rope/rope_node.rs:220-234 | Appending to the two-leaf root `Rope::new` builds keeps the new leaf in the tree, but the iterator never yields it. |
| RopeOps.Insert | src/rope/rope_node.rs:220-234 | The new leaf is always somewhere in the resulting tree, whatever the index. Whether the iterator shows it is stated by `InsertSplices` and `InsertAtEndDropsLeaf`. |
| RopeOps.IsBalanced | src/rope/rope_node.rs:240-245 | A balanced tree yields at least one leaf, because `fib` is never 0. An empty rope is therefore never balanced. |
| RopeOps.Rebalance | src/rope/rope_node.rs:236-238 | The result is the builder over the yielded leaves. It shows the same text, is walked completely, and is balanced when at least one leaf is yielded. |
| RopeOps.RebalanceFacts | src/rope/rope_node.rs:236-238 | Rebuilding keeps the shown text and gives correct weights. With at least one leaf, the result is balanced. |
| Ropes.NewRoot | src/rope/rope.rs:16-27 | A bare leaf is hung under a node with a `None` right child. Text, leaves and what is yielded are unchanged, and correct weights stay correct. |
| Ropes.Rebalanced | src/rope/rope.rs:155-161 | A balanced root is kept. Any other root is rebuilt into a complete tree with correct weights. The shown text is kept either way, and the result is balanced when at least one leaf is yielded. |
| Ropes.Rope.constructor | src/rope/rope.rs:16-27 | The root is `NewRoot(node)`. |
| Ropes.Rope.GetCharAt | src/rope/rope.rs:191-204 | With correct weights, the result is the character at `index` of the root's text, or nothing past its end. |
| Ropes.Rope.Iter | src/rope/rope.rs:33-35 | A fresh iterator over the root's left spine. |
| Ropes.Rope.Split | src/rope/rope.rs:57-105 | The two parts show the prefix and the suffix of the shown text at the clamped index. |
| Ropes.Rope.IsBalanced | src/rope/rope.rs:163-168 | True exactly when the iterator yields at least `fib(depth + 2)` leaves. |
| Ropes.Rope.Rebalance | src/rope/rope.rs:155-161 | The root becomes `Rebalanced` of the old root. The shown text is kept, and the root is balanced when anything was yielded. |
| Ropes.Rope.Substring | src/rope/rope.rs:107-153 | On success, the root becomes a complete tree that shows the clamped slice. An underflow is reported and leaves the root unchanged. |
| Ropes.Rope.Insert | src/rope/rope.rs:174-189 | The root becomes the rebalanced splice, and it is balanced when the splice yields anything. The shown text gains `value` at the clamped index under a condition: the index is 0, or it is inside the text, or the old root has no `None` child at all. On the root `Rope::new` builds, an index at or past the end loses the new leaf (see Findings). |
| RopeFixtures.FullyYielded | src/rope/rope.rs:271-306 | A tree with no `None` node is iterated completely. |
| RopeFixtures.TraverseFixture | src/rope/rope.rs:271-306 | The four leaves come out in order, whatever the weights. |
| RopeFixtures.GetCharFixture | src/rope/rope.rs:308-342 | The lookups of the scenario return `o`, `w`, `M`, `n`, `s` and `e`, and nothing at 32. |
| RopeFixtures.ConcatFixture | src/rope/rope.rs:344-376 | The concatenation of the two halves yields the four leaves in order. |
| RopeFixtures.SubstringFixture | src/rope/rope.rs:378-433 | The substring `(3, 40)` of the doubled rope gives the expected tree, both as written and as intended. |
| RopeFixtures.TwiceYields | src/rope/rope.rs:378-433 | The doubled rope yields its eight leaves. |
| RopeFixtures.ScanTwice | src/rope/rope.rs:378-433 | The scan of the scenario keeps `lo `, three whole leaves, `hello ` and `world`. |
| RopeFixtures.DepthFixture | src/rope/rope.rs:435-464 | The scenario's tree has depth 3. |
| RopeFixtures.DeepYields | src/rope/rope.rs:435-464 | The depth-3 tree yields its four leaves. |
| RopeFixtures.RebalanceFixture | src/rope/rope.rs:466-499 | The depth-3 tree is unbalanced and is rebuilt into the expected two-level tree. |
| RopeFixtures.SplitFixture | src/rope/rope.rs:501-546 | Splits at 0, 6, 9, 13 and 20 give the scenario's pairs. |
| RopeFixtures.InsertFrontFixture | src/rope/rope.rs:563-567 | Inserting at 0 gives the expected tree. |
| RopeFixtures.InsertBoundaryFixture | src/rope/rope.rs:572-575 | Inserting at 6 gives the expected tree. |
| RopeFixtures.InsertInsideFixture | src/rope/rope.rs:576-579 | Inserting at 9 gives the expected tree. |
| RopeFixtures.InsertAtEndFixture | src/rope/rope.rs:568-584 | As written, inserting at 13 or 20 (any index >= 13) gives back the original two leaves: the new leaf is lost. |
| RopeFixtures.InsertAtEndFixedFixture | src/rope/rope.rs:568-584 | With the corrected walk, the new leaf is yielded and the rebuilt tree is the one the scenario expects. |
| LegacyRopes.Values | src/rope.rs:107-127 | One string per leaf, in order. |
| LegacyRopes.ValuesText | src/rope.rs:107-127 | Joining the strings of a run of leaves gives their text. |
| LegacyRopes.StringsShowText | src/rope.rs:107-127 | The strings the iterator hands out, joined, are the shown text, and the whole text for a tree it walks completely. |
| LegacyRopes.StringIter.Next | src/rope.rs:107-127 | The same stack step as the current iterator, handing out the leaf's string. |
| LegacyRopes.CollectStrings | src/rope.rs:78-127 | Running the string iterator collects exactly the strings of `Drain`. |
| LegacyRopes.Rope.constructor | src/rope.rs:32-36 | The root is `None`, and every lookup returns nothing. |
| LegacyRopes.Rope.GetCharAt | src/rope.rs:62-74 | With correct weights, the character at `index` of the text, or nothing past its end. |
| LegacyRopes.Rope.Iter | src/rope.rs:42-60 | A fresh iterator over the root's left spine. |
| LegacyRopes.RenderUnquoted | src/rope.rs:129-137 | The rendering names the variant at its head: `None` exactly for `None`, a leading `Leaf(` exactly for a leaf, and a leading `Node(` exactly for a node. |
| LegacyRopes.RenderQuotes | src/rope.rs:129-137 | The current rendering of any tree is the earlier rendering of the same tree with each leaf's text wrapped in double quotes. A tree with no leaves renders the same in both. |
| LegacyRopes.TraverseStringsFixture | src/rope.rs:143-177 | The four strings come out in order. |
| LinkedLists.ListIter.Next | src/doubly_linked_list.rs:226-243 | Returns the current item and moves to its `next`. Returns nothing at the end. |
| LinkedLists.DoublyLinkedList.constructor | src/doubly_linked_list.rs:30-35 | The list is valid and empty. |
| LinkedLists.DoublyLinkedList.SyncTail | src/doubly_linked_list.rs:195-204 | `tail` becomes `head` when the head has no `next`, and nothing when there is no head. Otherwise it is unchanged. |
| LinkedLists.DoublyLinkedList.SyncHead | src/doubly_linked_list.rs:206-215 | `head` becomes `tail` when the tail has no `prev`, and nothing when there is no tail. Otherwise it is unchanged. |
| LinkedLists.DoublyLinkedList.PushHead | src/doubly_linked_list.rs:37-58 | A fresh item holding `value` comes first, the old items follow, and the list stays valid. |
| LinkedLists.DoublyLinkedList.Push | src/doubly_linked_list.rs:60-83 | A fresh item holding `value` comes last, and the list stays valid. |
| LinkedLists.DoublyLinkedList.PopHead | src/doubly_linked_list.rs:85-106 | The first value is returned and that item is removed. An empty list returns nothing. The list stays valid. |
| LinkedLists.DoublyLinkedList.Pop | src/doubly_linked_list.rs:108-129 | The last value is returned and that item is removed. An empty list returns nothing. The list stays valid. |
| LinkedLists.DoublyLinkedList.Iter | src/doubly_linked_list.rs:131-133 | A fresh iterator starting at the head. |
| LinkedLists.DoublyLinkedList.IterValues | src/doubly_linked_list.rs:131-133 | Iterating to the end hands out the values from head to tail. |
| LinkedLists.DoublyLinkedList.Foreach | src/doubly_linked_list.rs:135-142 | Every item's value becomes `f` of its old value, and the chain is unchanged. |
| LinkedLists.DoublyLinkedList.InsertAfter | src/doubly_linked_list.rs:144-158 | A fresh item holding `value` sits right after the `k`-th item, and becomes the tail if that item was. The list stays valid. |
| LinkedLists.DoublyLinkedList.InsertBefore | src/doubly_linked_list.rs:160-174 | A fresh item holding `value` sits right before the `k`-th item, and becomes the head if that item was. The list stays valid. |
| LinkedLists.DoublyLinkedList.Remove | src/doubly_linked_list.rs:176-204 | The `k`-th item leaves the chain, and the forward links stay correct. The backward links stay correct exactly unless the head of two or more items, or the tail of three or more, was removed. In those cases the new head keeps a `prev`, or `tail` stays on the removed item. |
| LinkedLists.DoublyLinkedList.RemoveRepaired | src/doubly_linked_list.rs:176-204 | With the new head's `prev` cleared and `tail` moved back, removal keeps the list valid in every case. |
| LinkedListFixtures.Pushed | src/doubly_linked_list.rs:273-291 | Pushing values one by one builds a valid list holding them in order. |
| LinkedListFixtures.PushPopHeadFixture | src/doubly_linked_list.rs:249-259 | Gives 25, 5, then nothing and nothing. |
| LinkedListFixtures.PushPopFixture | src/doubly_linked_list.rs:261-271 | Gives 25, 5, then nothing and nothing. |
| LinkedListFixtures.IterFixture | src/doubly_linked_list.rs:273-291 | The six values come out in push order. |
| LinkedListFixtures.ForeachFixture | src/doubly_linked_list.rs:293-306 | After multiplying by five, gives 25, 125, 250, then nothing. |
| LinkedListFixtures.InsertAfterFixture | src/doubly_linked_list.rs:308-327 | Gives 5, 25, 40, 50. |
| LinkedListFixtures.InsertAfterOneItemFixture | src/doubly_linked_list.rs:329-342 | Gives 5, 40, and the tail holds 40. |
| LinkedListFixtures.InsertBeforeFixture | src/doubly_linked_list.rs:344-363 | Gives 5, 40, 25, 50. |
| LinkedListFixtures.InsertBeforeOneItemFixture | src/doubly_linked_list.rs:365-378 | Gives 40, 5, and the head holds 40. |
| LinkedListFixtures.RemoveOneItemFixture | src/doubly_linked_list.rs:380-392 | Nothing to iterate, no head and no tail. |
| LinkedListFixtures.RemoveTwoItemsFirstFixture | src/doubly_linked_list.rs:394-405 | Head and tail hold 25, but the new head still points back at the removed item. |
| LinkedListFixtures.RemoveRepairedTwoItemsFirstFixture | src/doubly_linked_list.rs:394-405 | The repaired removal also clears the new head's `prev`. |
| LinkedListFixtures.RemoveTwoItemsSecondFixture | src/doubly_linked_list.rs:407-418 | Head and tail hold 5. |
| LinkedListFixtures.RemoveThreeItemsSecondFixture | src/doubly_linked_list.rs:420-432 | Head holds 5 and tail holds 50. |
| LinkedListFixtures.RemoveThreeItemsLastFixture | src/doubly_linked_list.rs:176-204 | After removing the last of three items, `tail` still holds 50. |
| LinkedListFixtures.RemoveRepairedThreeItemsLastFixture | src/doubly_linked_list.rs:176-204 | The repaired removal moves `tail` to 25, and iteration gives 5, 25. |

The lookup, the iterator and the builder exist several times in the crate:
`get_char_rec` appears in `src/rope/rope_node.rs`, `src/rope/rope.rs` and
`src/rope.rs`, and the iterator appears in `src/rope/rope_iter.rs` and
`src/rope.rs`. Each is modelled once, and every owner calls that one model.

## Left out

- Shared ownership (`Rc`, `RefCell`, `Rc::clone`) is not modelled. Rope trees are immutable values, so sharing a subtree is not observable.
- List items are objects, and the list's own items are distinct. The reference cycle between `next` and `prev`, which `Rc` never frees, is not modelled.
- Strings are sequences of characters. The source mixes two units. It measures leaf lengths in UTF-8 bytes (`String::len`). `split` slices leaves by byte offset (`src/rope/rope_node.rs:120`, `:125`). `get_char` (`:270`) and `substring` (`:183`) count characters. These units agree only on ASCII text, and the model assumes ASCII.
- Integers are unbounded. `usize` overflow is not modelled, except for the subtractions in `substring`, which the model reports as `Err`.
- The builder computes the number of rounds with `f32` and `ceil`. The model computes the round size as `(n + 1) / 2` in integers, which is the same for any count an `f32` represents exactly.
- The builder's match arms for entries that are neither leaves nor pairs cannot be reached from the leaf filter, and they are not modelled. `is_not_none` is modelled only as the leaf filter it is used for.
- `Display` is `RopeNodes.Render`. The scenarios state the expected trees as values, not as rendered strings.
- The `unwrap` and `expect` calls on `map_leaf` in `len`, `concat`, `split` and `substring` cannot fail, because `Step`'s contract proves that the iterator yields only leaves. The builder's `pop().unwrap()` runs only on a one-entry list. No panic path is therefore modelled for them.
- `foreach` takes a `FnMut`. The model takes a pure function `T -> T` and applies it to each value in place.
- LinkedLists.DoublyLinkedList.InsertAfter, and likewise InsertBefore, Remove and RemoveRepaired: the node argument must be an item of this list, at position `k`. The source does not check this, and passing a foreign node is not modelled.
- LinkedLists.DoublyLinkedList.PushHead, and likewise Push, PopHead, Pop, InsertAfter and InsertBefore: the contract states the new chain of items. The values of the untouched items are kept because the frames let these methods change only the items' links, not their values. There is no equation on `Values()`.
- Ropes.Rope.Insert: the splice into the shown text is promised only when the index is 0, or inside the text, or the old root has no `None` child at all. Otherwise the iterator as written does not reach the appended leaf.
- `src/rope/rope.rs` imports a `RopeConcat` trait (`:7`) and calls `concat`, `get_depth`, `map_leaf` and `is_not_none` on `Rc<RopeNode>` (`:71`, `:121`, `:164`, `:171`, `:178-183`, `:253`). `src/rope/rope_node.rs` defines no such trait, and its `impl RopeNode` (`:26`) is empty. These functions exist there only on `RopeNodeWrapper` (`:56-72`, `:208-218`, `:247-259`), and the model takes `Rope`'s calls to be those. Every `RopeFixtures` scenario built on `Rope` rests on this reading, and so does the first Findings row. This includes `ConcatFixture`, `DepthFixture`, `RebalanceFixture`, `SplitFixture` and the `Insert*Fixture` lemmas.
- Ropes.Rope.Substring: a subtraction below zero, which panics in a debug build and wraps in a release build, is reported as `Some(message)` and leaves the root unchanged.
- RopeOps.InsertSplices: the splice is stated over the text the iterator shows. Appending is covered only when the tree has no `None` child at all, because the iterator as written stops at a `None` child below the new top node.
- LinkedLists.DoublyLinkedList.Remove: in the two cases it breaks (see Findings), the list no longer satisfies `Valid()`. The model does not cover operations on such a list, since every list method requires `Valid()`. An example is `pop` after removing the last of `[5, 25, 50]`: `tail` still holds 50, so 50 is returned a second time.

## Findings

| source | as written | input that shows it | evidently intended | confidence | as-written member | corrected member |
|---|---|---|---|---|---|---|
| src/rope/rope_iter.rs:41-57 | `next` stops as soon as a node, not a leaf, surfaces on the stack. A node surfaces after a `None` right child, and after a node whose left child is `None`. | The `insert` scenario at index 13 or 20 starts from the root `Rope::new` builds (a node whose right child is `None`). The appended leaf is never yielded, so `rebalance` rebuilds the tree without it. This outcome takes `Rope`'s `concat` to be `RopeNodeWrapper::concat` (see Left out). | Skip a surfacing `None`, and push the right spine of a surfacing node, so that every leaf is yielded in order. | not executed | RopeFixtures.InsertAtEndFixture | RopeFixtures.InsertAtEndFixedFixture |
| src/rope/rope_node.rs:177-179 | The arm guard `len_left >= len - 1` admits `len_left == len - 1`. The arm then subtracts `len` from `len_left`. | A window of length 2 starting at the leaf `"abc"` (`substring(0, 2)`). | Take the whole leaf only when `len_left >= len`, and otherwise take the prefix. | not executed | RopeOps.ScanUnderflowsOnShortWindow | RopeOps.WindowText |
| src/rope/rope_node.rs:194 | The fallback arm subtracts `len` from `start_idx` whenever `start_idx` is at or past the last index, including `start_idx == len - 1`. | A window starting at the last character of the leaf `"abc"` (`substring(2, 1)`). | Take the characters from `start_idx` whenever `start_idx < len`, and skip the leaf only when `start_idx >= len`. | not executed | RopeOps.ScanUnderflowsOnLastChar | RopeOps.WindowText |
| src/doubly_linked_list.rs:176-204 | `remove` of the head leaves the new head's `prev` on the removed item. `remove` of the tail of three or more items leaves `tail` on the removed item, because `sync_tail` repairs only a one-item list. | Removing the first of `[5, 25]` leaves the new head's `prev` on 5. Removing the last of `[5, 25, 50]` leaves `tail` holding 50. | Clear the new head's `prev`, and move `tail` to the removed item's `prev`. | not executed | LinkedListFixtures.RemoveThreeItemsLastFixture | LinkedLists.DoublyLinkedList.RemoveRepaired |
