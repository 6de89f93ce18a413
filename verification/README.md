# Ordered containers of CLM_LIBS: `stree` and `wtree`

This project models the two ordered containers of the `CLM_LIBS.h` header
library and proves their contracts in Dafny:

- `stree`, a binary search tree that is restructured by **top-down simple
  splaying**. Every operation brings the element it is about to the root:
  `stree_root`, `stree_min`, `stree_max`, `stree_pop`, `stree_next`,
  `stree_prev`, `stree_find` and `stree_insert`.
- `wtree`, a **weight-balanced** order-statistics tree. Every node stores
  the size of its subtree. Sibling weights (size plus one) stay within the
  ratio DELTA = 5/2. A single or double rotation, chosen with the ratio
  GAMMA = 3/2, restores that ratio after each change. The operations are
  `wtree_size`, `wtree_find` (key to rank), `wtree_insert`, `wtree_select`
  (rank to key) and `wtree_remove` (by rank).

Keys are mathematical integers ordered by `<`. A tree is an immutable
datatype. Each C routine that updates `*tree` in place becomes a function
that returns the new tree together with the routine's return value. The
library's validity functions `stree_verify` and `wtree_verify`, from the
test program, are modelled as `SplayProperties.Verify` and
`WeightProperties.Verify`. Each is proved to accept exactly the trees that
satisfy the representation invariant.

Files:

- `ordered.dfy` (module `Ordered`): strictly increasing sequences of keys,
  optional bounds, counting the keys below a key, and the sequence algebra
  that the tree proofs share.
- `splay_tree.dfy` (module `SplayTree`): the `stree` data model and the
  operations. The top-down splay keeps its left and right accumulators as
  `Spine` lists. The C loops become tail-recursive functions, and the final
  "assemble" step fills the holes of the accumulators.
- `splay_properties.dfy` (module `SplayProperties`): `stree_verify`,
  in-order iteration with `stree_next`/`stree_prev`, draining with
  `stree_pop`, and the assertion sequences of the `stree` test.
- `weight_balance.dfy` (module `WeightBalance`): the `wtree` data model,
  the sizes, the DELTA/GAMMA balance conditions, and the rebalancing step
  with its four rotations.
- `weight_tree.dfy` (module `WeightTree`): `wtree_find`, `wtree_select`,
  `wtree_insert` and `wtree_remove`, with the proofs that they keep the
  invariant and do what they promise on ranks.
- `weight_properties.dfy` (module `WeightProperties`): `wtree_verify`,
  insert/remove round trips, draining with `wtree_remove(&T, 1)`, and the
  `wtree` test step.

Two behaviours of the code worth knowing, both modelled as written:

- `stree_pop` on a root that has only one child splays the extreme key of
  that child's subtree to the top: the maximum of the left subtree when the
  right child is missing, the minimum of the right subtree otherwise
  (CLM_LIBS.h:2608-2660). `SplayTree.Pop` does the same.
- `wtree_insert` of a key that is already present still reports a non-zero
  rank, so every ancestor recomputes its size and reruns the balance test
  (CLM_LIBS.h:3231-3312). `WeightTree.InsertPresentKeepsTree` proves that
  the resulting tree is unchanged.

## Model

| member | source | states |
|---|---|---|
| SplayTree.Root | CLM_LIBS.h:2450-2456 | the root's key is the in-order element right after the whole left subtree |
| SplayTree.SplayMin | CLM_LIBS.h:2470-2501 | top-down splay-min leaves the same keys in order with no left child at the root |
| SplayTree.SplayMax | CLM_LIBS.h:2515-2546 | top-down splay-max leaves the same keys in order with no right child at the root |
| SplayTree.SplayMinLoop | CLM_LIBS.h:2480-2498 | the rotate-right/link-right loop and its assemble step leave the current keys followed by the right accumulator's keys, with no left child at the root |
| SplayTree.SplayMaxLoop | CLM_LIBS.h:2525-2543 | the rotate-left/link-left loop and its assemble step leave the left accumulator's keys followed by the current keys, with no right child at the root |
| SplayTree.Min | CLM_LIBS.h:2470-2501 | `stree_min` keeps the keys, moves the first in-order key to a root without left child, and returns it; in a valid tree it is the smallest key |
| SplayTree.Max | CLM_LIBS.h:2515-2546 | `stree_max` keeps the keys, moves the last in-order key to a root without right child, and returns it; in a valid tree it is the largest key |
| SplayTree.Pop | CLM_LIBS.h:2589-2666 | `stree_pop` returns the root's key and leaves the left keys followed by the right keys; a root without left (right) child leaves the new minimum (maximum) at the root; validity is kept and the popped key is gone |
| SplayTree.Next | CLM_LIBS.h:2685-2722 | `stree_next` succeeds exactly when the root has a right subtree; on failure the tree is untouched; the keys never change; on success the old root and its left keys form the new left subtree |
| SplayTree.Prev | CLM_LIBS.h:2741-2778 | `stree_prev` succeeds exactly when the root has a left subtree; on failure the tree is untouched; on success the old root and its right keys form the new right subtree |
| SplayTree.RotateRight | CLM_LIBS.h:2815-2821 | the "rotate right" step keeps the in-order keys and lifts the left child |
| SplayTree.RotateLeft | CLM_LIBS.h:2834-2840 | the "rotate left" step keeps the in-order keys and lifts the right child |
| SplayTree.LinkRightKeeps | CLM_LIBS.h:2823-2826 | "link right" moves the root onto the right accumulator without changing the keys in play |
| SplayTree.LinkLeftKeeps | CLM_LIBS.h:2842-2845 | "link left" moves the root onto the left accumulator without changing the keys in play |
| SplayTree.FillLeft | CLM_LIBS.h:2853-2855 | filling the hole of the left accumulator yields its keys followed by the hole's keys |
| SplayTree.FillRight | CLM_LIBS.h:2854-2856 | filling the hole of the right accumulator yields the hole's keys followed by its keys |
| SplayTree.Assemble | CLM_LIBS.h:2852-2857 | the final assemble step keeps the keys and puts the accumulators under the stopped root on their own sides |
| SplayTree.SplayLoop | CLM_LIBS.h:2808-2850 | the search loop keeps the keys, keeps the left accumulator below and the right accumulator above the key, and stops on the key or on a root with no child on the key's side |
| SplayTree.Find | CLM_LIBS.h:2796-2859 | `stree_find` keeps the keys, answers true exactly when the key is present and then puts it at the root; an empty tree is untouched; a miss leaves a root whose key-side subtree lies entirely on the key's side |
| SplayTree.Insert | CLM_LIBS.h:2879-2973 | `stree_insert` keeps the tree valid and fails only when the key is new and allocation fails; a present key ends at the root with unchanged keys; a new key becomes the root with all old keys, in order, split around it |
| SplayTree.SplitBeforeRoot | CLM_LIBS.h:2959-2962 | a new key below the splayed root becomes the root, the old root hangs on its right without left child, and the order is kept |
| SplayTree.SplitAfterRoot | CLM_LIBS.h:2963-2967 | a new key above the splayed root becomes the root, the old root hangs on its left without right child, and the order is kept |
| SplayProperties.VerifyBounded | test.c:114-131 | `stree_verify` with bounds holds exactly when the keys increase and lie strictly between the bounds |
| SplayProperties.VerifyIsValid | test.c:114-131 | `stree_verify(T, NULL, NULL)` accepts exactly the valid trees |
| SplayProperties.Verify | test.c:114-131 | `stree_verify` as written: every key strictly between the bounds inherited from its ancestors; its meaning is stated by `SplayProperties.VerifyBounded` |
| SplayProperties.FailedFindLandsOnNeighbour | CLM_LIBS.h:2852-2859 | a failed `stree_find` leaves the key's in-order neighbour at the root: its successor with exactly the smaller keys on its left, or its predecessor with exactly the bigger keys on its right |
| SplayProperties.RootChildrenMatchNeighbours | CLM_LIBS.h:2689-2693 | in a valid tree, a bigger (smaller) key exists exactly when the root has a right (left) subtree |
| SplayProperties.NextFailsExactlyAtMax | CLM_LIBS.h:2689-2693 | `stree_next` fails exactly when no key is bigger than the root's |
| SplayProperties.NextReachesSuccessor | CLM_LIBS.h:2695-2721 | a successful `stree_next` puts the root's in-order successor at the root |
| SplayProperties.PrevFailsExactlyAtMin | CLM_LIBS.h:2745-2749 | `stree_prev` fails exactly when no key is smaller than the root's |
| SplayProperties.PrevReachesPredecessor | CLM_LIBS.h:2751-2777 | a successful `stree_prev` puts the root's in-order predecessor at the root |
| SplayProperties.ForwardWalkVisitsSuffix | CLM_LIBS.h:2685-2722 | calling `stree_next` until it fails reports the root and every later key, in order |
| SplayProperties.BackwardWalkVisitsPrefix | CLM_LIBS.h:2741-2778 | calling `stree_prev` until it fails reports the root and every earlier key, in reverse order |
| SplayProperties.ForwardWalk | test.c:2011-2014 | the loop `while (stree_next(&T))` leaves a tree with the same keys and the largest at the root |
| SplayProperties.BackwardWalk | test.c:2005-2008 | the loop `while (stree_prev(&T))` leaves a tree with the same keys and the smallest at the root |
| SplayProperties.MinThenNextVisitsAll | test.c:2009-2014 | `stree_min` followed by `stree_next` until failure visits every key in increasing order |
| SplayProperties.MaxThenPrevVisitsAll | test.c:2003-2008 | `stree_max` followed by `stree_prev` until failure visits every key in decreasing order |
| SplayProperties.PopAllReturnsEverything | test.c:1997-1998 | popping until the tree is empty returns every key exactly once |
| SplayProperties.PopAllFromMin | CLM_LIBS.h:2634-2660 | with the minimum at the root, repeated `stree_pop` returns the keys in increasing order |
| SplayProperties.PopAllFromMax | CLM_LIBS.h:2608-2633 | with the maximum at the root, repeated `stree_pop` returns the keys in decreasing order |
| SplayProperties.FindThenPop | test.c:1979-1983 | after a successful find of `j`, the root is `j`, popping returns `j`, the tree stays valid and `j` is no longer found |
| SplayProperties.InsertThenFind | test.c:1985-1988 | a successful insert of an absent key leaves a valid tree in which the key is found |
| SplayProperties.InsertThenPopRestores | CLM_LIBS.h:2955-2971 | popping right after inserting an absent key returns it and restores the old keys in order |
| SplayProperties.InsertAscending | test.c:2001-2002 | inserting increasing keys above the current maximum appends them to the in-order sequence |
| SplayProperties.InsertLargest | CLM_LIBS.h:2963-2967 | inserting a key above every key appends it to the in-order sequence |
| SplayProperties.AscendingInsertionWalks | test.c:2001-2014 | after inserting `1..n`, `stree_max` returns `n` and `stree_prev` until failure reports `n..1`; on the tree that loop leaves, `stree_min` returns `1` and `stree_next` until failure reports `1..n`; the tree stays valid throughout |
| SplayProperties.FindNextScenario | CLM_LIBS.h:2796-2859 | on the keys 2, 4, 6: finding 4 puts it at the root, one `stree_next` reaches 6, and a second one fails |
| WeightBalance.SizeCountsKeys | CLM_LIBS.h:3107-3110 | `wtree_size` of a tree with correct size fields is the number of keys |
| WeightBalance.Size | CLM_LIBS.h:3107-3110 | `wtree_size`: the stored size of the root, 0 for the empty tree; `WeightBalance.SizeCountsKeys` states that it counts the keys |
| WeightBalance.SearchTreeIsIncreasing | test.c:176-198 | the node-by-node ordering that `wtree_verify` checks is the same as increasing in-order keys |
| WeightBalance.Make | CLM_LIBS.h:3233-3236 | a node rebuilt with a recomputed size holds the children's keys around its own, and is sized and balanced exactly when its parts are |
| WeightBalance.SingleRight | CLM_LIBS.h:3249-3257 | the single right rotation keeps the keys in order and the sizes correct |
| WeightBalance.DoubleRight | CLM_LIBS.h:3260-3274 | the double right rotation keeps the keys in order and the sizes correct |
| WeightBalance.SingleLeft | CLM_LIBS.h:3285-3293 | the single left rotation keeps the keys in order and the sizes correct |
| WeightBalance.DoubleLeft | CLM_LIBS.h:3296-3310 | the double left rotation keeps the keys in order and the sizes correct |
| WeightBalance.Rebalance | CLM_LIBS.h:3241-3311 | the rebalancing step keeps the keys in order and the sizes correct |
| WeightBalance.RebalanceRestoresBalance | CLM_LIBS.h:3241-3311 | after one key was added to or removed from a side of a balanced node, the rebalancing step makes every node balanced again (DELTA 5/2, GAMMA 3/2) |
| WeightBalance.RebalanceKeepsBalancedNode | CLM_LIBS.h:3241-3311 | a node already within DELTA is rebuilt unchanged |
| WeightBalance.SingleRotationBalanced | CLM_LIBS.h:3249-3257 | when the inner grandchild is light by GAMMA, both nodes a single rotation rebuilds are within DELTA |
| WeightBalance.DoubleRotationBalanced | CLM_LIBS.h:3260-3274 | when the inner grandchild is heavy by GAMMA, all three nodes a double rotation rebuilds are within DELTA |
| WeightBalance.LeftHeavySingle | CLM_LIBS.h:3242-3257 | left side too heavy and its inner subtree light: the single right rotation yields balanced nodes |
| WeightBalance.LeftHeavyDouble | CLM_LIBS.h:3242-3274 | left side too heavy and its inner subtree heavy: the inner subtree is not empty and the double right rotation yields balanced nodes |
| WeightBalance.RightHeavySingle | CLM_LIBS.h:3278-3293 | right side too heavy and its inner subtree light: the single left rotation yields balanced nodes |
| WeightBalance.RightHeavyDouble | CLM_LIBS.h:3278-3310 | right side too heavy and its inner subtree heavy: the inner subtree is not empty and the double left rotation yields balanced nodes |
| WeightTree.Find | CLM_LIBS.h:3131-3149 | `wtree_find` returns 0 exactly when the key is absent, and otherwise the 1-based position of the key, which is one more than the number of smaller keys |
| WeightTree.Select | CLM_LIBS.h:3342-3369 | `wtree_select` returns the key at the requested 1-based position, through the minimum, maximum and general paths alike |
| WeightTree.Insert | CLM_LIBS.h:3181-3316 | `wtree_insert` keeps the sizes correct, grows the tree by at most one key, and leaves it untouched when it reports 0 |
| WeightTree.InsertPlacesKey | CLM_LIBS.h:3181-3316 | rank 0 exactly when allocation fails on a new key; a present key keeps the contents and is reported at its own position; a new key is spliced in at the reported position, after exactly the smaller keys |
| WeightTree.InsertKeepsOrder | CLM_LIBS.h:3213-3228 | `wtree_insert` keeps the keys strictly increasing |
| WeightTree.InsertRankCountsBelow | CLM_LIBS.h:3238-3239 | a non-zero reported rank is one more than the number of keys below the inserted key |
| WeightTree.InsertKeepsBalance | CLM_LIBS.h:3230-3312 | `wtree_insert` keeps every node within the DELTA ratio |
| WeightTree.InsertKeepsValid | CLM_LIBS.h:3181-3316 | `wtree_insert` keeps the representation invariant |
| WeightTree.InsertPresentKeepsTree | CLM_LIBS.h:3224-3228 | overwriting a present key gives back the very same tree, sizes and shape included |
| WeightTree.ReplaceMin | CLM_LIBS.h:3424-3429 | the data exchange with the right subtree's minimum returns that minimum, puts the old key first in order, and changes no size |
| WeightTree.Remove | CLM_LIBS.h:3391-3521 | `wtree_remove` keeps the sizes correct and shrinks the tree by one |
| WeightTree.RemoveTakesRank | CLM_LIBS.h:3391-3440 | `wtree_remove` returns the key at the requested position and leaves every other key, in order |
| WeightTree.RemoveKeepsBalance | CLM_LIBS.h:3442-3519 | `wtree_remove` keeps every node within the DELTA ratio |
| WeightTree.RemoveKeepsValid | CLM_LIBS.h:3391-3521 | `wtree_remove` keeps the representation invariant |
| WeightProperties.VerifyBounded | test.c:176-198 | `wtree_verify` with bounds holds exactly when the sizes are correct, every node is balanced, and the keys are in search order strictly between the bounds |
| WeightProperties.VerifyIsValid | test.c:176-198 | `wtree_verify(T, NULL, NULL)` accepts exactly the valid trees |
| WeightProperties.Verify | test.c:176-198 | `wtree_verify` as written: bounded key order, size field and DELTA balance at every node; its meaning is stated by `WeightProperties.VerifyBounded` |
| WeightProperties.RemovedKeyIsGone | test.c:2034-2036 | the key `wtree_remove` returns is no longer in the tree |
| WeightProperties.TestStep | test.c:2029-2045 | one step of the randomized test: a present key is selected and removed at its rank, both return it and it is then not found; an absent key is inserted and found again at the reported rank, which is 0 exactly when allocation fails and then leaves the tree as it was; validity and the tracked size agree with `wtree_size` throughout |
| WeightProperties.InsertGrowsExactlyWhenNew | CLM_LIBS.h:3198-3236 | the size grows by one exactly when the key is new and allocation succeeds, and stays the same otherwise |
| WeightProperties.InsertThenRemoveRestores | CLM_LIBS.h:3172-3179 | inserting an absent key and removing at the reported rank returns that key and restores the contents |
| WeightProperties.InsertedRankInRange | CLM_LIBS.h:3238-3239 | a new key is reported at a rank inside the grown tree |
| WeightProperties.PlacedThenTaken | CLM_LIBS.h:3172-3179 | removing a key at the position where it was spliced in gives back the former contents |
| WeightProperties.DrainFrontYieldsElements | test.c:2053-2054 | `while (T) wtree_remove(&T, 1)` removes every key in increasing order |
| WeightProperties.InsertNew | CLM_LIBS.h:3181-3316 | inserting an absent key with successful allocation keeps the tree valid, reports one more than the count of smaller keys, and splices the key in there |
| WeightProperties.InsertScenario | CLM_LIBS.h:3181-3316 | inserting 5, 3, 8, 1, 4 into an empty tree reports ranks 1, 1, 3, 1, 3 and leaves 1, 3, 4, 5, 8 in a valid tree of size 5 |

## Left out

- Memory management: `malloc` failure is the `alloc` parameter of the two
  insert functions. `free` and the error message printed on failed
  allocation have no counterpart.
- Keys and comparison: the library is generic over the element type and a
  `less` macro. The model uses `int` with `<`, so overwriting an equal key
  changes nothing observable.
- `size_t` arithmetic: sizes, weights and ranks are unbounded naturals.
  The balance tests multiply a weight by DELTA_NUM = 5 or GAMMA_NUM = 3
  (CLM_LIBS.h:3242, 3278, 3448, 3484), so in C they wrap once a weight
  exceeds SIZE_MAX/5, whether `size_t` is 32 or 64 bits wide. A tree that
  large holds more nodes than the addressable memory can store, so the
  model does not represent the wrap.
- WeightTree.Insert / WeightTree.Remove: sizes are recomputed by
  `WeightBalance.Make` when nodes are rebuilt, rather than patched field by
  field as in the C rotations. On trees with correct size fields both give
  the same values.
- WeightBalance.Rebalance: the rebalancing code appears twice in the
  source, inline in `wtree_insert` and in `wtree_remove`. Both copies are
  identical and are modelled once.
- SplayTree.Find, SplayTree.Insert: these require a valid tree, the
  container's invariant that every operation maintains. Without it the C
  search still terminates, but nothing is promised about the result.
- `stree` has no size operation in the library, and none is modelled.
- `stree_print`, `wtree_print`, `stree_height` and the other printing and
  measuring helpers of the test program are I/O and are left out.
- WeightProperties.InsertScenario starts from any valid empty tree given
  as a parameter rather than the literal `NULL`. Every empty tree holds the
  same keys, so this is the same scenario.
- The C `stree_find`/`stree_insert` loops compare with `less` twice per
  step. The model compares integers with `<` and `==`, which gives the same
  three-way outcome.
- The other utilities of `CLM_LIBS.h` (`array_bisect`, the `iter_next_*`
  successors, `fractal_van_der_corput`, the Z-order conversions, and the
  clock, random, print, cipher, sorting and list modules) are independent
  of the two containers and are not part of this model.
