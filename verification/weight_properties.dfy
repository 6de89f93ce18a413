/** Properties of the `wtree` container that relate several operations: the
    test program's validity function, the randomized test step, insertion undone by
    removal at the reported rank, and emptying the tree from the front. */
module WeightProperties {
  import opened Ordered
  import opened WeightBalance
  import opened WeightTree

  /** The test program's `wtree_verify(T, less, more)`: every key lies
      strictly between the optional bounds, every stored size is the sum of
      the children's sizes plus one, and no side outweighs the other by more
      than DELTA. */
  predicate Verify(t: Tree, less: Option<int>, more: Option<int>) {
    match t
    case Nil => true
    case Node(l, x, s, r) =>
      && (less.Some? ==> less.value < x)
      && (more.Some? ==> x < more.value)
      && s == Size(l) + Size(r) + 1
      && (1 + Size(l)) * DELTA_DEN <= (1 + Size(r)) * DELTA_NUM
      && (1 + Size(l)) * DELTA_NUM >= (1 + Size(r)) * DELTA_DEN
      && Verify(l, less, Some(x))
      && Verify(r, Some(x), more)
  }

  /** The keys of `t` lie strictly inside the optional bounds. */
  ghost predicate Within(t: Tree, less: Option<int>, more: Option<int>) {
    Bounded(Elements(t), less, more)
  }

  lemma {:induction false} VerifyBounded(t: Tree, less: Option<int>, more: Option<int>)
    ensures Verify(t, less, more) <==> Sized(t) && WeightBalanced(t) && SearchTree(t) && Within(t, less, more)
  {
    match t
    case Nil =>
    case Node(l, x, s, r) =>
      VerifyBounded(l, less, Some(x));
      VerifyBounded(r, Some(x), more);
      BoundedAtSeparator(Elements(l), x, Elements(r), less, more);
  }

  /** `wtree_verify(T, NULL, NULL)` accepts exactly the trees that satisfy
      the representation invariant. */
  lemma VerifyIsValid(t: Tree)
    ensures Verify(t, None, None) <==> Valid(t)
  {
    VerifyBounded(t, None, None);
    SearchTreeIsIncreasing(t);
  }

  /** In an increasing sequence a key sits at one position only. */
  lemma PositionIsUnique(s: seq<int>, i: int, j: int)
    requires Increasing(s) && 0 <= i < |s| && 0 <= j < |s| && s[i] == s[j]
    ensures i == j
  {
  }

  /** The key `wtree_remove` returns is gone from the tree it leaves. */
  lemma RemovedKeyIsGone(t: Tree, rank: nat)
    requires Valid(t) && 1 <= rank <= Size(t)
    ensures Remove(t, rank).data !in Elements(Remove(t, rank).tree)
  {
    RemoveTakesRank(t, rank);
    var s, k := Elements(t), rank - 1;
    assert s == s[..k] + [s[k]] + s[k + 1..];
    DropSeparator(s[..k], s[k], s[k + 1..]);
  }

  /** One iteration of the randomized loop of the test program: look `j` up;
      if present, select it by its rank and remove it; otherwise insert it
      and look it up again. The test's checks hold after every step: the
      selected and removed keys are `j`, a removed key is no longer found,
      an inserted key is found at the rank insertion reported, the tree
      passes `wtree_verify`, and the tracked size follows `wtree_size`. */
  method TestStep(t: Tree, size: nat, j: int, alloc: bool)
      returns (u: Tree, size': nat, rank: nat, again: nat, selected: int, removed: int)
    requires Valid(t) && size == Size(t)
    ensures Valid(u) && size' == Size(u)
    ensures j in Elements(t) ==>
              && rank > 0 && selected == j && removed == j && again == 0
              && j !in Elements(u) && size' == size - 1
    ensures j !in Elements(t) ==> again == rank
    ensures j !in Elements(t) && alloc ==> rank > 0 && j in Elements(u) && size' == size + 1
    ensures j !in Elements(t) && !alloc ==> rank == 0 && u == t && size' == size
  {
    SizeCountsKeys(t);
    rank := Find(t, j);
    if rank > 0 {
      selected := Select(t, rank);
      RemoveTakesRank(t, rank);
      RemoveKeepsValid(t, rank);
      RemovedKeyIsGone(t, rank);
      var r := Remove(t, rank);
      removed := r.data;
      u := r.tree;
      again := Find(u, j);
      size' := size - 1;
    } else {
      selected, removed := 0, 0;
      InsertKeepsOrder(t, j, alloc);
      InsertKeepsValid(t, j, alloc);
      var ins := Insert(t, j, alloc);
      u, rank := ins.tree, ins.rank;
      SizeCountsKeys(u);
      again := Find(u, j);
      if rank > 0 {
        PositionIsUnique(Elements(u), again - 1, rank - 1);
        size' := size + 1;
      } else {
        size' := size;
      }
    }
  }

  /** `wtree_insert` grows the tree exactly when the key is new and the
      allocation succeeds; otherwise the size stays the same. */
  lemma InsertGrowsExactlyWhenNew(t: Tree, key: int, alloc: bool)
    requires Valid(t)
    ensures Size(Insert(t, key, alloc).tree) == Size(t) + 1 <==> key !in Elements(t) && alloc
    ensures Size(Insert(t, key, alloc).tree) == Size(t) <==> key in Elements(t) || !alloc
  {
    var r := Insert(t, key, alloc);
    InsertKeepsOrder(t, key, alloc);
    SizeCountsKeys(t);
    SizeCountsKeys(r.tree);
    SplicedGrows(Elements(t), key, alloc, Elements(r.tree), r.rank);
  }

  /** The length of a splice that `Spliced` describes. */
  lemma SplicedGrows(s: seq<int>, key: int, alloc: bool, e: seq<int>, rank: nat)
    requires Spliced(s, key, alloc, e, rank)
    ensures |e| == |s| + 1 <==> key !in s && alloc
    ensures |e| == |s| <==> key in s || !alloc
  {
  }

  /** Inserting a missing key and then removing the rank insertion reported
      returns that key and gives back the original contents: the
      `wtree_bisect` recipe of the library's documentation. */
  lemma InsertThenRemoveRestores(t: Tree, key: int)
    requires Sized(t) && Increasing(Elements(t)) && key !in Elements(t)
    ensures var ins := Insert(t, key, true);
      && 1 <= ins.rank <= Size(ins.tree)
      && Remove(ins.tree, ins.rank).data == key
      && Elements(Remove(ins.tree, ins.rank).tree) == Elements(t)
  {
    InsertedRankInRange(t, key);
    SearchTreeIsIncreasing(t);
    InsertPlacesKey(t, key, true);
    RemoveAtInsertedRank(t, key, Insert(t, key, true));
  }

  /** A new key is reported at a rank inside the grown tree. */
  lemma InsertedRankInRange(t: Tree, key: int)
    requires Sized(t) && Increasing(Elements(t)) && key !in Elements(t)
    ensures 1 <= Insert(t, key, true).rank <= Size(Insert(t, key, true).tree)
  {
    SearchTreeIsIncreasing(t);
    InsertPlacesKey(t, key, true);
    SizeCountsKeys(Insert(t, key, true).tree);
  }

  /** The removal half of `InsertThenRemoveRestores`. */
  lemma RemoveAtInsertedRank(t: Tree, key: int, ins: Inserted)
    requires key !in Elements(t) && Sized(ins.tree) && 1 <= ins.rank <= Size(ins.tree)
    requires Placed(t, key, true, ins)
    ensures Remove(ins.tree, ins.rank).data == key
    ensures Elements(Remove(ins.tree, ins.rank).tree) == Elements(t)
  {
    RemoveTakesRank(ins.tree, ins.rank);
    PlacedThenTaken(t, key, ins, Remove(ins.tree, ins.rank));
  }

  /** Deleting a key at the position where it was spliced in gives back the
      contents from before the splice. */
  lemma PlacedThenTaken(t: Tree, key: int, ins: Inserted, rem: Removed)
    requires key !in Elements(t) && Placed(t, key, true, ins) && Took(ins.tree, ins.rank, rem)
    ensures rem.data == key && Elements(rem.tree) == Elements(t)
  {
    var s, k := Elements(t), ins.rank - 1;
    DeleteMiddle(s[..k], key, s[k..]);
    assert s[..k] + s[k..] == s;
  }

  /** The keys `while (T) wtree_remove(&T, 1)` removes, in removal order. */
  function DrainFront(t: Tree): (out: seq<int>)
    requires Sized(t)
    ensures |out| == Size(t)
    decreases Size(t)
  {
    if t.Nil? then [] else
      var r := Remove(t, 1);
      [r.data] + DrainFront(r.tree)
  }

  /** Removing rank 1 until the tree is empty yields every key in increasing
      order, and the loop ends with the empty tree after `wtree_size` steps. */
  lemma {:induction false} DrainFrontYieldsElements(t: Tree)
    requires Sized(t)
    ensures DrainFront(t) == Elements(t)
    decreases Size(t)
  {
    if t.Node? {
      RemoveTakesRank(t, 1);
      var r := Remove(t, 1);
      DrainFrontYieldsElements(r.tree);
      var s := Elements(t);
      assert s[..0] + s[1..] == s[1..];
      assert s == [s[0]] + s[1..];
    }
  }

  /** A call of `wtree_insert` with a key the tree does not hold yet and a
      successful allocation, as a caller sees it: the tree stays valid, the
      reported rank counts the keys below the new one, and the key is
      spliced in at that rank. */
  method InsertNew(t: Tree, key: int) returns (r: Inserted)
    requires Valid(t) && key !in Elements(t)
    ensures Valid(r.tree)
    ensures 1 <= r.rank <= |Elements(t)| + 1
    ensures r.rank == CountBelow(Elements(t), key) + 1
    ensures Elements(r.tree) == Elements(t)[..r.rank - 1] + [key] + Elements(t)[r.rank - 1..]
  {
    InsertKeepsOrder(t, key, true);
    InsertKeepsBalance(t, key, true);
    InsertRankCountsBelow(t, key, true);
    r := Insert(t, key, true);
  }

  /** Inserting 5, 3, 8, 1, 4 into an empty tree reports ranks 1, 1, 3, 1
      and 3, and leaves the five keys in increasing order in a valid tree. */
  method InsertScenario(empty: Tree) returns (t: Tree, ranks: seq<nat>)
    requires Valid(empty) && Elements(empty) == []
    ensures ranks == [1, 1, 3, 1, 3]
    ensures Elements(t) == [1, 3, 4, 5, 8] && Size(t) == 5 && Valid(t)
  {
    var first, last;
    t, first := InsertScenarioStart(empty);
    t, last := InsertScenarioFinish(t);
    SizeCountsKeys(t);
    ranks := first + last;
  }

  /** The last two insertions of `InsertScenario`: 1 and 4 report ranks 1
      and 3. */
  method InsertScenarioFinish(t0: Tree) returns (t: Tree, ranks: seq<nat>)
    requires Valid(t0) && Elements(t0) == [3, 5, 8]
    ensures ranks == [1, 3]
    ensures Elements(t) == [1, 3, 4, 5, 8] && Valid(t)
  {
    assert CountBelow([3, 5, 8], 1) == 0 && [3, 5, 8][..0] + [1] + [3, 5, 8][0..] == [1, 3, 5, 8];
    assert CountBelow([1, 3, 5, 8], 4) == 2 && [1, 3, 5, 8][..2] + [4] + [1, 3, 5, 8][2..] == [1, 3, 4, 5, 8];
    var r4 := InsertNew(t0, 1);
    var r5 := InsertNew(r4.tree, 4);
    t := r5.tree;
    ranks := [r4.rank, r5.rank];
  }

  /** The first three insertions of `InsertScenario`: 5, 3 and 8 report
      ranks 1, 1 and 3. */
  method InsertScenarioStart(empty: Tree) returns (t: Tree, ranks: seq<nat>)
    requires Valid(empty) && Elements(empty) == []
    ensures ranks == [1, 1, 3]
    ensures Elements(t) == [3, 5, 8] && Valid(t)
  {
    assert CountBelow([5], 3) == 0 && [5][..0] + [3] + [5][0..] == [3, 5];
    assert CountBelow([3, 5], 8) == 2 && [3, 5][..2] + [8] + [3, 5][2..] == [3, 5, 8];
    var r1 := InsertNew(empty, 5);
    assert Elements(r1.tree) == [5];
    var r2 := InsertNew(r1.tree, 3);
    var r3 := InsertNew(r2.tree, 8);
    t := r3.tree;
    ranks := [r1.rank, r2.rank, r3.rank];
  }
}
