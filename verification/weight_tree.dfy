/** The operations of the `wtree` container: `wtree_find`, `wtree_select`,
    `wtree_insert` and `wtree_remove`. Ranks are 1-based positions in the
    in-order key sequence, so rank `k` names `Elements(t)[k - 1]`. */
module WeightTree {
  import opened Ordered
  import opened WeightBalance

  /** `wtree_find`: walks down from the root, adding the weight of every left
      subtree it passes on the right, and returns the rank of `key`, or 0
      when `key` is absent. */
  method Find(t: Tree, key: int) returns (rank: nat)
    requires Sized(t) && Increasing(Elements(t))
    ensures rank == 0 <==> key !in Elements(t)
    ensures rank > 0 ==> rank <= |Elements(t)| && Elements(t)[rank - 1] == key
    ensures rank > 0 ==> rank == CountBelow(Elements(t), key) + 1
  {
    var node := t;
    rank := 1;
    ghost var before: seq<int> := [];
    ghost var after: seq<int> := [];
    while node.Node?
      invariant Sized(node) && Increasing(Elements(node))
      invariant Elements(t) == before + Elements(node) + after
      invariant rank == |before| + 1
      invariant Below(before, key) && Above(after, key)
      decreases node
    {
      var l, x, r := node.left, node.data, node.right;
      Regroup(before, Elements(l), x, Elements(r), after);
      SizeCountsKeys(l);
      if key < x {
        SearchLeft(Elements(l), x, Elements(r), after, key);
        after := [x] + Elements(r) + after;
        node := l;
      } else {
        rank := rank + Size(l);
        if x < key {
          SearchRight(before, Elements(l), x, Elements(r), key);
          rank := rank + 1;
          before := before + Elements(l) + [x];
          node := r;
        } else {
          assert Elements(t)[rank - 1] == key;
          PositionCountsBelow(Elements(t), rank - 1);
          return;
        }
      }
    }
    rank := 0;
  }

  /** `wtree_select`: the key of a given rank, found by walking to the
      minimum for rank 1, to the maximum for the last rank, and by a descent
      on left-subtree weights otherwise. */
  method Select(t: Tree, rank: nat) returns (x: int)
    requires Sized(t) && 1 <= rank <= Size(t)
    ensures rank <= |Elements(t)| && x == Elements(t)[rank - 1]
  {
    SizeCountsKeys(t);
    var node := t;
    if rank == 1 {
      while node.left.Node?
        invariant node.Node? && Elements(node)[0] == Elements(t)[0]
        decreases node
      {
        node := node.left;
      }
    } else if rank == Size(t) {
      while node.right.Node?
        invariant node.Node? && Elements(node)[|Elements(node)| - 1] == Elements(t)[|Elements(t)| - 1]
        decreases node
      {
        node := node.right;
      }
    } else {
      var target := rank;
      while true
        invariant Sized(node) && 1 <= target <= Size(node) == |Elements(node)|
        invariant Elements(node)[target - 1] == Elements(t)[rank - 1]
        decreases node
      {
        SizeCountsKeys(node.left);
        SizeCountsKeys(node.right);
        var size := Size(node.left) + 1;
        if target == size {
          break;
        } else if target < size {
          node := node.left;
        } else {
          target := target - size;
          node := node.right;
        }
      }
      SizeCountsKeys(node.left);
    }
    x := node.data;
  }

  /** The tree after an insertion and the rank `wtree_insert` reports; rank 0
      means that the allocation of a new node failed. */
  datatype Inserted = Inserted(tree: Tree, rank: nat)

  /** `wtree_insert`: descends by key, overwrites an equal key and reports its
      rank, or adds a new leaf when `alloc` (the outcome of the allocation)
      holds. Every node on the way back up is rebalanced unless the reported
      rank is 0, and ranks from the right subtree are offset by the weight of
      the left one. */
  function Insert(t: Tree, key: int, alloc: bool): (r: Inserted)
    requires Sized(t)
    ensures Sized(r.tree)
    ensures Size(r.tree) == Size(t) || Size(r.tree) == Size(t) + 1
    ensures r.rank == 0 ==> r.tree == t
  {
    match t
    case Nil =>
      if alloc then Inserted(Node(Nil, key, 1, Nil), 1) else Inserted(Nil, 0)
    case Node(l, x, s, rt) =>
      if key < x then
        var sub := Insert(l, key, alloc);
        if sub.rank == 0 then Inserted(t, 0)
        else Inserted(Rebalance(sub.tree, x, rt), sub.rank)
      else if x < key then
        var sub := Insert(rt, key, alloc);
        if sub.rank == 0 then Inserted(t, 0)
        else Inserted(Rebalance(l, x, sub.tree), sub.rank + Weight(l))
      else
        Inserted(Node(l, key, s, rt), Size(l) + 1)
  }

  /** What `wtree_insert` promises about its result `r`: rank 0 exactly
      when a missing key could not be allocated (the tree is then unchanged);
      a present key keeps the contents and reports its rank; a missing key is
      spliced in at the reported rank, after exactly the keys below it. */
  ghost predicate Placed(t: Tree, key: int, alloc: bool, r: Inserted) {
    Spliced(Elements(t), key, alloc, Elements(r.tree), r.rank)
  }

  /** `Placed` on the key sequences: `s` before, `e` after, and the rank. */
  ghost predicate Spliced(s: seq<int>, key: int, alloc: bool, e: seq<int>, rank: nat) {
    && (rank == 0 <==> !alloc && key !in s)
    && (rank == 0 ==> e == s)
    && (key in s ==> e == s && 1 <= rank <= |s| && s[rank - 1] == key)
    && (alloc && key !in s ==>
          && 1 <= rank <= |s| + 1
          && e == s[..rank - 1] + [key] + s[rank - 1..]
          && Below(s[..rank - 1], key) && Above(s[rank - 1..], key))
  }

  /** The contents `wtree_insert` leaves behind and the rank it reports. */
  lemma {:induction false} InsertPlacesKey(t: Tree, key: int, alloc: bool)
    requires Sized(t) && SearchTree(t)
    ensures Placed(t, key, alloc, Insert(t, key, alloc))
  {
    match t
    case Nil =>
    case Node(l, x, s, rt) =>
      SizeCountsKeys(l);
      if key < x {
        InsertPlacesKey(l, key, alloc);
        InsertLeftCase(t, key, alloc);
      } else if x < key {
        InsertPlacesKey(rt, key, alloc);
        InsertRightCase(t, key, alloc);
      } else {
        DeleteMiddle(Elements(l), x, Elements(rt));
      }
  }

  /** The step of `InsertPlacesKey` for a key that goes to the left. */
  lemma InsertLeftCase(t: Tree, key: int, alloc: bool)
    requires Sized(t) && SearchTree(t) && t.Node? && key < t.data
    requires Placed(t.left, key, alloc, Insert(t.left, key, alloc))
    ensures Placed(t, key, alloc, Insert(t, key, alloc))
  {
    var sub := Insert(t.left, key, alloc);
    if sub.rank == 0 {
      assert key !in Elements(t) by {
        SplicedLeftAbsent(Elements(t.left), t.data, Elements(t.right), key);
      }
    } else {
      var res := Insert(t, key, alloc);
      SplicedLeft(Elements(t.left), t.data, Elements(t.right), key, alloc, Elements(sub.tree), sub.rank,
                  Elements(t), Elements(res.tree), res.rank);
    }
  }

  /** The step of `InsertPlacesKey` for a key that goes to the right. */
  lemma InsertRightCase(t: Tree, key: int, alloc: bool)
    requires Sized(t) && SearchTree(t) && t.Node? && t.data < key
    requires Placed(t.right, key, alloc, Insert(t.right, key, alloc))
    ensures Placed(t, key, alloc, Insert(t, key, alloc))
  {
    var sub := Insert(t.right, key, alloc);
    if sub.rank == 0 {
      assert key !in Elements(t) by {
        SplicedRightAbsent(Elements(t.left), t.data, Elements(t.right), key);
      }
    } else {
      var res := Insert(t, key, alloc);
      InsertRightShape(t, key, alloc);
      SplicedRight(Elements(t.left), t.data, Elements(t.right), key, alloc, Elements(sub.tree), sub.rank,
                   Elements(t), Elements(res.tree), res.rank);
    }
  }

  /** How `wtree_insert` assembles its result from a successful insertion
      into the right subtree. */
  lemma InsertRightShape(t: Tree, key: int, alloc: bool)
    requires Sized(t) && t.Node? && t.data < key && Insert(t.right, key, alloc).rank != 0
    ensures Elements(Insert(t, key, alloc).tree) == Elements(t.left) + [t.data] + Elements(Insert(t.right, key, alloc).tree)
    ensures Insert(t, key, alloc).rank == |Elements(t.left)| + 1 + Insert(t.right, key, alloc).rank
  {
    SizeCountsKeys(t.left);
  }

  /** A key below the separator is absent from `a + [x] + b` when it is
      absent from `a`. */
  lemma SplicedLeftAbsent(a: seq<int>, x: int, b: seq<int>, key: int)
    requires Above(b, x) && key < x && key !in a
    ensures key !in a + [x] + b
  {
  }

  /** A key above the separator is absent from `a + [x] + b` when it is
      absent from `b`. */
  lemma SplicedRightAbsent(a: seq<int>, x: int, b: seq<int>, key: int)
    requires Below(a, x) && x < key && key !in b
    ensures key !in a + [x] + b
  {
  }

  /** An insertion into the left part `a` of `s == a + [x] + b` is an
      insertion into `s` at the same rank. */
  lemma SplicedLeft(a: seq<int>, x: int, b: seq<int>, key: int, alloc: bool, e: seq<int>, rank: nat,
                    s: seq<int>, e': seq<int>, rank': nat)
    requires Above(b, x) && key < x
    requires rank != 0 && Spliced(a, key, alloc, e, rank)
    requires s == a + [x] + b && e' == e + [x] + b && rank' == rank
    ensures Spliced(s, key, alloc, e', rank')
  {
    assert key in s <==> key in a;
    var k := rank - 1;
    if key in a {
      assert s[k] == a[k];
    } else {
      SpliceLeft(a, x, b, k, key);
      CutLeft(a, x, b, k);
      assert Above(s[k..], key) by {
        forall y | y in a[k..] + [x] + b ensures key < y {
        }
      }
    }
  }

  /** An insertion into the right part `b` of `s == a + [x] + b` is an
      insertion into `s`, its rank offset by the keys of `a` and `x`. */
  lemma SplicedRight(a: seq<int>, x: int, b: seq<int>, key: int, alloc: bool, e: seq<int>, rank: nat,
                     s: seq<int>, e': seq<int>, rank': nat)
    requires Below(a, x) && x < key
    requires rank != 0 && Spliced(b, key, alloc, e, rank)
    requires s == a + [x] + b && e' == a + [x] + e && rank' == |a| + 1 + rank
    ensures Spliced(s, key, alloc, e', rank')
  {
    assert key in s <==> key in b;
    var k := rank - 1;
    if key in b {
      assert s[|a| + 1 + k] == b[k];
    } else {
      SpliceRight(a, x, b, k, key);
      CutRight(a, x, b, k);
      assert Below(s[..|a| + 1 + k], key) by {
        forall y | y in a + [x] + b[..k] ensures y < key {
        }
      }
    }
  }

  /** `wtree_insert` keeps the keys in increasing order. */
  lemma InsertKeepsOrder(t: Tree, key: int, alloc: bool)
    requires Sized(t) && Increasing(Elements(t))
    ensures Placed(t, key, alloc, Insert(t, key, alloc))
    ensures Increasing(Elements(Insert(t, key, alloc).tree))
  {
    SearchTreeIsIncreasing(t);
    InsertPlacesKey(t, key, alloc);
    var r := Insert(t, key, alloc);
    SplicedIncreasing(Elements(t), key, alloc, Elements(r.tree), r.rank);
  }

  /** A splice that `Spliced` describes keeps an increasing sequence
      increasing. */
  lemma SplicedIncreasing(s: seq<int>, key: int, alloc: bool, e: seq<int>, rank: nat)
    requires Increasing(s) && Spliced(s, key, alloc, e, rank)
    ensures Increasing(e)
  {
    if alloc && key !in s {
      SpliceIncreasing(s, rank - 1, key);
    }
  }

  /** The rank `wtree_insert` reports is one more than the number of keys
      below the inserted one, whether the key was new or overwritten. */
  lemma InsertRankCountsBelow(t: Tree, key: int, alloc: bool)
    requires Sized(t) && Increasing(Elements(t))
    ensures var r := Insert(t, key, alloc);
      r.rank > 0 ==> r.rank == CountBelow(Elements(t), key) + 1
  {
    InsertKeepsOrder(t, key, alloc);
    PlacedRankCountsBelow(t, key, alloc, Insert(t, key, alloc));
  }

  /** The counting form of the rank for any result that `Placed` describes. */
  lemma PlacedRankCountsBelow(t: Tree, key: int, alloc: bool, r: Inserted)
    requires Increasing(Elements(t)) && Placed(t, key, alloc, r)
    ensures r.rank > 0 ==> r.rank == CountBelow(Elements(t), key) + 1
  {
    SplicedRankCountsBelow(Elements(t), key, alloc, Elements(r.tree), r.rank);
  }

  /** `PlacedRankCountsBelow` on the key sequences. */
  lemma SplicedRankCountsBelow(s: seq<int>, key: int, alloc: bool, e: seq<int>, rank: nat)
    requires Increasing(s) && Spliced(s, key, alloc, e, rank)
    ensures rank > 0 ==> rank == CountBelow(s, key) + 1
  {
    if key in s {
      PositionCountsBelow(s, rank - 1);
    } else if alloc {
      CountBelowAtSplit(s, rank - 1, key);
    }
  }

  /** `wtree_insert` keeps every node within the balance ratio: the changed
      subtree is at most one key heavier, which one rebalancing step
      absorbs. */
  lemma {:induction false} InsertKeepsBalance(t: Tree, key: int, alloc: bool)
    requires Sized(t) && WeightBalanced(t)
    ensures WeightBalanced(Insert(t, key, alloc).tree)
  {
    match t
    case Nil =>
    case Node(l, x, s, rt) =>
      if key < x {
        InsertKeepsBalance(l, key, alloc);
        var sub := Insert(l, key, alloc);
        if sub.rank != 0 {
          OneOffLeft(Weight(l), Weight(sub.tree), Weight(rt));
          RebalanceRestoresBalance(sub.tree, x, rt);
        }
      } else if x < key {
        InsertKeepsBalance(rt, key, alloc);
        var sub := Insert(rt, key, alloc);
        if sub.rank != 0 {
          OneOffRight(Weight(l), Weight(rt), Weight(sub.tree));
          RebalanceRestoresBalance(l, x, sub.tree);
        }
      }
  }

  /** `wtree_insert` maintains the representation invariant. */
  lemma InsertKeepsValid(t: Tree, key: int, alloc: bool)
    requires Valid(t)
    ensures Valid(Insert(t, key, alloc).tree)
  {
    InsertKeepsOrder(t, key, alloc);
    InsertKeepsBalance(t, key, alloc);
  }

  /** Overwriting a key that is already present gives back the very same
      tree: the ancestors' rebalancing steps find every node balanced. */
  lemma {:induction false} InsertPresentKeepsTree(t: Tree, key: int, alloc: bool)
    requires Sized(t) && SearchTree(t) && WeightBalanced(t) && key in Elements(t)
    ensures Insert(t, key, alloc).tree == t
  {
    match t
    case Node(l, x, s, rt) =>
      if key < x {
        assert key in Elements(l);
        InsertPresentKeepsTree(l, key, alloc);
        InsertPlacesKey(l, key, alloc);
        RebalanceKeepsBalancedNode(l, x, rt);
      } else if x < key {
        assert key in Elements(rt);
        InsertPresentKeepsTree(rt, key, alloc);
        InsertPlacesKey(rt, key, alloc);
        RebalanceKeepsBalancedNode(l, x, rt);
      }
  }

  /** The tree after a removal and the key `wtree_remove` returns. */
  datatype Removed = Removed(tree: Tree, data: int)

  /** The data exchange of the two-children case of `wtree_remove`: the
      leftmost node of `t` receives `y`, and its old key is returned. The
      shape, and therefore every stored size, is unchanged. */
  function ReplaceMin(t: Tree, y: int): (r: Removed)
    requires t.Node?
    ensures Size(r.tree) == Size(t)
    ensures Sized(r.tree) == Sized(t) && WeightBalanced(r.tree) == WeightBalanced(t)
    ensures r.data == Elements(t)[0]
    ensures Elements(r.tree) == [y] + Elements(t)[1..]
  {
    if t.left.Nil? then
      Removed(Node(Nil, y, t.size, t.right), t.data)
    else
      var sub := ReplaceMin(t.left, y);
      Removed(Node(sub.tree, t.data, t.size, t.right), sub.data)
  }

  /** `wtree_remove`: removes the key of a given rank and returns it. A key
      with at most one child is unlinked; a key with two children trades
      places with its successor, which is then removed as rank 1 of the right
      subtree. Every node on the way back up is rebalanced. */
  function Remove(t: Tree, rank: nat): (r: Removed)
    requires Sized(t) && 1 <= rank <= Size(t)
    ensures Sized(r.tree) && Size(r.tree) == Size(t) - 1
    decreases Size(t)
  {
    var l, x, rt := t.left, t.data, t.right;
    var lw := Weight(l);
    if lw > rank then
      var sub := Remove(l, rank);
      Removed(Rebalance(sub.tree, x, rt), sub.data)
    else if lw < rank then
      var sub := Remove(rt, rank - lw);
      Removed(Rebalance(l, x, sub.tree), sub.data)
    else if l.Node? && rt.Node? then
      var swapped := ReplaceMin(rt, x);
      var sub := Remove(swapped.tree, 1);
      Removed(Rebalance(l, swapped.data, sub.tree), sub.data)
    else if l.Node? then
      Removed(l, x)
    else
      Removed(rt, x)
  }

  /** What `wtree_remove` promises about its result `r`: it returns the key
      of the requested rank and leaves every other key, in order. */
  ghost predicate Took(t: Tree, rank: nat, r: Removed) {
    Dropped(Elements(t), rank, r.data, Elements(r.tree))
  }

  /** `Took` on the key sequences: `s` before, `e` after, and the key `y`
      taken out at `rank`. */
  ghost predicate Dropped(s: seq<int>, rank: nat, y: int, e: seq<int>) {
    && 1 <= rank <= |s|
    && y == s[rank - 1]
    && e == s[..rank - 1] + s[rank..]
  }

  /** `wtree_remove` removes exactly the key of the requested rank. */
  lemma {:induction false} RemoveTakesRank(t: Tree, rank: nat)
    requires Sized(t) && 1 <= rank <= Size(t)
    ensures Took(t, rank, Remove(t, rank))
    decreases Size(t)
  {
    var l, x, rt := t.left, t.data, t.right;
    var lw := Weight(l);
    if lw > rank {
      RemoveTakesRank(l, rank);
      RemoveLeftCase(t, rank);
    } else if lw < rank {
      RemoveTakesRank(rt, rank - lw);
      RemoveRightCase(t, rank);
    } else if l.Node? && rt.Node? {
      RemoveTakesRank(ReplaceMin(rt, x).tree, 1);
      RemoveSwapCase(t);
    } else {
      RemoveOneChildCase(t);
    }
  }

  /** The case of `RemoveTakesRank` where the removed key has at most one
      child, which takes its place. */
  lemma RemoveOneChildCase(t: Tree)
    requires Sized(t) && t.Node? && !(t.left.Node? && t.right.Node?)
    ensures Took(t, Weight(t.left), Remove(t, Weight(t.left)))
  {
    SizeCountsKeys(t.left);
    var res := Remove(t, Weight(t.left));
    assert Elements(res.tree) == Elements(t.left) + Elements(t.right);
    DroppedSeparator(Elements(t.left), t.data, Elements(t.right), Elements(t), res.data, Elements(res.tree));
  }

  /** Removing the separator `x` from `s == a + [x] + b`. */
  lemma DroppedSeparator(a: seq<int>, x: int, b: seq<int>, s: seq<int>, y: int, e: seq<int>)
    requires s == a + [x] + b && y == x && e == a + b
    ensures Dropped(s, |a| + 1, y, e)
  {
    DeleteMiddle(a, x, b);
  }

  /** The step of `RemoveTakesRank` for a rank inside the left subtree. */
  lemma RemoveLeftCase(t: Tree, rank: nat)
    requires Sized(t) && t.Node? && 1 <= rank < Weight(t.left)
    requires Took(t.left, rank, Remove(t.left, rank))
    ensures Took(t, rank, Remove(t, rank))
  {
    var sub, res := Remove(t.left, rank), Remove(t, rank);
    DroppedLeft(Elements(t.left), t.data, Elements(t.right), rank, sub.data, Elements(sub.tree),
                Elements(t), res.data, Elements(res.tree));
  }

  /** The step of `RemoveTakesRank` for a rank inside the right subtree. */
  lemma RemoveRightCase(t: Tree, rank: nat)
    requires Sized(t) && t.Node? && Weight(t.left) < rank <= Size(t)
    requires Took(t.right, rank - Weight(t.left), Remove(t.right, rank - Weight(t.left)))
    ensures Took(t, rank, Remove(t, rank))
  {
    SizeCountsKeys(t.left);
    var sub, res := Remove(t.right, rank - Weight(t.left)), Remove(t, rank);
    DroppedRight(Elements(t.left), t.data, Elements(t.right), rank - Weight(t.left), sub.data, Elements(sub.tree),
                 Elements(t), rank, res.data, Elements(res.tree));
  }

  /** The two-children case of `RemoveTakesRank`: the successor moves up
      and the old key leaves from the bottom of the right subtree. */
  lemma RemoveSwapCase(t: Tree)
    requires Sized(t) && t.Node? && t.left.Node? && t.right.Node?
    requires Took(ReplaceMin(t.right, t.data).tree, 1, Remove(ReplaceMin(t.right, t.data).tree, 1))
    ensures Took(t, Weight(t.left), Remove(t, Weight(t.left)))
  {
    SizeCountsKeys(t.left);
    var swapped := ReplaceMin(t.right, t.data);
    var sub, res := Remove(swapped.tree, 1), Remove(t, Weight(t.left));
    RemoveSwapShape(t);
    DroppedSwap(Elements(t.left), t.data, Elements(t.right), Elements(swapped.tree), sub.data, Elements(sub.tree),
                Elements(t), Weight(t.left), res.data, Elements(res.tree));
  }

  /** How `wtree_remove` assembles its result when the removed key has two
      children. */
  lemma RemoveSwapShape(t: Tree)
    requires Sized(t) && t.Node? && t.left.Node? && t.right.Node?
    ensures var swapped := ReplaceMin(t.right, t.data);
      && Remove(t, Weight(t.left)).data == Remove(swapped.tree, 1).data
      && Elements(Remove(t, Weight(t.left)).tree)
         == Elements(t.left) + [Elements(t.right)[0]] + Elements(Remove(swapped.tree, 1).tree)
  {
  }

  /** A removal from the left part `a` of `s == a + [x] + b` is a removal
      from `s` at the same rank. */
  lemma DroppedLeft(a: seq<int>, x: int, b: seq<int>, rank: nat, y: int, e: seq<int>,
                    s: seq<int>, y': int, e': seq<int>)
    requires Dropped(a, rank, y, e)
    requires s == a + [x] + b && y' == y && e' == e + [x] + b
    ensures Dropped(s, rank, y', e')
  {
    DeleteLeft(a, x, b, rank - 1);
  }

  /** A removal from the right part `b` of `s == a + [x] + b` is a removal
      from `s`, its rank offset by the keys of `a` and `x`. */
  lemma DroppedRight(a: seq<int>, x: int, b: seq<int>, rank: nat, y: int, e: seq<int>,
                     s: seq<int>, rank': nat, y': int, e': seq<int>)
    requires Dropped(b, rank, y, e)
    requires s == a + [x] + b && rank' == |a| + 1 + rank && y' == y && e' == a + [x] + e
    ensures Dropped(s, rank', y', e')
  {
    DeleteRight(a, x, b, rank - 1);
    assert s[|a| + rank] == b[rank - 1];
  }

  /** Removing `x` from `s == a + [x] + b` by moving the head of `b` into
      its place and removing `x` from the front of what remains. */
  lemma DroppedSwap(a: seq<int>, x: int, b: seq<int>, es: seq<int>, y: int, e: seq<int>,
                    s: seq<int>, rank: nat, y': int, e': seq<int>)
    requires |b| > 0 && es == [x] + b[1..] && Dropped(es, 1, y, e)
    requires s == a + [x] + b && rank == |a| + 1 && y' == y && e' == a + [b[0]] + e
    ensures Dropped(s, rank, y', e')
  {
    assert e == b[1..];
    RejoinHead(a, b);
    DeleteMiddle(a, x, b);
  }

  /** `wtree_remove` keeps every node within the balance ratio. */
  lemma {:induction false} RemoveKeepsBalance(t: Tree, rank: nat)
    requires Sized(t) && WeightBalanced(t) && 1 <= rank <= Size(t)
    ensures WeightBalanced(Remove(t, rank).tree)
    decreases Size(t)
  {
    var l, x, rt := t.left, t.data, t.right;
    var lw := Weight(l);
    if lw > rank {
      RemoveKeepsBalance(l, rank);
      var sub := Remove(l, rank);
      OneOffLeft(Weight(l), Weight(sub.tree), Weight(rt));
      RebalanceRestoresBalance(sub.tree, x, rt);
    } else if lw < rank {
      RemoveKeepsBalance(rt, rank - lw);
      var sub := Remove(rt, rank - lw);
      OneOffRight(Weight(l), Weight(rt), Weight(sub.tree));
      RebalanceRestoresBalance(l, x, sub.tree);
    } else if l.Node? && rt.Node? {
      var swapped := ReplaceMin(rt, x);
      RemoveKeepsBalance(swapped.tree, 1);
      var sub := Remove(swapped.tree, 1);
      OneOffRight(Weight(l), Weight(rt), Weight(sub.tree));
      RebalanceRestoresBalance(l, swapped.data, sub.tree);
    }
  }

  /** `wtree_remove` maintains the representation invariant. */
  lemma RemoveKeepsValid(t: Tree, rank: nat)
    requires Valid(t) && 1 <= rank <= Size(t)
    ensures Valid(Remove(t, rank).tree)
  {
    RemoveTakesRank(t, rank);
    IncreasingWithout(Elements(t), rank - 1);
    RemoveKeepsBalance(t, rank);
  }
}
