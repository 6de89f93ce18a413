/** Properties of the `stree` operations that relate several calls: the
    test program's validity function, the neighbour left at the root by a
    failed search, root-anchored iteration with `Next` / `Prev`, draining by
    repeated `Pop`, and the assertion sequences of the `stree` test. */
module SplayProperties {
  import opened Ordered
  import opened SplayTree

  /** The test program's `stree_verify`: every key lies strictly between the
      nearest ancestors it hangs to the right of (`less`) and to the left of
      (`more`). */
  predicate Verify(t: Tree, less: Option<int>, more: Option<int>) {
    match t
    case Leaf => true
    case Node(l, x, r) =>
      && (less.Some? ==> less.value < x)
      && (more.Some? ==> x < more.value)
      && Verify(l, less, Some(x))
      && Verify(r, Some(x), more)
  }

  /** The keys of `t` lie strictly inside the optional bounds. */
  ghost predicate Within(t: Tree, less: Option<int>, more: Option<int>) {
    Bounded(Elements(t), less, more)
  }

  lemma {:induction false} VerifyBounded(t: Tree, less: Option<int>, more: Option<int>)
    ensures Verify(t, less, more) <==> Valid(t) && Within(t, less, more)
  {
    match t
    case Leaf =>
    case Node(l, x, r) =>
      VerifyBounded(l, less, Some(x));
      VerifyBounded(r, Some(x), more);
      BoundedAround(Elements(l), x, Elements(r), less, more);
  }

  /** `stree_verify(T, NULL, NULL)` accepts exactly the trees whose in-order
      keys strictly increase. */
  lemma VerifyIsValid(t: Tree)
    ensures Verify(t, None, None) <==> Valid(t)
  {
    VerifyBounded(t, None, None);
  }

  /** A failed search in a non-empty tree leaves the in-order neighbour of
      `key` at the root: either its successor, with exactly the keys below
      `key` in its left subtree, or its predecessor, with exactly the keys
      above `key` in its right subtree. This is what makes the split at the
      root in `Insert` order-correct. */
  lemma FailedFindLandsOnNeighbour(t: Tree, key: int)
    requires Valid(t) && t.Node? && key !in Elements(t)
    ensures var r := Find(t, key).tree;
      || (&& key < r.data
          && (forall e | e in Elements(t) :: e < key <==> e in Elements(r.left))
          && (forall e | e in Elements(t) && key < e :: r.data <= e))
      || (&& r.data < key
          && (forall e | e in Elements(t) :: key < e <==> e in Elements(r.right))
          && (forall e | e in Elements(t) && e < key :: e <= r.data))
  {
    var r := Find(t, key).tree;
    ValidSplitsAtRoot(r);
    NeighbourAtSplit(Elements(r.left), r.data, Elements(r.right), Elements(t), key);
  }

  /** `FailedFindLandsOnNeighbour` on the key sequence `s`, split at the
      root `y`. */
  lemma NeighbourAtSplit(a: seq<int>, y: int, b: seq<int>, s: seq<int>, key: int)
    requires Below(a, y) && Above(b, y) && s == a + [y] + b
    requires (key < y && Below(a, key)) || (y < key && Above(b, key))
    ensures || (&& key < y
                && (forall e | e in s :: e < key <==> e in a)
                && (forall e | e in s && key < e :: y <= e))
            || (&& y < key
                && (forall e | e in s :: key < e <==> e in b)
                && (forall e | e in s && e < key :: e <= y))
  {
  }

  /** In a valid tree, some key is bigger than the root's exactly when the
      root has a right subtree, and some key is smaller exactly when it has a
      left subtree. */
  lemma RootChildrenMatchNeighbours(t: Tree)
    requires Valid(t) && t.Node?
    ensures (exists e | e in Elements(t) :: t.data < e) <==> t.right.Node?
    ensures (exists e | e in Elements(t) :: e < t.data) <==> t.left.Node?
  {
    ValidSplitsAtRoot(t);
    LargerExactlyWithRight(t);
    SmallerExactlyWithLeft(t);
  }

  /** When the root separates its subtrees, a bigger key exists exactly when
      there is a right subtree. */
  lemma LargerExactlyWithRight(t: Tree)
    requires t.Node? && Below(Elements(t.left), t.data) && Above(Elements(t.right), t.data)
    ensures (exists e | e in Elements(t) :: t.data < e) <==> t.right.Node?
  {
    var a, x, b, s := Elements(t.left), t.data, Elements(t.right), Elements(t);
    EmptyExactlyLeaf(t.right);
    if t.right.Node? {
      var w := FirstAbove(a, x, b, s);
      assert w in Elements(t) && t.data < w;
      assert exists e | e in Elements(t) :: t.data < e;
    } else {
      NoneAbove(a, x, b, s);
    }
  }

  /** When the root separates its subtrees, a smaller key exists exactly
      when there is a left subtree. */
  lemma SmallerExactlyWithLeft(t: Tree)
    requires t.Node? && Below(Elements(t.left), t.data) && Above(Elements(t.right), t.data)
    ensures (exists e | e in Elements(t) :: e < t.data) <==> t.left.Node?
  {
    var a, x, b, s := Elements(t.left), t.data, Elements(t.right), Elements(t);
    EmptyExactlyLeaf(t.left);
    if t.left.Node? {
      var w := FirstBelow(a, x, b, s);
      assert w in Elements(t) && w < t.data;
      assert exists e | e in Elements(t) :: e < t.data;
    } else {
      NoneBelow(a, x, b, s);
    }
  }

  /** A subtree holds no keys exactly when it is empty. */
  lemma EmptyExactlyLeaf(t: Tree)
    ensures Elements(t) == [] <==> t.Leaf?
  {
    if t.Node? {
      assert Elements(t)[|Elements(t.left)|] == t.data;
    }
  }

  /** Around a separator `x`, a non-empty `b` supplies a key of
      `s == a + [x] + b` bigger than `x`. */
  lemma FirstAbove(a: seq<int>, x: int, b: seq<int>, s: seq<int>) returns (w: int)
    requires Above(b, x) && s == a + [x] + b && b != []
    ensures w in s && x < w
  {
    w := b[0];
    assert s[|a| + 1] == w && w in b;
  }

  /** Around a separator `x`, with `b` empty no key of `s == a + [x] + b`
      is bigger than `x`. */
  lemma NoneAbove(a: seq<int>, x: int, b: seq<int>, s: seq<int>)
    requires Below(a, x) && s == a + [x] + b && b == []
    ensures forall e | e in s :: e <= x
  {
    forall e | e in s ensures e <= x {
      var i :| 0 <= i < |s| && s[i] == e;
      if i < |a| {
        assert a[i] in a;
      }
    }
  }

  /** Around a separator `x`, a non-empty `a` supplies a key of
      `s == a + [x] + b` smaller than `x`. */
  lemma FirstBelow(a: seq<int>, x: int, b: seq<int>, s: seq<int>) returns (w: int)
    requires Below(a, x) && s == a + [x] + b && a != []
    ensures w in s && w < x
  {
    w := a[0];
    assert s[0] == w && w in a;
  }

  /** Around a separator `x`, with `a` empty no key of `s == a + [x] + b`
      is smaller than `x`. */
  lemma NoneBelow(a: seq<int>, x: int, b: seq<int>, s: seq<int>)
    requires Above(b, x) && s == a + [x] + b && a == []
    ensures forall e | e in s :: x <= e
  {
    forall e | e in s ensures x <= e {
      var i :| 0 <= i < |s| && s[i] == e;
      if i > 0 {
        assert b[i - 1] in b;
      }
    }
  }

  /** `Next` fails exactly when no key is bigger than the root's. */
  lemma NextFailsExactlyAtMax(t: Tree)
    requires Valid(t) && t.Node?
    ensures Next(t).out <==> exists e | e in Elements(t) :: t.data < e
  {
    RootChildrenMatchNeighbours(t);
  }

  /** When `Next` succeeds it brings the root's in-order successor to the
      root. */
  lemma NextReachesSuccessor(t: Tree)
    requires Valid(t) && t.Node? && t.right.Node?
    ensures var r := Next(t).tree;
      && t.data < r.data
      && forall e | e in Elements(t) :: e <= t.data || r.data <= e
  {
    var r := Next(t).tree;
    ValidSplitsAtRoot(t);
    ValidSplitsAtRoot(r);
    SuccessorFollowsRoot(Elements(t.left), t.data, Elements(t.right), Elements(r.left), r.data, Elements(r.right), Elements(t));
  }

  /** The key sequence `s`, split at the old root `x` and at the new root
      `y` whose left side is everything up to `x`: then `y` comes right
      after `x`. */
  lemma SuccessorFollowsRoot(a: seq<int>, x: int, b: seq<int>, l: seq<int>, y: int, c: seq<int>, s: seq<int>)
    requires Below(a, x) && Above(b, x) && Above(c, y)
    requires s == a + [x] + b && s == l + [y] + c && l == a + [x]
    ensures x < y && forall e | e in s :: e <= x || y <= e
  {
    CancelPrefix(a + [x], b, [y] + c);
    assert y in b;
    FirstAfterSeparator(a, x, y, c);
  }

  /** `Prev` fails exactly when no key is smaller than the root's. */
  lemma PrevFailsExactlyAtMin(t: Tree)
    requires Valid(t) && t.Node?
    ensures Prev(t).out <==> exists e | e in Elements(t) :: e < t.data
  {
    RootChildrenMatchNeighbours(t);
  }

  /** When `Prev` succeeds it brings the root's in-order predecessor to the
      root. */
  lemma PrevReachesPredecessor(t: Tree)
    requires Valid(t) && t.Node? && t.left.Node?
    ensures var r := Prev(t).tree;
      && r.data < t.data
      && forall e | e in Elements(t) :: t.data <= e || e <= r.data
  {
    var r := Prev(t).tree;
    ValidSplitsAtRoot(t);
    ValidSplitsAtRoot(r);
    PredecessorPrecedesRoot(Elements(t.left), t.data, Elements(t.right), Elements(r.left), r.data, Elements(r.right), Elements(t));
  }

  /** The mirror image of `SuccessorFollowsRoot`: the new root `y`, whose
      right side is everything from `x` on, comes right before `x`. */
  lemma PredecessorPrecedesRoot(a: seq<int>, x: int, b: seq<int>, c: seq<int>, y: int, rr: seq<int>, s: seq<int>)
    requires Below(a, x) && Above(b, x) && Below(c, y)
    requires s == a + [x] + b && s == c + [y] + rr && rr == [x] + b
    ensures y < x && forall e | e in s :: x <= e || e <= y
  {
    assert a + ([x] + b) == (c + [y]) + ([x] + b);
    CancelSuffix(a, c + [y], [x] + b);
    assert y in a;
    LastBeforeSeparator(c, y, x, b);
  }

  /** Calling `stree_next` until it fails, starting from `t`: the keys
      `stree_root` reports on the way (`out`) and the tree the loop leaves
      behind (`tree`), which holds the same keys with the largest at the
      root. */
  function ForwardWalk(t: Tree): (w: Step<seq<int>>)
    requires t.Node?
    ensures w.tree.Node? && w.tree.right.Leaf? && Elements(w.tree) == Elements(t)
    decreases |Elements(t.right)|
  {
    var n := Next(t);
    if n.out then
      assert |Elements(n.tree)| == |Elements(n.tree.left)| + 1 + |Elements(n.tree.right)|;
      var rest := ForwardWalk(n.tree);
      Step(rest.tree, [t.data] + rest.out)
    else Step(t, [t.data])
  }

  /** Calling `stree_prev` until it fails, starting from `t`: the keys
      `stree_root` reports on the way (`out`) and the tree the loop leaves
      behind (`tree`), which holds the same keys with the smallest at the
      root. */
  function BackwardWalk(t: Tree): (w: Step<seq<int>>)
    requires t.Node?
    ensures w.tree.Node? && w.tree.left.Leaf? && Elements(w.tree) == Elements(t)
    decreases |Elements(t.left)|
  {
    var p := Prev(t);
    if p.out then
      assert |Elements(p.tree)| == |Elements(p.tree.left)| + 1 + |Elements(p.tree.right)|;
      var rest := BackwardWalk(p.tree);
      Step(rest.tree, [t.data] + rest.out)
    else Step(t, [t.data])
  }

  function Reverse(s: seq<int>): (r: seq<int>)
    ensures |r| == |s| && forall i | 0 <= i < |s| :: r[i] == s[|s| - 1 - i]
  {
    if s == [] then [] else Reverse(s[1..]) + [s[0]]
  }

  /** Forward iteration from the root visits the root and every later key,
      in order, each exactly once. */
  lemma {:induction false} ForwardWalkVisitsSuffix(t: Tree)
    requires t.Node?
    ensures ForwardWalk(t).out == Elements(t)[|Elements(t.left)|..]
    decreases |Elements(t.right)|
  {
    var n := Next(t);
    assert Elements(t)[|Elements(t.left)|..] == [t.data] + Elements(t.right);
    if n.out {
      assert |Elements(n.tree)| == |Elements(n.tree.left)| + 1 + |Elements(n.tree.right)|;
      ForwardWalkVisitsSuffix(n.tree);
      assert Elements(n.tree) == Elements(t.left) + [t.data] + Elements(n.tree)[|Elements(n.tree.left)|..];
      assert Elements(t.right) == Elements(n.tree)[|Elements(n.tree.left)|..];
    }
  }

  /** Backward iteration from the root visits the root and every earlier
      key, in decreasing order, each exactly once. */
  lemma {:induction false} BackwardWalkVisitsPrefix(t: Tree)
    requires t.Node?
    ensures BackwardWalk(t).out == Reverse(Elements(t)[..|Elements(t.left)| + 1])
    decreases |Elements(t.left)|
  {
    var p := Prev(t);
    assert Elements(t)[..|Elements(t.left)| + 1] == Elements(t.left) + [t.data];
    if p.out {
      var u := p.tree;
      assert |Elements(u)| == |Elements(u.left)| + 1 + |Elements(u.right)|;
      BackwardWalkVisitsPrefix(u);
      assert Elements(u) == Elements(u)[..|Elements(u.left)| + 1] + [t.data] + Elements(t.right);
      assert Elements(t.left) == Elements(u)[..|Elements(u.left)| + 1];
      ReverseSnoc(Elements(t.left), t.data);
    } else {
      assert Elements(t.left) == [];
      assert Reverse([t.data]) == [t.data];
    }
  }

  lemma ReverseSnoc(s: seq<int>, x: int)
    ensures Reverse(s + [x]) == [x] + Reverse(s)
  {
  }

  /** `stree_min` followed by `stree_next` until it fails visits every key
      in increasing order. */
  lemma MinThenNextVisitsAll(t: Tree)
    requires t.Node?
    ensures ForwardWalk(Min(t).tree).out == Elements(t)
  {
    ForwardWalkVisitsSuffix(Min(t).tree);
  }

  /** `stree_max` followed by `stree_prev` until it fails visits every key
      in decreasing order. */
  lemma MaxThenPrevVisitsAll(t: Tree)
    requires t.Node?
    ensures BackwardWalk(Max(t).tree).out == Reverse(Elements(t))
  {
    var m := Max(t).tree;
    BackwardWalkVisitsPrefix(m);
    assert Elements(m) == Elements(m.left) + [m.data];
    assert Elements(m)[..|Elements(m.left)| + 1] == Elements(t);
  }

  /** The elements `stree_pop` returns when called until the tree is empty. */
  function PopAll(t: Tree): seq<int>
    decreases |Elements(t)|
  {
    if t.Leaf? then []
    else
      var p := Pop(t);
      [p.out] + PopAll(p.tree)
  }

  /** Repeated `stree_pop` empties the tree, returning every element once. */
  lemma {:induction false} PopAllReturnsEverything(t: Tree)
    ensures multiset(PopAll(t)) == multiset(Elements(t))
    decreases |Elements(t)|
  {
    if t.Node? {
      PopAllReturnsEverything(Pop(t).tree);
    }
  }

  /** Once the minimum is at the root, repeated `stree_pop` keeps the minimum
      of what is left at the root, so it returns the keys in increasing
      order. */
  lemma {:induction false} PopAllFromMin(t: Tree)
    requires t.Leaf? || t.left.Leaf?
    ensures PopAll(t) == Elements(t)
    decreases |Elements(t)|
  {
    if t.Node? {
      PopAllFromMin(Pop(t).tree);
    }
  }

  /** Once the maximum is at the root, repeated `stree_pop` keeps the maximum
      of what is left at the root, so it returns the keys in decreasing
      order. */
  lemma {:induction false} PopAllFromMax(t: Tree)
    requires t.Leaf? || t.right.Leaf?
    ensures PopAll(t) == Reverse(Elements(t))
    decreases |Elements(t)|
  {
    if t.Node? {
      var p := Pop(t);
      PopAllFromMax(p.tree);
      assert Elements(t) == Elements(t.left) + [t.data];
      assert Elements(p.tree) == Elements(t.left);
      ReverseSnoc(Elements(t.left), t.data);
    }
  }

  /** The `stree` test, found branch: after a successful find of `j`, the
      root is `j`, popping returns `j`, the tree stays valid and `j` can no
      longer be found. */
  lemma FindThenPop(t: Tree, j: int)
    requires Valid(t)
    ensures var f := Find(t, j);
      f.out ==>
        && Root(f.tree) == j
        && Pop(f.tree).out == j
        && Valid(Pop(f.tree).tree)
        && !Find(Pop(f.tree).tree, j).out
  {
  }

  /** The `stree` test, missing branch: a successful insert of an absent key
      leaves a valid tree in which the key is found. */
  lemma InsertThenFind(t: Tree, j: int, alloc: bool)
    requires Valid(t) && j !in Elements(t)
    ensures var i := Insert(t, j, alloc);
      i.out ==> Valid(i.tree) && Find(i.tree, j).out
  {
    var i := Insert(t, j, alloc);
    if i.out {
      assert j in Elements(i.tree);
    }
  }

  /** Popping right after inserting an absent key undoes the insertion:
      the new key is at the root and the remainder holds the old keys in the
      old order. */
  lemma InsertThenPopRestores(t: Tree, j: int)
    requires Valid(t) && j !in Elements(t)
    ensures var i := Insert(t, j, true);
      Pop(i.tree).out == j && Elements(Pop(i.tree).tree) == Elements(t)
  {
  }

  /** Inserts every key of `xs` in turn, with every allocation succeeding. */
  function InsertAll(t: Tree, xs: seq<int>): (r: Tree)
    requires Valid(t)
    ensures Valid(r)
    decreases |xs|
  {
    if xs == [] then t else InsertAll(Insert(t, xs[0], true).tree, xs[1..])
  }

  /** Inserting keys that are all bigger than the current ones, in increasing
      order, appends them to the in-order sequence. */
  lemma {:induction false} InsertAscending(t: Tree, xs: seq<int>)
    requires Valid(t) && Increasing(Elements(t) + xs)
    ensures Elements(InsertAll(t, xs)) == Elements(t) + xs
    decreases |xs|
  {
    if xs != [] {
      AscendingHead(Elements(t), xs);
      InsertLargest(t, xs[0]);
      InsertAscending(Insert(t, xs[0], true).tree, xs[1..]);
    }
  }

  /** The first key of `xs` is above every key of `a` in an increasing
      `a + xs`, and moving it across keeps the sequence. */
  lemma AscendingHead(a: seq<int>, xs: seq<int>)
    requires xs != [] && Increasing(a + xs)
    ensures Below(a, xs[0]) && (a + [xs[0]]) + xs[1..] == a + xs
  {
    assert a + xs == a + [xs[0]] + xs[1..];
    IncreasingAround(a, xs[0], xs[1..]);
  }

  /** Inserting a key above every key of the tree appends it to the in-order
      sequence. */
  lemma InsertLargest(t: Tree, key: int)
    requires Valid(t) && Below(Elements(t), key)
    ensures Elements(Insert(t, key, true).tree) == Elements(t) + [key]
  {
    assert key !in Elements(t);
    var u := Insert(t, key, true).tree;
    ValidSplitsAtRoot(u);
    LargestGoesLast(Elements(u.left), Elements(u.right), key, Elements(t), Elements(u));
  }

  /** If `a + b` is `s`, every key of `s` is below `key` and every key of `b`
      is above it, then `b` is empty. */
  lemma LargestGoesLast(a: seq<int>, b: seq<int>, key: int, s: seq<int>, e: seq<int>)
    requires a + b == s && Below(s, key) && Above(b, key) && e == a + [key] + b
    ensures e == s + [key]
  {
    if b != [] {
      HeadOfSuffix(a, b, s, key);
      assert false;
    }
    assert a == s;
  }

  /** The first key of a non-empty suffix `b` of `s` is one of the keys of
      `s`, so it is below any bound on them. */
  lemma HeadOfSuffix(a: seq<int>, b: seq<int>, s: seq<int>, key: int)
    requires b != [] && a + b == s && Below(s, key)
    ensures b[0] in b && b[0] < key
  {
    assert s[|a|] == b[0] && s[|a|] in s;
  }

  /** The keys `1, 2, ..., n`. */
  function Upto(n: nat): (s: seq<int>)
    ensures |s| == n && forall i | 0 <= i < n :: s[i] == i + 1
  {
    if n == 0 then [] else Upto(n - 1) + [n]
  }

  /** The `stree` test's second half, as one chain of calls: after inserting
      `1..n` in order, `stree_max` returns `n` and `stree_prev` until it
      fails visits `n` down to `1`; on the tree that loop leaves, `stree_min`
      returns `1` and `stree_next` until it fails visits `1` up to `n`. The
      tree stays valid throughout. */
  lemma AscendingInsertionWalks(n: nat)
    requires n > 0
    ensures var t := InsertAll(Leaf, Upto(n));
      Valid(t) && t.Node? &&
      var top := Max(t);
      var down := BackwardWalk(top.tree);
      var bottom := Min(down.tree);
      var up := ForwardWalk(bottom.tree);
      && top.out == n && down.out == Reverse(Upto(n)) && Valid(down.tree)
      && bottom.out == 1 && up.out == Upto(n) && Valid(up.tree)
  {
    var t := InsertAll(Leaf, Upto(n));
    assert Elements(Leaf) + Upto(n) == Upto(n);
    InsertAscending(Leaf, Upto(n));
    MaxThenPrevVisitsAll(t);
    var down := BackwardWalk(Max(t).tree);
    MinThenNextVisitsAll(down.tree);
  }

  /** A splay tree holding `{2, 4, 6}`: finding 4 leaves it at the root, the
      first `stree_next` reaches 6, and a second one fails. */
  lemma FindNextScenario(t: Tree)
    requires Valid(t) && Elements(t) == [2, 4, 6]
    ensures var f := Find(t, 4);
      && f.out && Root(f.tree) == 4
      && Next(f.tree).out && Root(Next(f.tree).tree) == 6
      && !Next(Next(f.tree).tree).out
  {
    var f := Find(t, 4).tree;
    assert 4 in Elements(t);
    NextFailsExactlyAtMax(f);
    assert 6 in Elements(f);
    NextReachesSuccessor(f);
    var g := Next(f).tree;
    NextFailsExactlyAtMax(g);
  }
}
