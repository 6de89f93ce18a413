/** The `stree` container: a binary search tree restructured by top-down
    simple splaying on every operation, so that the element an operation is
    about ends up at the root.

    The C code threads visited nodes onto two accumulator trees hanging from a
    dummy header ("link left" / "link right"). Here each accumulator is a
    `Spine`: the list of linked nodes, newest last, where every node of the
    left accumulator keeps its left subtree and has its right pointer as the
    open hole (and symmetrically for the right accumulator). The loops are
    tail-recursive functions over the two spines, and the final assemble step
    plugs the holes. */
module SplayTree {
  import opened Ordered

  /** A node owns its two subtrees; `Leaf` is the NULL pointer (empty tree). */
  datatype Tree = Leaf | Node(left: Tree, data: int, right: Tree)

  /** A restructured tree together with the value the C routine returns. */
  datatype Step<V> = Step(tree: Tree, out: V)

  /** In-order traversal. */
  function Elements(t: Tree): seq<int> {
    match t
    case Leaf => []
    case Node(l, x, r) => Elements(l) + [x] + Elements(r)
  }

  /** The representation invariant: in-order keys strictly increase. */
  ghost predicate Valid(t: Tree) {
    Increasing(Elements(t))
  }

  /** In a valid tree the root separates its two subtrees. */
  lemma ValidSplitsAtRoot(t: Tree)
    requires Valid(t) && t.Node?
    ensures Below(Elements(t.left), t.data) && Above(Elements(t.right), t.data)
  {
    IncreasingAround(Elements(t.left), t.data, Elements(t.right));
  }

  /** Nodes linked so far by a top-down splay, newest last. */
  datatype Spine = Empty | Link(rest: Spine, data: int, sub: Tree)

  /** In-order keys of the left accumulator, before its hole. */
  function LeftElements(L: Spine): seq<int> {
    match L
    case Empty => []
    case Link(rest, x, a) => LeftElements(rest) + Elements(a) + [x]
  }

  /** In-order keys of the right accumulator, after its hole. */
  function RightElements(R: Spine): seq<int> {
    match R
    case Empty => []
    case Link(rest, x, b) => [x] + Elements(b) + RightElements(rest)
  }

  /** Plugs `hole` into the right pointer of the newest left link and
      returns the whole left accumulator (`left->right = ...; dummy.right`). */
  function FillLeft(L: Spine, hole: Tree): (t: Tree)
    ensures Elements(t) == LeftElements(L) + Elements(hole)
  {
    match L
    case Empty => hole
    case Link(rest, x, a) => FillLeft(rest, Node(a, x, hole))
  }

  /** Plugs `hole` into the left pointer of the newest right link and
      returns the whole right accumulator (`right->left = ...; dummy.left`). */
  function FillRight(R: Spine, hole: Tree): (t: Tree)
    ensures Elements(t) == Elements(hole) + RightElements(R)
  {
    match R
    case Empty => hole
    case Link(rest, x, b) => FillRight(rest, Node(hole, x, b))
  }

  /** The keys of a splay in progress: left accumulator, current root,
      right accumulator. */
  function Flatten(L: Spine, root: Tree, R: Spine): seq<int> {
    LeftElements(L) + Elements(root) + RightElements(R)
  }

  /** Rotate right: the left child becomes the parent. */
  function RotateRight(t: Tree): (r: Tree)
    requires t.Node? && t.left.Node?
    ensures r.Node? && r.right.Node? && Elements(r) == Elements(t)
    ensures r.data == t.left.data && r.left == t.left.left && r.right.data == t.data
  {
    Node(t.left.left, t.left.data, Node(t.left.right, t.data, t.right))
  }

  /** Rotate left: the right child becomes the parent. */
  function RotateLeft(t: Tree): (r: Tree)
    requires t.Node? && t.right.Node?
    ensures r.Node? && r.left.Node? && Elements(r) == Elements(t)
    ensures r.data == t.right.data && r.right == t.right.right && r.left.data == t.data
  {
    Node(Node(t.left, t.data, t.right.left), t.right.data, t.right.right)
  }

  /** "Link right": the root moves onto the right accumulator and its left
      child becomes the current root; the keys in play do not change. */
  lemma LinkRightKeeps(L: Spine, root: Tree, R: Spine)
    requires root.Node?
    ensures Flatten(L, root.left, Link(R, root.data, root.right)) == Flatten(L, root, R)
  {
    assert RightElements(Link(R, root.data, root.right)) == [root.data] + Elements(root.right) + RightElements(R);
  }

  /** "Link left": the mirror image of `LinkRightKeeps`. */
  lemma LinkLeftKeeps(L: Spine, root: Tree, R: Spine)
    requires root.Node?
    ensures Flatten(Link(L, root.data, root.left), root.right, R) == Flatten(L, root, R)
  {
    assert LeftElements(Link(L, root.data, root.left)) == LeftElements(L) + Elements(root.left) + [root.data];
  }

  /** Top-down simple splay-min: rotate right, then link right, until the
      current root has no left child; then assemble. */
  function SplayMinLoop(R: Spine, root: Tree): (t: Tree)
    requires root.Node?
    ensures t.Node? && t.left.Leaf?
    ensures Elements(t) == Elements(root) + RightElements(R)
    decreases root
  {
    if root.left.Leaf? then
      ReassociateRight(Elements(root.left), root.data, Elements(root.right), RightElements(R));
      Node(Leaf, root.data, FillRight(R, root.right))
    else
      var rotated := RotateRight(root);
      ReassociateRight(Elements(rotated.left), rotated.data, Elements(rotated.right), RightElements(R));
      if rotated.left.Leaf? then Node(Leaf, rotated.data, FillRight(R, rotated.right))
      else SplayMinLoop(Link(R, rotated.data, rotated.right), rotated.left)
  }

  /** Top-down simple splay-max: rotate left, then link left, until the
      current root has no right child; then assemble. */
  function SplayMaxLoop(L: Spine, root: Tree): (t: Tree)
    requires root.Node?
    ensures t.Node? && t.right.Leaf?
    ensures Elements(t) == LeftElements(L) + Elements(root)
    decreases root
  {
    if root.right.Leaf? then
      Reassociate(LeftElements(L), Elements(root.left), root.data, Elements(root.right));
      Node(FillLeft(L, root.left), root.data, Leaf)
    else
      var rotated := RotateLeft(root);
      Reassociate(LeftElements(L), Elements(rotated.left), rotated.data, Elements(rotated.right));
      if rotated.right.Leaf? then Node(FillLeft(L, rotated.left), rotated.data, Leaf)
      else SplayMaxLoop(Link(L, rotated.data, rotated.left), rotated.right)
  }

  /** Splay-min of a whole (sub)tree, starting from empty accumulators. */
  function SplayMin(t: Tree): (r: Tree)
    requires t.Node?
    ensures r.Node? && r.left.Leaf? && Elements(r) == Elements(t)
  {
    SplayMinLoop(Empty, t)
  }

  /** Splay-max of a whole (sub)tree, starting from empty accumulators. */
  function SplayMax(t: Tree): (r: Tree)
    requires t.Node?
    ensures r.Node? && r.right.Leaf? && Elements(r) == Elements(t)
  {
    SplayMaxLoop(Empty, t)
  }

  /** `stree_root`: the element at the root, which sits right after the
      whole left subtree in the in-order sequence. */
  function Root(t: Tree): (x: int)
    requires t.Node?
    ensures |Elements(t.left)| < |Elements(t)| && x == Elements(t)[|Elements(t.left)|]
  {
    t.data
  }

  /** `stree_min`: moves the smallest element to the root and returns it. */
  function Min(t: Tree): (r: Step<int>)
    requires t.Node?
    ensures Elements(r.tree) == Elements(t)
    ensures r.tree.Node? && r.tree.left.Leaf? && r.out == r.tree.data
    ensures r.out == Elements(t)[0]
    ensures Valid(t) ==> forall e | e in Elements(t) :: r.out <= e
  {
    var s := SplayMin(t);
    assert Elements(s) == [s.data] + Elements(s.right);
    Step(s, s.data)
  }

  /** `stree_max`: moves the biggest element to the root and returns it. */
  function Max(t: Tree): (r: Step<int>)
    requires t.Node?
    ensures Elements(r.tree) == Elements(t)
    ensures r.tree.Node? && r.tree.right.Leaf? && r.out == r.tree.data
    ensures r.out == Elements(t)[|Elements(t)| - 1]
    ensures Valid(t) ==> forall e | e in Elements(t) :: e <= r.out
  {
    var s := SplayMax(t);
    assert Elements(s) == Elements(s.left) + [s.data];
    Step(s, s.data)
  }

  /** `stree_pop`: removes the root and returns its element. The remainder is
      rejoined by splay-max of the left subtree when there is no right
      subtree, and otherwise by splay-min of the right subtree with the old
      left subtree hung beneath the new root. */
  function Pop(t: Tree): (r: Step<int>)
    requires t.Node?
    ensures r.out == t.data
    ensures Elements(r.tree) == Elements(t.left) + Elements(t.right)
    ensures t.left.Leaf? ==> r.tree.Leaf? || r.tree.left.Leaf?
    ensures t.right.Leaf? ==> r.tree.Leaf? || r.tree.right.Leaf?
    ensures Valid(t) ==> Valid(r.tree) && r.out !in Elements(r.tree)
  {
    assert Valid(t) ==> Increasing(Elements(t.left) + Elements(t.right)) && t.data !in Elements(t.left) + Elements(t.right) by {
      if Valid(t) {
        DropSeparator(Elements(t.left), t.data, Elements(t.right));
      }
    }
    if t.left.Leaf? && t.right.Leaf? then Step(Leaf, t.data)
    else if t.right.Leaf? then Step(SplayMax(t.left), t.data)
    else
      var m := SplayMin(t.right);
      assert Elements(m) == [m.data] + Elements(m.right);
      Step(Node(t.left, m.data, m.right), t.data)
  }

  /** `stree_next`: when the root has a right subtree, detaches it, splays its
      minimum to the top and hangs the old root (without its right subtree)
      as the new root's left child. Otherwise reports false and changes
      nothing. */
  function Next(t: Tree): (r: Step<bool>)
    ensures r.out <==> t.Node? && t.right.Node?
    ensures !r.out ==> r.tree == t
    ensures Elements(r.tree) == Elements(t)
    ensures r.out ==> r.tree.Node? && Elements(r.tree.left) == Elements(t.left) + [t.data]
  {
    if t.Leaf? || t.right.Leaf? then Step(t, false)
    else
      var m := SplayMin(t.right);
      Step(Node(Node(t.left, t.data, Leaf), m.data, m.right), true)
  }

  /** `stree_prev`: the mirror image of `Next`. */
  function Prev(t: Tree): (r: Step<bool>)
    ensures r.out <==> t.Node? && t.left.Node?
    ensures !r.out ==> r.tree == t
    ensures Elements(r.tree) == Elements(t)
    ensures r.out ==> r.tree.Node? && Elements(r.tree.right) == [t.data] + Elements(t.right)
  {
    if t.Leaf? || t.left.Leaf? then Step(t, false)
    else
      var m := SplayMax(t.left);
      Step(Node(m.left, m.data, Node(Leaf, t.data, t.right)), true)
  }

  /** Where the search loop of `stree_find` / `stree_insert` stops. */
  datatype Split = Split(left: Spine, right: Spine, root: Tree, found: bool)

  /** The final assemble step after the search loop. */
  function Assemble(s: Split): (t: Tree)
    requires s.root.Node?
    ensures t.Node? && t.data == s.root.data
    ensures Elements(t) == Flatten(s.left, s.root, s.right)
    ensures Elements(t.left) == LeftElements(s.left) + Elements(s.root.left)
    ensures Elements(t.right) == Elements(s.root.right) + RightElements(s.right)
  {
    Node(FillLeft(s.left, s.root.left), s.root.data, FillRight(s.right, s.root.right))
  }

  /** The top-down splay search loop: a step towards `key` becomes a
      rotation first whenever the next node on the path lies in the same
      direction. Everything linked left stays below `key` and everything
      linked right stays above it. When the loop stops without finding
      `key`, the root it stops at has no child on `key`'s side. */
  function SplayLoop(L: Spine, root: Tree, R: Spine, key: int): (s: Split)
    requires root.Node?
    requires Increasing(Flatten(L, root, R))
    requires Below(LeftElements(L), key) && Above(RightElements(R), key)
    ensures s.root.Node?
    ensures Flatten(s.left, s.root, s.right) == Flatten(L, root, R)
    ensures Below(LeftElements(s.left), key) && Above(RightElements(s.right), key)
    ensures s.found <==> s.root.data == key
    ensures !s.found ==> (key < s.root.data && s.root.left.Leaf?) || (s.root.data < key && s.root.right.Leaf?)
    decreases root
  {
    SplayLoopStep(L, root, R, key);
    if key < root.data then
      if root.left.Leaf? then Split(L, R, root, false)
      else if key < root.left.data then
        var rotated := RotateRight(root);
        assert Flatten(L, rotated, R) == Flatten(L, root, R);
        SplayLoopStep(L, rotated, R, key);
        if rotated.left.Leaf? then Split(L, R, rotated, false)
        else
          LinkRightKeeps(L, rotated, R);
          SplayLoop(L, rotated.left, Link(R, rotated.data, rotated.right), key)
      else
        LinkRightKeeps(L, root, R);
        SplayLoop(L, root.left, Link(R, root.data, root.right), key)
    else if root.data < key then
      if root.right.Leaf? then Split(L, R, root, false)
      else if root.right.data < key then
        var rotated := RotateLeft(root);
        assert Flatten(L, rotated, R) == Flatten(L, root, R);
        SplayLoopStep(L, rotated, R, key);
        if rotated.right.Leaf? then Split(L, R, rotated, false)
        else
          LinkLeftKeeps(L, rotated, R);
          SplayLoop(Link(L, rotated.data, rotated.left), rotated.right, R, key)
      else
        LinkLeftKeeps(L, root, R);
        SplayLoop(Link(L, root.data, root.left), root.right, R, key)
    else Split(L, R, root, true)
  }

  /** The ordering facts one iteration of `SplayLoop` relies on. */
  lemma SplayLoopStep(L: Spine, root: Tree, R: Spine, key: int)
    requires root.Node?
    requires Increasing(Flatten(L, root, R))
    ensures Increasing(Elements(root))
    ensures Below(Elements(root.left), root.data) && Above(Elements(root.right), root.data)
    ensures root.left.Node? ==> Above(Elements(root.left.right), root.left.data)
    ensures root.right.Node? ==> Below(Elements(root.right.left), root.right.data)
  {
    var whole, a, m := Flatten(L, root, R), LeftElements(L), Elements(root);
    assert m == whole[|a|..|a| + |m|];
    IncreasingSlice(whole, |a|, |a| + |m|);
    IncreasingAround(Elements(root.left), root.data, Elements(root.right));
    if root.left.Node? {
      IncreasingAround(Elements(root.left.left), root.left.data, Elements(root.left.right));
    }
    if root.right.Node? {
      IncreasingAround(Elements(root.right.left), root.right.data, Elements(root.right.right));
    }
  }

  /** `stree_find`: splays towards `key` and reports whether it is present.
      On success `key` is at the root. On failure in a non-empty tree the root
      is the in-order neighbour of `key` on one side, with nothing of `key`'s
      side hanging under it except the keys on that side of `key`. */
  function Find(t: Tree, key: int): (r: Step<bool>)
    requires Valid(t)
    ensures Elements(r.tree) == Elements(t)
    ensures r.out <==> key in Elements(t)
    ensures t.Leaf? ==> r.tree == t
    ensures r.out ==> r.tree.Node? && r.tree.data == key
    ensures t.Node? && !r.out ==>
              && r.tree.Node?
              && ((key < r.tree.data && Below(Elements(r.tree.left), key)) ||
                  (r.tree.data < key && Above(Elements(r.tree.right), key)))
  {
    if t.Leaf? then Step(t, false)
    else
      NoSpines(t);
      var s := SplayLoop(Empty, t, Empty, key);
      SplayLoopStep(s.left, s.root, s.right, key);
      SplitOutcome(s, key);
      Step(Assemble(s), s.found)
  }

  /** With both accumulators empty, the keys in play are the tree's own. */
  lemma NoSpines(t: Tree)
    ensures Flatten(Empty, t, Empty) == Elements(t)
  {
    assert LeftElements(Empty) + Elements(t) + RightElements(Empty) == Elements(t);
  }

  /** What the stopped search loop means for `Find`: `key` is among the
      keys in play exactly when it is at the root, and on failure the side
      of the root that `key` is on holds only keys on that side of `key`. */
  lemma SplitOutcome(s: Split, key: int)
    requires s.root.Node?
    requires Below(LeftElements(s.left), key) && Above(RightElements(s.right), key)
    requires Below(Elements(s.root.left), s.root.data) && Above(Elements(s.root.right), s.root.data)
    requires s.found <==> s.root.data == key
    requires !s.found ==> (key < s.root.data && s.root.left.Leaf?) || (s.root.data < key && s.root.right.Leaf?)
    ensures s.found <==> key in Flatten(s.left, s.root, s.right)
    ensures !s.found ==>
              || (key < s.root.data && Below(LeftElements(s.left) + Elements(s.root.left), key))
              || (s.root.data < key && Above(Elements(s.root.right) + RightElements(s.right), key))
  {
    var a, l, d, r, b := LeftElements(s.left), Elements(s.root.left), s.root.data, Elements(s.root.right), RightElements(s.right);
    SearchStops(a, l, d, r, b, key, Flatten(s.left, s.root, s.right));
  }

  /** `SplitOutcome` on the key sequences: `a` and `b` from the
      accumulators, `l`, `d`, `r` from the root. */
  lemma SearchStops(a: seq<int>, l: seq<int>, d: int, r: seq<int>, b: seq<int>, key: int, whole: seq<int>)
    requires whole == a + (l + [d] + r) + b
    requires Below(a, key) && Above(b, key) && Below(l, d) && Above(r, d)
    requires d == key || (key < d && l == []) || (d < key && r == [])
    ensures key in whole <==> d == key
    ensures key < d && l == [] ==> Below(a + l, key)
    ensures d < key && r == [] ==> Above(r + b, key)
  {
    assert d in whole;
    if key < d && l == [] {
      assert a + l == a;
    }
    if d < key && r == [] {
      assert r + b == b;
    }
  }

  /** `stree_insert`: the same splay as `Find`; an equal key is overwritten
      in place. Otherwise, if the allocation succeeds, a new root holding
      `key` takes the splayed tree apart at its root: the old root goes to the
      side it belongs on together with its subtree on that side, and its
      other subtree moves across to the new root. A failed allocation leaves
      the splayed tree with unchanged contents. */
  function Insert(t: Tree, key: int, alloc: bool): (r: Step<bool>)
    requires Valid(t)
    ensures Valid(r.tree)
    ensures r.out <==> alloc || key in Elements(t)
    ensures key in Elements(t) ==> r.tree.Node? && r.tree.data == key && Elements(r.tree) == Elements(t)
    ensures key !in Elements(t) && alloc ==>
              && r.tree.Node? && r.tree.data == key
              && Elements(r.tree.left) + Elements(r.tree.right) == Elements(t)
    ensures !r.out ==> Elements(r.tree) == Elements(t)
  {
    var s := Find(t, key);
    var root := s.tree;
    if s.out then Step(Node(root.left, key, root.right), true)
    else if !alloc then Step(root, false)
    else if root.Leaf? then Step(Node(Leaf, key, Leaf), true)
    else if key < root.data then
      SplitBeforeRoot(root.left, root.data, root.right, key);
      Step(Node(root.left, key, Node(Leaf, root.data, root.right)), true)
    else
      SplitAfterRoot(root.left, root.data, root.right, key);
      Step(Node(Node(root.left, root.data, Leaf), key, root.right), true)
  }

  /** The split at the root performed by `Insert` when `key` belongs just
      before the root `x` (the root is `key`'s in-order successor). */
  lemma SplitBeforeRoot(l: Tree, x: int, r: Tree, key: int)
    requires Increasing(Elements(Node(l, x, r)))
    requires Below(Elements(l), key) && key < x
    ensures Increasing(Elements(Node(l, key, Node(Leaf, x, r))))
    ensures Elements(l) + Elements(Node(Leaf, x, r)) == Elements(Node(l, x, r))
  {
    InsertBeforeSeparator(Elements(l), x, Elements(r), key, Elements(Leaf), Elements(Node(Leaf, x, r)));
  }

  /** `key` placed between `a` and the separator `x` of an increasing
      `a + [x] + b`; `m` is the right part the empty `z`, `x` and `b` form. */
  lemma InsertBeforeSeparator(a: seq<int>, x: int, b: seq<int>, key: int, z: seq<int>, m: seq<int>)
    requires Increasing(a + [x] + b) && Below(a, key) && key < x && z == [] && m == z + [x] + b
    ensures Increasing(a + [key] + m) && a + m == a + [x] + b
  {
    IncreasingAround(a, x, b);
    assert m == [x] + b;
    IncreasingAround([], x, b);
    IncreasingAround(a, key, m);
  }

  /** The split at the root performed by `Insert` when `key` belongs just
      after the root `x` (the root is `key`'s in-order predecessor). */
  lemma SplitAfterRoot(l: Tree, x: int, r: Tree, key: int)
    requires Increasing(Elements(Node(l, x, r)))
    requires x < key && Above(Elements(r), key)
    ensures Increasing(Elements(Node(Node(l, x, Leaf), key, r)))
    ensures Elements(Node(l, x, Leaf)) + Elements(r) == Elements(Node(l, x, r))
  {
    InsertAfterSeparator(Elements(l), x, Elements(r), key, Elements(Leaf), Elements(Node(l, x, Leaf)));
  }

  /** `key` placed between the separator `x` of an increasing `a + [x] + b`
      and `b`; `m` is the left part `a`, `x` and the empty `z` form. */
  lemma InsertAfterSeparator(a: seq<int>, x: int, b: seq<int>, key: int, z: seq<int>, m: seq<int>)
    requires Increasing(a + [x] + b) && x < key && Above(b, key) && z == [] && m == a + [x] + z
    ensures Increasing(m + [key] + b) && m + b == a + [x] + b
  {
    IncreasingAround(a, x, b);
    assert m == a + [x];
    IncreasingAround(a, x, []);
    IncreasingAround(m, key, b);
  }
}
