/** The node model and the rebalancing step of the `wtree` container: a
    weight-balanced binary search tree in the style of Nievergelt and
    Reingold, where every node stores the size of its subtree and the weight
    of a subtree is its size plus one.

    The C code repeats the rebalancing step inline in `wtree_insert` and in
    `wtree_remove`; the two copies are identical and are modelled once, as
    `Rebalance`. The C code also patches the stored sizes field by field after
    a rotation; here every rebuilt node gets its size from its two children
    (`Make`), which gives the same values whenever the children's sizes are
    correct. */
module WeightBalance {
  import opened Ordered

  /** A node owns its subtrees and stores the number of keys below and at it;
      `Nil` is the NULL pointer (empty tree). */
  datatype Tree = Nil | Node(left: Tree, data: int, size: nat, right: Tree)

  /** The balance ratio DELTA = 5/2: a subtree may weigh at most 5/2 times
      its sibling. */
  const DELTA_NUM: nat := 5
  const DELTA_DEN: nat := 2

  /** The rotation ratio GAMMA = 3/2: the heavy child is rotated up on its
      own when its inner subtree weighs less than 3/2 times its outer one. */
  const GAMMA_NUM: nat := 3
  const GAMMA_DEN: nat := 2

  /** `wtree_size`: the stored size of the root, 0 for the empty tree. */
  function Size(t: Tree): nat {
    if t.Nil? then 0 else t.size
  }

  /** The weight used by every balance test: size plus one. */
  function Weight(t: Tree): nat {
    Size(t) + 1
  }

  /** In-order traversal. */
  function Elements(t: Tree): seq<int> {
    match t
    case Nil => []
    case Node(l, x, _, r) => Elements(l) + [x] + Elements(r)
  }

  /** Every stored size equals the sizes of the children plus one. */
  ghost predicate Sized(t: Tree) {
    match t
    case Nil => true
    case Node(l, _, s, r) => s == Size(l) + Size(r) + 1 && Sized(l) && Sized(r)
  }

  /** Two sibling weights are within the ratio DELTA of each other, the
      balance condition of the test program's `wtree_verify`. */
  predicate Balanced(lw: int, rw: int) {
    DELTA_DEN * lw <= DELTA_NUM * rw && DELTA_DEN * rw <= DELTA_NUM * lw
  }

  /** Every node of `t` is balanced. */
  ghost predicate WeightBalanced(t: Tree) {
    match t
    case Nil => true
    case Node(l, _, _, r) => Balanced(Weight(l), Weight(r)) && WeightBalanced(l) && WeightBalanced(r)
  }

  /** The representation invariant: search order, sizes and balance. */
  ghost predicate Valid(t: Tree) {
    Increasing(Elements(t)) && Sized(t) && WeightBalanced(t)
  }

  /** The search-tree order stated node by node: every key of a left
      subtree is smaller, and every key of a right subtree larger, than the
      node's own key. */
  ghost predicate SearchTree(t: Tree) {
    match t
    case Nil => true
    case Node(l, x, _, r) => Below(Elements(l), x) && Above(Elements(r), x) && SearchTree(l) && SearchTree(r)
  }

  /** The node-by-node order and the increasing in-order sequence are the
      same condition. */
  lemma {:induction false} SearchTreeIsIncreasing(t: Tree)
    ensures SearchTree(t) <==> Increasing(Elements(t))
  {
    match t
    case Nil =>
    case Node(l, x, _, r) =>
      SearchTreeIsIncreasing(l);
      SearchTreeIsIncreasing(r);
      IncreasingAround(Elements(l), x, Elements(r));
  }

  /** Stored sizes count the keys. */
  lemma {:induction false} SizeCountsKeys(t: Tree)
    requires Sized(t)
    ensures Size(t) == |Elements(t)|
  {
    match t
    case Nil =>
    case Node(l, _, _, r) =>
      SizeCountsKeys(l);
      SizeCountsKeys(r);
  }

  /** A node whose size is computed from its children. */
  function Make(l: Tree, x: int, r: Tree): (t: Tree)
    ensures t.Node? && Size(t) == Size(l) + Size(r) + 1
    ensures Elements(t) == Elements(l) + [x] + Elements(r)
    ensures Sized(t) <==> Sized(l) && Sized(r)
    ensures WeightBalanced(t) <==> Balanced(Weight(l), Weight(r)) && WeightBalanced(l) && WeightBalanced(r)
  {
    Node(l, x, Size(l) + Size(r) + 1, r)
  }

  /** The pair of sibling weights is at most one key away from a balanced
      pair: the situation after one insertion into, or one removal from, one
      side of a balanced node. */
  predicate OneOffBalanced(lw: int, rw: int) {
    || Balanced(lw, rw)
    || Balanced(lw - 1, rw) || Balanced(lw + 1, rw)
    || Balanced(lw, rw - 1) || Balanced(lw, rw + 1)
  }

  /** A balanced pair where the left weight moved by at most one. */
  lemma OneOffLeft(lw: int, lw': int, rw: int)
    requires Balanced(lw, rw) && (lw' == lw - 1 || lw' == lw || lw' == lw + 1)
    ensures OneOffBalanced(lw', rw)
  {
  }

  /** A balanced pair where the right weight moved by at most one. */
  lemma OneOffRight(lw: int, rw: int, rw': int)
    requires Balanced(lw, rw) && (rw' == rw - 1 || rw' == rw || rw' == rw + 1)
    ensures OneOffBalanced(lw, rw')
  {
  }

  /** Being one key away from balance does not depend on which side is
      named first. */
  lemma OneOffSymmetric(lw: int, rw: int)
    ensures OneOffBalanced(lw, rw) == OneOffBalanced(rw, lw)
  {
  }

  /** Single right rotation: the left child `l` becomes the parent. */
  function SingleRight(l: Tree, x: int, r: Tree): (t: Tree)
    requires l.Node? && Sized(l) && Sized(r)
    ensures t.Node? && Sized(t) && Size(t) == Size(l) + Size(r) + 1
    ensures Elements(t) == Elements(l) + [x] + Elements(r)
  {
    RotateSingle(Elements(l.left), l.data, Elements(l.right), x, Elements(r));
    Make(l.left, l.data, Make(l.right, x, r))
  }

  /** Double right rotation: the right child of the left child `l` becomes
      the parent. */
  function DoubleRight(l: Tree, x: int, r: Tree): (t: Tree)
    requires l.Node? && l.right.Node? && Sized(l) && Sized(r)
    ensures t.Node? && Sized(t) && Size(t) == Size(l) + Size(r) + 1
    ensures Elements(t) == Elements(l) + [x] + Elements(r)
  {
    var lr := l.right;
    assert Sized(lr);
    RotateDouble(Elements(l.left), l.data, Elements(lr.left), lr.data, Elements(lr.right), x, Elements(r));
    Make(Make(l.left, l.data, lr.left), lr.data, Make(lr.right, x, r))
  }

  /** Single left rotation: the right child `r` becomes the parent. */
  function SingleLeft(l: Tree, x: int, r: Tree): (t: Tree)
    requires r.Node? && Sized(l) && Sized(r)
    ensures t.Node? && Sized(t) && Size(t) == Size(l) + Size(r) + 1
    ensures Elements(t) == Elements(l) + [x] + Elements(r)
  {
    RotateSingle(Elements(l), x, Elements(r.left), r.data, Elements(r.right));
    Make(Make(l, x, r.left), r.data, r.right)
  }

  /** Double left rotation: the left child of the right child `r` becomes
      the parent. */
  function DoubleLeft(l: Tree, x: int, r: Tree): (t: Tree)
    requires r.Node? && r.left.Node? && Sized(l) && Sized(r)
    ensures t.Node? && Sized(t) && Size(t) == Size(l) + Size(r) + 1
    ensures Elements(t) == Elements(l) + [x] + Elements(r)
  {
    var rl := r.left;
    assert Sized(rl);
    RotateDouble(Elements(l), x, Elements(rl.left), rl.data, Elements(rl.right), r.data, Elements(r.right));
    Make(Make(l, x, rl.left), rl.data, Make(rl.right, r.data, r.right))
  }

  /** The rebalancing step run on every node of the unwind path of
      `wtree_insert` and `wtree_remove`: when one side outweighs the other by
      more than DELTA, rotate the heavy child up (single rotation) if its
      inner subtree is light compared with its outer one by GAMMA, and
      otherwise rotate the inner grandchild up (double rotation). */
  function Rebalance(l: Tree, x: int, r: Tree): (t: Tree)
    requires Sized(l) && Sized(r)
    ensures t.Node? && Sized(t) && Size(t) == Size(l) + Size(r) + 1
    ensures Elements(t) == Elements(l) + [x] + Elements(r)
  {
    var lw, rw := Weight(l), Weight(r);
    if DELTA_NUM * rw < DELTA_DEN * lw then
      if GAMMA_DEN * Weight(l.right) < GAMMA_NUM * Weight(l.left) then SingleRight(l, x, r)
      else DoubleRight(l, x, r)
    else if DELTA_NUM * lw < DELTA_DEN * rw then
      if GAMMA_DEN * Weight(r.left) < GAMMA_NUM * Weight(r.right) then SingleLeft(l, x, r)
      else DoubleLeft(l, x, r)
    else
      Make(l, x, r)
  }

  /** Weights of the three subtrees a single rotation regroups: the heavy
      child's outer subtree `a`, its inner subtree `b`, and the light side
      `c`; `heavy` is the weight of the heavy child itself. */
  lemma SingleRotationBalanced(a: int, b: int, heavy: int, c: int)
    requires a >= 1 && b >= 1 && c >= 1 && heavy == a + b
    requires Balanced(a, b) && OneOffBalanced(heavy, c)
    requires DELTA_NUM * c < DELTA_DEN * heavy && GAMMA_DEN * b < GAMMA_NUM * a
    ensures Balanced(b, c) && Balanced(a, b + c)
  {
  }

  /** Weights of the four subtrees a double rotation regroups: the heavy
      child's outer subtree `a`, the two halves `b1`, `b2` of its inner
      subtree (of weight `inner`), and the light side `c`; `heavy` is the
      weight of the heavy child itself. */
  lemma DoubleRotationBalanced(a: int, b1: int, b2: int, inner: int, heavy: int, c: int)
    requires a >= 1 && b1 >= 1 && b2 >= 1 && c >= 1 && inner == b1 + b2 && heavy == a + inner
    requires Balanced(a, inner) && Balanced(b1, b2) && OneOffBalanced(heavy, c)
    requires DELTA_NUM * c < DELTA_DEN * heavy && GAMMA_DEN * inner >= GAMMA_NUM * a
    ensures Balanced(a, b1) && Balanced(b2, c) && Balanced(a + b1, b2 + c)
  {
  }

  /** One rebalancing step restores the DELTA = 5/2 balance of every node
      after a single insertion or removal below a balanced node: with
      GAMMA = 3/2, both the single and the double rotation leave all three
      rebuilt nodes balanced. */
  lemma RebalanceRestoresBalance(l: Tree, x: int, r: Tree)
    requires Sized(l) && Sized(r) && WeightBalanced(l) && WeightBalanced(r)
    requires OneOffBalanced(Weight(l), Weight(r))
    ensures WeightBalanced(Rebalance(l, x, r))
  {
    if DELTA_NUM * Weight(r) < DELTA_DEN * Weight(l) {
      if GAMMA_DEN * Weight(l.right) < GAMMA_NUM * Weight(l.left) {
        LeftHeavySingle(l, r);
        SingleRightBalanced(l, x, r);
      } else {
        LeftHeavyDouble(l, r);
        DoubleRightBalanced(l, x, r);
      }
    } else if DELTA_NUM * Weight(l) < DELTA_DEN * Weight(r) {
      if GAMMA_DEN * Weight(r.left) < GAMMA_NUM * Weight(r.right) {
        RightHeavySingle(l, r);
        SingleLeftBalanced(l, x, r);
      } else {
        RightHeavyDouble(l, r);
        DoubleLeftBalanced(l, x, r);
      }
    }
  }

  /** Left side too heavy, its inner subtree light: the two nodes a single
      right rotation rebuilds are balanced. */
  lemma LeftHeavySingle(l: Tree, r: Tree)
    requires Sized(l) && WeightBalanced(l)
    requires OneOffBalanced(Weight(l), Weight(r)) && DELTA_NUM * Weight(r) < DELTA_DEN * Weight(l)
    requires l.Node? && GAMMA_DEN * Weight(l.right) < GAMMA_NUM * Weight(l.left)
    ensures Balanced(Weight(l.right), Weight(r)) && Balanced(Weight(l.left), Weight(l.right) + Weight(r))
  {
    SingleRotationBalanced(Weight(l.left), Weight(l.right), Weight(l), Weight(r));
  }

  /** Left side too heavy, its inner subtree heavy: the three nodes a double
      right rotation rebuilds are balanced. */
  lemma LeftHeavyDouble(l: Tree, r: Tree)
    requires Sized(l) && WeightBalanced(l)
    requires OneOffBalanced(Weight(l), Weight(r)) && DELTA_NUM * Weight(r) < DELTA_DEN * Weight(l)
    requires l.Node? && GAMMA_DEN * Weight(l.right) >= GAMMA_NUM * Weight(l.left)
    ensures l.right.Node?
    ensures var lr := l.right;
      && Balanced(Weight(l.left), Weight(lr.left)) && Balanced(Weight(lr.right), Weight(r))
      && Balanced(Weight(l.left) + Weight(lr.left), Weight(lr.right) + Weight(r))
  {
    var lr := l.right;
    assert Sized(lr) && WeightBalanced(lr);
    DoubleRotationBalanced(Weight(l.left), Weight(lr.left), Weight(lr.right), Weight(lr), Weight(l), Weight(r));
  }

  /** Right side too heavy, its inner subtree light: the two nodes a single
      left rotation rebuilds are balanced. */
  lemma RightHeavySingle(l: Tree, r: Tree)
    requires Sized(r) && WeightBalanced(r)
    requires OneOffBalanced(Weight(l), Weight(r)) && DELTA_NUM * Weight(l) < DELTA_DEN * Weight(r)
    requires r.Node? && GAMMA_DEN * Weight(r.left) < GAMMA_NUM * Weight(r.right)
    ensures Balanced(Weight(l), Weight(r.left)) && Balanced(Weight(l) + Weight(r.left), Weight(r.right))
  {
    OneOffSymmetric(Weight(l), Weight(r));
    SingleRotationBalanced(Weight(r.right), Weight(r.left), Weight(r), Weight(l));
  }

  /** Right side too heavy, its inner subtree heavy: the three nodes a double
      left rotation rebuilds are balanced. */
  lemma RightHeavyDouble(l: Tree, r: Tree)
    requires Sized(r) && WeightBalanced(r)
    requires OneOffBalanced(Weight(l), Weight(r)) && DELTA_NUM * Weight(l) < DELTA_DEN * Weight(r)
    requires r.Node? && GAMMA_DEN * Weight(r.left) >= GAMMA_NUM * Weight(r.right)
    ensures r.left.Node?
    ensures var rl := r.left;
      && Balanced(Weight(l), Weight(rl.left)) && Balanced(Weight(rl.right), Weight(r.right))
      && Balanced(Weight(l) + Weight(rl.left), Weight(rl.right) + Weight(r.right))
  {
    var rl := r.left;
    assert Sized(rl) && WeightBalanced(rl);
    OneOffSymmetric(Weight(l), Weight(r));
    DoubleRotationBalanced(Weight(r.right), Weight(rl.right), Weight(rl.left), Weight(rl), Weight(r), Weight(l));
  }

  /** A single right rotation is balanced when its two rebuilt nodes are. */
  lemma SingleRightBalanced(l: Tree, x: int, r: Tree)
    requires l.Node? && Sized(l) && Sized(r) && WeightBalanced(l) && WeightBalanced(r)
    requires Balanced(Weight(l.right), Weight(r)) && Balanced(Weight(l.left), Weight(l.right) + Weight(r))
    ensures WeightBalanced(SingleRight(l, x, r))
  {
  }

  /** A double right rotation is balanced when its three rebuilt nodes are. */
  lemma DoubleRightBalanced(l: Tree, x: int, r: Tree)
    requires l.Node? && l.right.Node? && Sized(l) && Sized(r) && WeightBalanced(l) && WeightBalanced(r)
    requires var lr := l.right;
      && Balanced(Weight(l.left), Weight(lr.left)) && Balanced(Weight(lr.right), Weight(r))
      && Balanced(Weight(l.left) + Weight(lr.left), Weight(lr.right) + Weight(r))
    ensures WeightBalanced(DoubleRight(l, x, r))
  {
    assert Sized(l.right) && WeightBalanced(l.right);
  }

  /** A single left rotation is balanced when its two rebuilt nodes are. */
  lemma SingleLeftBalanced(l: Tree, x: int, r: Tree)
    requires r.Node? && Sized(l) && Sized(r) && WeightBalanced(l) && WeightBalanced(r)
    requires Balanced(Weight(l), Weight(r.left)) && Balanced(Weight(l) + Weight(r.left), Weight(r.right))
    ensures WeightBalanced(SingleLeft(l, x, r))
  {
  }

  /** A double left rotation is balanced when its three rebuilt nodes are. */
  lemma DoubleLeftBalanced(l: Tree, x: int, r: Tree)
    requires r.Node? && r.left.Node? && Sized(l) && Sized(r) && WeightBalanced(l) && WeightBalanced(r)
    requires var rl := r.left;
      && Balanced(Weight(l), Weight(rl.left)) && Balanced(Weight(rl.right), Weight(r.right))
      && Balanced(Weight(l) + Weight(rl.left), Weight(rl.right) + Weight(r.right))
    ensures WeightBalanced(DoubleLeft(l, x, r))
  {
    assert Sized(r.left) && WeightBalanced(r.left);
  }

  /** A balanced node is left alone by the rebalancing step. */
  lemma RebalanceKeepsBalancedNode(l: Tree, x: int, r: Tree)
    requires Sized(l) && Sized(r) && Balanced(Weight(l), Weight(r))
    ensures Rebalance(l, x, r) == Make(l, x, r)
  {
  }
}
