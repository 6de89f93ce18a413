/** Ordering facts about in-order key sequences, shared by both containers.
    Both trees are instantiated over `int` keys compared with `<`, as the
    library's own test program does. */
module Ordered {

  /** An optional node reference, as the NULL-able bound pointers of the
      test program's validity functions. */
  datatype Option<T> = None | Some(value: T)

  /** Keys appear in strictly increasing order (no two equivalent keys). */
  predicate Increasing(s: seq<int>) {
    forall i, j | 0 <= i < j < |s| :: s[i] < s[j]
  }

  /** Every key of `s` is smaller than `x`. */
  predicate Below(s: seq<int>, x: int) {
    forall e | e in s :: e < x
  }

  /** Every key of `s` is larger than `x`. */
  predicate Above(s: seq<int>, x: int) {
    forall e | e in s :: x < e
  }

  /** A sequence around a separator is increasing exactly when both sides are
      increasing and lie on the correct side of the separator. */
  lemma IncreasingAround(a: seq<int>, x: int, b: seq<int>)
    ensures Increasing(a + [x] + b) <==> Increasing(a) && Below(a, x) && Above(b, x) && Increasing(b)
  {
    var s := a + [x] + b;
    if Increasing(s) {
      forall i, j | 0 <= i < j < |a| ensures a[i] < a[j] {
        assert a[i] == s[i] && a[j] == s[j];
      }
      forall e | e in a ensures e < x {
        var i :| 0 <= i < |a| && a[i] == e;
        assert s[i] == e && s[|a|] == x;
      }
      forall e | e in b ensures x < e {
        var i :| 0 <= i < |b| && b[i] == e;
        assert s[|a| + 1 + i] == e && s[|a|] == x;
      }
      forall i, j | 0 <= i < j < |b| ensures b[i] < b[j] {
        assert b[i] == s[|a| + 1 + i] && b[j] == s[|a| + 1 + j];
      }
    }
    if Increasing(a) && Below(a, x) && Above(b, x) && Increasing(b) {
      forall i, j | 0 <= i < j < |s| ensures s[i] < s[j] {
        if j < |a| {
          assert s[i] == a[i] && s[j] == a[j];
        } else if j == |a| {
          assert s[i] == a[i] && a[i] in a;
        } else if i < |a| {
          assert s[i] == a[i] && a[i] in a;
          assert s[j] == b[j - |a| - 1] && b[j - |a| - 1] in b;
        } else if i == |a| {
          assert s[j] == b[j - |a| - 1] && b[j - |a| - 1] in b;
        } else {
          assert s[i] == b[i - |a| - 1] && s[j] == b[j - |a| - 1];
        }
      }
    }
  }

  /** Any contiguous slice of an increasing sequence is increasing. */
  lemma IncreasingSlice(s: seq<int>, lo: int, hi: int)
    requires Increasing(s) && 0 <= lo <= hi <= |s|
    ensures Increasing(s[lo..hi])
  {
    forall i, j | 0 <= i < j < hi - lo ensures s[lo..hi][i] < s[lo..hi][j] {
      assert s[lo..hi][i] == s[lo + i] && s[lo..hi][j] == s[lo + j];
    }
  }

  /** Dropping the separator of an increasing sequence leaves an increasing
      sequence that no longer contains it. */
  lemma DropSeparator(a: seq<int>, x: int, b: seq<int>)
    requires Increasing(a + [x] + b)
    ensures Increasing(a + b) && x !in a + b
  {
    IncreasingAround(a, x, b);
    forall i, j | 0 <= i < j < |a + b| ensures (a + b)[i] < (a + b)[j] {
      if j < |a| {
        assert (a + b)[i] == a[i] && (a + b)[j] == a[j];
      } else if i < |a| {
        assert (a + b)[i] == a[i] && a[i] in a;
        assert (a + b)[j] == b[j - |a|] && b[j - |a|] in b;
      } else {
        assert (a + b)[i] == b[i - |a|] && (a + b)[j] == b[j - |a|];
      }
    }
  }

  /** Equal sequences with equal prefixes have equal remainders. */
  lemma CancelPrefix(p: seq<int>, q1: seq<int>, q2: seq<int>)
    requires p + q1 == p + q2
    ensures q1 == q2
  {
    assert q1 == (p + q1)[|p|..];
    assert q2 == (p + q2)[|p|..];
  }

  /** Equal sequences with equal suffixes have equal beginnings. */
  lemma CancelSuffix(p1: seq<int>, p2: seq<int>, q: seq<int>)
    requires p1 + q == p2 + q
    ensures p1 == p2
  {
    assert p1 == (p1 + q)[..|p1|];
    assert p2 == (p2 + q)[..|p2|];
  }

  /** If `y` heads what follows the separator `x`, then `y` is the key
      immediately after `x`. */
  lemma FirstAfterSeparator(a: seq<int>, x: int, y: int, c: seq<int>)
    requires Below(a, x) && x < y && Above(c, y)
    ensures forall e | e in a + [x] + ([y] + c) :: e <= x || y <= e
  {
  }

  /** If `y` ends what comes before the separator `x`, then `y` is the key
      immediately before `x`. */
  lemma LastBeforeSeparator(c: seq<int>, y: int, x: int, b: seq<int>)
    requires Below(c, y) && y < x && Above(b, x)
    ensures forall e | e in (c + [y]) + [x] + b :: x <= e || e <= y
  {
  }

  /** Deleting one position of an increasing sequence keeps it increasing. */
  lemma IncreasingWithout(s: seq<int>, k: int)
    requires Increasing(s) && 0 <= k < |s|
    ensures Increasing(s[..k] + s[k + 1..])
  {
    assert s == s[..k] + [s[k]] + s[k + 1..];
    DropSeparator(s[..k], s[k], s[k + 1..]);
  }

  /** Regrouping a sequence around an element in the middle. */
  lemma Regroup(p: seq<int>, a: seq<int>, x: int, b: seq<int>, q: seq<int>)
    ensures p + (a + [x] + b) + q == p + a + ([x] + b + q)
    ensures p + (a + [x] + b) + q == (p + a + [x]) + b + q
    ensures p + (a + [x] + b) + q == (p + a) + [x] + (b + q)
  {
  }

  /** Going left of `x` while searching for `key < x`: the left part stays
      increasing and everything from `x` on lies above `key`. */
  lemma SearchLeft(a: seq<int>, x: int, b: seq<int>, q: seq<int>, key: int)
    requires Increasing(a + [x] + b) && key < x && Above(q, key)
    ensures Increasing(a) && Above([x] + b + q, key)
  {
    IncreasingAround(a, x, b);
  }

  /** Going right of `x` while searching for `key > x`: the right part stays
      increasing and everything up to `x` lies below `key`. */
  lemma SearchRight(p: seq<int>, a: seq<int>, x: int, b: seq<int>, key: int)
    requires Increasing(a + [x] + b) && x < key && Below(p, key)
    ensures Increasing(b) && Below(p + a + [x], key)
  {
    IncreasingAround(a, x, b);
  }

  /** Cutting `a + [x] + b` at a position inside `a`. */
  lemma CutLeft(a: seq<int>, x: int, b: seq<int>, k: int)
    requires 0 <= k <= |a|
    ensures (a + [x] + b)[..k] == a[..k]
    ensures (a + [x] + b)[k..] == a[k..] + [x] + b
  {
  }

  /** Cutting `a + [x] + b` at a position inside `b`. */
  lemma CutRight(a: seq<int>, x: int, b: seq<int>, k: int)
    requires 0 <= k <= |b|
    ensures (a + [x] + b)[..|a| + 1 + k] == a + [x] + b[..k]
    ensures (a + [x] + b)[|a| + 1 + k..] == b[k..]
  {
  }

  /** Splicing `y` into the left part of `a + [x] + b` at position `k`. */
  lemma SpliceLeft(a: seq<int>, x: int, b: seq<int>, k: int, y: int)
    requires 0 <= k <= |a|
    ensures (a[..k] + [y] + a[k..]) + [x] + b == (a + [x] + b)[..k] + [y] + (a + [x] + b)[k..]
  {
    CutLeft(a, x, b, k);
  }

  /** Splicing `y` into the right part of `a + [x] + b` at position `k` of
      `b`. */
  lemma SpliceRight(a: seq<int>, x: int, b: seq<int>, k: int, y: int)
    requires 0 <= k <= |b|
    ensures a + [x] + (b[..k] + [y] + b[k..]) == (a + [x] + b)[..|a| + 1 + k] + [y] + (a + [x] + b)[|a| + 1 + k..]
  {
    CutRight(a, x, b, k);
  }

  /** Deleting position `k` of the left part of `a + [x] + b`. */
  lemma DeleteLeft(a: seq<int>, x: int, b: seq<int>, k: int)
    requires 0 <= k < |a|
    ensures (a[..k] + a[k + 1..]) + [x] + b == (a + [x] + b)[..k] + (a + [x] + b)[k + 1..]
  {
    CutLeft(a, x, b, k);
    CutLeft(a, x, b, k + 1);
  }

  /** Deleting position `k` of the right part of `a + [x] + b`. */
  lemma DeleteRight(a: seq<int>, x: int, b: seq<int>, k: int)
    requires 0 <= k < |b|
    ensures a + [x] + (b[..k] + b[k + 1..]) == (a + [x] + b)[..|a| + 1 + k] + (a + [x] + b)[|a| + 1 + k + 1..]
  {
    CutRight(a, x, b, k);
    CutRight(a, x, b, k + 1);
  }

  /** Keys on the correct sides of a splice point give an increasing
      splice. */
  lemma SpliceIncreasing(s: seq<int>, k: int, y: int)
    requires Increasing(s) && 0 <= k <= |s| && Below(s[..k], y) && Above(s[k..], y)
    ensures Increasing(s[..k] + [y] + s[k..])
  {
    IncreasingSlice(s, 0, k);
    IncreasingSlice(s, k, |s|);
    assert s[0..k] == s[..k] && s[k..|s|] == s[k..];
    IncreasingAround(s[..k], y, s[k..]);
  }

  /** Deleting the separator of `a + [x] + b` leaves `a + b`. */
  lemma DeleteMiddle(a: seq<int>, x: int, b: seq<int>)
    ensures (a + [x] + b)[..|a|] == a
    ensures (a + [x] + b)[|a| + 1..] == b
  {
  }

  /** A prefix `p` joined to the left of a node's keys `a + [x] + b`. */
  lemma Reassociate(p: seq<int>, a: seq<int>, x: int, b: seq<int>)
    ensures (p + a) + [x] + b == p + (a + [x] + b)
    ensures (p + a + [x]) + b == p + (a + [x] + b)
  {
  }

  /** A suffix `q` joined to the right of a node's keys `a + [x] + b`. */
  lemma ReassociateRight(a: seq<int>, x: int, b: seq<int>, q: seq<int>)
    ensures a + [x] + (b + q) == (a + [x] + b) + q
    ensures a + ([x] + b + q) == (a + [x] + b) + q
  {
  }

  /** The in-order sequences of the two sides of a single rotation. */
  lemma RotateSingle(a: seq<int>, x: int, b: seq<int>, y: int, c: seq<int>)
    ensures (a + [x] + b) + [y] + c == a + [x] + (b + [y] + c)
  {
  }

  /** The in-order sequences of a double rotation and of the two nestings it
      replaces. */
  lemma RotateDouble(a: seq<int>, x: int, b: seq<int>, y: int, c: seq<int>, z: int, d: seq<int>)
    ensures (a + [x] + b) + [y] + (c + [z] + d) == (a + [x] + (b + [y] + c)) + [z] + d
    ensures (a + [x] + b) + [y] + (c + [z] + d) == a + [x] + ((b + [y] + c) + [z] + d)
  {
  }

  /** Every key of `s` lies strictly inside the optional bounds. */
  predicate Bounded(s: seq<int>, less: Option<int>, more: Option<int>) {
    && (less.Some? ==> Above(s, less.value))
    && (more.Some? ==> Below(s, more.value))
  }

  /** A sequence split at a separator `x` lies within bounds, with its two
      sides on the correct sides of `x`, exactly when `x` is within the
      bounds and each side is within the bounds that `x` tightens. */
  lemma BoundedAtSeparator(a: seq<int>, x: int, b: seq<int>, less: Option<int>, more: Option<int>)
    ensures Below(a, x) && Above(b, x) && Bounded(a + [x] + b, less, more)
        <==> && (less.Some? ==> less.value < x) && (more.Some? ==> x < more.value)
             && Bounded(a, less, Some(x)) && Bounded(b, Some(x), more)
  {
    var s := a + [x] + b;
    assert x in s;
    if Below(a, x) && Above(b, x) && Bounded(s, less, more) {
      forall e | e in a ensures e in s { }
      forall e | e in b ensures e in s { }
    }
  }

  /** An increasing sequence within bounds, split at a separator: both
      sides are increasing and within the bounds that the separator
      tightens, and the separator itself is within the outer bounds. */
  lemma BoundedAround(a: seq<int>, x: int, b: seq<int>, less: Option<int>, more: Option<int>)
    ensures Increasing(a + [x] + b) && Bounded(a + [x] + b, less, more)
        <==> && (less.Some? ==> less.value < x) && (more.Some? ==> x < more.value)
             && Increasing(a) && Bounded(a, less, Some(x))
             && Increasing(b) && Bounded(b, Some(x), more)
  {
    IncreasingAround(a, x, b);
    BoundedAtSeparator(a, x, b, less, more);
  }

  /** Putting the head of `b` back in front of its tail. */
  lemma RejoinHead(a: seq<int>, b: seq<int>)
    requires |b| > 0
    ensures a + [b[0]] + b[1..] == a + b
  {
    assert b == [b[0]] + b[1..];
  }

  /** The number of keys of `s` smaller than `key`; `CountBelowAtSplit` and
      `PositionCountsBelow` say what it is in a sorted sequence. */
  function CountBelow(s: seq<int>, key: int): nat {
    if |s| == 0 then 0 else (if s[0] < key then 1 else 0) + CountBelow(s[1..], key)
  }

  /** When the first `k` keys are smaller than `key` and the others are not,
      exactly `k` keys are smaller than `key`. */
  lemma {:induction false} CountBelowAtSplit(s: seq<int>, k: nat, key: int)
    requires k <= |s| && Below(s[..k], key) && (forall e | e in s[k..] :: key <= e)
    ensures CountBelow(s, key) == k
  {
    if |s| > 0 {
      if k == 0 {
        assert s[0] in s[0..];
        var rest := s[1..][0..];
        forall e | e in rest ensures key <= e {
          assert e in s[0..];
        }
        CountBelowAtSplit(s[1..], 0, key);
      } else {
        assert s[0] in s[..k];
        var front := s[1..][..k - 1];
        forall e | e in front ensures e < key {
          assert e in s[..k];
        }
        assert s[1..][k - 1..] == s[k..];
        CountBelowAtSplit(s[1..], k - 1, key);
      }
    }
  }

  /** In an increasing sequence the keys before position `k` are smaller
      than `s[k]` and the keys from `k` on are not. */
  lemma SplitAtPosition(s: seq<int>, k: int)
    requires Increasing(s) && 0 <= k < |s|
    ensures Below(s[..k], s[k]) && (forall e | e in s[k..] :: s[k] <= e)
  {
    forall e | e in s[..k] ensures e < s[k] {
      var i :| 0 <= i < k && s[..k][i] == e;
    }
    forall e | e in s[k..] ensures s[k] <= e {
      var i :| 0 <= i < |s| - k && s[k..][i] == e;
      assert s[k + i] == e;
    }
  }

  /** In an increasing sequence the position of a key is the number of keys
      below it. */
  lemma PositionCountsBelow(s: seq<int>, k: int)
    requires Increasing(s) && 0 <= k < |s|
    ensures CountBelow(s, s[k]) == k
  {
    SplitAtPosition(s, k);
    CountBelowAtSplit(s, k, s[k]);
  }
}
