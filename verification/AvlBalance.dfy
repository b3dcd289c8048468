/** Restoring balance after a subtree has grown or shrunk by one level. */
module AvlBalance {
  import opened AvlTree

  /** Pool entries outside the tree and all payloads are as before. */
  ghost predicate OnlyLinks(pool: seq<Entry>, t: Tree, pool': seq<Entry>) {
    && |pool'| == |pool|
    && (forall i {:trigger pool'[i]} :: 0 <= i < |pool| ==> pool'[i].payload == pool[i].payload)
    && (forall i {:trigger pool'[i]} :: 0 <= i < |pool| && i !in Ids(t) ==> pool'[i] == pool[i])
  }

  /** A subtree that has just grown: a new leaf, or a tree that leans. */
  ghost predicate Grown(t: Tree) {
    t.Node? && Balanced(t) && (Height(t) == 1 || !t.skew.SkewNone?)
  }

  /** Before LeftGrown: the left subtree is one level higher than the skew of n says. */
  ghost predicate LeftHasGrown(t: Tree) {
    t.Node? && NoSharing(t) && Ordered(t) && Grown(t.left) && Balanced(t.right) && Leans(t.skew, Height(t.left) - 1, Height(t.right))
  }

  ghost predicate RightHasGrown(t: Tree) {
    t.Node? && NoSharing(t) && Ordered(t) && Balanced(t.left) && Grown(t.right) && Leans(t.skew, Height(t.left), Height(t.right) - 1)
  }

  /** Before LeftShrunk: the left subtree is one level lower than the skew of n says. */
  ghost predicate LeftHasShrunk(t: Tree) {
    t.Node? && NoSharing(t) && Ordered(t) && Balanced(t.left) && Balanced(t.right) && Leans(t.skew, Height(t.left) + 1, Height(t.right))
  }

  ghost predicate RightHasShrunk(t: Tree) {
    t.Node? && NoSharing(t) && Ordered(t) && Balanced(t.left) && Balanced(t.right) && Leans(t.skew, Height(t.left), Height(t.right) + 1)
  }

  /** The subtrees of a rotated node are where they were. */
  lemma ParentChanged(pool: seq<Entry>, t: Tree, pool': seq<Entry>)
    requires t.Node? && Holds(pool, t) && NoSharing(t) && |pool'| == |pool|
    requires forall i {:trigger pool'[i]} :: 0 <= i < |pool| && i != t.id ==> pool'[i] == pool[i]
    ensures Holds(pool', t.left) && Holds(pool', t.right)
  {
    HoldsFrame(pool, pool', t.left);
    HoldsFrame(pool, pool', t.right);
  }

  /** Sets the skew flags of n and its left child, then rotates right. */
  method SingleRight(pool: array<Entry>, n: nat, top: Skew, bottom: Skew, ghost t: Tree) returns (n': nat, ghost t': Tree)
    requires Holds(pool[..], t) && t.Node? && t.left.Node? && n == t.id && NoSharing(t) && Ordered(t)
    modifies pool
    ensures t' == RotatedRight(t, top, bottom) && n' == t'.id
    ensures OnlyLinks(old(pool[..]), t, pool[..]) && Holds(pool[..], t') && Rearranged(t, t')
  {
    ghost var before := pool[..];
    var left := pool[n].left;
    pool[n] := pool[n].(skew := top);
    pool[left] := pool[left].(skew := bottom);
    n' := RotateRight(pool, n);
    t' := RotatedRight(t, top, bottom);
    RightRotation(t, top, bottom);
    HoldsFrame(before, pool[..], t.left.left);
    HoldsFrame(before, pool[..], t.left.right);
    HoldsFrame(before, pool[..], t.right);
  }

  method SingleLeft(pool: array<Entry>, n: nat, top: Skew, bottom: Skew, ghost t: Tree) returns (n': nat, ghost t': Tree)
    requires Holds(pool[..], t) && t.Node? && t.right.Node? && n == t.id && NoSharing(t) && Ordered(t)
    modifies pool
    ensures t' == RotatedLeft(t, top, bottom) && n' == t'.id
    ensures OnlyLinks(old(pool[..]), t, pool[..]) && Holds(pool[..], t') && Rearranged(t, t')
  {
    ghost var before := pool[..];
    var right := pool[n].right;
    pool[n] := pool[n].(skew := top);
    pool[right] := pool[right].(skew := bottom);
    n' := RotateLeft(pool, n);
    t' := RotatedLeft(t, top, bottom);
    LeftRotation(t, top, bottom);
    HoldsFrame(before, pool[..], t.left);
    HoldsFrame(before, pool[..], t.right.left);
    HoldsFrame(before, pool[..], t.right.right);
  }

  // Double rotations.

  function WithLeft(t: Tree, left: Tree): Tree
    requires t.Node?
  {
    Node(t.id, left, t.skew, t.payload, t.right)
  }

  function WithRight(t: Tree, right: Tree): Tree
    requires t.Node?
  {
    Node(t.id, t.left, t.skew, t.payload, right)
  }

  lemma LeftReplaced(t: Tree, left: Tree)
    requires t.Node? && NoSharing(t) && Ordered(t) && Rearranged(t.left, left)
    ensures Rearranged(t, WithLeft(t, left))
  {
  }

  lemma RightReplaced(t: Tree, right: Tree)
    requires t.Node? && NoSharing(t) && Ordered(t) && Rearranged(t.right, right)
    ensures Rearranged(t, WithRight(t, right))
  {
  }

  function RotatedLeftRight(t: Tree, top: Skew, inner: Skew): Tree
    requires t.Node? && t.left.Node? && t.left.right.Node?
  {
    RotatedRight(WithLeft(t, RotatedLeft(t.left, inner, SkewNone)), top, SkewNone)
  }

  function RotatedRightLeft(t: Tree, top: Skew, inner: Skew): Tree
    requires t.Node? && t.right.Node? && t.right.left.Node?
  {
    RotatedLeft(WithRight(t, RotatedRight(t.right, inner, SkewNone)), top, SkewNone)
  }

  function IfLeft(s: Skew): Skew { if s.SkewLeft? then SkewRight else SkewNone }
  function IfRight(s: Skew): Skew { if s.SkewRight? then SkewLeft else SkewNone }

  lemma LeftRightBalanced(t: Tree)
    requires t.Node? && Balanced(t.left) && Balanced(t.right) && Height(t.left) == Height(t.right) + 2 && t.left.skew.SkewRight?
    ensures t.left.right.Node?
    ensures var s := t.left.right.skew; var t' := RotatedLeftRight(t, IfLeft(s), IfRight(s));
      Balanced(t') && Height(t') == Height(t) - 1
  {
    var b := t.left.right;
    assert b.Node?;
    assert Balanced(b);
  }

  lemma RightLeftBalanced(t: Tree)
    requires t.Node? && Balanced(t.left) && Balanced(t.right) && Height(t.right) == Height(t.left) + 2 && t.right.skew.SkewLeft?
    ensures t.right.left.Node?
    ensures var s := t.right.left.skew; var t' := RotatedRightLeft(t, IfRight(s), IfLeft(s));
      Balanced(t') && Height(t') == Height(t) - 1
  {
    var b := t.right.left;
    assert b.Node?;
    assert Balanced(b);
  }

  /** The left child of n leans right: its right child comes on top. */
  method DoubleRight(pool: array<Entry>, n: nat, ghost t: Tree) returns (n': nat, ghost t': Tree)
    requires Holds(pool[..], t) && t.Node? && n == t.id && NoSharing(t) && Ordered(t)
    requires t.left.Node? && t.left.right.Node?
    modifies pool
    ensures var s := t.left.right.skew; t' == RotatedLeftRight(t, IfLeft(s), IfRight(s))
    ensures OnlyLinks(old(pool[..]), t, pool[..]) && Holds(pool[..], t') && n' == Root(t') && Rearranged(t, t')
  {
    ghost var before := pool[..];
    assert Holds(before, t.left) && Holds(before, t.left.right);
    var left := pool[n].left;
    var right := pool[left].right;
    var skew, skewLeft := SkewNone, SkewNone;
    match pool[right].skew {
      case SkewLeft => skew := SkewRight;
      case SkewRight => skewLeft := SkewLeft;
      case SkewNone =>
    }
    ghost var inner: Tree;
    var child: nat;
    child, inner := SingleLeft(pool, left, skewLeft, SkewNone, t.left);
    ghost var middle := pool[..];
    assert middle[n] == before[n];
    pool[n] := pool[n].(left := child);
    HoldsFrame(before, middle, t.right);
    HoldsFrame(middle, pool[..], t.right);
    HoldsFrame(middle, pool[..], inner);
    LeftReplaced(t, inner);
    n', t' := SingleRight(pool, n, skew, SkewNone, WithLeft(t, inner));
  }

  method DoubleLeft(pool: array<Entry>, n: nat, ghost t: Tree) returns (n': nat, ghost t': Tree)
    requires Holds(pool[..], t) && t.Node? && n == t.id && NoSharing(t) && Ordered(t)
    requires t.right.Node? && t.right.left.Node?
    modifies pool
    ensures var s := t.right.left.skew; t' == RotatedRightLeft(t, IfRight(s), IfLeft(s))
    ensures OnlyLinks(old(pool[..]), t, pool[..]) && Holds(pool[..], t') && n' == Root(t') && Rearranged(t, t')
  {
    ghost var before := pool[..];
    assert Holds(before, t.right) && Holds(before, t.right.left);
    var right := pool[n].right;
    var left := pool[right].left;
    var skew, skewRight := SkewNone, SkewNone;
    match pool[left].skew {
      case SkewRight => skew := SkewLeft;
      case SkewLeft => skewRight := SkewRight;
      case SkewNone =>
    }
    ghost var inner: Tree;
    var child: nat;
    child, inner := SingleRight(pool, right, skewRight, SkewNone, t.right);
    ghost var middle := pool[..];
    assert middle[n] == before[n];
    pool[n] := pool[n].(right := child);
    HoldsFrame(before, middle, t.left);
    HoldsFrame(middle, pool[..], t.left);
    HoldsFrame(middle, pool[..], inner);
    RightReplaced(t, inner);
    n', t' := SingleLeft(pool, n, skew, SkewNone, WithRight(t, inner));
  }

  // The four cases of the source.

  /** The height t had, or would have had, with subtrees of these heights. */
  function Above(left: int, right: int): int {
    1 + if left < right then right else left
  }

  /** The pool holds t' instead of t, which is balanced again. */
  ghost predicate Restored(pool: seq<Entry>, t: Tree, pool': seq<Entry>, n: int, t': Tree) {
    && OnlyLinks(pool, t, pool') && Holds(pool', t') && n == Root(t') && t'.Node?
    && Rearranged(t, t') && Balanced(t')
  }

  method SetSkew(pool: array<Entry>, n: nat, skew: Skew, ghost t: Tree) returns (ghost t': Tree)
    requires Holds(pool[..], t) && t.Node? && n == t.id && NoSharing(t) && Ordered(t)
    modifies pool
    ensures t' == Node(n, t.left, skew, t.payload, t.right)
    ensures OnlyLinks(old(pool[..]), t, pool[..]) && Holds(pool[..], t') && Rearranged(t, t')
  {
    ghost var before := pool[..];
    pool[n] := pool[n].(skew := skew);
    t' := Node(n, t.left, skew, t.payload, t.right);
    ParentChanged(before, t, pool[..]);
  }

  /** The left subtree of n has grown. ResBalance: so has n. */
  method LeftGrown(pool: array<Entry>, n: nat, ghost t: Tree) returns (n': nat, res: Result, ghost t': Tree)
    requires Holds(pool[..], t) && LeftHasGrown(t) && n == t.id
    modifies pool
    ensures Restored(old(pool[..]), t, pool[..], n', t')
    ensures res.ResOk? || (res.ResBalance? && Grown(t'))
    ensures Height(t') == Above(Height(t.left) - 1, Height(t.right)) + if res.ResBalance? then 1 else 0
  {
    n', res := n, ResOk;
    match pool[n].skew {
      case SkewLeft =>
        assert Holds(pool[..], t.left);
        if pool[pool[n].left].skew.SkewLeft? {
          n', t' := SingleRight(pool, n, SkewNone, SkewNone, t);
        } else {
          LeftRightBalanced(t);
          n', t' := DoubleRight(pool, n, t);
        }
      case SkewRight =>
        t' := SetSkew(pool, n, SkewNone, t);
      case SkewNone =>
        t' := SetSkew(pool, n, SkewLeft, t);
        res := ResBalance;
    }
  }

  /** The right subtree of n has grown. ResBalance: so has n. */
  method RightGrown(pool: array<Entry>, n: nat, ghost t: Tree) returns (n': nat, res: Result, ghost t': Tree)
    requires Holds(pool[..], t) && RightHasGrown(t) && n == t.id
    modifies pool
    ensures Restored(old(pool[..]), t, pool[..], n', t')
    ensures res.ResOk? || (res.ResBalance? && Grown(t'))
    ensures Height(t') == Above(Height(t.left), Height(t.right) - 1) + if res.ResBalance? then 1 else 0
  {
    n', res := n, ResOk;
    match pool[n].skew {
      case SkewLeft =>
        t' := SetSkew(pool, n, SkewNone, t);
      case SkewRight =>
        assert Holds(pool[..], t.right);
        if pool[pool[n].right].skew.SkewRight? {
          n', t' := SingleLeft(pool, n, SkewNone, SkewNone, t);
        } else {
          RightLeftBalanced(t);
          n', t' := DoubleLeft(pool, n, t);
        }
      case SkewNone =>
        t' := SetSkew(pool, n, SkewRight, t);
        res := ResBalance;
    }
  }

  /** The left subtree of n has shrunk. ResBalance: so has n. */
  method LeftShrunk(pool: array<Entry>, n: nat, ghost t: Tree) returns (n': nat, res: Result, ghost t': Tree)
    requires Holds(pool[..], t) && LeftHasShrunk(t) && n == t.id
    modifies pool
    ensures Restored(old(pool[..]), t, pool[..], n', t')
    ensures res.ResOk? || res.ResBalance?
    ensures Height(t') == Above(Height(t.left) + 1, Height(t.right)) - if res.ResBalance? then 1 else 0
  {
    n', res := n, ResBalance;
    match pool[n].skew {
      case SkewLeft =>
        t' := SetSkew(pool, n, SkewNone, t);
      case SkewRight =>
        assert Holds(pool[..], t.right);
        match pool[pool[n].right].skew {
          case SkewRight =>
            n', t' := SingleLeft(pool, n, SkewNone, SkewNone, t);
          case SkewNone =>
            n', t' := SingleLeft(pool, n, SkewRight, SkewLeft, t);
            res := ResOk;
          case SkewLeft =>
            RightLeftBalanced(t);
            n', t' := DoubleLeft(pool, n, t);
        }
      case SkewNone =>
        t' := SetSkew(pool, n, SkewRight, t);
        res := ResOk;
    }
  }

  /** The right subtree of n has shrunk. ResBalance: so has n. */
  method RightShrunk(pool: array<Entry>, n: nat, ghost t: Tree) returns (n': nat, res: Result, ghost t': Tree)
    requires Holds(pool[..], t) && RightHasShrunk(t) && n == t.id
    modifies pool
    ensures Restored(old(pool[..]), t, pool[..], n', t')
    ensures res.ResOk? || res.ResBalance?
    ensures Height(t') == Above(Height(t.left), Height(t.right) + 1) - if res.ResBalance? then 1 else 0
  {
    n', res := n, ResBalance;
    match pool[n].skew {
      case SkewRight =>
        t' := SetSkew(pool, n, SkewNone, t);
      case SkewLeft =>
        assert Holds(pool[..], t.left);
        match pool[pool[n].left].skew {
          case SkewLeft =>
            n', t' := SingleRight(pool, n, SkewNone, SkewNone, t);
          case SkewNone =>
            n', t' := SingleRight(pool, n, SkewLeft, SkewRight, t);
            res := ResOk;
          case SkewRight =>
            LeftRightBalanced(t);
            n', t' := DoubleRight(pool, n, t);
        }
      case SkewNone =>
        t' := SetSkew(pool, n, SkewLeft, t);
        res := ResOk;
    }
  }
}
