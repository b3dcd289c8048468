/** AVL trees whose nodes live in a fixed pool of entries; node pointers are indices of the pool. */
module AvlTree {

  type uint32 = x: int | 0 <= x < 0x1_0000_0000

  /** What a node stores: a method call to resolve (the key) and the method it resolves to. */
  datatype Payload = Payload(mdVirtual: uint32, cls: uint32, md: uint32)

  function Compare(a: Payload, b: Payload): int {
    if a.mdVirtual == b.mdVirtual then
      if a.cls == b.cls then 0 else if a.cls < b.cls then -1 else 1
    else if a.mdVirtual < b.mdVirtual then -1 else 1
  }

  /** The place of a key in the order of Compare. */
  function Rank(p: Payload): int {
    p.mdVirtual * 0x1_0000_0000 + p.cls
  }

  lemma CompareRank(a: Payload, b: Payload)
    ensures Compare(a, b) < 0 <==> Rank(a) < Rank(b)
    ensures Compare(a, b) == 0 <==> Rank(a) == Rank(b)
    ensures Compare(a, b) == 0 <==> a.mdVirtual == b.mdVirtual && a.cls == b.cls
  {
  }

  datatype Skew = SkewLeft | SkewNone | SkewRight
  datatype Result = ResOk | ResBalance | ResNotFound | ResDuplicate | ResError

  const NIL: int := -1

  datatype Entry = Entry(left: int, right: int, skew: Skew, payload: Payload)

  // Trees as values.

  datatype Tree = Nil | Node(id: nat, left: Tree, skew: Skew, payload: Payload, right: Tree)

  function Root(t: Tree): int {
    if t.Nil? then NIL else t.id
  }

  ghost function Ids(t: Tree): set<nat> {
    if t.Nil? then {} else Ids(t.left) + {t.id} + Ids(t.right)
  }

  ghost function Keys(t: Tree): set<int> {
    if t.Nil? then {} else Keys(t.left) + {Rank(t.payload)} + Keys(t.right)
  }

  function Height(t: Tree): nat {
    if t.Nil? then 0 else 1 + Max(Height(t.left), Height(t.right))
  }

  function Max(a: nat, b: nat): nat { if a < b then b else a }

  /** The pool holds the tree. */
  ghost predicate Holds(pool: seq<Entry>, t: Tree) {
    t.Node? ==> t.id < |pool| && pool[t.id] == Entry(Root(t.left), Root(t.right), t.skew, t.payload) && Holds(pool, t.left) && Holds(pool, t.right)
  }

  /** No node occurs twice. */
  ghost predicate NoSharing(t: Tree) {
    t.Node? ==> NoSharing(t.left) && NoSharing(t.right) && t.id !in Ids(t.left) && t.id !in Ids(t.right) && Ids(t.left) !! Ids(t.right)
  }

  /** The keys are in search order. */
  ghost predicate Ordered(t: Tree) {
    t.Node? ==>
      && Ordered(t.left) && Ordered(t.right)
      && (forall k {:trigger k in Keys(t.left)} :: k in Keys(t.left) ==> k < Rank(t.payload))
      && (forall k {:trigger k in Keys(t.right)} :: k in Keys(t.right) ==> Rank(t.payload) < k)
  }

  /** The skew flag of two subtrees of these heights, which differ by at most one. */
  predicate Leans(s: Skew, left: nat, right: nat) {
    match s
    case SkewLeft => left == right + 1
    case SkewNone => left == right
    case SkewRight => right == left + 1
  }

  /** Every skew flag is exact. */
  predicate Balanced(t: Tree) {
    t.Node? ==> Balanced(t.left) && Balanced(t.right) && Leans(t.skew, Height(t.left), Height(t.right))
  }

  ghost predicate Avl(t: Tree) {
    NoSharing(t) && Ordered(t) && Balanced(t)
  }

  lemma {:induction false} HoldsFrame(pool: seq<Entry>, pool': seq<Entry>, t: Tree)
    requires Holds(pool, t) && |pool'| == |pool|
    requires forall i {:trigger pool'[i]} :: i in Ids(t) && i < |pool| ==> pool'[i] == pool[i]
    ensures Holds(pool', t)
  {
    if t.Node? {
      HoldsFrame(pool, pool', t.left);
      HoldsFrame(pool, pool', t.right);
    }
  }

  lemma {:induction false} IdsInPool(pool: seq<Entry>, t: Tree)
    requires Holds(pool, t)
    ensures forall i {:trigger i in Ids(t)} :: i in Ids(t) ==> i < |pool|
  {
    if t.Node? {
      IdsInPool(pool, t.left);
      IdsInPool(pool, t.right);
    }
  }

  // Balance makes search fast.

  function Size(t: Tree): nat {
    if t.Nil? then 0 else Size(t.left) + 1 + Size(t.right)
  }

  function Fib(n: nat): nat {
    if n < 2 then n else Fib(n - 2) + Fib(n - 1)
  }

  lemma {:induction false} FibMonotone(a: nat, b: nat)
    requires a <= b
    ensures Fib(a) <= Fib(b)
    decreases b
  {
    if a < b {
      FibMonotone(a, b - 1);
    }
  }

  /** A balanced tree of height h has at least Fib(h + 2) - 1 nodes. */
  lemma {:induction false} HeightBound(t: Tree)
    requires Balanced(t)
    ensures Fib(Height(t) + 2) <= Size(t) + 1
  {
    if t.Node? {
      HeightBound(t.left);
      HeightBound(t.right);
      FibMonotone(Height(t) + 1 - 1, Height(t.left) + 2);
      FibMonotone(Height(t) + 1 - 1, Height(t.right) + 2);
    }
  }

  lemma {:induction false} SizeIsIds(t: Tree)
    requires NoSharing(t)
    ensures |Ids(t)| == Size(t)
  {
    if t.Node? {
      SizeIsIds(t.left);
      SizeIsIds(t.right);
      assert |Ids(t.left) + {t.id}| == Size(t.left) + 1;
    }
  }

  // Rotations.

  /** t with its left child on top. */
  function RotatedRight(t: Tree, top: Skew, bottom: Skew): Tree
    requires t.Node? && t.left.Node?
  {
    Node(t.left.id, t.left.left, bottom, t.left.payload, Node(t.id, t.left.right, top, t.payload, t.right))
  }

  function RotatedLeft(t: Tree, top: Skew, bottom: Skew): Tree
    requires t.Node? && t.right.Node?
  {
    Node(t.right.id, Node(t.id, t.left, top, t.payload, t.right.left), bottom, t.right.payload, t.right.right)
  }

  /** Same nodes, same keys, still in order. */
  ghost predicate Rearranged(t: Tree, t': Tree) {
    Ids(t') == Ids(t) && Keys(t') == Keys(t) && NoSharing(t') && Ordered(t')
  }

  lemma RightRotation(t: Tree, top: Skew, bottom: Skew)
    requires t.Node? && t.left.Node? && NoSharing(t) && Ordered(t)
    ensures Rearranged(t, RotatedRight(t, top, bottom))
  {
    var t' := RotatedRight(t, top, bottom);
    assert Rank(t.left.payload) in Keys(t.left);
    assert forall k {:trigger k in Keys(t.right)} :: k in Keys(t.right) ==> Rank(t.left.payload) < k;
  }

  lemma LeftRotation(t: Tree, top: Skew, bottom: Skew)
    requires t.Node? && t.right.Node? && NoSharing(t) && Ordered(t)
    ensures Rearranged(t, RotatedLeft(t, top, bottom))
  {
    var t' := RotatedLeft(t, top, bottom);
    assert Rank(t.right.payload) in Keys(t.right);
    assert forall k {:trigger k in Keys(t.left)} :: k in Keys(t.left) ==> k < Rank(t.right.payload);
  }

  /** Perform counterclockwise rotation: the right child of n comes on top. */
  method RotateLeft(pool: array<Entry>, n: nat) returns (bottom: nat)
    requires n < pool.Length && 0 <= pool[n].right < pool.Length && pool[n].right != n
    modifies pool
    ensures bottom == old(pool[n].right)
    ensures pool[..] == old(pool[..])[n := old(pool[n]).(right := old(pool[pool[n].right].left))]
                                     [bottom := old(pool[pool[n].right]).(left := n)]
  {
    bottom := pool[n].right;
    pool[n] := pool[n].(right := pool[bottom].left);
    pool[bottom] := pool[bottom].(left := n);
  }

  /** Perform clockwise rotation: the left child of n comes on top. */
  method RotateRight(pool: array<Entry>, n: nat) returns (bottom: nat)
    requires n < pool.Length && 0 <= pool[n].left < pool.Length && pool[n].left != n
    modifies pool
    ensures bottom == old(pool[n].left)
    ensures pool[..] == old(pool[..])[n := old(pool[n]).(left := old(pool[pool[n].left].right))]
                                     [bottom := old(pool[pool[n].left]).(right := n)]
  {
    bottom := pool[n].left;
    pool[n] := pool[n].(left := pool[bottom].right);
    pool[bottom] := pool[bottom].(right := n);
  }
}
