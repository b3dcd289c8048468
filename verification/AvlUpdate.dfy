/** Inserting into and removing from an AVL tree: what one level of the recursion does. */
module AvlUpdate {
  import opened NodeList
  import opened AvlTree
  import opened AvlBalance
  import opened NodesInUse

  /** Pool entries other than those of t and node x are as before, and payloads other than x's. */
  ghost predicate OnlyTouches(pool: seq<Entry>, t: Tree, x: nat, pool': seq<Entry>) {
    && |pool'| == |pool|
    && (forall i {:trigger pool'[i]} :: 0 <= i < |pool| && i != x ==> pool'[i].payload == pool[i].payload)
    && (forall i {:trigger pool'[i]} :: 0 <= i < |pool| && i != x && i !in Ids(t) ==> pool'[i] == pool[i])
  }

  // Insertion.

  /** t' is t with a new node x for p. */
  ghost predicate Grafted(pool: seq<Entry>, t: Tree, x: nat, p: Payload, pool': seq<Entry>, t': Tree) {
    && x < |pool| && x !in Ids(t) && OnlyTouches(pool, t, x, pool') && pool'[x].payload == p
    && Holds(pool', t') && NoSharing(t') && Ordered(t')
    && Ids(t') == Ids(t) + {x} && Keys(t') == Keys(t) + {Rank(p)}
  }

  /** t' is t with a new node x for p, balanced; ResBalance tells that it is one level higher. */
  ghost predicate NodeInserted(pool: seq<Entry>, t: Tree, x: nat, p: Payload, pool': seq<Entry>, n: int, t': Tree, res: Result) {
    && (res.ResOk? || (res.ResBalance? && Grown(t')))
    && Grafted(pool, t, x, p, pool', t') && n == Root(t') && Balanced(t') && t'.Node?
    && Height(t') == Height(t) + if res.ResBalance? then 1 else 0
  }

  /** The outcome of an insertion: nothing at all when the key is there or no node is free. */
  ghost predicate InsertDone(pool: seq<Entry>, free: seq<nat>, inUse: seq<nat>, t: Tree, p: Payload,
                             pool': seq<Entry>, free': seq<nat>, inUse': seq<nat>, n: int, t': Tree, res: Result) {
    if Rank(p) in Keys(t) || free == [] then
      && res == (if Rank(p) in Keys(t) then ResDuplicate else ResError)
      && t' == t && n == Root(t) && pool' == pool && free' == free && inUse' == inUse
    else
      && free' == free[1..] && inUse' == [free[0]] + inUse
      && NodeInserted(pool, t, free[0], p, pool', n, t', res)
  }

  /** Storing a changed left subtree in its parent. */
  lemma LinkedLeft(pool: seq<Entry>, t: Tree, pool1: seq<Entry>, left: Tree, pool2: seq<Entry>)
    requires Holds(pool, t) && NoSharing(t) && t.Node? && |pool1| == |pool|
    requires Holds(pool1, left) && t.id !in Ids(left) && pool1[t.id] == pool[t.id]
    requires forall i {:trigger pool1[i]} :: 0 <= i < |pool| && i in Ids(t.right) ==> pool1[i] == pool[i]
    requires pool2 == pool1[t.id := pool1[t.id].(left := Root(left))]
    ensures Holds(pool2, WithLeft(t, left))
  {
    HoldsFrame(pool, pool1, t.right);
    HoldsFrame(pool1, pool2, t.right);
    HoldsFrame(pool1, pool2, left);
  }

  lemma InsertedLeft(pool: seq<Entry>, t: Tree, x: nat, p: Payload, pool1: seq<Entry>, n1: int, left: Tree, res1: Result, pool2: seq<Entry>)
    requires Holds(pool, t) && Avl(t) && t.Node? && x != t.id && x !in Ids(t.right)
    requires NodeInserted(pool, t.left, x, p, pool1, n1, left, res1)
    requires Rank(p) < Rank(t.payload)
    requires pool2 == pool1[t.id := pool1[t.id].(left := n1)]
    ensures var t1 := WithLeft(t, left);
      && Grafted(pool, t, x, p, pool2, t1)
      && (res1.ResBalance? ==> LeftHasGrown(t1)) && (res1.ResOk? ==> Balanced(t1) && Height(t1) == Height(t))
  {
    LinkedLeft(pool, t, pool1, left, pool2);
  }

  /** Storing a changed right subtree in its parent. */
  lemma LinkedRight(pool: seq<Entry>, t: Tree, pool1: seq<Entry>, right: Tree, pool2: seq<Entry>)
    requires Holds(pool, t) && NoSharing(t) && t.Node? && |pool1| == |pool|
    requires Holds(pool1, right) && t.id !in Ids(right) && pool1[t.id] == pool[t.id]
    requires forall i {:trigger pool1[i]} :: 0 <= i < |pool| && i in Ids(t.left) ==> pool1[i] == pool[i]
    requires pool2 == pool1[t.id := pool1[t.id].(right := Root(right))]
    ensures Holds(pool2, WithRight(t, right))
  {
    HoldsFrame(pool, pool1, t.left);
    HoldsFrame(pool1, pool2, t.left);
    HoldsFrame(pool1, pool2, right);
  }

  lemma InsertedRight(pool: seq<Entry>, t: Tree, x: nat, p: Payload, pool1: seq<Entry>, n1: int, right: Tree, res1: Result, pool2: seq<Entry>)
    requires Holds(pool, t) && Avl(t) && t.Node? && x != t.id && x !in Ids(t.left)
    requires NodeInserted(pool, t.right, x, p, pool1, n1, right, res1)
    requires Rank(t.payload) < Rank(p)
    requires pool2 == pool1[t.id := pool1[t.id].(right := n1)]
    ensures var t1 := WithRight(t, right);
      && Grafted(pool, t, x, p, pool2, t1)
      && (res1.ResBalance? ==> RightHasGrown(t1)) && (res1.ResOk? ==> Balanced(t1) && Height(t1) == Height(t))
  {
    LinkedRight(pool, t, pool1, right, pool2);
  }

  lemma GrownRestored(pool: seq<Entry>, t: Tree, x: nat, p: Payload, pool1: seq<Entry>, t1: Tree, pool2: seq<Entry>, n: int, t2: Tree, res: Result)
    requires Grafted(pool, t, x, p, pool1, t1)
    requires Restored(pool1, t1, pool2, n, t2) && (res.ResOk? || (res.ResBalance? && Grown(t2)))
    requires Height(t2) == Height(t) + if res.ResBalance? then 1 else 0
    ensures NodeInserted(pool, t, x, p, pool2, n, t2, res)
  {
  }

  // Removal.

  /** t' is t without key, which node from held or which x held before it took over from's payload. */
  ghost predicate Cut(pool: seq<Entry>, t: Tree, from: nat, key: int, x: nat, pool': seq<Entry>, t': Tree) {
    && from in Ids(t) && key in Keys(t) && x < |pool| && from < |pool| == |pool'|
    && OnlyTouches(pool, t, x, pool') && pool'[x].payload == pool[from].payload
    && Holds(pool', t') && NoSharing(t') && Ordered(t')
    && Ids(t') == Ids(t) - {from} && Keys(t') == Keys(t) - {key}
  }

  /** t' is balanced; ResBalance tells that it is one level lower. */
  ghost predicate Lowered(t: Tree, n: int, t': Tree, res: Result) {
    && (res.ResOk? || res.ResBalance?) && n == Root(t') && Balanced(t')
    && Height(t') == Height(t) - if res.ResBalance? then 1 else 0
  }

  /** Node from has been taken out of t; target, a node outside t, has got its payload. */
  ghost predicate Taken(pool: seq<Entry>, t: Tree, from: nat, target: nat, pool': seq<Entry>, t': Tree) {
    && from < |pool| && target < |pool| && target !in Ids(t) && Cut(pool, t, from, Rank(pool[from].payload), target, pool', t')
    && pool'[target] == pool[target].(payload := pool[from].payload)
  }

  lemma CutLeft(pool: seq<Entry>, t: Tree, from: nat, key: int, x: nat, pool1: seq<Entry>, left: Tree, pool2: seq<Entry>)
    requires Holds(pool, t) && NoSharing(t) && Ordered(t) && t.Node? && x != t.id && x !in Ids(t.right)
    requires Cut(pool, t.left, from, key, x, pool1, left)
    requires pool2 == pool1[t.id := pool1[t.id].(left := Root(left))]
    ensures Cut(pool, t, from, key, x, pool2, WithLeft(t, left))
  {
    LinkedLeft(pool, t, pool1, left, pool2);
  }

  lemma CutRight(pool: seq<Entry>, t: Tree, from: nat, key: int, x: nat, pool1: seq<Entry>, right: Tree, pool2: seq<Entry>)
    requires Holds(pool, t) && NoSharing(t) && Ordered(t) && t.Node? && x != t.id && x !in Ids(t.left)
    requires Cut(pool, t.right, from, key, x, pool1, right)
    requires pool2 == pool1[t.id := pool1[t.id].(right := Root(right))]
    ensures Cut(pool, t, from, key, x, pool2, WithRight(t, right))
  {
    LinkedRight(pool, t, pool1, right, pool2);
  }

  lemma CutRestored(pool: seq<Entry>, t: Tree, from: nat, key: int, x: nat, pool1: seq<Entry>, t1: Tree, pool2: seq<Entry>, n: int, t2: Tree)
    requires Cut(pool, t, from, key, x, pool1, t1) && Restored(pool1, t1, pool2, n, t2)
    ensures Cut(pool, t, from, key, x, pool2, t2)
  {
  }

  lemma LeftLowered(t: Tree, child: int, left: Tree, res1: Result)
    requires t.Node? && Balanced(t) && Lowered(t.left, child, left, res1)
    ensures Above(Height(left) + if res1.ResBalance? then 1 else 0, Height(t.right)) == Height(t)
    ensures res1.ResOk? ==> Balanced(WithLeft(t, left)) && Height(WithLeft(t, left)) == Height(t)
  {
  }

  lemma RightLowered(t: Tree, child: int, right: Tree, res1: Result)
    requires t.Node? && Balanced(t) && Lowered(t.right, child, right, res1)
    ensures Above(Height(t.left), Height(right) + if res1.ResBalance? then 1 else 0) == Height(t)
    ensures res1.ResOk? ==> Balanced(WithRight(t, right)) && Height(WithRight(t, right)) == Height(t)
  {
  }

  /** The highest key of the left subtree replaces the key of the node itself. */
  lemma CutByHighest(pool: seq<Entry>, t: Tree, from: nat, pool1: seq<Entry>, left: Tree, pool2: seq<Entry>)
    requires Holds(pool, t) && NoSharing(t) && Ordered(t) && t.Node?
    requires Taken(pool, t.left, from, t.id, pool1, left)
    requires forall k {:trigger k in Keys(t.left)} :: k in Keys(t.left) ==> k <= Rank(pool[from].payload)
    requires pool2 == pool1[t.id := pool1[t.id].(left := Root(left))]
    ensures Cut(pool, t, from, Rank(t.payload), t.id, pool2, Node(t.id, left, t.skew, pool[from].payload, t.right))
  {
    HoldsFrame(pool, pool2, t.right);
    HoldsFrame(pool1, pool2, left);
    HighestKeys(t, left, from, pool[from].payload);
  }

  /** The top node has the highest key: it is cut out itself. */
  lemma HighestHere(pool: seq<Entry>, t: Tree, target: nat, pool': seq<Entry>)
    requires Holds(pool, t) && Avl(t) && t.Node? && t.right.Nil? && target < |pool| && target !in Ids(t)
    requires pool' == pool[target := pool[target].(payload := pool[t.id].payload)]
    ensures Taken(pool, t, t.id, target, pool', t.left) && Lowered(t, Root(t.left), t.left, ResBalance)
    ensures forall k {:trigger k in Keys(t)} :: k in Keys(t) ==> k <= Rank(pool[t.id].payload)
  {
    HoldsFrame(pool, pool', t.left);
  }

  lemma LowestHere(pool: seq<Entry>, t: Tree, target: nat, pool': seq<Entry>)
    requires Holds(pool, t) && Avl(t) && t.Node? && t.left.Nil? && target < |pool| && target !in Ids(t)
    requires pool' == pool[target := pool[target].(payload := pool[t.id].payload)]
    ensures Taken(pool, t, t.id, target, pool', t.right) && Lowered(t, Root(t.right), t.right, ResBalance)
    ensures forall k {:trigger k in Keys(t)} :: k in Keys(t) ==> Rank(pool[t.id].payload) <= k
  {
    HoldsFrame(pool, pool', t.right);
  }

  lemma HighestKeys(t: Tree, left: Tree, from: nat, p: Payload)
    requires NoSharing(t) && Ordered(t) && t.Node? && NoSharing(left) && Ordered(left)
    requires Ids(left) == Ids(t.left) - {from} && Keys(left) == Keys(t.left) - {Rank(p)} && Rank(p) in Keys(t.left) && from in Ids(t.left)
    requires forall k {:trigger k in Keys(t.left)} :: k in Keys(t.left) ==> k <= Rank(p)
    ensures var t' := Node(t.id, left, t.skew, p, t.right);
      NoSharing(t') && Ordered(t') && Ids(t') == Ids(t) - {from} && Keys(t') == Keys(t) - {Rank(t.payload)}
  {
    KeysApart(t);
    MovedKey(Keys(t.left), Keys(left), Rank(p), Rank(t.payload), Keys(t.right));
    NodeGone(Ids(t.left), Ids(left), from, t.id, Ids(t.right));
    HighestOrdered(t, left, p);
  }

  lemma HighestOrdered(t: Tree, left: Tree, p: Payload)
    requires Ordered(t) && t.Node? && Ordered(left)
    requires Keys(left) == Keys(t.left) - {Rank(p)} && Rank(p) in Keys(t.left)
    requires forall k {:trigger k in Keys(t.left)} :: k in Keys(t.left) ==> k <= Rank(p)
    ensures Ordered(Node(t.id, left, t.skew, p, t.right))
  {
    forall k {:trigger k in Keys(t.right)} | k in Keys(t.right) ensures Rank(p) < k { assert Rank(t.payload) < k; }
  }

  lemma KeysApart(t: Tree)
    requires Ordered(t) && t.Node?
    ensures Rank(t.payload) !in Keys(t.left) && Rank(t.payload) !in Keys(t.right)
  {
  }

  /** The key p takes the place of the key r. */
  lemma MovedKey(a: set<int>, a': set<int>, p: int, r: int, b: set<int>)
    requires a' == a - {p} && p in a && r !in a && r !in b
    ensures a' + {p} + b == a + {r} + b - {r}
    ensures b + {p} + a' == b + {r} + a - {r}
  {
  }

  lemma NodeGone(a: set<nat>, a': set<nat>, from: nat, id: nat, b: set<nat>)
    requires a' == a - {from} && from in a && id !in a && a !! b
    ensures a' + {id} + b == a + {id} + b - {from}
    ensures b + {id} + a' == b + {id} + a - {from}
  {
  }

  lemma CutByLowest(pool: seq<Entry>, t: Tree, from: nat, pool1: seq<Entry>, right: Tree, pool2: seq<Entry>)
    requires Holds(pool, t) && NoSharing(t) && Ordered(t) && t.Node?
    requires Taken(pool, t.right, from, t.id, pool1, right)
    requires forall k {:trigger k in Keys(t.right)} :: k in Keys(t.right) ==> Rank(pool[from].payload) <= k
    requires pool2 == pool1[t.id := pool1[t.id].(right := Root(right))]
    ensures Cut(pool, t, from, Rank(t.payload), t.id, pool2, Node(t.id, t.left, t.skew, pool[from].payload, right))
  {
    HoldsFrame(pool, pool2, t.left);
    HoldsFrame(pool1, pool2, right);
    LowestKeys(t, right, from, pool[from].payload);
  }

  lemma LowestKeys(t: Tree, right: Tree, from: nat, p: Payload)
    requires NoSharing(t) && Ordered(t) && t.Node? && NoSharing(right) && Ordered(right)
    requires Ids(right) == Ids(t.right) - {from} && Keys(right) == Keys(t.right) - {Rank(p)} && Rank(p) in Keys(t.right) && from in Ids(t.right)
    requires forall k {:trigger k in Keys(t.right)} :: k in Keys(t.right) ==> Rank(p) <= k
    ensures var t' := Node(t.id, t.left, t.skew, p, right);
      NoSharing(t') && Ordered(t') && Ids(t') == Ids(t) - {from} && Keys(t') == Keys(t) - {Rank(t.payload)}
  {
    KeysApart(t);
    MovedKey(Keys(t.right), Keys(right), Rank(p), Rank(t.payload), Keys(t.left));
    NodeGone(Ids(t.right), Ids(right), from, t.id, Ids(t.left));
    forall k {:trigger k in Keys(t.left)} | k in Keys(t.left) ensures k < Rank(p) { assert k < Rank(t.payload); }
  }

  /** The outcome of a removal: nothing at all when the key is not there. */
  ghost predicate RemoveDone(pool: seq<Entry>, free: seq<nat>, inUse: seq<nat>, t: Tree, key: int,
                             pool': seq<Entry>, free': seq<nat>, inUse': seq<nat>, n: int, t': Tree, res: Result, from: nat, x: nat) {
    if key !in Keys(t) then
      res == ResNotFound && t' == t && n == Root(t) && pool' == pool && free' == free && inUse' == inUse
    else
      && x in Ids(t) && x < |pool| && Rank(pool[x].payload) == key
      && Cut(pool, t, from, key, x, pool', t') && Lowered(t, n, t', res)
      && free' == free + [from] && inUse' == Released(inUse, from, x)
  }

  // Nodes and keys.

  lemma {:induction false} NodeKey(pool: seq<Entry>, t: Tree, i: nat)
    requires Holds(pool, t) && i in Ids(t)
    ensures i < |pool| && Rank(pool[i].payload) in Keys(t)
  {
    if i in Ids(t.left) {
      NodeKey(pool, t.left, i);
    } else if i in Ids(t.right) {
      NodeKey(pool, t.right, i);
    }
  }

  /** No two nodes have the same key. */
  lemma {:induction false} SameKey(pool: seq<Entry>, t: Tree, i: nat, j: nat)
    requires Holds(pool, t) && Ordered(t) && i in Ids(t) && j in Ids(t) && i < |pool| && j < |pool|
    requires Rank(pool[i].payload) == Rank(pool[j].payload)
    ensures i == j
  {
    if i in Ids(t.left) { NodeKey(pool, t.left, i); }
    if i in Ids(t.right) { NodeKey(pool, t.right, i); }
    if j in Ids(t.left) { NodeKey(pool, t.left, j); }
    if j in Ids(t.right) { NodeKey(pool, t.right, j); }
    if i in Ids(t.left) && j in Ids(t.left) {
      SameKey(pool, t.left, i, j);
    } else if i in Ids(t.right) && j in Ids(t.right) {
      SameKey(pool, t.right, i, j);
    }
  }

  lemma {:induction false} NodeWith(pool: seq<Entry>, t: Tree, k: int) returns (i: nat)
    requires Holds(pool, t) && k in Keys(t)
    ensures i in Ids(t) && i < |pool| && Rank(pool[i].payload) == k
  {
    if k in Keys(t.left) {
      i := NodeWith(pool, t.left, k);
    } else if k in Keys(t.right) {
      i := NodeWith(pool, t.right, k);
    } else {
      i := t.id;
    }
  }

  lemma {:induction false} SubsetSize(s: set<nat>, n: nat)
    requires forall x {:trigger x in s} :: x in s ==> x < n
    ensures |s| <= n
  {
    if n > 0 {
      SubsetSize(s - {n - 1}, n - 1);
    } else {
      assert s == {};
    }
  }

  lemma KeyNotRecent(pool: seq<Entry>, t: Tree, inUse: seq<nat>, recent: seq<Key>, key: Payload)
    requires Holds(pool, t) && KeysAre(pool, inUse, recent) && Rank(key) !in Keys(t)
    requires forall i {:trigger inUse[i]} :: 0 <= i < |inUse| ==> inUse[i] in Ids(t)
    ensures KeyOf(key) !in recent
  {
    forall i | 0 <= i < |recent| ensures recent[i] != KeyOf(key) {
      NodeKey(pool, t, inUse[i]);
    }
  }

  /** The nodes left in use are those left in the tree. */
  lemma NodesLeft(inUse: seq<nat>, inUse0: seq<nat>, from: nat, t0: Tree, t: Tree)
    requires Ids(t) == Ids(t0) - {from}
    requires forall i {:trigger inUse0[i]} :: 0 <= i < |inUse0| ==> inUse0[i] in Ids(t0)
    requires forall i {:trigger Has(inUse0, i)} :: i in Ids(t0) ==> Has(inUse0, i)
    requires forall i {:trigger Has(inUse, i)} :: Has(inUse, i) <==> Has(inUse0, i) && i != from
    ensures forall i {:trigger inUse[i]} :: 0 <= i < |inUse| ==> inUse[i] in Ids(t)
    ensures forall i {:trigger Has(inUse, i)} :: i in Ids(t) ==> Has(inUse, i)
  {
    forall i {:trigger inUse[i]} | 0 <= i < |inUse| ensures inUse[i] in Ids(t) {
      assert Has(inUse, inUse[i]);
    }
    forall i {:trigger Has(inUse, i)} | i in Ids(t) ensures Has(inUse, i) {
      assert Has(inUse0, i);
    }
  }
}
