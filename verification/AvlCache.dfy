/** The cache of resolved virtual methods, second form: an AVL tree over a fixed pool of nodes, threaded by
    a list of the nodes in use, most recently used first. */
module AvlCache {
  import opened Lru
  import opened NodeList
  import opened AvlTree
  import opened AvlBalance
  import opened NodesInUse
  import opened AvlUpdate

  class VirtualMethodTable {
    const pool: array<Entry>
    /** The class defines the method itself, and it is not abstract. */
    const owns: Key -> bool
    /** The type system's search for the implementation. */
    const resolve: Key -> Method
    var root: int
    var freeItems: seq<nat>
    var inUse: seq<nat>
    ghost var tree: Tree
    /** The cached keys, most recently used first. */
    ghost var recent: seq<Key>
    /** All keys that were looked up, found, and not answered by the shortcut. */
    ghost var uses: seq<Key>

    /** The nodes in use are those of the tree, the others are free. */
    ghost predicate NodesOk()
      reads this, pool
    {
      && Holds(pool[..], tree) && root == Root(tree) && Avl(tree) && FreeFor(tree)
      && Unique(inUse) && Unique(freeItems)
      && (forall i {:trigger inUse[i]} :: 0 <= i < |inUse| ==> inUse[i] in Ids(tree))
      && (forall i {:trigger Has(inUse, i)} :: i in Ids(tree) ==> Has(inUse, i))
      && |inUse| + |freeItems| == pool.Length
    }

    ghost predicate AnswersOk()
      reads this, pool
    {
      && KeysAre(pool[..], inUse, recent)
      && (forall i {:trigger inUse[i]} :: 0 <= i < |inUse| ==> resolve(recent[i]) == Found(pool[inUse[i]].payload.md))
    }

    ghost predicate Valid()
      reads this, pool
    {
      NodesOk() && AnswersOk() && recent == Run(uses, pool.Length) && Unique(recent)
    }

    /** All nodes are free. */
    constructor (size: nat, owns: Key -> bool, resolve: Key -> Method)
      ensures this.owns == owns && this.resolve == resolve && fresh(pool) && pool.Length == size
      ensures Valid() && uses == [] && recent == []
    {
      this.owns, this.resolve := owns, resolve;
      pool := new Entry[size](_ => Entry(NIL, NIL, SkewNone, Payload(0, 0, 0)));
      root, inUse := NIL, [];
      freeItems := seq(size, i => i);
      tree, recent, uses := Nil, [], [];
    }

    /** However the tree came about, a search needs at most logarithmically many comparisons: with s steps
        there must be Fib(s + 2) - 1 nodes. */
    lemma SearchBound(steps: nat)
      requires NodesOk() && steps <= Height(tree)
      ensures Fib(steps + 2) <= pool.Length + 1
    {
      HeightBound(tree);
      FibMonotone(steps + 2, Height(tree) + 2);
      SizeIsIds(tree);
      IdsInPool(pool[..], tree);
      SubsetSize(Ids(tree), pool.Length);
    }

    /** After any run of lookups, a key is in the tree exactly when it has been used and fewer than
        pool.Length other keys have been used since. */
    lemma CachedExactly(key: Key)
      requires Valid() && pool.Length > 0
      ensures Rank(Payload(key.mdVirtual, key.cls, 0)) in Keys(tree) <==>
        exists i: nat :: LastUse(uses, i) && uses[i] == key && |Distinct(uses[i + 1..])| < pool.Length
    {
      CachedIff(uses, pool.Length, key);
      var p := Payload(key.mdVirtual, key.cls, 0);
      if Rank(p) in Keys(tree) {
        var i := NodeWith(pool[..], tree, Rank(p));
        CompareRank(pool[i].payload, p);
        assert Has(inUse, i);
        var j :| 0 <= j < |inUse| && inUse[j] == i;
        assert recent[j] == key;
      } else {
        KeyNotRecent(pool[..], tree, inUse, recent, p);
      }
    }

    /** Search; steps counts the comparisons. */
    method Find(srcDatum: Payload) returns (node: int, ghost steps: nat)
      requires Holds(pool[..], tree) && root == Root(tree) && Ordered(tree)
      ensures node == NIL <==> Rank(srcDatum) !in Keys(tree)
      ensures node != NIL ==> 0 <= node < pool.Length && node in Ids(tree) && KeyOf(pool[node].payload) == KeyOf(srcDatum)
      ensures steps <= Height(tree)
    {
      node, steps := root, 0;
      ghost var sub := tree;
      while node != NIL
        invariant Holds(pool[..], sub) && node == Root(sub) && Ordered(sub) && steps + Height(sub) <= Height(tree)
        invariant Rank(srcDatum) in Keys(sub) <==> Rank(srcDatum) in Keys(tree)
        invariant Ids(sub) <= Ids(tree)
        decreases sub
      {
        var cmp := Compare(pool[node].payload, srcDatum);
        CompareRank(pool[node].payload, srcDatum);
        steps := steps + 1;
        assert Ids(sub) == Ids(sub.left) + {sub.id} + Ids(sub.right);
        if cmp == 0 { break; }
        if cmp > 0 {
          node, sub := pool[node].left, sub.left;
        } else {
          node, sub := pool[node].right, sub.right;
        }
      }
    }

    /** Takes a node off the free list. */
    method NewNode(payload: Payload) returns (en: int)
      requires forall i :: 0 <= i < |freeItems| ==> freeItems[i] < pool.Length
      modifies this`freeItems, this`inUse, pool
      ensures old(freeItems) == [] ==> en == NIL && freeItems == [] && inUse == old(inUse) && pool[..] == old(pool[..])
      ensures old(freeItems) != [] ==>
        && en == old(freeItems)[0] && freeItems == old(freeItems)[1..] && inUse == [old(freeItems)[0]] + old(inUse)
        && pool[..] == old(pool[..])[old(freeItems)[0] := old(pool[freeItems[0]]).(payload := payload)]
    {
      if freeItems == [] { return NIL; }
      var node := freeItems[0];
      freeItems := freeItems[1..];
      pool[node] := pool[node].(payload := payload);
      inUse := [node] + inUse;
      en := node;
    }

    /** The free nodes are entries of the pool that are not in the tree. */
    ghost predicate FreeFor(t: Tree)
      reads this`freeItems
    {
      forall i {:trigger freeItems[i]} :: 0 <= i < |freeItems| ==> freeItems[i] < pool.Length && freeItems[i] !in Ids(t)
    }

    /** Inserts a payload into the tree at n, which becomes the tree at n'. */
    method InsertAt(n: int, newDatum: Payload, ghost t: Tree) returns (n': int, res: Result, ghost t': Tree)
      requires Holds(pool[..], t) && n == Root(t) && Avl(t) && FreeFor(t)
      modifies this`freeItems, this`inUse, pool
      ensures InsertDone(old(pool[..]), old(freeItems), old(inUse), t, newDatum, pool[..], freeItems, inUse, n', t', res)
      decreases t
    {
      if n == NIL {
        var node := NewNode(newDatum);
        if node == NIL { return n, ResError, t; }
        pool[node] := pool[node].(left := NIL, right := NIL, skew := SkewNone);
        return node, ResBalance, Node(node, Nil, SkewNone, newDatum, Nil);
      }
      var cmp := Compare(pool[n].payload, newDatum);
      CompareRank(pool[n].payload, newDatum);
      n', t' := n, t;
      var child: int;
      ghost var sub: Tree;
      ghost var before := pool[..];
      if cmp > 0 {
        child, res, sub := InsertAt(pool[n].left, newDatum, t.left);
        if !res.ResDuplicate? && !res.ResError? {
          n', res, t' := LeftInserted(n, child, res, newDatum, t, before, old(freeItems)[0], sub);
        }
      } else if cmp < 0 {
        child, res, sub := InsertAt(pool[n].right, newDatum, t.right);
        if !res.ResDuplicate? && !res.ResError? {
          n', res, t' := RightInserted(n, child, res, newDatum, t, before, old(freeItems)[0], sub);
        }
      } else {
        res := ResDuplicate;
      }
    }

    /** The way back from an insertion into the left subtree. */
    method LeftInserted(n: nat, child: int, res1: Result, ghost p: Payload, ghost t: Tree, ghost before: seq<Entry>, ghost x: nat, ghost left: Tree)
      returns (n': int, res: Result, ghost t': Tree)
      requires Holds(before, t) && Avl(t) && t.Node? && n == t.id && n < pool.Length && x != t.id && x !in Ids(t.right)
      requires NodeInserted(before, t.left, x, p, pool[..], child, left, res1) && Rank(p) < Rank(t.payload)
      modifies pool
      ensures NodeInserted(before, t, x, p, pool[..], n', t', res)
    {
      ghost var pool1 := pool[..];
      pool[n] := pool[n].(left := child);
      InsertedLeft(before, t, x, p, pool1, child, left, res1, pool[..]);
      n', res, t' := n, res1, WithLeft(t, left);
      if res1.ResBalance? {
        ghost var pool2, t1 := pool[..], t';
        n', res, t' := LeftGrown(pool, n, t1);
        GrownRestored(before, t, x, p, pool2, t1, pool[..], n', t', res);
      }
    }

    method RightInserted(n: nat, child: int, res1: Result, ghost p: Payload, ghost t: Tree, ghost before: seq<Entry>, ghost x: nat, ghost right: Tree)
      returns (n': int, res: Result, ghost t': Tree)
      requires Holds(before, t) && Avl(t) && t.Node? && n == t.id && n < pool.Length && x != t.id && x !in Ids(t.left)
      requires NodeInserted(before, t.right, x, p, pool[..], child, right, res1) && Rank(t.payload) < Rank(p)
      modifies pool
      ensures NodeInserted(before, t, x, p, pool[..], n', t', res)
    {
      ghost var pool1 := pool[..];
      pool[n] := pool[n].(right := child);
      InsertedRight(before, t, x, p, pool1, child, right, res1, pool[..]);
      n', res, t' := n, res1, WithRight(t, right);
      if res1.ResBalance? {
        ghost var pool2, t1 := pool[..], t';
        n', res, t' := RightGrown(pool, n, t1);
        GrownRestored(before, t, x, p, pool2, t1, pool[..], n', t', res);
      }
    }

    /** The tree moves the payload of one node into another one. */
    method Reassign(from: nat, to: nat)
      requires from < pool.Length && to < pool.Length
      modifies this`inUse, pool
      ensures inUse == Reassigned(old(inUse), from, to)
      ensures pool[..] == old(pool[..])[to := old(pool[to]).(payload := old(pool[from].payload))]
    {
      inUse := InsertAfter(Without(inUse, to), from, to);
      pool[to] := pool[to].(payload := pool[from].payload);
    }

    method FreeNode(node: nat)
      modifies this`freeItems, this`inUse
      ensures freeItems == old(freeItems) + [node] && inUse == Without(old(inUse), node)
    {
      inUse := Without(inUse, node);
      freeItems := freeItems + [node];
    }

    /** The last part of it: the tree is balanced again. */
    method SettleLeft(n: nat, res1: Result, ghost t: Tree, ghost t1: Tree, ghost before: seq<Entry>, ghost from: nat, ghost key: int, ghost x: nat)
      returns (n': int, res: Result, ghost t': Tree)
      requires Cut(before, t, from, key, x, pool[..], t1) && t1.Node? && n == t1.id
      requires if res1.ResBalance? then LeftHasShrunk(t1) && Above(Height(t1.left) + 1, Height(t1.right)) == Height(t)
               else res1.ResOk? && Balanced(t1) && Height(t1) == Height(t)
      modifies pool
      ensures Cut(before, t, from, key, x, pool[..], t') && Lowered(t, n', t', res)
      ensures x !in Ids(t1) ==> pool[x] == old(pool[x])
    {
      n', res, t' := n, res1, t1;
      if res1.ResBalance? {
        ghost var pool1 := pool[..];
        n', res, t' := LeftShrunk(pool, n, t1);
        CutRestored(before, t, from, key, x, pool1, t1, pool[..], n', t');
      }
    }

    /** The last part of it: the tree is balanced again. */
    method SettleRight(n: nat, res1: Result, ghost t: Tree, ghost t1: Tree, ghost before: seq<Entry>, ghost from: nat, ghost key: int, ghost x: nat)
      returns (n': int, res: Result, ghost t': Tree)
      requires Cut(before, t, from, key, x, pool[..], t1) && t1.Node? && n == t1.id
      requires if res1.ResBalance? then RightHasShrunk(t1) && Above(Height(t1.left), Height(t1.right) + 1) == Height(t)
               else res1.ResOk? && Balanced(t1) && Height(t1) == Height(t)
      modifies pool
      ensures Cut(before, t, from, key, x, pool[..], t') && Lowered(t, n', t', res)
      ensures x !in Ids(t1) ==> pool[x] == old(pool[x])
    {
      n', res, t' := n, res1, t1;
      if res1.ResBalance? {
        ghost var pool1 := pool[..];
        n', res, t' := RightShrunk(pool, n, t1);
        CutRestored(before, t, from, key, x, pool1, t1, pool[..], n', t');
      }
    }

    /** The way back from a removal in the right subtree. */
    method RightCut(n: nat, child: int, res1: Result, ghost t: Tree, ghost before: seq<Entry>, ghost from: nat, ghost key: int, ghost x: nat,
                    ghost right: Tree) returns (n': int, res: Result, ghost t': Tree)
      requires Holds(before, t) && Avl(t) && t.Node? && n == t.id && n < pool.Length && x != t.id && x !in Ids(t.left)
      requires Cut(before, t.right, from, key, x, pool[..], right) && Lowered(t.right, child, right, res1)
      modifies pool
      ensures Cut(before, t, from, key, x, pool[..], t') && Lowered(t, n', t', res)
      ensures x !in Ids(t) ==> pool[x] == old(pool[x])
    {
      ghost var pool1 := pool[..];
      pool[n] := pool[n].(right := child);
      CutRight(before, t, from, key, x, pool1, right, pool[..]);
      RightLowered(t, child, right, res1);
      n', res, t' := SettleRight(n, res1, t, WithRight(t, right), before, from, key, x);
    }

    method LeftCut(n: nat, child: int, res1: Result, ghost t: Tree, ghost before: seq<Entry>, ghost from: nat, ghost key: int, ghost x: nat,
                   ghost left: Tree) returns (n': int, res: Result, ghost t': Tree)
      requires Holds(before, t) && Avl(t) && t.Node? && n == t.id && n < pool.Length && x != t.id && x !in Ids(t.right)
      requires Cut(before, t.left, from, key, x, pool[..], left) && Lowered(t.left, child, left, res1)
      modifies pool
      ensures Cut(before, t, from, key, x, pool[..], t') && Lowered(t, n', t', res)
      ensures x !in Ids(t) ==> pool[x] == old(pool[x])
    {
      ghost var pool1 := pool[..];
      pool[n] := pool[n].(left := child);
      CutLeft(before, t, from, key, x, pool1, left, pool[..]);
      LeftLowered(t, child, left, res1);
      n', res, t' := SettleLeft(n, res1, t, WithLeft(t, left), before, from, key, x);
    }

    /** Takes the node with the highest key out of the tree at n, and stores its payload in target. */
    method FindHighest(n: int, target: nat, ghost t: Tree) returns (found: bool, n': int, res: Result, ghost t': Tree, ghost from: nat)
      requires Holds(pool[..], t) && n == Root(t) && Avl(t) && target < pool.Length && target !in Ids(t)
      modifies this`freeItems, this`inUse, pool
      ensures found <==> n != NIL
      ensures !found ==> n' == n && freeItems == old(freeItems) && inUse == old(inUse) && pool[..] == old(pool[..])
      ensures found ==> freeItems == old(freeItems) + [from] && inUse == Released(old(inUse), from, target)
      ensures found ==> Taken(old(pool[..]), t, from, target, pool[..], t') && Lowered(t, n', t', res)
      ensures found ==> forall k {:trigger k in Keys(t)} :: k in Keys(t) ==> k <= Rank(old(pool[..])[from].payload)
      decreases t
    {
      ghost var before := pool[..];
      n', res, t', from := n, ResBalance, t, 0;
      if n == NIL { return false, n', res, t', from; }
      found := true;
      if pool[n].right != NIL {
        var child: int;
        ghost var right: Tree;
        found, child, res, right, from := FindHighest(pool[n].right, target, t.right);
        n', res, t' := RightCut(n, child, res, t, before, from, Rank(before[from].payload), target, right);
        return;
      }
      Reassign(n, target);
      HighestHere(before, t, target, pool[..]);
      from := n;
      n', t' := pool[n].left, t.left;
      FreeNode(n);
    }

    /** Takes the node with the lowest key out of the tree at n, and stores its payload in target. */
    method FindLowest(n: int, target: nat, ghost t: Tree) returns (found: bool, n': int, res: Result, ghost t': Tree, ghost from: nat)
      requires Holds(pool[..], t) && n == Root(t) && Avl(t) && target < pool.Length && target !in Ids(t)
      modifies this`freeItems, this`inUse, pool
      ensures found <==> n != NIL
      ensures !found ==> n' == n && freeItems == old(freeItems) && inUse == old(inUse) && pool[..] == old(pool[..])
      ensures found ==> freeItems == old(freeItems) + [from] && inUse == Released(old(inUse), from, target)
      ensures found ==> Taken(old(pool[..]), t, from, target, pool[..], t') && Lowered(t, n', t', res)
      ensures found ==> forall k {:trigger k in Keys(t)} :: k in Keys(t) ==> Rank(old(pool[..])[from].payload) <= k
      decreases t
    {
      ghost var before := pool[..];
      n', res, t', from := n, ResBalance, t, 0;
      if n == NIL { return false, n', res, t', from; }
      found := true;
      if pool[n].left != NIL {
        var child: int;
        ghost var left: Tree;
        found, child, res, left, from := FindLowest(pool[n].left, target, t.left);
        n', res, t' := LeftCut(n, child, res, t, before, from, Rank(before[from].payload), target, left);
        return;
      }
      Reassign(n, target);
      LowestHere(before, t, target, pool[..]);
      from := n;
      n', t' := pool[n].right, t.right;
      FreeNode(n);
    }

    /** Removes a key from the tree at n, which becomes the tree at n'. */
    method RemoveAt(n: int, oldDatum: Payload, ghost t: Tree) returns (n': int, res: Result, ghost t': Tree, ghost from: nat, ghost x: nat)
      requires Holds(pool[..], t) && n == Root(t) && Avl(t)
      modifies this`freeItems, this`inUse, pool
      ensures RemoveDone(old(pool[..]), old(freeItems), old(inUse), t, Rank(oldDatum), pool[..], freeItems, inUse, n', t', res, from, x)
      decreases t
    {
      ghost var before := pool[..];
      n', res, t', from, x := n, ResNotFound, t, 0, 0;
      if n == NIL { return; }
      var cmp := Compare(pool[n].payload, oldDatum);
      CompareRank(pool[n].payload, oldDatum);
      var child: int;
      ghost var sub: Tree;
      if cmp > 0 {
        assert Rank(oldDatum) in Keys(t) <==> Rank(oldDatum) in Keys(t.left);
        child, res, sub, from, x := RemoveAt(pool[n].left, oldDatum, t.left);
        if !res.ResNotFound? {
          n', res, t' := LeftCut(n, child, res, t, before, from, Rank(oldDatum), x, sub);
        }
      } else if cmp < 0 {
        assert Rank(oldDatum) in Keys(t) <==> Rank(oldDatum) in Keys(t.right);
        child, res, sub, from, x := RemoveAt(pool[n].right, oldDatum, t.right);
        if !res.ResNotFound? {
          n', res, t' := RightCut(n, child, res, t, before, from, Rank(oldDatum), x, sub);
        }
      } else {
        n', res, t', from := RemoveNode(n, t);
        x := n;
      }
    }

    /** Removes the node at the top. */
    method RemoveNode(n: nat, ghost t: Tree) returns (n': int, res: Result, ghost t': Tree, ghost from: nat)
      requires Holds(pool[..], t) && n == Root(t) && Avl(t) && t.Node?
      modifies this`freeItems, this`inUse, pool
      ensures freeItems == old(freeItems) + [from] && inUse == Released(old(inUse), from, n)
      ensures Cut(old(pool[..]), t, from, Rank(t.payload), n, pool[..], t') && Lowered(t, n', t', res)
    {
      ghost var before := pool[..];
      var found: bool;
      var child: int;
      ghost var sub: Tree;
      if pool[n].left != NIL {
        found, child, res, sub, from := FindHighest(pool[n].left, n, t.left);
        n', res, t' := HighestTaken(n, child, res, t, before, from, sub);
        return;
      }
      if pool[n].right != NIL {
        found, child, res, sub, from := FindLowest(pool[n].right, n, t.right);
        n', res, t' := LowestTaken(n, child, res, t, before, from, sub);
        return;
      }
      FreeNode(n);
      n', res, t', from := NIL, ResBalance, Nil, n;
    }

    method HighestTaken(n: nat, child: int, res1: Result, ghost t: Tree, ghost before: seq<Entry>, ghost from: nat, ghost left: Tree)
      returns (n': int, res: Result, ghost t': Tree)
      requires Holds(before, t) && Avl(t) && t.Node? && n == t.id && n < pool.Length
      requires Taken(before, t.left, from, n, pool[..], left) && Lowered(t.left, child, left, res1)
      requires forall k {:trigger k in Keys(t.left)} :: k in Keys(t.left) ==> k <= Rank(before[from].payload)
      modifies pool
      ensures Cut(before, t, from, Rank(t.payload), n, pool[..], t') && Lowered(t, n', t', res)
    {
      ghost var pool1 := pool[..];
      pool[n] := pool[n].(left := child);
      CutByHighest(before, t, from, pool1, left, pool[..]);
      LeftLowered(t, child, left, res1);
      n', res, t' := SettleLeft(n, res1, t, Node(n, left, t.skew, before[from].payload, t.right), before, from, Rank(t.payload), n);
    }

    method LowestTaken(n: nat, child: int, res1: Result, ghost t: Tree, ghost before: seq<Entry>, ghost from: nat, ghost right: Tree)
      returns (n': int, res: Result, ghost t': Tree)
      requires Holds(before, t) && Avl(t) && t.Node? && n == t.id && n < pool.Length
      requires Taken(before, t.right, from, n, pool[..], right) && Lowered(t.right, child, right, res1)
      requires forall k {:trigger k in Keys(t.right)} :: k in Keys(t.right) ==> Rank(before[from].payload) <= k
      modifies pool
      ensures Cut(before, t, from, Rank(t.payload), n, pool[..], t') && Lowered(t, n', t', res)
    {
      ghost var pool1 := pool[..];
      pool[n] := pool[n].(right := child);
      CutByLowest(before, t, from, pool1, right, pool[..]);
      RightLowered(t, child, right, res1);
      n', res, t' := SettleRight(n, res1, t, Node(n, t.left, t.skew, before[from].payload, right), before, from, Rank(t.payload), n);
    }

    /** Removes the least recently used key, which leaves one free node. */
    method Evict()
      requires NodesOk() && AnswersOk() && Unique(recent) && freeItems == [] && inUse != []
      modifies this`root, this`freeItems, this`inUse, this`tree, this`recent, pool
      ensures NodesOk() && AnswersOk() && |freeItems| == 1
      ensures recent == old(recent)[..|old(recent)| - 1]
      ensures Keys(tree) <= Keys(old(tree))
    {
      ghost var p, pool0, inUse0, tree0 := |inUse| - 1, pool[..], inUse, tree;
      var en := inUse[|inUse| - 1];
      NodeKey(pool0, tree, en);
      var res: Result;
      ghost var from: nat, x: nat;
      root, res, tree, from, x := RemoveAt(root, pool[en].payload, tree);
      SameKey(pool0, tree0, x, en);
      assert Has(inUse0, from);
      ReleasedKeys(pool0, inUse0, recent, p, from, pool[..]);
      ReleasedNodes(inUse0, p, from);
      ReleasedPoint(inUse0, p, from);
      WithoutAt(recent, recent[p], p);
      recent := Without(recent, recent[p]);
      NodesLeft(inUse, inUse0, from, tree0, tree);
    }

    /** Adds a key that is not there as the most recently used one. */
    method Add(payload: Payload)
      requires NodesOk() && AnswersOk() && freeItems != [] && Rank(payload) !in Keys(tree)
      requires resolve(KeyOf(payload)) == Found(payload.md)
      modifies this`root, this`freeItems, this`inUse, this`tree, this`recent, pool
      ensures NodesOk() && AnswersOk()
      ensures recent == [KeyOf(payload)] + old(recent)
    {
      ghost var pool0, inUse0, tree0, x := pool[..], inUse, tree, freeItems[0];
      ghost var free0 := freeItems;
      var res: Result;
      root, res, tree := InsertAt(root, payload, tree);
      recent := [KeyOf(payload)] + recent;
      NodesAdded(inUse0, Ids(tree0), x);
      RestFree(free0, Ids(tree0), pool.Length);
      forall i {:trigger inUse[i]} | 0 <= i < |inUse| ensures pool[inUse[i]].payload == if i == 0 then payload else pool0[inUse0[i - 1]].payload {
        if i > 0 { assert inUse[i] == inUse0[i - 1] && inUse0[i - 1] in Ids(tree0); }
      }
    }

    /** Looks up the method that mdVirtual stands for in class cls. */
    method FindVirtualMethod(key: Key) returns (r: Method)
      requires Valid()
      modifies this`root, this`freeItems, this`inUse, this`tree, this`recent, this`uses, pool
      ensures Valid()
      ensures r == if owns(key) then Found(key.mdVirtual) else resolve(key)
      ensures owns(key) || resolve(key).NotFound? ==> uses == old(uses) && recent == old(recent)
      ensures !owns(key) && resolve(key).Found? ==> uses == old(uses) + [key] && recent == Touch(old(recent), key, pool.Length)
    {
      if owns(key) { return Found(key.mdVirtual); }
      var en: int;
      ghost var steps: nat;
      en, steps := Find(Payload(key.mdVirtual, key.cls, 0));
      if en != NIL {
        r := Hit(en, key);
      } else {
        r := resolve(key);
        if r.NotFound? { return; }
        Miss(Payload(key.mdVirtual, key.cls, r.md));
      }
      uses := uses + [key];
      RunNext(old(uses), key, pool.Length);
    }

    /** The node becomes the first of the list of nodes in use. */
    method Hit(en: nat, ghost key: Key) returns (r: Method)
      requires NodesOk() && AnswersOk() && Unique(recent) && en in Ids(tree) && en < pool.Length && KeyOf(pool[en].payload) == key
      modifies this`inUse, this`recent
      ensures NodesOk() && AnswersOk() && r == resolve(key) && r.Found?
      ensures recent == Touch(old(recent), key, pool.Length)
    {
      assert Has(inUse, en);
      ghost var inUse0, recent0 := inUse, recent;
      ghost var p :| 0 <= p < |inUse| && inUse[p] == en;
      r := Found(pool[en].payload.md);
      HitKeys(pool[..], inUse, recent, p, resolve);
      inUse := ToFront(inUse, en);
      recent := ToFront(recent, key);
      forall i {:trigger inUse[i]} | 0 <= i < |inUse| ensures inUse[i] in Ids(tree) {
        assert Has(inUse0, inUse[i]);
      }
      forall i {:trigger Has(inUse, i)} | i in Ids(tree) ensures Has(inUse, i) {
        assert Has(inUse0, i);
      }
    }

    /** The answer takes a free node, or that of the least recently used key. */
    method Miss(payload: Payload)
      requires NodesOk() && AnswersOk() && Unique(recent) && Rank(payload) !in Keys(tree)
      requires resolve(KeyOf(payload)) == Found(payload.md)
      modifies this`root, this`freeItems, this`inUse, this`tree, this`recent, pool
      ensures NodesOk() && AnswersOk()
      ensures recent == Touch(old(recent), KeyOf(payload), pool.Length)
    {
      KeyNotRecent(pool[..], tree, inUse, recent, payload);
      WithoutAbsent(recent, KeyOf(payload));
      if freeItems == [] {
        if inUse == [] { return; }
        Evict();
      }
      Add(payload);
      assert recent == Touch(old(recent), KeyOf(payload), pool.Length);
    }
  }
}
