/** The list of the tree nodes in use, in order of use, and what becomes of it when a node is removed. */
module NodesInUse {
  import opened Lru
  import opened NodeList
  import opened AvlTree

  datatype Key = Key(mdVirtual: uint32, cls: uint32)
  datatype Method = Found(md: uint32) | NotFound

  function InsertAfter(s: seq<nat>, a: nat, x: nat): seq<nat> {
    if s == [] then []
    else if s[0] == a then [a, x] + s[1..]
    else [s[0]] + InsertAfter(s[1..], a, x)
  }

  /** Node to takes the place behind node from. */
  function Reassigned(s: seq<nat>, from: nat, to: nat): seq<nat> {
    InsertAfter(Without(s, to), from, to)
  }

  /** The list of nodes in use after from is freed and, if another one, x has taken over its payload. */
  function Released(inUse: seq<nat>, from: nat, x: nat): seq<nat> {
    if from == x then Without(inUse, from) else Without(Reassigned(inUse, from, x), from)
  }

  lemma {:induction false} InsertAfterAt(s: seq<nat>, a: nat, x: nat, j: nat)
    requires Unique(s) && j < |s| && s[j] == a
    ensures Inserted(s, j + 1, x, InsertAfter(s, a, x))
  {
    if j > 0 {
      InsertAfterAt(s[1..], a, x, j - 1);
    }
  }

  lemma InsertedUnique(s: seq<nat>, k: nat, x: nat, r: seq<nat>)
    requires Unique(s) && Inserted(s, k, x, r) && forall i :: 0 <= i < |s| ==> s[i] != x
    ensures Unique(r)
  {
    forall i, j | 0 <= i < j < |r| ensures r[i] != r[j] {
      assert i == k || r[i] == s[if i < k then i else i - 1];
      assert j == k || r[j] == s[if j < k then j else j - 1];
    }
  }

  /** Taking out place p, inserting the same element behind place q, and taking out place q. */
  lemma ReleasedAt(s: seq<nat>, p: nat, k: nat, w: seq<nat>, q: nat, v: seq<nat>, r: seq<nat>)
    requires Unique(s) && p < |s| && k < |s| && k != p && q == (if k < p then k else k - 1)
    requires Removed(s, p, w) && Inserted(w, q + 1, s[p], v) && Removed(v, q, r)
    ensures |r| == |s| - 1
    ensures forall i {:trigger r[i]} :: 0 <= i < |r| ==> r[i] == ReleasedNode(s, p, s[k], i)
  {
    forall i {:trigger r[i]} | 0 <= i < |r| ensures r[i] == ReleasedNode(s, p, s[k], i) {
      var j := if i < p then i else i + 1;
      assert w[i] == s[j];
      if i < q {
        assert r[i] == v[i] == w[i];
        assert j != k;
      } else if i == q {
        assert r[i] == v[i + 1] == s[p];
        assert j == k;
      } else {
        assert r[i] == v[i + 1] == w[i];
        assert j != k;
      }
    }
  }

  /** The i-th node of the list after the removal of the p-th payload has freed node from. */
  function ReleasedNode(inUse: seq<nat>, p: nat, from: nat, i: nat): nat
    requires p < |inUse| && i < |inUse| - 1
  {
    var e := inUse[if i < p then i else i + 1];
    if e == from then inUse[p] else e
  }

  /** inUse without its p-th node x, except that from, if it is another node, has become x. */
  lemma ReleasedPoint(inUse: seq<nat>, p: nat, from: nat)
    requires Unique(inUse) && p < |inUse| && Has(inUse, from)
    ensures |Released(inUse, from, inUse[p])| == |inUse| - 1
    ensures forall i {:trigger Released(inUse, from, inUse[p])[i]} :: 0 <= i < |inUse| - 1 ==>
      Released(inUse, from, inUse[p])[i] == ReleasedNode(inUse, p, from, i)
  {
    var x := inUse[p];
    var w := Without(inUse, x);
    WithoutPoint(inUse, x, p);
    if from != x {
      var k :| 0 <= k < |inUse| && inUse[k] == from;
      var q := if k < p then k else k - 1;
      assert w[q] == from;
      RemovedUnique(inUse, p, w);
      var v := InsertAfter(w, from, x);
      InsertAfterAt(w, from, x, q);
      InsertedUnique(w, q + 1, x, v);
      WithoutPoint(v, from, q);
      ReleasedAt(inUse, p, k, w, q, v, Without(v, from));
    }
  }

  lemma RemovedUnique(s: seq<nat>, p: nat, w: seq<nat>)
    requires Unique(s) && Removed(s, p, w)
    ensures Unique(w) && forall i :: 0 <= i < |w| ==> w[i] != s[p]
  {
    forall i, j | 0 <= i < j < |w| ensures w[i] != w[j] {
      assert s[if i < p then i else i + 1] != s[if j < p then j else j + 1];
    }
  }

  function KeyOf(p: Payload): Key {
    Key(p.mdVirtual, p.cls)
  }

  /** The keys of the nodes of a list. */
  ghost predicate KeysAre(pool: seq<Entry>, inUse: seq<nat>, recent: seq<Key>) {
    && |recent| == |inUse|
    && (forall i {:trigger inUse[i]} :: 0 <= i < |inUse| ==> inUse[i] < |pool|)
    && (forall i {:trigger recent[i]} :: 0 <= i < |recent| ==> recent[i] == KeyOf(pool[inUse[i]].payload))
  }

  /** Freeing the node of the p-th key takes that key out of the order of use and leaves the order of the
      others alone, even if it is another node that goes back to the free list. */
  lemma ReleasedKeys(pool: seq<Entry>, inUse: seq<nat>, recent: seq<Key>, p: nat, from: nat, pool': seq<Entry>)
    requires KeysAre(pool, inUse, recent) && Unique(inUse) && Unique(recent) && p < |inUse| && |pool'| == |pool|
    requires Has(inUse, from)
    requires forall i {:trigger pool'[i]} :: 0 <= i < |pool| && i != inUse[p] ==> pool'[i].payload == pool[i].payload
    requires pool'[inUse[p]].payload == pool[from].payload
    ensures KeysAre(pool', Released(inUse, from, inUse[p]), Without(recent, recent[p]))
    ensures |Released(inUse, from, inUse[p])| == |inUse| - 1
    ensures forall i {:trigger Released(inUse, from, inUse[p])[i]} :: 0 <= i < |inUse| - 1 ==>
      pool'[Released(inUse, from, inUse[p])[i]].payload == pool[inUse[if i < p then i else i + 1]].payload
  {
    WithoutPoint(recent, recent[p], p);
    ReleasedPoint(inUse, p, from);
    var rest := Released(inUse, from, inUse[p]);
    forall i {:trigger rest[i]} | 0 <= i < |rest|
      ensures rest[i] < |pool| && pool'[rest[i]].payload == pool[inUse[if i < p then i else i + 1]].payload
    {
      var j := if i < p then i else i + 1;
      assert inUse[j] != inUse[p];
    }
    forall i {:trigger Without(recent, recent[p])[i]} | 0 <= i < |rest| ensures Without(recent, recent[p])[i] == KeyOf(pool'[rest[i]].payload) {
      var j := if i < p then i else i + 1;
      assert recent[j] == KeyOf(pool[inUse[j]].payload);
    }
  }

  lemma ReleasedNodes(inUse: seq<nat>, p: nat, from: nat)
    requires Unique(inUse) && p < |inUse| && Has(inUse, from)
    ensures Unique(Released(inUse, from, inUse[p]))
    ensures forall i {:trigger Has(Released(inUse, from, inUse[p]), i)} ::
      Has(Released(inUse, from, inUse[p]), i) <==> Has(inUse, i) && i != from
  {
    ReleasedPoint(inUse, p, from);
    var rest := Released(inUse, from, inUse[p]);
    var q :| 0 <= q < |inUse| && inUse[q] == from;
    forall i, j | 0 <= i < j < |rest| ensures rest[i] != rest[j] {
      assert inUse[if i < p then i else i + 1] != inUse[if j < p then j else j + 1];
      assert inUse[if i < p then i else i + 1] != inUse[p] && inUse[if j < p then j else j + 1] != inUse[p];
    }
    forall i {:trigger Has(rest, i)} ensures Has(rest, i) <==> Has(inUse, i) && i != from {
      if Has(inUse, i) && i != from {
        var j :| 0 <= j < |inUse| && inUse[j] == i;
        var k := if j == p then q else j;
        assert rest[if k < p then k else k - 1] == i;
      }
      if Has(rest, i) {
        var j :| 0 <= j < |rest| && rest[j] == i;
        assert inUse[if j < p then j else j + 1] == i || i == inUse[p];
        assert inUse[if j < p then j else j + 1] != inUse[p];
      }
    }
  }

  lemma HitKeys(pool: seq<Entry>, inUse: seq<nat>, recent: seq<Key>, p: nat, resolve: Key -> Method)
    requires KeysAre(pool, inUse, recent) && Unique(inUse) && Unique(recent) && p < |inUse|
    requires forall i {:trigger inUse[i]} :: 0 <= i < |inUse| ==> resolve(recent[i]) == Found(pool[inUse[i]].payload.md)
    ensures KeysAre(pool, ToFront(inUse, inUse[p]), ToFront(recent, recent[p])) && Unique(ToFront(inUse, inUse[p]))
    ensures |ToFront(inUse, inUse[p])| == |inUse|
    ensures forall i {:trigger Has(inUse, i)} :: Has(inUse, i) ==> Has(ToFront(inUse, inUse[p]), i)
    ensures forall i {:trigger ToFront(inUse, inUse[p])[i]} :: 0 <= i < |inUse| ==>
      Has(inUse, ToFront(inUse, inUse[p])[i]) &&
      resolve(ToFront(recent, recent[p])[i]) == Found(pool[ToFront(inUse, inUse[p])[i]].payload.md)
  {
    WithoutPoint(inUse, inUse[p], p);
    WithoutPoint(recent, recent[p], p);
    ToFrontUnique(inUse, inUse[p]);
    var after := ToFront(inUse, inUse[p]);
    forall i {:trigger after[i]} | 0 <= i < |inUse| ensures after[i] == inUse[if i == 0 then p else if i <= p then i - 1 else i] {}
    forall i {:trigger Has(inUse, i)} | Has(inUse, i) ensures Has(after, i) {
      var j :| 0 <= j < |inUse| && inUse[j] == i;
      assert after[if j == p then 0 else if j < p then j + 1 else j] == i;
    }
  }

  /** A free node has come into use, as the first of the list. */
  lemma NodesAdded(inUse: seq<nat>, ids: set<nat>, x: nat)
    requires Unique(inUse) && x !in ids
    requires forall i {:trigger inUse[i]} :: 0 <= i < |inUse| ==> inUse[i] in ids
    requires forall i {:trigger Has(inUse, i)} :: i in ids ==> Has(inUse, i)
    ensures var more := [x] + inUse;
      && Unique(more) && (forall i {:trigger more[i]} :: 0 <= i < |more| ==> more[i] in ids + {x})
      && (forall i {:trigger Has(more, i)} :: i in ids + {x} ==> Has(more, i))
  {
    var more := [x] + inUse;
    forall i {:trigger Has(more, i)} | i in ids + {x} ensures Has(more, i) {
      if i == x {
        assert more[0] == i;
      } else {
        assert Has(inUse, i);
        var j :| 0 <= j < |inUse| && inUse[j] == i;
        assert more[j + 1] == i;
      }
    }
  }

  /** The other free nodes are still free. */
  lemma RestFree(free: seq<nat>, ids: set<nat>, n: nat)
    requires Unique(free) && free != [] && forall i {:trigger free[i]} :: 0 <= i < |free| ==> free[i] < n && free[i] !in ids
    ensures Unique(free[1..]) && forall i {:trigger free[1..][i]} :: 0 <= i < |free| - 1 ==> free[1..][i] < n && free[1..][i] !in ids + {free[0]}
  {
    forall i {:trigger free[1..][i]} | 0 <= i < |free| - 1 ensures free[1..][i] < n && free[1..][i] !in ids + {free[0]} {
      assert free[1..][i] == free[i + 1];
    }
  }
}
