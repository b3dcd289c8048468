/** One cluster of the heap: a tiled payload and the address-ordered list of its free blocks. */
module HeapCluster {
  import opened HeapMemory
  import opened NodeList

  /** What an allocation of length cells out of the free block fl[k] writes: a used header at res and,
      when the free block was larger, a free one at rest, in front of it (event) or behind it. */
  ghost predicate Carved(m: seq<Cell>, fl: seq<nat>, event: bool, length: nat, k: nat, res: nat, rest: nat, m': seq<Cell>, fl': seq<nat>) {
    && k < |fl| && fl[k] + length <= EndOf(m, fl[k]) <= |m| == |m'|
    && res == (if event then EndOf(m, fl[k]) - length else fl[k])
    && rest == (if EndOf(m, fl[k]) == fl[k] + length then res else if event then fl[k] else fl[k] + length)
    && (forall a {:trigger m'[a]} :: 0 <= a < |m| && !(fl[k] <= a < EndOf(m, fl[k])) ==> m'[a] == m[a])
    && EndOf(m', res) == res + length && !Free(m', res)
    && (rest != res ==> EndOf(m', rest) == if event then res else EndOf(m, fl[k]))
    && (rest != res ==> Free(m', rest) && m'[rest].pinned && !m'[rest].alive && !m'[rest].event)
    && (if res == rest then Removed(fl, k, fl') else fl' == fl[k := rest])
  }

  /** An allocation keeps the cluster well formed. */
  lemma Allocated(m: seq<Cell>, heads: set<nat>, lo: nat, hi: nat, fl: seq<nat>, event: bool, length: nat, k: nat,
                  res: nat, rest: nat, m': seq<Cell>, fl': seq<nat>)
    requires ClusterOk(m, heads, lo, hi, fl) && 1 <= length
    requires Carved(m, fl, event, length, k, res, rest, m', fl')
    ensures ClusterOk(m', heads + {res, rest}, lo, hi, fl')
    ensures lo <= res < hi
  {
    var src := fl[k];
    assert src in FreeHeads(m, heads, lo, hi);
    var cut := if res < rest then rest else res;
    assert src == if res < rest then res else rest;
    SplitTiled(m, heads, m', lo, hi, src, cut);
    assert heads + {res, rest} == heads + {cut};
    AllocatedList(m, heads, lo, hi, fl, k, m', res, rest, fl');
    AllocatedCoalesced(m, heads, lo, hi, src, m', res, rest);
    forall x {:trigger Free(m', x)} | x in heads + {res, rest} && lo <= x < hi && Free(m', x)
      ensures m'[x].pinned && !m'[x].alive && !m'[x].event
    {
      assert x != rest ==> m'[x] == m[x] && Free(m, x);
    }
  }

  lemma AllocatedList(m: seq<Cell>, heads: set<nat>, lo: nat, hi: nat, fl: seq<nat>, k: nat, m': seq<Cell>, res: nat, rest: nat, fl': seq<nat>)
    requires Tiled(m, heads, lo, hi)
    requires Lists(fl, FreeHeads(m, heads, lo, hi)) && k < |fl|
    requires fl[k] == if res < rest then res else rest
    requires lo <= rest < EndOf(m, fl[k]) <= hi
    requires if res == rest then Removed(fl, k, fl') else fl' == fl[k := rest]
    requires !Free(m', res) && (res != rest ==> Free(m', rest))
    requires forall x {:trigger m'[x]} :: x in heads && lo <= x < hi && x != fl[k] ==> x < |m'| == |m| && m'[x] == m[x]
    ensures Lists(fl', FreeHeads(m', heads + {res, rest}, lo, hi))
  {
    var free := FreeHeads(m, heads, lo, hi);
    if res == rest {
      ListsRemove(fl, free, k, fl');
      assert FreeHeads(m', heads + {res, rest}, lo, hi) == free - {fl[k]};
    } else {
      forall i | k < i < |fl| ensures rest < fl[i] {
        assert EndOf(m, fl[k]) <= fl[i];
      }
      ListsReplace(fl, free, k, rest);
      assert FreeHeads(m', heads + {res, rest}, lo, hi) == free - {fl[k]} + {rest};
    }
  }

  lemma AllocatedCoalesced(m: seq<Cell>, heads: set<nat>, lo: nat, hi: nat, src: nat, m': seq<Cell>, res: nat, rest: nat)
    requires Tiled(m, heads, lo, hi) && Coalesced(m, heads, lo, hi) && |m'| == |m|
    requires src in heads && lo <= src < hi && Free(m, src)
    requires res < hi && rest < hi && !Free(m', res) && src == if res < rest then res else rest
    requires rest < res ==> EndOf(m', rest) == res
    requires res < rest ==> EndOf(m', rest) == EndOf(m, src)
    requires forall x {:trigger m'[x]} :: x in heads && lo <= x < hi && x != src ==> m'[x] == m[x]
    ensures Coalesced(m', heads + {res, rest}, lo, hi)
  {
    forall x {:trigger EndOf(m', x)} | x in heads + {res, rest} && lo <= x < hi && Free(m', x) && EndOf(m', x) < hi
      ensures !Free(m', EndOf(m', x))
    {
      var y := if x == rest then src else x;
      assert y in heads && Free(m, y);
      if x == src && rest == src {
        assert EndOf(m', rest) == res;
      } else {
        assert EndOf(m', x) == EndOf(m, y) && !Free(m, EndOf(m, y));
        assert EndOf(m, y) == src || m'[EndOf(m, y)] == m[EndOf(m, y)];
      }
    }
  }

  const ZEROED := Cell(Other, 0, false, false, false, NULL)

  /** None of the free blocks fl[i], lo <= i < hi, has length cells. */
  ghost predicate NoneFits(m: seq<Cell>, fl: seq<nat>, lo: nat, hi: nat, length: nat) {
    forall i :: lo <= i < hi && i < |fl| ==> EndOf(m, fl[i]) < fl[i] + length
  }

  lemma FreeBlockBounds(m: seq<Cell>, heads: set<nat>, lo: nat, hi: nat, fl: seq<nat>, k: nat)
    requires ClusterOk(m, heads, lo, hi, fl) && k < |fl|
    ensures lo <= fl[k] < EndOf(m, fl[k]) <= hi && EndOf(m, fl[k]) - fl[k] < HB_MAX_SIZE
    ensures fl[k] in heads && Free(m, fl[k])
  {
    assert fl[k] in FreeHeads(m, heads, lo, hi);
  }

  /** The headers that reach the sweep: tiled, and no block that is already free is marked. */
  ghost predicate Sweepable(m: seq<Cell>, heads: set<nat>, lo: nat, hi: nat) {
    && 0 < lo && hi - lo < HB_MAX_SIZE
    && Tiled(m, heads, lo, hi)
    && (forall h {:trigger Free(m, h)} :: h in heads && lo <= h < hi && Free(m, h) ==> !m[h].alive)
  }

  /** What the sweep has made of [lo, p): every marked block is still there, unmarked unless it is an
      event record; every other block of the old tiling has been merged into a free block that
      extends up to the next marked block. */
  ghost predicate SweptTo(m: seq<Cell>, heads: set<nat>, lo: nat, hi: nat, p: nat, m': seq<Cell>, heads': set<nat>) {
    && p <= hi <= |m| == |m'|
    && (forall h {:trigger h in heads'} :: h in heads' ==> h in heads)
    && (forall h {:trigger h in heads} :: h in heads && !(lo <= h < p) ==> h in heads')
    && (forall h {:trigger h in heads} :: h in heads && lo <= h < p && m[h].alive ==> h in heads')
    && (forall a {:trigger m'[a]} :: 0 <= a < |m| && !(lo <= a < p && a in heads') ==> m'[a] == m[a])
    && (forall h {:trigger m'[h]} :: h in heads' && lo <= h < p && m[h].alive ==> m'[h] == m[h].(alive := m[h].event))
    && (forall h {:trigger Free(m', h)} :: h in heads' && lo <= h < p && !m[h].alive ==>
          Free(m', h) && m'[h].pinned && !m'[h].alive && !m'[h].event)
    && (forall h {:trigger EndOf(m', h)} :: h in heads' && lo <= h < p && !m[h].alive ==>
          EndOf(m', h) <= p && (EndOf(m', h) < hi ==> m[EndOf(m', h)].alive))
  }

  ghost predicate Swept(m: seq<Cell>, heads: set<nat>, lo: nat, hi: nat, m': seq<Cell>, heads': set<nat>) {
    SweptTo(m, heads, lo, hi, hi, m', heads')
  }

  ghost predicate SweepState(m: seq<Cell>, heads: set<nat>, lo: nat, hi: nat, p: nat, m': seq<Cell>, heads': set<nat>, fl: seq<nat>) {
    && lo <= p <= hi && (p < hi ==> p in heads')
    && Tiled(m', heads', lo, hi)
    && SweptTo(m, heads, lo, hi, p, m', heads')
    && Lists(fl, FreeHeads(m', heads', lo, p))
  }

  lemma SweepRun(m: seq<Cell>, heads: set<nat>, lo: nat, hi: nat, p: nat, m1: seq<Cell>, heads1: set<nat>, fl: seq<nat>, next: nat)
    requires Sweepable(m, heads, lo, hi)
    requires SweepState(m, heads, lo, hi, p, m1, heads1, fl)
    requires p < next <= hi && (next < hi ==> next in heads1 && m1[next].alive)
    requires forall h {:trigger h in heads1} :: h in heads1 && p <= h < next ==> !m1[h].alive
    ensures SweepState(m, heads, lo, hi, next, m1[p := SetFree(m1[p], next - p)], Merged(heads1, p, next), fl + [p])
  {
    var m2 := m1[p := SetFree(m1[p], next - p)];
    var heads2 := Merged(heads1, p, next);
    MergeTiled(m1, heads1, m2, lo, hi, p, next);
    assert m2[p] == SetFree(m1[p], next - p) && m1[p] == m[p];
    forall a {:trigger m2[a]} | 0 <= a < |m| && a != p ensures m2[a] == m1[a] {}
    SweepRunSwept(m, heads, lo, hi, p, m1, heads1, next, m2);
    var free := FreeHeads(m1, heads1, lo, p);
    forall h {:trigger Free(m2, h)} | h in heads2 && lo <= h < next && h != p ensures h < p && Free(m2, h) == Free(m1, h) {}
    assert FreeHeads(m2, heads2, lo, next) == free + {p};
    ListsAppend(fl, free, p);
  }

  lemma SweepRunSwept(m: seq<Cell>, heads: set<nat>, lo: nat, hi: nat, p: nat, m1: seq<Cell>, heads1: set<nat>, next: nat, m2: seq<Cell>)
    requires lo <= p < next <= hi <= |m| == |m1| && p in heads1 && (next < hi ==> next in heads1 && m1[next].alive)
    requires SweptTo(m, heads, lo, hi, p, m1, heads1)
    requires |m2| == |m1| && forall a {:trigger m2[a]} :: 0 <= a < |m| && a != p ==> m2[a] == m1[a]
    requires m2[p] == SetFree(m[p], next - p) && EndOf(m2, p) == next
    requires forall h {:trigger h in heads1} :: h in heads1 && p <= h < next ==> !m1[h].alive
    requires forall a {:trigger EndOf(m2, a)} :: a in Merged(heads1, p, next) && lo <= a < hi && a != p ==> EndOf(m2, a) == EndOf(m1, a)
    ensures SweptTo(m, heads, lo, hi, next, m2, Merged(heads1, p, next))
  {
    forall h {:trigger h in heads} | h in heads && lo <= h < next && m[h].alive ensures h in Merged(heads1, p, next) {
      assert h in heads1;
    }
    forall a {:trigger m2[a]} | 0 <= a < |m| && !(lo <= a < next && a in Merged(heads1, p, next)) ensures m2[a] == m[a] {
      assert m2[a] == m1[a];
    }
    forall h {:trigger m2[h]} | h in Merged(heads1, p, next) && lo <= h < next && m[h].alive ensures m2[h] == m[h].(alive := m[h].event) {
      assert h in heads1 && h != p;
    }
    forall h {:trigger Free(m2, h)} | h in Merged(heads1, p, next) && lo <= h < next && !m[h].alive
      ensures Free(m2, h) && m2[h].pinned && !m2[h].alive && !m2[h].event
    {
      assert h != p ==> m2[h] == m1[h] && Free(m1, h);
    }
    forall h {:trigger EndOf(m2, h)} | h in Merged(heads1, p, next) && lo <= h < next && !m[h].alive
      ensures EndOf(m2, h) <= next && (EndOf(m2, h) < hi ==> m[EndOf(m2, h)].alive)
    {
      assert h != p ==> EndOf(m1, h) <= p;
      assert next < hi ==> m1[next] == m[next];
    }
  }

  lemma SweepAlive(m: seq<Cell>, heads: set<nat>, lo: nat, hi: nat, p: nat, m1: seq<Cell>, heads1: set<nat>, fl: seq<nat>)
    requires Sweepable(m, heads, lo, hi)
    requires SweepState(m, heads, lo, hi, p, m1, heads1, fl)
    requires p < hi && m1[p].alive
    ensures SweepState(m, heads, lo, hi, EndOf(m1, p), m1[p := m1[p].(alive := m1[p].event)], heads1, fl)
  {
    var m2 := m1[p := m1[p].(alive := m1[p].event)];
    var next := EndOf(m1, p);
    assert p in heads;
    assert m1[p] == m[p] && !Free(m, p);
    forall a {:trigger m2[a]} | 0 <= a < |m| && a != p ensures m2[a] == m1[a] {}
    forall a {:trigger EndOf(m2, a)} | 0 <= a < |m| ensures EndOf(m2, a) == EndOf(m1, a) {}
    forall a {:trigger Free(m2, a)} | 0 <= a < |m| ensures Free(m2, a) == Free(m1, a) {}
    forall h {:trigger h in heads1} | h in heads1 && lo <= h < next ensures h <= p {}
    assert FreeHeads(m2, heads1, lo, next) == FreeHeads(m1, heads1, lo, p);
    forall h {:trigger h in heads} | h in heads && lo <= h < next && m[h].alive ensures h in heads1 {}
    forall h {:trigger m2[h]} | h in heads1 && lo <= h < next && m[h].alive ensures m2[h] == m[h].(alive := m[h].event) {}
    forall h {:trigger Free(m2, h)} | h in heads1 && lo <= h < next && !m[h].alive
      ensures Free(m2, h) && m2[h].pinned && !m2[h].alive && !m2[h].event
    {
      assert h < p && Free(m1, h) && m2[h] == m1[h];
    }
    forall h {:trigger EndOf(m2, h)} | h in heads1 && lo <= h < next && !m[h].alive
      ensures EndOf(m2, h) <= next && (EndOf(m2, h) < hi ==> m[EndOf(m2, h)].alive)
    {
      assert h < p && EndOf(m1, h) <= p;
    }
    assert SweptTo(m, heads, lo, hi, next, m2, heads1);
  }

  lemma SweepDone(m: seq<Cell>, heads: set<nat>, lo: nat, hi: nat, m': seq<Cell>, heads': set<nat>, fl: seq<nat>)
    requires Sweepable(m, heads, lo, hi)
    requires SweepState(m, heads, lo, hi, hi, m', heads', fl)
    ensures ClusterOk(m', heads', lo, hi, fl)
  {
    forall h {:trigger Free(m', h)} | h in heads' && lo <= h < hi && m[h].alive ensures !Free(m', h) {
      assert m'[h] == m[h].(alive := m[h].event) && !Free(m, h);
    }
    forall x {:trigger EndOf(m', x)} | x in heads' && lo <= x < hi && Free(m', x) && EndOf(m', x) < hi
      ensures !Free(m', EndOf(m', x))
    {
      assert m[EndOf(m', x)].alive && EndOf(m', x) in heads';
    }
  }

  /** A cluster in which [node, node + size) has just become unused: all the rest is well formed, and
      would be tiled if a free header of that size stood at node. */
  ghost predicate HoleOk(m: seq<Cell>, heads: set<nat>, lo: nat, hi: nat, fl: seq<nat>, node: nat, size: nat) {
    && 0 < lo && hi - lo < HB_MAX_SIZE
    && node in heads && lo <= node < node + size <= hi <= |m|
    && Tiled(m[node := SetFree(m[node], size)], heads, lo, hi)
    && Lists(fl, FreeHeads(m, heads, lo, hi) - {node})
    && (forall x {:trigger Free(m, x)} :: x in heads && lo <= x < hi && x != node && Free(m, x) ==> m[x].pinned && !m[x].alive && !m[x].event)
    && (forall x {:trigger EndOf(m, x)} :: x in heads && lo <= x < hi && x != node && Free(m, x) && EndOf(m, x) < hi ==>
          EndOf(m, x) == node || !Free(m, EndOf(m, x)))
  }

  /** Where the merged free block starts and ends: it takes in the neighbours in the list that touch. */
  ghost function MergeStart(m: seq<Cell>, fl: seq<nat>, k: nat, node: nat): nat {
    if 0 < k <= |fl| && EndOf(m, fl[k - 1]) == node then fl[k - 1] else node
  }

  ghost function MergeEnd(m: seq<Cell>, fl: seq<nat>, k: nat, end: nat): nat {
    if k < |fl| && fl[k] == end then EndOf(m, end) else end
  }

  /** k is the place of node in the list. */
  ghost predicate PlaceOf(fl: seq<nat>, k: nat, node: nat) {
    && k <= |fl|
    && (forall i :: 0 <= i < k ==> fl[i] < node)
    && (forall i :: k <= i < |fl| ==> node < fl[i])
  }

  /** The list after inserting node at k and dropping the merged neighbours. */
  ghost function LinkedSet(m: seq<Cell>, fl: seq<nat>, k: nat, node: nat, size: nat, s: set<nat>): set<nat> {
    var merged := if k < |fl| && fl[k] == node + size then s + {node} - {node + size} else s + {node};
    if MergeStart(m, fl, k, node) == node then merged else merged - {node}
  }

  lemma HoleBounds(m: seq<Cell>, heads: set<nat>, lo: nat, hi: nat, fl: seq<nat>, node: nat, size: nat, k: nat)
    requires HoleOk(m, heads, lo, hi, fl, node, size) && PlaceOf(fl, k, node)
    ensures var r, e := MergeStart(m, fl, k, node), MergeEnd(m, fl, k, node + size);
      && lo <= r <= node && r in heads
      && node + size <= e <= hi && (e < hi ==> e in heads)
      && (forall x {:trigger x in heads} :: x in heads && r < x < e ==> x == node || x == node + size)
      && (r < node ==> Free(m, r) && EndOf(m, r) == node && k > 0 && r == fl[k - 1])
      && (node + size < e ==> Free(m, node + size) && node + size in heads && e == EndOf(m, node + size))
  {
    var m1 := m[node := SetFree(m[node], size)];
    var r, e := MergeStart(m, fl, k, node), MergeEnd(m, fl, k, node + size);
    assert EndOf(m1, node) == node + size;
    if r < node {
      assert fl[k - 1] in FreeHeads(m, heads, lo, hi) - {node};
      assert EndOf(m1, r) == EndOf(m, r);
    }
    if e > node + size {
      assert fl[k] in FreeHeads(m, heads, lo, hi) - {node};
      assert EndOf(m1, node + size) == EndOf(m, node + size);
    }
  }

  /** Every free header next to the hole is found at its place in the list. */
  lemma HoleNeighbours(m: seq<Cell>, heads: set<nat>, lo: nat, hi: nat, fl: seq<nat>, node: nat, size: nat, k: nat, x: nat)
    requires HoleOk(m, heads, lo, hi, fl, node, size) && PlaceOf(fl, k, node)
    requires x in heads && lo <= x < hi && x != node && Free(m, x)
    ensures EndOf(m, x) == node ==> x == MergeStart(m, fl, k, node)
    ensures x == node + size ==> MergeEnd(m, fl, k, node + size) == EndOf(m, x)
  {
    var m1 := m[node := SetFree(m[node], size)];
    assert EndOf(m1, x) == EndOf(m, x) && EndOf(m1, node) == node + size;
    assert x in FreeHeads(m, heads, lo, hi) - {node};
    assert Has(fl, x);
    var i :| 0 <= i < |fl| && fl[i] == x;
  }

  lemma HoleFreeHeads(m: seq<Cell>, heads: set<nat>, lo: nat, hi: nat, fl: seq<nat>, node: nat, size: nat, k: nat)
    requires HoleOk(m, heads, lo, hi, fl, node, size) && PlaceOf(fl, k, node)
    ensures var r, e := MergeStart(m, fl, k, node), MergeEnd(m, fl, k, node + size);
      r < |m| && node + size <= e && r <= node &&
      FreeHeads(m[r := SetFree(m[r], e - r)], Merged(heads, r, e), lo, hi)
        == LinkedSet(m, fl, k, node, size, FreeHeads(m, heads, lo, hi) - {node})
  {
    HoleBounds(m, heads, lo, hi, fl, node, size, k);
    var r, e := MergeStart(m, fl, k, node), MergeEnd(m, fl, k, node + size);
    var m' := m[r := SetFree(m[r], e - r)];
    var left, right := FreeHeads(m', Merged(heads, r, e), lo, hi), LinkedSet(m, fl, k, node, size, FreeHeads(m, heads, lo, hi) - {node});
    assert Free(m', r);
    forall x {:trigger x in left} {:trigger x in right} ensures x in left <==> x in right {
      assert x != r ==> Free(m', x) == Free(m, x);
      if x == node + size && k < |fl| && fl[k] == node + size {
        assert fl[k] in FreeHeads(m, heads, lo, hi) - {node};
        assert EndOf(m[node := SetFree(m[node], size)], node + size) == EndOf(m, node + size);
        assert r < x < e;
      }
    }
  }

  lemma HoleNext(m: seq<Cell>, heads: set<nat>, lo: nat, hi: nat, fl: seq<nat>, node: nat, size: nat, k: nat, x: nat)
    requires HoleOk(m, heads, lo, hi, fl, node, size) && PlaceOf(fl, k, node)
    requires x in heads && lo <= x < hi
    ensures var r, e := MergeStart(m, fl, k, node), MergeEnd(m, fl, k, node + size);
      && (x != node && x != r && Free(m, x) && (x < r || e <= x) && EndOf(m, x) < hi ==> EndOf(m, x) != r && !Free(m, EndOf(m, x)))
      && (x == r && e < hi ==> !Free(m, e))
  {
    HoleBounds(m, heads, lo, hi, fl, node, size, k);
    var r, e := MergeStart(m, fl, k, node), MergeEnd(m, fl, k, node + size);
    if x != node && x != r && Free(m, x) && (x < r || e <= x) && EndOf(m, x) < hi {
      HoleNeighbours(m, heads, lo, hi, fl, node, size, k, x);
      assert EndOf(m, x) != node;
    }
    if x == r && e < hi {
      if e == node + size {
        if Free(m, e) {
          HoleNeighbours(m, heads, lo, hi, fl, node, size, k, e);
          assert false;
        }
      } else {
        assert EndOf(m, node + size) == e;
      }
    }
  }

  /** Freeing a hole gives a well-formed cluster whose free block around the hole is maximal. */
  lemma HoleFreed(m: seq<Cell>, heads: set<nat>, lo: nat, hi: nat, fl: seq<nat>, node: nat, size: nat, k: nat, fl': seq<nat>)
    requires HoleOk(m, heads, lo, hi, fl, node, size) && PlaceOf(fl, k, node)
    requires Lists(fl', LinkedSet(m, fl, k, node, size, FreeHeads(m, heads, lo, hi) - {node}))
    ensures var r, e := MergeStart(m, fl, k, node), MergeEnd(m, fl, k, node + size);
      && lo <= r <= node && node + size <= e <= hi && e - r < HB_MAX_SIZE
      && ClusterOk(m[r := SetFree(m[r], e - r)], Merged(heads, r, e), lo, hi, fl')
  {
    var r, e := MergeStart(m, fl, k, node), MergeEnd(m, fl, k, node + size);
    var m1 := m[node := SetFree(m[node], size)];
    var m' := m[r := SetFree(m[r], e - r)];
    HoleBounds(m, heads, lo, hi, fl, node, size, k);
    assert EndOf(m1, node) == node + size;
    assert m'[r] == SetFree(m[r], e - r) && EndOf(m', r) == e;
    forall a {:trigger m'[a]} | lo <= a < hi && !(r <= a < e) ensures m'[a] == m1[a] {}
    MergeTiled(m1, heads, m', lo, hi, r, e);
    var heads' := Merged(heads, r, e);
    forall a {:trigger Free(m', a)} | a != r ensures Free(m', a) == Free(m, a) {}
    HoleFreeHeads(m, heads, lo, hi, fl, node, size, k);
    HoleCoalesced(m, heads, lo, hi, fl, node, size, k);
  }

  lemma HoleCoalesced(m: seq<Cell>, heads: set<nat>, lo: nat, hi: nat, fl: seq<nat>, node: nat, size: nat, k: nat)
    requires HoleOk(m, heads, lo, hi, fl, node, size) && PlaceOf(fl, k, node)
    ensures var r, e := MergeStart(m, fl, k, node), MergeEnd(m, fl, k, node + size);
      r < |m| && r <= e && Coalesced(m[r := SetFree(m[r], e - r)], Merged(heads, r, e), lo, hi)
  {
    var r, e := MergeStart(m, fl, k, node), MergeEnd(m, fl, k, node + size);
    HoleBounds(m, heads, lo, hi, fl, node, size, k);
    var m', heads' := m[r := SetFree(m[r], e - r)], Merged(heads, r, e);
    forall x {:trigger EndOf(m', x)} | x in heads' && lo <= x < hi && Free(m', x) && EndOf(m', x) < hi
      ensures !Free(m', EndOf(m', x))
    {
      HoleNext(m, heads, lo, hi, fl, node, size, k, x);
    }
  }

  /** The used blocks of a cluster, other than one at node, are the same before and after. */
  ghost predicate UsedKept(m: seq<Cell>, heads: set<nat>, m': seq<Cell>, heads': set<nat>, lo: nat, hi: nat, node: nat) {
    && |m'| == |m|
    && (forall h {:trigger EndOf(m, h)} :: h in heads && lo <= h < hi && h != node && !Free(m, h) ==> h in heads')
    && (forall h, c {:trigger EndOf(m, h), m'[c]} :: h in heads && lo <= h < hi && h != node && !Free(m, h) && h <= c < EndOf(m, h) <= |m| ==> m'[c] == m[c])
    && (forall h {:trigger Free(m', h)} :: h in heads' && lo <= h < hi && !Free(m', h) ==> h in heads && h != node && !Free(m, h))
  }

  lemma HoleKeepsUsed(m: seq<Cell>, heads: set<nat>, lo: nat, hi: nat, fl: seq<nat>, node: nat, size: nat, k: nat)
    requires HoleOk(m, heads, lo, hi, fl, node, size) && PlaceOf(fl, k, node)
    ensures var r, e := MergeStart(m, fl, k, node), MergeEnd(m, fl, k, node + size);
      r <= node && node + size <= e && UsedKept(m, heads, m[r := SetFree(m[r], e - r)], Merged(heads, r, e), lo, hi, node)
  {
    var r, e := MergeStart(m, fl, k, node), MergeEnd(m, fl, k, node + size);
    var m' := m[r := SetFree(m[r], e - r)];
    var m1 := m[node := SetFree(m[node], size)];
    HoleBounds(m, heads, lo, hi, fl, node, size, k);
    forall h {:trigger Free(m', h)} | h != r ensures Free(m', h) == Free(m, h) {}
    forall h {:trigger EndOf(m, h)} | h in heads && lo <= h < hi && h != node && !Free(m, h)
      ensures h in Merged(heads, r, e) && (EndOf(m, h) <= r || r < h)
    {
      assert EndOf(m1, h) == EndOf(m, h);
    }
  }

  /** [node, node + size) has gone back to the free list as part of the free block [r, e), which takes in
      the free blocks that touch it. */
  ghost predicate Returned(m: seq<Cell>, heads: set<nat>, lo: nat, hi: nat, fl: seq<nat>, node: nat, size: nat, r: nat, e: nat,
                           m': seq<Cell>, heads': set<nat>, fl': seq<nat>) {
    && ClusterOk(m', heads', lo, hi, fl')
    && lo <= r <= node < |m| && node + size <= e <= hi <= |m|
    && (r == node || (Has(fl, r) && EndOf(m, r) == node))
    && (e == node + size || (Has(fl, node + size) && EndOf(m, node + size) == e))
    && m' == m[r := SetFree(m[r], e - r)]
    && heads' == Merged(heads, r, e)
    && r in heads' && Free(m', r) && EndOf(m', r) == e
    && UsedKept(m, heads, m', heads', lo, hi, node)
  }

  lemma InOrderDone(m: seq<Cell>, heads: set<nat>, lo: nat, hi: nat, fl: seq<nat>, node: nat, size: nat, k: nat, fl': seq<nat>)
    requires HoleOk(m, heads, lo, hi, fl, node, size) && PlaceOf(fl, k, node)
    requires Lists(fl', LinkedSet(m, fl, k, node, size, FreeHeads(m, heads, lo, hi) - {node}))
    ensures var r, e := MergeStart(m, fl, k, node), MergeEnd(m, fl, k, node + size);
      && r < |m| && r <= e && Returned(m, heads, lo, hi, fl, node, size, r, e, m[r := SetFree(m[r], e - r)], Merged(heads, r, e), fl')
  {
    HoleFreed(m, heads, lo, hi, fl, node, size, k, fl');
    HoleKeepsUsed(m, heads, lo, hi, fl, node, size, k);
    HoleBounds(m, heads, lo, hi, fl, node, size, k);
  }

  /** [lo, p) has been cut into unmarked free blocks. */
  ghost predicate CutTo(m: seq<Cell>, heads: set<nat>, lo: nat, p: nat, m': seq<Cell>, heads': set<nat>) {
    && Tiled(m', heads', lo, p)
    && |m'| == |m|
    && (forall h {:trigger Free(m', h)} :: h in heads' && lo <= h < p ==> Free(m', h) && !m'[h].alive)
    && (forall h {:trigger h in heads'} :: !(lo <= h < p) ==> (h in heads' <==> h in heads))
    && (forall a {:trigger m'[a]} :: 0 <= a < |m| && !(lo <= a < p) ==> m'[a] == m[a])
  }

  lemma CutNext(m: seq<Cell>, heads: set<nat>, lo: nat, p: nat, m1: seq<Cell>, heads1: set<nat>, size: nat, m2: seq<Cell>)
    requires CutTo(m, heads, lo, p, m1, heads1) && 0 < size < 0x1_0000 && p + size <= |m|
    requires m2 == m1[p := SetDataId(m1[p], FreeBlock, false, false, false, size)]
    requires forall h {:trigger h in heads} :: h in heads ==> !(lo <= h < p + size)
    ensures CutTo(m, heads, lo, p + size, m2, heads1 + {p})
  {
    forall a {:trigger EndOf(m2, a)} | a != p ensures EndOf(m2, a) == EndOf(m1, a) {}
    forall a {:trigger Free(m2, a)} | a != p ensures Free(m2, a) == Free(m1, a) {}
  }

  lemma OneFreeBlock(m: seq<Cell>, heads: set<nat>, lo: nat, hi: nat, m1: seq<Cell>, heads1: set<nat>, m2: seq<Cell>, heads2: set<nat>, fl: seq<nat>)
    requires 0 < lo <= hi && CutTo(m, heads, lo, hi, m1, heads1) && Swept(m1, heads1, lo, hi, m2, heads2)
    requires ClusterOk(m2, heads2, lo, hi, fl)
    requires forall h {:trigger h in heads} :: h in heads ==> !(lo <= h < hi)
    ensures lo < hi ==> fl == [lo] && EndOf(m2, lo) == hi
    ensures lo == hi ==> fl == []
    ensures heads2 == heads + (if lo < hi then {lo} else {})
    ensures forall a {:trigger m2[a]} :: 0 <= a < |m| && !(lo <= a < hi) ==> m2[a] == m[a]
  {
    forall h {:trigger h in heads2} | h in heads2 && lo <= h < hi ensures EndOf(m2, h) == hi && h == lo && Free(m2, h) {
      assert Free(m1, h) && Free(m1, lo);
      assert EndOf(m2, lo) == hi by {
        var e := EndOf(m2, lo);
        assert Free(m1, e) || !Free(m1, e);
      }
      assert EndOf(m2, h) == hi by {
        var e := EndOf(m2, h);
        assert Free(m1, e) || !Free(m1, e);
      }
    }
    assert lo < hi ==> FreeHeads(m2, heads2, lo, hi) == {lo};
    forall h: nat ensures h in heads2 <==> h in heads + (if lo < hi then {lo} else {}) {
      assert !(lo <= h < hi) ==> (h in heads1 <==> h in heads);
    }
    if lo < hi {
      ListsOne(fl, lo);
    } else {
      assert FreeHeads(m2, heads2, lo, hi) == {};
      ListsNone(fl);
    }
  }

  /** The block of length cells at p has been zeroed behind its identifier word. */
  ghost predicate Zeroed(m: seq<Cell>, p: nat, length: nat, m': seq<Cell>) {
    && |m'| == |m| && (p < |m| ==> m'[p] == m[p].(ref := NULL))
    && (forall a {:trigger m'[a]} :: 0 <= a < |m| && a != p ==> m'[a] == if p < a < p + length then ZEROED else m[a])
  }

  lemma ZeroedCarved(m: seq<Cell>, fl: seq<nat>, event: bool, length: nat, k: nat, res: nat, rest: nat, m1: seq<Cell>, fl': seq<nat>, m2: seq<Cell>)
    requires Carved(m, fl, event, length, k, res, rest, m1, fl') && 1 <= length && Zeroed(m1, res, length, m2)
    ensures Carved(m, fl, event, length, k, res, rest, m2, fl')
    ensures res < |m1| && m2[res].(ref := NULL) == m1[res].(ref := NULL)
    ensures m2[res].ref == NULL && forall a :: res < a < res + length ==> m2[a] == ZEROED
  {
    assert rest != res ==> m2[rest] == m1[rest];
  }

  lemma ZeroedCluster(m: seq<Cell>, heads: set<nat>, lo: nat, hi: nat, fl: seq<nat>, p: nat, m': seq<Cell>)
    requires ClusterOk(m, heads, lo, hi, fl) && p in heads && lo <= p < hi
    requires p < EndOf(m, p) && Zeroed(m, p, EndOf(m, p) - p, m')
    ensures ClusterOk(m', heads, lo, hi, fl)
  {
    forall a {:trigger EndOf(m', a)} | a in heads && lo <= a < hi ensures EndOf(m', a) == EndOf(m, a) {
      assert !(p < a < EndOf(m, p)) && (a == p ==> m'[p] == m[p].(ref := NULL));
    }
    forall a {:trigger Free(m', a)} | a in heads && lo <= a < hi ensures Free(m', a) == Free(m, a) {
      assert !(p < a < EndOf(m, p)) && (a == p ==> m'[p] == m[p].(ref := NULL));
    }
    assert FreeHeads(m', heads, lo, hi) == FreeHeads(m, heads, lo, hi);
    forall x {:trigger Free(m', x)} | x in heads && lo <= x < hi && Free(m', x) ensures m'[x].pinned && !m'[x].alive && !m'[x].event {
      assert EndOf(m', x) == EndOf(m, x) && Free(m, x);
      assert m'[x] == if x == p then m[x].(ref := NULL) else m[x];
    }
  }

  class Cluster {
    const mem: Memory
    const payloadStart: nat
    const payloadEnd: nat
    var freeList: seq<nat>

    constructor (mem: Memory, payloadStart: nat, payloadEnd: nat)
      ensures this.mem == mem && this.payloadStart == payloadStart && this.payloadEnd == payloadEnd
    {
      this.mem, this.payloadStart, this.payloadEnd, freeList := mem, payloadStart, payloadEnd, [];
    }

    ghost predicate Valid()
      reads this, mem, mem.cells
    {
      ClusterOk(mem.cells[..], mem.heads, payloadStart, payloadEnd, freeList)
    }

    /** Cuts the payload into free blocks of blockSize cells and sweeps it: one free block is left. */
    method Initialize(blockSize: nat)
      requires 0 < blockSize <= HB_MAX_SIZE
      requires 0 < payloadStart <= payloadEnd <= mem.cells.Length && payloadEnd - payloadStart < HB_MAX_SIZE
      requires forall h :: h in mem.heads ==> !(payloadStart <= h < payloadEnd)
      modifies this`freeList, mem`heads, mem.cells
      ensures Valid()
      ensures payloadStart < payloadEnd ==> freeList == [payloadStart] && EndOf(mem.cells[..], payloadStart) == payloadEnd
      ensures payloadStart == payloadEnd ==> freeList == []
      ensures mem.heads == old(mem.heads) + (if payloadStart < payloadEnd then {payloadStart} else {})
      ensures forall a {:trigger mem.cells[..][a]} :: 0 <= a < mem.cells.Length && !(payloadStart <= a < payloadEnd) ==>
        mem.cells[..][a] == old(mem.cells[..])[a]
    {
      ghost var m, heads := mem.cells[..], mem.heads;
      var size := blockSize;
      var ptr := payloadStart;
      while ptr < payloadEnd
        invariant payloadStart <= ptr <= payloadEnd && 0 < size <= HB_MAX_SIZE
        invariant CutTo(m, heads, payloadStart, ptr, mem.cells[..], mem.heads)
      {
        if ptr + size > payloadEnd { size := payloadEnd - ptr; }
        ghost var m1 := mem.cells[..];
        mem.cells[ptr] := SetDataId(mem.cells[ptr], FreeBlock, false, false, false, size);
        assert mem.cells[..] == m1[ptr := SetDataId(m1[ptr], FreeBlock, false, false, false, size)];
        CutNext(m, heads, payloadStart, ptr, m1, mem.heads, size, mem.cells[..]);
        mem.heads := mem.heads + {ptr};
        ptr := ptr + size;
      }
      ghost var m2, heads2 := mem.cells[..], mem.heads;
      RecoverFromGC();
      OneFreeBlock(m, heads, payloadStart, payloadEnd, m2, heads2, mem.cells[..], mem.heads, freeList);
    }

    /** The free block an allocation takes: the first that fits, or the last one for an event record. */
    method FindFreeBlock(event: bool, length: nat) returns (k: nat)
      requires Valid()
      ensures k <= |freeList|
      ensures k == |freeList| ==> NoneFits(mem.cells[..], freeList, 0, |freeList|, length)
      ensures k < |freeList| ==> freeList[k] + length <= EndOf(mem.cells[..], freeList[k])
      ensures k < |freeList| && !event ==> NoneFits(mem.cells[..], freeList, 0, k, length)
      ensures k < |freeList| && event ==> NoneFits(mem.cells[..], freeList, k + 1, |freeList|, length)
    {
      if event {
        k := |freeList|;
        while k > 0 && mem.cells[freeList[k - 1]].size < length
          invariant 0 <= k <= |freeList|
          invariant NoneFits(mem.cells[..], freeList, k, |freeList|, length)
        {
          k := k - 1;
        }
        k := if k == 0 then |freeList| else k - 1;
      } else {
        k := 0;
        while k < |freeList| && mem.cells[freeList[k]].size < length
          invariant 0 <= k <= |freeList|
          invariant NoneFits(mem.cells[..], freeList, 0, k, length)
        {
          k := k + 1;
        }
      }
    }

    /** Allocation. An object takes the head of the lowest free block that fits; an event record takes
        the tail of the highest one. k is the place of that free block in the old free list. */
    method ExtractBlocks(dt: DataType, alive: bool, event: bool, pinned: bool, initializeToZero: bool, length: nat)
      returns (res: nat, ghost k: nat, ghost rest: nat)
      requires Valid()
      requires 1 <= length && !dt.FreeBlock?
      modifies this`freeList, mem`heads, mem.cells
      ensures Valid()
      ensures res == NULL <==> NoneFits(old(mem.cells[..]), old(freeList), 0, |old(freeList)|, length)
      ensures res == NULL ==> freeList == old(freeList) && mem.heads == old(mem.heads) && mem.cells[..] == old(mem.cells[..])
      ensures res != NULL ==> mem.heads == old(mem.heads) + {res, rest}
      ensures res != NULL ==> Carved(old(mem.cells[..]), old(freeList), event, length, k, res, rest, mem.cells[..], freeList)
      ensures res != NULL && !event ==> NoneFits(old(mem.cells[..]), old(freeList), 0, k, length)
      ensures res != NULL && event ==> NoneFits(old(mem.cells[..]), old(freeList), k + 1, |old(freeList)|, length)
      ensures res != NULL ==> mem.cells[..][res].(ref := NULL) == Cell(dt, length, alive, event, pinned, NULL)
      ensures res != NULL && initializeToZero ==> mem.cells[..][res].ref == NULL && forall a :: res < a < res + length ==> mem.cells[..][a] == ZEROED
    {
      var i := FindFreeBlock(event, length);
      k, rest := i, 0;
      if i == |freeList| {
        return NULL, k, rest;
      }
      ghost var m, fl, heads := mem.cells[..], freeList, mem.heads;
      FreeBlockBounds(m, heads, payloadStart, payloadEnd, fl, k);
      res, rest := Carve(i, dt, alive, event, pinned, length);
      mem.heads := mem.heads + {res, rest};
      Allocated(m, heads, payloadStart, payloadEnd, fl, event, length, k, res, rest, mem.cells[..], freeList);
      if initializeToZero {
        ghost var m1 := mem.cells[..];
        ZeroFill(res, length);
        ZeroedCarved(m, fl, event, length, k, res, rest, m1, freeList, mem.cells[..]);
      }
    }

    /** The header and list updates of an allocation. */
    method Carve(k: nat, dt: DataType, alive: bool, event: bool, pinned: bool, length: nat) returns (res: nat, ghost rest: nat)
      requires 1 <= length && !dt.FreeBlock?
      requires k < |freeList| && freeList[k] + length <= EndOf(mem.cells[..], freeList[k]) <= mem.cells.Length
      requires EndOf(mem.cells[..], freeList[k]) - freeList[k] < 0x1_0000
      modifies this`freeList, mem.cells
      ensures Carved(old(mem.cells[..]), old(freeList), event, length, k, res, rest, mem.cells[..], freeList)
      ensures mem.cells[..][res].(ref := NULL) == Cell(dt, length, alive, event, pinned, NULL)
    {
      res := freeList[k];
      rest := res;
      var available := mem.cells[res].size - length;
      if available != 0 {
        if event {
          mem.cells[res] := SetFree(mem.cells[res], available);
          res := res + available;
        } else {
          var ptr := res + length;
          mem.cells[ptr] := SetFree(mem.cells[ptr], available);
          freeList := freeList[k := ptr];
          rest := ptr;
        }
      } else {
        freeList := Unlink(freeList, k);
      }
      mem.cells[res] := SetDataId(mem.cells[res], dt, alive, event, pinned, length);
    }

    /** The sweep: merges every maximal run of unmarked blocks into one free block, rebuilds the free
        list, and unmarks the others. */
    method RecoverFromGC()
      requires Sweepable(mem.cells[..], mem.heads, payloadStart, payloadEnd)
      modifies this`freeList, mem`heads, mem.cells
      ensures Valid()
      ensures Swept(old(mem.cells[..]), old(mem.heads), payloadStart, payloadEnd, mem.cells[..], mem.heads)
    {
      ghost var m, heads := mem.cells[..], mem.heads;
      var ptr := payloadStart;
      freeList := [];
      while ptr < payloadEnd
        invariant SweepState(m, heads, payloadStart, payloadEnd, ptr, mem.cells[..], mem.heads, freeList)
        decreases payloadEnd - ptr
      {
        if mem.cells[ptr].alive {
          ptr := KeepBlock(ptr, m, heads);
        } else {
          ptr := FreeRun(ptr, m, heads);
        }
      }
      SweepDone(m, heads, payloadStart, payloadEnd, mem.cells[..], mem.heads, freeList);
    }

    /** The sweep at an unmarked block: one free block replaces the run of unmarked blocks. */
    method FreeRun(ptr: nat, ghost m: seq<Cell>, ghost heads: set<nat>) returns (next: nat)
      requires Sweepable(m, heads, payloadStart, payloadEnd)
      requires SweepState(m, heads, payloadStart, payloadEnd, ptr, mem.cells[..], mem.heads, freeList)
      requires ptr < payloadEnd && !mem.cells[ptr].alive
      modifies this`freeList, mem`heads, mem.cells
      ensures ptr < next
      ensures SweepState(m, heads, payloadStart, payloadEnd, next, mem.cells[..], mem.heads, freeList)
    {
      next := SkipDead(ptr);
      ghost var m1 := mem.cells[..];
      SweepRun(m, heads, payloadStart, payloadEnd, ptr, m1, mem.heads, freeList, next);
      mem.cells[ptr] := SetFree(mem.cells[ptr], next - ptr);
      assert mem.cells[..] == m1[ptr := SetFree(m1[ptr], next - ptr)];
      mem.heads := Merged(mem.heads, ptr, next);
      freeList := freeList + [ptr];
    }

    /** The sweep at a marked block: its mark is cleared unless it is an event record. */
    method KeepBlock(ptr: nat, ghost m: seq<Cell>, ghost heads: set<nat>) returns (next: nat)
      requires Sweepable(m, heads, payloadStart, payloadEnd)
      requires SweepState(m, heads, payloadStart, payloadEnd, ptr, mem.cells[..], mem.heads, freeList)
      requires ptr < payloadEnd && mem.cells[ptr].alive
      modifies mem.cells
      ensures ptr < next
      ensures SweepState(m, heads, payloadStart, payloadEnd, next, mem.cells[..], mem.heads, freeList)
    {
      ghost var m1 := mem.cells[..];
      SweepAlive(m, heads, payloadStart, payloadEnd, ptr, m1, mem.heads, freeList);
      assert ptr < EndOf(m1, ptr);
      if !mem.cells[ptr].event {
        mem.cells[ptr] := mem.cells[ptr].(alive := false);
      }
      assert mem.cells[..] == m1[ptr := m1[ptr].(alive := m1[ptr].event)];
      next := ptr + mem.cells[ptr].size;
    }

    /** The end of the run of unmarked blocks that starts at ptr. */
    method SkipDead(ptr: nat) returns (next: nat)
      requires Tiled(mem.cells[..], mem.heads, payloadStart, payloadEnd)
      requires ptr in mem.heads && payloadStart <= ptr < payloadEnd && !mem.cells[ptr].alive
      ensures ptr < next <= payloadEnd && (next < payloadEnd ==> next in mem.heads && mem.cells[next].alive)
      ensures forall h {:trigger h in mem.heads} :: h in mem.heads && ptr <= h < next ==> !mem.cells[h].alive
    {
      next := ptr;
      while next < payloadEnd && !mem.cells[next].alive
        invariant ptr <= next <= payloadEnd && (next < payloadEnd ==> next in mem.heads)
        invariant next == ptr ==> !mem.cells[ptr].alive
        invariant forall h {:trigger h in mem.heads} :: h in mem.heads && ptr <= h < next ==> !mem.cells[h].alive
      {
        assert next < EndOf(mem.cells[..], next);
        next := next + mem.cells[next].size;
      }
    }

    /** Returns [node, node + size) to the free list, merged with the free blocks that touch it. */
    method InsertInOrder(node: nat, size: nat) returns (r: nat, ghost e: nat)
      requires HoleOk(mem.cells[..], mem.heads, payloadStart, payloadEnd, freeList, node, size)
      modifies this`freeList, mem`heads, mem.cells
      ensures Valid()
      ensures Returned(old(mem.cells[..]), old(mem.heads), payloadStart, payloadEnd, old(freeList), node, size, r, e,
                       mem.cells[..], mem.heads, freeList)
    {
      ghost var m, heads, fl := mem.cells[..], mem.heads, freeList;
      ghost var s := FreeHeads(m, heads, payloadStart, payloadEnd) - {node};
      var total: nat;
      ghost var k: nat;
      r, total, k := LinkAndMerge(node, size, s);
      InOrderDone(m, heads, payloadStart, payloadEnd, fl, node, size, k, freeList);
      e := MergeEnd(m, fl, k, node + size);
      mem.cells[r] := SetFree(mem.cells[r], total);
      mem.heads := Merged(mem.heads, r, e);
      assert mem.cells[..] == m[r := SetFree(m[r], e - r)];
    }

    /** The list side of InsertInOrder: links node in address order, then unlinks what is merged. */
    method LinkAndMerge(node: nat, size: nat, ghost s: set<nat>) returns (r: nat, total: nat, ghost k: nat)
      requires Lists(freeList, s) && node !in s
      requires forall x :: x in s ==> x < mem.cells.Length
      modifies this`freeList
      ensures PlaceOf(old(freeList), k, node)
      ensures r == MergeStart(mem.cells[..], old(freeList), k, node)
      ensures r + total == MergeEnd(mem.cells[..], old(freeList), k, node + size)
      ensures Lists(freeList, LinkedSet(mem.cells[..], old(freeList), k, node, size, s))
    {
      ghost var fl := freeList;
      var i := 0;
      while i < |freeList| && freeList[i] <= node
        invariant 0 <= i <= |freeList|
        invariant forall j :: 0 <= j < i ==> freeList[j] < node
      {
        i := i + 1;
      }
      k := i;
      var fl1 := InsertBefore(freeList, i, node);
      ListsInsert(fl, s, i, node, fl1);
      r, total := node, size;
      ghost var s1 := s + {node};
      if i + 1 < |fl1| && node + size == fl1[i + 1] {
        total := total + mem.cells[fl1[i + 1]].size;
        var fl2 := Unlink(fl1, i + 1);
        ListsRemove(fl1, s1, i + 1, fl2);
        s1 := s1 - {node + size};
        fl1 := fl2;
      }
      if i > 0 && fl1[i - 1] + mem.cells[fl1[i - 1]].size == node {
        r := fl1[i - 1];
        total := total + mem.cells[r].size;
        var fl2 := Unlink(fl1, i);
        ListsRemove(fl1, s1, i, fl2);
        fl1 := fl2;
      }
      freeList := fl1;
    }

    /** Zeroes the block behind its identifier word. */
    method ZeroFill(res: nat, length: nat)
      requires Valid()
      requires res in mem.heads && payloadStart <= res < payloadEnd && EndOf(mem.cells[..], res) == res + length
      modifies mem.cells
      ensures Valid()
      ensures Zeroed(old(mem.cells[..]), res, length, mem.cells[..])
    {
      mem.cells[res] := mem.cells[res].(ref := NULL);
      forall a | res < a < res + length {
        mem.cells[a] := ZEROED;
      }
      ghost var m, m1 := old(mem.cells[..]), mem.cells[..];
      assert m1[res] == m[res].(ref := NULL);
      ZeroedCluster(m, mem.heads, payloadStart, payloadEnd, freeList, res, m1);
    }
  }
}
