/** How tilings are cut, joined and moved. */
module Tiling {
  import opened HeapMemory
  import opened HeapCluster
  import opened NodeList

  /** The contents of memory after moving len cells from src down to dst. */
  ghost predicate MovedDown(m: seq<Cell>, dst: nat, src: nat, len: nat, m': seq<Cell>) {
    && |m'| == |m| && dst <= src && src + len <= |m|
    && (forall c {:trigger m'[c]} :: 0 <= c < |m| ==> m'[c] == if dst <= c < dst + len then m[c + (src - dst)] else m[c])
  }

  method MemMove(cells: array<Cell>, dst: nat, src: nat, len: nat)
    requires dst <= src && src + len <= cells.Length
    modifies cells
    ensures MovedDown(old(cells[..]), dst, src, len, cells[..])
  {
    var i := 0;
    while i < len
      invariant 0 <= i <= len
      invariant forall c {:trigger cells[c]} :: 0 <= c < cells.Length ==>
        cells[c] == if dst <= c < dst + i then old(cells[..])[c + (src - dst)] else old(cells[..])[c]
    {
      cells[dst + i] := cells[src + i];
      i := i + 1;
    }
  }

  /** Blocks that start below a header end at or below it. */
  lemma TiledSplit(m: seq<Cell>, heads: set<nat>, lo: nat, mid: nat, hi: nat)
    requires Tiled(m, heads, lo, hi) && lo <= mid <= hi && (mid < hi ==> mid in heads)
    ensures Tiled(m, heads, lo, mid) && Tiled(m, heads, mid, hi)
  {
  }

  lemma TiledJoin(m: seq<Cell>, heads: set<nat>, lo: nat, mid: nat, hi: nat)
    requires Tiled(m, heads, lo, mid) && Tiled(m, heads, mid, hi)
    ensures Tiled(m, heads, lo, hi)
  {
    forall a, b {:trigger EndOf(m, a), b in heads} | a in heads && b in heads && lo <= a < b < hi
      ensures EndOf(m, a) <= b
    {
      if a < mid <= b { assert EndOf(m, a) <= mid; }
    }
  }

  ghost predicate HeadAbove(heads: set<nat>, c: nat, d: nat) {
    c + d in heads
  }

  /** The headers of the run [src, end), moved down to dst. */
  ghost function ShiftedHeads(heads: set<nat>, dst: nat, src: nat, end: nat): set<nat>
    requires dst <= src <= end
  {
    set c: nat {:trigger HeadAbove(heads, c, src - dst)} | dst <= c < dst + (end - src) && HeadAbove(heads, c, src - dst)
  }

  lemma TiledShift(m: seq<Cell>, heads: set<nat>, m': seq<Cell>, heads': set<nat>, dst: nat, src: nat, end: nat)
    requires dst <= src <= end && Tiled(m, heads, src, end)
    requires MovedDown(m, dst, src, end - src, m')
    requires forall c {:trigger c in heads'} :: dst <= c < dst + (end - src) ==> (c in heads' <==> c + (src - dst) in heads)
    ensures Tiled(m', heads', dst, dst + (end - src))
    ensures forall c {:trigger EndOf(m', c)} :: dst <= c < dst + (end - src) ==> EndOf(m', c) + (src - dst) == EndOf(m, c + (src - dst))
  {
    var d := src - dst;
    forall c {:trigger EndOf(m', c)} | dst <= c < dst + (end - src) ensures EndOf(m', c) + d == EndOf(m, c + d) {
      assert m'[c] == m[c + d];
    }
    forall a {:trigger EndOf(m', a)} | a in heads' && dst <= a < dst + (end - src)
      ensures a < EndOf(m', a) <= dst + (end - src)
      ensures EndOf(m', a) < dst + (end - src) ==> EndOf(m', a) in heads'
    {
      assert EndOf(m', a) + d == EndOf(m, a + d);
    }
    forall a, b {:trigger EndOf(m', a), b in heads'} | a in heads' && b in heads' && dst <= a < b < dst + (end - src)
      ensures EndOf(m', a) <= b
    {
      assert EndOf(m', a) + d == EndOf(m, a + d) && b + d in heads;
    }
  }

  /** Refilling the free block at fl[k] (and perhaps what follows it) up to x: q is where the unused
      rest starts. */
  ghost predicate Refilled(m: seq<Cell>, heads: set<nat>, lo: nat, hi: nat, fl: seq<nat>, k: nat, x: nat, q: nat,
                           m': seq<Cell>, heads': set<nat>, fl': seq<nat>) {
    && k < |fl| && lo <= fl[k] < q <= x <= hi && (x < hi ==> x in heads)
    && |m'| == |m| && hi <= |m| && Removed(fl, k, fl')
    && (forall a {:trigger m'[a]} :: lo <= a < hi && !(fl[k] <= a < x) ==> m'[a] == m[a])
    && (forall a {:trigger a in heads'} :: lo <= a < hi && !(fl[k] <= a < x) ==> (a in heads' <==> a in heads))
    && (forall a {:trigger a in heads} :: fl[k] < a < x && a in heads ==> !Free(m, a))
    && Tiled(m', heads', fl[k], q)
    && (forall a {:trigger Free(m', a)} :: fl[k] <= a < q && a in heads' ==> !Free(m', a))
    && (forall a {:trigger a in heads'} :: q <= a < x ==> (a in heads' <==> a == q))
  }

  lemma RefilledFree(m: seq<Cell>, heads: set<nat>, lo: nat, hi: nat, fl: seq<nat>, k: nat, x: nat, q: nat,
                     m': seq<Cell>, heads': set<nat>, fl': seq<nat>)
    requires ClusterOk(m, heads, lo, hi, fl)
    requires Refilled(m, heads, lo, hi, fl, k, x, q, m', heads', fl')
    ensures FreeHeads(m', heads', lo, hi) - {q} == FreeHeads(m, heads, lo, hi) - {fl[k], q}
    ensures q == x ==> FreeHeads(m', heads', lo, hi) == FreeHeads(m, heads, lo, hi) - {fl[k]}
    ensures q < x ==> q !in FreeHeads(m, heads, lo, hi)
    ensures Lists(fl', FreeHeads(m, heads, lo, hi) - {fl[k]})
    ensures forall a {:trigger Free(m', a)} :: a in heads' && lo <= a < hi && a != q && Free(m', a) ==>
              (a < fl[k] || x <= a) && a in heads && m'[a] == m[a] && Free(m, a)
    ensures q == x < hi ==> m'[q] == m[q]
  {
    ListsRemove(fl, FreeHeads(m, heads, lo, hi), k, fl');
    assert fl[k] in FreeHeads(m, heads, lo, hi);
    forall a {:trigger Free(m', a)} | lo <= a < hi && !(fl[k] <= a < x) ensures Free(m', a) == Free(m, a) {
      assert m'[a] == m[a];
    }
  }

  /** No free block touches the refilled one from below or above. */
  lemma RefilledCoalesced(m: seq<Cell>, heads: set<nat>, lo: nat, hi: nat, fl: seq<nat>, k: nat, x: nat, q: nat,
                          m': seq<Cell>, heads': set<nat>, fl': seq<nat>, a: nat)
    requires ClusterOk(m, heads, lo, hi, fl)
    requires Refilled(m, heads, lo, hi, fl, k, x, q, m', heads', fl')
    requires a in heads' && lo <= a < hi && a != q && Free(m', a) && EndOf(m', a) < hi
    ensures EndOf(m', a) != q ==> !Free(m', EndOf(m', a))
  {
    RefilledFree(m, heads, lo, hi, fl, k, x, q, m', heads', fl');
    assert fl[k] in FreeHeads(m, heads, lo, hi);
    assert EndOf(m', a) == EndOf(m, a) && !Free(m, EndOf(m, a));
    assert x < hi ==> EndOf(m, a) <= fl[k] || x <= EndOf(m, a);
    assert m'[EndOf(m, a)] == m[EndOf(m, a)];
  }

  /** A refilled cluster with an unused rest is well formed but for that rest. */
  lemma RefilledHole(m: seq<Cell>, heads: set<nat>, lo: nat, hi: nat, fl: seq<nat>, k: nat, x: nat, q: nat,
                     m': seq<Cell>, heads': set<nat>, fl': seq<nat>)
    requires ClusterOk(m, heads, lo, hi, fl)
    requires Refilled(m, heads, lo, hi, fl, k, x, q, m', heads', fl') && q < x
    ensures HoleOk(m', heads', lo, hi, fl', q, x - q)
  {
    var m1 := m'[q := SetFree(m'[q], x - q)];
    RefilledFree(m, heads, lo, hi, fl, k, x, q, m', heads', fl');
    assert Tiled(m1, heads', lo, hi) by {
      assert fl[k] in FreeHeads(m, heads, lo, hi);
      TiledSplit(m, heads, lo, fl[k], hi);
      TiledSplit(m, heads, lo, x, hi);
      TiledFrame(m, heads, m1, heads', lo, fl[k]);
      TiledFrame(m, heads, m1, heads', x, hi);
      TiledFrame(m', heads', m1, heads', fl[k], q);
      assert m1[q].size == x - q;
      assert Tiled(m1, heads', q, x);
      TiledJoin(m1, heads', q, x, hi);
      TiledJoin(m1, heads', fl[k], q, hi);
      TiledJoin(m1, heads', lo, fl[k], hi);
    }
    forall a {:trigger EndOf(m', a)} | a in heads' && lo <= a < hi && a != q && Free(m', a) && EndOf(m', a) < hi
      ensures EndOf(m', a) == q || !Free(m', EndOf(m', a))
    {
      RefilledCoalesced(m, heads, lo, hi, fl, k, x, q, m', heads', fl', a);
    }
  }

  /** A free block refilled exactly leaves a well-formed cluster. */
  lemma RefilledExactly(m: seq<Cell>, heads: set<nat>, lo: nat, hi: nat, fl: seq<nat>, k: nat, x: nat,
                        m': seq<Cell>, heads': set<nat>, fl': seq<nat>)
    requires ClusterOk(m, heads, lo, hi, fl)
    requires Refilled(m, heads, lo, hi, fl, k, x, x, m', heads', fl')
    requires x == EndOf(m, fl[k])
    ensures ClusterOk(m', heads', lo, hi, fl')
  {
    RefilledFree(m, heads, lo, hi, fl, k, x, x, m', heads', fl');
    assert fl[k] in FreeHeads(m, heads, lo, hi);
    assert Tiled(m', heads', lo, hi) by {
      TiledSplit(m, heads, lo, fl[k], hi);
      TiledSplit(m, heads, lo, x, hi);
      TiledFrame(m, heads, m', heads', lo, fl[k]);
      TiledFrame(m, heads, m', heads', x, hi);
      TiledJoin(m', heads', fl[k], x, hi);
      TiledJoin(m', heads', lo, fl[k], hi);
    }
    forall a {:trigger EndOf(m', a)} | a in heads' && lo <= a < hi && Free(m', a) && EndOf(m', a) < hi
      ensures !Free(m', EndOf(m', a))
    {
      if a != x {
        RefilledCoalesced(m, heads, lo, hi, fl, k, x, x, m', heads', fl', a);
      } else {
        assert false;
      }
    }
  }

  /** A run of used blocks that has been vacated is a hole. */
  lemma VacatedHole(m: seq<Cell>, heads: set<nat>, lo: nat, hi: nat, fl: seq<nat>, start: nat, end: nat)
    requires ClusterOk(m, heads, lo, hi, fl)
    requires lo <= start < end <= hi && start in heads && (end < hi ==> end in heads)
    requires forall a {:trigger a in heads} :: start <= a < end && a in heads ==> !Free(m, a)
    ensures HoleOk(m, Merged(heads, start, end), lo, hi, fl, start, end - start)
  {
    var m1 := m[start := SetFree(m[start], end - start)];
    var heads' := Merged(heads, start, end);
    assert m1[start].size == end - start;
    MergeTiled(m, heads, m1, lo, hi, start, end);
    assert FreeHeads(m, heads', lo, hi) - {start} == FreeHeads(m, heads, lo, hi);
  }
}
