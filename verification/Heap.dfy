/** The heap: clusters of one memory, in address order. */
module Heap {
  import opened HeapMemory
  import opened HeapCluster

  datatype Span = Span(lo: nat, hi: nat)

  ghost predicate Ordered(spans: seq<Span>) {
    && (forall i {:trigger spans[i]} :: 0 <= i < |spans| ==> spans[i].lo <= spans[i].hi)
    && (forall i, j {:trigger spans[i], spans[j]} :: 0 <= i < j < |spans| ==> spans[i].hi < spans[j].lo)
  }

  /** The cluster that header h belongs to. */
  ghost predicate InSpan(spans: seq<Span>, h: nat) {
    exists i :: 0 <= i < |spans| && spans[i].lo <= h < spans[i].hi
  }

  ghost predicate ClusterAt(m: seq<Cell>, heads: set<nat>, spans: seq<Span>, lists: seq<seq<nat>>, i: nat) {
    i < |spans| == |lists| && ClusterOk(m, heads, spans[i].lo, spans[i].hi, lists[i])
  }

  /** Every cluster is well formed, and there is no block outside the clusters. */
  ghost predicate HeapOk(m: seq<Cell>, heads: set<nat>, spans: seq<Span>, lists: seq<seq<nat>>) {
    && |spans| == |lists|
    && Ordered(spans)
    && (forall i {:trigger ClusterAt(m, heads, spans, lists, i)} :: 0 <= i < |spans| ==> ClusterAt(m, heads, spans, lists, i))
    && (forall h {:trigger InSpan(spans, h)} :: h in heads ==> InSpan(spans, h))
  }

  /** The tiling alone, whatever the free lists say. */
  ghost predicate SpanTiled(m: seq<Cell>, heads: set<nat>, spans: seq<Span>, i: nat) {
    i < |spans| && 0 < spans[i].lo && spans[i].hi - spans[i].lo < HB_MAX_SIZE && Tiled(m, heads, spans[i].lo, spans[i].hi)
  }

  ghost predicate HeapTiled(m: seq<Cell>, heads: set<nat>, spans: seq<Span>) {
    && Ordered(spans)
    && (forall i {:trigger SpanTiled(m, heads, spans, i)} :: 0 <= i < |spans| ==> SpanTiled(m, heads, spans, i))
    && (forall h {:trigger InSpan(spans, h)} :: h in heads ==> InSpan(spans, h))
  }

  lemma HeapOkTiled(m: seq<Cell>, heads: set<nat>, spans: seq<Span>, lists: seq<seq<nat>>)
    requires HeapOk(m, heads, spans, lists)
    ensures HeapTiled(m, heads, spans)
  {
    forall i {:trigger SpanTiled(m, heads, spans, i)} | 0 <= i < |spans| ensures SpanTiled(m, heads, spans, i) {
      assert ClusterAt(m, heads, spans, lists, i);
    }
  }

  /** Blocks never overlap, wherever they are. */
  lemma BlocksApart(m: seq<Cell>, heads: set<nat>, spans: seq<Span>, a: nat, b: nat)
    requires HeapTiled(m, heads, spans)
    requires a in heads
    ensures a < EndOf(m, a) <= |m|
    ensures b in heads && a < b ==> EndOf(m, a) <= b
    ensures forall i :: 0 <= i < |spans| ==> (spans[i].lo <= a && EndOf(m, a) <= spans[i].hi) || EndOf(m, a) < spans[i].lo || spans[i].hi < a || a == spans[i].hi
  {
    assert InSpan(spans, a);
    var i :| 0 <= i < |spans| && spans[i].lo <= a < spans[i].hi;
    assert SpanTiled(m, heads, spans, i);
    if b in heads && a < b {
      assert InSpan(spans, b);
      var j :| 0 <= j < |spans| && spans[j].lo <= b < spans[j].hi;
      assert i < j ==> spans[i].hi < spans[j].lo;
    }
    forall j | 0 <= j < |spans|
      ensures (spans[j].lo <= a && EndOf(m, a) <= spans[j].hi) || EndOf(m, a) < spans[j].lo || spans[j].hi < a || a == spans[j].hi
    {
      assert j < i ==> spans[j].hi < spans[i].lo;
      assert i < j ==> spans[i].hi < spans[j].lo;
    }
  }

  lemma BlocksDisjoint(m: seq<Cell>, heads: set<nat>, spans: seq<Span>, lists: seq<seq<nat>>, a: nat, b: nat)
    requires HeapOk(m, heads, spans, lists)
    requires a in heads
    ensures a < EndOf(m, a) <= |m|
    ensures b in heads && a < b ==> EndOf(m, a) <= b
    ensures forall i :: 0 <= i < |spans| ==> (spans[i].lo <= a && EndOf(m, a) <= spans[i].hi) || EndOf(m, a) < spans[i].lo || spans[i].hi < a || a == spans[i].hi
  {
    HeapOkTiled(m, heads, spans, lists);
    BlocksApart(m, heads, spans, a, b);
  }

  /** The address at which cluster i starts, or just behind the last cluster. */
  ghost function SpanStart(spans: seq<Span>, i: nat, n: nat): nat {
    if i < |spans| then spans[i].lo else n
  }

  /** No block starts between two clusters. */
  lemma NoHeadsBetween(m: seq<Cell>, heads: set<nat>, spans: seq<Span>, i: nat, h: nat)
    requires HeapTiled(m, heads, spans) && i < |spans| && h in heads
    ensures !(spans[i].hi <= h < SpanStart(spans, i + 1, |m|))
    ensures spans[i].hi <= SpanStart(spans, i + 1, |m|)
    ensures spans[0].lo <= h
  {
    assert InSpan(spans, h);
    assert SpanTiled(m, heads, spans, i);
    var j :| 0 <= j < |spans| && spans[j].lo <= h < spans[j].hi;
    assert j < i ==> spans[j].hi < spans[i].lo;
    assert i < j ==> spans[i].hi < spans[j].lo;
    assert i + 1 < j ==> spans[i + 1].hi < spans[j].lo;
    assert 0 < j ==> spans[0].hi < spans[j].lo;
  }

  /** A change inside one cluster does not touch the others. */
  lemma ClusterChanged(m: seq<Cell>, heads: set<nat>, spans: seq<Span>, lists: seq<seq<nat>>, i: nat,
                       m': seq<Cell>, heads': set<nat>, fl: seq<nat>)
    requires HeapOk(m, heads, spans, lists) && i < |spans|
    requires |m'| == |m|
    requires forall a {:trigger m'[a]} :: 0 <= a < |m| && !(spans[i].lo <= a < spans[i].hi) ==> m'[a] == m[a]
    requires forall a {:trigger a in heads'} :: !(spans[i].lo <= a < spans[i].hi) ==> (a in heads' <==> a in heads)
    requires ClusterOk(m', heads', spans[i].lo, spans[i].hi, fl)
    ensures HeapOk(m', heads', spans, lists[i := fl])
  {
    forall j {:trigger ClusterAt(m', heads', spans, lists[i := fl], j)} | 0 <= j < |spans| ensures ClusterAt(m', heads', spans, lists[i := fl], j) {
      if j != i {
        assert ClusterAt(m, heads, spans, lists, j);
        assert j < i ==> spans[j].hi < spans[i].lo;
        assert i < j ==> spans[i].hi < spans[j].lo;
        ClusterFrame(m, heads, m', heads', spans[j].lo, spans[j].hi, lists[j]);
      }
    }
    forall h {:trigger InSpan(spans, h)} | h in heads' ensures InSpan(spans, h) {
      if spans[i].lo <= h < spans[i].hi {
        assert InSpan(spans, h);
      } else {
        assert h in heads;
      }
    }
  }

  /** A heap of which the first n clusters are well formed and the others at least tiled. */
  ghost predicate OkBelow(m: seq<Cell>, heads: set<nat>, spans: seq<Span>, lists: seq<seq<nat>>, n: nat) {
    && n <= |spans| == |lists|
    && HeapTiled(m, heads, spans)
    && (forall i {:trigger ClusterAt(m, heads, spans, lists, i)} :: 0 <= i < n ==> ClusterAt(m, heads, spans, lists, i))
  }

  lemma OneMoreOk(m: seq<Cell>, heads: set<nat>, spans: seq<Span>, lists: seq<seq<nat>>, i: nat,
                  m': seq<Cell>, heads': set<nat>, fl: seq<nat>)
    requires OkBelow(m, heads, spans, lists, i) && i < |spans|
    requires |m'| == |m|
    requires forall a {:trigger m'[a]} :: 0 <= a < |m| && !(spans[i].lo <= a < spans[i].hi) ==> m'[a] == m[a]
    requires forall a {:trigger a in heads'} :: !(spans[i].lo <= a < spans[i].hi) ==> (a in heads' <==> a in heads)
    requires ClusterOk(m', heads', spans[i].lo, spans[i].hi, fl)
    ensures OkBelow(m', heads', spans, lists[i := fl], i + 1)
  {
    var lists' := lists[i := fl];
    assert SpanTiled(m', heads', spans, i) && ClusterAt(m', heads', spans, lists', i);
    forall j {:trigger SpanTiled(m', heads', spans, j)} | 0 <= j < |spans| && j != i ensures SpanTiled(m', heads', spans, j) {
      assert SpanTiled(m, heads, spans, j);
      assert j < i ==> spans[j].hi < spans[i].lo;
      assert i < j ==> spans[i].hi < spans[j].lo;
      TiledFrame(m, heads, m', heads', spans[j].lo, spans[j].hi);
    }
    forall j {:trigger ClusterAt(m', heads', spans, lists', j)} | 0 <= j < i ensures ClusterAt(m', heads', spans, lists', j) {
      assert ClusterAt(m, heads, spans, lists, j);
      assert spans[j].hi < spans[i].lo;
      ClusterFrame(m, heads, m', heads', spans[j].lo, spans[j].hi, lists[j]);
    }
    forall h {:trigger InSpan(spans, h)} | h in heads' ensures InSpan(spans, h) {
      if spans[i].lo <= h < spans[i].hi {
        assert InSpan(spans, h);
      } else {
        assert h in heads;
      }
    }
  }
}
