/** A whole collection: mark, then sweep every cluster. */
module Collection {
  import opened HeapMemory
  import opened HeapCluster
  import opened Heap
  import opened PointerPass
  import opened Reachability
  import opened Marking
  import opened MarkPhase
  import opened EventCache
  import CompactionResults
  import opened NodeList
  import opened HeapSetup

  // The sweep of one cluster after the other.

  /** The block at h is still there, unmarked unless it is an event record. */
  ghost predicate Kept(m: seq<Cell>, h: nat, m': seq<Cell>, heads': set<nat>) {
    && h in heads' && h < |m| == |m'|
    && m'[h] == m[h].(alive := m[h].event)
    && (forall c {:trigger m'[c]} :: h < c < EndOf(m, h) && c < |m| ==> m'[c] == m[c])
  }

  /** Below limit, the used blocks that are left are the marked ones. */
  ghost predicate SurvivorsBelow(m: seq<Cell>, heads: set<nat>, m': seq<Cell>, heads': set<nat>, limit: nat) {
    && |m'| == |m| && heads' <= heads
    && (forall h {:trigger Kept(m, h, m', heads')} :: h in heads && h < limit && h < |m| && m[h].alive ==> Kept(m, h, m', heads'))
    && (forall h {:trigger Free(m', h)} :: h in heads' && h < limit && h < |m| && !Free(m', h) ==> m[h].alive && !Free(m, h))
    && (forall c {:trigger m'[c]} :: 0 <= c < |m| && (c >= limit || c !in heads') ==> m'[c] == m[c])
    && (forall h {:trigger h in heads'} {:trigger h in heads} :: h >= limit && h in heads ==> h in heads')
  }

  lemma ClusterSwept(m: seq<Cell>, heads: set<nat>, spans: seq<Span>, i: nat,
                     m1: seq<Cell>, heads1: set<nat>, m2: seq<Cell>, heads2: set<nat>)
    requires HeapTiled(m, heads, spans) && i < |spans|
    requires SurvivorsBelow(m, heads, m1, heads1, spans[i].lo)
    requires Swept(m1, heads1, spans[i].lo, spans[i].hi, m2, heads2)
    ensures SurvivorsBelow(m, heads, m2, heads2, spans[i].hi)
  {
    var lo, hi := spans[i].lo, spans[i].hi;
    forall h {:trigger Kept(m, h, m2, heads2)} | h in heads && h < hi && h < |m| && m[h].alive ensures Kept(m, h, m2, heads2) {
      BlocksApart(m, heads, spans, h, h);
      if h < lo {
        assert Kept(m, h, m1, heads1);
        forall c {:trigger m2[c]} | h < c < EndOf(m, h) && c < |m| ensures m2[c] == m[c] { assert m2[c] == m1[c]; }
      } else {
        assert h in heads1 && m1[h] == m[h];
        forall c {:trigger m2[c]} | h < c < EndOf(m, h) && c < |m| ensures m2[c] == m[c] {
          if c in heads2 { BlocksApart(m, heads, spans, h, c); }
          assert m1[c] == m[c];
        }
      }
    }
    forall h {:trigger Free(m2, h)} | h in heads2 && h < hi && h < |m| && !Free(m2, h) ensures m[h].alive && !Free(m, h) {
      if h < lo {
        assert m2[h] == m1[h] && !Free(m1, h);
      } else {
        assert m1[h] == m[h];
        assert m1[h].alive;
        assert m2[h] == m1[h].(alive := m1[h].event);
      }
    }
    forall c {:trigger m2[c]} | 0 <= c < |m| && (c >= hi || c !in heads2) ensures m2[c] == m[c] {
      if c < hi && c in heads1 {
        assert c in heads2 || lo <= c < hi;
      }
      assert m2[c] == m1[c];
    }
  }

  lemma NextCluster(m: seq<Cell>, heads: set<nat>, spans: seq<Span>, i: nat, m1: seq<Cell>, heads1: set<nat>)
    requires HeapTiled(m, heads, spans) && i < |spans|
    requires SurvivorsBelow(m, heads, m1, heads1, spans[i].hi)
    ensures SurvivorsBelow(m, heads, m1, heads1, SpanStart(spans, i + 1, |m|))
  {
    assert SpanTiled(m, heads, spans, i);
    forall h {:trigger h in heads} | h in heads ensures !(spans[i].hi <= h < SpanStart(spans, i + 1, |m|)) {
      NoHeadsBetween(m, heads, spans, i, h);
    }
  }

  // What marking does not disturb.

  lemma MarkKeepsTiling(m: seq<Cell>, heads: set<nat>, spans: seq<Span>, sources: set<nat>, m1: seq<Cell>)
    requires HeapTiled(m, heads, spans) && Unmarked(m, heads) && ReachableMarked(m, heads, sources, m1)
    requires forall x {:trigger x in sources} :: x in sources ==> x in heads && !Free(m, x)
    ensures HeapTiled(m1, heads, spans)
    ensures forall h {:trigger Free(m1, h)} :: h in heads && h < |m| && Free(m1, h) ==> !m1[h].alive
  {
    forall h {:trigger Free(m1, h)} | h in heads && h < |m| && Free(m1, h) ensures !m1[h].alive {
      assert m1[h] == m[h].(alive := m1[h].alive) && Free(m, h);
      if Reach(m, sources, h) { ReachUsed(m, heads, sources, h); }
    }
    forall a {:trigger EndOf(m1, a)} | 0 <= a < |m| ensures EndOf(m1, a) == EndOf(m, a) { assert m1[a] == m[a].(alive := m1[a].alive); }
    forall i {:trigger SpanTiled(m1, heads, spans, i)} | 0 <= i < |spans| ensures SpanTiled(m1, heads, spans, i) {
      assert SpanTiled(m, heads, spans, i);
    }
  }

  lemma ReachUsed(m: seq<Cell>, heads: set<nat>, sources: set<nat>, x: nat)
    requires GraphOk(m, heads) && Reach(m, sources, x)
    requires forall x {:trigger x in sources} :: x in sources ==> x in heads && !Free(m, x)
    ensures x in heads && !Free(m, x)
  {
    var used := set h | h in heads && !Free(m, h);
    forall a, b {:trigger Edge(m, a, b)} | a in used && Edge(m, a, b) ensures b in used {
      var c :| SlotOf(m, a, c) && Target(m, c) == b;
      assert ObjectOk(m, heads, a);
      assert c != a ==> PlainSlot(m, heads, c);
    }
    ReachInClosed(m, sources, used, x);
  }

  // The result of a collection.

  ghost predicate Live(m: seq<Cell>, heads: set<nat>, sources: set<nat>, h: nat) {
    h in heads && h < |m| && (m[h].event || Reach(m, sources, h))
  }

  /** An object that is left as it was, but for the mark bits of its inner cells. */
  ghost predicate Same(m: seq<Cell>, h: nat, m': seq<Cell>) {
    && h < |m| == |m'| && m'[h] == m[h]
    && (forall c {:trigger m'[c]} :: h < c < EndOf(m, h) && c < |m| ==> m'[c] == m[c].(alive := m'[c].alive))
  }

  /** The used blocks after the collection are the live ones before it, unchanged and in place. */
  ghost predicate Collected(m: seq<Cell>, heads: set<nat>, sources: set<nat>, m': seq<Cell>, heads': set<nat>) {
    && |m'| == |m| && heads' <= heads
    && (forall h: nat {:trigger Live(m, heads, sources, h)} :: Live(m, heads, sources, h) ==> h in heads' && !Free(m', h) && Same(m, h, m'))
    && (forall h {:trigger Free(m', h)} :: h in heads' && h < |m| && !Free(m', h) ==> Live(m, heads, sources, h))
    && (forall c {:trigger m'[c]} :: 0 <= c < |m| && c !in heads' ==> m'[c] == m[c].(alive := m'[c].alive))
  }

  lemma CollectedAll(m: seq<Cell>, heads: set<nat>, sources: set<nat>, m1: seq<Cell>, m': seq<Cell>, heads': set<nat>)
    requires Unmarked(m, heads) && ReachableMarked(m, heads, sources, m1)
    requires SurvivorsBelow(m1, heads, m', heads', |m|)
    requires forall h {:trigger Free(m1, h)} :: h in heads && h < |m| && Free(m1, h) ==> !m1[h].alive
    ensures Collected(m, heads, sources, m', heads')
  {
    forall h: nat {:trigger Live(m, heads, sources, h)} | Live(m, heads, sources, h) ensures h in heads' && !Free(m', h) && Same(m, h, m') {
      assert m1[h] == m[h].(alive := m1[h].alive) && m1[h].alive;
      assert Kept(m1, h, m', heads');
      assert !Free(m1, h);
      forall c {:trigger m'[c]} | h < c < EndOf(m, h) && c < |m| ensures m'[c] == m[c].(alive := m'[c].alive) {
        assert m'[c] == m1[c] && m1[c] == m[c].(alive := m1[c].alive);
      }
    }
    forall h {:trigger Free(m', h)} | h in heads' && h < |m| && !Free(m', h) ensures Live(m, heads, sources, h) {
      assert m1[h].alive && m1[h] == m[h].(alive := m1[h].alive);
    }
    forall c {:trigger m'[c]} | 0 <= c < |m| && c !in heads' ensures m'[c] == m[c].(alive := m'[c].alive) {
      assert m'[c] == m1[c] && m1[c] == m[c].(alive := m1[c].alive);
    }
  }

  lemma CollectedSlot(m: seq<Cell>, heads: set<nat>, sources: set<nat>, m': seq<Cell>, heads': set<nat>, c: nat)
    requires Collected(m, heads, sources, m', heads')
    requires PlainSlot(m, heads, c) && (Target(m, c) != NULL ==> Live(m, heads, sources, Target(m, c)))
    ensures PlainSlot(m', heads', c)
  {
    assert c !in heads';
    assert m'[c] == m[c].(alive := m'[c].alive);
    assert Target(m', c) == Target(m, c);
  }

  /** The heap a collection leaves is ready for the next one. */
  lemma CollectedGraph(m: seq<Cell>, heads: set<nat>, spans: seq<Span>, sources: set<nat>, m': seq<Cell>, heads': set<nat>,
                       lists': seq<seq<nat>>)
    requires Unmarked(m, heads)
    requires HeapOk(m', heads', spans, lists') && Collected(m, heads, sources, m', heads')
    ensures Unmarked(m', heads')
  {
    forall h {:trigger ObjectOk(m', heads', h)} | h in heads' && !Free(m', h) ensures ObjectOk(m', heads', h) {
      assert Live(m, heads, sources, h) && Same(m, h, m');
      LiveTargets(m, heads, sources, h);
      assert SlotOf(m, h, h);
      forall c {:trigger PlainSlot(m', heads', c)} | h < c <= h + Children(m'[h]) ensures PlainSlot(m', heads', c) {
        assert PlainSlot(m, heads, c) && SlotOf(m, h, c);
        CollectedSlot(m, heads, sources, m', heads', c);
      }
      assert Target(m', h) == Target(m, h);
    }
    forall h {:trigger m'[h]} | h in heads' ensures (m'[h].alive <==> m'[h].event) && (Free(m', h) ==> !m'[h].event) {
      if Free(m', h) {
        assert InSpan(spans, h);
        var i :| 0 <= i < |spans| && spans[i].lo <= h < spans[i].hi;
        assert ClusterAt(m', heads', spans, lists', i);
      } else {
        assert Live(m, heads, sources, h);
        assert m'[h] == m[h];
      }
    }
  }

  lemma LiveTargets(m: seq<Cell>, heads: set<nat>, sources: set<nat>, h: nat)
    requires GraphOk(m, heads) && Live(m, heads, sources, h) && !Free(m, h)
    ensures ObjectOk(m, heads, h)
    ensures forall c {:trigger SlotOf(m, h, c)} :: SlotOf(m, h, c) ==> Target(m, c) == NULL || Live(m, heads, sources, Target(m, c))
  {
    assert ObjectOk(m, heads, h);
    forall c {:trigger SlotOf(m, h, c)} | SlotOf(m, h, c) && Target(m, c) != NULL ensures Live(m, heads, sources, Target(m, c)) {
      assert c != h ==> PlainSlot(m, heads, c);
      ReachEdge(m, sources, h, c);
    }
  }

  lemma NoneInEmptyCache(m: seq<Cell>, heads: set<nat>, events: seq<seq<nat>>, x: nat)
    requires CacheOk(m, heads, events) && forall i {:trigger events[i]} :: 0 <= i < |events| ==> events[i] == []
    ensures x in heads ==> !IsCached(m, x)
  {
  }

  lemma NothingCachedLeft(m: seq<Cell>, heads: set<nat>, sources: set<nat>, m': seq<Cell>, heads': set<nat>, events: seq<seq<nat>>)
    requires Collected(m, heads, sources, m', heads') && CacheOk(m, heads, events) && events == seq(MAX_FAST_LISTS, _ => [])
    ensures CacheOk(m', heads', events) && Cleaned(m', heads') == m'
  {
    forall x: nat {:trigger IsCached(m', x)} | x in heads' ensures !IsCached(m', x) {
      NoneInEmptyCache(m, heads, events, x);
      assert x in heads' && x < |m| && !Free(m', x) ==> Live(m, heads, sources, x) && m'[x] == m[x];
    }
    forall i: nat {:trigger NodesOk(m', heads', events[i], i)} | i < |events| ensures NodesOk(m', heads', events[i], i) {}
    forall c | 0 <= c < |m'| ensures Cleaned(m', heads')[c] == m'[c] {
      assert c in heads' ==> !IsCached(m', c);
    }
  }

  /** The byte counts: the payloads, of which what is not free is in use by blocks. */
  ghost predicate Counted(m: seq<Cell>, heads: set<nat>, spans: seq<Span>, lists: seq<seq<nat>>, total: nat, free: nat) {
    && |lists| == |spans|
    && total == BLOCK_BYTES * CompactionResults.HeapSize(spans, |spans|)
    && free == BLOCK_BYTES * CompactionResults.FreeSize(m, lists, |lists|)
    && total == free + BLOCK_BYTES * |CompactionResults.UsedBelow(m, heads, |m|)|
  }

  class Gc {
    const collector: Collector
    const cache: EventLists
    var totalBytes: nat
    var freeBytes: nat

    constructor (collector: Collector, cache: EventLists)
      ensures this.collector == collector && this.cache == cache
    {
      this.collector, this.cache, totalBytes, freeBytes := collector, cache, 0, 0;
    }

    /** The clusters share one memory and are different objects; the value view of their payloads is spans. */
    ghost predicate Linked(spans: seq<Span>)
      reads collector.marker.heap
    {
      var marker := collector.marker;
      && marker.SpansAre(spans)
      && (forall i {:trigger marker.heap[i]} :: 0 <= i < |marker.heap| ==> marker.heap[i].mem == marker.mem)
      && (forall i, j {:trigger marker.heap[i], marker.heap[j]} :: 0 <= i < j < |marker.heap| ==> marker.heap[i] != marker.heap[j])
    }

    /** A full collection: empties the event cache, marks, sweeps and counts. The blocks of the cache are
        reclaimed with everything else that is not live. */
    method ExecuteGarbageCollection(ghost spans: seq<Span>) returns (free: nat, ghost lists: seq<seq<nat>>, ghost dead: seq<bool>, ghost dropped: bool)
      requires Linked(spans) && cache.mem == collector.marker.mem && collector.marker.mem.cells.Length > 0
      requires HeapTiled(collector.marker.mem.cells[..], collector.marker.mem.heads, spans)
      requires CacheOk(collector.marker.mem.cells[..], collector.marker.mem.heads, cache.events)
      requires collector.RootsOk(Cleaned(collector.marker.mem.cells[..], collector.marker.mem.heads), collector.marker.mem.heads)
      requires Unmarked(Cleaned(collector.marker.mem.cells[..], collector.marker.mem.heads), collector.marker.mem.heads)
      requires collector.marker.top == 0 && collector.marker.markStack.Length >= 2 && collector.marker.markStack[0].num == 0
      modifies this, cache, collector, collector.marker, collector.marker.markStack
      modifies collector.marker.heap, collector.marker.mem`heads, collector.marker.mem.cells
      ensures |dead| == |old(collector.finalizersAlive)|
      ensures collector.finalizersAlive == Pick(old(collector.finalizersAlive), dead, false)
      ensures collector.finalizersPending == old(collector.finalizersPending) + Pick(old(collector.finalizersAlive), dead, true)
      ensures multiset(collector.finalizersAlive) + multiset(collector.finalizersPending)
        == multiset(old(collector.finalizersAlive)) + multiset(old(collector.finalizersPending))
      ensures var m, heads, pending, fins := Cleaned(old(collector.marker.mem.cells[..]), old(collector.marker.mem.heads)), old(collector.marker.mem.heads), old(collector.finalizersPending), old(collector.finalizersAlive);
        && AllJudged(m, heads, collector.roots, pending, fins, dead, !dropped)
        && (forall i :: 0 <= i < |dead| && dead[i] ==> !Reach(m, Sources(m, heads, collector.roots, pending), fins[i].target))
      ensures var m, heads := Cleaned(old(collector.marker.mem.cells[..]), old(collector.marker.mem.heads)), old(collector.marker.mem.heads);
        Collected(m, heads, Sources(m, heads, collector.roots, collector.finalizersPending), collector.marker.mem.cells[..], collector.marker.mem.heads)
      ensures Linked(spans) && HeapOk(collector.marker.mem.cells[..], collector.marker.mem.heads, spans, lists)
      ensures forall i {:trigger lists[i]} :: 0 <= i < |lists| ==> lists[i] == collector.marker.heap[i].freeList
      ensures Unmarked(collector.marker.mem.cells[..], collector.marker.mem.heads)
      ensures PointersLead(collector.marker.mem.cells[..], collector.marker.mem.heads)
      ensures collector.RootsOk(collector.marker.mem.cells[..], collector.marker.mem.heads)
      ensures CacheOk(collector.marker.mem.cells[..], collector.marker.mem.heads, cache.events)
      ensures Cleaned(collector.marker.mem.cells[..], collector.marker.mem.heads) == collector.marker.mem.cells[..]
      ensures free == freeBytes && Counted(collector.marker.mem.cells[..], collector.marker.mem.heads, spans, lists, totalBytes, freeBytes)
    {
      ghost var m, heads := Cleaned(collector.marker.mem.cells[..], collector.marker.mem.heads), collector.marker.mem.heads;
      CleanedTiled(collector.marker.mem.cells[..], heads, spans);
      var _ := cache.Cleanup();
      lists, dead, dropped := MarkAndSweep(spans);
      NothingCachedLeft(m, heads, Sources(m, heads, collector.roots, collector.finalizersPending), collector.marker.mem.cells[..], collector.marker.mem.heads,
                        cache.events);
      free := ComputeAliveVsDeadRatio(spans, lists);
    }

    /** Counts the bytes of all payloads and of all free blocks. */
    method ComputeAliveVsDeadRatio(ghost spans: seq<Span>, ghost lists: seq<seq<nat>>) returns (free: nat)
      requires Linked(spans) && HeapOk(collector.marker.mem.cells[..], collector.marker.mem.heads, spans, lists)
      requires forall i {:trigger lists[i]} :: 0 <= i < |lists| ==> lists[i] == collector.marker.heap[i].freeList
      modifies this
      ensures free == freeBytes && Counted(collector.marker.mem.cells[..], collector.marker.mem.heads, spans, lists, totalBytes, freeBytes)
    {
      var heap, mem := collector.marker.heap, collector.marker.mem;
      var total, freeBlocks, i := 0, 0, 0;
      while i < |heap|
        invariant i <= |heap| && total == BLOCK_BYTES * CompactionResults.HeapSize(spans, i)
        invariant freeBlocks == CompactionResults.FreeSize(mem.cells[..], lists, i)
      {
        assert ClusterAt(mem.cells[..], mem.heads, spans, lists, i);
        total := total + BLOCK_BYTES * (heap[i].payloadEnd - heap[i].payloadStart);
        var size := ListUnits(heap[i], spans[i].lo, spans[i].hi);
        freeBlocks := freeBlocks + size;
        i := i + 1;
      }
      if |spans| > 0 { assert ClusterAt(mem.cells[..], mem.heads, spans, lists, |spans| - 1); }
      CompactionResults.HeapUnits(mem.cells[..], mem.heads, spans, lists, |spans|, mem.cells.Length);
      totalBytes := total;
      freeBytes := freeBlocks * BLOCK_BYTES;
      free := freeBytes;
    }

    /** Adds up the free blocks of a cluster, from the last one to the first. */
    method ListUnits(hc: Cluster, ghost lo: nat, ghost hi: nat) returns (size: nat)
      requires ClusterOk(hc.mem.cells[..], hc.mem.heads, lo, hi, hc.freeList)
      ensures size == CompactionResults.ListSize(hc.mem.cells[..], hc.freeList, |hc.freeList|)
    {
      ghost var m, all := hc.mem.cells[..], CompactionResults.ListSize(hc.mem.cells[..], hc.freeList, |hc.freeList|);
      size := 0;
      var k := |hc.freeList|;
      while k > 0
        invariant 0 <= k <= |hc.freeList| && size + CompactionResults.ListSize(m, hc.freeList, k) == all
      {
        k := k - 1;
        FreeBlockBounds(m, hc.mem.heads, lo, hi, hc.freeList, k);
        size := size + hc.mem.cells[hc.freeList[k]].size;
      }
    }

    /** Mark and sweep. What is live afterwards was live before, is where it was and holds what it held;
        everything else has become free blocks, and the heap is ready for allocation and for the next
        collection. The free lists play no part until they are rebuilt. */
    method MarkAndSweep(ghost spans: seq<Span>) returns (ghost lists: seq<seq<nat>>, ghost dead: seq<bool>, ghost dropped: bool)
      requires Linked(spans) && collector.marker.mem.cells.Length > 0
      requires collector.RootsOk(collector.marker.mem.cells[..], collector.marker.mem.heads)
      requires Unmarked(collector.marker.mem.cells[..], collector.marker.mem.heads)
      requires HeapTiled(collector.marker.mem.cells[..], collector.marker.mem.heads, spans)
      requires collector.marker.top == 0 && collector.marker.markStack.Length >= 2 && collector.marker.markStack[0].num == 0
      modifies collector, collector.marker, collector.marker.markStack
      modifies collector.marker.heap, collector.marker.mem`heads, collector.marker.mem.cells
      ensures |dead| == |old(collector.finalizersAlive)|
      ensures collector.finalizersAlive == Pick(old(collector.finalizersAlive), dead, false)
      ensures collector.finalizersPending == old(collector.finalizersPending) + Pick(old(collector.finalizersAlive), dead, true)
      ensures multiset(collector.finalizersAlive) + multiset(collector.finalizersPending)
        == multiset(old(collector.finalizersAlive)) + multiset(old(collector.finalizersPending))
      ensures var m, heads, pending, fins := old(collector.marker.mem.cells[..]), old(collector.marker.mem.heads), old(collector.finalizersPending), old(collector.finalizersAlive);
        && AllJudged(m, heads, collector.roots, pending, fins, dead, !dropped)
        && (forall i :: 0 <= i < |dead| && dead[i] ==> !Reach(m, Sources(m, heads, collector.roots, pending), fins[i].target))
      ensures var m, heads := old(collector.marker.mem.cells[..]), old(collector.marker.mem.heads);
        Collected(m, heads, Sources(m, heads, collector.roots, collector.finalizersPending), collector.marker.mem.cells[..], collector.marker.mem.heads)
      ensures Linked(spans) && HeapOk(collector.marker.mem.cells[..], collector.marker.mem.heads, spans, lists)
      ensures forall i {:trigger lists[i]} :: 0 <= i < |lists| ==> lists[i] == collector.marker.heap[i].freeList
      ensures Unmarked(collector.marker.mem.cells[..], collector.marker.mem.heads)
      ensures PointersLead(collector.marker.mem.cells[..], collector.marker.mem.heads)
      ensures collector.RootsOk(collector.marker.mem.cells[..], collector.marker.mem.heads)
    {
      var mem := collector.marker.mem;
      ghost var m, heads := mem.cells[..], mem.heads;
      ghost var fins := collector.finalizersAlive;
      dead, dropped := collector.Mark(spans);
      ghost var m1 := mem.cells[..];
      ghost var sources := Sources(m, heads, collector.roots, collector.finalizersPending);
      PendingOk(m, heads, old(collector.finalizersPending), fins, dead, collector.finalizersPending);
      FinalizersKept(old(collector.finalizersPending), fins, dead);
      SourcesUsed(m, heads, collector.roots, collector.finalizersPending);
      MarkKeepsTiling(m, heads, spans, sources, m1);
      lists := Sweep(spans);
      CollectedAll(m, heads, sources, m1, mem.cells[..], mem.heads);
      CollectedGraph(m, heads, spans, sources, mem.cells[..], mem.heads, lists);
      GraphLeads(mem.cells[..], mem.heads);
      RootsStay(m, heads, collector.roots, collector.finalizersPending, mem.cells[..], mem.heads);
      FinalizersStay(m, heads, sources, m1, mem.cells[..], mem.heads, fins, dead);
    }

    /** Reclaims the unmarked blocks of all clusters, whatever their free lists were before. */
    method Sweep(ghost spans: seq<Span>) returns (ghost lists: seq<seq<nat>>)
      requires Linked(spans)
      requires HeapTiled(collector.marker.mem.cells[..], collector.marker.mem.heads, spans)
      requires forall h {:trigger Free(collector.marker.mem.cells[..], h)} ::
        h in collector.marker.mem.heads && h < collector.marker.mem.cells.Length && Free(collector.marker.mem.cells[..], h) ==> !collector.marker.mem.cells[h].alive
      modifies collector.marker.heap, collector.marker.mem`heads, collector.marker.mem.cells
      ensures HeapOk(collector.marker.mem.cells[..], collector.marker.mem.heads, spans, lists)
      ensures forall i {:trigger lists[i]} :: 0 <= i < |lists| ==> lists[i] == collector.marker.heap[i].freeList
      ensures SurvivorsBelow(old(collector.marker.mem.cells[..]), old(collector.marker.mem.heads),
                             collector.marker.mem.cells[..], collector.marker.mem.heads, collector.marker.mem.cells.Length)
    {
      var heap, mem := collector.marker.heap, collector.marker.mem;
      ghost var m, heads := mem.cells[..], mem.heads;
      lists := seq(|heap|, _ => []);
      SweepStart(m, heads, spans);
      var i := 0;
      while i < |heap|
        invariant i <= |heap| == |lists| && SurvivorsBelow(m, heads, mem.cells[..], mem.heads, SpanStart(spans, i, |m|))
        invariant OkBelow(mem.cells[..], mem.heads, spans, lists, i)
        invariant forall j {:trigger lists[j]} :: 0 <= j < i ==> lists[j] == heap[j].freeList
      {
        ghost var m1, heads1 := mem.cells[..], mem.heads;
        SweepReady(m, heads, spans, i, m1, heads1);
        heap[i].RecoverFromGC();
        ClusterSwept(m, heads, spans, i, m1, heads1, mem.cells[..], mem.heads);
        NextCluster(m, heads, spans, i, mem.cells[..], mem.heads);
        OneMoreOk(m1, heads1, spans, lists, i, mem.cells[..], mem.heads, heap[i].freeList);
        lists := lists[i := heap[i].freeList];
        i := i + 1;
      }
    }
  }

  lemma RootStays(m: seq<Cell>, heads: set<nat>, sources: set<nat>, m': seq<Cell>, heads': set<nat>, r: Root)
    requires Collected(m, heads, sources, m', heads') && RootOk(m, heads, r) && (forall h :: h in heads ==> h < |m|)
    requires forall x {:trigger RootPoints(m, r, x)} :: RootPoints(m, r, x) && x != NULL ==> x in sources
    ensures RootOk(m', heads', r)
  {
    match r
    case Cells(run) =>
      forall c {:trigger InRange(run, c)} | InRange(run, c) ensures PlainSlot(m', heads', c) {
        if Target(m, c) != NULL {
          assert RootPoints(m, r, Target(m, c));
          ReachSource(m, sources, Target(m, c));
        }
        CollectedSlot(m, heads, sources, m', heads', c);
      }
    case Pointer(obj) =>
      if obj != NULL { assert RootPoints(m, r, obj); ReachSource(m, sources, obj); assert Live(m, heads, sources, obj); }
    case Forced(obj) =>
      if obj != NULL { assert RootPoints(m, r, obj); ReachSource(m, sources, obj); assert Live(m, heads, sources, obj); }
  }

  lemma RootsStay(m: seq<Cell>, heads: set<nat>, roots: seq<Root>, pending: seq<Finalizer>, m': seq<Cell>, heads': set<nat>)
    requires GraphOk(m, heads) && Collected(m, heads, Sources(m, heads, roots, pending), m', heads')
    requires forall i {:trigger roots[i]} :: 0 <= i < |roots| ==> RootOk(m, heads, roots[i])
    requires forall i {:trigger pending[i]} :: 0 <= i < |pending| ==> ObjectPointer(m, heads, pending[i].target)
    ensures forall i {:trigger roots[i]} :: 0 <= i < |roots| ==> RootOk(m', heads', roots[i])
    ensures forall i {:trigger pending[i]} :: 0 <= i < |pending| ==> ObjectPointer(m', heads', pending[i].target)
  {
    var sources := Sources(m, heads, roots, pending);
    forall i {:trigger roots[i]} | 0 <= i < |roots| ensures RootOk(m', heads', roots[i]) {
      forall x {:trigger RootPoints(m, roots[i], x)} | RootPoints(m, roots[i], x) && x != NULL ensures x in sources {
        RootTarget(m, heads, roots[i], x);
        assert RootsPoint(m, roots, x);
      }
      RootStays(m, heads, sources, m', heads', roots[i]);
    }
    forall i {:trigger pending[i]} | 0 <= i < |pending| ensures ObjectPointer(m', heads', pending[i].target) {
      if pending[i].target != NULL {
        assert Finalizes(pending, pending[i].target);
        ReachSource(m, sources, pending[i].target);
        assert Live(m, heads, sources, pending[i].target);
      }
    }
  }

  lemma FinalizersStay(m: seq<Cell>, heads: set<nat>, sources: set<nat>, m1: seq<Cell>, m': seq<Cell>, heads': set<nat>,
                       fins: seq<Finalizer>, dead: seq<bool>)
    requires ReachableMarked(m, heads, sources, m1) && Collected(m, heads, sources, m', heads') && |dead| == |fins|
    requires forall i {:trigger fins[i]} :: 0 <= i < |fins| ==>
      fins[i].target in heads && fins[i].target != NULL && fins[i].target < |m| && m1[fins[i].target].alive
    ensures forall i {:trigger Pick(fins, dead, false)[i]} :: 0 <= i < |Pick(fins, dead, false)| ==>
      var x := Pick(fins, dead, false)[i].target; x in heads' && x != NULL && !Free(m', x)
  {
    forall i {:trigger Pick(fins, dead, false)[i]} | 0 <= i < |Pick(fins, dead, false)|
      ensures var x := Pick(fins, dead, false)[i].target; x in heads' && x != NULL && !Free(m', x)
    {
      PickFrom(fins, dead, false, i);
      assert Live(m, heads, sources, Pick(fins, dead, false)[i].target);
    }
  }

  lemma FinalizersKept(pending: seq<Finalizer>, fins: seq<Finalizer>, dead: seq<bool>)
    requires |dead| == |fins|
    ensures multiset(Pick(fins, dead, false)) + multiset(pending + Pick(fins, dead, true)) == multiset(fins) + multiset(pending)
  {
    PickConserves(fins, dead);
    assert fins[..|dead|] == fins;
  }

  lemma SourcesUsed(m: seq<Cell>, heads: set<nat>, roots: seq<Root>, pending: seq<Finalizer>)
    requires forall i {:trigger roots[i]} :: 0 <= i < |roots| ==> RootOk(m, heads, roots[i])
    requires forall i {:trigger pending[i]} :: 0 <= i < |pending| ==> ObjectPointer(m, heads, pending[i].target)
    ensures forall x {:trigger x in Sources(m, heads, roots, pending)} :: x in Sources(m, heads, roots, pending) ==> x in heads && !Free(m, x)
  {
    forall x {:trigger x in Sources(m, heads, roots, pending)} | x in Sources(m, heads, roots, pending) ensures x in heads && !Free(m, x) {
      if RootsPoint(m, roots, x) {
        var i :| 0 <= i < |roots| && RootPoints(m, roots[i], x);
        if roots[i].Cells? {
          var c :| InRange(roots[i].run, c) && Target(m, c) == x;
          assert PlainSlot(m, heads, c);
        }
      } else {
        var i :| 0 <= i < |pending| && pending[i].target == x;
      }
    }
  }

  lemma {:induction false} PickFrom(fins: seq<Finalizer>, dead: seq<bool>, d: bool, i: nat)
    requires |dead| <= |fins| && i < |Pick(fins, dead, d)|
    ensures exists j :: 0 <= j < |dead| && Pick(fins, dead, d)[i] == fins[j]
  {
    var n := |dead| - 1;
    var rest := Pick(fins, dead[..n], d);
    if i < |rest| {
      PickFrom(fins, dead[..n], d, i);
    } else {
      assert Pick(fins, dead, d)[i] == fins[n];
    }
  }

  lemma PendingOk(m: seq<Cell>, heads: set<nat>, pending: seq<Finalizer>, fins: seq<Finalizer>, dead: seq<bool>, pending': seq<Finalizer>)
    requires |dead| <= |fins| && pending' == pending + Pick(fins, dead, true)
    requires forall i {:trigger pending[i]} :: 0 <= i < |pending| ==> ObjectPointer(m, heads, pending[i].target)
    requires forall i {:trigger fins[i]} :: 0 <= i < |fins| ==> ObjectPointer(m, heads, fins[i].target)
    ensures forall i {:trigger pending'[i]} :: 0 <= i < |pending'| ==> ObjectPointer(m, heads, pending'[i].target)
  {
    forall i {:trigger pending'[i]} | 0 <= i < |pending'| ensures ObjectPointer(m, heads, pending'[i].target) {
      if i < |pending| {
        assert pending'[i] == pending[i];
      } else {
        PickFrom(fins, dead, true, i - |pending|);
      }
    }
  }

  lemma SweepStart(m: seq<Cell>, heads: set<nat>, spans: seq<Span>)
    requires HeapTiled(m, heads, spans)
    ensures SurvivorsBelow(m, heads, m, heads, SpanStart(spans, 0, |m|))
  {
    forall h {:trigger h in heads} | h in heads ensures |spans| > 0 && spans[0].lo <= h {
      assert InSpan(spans, h);
      NoHeadsBetween(m, heads, spans, 0, h);
    }
  }

  lemma SweepReady(m: seq<Cell>, heads: set<nat>, spans: seq<Span>, i: nat, m1: seq<Cell>, heads1: set<nat>)
    requires HeapTiled(m1, heads1, spans) && i < |spans|
    requires SurvivorsBelow(m, heads, m1, heads1, spans[i].lo)
    requires forall h {:trigger Free(m, h)} :: h in heads && h < |m| && Free(m, h) ==> !m[h].alive
    ensures Sweepable(m1, heads1, spans[i].lo, spans[i].hi)
  {
    assert SpanTiled(m1, heads1, spans, i);
    forall h {:trigger Free(m1, h)} | h in heads1 && spans[i].lo <= h < spans[i].hi && Free(m1, h) ensures !m1[h].alive {
      assert m1[h] == m[h];
      assert Free(m, h);
    }
  }
}
