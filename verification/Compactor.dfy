/** The garbage collector's compaction pass. */
module Compactor {
  import opened HeapMemory
  import opened NodeList
  import opened HeapCluster
  import opened Tiling
  import opened Heap
  import opened Relocation
  import opened Compaction
  import opened CompactionSteps
  import opened CompactionProgress
  import opened CompactionEnd
  import opened PointerPass

  class GarbageCollector {
    const mem: Memory
    const heap: seq<Cluster>
    /** The object pointers held outside the heap. */
    const roots: array<nat>
    const relocBlocks: array<Region>
    var relocCount: nat
    /** The payloads and the free lists of the clusters, as values. */
    ghost const spans: seq<Span>
    ghost var lists: seq<seq<nat>>

    constructor (mem: Memory, heap: seq<Cluster>, roots: array<nat>, relocBlocks: array<Region>)
      requires forall i :: 0 <= i < |heap| ==> heap[i].mem == mem
      requires forall i, j :: 0 <= i < j < |heap| ==> heap[i] != heap[j]
      ensures this.mem == mem && this.heap == heap && this.roots == roots && this.relocBlocks == relocBlocks && relocCount == 0
      ensures Linked()
    {
      this.mem, this.heap, this.roots, this.relocBlocks, relocCount := mem, heap, roots, relocBlocks, 0;
      spans := seq(|heap|, i requires 0 <= i < |heap| => Span(heap[i].payloadStart, heap[i].payloadEnd));
      lists := seq(|heap|, i requires 0 <= i < |heap| reads heap => heap[i].freeList);
    }

    /** The ghost view is that of the clusters. */
    ghost predicate Linked()
      reads this`lists, heap
    {
      && |spans| == |lists| == |heap|
      && (forall i {:trigger heap[i]} :: 0 <= i < |heap| ==> heap[i].mem == mem)
      && (forall i {:trigger spans[i]} :: 0 <= i < |heap| ==> spans[i] == Span(heap[i].payloadStart, heap[i].payloadEnd))
      && (forall i {:trigger lists[i]} :: 0 <= i < |heap| ==> lists[i] == heap[i].freeList)
      && (forall i, j {:trigger heap[i], heap[j]} :: 0 <= i < j < |heap| ==> heap[i] != heap[j])
    }

    ghost predicate HeapValid()
      reads this`lists, heap, mem, mem.cells
    {
      && mem.cells.Length <= ADDRESS_SPACE
      && Linked()
      && HeapOk(mem.cells[..], mem.heads, spans, lists)
    }

    /** Skips blocks that may not be moved. */
    method SkipUnmovable(cs: nat, source: nat) returns (r: nat)
      requires HeapValid() && cs < |heap|
      requires heap[cs].payloadStart <= source <= heap[cs].payloadEnd && (source < heap[cs].payloadEnd ==> source in mem.heads)
      ensures source <= r <= heap[cs].payloadEnd
      ensures r < heap[cs].payloadEnd ==> r in mem.heads && r < mem.cells.Length && !mem.cells[..][r].Unmovable()
      ensures forall h: nat {:trigger MovableHead(mem.cells[..], mem.heads, h)} :: source <= h < r ==> !MovableHead(mem.cells[..], mem.heads, h)
    {
      assert ClusterAt(mem.cells[..], mem.heads, spans, lists, cs) && spans[cs].lo == heap[cs].payloadStart;
      r := SkipUnmovableIn(source, heap[cs].payloadStart, heap[cs].payloadEnd);
    }

    method SkipUnmovableIn(source: nat, ghost lo: nat, hi: nat) returns (r: nat)
      requires Tiled(mem.cells[..], mem.heads, lo, hi)
      requires lo <= source <= hi && (source < hi ==> source in mem.heads)
      ensures source <= r <= hi
      ensures r < hi ==> r in mem.heads && !mem.cells[..][r].Unmovable()
      ensures forall h: nat {:trigger MovableHead(mem.cells[..], mem.heads, h)} :: source <= h < r ==> !MovableHead(mem.cells[..], mem.heads, h)
    {
      r := source;
      while r < hi && mem.cells[r].Unmovable()
        invariant source <= r <= hi && (r < hi ==> r in mem.heads)
        invariant forall h: nat {:trigger MovableHead(mem.cells[..], mem.heads, h)} :: source <= h < r ==> !MovableHead(mem.cells[..], mem.heads, h)
      {
        assert r < EndOf(mem.cells[..], r);
        r := r + mem.cells[r].size;
      }
    }

    /** The blocks that are moved in one go: all movable ones in a row when they follow the free block
        (slide), else as many of them as fit into it. */
    method FindRun(source: nat, ghost lo: nat, hi: nat, slide: bool, freeSize: nat) returns (end: nat)
      requires Tiled(mem.cells[..], mem.heads, lo, hi)
      requires lo <= source < hi && source in mem.heads && !mem.cells[..][source].Unmovable()
      ensures source <= end <= hi && (slide ==> source < end)
      ensures source < end ==> MovableRun(mem.cells[..], mem.heads, lo, hi, source, end)
      ensures !slide ==> end - source <= freeSize
      ensures end == source ==> freeSize < mem.cells[..][source].size
      ensures slide && end < hi ==> mem.cells[..][end].Unmovable()
    {
      end := source;
      while (slide || end - source < freeSize) && end < hi && !mem.cells[end].Unmovable()
        invariant source <= end <= hi && (end < hi ==> end in mem.heads)
        invariant slide && end == source ==> !mem.cells[..][source].Unmovable()
        invariant forall h {:trigger h in mem.heads} :: source <= h < end && h in mem.heads ==> !mem.cells[..][h].Unmovable()
        invariant !slide ==> end - source <= freeSize
        decreases hi - end
      {
        assert end < EndOf(mem.cells[..], end);
        if !slide && freeSize - (end - source) < mem.cells[end].size { break; }
        end := end + mem.cells[end].size;
      }
    }

    /** Unlinks the free block and copies the run into it; next is the following free region. */
    method CopyRun(cf: nat, freeRegion: nat, start: nat, end: nat, ghost x: nat) returns (next: nat, ghost k: nat)
      requires cf < |heap| && Has(heap[cf].freeList, freeRegion) && 1 <= heap[cf].payloadStart
      requires freeRegion <= start <= end <= mem.cells.Length
      requires forall i, j :: 0 <= i < j < |heap[cf].freeList| ==> heap[cf].freeList[i] < heap[cf].freeList[j]
      modifies heap[cf], mem`heads, mem.cells
      ensures NextFree(old(heap[cf].freeList), heap[cf].payloadStart, freeRegion, next)
      ensures k < |old(heap[cf].freeList)| && freeRegion == old(heap[cf].freeList)[k]
      ensures Removed(old(heap[cf].freeList), k, heap[cf].freeList)
      ensures MovedDown(old(mem.cells[..]), freeRegion, start, end - start, mem.cells[..])
      ensures mem.heads == CopiedHeads(old(mem.heads), freeRegion, start, end, x)
      ensures RegionOrTail(heap[cf].freeList, heap[cf].payloadStart, next)
    {
      var F := heap[cf];
      var i := Position(F.freeList, freeRegion);
      k := i;
      next := if i + 1 < |F.freeList| then F.freeList[i + 1] else F.payloadStart - 1;
      assert i + 1 < |F.freeList| ==> Has(F.freeList, next);
      F.freeList := Unlink(F.freeList, i);
      assert next == F.payloadStart - 1 || F.freeList[i] == next;
      MemMove(mem.cells, freeRegion, start, end - start);
      mem.heads := CopiedHeads(mem.heads, freeRegion, start, end, x);
    }

    /** Copies the run into the free block and returns the unused rest to the free list. fr is the free
        region to go on with. */
    method FillFreeRegion(cf: nat, ghost k: nat, freeRegion: nat, ghost cs: nat, start: nat, end: nat, slide: bool, ghost x: nat)
      returns (fr: nat)
      requires HeapValid() && cf < |heap|
      requires Step(mem.cells[..], mem.heads, spans, lists, cf, k, cs, freeRegion, start, end, x)
      requires slide <==> x == end
      modifies heap[cf], this`lists, mem`heads, mem.cells
      ensures HeapValid()
      ensures Filled(old(mem.cells[..]), old(mem.heads), spans, cs, freeRegion, start, end, x, mem.cells[..], mem.heads, lists)
      ensures RegionOrTail(heap[cf].freeList, heap[cf].payloadStart, fr)
      ensures NextIs(old(heap[cf].freeList), heap[cf].payloadStart, freeRegion, freeRegion + (end - start), x, fr)
    {
      ghost var m, heads := mem.cells[..], mem.heads;
      StepFacts(m, heads, spans, lists, cf, k, cs, freeRegion, start, end, x);
      assert lists[cf] == heap[cf].freeList && spans[cf] == Span(heap[cf].payloadStart, heap[cf].payloadEnd);
      var size := mem.cells[freeRegion].size;
      var rest := if slide then size else size - (end - start);
      ghost var k1: nat;
      fr, k1 := CopyRun(cf, freeRegion, start, end, x);
      if rest != 0 {
        fr := ReturnRest(cf, k1, freeRegion, cs, start, end, x, m, heads, freeRegion + (end - start), rest);
      } else {
        StepExact(m, heads, spans, lists, cf, k1, cs, freeRegion, start, end, x, mem.cells[..], mem.heads, heap[cf].freeList);
        lists := lists[cf := heap[cf].freeList];
      }
    }

    method ReturnRest(cf: nat, ghost k: nat, ghost freeRegion: nat, ghost cs: nat, ghost start: nat, ghost end: nat, ghost x: nat,
                      ghost m: seq<Cell>, ghost heads: set<nat>, q: nat, rest: nat)
      returns (fr: nat)
      requires cf < |heap| && |spans| == |heap| && heap[cf].mem == mem && spans[cf] == Span(heap[cf].payloadStart, heap[cf].payloadEnd)
      requires Step(m, heads, spans, lists, cf, k, cs, freeRegion, start, end, x)
      requires MovedDown(m, freeRegion, start, end - start, mem.cells[..]) && Removed(lists[cf], k, heap[cf].freeList)
      requires mem.heads == CopiedHeads(heads, freeRegion, start, end, x)
      requires q == freeRegion + (end - start) && q + rest == x && rest > 0
      modifies heap[cf], this`lists, mem`heads, mem.cells
      ensures lists == old(lists)[cf := heap[cf].freeList]
      ensures Filled(m, heads, spans, cs, freeRegion, start, end, x, mem.cells[..], mem.heads, lists)
      ensures RegionOrTail(heap[cf].freeList, heap[cf].payloadStart, fr) && fr == q
    {
      ghost var m1, heads1, fl1 := mem.cells[..], mem.heads, heap[cf].freeList;
      StepCopied(m, heads, spans, lists, cf, k, cs, freeRegion, start, end, x, m1, heads1, fl1);
      ghost var e: nat;
      fr, e := heap[cf].InsertInOrder(q, rest);
      StepReturned(m, heads, spans, lists, cf, k, cs, freeRegion, start, end, x, m1, heads1, fl1, q, rest, fr, e,
                   mem.cells[..], mem.heads, heap[cf].freeList);
      StepFacts(m, heads, spans, old(lists), cf, k, cs, freeRegion, start, end, x);
      RestStart(m, heads, spans, old(lists), cf, cs, freeRegion, start, end, if x == end then {} else RunHeads(heads, start, end),
                mem.cells[..], mem.heads, heap[cf].freeList, fr);
      lists := lists[cf := heap[cf].freeList];
    }

    /** Frees the memory the run has been copied from. */
    method ReturnSource(cs: nat, start: nat, end: nat, cf: nat, fr: nat,
                        ghost m: seq<Cell>, ghost heads: set<nat>, ghost lists0: seq<seq<nat>>, ghost dst: nat, ghost x: nat)
      returns (fr': nat)
      requires HeapValid() && cf <= cs < |heap|
      requires HeapOk(m, heads, spans, lists0) && MovableRun(m, heads, spans[cs].lo, spans[cs].hi, start, end)
      requires dst in heads && x == EndOf(m, dst) && dst + (end - start) <= x < start
      requires Filled(m, heads, spans, cs, dst, start, end, x, mem.cells[..], mem.heads, lists)
      requires RegionOrTail(lists[cf], spans[cf].lo, fr)
      modifies heap[cs], this`lists, mem`heads, mem.cells
      ensures HeapValid()
      ensures RunMoved(m, heads, mem.cells[..], mem.heads, start, end, dst)
      ensures RegionOrTail(lists[cf], spans[cf].lo, fr') && Absorbed(mem.cells[..], mem.heads, fr, fr')
    {
      ghost var m2, heads2, lists2 := mem.cells[..], mem.heads, lists;
      SourceVacated(m, heads, spans, lists0, cs, start, end, dst, m2, heads2, lists2);
      RunFacts(m, heads, spans, lists0, cs, start, end);
      assert spans[cs] == Span(heap[cs].payloadStart, heap[cs].payloadEnd) && lists[cs] == heap[cs].freeList;
      ghost var heads3 := Merged(heads2, start, end);
      var size := end - start;
      mem.heads := heads3;
      ghost var e: nat;
      var r: nat;
      r, e := heap[cs].InsertInOrder(start, size);
      ghost var m4, heads4, fl4 := mem.cells[..], mem.heads, heap[cs].freeList;
      SourceReturned(m, heads, spans, lists0, cs, start, end, dst, x, m2, heads2, lists2, heads3, size, r, e, m4, heads4, fl4);
      RegionAfterReturn(m2, heads2, spans, lists2, cf, cs, start, end, heads3, size, r, e, m4, heads4, fl4, fr);
      lists := lists[cs := heap[cs].freeList];
      fr' := if r < fr && fr < r + mem.cells[r].size then r else fr;
    }

    /** Rewrites the pointers of one block; a free block has none. */
    method RelocateBlock(ptr: nat, minimum: nat, maximum: nat)
      requires ptr < mem.cells.Length && EndOf(mem.cells[..], ptr) <= mem.cells.Length
      requires relocCount <= relocBlocks.Length && RegionsOk(relocBlocks[..relocCount])
      requires forall i :: 0 <= i < relocCount ==> minimum <= relocBlocks[i].start && relocBlocks[i].end <= maximum
      modifies mem.cells
      ensures SameShape(old(mem.cells[..]), mem.cells[..])
      ensures forall c {:trigger mem.cells[..][c]} :: 0 <= c < mem.cells.Length ==>
        var c0 := old(mem.cells[..])[c];
        mem.cells[..][c] == if !Free(old(mem.cells[..]), ptr) && ptr <= c < EndOf(old(mem.cells[..]), ptr)
                            then c0.(ref := Reloc(relocBlocks[..relocCount], c0.ref)) else c0
    {
      if mem.cells[ptr].IsFree() { return; }
      ghost var m, batch := mem.cells[..], relocBlocks[..relocCount];
      var size := mem.cells[ptr].size;
      for i := 0 to size
        invariant forall c {:trigger mem.cells[..][c]} :: 0 <= c < mem.cells.Length ==>
          mem.cells[..][c] == if ptr <= c < ptr + i then m[c].(ref := Reloc(batch, m[c].ref)) else m[c]
        invariant relocBlocks[..relocCount] == batch
      {
        var r := RelocatePointer(relocBlocks, relocCount, minimum, maximum, mem.cells[ptr + i].ref);
        assert mem.cells[..][ptr + i] == m[ptr + i];
        mem.cells[ptr + i] := mem.cells[ptr + i].(ref := r);
      }
    }

    /** Rewrites the pointers of one cluster, block by block. m is the memory before the pass. */
    method RelocateCluster(i: nat, minimum: nat, maximum: nat, ghost m: seq<Cell>)
      requires i < |heap| && Linked()
      requires HeapOk(m, mem.heads, spans, lists)
      requires relocCount <= relocBlocks.Length && RegionsOk(relocBlocks[..relocCount])
      requires forall i :: 0 <= i < relocCount ==> minimum <= relocBlocks[i].start && relocBlocks[i].end <= maximum
      requires RewrittenTo(m, mem.heads, relocBlocks[..relocCount], spans[i].lo, mem.cells[..])
      modifies mem.cells
      ensures RewrittenTo(m, mem.heads, relocBlocks[..relocCount], spans[i].hi, mem.cells[..])
    {
      ghost var lo, hi, batch := spans[i].lo, spans[i].hi, relocBlocks[..relocCount];
      assert spans[i] == Span(heap[i].payloadStart, heap[i].payloadEnd);
      assert ClusterAt(m, mem.heads, spans, lists, i);
      var ptr, end := heap[i].payloadStart, heap[i].payloadEnd;
      while ptr < end
        invariant lo <= ptr <= hi && (ptr < hi ==> ptr in mem.heads)
        invariant relocBlocks[..relocCount] == batch
        invariant RewrittenTo(m, mem.heads, batch, ptr, mem.cells[..])
      {
        ghost var m1 := mem.cells[..];
        assert ptr < EndOf(m, ptr) <= hi && m1[ptr] == m[ptr];
        assert EndOf(m1, ptr) == EndOf(m, ptr) && Free(m1, ptr) == Free(m, ptr);
        var size := mem.cells[ptr].size;
        RelocateBlock(ptr, minimum, maximum);
        BlockRewritten(m, mem.heads, spans, lists, batch, ptr, m1, mem.cells[..]);
        ptr := ptr + size;
      }
    }

    /** The pass over all clusters. */
    method RelocateHeap(minimum: nat, maximum: nat)
      requires HeapValid() && relocCount <= relocBlocks.Length && RegionsOk(relocBlocks[..relocCount])
      requires forall i :: 0 <= i < relocCount ==> minimum <= relocBlocks[i].start && relocBlocks[i].end <= maximum
      modifies mem.cells
      ensures HeapValid()
      ensures Rewritten(old(mem.cells[..]), mem.heads, relocBlocks[..relocCount], mem.cells[..])
    {
      ghost var m, batch := mem.cells[..], relocBlocks[..relocCount];
      forall h {:trigger h in mem.heads} | h in mem.heads ensures !(0 <= h < SpanStart(spans, 0, |m|)) && h < |m| {
        BlocksDisjoint(m, mem.heads, spans, lists, h, h);
        assert InSpan(spans, h);
        HeapOkTiled(m, mem.heads, spans, lists);
        if |spans| > 0 { NoHeadsBetween(m, mem.heads, spans, 0, h); }
      }
      GapRewritten(m, mem.heads, spans, batch, 0, SpanStart(spans, 0, |m|), m);
      for i := 0 to |heap|
        invariant Linked() && relocBlocks[..relocCount] == batch
        invariant RewrittenTo(m, mem.heads, batch, SpanStart(spans, i, |m|), mem.cells[..])
      {
        RelocateCluster(i, minimum, maximum, m);
        NextSpan(m, mem.heads, spans, lists, batch, i, mem.cells[..]);
      }
      ShapeKeepsHeap(m, mem.heads, spans, lists, mem.cells[..]);
    }

    /** Applies the pending batch of moves to every pointer in the heap and to the roots. */
    method HeapRelocate()
      requires HeapValid() && 0 < relocCount <= relocBlocks.Length && RegionsOk(relocBlocks[..relocCount])
      modifies this`relocCount, mem.cells, roots
      ensures HeapValid() && relocCount == 0
      ensures Rewritten(old(mem.cells[..]), mem.heads, old(relocBlocks[..relocCount]), mem.cells[..])
      ensures forall i :: 0 <= i < roots.Length ==> roots[i] == Reloc(old(relocBlocks[..relocCount]), old(roots[i]))
    {
      ghost var batch := relocBlocks[..relocCount];
      var minimum, maximum := RegionBounds(relocBlocks, relocCount);
      RelocateHeap(minimum, maximum);
      for i := 0 to roots.Length
        modifies roots
        invariant forall j :: 0 <= j < i ==> roots[j] == Reloc(batch, old(roots[j]))
        invariant forall j :: i <= j < roots.Length ==> roots[j] == old(roots[j])
        invariant relocBlocks[..relocCount] == batch
      {
        roots[i] := RelocatePointer(relocBlocks, relocCount, minimum, maximum, roots[i]);
      }
      relocCount := 0;
    }

    /** Moves one run: unlink the free block, copy, repair the free lists. */
    method MoveRun(cf: nat, ghost k: nat, freeRegion: nat, cs: nat, start: nat, end: nat, slide: bool, ghost x: nat)
      returns (fr: nat, ghost near: nat)
      requires HeapValid() && cf <= cs < |heap|
      requires Step(mem.cells[..], mem.heads, spans, lists, cf, k, cs, freeRegion, start, end, x)
      requires slide <==> x == end
      modifies heap[cf], heap[cs], this`lists, mem`heads, mem.cells
      ensures HeapValid()
      ensures RunMoved(old(mem.cells[..]), old(mem.heads), mem.cells[..], mem.heads, start, end, freeRegion)
      ensures RegionOrTail(lists[cf], spans[cf].lo, fr) && Absorbed(mem.cells[..], mem.heads, near, fr)
      ensures NextIs(old(lists)[cf], spans[cf].lo, freeRegion, freeRegion + (end - start), x, near)
    {
      ghost var m, heads, lists0 := mem.cells[..], mem.heads, lists;
      StepFacts(m, heads, spans, lists, cf, k, cs, freeRegion, start, end, x);
      assert lists[cf] == heap[cf].freeList;
      fr := FillFreeRegion(cf, k, freeRegion, cs, start, end, slide, x);
      near := fr;
      assert lists[cf] == heap[cf].freeList && spans[cf] == Span(heap[cf].payloadStart, heap[cf].payloadEnd);
      if !slide {
        fr := ReturnSource(cs, start, end, cf, fr, m, heads, lists0, freeRegion, x);
      }
    }

    /** Where compaction stands: the moves done have reached the pointers, those of the pending batch
        have not, and everything from cur on is still in its first place. */
    ghost predicate InProgress(m0: seq<Cell>, heads0: set<nat>, roots0: seq<nat>, org: map<nat, nat>, done: seq<Region>, cur: nat)
      reads this`relocCount, relocBlocks, mem, mem.cells, roots
    {
      && relocCount <= relocBlocks.Length
      && Placed(m0, heads0, mem.cells[..], mem.heads, org, done, done + relocBlocks[..relocCount])
      && Below(done + relocBlocks[..relocCount], cur)
      && |roots0| == roots.Length
      && (forall i :: 0 <= i < roots.Length ==> roots[i] == Reloc(done, roots0[i]))
    }

    /** Nothing has been moved: source neither follows the free block nor fits into it, and fr is the next one. */
    static ghost predicate Stuck(m: seq<Cell>, fl: seq<nat>, lo: nat, source: nat, freeRegion: nat, fr: nat) {
      EndOf(m, freeRegion) != source && EndOf(m, freeRegion) - freeRegion < EndOf(m, source) - source && NextFree(fl, lo, freeRegion, fr)
    }

    /** One round of compaction at the movable block source and the free block freeRegion below it. */
    method MoveNext(cs: nat, source: nat, cf: nat, freeRegion: nat,
                    ghost m0: seq<Cell>, ghost heads0: set<nat>, ghost roots0: seq<nat>, ghost org: map<nat, nat>, ghost done: seq<Region>)
      returns (source': nat, fr: nat, ghost org': map<nat, nat>, ghost end': nat)
      requires HeapValid() && cf <= cs < |heap| && relocCount < relocBlocks.Length
      requires InProgress(m0, heads0, roots0, org, done, source)
      requires spans[cs].lo <= source < spans[cs].hi <= mem.cells.Length && source in mem.heads && !mem.cells[..][source].Unmovable()
      requires Has(lists[cf], freeRegion) && freeRegion < source
      modifies heap[cf], heap[cs], this`lists, this`relocCount, mem`heads, mem.cells, relocBlocks
      ensures HeapValid()
      ensures InProgress(m0, heads0, roots0, org', done, source')
      ensures source <= source' <= spans[cs].hi && (source' < spans[cs].hi ==> source' in mem.heads)
      ensures RegionOrTail(lists[cf], spans[cf].lo, fr)
      ensures source' == source ==> Stuck(old(mem.cells[..]), lists[cf], spans[cf].lo, source, freeRegion, fr)
      ensures source' == source ==> relocBlocks[..relocCount] == old(relocBlocks[..relocCount]) && lists == old(lists) && mem.cells[..] == old(mem.cells[..]) && mem.heads == old(mem.heads)
      ensures source' != source ==> relocBlocks[..relocCount] == old(relocBlocks[..relocCount]) + [NewRegion(source, end', freeRegion)]
      ensures source' != source ==>
        Round(old(mem.cells[..]), old(mem.heads), spans, old(lists), cf, cs, freeRegion, source, end', source', mem.cells[..], mem.heads, lists)
      ensures source' != source ==> Continues(old(mem.cells[..]), freeRegion, source, end', old(lists)[cf], lists[cf], spans[cf].lo, fr)
    {
      ghost var k := RegionFacts(mem.cells[..], mem.heads, spans, lists, cf, cs, freeRegion, source);
      assert spans[cs] == Span(heap[cs].payloadStart, heap[cs].payloadEnd) && lists[cf] == heap[cf].freeList;
      var freeSize := mem.cells[freeRegion].size;
      var slide := source == freeRegion + freeSize;
      var end := FindRun(source, spans[cs].lo, heap[cs].payloadEnd, slide, freeSize);
      org', end' := org, end;
      if source < end {
        ghost var x := if slide then end else freeRegion + freeSize;
        source', fr, org' := MoveAndRecord(cs, source, end, cf, k, freeRegion, slide, x, m0, heads0, roots0, org, done);
      } else {
        source' := source;
        fr := NextInList(heap[cf], freeRegion);
      }
    }

    method MoveAndRecord(cs: nat, source: nat, end: nat, cf: nat, ghost k: nat, freeRegion: nat, slide: bool, ghost x: nat,
                         ghost m0: seq<Cell>, ghost heads0: set<nat>, ghost roots0: seq<nat>, ghost org: map<nat, nat>, ghost done: seq<Region>)
      returns (source': nat, fr: nat, ghost org': map<nat, nat>)
      requires HeapValid() && cf <= cs < |heap| && relocCount < relocBlocks.Length
      requires InProgress(m0, heads0, roots0, org, done, source)
      requires Step(mem.cells[..], mem.heads, spans, lists, cf, k, cs, freeRegion, source, end, x)
      requires slide <==> x == end
      modifies heap[cf], heap[cs], this`lists, this`relocCount, mem`heads, mem.cells, relocBlocks
      ensures HeapValid()
      ensures InProgress(m0, heads0, roots0, org', done, source')
      ensures end <= source' <= spans[cs].hi && (source' < spans[cs].hi ==> source' in mem.heads)
      ensures RegionOrTail(lists[cf], spans[cf].lo, fr) && relocBlocks[..relocCount] == old(relocBlocks[..relocCount]) + [NewRegion(source, end, freeRegion)]
      ensures Round(old(mem.cells[..]), old(mem.heads), spans, old(lists), cf, cs, freeRegion, source, end, source', mem.cells[..], mem.heads, lists)
      ensures Continues(old(mem.cells[..]), freeRegion, source, end, old(lists)[cf], lists[cf], spans[cf].lo, fr)
    {
      ghost var lists0 := lists;
      ghost var m, heads, batch := mem.cells[..], mem.heads, relocBlocks[..relocCount];
      assert spans[cs] == Span(heap[cs].payloadStart, heap[cs].payloadEnd);
      source' := SkipUnmovable(cs, end);
      assert source' < spans[cs].hi ==> !Free(m, source') by {
        assert ClusterAt(m, heads, spans, lists, cs);
      }
      StepFacts(m, heads, spans, lists, cf, k, cs, freeRegion, source, end, x);
      ghost var near: nat;
      fr, near := MoveRun(cf, k, freeRegion, cs, source, end, slide, x);
      RoundContinues(m, heads, spans, lists0, cf, cs, freeRegion, source, end, source', mem.cells[..], mem.heads, lists, x, near, fr);
      Record(source, end, freeRegion);
      StepPlaced(m0, heads0, org, done, batch, m, heads, mem.cells[..], mem.heads, source, end, freeRegion, relocBlocks[..relocCount], source', spans[cs].hi);
      org' := MovedOrigins(org, mem.cells[..], mem.heads, source, end, freeRegion);
    }

    /** Adds a region to the pending batch. */
    method Record(start: nat, end: nat, destination: nat)
      requires relocCount < relocBlocks.Length
      modifies this`relocCount, relocBlocks
      ensures relocCount == old(relocCount) + 1
      ensures relocBlocks[..relocCount] == old(relocBlocks[..relocCount]) + [NewRegion(start, end, destination)]
    {
      relocBlocks[relocCount] := NewRegion(start, end, destination);
      relocCount := relocCount + 1;
    }

    /** The free region behind the given one in its list, or the list's end node. */
    method NextInList(c: Cluster, freeRegion: nat) returns (fr: nat)
      requires Has(c.freeList, freeRegion) && 1 <= c.payloadStart
      requires forall i, j :: 0 <= i < j < |c.freeList| ==> c.freeList[i] < c.freeList[j]
      ensures RegionOrTail(c.freeList, c.payloadStart, fr) && NextFree(c.freeList, c.payloadStart, freeRegion, fr)
    {
      var k := Position(c.freeList, freeRegion);
      fr := if k + 1 < |c.freeList| then c.freeList[k + 1] else c.payloadStart - 1;
    }

    /** The first free region at or after cluster from; NULL when there is none. */
    method FirstFreeRegion(from: nat) returns (cf: nat, fr: nat)
      requires HeapValid() && from <= |heap|
      ensures from <= cf <= |heap| && LowestFree(spans, lists, from, cf, fr)
      ensures fr == NULL <==> cf == |heap|
      ensures fr != NULL ==> Has(lists[cf], fr) && spans[cf].lo <= fr < spans[cf].hi && fr in mem.heads && Free(mem.cells[..], fr)
    {
      cf, fr := from, NULL;
      while cf < |heap|
        invariant from <= cf <= |heap| && fr == NULL
        invariant forall j {:trigger lists[j]} :: from <= j < cf ==> lists[j] == []
      {
        assert ClusterAt(mem.cells[..], mem.heads, spans, lists, cf);
        assert lists[cf] == heap[cf].freeList;
        if heap[cf].freeList != [] {
          fr := heap[cf].freeList[0];
          assert Has(lists[cf], fr);
          FreeBlockBounds(mem.cells[..], mem.heads, spans[cf].lo, spans[cf].hi, lists[cf], 0);
          return;
        }
        cf := cf + 1;
      }
    }

    /** Empties the batch when it is full. */
    method FlushIfFull(ghost m0: seq<Cell>, ghost heads0: set<nat>, ghost roots0: seq<nat>, ghost org: map<nat, nat>, ghost done: seq<Region>, ghost cur: nat, limit: nat)
      returns (ghost done': seq<Region>)
      requires HeapValid() && InProgress(m0, heads0, roots0, org, done, cur) && 0 < limit
      modifies this`relocCount, mem.cells, roots
      ensures HeapValid() && InProgress(m0, heads0, roots0, org, done', cur)
      ensures relocCount < limit
      ensures done' + relocBlocks[..relocCount] == done + old(relocBlocks[..relocCount])
      ensures done' + relocBlocks[..relocCount] == [] ==> mem.cells[..] == old(mem.cells[..])
      ensures SameShape(old(mem.cells[..]), mem.cells[..])
    {
      done' := done;
      if relocCount >= limit {
        ghost var m, batch := mem.cells[..], relocBlocks[..relocCount];
        ghost var roots1 := roots[..];
        RegionsPart(done, batch);
        HeapRelocate();
        BatchApplied(m0, heads0, m, mem.heads, org, done, batch, mem.cells[..]);
        done' := done + batch;
        assert done' + relocBlocks[..relocCount] == done';
        forall i | 0 <= i < roots.Length ensures roots[i] == Reloc(done', roots0[i]) {
          assert roots[i] == Reloc(batch, roots1[i]) && roots1[i] == Reloc(done, roots0[i]);
          RelocCompose(done, batch, roots0[i]);
        }
      }
    }

    /** Compaction. The result is a list all of downward moves of block runs such that every used block of the old
        heap stands, whole, at the place all says, with every pointer in it and in the roots changed to
        where its target went. When nothing has been moved, nothing was loose: no movable block followed
        the next free block below it, or fitted into it. In an orderly heap nothing is loose afterwards. */
    method HeapCompact() returns (ghost all: seq<Region>, ghost org: map<nat, nat>)
      requires HeapValid() && 0 < relocBlocks.Length
      modifies this`relocCount, this`lists, heap, mem`heads, mem.cells, roots, relocBlocks
      ensures HeapValid()
      ensures Placed(old(mem.cells[..]), old(mem.heads), mem.cells[..], mem.heads, org, all, all)
      ensures forall i :: 0 <= i < roots.Length ==> roots[i] == Reloc(all, old(roots[i]))
      ensures all == [] ==> NothingLoose(old(mem.cells[..]), old(mem.heads))
      ensures LooseInHoles(mem.cells[..], mem.heads, Holes(old(mem.cells[..]), old(mem.heads), spans, all))
      ensures Orderly(old(mem.cells[..]), old(mem.heads), spans) ==> NothingLoose(mem.cells[..], mem.heads)
    {
      ghost var m0, heads0, roots0 := mem.cells[..], mem.heads, roots[..];
      relocCount := 0;
      org := map h | h in heads0 :: h;
      NothingMoved(m0, heads0, spans, lists, org);
      ghost var done: seq<Region> := [];
      assert done + relocBlocks[..relocCount] == [];
      ghost var cur: nat;
      cur, org, done := CompactClusters(m0, heads0, roots0, org);
      ghost var m := mem.cells[..];
      if relocCount != 0 {
        done := FlushIfFull(m0, heads0, roots0, org, done, cur, 1);
      }
      all := done;
      assert done + relocBlocks[..relocCount] == done;
      LooseSame(m, mem.heads, mem.cells[..], Holes(m0, heads0, spans, all));
      if Orderly(m0, heads0, spans) { OrderlyNoHoles(m0, heads0, spans, all); }
    }

    /** The passes over the clusters. */
    method CompactClusters(ghost m0: seq<Cell>, ghost heads0: set<nat>, ghost roots0: seq<nat>, ghost org0: map<nat, nat>)
      returns (ghost cur: nat, ghost org: map<nat, nat>, ghost done: seq<Region>)
      requires HeapValid() && InProgress(m0, heads0, roots0, org0, [], 0) && 0 < relocBlocks.Length
      requires relocCount == 0 && mem.cells[..] == m0 && mem.heads == heads0
      modifies this`relocCount, this`lists, heap, mem`heads, mem.cells, roots, relocBlocks
      ensures HeapValid() && InProgress(m0, heads0, roots0, org, done, cur)
      ensures done + relocBlocks[..relocCount] == [] ==> NothingLoose(m0, heads0)
      ensures LooseInHoles(mem.cells[..], mem.heads, Holes(m0, heads0, spans, done + relocBlocks[..relocCount]))
    {
      org, done, cur := org0, [], 0;
      var cs: nat, cf: nat, freeRegion: nat := 0, 0, NULL;
      while cs < |heap|
        invariant HeapValid() && InProgress(m0, heads0, roots0, org, done, cur)
        invariant cs <= |heap| && (cs < |heap| ==> cur <= spans[cs].lo)
        invariant freeRegion != NULL ==> cf < |heap| == |lists| && Has(lists[cf], freeRegion)
        invariant OnTrackOrNew(done + relocBlocks[..relocCount], m0, heads0, spans, mem.cells[..], mem.heads, cs, freeRegion, SpanStart(spans, cs, mem.cells.Length))
        decreases |heap| - cs
      {
        if freeRegion == NULL {
          cf, freeRegion := FirstFreeRegion(0);
          TrackRestarts(done + relocBlocks[..relocCount], m0, heads0, mem.cells[..], mem.heads, spans, lists, cs, cf, freeRegion);
          if freeRegion == NULL { break; }
        }
        cs, cur, cf, freeRegion, org, done := CompactCluster(cs, cf, freeRegion, m0, heads0, roots0, org, done);
      }
      TrackDone(done + relocBlocks[..relocCount], m0, heads0, mem.cells[..], mem.heads, spans, lists, cs, freeRegion);
    }

    method CompactCluster(cs0: nat, cf0: nat, freeRegion0: nat,
                          ghost m0: seq<Cell>, ghost heads0: set<nat>, ghost roots0: seq<nat>, ghost org0: map<nat, nat>, ghost done0: seq<Region>)
      returns (cs: nat, ghost cur: nat, cf: nat, freeRegion: nat, ghost org: map<nat, nat>, ghost done: seq<Region>)
      requires HeapValid() && 0 < relocBlocks.Length && cs0 < |heap| && cf0 < |heap|
      requires InProgress(m0, heads0, roots0, org0, done0, spans[cs0].lo)
      requires Has(lists[cf0], freeRegion0)
      requires OnTrack(done0 + relocBlocks[..relocCount], m0, heads0, spans, mem.cells[..], mem.heads, spans[cs0].lo, freeRegion0, spans[cs0].lo)
      modifies this`relocCount, this`lists, heap, mem`heads, mem.cells, roots, relocBlocks
      ensures HeapValid()
      ensures cs0 < cs <= |heap| && (cs < |heap| ==> cur <= spans[cs].lo)
      ensures InProgress(m0, heads0, roots0, org, done, cur)
      ensures freeRegion != NULL ==> cf < |heap| && Has(lists[cf], freeRegion)
      ensures OnTrack(done + relocBlocks[..relocCount], m0, heads0, spans, mem.cells[..], mem.heads, SpanStart(spans, cs, mem.cells.Length), freeRegion, SpanStart(spans, cs, mem.cells.Length))
    {
      cs, cur, cf, freeRegion, org, done := CompactFrom(cs0, cf0, freeRegion0, m0, heads0, roots0, org0, done0);
      NextClusterBelow(cs, cur);
      TrackNextCluster(done + relocBlocks[..relocCount], m0, heads0, mem.cells[..], mem.heads, spans, lists, cs, freeRegion, cur);
      cs := cs + 1;
    }

    lemma NextClusterBelow(cs: nat, cur: nat)
      requires Linked() && HeapOk(mem.cells[..], mem.heads, spans, lists) && cs < |heap| && cur <= spans[cs].hi
      ensures cs + 1 < |heap| ==> cur <= spans[cs + 1].lo
    {
      if cs + 1 < |heap| { assert spans[cs].hi < spans[cs + 1].lo; }
    }

    /** The next movable block above the free region, at or after source: blocks only move down. */
    method NextSource(cs0: nat, source0: nat, cf: nat, freeRegion: nat) returns (cs: nat, source: nat)
      requires HeapValid() && cs0 < |heap| && cf < |heap|
      requires spans[cs0].lo <= source0 <= spans[cs0].hi && (source0 < spans[cs0].hi ==> source0 in mem.heads)
      requires Has(lists[cf], freeRegion)
      ensures cs0 <= cs < |heap| && source0 <= source && (cs == cs0 || source0 < freeRegion)
      ensures spans[cf].lo <= freeRegion < spans[cf].hi
      ensures spans[cs] == Span(heap[cs].payloadStart, heap[cs].payloadEnd)
      ensures spans[cs].lo <= source <= spans[cs].hi <= mem.cells.Length
      ensures source < spans[cs].hi ==>
                cf <= cs && freeRegion < source && source in mem.heads && !mem.cells[..][source].Unmovable()
      ensures forall h: nat {:trigger MovableHead(mem.cells[..], mem.heads, h)} ::
        source0 <= h < source && freeRegion < h ==> !MovableHead(mem.cells[..], mem.heads, h)
    {
      ghost var k :| 0 <= k < |lists[cf]| && lists[cf][k] == freeRegion;
      assert ClusterAt(mem.cells[..], mem.heads, spans, lists, cf);
      FreeBlockBounds(mem.cells[..], mem.heads, spans[cf].lo, spans[cf].hi, lists[cf], k);
      cs, source := cs0, source0;
      assert cf < cs ==> spans[cf].hi < spans[cs].lo;
      assert cs < cf ==> spans[cs].hi < spans[cf].lo;
      if source < freeRegion {
        cs, source := cf, freeRegion;
      }
      assert ClusterAt(mem.cells[..], mem.heads, spans, lists, cs);
      assert spans[cs] == Span(heap[cs].payloadStart, heap[cs].payloadEnd);
      source := SkipUnmovable(cs, source);
    }

    /** Compacts from the start of cluster cs until its end, or that of a later cluster with a free
        region, is reached. */
    method CompactFrom(cs0: nat, cf0: nat, freeRegion0: nat,
                       ghost m0: seq<Cell>, ghost heads0: set<nat>, ghost roots0: seq<nat>, ghost org0: map<nat, nat>, ghost done0: seq<Region>)
      returns (cs: nat, source: nat, cf: nat, freeRegion: nat, ghost org: map<nat, nat>, ghost done: seq<Region>)
      requires HeapValid() && 0 < relocBlocks.Length && cs0 < |heap| && cf0 < |heap|
      requires InProgress(m0, heads0, roots0, org0, done0, spans[cs0].lo)
      requires Has(lists[cf0], freeRegion0)
      requires OnTrack(done0 + relocBlocks[..relocCount], m0, heads0, spans, mem.cells[..], mem.heads, spans[cs0].lo, freeRegion0, spans[cs0].lo)
      modifies this`relocCount, this`lists, heap, mem`heads, mem.cells, roots, relocBlocks
      ensures HeapValid()
      ensures cs0 <= cs < |heap| && source <= spans[cs].hi && (freeRegion != NULL ==> source == spans[cs].hi)
      ensures InProgress(m0, heads0, roots0, org, done, source)
      ensures OnTrack(done + relocBlocks[..relocCount], m0, heads0, spans, mem.cells[..], mem.heads, spans[cs].lo, freeRegion, source)
      ensures freeRegion != NULL ==> cf < |heap| && Has(lists[cf], freeRegion)
    {
      cs, cf, freeRegion, org, done := cs0, cf0, freeRegion0, org0, done0;
      source := heap[cs].payloadStart;
      assert spans[cs] == Span(heap[cs].payloadStart, heap[cs].payloadEnd);
      assert ClusterAt(mem.cells[..], mem.heads, spans, lists, cs);
      while true
        invariant HeapValid() && cs0 <= cs < |heap| && cf < |heap|
        invariant spans[cs].lo <= source <= spans[cs].hi <= mem.cells.Length && (source < spans[cs].hi ==> source in mem.heads)
        invariant InProgress(m0, heads0, roots0, org, done, source)
        invariant Has(lists[cf], freeRegion)
        invariant OnTrack(done + relocBlocks[..relocCount], m0, heads0, spans, mem.cells[..], mem.heads, spans[cs].lo, freeRegion, source)
        decreases mem.cells.Length - source, mem.cells.Length - freeRegion
      {
        ghost var p, lo := source, spans[cs].lo;
        cs, source := NextSource(cs, source, cf, freeRegion);
        FreeNeverMoves(mem.cells[..], mem.heads, spans, lists, cf, freeRegion);
        TrackSkips(done + relocBlocks[..relocCount], m0, heads0, spans, mem.cells[..], mem.heads, lo, spans[cs].lo, freeRegion, p, source);
        if source == heap[cs].payloadEnd { return; }
        source, cf, freeRegion, org, done := MoveRound(cs, source, cf, freeRegion, m0, heads0, roots0, org, done);
        if freeRegion == NULL { return; }
      }
    }

    /** Makes room in the batch, makes one move if anything fits, and finds the free region to go on with:
        either the source has advanced or the free region has. */
    method MoveRound(cs: nat, source0: nat, cf0: nat, freeRegion0: nat,
                     ghost m0: seq<Cell>, ghost heads0: set<nat>, ghost roots0: seq<nat>, ghost org0: map<nat, nat>, ghost done0: seq<Region>)
      returns (source: nat, cf: nat, freeRegion: nat, ghost org: map<nat, nat>, ghost done: seq<Region>)
      requires HeapValid() && cf0 <= cs < |heap| && 0 < relocBlocks.Length
      requires InProgress(m0, heads0, roots0, org0, done0, source0)
      requires spans[cs].lo <= source0 < spans[cs].hi <= mem.cells.Length && source0 in mem.heads && !mem.cells[..][source0].Unmovable()
      requires Has(lists[cf0], freeRegion0) && spans[cf0].lo <= freeRegion0 < source0 && freeRegion0 < spans[cf0].hi
      requires OnTrack(done0 + relocBlocks[..relocCount], m0, heads0, spans, mem.cells[..], mem.heads, spans[cs].lo, freeRegion0, source0)
      modifies this`relocCount, this`lists, heap, mem`heads, mem.cells, roots, relocBlocks
      ensures HeapValid()
      ensures InProgress(m0, heads0, roots0, org, done, source)
      ensures source0 <= source <= spans[cs].hi && (source < spans[cs].hi ==> source in mem.heads)
      ensures freeRegion != NULL ==> cf < |heap| && Has(lists[cf], freeRegion)
      ensures freeRegion != NULL && source == source0 ==> freeRegion0 < freeRegion
      ensures OnTrack(done + relocBlocks[..relocCount], m0, heads0, spans, mem.cells[..], mem.heads, spans[cs].lo, freeRegion, source)
    {
      ghost var m, all := mem.cells[..], done0 + relocBlocks[..relocCount];
      ghost var done1 := FlushIfFull(m0, heads0, roots0, org0, done0, source0, relocBlocks.Length);
      TrackFlushed(all, m0, heads0, spans, m, mem.heads, spans[cs].lo, freeRegion0, source0, mem.cells[..]);
      source, cf, freeRegion, org, done := MoveFlushed(cs, source0, cf0, freeRegion0, m0, heads0, roots0, org0, done1);
    }

    method MoveFlushed(cs: nat, source0: nat, cf0: nat, freeRegion0: nat,
                       ghost m0: seq<Cell>, ghost heads0: set<nat>, ghost roots0: seq<nat>, ghost org0: map<nat, nat>, ghost done0: seq<Region>)
      returns (source: nat, cf: nat, freeRegion: nat, ghost org: map<nat, nat>, ghost done: seq<Region>)
      requires HeapValid() && cf0 <= cs < |heap| && relocCount < relocBlocks.Length
      requires InProgress(m0, heads0, roots0, org0, done0, source0)
      requires spans[cs].lo <= source0 < spans[cs].hi <= mem.cells.Length && source0 in mem.heads && !mem.cells[..][source0].Unmovable()
      requires Has(lists[cf0], freeRegion0) && spans[cf0].lo <= freeRegion0 < source0 && freeRegion0 < spans[cf0].hi
      requires OnTrack(done0 + relocBlocks[..relocCount], m0, heads0, spans, mem.cells[..], mem.heads, spans[cs].lo, freeRegion0, source0)
      modifies this`relocCount, this`lists, heap, mem`heads, mem.cells, relocBlocks
      ensures HeapValid()
      ensures InProgress(m0, heads0, roots0, org, done, source)
      ensures source0 <= source <= spans[cs].hi && (source < spans[cs].hi ==> source in mem.heads)
      ensures freeRegion != NULL ==> cf < |heap| && Has(lists[cf], freeRegion)
      ensures freeRegion != NULL && source == source0 ==> freeRegion0 < freeRegion
      ensures OnTrack(done + relocBlocks[..relocCount], m0, heads0, spans, mem.cells[..], mem.heads, spans[cs].lo, freeRegion, source)
    {
      done := done0;
      ghost var m1, heads1, lists1, all := mem.cells[..], mem.heads, lists, done + relocBlocks[..relocCount];
      var next: nat;
      ghost var end: nat;
      source, next, org, end := MoveNext(cs, source0, cf0, freeRegion0, m0, heads0, roots0, org0, done);
      cf, freeRegion := GoOn(cf0, next);
      TrackRound(m0, heads0, org0, done, all, m1, heads1, spans, lists1, cf0, cs, freeRegion0, source0, end, source,
                 done + relocBlocks[..relocCount], mem.cells[..], mem.heads, lists, next, cf, freeRegion);
    }

    /** The free region to go on with when next may be the end node of its list. */
    method GoOn(cf0: nat, next: nat) returns (cf: nat, freeRegion: nat)
      requires HeapValid() && cf0 < |heap| && RegionOrTail(lists[cf0], spans[cf0].lo, next)
      ensures GoesOn(spans, lists, cf0, next, cf, freeRegion)
      ensures freeRegion != NULL ==> cf < |heap| && Has(lists[cf], freeRegion)
      ensures freeRegion != NULL && next + 1 == spans[cf0].lo ==> spans[cf0].hi < freeRegion
    {
      cf, freeRegion := cf0, next;
      assert ClusterAt(mem.cells[..], mem.heads, spans, lists, cf0);
      assert spans[cf] == Span(heap[cf].payloadStart, heap[cf].payloadEnd);
      if freeRegion == heap[cf].payloadStart - 1 {
        cf, freeRegion := FirstFreeRegion(cf + 1);
        if freeRegion != NULL {
          assert spans[cf0].hi < spans[cf].lo;
        }
      }
    }
  }
}
