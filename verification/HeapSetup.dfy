/** How the heap's clusters are laid out in the memory the device gives to the runtime. Sizes are in
    bytes here, as in the source; the payload of a cluster starts behind its header. */
module HeapSetup {
  import opened HeapMemory
  import opened HeapCluster
  import opened Heap

  const BLOCK_BYTES: nat := 12
  const HEADER_BYTES: nat := 32
  const CLUSTER_BYTES: nat := BLOCK_BYTES * HB_MAX_SIZE

  datatype Result<T> = Ok(value: T) | OutOfMemory

  /** The size of the blocks a cluster is first cut into, for a cluster i bytes into the heap. */
  function BlockSize(i: nat): nat {
    if i > 100 * 1024 * 1024 then HB_MAX_SIZE
    else if i > 10 * 1024 * 1024 then 10 * 1024
    else if i > 1024 * 1024 then 1024
    else 1
  }

  /** The payload, in cells, of a cluster of size bytes that starts i bytes into the heap. */
  function Payload(i: nat, size: nat): Span
    requires size > HEADER_BYTES
  {
    Span(i / BLOCK_BYTES + 3, i / BLOCK_BYTES + 3 + (size - HEADER_BYTES) / BLOCK_BYTES)
  }

  /** A cluster never has room for a block whose size does not fit the 16-bit size field. */
  lemma PayloadFits(i: nat, size: nat)
    requires HEADER_BYTES < size <= CLUSTER_BYTES && i % CLUSTER_BYTES == 0
    ensures Payload(i, size).hi - Payload(i, size).lo < HB_MAX_SIZE
    ensures i / BLOCK_BYTES < Payload(i, size).lo <= Payload(i, size).hi <= (i + size) / BLOCK_BYTES + 1
    ensures size == CLUSTER_BYTES ==> Payload(i, size).hi == (i + size) / BLOCK_BYTES && (i + size) % CLUSTER_BYTES == 0
  {
    var k := i / CLUSTER_BYTES;
    assert i == k * HB_MAX_SIZE * BLOCK_BYTES;
    assert i / BLOCK_BYTES == k * HB_MAX_SIZE;
    assert (i + size) / BLOCK_BYTES == k * HB_MAX_SIZE + size / BLOCK_BYTES;
  }

  /** A new cluster behind the others. */
  lemma ClusterAdded(m: seq<Cell>, heads: set<nat>, spans: seq<Span>, lists: seq<seq<nat>>, m': seq<Cell>, heads': set<nat>, s: Span, fl: seq<nat>)
    requires HeapOk(m, heads, spans, lists) && ClusterOk(m', heads', s.lo, s.hi, fl) && |m'| == |m|
    requires forall i {:trigger spans[i]} :: 0 <= i < |spans| ==> spans[i].hi < s.lo
    requires forall h {:trigger h in heads'} :: !(s.lo <= h < s.hi) ==> (h in heads' <==> h in heads)
    requires forall a {:trigger m'[a]} :: 0 <= a < |m| && !(s.lo <= a < s.hi) ==> m'[a] == m[a]
    ensures HeapOk(m', heads', spans + [s], lists + [fl])
  {
    var spans', lists' := spans + [s], lists + [fl];
    forall i {:trigger ClusterAt(m', heads', spans', lists', i)} | 0 <= i < |spans'| ensures ClusterAt(m', heads', spans', lists', i) {
      if i < |spans| {
        assert ClusterAt(m, heads, spans, lists, i);
        ClusterFrame(m, heads, m', heads', spans[i].lo, spans[i].hi, lists[i]);
      }
    }
    forall h {:trigger InSpan(spans', h)} | h in heads' ensures InSpan(spans', h) {
      if s.lo <= h < s.hi {
        assert spans'[|spans|] == s;
      } else {
        assert h in heads && InSpan(spans, h);
        var j :| 0 <= j < |spans| && spans[j].lo <= h < spans[j].hi;
        assert spans'[j] == spans[j];
      }
    }
  }

  /** What is left of the heap's bytes after clusters of i bytes in all. */
  ghost predicate Laid(heapSize: nat, i: nat, spans: seq<Span>) {
    && i <= heapSize
    && (heapSize - i > HEADER_BYTES ==> i % CLUSTER_BYTES == 0 && |spans| == i / CLUSTER_BYTES)
    && (heapSize - i > HEADER_BYTES ==> forall j {:trigger spans[j]} :: 0 <= j < |spans| ==> spans[j].hi <= i / BLOCK_BYTES)
    && (forall j {:trigger spans[j]} :: 0 <= j < |spans| ==>
          heapSize - j * CLUSTER_BYTES > HEADER_BYTES &&
          spans[j] == Payload(j * CLUSTER_BYTES, if heapSize - j * CLUSTER_BYTES < CLUSTER_BYTES then heapSize - j * CLUSTER_BYTES else CLUSTER_BYTES))
  }

  /** Every free list holds the whole payload as one block. */
  ghost predicate AllFree(m: seq<Cell>, spans: seq<Span>, lists: seq<seq<nat>>) {
    |lists| == |spans| && forall j {:trigger lists[j]} :: 0 <= j < |spans| ==>
      if spans[j].lo == spans[j].hi then lists[j] == [] else lists[j] == [spans[j].lo] && EndOf(m, spans[j].lo) == spans[j].hi
  }

  lemma LaidNext(heapSize: nat, i: nat, spans: seq<Span>, size: nat)
    requires Laid(heapSize, i, spans) && heapSize - i > HEADER_BYTES
    requires size == if heapSize - i < CLUSTER_BYTES then heapSize - i else CLUSTER_BYTES
    ensures Laid(heapSize, i + size, spans + [Payload(i, size)])
  {
    PayloadFits(i, size);
    var k := |spans|;
    assert i == k * CLUSTER_BYTES;
    assert (i + CLUSTER_BYTES) / CLUSTER_BYTES == k + 1;
    assert size == CLUSTER_BYTES ==> i / BLOCK_BYTES <= (i + size) / BLOCK_BYTES;
  }

  /** Cuts the memory of the heap into clusters and initializes them. */
  method AllocateHeaps(mem: Memory, heapSize: nat) returns (r: Result<seq<Cluster>>, ghost spans: seq<Span>, ghost lists: seq<seq<nat>>)
    requires mem.heads == {} && mem.cells.Length >= heapSize / BLOCK_BYTES + 4
    modifies mem, mem.cells
    ensures r.OutOfMemory? <==> heapSize <= HEADER_BYTES
    ensures r.Ok? ==> fresh(r.value) && |spans| == |r.value| > 0
    ensures r.Ok? ==> forall j {:trigger r.value[j]} :: 0 <= j < |r.value| ==>
      r.value[j].mem == mem && spans[j] == Span(r.value[j].payloadStart, r.value[j].payloadEnd) && |lists| == |spans| && lists[j] == r.value[j].freeList
    ensures r.Ok? ==> forall j, k {:trigger r.value[j], r.value[k]} :: 0 <= j < k < |r.value| ==> r.value[j] != r.value[k]
    ensures r.Ok? ==> exists i :: heapSize - HEADER_BYTES <= i && Laid(heapSize, i, spans)
    ensures r.Ok? ==> HeapOk(mem.cells[..], mem.heads, spans, lists) && AllFree(mem.cells[..], spans, lists)
  {
    spans, lists := [], [];
    if heapSize <= HEADER_BYTES { return OutOfMemory, spans, lists; }
    var heap: seq<Cluster>, i := [], 0;
    while heapSize - i > HEADER_BYTES
      invariant Laid(heapSize, i, spans) && |spans| == |heap| == |lists| && (|heap| == 0 ==> i == 0)
      invariant fresh(heap)
      invariant forall j {:trigger heap[j]} :: 0 <= j < |heap| ==>
        heap[j].mem == mem && spans[j] == Span(heap[j].payloadStart, heap[j].payloadEnd) && lists[j] == heap[j].freeList
      invariant forall j, k {:trigger heap[j], heap[k]} :: 0 <= j < k < |heap| ==> heap[j] != heap[k]
      invariant HeapOk(mem.cells[..], mem.heads, spans, lists) && AllFree(mem.cells[..], spans, lists)
      decreases heapSize - i
    {
      var size := if heapSize - i < CLUSTER_BYTES then heapSize - i else CLUSTER_BYTES;
      PayloadFits(i, size);
      LaidNext(heapSize, i, spans, size);
      var hc := AddCluster(mem, Payload(i, size), BlockSize(i), spans, lists);
      heap := heap + [hc];
      spans, lists := spans + [Payload(i, size)], lists + [hc.freeList];
      i := i + size;
    }
    r := Ok(heap);
  }

  method AddCluster(mem: Memory, s: Span, blockSize: nat, ghost spans: seq<Span>, ghost lists: seq<seq<nat>>) returns (hc: Cluster)
    requires 0 < blockSize <= HB_MAX_SIZE && 0 < s.lo <= s.hi <= mem.cells.Length && s.hi - s.lo < HB_MAX_SIZE
    requires HeapOk(mem.cells[..], mem.heads, spans, lists) && AllFree(mem.cells[..], spans, lists)
    requires forall i {:trigger spans[i]} :: 0 <= i < |spans| ==> spans[i].hi < s.lo
    modifies mem, mem.cells
    ensures fresh(hc) && hc.mem == mem && s == Span(hc.payloadStart, hc.payloadEnd)
    ensures HeapOk(mem.cells[..], mem.heads, spans + [s], lists + [hc.freeList])
    ensures AllFree(mem.cells[..], spans + [s], lists + [hc.freeList])
  {
    ghost var m, heads := mem.cells[..], mem.heads;
    hc := new Cluster(mem, s.lo, s.hi);
    forall h | h in heads ensures !(s.lo <= h < s.hi) {
      assert InSpan(spans, h);
    }
    hc.Initialize(blockSize);
    ClusterAdded(m, heads, spans, lists, mem.cells[..], mem.heads, s, hc.freeList);
    ghost var spans', lists' := spans + [s], lists + [hc.freeList];
    forall j {:trigger lists'[j]} | 0 <= j < |spans'| ensures
      if spans'[j].lo == spans'[j].hi then lists'[j] == [] else lists'[j] == [spans'[j].lo] && EndOf(mem.cells[..], spans'[j].lo) == spans'[j].hi
    {
      if j < |spans| {
        assert lists'[j] == lists[j] && spans'[j] == spans[j];
        assert ClusterAt(m, heads, spans, lists, j);
        assert mem.cells[..][spans[j].lo] == m[spans[j].lo];
      }
    }
  }
}
