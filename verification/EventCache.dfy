/** The recycler for event records: freed records are kept in lists by size and handed out again without
    going through the heap. */
module EventCache {
  import opened NodeList
  import opened HeapMemory
  import opened HeapCluster
  import opened Heap

  const MAX_FAST_LISTS: nat := 40

  /** The list that keeps the blocks of a size; list 0 takes everything that has no list of its own. */
  function ListOf(size: nat): nat {
    if size < MAX_FAST_LISTS then size else 0
  }

  /** What a request for blocks cells is served from: small sizes exactly, large ones with at most a quarter too much. */
  predicate Fits(size: nat, blocks: nat) {
    if 0 < blocks < MAX_FAST_LISTS then size == blocks else blocks <= size <= blocks * 20 / 16
  }

  ghost predicate IsCached(m: seq<Cell>, a: nat) {
    a < |m| && m[a].dt.CachedBlock?
  }

  /** A node of list i. */
  ghost predicate Node(m: seq<Cell>, heads: set<nat>, x: nat, i: nat) {
    && x in heads && x < |m| && 0 < m[x].size < 0x1_0000 && ListOf(m[x].size) == i
    && m[x] == Cell(CachedBlock, m[x].size, true, true, false, m[x].ref)
  }

  ghost predicate NodesOk(m: seq<Cell>, heads: set<nat>, fl: seq<nat>, i: nat) {
    && Unique(fl)
    && (forall x: nat {:trigger Has(fl, x)} :: Has(fl, x) ==> Node(m, heads, x, i))
  }

  /** Every list holds blocks of its sizes only, and every cached block but p is in its list. */
  ghost predicate CacheOkBut(m: seq<Cell>, heads: set<nat>, events: seq<seq<nat>>, p: nat) {
    && |events| == MAX_FAST_LISTS
    && (forall i: nat {:trigger NodesOk(m, heads, events[i], i)} :: i < |events| ==> NodesOk(m, heads, events[i], i) && !Has(events[i], p))
    && (forall x: nat {:trigger IsCached(m, x)} :: x in heads && x != p && IsCached(m, x) ==> Has(events[ListOf(m[x].size)], x))
  }

  ghost predicate CacheOk(m: seq<Cell>, heads: set<nat>, events: seq<seq<nat>>) {
    && |events| == MAX_FAST_LISTS
    && (forall i: nat {:trigger NodesOk(m, heads, events[i], i)} :: i < |events| ==> NodesOk(m, heads, events[i], i))
    && (forall x: nat {:trigger IsCached(m, x)} :: x in heads && IsCached(m, x) ==> Has(events[ListOf(m[x].size)], x))
  }

  /** Only p, and cells that are not headers, change from m to m'; cut may be a new header. */
  ghost predicate OnlyAt(m: seq<Cell>, heads: set<nat>, p: nat, cut: nat, m': seq<Cell>) {
    && |m'| == |m|
    && (forall a {:trigger m'[a]} :: 0 <= a < |m| && a in heads && a != p && a != cut ==> m'[a] == m[a])
  }

  lemma NodesFrame(m: seq<Cell>, heads: set<nat>, fl: seq<nat>, i: nat, p: nat, cut: nat, m': seq<Cell>)
    requires NodesOk(m, heads, fl, i) && OnlyAt(m, heads, p, cut, m')
    requires cut != p ==> cut !in heads
    requires Has(fl, p) ==> Node(m', heads + {cut}, p, i)
    ensures NodesOk(m', heads + {cut}, fl, i)
  {
    forall x: nat {:trigger Has(fl, x)} | Has(fl, x) ensures Node(m', heads + {cut}, x, i) {
      assert Node(m, heads, x, i);
      assert x != p ==> m'[x] == m[x];
    }
  }

  // The three steps of which the operations consist.

  /** Appending a block to its list. */
  lemma Appended(m: seq<Cell>, heads: set<nat>, events: seq<seq<nat>>, p: nat, m': seq<Cell>)
    requires CacheOkBut(m, heads, events, p) && p in heads && p < |m| && 0 < m[p].size < 0x1_0000
    requires m' == m[p := Cell(CachedBlock, m[p].size, true, true, false, m[p].ref)]
    ensures var i := ListOf(m[p].size); i < |events| && CacheOk(m', heads, events[i := events[i] + [p]])
  {
    var i := ListOf(m[p].size);
    var fl := events[i];
    var events' := events[i := fl + [p]];
    assert heads + {p} == heads;
    forall x: nat ensures Has(fl + [p], x) <==> Has(fl, x) || x == p {
      assert (fl + [p])[|fl|] == p;
      if Has(fl, x) {
        var j :| 0 <= j < |fl| && fl[j] == x;
        assert (fl + [p])[j] == x;
      }
    }
    forall j: nat {:trigger NodesOk(m', heads, events'[j], j)} | j < |events'| ensures NodesOk(m', heads, events'[j], j) {
      assert NodesOk(m, heads, events[j], j) && !Has(events[j], p);
      NodesFrame(m, heads, events[j], j, p, p, m');
      if j == i {
        forall k | 0 <= k < |fl| ensures fl[k] != p { assert Has(fl, fl[k]); }
      }
    }
    forall x: nat {:trigger IsCached(m', x)} | x in heads && IsCached(m', x) ensures Has(events'[ListOf(m'[x].size)], x) {
      if x != p {
        assert m'[x] == m[x] && IsCached(m, x);
      }
    }
  }

  lemma HasRemoved(fl: seq<nat>, k: nat, r: seq<nat>)
    requires Unique(fl) && Removed(fl, k, r)
    ensures Unique(r)
    ensures forall x: nat {:trigger Has(r, x)} :: Has(r, x) <==> Has(fl, x) && x != fl[k]
  {
    forall x: nat {:trigger Has(r, x)} ensures Has(r, x) <==> Has(fl, x) && x != fl[k] {
      if Has(r, x) {
        var i :| 0 <= i < |r| && r[i] == x;
        assert fl[if i < k then i else i + 1] == x;
      }
      if Has(fl, x) && x != fl[k] {
        var i :| 0 <= i < |fl| && fl[i] == x;
        assert r[if i < k then i else i - 1] == x;
      }
    }
  }

  /** Taking a block off its list. */
  lemma Taken(m: seq<Cell>, heads: set<nat>, events: seq<seq<nat>>, i: nat, k: nat, r: seq<nat>, m': seq<Cell>)
    requires CacheOk(m, heads, events) && i < |events| && k < |events[i]| && Removed(events[i], k, r)
    requires OnlyAt(m, heads, events[i][k], events[i][k], m') && !IsCached(m', events[i][k])
    ensures CacheOk(m', heads, events[i := r])
  {
    var p := events[i][k];
    var events' := events[i := r];
    assert NodesOk(m, heads, events[i], i) && Has(events[i], p);
    assert Node(m, heads, p, i) && heads + {p} == heads;
    HasRemoved(events[i], k, r);
    forall j: nat {:trigger NodesOk(m', heads, events'[j], j)} | j < |events'| ensures NodesOk(m', heads, events'[j], j) {
      assert NodesOk(m, heads, events[j], j);
      assert Has(events[j], p) ==> Node(m, heads, p, j);
      if j != i {
        NodesFrame(m, heads, events[j], j, p, p, m');
      } else {
        forall x: nat {:trigger Has(r, x)} | Has(r, x) ensures Node(m', heads, x, i) {
          assert Node(m, heads, x, i) && m'[x] == m[x];
        }
      }
    }
    forall x: nat {:trigger IsCached(m', x)} | x in heads && IsCached(m', x) ensures Has(events'[ListOf(m'[x].size)], x) {
      assert m'[x] == m[x] && IsCached(m, x);
    }
  }

  /** Cutting a block of list 0: what is left stays in that list, and the new header is in none. */
  lemma CutInCache(m: seq<Cell>, heads: set<nat>, events: seq<seq<nat>>, p: nat, blocks: nat, m': seq<Cell>)
    requires CacheOk(m, heads, events) && |events| > 0 && Has(events[0], p) && p + blocks !in heads
    requires MAX_FAST_LISTS <= blocks && OnlyAt(m, heads, p, p + blocks, m') && p < |m|
    requires m'[p] == Cell(CachedBlock, blocks, true, true, false, m[p].ref) && blocks < 0x1_0000
    ensures CacheOkBut(m', heads + {p + blocks}, events, p + blocks)
  {
    var cut := p + blocks;
    forall j: nat {:trigger NodesOk(m', heads + {cut}, events[j], j)} | j < |events|
      ensures NodesOk(m', heads + {cut}, events[j], j) && !Has(events[j], cut)
    {
      assert NodesOk(m, heads, events[j], j) && NodesOk(m, heads, events[0], 0);
      assert Has(events[j], p) ==> Node(m, heads, p, j) && Node(m, heads, p, 0);
      assert Has(events[0], p);
      assert Node(m, heads, p, 0);
      assert Has(events[j], cut) ==> Node(m, heads, cut, j);
      NodesFrame(m, heads, events[j], j, p, cut, m');
    }
    forall x: nat {:trigger IsCached(m', x)} | x in heads + {cut} && x != cut && IsCached(m', x) ensures Has(events[ListOf(m'[x].size)], x) {
      if x != p {
        assert m'[x] == m[x] && IsCached(m, x);
      }
    }
  }

  // What the heap sees of it.

  /** Rewriting the header of a used block, or cutting it in two used ones, concerns no free list. */
  lemma UsedCutInCluster(m: seq<Cell>, heads: set<nat>, lo: nat, hi: nat, fl: seq<nat>, p: nat, cut: nat, m': seq<Cell>)
    requires ClusterOk(m, heads, lo, hi, fl) && p in heads && lo <= p < hi && !Free(m, p)
    requires p <= cut < EndOf(m, p) && |m'| == |m|
    requires forall a {:trigger m'[a]} :: 0 <= a < |m| && !(p <= a < EndOf(m, p)) ==> m'[a] == m[a]
    requires EndOf(m', p) == (if cut == p then EndOf(m, p) else cut) && EndOf(m', cut) == EndOf(m, p)
    requires !Free(m', p) && !Free(m', cut)
    ensures ClusterOk(m', heads + {cut}, lo, hi, fl)
  {
    SplitTiled(m, heads, m', lo, hi, p, cut);
    forall a {:trigger Free(m', a)} | a in heads && lo <= a < hi ensures Free(m', a) == Free(m, a) {
      assert a != p ==> m'[a] == m[a];
    }
    assert FreeHeads(m', heads + {cut}, lo, hi) == FreeHeads(m, heads, lo, hi);
    forall x {:trigger Free(m', x)} | x in heads + {cut} && lo <= x < hi && Free(m', x) ensures m'[x].pinned && !m'[x].alive && !m'[x].event {
      assert x != p && Free(m, x) && m'[x] == m[x];
    }
    forall x {:trigger EndOf(m', x)} | x in heads + {cut} && lo <= x < hi && Free(m', x) && EndOf(m', x) < hi ensures !Free(m', EndOf(m', x)) {
      assert x != p && EndOf(m', x) == EndOf(m, x) && Free(m, x);
    }
  }

  lemma UsedCut(m: seq<Cell>, heads: set<nat>, spans: seq<Span>, lists: seq<seq<nat>>, p: nat, cut: nat, m': seq<Cell>)
    requires HeapOk(m, heads, spans, lists) && p in heads && !Free(m, p)
    requires p <= cut < EndOf(m, p) && |m'| == |m|
    requires forall a {:trigger m'[a]} :: 0 <= a < |m| && !(p <= a < EndOf(m, p)) ==> m'[a] == m[a]
    requires EndOf(m', p) == (if cut == p then EndOf(m, p) else cut) && EndOf(m', cut) == EndOf(m, p)
    requires !Free(m', p) && !Free(m', cut)
    ensures HeapOk(m', heads + {cut}, spans, lists)
  {
    assert InSpan(spans, p);
    var i :| 0 <= i < |spans| && spans[i].lo <= p < spans[i].hi;
    assert ClusterAt(m, heads, spans, lists, i);
    assert EndOf(m, p) <= spans[i].hi;
    UsedCutInCluster(m, heads, spans[i].lo, spans[i].hi, lists[i], p, cut, m');
    ClusterChanged(m, heads, spans, lists, i, m', heads + {cut}, lists[i]);
    assert lists[i := lists[i]] == lists;
  }

  /** An allocation from the heap does not concern the cache. */
  lemma AllocationKeepsCache(m: seq<Cell>, heads: set<nat>, lo: nat, hi: nat, fl: seq<nat>, events: seq<seq<nat>>, event: bool,
                             length: nat, k: nat, res: nat, rest: nat, m': seq<Cell>, fl': seq<nat>)
    requires CacheOk(m, heads, events) && ClusterOk(m, heads, lo, hi, fl) && 1 <= length
    requires Carved(m, fl, event, length, k, res, rest, m', fl') && !IsCached(m', res)
    requires forall x :: x in heads ==> !(fl[k] < x < EndOf(m, fl[k]))
    ensures CacheOk(m', heads + {res, rest}, events)
  {
    var src := fl[k];
    FreeBlockBounds(m, heads, lo, hi, fl, k);
    var heads' := heads + {res, rest};
    forall j: nat {:trigger NodesOk(m', heads', events[j], j)} | j < |events| ensures NodesOk(m', heads', events[j], j) {
      assert NodesOk(m, heads, events[j], j);
      forall x: nat {:trigger Has(events[j], x)} | Has(events[j], x) ensures Node(m', heads', x, j) {
        assert Node(m, heads, x, j) && x != src;
        assert m'[x] == m[x];
      }
    }
    assert rest != res ==> !IsCached(m', rest);
    forall x: nat {:trigger IsCached(m', x)} | x in heads' && IsCached(m', x) ensures Has(events[ListOf(m'[x].size)], x) {
      assert x in heads && x != src && m'[x] == m[x];
      assert IsCached(m, x);
    }
  }

  // Requests.

  /** A request has been served with the cached block p, the smallest one that fits; the cells behind
      the first blocks ones, if any, are a cached block again. */
  ghost predicate Served(m: seq<Cell>, heads: set<nat>, dt: DataType, zero: bool, blocks: nat, p: nat, m': seq<Cell>, heads': set<nat>) {
    && p in heads && IsCached(m, p) && Fits(m[p].size, blocks) && p + m[p].size <= |m| == |m'|
    && (forall h: nat {:trigger IsCached(m, h)} :: h in heads && IsCached(m, h) && Fits(m[h].size, blocks) ==> m[p].size <= m[h].size)
    && m'[p].(ref := NULL) == Cell(dt, blocks, true, true, false, NULL)
    && (forall c {:trigger m'[c]} :: 0 <= c < |m| && !(p <= c < p + m[p].size) ==> m'[c] == m[c])
    && (m[p].size == blocks ==> heads' == heads)
    && (m[p].size != blocks ==> heads' == heads + {p + blocks} && m'[p + blocks] == Cell(CachedBlock, m[p].size - blocks, true, true, false, NULL))
    && (zero ==> m'[p].ref == NULL && forall c :: p < c < p + blocks ==> m'[c] == ZEROED)
  }

  /** The block at p has been cut after blocks cells; the tail is a cached block. */
  ghost predicate Requeued(m: seq<Cell>, p: nat, blocks: nat, m': seq<Cell>) {
    && p < p + blocks < |m| && blocks < m[p].size
    && m' == m[p := Cell(CachedBlock, blocks, true, true, false, m[p].ref)]
              [p + blocks := Cell(CachedBlock, m[p].size - blocks, true, true, false, NULL)]
  }

  /** The block at p has become a used block of type dt. */
  ghost predicate Made(m: seq<Cell>, p: nat, dt: DataType, zero: bool, m': seq<Cell>) {
    && p < |m| == |m'|
    && m'[p].(ref := NULL) == Cell(dt, m[p].size, true, true, false, NULL)
    && (zero ==> m'[p].ref == NULL)
    && (forall c {:trigger m'[c]} :: 0 <= c < |m| && c != p ==> m'[c] == if zero && p < c < p + m[p].size then ZEROED else m[c])
  }

  lemma MadeKeeps(m: seq<Cell>, heads: set<nat>, spans: seq<Span>, lists: seq<seq<nat>>, events: seq<seq<nat>>, i: nat, k: nat, r: seq<nat>,
                  dt: DataType, zero: bool, m': seq<Cell>)
    requires HeapOk(m, heads, spans, lists) && CacheOk(m, heads, events)
    requires i < |events| && k < |events[i]| && Removed(events[i], k, r)
    requires Made(m, events[i][k], dt, zero, m') && !dt.FreeBlock? && !dt.CachedBlock?
    ensures HeapOk(m', heads, spans, lists) && CacheOk(m', heads, events[i := r])
  {
    var p := events[i][k];
    InList(m, heads, events, i, k);
    HeadBounds(m, heads, spans, lists, p);
    forall a {:trigger m'[a]} | 0 <= a < |m| && !(p < a < EndOf(m, p)) && a != p ensures m'[a] == m[a] {}
    assert m'[p].(ref := NULL).size == m'[p].size && m'[p].(ref := NULL).dt == m'[p].dt;
    UsedCut(m, heads, spans, lists, p, p, m');
    assert heads + {p} == heads;
    Taken(m, heads, events, i, k, r, m');
  }

  lemma ServedAfter(m: seq<Cell>, heads: set<nat>, dt: DataType, zero: bool, blocks: nat, p: nat, m1: seq<Cell>, heads1: set<nat>, m': seq<Cell>)
    requires p in heads && IsCached(m, p) && Fits(m[p].size, blocks) && p + m[p].size <= |m| && 0 < m[p].size
    requires forall h: nat {:trigger IsCached(m, h)} :: h in heads && IsCached(m, h) && Fits(m[h].size, blocks) ==> m[p].size <= m[h].size
    requires if m[p].size == blocks then m1 == m && heads1 == heads else Requeued(m, p, blocks, m1) && heads1 == heads + {p + blocks}
    requires Made(m1, p, dt, zero, m')
    ensures Served(m, heads, dt, zero, blocks, p, m', heads1)
  {
    assert m1[p].size == blocks;
    if m[p].size != blocks {
      assert m'[p + blocks] == m1[p + blocks];
    }
  }

  /** A request finds nothing in the cache. */
  ghost predicate NotServed(m: seq<Cell>, heads: set<nat>, blocks: nat) {
    forall h: nat {:trigger IsCached(m, h)} :: h in heads && IsCached(m, h) ==> !Fits(m[h].size, blocks)
  }

  lemma InList(m: seq<Cell>, heads: set<nat>, events: seq<seq<nat>>, i: nat, k: nat)
    requires CacheOk(m, heads, events) && i < |events| && k < |events[i]|
    ensures Node(m, heads, events[i][k], i)
  {
    assert NodesOk(m, heads, events[i], i);
    assert Has(events[i], events[i][k]);
  }

  /** A small request is served by any node of its list, and by nothing else. */
  lemma FastFits(m: seq<Cell>, heads: set<nat>, events: seq<seq<nat>>, blocks: nat)
    requires CacheOk(m, heads, events) && 0 < blocks < MAX_FAST_LISTS
    ensures events[blocks] == [] ==> NotServed(m, heads, blocks)
  {
    if events[blocks] == [] {
      forall h: nat {:trigger IsCached(m, h)} | h in heads && IsCached(m, h) ensures !Fits(m[h].size, blocks) {
        assert Has(events[ListOf(m[h].size)], h);
      }
    }
  }

  /** The best block among the first k nodes of list 0; NULL when none of them fits. */
  ghost predicate BestOf(m: seq<Cell>, fl: seq<nat>, k: nat, blocks: nat, at: nat, best: nat) {
    && (best != NULL ==> at < k <= |fl| && best == fl[at] && best < |m| && Fits(m[best].size, blocks))
    && (forall j {:trigger fl[j]} :: 0 <= j < k && j < |fl| && fl[j] < |m| && Fits(m[fl[j]].size, blocks) ==>
          best != NULL && best < |m| && m[best].size <= m[fl[j]].size)
  }

  lemma SlowFits(m: seq<Cell>, heads: set<nat>, events: seq<seq<nat>>, blocks: nat, at: nat, best: nat)
    requires CacheOk(m, heads, events) && !(0 < blocks < MAX_FAST_LISTS)
    requires BestOf(m, events[0], |events[0]|, blocks, at, best)
    ensures best == NULL ==> NotServed(m, heads, blocks)
    ensures forall h: nat {:trigger IsCached(m, h)} :: h in heads && IsCached(m, h) && Fits(m[h].size, blocks) ==>
      best != NULL && best < |m| && m[best].size <= m[h].size
  {
    forall h: nat {:trigger IsCached(m, h)} | h in heads && IsCached(m, h) && Fits(m[h].size, blocks)
      ensures best != NULL && best < |m| && m[best].size <= m[h].size
    {
      var i := ListOf(m[h].size);
      assert Has(events[i], h);
      assert NodesOk(m, heads, events[i], i);
      assert Node(m, heads, h, i);
      assert i == 0;
      var j :| 0 <= j < |events[0]| && events[0][j] == h;
    }
  }

  lemma HeadBounds(m: seq<Cell>, heads: set<nat>, spans: seq<Span>, lists: seq<seq<nat>>, p: nat)
    requires HeapOk(m, heads, spans, lists) && p in heads
    ensures 0 < p < EndOf(m, p) <= |m| && EndOf(m, p) - p < HB_MAX_SIZE
    ensures forall x :: x in heads ==> !(p < x < EndOf(m, p))
  {
    assert InSpan(spans, p);
    var i :| 0 <= i < |spans| && spans[i].lo <= p < spans[i].hi;
    assert ClusterAt(m, heads, spans, lists, i);
    forall x | x in heads ensures !(p < x < EndOf(m, p)) { BlocksDisjoint(m, heads, spans, lists, p, x); }
  }

  /** A used block that is no longer needed can be given to the cache. */
  lemma NotYetCached(m: seq<Cell>, heads: set<nat>, events: seq<seq<nat>>, p: nat)
    requires CacheOk(m, heads, events) && !IsCached(m, p)
    ensures CacheOkBut(m, heads, events, p)
  {
    forall i: nat {:trigger NodesOk(m, heads, events[i], i)} | i < |events| ensures NodesOk(m, heads, events[i], i) && !Has(events[i], p) {
      assert NodesOk(m, heads, events[i], i);
      assert Has(events[i], p) ==> Node(m, heads, p, i);
    }
  }

  /** The heap after the cache has been emptied: its blocks have become free headers that are in no free list. */
  ghost function Cleaned(m: seq<Cell>, heads: set<nat>): (r: seq<Cell>)
    ensures |r| == |m|
  {
    seq(|m|, c requires 0 <= c < |m| => if c in heads && m[c].dt.CachedBlock? then Cell(FreeBlock, m[c].size, false, false, true, NULL) else m[c])
  }

  lemma CleanedTiled(m: seq<Cell>, heads: set<nat>, spans: seq<Span>)
    requires HeapTiled(m, heads, spans)
    ensures HeapTiled(Cleaned(m, heads), heads, spans)
  {
    var m1 := Cleaned(m, heads);
    forall i {:trigger SpanTiled(m1, heads, spans, i)} | 0 <= i < |spans| ensures SpanTiled(m1, heads, spans, i) {
      assert SpanTiled(m, heads, spans, i);
      var lo, hi := spans[i].lo, spans[i].hi;
      forall a {:trigger EndOf(m1, a)} | a in heads && lo <= a < hi ensures EndOf(m1, a) == EndOf(m, a) {
        assert a < EndOf(m, a) <= hi;
      }
    }
  }

  /** The nodes of the first i lists and the first k nodes of list i. */
  ghost predicate Before(events: seq<seq<nat>>, i: nat, k: nat, x: nat) {
    exists j, l: nat {:trigger events[j][l]} :: 0 <= j < |events| && l < |events[j]| && (j < i || (j == i && l < k)) && events[j][l] == x
  }

  lemma BeforeNext(events: seq<seq<nat>>, i: nat, k: nat, x: nat)
    requires i < |events| && k < |events[i]|
    ensures Before(events, i, k + 1, x) <==> Before(events, i, k, x) || x == events[i][k]
  {
    if Before(events, i, k + 1, x) {
      var j, l: nat :| 0 <= j < |events| && l < |events[j]| && (j < i || (j == i && l < k + 1)) && events[j][l] == x;
      assert events[j][l] == x;
    }
    if x == events[i][k] { assert events[i][k] == x; }
  }

  lemma BeforeLast(events: seq<seq<nat>>, i: nat, x: nat)
    requires i < |events|
    ensures Before(events, i + 1, 0, x) <==> Before(events, i, |events[i]|, x)
  {
  }

  /** m1 is m with the nodes visited so far turned into free headers. */
  ghost predicate CleanedTo(m: seq<Cell>, events: seq<seq<nat>>, i: nat, k: nat, m1: seq<Cell>) {
    && |m1| == |m|
    && (forall c {:trigger m1[c]} :: 0 <= c < |m| ==>
          m1[c] == if Before(events, i, k, c) then Cell(FreeBlock, m[c].size, false, false, true, NULL) else m[c])
  }

  lemma CleanedNext(m: seq<Cell>, events: seq<seq<nat>>, i: nat, k: nat, m1: seq<Cell>, m2: seq<Cell>)
    requires CleanedTo(m, events, i, k, m1) && i < |events| && k < |events[i]| && events[i][k] < |m|
    requires m2 == m1[events[i][k] := Cell(FreeBlock, m[events[i][k]].size, false, false, true, NULL)]
    ensures CleanedTo(m, events, i, k + 1, m2)
  {
    forall c {:trigger m2[c]} | 0 <= c < |m|
      ensures m2[c] == if Before(events, i, k + 1, c) then Cell(FreeBlock, m[c].size, false, false, true, NULL) else m[c]
    {
      BeforeNext(events, i, k, c);
      assert c != events[i][k] ==> m2[c] == m1[c];
    }
  }

  lemma CleanedAll(m: seq<Cell>, heads: set<nat>, events: seq<seq<nat>>, m1: seq<Cell>)
    requires CacheOk(m, heads, events) && CleanedTo(m, events, MAX_FAST_LISTS, 0, m1)
    ensures m1 == Cleaned(m, heads)
  {
    forall c | 0 <= c < |m| ensures m1[c] == Cleaned(m, heads)[c] {
      assert Before(events, MAX_FAST_LISTS, 0, c) <==> c in heads && IsCached(m, c) by {
        if Before(events, MAX_FAST_LISTS, 0, c) {
          var j, l: nat :| 0 <= j < |events| && l < |events[j]| && events[j][l] == c;
          InList(m, heads, events, j, l);
        }
        if c in heads && IsCached(m, c) {
          var j := ListOf(m[c].size);
          assert Has(events[j], c);
          var l :| 0 <= l < |events[j]| && events[j][l] == c;
          assert events[j][l] == c;
        }
      }
    }
  }

  lemma NothingCached(m: seq<Cell>, heads: set<nat>)
    ensures CacheOk(Cleaned(m, heads), heads, seq(MAX_FAST_LISTS, _ => []))
  {
    var m1, none := Cleaned(m, heads), seq(MAX_FAST_LISTS, _ => []);
    forall i: nat {:trigger NodesOk(m1, heads, none[i], i)} | i < |none| ensures NodesOk(m1, heads, none[i], i) {}
  }

  /** The sizes of all cached blocks, added up. */
  ghost function CachedSize(m: seq<Cell>, events: seq<seq<nat>>, i: nat, k: nat): nat
    requires i < |events| && k <= |events[i]|
    decreases i, k
  {
    if k > 0 then CachedSize(m, events, i, k - 1) + (EndOf(m, events[i][k - 1]) - events[i][k - 1])
    else if i > 0 then CachedSize(m, events, i - 1, |events[i - 1]|)
    else 0
  }

  class EventLists {
    const mem: Memory
    var events: seq<seq<nat>>

    constructor (mem: Memory)
      requires forall x :: x in mem.heads ==> !IsCached(mem.cells[..], x)
      ensures this.mem == mem && events == seq(MAX_FAST_LISTS, _ => []) && CacheOk(mem.cells[..], mem.heads, events)
    {
      this.mem := mem;
      events := seq(MAX_FAST_LISTS, _ => []);
    }

    /** The cache and the heap agree. */
    ghost predicate Valid(spans: seq<Span>, lists: seq<seq<nat>>)
      reads this, mem, mem.cells
    {
      && HeapOk(mem.cells[..], mem.heads, spans, lists)
      && CacheOk(mem.cells[..], mem.heads, events)
    }

    /** Puts a used block at the end of the list for its size. */
    method AppendNode(node: nat, ghost spans: seq<Span>, ghost lists: seq<seq<nat>>)
      requires HeapOk(mem.cells[..], mem.heads, spans, lists) && CacheOkBut(mem.cells[..], mem.heads, events, node)
      requires node in mem.heads && !Free(mem.cells[..], node)
      modifies this`events, mem.cells
      ensures Valid(spans, lists)
      ensures node < mem.cells.Length
      ensures mem.cells[..] == old(mem.cells[..])[node := Cell(CachedBlock, old(mem.cells[node].size), true, true, false, old(mem.cells[node].ref))]
      ensures ListOf(old(mem.cells[node].size)) < |old(events)|
      ensures events == old(events)[ListOf(old(mem.cells[node].size)) := old(events)[ListOf(old(mem.cells[node].size))] + [node]]
    {
      ghost var m := mem.cells[..];
      HeadBounds(m, mem.heads, spans, lists, node);
      var blocks := mem.cells[node].size;
      Appended(m, mem.heads, events, node, m[node := Cell(CachedBlock, blocks, true, true, false, m[node].ref)]);
      var i := if blocks < MAX_FAST_LISTS then blocks else 0;
      mem.cells[node] := mem.cells[node].(dt := CachedBlock, alive := true, event := true, pinned := false);
      events := events[i := events[i] + [node]];
      assert mem.cells[..] == m[node := Cell(CachedBlock, blocks, true, true, false, m[node].ref)];
      UsedCut(m, mem.heads, spans, lists, node, node, mem.cells[..]);
      assert mem.heads + {node} == mem.heads;
    }

    /** Serves a request from the cache; NULL when nothing fits, in which case the heap is asked. */
    method ExtractNode(dt: DataType, zero: bool, blocks: nat, ghost spans: seq<Span>, ghost lists: seq<seq<nat>>) returns (ptr: nat)
      requires Valid(spans, lists) && !dt.FreeBlock? && !dt.CachedBlock?
      modifies this`events, mem`heads, mem.cells
      ensures Valid(spans, lists)
      ensures ptr == NULL <==> NotServed(old(mem.cells[..]), old(mem.heads), blocks)
      ensures ptr == NULL ==> events == old(events) && mem.heads == old(mem.heads) && mem.cells[..] == old(mem.cells[..])
      ensures ptr != NULL ==> Served(old(mem.cells[..]), old(mem.heads), dt, zero, blocks, ptr, mem.cells[..], mem.heads)
      ensures ptr != NULL && 0 < blocks < MAX_FAST_LISTS ==>
        |old(events)| == MAX_FAST_LISTS && |old(events)[blocks]| > 0 && ptr == old(events)[blocks][0]
    {
      if 0 < blocks < MAX_FAST_LISTS {
        ptr := ExtractNodeFast(dt, zero, blocks, spans, lists);
      } else {
        ptr := ExtractNodeSlow(dt, zero, blocks, spans, lists);
      }
    }

    /** A small request: the block that has been longest in the list for that size. */
    method ExtractNodeFast(dt: DataType, zero: bool, blocks: nat, ghost spans: seq<Span>, ghost lists: seq<seq<nat>>) returns (ptr: nat)
      requires Valid(spans, lists) && !dt.FreeBlock? && !dt.CachedBlock? && 0 < blocks < MAX_FAST_LISTS
      modifies this`events, mem`heads, mem.cells
      ensures Valid(spans, lists)
      ensures ptr == NULL <==> NotServed(old(mem.cells[..]), old(mem.heads), blocks)
      ensures ptr == NULL ==> events == old(events) && mem.heads == old(mem.heads) && mem.cells[..] == old(mem.cells[..])
      ensures ptr != NULL ==> Served(old(mem.cells[..]), old(mem.heads), dt, zero, blocks, ptr, mem.cells[..], mem.heads)
      ensures ptr != NULL ==> |old(events)| == MAX_FAST_LISTS && |old(events)[blocks]| > 0 && ptr == old(events)[blocks][0]
    {
      ghost var m := mem.cells[..];
      FastFits(m, mem.heads, events, blocks);
      ptr := NULL;
      if |events[blocks]| > 0 {
        ptr := events[blocks][0];
        InList(m, mem.heads, events, blocks, 0);
        HeadBounds(m, mem.heads, spans, lists, ptr);
        assert IsCached(m, ptr);
        TakeNode(blocks, 0, dt, zero, spans, lists);
        ServedAfter(m, mem.heads, dt, zero, blocks, ptr, m, mem.heads, mem.cells[..]);
      }
    }

    /** A large request: the smallest block of list 0 that is large enough, if the first acceptable one
        was at most a quarter too large. What is left over is cached again. */
    method ExtractNodeSlow(dt: DataType, zero: bool, blocks: nat, ghost spans: seq<Span>, ghost lists: seq<seq<nat>>) returns (ptr: nat)
      requires Valid(spans, lists) && !dt.FreeBlock? && !dt.CachedBlock? && !(0 < blocks < MAX_FAST_LISTS)
      modifies this`events, mem`heads, mem.cells
      ensures Valid(spans, lists)
      ensures ptr == NULL <==> NotServed(old(mem.cells[..]), old(mem.heads), blocks)
      ensures ptr == NULL ==> events == old(events) && mem.heads == old(mem.heads) && mem.cells[..] == old(mem.cells[..])
      ensures ptr != NULL ==> Served(old(mem.cells[..]), old(mem.heads), dt, zero, blocks, ptr, mem.cells[..], mem.heads)
    {
      ghost var m, heads := mem.cells[..], mem.heads;
      var at;
      at, ptr := FindBest(blocks, spans, lists);
      SlowFits(m, heads, events, blocks, at, ptr);
      if ptr != NULL {
        InList(m, heads, events, 0, at);
        HeadBounds(m, heads, spans, lists, ptr);
        assert IsCached(m, ptr);
        var bestSize := mem.cells[ptr].size;
        if bestSize > blocks {
          Requeue(ptr, at, blocks, spans, lists);
        }
        ghost var m1, heads1 := mem.cells[..], mem.heads;
        TakeNode(0, at, dt, zero, spans, lists);
        ServedAfter(m, heads, dt, zero, blocks, ptr, m1, heads1, mem.cells[..]);
      }
    }

    method FindBest(blocks: nat, ghost spans: seq<Span>, ghost lists: seq<seq<nat>>) returns (at: nat, best: nat)
      requires Valid(spans, lists) && !(0 < blocks < MAX_FAST_LISTS)
      ensures |events| == MAX_FAST_LISTS && BestOf(mem.cells[..], events[0], |events[0]|, blocks, at, best)
      ensures best != NULL ==> at < |events[0]| && best == events[0][at]
    {
      var fl := events[0];
      at, best := 0, NULL;
      var bestSize, k := 0, 0;
      while k < |fl|
        invariant k <= |fl| && BestOf(mem.cells[..], fl, k, blocks, at, best)
        invariant best != NULL ==> bestSize == mem.cells[best].size
      {
        InList(mem.cells[..], mem.heads, events, 0, k);
        HeadBounds(mem.cells[..], mem.heads, spans, lists, fl[k]);
        var size := mem.cells[fl[k]].size;
        if size == blocks {
          at, best, bestSize := k, fl[k], size;
          break;
        }
        if size >= blocks && ((best != NULL && size < bestSize) || (best == NULL && size <= blocks * 20 / 16)) {
          at, best, bestSize := k, fl[k], size;
        }
        k := k + 1;
      }
    }

    /** Cuts the block at ptr after blocks cells and caches the tail. */
    method Requeue(ptr: nat, ghost at: nat, blocks: nat, ghost spans: seq<Span>, ghost lists: seq<seq<nat>>)
      requires Valid(spans, lists) && |events| == MAX_FAST_LISTS && at < |events[0]| && events[0][at] == ptr
      requires MAX_FAST_LISTS <= blocks && ptr < mem.cells.Length && blocks < mem.cells[ptr].size
      modifies this`events, mem`heads, mem.cells
      ensures Valid(spans, lists)
      ensures mem.heads == old(mem.heads) + {ptr + blocks}
      ensures Requeued(old(mem.cells[..]), ptr, blocks, mem.cells[..])
      ensures |events| == MAX_FAST_LISTS && at < |events[0]| && events[0][at] == ptr
    {
      ghost var m, heads := mem.cells[..], mem.heads;
      InList(m, heads, events, 0, at);
      HeadBounds(m, heads, spans, lists, ptr);
      var next, rest := ptr + blocks, mem.cells[ptr].size - blocks;
      mem.cells[ptr] := SetDataId(mem.cells[ptr], CachedBlock, true, true, false, blocks);
      mem.cells[next] := SetDataId(mem.cells[next], CachedBlock, true, true, false, rest).(ref := NULL);
      ghost var m1 := mem.cells[..];
      mem.heads := mem.heads + {next};
      UsedCut(m, heads, spans, lists, ptr, next, m1);
      assert Has(events[0], ptr);
      CutInCache(m, heads, events, ptr, blocks, m1);
      AppendNode(next, spans, lists);
      assert mem.cells[..] == m1;
    }

    /** Takes node k off list i and makes it a used block of type dt. */
    method TakeNode(i: nat, k: nat, dt: DataType, zero: bool, ghost spans: seq<Span>, ghost lists: seq<seq<nat>>)
      requires Valid(spans, lists) && !dt.FreeBlock? && !dt.CachedBlock? && i < |events| && k < |events[i]|
      modifies this`events, mem.cells
      ensures Valid(spans, lists)
      ensures Made(old(mem.cells[..]), old(events[i][k]), dt, zero, mem.cells[..])
      ensures i < |events| == |old(events)| && Removed(old(events[i]), k, events[i]) && events == old(events)[i := events[i]]
    {
      ghost var m := mem.cells[..];
      var ptr := events[i][k];
      InList(m, mem.heads, events, i, k);
      HeadBounds(m, mem.heads, spans, lists, ptr);
      var r := Unlink(events[i], k);
      mem.cells[ptr] := mem.cells[ptr].(dt := dt, alive := true, event := true, pinned := false);
      if zero {
        ClearBlock(ptr);
      }
      MadeKeeps(m, mem.heads, spans, lists, events, i, k, r, dt, zero, mem.cells[..]);
      events := events[i := r];
    }

    method ClearBlock(ptr: nat)
      requires ptr < mem.cells.Length && 0 < mem.cells[ptr].size && ptr + mem.cells[ptr].size <= mem.cells.Length
      modifies mem.cells
      ensures Zeroed(old(mem.cells[..]), ptr, old(mem.cells[ptr].size), mem.cells[..])
    {
      mem.cells[ptr] := mem.cells[ptr].(ref := NULL);
      forall a | ptr < a < ptr + mem.cells[ptr].size {
        mem.cells[a] := ZEROED;
      }
    }

    /** Empties the cache before a collection: its blocks become free headers. tot is their total size. */
    method Cleanup() returns (tot: nat)
      requires CacheOk(mem.cells[..], mem.heads, events)
      modifies this`events, mem.cells
      ensures mem.cells[..] == Cleaned(old(mem.cells[..]), mem.heads)
      ensures events == seq(MAX_FAST_LISTS, _ => []) && CacheOk(mem.cells[..], mem.heads, events)
      ensures |old(events)| == MAX_FAST_LISTS
      ensures tot == CachedSize(old(mem.cells[..]), old(events), MAX_FAST_LISTS - 1, |old(events)[MAX_FAST_LISTS - 1]|)
    {
      ghost var m, lists := mem.cells[..], events;
      var i := 0;
      tot := 0;
      while i < MAX_FAST_LISTS
        invariant i <= MAX_FAST_LISTS == |events| && CleanedTo(m, lists, i, 0, mem.cells[..])
        invariant tot == if i == 0 then 0 else CachedSize(m, lists, i - 1, |lists[i - 1]|)
        invariant forall j {:trigger events[j]} :: 0 <= j < MAX_FAST_LISTS ==> events[j] == if j < i then [] else lists[j]
      {
        tot := CleanList(i, m, lists, tot);
        events := events[i := []];
        i := i + 1;
      }
      CleanedAll(m, mem.heads, lists, mem.cells[..]);
      NothingCached(m, mem.heads);
    }

    method CleanList(i: nat, ghost m: seq<Cell>, ghost lists: seq<seq<nat>>, tot: nat) returns (sum: nat)
      requires CacheOk(m, mem.heads, lists) && i < |lists| == |events| && events[i] == lists[i]
      requires CleanedTo(m, lists, i, 0, mem.cells[..])
      requires tot == if i == 0 then 0 else CachedSize(m, lists, i - 1, |lists[i - 1]|)
      modifies mem.cells
      ensures CleanedTo(m, lists, i + 1, 0, mem.cells[..])
      ensures sum == CachedSize(m, lists, i, |lists[i]|)
    {
      var k := 0;
      sum := tot;
      while k < |events[i]|
        invariant k <= |events[i]| && CleanedTo(m, lists, i, k, mem.cells[..])
        invariant sum == CachedSize(m, lists, i, k)
      {
        var ptr := events[i][k];
        InList(m, mem.heads, lists, i, k);
        ghost var m1 := mem.cells[..];
        assert m1[ptr].size == m[ptr].size;
        mem.cells[ptr] := SetFree(mem.cells[ptr], mem.cells[ptr].size).(ref := NULL);
        assert mem.cells[..] == m1[ptr := SetFree(m1[ptr], m1[ptr].size).(ref := NULL)];
        CleanedNext(m, lists, i, k, m1, mem.cells[..]);
        sum := sum + mem.cells[ptr].size;
        k := k + 1;
      }
      forall c: nat ensures Before(lists, i + 1, 0, c) <==> Before(lists, i, |lists[i]|, c) { BeforeLast(lists, i, c); }
    }
  }
}
