/** The memory operations of one compaction step, and what they do to headers and blocks. */
module CompactionSteps {
  import opened HeapMemory
  import opened NodeList
  import opened HeapCluster
  import opened Tiling
  import opened Heap
  import opened Relocation
  import opened Compaction

  /** The headers after copying the run [start, end) to the free block at dst; what was at dst ends at
      x, and the unused rest, if any, gets a header. */
  ghost function CopiedHeads(heads: set<nat>, dst: nat, start: nat, end: nat, x: nat): set<nat>
    requires dst <= start <= end
  {
    var q := dst + (end - start);
    (set h | h in heads && !(dst <= h < x)) + ShiftedHeads(heads, dst, start, end) + (if q < x then {q} else {})
  }

  ghost function Leftover(heads: set<nat>, dst: nat, start: nat, end: nat, x: nat): set<nat>
    requires dst <= start <= end
  {
    var q := dst + (end - start);
    (if q < x then {q} else {}) + (set h | h in heads && start <= h < end && x <= h)
  }

  /** A run of movable blocks [start, end) of a cluster (lo, hi). */
  ghost predicate MovableRun(m: seq<Cell>, heads: set<nat>, lo: nat, hi: nat, start: nat, end: nat) {
    && lo <= start < end <= hi <= |m|
    && start in heads && (end < hi ==> end in heads)
    && (forall h {:trigger h in heads} :: start <= h < end && h in heads ==> !m[h].Unmovable())
  }

  /** The run can be moved to the free block at dst: either it follows it, or it fits and is elsewhere. */
  ghost predicate CanMove(m: seq<Cell>, dst: nat, start: nat, end: nat, x: nat) {
    && dst < start < end && dst + (end - start) <= x
    && ((EndOf(m, dst) == start && x == end) || (EndOf(m, dst) == x < start))
  }

  ghost predicate UsedRun(m: seq<Cell>, heads: set<nat>, start: nat, end: nat) {
    forall h {:trigger EndOf(m, h)} :: h in heads && start <= h < end ==> !Free(m, h) && h < EndOf(m, h)
  }

  lemma RunFacts(m: seq<Cell>, heads: set<nat>, spans: seq<Span>, lists: seq<seq<nat>>, cs: nat, start: nat, end: nat)
    requires HeapOk(m, heads, spans, lists) && cs < |spans|
    requires MovableRun(m, heads, spans[cs].lo, spans[cs].hi, start, end)
    ensures Tiled(m, heads, start, end)
    ensures forall h {:trigger EndOf(m, h)} :: h in heads && start <= h < end ==> !Free(m, h) && !m[h].Unmovable() && h < EndOf(m, h) <= end
    ensures UsedRun(m, heads, start, end)
  {
    assert ClusterAt(m, heads, spans, lists, cs);
    TiledSplit(m, heads, spans[cs].lo, start, spans[cs].hi);
    TiledSplit(m, heads, start, end, spans[cs].hi);
    forall h {:trigger EndOf(m, h)} | h in heads && start <= h < end ensures !Free(m, h) {
      assert !m[h].Unmovable();
    }
  }

  /** No block in the copied part is free. */
  lemma RunUsed(m: seq<Cell>, heads: set<nat>, dst: nat, start: nat, end: nat, x: nat, m1: seq<Cell>)
    requires CanMove(m, dst, start, end, x) && MovedDown(m, dst, start, end - start, m1)
    requires UsedRun(m, heads, start, end)
    ensures forall c {:trigger Free(m1, c)} :: dst <= c < dst + (end - start) && c in CopiedHeads(heads, dst, start, end, x) ==> !Free(m1, c)
  {
    var q, heads1 := dst + (end - start), CopiedHeads(heads, dst, start, end, x);
    forall c {:trigger Free(m1, c)} | dst <= c < q && c in heads1 ensures !Free(m1, c) {
      assert HeadAbove(heads, c, start - dst) <==> c + (start - dst) in heads;
      assert c + (start - dst) in heads && m1[c] == m[c + (start - dst)];
      assert EndOf(m, c + (start - dst)) > 0;
    }
  }

  /** Between the free block and the end of what is rewritten there are used blocks only. */
  lemma NoneFreeBetween(m: seq<Cell>, heads: set<nat>, lo: nat, hi: nat, dst: nat, start: nat, end: nat, x: nat)
    requires Tiled(m, heads, lo, hi) && dst in heads && lo <= dst < hi && x <= hi && CanMove(m, dst, start, end, x)
    requires UsedRun(m, heads, start, end)
    ensures forall a {:trigger a in heads} :: dst < a < x && a in heads ==> !Free(m, a)
  {
    forall a {:trigger a in heads} | dst < a < x && a in heads ensures !Free(m, a) {
      assert EndOf(m, dst) <= a;
      assert EndOf(m, a) > 0;
    }
  }

  /** Copying the run refills the free block. */
  lemma RunRefills(m: seq<Cell>, heads: set<nat>, spans: seq<Span>, lists: seq<seq<nat>>, cf: nat, k: nat, cs: nat,
                   start: nat, end: nat, x: nat, m1: seq<Cell>, fl1: seq<nat>)
    requires HeapOk(m, heads, spans, lists) && cf < |spans| && cs < |spans| && k < |lists[cf]|
    requires MovableRun(m, heads, spans[cs].lo, spans[cs].hi, start, end)
    requires var dst := lists[cf][k]; CanMove(m, dst, start, end, x) && (EndOf(m, dst) == start ==> cs == cf)
    requires MovedDown(m, lists[cf][k], start, end - start, m1) && Removed(lists[cf], k, fl1)
    ensures var dst := lists[cf][k];
      Refilled(m, heads, spans[cf].lo, spans[cf].hi, lists[cf], k, x, dst + (end - start), m1, CopiedHeads(heads, dst, start, end, x), fl1)
  {
    var dst := lists[cf][k];
    var q := dst + (end - start);
    var heads1 := CopiedHeads(heads, dst, start, end, x);
    var lo, hi := spans[cf].lo, spans[cf].hi;
    RunFacts(m, heads, spans, lists, cs, start, end);
    assert ClusterAt(m, heads, spans, lists, cf);
    assert dst in FreeHeads(m, heads, lo, hi);
    assert EndOf(m, dst) <= hi;
    forall c {:trigger c in heads1} | dst <= c < q ensures c in heads1 <==> c + (start - dst) in heads {
      assert HeadAbove(heads, c, start - dst) <==> c + (start - dst) in heads;
    }
    TiledShift(m, heads, m1, heads1, dst, start, end);
    RunUsed(m, heads, dst, start, end, x, m1);
    NoneFreeBetween(m, heads, lo, hi, dst, start, end, x);
  }

  /** Where the blocks of the heap lie with respect to the free block and the run. */
  lemma RunDisjoint(m: seq<Cell>, heads: set<nat>, spans: seq<Span>, lists: seq<seq<nat>>, dst: nat,
                    start: nat, end: nat, x: nat, h: nat)
    requires HeapOk(m, heads, spans, lists)
    requires dst in heads && start in heads && Tiled(m, heads, start, end)
    requires CanMove(m, dst, start, end, x)
    requires h in heads && !Free(m, h) && !(start <= h < end) && Free(m, dst)
    ensures h < EndOf(m, h) <= |m|
    ensures EndOf(m, h) <= start || end <= h
    ensures EndOf(m, h) <= dst || x <= h
  {
    BlocksDisjoint(m, heads, spans, lists, h, start);
    BlocksDisjoint(m, heads, spans, lists, h, dst);
    BlocksDisjoint(m, heads, spans, lists, dst, h);
  }

  /** Every used header after the copy stands for a used block from before. */
  lemma CopiedFrom(m: seq<Cell>, heads: set<nat>, spans: seq<Span>, lists: seq<seq<nat>>, dst: nat,
                   start: nat, end: nat, x: nat, m1: seq<Cell>, h: nat)
    requires HeapOk(m, heads, spans, lists)
    requires dst in heads && Free(m, dst) && CanMove(m, dst, start, end, x)
    requires MovedDown(m, dst, start, end - start, m1)
    requires h in CopiedHeads(heads, dst, start, end, x) - Leftover(heads, dst, start, end, x) && !Free(m1, h)
    ensures Sourced(m, heads, start, end, dst, h)
  {
    if dst <= h < dst + (end - start) {
      assert HeadAbove(heads, h, start - dst) <==> h + (start - dst) in heads;
    } else {
      BlocksDisjoint(m, heads, spans, lists, h, h);
      assert m1[h] == m[h];
    }
  }

  /** The copy, before any header is repaired. */
  lemma RunIsCopied(m: seq<Cell>, heads: set<nat>, spans: seq<Span>, lists: seq<seq<nat>>, dst: nat, cs: nat,
                    start: nat, end: nat, x: nat, m1: seq<Cell>)
    requires HeapOk(m, heads, spans, lists) && cs < |spans|
    requires MovableRun(m, heads, spans[cs].lo, spans[cs].hi, start, end)
    requires dst in heads && Free(m, dst) && CanMove(m, dst, start, end, x)
    requires MovedDown(m, dst, start, end - start, m1)
    ensures RunCopied(m, heads, m1, CopiedHeads(heads, dst, start, end, x), start, end, dst, Leftover(heads, dst, start, end, x))
  {
    var heads1, junk := CopiedHeads(heads, dst, start, end, x), Leftover(heads, dst, start, end, x);
    RunFacts(m, heads, spans, lists, cs, start, end);
    forall h {:trigger RunBlock(m, m1, heads1, start, end, dst, junk, h)} | h in heads && start <= h < end
      ensures RunBlock(m, m1, heads1, start, end, dst, junk, h)
    {
      assert EndOf(m, h) <= end;
      assert HeadAbove(heads, dst + (h - start), start - dst);
    }
    forall h {:trigger OtherBlock(m, m1, heads1, start, end, dst, junk, h)} | h in heads && !Free(m, h) && !(start <= h < end)
      ensures OtherBlock(m, m1, heads1, start, end, dst, junk, h)
    {
      RunDisjoint(m, heads, spans, lists, dst, start, end, x, h);
    }
    forall h {:trigger Sourced(m, heads, start, end, dst, h)} | h in heads1 - junk && !Free(m1, h)
      ensures Sourced(m, heads, start, end, dst, h)
    {
      CopiedFrom(m, heads, spans, lists, dst, start, end, x, m1, h);
    }
  }

  /** Returning a hole to the free list takes its header out of the junk. */
  lemma HoleReturned(m: seq<Cell>, heads: set<nat>, start: nat, end: nat, dst: nat, m1: seq<Cell>, heads1: set<nat>, junk: set<nat>,
                     lo: nat, hi: nat, node: nat, m2: seq<Cell>, heads2: set<nat>)
    requires RunCopied(m, heads, m1, heads1, start, end, dst, junk)
    requires UsedKept(m1, heads1, m2, heads2, lo, hi, node) && node in junk && lo <= node < hi <= |m|
    requires forall a {:trigger m2[a]} :: 0 <= a < |m1| && !(lo <= a < hi) ==> m2[a] == m1[a]
    requires forall a {:trigger a in heads2} :: !(lo <= a < hi) ==> (a in heads2 <==> a in heads1)
    requires forall h {:trigger EndOf(m, h)} :: h in heads && !Free(m, h) ==> (lo <= h && EndOf(m, h) <= hi) || EndOf(m, h) <= lo || hi <= h
    requires (lo <= dst && dst + (end - start) <= hi) || dst + (end - start) <= lo || hi <= dst
    ensures RunCopied(m, heads, m2, heads2, start, end, dst, junk - {node})
  {
    var junk2 := junk - {node};
    forall h {:trigger RunBlock(m, m2, heads2, start, end, dst, junk2, h)} | h in heads && start <= h < end
      ensures RunBlock(m, m2, heads2, start, end, dst, junk2, h)
    {
      assert RunBlock(m, m1, heads1, start, end, dst, junk, h);
      var h1 := dst + (h - start);
      assert m1[h1] == m[h];
      assert EndOf(m1, h1) == dst + (EndOf(m, h) - start) && Free(m1, h1) == Free(m, h);
      forall c {:trigger m2[c]} | h1 <= c < dst + (EndOf(m, h) - start) ensures m2[c] == m[c + (start - dst)] {
        assert m1[c] == m[c + (start - dst)];
      }
    }
    forall h {:trigger OtherBlock(m, m2, heads2, start, end, dst, junk2, h)} | h in heads && !Free(m, h) && !(start <= h < end)
      ensures OtherBlock(m, m2, heads2, start, end, dst, junk2, h)
    {
      assert OtherBlock(m, m1, heads1, start, end, dst, junk, h);
      assert m1[h] == m[h];
      assert EndOf(m1, h) == EndOf(m, h) && Free(m1, h) == Free(m, h);
      forall c {:trigger m2[c]} | h <= c < EndOf(m, h) ensures m2[c] == m[c] {
        assert m1[c] == m[c];
      }
    }
    forall h {:trigger Sourced(m, heads, start, end, dst, h)} | h in heads2 - junk2 && !Free(m2, h)
      ensures Sourced(m, heads, start, end, dst, h)
    {
      if !(lo <= h < hi) && h < |m1| {
        assert m2[h] == m1[h];
      }
      assert Free(m1, h) == Free(m2, h);
    }
  }

  /** The run has been copied away but its blocks still stand at their old place. */
  ghost predicate StillThere(m: seq<Cell>, heads: set<nat>, m2: seq<Cell>, heads2: set<nat>, start: nat, end: nat) {
    && end <= |m| == |m2|
    && (forall h {:trigger h in heads2} :: start <= h < end ==> (h in heads2 <==> h in heads))
    && (forall c {:trigger m2[c]} :: start <= c < end ==> m2[c] == m[c])
  }

  ghost function RunHeads(heads: set<nat>, start: nat, end: nat): set<nat> {
    set h | h in heads && start <= h < end
  }

  /** Dropping the old headers of the run but the first leaves one hole. */
  lemma SourceVacated(m: seq<Cell>, heads: set<nat>, spans: seq<Span>, lists: seq<seq<nat>>, cs: nat, start: nat, end: nat, dst: nat,
                      m2: seq<Cell>, heads2: set<nat>, lists2: seq<seq<nat>>)
    requires HeapOk(m, heads, spans, lists) && cs < |spans|
    requires MovableRun(m, heads, spans[cs].lo, spans[cs].hi, start, end) && dst + (end - start) <= start
    requires HeapOk(m2, heads2, spans, lists2)
    requires StillThere(m, heads, m2, heads2, start, end)
    requires end < spans[cs].hi ==> end in heads2
    requires RunCopied(m, heads, m2, heads2, start, end, dst, RunHeads(heads, start, end))
    ensures HoleOk(m2, Merged(heads2, start, end), spans[cs].lo, spans[cs].hi, lists2[cs], start, end - start)
    ensures RunCopied(m, heads, m2, Merged(heads2, start, end), start, end, dst, {start})
    ensures forall h {:trigger Free(m2, h)} :: start <= h < end && h in heads2 ==> !Free(m2, h)
  {
    RunFacts(m, heads, spans, lists, cs, start, end);
    assert ClusterAt(m2, heads2, spans, lists2, cs);
    forall a {:trigger a in heads2} | start <= a < end && a in heads2 ensures !Free(m2, a) {
      assert EndOf(m, a) > 0 && m2[a] == m[a];
    }
    VacatedHole(m2, heads2, spans[cs].lo, spans[cs].hi, lists2[cs], start, end);
    var junk, heads3 := RunHeads(heads, start, end), Merged(heads2, start, end);
    forall h {:trigger RunBlock(m, m2, heads3, start, end, dst, {start}, h)} | h in heads && start <= h < end
      ensures RunBlock(m, m2, heads3, start, end, dst, {start}, h)
    {
      assert RunBlock(m, m2, heads2, start, end, dst, junk, h);
    }
    forall h {:trigger OtherBlock(m, m2, heads3, start, end, dst, {start}, h)} | h in heads && !Free(m, h) && !(start <= h < end)
      ensures OtherBlock(m, m2, heads3, start, end, dst, {start}, h)
    {
      assert OtherBlock(m, m2, heads2, start, end, dst, junk, h);
    }
  }

  /** The free region a scan goes on with: a header of the list fl, or the list's end node, which lies in
      the cluster header just below the payload. */
  ghost predicate RegionOrTail(fl: seq<nat>, lo: nat, fr: nat) {
    fr == lo - 1 || Has(fl, fr)
  }

  /** After the source has been returned to its list as [r, e), the current free region is still
      listed, or has become part of that block. */
  lemma RegionKept(m2: seq<Cell>, heads2: set<nat>, lo: nat, hi: nat, fl2: seq<nat>, r: nat, e: nat, m3: seq<Cell>, heads3: set<nat>, fl3: seq<nat>, fr: nat)
    requires ClusterOk(m2, heads2, lo, hi, fl2) && ClusterOk(m3, heads3, lo, hi, fl3)
    requires RegionOrTail(fl2, lo, fr) && |m3| == |m2|
    requires lo <= fr < hi && fr in heads2 && Free(m2, fr) && !(r < fr < e) ==> fr in heads3 && Free(m3, fr)
    requires lo <= r < hi && r in heads3 && Free(m3, r)
    ensures RegionOrTail(fl3, lo, if r < fr < e then r else fr)
  {
    if fr != lo - 1 {
      var i :| 0 <= i < |fl2| && fl2[i] == fr;
      assert fr in FreeHeads(m2, heads2, lo, hi);
      assert r in FreeHeads(m3, heads3, lo, hi);
      assert Has(fl3, r);
      if !(r < fr < e) {
        assert fr in FreeHeads(m3, heads3, lo, hi);
        assert Has(fl3, fr);
      }
    }
  }

  /** Two memories that differ in pointers only. */
  ghost predicate SameShape(m: seq<Cell>, m': seq<Cell>) {
    && |m'| == |m|
    && (forall c {:trigger m'[c]} :: 0 <= c < |m| ==> m'[c] == m[c].(ref := m'[c].ref))
  }

  lemma ShapeKeepsHeap(m: seq<Cell>, heads: set<nat>, spans: seq<Span>, lists: seq<seq<nat>>, m': seq<Cell>)
    requires HeapOk(m, heads, spans, lists) && SameShape(m, m')
    ensures HeapOk(m', heads, spans, lists)
  {
    forall a {:trigger EndOf(m', a)} | 0 <= a ensures EndOf(m', a) == EndOf(m, a) {
      if a < |m| { assert m'[a] == m[a].(ref := m'[a].ref); }
    }
    forall a {:trigger Free(m', a)} | 0 <= a ensures Free(m', a) == Free(m, a) {
      if a < |m| { assert m'[a] == m[a].(ref := m'[a].ref); }
    }
    forall i {:trigger ClusterAt(m', heads, spans, lists, i)} | 0 <= i < |spans| ensures ClusterAt(m', heads, spans, lists, i) {
      assert ClusterAt(m, heads, spans, lists, i);
      var lo, hi := spans[i].lo, spans[i].hi;
      assert Tiled(m', heads, lo, hi);
      assert FreeHeads(m', heads, lo, hi) == FreeHeads(m, heads, lo, hi);
    }
  }

  /** A step that is about to fill the free block dst of cluster cf with the run [start, end) of
      cluster cs; x is the end of the memory that is rewritten. */
  ghost predicate Step(m: seq<Cell>, heads: set<nat>, spans: seq<Span>, lists: seq<seq<nat>>, cf: nat, k: nat, cs: nat,
                       dst: nat, start: nat, end: nat, x: nat) {
    && HeapOk(m, heads, spans, lists) && cf < |spans| && cs < |spans|
    && k < |lists[cf]| && dst == lists[cf][k]
    && MovableRun(m, heads, spans[cs].lo, spans[cs].hi, start, end)
    && CanMove(m, dst, start, end, x) && (x == end ==> cs == cf)
  }

  /** What is known once the run has been copied and the cluster of the free block is in order again. */
  ghost predicate Filled(m: seq<Cell>, heads: set<nat>, spans: seq<Span>, cs: nat, dst: nat, start: nat, end: nat, x: nat,
                         m2: seq<Cell>, heads2: set<nat>, lists2: seq<seq<nat>>) {
    && HeapOk(m2, heads2, spans, lists2)
    && RunCopied(m, heads, m2, heads2, start, end, dst, if x == end then {} else RunHeads(heads, start, end))
    && (x != end ==> StillThere(m, heads, m2, heads2, start, end))
    && (x != end && cs < |spans| && end < spans[cs].hi ==> end in heads2)
  }

  /** The free region below a block that may be moved. */
  lemma RegionFacts(m: seq<Cell>, heads: set<nat>, spans: seq<Span>, lists: seq<seq<nat>>, cf: nat, cs: nat, dst: nat, source: nat) returns (k: nat)
    requires HeapOk(m, heads, spans, lists) && cf <= cs < |spans| && Has(lists[cf], dst) && dst < source && spans[cs].lo <= source && source in heads
    ensures k < |lists[cf]| && lists[cf][k] == dst && spans[cf].lo <= dst < EndOf(m, dst) <= source && dst < |m|
    ensures Tiled(m, heads, spans[cs].lo, spans[cs].hi) && (EndOf(m, dst) == source ==> cs == cf)
    ensures 1 <= spans[cf].lo && forall i, j :: 0 <= i < j < |lists[cf]| ==> lists[cf][i] < lists[cf][j]
  {
    k :| 0 <= k < |lists[cf]| && lists[cf][k] == dst;
    assert ClusterAt(m, heads, spans, lists, cf) && ClusterAt(m, heads, spans, lists, cs);
    FreeBlockBounds(m, heads, spans[cf].lo, spans[cf].hi, lists[cf], k);
    BlocksDisjoint(m, heads, spans, lists, dst, source);
  }

  lemma StepFacts(m: seq<Cell>, heads: set<nat>, spans: seq<Span>, lists: seq<seq<nat>>, cf: nat, k: nat, cs: nat,
                  dst: nat, start: nat, end: nat, x: nat)
    requires Step(m, heads, spans, lists, cf, k, cs, dst, start, end, x)
    ensures dst in heads && Free(m, dst) && spans[cf].lo <= dst < EndOf(m, dst) <= spans[cf].hi && x <= spans[cf].hi <= |m|
    ensures 1 <= spans[cf].lo && forall i, j :: 0 <= i < j < |lists[cf]| ==> lists[cf][i] < lists[cf][j]
    ensures forall h {:trigger EndOf(m, h)} :: h in heads && !Free(m, h) ==>
              (spans[cf].lo <= h && EndOf(m, h) <= spans[cf].hi) || EndOf(m, h) <= spans[cf].lo || spans[cf].hi <= h
  {
    assert ClusterAt(m, heads, spans, lists, cf);
    FreeBlockBounds(m, heads, spans[cf].lo, spans[cf].hi, lists[cf], k);
    forall h {:trigger EndOf(m, h)} | h in heads && !Free(m, h)
      ensures (spans[cf].lo <= h && EndOf(m, h) <= spans[cf].hi) || EndOf(m, h) <= spans[cf].lo || spans[cf].hi <= h
    {
      BlocksDisjoint(m, heads, spans, lists, h, h);
    }
  }

  /** Copying: the cluster of the free block has a hole, or is in order when nothing is left over. */
  lemma StepCopied(m: seq<Cell>, heads: set<nat>, spans: seq<Span>, lists: seq<seq<nat>>, cf: nat, k: nat, cs: nat,
                   dst: nat, start: nat, end: nat, x: nat, m1: seq<Cell>, heads1: set<nat>, fl1: seq<nat>)
    requires Step(m, heads, spans, lists, cf, k, cs, dst, start, end, x)
    requires MovedDown(m, dst, start, end - start, m1) && Removed(lists[cf], k, fl1)
    requires heads1 == CopiedHeads(heads, dst, start, end, x)
    ensures var q := dst + (end - start);
      && (q < x ==> HoleOk(m1, heads1, spans[cf].lo, spans[cf].hi, fl1, q, x - q))
      && (q == x ==> ClusterOk(m1, heads1, spans[cf].lo, spans[cf].hi, fl1))
    ensures RunCopied(m, heads, m1, heads1, start, end, dst, Leftover(heads, dst, start, end, x))
  {
    if dst + (end - start) < x {
      StepHole(m, heads, spans, lists, cf, k, cs, dst, start, end, x, m1, heads1, fl1);
    } else {
      StepFull(m, heads, spans, lists, cf, k, cs, dst, start, end, x, m1, heads1, fl1);
    }
    StepFacts(m, heads, spans, lists, cf, k, cs, dst, start, end, x);
    RunIsCopied(m, heads, spans, lists, dst, cs, start, end, x, m1);
  }

  lemma StepHole(m: seq<Cell>, heads: set<nat>, spans: seq<Span>, lists: seq<seq<nat>>, cf: nat, k: nat, cs: nat,
                 dst: nat, start: nat, end: nat, x: nat, m1: seq<Cell>, heads1: set<nat>, fl1: seq<nat>)
    requires Step(m, heads, spans, lists, cf, k, cs, dst, start, end, x) && dst + (end - start) < x
    requires MovedDown(m, dst, start, end - start, m1) && Removed(lists[cf], k, fl1)
    requires heads1 == CopiedHeads(heads, dst, start, end, x)
    ensures HoleOk(m1, heads1, spans[cf].lo, spans[cf].hi, fl1, dst + (end - start), x - (dst + (end - start)))
  {
    assert ClusterAt(m, heads, spans, lists, cf);
    RunRefills(m, heads, spans, lists, cf, k, cs, start, end, x, m1, fl1);
    RefilledHole(m, heads, spans[cf].lo, spans[cf].hi, lists[cf], k, x, dst + (end - start), m1, heads1, fl1);
  }

  lemma StepFull(m: seq<Cell>, heads: set<nat>, spans: seq<Span>, lists: seq<seq<nat>>, cf: nat, k: nat, cs: nat,
                 dst: nat, start: nat, end: nat, x: nat, m1: seq<Cell>, heads1: set<nat>, fl1: seq<nat>)
    requires Step(m, heads, spans, lists, cf, k, cs, dst, start, end, x) && dst + (end - start) == x
    requires MovedDown(m, dst, start, end - start, m1) && Removed(lists[cf], k, fl1)
    requires heads1 == CopiedHeads(heads, dst, start, end, x)
    ensures ClusterOk(m1, heads1, spans[cf].lo, spans[cf].hi, fl1)
  {
    assert ClusterAt(m, heads, spans, lists, cf);
    RunRefills(m, heads, spans, lists, cf, k, cs, start, end, x, m1, fl1);
    RefilledExactly(m, heads, spans[cf].lo, spans[cf].hi, lists[cf], k, x, m1, heads1, fl1);
  }

  lemma CopiedOutside(m: seq<Cell>, heads: set<nat>, spans: seq<Span>, lists: seq<seq<nat>>, cf: nat, k: nat, cs: nat,
                      dst: nat, start: nat, end: nat, x: nat, a: nat)
    requires Step(m, heads, spans, lists, cf, k, cs, dst, start, end, x)
    requires a < dst || x <= a
    ensures a in CopiedHeads(heads, dst, start, end, x) <==> a in heads
  {
  }

  /** Nothing was left over. */
  lemma StepExact(m: seq<Cell>, heads: set<nat>, spans: seq<Span>, lists: seq<seq<nat>>, cf: nat, k: nat, cs: nat,
                  dst: nat, start: nat, end: nat, x: nat, m1: seq<Cell>, heads1: set<nat>, fl1: seq<nat>)
    requires Step(m, heads, spans, lists, cf, k, cs, dst, start, end, x) && dst + (end - start) == x
    requires MovedDown(m, dst, start, end - start, m1) && Removed(lists[cf], k, fl1)
    requires heads1 == CopiedHeads(heads, dst, start, end, x)
    ensures Filled(m, heads, spans, cs, dst, start, end, x, m1, heads1, lists[cf := fl1])
  {
    StepCopied(m, heads, spans, lists, cf, k, cs, dst, start, end, x, m1, heads1, fl1);
    StepFacts(m, heads, spans, lists, cf, k, cs, dst, start, end, x);
    forall a: nat {:trigger a in heads1} | a < dst || x <= a ensures a in heads1 <==> a in heads {
      CopiedOutside(m, heads, spans, lists, cf, k, cs, dst, start, end, x, a);
    }
    ClusterChanged(m, heads, spans, lists, cf, m1, heads1, fl1);
    assert Leftover(heads, dst, start, end, x) == RunHeads(heads, start, end);
  }

  /** The rest [q, x) has gone back to the free list. */
  lemma StepReturned(m: seq<Cell>, heads: set<nat>, spans: seq<Span>, lists: seq<seq<nat>>, cf: nat, k: nat, cs: nat,
                     dst: nat, start: nat, end: nat, x: nat, m1: seq<Cell>, heads1: set<nat>, fl1: seq<nat>,
                     q: nat, size: nat, r: nat, e: nat, m2: seq<Cell>, heads2: set<nat>, fl2: seq<nat>)
    requires Step(m, heads, spans, lists, cf, k, cs, dst, start, end, x) && q == dst + (end - start) && q + size == x && 0 < size
    requires MovedDown(m, dst, start, end - start, m1) && Removed(lists[cf], k, fl1)
    requires heads1 == CopiedHeads(heads, dst, start, end, x)
    requires RunCopied(m, heads, m1, heads1, start, end, dst, Leftover(heads, dst, start, end, x))
    requires Returned(m1, heads1, spans[cf].lo, spans[cf].hi, fl1, q, size, r, e, m2, heads2, fl2)
    ensures Filled(m, heads, spans, cs, dst, start, end, x, m2, heads2, lists[cf := fl2])
    ensures Has(fl2, r)
  {
    var lo, hi := spans[cf].lo, spans[cf].hi;
    assert r in FreeHeads(m2, heads2, lo, hi);
    StepFacts(m, heads, spans, lists, cf, k, cs, dst, start, end, x);
    forall a: nat {:trigger a in heads1} | a < dst || x <= a ensures a in heads1 <==> a in heads {
      CopiedOutside(m, heads, spans, lists, cf, k, cs, dst, start, end, x, a);
    }
    ClusterChanged(m, heads, spans, lists, cf, m2, heads2, fl2);
    HoleReturned(m, heads, start, end, dst, m1, heads1, Leftover(heads, dst, start, end, x), lo, hi, q, m2, heads2);
    if x == end {
      assert Leftover(heads, dst, start, end, x) - {q} == {};
    } else {
      assert Leftover(heads, dst, start, end, x) - {q} == RunHeads(heads, start, end);
      StepStillThere(m, heads, spans, lists, cf, k, cs, dst, start, end, x, m1, heads1, r, e, m2, heads2);
    }
  }

  /** The rest did not reach the run, whose blocks are therefore untouched. */
  lemma StepStillThere(m: seq<Cell>, heads: set<nat>, spans: seq<Span>, lists: seq<seq<nat>>, cf: nat, k: nat, cs: nat,
                       dst: nat, start: nat, end: nat, x: nat, m1: seq<Cell>, heads1: set<nat>,
                       r: nat, e: nat, m2: seq<Cell>, heads2: set<nat>)
    requires Step(m, heads, spans, lists, cf, k, cs, dst, start, end, x) && dst + (end - start) < x && x != end
    requires MovedDown(m, dst, start, end - start, m1)
    requires heads1 == CopiedHeads(heads, dst, start, end, x)
    requires spans[cf].lo <= r <= dst + (end - start) && x <= e <= spans[cf].hi
    requires e == x || Has(lists[cf], x)
    requires m2 == m1[r := SetFree(m1[r], e - r)] && heads2 == Merged(heads1, r, e)
    ensures StillThere(m, heads, m2, heads2, start, end)
    ensures end < spans[cs].hi ==> end in heads2
  {
    assert ClusterAt(m, heads, spans, lists, cf);
    assert dst in FreeHeads(m, heads, spans[cf].lo, spans[cf].hi);
    assert e == x;
    forall c {:trigger m2[c]} | start <= c < end ensures m2[c] == m[c] {
      assert m1[c] == m[c];
    }
    forall h: nat {:trigger h in heads2} | start <= h ensures h in heads2 <==> h in heads {
      CopiedOutside(m, heads, spans, lists, cf, k, cs, dst, start, end, x, h);
    }
  }

  /** The vacated run has gone back to the free list of its cluster: the move is complete. */
  lemma SourceReturned(m: seq<Cell>, heads: set<nat>, spans: seq<Span>, lists: seq<seq<nat>>, cs: nat, start: nat, end: nat, dst: nat, x: nat,
                       m2: seq<Cell>, heads2: set<nat>, lists2: seq<seq<nat>>, heads3: set<nat>, size: nat, r: nat, e: nat,
                       m4: seq<Cell>, heads4: set<nat>, fl4: seq<nat>)
    requires HeapOk(m, heads, spans, lists) && cs < |spans|
    requires spans[cs].lo <= start < end <= spans[cs].hi && size == end - start
    requires dst in heads && x == EndOf(m, dst) && dst + (end - start) <= x <= start
    requires HeapOk(m2, heads2, spans, lists2) && heads3 == Merged(heads2, start, end)
    requires RunCopied(m, heads, m2, heads3, start, end, dst, {start})
    requires Returned(m2, heads3, spans[cs].lo, spans[cs].hi, lists2[cs], start, size, r, e, m4, heads4, fl4)
    ensures HeapOk(m4, heads4, spans, lists2[cs := fl4])
    ensures RunMoved(m, heads, m4, heads4, start, end, dst)
  {
    var lo, hi := spans[cs].lo, spans[cs].hi;
    ClusterChanged(m2, heads2, spans, lists2, cs, m4, heads4, fl4);
    forall h {:trigger EndOf(m, h)} | h in heads && !Free(m, h)
      ensures (lo <= h && EndOf(m, h) <= hi) || EndOf(m, h) <= lo || hi <= h
    {
      BlocksDisjoint(m, heads, spans, lists, h, h);
    }
    BlocksDisjoint(m, heads, spans, lists, dst, dst);
    HoleReturned(m, heads, start, end, dst, m2, heads3, {start}, lo, hi, start, m4, heads4);
    assert {start} - {start} == {};
  }

  /** The free region to go on with, after the source run has become free. */
  lemma RegionAfterReturn(m2: seq<Cell>, heads2: set<nat>, spans: seq<Span>, lists2: seq<seq<nat>>, cf: nat, cs: nat, start: nat, end: nat,
                          heads3: set<nat>, size: nat, r: nat, e: nat, m4: seq<Cell>, heads4: set<nat>, fl4: seq<nat>, fr: nat)
    requires HeapOk(m2, heads2, spans, lists2) && cf <= cs < |spans|
    requires forall h {:trigger Free(m2, h)} :: start <= h < end && h in heads2 ==> !Free(m2, h)
    requires heads3 == Merged(heads2, start, end) && spans[cs].lo <= start < end <= spans[cs].hi
    requires Returned(m2, heads3, spans[cs].lo, spans[cs].hi, lists2[cs], start, size, r, e, m4, heads4, fl4)
    requires RegionOrTail(lists2[cf], spans[cf].lo, fr)
    ensures RegionOrTail(lists2[cs := fl4][cf], spans[cf].lo, if r < fr < e then r else fr)
  {
    assert ClusterAt(m2, heads2, spans, lists2, cf);
    if cf == cs {
      if spans[cs].lo <= fr < spans[cs].hi && fr in heads2 && Free(m2, fr) && !(r < fr < e) {
        assert fr in heads4;
        assert fr != r ==> m4[fr] == m2[fr];
      }
      RegionKept(m2, heads2, spans[cs].lo, spans[cs].hi, lists2[cs], r, e, m4, heads4, fl4, fr);
    } else {
      assert spans[cf].hi < spans[cs].lo;
      if fr != spans[cf].lo - 1 {
        var i :| 0 <= i < |lists2[cf]| && lists2[cf][i] == fr;
        assert fr in FreeHeads(m2, heads2, spans[cf].lo, spans[cf].hi);
      }
    }
  }

  /** A step keeps track of all objects, and the next movable block, if there is one, is still there. */
  lemma StepPlaced(m0: seq<Cell>, heads0: set<nat>, org: map<nat, nat>, done: seq<Region>, batch: seq<Region>,
                   m: seq<Cell>, heads: set<nat>, m': seq<Cell>, heads': set<nat>, start: nat, end: nat, dst: nat,
                   batch': seq<Region>, next: nat, hi: nat)
    requires Placed(m0, heads0, m, heads, org, done, done + batch) && Below(done + batch, start)
    requires RunMoved(m, heads, m', heads', start, end, dst) && end <= ADDRESS_SPACE
    requires batch' == batch + [NewRegion(start, end, dst)]
    requires end <= next <= hi && (next < hi ==> next in heads && next < |m| && !m[next].Unmovable() && !Free(m, next))
    ensures Placed(m0, heads0, m', heads', MovedOrigins(org, m', heads', start, end, dst), done, done + batch')
    ensures Below(done + batch', next)
    ensures next < hi ==> next in heads'
  {
    MoveStep(m0, heads0, m, heads, org, done, done + batch, m', heads', start, end, dst);
    assert (done + batch) + [NewRegion(start, end, dst)] == done + batch';
    if next < hi {
      assert OtherBlock(m, m', heads', start, end, dst, {}, next);
    }
  }

  /** Before compaction every block is where it is. */
  lemma NothingMoved(m0: seq<Cell>, heads0: set<nat>, spans: seq<Span>, lists: seq<seq<nat>>, org: map<nat, nat>)
    requires HeapOk(m0, heads0, spans, lists)
    requires org == map h | h in heads0 :: h
    ensures Placed(m0, heads0, m0, heads0, org, [], [])
  {
    forall a {:trigger PlacedBlock(m0, a, m0, heads0, org, [], [])} | a in heads0 && !Free(m0, a) ensures PlacedBlock(m0, a, m0, heads0, org, [], []) {
      BlocksDisjoint(m0, heads0, spans, lists, a, a);
    }
    forall b {:trigger HasOrigin(m0, heads0, org, [], b)} | b in heads0 && !Free(m0, b) ensures HasOrigin(m0, heads0, org, [], b) {}
  }
}
