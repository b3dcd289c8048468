/** What a compaction leaves: the only free blocks with something loose behind them are holes of runs that have filled
    a free block up to an unmovable one. */
module CompactionEnd {
  import opened HeapMemory
  import opened NodeList
  import opened HeapCluster
  import opened Heap
  import opened Relocation
  import opened Compaction
  import opened CompactionProgress

  /** The header of a block that never moves. */
  ghost predicate Stays(m: seq<Cell>, heads: set<nat>, u: nat) {
    u in heads && u < |m| && !Free(m, u) && m[u].Unmovable()
  }

  /** In cluster i the unmovable block u stands between the movable block b and something below that is not an
      unmovable block. */
  ghost predicate Blocked(m: seq<Cell>, heads: set<nat>, spans: seq<Span>, i: nat, h: nat, u: nat, b: nat) {
    && i < |spans| && spans[i].lo <= h < u < b < spans[i].hi
    && h in heads && !Stays(m, heads, h) && Stays(m, heads, u) && MovableHead(m, heads, b)
  }

  /** In every cluster the unmovable blocks are above all movable ones, or at the very bottom. */
  ghost predicate Orderly(m: seq<Cell>, heads: set<nat>, spans: seq<Span>) {
    forall i: nat, h: nat, u: nat, b: nat {:trigger Blocked(m, heads, spans, i, h, u, b)} :: !Blocked(m, heads, spans, i, h, u, b)
  }

  /** The free block f has nothing to offer: there is a movable block between it and fr, or the block at source is
      too large for it. */
  ghost predicate Passed(m: seq<Cell>, heads: set<nat>, f: nat, fr: nat, source: nat) {
    || (exists h: nat {:trigger MovableHead(m, heads, h)} :: f < h < fr && MovableHead(m, heads, h))
    || (MovableHead(m, heads, source) && f < source && EndOf(m, f) - f < EndOf(m, source) - source)
  }

  /** In one cluster, u never moves, b is movable and above it, and something below u is not unmovable. */
  ghost predicate Over(m: seq<Cell>, heads: set<nat>, spans: seq<Span>, u: nat, b: nat) {
    exists i: nat, h: nat {:trigger Blocked(m, heads, spans, i, h, u, b)} :: Blocked(m, heads, spans, i, h, u, b)
  }

  /** The run has been moved to a free block that it has filled up exactly: where its new place ends stands an
      unmovable block, below the run. */
  ghost predicate FilledUp(m: seq<Cell>, heads: set<nat>, spans: seq<Span>, r: Region) {
    r.start <= r.end && Over(m, heads, spans, r.destination + (r.end - r.start), r.start)
  }

  /** The places that such runs have left. */
  ghost function Holes(m: seq<Cell>, heads: set<nat>, spans: seq<Span>, all: seq<Region>): set<Span> {
    set i | 0 <= i < |all| && FilledUp(m, heads, spans, all[i]) :: Span(all[i].start, all[i].end)
  }

  /** The block at f lies in one of the holes. */
  ghost predicate InHole(m: seq<Cell>, holes: set<Span>, f: nat) {
    exists s {:trigger s in holes} :: s in holes && s.lo <= f && EndOf(m, f) <= s.hi
  }

  /** The pass stands at source, in the cluster that starts at lo, and at the free block fr: what is loose is still
      ahead of both, or has been left behind with a hole. */
  ghost predicate Tidy(m: seq<Cell>, heads: set<nat>, holes: set<Span>, lo: nat, fr: nat, source: nat) {
    && (forall f: nat, b: nat {:trigger Loose(m, heads, f, b)} :: Loose(m, heads, f, b) ==>
          (fr != NULL && fr <= f && source <= b) || InHole(m, holes, f))
    && (fr != NULL ==> forall f: nat {:trigger Free(m, f)} :: f in heads && Free(m, f) && f < fr ==>
          Passed(m, heads, f, fr, source) || InHole(m, holes, f))
    && (fr != NULL ==> forall h: nat {:trigger MovableHead(m, heads, h)} :: lo <= h && fr < h < source ==> !MovableHead(m, heads, h))
  }

  lemma HolesGrow(m: seq<Cell>, heads: set<nat>, spans: seq<Span>, all: seq<Region>, r: Region)
    ensures Holes(m, heads, spans, all) <= Holes(m, heads, spans, all + [r])
    ensures FilledUp(m, heads, spans, r) ==> Span(r.start, r.end) in Holes(m, heads, spans, all + [r])
  {
    var more := all + [r];
    forall s | s in Holes(m, heads, spans, all) ensures s in Holes(m, heads, spans, more) {
      var i :| 0 <= i < |all| && FilledUp(m, heads, spans, all[i]) && s == Span(all[i].start, all[i].end);
      assert more[i] == all[i];
    }
    assert more[|all|] == r;
  }

  lemma OrderlyNoHoles(m: seq<Cell>, heads: set<nat>, spans: seq<Span>, all: seq<Region>)
    requires Orderly(m, heads, spans)
    ensures Holes(m, heads, spans, all) == {}
  {
  }

  // Tilings.

  /** Every address at which a block may end is the end of one. */
  lemma Predecessor(m: seq<Cell>, heads: set<nat>, lo: nat, hi: nat, a: nat, e: nat) returns (p: nat)
    requires Tiled(m, heads, lo, hi) && a in heads && lo <= a < e <= hi && (e < hi ==> e in heads)
    ensures a <= p < e && p in heads && EndOf(m, p) == e
    decreases e - a
  {
    assert EndOf(m, a) <= e;
    if EndOf(m, a) == e { p := a; } else { p := Predecessor(m, heads, lo, hi, EndOf(m, a), e); }
  }

  /** Every address of a payload belongs to a block. */
  lemma Covering(m: seq<Cell>, heads: set<nat>, lo: nat, hi: nat, a: nat, c: nat) returns (g: nat)
    requires Tiled(m, heads, lo, hi) && a in heads && lo <= a <= c < hi
    ensures a <= g <= c < EndOf(m, g) && g in heads
    decreases c - a
  {
    if c < EndOf(m, a) { g := a; } else {
      assert a < EndOf(m, a);
      g := Covering(m, heads, lo, hi, EndOf(m, a), c);
    }
  }

  lemma SpanOrder(spans: seq<Span>, i: nat, j: nat)
    requires Ordered(spans) && i < |spans| && j < |spans|
    ensures i < j ==> spans[i].hi < spans[j].lo
    ensures j < i ==> spans[j].hi < spans[i].lo
  {
  }

  // What a move does to single blocks.

  /** Used blocks outside the run and its new place are the same before and after. */
  lemma UsedBefore(m: seq<Cell>, heads: set<nat>, m': seq<Cell>, heads': set<nat>, start: nat, end: nat, dst: nat, h: nat)
    requires RunMoved(m, heads, m', heads', start, end, dst)
    requires h in heads' && !Free(m', h) && !(dst <= h < dst + (end - start))
    ensures h in heads && h < |m| && !Free(m, h) && !(start <= h < end) && m'[h] == m[h] && EndOf(m', h) == EndOf(m, h)
  {
    assert Sourced(m, heads, start, end, dst, h);
    assert OtherBlock(m, m', heads', start, end, dst, {}, h);
  }

  lemma UsedAfter(m: seq<Cell>, heads: set<nat>, m': seq<Cell>, heads': set<nat>, start: nat, end: nat, dst: nat, h: nat)
    requires RunMoved(m, heads, m', heads', start, end, dst)
    requires h in heads && !Free(m, h) && !(start <= h < end)
    ensures h in heads' && h < |m| && m'[h] == m[h] && !Free(m', h) && EndOf(m', h) == EndOf(m, h)
    ensures EndOf(m, h) <= dst || dst + (end - start) <= h
  {
    assert OtherBlock(m, m', heads', start, end, dst, {}, h);
  }

  /** The new place of the run is in use. */
  lemma ImageUsed(m: seq<Cell>, heads: set<nat>, m': seq<Cell>, heads': set<nat>, start: nat, end: nat, dst: nat, lo: nat, hi: nat,
                  fl': seq<nat>, lo0: nat, hi0: nat, junk: set<nat>, h: nat)
    requires Tiled(m, heads, lo0, hi0) && lo0 <= start < end <= hi0 && start in heads && (end < hi0 ==> end in heads)
    requires ClusterOk(m', heads', lo, hi, fl') && RunCopied(m, heads, m', heads', start, end, dst, junk)
    requires h in heads' && lo <= h < hi && dst <= h < dst + (end - start) && lo <= dst
    ensures !Free(m', h) && EndOf(m', h) <= dst + (end - start)
  {
    var g := Covering(m, heads, lo0, hi0, start, h + (start - dst));
    assert g < end;
    assert RunBlock(m, m', heads', start, end, dst, junk, g);
    var b := dst + (g - start);
    assert m'[b] == m[b + (start - dst)];
    assert EndOf(m', b) == b + (EndOf(m, g) - g);
    assert b <= h < EndOf(m', b);
  }

  lemma RunEnds(m: seq<Cell>, heads: set<nat>, m': seq<Cell>, heads': set<nat>, start: nat, end: nat, dst: nat, h: nat)
    requires RunMoved(m, heads, m', heads', start, end, dst) && h in heads && start <= h < end
    ensures !Free(m, h) && EndOf(m, h) <= end && dst + (h - start) in heads' && h < |m| && dst + (h - start) < |m'|
    ensures m'[dst + (h - start)] == m[h] && MovableHead(m, heads, h)
  {
    assert RunBlock(m, m', heads', start, end, dst, {}, h);
    var b := dst + (h - start);
    assert m'[b] == m[b + (start - dst)];
  }

  /** What a free block after the move covers was not used by another block than those of the run. */
  lemma CoverFree(m: seq<Cell>, heads: set<nat>, m': seq<Cell>, heads': set<nat>, start: nat, end: nat, dst: nat, lo: nat, hi: nat,
                  fl': seq<nat>, f: nat, g: nat)
    requires ClusterOk(m', heads', lo, hi, fl') && RunMoved(m, heads, m', heads', start, end, dst)
    requires f in heads' && Free(m', f) && lo <= g <= f < hi && g in heads && g <= f < EndOf(m, g)
    requires EndOf(m', f) <= start || end <= f
    ensures Free(m, g)
  {
    assert f < EndOf(m', f);
    if start <= g < end {
      RunEnds(m, heads, m', heads', start, end, dst, g);
    } else if !Free(m, g) {
      UsedAfter(m, heads, m', heads', start, end, dst, g);
    }
  }

  lemma FreeStart(m: seq<Cell>, heads: set<nat>, m': seq<Cell>, heads': set<nat>, start: nat, end: nat, dst: nat, lo: nat, hi: nat,
                  fl: seq<nat>, fl': seq<nat>, f: nat, g: nat, lo0: nat, hi0: nat)
    requires ClusterOk(m, heads, lo, hi, fl) && ClusterOk(m', heads', lo, hi, fl') && RunMoved(m, heads, m', heads', start, end, dst)
    requires Tiled(m, heads, lo0, hi0) && lo0 <= start < end <= hi0 && start in heads && (end < hi0 ==> end in heads)
    requires f in heads' && Free(m', f) && f < hi && f != dst + (end - start) && (lo <= dst || hi <= dst || dst + (end - start) <= lo)
    requires lo <= g <= f < EndOf(m, g) && g in heads && Free(m, g)
    ensures g == f
  {
    if g < f {
      var p := Predecessor(m', heads', lo, hi, lo, f);
      assert !Free(m', p);
      if dst <= p < dst + (end - start) {
        ImageUsed(m, heads, m', heads', start, end, dst, lo, hi, fl', lo0, hi0, {}, p);
        ImageUsed(m, heads, m', heads', start, end, dst, lo, hi, fl', lo0, hi0, {}, f);
      } else {
        UsedBefore(m, heads, m', heads', start, end, dst, p);
      }
    }
  }

  lemma FreeEnd(m: seq<Cell>, heads: set<nat>, m': seq<Cell>, heads': set<nat>, start: nat, end: nat, dst: nat, lo: nat, hi: nat,
                fl: seq<nat>, fl': seq<nat>, f: nat)
    requires ClusterOk(m, heads, lo, hi, fl) && ClusterOk(m', heads', lo, hi, fl') && RunMoved(m, heads, m', heads', start, end, dst)
    requires f in heads' && Free(m', f) && lo <= f < hi && f in heads && Free(m, f)
    requires dst in heads && dst in heads' && !(dst <= f < dst + (end - start))
    requires EndOf(m', f) <= start || end <= f
    ensures EndOf(m, f) == EndOf(m', f)
  {
    var e, e' := EndOf(m, f), EndOf(m', f);
    if e < e' {
      UsedAfter(m, heads, m', heads', start, end, dst, e);
    } else if e' < e && !(dst <= e' < dst + (end - start)) {
      UsedBefore(m, heads, m', heads', start, end, dst, e');
    }
  }

  /** A free block that does not touch the vacated run is one from before the move. */
  lemma FreeBefore(m: seq<Cell>, heads: set<nat>, m': seq<Cell>, heads': set<nat>, start: nat, end: nat, dst: nat, lo: nat, hi: nat,
                   fl: seq<nat>, fl': seq<nat>, f: nat, lo0: nat, hi0: nat)
    requires ClusterOk(m, heads, lo, hi, fl) && ClusterOk(m', heads', lo, hi, fl') && RunMoved(m, heads, m', heads', start, end, dst)
    requires Tiled(m, heads, lo0, hi0) && lo0 <= start < end <= hi0 && start in heads && (end < hi0 ==> end in heads)
    requires f in heads' && Free(m', f) && lo <= f < hi && f != dst + (end - start)
    requires dst in heads && (lo <= dst || hi <= dst || dst + (end - start) <= lo)
    requires EndOf(m', f) <= start || end <= f
    ensures f in heads && Free(m, f) && EndOf(m, f) == EndOf(m', f)
  {
    var g := Covering(m, heads, lo, hi, lo, f);
    CoverFree(m, heads, m', heads', start, end, dst, lo, hi, fl', f, g);
    FreeStart(m, heads, m', heads', start, end, dst, lo, hi, fl, fl', f, g, lo0, hi0);
    RunEnds(m, heads, m', heads', start, end, dst, start);
    if dst <= f < dst + (end - start) { ImageUsed(m, heads, m', heads', start, end, dst, lo, hi, fl', lo0, hi0, {}, f); }
    FreeEnd(m, heads, m', heads', start, end, dst, lo, hi, fl, fl', f);
  }

  // A whole round.

  /** A round at the free block dst of cluster cf, which ends at x if it does not touch the run, and the run
      [start, end) of cluster cs; after it the pass goes on at source. */
  ghost predicate Round(m: seq<Cell>, heads: set<nat>, spans: seq<Span>, lists: seq<seq<nat>>, cf: nat, cs: nat, dst: nat, start: nat, end: nat, source: nat,
                        m': seq<Cell>, heads': set<nat>, lists': seq<seq<nat>>) {
    && HeapOk(m, heads, spans, lists) && HeapOk(m', heads', spans, lists') && cf <= cs < |spans|
    && RunMoved(m, heads, m', heads', start, end, dst)
    && dst in heads && Free(m, dst) && spans[cf].lo <= dst < spans[cf].hi
    && spans[cs].lo <= start < end <= source <= spans[cs].hi && start in heads && (end < spans[cs].hi ==> end in heads)
    && (EndOf(m, dst) == start ==> cf == cs) && (EndOf(m, dst) != start ==> dst + (end - start) <= EndOf(m, dst) < start)
    && (forall h: nat {:trigger MovableHead(m, heads, h)} :: end <= h < source ==> !MovableHead(m, heads, h))
  }

  /** A free block of the new heap, wherever it is. */
  lemma RoundFree(m: seq<Cell>, heads: set<nat>, spans: seq<Span>, lists: seq<seq<nat>>, cf: nat, cs: nat, dst: nat, start: nat, end: nat, source: nat,
                  m': seq<Cell>, heads': set<nat>, lists': seq<seq<nat>>, f: nat)
    requires Round(m, heads, spans, lists, cf, cs, dst, start, end, source, m', heads', lists')
    requires f in heads' && Free(m', f) && f != dst + (end - start)
    requires EndOf(m', f) <= start || end <= f
    ensures f in heads && Free(m, f) && EndOf(m, f) == EndOf(m', f)
  {
    var j, i := FreeInList(m', heads', spans, lists', f);
    assert ClusterAt(m, heads, spans, lists, cs) && ClusterAt(m, heads, spans, lists, cf);
    assert ClusterAt(m, heads, spans, lists, j) && ClusterAt(m', heads', spans, lists', j);
    SpanOrder(spans, j, cf);
    RoundEnds(m, heads, spans, lists, cf, cs, dst, start, end, source, m', heads', lists');
    FreeBefore(m, heads, m', heads', start, end, dst, spans[j].lo, spans[j].hi, lists[j], lists'[j], f, spans[cs].lo, spans[cs].hi);
  }

  lemma RoundEnds(m: seq<Cell>, heads: set<nat>, spans: seq<Span>, lists: seq<seq<nat>>, cf: nat, cs: nat, dst: nat, start: nat, end: nat, source: nat,
                  m': seq<Cell>, heads': set<nat>, lists': seq<seq<nat>>)
    requires Round(m, heads, spans, lists, cf, cs, dst, start, end, source, m', heads', lists')
    ensures dst + (end - start) <= spans[cf].hi && dst < start && dst != NULL
    ensures dst in heads' && !Free(m', dst) && dst < |m'| && start < |m| && m'[dst] == m[start] && MovableHead(m', heads', dst)
  {
    assert ClusterAt(m, heads, spans, lists, cf);
    RunEnds(m, heads, m', heads', start, end, dst, start);
  }

  /** Movable blocks outside the run are those of the new heap outside its new place. */
  lemma RoundMovable(m: seq<Cell>, heads: set<nat>, spans: seq<Span>, lists: seq<seq<nat>>, cf: nat, cs: nat, dst: nat, start: nat, end: nat, source: nat,
                     m': seq<Cell>, heads': set<nat>, lists': seq<seq<nat>>, h: nat)
    requires Round(m, heads, spans, lists, cf, cs, dst, start, end, source, m', heads', lists')
    ensures MovableHead(m, heads, h) && !(start <= h < end) ==> MovableHead(m', heads', h) && EndOf(m', h) == EndOf(m, h)
    ensures MovableHead(m', heads', h) && !(dst <= h < dst + (end - start)) ==>
      MovableHead(m, heads, h) && !(start <= h < end) && EndOf(m', h) == EndOf(m, h)
  {
    if h in heads && Free(m, h) {
      var j, i := FreeInList(m, heads, spans, lists, h);
      assert ClusterAt(m, heads, spans, lists, j);
    }
    if h in heads' && Free(m', h) {
      var j, i := FreeInList(m', heads', spans, lists', h);
      assert ClusterAt(m', heads', spans, lists', j);
    }
    if h in heads && !Free(m, h) && !(start <= h < end) { UsedAfter(m, heads, m', heads', start, end, dst, h); }
    if h in heads' && !Free(m', h) && !(dst <= h < dst + (end - start)) { UsedBefore(m, heads, m', heads', start, end, dst, h); }
  }

  lemma BelowLoose(m: seq<Cell>, heads: set<nat>, spans: seq<Span>, lists: seq<seq<nat>>, cf: nat, cs: nat, dst: nat, start: nat, end: nat, source: nat,
                   m': seq<Cell>, heads': set<nat>, lists': seq<seq<nat>>, f: nat, b: nat)
    requires Round(m, heads, spans, lists, cf, cs, dst, start, end, source, m', heads', lists')
    requires Loose(m', heads', f, b) && f < dst
    ensures f in heads && Free(m, f) && EndOf(m, f) == EndOf(m', f) < dst && b <= dst
    ensures b < dst ==> Loose(m, heads, f, b)
    ensures forall h: nat {:trigger MovableHead(m, heads, h)} :: f < h < b ==> !MovableHead(m, heads, h)
    ensures b == dst ==> EndOf(m, start) - start <= EndOf(m, f) - f
  {
    RoundEnds(m, heads, spans, lists, cf, cs, dst, start, end, source, m', heads', lists');
    HeadApart(m', heads', spans, lists', f, dst);
    RoundFree(m, heads, spans, lists, cf, cs, dst, start, end, source, m', heads', lists', f);
    HeadApart(m, heads, spans, lists, f, dst);
    NoTwoFree(m, heads, spans, lists, f, dst);
    RoundMovable(m, heads, spans, lists, cf, cs, dst, start, end, source, m', heads', lists', b);
    forall h: nat {:trigger MovableHead(m, heads, h)} | f < h < b ensures !MovableHead(m, heads, h) {
      RoundMovable(m, heads, spans, lists, cf, cs, dst, start, end, source, m', heads', lists', h);
    }
  }

  lemma HeadApart(m: seq<Cell>, heads: set<nat>, spans: seq<Span>, lists: seq<seq<nat>>, a: nat, b: nat)
    requires HeapOk(m, heads, spans, lists) && a in heads && b in heads && a < b
    ensures a < EndOf(m, a) <= b
  {
    BlocksDisjoint(m, heads, spans, lists, a, b);
  }

  lemma NoTwoFree(m: seq<Cell>, heads: set<nat>, spans: seq<Span>, lists: seq<seq<nat>>, a: nat, b: nat)
    requires HeapOk(m, heads, spans, lists) && a in heads && Free(m, a) && b in heads && Free(m, b)
    ensures EndOf(m, a) != b
  {
    var j, i := FreeInList(m, heads, spans, lists, a);
    var l, k := FreeInList(m, heads, spans, lists, b);
    assert ClusterAt(m, heads, spans, lists, j);
    SpanOrder(spans, j, l);
  }

  /** Below dst nothing becomes loose but behind a hole. */
  lemma RoundBelow(m: seq<Cell>, heads: set<nat>, holes: set<Span>, spans: seq<Span>, lists: seq<seq<nat>>, cf: nat, cs: nat, dst: nat, start: nat, end: nat, source: nat,
                   m': seq<Cell>, heads': set<nat>, lists': seq<seq<nat>>, f: nat, b: nat)
    requires Round(m, heads, spans, lists, cf, cs, dst, start, end, source, m', heads', lists')
    requires Tidy(m, heads, holes, spans[cs].lo, dst, start) && f < dst
    ensures Loose(m', heads', f, b) ==> InHole(m', holes, f)
  {
    if Loose(m', heads', f, b) {
      BelowLoose(m, heads, spans, lists, cf, cs, dst, start, end, source, m', heads', lists', f, b);
    }
  }

  lemma RoundImage(m: seq<Cell>, heads: set<nat>, spans: seq<Span>, lists: seq<seq<nat>>, cf: nat, cs: nat, dst: nat, start: nat, end: nat, source: nat,
                   m': seq<Cell>, heads': set<nat>, lists': seq<seq<nat>>, f: nat)
    requires Round(m, heads, spans, lists, cf, cs, dst, start, end, source, m', heads', lists')
    requires f in heads' && dst <= f < dst + (end - start)
    ensures !Free(m', f)
  {
    RoundEnds(m, heads, spans, lists, cf, cs, dst, start, end, source, m', heads', lists');
    assert ClusterAt(m, heads, spans, lists, cs) && ClusterAt(m', heads', spans, lists', cf);
    ImageUsed(m, heads, m', heads', start, end, dst, spans[cf].lo, spans[cf].hi, lists'[cf], spans[cs].lo, spans[cs].hi, {}, f);
  }

  /** What is left of the free block ends where it did. */
  lemma RestEnds(m: seq<Cell>, heads: set<nat>, spans: seq<Span>, lists: seq<seq<nat>>, cf: nat, cs: nat, dst: nat, start: nat, end: nat, source: nat,
                 m': seq<Cell>, heads': set<nat>, lists': seq<seq<nat>>)
    requires Round(m, heads, spans, lists, cf, cs, dst, start, end, source, m', heads', lists')
    requires EndOf(m, dst) != start && dst + (end - start) in heads' && Free(m', dst + (end - start))
    ensures dst + (end - start) < EndOf(m, dst) && EndOf(m', dst + (end - start)) <= EndOf(m, dst)
  {
    var q, x := dst + (end - start), EndOf(m, dst);
    assert ClusterAt(m, heads, spans, lists, cf) && ClusterAt(m', heads', spans, lists', cf);
    var j, i := FreeInList(m', heads', spans, lists', q);
    SpanOrder(spans, cf, j);
    if x < spans[cf].hi { UsedAfter(m, heads, m', heads', start, end, dst, x); }
  }

  lemma RestLoose(m: seq<Cell>, heads: set<nat>, spans: seq<Span>, lists: seq<seq<nat>>, cf: nat, cs: nat, dst: nat, start: nat, end: nat, source: nat,
                  m': seq<Cell>, heads': set<nat>, lists': seq<seq<nat>>, b: nat)
    requires Round(m, heads, spans, lists, cf, cs, dst, start, end, source, m', heads', lists')
    requires EndOf(m, dst) != start && Loose(m', heads', dst + (end - start), b) && b < start
    ensures Loose(m, heads, dst, b)
  {
    RestEnds(m, heads, spans, lists, cf, cs, dst, start, end, source, m', heads', lists');
    RoundMovable(m, heads, spans, lists, cf, cs, dst, start, end, source, m', heads', lists', b);
    HeadApart(m, heads, spans, lists, dst, b);
    HeadApart(m', heads', spans, lists', dst + (end - start), b);
    forall h: nat {:trigger MovableHead(m, heads, h)} | dst < h < b ensures !MovableHead(m, heads, h) {
      if h in heads { HeadApart(m, heads, spans, lists, dst, h); }
      RoundMovable(m, heads, spans, lists, cf, cs, dst, start, end, source, m', heads', lists', h);
    }
  }

  /** What is loose above dst and before source was so before the round. */
  lemma AboveLoose(m: seq<Cell>, heads: set<nat>, spans: seq<Span>, lists: seq<seq<nat>>, cf: nat, cs: nat, dst: nat, start: nat, end: nat, source: nat,
                   m': seq<Cell>, heads': set<nat>, lists': seq<seq<nat>>, f: nat, b: nat)
    requires Round(m, heads, spans, lists, cf, cs, dst, start, end, source, m', heads', lists')
    requires Loose(m', heads', f, b) && dst <= f && b < source
    ensures b < start
    ensures (Loose(m, heads, dst, b) && dst <= f && EndOf(m', f) <= EndOf(m, dst)) || (Loose(m, heads, f, b) && EndOf(m', f) == EndOf(m, f))
  {
    if f < dst + (end - start) { RoundImage(m, heads, spans, lists, cf, cs, dst, start, end, source, m', heads', lists', f); }
    RoundMovable(m, heads, spans, lists, cf, cs, dst, start, end, source, m', heads', lists', b);
    HeadApart(m', heads', spans, lists', f, b);
    HeadApart(m, heads, spans, lists, dst, b);
    if f == dst + (end - start) {
      RestEnds(m, heads, spans, lists, cf, cs, dst, start, end, source, m', heads', lists');
      RestLoose(m, heads, spans, lists, cf, cs, dst, start, end, source, m', heads', lists', b);
    } else {
      RoundFree(m, heads, spans, lists, cf, cs, dst, start, end, source, m', heads', lists', f);
      forall h: nat {:trigger MovableHead(m, heads, h)} | f < h < b ensures !MovableHead(m, heads, h) {
        RoundMovable(m, heads, spans, lists, cf, cs, dst, start, end, source, m', heads', lists', h);
      }
    }
  }

  /** The run has filled the free block exactly. */
  ghost predicate Full(m: seq<Cell>, dst: nat, start: nat, end: nat) {
    EndOf(m, dst) != start && EndOf(m, dst) == dst + (end - start)
  }

  /** The free block to go on with: what is left of dst, else the next one of the list fl, unless it has become part
      of a lower one; or the list's end node. */
  ghost predicate Continues(m: seq<Cell>, dst: nat, start: nat, end: nat, fl: seq<nat>, fl': seq<nat>, lo: nat, near: nat) {
    if Full(m, dst, start, end) then
      && (forall i :: 0 <= i < |fl| ==> fl[i] <= dst || (near + 1 != lo && near <= fl[i]))
      && (near + 1 == lo <==> forall i :: 0 <= i < |fl| ==> fl[i] <= dst)
      && (near + 1 == lo || (dst < near && Has(fl', near)))
    else near == dst + (end - start) && Has(fl', near)
  }

  /** The same over all clusters: behind the end node the lowest free block of the later clusters is next. */
  ghost predicate GoesOn(spans: seq<Span>, lists': seq<seq<nat>>, cf: nat, near: nat, cf': nat, fr: nat) {
    cf < |spans| && if near + 1 == spans[cf].lo then LowestFree(spans, lists', cf + 1, cf', fr) else fr == near
  }

  lemma NextIn(m: seq<Cell>, heads: set<nat>, spans: seq<Span>, lists: seq<seq<nat>>, cf: nat, cs: nat, dst: nat, start: nat, end: nat, source: nat,
               m': seq<Cell>, heads': set<nat>, lists': seq<seq<nat>>, f: nat)
    requires Round(m, heads, spans, lists, cf, cs, dst, start, end, source, m', heads', lists')
    requires f in heads' && Free(m', f) && dst < f && spans[cf].lo <= f < spans[cf].hi && f != dst + (end - start)
    requires EndOf(m', f) <= start || end <= f
    ensures exists i :: 0 <= i < |lists[cf]| && lists[cf][i] == f
  {
    RoundFree(m, heads, spans, lists, cf, cs, dst, start, end, source, m', heads', lists', f);
    var j, i := FreeInList(m, heads, spans, lists, f);
    SpanOrder(spans, j, cf);
  }

  lemma RoundAhead(m: seq<Cell>, heads: set<nat>, spans: seq<Span>, lists: seq<seq<nat>>, cf: nat, cs: nat, dst: nat, start: nat, end: nat, source: nat,
                   m': seq<Cell>, heads': set<nat>, lists': seq<seq<nat>>, near: nat, cf': nat, fr: nat)
    requires Round(m, heads, spans, lists, cf, cs, dst, start, end, source, m', heads', lists')
    requires Continues(m, dst, start, end, lists[cf], lists'[cf], spans[cf].lo, near) && GoesOn(spans, lists', cf, near, cf', fr)
    ensures fr != NULL ==> dst + (end - start) <= fr && (near + 1 != spans[cf].lo ==> fr == near < spans[cf].hi)
    ensures !Full(m, dst, start, end) ==> fr == dst + (end - start)
  {
    RoundEnds(m, heads, spans, lists, cf, cs, dst, start, end, source, m', heads', lists');
    assert ClusterAt(m, heads, spans, lists, cf);
    if near + 1 != spans[cf].lo || !Full(m, dst, start, end) {
      NextInCluster(m', heads', spans, lists', cf, near);
      if near < dst + (end - start) { RoundImage(m, heads, spans, lists, cf, cs, dst, start, end, source, m', heads', lists', near); }
    } else if fr != NULL {
      assert spans[cf].hi < spans[cf'].lo;
    }
  }

  lemma PassedFar(m: seq<Cell>, heads: set<nat>, spans: seq<Span>, lists: seq<seq<nat>>, cf: nat, cs: nat, dst: nat, start: nat, end: nat, source: nat,
                  m': seq<Cell>, heads': set<nat>, lists': seq<seq<nat>>, near: nat, cf': nat, fr: nat, f: nat)
    requires Round(m, heads, spans, lists, cf, cs, dst, start, end, source, m', heads', lists')
    requires Continues(m, dst, start, end, lists[cf], lists'[cf], spans[cf].lo, near) && GoesOn(spans, lists', cf, near, cf', fr)
    requires f in heads' && Free(m', f) && dst < f && f != dst + (end - start) && cf < cs && Full(m, dst, start, end)
    ensures fr != NULL && fr <= f
  {
    RoundAhead(m, heads, spans, lists, cf, cs, dst, start, end, source, m', heads', lists', near, cf', fr);
    var j, k := FreeInList(m', heads', spans, lists', f);
    assert ClusterAt(m', heads', spans, lists', j);
    SpanOrder(spans, j, cf);
    assert spans[cf].hi < spans[cs].lo;
    if j == cf {
      NextIn(m, heads, spans, lists, cf, cs, dst, start, end, source, m', heads', lists', f);
    } else if near + 1 == spans[cf].lo {
      assert cf + 1 < j ==> spans[cf + 1].hi < spans[j].lo;
      NoneLower(m', heads', spans, lists', cf + 1, cf', fr, f);
    } else {
      NextInCluster(m', heads', spans, lists', cf, near);
    }
  }

  /** A free block that is passed over can only be the hole the run has left, in the cluster of dst. */
  lemma RoundPassed(m: seq<Cell>, heads: set<nat>, spans: seq<Span>, lists: seq<seq<nat>>, cf: nat, cs: nat, dst: nat, start: nat, end: nat, source: nat,
                    m': seq<Cell>, heads': set<nat>, lists': seq<seq<nat>>, near: nat, cf': nat, fr: nat, f: nat)
    requires Round(m, heads, spans, lists, cf, cs, dst, start, end, source, m', heads', lists')
    requires Continues(m, dst, start, end, lists[cf], lists'[cf], spans[cf].lo, near) && GoesOn(spans, lists', cf, near, cf', fr)
    requires f in heads' && Free(m', f) && dst <= f && (fr == NULL || f < fr)
    ensures Full(m, dst, start, end) && cf == cs
  {
    RoundAhead(m, heads, spans, lists, cf, cs, dst, start, end, source, m', heads', lists', near, cf', fr);
    if f < dst + (end - start) { RoundImage(m, heads, spans, lists, cf, cs, dst, start, end, source, m', heads', lists', f); }
    if Full(m, dst, start, end) && f == dst + (end - start) { RestEnds(m, heads, spans, lists, cf, cs, dst, start, end, source, m', heads', lists'); }
    if Full(m, dst, start, end) && cf < cs {
      PassedFar(m, heads, spans, lists, cf, cs, dst, start, end, source, m', heads', lists', near, cf', fr, f);
    }
  }

  /** No free block in front of the hole is passed over with it. */
  lemma HoleStarts(m: seq<Cell>, heads: set<nat>, spans: seq<Span>, lists: seq<seq<nat>>, cf: nat, cs: nat, dst: nat, start: nat, end: nat, source: nat,
                  m': seq<Cell>, heads': set<nat>, lists': seq<seq<nat>>, near: nat, cf': nat, fr: nat, f: nat)
    requires Round(m, heads, spans, lists, cf, cs, dst, start, end, source, m', heads', lists')
    requires Continues(m, dst, start, end, lists[cf], lists'[cf], spans[cf].lo, near) && GoesOn(spans, lists', cf, near, cf', fr)
    requires f in heads' && Free(m', f) && dst <= f && (fr == NULL || f < fr) && Full(m, dst, start, end) && cf == cs
    ensures start <= f
  {
    RoundAhead(m, heads, spans, lists, cf, cs, dst, start, end, source, m', heads', lists', near, cf', fr);
    if f < start {
      if f < dst + (end - start) { RoundImage(m, heads, spans, lists, cf, cs, dst, start, end, source, m', heads', lists', f); }
      if f == dst + (end - start) { RestEnds(m, heads, spans, lists, cf, cs, dst, start, end, source, m', heads', lists'); }
      assert ClusterAt(m, heads, spans, lists, cs);
      var g := Covering(m, heads, spans[cs].lo, spans[cs].hi, dst, f);
      if !Free(m, g) {
        UsedAfter(m, heads, m', heads', start, end, dst, g);
        if g < f { HeadApart(m', heads', spans, lists', g, f); }
      } else {
        var j, i := FreeInList(m, heads, spans, lists, g);
        SpanOrder(spans, j, cf);
      }
    }
  }

  /** Nor one behind it. */
  lemma HoleEnds(m: seq<Cell>, heads: set<nat>, spans: seq<Span>, lists: seq<seq<nat>>, cf: nat, cs: nat, dst: nat, start: nat, end: nat, source: nat,
                  m': seq<Cell>, heads': set<nat>, lists': seq<seq<nat>>, near: nat, cf': nat, fr: nat, f: nat)
    requires Round(m, heads, spans, lists, cf, cs, dst, start, end, source, m', heads', lists')
    requires Continues(m, dst, start, end, lists[cf], lists'[cf], spans[cf].lo, near) && GoesOn(spans, lists', cf, near, cf', fr)
    requires f in heads' && Free(m', f) && dst <= f && (fr == NULL || f < fr) && Full(m, dst, start, end) && cf == cs
    ensures f < end && EndOf(m', f) <= end
  {
    RoundAhead(m, heads, spans, lists, cf, cs, dst, start, end, source, m', heads', lists', near, cf', fr);
    HoleStarts(m, heads, spans, lists, cf, cs, dst, start, end, source, m', heads', lists', near, cf', fr, f);
    PassedNear(m, heads, spans, lists, cf, cs, dst, start, end, source, m', heads', lists', near, cf', fr, f);
    if end < spans[cs].hi {
      if !Free(m, end) {
        UsedAfter(m, heads, m', heads', start, end, dst, end);
        HeadApart(m', heads', spans, lists', f, end);
      } else {
        var j, i := FreeInList(m, heads, spans, lists, end);
        SpanOrder(spans, j, cf);
        NextInCluster(m', heads', spans, lists', cf, near);
        HeadApart(m', heads', spans, lists', f, near);
      }
    } else {
      var j, i := FreeInList(m', heads', spans, lists', f);
      assert ClusterAt(m', heads', spans, lists', j);
      SpanOrder(spans, j, cs);
    }
  }

  lemma PassedNear(m: seq<Cell>, heads: set<nat>, spans: seq<Span>, lists: seq<seq<nat>>, cf: nat, cs: nat, dst: nat, start: nat, end: nat, source: nat,
                  m': seq<Cell>, heads': set<nat>, lists': seq<seq<nat>>, near: nat, cf': nat, fr: nat, f: nat)
    requires Round(m, heads, spans, lists, cf, cs, dst, start, end, source, m', heads', lists')
    requires Continues(m, dst, start, end, lists[cf], lists'[cf], spans[cf].lo, near) && GoesOn(spans, lists', cf, near, cf', fr)
    requires f in heads' && Free(m', f) && start <= f && (fr == NULL || f < fr) && Full(m, dst, start, end) && cf == cs
    ensures f < end
  {
    RoundAhead(m, heads, spans, lists, cf, cs, dst, start, end, source, m', heads', lists', near, cf', fr);
    if end <= f {
      RoundFree(m, heads, spans, lists, cf, cs, dst, start, end, source, m', heads', lists', f);
      var j, i := FreeInList(m', heads', spans, lists', f);
      assert ClusterAt(m', heads', spans, lists', j);
      SpanOrder(spans, j, cf);
      if j == cf {
        NextIn(m, heads, spans, lists, cf, cs, dst, start, end, source, m', heads', lists', f);
      } else if near + 1 == spans[cf].lo {
        SpanOrder(spans, cf + 1, j);
        NoneLower(m', heads', spans, lists', cf + 1, cf', fr, f);
      } else {
        NextInCluster(m', heads', spans, lists', cf, near);
      }
    }
  }

  /** A round keeps the heap tidy; the hole it leaves counts if it fills a free block of its own cluster exactly. */
  lemma RoundTidy(m: seq<Cell>, heads: set<nat>, spans: seq<Span>, lists: seq<seq<nat>>, cf: nat, cs: nat, dst: nat, start: nat, end: nat, source: nat,
                  m': seq<Cell>, heads': set<nat>, lists': seq<seq<nat>>, near: nat, cf': nat, fr: nat, holes: set<Span>, holes': set<Span>)
    requires Round(m, heads, spans, lists, cf, cs, dst, start, end, source, m', heads', lists')
    requires Continues(m, dst, start, end, lists[cf], lists'[cf], spans[cf].lo, near) && GoesOn(spans, lists', cf, near, cf', fr)
    requires Tidy(m, heads, holes, spans[cs].lo, dst, start)
    requires holes <= holes' && (Full(m, dst, start, end) && cf == cs ==> Span(start, end) in holes')
    ensures Tidy(m', heads', holes', spans[cs].lo, fr, source)
  {
    RoundAhead(m, heads, spans, lists, cf, cs, dst, start, end, source, m', heads', lists', near, cf', fr);
    RoundEnds(m, heads, spans, lists, cf, cs, dst, start, end, source, m', heads', lists');
    forall f: nat, b: nat {:trigger Loose(m', heads', f, b)} | Loose(m', heads', f, b) ensures (fr != NULL && fr <= f && source <= b) || InHole(m', holes', f) {
      RoundLoose(m, heads, spans, lists, cf, cs, dst, start, end, source, m', heads', lists', near, cf', fr, holes, holes', f, b);
    }
    forall f: nat {:trigger Free(m', f)} | f in heads' && Free(m', f) && f < fr ensures Passed(m', heads', f, fr, source) || InHole(m', holes', f) {
      if f < dst {
        assert MovableHead(m', heads', dst);
      } else {
        HolePassed(m, heads, spans, lists, cf, cs, dst, start, end, source, m', heads', lists', near, cf', fr, holes', f);
      }
    }
    forall h: nat {:trigger MovableHead(m', heads', h)} | fr != NULL && spans[cs].lo <= h && fr < h < source ensures !MovableHead(m', heads', h) {
      RoundMovable(m, heads, spans, lists, cf, cs, dst, start, end, source, m', heads', lists', h);
    }
  }

  lemma HolePassed(m: seq<Cell>, heads: set<nat>, spans: seq<Span>, lists: seq<seq<nat>>, cf: nat, cs: nat, dst: nat, start: nat, end: nat, source: nat,
                  m': seq<Cell>, heads': set<nat>, lists': seq<seq<nat>>, near: nat, cf': nat, fr: nat, holes: set<Span>, f: nat)
    requires Round(m, heads, spans, lists, cf, cs, dst, start, end, source, m', heads', lists')
    requires Continues(m, dst, start, end, lists[cf], lists'[cf], spans[cf].lo, near) && GoesOn(spans, lists', cf, near, cf', fr)
    requires f in heads' && Free(m', f) && dst <= f && (fr == NULL || f < fr)
    requires Full(m, dst, start, end) && cf == cs ==> Span(start, end) in holes
    ensures InHole(m', holes, f)
  {
    RoundPassed(m, heads, spans, lists, cf, cs, dst, start, end, source, m', heads', lists', near, cf', fr, f);
    HoleStarts(m, heads, spans, lists, cf, cs, dst, start, end, source, m', heads', lists', near, cf', fr, f);
    HoleEnds(m, heads, spans, lists, cf, cs, dst, start, end, source, m', heads', lists', near, cf', fr, f);
    assert Span(start, end) in holes;
  }

  lemma RoundLoose(m: seq<Cell>, heads: set<nat>, spans: seq<Span>, lists: seq<seq<nat>>, cf: nat, cs: nat, dst: nat, start: nat, end: nat, source: nat,
                  m': seq<Cell>, heads': set<nat>, lists': seq<seq<nat>>, near: nat, cf': nat, fr: nat, holes: set<Span>, holes': set<Span>, f: nat, b: nat)
    requires Round(m, heads, spans, lists, cf, cs, dst, start, end, source, m', heads', lists')
    requires Continues(m, dst, start, end, lists[cf], lists'[cf], spans[cf].lo, near) && GoesOn(spans, lists', cf, near, cf', fr)
    requires Tidy(m, heads, holes, spans[cs].lo, dst, start)
    requires holes <= holes' && (Full(m, dst, start, end) && cf == cs ==> Span(start, end) in holes')
    requires Loose(m', heads', f, b)
    ensures (fr != NULL && fr <= f && source <= b) || InHole(m', holes', f)
  {
    if f < dst {
      RoundBelow(m, heads, holes, spans, lists, cf, cs, dst, start, end, source, m', heads', lists', f, b);
    } else if fr == NULL || f < fr {
      HolePassed(m, heads, spans, lists, cf, cs, dst, start, end, source, m', heads', lists', near, cf', fr, holes', f);
    } else if b < source {
      AboveLoose(m, heads, spans, lists, cf, cs, dst, start, end, source, m', heads', lists', f, b);
    }
  }

  /** The free block the copying leaves starts behind the copy. */
  lemma RestStart(m: seq<Cell>, heads: set<nat>, spans: seq<Span>, lists: seq<seq<nat>>, cf: nat, cs: nat, dst: nat, start: nat, end: nat, junk: set<nat>,
                  m2: seq<Cell>, heads2: set<nat>, fl2: seq<nat>, r: nat)
    requires HeapOk(m, heads, spans, lists) && cf < |spans| && cs < |spans|
    requires spans[cs].lo <= start < end <= spans[cs].hi && start in heads && (end < spans[cs].hi ==> end in heads)
    requires RunCopied(m, heads, m2, heads2, start, end, dst, junk) && ClusterOk(m2, heads2, spans[cf].lo, spans[cf].hi, fl2)
    requires spans[cf].lo <= r < spans[cf].hi && spans[cf].lo <= dst && dst + (end - start) < spans[cf].hi
    requires r in heads2 && Free(m2, r) && r <= dst + (end - start) < EndOf(m2, r)
    ensures r == dst + (end - start)
  {
    assert ClusterAt(m, heads, spans, lists, cs);
    assert RunBlock(m, m2, heads2, start, end, dst, junk, start);
    assert dst in heads2;
    ImageUsed(m, heads, m2, heads2, start, end, dst, spans[cf].lo, spans[cf].hi, fl2, spans[cs].lo, spans[cs].hi, junk, dst);
    if dst <= r < dst + (end - start) {
      ImageUsed(m, heads, m2, heads2, start, end, dst, spans[cf].lo, spans[cf].hi, fl2, spans[cs].lo, spans[cs].hi, junk, r);
    }
  }

  /** The free block behind dst in its list, before the vacated run is returned. */
  ghost predicate NextIs(fl: seq<nat>, lo: nat, dst: nat, q: nat, x: nat, near: nat) {
    (q < x ==> near == q) && (q == x ==> NextFree(fl, lo, dst, near))
  }

  /** near is still there, or has become part of the free block near'. */
  ghost predicate Absorbed(m: seq<Cell>, heads: set<nat>, near: nat, near': nat) {
    near' == near || (near' < near < EndOf(m, near') && near' in heads && Free(m, near'))
  }

  /** The free block a round goes on with. */
  lemma RoundContinues(m: seq<Cell>, heads: set<nat>, spans: seq<Span>, lists: seq<seq<nat>>, cf: nat, cs: nat, dst: nat, start: nat, end: nat, source: nat,
                       m': seq<Cell>, heads': set<nat>, lists': seq<seq<nat>>, x: nat, near: nat, near': nat)
    requires Round(m, heads, spans, lists, cf, cs, dst, start, end, source, m', heads', lists')
    requires NextIs(lists[cf], spans[cf].lo, dst, dst + (end - start), x, near) && Absorbed(m', heads', near, near')
    requires near' + 1 == spans[cf].lo || Has(lists'[cf], near')
    requires if EndOf(m, dst) == start then x == end else x == EndOf(m, dst)
    ensures Continues(m, dst, start, end, lists[cf], lists'[cf], spans[cf].lo, near')
  {
    RoundEnds(m, heads, spans, lists, cf, cs, dst, start, end, source, m', heads', lists');
    assert ClusterAt(m, heads, spans, lists, cf) && ClusterAt(m', heads', spans, lists', cf);
    if near' != near {
      var j, i := FreeInList(m', heads', spans, lists', near');
      assert ClusterAt(m', heads', spans, lists', j);
      SpanOrder(spans, cf, j);
      if Has(lists[cf], near) { NextInCluster(m, heads, spans, lists, cf, near); }
      if near' < dst { HeadApart(m', heads', spans, lists', near', dst); }
      if dst <= near' < dst + (end - start) { RoundImage(m, heads, spans, lists, cf, cs, dst, start, end, source, m', heads', lists', near'); }
    }
    if Has(lists'[cf], near') { NextInCluster(m', heads', spans, lists', cf, near'); }
  }

  // The other steps of the pass.

  /** The block at source stays: the next free block comes up. */
  lemma TidyGoesOn(m: seq<Cell>, heads: set<nat>, holes: set<Span>, spans: seq<Span>, lists: seq<seq<nat>>, lo: nat, cf: nat, fr: nat, source: nat,
                   next: nat, cf': nat, fr': nat)
    requires HeapOk(m, heads, spans, lists) && cf < |spans| && spans[cf].lo <= fr < spans[cf].hi
    requires Tidy(m, heads, holes, lo, fr, source) && fr < source && MovableHead(m, heads, source)
    requires EndOf(m, fr) != source && EndOf(m, fr) - fr < EndOf(m, source) - source
    requires NextFree(lists[cf], spans[cf].lo, fr, next) && GoesOn(spans, lists, cf, next, cf', fr')
    ensures Tidy(m, heads, holes, lo, fr', source)
  {
    assert ClusterAt(m, heads, spans, lists, cf);
    if Has(lists[cf], next) { NextInCluster(m, heads, spans, lists, cf, next); }
    if fr' != NULL && next + 1 == spans[cf].lo { SpanOrder(spans, cf, cf'); }
    forall f: nat {:trigger Free(m, f)} | f in heads && Free(m, f) && fr < f ensures fr' != NULL && fr' <= f {
      var j, i := FreeInList(m, heads, spans, lists, f);
      SpanOrder(spans, cf, j);
      if j != cf && next + 1 == spans[cf].lo {
        SpanOrder(spans, cf + 1, j);
        NoneLower(m, heads, spans, lists, cf + 1, cf', fr', f);
      }
    }
    forall f: nat, b: nat {:trigger Loose(m, heads, f, b)} | Loose(m, heads, f, b) ensures (fr' != NULL && fr' <= f && source <= b) || InHole(m, holes, f) {
      assert f == fr && source <= b ==> b == source;
    }
    forall f: nat {:trigger Free(m, f)} | fr' != NULL && f in heads && Free(m, f) && f < fr' ensures Passed(m, heads, f, fr', source) || InHole(m, holes, f) {
      if f < fr && !InHole(m, holes, f) && !(MovableHead(m, heads, source) && f < source && EndOf(m, f) - f < EndOf(m, source) - source) {
        var h: nat :| f < h < fr && MovableHead(m, heads, h);
        assert f < h < fr';
      }
    }
  }

  /** Blocks that may not be moved are skipped, or blocks below the free block. */
  lemma TidySkips(m: seq<Cell>, heads: set<nat>, holes: set<Span>, lo: nat, lo': nat, fr: nat, source: nat, source': nat)
    requires Tidy(m, heads, holes, lo, fr, source) && source <= source' && (fr != NULL ==> lo' == lo || source < fr)
    requires fr != NULL && fr in heads && fr < |m| && m[fr].Unmovable()
    requires forall h: nat {:trigger MovableHead(m, heads, h)} :: source <= h < source' && fr < h ==> !MovableHead(m, heads, h)
    ensures Tidy(m, heads, holes, lo', fr, source')
  {
    forall f: nat {:trigger Free(m, f)} | f in heads && Free(m, f) && f < fr ensures Passed(m, heads, f, fr, source') || InHole(m, holes, f) {
      if source' != source && MovableHead(m, heads, source) && f < source {
        assert f < source < fr;
      }
    }
  }

  lemma TidyNextCluster(m: seq<Cell>, heads: set<nat>, holes: set<Span>, spans: seq<Span>, lists: seq<seq<nat>>, cs: nat, fr: nat, source: nat)
    requires HeapOk(m, heads, spans, lists) && cs < |spans|
    requires Tidy(m, heads, holes, spans[cs].lo, fr, source) && (fr != NULL ==> source == spans[cs].hi)
    ensures Tidy(m, heads, holes, SpanStart(spans, cs + 1, |m|), fr, SpanStart(spans, cs + 1, |m|))
  {
    HeapOkTiled(m, heads, spans, lists);
    forall h: nat {:trigger MovableHead(m, heads, h)} ensures MovableHead(m, heads, h) ==> !(spans[cs].hi <= h < SpanStart(spans, cs + 1, |m|)) {
      if h in heads { NoHeadsBetween(m, heads, spans, cs, h); }
    }
    if source == spans[cs].hi && MovableHead(m, heads, source) { NoHeadsBetween(m, heads, spans, cs, source); }
  }

  lemma TidyStarts(m: seq<Cell>, heads: set<nat>, holes: set<Span>, spans: seq<Span>, lists: seq<seq<nat>>, cf: nat, fr: nat, p: nat)
    requires HeapOk(m, heads, spans, lists) && LowestFree(spans, lists, 0, cf, fr)
    requires (forall f: nat, b: nat {:trigger Loose(m, heads, f, b)} :: Loose(m, heads, f, b) ==> InHole(m, holes, f)) || (|spans| > 0 ==> p <= spans[0].lo)
    ensures Tidy(m, heads, holes, p, fr, p)
  {
    forall f: nat {:trigger Free(m, f)} | f in heads && Free(m, f) ensures fr != NULL && fr <= f {
      var j, i := FreeInList(m, heads, spans, lists, f);
      SpanOrder(spans, 0, j);
      NoneLower(m, heads, spans, lists, 0, cf, fr, f);
    }
    forall f: nat, b: nat {:trigger Loose(m, heads, f, b)} | Loose(m, heads, f, b) ensures p <= b || InHole(m, holes, f) {
      var j, i := FreeInList(m, heads, spans, lists, f);
      SpanOrder(spans, 0, j);
    }
  }

  /** Rewriting pointers changes nothing about it. */
  lemma TidySame(m: seq<Cell>, heads: set<nat>, m': seq<Cell>, holes: set<Span>, lo: nat, fr: nat, source: nat)
    requires Tidy(m, heads, holes, lo, fr, source) && |m'| == |m|
    requires forall c {:trigger m'[c]} :: 0 <= c < |m| ==> m'[c] == m[c].(ref := m'[c].ref)
    ensures Tidy(m', heads, holes, lo, fr, source)
  {
    forall a: nat {:trigger EndOf(m', a)} ensures EndOf(m', a) == EndOf(m, a) { if a < |m| { assert m'[a] == m[a].(ref := m'[a].ref); } }
    forall a: nat {:trigger Free(m', a)} ensures Free(m', a) == Free(m, a) { if a < |m| { assert m'[a] == m[a].(ref := m'[a].ref); } }
    forall h: nat {:trigger MovableHead(m', heads, h)} {:trigger MovableHead(m, heads, h)} ensures MovableHead(m', heads, h) == MovableHead(m, heads, h) {
      if h < |m| { assert m'[h] == m[h].(ref := m'[h].ref); }
    }
    forall f: nat {:trigger InHole(m', holes, f)} ensures InHole(m, holes, f) ==> InHole(m', holes, f) {}
    forall f: nat, b: nat {:trigger Loose(m', heads, f, b)} ensures Loose(m', heads, f, b) ==> Loose(m, heads, f, b) {}
    forall f: nat {:trigger Free(m', f)} | fr != NULL && f in heads && Free(m', f) && f < fr ensures Passed(m', heads, f, fr, source) || InHole(m', holes, f) {
      if !InHole(m', holes, f) {
        assert Passed(m, heads, f, fr, source);
        if h: nat :| f < h < fr && MovableHead(m, heads, h) { assert MovableHead(m', heads, h); }
      }
    }
  }

  // Why a run that fills a free block exactly has been moved over an unmovable one.

  /** A block that never moves is where it was. */
  lemma StaysPut(m0: seq<Cell>, heads0: set<nat>, m: seq<Cell>, heads: set<nat>, org: map<nat, nat>, done: seq<Region>, all: seq<Region>, u: nat)
    requires Placed(m0, heads0, m, heads, org, done, all)
    ensures Stays(m, heads, u) ==> Stays(m0, heads0, u)
    ensures Stays(m0, heads0, u) ==> Stays(m, heads, u) && EndOf(m, u) == EndOf(m0, u)
  {
    if Stays(m, heads, u) {
      assert HasOrigin(m0, heads0, org, all, u);
      var a := org[u];
      assert PlacedBlock(m0, a, m, heads, org, done, all);
      assert m[u] == Image(m0, a, done);
    }
    if Stays(m0, heads0, u) {
      assert PlacedBlock(m0, u, m, heads, org, done, all);
      assert m[u] == Image(m0, u, done);
    }
  }

  /** A movable block from cur on is where it was. */
  lemma NotYetMoved(m0: seq<Cell>, heads0: set<nat>, m: seq<Cell>, heads: set<nat>, org: map<nat, nat>, done: seq<Region>, all: seq<Region>, cur: nat, b: nat)
    requires Placed(m0, heads0, m, heads, org, done, all) && Below(all, cur) && cur <= b
    requires MovableHead(m, heads, b) && !Free(m, b)
    ensures MovableHead(m0, heads0, b)
  {
    assert HasOrigin(m0, heads0, org, all, b);
    var a := org[b];
    RelocAbove(all, cur, a);
    assert PlacedBlock(m0, a, m, heads, org, done, all);
    assert m[b] == Image(m0, a, done);
  }

  /** A run that fills a free block of its own cluster exactly has been moved over a block that never moves. */
  lemma FullIsBlocked(m0: seq<Cell>, heads0: set<nat>, m: seq<Cell>, heads: set<nat>, org: map<nat, nat>, done: seq<Region>, all: seq<Region>,
                      spans: seq<Span>, lists: seq<seq<nat>>, cs: nat, dst: nat, source: nat, holes: set<Span>) returns (h: nat, u: nat)
    requires HeapTiled(m0, heads0, spans) && HeapOk(m, heads, spans, lists) && cs < |spans|
    requires Placed(m0, heads0, m, heads, org, done, all) && Below(all, source)
    requires Tidy(m, heads, holes, spans[cs].lo, dst, source) && MovableHead(m, heads, source) && !Free(m, source)
    requires dst in heads && Free(m, dst) && spans[cs].lo <= dst < source < spans[cs].hi && EndOf(m, dst) != source && dst != NULL
    ensures u == EndOf(m, dst) && Blocked(m0, heads0, spans, cs, h, u, source)
  {
    assert SpanTiled(m0, heads0, spans, cs) && ClusterAt(m, heads, spans, lists, cs);
    u := EndOf(m, dst);
    assert u in heads && !Free(m, u) && !MovableHead(m, heads, u);
    StaysPut(m0, heads0, m, heads, org, done, all, u);
    NotYetMoved(m0, heads0, m, heads, org, done, all, source, source);
    h := Covering(m0, heads0, spans[cs].lo, spans[cs].hi, spans[cs].lo, dst);
    StaysPut(m0, heads0, m, heads, org, done, all, h);
  }

  // Both promises of a pass together: it finds something to move, and it leaves nothing loose but behind such holes.

  ghost predicate OnTrack(all: seq<Region>, m0: seq<Cell>, heads0: set<nat>, spans: seq<Span>, m: seq<Cell>, heads: set<nat>, lo: nat, fr: nat, p: nat) {
    && HeapTiled(m0, heads0, spans) && Settled(|all|, m0, heads0, m, heads, fr, p)
    && Tidy(m, heads, Holes(m0, heads0, spans, all), lo, fr, p)
  }

  /** Before the first search no free block has been looked for. */
  ghost predicate OnTrackOrNew(all: seq<Region>, m0: seq<Cell>, heads0: set<nat>, spans: seq<Span>, m: seq<Cell>, heads: set<nat>, cs: nat, fr: nat, p: nat) {
    OnTrack(all, m0, heads0, spans, m, heads, p, fr, p) || (all == [] && cs == 0 && fr == NULL && m == m0 && heads == heads0)
  }

  /** What is loose has been left behind with a hole. */
  ghost predicate LooseInHoles(m: seq<Cell>, heads: set<nat>, holes: set<Span>) {
    forall f: nat, b: nat {:trigger Loose(m, heads, f, b)} :: Loose(m, heads, f, b) ==> InHole(m, holes, f)
  }

  lemma LooseSame(m: seq<Cell>, heads: set<nat>, m': seq<Cell>, holes: set<Span>)
    requires |m'| == |m| && forall c {:trigger m'[c]} :: 0 <= c < |m| ==> m'[c] == m[c].(ref := m'[c].ref)
    requires LooseInHoles(m, heads, holes)
    ensures LooseInHoles(m', heads, holes)
  {
    TidySame(m, heads, m', holes, 0, NULL, 0);
  }

  lemma TrackRestarts(all: seq<Region>, m0: seq<Cell>, heads0: set<nat>, m: seq<Cell>, heads: set<nat>, spans: seq<Span>, lists: seq<seq<nat>>, cs: nat,
                      cf: nat, fr: nat)
    requires HeapOk(m, heads, spans, lists) && cs < |spans|
    requires OnTrackOrNew(all, m0, heads0, spans, m, heads, cs, NULL, spans[cs].lo) && LowestFree(spans, lists, 0, cf, fr)
    ensures OnTrack(all, m0, heads0, spans, m, heads, spans[cs].lo, fr, spans[cs].lo)
  {
    SearchRestarts(|all|, m0, heads0, m, heads, spans, lists, cs, cf, fr);
    HeapOkTiled(m, heads, spans, lists);
    TidyStarts(m, heads, Holes(m0, heads0, spans, all), spans, lists, cf, fr, spans[cs].lo);
  }

  lemma TrackSkips(all: seq<Region>, m0: seq<Cell>, heads0: set<nat>, spans: seq<Span>, m: seq<Cell>, heads: set<nat>, lo: nat, lo': nat, fr: nat, source: nat, source': nat)
    requires OnTrack(all, m0, heads0, spans, m, heads, lo, fr, source) && source <= source' && (lo' == lo || source < fr)
    requires fr != NULL && fr in heads && fr < |m| && m[fr].Unmovable()
    requires forall h: nat {:trigger MovableHead(m, heads, h)} :: source <= h < source' && fr < h ==> !MovableHead(m, heads, h)
    ensures OnTrack(all, m0, heads0, spans, m, heads, lo', fr, source')
  {
    if all == [] { SearchSkips(m0, heads0, fr, source, source'); }
    TidySkips(m, heads, Holes(m0, heads0, spans, all), lo, lo', fr, source, source');
  }

  lemma TrackNextCluster(all: seq<Region>, m0: seq<Cell>, heads0: set<nat>, m: seq<Cell>, heads: set<nat>, spans: seq<Span>, lists: seq<seq<nat>>, cs: nat,
                         fr: nat, p: nat)
    requires HeapOk(m, heads, spans, lists) && cs < |spans|
    requires OnTrack(all, m0, heads0, spans, m, heads, spans[cs].lo, fr, p) && (fr != NULL ==> p == spans[cs].hi)
    ensures OnTrack(all, m0, heads0, spans, m, heads, SpanStart(spans, cs + 1, |m|), fr, SpanStart(spans, cs + 1, |m|))
  {
    SearchNextCluster(|all|, m0, heads0, m, heads, spans, lists, cs, fr, p);
    TidyNextCluster(m, heads, Holes(m0, heads0, spans, all), spans, lists, cs, fr, p);
  }

  lemma TrackGoesOn(all: seq<Region>, m0: seq<Cell>, heads0: set<nat>, m: seq<Cell>, heads: set<nat>, spans: seq<Span>, lists: seq<seq<nat>>, lo: nat, cf: nat, fr: nat,
                    source: nat, next: nat, cf': nat, fr': nat)
    requires HeapOk(m, heads, spans, lists) && cf < |spans| && spans[cf].lo <= fr < spans[cf].hi
    requires OnTrack(all, m0, heads0, spans, m, heads, lo, fr, source) && fr < source && MovableHead(m, heads, source)
    requires EndOf(m, fr) != source && EndOf(m, fr) - fr < EndOf(m, source) - source
    requires NextFree(lists[cf], spans[cf].lo, fr, next) && GoesOn(spans, lists, cf, next, cf', fr')
    ensures OnTrack(all, m0, heads0, spans, m, heads, lo, fr', source)
  {
    if all == [] { SearchGoesOn(m, heads, spans, lists, cf, fr, source, next, cf', fr'); }
    TidyGoesOn(m, heads, Holes(m0, heads0, spans, all), spans, lists, lo, cf, fr, source, next, cf', fr');
  }

  /** The run of a round that fills a free block of its own cluster exactly. */
  lemma RoundFills(m0: seq<Cell>, heads0: set<nat>, org: map<nat, nat>, done: seq<Region>, all: seq<Region>,
                   m: seq<Cell>, heads: set<nat>, spans: seq<Span>, lists: seq<seq<nat>>, cf: nat, cs: nat, dst: nat, start: nat, end: nat, source: nat,
                   m': seq<Cell>, heads': set<nat>, lists': seq<seq<nat>>)
    requires HeapTiled(m0, heads0, spans) && Placed(m0, heads0, m, heads, org, done, all) && Below(all, start)
    requires Round(m, heads, spans, lists, cf, cs, dst, start, end, source, m', heads', lists')
    requires Tidy(m, heads, Holes(m0, heads0, spans, all), spans[cs].lo, dst, start) && Full(m, dst, start, end) && cf == cs
    ensures FilledUp(m0, heads0, spans, NewRegion(start, end, dst))
  {
    RoundEnds(m, heads, spans, lists, cf, cs, dst, start, end, source, m', heads', lists');
    RunEnds(m, heads, m', heads', start, end, dst, start);
    var h, u := FullIsBlocked(m0, heads0, m, heads, org, done, all, spans, lists, cs, dst, start, Holes(m0, heads0, spans, all));
    assert Over(m0, heads0, spans, u, start);
  }

  lemma TrackMoved(m0: seq<Cell>, heads0: set<nat>, org: map<nat, nat>, done: seq<Region>, all: seq<Region>,
                   m: seq<Cell>, heads: set<nat>, spans: seq<Span>, lists: seq<seq<nat>>, cf: nat, cs: nat, dst: nat, start: nat, end: nat, source: nat,
                   m': seq<Cell>, heads': set<nat>, lists': seq<seq<nat>>, near: nat, cf': nat, fr: nat)
    requires Placed(m0, heads0, m, heads, org, done, all) && Below(all, start)
    requires Round(m, heads, spans, lists, cf, cs, dst, start, end, source, m', heads', lists')
    requires Continues(m, dst, start, end, lists[cf], lists'[cf], spans[cf].lo, near) && GoesOn(spans, lists', cf, near, cf', fr)
    requires OnTrack(all, m0, heads0, spans, m, heads, spans[cs].lo, dst, start)
    ensures OnTrack(all + [NewRegion(start, end, dst)], m0, heads0, spans, m', heads', spans[cs].lo, fr, source)
  {
    var r := NewRegion(start, end, dst);
    HolesGrow(m0, heads0, spans, all, r);
    if Full(m, dst, start, end) && cf == cs {
      RoundFills(m0, heads0, org, done, all, m, heads, spans, lists, cf, cs, dst, start, end, source, m', heads', lists');
    }
    RoundTidy(m, heads, spans, lists, cf, cs, dst, start, end, source, m', heads', lists', near, cf', fr,
              Holes(m0, heads0, spans, all), Holes(m0, heads0, spans, all + [r]));
  }

  lemma TrackFlushed(all: seq<Region>, m0: seq<Cell>, heads0: set<nat>, spans: seq<Span>, m: seq<Cell>, heads: set<nat>, lo: nat, fr: nat, source: nat, m': seq<Cell>)
    requires OnTrack(all, m0, heads0, spans, m, heads, lo, fr, source) && |m'| == |m| && (all == [] ==> m' == m)
    requires forall c {:trigger m'[c]} :: 0 <= c < |m| ==> m'[c] == m[c].(ref := m'[c].ref)
    ensures OnTrack(all, m0, heads0, spans, m', heads, lo, fr, source)
  {
    TidySame(m, heads, m', Holes(m0, heads0, spans, all), lo, fr, source);
  }

  lemma TrackDone(all: seq<Region>, m0: seq<Cell>, heads0: set<nat>, m: seq<Cell>, heads: set<nat>, spans: seq<Span>, lists: seq<seq<nat>>, cs: nat, fr: nat)
    requires HeapOk(m, heads, spans, lists)
    requires OnTrackOrNew(all, m0, heads0, spans, m, heads, cs, fr, SpanStart(spans, cs, |m|))
    requires cs == |spans| || (fr == NULL && OnTrack(all, m0, heads0, spans, m, heads, SpanStart(spans, cs, |m|), NULL, SpanStart(spans, cs, |m|)))
    ensures all == [] ==> NothingLoose(m0, heads0)
    ensures LooseInHoles(m, heads, Holes(m0, heads0, spans, all))
  {
    SearchDone(|all|, m0, heads0, m, heads, spans, lists, cs, fr);
  }

  lemma FreeNeverMoves(m: seq<Cell>, heads: set<nat>, spans: seq<Span>, lists: seq<seq<nat>>, cf: nat, fr: nat)
    requires HeapOk(m, heads, spans, lists) && cf < |spans| && Has(lists[cf], fr)
    ensures fr != NULL && fr in heads && fr < |m| && m[fr].Unmovable()
  {
    NextInCluster(m, heads, spans, lists, cf, fr);
    assert ClusterAt(m, heads, spans, lists, cf);
  }

  /** One round of the pass, with or without a move. */
  lemma TrackRound(m0: seq<Cell>, heads0: set<nat>, org: map<nat, nat>, done: seq<Region>, all: seq<Region>,
                   m: seq<Cell>, heads: set<nat>, spans: seq<Span>, lists: seq<seq<nat>>, cf: nat, cs: nat, dst: nat, start: nat, end: nat, source: nat,
                   all': seq<Region>, m': seq<Cell>, heads': set<nat>, lists': seq<seq<nat>>, near: nat, cf': nat, fr: nat)
    requires HeapOk(m, heads, spans, lists) && cf < |spans| && cs < |spans| && spans[cf].lo <= dst < spans[cf].hi
    requires dst < start && MovableHead(m, heads, start)
    requires Placed(m0, heads0, m, heads, org, done, all) && Below(all, start)
    requires GoesOn(spans, lists', cf, near, cf', fr)
    requires source != start ==>
      && all' == all + [NewRegion(start, end, dst)] && Round(m, heads, spans, lists, cf, cs, dst, start, end, source, m', heads', lists')
      && Continues(m, dst, start, end, lists[cf], lists'[cf], spans[cf].lo, near)
    requires source == start ==>
      && all' == all && m' == m && heads' == heads && lists' == lists
      && EndOf(m, dst) != start && EndOf(m, dst) - dst < EndOf(m, start) - start && NextFree(lists[cf], spans[cf].lo, dst, near)
    requires OnTrack(all, m0, heads0, spans, m, heads, spans[cs].lo, dst, start)
    ensures OnTrack(all', m0, heads0, spans, m', heads', spans[cs].lo, fr, source)
  {
    if source == start {
      TrackGoesOn(all, m0, heads0, m, heads, spans, lists, spans[cs].lo, cf, dst, start, near, cf', fr);
    } else {
      TrackMoved(m0, heads0, org, done, all, m, heads, spans, lists, cf, cs, dst, start, end, source, m', heads', lists', near, cf', fr);
    }
  }

  // Where the code leaves something loose.

  lemma HoleStays(m: seq<Cell>, heads: set<nat>, spans: seq<Span>, lists: seq<seq<nat>>, cf: nat, cs: nat, dst: nat, start: nat, end: nat, source: nat,
                  m': seq<Cell>, heads': set<nat>, lists': seq<seq<nat>>)
    requires Round(m, heads, spans, lists, cf, cs, dst, start, end, source, m', heads', lists')
    requires lists[cf] == [dst] && cf == cs && EndOf(m, dst) != start
    requires end < spans[cs].hi && !Free(m, end)
    ensures start in heads' && Free(m', start) && EndOf(m', start) == end
  {
    var lo, hi := spans[cs].lo, spans[cs].hi;
    assert ClusterAt(m, heads, spans, lists, cs) && ClusterAt(m', heads', spans, lists', cs);
    RoundEnds(m, heads, spans, lists, cf, cs, dst, start, end, source, m', heads', lists');
    RunEnds(m, heads, m', heads', start, end, dst, start);
    var p := Predecessor(m, heads, lo, hi, lo, start);
    assert p in FreeHeads(m, heads, lo, hi) ==> Has(lists[cs], p);
    UsedAfter(m, heads, m', heads', start, end, dst, p);
    UsedAfter(m, heads, m', heads', start, end, dst, end);
    assert start in heads';
    if !Free(m', start) { UsedBefore(m, heads, m', heads', start, end, dst, start); }
    var e := EndOf(m', start);
    assert e <= end;
    if e < end {
      UsedBefore(m, heads, m', heads', start, end, dst, e);
    }
  }

  /** The run fills the only free block of its cluster exactly, and a movable block follows it: that block is loose then. */
  lemma FullLeavesLoose(m: seq<Cell>, heads: set<nat>, spans: seq<Span>, lists: seq<seq<nat>>, cf: nat, cs: nat, dst: nat, start: nat, end: nat, source: nat,
                        m': seq<Cell>, heads': set<nat>, lists': seq<seq<nat>>, near: nat, cf': nat, fr: nat)
    requires Round(m, heads, spans, lists, cf, cs, dst, start, end, source, m', heads', lists')
    requires Continues(m, dst, start, end, lists[cf], lists'[cf], spans[cf].lo, near) && GoesOn(spans, lists', cf, near, cf', fr)
    requires cf == cs && Full(m, dst, start, end) && lists[cf] == [dst]
    requires source == end < spans[cs].hi && MovableHead(m, heads, end) && !Free(m, end)
    ensures Loose(m', heads', start, end)
    ensures cf + 1 == |spans| ==> fr == NULL
  {
    HoleStays(m, heads, spans, lists, cf, cs, dst, start, end, source, m', heads', lists');
    RoundMovable(m, heads, spans, lists, cf, cs, dst, start, end, source, m', heads', lists', end);
    forall h: nat {:trigger MovableHead(m', heads', h)} | start < h < end ensures !MovableHead(m', heads', h) {
      if h in heads' { HeadApart(m', heads', spans, lists', start, h); }
    }
  }

  function Block(dt: DataType, size: nat, pinned: bool): Cell { Cell(dt, size, false, false, pinned, NULL) }

  /** A free block of 2 cells at 1, a pinned block at 3, movable blocks of 2 cells at 4 and 6. */
  function ExampleHeap(): (m: seq<Cell>)
    ensures |m| == 8
  {
    var zero := Block(Other, 0, false);
    [zero, Block(FreeBlock, 2, true), zero, Block(Other, 1, true), Block(Other, 2, false), zero, Block(Other, 2, false), zero]
  }

  lemma ExampleIsHeap()
    ensures HeapOk(ExampleHeap(), {1, 3, 4, 6}, [Span(1, 8)], [[1]])
    ensures Blocked(ExampleHeap(), {1, 3, 4, 6}, [Span(1, 8)], 0, 1, 3, 4)
  {
    var m, heads, spans := ExampleHeap(), {1, 3, 4, 6}, [Span(1, 8)];
    assert EndOf(m, 1) == 3 && EndOf(m, 3) == 4 && EndOf(m, 4) == 6 && EndOf(m, 6) == 8;
    assert FreeHeads(m, heads, 1, 8) == {1};
    assert [1][0] == 1 && Has([1], 1);
    assert ClusterAt(m, heads, spans, [[1]], 0);
    forall h {:trigger InSpan(spans, h)} | h in heads ensures InSpan(spans, h) { assert spans[0].lo <= h < spans[0].hi; }
  }

  /** Whatever a round does with the blocks at 4, as many as fit, it is the last one, and the block at 6 is loose. */
  lemma ExampleIsLoose(end: nat, source: nat, m': seq<Cell>, heads': set<nat>, lists': seq<seq<nat>>, near: nat, cf': nat, fr: nat)
    requires Round(ExampleHeap(), {1, 3, 4, 6}, [Span(1, 8)], [[1]], 0, 0, 1, 4, end, source, m', heads', lists')
    requires Continues(ExampleHeap(), 1, 4, end, [1], lists'[0], 1, near) && GoesOn([Span(1, 8)], lists', 0, near, cf', fr)
    ensures end == source == 6 && fr == NULL && Loose(m', heads', 4, 6)
  {
    var m, heads := ExampleHeap(), {1, 3, 4, 6};
    assert EndOf(m, 1) == 3 && EndOf(m, 4) == 6 && end == 6;
    assert MovableHead(m, heads, 6);
    FullLeavesLoose(m, heads, [Span(1, 8)], [[1]], 0, 0, 1, 4, end, source, m', heads', lists', near, cf', fr);
  }
}
