/** What compaction guarantees: the object graph is the same, and so is the amount of free memory. */
module CompactionResults {
  import opened HeapMemory
  import opened NodeList
  import opened HeapCluster
  import opened Heap
  import opened Relocation
  import opened Compaction

  /** a is the header of a used block. */
  ghost predicate Used(m: seq<Cell>, heads: set<nat>, a: nat) {
    a in heads && !Free(m, a)
  }

  /** A pointer in cell i of object a, to offset j of object t, has become a pointer in cell i of a's new
      place to offset j of t's new place; the objects keep type, size and flags. */
  lemma ReferencesFollow(m0: seq<Cell>, heads0: set<nat>, m: seq<Cell>, heads: set<nat>, org: map<nat, nat>, all: seq<Region>,
                         a: nat, i: nat, t: nat, j: nat)
    requires Placed(m0, heads0, m, heads, org, all, all)
    requires Used(m0, heads0, a) && a + i < EndOf(m0, a)
    requires Used(m0, heads0, t) && t + j < EndOf(m0, t)
    requires a + i < |m0| && m0[a + i].ref == t + j
    ensures var b := Reloc(all, a);
      && Used(m, heads, b) && b + i < |m| && EndOf(m, b) - b == EndOf(m0, a) - a
      && m[b + i] == m0[a + i].(ref := Reloc(all, t) + j)
      && (m0[a].Unmovable() ==> b == a)
  {
    assert PlacedBlock(m0, a, m, heads, org, all, all) && PlacedBlock(m0, t, m, heads, org, all, all);
    var b := Reloc(all, a);
    assert m[b] == Image(m0, a, all);
    assert m[b + i] == Image(m0, b + i + (a - b), all) && b + i + (a - b) == a + i;
    assert Reloc(all, t + j) + (t - Reloc(all, t)) == t + j;
  }

  /** A pointer that is null or leaves the heap stays as it is. */
  lemma ForeignPointersStay(m0: seq<Cell>, heads0: set<nat>, m: seq<Cell>, heads: set<nat>, org: map<nat, nat>, all: seq<Region>,
                            a: nat, i: nat)
    requires Placed(m0, heads0, m, heads, org, all, all)
    requires Used(m0, heads0, a) && a + i < EndOf(m0, a) && a + i < |m0|
    requires forall k :: 0 <= k < |all| ==> !InRegion(all[k], m0[a + i].ref)
    ensures Reloc(all, a) + i < |m| && m[Reloc(all, a) + i] == m0[a + i]
  {
    assert PlacedBlock(m0, a, m, heads, org, all, all);
    var b := Reloc(all, a);
    assert m[b + i] == Image(m0, b + i + (a - b), all) && b + i + (a - b) == a + i;
    RelocOutside(all, m0[a + i].ref);
  }

  /** Compaction is one-to-one on objects, and every used block that is left is one of the old ones. */
  lemma ObjectsCorrespond(m0: seq<Cell>, heads0: set<nat>, m: seq<Cell>, heads: set<nat>, org: map<nat, nat>, all: seq<Region>)
    requires Placed(m0, heads0, m, heads, org, all, all)
    ensures forall a, t :: Used(m0, heads0, a) && Used(m0, heads0, t) && Reloc(all, a) == Reloc(all, t) ==> a == t
    ensures forall b :: Used(m, heads, b) ==> b in org && Used(m0, heads0, org[b]) && Reloc(all, org[b]) == b && b <= org[b]
  {
    forall a, t | Used(m0, heads0, a) && Used(m0, heads0, t) && Reloc(all, a) == Reloc(all, t) ensures a == t {
      assert PlacedBlock(m0, a, m, heads, org, all, all) && PlacedBlock(m0, t, m, heads, org, all, all);
    }
    forall b | Used(m, heads, b) ensures b in org && Used(m0, heads0, org[b]) && Reloc(all, org[b]) == b && b <= org[b] {
      assert HasOrigin(m0, heads0, org, all, b);
      RelocMoves(all, org[b]);
    }
  }

  // Conservation of free memory.

  /** The cells of used blocks. */
  ghost predicate UsedCell(m: seq<Cell>, heads: set<nat>, c: nat) {
    exists h: nat {:trigger Used(m, heads, h)} :: Used(m, heads, h) && h <= c < EndOf(m, h)
  }

  ghost function UsedCells(m: seq<Cell>, heads: set<nat>, lo: nat, hi: nat): set<nat> {
    set c: nat | lo <= c < hi && UsedCell(m, heads, c)
  }

  /** The sizes of the first k free blocks of a list, added up. */
  ghost function ListSize(m: seq<Cell>, fl: seq<nat>, k: nat): nat
    requires k <= |fl|
  {
    if k == 0 then 0 else ListSize(m, fl, k - 1) + (EndOf(m, fl[k - 1]) - fl[k - 1])
  }

  ghost function Range(lo: nat, hi: nat): (r: set<nat>)
    requires lo <= hi
    ensures forall c :: c in r <==> lo <= c < hi
    ensures |r| == hi - lo
    decreases hi - lo
  {
    if lo == hi then {} else Range(lo, hi - 1) + {hi - 1}
  }

  /** The cells of a block are used exactly when the block is. */
  lemma UsedInBlock(m: seq<Cell>, heads: set<nat>, lo: nat, hi: nat, p: nat, c: nat)
    requires Tiled(m, heads, lo, hi) && p in heads && lo <= p < hi && p <= c < EndOf(m, p)
    requires forall h: nat {:trigger Used(m, heads, h)} :: Used(m, heads, h) && !(lo <= h < hi) ==> EndOf(m, h) <= lo || hi <= h
    ensures UsedCell(m, heads, c) <==> !Free(m, p)
  {
    if UsedCell(m, heads, c) {
      var h: nat :| Used(m, heads, h) && h <= c < EndOf(m, h);
      assert h == p;
    }
    if !Free(m, p) {
      assert Used(m, heads, p);
    }
  }

  /** The used cells below the end of one block, from those below its start. */
  lemma UsedCellsStep(m: seq<Cell>, heads: set<nat>, lo: nat, hi: nat, p: nat)
    requires Tiled(m, heads, lo, hi) && p in heads && lo <= p < hi
    requires forall h: nat {:trigger Used(m, heads, h)} :: Used(m, heads, h) && !(lo <= h < hi) ==> EndOf(m, h) <= lo || hi <= h
    ensures p < EndOf(m, p)
    ensures |UsedCells(m, heads, lo, EndOf(m, p))| == |UsedCells(m, heads, lo, p)| + if Free(m, p) then 0 else EndOf(m, p) - p
  {
    var end := EndOf(m, p);
    UsedCellsMore(m, heads, lo, hi, p);
    if !Free(m, p) { assert UsedCells(m, heads, lo, p) * Range(p, end) == {}; }
  }

  lemma UsedCellsMore(m: seq<Cell>, heads: set<nat>, lo: nat, hi: nat, p: nat)
    requires Tiled(m, heads, lo, hi) && p in heads && lo <= p < hi
    requires forall h: nat {:trigger Used(m, heads, h)} :: Used(m, heads, h) && !(lo <= h < hi) ==> EndOf(m, h) <= lo || hi <= h
    ensures p < EndOf(m, p)
    ensures UsedCells(m, heads, lo, EndOf(m, p)) == UsedCells(m, heads, lo, p) + if Free(m, p) then {} else Range(p, EndOf(m, p))
  {
    var end := EndOf(m, p);
    var block := if Free(m, p) then {} else Range(p, end);
    forall c: nat ensures c in UsedCells(m, heads, lo, end) <==> c in UsedCells(m, heads, lo, p) + block {
      if p <= c < end { UsedInBlock(m, heads, lo, hi, p, c); }
    }
  }

  /** In a cluster, used cells and free list add up to the payload. */
  lemma {:induction false} ClusterUnits(m: seq<Cell>, heads: set<nat>, lo: nat, hi: nat, fl: seq<nat>, p: nat, k: nat)
    requires Tiled(m, heads, lo, hi) && lo <= p <= hi && (p < hi ==> p in heads)
    requires Lists(fl, FreeHeads(m, heads, lo, hi)) && k <= |fl|
    requires forall h: nat {:trigger Used(m, heads, h)} :: Used(m, heads, h) && !(lo <= h < hi) ==> EndOf(m, h) <= lo || hi <= h
    requires forall i :: 0 <= i < k ==> fl[i] < p
    requires forall i :: k <= i < |fl| ==> p <= fl[i]
    requires |UsedCells(m, heads, lo, p)| + ListSize(m, fl, k) == p - lo
    ensures |UsedCells(m, heads, lo, hi)| + ListSize(m, fl, |fl|) == hi - lo
    decreases hi - p
  {
    if p == hi {
      assert k == |fl|;
    } else {
      UsedCellsStep(m, heads, lo, hi, p);
      if Free(m, p) {
        assert p in FreeHeads(m, heads, lo, hi);
        assert Has(fl, p);
        var i :| 0 <= i < |fl| && fl[i] == p;
        assert fl[k] == p;
        ClusterUnits(m, heads, lo, hi, fl, EndOf(m, p), k + 1);
      } else {
        forall i | k <= i < |fl| ensures EndOf(m, p) <= fl[i] { assert fl[i] in FreeHeads(m, heads, lo, hi); }
        ClusterUnits(m, heads, lo, hi, fl, EndOf(m, p), k);
      }
    }
  }

  /** The payloads, and the free lists, of the first i clusters. */
  ghost function HeapSize(spans: seq<Span>, i: nat): int
    requires i <= |spans|
  {
    if i == 0 then 0 else HeapSize(spans, i - 1) + (spans[i - 1].hi - spans[i - 1].lo)
  }

  ghost function FreeSize(m: seq<Cell>, lists: seq<seq<nat>>, i: nat): nat
    requires i <= |lists|
  {
    if i == 0 then 0 else FreeSize(m, lists, i - 1) + ListSize(m, lists[i - 1], |lists[i - 1]|)
  }

  ghost function UsedBelow(m: seq<Cell>, heads: set<nat>, hi: nat): set<nat> {
    UsedCells(m, heads, 0, hi)
  }

  lemma HeadAbove(m: seq<Cell>, heads: set<nat>, spans: seq<Span>, lists: seq<seq<nat>>, h: nat)
    requires HeapOk(m, heads, spans, lists) && h in heads
    ensures |spans| > 0 && spans[0].lo <= h
  {
    assert InSpan(spans, h);
    var j :| 0 <= j < |spans| && spans[j].lo <= h < spans[j].hi;
    assert j > 0 ==> spans[0].hi < spans[j].lo;
  }

  lemma NothingBelow(m: seq<Cell>, heads: set<nat>, spans: seq<Span>, lists: seq<seq<nat>>, hi: nat)
    requires HeapOk(m, heads, spans, lists) && (|spans| > 0 ==> hi <= spans[0].lo)
    ensures UsedBelow(m, heads, hi) == {}
  {
    forall c: nat ensures c !in UsedBelow(m, heads, hi) {
      if c < hi && UsedCell(m, heads, c) {
        var h: nat :| Used(m, heads, h) && h <= c < EndOf(m, h);
        HeadAbove(m, heads, spans, lists, h);
        assert false;
      }
    }
  }

  lemma OneCluster(m: seq<Cell>, heads: set<nat>, spans: seq<Span>, lists: seq<seq<nat>>, i: nat)
    requires HeapOk(m, heads, spans, lists) && i < |spans|
    ensures |UsedCells(m, heads, spans[i].lo, spans[i].hi)| + ListSize(m, lists[i], |lists[i]|) == spans[i].hi - spans[i].lo
  {
    var lo, end := spans[i].lo, spans[i].hi;
    assert ClusterAt(m, heads, spans, lists, i);
    forall h: nat {:trigger Used(m, heads, h)} | Used(m, heads, h) && !(lo <= h < end) ensures EndOf(m, h) <= lo || end <= h {
      BlocksDisjoint(m, heads, spans, lists, h, h);
    }
    assert UsedCells(m, heads, lo, lo) == {};
    forall k | 0 <= k < |lists[i]| ensures lo <= lists[i][k] { assert lists[i][k] in FreeHeads(m, heads, lo, end); }
    ClusterUnits(m, heads, lo, end, lists[i], lo, 0);
  }

  /** In the first i clusters used cells and free lists add up to the payloads. */
  lemma {:induction false} HeapUnits(m: seq<Cell>, heads: set<nat>, spans: seq<Span>, lists: seq<seq<nat>>, i: nat, hi: nat)
    requires HeapOk(m, heads, spans, lists) && i <= |spans|
    requires i > 0 ==> spans[i - 1].hi <= hi
    requires i < |spans| ==> hi <= spans[i].lo
    ensures |UsedBelow(m, heads, hi)| + FreeSize(m, lists, i) == HeapSize(spans, i)
    decreases i
  {
    if i == 0 {
      NothingBelow(m, heads, spans, lists, hi);
    } else {
      assert i > 1 ==> spans[i - 2].hi < spans[i - 1].lo;
      HeapUnits(m, heads, spans, lists, i - 1, spans[i - 1].lo);
      OneCluster(m, heads, spans, lists, i - 1);
      UsedSplit(m, heads, spans, lists, i - 1, hi);
    }
  }

  lemma UsedSplit(m: seq<Cell>, heads: set<nat>, spans: seq<Span>, lists: seq<seq<nat>>, i: nat, hi: nat)
    requires HeapOk(m, heads, spans, lists) && i < |spans| && spans[i].hi <= hi
    requires i + 1 < |spans| ==> hi <= spans[i + 1].lo
    ensures |UsedBelow(m, heads, hi)| == |UsedBelow(m, heads, spans[i].lo)| + |UsedCells(m, heads, spans[i].lo, spans[i].hi)|
  {
    var lo, end := spans[i].lo, spans[i].hi;
    var s, t := UsedBelow(m, heads, lo), UsedCells(m, heads, lo, end);
    forall c: nat ensures c in UsedBelow(m, heads, hi) <==> c in s + t {
      if end <= c < hi && UsedCell(m, heads, c) {
        var h: nat :| Used(m, heads, h) && h <= c < EndOf(m, h);
        UsedNotBetween(m, heads, spans, lists, i, hi, h);
        assert false;
      }
    }
    assert UsedBelow(m, heads, hi) == s + t && s * t == {};
  }

  lemma UsedNotBetween(m: seq<Cell>, heads: set<nat>, spans: seq<Span>, lists: seq<seq<nat>>, i: nat, hi: nat, h: nat)
    requires HeapOk(m, heads, spans, lists) && i < |spans| && spans[i].hi <= hi
    requires i + 1 < |spans| ==> hi <= spans[i + 1].lo
    requires h in heads
    ensures EndOf(m, h) <= spans[i].hi || hi <= h
  {
    assert InSpan(spans, h);
    var j :| 0 <= j < |spans| && spans[j].lo <= h < spans[j].hi;
    assert ClusterAt(m, heads, spans, lists, j);
    assert j < i ==> spans[j].hi < spans[i].lo;
    assert i + 1 < j ==> spans[i + 1].hi < spans[j].lo;
  }

  /** The used cells of the new heap are the places of those of the old one. */
  lemma UsedCellsMove(m0: seq<Cell>, heads0: set<nat>, m: seq<Cell>, heads: set<nat>, org: map<nat, nat>, all: seq<Region>)
    requires Placed(m0, heads0, m, heads, org, all, all)
    ensures forall c: nat :: UsedCell(m0, heads0, c) ==> UsedCell(m, heads, Reloc(all, c))
    ensures forall d: nat :: UsedCell(m, heads, d) ==> exists c: nat :: UsedCell(m0, heads0, c) && Reloc(all, c) == d
  {
    forall c: nat | UsedCell(m0, heads0, c) ensures UsedCell(m, heads, Reloc(all, c)) {
      var a: nat :| Used(m0, heads0, a) && a <= c < EndOf(m0, a);
      assert PlacedBlock(m0, a, m, heads, org, all, all);
      assert m[Reloc(all, a)] == Image(m0, a, all);
      assert Reloc(all, c) + (a - Reloc(all, a)) == c;
      assert Used(m, heads, Reloc(all, a));
    }
    forall d: nat | UsedCell(m, heads, d) ensures exists c: nat :: UsedCell(m0, heads0, c) && Reloc(all, c) == d {
      var b: nat :| Used(m, heads, b) && b <= d < EndOf(m, b);
      assert HasOrigin(m0, heads0, org, all, b);
      var a := org[b];
      assert PlacedBlock(m0, a, m, heads, org, all, all);
      assert m[b] == Image(m0, a, all);
      var c := d - b + a;
      assert Used(m0, heads0, a) && a <= c < EndOf(m0, a);
      assert Reloc(all, c) + (a - b) == c;
    }
  }

  /** Different used cells go to different places. */
  lemma UsedCellsApart(m0: seq<Cell>, heads0: set<nat>, m: seq<Cell>, heads: set<nat>, spans: seq<Span>, lists: seq<seq<nat>>,
                       org: map<nat, nat>, all: seq<Region>, c: nat, d: nat)
    requires Placed(m0, heads0, m, heads, org, all, all) && HeapOk(m, heads, spans, lists)
    requires UsedCell(m0, heads0, c) && UsedCell(m0, heads0, d) && Reloc(all, c) == Reloc(all, d)
    ensures c == d
  {
    var a: nat :| Used(m0, heads0, a) && a <= c < EndOf(m0, a);
    var b: nat :| Used(m0, heads0, b) && b <= d < EndOf(m0, b);
    assert PlacedBlock(m0, a, m, heads, org, all, all) && PlacedBlock(m0, b, m, heads, org, all, all);
    assert m[Reloc(all, a)] == Image(m0, a, all) && m[Reloc(all, b)] == Image(m0, b, all);
    assert Reloc(all, c) + (a - Reloc(all, a)) == c && Reloc(all, d) + (b - Reloc(all, b)) == d;
    BlocksDisjoint(m, heads, spans, lists, Reloc(all, a), Reloc(all, b));
    BlocksDisjoint(m, heads, spans, lists, Reloc(all, b), Reloc(all, a));
  }

  /** A one-to-one image has as many elements. */
  lemma {:induction false} ImageSize(s: set<nat>, t: set<nat>, all: seq<Region>)
    requires forall c {:trigger Reloc(all, c)} :: c in s ==> Reloc(all, c) in t
    requires forall c, d {:trigger Reloc(all, c), Reloc(all, d)} :: c in s && d in s && Reloc(all, c) == Reloc(all, d) ==> c == d
    requires forall d {:trigger d in t} :: d in t ==> exists c :: c in s && Reloc(all, c) == d
    ensures |s| == |t|
  {
    if s == {} {
      assert t == {};
    } else {
      var c :| c in s;
      var s', t' := s - {c}, t - {Reloc(all, c)};
      forall e {:trigger Reloc(all, e)} | e in s' ensures Reloc(all, e) in t' { assert Reloc(all, e) != Reloc(all, c); }
      forall d {:trigger d in t'} | d in t' ensures exists e :: e in s' && Reloc(all, e) == d {
        var e :| e in s && Reloc(all, e) == d;
        assert e in s';
      }
      ImageSize(s', t', all);
    }
  }

  lemma UsedCountConserved(m0: seq<Cell>, heads0: set<nat>, lists0: seq<seq<nat>>, m: seq<Cell>, heads: set<nat>, lists: seq<seq<nat>>,
                           spans: seq<Span>, org: map<nat, nat>, all: seq<Region>)
    requires HeapOk(m0, heads0, spans, lists0) && HeapOk(m, heads, spans, lists) && |m| == |m0|
    requires Placed(m0, heads0, m, heads, org, all, all)
    ensures |UsedBelow(m0, heads0, |m|)| == |UsedBelow(m, heads, |m|)|
  {
    var s, t := UsedBelow(m0, heads0, |m|), UsedBelow(m, heads, |m|);
    UsedCellsMove(m0, heads0, m, heads, org, all);
    UsedInside(m0, heads0, spans, lists0);
    UsedInside(m, heads, spans, lists);
    forall d: nat {:trigger d in t} | d in t ensures exists c :: c in s && Reloc(all, c) == d {
      var c: nat :| UsedCell(m0, heads0, c) && Reloc(all, c) == d;
      assert c in s;
    }
    forall c, d {:trigger Reloc(all, c), Reloc(all, d)} | c in s && d in s && Reloc(all, c) == Reloc(all, d) ensures c == d {
      UsedCellsApart(m0, heads0, m, heads, spans, lists, org, all, c, d);
    }
    ImageSize(s, t, all);
  }

  /** Compaction neither gains nor loses memory: the free lists of all clusters add up to the same. */
  lemma FreeSizeConserved(m0: seq<Cell>, heads0: set<nat>, lists0: seq<seq<nat>>, m: seq<Cell>, heads: set<nat>, lists: seq<seq<nat>>,
                          spans: seq<Span>, org: map<nat, nat>, all: seq<Region>)
    requires HeapOk(m0, heads0, spans, lists0) && HeapOk(m, heads, spans, lists) && |m| == |m0|
    requires Placed(m0, heads0, m, heads, org, all, all)
    ensures FreeSize(m, lists, |lists|) == FreeSize(m0, lists0, |lists0|)
  {
    if |spans| > 0 {
      assert ClusterAt(m, heads, spans, lists, |spans| - 1);
    }
    HeapUnits(m0, heads0, spans, lists0, |spans|, |m|);
    HeapUnits(m, heads, spans, lists, |spans|, |m|);
    UsedCountConserved(m0, heads0, lists0, m, heads, lists, spans, org, all);
  }

  lemma UsedInside(m: seq<Cell>, heads: set<nat>, spans: seq<Span>, lists: seq<seq<nat>>)
    requires HeapOk(m, heads, spans, lists)
    ensures forall c: nat {:trigger UsedCell(m, heads, c)} :: UsedCell(m, heads, c) ==> c < |m|
  {
    forall c: nat {:trigger UsedCell(m, heads, c)} | UsedCell(m, heads, c) ensures c < |m| {
      var h: nat :| Used(m, heads, h) && h <= c < EndOf(m, h);
      BlocksDisjoint(m, heads, spans, lists, h, h);
    }
  }
}
