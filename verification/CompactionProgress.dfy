/** When compaction may stop without having moved anything. */
module CompactionProgress {
  import opened HeapMemory
  import opened NodeList
  import opened HeapCluster
  import opened Heap

  ghost predicate MovableHead(m: seq<Cell>, heads: set<nat>, h: nat) {
    h in heads && h < |m| && !m[h].Unmovable()
  }

  /** b is the first movable block above the free block f, and it follows f directly or fits into it. */
  ghost predicate Loose(m: seq<Cell>, heads: set<nat>, f: nat, b: nat) {
    && f in heads && Free(m, f) && f < b && MovableHead(m, heads, b)
    && (forall h: nat {:trigger MovableHead(m, heads, h)} :: f < h < b ==> !MovableHead(m, heads, h))
    && (EndOf(m, f) == b || EndOf(m, b) - b <= EndOf(m, f) - f)
  }

  ghost predicate NothingLoose(m: seq<Cell>, heads: set<nat>) {
    forall f: nat, b: nat {:trigger Loose(m, heads, f, b)} :: !Loose(m, heads, f, b)
  }

  /** Free blocks below fr have no loose block, and no movable block lies between fr and p. */
  ghost predicate SearchedTo(m: seq<Cell>, heads: set<nat>, fr: nat, p: nat) {
    && (forall f: nat, b: nat {:trigger Loose(m, heads, f, b)} :: Loose(m, heads, f, b) ==> fr <= f)
    && (forall h: nat {:trigger MovableHead(m, heads, h)} :: fr < h < p ==> !MovableHead(m, heads, h))
  }

  ghost predicate Searched(m: seq<Cell>, heads: set<nat>, fr: nat, p: nat) {
    NothingLoose(m, heads) || (fr != NULL && SearchedTo(m, heads, fr, p))
  }

  /** As long as no move has been made (n counts them) the heap is as it was, and searched up to p. */
  ghost predicate Settled(n: nat, m0: seq<Cell>, heads0: set<nat>, m: seq<Cell>, heads: set<nat>, fr: nat, p: nat) {
    n == 0 ==> m == m0 && heads == heads0 && Searched(m0, heads0, fr, p)
  }

  /** fr is the lowest free block of the clusters that follow cluster from, which it is in cluster cf; NULL when
      there is none. */
  ghost predicate LowestFree(spans: seq<Span>, lists: seq<seq<nat>>, from: nat, cf: nat, fr: nat) {
    && from <= cf <= |lists| == |spans|
    && (forall j {:trigger lists[j]} :: from <= j < cf ==> lists[j] == [])
    && (fr == NULL <==> cf == |lists|)
    && (fr != NULL ==> spans[cf].lo <= fr < spans[cf].hi && forall i :: 0 <= i < |lists[cf]| ==> fr <= lists[cf][i])
  }

  /** fr is the free block behind f in a free list, or the list's end node. */
  ghost predicate NextFree(fl: seq<nat>, lo: nat, f: nat, fr: nat) {
    || (fr + 1 == lo && forall i :: 0 <= i < |fl| ==> fl[i] <= f)
    || (f < fr && Has(fl, fr) && forall i :: 0 <= i < |fl| ==> fl[i] <= f || fr <= fl[i])
  }

  lemma FreeInList(m: seq<Cell>, heads: set<nat>, spans: seq<Span>, lists: seq<seq<nat>>, f: nat) returns (j: nat, i: nat)
    requires HeapOk(m, heads, spans, lists) && f in heads && Free(m, f)
    ensures j < |spans| == |lists| && spans[j].lo <= f < spans[j].hi && i < |lists[j]| && lists[j][i] == f
  {
    assert InSpan(spans, f);
    j :| 0 <= j < |spans| && spans[j].lo <= f < spans[j].hi;
    assert ClusterAt(m, heads, spans, lists, j);
    assert f in FreeHeads(m, heads, spans[j].lo, spans[j].hi);
    assert Has(lists[j], f);
    i :| 0 <= i < |lists[j]| && lists[j][i] == f;
  }

  /** No free block of the clusters from on is below fr. */
  lemma NoneLower(m: seq<Cell>, heads: set<nat>, spans: seq<Span>, lists: seq<seq<nat>>, from: nat, cf: nat, fr: nat, f: nat)
    requires HeapOk(m, heads, spans, lists) && LowestFree(spans, lists, from, cf, fr)
    requires f in heads && Free(m, f) && (from < |spans| ==> spans[from].lo <= f)
    requires from == |spans| > 0 ==> spans[from - 1].hi <= f
    ensures fr != NULL && fr <= f
  {
    var j, i := FreeInList(m, heads, spans, lists, f);
    assert j < |spans| - 1 ==> spans[j].hi < spans[|spans| - 1].lo;
    assert j > cf && cf < |spans| ==> spans[cf].hi < spans[j].lo;
  }

  /** The search starts at the lowest free block of all. */
  lemma SearchStarts(m: seq<Cell>, heads: set<nat>, spans: seq<Span>, lists: seq<seq<nat>>, cf: nat, fr: nat, p: nat)
    requires HeapOk(m, heads, spans, lists) && LowestFree(spans, lists, 0, cf, fr)
    requires |spans| > 0 ==> p <= spans[0].lo
    ensures Searched(m, heads, fr, p)
  {
    forall f: nat, b: nat {:trigger Loose(m, heads, f, b)} | Loose(m, heads, f, b) ensures fr != NULL && fr <= f {
      var j, i := FreeInList(m, heads, spans, lists, f);
      assert j > 0 ==> spans[0].hi < spans[j].lo;
      NoneLower(m, heads, spans, lists, 0, cf, fr, f);
    }
    if fr != NULL {
      assert cf > 0 ==> spans[0].hi < spans[cf].lo;
    }
  }

  lemma NextInCluster(m: seq<Cell>, heads: set<nat>, spans: seq<Span>, lists: seq<seq<nat>>, cf: nat, fr: nat)
    requires HeapOk(m, heads, spans, lists) && cf < |spans| && Has(lists[cf], fr)
    ensures 0 < spans[cf].lo <= fr < spans[cf].hi && fr in heads && Free(m, fr)
  {
    assert ClusterAt(m, heads, spans, lists, cf);
    assert fr in FreeHeads(m, heads, spans[cf].lo, spans[cf].hi);
  }

  /** Going on with the next free block is right when the block at hand neither fits nor follows fr. */
  lemma SearchGoesOn(m: seq<Cell>, heads: set<nat>, spans: seq<Span>, lists: seq<seq<nat>>, cf: nat, fr: nat, b: nat,
                     next: nat, cf': nat, fr': nat)
    requires HeapOk(m, heads, spans, lists) && cf < |spans| && spans[cf].lo <= fr < spans[cf].hi
    requires Searched(m, heads, fr, b) && fr < b && MovableHead(m, heads, b)
    requires EndOf(m, fr) != b && EndOf(m, fr) - fr < EndOf(m, b) - b
    requires NextFree(lists[cf], spans[cf].lo, fr, next)
    requires if next + 1 == spans[cf].lo then LowestFree(spans, lists, cf + 1, cf', fr') else fr' == next
    ensures Searched(m, heads, fr', b)
  {
    if !NothingLoose(m, heads) {
      assert cf + 1 < |spans| ==> spans[cf].hi < spans[cf + 1].lo;
      forall f: nat, x: nat {:trigger Loose(m, heads, f, x)} | Loose(m, heads, f, x) ensures fr' != NULL && fr' <= f {
        assert f == fr ==> x == b;
        var j, i := FreeInList(m, heads, spans, lists, f);
        if Has(lists[cf], next) { NextInCluster(m, heads, spans, lists, cf, next); }
        if next + 1 != spans[cf].lo {
          assert j > cf ==> spans[cf].hi < spans[j].lo;
        } else {
          assert j > cf;
          assert j > cf + 1 ==> spans[cf + 1].hi < spans[j].lo;
          NoneLower(m, heads, spans, lists, cf + 1, cf', fr', f);
        }
      }
      assert fr' != NULL ==> fr <= fr';
    }
  }

  /** Blocks that may not be moved are no reason to stop. */
  lemma SearchSkips(m: seq<Cell>, heads: set<nat>, fr: nat, p: nat, p': nat)
    requires Searched(m, heads, fr, p)
    requires forall h: nat {:trigger MovableHead(m, heads, h)} :: p <= h < p' && fr < h ==> !MovableHead(m, heads, h)
    ensures Searched(m, heads, fr, p')
  {
  }

  /** Before the first search no free block has been looked for. */
  ghost predicate SettledOrNew(n: nat, m0: seq<Cell>, heads0: set<nat>, m: seq<Cell>, heads: set<nat>, cs: nat, fr: nat, p: nat) {
    Settled(n, m0, heads0, m, heads, fr, p) || (n == 0 && cs == 0 && fr == NULL && m == m0 && heads == heads0)
  }

  lemma SearchRestarts(n: nat, m0: seq<Cell>, heads0: set<nat>, m: seq<Cell>, heads: set<nat>, spans: seq<Span>, lists: seq<seq<nat>>, cs: nat,
                       cf: nat, fr: nat)
    requires HeapOk(m, heads, spans, lists) && cs < |spans|
    requires SettledOrNew(n, m0, heads0, m, heads, cs, NULL, spans[cs].lo)
    requires LowestFree(spans, lists, 0, cf, fr)
    ensures Settled(n, m0, heads0, m, heads, fr, spans[cs].lo)
  {
    if cs == 0 { SearchStarts(m, heads, spans, lists, cf, fr, spans[0].lo); }
  }

  lemma SearchNextCluster(n: nat, m0: seq<Cell>, heads0: set<nat>, m: seq<Cell>, heads: set<nat>, spans: seq<Span>, lists: seq<seq<nat>>, cs: nat,
                          fr: nat, p: nat)
    requires HeapOk(m, heads, spans, lists) && cs < |spans|
    requires Settled(n, m0, heads0, m, heads, fr, p) && (fr != NULL ==> p == spans[cs].hi)
    ensures Settled(n, m0, heads0, m, heads, fr, SpanStart(spans, cs + 1, |m|))
  {
    HeapOkTiled(m, heads, spans, lists);
    forall h: nat {:trigger MovableHead(m, heads, h)} | spans[cs].hi <= h < SpanStart(spans, cs + 1, |m|) ensures !MovableHead(m, heads, h) {
      if h in heads { NoHeadsBetween(m, heads, spans, cs, h); }
    }
  }

  lemma SearchDone(n: nat, m0: seq<Cell>, heads0: set<nat>, m: seq<Cell>, heads: set<nat>, spans: seq<Span>, lists: seq<seq<nat>>, cs: nat, fr: nat)
    requires HeapOk(m, heads, spans, lists)
    requires SettledOrNew(n, m0, heads0, m, heads, cs, fr, SpanStart(spans, cs, |m|))
    requires cs == |spans| || (fr == NULL && Settled(n, m0, heads0, m, heads, NULL, SpanStart(spans, cs, |m|)))
    ensures n == 0 ==> NothingLoose(m0, heads0)
  {
    if |spans| == 0 { SearchStarts(m, heads, spans, lists, 0, NULL, 0); }
  }
}
