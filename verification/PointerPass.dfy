/** The pass over the heap that rewrites pointers. */
module PointerPass {
  import opened HeapMemory
  import opened Heap
  import opened Relocation
  import opened CompactionSteps

  /** The pointers of the used blocks below p have been rewritten, and nothing else. */
  ghost predicate RewrittenTo(m: seq<Cell>, heads: set<nat>, batch: seq<Region>, p: nat, m': seq<Cell>) {
    && SameShape(m, m')
    && (forall h, c {:trigger EndOf(m, h), m'[c]} :: h in heads && h < p && !Free(m, h) && h <= c < EndOf(m, h) && c < |m| ==>
          m'[c].ref == Reloc(batch, m[c].ref))
    && (forall c {:trigger m'[c]} :: p <= c < |m| ==> m'[c] == m[c])
  }

  /** Rewriting the cells of the block at p. */
  lemma BlockRewritten(m: seq<Cell>, heads: set<nat>, spans: seq<Span>, lists: seq<seq<nat>>, batch: seq<Region>, p: nat,
                       m1: seq<Cell>, m2: seq<Cell>)
    requires HeapOk(m, heads, spans, lists) && p in heads
    requires RewrittenTo(m, heads, batch, p, m1) && SameShape(m1, m2)
    requires forall c {:trigger m2[c]} :: 0 <= c < |m| ==>
      m2[c] == if !Free(m, p) && p <= c < EndOf(m, p) then m1[c].(ref := Reloc(batch, m1[c].ref)) else m1[c]
    ensures RewrittenTo(m, heads, batch, EndOf(m, p), m2)
  {
    BlocksDisjoint(m, heads, spans, lists, p, p);
    forall c {:trigger m2[c]} | 0 <= c < |m| ensures m2[c] == m[c].(ref := m2[c].ref) {
      assert m1[c] == m[c].(ref := m1[c].ref);
    }
    forall h, c {:trigger EndOf(m, h), m2[c]} | h in heads && h < EndOf(m, p) && !Free(m, h) && h <= c < EndOf(m, h) && c < |m|
      ensures m2[c].ref == Reloc(batch, m[c].ref)
    {
      BlocksDisjoint(m, heads, spans, lists, p, h);
      BlocksDisjoint(m, heads, spans, lists, h, p);
      assert h == p ==> m1[c] == m[c];
    }
  }

  /** No block starts between two clusters. */
  lemma GapRewritten(m: seq<Cell>, heads: set<nat>, spans: seq<Span>, batch: seq<Region>, p: nat, p': nat, m1: seq<Cell>)
    requires RewrittenTo(m, heads, batch, p, m1) && p <= p'
    requires forall h {:trigger h in heads} :: h in heads ==> !(p <= h < p')
    ensures RewrittenTo(m, heads, batch, p', m1)
  {
    forall h, c {:trigger EndOf(m, h), m1[c]} | h in heads && h < p' && !Free(m, h) && h <= c < EndOf(m, h) && c < |m|
      ensures m1[c].ref == Reloc(batch, m[c].ref)
    {
      assert h < p;
    }
  }

  lemma NextSpan(m: seq<Cell>, heads: set<nat>, spans: seq<Span>, lists: seq<seq<nat>>, batch: seq<Region>, i: nat, m1: seq<Cell>)
    requires HeapOk(m, heads, spans, lists) && i < |spans|
    requires RewrittenTo(m, heads, batch, spans[i].hi, m1)
    ensures RewrittenTo(m, heads, batch, SpanStart(spans, i + 1, |m|), m1)
  {
    assert ClusterAt(m, heads, spans, lists, i);
    HeapOkTiled(m, heads, spans, lists);
    forall h {:trigger h in heads} | h in heads ensures !(spans[i].hi <= h < SpanStart(spans, i + 1, |m|)) {
      NoHeadsBetween(m, heads, spans, i, h);
    }
    GapRewritten(m, heads, spans, batch, spans[i].hi, SpanStart(spans, i + 1, |m|), m1);
  }
}
