/** Heap compaction: what moving blocks and rewriting pointers does to the objects of the heap. */
module Compaction {
  import opened HeapMemory
  import opened Relocation

  /** Cell c of m0 with its pointer rewritten by the moves rs. */
  ghost function Image(m0: seq<Cell>, c: nat, rs: seq<Region>): Cell
    requires c < |m0|
  {
    m0[c].(ref := Reloc(rs, m0[c].ref))
  }

  /** The block at a in m0 stands at b in m, its pointers rewritten by rs. */
  ghost predicate CopyOf(m0: seq<Cell>, a: nat, m: seq<Cell>, b: nat, rs: seq<Region>) {
    && a < EndOf(m0, a) <= |m0| && b <= a && b + (EndOf(m0, a) - a) <= |m|
    && (forall c {:trigger m[c]} :: b <= c < b + (EndOf(m0, a) - a) ==> m[c] == Image(m0, c + (a - b), rs))
  }

  /** All cells of the block at a move by the same distance; an unmovable block does not move. */
  ghost predicate MovesAsUnit(m0: seq<Cell>, a: nat, rs: seq<Region>) {
    && a < |m0|
    && (forall c {:trigger Reloc(rs, c)} :: a <= c < EndOf(m0, a) ==> Reloc(rs, c) + (a - Reloc(rs, a)) == c)
    && (m0[a].Unmovable() ==> Reloc(rs, a) == a)
  }

  /** The used block at a in m0 is, after the moves all of which done have rewritten pointers, a used
      block of m with the same contents. */
  ghost predicate PlacedBlock(m0: seq<Cell>, a: nat, m: seq<Cell>, heads: set<nat>, org: map<nat, nat>, done: seq<Region>, all: seq<Region>) {
    && MovesAsUnit(m0, a, all)
    && var b := Reloc(all, a);
       b in heads && b < |m| && !Free(m, b) && b in org && org[b] == a && CopyOf(m0, a, m, b, done)
  }

  /** Every used block of m comes from a used block of m0. */
  ghost predicate HasOrigin(m0: seq<Cell>, heads0: set<nat>, org: map<nat, nat>, all: seq<Region>, b: nat) {
    b in org && org[b] in heads0 && !Free(m0, org[b]) && Reloc(all, org[b]) == b
  }

  ghost predicate Placed(m0: seq<Cell>, heads0: set<nat>, m: seq<Cell>, heads: set<nat>, org: map<nat, nat>, done: seq<Region>, all: seq<Region>) {
    && RegionsOk(all)
    && (forall a {:trigger PlacedBlock(m0, a, m, heads, org, done, all)} :: a in heads0 && !Free(m0, a) ==> PlacedBlock(m0, a, m, heads, org, done, all))
    && (forall b {:trigger HasOrigin(m0, heads0, org, all, b)} :: b in heads && !Free(m, b) ==> HasOrigin(m0, heads0, org, all, b))
  }

  /** The movable block at h, in the run that starts at start, has been copied down by start - dst. */
  ghost predicate RunBlock(m: seq<Cell>, m': seq<Cell>, heads': set<nat>, start: nat, end: nat, dst: nat, junk: set<nat>, h: nat) {
    && dst < start <= h < |m| && !Free(m, h) && !m[h].Unmovable()
    && h < EndOf(m, h) <= end <= |m| == |m'|
    && dst + (h - start) in heads' - junk
    && (forall c {:trigger m'[c]} :: dst + (h - start) <= c < dst + (EndOf(m, h) - start) ==> m'[c] == m[c + (start - dst)])
  }

  /** The used block at h lies outside the run and is unchanged. */
  ghost predicate OtherBlock(m: seq<Cell>, m': seq<Cell>, heads': set<nat>, start: nat, end: nat, dst: nat, junk: set<nat>, h: nat) {
    && h in heads' - junk && start <= end
    && h < EndOf(m, h) <= |m| == |m'|
    && (EndOf(m, h) <= start || end <= h) && (EndOf(m, h) <= dst || dst + (end - start) <= h)
    && (forall c {:trigger m'[c]} :: h <= c < EndOf(m, h) ==> m'[c] == m[c])
  }

  /** The used header h of the new state stands for a used block of the old one. */
  ghost predicate Sourced(m: seq<Cell>, heads: set<nat>, start: nat, end: nat, dst: nat, h: nat) {
    h < |m| && dst <= start &&
    if dst <= h < dst + (end - start) then h + (start - dst) in heads else h in heads && !Free(m, h) && !(start <= h < end)
  }

  /** What moving the run [start, end) down to dst does to the used blocks: those of the run come to
      stand at dst, the others stay. Headers in junk are left over and say nothing. */
  ghost predicate RunCopied(m: seq<Cell>, heads: set<nat>, m': seq<Cell>, heads': set<nat>, start: nat, end: nat, dst: nat, junk: set<nat>) {
    && dst < start < end <= |m| == |m'|
    && (forall h {:trigger RunBlock(m, m', heads', start, end, dst, junk, h)} :: h in heads && start <= h < end ==>
          RunBlock(m, m', heads', start, end, dst, junk, h))
    && (forall h {:trigger OtherBlock(m, m', heads', start, end, dst, junk, h)} :: h in heads && !Free(m, h) && !(start <= h < end) ==>
          OtherBlock(m, m', heads', start, end, dst, junk, h))
    && (forall h {:trigger Sourced(m, heads, start, end, dst, h)} :: h in heads' - junk && !Free(m', h) ==>
          Sourced(m, heads, start, end, dst, h))
  }

  ghost predicate RunMoved(m: seq<Cell>, heads: set<nat>, m': seq<Cell>, heads': set<nat>, start: nat, end: nat, dst: nat) {
    RunCopied(m, heads, m', heads', start, end, dst, {})
  }

  /** Addresses from cur on have not been moved. */
  ghost predicate Below(all: seq<Region>, cur: nat) {
    forall i :: 0 <= i < |all| ==> all[i].end <= cur
  }

  lemma RelocAbove(all: seq<Region>, cur: nat, p: nat)
    requires RegionsOk(all) && Below(all, cur)
    ensures cur <= p ==> Reloc(all, p) == p
    ensures cur <= Reloc(all, p) ==> Reloc(all, p) == p
  {
    RelocMoves(all, p);
    if cur <= p { RelocOutside(all, p); }
  }

  lemma RegionsAppend(all: seq<Region>, cur: nat, start: nat, end: nat, dst: nat)
    requires RegionsOk(all) && Below(all, cur) && cur <= start && dst < start < end <= ADDRESS_SPACE
    ensures RegionsOk(all + [NewRegion(start, end, dst)])
    ensures Below(all + [NewRegion(start, end, dst)], end)
  {
  }

  ghost function MovedOrigins(org: map<nat, nat>, m': seq<Cell>, heads': set<nat>, start: nat, end: nat, dst: nat): map<nat, nat>
    requires dst < start < end
  {
    map h | h in heads' && !Free(m', h) :: if dst <= h < dst + (end - start) then h + (start - dst) else if h in org then org[h] else 0
  }

  /** A used block that is not in the run keeps its place. */
  lemma OtherStays(m0: seq<Cell>, heads0: set<nat>, m: seq<Cell>, heads: set<nat>, org: map<nat, nat>, done: seq<Region>, all: seq<Region>,
                   m': seq<Cell>, heads': set<nat>, start: nat, end: nat, dst: nat, a: nat)
    requires Placed(m0, heads0, m, heads, org, done, all) && Below(all, start)
    requires RunMoved(m, heads, m', heads', start, end, dst)
    requires a in heads0 && !Free(m0, a) && !(start <= Reloc(all, a) < end)
    ensures PlacedBlock(m0, a, m', heads', MovedOrigins(org, m', heads', start, end, dst), done, all + [NewRegion(start, end, dst)])
    ensures Reloc(all + [NewRegion(start, end, dst)], a) == Reloc(all, a)
  {
    var r := NewRegion(start, end, dst);
    var b := Reloc(all, a);
    assert PlacedBlock(m0, a, m, heads, org, done, all);
    assert OtherBlock(m, m', heads', start, end, dst, {}, b);
    RelocMoves(all, a);
    assert m[b] == Image(m0, b + (a - b), done);
    assert EndOf(m, b) == b + (EndOf(m0, a) - a);
    assert !Free(m, b);
    forall c {:trigger Reloc(all + [r], c)} | a <= c < EndOf(m0, a) ensures Reloc(all + [r], c) == Reloc(all, c) {
      RelocAppend(all, r, c);
      if InRegion(r, c) {
        RelocAbove(all, start, c);
        assert false;
      }
    }
    assert m'[b] == m[b];
    assert !Free(m', b);
  }

  /** A used block of the run comes to stand in the freed space. */
  lemma RunBlockMoves(m0: seq<Cell>, heads0: set<nat>, m: seq<Cell>, heads: set<nat>, org: map<nat, nat>, done: seq<Region>, all: seq<Region>,
                      m': seq<Cell>, heads': set<nat>, start: nat, end: nat, dst: nat, a: nat)
    requires Placed(m0, heads0, m, heads, org, done, all) && Below(all, start)
    requires RunMoved(m, heads, m', heads', start, end, dst)
    requires a in heads0 && !Free(m0, a) && start <= Reloc(all, a) < end
    ensures PlacedBlock(m0, a, m', heads', MovedOrigins(org, m', heads', start, end, dst), done, all + [NewRegion(start, end, dst)])
    ensures Reloc(all, a) == a && Reloc(all + [NewRegion(start, end, dst)], a) == dst + (a - start)
  {
    var r := NewRegion(start, end, dst);
    assert PlacedBlock(m0, a, m, heads, org, done, all);
    RelocAbove(all, start, a);
    assert RunBlock(m, m', heads', start, end, dst, {}, a);
    assert m[a] == Image(m0, a, done);
    assert EndOf(m, a) == EndOf(m0, a) <= end;
    forall c {:trigger Reloc(all + [r], c)} | a <= c < EndOf(m0, a) ensures Reloc(all + [r], c) == dst + (c - start) {
      RelocAppend(all, r, c);
    }
    var b := dst + (a - start);
    forall c {:trigger m'[c]} | b <= c < b + (EndOf(m0, a) - a) ensures m'[c] == Image(m0, c + (a - b), done) {
      assert m'[c] == m[c + (start - dst)] && c + (start - dst) == c + (a - b);
    }
    assert m'[b] == m[a];
  }

  /** One step of compaction keeps all objects. */
  lemma MoveStep(m0: seq<Cell>, heads0: set<nat>, m: seq<Cell>, heads: set<nat>, org: map<nat, nat>, done: seq<Region>, all: seq<Region>,
                 m': seq<Cell>, heads': set<nat>, start: nat, end: nat, dst: nat)
    requires Placed(m0, heads0, m, heads, org, done, all) && Below(all, start) && end <= ADDRESS_SPACE
    requires RunMoved(m, heads, m', heads', start, end, dst)
    ensures Placed(m0, heads0, m', heads', MovedOrigins(org, m', heads', start, end, dst), done, all + [NewRegion(start, end, dst)])
    ensures Below(all + [NewRegion(start, end, dst)], end)
  {
    var all' := all + [NewRegion(start, end, dst)];
    var org' := MovedOrigins(org, m', heads', start, end, dst);
    RegionsAppend(all, start, start, end, dst);
    forall a {:trigger PlacedBlock(m0, a, m', heads', org', done, all')} | a in heads0 && !Free(m0, a)
      ensures PlacedBlock(m0, a, m', heads', org', done, all')
    {
      if start <= Reloc(all, a) < end {
        RunBlockMoves(m0, heads0, m, heads, org, done, all, m', heads', start, end, dst, a);
      } else {
        OtherStays(m0, heads0, m, heads, org, done, all, m', heads', start, end, dst, a);
      }
    }
    forall b {:trigger HasOrigin(m0, heads0, org', all', b)} | b in heads' && !Free(m', b) ensures HasOrigin(m0, heads0, org', all', b) {
      var h := if dst <= b < dst + (end - start) then b + (start - dst) else b;
      assert Sourced(m, heads, start, end, dst, b);
      if start <= h < end { assert RunBlock(m, m', heads', start, end, dst, {}, h); }
      assert h in heads && !Free(m, h);
      assert HasOrigin(m0, heads0, org, all, h);
      var a := org[h];
      if start <= h < end {
        RunBlockMoves(m0, heads0, m, heads, org, done, all, m', heads', start, end, dst, a);
      } else {
        OtherStays(m0, heads0, m, heads, org, done, all, m', heads', start, end, dst, a);
      }
    }
  }

  /** All pointers of used blocks have been rewritten by batch, and nothing else has changed. */
  ghost predicate Rewritten(m: seq<Cell>, heads: set<nat>, batch: seq<Region>, m': seq<Cell>) {
    && |m'| == |m|
    && (forall c {:trigger m'[c]} :: 0 <= c < |m| ==> m'[c] == m[c].(ref := m'[c].ref))
    && (forall h, c {:trigger EndOf(m, h), m'[c]} :: h in heads && !Free(m, h) && h <= c < EndOf(m, h) && c < |m| ==>
          m'[c].ref == Reloc(batch, m[c].ref))
  }

  /** After a batch has been applied to all pointers they are up to date with the moves. */
  lemma BatchApplied(m0: seq<Cell>, heads0: set<nat>, m: seq<Cell>, heads: set<nat>, org: map<nat, nat>, done: seq<Region>, batch: seq<Region>, m': seq<Cell>)
    requires Placed(m0, heads0, m, heads, org, done, done + batch)
    requires Rewritten(m, heads, batch, m')
    ensures Placed(m0, heads0, m', heads, org, done + batch, done + batch)
  {
    var all := done + batch;
    forall h {:trigger Free(m', h)} | 0 <= h < |m| ensures Free(m', h) == Free(m, h) {
      assert m'[h] == m[h].(ref := m'[h].ref);
    }
    forall a {:trigger PlacedBlock(m0, a, m', heads, org, all, all)} | a in heads0 && !Free(m0, a)
      ensures PlacedBlock(m0, a, m', heads, org, all, all)
    {
      assert PlacedBlock(m0, a, m, heads, org, done, all);
      var b := Reloc(all, a);
      assert m[b] == Image(m0, a, done) && EndOf(m, b) == b + (EndOf(m0, a) - a);
      forall c {:trigger m'[c]} | b <= c < b + (EndOf(m0, a) - a) ensures m'[c] == Image(m0, c + (a - b), all) {
        assert m[c] == Image(m0, c + (a - b), done);
        RelocCompose(done, batch, m0[c + (a - b)].ref);
      }
    }
    forall b {:trigger HasOrigin(m0, heads0, org, all, b)} | b in heads && !Free(m', b) ensures HasOrigin(m0, heads0, org, all, b) {
      assert b < |m| ==> Free(m', b) == Free(m, b);
    }
  }
}
