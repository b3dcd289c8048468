/** Relocation regions: what a batch of block moves does to pointers. */
module Relocation {
  import opened HeapMemory

  const ADDRESS_SPACE: nat := 0x1_0000_0000

  /** The block run [start, end) has been moved down to destination. offset is the 32-bit difference. */
  datatype Region = Region(start: nat, end: nat, destination: nat, offset: nat)

  function NewRegion(start: nat, end: nat, destination: nat): Region {
    Region(start, end, destination, (destination - start) % ADDRESS_SPACE)
  }

  ghost predicate RegionOk(r: Region) {
    r.destination < r.start < r.end <= ADDRESS_SPACE && r == NewRegion(r.start, r.end, r.destination)
  }

  /** Downward moves of disjoint runs, in increasing order of source address. */
  ghost predicate RegionsOk(rs: seq<Region>) {
    && (forall i {:trigger rs[i]} :: 0 <= i < |rs| ==> RegionOk(rs[i]))
    && (forall i, j {:trigger rs[i], rs[j]} :: 0 <= i < j < |rs| ==> rs[i].end <= rs[j].start)
  }

  ghost predicate InRegion(r: Region, p: nat) {
    r.start <= p < r.end
  }

  /** Where address p is after the moves rs. */
  ghost function Reloc(rs: seq<Region>, p: nat): nat {
    if rs == [] then p
    else
      var last := rs[|rs| - 1];
      if InRegion(last, p) then last.destination + (p - last.start) else Reloc(rs[..|rs| - 1], p)
  }

  lemma {:induction false} RelocInside(rs: seq<Region>, i: nat, p: nat)
    requires RegionsOk(rs) && i < |rs| && InRegion(rs[i], p)
    ensures Reloc(rs, p) == rs[i].destination + (p - rs[i].start)
    ensures Reloc(rs, p) < p
  {
    if i < |rs| - 1 {
      assert !InRegion(rs[|rs| - 1], p);
      RelocInside(rs[..|rs| - 1], i, p);
    }
  }

  lemma {:induction false} RelocOutside(rs: seq<Region>, p: nat)
    requires forall i :: 0 <= i < |rs| ==> !InRegion(rs[i], p)
    ensures Reloc(rs, p) == p
  {
    if rs != [] {
      RelocOutside(rs[..|rs| - 1], p);
    }
  }

  /** A pointer changes exactly when it lies in a moved region; it never goes up. */
  lemma RelocMoves(rs: seq<Region>, p: nat)
    requires RegionsOk(rs)
    ensures Reloc(rs, p) <= p
    ensures Reloc(rs, p) != p <==> exists i :: 0 <= i < |rs| && InRegion(rs[i], p)
  {
    if i :| 0 <= i < |rs| && InRegion(rs[i], p) {
      RelocInside(rs, i, p);
    } else {
      RelocOutside(rs, p);
    }
  }

  /** Appending one region. */
  lemma RelocAppend(rs: seq<Region>, r: Region, p: nat)
    ensures Reloc(rs + [r], p) == if InRegion(r, p) then r.destination + (p - r.start) else Reloc(rs, p)
  {
    assert (rs + [r])[..|rs|] == rs;
  }

  /** Rewriting pointers batch by batch is rewriting them once by all batches: no address is the source
      of one batch and lies where an earlier batch moved something to. */
  lemma {:induction false} RelocCompose(done: seq<Region>, batch: seq<Region>, p: nat)
    requires RegionsOk(done + batch)
    ensures Reloc(batch, Reloc(done, p)) == Reloc(done + batch, p)
  {
    var all := done + batch;
    RegionsPart(done, batch);
    if i :| 0 <= i < |done| && InRegion(done[i], p) {
      RelocInside(done, i, p);
      assert all[i] == done[i];
      RelocInside(all, i, p);
      forall j | 0 <= j < |batch| ensures !InRegion(batch[j], Reloc(done, p)) {
        assert all[i].end <= all[|done| + j].start;
      }
      RelocOutside(batch, Reloc(done, p));
    } else {
      RelocOutside(done, p);
      ComposeOutside(done, batch, p);
    }
  }

  lemma RegionsPart(done: seq<Region>, batch: seq<Region>)
    requires RegionsOk(done + batch)
    ensures RegionsOk(done) && RegionsOk(batch)
  {
    var all := done + batch;
    assert forall i {:trigger done[i]} :: 0 <= i < |done| ==> all[i] == done[i];
    assert forall i {:trigger batch[i]} :: 0 <= i < |batch| ==> all[|done| + i] == batch[i];
  }

  lemma ComposeOutside(done: seq<Region>, batch: seq<Region>, p: nat)
    requires RegionsOk(done + batch) && RegionsOk(batch)
    requires forall i :: 0 <= i < |done| ==> !InRegion(done[i], p)
    ensures Reloc(batch, p) == Reloc(done + batch, p)
  {
    var all := done + batch;
    if j :| 0 <= j < |batch| && InRegion(batch[j], p) {
      assert all[|done| + j] == batch[j];
      RelocInside(all, |done| + j, p);
      RelocInside(batch, j, p);
    } else {
      RelocOutside(batch, p);
      forall i | 0 <= i < |all| ensures !InRegion(all[i], p) {
        assert all[i] == if i < |done| then done[i] else batch[i - |done|];
      }
      RelocOutside(all, p);
    }
  }

  /** The binary search that rewrites one pointer. */
  method RelocatePointer(regions: array<Region>, count: nat, minimum: nat, maximum: nat, ref: nat) returns (r: nat)
    requires count <= regions.Length && RegionsOk(regions[..count])
    requires forall i :: 0 <= i < count ==> minimum <= regions[i].start && regions[i].end <= maximum
    ensures r == Reloc(regions[..count], ref)
  {
    ghost var rs := regions[..count];
    r := ref;
    if minimum <= ref < maximum {
      var left, right := 0, count;
      while left < right
        invariant 0 <= left <= right <= count
        invariant forall i :: 0 <= i < left ==> rs[i].end <= ref
        invariant forall i :: right <= i < count ==> ref < rs[i].start
      {
        var center := (left + right) / 2;
        var current := regions[center];
        assert current == rs[center] && RegionOk(rs[center]);
        if ref < current.start {
          right := center;
        } else if current.end <= ref {
          left := center + 1;
        } else {
          r := (ref + current.offset) % ADDRESS_SPACE;
          RelocInside(rs, center, ref);
          OffsetAdds(current, ref);
          return;
        }
      }
    }
    RelocOutside(rs, ref);
  }

  /** Adding the 32-bit offset wraps around to the right address. */
  lemma OffsetAdds(r: Region, p: nat)
    requires RegionOk(r) && InRegion(r, p)
    ensures (p + r.offset) % ADDRESS_SPACE == r.destination + (p - r.start)
  {
    assert r.offset == r.destination - r.start + ADDRESS_SPACE;
  }

  /** The lowest start and the highest end of a batch. */
  method RegionBounds(regions: array<Region>, count: nat) returns (minimum: nat, maximum: nat)
    requires 0 < count <= regions.Length
    ensures forall i :: 0 <= i < count ==> minimum <= regions[i].start && regions[i].end <= maximum
    ensures exists i :: 0 <= i < count && minimum == regions[i].start
    ensures exists i :: 0 <= i < count && maximum == regions[i].end
  {
    minimum, maximum := regions[0].start, regions[0].end;
    ghost var a, b := 0, 0;
    for i := 0 to count
      invariant forall j :: 0 <= j < i ==> minimum <= regions[j].start && regions[j].end <= maximum
      invariant 0 <= a < count && minimum == regions[a].start
      invariant 0 <= b < count && maximum == regions[b].end
    {
      if regions[i].start < minimum { minimum := regions[i].start; a := i; }
      if maximum < regions[i].end { maximum := regions[i].end; b := i; }
    }
  }
}
