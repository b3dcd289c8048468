/** A compacted heap is ready for the next collection: references and marks are in order, and what the moved roots
    reach is what was reached before, moved. */
module CompactionGraph {
  import opened HeapMemory
  import opened HeapCluster
  import opened Heap
  import opened Relocation
  import opened Compaction
  import opened CompactionResults
  import opened Reachability
  import opened MarkPhase

  /** Null stays null. */
  lemma NullStays(all: seq<Region>)
    requires RegionsOk(all)
    ensures Reloc(all, NULL) == NULL
  {
    RelocMoves(all, NULL);
  }

  /** Cell c of a used block a: where it is now, and what it points at. */
  lemma SlotMoves(m0: seq<Cell>, heads0: set<nat>, m: seq<Cell>, heads: set<nat>, org: map<nat, nat>, all: seq<Region>, a: nat, c: nat)
    requires Placed(m0, heads0, m, heads, org, all, all)
    requires Used(m0, heads0, a) && a <= c < EndOf(m0, a) && TargetOk(m0, heads0, c)
    ensures Reloc(all, c) < |m| && Reloc(all, c) + (a - Reloc(all, a)) == c
    ensures m[Reloc(all, c)] == m0[c].(ref := Reloc(all, m0[c].ref))
    ensures Target(m, Reloc(all, c)) == Reloc(all, Target(m0, c)) && TargetOk(m, heads, Reloc(all, c))
  {
    assert PlacedBlock(m0, a, m, heads, org, all, all);
    var d := Reloc(all, c);
    assert m[d] == Image(m0, d + (a - Reloc(all, a)), all);
    NullStays(all);
    if Target(m0, c) != NULL { assert PlacedBlock(m0, Target(m0, c), m, heads, org, all, all); }
  }

  /** The header of a used block, and its extent. */
  lemma BlockMoves(m0: seq<Cell>, heads0: set<nat>, m: seq<Cell>, heads: set<nat>, org: map<nat, nat>, all: seq<Region>, a: nat)
    requires Placed(m0, heads0, m, heads, org, all, all) && Used(m0, heads0, a)
    ensures var b := Reloc(all, a);
      && Used(m, heads, b) && b < |m| && a < |m0| && m[b] == m0[a].(ref := m[b].ref) && EndOf(m, b) - b == EndOf(m0, a) - a > 0
      && b in org && org[b] == a
  {
    assert PlacedBlock(m0, a, m, heads, org, all, all);
    assert m[Reloc(all, a)] == Image(m0, a, all);
  }

  lemma ObjectMoves(m0: seq<Cell>, heads0: set<nat>, m: seq<Cell>, heads: set<nat>, spans: seq<Span>, org: map<nat, nat>, all: seq<Region>, a: nat)
    requires Placed(m0, heads0, m, heads, org, all, all) && HeapTiled(m, heads, spans)
    requires Used(m0, heads0, a) && ObjectOk(m0, heads0, a)
    ensures ObjectOk(m, heads, Reloc(all, a))
  {
    var b := Reloc(all, a);
    BlockMoves(m0, heads0, m, heads, org, all, a);
    SlotMoves(m0, heads0, m, heads, org, all, a, a);
    NullStays(all);
    forall d {:trigger PlainSlot(m, heads, d)} | b < d <= b + Children(m[b]) ensures PlainSlot(m, heads, d) {
      var c := d + (a - b);
      assert PlainSlot(m0, heads0, c);
      SlotMoves(m0, heads0, m, heads, org, all, a, c);
      BlocksApart(m, heads, spans, b, d);
    }
  }

  /** All references of the compacted heap are good. */
  lemma GraphMoves(m0: seq<Cell>, heads0: set<nat>, m: seq<Cell>, heads: set<nat>, spans: seq<Span>, org: map<nat, nat>, all: seq<Region>)
    requires Placed(m0, heads0, m, heads, org, all, all) && HeapTiled(m, heads, spans)
    requires GraphOk(m0, heads0)
    ensures GraphOk(m, heads)
  {
    forall b {:trigger ObjectOk(m, heads, b)} | b in heads && !Free(m, b) ensures ObjectOk(m, heads, b) {
      assert HasOrigin(m0, heads0, org, all, b);
      assert ObjectOk(m0, heads0, org[b]);
      ObjectMoves(m0, heads0, m, heads, spans, org, all, org[b]);
    }
    forall h | h in heads ensures h < |m| && h != NULL {
      BlocksApart(m, heads, spans, h, h);
      InSomeSpan(m, heads, spans, h);
    }
  }

  lemma InSomeSpan(m: seq<Cell>, heads: set<nat>, spans: seq<Span>, h: nat)
    requires HeapTiled(m, heads, spans) && h in heads
    ensures h != NULL
  {
    assert InSpan(spans, h);
    var i :| 0 <= i < |spans| && spans[i].lo <= h < spans[i].hi;
    assert SpanTiled(m, heads, spans, i);
  }

  /** So are the marks. */
  lemma MarksMove(m0: seq<Cell>, heads0: set<nat>, m: seq<Cell>, heads: set<nat>, spans: seq<Span>, lists: seq<seq<nat>>, org: map<nat, nat>, all: seq<Region>)
    requires Placed(m0, heads0, m, heads, org, all, all) && HeapOk(m, heads, spans, lists)
    requires Unmarked(m0, heads0)
    ensures Unmarked(m, heads)
  {
    HeapOkTiled(m, heads, spans, lists);
    GraphMoves(m0, heads0, m, heads, spans, org, all);
    forall h {:trigger m[h]} | h in heads ensures (m[h].alive <==> m[h].event) && (Free(m, h) ==> !m[h].event) {
      if Free(m, h) {
        assert InSpan(spans, h);
        var i :| 0 <= i < |spans| && spans[i].lo <= h < spans[i].hi;
        assert ClusterAt(m, heads, spans, lists, i);
      } else {
        assert HasOrigin(m0, heads0, org, all, h);
        BlockMoves(m0, heads0, m, heads, org, all, org[h]);
      }
    }
  }

  // Reachability.

  ghost function Moved(all: seq<Region>, s: set<nat>): set<nat> {
    set x | x in s :: Reloc(all, x)
  }

  /** An edge between objects, before and after. */
  lemma EdgeMoves(m0: seq<Cell>, heads0: set<nat>, m: seq<Cell>, heads: set<nat>, org: map<nat, nat>, all: seq<Region>, a: nat, t: nat)
    requires Placed(m0, heads0, m, heads, org, all, all) && GraphOk(m0, heads0) && NULL !in heads
    requires Used(m0, heads0, a) && Edge(m0, a, t)
    ensures Used(m0, heads0, t) && Edge(m, Reloc(all, a), Reloc(all, t))
  {
    var c: nat :| SlotOf(m0, a, c) && Target(m0, c) == t;
    assert ObjectOk(m0, heads0, a);
    if c != a { assert PlainSlot(m0, heads0, c); }
    BlockMoves(m0, heads0, m, heads, org, all, a);
    SlotMoves(m0, heads0, m, heads, org, all, a, c);
    BlockMoves(m0, heads0, m, heads, org, all, t);
    assert SlotOf(m, Reloc(all, a), Reloc(all, c));
  }

  lemma EdgeComes(m0: seq<Cell>, heads0: set<nat>, m: seq<Cell>, heads: set<nat>, org: map<nat, nat>, all: seq<Region>, b: nat, d: nat)
    requires Placed(m0, heads0, m, heads, org, all, all) && GraphOk(m0, heads0)
    requires Used(m, heads, b) && Edge(m, b, d)
    ensures Used(m, heads, d) && b in org && d in org && Edge(m0, org[b], org[d])
  {
    assert HasOrigin(m0, heads0, org, all, b);
    var a := org[b];
    var e: nat :| SlotOf(m, b, e) && Target(m, e) == d;
    BlockMoves(m0, heads0, m, heads, org, all, a);
    assert ObjectOk(m0, heads0, a);
    var c := e + (a - b);
    if c != a { assert PlainSlot(m0, heads0, c); }
    SlotMoves(m0, heads0, m, heads, org, all, a, c);
    NullStays(all);
    BlockMoves(m0, heads0, m, heads, org, all, Target(m0, c));
    assert SlotOf(m0, a, c);
  }

  /** An object is reachable from the moved sources exactly if it was from the old ones. */
  lemma ReachMoves(m0: seq<Cell>, heads0: set<nat>, m: seq<Cell>, heads: set<nat>, org: map<nat, nat>, all: seq<Region>, sources: set<nat>, x: nat)
    requires Placed(m0, heads0, m, heads, org, all, all) && GraphOk(m0, heads0) && NULL !in heads
    requires Used(m0, heads0, x) && forall s :: s in sources ==> Used(m0, heads0, s)
    ensures Reach(m0, sources, x) <==> Reach(m, Moved(all, sources), Reloc(all, x))
  {
    if Reach(m0, sources, x) { ReachGoes(m0, heads0, m, heads, org, all, sources, x); }
    if Reach(m, Moved(all, sources), Reloc(all, x)) {
      BlockMoves(m0, heads0, m, heads, org, all, x);
      ReachComes(m0, heads0, m, heads, org, all, sources, Reloc(all, x));
    }
  }

  lemma ReachGoes(m0: seq<Cell>, heads0: set<nat>, m: seq<Cell>, heads: set<nat>, org: map<nat, nat>, all: seq<Region>, sources: set<nat>, x: nat)
    requires Placed(m0, heads0, m, heads, org, all, all) && GraphOk(m0, heads0) && NULL !in heads
    requires Reach(m0, sources, x) && forall s :: s in sources ==> Used(m0, heads0, s)
    ensures Reach(m, Moved(all, sources), Reloc(all, x))
  {
    var moved := Moved(all, sources);
    var closed := set y | y in heads0 && !Free(m0, y) && Reach(m, moved, Reloc(all, y));
    forall s | s in sources ensures s in closed { ReachSource(m, moved, Reloc(all, s)); }
    forall y, z {:trigger Edge(m0, y, z)} | y in closed && Edge(m0, y, z) ensures z in closed {
      EdgeMoves(m0, heads0, m, heads, org, all, y, z);
      var c: nat :| SlotOf(m, Reloc(all, y), c) && Target(m, c) == Reloc(all, z);
      ReachEdge(m, moved, Reloc(all, y), c);
    }
    ReachInClosed(m0, sources, closed, x);
  }

  lemma ReachComes(m0: seq<Cell>, heads0: set<nat>, m: seq<Cell>, heads: set<nat>, org: map<nat, nat>, all: seq<Region>, sources: set<nat>, b: nat)
    requires Placed(m0, heads0, m, heads, org, all, all) && GraphOk(m0, heads0)
    requires Reach(m, Moved(all, sources), b) && forall s :: s in sources ==> Used(m0, heads0, s)
    ensures b in org && Reach(m0, sources, org[b])
  {
    var moved := Moved(all, sources);
    var closed := set d | d in heads && !Free(m, d) && d in org && Reach(m0, sources, org[d]);
    forall d | d in moved ensures d in closed {
      var s :| s in sources && d == Reloc(all, s);
      BlockMoves(m0, heads0, m, heads, org, all, s);
      ReachSource(m0, sources, s);
    }
    forall d, e {:trigger Edge(m, d, e)} | d in closed && Edge(m, d, e) ensures e in closed {
      EdgeComes(m0, heads0, m, heads, org, all, d, e);
      var c: nat :| SlotOf(m0, org[d], c) && Target(m0, c) == org[e];
      ReachEdge(m0, sources, org[d], c);
    }
    ReachInClosed(m, moved, closed, b);
  }

  // Roots.

  ghost function MovedRoot(all: seq<Region>, r: Root): Root {
    match r
    case Cells(run) => Cells(MarkStackElement(Reloc(all, run.ptr), run.num))
    case Pointer(obj) => Pointer(Reloc(all, obj))
    case Forced(obj) => Forced(Reloc(all, obj))
  }

  ghost function MovedRoots(all: seq<Region>, roots: seq<Root>): (r: seq<Root>)
    ensures |r| == |roots| && forall i {:trigger r[i]} :: 0 <= i < |r| ==> r[i] == MovedRoot(all, roots[i])
  {
    seq(|roots|, i requires 0 <= i < |roots| => MovedRoot(all, roots[i]))
  }

  ghost function MovedFinalizers(all: seq<Region>, fins: seq<Finalizer>): (r: seq<Finalizer>)
    ensures |r| == |fins| && forall i {:trigger r[i]} :: 0 <= i < |r| ==> r[i].target == Reloc(all, fins[i].target)
  {
    seq(|fins|, i requires 0 <= i < |fins| => Finalizer(Reloc(all, fins[i].target)))
  }

  /** A run of root cells lies in one used block: a stack frame, or an array of static fields. */
  ghost predicate RootInside(m: seq<Cell>, heads: set<nat>, r: Root) {
    r.Cells? && r.run.num > 0 ==> exists a: nat {:trigger Used(m, heads, a)} :: Used(m, heads, a) && a < r.run.ptr && r.run.ptr + r.run.num <= EndOf(m, a)
  }

  /** A cell of such a run. */
  lemma RootCellMoves(m0: seq<Cell>, heads0: set<nat>, m: seq<Cell>, heads: set<nat>, spans: seq<Span>, org: map<nat, nat>, all: seq<Region>, run: MarkStackElement, k: nat)
    requires Placed(m0, heads0, m, heads, org, all, all) && HeapTiled(m, heads, spans)
    requires RootOk(m0, heads0, Cells(run)) && RootInside(m0, heads0, Cells(run)) && k < run.num
    ensures InRange(run, run.ptr + k) && InRange(MarkStackElement(Reloc(all, run.ptr), run.num), Reloc(all, run.ptr) + k)
    ensures PlainSlot(m0, heads0, run.ptr + k) && PlainSlot(m, heads, Reloc(all, run.ptr) + k)
    ensures Target(m, Reloc(all, run.ptr) + k) == Reloc(all, Target(m0, run.ptr + k))
  {
    assert Cells(run).run == run;
    var a: nat :| Used(m0, heads0, a) && a < run.ptr && run.ptr + run.num <= EndOf(m0, a);
    assert InRange(run, run.ptr) && InRange(run, run.ptr + k);
    BlockMoves(m0, heads0, m, heads, org, all, a);
    SlotMoves(m0, heads0, m, heads, org, all, a, run.ptr);
    SlotMoves(m0, heads0, m, heads, org, all, a, run.ptr + k);
    BlocksApart(m, heads, spans, Reloc(all, a), Reloc(all, run.ptr) + k);
  }

  lemma RootMoves(m0: seq<Cell>, heads0: set<nat>, m: seq<Cell>, heads: set<nat>, spans: seq<Span>, org: map<nat, nat>, all: seq<Region>, r: Root)
    requires Placed(m0, heads0, m, heads, org, all, all) && HeapTiled(m, heads, spans)
    requires RootOk(m0, heads0, r) && RootInside(m0, heads0, r)
    ensures RootOk(m, heads, MovedRoot(all, r))
  {
    NullStays(all);
    match r {
      case Cells(run) =>
        forall c: nat {:trigger InRange(MovedRoot(all, r).run, c)} | InRange(MovedRoot(all, r).run, c) ensures PlainSlot(m, heads, c) {
          RootCellMoves(m0, heads0, m, heads, spans, org, all, run, c - Reloc(all, run.ptr));
        }
      case Pointer(obj) =>
        if obj != NULL { BlockMoves(m0, heads0, m, heads, org, all, obj); }
      case Forced(obj) =>
        if obj != NULL { BlockMoves(m0, heads0, m, heads, org, all, obj); }
    }
  }

  /** What a moved root points at is what the root pointed at, moved. */
  lemma RootPointsMove(m0: seq<Cell>, heads0: set<nat>, m: seq<Cell>, heads: set<nat>, spans: seq<Span>, org: map<nat, nat>, all: seq<Region>, r: Root)
    requires Placed(m0, heads0, m, heads, org, all, all) && HeapTiled(m, heads, spans)
    requires RootOk(m0, heads0, r) && RootInside(m0, heads0, r)
    ensures forall x: nat {:trigger RootPoints(m0, r, x)} :: RootPoints(m0, r, x) ==> RootPoints(m, MovedRoot(all, r), Reloc(all, x))
    ensures forall d: nat {:trigger RootPoints(m, MovedRoot(all, r), d)} :: RootPoints(m, MovedRoot(all, r), d) ==> exists x: nat :: RootPoints(m0, r, x) && Reloc(all, x) == d
  {
    if r.Cells? {
      forall x: nat {:trigger RootPoints(m0, r, x)} | RootPoints(m0, r, x) ensures RootPoints(m, MovedRoot(all, r), Reloc(all, x)) {
        var c: nat :| InRange(r.run, c) && Target(m0, c) == x;
        RootCellMoves(m0, heads0, m, heads, spans, org, all, r.run, c - r.run.ptr);
      }
      forall d: nat {:trigger RootPoints(m, MovedRoot(all, r), d)} | RootPoints(m, MovedRoot(all, r), d) ensures exists x: nat :: RootPoints(m0, r, x) && Reloc(all, x) == d {
        var c: nat :| InRange(MovedRoot(all, r).run, c) && Target(m, c) == d;
        RootCellMoves(m0, heads0, m, heads, spans, org, all, r.run, c - Reloc(all, r.run.ptr));
        assert RootPoints(m0, r, Target(m0, c - Reloc(all, r.run.ptr) + r.run.ptr));
      }
    } else {
      assert RootPoints(m0, r, r.obj);
    }
  }

  ghost predicate RootsInside(m: seq<Cell>, heads: set<nat>, roots: seq<Root>) {
    forall i {:trigger roots[i]} :: 0 <= i < |roots| ==> RootInside(m, heads, roots[i])
  }

  /** The moved roots, and the finalizers, hold the moved sources. */
  lemma SourcesMove(m0: seq<Cell>, heads0: set<nat>, m: seq<Cell>, heads: set<nat>, spans: seq<Span>, org: map<nat, nat>, all: seq<Region>,
                    roots: seq<Root>, pending: seq<Finalizer>, alive: seq<Finalizer>)
    requires Placed(m0, heads0, m, heads, org, all, all) && HeapTiled(m, heads, spans) && NULL !in heads
    requires AllRootsOk(m0, heads0, roots, pending, alive) && RootsInside(m0, heads0, roots)
    ensures Sources(m, heads, MovedRoots(all, roots), MovedFinalizers(all, pending)) == Moved(all, Sources(m0, heads0, roots, pending))
    ensures forall x :: x in Sources(m0, heads0, roots, pending) ==> Used(m0, heads0, x)
  {
    forall x | x in Sources(m0, heads0, roots, pending)
      ensures Used(m0, heads0, x) && Reloc(all, x) in Sources(m, heads, MovedRoots(all, roots), MovedFinalizers(all, pending))
    {
      SourceMoves(m0, heads0, m, heads, spans, org, all, roots, pending, alive, x);
    }
    forall d | d in Sources(m, heads, MovedRoots(all, roots), MovedFinalizers(all, pending)) ensures d in Moved(all, Sources(m0, heads0, roots, pending)) {
      SourceComes(m0, heads0, m, heads, spans, org, all, roots, pending, alive, d);
    }
  }

  lemma SourceMoves(m0: seq<Cell>, heads0: set<nat>, m: seq<Cell>, heads: set<nat>, spans: seq<Span>, org: map<nat, nat>, all: seq<Region>,
                    roots: seq<Root>, pending: seq<Finalizer>, alive: seq<Finalizer>, x: nat)
    requires Placed(m0, heads0, m, heads, org, all, all) && HeapTiled(m, heads, spans) && NULL !in heads
    requires AllRootsOk(m0, heads0, roots, pending, alive) && RootsInside(m0, heads0, roots) && x in Sources(m0, heads0, roots, pending)
    ensures Used(m0, heads0, x) && Reloc(all, x) in Sources(m, heads, MovedRoots(all, roots), MovedFinalizers(all, pending))
  {
    if RootsPoint(m0, roots, x) {
      var i :| 0 <= i < |roots| && RootPoints(m0, roots[i], x);
      RootTarget(m0, heads0, roots[i], x);
      RootUsed(m0, heads0, roots[i], x);
      RootPointsMove(m0, heads0, m, heads, spans, org, all, roots[i]);
      assert RootPoints(m, MovedRoots(all, roots)[i], Reloc(all, x));
    } else {
      var i :| 0 <= i < |pending| && pending[i].target == x;
      assert ObjectPointer(m0, heads0, pending[i].target);
      assert MovedFinalizers(all, pending)[i].target == Reloc(all, x);
    }
    BlockMoves(m0, heads0, m, heads, org, all, x);
  }

  lemma RootUsed(m: seq<Cell>, heads: set<nat>, r: Root, x: nat)
    requires RootOk(m, heads, r) && RootPoints(m, r, x) && x != NULL
    ensures !Free(m, x)
  {
    if r.Cells? {
      var c: nat :| InRange(r.run, c) && Target(m, c) == x;
      assert PlainSlot(m, heads, c);
    }
  }

  lemma SourceComes(m0: seq<Cell>, heads0: set<nat>, m: seq<Cell>, heads: set<nat>, spans: seq<Span>, org: map<nat, nat>, all: seq<Region>,
                    roots: seq<Root>, pending: seq<Finalizer>, alive: seq<Finalizer>, d: nat)
    requires Placed(m0, heads0, m, heads, org, all, all) && HeapTiled(m, heads, spans) && NULL !in heads
    requires AllRootsOk(m0, heads0, roots, pending, alive) && RootsInside(m0, heads0, roots)
    requires d in Sources(m, heads, MovedRoots(all, roots), MovedFinalizers(all, pending))
    ensures d in Moved(all, Sources(m0, heads0, roots, pending))
  {
    NullStays(all);
    if RootsPoint(m, MovedRoots(all, roots), d) {
      var i :| 0 <= i < |roots| && RootPoints(m, MovedRoots(all, roots)[i], d);
      RootPointsMove(m0, heads0, m, heads, spans, org, all, roots[i]);
      var x: nat :| RootPoints(m0, roots[i], x) && Reloc(all, x) == d;
      RootTarget(m0, heads0, roots[i], x);
      assert RootsPoint(m0, roots, x);
    } else {
      var i :| 0 <= i < |pending| && MovedFinalizers(all, pending)[i].target == d;
      assert ObjectPointer(m0, heads0, pending[i].target) && Finalizes(pending, pending[i].target);
    }
  }

  /** The compacted heap meets what the next collection asks for, and the same objects are reachable in it. */
  lemma ReadyAgain(m0: seq<Cell>, heads0: set<nat>, m: seq<Cell>, heads: set<nat>, spans: seq<Span>, lists: seq<seq<nat>>, org: map<nat, nat>, all: seq<Region>,
                   roots: seq<Root>, pending: seq<Finalizer>, alive: seq<Finalizer>)
    requires Placed(m0, heads0, m, heads, org, all, all) && HeapOk(m, heads, spans, lists)
    requires Unmarked(m0, heads0) && AllRootsOk(m0, heads0, roots, pending, alive) && RootsInside(m0, heads0, roots)
    ensures Unmarked(m, heads) && AllRootsOk(m, heads, MovedRoots(all, roots), MovedFinalizers(all, pending), MovedFinalizers(all, alive))
    ensures forall x: nat {:trigger Used(m0, heads0, x)} :: Used(m0, heads0, x) ==>
      (Reach(m0, Sources(m0, heads0, roots, pending), x) <==>
       Reach(m, Sources(m, heads, MovedRoots(all, roots), MovedFinalizers(all, pending)), Reloc(all, x)))
  {
    HeapOkTiled(m, heads, spans, lists);
    MarksMove(m0, heads0, m, heads, spans, lists, org, all);
    AllRootsMove(m0, heads0, m, heads, spans, org, all, roots, pending, alive);
    SourcesMove(m0, heads0, m, heads, spans, org, all, roots, pending, alive);
    forall x: nat {:trigger Used(m0, heads0, x)} | Used(m0, heads0, x)
      ensures Reach(m0, Sources(m0, heads0, roots, pending), x) <==>
        Reach(m, Moved(all, Sources(m0, heads0, roots, pending)), Reloc(all, x))
    {
      ReachMoves(m0, heads0, m, heads, org, all, Sources(m0, heads0, roots, pending), x);
    }
  }

  lemma AllRootsMove(m0: seq<Cell>, heads0: set<nat>, m: seq<Cell>, heads: set<nat>, spans: seq<Span>, org: map<nat, nat>, all: seq<Region>,
                     roots: seq<Root>, pending: seq<Finalizer>, alive: seq<Finalizer>)
    requires Placed(m0, heads0, m, heads, org, all, all) && HeapTiled(m, heads, spans) && NULL !in heads
    requires AllRootsOk(m0, heads0, roots, pending, alive) && RootsInside(m0, heads0, roots)
    ensures AllRootsOk(m, heads, MovedRoots(all, roots), MovedFinalizers(all, pending), MovedFinalizers(all, alive))
  {
    NullStays(all);
    forall i {:trigger MovedRoots(all, roots)[i]} | 0 <= i < |roots| ensures RootOk(m, heads, MovedRoots(all, roots)[i]) {
      RootMoves(m0, heads0, m, heads, spans, org, all, roots[i]);
    }
    forall i {:trigger MovedFinalizers(all, pending)[i]} | 0 <= i < |pending| ensures ObjectPointer(m, heads, MovedFinalizers(all, pending)[i].target) {
      assert ObjectPointer(m0, heads0, pending[i].target);
      if pending[i].target != NULL { BlockMoves(m0, heads0, m, heads, org, all, pending[i].target); }
    }
    forall i {:trigger MovedFinalizers(all, alive)[i]} | 0 <= i < |alive|
      ensures Used(m, heads, MovedFinalizers(all, alive)[i].target) && MovedFinalizers(all, alive)[i].target != NULL
    {
      BlockMoves(m0, heads0, m, heads, org, all, alive[i].target);
    }
  }
}
