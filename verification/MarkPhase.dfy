/** Marking from the roots and from finalizable objects. */
module MarkPhase {
  import opened HeapMemory
  import opened HeapCluster
  import opened Heap
  import opened Reachability
  import opened Marking

  /** An object whose finalizer is still to run. */
  datatype Finalizer = Finalizer(target: nat)

  /** What the program holds outside the heap: runs of cells (static fields, arguments, locals, evaluation
      stacks), and object pointers that are followed if unmarked (Pointer) or always (Forced). */
  datatype Root = Cells(run: MarkStackElement) | Pointer(obj: nat) | Forced(obj: nat)

  ghost predicate ObjectPointer(m: seq<Cell>, heads: set<nat>, obj: nat) {
    obj != NULL ==> obj in heads && !Free(m, obj)
  }

  ghost predicate RootOk(m: seq<Cell>, heads: set<nat>, r: Root) {
    match r
    case Cells(run) => forall c {:trigger InRange(run, c)} :: InRange(run, c) ==> PlainSlot(m, heads, c)
    case Pointer(obj) => ObjectPointer(m, heads, obj)
    case Forced(obj) => ObjectPointer(m, heads, obj)
  }

  ghost predicate RootPoints(m: seq<Cell>, r: Root, x: nat) {
    match r
    case Cells(run) => exists c {:trigger InRange(run, c)} :: InRange(run, c) && Target(m, c) == x
    case Pointer(obj) => x == obj
    case Forced(obj) => x == obj
  }

  ghost predicate RootsPoint(m: seq<Cell>, roots: seq<Root>, x: nat) {
    exists i {:trigger RootPoints(m, roots[i], x)} :: 0 <= i < |roots| && RootPoints(m, roots[i], x)
  }

  ghost predicate Finalizes(fins: seq<Finalizer>, x: nat) {
    exists i :: 0 <= i < |fins| && fins[i].target == x
  }

  /** The objects held by the roots and by the finalizers that are to run. */
  ghost function Sources(m: seq<Cell>, heads: set<nat>, roots: seq<Root>, pending: seq<Finalizer>): set<nat> {
    set x | x in heads && x != NULL && (RootsPoint(m, roots, x) || Finalizes(pending, x))
  }

  lemma SourcesAppend(m: seq<Cell>, heads: set<nat>, roots: seq<Root>, pending: seq<Finalizer>, fin: Finalizer)
    requires fin.target in heads && fin.target != NULL
    ensures Sources(m, heads, roots, pending + [fin]) == Sources(m, heads, roots, pending) + {fin.target}
  {
    var more := pending + [fin];
    forall x ensures Finalizes(more, x) <==> Finalizes(pending, x) || x == fin.target {
      assert more[|pending|] == fin;
      if Finalizes(pending, x) {
        var i :| 0 <= i < |pending| && pending[i].target == x;
        assert more[i].target == x;
      }
    }
  }

  /** The finalizers whose flag in dead is d, in their order. */
  function Pick(fins: seq<Finalizer>, dead: seq<bool>, d: bool): seq<Finalizer>
    requires |dead| <= |fins|
  {
    if dead == [] then []
    else
      var n := |dead| - 1;
      Pick(fins, dead[..n], d) + if dead[n] == d then [fins[n]] else []
  }

  /** No finalizer is lost or doubled. */
  lemma {:induction false} PickConserves(fins: seq<Finalizer>, dead: seq<bool>)
    requires |dead| <= |fins|
    ensures multiset(Pick(fins, dead, false)) + multiset(Pick(fins, dead, true)) == multiset(fins[..|dead|])
  {
    if dead != [] {
      var n := |dead| - 1;
      PickConserves(fins, dead[..n]);
      assert fins[..|dead|] == fins[..n] + [fins[n]];
    }
  }

  /** An object that was not found dead is an event record or reachable from the sources of its turn: the roots, the
      finalizers that were to run before, and those of the objects found dead before it. If the search was exact, the
      converse holds as well. */
  ghost predicate Judged(m: seq<Cell>, heads: set<nat>, roots: seq<Root>, pending: seq<Finalizer>, fins: seq<Finalizer>, before: seq<bool>, dead: bool, exact: bool) {
    && |before| < |fins| && fins[|before|].target < |m|
    && var sources, x := Sources(m, heads, roots, pending + Pick(fins, before, true)), fins[|before|].target;
      && (!dead ==> m[x].event || Reach(m, sources, x))
      && (exact && dead ==> !m[x].event && !Reach(m, sources, x))
  }

  ghost predicate AllJudged(m: seq<Cell>, heads: set<nat>, roots: seq<Root>, pending: seq<Finalizer>, fins: seq<Finalizer>, dead: seq<bool>, exact: bool) {
    forall i {:trigger dead[i]} :: 0 <= i < |dead| ==> Judged(m, heads, roots, pending, fins, dead[..i], dead[i], exact)
  }

  /** One more finalizer has been judged; the search may have become inexact. */
  lemma JudgedNext(m: seq<Cell>, heads: set<nat>, roots: seq<Root>, pending: seq<Finalizer>, fins: seq<Finalizer>, dead: seq<bool>, more: bool, exact: bool, exact': bool)
    requires AllJudged(m, heads, roots, pending, fins, dead, exact) && (exact' ==> exact)
    requires Judged(m, heads, roots, pending, fins, dead, more, exact)
    ensures AllJudged(m, heads, roots, pending, fins, dead + [more], exact')
  {
    var dead' := dead + [more];
    forall i {:trigger dead'[i]} | 0 <= i < |dead'| ensures Judged(m, heads, roots, pending, fins, dead'[..i], dead'[i], exact') {
      assert dead'[..i] == dead[..i];
      if i < |dead| { assert dead'[i] == dead[i]; } else { assert dead[..i] == dead; }
    }
  }

  lemma JudgedLast(m: seq<Cell>, heads: set<nat>, roots: seq<Root>, pending: seq<Finalizer>, fins: seq<Finalizer>, dead: seq<bool>, flag: bool, marked: set<nat>)
    requires |dead| < |fins| && fins[|dead|].target in heads
    requires Idle(m, heads, Sources(m, heads, roots, pending + Pick(fins, dead, true)), |m|, flag, marked)
    requires Sources(m, heads, roots, pending + Pick(fins, dead, true)) <= marked && forall h :: h in heads && m[h].event ==> h in marked
    ensures Judged(m, heads, roots, pending, fins, dead, fins[|dead|].target !in marked, !flag)
  {
    if !flag { MarkedExactly(m, heads, Sources(m, heads, roots, pending + Pick(fins, dead, true)), marked); }
  }

  /** The objects that were found dead were unmarked before, and all are marked now. */
  ghost predicate Revived(fins: seq<Finalizer>, dead: seq<bool>, before: set<nat>, marked: set<nat>) {
    |dead| <= |fins| && forall i {:trigger dead[i]} {:trigger fins[i]} :: 0 <= i < |dead| ==> fins[i].target in marked && (dead[i] ==> fins[i].target !in before)
  }

  lemma RevivedNext(fins: seq<Finalizer>, dead: seq<bool>, more: bool, before: set<nat>, marked: set<nat>, dead': seq<bool>, marked': set<nat>)
    requires |dead| < |fins| && Revived(fins, dead, before, marked) && marked <= marked' && dead' == dead + [more]
    requires fins[|dead|].target in marked' && (more ==> fins[|dead|].target !in before)
    ensures Revived(fins, dead', before, marked')
  {
    forall i {:trigger fins[i]} | 0 <= i < |dead'| ensures fins[i].target in marked' && (dead'[i] ==> fins[i].target !in before) {
      if i < |dead| { assert dead'[i] == dead[i]; }
    }
  }

  lemma PickNext(fins: seq<Finalizer>, dead: seq<bool>, more: bool, d: bool)
    requires |dead| < |fins|
    ensures Pick(fins, dead + [more], d) == Pick(fins, dead, d) + if more == d then [fins[|dead|]] else []
  {
    assert (dead + [more])[..|dead|] == dead;
  }

  /** One more finalizer, all in all. */
  lemma AllNext(m: seq<Cell>, heads: set<nat>, roots: seq<Root>, pending: seq<Finalizer>, fins: seq<Finalizer>, dead: seq<bool>,
                flag: bool, before: set<nat>, marked: set<nat>, exact: bool, marked': set<nat>)
    requires |dead| < |fins| && fins[|dead|].target in heads
    requires Idle(m, heads, Sources(m, heads, roots, pending + Pick(fins, dead, true)), |m|, flag, marked)
    requires Sources(m, heads, roots, pending + Pick(fins, dead, true)) <= marked && forall h :: h in heads && m[h].event ==> h in marked
    requires AllJudged(m, heads, roots, pending, fins, dead, !flag) && (exact ==> !flag)
    requires Revived(fins, dead, before, marked) && before <= marked <= marked' && fins[|dead|].target in marked'
    ensures var more := fins[|dead|].target !in marked;
      && AllJudged(m, heads, roots, pending, fins, dead + [more], exact) && Revived(fins, dead + [more], before, marked')
      && Pick(fins, dead + [more], true) == Pick(fins, dead, true) + (if more then [fins[|dead|]] else [])
      && Pick(fins, dead + [more], false) == Pick(fins, dead, false) + (if more then [] else [fins[|dead|]])
  {
    var more := fins[|dead|].target !in marked;
    PickNext(fins, dead, more, true);
    PickNext(fins, dead, more, false);
    JudgedLast(m, heads, roots, pending, fins, dead, flag, marked);
    JudgedNext(m, heads, roots, pending, fins, dead, more, !flag, exact);
    RevivedNext(fins, dead, more, before, marked, dead + [more], marked');
  }

  /** A mark that nothing was dropped from: exactly the event records and what the sources reach. */
  lemma MarkedExactly(m: seq<Cell>, heads: set<nat>, sources: set<nat>, marked: set<nat>)
    requires Idle(m, heads, sources, |m|, false, marked)
    requires sources <= marked
    requires forall h :: h in heads && m[h].event ==> h in marked
    ensures forall h {:trigger h in marked} :: h in heads ==> (h in marked <==> m[h].event || Reach(m, sources, h))
    ensures forall h {:trigger Reach(m, sources, h)} :: Reach(m, sources, h) ==> h in marked
  {
    forall a, b {:trigger Edge(m, a, b)} | a in marked && Edge(m, a, b) ensures b in marked {
      var c :| SlotOf(m, a, c) && Target(m, c) == b;
    }
    forall h {:trigger Reach(m, sources, h)} | Reach(m, sources, h) ensures h in marked {
      ReachInClosed(m, sources, marked, h);
    }
  }

  lemma MoreSources(m: seq<Cell>, heads: set<nat>, sources: set<nat>, more: set<nat>, limit: nat, flag: bool, marked: set<nat>)
    requires Idle(m, heads, sources, limit, flag, marked) && sources <= more
    ensures Idle(m, heads, more, limit, flag, marked)
  {
    forall h {:trigger h in marked} | h in marked ensures h in heads && h < |m| && !Free(m, h) && (m[h].event || Reach(m, more, h)) {
      if !m[h].event { ReachMonotone(m, sources, more, h); }
    }
  }

  /** Before a collection only event records are marked, and all references are good. */
  ghost predicate Unmarked(m: seq<Cell>, heads: set<nat>) {
    && GraphOk(m, heads)
    && (forall h {:trigger m[h]} :: h in heads ==> (m[h].alive <==> m[h].event))
    && (forall h {:trigger Free(m, h)} :: h in heads && Free(m, h) ==> !m[h].event)
  }

  lemma EventsIdle(m: seq<Cell>, heads: set<nat>, sources: set<nat>, flag: bool, marked: set<nat>)
    requires Unmarked(m, heads) && marked == set h | h in heads && m[h].event
    ensures Idle(m, heads, sources, |m|, flag, marked) && MarksAre(m, heads, marked, m)
  {
    forall h, c {:trigger SlotOf(m, h, c)} | h in marked && SlotOf(m, h, c) ensures Target(m, c) == NULL {
      assert ObjectOk(m, heads, h);
    }
  }

  /** What a marked block points at is marked. */
  ghost predicate PointersMarked(m: seq<Cell>, heads: set<nat>, m1: seq<Cell>) {
    forall a: nat, b: nat {:trigger Holds(m, a, b)} :: a in heads && a < |m1| && m1[a].alive && Holds(m, a, b) ==> b in heads && b < |m1| && m1[b].alive
  }

  lemma PointersAreMarked(m: seq<Cell>, heads: set<nat>, sources: set<nat>, marked: set<nat>, m1: seq<Cell>)
    requires Idle(m, heads, sources, |m|, false, marked) && MarksAre(m, heads, marked, m1)
    ensures PointersMarked(m, heads, m1)
  {
    forall a: nat, b: nat {:trigger Holds(m, a, b)} | a in heads && a < |m1| && m1[a].alive && Holds(m, a, b)
      ensures b in heads && b < |m1| && m1[b].alive
    {
      EdgeIs(m, a, b);
      var c: nat :| SlotOf(m, a, c) && Target(m, c) == b;
      assert b in marked;
    }
  }

  /** m1 is m with the mark bit of a header set exactly when it is an event record or reachable. */
  ghost predicate ReachableMarked(m: seq<Cell>, heads: set<nat>, sources: set<nat>, m1: seq<Cell>) {
    && |m1| == |m|
    && (forall c {:trigger m1[c]} :: 0 <= c < |m| ==> m1[c] == m[c].(alive := m1[c].alive))
    && (forall h {:trigger m1[h]} :: h in heads && h < |m| ==> (m1[h].alive <==> m[h].event || Reach(m, sources, h)))
  }

  ghost predicate AllRootsOk(m: seq<Cell>, heads: set<nat>, roots: seq<Root>, pending: seq<Finalizer>, alive: seq<Finalizer>) {
    && (forall i {:trigger roots[i]} :: 0 <= i < |roots| ==> RootOk(m, heads, roots[i]))
    && (forall i {:trigger pending[i]} :: 0 <= i < |pending| ==> ObjectPointer(m, heads, pending[i].target))
    && (forall i {:trigger alive[i]} :: 0 <= i < |alive| ==>
          alive[i].target in heads && alive[i].target != NULL && !Free(m, alive[i].target))
  }

  class Collector {
    const marker: Marker
    const roots: seq<Root>
    var finalizersAlive: seq<Finalizer>
    var finalizersPending: seq<Finalizer>

    constructor (marker: Marker, roots: seq<Root>, finalizersAlive: seq<Finalizer>, finalizersPending: seq<Finalizer>)
      ensures this.marker == marker && this.roots == roots
      ensures this.finalizersAlive == finalizersAlive && this.finalizersPending == finalizersPending
    {
      this.marker, this.roots, this.finalizersAlive, this.finalizersPending := marker, roots, finalizersAlive, finalizersPending;
    }

    ghost predicate RootsOk(m: seq<Cell>, heads: set<nat>)
      reads this
    {
      AllRootsOk(m, heads, roots, finalizersPending, finalizersAlive)
    }

    method MarkRoot(r: Root, ghost m: seq<Cell>, ghost heads: set<nat>, ghost sources: set<nat>)
      requires marker.Ready(m, heads, sources, |m|) && RootOk(m, heads, r)
      requires forall x {:trigger RootPoints(m, r, x)} :: RootPoints(m, r, x) && x != NULL ==> x in sources
      modifies marker, marker.mem.cells, marker.markStack
      ensures marker.Ready(m, heads, sources, |m|)
      ensures old(marker.marked) <= marker.marked
      ensures forall x {:trigger RootPoints(m, r, x)} :: RootPoints(m, r, x) && x != NULL ==> x in marker.marked
    {
      match r {
        case Cells(run) =>
          forall c {:trigger InRange(run, c)} | InRange(run, c) ensures c !in heads && GreySound(m, heads, sources, c) {
            if Target(m, c) != NULL {
              assert RootPoints(m, r, Target(m, c));
              ReachSource(m, sources, Target(m, c));
            }
          }
          marker.CheckMultipleBlocks(run.ptr, run.num, m, heads, sources);
        case Pointer(obj) =>
          if obj != NULL { assert RootPoints(m, r, obj); ReachSource(m, sources, obj); }
          marker.CheckSingleBlock(obj, m, heads, sources);
        case Forced(obj) =>
          if obj != NULL { assert RootPoints(m, r, obj); ReachSource(m, sources, obj); }
          marker.CheckSingleBlock_Force(obj, m, heads, sources, |m|, |m|);
      }
    }

    /** The roots: first the objects whose finalizers are to run, then everything the program holds. */
    method MarkRoots(ghost m: seq<Cell>, ghost heads: set<nat>)
      requires RootsOk(m, heads) && marker.Ready(m, heads, Sources(m, heads, roots, finalizersPending), |m|)
      modifies marker, marker.mem.cells, marker.markStack
      ensures marker.Ready(m, heads, Sources(m, heads, roots, finalizersPending), |m|)
      ensures old(marker.marked) <= marker.marked
      ensures Sources(m, heads, roots, finalizersPending) <= marker.marked
    {
      ghost var sources := Sources(m, heads, roots, finalizersPending);
      var i := 0;
      while i < |finalizersPending|
        invariant i <= |finalizersPending| && marker.Ready(m, heads, sources, |m|) && old(marker.marked) <= marker.marked
        invariant forall j {:trigger finalizersPending[j]} :: 0 <= j < i ==> finalizersPending[j].target == NULL || finalizersPending[j].target in marker.marked
      {
        var obj := finalizersPending[i].target;
        if obj != NULL { assert Finalizes(finalizersPending, obj); ReachSource(m, sources, obj); }
        marker.CheckSingleBlock(obj, m, heads, sources);
        i := i + 1;
      }
      i := 0;
      while i < |roots|
        invariant i <= |roots| && marker.Ready(m, heads, sources, |m|) && old(marker.marked) <= marker.marked
        invariant forall j {:trigger finalizersPending[j]} :: 0 <= j < |finalizersPending| ==> finalizersPending[j].target == NULL || finalizersPending[j].target in marker.marked
        invariant forall j, x {:trigger RootPoints(m, roots[j], x)} :: 0 <= j < i && RootPoints(m, roots[j], x) && x != NULL ==> x in marker.marked
      {
        forall x {:trigger RootPoints(m, roots[i], x)} | RootPoints(m, roots[i], x) && x != NULL ensures x in sources {
          RootTarget(m, heads, roots[i], x);
          assert RootsPoint(m, roots, x);
        }
        MarkRoot(roots[i], m, heads, sources);
        i := i + 1;
      }
    }

    /** The finalizers of fins up to |dead| have been gone through. */
    ghost predicate Reviving(m: seq<Cell>, heads: set<nat>, pending: seq<Finalizer>, marked: set<nat>, fins: seq<Finalizer>, dead: seq<bool>)
      reads this, marker, marker.mem.cells, marker.markStack
    {
      && |dead| <= |fins|
      && finalizersAlive == Pick(fins, dead, false) && finalizersPending == pending + Pick(fins, dead, true)
      && marker.Ready(m, heads, Sources(m, heads, roots, finalizersPending), |m|)
      && marked <= marker.marked && Sources(m, heads, roots, finalizersPending) <= marker.marked
      && (forall h :: h in heads && m[h].event ==> h in marker.marked)
      && Revived(fins, dead, marked, marker.marked)
      && AllJudged(m, heads, roots, pending, fins, dead, !marker.outOfStackSpace)
    }

    /** Revives every object that has a finalizer and was found dead: its finalizer is to run. */
    method MarkFinalizable(ghost m: seq<Cell>, ghost heads: set<nat>) returns (ghost dead: seq<bool>)
      requires RootsOk(m, heads) && marker.Ready(m, heads, Sources(m, heads, roots, finalizersPending), |m|)
      requires Sources(m, heads, roots, finalizersPending) <= marker.marked && forall h :: h in heads && m[h].event ==> h in marker.marked
      modifies this, marker, marker.mem.cells, marker.markStack
      ensures |dead| == |old(finalizersAlive)|
      ensures Reviving(m, heads, old(finalizersPending), old(marker.marked), old(finalizersAlive), dead)
    {
      var fins := finalizersAlive;
      ghost var pending := finalizersPending;
      var i := 0;
      dead := [];
      finalizersAlive := [];
      assert pending + [] == pending;
      while i < |fins|
        invariant i == |dead| <= |fins| && Reviving(m, heads, pending, old(marker.marked), fins, dead)
      {
        dead := JudgeNext(fins, i, m, heads, pending, old(marker.marked), dead);
        i := i + 1;
      }
    }

    /** The i-th finalizer. */
    method JudgeNext(fins: seq<Finalizer>, i: nat, ghost m: seq<Cell>, ghost heads: set<nat>, ghost pending: seq<Finalizer>, ghost marked: set<nat>, ghost dead: seq<bool>)
      returns (ghost dead': seq<bool>)
      requires i == |dead| < |fins| && Reviving(m, heads, pending, marked, fins, dead)
      requires fins[i].target in heads && fins[i].target != NULL && !Free(m, fins[i].target)
      modifies this, marker, marker.mem.cells, marker.markStack
      ensures |dead'| == i + 1 && Reviving(m, heads, pending, marked, fins, dead')
    {
      var fin := fins[i];
      assert marker.mem.cells[..][fin.target].alive <==> fin.target in marker.marked;
      ghost var flag, marked0 := marker.outOfStackSpace, marker.marked;
      ghost var more := !marker.mem.cells[fin.target].alive;
      dead' := dead + [more];
      if !marker.mem.cells[fin.target].alive {
        Revive(fin, m, heads);
      } else {
        finalizersAlive := finalizersAlive + [fin];
      }
      AllNext(m, heads, roots, pending, fins, dead, flag, marked, marked0, !marker.outOfStackSpace, marker.marked);
    }

    method Revive(fin: Finalizer, ghost m: seq<Cell>, ghost heads: set<nat>)
      requires marker.Ready(m, heads, Sources(m, heads, roots, finalizersPending), |m|)
      requires fin.target in heads && fin.target != NULL && !Free(m, fin.target)
      modifies this`finalizersPending, marker, marker.mem.cells, marker.markStack
      ensures finalizersPending == old(finalizersPending) + [fin]
      ensures marker.Ready(m, heads, Sources(m, heads, roots, finalizersPending), |m|)
      ensures old(marker.marked) <= marker.marked && fin.target in marker.marked
      ensures old(marker.outOfStackSpace) ==> marker.outOfStackSpace
      ensures Sources(m, heads, roots, finalizersPending) == Sources(m, heads, roots, old(finalizersPending)) + {fin.target}
    {
      ghost var more := Sources(m, heads, roots, finalizersPending) + {fin.target};
      SourcesAppend(m, heads, roots, finalizersPending, fin);
      MoreSources(m, heads, Sources(m, heads, roots, finalizersPending), more, |m|, marker.outOfStackSpace, marker.marked);
      ReachSource(m, more, fin.target);
      marker.CheckSingleBlock(fin.target, m, heads, more);
      finalizersPending := finalizersPending + [fin];
    }

    /** The mark phase. It ends with exactly the event records and the reachable objects marked, however
        small the mark stack; reachable means from the roots and the finalizers that are now to run. dropped tells
        that the stack ran full while those were being found. */
    method Mark(ghost spans: seq<Span>) returns (ghost dead: seq<bool>, ghost dropped: bool)
      requires marker.mem.cells.Length > 0 && RootsOk(marker.mem.cells[..], marker.mem.heads)
      requires Unmarked(marker.mem.cells[..], marker.mem.heads)
      requires HeapTiled(marker.mem.cells[..], marker.mem.heads, spans) && marker.SpansAre(spans)
      requires marker.top == 0 && marker.markStack.Length >= 2 && marker.markStack[0].num == 0
      modifies this, marker, marker.mem.cells, marker.markStack
      ensures |dead| == |old(finalizersAlive)|
      ensures finalizersAlive == Pick(old(finalizersAlive), dead, false)
      ensures finalizersPending == old(finalizersPending) + Pick(old(finalizersAlive), dead, true)
      ensures var m, heads := old(marker.mem.cells[..]), marker.mem.heads;
        && ReachableMarked(m, heads, Sources(m, heads, roots, finalizersPending), marker.mem.cells[..])
        && (forall i :: 0 <= i < |dead| && dead[i] ==>
              !Reach(m, Sources(m, heads, roots, old(finalizersPending)), old(finalizersAlive)[i].target))
        && AllJudged(m, heads, roots, old(finalizersPending), old(finalizersAlive), dead, !dropped)
      ensures PointersMarked(old(marker.mem.cells[..]), marker.mem.heads, marker.mem.cells[..])
      ensures forall i :: 0 <= i < |dead| ==>
        old(finalizersAlive)[i].target < marker.mem.cells.Length && marker.mem.cells[old(finalizersAlive)[i].target].alive
    {
      ghost var m, heads := marker.mem.cells[..], marker.mem.heads;
      MarkStrong(spans);
      dead, dropped := MarkRevived(m, spans);
    }

    /** What the roots and the finalizers that were to run before hold. */
    method MarkStrong(ghost spans: seq<Span>)
      requires marker.mem.cells.Length > 0 && RootsOk(marker.mem.cells[..], marker.mem.heads)
      requires Unmarked(marker.mem.cells[..], marker.mem.heads)
      requires HeapTiled(marker.mem.cells[..], marker.mem.heads, spans) && marker.SpansAre(spans)
      requires marker.top == 0 && marker.markStack.Length >= 2 && marker.markStack[0].num == 0
      modifies marker, marker.mem.cells, marker.markStack
      ensures StrongMarked(old(marker.mem.cells[..]))
    {
      ghost var m, heads := marker.mem.cells[..], marker.mem.heads;
      ghost var sources := Sources(m, heads, roots, finalizersPending);
      marker.outOfStackSpace := false;
      marker.marked := set h | h in heads && m[h].event;
      EventsIdle(m, heads, sources, false, marker.marked);
      MarkRoots(m, heads);
      if marker.outOfStackSpace {
        marker.MarkSlow(m, heads, spans, sources);
      }
    }

    ghost predicate StrongMarked(m: seq<Cell>)
      reads this, marker, marker.mem, marker.mem.cells, marker.markStack
    {
      && marker.Ready(m, marker.mem.heads, Sources(m, marker.mem.heads, roots, finalizersPending), |m|) && !marker.outOfStackSpace
      && Sources(m, marker.mem.heads, roots, finalizersPending) <= marker.marked
      && (forall h :: h in marker.mem.heads && m[h].event ==> h in marker.marked)
    }

    /** What the finalizable objects hold that were found dead. */
    method MarkRevived(ghost m: seq<Cell>, ghost spans: seq<Span>) returns (ghost dead: seq<bool>, ghost dropped: bool)
      requires RootsOk(m, marker.mem.heads) && StrongMarked(m)
      requires HeapTiled(m, marker.mem.heads, spans) && marker.SpansAre(spans)
      modifies this, marker, marker.mem.cells, marker.markStack
      ensures |dead| == |old(finalizersAlive)|
      ensures finalizersAlive == Pick(old(finalizersAlive), dead, false)
      ensures finalizersPending == old(finalizersPending) + Pick(old(finalizersAlive), dead, true)
      ensures var heads := marker.mem.heads;
        && ReachableMarked(m, heads, Sources(m, heads, roots, finalizersPending), marker.mem.cells[..])
        && (forall i :: 0 <= i < |dead| && dead[i] ==>
              !Reach(m, Sources(m, heads, roots, old(finalizersPending)), old(finalizersAlive)[i].target))
        && AllJudged(m, heads, roots, old(finalizersPending), old(finalizersAlive), dead, !dropped)
      ensures PointersMarked(m, marker.mem.heads, marker.mem.cells[..])
      ensures forall i :: 0 <= i < |dead| ==>
        old(finalizersAlive)[i].target < marker.mem.cells.Length && marker.mem.cells[old(finalizersAlive)[i].target].alive
    {
      ghost var heads, strong := marker.mem.heads, marker.marked;
      ghost var fins := finalizersAlive;
      MarkedExactly(m, heads, Sources(m, heads, roots, finalizersPending), marker.marked);
      dead := MarkFinalizable(m, heads);
      dropped := marker.outOfStackSpace;
      ghost var revived := marker.marked;
      if marker.outOfStackSpace {
        marker.MarkSlow(m, heads, spans, Sources(m, heads, roots, finalizersPending));
      }
      MarkedExactly(m, heads, Sources(m, heads, roots, finalizersPending), marker.marked);
      PointersAreMarked(m, heads, Sources(m, heads, roots, finalizersPending), marker.marked, marker.mem.cells[..]);
      RevivedAlive(m, heads, fins, dead, strong, revived, marker.marked, marker.mem.cells[..]);
    }
  }

  lemma RevivedAlive(m: seq<Cell>, heads: set<nat>, fins: seq<Finalizer>, dead: seq<bool>, before: set<nat>, marked: set<nat>, marked': set<nat>, m1: seq<Cell>)
    requires Revived(fins, dead, before, marked) && marked <= marked' && MarksAre(m, heads, marked', m1)
    requires forall h :: h in marked' ==> h in heads && h < |m|
    ensures forall i :: 0 <= i < |dead| ==> fins[i].target < |m1| && m1[fins[i].target].alive
    ensures forall i :: 0 <= i < |dead| && dead[i] ==> fins[i].target !in before
  {
    forall i | 0 <= i < |dead| ensures fins[i].target < |m1| && m1[fins[i].target].alive && (dead[i] ==> fins[i].target !in before) {
      assert dead[i] || !dead[i];
    }
  }

  lemma RootTarget(m: seq<Cell>, heads: set<nat>, r: Root, x: nat)
    requires RootOk(m, heads, r) && RootPoints(m, r, x) && x != NULL
    ensures x in heads
  {
    if r.Cells? {
      var c :| InRange(r.run, c) && Target(m, c) == x;
      assert PlainSlot(m, heads, c);
    }
  }
}
