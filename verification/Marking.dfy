/** The mark phase, with a mark stack of fixed size and recovery from its overflow. */
module Marking {
  import opened HeapMemory
  import opened HeapCluster
  import opened Heap
  import opened PointerPass
  import opened Reachability

  /** m1 is m, but for mark bits; the marked headers are those of marked. */
  ghost predicate MarksAre(m: seq<Cell>, heads: set<nat>, marked: set<nat>, m1: seq<Cell>) {
    && |m1| == |m|
    && (forall c {:trigger m1[c]} :: 0 <= c < |m| ==> m1[c] == m[c].(alive := m1[c].alive))
    && (forall h {:trigger m1[h]} :: h in heads && h < |m| ==> (m1[h].alive <==> h in marked))
  }

  /** No marked block below limit has a pointer to an unmarked one. */
  ghost predicate Closed(m: seq<Cell>, marked: set<nat>, limit: nat) {
    forall h, c {:trigger SlotOf(m, h, c)} :: h in marked && h < limit && SlotOf(m, h, c) ==> Target(m, c) == NULL || Target(m, c) in marked
  }

  /** The state between two calls of the marking loop. */
  ghost predicate Idle(m: seq<Cell>, heads: set<nat>, sources: set<nat>, limit: nat, flag: bool, marked: set<nat>) {
    && GraphOk(m, heads)
    && MarkSound(m, heads, sources, marked)
    && (flag || Closed(m, marked, limit))
  }

  const NOTHING := MarkStackElement(NULL, 0)

  /** Starting the loop with a run of slots, or with one header p; in that case p itself becomes closed. */
  lemma Started(m: seq<Cell>, heads: set<nat>, sources: set<nat>, limit: nat, limit': nat, flag: bool, marked: set<nat>,
                ms: seq<MarkStackElement>, first: MarkStackElement)
    requires Idle(m, heads, sources, limit, flag, marked)
    requires CurOk(m, heads, sources, first)
    requires 2 <= |ms| && ms[0].num == 0
    requires limit <= limit' && (limit < limit' ==> first.num == 1)
    requires forall h {:trigger h in marked} :: h in marked && limit <= h < limit' ==> h == first.ptr
    ensures MarkState(m, heads, sources, limit', marked, first, flag, marked, ms, 0, first)
  {
    if !flag {
      forall h {:trigger Covered(m, marked, ms, 0, first, h)} | h in marked && h < limit' ensures Covered(m, marked, ms, 0, first, h) {
        if h < limit {
          forall c {:trigger SlotOf(m, h, c)} | SlotOf(m, h, c) ensures Settled(m, marked, ms, 0, first, c) {}
        } else {
          assert InRange(first, h);
        }
      }
    }
  }

  lemma Finished(m: seq<Cell>, heads: set<nat>, sources: set<nat>, limit: nat, marked0: set<nat>, first: MarkStackElement,
                 flag: bool, marked: set<nat>, ms: seq<MarkStackElement>, cur: MarkStackElement)
    requires MarkState(m, heads, sources, limit, marked0, first, flag, marked, ms, 0, cur) && cur.num == 0
    ensures Idle(m, heads, sources, limit, flag, marked)
    ensures forall c {:trigger InRange(first, c)} :: InRange(first, c) ==> Target(m, c) == NULL || Target(m, c) in marked
  {
    forall c ensures !Grey(ms, 0, cur, c) {}
    if !flag {
      forall h, c {:trigger SlotOf(m, h, c)} | h in marked && h < limit && SlotOf(m, h, c) ensures Target(m, c) == NULL || Target(m, c) in marked {
        assert Covered(m, marked, ms, 0, cur, h);
      }
    }
  }

  // Why the loop ends.

  /** The cells on the stack. */
  ghost function Load(ms: seq<MarkStackElement>, top: nat): nat
    requires top < |ms|
  {
    if top == 0 then 0 else ms[top].num + Load(ms, top - 1)
  }

  lemma {:induction false} LoadSame(ms: seq<MarkStackElement>, ms': seq<MarkStackElement>, top: nat)
    requires top < |ms| == |ms'| && forall i :: 1 <= i <= top ==> ms'[i] == ms[i]
    ensures Load(ms', top) == Load(ms, top)
  {
    if top > 0 { LoadSame(ms, ms', top - 1); }
  }

  ghost function Weight(m: seq<Cell>, heads: set<nat>, cur: MarkStackElement): nat {
    if cur.num == 1 && cur.ptr in heads && cur.ptr < |m| then 1 + Children(m[cur.ptr]) else cur.num
  }

  /** The blocks that are neither marked nor about to be. */
  ghost function Remaining(heads: set<nat>, marked: set<nat>, cur: MarkStackElement): set<nat> {
    if cur.num == 1 then heads - marked - {cur.ptr} else heads - marked
  }

  /** A visit leaves fewer untouched blocks, or fewer cells to visit. */
  lemma VisitProgress(m: seq<Cell>, heads: set<nat>, marked: set<nat>, p: nat, marked': set<nat>, cur': MarkStackElement)
    requires GraphOk(m, heads) && p < |m|
    requires p in heads ==> !Free(m, p)
    requires p !in heads ==> PlainSlot(m, heads, p)
    requires marked' == if p in heads then marked + {p} else marked
    requires cur' == NextRun(m, p, Target(m, p) != NULL && Target(m, p) !in marked')
    ensures var cur := MarkStackElement(p, 1);
      || Remaining(heads, marked', cur') < Remaining(heads, marked, cur)
      || (Remaining(heads, marked', cur') == Remaining(heads, marked, cur) && Weight(m, heads, cur') < Weight(m, heads, cur))
  {
    assert p in heads ==> ObjectOk(m, heads, p);
    var before, after := Remaining(heads, marked, MarkStackElement(p, 1)), Remaining(heads, marked', cur');
    if Target(m, p) != NULL && Target(m, p) !in marked' {
      assert Target(m, p) in before && after <= before;
    } else {
      assert Children(m[p]) > 0 ==> PlainSlot(m, heads, p + 1);
      assert after == before;
    }
  }

  /** Blocks without references, and the space between clusters, need no visit. */
  lemma Skipped(m: seq<Cell>, heads: set<nat>, sources: set<nat>, limit: nat, limit': nat, flag: bool, marked: set<nat>)
    requires Idle(m, heads, sources, limit, flag, marked)
    requires forall h {:trigger h in marked} :: h in marked && limit <= h < limit' ==> Children(m[h]) == 0 && Target(m, h) == NULL
    ensures Idle(m, heads, sources, limit', flag, marked)
  {
  }

  class Marker {
    const mem: Memory
    const heap: seq<Cluster>
    const markStack: array<MarkStackElement>
    var top: nat
    var outOfStackSpace: bool
    ghost var marked: set<nat>

    constructor (mem: Memory, heap: seq<Cluster>, size: nat)
      requires size >= 2
      ensures this.mem == mem && this.heap == heap && fresh(markStack) && top == 0 && !outOfStackSpace
      ensures markStack.Length == size && markStack[0] == NOTHING
    {
      this.mem, this.heap, top, outOfStackSpace, marked := mem, heap, 0, false, {};
      markStack := new MarkStackElement[size](_ => NOTHING);
    }

    /** Takes the next cell to visit off the run cur, or off the stack. */
    method Fetch(cur: MarkStackElement, ghost m: seq<Cell>, ghost heads: set<nat>) returns (ptr: nat)
      requires 0 <= top < markStack.Length && markStack[0].num == 0 && markStack.Length >= 2
      requires forall i :: 1 <= i <= top ==> markStack[i].num > 0
      requires cur.num == 0 ==> top > 0
      requires cur.num > 1 ==> top + 1 < markStack.Length
      modifies this`top, markStack
      ensures SameGrey(old(markStack[..]), old(top), cur, markStack[..], top, ptr)
      ensures ptr !in heads || cur.num == 1 ==>
        Load(markStack[..], top) + Weight(m, heads, MarkStackElement(ptr, 1)) <= Load(old(markStack[..]), old(top)) + Weight(m, heads, cur)
    {
      ghost var ms := markStack[..];
      ptr := cur.ptr;
      if cur.num == 0 {
        ghost var t := top;
        ptr := markStack[top].ptr;
        markStack[top] := MarkStackElement(markStack[top].ptr + 1, markStack[top].num - 1);
        if markStack[top].num == 0 {
          top := top - 1;
        }
        SameGreyPop(ms, t, cur, markStack[..], top);
        LoadSame(ms, markStack[..], t - 1);
      } else if cur.num > 1 {
        top := top + 1;
        markStack[top] := MarkStackElement(cur.ptr + 1, cur.num - 1);
        SameGreyPush(ms, top - 1, cur, markStack[..]);
        LoadSame(ms, markStack[..], top - 1);
      }
    }

    /** Marks the cell and says what is to be visited because of it. */
    method Visit(ptr: nat, ghost m: seq<Cell>, ghost heads: set<nat>) returns (cur: MarkStackElement)
      requires MarksAre(m, heads, marked, mem.cells[..]) && ptr < mem.cells.Length
      requires TargetOk(m, heads, ptr) && forall h :: h in heads ==> h < |m|
      modifies this`marked, mem.cells
      ensures marked == if ptr in heads then old(marked) + {ptr} else old(marked)
      ensures MarksAre(m, heads, marked, mem.cells[..])
      ensures cur == NextRun(m, ptr, Target(m, ptr) != NULL && Target(m, ptr) !in marked)
      ensures match m[ptr].dt
        case Reference => cur == if m[ptr].ref != NULL && m[ptr].ref !in marked then MarkStackElement(m[ptr].ref, 1) else NOTHING
        case ClassOrValueType => cur == if m[ptr].size > 1 then MarkStackElement(ptr + 1, m[ptr].size - 1) else NOTHING
        case SzArray(isReference, n) => cur == if isReference && n > 0 then MarkStackElement(ptr + 1, n) else NOTHING
        case DelegateHead => cur == MarkStackElement(ptr + 1, 1)
        case DelegateList(isWeak, length) => cur == if !isWeak && length > 0 then MarkStackElement(ptr + 1, length) else NOTHING
        case _ => cur == NOTHING
    {
      ghost var m1 := mem.cells[..];
      assert m1[ptr] == m[ptr].(alive := m1[ptr].alive);
      mem.cells[ptr] := mem.cells[ptr].(alive := true);
      if ptr in heads { marked := marked + {ptr}; }
      assert mem.cells[..] == m1[ptr := m1[ptr].(alive := true)];
      cur := NOTHING;
      var sub := NULL;
      var cell := mem.cells[ptr];
      match cell.dt {
        case Reference =>
          sub := cell.ref;
        case ClassOrValueType =>
          cur := MarkStackElement(ptr + 1, if cell.size == 0 then 0 else cell.size - 1);
        case SzArray(isReference, numOfElements) =>
          if isReference { cur := MarkStackElement(ptr + 1, numOfElements); }
        case DelegateHead =>
          cur := MarkStackElement(ptr + 1, 1);
        case DelegateList(isWeak, length) =>
          if !isWeak { cur := MarkStackElement(ptr + 1, length); }
        case _ =>
      }
      if cur.num == 0 { cur := NOTHING; }
      if sub != NULL {
        assert mem.cells[..][sub].alive <==> sub in marked;
        if !mem.cells[sub].alive { cur := MarkStackElement(sub, 1); }
      }
    }

    /** Visits the cells [lst, lst + num) and everything they lead to. When the stack is full, the run
        at hand is dropped and outOfStackSpace set. */
    method ComputeReachabilityGraphForMultipleBlocks(lst: nat, num: nat, ghost m: seq<Cell>, ghost heads: set<nat>,
                                                     ghost sources: set<nat>, ghost limit: nat)
      requires MarksAre(m, heads, marked, mem.cells[..])
      requires top == 0 && markStack.Length >= 2
      requires MarkState(m, heads, sources, limit, marked, MarkStackElement(lst, num), outOfStackSpace, marked,
                         markStack[..], 0, MarkStackElement(lst, num))
      modifies this`top, this`outOfStackSpace, this`marked, mem.cells, markStack
      ensures MarksAre(m, heads, marked, mem.cells[..])
      ensures top == 0 && markStack[0].num == 0
      ensures Idle(m, heads, sources, limit, outOfStackSpace, marked)
      ensures forall c {:trigger InRange(MarkStackElement(lst, num), c)} :: InRange(MarkStackElement(lst, num), c) ==> Target(m, c) == NULL || Target(m, c) in marked
      ensures num == 1 && lst in heads ==> lst in marked
      ensures old(marked) <= marked && (old(outOfStackSpace) ==> outOfStackSpace)
      ensures outOfStackSpace && !old(outOfStackSpace) ==> old(marked) < marked
    {
      ghost var marked0, first := marked, MarkStackElement(lst, num);
      var cur := MarkStackElement(lst, num);
      while cur.num != 0 || markStack[top].num != 0
        invariant top < markStack.Length
        invariant MarksAre(m, heads, marked, mem.cells[..])
        invariant MarkState(m, heads, sources, limit, marked0, first, outOfStackSpace, marked, markStack[..], top, cur)
        invariant old(outOfStackSpace) ==> outOfStackSpace
        invariant outOfStackSpace && !old(outOfStackSpace) ==> marked0 < marked
        invariant num == 1 && lst in heads ==> lst in marked || cur == first
        decreases Remaining(heads, marked, cur), Load(markStack[..], top) + Weight(m, heads, cur)
      {
        if cur.num > 1 && top == markStack.Length - 1 {
          Dropped(m, heads, sources, limit, marked0, first, outOfStackSpace, marked, markStack[..], top, cur);
          outOfStackSpace := true;
          cur := NOTHING;
        } else {
          cur := VisitNext(cur, m, heads, sources, limit, marked0, first);
        }
      }
      Finished(m, heads, sources, limit, marked0, first, outOfStackSpace, marked, markStack[..], cur);
    }

    /** One round of the loop: visits the next cell. */
    method VisitNext(cur: MarkStackElement, ghost m: seq<Cell>, ghost heads: set<nat>, ghost sources: set<nat>, ghost limit: nat,
                     ghost marked0: set<nat>, ghost first: MarkStackElement) returns (next: MarkStackElement)
      requires top < markStack.Length && MarksAre(m, heads, marked, mem.cells[..])
      requires MarkState(m, heads, sources, limit, marked0, first, outOfStackSpace, marked, markStack[..], top, cur)
      requires cur.num == 0 ==> top > 0
      requires cur.num > 1 ==> top + 1 < markStack.Length
      modifies this`top, this`marked, mem.cells, markStack
      ensures top < markStack.Length && MarksAre(m, heads, marked, mem.cells[..])
      ensures MarkState(m, heads, sources, limit, marked0, first, outOfStackSpace, marked, markStack[..], top, next)
      ensures old(marked) <= marked && (cur.num == 1 && cur.ptr in heads ==> cur.ptr in marked)
      ensures Remaining(heads, marked, next) < Remaining(heads, old(marked), cur) ||
        (Remaining(heads, marked, next) == Remaining(heads, old(marked), cur) &&
         Load(markStack[..], top) + Weight(m, heads, next) < Load(old(markStack[..]), old(top)) + Weight(m, heads, cur))
    {
      ghost var ms, top0, marked1 := markStack[..], top, marked;
      var ptr := Fetch(cur, m, heads);
      Fetched(m, heads, sources, limit, marked0, first, outOfStackSpace, marked, ms, top0, cur, markStack[..], top, ptr);
      assert InRange(MarkStackElement(ptr, 1), ptr);
      assert GreySound(m, heads, sources, ptr);
      assert ptr in heads ==> ObjectOk(m, heads, ptr);
      assert cur.num != 1 ==> ptr !in heads;
      next := Visit(ptr, m, heads);
      Visited(m, heads, sources, limit, marked0, first, outOfStackSpace, marked1, markStack[..], top, ptr, marked, next);
      VisitProgress(m, heads, marked1, ptr, marked, next);
      assert cur.num != 1 ==> Remaining(heads, marked1, MarkStackElement(ptr, 1)) == Remaining(heads, marked1, cur);
    }

    /** Between two calls: the marks so far, an empty stack, and closure below limit unless cells were dropped. */
    ghost predicate Ready(m: seq<Cell>, heads: set<nat>, sources: set<nat>, limit: nat)
      reads this, mem.cells, markStack
    {
      && MarksAre(m, heads, marked, mem.cells[..])
      && Idle(m, heads, sources, limit, outOfStackSpace, marked)
      && top == 0 && markStack.Length >= 2 && markStack[0].num == 0
    }

    /** A block that was marked during this call is the reason for an overflow in it. */
    method CheckMultipleBlocks(lst: nat, num: nat, ghost m: seq<Cell>, ghost heads: set<nat>, ghost sources: set<nat>)
      requires Ready(m, heads, sources, |m|)
      requires forall c {:trigger InRange(MarkStackElement(lst, num), c)} :: InRange(MarkStackElement(lst, num), c) ==>
        c !in heads && GreySound(m, heads, sources, c)
      modifies this`top, this`outOfStackSpace, this`marked, mem.cells, markStack
      ensures Ready(m, heads, sources, |m|)
      ensures old(marked) <= marked
      ensures forall c {:trigger InRange(MarkStackElement(lst, num), c)} :: InRange(MarkStackElement(lst, num), c) ==> Target(m, c) == NULL || Target(m, c) in marked
    {
      Started(m, heads, sources, |m|, |m|, outOfStackSpace, marked, markStack[..], MarkStackElement(lst, num));
      ComputeReachabilityGraphForMultipleBlocks(lst, num, m, heads, sources, |m|);
    }

    method CheckSingleBlock(obj: nat, ghost m: seq<Cell>, ghost heads: set<nat>, ghost sources: set<nat>)
      requires Ready(m, heads, sources, |m|)
      requires obj != NULL ==> obj in heads && !Free(m, obj) && Reach(m, sources, obj)
      modifies this`top, this`outOfStackSpace, this`marked, mem.cells, markStack
      ensures Ready(m, heads, sources, |m|)
      ensures old(marked) <= marked && (obj != NULL ==> obj in marked) && (old(outOfStackSpace) ==> outOfStackSpace)
    {
      if obj == NULL { return; }
      assert mem.cells[..][obj].alive <==> obj in marked;
      if mem.cells[obj].alive { return; }
      CheckSingleBlock_Force(obj, m, heads, sources, |m|, |m|);
    }

    /** Visits the object even when it is marked. next is the address behind it. */
    method CheckSingleBlock_Force(obj: nat, ghost m: seq<Cell>, ghost heads: set<nat>, ghost sources: set<nat>, ghost limit: nat, ghost next: nat)
      requires Ready(m, heads, sources, limit) && limit <= next
      requires obj != NULL ==> obj in heads && !Free(m, obj) && Reach(m, sources, obj)
      requires forall h {:trigger h in marked} :: h in marked && limit <= h < next ==> h == obj && obj != NULL
      modifies this`top, this`outOfStackSpace, this`marked, mem.cells, markStack
      ensures Ready(m, heads, sources, next)
      ensures old(marked) <= marked && (obj != NULL ==> obj in marked)
      ensures old(outOfStackSpace) ==> outOfStackSpace
      ensures outOfStackSpace && !old(outOfStackSpace) ==> old(marked) < marked
    {
      if obj == NULL { return; }
      Started(m, heads, sources, limit, next, outOfStackSpace, marked, markStack[..], MarkStackElement(obj, 1));
      ComputeReachabilityGraphForMultipleBlocks(obj, 1, m, heads, sources, next);
    }

    ghost predicate SpansAre(spans: seq<Span>)
      reads heap
    {
      |spans| == |heap| && forall i {:trigger spans[i]} :: 0 <= i < |heap| ==> spans[i] == Span(heap[i].payloadStart, heap[i].payloadEnd)
    }

    /** One pass over the heap: visits every marked block that is not an event record. */
    method MarkPass(ghost m: seq<Cell>, ghost heads: set<nat>, ghost spans: seq<Span>, ghost sources: set<nat>)
      requires Ready(m, heads, sources, 0) && !outOfStackSpace
      requires HeapTiled(m, heads, spans) && SpansAre(spans)
      modifies this`top, this`outOfStackSpace, this`marked, mem.cells, markStack
      ensures Ready(m, heads, sources, |m|)
      ensures old(marked) <= marked && (outOfStackSpace ==> old(marked) < marked)
    {
      forall h {:trigger h in heads} | h in heads ensures |spans| > 0 && SpanStart(spans, 0, |m|) <= h {
        assert InSpan(spans, h);
        var j :| 0 <= j < |spans| && spans[j].lo <= h < spans[j].hi;
        assert j > 0 ==> spans[0].hi < spans[j].lo;
      }
      var i := 0;
      while i < |heap|
        invariant i <= |heap|
        invariant Ready(m, heads, sources, SpanStart(spans, i, |m|))
        invariant old(marked) <= marked && (outOfStackSpace ==> old(marked) < marked)
      {
        RescanCluster(heap[i].payloadStart, heap[i].payloadEnd, m, heads, spans, i, sources);
        i := i + 1;
      }
    }

    method RescanCluster(payloadStart: nat, payloadEnd: nat, ghost m: seq<Cell>, ghost heads: set<nat>, ghost spans: seq<Span>,
                         ghost i: nat, ghost sources: set<nat>)
      requires HeapTiled(m, heads, spans) && i < |spans| && spans[i] == Span(payloadStart, payloadEnd)
      requires Ready(m, heads, sources, payloadStart)
      modifies this`top, this`outOfStackSpace, this`marked, mem.cells, markStack
      ensures Ready(m, heads, sources, SpanStart(spans, i + 1, |m|))
      ensures old(marked) <= marked && (old(outOfStackSpace) ==> outOfStackSpace)
      ensures outOfStackSpace && !old(outOfStackSpace) ==> old(marked) < marked
    {
      assert SpanTiled(m, heads, spans, i);
      var ptr := payloadStart;
      while ptr < payloadEnd
        invariant payloadStart <= ptr <= payloadEnd && (ptr < payloadEnd ==> ptr in heads)
        invariant Ready(m, heads, sources, ptr)
        invariant old(marked) <= marked && (old(outOfStackSpace) ==> outOfStackSpace)
        invariant outOfStackSpace && !old(outOfStackSpace) ==> old(marked) < marked
      {
        ghost var next := EndOf(m, ptr);
        assert mem.cells[..][ptr].alive <==> ptr in marked;
        assert mem.cells[..][ptr] == m[ptr].(alive := mem.cells[ptr].alive);
        if mem.cells[ptr].alive && !mem.cells[ptr].event {
          CheckSingleBlock_Force(ptr, m, heads, sources, ptr, next);
        } else {
          assert ptr in marked ==> ObjectOk(m, heads, ptr);
          Skipped(m, heads, sources, ptr, next, outOfStackSpace, marked);
        }
        assert mem.cells[..][ptr] == m[ptr].(alive := mem.cells[ptr].alive);
        ptr := ptr + mem.cells[ptr].size;
      }
      forall h {:trigger h in heads} | h in heads ensures !(payloadEnd <= h < SpanStart(spans, i + 1, |m|)) && payloadEnd <= SpanStart(spans, i + 1, |m|) {
        NoHeadsBetween(m, heads, spans, i, h);
      }
      Skipped(m, heads, sources, payloadEnd, SpanStart(spans, i + 1, |m|), outOfStackSpace, marked);
    }

    /** Repeats the pass until nothing was dropped. */
    method MarkSlow(ghost m: seq<Cell>, ghost heads: set<nat>, ghost spans: seq<Span>, ghost sources: set<nat>)
      requires Ready(m, heads, sources, |m|)
      requires HeapTiled(m, heads, spans) && SpansAre(spans)
      modifies this`top, this`outOfStackSpace, this`marked, mem.cells, markStack
      ensures Ready(m, heads, sources, |m|)
      ensures old(marked) <= marked && !outOfStackSpace
    {
      while outOfStackSpace
        invariant Ready(m, heads, sources, |m|)
        invariant old(marked) <= marked
        decreases heads - marked, outOfStackSpace
      {
        ghost var before := marked;
        outOfStackSpace := false;
        MarkPass(m, heads, spans, sources);
        assert forall h {:trigger h in marked} :: h in marked ==> h in heads;
        assert heads - marked <= heads - before;
        assert outOfStackSpace ==> heads - marked < heads - before;
        assert !outOfStackSpace ==> heads - marked == heads - before || heads - marked < heads - before;
      }
    }
  }
}
