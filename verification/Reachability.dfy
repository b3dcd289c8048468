/** The object graph the collector marks, and the invariant of its mark stack. */
module Reachability {
  import opened HeapMemory

  /** A run of cells still to be visited. */
  datatype MarkStackElement = MarkStackElement(ptr: nat, num: nat)

  // The object graph.

  /** How many cells behind the header at c hold references of the block. */
  function Children(c: Cell): nat {
    match c.dt
    case ClassOrValueType => if c.size == 0 then 0 else c.size - 1
    case SzArray(isReference, numOfElements) => if isReference then numOfElements else 0
    case DelegateHead => 1
    case DelegateList(isWeak, length) => if isWeak then 0 else length
    case _ => 0
  }

  /** The object a cell points at, or NULL. */
  function Target(m: seq<Cell>, c: nat): nat {
    if c < |m| && m[c].dt.Reference? then m[c].ref else NULL
  }

  ghost predicate SlotOf(m: seq<Cell>, h: nat, c: nat) {
    h < |m| && (h == c || h < c <= h + Children(m[h]))
  }

  ghost predicate Edge(m: seq<Cell>, a: nat, b: nat) {
    b != NULL && exists c {:trigger SlotOf(m, a, c)} :: SlotOf(m, a, c) && Target(m, c) == b
  }

  ghost predicate Points(m: seq<Cell>, c: nat, b: nat) {
    c < |m| && m[c].dt.Reference? && m[c].ref == b
  }

  /** The pointers of a block, type by type: a reference points at its target; an instance of a class with its fields, which
      reach up to the end of the block; an array of references with its elements; a delegate with its object; a list of
      delegates, unless it is weak, with its entries. */
  ghost predicate Holds(m: seq<Cell>, a: nat, b: nat) {
    && b != NULL && a < |m|
    && match m[a].dt
      case Reference => m[a].ref == b
      case ClassOrValueType => exists c: nat {:trigger Points(m, c, b)} :: a < c < EndOf(m, a) && Points(m, c, b)
      case SzArray(isReference, n) => isReference && exists c: nat {:trigger Points(m, c, b)} :: a < c <= a + n && Points(m, c, b)
      case DelegateHead => Points(m, a + 1, b)
      case DelegateList(isWeak, length) => !isWeak && exists c: nat {:trigger Points(m, c, b)} :: a < c <= a + length && Points(m, c, b)
      case _ => false
  }

  lemma EdgeIs(m: seq<Cell>, a: nat, b: nat)
    ensures Edge(m, a, b) <==> Holds(m, a, b)
  {
    if Edge(m, a, b) {
      var c: nat :| SlotOf(m, a, c) && Target(m, c) == b;
      assert Points(m, c, b);
    }
    if b != NULL && a < |m| {
      if Points(m, a, b) { assert SlotOf(m, a, a) && Target(m, a) == b; }
      if c: nat :| a < c <= a + Children(m[a]) && Points(m, c, b) { assert SlotOf(m, a, c) && Target(m, c) == b; }
    }
  }

  ghost predicate IsPath(m: seq<Cell>, sources: set<nat>, p: seq<nat>) {
    && |p| > 0 && p[0] in sources
    && (forall i :: 0 <= i < |p| - 1 ==> Edge(m, p[i], p[i + 1]))
  }

  /** There is a path of strong references from one of the sources to x. */
  ghost predicate Reach(m: seq<Cell>, sources: set<nat>, x: nat) {
    exists p {:trigger IsPath(m, sources, p)} :: IsPath(m, sources, p) && p[|p| - 1] == x
  }

  lemma ReachSource(m: seq<Cell>, sources: set<nat>, x: nat)
    requires x in sources
    ensures Reach(m, sources, x)
  {
    assert IsPath(m, sources, [x]);
  }

  lemma ReachEdge(m: seq<Cell>, sources: set<nat>, a: nat, c: nat)
    requires Reach(m, sources, a) && SlotOf(m, a, c) && Target(m, c) != NULL
    ensures Reach(m, sources, Target(m, c))
  {
    var p :| IsPath(m, sources, p) && p[|p| - 1] == a;
    var q := p + [Target(m, c)];
    forall i | 0 <= i < |q| - 1 ensures Edge(m, q[i], q[i + 1]) {
      if i < |p| - 1 { assert Edge(m, p[i], p[i + 1]); }
    }
    assert IsPath(m, sources, q);
  }

  lemma ReachMonotone(m: seq<Cell>, sources: set<nat>, more: set<nat>, x: nat)
    requires Reach(m, sources, x) && sources <= more
    ensures Reach(m, more, x)
  {
    var p :| IsPath(m, sources, p) && p[|p| - 1] == x;
    assert IsPath(m, more, p);
  }

  /** A set that holds the sources and is closed under references holds everything reachable. */
  lemma {:induction false} ClosedUnderPath(m: seq<Cell>, sources: set<nat>, closed: set<nat>, p: seq<nat>)
    requires IsPath(m, sources, p) && sources <= closed
    requires forall a, b {:trigger Edge(m, a, b)} :: a in closed && Edge(m, a, b) ==> b in closed
    ensures p[|p| - 1] in closed
  {
    if |p| > 1 {
      var q := p[..|p| - 1];
      assert forall i :: 0 <= i < |q| - 1 ==> Edge(m, p[i], p[i + 1]);
      ClosedUnderPath(m, sources, closed, q);
      assert Edge(m, p[|p| - 2], p[|p| - 1]);
    }
  }

  lemma ReachInClosed(m: seq<Cell>, sources: set<nat>, closed: set<nat>, x: nat)
    requires Reach(m, sources, x) && sources <= closed
    requires forall a, b {:trigger Edge(m, a, b)} :: a in closed && Edge(m, a, b) ==> b in closed
    ensures x in closed
  {
    var p :| IsPath(m, sources, p) && p[|p| - 1] == x;
    ClosedUnderPath(m, sources, closed, p);
  }

  // Well-formed graphs.

  ghost predicate TargetOk(m: seq<Cell>, heads: set<nat>, c: nat) {
    c < |m| && (Target(m, c) != NULL ==> Target(m, c) in heads && !Free(m, Target(m, c)))
  }

  /** A cell that is not a header and holds at most one pointer. */
  ghost predicate PlainSlot(m: seq<Cell>, heads: set<nat>, c: nat) {
    c < |m| && c !in heads && Children(m[c]) == 0 && TargetOk(m, heads, c)
  }

  ghost predicate ObjectOk(m: seq<Cell>, heads: set<nat>, h: nat) {
    && h < |m| && TargetOk(m, heads, h)
    && (m[h].event ==> Children(m[h]) == 0 && Target(m, h) == NULL)
    && (forall c {:trigger PlainSlot(m, heads, c)} :: h < c <= h + Children(m[h]) ==> PlainSlot(m, heads, c))
    && (Children(m[h]) == 0 || Children(m[h]) < m[h].size)
  }

  /** Every pointer of a block is null or leads to a used block; event records hold none. */
  ghost predicate GraphOk(m: seq<Cell>, heads: set<nat>) {
    && NULL !in heads
    && (forall h {:trigger ObjectOk(m, heads, h)} :: h in heads && !Free(m, h) ==> ObjectOk(m, heads, h))
    && (forall h :: h in heads ==> h < |m|)
  }

  /** What a used block points at is a used block. */
  ghost predicate PointersLead(m: seq<Cell>, heads: set<nat>) {
    forall a: nat, b: nat {:trigger Holds(m, a, b)} :: a in heads && !Free(m, a) && Holds(m, a, b) ==> b in heads && !Free(m, b)
  }

  lemma GraphLeads(m: seq<Cell>, heads: set<nat>)
    requires GraphOk(m, heads)
    ensures PointersLead(m, heads)
  {
    forall a: nat, b: nat {:trigger Holds(m, a, b)} | a in heads && !Free(m, a) && Holds(m, a, b) ensures b in heads && !Free(m, b) {
      EdgeIs(m, a, b);
      var c: nat :| SlotOf(m, a, c) && Target(m, c) == b;
      assert ObjectOk(m, heads, a);
      if c != a { assert PlainSlot(m, heads, c); }
    }
  }

  // The state of the marking loop: marks, stack (behind a sentinel at 0) and the current run cur.

  ghost predicate InRange(e: MarkStackElement, c: nat) {
    e.ptr <= c < e.ptr + e.num
  }

  ghost predicate OnStack(ms: seq<MarkStackElement>, top: nat, c: nat) {
    exists i {:trigger InRange(ms[i], c)} :: 1 <= i <= top && i < |ms| && InRange(ms[i], c)
  }

  /** Still to be visited. */
  ghost predicate Grey(ms: seq<MarkStackElement>, top: nat, cur: MarkStackElement, c: nat) {
    InRange(cur, c) || OnStack(ms, top, c)
  }

  /** The pointer in c needs no visit of c any more. */
  ghost predicate Settled(m: seq<Cell>, marked: set<nat>, ms: seq<MarkStackElement>, top: nat, cur: MarkStackElement, c: nat) {
    Target(m, c) == NULL || Target(m, c) in marked || Grey(ms, top, cur, Target(m, c))
  }

  ghost predicate Covered(m: seq<Cell>, marked: set<nat>, ms: seq<MarkStackElement>, top: nat, cur: MarkStackElement, h: nat) {
    || Grey(ms, top, cur, h)
    || (forall c {:trigger SlotOf(m, h, c)} :: SlotOf(m, h, c) ==> Grey(ms, top, cur, c) || Settled(m, marked, ms, top, cur, c))
  }

  /** No marked block below limit points at something that would be missed. */
  ghost predicate Complete(m: seq<Cell>, marked: set<nat>, ms: seq<MarkStackElement>, top: nat, cur: MarkStackElement, limit: nat) {
    forall h {:trigger Covered(m, marked, ms, top, cur, h)} :: h in marked && h < limit ==> Covered(m, marked, ms, top, cur, h)
  }

  /** What is marked, or will be because of c, is reachable. */
  ghost predicate GreySound(m: seq<Cell>, heads: set<nat>, sources: set<nat>, c: nat) {
    && (c in heads ==> Reach(m, sources, c) && !Free(m, c))
    && (c !in heads ==> PlainSlot(m, heads, c) && (Target(m, c) != NULL ==> Reach(m, sources, Target(m, c))))
  }

  ghost predicate MarkSound(m: seq<Cell>, heads: set<nat>, sources: set<nat>, marked: set<nat>) {
    forall h {:trigger h in marked} :: h in marked ==> h in heads && h < |m| && !Free(m, h) && (m[h].event || Reach(m, sources, h))
  }

  ghost predicate StackOk(m: seq<Cell>, heads: set<nat>, sources: set<nat>, ms: seq<MarkStackElement>, top: nat) {
    && 2 <= |ms| && top < |ms| && ms[0].num == 0
    && (forall i :: 1 <= i <= top ==> ms[i].num > 0)
    && (forall c {:trigger OnStack(ms, top, c)} :: OnStack(ms, top, c) ==> c !in heads && GreySound(m, heads, sources, c))
  }

  /** cur is a run of slots, or one header. */
  ghost predicate CurOk(m: seq<Cell>, heads: set<nat>, sources: set<nat>, cur: MarkStackElement) {
    && (forall c {:trigger InRange(cur, c)} :: InRange(cur, c) ==> GreySound(m, heads, sources, c))
    && (cur.num > 1 ==> forall c {:trigger InRange(cur, c)} :: InRange(cur, c) ==> c !in heads)
  }

  /** c will be visited even if the stack runs full. */
  ghost predicate Safe(ms: seq<MarkStackElement>, top: nat, cur: MarkStackElement, c: nat) {
    OnStack(ms, top, c) || (InRange(cur, c) && (cur.num <= 1 || top == 0))
  }

  /** The pointer in c is null, marked, or the one to be followed next. */
  ghost predicate RootSettled(m: seq<Cell>, heads: set<nat>, marked: set<nat>, cur: MarkStackElement, c: nat) {
    Target(m, c) == NULL || Target(m, c) in marked || (Target(m, c) in heads && cur == MarkStackElement(Target(m, c), 1))
  }

  /** The cells the call was made for: nothing of them is ever dropped. */
  ghost predicate RootsKept(m: seq<Cell>, heads: set<nat>, marked: set<nat>, ms: seq<MarkStackElement>, top: nat, cur: MarkStackElement, first: MarkStackElement) {
    forall c {:trigger InRange(first, c)} :: InRange(first, c) ==>
      Safe(ms, top, cur, c) || RootSettled(m, heads, marked, cur, c)
  }

  /** Until the call has marked something, the stack has room. */
  ghost predicate RoomLeft(marked0: set<nat>, marked: set<nat>, top: nat, cur: MarkStackElement) {
    && marked0 <= marked
    && (marked == marked0 ==> cur.num <= 1 || top == 0)
    && (cur.num == 1 && cur.ptr in marked ==> top == 0)
  }

  ghost predicate MarkState(m: seq<Cell>, heads: set<nat>, sources: set<nat>, limit: nat, marked0: set<nat>, first: MarkStackElement,
                            flag: bool, marked: set<nat>, ms: seq<MarkStackElement>, top: nat, cur: MarkStackElement) {
    && GraphOk(m, heads)
    && StackOk(m, heads, sources, ms, top)
    && CurOk(m, heads, sources, cur)
    && MarkSound(m, heads, sources, marked)
    && (flag || Complete(m, marked, ms, top, cur, limit))
    && RootsKept(m, heads, marked, ms, top, cur, first)
    && RoomLeft(marked0, marked, top, cur)
  }

  // Fetching the next cell.

  /** Taking the next cell p changes where the cells to be visited are kept, but not which ones they are. */
  ghost predicate SameGrey(ms: seq<MarkStackElement>, top: nat, cur: MarkStackElement, ms': seq<MarkStackElement>, top': nat, p: nat) {
    && |ms'| == |ms| && top' < |ms'| && |ms| >= 2
    && ms'[0].num == 0
    && (forall i :: 1 <= i <= top' ==> ms'[i].num > 0)
    && (forall c {:trigger OnStack(ms, top, c)} :: OnStack(ms, top, c) ==> c == p || OnStack(ms', top', c))
    && (forall c {:trigger InRange(cur, c)} :: InRange(cur, c) ==> c == p || OnStack(ms', top', c))
    && (forall c {:trigger OnStack(ms', top', c)} :: OnStack(ms', top', c) ==> OnStack(ms, top, c) || (InRange(cur, c) && cur.num > 1))
    && (OnStack(ms, top, p) || InRange(cur, p))
    && (cur.num == 1 ==> p == cur.ptr && top' == top)
    && (cur.num == 0 ==> OnStack(ms, top, p))
  }

  lemma SameGreyPop(ms: seq<MarkStackElement>, top: nat, cur: MarkStackElement, ms': seq<MarkStackElement>, top': nat)
    requires 1 <= top < |ms| && cur.num == 0 && ms[0].num == 0 && forall i :: 1 <= i <= top ==> ms[i].num > 0
    requires ms' == ms[top := MarkStackElement(ms[top].ptr + 1, ms[top].num - 1)]
    requires top' == if ms'[top].num == 0 then top - 1 else top
    ensures SameGrey(ms, top, cur, ms', top', ms[top].ptr)
  {
    forall c {:trigger OnStack(ms, top, c)} | OnStack(ms, top, c) ensures c == ms[top].ptr || OnStack(ms', top', c) {
      var i :| 1 <= i <= top && InRange(ms[i], c);
      if c != ms[top].ptr { assert InRange(ms'[i], c); }
    }
    forall c {:trigger OnStack(ms', top', c)} | OnStack(ms', top', c) ensures OnStack(ms, top, c) {
      var i :| 1 <= i <= top' && InRange(ms'[i], c);
      assert InRange(ms[i], c);
    }
    assert InRange(ms[top], ms[top].ptr);
  }

  lemma SameGreyPush(ms: seq<MarkStackElement>, top: nat, cur: MarkStackElement, ms': seq<MarkStackElement>)
    requires top + 1 < |ms| && cur.num > 1 && ms[0].num == 0 && forall i :: 1 <= i <= top ==> ms[i].num > 0
    requires ms' == ms[top + 1 := MarkStackElement(cur.ptr + 1, cur.num - 1)]
    ensures SameGrey(ms, top, cur, ms', top + 1, cur.ptr)
  {
    forall c {:trigger OnStack(ms, top, c)} | OnStack(ms, top, c) ensures OnStack(ms', top + 1, c) {
      var i :| 1 <= i <= top && InRange(ms[i], c);
      assert InRange(ms'[i], c);
    }
    forall c {:trigger InRange(cur, c)} | InRange(cur, c) ensures c == cur.ptr || OnStack(ms', top + 1, c) {
      if c != cur.ptr { assert InRange(ms'[top + 1], c); }
    }
    forall c {:trigger OnStack(ms', top + 1, c)} | OnStack(ms', top + 1, c) ensures OnStack(ms, top, c) || InRange(cur, c) {
      var i :| 1 <= i <= top + 1 && InRange(ms'[i], c);
      if i <= top { assert InRange(ms[i], c); }
    }
  }

  lemma Fetched(m: seq<Cell>, heads: set<nat>, sources: set<nat>, limit: nat, marked0: set<nat>, first: MarkStackElement,
                flag: bool, marked: set<nat>, ms: seq<MarkStackElement>, top: nat, cur: MarkStackElement,
                ms': seq<MarkStackElement>, top': nat, p: nat)
    requires MarkState(m, heads, sources, limit, marked0, first, flag, marked, ms, top, cur)
    requires SameGrey(ms, top, cur, ms', top', p)
    ensures MarkState(m, heads, sources, limit, marked0, first, flag, marked, ms', top', MarkStackElement(p, 1))
  {
    var cur' := MarkStackElement(p, 1);
    assert InRange(cur', p);
    forall c {:trigger Grey(ms, top, cur, c)} | Grey(ms, top, cur, c) ensures Grey(ms', top', cur', c) {}
    forall c {:trigger InRange(cur', c)} | InRange(cur', c) ensures GreySound(m, heads, sources, c) { assert c == p; }
    if !flag {
      forall h {:trigger Covered(m, marked, ms', top', cur', h)} | h in marked && h < limit ensures Covered(m, marked, ms', top', cur', h) {
        assert Covered(m, marked, ms, top, cur, h);
      }
    }
    forall c {:trigger InRange(first, c)} | InRange(first, c)
      ensures Safe(ms', top', cur', c) || RootSettled(m, heads, marked, cur', c)
    {
      assert InRange(cur', c) <==> c == p;
    }
  }

  // Visiting a cell.

  /** What the loop goes on with after visiting p. */
  function NextRun(m: seq<Cell>, p: nat, sub: bool): MarkStackElement
    requires p < |m|
  {
    if sub then MarkStackElement(Target(m, p), 1)
    else if Children(m[p]) > 0 then MarkStackElement(p + 1, Children(m[p]))
    else MarkStackElement(NULL, 0)
  }

  lemma VisitedGrey(m: seq<Cell>, heads: set<nat>, marked: set<nat>, ms: seq<MarkStackElement>, top: nat, p: nat, marked': set<nat>, cur': MarkStackElement, h: nat)
    requires GraphOk(m, heads) && p < |m| && h < |m|
    requires marked' == if p in heads then marked + {p} else marked
    requires cur' == NextRun(m, p, Target(m, p) != NULL && Target(m, p) !in marked')
    requires TargetOk(m, heads, p)
    requires Covered(m, marked, ms, top, MarkStackElement(p, 1), h) || h == p
    requires forall c {:trigger TargetOk(m, heads, c)} :: SlotOf(m, h, c) ==> TargetOk(m, heads, c)
    ensures Covered(m, marked', ms, top, cur', h)
  {
    var cur := MarkStackElement(p, 1);
    assert Settled(m, marked', ms, top, cur', p) by { if Target(m, p) != NULL && Target(m, p) !in marked' { assert InRange(cur', Target(m, p)); } }
    if OnStack(ms, top, h) {
    } else {
      forall c {:trigger SlotOf(m, h, c)} | SlotOf(m, h, c) ensures Grey(ms, top, cur', c) || Settled(m, marked', ms, top, cur', c) {
        assert TargetOk(m, heads, c);
        assert InRange(cur, c) <==> c == p;
        assert InRange(cur, Target(m, c)) <==> Target(m, c) == p;
        if h == p {
          if c != p { assert Children(m[p]) > 0 && !m[p].dt.Reference? && InRange(cur', c); }
        } else {
          assert InRange(cur, h) ==> h == p;
        }
      }
    }
  }

  lemma Visited(m: seq<Cell>, heads: set<nat>, sources: set<nat>, limit: nat, marked0: set<nat>, first: MarkStackElement,
                flag: bool, marked: set<nat>, ms: seq<MarkStackElement>, top: nat, p: nat, marked': set<nat>, cur': MarkStackElement)
    requires MarkState(m, heads, sources, limit, marked0, first, flag, marked, ms, top, MarkStackElement(p, 1))
    requires marked' == if p in heads then marked + {p} else marked
    requires p < |m| && cur' == NextRun(m, p, Target(m, p) != NULL && Target(m, p) !in marked')
    ensures MarkState(m, heads, sources, limit, marked0, first, flag, marked', ms, top, cur')
  {
    var cur := MarkStackElement(p, 1);
    assert InRange(cur, p);
    assert GreySound(m, heads, sources, p);
    assert p in heads ==> ObjectOk(m, heads, p);
    assert TargetOk(m, heads, p);
    if !flag {
      forall h {:trigger Covered(m, marked', ms, top, cur', h)} | h in marked' && h < limit ensures Covered(m, marked', ms, top, cur', h) {
        assert h in heads && ObjectOk(m, heads, h);
        forall c {:trigger TargetOk(m, heads, c)} | SlotOf(m, h, c) ensures TargetOk(m, heads, c) {
          assert c != h ==> PlainSlot(m, heads, c);
        }
        assert h in marked ==> Covered(m, marked, ms, top, cur, h);
        VisitedGrey(m, heads, marked, ms, top, p, marked', cur', h);
      }
    }
    forall c {:trigger InRange(cur', c)} | InRange(cur', c) ensures GreySound(m, heads, sources, c) && (cur'.num > 1 ==> c !in heads) {
      if cur' == NextRun(m, p, true) && Target(m, p) != NULL && Target(m, p) !in marked' {
        assert c == Target(m, p);
        if p in heads { ReachEdge(m, sources, p, p); }
      } else {
        assert PlainSlot(m, heads, c);
        if Target(m, c) != NULL { ReachEdge(m, sources, p, c); }
      }
    }
    if Children(m[p]) > 0 { assert PlainSlot(m, heads, p + 1); }
    forall c {:trigger InRange(first, c)} | InRange(first, c)
      ensures Safe(ms, top, cur', c) || RootSettled(m, heads, marked', cur', c)
    {
      assert InRange(cur, c) <==> c == p;
    }
  }

  /** On a full stack a run of cells is dropped; the flag says so. */
  lemma Dropped(m: seq<Cell>, heads: set<nat>, sources: set<nat>, limit: nat, marked0: set<nat>, first: MarkStackElement,
                flag: bool, marked: set<nat>, ms: seq<MarkStackElement>, top: nat, cur: MarkStackElement)
    requires MarkState(m, heads, sources, limit, marked0, first, flag, marked, ms, top, cur)
    requires cur.num > 1 && top == |ms| - 1
    ensures MarkState(m, heads, sources, limit, marked0, first, true, marked, ms, top, MarkStackElement(NULL, 0))
    ensures marked0 < marked
  {
  }
}
