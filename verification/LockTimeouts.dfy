/** The pass that takes back lock requests whose time is over. It walks the lists of ready and of waiting threads,
    and restarts threads on the way, which moves them from one list to the other under the walk. */
module LockTimeouts {
  import NodeList
  import opened Scheduler

  /** ready and waiting are the threads in the two lists; counts says how many lock requests each thread has queued.
      due[t] are the threads whose requests for the locks of thread t are overdue, in the order of the walk. */
  datatype Lists = Lists(ready: seq<nat>, waiting: seq<nat>, counts: seq<int>, due: seq<seq<nat>>)

  /** How threads rank in the ready list; this does not change during the pass. */
  datatype Ranks = Ranks(priorities: seq<nat>, counters: seq<int>)

  /** A place in one of the lists, or the end of a list. */
  datatype Place = End | At(t: nat)

  function First(list: seq<nat>): Place {
    if list == [] then End else At(list[0])
  }

  /** The list from p on. */
  function Suffix(list: seq<nat>, p: nat): (r: seq<nat>)
    ensures |r| <= |list| && (p in list <==> r != []) && (r != [] ==> r[0] == p)
    ensures forall t {:trigger t in r} :: t in r ==> t in list
  {
    if list == [] || list[0] == p then list else Suffix(list[1..], p)
  }

  /** The list that thread p is in, from p on. */
  function Ahead(s: Lists, p: Place): seq<nat> {
    if p.End? then [] else if p.t in s.ready then Suffix(s.ready, p.t) else Suffix(s.waiting, p.t)
  }

  function Next(s: Lists, p: Place): Place {
    var r := Ahead(s, p);
    if r == [] then End else First(r[1..])
  }

  /** Thread t goes to its place in the ready list. */
  function Restart(ranks: Ranks, s: Lists, t: nat): Lists {
    s.(ready := Inserted(ranks.priorities, ranks.counters, Unlinked(s.ready, t), t), waiting := Unlinked(s.waiting, t))
  }

  /** Requests are taken back one after the other; a thread that has none left is restarted. */
  function TakenBack(ranks: Ranks, s: Lists, requests: seq<nat>): (r: Lists)
    ensures r.due == s.due && |r.counts| == |s.counts|
    decreases |requests|
  {
    if requests == [] || requests[0] >= |s.counts| then s
    else
      var w := requests[0];
      var s1 := s.(counts := s.counts[w := s.counts[w] - 1]);
      TakenBack(ranks, if s1.counts[w] == 0 then Restart(ranks, s1, w) else s1, requests[1..])
  }

  /** Thread t is visited. */
  function Visit(ranks: Ranks, s: Lists, t: nat): (r: Lists)
    ensures |r.due| == |s.due| && |r.counts| == |s.counts|
    ensures r.due == if t < |s.due| then s.due[t := []] else s.due
  {
    if t < |s.due| then TakenBack(ranks, s.(due := s.due[t := []]), s.due[t]) else s
  }

  function Load(due: seq<seq<nat>>): nat {
    if due == [] then 0 else |due[0]| + Load(due[1..])
  }

  lemma {:induction false} LoadUpdate(due: seq<seq<nat>>, t: nat)
    requires t < |due|
    ensures Load(due[t := []]) + |due[t]| == Load(due)
  {
    if t == 0 {
      assert due[0 := []][1..] == due[1..];
    } else {
      LoadUpdate(due[1..], t - 1);
      assert due[t := []][1..] == due[1..][t - 1 := []];
    }
  }

  /** A thread without overdue requests is passed over. */
  lemma VisitNothing(ranks: Ranks, s: Lists, t: nat)
    ensures t >= |s.due| || s.due[t] == [] ==> Visit(ranks, s, t) == s
    ensures t < |s.due| && s.due[t] != [] ==> Load(Visit(ranks, s, t).due) < Load(s.due)
  {
    if t < |s.due| {
      LoadUpdate(s.due, t);
      if s.due[t] == [] { assert s.due[t := []] == s.due; }
    }
  }

  lemma RestAt(list: seq<nat>, i: nat)
    requires 0 < i <= |list|
    ensures list[1..][i - 1..] == list[i..] && (i < |list| ==> list[1..][i - 1] == list[i])
  {
  }

  lemma RestOfSum(a: seq<nat>, b: seq<nat>)
    requires a != []
    ensures (a + b)[0] == a[0] && (a + b)[1..] == a[1..] + b
  {
  }

  /** The list from its i-th place on. */
  lemma {:induction false} SuffixAt(list: seq<nat>, i: nat)
    requires NodeList.Unique(list) && i < |list|
    ensures Suffix(list, list[i]) == list[i..]
  {
    if i > 0 {
      UniqueRest(list);
      RestAt(list, i);
      SuffixAt(list[1..], i - 1);
    }
  }

  lemma SuffixNext(list: seq<nat>, p: nat)
    requires p in list && NodeList.Unique(list)
    ensures var r := Suffix(list, p); |r| > 1 ==> Suffix(list, r[1]) == r[1..]
  {
    var i :| 0 <= i < |list| && list[i] == p;
    SuffixAt(list, i);
    if i + 1 < |list| {
      SuffixAt(list, i + 1);
      SliceRest(list, i);
    }
  }

  lemma SliceRest(list: seq<nat>, i: nat)
    requires i + 1 < |list|
    ensures |list[i..]| > 1 && list[i..][1] == list[i + 1] && list[i..][1..] == list[i + 1..]
  {
  }

  /** No thread is in both lists or twice in one. */
  ghost predicate Sane(s: Lists) {
    && |s.counts| == |s.due| && NodeList.Unique(s.ready) && NodeList.Unique(s.waiting)
    && (forall t {:trigger t in s.ready} :: t in s.ready ==> t !in s.waiting && t < |s.due|)
    && (forall t {:trigger t in s.waiting} :: t in s.waiting ==> t < |s.due|)
    && (forall t, i {:trigger s.due[t][i]} :: 0 <= t < |s.due| && 0 <= i < |s.due[t]| ==> s.due[t][i] < |s.counts|)
  }

  ghost predicate Listed(s: Lists, t: nat) {
    t in s.ready || t in s.waiting
  }

  lemma {:induction false} UnlinkedElements(list: seq<nat>, t: nat)
    requires NodeList.Unique(list)
    ensures NodeList.Unique(Unlinked(list, t))
    ensures forall u {:trigger u in Unlinked(list, t)} :: u in Unlinked(list, t) <==> u in list && u != t
    ensures t !in list ==> Unlinked(list, t) == list
  {
    if list != [] {
      forall i, j {:trigger list[1..][i], list[1..][j]} | 0 <= i < j < |list| - 1 ensures list[1..][i] != list[1..][j] {
        assert list[1..][i] == list[i + 1] && list[1..][j] == list[j + 1];
      }
      UnlinkedElements(list[1..], t);
      forall u ensures u in list <==> u == list[0] || u in list[1..] {}
      if list[0] == t {
        forall i | 0 <= i < |list| - 1 ensures list[1..][i] != t { assert list[1..][i] == list[i + 1]; }
      } else {
        var r := Unlinked(list[1..], t);
        assert list[0] !in list[1..] by {
          forall i | 0 <= i < |list| - 1 ensures list[1..][i] != list[0] { assert list[1..][i] == list[i + 1]; }
        }
        UniqueFirst(list[0], r);
      }
    }
  }

  lemma UniqueFirst(t: nat, list: seq<nat>)
    requires NodeList.Unique(list) && t !in list
    ensures NodeList.Unique([t] + list)
  {
    var r := [t] + list;
    forall i, j {:trigger r[i], r[j]} | 0 <= i < j < |r| ensures r[i] != r[j] {
      assert r[j] == list[j - 1];
      if i > 0 { assert r[i] == list[i - 1]; }
    }
  }

  lemma RestartSane(ranks: Ranks, s: Lists, t: nat)
    requires Sane(s) && t < |s.counts|
    ensures Sane(Restart(ranks, s, t))
    ensures forall u {:trigger u in Restart(ranks, s, t).ready} :: u in Restart(ranks, s, t).ready <==> u in s.ready || u == t
    ensures forall u {:trigger u in Restart(ranks, s, t).waiting} :: u in Restart(ranks, s, t).waiting <==> u in s.waiting && u != t
  {
    UnlinkedElements(s.ready, t);
    UnlinkedElements(s.waiting, t);
    InsertedUnique(ranks.priorities, ranks.counters, Unlinked(s.ready, t), t);
  }

  lemma {:induction false} TakenBackSane(ranks: Ranks, s: Lists, requests: seq<nat>)
    requires Sane(s)
    ensures Sane(TakenBack(ranks, s, requests))
    ensures forall u {:trigger u in TakenBack(ranks, s, requests).ready} :: u in s.ready ==> u in TakenBack(ranks, s, requests).ready
    ensures forall u {:trigger Listed(TakenBack(ranks, s, requests), u)} :: Listed(s, u) ==> Listed(TakenBack(ranks, s, requests), u)
    decreases |requests|
  {
    if requests != [] && requests[0] < |s.counts| {
      var w := requests[0];
      var s1 := s.(counts := s.counts[w := s.counts[w] - 1]);
      RestartSane(ranks, s1, w);
      TakenBackSane(ranks, if s1.counts[w] == 0 then Restart(ranks, s1, w) else s1, requests[1..]);
    }
  }

  lemma VisitSane(ranks: Ranks, s: Lists, t: nat)
    requires Sane(s)
    ensures Sane(Visit(ranks, s, t))
    ensures forall u {:trigger Listed(Visit(ranks, s, t), u)} :: Listed(s, u) ==> Listed(Visit(ranks, s, t), u)
  {
    if t < |s.due| {
      var s1 := s.(due := s.due[t := []]);
      assert Sane(s1);
      TakenBackSane(ranks, s1, s.due[t]);
      forall u ensures Listed(s1, u) == Listed(s, u) {}
    }
  }

  lemma NextAhead(s: Lists, p: Place)
    requires Sane(s) && (p.At? ==> Listed(s, p.t))
    ensures Next(s, p).At? ==> Listed(s, Next(s, p).t)
    ensures p.At? ==> |Ahead(s, Next(s, p))| < |Ahead(s, p)|
    ensures p.At? ==> Ahead(s, Next(s, p)) == Ahead(s, p)[1..]
    ensures p.At? ==> forall t {:trigger t in Ahead(s, Next(s, p))} :: t in Ahead(s, Next(s, p)) ==> t in Ahead(s, p)
  {
    if p.At? {
      var list := if p.t in s.ready then s.ready else s.waiting;
      SuffixNext(list, p.t);
      var r := Suffix(list, p.t);
      if |r| > 1 { assert r[1] in r; }
    }
  }

  /** The walk from p on. The place after p is looked up before p is visited. */
  ghost function Walk(ranks: Ranks, s: Lists, p: Place): Lists
    requires Sane(s) && (p.At? ==> Listed(s, p.t))
    decreases Load(s.due), |Ahead(s, p)|
  {
    if p.End? then s
    else
      var next, s1 := Next(s, p), Visit(ranks, s, p.t);
      VisitSane(ranks, s, p.t);
      VisitNothing(ranks, s, p.t);
      NextAhead(s, p);
      assert next.At? ==> Listed(s1, next.t);
      Walk(ranks, s1, next)
  }

  /** The ready list is walked first, then the waiting one. */
  ghost function CheckAll(ranks: Ranks, s: Lists): Lists
    requires Sane(s)
  {
    FirstListed(s);
    var s1 := Walk(ranks, s, First(s.ready));
    WalkSane(ranks, s, First(s.ready));
    FirstListed(s1);
    Walk(ranks, s1, First(s1.waiting))
  }

  lemma FirstListed(s: Lists)
    ensures First(s.ready).At? ==> Listed(s, First(s.ready).t)
    ensures First(s.waiting).At? ==> Listed(s, First(s.waiting).t)
  {
  }

  /** One step of the walk. */
  lemma WalkStep(ranks: Ranks, s: Lists, p: Place)
    requires Sane(s) && p.At? && Listed(s, p.t)
    ensures var s1, next := Visit(ranks, s, p.t), Next(s, p);
      && p.t < |s.due| && Sane(s1) && (next.At? ==> Listed(s1, next.t))
      && Walk(ranks, s, p) == Walk(ranks, s1, next)
      && Load(s1.due) <= Load(s.due) && (Load(s1.due) == Load(s.due) ==> |Ahead(s1, next)| < |Ahead(s, p)|)
  {
    VisitSane(ranks, s, p.t);
    VisitNothing(ranks, s, p.t);
    NextAhead(s, p);
  }

  /** The walk leaves nothing of a thread's overdue requests or all of them, and nobody is lost. */
  lemma {:induction false} WalkSane(ranks: Ranks, s: Lists, p: Place)
    requires Sane(s) && (p.At? ==> Listed(s, p.t))
    ensures Sane(Walk(ranks, s, p)) && |Walk(ranks, s, p).due| == |s.due|
    ensures forall t {:trigger Walk(ranks, s, p).due[t]} :: 0 <= t < |s.due| ==> Walk(ranks, s, p).due[t] == s.due[t] || Walk(ranks, s, p).due[t] == []
    ensures Load(Walk(ranks, s, p).due) <= Load(s.due)
    ensures forall u {:trigger Listed(Walk(ranks, s, p), u)} :: Listed(s, u) ==> Listed(Walk(ranks, s, p), u)
    decreases Load(s.due), |Ahead(s, p)|
  {
    if p.At? {
      VisitSane(ranks, s, p.t);
      VisitNothing(ranks, s, p.t);
      NextAhead(s, p);
      WalkSane(ranks, Visit(ranks, s, p.t), Next(s, p));
    }
  }

  // The order of the ready list.

  ghost predicate InOrder(ranks: Ranks, list: seq<nat>) {
    Sorted(ranks.priorities, ranks.counters, list)
  }

  /** Thread t has been taken out of the list before, if it was there, and put in place k of the list after: behind
      all that do not rank below it, in front of the others. */
  ghost predicate MovedTo(ranks: Ranks, before: seq<nat>, t: nat, after: seq<nat>, k: nat) {
    && k < |after| && after[k] == t
    && (forall i :: 0 <= i < k ==> Rank(ranks.priorities, ranks.counters, after[i]) >= Rank(ranks.priorities, ranks.counters, t))
    && (forall i :: k < i < |after| ==> Rank(ranks.priorities, ranks.counters, after[i]) < Rank(ranks.priorities, ranks.counters, t))
    && Leaves(before, t, after[..k] + after[k + 1..])
  }

  /** rest is the list without t, in the same order. */
  ghost predicate Leaves(list: seq<nat>, t: nat, rest: seq<nat>) {
    if t in list then exists p: nat {:trigger list[p]} :: p < |list| && list[p] == t && rest == list[..p] + list[p + 1..] else rest == list
  }

  lemma CutBehind(list: seq<nat>, p: nat)
    requires p + 1 < |list|
    ensures [list[0]] + (list[1..][..p] + list[1..][p + 1..]) == list[..p + 1] + list[p + 2..] && list[1..][p] == list[p + 1]
  {
  }

  /** The list without the first t. */
  lemma {:induction false} UnlinkedFirst(list: seq<nat>, t: nat) returns (p: nat)
    ensures p <= |list| && (p < |list| ==> list[p] == t && Unlinked(list, t) == list[..p] + list[p + 1..])
    ensures p == |list| ==> Unlinked(list, t) == list && t !in list
  {
    p := 0;
    if list != [] {
      if list[0] == t {
        assert list[..0] + list[1..] == list[1..];
      } else {
        var q := UnlinkedFirst(list[1..], t);
        p := q + 1;
        if p < |list| { CutBehind(list, q); } else { WholeAgain(list, t); }
      }
    }
  }

  lemma WholeAgain(list: seq<nat>, t: nat)
    requires list != [] && list[0] != t && t !in list[1..]
    ensures [list[0]] + list[1..] == list && t !in list
  {
    assert list == [list[0]] + list[1..];
  }

  lemma UnlinkedLeaves(list: seq<nat>, t: nat)
    ensures Leaves(list, t, Unlinked(list, t))
  {
    var p := UnlinkedFirst(list, t);
    if p < |list| { assert list[p] in list; }
  }

  lemma CutRemoved(list: seq<nat>, p: nat, rest: seq<nat>)
    requires p < |list| && rest == list[..p] + list[p + 1..]
    ensures NodeList.Removed(list, p, rest)
  {
  }

  lemma RemovedOrder(ranks: Ranks, list: seq<nat>, p: nat, rest: seq<nat>)
    requires InOrder(ranks, list) && NodeList.Removed(list, p, rest)
    ensures InOrder(ranks, rest)
  {
    forall i, j {:trigger rest[i], rest[j]} | 0 <= i < j < |rest|
      ensures Rank(ranks.priorities, ranks.counters, rest[i]) >= Rank(ranks.priorities, ranks.counters, rest[j])
    {
      assert rest[i] == list[if i < p then i else i + 1] && rest[j] == list[if j < p then j else j + 1];
    }
  }

  lemma LeavesOrder(ranks: Ranks, list: seq<nat>, t: nat, rest: seq<nat>)
    requires InOrder(ranks, list) && Leaves(list, t, rest)
    ensures InOrder(ranks, rest)
  {
    if t in list {
      var p: nat :| p < |list| && list[p] == t && rest == list[..p] + list[p + 1..];
      CutRemoved(list, p, rest);
      RemovedOrder(ranks, list, p, rest);
    }
  }

  /** A restarted thread goes to its place, and the ready list stays in order. */
  lemma RestartOrder(ranks: Ranks, s: Lists, t: nat) returns (k: nat)
    requires InOrder(ranks, s.ready)
    ensures InOrder(ranks, Restart(ranks, s, t).ready) && MovedTo(ranks, s.ready, t, Restart(ranks, s, t).ready, k)
  {
    var rest := Unlinked(s.ready, t);
    UnlinkedLeaves(s.ready, t);
    LeavesOrder(ranks, s.ready, t, rest);
    InsertedSorted(ranks.priorities, ranks.counters, rest, t);
    k := PlaceFor(ranks.priorities, ranks.counters, rest, Rank(ranks.priorities, ranks.counters, t));
    InsertedPoint(ranks.priorities, ranks.counters, rest, t);
    RestAround(rest, k, t, Restart(ranks, s, t).ready);
    RanksAround(ranks, rest, k, t, Restart(ranks, s, t).ready);
  }

  lemma RestAround(rest: seq<nat>, k: nat, t: nat, after: seq<nat>)
    requires InsertedAt(rest, k, t, after)
    ensures k < |after| && after[k] == t && after[..k] + after[k + 1..] == rest
  {
  }

  lemma RanksAround(ranks: Ranks, rest: seq<nat>, k: nat, t: nat, after: seq<nat>)
    requires InsertedAt(rest, k, t, after)
    requires forall i :: 0 <= i < |rest| ==> (Rank(ranks.priorities, ranks.counters, rest[i]) >= Rank(ranks.priorities, ranks.counters, t) <==> i < k)
    ensures forall i :: 0 <= i < k ==> Rank(ranks.priorities, ranks.counters, after[i]) >= Rank(ranks.priorities, ranks.counters, t)
    ensures forall i :: k < i < |after| ==> Rank(ranks.priorities, ranks.counters, after[i]) < Rank(ranks.priorities, ranks.counters, t)
  {
    forall i | 0 <= i < |after| && i != k
      ensures Rank(ranks.priorities, ranks.counters, after[i]) >= Rank(ranks.priorities, ranks.counters, t) <==> i < k
    {
      assert after[i] == rest[if i < k then i else i - 1];
    }
  }

  lemma {:induction false} TakenBackOrder(ranks: Ranks, s: Lists, requests: seq<nat>)
    requires InOrder(ranks, s.ready)
    ensures InOrder(ranks, TakenBack(ranks, s, requests).ready)
    decreases |requests|
  {
    if requests != [] && requests[0] < |s.counts| {
      var w := requests[0];
      var s1 := s.(counts := s.counts[w := s.counts[w] - 1]);
      var k := RestartOrder(ranks, s1, w);
      TakenBackOrder(ranks, if s1.counts[w] == 0 then Restart(ranks, s1, w) else s1, requests[1..]);
    }
  }

  lemma {:induction false} WalkOrder(ranks: Ranks, s: Lists, p: Place)
    requires Sane(s) && (p.At? ==> Listed(s, p.t)) && InOrder(ranks, s.ready)
    ensures InOrder(ranks, Walk(ranks, s, p).ready)
    decreases Load(s.due), |Ahead(s, p)|
  {
    if p.At? {
      WalkStep(ranks, s, p);
      TakenBackOrder(ranks, s.(due := s.due[p.t := []]), s.due[p.t]);
      WalkOrder(ranks, Visit(ranks, s, p.t), Next(s, p));
    }
  }

  /** The pass keeps the ready list in order. */
  lemma CheckOrder(ranks: Ranks, s: Lists)
    requires Sane(s) && InOrder(ranks, s.ready)
    ensures InOrder(ranks, CheckAll(ranks, s).ready)
  {
    FirstListed(s);
    WalkSane(ranks, s, First(s.ready));
    WalkOrder(ranks, s, First(s.ready));
    var s1 := Walk(ranks, s, First(s.ready));
    FirstListed(s1);
    WalkOrder(ranks, s1, First(s1.waiting));
  }

  // Progress.

  /** Passing over threads without overdue requests. */
  lemma {:induction false} WalkNothing(ranks: Ranks, s: Lists, p: Place)
    requires Sane(s) && (p.At? ==> Listed(s, p.t))
    requires forall t {:trigger t in Ahead(s, p)} :: t in Ahead(s, p) && t < |s.due| ==> s.due[t] == []
    ensures Walk(ranks, s, p) == s
    decreases |Ahead(s, p)|
  {
    if p.At? {
      VisitNothing(ranks, s, p.t);
      NextAhead(s, p);
      assert p.t in Ahead(s, p);
      WalkNothing(ranks, s, Next(s, p));
    }
  }

  lemma {:induction false} WalkProgress(ranks: Ranks, s: Lists, p: Place, t: nat)
    requires Sane(s) && (p.At? ==> Listed(s, p.t))
    requires t in Ahead(s, p) && t < |s.due| && s.due[t] != []
    ensures Load(Walk(ranks, s, p).due) < Load(s.due)
    decreases |Ahead(s, p)|
  {
    VisitSane(ranks, s, p.t);
    VisitNothing(ranks, s, p.t);
    NextAhead(s, p);
    if p.t < |s.due| && s.due[p.t] != [] {
      WalkSane(ranks, Visit(ranks, s, p.t), Next(s, p));
    } else {
      assert t in Ahead(s, p)[1..];
      WalkProgress(ranks, s, Next(s, p), t);
    }
  }

  /** As long as a listed thread's locks have overdue requests, every pass takes some back; so they are all gone after
      at most as many passes. */
  lemma CheckProgress(ranks: Ranks, s: Lists, t: nat)
    requires Sane(s) && Listed(s, t) && s.due[t] != []
    ensures Load(CheckAll(ranks, s).due) < Load(s.due)
  {
    FirstListed(s);
    WalkSane(ranks, s, First(s.ready));
    var s1 := Walk(ranks, s, First(s.ready));
    FirstListed(s1);
    WalkSane(ranks, s1, First(s1.waiting));
    WholeAhead(s);
    if u: nat :| u in s.ready && u < |s.due| && s.due[u] != [] {
      WalkProgress(ranks, s, First(s.ready), u);
    } else {
      WalkNothing(ranks, s, First(s.ready));
      WholeAhead(s);
      WalkProgress(ranks, s, First(s.waiting), t);
    }
  }

  lemma WholeAhead(s: Lists)
    requires Sane(s)
    ensures Ahead(s, First(s.ready)) == s.ready && Ahead(s, First(s.waiting)) == s.waiting
  {
    if s.waiting != [] { assert s.waiting[0] in s.waiting; }
  }

  // Which threads one pass reaches.

  function Occ(requests: seq<nat>, w: nat): nat {
    if requests == [] then 0 else (if requests[0] == w then 1 else 0) + Occ(requests[1..], w)
  }

  function Order(s: Lists): seq<nat> {
    s.ready + s.waiting
  }

  /** The requests that thread w has left when the first n threads, in the order of the lists, have been visited. */
  function Left(s: Lists, n: nat, w: nat): int
    requires n <= |Order(s)|
    decreases n
  {
    if n == 0 then (if w < |s.counts| then s.counts[w] else 0)
    else Left(s, n - 1, w) - if Order(s)[n - 1] < |s.due| then Occ(s.due[Order(s)[n - 1]], w) else 0
  }

  /** What is overdue then. */
  function DueAfter(s: Lists, n: nat): (r: seq<seq<nat>>)
    requires n <= |Order(s)|
    ensures |r| == |s.due|
    decreases n
  {
    if n == 0 then s.due
    else
      var r := DueAfter(s, n - 1);
      if Order(s)[n - 1] < |r| then r[Order(s)[n - 1] := []] else r
  }

  /** Thread w has been restarted by then. */
  predicate Gone(s: Lists, n: nat, w: nat)
    requires n <= |Order(s)|
  {
    Left(s, 0, w) > 0 && Left(s, n, w) <= 0
  }

  /** No thread has fewer requests queued than are overdue. */
  ghost predicate Covered(s: Lists) {
    forall w: nat {:trigger Left(s, |Order(s)|, w)} :: Left(s, |Order(s)|, w) >= 0
  }

  /** No thread that is going to be restarted is in the ready list; nor is one restarted before its turn if there are
      overdue requests at its own locks. */
  ghost predicate Quiet(s: Lists) {
    forall n: nat, w: nat {:trigger Gone(s, n, w)} :: n <= |Order(s)| && Gone(s, n, w) ==>
      w !in s.ready && (w < |s.due| ==> DueAfter(s, n)[w] == [])
  }

  /** Visiting the i-th thread, a waiting one, restarts the k-th, which is where the walk would have gone next, although
      there is more to do behind it. */
  ghost predicate Overtaken(s: Lists, i: nat, k: nat, j: nat) {
    && |s.ready| <= i < k < j < |Order(s)|
    && !Gone(s, i, Order(s)[k]) && Gone(s, i + 1, Order(s)[k])
    && (forall m: nat {:trigger Order(s)[m]} :: i < m < k ==> Gone(s, i, Order(s)[m]))
    && Order(s)[j] < |s.due| && s.due[Order(s)[j]] != []
  }

  ghost predicate NoneOvertaken(s: Lists) {
    !exists i: nat, k: nat, j: nat {:trigger Overtaken(s, i, k, j)} :: Overtaken(s, i, k, j)
  }

  /** Nothing overdue is left at the locks of listed threads. */
  ghost predicate Done(s: Lists, s1: Lists) {
    forall t: nat {:trigger Listed(s, t)} :: Listed(s, t) && t < |s1.due| ==> s1.due[t] == []
  }

  lemma {:induction false} LeftFalls(s: Lists, n: nat, n': nat, w: nat)
    requires n <= n' <= |Order(s)|
    ensures Left(s, n', w) <= Left(s, n, w)
    decreases n' - n
  {
    if n < n' { LeftFalls(s, n, n' - 1, w); }
  }

  lemma GoneStays(s: Lists, n: nat, n': nat, w: nat)
    requires n <= n' <= |Order(s)|
    ensures Gone(s, n, w) ==> Gone(s, n', w)
  {
    LeftFalls(s, n, n', w);
  }

  // Lists without some of their threads.

  function Minus(list: seq<nat>, drop: set<nat>): (r: seq<nat>)
    ensures forall t {:trigger t in r} :: t in r <==> t in list && t !in drop
  {
    if list == [] then [] else (if list[0] in drop then [] else [list[0]]) + Minus(list[1..], drop)
  }

  lemma {:induction false} MinusSame(list: seq<nat>, a: set<nat>, b: set<nat>)
    requires forall t :: t in list ==> (t in a <==> t in b)
    ensures Minus(list, a) == Minus(list, b)
  {
    if list != [] { MinusSame(list[1..], a, b); }
  }

  lemma {:induction false} MinusNone(list: seq<nat>, drop: set<nat>)
    requires forall t :: t in list ==> t !in drop
    ensures Minus(list, drop) == list
  {
    if list != [] { MinusNone(list[1..], drop); }
  }

  lemma {:induction false} MinusAppend(a: seq<nat>, b: seq<nat>, drop: set<nat>)
    ensures Minus(a + b, drop) == Minus(a, drop) + Minus(b, drop)
  {
    if a == [] {
      assert a + b == b;
    } else {
      assert (a + b)[1..] == a[1..] + b;
      MinusAppend(a[1..], b, drop);
    }
  }

  lemma {:induction false} MinusTwice(list: seq<nat>, a: set<nat>, b: set<nat>)
    ensures Minus(Minus(list, a), b) == Minus(list, a + b)
  {
    if list != [] {
      MinusTwice(list[1..], a, b);
      var first := if list[0] in a then [] else [list[0]];
      MinusAppend(first, Minus(list[1..], a), b);
    }
  }

  lemma UniqueRest(list: seq<nat>)
    requires NodeList.Unique(list) && list != []
    ensures NodeList.Unique(list[1..]) && list[0] !in list[1..]
  {
    forall i, j {:trigger list[1..][i], list[1..][j]} | 0 <= i < j < |list| - 1 ensures list[1..][i] != list[1..][j] {
      assert list[1..][i] == list[i + 1] && list[1..][j] == list[j + 1];
    }
    forall i | 0 <= i < |list| - 1 ensures list[1..][i] != list[0] { assert list[1..][i] == list[i + 1]; }
  }

  lemma {:induction false} MinusOne(list: seq<nat>, t: nat)
    requires NodeList.Unique(list)
    ensures Minus(list, {t}) == Unlinked(list, t)
  {
    if list != [] {
      UniqueRest(list);
      if list[0] == t { MinusNone(list[1..], {t}); } else { MinusOne(list[1..], t); }
    }
  }

  /** A thread put into a list does not matter to what is left of it without that thread. */
  lemma {:induction false} MinusInserted(a: seq<nat>, b: seq<nat>, t: nat, p: nat, drop: set<nat>)
    requires t in drop && t !in a + b && p in a + b
    ensures Minus(Suffix(a + ([t] + b), p), drop) == Minus(Suffix(a + b, p), drop)
    decreases |a|
  {
    if a == [] {
      NothingBefore(b);
      NothingBefore([t] + b);
      SuffixSkips(t, b, p);
    } else {
      RestOfSum(a, [t] + b);
      RestOfSum(a, b);
      if a[0] == p {
        MinusAppend(a, [t] + b, drop);
        MinusAppend([t], b, drop);
        MinusAppend(a, b, drop);
      } else {
        MinusInserted(a[1..], b, t, p, drop);
      }
    }
  }

  lemma NothingBefore(b: seq<nat>)
    ensures [] + b == b
  {
  }

  lemma InsertedParts(list: seq<nat>, k: nat, t: nat)
    requires k <= |list|
    ensures list[..k] + [t] + list[k..] == list[..k] + ([t] + list[k..]) && list == list[..k] + list[k..]
  {
  }

  // What a visit does.

  lemma {:induction false} OccMember(requests: seq<nat>, w: nat)
    ensures w in requests <==> Occ(requests, w) > 0
  {
    if requests != [] { OccMember(requests[1..], w); }
  }

  /** The threads that taking back these requests restarts. */
  ghost function Restarted(counts: seq<int>, requests: seq<nat>): set<nat> {
    set w | w in requests && w < |counts| && counts[w] == Occ(requests, w)
  }

  ghost predicate Enough(counts: seq<int>, requests: seq<nat>) {
    && (forall i :: 0 <= i < |requests| ==> requests[i] < |counts|)
    && (forall w: nat {:trigger counts[w]} :: w < |counts| ==> counts[w] >= Occ(requests, w))
  }

  lemma RestartedStep(counts: seq<int>, requests: seq<nat>)
    requires Enough(counts, requests) && requests != []
    ensures var w := requests[0]; var counts1 := counts[w := counts[w] - 1];
      && Enough(counts1, requests[1..])
      && Restarted(counts, requests) == Restarted(counts1, requests[1..]) + (if counts1[w] == 0 then {w} else {})
  {
    var w, rest := requests[0], requests[1..];
    var counts1 := counts[w := counts[w] - 1];
    forall i | 0 <= i < |rest| ensures rest[i] < |counts1| { assert rest[i] == requests[i + 1]; }
    forall x: nat ensures x in Restarted(counts, requests) <==> x in Restarted(counts1, rest) + (if counts1[w] == 0 then {w} else {}) {
      OccMember(requests, x);
      OccMember(rest, x);
    }
  }

  lemma {:induction false} TakenBackCounts(ranks: Ranks, s: Lists, requests: seq<nat>)
    requires Enough(s.counts, requests)
    ensures forall w: nat {:trigger TakenBack(ranks, s, requests).counts[w]} :: w < |s.counts| ==>
      TakenBack(ranks, s, requests).counts[w] == s.counts[w] - Occ(requests, w)
    decreases |requests|
  {
    if requests != [] {
      var w := requests[0];
      var s1 := s.(counts := s.counts[w := s.counts[w] - 1]);
      RestartedStep(s.counts, requests);
      TakenBackCounts(ranks, if s1.counts[w] == 0 then Restart(ranks, s1, w) else s1, requests[1..]);
    }
  }

  lemma {:induction false} TakenBackLists(ranks: Ranks, s: Lists, requests: seq<nat>)
    requires Sane(s) && Enough(s.counts, requests)
    ensures TakenBack(ranks, s, requests).waiting == Minus(s.waiting, Restarted(s.counts, requests))
    ensures forall t {:trigger t in TakenBack(ranks, s, requests).ready} ::
      t in TakenBack(ranks, s, requests).ready <==> t in s.ready || t in Restarted(s.counts, requests)
    decreases |requests|
  {
    if requests == [] {
      MinusNone(s.waiting, Restarted(s.counts, requests));
    } else {
      var w, rest := requests[0], requests[1..];
      var s1 := s.(counts := s.counts[w := s.counts[w] - 1]);
      RestartedStep(s.counts, requests);
      if s1.counts[w] == 0 {
        RestartSane(ranks, s1, w);
        TakenBackLists(ranks, Restart(ranks, s1, w), rest);
        MinusOne(s.waiting, w);
        MinusTwice(s.waiting, {w}, Restarted(s1.counts, rest));
        assert {w} + Restarted(s1.counts, rest) == Restarted(s.counts, requests);
      } else {
        assert Sane(s1);
        TakenBackLists(ranks, s1, rest);
        assert Restarted(s1.counts, rest) == Restarted(s.counts, requests);
      }
    }
  }

  /** The order of the other threads in the ready list stays. */
  lemma {:induction false} TakenBackReady(ranks: Ranks, s: Lists, requests: seq<nat>, p: nat, drop: set<nat>)
    requires Sane(s) && Enough(s.counts, requests) && p in s.ready
    requires Restarted(s.counts, requests) <= drop && forall t :: t in Restarted(s.counts, requests) ==> t !in s.ready
    ensures p in TakenBack(ranks, s, requests).ready
    ensures Minus(Suffix(TakenBack(ranks, s, requests).ready, p), drop) == Minus(Suffix(s.ready, p), drop)
    decreases |requests|
  {
    if requests != [] {
      var w, rest := requests[0], requests[1..];
      var s1 := s.(counts := s.counts[w := s.counts[w] - 1]);
      var s2 := if s1.counts[w] == 0 then Restart(ranks, s1, w) else s1;
      RestartedStep(s.counts, requests);
      RestartSane(ranks, s1, w);
      if s1.counts[w] == 0 {
        UnlinkedElements(s.ready, w);
        var k := PlaceFor(ranks.priorities, ranks.counters, s.ready, Rank(ranks.priorities, ranks.counters, w));
        InsertedParts(s.ready, k, w);
        MinusInserted(s.ready[..k], s.ready[k..], w, p, drop);
        OccMember(rest, w);
      }
      TakenBackReady(ranks, s2, rest, p, drop);
    }
  }

  // The state after some visits.

  ghost function GoneSet(s: Lists, n: nat): set<nat>
    requires n <= |Order(s)|
  {
    set w | w in Below(|s.counts|) && Gone(s, n, w)
  }

  ghost function Below(n: nat): (r: set<nat>)
    ensures forall w: nat :: w in r <==> w < n
  {
    if n == 0 then {} else Below(n - 1) + {n - 1}
  }

  /** The lists when the first n threads have been visited. */
  ghost predicate Visited(s: Lists, n: nat, s1: Lists) {
    && n <= |Order(s)| && Sane(s) && Sane(s1)
    && s1.due == DueAfter(s, n)
    && (forall w: nat {:trigger s1.counts[w]} :: w < |s.counts| ==> s1.counts[w] == Left(s, n, w))
    && s1.waiting == Minus(s.waiting, GoneSet(s, n))
    && (forall t {:trigger t in s1.ready} :: t in s1.ready <==> t in s.ready || t in GoneSet(s, n))
  }

  lemma OrderSane(s: Lists)
    requires Sane(s)
    ensures NodeList.Unique(Order(s)) && forall t {:trigger t in Order(s)} :: t in Order(s) ==> t < |s.due|
  {
    var r := Order(s);
    forall i, j {:trigger r[i], r[j]} | 0 <= i < j < |r| ensures r[i] != r[j] {
      if j >= |s.ready| {
        assert r[j] == s.waiting[j - |s.ready|];
        if i < |s.ready| { assert r[i] in s.ready; } else { assert r[i] == s.waiting[i - |s.ready|]; }
      }
    }
  }

  /** What is overdue at the locks of the m-th thread, before its turn and after it. */
  lemma {:induction false} DueOfPlace(s: Lists, n: nat, m: nat)
    requires Sane(s) && n <= |Order(s)| && m < |Order(s)|
    ensures Order(s)[m] < |s.due| && DueAfter(s, n)[Order(s)[m]] == if m < n then [] else s.due[Order(s)[m]]
    decreases n
  {
    OrderSane(s);
    assert Order(s)[m] in Order(s);
    if n > 0 { DueOfPlace(s, n - 1, m); }
  }

  lemma {:induction false} DueFalls(s: Lists, n: nat, n': nat, w: nat)
    requires n <= n' <= |Order(s)| && w < |s.due| && DueAfter(s, n)[w] == []
    ensures DueAfter(s, n')[w] == []
    decreases n' - n
  {
    if n < n' { DueFalls(s, n, n' - 1, w); }
  }

  lemma VisitedStart(s: Lists)
    requires Sane(s)
    ensures Visited(s, 0, s)
  {
    MinusNone(s.waiting, GoneSet(s, 0));
  }

  /** The next visit: who is restarted by it. */
  lemma VisitRestarts(s: Lists, n: nat, s1: Lists)
    requires Visited(s, n, s1) && Covered(s) && n < |Order(s)|
    ensures var t := Order(s)[n];
      && t < |s.due| && s1.due[t] == s.due[t] && Enough(s1.counts, s.due[t])
      && GoneSet(s, n + 1) == GoneSet(s, n) + Restarted(s1.counts, s.due[t])
      && Restarted(s1.counts, s.due[t]) !! GoneSet(s, n)
  {
    var t := Order(s)[n];
    DueOfPlace(s, n, n);
    forall i | 0 <= i < |s.due[t]| ensures s.due[t][i] < |s1.counts| {}
    forall w: nat {:trigger s1.counts[w]} | w < |s1.counts| ensures s1.counts[w] >= Occ(s.due[t], w) {
      LeftFalls(s, n + 1, |Order(s)|, w);
    }
    forall w: nat ensures w in GoneSet(s, n + 1) <==> w in GoneSet(s, n) + Restarted(s1.counts, s.due[t]) {
      OccMember(s.due[t], w);
      if w < |s.counts| {
        LeftFalls(s, n + 1, |Order(s)|, w);
        LeftFalls(s, 0, n, w);
        assert s1.counts[w] == Left(s, n, w);
      }
    }
    forall w | w in Restarted(s1.counts, s.due[t]) ensures w !in GoneSet(s, n) {
      OccMember(s.due[t], w);
      assert s1.counts[w] == Left(s, n, w);
    }
  }

  lemma VisitedNext(ranks: Ranks, s: Lists, n: nat, s1: Lists)
    requires Visited(s, n, s1) && Covered(s) && n < |Order(s)|
    ensures Visited(s, n + 1, Visit(ranks, s1, Order(s)[n]))
  {
    var t := Order(s)[n];
    VisitRestarts(s, n, s1);
    VisitSane(ranks, s1, t);
    VisitedLists(ranks, s, n, s1);
    VisitedCounts(ranks, s, n, s1, t);
  }

  lemma VisitedCounts(ranks: Ranks, s: Lists, n: nat, s1: Lists, t: nat)
    requires n < |Order(s)| && t == Order(s)[n] && t < |s1.due| == |s.due| && s1.due[t] == s.due[t] && Enough(s1.counts, s.due[t])
    requires forall w: nat {:trigger s1.counts[w]} :: w < |s.counts| == |s1.counts| ==> s1.counts[w] == Left(s, n, w)
    ensures forall w: nat {:trigger Visit(ranks, s1, t).counts[w]} :: w < |s.counts| == |s1.counts| ==> Visit(ranks, s1, t).counts[w] == Left(s, n + 1, w)
  {
    TakenBackCounts(ranks, s1.(due := s1.due[t := []]), s.due[t]);
  }

  lemma VisitedLists(ranks: Ranks, s: Lists, n: nat, s1: Lists)
    requires Visited(s, n, s1) && Covered(s) && n < |Order(s)|
    ensures var s2 := Visit(ranks, s1, Order(s)[n]);
      && s2.waiting == Minus(s.waiting, GoneSet(s, n + 1))
      && (forall t {:trigger t in s2.ready} :: t in s2.ready <==> t in s.ready || t in GoneSet(s, n + 1))
  {
    var t := Order(s)[n];
    VisitRestarts(s, n, s1);
    var s2 := s1.(due := s1.due[t := []]);
    assert Sane(s2);
    TakenBackLists(ranks, s2, s.due[t]);
    MinusTwice(s.waiting, GoneSet(s, n), Restarted(s1.counts, s.due[t]));
  }

  /** A thread without overdue requests makes no difference. */
  lemma VisitedSkip(s: Lists, n: nat, s1: Lists)
    requires Visited(s, n, s1) && n < |Order(s)| && (Order(s)[n] < |s1.due| ==> s1.due[Order(s)[n]] == [])
    ensures Visited(s, n + 1, s1)
  {
    DueOfPlace(s, n, n);
    assert DueAfter(s, n + 1) == DueAfter(s, n);
    forall w ensures Left(s, n + 1, w) == Left(s, n, w) {}
    assert GoneSet(s, n + 1) == GoneSet(s, n);
  }

  ghost function AllGone(s: Lists): set<nat> {
    GoneSet(s, |Order(s)|)
  }

  lemma GoneGrows(s: Lists, n: nat, n': nat)
    requires n <= n' <= |Order(s)|
    ensures GoneSet(s, n) <= GoneSet(s, n')
  {
    forall w | w in GoneSet(s, n) ensures w in GoneSet(s, n') { GoneStays(s, n, n', w); }
  }

  lemma QuietGone(s: Lists, n: nat, w: nat)
    requires Quiet(s) && Sane(s) && n <= |Order(s)| && w in GoneSet(s, n)
    ensures w !in s.ready && w < |s.due| && DueAfter(s, n)[w] == []
  {
  }

  lemma QuietReady(s: Lists)
    requires Quiet(s) && Sane(s)
    ensures forall t :: t in s.ready ==> t !in AllGone(s)
  {
    forall t | t in AllGone(s) ensures t !in s.ready { QuietGone(s, |Order(s)|, t); }
  }

  /** The walk over the ready list: all that were ready are visited in their order. */
  lemma {:induction false} ReadyWalk(ranks: Ranks, s: Lists, n: nat, s1: Lists, p: Place)
    requires Visited(s, n, s1) && n <= |s.ready| && Covered(s) && Quiet(s)
    requires p.At? ==> p.t in s1.ready
    requires Minus(if p.End? then [] else Suffix(s1.ready, p.t), AllGone(s)) == s.ready[n..]
    ensures Visited(s, |s.ready|, Walk(ranks, s1, p))
    decreases Load(s1.due), |Ahead(s1, p)|
  {
    if p.At? {
      var s2, next := Visit(ranks, s1, p.t), Next(s1, p);
      assert Load(s2.due) <= Load(s1.due) && (Load(s2.due) == Load(s1.due) ==> |Ahead(s2, next)| < |Ahead(s1, p)|) by { WalkStep(ranks, s1, p); }
      var n' := ReadyStep(ranks, s, n, s1, p.t);
      ReadyWalk(ranks, s, n', s2, next);
      assert Walk(ranks, s1, p) == Walk(ranks, s2, next) by { WalkStep(ranks, s1, p); }
    }
  }

  /** A thread that has been restarted is passed by; any other one is the next that was ready before. */
  lemma ReadyStep(ranks: Ranks, s: Lists, n: nat, s1: Lists, t: nat) returns (n': nat)
    requires Visited(s, n, s1) && n <= |s.ready| && Covered(s) && Quiet(s) && t in s1.ready
    requires Minus(Suffix(s1.ready, t), AllGone(s)) == s.ready[n..]
    ensures n' <= |s.ready| && Visited(s, n', Visit(ranks, s1, t))
    ensures var next := Next(s1, At(t));
      && (next.At? ==> next.t in Visit(ranks, s1, t).ready)
      && Minus(if next.End? then [] else Suffix(Visit(ranks, s1, t).ready, next.t), AllGone(s)) == s.ready[n'..]
  {
    if t in AllGone(s) {
      ReadySkip(s, n, s1, t);
      VisitNothing(ranks, s1, t);
      n' := n;
    } else {
      ReadyVisit(ranks, s, n, s1, t);
      n' := n + 1;
    }
  }

  lemma ReadySkip(s: Lists, n: nat, s1: Lists, t: nat)
    requires Visited(s, n, s1) && Quiet(s) && t in s1.ready && t in AllGone(s)
    ensures t < |s1.due| && s1.due[t] == []
    ensures var next := Next(s1, At(t));
      && (next.At? ==> next.t in s1.ready)
      && Minus(if next.End? then [] else Suffix(s1.ready, next.t), AllGone(s)) == Minus(Suffix(s1.ready, t), AllGone(s))
  {
    QuietGone(s, |Order(s)|, t);
    QuietGone(s, n, t);
    SuffixNext(s1.ready, t);
    var r := Suffix(s1.ready, t);
    if r[1..] != [] { assert r[1] in r; }
  }

  lemma ReadyVisit(ranks: Ranks, s: Lists, n: nat, s1: Lists, t: nat)
    requires Visited(s, n, s1) && n <= |s.ready| && Covered(s) && Quiet(s) && t in s1.ready && t !in AllGone(s)
    requires Minus(Suffix(s1.ready, t), AllGone(s)) == s.ready[n..]
    ensures n < |s.ready| && Visited(s, n + 1, Visit(ranks, s1, t))
    ensures var next := Next(s1, At(t));
      && (next.At? ==> next.t in Visit(ranks, s1, t).ready)
      && Minus(if next.End? then [] else Suffix(Visit(ranks, s1, t).ready, next.t), AllGone(s)) == s.ready[n + 1..]
  {
    ReadyPlace(s.ready, n, s1.ready, t, AllGone(s));
    assert Order(s)[n] == t;
    VisitedNext(ranks, s, n, s1);
    SuffixNext(s1.ready, t);
    var r := Suffix(s1.ready, t);
    if r[1..] != [] {
      assert r[1] in r;
      ReadyKept(ranks, s, n, s1, t, r[1]);
    }
  }

  lemma ReadyPlace(list: seq<nat>, n: nat, now: seq<nat>, t: nat, drop: set<nat>)
    requires n <= |list| && t in now && t !in drop && Minus(Suffix(now, t), drop) == list[n..]
    ensures n < |list| && list[n] == t && Minus(Suffix(now, t)[1..], drop) == list[n + 1..]
  {
    var r := Suffix(now, t);
    assert Minus(r, drop) == [t] + Minus(r[1..], drop);
    assert list[n..][0] == list[n] && list[n..][1..] == list[n + 1..];
  }

  lemma ReadyKept(ranks: Ranks, s: Lists, n: nat, s1: Lists, t: nat, next: nat)
    requires Visited(s, n, s1) && n < |s.ready| && s.ready[n] == t && Covered(s) && Quiet(s) && next in s1.ready
    ensures next in Visit(ranks, s1, t).ready
    ensures Minus(Suffix(Visit(ranks, s1, t).ready, next), AllGone(s)) == Minus(Suffix(s1.ready, next), AllGone(s))
  {
    assert Order(s)[n] == t;
    VisitRestarts(s, n, s1);
    GoneGrows(s, n + 1, |Order(s)|);
    forall w | w in Restarted(s1.counts, s.due[t]) ensures w !in s1.ready { QuietGone(s, n + 1, w); }
    var s2 := s1.(due := s1.due[t := []]);
    assert Sane(s2);
    TakenBackReady(ranks, s2, s.due[t], next, AllGone(s));
  }

  // The walk over the waiting list.

  ghost predicate OvertakenFrom(s: Lists, n: nat) {
    exists i: nat, k: nat, j: nat {:trigger Overtaken(s, i, k, j)} :: n <= i && Overtaken(s, i, k, j)
  }

  lemma SuffixSkips(first: nat, rest: seq<nat>, p: nat)
    requires first != p
    ensures Suffix([first] + rest, p) == Suffix(rest, p)
    ensures [] + rest == rest
  {
    assert ([first] + rest)[1..] == rest;
  }

  lemma {:induction false} SuffixMinus(list: seq<nat>, drop: set<nat>, i: nat)
    requires NodeList.Unique(list) && i < |list| && list[i] !in drop
    ensures Suffix(Minus(list, drop), list[i]) == Minus(list[i..], drop)
  {
    if i > 0 {
      UniqueRest(list);
      assert list[1..][i - 1] == list[i] && list[1..][i - 1..] == list[i..];
      SuffixMinus(list[1..], drop, i - 1);
      SuffixSkips(list[0], Minus(list[1..], drop), list[i]);
    }
  }

  /** The first thread of a list that is not dropped. */
  lemma {:induction false} FirstKept(list: seq<nat>, drop: set<nat>) returns (k: nat)
    ensures k <= |list| && (forall i :: 0 <= i < k ==> list[i] in drop)
    ensures k < |list| ==> list[k] !in drop && Minus(list, drop) == [list[k]] + Minus(list[k + 1..], drop)
    ensures k == |list| ==> Minus(list, drop) == []
  {
    if list == [] || list[0] !in drop {
      k := 0;
    } else {
      var k1 := FirstKept(list[1..], drop);
      NothingBefore(Minus(list[1..], drop));
      k := k1 + 1;
      forall i | 0 <= i < k ensures list[i] in drop { if i > 0 { RestAt(list, i); } }
      RestAt(list, k);
      if k < |list| { RestAt(list, k + 1); }
    }
  }

  /** Threads that have been restarted are passed by. */
  lemma {:induction false} SkipTo(s: Lists, n: nat, s1: Lists, k: nat)
    requires Visited(s, n, s1) && |s.ready| <= n <= k <= |Order(s)| && Quiet(s)
    requires forall i :: n <= i < k ==> Order(s)[i] in GoneSet(s, n)
    ensures Visited(s, k, s1) && GoneSet(s, k) == GoneSet(s, n)
    ensures OvertakenFrom(s, n) <==> OvertakenFrom(s, k)
    decreases k - n
  {
    if n < k {
      QuietGone(s, n, Order(s)[n]);
      DueOfPlace(s, n, n);
      VisitedSkip(s, n, s1);
      forall w ensures Left(s, n + 1, w) == Left(s, n, w) {}
      assert GoneSet(s, n + 1) == GoneSet(s, n);
      SkipTo(s, n + 1, s1, k);
    }
  }

  /** At the end of the walk: what is left has all been restarted. */
  lemma WaitEnds(s: Lists, n: nat, s1: Lists)
    requires Visited(s, n, s1) && |s.ready| <= n && Quiet(s)
    requires forall i :: n <= i < |Order(s)| ==> Order(s)[i] in GoneSet(s, n)
    ensures Done(s, s1) && !OvertakenFrom(s, n)
  {
    OrderSane(s);
    forall t: nat {:trigger Listed(s, t)} | Listed(s, t) && t < |s1.due| ensures s1.due[t] == [] {
      var m := PlaceIn(s, t);
      DueOfPlace(s, n, m);
      if m >= n { QuietGone(s, n, t); }
    }
    forall i: nat, k: nat, j: nat {:trigger Overtaken(s, i, k, j)} | n <= i && Overtaken(s, i, k, j) ensures false {
      assert Order(s)[k] in GoneSet(s, n);
      GoneStays(s, n, i, Order(s)[k]);
    }
  }

  lemma PlaceIn(s: Lists, t: nat) returns (m: nat)
    requires Listed(s, t)
    ensures m < |Order(s)| && Order(s)[m] == t
  {
    if t in s.ready {
      m :| 0 <= m < |s.ready| && s.ready[m] == t;
    } else {
      var i :| 0 <= i < |s.waiting| && s.waiting[i] == t;
      m := |s.ready| + i;
    }
  }

  /** The walk has followed a thread into the ready list, where nothing is left to do. */
  lemma JumpEnds(ranks: Ranks, s: Lists, n: nat, s2: Lists, y: nat)
    requires Visited(s, n, s2) && |s.ready| <= n && Quiet(s) && y in s2.ready
    ensures Walk(ranks, s2, At(y)) == s2
  {
    forall t {:trigger t in Ahead(s2, At(y))} | t in Ahead(s2, At(y)) && t < |s2.due| ensures s2.due[t] == [] {
      if t in s.ready {
        var m :| 0 <= m < |s.ready| && s.ready[m] == t;
        DueOfPlace(s, n, m);
      } else {
        QuietGone(s, n, t);
      }
    }
    WalkNothing(ranks, s2, At(y));
  }

  /** Nothing is left at the locks of a thread that has been restarted. */
  lemma GoneDue(s: Lists, n: nat, n': nat, s2: Lists, w: nat)
    requires Visited(s, n', s2) && n <= n' && Quiet(s)
    ensures w in GoneSet(s, n) ==> w < |s2.due| && s2.due[w] == []
  {
    if w in GoneSet(s, n) { DueFalls(s, n, n', w); }
  }

  /** The threads whose overdue requests are left. */
  lemma LeftOver(s: Lists, n: nat, k: nat, s2: Lists) returns (j: nat)
    requires Visited(s, n + 1, s2) && |s.ready| <= n < k < |Order(s)| && Quiet(s) && !Done(s, s2)
    requires forall i :: n < i < k ==> Order(s)[i] in GoneSet(s, n)
    requires Order(s)[k] in GoneSet(s, n + 1)
    ensures k < j < |Order(s)| && Order(s)[j] < |s.due| && s.due[Order(s)[j]] != []
  {
    var t: nat :| Listed(s, t) && t < |s2.due| && s2.due[t] != [];
    j := PlaceIn(s, t);
    DueOfPlace(s, n + 1, j);
    GoneDue(s, n, n + 1, s2, t);
    GoneDue(s, n + 1, n + 1, s2, t);
  }

  lemma NotReached(s: Lists, n: nat, s2: Lists, j: nat)
    requires Visited(s, n, s2) && n <= j < |Order(s)| && Order(s)[j] < |s.due| && s.due[Order(s)[j]] != []
    ensures !Done(s, s2)
  {
    var t := Order(s)[j];
    DueOfPlace(s, n, j);
    assert Listed(s, t) by { assert t in Order(s); }
  }

  lemma LeftBehind(s: Lists, n: nat, k: nat, s2: Lists)
    requires Visited(s, n + 1, s2) && |s.ready| <= n < k < |Order(s)| && Quiet(s)
    requires forall i :: n < i < k ==> Order(s)[i] in GoneSet(s, n)
    requires Order(s)[k] !in GoneSet(s, n) && Order(s)[k] in GoneSet(s, n + 1)
    ensures !Done(s, s2) ==> OvertakenFrom(s, n)
  {
    if !Done(s, s2) {
      var j := LeftOver(s, n, k, s2);
      assert Overtaken(s, n, k, j);
    }
  }

  lemma OvertakenLeft(s: Lists, n: nat, s2: Lists)
    requires Visited(s, n + 1, s2)
    ensures OvertakenFrom(s, n) ==> !Done(s, s2)
  {
    if i: nat, k: nat, j: nat {:trigger Overtaken(s, i, k, j)} :| n <= i && Overtaken(s, i, k, j) {
      Behind(s, i, k, j);
      NotReached(s, n + 1, s2, j);
    }
  }

  lemma Behind(s: Lists, i: nat, k: nat, j: nat)
    requires Overtaken(s, i, k, j)
    ensures i < k < j < |Order(s)| && Order(s)[j] < |s.due| && s.due[Order(s)[j]] != []
  {
  }

  lemma GoneIs(s: Lists, n: nat, w: nat)
    requires n < |Order(s)| && w < |s.counts| && w !in GoneSet(s, n) && w !in GoneSet(s, n + 1)
    ensures !Gone(s, n, w) && !Gone(s, n + 1, w)
  {
  }

  /** Only the first thread that has not been restarted can be overtaken. */
  lemma FirstOvertaken(s: Lists, n: nat, m: nat)
    requires |s.ready| <= n < m <= |Order(s)|
    requires forall i :: n < i < m ==> Order(s)[i] in GoneSet(s, n)
    requires m < |Order(s)| ==> Order(s)[m] !in GoneSet(s, n) && Order(s)[m] !in GoneSet(s, n + 1) && Order(s)[m] < |s.counts|
    ensures OvertakenFrom(s, n) <==> OvertakenFrom(s, n + 1)
  {
    forall i: nat, k: nat, j: nat {:trigger Overtaken(s, i, k, j)} | n <= i && Overtaken(s, i, k, j) ensures n < i {
      if i == n && m < |Order(s)| { GoneIs(s, n, Order(s)[m]); }
    }
  }

  lemma WaitingAt(s: Lists, n: nat, i: nat)
    requires |s.ready| <= n <= i < |Order(s)|
    ensures s.waiting[n - |s.ready|..][i - n] == Order(s)[i]
    ensures s.waiting[n - |s.ready|..][i - n + 1..] == s.waiting[i + 1 - |s.ready|..]
  {
  }

  /** The first thread, from the n-th place on, that is not in gone. */
  lemma FirstWaiting(s: Lists, n: nat, gone: set<nat>) returns (k: nat)
    requires |s.ready| <= n <= |Order(s)|
    ensures n <= k <= |Order(s)| && forall i :: n <= i < k ==> Order(s)[i] in gone
    ensures k < |Order(s)| ==> Order(s)[k] !in gone
    ensures First(Minus(s.waiting[n - |s.ready|..], gone)) == if k < |Order(s)| then At(Order(s)[k]) else End
    ensures Minus(s.waiting[n - |s.ready|..], gone) == if k < |Order(s)| then [Order(s)[k]] + Minus(s.waiting[k + 1 - |s.ready|..], gone) else []
  {
    var rest := s.waiting[n - |s.ready|..];
    var k0 := FirstKept(rest, gone);
    k := n + k0;
    forall i | n <= i < k ensures Order(s)[i] in gone { WaitingAt(s, n, i); }
    if k < |Order(s)| { WaitingAt(s, n, k); }
  }

  /** The waiting thread after the k-th one. */
  lemma WaitNext(s: Lists, k: nat) returns (m: nat)
    requires Sane(s) && |s.ready| <= k < |Order(s)|
    ensures k < m <= |Order(s)| && forall i :: k < i < m ==> Order(s)[i] in GoneSet(s, k)
    ensures m < |Order(s)| ==> Order(s)[m] !in GoneSet(s, k) && Order(s)[m] < |s.counts|
    ensures First(Minus(s.waiting[k + 1 - |s.ready|..], GoneSet(s, k))) == if m < |Order(s)| then At(Order(s)[m]) else End
    ensures Minus(s.waiting[k + 1 - |s.ready|..], GoneSet(s, k)) == if m < |Order(s)| then [Order(s)[m]] + Minus(s.waiting[m + 1 - |s.ready|..], GoneSet(s, k)) else []
  {
    m := FirstWaiting(s, k + 1, GoneSet(s, k));
    OrderBelow(s, m);
  }

  lemma OrderBelow(s: Lists, m: nat)
    requires Sane(s)
    ensures m < |Order(s)| ==> Order(s)[m] < |s.counts|
  {
    if m < |Order(s)| {
      OrderSane(s);
      assert Order(s)[m] in Order(s);
    }
  }

  lemma WaitSuffix(s: Lists, k: nat, s1: Lists)
    requires Visited(s, k, s1) && |s.ready| <= k < |Order(s)| && Order(s)[k] !in GoneSet(s, k)
    ensures Order(s)[k] in s1.waiting && Order(s)[k] !in s1.ready
    ensures Next(s1, At(Order(s)[k])) == First(Minus(s.waiting[k + 1 - |s.ready|..], GoneSet(s, k)))
  {
    var t := s.waiting[k - |s.ready|];
    assert t == Order(s)[k];
    RestMinus(s.waiting, GoneSet(s, k), k - |s.ready|);
    assert t in s1.waiting;
    NextWaiting(s1, t);
  }

  lemma NextWaiting(s: Lists, t: nat)
    requires t in s.waiting
    ensures t !in s.ready ==> Suffix(s.waiting, t) != [] && Next(s, At(t)) == First(Suffix(s.waiting, t)[1..])
  {
  }

  lemma RestMinus(list: seq<nat>, drop: set<nat>, i: nat)
    requires NodeList.Unique(list) && i < |list| && list[i] !in drop
    ensures Suffix(Minus(list, drop), list[i]) == [list[i]] + Minus(list[i + 1..], drop)
    ensures Suffix(Minus(list, drop), list[i])[1..] == Minus(list[i + 1..], drop)
  {
    SuffixMinus(list, drop, i);
    assert list[i..][1..] == list[i + 1..];
  }

  /** Where the walk goes on after a visit that has not restarted the next thread. */
  lemma StillFirst(list: seq<nat>, a: set<nat>, b: set<nat>, y: nat, more: seq<nat>)
    requires a <= b && Minus(list, a) == [y] + more && y !in b
    ensures First(Minus(list, b)) == At(y)
  {
    MinusTwice(list, a, b);
    assert a + b == b;
  }

  lemma StillNone(list: seq<nat>, a: set<nat>, b: set<nat>)
    requires a <= b && Minus(list, a) == []
    ensures Minus(list, b) == []
  {
    MinusTwice(list, a, b);
    assert a + b == b;
  }

  lemma StillNext(s: Lists, k: nat, m: nat)
    requires |s.ready| <= k < m <= |Order(s)|
    requires m < |Order(s)| ==> Order(s)[m] !in GoneSet(s, k + 1)
    requires Minus(s.waiting[k + 1 - |s.ready|..], GoneSet(s, k)) == if m < |Order(s)| then [Order(s)[m]] + Minus(s.waiting[m + 1 - |s.ready|..], GoneSet(s, k)) else []
    ensures First(Minus(s.waiting[k + 1 - |s.ready|..], GoneSet(s, k + 1))) == if m < |Order(s)| then At(Order(s)[m]) else End
  {
    var rest := s.waiting[k + 1 - |s.ready|..];
    GoneGrows(s, k, k + 1);
    if m < |Order(s)| {
      StillFirst(rest, GoneSet(s, k), GoneSet(s, k + 1), Order(s)[m], Minus(s.waiting[m + 1 - |s.ready|..], GoneSet(s, k)));
    } else {
      StillNone(rest, GoneSet(s, k), GoneSet(s, k + 1));
    }
  }

  /** The walk over the waiting list from its k-th thread on. */
  lemma {:induction false} WaitVisit(ranks: Ranks, s: Lists, k: nat, s1: Lists)
    requires Visited(s, k, s1) && |s.ready| <= k < |Order(s)| && Covered(s) && Quiet(s) && Order(s)[k] !in GoneSet(s, k)
    ensures Listed(s1, Order(s)[k])
    ensures Done(s, Walk(ranks, s1, At(Order(s)[k]))) == !OvertakenFrom(s, k)
    decreases |Order(s)| - k, 1
  {
    var t := Order(s)[k];
    var jump := WaitStep(ranks, s, k, s1);
    var s2, next := Visit(ranks, s1, t), Next(s1, At(t));
    if !jump { WaitWalk(ranks, s, k + 1, s2, next); }
    assert Walk(ranks, s1, At(t)) == Walk(ranks, s2, next) by { WalkStep(ranks, s1, At(t)); }
  }

  /** Either the walk is diverted into the ready list, or it goes on in the waiting list. */
  lemma WaitStep(ranks: Ranks, s: Lists, k: nat, s1: Lists) returns (jump: bool)
    requires Visited(s, k, s1) && |s.ready| <= k < |Order(s)| && Covered(s) && Quiet(s) && Order(s)[k] !in GoneSet(s, k)
    ensures Listed(s1, Order(s)[k])
    ensures var s2, next := Visit(ranks, s1, Order(s)[k]), Next(s1, At(Order(s)[k]));
      && Visited(s, k + 1, s2)
      && (jump ==> (next.At? ==> Listed(s2, next.t)) && (Done(s, Walk(ranks, s2, next)) <==> !OvertakenFrom(s, k)))
      && (!jump ==> next == First(Minus(s.waiting[k + 1 - |s.ready|..], GoneSet(s, k + 1))) && (OvertakenFrom(s, k) <==> OvertakenFrom(s, k + 1)))
  {
    WaitSuffix(s, k, s1);
    var m := WaitNext(s, k);
    VisitedNext(ranks, s, k, s1);
    jump := m < |Order(s)| && Order(s)[m] in GoneSet(s, k + 1);
    if jump {
      WaitJump(ranks, s, k, m, Visit(ranks, s1, Order(s)[k]));
    } else {
      StillNext(s, k, m);
      FirstOvertaken(s, k, m);
    }
  }

  lemma WaitJump(ranks: Ranks, s: Lists, k: nat, m: nat, s2: Lists)
    requires Visited(s, k + 1, s2) && |s.ready| <= k < m < |Order(s)| && Quiet(s)
    requires forall i :: k < i < m ==> Order(s)[i] in GoneSet(s, k)
    requires Order(s)[m] !in GoneSet(s, k) && Order(s)[m] in GoneSet(s, k + 1)
    ensures Listed(s2, Order(s)[m]) && (Done(s, Walk(ranks, s2, At(Order(s)[m]))) <==> !OvertakenFrom(s, k))
  {
    JumpEnds(ranks, s, k + 1, s2, Order(s)[m]);
    LeftBehind(s, k, m, s2);
    OvertakenLeft(s, k, s2);
  }

  /** The walk from the first thread of the list, from its n-th place on, that has not been restarted. */
  lemma {:induction false} WaitWalk(ranks: Ranks, s: Lists, n: nat, s1: Lists, p: Place)
    requires Visited(s, n, s1) && |s.ready| <= n && Covered(s) && Quiet(s) && p == First(Minus(s.waiting[n - |s.ready|..], GoneSet(s, n)))
    ensures (p.At? ==> Listed(s1, p.t)) && Done(s, Walk(ranks, s1, p)) == !OvertakenFrom(s, n)
    decreases |Order(s)| - n, 2
  {
    var k := FirstWaiting(s, n, GoneSet(s, n));
    if k == |Order(s)| {
      WaitEnds(s, n, s1);
    } else {
      SkipTo(s, n, s1, k);
      WaitVisit(ranks, s, k, s1);
    }
  }

  lemma WaitStart(ranks: Ranks, s: Lists, s1: Lists)
    requires Visited(s, |s.ready|, s1) && Covered(s) && Quiet(s)
    ensures var p := First(s1.waiting); (p.At? ==> Listed(s1, p.t)) && (Done(s, Walk(ranks, s1, p)) <==> !OvertakenFrom(s, |s.ready|))
  {
    assert s.waiting[0..] == s.waiting;
    WaitWalk(ranks, s, |s.ready|, s1, First(s1.waiting));
  }

  /** If the threads to be restarted have nothing to do with the walk themselves, one pass takes back everything that is
      overdue exactly if no visit restarts the thread that comes next in the waiting list while there is more to do
      behind it. */
  lemma CheckExact(ranks: Ranks, s: Lists)
    requires Sane(s) && Covered(s) && Quiet(s)
    ensures Done(s, CheckAll(ranks, s)) <==> NoneOvertaken(s)
  {
    VisitedStart(s);
    FirstListed(s);
    WholeAhead(s);
    QuietReady(s);
    MinusNone(s.ready, AllGone(s));
    ReadyWalk(ranks, s, 0, s, First(s.ready));
    var s1 := Walk(ranks, s, First(s.ready));
    WaitStart(ranks, s, s1);
    AllWaiting(s);
  }

  lemma AllWaiting(s: Lists)
    ensures OvertakenFrom(s, |s.ready|) <==> !NoneOvertaken(s)
  {
    if i: nat, k: nat, j: nat {:trigger Overtaken(s, i, k, j)} :| Overtaken(s, i, k, j) { assert |s.ready| <= i; }
  }

  /** It can happen: the waiting threads 0 to 3, where 0 has an overdue request of 1 and 2 has one of 3. Thread 1 is
      restarted, the walk goes on behind it in the ready list and ends there; thread 2 is not visited. */
  const MISSED := Lists([], [0, 1, 2, 3], [0, 1, 0, 1], [[1], [], [3], []])
  const AFTER_PASS := Lists([1], [0, 2, 3], [0, 0, 0, 1], [[], [], [3], []])

  lemma CheckCanMiss(ranks: Ranks)
    ensures Sane(MISSED) && CheckAll(ranks, MISSED) == AFTER_PASS
  {
    MissedStart();
    FirstVisit(ranks);
    SecondVisit(ranks);
    OneVisit(ranks, MISSED, AFTER_PASS, At(1));
  }

  lemma MissedStart()
    ensures Sane(MISSED) && Next(MISSED, At(0)) == At(1)
  {
    assert Suffix(MISSED.waiting, 0) == MISSED.waiting;
  }

  /** A pass that does nothing after its first visit. */
  lemma OneVisit(ranks: Ranks, s: Lists, s1: Lists, next: Place)
    requires Sane(s) && s.ready == [] && s.waiting != [] && Next(s, At(s.waiting[0])) == next
    requires Visit(ranks, s, s.waiting[0]) == s1 && Sane(s1) && (next.At? ==> Listed(s1, next.t)) && Walk(ranks, s1, next) == s1
    ensures CheckAll(ranks, s) == s1
  {
  }

  lemma SecondVisit(ranks: Ranks)
    ensures Sane(AFTER_PASS) && Listed(AFTER_PASS, 1) && Walk(ranks, AFTER_PASS, At(1)) == AFTER_PASS
  {
    assert Suffix(AFTER_PASS.ready, 1) == [1];
    WalkNothing(ranks, AFTER_PASS, At(1));
  }

  lemma FirstVisit(ranks: Ranks)
    ensures Visit(ranks, MISSED, 0) == AFTER_PASS
  {
    var s := MISSED;
    var s2 := s.(due := s.due[0 := []], counts := s.counts[1 := 0]);
    assert s2.due == [[], [], [3], []] && s2.counts == [0, 0, 0, 1];
    assert Inserted(ranks.priorities, ranks.counters, [], 1) == [1];
    assert [1, 2, 3][1..] == [2, 3] && s.waiting[1..] == [1, 2, 3];
    assert Unlinked(s.waiting, 1) == [0] + Unlinked([1, 2, 3], 1);
    assert Restart(ranks, s2, 1) == AFTER_PASS;
    assert [1][1..] == [];
    assert TakenBack(ranks, Restart(ranks, s2, 1), [1][1..]) == Restart(ranks, s2, 1);
  }

  /** The condition is not enough when a thread is restarted before its turn and has overdue requests at its own locks:
      here thread 0 has an overdue request of 2, which has one of 3. Thread 2 goes to the ready list, which has been
      walked already. */
  const EARLY := Lists([], [0, 1, 2, 3], [0, 0, 1, 1], [[2], [], [3], []])
  const AFTER_EARLY := Lists([2], [0, 1, 3], [0, 0, 0, 1], [[], [], [3], []])

  lemma RestartedEarly(ranks: Ranks)
    ensures Sane(EARLY) && NoneOvertaken(EARLY) && !Quiet(EARLY) && CheckAll(ranks, EARLY) == AFTER_EARLY
  {
    EarlyStart();
    EarlyNotQuiet();
    EarlyVisit(ranks);
    EarlyRest(ranks);
    OneVisit(ranks, EARLY, AFTER_EARLY, At(1));
  }

  lemma EarlyStart()
    ensures Sane(EARLY) && Next(EARLY, At(0)) == At(1)
  {
    assert Suffix(EARLY.waiting, 0) == EARLY.waiting;
  }

  lemma EarlyNotQuiet()
    ensures NoneOvertaken(EARLY) && !Quiet(EARLY)
  {
    EarlyGone();
    forall i: nat, k: nat, j: nat {:trigger Overtaken(EARLY, i, k, j)} | Overtaken(EARLY, i, k, j) ensures false {
      Behind(EARLY, i, k, j);
      EarlyDue(j);
    }
  }

  lemma EarlyDue(j: nat)
    requires j < |Order(EARLY)| && Order(EARLY)[j] < |EARLY.due| && EARLY.due[Order(EARLY)[j]] != []
    ensures j == 0 || j == 2
  {
    assert Order(EARLY) == [0, 1, 2, 3];
  }

  lemma EarlyGone()
    ensures !Gone(EARLY, 1, 1) && Gone(EARLY, 1, 2) && Order(EARLY)[0] == 0 && Order(EARLY)[1] == 1 && DueAfter(EARLY, 1)[2] == [3]
  {
    assert Order(EARLY) == [0, 1, 2, 3];
    assert Left(EARLY, 0, 1) == 0 && Left(EARLY, 0, 2) == 1;
    assert Occ([2], 2) == 1;
    assert Left(EARLY, 1, 2) == 0;
  }

  lemma EarlyRest(ranks: Ranks)
    ensures Sane(AFTER_EARLY) && Listed(AFTER_EARLY, 1) && Walk(ranks, AFTER_EARLY, At(1)) == AFTER_EARLY
  {
    assert AFTER_EARLY.waiting[1..] == [1, 3];
    assert Suffix(AFTER_EARLY.waiting, 1) == [1, 3];
    WalkNothing(ranks, AFTER_EARLY, At(1));
  }

  lemma EarlyVisit(ranks: Ranks)
    ensures Visit(ranks, EARLY, 0) == AFTER_EARLY
  {
    var s := EARLY;
    var s2 := s.(due := s.due[0 := []], counts := s.counts[2 := 0]);
    assert s2.due == [[], [], [3], []] && s2.counts == [0, 0, 0, 1];
    assert Inserted(ranks.priorities, ranks.counters, [], 2) == [2];
    assert [1, 2, 3][1..] == [2, 3] && [2, 3][1..] == [3] && s.waiting[1..] == [1, 2, 3];
    assert Unlinked([1, 2, 3], 2) == [1] + Unlinked([2, 3], 2) == [1, 3];
    assert Unlinked(s.waiting, 2) == [0] + Unlinked([1, 2, 3], 2);
    assert Restart(ranks, s2, 2) == AFTER_EARLY;
    assert [2][1..] == [];
    assert TakenBack(ranks, Restart(ranks, s2, 2), [2][1..]) == Restart(ranks, s2, 2);
  }
}
