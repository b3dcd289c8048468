/** The pass over all threads that takes back overdue lock requests, on the data of the engine. */
module TimeoutPass {
  import opened NodeList
  import opened MonitorState
  import opened Monitor
  import opened LockTimeouts
  import Scheduler

  function Late(now: int): Request -> bool {
    (r: Request) => r.timeExpire <= now
  }

  // What is overdue.

  /** The threads of the overdue requests of a queue, in its order. */
  function DueIn(threadOf: seq<nat>, requests: seq<Request>, now: int): (r: seq<nat>) {
    if requests == [] then []
    else
      var r := requests[|requests| - 1];
      DueIn(threadOf, requests[..|requests| - 1], now) + if r.timeExpire <= now && r.sub < |threadOf| then [threadOf[r.sub]] else []
  }

  /** The same for the queues of the locks in a list. */
  function DueAt(threadOf: seq<nat>, locks: seq<Lock>, list: seq<nat>, now: int): seq<nat> {
    if list == [] then []
    else
      var l := list[|list| - 1];
      DueAt(threadOf, locks, list[..|list| - 1], now) + if l < |locks| then DueIn(threadOf, locks[l].requests, now) else []
  }

  /** The same for all threads. */
  ghost predicate DueIs(threadOf: seq<nat>, locks: seq<Lock>, lists: seq<seq<nat>>, now: int, due: seq<seq<nat>>) {
    |due| == |lists| && forall t {:trigger due[t]} :: 0 <= t < |lists| ==> due[t] == DueAt(threadOf, locks, lists[t], now)
  }

  lemma DueNext(threadOf: seq<nat>, requests: seq<Request>, j: nat, now: int)
    requires j < |requests| && requests[j].sub < |threadOf|
    ensures DueIn(threadOf, requests[..j + 1], now) ==
      DueIn(threadOf, requests[..j], now) + if requests[j].timeExpire <= now then [threadOf[requests[j].sub]] else []
  {
    assert requests[..j + 1][..j] == requests[..j];
  }

  lemma DueNextLock(threadOf: seq<nat>, locks: seq<Lock>, list: seq<nat>, i: nat, now: int)
    requires i < |list| && list[i] < |locks|
    ensures DueAt(threadOf, locks, list[..i + 1], now) == DueAt(threadOf, locks, list[..i], now) + DueIn(threadOf, locks[list[i]].requests, now)
  {
    assert list[..i + 1][..i] == list[..i];
  }

  lemma {:induction false} DueBelow(threadOf: seq<nat>, requests: seq<Request>, now: int, threads: nat)
    requires forall s {:trigger threadOf[s]} :: 0 <= s < |threadOf| ==> threadOf[s] < threads
    ensures forall i {:trigger DueIn(threadOf, requests, now)[i]} :: 0 <= i < |DueIn(threadOf, requests, now)| ==> DueIn(threadOf, requests, now)[i] < threads
  {
    if requests != [] { DueBelow(threadOf, requests[..|requests| - 1], now, threads); }
  }

  lemma {:induction false} DueAtBelow(threadOf: seq<nat>, locks: seq<Lock>, list: seq<nat>, now: int, threads: nat)
    requires forall s {:trigger threadOf[s]} :: 0 <= s < |threadOf| ==> threadOf[s] < threads
    ensures forall i {:trigger DueAt(threadOf, locks, list, now)[i]} :: 0 <= i < |DueAt(threadOf, locks, list, now)| ==> DueAt(threadOf, locks, list, now)[i] < threads
  {
    if list != [] {
      DueAtBelow(threadOf, locks, list[..|list| - 1], now, threads);
      if list[|list| - 1] < |locks| { DueBelow(threadOf, locks[list[|list| - 1]].requests, now, threads); }
    }
  }

  /** Nothing is overdue in a queue from which the overdue requests have been taken. */
  lemma {:induction false} DuePurged(threadOf: seq<nat>, requests: seq<Request>, now: int)
    ensures DueIn(threadOf, Keep(requests, Late(now)), now) == []
  {
    if requests != [] {
      var init := Keep(requests[..|requests| - 1], Late(now));
      DuePurged(threadOf, requests[..|requests| - 1], now);
      assert (init + [requests[|requests| - 1]])[..|init|] == init;
      assert init + [] == init;
    }
  }

  // What one visit leaves behind.

  /** The queues of the locks in part have been purged, the others have not. */
  ghost predicate PurgedIn(was: seq<Lock>, drop: Request -> bool, locks: seq<Lock>, part: seq<nat>) {
    && |locks| == |was|
    && forall l: nat {:trigger locks[l]} :: l < |was| ==> locks[l] == if l in part then Purge(was[l], drop) else was[l]
  }

  lemma PurgedNext(was: seq<Lock>, drop: Request -> bool, locks: seq<Lock>, list: seq<nat>, i: nat, locks': seq<Lock>)
    requires i < |list| && Unique(list) && list[i] < |locks| && PurgedIn(was, drop, locks, list[..i])
    requires locks' == locks[list[i] := Purge(locks[list[i]], drop)]
    ensures list[i] < |was| && was[list[i]] == locks[list[i]]
    ensures PurgedIn(was, drop, locks', list[..i + 1])
  {
    assert list[..i + 1] == list[..i] + [list[i]];
    assert list[i] !in list[..i];
  }

  lemma {:induction false} DueAtPurged(threadOf: seq<nat>, was: seq<Lock>, locks: seq<Lock>, list: seq<nat>, part: seq<nat>, now: int)
    requires PurgedIn(was, Late(now), locks, part)
    ensures (forall l :: l in list ==> l in part) ==> DueAt(threadOf, locks, list, now) == []
    ensures (forall l :: l in list ==> l !in part) ==> DueAt(threadOf, locks, list, now) == DueAt(threadOf, was, list, now)
  {
    if list != [] {
      var l := list[|list| - 1];
      DueAtPurged(threadOf, was, locks, list[..|list| - 1], part, now);
      if l < |was| {
        DuePurged(threadOf, was[l].requests, now);
        assert locks[l] == if l in part then Purge(was[l], Late(now)) else was[l];
      }
    }
  }

  lemma DueVisited(threadOf: seq<nat>, st: State, locks: seq<Lock>, t: nat, now: int, due: seq<seq<nat>>)
    requires ListsOk(st.locks, st.lists) && t < |st.lists| && DueIs(threadOf, st.locks, st.lists, now, due)
    requires PurgedIn(st.locks, Late(now), locks, st.lists[t])
    ensures DueIs(threadOf, locks, st.lists, now, due[t := []])
  {
    forall u {:trigger due[t := []][u]} | 0 <= u < |due| ensures due[t := []][u] == DueAt(threadOf, locks, st.lists[u], now) {
      DueAtPurged(threadOf, st.locks, locks, st.lists[u], st.lists[t], now);
      if u != t {
        forall l | l in st.lists[u] ensures l !in st.lists[t] {
          var i :| 0 <= i < |st.lists[u]| && st.lists[u][i] == l;
          assert st.locks[st.lists[u][i]].owningThread == u;
        }
      }
    }
  }

  lemma SomePurged(was: seq<Lock>, drop: Request -> bool, before: seq<Lock>, locks: seq<Lock>, part: seq<nat>)
    requires PurgedSome(was, drop, before, {}) && PurgedIn(before, drop, locks, part)
    ensures PurgedSome(was, drop, locks, {})
  {
    forall l {:trigger locks[l]} | 0 <= l < |was| ensures locks[l] == was[l] || locks[l] == Purge(was[l], drop) {
      KeepTwice(was[l].requests, drop);
      assert before[l] == was[l] || before[l] == Purge(was[l], drop);
    }
  }

  /** Requests are taken back part by part. */
  lemma {:induction false} TakenBackAppend(ranks: Ranks, s: Lists, a: seq<nat>, b: seq<nat>)
    requires forall i {:trigger a[i]} :: 0 <= i < |a| ==> a[i] < |s.counts|
    ensures TakenBack(ranks, s, a + b) == TakenBack(ranks, TakenBack(ranks, s, a), b)
    decreases |a|
  {
    if a == [] {
      assert a + b == b;
    } else {
      var w := a[0];
      var s1 := s.(counts := s.counts[w := s.counts[w] - 1]);
      assert (a + b)[1..] == a[1..] + b;
      forall i {:trigger a[1..][i]} | 0 <= i < |a| - 1 ensures a[1..][i] < |s.counts| { assert a[1..][i] == a[i + 1]; }
      TakenBackAppend(ranks, if s1.counts[w] == 0 then Restart(ranks, s1, w) else s1, a[1..], b);
    }
  }

  /** One request. */
  lemma TakenBackOne(ranks: Ranks, s: Lists, w: nat)
    requires w < |s.counts|
    ensures var s1 := s.(counts := s.counts[w := s.counts[w] - 1]);
      TakenBack(ranks, s, [w]) == if s1.counts[w] == 0 then Restart(ranks, s1, w) else s1
  {
    assert [w][1..] == [];
  }

  lemma CountedSane(s: Lists, w: nat, n: int)
    requires Sane(s) && w < |s.counts|
    ensures Sane(s.(counts := s.counts[w := n]))
  {
  }

  lemma QueueAt(was: seq<Request>, j: nat, drop: Request -> bool, queue: seq<Request>, k: nat)
    requires KeptTo(was, j, drop, queue, k) && k < |queue|
    ensures j < |was| && queue[k] == was[j]
  {
  }

  lemma QueueStep(ranks: Ranks, s: Lists, threadOf: seq<nat>, was: seq<Request>, j: nat, now: int, s0: Lists, s1: Lists)
    requires j < |was| && was[j].sub < |threadOf| && forall u {:trigger threadOf[u]} :: 0 <= u < |threadOf| ==> threadOf[u] < |s.counts|
    requires s0 == TakenBack(ranks, s, DueIn(threadOf, was[..j], now))
    requires s1 == TakenBack(ranks, s0, if was[j].timeExpire <= now then [threadOf[was[j].sub]] else [])
    ensures s1 == TakenBack(ranks, s, DueIn(threadOf, was[..j + 1], now))
  {
    DueNext(threadOf, was, j, now);
    DueBelow(threadOf, was[..j], now, |s.counts|);
    TakenBackAppend(ranks, s, DueIn(threadOf, was[..j], now), if was[j].timeExpire <= now then [threadOf[was[j].sub]] else []);
  }

  /** The overdue ones of the first j requests of a queue have been taken back. */
  ghost predicate TookTo(ranks: Ranks, s: Lists, threadOf: seq<nat>, was: seq<Request>, j: nat, now: int, s': Lists) {
    j <= |was| && s' == TakenBack(ranks, s, DueIn(threadOf, was[..j], now)) && Sane(s') && |s'.counts| == |s.counts|
  }

  lemma TookNext(ranks: Ranks, s: Lists, threadOf: seq<nat>, was: seq<Request>, j: nat, now: int, s0: Lists, s1: Lists)
    requires j < |was| && was[j].sub < |threadOf| && forall u {:trigger threadOf[u]} :: 0 <= u < |threadOf| ==> threadOf[u] < |s.counts|
    requires TookTo(ranks, s, threadOf, was, j, now, s0)
    requires s1 == TakenBack(ranks, s0, if was[j].timeExpire <= now then [threadOf[was[j].sub]] else [])
    ensures TookTo(ranks, s, threadOf, was, j + 1, now, s1)
  {
    QueueStep(ranks, s, threadOf, was, j, now, s0, s1);
    TakenBackSane(ranks, s0, if was[j].timeExpire <= now then [threadOf[was[j].sub]] else []);
  }

  lemma TookAll(ranks: Ranks, s: Lists, threadOf: seq<nat>, was: seq<Request>, drop: Request -> bool, j: nat, now: int, queue: seq<Request>, k: nat, s': Lists)
    requires TookTo(ranks, s, threadOf, was, j, now, s') && KeptTo(was, j, drop, queue, k) && k >= |queue|
    ensures s' == TakenBack(ranks, s, DueIn(threadOf, was, now)) && queue == Keep(was, drop)
  {
    KeepEnd(was, j, drop, queue, k);
    assert was[..j] == was;
  }

  /** The overdue requests at the first i locks of a list have been taken back. */
  ghost predicate TookLocks(ranks: Ranks, s: Lists, threadOf: seq<nat>, was: seq<Lock>, list: seq<nat>, i: nat, now: int, s': Lists) {
    i <= |list| && s' == TakenBack(ranks, s, DueAt(threadOf, was, list[..i], now)) && Sane(s') && |s'.counts| == |s.counts|
  }

  lemma TookLock(ranks: Ranks, s: Lists, threadOf: seq<nat>, was: seq<Lock>, list: seq<nat>, i: nat, now: int, s0: Lists, s1: Lists)
    requires i < |list| && list[i] < |was| && forall u {:trigger threadOf[u]} :: 0 <= u < |threadOf| ==> threadOf[u] < |s.counts|
    requires TookLocks(ranks, s, threadOf, was, list, i, now, s0)
    requires s1 == TakenBack(ranks, s0, DueIn(threadOf, was[list[i]].requests, now))
    ensures TookLocks(ranks, s, threadOf, was, list, i + 1, now, s1)
  {
    DueNextLock(threadOf, was, list, i, now);
    DueAtBelow(threadOf, was, list[..i], now, |s.counts|);
    TakenBackAppend(ranks, s, DueAt(threadOf, was, list[..i], now), DueIn(threadOf, was[list[i]].requests, now));
    TakenBackSane(ranks, s0, DueIn(threadOf, was[list[i]].requests, now));
  }

  /** All locks of thread t have been seen to. */
  lemma TookThread(ranks: Ranks, s: Lists, threadOf: seq<nat>, st: State, t: nat, now: int, locks: seq<Lock>, s': Lists)
    requires ListsOk(st.locks, st.lists) && t < |st.lists| && DueIs(threadOf, st.locks, st.lists, now, s.due)
    requires PurgedIn(st.locks, Late(now), locks, st.lists[t][..|st.lists[t]|])
    requires TookLocks(ranks, s.(due := s.due[t := []]), threadOf, st.locks, st.lists[t], |st.lists[t]|, now, s')
    ensures s' == Visit(ranks, s, t) && DueIs(threadOf, locks, st.lists, now, s'.due) && PurgedIn(st.locks, Late(now), locks, st.lists[t])
  {
    assert st.lists[t][..|st.lists[t]|] == st.lists[t];
    DueVisited(threadOf, st, locks, t, now, s.due);
  }

  lemma TookNone(ranks: Ranks, s: Lists, threadOf: seq<nat>, st: State, t: nat, now: int)
    requires Sane(s) && t < |st.lists| == |s.due|
    ensures TookLocks(ranks, s.(due := s.due[t := []]), threadOf, st.locks, st.lists[t], 0, now, s.(due := s.due[t := []]))
    ensures PurgedIn(st.locks, Late(now), st.locks, st.lists[t][..0])
  {
  }

  // No thread has fewer requests queued than are overdue.

  lemma {:induction false} OccAppend(a: seq<nat>, b: seq<nat>, w: nat)
    ensures Occ(a + b, w) == Occ(a, w) + Occ(b, w)
  {
    if a == [] {
      assert a + b == b;
    } else {
      assert (a + b)[1..] == a[1..] + b;
      OccAppend(a[1..], b, w);
    }
  }

  lemma {:induction false} OccIn(threadOf: seq<nat>, requests: seq<Request>, now: int, w: nat)
    ensures Occ(DueIn(threadOf, requests, now), w) <= CountIn(requests, threadOf, w)
  {
    if requests != [] {
      var r := requests[|requests| - 1];
      OccIn(threadOf, requests[..|requests| - 1], now, w);
      OccAppend(DueIn(threadOf, requests[..|requests| - 1], now), if r.timeExpire <= now && r.sub < |threadOf| then [threadOf[r.sub]] else [], w);
    }
  }

  /** The requests of thread w in the queues of the first n locks, as far as they are in part. */
  ghost function PendingIn(locks: seq<Lock>, n: nat, part: set<nat>, threadOf: seq<nat>, w: nat): nat
    requires n <= |locks|
  {
    if n == 0 then 0 else PendingIn(locks, n - 1, part, threadOf, w) + if n - 1 in part then CountIn(locks[n - 1].requests, threadOf, w) else 0
  }

  lemma {:induction false} PendingPart(locks: seq<Lock>, n: nat, a: set<nat>, b: set<nat>, threadOf: seq<nat>, w: nat)
    requires n <= |locks| && a <= b
    ensures PendingIn(locks, n, a, threadOf, w) <= PendingIn(locks, n, b, threadOf, w) <= Pending(locks, n, threadOf, w)
  {
    if n > 0 { PendingPart(locks, n - 1, a, b, threadOf, w); }
  }

  lemma {:induction false} PendingMore(locks: seq<Lock>, n: nat, part: set<nat>, l: nat, threadOf: seq<nat>, w: nat)
    requires n <= |locks| && l < |locks| && l !in part
    ensures PendingIn(locks, n, part + {l}, threadOf, w) == PendingIn(locks, n, part, threadOf, w) + if l < n then CountIn(locks[l].requests, threadOf, w) else 0
  {
    if n > 0 { PendingMore(locks, n - 1, part, l, threadOf, w); }
  }

  lemma LastApart(list: seq<nat>, part: set<nat>, n: nat)
    requires Unique(list) && list != [] && forall i {:trigger list[i]} :: 0 <= i < |list| ==> list[i] < n && list[i] !in part
    ensures var init, l := list[..|list| - 1], list[|list| - 1];
      && Unique(init) && (forall i {:trigger init[i]} :: 0 <= i < |init| ==> init[i] < n && init[i] !in part)
      && l < n && l !in part + Elements(init) && part + Elements(init) + {l} == part + Elements(list)
  {
    assert list == list[..|list| - 1] + [list[|list| - 1]];
  }

  ghost function Elements(list: seq<nat>): set<nat> {
    set l | l in list
  }

  /** Locks of a list that are not yet in part add what is overdue at them, or more. */
  lemma {:induction false} DueCounted(threadOf: seq<nat>, locks: seq<Lock>, list: seq<nat>, now: int, part: set<nat>, w: nat)
    requires Unique(list) && forall i {:trigger list[i]} :: 0 <= i < |list| ==> list[i] < |locks| && list[i] !in part
    ensures Occ(DueAt(threadOf, locks, list, now), w) + PendingIn(locks, |locks|, part, threadOf, w)
      <= PendingIn(locks, |locks|, part + Elements(list), threadOf, w)
  {
    if list == [] {
      assert part + Elements(list) == part;
    } else {
      var init, l := list[..|list| - 1], list[|list| - 1];
      LastApart(list, part, |locks|);
      DueCounted(threadOf, locks, init, now, part, w);
      DueLast(threadOf, locks, list, now, w);
      PendingMore(locks, |locks|, part + Elements(init), l, threadOf, w);
    }
  }

  lemma DueLast(threadOf: seq<nat>, locks: seq<Lock>, list: seq<nat>, now: int, w: nat)
    requires list != [] && list[|list| - 1] < |locks|
    ensures Occ(DueAt(threadOf, locks, list, now), w)
      <= Occ(DueAt(threadOf, locks, list[..|list| - 1], now), w) + CountIn(locks[list[|list| - 1]].requests, threadOf, w)
  {
    var init, l := list[..|list| - 1], list[|list| - 1];
    OccAppend(DueAt(threadOf, locks, init, now), DueIn(threadOf, locks[l].requests, now), w);
    OccIn(threadOf, locks[l].requests, now, w);
  }

  /** The locks of some threads. */
  ghost function LocksOf(locks: seq<Lock>, threads: seq<nat>): set<nat> {
    set l: nat | l < |locks| && locks[l].live && locks[l].owningThread in threads
  }

  lemma OwnedApart(st: State, threads: seq<nat>, t: nat)
    requires ListsOk(st.locks, st.lists) && t < |st.lists| && t !in threads
    ensures Unique(st.lists[t]) && forall i {:trigger st.lists[t][i]} :: 0 <= i < |st.lists[t]| ==> st.lists[t][i] < |st.locks| && st.lists[t][i] !in LocksOf(st.locks, threads)
    ensures LocksOf(st.locks, threads) + Elements(st.lists[t]) <= LocksOf(st.locks, threads + [t])
  {
    forall l | l in Elements(st.lists[t]) ensures l in LocksOf(st.locks, threads + [t]) {
      var i :| 0 <= i < |st.lists[t]| && st.lists[t][i] == l;
      assert st.locks[st.lists[t][i]].owningThread == t;
    }
  }

  lemma ThreadCounted(threadOf: seq<nat>, st: State, now: int, threads: seq<nat>, t: nat, w: nat)
    requires ListsOk(st.locks, st.lists) && t < |st.lists| && t !in threads
    ensures Occ(DueAt(threadOf, st.locks, st.lists[t], now), w) + PendingIn(st.locks, |st.locks|, LocksOf(st.locks, threads), threadOf, w)
      <= PendingIn(st.locks, |st.locks|, LocksOf(st.locks, threads + [t]), threadOf, w)
  {
    OwnedApart(st, threads, t);
    DueCounted(threadOf, st.locks, st.lists[t], now, LocksOf(st.locks, threads), w);
    PendingPart(st.locks, |st.locks|, LocksOf(st.locks, threads) + Elements(st.lists[t]), LocksOf(st.locks, threads + [t]), threadOf, w);
  }

  lemma OrderNext(s: Lists, n: nat)
    requires Sane(s) && n < |Order(s)|
    ensures Order(s)[n] < |s.due| && Order(s)[n] !in Order(s)[..n] && Order(s)[..n + 1] == Order(s)[..n] + [Order(s)[n]]
  {
    OrderSane(s);
    assert Order(s)[n] in Order(s);
  }

  lemma {:induction false} LeftCounted(threadOf: seq<nat>, st: State, now: int, s: Lists, n: nat, w: nat)
    requires ListsOk(st.locks, st.lists) && Sane(s) && DueIs(threadOf, st.locks, st.lists, now, s.due) && n <= |Order(s)|
    ensures LockTimeouts.Left(s, n, w) + PendingIn(st.locks, |st.locks|, LocksOf(st.locks, Order(s)[..n]), threadOf, w) >= LockTimeouts.Left(s, 0, w)
    decreases n
  {
    if n > 0 {
      LeftCounted(threadOf, st, now, s, n - 1, w);
      OrderNext(s, n - 1);
      ThreadCounted(threadOf, st, now, Order(s)[..n - 1], Order(s)[n - 1], w);
    }
  }

  lemma {:induction false} NobodyLeft(s: Lists, n: nat, w: nat)
    requires Sane(s) && n <= |Order(s)| && w >= |s.counts|
    ensures LockTimeouts.Left(s, n, w) == 0
    decreases n
  {
    if n > 0 {
      NobodyLeft(s, n - 1, w);
      if Order(s)[n - 1] < |s.due| { OccMember(s.due[Order(s)[n - 1]], w); }
    }
  }

  lemma CountsCover(threadOf: seq<nat>, st: State, now: int, s: Lists)
    requires StateOk(threadOf, st, |st.locks|) && Sane(s) && DueIs(threadOf, st.locks, st.lists, now, s.due) && s.counts == st.threadCount
    ensures Covered(s)
  {
    forall w: nat {:trigger LockTimeouts.Left(s, |Order(s)|, w)} ensures LockTimeouts.Left(s, |Order(s)|, w) >= 0 {
      if w < |s.counts| {
        LeftCounted(threadOf, st, now, s, |Order(s)|, w);
        PendingPart(st.locks, |st.locks|, {}, LocksOf(st.locks, Order(s)[..|Order(s)|]), threadOf, w);
        assert st.threadCount[w] == Pending(st.locks, |st.locks|, threadOf, w);
      } else {
        NobodyLeft(s, |Order(s)|, w);
      }
    }
  }

  /** The scheduler's invariant survives the pass. */
  lemma SchedulerKept(priorities: seq<nat>, st: Scheduler.State, s: Lists)
    requires Sane(s) && st.ready == s.ready && |priorities| == |st.counters| == |s.counts|
    ensures Scheduler.StateOk(priorities, st) ==>
      Scheduler.StateOk(priorities, st.(ready := CheckAll(Ranks(priorities, st.counters), s).ready))
  {
    if Scheduler.StateOk(priorities, st) {
      var ranks := Ranks(priorities, st.counters);
      CheckOrder(ranks, s);
      CheckSane(ranks, s);
      var ready := CheckAll(ranks, s).ready;
      forall i {:trigger ready[i]} | 0 <= i < |ready| ensures ready[i] < |priorities| { assert ready[i] in ready; }
    }
  }

  lemma CheckSane(ranks: Ranks, s: Lists)
    requires Sane(s)
    ensures Sane(CheckAll(ranks, s)) && |CheckAll(ranks, s).due| == |s.due|
  {
    FirstListed(s);
    WalkSane(ranks, s, First(s.ready));
    var s1 := LockTimeouts.Walk(ranks, s, First(s.ready));
    FirstListed(s1);
    WalkSane(ranks, s1, First(s1.waiting));
  }

  // Whether anything overdue is left.

  lemma {:induction false} NothingLate(threadOf: seq<nat>, requests: seq<Request>, now: int)
    requires forall i {:trigger requests[i]} :: 0 <= i < |requests| ==> requests[i].sub < |threadOf|
    requires DueIn(threadOf, requests, now) == []
    ensures Keep(requests, Late(now)) == requests
  {
    if requests != [] {
      var init, r := requests[..|requests| - 1], requests[|requests| - 1];
      assert r.timeExpire > now;
      NothingLate(threadOf, init, now);
      assert requests == init + [r];
    }
  }

  /** Nothing is overdue at the locks of a list exactly if it is at none of them. */
  lemma {:induction false} DueAtNone(threadOf: seq<nat>, locks: seq<Lock>, list: seq<nat>, now: int)
    requires forall i {:trigger list[i]} :: 0 <= i < |list| ==> list[i] < |locks|
    ensures DueAt(threadOf, locks, list, now) == [] <==> forall i {:trigger list[i]} :: 0 <= i < |list| ==> DueIn(threadOf, locks[list[i]].requests, now) == []
  {
    if list != [] {
      var init := list[..|list| - 1];
      DueAtNone(threadOf, locks, init, now);
      forall i {:trigger init[i]} | 0 <= i < |init| ensures init[i] == list[i] {}
      assert list[|list| - 1] == list[|init|];
    }
  }

  lemma PurgedDone(threadOf: seq<nat>, was: seq<Lock>, st: State, now: int, s: Lists, s': Lists)
    requires StateOk(threadOf, st, |st.locks|) && DueIs(threadOf, st.locks, st.lists, now, s'.due) && Purged(was, Late(now), st.locks)
    ensures Done(s, s')
  {
    forall t: nat {:trigger Listed(s, t)} | Listed(s, t) && t < |s'.due| ensures s'.due[t] == [] {
      DueAtNone(threadOf, st.locks, st.lists[t], now);
      forall i {:trigger st.lists[t][i]} | 0 <= i < |st.lists[t]| ensures DueIn(threadOf, st.locks[st.lists[t][i]].requests, now) == [] {
        DuePurged(threadOf, was[st.lists[t][i]].requests, now);
      }
    }
  }

  lemma DonePurged(threadOf: seq<nat>, was: seq<Lock>, st: State, now: int, s: Lists, s': Lists)
    requires StateOk(threadOf, st, |st.locks|) && DueIs(threadOf, st.locks, st.lists, now, s'.due) && PurgedSome(was, Late(now), st.locks, {})
    requires AllListed(st.lists, s) && Done(s, s')
    ensures Purged(was, Late(now), st.locks)
  {
    forall l {:trigger st.locks[l]} | 0 <= l < |was| ensures st.locks[l] == Purge(was[l], Late(now)) {
      if st.locks[l].live {
        LockDone(threadOf, st, now, s, s', l);
      } else {
        assert st.locks[l] == FREE_LOCK;
      }
    }
  }

  lemma LockDone(threadOf: seq<nat>, st: State, now: int, s: Lists, s': Lists, l: nat)
    requires StateOk(threadOf, st, |st.locks|) && DueIs(threadOf, st.locks, st.lists, now, s'.due)
    requires AllListed(st.lists, s) && Done(s, s') && l < |st.locks| && st.locks[l].live
    ensures Purge(st.locks[l], Late(now)) == st.locks[l]
  {
    var t := st.locks[l].owningThread;
    assert Has(st.lists[t], l);
    var i :| 0 <= i < |st.lists[t]| && st.lists[t][i] == l;
    assert Listed(s, t);
    DueAtNone(threadOf, st.locks, st.lists[t], now);
    assert RequestsOk(threadOf, st.locks[l].requests, st.nextTicket);
    NothingLate(threadOf, st.locks[l].requests, now);
  }

  /** All threads that own locks are in the lists. */
  ghost predicate AllListed(lists: seq<seq<nat>>, s: Lists) {
    forall t: nat {:trigger lists[t]} :: t < |lists| && lists[t] != [] ==> Listed(s, t)
  }

  lemma PassExact(ranks: Ranks, threadOf: seq<nat>, was: State, s: Lists, st: State, now: int)
    requires StateOk(threadOf, was, |was.locks|) && Sane(s) && DueIs(threadOf, was.locks, was.lists, now, s.due) && s.counts == was.threadCount
    requires StateOk(threadOf, st, |st.locks|) && DueIs(threadOf, st.locks, st.lists, now, CheckAll(ranks, s).due)
    requires PurgedSome(was.locks, Late(now), st.locks, {}) && AllListed(st.lists, s) && Quiet(s)
    ensures Purged(was.locks, Late(now), st.locks) <==> NoneOvertaken(s)
  {
    CountsCover(threadOf, was, now, s);
    CheckExact(ranks, s);
    if NoneOvertaken(s) { DonePurged(threadOf, was.locks, st, now, s, CheckAll(ranks, s)); }
    if Purged(was.locks, Late(now), st.locks) { PurgedDone(threadOf, was.locks, st, now, s, CheckAll(ranks, s)); }
  }

  class ExecutionEngine {
    const monitor: Monitor.MonitorEngine
    const scheduler: Scheduler.Engine
    /** The list of the waiting threads; that of the ready ones is the scheduler's. */
    var waiting: seq<nat>

    constructor (monitor: Monitor.MonitorEngine, scheduler: Scheduler.Engine)
      ensures this.monitor == monitor && this.scheduler == scheduler && waiting == []
    {
      this.monitor, this.scheduler, waiting := monitor, scheduler, [];
    }

    ghost function Ranked(): Ranks
      reads scheduler
    {
      Ranks(scheduler.priorities, scheduler.counters)
    }

    /** The lists of threads and the request counts are those of s. */
    ghost predicate Shows(s: Lists)
      reads this, monitor, scheduler
    {
      && s.ready == scheduler.ready && s.waiting == waiting && s.counts == monitor.threadCount
      && |scheduler.priorities| == |scheduler.counters| == |s.counts|
    }

    /** Puts a thread into the ready list. */
    method Restart(th: nat, ghost s: Lists)
      requires Shows(s) && Sane(s) && th < |s.counts|
      modifies this`waiting, scheduler`ready
      ensures Shows(LockTimeouts.Restart(Ranked(), s, th)) && Ranked() == old(Ranked())
      ensures InOrder(Ranked(), old(scheduler.ready)) ==>
        InOrder(Ranked(), scheduler.ready) && exists k: nat :: MovedTo(Ranked(), old(scheduler.ready), th, scheduler.ready, k)
    {
      forall i {:trigger scheduler.ready[i]} | 0 <= i < |scheduler.ready| ensures scheduler.ready[i] < |scheduler.priorities| {
        assert scheduler.ready[i] in s.ready;
      }
      if InOrder(Ranked(), scheduler.ready) { ghost var k := RestartOrder(Ranked(), s, th); }
      scheduler.InsertThreadRoundRobin(th);
      waiting := Scheduler.Unlinked(waiting, th);
    }

    /** Takes back one request. */
    method TakeBack(l: nat, k: nat, ghost s: Lists)
      requires monitor.Valid() && l < |monitor.locks| && k < |monitor.locks[l].requests| && Shows(s) && Sane(s)
      modifies monitor`locks, monitor`subCount, monitor`threadCount, monitor`waiting, this`waiting, scheduler`ready
      ensures monitor.Valid()
      ensures var before := old(monitor.locks);
        && monitor.locks == before[l := before[l].(requests := before[l].requests[..k] + before[l].requests[k + 1..])]
        && before[l].requests[k].sub < |monitor.threadOf|
        && Shows(TakenBack(Ranked(), s, [monitor.threadOf[before[l].requests[k].sub]]))
    {
      ghost var sub := monitor.locks[l].requests[k].sub;
      var th := monitor.Requester(l, k);
      var none := monitor.TakeRequest(l, k, |monitor.locks|);
      TakenBackOne(Ranked(), s, th);
      if none {
        CountedSane(s, th, s.counts[th] - 1);
        Restart(th, s.(counts := s.counts[th := s.counts[th] - 1]));
      }
    }

    /** One request of a queue. */
    method CheckRequest(l: nat, k: nat, now: int, ghost was: seq<Request>, ghost j: nat, ghost before: seq<Lock>, ghost queue: seq<Request>, ghost s0: Lists, ghost s: Lists)
      returns (next: nat, ghost queue': seq<Request>, ghost s': Lists)
      requires monitor.Valid() && l < |before| && monitor.locks == before[l := before[l].(requests := queue)]
      requires k < |queue| && KeptTo(was, j, Late(now), queue, k) && Shows(s)
      requires TookTo(Ranked(), s0, monitor.threadOf, was, j, now, s)
      modifies monitor`locks, monitor`subCount, monitor`threadCount, monitor`waiting, this`waiting, scheduler`ready
      ensures monitor.Valid() && monitor.locks == before[l := before[l].(requests := queue')]
      ensures KeptTo(was, j + 1, Late(now), queue', next)
      ensures Shows(s') && TookTo(Ranked(), s0, monitor.threadOf, was, j + 1, now, s')
    {
      KeepStep(was, j, Late(now), queue, k);
      QueueAt(was, j, Late(now), queue, k);
      next, queue', s' := k, queue, s;
      if monitor.locks[l].requests[k].timeExpire <= now {
        queue' := queue[..k] + queue[k + 1..];
        TakeBack(l, k, s);
        s' := TakenBack(Ranked(), s, [monitor.threadOf[was[j].sub]]);
      } else {
        next := k + 1;
      }
      TookNext(Ranked(), s0, monitor.threadOf, was, j, now, s, s');
    }

    /** The queue of one lock. */
    method CheckQueue(l: nat, now: int, ghost s: Lists)
      requires monitor.Valid() && l < |monitor.locks| && Shows(s) && Sane(s)
      modifies monitor`locks, monitor`subCount, monitor`threadCount, monitor`waiting, this`waiting, scheduler`ready
      ensures monitor.Valid() && monitor.locks == old(monitor.locks)[l := Purge(old(monitor.locks)[l], Late(now))]
      ensures Shows(TakenBack(Ranked(), s, DueIn(monitor.threadOf, old(monitor.locks)[l].requests, now)))
    {
      ghost var before, was := monitor.locks, monitor.locks[l].requests;
      ghost var j: nat, queue, s' := 0, was, s;
      var k: nat := 0;
      KeepStart(was, Late(now));
      while k < |monitor.locks[l].requests|
        invariant monitor.Valid() && KeptTo(was, j, Late(now), queue, k)
        invariant monitor.locks == before[l := before[l].(requests := queue)]
        invariant Shows(s') && TookTo(Ranked(), s, monitor.threadOf, was, j, now, s')
        decreases |was| - j
      {
        k, queue, s' := CheckRequest(l, k, now, was, j, before, queue, s, s');
        j := j + 1;
      }
      TookAll(Ranked(), s, monitor.threadOf, was, Late(now), j, now, queue, k, s');
    }

    /** The i-th lock of thread t. */
    method CheckLock(t: nat, i: nat, now: int, ghost was: seq<Lock>, ghost s0: Lists, ghost s: Lists) returns (ghost s': Lists)
      requires monitor.Valid() && t < |monitor.lists| && i < |monitor.lists[t]|
      requires PurgedIn(was, Late(now), monitor.locks, monitor.lists[t][..i])
      requires Shows(s) && TookLocks(Ranked(), s0, monitor.threadOf, was, monitor.lists[t], i, now, s)
      modifies monitor`locks, monitor`subCount, monitor`threadCount, monitor`waiting, this`waiting, scheduler`ready
      ensures monitor.Valid() && PurgedIn(was, Late(now), monitor.locks, monitor.lists[t][..i + 1])
      ensures Shows(s') && TookLocks(Ranked(), s0, monitor.threadOf, was, monitor.lists[t], i + 1, now, s')
    {
      var l := monitor.lists[t][i];
      ghost var before := monitor.locks;
      CheckQueue(l, now, s);
      PurgedNext(was, Late(now), before, monitor.lists[t], i, monitor.locks);
      s' := TakenBack(Ranked(), s, DueIn(monitor.threadOf, before[l].requests, now));
      TookLock(Ranked(), s0, monitor.threadOf, was, monitor.lists[t], i, now, s, s');
    }

    /** s is the state of the engine as far as the pass is concerned. */
    ghost predicate Represents(now: int, s: Lists)
      reads this, monitor, scheduler
    {
      monitor.Valid() && Shows(s) && Sane(s) && DueIs(monitor.threadOf, monitor.locks, monitor.lists, now, s.due)
    }

    /** The locks of one thread. */
    method CheckThread(t: nat, now: int, ghost s: Lists)
      requires Represents(now, s) && t < |s.due|
      modifies monitor`locks, monitor`subCount, monitor`threadCount, monitor`waiting, this`waiting, scheduler`ready
      ensures Represents(now, Visit(Ranked(), s, t))
      ensures PurgedIn(old(monitor.locks), Late(now), monitor.locks, monitor.lists[t])
    {
      ghost var st := monitor.St();
      ghost var s0 := s.(due := s.due[t := []]);
      ghost var s' := s0;
      TookNone(Ranked(), s, monitor.threadOf, st, t, now);
      var i := 0;
      while i < |monitor.lists[t]|
        invariant monitor.Valid() && i <= |monitor.lists[t]| && PurgedIn(st.locks, Late(now), monitor.locks, monitor.lists[t][..i])
        invariant Shows(s') && TookLocks(Ranked(), s0, monitor.threadOf, st.locks, monitor.lists[t], i, now, s')
      {
        s' := CheckLock(t, i, now, st.locks, s0, s');
        i := i + 1;
      }
      TookThread(Ranked(), s, monitor.threadOf, st, t, now, monitor.locks, s');
    }

    /** One step of the walk: the place after p is looked up before the thread there is seen to. */
    method CheckNext(t: nat, now: int, ghost was: seq<Lock>, ghost s: Lists) returns (next: Place)
      requires Represents(now, s) && Listed(s, t) && PurgedSome(was, Late(now), monitor.locks, {})
      modifies monitor`locks, monitor`subCount, monitor`threadCount, monitor`waiting, this`waiting, scheduler`ready
      ensures next == Next(s, At(t)) && Represents(now, Visit(Ranked(), s, t)) && PurgedSome(was, Late(now), monitor.locks, {})
    {
      next := Next(Lists(scheduler.ready, waiting, [], []), At(t));
      ghost var before := monitor.locks;
      CheckThread(t, now, s);
      SomePurged(was, Late(now), before, monitor.locks, monitor.lists[t]);
    }

    /** The walk over one of the lists, from its first thread on. */
    method CheckThreads(first: Place, now: int, ghost was: seq<Lock>, ghost s: Lists) returns (ghost s': Lists)
      requires Represents(now, s) && (first.At? ==> Listed(s, first.t)) && PurgedSome(was, Late(now), monitor.locks, {})
      modifies monitor`locks, monitor`subCount, monitor`threadCount, monitor`waiting, this`waiting, scheduler`ready
      ensures Represents(now, s') && s' == LockTimeouts.Walk(Ranked(), s, first) && PurgedSome(was, Late(now), monitor.locks, {})
    {
      var p := first;
      s' := s;
      while p.At?
        invariant Represents(now, s') && (p.At? ==> Listed(s', p.t)) && PurgedSome(was, Late(now), monitor.locks, {})
        invariant LockTimeouts.Walk(Ranked(), s', p) == LockTimeouts.Walk(Ranked(), s, first)
        decreases Load(s'.due), |Ahead(s', p)|
      {
        WalkStep(Ranked(), s', p);
        var next := CheckNext(p.t, now, was, s');
        s' := Visit(Ranked(), s', p.t);
        p := next;
      }
    }

    /** The ready threads, then the waiting ones. */
    method CheckBoth(now: int, ghost s: Lists) returns (ghost s': Lists)
      requires Represents(now, s)
      modifies monitor`locks, monitor`subCount, monitor`threadCount, monitor`waiting, this`waiting, scheduler`ready
      ensures Represents(now, s') && s' == CheckAll(Ranked(), s) && PurgedSome(old(monitor.locks), Late(now), monitor.locks, {})
    {
      ghost var was := monitor.locks;
      FirstListed(s);
      s' := CheckThreads(First(scheduler.ready), now, was, s);
      FirstListed(s');
      s' := CheckThreads(First(waiting), now, was, s');
    }

    /** The whole pass. */
    method CheckLockRequests(now: int, ghost s: Lists) returns (ghost s': Lists)
      requires Represents(now, s)
      modifies monitor`locks, monitor`subCount, monitor`threadCount, monitor`waiting, this`waiting, scheduler`ready
      ensures Represents(now, s') && s' == CheckAll(Ranked(), s) && PurgedSome(old(monitor.locks), Late(now), monitor.locks, {})
      ensures old(Scheduler.StateOk(scheduler.priorities, scheduler.St())) ==> Scheduler.StateOk(scheduler.priorities, scheduler.St())
      ensures AllListed(monitor.lists, s) && Quiet(s) ==> (Purged(old(monitor.locks), Late(now), monitor.locks) <==> NoneOvertaken(s))
    {
      ghost var st := monitor.St();
      SchedulerKept(scheduler.priorities, scheduler.St(), s);
      s' := CheckBoth(now, s);
      if AllListed(monitor.lists, s) && Quiet(s) { PassExact(Ranked(), monitor.threadOf, st, s, monitor.St(), now); }
    }
  }
}
