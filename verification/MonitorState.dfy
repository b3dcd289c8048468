/** Locks on objects: their owners, the requests queued for them, and the request counts of threads. Locks
    are slots of a pool; a slot that is not live has neither owners nor requests. */
module MonitorState {
  import opened NodeList

  const TIMEOUT_INFINITE: int := 0x7FFF_FFFF_FFFF_FFFF

  /** One sub-thread of the owning thread, and how often it has entered. */
  datatype Owner = Owner(sub: nat, recursion: nat)

  /** ticket numbers the requests in the order of their creation; it is not part of the program's state. */
  datatype Request = Request(sub: nat, timeExpire: int, force: bool, ticket: nat)

  datatype Lock = Lock(live: bool, resource: nat, owningThread: nat, owners: seq<Owner>, requests: seq<Request>)

  const FREE_LOCK := Lock(false, 0, 0, [], [])

  // Lists of owners.

  ghost predicate OwnersOk(threadOf: seq<nat>, th: nat, owners: seq<Owner>) {
    && (forall i {:trigger owners[i]} :: 0 <= i < |owners| ==>
          owners[i].sub < |threadOf| && threadOf[owners[i].sub] == th && owners[i].recursion >= 1)
    && (forall i, j {:trigger owners[i].sub, owners[j].sub} :: 0 <= i < j < |owners| ==> owners[i].sub != owners[j].sub)
  }

  /** How often a sub-thread has entered the lock and not left it. */
  function Depth(owners: seq<Owner>, sub: nat): nat {
    if owners == [] then 0 else (if owners[0].sub == sub then owners[0].recursion else 0) + Depth(owners[1..], sub)
  }

  lemma {:induction false} DepthAt(threadOf: seq<nat>, th: nat, owners: seq<Owner>, k: nat)
    requires OwnersOk(threadOf, th, owners) && k < |owners|
    ensures Depth(owners, owners[k].sub) == owners[k].recursion
  {
    if k == 0 {
      DepthNone(owners[1..], owners[0].sub);
    } else {
      DepthAt(threadOf, th, owners[1..], k - 1);
    }
  }

  lemma {:induction false} DepthNone(owners: seq<Owner>, sub: nat)
    requires forall i {:trigger owners[i]} :: 0 <= i < |owners| ==> owners[i].sub != sub
    ensures Depth(owners, sub) == 0
  {
    if owners != [] { DepthNone(owners[1..], sub); }
  }

  lemma {:induction false} DepthUpdate(owners: seq<Owner>, k: nat, o: Owner, sub: nat)
    requires k < |owners| && o.sub == owners[k].sub
    ensures Depth(owners[k := o], sub) == Depth(owners, sub) + if sub == o.sub then o.recursion - owners[k].recursion else 0
  {
    var t := owners[k := o];
    if k == 0 {
      assert t[1..] == owners[1..];
    } else {
      assert t[1..] == owners[1..][k - 1 := o];
      DepthUpdate(owners[1..], k - 1, o, sub);
    }
  }

  lemma {:induction false} DepthRemove(owners: seq<Owner>, k: nat, sub: nat)
    requires k < |owners|
    ensures Depth(owners[..k] + owners[k + 1..], sub) == Depth(owners, sub) - if sub == owners[k].sub then owners[k].recursion else 0
  {
    var t := owners[..k] + owners[k + 1..];
    if k == 0 {
      assert t == owners[1..];
    } else {
      assert t[1..] == owners[1..][..k - 1] + owners[1..][k..];
      DepthRemove(owners[1..], k - 1, sub);
    }
  }

  // Queues of requests.

  ghost predicate RequestsOk(threadOf: seq<nat>, requests: seq<Request>, nextTicket: nat) {
    && (forall i {:trigger requests[i]} :: 0 <= i < |requests| ==> requests[i].sub < |threadOf| && requests[i].ticket < nextTicket)
    && (forall i, j {:trigger requests[i].ticket, requests[j].ticket} :: 0 <= i < j < |requests| ==> requests[i].ticket < requests[j].ticket)
  }

  /** The number of requests in a queue made by party t: a sub-thread (who is the identity) or a thread. */
  ghost function CountIn(requests: seq<Request>, who: seq<nat>, t: nat): nat {
    if requests == [] then 0
    else CountIn(requests[..|requests| - 1], who, t) + (if IsBy(requests[|requests| - 1], who, t) then 1 else 0)
  }

  ghost predicate IsBy(r: Request, who: seq<nat>, t: nat) {
    r.sub < |who| && who[r.sub] == t
  }

  lemma {:induction false} CountRemove(requests: seq<Request>, k: nat, who: seq<nat>, t: nat)
    requires k < |requests|
    ensures CountIn(requests[..k] + requests[k + 1..], who, t) + (if IsBy(requests[k], who, t) then 1 else 0) == CountIn(requests, who, t)
  {
    var rest := requests[..k] + requests[k + 1..];
    var init := requests[..|requests| - 1];
    if k == |requests| - 1 {
      assert rest == init;
    } else {
      assert rest[..|rest| - 1] == init[..k] + init[k + 1..];
      CountRemove(init, k, who, t);
    }
  }

  lemma CountAppend(requests: seq<Request>, r: Request, who: seq<nat>, t: nat)
    ensures CountIn(requests + [r], who, t) == CountIn(requests, who, t) + if IsBy(r, who, t) then 1 else 0
  {
    var more := requests + [r];
    assert more[..|more| - 1] == requests;
  }

  lemma {:induction false} CountZero(requests: seq<Request>, who: seq<nat>, t: nat)
    ensures CountIn(requests, who, t) == 0 <==> forall i {:trigger requests[i]} :: 0 <= i < |requests| ==> !IsBy(requests[i], who, t)
  {
    if requests != [] {
      var init := requests[..|requests| - 1];
      CountZero(init, who, t);
      assert forall i :: 0 <= i < |init| ==> init[i] == requests[i];
    }
  }

  /** The number of requests by t in the queues of the first n locks. */
  ghost function Pending(locks: seq<Lock>, n: nat, who: seq<nat>, t: nat): nat
    requires n <= |locks|
  {
    if n == 0 then 0 else Pending(locks, n - 1, who, t) + CountIn(locks[n - 1].requests, who, t)
  }

  lemma {:induction false} PendingUpdate(locks: seq<Lock>, n: nat, l: nat, lock: Lock, who: seq<nat>, t: nat)
    requires n <= |locks| && l < |locks|
    ensures Pending(locks[l := lock], n, who, t) ==
      Pending(locks, n, who, t) + if l < n then CountIn(lock.requests, who, t) - CountIn(locks[l].requests, who, t) else 0
  {
    if n > 0 { PendingUpdate(locks, n - 1, l, lock, who, t); }
  }

  lemma {:induction false} PendingZero(locks: seq<Lock>, n: nat, who: seq<nat>, t: nat)
    requires n <= |locks|
    ensures Pending(locks, n, who, t) == 0 <==> forall l {:trigger locks[l]} :: 0 <= l < n ==> CountIn(locks[l].requests, who, t) == 0
  {
    if n > 0 { PendingZero(locks, n - 1, who, t); }
  }

  // The whole state.

  ghost predicate LockOk(threadOf: seq<nat>, threads: nat, nextTicket: nat, lock: Lock) {
    && (!lock.live ==> lock == FREE_LOCK)
    && (lock.live ==> lock.owningThread < threads && lock.owners != [])
    && OwnersOk(threadOf, lock.owningThread, lock.owners)
    && RequestsOk(threadOf, lock.requests, nextTicket)
  }

  ghost function Self(n: nat): seq<nat> {
    seq(n, i => i)
  }

  /** The request counts are right. */
  ghost predicate CountsOk(locks: seq<Lock>, threadOf: seq<nat>, subCount: seq<int>, threadCount: seq<int>) {
    && |subCount| == |threadOf|
    && (forall s {:trigger subCount[s]} :: 0 <= s < |subCount| ==> subCount[s] == Pending(locks, |locks|, Self(|threadOf|), s))
    && (forall t {:trigger threadCount[t]} :: 0 <= t < |threadCount| ==> threadCount[t] == Pending(locks, |locks|, threadOf, t))
  }

  /** A lock is in the list of the thread that owns it, once, and nowhere else. */
  ghost predicate ListsOk(locks: seq<Lock>, lists: seq<seq<nat>>) {
    && (forall t, i {:trigger lists[t][i]} :: 0 <= t < |lists| && 0 <= i < |lists[t]| ==>
          lists[t][i] < |locks| && locks[lists[t][i]].live && locks[lists[t][i]].owningThread == t)
    && (forall t {:trigger lists[t]} :: 0 <= t < |lists| ==> Unique(lists[t]))
    && (forall l {:trigger locks[l]} :: 0 <= l < |locks| && locks[l].live ==> locks[l].owningThread < |lists| && Has(lists[locks[l].owningThread], l))
  }

  /** Threads that wait for a lock do not run. */
  ghost predicate WaitingOk(threadCount: seq<int>, waiting: seq<bool>) {
    && |waiting| == |threadCount|
    && (forall t {:trigger waiting[t]} :: 0 <= t < |waiting| ==> (waiting[t] <==> threadCount[t] > 0))
  }

  ghost predicate LocksOk(locks: seq<Lock>, threadOf: seq<nat>, threads: nat, nextTicket: nat, open: nat) {
    && (forall l {:trigger locks[l]} :: 0 <= l < |locks| && l != open ==> LockOk(threadOf, threads, nextTicket, locks[l]))
    && (forall l, k {:trigger locks[l].resource, locks[k].resource} :: 0 <= l < k < |locks| && locks[l].live && locks[k].live ==> locks[l].resource != locks[k].resource)
  }

  // What a change of one queue does to the counts.

  /** The queue after a request is put in at the back (diff == 1) or taken out (diff == -1). */
  ghost predicate QueueChanged(requests: seq<Request>, r: Request, diff: int, requests': seq<Request>) {
    || (diff == 1 && requests' == requests + [r])
    || (diff == -1 && exists k {:trigger requests[k]} :: 0 <= k < |requests| && requests[k] == r && requests' == requests[..k] + requests[k + 1..])
  }

  lemma CountChanged(requests: seq<Request>, r: Request, diff: int, requests': seq<Request>, who: seq<nat>, t: nat)
    requires QueueChanged(requests, r, diff, requests')
    ensures CountIn(requests', who, t) == CountIn(requests, who, t) + if IsBy(r, who, t) then diff else 0
  {
    if diff == 1 {
      CountAppend(requests, r, who, t);
    } else {
      var k :| 0 <= k < |requests| && requests[k] == r && requests' == requests[..k] + requests[k + 1..];
      CountRemove(requests, k, who, t);
    }
  }

  /** Changing a queue and the counts of the request's sub-thread and thread together keeps the counts right. */
  lemma CountsChanged(locks: seq<Lock>, threadOf: seq<nat>, subCount: seq<int>, threadCount: seq<int>, l: nat, lock: Lock, r: Request, diff: int)
    requires CountsOk(locks, threadOf, subCount, threadCount) && l < |locks|
    requires QueueChanged(locks[l].requests, r, diff, lock.requests)
    requires r.sub < |threadOf| && threadOf[r.sub] < |threadCount|
    ensures CountsOk(locks[l := lock], threadOf, subCount[r.sub := subCount[r.sub] + diff],
                     threadCount[threadOf[r.sub] := threadCount[threadOf[r.sub]] + diff])
  {
    var locks', subs', threads' := locks[l := lock], subCount[r.sub := subCount[r.sub] + diff],
      threadCount[threadOf[r.sub] := threadCount[threadOf[r.sub]] + diff];
    forall s {:trigger subs'[s]} | 0 <= s < |subs'| ensures subs'[s] == Pending(locks', |locks'|, Self(|threadOf|), s) {
      PendingUpdate(locks, |locks|, l, lock, Self(|threadOf|), s);
      CountChanged(locks[l].requests, r, diff, lock.requests, Self(|threadOf|), s);
    }
    forall t {:trigger threads'[t]} | 0 <= t < |threads'| ensures threads'[t] == Pending(locks', |locks'|, threadOf, t) {
      PendingUpdate(locks, |locks|, l, lock, threadOf, t);
      CountChanged(locks[l].requests, r, diff, lock.requests, threadOf, t);
    }
  }

  /** Other changes of a lock do not matter to the counts. */
  lemma CountsSame(locks: seq<Lock>, threadOf: seq<nat>, subCount: seq<int>, threadCount: seq<int>, l: nat, lock: Lock)
    requires CountsOk(locks, threadOf, subCount, threadCount) && l < |locks| && lock.requests == locks[l].requests
    ensures CountsOk(locks[l := lock], threadOf, subCount, threadCount)
  {
    forall s {:trigger subCount[s]} | 0 <= s < |subCount| ensures subCount[s] == Pending(locks[l := lock], |locks|, Self(|threadOf|), s) {
      PendingUpdate(locks, |locks|, l, lock, Self(|threadOf|), s);
    }
    forall t {:trigger threadCount[t]} | 0 <= t < |threadCount| ensures threadCount[t] == Pending(locks[l := lock], |locks|, threadOf, t) {
      PendingUpdate(locks, |locks|, l, lock, threadOf, t);
    }
  }

  /** A party whose count is zero has no request anywhere. */
  lemma NonePending(locks: seq<Lock>, who: seq<nat>, t: nat)
    requires Pending(locks, |locks|, who, t) == 0
    ensures forall l, i {:trigger locks[l].requests[i]} :: 0 <= l < |locks| && 0 <= i < |locks[l].requests| ==> !IsBy(locks[l].requests[i], who, t)
  {
    PendingZero(locks, |locks|, who, t);
    forall l, i {:trigger locks[l].requests[i]} | 0 <= l < |locks| && 0 <= i < |locks[l].requests| ensures !IsBy(locks[l].requests[i], who, t) {
      CountZero(locks[l].requests, who, t);
    }
  }

  /** Without requests the count is zero. */
  lemma PendingNone(locks: seq<Lock>, who: seq<nat>, t: nat)
    requires forall l, i {:trigger locks[l].requests[i]} :: 0 <= l < |locks| && 0 <= i < |locks[l].requests| ==> !IsBy(locks[l].requests[i], who, t)
    ensures Pending(locks, |locks|, who, t) == 0
  {
    forall l {:trigger locks[l]} | 0 <= l < |locks| ensures CountIn(locks[l].requests, who, t) == 0 {
      CountZero(locks[l].requests, who, t);
    }
    PendingZero(locks, |locks|, who, t);
  }

  // Locks in the lists of threads.

  /** Lock l, in place k of list a, is taken out. */
  lemma ListsUnlinked(locks: seq<Lock>, lists: seq<seq<nat>>, l: nat, k: nat, rest: seq<nat>, locks': seq<Lock>)
    requires ListsOk(locks, lists) && l < |locks| && locks[l].live && locks[l].owningThread < |lists|
    requires k < |lists[locks[l].owningThread]| && lists[locks[l].owningThread][k] == l
    requires Removed(lists[locks[l].owningThread], k, rest)
    requires |locks'| == |locks| && !locks'[l].live && forall m {:trigger locks'[m]} :: 0 <= m < |locks| && m != l ==> locks'[m] == locks[m]
    ensures ListsOk(locks', lists[locks[l].owningThread := rest])
  {
    var a := locks[l].owningThread;
    var lists' := lists[a := rest];
    assert Unique(lists[a]);
    forall t, i {:trigger lists'[t][i]} | 0 <= t < |lists'| && 0 <= i < |lists'[t]|
      ensures lists'[t][i] < |locks| && locks'[lists'[t][i]].live && locks'[lists'[t][i]].owningThread == t
    {
      var j := if t == a && i >= k then i + 1 else i;
      assert lists'[t][i] == lists[t][j];
      assert t == a ==> j != k;
    }
    forall t {:trigger lists'[t]} | 0 <= t < |lists'| ensures Unique(lists'[t]) {
      assert Unique(lists[t]);
      if t == a {
        forall i, j {:trigger rest[i], rest[j]} | 0 <= i < j < |rest| ensures rest[i] != rest[j] {
          assert rest[i] == lists[a][if i < k then i else i + 1] && rest[j] == lists[a][if j < k then j else j + 1];
        }
      }
    }
    forall m {:trigger locks'[m]} | 0 <= m < |locks| && locks'[m].live ensures locks'[m].owningThread < |lists'| && Has(lists'[locks'[m].owningThread], m) {
      assert Has(lists[locks[m].owningThread], m);
      var i :| 0 <= i < |lists[locks[m].owningThread]| && lists[locks[m].owningThread][i] == m;
      if locks[m].owningThread == a {
        assert rest[if i < k then i else i - 1] == m;
      } else {
        assert lists'[locks[m].owningThread][i] == m;
      }
    }
  }

  /** Lock l, which was in no list, goes to the back of the list of its thread. */
  lemma ListsLinked(locks: seq<Lock>, lists: seq<seq<nat>>, l: nat, lock: Lock)
    requires ListsOk(locks, lists) && l < |locks| && !locks[l].live && lock.live && lock.owningThread < |lists|
    ensures ListsOk(locks[l := lock], lists[lock.owningThread := lists[lock.owningThread] + [l]])
  {
    var b := lock.owningThread;
    var locks', lists' := locks[l := lock], lists[b := lists[b] + [l]];
    forall t, i {:trigger lists'[t][i]} | 0 <= t < |lists'| && 0 <= i < |lists'[t]|
      ensures lists'[t][i] < |locks| && locks'[lists'[t][i]].live && locks'[lists'[t][i]].owningThread == t
    {
      assert i < |lists[t]| ==> lists'[t][i] == lists[t][i];
    }
    forall t {:trigger lists'[t]} | 0 <= t < |lists'| ensures Unique(lists'[t]) {
      assert Unique(lists[t]);
      assert forall i :: 0 <= i < |lists[t]| ==> lists[t][i] != l;
    }
    forall m {:trigger locks'[m]} | 0 <= m < |locks| && locks'[m].live ensures locks'[m].owningThread < |lists'| && Has(lists'[locks'[m].owningThread], m) {
      if m == l {
        assert lists'[b][|lists[b]|] == l;
      } else {
        assert Has(lists[locks[m].owningThread], m);
        var i :| 0 <= i < |lists[locks[m].owningThread]| && lists[locks[m].owningThread][i] == m;
        assert lists'[locks[m].owningThread][i] == m;
      }
    }
  }

  /** Changes that leave a lock with its thread do not matter to the lists. */
  lemma ListsSame(locks: seq<Lock>, lists: seq<seq<nat>>, l: nat, lock: Lock)
    requires ListsOk(locks, lists) && l < |locks| && lock.live == locks[l].live && lock.owningThread == locks[l].owningThread
    ensures ListsOk(locks[l := lock], lists)
  {
    var locks' := locks[l := lock];
    forall m {:trigger locks'[m]} | 0 <= m < |locks| && locks'[m].live ensures locks'[m].owningThread < |lists| && Has(lists[locks'[m].owningThread], m) {
      assert Has(lists[locks[m].owningThread], m);
    }
  }

  // The state as a value, and its changes.

  datatype State = State(locks: seq<Lock>, lists: seq<seq<nat>>, subCount: seq<int>, threadCount: seq<int>, waiting: seq<bool>, nextTicket: nat)

  /** Everything but lock open is in order; that one may be without an owner. */
  ghost predicate StateOk(threadOf: seq<nat>, st: State, open: nat) {
    && (forall s {:trigger threadOf[s]} :: 0 <= s < |threadOf| ==> threadOf[s] < |st.lists|)
    && |st.threadCount| == |st.lists|
    && LocksOk(st.locks, threadOf, |st.lists|, st.nextTicket, open)
    && CountsOk(st.locks, threadOf, st.subCount, st.threadCount)
    && ListsOk(st.locks, st.lists)
    && WaitingOk(st.threadCount, st.waiting)
    && (open < |st.locks| ==> OpenOk(threadOf, st, st.locks[open]))
  }

  ghost predicate OpenOk(threadOf: seq<nat>, st: State, lock: Lock) {
    && lock.live && lock.owningThread < |st.lists| && OwnersOk(threadOf, lock.owningThread, lock.owners)
    && RequestsOk(threadOf, lock.requests, st.nextTicket)
  }

  /** One queue changes by one request, and the requester's counts with it. */
  ghost function Queued(threadOf: seq<nat>, st: State, l: nat, requests: seq<Request>, sub: nat, diff: int): State
    requires l < |st.locks| && sub < |st.subCount| && sub < |threadOf| && threadOf[sub] < |st.threadCount| == |st.waiting|
  {
    var th := threadOf[sub];
    st.(locks := st.locks[l := st.locks[l].(requests := requests)],
        subCount := st.subCount[sub := st.subCount[sub] + diff],
        threadCount := st.threadCount[th := st.threadCount[th] + diff],
        waiting := st.waiting[th := st.threadCount[th] + diff != 0])
  }

  lemma QueuedOk(threadOf: seq<nat>, st: State, open: nat, l: nat, requests: seq<Request>, r: Request, diff: int)
    requires StateOk(threadOf, st, open) && (open == l || open == |st.locks|) && l < |st.locks| && st.locks[l].live
    requires QueueChanged(st.locks[l].requests, r, diff, requests) && RequestsOk(threadOf, requests, st.nextTicket)
    requires r.sub < |threadOf| && st.threadCount[threadOf[r.sub]] + diff >= 0
    ensures |st.subCount| == |threadOf| && threadOf[r.sub] < |st.threadCount| == |st.waiting|
    ensures StateOk(threadOf, Queued(threadOf, st, l, requests, r.sub, diff), open)
  {
    var lock' := st.locks[l].(requests := requests);
    CountsChanged(st.locks, threadOf, st.subCount, st.threadCount, l, lock', r, diff);
    ListsSame(st.locks, st.lists, l, lock');
    LockReplaced(threadOf, st, open, l, lock');
  }

  lemma RequestTaken(threadOf: seq<nat>, st: State, open: nat, l: nat, k: nat)
    requires StateOk(threadOf, st, open) && (open == l || open == |st.locks|)
    requires l < |st.locks| && k < |st.locks[l].requests|
    ensures var r := st.locks[l].requests[k];
      && r.sub < |threadOf| == |st.subCount| && threadOf[r.sub] < |st.threadCount| == |st.waiting|
      && StateOk(threadOf, Queued(threadOf, st, l, st.locks[l].requests[..k] + st.locks[l].requests[k + 1..], r.sub, -1), open)
  {
    var lock, r := st.locks[l], st.locks[l].requests[k];
    var requests := lock.requests[..k] + lock.requests[k + 1..];
    assert RequestsOk(threadOf, lock.requests, st.nextTicket) && lock.live;
    RequestsShrunk(threadOf, lock.requests, st.nextTicket, k, requests);
    CountNonNegative(threadOf, st, l, k);
    QueuedOk(threadOf, st, open, l, requests, r, -1);
  }

  lemma RequestsShrunk(threadOf: seq<nat>, requests: seq<Request>, nextTicket: nat, k: nat, rest: seq<Request>)
    requires RequestsOk(threadOf, requests, nextTicket) && k < |requests| && rest == requests[..k] + requests[k + 1..]
    ensures RequestsOk(threadOf, rest, nextTicket)
  {
    forall i, j {:trigger rest[i].ticket, rest[j].ticket} | 0 <= i < j < |rest| ensures rest[i].ticket < rest[j].ticket {
      assert rest[i] == requests[if i < k then i else i + 1] && rest[j] == requests[if j < k then j else j + 1];
    }
  }

  /** Whoever has a request in a queue has a positive count. */
  lemma CountNonNegative(threadOf: seq<nat>, st: State, l: nat, k: nat)
    requires CountsOk(st.locks, threadOf, st.subCount, st.threadCount) && l < |st.locks| && k < |st.locks[l].requests|
    requires st.locks[l].requests[k].sub < |threadOf| && threadOf[st.locks[l].requests[k].sub] < |st.threadCount|
    ensures st.threadCount[threadOf[st.locks[l].requests[k].sub]] > 0
  {
    var t := threadOf[st.locks[l].requests[k].sub];
    CountZero(st.locks[l].requests, threadOf, t);
    assert IsBy(st.locks[l].requests[k], threadOf, t);
    PendingZero(st.locks, |st.locks|, threadOf, t);
    assert CountIn(st.locks[l].requests, threadOf, t) != 0;
  }

  lemma LockReplaced(threadOf: seq<nat>, st: State, open: nat, l: nat, lock: Lock)
    requires LocksOk(st.locks, threadOf, |st.lists|, st.nextTicket, open) && l < |st.locks|
    requires st.locks[l].live && lock.live && lock.resource == st.locks[l].resource
    requires l != open ==> LockOk(threadOf, |st.lists|, st.nextTicket, lock)
    ensures LocksOk(st.locks[l := lock], threadOf, |st.lists|, st.nextTicket, open)
  {
    var locks' := st.locks[l := lock];
    forall m, k {:trigger locks'[m].resource, locks'[k].resource} | 0 <= m < k < |locks'| && locks'[m].live && locks'[k].live ensures locks'[m].resource != locks'[k].resource {
      assert st.locks[m].resource != st.locks[k].resource;
    }
  }

  lemma NextTicket(threadOf: seq<nat>, st: State)
    requires StateOk(threadOf, st, |st.locks|)
    ensures StateOk(threadOf, st.(nextTicket := st.nextTicket + 1), |st.locks|)
  {
    forall m {:trigger st.locks[m]} | 0 <= m < |st.locks| ensures LockOk(threadOf, |st.lists|, st.nextTicket + 1, st.locks[m]) {
      assert RequestsOk(threadOf, st.locks[m].requests, st.nextTicket);
    }
  }

  lemma RequestAdded(threadOf: seq<nat>, st: State, l: nat, sub: nat, timeExpire: int, force: bool)
    requires StateOk(threadOf, st, |st.locks|) && l < |st.locks| && st.locks[l].live && sub < |threadOf|
    ensures |st.subCount| == |threadOf| && threadOf[sub] < |st.threadCount| == |st.waiting|
    ensures st.threadCount[threadOf[sub]] >= 0
    ensures var r := Request(sub, timeExpire, force, st.nextTicket);
      StateOk(threadOf, Queued(threadOf, st.(nextTicket := st.nextTicket + 1), l, st.locks[l].requests + [r], sub, 1), |st.locks|)
  {
    var r := Request(sub, timeExpire, force, st.nextTicket);
    assert RequestsOk(threadOf, st.locks[l].requests, st.nextTicket);
    NextTicket(threadOf, st);
    assert st.threadCount[threadOf[sub]] == Pending(st.locks, |st.locks|, threadOf, threadOf[sub]);
    QueuedOk(threadOf, st.(nextTicket := st.nextTicket + 1), |st.locks|, l, st.locks[l].requests + [r], r, 1);
  }

  /** New owners, the same thread. */
  lemma OwnersReplaced(threadOf: seq<nat>, st: State, l: nat, owners: seq<Owner>)
    requires StateOk(threadOf, st, |st.locks|) && l < |st.locks| && st.locks[l].live
    requires OwnersOk(threadOf, st.locks[l].owningThread, owners)
    ensures StateOk(threadOf, st.(locks := st.locks[l := st.locks[l].(owners := owners)]), if owners == [] then l else |st.locks|)
  {
    var lock' := st.locks[l].(owners := owners);
    CountsSame(st.locks, threadOf, st.subCount, st.threadCount, l, lock');
    ListsSame(st.locks, st.lists, l, lock');
    LockReplaced(threadOf, st, if owners == [] then l else |st.locks|, l, lock');
  }

  /** The state after lock l, which is in place k of its thread's list, is given back to the pool. */
  ghost function Freed(st: State, l: nat, k: nat): State
    requires l < |st.locks| && st.locks[l].owningThread < |st.lists| && k < |st.lists[st.locks[l].owningThread]|
  {
    var a := st.locks[l].owningThread;
    st.(locks := st.locks[l := FREE_LOCK], lists := st.lists[a := st.lists[a][..k] + st.lists[a][k + 1..]])
  }

  lemma LockFreed(threadOf: seq<nat>, st: State, l: nat, k: nat)
    requires l < |st.locks| && StateOk(threadOf, st, l) && st.locks[l].requests == []
    requires k < |st.lists[st.locks[l].owningThread]| && st.lists[st.locks[l].owningThread][k] == l
    ensures StateOk(threadOf, Freed(st, l, k), |st.locks|)
  {
    var a := st.locks[l].owningThread;
    var rest := st.lists[a][..k] + st.lists[a][k + 1..];
    CountsSame(st.locks, threadOf, st.subCount, st.threadCount, l, FREE_LOCK);
    ListsUnlinked(st.locks, st.lists, l, k, rest, st.locks[l := FREE_LOCK]);
    var locks' := st.locks[l := FREE_LOCK];
    forall m {:trigger locks'[m]} | 0 <= m < |locks'| ensures LockOk(threadOf, |st.lists|, st.nextTicket, locks'[m]) {
      assert m != l ==> locks'[m] == st.locks[m];
    }
    forall m, i {:trigger locks'[m].resource, locks'[i].resource} | 0 <= m < i < |locks'| && locks'[m].live && locks'[i].live ensures locks'[m].resource != locks'[i].resource {
      assert st.locks[m].resource != st.locks[i].resource;
    }
  }

  /** The state after lock l has gone to sub-thread sub, which becomes its only owner. */
  ghost function Given(threadOf: seq<nat>, st: State, l: nat, k: nat, sub: nat): State
    requires l < |st.locks| && st.locks[l].owningThread < |st.lists| && k < |st.lists[st.locks[l].owningThread]|
    requires sub < |threadOf| && threadOf[sub] < |st.lists|
  {
    var lists := Freed(st, l, k).lists;
    st.(locks := st.locks[l := st.locks[l].(owningThread := threadOf[sub], owners := [Owner(sub, 1)])],
        lists := lists[threadOf[sub] := lists[threadOf[sub]] + [l]])
  }

  lemma LockGiven(threadOf: seq<nat>, st: State, l: nat, k: nat, sub: nat)
    requires l < |st.locks| && StateOk(threadOf, st, l) && sub < |threadOf|
    requires k < |st.lists[st.locks[l].owningThread]| && st.lists[st.locks[l].owningThread][k] == l
    ensures StateOk(threadOf, Given(threadOf, st, l, k, sub), |st.locks|)
  {
    var a := st.locks[l].owningThread;
    var rest := st.lists[a][..k] + st.lists[a][k + 1..];
    var lock' := st.locks[l].(owningThread := threadOf[sub], owners := [Owner(sub, 1)]);
    CountsSame(st.locks, threadOf, st.subCount, st.threadCount, l, lock');
    ListsUnlinked(st.locks, st.lists, l, k, rest, st.locks[l := FREE_LOCK]);
    ListsLinked(st.locks[l := FREE_LOCK], st.lists[a := rest], l, lock');
    assert st.locks[l := FREE_LOCK][l := lock'] == st.locks[l := lock'];
    var locks' := st.locks[l := lock'];
    forall m {:trigger locks'[m]} | 0 <= m < |locks'| ensures LockOk(threadOf, |st.lists|, st.nextTicket, locks'[m]) {
      assert m != l ==> locks'[m] == st.locks[m];
    }
    forall m, i {:trigger locks'[m].resource, locks'[i].resource} | 0 <= m < i < |locks'| && locks'[m].live && locks'[i].live ensures locks'[m].resource != locks'[i].resource {
      assert st.locks[m].resource != st.locks[i].resource;
    }
  }

  /** A free slot becomes a lock on a resource that had none. */
  lemma LockCreated(threadOf: seq<nat>, st: State, l: nat, resource: nat, sub: nat)
    requires StateOk(threadOf, st, |st.locks|) && l < |st.locks| && !st.locks[l].live && sub < |threadOf|
    requires forall m {:trigger st.locks[m]} :: 0 <= m < |st.locks| && st.locks[m].live ==> st.locks[m].resource != resource
    ensures threadOf[sub] < |st.lists|
    ensures var th := threadOf[sub];
      StateOk(threadOf, st.(locks := st.locks[l := Lock(true, resource, th, [Owner(sub, 1)], [])],
                            lists := st.lists[th := st.lists[th] + [l]]), |st.locks|)
  {
    var lock' := Lock(true, resource, threadOf[sub], [Owner(sub, 1)], []);
    assert st.locks[l] == FREE_LOCK;
    CountsSame(st.locks, threadOf, st.subCount, st.threadCount, l, lock');
    ListsLinked(st.locks, st.lists, l, lock');
    var locks' := st.locks[l := lock'];
    forall m, i {:trigger locks'[m].resource, locks'[i].resource} | 0 <= m < i < |locks'| && locks'[m].live && locks'[i].live ensures locks'[m].resource != locks'[i].resource {
      assert m != l && i != l ==> st.locks[m].resource != st.locks[i].resource;
    }
  }
}
