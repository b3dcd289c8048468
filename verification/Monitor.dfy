/** Monitors: entering and leaving a lock, handing it on, and giving up requests. */
module Monitor {
  import opened NodeList
  import opened MonitorState

  datatype Status = Ok | Waiting | SynchronizationException | OutOfMemory

  /** The engine's locks and, by number, the sub-threads and threads they belong to. */
  class MonitorEngine {
    /** The thread of each sub-thread. */
    const threadOf: seq<nat>
    var locks: seq<Lock>
    /** For each thread, its locks. */
    var lists: seq<seq<nat>>
    var subCount: seq<int>
    var threadCount: seq<int>
    var waiting: seq<bool>
    var nextTicket: nat

    ghost function St(): State
      reads this
    {
      State(locks, lists, subCount, threadCount, waiting, nextTicket)
    }

    ghost predicate Valid()
      reads this
    {
      StateOk(threadOf, St(), |locks|)
    }

    constructor (threadOf: seq<nat>, threads: nat, poolSize: nat)
      requires forall s :: 0 <= s < |threadOf| ==> threadOf[s] < threads
      ensures Valid() && this.threadOf == threadOf && |threadCount| == threads && |locks| == poolSize
      ensures forall l :: 0 <= l < poolSize ==> !locks[l].live
    {
      this.threadOf := threadOf;
      locks := seq(poolSize, _ => FREE_LOCK);
      lists := seq(threads, _ => []);
      subCount := seq(|threadOf|, _ => 0);
      threadCount := seq(threads, _ => 0);
      waiting := seq(threads, _ => false);
      nextTicket := 0;
      new;
      forall s | 0 <= s < |subCount| ensures Pending(locks, |locks|, Self(|threadOf|), s) == 0 { PendingNone(locks, Self(|threadOf|), s); }
      forall t | 0 <= t < |threadCount| ensures Pending(locks, |locks|, threadOf, t) == 0 { PendingNone(locks, threadOf, t); }
    }

    method ChangeLockRequestCount(sth: nat, diff: int) returns (none: bool)
      requires |subCount| == |threadOf| && sth < |threadOf| && threadOf[sth] < |threadCount| == |waiting|
      modifies this`subCount, this`threadCount, this`waiting
      ensures subCount == old(subCount)[sth := old(subCount)[sth] + diff]
      ensures threadCount == old(threadCount)[threadOf[sth] := old(threadCount)[threadOf[sth]] + diff]
      ensures none <==> threadCount[threadOf[sth]] == 0
      ensures waiting == old(waiting)[threadOf[sth] := !none]
    {
      var th := threadOf[sth];
      subCount := subCount[sth := subCount[sth] + diff];
      threadCount := threadCount[th := threadCount[th] + diff];
      none := threadCount[th] == 0;
      waiting := waiting[th := !none];
    }

    /** The thread that made a request. */
    method Requester(l: nat, k: nat) returns (th: nat)
      requires Valid() && l < |locks| && k < |locks[l].requests|
      ensures locks[l].requests[k].sub < |threadOf| && th == threadOf[locks[l].requests[k].sub] && th < |threadCount|
    {
      assert RequestsOk(threadOf, locks[l].requests, nextTicket);
      th := threadOf[locks[l].requests[k].sub];
    }

    /** Takes a request out of a queue. none tells that the requester's thread waits for nothing any more. */
    method TakeRequest(l: nat, k: nat, ghost open: nat) returns (none: bool)
      requires StateOk(threadOf, St(), open) && l < |locks| && k < |locks[l].requests| && (open == l || open == |locks|)
      modifies this`locks, this`subCount, this`threadCount, this`waiting
      ensures StateOk(threadOf, St(), open)
      ensures locks == old(locks)[l := old(locks)[l].(requests := old(locks)[l].requests[..k] + old(locks)[l].requests[k + 1..])]
      ensures old(locks)[l].requests[k].sub < |threadOf| && threadOf[old(locks)[l].requests[k].sub] < |threadCount|
      ensures none <==> threadCount[threadOf[old(locks)[l].requests[k].sub]] == 0
      ensures var th := threadOf[old(locks)[l].requests[k].sub];
        th < |old(threadCount)| && threadCount == old(threadCount)[th := old(threadCount)[th] - 1]
    {
      RequestTaken(threadOf, St(), open, l, k);
      var lock, req := locks[l], locks[l].requests[k];
      ghost var st := Queued(threadOf, St(), l, lock.requests[..k] + lock.requests[k + 1..], req.sub, -1);
      locks := locks[l := lock.(requests := lock.requests[..k] + lock.requests[k + 1..])];
      none := ChangeLockRequestCount(req.sub, -1);
      assert St() == st;
    }

    /** Queues a request and stops the requester. */
    method CreateRequest(l: nat, sth: nat, timeExpire: int, force: bool) returns (r: Status)
      requires Valid() && l < |locks| && locks[l].live && sth < |threadOf|
      modifies this`locks, this`subCount, this`threadCount, this`waiting, this`nextTicket
      ensures Valid() && r == Waiting && threadOf[sth] < |waiting| && waiting[threadOf[sth]]
      ensures locks == old(locks)[l := old(locks)[l].(requests := old(locks)[l].requests + [Request(sth, timeExpire, force, old(nextTicket))])]
      ensures nextTicket == old(nextTicket) + 1
    {
      RequestAdded(threadOf, St(), l, sth, timeExpire, force);
      ghost var st := St();
      var lock := locks[l];
      locks := locks[l := lock.(requests := lock.requests + [Request(sth, timeExpire, force, nextTicket)])];
      nextTicket := nextTicket + 1;
      var none := ChangeLockRequestCount(sth, 1);
      assert threadCount[threadOf[sth]] > 0;
      r := Waiting;
    }

    /** Nobody owns the lock any more: it goes to the first in the queue, or back to the pool. */
    method ChangeOwner(l: nat) returns (ghost at: nat)
      requires l < |locks| && StateOk(threadOf, St(), l) && locks[l].owners == []
      modifies this`locks, this`lists, this`subCount, this`threadCount, this`waiting
      ensures Valid()
      ensures locks == old(locks)[l := NextOwner(threadOf, old(locks)[l])]
      ensures Moved(old(lists), old(locks)[l].owningThread, at, l, locks[l], lists)
    {
      var th := locks[l].owningThread;
      assert Has(lists[th], l);
      var k := Position(lists[th], l);
      at := k;
      if locks[l].requests == [] {
        LockFreed(threadOf, St(), l, k);
        lists := lists[th := lists[th][..k] + lists[th][k + 1..]];
        locks := locks[l := FREE_LOCK];
      } else {
        HandOver(l, k);
      }
    }

    method HandOver(l: nat, k: nat)
      requires l < |locks| && StateOk(threadOf, St(), l) && locks[l].requests != []
      requires locks[l].owningThread < |lists| && k < |lists[locks[l].owningThread]| && lists[locks[l].owningThread][k] == l
      modifies this`locks, this`lists, this`subCount, this`threadCount, this`waiting
      ensures Valid()
      ensures locks == old(locks)[l := NextOwner(threadOf, old(locks)[l])]
      ensures Moved(old(lists), old(locks)[l].owningThread, k, l, locks[l], lists)
    {
      var th, sth := locks[l].owningThread, locks[l].requests[0].sub;
      ghost var lock := locks[l];
      var none := TakeRequest(l, 0, l);
      assert lock.requests[..0] + lock.requests[1..] == lock.requests[1..];
      LockGiven(threadOf, St(), l, k, sth);
      var to := threadOf[sth];
      lists := lists[th := lists[th][..k] + lists[th][k + 1..]];
      lists := lists[to := lists[to] + [l]];
      locks := locks[l := locks[l].(owningThread := to, owners := [Owner(sth, 1)])];
    }

    /** One more entry by a sub-thread of the owning thread. */
    method Enter(owners: seq<Owner>, sth: nat, ghost th: nat) returns (owners': seq<Owner>)
      requires OwnersOk(threadOf, th, owners) && sth < |threadOf| && threadOf[sth] == th
      ensures OwnersOk(threadOf, th, owners') && owners' != []
      ensures forall s {:trigger Depth(owners', s)} :: Depth(owners', s) == Depth(owners, s) + if s == sth then 1 else 0
    {
      var i := 0;
      while i < |owners|
        invariant i <= |owners| && forall j {:trigger owners[j]} :: 0 <= j < i ==> owners[j].sub != sth
      {
        if owners[i].sub == sth {
          var o := owners[i].(recursion := owners[i].recursion + 1);
          owners' := owners[i := o];
          forall s {:trigger Depth(owners', s)} ensures Depth(owners', s) == Depth(owners, s) + if s == sth then 1 else 0 {
            DepthUpdate(owners, i, o, s);
          }
          return;
        }
        i := i + 1;
      }
      owners' := [Owner(sth, 1)] + owners;
      assert owners'[1..] == owners;
    }

    /** One entry less; found is false if the sub-thread has not entered. */
    method Leave(owners: seq<Owner>, sth: nat, ghost th: nat) returns (found: bool, owners': seq<Owner>)
      requires OwnersOk(threadOf, th, owners)
      ensures found <==> Depth(owners, sth) > 0
      ensures !found ==> owners' == owners
      ensures found ==> OwnersOk(threadOf, th, owners') && forall s {:trigger Depth(owners', s)} :: Depth(owners', s) == Depth(owners, s) - if s == sth then 1 else 0
    {
      var i := 0;
      while i < |owners|
        invariant i <= |owners| && forall j {:trigger owners[j]} :: 0 <= j < i ==> owners[j].sub != sth
      {
        if owners[i].sub == sth {
          DepthAt(threadOf, th, owners, i);
          found := true;
          if owners[i].recursion == 1 {
            owners' := owners[..i] + owners[i + 1..];
            forall s {:trigger Depth(owners', s)} ensures Depth(owners', s) == Depth(owners, s) - if s == sth then 1 else 0 {
              DepthRemove(owners, i, s);
            }
            OwnersShrunk(threadOf, th, owners, i, owners');
          } else {
            var o := owners[i].(recursion := owners[i].recursion - 1);
            owners' := owners[i := o];
            forall s {:trigger Depth(owners', s)} ensures Depth(owners', s) == Depth(owners, s) - if s == sth then 1 else 0 {
              DepthUpdate(owners, i, o, s);
            }
          }
          return;
        }
        i := i + 1;
      }
      DepthNone(owners, sth);
      found, owners' := false, owners;
    }

    /** Enters a lock of the caller's thread, or queues a request. */
    method IncrementOwnership(l: nat, sth: nat, timeExpire: int, force: bool) returns (r: Status, ghost owners: seq<Owner>)
      requires Valid() && l < |locks| && locks[l].live && sth < |threadOf|
      modifies this`locks, this`subCount, this`threadCount, this`waiting, this`nextTicket
      ensures Valid()
      ensures r == if old(locks)[l].owningThread == threadOf[sth] then Ok else Waiting
      ensures r == Ok ==> Entered(old(locks)[l].owners, sth, owners) && locks == old(locks)[l := old(locks)[l].(owners := owners)]
      ensures r == Ok ==> subCount == old(subCount) && threadCount == old(threadCount)
      ensures r == Waiting ==> threadOf[sth] < |waiting| && waiting[threadOf[sth]]
      ensures r == Waiting ==>
        locks == old(locks)[l := old(locks)[l].(requests := old(locks)[l].requests + [Request(sth, timeExpire, force, old(nextTicket))])]
    {
      owners := locks[l].owners;
      if locks[l].owningThread == threadOf[sth] {
        var owners' := Enter(locks[l].owners, sth, threadOf[sth]);
        owners := owners';
        OwnersReplaced(threadOf, St(), l, owners');
        locks := locks[l := locks[l].(owners := owners')];
        r := Ok;
      } else {
        r := CreateRequest(l, sth, timeExpire, force);
      }
    }

    /** Leaves a lock; the last to leave hands it on. */
    method DecrementOwnership(l: nat, sth: nat) returns (r: Status, ghost owners: seq<Owner>)
      requires Valid() && l < |locks| && locks[l].live && sth < |threadOf|
      modifies this`locks, this`lists, this`subCount, this`threadCount, this`waiting
      ensures Valid()
      ensures r == if Depth(old(locks)[l].owners, sth) > 0 then Ok else SynchronizationException
      ensures r == SynchronizationException ==> locks == old(locks) && subCount == old(subCount) && threadCount == old(threadCount)
      ensures r == Ok ==> Left(old(locks)[l].owners, sth, owners)
      ensures r == Ok ==> locks == old(locks)[l := Settled(threadOf, old(locks)[l].(owners := owners))]
    {
      var lock := locks[l];
      owners := lock.owners;
      if lock.owningThread == threadOf[sth] {
        var found, owners' := Leave(lock.owners, sth, threadOf[sth]);
        if found {
          owners := owners';
          OwnersReplaced(threadOf, St(), l, owners');
          locks := locks[l := lock.(owners := owners')];
          if owners' == [] {
            ghost var at := ChangeOwner(l);
          }
          return Ok, owners;
        }
      } else {
        NoForeignOwner(threadOf, lock.owningThread, lock.owners, sth);
      }
      r := SynchronizationException;
    }

    /** Takes the requests of a sub-thread out of a queue. It stops as soon as the sub-thread's thread has none left
        anywhere. */
    method PurgeQueue(l: nat, sth: nat) returns (stopped: bool)
      requires Valid() && l < |locks| && locks[l].live && sth < |threadOf|
      modifies this`locks, this`subCount, this`threadCount, this`waiting
      ensures Valid()
      ensures locks == old(locks)[l := old(locks)[l].(requests := Keep(old(locks)[l].requests, BySub(sth)))]
      ensures stopped ==> threadOf[sth] < |threadCount| && threadCount[threadOf[sth]] == 0
    {
      ghost var before, was := locks, locks[l].requests;
      ghost var j: nat, queue := 0, was;
      var k: nat := 0;
      stopped := false;
      KeepStart(was, BySub(sth));
      while k < |locks[l].requests| && !stopped
        invariant Valid() && KeptTo(was, j, BySub(sth), queue, k)
        invariant locks == before[l := before[l].(requests := queue)]
        invariant stopped ==> threadOf[sth] < |threadCount| && threadCount[threadOf[sth]] == 0
        decreases |was| - j, !stopped
      {
        k, stopped, queue := PurgeAt(l, k, sth, was, j, before, queue);
        j := j + 1;
      }
      PurgeDone(threadOf, St(), l, was, j, BySub(sth), k, stopped, sth);
    }

    /** One request of the queue. */
    method PurgeAt(l: nat, k: nat, sth: nat, ghost was: seq<Request>, ghost j: nat,
                   ghost before: seq<Lock>, ghost queue: seq<Request>)
      returns (next: nat, stopped: bool, ghost queue': seq<Request>)
      requires Valid() && l < |before| && before[l].live && sth < |threadOf|
      requires locks == before[l := before[l].(requests := queue)]
      requires k < |queue| && KeptTo(was, j, BySub(sth), queue, k)
      modifies this`locks, this`subCount, this`threadCount, this`waiting
      ensures Valid() && locks == before[l := before[l].(requests := queue')]
      ensures KeptTo(was, j + 1, BySub(sth), queue', next)
      ensures stopped ==> threadOf[sth] < |threadCount| && threadCount[threadOf[sth]] == 0
    {
      KeepStep(was, j, BySub(sth), queue, k);
      next, stopped, queue' := k, false, queue;
      if locks[l].requests[k].sub == sth {
        queue' := queue[..k] + queue[k + 1..];
        var none := TakeRequest(l, k, |locks|);
        stopped := none;
      } else {
        next := k + 1;
      }
    }

    /** The same for all queues of one thread's locks. done are the locks that have been seen to. */
    method PurgeThread(t: nat, sth: nat, ghost was: seq<Lock>, ghost done: set<nat>)
      returns (stopped: bool, ghost done': set<nat>)
      requires Valid() && sth < |threadOf| && t < |lists| && PurgedSome(was, BySub(sth), locks, done)
      modifies this`locks, this`subCount, this`threadCount, this`waiting
      ensures Valid() && PurgedSome(was, BySub(sth), locks, done') && done <= done'
      ensures stopped ==> threadOf[sth] < |threadCount| && threadCount[threadOf[sth]] == 0
      ensures !stopped ==> SeenTo(lists[t], |lists[t]|, done')
    {
      var i := 0;
      done', stopped := done, false;
      while i < |lists[t]| && !stopped
        invariant Valid() && i <= |lists[t]| && PurgedSome(was, BySub(sth), locks, done') && done <= done'
        invariant SeenTo(lists[t], i, done')
        invariant stopped ==> threadOf[sth] < |threadCount| && threadCount[threadOf[sth]] == 0
        decreases |lists[t]| - i
      {
        stopped := PurgeNext(t, i, sth, was, done');
        SeenNext(lists[t], i, done');
        done' := done' + {lists[t][i]};
        i := i + 1;
      }
    }

    method PurgeNext(t: nat, i: nat, sth: nat, ghost was: seq<Lock>, ghost done: set<nat>)
      returns (stopped: bool)
      requires Valid() && sth < |threadOf| && t < |lists| && i < |lists[t]| && PurgedSome(was, BySub(sth), locks, done)
      modifies this`locks, this`subCount, this`threadCount, this`waiting
      ensures Valid() && PurgedSome(was, BySub(sth), locks, done + {lists[t][i]})
      ensures stopped ==> threadOf[sth] < |threadCount| && threadCount[threadOf[sth]] == 0
    {
      var l := lists[t][i];
      ghost var before := locks;
      stopped := PurgeQueue(l, sth);
      OnePurged(was, BySub(sth), before, l, locks, done);
    }

    /** The same for all threads. */
    method PurgeAll(sth: nat)
      requires Valid() && sth < |threadOf|
      modifies this`locks, this`subCount, this`threadCount, this`waiting
      ensures Valid() && Purged(old(locks), BySub(sth), locks)
    {
      ghost var was := locks;
      ghost var done := {};
      var t := 0;
      while t < |lists|
        invariant Valid() && t <= |lists| && PurgedSome(was, BySub(sth), locks, done)
        invariant forall m {:trigger lists[m]} :: 0 <= m < t ==> SeenTo(lists[m], |lists[m]|, done)
      {
        var stopped: bool;
        ghost var before := done;
        stopped, done := PurgeThread(t, sth, was, done);
        forall m | 0 <= m < t ensures SeenTo(lists[m], |lists[m]|, done) { SeenMore(lists[m], |lists[m]|, before, done); }
        if stopped {
          NonePending(locks, threadOf, threadOf[sth]);
          NothingToPurge(was, BySub(sth), locks, done, threadOf, sth);
          return;
        }
        t := t + 1;
      }
      AllPurged(was, BySub(sth), locks, done, lists);
    }

    // The operations of the engine.

    /** The lock on a resource. */
    method FindLockObject(resource: nat) returns (found: bool, l: nat)
      requires Valid()
      ensures found ==> l < |locks| && locks[l].live && locks[l].resource == resource
      ensures !found ==> forall m {:trigger locks[m]} :: 0 <= m < |locks| && locks[m].live ==> locks[m].resource != resource
    {
      var t := 0;
      l := 0;
      while t < |lists|
        invariant t <= |lists|
        invariant forall m, k {:trigger lists[m][k]} :: 0 <= m < t && 0 <= k < |lists[m]| ==> locks[lists[m][k]].resource != resource
      {
        var i := 0;
        while i < |lists[t]|
          invariant i <= |lists[t]|
          invariant forall k {:trigger lists[t][k]} :: 0 <= k < i ==> locks[lists[t][k]].resource != resource
        {
          if locks[lists[t][i]].resource == resource { return true, lists[t][i]; }
          i := i + 1;
        }
        t := t + 1;
      }
      forall m {:trigger locks[m]} | 0 <= m < |locks| && locks[m].live ensures locks[m].resource != resource {
        assert Has(lists[locks[m].owningThread], m);
      }
      found := false;
    }

    /** Monitor.Enter. A new lock is owned at once, a lock of the caller's own thread is entered once more,
        for any other lock a request is queued. */
    method LockObject(resource: nat, sth: nat, timeExpire: int, force: bool) returns (r: Status, l: nat, ghost owners: seq<Owner>)
      requires Valid() && sth < |threadOf|
      modifies this`locks, this`lists, this`subCount, this`threadCount, this`waiting, this`nextTicket
      ensures Valid()
      ensures r == OutOfMemory ==> locks == old(locks) && forall m {:trigger locks[m]} :: 0 <= m < |locks| ==> locks[m].live && locks[m].resource != resource
      ensures r != OutOfMemory ==> l < |old(locks)| && (old(locks)[l].live ==> old(locks)[l].resource == resource)
      ensures r == Ok ==> Entered(old(locks)[l].owners, sth, owners) && (old(locks)[l].live ==> old(locks)[l].owningThread == threadOf[sth])
      ensures r == Ok ==> locks == old(locks)[l := Lock(true, resource, threadOf[sth], owners, old(locks)[l].requests)]
      ensures r == Waiting ==> threadOf[sth] < |waiting| && waiting[threadOf[sth]] && old(locks)[l].live && old(locks)[l].owningThread != threadOf[sth]
      ensures r == Waiting ==>
        locks == old(locks)[l := old(locks)[l].(requests := old(locks)[l].requests + [Request(sth, timeExpire, force, old(nextTicket))])]
      ensures r == Ok || r == Waiting || r == OutOfMemory
    {
      var found: bool;
      owners := [];
      found, l := FindLockObject(resource);
      if found {
        r, owners := IncrementOwnership(l, sth, timeExpire, force);
        return;
      }
      l := 0;
      while l < |locks| && locks[l].live
        invariant l <= |locks| && forall m {:trigger locks[m]} :: 0 <= m < l ==> locks[m].live
      {
        l := l + 1;
      }
      if l == |locks| { return OutOfMemory, l, owners; }
      LockCreated(threadOf, St(), l, resource, sth);
      var th := threadOf[sth];
      owners := [Owner(sth, 1)];
      locks := locks[l := Lock(true, resource, th, [Owner(sth, 1)], [])];
      lists := lists[th := lists[th] + [l]];
      r := Ok;
    }

    /** Monitor.Exit. */
    method UnlockObject(resource: nat, sth: nat) returns (r: Status, l: nat, ghost owners: seq<Owner>)
      requires Valid() && sth < |threadOf|
      modifies this`locks, this`lists, this`subCount, this`threadCount, this`waiting
      ensures Valid()
      ensures r == Ok || r == SynchronizationException
      ensures r == SynchronizationException ==> locks == old(locks)
      ensures r == SynchronizationException ==>
        forall m {:trigger locks[m]} :: 0 <= m < |locks| && locks[m].live && locks[m].resource == resource ==> Depth(locks[m].owners, sth) == 0
      ensures r == Ok ==> l < |old(locks)| && old(locks)[l].live && old(locks)[l].resource == resource && Depth(old(locks)[l].owners, sth) > 0
      ensures r == Ok ==> Left(old(locks)[l].owners, sth, owners)
      ensures r == Ok ==> locks == old(locks)[l := Settled(threadOf, old(locks)[l].(owners := owners))]
    {
      var found: bool;
      owners := [];
      found, l := FindLockObject(resource);
      if !found { return SynchronizationException, l, owners; }
      assert forall m {:trigger locks[m]} :: 0 <= m < |locks| && locks[m].live && m != l ==> locks[m].resource != locks[l].resource;
      r, owners := DecrementOwnership(l, sth);
    }

    /** Withdraws all requests of a sub-thread. */
    method DeleteLockRequests(sth: nat)
      requires Valid() && sth < |threadOf|
      modifies this`locks, this`subCount, this`threadCount, this`waiting
      ensures Valid() && Purged(old(locks), BySub(sth), locks)
      ensures subCount[sth] == 0 && (old(subCount)[sth] == 0 ==> locks == old(locks))
    {
      ghost var was := locks;
      if subCount[sth] != 0 {
        PurgeAll(sth);
      } else {
        NonePending(locks, Self(|threadOf|), sth);
        NoneBySub(was, sth, |threadOf|);
      }
      PurgedNone(was, sth, locks, |threadOf|);
    }

    /** Drops the entries of a sub-thread. moved tells that the lock has left its place in the list. */
    method DestroyOwner(l: nat, sth: nat, ghost i: nat) returns (moved: bool, ghost owners: seq<Owner>)
      requires Valid() && l < |locks| && locks[l].live && sth < |threadOf|
      requires i < |lists[locks[l].owningThread]| && lists[locks[l].owningThread][i] == l
      modifies this`locks, this`lists, this`subCount, this`threadCount, this`waiting
      ensures Valid()
      ensures owners == WithoutSub(old(locks)[l].owners, sth)
      ensures forall s {:trigger Depth(owners, s)} :: Depth(owners, s) == if s == sth then 0 else Depth(old(locks)[l].owners, s)
      ensures locks == old(locks)[l := Settled(threadOf, old(locks)[l].(owners := owners))]
      ensures moved <==> owners == []
      ensures if moved then Moved(old(lists), old(locks)[l].owningThread, i, l, locks[l], lists) else lists == old(lists)
    {
      var lock := locks[l];
      var owners' := DropOwner(lock.owners, sth, lock.owningThread);
      owners := owners';
      OwnersReplaced(threadOf, St(), l, owners');
      locks := locks[l := lock.(owners := owners')];
      moved := owners' == [];
      if moved {
        ghost var at := ChangeOwner(l);
        assert Unique(old(lists)[lock.owningThread]);
      }
    }

    method DropOwner(owners: seq<Owner>, sth: nat, ghost th: nat) returns (owners': seq<Owner>)
      requires OwnersOk(threadOf, th, owners)
      ensures OwnersOk(threadOf, th, owners') && owners' == WithoutSub(owners, sth)
      ensures forall s {:trigger Depth(owners', s)} :: Depth(owners', s) == if s == sth then 0 else Depth(owners, s)
    {
      var i := 0;
      while i < |owners|
        invariant i <= |owners| && forall j {:trigger owners[j]} :: 0 <= j < i ==> owners[j].sub != sth
      {
        if owners[i].sub == sth {
          owners' := owners[..i] + owners[i + 1..];
          WithoutSubAt(owners, sth, i);
          OwnersShrunk(threadOf, th, owners, i, owners');
          DepthAt(threadOf, th, owners, i);
          forall s {:trigger Depth(owners', s)} ensures Depth(owners', s) == if s == sth then 0 else Depth(owners, s) {
            DepthRemove(owners, i, s);
          }
          return;
        }
        i := i + 1;
      }
      DepthNone(owners, sth);
      WithoutSubNone(owners, sth);
      owners' := owners;
    }

    /** One lock of the walk below. */
    method ReleaseNext(sth: nat, i: nat, ghost was: State) returns (next: nat, last: bool)
      requires StateOk(threadOf, was, |was.locks|) && Walk(threadOf, was, sth, locks, lists, i, false)
      requires Valid() && sth < |threadOf| && threadOf[sth] < |lists| && i < |lists[threadOf[sth]]|
      modifies this`locks, this`lists, this`subCount, this`threadCount, this`waiting
      ensures Valid() && |lists| == |old(lists)| && next <= |lists[threadOf[sth]]| && |locks| == |old(locks)|
      ensures !last ==> next < |lists[threadOf[sth]]|
      ensures 0 <= threadCount[threadOf[sth]] <= old(threadCount)[threadOf[sth]]
      ensures threadCount[threadOf[sth]] == old(threadCount)[threadOf[sth]] ==>
        |lists[threadOf[sth]]| - next < |old(lists)[threadOf[sth]]| - i
      ensures old(subCount)[sth] == 0 ==> subCount[sth] == 0
      ensures Walk(threadOf, was, sth, locks, lists, next, last)
    {
      var th := threadOf[sth];
      var l := lists[th][i];
      last := i + 1 == |lists[th]|;
      ghost var before := St();
      ghost var owners: seq<Owner>;
      var moved: bool;
      moved, owners := DestroyOwner(l, sth, i);
      next := if moved then i else i + 1;
      ReleaseMeasure(threadOf, before, l, sth, i, owners, St());
      WalkNext(threadOf, was, before, l, sth, i, owners, St(), next, last);
    }

    /** Gives up all locks of a sub-thread. The list of locks changes while it is being walked: a lock that is handed
        to another sub-thread of the same thread comes up again. */
    method ReleaseLocks(sth: nat)
      requires Valid() && sth < |threadOf|
      modifies this`locks, this`lists, this`subCount, this`threadCount, this`waiting
      ensures Valid() && |locks| == |old(locks)|
      ensures LeavesFor(old(locks), sth) ==> forall l {:trigger locks[l]} :: 0 <= l < |locks| ==>
        locks[l] == Abandoned(threadOf, old(locks)[l], sth) && Depth(locks[l].owners, sth) == 0
      ensures threadOf[sth] < |old(lists)| && (OnlyLastMoves(old(locks), old(lists), threadOf[sth], sth) && HandsBack(old(locks)[Last(old(lists)[threadOf[sth]])], sth) ==>
        locks[Last(old(lists)[threadOf[sth]])].owners == [Owner(sth, 1)])
    {
      ghost var was := St();
      WalkStart(threadOf, was, sth);
      var th := threadOf[sth];
      var i: nat, last := 0, lists[th] == [];
      while !last
        invariant Valid() && th < |lists| && threadCount[th] >= 0 && i <= |lists[th]| && (!last ==> i < |lists[th]|)
        invariant Walk(threadOf, was, sth, locks, lists, i, last)
        decreases !last, threadCount[th], |lists[th]| - i
      {
        i, last := ReleaseNext(sth, i, was);
      }
      WalkDone(threadOf, was, sth, St(), i);
    }

    /** Gives up all locks and requests of a sub-thread that goes away. */
    method DestroySubThread(sth: nat)
      requires Valid() && sth < |threadOf|
      modifies this`locks, this`lists, this`subCount, this`threadCount, this`waiting
      ensures Valid() && subCount[sth] == 0 && |locks| == |old(locks)|
      ensures LeavesFor(old(locks), sth) ==> forall l {:trigger locks[l]} :: 0 <= l < |locks| ==>
        locks[l] == Purge(Abandoned(threadOf, old(locks)[l], sth), BySub(sth)) && Depth(locks[l].owners, sth) == 0
      ensures old(subCount)[sth] == 0 ==> LeavesFor(old(locks), sth)
      ensures threadOf[sth] < |old(lists)| && (OnlyLastMoves(old(locks), old(lists), threadOf[sth], sth) && HandsBack(old(locks)[Last(old(lists)[threadOf[sth]])], sth) ==>
        locks[Last(old(lists)[threadOf[sth]])].owners == [Owner(sth, 1)])
    {
      if subCount[sth] == 0 { NoneHandsBack(threadOf, St(), sth); }
      ReleaseLocks(sth);
      DeleteLockRequests(sth);
    }
  }

  /** The first n locks of a list have no entry of the sub-thread. */
  ghost predicate Released(locks: seq<Lock>, list: seq<nat>, sth: nat, n: nat) {
    forall k {:trigger list[k]} :: 0 <= k < n && k < |list| ==> list[k] < |locks| && Depth(locks[list[k]].owners, sth) == 0
  }

  // What a sub-thread leaves behind.

  function WithoutSub(owners: seq<Owner>, sth: nat): seq<Owner> {
    if owners == [] then [] else if owners[0].sub == sth then owners[1..] else [owners[0]] + WithoutSub(owners[1..], sth)
  }

  lemma {:induction false} WithoutSubAt(owners: seq<Owner>, sth: nat, k: nat)
    requires k < |owners| && owners[k].sub == sth && forall i {:trigger owners[i]} :: 0 <= i < k ==> owners[i].sub != sth
    ensures WithoutSub(owners, sth) == owners[..k] + owners[k + 1..]
  {
    if k > 0 {
      WithoutSubAt(owners[1..], sth, k - 1);
      assert owners[..k] + owners[k + 1..] == [owners[0]] + (owners[1..][..k - 1] + owners[1..][k..]);
    }
  }

  lemma {:induction false} WithoutSubNone(owners: seq<Owner>, sth: nat)
    requires forall i {:trigger owners[i]} :: 0 <= i < |owners| ==> owners[i].sub != sth
    ensures WithoutSub(owners, sth) == owners
  {
    if owners != [] { WithoutSubNone(owners[1..], sth); }
  }

  lemma {:induction false} WithoutSubGone(owners: seq<Owner>, sth: nat)
    requires forall i, j {:trigger owners[i].sub, owners[j].sub} :: 0 <= i < j < |owners| ==> owners[i].sub != owners[j].sub
    ensures forall i {:trigger WithoutSub(owners, sth)[i]} :: 0 <= i < |WithoutSub(owners, sth)| ==> WithoutSub(owners, sth)[i].sub != sth
  {
    if owners != [] && owners[0].sub == sth {
      forall i {:trigger owners[1..][i]} | 0 <= i < |owners| - 1 ensures owners[1..][i].sub != sth { assert owners[1..][i] == owners[i + 1]; }
    } else if owners != [] {
      WithoutSubGone(owners[1..], sth);
    }
  }

  /** What becomes of a lock when a sub-thread that has no request queued goes away. */
  function Abandoned(threadOf: seq<nat>, lock: Lock, sth: nat): Lock {
    Settled(threadOf, lock.(owners := WithoutSub(lock.owners, sth)))
  }

  /** The sub-thread is the last to hold the lock, and has itself made the request that is granted next. */
  predicate HandsBack(lock: Lock, sth: nat) {
    WithoutSub(lock.owners, sth) == [] && lock.requests != [] && lock.requests[0].sub == sth
  }

  predicate LeavesFor(locks: seq<Lock>, sth: nat) {
    forall l {:trigger locks[l]} :: 0 <= l < |locks| ==> !HandsBack(locks[l], sth)
  }

  lemma NoneHandsBack(threadOf: seq<nat>, st: State, sth: nat)
    requires StateOk(threadOf, st, |st.locks|) && sth < |threadOf| && st.subCount[sth] == 0
    ensures LeavesFor(st.locks, sth)
  {
    NonePending(st.locks, Self(|threadOf|), sth);
    forall l {:trigger st.locks[l]} | 0 <= l < |st.locks| ensures !HandsBack(st.locks[l], sth) {
      if st.locks[l].requests != [] { assert !IsBy(st.locks[l].requests[0], Self(|threadOf|), sth); }
    }
  }

  ghost predicate AbandonedSome(threadOf: seq<nat>, was: seq<Lock>, sth: nat, locks: seq<Lock>) {
    |locks| == |was| && forall l {:trigger locks[l]} :: 0 <= l < |was| ==> locks[l] == was[l] || locks[l] == Abandoned(threadOf, was[l], sth)
  }

  /** Going over a lock twice makes no difference. */
  lemma AbandonedTwice(threadOf: seq<nat>, lock: Lock, sth: nat)
    requires forall i, j {:trigger lock.owners[i].sub, lock.owners[j].sub} :: 0 <= i < j < |lock.owners| ==> lock.owners[i].sub != lock.owners[j].sub
    requires (lock.requests != [] ==> lock.requests[0].sub < |threadOf|) && !HandsBack(lock, sth)
    ensures Abandoned(threadOf, Abandoned(threadOf, lock, sth), sth) == Abandoned(threadOf, lock, sth)
  {
    WithoutSubGone(lock.owners, sth);
    WithoutSubNone(WithoutSub(lock.owners, sth), sth);
    WithoutSubNone(Abandoned(threadOf, lock, sth).owners, sth);
  }

  lemma AbandonedStep(threadOf: seq<nat>, was: State, sth: nat, locks: seq<Lock>, l: nat, locks': seq<Lock>)
    requires StateOk(threadOf, was, |was.locks|) && sth < |threadOf| && l < |locks|
    requires locks' == locks[l := Abandoned(threadOf, locks[l], sth)]
    ensures LeavesFor(was.locks, sth) && AbandonedSome(threadOf, was.locks, sth, locks) ==>
      AbandonedSome(threadOf, was.locks, sth, locks') && Depth(locks'[l].owners, sth) == 0
  {
    if LeavesFor(was.locks, sth) && AbandonedSome(threadOf, was.locks, sth, locks) {
      var lock := was.locks[l];
      assert LockOk(threadOf, |was.lists|, was.nextTicket, lock);
      AbandonedTwice(threadOf, lock, sth);
      AbandonedGone(threadOf, lock, sth);
    }
  }

  lemma AbandonedGone(threadOf: seq<nat>, lock: Lock, sth: nat)
    requires OwnersOk(threadOf, lock.owningThread, lock.owners) && !HandsBack(lock, sth)
    requires lock.requests != [] ==> lock.requests[0].sub < |threadOf|
    ensures Depth(Abandoned(threadOf, lock, sth).owners, sth) == 0
  {
    WithoutSubGone(lock.owners, sth);
    DepthNone(WithoutSub(lock.owners, sth), sth);
    if WithoutSub(lock.owners, sth) == [] && lock.requests != [] { DepthNone(Abandoned(threadOf, lock, sth).owners, sth); }
  }

  /** A lock without entry of the sub-thread is left alone. */
  lemma AbandonedAll(threadOf: seq<nat>, was: State, sth: nat, locks: seq<Lock>)
    requires StateOk(threadOf, was, |was.locks|) && AbandonedSome(threadOf, was.locks, sth, locks)
    requires forall l {:trigger locks[l]} :: 0 <= l < |locks| ==> Depth(locks[l].owners, sth) == 0
    ensures forall l {:trigger locks[l]} :: 0 <= l < |locks| ==> locks[l] == Abandoned(threadOf, was.locks[l], sth)
  {
    forall l {:trigger locks[l]} | 0 <= l < |locks| ensures locks[l] == Abandoned(threadOf, was.locks[l], sth) {
      var lock := was.locks[l];
      if locks[l] == lock {
        assert LockOk(threadOf, |was.lists|, was.nextTicket, lock);
        forall i {:trigger lock.owners[i]} | 0 <= i < |lock.owners| ensures lock.owners[i].sub != sth {
          DepthAt(threadOf, lock.owningThread, lock.owners, i);
        }
        WithoutSubNone(lock.owners, sth);
      }
    }
  }

  /** Handing a lock on takes one request out of the queue. */
  lemma SettledCounts(threadOf: seq<nat>, locks: seq<Lock>, l: nat, owners: seq<Owner>, who: seq<nat>, t: nat)
    requires l < |locks| && (locks[l].requests != [] ==> locks[l].requests[0].sub < |threadOf|)
    ensures var lock := locks[l];
      Pending(locks[l := Settled(threadOf, lock.(owners := owners))], |locks|, who, t) ==
        Pending(locks, |locks|, who, t) - if owners == [] && lock.requests != [] && IsBy(lock.requests[0], who, t) then 1 else 0
  {
    PendingUpdate(locks, |locks|, l, Settled(threadOf, locks[l].(owners := owners)), who, t);
    SettledQueue(threadOf, locks[l].(owners := owners), who, t);
  }

  lemma SettledQueue(threadOf: seq<nat>, lock: Lock, who: seq<nat>, t: nat)
    requires lock.requests != [] ==> lock.requests[0].sub < |threadOf|
    ensures CountIn(Settled(threadOf, lock).requests, who, t) ==
      CountIn(lock.requests, who, t) - if lock.owners == [] && lock.requests != [] && IsBy(lock.requests[0], who, t) then 1 else 0
  {
    if lock.owners == [] && lock.requests != [] {
      CountFirst(lock.requests, who, t);
    }
  }

  lemma CountFirst(requests: seq<Request>, who: seq<nat>, t: nat)
    requires requests != []
    ensures CountIn(requests[1..], who, t) + (if IsBy(requests[0], who, t) then 1 else 0) == CountIn(requests, who, t)
  {
    CountRemove(requests, 0, who, t);
    assert requests[..0] + requests[1..] == requests[1..];
  }

  lemma ReleaseMeasure(threadOf: seq<nat>, st: State, l: nat, sth: nat, i: nat, owners: seq<Owner>, st': State)
    requires StateOk(threadOf, st, |st.locks|) && StateOk(threadOf, st', |st'.locks|)
    requires sth < |threadOf| && threadOf[sth] < |st.lists| && i < |st.lists[threadOf[sth]]| && st.lists[threadOf[sth]][i] == l < |st.locks|
    requires st'.locks == st.locks[l := Settled(threadOf, st.locks[l].(owners := owners))]
    requires if owners == [] then Moved(st.lists, threadOf[sth], i, l, st'.locks[l], st'.lists) else st'.lists == st.lists
    ensures |st'.lists| == |st.lists| && |st.subCount| == |st'.subCount| == |threadOf|
    ensures threadOf[sth] < |st.threadCount| == |st'.threadCount|
    ensures var th, next := threadOf[sth], if owners == [] then i else i + 1;
      && next <= |st'.lists[th]| && (i + 1 < |st.lists[th]| ==> next < |st'.lists[th]|)
      && 0 <= st'.threadCount[th] <= st.threadCount[th]
      && (st'.threadCount[th] == st.threadCount[th] ==> |st'.lists[th]| - next < |st.lists[th]| - i)
    ensures st.subCount[sth] == 0 ==> st'.subCount[sth] == 0
  {
    var th := threadOf[sth];
    assert st.locks[l].live && RequestsOk(threadOf, st.locks[l].requests, st.nextTicket);
    SettledCounts(threadOf, st.locks, l, owners, threadOf, th);
    SettledCounts(threadOf, st.locks, l, owners, Self(|threadOf|), sth);
    assert st'.threadCount[th] == Pending(st'.locks, |st'.locks|, threadOf, th) && st.threadCount[th] == Pending(st.locks, |st.locks|, threadOf, th);
    assert st'.subCount[sth] == Pending(st'.locks, |st'.locks|, Self(|threadOf|), sth) && st.subCount[sth] == Pending(st.locks, |st.locks|, Self(|threadOf|), sth);
  }

  lemma ReleasedNext(threadOf: seq<nat>, locks: seq<Lock>, lists: seq<seq<nat>>, l: nat, sth: nat, i: nat, owners: seq<Owner>,
                     locks': seq<Lock>, lists': seq<seq<nat>>)
    requires sth < |threadOf| && threadOf[sth] < |lists| && i < |lists[threadOf[sth]]| && lists[threadOf[sth]][i] == l < |locks|
    requires locks' == locks[l := Settled(threadOf, locks[l].(owners := owners))] && Depth(locks'[l].owners, sth) == 0
    requires if owners == [] then Moved(lists, threadOf[sth], i, l, locks'[l], lists') else lists' == lists
    requires Released(locks, lists[threadOf[sth]], sth, i)
    ensures Released(locks', lists'[threadOf[sth]], sth,
                     if i + 1 == |lists[threadOf[sth]]| then |lists'[threadOf[sth]]| else if owners == [] then i else i + 1)
  {
    var list, list' := lists[threadOf[sth]], lists'[threadOf[sth]];
    var n := if i + 1 == |list| then |list'| else if owners == [] then i else i + 1;
    forall k {:trigger list'[k]} | 0 <= k < n && k < |list'| ensures list'[k] < |locks'| && Depth(locks'[list'[k]].owners, sth) == 0 {
      if k < i {
        assert list'[k] == list[k];
      } else {
        assert list'[k] == l;
      }
    }
  }

  lemma ReleasedStep(threadOf: seq<nat>, was: State, st: State, l: nat, sth: nat, i: nat, owners: seq<Owner>, st': State)
    requires StateOk(threadOf, was, |was.locks|) && StateOk(threadOf, st, |st.locks|)
    requires sth < |threadOf| && threadOf[sth] < |st.lists| && i < |st.lists[threadOf[sth]]| && st.lists[threadOf[sth]][i] == l < |st.locks|
    requires owners == WithoutSub(st.locks[l].owners, sth) && st'.locks == st.locks[l := Settled(threadOf, st.locks[l].(owners := owners))]
    requires if owners == [] then Moved(st.lists, threadOf[sth], i, l, st'.locks[l], st'.lists) else st'.lists == st.lists
    ensures |st'.lists| == |st.lists|
    ensures LeavesFor(was.locks, sth) && AbandonedSome(threadOf, was.locks, sth, st.locks) && Released(st.locks, st.lists[threadOf[sth]], sth, i) ==>
      Released(st'.locks, st'.lists[threadOf[sth]], sth,
               if i + 1 == |st.lists[threadOf[sth]]| then |st'.lists[threadOf[sth]]| else if owners == [] then i else i + 1)
  {
    if LeavesFor(was.locks, sth) && AbandonedSome(threadOf, was.locks, sth, st.locks) && Released(st.locks, st.lists[threadOf[sth]], sth, i) {
      AbandonedStep(threadOf, was, sth, st.locks, l, st'.locks);
      ReleasedNext(threadOf, st.locks, st.lists, l, sth, i, owners, st'.locks, st'.lists);
    }
  }

  // When it stays in possession of a lock.

  function Last(list: seq<nat>): nat {
    if list == [] then 0 else list[|list| - 1]
  }

  /** Of the locks of thread th only the last one can move while the sub-thread goes over them: the others have
      other owners as well. */
  predicate OnlyLastMoves(locks: seq<Lock>, lists: seq<seq<nat>>, th: nat, sth: nat) {
    && th < |lists| && lists[th] != [] && Last(lists[th]) < |locks|
    && (forall k {:trigger lists[th][k]} :: 0 <= k < |lists[th]| - 1 ==> lists[th][k] < |locks| && WithoutSub(locks[lists[th][k]].owners, sth) != [])
  }

  /** The walk is at place i, or at its end (last), and has moved nothing before the last lock. */
  ghost predicate WalkedTo(threadOf: seq<nat>, was: State, sth: nat, locks: seq<Lock>, lists: seq<seq<nat>>, i: nat, last: bool) {
    sth < |threadOf| && OnlyLastMoves(was.locks, was.lists, threadOf[sth], sth) ==>
      && |locks| == |was.locks|
      && (!last ==> lists == was.lists && forall k {:trigger was.lists[threadOf[sth]][k]} :: i <= k < |was.lists[threadOf[sth]]| ==>
            was.lists[threadOf[sth]][k] < |locks| && locks[was.lists[threadOf[sth]][k]] == was.locks[was.lists[threadOf[sth]][k]])
      && (last ==> var z := Last(was.lists[threadOf[sth]]); locks[z] == Abandoned(threadOf, was.locks[z], sth))
  }

  /** What holds while the sub-thread goes over the locks of its thread. */
  ghost predicate Walk(threadOf: seq<nat>, was: State, sth: nat, locks: seq<Lock>, lists: seq<seq<nat>>, i: nat, last: bool) {
    && sth < |threadOf| && threadOf[sth] < |lists| && |locks| == |was.locks|
    && (LeavesFor(was.locks, sth) ==>
          AbandonedSome(threadOf, was.locks, sth, locks) && Released(locks, lists[threadOf[sth]], sth, if last then |lists[threadOf[sth]]| else i))
    && WalkedTo(threadOf, was, sth, locks, lists, i, last)
  }

  lemma WalkStart(threadOf: seq<nat>, was: State, sth: nat)
    requires StateOk(threadOf, was, |was.locks|) && sth < |threadOf|
    ensures Walk(threadOf, was, sth, was.locks, was.lists, 0, was.lists[threadOf[sth]] == [])
  {
  }

  lemma WalkNext(threadOf: seq<nat>, was: State, st: State, l: nat, sth: nat, i: nat, owners: seq<Owner>, st': State, next: nat, last: bool)
    requires StateOk(threadOf, was, |was.locks|) && StateOk(threadOf, st, |st.locks|)
    requires Walk(threadOf, was, sth, st.locks, st.lists, i, false)
    requires i < |st.lists[threadOf[sth]]| && st.lists[threadOf[sth]][i] == l < |st.locks|
    requires owners == WithoutSub(st.locks[l].owners, sth) && st'.locks == st.locks[l := Settled(threadOf, st.locks[l].(owners := owners))]
    requires if owners == [] then Moved(st.lists, threadOf[sth], i, l, st'.locks[l], st'.lists) else st'.lists == st.lists
    requires next == (if owners == [] then i else i + 1) && (last <==> i + 1 == |st.lists[threadOf[sth]]|)
    ensures Walk(threadOf, was, sth, st'.locks, st'.lists, next, last)
  {
    AbandonedStep(threadOf, was, sth, st.locks, l, st'.locks);
    ReleasedStep(threadOf, was, st, l, sth, i, owners, st');
    WalkedNext(threadOf, was, sth, st, i, st'.locks, st'.lists, next, last);
  }

  lemma WalkDone(threadOf: seq<nat>, was: State, sth: nat, st: State, i: nat)
    requires StateOk(threadOf, was, |was.locks|) && StateOk(threadOf, st, |st.locks|) && Walk(threadOf, was, sth, st.locks, st.lists, i, true)
    ensures |st.locks| == |was.locks|
    ensures LeavesFor(was.locks, sth) ==> forall l {:trigger st.locks[l]} :: 0 <= l < |st.locks| ==>
      st.locks[l] == Abandoned(threadOf, was.locks[l], sth) && Depth(st.locks[l].owners, sth) == 0
    ensures OnlyLastMoves(was.locks, was.lists, threadOf[sth], sth) && HandsBack(was.locks[Last(was.lists[threadOf[sth]])], sth) ==>
      st.locks[Last(was.lists[threadOf[sth]])].owners == [Owner(sth, 1)]
  {
    if LeavesFor(was.locks, sth) {
      NoneOwned(threadOf, st, sth);
      AbandonedAll(threadOf, was, sth, st.locks);
    }
  }

  /** In that case the sub-thread stays in possession of a lock exactly if it is handed the last one back. */
  lemma OnlyLastMatters(threadOf: seq<nat>, st: State, sth: nat)
    requires StateOk(threadOf, st, |st.locks|) && sth < |threadOf| && OnlyLastMoves(st.locks, st.lists, threadOf[sth], sth)
    ensures LeavesFor(st.locks, sth) <==> !HandsBack(st.locks[Last(st.lists[threadOf[sth]])], sth)
  {
    var list := st.lists[threadOf[sth]];
    forall l {:trigger st.locks[l]} | 0 <= l < |st.locks| && l != Last(list) ensures !HandsBack(st.locks[l], sth) {
      assert LockOk(threadOf, |st.lists|, st.nextTicket, st.locks[l]);
      if st.locks[l].live && st.locks[l].owningThread == threadOf[sth] {
        assert Has(list, l);
      } else {
        WithoutSubNone(st.locks[l].owners, sth);
      }
    }
  }

  /** Sub-thread 0 holds lock 0, the only one of its thread, and has made the request that is first in its queue. */
  const HANDED_BACK := State([Lock(true, 7, 0, [Owner(0, 1)], [Request(0, 100, false, 0)])], [[0]], [1], [1], [true], 1)

  lemma HandedBack()
    ensures StateOk([0], HANDED_BACK, 1) && OnlyLastMoves(HANDED_BACK.locks, HANDED_BACK.lists, 0, 0)
    ensures HandsBack(HANDED_BACK.locks[0], 0)
    ensures Depth(Abandoned([0], HANDED_BACK.locks[0], 0).owners, 0) == 1
  {
    var st := HANDED_BACK;
    var requests := st.locks[0].requests;
    assert CountIn(requests[..0], Self(1), 0) == 0 && CountIn(requests[..0], [0], 0) == 0;
    assert Pending(st.locks, 0, Self(1), 0) == 0 && Pending(st.locks, 0, [0], 0) == 0;
    assert IsBy(requests[0], Self(1), 0) && IsBy(requests[0], [0], 0);
    assert st.lists[0][0] == 0 && Has(st.lists[0], 0);
    assert WithoutSub(st.locks[0].owners, 0) == [];
  }

  lemma WalkedNext(threadOf: seq<nat>, was: State, sth: nat, before: State, j: nat, locks: seq<Lock>, lists: seq<seq<nat>>, i: nat, last: bool)
    requires StateOk(threadOf, was, |was.locks|) && sth < |threadOf| && |before.locks| == |was.locks|
    requires threadOf[sth] < |before.lists| && j < |before.lists[threadOf[sth]]| && before.lists[threadOf[sth]][j] < |before.locks|
    requires WalkedTo(threadOf, was, sth, before.locks, before.lists, j, false)
    requires last <==> j + 1 == |before.lists[threadOf[sth]]|
    requires var l := before.lists[threadOf[sth]][j];
      && locks == before.locks[l := Abandoned(threadOf, before.locks[l], sth)]
      && (WithoutSub(before.locks[l].owners, sth) != [] ==> lists == before.lists && i == j + 1)
    ensures WalkedTo(threadOf, was, sth, locks, lists, i, last)
  {
    if OnlyLastMoves(was.locks, was.lists, threadOf[sth], sth) {
      var list := was.lists[threadOf[sth]];
      assert Unique(list);
      assert before.locks[list[j]] == was.locks[list[j]];
      forall k {:trigger list[k]} | !last && i <= k < |list| ensures lists == was.lists && list[k] < |locks| && locks[list[k]] == was.locks[list[k]] {
        assert list[j] != list[k];
      }
    }
  }

  /** If the thread's locks have no entry of the sub-thread, no lock has. */
  lemma NoneOwned(threadOf: seq<nat>, st: State, sth: nat)
    requires StateOk(threadOf, st, |st.locks|) && sth < |threadOf|
    requires threadOf[sth] < |st.lists| && Released(st.locks, st.lists[threadOf[sth]], sth, |st.lists[threadOf[sth]]|)
    ensures forall l {:trigger st.locks[l]} :: 0 <= l < |st.locks| ==> Depth(st.locks[l].owners, sth) == 0
  {
    forall l {:trigger st.locks[l]} | 0 <= l < |st.locks| ensures Depth(st.locks[l].owners, sth) == 0 {
      if st.locks[l].live && st.locks[l].owningThread == threadOf[sth] {
        assert Has(st.lists[threadOf[sth]], l);
      } else if st.locks[l].live {
        NoForeignOwner(threadOf, st.locks[l].owningThread, st.locks[l].owners, sth);
      }
    }
  }

  function BySub(sth: nat): Request -> bool {
    (r: Request) => r.sub == sth
  }

  lemma NoneBySub(was: seq<Lock>, sth: nat, subs: nat)
    requires sth < subs
    requires forall l, i {:trigger was[l].requests[i]} :: 0 <= l < |was| && 0 <= i < |was[l].requests| ==> !IsBy(was[l].requests[i], Self(subs), sth)
    ensures Purged(was, BySub(sth), was)
  {
    forall l {:trigger was[l]} | 0 <= l < |was| ensures was[l] == Purge(was[l], BySub(sth)) {
      forall i {:trigger was[l].requests[i]} | 0 <= i < |was[l].requests| ensures !BySub(sth)(was[l].requests[i]) {
        assert !IsBy(was[l].requests[i], Self(subs), sth);
      }
      KeepRest(was[l].requests, 0, BySub(sth));
    }
  }

  lemma {:induction false} KeptNotDropped(requests: seq<Request>, drop: Request -> bool)
    ensures forall i {:trigger Keep(requests, drop)[i]} :: 0 <= i < |Keep(requests, drop)| ==> !drop(Keep(requests, drop)[i])
  {
    if requests != [] { KeptNotDropped(requests[..|requests| - 1], drop); }
  }

  lemma PurgedNone(was: seq<Lock>, sth: nat, locks: seq<Lock>, subs: nat)
    requires Purged(was, BySub(sth), locks)
    ensures Pending(locks, |locks|, Self(subs), sth) == 0
  {
    forall l, i {:trigger locks[l].requests[i]} | 0 <= l < |locks| && 0 <= i < |locks[l].requests| ensures !IsBy(locks[l].requests[i], Self(subs), sth) {
      KeptNotDropped(was[l].requests, BySub(sth));
    }
    PendingNone(locks, Self(subs), sth);
  }

  /** The requests that drop does not tell, in their order. */
  function Keep(requests: seq<Request>, drop: Request -> bool): seq<Request> {
    if requests == [] then []
    else Keep(requests[..|requests| - 1], drop) + if drop(requests[|requests| - 1]) then [] else [requests[|requests| - 1]]
  }

  /** A request is left exactly if drop does not tell it, and as often as before. */
  lemma {:induction false} KeepCounts(requests: seq<Request>, drop: Request -> bool, r: Request)
    ensures multiset(Keep(requests, drop))[r] == if drop(r) then 0 else multiset(requests)[r]
  {
    if requests != [] {
      var n := |requests| - 1;
      KeepCounts(requests[..n], drop, r);
      assert requests == requests[..n] + [requests[n]];
    }
  }

  lemma KeepNext(requests: seq<Request>, j: nat, drop: Request -> bool)
    requires j < |requests|
    ensures Keep(requests[..j + 1], drop) == Keep(requests[..j], drop) + if drop(requests[j]) then [] else [requests[j]]
  {
    assert requests[..j + 1][..j] == requests[..j];
  }

  /** The first j requests of a queue have been kept or dropped; k of them are left. */
  ghost predicate KeptTo(was: seq<Request>, j: nat, drop: Request -> bool, requests: seq<Request>, k: nat) {
    j <= |was| && requests == Keep(was[..j], drop) + was[j..] && k == |Keep(was[..j], drop)|
  }

  lemma KeepStart(was: seq<Request>, drop: Request -> bool)
    ensures KeptTo(was, 0, drop, was, 0)
  {
    assert was[..0] == [] && was[0..] == was;
  }

  /** One more request is kept or dropped. */
  lemma KeepStep(was: seq<Request>, j: nat, drop: Request -> bool, requests: seq<Request>, k: nat)
    requires KeptTo(was, j, drop, requests, k) && k < |requests|
    ensures j < |was|
    ensures if drop(requests[k]) then KeptTo(was, j + 1, drop, requests[..k] + requests[k + 1..], k) else KeptTo(was, j + 1, drop, requests, k + 1)
  {
    KeepNext(was, j, drop);
    var kept := Keep(was[..j], drop);
    assert was[j..] == [was[j]] + was[j + 1..];
    assert requests[k] == was[j];
    if drop(was[j]) {
      assert kept + [] == kept;
      assert requests[..k] + requests[k + 1..] == kept + was[j + 1..];
    } else {
      assert requests == (kept + [was[j]]) + was[j + 1..];
    }
  }

  lemma KeepEnd(was: seq<Request>, j: nat, drop: Request -> bool, requests: seq<Request>, k: nat)
    requires KeptTo(was, j, drop, requests, k)
    requires k < |requests| ==> forall i {:trigger was[i]} :: j <= i < |was| ==> !drop(was[i])
    ensures requests == Keep(was, drop)
  {
    KeepRest(was, j, drop);
  }

  lemma {:induction false} KeepRest(requests: seq<Request>, j: nat, drop: Request -> bool)
    requires j <= |requests| && forall i {:trigger requests[i]} :: j <= i < |requests| ==> !drop(requests[i])
    ensures Keep(requests, drop) == Keep(requests[..j], drop) + requests[j..]
  {
    if j == |requests| {
      assert requests[..j] == requests;
    } else {
      var n := |requests| - 1;
      var init := requests[..n];
      KeepRest(init, j, drop);
      assert init[..j] == requests[..j];
      assert requests[j..] == init[j..] + [requests[n]];
    }
  }

  lemma {:induction false} KeepTwice(requests: seq<Request>, drop: Request -> bool)
    ensures Keep(Keep(requests, drop), drop) == Keep(requests, drop)
  {
    if requests != [] {
      var n := |requests| - 1;
      var init := Keep(requests[..n], drop);
      KeepTwice(requests[..n], drop);
      if drop(requests[n]) {
        assert init + [] == init;
      } else {
        assert (init + [requests[n]])[..|init|] == init;
      }
    }
  }

  function Purge(lock: Lock, drop: Request -> bool): Lock {
    lock.(requests := Keep(lock.requests, drop))
  }

  ghost predicate Purged(locks: seq<Lock>, drop: Request -> bool, locks': seq<Lock>) {
    |locks'| == |locks| && forall l {:trigger locks'[l]} :: 0 <= l < |locks| ==> locks'[l] == Purge(locks[l], drop)
  }

  /** The queues of the locks in done are purged, others may be. */
  ghost predicate PurgedSome(locks: seq<Lock>, drop: Request -> bool, locks': seq<Lock>, done: set<nat>) {
    && |locks'| == |locks|
    && (forall l {:trigger locks'[l]} :: 0 <= l < |locks| ==> locks'[l] == locks[l] || locks'[l] == Purge(locks[l], drop))
    && (forall l {:trigger l in done} :: l in done ==> l < |locks| && locks'[l] == Purge(locks[l], drop))
  }

  /** The first n locks of a list have been seen to. */
  ghost predicate SeenTo(list: seq<nat>, n: nat, done: set<nat>) {
    forall k {:trigger list[k]} :: 0 <= k < n && k < |list| ==> list[k] in done
  }

  lemma SeenNext(list: seq<nat>, n: nat, done: set<nat>)
    requires SeenTo(list, n, done) && n < |list|
    ensures SeenTo(list, n + 1, done + {list[n]})
  {
  }

  lemma SeenMore(list: seq<nat>, n: nat, done: set<nat>, done': set<nat>)
    requires SeenTo(list, n, done) && done <= done'
    ensures SeenTo(list, n, done')
  {
  }

  lemma OnePurged(was: seq<Lock>, drop: Request -> bool, before: seq<Lock>, l: nat, locks: seq<Lock>, done: set<nat>)
    requires PurgedSome(was, drop, before, done) && l < |was| && locks == before[l := Purge(before[l], drop)]
    ensures PurgedSome(was, drop, locks, done + {l})
  {
    KeepTwice(was[l].requests, drop);
  }

  lemma AllPurged(was: seq<Lock>, drop: Request -> bool, locks: seq<Lock>, done: set<nat>, lists: seq<seq<nat>>)
    requires PurgedSome(was, drop, locks, done) && ListsOk(locks, lists)
    requires forall m {:trigger lists[m]} :: 0 <= m < |lists| ==> SeenTo(lists[m], |lists[m]|, done)
    requires forall l {:trigger locks[l]} :: 0 <= l < |locks| && !locks[l].live ==> locks[l] == FREE_LOCK
    ensures Purged(was, drop, locks)
  {
    forall l {:trigger locks[l]} | 0 <= l < |was| ensures locks[l] == Purge(was[l], drop) {
      if locks[l].live {
        assert Has(lists[locks[l].owningThread], l);
      }
    }
  }

  lemma PurgeDone(threadOf: seq<nat>, st: State, l: nat, was: seq<Request>, j: nat, drop: Request -> bool, k: nat, stopped: bool, sth: nat)
    requires StateOk(threadOf, st, |st.locks|) && l < |st.locks| && sth < |threadOf|
    requires KeptTo(was, j, drop, st.locks[l].requests, k)
    requires if stopped then threadOf[sth] < |st.threadCount| && st.threadCount[threadOf[sth]] == 0 && forall r :: drop(r) <==> r.sub == sth
             else k >= |st.locks[l].requests|
    ensures st.locks[l].requests == Keep(was, drop)
  {
    if stopped {
      NonePending(st.locks, threadOf, threadOf[sth]);
      NoneLeft(was, j, drop, st.locks[l].requests, k, threadOf, sth);
    }
    KeepEnd(was, j, drop, st.locks[l].requests, k);
  }

  lemma NoneLeft(was: seq<Request>, j: nat, drop: Request -> bool, requests: seq<Request>, k: nat, threadOf: seq<nat>, sth: nat)
    requires KeptTo(was, j, drop, requests, k) && sth < |threadOf| && forall r :: drop(r) <==> r.sub == sth
    requires forall i {:trigger requests[i]} :: 0 <= i < |requests| ==> !IsBy(requests[i], threadOf, threadOf[sth])
    ensures forall i {:trigger was[i]} :: j <= i < |was| ==> !drop(was[i])
  {
    forall i {:trigger was[i]} | j <= i < |was| ensures !drop(was[i]) {
      assert requests[k + i - j] == was[i];
    }
  }

  lemma NothingToPurge(was: seq<Lock>, drop: Request -> bool, locks: seq<Lock>, done: set<nat>, threadOf: seq<nat>, sth: nat)
    requires PurgedSome(was, drop, locks, done) && sth < |threadOf| && forall r :: drop(r) <==> r.sub == sth
    requires forall l, i {:trigger locks[l].requests[i]} :: 0 <= l < |locks| && 0 <= i < |locks[l].requests| ==> !IsBy(locks[l].requests[i], threadOf, threadOf[sth])
    ensures Purged(was, drop, locks)
  {
    forall l {:trigger locks[l]} | 0 <= l < |was| ensures locks[l] == Purge(was[l], drop) {
      if locks[l] == was[l] {
        forall i {:trigger was[l].requests[i]} | 0 <= i < |was[l].requests| ensures !drop(was[l].requests[i]) {
          assert locks[l].requests[i] == was[l].requests[i];
        }
        KeepRest(was[l].requests, 0, drop);
      }
    }
  }

  /** Lock l, in place k of the list of thread th, leaves that list; if it has a new owner, it goes to the
      back of that one's list. */
  ghost predicate Moved(lists: seq<seq<nat>>, th: nat, k: nat, l: nat, lock: Lock, lists': seq<seq<nat>>) {
    && th < |lists| && k < |lists[th]| && lists[th][k] == l
    && var rest := lists[th := lists[th][..k] + lists[th][k + 1..]];
      if lock.live then lock.owningThread < |lists| && lists' == rest[lock.owningThread := rest[lock.owningThread] + [l]] else lists' == rest
  }

  lemma OwnersShrunk(threadOf: seq<nat>, th: nat, owners: seq<Owner>, k: nat, rest: seq<Owner>)
    requires OwnersOk(threadOf, th, owners) && k < |owners| && rest == owners[..k] + owners[k + 1..]
    ensures OwnersOk(threadOf, th, rest)
  {
    forall i, j {:trigger rest[i].sub, rest[j].sub} | 0 <= i < j < |rest| ensures rest[i].sub != rest[j].sub {
      assert rest[i] == owners[if i < k then i else i + 1] && rest[j] == owners[if j < k then j else j + 1];
    }
  }

  lemma NoForeignOwner(threadOf: seq<nat>, th: nat, owners: seq<Owner>, sth: nat)
    requires OwnersOk(threadOf, th, owners) && sth < |threadOf| && threadOf[sth] != th
    ensures Depth(owners, sth) == 0
  {
    DepthNone(owners, sth);
  }

  ghost predicate Entered(owners: seq<Owner>, sth: nat, owners': seq<Owner>) {
    forall s {:trigger Depth(owners', s)} :: Depth(owners', s) == Depth(owners, s) + if s == sth then 1 else 0
  }

  ghost predicate Left(owners: seq<Owner>, sth: nat, owners': seq<Owner>) {
    forall s {:trigger Depth(owners', s)} :: Depth(owners', s) == Depth(owners, s) - if s == sth then 1 else 0
  }

  /** A lock that may have lost its last owner. */
  function Settled(threadOf: seq<nat>, lock: Lock): Lock {
    if lock.owners == [] then NextOwner(threadOf, lock) else lock
  }

  /** Of all requests in the queue the oldest is granted, and the others stay in their order. */
  lemma HandOverIsFifo(threadOf: seq<nat>, lock: Lock, nextTicket: nat)
    requires RequestsOk(threadOf, lock.requests, nextTicket) && lock.requests != []
    ensures var next := NextOwner(threadOf, lock);
      && next.live && next.owners == [Owner(lock.requests[0].sub, 1)] && next.owningThread == threadOf[lock.requests[0].sub]
      && lock.requests == [lock.requests[0]] + next.requests
      && (forall i {:trigger next.requests[i]} :: 0 <= i < |next.requests| ==> lock.requests[0].ticket < next.requests[i].ticket)
  {
  }

  /** What becomes of a lock that has lost its last owner. */
  function NextOwner(threadOf: seq<nat>, lock: Lock): Lock {
    if lock.requests == [] then FREE_LOCK
    else
      var sth := lock.requests[0].sub;
      if sth < |threadOf| then Lock(true, lock.resource, threadOf[sth], [Owner(sth, 1)], lock.requests[1..]) else lock
  }
}
