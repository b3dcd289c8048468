/** Waiting for events: wait-any and wait-all on manual and auto-reset events. */
module WaitForObject {
  import opened Lru

  const MAX_OBJECTS: nat := 64
  const WAIT_RESULT_INIT: int := -1
  const WAIT_RESULT_TIMEOUT: int := 0x102
  const WAIT_RESULT_HANDLE_ALL: int := 0x103

  datatype Ref = Null | Event(id: nat)
  datatype Wait = NoWait | Wait(objects: seq<nat>, waitAll: bool)
  datatype Status = Ok | ThreadWaiting | InvalidParameter | NullReference

  // Wait sets as values.

  predicate On(flags: seq<bool>, o: nat) {
    o < |flags| && flags[o]
  }

  /** The place of the first signaled event. */
  function FirstOn(signaled: seq<bool>, objects: seq<nat>): (i: nat)
    ensures i <= |objects| && (i < |objects| ==> On(signaled, objects[i]))
    ensures forall j :: 0 <= j < i ==> !On(signaled, objects[j])
  {
    if objects == [] || On(signaled, objects[0]) then 0 else 1 + FirstOn(signaled, objects[1..])
  }

  predicate AllOn(signaled: seq<bool>, objects: seq<nat>) {
    forall i {:trigger objects[i]} :: 0 <= i < |objects| ==> On(signaled, objects[i])
  }

  /** The wait could end now. */
  predicate Satisfied(signaled: seq<bool>, w: Wait) {
    w.Wait? && if w.waitAll then AllOn(signaled, w.objects) else FirstOn(signaled, w.objects) < |w.objects|
  }

  /** The events a wait takes when it ends: all of them, or the first one that is signaled. */
  function Taken(signaled: seq<bool>, w: Wait): seq<nat>
    requires Satisfied(signaled, w)
  {
    if w.waitAll then w.objects else [w.objects[FirstOn(signaled, w.objects)]]
  }

  function ResultOf(signaled: seq<bool>, w: Wait): int
    requires Satisfied(signaled, w)
  {
    if w.waitAll then WAIT_RESULT_HANDLE_ALL else FirstOn(signaled, w.objects)
  }

  /** The flags after the auto-reset events among some objects are reset. */
  function Reset(autoReset: seq<bool>, signaled: seq<bool>, objects: seq<nat>): (r: seq<bool>)
    ensures |r| == |signaled|
    ensures forall o {:trigger r[o]} :: 0 <= o < |r| ==> r[o] == (signaled[o] && !(On(autoReset, o) && o in objects))
  {
    seq(|signaled|, o requires 0 <= o < |signaled| => signaled[o] && !(On(autoReset, o) && o in objects))
  }

  /** What a wait for some objects does to the flags, and its result if it ends: wait-all takes all its auto-reset events
      or nothing, wait-any the first object that is signaled. */
  ghost predicate WaitEnded(autoReset: seq<bool>, before: seq<bool>, objects: seq<nat>, waitAll: bool, done: bool, after: seq<bool>, result: int) {
    && |after| == |before|
    && (done <==> if waitAll then forall o :: o in objects ==> On(before, o) else exists o :: o in objects && On(before, o))
    && (!done ==> after == before)
    && (done && waitAll ==> result == 0x103 && forall o {:trigger after[o]} :: 0 <= o < |after| ==>
          after[o] == (before[o] && !(o in objects && On(autoReset, o))))
    && (done && !waitAll ==> 0 <= result < |objects| && On(before, objects[result]) && forall j :: 0 <= j < result ==> !On(before, objects[j]))
    && (done && !waitAll ==> 0 <= result < |objects| && forall o {:trigger after[o]} :: 0 <= o < |after| ==>
          after[o] == (before[o] && !(o == objects[result] && On(autoReset, o))))
  }

  /** That is what a satisfied wait comes to. */
  lemma EndedIs(autoReset: seq<bool>, signaled: seq<bool>, w: Wait)
    requires w.Wait?
    ensures Satisfied(signaled, w) ==>
      WaitEnded(autoReset, signaled, w.objects, w.waitAll, true, Reset(autoReset, signaled, Taken(signaled, w)), ResultOf(signaled, w))
    ensures !Satisfied(signaled, w) ==> forall result :: WaitEnded(autoReset, signaled, w.objects, w.waitAll, false, signaled, result)
  {
    var i := FirstOn(signaled, w.objects);
    if i < |w.objects| { assert w.objects[i] in w.objects; }
    if !w.waitAll && i == |w.objects| {
      forall o | o in w.objects ensures !On(signaled, o) { var j :| 0 <= j < |w.objects| && w.objects[j] == o; }
    }
    if w.waitAll && !AllOn(signaled, w.objects) {
      var j :| 0 <= j < |w.objects| && !On(signaled, w.objects[j]);
      assert w.objects[j] in w.objects;
    }
  }

  /** Nobody waits for what is already there. */
  ghost predicate NoLostWakeUp(signaled: seq<bool>, waits: seq<Wait>) {
    forall t {:trigger waits[t]} :: 0 <= t < |waits| ==> !Satisfied(signaled, waits[t])
  }

  ghost predicate Fewer(signaled: seq<bool>, signaled': seq<bool>) {
    |signaled'| == |signaled| && forall o {:trigger signaled'[o]} :: 0 <= o < |signaled| && signaled'[o] ==> signaled[o]
  }

  /** Resetting events cannot satisfy a wait. */
  lemma FewerSignals(signaled: seq<bool>, signaled': seq<bool>, w: Wait)
    requires Fewer(signaled, signaled') && Satisfied(signaled', w)
    ensures Satisfied(signaled, w)
  {
    if w.waitAll {
      forall i {:trigger w.objects[i]} | 0 <= i < |w.objects| ensures On(signaled, w.objects[i]) {
        assert On(signaled', w.objects[i]);
      }
    } else {
      assert On(signaled, w.objects[FirstOn(signaled', w.objects)]);
    }
  }

  // Ending waits one after the other.

  datatype State = State(signaled: seq<bool>, waits: seq<Wait>, results: seq<int>, waiting: seq<nat>)

  /** Thread th ends its wait if it can. */
  function End(autoReset: seq<bool>, a: State, th: nat): State {
    if th < |a.waits| && th < |a.results| && Satisfied(a.signaled, a.waits[th]) then
      State(Reset(autoReset, a.signaled, Taken(a.signaled, a.waits[th])), a.waits[th := NoWait],
            a.results[th := ResultOf(a.signaled, a.waits[th])], Without(a.waiting, th))
    else a
  }

  /** All threads of a list do so, in the order of the list. */
  function Pass(autoReset: seq<bool>, a: State, list: seq<nat>): State
    decreases list
  {
    if list == [] then a else Pass(autoReset, End(autoReset, a, list[0]), list[1..])
  }

  /** b is a after some waits have ended: no wait is new, and no event. */
  ghost predicate Later(a: State, b: State) {
    && Fewer(a.signaled, b.signaled)
    && |b.waits| == |a.waits| && |b.results| == |a.results|
    && (forall t {:trigger b.waits[t]} :: 0 <= t < |a.waits| ==> b.waits[t] == a.waits[t] || b.waits[t].NoWait?)
  }

  lemma EndLater(autoReset: seq<bool>, a: State, th: nat)
    ensures Later(a, End(autoReset, a, th))
    ensures th < |a.waits| && th < |a.results| ==> !Satisfied(End(autoReset, a, th).signaled, End(autoReset, a, th).waits[th])
  {
  }

  lemma {:induction false} PassLater(autoReset: seq<bool>, a: State, list: seq<nat>)
    ensures Later(a, Pass(autoReset, a, list))
    decreases list
  {
    if list != [] {
      EndLater(autoReset, a, list[0]);
      PassLater(autoReset, End(autoReset, a, list[0]), list[1..]);
    }
  }

  /** A wait that has ended: its result tells which of its objects were signaled. */
  ghost predicate Answered(signaled: seq<bool>, w: Wait, result: int) {
    w.Wait? && if w.waitAll then result == 0x103 && forall o :: o in w.objects ==> On(signaled, o)
               else 0 <= result < |w.objects| && On(signaled, w.objects[result])
  }

  /** Thread t still waits as before, or has its answer. */
  ghost predicate KeptOrAnswered(a: State, b: State, t: nat) {
    && t < |a.waits| == |b.waits| && t < |a.results| == |b.results|
    && ((b.waits[t] == a.waits[t] && b.results[t] == a.results[t]) || (b.waits[t].NoWait? && Answered(a.signaled, a.waits[t], b.results[t])))
  }

  lemma EndAnswers(autoReset: seq<bool>, a: State, th: nat, t: nat)
    requires t < |a.waits| && t < |a.results|
    ensures KeptOrAnswered(a, End(autoReset, a, th), t)
  {
    if t == th && Satisfied(a.signaled, a.waits[t]) { EndedIs(autoReset, a.signaled, a.waits[t]); }
  }

  lemma {:induction false} PassAnswers(autoReset: seq<bool>, a: State, list: seq<nat>, t: nat)
    requires t < |a.waits| && t < |a.results|
    ensures KeptOrAnswered(a, Pass(autoReset, a, list), t)
    decreases list
  {
    if list != [] {
      var m := End(autoReset, a, list[0]);
      EndLater(autoReset, a, list[0]);
      EndAnswers(autoReset, a, list[0], t);
      PassAnswers(autoReset, m, list[1..], t);
      FewerAnswers(a.signaled, m.signaled, m.waits[t], Pass(autoReset, m, list[1..]).results[t]);
    }
  }

  ghost predicate AllAnswered(a: State, b: State) {
    forall t: nat {:trigger KeptOrAnswered(a, b, t)} :: t < |b.waits| ==> KeptOrAnswered(a, b, t)
  }

  lemma AllPassAnswers(autoReset: seq<bool>, a: State, list: seq<nat>)
    requires |a.waits| == |a.results|
    ensures AllAnswered(a, Pass(autoReset, a, list))
  {
    var b := Pass(autoReset, a, list);
    PassLater(autoReset, a, list);
    forall t: nat {:trigger KeptOrAnswered(a, b, t)} | t < |b.waits| ensures KeptOrAnswered(a, b, t) { PassAnswers(autoReset, a, list, t); }
  }

  lemma FewerAnswers(signaled: seq<bool>, signaled': seq<bool>, w: Wait, result: int)
    requires Fewer(signaled, signaled')
    ensures Answered(signaled', w, result) ==> Answered(signaled, w, result)
  {
  }

  lemma LaterUnsatisfied(a: State, b: State, t: nat)
    requires Later(a, b) && t < |a.waits| && !Satisfied(a.signaled, a.waits[t])
    ensures !Satisfied(b.signaled, b.waits[t])
  {
    if Satisfied(b.signaled, b.waits[t]) {
      FewerSignals(a.signaled, b.signaled, b.waits[t]);
    }
  }

  /** After a pass none of the threads of the list could end its wait. */
  lemma {:induction false} PassLeavesNone(autoReset: seq<bool>, a: State, list: seq<nat>, t: nat)
    requires t in list && t < |a.waits| && t < |a.results|
    ensures t < |Pass(autoReset, a, list).waits|
    ensures !Satisfied(Pass(autoReset, a, list).signaled, Pass(autoReset, a, list).waits[t])
    decreases list
  {
    var m := End(autoReset, a, list[0]);
    EndLater(autoReset, a, list[0]);
    if t == list[0] {
      PassLater(autoReset, m, list[1..]);
      LaterUnsatisfied(m, Pass(autoReset, m, list[1..]), t);
    } else {
      PassLeavesNone(autoReset, m, list[1..], t);
    }
  }

  /** A pass over threads that cannot end their waits changes nothing. */
  lemma {:induction false} PassOfNone(autoReset: seq<bool>, a: State, list: seq<nat>)
    requires NoLostWakeUp(a.signaled, a.waits)
    ensures Pass(autoReset, a, list) == a
  {
    if list != [] { PassOfNone(autoReset, a, list[1..]); }
  }

  lemma {:induction false} PassAppend(autoReset: seq<bool>, a: State, list: seq<nat>, k: nat)
    requires k <= |list|
    ensures Pass(autoReset, a, list) == Pass(autoReset, Pass(autoReset, a, list[..k]), list[k..])
    decreases list
  {
    if k > 0 {
      assert list[..k][1..] == list[1..][..k - 1];
      PassAppend(autoReset, End(autoReset, a, list[0]), list[1..], k - 1);
    } else {
      assert list[..0] == [] && list[0..] == list;
    }
  }

  lemma PassNext(autoReset: seq<bool>, a: State, list: seq<nat>, i: nat)
    requires i < |list|
    ensures Pass(autoReset, a, list[..i + 1]) == End(autoReset, Pass(autoReset, a, list[..i]), list[i])
  {
    PassAppend(autoReset, a, list[..i + 1], i);
    assert list[..i + 1][..i] == list[..i] && list[..i + 1][i..] == [list[i]];
    assert [list[i]][1..] == [];
  }

  /** The flags of a are those of a quiet state, but for o. */
  ghost predicate OnlyNew(before: seq<bool>, o: nat, a: State) {
    && |before| == |a.signaled| && o < |before| && NoLostWakeUp(before, a.waits)
    && forall i {:trigger a.signaled[i]} :: 0 <= i < |before| && a.signaled[i] && i != o ==> before[i]
  }

  /** A wait that ends without taking o could have ended without the signal of o. */
  lemma SatisfiedWithout(before: seq<bool>, signaled: seq<bool>, o: nat, w: Wait)
    requires |before| == |signaled| && Satisfied(signaled, w) && o !in Taken(signaled, w)
    requires forall i {:trigger signaled[i]} :: 0 <= i < |before| && signaled[i] && i != o ==> before[i]
    ensures Satisfied(before, w)
  {
    if w.waitAll {
      forall i {:trigger w.objects[i]} | 0 <= i < |w.objects| ensures On(before, w.objects[i]) { assert On(signaled, w.objects[i]); }
    } else {
      assert On(before, w.objects[FirstOn(signaled, w.objects)]);
    }
  }

  /** The wait that a new signal of o ends takes o; if o resets itself, it is gone then. */
  lemma NewSignalTaken(autoReset: seq<bool>, before: seq<bool>, o: nat, a: State, th: nat)
    requires OnlyNew(before, o, a) && th < |a.waits| && th < |a.results| && Satisfied(a.signaled, a.waits[th])
    ensures OnlyNew(before, o, End(autoReset, a, th))
    ensures On(autoReset, o) ==> !On(End(autoReset, a, th).signaled, o)
    ensures On(autoReset, o) ==> NoLostWakeUp(End(autoReset, a, th).signaled, End(autoReset, a, th).waits)
  {
    var w, b := a.waits[th], End(autoReset, a, th);
    EndLater(autoReset, a, th);
    if o !in Taken(a.signaled, w) {
      SatisfiedWithout(before, a.signaled, o, w);
      assert false;
    }
    forall t {:trigger b.waits[t]} | 0 <= t < |b.waits| ensures !Satisfied(before, b.waits[t]) && (On(autoReset, o) ==> !Satisfied(b.signaled, b.waits[t])) {
      assert b.waits[t] == a.waits[t] || b.waits[t].NoWait?;
      if On(autoReset, o) && Satisfied(b.signaled, b.waits[t]) {
        FewerSignals(before, b.signaled, b.waits[t]);
      }
    }
  }

  /** The number of threads that wait. */
  ghost function Waits(waits: seq<Wait>): nat {
    if waits == [] then 0 else Waits(waits[..|waits| - 1]) + if waits[|waits| - 1].Wait? then 1 else 0
  }

  lemma {:induction false} WaitsLess(waits: seq<Wait>, t: nat)
    requires t < |waits| && waits[t].Wait?
    ensures Waits(waits[t := NoWait]) + 1 == Waits(waits)
  {
    var n := |waits| - 1;
    if t == n {
      assert waits[t := NoWait][..n] == waits[..n];
    } else {
      assert waits[t := NoWait][..n] == waits[..n][t := NoWait];
      WaitsLess(waits[..n], t);
    }
  }

  /** A signal of an auto-reset event ends at most one wait. */
  lemma {:induction false} AutoResetEndsOne(autoReset: seq<bool>, before: seq<bool>, o: nat, a: State, list: seq<nat>)
    requires OnlyNew(before, o, a) && On(autoReset, o)
    ensures Waits(a.waits) <= Waits(Pass(autoReset, a, list).waits) + 1
    ensures Waits(Pass(autoReset, a, list).waits) < Waits(a.waits) ==> !On(Pass(autoReset, a, list).signaled, o)
  {
    if list != [] {
      var th := list[0];
      if th < |a.waits| && th < |a.results| && Satisfied(a.signaled, a.waits[th]) {
        NewSignalTaken(autoReset, before, o, a, th);
        PassOfNone(autoReset, End(autoReset, a, th), list[1..]);
        WaitsLess(a.waits, th);
      } else {
        AutoResetEndsOne(autoReset, before, o, a, list[1..]);
      }
    }
  }

  // The program.

  class EventTable {
    const autoReset: seq<bool>
    /** The signaled flags of the events. */
    const signaled: array<bool>
    /** For each thread, what it waits for and how its last wait ended. */
    var waits: seq<Wait>
    var results: seq<int>
    /** The threads that wait, for events or for something else, in the order of their arrival. */
    var waiting: seq<nat>

    ghost function St(): State
      reads this, signaled
    {
      State(signaled[..], waits, results, waiting)
    }

    ghost predicate Valid()
      reads this, signaled
    {
      && signaled.Length == |autoReset| && Listed(St())
      && NoLostWakeUp(signaled[..], waits)
    }

    constructor (autoReset: seq<bool>, threads: nat)
      ensures Valid() && this.autoReset == autoReset && |waits| == threads && fresh(signaled)
      ensures forall o :: 0 <= o < signaled.Length ==> !signaled[o]
    {
      this.autoReset := autoReset;
      signaled := new bool[|autoReset|](_ => false);
      waits, results, waiting := seq(threads, _ => NoWait), seq(threads, _ => WAIT_RESULT_INIT), [];
    }

    /** Resets the auto-reset events among some objects. */
    method ResetTaken(objects: seq<nat>)
      requires signaled.Length == |autoReset|
      modifies signaled
      ensures signaled[..] == Reset(autoReset, old(signaled[..]), objects)
    {
      var i := 0;
      while i < |objects|
        invariant i <= |objects|
        invariant forall o :: 0 <= o < signaled.Length ==> signaled[o] == (old(signaled[o]) && !(On(autoReset, o) && o in objects[..i]))
      {
        if On(autoReset, objects[i]) {
          signaled[objects[i]] := false;
        }
        i := i + 1;
      }
      assert objects[..i] == objects;
    }

    /** Ends a wait if it can end now. Wait-all looks at all events before it resets any. */
    method TryWaitForSignal(th: nat, objects: seq<nat>, waitAll: bool) returns (done: bool)
      requires signaled.Length == |autoReset| && th < |results|
      modifies this`results, signaled
      ensures done <==> Satisfied(old(signaled[..]), Wait(objects, waitAll))
      ensures !done ==> signaled[..] == old(signaled[..]) && results == old(results)
      ensures done ==> signaled[..] == Reset(autoReset, old(signaled[..]), Taken(old(signaled[..]), Wait(objects, waitAll)))
      ensures done ==> results == old(results)[th := ResultOf(old(signaled[..]), Wait(objects, waitAll))]
      ensures WaitEnded(autoReset, old(signaled[..]), objects, waitAll, done, signaled[..], results[th])
    {
      EndedIs(autoReset, signaled[..], Wait(objects, waitAll));
      if waitAll {
        done := TryAll(th, objects);
      } else {
        done := TryAny(th, objects);
      }
    }

    method TryAll(th: nat, objects: seq<nat>) returns (done: bool)
      requires signaled.Length == |autoReset| && th < |results|
      modifies this`results, signaled
      ensures done <==> AllOn(old(signaled[..]), objects)
      ensures !done ==> signaled[..] == old(signaled[..]) && results == old(results)
      ensures done ==> signaled[..] == Reset(autoReset, old(signaled[..]), objects) && results == old(results)[th := WAIT_RESULT_HANDLE_ALL]
    {
      var i := 0;
      while i < |objects|
        invariant i <= |objects|
        invariant forall j {:trigger objects[j]} :: 0 <= j < i ==> On(signaled[..], objects[j])
      {
        if !(objects[i] < signaled.Length && signaled[objects[i]]) { return false; }
        i := i + 1;
      }
      ResetTaken(objects);
      results := results[th := WAIT_RESULT_HANDLE_ALL];
      done := true;
    }

    method TryAny(th: nat, objects: seq<nat>) returns (done: bool)
      requires signaled.Length == |autoReset| && th < |results|
      modifies this`results, signaled
      ensures done <==> FirstOn(old(signaled[..]), objects) < |objects|
      ensures !done ==> signaled[..] == old(signaled[..]) && results == old(results)
      ensures done ==> signaled[..] == Reset(autoReset, old(signaled[..]), [objects[FirstOn(old(signaled[..]), objects)]])
      ensures done ==> results == old(results)[th := FirstOn(old(signaled[..]), objects)]
    {
      ghost var before := signaled[..];
      var i := 0;
      while i < |objects|
        invariant i <= |objects| && signaled[..] == before
        invariant FirstOn(before, objects) == i + FirstOn(before, objects[i..])
      {
        if objects[i] < signaled.Length && signaled[objects[i]] {
          ResetTaken([objects[i]]);
          results := results[th := i];
          return true;
        }
        assert objects[i..][1..] == objects[i + 1..];
        i := i + 1;
      }
      done := false;
    }

    /** A waiting thread ends its wait if it can, and gets ready to run. */
    method TryThread(th: nat)
      requires signaled.Length == |autoReset| && th < |waits| == |results|
      modifies this`waits, this`results, this`waiting, signaled
      ensures St() == End(autoReset, old(St()), th)
      ensures |waits| == |old(waits)| && |results| == |old(results)| && (waits[th].NoWait? || waits[th] == old(waits)[th])
      ensures old(waits)[th].Wait? ==>
        WaitEnded(autoReset, old(signaled[..]), old(waits)[th].objects, old(waits)[th].waitAll, waits[th].NoWait?, signaled[..], results[th])
    {
      if waits[th].Wait? {
        var done := TryWaitForSignal(th, waits[th].objects, waits[th].waitAll);
        if done {
          waiting := Without(waiting, th);
          waits := waits[th := NoWait];
        }
      }
    }

    /** One of the waiting threads, after a signal of the event. */
    method TryNext(th: nat, ghost before: seq<bool>, ghost event: nat)
      requires Listed(St()) && |autoReset| == |before| && th < |waits| && OnlyNew(before, event, St())
      modifies this`waits, this`results, this`waiting, signaled
      ensures St() == End(autoReset, old(St()), th) && Listed(St()) && OnlyNew(before, event, St())
    {
      ghost var a := St();
      TryThread(th);
      EndListed(autoReset, a, th);
      if Satisfied(a.signaled, a.waits[th]) { NewSignalTaken(autoReset, before, event, a, th); }
    }

    /** Sets an event and lets the waiting threads try, in their order, until an auto-reset event is gone. */
    method SignalObject(event: nat)
      requires Valid() && event < signaled.Length
      modifies this`waits, this`results, this`waiting, signaled
      ensures St() == Pass(autoReset, old(St()).(signaled := old(signaled[..])[event := true]), old(waiting))
      ensures Valid()
      ensures On(autoReset, event) ==> Waits(old(waits)) <= Waits(waits) + 1
      ensures AllAnswered(old(St()).(signaled := old(signaled[..])[event := true]), St())
    {
      ghost var before := signaled[..];
      ghost var start := St().(signaled := before[event := true]);
      signaled[event] := true;
      var list := waiting;
      forall k {:trigger list[k]} | 0 <= k < |list| ensures list[k] < |waits| { assert list[k] in waiting; }
      var i := 0;
      while i < |list|
        invariant i <= |list| && Listed(St()) && |autoReset| == |before|
        invariant forall k {:trigger list[k]} :: 0 <= k < |list| ==> list[k] < |waits|
        invariant St() == Pass(autoReset, start, list[..i])
        invariant OnlyNew(before, event, St())
      {
        TryNext(list[i], before, event);
        PassNext(autoReset, start, list, i);
        i := i + 1;
        if !signaled[event] { break; }
      }
      PassComplete(autoReset, before, event, start, list, i, St());
      if On(autoReset, event) { AutoResetEndsOne(autoReset, before, event, start, list); }
      AllPassAnswers(autoReset, start, list);
    }

    /** A running thread waits: at once it takes what it can, otherwise it joins the waiting threads. */
    method WaitForSignal(th: nat, objects: seq<Ref>, waitAll: bool) returns (r: Status)
      requires Valid() && th < |waits| && waits[th].NoWait? && th !in waiting
      modifies this`waits, this`results, this`waiting, signaled
      ensures Valid()
      ensures r == InvalidParameter <==> |objects| > MAX_OBJECTS
      ensures r == NullReference <==> |objects| <= MAX_OBJECTS && Null in objects
      ensures r == InvalidParameter || r == NullReference ==> St() == old(St())
      ensures |results| == |old(results)|
      ensures r == Ok || r == ThreadWaiting ==>
        WaitEnded(autoReset, old(signaled[..]), Ids(objects), waitAll, r == Ok, signaled[..], results[th])
      ensures r == Ok || r == ThreadWaiting ==>
        var w := Wait(Ids(objects), waitAll);
        && (r == Ok <==> Satisfied(old(signaled[..]), w))
        && (r == Ok ==> St() == old(St()).(signaled := Reset(autoReset, old(signaled[..]), Taken(old(signaled[..]), w)),
                                           results := old(results)[th := ResultOf(old(signaled[..]), w)]))
        && (r == ThreadWaiting ==> St() == old(St()).(waits := old(waits)[th := w], results := old(results)[th := WAIT_RESULT_INIT],
                                                      waiting := old(waiting) + [th]))
    {
      if |objects| > MAX_OBJECTS { return InvalidParameter; }
      var i := 0;
      while i < |objects|
        invariant i <= |objects| && Null !in objects[..i]
      {
        if objects[i].Null? { return NullReference; }
        i := i + 1;
      }
      assert objects[..i] == objects;
      ghost var before := signaled[..];
      var done := TryWaitForSignal(th, Ids(objects), waitAll);
      if done {
        forall t {:trigger waits[t]} | 0 <= t < |waits| ensures !Satisfied(signaled[..], waits[t]) {
          if Satisfied(signaled[..], waits[t]) { FewerSignals(before, signaled[..], waits[t]); }
        }
        return Ok;
      }
      waits := waits[th := Wait(Ids(objects), waitAll)];
      results := results[th := WAIT_RESULT_INIT];
      waiting := waiting + [th];
      r := ThreadWaiting;
    }

    /** The time of a wait is over: the thread goes on, the events stay as they are. */
    method Expire(th: nat)
      requires Valid() && th < |waits| && waits[th].Wait?
      modifies this`waits, this`results, this`waiting
      ensures Valid()
      ensures St() == old(St()).(waits := old(waits)[th := NoWait], results := old(results)[th := WAIT_RESULT_TIMEOUT],
                                 waiting := Without(old(waiting), th))
    {
      results := results[th := WAIT_RESULT_TIMEOUT];
      DroppedElements(waiting, th);
      waiting := Without(waiting, th);
      waits := waits[th := NoWait];
    }

    method ResetEvent(event: nat)
      requires Valid() && event < signaled.Length
      modifies signaled
      ensures Valid() && signaled[..] == old(signaled[..])[event := false]
    {
      ghost var before := signaled[..];
      signaled[event] := false;
      forall t {:trigger waits[t]} | 0 <= t < |waits| ensures !Satisfied(signaled[..], waits[t]) {
        if Satisfied(signaled[..], waits[t]) { FewerSignals(before, signaled[..], waits[t]); }
      }
    }
  }

  /** The events behind non-null references. */
  function Ids(objects: seq<Ref>): (ids: seq<nat>)
    requires Null !in objects
    ensures |ids| == |objects| && forall i :: 0 <= i < |ids| ==> objects[i] == Event(ids[i])
  {
    if objects == [] then [] else [objects[0].id] + Ids(objects[1..])
  }

  /** Whoever waits is in the list. */
  ghost predicate Listed(a: State) {
    && |a.waits| == |a.results|
    && (forall t {:trigger a.waits[t]} :: 0 <= t < |a.waits| && a.waits[t].Wait? ==> t in a.waiting)
    && (forall t {:trigger t in a.waiting} :: t in a.waiting ==> t < |a.waits|)
  }

  lemma {:induction false} DroppedElements(s: seq<nat>, x: nat)
    ensures forall y {:trigger y in Without(s, x)} :: y in Without(s, x) <==> y in s && y != x
  {
    if s != [] { DroppedElements(s[1..], x); }
  }

  lemma EndListed(autoReset: seq<bool>, a: State, th: nat)
    requires Listed(a)
    ensures Listed(End(autoReset, a, th))
  {
    DroppedElements(a.waiting, th);
  }

  /** Stopping early is as good as going on: nobody else could have ended a wait. */
  lemma PassComplete(autoReset: seq<bool>, before: seq<bool>, o: nat, start: State, list: seq<nat>, i: nat, now: State)
    requires i <= |list| && now == Pass(autoReset, start, list[..i]) && OnlyNew(before, o, now)
    requires i == |list| || !On(now.signaled, o)
    requires Listed(start) && list == start.waiting
    ensures now == Pass(autoReset, start, list)
    ensures NoLostWakeUp(now.signaled, now.waits)
  {
    PassAppend(autoReset, start, list, i);
    if !On(now.signaled, o) {
      forall t {:trigger now.waits[t]} | 0 <= t < |now.waits| ensures !Satisfied(now.signaled, now.waits[t]) {
        if Satisfied(now.signaled, now.waits[t]) { FewerSignals(before, now.signaled, now.waits[t]); }
      }
      PassOfNone(autoReset, now, list[i..]);
    } else {
      assert list[..i] == list;
      PassLater(autoReset, start, list);
      forall t {:trigger now.waits[t]} | 0 <= t < |now.waits| ensures !Satisfied(now.signaled, now.waits[t]) {
        if start.waits[t].Wait? { PassLeavesNone(autoReset, start, list, t); }
      }
    }
  }
}
