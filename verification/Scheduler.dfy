/** The scheduler: ready threads are kept by execution counter, highest first, and each quantum a thread
    runs is debited to its counter. */
module Scheduler {
  import NodeList

  const SYSTEM_HIGHEST: nat := 5
  /** A thread that was away for long is credited at most this much above the lowest counter. */
  const MAX_CREDIT: int := 33

  datatype State = State(counters: seq<int>, ready: seq<nat>, lowest: int)

  /** What one quantum costs: from 1 for the highest priority to 32 for the lowest one. */
  function QuantumDebit(priority: nat): (d: nat)
    requires priority <= SYSTEM_HIGHEST
    ensures d in {1, 2, 4, 8, 16, 32}
  {
    if priority == 5 then 1 else if priority == 4 then 2 else if priority == 3 then 4 else if priority == 2 then 8 else if priority == 1 then 16 else 32
  }

  /** One step of priority doubles it. */
  lemma DebitDoubles(priority: nat)
    requires priority < SYSTEM_HIGHEST
    ensures QuantumDebit(priority) == 2 * QuantumDebit(priority + 1) && QuantumDebit(SYSTEM_HIGHEST) == 1
  {
  }

  ghost predicate PrioritiesOk(priorities: seq<nat>) {
    forall t {:trigger priorities[t]} :: 0 <= t < |priorities| ==> priorities[t] <= SYSTEM_HIGHEST
  }

  /** The order of the ready list goes by counter plus priority. */
  function Rank(priorities: seq<nat>, counters: seq<int>, t: nat): int {
    if t < |priorities| && t < |counters| then priorities[t] + counters[t] else 0
  }

  ghost predicate Sorted(priorities: seq<nat>, counters: seq<int>, list: seq<nat>) {
    forall i, j {:trigger list[i], list[j]} :: 0 <= i < j < |list| ==> Rank(priorities, counters, list[i]) >= Rank(priorities, counters, list[j])
  }

  ghost predicate StateOk(priorities: seq<nat>, s: State) {
    && PrioritiesOk(priorities) && |s.counters| == |priorities|
    && (forall i {:trigger s.ready[i]} :: 0 <= i < |s.ready| ==> s.ready[i] < |priorities|)
    && NodeList.Unique(s.ready) && Sorted(priorities, s.counters, s.ready)
  }

  // Insertion.

  /** In front of the first thread with a smaller rank. */
  function PlaceFor(priorities: seq<nat>, counters: seq<int>, list: seq<nat>, rank: int): (k: nat)
    ensures k <= |list|
    ensures forall i :: 0 <= i < k ==> Rank(priorities, counters, list[i]) >= rank
    ensures k < |list| ==> Rank(priorities, counters, list[k]) < rank
  {
    if list == [] || Rank(priorities, counters, list[0]) < rank then 0 else 1 + PlaceFor(priorities, counters, list[1..], rank)
  }

  /** Thread th is in place k: nobody before it has a smaller sum of priority and counter, the next one has. */
  ghost predicate QueuedAt(priorities: seq<nat>, counters: seq<int>, list: seq<nat>, k: nat, th: nat) {
    && |priorities| == |counters| && k < |list| && list[k] == th < |priorities|
    && (forall i {:trigger list[i]} :: 0 <= i < k ==> list[i] < |priorities| && priorities[list[i]] + counters[list[i]] >= priorities[th] + counters[th])
    && (k + 1 < |list| ==> list[k + 1] < |priorities| && priorities[list[k + 1]] + counters[list[k + 1]] < priorities[th] + counters[th])
  }

  lemma PlaceForUnique(priorities: seq<nat>, counters: seq<int>, list: seq<nat>, rank: int, k: nat)
    requires k <= |list| && forall i :: 0 <= i < k ==> Rank(priorities, counters, list[i]) >= rank
    requires k < |list| ==> Rank(priorities, counters, list[k]) < rank
    ensures PlaceFor(priorities, counters, list, rank) == k
  {
  }

  function Inserted(priorities: seq<nat>, counters: seq<int>, list: seq<nat>, t: nat): seq<nat> {
    var k := PlaceFor(priorities, counters, list, Rank(priorities, counters, t));
    list[..k] + [t] + list[k..]
  }

  lemma PutIn(priorities: seq<nat>, counters: seq<int>, list: seq<nat>, th: nat, k: nat)
    requires th < |priorities| == |counters| && forall i {:trigger list[i]} :: 0 <= i < |list| ==> list[i] < |priorities|
    requires k <= |list| && forall i :: 0 <= i < k ==> Rank(priorities, counters, list[i]) >= Rank(priorities, counters, th)
    requires k < |list| ==> Rank(priorities, counters, list[k]) < Rank(priorities, counters, th)
    ensures list[..k] + [th] + list[k..] == Inserted(priorities, counters, list, th)
    ensures QueuedAt(priorities, counters, list[..k] + [th] + list[k..], k, th)
  {
    PlaceForUnique(priorities, counters, list, Rank(priorities, counters, th), k);
    var r := list[..k] + [th] + list[k..];
    forall i {:trigger r[i]} | 0 <= i < k
      ensures r[i] < |priorities| && priorities[r[i]] + counters[r[i]] >= priorities[th] + counters[th]
    {
      assert r[i] == list[i] && Rank(priorities, counters, list[i]) >= Rank(priorities, counters, th);
    }
    assert k < |list| ==> r[k + 1] == list[k];
  }

  /** r is list with t put in at k. */
  ghost predicate InsertedAt(list: seq<nat>, k: nat, t: nat, r: seq<nat>) {
    && k <= |list| && |r| == |list| + 1
    && (forall i {:trigger r[i]} :: 0 <= i < |r| ==> r[i] == if i < k then list[i] else if i == k then t else list[i - 1])
  }

  lemma InsertedPoint(priorities: seq<nat>, counters: seq<int>, list: seq<nat>, t: nat)
    ensures InsertedAt(list, PlaceFor(priorities, counters, list, Rank(priorities, counters, t)), t, Inserted(priorities, counters, list, t))
  {
  }

  lemma SortedAt(priorities: seq<nat>, counters: seq<int>, list: seq<nat>, k: nat, t: nat, r: seq<nat>)
    requires Sorted(priorities, counters, list) && InsertedAt(list, k, t, r)
    requires forall i :: 0 <= i < |list| ==> (Rank(priorities, counters, list[i]) >= Rank(priorities, counters, t) <==> i < k)
    ensures Sorted(priorities, counters, r)
  {
  }

  lemma UniqueAt(list: seq<nat>, k: nat, t: nat, r: seq<nat>)
    requires NodeList.Unique(list) && t !in list && InsertedAt(list, k, t, r)
    ensures NodeList.Unique(r)
    ensures forall u {:trigger u in r} :: u in r <==> u == t || u in list
  {
    forall u {:trigger u in r} ensures u in r <==> u == t || u in list {
      if u in list {
        var i :| 0 <= i < |list| && list[i] == u;
        assert r[if i < k then i else i + 1] == u;
      }
      assert r[k] == t;
    }
  }

  /** Insertion keeps the list sorted and puts a thread behind the ones it ties with. */
  lemma InsertedSorted(priorities: seq<nat>, counters: seq<int>, list: seq<nat>, t: nat)
    requires Sorted(priorities, counters, list)
    ensures Sorted(priorities, counters, Inserted(priorities, counters, list, t))
    ensures var k := PlaceFor(priorities, counters, list, Rank(priorities, counters, t));
      forall i :: 0 <= i < |list| ==> (Rank(priorities, counters, list[i]) >= Rank(priorities, counters, t) <==> i < k)
  {
    var k := PlaceFor(priorities, counters, list, Rank(priorities, counters, t));
    forall i | 0 <= i < |list| ensures Rank(priorities, counters, list[i]) >= Rank(priorities, counters, t) <==> i < k {
      if k <= i { assert Rank(priorities, counters, list[k]) >= Rank(priorities, counters, list[i]); }
    }
    InsertedPoint(priorities, counters, list, t);
    SortedAt(priorities, counters, list, k, t, Inserted(priorities, counters, list, t));
  }

  lemma InsertedUnique(priorities: seq<nat>, counters: seq<int>, list: seq<nat>, t: nat)
    requires NodeList.Unique(list) && t !in list
    ensures NodeList.Unique(Inserted(priorities, counters, list, t))
    ensures forall u {:trigger u in Inserted(priorities, counters, list, t)} :: u in Inserted(priorities, counters, list, t) <==> u == t || u in list
  {
    InsertedPoint(priorities, counters, list, t);
    UniqueAt(list, PlaceFor(priorities, counters, list, Rank(priorities, counters, t)), t, Inserted(priorities, counters, list, t));
  }

  // One quantum.

  /** The counter of the thread that runs. */
  function Debited(priorities: seq<nat>, s: State, h: nat): int
    requires h < |s.counters| && h < |priorities| && priorities[h] <= SYSTEM_HIGHEST
  {
    (if s.counters[h] - s.lowest > MAX_CREDIT then s.lowest + MAX_CREDIT else s.counters[h]) - QuantumDebit(priorities[h])
  }

  /** The state after the first ready thread has run for a quantum; stays tells that it is still ready then. */
  function Quantum(priorities: seq<nat>, s: State, stays: bool): State
    requires s.ready != [] && s.ready[0] < |s.counters| && s.ready[0] < |priorities| && priorities[s.ready[0]] <= SYSTEM_HIGHEST
  {
    var h := s.ready[0];
    var c := Debited(priorities, s, h);
    var counters := s.counters[h := c];
    State(counters, if stays then Inserted(priorities, counters, s.ready[1..], h) else s.ready[1..], if c < s.lowest then c else s.lowest)
  }

  lemma SortedFrame(priorities: seq<nat>, counters: seq<int>, counters': seq<int>, list: seq<nat>)
    requires Sorted(priorities, counters, list) && |counters'| == |counters|
    requires forall i {:trigger list[i]} :: 0 <= i < |list| && list[i] < |counters| ==> counters'[list[i]] == counters[list[i]]
    ensures Sorted(priorities, counters', list)
  {
    forall i, j {:trigger list[i], list[j]} | 0 <= i < j < |list| ensures Rank(priorities, counters', list[i]) >= Rank(priorities, counters', list[j]) {
      assert Rank(priorities, counters', list[i]) == Rank(priorities, counters, list[i]);
      assert Rank(priorities, counters', list[j]) == Rank(priorities, counters, list[j]);
    }
  }

  lemma QuantumOk(priorities: seq<nat>, s: State, stays: bool)
    requires StateOk(priorities, s) && s.ready != []
    ensures StateOk(priorities, Quantum(priorities, s, stays))
    ensures forall u {:trigger u in Quantum(priorities, s, stays).ready} :: u in Quantum(priorities, s, stays).ready ==> u in s.ready
    ensures forall u {:trigger u in s.ready} :: u in s.ready && u != s.ready[0] ==> u in Quantum(priorities, s, stays).ready
    ensures stays ==> s.ready[0] in Quantum(priorities, s, stays).ready
  {
    var h, rest, counters := s.ready[0], s.ready[1..], Quantum(priorities, s, stays).counters;
    RestOk(priorities, s);
    SortedFrame(priorities, s.counters, counters, rest);
    InsertedSorted(priorities, counters, rest, h);
    InsertedUnique(priorities, counters, rest, h);
    assert s.ready == [h] + rest;
    if stays { AllBelow(Inserted(priorities, counters, rest, h), s.ready, |priorities|); }
  }

  lemma RestOk(priorities: seq<nat>, s: State)
    requires StateOk(priorities, s) && s.ready != []
    ensures NodeList.Unique(s.ready[1..]) && Sorted(priorities, s.counters, s.ready[1..])
    ensures forall i {:trigger s.ready[1..][i]} :: 0 <= i < |s.ready| - 1 ==> s.ready[1..][i] != s.ready[0] && s.ready[1..][i] < |priorities|
  {
    forall i {:trigger s.ready[1..][i]} | 0 <= i < |s.ready| - 1 ensures s.ready[1..][i] != s.ready[0] && s.ready[1..][i] < |priorities| {
      assert s.ready[1..][i] == s.ready[i + 1];
    }
  }

  lemma AllBelow(list: seq<nat>, all: seq<nat>, n: nat)
    requires forall i {:trigger all[i]} :: 0 <= i < |all| ==> all[i] < n
    requires forall u {:trigger u in list} :: u in list ==> u in all
    ensures forall i {:trigger list[i]} :: 0 <= i < |list| ==> list[i] < n
  {
    forall i {:trigger list[i]} | 0 <= i < |list| ensures list[i] < n { assert list[i] in list; }
  }

  // No starvation.

  /** How many quanta thread u can get before thread t must. */
  function Ahead(priorities: seq<nat>, counters: seq<int>, u: nat, t: nat): (n: nat)
    requires u < |priorities| && priorities[u] <= SYSTEM_HIGHEST
  {
    var gap := Rank(priorities, counters, u) - Rank(priorities, counters, t);
    if gap < 0 then 0 else gap / QuantumDebit(priorities[u]) + 1
  }

  /** The same for all other threads of a list together. */
  ghost function Bound(priorities: seq<nat>, counters: seq<int>, list: seq<nat>, t: nat): nat
    requires PrioritiesOk(priorities) && forall i {:trigger list[i]} :: 0 <= i < |list| ==> list[i] < |priorities|
  {
    if list == [] then 0
    else (if list[0] == t then 0 else Ahead(priorities, counters, list[0], t)) + Bound(priorities, counters, list[1..], t)
  }

  lemma {:induction false} BoundSame(priorities: seq<nat>, counters: seq<int>, counters': seq<int>, list: seq<nat>, t: nat)
    requires PrioritiesOk(priorities) && forall i {:trigger list[i]} :: 0 <= i < |list| ==> list[i] < |priorities|
    requires |counters'| == |counters| && Rank(priorities, counters', t) == Rank(priorities, counters, t)
    requires forall i {:trigger list[i]} :: 0 <= i < |list| ==> Rank(priorities, counters', list[i]) == Rank(priorities, counters, list[i])
    ensures Bound(priorities, counters', list, t) == Bound(priorities, counters, list, t)
  {
    if list != [] {
      assert Rank(priorities, counters', list[0]) == Rank(priorities, counters, list[0]);
      BoundSame(priorities, counters, counters', list[1..], t);
    }
  }

  lemma {:induction false} BoundInsert(priorities: seq<nat>, counters: seq<int>, list: seq<nat>, k: nat, u: nat, t: nat)
    requires PrioritiesOk(priorities) && (forall i {:trigger list[i]} :: 0 <= i < |list| ==> list[i] < |priorities|)
    requires u < |priorities| && u != t && k <= |list|
    requires forall i {:trigger (list[..k] + [u] + list[k..])[i]} :: 0 <= i <= |list| ==> (list[..k] + [u] + list[k..])[i] < |priorities|
    ensures Bound(priorities, counters, list[..k] + [u] + list[k..], t) == Bound(priorities, counters, list, t) + Ahead(priorities, counters, u, t)
  {
    var r := list[..k] + [u] + list[k..];
    if k == 0 {
      assert r[0] == u && r[1..] == list;
    } else {
      var r1 := list[1..][..k - 1] + [u] + list[1..][k - 1..];
      assert r[0] == list[0] && r[1..] == r1;
      forall i {:trigger r1[i]} | 0 <= i < |list| ensures r1[i] < |priorities| { assert r1[i] == r[i + 1]; }
      BoundInsert(priorities, counters, list[1..], k - 1, u, t);
    }
  }

  /** A thread that was ahead of t and has run for a quantum has one quantum less ahead of it. */
  lemma DebitCounts(priorities: seq<nat>, s: State, h: nat, t: nat)
    requires h < |s.counters| == |priorities| && t < |priorities| && h != t && PrioritiesOk(priorities)
    requires Rank(priorities, s.counters, h) >= Rank(priorities, s.counters, t)
    ensures Ahead(priorities, s.counters[h := Debited(priorities, s, h)], h, t) < Ahead(priorities, s.counters, h, t)
  {
    var d := QuantumDebit(priorities[h]);
    var gap := Rank(priorities, s.counters, h) - Rank(priorities, s.counters, t);
    var counters := s.counters[h := Debited(priorities, s, h)];
    var gap' := Rank(priorities, counters, h) - Rank(priorities, counters, t);
    assert gap' <= gap - d;
    if gap' >= 0 { QuotientDrops(gap, gap', d); }
  }

  lemma QuotientDrops(a: nat, b: nat, d: nat)
    requires d in {1, 2, 4, 8, 16, 32} && b + d <= a
    ensures b / d + 1 <= a / d
  {
    if d == 1 { assert b / 1 + 1 <= a / 1; }
    else if d == 2 { assert b / 2 + 1 <= a / 2; }
    else if d == 4 { assert b / 4 + 1 <= a / 4; }
    else if d == 8 { assert b / 8 + 1 <= a / 8; }
    else if d == 16 { assert b / 16 + 1 <= a / 16; }
    else { assert b / 32 + 1 <= a / 32; }
  }

  /** Every quantum that another thread gets lowers the bound of t. */
  lemma QuantumLowersBound(priorities: seq<nat>, s: State, stays: bool, t: nat)
    requires StateOk(priorities, s) && t in s.ready && s.ready[0] != t
    ensures StateOk(priorities, Quantum(priorities, s, stays))
    ensures var s' := Quantum(priorities, s, stays);
      t in s'.ready && Bound(priorities, s'.counters, s'.ready, t) < Bound(priorities, s.counters, s.ready, t)
  {
    QuantumOk(priorities, s, stays);
    var h, rest, s' := s.ready[0], s.ready[1..], Quantum(priorities, s, stays);
    var i :| 0 <= i < |s.ready| && s.ready[i] == t;
    assert Rank(priorities, s.counters, s.ready[0]) >= Rank(priorities, s.counters, s.ready[i]);
    DebitCounts(priorities, s, h, t);
    RestRanks(priorities, s, stays);
    BoundSame(priorities, s.counters, s'.counters, rest, t);
    if stays {
      BoundInserted(priorities, s'.counters, rest, h, t);
    }
  }

  /** The other ready threads keep their ranks. */
  lemma RestRanks(priorities: seq<nat>, s: State, stays: bool)
    requires StateOk(priorities, s) && s.ready != []
    ensures forall j {:trigger s.ready[1..][j]} :: 0 <= j < |s.ready| - 1 ==>
      s.ready[1..][j] < |priorities| && Rank(priorities, Quantum(priorities, s, stays).counters, s.ready[1..][j]) == Rank(priorities, s.counters, s.ready[1..][j])
  {
    forall j {:trigger s.ready[1..][j]} | 0 <= j < |s.ready| - 1
      ensures s.ready[1..][j] < |priorities| && Rank(priorities, Quantum(priorities, s, stays).counters, s.ready[1..][j]) == Rank(priorities, s.counters, s.ready[1..][j])
    {
      assert s.ready[1..][j] == s.ready[j + 1];
    }
  }

  lemma BoundInserted(priorities: seq<nat>, counters: seq<int>, list: seq<nat>, u: nat, t: nat)
    requires PrioritiesOk(priorities) && (forall i {:trigger list[i]} :: 0 <= i < |list| ==> list[i] < |priorities|)
    requires u < |priorities| && u != t
    ensures var r := Inserted(priorities, counters, list, u);
      && (forall i {:trigger r[i]} :: 0 <= i < |r| ==> r[i] < |priorities|)
      && Bound(priorities, counters, r, t) == Bound(priorities, counters, list, t) + Ahead(priorities, counters, u, t)
  {
    var k := PlaceFor(priorities, counters, list, Rank(priorities, counters, u));
    InsertedPoint(priorities, counters, list, u);
    BoundInsert(priorities, counters, list, k, u, t);
  }

  /** The state after a run of quanta without new arrivals. */
  ghost function Run(priorities: seq<nat>, s: State, stays: seq<bool>): State
    requires StateOk(priorities, s)
    ensures StateOk(priorities, Run(priorities, s, stays))
    decreases stays
  {
    if stays == [] || s.ready == [] then s
    else
      QuantumOk(priorities, s, stays[0]);
      Run(priorities, Quantum(priorities, s, stays[0]), stays[1..])
  }

  lemma PrefixFirst(stays: seq<bool>, n: nat)
    requires n < |stays|
    ensures stays[..n + 1] == [stays[0]] + stays[1..][..n]
  {
  }

  lemma RunFirst(priorities: seq<nat>, s: State, first: bool, rest: seq<bool>)
    requires StateOk(priorities, s) && s.ready != []
    ensures StateOk(priorities, Quantum(priorities, s, first))
    ensures Run(priorities, s, [first] + rest) == Run(priorities, Quantum(priorities, s, first), rest)
  {
    QuantumOk(priorities, s, first);
    assert ([first] + rest)[1..] == rest;
  }

  /** Every ready thread gets to run: after at most as many quanta as the others are ahead of it. */
  lemma {:induction false} NoStarvation(priorities: seq<nat>, s: State, stays: seq<bool>, t: nat) returns (n: nat)
    requires StateOk(priorities, s) && t in s.ready
    requires |stays| >= Bound(priorities, s.counters, s.ready, t)
    ensures n <= |stays| && n <= Bound(priorities, s.counters, s.ready, t)
    ensures Run(priorities, s, stays[..n]).ready != [] && Run(priorities, s, stays[..n]).ready[0] == t
    decreases stays
  {
    if s.ready[0] == t {
      n := 0;
    } else {
      QuantumLowersBound(priorities, s, true, t);
      QuantumLowersBound(priorities, s, stays[0], t);
      n := NoStarvation(priorities, Quantum(priorities, s, stays[0]), stays[1..], t);
      RunFirst(priorities, s, stays[0], stays[1..][..n]);
      PrefixFirst(stays, n);
      n := n + 1;
    }
  }

  // Threads that get ready while another one is running.

  /** The ready list after h, which was its first thread, has run, and x has got ready in the meantime: while
      a thread runs it keeps its place in the list, with its counter already debited. */
  function WithArrival(priorities: seq<nat>, counters: seq<int>, h: nat, rest: seq<nat>, x: nat): seq<nat> {
    Unlinked(Inserted(priorities, counters, [h] + rest, x), h)
  }

  /** The list when thread h, if it is there, has been unlinked from it. */
  function Unlinked(list: seq<nat>, h: nat): seq<nat> {
    if list == [] then [] else if list[0] == h then list[1..] else [list[0]] + Unlinked(list[1..], h)
  }

  lemma {:induction false} UnlinkedBelow(list: seq<nat>, h: nat, n: nat)
    requires forall i {:trigger list[i]} :: 0 <= i < |list| ==> list[i] < n
    ensures forall i {:trigger Unlinked(list, h)[i]} :: 0 <= i < |Unlinked(list, h)| ==> Unlinked(list, h)[i] < n
  {
    if list != [] { UnlinkedBelow(list[1..], h, n); }
  }

  /** The others are still sorted exactly if x does not overtake the running thread, or may overtake all. */
  lemma ArrivalKeepsOrder(priorities: seq<nat>, counters: seq<int>, h: nat, rest: seq<nat>, x: nat)
    requires Sorted(priorities, counters, rest) && x != h
    ensures Sorted(priorities, counters, WithArrival(priorities, counters, h, rest, x)) <==>
      || Rank(priorities, counters, x) <= Rank(priorities, counters, h)
      || rest == []
      || Rank(priorities, counters, x) >= Rank(priorities, counters, rest[0])
  {
    if Rank(priorities, counters, h) < Rank(priorities, counters, x) {
      ArrivalInFront(priorities, counters, h, rest, x);
      var r := [x] + rest;
      if rest != [] {
        assert r[0] == x && r[1] == rest[0];
        if Rank(priorities, counters, x) >= Rank(priorities, counters, rest[0]) {
          SortedInFront(priorities, counters, rest, x);
        }
      }
    } else {
      ArrivalBehind(priorities, counters, h, rest, x);
      InsertedSorted(priorities, counters, rest, x);
    }
  }

  lemma ArrivalInFront(priorities: seq<nat>, counters: seq<int>, h: nat, rest: seq<nat>, x: nat)
    requires x != h && Rank(priorities, counters, h) < Rank(priorities, counters, x)
    ensures WithArrival(priorities, counters, h, rest, x) == [x] + rest
  {
    var list := [h] + rest;
    var r := [x] + list;
    assert Inserted(priorities, counters, list, x) == r by { assert list[..0] + [x] + list[0..] == r; }
    assert r[1..] == list && list[1..] == rest;
    assert Unlinked(list, h) == rest;
    assert Unlinked(r, h) == [r[0]] + Unlinked(r[1..], h);
  }

  lemma ArrivalBehind(priorities: seq<nat>, counters: seq<int>, h: nat, rest: seq<nat>, x: nat)
    requires x != h && Rank(priorities, counters, h) >= Rank(priorities, counters, x)
    ensures WithArrival(priorities, counters, h, rest, x) == Inserted(priorities, counters, rest, x)
  {
    var list := [h] + rest;
    var k := PlaceFor(priorities, counters, rest, Rank(priorities, counters, x));
    var after := rest[..k] + [x] + rest[k..];
    assert list[1..] == rest;
    var r := [h] + after;
    assert Inserted(priorities, counters, list, x) == r by {
      assert list[..k + 1] + [x] + list[k + 1..] == r;
    }
    assert r[1..] == after;
  }

  lemma SortedInFront(priorities: seq<nat>, counters: seq<int>, rest: seq<nat>, x: nat)
    requires Sorted(priorities, counters, rest) && rest != [] && Rank(priorities, counters, x) >= Rank(priorities, counters, rest[0])
    ensures Sorted(priorities, counters, [x] + rest)
  {
    var r := [x] + rest;
    forall i, j {:trigger r[i], r[j]} | 0 <= i < j < |r| ensures Rank(priorities, counters, r[i]) >= Rank(priorities, counters, r[j]) {
      assert r[j] == rest[j - 1];
      assert Rank(priorities, counters, rest[0]) >= Rank(priorities, counters, rest[j - 1]);
      if i > 0 { assert r[i] == rest[i - 1]; }
    }
  }

  /** It can happen that it does not: three threads of normal priority, and the first one runs while the third
      one, whose counter is lower than the second one's, gets ready. */
  lemma ArrivalCanBreakOrder()
    ensures var priorities, counters := [2, 2, 2], [2, 10, 7];
      Sorted(priorities, counters, [1]) && !Sorted(priorities, counters, WithArrival(priorities, counters, 0, [1], 2))
  {
    ArrivalKeepsOrder([2, 2, 2], [2, 10, 7], 0, [1], 2);
  }

  // The program.

  class Engine {
    const priorities: seq<nat>
    var counters: seq<int>
    var ready: seq<nat>
    var lowest: int

    ghost function St(): State
      reads this
    {
      State(counters, ready, lowest)
    }

    constructor (priorities: seq<nat>)
      requires PrioritiesOk(priorities)
      ensures this.priorities == priorities && StateOk(priorities, St()) && ready == []
    {
      this.priorities := priorities;
      counters := seq(|priorities|, _ => 0);
      ready, lowest := [], 0;
    }

    method BringExecCounterToDate(th: nat)
      requires th < |counters|
      modifies this`counters
      ensures counters == old(counters)[th := if old(counters)[th] - lowest > MAX_CREDIT then lowest + MAX_CREDIT else old(counters)[th]]
    {
      if counters[th] - lowest > MAX_CREDIT {
        counters := counters[th := lowest + MAX_CREDIT];
      }
    }

    /** Unlinks a thread, if it is linked, and puts it in front of the first one with a smaller rank. */
    method InsertThreadRoundRobin(th: nat)
      requires th < |priorities| == |counters| && forall i {:trigger ready[i]} :: 0 <= i < |ready| ==> ready[i] < |priorities|
      modifies this`ready
      ensures ready == Inserted(priorities, counters, Unlinked(old(ready), th), th)
      ensures exists k: nat :: QueuedAt(priorities, counters, ready, k, th)
    {
      UnlinkedBelow(ready, th, |priorities|);
      var list := Unlinked(ready, th);
      var rank := priorities[th] + counters[th];
      var k := 0;
      while k < |list| && priorities[list[k]] + counters[list[k]] >= rank
        invariant k <= |list| && forall i :: 0 <= i < k ==> Rank(priorities, counters, list[i]) >= rank
      {
        k := k + 1;
      }
      PutIn(priorities, counters, list, th, k);
      ready := list[..k] + [th] + list[k..];
    }

    /** The debit for the quantum that thread th is about to get. */
    method Debit(th: nat)
      requires th < |counters| == |priorities| && priorities[th] <= SYSTEM_HIGHEST
      modifies this`counters, this`lowest
      ensures counters == old(counters)[th := Debited(priorities, old(St()), th)]
      ensures lowest == if counters[th] < old(lowest) then counters[th] else old(lowest)
      ensures counters[th] < old(lowest) + MAX_CREDIT && counters[th] < old(counters)[th]
      ensures old(counters)[th] <= old(lowest) + MAX_CREDIT ==> counters[th] == old(counters)[th] - QuantumDebit(priorities[th])
      ensures old(counters)[th] >= old(lowest) + MAX_CREDIT ==> counters[th] == old(lowest) + MAX_CREDIT - QuantumDebit(priorities[th])
    {
      var debit := QuantumDebit(priorities[th]);
      BringExecCounterToDate(th);
      counters := counters[th := counters[th] - debit];
      if counters[th] < lowest {
        lowest := counters[th];
      }
    }

    /** One round of the scheduler's loop: the first ready thread runs. stays tells what it wants then. */
    method ScheduleThread(stays: bool) returns (th: nat)
      requires StateOk(priorities, St()) && ready != []
      modifies this
      ensures th == old(ready)[0] && St() == Quantum(priorities, old(St()), stays)
      ensures StateOk(priorities, St())
    {
      QuantumOk(priorities, St(), stays);
      th := ready[0];
      Debit(th);
      if stays {
        InsertThreadRoundRobin(th);
      } else {
        ready := Unlinked(ready, th);
      }
    }
  }
}
