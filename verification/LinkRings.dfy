/** Circular doubly linked lists kept in one array of index pairs. Entries 0 .. n-1 are nodes; entry n+b
    is the sentinel of list b. A node is in at most one list, or linked to itself. */
module LinkRings {
  import opened Lru
  import opened NodeList

  datatype Link = Link(next: nat, prev: nat)

  /** The i-th stop of a round trip that starts and ends at the sentinel. */
  function Stop(slot: nat, s: seq<nat>, i: nat): nat {
    if 1 <= i <= |s| then s[i - 1] else slot
  }

  /** The i-th stop and the next one point at each other. */
  ghost predicate LinkAt(links: seq<Link>, slot: nat, s: seq<nat>, i: nat) {
    var a, b := Stop(slot, s, i), Stop(slot, s, i + 1);
    a < |links| && b < |links| && links[a].next == b && links[b].prev == a
  }

  ghost predicate Ring(links: seq<Link>, slot: nat, s: seq<nat>) {
    forall i {:trigger LinkAt(links, slot, s, i)} :: 0 <= i <= |s| ==> LinkAt(links, slot, s, i)
  }

  /** s is list b, and its nodes are those that home sends there. */
  ghost predicate ListOk(links: seq<Link>, n: nat, home: seq<nat>, b: nat, s: seq<nat>) {
    && Ring(links, n + b, s)
    && Unique(s)
    && (forall i {:trigger s[i]} :: 0 <= i < |s| ==> s[i] < n && s[i] < |home| && home[s[i]] == b)
    && (forall e {:trigger Has(s, e)} :: 0 <= e < n && e < |home| && home[e] == b ==> Has(s, e))
  }

  /** Every node is in the list home says, or, if that is no list, linked to itself; node skip may be adrift. */
  ghost predicate RingsBut(links: seq<Link>, n: nat, home: seq<nat>, lists: seq<seq<nat>>, skip: nat) {
    && |home| == n && |links| == n + |lists|
    && (forall b {:trigger lists[b]} :: 0 <= b < |lists| ==> ListOk(links, n, home, b, lists[b]))
    && (forall e {:trigger home[e]} :: 0 <= e < n && home[e] >= |lists| && e != skip ==> links[e] == Link(e, e))
  }

  ghost predicate Rings(links: seq<Link>, n: nat, home: seq<nat>, lists: seq<seq<nat>>) {
    RingsBut(links, n, home, lists, n)
  }

  /** idx has been taken out of the list it was in, and put at the front of list b. */
  ghost predicate MovedTo(lists: seq<seq<nat>>, b: nat, idx: nat, lists': seq<seq<nat>>) {
    |lists'| == |lists| && forall c {:trigger lists'[c]} :: 0 <= c < |lists| ==>
      lists'[c] == if c == b then ToFront(lists[c], idx) else Without(lists[c], idx)
  }

  // Unlinking.

  function Unlinked(links: seq<Link>, idx: nat): (l: seq<Link>)
    requires idx < |links| && links[idx].next < |links| && links[idx].prev < |links|
    ensures Joined(links, links[idx].prev, links[idx].next, l)
  {
    var next, prev := links[idx].next, links[idx].prev;
    var l := links[next := links[next].(prev := prev)];
    l[prev := l[prev].(next := next)]
  }

  /** l is links, but prev and next point at each other. */
  ghost predicate Joined(links: seq<Link>, prev: nat, next: nat, l: seq<Link>) {
    && |l| == |links| && prev < |links| && next < |links|
    && (forall a {:trigger l[a]} :: 0 <= a < |l| ==>
          l[a] == Link(if a == prev then next else links[a].next, if a == next then prev else links[a].prev))
  }

  lemma StopsApart(slot: nat, s: seq<nat>, i: nat, j: nat)
    requires Unique(s) && (forall k :: 0 <= k < |s| ==> s[k] != slot)
    requires i < j <= |s| + 1 && !(i == 0 && j == |s| + 1)
    ensures Stop(slot, s, i) != Stop(slot, s, j)
  {
  }

  lemma LinkUnlinked(links: seq<Link>, slot: nat, s: seq<nat>, k: nat, l: seq<Link>, j: nat)
    requires LinkAt(links, slot, s, j) && Unique(s) && (forall i :: 0 <= i < |s| ==> s[i] != slot)
    requires k < |s| && j <= |s| && j != k && j != k + 1
    requires Joined(links, Stop(slot, s, k), Stop(slot, s, k + 2), l)
    ensures LinkAt(l, slot, s, j)
  {
    if j < k {
      StopsApart(slot, s, j, k);
      if j + 1 != 0 { StopsApart(slot, s, j + 1, k + 2); }
    } else {
      StopsApart(slot, s, k, j);
      if !(k + 2 == j + 1) { StopsApart(slot, s, k + 2, j + 1); }
    }
  }

  lemma RingUnlinked(links: seq<Link>, slot: nat, s: seq<nat>, k: nat, t: seq<nat>, l: seq<Link>)
    requires Ring(links, slot, s) && Unique(s) && (forall i :: 0 <= i < |s| ==> s[i] != slot)
    requires k < |s| && Removed(s, k, t)
    requires Joined(links, Stop(slot, s, k), Stop(slot, s, k + 2), l)
    ensures Ring(l, slot, t)
  {
    forall i {:trigger LinkAt(l, slot, t, i)} | 0 <= i <= |t| ensures LinkAt(l, slot, t, i) {
      var x, y := Stop(slot, s, if i <= k then i else i + 1), Stop(slot, s, if i < k then i + 1 else i + 2);
      assert Stop(slot, t, i) == x && Stop(slot, t, i + 1) == y;
      if i != k {
        var j := if i < k then i else i + 1;
        assert LinkAt(links, slot, s, j);
        LinkUnlinked(links, slot, s, k, l, j);
      } else {
        assert LinkAt(links, slot, s, k) && LinkAt(links, slot, s, k + 1);
      }
    }
  }

  /** Nodes of other lists keep their links. */
  lemma ListFrame(links: seq<Link>, n: nat, home: seq<nat>, b: nat, s: seq<nat>, l: seq<Link>, home': seq<nat>)
    requires ListOk(links, n, home, b, s) && |l| == |links| == n + (|links| - n) && n + b < |links|
    requires |home'| == |home| == n
    requires forall e {:trigger home'[e]} :: 0 <= e < n ==> (home'[e] == b <==> home[e] == b)
    requires l[n + b] == links[n + b]
    requires forall e {:trigger l[e]} :: 0 <= e < n && home[e] == b ==> l[e] == links[e]
    ensures ListOk(l, n, home', b, s)
  {
    forall i {:trigger LinkAt(l, n + b, s, i)} | 0 <= i <= |s| ensures LinkAt(l, n + b, s, i) {
      assert LinkAt(links, n + b, s, i);
      StopHome(n, home, b, s, i);
      StopHome(n, home, b, s, i + 1);
    }
    forall e {:trigger Has(s, e)} | 0 <= e < n && home'[e] == b ensures Has(s, e) {}
  }

  lemma StopHome(n: nat, home: seq<nat>, b: nat, s: seq<nat>, i: nat)
    requires |home| == n && forall i {:trigger s[i]} :: 0 <= i < |s| ==> s[i] < n && home[s[i]] == b
    ensures Stop(n + b, s, i) == n + b || (Stop(n + b, s, i) < n && home[Stop(n + b, s, i)] == b)
  {
  }

  lemma ListUnlinked(links: seq<Link>, n: nat, home: seq<nat>, b: nat, s: seq<nat>, idx: nat, l: seq<Link>, home': seq<nat>, none: nat)
    requires ListOk(links, n, home, b, s) && |home| == n && n + b < |links|
    requires idx < n && home[idx] == b && none != b && home' == home[idx := none]
    requires Joined(links, links[idx].prev, links[idx].next, l)
    ensures ListOk(l, n, home', b, Without(s, idx))
  {
    assert Has(s, idx);
    var k :| 0 <= k < |s| && s[k] == idx;
    WithoutPoint(s, idx, k);
    var t := Without(s, idx);
    assert LinkAt(links, n + b, s, k) && LinkAt(links, n + b, s, k + 1);
    RingUnlinked(links, n + b, s, k, t, l);
    NodesRemoved(n, home, b, s, k, t, home');
  }

  lemma NodesRemoved(n: nat, home: seq<nat>, b: nat, s: seq<nat>, k: nat, t: seq<nat>, home': seq<nat>)
    requires |home| == n && Unique(s) && k < |s| && Removed(s, k, t)
    requires forall i {:trigger s[i]} :: 0 <= i < |s| ==> s[i] < n && home[s[i]] == b
    requires forall e {:trigger Has(s, e)} :: 0 <= e < n && home[e] == b ==> Has(s, e)
    requires |home'| == n && home'[s[k]] != b && forall e :: 0 <= e < n && e != s[k] ==> home'[e] == home[e]
    ensures Unique(t)
    ensures forall i {:trigger t[i]} :: 0 <= i < |t| ==> t[i] < n && home'[t[i]] == b
    ensures forall e {:trigger Has(t, e)} :: 0 <= e < n && home'[e] == b ==> Has(t, e)
  {
    forall i {:trigger t[i]} | 0 <= i < |t| ensures t[i] < n && home'[t[i]] == b {
      assert t[i] == s[if i < k then i else i + 1];
    }
    forall e {:trigger Has(t, e)} | 0 <= e < n && home'[e] == b ensures Has(t, e) {
      assert Has(s, e);
      var i :| 0 <= i < |s| && s[i] == e;
      assert t[if i < k then i else i - 1] == e;
    }
  }

  /** Takes node idx out of its list, if it is in one. */
  lemma NodeUnlinked(links: seq<Link>, n: nat, home: seq<nat>, lists: seq<seq<nat>>, idx: nat, l: seq<Link>, lists': seq<seq<nat>>)
    requires Rings(links, n, home, lists) && idx < n
    requires Joined(links, links[idx].prev, links[idx].next, l)
    requires |lists'| == |lists| && forall c {:trigger lists'[c]} :: 0 <= c < |lists| ==> lists'[c] == Without(lists[c], idx)
    ensures RingsBut(l, n, home[idx := |lists|], lists', idx)
  {
    var b := home[idx];
    var home' := home[idx := |lists|];
    if b < |lists| {
      assert ListOk(links, n, home, b, lists[b]);
      ListUnlinked(links, n, home, b, lists[b], idx, l, home', |lists|);
      NeighboursHome(links, n, home, b, lists[b], idx);
    }
    forall c {:trigger lists'[c]} | 0 <= c < |lists| ensures ListOk(l, n, home', c, lists'[c]) {
      if c != b {
        assert ListOk(links, n, home, c, lists[c]);
        WithoutAbsent(lists[c], idx);
        ListFrame(links, n, home, c, lists[c], l, home');
      }
    }
    forall e {:trigger home'[e]} | 0 <= e < n && home'[e] >= |lists| && e != idx ensures l[e] == Link(e, e) {
      assert home[e] >= |lists|;
    }
  }

  lemma NeighboursHome(links: seq<Link>, n: nat, home: seq<nat>, b: nat, s: seq<nat>, idx: nat)
    requires ListOk(links, n, home, b, s) && |home| == n && idx < n && home[idx] == b && idx < |links|
    ensures links[idx].next == n + b || (links[idx].next < n && home[links[idx].next] == b)
    ensures links[idx].prev == n + b || (links[idx].prev < n && home[links[idx].prev] == b)
  {
    assert Has(s, idx);
    var k :| 0 <= k < |s| && s[k] == idx;
    assert LinkAt(links, n + b, s, k) && LinkAt(links, n + b, s, k + 1);
    StopHome(n, home, b, s, k);
    StopHome(n, home, b, s, k + 2);
  }

  // Linking at the front.

  /** l is links with idx between slot and first. */
  ghost predicate Spliced(links: seq<Link>, slot: nat, first: nat, idx: nat, l: seq<Link>) {
    && |l| == |links| && slot < |links| && first < |links| && idx < |links|
    && (forall a {:trigger l[a]} :: 0 <= a < |l| ==>
          l[a] == Link(if a == slot then idx else if a == idx then first else links[a].next,
                       if a == idx then slot else if a == first then idx else links[a].prev))
  }

  lemma RingSpliced(links: seq<Link>, slot: nat, s: seq<nat>, idx: nat, l: seq<Link>)
    requires Ring(links, slot, s) && Unique(s) && (forall i :: 0 <= i < |s| ==> s[i] != slot && s[i] != idx) && idx != slot
    requires Spliced(links, slot, Stop(slot, s, 1), idx, l)
    ensures Ring(l, slot, [idx] + s)
  {
    var t := [idx] + s;
    forall i {:trigger LinkAt(l, slot, t, i)} | 0 <= i <= |t| ensures LinkAt(l, slot, t, i) {
      assert LinkAt(links, slot, s, 0);
      if i >= 2 {
        assert LinkAt(links, slot, s, i - 1);
        assert Stop(slot, t, i) == Stop(slot, s, i - 1) && Stop(slot, t, i + 1) == Stop(slot, s, i);
        StopsApart(slot, s, 1, i);
      }
    }
  }

  lemma ListSpliced(links: seq<Link>, n: nat, home: seq<nat>, b: nat, s: seq<nat>, idx: nat, l: seq<Link>, home': seq<nat>)
    requires ListOk(links, n, home, b, s) && |home| == n && n + b < |links|
    requires idx < n && home[idx] != b && home' == home[idx := b]
    requires Spliced(links, n + b, Stop(n + b, s, 1), idx, l)
    ensures ListOk(l, n, home', b, [idx] + s)
  {
    var t := [idx] + s;
    RingSpliced(links, n + b, s, idx, l);
    forall e {:trigger Has(t, e)} | 0 <= e < n && home'[e] == b ensures Has(t, e) {
      if e == idx {
        assert t[0] == e;
      } else {
        assert Has(s, e);
        var i :| 0 <= i < |s| && s[i] == e;
        assert t[i + 1] == e;
      }
    }
  }

  lemma NodeLinked(links: seq<Link>, n: nat, home: seq<nat>, lists: seq<seq<nat>>, b: nat, idx: nat, l: seq<Link>)
    requires RingsBut(links, n, home, lists, idx) && idx < n && home[idx] == |lists| && b < |lists|
    requires links[n + b].next < |links| ==> Spliced(links, n + b, links[n + b].next, idx, l)
    ensures links[n + b].next < |links|
    ensures Rings(l, n, home[idx := b], lists[b := [idx] + lists[b]])
  {
    var home', lists' := home[idx := b], lists[b := [idx] + lists[b]];
    assert ListOk(links, n, home, b, lists[b]);
    assert LinkAt(links, n + b, lists[b], 0);
    StopHome(n, home, b, lists[b], 1);
    ListSpliced(links, n, home, b, lists[b], idx, l, home');
    forall c {:trigger lists'[c]} | 0 <= c < |lists| ensures ListOk(l, n, home', c, lists'[c]) {
      if c != b {
        assert ListOk(links, n, home, c, lists[c]);
        ListFrame(links, n, home, c, lists[c], l, home');
      }
    }
    forall e {:trigger home'[e]} | 0 <= e < n && home'[e] >= |lists| ensures l[e] == Link(e, e) {
      assert home[e] >= |lists|;
    }
  }

  /** Puts node idx at the front of the list with sentinel slot. */
  method MoveEntryToTop(entries: array<Link>, slot: nat, idx: nat, ghost n: nat, ghost home: seq<nat>, ghost lists: seq<seq<nat>>)
    returns (ghost home': seq<nat>, ghost lists': seq<seq<nat>>)
    requires Rings(entries[..], n, home, lists) && idx < n <= slot < n + |lists|
    modifies entries
    ensures MovedTo(lists, slot - n, idx, lists') && home' == home[idx := slot - n]
    ensures Rings(entries[..], n, home', lists')
  {
    ghost var b := slot - n;
    ghost var links := entries[..];
    ghost var rest := seq(|lists|, c requires 0 <= c < |lists| => Without(lists[c], idx));
    home', lists' := home[idx := b], rest[b := [idx] + rest[b]];
    ListFirst(links, n, home, b, lists[b]);
    NodeBounds(links, n, home, lists, idx);
    if entries[slot].next != idx {
      ghost var links1 := Unlinked(links, idx);
      NodeUnlinked(links, n, home, lists, idx, links1, rest);
      ListFirst(links1, n, home[idx := |lists|], b, rest[b]);
      SpliceToTop(entries, slot, idx);
      NodeLinked(links1, n, home[idx := |lists|], rest, b, idx, entries[..]);
      assert home[idx := |lists|][idx := b] == home';
    } else {
      AlreadyFirst(links, n, home, lists, b, idx, lists');
      assert lists' == lists && home' == home;
    }
  }

  /** The link updates: joins the neighbours of idx, then splices idx in behind slot. */
  method SpliceToTop(entries: array<Link>, slot: nat, idx: nat)
    requires slot < entries.Length && idx < entries.Length && slot != idx
    requires entries[idx].next < entries.Length && entries[idx].prev < entries.Length
    requires Unlinked(entries[..], idx)[slot].next < entries.Length && Unlinked(entries[..], idx)[slot].next != idx
    modifies entries
    ensures Spliced(Unlinked(old(entries[..]), idx), slot, Unlinked(old(entries[..]), idx)[slot].next, idx, entries[..])
  {
    var next, prev := entries[idx].next, entries[idx].prev;
    entries[next] := entries[next].(prev := prev);
    entries[prev] := entries[prev].(next := next);
    assert entries[..] == Unlinked(old(entries[..]), idx);
    next := entries[slot].next;
    entries[idx] := Link(next, slot);
    entries[slot] := entries[slot].(next := idx);
    entries[next] := entries[next].(prev := idx);
  }

  lemma ListFirst(links: seq<Link>, n: nat, home: seq<nat>, b: nat, s: seq<nat>)
    requires ListOk(links, n, home, b, s)
    ensures n + b < |links| && links[n + b].next == (if |s| > 0 then s[0] else n + b) && links[n + b].next < |links|
    ensures links[n + b].prev == (if |s| > 0 then s[|s| - 1] else n + b)
  {
    assert LinkAt(links, n + b, s, 0) && LinkAt(links, n + b, s, |s|);
  }

  lemma NodeBounds(links: seq<Link>, n: nat, home: seq<nat>, lists: seq<seq<nat>>, idx: nat)
    requires Rings(links, n, home, lists) && idx < n
    ensures links[idx].next < |links| && links[idx].prev < |links|
  {
    if home[idx] < |lists| {
      NeighboursHome(links, n, home, home[idx], lists[home[idx]], idx);
    }
  }

  lemma AlreadyFirst(links: seq<Link>, n: nat, home: seq<nat>, lists: seq<seq<nat>>, b: nat, idx: nat, lists': seq<seq<nat>>)
    requires Rings(links, n, home, lists) && idx < n && b < |lists| && |lists[b]| > 0 && lists[b][0] == idx
    requires MovedTo(lists, b, idx, lists')
    ensures lists' == lists && home[idx] == b
  {
    forall c {:trigger lists'[c]} | 0 <= c < |lists| ensures lists'[c] == lists[c] {
      assert ListOk(links, n, home, c, lists[c]);
      if c == b {
        WithoutAt(lists[c], idx, 0);
      } else {
        WithoutAbsent(lists[c], idx);
      }
    }
  }
}
