/** The runtime's doubly linked lists, as the sequence of their nodes, with the edits of
    CLR_RT_DblLinkedList. */
module NodeList {

  /** No element occurs twice. */
  ghost predicate Unique<T(!new)>(s: seq<T>) {
    forall i, j {:trigger s[i], s[j]} :: 0 <= i < j < |s| ==> s[i] != s[j]
  }

  ghost predicate Has(fl: seq<nat>, x: nat) {
    exists i :: 0 <= i < |fl| && fl[i] == x
  }

  /** fl lists exactly the elements of s, in increasing order. */
  ghost predicate Lists(fl: seq<nat>, s: set<nat>) {
    && (forall i, j :: 0 <= i < j < |fl| ==> fl[i] < fl[j])
    && (forall i :: 0 <= i < |fl| ==> fl[i] in s)
    && (forall x {:trigger Has(fl, x)} :: x in s ==> Has(fl, x))
  }

  ghost predicate Removed(fl: seq<nat>, k: nat, r: seq<nat>) {
    && k < |fl| && |r| == |fl| - 1
    && (forall i {:trigger r[i]} :: 0 <= i < |r| ==> r[i] == if i < k then fl[i] else fl[i + 1])
  }

  ghost predicate Inserted(fl: seq<nat>, k: nat, p: nat, r: seq<nat>) {
    && k <= |fl| && |r| == |fl| + 1
    && (forall i {:trigger r[i]} :: 0 <= i < |r| ==> r[i] == if i < k then fl[i] else if i == k then p else fl[i - 1])
  }

  /** The place of a node in the list. */
  method Position(fl: seq<nat>, p: nat) returns (k: nat)
    requires Has(fl, p)
    ensures k < |fl| && fl[k] == p
  {
    k := 0;
    while fl[k] != p
      invariant k < |fl| && forall i :: 0 <= i < k ==> fl[i] != p
      decreases |fl| - k
    {
      k := k + 1;
    }
  }

  method Unlink(fl: seq<nat>, k: nat) returns (r: seq<nat>)
    requires k < |fl|
    ensures Removed(fl, k, r)
  {
    r := fl[..k] + fl[k + 1..];
  }

  method InsertBefore(fl: seq<nat>, k: nat, p: nat) returns (r: seq<nat>)
    requires k <= |fl|
    ensures Inserted(fl, k, p, r)
  {
    r := fl[..k] + [p] + fl[k..];
  }

  lemma ListsRemove(fl: seq<nat>, s: set<nat>, k: nat, r: seq<nat>)
    requires Lists(fl, s) && Removed(fl, k, r)
    ensures Lists(r, s - {fl[k]})
  {
    forall x | x in s - {fl[k]} ensures Has(r, x) {
      assert Has(fl, x);
      var i :| 0 <= i < |fl| && fl[i] == x;
      assert r[if i < k then i else i - 1] == x;
    }
  }

  lemma ListsInsert(fl: seq<nat>, s: set<nat>, k: nat, p: nat, r: seq<nat>)
    requires Lists(fl, s) && Inserted(fl, k, p, r)
    requires forall i :: 0 <= i < k ==> fl[i] < p
    requires forall i :: k <= i < |fl| ==> p < fl[i]
    ensures Lists(r, s + {p})
  {
    forall x | x in s + {p} ensures Has(r, x) {
      if x in s {
        assert Has(fl, x);
        var i :| 0 <= i < |fl| && fl[i] == x;
        assert r[if i < k then i else i + 1] == x;
      } else {
        assert r[k] == p;
      }
    }
  }

  lemma ListsReplace(fl: seq<nat>, s: set<nat>, k: nat, p: nat)
    requires Lists(fl, s) && k < |fl|
    requires fl[k] <= p
    requires forall i :: k < i < |fl| ==> p < fl[i]
    ensures Lists(fl[k := p], s - {fl[k]} + {p})
  {
    var r := fl[k := p];
    forall x | x in s - {fl[k]} + {p} ensures Has(r, x) {
      if x in s && x != fl[k] {
        assert Has(fl, x);
        var i :| 0 <= i < |fl| && fl[i] == x;
        assert r[i] == x;
      } else {
        assert r[k] == p;
      }
    }
  }

  lemma ListsAppend(fl: seq<nat>, s: set<nat>, p: nat)
    requires Lists(fl, s)
    requires forall x :: x in s ==> x < p
    ensures Lists(fl + [p], s + {p})
  {
    ListsInsert(fl, s, |fl|, p, fl + [p]);
  }

  lemma ListsOne(fl: seq<nat>, x: nat)
    requires Lists(fl, {x})
    ensures fl == [x]
  {
    assert Has(fl, x);
    forall i, j | 0 <= i < |fl| && 0 <= j < |fl| ensures fl[i] == fl[j] {
      assert fl[i] in {x} && fl[j] in {x};
    }
    var last := |fl| - 1;
    assert fl[0] == fl[last];
  }

  lemma ListsNone(fl: seq<nat>)
    requires Lists(fl, {})
    ensures fl == []
  {
    var nothing: set<nat> := {};
    if fl != [] {
      ListsMember(fl, nothing, 0);
      assert false;
    }
  }

  lemma ListsMember(fl: seq<nat>, s: set<nat>, k: nat)
    requires Lists(fl, s) && k < |fl|
    ensures fl[k] in s
  {
  }
}
