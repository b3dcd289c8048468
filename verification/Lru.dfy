/** What a least-recently-used cache of n entries holds after a run of uses. */
module Lru {
  import opened NodeList

  function Without<T(==)>(s: seq<T>, x: T): seq<T> {
    if s == [] then []
    else if s[0] == x then Without(s[1..], x)
    else [s[0]] + Without(s[1..], x)
  }

  function ToFront<T(==)>(s: seq<T>, x: T): seq<T> {
    [x] + Without(s, x)
  }

  function Take<T>(s: seq<T>, n: nat): seq<T> {
    if |s| <= n then s else s[..n]
  }

  /** A use of x: it becomes the most recent entry, and a full cache drops its least recent one. */
  function Touch<T(==)>(s: seq<T>, x: T, n: nat): seq<T> {
    Take(ToFront(s, x), n)
  }

  /** The entries after the uses xs, most recent first. */
  function Run<T(==)>(xs: seq<T>, n: nat): seq<T> {
    if xs == [] then [] else Touch(Run(xs[..|xs| - 1], n), xs[|xs| - 1], n)
  }

  /** One more use. */
  lemma RunNext<T(!new)>(xs: seq<T>, x: T, n: nat)
    requires Unique(Run(xs, n))
    ensures Run(xs + [x], n) == Touch(Run(xs, n), x, n) && Unique(Run(xs + [x], n))
  {
    var more := xs + [x];
    assert more[..|more| - 1] == xs;
    ToFrontUnique(Run(xs, n), x);
  }

  lemma {:induction false} WithoutAbsent<T>(s: seq<T>, x: T)
    requires x !in s
    ensures Without(s, x) == s
  {
    if s != [] { WithoutAbsent(s[1..], x); }
  }

  lemma {:induction false} WithoutAt<T(!new)>(s: seq<T>, x: T, k: nat)
    requires Unique(s) && k < |s| && s[k] == x
    ensures Without(s, x) == s[..k] + s[k + 1..]
  {
    if k == 0 {
      assert x !in s[1..];
      WithoutAbsent(s[1..], x);
      assert s[..0] + s[1..] == s[1..];
    } else {
      WithoutAt(s[1..], x, k - 1);
      assert s[..k] + s[k + 1..] == [s[0]] + (s[1..][..k - 1] + s[1..][k..]);
    }
  }

  lemma WithoutPoint<T(!new)>(s: seq<T>, x: T, k: nat)
    requires Unique(s) && k < |s| && s[k] == x
    ensures |Without(s, x)| == |s| - 1
    ensures forall i {:trigger Without(s, x)[i]} :: 0 <= i < |s| - 1 ==> Without(s, x)[i] == if i < k then s[i] else s[i + 1]
  {
    WithoutAt(s, x, k);
  }

  lemma {:induction false} WithoutElements<T>(s: seq<T>, x: T)
    ensures forall y :: y in Without(s, x) <==> y in s && y != x
  {
    if s != [] { WithoutElements(s[1..], x); }
  }

  lemma ToFrontUnique<T(!new)>(s: seq<T>, x: T)
    requires Unique(s)
    ensures Unique(ToFront(s, x))
    ensures forall y :: y in ToFront(s, x) <==> y in s || y == x
  {
    WithoutElements(s, x);
    if x in s {
      var k :| 0 <= k < |s| && s[k] == x;
      WithoutAt(s, x, k);
    } else {
      WithoutAbsent(s, x);
    }
  }

  /** Truncating before a use makes no difference. */
  lemma TouchTake<T(!new)>(s: seq<T>, x: T, n: nat)
    requires Unique(s) && 0 < n
    ensures Touch(Take(s, n), x, n) == Touch(s, x, n)
  {
    var t := Take(s, n);
    if x in s {
      var k :| 0 <= k < |s| && s[k] == x;
      WithoutPoint(s, x, k);
      if k < n {
        assert t[k] == x;
        WithoutPoint(t, x, k);
      } else {
        WithoutAbsent(t, x);
      }
    } else {
      WithoutAbsent(s, x);
      WithoutAbsent(t, x);
    }
    TakeSame(ToFront(t, x), ToFront(s, x), n);
  }

  lemma TakeSame<T(!new)>(a: seq<T>, b: seq<T>, n: nat)
    requires |a| == |b| || (n <= |a| && n <= |b|)
    requires forall i :: 0 <= i < n && i < |a| ==> a[i] == b[i]
    ensures Take(a, n) == Take(b, n)
  {
  }

  /** All the values used, by their last use, most recent first. */
  function Recency<T(==)>(xs: seq<T>): seq<T> {
    if xs == [] then [] else ToFront(Recency(xs[..|xs| - 1]), xs[|xs| - 1])
  }

  lemma {:induction false} RecencyElements<T(!new)>(xs: seq<T>)
    ensures Unique(Recency(xs))
    ensures forall y :: y in Recency(xs) <==> y in xs
  {
    if xs != [] {
      var init, x := xs[..|xs| - 1], xs[|xs| - 1];
      RecencyElements(init);
      ToFrontUnique(Recency(init), x);
      assert xs == init + [x];
    }
  }

  /** The cache is a prefix of the recency order: it holds the n most recently used different values. */
  lemma {:induction false} RunIsRecent<T(!new)>(xs: seq<T>, n: nat)
    requires 0 < n
    ensures Run(xs, n) == Take(Recency(xs), n)
  {
    if xs != [] {
      var init := xs[..|xs| - 1];
      RunIsRecent(init, n);
      RecencyElements(init);
      TouchTake(Recency(init), xs[|xs| - 1], n);
    }
  }

  ghost function Distinct<T(!new)>(xs: seq<T>): set<T> {
    set x | x in xs
  }

  /** i is the last use of its value. */
  ghost predicate LastUse<T>(xs: seq<T>, i: nat) {
    i < |xs| && forall k :: i < k < |xs| ==> xs[k] != xs[i]
  }

  /** Before a value in the recency order come exactly the values used since its last use. */
  lemma {:induction false} ReuseDistance<T(!new)>(xs: seq<T>, i: nat)
    requires LastUse(xs, i)
    ensures var d := |Distinct(xs[i + 1..])|;
      && d < |Recency(xs)| && Recency(xs)[d] == xs[i]
      && (forall y :: y in Recency(xs)[..d] <==> y in xs[i + 1..])
  {
    var init, x := xs[..|xs| - 1], xs[|xs| - 1];
    if i == |xs| - 1 {
      assert Distinct(xs[i + 1..]) == {};
    } else {
      var since := init[i + 1..];
      assert xs[i + 1..] == since + [x];
      ReuseDistance(init, i);
      RecencyElements(init);
      var r, d0 := Recency(init), |Distinct(since)|;
      assert Distinct(xs[i + 1..]) == Distinct(since) + {x};
      ReuseStep(r, d0, xs[i], since, x, |Distinct(xs[i + 1..])|);
    }
  }

  lemma ReuseStep<T(!new)>(r: seq<T>, d0: nat, v: T, since: seq<T>, x: T, d: nat)
    requires Unique(r) && d0 < |r| && r[d0] == v && v != x
    requires forall y :: y in r[..d0] <==> y in since
    requires d == if x in since then d0 else d0 + 1
    ensures d < |ToFront(r, x)| && ToFront(r, x)[d] == v
    ensures forall y :: y in ToFront(r, x)[..d] <==> y in since + [x]
  {
    if x in r {
      var k :| 0 <= k < |r| && r[k] == x;
      WithoutAt(r, x, k);
      if k < d0 {
        assert r[..d0][k] == x;
        assert ToFront(r, x)[..d] == [x] + (r[..k] + r[k + 1..d0]);
        assert r[..d0] == r[..k] + [x] + r[k + 1..d0];
      } else {
        assert x !in r[..d0];
        assert ToFront(r, x)[..d] == [x] + r[..d0];
      }
    } else {
      WithoutAbsent(r, x);
      assert x !in r[..d0];
      assert ToFront(r, x)[..d] == [x] + r[..d0];
    }
  }

  lemma CachedAt<T(!new)>(xs: seq<T>, n: nat, i: nat)
    requires 0 < n && LastUse(xs, i)
    ensures xs[i] in Run(xs, n) <==> |Distinct(xs[i + 1..])| < n
  {
    RunIsRecent(xs, n);
    RecencyElements(xs);
    ReuseDistance(xs, i);
    TakeHas(Recency(xs), |Distinct(xs[i + 1..])|, n);
  }

  lemma CachedUsed<T(!new)>(xs: seq<T>, n: nat, v: T)
    requires 0 < n && v in Run(xs, n)
    ensures v in xs
  {
    RunIsRecent(xs, n);
    RecencyElements(xs);
  }

  /** A value is in the cache exactly when it has been used and fewer than n others have been used since. */
  lemma CachedIff<T(!new)>(xs: seq<T>, n: nat, v: T)
    requires 0 < n
    ensures v in Run(xs, n) <==> exists i: nat :: LastUse(xs, i) && xs[i] == v && |Distinct(xs[i + 1..])| < n
  {
    if v in Run(xs, n) {
      CachedUsed(xs, n, v);
      var i := FindLastUse(xs, v);
      CachedAt(xs, n, i);
    }
    forall i: nat | LastUse(xs, i) && xs[i] == v && |Distinct(xs[i + 1..])| < n ensures v in Run(xs, n) {
      CachedAt(xs, n, i);
    }
  }

  lemma TakeHas<T(!new)>(s: seq<T>, d: nat, n: nat)
    requires Unique(s) && d < |s|
    ensures s[d] in Take(s, n) <==> d < n
  {
    if d < n { assert Take(s, n)[d] == s[d]; }
  }

  lemma {:induction false} FindLastUse<T>(xs: seq<T>, v: T) returns (i: nat)
    requires v in xs
    ensures LastUse(xs, i) && xs[i] == v
  {
    i := |xs| - 1;
    while xs[i] != v
      invariant i < |xs| && v in xs[..i + 1] && forall k :: i < k < |xs| ==> xs[k] != v
      decreases i
    {
      i := i - 1;
    }
  }
}
