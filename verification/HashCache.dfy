/** The cache of resolved virtual methods: a hash table of fixed size whose buckets and whose order of
    use are rings of indices. */
module HashCache {
  import opened Lru
  import opened NodeList
  import opened LinkRings

  datatype Key = Key(mdVirtual: nat, cls: nat)
  datatype Payload = Payload(key: Key, md: nat)
  datatype Method = Found(md: nat) | NotFound

  /** The entries in use are the first |recent| ones in order of use; recent lists their keys. */
  ghost predicate KeysAre(payloads: seq<Payload>, order: seq<nat>, recent: seq<Key>) {
    && |recent| <= |order|
    && (forall i {:trigger order[i]} :: 0 <= i < |order| ==> order[i] < |payloads|)
    && (forall i {:trigger recent[i]} :: 0 <= i < |recent| ==> recent[i] == payloads[order[i]].key)
  }

  /** Entries are in a bucket exactly when they are in use, and it is the one their key hashes to. */
  ghost predicate BucketsOk(payloads: seq<Payload>, order: seq<nat>, recent: seq<Key>, home: seq<nat>, buckets: nat, crc: Key -> nat) {
    && 0 < buckets && |home| == |payloads|
    && (forall i {:trigger order[i]} :: 0 <= i < |order| ==> order[i] < |home| && (home[order[i]] < buckets <==> i < |recent|))
    && (forall e {:trigger home[e]} :: 0 <= e < |home| && home[e] < buckets ==> home[e] == crc(payloads[e].key) % buckets)
  }

  /** Cached answers are the resolver's. */
  ghost predicate AnswersOk(payloads: seq<Payload>, home: seq<nat>, buckets: nat, resolve: Key -> Method) {
    forall e {:trigger home[e]} :: 0 <= e < |home| && e < |payloads| && home[e] < buckets ==> resolve(payloads[e].key) == Found(payloads[e].md)
  }

  /** A use of the entry at position p. */
  lemma HitTouched(payloads: seq<Payload>, order: seq<nat>, recent: seq<Key>, p: nat, n: nat)
    requires KeysAre(payloads, order, recent) && Unique(recent) && Unique(order) && p < |recent| && |order| == n
    ensures KeysAre(payloads, ToFront(order, order[p]), Touch(recent, recent[p], n))
    ensures |Touch(recent, recent[p], n)| == |recent| && |ToFront(order, order[p])| == n
    ensures forall i {:trigger ToFront(order, order[p])[i]} :: 0 <= i < n ==>
      ToFront(order, order[p])[i] == if i == 0 then order[p] else if i <= p then order[i - 1] else order[i]
  {
    WithoutPoint(order, order[p], p);
    WithoutPoint(recent, recent[p], p);
  }

  /** A use of a key that is not in the table takes over the least recently used entry. */
  lemma MissTouched(payloads: seq<Payload>, order: seq<nat>, recent: seq<Key>, key: Key, md: nat, n: nat, payloads': seq<Payload>)
    requires KeysAre(payloads, order, recent) && Unique(order) && |order| == n && n > 0 && key !in recent
    requires payloads' == payloads[order[n - 1] := Payload(key, md)]
    ensures KeysAre(payloads', ToFront(order, order[n - 1]), Touch(recent, key, n))
    ensures |Touch(recent, key, n)| == if |recent| < n then |recent| + 1 else n
    ensures |ToFront(order, order[n - 1])| == n
    ensures forall i {:trigger ToFront(order, order[n - 1])[i]} :: 0 <= i < n ==>
      ToFront(order, order[n - 1])[i] == if i == 0 then order[n - 1] else order[i - 1]
  {
    WithoutPoint(order, order[n - 1], n - 1);
    WithoutAbsent(recent, key);
  }

  class VirtualMethodTable {
    const size: nat
    const buckets: nat
    const crc: Key -> nat
    /** The class defines the method itself. */
    const owns: Key -> bool
    /** The type system's search for the implementation. */
    const resolve: Key -> Method
    const entries: array<Link>
    const entriesMru: array<Link>
    const payloads: array<Payload>
    ghost var home: seq<nat>
    ghost var lists: seq<seq<nat>>
    ghost var order: seq<nat>
    /** The cached keys, most recently used first. */
    ghost var recent: seq<Key>
    /** All keys that were looked up, found, and not answered by the shortcut. */
    ghost var uses: seq<Key>

    ghost predicate Shape()
      reads this
    {
      && 0 < size && 0 < buckets && |lists| == buckets && |order| == size
      && entries.Length == size + buckets && entriesMru.Length == size + 1 && payloads.Length == size
      && entries != entriesMru
    }

    ghost predicate Valid()
      reads this, entries, entriesMru, payloads
    {
      && Shape()
      && Rings(entries[..], size, home, lists)
      && Rings(entriesMru[..], size, seq(size, _ => 0), [order])
      && KeysAre(payloads[..], order, recent) && Unique(recent) && Unique(order)
      && BucketsOk(payloads[..], order, recent, home, buckets, crc)
      && AnswersOk(payloads[..], home, buckets, resolve)
      && recent == Run(uses, size)
    }

    /** An empty table: all buckets are empty, all entries are in the order of use. */
    constructor (size: nat, buckets: nat, crc: Key -> nat, owns: Key -> bool, resolve: Key -> Method)
      requires 0 < size && 0 < buckets
      ensures this.size == size && this.buckets == buckets && this.crc == crc && this.owns == owns && this.resolve == resolve
      ensures Valid() && uses == [] && recent == []
      ensures fresh(entries) && fresh(entriesMru) && fresh(payloads)
    {
      this.size, this.buckets, this.crc, this.owns, this.resolve := size, buckets, crc, owns, resolve;
      entries := new Link[size + buckets];
      entriesMru := new Link[size + 1];
      payloads := new Payload[size](_ => Payload(Key(0, 0), 0));
      home, lists, order := seq(size, _ => buckets), seq(buckets, _ => []), seq(size, i => i);
      recent, uses := [], [];
      new;
      LinkToThemselves(entries);
      LinkInTurn(entriesMru);
      EmptyRings(entries[..], size, buckets);
      FullRing(entriesMru[..], size);
    }

    static method LinkToThemselves(links: array<Link>)
      modifies links
      ensures forall i :: 0 <= i < links.Length ==> links[i] == Link(i, i)
    {
      var idx := 0;
      while idx < links.Length
        invariant idx <= links.Length
        invariant forall i :: 0 <= i < idx ==> links[i] == Link(i, i)
      {
        links[idx] := Link(idx, idx);
        idx := idx + 1;
      }
    }

    static method LinkInTurn(links: array<Link>)
      requires links.Length > 1
      modifies links
      ensures forall i :: 0 <= i < links.Length ==>
        links[i] == Link(if i == links.Length - 1 then 0 else i + 1, if i == 0 then links.Length - 1 else i - 1)
    {
      var idx := 0;
      while idx < links.Length
        invariant idx <= links.Length
        invariant forall i :: 0 <= i < idx ==>
          links[i] == Link(if i == links.Length - 1 then 0 else i + 1, if i == 0 then links.Length - 1 else i - 1)
      {
        links[idx] := Link(if idx == links.Length - 1 then 0 else idx + 1, if idx == 0 then links.Length - 1 else idx - 1);
        idx := idx + 1;
      }
    }

    /** Walks the ring of a bucket; the sentinel means that the key is not there. */
    method Search(idxHead: nat, key: Key) returns (idx: nat)
      requires Valid() && size <= idxHead < size + buckets
      ensures idx == idxHead || (idx < size && home[idx] == idxHead - size && payloads[idx].key == key)
      ensures idx == idxHead ==> forall e {:trigger home[e]} :: 0 <= e < size && home[e] == idxHead - size ==> payloads[e].key != key
    {
      ghost var b := idxHead - size;
      ghost var s := lists[b];
      assert ListOk(entries[..], size, home, b, s);
      assert LinkAt(entries[..], idxHead, s, 0);
      idx := entries[idxHead].next;
      ghost var i := 0;
      while idx != idxHead
        invariant i <= |s| && idx == Stop(idxHead, s, i + 1)
        invariant forall j :: 0 <= j < i ==> payloads[s[j]].key != key
        decreases |s| - i
      {
        if payloads[idx].key == key { return; }
        assert LinkAt(entries[..], idxHead, s, i + 1);
        idx := entries[idx].next;
        i := i + 1;
      }
      forall e {:trigger home[e]} | 0 <= e < size && home[e] == b ensures payloads[e].key != key {
        assert Has(s, e);
      }
    }

    /** After any run of lookups, a key sits in its bucket exactly when it has been used and fewer than size
        other keys have been used since. */
    lemma CachedExactly(key: Key)
      requires Valid()
      ensures (exists e {:trigger home[e]} :: 0 <= e < size && home[e] < buckets && payloads[e].key == key) <==>
        exists i: nat :: LastUse(uses, i) && uses[i] == key && |Distinct(uses[i + 1..])| < size
    {
      CachedIff(uses, size, key);
      if key in recent {
        var i :| 0 <= i < |recent| && recent[i] == key;
        assert home[order[i]] < buckets;
      }
      forall e {:trigger home[e]} | 0 <= e < size && home[e] < buckets ensures payloads[e].key in recent {
        var p := PositionOf(entriesMru[..], size, order, e);
        assert recent[p] == payloads[e].key;
      }
    }

    function GetNewEntry(): nat
      requires entriesMru.Length > 0
      reads entriesMru
    {
      entriesMru[entriesMru.Length - 1].prev
    }

    /** Looks up the method that mdVirtual stands for in class cls. */
    method FindVirtualMethod(key: Key) returns (r: Method)
      requires Valid()
      modifies this`home, this`lists, this`order, this`recent, this`uses, entries, entriesMru, payloads
      ensures Valid()
      ensures r == if owns(key) then Found(key.mdVirtual) else resolve(key)
      ensures owns(key) || resolve(key).NotFound? ==> uses == old(uses) && recent == old(recent)
      ensures !owns(key) && resolve(key).Found? ==> uses == old(uses) + [key] && recent == Touch(old(recent), key, size)
    {
      if owns(key) { return Found(key.mdVirtual); }
      var idxHead := crc(key) % buckets + size;
      var idx := Search(idxHead, key);
      if idx != idxHead {
        r := Found(payloads[idx].md);
        Hit(key, idx);
      } else {
        r := resolve(key);
        if r.NotFound? { return; }
        Miss(key, r.md);
      }
    }

    /** The entry becomes the first of its bucket and of the order of use. */
    method Promote(idxHead: nat, idx: nat)
      requires Shape() && size <= idxHead < size + buckets && idx < size && Unique(order)
      requires Rings(entries[..], size, home, lists) && Rings(entriesMru[..], size, seq(size, _ => 0), [order])
      modifies this`home, this`lists, this`order, entries, entriesMru
      ensures |lists| == buckets && Rings(entries[..], size, home, lists) && Rings(entriesMru[..], size, seq(size, _ => 0), [order])
      ensures home == old(home)[idx := idxHead - size]
      ensures order == ToFront(old(order), idx)
    {
      home, lists := MoveEntryToTop(entries, idxHead, idx, size, home, lists);
      ghost var zero, mru := MoveEntryToTop(entriesMru, size, idx, size, seq(size, _ => 0), [order]);
      assert zero == seq(size, _ => 0);
      order := mru[0];
      assert mru == [order];
    }

    method Hit(key: Key, idx: nat)
      requires Valid() && idx < size && home[idx] == crc(key) % buckets && payloads[idx].key == key
      requires !owns(key)
      modifies this`home, this`lists, this`order, this`recent, this`uses, entries, entriesMru
      ensures Valid()
      ensures uses == old(uses) + [key] && recent == Touch(old(recent), key, size)
    {
      ghost var p := PositionOf(entriesMru[..], size, order, idx);
      assert p < |recent| && recent[p] == key;
      ghost var order0, home0 := order, home;
      Promote(crc(key) % buckets + size, idx);
      HitTouched(payloads[..], order0, recent, p, size);
      recent := Touch(recent, key, size);
      uses := uses + [key];
      RunNext(old(uses), key, size);
      ToFrontUnique(order0, idx);
      assert home == home0;
    }

    method Miss(key: Key, md: nat)
      requires Valid() && resolve(key) == Found(md) && !owns(key)
      requires forall e {:trigger home[e]} :: 0 <= e < size && home[e] == crc(key) % buckets ==> payloads[e].key != key
      modifies this`home, this`lists, this`order, this`recent, this`uses, entries, entriesMru, payloads
      ensures Valid()
      ensures uses == old(uses) + [key] && recent == Touch(old(recent), key, size)
    {
      KeyAbsent(payloads[..], order, recent, home, buckets, crc, key);
      LastInRing(entriesMru[..], size, order);
      var idx := GetNewEntry();
      ghost var order0, home0, payloads0 := order, home, payloads[..];
      payloads[idx] := Payload(key, md);
      Promote(crc(key) % buckets + size, idx);
      MissTouched(payloads0, order0, recent, key, md, size, payloads[..]);
      MissBuckets(payloads0, order0, recent, home0, buckets, crc, key, md, payloads[..], order, Touch(recent, key, size), home, resolve);
      recent := Touch(recent, key, size);
      uses := uses + [key];
      RunNext(old(uses), key, size);
      ToFrontUnique(order0, idx);
    }
  }

  lemma LastInRing(links: seq<Link>, n: nat, order: seq<nat>)
    requires Rings(links, n, seq(n, _ => 0), [order]) && order != []
    ensures n < |links| && links[n].prev == order[|order| - 1] < n
  {
    assert ListOk(links, n, seq(n, _ => 0), 0, [order][0]);
    ListFirst(links, n, seq(n, _ => 0), 0, order);
  }

  ghost function PositionOf(links: seq<Link>, n: nat, order: seq<nat>, idx: nat): (p: nat)
    requires Rings(links, n, seq(n, _ => 0), [order]) && idx < n
    ensures p < |order| && order[p] == idx
  {
    assert ListOk(links, n, seq(n, _ => 0), 0, [order][0]);
    assert Has(order, idx);
    var p :| 0 <= p < |order| && order[p] == idx;
    p
  }

  lemma KeyAbsent(payloads: seq<Payload>, order: seq<nat>, recent: seq<Key>, home: seq<nat>, buckets: nat, crc: Key -> nat, key: Key)
    requires KeysAre(payloads, order, recent) && BucketsOk(payloads, order, recent, home, buckets, crc)
    requires forall e {:trigger home[e]} :: 0 <= e < |home| && home[e] == crc(key) % buckets ==> payloads[e].key != key
    ensures key !in recent
  {
    forall i | 0 <= i < |recent| ensures recent[i] != key {
      assert home[order[i]] < buckets;
    }
  }

  lemma MissBuckets(payloads: seq<Payload>, order: seq<nat>, recent: seq<Key>, home: seq<nat>, buckets: nat, crc: Key -> nat, key: Key, md: nat,
                    payloads': seq<Payload>, order': seq<nat>, recent': seq<Key>, home': seq<nat>, resolve: Key -> Method)
    requires BucketsOk(payloads, order, recent, home, buckets, crc) && AnswersOk(payloads, home, buckets, resolve)
    requires |order| == |order'| == |payloads| > 0 && Unique(order)
    requires forall i {:trigger order'[i]} :: 0 <= i < |order'| ==> order'[i] == if i == 0 then order[|order| - 1] else order[i - 1]
    requires |recent'| == if |recent| < |order| then |recent| + 1 else |order|
    requires payloads' == payloads[order[|order| - 1] := Payload(key, md)] && resolve(key) == Found(md)
    requires home' == home[order[|order| - 1] := crc(key) % buckets]
    ensures BucketsOk(payloads', order', recent', home', buckets, crc) && AnswersOk(payloads', home', buckets, resolve)
  {
    var idx := order[|order| - 1];
    forall i {:trigger order'[i]} | 0 <= i < |order'| ensures order'[i] < |home'| && (home'[order'[i]] < buckets <==> i < |recent'|) {
      if i > 0 {
        assert order'[i] == order[i - 1] && order[i - 1] != idx;
        assert home'[order'[i]] == home[order[i - 1]];
      }
    }
    forall e {:trigger home'[e]} | 0 <= e < |home'| && home'[e] < buckets
      ensures home'[e] == crc(payloads'[e].key) % buckets && resolve(payloads'[e].key) == Found(payloads'[e].md)
    {
      assert e != idx ==> home'[e] == home[e];
    }
  }

  lemma EmptyRings(links: seq<Link>, n: nat, buckets: nat)
    requires |links| == n + buckets && forall i :: 0 <= i < |links| ==> links[i] == Link(i, i)
    ensures Rings(links, n, seq(n, _ => buckets), seq(buckets, _ => []))
  {
    var home, lists := seq(n, _ => buckets), seq(buckets, _ => []);
    forall b {:trigger lists[b]} | 0 <= b < buckets ensures ListOk(links, n, home, b, lists[b]) {
      forall i {:trigger LinkAt(links, n + b, [], i)} | 0 <= i <= 0 ensures LinkAt(links, n + b, [], i) {}
    }
  }

  lemma FullRing(links: seq<Link>, n: nat)
    requires |links| == n + 1 && n > 0
    requires forall i :: 0 <= i <= n ==> links[i] == Link(if i == n then 0 else i + 1, if i == 0 then n else i - 1)
    ensures Rings(links, n, seq(n, _ => 0), [seq(n, i => i)])
  {
    var home, s := seq(n, _ => 0), seq(n, i => i);
    forall i {:trigger LinkAt(links, n, s, i)} | 0 <= i <= n ensures LinkAt(links, n, s, i) {}
    forall e {:trigger Has(s, e)} | 0 <= e < n ensures Has(s, e) { assert s[e] == e; }
    assert ListOk(links, n, home, 0, [s][0]);
  }
}
