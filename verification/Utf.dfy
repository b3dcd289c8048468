/** UTF-16 and UTF-8, and the runtime's conversions between them as functions on values. */
module Utf {

  const HIGH_START: nat := 0xD800
  const HIGH_END: nat := 0xDBFF
  const LOW_START: nat := 0xDC00
  const LOW_END: nat := 0xDFFF

  predicate High(u: nat) { HIGH_START <= u <= HIGH_END }
  predicate Low(u: nat) { LOW_START <= u <= LOW_END }

  // The standard.

  /** Unicode text in UTF-16 without a terminator: every high surrogate is followed by a low one. */
  predicate WellFormed(t: seq<nat>) {
    t == [] ||
    (if High(t[0]) then |t| > 1 && Low(t[1]) && WellFormed(t[2..]) else 0 < t[0] < 0x1_0000 && !Low(t[0]) && WellFormed(t[1..]))
  }

  /** A character outside the basic multilingual plane, from its two surrogates. */
  function Supplementary(high: nat, low: nat): nat
    requires High(high)
  {
    if low >= LOW_START then 0x1_0000 + (high - HIGH_START) * 0x400 + (low - LOW_START)
    else 0x1_0000 + (high - HIGH_START) * 0x400 - (LOW_START - low)
  }

  /** The characters of a text. */
  function Scalars(t: seq<nat>): seq<nat>
    requires WellFormed(t)
  {
    if t == [] then [] else if High(t[0]) then [Supplementary(t[0], t[1])] + Scalars(t[2..]) else [t[0]] + Scalars(t[1..])
  }

  /** A Unicode scalar value other than NUL. */
  predicate IsScalar(c: nat) {
    0 < c <= 0x10_FFFF && !High(c) && !Low(c)
  }

  /** UTF-8 as in section 3 of RFC 3629. */
  function Utf8(c: nat): seq<nat> {
    if c < 0x80 then [c]
    else if c < 0x800 then [0xC0 + c / 0x40, 0x80 + c % 0x40]
    else if c < 0x1_0000 then [0xE0 + c / 0x1000, 0x80 + c / 0x40 % 0x40, 0x80 + c % 0x40]
    else [0xF0 + c / 0x4_0000, 0x80 + c / 0x1000 % 0x40, 0x80 + c / 0x40 % 0x40, 0x80 + c % 0x40]
  }

  function Encode(cs: seq<nat>): seq<nat> {
    if cs == [] then [] else Utf8(cs[0]) + Encode(cs[1..])
  }

  // What the runtime computes. Reading behind the end of a buffer gives 0 here.

  function At(s: seq<nat>, i: nat): nat {
    if i < |s| then s[i] else 0
  }

  function From(s: seq<nat>, i: nat): seq<nat> {
    if i < |s| then s[i..] else []
  }

  /** The bytes for one unit, or a pair, of UTF-16. */
  function UnitBytes(u: nat, next: nat): seq<nat> {
    if u < 0x80 then [u]
    else if u < 0x800 then [0xC0 + u / 0x40 % 0x20, 0x80 + u % 0x40]
    else if High(u) then
      var c := Supplementary(u, next);
      [0xF0 + c / 0x4_0000 % 8, 0x80 + c / 0x1000 % 0x40, 0x80 + c / 0x40 % 0x40, 0x80 + c % 0x40]
    else [0xE0 + u / 0x1000 % 0x10, 0x80 + u / 0x40 % 0x40, 0x80 + u % 0x40]
  }

  function UnitSize(u: nat): nat {
    if High(u) then 2 else 1
  }

  /** ConvertToUTF8: the bytes for at most max units, up to the terminator. */
  function ToUtf8(t: seq<nat>, max: int): seq<nat>
    decreases |t|
  {
    if max <= 0 || t == [] || t[0] == 0 then []
    else UnitBytes(t[0], At(t, 1)) + ToUtf8(From(t, UnitSize(t[0])), max - UnitSize(t[0]))
  }

  /** CountNumberOfBytes, or -1 for text that is not well formed. The limit is compared before each character,
      so a limit inside a pair is never met. */
  function CountBytes(t: seq<nat>, max: int): (n: int)
    ensures n >= -1
    decreases |t|
  {
    if t == [] || t[0] == 0 || max == 0 then 0
    else if Low(t[0]) || (High(t[0]) && !Low(At(t, 1))) then -1
    else
      var rest := CountBytes(From(t, UnitSize(t[0])), max - UnitSize(t[0]));
      if rest == -1 then -1 else |UnitBytes(t[0], At(t, 1))| + rest
  }

  /** The limit is behind the text, or at the end of a character of it. */
  predicate AtBoundary(t: seq<nat>, max: int)
    requires WellFormed(t)
  {
    max < 0 || max == 0 || t == [] || (if High(t[0]) then max >= 2 && AtBoundary(t[2..], max - 2) else AtBoundary(t[1..], max - 1))
  }

  lemma UnitIsStandard(u: nat, next: nat)
    requires 0 < u < 0x1_0000 && !Low(u) && (High(u) ==> Low(next))
    ensures UnitBytes(u, next) == Utf8(if High(u) then Supplementary(u, next) else u)
    ensures IsScalar(if High(u) then Supplementary(u, next) else u)
  {
    if High(u) {
      var c := Supplementary(u, next);
      assert 0x1_0000 <= c <= 0x10_FFFF;
      assert c / 0x4_0000 % 8 == c / 0x4_0000;
    } else if u < 0x80 {
    } else if u < 0x800 {
      assert u / 0x40 % 0x20 == u / 0x40;
    } else {
      assert u / 0x1000 % 0x10 == u / 0x1000;
    }
  }

  /** How much of t is written with a limit of max units: up to the limit, or to the end of the pair that it splits. */
  function WrittenUpTo(t: seq<nat>, max: int): (k: nat)
    requires WellFormed(t) && max >= 0
    ensures k <= |t|
  {
    if max >= |t| then |t| else if AtBoundary(t, max) then max else max + 1
  }

  /** The runtime's encoding is that of the standard, whatever the limit; rest is what follows the text. */
  lemma {:induction false} ToUtf8IsStandard(t: seq<nat>, rest: seq<nat>, max: nat)
    requires WellFormed(t) && (max > |t| ==> At(rest, 0) == 0)
    ensures WellFormed(t[..WrittenUpTo(t, max)])
    ensures ToUtf8(t + rest, max) == Encode(Scalars(t[..WrittenUpTo(t, max)]))
    decreases |t|
  {
    if t == [] {
      assert t + rest == rest;
    } else if max > 0 {
      var n, k := UnitSize(t[0]), WrittenUpTo(t, max);
      ToUtf8First(t, rest, max);
      WrittenFirst(t, max);
      ToUtf8IsStandard(t[n..], rest, if max >= n then max - n else 0);
      EncodePrefix(t, k);
    }
  }

  lemma ToUtf8First(t: seq<nat>, rest: seq<nat>, max: nat)
    requires WellFormed(t) && t != [] && max > 0
    ensures var n := UnitSize(t[0]);
      && n <= |t| && WellFormed(t[n..])
      && ToUtf8(t + rest, max) == Utf8(Scalars(t)[0]) + ToUtf8(t[n..] + rest, if max >= n then max - n else 0)
  {
    FirstUnit(t, rest);
    UnitIsStandard(t[0], At(t + rest, 1));
  }

  lemma WrittenFirst(t: seq<nat>, max: nat)
    requires WellFormed(t) && t != [] && max > 0
    ensures var n := UnitSize(t[0]);
      && n <= |t| && WellFormed(t[n..]) && n <= WrittenUpTo(t, max)
      && WrittenUpTo(t[n..], if max >= n then max - n else 0) == WrittenUpTo(t, max) - n
  {
    var n := UnitSize(t[0]);
    if max < n {
      assert !AtBoundary(t, max) && AtBoundary(t[n..], 0);
    } else {
      assert AtBoundary(t, max) == AtBoundary(t[n..], max - n);
    }
  }

  lemma FirstUnit(t: seq<nat>, rest: seq<nat>)
    requires WellFormed(t) && t != []
    ensures UnitSize(t[0]) <= |t| && WellFormed(t[UnitSize(t[0])..]) && From(t + rest, UnitSize(t[0])) == t[UnitSize(t[0])..] + rest
  {
    FromConcat(t, rest, UnitSize(t[0]));
  }

  lemma FromConcat(a: seq<nat>, b: seq<nat>, n: nat)
    requires n <= |a|
    ensures From(a + b, n) == a[n..] + b
  {
  }

  lemma PrefixFrom(t: seq<nat>, k: nat, n: nat)
    requires n <= k <= |t|
    ensures t[..k][n..] == t[n..][..k - n]
  {
  }

  /** The first character of a part of a text. */
  lemma EncodePrefix(t: seq<nat>, k: nat)
    requires WellFormed(t) && t != [] && UnitSize(t[0]) <= k <= |t|
    requires WellFormed(t[UnitSize(t[0])..]) && WellFormed(t[UnitSize(t[0])..][..k - UnitSize(t[0])])
    ensures WellFormed(t[..k])
    ensures Encode(Scalars(t[..k])) == Utf8(Scalars(t)[0]) + Encode(Scalars(t[UnitSize(t[0])..][..k - UnitSize(t[0])]))
  {
    var n := UnitSize(t[0]);
    PrefixFrom(t, k, n);
    var more := Scalars(t[n..][..k - n]);
    assert Scalars(t[..k]) == [Scalars(t)[0]] + more;
    assert ([Scalars(t)[0]] + more)[1..] == more;
  }

  lemma CountStep(t: seq<nat>, rest: seq<nat>, max: int)
    requires WellFormed(t) && t != [] && max != 0
    ensures var n := UnitSize(t[0]);
      && n <= |t| && WellFormed(t[n..])
      && (CountBytes(t[n..] + rest, max - n) >= 0 ==> CountBytes(t + rest, max) == |Utf8(Scalars(t)[0])| + CountBytes(t[n..] + rest, max - n))
  {
    FirstUnit(t, rest);
    UnitIsStandard(t[0], At(t + rest, 1));
  }

  /** It is -1 exactly for text that is not well formed, with any negative limit. */
  lemma {:induction false} CountRejects(t: seq<nat>, max: int)
    requires max < 0 && forall i :: 0 <= i < |t| ==> 0 < t[i] < 0x1_0000
    ensures CountBytes(t + [0], max) == -1 <==> !WellFormed(t)
    decreases |t|
  {
    if t != [] && !Low(t[0]) && (!High(t[0]) || (|t| > 1 && Low(t[1]))) {
      var n := UnitSize(t[0]);
      assert From(t + [0], n) == t[n..] + [0];
      CountRejects(t[n..], max - n);
    }
  }

  /** How much of t is counted: up to the limit, but all of it when the limit is negative or splits a pair. */
  function CountedUpTo(t: seq<nat>, max: int): (k: nat)
    requires WellFormed(t)
    ensures k <= |t|
  {
    if 0 <= max <= |t| && AtBoundary(t, max) then max else |t|
  }

  /** The byte count is the size of the encoding of what is counted. */
  lemma {:induction false} CountLimited(t: seq<nat>, rest: seq<nat>, max: int)
    requires WellFormed(t) && (CountedUpTo(t, max) != max ==> At(rest, 0) == 0)
    ensures WellFormed(t[..CountedUpTo(t, max)])
    ensures CountBytes(t + rest, max) == |Encode(Scalars(t[..CountedUpTo(t, max)]))|
    decreases |t|
  {
    var k := CountedUpTo(t, max);
    if t == [] {
      assert t + rest == rest;
    } else if max == 0 {
      assert t[..k] == [];
    } else {
      var n := UnitSize(t[0]);
      FirstUnit(t, rest);
      CountStep(t, rest, max);
      CountLimited(t[n..], rest, max - n);
      EncodePrefix(t, k);
    }
  }

  /** So as many bytes are counted as are written exactly if the limit splits no pair but the last one. */
  lemma CountAgrees(t: seq<nat>, max: nat)
    requires WellFormed(t)
    ensures CountBytes(t + [0], max) == |ToUtf8(t + [0], max)| <==> max > |t| || AtBoundary(t, max) || max + 1 == |t|
    ensures CountBytes(t + [0], max) >= |ToUtf8(t + [0], max)|
  {
    CountLimited(t, [0], max);
    ToUtf8IsStandard(t, [0], max);
    WholeIsBoundary(t);
    var k := WrittenUpTo(t, max);
    assert t[..|t|] == t;
    if CountedUpTo(t, max) == |t| && k < |t| { LongerTakesMore(t, k); }
  }

  lemma {:induction false} WholeIsBoundary(t: seq<nat>)
    requires WellFormed(t)
    ensures AtBoundary(t, |t|)
    decreases |t|
  {
    if t != [] { WholeIsBoundary(t[UnitSize(t[0])..]); }
  }

  lemma {:induction false} LongerTakesMore(t: seq<nat>, k: nat)
    requires WellFormed(t) && k < |t| && WellFormed(t[..k])
    ensures |Encode(Scalars(t[..k]))| < |Encode(Scalars(t))|
    decreases k
  {
    if k > 0 {
      var n := UnitSize(t[0]);
      PrefixFrom(t, k, n);
      LongerTakesMore(t[n..], k - n);
      EncodePrefix(t, k);
      TextHead(t);
      EncodeHead(Scalars(t)[0], Scalars(t[n..]));
    }
  }

  /** It does not for U+10000 followed by A with a limit of 1: 5 bytes are counted, 4 are written. */
  lemma CountDisagrees()
    ensures CountBytes([0xD800, 0xDC00, 0x41, 0], 1) == 5 && |ToUtf8([0xD800, 0xDC00, 0x41, 0], 1)| == 4
  {
    var t: seq<nat> := [0xD800, 0xDC00, 0x41];
    assert t[2..] == [0x41] && t[2..][1..] == [] && WellFormed(t[2..]);
    assert t + [0] == [0xD800, 0xDC00, 0x41, 0];
    CountLimited(t, [0], 1);
    ToUtf8IsStandard(t, [0], 1);
    assert t[..2][2..] == [] && t[..3] == t;
    assert Scalars(t[..2]) == [0x1_0000] && Scalars(t) == [0x1_0000] + Scalars(t[2..]);
    assert Scalars(t[2..]) == [0x41] + Scalars(t[2..][1..]);
    assert Encode([0x1_0000]) == Utf8(0x1_0000) + Encode([0x1_0000][1..]);
    assert Encode([0x1_0000, 0x41]) == Utf8(0x1_0000) + Encode([0x1_0000, 0x41][1..]);
    assert [0x1_0000, 0x41][1..] == [0x41];
    assert Encode([0x41]) == Utf8(0x41) + Encode([0x41][1..]);
  }

  // Decoding.

  datatype Decoded = Decoded(units: seq<nat>, ok: bool)

  function Then(units: seq<nat>, d: Decoded): Decoded {
    Decoded(units + d.units, d.ok)
  }

  const FAILED := Decoded([], false)

  /** The character in a sequence of two, three or four bytes. */
  function Join2(b: seq<nat>): nat { At(b, 0) % 0x20 * 0x40 + At(b, 1) % 0x40 }
  function Join3(b: seq<nat>): nat { (At(b, 0) % 0x10 * 0x40 + At(b, 1) % 0x40) * 0x40 + At(b, 2) % 0x40 }
  function Join4(b: seq<nat>): nat { ((At(b, 0) % 8 * 0x40 + At(b, 1) % 0x40) * 0x40 + At(b, 2) % 0x40) * 0x40 + At(b, 3) % 0x40 }

  /** The two units the decoder makes of a character of four bytes. */
  function PairOf(c: nat): seq<nat> {
    [(c / 0x400 + HIGH_START) % 0x1_0000, c % 0x400 + LOW_START]
  }

  datatype Step = Bad | Char(units: seq<nat>, n: nat)

  /** One character: its first byte must be legal, its bytes must be within maxBytes and its units within size. */
  function TakeChar(b: seq<nat>, maxBytes: int, size: int): (r: Step)
    requires maxBytes > 0
    ensures r.Char? ==> 1 <= r.n <= maxBytes && |r.units| <= size
  {
    var c := At(b, 0);
    if c == 0 || 0x80 <= c < 0xC2 || c >= 0xF5 then Bad
    else if c < 0x80 then if size < 1 then Bad else Char([c], 1)
    else if c < 0xE0 then if maxBytes < 2 || size < 1 then Bad else Char([Join2(b)], 2)
    else if c < 0xF0 then if maxBytes < 3 || size < 1 then Bad else Char([Join3(b)], 3)
    else if maxBytes < 4 || size < 2 then Bad else Char(PairOf(Join4(b)), 4)
  }

  /** ConvertFromUTF8: at most maxChars units from at most maxBytes bytes, into size units of space; at the end
      there must be space for a terminator. */
  function FromUtf8(b: seq<nat>, maxChars: int, maxBytes: int, size: int): Decoded
    decreases if maxBytes < 0 then 0 else maxBytes
  {
    if maxChars <= 0 || maxBytes <= 0 then Decoded([], size >= 1)
    else match TakeChar(b, maxBytes, size)
      case Bad => FAILED
      case Char(units, n) => Then(units, FromUtf8(From(b, n), maxChars - |units|, maxBytes - n, size - |units|))
  }

  /** What the decoder makes of a text: high surrogates come out too high, because the decoder does not take
      off the base that the encoder adds. */
  function Shifted(t: seq<nat>): (r: seq<nat>)
    ensures |r| == |t| && forall i :: 0 <= i < |t| ==> r[i] == if High(t[i]) then t[i] + 0x40 else t[i]
  {
    if t == [] then [] else [if High(t[0]) then t[0] + 0x40 else t[0]] + Shifted(t[1..])
  }

  // Taking apart and putting together again.

  lemma Join2Of(c: nat)
    requires 0x80 <= c < 0x800
    ensures 0xC2 <= 0xC0 + c / 0x40 < 0xE0
    ensures (0xC0 + c / 0x40) % 0x20 * 0x40 + (0x80 + c % 0x40) % 0x40 == c
  {
  }

  lemma Join3Of(c: nat)
    requires 0x800 <= c < 0x1_0000
    ensures 0xE0 <= 0xE0 + c / 0x1000 < 0xF0
    ensures ((0xE0 + c / 0x1000) % 0x10 * 0x40 + (0x80 + c / 0x40 % 0x40) % 0x40) * 0x40 + (0x80 + c % 0x40) % 0x40 == c
  {
    assert c / 0x40 / 0x40 == c / 0x1000;
  }

  lemma Join4Of(c: nat)
    requires 0x1_0000 <= c <= 0x10_FFFF
    ensures 0xF0 <= 0xF0 + c / 0x4_0000 < 0xF5
    ensures (((0xF0 + c / 0x4_0000) % 8 * 0x40 + (0x80 + c / 0x1000 % 0x40) % 0x40) * 0x40 + (0x80 + c / 0x40 % 0x40) % 0x40) * 0x40
      + (0x80 + c % 0x40) % 0x40 == c
  {
    assert c / 0x40 / 0x40 == c / 0x1000;
    assert c / 0x1000 / 0x40 == c / 0x4_0000;
  }

  /** The first byte of a character's encoding tells its size, and the decoder gets the character back. */
  lemma DecodeOne(c: nat, more: seq<nat>)
    requires IsScalar(c)
    ensures var b := Utf8(c) + more;
      && From(b, |Utf8(c)|) == more && At(b, 0) > 0
      && (|Utf8(c)| == 1 <==> At(b, 0) < 0x80) && (|Utf8(c)| == 1 ==> At(b, 0) == c)
      && (|Utf8(c)| == 2 ==> 0xC2 <= At(b, 0) < 0xE0 && Join2(b) == c)
      && (|Utf8(c)| == 3 ==> 0xE0 <= At(b, 0) < 0xF0 && Join3(b) == c)
      && (|Utf8(c)| == 4 ==> 0xF0 <= At(b, 0) < 0xF5 && Join4(b) == c)
    ensures forall i :: 1 <= i < |Utf8(c)| ==> !BadLowPart(At(Utf8(c) + more, i))
  {
    var u := Utf8(c);
    var b := u + more;
    assert From(b, |u|) == more;
    assert At(b, 0) == u[0] && forall i :: 0 <= i < |u| ==> At(b, i) == u[i];
    if c < 0x80 {
    } else if c < 0x800 {
      Join2Of(c);
    } else if c < 0x1_0000 {
      Join3Of(c);
    } else {
      Join4Of(c);
    }
  }

  lemma PairOfSupplementary(high: nat, low: nat)
    requires High(high) && Low(low)
    ensures PairOf(Supplementary(high, low)) == [high + 0x40, low]
    ensures |Utf8(Supplementary(high, low))| == 4
  {
  }

  /** The units the decoder makes of a character. */
  function UnitsOf(c: nat): seq<nat> {
    if c < 0x1_0000 then [c] else PairOf(c)
  }

  lemma TakeOne(c: nat, more: seq<nat>, maxBytes: int, size: int)
    requires IsScalar(c) && maxBytes >= |Utf8(c)| > 0 && size >= |UnitsOf(c)|
    ensures TakeChar(Utf8(c) + more, maxBytes, size) == Char(UnitsOf(c), |Utf8(c)|)
  {
    DecodeOne(c, more);
  }

  /** Going on behind the first character. */
  lemma DecodeNext(b: seq<nat>, maxChars: int, maxBytes: int, size: int, units: seq<nat>, n: nat, more: seq<nat>)
    requires maxChars > 0 && maxBytes > 0 && TakeChar(b, maxBytes, size) == Char(units, n) && From(b, n) == more
    ensures FromUtf8(b, maxChars, maxBytes, size) == Then(units, FromUtf8(more, maxChars - |units|, maxBytes - n, size - |units|))
  {
  }

  lemma DecodeStep(c: nat, more: seq<nat>, maxChars: int, maxBytes: int, size: int)
    requires IsScalar(c) && maxChars > 0 && maxBytes >= |Utf8(c)| > 0 && size >= |UnitsOf(c)|
    ensures FromUtf8(Utf8(c) + more, maxChars, maxBytes, size) ==
      Then(UnitsOf(c), FromUtf8(more, maxChars - |UnitsOf(c)|, maxBytes - |Utf8(c)|, size - |UnitsOf(c)|))
  {
    TakeOne(c, more, maxBytes, size);
    BehindFirst(Utf8(c), more);
    DecodeNext(Utf8(c) + more, maxChars, maxBytes, size, UnitsOf(c), |Utf8(c)|, more);
  }

  lemma BehindFirst(a: seq<nat>, more: seq<nat>)
    ensures From(a + more, |a|) == more
  {
  }

  /** The first character of a text. */
  lemma TextHead(t: seq<nat>)
    requires WellFormed(t) && t != []
    ensures var n, c := UnitSize(t[0]), Scalars(t)[0];
      && n <= |t| && WellFormed(t[n..]) && IsScalar(c) && Scalars(t) == [c] + Scalars(t[n..])
      && Encode(Scalars(t)) + [0] == Utf8(c) + (Encode(Scalars(t[n..])) + [0])
      && |UnitsOf(c)| == n && 0 < |Utf8(c)| <= 3 * n && (n == 2 <==> |Utf8(c)| == 4)
  {
    UnitIsStandard(t[0], if |t| > 1 then t[1] else 0);
    var n, c := UnitSize(t[0]), Scalars(t)[0];
    EncodeHead(c, Scalars(t[n..]));
    if High(t[0]) { PairOfSupplementary(t[0], t[1]); }
  }

  lemma EncodeHead(c: nat, rest: seq<nat>)
    ensures Encode([c] + rest) + [0] == Utf8(c) + (Encode(rest) + [0])
  {
    assert ([c] + rest)[1..] == rest;
  }

  lemma ShiftedPair(t: seq<nat>)
    requires |t| > 1 && High(t[0]) && Low(t[1])
    ensures Shifted(t) == [t[0] + 0x40, t[1]] + Shifted(t[2..])
  {
    assert t[1..][1..] == t[2..];
  }

  lemma ShiftedHead(t: seq<nat>)
    requires WellFormed(t) && t != []
    ensures Shifted(t) == UnitsOf(Scalars(t)[0]) + Shifted(t[UnitSize(t[0])..])
  {
    var r := Shifted(t[UnitSize(t[0])..]);
    if High(t[0]) {
      PairOfSupplementary(t[0], t[1]);
      ShiftedPair(t);
      assert UnitsOf(Scalars(t)[0]) == [t[0] + 0x40, t[1]];
    } else {
      assert UnitsOf(Scalars(t)[0]) == [t[0]];
    }
  }

  /** A text taken apart behind its first character, for the decoder. */
  ghost predicate Parts(t: seq<nat>, c: nat, n: nat, enc: seq<nat>, enc': seq<nat>) {
    && IsScalar(c) && 0 < |Utf8(c)| && |UnitsOf(c)| == n > 0
    && enc == Utf8(c) + enc'
    && n <= |t| && Shifted(t) == UnitsOf(c) + Shifted(t[n..])
  }

  lemma TextParts(t: seq<nat>)
    requires WellFormed(t) && t != []
    ensures var n, c := UnitSize(t[0]), Scalars(t)[0];
      && n <= |t| && WellFormed(t[n..]) && Parts(t, c, n, Encode(Scalars(t)), Encode(Scalars(t[n..])))
  {
    TextHead(t);
    ShiftedHead(t);
    EncodeFirst(Scalars(t)[0], Scalars(t[UnitSize(t[0])..]));
  }

  type Decoder = (seq<nat>, int, int, int) -> Decoded

  ghost const DECODER: Decoder := (b: seq<nat>, c: int, m: int, s: int) => FromUtf8(b, c, m, s)

  /** What goes on behind the first character needs to know nothing of how the decoder works. */
  ghost predicate Decodes(dec: Decoder) {
    forall b, c, m, s {:trigger FromUtf8(b, c, m, s)} :: dec(b, c, m, s) == FromUtf8(b, c, m, s)
  }

  /** Decoding what starts with the encoding of a text; d is what the decoder makes of the rest. */
  lemma {:induction false} DecodeText(t: seq<nat>, more: seq<nat>, maxChars: int, maxBytes: int, size: int, dec: Decoder, d: Decoded)
    requires WellFormed(t) && maxChars >= |t| && maxBytes >= |Encode(Scalars(t))| && size >= |t|
    requires Decodes(dec) && d == dec(more, maxChars - |t|, maxBytes - |Encode(Scalars(t))|, size - |t|)
    ensures dec(Encode(Scalars(t)) + more, maxChars, maxBytes, size) == Then(Shifted(t), d)
    decreases |t|
  {
    if t == [] {
      assert Encode(Scalars(t)) + more == more;
      assert Shifted(t) == [];
    } else {
      TextParts(t);
      var n, c := UnitSize(t[0]), Scalars(t)[0];
      var enc := Encode(Scalars(t[n..]));
      DecodeText(t[n..], more, maxChars - n, maxBytes - |Utf8(c)|, size - n, dec, d);
      DecodeMore(c, n, enc + more, Shifted(t[n..]), dec, d, maxChars, maxBytes, size);
      Regroup(Utf8(c), enc, more);
    }
  }

  lemma EncodeFirst(c: nat, rest: seq<nat>)
    ensures Encode([c] + rest) == Utf8(c) + Encode(rest)
  {
    assert ([c] + rest)[1..] == rest;
  }

  lemma ThenNext(a: seq<nat>, b: seq<nat>, d: Decoded, now: Decoded)
    requires now == Then(b, d)
    ensures Then(a, now) == Then(a + b, d)
  {
    assert a + (b + d.units) == a + b + d.units;
  }

  /** One character of a text more. */
  lemma DecodeMore(c: nat, n: nat, enc: seq<nat>, rest: seq<nat>, dec: Decoder, d: Decoded, maxChars: int, maxBytes: int, size: int)
    requires IsScalar(c) && maxChars > 0 && maxBytes >= |Utf8(c)| > 0 && size >= n == |UnitsOf(c)|
    requires Decodes(dec) && dec(enc, maxChars - n, maxBytes - |Utf8(c)|, size - n) == Then(rest, d)
    ensures dec(Utf8(c) + enc, maxChars, maxBytes, size) == Then(UnitsOf(c) + rest, d)
  {
    DecodeStep(c, enc, maxChars, maxBytes, size);
    ThenNext(UnitsOf(c), rest, d, Then(rest, d));
  }

  lemma Regroup(a: seq<nat>, b: seq<nat>, more: seq<nat>)
    ensures a + b + more == a + (b + more)
  {
  }

  /** Behind a text the decoder fails, with the text written, at a terminator, at a byte that starts no character, at a
      character that is cut off by the limit, and for lack of space. */
  lemma DecodeStops(t: seq<nat>, more: seq<nat>, maxChars: int, maxBytes: int, size: int)
    requires WellFormed(t) && maxChars > |t| && maxBytes > |Encode(Scalars(t))| && size >= |t|
    requires
      var c, left := At(more, 0), maxBytes - |Encode(Scalars(t))|;
      || c == 0 || 0x80 <= c < 0xC2 || c >= 0xF5
      || (c >= 0xC2 && left < 2) || (c >= 0xE0 && left < 3) || (c >= 0xF0 && left < 4)
      || size == |t| || (c >= 0xF0 && size == |t| + 1)
    ensures FromUtf8(Encode(Scalars(t)) + more, maxChars, maxBytes, size) == Decoded(Shifted(t), false)
  {
    DecodeText(t, more, maxChars, maxBytes, size, DECODER, FAILED);
    assert Shifted(t) + [] == Shifted(t);
  }

  lemma {:induction false} EncodeSize(t: seq<nat>)
    requires WellFormed(t)
    ensures |Encode(Scalars(t))| <= 3 * |t|
    decreases |t|
  {
    if t != [] {
      TextHead(t);
      EncodeSize(t[UnitSize(t[0])..]);
      EncodeFirst(Scalars(t)[0], Scalars(t[UnitSize(t[0])..]));
    }
  }

  /** Decoding the encoding of a text. */
  lemma RoundTrip(t: seq<nat>, maxBytes: nat, size: nat)
    requires WellFormed(t) && maxBytes >= 3 * |t| && size > |t|
    ensures FromUtf8(Encode(Scalars(t)) + [0], |t|, maxBytes, size) == Decoded(Shifted(t), true)
  {
    EncodeSize(t);
    DecodeText(t, [0], |t|, maxBytes, size, DECODER, Decoded([], true));
    assert Shifted(t) + [] == Shifted(t);
  }

  /** So a text comes back exactly if it has no surrogates. */
  lemma RoundTripIff(t: seq<nat>, size: nat)
    requires WellFormed(t) && size > |t|
    ensures FromUtf8(Encode(Scalars(t)) + [0], |t|, 3 * |t|, size) == Decoded(t, true) <==> forall i :: 0 <= i < |t| ==> !High(t[i])
  {
    RoundTrip(t, 3 * |t|, size);
    if i :| 0 <= i < |t| && High(t[i]) {
      assert Shifted(t)[i] != t[i];
    } else {
      assert Shifted(t) == t;
    }
  }

  /** It does not for U+10000. */
  lemma RoundTripFails()
    ensures WellFormed([0xD800, 0xDC00])
    ensures FromUtf8(Encode(Scalars([0xD800, 0xDC00])) + [0], 2, 6, 3) == Decoded([0xD840, 0xDC00], true)
  {
    assert WellFormed([0xD800, 0xDC00][2..]);
    RoundTrip([0xD800, 0xDC00], 6, 3);
  }

  predicate BadLowPart(c: nat) { c < 0x80 || c > 0xBF }

  /** CountNumberOfCharacters, or -1. */
  function CountChars(b: seq<nat>, max: int): (n: int)
    ensures n >= -1
    decreases |b|
  {
    var c := At(b, 0);
    if c == 0 || max == 0 then 0
    else if 0x80 <= c < 0xC0 then -1
    else
      var n := if c < 0x80 then 1 else if c < 0xE0 then 2 else if c < 0xF0 then 3 else 4;
      if (n >= 2 && BadLowPart(At(b, 1))) || (n >= 3 && BadLowPart(At(b, 2))) || (n >= 4 && BadLowPart(At(b, 3))) then -1
      else
        var rest := CountChars(From(b, n), max - 1);
        if rest == -1 then -1 else rest + if n == 4 then 2 else 1
  }

  /** The units of the first max characters of a text; of all of them when max is negative. */
  function UnitsUpTo(t: seq<nat>, max: int): (k: nat)
    requires WellFormed(t)
    ensures k <= |t|
    decreases |t|
  {
    if t == [] || max == 0 then 0 else UnitSize(t[0]) + UnitsUpTo(t[UnitSize(t[0])..], max - 1)
  }

  /** What is counted in the encoding of a text are the units of its first max characters. */
  lemma {:induction false} CountCharsIsLength(t: seq<nat>, max: int)
    requires WellFormed(t)
    ensures CountChars(Encode(Scalars(t)) + [0], max) == UnitsUpTo(t, max)
    ensures max < 0 || max >= |t| ==> UnitsUpTo(t, max) == |t|
    ensures WellFormed(t[..UnitsUpTo(t, max)]) && (0 <= max <= |Scalars(t)| ==> |Scalars(t[..UnitsUpTo(t, max)])| == max)
    decreases |t|
  {
    if t != [] && max != 0 {
      TextHead(t);
      CountCharsFirst(t, max);
      CountCharsIsLength(t[UnitSize(t[0])..], max - 1);
      UnitsPrefix(t, UnitsUpTo(t, max));
    }
  }

  lemma CountCharsFirst(t: seq<nat>, max: int)
    requires WellFormed(t) && t != [] && max != 0
    ensures var n := UnitSize(t[0]);
      && n <= |t| && WellFormed(t[n..])
      && var rest := CountChars(Encode(Scalars(t[n..])) + [0], max - 1);
         rest >= 0 ==> CountChars(Encode(Scalars(t)) + [0], max) == n + rest
  {
    TextHead(t);
    DecodeOne(Scalars(t)[0], Encode(Scalars(t[UnitSize(t[0])..])) + [0]);
  }

  lemma UnitsPrefix(t: seq<nat>, k: nat)
    requires WellFormed(t) && t != [] && UnitSize(t[0]) <= k <= |t|
    requires WellFormed(t[UnitSize(t[0])..]) && WellFormed(t[UnitSize(t[0])..][..k - UnitSize(t[0])])
    ensures WellFormed(t[..k]) && |Scalars(t[..k])| == 1 + |Scalars(t[UnitSize(t[0])..][..k - UnitSize(t[0])])|
  {
    PrefixFrom(t, k, UnitSize(t[0]));
  }
}
