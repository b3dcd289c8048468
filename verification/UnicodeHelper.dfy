/** The conversions as the runtime runs them, with pointers into buffers and the space that is left. */
module UnicodeHelper {
  import opened Utf

  class Helper {
    const inputUtf8: array<nat>
    const inputUtf16: array<nat>
    const outputUtf8: array<nat>
    var outputUtf8Pos: nat
    var outputUtf8Size: nat
    const outputUtf16: array<nat>
    var outputUtf16Pos: nat
    var outputUtf16Size: nat

    constructor (inputUtf8: array<nat>, inputUtf16: array<nat>, outputUtf8: array<nat>, outputUtf16: array<nat>)
      ensures this.inputUtf8 == inputUtf8 && this.inputUtf16 == inputUtf16 && this.outputUtf8 == outputUtf8 && this.outputUtf16 == outputUtf16
      ensures outputUtf8Pos == outputUtf16Pos == 0 && outputUtf8Size == outputUtf8.Length && outputUtf16Size == outputUtf16.Length
    {
      this.inputUtf8, this.inputUtf16, this.outputUtf8, this.outputUtf16 := inputUtf8, inputUtf16, outputUtf8, outputUtf16;
      outputUtf8Pos, outputUtf16Pos, outputUtf8Size, outputUtf16Size := 0, 0, outputUtf8.Length, outputUtf16.Length;
    }

    method CountNumberOfBytes(max: int) returns (num: int)
      ensures num == CountBytes(inputUtf16[..], max)
    {
      ghost var t, total := inputUtf16[..], CountBytes(inputUtf16[..], max);
      UncountedStart(t, max);
      var p, left := 0, max;
      num := 0;
      while true
        invariant 0 <= p && num >= 0
        invariant Uncounted(t, p, left, num, total)
        decreases |t| - p
      {
        UncountedNext(t, p, left, num, total);
        if Read(inputUtf16, p) == 0 || left == 0 { break; }
        var n, k := CountUnit(p);
        if n == -1 { return -1; }
        p, left, num := p + k, left - k, num + n;
      }
    }

    /** The size of the character at p, and how many units it has. */
    method CountUnit(p: nat) returns (n: int, k: nat)
      ensures n == BytesOf(At(inputUtf16[..], p), At(inputUtf16[..], p + 1))
      ensures k == UnitSize(At(inputUtf16[..], p))
    {
      var ch := Read(inputUtf16, p);
      n, k := 1, 1;
      if ch >= 0x80 {
        n := 2;
        if ch >= 0x800 {
          n := 3;
          if Low(ch) {
            n := -1;
          } else if High(ch) {
            n, k := if Low(Read(inputUtf16, p + 1)) then 4 else -1, 2;
          }
        }
      }
    }

    method CountNumberOfCharacters(max: int) returns (num: int)
      ensures num == CountChars(inputUtf8[..], max)
    {
      ghost var b := inputUtf8[..];
      var p, left := 0, max;
      num := 0;
      while true
        invariant 0 <= p && num >= 0
        invariant CountChars(b, max) == Plus(num, CountChars(From(b, p), left))
        decreases |b| - p
      {
        CharsStep(b, p, left);
        var ch := Read(inputUtf8, p);
        if ch == 0 { break; }
        left := left - 1;
        if left == -1 { break; }
        if ch < 0x80 {
          p := p + 1;
          num := num + 1;
        } else if ch < 0xC0 {
          return -1;
        } else if ch < 0xE0 {
          if BadLowPart(Read(inputUtf8, p + 1)) { return -1; }
          p := p + 2;
          num := num + 1;
        } else if ch < 0xF0 {
          if BadLowPart(Read(inputUtf8, p + 1)) || BadLowPart(Read(inputUtf8, p + 2)) { return -1; }
          p := p + 3;
          num := num + 1;
        } else {
          if BadLowPart(Read(inputUtf8, p + 1)) || BadLowPart(Read(inputUtf8, p + 2)) || BadLowPart(Read(inputUtf8, p + 3)) { return -1; }
          p := p + 4;
          num := num + 2;
        }
      }
    }

    /** Writes some bytes, if there is space for them. */
    method PutBytes(bytes: seq<nat>) returns (ok: bool)
      requires outputUtf8Pos + outputUtf8Size == outputUtf8.Length
      modifies this`outputUtf8Pos, this`outputUtf8Size, outputUtf8
      ensures ok <==> |bytes| <= old(outputUtf8Size)
      ensures outputUtf8Pos + outputUtf8Size == outputUtf8.Length
      ensures !ok ==> outputUtf8Pos == old(outputUtf8Pos) && outputUtf8Size == old(outputUtf8Size) && outputUtf8[..] == old(outputUtf8[..])
      ensures ok ==> outputUtf8Pos == old(outputUtf8Pos) + |bytes| && outputUtf8Size == old(outputUtf8Size) - |bytes|
      ensures ok ==> outputUtf8[..outputUtf8Pos] == old(outputUtf8[..outputUtf8Pos]) + bytes && outputUtf8[outputUtf8Pos..] == old(outputUtf8[..])[outputUtf8Pos..]
    {
      if |bytes| > outputUtf8Size { return false; }
      forall i | 0 <= i < |bytes| { outputUtf8[outputUtf8Pos + i] := bytes[i]; }
      outputUtf8Pos := outputUtf8Pos + |bytes|;
      outputUtf8Size := outputUtf8Size - |bytes|;
      ok := true;
    }

    /** Reads a unit, or a high surrogate with the unit behind it. */
    method TakeUnit(p: nat) returns (bytes: seq<nat>, n: nat)
      ensures bytes == UnitBytes(At(inputUtf16[..], p), At(inputUtf16[..], p + 1)) && n == UnitSize(At(inputUtf16[..], p))
    {
      var ch := Read(inputUtf16, p);
      n := 1;
      if ch < 0x80 {
        bytes := [ch];
      } else if ch < 0x800 {
        bytes := [0xC0 + ch / 0x40 % 0x20, 0x80 + ch % 0x40];
      } else if High(ch) {
        var next := Read(inputUtf16, p + 1);
        var c := Supplementary(ch, next);
        bytes := [0xF0 + c / 0x4_0000 % 8, 0x80 + c / 0x1000 % 0x40, 0x80 + c / 0x40 % 0x40, 0x80 + c % 0x40];
        n := 2;
      } else {
        bytes := [0xE0 + ch / 0x1000 % 0x10, 0x80 + ch / 0x40 % 0x40, 0x80 + ch % 0x40];
      }
    }

    /** The output is what was there before, then done. */
    ghost predicate Written(before: seq<nat>, done: seq<nat>)
      reads this, outputUtf8
    {
      outputUtf8Pos + outputUtf8Size == outputUtf8.Length && outputUtf8[..outputUtf8Pos] == before + done
    }

    /** Writes one unit or pair. */
    method WriteUnit(p: nat, ghost before: seq<nat>, ghost done: seq<nat>) returns (ok: bool, n: nat, ghost bytes: seq<nat>)
      requires inputUtf16 != outputUtf8 && Written(before, done)
      modifies this`outputUtf8Pos, this`outputUtf8Size, outputUtf8
      ensures bytes == UnitBytes(At(inputUtf16[..], p), At(inputUtf16[..], p + 1)) && n == UnitSize(At(inputUtf16[..], p))
      ensures ok <==> |before| + |done| + |bytes| <= outputUtf8.Length
      ensures outputUtf8Pos + outputUtf8Size == outputUtf8.Length
      ensures ok ==> Written(before, done + bytes)
    {
      var b: seq<nat>;
      b, n := TakeUnit(p);
      bytes := b;
      ok := PutBytes(b);
    }

    /** All the bytes of the form, without a terminator. */
    method WriteUtf8(maxChars: int) returns (ok: bool)
      requires inputUtf16 != outputUtf8 && outputUtf8Pos + outputUtf8Size == outputUtf8.Length
      modifies this`outputUtf8Pos, this`outputUtf8Size, outputUtf8
      ensures outputUtf8Pos + outputUtf8Size == outputUtf8.Length
      ensures ok <==> |ToUtf8(inputUtf16[..], maxChars)| <= old(outputUtf8Size)
      ensures ok ==> Written(old(outputUtf8[..outputUtf8Pos]), ToUtf8(inputUtf16[..], maxChars))
    {
      ghost var t, before := inputUtf16[..], outputUtf8[..outputUtf8Pos];
      var p, left := 0, maxChars;
      ghost var done: seq<nat>, total := [], ToUtf8(t, maxChars);
      ghost var enc := (t: seq<nat>, max: int) => ToUtf8(t, max);
      ToUtf8Start(enc, t, maxChars);
      while left > 0
        invariant 0 <= p && Written(before, done) && inputUtf16[..] == t
        invariant Unwritten(enc, t, p, left, done, total)
        decreases |t| - p
      {
        if Read(inputUtf16, p) == 0 {
          ToUtf8Next(enc, t, p, left, done, total);
          return true;
        }
        ok, p, left, done := WriteNext(p, left, enc, t, before, done, total);
        if !ok { return; }
      }
      ToUtf8End(enc, t, p, left, done, total);
      ok := true;
    }

    method WriteNext(p: nat, left: int, ghost enc: Encoder, ghost t: seq<nat>, ghost before: seq<nat>, ghost done: seq<nat>, ghost total: seq<nat>)
      returns (ok: bool, p': nat, left': int, ghost done': seq<nat>)
      requires inputUtf16 != outputUtf8 && Written(before, done) && left > 0 && inputUtf16[..] == t && At(t, p) != 0
      requires Encodes(enc) && Unwritten(enc, t, p, left, done, total)
      modifies this`outputUtf8Pos, this`outputUtf8Size, outputUtf8
      ensures outputUtf8Pos + outputUtf8Size == outputUtf8.Length && p' > p
      ensures !ok ==> outputUtf8.Length < |before| + |total|
      ensures inputUtf16[..] == t
      ensures ok ==> Written(before, done') && Unwritten(enc, t, p', left', done', total)
    {
      ToUtf8Next(enc, t, p, left, done, total);
      var n: nat;
      ghost var bytes: seq<nat>;
      ok, n, bytes := WriteUnit(p, before, done);
      p', left', done' := p + n, left - n, done + bytes;
    }

    /** Writes the UTF-8 form of at most maxChars units, and a terminator that is not counted. */
    method ConvertToUtf8(maxChars: int) returns (res: bool)
      requires inputUtf16 != outputUtf8 && outputUtf8Pos + outputUtf8Size == outputUtf8.Length
      modifies this`outputUtf8Pos, this`outputUtf8Size, outputUtf8
      ensures res <==> |ToUtf8(inputUtf16[..], maxChars)| < old(outputUtf8Size)
      ensures res ==> Written(old(outputUtf8[..outputUtf8Pos]), ToUtf8(inputUtf16[..], maxChars))
      ensures res ==> outputUtf8Pos < outputUtf8.Length && outputUtf8[outputUtf8Pos] == 0
    {
      res := WriteUtf8(maxChars);
      if !res { return; }
      if outputUtf8Size < 1 { return false; }
      outputUtf8[outputUtf8Pos] := 0;
    }

    /** Reads one character. */
    method ReadChar(p: nat, maxBytes: int) returns (r: Step)
      requires maxBytes > 0
      ensures r == TakeChar(From(inputUtf8[..], p), maxBytes, outputUtf16Size)
    {
      FromAt(inputUtf8[..], p);
      var c := Read(inputUtf8, p);
      if c == 0 || 0x80 <= c < 0xC2 || c >= 0xF5 { return Bad; }
      if c < 0x80 {
        if outputUtf16Size < 1 { return Bad; }
        return Char([c], 1);
      }
      if c < 0xE0 {
        if maxBytes < 2 || outputUtf16Size < 1 { return Bad; }
        return Char([c % 0x20 * 0x40 + Read(inputUtf8, p + 1) % 0x40], 2);
      }
      if c < 0xF0 {
        if maxBytes < 3 || outputUtf16Size < 1 { return Bad; }
        return Char([(c % 0x10 * 0x40 + Read(inputUtf8, p + 1) % 0x40) * 0x40 + Read(inputUtf8, p + 2) % 0x40], 3);
      }
      if maxBytes < 4 || outputUtf16Size < 2 { return Bad; }
      var ch2 := c % 8 * 0x40 + Read(inputUtf8, p + 1) % 0x40;
      ch2 := ch2 * 0x40 + Read(inputUtf8, p + 2) % 0x40;
      ch2 := ch2 * 0x40 + Read(inputUtf8, p + 3) % 0x40;
      r := Char([(ch2 / 0x400 + HIGH_START) % 0x1_0000, ch2 % 0x400 + LOW_START], 4);
    }

    /** The output is what was there before, then done. */
    ghost predicate WrittenUnits(before: seq<nat>, done: seq<nat>)
      reads this, outputUtf16
    {
      outputUtf16Pos + outputUtf16Size == outputUtf16.Length && outputUtf16[..outputUtf16Pos] == before + done
    }

    method PutUnits(units: seq<nat>, ghost before: seq<nat>, ghost done: seq<nat>)
      requires WrittenUnits(before, done) && |units| <= outputUtf16Size
      modifies this`outputUtf16Pos, this`outputUtf16Size, outputUtf16
      ensures WrittenUnits(before, done + units) && outputUtf16Size == old(outputUtf16Size) - |units|
    {
      forall i | 0 <= i < |units| { outputUtf16[outputUtf16Pos + i] := units[i]; }
      outputUtf16Pos := outputUtf16Pos + |units|;
      outputUtf16Size := outputUtf16Size - |units|;
    }

    method ConvertNext(p: nat, chars: int, bytes: int, ghost dec: Decoder, ghost b: seq<nat>, ghost before: seq<nat>, ghost done: seq<nat>, ghost total: Decoded)
      returns (ok: bool, p': nat, chars': int, bytes': int, ghost done': seq<nat>)
      requires inputUtf8 != outputUtf16 && WrittenUnits(before, done) && chars > 0 && bytes > 0
      requires Decodes(dec) && inputUtf8[..] == b && Unread(dec, b, p, chars, bytes, outputUtf16Size, done, total)
      modifies this`outputUtf16Pos, this`outputUtf16Size, outputUtf16
      ensures inputUtf8[..] == b
      ensures !ok ==> total == Decoded(done, false) && WrittenUnits(before, done)
      ensures ok ==> WrittenUnits(before, done') && Unread(dec, b, p', chars', bytes', outputUtf16Size, done', total)
      ensures ok ==> bytes' < bytes
    {
      FromUtf8Next(dec, b, p, chars, bytes, outputUtf16Size, done, total);
      var r := ReadChar(p, bytes);
      p', chars', bytes', done' := p, chars, bytes, done;
      if r.Bad? { return false, p', chars', bytes', done'; }
      PutUnits(r.units, before, done);
      done' := done + r.units;
      ok, p', chars', bytes' := true, p + r.n, chars - |r.units|, bytes - r.n;
    }

    /** Writes the UTF-16 form of at most maxChars units' worth of characters, and a terminator that is not
        counted. Without a limit for the bytes there are at most three for each unit. */
    method ConvertFromUtf8(maxChars: int, iMaxBytes: int) returns (res: bool)
      requires inputUtf8 != outputUtf16 && outputUtf16Pos + outputUtf16Size == outputUtf16.Length
      modifies this`outputUtf16Pos, this`outputUtf16Size, outputUtf16
      ensures var d := FromUtf8(inputUtf8[..], maxChars, if iMaxBytes == -1 then maxChars * 3 else iMaxBytes, old(outputUtf16Size));
        && res == d.ok && WrittenUnits(old(outputUtf16[..outputUtf16Pos]), d.units)
        && (res ==> outputUtf16Pos < outputUtf16.Length && outputUtf16[outputUtf16Pos] == 0)
    {
      var maxBytes := if iMaxBytes == -1 then maxChars * 3 else iMaxBytes;
      ghost var b, before := inputUtf8[..], outputUtf16[..outputUtf16Pos];
      ghost var done: seq<nat>, total := [], FromUtf8(b, maxChars, maxBytes, outputUtf16Size);
      var p, chars, bytes := 0, maxChars, maxBytes;
      ghost var dec := DECODER;
      FromUtf8Start(dec, b, chars, bytes, outputUtf16Size);
      while chars > 0 && bytes > 0
        invariant 0 <= p && WrittenUnits(before, done) && inputUtf8[..] == b
        invariant Unread(dec, b, p, chars, bytes, outputUtf16Size, done, total)
        decreases bytes
      {
        var ok: bool;
        ok, p, chars, bytes, done := ConvertNext(p, chars, bytes, dec, b, before, done, total);
        if !ok { return false; }
      }
      FromUtf8End(dec, b, p, chars, bytes, outputUtf16Size, done, total);
      if outputUtf16Size < 1 { return false; }
      outputUtf16[outputUtf16Pos] := 0;
      res := true;
    }

    static function Read(a: array<nat>, p: nat): nat
      reads a
    {
      if p < a.Length then a[p] else 0
    }
  }

  /** Creating a string from the first length units of a buffer that holds the text t: the bytes are counted, space
      for them and a terminator is taken, and filled exactly. If length splits a pair of the text, too much space
      may be taken; the pair is written whole. */
  method CreateString(text: array<nat>, length: nat, ghost t: seq<nat>) returns (str: array<nat>)
    requires WellFormed(t) && t <= text[..] && (length == |t| || At(text[..], |t|) == 0)
    ensures fresh(str) && WellFormed(t[..WrittenUpTo(t, length)])
    ensures length >= |t| || AtBoundary(t, length) ==> str[..] == Encode(Scalars(t[..WrittenUpTo(t, length)])) + [0]
    ensures Encode(Scalars(t[..WrittenUpTo(t, length)])) + [0] <= str[..]
    ensures length < |t| && !AtBoundary(t, length) ==> str.Length == |Encode(Scalars(t))| + 1
  {
    StringSizes(text[..], length, t);
    str := CountAndFill(text, length, ToUtf8(text[..], length));
  }

  method CountAndFill(text: array<nat>, length: nat, ghost bytes: seq<nat>) returns (str: array<nat>)
    requires bytes == ToUtf8(text[..], length) && |bytes| <= CountBytes(text[..], length)
    ensures fresh(str) && str.Length == CountBytes(text[..], length) + 1 && bytes + [0] <= str[..]
  {
    var none := new nat[0];
    var counter := new Helper(none, text, none, none);
    var lengthInBytes := counter.CountNumberOfBytes(length);
    str := new nat[lengthInBytes + 1](_ => 0);
    var uh := new Helper(none, text, str, none);
    var res := uh.ConvertToUtf8(length);
    assert str[..uh.outputUtf8Pos + 1] == str[..uh.outputUtf8Pos] + [0];
    assert str[..uh.outputUtf8Pos] == bytes;
  }

  lemma StringSizes(text: seq<nat>, length: nat, t: seq<nat>)
    requires WellFormed(t) && t <= text && (length == |t| || At(text, |t|) == 0)
    ensures WellFormed(t[..WrittenUpTo(t, length)])
    ensures ToUtf8(text, length) == Encode(Scalars(t[..WrittenUpTo(t, length)]))
    ensures |ToUtf8(text, length)| <= CountBytes(text, length)
    ensures length >= |t| || AtBoundary(t, length) ==> CountBytes(text, length) == |ToUtf8(text, length)|
    ensures length < |t| && !AtBoundary(t, length) ==> CountBytes(text, length) == |Encode(Scalars(t))|
  {
    var rest := text[|t|..];
    assert text == t + rest && At(rest, 0) == At(text, |t|);
    AllCounted(t, length);
    CountLimited(t, rest, length);
    ToUtf8IsStandard(t, rest, length);
  }

  /** What is written has been counted. */
  lemma AllCounted(t: seq<nat>, max: nat)
    requires WellFormed(t)
    ensures WellFormed(t[..WrittenUpTo(t, max)]) && WellFormed(t[..CountedUpTo(t, max)])
    ensures |Encode(Scalars(t[..WrittenUpTo(t, max)]))| <= |Encode(Scalars(t[..CountedUpTo(t, max)]))|
    ensures max >= |t| || AtBoundary(t, max) ==> WrittenUpTo(t, max) == CountedUpTo(t, max)
    ensures max == |t| ==> CountedUpTo(t, max) == max
    ensures max < |t| && !AtBoundary(t, max) ==> t[..CountedUpTo(t, max)] == t
  {
    ToUtf8IsStandard(t, [0], max);
    CountLimited(t, [0], max);
    assert t[..|t|] == t;
    if max < |t| && !AtBoundary(t, max) && max + 1 < |t| { LongerTakesMore(t, max + 1); }
    WholeIsBoundary(t);
  }

  lemma FromAt(s: seq<nat>, p: nat)
    ensures forall i: nat {:trigger At(From(s, p), i)} :: At(From(s, p), i) == At(s, p + i)
    ensures forall n: nat {:trigger From(From(s, p), n)} :: From(From(s, p), n) == From(s, p + n)
  {
  }

  function Plus(n: int, rest: int): int {
    if rest == -1 then -1 else n + rest
  }

  /** The bytes a unit, or a pair, takes; -1 for a surrogate out of place. */
  function BytesOf(u: nat, next: nat): int {
    if u < 0x80 then 1
    else if u < 0x800 then 2
    else if Low(u) then -1
    else if !High(u) then 3
    else if !Low(next) then -1
    else 4
  }

  lemma BytesStep(t: seq<nat>, p: nat, left: int)
    ensures var u, n := At(t, p), BytesOf(At(t, p), At(t, p + 1));
      CountBytes(From(t, p), left) ==
        if u == 0 || left == 0 then 0
        else if n == -1 then -1
        else Plus(n, CountBytes(From(t, p + UnitSize(u)), left - UnitSize(u)))
  {
    FromAt(t, p);
    var rest := From(t, p);
    if rest != [] {
      assert rest[0] == At(t, p) && At(rest, 1) == At(t, p + 1);
      assert From(rest, UnitSize(At(t, p))) == From(t, p + UnitSize(At(t, p)));
    }
  }

  /** What is still to be counted makes up the total. */
  ghost predicate Uncounted(t: seq<nat>, p: nat, left: int, num: int, total: int) {
    total == Plus(num, CountBytes(From(t, p), left))
  }

  lemma UncountedStart(t: seq<nat>, max: int)
    ensures Uncounted(t, 0, max, 0, CountBytes(t, max))
  {
    assert From(t, 0) == t;
  }

  lemma UncountedNext(t: seq<nat>, p: nat, left: int, num: int, total: int)
    requires Uncounted(t, p, left, num, total)
    ensures At(t, p) == 0 || left == 0 ==> total == num
    ensures var u, n := At(t, p), BytesOf(At(t, p), At(t, p + 1));
      u != 0 && left != 0 ==> p < |t| && if n == -1 then total == -1 else Uncounted(t, p + UnitSize(u), left - UnitSize(u), num + n, total)
  {
    BytesStep(t, p, left);
  }

  type Encoder = (seq<nat>, int) -> seq<nat>

  ghost predicate Encodes(enc: Encoder) {
    forall t, max {:trigger ToUtf8(t, max)} :: enc(t, max) == ToUtf8(t, max)
  }

  /** done is followed by what is still to be read. */
  ghost predicate Unwritten(enc: Encoder, t: seq<nat>, p: nat, left: int, done: seq<nat>, total: seq<nat>) {
    total == done + enc(From(t, p), left)
  }

  lemma ToUtf8Start(enc: Encoder, t: seq<nat>, max: int)
    requires Encodes(enc)
    ensures Unwritten(enc, t, 0, max, [], ToUtf8(t, max))
  {
    assert From(t, 0) == t;
  }

  lemma ToUtf8End(enc: Encoder, t: seq<nat>, p: nat, left: int, done: seq<nat>, total: seq<nat>)
    requires Encodes(enc) && left <= 0 && Unwritten(enc, t, p, left, done, total)
    ensures total == done
  {
    assert ToUtf8(From(t, p), left) == [];
  }

  lemma ToUtf8Next(enc: Encoder, t: seq<nat>, p: nat, left: int, done: seq<nat>, total: seq<nat>)
    requires Encodes(enc) && left > 0 && Unwritten(enc, t, p, left, done, total)
    ensures At(t, p) == 0 ==> total == done
    ensures var bytes := UnitBytes(At(t, p), At(t, p + 1));
      At(t, p) != 0 ==> |done| + |bytes| <= |total| && Unwritten(enc, t, p + UnitSize(At(t, p)), left - UnitSize(At(t, p)), done + bytes, total)
  {
    ToUtf8Step(t, p, left);
    if At(t, p) != 0 {
      AppendNext(enc, t, p + UnitSize(At(t, p)), left - UnitSize(At(t, p)), done, UnitBytes(At(t, p), At(t, p + 1)), total);
    }
  }

  lemma AppendNext(enc: Encoder, t: seq<nat>, p': nat, left': int, done: seq<nat>, bytes: seq<nat>, total: seq<nat>)
    requires Encodes(enc) && total == done + (bytes + ToUtf8(From(t, p'), left'))
    ensures |done| + |bytes| <= |total| && Unwritten(enc, t, p', left', done + bytes, total)
  {
    assert done + (bytes + ToUtf8(From(t, p'), left')) == done + bytes + ToUtf8(From(t, p'), left');
  }

  lemma ToUtf8Step(t: seq<nat>, p: nat, left: int)
    requires left > 0
    ensures var u := At(t, p);
      ToUtf8(From(t, p), left) == if u == 0 then [] else UnitBytes(u, At(t, p + 1)) + ToUtf8(From(t, p + UnitSize(u)), left - UnitSize(u))
  {
    FromAt(t, p);
    var rest := From(t, p);
    if rest != [] {
      assert rest[0] == At(t, p) && At(rest, 1) == At(t, p + 1);
      assert From(rest, UnitSize(rest[0])) == From(t, p + UnitSize(rest[0]));
    }
  }

  lemma CharsStep(b: seq<nat>, p: nat, left: int)
    ensures var c := At(b, p);
      CountChars(From(b, p), left) ==
        if c == 0 || left == 0 then 0
        else if c < 0x80 then Plus(1, CountChars(From(b, p + 1), left - 1))
        else if c < 0xC0 then -1
        else if BadLowPart(At(b, p + 1)) then -1
        else if c < 0xE0 then Plus(1, CountChars(From(b, p + 2), left - 1))
        else if BadLowPart(At(b, p + 2)) then -1
        else if c < 0xF0 then Plus(1, CountChars(From(b, p + 3), left - 1))
        else if BadLowPart(At(b, p + 3)) then -1
        else Plus(2, CountChars(From(b, p + 4), left - 1))
  {
    FromAt(b, p);
    var rest := From(b, p);
    assert At(rest, 0) == At(b, p) && At(rest, 1) == At(b, p + 1) && At(rest, 2) == At(b, p + 2) && At(rest, 3) == At(b, p + 3);
    assert From(rest, 1) == From(b, p + 1) && From(rest, 2) == From(b, p + 2) && From(rest, 3) == From(b, p + 3) && From(rest, 4) == From(b, p + 4);
  }

  ghost predicate Unread(dec: Decoder, b: seq<nat>, p: nat, chars: int, bytes: int, size: int, done: seq<nat>, total: Decoded) {
    total == Then(done, dec(From(b, p), chars, bytes, size))
  }

  lemma FromUtf8Start(dec: Decoder, b: seq<nat>, chars: int, bytes: int, size: int)
    requires Decodes(dec)
    ensures Unread(dec, b, 0, chars, bytes, size, [], FromUtf8(b, chars, bytes, size))
  {
    assert From(b, 0) == b;
  }

  lemma FromUtf8End(dec: Decoder, b: seq<nat>, p: nat, chars: int, bytes: int, size: int, done: seq<nat>, total: Decoded)
    requires Decodes(dec) && (chars <= 0 || bytes <= 0) && Unread(dec, b, p, chars, bytes, size, done, total)
    ensures total == Decoded(done, size >= 1)
  {
    assert FromUtf8(From(b, p), chars, bytes, size) == Decoded([], size >= 1);
    assert done + [] == done;
  }

  lemma FromUtf8Next(dec: Decoder, b: seq<nat>, p: nat, chars: int, bytes: int, size: int, done: seq<nat>, total: Decoded)
    requires Decodes(dec) && chars > 0 && bytes > 0 && Unread(dec, b, p, chars, bytes, size, done, total)
    ensures match TakeChar(From(b, p), bytes, size)
      case Bad => total == Decoded(done, false)
      case Char(units, n) => Unread(dec, b, p + n, chars - |units|, bytes - n, size - |units|, done + units, total)
  {
    FromAt(b, p);
    match TakeChar(From(b, p), bytes, size)
    case Bad =>
      assert FromUtf8(From(b, p), chars, bytes, size) == FAILED;
      assert done + [] == done;
    case Char(units, n) =>
      DecodeNext(From(b, p), chars, bytes, size, units, n, From(b, p + n));
      ThenNext(done, units, FromUtf8(From(b, p + n), chars - |units|, bytes - n, size - |units|), FromUtf8(From(b, p), chars, bytes, size));
  }
}
