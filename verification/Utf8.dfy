/**
  Byte-exact matching: the offset-keeping UTF-8 decoder, literal search over the decoded text, and
  the mapping back to bytes. The syntax of a well-formed sequence is the one in section 4 of
  RFC 3629.
*/
module Utf8 {
  import opened Bytes

  /** What an undecodable byte is shown as. */
  const REPLACEMENT := 0xFFFD

  /** Unicode scalar values: code points that are not surrogates. */
  type Scalar = c: int | 0 <= c < 0xD800 || 0xDFFF < c <= 0x10FFFF

  predicate IsTail(b: Byte) {
    0x80 <= b <= 0xBF
  }

  /** The bytes that may follow the lead byte of a two-, three- or four-byte sequence. */
  predicate LeadsTwo(a: Byte, b: Byte) {
    0xC2 <= a <= 0xDF && IsTail(b)
  }

  predicate LeadsThree(a: Byte, b: Byte) {
    || (a == 0xE0 && 0xA0 <= b <= 0xBF)
    || (0xE1 <= a <= 0xEC && IsTail(b))
    || (a == 0xED && 0x80 <= b <= 0x9F)
    || (0xEE <= a <= 0xEF && IsTail(b))
  }

  predicate LeadsFour(a: Byte, b: Byte) {
    || (a == 0xF0 && 0x90 <= b <= 0xBF)
    || (0xF1 <= a <= 0xF3 && IsTail(b))
    || (a == 0xF4 && 0x80 <= b <= 0x8F)
  }

  /** One character's worth of well-formed UTF-8, section 4 of RFC 3629. */
  predicate WellFormed(s: seq<Byte>) {
    || (|s| == 1 && s[0] <= 0x7F)
    || (|s| == 2 && LeadsTwo(s[0], s[1]))
    || (|s| == 3 && LeadsThree(s[0], s[1]) && IsTail(s[2]))
    || (|s| == 4 && LeadsFour(s[0], s[1]) && IsTail(s[2]) && IsTail(s[3]))
  }

  function TailByte(bits: int): Byte {
    0x80 + bits % 64
  }

  function Encode(c: Scalar): (s: seq<Byte>)
    ensures 1 <= |s| <= 4
  {
    if c < 0x80 then var a: Byte := c; [a]
    else if c < 0x800 then var a: Byte := 0xC0 + c / 64; [a, TailByte(c)]
    else if c < 0x10000 then var a: Byte := 0xE0 + c / 4096; [a, TailByte(c / 64), TailByte(c)]
    else var a: Byte := 0xF0 + c / 262144; [a, TailByte(c / 4096), TailByte(c / 64), TailByte(c)]
  }

  function TwoBytes(a: int, b: int): int {
    (a - 0xC0) * 64 + (b - 0x80)
  }

  function ThreeBytes(a: int, b: int, d: int): int {
    (a - 0xE0) * 4096 + (b - 0x80) * 64 + (d - 0x80)
  }

  function FourBytes(a: int, b: int, d: int, e: int): int {
    (a - 0xF0) * 262144 + (b - 0x80) * 4096 + (d - 0x80) * 64 + (e - 0x80)
  }

  function ScalarOf(s: seq<Byte>): Scalar
    requires WellFormed(s)
  {
    match |s|
    case 1 => s[0]
    case 2 => TwoBytes(s[0], s[1])
    case 3 => ThreeBytes(s[0], s[1], s[2])
    case _ => FourBytes(s[0], s[1], s[2], s[3])
  }

  lemma EncodingIsWellFormed(c: Scalar)
    ensures WellFormed(Encode(c)) && ScalarOf(Encode(c)) == c
    ensures !IsTail(Encode(c)[0]) && Width(Encode(c)[0]) == |Encode(c)|
  {
    if c < 0x800 {
    } else if c < 0x10000 {
      assert c / 64 / 64 == c / 4096;
    } else {
      assert c / 64 / 64 == c / 4096 && c / 4096 / 64 == c / 262144;
    }
  }

  lemma ThreeBytesSplit(a: Byte, b: Byte, d: Byte)
    requires LeadsThree(a, b) && IsTail(d)
    ensures var c := ThreeBytes(a, b, d);
      0x800 <= c < 0x10000 && c / 4096 == a - 0xE0 && TailByte(c / 64) == b && TailByte(c) == d
  {
    var high, low := a as int - 0xE0, b as int - 0x80;
    SplitsBack(high, low, 64);
    SplitsBack(high * 64 + low, d as int - 0x80, 64);
    assert ThreeBytes(a, b, d) == (high * 64 + low) * 64 + (d as int - 0x80);
  }

  lemma FourBytesSplit(a: Byte, b: Byte, d: Byte, e: Byte)
    requires LeadsFour(a, b) && IsTail(d) && IsTail(e)
    ensures var c := FourBytes(a, b, d, e);
      && 0x10000 <= c && c / 262144 == a - 0xF0
      && TailByte(c / 4096) == b && TailByte(c / 64) == d && TailByte(c) == e
  {
    var top := (a as int - 0xF0) * 64 + (b as int - 0x80);
    var middle := top * 64 + (d as int - 0x80);
    SplitsBack(a as int - 0xF0, b as int - 0x80, 64);
    SplitsBack(top, d as int - 0x80, 64);
    SplitsBack(middle, e as int - 0x80, 64);
    assert FourBytes(a, b, d, e) == middle * 64 + (e as int - 0x80);
  }

  lemma WellFormedIsAnEncoding(s: seq<Byte>)
    requires WellFormed(s)
    ensures Encode(ScalarOf(s)) == s
    ensures Width(s[0]) == |s| && !IsTail(s[0]) && forall i :: 1 <= i < |s| ==> IsTail(s[i])
  {
    hide ThreeBytes, FourBytes;
    if |s| == 2 {
      SplitsBack(s[0] as int - 0xC0, s[1] as int - 0x80, 64);
    } else if |s| == 3 {
      ThreeBytesSplit(s[0], s[1], s[2]);
    } else if |s| == 4 {
      FourBytesSplit(s[0], s[1], s[2], s[3]);
    }
  }

  /** The encodings that section 7 of RFC 3629 gives as examples. */
  lemma EncodesAsInTheStandard()
    ensures Encode(0x41) == [0x41] && Encode(0x391) == [0xCE, 0x91]
    ensures Encode(0x2262) == [0xE2, 0x89, 0xA2] && Encode(0xD55C) == [0xED, 0x95, 0x9C]
    ensures Encode(0x233B4) == [0xF0, 0xA3, 0x8E, 0xB4]
  {
  }

  function EncodeAll(text: seq<Scalar>): seq<Byte> {
    if text == [] then [] else Encode(text[0]) + EncodeAll(text[1..])
  }

  // ---- Decoding ----

  /** The length the lead byte announces. */
  function Width(first: Byte): nat {
    if 0xC2 <= first <= 0xDF then 2
    else if 0xE0 <= first <= 0xEF then 3
    else if 0xF0 <= first <= 0xF4 then 4
    else 1
  }

  /** The first character of non-empty input, and how many bytes it stands for. */
  function DecodeFirst(raw: seq<Byte>): (first: (Scalar, nat))
    requires raw != []
    ensures 1 <= first.1 <= |raw|
  {
    var width := Width(raw[0]);
    if width <= |raw| && WellFormed(raw[..width]) then (ScalarOf(raw[..width]), width) else (REPLACEMENT, 1)
  }

  function Text(raw: seq<Byte>): seq<Scalar> {
    if raw == [] then [] else [DecodeFirst(raw).0] + Text(raw[DecodeFirst(raw).1..])
  }

  /** What is no encoding reads as U+FFFD, byte by byte: a stray tail, an overlong form, a surrogate. */
  lemma InvalidBytesAreReplaced()
    ensures Text([0x80]) == [0xFFFD] && Text([0xC0, 0x80]) == [0xFFFD, 0xFFFD]
    ensures Text([0xED, 0xA0, 0x80]) == [0xFFFD, 0xFFFD, 0xFFFD]
  {
    assert [0x80][1..] == [] && [0xC0, 0x80][1..] == [0x80];
    assert [0xA0, 0x80][1..] == [0x80] && [0xED, 0xA0, 0x80][1..] == [0xA0, 0x80];
  }

  /** Where each character starts, then where the input ends. */
  function Offsets(raw: seq<Byte>, base: nat): seq<nat> {
    if raw == [] then [base] else [base] + Offsets(raw[DecodeFirst(raw).1..], base + DecodeFirst(raw).1)
  }

  /** One decoding step seen on the whole input. */
  lemma DecodeStep(raw: seq<Byte>, index: nat)
    requires index < |raw|
    ensures var (character, width) := DecodeFirst(raw[index..]);
      && index + width <= |raw|
      && Text(raw[index..]) == [character] + Text(raw[index + width..])
      && Offsets(raw[index..], index) == [index] + Offsets(raw[index + width..], index + width)
  {
    hide Encode, ScalarOf, WellFormed, Width, DecodeFirst;
    var rest := raw[index..];
    assert raw[index + DecodeFirst(rest).1..] == rest[DecodeFirst(rest).1..];
  }

  /** What decoding one character means: its exact encoding, or one byte nothing well-formed starts with. */
  lemma DecodeFirstCases(raw: seq<Byte>)
    requires raw != []
    ensures var (c, width) := DecodeFirst(raw);
      && (forall i :: 1 <= i < width ==> IsTail(raw[i]))
      && (|| (raw[..width] == Encode(c) && WellFormed(raw[..width]))
          || (c == REPLACEMENT && width == 1 && forall w :: 1 <= w <= |raw| ==> !WellFormed(raw[..w])))
  {
    hide Encode, ScalarOf, WellFormed, Width;
    var width := Width(raw[0]);
    if width <= |raw| && WellFormed(raw[..width]) {
      WellFormedIsAnEncoding(raw[..width]);
      forall i | 1 <= i < width
        ensures IsTail(raw[i])
      {
        assert raw[..width][i] == raw[i];
      }
    } else {
      forall w | 1 <= w <= |raw|
        ensures !WellFormed(raw[..w])
      {
        if WellFormed(raw[..w]) {
          WellFormedIsAnEncoding(raw[..w]);
        }
      }
    }
  }

  method DecodeUtf8WithOffsets(raw: seq<Byte>) returns (text: seq<Scalar>, offsets: seq<nat>)
    ensures text == Text(raw) && offsets == Offsets(raw, 0)
  {
    hide Encode, ScalarOf, WellFormed, Text, Offsets;
    text, offsets := [], [];
    var index := 0;
    while index < |raw|
      invariant index <= |raw|
      invariant text + Text(raw[index..]) == Text(raw)
      invariant offsets + Offsets(raw[index..], index) == Offsets(raw, 0)
    {
      var first := raw[index];
      var width := 1;
      if 0xC2 <= first <= 0xDF {
        width := 2;
      } else if 0xE0 <= first <= 0xEF {
        width := 3;
      } else if 0xF0 <= first <= 0xF4 {
        width := 4;
      }
      var candidate := raw[index..if index + width <= |raw| then index + width else |raw|];
      var character: Scalar;
      assert index + width <= |raw| ==> candidate == raw[index..][..width];
      if |candidate| == width && WellFormed(candidate) {
        character := ScalarOf(candidate);
      } else {
        character := REPLACEMENT;
        width := 1;
      }
      assert DecodeFirst(raw[index..]) == (character, width);
      DecodeStep(raw, index);
      assert text + ([character] + Text(raw[index + width..])) == text + [character] + Text(raw[index + width..]);
      assert offsets + ([index] + Offsets(raw[index + width..], index + width))
          == offsets + [index] + Offsets(raw[index + width..], index + width);
      offsets := offsets + [index];
      text := text + [character];
      index := index + width;
    }
    EndOfInput(raw, index);
    offsets := offsets + [|raw|];
  }

  lemma EndOfInput(raw: seq<Byte>, index: nat)
    requires index == |raw|
    ensures Text(raw[index..]) == [] && Offsets(raw[index..], index) == [index]
  {
  }

  // ---- Tiling ----

  lemma {:induction false} OffsetsShift(raw: seq<Byte>, base: nat, i: nat)
    ensures |Offsets(raw, base)| == |Text(raw)| + 1
    ensures |Offsets(raw, 0)| == |Text(raw)| + 1
    ensures i <= |Text(raw)| ==> Offsets(raw, base)[i] == base + Offsets(raw, 0)[i]
  {
    hide Encode, ScalarOf, WellFormed, Width, DecodeFirst;
    if raw != [] {
      var width := DecodeFirst(raw).1;
      var j := if i == 0 then 0 else i - 1;
      OffsetsShift(raw[width..], base + width, j);
      OffsetsShift(raw[width..], width, j);
    }
  }

  /** Where character `o` of the decoded text starts; the end of the input for `o` one past the last. */
  function ByteOffset(raw: seq<Byte>, o: nat): (b: nat)
    requires o <= |Text(raw)|
    ensures b <= |raw|
    ensures o == |Text(raw)| ==> b == |raw|
  {
    if o == 0 then 0 else DecodeFirst(raw).1 + ByteOffset(raw[DecodeFirst(raw).1..], o - 1)
  }

  lemma {:induction false} ByteOffsetIsTheOffset(raw: seq<Byte>, o: nat)
    requires o <= |Text(raw)|
    ensures |Offsets(raw, 0)| == |Text(raw)| + 1 && Offsets(raw, 0)[o] == ByteOffset(raw, o)
  {
    hide Encode, ScalarOf, WellFormed, Width, DecodeFirst;
    OffsetsShift(raw, 0, o);
    if o > 0 {
      var width := DecodeFirst(raw).1;
      ByteOffsetIsTheOffset(raw[width..], o - 1);
      OffsetsShift(raw[width..], width, o - 1);
    }
  }

  /** Decoding what follows a boundary gives what follows in the text. */
  lemma {:induction false} TextFromBoundary(raw: seq<Byte>, o: nat)
    requires o <= |Text(raw)|
    ensures Text(raw[ByteOffset(raw, o)..]) == Text(raw)[o..]
  {
    hide Encode, ScalarOf, WellFormed, Width, DecodeFirst;
    if o > 0 {
      var width := DecodeFirst(raw).1;
      TextFromBoundary(raw[width..], o - 1);
      assert raw[ByteOffset(raw, o)..] == raw[width..][ByteOffset(raw[width..], o - 1)..];
    }
  }

  lemma {:induction false} BoundaryStep(raw: seq<Byte>, o: nat)
    requires o < |Text(raw)|
    ensures var rest := raw[ByteOffset(raw, o)..];
      rest != [] && ByteOffset(raw, o + 1) == ByteOffset(raw, o) + DecodeFirst(rest).1
        && Text(raw)[o] == DecodeFirst(rest).0
  {
    hide Encode, ScalarOf, WellFormed, Width, DecodeFirst;
    if o > 0 {
      var width := DecodeFirst(raw).1;
      BoundaryStep(raw[width..], o - 1);
      assert raw[ByteOffset(raw, o)..] == raw[width..][ByteOffset(raw[width..], o - 1)..];
    }
  }

  /**
    The offsets tile the input: they start at 0, strictly increase and end at its length, and each
    tile is its character's exact encoding or a single byte shown as U+FFFD.
  */
  lemma OffsetsTileTheInput(raw: seq<Byte>, o: nat)
    requires o < |Text(raw)|
    ensures var offsets := Offsets(raw, 0);
      && |offsets| == |Text(raw)| + 1
      && offsets[0] == 0 && offsets[|Text(raw)|] == |raw|
      && offsets[o] < offsets[o + 1] <= |raw|
      && var tile := raw[offsets[o]..offsets[o + 1]];
         tile == Encode(Text(raw)[o]) || (|tile| == 1 && Text(raw)[o] == REPLACEMENT && !WellFormed(tile))
  {
    hide Encode, ScalarOf, WellFormed, Width;
    ByteOffsetIsTheOffset(raw, 0);
    ByteOffsetIsTheOffset(raw, o);
    ByteOffsetIsTheOffset(raw, o + 1);
    ByteOffsetIsTheOffset(raw, |Text(raw)|);
    BoundaryStep(raw, o);
    var rest := raw[ByteOffset(raw, o)..];
    var (_, width) := DecodeFirst(rest);
    assert raw[ByteOffset(raw, o)..ByteOffset(raw, o + 1)] == rest[..width];
    DecodeFirstCases(rest);
  }

  // ---- Round trips ----

  lemma DecodeFirstOfEncoding(c: Scalar, rest: seq<Byte>)
    ensures DecodeFirst(Encode(c) + rest) == (c, |Encode(c)|)
  {
    hide Encode, ScalarOf, WellFormed, Width;
    EncodingIsWellFormed(c);
    assert (Encode(c) + rest)[..|Encode(c)|] == Encode(c);
  }

  lemma {:induction false} DecodeAfterEncoding(text: seq<Scalar>, rest: seq<Byte>)
    ensures Text(EncodeAll(text) + rest) == text + Text(rest)
  {
    hide Encode, Text;
    if text == [] {
      assert EncodeAll(text) + rest == rest;
    } else {
      var c, more := text[0], EncodeAll(text[1..]) + rest;
      assert EncodeAll(text) + rest == Encode(c) + more;
      TextOfFirst(c, more);
      DecodeAfterEncoding(text[1..], rest);
      assert text == [c] + text[1..];
    }
  }

  lemma TextOfFirst(c: Scalar, more: seq<Byte>)
    ensures Text(Encode(c) + more) == [c] + Text(more)
  {
    hide Encode, ScalarOf, WellFormed, Width, DecodeFirst;
    DecodeFirstOfEncoding(c, more);
    assert (Encode(c) + more)[|Encode(c)|..] == more;
  }

  /** Decoding an encoding returns the text. */
  lemma DecodeInvertsEncode(text: seq<Scalar>)
    ensures Text(EncodeAll(text)) == text
  {
    hide Encode, ScalarOf, WellFormed, Width, DecodeFirst;
    DecodeAfterEncoding(text, []);
    assert EncodeAll(text) + [] == EncodeAll(text);
  }

  /** Valid input: a run of well-formed sequences. */
  ghost predicate ValidUtf8(raw: seq<Byte>)
    decreases |raw|
  {
    raw == [] || exists w :: 1 <= w <= |raw| && WellFormed(raw[..w]) && ValidUtf8(raw[w..])
  }

  /** Encoding the decoded text gives the input back exactly when the input was valid. */
  lemma {:induction false} EncodeInvertsDecodeIffValid(raw: seq<Byte>)
    ensures EncodeAll(Text(raw)) == raw <==> ValidUtf8(raw)
    decreases |raw|
  {
    hide Encode, ScalarOf, WellFormed, Width;
    if raw != [] {
      var (c, width) := DecodeFirst(raw);
      var rest := raw[width..];
      EncodeInvertsDecodeIffValid(rest);
      assert EncodeAll(Text(raw)) == Encode(c) + EncodeAll(Text(rest));
      assert raw == raw[..width] + rest;
      EncodingIsWellFormed(c);
      if ValidUtf8(raw) {
        var w :| 1 <= w <= |raw| && WellFormed(raw[..w]) && ValidUtf8(raw[w..]);
        DecodeFirstCases(raw);
        WellFormedIsAnEncoding(raw[..w]);
        WellFormedIsAnEncoding(raw[..width]);
        assert w == width;
      }
      if EncodeAll(Text(raw)) == raw {
        EncodedTextIsValid(Text(raw));
      }
    }
  }

  lemma {:induction false} EncodedTextIsValid(text: seq<Scalar>)
    ensures ValidUtf8(EncodeAll(text))
  {
    hide Encode, ScalarOf, WellFormed, Width;
    if text != [] {
      var raw, w := EncodeAll(text), |Encode(text[0])|;
      EncodedTextIsValid(text[1..]);
      EncodingIsWellFormed(text[0]);
      assert raw[..w] == Encode(text[0]) && raw[w..] == EncodeAll(text[1..]);
    }
  }

  // ---- Occurrences ----

  predicate OccursAt<T(==)>(s: seq<T>, pattern: seq<T>, i: nat) {
    i + |pattern| <= |s| && s[i..i + |pattern|] == pattern
  }

  lemma OccursInSuffix<T>(s: seq<T>, pattern: seq<T>, i: nat, k: nat)
    requires k <= i && k <= |s|
    ensures OccursAt(s, pattern, i) <==> OccursAt(s[k..], pattern, i - k)
  {
    if i + |pattern| <= |s| {
      assert s[k..][i - k..i - k + |pattern|] == s[i..i + |pattern|];
    }
  }

  lemma OccursInParts<T>(s: seq<T>, a: seq<T>, b: seq<T>, i: nat)
    ensures OccursAt(s, a + b, i) <==> OccursAt(s, a, i) && OccursAt(s, b, i + |a|)
  {
    if i + |a| + |b| <= |s| {
      assert s[i..i + |a| + |b|] == s[i..i + |a|] + s[i + |a|..i + |a| + |b|];
      assert (a + b)[..|a|] == a && (a + b)[|a|..] == b;
    }
  }

  lemma StartsWithEncoding(raw: seq<Byte>, c: Scalar)
    requires raw != [] && c != REPLACEMENT
    ensures DecodeFirst(raw).0 == c <==> OccursAt(raw, Encode(c), 0)
    ensures DecodeFirst(raw).0 == c ==> DecodeFirst(raw).1 == |Encode(c)|
  {
    hide Encode, ScalarOf, WellFormed, Width;
    EncodingIsWellFormed(c);
    if DecodeFirst(raw).0 == c {
      var width := Width(raw[0]);
      WellFormedIsAnEncoding(raw[..width]);
    }
    if OccursAt(raw, Encode(c), 0) {
      assert raw == Encode(c) + raw[|Encode(c)|..];
      DecodeFirstOfEncoding(c, raw[|Encode(c)|..]);
    }
  }

  /** At a boundary, text and bytes agree about the pattern. */
  lemma {:induction false} PrefixAgrees(raw: seq<Byte>, pattern: seq<Scalar>)
    requires REPLACEMENT !in pattern
    ensures OccursAt(Text(raw), pattern, 0) <==> OccursAt(raw, EncodeAll(pattern), 0)
    ensures OccursAt(Text(raw), pattern, 0) ==> ByteOffset(raw, |pattern|) == |EncodeAll(pattern)|
  {
    hide Encode, ScalarOf, WellFormed, Width, DecodeFirst, OccursAt;
    if pattern == [] {
      assert OccursAt(Text(raw), [], 0) && OccursAt(raw, [], 0) by { EmptyOccurs(Text(raw)); EmptyOccurs(raw); }
    } else if raw == [] {
      TooLongDoesNotOccur(Text(raw), pattern);
      TooLongDoesNotOccur(raw, EncodeAll(pattern));
    } else {
      var c, more := pattern[0], pattern[1..];
      assert pattern == [c] + more;
      var width := DecodeFirst(raw).1;
      var rest := raw[width..];
      PrefixAgrees(rest, more);
      StartsWithEncoding(raw, c);
      OccursInParts(Text(raw), [c], more, 0);
      OccursInSuffix(Text(raw), more, 1, 1);
      assert Text(raw)[1..] == Text(rest);
      SingletonOccurs(Text(raw), c);
      OccursInParts(raw, Encode(c), EncodeAll(more), 0);
      if DecodeFirst(raw).0 == c {
        OccursInSuffix(raw, EncodeAll(more), width, width);
      }
      if OccursAt(Text(raw), pattern, 0) {
        TooLongDoesNotOccur(Text(raw), pattern);
      }
    }
  }

  lemma EmptyOccurs<T>(s: seq<T>)
    ensures OccursAt(s, [], 0)
  {
  }

  lemma SingletonOccurs<T>(s: seq<T>, x: T)
    requires s != []
    ensures OccursAt(s, [x], 0) <==> s[0] == x
  {
  }

  lemma TooLongDoesNotOccur<T>(s: seq<T>, pattern: seq<T>)
    ensures |pattern| > |s| ==> !OccursAt(s, pattern, 0)
  {
  }

  /** Self-synchronisation: an encoded character never starts inside a tile. */
  lemma EncodedLeadIsNotTail(raw: seq<Byte>, c: Scalar, b: nat)
    requires OccursAt(raw, Encode(c), b)
    ensures b < |raw| && !IsTail(raw[b])
  {
    hide Encode, ScalarOf, WellFormed, Width;
    EncodingIsWellFormed(c);
    assert raw[b] == raw[b..b + |Encode(c)|][0] == Encode(c)[0];
  }

  lemma {:induction false} EncodingsStartOnBoundaries(raw: seq<Byte>, c: Scalar, b: nat) returns (o: nat)
    requires OccursAt(raw, Encode(c), b)
    ensures o < |Text(raw)| && ByteOffset(raw, o) == b
  {
    hide Encode, ScalarOf, WellFormed, Width, DecodeFirst, OccursAt;
    EncodedLeadIsNotTail(raw, c, b);
    var width := DecodeFirst(raw).1;
    if b == 0 {
      o := 0;
    } else {
      DecodeFirstCases(raw);
      assert b >= width;
      OccursInSuffix(raw, Encode(c), b, width);
      var rest := EncodingsStartOnBoundaries(raw[width..], c, b - width);
      o := rest + 1;
    }
  }

  /** Every byte occurrence of an encoded pattern starts where a character starts. */
  lemma ByteOccurrencesAreAligned(raw: seq<Byte>, pattern: seq<Scalar>, b: nat) returns (o: nat)
    requires pattern != [] && OccursAt(raw, EncodeAll(pattern), b)
    ensures o < |Text(raw)| && ByteOffset(raw, o) == b
  {
    hide Encode, ScalarOf, WellFormed, Width, DecodeFirst;
    OccursInParts(raw, Encode(pattern[0]), EncodeAll(pattern[1..]), b);
    o := EncodingsStartOnBoundaries(raw, pattern[0], b);
  }

  /** Character search and byte search agree at every character, if the pattern has no U+FFFD. */
  lemma CharacterSearchIsByteSearch(raw: seq<Byte>, pattern: seq<Scalar>, o: nat)
    requires o <= |Text(raw)| && REPLACEMENT !in pattern
    ensures OccursAt(Text(raw), pattern, o) <==> OccursAt(raw, EncodeAll(pattern), ByteOffset(raw, o))
    ensures OccursAt(Text(raw), pattern, o) ==>
      o + |pattern| <= |Text(raw)| && ByteOffset(raw, o + |pattern|) == ByteOffset(raw, o) + |EncodeAll(pattern)|
  {
    hide Encode, ScalarOf, WellFormed, Width, DecodeFirst, Text, EncodeAll, ByteOffset;
    var b := ByteOffset(raw, o);
    TextFromBoundary(raw, o);
    PrefixAgrees(raw[b..], pattern);
    OccursInSuffix(raw, EncodeAll(pattern), b, b);
    OccursInSuffix(Text(raw), pattern, o, o);
    if OccursAt(Text(raw), pattern, o) {
      OffsetsAdd(raw, o, |pattern|);
    }
  }

  lemma {:induction false} OffsetsAdd(raw: seq<Byte>, o: nat, n: nat)
    requires o + n <= |Text(raw)|
    ensures |Text(raw[ByteOffset(raw, o)..])| == |Text(raw)| - o
    ensures ByteOffset(raw, o + n) == ByteOffset(raw, o) + ByteOffset(raw[ByteOffset(raw, o)..], n)
  {
    hide Encode, ScalarOf, WellFormed, Width, DecodeFirst;
    TextFromBoundary(raw, o);
    if o > 0 {
      var width := DecodeFirst(raw).1;
      OffsetsAdd(raw[width..], o - 1, n);
      assert raw[ByteOffset(raw, o)..] == raw[width..][ByteOffset(raw[width..], o - 1)..];
    }
  }

  lemma {:induction false} EncodeAllAppend(a: seq<Scalar>, b: seq<Scalar>)
    ensures EncodeAll(a + b) == EncodeAll(a) + EncodeAll(b)
  {
    hide Encode, ScalarOf, WellFormed, Width, DecodeFirst;
    if a == [] {
      assert a + b == b;
    } else {
      EncodeAllAppend(a[1..], b);
      assert (a + b)[1..] == a[1..] + b;
    }
  }

  lemma TextOfStrayByte(rest: seq<Scalar>)
    ensures Text([0xFF] + EncodeAll(rest)) == [REPLACEMENT] + rest
  {
    var raw := [0xFF] + EncodeAll(rest);
    assert !WellFormed(raw[..1]);
    assert DecodeFirst(raw) == (REPLACEMENT, 1);
    assert raw[1..] == EncodeAll(rest);
    DecodeInvertsEncode(rest);
  }

  lemma EncodedReplacementTakesThree(before: seq<Scalar>, after: seq<Scalar>)
    ensures |EncodeAll(before + ([REPLACEMENT] + after))| == |EncodeAll(before)| + 3 + |EncodeAll(after)|
  {
    EncodeAllAppend(before, [REPLACEMENT] + after);
    assert ([REPLACEMENT] + after)[1..] == after;
    assert |Encode(REPLACEMENT)| == 3;
  }

  /** A pattern with U+FFFD also matches a single undecodable byte, which is shorter than its encoding. */
  lemma ReplacementMatchesTooMuch(pattern: seq<Scalar>) returns (raw: seq<Byte>)
    requires REPLACEMENT in pattern
    ensures OccursAt(Text(raw), pattern, 0) && !OccursAt(raw, EncodeAll(pattern), ByteOffset(raw, 0))
  {
    hide Text, EncodeAll;
    var k :| 0 <= k < |pattern| && pattern[k] == REPLACEMENT;
    var before, after := pattern[..k], pattern[k + 1..];
    var stray: seq<Byte> := [0xFF] + EncodeAll(after);
    raw := EncodeAll(before) + stray;
    assert pattern == before + ([REPLACEMENT] + after);
    DecodeAfterEncoding(before, stray);
    TextOfStrayByte(after);
    EncodedReplacementTakesThree(before, after);
  }

  ghost predicate SearchesAgree(pattern: seq<Scalar>) {
    forall raw: seq<Byte>, o: nat | o <= |Text(raw)| ::
      OccursAt(Text(raw), pattern, o) <==> OccursAt(raw, EncodeAll(pattern), ByteOffset(raw, o))
  }

  /** Searching the decoded text is searching the bytes exactly for the patterns without U+FFFD. */
  lemma SearchesAgreeIffNoReplacement(pattern: seq<Scalar>)
    ensures SearchesAgree(pattern) <==> REPLACEMENT !in pattern
  {
    hide Encode, ScalarOf, WellFormed, Width, DecodeFirst;
    if REPLACEMENT in pattern {
      var raw := ReplacementMatchesTooMuch(pattern);
      assert !(OccursAt(Text(raw), pattern, 0) <==> OccursAt(raw, EncodeAll(pattern), ByteOffset(raw, 0)));
    } else {
      forall raw: seq<Byte>, o: nat | o <= |Text(raw)|
        ensures OccursAt(Text(raw), pattern, o) <==> OccursAt(raw, EncodeAll(pattern), ByteOffset(raw, o))
      {
        CharacterSearchIsByteSearch(raw, pattern, o);
      }
    }
  }
}
