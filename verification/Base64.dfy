/** The URL-safe base64 of section 5 of RFC 4648, without its padding, as cursors carry it. */
module Base64 {
  import opened Bytes
  import opened Wrappers

  type Sextet = d: int | 0 <= d < 64

  function Digit(d: Sextet): char {
    if d < 26 then ('A' as int + d) as char
    else if d < 52 then ('a' as int + (d - 26)) as char
    else if d < 62 then ('0' as int + (d - 52)) as char
    else if d == 62 then '-'
    else '_'
  }

  function Value(c: char): Option<Sextet> {
    if 'A' <= c <= 'Z' then var d: Sextet := c as int - 'A' as int; Some(d)
    else if 'a' <= c <= 'z' then var d: Sextet := c as int - 'a' as int + 26; Some(d)
    else if '0' <= c <= '9' then var d: Sextet := c as int - '0' as int + 52; Some(d)
    else if c == '-' || c == '+' then Some(62)
    else if c == '_' || c == '/' then Some(63)
    else None
  }

  lemma DigitRoundTrip(d: Sextet)
    ensures Value(Digit(d)) == Some(d) && Digit(d) != '='
  {
  }

  /** The digits alone. */
  function Digits(bytes: seq<Byte>): string {
    if bytes == [] then ""
    else if |bytes| == 1 then
      [Digit(bytes[0] / 4), Digit(bytes[0] % 4 * 16)]
    else if |bytes| == 2 then
      [Digit(bytes[0] / 4), Digit(bytes[0] % 4 * 16 + bytes[1] / 16), Digit(bytes[1] % 16 * 4)]
    else
      [Digit(bytes[0] / 4), Digit(bytes[0] % 4 * 16 + bytes[1] / 16),
       Digit(bytes[1] % 16 * 4 + bytes[2] / 64), Digit(bytes[2] % 64)] + Digits(bytes[3..])
  }

  function Padding(n: nat): string {
    if n == 0 then "" else Padding(n - 1) + "="
  }

  function Encode(bytes: seq<Byte>): string {
    Digits(bytes) + Padding((3 - |bytes| % 3) % 3)
  }

  function StripPadding(token: string): string {
    if token != "" && token[|token| - 1] == '=' then StripPadding(token[..|token| - 1]) else token
  }

  /** Python's `-len(token) % 4`. */
  function RestorePadding(token: string): string {
    token + Padding((-|token|) % 4)
  }

  function Whole(a: Sextet, b: Sextet, c: Sextet, d: Sextet): seq<Byte> {
    var p: Byte, q: Byte, r: Byte := a * 4 + b / 16, b % 16 * 16 + c / 4, c % 4 * 64 + d;
    [p, q, r]
  }

  /** What an unfinished group of two or three digits stands for. */
  function Remainder(group: seq<Sextet>): seq<Byte>
    requires 2 <= |group| <= 3
  {
    var a: int, b: int := group[0], group[1];
    var p: Byte := a * 4 + b / 16;
    if |group| == 2 then [p]
    else
      var c: int := group[2];
      var q: Byte := b % 16 * 16 + c / 4;
      [p, q]
  }

  /**
    Python's lenient decoder, digit by digit: characters outside the alphabet are skipped, padding ends
    the input once it completes a group, and is skipped before that.
  */
  function Scan(text: string, group: seq<Sextet>, pads: nat): Option<seq<Byte>>
    requires |group| <= 3
    decreases |text|
  {
    if text == "" then
      if group == [] then Some([]) else None
    else if text[0] == '=' then
      if |group| >= 2 && |group| + pads + 1 >= 4 then Some(Remainder(group))
      else Scan(text[1..], group, if |group| >= 2 then pads + 1 else pads)
    else
      match Value(text[0])
      case None => Scan(text[1..], group, pads)
      case Some(d) =>
        if |group| < 3 then Scan(text[1..], group + [d], 0)
        else
          match Scan(text[1..], [], 0)
          case None => None
          case Some(rest) => Some(Whole(group[0], group[1], group[2], d) + rest)
  }

  function Decode(text: string): Option<seq<Byte>> {
    Scan(text, [], 0)
  }

  lemma {:induction false} DigitsLength(bytes: seq<Byte>)
    ensures |Digits(bytes)| % 4 == if |bytes| % 3 == 0 then 0 else |bytes| % 3 + 1
  {
    if |bytes| >= 3 {
      DigitsLength(bytes[3..]);
      DigitsOfMore(bytes);
      FourMore(|Digits(bytes[3..])|, |bytes[3..]|);
    } else {
      hide Digit;
    }
  }

  lemma DigitsOfMore(bytes: seq<Byte>)
    requires |bytes| >= 3
    ensures |Digits(bytes)| == |Digits(bytes[3..])| + 4
  {
    hide Digit;
  }

  lemma FourMore(digits: int, bytes: int)
    ensures (digits + 4) % 4 == digits % 4 && (bytes + 3) % 3 == bytes % 3
  {
  }

  predicate Unpadded(text: string) {
    '=' !in text
  }

  lemma {:induction false} DigitsAreUnpadded(bytes: seq<Byte>)
    ensures Unpadded(Digits(bytes))
  {
    hide Digit;
    forall d: Sextet ensures Digit(d) != '=' {
      DigitRoundTrip(d);
    }
    if |bytes| >= 3 {
      DigitsAreUnpadded(bytes[3..]);
    }
  }

  lemma {:induction false} StrippingUndoesPadding(token: string, n: nat)
    requires Unpadded(token)
    ensures StripPadding(token + Padding(n)) == token
  {
    hide StripPadding, Unpadded;
    if n == 0 {
      assert token + Padding(0) == token;
      StripNone(token);
    } else {
      assert token + Padding(n) == token + Padding(n - 1) + "=";
      StripOne(token + Padding(n - 1));
      StrippingUndoesPadding(token, n - 1);
    }
  }

  lemma StripNone(text: string)
    requires Unpadded(text)
    ensures StripPadding(text) == text
  {
  }

  lemma StripOne(text: string)
    ensures StripPadding(text + "=") == StripPadding(text)
  {
    assert (text + "=")[..|text|] == text;
  }

  /** For every body length, dropping the padding and putting it back recovers the encoding. */
  lemma PaddingRoundTrip(bytes: seq<Byte>)
    ensures StripPadding(Encode(bytes)) == Digits(bytes)
    ensures RestorePadding(StripPadding(Encode(bytes))) == Encode(bytes)
  {
    hide Digits, StripPadding, Padding;
    DigitsLength(bytes);
    DigitsAreUnpadded(bytes);
    StrippingUndoesPadding(Digits(bytes), (3 - |bytes| % 3) % 3);
    PaddingDependsOnRemainder(|Digits(bytes)|, |bytes| % 3);
  }

  lemma PaddingDependsOnRemainder(length: int, r: int)
    requires 0 <= r < 3 && length % 4 == if r == 0 then 0 else r + 1
    ensures (-length) % 4 == (3 - r) % 3
  {
    if r == 0 {
      assert (-length) % 4 == 0;
    } else if r == 1 {
      assert (-length) % 4 == 2;
    } else {
      assert (-length) % 4 == 1;
    }
  }

  lemma ScanDigit(d: Sextet, rest: string, group: seq<Sextet>, pads: nat)
    requires |group| < 3
    ensures Scan([Digit(d)] + rest, group, pads) == Scan(rest, group + [d], 0)
  {
    DigitRoundTrip(d);
    assert ([Digit(d)] + rest)[1..] == rest;
  }

  lemma ScanLastDigit(d: Sextet, rest: string, group: seq<Sextet>, pads: nat)
    requires |group| == 3
    ensures Scan([Digit(d)] + rest, group, pads)
         == match Scan(rest, [], 0) case None => None case Some(more) =>
           Some(Whole(group[0], group[1], group[2], d) + more)
  {
    DigitRoundTrip(d);
    assert ([Digit(d)] + rest)[1..] == rest;
  }

  lemma ScanPair(a: Sextet, b: Sextet, rest: string)
    ensures Scan([Digit(a), Digit(b)] + rest, [], 0) == Scan(rest, [a, b], 0)
  {
    hide Scan, Digit;
    var none: seq<Sextet> := [];
    ScanDigit(a, [Digit(b)] + rest, none, 0);
    ScanDigit(b, rest, [a], 0);
    assert none + [a] == [a] && [a] + [b] == [a, b];
    assert [Digit(a)] + ([Digit(b)] + rest) == [Digit(a), Digit(b)] + rest;
  }

  lemma ScanFour(a: Sextet, b: Sextet, c: Sextet, d: Sextet, rest: string)
    requires Scan(rest, [], 0).Some?
    ensures Scan([Digit(a), Digit(b), Digit(c), Digit(d)] + rest, [], 0)
      == Some(Whole(a, b, c, d) + Scan(rest, [], 0).value)
  {
    hide Scan, Digit, Whole;
    ScanPair(a, b, [Digit(c), Digit(d)] + rest);
    ScanDigit(c, [Digit(d)] + rest, [a, b], 0);
    ScanLastDigit(d, rest, [a, b, c], 0);
    assert [a, b] + [c] == [a, b, c];
    assert [Digit(c)] + ([Digit(d)] + rest) == [Digit(c), Digit(d)] + rest;
    assert [Digit(a), Digit(b)] + ([Digit(c), Digit(d)] + rest) == [Digit(a), Digit(b), Digit(c), Digit(d)] + rest;
  }

  lemma ScanThree(a: Sextet, b: Sextet, c: Sextet)
    ensures Scan([Digit(a), Digit(b), Digit(c), '='], [], 0) == Some(Remainder([a, b, c]))
  {
    hide Digit;
    ScanPair(a, b, [Digit(c), '=']);
    ScanDigit(c, ['='], [a, b], 0);
    assert [a, b] + [c] == [a, b, c] && [Digit(c)] + ['='] == [Digit(c), '='];
    assert [Digit(a), Digit(b)] + [Digit(c), '='] == [Digit(a), Digit(b), Digit(c), '='];
  }

  lemma ScanTwo(a: Sextet, b: Sextet)
    ensures Scan([Digit(a), Digit(b), '=', '='], [], 0) == Some(Remainder([a, b]))
  {
    hide Digit;
    ScanPair(a, b, ['=', '=']);
    assert ['=', '='][1..] == ['='];
    assert [Digit(a), Digit(b)] + ['=', '='] == [Digit(a), Digit(b), '=', '='];
  }

  lemma WholeOfThree(a: Byte, b: Byte, c: Byte)
    ensures Whole(a / 4, a % 4 * 16 + b / 16, b % 16 * 4 + c / 64, c % 64) == [a, b, c]
  {
    SplitsBack(a % 4, b / 16, 16);
    SplitsBack(b % 16, c / 64, 4);
  }

  lemma RemainderOfTwo(a: Byte, b: Byte)
    ensures Remainder([a / 4, a % 4 * 16 + b / 16, b % 16 * 4]) == [a, b]
  {
    SplitsBack(a % 4, b / 16, 16);
  }

  lemma EncodingOfOne(a: Byte)
    ensures Encode([a]) == [Digit(a / 4), Digit(a % 4 * 16), '=', '=']
  {
    hide Digit;
    assert Padding(2) == Padding(1) + "=" && Padding(1) == Padding(0) + "=";
  }

  lemma EncodingOfTwo(a: Byte, b: Byte)
    ensures Encode([a, b]) == [Digit(a / 4), Digit(a % 4 * 16 + b / 16), Digit(b % 16 * 4), '=']
  {
    hide Digit;
    assert Padding(1) == Padding(0) + "=";
  }

  lemma EncodingOfMore(bytes: seq<Byte>)
    requires |bytes| >= 3
    ensures var a, b, c := bytes[0], bytes[1], bytes[2];
      Encode(bytes) == [Digit(a / 4), Digit(a % 4 * 16 + b / 16), Digit(b % 16 * 4 + c / 64), Digit(c % 64)]
        + Encode(bytes[3..])
  {
    hide Digit;
    assert (3 - |bytes| % 3) % 3 == (3 - |bytes[3..]| % 3) % 3;
  }

  lemma {:induction false} DecodeInvertsEncode(bytes: seq<Byte>)
    ensures Decode(Encode(bytes)) == Some(bytes)
  {
    hide Digit, Value, Scan, Encode, Whole, Remainder;
    if bytes == [] {
      EncodingOfNone();
    } else if |bytes| == 1 {
      EncodingOfOne(bytes[0]);
      ScanTwo(bytes[0] / 4, bytes[0] % 4 * 16);
      assert bytes == [bytes[0]] == Remainder([bytes[0] / 4, bytes[0] % 4 * 16]) by {
        RemainderOfOne(bytes[0]);
      }
    } else if |bytes| == 2 {
      var a, b := bytes[0], bytes[1];
      EncodingOfTwo(a, b);
      ScanThree(a / 4, a % 4 * 16 + b / 16, b % 16 * 4);
      RemainderOfTwo(a, b);
      assert bytes == [a, b];
    } else {
      var a, b, c := bytes[0], bytes[1], bytes[2];
      DecodeInvertsEncode(bytes[3..]);
      EncodingOfMore(bytes);
      ScanFour(a / 4, a % 4 * 16 + b / 16, b % 16 * 4 + c / 64, c % 64, Encode(bytes[3..]));
      WholeOfThree(a, b, c);
      assert bytes == [a, b, c] + bytes[3..];
    }
  }

  lemma RemainderOfOne(a: Byte)
    ensures Remainder([a / 4, a % 4 * 16]) == [a]
  {
  }

  lemma EncodingOfNone()
    ensures Encode([]) == "" && Scan("", [], 0) == Some([])
  {
  }

  /** A token as issued decodes to the body it was made from. */
  lemma TokenRoundTrip(bytes: seq<Byte>)
    ensures Decode(RestorePadding(StripPadding(Encode(bytes)))) == Some(bytes)
  {
    PaddingRoundTrip(bytes);
    DecodeInvertsEncode(bytes);
  }

  /** The token of a non-empty body is not empty. */
  lemma TokenIsNotEmpty(bytes: seq<Byte>)
    requires bytes != []
    ensures StripPadding(Encode(bytes)) != ""
  {
    PaddingRoundTrip(bytes);
    if |bytes| >= 3 {
      EncodingOfMore(bytes);
    }
  }

  /** The encodings that section 10 of RFC 4648 gives as examples, and the two digits of its URL-safe alphabet. */
  lemma EncodesAsInTheStandard()
    ensures Encode([0x66]) == "Zg==" && Encode([0x66, 0x6F]) == "Zm8="
    ensures Encode([0x66, 0x6F, 0x6F]) == "Zm9v" && Encode([0xFB, 0xFF]) == "-_8="
  {
    EncodingOfOne(0x66);
    EncodingOfTwo(0x66, 0x6F);
    EncodingOfTwo(0xFB, 0xFF);
    EncodingOfMore([0x66, 0x6F, 0x6F]);
    EncodingOfNone();
    hide Encode;
    assert [0x66, 0x6F, 0x6F][3..] == [];
  }
}
