/**
 * `encodeURIComponent` (section 19.2.6.5 of ECMA-262): every character outside the
 * unreserved set is written as the UTF-8 bytes of its code point, each as a `%XY`
 * triplet with upper-case hexadecimal digits (the percent-encoding of section 2.1 of
 * RFC 3986). The matching decoder, `decodeURIComponent`, is the partner that shows the
 * encoding loses nothing.
 */
module UriComponent {
  import opened Nullable

  /** ECMA-262's uriUnreserved: letters, decimal digits and the marks - _ . ! ~ * ' ( ). */
  predicate IsUnreserved(c: char) {
    || ('A' <= c <= 'Z') || ('a' <= c <= 'z') || ('0' <= c <= '9')
    || c == '-' || c == '_' || c == '.' || c == '!' || c == '~' || c == '*'
    || c == '\'' || c == '(' || c == ')'
  }

  predicate IsByte(b: int) {
    0 <= b < 256
  }

  /** The UTF-8 encoding of one code point (section 3 of RFC 3629). */
  function Utf8(c: char): (bytes: seq<int>)
    ensures 1 <= |bytes| <= 4
    ensures forall k :: 0 <= k < |bytes| ==> IsByte(bytes[k])
    ensures (|bytes| == 1) == (c as int < 0x80)
  {
    var cp := c as int;
    var q1 := cp / 64;
    var q2 := q1 / 64;
    var q3 := q2 / 64;
    if cp < 0x80 then [cp]
    else if cp < 0x800 then [0xC0 + q1, 0x80 + cp % 64]
    else if cp < 0x1_0000 then [0xE0 + q2, 0x80 + q1 % 64, 0x80 + cp % 64]
    else [0xF0 + q3, 0x80 + q2 % 64, 0x80 + q1 % 64, 0x80 + cp % 64]
  }

  /** The digits `encodeURIComponent` writes: 0-9 and upper-case A-F. */
  predicate IsUpperHexDigit(c: char) {
    ('0' <= c <= '9') || ('A' <= c <= 'F')
  }

  /** The upper-case hexadecimal digit for `n`. */
  function HexDigit(n: int): (c: char)
    requires 0 <= n < 16
    ensures IsUpperHexDigit(c)
  {
    if n < 10 then ('0' as int + n) as char else ('A' as int + n - 10) as char
  }

  predicate IsHexDigit(c: char) {
    ('0' <= c <= '9') || ('A' <= c <= 'F') || ('a' <= c <= 'f')
  }

  /** The value of a hexadecimal digit of either case. */
  function HexValue(c: char): (n: int)
    requires IsHexDigit(c)
    ensures 0 <= n < 16
  {
    if '0' <= c <= '9' then c as int - '0' as int
    else if 'A' <= c <= 'F' then c as int - 'A' as int + 10
    else c as int - 'a' as int + 10
  }

  /** Each byte as a `%XY` triplet. */
  function PercentEncode(bytes: seq<int>): (r: string)
    requires forall k :: 0 <= k < |bytes| ==> IsByte(bytes[k])
    ensures |r| == 3 * |bytes|
    ensures forall k :: 0 <= k < |r| ==> (r[k] == '%' <==> k % 3 == 0)
    ensures forall k :: 0 <= k < |r| && k % 3 != 0 ==> IsUpperHexDigit(r[k])
    ensures forall k :: 0 <= k < |r| ==> IsUnreserved(r[k]) || r[k] == '%'
  {
    if bytes == [] then []
    else
      assert IsByte(bytes[0]);
      ['%', HexDigit(bytes[0] / 16), HexDigit(bytes[0] % 16)] + PercentEncode(bytes[1..])
  }

  function EncodeChar(c: char): string {
    if IsUnreserved(c) then [c] else PercentEncode(Utf8(c))
  }

  /** `encodeURIComponent`: only unreserved characters and `%` appear in the result. */
  function Encode(s: string): (r: string)
    ensures forall k :: 0 <= k < |r| ==> IsUnreserved(r[k]) || r[k] == '%'
    ensures |s| <= |r| <= 12 * |s|
  {
    if s == [] then [] else EncodeChar(s[0]) + Encode(s[1..])
  }

  /** What `decodeURIComponent` gives back: the decoded text, or a thrown URIError. */
  datatype Decoded = Decoded(text: string) | UriError

  /** The byte written as `%XY` at position `at` of `e`, if there is such a triplet there. */
  function EscapedByte(e: string, at: nat): (r: Nullable<int>)
    ensures r.Value? ==> IsByte(r.v) && at + 3 <= |e|
  {
    if at + 3 <= |e| && e[at] == '%' && IsHexDigit(e[at + 1]) && IsHexDigit(e[at + 2])
    then Value(16 * HexValue(e[at + 1]) + HexValue(e[at + 2]))
    else Null
  }

  /** The six payload bits of a UTF-8 continuation byte escaped at position `at`. */
  function ContinuationBits(e: string, at: nat): (r: Nullable<int>)
    ensures r.Value? ==> 0 <= r.v < 64 && at + 3 <= |e|
  {
    match EscapedByte(e, at)
    case Value(b) => if 0x80 <= b < 0xC0 then Value(b - 0x80) else Null
    case Null => Null
  }

  /** The character with code point `cp`, if it is a scalar value of at least `least`. */
  function FromCodePoint(cp: int, least: nat, width: nat): Nullable<(char, nat)> {
    if least <= cp < 0x11_0000 && !(0xD800 <= cp < 0xE000) then Value((cp as char, width))
    else Null
  }

  /**
   * Decodes the one character whose UTF-8 bytes are escaped at the start of `e`, and
   * says how many characters of `e` they took. Overlong forms, surrogates and code points
   * past U+10FFFF are refused, as ECMA-262's Decode refuses them.
   */
  function DecodeEscape(e: string): (r: Nullable<(char, nat)>)
    requires e != [] && e[0] == '%'
    ensures r.Value? ==> 3 <= r.v.1 <= |e|
  {
    match EscapedByte(e, 0)
    case Null => Null
    case Value(b0) =>
      if b0 < 0x80 then Value((b0 as char, 3))
      else if 0xC0 <= b0 < 0xE0 then
        match ContinuationBits(e, 3)
        case Null => Null
        case Value(x1) => FromCodePoint((b0 - 0xC0) * 64 + x1, 0x80, 6)
      else if 0xE0 <= b0 < 0xF0 then
        match ContinuationBits(e, 3)
        case Null => Null
        case Value(x1) =>
          match ContinuationBits(e, 6)
          case Null => Null
          case Value(x2) => FromCodePoint((b0 - 0xE0) * 4096 + x1 * 64 + x2, 0x800, 9)
      else if 0xF0 <= b0 < 0xF8 then
        match ContinuationBits(e, 3)
        case Null => Null
        case Value(x1) =>
          match ContinuationBits(e, 6)
          case Null => Null
          case Value(x2) =>
            match ContinuationBits(e, 9)
            case Null => Null
            case Value(x3) =>
              FromCodePoint((b0 - 0xF0) * 262144 + x1 * 4096 + x2 * 64 + x3, 0x1_0000, 12)
      else Null
  }

  /** `decodeURIComponent`. */
  function Decode(e: string): (r: Decoded)
    decreases |e|
  {
    if e == [] then Decoded([])
    else if e[0] != '%' then
      match Decode(e[1..])
      case Decoded(t) => Decoded([e[0]] + t)
      case UriError => UriError
    else
      match DecodeEscape(e)
      case Null => UriError
      case Value((c, n)) =>
        match Decode(e[n..])
        case Decoded(t) => Decoded([c] + t)
        case UriError => UriError
  }

  lemma HexRoundTrip(b: int)
    requires IsByte(b)
    ensures IsHexDigit(HexDigit(b / 16)) && IsHexDigit(HexDigit(b % 16))
    ensures 16 * HexValue(HexDigit(b / 16)) + HexValue(HexDigit(b % 16)) == b
  {
  }

  /** Dropping a three-character head moves every escape three places left. */
  lemma EscapedByteShift(e: string, at: nat)
    requires |e| >= 3
    ensures EscapedByte(e, at + 3) == EscapedByte(e[3..], at)
  {
    var t := e[3..];
    if at + 3 <= |t| {
      assert e[at + 3] == t[at] && e[at + 4] == t[at + 1] && e[at + 5] == t[at + 2];
    }
  }

  /** The `k`-th triplet of a percent-encoding decodes to the `k`-th byte. */
  lemma {:induction false} EscapedByteOfPercentEncode(bytes: seq<int>, rest: string, k: nat)
    requires forall i :: 0 <= i < |bytes| ==> IsByte(bytes[i])
    requires k < |bytes|
    ensures EscapedByte(PercentEncode(bytes) + rest, 3 * k) == Value(bytes[k])
    decreases k
  {
    var e := PercentEncode(bytes) + rest;
    if k == 0 {
      HexRoundTrip(bytes[0]);
    } else {
      var tail := bytes[1..];
      assert e[3..] == PercentEncode(tail) + rest;
      EscapedByteShift(e, 3 * (k - 1));
      EscapedByteOfPercentEncode(tail, rest, k - 1);
    }
  }

  /** The first `n` triplets of a character's escapes decode to its first `n` UTF-8 bytes. */
  lemma EscapedBytesOfChar(c: char, rest: string)
    requires !IsUnreserved(c)
    ensures var e := EncodeChar(c) + rest;
      forall k :: 0 <= k < |Utf8(c)| ==> EscapedByte(e, 3 * k) == Value(Utf8(c)[k])
  {
    forall k | 0 <= k < |Utf8(c)|
      ensures EscapedByte(EncodeChar(c) + rest, 3 * k) == Value(Utf8(c)[k])
    {
      EscapedByteOfPercentEncode(Utf8(c), rest, k);
    }
  }

  /** A non-unreserved character's escapes decode back to that character. */
  lemma DecodeEscapeOfChar(c: char, rest: string)
    requires !IsUnreserved(c)
    ensures EncodeChar(c) + rest != [] && (EncodeChar(c) + rest)[0] == '%'
    ensures DecodeEscape(EncodeChar(c) + rest) == Value((c, |EncodeChar(c)|))
  {
    var bytes := Utf8(c);
    var e := EncodeChar(c) + rest;
    EscapedBytesOfChar(c, rest);
    assert EscapedByte(e, 0) == Value(bytes[0]);
    if |bytes| == 2 {
      DecodeTwoBytes(c, e);
    } else if |bytes| == 3 {
      DecodeThreeBytes(c, e);
    } else if |bytes| == 4 {
      DecodeFourBytes(c, e);
    }
  }

  lemma DecodeTwoBytes(c: char, e: string)
    requires |Utf8(c)| == 2 && e != [] && e[0] == '%'
    requires forall k :: 0 <= k < 2 ==> EscapedByte(e, 3 * k) == Value(Utf8(c)[k])
    ensures DecodeEscape(e) == Value((c, 6))
  {
    assert EscapedByte(e, 0) == Value(Utf8(c)[0]);
    assert EscapedByte(e, 3) == Value(Utf8(c)[1]);
  }

  lemma DecodeThreeBytes(c: char, e: string)
    requires |Utf8(c)| == 3 && e != [] && e[0] == '%'
    requires forall k :: 0 <= k < 3 ==> EscapedByte(e, 3 * k) == Value(Utf8(c)[k])
    ensures DecodeEscape(e) == Value((c, 9))
  {
    assert EscapedByte(e, 0) == Value(Utf8(c)[0]);
    assert EscapedByte(e, 3) == Value(Utf8(c)[1]);
    assert EscapedByte(e, 6) == Value(Utf8(c)[2]);
  }

  lemma DecodeFourBytes(c: char, e: string)
    requires |Utf8(c)| == 4 && e != [] && e[0] == '%'
    requires forall k :: 0 <= k < 4 ==> EscapedByte(e, 3 * k) == Value(Utf8(c)[k])
    ensures DecodeEscape(e) == Value((c, 12))
  {
    assert EscapedByte(e, 0) == Value(Utf8(c)[0]);
    assert EscapedByte(e, 3) == Value(Utf8(c)[1]);
    assert EscapedByte(e, 6) == Value(Utf8(c)[2]);
    assert EscapedByte(e, 9) == Value(Utf8(c)[3]);
  }

  /** Decoding one encoded character in front of more text peels off exactly that character. */
  lemma DecodeEncodeChar(c: char, rest: string)
    ensures Decode(EncodeChar(c) + rest) ==
      match Decode(rest)
      case Decoded(t) => Decoded([c] + t)
      case UriError => UriError
  {
    var e := EncodeChar(c) + rest;
    if IsUnreserved(c) {
      assert e[1..] == rest;
    } else {
      DecodeEscapeOfChar(c, rest);
      assert e[|EncodeChar(c)|..] == rest;
    }
  }

  /** `decodeURIComponent(encodeURIComponent(s)) === s` for every string. */
  lemma {:induction false} DecodeEncode(s: string)
    ensures Decode(Encode(s)) == Decoded(s)
  {
    if s != [] {
      DecodeEncode(s[1..]);
      DecodeEncodeChar(s[0], Encode(s[1..]));
      assert [s[0]] + s[1..] == s;
    }
  }

  /** Distinct terms give distinct encodings. */
  lemma EncodeInjective(s: string, t: string)
    requires Encode(s) == Encode(t)
    ensures s == t
  {
    DecodeEncode(s);
    DecodeEncode(t);
  }
  /**
   * The shape of `encodeURIComponent`'s output: read from the left, every character is
   * either unreserved or the start of a `%XY` triplet with upper-case digits.
   */
  predicate WellEscaped(r: string)
    decreases |r|
  {
    if r == [] then true
    else if r[0] == '%' then
      |r| >= 3 && IsUpperHexDigit(r[1]) && IsUpperHexDigit(r[2]) && WellEscaped(r[3..])
    else IsUnreserved(r[0]) && WellEscaped(r[1..])
  }

  lemma {:induction false} WellEscapedConcat(a: string, b: string)
    requires WellEscaped(a) && WellEscaped(b)
    ensures WellEscaped(a + b)
    decreases |a|
  {
    var ab := a + b;
    if a == [] {
      assert ab == b;
    } else {
      var n := if a[0] == '%' then 3 else 1;
      assert WellEscaped(ab[n..]) by {
        WellEscapedConcat(a[n..], b);
        assert ab[n..] == a[n..] + b;
      }
      assert ab[..n] == a[..n];
    }
  }

  lemma {:induction false} WellEscapedPercentEncode(bytes: seq<int>)
    requires forall k :: 0 <= k < |bytes| ==> IsByte(bytes[k])
    ensures WellEscaped(PercentEncode(bytes))
    decreases |bytes|
  {
    if bytes != [] {
      var r := PercentEncode(bytes);
      WellEscapedPercentEncode(bytes[1..]);
      assert r[3..] == PercentEncode(bytes[1..]);
    }
  }

  /**
   * Every `%` the encoder writes opens a triplet of two upper-case hexadecimal digits, and
   * every other character it writes is unreserved.
   */
  lemma {:induction false} EncodeWellEscaped(s: string)
    ensures WellEscaped(Encode(s))
    decreases |s|
  {
    if s != [] {
      EncodeWellEscaped(s[1..]);
      var head := EncodeChar(s[0]);
      assert WellEscaped(head) by {
        if IsUnreserved(s[0]) {
          assert head[1..] == [];
        } else {
          WellEscapedPercentEncode(Utf8(s[0]));
        }
      }
      WellEscapedConcat(head, Encode(s[1..]));
    }
  }

  /** The encoder works one character at a time: it distributes over concatenation. */
  lemma {:induction false} EncodeConcat(a: string, b: string)
    ensures Encode(a + b) == Encode(a) + Encode(b)
    decreases |a|
  {
    if a != [] {
      assert (a + b)[0] == a[0] && (a + b)[1..] == a[1..] + b;
      EncodeConcat(a[1..], b);
    } else {
      assert a + b == b;
    }
  }

  /** The encoder leaves a string unchanged exactly when all its characters are unreserved. */
  lemma {:induction false} EncodeIdentityIffUnreserved(s: string)
    ensures Encode(s) == s <==> forall k :: 0 <= k < |s| ==> IsUnreserved(s[k])
    decreases |s|
  {
    if s != [] {
      var rest := s[1..];
      EncodeIdentityIffUnreserved(rest);
      if IsUnreserved(s[0]) {
        assert Encode(s) == [s[0]] + Encode(rest);
        assert s == [s[0]] + rest;
        if Encode(s) == s {
          assert Encode(rest) == rest by {
            assert Encode(s)[1..] == Encode(rest);
          }
        }
        if forall k :: 0 <= k < |s| ==> IsUnreserved(s[k]) {
          assert forall k :: 0 <= k < |rest| ==> IsUnreserved(rest[k]) by {
            forall k | 0 <= k < |rest| ensures IsUnreserved(rest[k]) {
              assert rest[k] == s[k + 1];
            }
          }
        }
      } else {
        assert |Encode(s)| > |s| by {
          assert |EncodeChar(s[0])| >= 3;
        }
      }
    }
  }
}
