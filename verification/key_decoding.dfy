/**
 * How the handler turns the object key carried by an S3 event record into the
 * key of the stored object: every '+' becomes a space, then the result goes
 * through `decodeURIComponent`, which replaces each "%XX" escape (or run of
 * escapes forming one UTF-8 sequence) with the character it encodes and throws
 * a URIError on a malformed escape or an invalid UTF-8 sequence.
 */
module KeyDecoding {
  import opened Wrappers

  /** `raw.replace(/\+/g, ' ')`. */
  function ReplacePlus(s: string): (r: string)
    ensures |r| == |s| && '+' !in r
  {
    if s == [] then [] else [if s[0] == '+' then ' ' else s[0]] + ReplacePlus(s[1..])
  }

  /** Every '+' is replaced by a space and every other character is kept in place. */
  lemma {:induction false} ReplacePlusPointwise(s: string)
    ensures |ReplacePlus(s)| == |s|
    ensures forall i :: 0 <= i < |s| ==> ReplacePlus(s)[i] == if s[i] == '+' then ' ' else s[i]
  {
    if s != [] {
      ReplacePlusPointwise(s[1..]);
    }
  }

  /** A key without '+' is left as it is. */
  lemma ReplacePlusNoPlus(s: string)
    requires '+' !in s
    ensures ReplacePlus(s) == s
  {
    ReplacePlusPointwise(s);
  }

  predicate IsHexDigit(c: char) {
    '0' <= c <= '9' || 'a' <= c <= 'f' || 'A' <= c <= 'F'
  }

  function HexValue(c: char): (v: nat)
    requires IsHexDigit(c)
    ensures v < 16
  {
    if c <= '9' then c as int - '0' as int
    else if c >= 'a' then c as int - 'a' as int + 10
    else c as int - 'A' as int + 10
  }

  /** Position i of s starts a well-formed escape: '%' and two hexadecimal digits. */
  predicate EscapeAt(s: string, i: nat) {
    i + 3 <= |s| && s[i] == '%' && IsHexDigit(s[i + 1]) && IsHexDigit(s[i + 2])
  }

  /** The octet that the escape at position i denotes, if a well-formed escape is there. */
  function OctetAt(s: string, i: nat): (r: Option<nat>)
    ensures r.Some? <==> EscapeAt(s, i)
    ensures r.Some? ==> r.value < 256
  {
    if EscapeAt(s, i) then Some(16 * HexValue(s[i + 1]) + HexValue(s[i + 2])) else None
  }

  predicate IsContinuation(b: nat) {
    0x80 <= b < 0xC0
  }

  /** The code point of a two-octet UTF-8 sequence; None for a bad continuation or an overlong form. */
  function CodePoint2(b0: nat, b1: nat): Option<char>
    requires 0xC0 <= b0 < 0xE0
  {
    if !IsContinuation(b1) then None
    else
      var v := (b0 - 0xC0) * 64 + (b1 - 0x80);
      if v < 0x80 then None else Some(v as char)
  }

  /** The code point of a three-octet UTF-8 sequence; None for a bad continuation, an overlong form or a surrogate. */
  function CodePoint3(b0: nat, b1: nat, b2: nat): Option<char>
    requires 0xE0 <= b0 < 0xF0
  {
    if !IsContinuation(b1) || !IsContinuation(b2) then None
    else
      var v := (b0 - 0xE0) * 4096 + (b1 - 0x80) * 64 + (b2 - 0x80);
      if v < 0x800 || (0xD800 <= v && v < 0xE000) then None else Some(v as char)
  }

  /** The code point of a four-octet UTF-8 sequence; None for a bad continuation, an overlong form or a value past U+10FFFF. */
  function CodePoint4(b0: nat, b1: nat, b2: nat, b3: nat): Option<char>
    requires 0xF0 <= b0 < 0xF8
  {
    if !IsContinuation(b1) || !IsContinuation(b2) || !IsContinuation(b3) then None
    else
      var v := (b0 - 0xF0) * 262144 + (b1 - 0x80) * 4096 + (b2 - 0x80) * 64 + (b3 - 0x80);
      if v < 0x10000 || v >= 0x110000 then None else Some(v as char)
  }

  /**
   * Decodes the escape sequence at the head of s (which starts with '%'):
   * the character and the number of characters it took. The number of
   * octets is given by the leading one bits of the first octet; a first
   * octet with one leading one bit or more than four is an error.
   */
  function DecodeEscape(s: string): (r: Option<(char, nat)>)
    ensures r.Some? ==> r.value.1 in {3, 6, 9, 12} && r.value.1 <= |s|
    ensures r.Some? ==> forall k :: 0 <= k < r.value.1 / 3 ==> EscapeAt(s, 3 * k)
  {
    var b0 :- OctetAt(s, 0);
    if b0 < 0x80 then Some((b0 as char, 3))
    else if b0 < 0xC0 || 0xF8 <= b0 then None
    else if b0 < 0xE0 then
      var b1 :- OctetAt(s, 3);
      var c :- CodePoint2(b0, b1);
      Some((c, 6))
    else if b0 < 0xF0 then
      var b1 :- OctetAt(s, 3);
      var b2 :- OctetAt(s, 6);
      var c :- CodePoint3(b0, b1, b2);
      Some((c, 9))
    else
      var b1 :- OctetAt(s, 3);
      var b2 :- OctetAt(s, 6);
      var b3 :- OctetAt(s, 9);
      var c :- CodePoint4(b0, b1, b2, b3);
      Some((c, 12))
  }

  /** `decodeURIComponent(s)`; None stands for the URIError it throws. */
  function DecodeUriComponent(s: string): (r: Option<string>)
    ensures r.Some? ==> |r.value| <= |s|
    decreases |s|
  {
    if s == [] then Some([])
    else if s[0] != '%' then
      var rest :- DecodeUriComponent(s[1..]);
      Some([s[0]] + rest)
    else
      var e :- DecodeEscape(s);
      var rest :- DecodeUriComponent(s[e.1..]);
      Some([e.0] + rest)
  }

  /** The key of the stored object: `decodeURIComponent(raw.replace(/\+/g, ' '))`. */
  function DecodeKey(raw: string): Option<string> {
    DecodeUriComponent(ReplacePlus(raw))
  }

  /** A decoded key is never longer than the raw key: escapes only shrink. */
  lemma DecodedKeyShorter(raw: string)
    ensures DecodeKey(raw).Some? ==> |DecodeKey(raw).value| <= |raw|
  {
  }

  /** A string without '%' decodes to itself. */
  lemma {:induction false} DecodeWithoutEscapes(s: string)
    requires '%' !in s
    ensures DecodeUriComponent(s) == Some(s)
  {
    if s != [] {
      assert s[0] in s && s == [s[0]] + s[1..];
      assert '%' !in s[1..];
      DecodeWithoutEscapes(s[1..]);
    }
  }

  /** Inside a decoded escape sequence every '%' starts a well-formed escape. */
  lemma PercentInsideEscape(s: string, i: nat)
    requires DecodeEscape(s).Some? && i < DecodeEscape(s).value.1 && s[i] == '%'
    ensures EscapeAt(s, i)
  {
    var n := DecodeEscape(s).value.1;
    var k := if i < 3 then 0 else if i < 6 then 1 else if i < 9 then 2 else 3;
    assert k < n / 3;
    assert EscapeAt(s, 3 * k);
  }

  /** Any '%' not followed by two hexadecimal digits makes decoding throw. */
  lemma {:induction false} MalformedEscapeFails(s: string, i: nat)
    requires i < |s| && s[i] == '%' && !EscapeAt(s, i)
    ensures DecodeUriComponent(s) == None
    decreases |s|
  {
    if s[0] != '%' {
      assert s[1..][i - 1] == s[i];
      assert !EscapeAt(s[1..], i - 1);
      MalformedEscapeFails(s[1..], i - 1);
    } else if DecodeEscape(s).Some? {
      var n := DecodeEscape(s).value.1;
      if i < n {
        PercentInsideEscape(s, i);
      } else {
        assert s[n..][i - n] == s[i];
        assert !EscapeAt(s[n..], i - n);
        MalformedEscapeFails(s[n..], i - n);
      }
    }
  }

  /** The key with every '+' turned into a space decodes, when it holds no escape, to exactly that. */
  lemma PlainKeyDecoding(raw: string)
    requires '%' !in raw
    ensures DecodeKey(raw) == Some(ReplacePlus(raw))
    ensures DecodeKey(raw).Some? ==> '+' !in DecodeKey(raw).value
  {
    ReplacePlusPointwise(raw);
    assert '%' !in ReplacePlus(raw);
    DecodeWithoutEscapes(ReplacePlus(raw));
  }

  // A reference encoder: every character written as the escapes of its UTF-8 octets.

  function HexDigit(d: nat): char
    requires d < 16
  {
    if d < 10 then ('0' as int + d) as char else ('A' as int + d - 10) as char
  }

  function EscapeOctet(b: nat): string
    requires b < 256
  {
    ['%', HexDigit(b / 16), HexDigit(b % 16)]
  }

  /** The UTF-8 encoding of one code point (RFC 3629, section 3). */
  function Utf8Octets(c: char): (bs: seq<nat>)
    ensures 1 <= |bs| <= 4 && forall k :: 0 <= k < |bs| ==> bs[k] < 256
  {
    var v := c as int;
    if v < 0x80 then [v]
    else if v < 0x800 then [0xC0 + v / 64, 0x80 + v % 64]
    else if v < 0x10000 then [0xE0 + v / 4096, 0x80 + v / 64 % 64, 0x80 + v % 64]
    else [0xF0 + v / 262144, 0x80 + v / 4096 % 64, 0x80 + v / 64 % 64, 0x80 + v % 64]
  }

  function EscapeOctets(bs: seq<nat>): string
    requires forall k :: 0 <= k < |bs| ==> bs[k] < 256
  {
    if bs == [] then [] else EscapeOctet(bs[0]) + EscapeOctets(bs[1..])
  }

  function EncodeChar(c: char): string {
    EscapeOctets(Utf8Octets(c))
  }

  function PercentEncode(s: string): string {
    if s == [] then [] else EncodeChar(s[0]) + PercentEncode(s[1..])
  }

  /** The escapes of one to four octets, written out. */
  lemma EscapeOctets1(bs: seq<nat>)
    requires |bs| == 1 && bs[0] < 256
    ensures EscapeOctets(bs) == EscapeOctet(bs[0])
  {
    assert bs[1..] == [];
  }

  lemma EscapeOctets2(bs: seq<nat>)
    requires |bs| == 2 && bs[0] < 256 && bs[1] < 256
    ensures EscapeOctets(bs) == EscapeOctet(bs[0]) + EscapeOctet(bs[1])
  {
    EscapeOctets1(bs[1..]);
  }

  lemma EscapeOctets3(bs: seq<nat>)
    requires |bs| == 3 && bs[0] < 256 && bs[1] < 256 && bs[2] < 256
    ensures EscapeOctets(bs) == EscapeOctet(bs[0]) + EscapeOctet(bs[1]) + EscapeOctet(bs[2])
  {
    var e0, e1, e2 := EscapeOctet(bs[0]), EscapeOctet(bs[1]), EscapeOctet(bs[2]);
    EscapeOctets2(bs[1..]);
    assert e0 + (e1 + e2) == e0 + e1 + e2;
  }

  lemma EscapeOctets4(bs: seq<nat>)
    requires |bs| == 4 && bs[0] < 256 && bs[1] < 256 && bs[2] < 256 && bs[3] < 256
    ensures EscapeOctets(bs) == EscapeOctet(bs[0]) + EscapeOctet(bs[1]) + EscapeOctet(bs[2]) + EscapeOctet(bs[3])
  {
    var e0, e1, e2, e3 := EscapeOctet(bs[0]), EscapeOctet(bs[1]), EscapeOctet(bs[2]), EscapeOctet(bs[3]);
    EscapeOctets3(bs[1..]);
    assert e0 + (e1 + e2 + e3) == e0 + e1 + e2 + e3;
  }

  /** The escapes of a character start with the '%' of its first octet's escape. */
  lemma EncodeCharStartsEscape(c: char)
    ensures |EncodeChar(c)| >= 3 && EncodeChar(c)[0] == '%'
  {
    var bs := Utf8Octets(c);
    assert EscapeOctets(bs) == EscapeOctet(bs[0]) + EscapeOctets(bs[1..]);
  }

  lemma HexDigitValue(d: nat)
    requires d < 16
    ensures IsHexDigit(HexDigit(d)) && HexValue(HexDigit(d)) == d
  {
  }

  lemma OctetAtEscape(b: nat, pre: string, post: string)
    requires b < 256
    ensures OctetAt(pre + EscapeOctet(b) + post, |pre|) == Some(b)
  {
    var s := pre + EscapeOctet(b) + post;
    HexDigitValue(b / 16);
    HexDigitValue(b % 16);
    assert s[|pre|] == '%' && s[|pre| + 1] == HexDigit(b / 16) && s[|pre| + 2] == HexDigit(b % 16);
  }

  lemma CodePoint2Inverse(v: int)
    requires 0x80 <= v < 0x800
    ensures CodePoint2(0xC0 + v / 64, 0x80 + v % 64) == Some(v as char)
  {
    assert (v / 64) * 64 + v % 64 == v;
  }

  lemma CodePoint3Inverse(v: int)
    requires 0x800 <= v < 0x10000 && !(0xD800 <= v < 0xE000)
    ensures CodePoint3(0xE0 + v / 4096, 0x80 + v / 64 % 64, 0x80 + v % 64) == Some(v as char)
  {
    assert (v / 4096) * 4096 + (v / 64 % 64) * 64 + v % 64 == v;
  }

  lemma CodePoint4Inverse(v: int)
    requires 0x10000 <= v < 0x110000
    ensures CodePoint4(0xF0 + v / 262144, 0x80 + v / 4096 % 64, 0x80 + v / 64 % 64, 0x80 + v % 64) == Some(v as char)
  {
    var q1 := v / 64;
    var q2 := q1 / 64;
    assert v / 4096 == q2 && v / 262144 == q2 / 64;
    assert q2 == (q2 / 64) * 64 + q2 % 64;
    assert q1 == q2 * 64 + q1 % 64;
    assert v == q1 * 64 + v % 64;
  }

  /** Decoding the escapes of one character gives the character back and consumes exactly those escapes. */
  lemma DecodeEncodedChar(c: char, rest: string)
    ensures |EncodeChar(c)| == 3 * |Utf8Octets(c)|
    ensures DecodeEscape(EncodeChar(c) + rest) == Some((c, |EncodeChar(c)|))
  {
    var bs := Utf8Octets(c);
    if |bs| == 1 {
      EscapeOctets1(bs);
      DecodeEncoded1(c, rest);
    } else if |bs| == 2 {
      EscapeOctets2(bs);
      DecodeEncoded2(c, rest);
    } else if |bs| == 3 {
      EscapeOctets3(bs);
      DecodeEncoded3(c, rest);
    } else {
      EscapeOctets4(bs);
      DecodeEncoded4(c, rest);
    }
  }

  lemma DecodeEncoded1(c: char, rest: string)
    requires c as int < 0x80
    ensures DecodeEscape(EncodeChar(c) + rest) == Some((c, 3))
  {
    var bs := Utf8Octets(c);
    EscapeOctets1(bs);
    var s := EncodeChar(c) + rest;
    assert s == [] + EscapeOctet(bs[0]) + rest;
    OctetAtEscape(bs[0], [], rest);
  }

  lemma DecodeEncoded2(c: char, rest: string)
    requires 0x80 <= c as int < 0x800
    ensures DecodeEscape(EncodeChar(c) + rest) == Some((c, 6))
  {
    var bs := Utf8Octets(c);
    EscapeOctets2(bs);
    var e0, e1 := EscapeOctet(bs[0]), EscapeOctet(bs[1]);
    var s := EncodeChar(c) + rest;
    assert s == [] + e0 + (e1 + rest);
    OctetAtEscape(bs[0], [], e1 + rest);
    assert s == e0 + e1 + rest;
    OctetAtEscape(bs[1], e0, rest);
    CodePoint2Inverse(c as int);
  }

  lemma DecodeEncoded3(c: char, rest: string)
    requires 0x800 <= c as int < 0x10000
    ensures DecodeEscape(EncodeChar(c) + rest) == Some((c, 9))
  {
    var bs := Utf8Octets(c);
    EscapeOctets3(bs);
    var e0, e1, e2 := EscapeOctet(bs[0]), EscapeOctet(bs[1]), EscapeOctet(bs[2]);
    var s := EncodeChar(c) + rest;
    assert s == [] + e0 + (e1 + e2 + rest);
    OctetAtEscape(bs[0], [], e1 + e2 + rest);
    assert s == e0 + e1 + (e2 + rest);
    OctetAtEscape(bs[1], e0, e2 + rest);
    assert s == e0 + e1 + e2 + rest;
    OctetAtEscape(bs[2], e0 + e1, rest);
    CodePoint3Inverse(c as int);
  }

  lemma DecodeEncoded4(c: char, rest: string)
    requires 0x10000 <= c as int
    ensures DecodeEscape(EncodeChar(c) + rest) == Some((c, 12))
  {
    var bs := Utf8Octets(c);
    EscapeOctets4(bs);
    var e0, e1, e2, e3 := EscapeOctet(bs[0]), EscapeOctet(bs[1]), EscapeOctet(bs[2]), EscapeOctet(bs[3]);
    var s := EncodeChar(c) + rest;
    assert s == [] + e0 + (e1 + e2 + e3 + rest);
    OctetAtEscape(bs[0], [], e1 + e2 + e3 + rest);
    assert s == e0 + e1 + (e2 + e3 + rest);
    OctetAtEscape(bs[1], e0, e2 + e3 + rest);
    assert s == e0 + e1 + e2 + (e3 + rest);
    OctetAtEscape(bs[2], e0 + e1, e3 + rest);
    assert s == e0 + e1 + e2 + e3 + rest;
    OctetAtEscape(bs[3], e0 + e1 + e2, rest);
    CodePoint4Inverse(c as int);
  }

  /** `decodeURIComponent` inverts the reference encoder on every string. */
  lemma {:induction false} DecodeOfEncode(s: string)
    ensures DecodeUriComponent(PercentEncode(s)) == Some(s)
  {
    if s != [] {
      var e := EncodeChar(s[0]);
      DecodeEncodedChar(s[0], PercentEncode(s[1..]));
      DecodeOfEncode(s[1..]);
      var t := PercentEncode(s);
      assert t == e + PercentEncode(s[1..]);
      EncodeCharStartsEscape(s[0]);
      assert t[|e|..] == PercentEncode(s[1..]);
      DecodeEscapeThenRest(t, s[0], |e|, s[1..]);
      assert [s[0]] + s[1..] == s;
    }
  }

  /** A leading escape that decodes, followed by a tail that decodes, decodes to both in turn. */
  lemma DecodeEscapeThenRest(t: string, c: char, n: nat, rest: string)
    requires t != [] && t[0] == '%'
    requires DecodeEscape(t) == Some((c, n))
    requires n <= |t| && DecodeUriComponent(t[n..]) == Some(rest)
    ensures DecodeUriComponent(t) == Some([c] + rest)
  {
  }

  /** A '+' in the raw key is a space. */
  lemma PlusIsSpace()
    ensures DecodeKey("a+b.png") == Some("a b.png")
  {
    PlainKeyDecoding("a+b.png");
    PlusSpelling();
  }

  lemma PlusSpelling()
    ensures ReplacePlus("a+b.png") == "a b.png"
  {
    ReplacePlusPointwise("a+b.png");
  }

  /** An escaped '+' is a literal '+'. */
  lemma EscapedPlus()
    ensures DecodeKey("%2B") == Some("+")
  {
    var s := "%2B";
    ReplacePlusNoPlus(s);
    assert OctetAt(s, 0) == Some(0x2B);
    assert DecodeEscape(s) == Some(('+', 3));
    assert s[0] == '%';
    assert DecodeUriComponent(s[3..]) == Some([]);
    assert ['+'] + [] == "+";
  }

  /** Escapes forming a two-octet UTF-8 sequence decode to one character. */
  lemma Utf8Example()
    ensures DecodeUriComponent("%C3%A9.png") == Some("\U{E9}.png")
  {
    var s := "%C3%A9.png";
    assert OctetAt(s, 0) == Some(0xC3);
    assert OctetAt(s, 3) == Some(0xA9);
    assert DecodeEscape(s) == Some(('\U{E9}', 6));
    assert s[6..] == ".png";
    DecodeWithoutEscapes(".png");
    assert s[0] == '%';
    assert "\U{E9}.png" == ['\U{E9}'] + ".png";
  }

  /** A truncated escape makes decoding throw. */
  lemma TruncatedEscapeFails()
    ensures DecodeKey("bad%2.png") == None
  {
    TruncatedEscapeShape();
    MalformedEscapeFails("bad%2.png", 3);
  }

  lemma TruncatedEscapeShape()
    ensures ReplacePlus("bad%2.png") == "bad%2.png"
    ensures "bad%2.png"[3] == '%' && !EscapeAt("bad%2.png", 3)
  {
    var s := "bad%2.png";
    assert s[5] == '.' && !IsHexDigit(s[5]);
    ReplacePlusNoPlus(s);
  }

  /** A lead octet with no continuation escape after it makes decoding throw. */
  lemma MissingContinuationFails()
    ensures DecodeKey("%C3.png") == None
  {
    MissingContinuationShape();
  }

  lemma MissingContinuationShape()
    ensures ReplacePlus("%C3.png") == "%C3.png"
    ensures DecodeEscape("%C3.png") == None
  {
    var s := "%C3.png";
    ReplacePlusNoPlus(s);
    assert OctetAt(s, 0) == Some(0xC3);
    assert OctetAt(s, 3) == None;
  }
}
