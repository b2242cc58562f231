/**
 UTF-8 as defined by section 4 of RFC 3629 (the syntax of UTF-8 byte
 sequences). Text is Dafny's `string`, a sequence of Unicode scalar values,
 which is what a Rust `str` holds.
 */
module Utf8 {
  import opened RustInts

  /** A continuation byte (`UTF8-tail`). */
  predicate Tail(b: Byte) { 0x80 <= b <= 0xBF }

  /** The length of the well-formed `UTF8-char` that starts `s`, or 0 when
      `s` does not start with one. Each branch is one alternative of the
      grammar in section 4 of RFC 3629. */
  function Width(s: seq<Byte>): (w: nat)
    ensures w <= |s| && w <= 4
    ensures w == 0 || (w == 1 <==> s[0] <= 0x7F)
    ensures |s| > 0 && s[0] <= 0x7F ==> w == 1
  {
    if |s| == 0 then 0
    else if s[0] <= 0x7F then 1
    else if 0xC2 <= s[0] <= 0xDF then
      if 2 <= |s| && Tail(s[1]) then 2 else 0
    else if s[0] == 0xE0 then
      if 3 <= |s| && 0xA0 <= s[1] <= 0xBF && Tail(s[2]) then 3 else 0
    else if 0xE1 <= s[0] <= 0xEC || 0xEE <= s[0] <= 0xEF then
      if 3 <= |s| && Tail(s[1]) && Tail(s[2]) then 3 else 0
    else if s[0] == 0xED then
      if 3 <= |s| && 0x80 <= s[1] <= 0x9F && Tail(s[2]) then 3 else 0
    else if s[0] == 0xF0 then
      if 4 <= |s| && 0x90 <= s[1] <= 0xBF && Tail(s[2]) && Tail(s[3]) then 4 else 0
    else if 0xF1 <= s[0] <= 0xF3 then
      if 4 <= |s| && Tail(s[1]) && Tail(s[2]) && Tail(s[3]) then 4 else 0
    else if s[0] == 0xF4 then
      if 4 <= |s| && 0x80 <= s[1] <= 0x8F && Tail(s[2]) && Tail(s[3]) then 4 else 0
    else 0
  }

  /** `UTF8-octets`: the whole of `s` is a sequence of well-formed characters. */
  predicate Valid(s: seq<Byte>)
    decreases |s|
  {
    |s| == 0 || (Width(s) > 0 && Valid(s[Width(s)..]))
  }

  predicate IsScalar(n: int) {
    0 <= n < 0xD800 || 0xE000 <= n < 0x11_0000
  }

  /** The scalar value the leading character of `s` encodes. */
  function CodePoint(s: seq<Byte>): (n: int)
    requires Width(s) > 0
    ensures IsScalar(n)
    ensures Width(s) == 1 ==> n < 0x80
    ensures Width(s) == 2 ==> 0x80 <= n < 0x800
    ensures Width(s) == 3 ==> 0x800 <= n < 0x1_0000
    ensures Width(s) == 4 ==> 0x1_0000 <= n
  {
    var b: seq<int> := s;
    match Width(s)
    case 1 => b[0]
    case 2 => (b[0] - 0xC0) * 0x40 + (b[1] - 0x80)
    case 3 => (b[0] - 0xE0) * 0x1000 + (b[1] - 0x80) * 0x40 + (b[2] - 0x80)
    case 4 => (b[0] - 0xF0) * 0x4_0000 + (b[1] - 0x80) * 0x1000 + (b[2] - 0x80) * 0x40 + (b[3] - 0x80)
  }

  /** The text a valid byte sequence spells (Rust's `String::from_utf8` on success). */
  function Decode(s: seq<Byte>): (t: string)
    requires Valid(s)
    ensures |t| <= |s|
    decreases |s|
  {
    if |s| == 0 then [] else [CodePoint(s) as char] + Decode(s[Width(s)..])
  }

  /** The UTF-8 bytes of one scalar value. */
  function EncodeChar(c: char): (b: seq<Byte>)
    ensures 1 <= |b| <= 4
  {
    var n := c as int;
    if n < 0x80 then [n]
    else if n < 0x800 then [0xC0 + n / 0x40, 0x80 + n % 0x40]
    else if n < 0x1_0000 then [0xE0 + n / 0x1000, 0x80 + n / 0x40 % 0x40, 0x80 + n % 0x40]
    else [0xF0 + n / 0x4_0000, 0x80 + n / 0x1000 % 0x40, 0x80 + n / 0x40 % 0x40, 0x80 + n % 0x40]
  }

  /** The UTF-8 bytes of a text. */
  function Encode(t: string): (b: seq<Byte>)
    ensures |t| <= |b|
  {
    if |t| == 0 then [] else EncodeChar(t[0]) + Encode(t[1..])
  }

  /** The digits of a three-byte scalar value: the lead byte's payload and two
      six-bit continuation payloads, with the range restrictions that
      section 4 of RFC 3629 puts on the second byte. */
  lemma ThreeByteDigits(n: int)
    requires IsScalar(n) && 0x800 <= n < 0x1_0000
    ensures var hi, mid, lo := n / 0x1000, n / 0x40 % 0x40, n % 0x40;
      && n == hi * 0x1000 + mid * 0x40 + lo
      && 0 <= hi < 0x10 && 0 <= mid < 0x40 && 0 <= lo < 0x40
      && (hi == 0 ==> 0x20 <= mid)
      && (hi == 0xD ==> mid < 0x20)
  {
  }

  /** The digits of a four-byte scalar value, likewise. */
  lemma FourByteDigits(n: int)
    requires IsScalar(n) && 0x1_0000 <= n
    ensures var top, hi, mid, lo := n / 0x4_0000, n / 0x1000 % 0x40, n / 0x40 % 0x40, n % 0x40;
      && n == top * 0x4_0000 + hi * 0x1000 + mid * 0x40 + lo
      && 0 <= top <= 4 && 0 <= hi < 0x40 && 0 <= mid < 0x40 && 0 <= lo < 0x40
      && (top == 0 ==> 0x10 <= hi)
      && (top == 4 ==> hi < 0x10)
  {
    var q := n / 0x40;
    assert n == q * 0x40 + n % 0x40;
    assert n / 0x1000 == q / 0x40;
    assert q == (q / 0x40) * 0x40 + q % 0x40;
    assert n / 0x4_0000 == q / 0x1000;
  }

  /** Encoding a character yields a well-formed character that decodes back to it,
      whatever follows it. */
  lemma EncodeCharWellFormed(c: char, rest: seq<Byte>)
    ensures Width(EncodeChar(c) + rest) == |EncodeChar(c)|
    ensures CodePoint(EncodeChar(c) + rest) == c as int
  {
    var n := c as int;
    if n < 0x80 {
    } else if n < 0x800 {
      var s := EncodeChar(c) + rest;
      assert s[0] == 0xC0 + n / 0x40 && s[1] == 0x80 + n % 0x40;
      assert 0xC2 <= s[0] <= 0xDF && Tail(s[1]);
    } else if n < 0x1_0000 {
      ThreeByteWellFormed(c, rest);
    } else {
      FourByteWellFormed(c, rest);
    }
  }

  lemma ThreeByteWellFormed(c: char, rest: seq<Byte>)
    requires 0x800 <= c as int < 0x1_0000
    ensures Width(EncodeChar(c) + rest) == 3
    ensures CodePoint(EncodeChar(c) + rest) == c as int
  {
    var n := c as int;
    var s := EncodeChar(c) + rest;
    ThreeByteDigits(n);
    assert s[0] == 0xE0 + n / 0x1000 && s[1] == 0x80 + n / 0x40 % 0x40 && s[2] == 0x80 + n % 0x40;
    assert Tail(s[1]) && Tail(s[2]);
  }

  lemma FourByteWellFormed(c: char, rest: seq<Byte>)
    requires 0x1_0000 <= c as int
    ensures Width(EncodeChar(c) + rest) == 4
    ensures CodePoint(EncodeChar(c) + rest) == c as int
  {
    var n := c as int;
    var s := EncodeChar(c) + rest;
    FourByteDigits(n);
    assert s[0] == 0xF0 + n / 0x4_0000 && s[1] == 0x80 + n / 0x1000 % 0x40;
    assert s[2] == 0x80 + n / 0x40 % 0x40 && s[3] == 0x80 + n % 0x40;
    assert Tail(s[2]) && Tail(s[3]);
  }

  /** A well-formed two-byte character re-encodes to its own bytes. */
  lemma TwoByteRoundTrip(b0: int, b1: int)
    requires 0xC2 <= b0 <= 0xDF && 0x80 <= b1 <= 0xBF
    ensures EncodeChar(((b0 - 0xC0) * 0x40 + (b1 - 0x80)) as char) == [b0, b1]
  {
  }

  /** Likewise for three bytes, with the second-byte restrictions after E0 and ED. */
  lemma ThreeByteRoundTrip(b0: int, b1: int, b2: int)
    requires 0xE0 <= b0 <= 0xEF && 0x80 <= b1 <= 0xBF && 0x80 <= b2 <= 0xBF
    requires b0 == 0xE0 ==> 0xA0 <= b1
    requires b0 == 0xED ==> b1 <= 0x9F
    ensures EncodeChar(((b0 - 0xE0) * 0x1000 + (b1 - 0x80) * 0x40 + (b2 - 0x80)) as char) == [b0, b1, b2]
  {
    var n := (b0 - 0xE0) * 0x1000 + (b1 - 0x80) * 0x40 + (b2 - 0x80);
    assert n / 0x40 == (b0 - 0xE0) * 0x40 + (b1 - 0x80);
  }

  /** Reassembling a four-byte character's payload and splitting it again. */
  lemma FourByteSplit(b0: int, b1: int, b2: int, b3: int)
    requires 0xF0 <= b0 <= 0xF4 && 0x80 <= b1 <= 0xBF && 0x80 <= b2 <= 0xBF && 0x80 <= b3 <= 0xBF
    ensures var n := (b0 - 0xF0) * 0x4_0000 + (b1 - 0x80) * 0x1000 + (b2 - 0x80) * 0x40 + (b3 - 0x80);
      && n / 0x4_0000 == b0 - 0xF0 && n / 0x1000 % 0x40 == b1 - 0x80
      && n / 0x40 % 0x40 == b2 - 0x80 && n % 0x40 == b3 - 0x80
  {
    var hi := (b0 - 0xF0) * 0x40 + (b1 - 0x80);
    var n := hi * 0x1000 + (b2 - 0x80) * 0x40 + (b3 - 0x80);
    assert n / 0x40 == hi * 0x40 + (b2 - 0x80);
    assert n / 0x1000 == hi;
  }

  /** Likewise for four bytes, with the second-byte restrictions after F0 and F4. */
  lemma FourByteRoundTrip(b0: int, b1: int, b2: int, b3: int)
    requires 0xF0 <= b0 <= 0xF4 && 0x80 <= b1 <= 0xBF && 0x80 <= b2 <= 0xBF && 0x80 <= b3 <= 0xBF
    requires b0 == 0xF0 ==> 0x90 <= b1
    requires b0 == 0xF4 ==> b1 <= 0x8F
    ensures EncodeChar(((b0 - 0xF0) * 0x4_0000 + (b1 - 0x80) * 0x1000 + (b2 - 0x80) * 0x40 + (b3 - 0x80)) as char)
      == [b0, b1, b2, b3]
  {
    var n := (b0 - 0xF0) * 0x4_0000 + (b1 - 0x80) * 0x1000 + (b2 - 0x80) * 0x40 + (b3 - 0x80);
    FourByteSplit(b0, b1, b2, b3);
    assert 0x1_0000 <= n < 0x11_0000;
  }

  /** A well-formed leading character re-encodes to exactly the bytes it was decoded from. */
  lemma CharRoundTrip(s: seq<Byte>)
    requires Width(s) > 0
    ensures EncodeChar(CodePoint(s) as char) == s[..Width(s)]
  {
    var b: seq<int> := s;
    match Width(s)
    case 1 =>
      assert s[..1] == [s[0]];
    case 2 =>
      TwoByteRoundTrip(b[0], b[1]);
      assert s[..2] == [s[0], s[1]];
    case 3 =>
      ThreeByteRoundTrip(b[0], b[1], b[2]);
      assert s[..3] == [s[0], s[1], s[2]];
    case 4 =>
      FourByteRoundTrip(b[0], b[1], b[2], b[3]);
      assert s[..4] == [s[0], s[1], s[2], s[3]];
  }

  /** Every text encodes to valid UTF-8, and decoding gives the text back. */
  lemma {:induction false} DecodeEncode(t: string)
    ensures Valid(Encode(t))
    ensures Decode(Encode(t)) == t
  {
    if |t| > 0 {
      var head, rest := EncodeChar(t[0]), Encode(t[1..]);
      EncodeCharWellFormed(t[0], rest);
      assert (head + rest)[|head|..] == rest;
      DecodeEncode(t[1..]);
    }
  }

  /** Valid UTF-8 is exactly the encoding of the text it decodes to. */
  lemma {:induction false} EncodeDecode(s: seq<Byte>)
    requires Valid(s)
    ensures Encode(Decode(s)) == s
  {
    if |s| > 0 {
      var w := Width(s);
      var c, rest := CodePoint(s) as char, s[w..];
      CharRoundTrip(s);
      EncodeDecode(rest);
      assert Decode(s) == [c] + Decode(rest);
      assert ([c] + Decode(rest))[1..] == Decode(rest);
      SplitAt(s, w);
    }
  }

  lemma SplitAt(s: seq<Byte>, n: nat)
    requires n <= |s|
    ensures s[..n] + s[n..] == s
  {
  }

  /** So a byte sequence is valid UTF-8 exactly when it is the encoding of some text. */
  lemma ValidIffEncoding(s: seq<Byte>, t: string)
    ensures Valid(s) && Decode(s) == t <==> s == Encode(t)
  {
    if Valid(s) && Decode(s) == t {
      EncodeDecode(s);
    }
    if s == Encode(t) {
      DecodeEncode(t);
    }
  }
}
