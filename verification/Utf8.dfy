/** The bytes that decode as UTF-8 are the encodings of sequences of Unicode scalar values (RFC 3629 section 3). */
module Utf8 {
  import opened Bytes

  /** A Unicode code point that is not a surrogate. */
  predicate Scalar(p: int) {
    0 <= p <= 0x10FFFF && !(0xD800 <= p <= 0xDFFF)
  }

  predicate AllScalar(points: seq<int>) {
    forall i :: 0 <= i < |points| ==> Scalar(points[i])
  }

  /** The table of RFC 3629 section 3: six bits in each continuation byte. */
  function EncodePoint(p: int): (s: bytes)
    requires Scalar(p)
    ensures 1 <= |s| <= 4
  {
    if p <= 0x7F then [p as char]
    else if p <= 0x7FF then [(0xC0 + p / 64) as char, (0x80 + p % 64) as char]
    else if p <= 0xFFFF then
      [(0xE0 + p / 4096) as char, (0x80 + p / 64 % 64) as char, (0x80 + p % 64) as char]
    else
      [(0xF0 + p / 262144) as char, (0x80 + p / 4096 % 64) as char, (0x80 + p / 64 % 64) as char,
       (0x80 + p % 64) as char]
  }

  function EncodeText(points: seq<int>): bytes
    requires AllScalar(points)
  {
    if points == [] then [] else EncodePoint(points[0]) + EncodeText(points[1..])
  }

  lemma TwoIsWide(p: int, rest: bytes)
    requires 0x80 <= p <= 0x7FF
    ensures Utf8Width(EncodePoint(p) + rest) == 2
  {
    var s := EncodePoint(p) + rest;
    assert s[0] == EncodePoint(p)[0] && s[1] == EncodePoint(p)[1];
  }

  lemma ThreeIsWide(p: int, rest: bytes)
    requires Scalar(p) && 0x800 <= p <= 0xFFFF
    ensures Utf8Width(EncodePoint(p) + rest) == 3
  {
    var s := EncodePoint(p) + rest;
    assert s[0] == EncodePoint(p)[0] && s[1] == EncodePoint(p)[1] && s[2] == EncodePoint(p)[2];
  }

  lemma FourIsWide(p: int, rest: bytes)
    requires Scalar(p) && 0x10000 <= p
    ensures Utf8Width(EncodePoint(p) + rest) == 4
  {
    var s := EncodePoint(p) + rest;
    assert s[0] == EncodePoint(p)[0] && s[1] == EncodePoint(p)[1];
    assert s[2] == EncodePoint(p)[2] && s[3] == EncodePoint(p)[3];
  }

  /** The encoding of a scalar value is one character of the decoder, whatever follows. */
  lemma EncodedIsWide(p: int, rest: bytes)
    requires Scalar(p)
    ensures Utf8Width(EncodePoint(p) + rest) == |EncodePoint(p)|
  {
    if p <= 0x7F {
      assert (EncodePoint(p) + rest)[0] == EncodePoint(p)[0];
    } else {
      hide Utf8Width;
      if p <= 0x7FF {
        TwoIsWide(p, rest);
      } else if p <= 0xFFFF {
        ThreeIsWide(p, rest);
      } else {
        FourIsWide(p, rest);
      }
    }
  }

  lemma SixBits(high: int, low: int)
    requires 0 <= low < 64
    ensures (64 * high + low) / 64 == high && (64 * high + low) % 64 == low
  {
  }

  lemma DivideTwice(p: int)
    requires p >= 0
    ensures p / 64 / 64 == p / 4096 && p / 4096 / 64 == p / 262144
  {
  }

  lemma TwoBytes(s: bytes) returns (p: int)
    requires Utf8Width(s) == 2
    ensures Scalar(p) && s[..2] == EncodePoint(p)
  {
    var a, b := s[0] as int - 0xC0, s[1] as int - 0x80;
    p := 64 * a + b;
    SixBits(a, b);
  }

  lemma ThreeBytes(s: bytes) returns (p: int)
    requires Utf8Width(s) == 3
    ensures Scalar(p) && s[..3] == EncodePoint(p)
  {
    var a, b, c := s[0] as int - 0xE0, s[1] as int - 0x80, s[2] as int - 0x80;
    var high := 64 * a + b;
    p := 64 * high + c;
    SixBits(a, b);
    SixBits(high, c);
    DivideTwice(p);
  }

  lemma FourBytes(s: bytes) returns (p: int)
    requires Utf8Width(s) == 4
    ensures Scalar(p) && s[..4] == EncodePoint(p)
  {
    var a, b, c, d := s[0] as int - 0xF0, s[1] as int - 0x80, s[2] as int - 0x80, s[3] as int - 0x80;
    var high := 64 * a + b;
    var higher := 64 * high + c;
    p := 64 * higher + d;
    SixBits(a, b);
    SixBits(high, c);
    SixBits(higher, d);
    DivideTwice(p);
    DivideTwice(higher);
  }

  /** A character of the decoder is the encoding of a scalar value. */
  lemma WideIsEncoded(s: bytes) returns (p: int)
    requires Utf8Width(s) > 0
    ensures Scalar(p) && s[..Utf8Width(s)] == EncodePoint(p)
  {
    var n := Utf8Width(s);
    if n == 1 {
      p := s[0] as int;
    } else if n == 2 {
      p := TwoBytes(s);
    } else if n == 3 {
      p := ThreeBytes(s);
    } else {
      WidthIsAtMostFour(s);
      p := FourBytes(s);
    }
  }

  lemma WidthIsAtMostFour(s: bytes)
    ensures Utf8Width(s) <= 4
  {
  }

  lemma {:induction false} TextIsValid(points: seq<int>)
    requires AllScalar(points)
    ensures ValidUtf8(EncodeText(points))
    decreases |points|
  {
    hide Utf8Width, EncodePoint;
    if points != [] {
      var front, rest := EncodePoint(points[0]), EncodeText(points[1..]);
      EncodedIsWide(points[0], rest);
      TextIsValid(points[1..]);
      assert (front + rest)[|front|..] == rest;
    }
  }

  lemma {:induction false} ValidIsText(s: bytes) returns (points: seq<int>)
    requires ValidUtf8(s)
    ensures AllScalar(points) && s == EncodeText(points)
    decreases |s|
  {
    hide Utf8Width, EncodePoint;
    points := [];
    if s != [] {
      var n := Utf8Width(s);
      var p := WideIsEncoded(s);
      var others := ValidIsText(s[n..]);
      points := [p] + others;
      assert points[1..] == others && s == s[..n] + s[n..];
    }
  }

  /** Exactly the encodings of texts are valid. */
  lemma ValidIffText(s: bytes)
    ensures ValidUtf8(s) <==> exists points :: AllScalar(points) && s == EncodeText(points)
  {
    if ValidUtf8(s) {
      var points := ValidIsText(s);
    }
    if points :| AllScalar(points) && s == EncodeText(points) {
      TextIsValid(points);
    }
  }
}
