/**
 Byte strings. A byte is written as the character with its number, so that b"PING" of the
 source is "PING" here, and a Python str is represented by its UTF-8 encoding. Characters
 above 255 stand for no byte; the results hold for strings with them as well.
 */
module Bytes {
  import opened Wrappers

  type byte = char
  type bytes = seq<byte>

  const CRLF: bytes := "\r\n"

  /** raw contains CRLF at position i. */
  predicate CrlfAt(raw: bytes, i: nat) {
    i + 1 < |raw| && raw[i] == '\r' && raw[i + 1] == '\n'
  }

  /** bytes.find(CRLF, start): the first position from start on that holds CRLF. */
  function FindCrlf(raw: bytes, start: nat): (r: Option<nat>)
    ensures r.Some? ==> start <= r.value && CrlfAt(raw, r.value)
    ensures r.Some? ==> forall i: nat :: start <= i < r.value ==> !CrlfAt(raw, i)
    ensures r.None? ==> forall i: nat :: start <= i ==> !CrlfAt(raw, i)
    decreases |raw| - start
  {
    if start + 1 >= |raw| then None
    else if CrlfAt(raw, start) then Some(start)
    else FindCrlf(raw, start + 1)
  }

  predicate HasCrOrLf(s: bytes) {
    '\r' in s || '\n' in s
  }

  /** raw holds s at position i. */
  predicate Has(raw: bytes, i: nat, s: bytes) {
    i + |s| <= |raw| && raw[i..i + |s|] == s
  }

  lemma HasBoth(raw: bytes, i: nat, a: bytes, b: bytes)
    ensures Has(raw, i, a + b) <==> Has(raw, i, a) && Has(raw, i + |a|, b)
  {
    var n := i + |a|;
    if Has(raw, i, a + b) {
      assert raw[i..n] == raw[i..i + |a + b|][..|a|];
      assert raw[n..n + |b|] == raw[i..i + |a + b|][|a|..];
    }
    if Has(raw, i, a) && Has(raw, n, b) {
      assert raw[i..i + |a + b|] == raw[i..n] + raw[n..n + |b|];
    }
  }

  lemma CrlfSlice(raw: bytes, i: nat)
    requires i + 2 <= |raw|
    ensures raw[i..i + 2] == CRLF <==> CrlfAt(raw, i)
  {
    assert raw[i] == raw[i..i + 2][0] && raw[i + 1] == raw[i..i + 2][1];
  }

  lemma HasCrlf(raw: bytes, i: nat)
    requires Has(raw, i, CRLF)
    ensures CrlfAt(raw, i)
  {
    assert raw[i] == raw[i..i + 2][0] && raw[i + 1] == raw[i..i + 2][1];
  }

  /** A line without CR and LF ends at the first CRLF. */
  lemma FindCrlfAfterLine(raw: bytes, start: nat, line: bytes)
    requires !HasCrOrLf(line) && Has(raw, start, line) && CrlfAt(raw, start + |line|)
    ensures FindCrlf(raw, start) == Some(start + |line|)
  {
    forall i | start <= i < start + |line| ensures !CrlfAt(raw, i) {
      assert raw[i] == line[i - start];
    }
  }

  // ---------- ASCII ----------

  function UpperByte(c: byte): byte {
    if 'a' <= c <= 'z' then ((c as int - 32) as char) else c
  }

  function Upper(s: bytes): (r: bytes)
    ensures |r| == |s|
  {
    seq(|s|, i requires 0 <= i < |s| => UpperByte(s[i]))
  }

  /** The white space that str.strip removes. */
  predicate IsSpace(c: byte) {
    c == ' ' || 9 <= c as int <= 13 || 28 <= c as int <= 31
  }

  function StripLeft(s: bytes, space: byte -> bool): bytes {
    if s != [] && space(s[0]) then StripLeft(s[1..], space) else s
  }

  function StripRight(s: bytes, space: byte -> bool): bytes {
    if s != [] && space(s[|s| - 1]) then StripRight(s[..|s| - 1], space) else s
  }

  function Strip(s: bytes, space: byte -> bool): bytes {
    StripRight(StripLeft(s, space), space)
  }

  predicate AllSpace(s: bytes, space: byte -> bool) {
    forall i :: 0 <= i < |s| ==> space(s[i])
  }

  lemma NothingToStrip(s: bytes, space: byte -> bool)
    requires s == [] || (!space(s[0]) && !space(s[|s| - 1]))
    ensures Strip(s, space) == s
  {
  }

  lemma {:induction false} StripSnoc(s: bytes, c: byte, space: byte -> bool)
    requires space(c)
    ensures Strip(s + [c], space) == Strip(s, space)
    decreases |s|
  {
    if s == [] {
      assert (s + [c])[1..] == [];
    } else if space(s[0]) {
      assert (s + [c])[1..] == s[1..] + [c];
      StripSnoc(s[1..], c, space);
    } else {
      assert (s + [c])[..|s|] == s;
    }
  }

  /** Space around a text does not change what is left of it. */
  lemma {:induction false} StripIgnoresPadding(front: bytes, s: bytes, back: bytes, space: byte -> bool)
    requires AllSpace(front, space) && AllSpace(back, space)
    ensures Strip(front + s + back, space) == Strip(s, space)
    decreases |front| + |back|
  {
    var padded := front + s + back;
    if front != [] {
      assert padded[0] == front[0] && padded[1..] == front[1..] + s + back;
      StripIgnoresPadding(front[1..], s, back, space);
    } else if back != [] {
      var n := |back| - 1;
      assert padded == ([] + s + back[..n]) + [back[n]];
      StripSnoc([] + s + back[..n], back[n], space);
      StripIgnoresPadding([], s, back[..n], space);
    } else {
      assert padded == s;
    }
  }

  /** What is left of a text is the text without some space at both ends, and has none there. */
  lemma {:induction false} StripSplits(s: bytes, space: byte -> bool) returns (front: bytes, back: bytes)
    ensures AllSpace(front, space) && AllSpace(back, space) && s == front + Strip(s, space) + back
    decreases |s|
  {
    if s != [] && space(s[0]) {
      var rest;
      rest, back := StripSplits(s[1..], space);
      front := [s[0]] + rest;
      assert s == [s[0]] + s[1..];
    } else {
      front := [];
      back := StripRightSplits(s, space);
      assert [] + Strip(s, space) == Strip(s, space);
    }
  }

  lemma {:induction false} StripRightSplits(s: bytes, space: byte -> bool) returns (back: bytes)
    ensures AllSpace(back, space) && s == StripRight(s, space) + back
    decreases |s|
  {
    back := [];
    var n := |s| - 1;
    if s != [] && space(s[n]) {
      var rest := StripRightSplits(s[..n], space);
      back := rest + [s[n]];
      assert s == s[..n] + [s[n]];
    }
  }

  // ---------- joining ----------

  /** b"".join(chunks) */
  function Join(chunks: seq<bytes>): bytes {
    if chunks == [] then [] else Join(chunks[..|chunks| - 1]) + chunks[|chunks| - 1]
  }

  lemma {:induction false} JoinAppend(front: seq<bytes>, back: seq<bytes>)
    ensures Join(front + back) == Join(front) + Join(back)
  {
    if back == [] {
      assert front + back == front;
    } else {
      var n := |back| - 1;
      JoinAppend(front, back[..n]);
      assert (front + back)[..|front + back| - 1] == front + back[..n];
      assert (front + back)[|front + back| - 1] == back[n];
    }
  }

  // ---------- UTF-8 ----------

  predicate Continuation(c: byte) {
    0x80 <= c as int <= 0xBF
  }

  /** The length of the well-formed UTF-8 character at the front, or 0 (RFC 3629 section 4). */
  function Utf8Width(s: bytes): (n: nat)
    ensures n <= |s|
  {
    if s == [] then 0
    else
      var a := s[0] as int;
      if a <= 0x7F then 1
      else if 0xC2 <= a <= 0xDF then
        if |s| >= 2 && Continuation(s[1]) then 2 else 0
      else if 0xE0 <= a <= 0xEF then
        if && |s| >= 3 && Continuation(s[1]) && Continuation(s[2])
           && (a == 0xE0 ==> s[1] as int >= 0xA0) && (a == 0xED ==> s[1] as int <= 0x9F) then 3 else 0
      else if 0xF0 <= a <= 0xF4 then
        if && |s| >= 4 && Continuation(s[1]) && Continuation(s[2]) && Continuation(s[3])
           && (a == 0xF0 ==> s[1] as int >= 0x90) && (a == 0xF4 ==> s[1] as int <= 0x8F) then 4 else 0
      else 0
  }

  /** The bytes decode as UTF-8. */
  predicate ValidUtf8(s: bytes) {
    s == [] || (Utf8Width(s) > 0 && ValidUtf8(s[Utf8Width(s)..]))
  }
}
