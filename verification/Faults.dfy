/**
 The other two answers of the request parser, over the grammar of module Resp: which buffers are the
 beginning of a request and no more, and which show a fault, and which fault that is.
 */
module Faults {
  import opened Wrappers
  import opened Bytes
  import opened Decimal
  import opened Resp

  /** The text holds no CRLF. */
  ghost predicate Unended(text: bytes) {
    forall i: nat :: !CrlfAt(text, i)
  }

  /** The text is a line, its CRLF, which is the first in the text, and more. */
  ghost predicate Splits(text: bytes, line: bytes, rest: bytes) {
    text == line + CRLF + rest && forall i: nat :: i < |line| ==> !CrlfAt(text, i)
  }

  // ---------- the faults ----------

  /** Of a number line: no text at all, or a text that spells no integer. */
  ghost predicate LineFault(text: bytes, context: Context, e: ProtocolError) {
    exists line, rest ::
      Splits(text, line, rest) &&
      if line == [] then e == EmptyNumber(context)
      else e == InvalidNumber(context) && forall n :: !SpellsInteger(line, n)
  }

  /** The text starts with a number line for n. */
  ghost predicate NumberThen(text: bytes, n: int, rest: bytes) {
    exists line :: Splits(text, line, rest) && line != [] && SpellsInteger(line, n)
  }

  /** What may follow the good parts of a request that is not yet complete: the beginning of a part. */
  ghost predicate PartBegun(text: bytes) {
    text == [] ||
    (text[0] == '$' &&
     (Unended(text[1..]) || exists n, rest :: NumberThen(text[1..], n, rest) && 0 <= n && |rest| < n + 2))
  }

  /** The fault of a part, found in this order. */
  ghost predicate PartFault(text: bytes, e: ProtocolError) {
    text != [] &&
    if text[0] != '$' then e == ExpectedBulk
    else
      LineFault(text[1..], BulkLength, e) ||
      exists n, rest :: NumberThen(text[1..], n, rest) && DataFault(rest, n, e)
  }

  /** The fault of the data behind a header that announced n bytes. */
  predicate DataFault(rest: bytes, n: int, e: ProtocolError) {
    if n < 0 then e == NullBulk
    else
      n + 2 <= |rest| &&
      if rest[n..n + 2] != "\r\n" then e == MissingCrlf else e == InvalidUtf8 && !ValidUtf8(rest[..n])
  }

  /** A header for count parts, fewer good parts than that, and a tail. */
  ghost predicate GoodUpTo(raw: bytes, tail: bytes) {
    raw != [] && raw[0] == '*' &&
    exists count, rest, good, parts ::
      NumberThen(raw[1..], count, rest) && |parts| < count && rest == good + tail && PartsText(good, parts)
  }

  /** The buffer is the beginning of a request. */
  ghost predicate Begun(raw: bytes) {
    || raw == []
    || (raw[0] == '*' && Unended(raw[1..]))
    || exists tail :: GoodUpTo(raw, tail) && PartBegun(tail)
  }

  /** The first fault in the buffer. */
  ghost predicate FirstFault(raw: bytes, e: ProtocolError) {
    raw != [] &&
    if raw[0] != '*' then e == ExpectedArray
    else
      || LineFault(raw[1..], ArrayLength, e)
      || (e == EmptyArray && exists count, rest :: NumberThen(raw[1..], count, rest) && count <= 0)
      || exists tail :: GoodUpTo(raw, tail) && PartFault(tail, e)
  }

  // ---------- number lines ----------

  lemma CrlfShift(raw: bytes, start: nat, i: nat)
    requires start <= |raw|
    ensures CrlfAt(raw[start..], i) <==> CrlfAt(raw, start + i)
  {
  }

  lemma UnendedIff(raw: bytes, start: nat)
    requires start <= |raw|
    ensures Unended(raw[start..]) <==> FindCrlf(raw, start).None?
  {
    forall i: nat ensures CrlfAt(raw[start..], i) <==> CrlfAt(raw, start + i) {
      CrlfShift(raw, start, i);
    }
    if FindCrlf(raw, start).Some? {
      assert CrlfAt(raw[start..], FindCrlf(raw, start).value - start);
    }
  }

  /** The line that bytes.find finds is the only one the text starts with. */
  lemma SplitsIff(raw: bytes, start: nat, line: bytes, rest: bytes)
    requires start <= |raw|
    ensures Splits(raw[start..], line, rest) <==>
            FindCrlf(raw, start) == Some(start + |line|) && raw[start..start + |line|] == line &&
            raw[start + |line| + 2..] == rest
  {
    var text, end := raw[start..], start + |line|;
    if Splits(text, line, rest) {
      assert text[|line|] == '\r' && text[|line| + 1] == '\n';
      CrlfShift(raw, start, |line|);
      forall i: nat | start <= i < end ensures !CrlfAt(raw, i) {
        CrlfShift(raw, start, i - start);
      }
      assert raw[start..end] == text[..|line|] && raw[end + 2..] == text[|line| + 2..];
    }
    if FindCrlf(raw, start) == Some(end) && raw[start..end] == line && raw[end + 2..] == rest {
      CrlfSlice(raw, end);
      assert text == raw[start..end] + raw[end..end + 2] + raw[end + 2..];
      forall i: nat | i < |line| ensures !CrlfAt(text, i) {
        CrlfShift(raw, start, i);
      }
    }
  }

  lemma ReadsLine(line: bytes)
    ensures forall n :: ReadInt(line) == Some(n) <==> SpellsInteger(line, n)
  {
    forall n ensures ReadInt(line) == Some(n) <==> SpellsInteger(line, n) {
      ReadsExactlyTheIntegers(line, n);
    }
  }

  lemma LineFaultIff(raw: bytes, start: nat, context: Context, e: ProtocolError)
    requires start <= |raw|
    ensures ReadNumberLine(raw, start, context) == BadLine(e) <==> LineFault(raw[start..], context, e)
  {
    hide ReadInt, SpellsInteger, Splits;
    var end := FindCrlf(raw, start);
    if end.Some? {
      var line, rest := raw[start..end.value], raw[end.value + 2..];
      SplitsIff(raw, start, line, rest);
      ReadsLine(line);
    }
    if LineFault(raw[start..], context, e) {
      var line, rest :| Splits(raw[start..], line, rest) &&
        if line == [] then e == EmptyNumber(context)
        else e == InvalidNumber(context) && forall n :: !SpellsInteger(line, n);
      SplitsIff(raw, start, line, rest);
    }
  }

  lemma NumberThenIff(raw: bytes, start: nat, context: Context, n: int, rest: bytes)
    requires start <= |raw|
    ensures var r := ReadNumberLine(raw, start, context);
            NumberThen(raw[start..], n, rest) <==> r.Number? && r.value == n && raw[r.next..] == rest
  {
    hide ReadInt, SpellsInteger, Splits;
    var end := FindCrlf(raw, start);
    if end.Some? {
      var line := raw[start..end.value];
      SplitsIff(raw, start, line, raw[end.value + 2..]);
      ReadsLine(line);
    }
    if NumberThen(raw[start..], n, rest) {
      var line :| Splits(raw[start..], line, rest) && line != [] && SpellsInteger(line, n);
      SplitsIff(raw, start, line, rest);
    }
  }

  // ---------- parts ----------

  lemma PartBegunIff(raw: bytes, idx: nat)
    requires idx <= |raw|
    ensures ReadPart(raw, idx).NoPart? <==> PartBegun(raw[idx..])
  {
    hide ValidUtf8, ReadNumberLine, FindCrlf, Unended, NumberThen;
    var tail := raw[idx..];
    if tail != [] && tail[0] == '$' {
      assert tail[1..] == raw[idx + 1..];
      UnendedIff(raw, idx + 1);
      NoLineIff(raw, idx + 1, BulkLength);
      var line := ReadNumberLine(raw, idx + 1, BulkLength);
      if line.Number? {
        NumberThenIff(raw, idx + 1, BulkLength, line.value, raw[line.next..]);
      }
      forall n, rest | NumberThen(tail[1..], n, rest)
        ensures line.Number? && line.value == n && raw[line.next..] == rest
      {
        NumberThenIff(raw, idx + 1, BulkLength, n, rest);
      }
    }
  }

  lemma NoLineIff(raw: bytes, start: nat, context: Context)
    ensures ReadNumberLine(raw, start, context).NoLine? <==> FindCrlf(raw, start).None?
  {
  }

  lemma PartFaultIff(raw: bytes, idx: nat, e: ProtocolError)
    requires idx <= |raw|
    ensures ReadPart(raw, idx) == BadPart(e) <==> PartFault(raw[idx..], e)
  {
    hide ValidUtf8, ReadNumberLine, FindCrlf, LineFault, NumberThen;
    var tail := raw[idx..];
    if tail != [] && tail[0] == '$' {
      assert tail[1..] == raw[idx + 1..];
      LineFaultIff(raw, idx + 1, BulkLength, e);
      var line := ReadNumberLine(raw, idx + 1, BulkLength);
      if line.Number? {
        NumberThenIff(raw, idx + 1, BulkLength, line.value, raw[line.next..]);
        DataFaultIff(raw, line.next, line.value, e);
      }
      forall n, rest | NumberThen(tail[1..], n, rest)
        ensures line.Number? && line.value == n && raw[line.next..] == rest
      {
        NumberThenIff(raw, idx + 1, BulkLength, n, rest);
      }
    }
  }

  /** What the parser finds wrong with the data behind a header. */
  lemma DataFaultIff(raw: bytes, start: nat, n: int, e: ProtocolError)
    requires start <= |raw|
    ensures DataFault(raw[start..], n, e) <==>
            if n < 0 then e == NullBulk
            else
              start + n + 2 <= |raw| &&
              if !CrlfAt(raw, start + n) then e == MissingCrlf
              else e == InvalidUtf8 && !ValidUtf8(raw[start..start + n])
  {
    hide ValidUtf8;
    if 0 <= n && start + n + 2 <= |raw| {
      CrlfSlice(raw, start + n);
      assert raw[start..][n..n + 2] == raw[start + n..start + n + 2];
      assert raw[start..][..n] == raw[start..start + n];
    }
  }

  // ---------- the whole buffer ----------

  /** Behind good parts the parser is where it would be had it started there with that many parts fewer. */
  lemma {:induction false} GoodPartsAreRead(raw: bytes, idx: nat, good: bytes, parts: seq<bytes>, count: nat,
                                            done: seq<bytes>)
    requires Has(raw, idx, good) && PartsText(good, parts) && |parts| < count
    ensures ReadParts(raw, idx, count, done) == ReadParts(raw, idx + |good|, count - |parts|, done + parts)
    decreases |parts|
  {
    hide ReadPart, ValidUtf8, Spells, PartText;
    if parts == [] {
      assert done + parts == done;
    } else {
      var size, rest :|
        good == PartText(size, parts[0]) + rest && Spells(size, |parts[0]|) && PartsText(rest, parts[1..]);
      HasBoth(raw, idx, PartText(size, parts[0]), rest);
      ReadSpelledPart(raw, idx, size, parts[0]);
      GoodPartsAreRead(raw, idx + |PartText(size, parts[0])|, rest, parts[1..], count - 1, done + [parts[0]]);
      assert (done + [parts[0]]) + parts[1..] == done + parts;
    }
  }

  /** Where the parser stops, good parts lie behind it, and it has no part in front. */
  lemma {:induction false} StopsBehindGoodParts(raw: bytes, idx: nat, count: nat, done: seq<bytes>)
    returns (good: bytes, parts: seq<bytes>)
    requires |done| + count > 0 && idx <= |raw| && !ReadParts(raw, idx, count, done).Parsed?
    ensures Has(raw, idx, good) && PartsText(good, parts) && |parts| < count
    ensures ReadParts(raw, idx, count, done) ==
            match ReadPart(raw, idx + |good|)
            case NoPart => Incomplete
            case BadPart(e) => Malformed(e)
            case Part(_, _) => Incomplete
    ensures !ReadPart(raw, idx + |good|).Part?
    decreases count
  {
    hide ReadPart, ValidUtf8, Spells, PartText;
    var part := ReadPart(raw, idx);
    if !part.Part? {
      good, parts := [], [];
    } else {
      var size := PartIsSpelled(raw, idx);
      var rest, others := StopsBehindGoodParts(raw, part.next, count - 1, done + [part.text]);
      good, parts := raw[idx..part.next] + rest, [part.text] + others;
      assert good == PartText(size, part.text) + rest && parts[1..] == others;
      HasBoth(raw, idx, raw[idx..part.next], rest);
    }
  }

  /** The answer of the parser if it gets no further than position idx. */
  function StopAt(raw: bytes, idx: nat): Outcome {
    match ReadPart(raw, idx)
    case BadPart(e) => Malformed(e)
    case _ => Incomplete
  }

  lemma HeaderIff(raw: bytes, count: int, rest: bytes)
    requires raw != []
    ensures var r := ReadNumberLine(raw, 1, ArrayLength);
            NumberThen(raw[1..], count, rest) <==> r.Number? && r.value == count && raw[r.next..] == rest
  {
    hide ReadNumberLine, NumberThen;
    NumberThenIff(raw, 1, ArrayLength, count, rest);
  }

  lemma ParseBehindHeader(raw: bytes, count: int, next: nat)
    requires raw != [] && raw[0] == '*' && ReadNumberLine(raw, 1, ArrayLength) == Number(count, next) && count > 0
    ensures next <= |raw| && Parse(raw) == ReadParts(raw, next, count, [])
  {
    hide ReadPart, FindCrlf, ReadInt;
  }

  lemma ReadPartsStops(raw: bytes, idx: nat, count: nat, done: seq<bytes>)
    requires count > 0 && idx <= |raw| && !ReadPart(raw, idx).Part?
    ensures ReadParts(raw, idx, count, done) == StopAt(raw, idx)
  {
    hide ReadPart;
  }

  lemma GoodUpToIsRead(raw: bytes, tail: bytes)
    requires GoodUpTo(raw, tail)
    ensures |tail| <= |raw| && tail == raw[|raw| - |tail|..]
    ensures !ReadPart(raw, |raw| - |tail|).Part? ==> Parse(raw) == StopAt(raw, |raw| - |tail|)
  {
    hide ReadPart, ReadNumberLine, ReadParts, Parse, NumberThen, PartsText, StopAt;
    var count, rest, good, parts :|
      NumberThen(raw[1..], count, rest) && |parts| < count && rest == good + tail && PartsText(good, parts);
    HeaderIff(raw, count, rest);
    var next := ReadNumberLine(raw, 1, ArrayLength).next;
    ParseBehindHeader(raw, count, next);
    assert Has(raw, next, good) by { assert raw[next..next + |good|] == rest[..|good|]; }
    GoodPartsAreRead(raw, next, good, parts, count, []);
    var idx := |raw| - |tail|;
    assert next + |good| == idx && raw[idx..] == rest[|good|..];
    if !ReadPart(raw, idx).Part? {
      ReadPartsStops(raw, idx, count - |parts|, [] + parts);
    }
  }

  lemma StopsAtGoodUpTo(raw: bytes, count: int, next: nat) returns (tail: bytes)
    requires raw != [] && raw[0] == '*' && ReadNumberLine(raw, 1, ArrayLength) == Number(count, next) && count > 0
    requires !Parse(raw).Parsed?
    ensures GoodUpTo(raw, tail) && |tail| <= |raw| && tail == raw[|raw| - |tail|..]
    ensures !ReadPart(raw, |raw| - |tail|).Part? && Parse(raw) == StopAt(raw, |raw| - |tail|)
  {
    hide ReadPart, ReadNumberLine, ReadParts, Parse, NumberThen, PartsText;
    ParseBehindHeader(raw, count, next);
    var good, parts := StopsBehindGoodParts(raw, next, count, []);
    tail := raw[next + |good|..];
    HeaderIff(raw, count, raw[next..]);
    assert raw[next..] == raw[next..next + |good|] + tail;
    assert NumberThen(raw[1..], count, raw[next..]) && raw[next..] == good + tail;
  }

  /** The parser waits for more bytes exactly if the buffer is the beginning of a request. */
  lemma IncompleteIffBegun(raw: bytes)
    ensures Parse(raw).Incomplete? <==> Begun(raw)
  {
    hide ReadPart, ReadNumberLine, FindCrlf, GoodUpTo, PartBegun, Unended;
    if raw != [] && raw[0] == '*' {
      UnendedIff(raw, 1);
      NoLineIff(raw, 1, ArrayLength);
      forall tail | GoodUpTo(raw, tail) && PartBegun(tail) ensures Parse(raw).Incomplete? {
        GoodUpToIsRead(raw, tail);
        PartBegunIff(raw, |raw| - |tail|);
      }
      var line := ReadNumberLine(raw, 1, ArrayLength);
      if line.Number? && line.value > 0 && Parse(raw).Incomplete? {
        var tail := StopsAtGoodUpTo(raw, line.value, line.next);
        PartBegunIff(raw, |raw| - |tail|);
      }
    } else {
      forall tail ensures !GoodUpTo(raw, tail) {
        NothingGood(raw, tail);
      }
    }
  }

  lemma NothingGood(raw: bytes, tail: bytes)
    ensures GoodUpTo(raw, tail) ==> raw != [] && raw[0] == '*'
  {
  }

  /** The parser reports an error exactly if it is the first fault in the buffer. */
  lemma MalformedIffFirstFault(raw: bytes, e: ProtocolError)
    ensures Parse(raw) == Malformed(e) <==> FirstFault(raw, e)
  {
    hide ReadPart, ReadNumberLine, FindCrlf, GoodUpTo, PartFault, LineFault, NumberThen;
    if raw != [] && raw[0] == '*' {
      LineFaultIff(raw, 1, ArrayLength, e);
      var line := ReadNumberLine(raw, 1, ArrayLength);
      if line.Number? {
        HeaderIff(raw, line.value, raw[line.next..]);
      }
      forall count, rest | NumberThen(raw[1..], count, rest) ensures line.Number? && line.value == count {
        HeaderIff(raw, count, rest);
      }
      forall tail | GoodUpTo(raw, tail) && PartFault(tail, e) ensures Parse(raw) == Malformed(e) {
        GoodUpToIsRead(raw, tail);
        PartFaultIff(raw, |raw| - |tail|, e);
      }
      if line.Number? && line.value > 0 && Parse(raw) == Malformed(e) {
        var tail := StopsAtGoodUpTo(raw, line.value, line.next);
        PartFaultIff(raw, |raw| - |tail|, e);
      }
    }
  }
}
