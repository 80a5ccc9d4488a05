/**
 Requests on the wire: the incremental parser of src/protocol/resp_parser.py and the client's
 printer in scripts/demo_client.py.
 */
module Resp {
  import opened Wrappers
  import opened Bytes
  import opened Decimal

  datatype Command = Command(name: bytes, args: seq<bytes>)

  datatype Context = ArrayLength | BulkLength

  datatype ProtocolError =
    | EmptyNumber(context: Context)
    | InvalidNumber(context: Context)
    | ExpectedArray
    | EmptyArray
    | ExpectedBulk
    | NullBulk
    | MissingCrlf
    | InvalidUtf8

  function Message(e: ProtocolError): bytes {
    match e
    case EmptyNumber(context) => "empty " + ContextName(context)
    case InvalidNumber(context) => "invalid " + ContextName(context)
    case ExpectedArray => "expected RESP array"
    case EmptyArray => "array length must be greater than zero"
    case ExpectedBulk => "expected bulk string"
    case NullBulk => "null bulk string is not allowed in request"
    case MissingCrlf => "missing CRLF after bulk string data"
    case InvalidUtf8 => "request contains invalid UTF-8"
  }

  function ContextName(context: Context): bytes {
    if context.ArrayLength? then "array length" else "bulk string length"
  }

  /** NeedMoreData, a protocol error, or a command and the bytes it took. */
  datatype Outcome = Parsed(command: Command, consumed: nat) | Incomplete | Malformed(error: ProtocolError)

  datatype NumberLine = Number(value: int, next: nat) | NoLine | BadLine(error: ProtocolError)

  // ---------- the parser as a function ----------

  /** _read_number_line */
  function ReadNumberLine(raw: bytes, start: nat, context: Context): (r: NumberLine)
    ensures r.Number? ==> start + 2 < r.next <= |raw|
  {
    var end := FindCrlf(raw, start);
    if end.None? then NoLine
    else if end.value == start then BadLine(EmptyNumber(context))
    else
      var number := ReadInt(raw[start..end.value]);
      if number.None? then BadLine(InvalidNumber(context)) else Number(number.value, end.value + 2)
  }

  /** One bulk string: its bytes and where the next one starts, or why there is none yet. */
  datatype Part = Part(text: bytes, next: nat) | NoPart | BadPart(error: ProtocolError)

  function ReadPart(raw: bytes, idx: nat): (r: Part)
    ensures r.Part? ==> idx < r.next <= |raw|
  {
    if idx >= |raw| then NoPart
    else if raw[idx] != '$' then BadPart(ExpectedBulk)
    else
      match ReadNumberLine(raw, idx + 1, BulkLength)
      case NoLine => NoPart
      case BadLine(error) => BadPart(error)
      case Number(length, start) =>
        if length < 0 then BadPart(NullBulk)
        else if |raw| < start + length + 2 then NoPart
        else if !CrlfAt(raw, start + length) then BadPart(MissingCrlf)
        else if !ValidUtf8(raw[start..start + length]) then BadPart(InvalidUtf8)
        else Part(raw[start..start + length], start + length + 2)
  }

  function ReadParts(raw: bytes, idx: nat, count: nat, parts: seq<bytes>): (r: Outcome)
    requires |parts| + count > 0
    requires idx <= |raw|
    ensures r.Parsed? ==> idx <= r.consumed <= |raw|
    decreases count
  {
    if count == 0 then Parsed(Command(parts[0], parts[1..]), idx)
    else
      match ReadPart(raw, idx)
      case NoPart => Incomplete
      case BadPart(error) => Malformed(error)
      case Part(text, next) => ReadParts(raw, next, count - 1, parts + [text])
  }

  /** parse_one */
  function Parse(raw: bytes): (r: Outcome)
    ensures r.Parsed? ==> 0 < r.consumed <= |raw|
  {
    if raw == [] then Incomplete
    else if raw[0] != '*' then Malformed(ExpectedArray)
    else
      match ReadNumberLine(raw, 1, ArrayLength)
      case NoLine => Incomplete
      case BadLine(error) => Malformed(error)
      case Number(count, start) =>
        if count <= 0 then Malformed(EmptyArray)
        else ReadParts(raw, start, count, [])
  }

  // ---------- the parser as the loop it is ----------

  /** Take one bulk string from the buffer. */
  method TakePart(raw: bytes, begin: nat) returns (r: Part)
    ensures r == ReadPart(raw, begin)
  {
    hide ValidUtf8, ReadInt, FindCrlf;
    var idx := begin;
    if idx >= |raw| {
      return NoPart;
    }
    if raw[idx] != '$' {
      return BadPart(ExpectedBulk);
    }
    idx := idx + 1;
    var line := ReadNumberLine(raw, idx, BulkLength);
    if line.NoLine? {
      return NoPart;
    }
    if line.BadLine? {
      return BadPart(line.error);
    }
    var length := line.value;
    idx := line.next;
    if length < 0 {
      return BadPart(NullBulk);
    }
    if |raw| < idx + length + 2 {
      return NoPart;
    }
    var text := raw[idx..idx + length];
    idx := idx + length;
    CrlfSlice(raw, idx);
    if raw[idx..idx + 2] != CRLF {
      return BadPart(MissingCrlf);
    }
    idx := idx + 2;
    if !ValidUtf8(text) {
      return BadPart(InvalidUtf8);
    }
    r := Part(text, idx);
  }

  /** Parse one command from the front of the buffer. */
  method ParseOne(raw: bytes) returns (r: Outcome)
    ensures r == Parse(raw)
  {
    hide ReadPart, ReadInt, FindCrlf;
    if raw == [] {
      return Incomplete;
    }
    if raw[0] != '*' {
      return Malformed(ExpectedArray);
    }
    var line := ReadNumberLine(raw, 1, ArrayLength);
    if line.NoLine? {
      return Incomplete;
    }
    if line.BadLine? {
      return Malformed(line.error);
    }
    var count: int, idx: nat := line.value, line.next;
    if count <= 0 {
      return Malformed(EmptyArray);
    }
    var parts: seq<bytes> := [];
    var done := 0;
    while done < count
      invariant 0 <= done <= count && |parts| == done && idx <= |raw|
      invariant Parse(raw) == ReadParts(raw, idx, count - done, parts)
    {
      var part := TakePart(raw, idx);
      match part {
        case NoPart => return Incomplete;
        case BadPart(error) => return Malformed(error);
        case Part(text, next) =>
          idx := next;
          parts := parts + [text];
      }
      done := done + 1;
    }
    r := Parsed(Command(parts[0], parts[1..]), idx);
  }

  // ---------- the client's printer ----------

  function EncodePart(part: bytes): bytes {
    "$" + Str(|part|) + CRLF + part + CRLF
  }

  function EncodeParts(parts: seq<bytes>): bytes {
    if parts == [] then [] else EncodePart(parts[0]) + EncodeParts(parts[1..])
  }

  function Encode(parts: seq<bytes>): bytes {
    "*" + Str(|parts|) + CRLF + EncodeParts(parts)
  }

  /** encode_command: a list of chunks, joined at the end. */
  method EncodeCommand(parts: seq<bytes>) returns (raw: bytes)
    ensures raw == Encode(parts)
  {
    var chunks := ["*" + Str(|parts|) + CRLF];
    assert Join(chunks[..0]) == [];
    for i := 0 to |parts|
      invariant Join(chunks) + EncodeParts(parts[i..]) == Encode(parts)
    {
      PrintOne(chunks, parts[i..]);
      chunks := chunks + ["$" + Str(|parts[i]|) + CRLF];
      chunks := chunks + [parts[i] + CRLF];
      assert parts[i..][1..] == parts[i + 1..];
    }
    raw := Join(chunks);
  }

  lemma JoinSnoc(chunks: seq<bytes>, chunk: bytes)
    ensures Join(chunks + [chunk]) == Join(chunks) + chunk
  {
    assert (chunks + [chunk])[..|chunks|] == chunks;
  }

  lemma PrintOne(chunks: seq<bytes>, todo: seq<bytes>)
    requires todo != []
    ensures var more := chunks + ["$" + Str(|todo[0]|) + CRLF] + [todo[0] + CRLF];
            Join(more) + EncodeParts(todo[1..]) == Join(chunks) + EncodeParts(todo)
  {
    var a, b, rest := "$" + Str(|todo[0]|) + CRLF, todo[0] + CRLF, EncodeParts(todo[1..]);
    assert EncodeParts(todo) == (a + b) + rest by {
      hide Str;
      assert EncodePart(todo[0]) == a + b;
    }
    hide Join, Str, EncodeParts;
    JoinSnoc(chunks, a);
    JoinSnoc(chunks + [a], b);
    var front := Join(chunks);
    assert ((front + a) + b) + rest == front + ((a + b) + rest);
  }

  // ---------- stability under more bytes ----------

  lemma FindCrlfStable(raw: bytes, more: bytes, start: nat)
    requires FindCrlf(raw, start).Some?
    ensures FindCrlf(raw + more, start) == FindCrlf(raw, start)
  {
    var i := FindCrlf(raw, start).value;
    assert CrlfAt(raw + more, i);
    forall j: nat | start <= j < i ensures !CrlfAt(raw + more, j) {
      assert !CrlfAt(raw, j);
    }
  }

  lemma ReadPartStable(raw: bytes, more: bytes, idx: nat)
    requires !ReadPart(raw, idx).NoPart?
    ensures ReadPart(raw + more, idx) == ReadPart(raw, idx)
  {
    hide ValidUtf8, ReadInt;
    if raw[idx] == '$' {
      FindCrlfStable(raw, more, idx + 1);
      var end := FindCrlf(raw, idx + 1).value;
      assert (raw + more)[idx + 1..end] == raw[idx + 1..end];
      var line := ReadNumberLine(raw, idx + 1, BulkLength);
      if line.Number? && line.value >= 0 {
        assert (raw + more)[line.next..line.next + line.value] == raw[line.next..line.next + line.value];
      }
    }
  }

  lemma {:induction false} ReadPartsStable(raw: bytes, more: bytes, idx: nat, count: nat, parts: seq<bytes>)
    requires |parts| + count > 0 && idx <= |raw|
    requires !ReadParts(raw, idx, count, parts).Incomplete?
    ensures ReadParts(raw + more, idx, count, parts) == ReadParts(raw, idx, count, parts)
    decreases count
  {
    hide ReadPart;
    if count > 0 {
      ReadPartStable(raw, more, idx);
      var part := ReadPart(raw, idx);
      if part.Part? {
        ReadPartsStable(raw, more, part.next, count - 1, parts + [part.text]);
      }
    }
  }

  /** A verdict on a buffer is final: more bytes never change a command or an error. */
  lemma VerdictsAreFinal(raw: bytes, more: bytes)
    requires !Parse(raw).Incomplete?
    ensures Parse(raw + more) == Parse(raw)
  {
    if raw[0] == '*' {
      FindCrlfStable(raw, more, 1);
      var end := FindCrlf(raw, 1).value;
      assert (raw + more)[1..end] == raw[1..end];
      var line := ReadNumberLine(raw, 1, ArrayLength);
      if line.Number? && line.value > 0 {
        ReadPartsStable(raw, more, line.next, line.value, []);
      }
    }
  }

  // ---------- only the consumed bytes matter ----------

  lemma FindCrlfWithin(raw: bytes, n: nat, start: nat)
    requires n <= |raw| && FindCrlf(raw, start).Some? && FindCrlf(raw, start).value + 2 <= n
    ensures FindCrlf(raw[..n], start) == FindCrlf(raw, start)
  {
    var i := FindCrlf(raw, start).value;
    assert CrlfAt(raw[..n], i);
    forall j: nat | start <= j < i ensures !CrlfAt(raw[..n], j) {
      assert !CrlfAt(raw, j);
    }
  }

  lemma ReadPartWithin(raw: bytes, n: nat, idx: nat)
    requires ReadPart(raw, idx).Part? && ReadPart(raw, idx).next <= n <= |raw|
    ensures ReadPart(raw[..n], idx) == ReadPart(raw, idx)
  {
    hide ValidUtf8, ReadPart, ReadNumberLine;
    var part := ReadPart(raw, idx);
    var line := PartIsFramed(raw, idx);
    NumberLineWithin(raw, n, idx + 1, BulkLength);
    assert raw[idx] == raw[idx..idx + 1][0];
    assert raw[..n][line.next..part.next] == raw[line.next..part.next];
    HasBoth(raw[..n], line.next, part.text, CRLF);
    HasCrlf(raw[..n], line.next + line.value);
    FramedPartIsRead(raw[..n], idx, line.next, part.text);
  }

  lemma NumberLineWithin(raw: bytes, n: nat, start: nat, context: Context)
    requires ReadNumberLine(raw, start, context).Number? && ReadNumberLine(raw, start, context).next <= n <= |raw|
    ensures ReadNumberLine(raw[..n], start, context) == ReadNumberLine(raw, start, context)
  {
    hide ReadInt;
    FindCrlfWithin(raw, n, start);
    var end := FindCrlf(raw, start).value;
    assert raw[..n][start..end] == raw[start..end];
  }

  lemma {:induction false} ReadPartsWithin(raw: bytes, idx: nat, count: nat, parts: seq<bytes>)
    requires |parts| + count > 0 && idx <= |raw|
    requires ReadParts(raw, idx, count, parts).Parsed?
    ensures var r := ReadParts(raw, idx, count, parts);
            ReadParts(raw[..r.consumed], idx, count, parts) == r
    decreases count
  {
    hide ReadPart;
    if count > 0 {
      var part := ReadPart(raw, idx);
      ReadPartsWithin(raw, part.next, count - 1, parts + [part.text]);
      ReadPartWithin(raw, ReadParts(raw, idx, count, parts).consumed, idx);
    }
  }

  /** Commands are self-delimiting: the consumed bytes are enough, and no fewer are. */
  lemma CommandsAreSelfDelimiting(raw: bytes)
    requires Parse(raw).Parsed?
    ensures Parse(raw[..Parse(raw).consumed]) == Parse(raw)
    ensures forall m: nat :: m < Parse(raw).consumed ==> Parse(raw[..m]).Incomplete?
  {
    hide ValidUtf8, ReadInt, ReadPart;
    var n := Parse(raw).consumed;
    var line := ReadNumberLine(raw, 1, ArrayLength);
    FindCrlfWithin(raw, n, 1);
    var end := FindCrlf(raw, 1).value;
    assert raw[..n][1..end] == raw[1..end];
    ReadPartsWithin(raw, line.next, line.value, []);
    forall m: nat | m < n ensures Parse(raw[..m]).Incomplete? {
      if !Parse(raw[..m]).Incomplete? {
        assert raw[..m] + raw[m..] == raw;
        VerdictsAreFinal(raw[..m], raw[m..]);
      }
    }
  }

  // ---------- what is accepted ----------

  /** On a line of its own, t is read as n. */
  ghost predicate Spells(t: bytes, n: int) {
    t != [] && ReadInt(t) == Some(n) && FindCrlf(t + CRLF, 0) == Some(|t|)
  }

  function PartText(size: bytes, part: bytes): bytes {
    "$" + (size + CRLF) + (part + CRLF)
  }

  /** The text consists of these parts, each behind some spelling of its length. */
  ghost predicate PartsText(text: bytes, parts: seq<bytes>)
    decreases |parts|
  {
    if parts == [] then text == []
    else
      ValidUtf8(parts[0]) &&
      exists size, rest ::
        text == PartText(size, parts[0]) + rest && Spells(size, |parts[0]|) && PartsText(rest, parts[1..])
  }

  /** The grammar of requests: an array header and at least one part. */
  ghost predicate RequestText(text: bytes, parts: seq<bytes>) {
    parts != [] &&
    exists count, body :: text == "*" + (count + CRLF) + body && Spells(count, |parts|) && PartsText(body, parts)
  }

  lemma ReadSpelledNumber(raw: bytes, start: nat, t: bytes, n: int, context: Context)
    requires Has(raw, start, t + CRLF) && Spells(t, n)
    ensures ReadNumberLine(raw, start, context) == Number(n, start + |t| + 2)
  {
    hide ReadInt;
    var line := t + CRLF;
    HasBoth(raw, start, t, CRLF);
    HasCrlf(raw, start + |t|);
    forall i: nat | start <= i < start + |t| ensures !CrlfAt(raw, i) {
      assert !CrlfAt(line, i - start);
      assert raw[i] == raw[start..start + |line|][i - start] && raw[i + 1] == raw[start..start + |line|][i + 1 - start];
    }
  }

  lemma NumberIsSpelled(raw: bytes, start: nat, context: Context)
    requires ReadNumberLine(raw, start, context).Number?
    ensures var line := ReadNumberLine(raw, start, context);
            var t := raw[start..line.next - 2];
            Spells(t, line.value) && raw[start..line.next] == t + CRLF
  {
    hide ReadInt;
    var line := ReadNumberLine(raw, start, context);
    var end := line.next - 2;
    var t := raw[start..end];
    assert CrlfAt(raw, end);
    assert raw[start..line.next] == t + CRLF;
    assert CrlfAt(t + CRLF, |t|);
    forall i: nat | i < |t| ensures !CrlfAt(t + CRLF, i) {
      assert !CrlfAt(raw, start + i);
      assert (t + CRLF)[i] == raw[start + i] && (t + CRLF)[i + 1] == raw[start + i + 1];
    }
  }

  lemma FramedPartIsRead(raw: bytes, idx: nat, start: nat, part: bytes)
    requires idx < |raw| && raw[idx] == '$' && ValidUtf8(part)
    requires ReadNumberLine(raw, idx + 1, BulkLength) == Number(|part|, start)
    requires Has(raw, start, part) && CrlfAt(raw, start + |part|)
    ensures ReadPart(raw, idx) == Part(part, start + |part| + 2)
  {
    hide ValidUtf8, ReadNumberLine;
  }

  lemma ReadSpelledPart(raw: bytes, idx: nat, size: bytes, part: bytes)
    requires ValidUtf8(part) && Spells(size, |part|) && Has(raw, idx, PartText(size, part))
    ensures ReadPart(raw, idx) == Part(part, idx + |PartText(size, part)|)
  {
    hide ValidUtf8, ReadInt, FindCrlf, ReadPart, ReadNumberLine, Spells;
    var start := idx + 1 + |size| + 2;
    HasBoth(raw, idx, "$" + (size + CRLF), part + CRLF);
    HasBoth(raw, idx, "$", size + CRLF);
    HasBoth(raw, start, part, CRLF);
    assert raw[idx] == raw[idx..idx + 1][0];
    ReadSpelledNumber(raw, idx + 1, size, |part|, BulkLength);
    HasCrlf(raw, start + |part|);
    FramedPartIsRead(raw, idx, start, part);
  }

  lemma PartIsFramed(raw: bytes, idx: nat) returns (line: NumberLine)
    requires ReadPart(raw, idx).Part?
    ensures line == ReadNumberLine(raw, idx + 1, BulkLength) && line.Number? && raw[idx..idx + 1] == "$"
    ensures var part := ReadPart(raw, idx);
            line.value == |part.text| && part.next == line.next + line.value + 2 &&
            ValidUtf8(part.text) && raw[line.next..part.next] == part.text + CRLF
  {
    hide ValidUtf8, ReadNumberLine;
    line := ReadNumberLine(raw, idx + 1, BulkLength);
    var part := ReadPart(raw, idx);
    assert CrlfAt(raw, line.next + line.value);
    assert raw[line.next..part.next] == raw[line.next..line.next + line.value] + CRLF;
  }

  lemma PartIsSpelled(raw: bytes, idx: nat) returns (size: bytes)
    requires ReadPart(raw, idx).Part?
    ensures var part := ReadPart(raw, idx);
            ValidUtf8(part.text) && Spells(size, |part.text|) && raw[idx..part.next] == PartText(size, part.text)
  {
    hide ValidUtf8, ReadPart, ReadNumberLine, Spells;
    var part := ReadPart(raw, idx);
    var line := PartIsFramed(raw, idx);
    NumberIsSpelled(raw, idx + 1, BulkLength);
    size := raw[idx + 1..line.next - 2];
    assert raw[idx..part.next] == raw[idx..idx + 1] + raw[idx + 1..line.next] + raw[line.next..part.next];
  }

  lemma {:induction false} ReadSpelledParts(raw: bytes, idx: nat, text: bytes, todo: seq<bytes>, done: seq<bytes>)
    requires done + todo != [] && Has(raw, idx, text) && PartsText(text, todo)
    ensures var all := done + todo;
            ReadParts(raw, idx, |todo|, done) == Parsed(Command(all[0], all[1..]), idx + |text|)
    decreases |todo|
  {
    hide ReadPart, ValidUtf8, Spells, PartText;
    if todo == [] {
      assert done + todo == done;
    } else {
      var size, rest :| text == PartText(size, todo[0]) + rest && Spells(size, |todo[0]|) && PartsText(rest, todo[1..]);
      HasBoth(raw, idx, PartText(size, todo[0]), rest);
      ReadSpelledPart(raw, idx, size, todo[0]);
      assert (done + [todo[0]]) + todo[1..] == done + todo;
      ReadSpelledParts(raw, idx + |PartText(size, todo[0])|, rest, todo[1..], done + [todo[0]]);
    }
  }

  lemma {:induction false} PartsAreSpelled(raw: bytes, idx: nat, count: nat, done: seq<bytes>)
    returns (todo: seq<bytes>)
    requires |done| + count > 0 && idx <= |raw|
    requires ReadParts(raw, idx, count, done).Parsed?
    ensures var r := ReadParts(raw, idx, count, done);
            |todo| == count && done + todo == [r.command.name] + r.command.args && PartsText(raw[idx..r.consumed], todo)
    decreases count
  {
    hide ReadPart, ValidUtf8, Spells, PartText;
    if count == 0 {
      todo := [];
      assert done + todo == done;
    } else {
      var part := ReadPart(raw, idx);
      var end := ReadParts(raw, idx, count, done).consumed;
      var size := PartIsSpelled(raw, idx);
      var others := PartsAreSpelled(raw, part.next, count - 1, done + [part.text]);
      todo := [part.text] + others;
      assert (done + [part.text]) + others == done + todo && todo[1..] == others;
      assert raw[idx..end] == raw[idx..part.next] + raw[part.next..end];
      assert raw[idx..end] == PartText(size, todo[0]) + raw[part.next..end];
    }
  }

  lemma GrammarIsAccepted(raw: bytes, text: bytes, parts: seq<bytes>)
    requires Has(raw, 0, text) && RequestText(text, parts)
    ensures Parse(raw) == Parsed(Command(parts[0], parts[1..]), |text|)
  {
    hide ReadPart, ReadParts, ReadNumberLine, Spells, PartsText;
    var count, body :| text == "*" + (count + CRLF) + body && Spells(count, |parts|) && PartsText(body, parts);
    HasBoth(raw, 0, "*" + (count + CRLF), body);
    HasBoth(raw, 0, "*", count + CRLF);
    assert raw[0] == raw[0..1][0];
    ReadSpelledNumber(raw, 1, count, |parts|, ArrayLength);
    assert [] + parts == parts;
    ReadSpelledParts(raw, 1 + |count| + 2, body, parts, []);
  }

  lemma AcceptedIsGrammar(raw: bytes)
    requires Parse(raw).Parsed?
    ensures var r := Parse(raw); RequestText(raw[..r.consumed], [r.command.name] + r.command.args)
  {
    hide ReadPart, ReadInt, FindCrlf, Spells, PartsText;
    var n := Parse(raw).consumed;
    var line := ReadNumberLine(raw, 1, ArrayLength);
    NumberIsSpelled(raw, 1, ArrayLength);
    var count := raw[1..line.next - 2];
    var todo := PartsAreSpelled(raw, line.next, line.value, []);
    assert [] + todo == todo;
    assert raw[..n] == raw[0..1] + raw[1..line.next] + raw[line.next..n];
    assert raw[..n] == "*" + (count + CRLF) + raw[line.next..n];
  }

  /** The parser accepts exactly the texts of the grammar, and returns their parts and length. */
  lemma AcceptsExactlyTheGrammar(raw: bytes, parts: seq<bytes>, n: nat)
    requires parts != [] && n <= |raw|
    ensures Parse(raw) == Parsed(Command(parts[0], parts[1..]), n) <==> RequestText(raw[..n], parts)
  {
    hide Parse, RequestText;
    if RequestText(raw[..n], parts) {
      assert Has(raw, 0, raw[..n]);
      GrammarIsAccepted(raw, raw[..n], parts);
    }
    if Parse(raw) == Parsed(Command(parts[0], parts[1..]), n) {
      AcceptedIsGrammar(raw);
      assert [parts[0]] + parts[1..] == parts;
    }
  }

  // ---------- round trip ----------

  lemma PrintedNumberSpells(n: int)
    ensures Spells(Str(n), n)
  {
    ReadIntOfStr(n);
    assert Has(Str(n) + CRLF, 0, Str(n));
    assert CrlfAt(Str(n) + CRLF, |Str(n)|);
    FindCrlfAfterLine(Str(n) + CRLF, 0, Str(n));
  }

  lemma {:induction false} PrintedPartsText(parts: seq<bytes>)
    requires forall p :: p in parts ==> ValidUtf8(p)
    ensures PartsText(EncodeParts(parts), parts)
    decreases |parts|
  {
    hide Spells, Str;
    if parts != [] {
      PrintedNumberSpells(|parts[0]|);
      PrintedPartsText(parts[1..]);
      assert EncodePart(parts[0]) == PartText(Str(|parts[0]|), parts[0]);
      assert parts[0] in parts;
    }
  }

  lemma PrintedRequestText(parts: seq<bytes>)
    requires parts != [] && forall p :: p in parts ==> ValidUtf8(p)
    ensures RequestText(Encode(parts), parts)
  {
    hide Spells, Str, PartsText, EncodeParts, ValidUtf8;
    PrintedNumberSpells(|parts|);
    PrintedPartsText(parts);
    assert Encode(parts) == "*" + (Str(|parts|) + CRLF) + EncodeParts(parts);
  }

  /** What the client prints is parsed as the parts it was given, whatever follows. */
  lemma RequestRoundTrip(parts: seq<bytes>, rest: bytes)
    requires parts != [] && forall p :: p in parts ==> ValidUtf8(p)
    ensures Parse(Encode(parts) + rest) == Parsed(Command(parts[0], parts[1..]), |Encode(parts)|)
  {
    hide Parse, RequestText, Encode, ValidUtf8;
    var raw, n := Encode(parts) + rest, |Encode(parts)|;
    PrintedRequestText(parts);
    assert raw[..n] == Encode(parts);
    AcceptsExactlyTheGrammar(raw, parts, n);
  }

  /** Every strict prefix of a printed request is incomplete, never an error. */
  lemma PrefixesOfRequestsAreIncomplete(parts: seq<bytes>, m: nat)
    requires parts != [] && forall p :: p in parts ==> ValidUtf8(p)
    requires m < |Encode(parts)|
    ensures Parse(Encode(parts)[..m]).Incomplete?
  {
    RequestRoundTrip(parts, []);
    assert Encode(parts) + [] == Encode(parts);
    CommandsAreSelfDelimiting(Encode(parts));
  }
}
