/**
 Replies on the wire: the response objects of src/core/response.py, the encoder of
 src/protocol/resp_encoder.py, and the client's reader in scripts/benchmark.py.
 */
module Replies {
  import opened Wrappers
  import opened Bytes
  import opened Decimal

  datatype Response =
    | SimpleString(value: bytes)
    | BulkString(value: bytes)
    | NullBulkString
    | Integer(n: int)
    | Error(message: bytes)

  predicate StartsWith(s: bytes, prefix: bytes) {
    prefix <= s
  }

  /** Response.error: every message is an ERR or a MOVED. */
  function ErrorReply(message: bytes): Response {
    if StartsWith(message, "ERR ") || StartsWith(message, "MOVED ") then Error(message) else Error("ERR " + message)
  }

  datatype EncodeError = ContainsCrOrLf

  /** The encoder; simple strings and errors must fit on one line. */
  function Encode(r: Response): Result<bytes, EncodeError> {
    match r
    case SimpleString(value) => if HasCrOrLf(value) then Failure(ContainsCrOrLf) else Success("+" + value + CRLF)
    case BulkString(value) => Success("$" + Str(|value|) + CRLF + value + CRLF)
    case NullBulkString => Success("$-1\r\n")
    case Integer(n) => Success(":" + Str(n) + CRLF)
    case Error(message) => if HasCrOrLf(message) then Failure(ContainsCrOrLf) else Success("-" + message + CRLF)
  }

  // ---------- the reader as a function on the byte stream ----------

  datatype ReadError = ConnectionClosed | BadInteger | BadPrefix

  /** A reply and the stream behind it, or the exception. */
  type ReadResult = Result<(bytes, bytes), ReadError>

  /** What recv_resp takes from a stream that ends after these bytes. */
  function ReadReply(stream: bytes): ReadResult {
    if stream == [] then Failure(ConnectionClosed)
    else if stream[0] in "+-:" then
      var end := FindCrlf(stream, 1);
      if end.None? then Failure(ConnectionClosed)
      else Success((stream[..end.value + 2], stream[end.value + 2..]))
    else if stream[0] == '$' then
      var end := FindCrlf(stream, 1);
      if end.None? then Failure(ConnectionClosed)
      else
        var length := ReadInt(stream[1..end.value]);
        var start := end.value + 2;
        if length.None? then Failure(BadInteger)
        else
          var size := BodySize(length.value);
          if start + size > |stream| then Failure(ConnectionClosed)
          else Success((stream[..start + size], stream[start + size..]))
    else Failure(BadPrefix)
  }

  /** Bytes behind a bulk header: none for a null bulk, else the value and its CRLF. */
  function BodySize(length: int): nat {
    if length == -1 || length + 2 <= 0 then 0 else length + 2
  }

  /** A line reply: a sign and a line. */
  lemma ReadLineReply(sign: bytes, line: bytes, rest: bytes)
    requires |sign| == 1 && sign[0] in "+-:" && !HasCrOrLf(line)
    ensures ReadReply(sign + line + CRLF + rest) == Success((sign + line + CRLF, rest))
  {
    var code := sign + line + CRLF;
    var stream := code + rest;
    assert Has(stream, 0, code);
    HasBoth(stream, 0, sign + line, CRLF);
    HasBoth(stream, 0, sign, line);
    HasCrlf(stream, 1 + |line|);
    FindCrlfAfterLine(stream, 1, line);
    assert stream[..|code|] == code && stream[|code|..] == rest;
  }

  /** A bulk reply: a length line and a body of the announced size. */
  lemma ReadBulkReply(length: int, body: bytes, rest: bytes)
    requires |body| == BodySize(length)
    ensures ReadReply("$" + Str(length) + CRLF + body + rest) == Success(("$" + Str(length) + CRLF + body, rest))
  {
    hide Str, ReadInt;
    var code := "$" + Str(length) + CRLF + body;
    var stream := code + rest;
    assert Has(stream, 0, code);
    HasBoth(stream, 0, "$" + Str(length) + CRLF, body);
    HasBoth(stream, 0, "$" + Str(length), CRLF);
    HasBoth(stream, 0, "$", Str(length));
    assert stream[0] == stream[0..1][0];
    HasCrlf(stream, 1 + |Str(length)|);
    FindCrlfAfterLine(stream, 1, Str(length));
    ReadIntOfStr(length);
    assert stream[..|code|] == code && stream[|code|..] == rest;
  }

  /** Reading one encoded reply, whatever follows it: exactly its bytes, also when a bulk contains CRLF. */
  lemma ReadEncodedReply(r: Response, rest: bytes)
    requires Encode(r).Success?
    ensures ReadReply(Encode(r).value + rest) == Success((Encode(r).value, rest))
  {
    match r {
      case SimpleString(value) => ReadLineReply("+", value, rest);
      case Integer(n) => ReadLineReply(":", Str(n), rest);
      case Error(message) => ReadLineReply("-", message, rest);
      case NullBulkString =>
        PrintsMinusOne();
        ReadBulkReply(-1, [], rest);
        assert "$" + Str(-1) + CRLF + [] == "$-1\r\n";
        assert "$" + Str(-1) + CRLF + [] + rest == "$-1\r\n" + rest;
      case BulkString(value) =>
        ReadBulkReply(|value|, value + CRLF, rest);
        assert "$" + Str(|value|) + CRLF + (value + CRLF) == Encode(r).value;
    }
  }

  lemma PrintsMinusOne()
    ensures Str(-1) == "-1"
  {
    assert Digit(1) == '1';
  }

  /** What one encoded reply means: the five reply types of RESP2 by their first byte. */
  function Decode(code: bytes): Option<Response> {
    if |code| < 3 || !CrlfAt(code, |code| - 2) then None
    else
      var line := code[1..|code| - 2];
      match code[0]
      case '+' => Some(SimpleString(line))
      case '-' => Some(Error(line))
      case ':' => if ReadInt(line).Some? then Some(Integer(ReadInt(line).value)) else None
      case '$' =>
        assert FindCrlf(code, 1).Some?;
        var end := FindCrlf(code, 1).value;
        var length := ReadInt(code[1..end]);
        if length == Some(-1) then Some(NullBulkString)
        else if length.Some? && end + 2 <= |code| - 2 && length.value == |code| - 2 - (end + 2) then
          Some(BulkString(code[end + 2..|code| - 2]))
        else None
      case _ => None
  }

  /** Encoding loses nothing: type and contents of every reply can be recovered from its bytes. */
  lemma EncodingRoundTrip(r: Response)
    requires Encode(r).Success?
    ensures Decode(Encode(r).value) == Some(r)
  {
    hide Str, ReadInt;
    var code := Encode(r).value;
    match r {
      case Integer(n) =>
        ReadIntOfStr(n);
        assert code[1..|code| - 2] == Str(n);
      case NullBulkString =>
        BulkHeader(-1, []);
        PrintsMinusOne();
        assert code == "$" + Str(-1) + CRLF + [];
      case BulkString(value) =>
        BulkHeader(|value|, value + CRLF);
        assert code == "$" + Str(|value|) + CRLF + (value + CRLF);
        assert code[|Str(|value|)| + 3..|code| - 2] == value;
      case SimpleString(value) => assert code[1..|code| - 2] == value;
      case Error(message) => assert code[1..|code| - 2] == message;
    }
  }

  lemma BulkHeader(n: int, body: bytes)
    ensures var code := "$" + Str(n) + CRLF + body;
            FindCrlf(code, 1) == Some(1 + |Str(n)|) && ReadInt(code[1..1 + |Str(n)|]) == Some(n)
  {
    hide Str, ReadInt;
    var code := "$" + Str(n) + CRLF + body;
    assert Has(code, 0, code);
    HasBoth(code, 0, "$" + Str(n) + CRLF, body);
    HasBoth(code, 0, "$" + Str(n), CRLF);
    HasBoth(code, 0, "$", Str(n));
    HasCrlf(code, 1 + |Str(n)|);
    FindCrlfAfterLine(code, 1, Str(n));
    ReadIntOfStr(n);
  }

  /** All replies, encoded one after the other. */
  function EncodeAll(replies: seq<Response>): bytes
    requires forall r :: r in replies ==> Encode(r).Success?
  {
    if replies == [] then [] else Encode(replies[0]).value + EncodeAll(replies[1..])
  }

  // ---------- the reader as the loops it is ----------

  /**
   A connected socket with all bytes the peer will ever send. Every recv returns as many of the
   asked-for bytes as the network pleases, at least one until the stream has ended.
   */
  class Socket {
    var stream: bytes

    constructor (stream: bytes)
      ensures this.stream == stream
    {
      this.stream := stream;
    }

    method Recv(size: nat) returns (chunk: bytes)
      requires size > 0
      modifies this
      ensures chunk + stream == old(stream)
      ensures |chunk| <= size && (chunk == [] <==> old(stream) == [])
    {
      if stream == [] {
        return [];
      }
      var n :| 1 <= n <= size && n <= |stream|;
      chunk := stream[..n];
      stream := stream[n..];
    }
  }

  method RecvExact(sock: Socket, size: int) returns (r: Result<bytes, ReadError>)
    modifies sock
    ensures if size <= 0 then r == Success([]) && sock.stream == old(sock.stream)
            else if size <= |old(sock.stream)| then
              r == Success(old(sock.stream)[..size]) && sock.stream == old(sock.stream)[size..]
            else r == Failure(ConnectionClosed)
  {
    var payload := [];
    var remaining := size;
    while remaining > 0
      invariant payload + sock.stream == old(sock.stream)
      invariant |payload| + remaining == size && (if size > 0 then remaining >= 0 else payload == [])
    {
      var chunk := sock.Recv(remaining);
      if chunk == [] {
        return Failure(ConnectionClosed);
      }
      payload := payload + chunk;
      remaining := remaining - |chunk|;
    }
    assert size > 0 ==> payload == old(sock.stream)[..size];
    r := Success(payload);
  }

  method RecvUntilCrlf(sock: Socket) returns (r: Result<bytes, ReadError>)
    modifies sock
    ensures var end := FindCrlf(old(sock.stream), 0);
            if end.None? then r == Failure(ConnectionClosed)
            else r == Success(old(sock.stream)[..end.value + 2]) && sock.stream == old(sock.stream)[end.value + 2..]
  {
    var line: bytes := [];
    while true
      invariant line + sock.stream == old(sock.stream)
      invariant NoCrlfIn(line)
      decreases |sock.stream|
    {
      var chunk := sock.Recv(1);
      if chunk == [] {
        assert line == old(sock.stream);
        NoLineYet(line);
        return Failure(ConnectionClosed);
      }
      assert (line + chunk)[..|line|] == line;
      line := line + chunk;
      FirstLine(line, sock.stream);
      assert line + sock.stream == old(sock.stream);
      if |line| >= 2 && line[|line| - 2] == '\r' && line[|line| - 1] == '\n' {
        return Success(line);
      }
    }
  }

  ghost predicate NoCrlfIn(line: bytes) {
    forall i: nat :: i + 1 < |line| ==> !CrlfAt(line, i)
  }

  lemma NoLineYet(line: bytes)
    requires NoCrlfIn(line)
    ensures FindCrlf(line, 0).None?
  {
  }

  /** One more byte completes the first line of a stream, or there is still no CRLF. */
  lemma FirstLine(line: bytes, rest: bytes)
    requires line != [] && NoCrlfIn(line[..|line| - 1])
    ensures var complete := |line| >= 2 && line[|line| - 2] == '\r' && line[|line| - 1] == '\n';
            if complete then
              FindCrlf(line + rest, 0) == Some(|line| - 2) &&
              (line + rest)[..|line|] == line && (line + rest)[|line|..] == rest
            else NoCrlfIn(line)
  {
    var front := line[..|line| - 1];
    forall i: nat | i + 2 < |line| ensures !CrlfAt(line + rest, i) && !CrlfAt(line, i) {
      assert !CrlfAt(front, i);
    }
    if |line| >= 2 && line[|line| - 2] == '\r' && line[|line| - 1] == '\n' {
      assert CrlfAt(line + rest, |line| - 2);
    }
  }

  /** recv_resp: one reply from the socket, the same for every schedule of partial reads. */
  method RecvResp(sock: Socket) returns (r: Result<bytes, ReadError>)
    modifies sock
    ensures var expected := ReadReply(old(sock.stream));
            if expected.Success? then r == Success(expected.value.0) && sock.stream == expected.value.1
            else r == Failure(expected.error)
  {
    ghost var all := sock.stream;
    hide Str, ReadInt;
    var first := RecvExact(sock, 1);
    if first.Failure? {
      return first;
    }
    if first.value[0] !in "+-:$" {
      return Failure(BadPrefix);
    }
    FindCrlfShift(all);
    var line := RecvUntilCrlf(sock);
    if line.Failure? {
      return line;
    }
    var payload := first.value + line.value;
    ghost var start := FindCrlf(all, 1).value + 2;
    assert payload == all[..start] && sock.stream == all[start..];
    if first.value[0] in "+-:" {
      return Success(payload);
    }
    assert line.value[..|line.value| - 2] == all[1..FindCrlf(all, 1).value];
    var length := ReadInt(line.value[..|line.value| - 2]);
    if length.None? {
      return Failure(BadInteger);
    }
    if length.value == -1 {
      return Success(payload);
    }
    var body := RecvExact(sock, length.value + 2);
    if body.Failure? {
      return body;
    }
    assert payload + body.value == all[..start + BodySize(length.value)];
    r := Success(payload + body.value);
  }

  lemma FindCrlfShift(s: bytes)
    requires s != []
    ensures FindCrlf(s[1..], 0).Some? <==> FindCrlf(s, 1).Some?
    ensures FindCrlf(s, 1).Some? ==> FindCrlf(s, 1).value == FindCrlf(s[1..], 0).value + 1
  {
    assert forall i: nat :: CrlfAt(s[1..], i) <==> CrlfAt(s, i + 1);
    if FindCrlf(s, 1).Some? {
      assert CrlfAt(s[1..], FindCrlf(s, 1).value - 1);
    }
    if FindCrlf(s[1..], 0).Some? {
      assert CrlfAt(s, FindCrlf(s[1..], 0).value + 1);
    }
  }

  /** Reading as many replies as were sent gives each of them, in order, and nothing else. */
  method RecvAll(sock: Socket, count: nat, ghost replies: seq<Response>, ghost rest: bytes) returns (texts: seq<bytes>)
    requires count == |replies| && forall r :: r in replies ==> Encode(r).Success?
    requires sock.stream == EncodeAll(replies) + rest
    modifies sock
    ensures |texts| == count && forall i :: 0 <= i < count ==> Encode(replies[i]) == Success(texts[i])
    ensures sock.stream == rest
  {
    hide Encode, ReadReply;
    texts := [];
    for n := 0 to count
      invariant |texts| == n && forall i :: 0 <= i < n ==> Encode(replies[i]) == Success(texts[i])
      invariant sock.stream == EncodeAll(replies[n..]) + rest
    {
      ghost var later := EncodeAll(replies[n + 1..]) + rest;
      assert replies[n..][1..] == replies[n + 1..];
      assert sock.stream == Encode(replies[n]).value + later;
      ReadEncodedReply(replies[n], later);
      var text := RecvResp(sock);
      texts := texts + [text.value];
    }
  }
}
