/**
 What the client's reader of module Replies takes from a stream, over a grammar of replies: one reply
 exactly, or the error that the beginning of the stream shows.
 */
module ReplyGrammar {
  import opened Wrappers
  import opened Bytes
  import opened Decimal
  import opened Replies
  import opened Faults

  /** How many bytes follow a bulk header: the value and its CRLF, but nothing for a null bulk or a negative sum. */
  predicate BodyIs(n: int, size: nat) {
    if n == -1 then size == 0 else if n < -2 then size == 0 else size == n + 2
  }

  /** One reply: a sign and a line, or a header and as many bytes as it announces. */
  ghost predicate ReplyThen(stream: bytes, text: bytes, rest: bytes) {
    stream == text + rest && text != [] &&
    if text[0] in ['+', '-', ':'] then exists line :: Splits(stream[1..], line, rest)
    else
      text[0] == '$' &&
      exists n, size: nat, behind ::
        NumberThen(stream[1..], n, behind) && BodyIs(n, size) && size <= |behind| && rest == behind[size..]
  }

  /** A header line that is no integer. */
  ghost predicate BadHeader(stream: bytes) {
    stream != [] && stream[0] == '$' &&
    exists line, rest :: Splits(stream[1..], line, rest) && forall n :: !SpellsInteger(line, n)
  }

  /** The stream ends inside a reply. */
  ghost predicate EndsInside(stream: bytes) {
    || stream == []
    || (stream[0] in ['+', '-', ':', '$'] && Unended(stream[1..]))
    || (stream[0] == '$' &&
        exists n, size: nat, behind :: NumberThen(stream[1..], n, behind) && BodyIs(n, size) && |behind| < size)
  }

  lemma PrefixChars(c: byte)
    ensures c in "+-:" <==> c in ['+', '-', ':']
  {
    assert "+-:" == ['+', '-', ':'];
  }

  lemma BodyIsSize(n: int, size: nat)
    ensures BodyIs(n, size) <==> size == BodySize(n)
  {
  }

  /** The header of a bulk, or of what should be one. */
  lemma HeaderLine(stream: bytes, end: nat)
    requires stream != [] && FindCrlf(stream, 1) == Some(end)
    ensures forall line, rest :: Splits(stream[1..], line, rest) <==>
                                 1 + |line| == end && stream[1..end] == line && stream[end + 2..] == rest
    ensures var number := ReadInt(stream[1..end]);
            forall n, rest :: NumberThen(stream[1..], n, rest) <==> number == Some(n) && stream[end + 2..] == rest
    ensures ReadInt(stream[1..end]).None? <==> forall n :: !SpellsInteger(stream[1..end], n)
  {
    hide ReadInt, SpellsInteger, Splits;
    var line := stream[1..end];
    forall line', rest
      ensures Splits(stream[1..], line', rest) <==>
              1 + |line'| == end && stream[1..end] == line' && stream[end + 2..] == rest
    {
      SplitsIff(stream, 1, line', rest);
    }
    ReadsLine(line);
    if ReadInt(line).Some? {
      assert SpellsInteger(line, ReadInt(line).value);
    }
    NothingSpellsNothing();
    assert Splits(stream[1..], line, stream[end + 2..]);
  }

  lemma NothingSpellsNothing()
    ensures ReadInt([]).None?
  {
  }

  lemma LineReplies(stream: bytes)
    requires stream != [] && stream[0] in ['+', '-', ':']
    ensures ReadReply(stream) == Failure(ConnectionClosed) <==> EndsInside(stream)
    ensures forall text, rest :: ReadReply(stream) == Success((text, rest)) <==> ReplyThen(stream, text, rest)
    ensures ReadReply(stream).Failure? ==> ReadReply(stream) == Failure(ConnectionClosed)
  {
    hide ReadInt, SpellsInteger, Splits, NumberThen, FindCrlf;
    PrefixChars(stream[0]);
    UnendedIff(stream, 1);
    var end := FindCrlf(stream, 1);
    if end.Some? {
      HeaderLine(stream, end.value);
      assert stream == stream[..end.value + 2] + stream[end.value + 2..];
      assert stream[..end.value + 2][0] == stream[0];
      assert Splits(stream[1..], stream[1..end.value], stream[end.value + 2..]);
      forall text, rest | ReplyThen(stream, text, rest) ensures text == stream[..end.value + 2] {
        assert stream[0] == text[0];
        assert |text| == |stream| - |rest|;
      }
    } else {
      forall text, rest ensures !ReplyThen(stream, text, rest) {
        NoLineNoReply(stream, text, rest);
      }
    }
  }

  lemma NoLineNoReply(stream: bytes, text: bytes, rest: bytes)
    requires stream != [] && Unended(stream[1..])
    ensures !ReplyThen(stream, text, rest)
  {
    forall line, behind ensures !Splits(stream[1..], line, behind) {
      if Splits(stream[1..], line, behind) {
        assert CrlfAt(line + CRLF + behind, |line|);
      }
    }
  }

  lemma HeaderThenNumber(stream: bytes, text: bytes, rest: bytes)
    requires stream != [] && stream[0] == '$'
    ensures ReplyThen(stream, text, rest) ==> exists n, behind :: NumberThen(stream[1..], n, behind)
  {
    assert stream == text + rest && text != [] ==> stream[0] == text[0];
  }

  lemma BulkReplies(stream: bytes)
    requires stream != [] && stream[0] == '$'
    ensures ReadReply(stream) == Failure(ConnectionClosed) <==> EndsInside(stream)
    ensures ReadReply(stream) == Failure(BadInteger) <==> BadHeader(stream)
    ensures forall text, rest :: ReadReply(stream) == Success((text, rest)) <==> ReplyThen(stream, text, rest)
    ensures ReadReply(stream) != Failure(BadPrefix)
  {
    hide ReadInt, SpellsInteger, Splits, NumberThen, FindCrlf;
    PrefixChars(stream[0]);
    UnendedIff(stream, 1);
    var end := FindCrlf(stream, 1);
    if end.Some? {
      HeaderLine(stream, end.value);
      var number, start := ReadInt(stream[1..end.value]), end.value + 2;
      forall n, size: nat ensures BodyIs(n, size) <==> size == BodySize(n) {
        BodyIsSize(n, size);
      }
      if number.Some? {
        var size := BodySize(number.value);
        var behind := stream[start..];
        assert NumberThen(stream[1..], number.value, behind) && BodyIs(number.value, size);
        if start + size <= |stream| {
          assert stream == stream[..start + size] + stream[start + size..] && behind[size..] == stream[start + size..];
          assert stream[..start + size][0] == stream[0];
        }
        forall text, rest | ReplyThen(stream, text, rest)
          ensures start + size <= |stream| && text == stream[..start + size] && rest == stream[start + size..]
        {
          assert stream[0] == text[0];
          assert behind[size..] == stream[start + size..];
          assert |text| == |stream| - |rest|;
        }
      } else {
        assert Splits(stream[1..], stream[1..end.value], stream[start..]);
        assert BadHeader(stream);
        forall text, rest ensures !ReplyThen(stream, text, rest) {
          HeaderThenNumber(stream, text, rest);
        }
      }
    } else {
      forall text, rest ensures !ReplyThen(stream, text, rest) {
        NoLineNoReply(stream, text, rest);
      }
      NoLineNoHeader(stream);
    }
  }

  lemma NoLineNoHeader(stream: bytes)
    requires stream != [] && Unended(stream[1..])
    ensures !BadHeader(stream)
  {
    forall line, behind ensures !Splits(stream[1..], line, behind) {
      if Splits(stream[1..], line, behind) {
        assert CrlfAt(line + CRLF + behind, |line|);
      }
    }
  }

  /** All answers of the reader, over the grammar of replies. */
  lemma ReaderFollowsTheGrammar(stream: bytes)
    ensures forall text, rest :: ReadReply(stream) == Success((text, rest)) <==> ReplyThen(stream, text, rest)
    ensures ReadReply(stream) == Failure(BadPrefix) <==> stream != [] && stream[0] !in ['+', '-', ':', '$']
    ensures ReadReply(stream) == Failure(BadInteger) <==> BadHeader(stream)
    ensures ReadReply(stream) == Failure(ConnectionClosed) <==> EndsInside(stream)
  {
    if stream == [] {
    } else if stream[0] in ['+', '-', ':'] {
      LineReplies(stream);
    } else if stream[0] == '$' {
      BulkReplies(stream);
    } else {
      PrefixChars(stream[0]);
      forall text, rest ensures !ReplyThen(stream, text, rest) {
        if stream == text + rest && text != [] {
          assert text[0] == stream[0];
        }
      }
    }
  }
}
