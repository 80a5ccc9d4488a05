/**
 The connection loop of src/server/tcp_server.py: bytes arrive in chunks, complete commands
 are taken from the front of the buffer, and a protocol error wipes the buffer.
 */
module Server {
  import opened Wrappers
  import opened Bytes
  import opened Stores
  import opened Dispatching
  import Resp
  import R = Replies

  /** What the loop does with a stretch of input. */
  datatype Event = Do(command: Resp.Command) | Refuse(error: Resp.ProtocolError)

  /** The inner loop: events from one buffer, and what stays in it. */
  function Drain(buffer: bytes): (seq<Event>, bytes)
    decreases |buffer|
  {
    match Resp.Parse(buffer)
    case Incomplete => ([], buffer)
    case Malformed(e) => ([Refuse(e)], [])
    case Parsed(command, n) =>
      var (events, rest) := Drain(buffer[n..]);
      ([Do(command)] + events, rest)
  }

  /** The outer loop: one chunk after the other. */
  function Feed(buffer: bytes, chunks: seq<bytes>): (seq<Event>, bytes)
    decreases |chunks|
  {
    if chunks == [] then ([], buffer)
    else
      var (events, kept) := Drain(buffer + chunks[0]);
      var (later, rest) := Feed(kept, chunks[1..]);
      (events + later, rest)
  }

  ghost predicate Refuses(events: seq<Event>) {
    exists i :: 0 <= i < |events| && events[i].Refuse?
  }

  /** The events up to and including the first protocol error. */
  function UpToRefusal(events: seq<Event>): seq<Event> {
    if events == [] then []
    else if events[0].Refuse? then [events[0]]
    else [events[0]] + UpToRefusal(events[1..])
  }

  // ---------- chunking ----------

  lemma RefusesConcat(a: seq<Event>, b: seq<Event>)
    ensures Refuses(a + b) <==> Refuses(a) || Refuses(b)
  {
    assert forall i :: 0 <= i < |a| ==> (a + b)[i] == a[i];
    assert forall i :: 0 <= i < |b| ==> (a + b)[|a| + i] == b[i];
  }

  lemma RefusesFirst(events: seq<Event>)
    requires events != []
    ensures Refuses(events) <==> events[0].Refuse? || Refuses(events[1..])
  {
    assert events == [events[0]] + events[1..] && [events[0]][0] == events[0];
    RefusesConcat([events[0]], events[1..]);
  }

  lemma FirstAndRest(a: seq<Event>, b: seq<Event>)
    requires a != []
    ensures [a[0]] + (a[1..] + b) == a + b
  {
  }

  lemma {:induction false} UpToRefusalConcat(a: seq<Event>, b: seq<Event>)
    ensures UpToRefusal(a + b) == if Refuses(a) then UpToRefusal(a) else a + UpToRefusal(b)
  {
    if a == [] {
      assert a + b == b;
    } else {
      assert (a + b)[0] == a[0] && (a + b)[1..] == a[1..] + b;
      RefusesFirst(a);
      hide Refuses;
      UpToRefusalConcat(a[1..], b);
      FirstAndRest(a, UpToRefusal(b));
    }
  }

  lemma AfterDo(command: Resp.Command, events: seq<Event>)
    ensures Refuses([Do(command)] + events) <==> Refuses(events)
    ensures UpToRefusal([Do(command)] + events) == [Do(command)] + UpToRefusal(events)
  {
    RefusesFirst([Do(command)] + events);
    assert ([Do(command)] + events)[1..] == events;
  }

  lemma JustARefusal(e: Resp.ProtocolError)
    ensures Refuses([Refuse(e)]) && UpToRefusal([Refuse(e)]) == [Refuse(e)]
  {
    assert [Refuse(e)][0] == Refuse(e);
  }

  lemma NothingRefused()
    ensures !Refuses([])
  {
  }

  /** Bytes that arrive later continue where the buffer stopped, or come too late. */
  lemma {:induction false} DrainMore(front: bytes, more: bytes)
    ensures var (events, rest) := Drain(front);
            Drain(front + more) ==
            if Refuses(events) then (events, []) else (events + Drain(rest + more).0, Drain(rest + more).1)
    ensures Refuses(Drain(front).0) ==> UpToRefusal(Drain(front).0) == Drain(front).0
    decreases |front|
  {
    hide Resp.Parse, Refuses, UpToRefusal;
    match Resp.Parse(front) {
      case Incomplete =>
        NothingRefused();
        assert [] + Drain(front + more).0 == Drain(front + more).0;
      case Malformed(e) =>
        JustARefusal(e);
        Resp.VerdictsAreFinal(front, more);
      case Parsed(command, n) =>
        Resp.VerdictsAreFinal(front, more);
        assert (front + more)[n..] == front[n..] + more;
        DrainMore(front[n..], more);
        var (events, rest) := Drain(front[n..]);
        AfterDo(command, events);
        assert ([Do(command)] + events) + Drain(rest + more).0 == [Do(command)] + (events + Drain(rest + more).0);
    }
  }

  lemma {:induction false} DrainEndsAtRefusal(buffer: bytes)
    ensures UpToRefusal(Drain(buffer).0) == Drain(buffer).0
    decreases |buffer|
  {
    hide Resp.Parse;
    match Resp.Parse(buffer) {
      case Parsed(command, n) =>
        DrainEndsAtRefusal(buffer[n..]);
        assert Drain(buffer).0[1..] == Drain(buffer[n..]).0;
      case _ =>
    }
  }

  /**
   However the stream is cut, the loop does the same up to and including the first protocol
   error, and without one it keeps the same bytes. Here front has already been drained.
   */
  lemma {:induction false} FeedIsDrain(front: bytes, chunks: seq<bytes>)
    requires !Refuses(Drain(front).0)
    ensures var (events, kept) := Drain(front);
            var (later, rest) := Feed(kept, chunks);
            var whole := Drain(front + Join(chunks));
            UpToRefusal(events + later) == whole.0 && (!Refuses(whole.0) ==> (events + later, rest) == whole)
    decreases |chunks|
  {
    hide Drain, UpToRefusal;
    var (events, kept) := Drain(front);
    if chunks == [] {
      assert front + Join(chunks) == front;
      assert events + [] == events;
      DrainEndsAtRefusal(front);
    } else {
      var chunk, others := chunks[0], chunks[1..];
      JoinFirst(chunks);
      assert front + Join(chunks) == (front + chunk) + Join(others);
      DrainMore(front, chunk);
      var (next, kept') := Drain(kept + chunk);
      var later := Feed(kept', others).0;
      assert events + (next + later) == (events + next) + later;
      if Refuses(events + next) {
        DrainMore(front + chunk, Join(others));
        UpToRefusalConcat(events + next, later);
      } else {
        FeedIsDrain(front + chunk, others);
      }
    }
  }

  lemma JoinFirst(chunks: seq<bytes>)
    requires chunks != []
    ensures Join(chunks) == chunks[0] + Join(chunks[1..])
  {
    assert chunks == [chunks[0]] + chunks[1..];
    JoinAppend([chunks[0]], chunks[1..]);
    assert [chunks[0]][..0] == [];
    assert Join([chunks[0]]) == chunks[0];
  }

  /** Chunking independence for a whole connection. */
  lemma ChunkingDoesNotMatter(chunks: seq<bytes>, others: seq<bytes>)
    requires Join(chunks) == Join(others)
    ensures UpToRefusal(Feed([], chunks).0) == UpToRefusal(Feed([], others).0)
    ensures !Refuses(Feed([], chunks).0) ==> Feed([], chunks) == Feed([], others)
  {
    FeedFromStart(chunks);
    FeedFromStart(others);
    RefusalShows(Feed([], chunks).0);
  }

  lemma DrainOfNothing()
    ensures Drain([]) == ([], []) && !Refuses(Drain([]).0)
  {
  }

  lemma FeedFromStart(chunks: seq<bytes>)
    ensures var whole := Drain(Join(chunks));
            UpToRefusal(Feed([], chunks).0) == whole.0 && (!Refuses(whole.0) ==> Feed([], chunks) == whole)
  {
    hide Drain, Feed, Refuses, UpToRefusal, Join;
    DrainOfNothing();
    FeedIsDrain([], chunks);
    assert [] + Join(chunks) == Join(chunks);
    assert [] + Feed([], chunks).0 == Feed([], chunks).0;
  }

  lemma {:induction false} RefusalShows(events: seq<Event>)
    ensures Refuses(events) <==> Refuses(UpToRefusal(events))
    ensures !Refuses(events) ==> UpToRefusal(events) == events
  {
    if events != [] {
      RefusalShows(events[1..]);
      assert events == [events[0]] + events[1..];
      RefusesConcat([events[0]], events[1..]);
      RefusesConcat([events[0]], UpToRefusal(events[1..]));
      assert [events[0]][0] == events[0];
    }
  }

  /** A cut of a stream into pieces of at least one byte. */
  ghost predicate CutOf(chunks: seq<bytes>, stream: bytes) {
    Join(chunks) == stream && forall c :: c in chunks ==> c != []
  }

  /** No strict prefix of the stream already shows an error. */
  ghost predicate ErrorsOnlyAtTheEnd(stream: bytes) {
    forall n: nat :: n < |stream| ==> !Refuses(Drain(stream[..n]).0)
  }

  /**
   The exact limit of this: all cuts of a stream have the same events and the same left-over
   exactly when no error shows before the last byte.
   */
  lemma ChunkingNeverMattersIff(stream: bytes)
    ensures (forall chunks :: CutOf(chunks, stream) ==> Feed([], chunks) == Drain(stream)) <==>
            ErrorsOnlyAtTheEnd(stream)
  {
    if ErrorsOnlyAtTheEnd(stream) {
      forall chunks | CutOf(chunks, stream) ensures Feed([], chunks) == Drain(stream) {
        CutAgrees(chunks, stream);
      }
    } else {
      var n: nat :| n < |stream| && Refuses(Drain(stream[..n]).0);
      CutDisagrees(stream, n);
      assert CutOf([stream[..n], stream[n..]], stream);
    }
  }

  lemma CutAgrees(chunks: seq<bytes>, stream: bytes)
    requires CutOf(chunks, stream) && ErrorsOnlyAtTheEnd(stream)
    ensures Feed([], chunks) == Drain(stream)
  {
    hide Drain, Feed, Refuses, Join;
    DrainOfNothing();
    assert [] + Join(chunks) == stream && [] + Feed([], chunks).0 == Feed([], chunks).0;
    FeedToLastByte([], chunks);
  }

  /** Cut right behind an error: the rest is parsed afresh, while the whole would have been wiped. */
  lemma CutDisagrees(stream: bytes, n: nat)
    requires n < |stream| && Refuses(Drain(stream[..n]).0)
    ensures CutOf([stream[..n], stream[n..]], stream) && Feed([], [stream[..n], stream[n..]]) != Drain(stream)
  {
    hide Drain, Feed, Refuses, Join;
    var front, back := stream[..n], stream[n..];
    DrainOfNothing();
    TwoChunks(front, back);
    assert front + back == stream && front + [] == front;
    DrainMore(front, back);
    DrainMore(front, []);
    assert [] + back == back;
    NothingComesFromNothing(back);
  }

  lemma {:induction false} FeedToLastByte(front: bytes, chunks: seq<bytes>)
    requires forall c :: c in chunks ==> c != []
    requires ErrorsOnlyAtTheEnd(front + Join(chunks)) && !Refuses(Drain(front).0)
    ensures var (events, kept) := Drain(front);
            Drain(front + Join(chunks)) == (events + Feed(kept, chunks).0, Feed(kept, chunks).1)
    decreases |chunks|
  {
    hide Drain;
    var (events, kept) := Drain(front);
    var stream := front + Join(chunks);
    if chunks == [] {
      assert stream == front && events + [] == events;
    } else {
      var chunk, others := chunks[0], chunks[1..];
      JoinFirst(chunks);
      var front' := front + chunk;
      assert stream == front' + Join(others);
      DrainMore(front, chunk);
      if others == [] {
        assert stream == front' + [] && front' + [] == front';
        var (next, kept') := Drain(kept + chunk);
        assert Feed(kept, chunks) == (next + [], kept') && next + [] == next;
      } else {
        JoinFirst(others);
        assert others[0] in chunks;
        assert stream[..|front'|] == front' && |front'| < |stream|;
        assert forall c :: c in others ==> c in chunks;
        FeedToLastByte(front', others);
        assert (events + Drain(kept + chunk).0) + Feed(Drain(kept + chunk).1, others).0
            == events + (Drain(kept + chunk).0 + Feed(Drain(kept + chunk).1, others).0);
      }
    }
  }

  lemma TwoChunks(front: bytes, back: bytes)
    ensures Join([front, back]) == front + back
    ensures Feed([], [front, back]) ==
            (Drain(front).0 + Drain(Drain(front).1 + back).0, Drain(Drain(front).1 + back).1)
  {
    JoinFirst([front, back]);
    JoinFirst([back]);
    assert [front, back][1..] == [back] && [back][1..] == [];
    assert [] + front == front;
    assert Feed(Drain(front).1, [back]) == (Drain(Drain(front).1 + back).0 + [], Drain(Drain(front).1 + back).1);
    assert Drain(Drain(front).1 + back).0 + [] == Drain(Drain(front).1 + back).0;
  }

  /** Bytes are never swallowed silently: they cause an event or stay. */
  lemma NothingComesFromNothing(buffer: bytes)
    requires buffer != []
    ensures Drain(buffer) != ([], [])
  {
    hide Resp.Parse;
    if Resp.Parse(buffer).Parsed? {
      assert Drain(buffer).0[0].Do?;
    }
  }

  // ---------- serving ----------

  /** A machine, the replies sent, and whether the connection is open. */
  type Served = (Machine, seq<R.Response>, bool)

  function Answer(cfg: Config, m: Machine, e: Event, now: Time): (Machine, Result<R.Response, Exception>) {
    match e
    case Do(command) => Dispatch(cfg, m, command, now)
    case Refuse(error) => (m, Success(R.ErrorReply(Resp.Message(error))))
  }

  /**
   The machine, the replies sent and whether the connection is still open after a list of events.
   clock(i) is the clock reading of the i-th answer. An exception in the dispatcher or a reply that
   does not fit on a line closes the connection.
   */
  function Process(cfg: Config, m: Machine, clock: nat -> Time, n: nat, events: seq<Event>): Served
    decreases |events|
  {
    if events == [] then (m, [], true)
    else
      var (m', reply) := Answer(cfg, m, events[0], clock(n));
      if reply.Failure? || R.Encode(reply.value).Failure? then (m', [], false)
      else
        var (last, replies, open) := Process(cfg, m', clock, n + 1, events[1..]);
        (last, [reply.value] + replies, open)
  }

  lemma {:induction false} RepliesAreEncodable(cfg: Config, m: Machine, clock: nat -> Time, n: nat, events: seq<Event>)
    ensures forall r :: r in Process(cfg, m, clock, n, events).1 ==> R.Encode(r).Success?
    decreases |events|
  {
    hide Answer;
    if events != [] {
      var (m', reply) := Answer(cfg, m, events[0], clock(n));
      RepliesAreEncodable(cfg, m', clock, n + 1, events[1..]);
    }
  }

  lemma {:induction false} EncodeAllSnoc(replies: seq<R.Response>, r: R.Response)
    requires (forall q :: q in replies ==> R.Encode(q).Success?) && R.Encode(r).Success?
    ensures forall q :: q in replies + [r] ==> R.Encode(q).Success?
    ensures R.EncodeAll(replies + [r]) == R.EncodeAll(replies) + R.Encode(r).value
  {
    hide R.Encode;
    if replies == [] {
      assert replies + [r] == [r] && [r][1..] == [];
      assert R.EncodeAll([r]) == R.Encode(r).value + R.EncodeAll([]);
    } else {
      assert (replies + [r])[1..] == replies[1..] + [r];
      EncodeAllSnoc(replies[1..], r);
    }
  }

  /** What remains to be done is what was to be done, after the replies already sent. */
  ghost predicate Continues(all: Served, sent: seq<R.Response>, rest: Served) {
    all == (rest.0, sent + rest.1, rest.2)
  }

  /** One answer takes one event off the list, or ends the connection. */
  lemma AnswerOne(all: Served, sent: seq<R.Response>, cfg: Config, m: Machine,
                  clock: nat -> Time, n: nat, e: Event, later: seq<Event>)
    requires Continues(all, sent, Process(cfg, m, clock, n, [e] + later))
    ensures var (m', reply) := Answer(cfg, m, e, clock(n));
            if reply.Failure? || R.Encode(reply.value).Failure? then all == (m', sent, false)
            else Continues(all, sent + [reply.value], Process(cfg, m', clock, n + 1, later))
  {
    hide Answer, R.Encode;
    assert ([e] + later)[1..] == later;
    var (m', reply) := Answer(cfg, m, e, clock(n));
    if reply.Failure? || R.Encode(reply.value).Failure? {
      assert sent + [] == sent;
    } else {
      var rest := Process(cfg, m', clock, n + 1, later).1;
      assert sent + ([reply.value] + rest) == (sent + [reply.value]) + rest;
    }
  }

  /** The event at the front of a buffer, and the buffer behind it. */
  function EventOf(outcome: Resp.Outcome): Event
    requires !outcome.Incomplete?
  {
    if outcome.Malformed? then Refuse(outcome.error) else Do(outcome.command)
  }

  lemma DrainOne(buffer: bytes, later: seq<Event>)
    requires !Resp.Parse(buffer).Incomplete?
    ensures var outcome := Resp.Parse(buffer);
            var kept := if outcome.Malformed? then [] else buffer[outcome.consumed..];
            Drain(buffer).0 + later == [EventOf(outcome)] + (Drain(kept).0 + later) && Drain(buffer).1 == Drain(kept).1
  {
    assert Drain([]) == ([], []);
    hide Resp.Parse;
    match Resp.Parse(buffer) {
      case Malformed(e) => assert [] + later == later;
      case Parsed(command, n) =>
        assert ([Do(command)] + Drain(buffer[n..]).0) + later == [Do(command)] + (Drain(buffer[n..]).0 + later);
    }
  }

  /** Carry out one event and encode its reply: dispatch and _send_response. */
  method Reply(dispatcher: Dispatcher, e: Event, now: Time)
    returns (encoded: Result<bytes, ()>, ghost reply: R.Response)
    requires dispatcher.Valid()
    modifies dispatcher.Footprint()
    ensures dispatcher.Valid() && fresh(dispatcher.Footprint() - old(dispatcher.Footprint()))
    ensures var (m, answer) := Answer(dispatcher.Settings(), old(dispatcher.Now()), e, now);
            dispatcher.Now() == m &&
            if answer.Failure? || R.Encode(answer.value).Failure? then encoded.Failure?
            else answer.value == reply && encoded.Success? && R.Encode(reply) == Success(encoded.value)
  {
    hide Dispatch, R.Encode, Resp.Message, R.ErrorReply;
    match e {
      case Refuse(error) =>
        var refusal := R.ErrorReply(Resp.Message(error));
        reply := refusal;
        var code := R.Encode(refusal);
        encoded := if code.Success? then Success(code.value) else Failure(());
      case Do(command) =>
        ghost var m := dispatcher.Now();
        var dispatched, keys := dispatcher.RunCommand(command, _ => now);
        DispatchAtOneReading(dispatcher.Settings(), m, command, keys, _ => now, now);
        if dispatched.Failure? {
          reply := R.NullBulkString;
          return Failure(()), reply;
        }
        reply := dispatched.value;
        var code := R.Encode(dispatched.value);
        encoded := if code.Success? then Success(code.value) else Failure(());
    }
  }

  /** All replies can be put on the wire, and these are their bytes. */
  ghost predicate OnTheWire(output: bytes, replies: seq<R.Response>) {
    (forall r :: r in replies ==> R.Encode(r).Success?) && output == R.EncodeAll(replies)
  }

  /** The inner loop of handle_client: answer every complete command in the buffer. */
  method ServeBuffer(dispatcher: Dispatcher, received: bytes, clock: nat -> Time, first: nat, ghost later: seq<Event>)
    returns (output: bytes, buffer: bytes, n: nat, open: bool, ghost sent: seq<R.Response>)
    requires dispatcher.Valid()
    modifies dispatcher.Footprint()
    ensures dispatcher.Valid() && fresh(dispatcher.Footprint() - old(dispatcher.Footprint()))
    ensures OnTheWire(output, sent)
    ensures var all := Process(dispatcher.Settings(), old(dispatcher.Now()), clock, first, Drain(received).0 + later);
            if open then
              buffer == Drain(received).1 &&
              Continues(all, sent, Process(dispatcher.Settings(), dispatcher.Now(), clock, n, later))
            else all == (dispatcher.Now(), sent, false)
  {
    hide Answer, R.Encode, Resp.Parse, Drain, Process, R.EncodeAll;
    ghost var cfg := dispatcher.Settings();
    ghost var all := Process(cfg, dispatcher.Now(), clock, first, Drain(received).0 + later);
    buffer, n, sent := received, first, [];
    output := [];
    NothingSent(all);
    while buffer != []
      invariant dispatcher.Valid() && fresh(dispatcher.Footprint() - old(dispatcher.Footprint()))
      invariant OnTheWire(output, sent) && Drain(buffer).1 == Drain(received).1
      invariant Continues(all, sent, Process(cfg, dispatcher.Now(), clock, n, Drain(buffer).0 + later))
      decreases |buffer|
    {
      hide Continues;
      var outcome := Resp.ParseOne(buffer);
      if outcome.Incomplete? {
        break;
      }
      var kept := if outcome.Malformed? then [] else buffer[outcome.consumed..];
      DrainOne(buffer, later);
      AnswerOne(all, sent, cfg, dispatcher.Now(), clock, n, EventOf(outcome), Drain(kept).0 + later);
      var encoded, reply := Reply(dispatcher, EventOf(outcome), clock(n));
      if encoded.Failure? {
        return output, buffer, n, false, sent;
      }
      EncodeAllSnoc(sent, reply);
      sent := sent + [reply];
      output := output + encoded.value;
      n := n + 1;
      buffer := kept;
    }
    EmptyIsIncomplete();
    DrainStops(buffer);
    assert [] + later == later;
    open := true;
  }

  lemma NothingSent(all: Served)
    ensures Continues(all, [], all) && OnTheWire([], [])
  {
    assert [] + all.1 == all.1;
  }

  lemma WireAppend(output: bytes, sent: seq<R.Response>, more: bytes, others: seq<R.Response>)
    requires OnTheWire(output, sent) && OnTheWire(more, others)
    ensures OnTheWire(output + more, sent + others)
    decreases |others|
  {
    hide R.Encode;
    if others == [] {
      assert sent + others == sent && output + more == output;
    } else {
      var n := |others| - 1;
      assert others == others[..n] + [others[n]];
      EncodeAllSnoc(others[..n], others[n]);
      WireAppend(output, sent, R.EncodeAll(others[..n]), others[..n]);
      EncodeAllSnoc(sent + others[..n], others[n]);
      assert sent + others == (sent + others[..n]) + [others[n]];
    }
  }

  /** handle_client: read chunk after chunk until the peer closes, or an exception ends it. */
  method HandleClient(dispatcher: Dispatcher, chunks: seq<bytes>, clock: nat -> Time)
    returns (output: bytes, open: bool, ghost replies: seq<R.Response>)
    requires dispatcher.Valid() && forall c :: c in chunks ==> c != []
    modifies dispatcher.Footprint()
    ensures dispatcher.Valid() && fresh(dispatcher.Footprint() - old(dispatcher.Footprint()))
    ensures OnTheWire(output, replies)
    ensures (dispatcher.Now(), replies, open)
            == Process(dispatcher.Settings(), old(dispatcher.Now()), clock, 0, Feed([], chunks).0)
  {
    hide Process, Drain, OnTheWire, Continues;
    ghost var cfg := dispatcher.Settings();
    ghost var all := Process(cfg, dispatcher.Now(), clock, 0, Feed([], chunks).0);
    var buffer: bytes, n: nat := [], 0;
    output, replies := [], [];
    NothingSent(all);
    assert chunks[0..] == chunks;
    for i := 0 to |chunks|
      invariant dispatcher.Valid() && fresh(dispatcher.Footprint() - old(dispatcher.Footprint()))
      invariant OnTheWire(output, replies)
      invariant Continues(all, replies, Process(cfg, dispatcher.Now(), clock, n, Feed(buffer, chunks[i..]).0))
    {
      assert chunks[i..][1..] == chunks[i + 1..];
      ghost var later := Feed(Drain(buffer + chunks[i]).1, chunks[i + 1..]).0;
      ghost var middle := Process(cfg, dispatcher.Now(), clock, n, Feed(buffer, chunks[i..]).0);
      var more, kept, served, stays, sent := ServeBuffer(dispatcher, buffer + chunks[i], clock, n, later);
      WireAppend(output, replies, more, sent);
      ContinuesTwice(all, replies, middle, sent, Process(cfg, dispatcher.Now(), clock, served, later));
      EndsLater(all, replies, middle, dispatcher.Now(), sent);
      output, replies := output + more, replies + sent;
      if !stays {
        return output, false, replies;
      }
      buffer, n := kept, served;
    }
    NothingLeft(all, replies, cfg, dispatcher.Now(), clock, n, Feed(buffer, chunks[|chunks|..]).0);
    open := true;
  }

  lemma ContinuesTwice(all: Served, sent: seq<R.Response>, middle: Served, more: seq<R.Response>, rest: Served)
    requires Continues(all, sent, middle)
    ensures Continues(middle, more, rest) ==> Continues(all, sent + more, rest)
  {
    assert sent + (more + rest.1) == (sent + more) + rest.1;
  }

  lemma EndsLater(all: Served, sent: seq<R.Response>, middle: Served, m: Machine, more: seq<R.Response>)
    requires Continues(all, sent, middle)
    ensures middle == (m, more, false) ==> all == (m, sent + more, false)
  {
  }

  lemma NothingLeft(all: Served, sent: seq<R.Response>, cfg: Config, m: Machine,
                    clock: nat -> Time, n: nat, events: seq<Event>)
    requires events == [] && Continues(all, sent, Process(cfg, m, clock, n, events))
    ensures all == (m, sent, true)
  {
    assert sent + [] == sent;
  }

  lemma EmptyIsIncomplete()
    ensures Resp.Parse([]).Incomplete?
  {
  }

  /** Nothing more can be taken from an incomplete buffer. */
  lemma DrainStops(buffer: bytes)
    requires Resp.Parse(buffer).Incomplete?
    ensures Drain(buffer) == ([], buffer)
  {
  }
}
