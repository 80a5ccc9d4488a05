/**
 What each connection of a schedule is sent, and in which order, from the dispatcher's answers alone;
 and that one connection by itself is the loop of module Server.
 */
module Connections {
  import opened Wrappers
  import opened Bytes
  import opened Stores
  import opened Files
  import opened Dispatching
  import opened Server
  import opened Clients
  import Resp
  import R = Replies

  // ---------- the replies of one connection among many ----------

  /** What the dispatcher answers to the connection if it serves it next. */
  function NextAnswer(cfg: Config, w: World<Machine>, c: nat): Result<R.Response, Exception>
    requires c < |w.conns| && !Resp.Parse(w.conns[c].buffer).Incomplete?
  {
    Answer(cfg, w.state, EventOf(Resp.Parse(w.conns[c].buffer)), w.now).1
  }

  predicate GoesOut(answer: Result<R.Response, Exception>) {
    answer.Success? && R.Encode(answer.value).Success?
  }

  /** What a step sends to a connection. */
  function SentBy(cfg: Config, w: World<Machine>, step: Step, c: nat): seq<R.Response>
    requires Enabled(w.conns, w.now, step)
  {
    if step.Serve? && step.c == c && GoesOut(NextAnswer(cfg, w, c)) then [NextAnswer(cfg, w, c).value] else []
  }

  /** The bytes that it brings. */
  function BroughtBy(step: Step, c: nat): bytes {
    if step.Receive? && step.c == c then step.chunk else []
  }

  /** Whether it closes the connection. */
  predicate ClosedBy(cfg: Config, w: World<Machine>, step: Step, c: nat)
    requires Enabled(w.conns, w.now, step)
  {
    step.Serve? && step.c == c && !GoesOut(NextAnswer(cfg, w, c))
  }

  ghost function RepliesIn(cfg: Config, w: World<Machine>, steps: seq<Step>, c: nat): seq<R.Response>
    requires Possible(cfg, w, steps)
    decreases |steps|
  {
    if steps == [] then [] else SentBy(cfg, w, steps[0], c) + RepliesIn(cfg, Next(cfg, w, steps[0]), steps[1..], c)
  }

  function BytesIn(steps: seq<Step>, c: nat): bytes
    decreases |steps|
  {
    if steps == [] then [] else BroughtBy(steps[0], c) + BytesIn(steps[1..], c)
  }

  ghost predicate ClosedIn(cfg: Config, w: World<Machine>, steps: seq<Step>, c: nat)
    requires Possible(cfg, w, steps)
    decreases |steps|
  {
    steps != [] && (ClosedBy(cfg, w, steps[0], c) || ClosedIn(cfg, Next(cfg, w, steps[0]), steps[1..], c))
  }

  lemma StepOfConnection(cfg: Config, w: World<Machine>, step: Step, c: nat)
    requires Enabled(w.conns, w.now, step) && c < |w.conns|
    ensures var v := Next(cfg, w, step);
            |v.conns| == |w.conns| &&
            v.conns[c].replies == w.conns[c].replies + SentBy(cfg, w, step, c) &&
            v.conns[c].received == w.conns[c].received + BroughtBy(step, c) &&
            (v.conns[c].open <==> w.conns[c].open && !ClosedBy(cfg, w, step, c))
  {
    hide Answer, Resp.Parse, R.Encode, Perform;
    assert w.conns[c].replies + [] == w.conns[c].replies && w.conns[c].received + [] == w.conns[c].received;
  }

  lemma ThreeParts<T>(a: seq<T>, b: seq<T>, c: seq<T>)
    ensures (a + b) + c == a + (b + c)
  {
  }

  /**
   Under every schedule the replies of a connection are its answers in the order of service, it has received
   its own bytes in their order, and the first answer that fails or cannot be encoded closes it, and nothing else.
   */
  lemma {:induction false} RepliesInOrder(cfg: Config, w: World<Machine>, steps: seq<Step>, c: nat)
    requires Possible(cfg, w, steps) && c < |w.conns|
    ensures var v := After(cfg, w, steps);
            |v.conns| == |w.conns| &&
            v.conns[c].replies == w.conns[c].replies + RepliesIn(cfg, w, steps, c) &&
            v.conns[c].received == w.conns[c].received + BytesIn(steps, c) &&
            (v.conns[c].open <==> w.conns[c].open && !ClosedIn(cfg, w, steps, c))
    decreases |steps|
  {
    hide Enabled, Next, SentBy, BroughtBy, ClosedBy;
    var conn := w.conns[c];
    if steps == [] {
      assert conn.replies + [] == conn.replies && conn.received + [] == conn.received;
    } else {
      var v := Next(cfg, w, steps[0]);
      StepOfConnection(cfg, w, steps[0], c);
      RepliesInOrder(cfg, v, steps[1..], c);
      ThreeParts(conn.replies, SentBy(cfg, w, steps[0], c), RepliesIn(cfg, v, steps[1..], c));
      ThreeParts(conn.received, BroughtBy(steps[0], c), BytesIn(steps[1..], c));
    }
  }

  // ---------- one connection by itself ----------

  /** The chunks that arrive. */
  function ChunksOf(steps: seq<Step>): seq<bytes>
    decreases |steps|
  {
    if steps == [] then []
    else if steps[0].Receive? then [steps[0].chunk] + ChunksOf(steps[1..])
    else ChunksOf(steps[1..])
  }

  predicate NoSaves(steps: seq<Step>) {
    forall i :: 0 <= i < |steps| ==> !steps[i].Snapshot?
  }

  /** clock(n) is the time of the n-th answer. */
  ghost predicate Timed(cfg: Config, w: World<Machine>, steps: seq<Step>, clock: nat -> Time, n: nat)
    requires Possible(cfg, w, steps)
    decreases |steps|
  {
    steps != [] ==>
      (steps[0].Serve? ==> clock(n) == w.now) &&
      Timed(cfg, Next(cfg, w, steps[0]), steps[1..], clock, if steps[0].Serve? then n + 1 else n)
  }

  /** Nothing is left to do for the connection. */
  predicate Quiet(conn: Conn) {
    !conn.open || Resp.Parse(conn.buffer).Incomplete?
  }

  /** What the loop has still to do: with what is in the buffer, and with what will arrive. */
  function EventsLeft(buffer: bytes, chunks: seq<bytes>): seq<Event> {
    Drain(buffer).0 + Feed(Drain(buffer).1, chunks).0
  }

  lemma {:induction false} ClosedStaysClosed(cfg: Config, w: World<Machine>, steps: seq<Step>)
    requires Possible(cfg, w, steps) && NoSaves(steps) && |w.conns| == 1 && !w.conns[0].open
    ensures After(cfg, w, steps).state == w.state && After(cfg, w, steps).conns == w.conns
    decreases |steps|
  {
    hide Answer, Resp.Parse, Perform, Front, Advance, Arrive;
    if steps != [] {
      assert steps[0].Tick?;
      ClosedStaysClosed(cfg, Next(cfg, w, steps[0]), steps[1..]);
    }
  }

  lemma NothingLeft(buffer: bytes)
    requires Resp.Parse(buffer).Incomplete?
    ensures EventsLeft(buffer, []) == []
  {
  }

  lemma OneChunkMore(buffer: bytes, chunk: bytes, chunks: seq<bytes>)
    requires Resp.Parse(buffer).Incomplete?
    ensures EventsLeft(buffer, [chunk] + chunks) == EventsLeft(buffer + chunk, chunks)
  {
    hide Resp.Parse;
    DrainStops(buffer);
    assert ([chunk] + chunks)[1..] == chunks;
    hide Drain;
    assert [] + Feed(buffer, [chunk] + chunks).0 == Feed(buffer, [chunk] + chunks).0;
  }

  lemma OneEventLess(buffer: bytes, chunks: seq<bytes>)
    requires !Resp.Parse(buffer).Incomplete?
    ensures var outcome := Resp.Parse(buffer);
            var kept := if outcome.Malformed? then [] else buffer[outcome.consumed..];
            EventsLeft(buffer, chunks) == [EventOf(outcome)] + EventsLeft(kept, chunks)
  {
    hide Resp.Parse, Drain;
    DrainOne(buffer, Feed(Drain(buffer).1, chunks).0);
  }

  lemma ProcessOne(cfg: Config, m: Machine, clock: nat -> Time, n: nat, e: Event, events: seq<Event>)
    ensures var (m', reply) := Answer(cfg, m, e, clock(n));
            Process(cfg, m, clock, n, [e] + events) ==
            if !GoesOut(reply) then (m', [], false)
            else
              var (last, replies, open) := Process(cfg, m', clock, n + 1, events);
              (last, [reply.value] + replies, open)
  {
    assert ([e] + events)[1..] == events;
  }

  /** The schedule of one connection without saves is the loop, wherever it stands. */
  lemma {:induction false} AloneIsTheLoop(cfg: Config, w: World<Machine>, steps: seq<Step>, clock: nat -> Time, n: nat)
    requires Possible(cfg, w, steps) && NoSaves(steps) && Timed(cfg, w, steps, clock, n)
    requires |w.conns| == 1 && w.conns[0].open
    requires forall conn :: conn in After(cfg, w, steps).conns ==> Quiet(conn)
    ensures var v := After(cfg, w, steps);
            var (m, replies, open) := Process(cfg, w.state, clock, n, EventsLeft(w.conns[0].buffer, ChunksOf(steps)));
            |v.conns| == 1 && v.state == m && v.conns[0].replies == w.conns[0].replies + replies &&
            v.conns[0].open == open
    decreases |steps|
  {
    hide Answer, Resp.Parse, R.Encode, EventsLeft, Process, Perform;
    var conn := w.conns[0];
    if steps == [] {
      assert After(cfg, w, steps) == w && conn in w.conns;
      NothingLeft(conn.buffer);
      ProcessNothing(cfg, w.state, clock, n);
      assert conn.replies + [] == conn.replies;
    } else {
      var v, rest := Next(cfg, w, steps[0]), steps[1..];
      match steps[0] {
        case Receive(c, chunk) =>
          OneChunkMore(conn.buffer, chunk, ChunksOf(rest));
          AloneIsTheLoop(cfg, v, rest, clock, n);
        case Tick(to) =>
          AloneIsTheLoop(cfg, v, rest, clock, n);
        case Serve(c) =>
          var e, chunks := EventOf(Resp.Parse(conn.buffer)), ChunksOf(rest);
          OneEventLess(conn.buffer, chunks);
          ProcessOne(cfg, w.state, clock, n, e, EventsLeft(v.conns[0].buffer, chunks));
          if v.conns[0].open {
            AloneIsTheLoop(cfg, v, rest, clock, n + 1);
            ThreeParts(conn.replies, [NextAnswer(cfg, w, 0).value],
                       Process(cfg, v.state, clock, n + 1, EventsLeft(v.conns[0].buffer, chunks)).1);
          } else {
            ClosedStaysClosed(cfg, v, rest);
            assert conn.replies + [] == conn.replies;
          }
      }
    }
  }

  lemma ProcessNothing(cfg: Config, m: Machine, clock: nat -> Time, n: nat)
    ensures Process(cfg, m, clock, n, []) == (m, [], true)
  {
  }

  /**
   A fresh connection by itself, served until nothing is left to do: machine, replies and whether it is still open
   are what the loop of the server makes of its chunks.
   */
  lemma OneClientIsTheLoop(cfg: Config, w: World<Machine>, steps: seq<Step>, clock: nat -> Time)
    requires w.conns == [Conn([], [], [], [], true)]
    requires Possible(cfg, w, steps) && NoSaves(steps) && Timed(cfg, w, steps, clock, 0)
    requires forall conn :: conn in After(cfg, w, steps).conns ==> Quiet(conn)
    ensures var v := After(cfg, w, steps);
            |v.conns| == 1 &&
            (v.state, v.conns[0].replies, v.conns[0].open)
            == Process(cfg, w.state, clock, 0, Feed([], ChunksOf(steps)).0)
  {
    hide Process, Resp.Parse;
    AloneIsTheLoop(cfg, w, steps, clock, 0);
    EmptyIsIncomplete();
    DrainStops([]);
    hide Drain, Feed;
    var events := Feed([], ChunksOf(steps)).0;
    assert [] + events == events;
    var replies := Process(cfg, w.state, clock, 0, events).1;
    assert [] + replies == replies;
  }

  // ---------- no connection can be held up ----------

  /** In every world an open connection with nothing left to do can receive, and one with something left be served. */
  lemma AlwaysEnabled(w: World<Machine>, c: nat, chunk: bytes)
    requires c < |w.conns| && w.conns[c].open && chunk != []
    ensures Enabled(w.conns, w.now, if Quiet(w.conns[c]) then Receive(c, chunk) else Serve(c))
    ensures Enabled(w.conns, w.now, Snapshot) && forall to :: w.now <= to ==> Enabled(w.conns, w.now, Tick(to))
  {
  }

  /** Whatever the others do or do not do, a connection can be served until nothing is left to do for it. */
  lemma {:induction false} CanFinish(cfg: Config, w: World<Machine>, c: nat) returns (steps: seq<Step>)
    requires c < |w.conns|
    ensures Possible(cfg, w, steps) && forall i :: 0 <= i < |steps| ==> steps[i] == Serve(c)
    ensures var v := After(cfg, w, steps);
            |v.conns| == |w.conns| && Quiet(v.conns[c]) && v.now == w.now &&
            forall d :: 0 <= d < |w.conns| && d != c ==> v.conns[d] == w.conns[d]
    decreases |w.conns[c].buffer|
  {
    hide Answer, R.Encode, Resp.Parse;
    steps := [];
    if !Quiet(w.conns[c]) {
      EmptyIsIncomplete();
      AlwaysEnabled(w, c, "x");
      var v := Next(cfg, w, Serve(c));
      var others := CanFinish(cfg, v, c);
      steps := [Serve(c)] + others;
      assert steps[1..] == others;
    }
  }

  /** A crash during a periodic save leaves the old files, the new snapshot with the old log, or the new snapshot. */
  lemma SavesLeaveThree(cfg: Config, w: World<Machine>, d: Disk)
    requires cfg.persist && Enabled(w.conns, w.now, Snapshot)
    ensures var saved := SaveImage(w.state.disk, Image(w.state.mem, w.now));
            LeftBehind(d, w, Next(cfg, w, Snapshot)) <==> d in [w.state.disk, saved, ResetLog(saved)]
  {
    hide Sweep, Image;
    var v, saved := Next(cfg, w, Snapshot), SaveImage(w.state.disk, Image(w.state.mem, w.now));
    var before := |w.state.trace|;
    assert v.state.trace[before] == saved;
    if w.state.disk.aof.Some? {
      assert v.state.trace[before + 1] == ResetLog(saved);
    } else {
      assert ResetLog(saved) == saved;
    }
  }

  // ---------- the loop, answer by answer ----------

  /** The machine after the first j answers. */
  function StateAfter(cfg: Config, m: Machine, clock: nat -> Time, n: nat, events: seq<Event>, j: nat): Machine
    requires j <= |events|
  {
    if j == 0 then m else Answer(cfg, StateAfter(cfg, m, clock, n, events, j - 1), events[j - 1], clock(n + j - 1)).0
  }

  /** The answer to event j. */
  function AnswerAt(cfg: Config, m: Machine, clock: nat -> Time, n: nat, events: seq<Event>, j: nat)
    : Result<R.Response, Exception>
    requires j < |events|
  {
    Answer(cfg, StateAfter(cfg, m, clock, n, events, j), events[j], clock(n + j)).1
  }

  lemma {:induction false} StateAfterFirst(cfg: Config, m: Machine, clock: nat -> Time, n: nat, events: seq<Event>,
                                           j: nat)
    requires 0 < |events| && j < |events|
    ensures StateAfter(cfg, m, clock, n, events, j + 1)
            == StateAfter(cfg, Answer(cfg, m, events[0], clock(n)).0, clock, n + 1, events[1..], j)
    decreases j
  {
    hide Answer;
    if j > 0 {
      StateAfterFirst(cfg, m, clock, n, events, j - 1);
    } else {
      assert StateAfter(cfg, m, clock, n, events, 0) == m;
    }
  }

  lemma AnswerAtFirst(cfg: Config, m: Machine, clock: nat -> Time, n: nat, events: seq<Event>, i: nat)
    requires 0 < i < |events|
    ensures AnswerAt(cfg, m, clock, n, events, i)
            == AnswerAt(cfg, Answer(cfg, m, events[0], clock(n)).0, clock, n + 1, events[1..], i - 1)
  {
    hide Answer;
    StateAfterFirst(cfg, m, clock, n, events, i - 1);
  }

  /**
   The answers are sent in order up to the first that fails or cannot be encoded, which is carried out but
   not sent, and which closes the connection.
   */
  ghost predicate SendsAnswers(cfg: Config, m: Machine, clock: nat -> Time, n: nat, events: seq<Event>,
                               served: Served)
  {
    var (last, replies, open) := served;
    |replies| <= |events| && (open <==> |replies| == |events|) &&
    (forall j :: 0 <= j < |replies| ==>
       AnswerAt(cfg, m, clock, n, events, j) == Success(replies[j]) && R.Encode(replies[j]).Success?) &&
    (!open ==> !GoesOut(AnswerAt(cfg, m, clock, n, events, |replies|))) &&
    last == StateAfter(cfg, m, clock, n, events, if open then |replies| else |replies| + 1)
  }

  lemma SendsOneMore(cfg: Config, m: Machine, clock: nat -> Time, n: nat, events: seq<Event>, served: Served)
    requires events != [] && GoesOut(Answer(cfg, m, events[0], clock(n)).1)
    requires SendsAnswers(cfg, Answer(cfg, m, events[0], clock(n)).0, clock, n + 1, events[1..], served)
    ensures var reply := Answer(cfg, m, events[0], clock(n)).1.value;
            SendsAnswers(cfg, m, clock, n, events, (served.0, [reply] + served.1, served.2))
  {
    hide Answer, R.Encode, StateAfter, AnswerAt;
    FirstAnswer(cfg, m, clock, n, events);
    var (last, replies, open) := served;
    var more := [Answer(cfg, m, events[0], clock(n)).1.value] + replies;
    StateAfterFirst(cfg, m, clock, n, events, if open then |replies| else |replies| + 1);
    forall j | 0 < j < |more|
      ensures AnswerAt(cfg, m, clock, n, events, j) == Success(more[j]) && R.Encode(more[j]).Success?
    {
      AnswerAtFirst(cfg, m, clock, n, events, j);
      assert more[j] == replies[j - 1];
    }
    if !open {
      AnswerAtFirst(cfg, m, clock, n, events, |more|);
    }
  }

  lemma FirstAnswer(cfg: Config, m: Machine, clock: nat -> Time, n: nat, events: seq<Event>)
    requires events != []
    ensures var (m', reply) := Answer(cfg, m, events[0], clock(n));
            AnswerAt(cfg, m, clock, n, events, 0) == reply && StateAfter(cfg, m, clock, n, events, 0) == m &&
            StateAfter(cfg, m, clock, n, events, 1) == m'
  {
    assert StateAfter(cfg, m, clock, n, events, 0) == m;
  }

  /** The loop sends the dispatcher's answers. */
  lemma {:induction false} ProcessSendsAnswers(cfg: Config, m: Machine, clock: nat -> Time, n: nat, events: seq<Event>)
    ensures SendsAnswers(cfg, m, clock, n, events, Process(cfg, m, clock, n, events))
    decreases |events|
  {
    hide Answer, R.Encode, SendsAnswers;
    if events == [] {
      SendsNothing(cfg, m, clock, n);
    } else {
      var (m', reply) := Answer(cfg, m, events[0], clock(n));
      if GoesOut(reply) {
        ProcessSendsAnswers(cfg, m', clock, n + 1, events[1..]);
        SendsOneMore(cfg, m, clock, n, events, Process(cfg, m', clock, n + 1, events[1..]));
      } else {
        StopsAtOnce(cfg, m, clock, n, events);
      }
    }
  }

  lemma SendsNothing(cfg: Config, m: Machine, clock: nat -> Time, n: nat)
    ensures SendsAnswers(cfg, m, clock, n, [], (m, [], true))
  {
  }

  lemma StopsAtOnce(cfg: Config, m: Machine, clock: nat -> Time, n: nat, events: seq<Event>)
    requires events != [] && !GoesOut(Answer(cfg, m, events[0], clock(n)).1)
    ensures SendsAnswers(cfg, m, clock, n, events, (Answer(cfg, m, events[0], clock(n)).0, [], false))
  {
    hide Answer, R.Encode, StateAfter, AnswerAt;
    FirstAnswer(cfg, m, clock, n, events);
  }
}
