/**
 End to end: requests printed by the client, cut into chunks by the network, parsed, served,
 encoded and read back by the client give the replies of the eager map, one for each request.
 */
module Pipeline {
  import opened Wrappers
  import opened Bytes
  import opened Stores
  import opened EagerMap
  import opened Files
  import opened Dispatching
  import opened Server
  import Resp
  import R = Replies
  import Recovery

  // ---------- dispatching, and the steps of the recovery machine ----------

  /** The steps that a dispatched command takes in the crash model. */
  function StepsOf(cfg: Config, s: Recovery.Sys, cmd: Resp.Command): seq<Recovery.Step>
    requires s.phase.Ready?
  {
    var moved := Redirection(cfg, cmd);
    var verb := VerbOf(NormalizedName(cmd));
    if moved.Failure? || moved.value.Some? || verb.None? then []
    else
      match RequestOf(verb.value, cmd.args)
      case Failure(_) => []
      case Success(Ping) => []
      case Success(Save) => [Recovery.Save, Recovery.Reset]
      case Success(Keyed(op)) =>
        var run := Recovery.Run(op);
        if Recovery.Next(s, run).phase.Logging? then [run, Recovery.Ack] else [run]
  }

  lemma AfterTwo(s: Recovery.Sys, a: Recovery.Step, b: Recovery.Step)
    requires Recovery.Enabled(s, a) && Recovery.Enabled(Recovery.Next(s, a), b)
    ensures Recovery.Possible(s, [a, b]) && Recovery.After(s, [a, b]) == Recovery.Next(Recovery.Next(s, a), b)
    ensures Recovery.Possible(s, [a]) && Recovery.Possible(Recovery.Next(s, a), [b]) &&
            Recovery.DiskTrace(s, [a, b]) == Recovery.DiskTrace(s, [a]) + Recovery.DiskTrace(Recovery.Next(s, a), [b])
  {
    AfterOne(s, a);
    AfterOne(Recovery.Next(s, a), b);
    assert [a, b][1..] == [b];
  }

  lemma AfterOne(s: Recovery.Sys, a: Recovery.Step)
    requires Recovery.Enabled(s, a)
    ensures Recovery.Possible(s, [a]) && Recovery.After(s, [a]) == Recovery.Next(s, a)
    ensures Recovery.DiskTrace(s, [a]) == Recovery.Wrote(s, a)
  {
    assert [a][1..] == [];
    assert Recovery.Possible(Recovery.Next(s, a), []);
  }

  /** The server's machine in a state of the crash model, after these changes of its files. */
  function MachineOf(s: Recovery.Sys, trace: seq<Disk>): Machine {
    Machine(s.mem, s.disk, trace)
  }

  /** Steps from s to a ready state with this machine, through the same states of the disk. */
  ghost predicate Realizes(s: Recovery.Sys, steps: seq<Recovery.Step>, trace: seq<Disk>, m: Machine) {
    Recovery.Possible(s, steps) && Recovery.LivesOn(steps) &&
    var t := Recovery.After(s, steps);
    t.phase.Ready? && t.now == s.now && m == MachineOf(t, trace + Recovery.DiskTrace(s, steps))
  }

  lemma NoStep(s: Recovery.Sys, trace: seq<Disk>)
    requires s.phase.Ready?
    ensures Realizes(s, [], trace, MachineOf(s, trace))
  {
    assert trace + [] == trace;
  }

  lemma SaveTakesSteps(cfg: Config, s: Recovery.Sys, trace: seq<Disk>)
    requires s.phase.Ready? && cfg.persist
    ensures Realizes(s, [Recovery.Save, Recovery.Reset], trace, Perform(cfg, MachineOf(s, trace), Save, s.now).0)
  {
    hide Sweep, Image;
    AfterTwo(s, Recovery.Save, Recovery.Reset);
    AfterOne(s, Recovery.Save);
    AfterOne(Recovery.Next(s, Recovery.Save), Recovery.Reset);
  }

  lemma CommandTakesSteps(cfg: Config, s: Recovery.Sys, trace: seq<Disk>, op: Op)
    requires s.phase.Ready? && cfg.persist
    ensures var run := Recovery.Run(op);
            var steps := if Recovery.Next(s, run).phase.Logging? then [run, Recovery.Ack] else [run];
            Realizes(s, steps, trace, Perform(cfg, MachineOf(s, trace), Keyed(op), s.now).0)
  {
    hide LazyStep, Recovery.Pending, AppendTo;
    var run := Recovery.Run(op);
    var t := Recovery.Next(s, run);
    var m := Perform(cfg, MachineOf(s, trace), Keyed(op), s.now).0;
    AfterOne(s, run);
    assert trace + [] == trace;
    if t.phase.Logging? {
      assert m == Written(MachineOf(t, trace), AppendTo(s.disk, t.phase.entry));
      AfterTwo(s, run, Recovery.Ack);
      AfterOne(t, Recovery.Ack);
    } else {
      var (u, reply) := LazyStep(s.mem, op, s.now);
      assert reply.Success? ==> Recovery.Pending(u, op, reply.value, s.now).None?;
      assert m.mem == t.mem && m.disk == s.disk && m.trace == trace;
    }
  }

  /**
   The crash model is about this server: every dispatched command is a run of its steps, and the
   files go through the same states in the same order, so a crash finds nothing else.
   */
  lemma DispatchTakesSteps(cfg: Config, s: Recovery.Sys, trace: seq<Disk>, cmd: Resp.Command)
    requires s.phase.Ready? && cfg.persist
    ensures Realizes(s, StepsOf(cfg, s, cmd), trace, Dispatch(cfg, MachineOf(s, trace), cmd, s.now).0)
  {
    hide VerbOf, RequestOf, Redirection, Refusal, LazyStep, Perform, R.ErrorReply, Realizes;
    NoStep(s, trace);
    PingTakesNoStep(cfg, MachineOf(s, trace), s.now);
    var moved := Redirection(cfg, cmd);
    var verb := VerbOf(NormalizedName(cmd));
    if moved.Failure? || moved.value.Some? || verb.None? {
    } else {
      match RequestOf(verb.value, cmd.args) {
        case Failure(_) =>
        case Success(Ping) =>
        case Success(Save) => SaveTakesSteps(cfg, s, trace);
        case Success(Keyed(op)) => CommandTakesSteps(cfg, s, trace, op);
      }
    }
  }

  lemma PingTakesNoStep(cfg: Config, m: Machine, now: Time)
    ensures Perform(cfg, m, Ping, now).0 == m
  {
  }

  /** What a reply to this operation confirms. */
  function ConfirmedOp(op: Op, reply: R.Response, now: Time): seq<LogEntry> {
    match op
    case Set(k, v) => [LogSet(k, v)]
    case Del(k) => if reply == R.Integer(1) then [LogDel(k)] else []
    case Expire(k, seconds) => if reply == R.Integer(1) then [LogExpire(k, now + seconds as real)] else []
    case _ => []
  }

  /** What a client may count on once it has read the reply to its command. */
  function Confirmed(cfg: Config, cmd: Resp.Command, reply: R.Response, now: Time): seq<LogEntry> {
    var moved := Redirection(cfg, cmd);
    var verb := VerbOf(NormalizedName(cmd));
    if moved.Failure? || moved.value.Some? || verb.None? then []
    else
      match RequestOf(verb.value, cmd.args)
      case Success(Keyed(op)) => ConfirmedOp(op, reply, now)
      case _ => []
  }

  /**
   The reply is the acknowledgement: exactly what it confirms is counted as acknowledged, and without
   a reply nothing is.
   */
  lemma RepliesAcknowledge(cfg: Config, s: Recovery.Sys, trace: seq<Disk>, cmd: Resp.Command)
    requires s.phase.Ready? && cfg.persist
    ensures var reply := Dispatch(cfg, MachineOf(s, trace), cmd, s.now).1;
            var steps := StepsOf(cfg, s, cmd);
            Recovery.Possible(s, steps) &&
            Recovery.After(s, steps).acked ==
            s.acked + if reply.Success? then Confirmed(cfg, cmd, reply.value, s.now) else []
  {
    hide VerbOf, NormalizedName, RequestOf, Redirection, Refusal, Perform, ConfirmedOp, R.ErrorReply;
    var moved := Redirection(cfg, cmd);
    var verb := VerbOf(NormalizedName(cmd));
    assert s.acked + [] == s.acked && Recovery.Possible(s, []);
    if !(moved.Failure? || moved.value.Some? || verb.None?) {
      match RequestOf(verb.value, cmd.args) {
        case Success(Save) => AfterTwo(s, Recovery.Save, Recovery.Reset);
        case Success(Keyed(op)) => OpAcknowledges(cfg, s, trace, op);
        case _ =>
      }
    }
  }

  /** The reply on the wire confirms what the store's reply promises. */
  lemma ReplyConfirms(op: Op, reply: Reply, now: Time)
    ensures var promised := Recovery.Promised(op, reply, now);
            ConfirmedOp(op, Respond(reply), now) == if promised.Some? then [promised.value] else []
  {
  }

  lemma OpAcknowledges(cfg: Config, s: Recovery.Sys, trace: seq<Disk>, op: Op)
    requires s.phase.Ready? && cfg.persist
    ensures var run := Recovery.Run(op);
            var steps := if Recovery.Next(s, run).phase.Logging? then [run, Recovery.Ack] else [run];
            var reply := Perform(cfg, MachineOf(s, trace), Keyed(op), s.now).1;
            var confirmed := if reply.Success? then ConfirmedOp(op, reply.value, s.now) else [];
            Recovery.Possible(s, steps) && Recovery.After(s, steps).acked == s.acked + confirmed
  {
    hide LazyStep, Recovery.Pending, Recovery.Promised, ConfirmedOp, Respond, AppendTo;
    Recovery.RecordIsAsPromised(s.mem, op, s.now);
    var run := Recovery.Run(op);
    var reply := LazyStep(s.mem, op, s.now).1;
    assert s.acked + [] == s.acked;
    if reply.Success? {
      ReplyConfirms(op, reply.value, s.now);
    }
    if Recovery.Next(s, run).phase.Logging? {
      AfterTwo(s, run, Recovery.Ack);
    } else {
      AfterOne(s, run);
    }
  }

  // ---------- which replies fit on the wire ----------

  lemma CrOrLfConcat(a: bytes, b: bytes)
    ensures HasCrOrLf(a + b) <==> HasCrOrLf(a) || HasCrOrLf(b)
  {
  }

  /** The command's reply would echo a CR or LF: of an unknown name, or of another node's host. */
  predicate Unanswerable(cfg: Config, cmd: Resp.Command) {
    var moved := Redirection(cfg, cmd);
    if moved.Success? && moved.value.Some? then HasCrOrLf(moved.value.value)
    else VerbOf(NormalizedName(cmd)).None? && HasCrOrLf(cmd.name)
  }

  lemma ErrorReplyFits(message: bytes)
    ensures R.Encode(R.ErrorReply(message)).Failure? <==> HasCrOrLf(message)
  {
    CrOrLfConcat("ERR ", message);
  }

  lemma NoCrOrLf(s: bytes)
    requires forall i :: 0 <= i < |s| ==> s[i] != '\r' && s[i] != '\n'
    ensures !HasCrOrLf(s)
  {
  }

  lemma VerbTextFits(verb: Verb)
    ensures !HasCrOrLf(VerbText(verb))
  {
    NoCrOrLf(VerbText(verb));
  }

  lemma WrongArityFits(verb: Verb)
    ensures !HasCrOrLf(ComplaintText(WrongArity(verb)))
  {
    VerbTextFits(verb);
    hide VerbText, HasCrOrLf;
    var front: bytes, back: bytes := "wrong number of arguments for '", "' command";
    assert !HasCrOrLf(front) by { NoCrOrLf(front); }
    assert !HasCrOrLf(back) by { NoCrOrLf(back); }
    CrOrLfConcat(front + VerbText(verb), back);
    CrOrLfConcat(front, VerbText(verb));
  }

  lemma PlainTextFits(c: Complaint)
    requires c.NotAnInteger? || c.PersistenceOff?
    ensures !HasCrOrLf(ComplaintText(c))
  {
    NoCrOrLf(ComplaintText(c));
  }

  lemma ComplaintFits(c: Complaint)
    ensures HasCrOrLf(ComplaintText(c)) <==> c.UnknownCommand? && HasCrOrLf(c.name)
  {
    hide ComplaintText;
    match c {
      case UnknownCommand(name) => EchoFits(name);
      case WrongArity(verb) => WrongArityFits(verb);
      case _ => PlainTextFits(c);
    }
  }

  lemma EchoFits(name: bytes)
    ensures HasCrOrLf(ComplaintText(UnknownCommand(name))) <==> HasCrOrLf(name)
  {
    CrOrLfConcat("unknown command '" + name, "'");
    CrOrLfConcat("unknown command '", name);
  }

  /** The encoder refuses exactly the replies to unanswerable commands. */
  lemma EncoderRefusesExactly(cfg: Config, m: Machine, cmd: Resp.Command, now: Time)
    requires Dispatch(cfg, m, cmd, now).1.Success?
    ensures R.Encode(Dispatch(cfg, m, cmd, now).1.value).Failure? <==> Unanswerable(cfg, cmd)
  {
    hide VerbOf, NormalizedName, Redirection, RequestOf, LazyStep, R.ErrorReply, ComplaintText, Sweep, Image;
    hide Recovery.Pending;
    var moved := Redirection(cfg, cmd);
    if moved.Success? && moved.value.Some? {
      ErrorReplyFits(moved.value.value);
    } else if VerbOf(NormalizedName(cmd)).None? {
      ErrorReplyFits(ComplaintText(UnknownCommand(cmd.name)));
      ComplaintFits(UnknownCommand(cmd.name));
    } else {
      var request := RequestOf(VerbOf(NormalizedName(cmd)).value, cmd.args);
      RequestErrors(VerbOf(NormalizedName(cmd)).value, cmd.args);
      var c := if request.Failure? then request.error else PersistenceOff;
      ErrorReplyFits(ComplaintText(c));
      ComplaintFits(c);
    }
  }

  lemma RequestErrors(verb: Verb, args: seq<bytes>)
    ensures RequestOf(verb, args).Failure? ==> !RequestOf(verb, args).error.UnknownCommand?
  {
  }

  // ---------- the reference ----------

  /** A server over the eager map: same routing and checks, no lazy table, no files. */
  function EagerDispatch(cfg: Config, model: Model, cmd: Resp.Command, now: Time): (Model, R.Response)
    requires Redirection(cfg, cmd).Success?
  {
    var moved := Redirection(cfg, cmd).value;
    var verb := VerbOf(NormalizedName(cmd));
    if moved.Some? then (model, R.ErrorReply(moved.value))
    else if verb.None? then (model, Refusal(UnknownCommand(cmd.name)))
    else EagerHandle(cfg, model, verb.value, cmd.args, now)
  }

  function EagerHandle(cfg: Config, model: Model, verb: Verb, args: seq<bytes>, now: Time): (Model, R.Response) {
    match RequestOf(verb, args)
    case Failure(c) => (model, Refusal(c))
    case Success(Ping) => (model, R.SimpleString("PONG"))
    case Success(Save) => (model, if cfg.persist then R.SimpleString("OK") else Refusal(PersistenceOff))
    case Success(Keyed(op)) =>
      var (after, reply) := EagerStep(model, op, now);
      (after, Respond(reply))
  }

  function EagerServe(cfg: Config, model: Model, clock: nat -> Time, n: nat, commands: seq<Resp.Command>)
    : seq<R.Response>
    requires forall c :: c in commands ==> Redirection(cfg, c).Success?
    decreases |commands|
  {
    if commands == [] then []
    else
      var (after, reply) := EagerDispatch(cfg, model, commands[0], clock(n));
      [reply] + EagerServe(cfg, after, clock, n + 1, commands[1..])
  }

  /** The lazy store shows, at some time, what the model holds. */
  ghost predicate Shows(s: Store, model: Model, now: Time) {
    Tidy(s) && View(s, now) == Purge(model, now)
  }

  lemma ShowsLater(s: Store, model: Model, now: Time, later: Time)
    requires Shows(s, model, now) && now <= later
    ensures Shows(s, model, later)
  {
    ViewLater(s, now, later);
    assert Purge(Purge(model, now), later) == Purge(model, later);
  }

  lemma DispatchRefines(cfg: Config, m: Machine, model: Model, cmd: Resp.Command, now: Time)
    requires Shows(m.mem, model, now) && Redirection(cfg, cmd).Success?
    ensures var (m', reply) := Dispatch(cfg, m, cmd, now);
            var (model', expected) := EagerDispatch(cfg, model, cmd, now);
            reply == Success(expected) && Shows(m'.mem, model', now)
  {
    hide VerbOf, NormalizedName, Redirection, RequestOf, LazyStep, EagerStep, Refusal, R.ErrorReply;
    hide Sweep, Image, Recovery.Pending;
    var moved := Redirection(cfg, cmd).value;
    var verb := VerbOf(NormalizedName(cmd));
    if moved.None? && verb.Some? {
      var request := RequestOf(verb.value, cmd.args);
      if request.Success? && request.value.Keyed? {
        var op := request.value.op;
        StepRefines(m.mem, model, op, now);
        EagerStepIsPurged(model, op, now);
      } else if request.Success? && request.value.Save? {
        SweepShowsTheSame(m.mem, now);
      }
    }
  }

  lemma EagerStepIsPurged(model: Model, op: Op, now: Time)
    ensures Purge(EagerStep(model, op, now).0, now) == EagerStep(model, op, now).0
  {
  }

  lemma SweepShowsTheSame(s: Store, now: Time)
    requires Tidy(s)
    ensures Tidy(Sweep(s, now)) && View(Sweep(s, now), now) == View(s, now)
  {
  }

  // ---------- whole connections ----------

  /** One event for each command. */
  function Commands(commands: seq<Resp.Command>): seq<Event> {
    seq(|commands|, i requires 0 <= i < |commands| => Do(commands[i]))
  }

  lemma {:induction false} ServesLikeTheEagerMap(cfg: Config, m: Machine, model: Model, clock: nat -> Time, n: nat,
                                                 commands: seq<Resp.Command>)
    requires Shows(m.mem, model, clock(n))
    requires forall i, j :: i <= j ==> clock(i) <= clock(j)
    requires forall c :: c in commands ==> Redirection(cfg, c).Success? && !Unanswerable(cfg, c)
    ensures Process(cfg, m, clock, n, Commands(commands)).1 == EagerServe(cfg, model, clock, n, commands)
    ensures Process(cfg, m, clock, n, Commands(commands)).2
    ensures |EagerServe(cfg, model, clock, n, commands)| == |commands|
    decreases |commands|
  {
    hide Dispatch, EagerDispatch, Redirection, Unanswerable, R.Encode, Shows;
    if commands != [] {
      var cmd, now := commands[0], clock(n);
      DispatchRefines(cfg, m, model, cmd, now);
      EncoderRefusesExactly(cfg, m, cmd, now);
      var m', model' := Dispatch(cfg, m, cmd, now).0, EagerDispatch(cfg, model, cmd, now).0;
      ShowsLater(m'.mem, model', now, clock(n + 1));
      assert Commands(commands)[1..] == Commands(commands[1..]);
      ServesLikeTheEagerMap(cfg, m', model', clock, n + 1, commands[1..]);
    }
  }

  /** A request as a client types it, with all parts valid UTF-8. */
  predicate Sendable(c: Resp.Command) {
    ValidUtf8(c.name) && forall p :: p in c.args ==> ValidUtf8(p)
  }

  /** encode_command for each request, one after the other. */
  function EncodeRequests(commands: seq<Resp.Command>): bytes {
    if commands == [] then []
    else Resp.Encode([commands[0].name] + commands[0].args) + EncodeRequests(commands[1..])
  }

  /** All requests are taken from the stream, in order, and nothing is left over. */
  lemma {:induction false} DrainRequests(commands: seq<Resp.Command>)
    requires forall c :: c in commands ==> Sendable(c)
    ensures Drain(EncodeRequests(commands)) == (Commands(commands), [])
  {
    hide Resp.Parse, Resp.Encode, ValidUtf8;
    if commands == [] {
      EmptyIsIncomplete();
    } else {
      var c := commands[0];
      var parts := [c.name] + c.args;
      var first, rest := Resp.Encode(parts), EncodeRequests(commands[1..]);
      assert Sendable(c);
      Resp.RequestRoundTrip(parts, rest);
      assert (first + rest)[|first|..] == rest && parts[1..] == c.args;
      DrainRequests(commands[1..]);
      assert Commands(commands) == [Do(c)] + Commands(commands[1..]);
    }
  }

  lemma NoRefusalAmongCommands(commands: seq<Resp.Command>)
    ensures !Refuses(Commands(commands))
  {
  }

  /** However the network cuts the requests, the server sees the same commands. */
  lemma RequestsSurviveChunking(commands: seq<Resp.Command>, chunks: seq<bytes>)
    requires forall c :: c in commands ==> Sendable(c)
    requires Join(chunks) == EncodeRequests(commands)
    ensures Feed([], chunks) == (Commands(commands), [])
  {
    DrainRequests(commands);
    FeedFromStart(chunks);
    NoRefusalAmongCommands(commands);
  }

  /**
   A whole session over the real loops: deliver the printed requests in any chunks, serve them, and
   read the replies with any schedule of partial reads. Each text read is the encoding of the
   eager map's reply to the request at that place.
   */
  method Session(dispatcher: Dispatcher, ghost model: Model, ghost commands: seq<Resp.Command>, count: nat,
                 chunks: seq<bytes>, clock: nat -> Time)
    returns (texts: seq<bytes>)
    requires dispatcher.Valid() && Shows(dispatcher.Now().mem, model, clock(0))
    requires forall i, j :: i <= j ==> clock(i) <= clock(j)
    requires count == |commands| && forall c :: c in commands ==> Sendable(c)
    requires CutOf(chunks, EncodeRequests(commands))
    requires forall c :: c in commands ==>
               Redirection(dispatcher.Settings(), c).Success? && !Unanswerable(dispatcher.Settings(), c)
    modifies dispatcher.Footprint()
    ensures dispatcher.Valid() && |texts| == |commands|
    ensures var replies := EagerServe(dispatcher.Settings(), model, clock, 0, commands);
            |replies| == |commands| && forall i :: 0 <= i < |commands| ==> R.Encode(replies[i]) == Success(texts[i])
  {
    hide Process, Unanswerable, Redirection, R.Encode, ValidUtf8, EagerServe, Resp.Encode, Shows, Dispatcher.Valid;
    ghost var cfg, before := dispatcher.Settings(), dispatcher.Now();
    RequestsSurviveChunking(commands, chunks);
    ServesLikeTheEagerMap(cfg, before, model, clock, 0, commands);
    var output, open, replies := HandleClient(dispatcher, chunks, clock);
    var sock := new R.Socket(output);
    assert output == R.EncodeAll(replies) + [];
    texts := R.RecvAll(sock, count, replies, []);
  }
}
