/**
 Many clients at once. Every connection has its own buffer and loop, all share one dispatcher, and
 the event loop may switch between them after every reply. Under every schedule each client sees
 the commands of its own stream only, answered by one eager map in the order of service.
 */
module Clients {
  import opened Wrappers
  import opened Bytes
  import opened Stores
  import opened Files
  import opened AppendLog
  import opened ReplayLaws
  import opened Persistence
  import opened EagerMap
  import opened Dispatching
  import opened Server
  import opened Pipeline
  import Resp
  import R = Replies
  import Recovery

  /** A connection: all bytes that arrived, those not yet used, what was done, and what was answered. */
  datatype Conn = Conn(received: bytes, buffer: bytes, done: seq<Event>, replies: seq<R.Response>, open: bool)

  datatype Step =
    | Receive(c: nat, chunk: bytes)  // the outer loop reads
    | Serve(c: nat)                  // the inner loop answers one command or error
    | Tick(to: Time)
    | Snapshot                       // the periodic save

  /** The connections over some state: the machine, or the reference map. */
  datatype World<S> = World(state: S, now: Time, conns: seq<Conn>)

  /** What can happen next does not depend on the state. */
  predicate Enabled(conns: seq<Conn>, now: Time, step: Step) {
    match step
    case Receive(c, chunk) =>
      c < |conns| && conns[c].open && chunk != [] && Resp.Parse(conns[c].buffer).Incomplete?
    case Serve(c) => c < |conns| && conns[c].open && !Resp.Parse(conns[c].buffer).Incomplete?
    case Tick(to) => now <= to
    case Snapshot => true
  }

  function Arrive(conn: Conn, chunk: bytes): Conn {
    conn.(received := conn.received + chunk, buffer := conn.buffer + chunk)
  }

  /** The next event of a connection. */
  function Front(conn: Conn): Event
    requires !Resp.Parse(conn.buffer).Incomplete?
  {
    EventOf(Resp.Parse(conn.buffer))
  }

  /** A connection after its next event has been answered, or could not be. */
  function Advance(conn: Conn, reply: Result<R.Response, Exception>): Conn
    requires !Resp.Parse(conn.buffer).Incomplete?
  {
    var outcome := Resp.Parse(conn.buffer);
    var sent := reply.Success? && R.Encode(reply.value).Success?;
    Conn(conn.received, if outcome.Malformed? then [] else conn.buffer[outcome.consumed..], conn.done + [Front(conn)],
         if sent then conn.replies + [reply.value] else conn.replies, sent)
  }

  /** The server. */
  function Next(cfg: Config, w: World<Machine>, step: Step): World<Machine>
    requires Enabled(w.conns, w.now, step)
  {
    match step
    case Receive(c, chunk) => w.(conns := w.conns[c := Arrive(w.conns[c], chunk)])
    case Serve(c) =>
      var (m, reply) := Answer(cfg, w.state, Front(w.conns[c]), w.now);
      w.(state := m, conns := w.conns[c := Advance(w.conns[c], reply)])
    case Tick(to) => w.(now := to)
    case Snapshot => w.(state := Perform(cfg, w.state, Save, w.now).0)
  }

  /** There is a node to route to. */
  predicate Routable(cfg: Config) {
    cfg.cluster.Some? ==> cfg.cluster.value.nodes != []
  }

  /** The reference: one eager map behind the same connections, untouched by saves. */
  function EagerNext(cfg: Config, w: World<Model>, step: Step): World<Model>
    requires Enabled(w.conns, w.now, step) && Routable(cfg)
  {
    match step
    case Receive(c, chunk) => w.(conns := w.conns[c := Arrive(w.conns[c], chunk)])
    case Serve(c) =>
      var (model, reply) := EagerAnswer(cfg, w.state, Front(w.conns[c]), w.now);
      w.(state := model, conns := w.conns[c := Advance(w.conns[c], Success(reply))])
    case Tick(to) => w.(now := to)
    case Snapshot => w
  }

  function EagerAnswer(cfg: Config, model: Model, e: Event, now: Time): (Model, R.Response)
    requires Routable(cfg)
  {
    match e
    case Do(command) => EagerDispatch(cfg, model, command, now)
    case Refuse(error) => (model, R.ErrorReply(Resp.Message(error)))
  }

  ghost predicate Possible(cfg: Config, w: World<Machine>, steps: seq<Step>)
    decreases |steps|
  {
    steps == [] || (Enabled(w.conns, w.now, steps[0]) && Possible(cfg, Next(cfg, w, steps[0]), steps[1..]))
  }

  ghost function After(cfg: Config, w: World<Machine>, steps: seq<Step>): World<Machine>
    requires Possible(cfg, w, steps)
    decreases |steps|
  {
    if steps == [] then w else After(cfg, Next(cfg, w, steps[0]), steps[1..])
  }

  /** The reference under the same schedule, as far as the schedule is possible for it. */
  ghost function EagerAfter(cfg: Config, w: World<Model>, steps: seq<Step>): World<Model>
    requires Routable(cfg)
    decreases |steps|
  {
    if steps == [] || !Enabled(w.conns, w.now, steps[0]) then w
    else EagerAfter(cfg, EagerNext(cfg, w, steps[0]), steps[1..])
  }

  // ---------- one map behind all connections ----------

  /** Same connections and clock, and the store shows the map. */
  ghost predicate Agree(w: World<Machine>, e: World<Model>) {
    w.conns == e.conns && w.now == e.now && Shows(w.state.mem, e.state, w.now)
  }

  lemma StepAgrees(cfg: Config, w: World<Machine>, e: World<Model>, step: Step)
    requires Routable(cfg) && Agree(w, e) && Enabled(w.conns, w.now, step)
    ensures Agree(Next(cfg, w, step), EagerNext(cfg, e, step))
  {
    hide Dispatch, EagerDispatch, Redirection, Resp.Parse, R.Encode, Shows, Sweep, Image, Resp.Message, R.ErrorReply;
    match step {
      case Receive(c, chunk) =>
      case Serve(c) =>
        match Front(w.conns[c]) {
          case Do(command) =>
            RoutableRedirects(cfg, command);
            DispatchRefines(cfg, w.state, e.state, command, w.now);
          case Refuse(error) =>
        }
      case Tick(to) => ShowsLater(w.state.mem, e.state, w.now, to);
      case Snapshot => SaveShows(cfg, w.state, e.state, w.now);
    }
  }

  lemma RoutableRedirects(cfg: Config, cmd: Resp.Command)
    requires Routable(cfg)
    ensures Redirection(cfg, cmd).Success?
  {
  }

  lemma SaveShows(cfg: Config, m: Machine, model: Model, now: Time)
    requires Shows(m.mem, model, now)
    ensures Shows(Perform(cfg, m, Save, now).0.mem, model, now)
  {
    SweepShowsTheSame(m.mem, now);
  }

  /** Under every schedule all clients see what one eager map, serving in that order, would show them. */
  lemma {:induction false} ClientsSeeOneEagerMap(cfg: Config, w: World<Machine>, e: World<Model>, steps: seq<Step>)
    requires Routable(cfg) && Agree(w, e) && Possible(cfg, w, steps)
    ensures After(cfg, w, steps).conns == EagerAfter(cfg, e, steps).conns
    ensures Agree(After(cfg, w, steps), EagerAfter(cfg, e, steps))
    decreases |steps|
  {
    hide Enabled, Next, EagerNext, Shows;
    if steps != [] {
      StepAgrees(cfg, w, e, steps[0]);
      ClientsSeeOneEagerMap(cfg, Next(cfg, w, steps[0]), EagerNext(cfg, e, steps[0]), steps[1..]);
    }
  }

  // ---------- no cross-talk ----------

  /** What a connection did, and still has to do, is what its own bytes ask for. */
  ghost predicate OwnStream(conn: Conn) {
    var whole := Drain(conn.received);
    if Refuses(conn.done) then UpToRefusal(conn.done) == whole.0
    else (conn.done + Drain(conn.buffer).0, Drain(conn.buffer).1) == whole
  }

  lemma ArriveKeepsOwnStream(conn: Conn, chunk: bytes)
    requires OwnStream(conn) && Resp.Parse(conn.buffer).Incomplete?
    ensures OwnStream(Arrive(conn, chunk))
  {
    hide Resp.Parse, Drain, UpToRefusal;
    DrainStops(conn.buffer);
    assert conn.done + [] == conn.done;
    DrainMore(conn.received, chunk);
    RefusalShows(conn.done);
  }

  lemma AdvanceKeepsOwnStream(conn: Conn, reply: Result<R.Response, Exception>)
    requires OwnStream(conn) && !Resp.Parse(conn.buffer).Incomplete?
    ensures OwnStream(Advance(conn, reply))
  {
    hide Resp.Parse, Drain, UpToRefusal;
    var e := Front(conn);
    var next := Advance(conn, reply);
    var todo := Drain(next.buffer).0;
    DrainOne(conn.buffer, []);
    assert Drain(conn.buffer).0 + [] == Drain(conn.buffer).0 && todo + [] == todo;
    RefusesConcat(conn.done, [e]);
    UpToRefusalConcat(conn.done, [e]);
    if !Refuses(conn.done) {
      assert conn.done + ([e] + todo) == (conn.done + [e]) + todo;
      if e.Refuse? {
        EmptyIsIncomplete();
        DrainStops([]);
        assert (conn.done + [e]) + [] == conn.done + [e];
        DrainEndsAtRefusal(conn.received);
      } else {
        assert !Refuses([e]);
      }
    } else {
      assert conn.done + [e] == next.done;
    }
  }

  /** Under every schedule, whatever the other clients send. */
  lemma {:induction false} ClientsDoNotMix(cfg: Config, w: World<Machine>, steps: seq<Step>)
    requires Possible(cfg, w, steps) && forall c :: 0 <= c < |w.conns| ==> OwnStream(w.conns[c])
    ensures var after := After(cfg, w, steps);
            |after.conns| == |w.conns| && forall c :: 0 <= c < |after.conns| ==> OwnStream(after.conns[c])
    decreases |steps|
  {
    hide OwnStream, Answer, Arrive, Advance, Perform;
    if steps != [] {
      match steps[0] {
        case Receive(c, chunk) => ArriveKeepsOwnStream(w.conns[c], chunk);
        case Serve(c) =>
          AdvanceKeepsOwnStream(w.conns[c], Answer(cfg, w.state, Front(w.conns[c]), w.now).1);
        case _ =>
      }
      ClientsDoNotMix(cfg, Next(cfg, w, steps[0]), steps[1..]);
    }
  }

  // ---------- durability ----------

  lemma {:induction false} RunsCompose(s: Recovery.Sys, a: seq<Recovery.Step>, b: seq<Recovery.Step>)
    requires Recovery.Possible(s, a) && Recovery.Possible(Recovery.After(s, a), b)
    ensures Recovery.Possible(s, a + b) && Recovery.After(s, a + b) == Recovery.After(Recovery.After(s, a), b)
    ensures Recovery.DiskTrace(s, a + b) == Recovery.DiskTrace(s, a) + Recovery.DiskTrace(Recovery.After(s, a), b)
    decreases |a|
  {
    hide Recovery.Next, Recovery.Enabled, Recovery.Wrote;
    if a == [] {
      assert a + b == b && [] + Recovery.DiskTrace(s, b) == Recovery.DiskTrace(s, b);
    } else {
      var t := Recovery.Next(s, a[0]);
      assert (a + b)[0] == a[0] && (a + b)[1..] == a[1..] + b;
      RunsCompose(t, a[1..], b);
      Associative(Recovery.Wrote(s, a[0]), Recovery.DiskTrace(t, a[1..]), Recovery.DiskTrace(Recovery.After(s, a), b));
    }
  }

  lemma Associative(a: seq<Disk>, b: seq<Disk>, c: seq<Disk>)
    ensures (a + b) + c == a + (b + c)
  {
  }

  /** The machine, ready, at the world's time. */
  ghost predicate Behind(s: Recovery.Sys, w: World<Machine>) {
    s.phase.Ready? && w.now == s.now && w.state == MachineOf(s, w.state.trace)
  }

  /** What the next answer of a connection confirms to its client. */
  function ConfirmedBy(cfg: Config, w: World<Machine>, step: Step): seq<LogEntry>
    requires Enabled(w.conns, w.now, step)
  {
    if step.Serve? && Front(w.conns[step.c]).Do? then
      var command := Front(w.conns[step.c]).command;
      var reply := Dispatch(cfg, w.state, command, w.now).1;
      if reply.Success? then Confirmed(cfg, command, reply.value, w.now) else []
    else []
  }

  /** What all clients together were told, in the order of service. */
  ghost function ConfirmedIn(cfg: Config, w: World<Machine>, steps: seq<Step>): seq<LogEntry>
    requires Possible(cfg, w, steps)
    decreases |steps|
  {
    if steps == [] then [] else ConfirmedBy(cfg, w, steps[0]) + ConfirmedIn(cfg, Next(cfg, w, steps[0]), steps[1..])
  }

  /**
   A run in which the process lives on leads from one world to the other, through the same disk states,
   and these are the writes it acknowledges.
   */
  ghost predicate Leads(s: Recovery.Sys, run: seq<Recovery.Step>, w: World<Machine>, w': World<Machine>,
                        confirmed: seq<LogEntry>) {
    && Recovery.Possible(s, run) && Recovery.LivesOn(run)
    && Behind(Recovery.After(s, run), w')
    && w'.state.trace == w.state.trace + Recovery.DiskTrace(s, run)
    && Recovery.After(s, run).acked == s.acked + confirmed
  }

  lemma StepIsARecoveryRun(cfg: Config, w: World<Machine>, s: Recovery.Sys, step: Step)
    returns (run: seq<Recovery.Step>)
    requires cfg.persist && Behind(s, w) && Enabled(w.conns, w.now, step)
    ensures Leads(s, run, w, Next(cfg, w, step), ConfirmedBy(cfg, w, step))
  {
    hide Dispatch, Perform, Resp.Parse, StepsOf, Confirmed;
    run := [];
    NoStep(s, w.state.trace);
    assert s.acked + [] == s.acked;
    match step {
      case Receive(c, chunk) =>
      case Serve(c) =>
        if Front(w.conns[c]).Do? {
          run := StepsOf(cfg, s, Front(w.conns[c]).command);
          DispatchTakesSteps(cfg, s, w.state.trace, Front(w.conns[c]).command);
          RepliesAcknowledge(cfg, s, w.state.trace, Front(w.conns[c]).command);
        }
      case Tick(to) =>
        run := [Recovery.Tick(to)];
        AfterOne(s, Recovery.Tick(to));
      case Snapshot =>
        run := [Recovery.Save, Recovery.Reset];
        SaveTakesSteps(cfg, s, w.state.trace);
        AfterTwo(s, Recovery.Save, Recovery.Reset);
    }
  }

  lemma LeadsOn(s: Recovery.Sys, a: seq<Recovery.Step>, b: seq<Recovery.Step>, w: World<Machine>, v: World<Machine>,
                u: World<Machine>, first: seq<LogEntry>, rest: seq<LogEntry>)
    requires Leads(s, a, w, v, first) && Leads(Recovery.After(s, a), b, v, u, rest)
    ensures Leads(s, a + b, w, u, first + rest)
  {
    hide Behind, Recovery.Next, Recovery.Enabled;
    RunsCompose(s, a, b);
    assert (s.acked + first) + rest == s.acked + (first + rest);
    var trace := w.state.trace;
    assert (trace + Recovery.DiskTrace(s, a)) + Recovery.DiskTrace(Recovery.After(s, a), b)
        == trace + (Recovery.DiskTrace(s, a) + Recovery.DiskTrace(Recovery.After(s, a), b));
  }

  /**
   Every schedule is a run of the crash model in which the process lives on, with the same states of the
   disk in between, and the writes it acknowledges are those that the replies confirm.
   */
  lemma {:induction false} SchedulesAreRecoveryRuns(cfg: Config, w: World<Machine>, s: Recovery.Sys, steps: seq<Step>)
    returns (run: seq<Recovery.Step>)
    requires cfg.persist && Behind(s, w) && Possible(cfg, w, steps)
    ensures Leads(s, run, w, After(cfg, w, steps), ConfirmedIn(cfg, w, steps))
    decreases |steps|
  {
    hide Enabled, Next, Recovery.Enabled, Recovery.Next, Behind, ConfirmedBy;
    run := [];
    if steps == [] {
      assert w.state.trace + [] == w.state.trace && s.acked + [] == s.acked;
    } else {
      var next := Next(cfg, w, steps[0]);
      var first := StepIsARecoveryRun(cfg, w, s, steps[0]);
      var rest := SchedulesAreRecoveryRuns(cfg, next, Recovery.After(s, first), steps[1..]);
      LeadsOn(s, first, rest, w, next, After(cfg, w, steps), ConfirmedBy(cfg, w, steps[0]),
              ConfirmedIn(cfg, next, steps[1..]));
      run := first + rest;
    }
  }

  // ---------- killed at any moment ----------

  /** The states of the disk that a crash during a step may leave: the one before it and all on the way. */
  ghost predicate LeftBehind(d: Disk, w: World<Machine>, w': World<Machine>) {
    d == w.state.disk || exists i :: |w.state.trace| <= i < |w'.state.trace| && w'.state.trace[i] == d
  }

  /** Some moment of a run at which the disk is in a state that it passes through. */
  lemma MomentOf(s: Recovery.Sys, run: seq<Recovery.Step>, w: World<Machine>, w': World<Machine>,
                 confirmed: seq<LogEntry>, d: Disk) returns (n: nat)
    requires Behind(s, w) && Leads(s, run, w, w', confirmed)
    requires LeftBehind(d, w, w')
    ensures n <= |run| && Recovery.Possible(s, run[..n]) && Recovery.After(s, run[..n]).disk == d
    ensures var t := Recovery.After(s, run[..n]); s.acked <= t.acked <= s.acked + confirmed && t.now <= w'.now
  {
    hide Recovery.Next, Recovery.Enabled;
    if d == w.state.disk {
      n := 0;
      assert run[..0] == [];
    } else {
      var passed := Recovery.DiskTrace(s, run);
      var i :| |w.state.trace| <= i < |w'.state.trace| && w'.state.trace[i] == d;
      n := Recovery.TraceIsOfPrefixes(s, run, i - |w.state.trace|);
      assert passed[i - |w.state.trace|] == d;
    }
    Recovery.RunsSplit(s, run, n);
    var t := Recovery.After(s, run[..n]);
    Recovery.AckedGrows(s, run[..n]);
    Recovery.AckedGrows(t, run[n..]);
    Recovery.TimeGrows(t, run[n..]);
  }

  /** Started on these files at that time, a server shows of a key what the writes leave. */
  ghost predicate ComesBackWith(d: Disk, writes: seq<LogEntry>, k: Key, later: Time) {
    Visible(Load(Recover(d), later), k, later) == Visible(ApplyAll(EMPTY, writes), k, later)
  }

  /**
   A life of the server: connections at the start, what it did, the step in which it was killed, what it left
   on disk, and when it was started again.
   */
  datatype Life = Life(conns: seq<Conn>, steps: seq<Step>, last: Step, disk: Disk, later: Time)

  ghost predicate Dies(cfg: Config, w: World<Machine>, life: Life) {
    Possible(cfg, w, life.steps) &&
    var v := After(cfg, w, life.steps);
    Enabled(v.conns, v.now, life.last) &&
    LeftBehind(life.disk, v, Next(cfg, v, life.last)) && Next(cfg, v, life.last).now <= life.later
  }

  /** The writes confirmed in a life; those of the step in which it was killed count wholly or not at all. */
  ghost function KeptOf(cfg: Config, w: World<Machine>, life: Life, whole: bool): seq<LogEntry>
    requires Dies(cfg, w, life)
  {
    ConfirmedIn(cfg, w, life.steps) + if whole then ConfirmedBy(cfg, After(cfg, w, life.steps), life.last) else []
  }

  lemma AliveUntil(cfg: Config, s: Recovery.Sys, w: World<Machine>, life: Life)
    returns (whole: bool, alive: seq<Recovery.Step>)
    requires cfg.persist && Behind(s, w) && Dies(cfg, w, life)
    ensures Recovery.Possible(s, alive) && Recovery.LivesOn(alive)
    ensures var t := Recovery.After(s, alive);
            t.disk == life.disk && t.now <= life.later && t.acked == s.acked + KeptOf(cfg, w, life, whole)
  {
    hide Enabled, Next, Recovery.Enabled, Recovery.Next, ConfirmedBy, Leads, LeftBehind, Behind;
    var v, confirmed := After(cfg, w, life.steps), ConfirmedIn(cfg, w, life.steps);
    var run := SchedulesAreRecoveryRuns(cfg, w, s, life.steps);
    var s1 := AfterRun(s, run, w, v, confirmed);
    var more := StepIsARecoveryRun(cfg, v, s1, life.last);
    var final := ConfirmedBy(cfg, v, life.last);
    var n := MomentOf(s1, more, v, Next(cfg, v, life.last), final, life.disk);
    AtMostOneConfirmed(cfg, v, life.last);
    whole := WholeOrNot(s.acked, confirmed, final, Recovery.After(s1, more[..n]).acked);
    LeadsLives(s, run, w, v, confirmed);
    LeadsLives(s1, more, v, Next(cfg, v, life.last), final);
    RunsCompose(s, run, more[..n]);
    alive := run + more[..n];
  }

  lemma LeadsLives(s: Recovery.Sys, run: seq<Recovery.Step>, w: World<Machine>, v: World<Machine>,
                   confirmed: seq<LogEntry>)
    requires Leads(s, run, w, v, confirmed)
    ensures Recovery.LivesOn(run)
  {
  }

  /** One life, killed and started again: a key keeps its writes exactly if the restart does not find it lapsed. */
  lemma OneLife(cfg: Config, s: Recovery.Sys, w: World<Machine>, life: Life)
    returns (whole: bool, run: seq<Recovery.Step>)
    requires cfg.persist && Behind(s, w) && Dies(cfg, w, life) && Recovery.Inv(s)
    ensures Recovery.Possible(s, run)
    ensures var t := Recovery.Reborn(life.disk, life.later, s.acked + KeptOf(cfg, w, life, whole));
            Recovery.After(s, run) == t && Recovery.Inv(t) &&
            forall k :: Recovery.KeepsAcked(s, k) ==>
              (Recovery.KeepsAcked(t, k) <==> !LapsedSince(Recover(life.disk), k, s.boot, life.later))
    ensures forall k :: Recovery.CleanRestarts(s, run, k) <==>
                        !LapsedSince(Recover(life.disk), k, s.boot, life.later)
  {
    hide Recovery.Next, Recovery.Enabled, Recovery.Inv, Recovery.KeepsAcked, Dies, KeptOf, Behind, Load, Recover;
    var alive;
    whole, alive := AliveUntil(cfg, s, w, life);
    BehindIsUp(s, w);
    var t := Recovery.After(s, alive);
    var ending := [Recovery.Crash] + ([Recovery.Tick(life.later)] + [Recovery.Restart]);
    Recovery.LivingRunsAreClean(s, alive, []);
    Recovery.CrashAndRestart(t, life.later);
    RunsCompose(s, alive, ending);
    run := alive + ending;
    Recovery.FilesMatchMemory(s, run);
    Recovery.FilesMatchMemory(s, alive);
    forall k
      ensures Recovery.CleanRestarts(s, run, k) <==> !LapsedSince(Recover(life.disk), k, s.boot, life.later)
      ensures Recovery.KeepsAcked(s, k) ==>
                (Recovery.KeepsAcked(Recovery.After(s, run), k) <==>
                 !LapsedSince(Recover(life.disk), k, s.boot, life.later))
    {
      Recovery.LivingRunsAreClean(s, alive, k);
      Recovery.CleanSplit(s, alive, ending, k);
      if Recovery.KeepsAcked(s, k) {
        Recovery.RunKeepsAcked(s, alive, k);
        ReloadKeeps(t, k, life.later);
        RebornKeeps(t.disk, life.later, t.acked, k);
      }
    }
  }

  lemma BehindIsUp(s: Recovery.Sys, w: World<Machine>)
    requires Behind(s, w)
    ensures !s.phase.Down?
  {
  }

  /**
   Durability for clients. After any history of crashes and restarts, let any number of clients be served under
   any schedule, and let the process die at any point of the step after it, between two changes of a file
   included. Started again at any later time, the server shows of every key for which the history was clean what
   all confirmed writes leave, exactly if that restart does not find the key lapsed. The history so far is longer
   by this life, ready for the next.
   */
  lemma ConfirmedWritesSurviveAnyCrash(cfg: Config, start: Time, history: seq<Recovery.Step>, w: World<Machine>,
                                       life: Life)
    returns (whole: bool, longer: seq<Recovery.Step>)
    requires cfg.persist && Recovery.Possible(Recovery.Blank(start), history)
    requires Behind(Recovery.After(Recovery.Blank(start), history), w) && Dies(cfg, w, life)
    ensures var s := Recovery.After(Recovery.Blank(start), history);
            var writes := s.acked + KeptOf(cfg, w, life, whole);
            Recovery.Possible(Recovery.Blank(start), longer) &&
            Recovery.After(Recovery.Blank(start), longer) == Recovery.Reborn(life.disk, life.later, writes) &&
            forall k :: Recovery.CleanRestarts(Recovery.Blank(start), history, k) ==>
              (ComesBackWith(life.disk, writes, k, life.later) <==>
               !LapsedSince(Recover(life.disk), k, s.boot, life.later)) &&
              (Recovery.CleanRestarts(Recovery.Blank(start), longer, k) <==>
               !LapsedSince(Recover(life.disk), k, s.boot, life.later))
  {
    var blank := Recovery.Blank(start);
    assert Recovery.Inv(blank) && forall k :: Recovery.KeepsAcked(blank, k);
    hide Recovery.Next, Recovery.Enabled, Recovery.Inv, Recovery.KeepsAcked, Dies, KeptOf, Behind, Load, Recover;
    Recovery.FilesMatchMemory(blank, history);
    var s := Recovery.After(blank, history);
    var run;
    whole, run := OneLife(cfg, s, w, life);
    RunsCompose(blank, history, run);
    longer := history + run;
    var writes := s.acked + KeptOf(cfg, w, life, whole);
    forall k | Recovery.CleanRestarts(blank, history, k)
      ensures ComesBackWith(life.disk, writes, k, life.later) <==>
              !LapsedSince(Recover(life.disk), k, s.boot, life.later)
      ensures Recovery.CleanRestarts(blank, longer, k) <==>
              !LapsedSince(Recover(life.disk), k, s.boot, life.later)
    {
      Recovery.RunKeepsAcked(blank, history, k);
      Recovery.CleanSplit(blank, history, run, k);
      RebornKeeps(life.disk, life.later, writes, k);
    }
  }

  lemma RebornKeeps(d: Disk, now: Time, writes: seq<LogEntry>, k: Key)
    ensures Recovery.KeepsAcked(Recovery.Reborn(d, now, writes), k) <==> ComesBackWith(d, writes, k, now)
  {
  }

  // ---------- one life after the other ----------

  /** A server just started on these files. */
  function Booted(d: Disk, now: Time, conns: seq<Conn>): World<Machine> {
    World(Machine(Load(Recover(d), now), d, []), now, conns)
  }

  /** Each life starts on what the one before has left. */
  ghost predicate Lived(cfg: Config, d: Disk, now: Time, lives: seq<Life>)
    decreases |lives|
  {
    lives == [] ||
    (Dies(cfg, Booted(d, now, lives[0].conns), lives[0]) && Lived(cfg, lives[0].disk, lives[0].later, lives[1..]))
  }

  /** After every restart the key shows what all writes confirmed so far leave. */
  ghost predicate BackEveryTime(cfg: Config, writes: seq<LogEntry>, d: Disk, now: Time, lives: seq<Life>,
                                whole: seq<bool>, k: Key)
    requires Lived(cfg, d, now, lives) && |whole| == |lives|
    decreases |lives|
  {
    lives != [] ==>
      var life := lives[0];
      var more := writes + KeptOf(cfg, Booted(d, now, life.conns), life, whole[0]);
      ComesBackWith(life.disk, more, k, life.later) &&
      BackEveryTime(cfg, more, life.disk, life.later, lives[1..], whole[1..], k)
  }

  /** No restart finds the key lapsed since the one before. */
  ghost predicate NeverLapsed(lives: seq<Life>, boot: Time, k: Key)
    decreases |lives|
  {
    lives != [] ==>
      !LapsedSince(Recover(lives[0].disk), k, boot, lives[0].later) && NeverLapsed(lives[1..], lives[0].later, k)
  }

  lemma {:induction false} LivesKeep(cfg: Config, d: Disk, now: Time, writes: seq<LogEntry>, lives: seq<Life>)
    returns (whole: seq<bool>)
    requires cfg.persist && Recovery.Inv(Recovery.Reborn(d, now, writes)) && Lived(cfg, d, now, lives)
    ensures |whole| == |lives|
    ensures forall k :: ComesBackWith(d, writes, k, now) ==>
              (BackEveryTime(cfg, writes, d, now, lives, whole, k) <==> NeverLapsed(lives, now, k))
    decreases |lives|
  {
    hide Recovery.Inv, Recovery.KeepsAcked, Dies, KeptOf, Load, Recover, ComesBackWith;
    whole := [];
    if lives != [] {
      var life, s := lives[0], Recovery.Reborn(d, now, writes);
      var w := Booted(d, now, life.conns);
      var first, run := OneLife(cfg, s, w, life);
      var more := writes + KeptOf(cfg, w, life, first);
      var others := LivesKeep(cfg, life.disk, life.later, more, lives[1..]);
      whole := [first] + others;
      assert whole[1..] == others;
      forall k | ComesBackWith(d, writes, k, now)
        ensures BackEveryTime(cfg, writes, d, now, lives, whole, k) <==> NeverLapsed(lives, now, k)
      {
        RebornKeeps(d, now, writes, k);
        RebornKeeps(life.disk, life.later, more, k);
      }
    }
  }

  /**
   Any number of lives from an empty disk, each killed at any moment: after every restart each key shows what
   all writes confirmed so far leave, exactly if no restart finds it lapsed. Of the step in which a life was
   killed the writes count wholly or not at all, for all keys alike.
   */
  lemma ConfirmedWritesSurviveAllCrashes(cfg: Config, start: Time, lives: seq<Life>) returns (whole: seq<bool>)
    requires cfg.persist && Lived(cfg, Disk(None, None), start, lives)
    ensures |whole| == |lives|
    ensures forall k :: BackEveryTime(cfg, [], Disk(None, None), start, lives, whole, k) <==>
                        NeverLapsed(lives, start, k)
  {
    var nothing := Disk(None, None);
    assert Recovery.Inv(Recovery.Reborn(nothing, start, []));
    assert forall k :: ComesBackWith(nothing, [], k, start);
    whole := LivesKeep(cfg, nothing, start, [], lives);
  }

  lemma AfterRun(s: Recovery.Sys, run: seq<Recovery.Step>, w: World<Machine>, v: World<Machine>,
                 confirmed: seq<LogEntry>)
    returns (t: Recovery.Sys)
    requires Leads(s, run, w, v, confirmed)
    ensures Recovery.Possible(s, run) && t == Recovery.After(s, run) && Behind(t, v) && t.acked == s.acked + confirmed
  {
    t := Recovery.After(s, run);
  }

  lemma AtMostOneConfirmed(cfg: Config, w: World<Machine>, step: Step)
    requires Enabled(w.conns, w.now, step)
    ensures |ConfirmedBy(cfg, w, step)| <= 1
  {
    hide Dispatch, Enabled, Redirection, VerbOf, RequestOf;
  }

  /** At most one write is added. */
  lemma WholeOrNot(before: seq<LogEntry>, confirmed: seq<LogEntry>, final: seq<LogEntry>, acked: seq<LogEntry>)
    returns (whole: bool)
    requires |final| <= 1 && before + confirmed <= acked <= (before + confirmed) + final
    ensures acked == before + (confirmed + if whole then final else [])
  {
    whole := acked == (before + confirmed) + final;
    assert (before + confirmed) + final == before + (confirmed + final);
    assert before + confirmed == before + (confirmed + []);
    if !whole {
      assert |acked| == |before + confirmed|;
    }
  }

  /** Dying in a state that keeps the writes to a key, and starting again. */
  lemma ReloadKeeps(t: Recovery.Sys, k: Key, later: Time)
    requires Recovery.Inv(t) && Recovery.KeepsAcked(t, k) && t.now <= later
    ensures ComesBackWith(t.disk, t.acked, k, later) <==> !LapsedSince(Recover(t.disk), k, t.boot, later)
  {
    hide Recover, ApplyAll, Load;
    ReloadShowsKeyIff(Recover(t.disk), t.boot, later, k);
  }
}
