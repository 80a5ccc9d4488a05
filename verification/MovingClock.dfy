/**
 Crash recovery with a clock that moves inside commands, saves and restarts. The steps are those of
 module Recovery, each with all the clock readings that the source takes. A step can now go wrong, by
 itself, for one key: the law of this module says exactly when.
 */
module MovingClock {
  import opened Wrappers
  import opened Bytes
  import opened Stores
  import opened ClockReadings
  import opened Files
  import opened AppendLog
  import opened ReplayLaws
  import opened Persistence
  import opened Dispatching
  import HashTables
  import Pipeline
  import Recovery
  import Resp
  import R = Replies

  type Sys = Recovery.Sys

  datatype Step =
    | Run(op: Op, clock: nat -> Time)
    | Ack
    | Tick(to: Time)
    | Save(keys: seq<Key>, clock: nat -> Time)
    | Reset
    | Crash
    | Restart(keys: seq<Key>, clock: nat -> Time)

  ghost predicate Enabled(s: Sys, step: Step) {
    match step
    case Run(_, clock) => s.phase.Ready? && Forward(clock) && s.now <= clock(0)
    case Ack => s.phase.Logging?
    case Tick(to) => s.now <= to && !s.phase.Logging?
    case Save(keys, clock) => s.phase.Ready? && Visits(keys, s.mem.data) && Forward(clock) && s.now <= clock(0)
    case Reset => s.phase.Saved?
    case Crash => !s.phase.Down?
    case Restart(keys, clock) =>
      s.phase.Down? && Visits(keys, Recover(s.disk).data) && Forward(clock) && s.now <= clock(0)
  }

  /** A command on memory: its reply and the record it leaves. EXPIRE reads its deadline back for the record. */
  function Carry(s: Store, op: Op, clock: nat -> Time): (Store, Result<Reply, HashTables.KeyError>, Option<LogEntry>) {
    match op
    case Ttl(k) =>
      var (t, reply) := IntegerReply(TimeToLive(s, k, clock(0), clock(1)));
      (t, reply, None)
    case Expire(k, seconds) =>
      var (t, reply) := IntegerReply(ExpireIn(s, k, seconds, clock(0), clock(1)));
      if reply != Success(Integer(1)) then (t, reply, None)
      else
        var (u, at) := ExpireAt(t, k, clock(2), clock(3));
        if at.Failure? then (u, Failure(at.error), None)
        else (u, reply, if at.value.Some? then Some(LogExpire(k, at.value.value)) else None)
    case _ =>
      var (t, reply) := LazyStep(s, op, clock(0));
      (t, reply, if reply.Success? then Recovery.Pending(t, op, reply.value, clock(0)) else None)
  }

  /** What the reply promises; the deadline of EXPIRE counts from the second reading. */
  function Promise(op: Op, reply: Result<Reply, HashTables.KeyError>, clock: nat -> Time): Option<LogEntry> {
    if reply.Success? then Recovery.Promised(op, reply.value, clock(1)) else None
  }

  /** A write whose record is skipped is acknowledged all the same. */
  function Next(s: Sys, step: Step): Sys
    requires Enabled(s, step)
  {
    match step
    case Run(op, clock) =>
      var (t, reply, record) := Carry(s.mem, op, clock);
      var promise := Promise(op, reply, clock);
      s.(mem := t, now := clock(3),
         phase := if record.Some? then Recovery.Logging(record.value) else Recovery.Ready,
         acked := if record.None? && promise.Some? then s.acked + [promise.value] else s.acked)
    case Ack =>
      s.(disk := AppendTo(s.disk, s.phase.entry), phase := Recovery.Ready, acked := s.acked + [s.phase.entry])
    case Tick(to) => s.(now := to)
    case Save(keys, clock) =>
      s.(mem := SweptOver(s.mem, keys, clock, 0), disk := SaveImage(s.disk, SlowImage(s.mem, keys, clock)),
         now := clock(|keys|), phase := Recovery.Saved)
    case Reset => s.(disk := ResetLog(s.disk), phase := Recovery.Ready)
    case Crash => s.(mem := EMPTY, phase := Recovery.Down)
    case Restart(keys, clock) =>
      s.(mem := SlowLoad(Recover(s.disk), keys, clock), boot := clock(0), now := clock(|keys|), phase := Recovery.Ready)
  }

  // ---------- when a step is harmless to a key ----------

  /** EXPIRE and TTL are steady if what they saw of the key did not lapse, or lapsed on disk too, while they ran. */
  predicate KeySteady(seen: Option<Entry>, op: Op, clock: nat -> Time) {
    match op
    case Ttl(_) => seen.Some? && seen.value.deadline.Some? ==> clock(1) < seen.value.deadline.value + 1.0
    case Expire(_, seconds) =>
      seen.Some? && seconds > 0 ==>
        var at := clock(1) + seconds as real;
        clock(3) < at ||
        (at <= clock(2) && seen.value.deadline.Some? && seen.value.deadline.value <= clock(3))
    case _ => true
  }

  ghost predicate Steady(s: Sys, step: Step, k: Key) {
    match step
    case Run(op, clock) => op.key == k ==> KeySteady(Visible(s.mem, k, clock(0)), op, clock)
    case Save(keys, clock) =>
      forall i :: 0 <= i < |keys| && keys[i] == k ==> !LapsedSince(s.mem, k, clock(i), clock(|keys|))
    case Restart(_, clock) => !LapsedSince(Recover(s.disk), k, s.boot, clock(0))
    case _ => true
  }

  // ---------- one key ----------

  /** A command seen from its key: the entry afterwards, the record and the promise. */
  function KeyCarry(m: Option<Entry>, op: Op, clock: nat -> Time)
    : (Option<Entry>, Option<LogEntry>, Option<LogEntry>)
  {
    var seen := Living(m, clock(0));
    match op
    case Set(k, v) => (Some(Entry(v, None)), Some(LogSet(k, v)), Some(LogSet(k, v)))
    case Del(k) =>
      var record := if seen.Some? then Some(LogDel(k)) else None;
      (None, record, record)
    case Ttl(_) =>
      var forgets :=
        seen.Some? && seen.value.deadline.Some? && clock(1) >= seen.value.deadline.value + 1.0;
      (if forgets then Some(seen.value.(deadline := None)) else seen, None, None)
    case Expire(k, seconds) =>
      if seen.None? || seconds <= 0 then (seen, None, None)
      else
        var at := clock(1) + seconds as real;
        var promise := LogExpire(k, at);
        if at <= clock(2) then (None, None, Some(promise))
        else if at <= clock(3) then (Some(seen.value.(deadline := None)), None, Some(promise))
        else (Some(seen.value.(deadline := Some(at))), Some(promise), Some(promise))
    case _ => (seen, None, None)
  }

  /** A command is its effect on its key, and leaves all other keys alone. */
  ghost predicate ActsOnItsKey(s: Store, op: Op, clock: nat -> Time) {
    var (t, reply, record) := Carry(s, op, clock);
    Tidy(t) && reply.Success? &&
    (At(t, op.key), record, Promise(op, reply, clock)) == KeyCarry(At(s, op.key), op, clock) &&
    forall k :: k != op.key ==> At(t, k) == At(s, k)
  }

  lemma ExpireAtKey(s: Store, op: Op, clock: nat -> Time)
    requires Tidy(s) && Forward(clock) && op.Expire?
    ensures ActsOnItsKey(s, op, clock)
  {
    assert clock(0) <= clock(1) <= clock(2) <= clock(3);
  }

  lemma TtlAtKey(s: Store, op: Op, clock: nat -> Time)
    requires Tidy(s) && Forward(clock) && op.Ttl?
    ensures ActsOnItsKey(s, op, clock)
  {
    assert clock(0) <= clock(1);
  }

  lemma OtherAtKey(s: Store, op: Op, clock: nat -> Time)
    requires Tidy(s) && !op.Expire? && !op.Ttl?
    ensures ActsOnItsKey(s, op, clock)
  {
  }

  lemma CarryAt(s: Store, op: Op, clock: nat -> Time)
    requires Tidy(s) && Forward(clock)
    ensures ActsOnItsKey(s, op, clock)
  {
    hide ActsOnItsKey;
    match op {
      case Expire(_, _) => ExpireAtKey(s, op, clock);
      case Ttl(_) => TtlAtKey(s, op, clock);
      case _ => OtherAtKey(s, op, clock);
    }
  }

  /** A record may be written: an EXPIRE finds the key with the same value on disk and by the acknowledged writes. */
  predicate Loggable(x: Option<Entry>, y: Option<Entry>, e: LogEntry, now: Time) {
    e.LogExpire? ==> e.at > now && x.Some? && y.Some? && x.value.value == y.value.value
  }

  /** The entry on disk as loaded at boot, the one in memory and the one by the acknowledged writes look alike. */
  predicate Alike(x: Option<Entry>, m: Option<Entry>, y: Option<Entry>, boot: Time, now: Time) {
    Living(KeyLoad(x, boot), now) == Living(m, now) == Living(y, now)
  }

  lemma KeyCarryIff(x: Option<Entry>, m: Option<Entry>, y: Option<Entry>, op: Op, boot: Time, now: Time,
                    clock: nat -> Time)
    requires Alike(x, m, y, boot, now) && boot <= now <= clock(0) && Forward(clock)
    ensures var (after, record, promise) := KeyCarry(m, op, clock);
            var steady := KeySteady(Living(m, clock(0)), op, clock);
            match record
            case Some(e) =>
              promise == record && steady && e.key == op.key && Loggable(x, y, e, clock(3)) &&
              Living(KeyLoad(KeyApply(x, e), boot), clock(3)) == Living(after, clock(3)) &&
              Living(KeyLoad(x, boot), clock(3)) == Living(y, clock(3))
            case None =>
              Alike(x, after, if promise.Some? then KeyApply(y, promise.value) else y, boot, clock(3)) <==> steady
  {
    assert clock(0) <= clock(1) <= clock(2) <= clock(3);
  }

  // ---------- one step ----------

  /** What the acknowledged writes leave of a key. */
  function Owed(s: Sys, k: Key): Option<Entry> {
    At(ApplyAll(EMPTY, s.acked), k)
  }

  /**
   Of this key, the files show the acknowledged writes, and memory shows them with the write in flight.
   Between the two halves of a save the new snapshot alone shows the same.
   */
  ghost predicate Agrees(s: Sys, k: Key) {
    && Tidy(s.mem) && Tidy(LoadRdb(s.disk)) && s.boot <= s.now
    && Recovery.KeepsAcked(s, k)
    && (s.phase.Logging? && s.phase.entry.key == k ==>
          Loggable(At(Recover(s.disk), k), Owed(s, k), s.phase.entry, s.now))
    && (!s.phase.Down? ==> Visible(Load(Recovery.Durable(s), s.boot), k, s.now) == Visible(s.mem, k, s.now))
    && (s.phase.Saved? ==> Visible(Load(LoadRdb(s.disk), s.boot), k, s.now) == Visible(s.mem, k, s.now))
  }

  /** The same in terms of the three entries of the key. */
  lemma AgreesByEntry(s: Sys, k: Key)
    ensures var x, y := At(Recover(s.disk), k), Owed(s, k);
            var durable := At(Recovery.Durable(s), k);
            Agrees(s, k) <==>
            && Tidy(s.mem) && Tidy(LoadRdb(s.disk)) && s.boot <= s.now
            && Living(KeyLoad(x, s.boot), s.now) == Living(y, s.now)
            && (s.phase.Logging? && s.phase.entry.key == k ==> Loggable(x, y, s.phase.entry, s.now))
            && (!s.phase.Down? ==> Living(KeyLoad(durable, s.boot), s.now) == Living(At(s.mem, k), s.now))
            && (s.phase.Saved? ==>
                  Living(KeyLoad(At(LoadRdb(s.disk), k), s.boot), s.now) == Living(At(s.mem, k), s.now))
  {
    LoadIsPerKey(Recover(s.disk), s.boot, k);
    LoadIsPerKey(Recovery.Durable(s), s.boot, k);
    LoadIsPerKey(LoadRdb(s.disk), s.boot, k);
  }

  lemma RunAgreesIff(s: Sys, op: Op, clock: nat -> Time, k: Key)
    requires Agrees(s, k) && Enabled(s, Run(op, clock))
    ensures Agrees(Next(s, Run(op, clock)), k) <==> Steady(s, Run(op, clock), k)
  {
    hide Carry, Promise, Agrees, ApplyAll, Recover, At, Apply;
    var t := Next(s, Run(op, clock));
    AgreesByEntry(s, k);
    AgreesByEntry(t, k);
    CarryAt(s.mem, op, clock);
    assert clock(0) <= clock(3);
    if t.phase.Logging? {
      ApplyIsPerKey(Recover(s.disk), t.phase.entry, k);
    }
    if t.acked != s.acked {
      Recovery.ApplyAllSnoc(EMPTY, s.acked, t.acked[|s.acked|]);
      ApplyIsPerKey(ApplyAll(EMPTY, s.acked), t.acked[|s.acked|], k);
    }
    if op.key == k {
      KeyCarryIff(At(Recover(s.disk), k), At(s.mem, k), Owed(s, k), op, s.boot, s.now, clock);
    } else {
      RecordIsForItsKey(s.mem, op, clock);
    }
  }

  lemma RecordIsForItsKey(s: Store, op: Op, clock: nat -> Time)
    requires Tidy(s) && Forward(clock)
    ensures var (t, reply, record) := Carry(s, op, clock);
            (record.Some? ==> record.value.key == op.key) &&
            (Promise(op, reply, clock).Some? ==> Promise(op, reply, clock).value.key == op.key)
  {
    CarryAt(s, op, clock);
  }

  lemma AckAgrees(s: Sys, k: Key)
    requires Agrees(s, k) && Enabled(s, Ack)
    ensures Agrees(Next(s, Ack), k)
  {
    var e, t := s.phase.entry, Next(s, Ack);
    Recovery.RecoverAppended(s.disk, e);
    Recovery.ApplyAllSnoc(EMPTY, s.acked, e);
    ApplyIsPerKey(Recover(s.disk), e, k);
    ApplyIsPerKey(ApplyAll(EMPTY, s.acked), e, k);
    AgreesByEntry(s, k);
    AgreesByEntry(t, k);
    hide ApplyAll, Recover, At, Apply, Agrees;
  }

  lemma {:induction false} SweptIsTidy(s: Store, keys: seq<Key>, clock: nat -> Time, first: nat)
    requires Tidy(s)
    ensures Tidy(SweptOver(s, keys, clock, first))
  {
    if keys != [] {
      SweptIsTidy(s, keys[..|keys| - 1], clock, first);
    }
  }

  /** The image and memory after a save, of one key. */
  lemma SavedAt(s: Store, keys: seq<Key>, clock: nat -> Time, k: Key)
    requires Tidy(s) && Visits(keys, s.data) && Forward(clock)
    ensures var last := clock(|keys|);
            var steady := forall i :: 0 <= i < |keys| && keys[i] == k ==> !LapsedSince(s, k, clock(i), last);
            var image, swept := SlowImage(s, keys, clock), SweptOver(s, keys, clock, 0);
            Tidy(image) && Tidy(swept) && Visible(swept, k, last) == Visible(s, k, last) &&
            if steady then At(image, k) == Visible(s, k, last)
            else At(image, k).Some? && At(image, k).value.deadline.None? && Visible(s, k, last) == None
  {
    SweptIsTidy(s, keys, clock, 0);
    var swept, last := SweptOver(s, keys, clock, 0), clock(|keys|);
    RowInTables(swept, k);
    RowInTables(s, k);
    if k in keys {
      var i :| 0 <= i < |keys| && keys[i] == k;
      assert clock(i) <= last;
      VisitedAreJudged(s, keys, clock, 0, i);
      ImageAtKey(s, keys, clock, i);
    } else {
      UnvisitedStay(s, keys, clock, 0, k);
    }
  }

  lemma SaveAgreesIff(s: Sys, keys: seq<Key>, clock: nat -> Time, k: Key)
    requires Agrees(s, k) && Enabled(s, Step.Save(keys, clock))
    ensures Agrees(Next(s, Step.Save(keys, clock)), k) <==> Steady(s, Step.Save(keys, clock), k)
  {
    hide ApplyAll, Recover, At, Load, LapsedSince, SlowImage, SweptOver, Agrees, Visits;
    var t := Next(s, Step.Save(keys, clock));
    var image, last := SlowImage(s.mem, keys, clock), clock(|keys|);
    AgreesByEntry(s, k);
    AgreesByEntry(t, k);
    assert s.now <= clock(0) <= last;
    SavedAt(s.mem, keys, clock, k);
    if At(image, k) == Visible(s.mem, k, last) {
      StaleLogIsHarmless(s.disk, image, s.boot, last, k);
    }
  }

  /** Under a snapshot that is right for the key, the stale log does not change what the files show. */
  lemma StaleLogIsHarmless(d: Disk, image: Store, boot: Time, now: Time, k: Key)
    requires Tidy(LoadRdb(d)) && Tidy(image) && boot <= now
    requires At(image, k) == Living(KeyLoad(At(Recover(d), k), boot), now)
    ensures Living(KeyLoad(At(Recover(SaveImage(d, image)), k), boot), now)
            == Living(KeyLoad(At(Recover(d), k), boot), now)
  {
    TrimOfTidy(LoadRdb(d));
    TrimOfTidy(image);
    LoadIsPerKey(Recover(d), boot, k);
    LoadIsPerKey(Recover(SaveImage(d, image)), boot, k);
    if d.aof.Some? {
      StaleLogOverSnapshot(LoadRdb(d), d.aof.value, boot, image, now, k, now);
    }
  }

  lemma RestartAgreesIff(s: Sys, keys: seq<Key>, clock: nat -> Time, k: Key)
    requires Agrees(s, k) && Enabled(s, Restart(keys, clock))
    ensures Agrees(Next(s, Restart(keys, clock)), k) <==> Steady(s, Restart(keys, clock), k)
  {
    hide ApplyAll, SlowLoad, SweptOver, Agrees, Recover, Visits;
    var t, durable := Next(s, Restart(keys, clock)), Recover(s.disk);
    assert s.now <= clock(0) <= clock(|keys|);
    AgreesByEntry(s, k);
    AgreesByEntry(t, k);
    Recovery.RecoverIsTidy(s.disk);
    LoadedIsTidy(durable, keys, clock);
    LoadedAt(durable, keys, clock, k);
  }

  lemma LoadedIsTidy(image: Store, keys: seq<Key>, clock: nat -> Time)
    requires Tidy(image)
    ensures Tidy(SlowLoad(image, keys, clock))
  {
    SweptIsTidy(Load(image, clock(0)), keys, clock, 1);
  }

  /** Memory after a restart shows of a key what the files show, loaded at the first reading. */
  lemma LoadedAt(image: Store, keys: seq<Key>, clock: nat -> Time, k: Key)
    requires Visits(keys, image.data) && Forward(clock)
    ensures Visible(SlowLoad(image, keys, clock), k, clock(|keys|))
            == Living(KeyLoad(At(image, k), clock(0)), clock(|keys|))
  {
    if k in keys {
      var i :| 0 <= i < |keys| && keys[i] == k;
      assert clock(0) <= clock(1 + i) <= clock(|keys|);
      SlowLoadAtKey(image, keys, clock, i);
    } else {
      UnvisitedStay(Load(image, clock(0)), keys, clock, 1, k);
      RowInTables(SlowLoad(image, keys, clock), k);
      RowInTables(Load(image, clock(0)), k);
    }
  }

  lemma OtherStepsAgree(s: Sys, step: Step, k: Key)
    requires Agrees(s, k) && Enabled(s, step) && (step.Tick? || step.Reset? || step.Crash?)
    ensures Agrees(Next(s, step), k)
  {
    AgreesByEntry(s, k);
    AgreesByEntry(Next(s, step), k);
    hide Agrees, ApplyAll;
  }

  /** One step keeps what is shown of a key in order exactly if it is steady for the key. */
  lemma StepAgreesIff(s: Sys, step: Step, k: Key)
    requires Agrees(s, k) && Enabled(s, step)
    ensures Agrees(Next(s, step), k) <==> Steady(s, step, k)
  {
    hide Agrees, Next;
    match step {
      case Run(op, clock) => RunAgreesIff(s, op, clock, k);
      case Ack => AckAgrees(s, k);
      case Save(keys, clock) => SaveAgreesIff(s, keys, clock, k);
      case Restart(keys, clock) => RestartAgreesIff(s, keys, clock, k);
      case _ => OtherStepsAgree(s, step, k);
    }
  }

  // ---------- whole runs ----------

  ghost predicate Possible(s: Sys, steps: seq<Step>)
    decreases |steps|
  {
    steps == [] || (Enabled(s, steps[0]) && Possible(Next(s, steps[0]), steps[1..]))
  }

  ghost function After(s: Sys, steps: seq<Step>): Sys
    requires Possible(s, steps)
    decreases |steps|
  {
    if steps == [] then s else After(Next(s, steps[0]), steps[1..])
  }

  /** The states of the disk on the way, after every change of a file. */
  ghost function DiskTrace(s: Sys, steps: seq<Step>): seq<Disk>
    requires Possible(s, steps)
    decreases |steps|
  {
    if steps == [] then [] else Wrote(s, steps[0]) + DiskTrace(Next(s, steps[0]), steps[1..])
  }

  /** The disk after a step that changes a file. */
  ghost function Wrote(s: Sys, step: Step): seq<Disk>
    requires Enabled(s, step)
  {
    if step.Ack? || step.Save? || (step.Reset? && s.disk.aof.Some?) then [Next(s, step).disk] else []
  }

  /** No step of the run goes wrong for the key. */
  ghost predicate SteadyRun(s: Sys, steps: seq<Step>, k: Key)
    requires Possible(s, steps)
    decreases |steps|
  {
    steps != [] ==> Steady(s, steps[0], k) && SteadyRun(Next(s, steps[0]), steps[1..], k)
  }

  /** The key is in order at every moment of the run. */
  ghost predicate AgreesThroughout(s: Sys, steps: seq<Step>, k: Key)
    requires Possible(s, steps)
    decreases |steps|
  {
    Agrees(s, k) && (steps != [] ==> AgreesThroughout(Next(s, steps[0]), steps[1..], k))
  }

  lemma {:induction false} AgreesThroughoutIff(s: Sys, steps: seq<Step>, k: Key)
    requires Agrees(s, k) && Possible(s, steps)
    ensures AgreesThroughout(s, steps, k) <==> SteadyRun(s, steps, k)
    ensures SteadyRun(s, steps, k) ==> Agrees(After(s, steps), k)
    decreases |steps|
  {
    hide Agrees, Steady, Enabled, Next;
    if steps != [] {
      StepAgreesIff(s, steps[0], k);
      if Agrees(Next(s, steps[0]), k) {
        AgreesThroughoutIff(Next(s, steps[0]), steps[1..], k);
      } else {
        assert !AgreesThroughout(Next(s, steps[0]), steps[1..], k);
      }
    }
  }

  /**
   Durability when the clock never stops. From an empty machine, memory and files show of a key exactly
   the acknowledged writes at every moment of a run, crashes and restarts included, if and only if no
   EXPIRE or TTL of the key outlasts a deadline, no save straddles one, and no restart finds one lapsed.
   */
  lemma DurableWhileTheClockMovesIff(start: Time, steps: seq<Step>, k: Key)
    requires Possible(Recovery.Blank(start), steps)
    ensures AgreesThroughout(Recovery.Blank(start), steps, k) <==> SteadyRun(Recovery.Blank(start), steps, k)
    ensures SteadyRun(Recovery.Blank(start), steps, k) ==> Recovery.Durably(After(Recovery.Blank(start), steps), k)
  {
    var blank := Recovery.Blank(start);
    assert Agrees(blank, k);
    AgreesThroughoutIff(blank, steps, k);
    if SteadyRun(blank, steps, k) {
      AgreeingIsDurable(After(blank, steps), k);
    }
  }

  lemma AgreeingIsDurable(s: Sys, k: Key)
    requires Agrees(s, k)
    ensures Recovery.Durably(s, k)
  {
    AgreesByEntry(s, k);
    if s.phase.Logging? {
      var e := s.phase.entry;
      Recovery.ApplyAllSnoc(EMPTY, s.acked, e);
      ApplyIsPerKey(Recover(s.disk), e, k);
      ApplyIsPerKey(ApplyAll(EMPTY, s.acked), e, k);
    }
    hide ApplyAll, Recover, At, Apply;
  }

  // ---------- nothing old comes back ----------

  /** Nothing, or the same value, whatever the deadlines. */
  predicate Below(a: Option<Entry>, b: Option<Entry>) {
    a.Some? ==> b.Some? && a.value.value == b.value.value
  }

  /** Memory and files hold of the key nothing but the value of its last acknowledged SET, or the one in flight. */
  ghost predicate NothingOld(s: Sys, k: Key) {
    && Tidy(s.mem) && Tidy(LoadRdb(s.disk))
    && Below(At(Recover(s.disk), k), Owed(s, k))
    && Below(At(s.mem, k), At(ApplyAll(EMPTY, Recovery.Writes(s)), k))
    && (s.phase.Saved? ==> Below(At(LoadRdb(s.disk), k), Owed(s, k)))
  }

  /** The writes applied once more. */
  lemma OneMoreWrite(writes: seq<LogEntry>, e: LogEntry, k: Key)
    ensures var y := At(ApplyAll(EMPTY, writes), k);
            At(ApplyAll(EMPTY, writes + [e]), k) == if e.key == k then KeyApply(y, e) else y
  {
    Recovery.ApplyAllSnoc(EMPTY, writes, e);
    ApplyIsPerKey(ApplyAll(EMPTY, writes), e, k);
  }

  lemma RunBringsNothingOld(s: Sys, op: Op, clock: nat -> Time, k: Key)
    requires NothingOld(s, k) && Enabled(s, Run(op, clock))
    ensures NothingOld(Next(s, Run(op, clock)), k)
  {
    hide Carry, Promise, ApplyAll, Recover, At, Apply;
    var t := Next(s, Run(op, clock));
    CarryAt(s.mem, op, clock);
    RecordIsForItsKey(s.mem, op, clock);
    var promise := KeyCarry(At(s.mem, op.key), op, clock).2;
    if promise.Some? {
      OneMoreWrite(s.acked, promise.value, k);
    }
  }

  lemma SaveBringsNothingOld(s: Sys, keys: seq<Key>, clock: nat -> Time, k: Key)
    requires NothingOld(s, k) && Enabled(s, Step.Save(keys, clock))
    ensures NothingOld(Next(s, Step.Save(keys, clock)), k)
  {
    hide ApplyAll, At, Trim, SlowImage, SweptOver, Visits;
    var t, image := Next(s, Step.Save(keys, clock)), SlowImage(s.mem, keys, clock);
    SavedAt(s.mem, keys, clock, k);
    SavedIsBelow(s.mem, keys, clock, k);
    TrimOfTidy(LoadRdb(s.disk));
    TrimOfTidy(image);
    if s.disk.aof.Some? {
      ReplayActs(LoadRdb(s.disk), s.disk.aof.value, k);
      ReplayActs(image, s.disk.aof.value, k);
    }
  }

  lemma SavedIsBelow(s: Store, keys: seq<Key>, clock: nat -> Time, k: Key)
    requires Visits(keys, s.data)
    ensures Below(At(SlowImage(s, keys, clock), k), At(s, k)) && Below(At(SweptOver(s, keys, clock, 0), k), At(s, k))
  {
    RowInTables(SweptOver(s, keys, clock, 0), k);
    RowInTables(s, k);
    if k in keys {
      var i :| 0 <= i < |keys| && keys[i] == k;
      VisitedAreJudged(s, keys, clock, 0, i);
    } else {
      UnvisitedStay(s, keys, clock, 0, k);
    }
  }

  lemma RestartBringsNothingOld(s: Sys, keys: seq<Key>, clock: nat -> Time, k: Key)
    requires NothingOld(s, k) && Enabled(s, Restart(keys, clock))
    ensures NothingOld(Next(s, Restart(keys, clock)), k)
  {
    hide ApplyAll, SlowLoad, Recover, Visits;
    var durable := Recover(s.disk);
    Recovery.RecoverIsTidy(s.disk);
    LoadedIsTidy(durable, keys, clock);
    LoadedIsBelow(durable, keys, clock, k);
  }

  lemma LoadedIsBelow(image: Store, keys: seq<Key>, clock: nat -> Time, k: Key)
    requires Visits(keys, image.data)
    ensures Below(At(SlowLoad(image, keys, clock), k), At(image, k))
  {
    if k in keys {
      var i :| 0 <= i < |keys| && keys[i] == k;
      SlowLoadAtKey(image, keys, clock, i);
    } else {
      UnvisitedStay(Load(image, clock(0)), keys, clock, 1, k);
      RowInTables(SlowLoad(image, keys, clock), k);
      RowInTables(Load(image, clock(0)), k);
    }
  }

  lemma AckBringsNothingOld(s: Sys, k: Key)
    requires NothingOld(s, k) && Enabled(s, Ack)
    ensures NothingOld(Next(s, Ack), k)
  {
    hide ApplyAll, Recover, At, Apply;
    Recovery.RecoverAppended(s.disk, s.phase.entry);
    ApplyIsPerKey(Recover(s.disk), s.phase.entry, k);
    OneMoreWrite(s.acked, s.phase.entry, k);
  }

  lemma StepBringsNothingOld(s: Sys, step: Step, k: Key)
    requires NothingOld(s, k) && Enabled(s, step)
    ensures NothingOld(Next(s, step), k)
  {
    match step {
      case Run(op, clock) => RunBringsNothingOld(s, op, clock, k);
      case Ack => AckBringsNothingOld(s, k);
      case Save(keys, clock) => SaveBringsNothingOld(s, keys, clock, k);
      case Restart(keys, clock) => RestartBringsNothingOld(s, keys, clock, k);
      case _ => hide ApplyAll;
    }
  }

  lemma {:induction false} RunsBringNothingOld(s: Sys, steps: seq<Step>, k: Key)
    requires NothingOld(s, k) && Possible(s, steps)
    ensures NothingOld(After(s, steps), k)
    decreases |steps|
  {
    hide NothingOld, Enabled, Next;
    if steps != [] {
      StepBringsNothingOld(s, steps[0], k);
      RunsBringNothingOld(Next(s, steps[0]), steps[1..], k);
    }
  }

  /**
   Whatever the clock does and wherever the process dies: a restart may revive a lapsed key, but a value
   that was overwritten or deleted never comes back. What a client sees of a key has the value that the
   acknowledged writes give it, or the write in flight.
   */
  lemma OverwrittenNeverComesBack(start: Time, steps: seq<Step>, k: Key)
    requires Possible(Recovery.Blank(start), steps)
    ensures var s := After(Recovery.Blank(start), steps);
            Visible(s.mem, k, s.now).Some? ==>
              k in ApplyAll(EMPTY, Recovery.Writes(s)).data &&
              Visible(s.mem, k, s.now).value.value == ApplyAll(EMPTY, Recovery.Writes(s)).data[k]
  {
    assert NothingOld(Recovery.Blank(start), k);
    RunsBringNothingOld(Recovery.Blank(start), steps, k);
  }

  // ---------- the clock standing still ----------

  /** The step with one reading for all; keys is the order of visits. */
  function Still(s: Sys, step: Recovery.Step, keys: seq<Key>): Step {
    match step
    case Run(op) => Run(op, _ => s.now)
    case Ack => Ack
    case Tick(to) => Tick(to)
    case Save => Step.Save(keys, _ => s.now)
    case Reset => Reset
    case Crash => Crash
    case Restart => Restart(keys, _ => s.now)
  }

  /** Module Recovery is this model with the clock standing still, where only restarts can go wrong. */
  lemma StillClockIsRecovery(s: Sys, step: Recovery.Step, keys: seq<Key>, k: Key)
    requires Recovery.Enabled(s, step)
    requires Visits(keys, if step.Restart? then Recover(s.disk).data else s.mem.data)
    ensures Enabled(s, Still(s, step, keys)) && Next(s, Still(s, step, keys)) == Recovery.Next(s, step)
    ensures Steady(s, Still(s, step, keys), k) <==>
            (step.Restart? ==> !LapsedSince(Recover(s.disk), k, s.boot, s.now))
  {
    var clock: nat -> Time := _ => s.now;
    match step {
      case Run(op) =>
        CarryAtOneReading(s.mem, op, clock, s.now);
        hide Carry, Promise, LazyStep;
      case Save =>
        SweepAtOneReading(s.mem, keys, clock, 0, s.now);
        ImageAtOneReading(s.mem, keys, clock, s.now);
        hide Sweep, Image, SweptOver, SlowImage;
      case Restart =>
        LoadAtOneReading(Recover(s.disk), keys, clock, s.now);
        hide Load, SlowLoad, Recover;
      case _ =>
    }
  }

  lemma CarryAtOneReading(s: Store, op: Op, clock: nat -> Time, now: Time)
    requires forall i :: clock(i) == now
    ensures var (t, reply, record) := Carry(s, op, clock);
            (t, reply) == LazyStep(s, op, now) && record == Promise(op, reply, clock) &&
            record == if reply.Success? then Recovery.Pending(t, op, reply.value, now) else None
    ensures KeySteady(Visible(s, op.key, now), op, clock)
  {
  }

  // ---------- the server takes these steps ----------

  /** Starting up with any readings is a step, and leaves what restore() leaves, whose contract this is. */
  lemma RestoreTakesStep(s: Sys, visited: seq<Key>, clock: nat -> Time)
    requires s.phase.Down? && Visits(visited, Recover(s.disk).data) && Forward(clock) && s.now <= clock(0)
    ensures var restart := Restart(visited, clock);
            Enabled(s, restart) && Next(s, restart).mem == SlowLoad(Recover(s.disk), visited, clock) &&
            Next(s, restart).disk == s.disk && Next(s, restart).phase.Ready?
  {
  }

  /** A keyed command of a server with persistence. */
  function Effect(m: Machine, op: Op, clock: nat -> Time): (Machine, Result<R.Response, Exception>) {
    var (t, reply, record) := Carry(m.mem, op, clock);
    (if record.Some? then Written(m.(mem := t), AppendTo(m.disk, record.value)) else m.(mem := t),
     if reply.Failure? then Failure(MissingKey) else Success(Respond(reply.value)))
  }

  lemma HandleCarries(cfg: Config, m: Machine, verb: Verb, args: seq<bytes>, keys: seq<Key>, clock: nat -> Time)
    requires cfg.persist && RequestOf(verb, args).Success? && RequestOf(verb, args).value.Keyed?
    ensures SlowHandle(cfg, m, verb, args, keys, clock) == Effect(m, RequestOf(verb, args).value.op, clock)
  {
    AppendingChanges(m.disk);
    hide AppendTo, Refusal;
  }

  lemma PromiseIsRecord(s: Store, op: Op, clock: nat -> Time)
    ensures var (t, reply, record) := Carry(s, op, clock);
            (record.Some? ==> record == Promise(op, reply, clock)) && (reply.Failure? ==> record.None?)
  {
  }

  lemma RunTakesSteps(s: Sys, trace: seq<Disk>, op: Op, clock: nat -> Time) returns (steps: seq<Step>)
    requires s.phase.Ready? && Forward(clock) && s.now <= clock(0)
    ensures Possible(s, steps)
    ensures var (m, reply) := Effect(Pipeline.MachineOf(s, trace), op, clock);
            var t := After(s, steps);
            t.phase.Ready? && m == Pipeline.MachineOf(t, trace + DiskTrace(s, steps)) &&
            t.acked == s.acked + if reply.Success? then Pipeline.ConfirmedOp(op, reply.value, clock(1)) else []
  {
    var (u, reply, record) := Carry(s.mem, op, clock);
    var run := Run(op, clock);
    PromiseIsRecord(s.mem, op, clock);
    if reply.Success? {
      Pipeline.ReplyConfirms(op, reply.value, clock(1));
    }
    hide Carry, Recovery.Promised, Pipeline.ConfirmedOp, Respond, AppendTo;
    assert s.acked + [] == s.acked && trace + [] == trace;
    AfterOne(s, run);
    if record.Some? {
      AfterTwo(s, run, Ack);
      steps := [run, Ack];
    } else {
      steps := [run];
    }
  }

  lemma AfterOne(s: Sys, a: Step)
    requires Enabled(s, a)
    ensures Possible(s, [a]) && After(s, [a]) == Next(s, a)
    ensures DiskTrace(s, [a]) == Wrote(s, a)
  {
    assert [a][1..] == [] && Possible(Next(s, a), []);
  }

  lemma AfterTwo(s: Sys, a: Step, b: Step)
    requires Enabled(s, a) && Enabled(Next(s, a), b)
    ensures Possible(s, [a, b]) && After(s, [a, b]) == Next(Next(s, a), b)
    ensures Possible(s, [a]) && Possible(Next(s, a), [b]) &&
            DiskTrace(s, [a, b]) == DiskTrace(s, [a]) + DiskTrace(Next(s, a), [b])
  {
    AfterOne(s, a);
    AfterOne(Next(s, a), b);
    assert [a, b][1..] == [b];
  }

  lemma SaveTakesSteps(cfg: Config, s: Sys, trace: seq<Disk>, keys: seq<Key>, clock: nat -> Time)
    returns (steps: seq<Step>)
    requires s.phase.Ready? && cfg.persist && Visits(keys, s.mem.data) && Forward(clock) && s.now <= clock(0)
    ensures Possible(s, steps)
    ensures var t := After(s, steps);
            t.phase.Ready? && t.acked == s.acked &&
            SlowSave(cfg, Pipeline.MachineOf(s, trace), [], keys, clock).0
            == Pipeline.MachineOf(t, trace + DiskTrace(s, steps))
  {
    hide SweptOver, SlowImage, Visits;
    var save := Step.Save(keys, clock);
    AfterTwo(s, save, Reset);
    AfterOne(s, save);
    AfterOne(Next(s, save), Reset);
    steps := [save, Reset];
  }

  /**
   Every dispatched command, with whatever readings its clock gives, is a run of these steps, through
   the same states of the disk, and acknowledges what its reply confirms.
   */
  lemma DispatchTakesSteps(cfg: Config, s: Sys, trace: seq<Disk>, cmd: Resp.Command, keys: seq<Key>,
                           clock: nat -> Time)
    returns (steps: seq<Step>)
    requires s.phase.Ready? && cfg.persist && Visits(keys, s.mem.data) && Forward(clock) && s.now <= clock(0)
    ensures Possible(s, steps)
    ensures var (m, reply) := SlowDispatch(cfg, Pipeline.MachineOf(s, trace), cmd, keys, clock);
            var t := After(s, steps);
            t.phase.Ready? && m == Pipeline.MachineOf(t, trace + DiskTrace(s, steps)) &&
            t.acked == s.acked + if reply.Success? then Pipeline.Confirmed(cfg, cmd, reply.value, clock(1)) else []
  {
    var moved := Redirection(cfg, cmd);
    var verb := VerbOf(NormalizedName(cmd));
    var m := Pipeline.MachineOf(s, trace);
    assert s.acked + [] == s.acked && trace + [] == trace;
    steps := [];
    if !(moved.Failure? || moved.value.Some? || verb.None?) {
      var request := RequestOf(verb.value, cmd.args);
      if request.Failure? {
        RefusedChangesNothing(cfg, m, verb.value, cmd.args, keys, clock);
      } else if request.value.Keyed? {
        HandleCarries(cfg, m, verb.value, cmd.args, keys, clock);
        steps := RunTakesSteps(s, trace, request.value.op, clock);
      } else if request.value.Save? {
        SaveRequested(verb.value, cmd.args);
        steps := SaveTakesSteps(cfg, s, trace, keys, clock);
      }
    }
  }

  lemma SaveRequested(verb: Verb, args: seq<bytes>)
    requires RequestOf(verb, args) == Success(Dispatching.Save)
    ensures verb == SAVE && args == []
  {
  }

  lemma RefusedChangesNothing(cfg: Config, m: Machine, verb: Verb, args: seq<bytes>, keys: seq<Key>,
                              clock: nat -> Time)
    requires RequestOf(verb, args).Failure?
    ensures SlowHandle(cfg, m, verb, args, keys, clock).0 == m
  {
  }
}
