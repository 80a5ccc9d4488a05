/**
 Crash recovery as a transition system. Memory is the lazy store, the disk is a snapshot
 and a log, the clock only moves forward. A command first changes memory and then appends its
 record, a save first replaces the snapshot and then removes the log, and the process may
 die between any two steps.
 */
module Recovery {
  import opened Wrappers
  import opened Stores
  import opened ClockReadings
  import opened EagerMap
  import opened Files
  import opened AppendLog
  import opened ReplayLaws
  import opened Persistence

  datatype Phase =
    | Ready
    | Logging(entry: LogEntry)  // memory is changed, the record is not yet written, no reply is sent
    | Saved                     // the snapshot is replaced, the log is still there
    | Down

  /**
   boot is the clock reading of the last restart; acked lists the records of all writes whose
   reply the client may have seen, since the beginning of time.
   */
  datatype Sys = Sys(mem: Store, disk: Disk, now: Time, boot: Time, phase: Phase, acked: seq<LogEntry>)

  datatype Step =
    | Run(op: Op)
    | Ack
    | Tick(to: Time)
    | Save
    | Reset
    | Crash
    | Restart

  /** The record that a command leaves to be written: only for writes that took effect. */
  function Pending(after: Store, op: Op, reply: Reply, now: Time): Option<LogEntry> {
    match op
    case Set(k, v) => Some(LogSet(k, v))
    case Del(k) => if reply == Integer(1) then Some(LogDel(k)) else None
    case Expire(k, _) =>
      if reply != Integer(1) then None
      else
        var (_, at) := ExpireAt(after, k, now, now);
        if at.Success? && at.value.Some? then Some(LogExpire(k, at.value.value)) else None
    case _ => None
  }

  /** What a client that reads its reply may count on being kept. */
  function Promised(op: Op, reply: Reply, now: Time): Option<LogEntry> {
    match op
    case Set(k, v) => Some(LogSet(k, v))
    case Del(k) => if reply == Integer(1) then Some(LogDel(k)) else None
    case Expire(k, seconds) => if reply == Integer(1) then Some(LogExpire(k, now + seconds as real)) else None
    case _ => None
  }

  /** The record that is written is the one promised; for EXPIRE it is read back from the store. */
  lemma RecordIsAsPromised(s: Store, op: Op, now: Time)
    ensures var (t, reply) := LazyStep(s, op, now);
            reply.Success? ==> Pending(t, op, reply.value, now) == Promised(op, reply.value, now)
  {
  }

  predicate Enabled(s: Sys, step: Step) {
    match step
    case Run(_) => s.phase.Ready?
    case Ack => s.phase.Logging?
    case Tick(to) => s.now <= to && !s.phase.Logging?
    case Save => s.phase.Ready?
    case Reset => s.phase.Saved?
    case Crash => !s.phase.Down?
    case Restart => s.phase.Down?
  }

  function Next(s: Sys, step: Step): Sys
    requires Enabled(s, step)
  {
    match step
    case Run(op) =>
      var (t, reply) := LazyStep(s.mem, op, s.now);
      var record := if reply.Success? then Pending(t, op, reply.value, s.now) else None;
      s.(mem := t, phase := if record.Some? then Logging(record.value) else Ready)
    case Ack =>
      s.(disk := AppendTo(s.disk, s.phase.entry), phase := Ready, acked := s.acked + [s.phase.entry])
    case Tick(to) => s.(now := to)
    case Save =>
      s.(mem := Sweep(s.mem, s.now), disk := SaveImage(s.disk, Image(s.mem, s.now)), phase := Saved)
    case Reset => s.(disk := ResetLog(s.disk), phase := Ready)
    case Crash => s.(mem := EMPTY, phase := Down)
    case Restart => s.(mem := Load(Recover(s.disk), s.now), boot := s.now, phase := Ready)
  }

  /** A machine with no files, not yet started. */
  function Blank(now: Time): Sys {
    Sys(EMPTY, Disk(None, None), now, now, Down, [])
  }

  ghost predicate Possible(s: Sys, steps: seq<Step>)
    decreases |steps|
  {
    steps == [] || (Enabled(s, steps[0]) && Possible(Next(s, steps[0]), steps[1..]))
  }

  ghost function After(s: Sys, steps: seq<Step>): Sys
    requires Possible(s, steps)
    decreases |steps|
  {
    if steps == [] then s else After(Next(s, steps[0]), steps[1..])
  }

  /** The states of the disk on the way, after every change of a file. */
  ghost function DiskTrace(s: Sys, steps: seq<Step>): seq<Disk>
    requires Possible(s, steps)
    decreases |steps|
  {
    if steps == [] then [] else Wrote(s, steps[0]) + DiskTrace(Next(s, steps[0]), steps[1..])
  }

  /** The disk after a step that changes a file. */
  function Wrote(s: Sys, step: Step): seq<Disk>
    requires Enabled(s, step)
  {
    if step.Ack? || step.Save? || (step.Reset? && s.disk.aof.Some?) then [Next(s, step).disk] else []
  }

  /** Every state of the disk on the way is where the run stood at some moment, so a crash can leave it. */
  lemma {:induction false} TraceIsOfPrefixes(s: Sys, steps: seq<Step>, i: nat) returns (n: nat)
    requires Possible(s, steps) && i < |DiskTrace(s, steps)|
    ensures n <= |steps| && Possible(s, steps[..n]) && After(s, steps[..n]).disk == DiskTrace(s, steps)[i]
    decreases |steps|
  {
    var t := Next(s, steps[0]);
    var here := |DiskTrace(s, steps)| - |DiskTrace(t, steps[1..])|;
    if i < here {
      n := 1;
      assert steps[..1] == [steps[0]] && [steps[0]][1..] == [];
      assert Possible(t, []) && After(t, []) == t;
    } else {
      var m := TraceIsOfPrefixes(t, steps[1..], i - here);
      n := m + 1;
      assert steps[..n][1..] == steps[1..][..m];
    }
  }

  // ---------- invariants ----------

  /** The recovered state, and the write in flight if there is one. */
  function Durable(s: Sys): Store {
    if s.phase.Logging? then Apply(Recover(s.disk), s.phase.entry) else Recover(s.disk)
  }

  /** Two stores show the same to clients. */
  ghost predicate ShowSame(s: Store, t: Store, now: Time) {
    forall k :: Visible(s, k, now) == Visible(t, k, now)
  }

  /** A record may be appended: a deadline lies ahead and is for a key that can be seen. */
  ghost predicate Sound(s: Store, e: LogEntry, now: Time) {
    e.LogExpire? ==> e.at > now && Visible(s, e.key, now).Some?
  }

  /** Nothing is assumed about restarts: the files, as loaded at the last one, show what memory shows. */
  ghost predicate Inv(s: Sys) {
    && Tidy(s.mem) && Tidy(LoadRdb(s.disk)) && s.boot <= s.now
    && (s.phase.Logging? ==> Sound(Load(Recover(s.disk), s.boot), s.phase.entry, s.now))
    && (!s.phase.Down? ==> ShowSame(Load(Durable(s), s.boot), s.mem, s.now))
    && (s.phase.Saved? ==> ShowSame(Load(LoadRdb(s.disk), s.boot), s.mem, s.now))
  }

  /** Of this key, the files show the effect of all acknowledged writes. */
  ghost predicate KeepsAcked(s: Sys, k: Key) {
    Visible(Load(Recover(s.disk), s.boot), k, s.now) == Visible(ApplyAll(EMPTY, s.acked), k, s.now)
  }

  // ---------- facts about the pieces ----------

  lemma ShowSameLater(s: Store, t: Store, now: Time, later: Time)
    requires ShowSame(s, t, now) && now <= later
    ensures ShowSame(s, t, later)
  {
    forall k ensures Visible(s, k, later) == Visible(t, k, later) {
      assert Visible(s, k, now) == Visible(t, k, now);
    }
  }

  lemma RecoverIsTidy(d: Disk)
    requires Tidy(LoadRdb(d))
    ensures Tidy(Recover(d))
  {
    TrimChangesNoKey(LoadRdb(d));
    if d.aof.Some? {
      ReplayKeepsTidy(Trim(LoadRdb(d)), d.aof.value);
    }
  }

  /** Appending a record applies it to the recovered state. */
  lemma RecoverAppended(d: Disk, e: LogEntry)
    requires Tidy(LoadRdb(d))
    ensures Recover(AppendTo(d, e)) == Apply(Recover(d), e)
  {
    var log := if d.aof.None? then [] else d.aof.value;
    var base := Trim(LoadRdb(d));
    TrimOfTidy(LoadRdb(d));
    ApplyAllSnoc(base, log, e);
  }

  /** A sound record has the same effect on what two stores show of a key, loaded or not. */
  lemma ApplyShowsSame(s: Store, t: Store, e: LogEntry, boot: Time, now: Time, k: Key)
    requires boot <= now && Sound(Load(s, boot), e, now)
    requires Visible(Load(s, boot), k, now) == Visible(t, k, now)
    ensures Visible(Load(Apply(s, e), boot), k, now) == Visible(Apply(t, e), k, now)
  {
    ApplyIsPerKey(s, e, k);
    ApplyIsPerKey(t, e, k);
    LoadIsPerKey(s, boot, k);
    LoadIsPerKey(Apply(s, e), boot, k);
  }

  lemma ApplyAllSnoc(s: Store, log: seq<LogEntry>, e: LogEntry)
    ensures ApplyAll(s, log + [e]) == Apply(ApplyAll(s, log), e)
  {
    assert (log + [e])[..|log|] == log;
  }

  /** One key: what the promised record does to the durable entry, once loaded, is what the command did. */
  lemma PromiseMirrorsKeyStep(x: Option<Entry>, op: Op, boot: Time, now: Time)
    requires boot <= now
    ensures var seen := Living(KeyLoad(x, boot), now);
            var (after, reply) := KeyStep(seen, op, now);
            match Promised(op, reply, now)
            case None => after == seen
            case Some(e) =>
              e.key == op.key && (e.LogExpire? ==> e.at > now && seen.Some?) &&
              Living(KeyLoad(KeyApply(x, e), boot), now) == after
  {
  }

  /** The record left by a command is sound, and applying it does what the command did. */
  lemma RecordMirrorsCommand(mem: Store, op: Op, now: Time, durable: Store, boot: Time)
    requires Tidy(mem) && boot <= now && ShowSame(Load(durable, boot), mem, now)
    ensures var (t, reply) := LazyStep(mem, op, now);
            var record := if reply.Success? then Pending(t, op, reply.value, now) else None;
            Tidy(t) &&
            (record.None? ==> ShowSame(Load(durable, boot), t, now)) &&
            (record.Some? ==> Sound(Load(durable, boot), record.value, now) &&
                              ShowSame(Load(Apply(durable, record.value), boot), t, now))
  {
    StepActsOnItsKey(mem, op, now);
    RecordIsAsPromised(mem, op, now);
    assert Visible(Load(durable, boot), op.key, now) == Visible(mem, op.key, now);
    LoadIsPerKey(durable, boot, op.key);
    PromiseMirrorsKeyStep(At(durable, op.key), op, boot, now);
    hide LazyStep, KeyStep, Pending, Promised, Apply, Load, At, Living, KeyLoad, KeyApply;
    var (t, reply) := LazyStep(mem, op, now);
    var record := Pending(t, op, reply.value, now);
    forall k
      ensures record.None? ==> Visible(Load(durable, boot), k, now) == Visible(t, k, now)
      ensures record.Some? ==> Visible(Load(Apply(durable, record.value), boot), k, now) == Visible(t, k, now)
    {
      assert Visible(Load(durable, boot), k, now) == Visible(mem, k, now);
      LoadIsPerKey(durable, boot, k);
      if record.Some? {
        ApplyIsPerKey(durable, record.value, k);
        LoadIsPerKey(Apply(durable, record.value), boot, k);
      }
    }
  }

  /** Replacing the snapshot under a log that is now stale does not change what the files show. */
  lemma SaveShowsSame(s: Sys)
    requires Inv(s) && s.phase.Ready?
    ensures var t := Next(s, Save);
            Tidy(LoadRdb(t.disk)) && Tidy(t.mem) &&
            ShowSame(t.mem, s.mem, s.now) &&
            ShowSame(Load(LoadRdb(t.disk), s.boot), s.mem, s.now) &&
            ShowSame(Load(Recover(t.disk), s.boot), s.mem, s.now)
  {
    var image := Image(s.mem, s.now);
    var t := Next(s, Save);
    TrimChangesNoKey(LoadRdb(s.disk));
    TrimChangesNoKey(image);
    forall k
      ensures At(image, k) == Visible(s.mem, k, s.now) && Tidy(image)
      ensures At(t.mem, k) == Visible(s.mem, k, s.now) && Tidy(t.mem)
      ensures Visible(Load(image, s.boot), k, s.now) == Visible(s.mem, k, s.now)
      ensures Visible(Load(Recover(t.disk), s.boot), k, s.now) == Visible(s.mem, k, s.now)
    {
      ImageIsTheVisiblePart(s.mem, s.now, k);
      LoadIsPerKey(image, s.boot, k);
      assert Visible(Load(Recover(s.disk), s.boot), k, s.now) == Visible(s.mem, k, s.now);
      if s.disk.aof.Some? {
        StaleLogOverSnapshot(Trim(LoadRdb(s.disk)), s.disk.aof.value, s.boot, Trim(image), s.now, k, s.now);
      }
    }
    assert Tidy(image) by { ImageIsTheVisiblePart(s.mem, s.now, []); }
    assert Tidy(t.mem) by { ImageIsTheVisiblePart(s.mem, s.now, []); }
  }

  // ---------- every step ----------

  lemma StepKeepsInv(s: Sys, step: Step)
    requires Inv(s) && Enabled(s, step)
    ensures Inv(Next(s, step))
  {
    var t := Next(s, step);
    match step {
      case Run(op) =>
        RecordMirrorsCommand(s.mem, op, s.now, Recover(s.disk), s.boot);
      case Ack =>
        RecoverAppended(s.disk, s.phase.entry);
      case Tick(to) =>
        if !s.phase.Down? {
          ShowSameLater(Load(Durable(s), s.boot), s.mem, s.now, to);
        }
        if s.phase.Saved? {
          ShowSameLater(Load(LoadRdb(s.disk), s.boot), s.mem, s.now, to);
        }
      case Save =>
        SaveShowsSame(s);
        assert ShowSame(Load(Durable(t), t.boot), t.mem, t.now);
      case Reset =>
      case Crash =>
      case Restart =>
        RecoverIsTidy(s.disk);
    }
  }

  /** No step makes the files forget an acknowledged write, but a restart that finds the key freshly lapsed. */
  lemma StepKeepsAcked(s: Sys, step: Step, k: Key)
    requires Inv(s) && KeepsAcked(s, k) && Enabled(s, step)
    requires step.Restart? ==> !LapsedSince(Recover(s.disk), k, s.boot, s.now)
    ensures KeepsAcked(Next(s, step), k)
  {
    var all := ApplyAll(EMPTY, s.acked);
    match step {
      case Run(op) =>
      case Ack =>
        RecoverAppended(s.disk, s.phase.entry);
        ApplyShowsSame(Recover(s.disk), all, s.phase.entry, s.boot, s.now, k);
        ApplyAllSnoc(EMPTY, s.acked, s.phase.entry);
      case Tick(to) =>
      case Save =>
        SaveShowsSame(s);
        assert Visible(Load(Recover(s.disk), s.boot), k, s.now) == Visible(s.mem, k, s.now);
      case Reset =>
        assert Visible(Load(LoadRdb(s.disk), s.boot), k, s.now) == Visible(s.mem, k, s.now);
        assert Visible(Load(Recover(s.disk), s.boot), k, s.now) == Visible(s.mem, k, s.now);
      case Crash =>
      case Restart =>
        ReloadShowsKeyIff(Recover(s.disk), s.boot, s.now, k);
    }
  }

  /** And such a restart always does: it keeps the acknowledged writes to a key exactly if the key has not lapsed. */
  lemma RestartKeepsAckedIff(s: Sys, k: Key)
    requires Inv(s) && KeepsAcked(s, k) && s.phase.Down?
    ensures KeepsAcked(Next(s, Restart), k) <==> !LapsedSince(Recover(s.disk), k, s.boot, s.now)
  {
    ReloadShowsKeyIff(Recover(s.disk), s.boot, s.now, k);
  }

  // ---------- whole runs ----------

  /** For every run, crashes and restarts anywhere: the files show what memory shows. */
  lemma {:induction false} FilesMatchMemory(s: Sys, steps: seq<Step>)
    requires Inv(s) && Possible(s, steps)
    ensures Inv(After(s, steps))
    decreases |steps|
  {
    if steps != [] {
      StepKeepsInv(s, steps[0]);
      FilesMatchMemory(Next(s, steps[0]), steps[1..]);
    }
  }

  /** In no reachable state, whatever was crashed and restarted on the way, does a command raise. */
  lemma NoReachableStateRaises(start: Time, steps: seq<Step>, op: Op)
    requires Possible(Blank(start), steps)
    ensures var s := After(Blank(start), steps); Tidy(s.mem) && LazyStep(s.mem, op, s.now).1.Success?
  {
    assert Inv(Blank(start));
    FilesMatchMemory(Blank(start), steps);
    StepKeepsTidy(After(Blank(start), steps).mem, op, After(Blank(start), steps).now);
  }

  /** In this run no restart finds that the key lapsed since the restart before. */
  ghost predicate CleanRestarts(s: Sys, steps: seq<Step>, k: Key)
    requires Possible(s, steps)
    decreases |steps|
  {
    steps != [] ==>
      && (steps[0].Restart? ==> !LapsedSince(Recover(s.disk), k, s.boot, s.now))
      && CleanRestarts(Next(s, steps[0]), steps[1..], k)
  }

  lemma {:induction false} RunKeepsAcked(s: Sys, steps: seq<Step>, k: Key)
    requires Inv(s) && KeepsAcked(s, k) && Possible(s, steps) && CleanRestarts(s, steps, k)
    ensures Inv(After(s, steps)) && KeepsAcked(After(s, steps), k)
    decreases |steps|
  {
    if steps != [] {
      StepKeepsInv(s, steps[0]);
      StepKeepsAcked(s, steps[0], k);
      RunKeepsAcked(Next(s, steps[0]), steps[1..], k);
    }
  }

  /** The acknowledged writes, and the one in flight if there is one. */
  function Writes(s: Sys): seq<LogEntry> {
    if s.phase.Logging? then s.acked + [s.phase.entry] else s.acked
  }

  /** Memory and files show the writes, and the acknowledged writes, to this key. */
  ghost predicate Durably(s: Sys, k: Key) {
    && KeepsAcked(s, k)
    && (!s.phase.Down? ==> Visible(s.mem, k, s.now) == Visible(ApplyAll(EMPTY, Writes(s)), k, s.now))
  }

  /**
   Durability. After any run from an empty machine, with crashes at any point, memory shows
   exactly the effect of the acknowledged writes and of at most one write in flight, and what a
   restart would read from the files shows the acknowledged ones. This holds of every key that no
   restart found freshly lapsed, whatever became of the others.
   */
  lemma AcknowledgedWritesSurvive(start: Time, steps: seq<Step>, k: Key)
    requires Possible(Blank(start), steps) && CleanRestarts(Blank(start), steps, k)
    ensures Durably(After(Blank(start), steps), k)
  {
    assert Inv(Blank(start)) && KeepsAcked(Blank(start), k);
    RunKeepsAcked(Blank(start), steps, k);
    var s := After(Blank(start), steps);
    if !s.phase.Down? {
      assert Visible(Load(Durable(s), s.boot), k, s.now) == Visible(s.mem, k, s.now);
      if s.phase.Logging? {
        ApplyShowsSame(Recover(s.disk), ApplyAll(EMPTY, s.acked), s.phase.entry, s.boot, s.now, k);
        ApplyAllSnoc(EMPTY, s.acked, s.phase.entry);
      }
    }
  }

  /** In such a run a command on the key is answered as the eager map of all acknowledged writes answers. */
  lemma RepliesComeFromAcknowledgedWrites(start: Time, steps: seq<Step>, op: Op)
    requires Possible(Blank(start), steps) && CleanRestarts(Blank(start), steps, op.key)
    requires After(Blank(start), steps).phase.Ready?
    ensures var s := After(Blank(start), steps);
            LazyStep(s.mem, op, s.now).1 == Success(EagerStep(View(ApplyAll(EMPTY, s.acked), s.now), op, s.now).1)
  {
    AcknowledgedWritesSurvive(start, steps, op.key);
    assert Inv(Blank(start));
    FilesMatchMemory(Blank(start), steps);
    var s := After(Blank(start), steps);
    StepActsOnItsKey(s.mem, op, s.now);
    EagerReplyIsTheKeys(View(ApplyAll(EMPTY, s.acked), s.now), op, s.now);
    var all := ApplyAll(EMPTY, s.acked);
    assert Look(View(all, s.now), op.key) == Visible(all, op.key, s.now);
  }

  lemma EagerReplyIsTheKeys(m: Model, op: Op, now: Time)
    ensures EagerStep(m, op, now).1 == KeyStep(Living(Look(m, op.key), now), op, now).1
  {
  }

  // ---------- keys without deadlines ----------

  ghost predicate NoExpireOf(log: seq<LogEntry>, k: Key) {
    forall i :: 0 <= i < |log| ==> !(log[i].LogExpire? && log[i].key == k)
  }

  /** The key has no deadline on disk, and in memory at most the one being logged. */
  ghost predicate DeadlineFree(s: Sys, k: Key) {
    && k !in LoadRdb(s.disk).expires
    && (s.disk.aof.Some? ==> NoExpireOf(s.disk.aof.value, k))
    && (k in s.mem.expires ==> s.phase.Logging? && s.phase.entry.LogExpire? && s.phase.entry.key == k)
  }

  lemma {:induction false} ReplayAddsNoDeadline(s: Store, log: seq<LogEntry>, k: Key)
    requires k !in s.expires && NoExpireOf(log, k)
    ensures k !in ApplyAll(s, log).expires
  {
    if log != [] {
      ReplayAddsNoDeadline(s, log[..|log| - 1], k);
    }
  }

  lemma RecoversNoDeadline(d: Disk, k: Key)
    requires k !in LoadRdb(d).expires && (d.aof.Some? ==> NoExpireOf(d.aof.value, k))
    ensures k !in Recover(d).expires
  {
    if d.aof.Some? {
      ReplayAddsNoDeadline(Trim(LoadRdb(d)), d.aof.value, k);
    }
  }

  lemma StepKeepsDeadlineFree(s: Sys, step: Step, k: Key)
    requires DeadlineFree(s, k) && Enabled(s, step) && NoExpireOf(Next(s, step).acked, k)
    ensures DeadlineFree(Next(s, step), k)
  {
    match step {
      case Run(op) =>
        RecordIsAsPromised(s.mem, op, s.now);
      case Ack =>
        assert Next(s, step).acked[|s.acked|] == s.phase.entry;
      case Restart =>
        RecoversNoDeadline(s.disk, k);
      case _ =>
    }
  }

  lemma {:induction false} RunsSplit(s: Sys, steps: seq<Step>, n: nat)
    requires Possible(s, steps) && n <= |steps|
    ensures Possible(s, steps[..n]) && Possible(After(s, steps[..n]), steps[n..])
    ensures After(After(s, steps[..n]), steps[n..]) == After(s, steps)
    decreases |steps|
  {
    hide Next, Enabled;
    if n == 0 {
      assert steps[..0] == [] && steps[0..] == steps;
    } else {
      RunsSplit(Next(s, steps[0]), steps[1..], n - 1);
      assert steps[..n][1..] == steps[1..][..n - 1] && steps[1..][n - 1..] == steps[n..];
    }
  }

  lemma {:induction false} CleanSplit(s: Sys, a: seq<Step>, b: seq<Step>, k: Key)
    requires Possible(s, a) && Possible(After(s, a), b) && Possible(s, a + b)
    ensures CleanRestarts(s, a + b, k) <==> CleanRestarts(s, a, k) && CleanRestarts(After(s, a), b, k)
    decreases |a|
  {
    hide Next, Enabled;
    if a == [] {
      assert a + b == b;
    } else {
      assert (a + b)[0] == a[0] && (a + b)[1..] == a[1..] + b;
      CleanSplit(Next(s, a[0]), a[1..], b, k);
    }
  }

  lemma {:induction false} TimeGrows(s: Sys, steps: seq<Step>)
    requires Possible(s, steps)
    ensures s.now <= After(s, steps).now
    decreases |steps|
  {
    if steps != [] {
      TimeGrows(Next(s, steps[0]), steps[1..]);
    }
  }

  /** In these steps the process neither dies nor starts. */
  predicate LivesOn(steps: seq<Step>) {
    forall i :: 0 <= i < |steps| ==> !steps[i].Crash? && !steps[i].Restart?
  }

  lemma {:induction false} LivingRunsAreClean(s: Sys, steps: seq<Step>, k: Key)
    requires Possible(s, steps) && LivesOn(steps)
    ensures CleanRestarts(s, steps, k) && After(s, steps).boot == s.boot
    ensures After(s, steps).phase.Down? <==> s.phase.Down?
    decreases |steps|
  {
    if steps != [] {
      LivingRunsAreClean(Next(s, steps[0]), steps[1..], k);
    }
  }

  lemma {:induction false} AckedGrows(s: Sys, steps: seq<Step>)
    requires Possible(s, steps)
    ensures s.acked <= After(s, steps).acked
    decreases |steps|
  {
    if steps != [] {
      AckedGrows(Next(s, steps[0]), steps[1..]);
    }
  }

  lemma {:induction false} DeadlineFreeRunsAreClean(s: Sys, steps: seq<Step>, k: Key)
    requires DeadlineFree(s, k) && Possible(s, steps) && NoExpireOf(After(s, steps).acked, k)
    ensures CleanRestarts(s, steps, k)
    decreases |steps|
  {
    if steps != [] {
      var t := Next(s, steps[0]);
      AckedGrows(t, steps[1..]);
      assert forall i :: 0 <= i < |t.acked| ==> t.acked[i] == After(s, steps).acked[i];
      StepKeepsDeadlineFree(s, steps[0], k);
      RecoversNoDeadline(s.disk, k);
      DeadlineFreeRunsAreClean(t, steps[1..], k);
    }
  }

  /** With any restarts: a key that never got an acknowledged EXPIRE loses nothing and never comes back. */
  lemma KeysWithoutDeadlinesSurvive(start: Time, steps: seq<Step>, k: Key)
    requires Possible(Blank(start), steps) && NoExpireOf(After(Blank(start), steps).acked, k)
    ensures Durably(After(Blank(start), steps), k)
  {
    DeadlineFreeRunsAreClean(Blank(start), steps, k);
    AcknowledgedWritesSurvive(start, steps, k);
  }

  // ---------- restarts ----------

  /** The restart step leaves in memory what restore() leaves there, in whatever order it visits the keys. */
  lemma RestoreIsRestart(s: Sys, visited: seq<Key>)
    requires s.phase.Down? && Visits(visited, Recover(s.disk).data)
    ensures SlowLoad(Recover(s.disk), visited, _ => s.now) == Next(s, Restart).mem
  {
    LoadAtOneReading(Recover(s.disk), visited, _ => s.now, s.now);
  }

  /**
   The exact price of a restart, in any run whatever happened before: killing the process while
   no write is in flight and starting it again at a later time shows the same as if it had lived
   on, exactly when no deadline on disk lapsed since the last restart.
   */
  lemma RestartShowsTheSameIff(start: Time, steps: seq<Step>, later: Time)
    requires Possible(Blank(start), steps)
    requires var s := After(Blank(start), steps);
             (s.phase.Ready? || s.phase.Saved?) && s.now <= later
    ensures var s := After(Blank(start), steps);
            ShowSame(Load(Recover(s.disk), later), s.mem, later) <==> NoneLapsed(Recover(s.disk), s.boot, later)
    ensures var s := After(Blank(start), steps);
            Possible(s, [Crash, Tick(later), Restart]) &&
            After(s, [Crash, Tick(later), Restart]).mem == Load(Recover(s.disk), later)
  {
    assert Inv(Blank(start));
    FilesMatchMemory(Blank(start), steps);
    var s := After(Blank(start), steps);
    ShowSameLater(Load(Recover(s.disk), s.boot), s.mem, s.now, later);
    ReloadShowsTheSameIff(Recover(s.disk), s.boot, later);
    var crashed := Next(s, Crash);
    var ticked := Next(crashed, Tick(later));
    var steps0, steps1 := [Crash, Tick(later), Restart], [Tick(later), Restart];
    assert steps0[1..] == steps1 && steps1[1..] == [Restart];
    var restarted := Next(ticked, Restart);
    assert [Restart][1..] == [] && Possible(restarted, []) && After(restarted, []) == restarted;
    assert Possible(ticked, [Restart]) && After(ticked, [Restart]) == restarted;
    assert Possible(crashed, steps1) && After(crashed, steps1) == restarted;
    forall k {:trigger Visible(s.mem, k, later)}
      ensures Visible(Load(Recover(s.disk), s.boot), k, later) == Visible(s.mem, k, later)
    {
    }
  }

  /** Just started on these files. */
  function Reborn(d: Disk, now: Time, acked: seq<LogEntry>): Sys {
    Sys(Load(Recover(d), now), d, now, now, Ready, acked)
  }

  lemma OneMoreStep(s: Sys, step: Step, rest: seq<Step>)
    requires Enabled(s, step) && Possible(Next(s, step), rest)
    ensures Possible(s, [step] + rest) && After(s, [step] + rest) == After(Next(s, step), rest)
    ensures forall k :: CleanRestarts(s, [step] + rest, k) <==>
                        (step.Restart? ==> !LapsedSince(Recover(s.disk), k, s.boot, s.now)) &&
                        CleanRestarts(Next(s, step), rest, k)
  {
    assert ([step] + rest)[1..] == rest;
  }

  /** The writes of a SET with a deadline, and a crash in which the deadline lapses. */
  function LapsingRun(k: Key, v: Value, seconds: int, later: Time): seq<Step> {
    [Restart] + ([Run(Set(k, v))] + ([Ack] + ([Run(Expire(k, seconds))] + ([Ack]
    + ([Crash] + ([Tick(later)] + [Restart]))))))
  }

  /**
   docs/rdb.md says that a lapsed key is not restored. In this run, for any key, value and deadline,
   it is: the key is back, without a deadline, while by the acknowledged writes it is gone.
   */
  lemma LapsedKeysComeBack(start: Time, k: Key, v: Value, seconds: int, later: Time)
    requires seconds > 0 && start + seconds as real <= later
    ensures var steps := LapsingRun(k, v, seconds, later);
            Possible(Blank(start), steps) &&
            var s := After(Blank(start), steps);
            s.phase.Ready? && s.now == later &&
            At(s.mem, k) == Some(Entry(v, None)) && Visible(ApplyAll(EMPTY, s.acked), k, later) == None
  {
    var one := Sys(EMPTY, Disk(None, None), start, start, Ready, []);
    var two := Next(one, Run(Set(k, v)));
    var three := Next(two, Ack);
    var four := Next(three, Run(Expire(k, seconds)));
    var five := Next(four, Ack);
    FirstFour(start, k, v, seconds);
    CrashAndRestart(five, later);
    TwoWrites(k, v, start + seconds as real);
    hide LazyStep, Pending, ApplyAll, Recover, Load;
    var tail := [Ack] + ([Crash] + ([Tick(later)] + [Restart]));
    OneMoreStep(four, Ack, [Crash] + ([Tick(later)] + [Restart]));
    OneMoreStep(three, Run(Expire(k, seconds)), tail);
    OneMoreStep(two, Ack, [Run(Expire(k, seconds))] + tail);
    OneMoreStep(one, Run(Set(k, v)), [Ack] + ([Run(Expire(k, seconds))] + tail));
    OneMoreStep(Blank(start), Restart, [Run(Set(k, v))] + ([Ack] + ([Run(Expire(k, seconds))] + tail)));
    LoadedLate(k, v, start + seconds as real, later);
  }

  lemma CrashAndRestart(s: Sys, later: Time)
    requires !s.phase.Down? && s.now <= later
    ensures var steps := [Crash] + ([Tick(later)] + [Restart]);
            Possible(s, steps) && After(s, steps) == Reborn(s.disk, later, s.acked)
    ensures forall k :: CleanRestarts(s, [Crash] + ([Tick(later)] + [Restart]), k) <==>
                        !LapsedSince(Recover(s.disk), k, s.boot, later)
  {
    hide Recover, Load;
    var crashed := Next(s, Crash);
    var ticked := Next(crashed, Tick(later));
    var restarted := Next(ticked, Restart);
    assert Possible(restarted, []) && After(restarted, []) == restarted && [Restart] + [] == [Restart];
    OneMoreStep(ticked, Restart, []);
    OneMoreStep(crashed, Tick(later), [Restart]);
    OneMoreStep(s, Crash, [Tick(later)] + [Restart]);
  }

  lemma LoadedLate(k: Key, v: Value, at: Time, later: Time)
    requires at <= later
    ensures var writes := [LogSet(k, v), LogExpire(k, at)];
            At(Load(Recover(Disk(None, Some(writes))), later), k) == Some(Entry(v, None)) &&
            Visible(ApplyAll(EMPTY, writes), k, later) == None
  {
    TwoWrites(k, v, at);
    hide ApplyAll;
    LoadIsPerKey(Store(map[k := v], map[k := at]), later, k);
  }

  /** The first restart and the two writes, acknowledged. */
  lemma FirstFour(start: Time, k: Key, v: Value, seconds: int)
    requires seconds > 0
    ensures var one := Sys(EMPTY, Disk(None, None), start, start, Ready, []);
            var two := Next(one, Run(Set(k, v)));
            Next(Blank(start), Restart) == one && two.phase == Logging(LogSet(k, v)) &&
            var three := Next(two, Ack);
            var four := Next(three, Run(Expire(k, seconds)));
            four.phase == Logging(LogExpire(k, start + seconds as real)) &&
            var five := Next(four, Ack);
            var writes := [LogSet(k, v), LogExpire(k, start + seconds as real)];
            five.acked == writes && five.disk == Disk(None, Some(writes)) && five.now == start && five.boot == start
  {
  }

  lemma TwoWrites(k: Key, v: Value, at: Time)
    ensures ApplyAll(EMPTY, [LogSet(k, v), LogExpire(k, at)]) == Store(map[k := v], map[k := at])
    ensures Trim(EMPTY) == EMPTY
  {
    var writes := [LogSet(k, v), LogExpire(k, at)];
    assert writes[..1] == [LogSet(k, v)] && writes[..1][..0] == [];
    assert ApplyAll(EMPTY, writes[..1]) == Apply(EMPTY, LogSet(k, v));
  }
}
