/**
 What logs mean. Seen from one key, every log has one of three effects: nothing, a new
 deadline, or a fixed outcome. All laws of replay follow from this normal form.
 */
module ReplayLaws {
  import opened Wrappers
  import opened Stores
  import opened Files
  import opened AppendLog

  // ---------- one key ----------

  function KeyApply(x: Option<Entry>, e: LogEntry): Option<Entry> {
    match e
    case LogSet(_, v) => Some(Entry(v, None))
    case LogDel(_) => None
    case LogExpire(_, at) => if x.Some? then Some(x.value.(deadline := Some(at))) else None
  }

  function KeyReplay(x: Option<Entry>, log: seq<LogEntry>): Option<Entry> {
    if log == [] then x else KeyApply(KeyReplay(x, log[..|log| - 1]), log[|log| - 1])
  }

  /** The records of a log that concern one key, in order. */
  function Project(log: seq<LogEntry>, k: Key): seq<LogEntry> {
    if log == [] then []
    else Project(log[..|log| - 1], k) + if log[|log| - 1].key == k then [log[|log| - 1]] else []
  }

  lemma ApplyIsPerKey(s: Store, e: LogEntry, k: Key)
    ensures At(Apply(s, e), k) == if e.key == k then KeyApply(At(s, k), e) else At(s, k)
  {
  }

  lemma KeyReplaySnoc(x: Option<Entry>, log: seq<LogEntry>, e: LogEntry)
    ensures KeyReplay(x, log + [e]) == KeyApply(KeyReplay(x, log), e)
  {
    assert (log + [e])[..|log|] == log;
  }

  /** Replay works key by key. */
  lemma {:induction false} ReplayIsPerKey(s: Store, log: seq<LogEntry>, k: Key)
    ensures At(ApplyAll(s, log), k) == KeyReplay(At(s, k), Project(log, k))
  {
    if log != [] {
      hide At, Apply, KeyApply, KeyReplay;
      var front, last := log[..|log| - 1], log[|log| - 1];
      ReplayIsPerKey(s, front, k);
      ApplyIsPerKey(ApplyAll(s, front), last, k);
      KeyReplaySnoc(At(s, k), Project(front, k), last);
      assert Project(front, k) + [] == Project(front, k);
    } else {
      assert Project(log, k) == [];
    }
  }

  lemma {:induction false} ReplayKeepsTidy(s: Store, log: seq<LogEntry>)
    requires Tidy(s)
    ensures Tidy(ApplyAll(s, log))
  {
    if log != [] {
      ReplayKeepsTidy(s, log[..|log| - 1]);
    }
  }

  // ---------- the normal form ----------

  datatype Effect = Nothing | Deadline(at: Time) | Fixed(outcome: Option<Entry>)

  function Act(f: Effect, x: Option<Entry>): Option<Entry> {
    match f
    case Nothing => x
    case Deadline(at) => if x.Some? then Some(x.value.(deadline := Some(at))) else None
    case Fixed(outcome) => outcome
  }

  function EffectOf(log: seq<LogEntry>): Effect {
    if log == [] then Nothing
    else
      var before := EffectOf(log[..|log| - 1]);
      match log[|log| - 1]
      case LogSet(_, v) => Fixed(Some(Entry(v, None)))
      case LogDel(_) => Fixed(None)
      case LogExpire(_, at) => if before.Fixed? then Fixed(Act(Deadline(at), before.outcome)) else Deadline(at)
  }

  lemma {:induction false} EffectIsReplay(x: Option<Entry>, log: seq<LogEntry>)
    ensures KeyReplay(x, log) == Act(EffectOf(log), x)
  {
    if log != [] {
      EffectIsReplay(x, log[..|log| - 1]);
    }
  }

  /** Replay of a whole log, seen from one key. */
  lemma ReplayActs(s: Store, log: seq<LogEntry>, k: Key)
    ensures At(ApplyAll(s, log), k) == Act(EffectOf(Project(log, k)), At(s, k))
  {
    ReplayIsPerKey(s, log, k);
    EffectIsReplay(At(s, k), Project(log, k));
  }

  // ---------- the laws ----------

  lemma TrimChangesNoKey(s: Store)
    ensures Tidy(Trim(s)) && forall k :: At(Trim(s), k) == At(s, k)
  {
  }

  lemma TrimOfTidy(s: Store)
    requires Tidy(s)
    ensures Trim(s) == s
  {
    TrimChangesNoKey(s);
    SameEntriesSameStore(Trim(s), s);
  }

  /** Replaying a log file leaves a tidy store, whatever the base. */
  lemma ReplayOfAFileIsTidy(base: Store, log: seq<LogEntry>)
    ensures Tidy(Replay(base, Some(log)))
  {
    TrimChangesNoKey(base);
    ReplayKeepsTidy(Trim(base), log);
  }

  /** Only the order of records of the same key matters. */
  lemma SameProjectionsSameState(base: Store, log: seq<LogEntry>, other: seq<LogEntry>)
    requires forall k :: Project(log, k) == Project(other, k)
    ensures Replay(base, Some(log)) == Replay(base, Some(other))
  {
    hide At, ApplyAll, Trim;
    ReplayOfAFileIsTidy(base, log);
    ReplayOfAFileIsTidy(base, other);
    forall k ensures At(Replay(base, Some(log)), k) == At(Replay(base, Some(other)), k) {
      ReplayIsPerKey(Trim(base), log, k);
      ReplayIsPerKey(Trim(base), other, k);
    }
    SameEntriesSameStore(Replay(base, Some(log)), Replay(base, Some(other)));
  }

  /** The log writes or deletes this key outright. */
  ghost predicate Decides(log: seq<LogEntry>, k: Key) {
    exists i :: 0 <= i < |log| && log[i].key == k && !log[i].LogExpire?
  }

  lemma EffectSnoc(log: seq<LogEntry>, e: LogEntry)
    ensures EffectOf(log + [e]).Fixed? <==> !e.LogExpire? || EffectOf(log).Fixed?
  {
    assert (log + [e])[..|log|] == log;
  }

  lemma {:induction false} DecidesIsFixed(log: seq<LogEntry>, k: Key)
    ensures EffectOf(Project(log, k)).Fixed? <==> Decides(log, k)
  {
    if log != [] {
      hide EffectOf, Decides;
      var front, last := log[..|log| - 1], log[|log| - 1];
      DecidesIsFixed(front, k);
      DecidesSnoc(front, last, k);
      assert log == front + [last];
      EffectSnoc(Project(front, k), last);
      assert last.key != k ==> Project(log, k) == Project(front, k);
    } else {
      assert Project(log, k) == [];
    }
  }

  lemma DecidesSnoc(log: seq<LogEntry>, e: LogEntry, k: Key)
    ensures Decides(log + [e], k) <==> Decides(log, k) || (e.key == k && !e.LogExpire?)
  {
    var longer := log + [e];
    assert longer[|log|] == e;
    if Decides(log, k) {
      var i :| 0 <= i < |log| && log[i].key == k && !log[i].LogExpire?;
      assert longer[i] == log[i];
    }
  }

  /** What becomes of a key is independent of the base exactly when the log sets or deletes it. */
  lemma IndependentOfBaseIffDecided(log: seq<LogEntry>, k: Key)
    ensures (forall s, t :: At(ApplyAll(s, log), k) == At(ApplyAll(t, log), k)) <==> Decides(log, k)
  {
    DecidesIsFixed(log, k);
    if Decides(log, k) {
      forall s, t ensures At(ApplyAll(s, log), k) == At(ApplyAll(t, log), k) {
        ReplayActs(s, log, k);
        ReplayActs(t, log, k);
      }
    } else {
      var with := Store(map[k := []], map[]);
      ReplayActs(with, log, k);
      ReplayActs(EMPTY, log, k);
      assert At(ApplyAll(with, log), k) != At(ApplyAll(EMPTY, log), k);
    }
  }

  /** Replaying a file again changes nothing, whatever the base. */
  lemma ReplayIsIdempotent(base: Store, file: Option<seq<LogEntry>>)
    ensures Replay(Replay(base, file), file) == Replay(base, file)
  {
    if file.Some? {
      hide At, ApplyAll, Trim, Act, EffectOf;
      var log, once := file.value, Replay(base, file);
      ReplayOfAFileIsTidy(base, log);
      ReplayOfAFileIsTidy(once, log);
      TrimOfTidy(once);
      forall k ensures At(Replay(once, file), k) == At(once, k) {
        ReplayActs(Trim(base), log, k);
        ReplayActs(once, log, k);
        ActTwice(EffectOf(Project(log, k)), At(Trim(base), k));
      }
      SameEntriesSameStore(Replay(once, file), once);
    }
  }

  lemma ActTwice(f: Effect, x: Option<Entry>)
    ensures Act(f, Act(f, x)) == Act(f, x)
  {
  }

  // ---------- what load() makes of an entry ----------

  /** Loading at boot forgets a deadline that has come by then. */
  function KeyLoad(x: Option<Entry>, boot: Time): Option<Entry> {
    if x.Some? && !Alive(x.value, boot) then Some(x.value.(deadline := None)) else x
  }

  lemma LoadIsPerKey(s: Store, boot: Time, k: Key)
    ensures At(Load(s, boot), k) == KeyLoad(At(s, k), boot)
  {
  }

  /**
   A stale log over a fresh snapshot is harmless: if the base holds just what was visible of
   the replayed and loaded state, replaying the same log over it shows the same, now and later.
   */
  lemma StaleLogOverSnapshot(base: Store, log: seq<LogEntry>, boot: Time, image: Store, now: Time, k: Key, later: Time)
    requires boot <= now <= later
    requires At(image, k) == Visible(Load(ApplyAll(base, log), boot), k, now)
    ensures Visible(Load(ApplyAll(image, log), boot), k, later) == Visible(Load(ApplyAll(base, log), boot), k, later)
  {
    ReplayActs(base, log, k);
    ReplayActs(image, log, k);
    LoadIsPerKey(ApplyAll(base, log), boot, k);
    LoadIsPerKey(ApplyAll(image, log), boot, k);
  }

  /** The same without a restart in between: replay over the live part of a replayed state. */
  lemma StaleLogOverLivePart(base: Store, log: seq<LogEntry>, now: Time, k: Key, later: Time)
    requires now <= later
    ensures var replayed := Replay(base, Some(log));
            Visible(Replay(Image(replayed, now), Some(log)), k, later) == Visible(replayed, k, later)
  {
    var replayed := Replay(base, Some(log));
    ReplayOfAFileIsTidy(base, log);
    ImageIsTheVisiblePart(replayed, now, k);
    TrimOfTidy(Image(replayed, now));
    ReplayActs(Trim(base), log, k);
    ReplayActs(Image(replayed, now), log, k);
  }

  /** A snapshot of a tidy store holds exactly what is visible, with its deadlines. */
  lemma ImageIsTheVisiblePart(s: Store, now: Time, k: Key)
    requires Tidy(s)
    ensures At(Image(s, now), k) == Visible(s, k, now) && Tidy(Image(s, now)) && Tidy(Sweep(s, now))
    ensures At(Sweep(s, now), k) == Visible(s, k, now)
  {
  }

  // ---------- restart ----------

  /** No stored key has a deadline in (since, now]. */
  ghost predicate NoneLapsed(s: Store, since: Time, now: Time) {
    forall k :: !LapsedSince(s, k, since, now)
  }

  /**
   Loading at a later time shows the same of a key as loading earlier exactly when its deadline did
   not lapse in between; a lapsed key comes back, without its deadline.
   */
  lemma ReloadShowsKeyIff(s: Store, boot: Time, now: Time, k: Key)
    requires boot <= now
    ensures Visible(Load(s, now), k, now) == Visible(Load(s, boot), k, now) <==> !LapsedSince(s, k, boot, now)
    ensures LapsedSince(s, k, boot, now) ==>
              Visible(Load(s, now), k, now) == Some(Entry(s.data[k], None)) && Visible(Load(s, boot), k, now) == None
  {
    LoadIsPerKey(s, now, k);
    LoadIsPerKey(s, boot, k);
  }

  lemma ReloadShowsTheSameIff(s: Store, boot: Time, now: Time)
    requires boot <= now
    ensures (forall k :: Visible(Load(s, now), k, now) == Visible(Load(s, boot), k, now)) <==> NoneLapsed(s, boot, now)
  {
    forall k
      ensures Visible(Load(s, now), k, now) == Visible(Load(s, boot), k, now) <==> !LapsedSince(s, k, boot, now)
    {
      ReloadShowsKeyIff(s, boot, now, k);
    }
  }

  /** load() restores what was visible exactly when no stored key has lapsed. */
  lemma LoadShowsTheSameIff(s: Store, now: Time)
    ensures Load(s, now).data == s.data
    ensures forall k :: k in Load(s, now).expires <==> k in s.expires && s.expires[k] > now
    ensures (forall k :: Visible(Load(s, now), k, now) == Visible(s, k, now)) <==>
            forall k :: k in s.data ==> !Lapsed(s, k, now)
  {
    forall k ensures At(Load(s, now), k) == KeyLoad(At(s, k), now) {
      LoadIsPerKey(s, now, k);
    }
    if k :| k in s.data && Lapsed(s, k, now) {
      assert Visible(Load(s, now), k, now) != Visible(s, k, now);
    }
  }

  /** Snapshot then load, at one clock reading, shows the same. */
  lemma SnapshotThenLoad(s: Store, now: Time, k: Key, later: Time)
    requires Tidy(s) && now <= later
    ensures Visible(Load(Image(s, now), now), k, later) == Visible(s, k, later)
  {
    ImageIsTheVisiblePart(s, now, k);
    LoadIsPerKey(Image(s, now), now, k);
  }

  /** docs/rdb.md says a lapsed key is not restored; the code restores every lapsed key, and no other, for good. */
  lemma LapsedKeyReturns(s: Store, k: Key, now: Time)
    ensures Visible(s, k, now) == None && Visible(Load(s, now), k, now).Some? <==> k in s.data && Lapsed(s, k, now)
    ensures k in s.data && Lapsed(s, k, now) ==>
              forall later :: now <= later ==> Visible(Load(s, now), k, later) == Some(Entry(s.data[k], None))
  {
    LoadIsPerKey(s, now, k);
  }
}
