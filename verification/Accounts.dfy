/**
 An account of every key in every run, with no condition at all: what is shown of a key follows from
 the acknowledged writes to it and the times of saves and restarts alone, whatever lapsed or came back.
 */
module Accounts {
  import opened Wrappers
  import opened Stores
  import opened Files
  import opened AppendLog
  import opened ReplayLaws
  import opened Persistence
  import opened Recovery

  /** What an observer of a run needs to know of it. */
  datatype Event =
    | Acknowledged(entry: LogEntry)
    | Saved(at: Time)       // a new snapshot, over a log that may be stale from now on
    | Discarded             // that log is gone
    | Restarted(at: Time)

  function EventsOf(s: Sys, step: Step): seq<Event>
    requires Enabled(s, step)
  {
    match step
    case Ack => [Acknowledged(s.phase.entry)]
    case Save => [Event.Saved(s.now)]
    case Reset => [Discarded]
    case Restart => [Restarted(s.now)]
    case _ => []
  }

  ghost function History(s: Sys, steps: seq<Step>): seq<Event>
    requires Possible(s, steps)
    decreases |steps|
  {
    if steps == [] then [] else EventsOf(s, steps[0]) + History(Next(s, steps[0]), steps[1..])
  }

  /** One key: its entry as of the last save, the records since the last discarded log, the last restart. */
  datatype Account = Account(base: Option<Entry>, records: seq<LogEntry>, boot: Time)

  /** What the files hold of the key. */
  function Held(a: Account): Option<Entry> {
    KeyReplay(a.base, a.records)
  }

  /** What is shown of it: a deadline that had come at the last restart is forgotten, one that has come since counts. */
  function Shown(a: Account, now: Time): Option<Entry> {
    Living(KeyLoad(Held(a), a.boot), now)
  }

  /** A save keeps what is shown, a restart forgets deadlines, a record is kept if it is about the key. */
  function Post(a: Account, e: Event, k: Key): Account {
    match e
    case Acknowledged(entry) => if entry.key == k then a.(records := a.records + [entry]) else a
    case Saved(at) => a.(base := Shown(a, at))
    case Discarded => a.(records := [])
    case Restarted(at) => a.(boot := at)
  }

  function PostAll(a: Account, events: seq<Event>, k: Key): Account
    decreases |events|
  {
    if events == [] then a else PostAll(Post(a, events[0], k), events[1..], k)
  }

  /** The account is what the files say about the key. */
  ghost predicate Books(a: Account, s: Sys, k: Key) {
    && a.base == At(LoadRdb(s.disk), k)
    && a.records == (if s.disk.aof.None? then [] else Project(s.disk.aof.value, k))
    && a.boot == s.boot
  }

  lemma BooksShow(a: Account, s: Sys, k: Key)
    requires Inv(s) && Books(a, s, k)
    ensures Held(a) == At(Recover(s.disk), k)
    ensures Shown(a, s.now) == Visible(Load(Recover(s.disk), s.boot), k, s.now)
    ensures s.phase.Ready? || s.phase.Saved? ==> Shown(a, s.now) == Visible(s.mem, k, s.now)
    ensures s.phase.Logging? ==>
              Shown(Post(a, Acknowledged(s.phase.entry), k), s.now) == Visible(s.mem, k, s.now)
  {
    LoadIsPerKey(Recover(s.disk), s.boot, k);
    TrimChangesNoKey(LoadRdb(s.disk));
    if s.disk.aof.Some? {
      ReplayIsPerKey(Trim(LoadRdb(s.disk)), s.disk.aof.value, k);
    }
    assert !s.phase.Down? ==> Visible(Load(Durable(s), s.boot), k, s.now) == Visible(s.mem, k, s.now);
    if s.phase.Logging? {
      ApplyIsPerKey(Recover(s.disk), s.phase.entry, k);
      LoadIsPerKey(Durable(s), s.boot, k);
      KeyReplaySnoc(a.base, a.records, s.phase.entry);
    }
  }

  lemma StepKeepsBooks(a: Account, s: Sys, step: Step, k: Key)
    requires Inv(s) && Books(a, s, k) && Enabled(s, step)
    ensures Books(PostAll(a, EventsOf(s, step), k), Next(s, step), k)
  {
    hide Inv, KeyReplay, ApplyAll, Recover, Project, LazyStep, Load, Image, Sweep, At;
    var events := EventsOf(s, step);
    if events != [] {
      assert events[1..] == [];
    }
    match step {
      case Ack =>
        ProjectSnoc(if s.disk.aof.None? then [] else s.disk.aof.value, s.phase.entry, k);
        NothingProjected(k);
      case Reset => NothingProjected(k);
      case Save =>
        BooksShow(a, s, k);
        InvIsTidy(s);
        ImageIsTheVisiblePart(s.mem, s.now, k);
      case _ =>
    }
  }

  lemma InvIsTidy(s: Sys)
    requires Inv(s)
    ensures Tidy(s.mem)
  {
  }

  lemma NothingProjected(k: Key)
    ensures Project([], k) == []
  {
  }

  lemma ProjectSnoc(log: seq<LogEntry>, e: LogEntry, k: Key)
    ensures Project(log + [e], k) == if e.key == k then Project(log, k) + [e] else Project(log, k)
  {
    assert (log + [e])[..|log|] == log;
    assert Project(log, k) + [] == Project(log, k);
  }

  lemma {:induction false} PostAllConcat(a: Account, events: seq<Event>, more: seq<Event>, k: Key)
    ensures PostAll(a, events + more, k) == PostAll(PostAll(a, events, k), more, k)
    decreases |events|
  {
    if events == [] {
      assert events + more == more;
    } else {
      assert (events + more)[0] == events[0] && (events + more)[1..] == events[1..] + more;
      PostAllConcat(Post(a, events[0], k), events[1..], more, k);
    }
  }

  lemma {:induction false} RunKeepsBooks(a: Account, s: Sys, steps: seq<Step>, k: Key)
    requires Inv(s) && Books(a, s, k) && Possible(s, steps)
    ensures Inv(After(s, steps)) && Books(PostAll(a, History(s, steps), k), After(s, steps), k)
    decreases |steps|
  {
    hide Inv, Books, Enabled, Next, EventsOf, Post;
    if steps != [] {
      var b := PostAll(a, EventsOf(s, steps[0]), k);
      StepKeepsInv(s, steps[0]);
      StepKeepsBooks(a, s, steps[0], k);
      PostAllConcat(a, EventsOf(s, steps[0]), History(Next(s, steps[0]), steps[1..]), k);
      RunKeepsBooks(b, Next(s, steps[0]), steps[1..], k);
    }
  }

  /**
   Every key of every run, whatever its restarts found: the files hold, and memory shows, what the account
   says, with the write in flight posted if there is one.
   */
  lemma AccountsAreRight(start: Time, steps: seq<Step>, k: Key)
    requires Possible(Blank(start), steps)
    ensures var s := After(Blank(start), steps);
            var a := PostAll(Account(None, [], start), History(Blank(start), steps), k);
            At(Recover(s.disk), k) == Held(a) &&
            match s.phase
            case Down => true
            case Logging(entry) => Visible(s.mem, k, s.now) == Shown(Post(a, Acknowledged(entry), k), s.now)
            case _ => Visible(s.mem, k, s.now) == Shown(a, s.now)
  {
    var blank, a := Blank(start), Account(None, [], start);
    assert Inv(blank) && Books(a, blank, k);
    RunKeepsBooks(a, blank, steps, k);
    BooksShow(PostAll(a, History(blank, steps), k), After(blank, steps), k);
  }
}
