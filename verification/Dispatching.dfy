/**
 The dispatcher of src/server/dispatcher.py: routing first, then arity and arguments, then the
 store, then the log. Every method of the class is proved to be a function of the whole machine.
 */
module Dispatching {
  import opened Wrappers
  import opened HashTables
  import opened Bytes
  import opened Decimal
  import opened Stores
  import opened InMemory
  import opened ClockReadings
  import opened Files
  import opened Persistence
  import opened Routing
  import Resp
  import R = Replies
  import Recovery

  // ---------- commands ----------

  datatype Verb = PING | SET | GET | DEL | EXISTS | EXPIRE | TTL | SAVE

  /** What a client is told when a command is refused. */
  datatype Complaint = WrongArity(verb: Verb) | NotAnInteger | UnknownCommand(name: bytes) | PersistenceOff

  function NormalizedName(cmd: Resp.Command): bytes {
    Upper(Strip(cmd.name, IsSpace))
  }

  function VerbOf(name: bytes): Option<Verb> {
    if name == "PING" then Some(PING)
    else if name == "SET" then Some(SET)
    else if name == "GET" then Some(GET)
    else if name == "DEL" then Some(DEL)
    else if name == "EXISTS" then Some(EXISTS)
    else if name == "EXPIRE" then Some(EXPIRE)
    else if name == "TTL" then Some(TTL)
    else if name == "SAVE" then Some(SAVE)
    else None
  }

  function VerbText(verb: Verb): bytes {
    match verb
    case PING => "ping"
    case SET => "set"
    case GET => "get"
    case DEL => "del"
    case EXISTS => "exists"
    case EXPIRE => "expire"
    case TTL => "ttl"
    case SAVE => "save"
  }

  function ComplaintText(c: Complaint): bytes {
    match c
    case WrongArity(verb) => "wrong number of arguments for '" + VerbText(verb) + "' command"
    case NotAnInteger => "value is not an integer or out of range"
    case UnknownCommand(name) => "unknown command '" + name + "'"
    case PersistenceOff => "persistence is not enabled"
  }

  function Arity(verb: Verb): nat {
    match verb
    case PING => 0
    case SAVE => 0
    case SET => 2
    case EXPIRE => 2
    case _ => 1
  }

  /** The key by which a command is routed. */
  function RoutingKey(cmd: Resp.Command): Option<Key> {
    if cmd.args == [] then None
    else
      var verb := VerbOf(NormalizedName(cmd));
      if verb == Some(PING) || verb == Some(SAVE) then None else Some(cmd.args[0])
  }

  /** What a command asks for, once its arguments have been checked. */
  datatype Request = Ping | Save | Keyed(op: Op)

  function RequestOf(verb: Verb, args: seq<bytes>): Result<Request, Complaint> {
    if |args| != Arity(verb) then Failure(WrongArity(verb))
    else
      match verb
      case PING => Success(Ping)
      case SAVE => Success(Save)
      case SET => Success(Keyed(Set(args[0], args[1])))
      case GET => Success(Keyed(Get(args[0])))
      case DEL => Success(Keyed(Del(args[0])))
      case EXISTS => Success(Keyed(Exists(args[0])))
      case TTL => Success(Keyed(Ttl(args[0])))
      case EXPIRE =>
        var seconds := ReadInt(args[1]);
        if seconds.None? || seconds.value <= 0 then Failure(NotAnInteger)
        else Success(Keyed(Expire(args[0], seconds.value)))
  }

  // ---------- the machine ----------

  /** Memory, the two files, and all states the files have been in so far. */
  datatype Machine = Machine(mem: Store, disk: Disk, trace: seq<Disk>)

  /** The machine after one change of a file. */
  function Written(m: Machine, d: Disk): Machine {
    m.(disk := d, trace := m.trace + [d])
  }

  datatype Config = Config(persist: bool, cluster: Option<Coordinator>)

  /** What ends the connection instead of being answered. */
  datatype Exception = MissingKey | NoNodesToRoute

  function Respond(reply: Reply): R.Response {
    match reply
    case Ok => R.SimpleString("OK")
    case Bulk(value) => if value.None? then R.NullBulkString else R.BulkString(value.value)
    case Integer(n) => R.Integer(n)
  }

  function Refusal(c: Complaint): R.Response {
    R.ErrorReply(ComplaintText(c))
  }

  /** A request that passed all checks: memory first, then the log. */
  function Perform(cfg: Config, m: Machine, request: Request, now: Time): (Machine, Result<R.Response, Exception>) {
    match request
    case Ping => (m, Success(R.SimpleString("PONG")))
    case Save =>
      if !cfg.persist then (m, Success(Refusal(PersistenceOff)))
      else
        var image := Image(m.mem, now);
        (Machine(Sweep(m.mem, now), ResetLog(SaveImage(m.disk, image)), m.trace + SaveTrace(m.disk, image)),
         Success(R.SimpleString("OK")))
    case Keyed(op) =>
      var (t, reply) := LazyStep(m.mem, op, now);
      if reply.Failure? then (m.(mem := t), Failure(MissingKey))
      else
        var record := if cfg.persist then Recovery.Pending(t, op, reply.value, now) else None;
        (if record.Some? then Written(m.(mem := t), AppendTo(m.disk, record.value)) else m.(mem := t),
         Success(Respond(reply.value)))
  }

  /** A known command with its arguments still unchecked. */
  function Handle(cfg: Config, m: Machine, verb: Verb, args: seq<bytes>, now: Time)
    : (Machine, Result<R.Response, Exception>)
  {
    var request := RequestOf(verb, args);
    if request.Failure? then (m, Success(Refusal(request.error))) else Perform(cfg, m, request.value, now)
  }

  /** Where a command must go instead, if anywhere. */
  function Redirection(cfg: Config, cmd: Resp.Command): Result<Option<bytes>, RoutingError> {
    if cfg.cluster.None? || RoutingKey(cmd).None? then Success(None)
    else MovedError(cfg.cluster.value, RoutingKey(cmd).value)
  }

  /** dispatch() */
  function Dispatch(cfg: Config, m: Machine, cmd: Resp.Command, now: Time)
    : (Machine, Result<R.Response, Exception>)
  {
    var moved := Redirection(cfg, cmd);
    if moved.Failure? then (m, Failure(NoNodesToRoute))
    else if moved.value.Some? then (m, Success(R.ErrorReply(moved.value.value)))
    else
      var verb := VerbOf(NormalizedName(cmd));
      if verb.None? then (m, Success(Refusal(UnknownCommand(cmd.name))))
      else Handle(cfg, m, verb.value, cmd.args, now)
  }

  /** A command with bad arguments is refused and changes nothing. */
  lemma BadArgumentsChangeNothing(cfg: Config, m: Machine, verb: Verb, args: seq<bytes>, now: Time)
    requires RequestOf(verb, args).Failure?
    ensures Handle(cfg, m, verb, args, now) == (m, Success(Refusal(RequestOf(verb, args).error)))
  {
  }

  /** _record_write: nothing without persistence. */
  function Recorded(cfg: Config, m: Machine, w: Write, now: Time, later: Time): (Machine, Result<(), KeyError>) {
    if !cfg.persist then (m, Success(()))
    else
      var (s, d, r) := Record(m.mem, m.disk, w, now, later);
      (if d == m.disk then m.(mem := s) else Written(m.(mem := s), d), r)
  }

  /** GET, EXISTS and TTL only evict; their answers come from the store. */
  lemma ReadsAreNotRecorded(cfg: Config, m: Machine, args: seq<bytes>, now: Time)
    requires |args| == 1
    ensures var (s, value) := Stores.GetValue(m.mem, args[0], now);
            Handle(cfg, m, GET, args, now) ==
            (m.(mem := s),
             if value.Failure? then Failure(MissingKey)
             else Success(if value.value.None? then R.NullBulkString else R.BulkString(value.value.value)))
    ensures var (s, present) := Stores.HasKey(m.mem, args[0], now);
            Handle(cfg, m, EXISTS, args, now) ==
            (m.(mem := s), if present.Failure? then Failure(MissingKey) else Success(R.Integer(present.value)))
    ensures var (s, left) := Stores.TimeToLive(m.mem, args[0], now, now);
            Handle(cfg, m, TTL, args, now) ==
            (m.(mem := s), if left.Failure? then Failure(MissingKey) else Success(R.Integer(left.value)))
  {
    hide Refusal, Stores.HasKey, Stores.TimeToLive;
  }

  /** SET stores, then records. */
  lemma SetIsRecorded(cfg: Config, m: Machine, args: seq<bytes>, now: Time)
    requires |args| == 2
    ensures var t := m.(mem := Stores.SetPair(m.mem, args[0], args[1], None, now));
            Handle(cfg, m, SET, args, now)
            == (Recorded(cfg, t, WriteSet(args[0], args[1]), now, now).0, Success(R.SimpleString("OK")))
  {
    hide Refusal, Stores.SetPair, AppendTo;
    AppendingChanges(m.disk);
  }

  /** DEL deletes, then records exactly when it deleted something. */
  lemma DelIsRecorded(cfg: Config, m: Machine, args: seq<bytes>, now: Time)
    requires |args| == 1
    ensures var (s, deleted) := Stores.Remove(m.mem, args[0], now);
            var t := m.(mem := s);
            Handle(cfg, m, DEL, args, now) ==
            if deleted.Failure? then (t, Failure(MissingKey))
            else
              (if deleted.value != 0 then Recorded(cfg, t, WriteDel(args[0]), now, now).0 else t,
               Success(R.Integer(deleted.value)))
  {
    hide Refusal, AppendTo;
    AppendingChanges(m.disk);
  }

  /**
   EXPIRE sets the deadline, then records exactly when it did. The clock is read four times: for the
   eviction, for the deadline, and for both again when the deadline is read back.
   */
  function SlowExpire(cfg: Config, m: Machine, args: seq<bytes>, clock: nat -> Time)
    : (Machine, Result<R.Response, Exception>)
  {
    if |args| != 2 then (m, Success(Refusal(WrongArity(EXPIRE))))
    else
      var seconds := ReadInt(args[1]);
      if seconds.None? || seconds.value <= 0 then (m, Success(Refusal(NotAnInteger)))
      else
        var (s, updated) := ExpireIn(m.mem, args[0], seconds.value, clock(0), clock(1));
        var t := m.(mem := s);
        if updated.Failure? then (t, Failure(MissingKey))
        else if updated.value == 0 then (t, Success(R.Integer(0)))
        else
          var (u, recorded) := Recorded(cfg, t, WriteExpire(args[0]), clock(2), clock(3));
          (u, if recorded.Failure? then Failure(MissingKey) else Success(R.Integer(updated.value)))
  }

  /** At one clock reading nothing lapses in between, and the deadline is recorded as it was set. */
  lemma ExpireIsRecorded(cfg: Config, m: Machine, args: seq<bytes>, clock: nat -> Time, now: Time)
    requires forall i :: clock(i) == now
    ensures SlowExpire(cfg, m, args, clock) == Handle(cfg, m, EXPIRE, args, now)
  {
    hide ReadInt, Refusal, AppendTo;
    AppendingChanges(m.disk);
  }

  /** TTL, with a reading for the eviction and one for the time left. */
  function SlowTtl(m: Machine, args: seq<bytes>, clock: nat -> Time): (Machine, Result<R.Response, Exception>) {
    if |args| != 1 then (m, Success(Refusal(WrongArity(TTL))))
    else
      var (s, left) := Stores.TimeToLive(m.mem, args[0], clock(0), clock(1));
      (m.(mem := s), if left.Failure? then Failure(MissingKey) else Success(R.Integer(left.value)))
  }

  /** SAVE, with a reading for each key in the order of the visit and one for the list of deadlines. */
  function SlowSave(cfg: Config, m: Machine, args: seq<bytes>, keys: seq<Key>, clock: nat -> Time)
    : (Machine, Result<R.Response, Exception>)
  {
    if |args| != 0 then (m, Success(Refusal(WrongArity(SAVE))))
    else if !cfg.persist then (m, Success(Refusal(PersistenceOff)))
    else
      var image := SlowImage(m.mem, keys, clock);
      (Machine(SweptOver(m.mem, keys, clock, 0), ResetLog(SaveImage(m.disk, image)),
               m.trace + SaveTrace(m.disk, image)),
       Success(R.SimpleString("OK")))
  }

  /** A known command with all its clock readings. */
  function SlowHandle(cfg: Config, m: Machine, verb: Verb, args: seq<bytes>, keys: seq<Key>, clock: nat -> Time)
    : (Machine, Result<R.Response, Exception>)
  {
    match verb
    case EXPIRE => SlowExpire(cfg, m, args, clock)
    case TTL => SlowTtl(m, args, clock)
    case SAVE => SlowSave(cfg, m, args, keys, clock)
    case _ => Handle(cfg, m, verb, args, clock(0))
  }

  /** dispatch() with all its clock readings; keys is the order in which SAVE visits them. */
  function SlowDispatch(cfg: Config, m: Machine, cmd: Resp.Command, keys: seq<Key>, clock: nat -> Time)
    : (Machine, Result<R.Response, Exception>)
  {
    var moved := Redirection(cfg, cmd);
    var verb := VerbOf(NormalizedName(cmd));
    if moved.Failure? || moved.value.Some? || verb.None? then Dispatch(cfg, m, cmd, clock(0))
    else SlowHandle(cfg, m, verb.value, cmd.args, keys, clock)
  }

  lemma TtlAtOneReading(cfg: Config, m: Machine, args: seq<bytes>, clock: nat -> Time, now: Time)
    requires forall i :: clock(i) == now
    ensures SlowTtl(m, args, clock) == Handle(cfg, m, TTL, args, now)
  {
    hide Refusal, Stores.TimeToLive;
    if |args| == 1 {
      ReadsAreNotRecorded(cfg, m, args, now);
    }
  }

  lemma SaveAtOneReading(cfg: Config, m: Machine, args: seq<bytes>, keys: seq<Key>, clock: nat -> Time, now: Time)
    requires Visits(keys, m.mem.data) && forall i :: clock(i) == now
    ensures SlowSave(cfg, m, args, keys, clock) == Handle(cfg, m, SAVE, args, now)
  {
    hide Refusal, Sweep, Image, SweptOver, SlowImage;
    SweepAtOneReading(m.mem, keys, clock, 0, now);
    ImageAtOneReading(m.mem, keys, clock, now);
  }

  /** If the clock stands still inside a command, one reading stands for all. */
  lemma DispatchAtOneReading(cfg: Config, m: Machine, cmd: Resp.Command, keys: seq<Key>, clock: nat -> Time, now: Time)
    requires Visits(keys, m.mem.data) && forall i :: clock(i) == now
    ensures SlowDispatch(cfg, m, cmd, keys, clock) == Dispatch(cfg, m, cmd, now)
  {
    hide Handle, SlowExpire, SlowTtl, SlowSave, Visits, Redirection, VerbOf, NormalizedName, Refusal, R.ErrorReply;
    ExpireIsRecorded(cfg, m, cmd.args, clock, now);
    TtlAtOneReading(cfg, m, cmd.args, clock, now);
    SaveAtOneReading(cfg, m, cmd.args, keys, clock, now);
  }

  // ---------- names ----------

  /** White space around a name is ignored. */
  lemma PaddingIsIgnored(front: bytes, cmd: Resp.Command, back: bytes)
    requires (forall c :: c in front ==> IsSpace(c)) && (forall c :: c in back ==> IsSpace(c))
    ensures NormalizedName(Resp.Command(front + cmd.name + back, cmd.args)) == NormalizedName(cmd)
  {
    assert forall i :: 0 <= i < |front| ==> front[i] in front;
    assert forall i :: 0 <= i < |back| ==> back[i] in back;
    StripIgnoresPadding(front, cmd.name, back, IsSpace);
  }

  /** Each command answers to every mix of upper and lower case in its name. */
  lemma NamesInAnyCase(verb: Verb, name: bytes, args: seq<bytes>)
    requires Upper(name) == Upper(VerbText(verb))
    ensures VerbOf(NormalizedName(Resp.Command(name, args))) == Some(verb)
  {
    UpperVerb(verb);
    hide VerbText, VerbOf;
    var last := |name| - 1;
    assert Upper(name)[0] == UpperByte(name[0]) && Upper(name)[last] == UpperByte(name[last]);
    NothingToStrip(name, IsSpace);
  }

  lemma UpperVerb(verb: Verb)
    ensures var u := Upper(VerbText(verb));
            VerbOf(u) == Some(verb) && u != [] && !IsSpace(u[0]) && !IsSpace(u[|u| - 1])
  {
    var u := Upper(VerbText(verb));
    match verb {
      case PING => assert u == "PING";
      case SET => assert u == "SET";
      case GET => assert u == "GET";
      case DEL => assert u == "DEL";
      case EXISTS => assert u == "EXISTS";
      case EXPIRE => assert u == "EXPIRE";
      case TTL => assert u == "TTL";
      case SAVE => assert u == "SAVE";
    }
  }

  /** White space of ASCII, character by character. */
  predicate Blank(s: bytes) {
    forall i :: 0 <= i < |s| ==>
      s[i] in [' ', '\t', '\n', 11 as char, 12 as char, '\r', 28 as char, 29 as char, 30 as char, 31 as char]
  }

  /** A name spelled in any mix of these upper and lower case letters, with any white space around it. */
  ghost predicate IsCalled(name: bytes, upper: bytes, lower: bytes) {
    exists front, body, back ::
      name == front + body + back && Blank(front) && Blank(back) && InEitherCase(body, upper, lower)
  }

  predicate InEitherCase(body: bytes, upper: bytes, lower: bytes) {
    |body| == |upper| == |lower| && forall i :: 0 <= i < |body| ==> body[i] == upper[i] || body[i] == lower[i]
  }

  /** Upper and lower case of the same letters. */
  predicate Letters(upper: bytes, lower: bytes) {
    upper != [] && |upper| == |lower| &&
    forall i :: 0 <= i < |upper| ==> 'A' <= upper[i] <= 'Z' && lower[i] as int == upper[i] as int + 32
  }

  lemma BlankIsSpace(s: bytes)
    ensures Blank(s) <==> AllSpace(s, IsSpace)
  {
    forall c: byte
      ensures IsSpace(c) <==>
              c in [' ', '\t', '\n', 11 as char, 12 as char, '\r', 28 as char, 29 as char, 30 as char, 31 as char]
    {
    }
  }

  lemma NormalizedIff(cmd: Resp.Command, upper: bytes, lower: bytes)
    requires Letters(upper, lower)
    ensures NormalizedName(cmd) == upper <==> IsCalled(cmd.name, upper, lower)
  {
    hide Strip, Blank;
    if NormalizedName(cmd) == upper {
      var front, back := StripSplits(cmd.name, IsSpace);
      BlankIsSpace(front);
      BlankIsSpace(back);
      var body := Strip(cmd.name, IsSpace);
      assert forall i :: 0 <= i < |body| ==> UpperByte(body[i]) == Upper(body)[i];
      assert InEitherCase(body, upper, lower);
    }
    if IsCalled(cmd.name, upper, lower) {
      var front, body, back :|
        cmd.name == front + body + back && Blank(front) && Blank(back) && InEitherCase(body, upper, lower);
      BlankIsSpace(front);
      BlankIsSpace(back);
      StripIgnoresPadding(front, body, back, IsSpace);
      NothingToStrip(body, IsSpace);
      assert Upper(body) == upper;
    }
  }

  /** The eight names select the eight commands, and nothing else selects any. */
  lemma CommandsByName(cmd: Resp.Command)
    ensures var verb := VerbOf(NormalizedName(cmd));
            && (verb == Some(PING) <==> IsCalled(cmd.name, "PING", "ping"))
            && (verb == Some(SET) <==> IsCalled(cmd.name, "SET", "set"))
            && (verb == Some(GET) <==> IsCalled(cmd.name, "GET", "get"))
            && (verb == Some(DEL) <==> IsCalled(cmd.name, "DEL", "del"))
            && (verb == Some(EXISTS) <==> IsCalled(cmd.name, "EXISTS", "exists"))
            && (verb == Some(EXPIRE) <==> IsCalled(cmd.name, "EXPIRE", "expire"))
            && (verb == Some(TTL) <==> IsCalled(cmd.name, "TTL", "ttl"))
            && (verb == Some(SAVE) <==> IsCalled(cmd.name, "SAVE", "save"))
  {
    hide NormalizedName, IsCalled;
    NormalizedIff(cmd, "PING", "ping");
    NormalizedIff(cmd, "SET", "set");
    NormalizedIff(cmd, "GET", "get");
    NormalizedIff(cmd, "DEL", "del");
    NormalizedIff(cmd, "EXISTS", "exists");
    NormalizedIff(cmd, "EXPIRE", "expire");
    NormalizedIff(cmd, "TTL", "ttl");
    NormalizedIff(cmd, "SAVE", "save");
  }

  /** A command is routed by its first argument, but PING and SAVE are not routed. */
  lemma RoutedByFirstArgument(cmd: Resp.Command)
    ensures RoutingKey(cmd) ==
            if cmd.args == [] || IsCalled(cmd.name, "PING", "ping") || IsCalled(cmd.name, "SAVE", "save") then None
            else Some(cmd.args[0])
  {
    CommandsByName(cmd);
    hide VerbOf, NormalizedName, IsCalled;
  }

  // ---------- the object ----------

  class Dispatcher {
    const storage: InMemoryStore
    const persistence: PersistenceManager?
    const cluster: Option<Coordinator>

    ghost function Footprint(): set<object>
      reads storage.data
    {
      storage.Footprint() + if persistence == null then {} else {persistence.volume}
    }

    ghost predicate Valid()
      reads Footprint()
    {
      storage.Valid() && (persistence != null ==> persistence.storage == storage && persistence.Valid())
    }

    ghost function Now(): Machine
      reads Footprint(), storage.data, storage.expiration
    {
      if persistence == null then Machine(storage.State(), Disk(None, None), [])
      else Machine(storage.State(), persistence.volume.disk, persistence.volume.History)
    }

    ghost function Settings(): Config {
      Config(persistence != null, cluster)
    }

    constructor (storage: InMemoryStore, persistence: PersistenceManager?, cluster: Option<Coordinator>)
      requires storage.Valid() && (persistence != null ==> persistence.storage == storage && persistence.Valid())
      ensures Valid() && this.storage == storage && this.persistence == persistence && this.cluster == cluster
    {
      this.storage := storage;
      this.persistence := persistence;
      this.cluster := cluster;
    }

    method RecordWrite(w: Write, now: Time, later: Time) returns (r: Result<(), KeyError>)
      requires Valid()
      modifies Footprint()
      ensures Valid() && fresh(Footprint() - old(Footprint()))
      ensures (Now(), r) == Recorded(Settings(), old(Now()), w, now, later)
    {
      hide Record, HashTable.Valid;
      ghost var m := Now();
      r := Success(());
      if persistence != null {
        r := persistence.RecordWrite(w, now, later);
        assert (Now().mem, Now().disk, r) == Record(m.mem, m.disk, w, now, later);
        assert Now().trace == m.trace + if Now().disk == m.disk then [] else [Now().disk];
      }
      assert m.trace + [] == m.trace;
    }

    method DispatchPing(args: seq<bytes>, now: Time) returns (r: Result<R.Response, Exception>)
      ensures (Now(), r) == Handle(Settings(), Now(), PING, args, now)
    {
      hide Refusal;
      if |args| != 0 {
        return Success(Refusal(WrongArity(PING)));
      }
      r := Success(R.SimpleString("PONG"));
    }

    method DispatchSet(args: seq<bytes>, now: Time) returns (r: Result<R.Response, Exception>)
      requires Valid()
      modifies Footprint()
      ensures Valid() && fresh(Footprint() - old(Footprint()))
      ensures (Now(), r) == Handle(Settings(), old(Now()), SET, args, now)
    {
      hide Refusal, Handle, Recorded, Stores.SetPair, HashTable.Valid;
      if |args| != 2 {
        BadArgumentsChangeNothing(Settings(), Now(), SET, args, now);
        return Success(Refusal(WrongArity(SET)));
      }
      ghost var m := Now();
      SetIsRecorded(Settings(), m, args, now);
      storage.SetPair(args[0], args[1], None, now);
      assert Now() == m.(mem := Stores.SetPair(m.mem, args[0], args[1], None, now));
      var _ := RecordWrite(WriteSet(args[0], args[1]), now, now);
      r := Success(R.SimpleString("OK"));
    }

    method DispatchGet(args: seq<bytes>, now: Time) returns (r: Result<R.Response, Exception>)
      requires Valid()
      modifies Footprint()
      ensures Valid() && fresh(Footprint() - old(Footprint()))
      ensures (Now(), r) == Handle(Settings(), old(Now()), GET, args, now)
    {
      hide Refusal, Handle, Stores.GetValue, HashTable.Valid;
      if |args| != 1 {
        BadArgumentsChangeNothing(Settings(), Now(), GET, args, now);
        return Success(Refusal(WrongArity(GET)));
      }
      ReadsAreNotRecorded(Settings(), Now(), args, now);
      var value := storage.GetValue(args[0], now);
      if value.Failure? {
        return Failure(MissingKey);
      }
      r := Success(if value.value.None? then R.NullBulkString else R.BulkString(value.value.value));
    }

    method DispatchDel(args: seq<bytes>, now: Time) returns (r: Result<R.Response, Exception>)
      requires Valid()
      modifies Footprint()
      ensures Valid() && fresh(Footprint() - old(Footprint()))
      ensures (Now(), r) == Handle(Settings(), old(Now()), DEL, args, now)
    {
      hide Refusal, Handle, Recorded, Stores.Remove, HashTable.Valid;
      if |args| != 1 {
        BadArgumentsChangeNothing(Settings(), Now(), DEL, args, now);
        return Success(Refusal(WrongArity(DEL)));
      }
      DelIsRecorded(Settings(), Now(), args, now);
      var deleted := storage.Remove(args[0], now);
      if deleted.Failure? {
        return Failure(MissingKey);
      }
      if deleted.value != 0 {
        var _ := RecordWrite(WriteDel(args[0]), now, now);
      }
      r := Success(R.Integer(deleted.value));
    }

    method DispatchExists(args: seq<bytes>, now: Time) returns (r: Result<R.Response, Exception>)
      requires Valid()
      modifies Footprint()
      ensures Valid() && fresh(Footprint() - old(Footprint()))
      ensures (Now(), r) == Handle(Settings(), old(Now()), EXISTS, args, now)
    {
      hide Refusal, Handle, Stores.HasKey, HashTable.Valid;
      if |args| != 1 {
        BadArgumentsChangeNothing(Settings(), Now(), EXISTS, args, now);
        return Success(Refusal(WrongArity(EXISTS)));
      }
      ReadsAreNotRecorded(Settings(), Now(), args, now);
      var present := storage.HasKey(args[0], now);
      if present.Failure? {
        return Failure(MissingKey);
      }
      r := Success(R.Integer(present.value));
    }

    method DispatchExpire(args: seq<bytes>, clock: nat -> Time) returns (r: Result<R.Response, Exception>)
      requires Valid()
      modifies Footprint()
      ensures Valid() && fresh(Footprint() - old(Footprint()))
      ensures (Now(), r) == SlowExpire(Settings(), old(Now()), args, clock)
    {
      hide Refusal, ReadInt, Recorded, ExpireIn, HashTable.Valid;
      if |args| != 2 {
        return Success(Refusal(WrongArity(EXPIRE)));
      }
      var seconds := ReadInt(args[1]);
      if seconds.None? || seconds.value <= 0 {
        return Success(Refusal(NotAnInteger));
      }
      var updated := storage.ExpireIn(args[0], seconds.value, clock(0), clock(1));
      if updated.Failure? {
        return Failure(MissingKey);
      }
      if updated.value != 0 {
        var recorded := RecordWrite(WriteExpire(args[0]), clock(2), clock(3));
        if recorded.Failure? {
          return Failure(MissingKey);
        }
      }
      r := Success(R.Integer(updated.value));
    }

    method DispatchTtl(args: seq<bytes>, clock: nat -> Time) returns (r: Result<R.Response, Exception>)
      requires Valid()
      modifies Footprint()
      ensures Valid() && fresh(Footprint() - old(Footprint()))
      ensures (Now(), r) == SlowTtl(old(Now()), args, clock)
    {
      hide Refusal, Stores.TimeToLive, HashTable.Valid;
      if |args| != 1 {
        return Success(Refusal(WrongArity(TTL)));
      }
      var left := storage.TimeToLive(args[0], clock(0), clock(1));
      if left.Failure? {
        return Failure(MissingKey);
      }
      r := Success(R.Integer(left.value));
    }

    method DispatchSave(args: seq<bytes>, clock: nat -> Time)
      returns (r: Result<R.Response, Exception>, ghost keys: seq<Key>)
      requires Valid()
      modifies Footprint()
      ensures Valid() && fresh(Footprint() - old(Footprint()))
      ensures Visits(keys, old(storage.State()).data)
      ensures (Now(), r) == SlowSave(Settings(), old(Now()), args, keys, clock)
    {
      hide Refusal, SweptOver, SlowImage, Visits, HashTable.Valid;
      keys := SomeVisit(storage.State().data);
      if |args| != 0 {
        return Success(Refusal(WrongArity(SAVE))), keys;
      }
      if persistence == null {
        return Success(Refusal(PersistenceOff)), keys;
      }
      keys := persistence.Snapshot(clock);
      r := Success(R.SimpleString("OK"));
    }

    /** The clock may move inside a command; keys is the order in which SAVE visits them. */
    method RunCommand(cmd: Resp.Command, clock: nat -> Time)
      returns (r: Result<R.Response, Exception>, ghost keys: seq<Key>)
      requires Valid()
      modifies Footprint()
      ensures Valid() && fresh(Footprint() - old(Footprint()))
      ensures Visits(keys, old(storage.State()).data)
      ensures (Now(), r) == SlowDispatch(Settings(), old(Now()), cmd, keys, clock)
    {
      hide Handle, SlowExpire, SlowTtl, SlowSave, Refusal, R.ErrorReply;
      hide VerbOf, NormalizedName, RoutingKey, MovedError, Visits, HashTable.Valid;
      keys := SomeVisit(storage.State().data);
      if cluster.Some? && RoutingKey(cmd).Some? {
        var moved := MovedError(cluster.value, RoutingKey(cmd).value);
        if moved.Failure? {
          return Failure(NoNodesToRoute), keys;
        }
        if moved.value.Some? {
          return Success(R.ErrorReply(moved.value.value)), keys;
        }
      }
      var verb := VerbOf(NormalizedName(cmd));
      if verb.None? {
        return Success(Refusal(UnknownCommand(cmd.name))), keys;
      }
      match verb.value {
        case PING => r := DispatchPing(cmd.args, clock(0));
        case SET => r := DispatchSet(cmd.args, clock(0));
        case GET => r := DispatchGet(cmd.args, clock(0));
        case DEL => r := DispatchDel(cmd.args, clock(0));
        case EXISTS => r := DispatchExists(cmd.args, clock(0));
        case EXPIRE => r := DispatchExpire(cmd.args, clock);
        case TTL => r := DispatchTtl(cmd.args, clock);
        case SAVE => r, keys := DispatchSave(cmd.args, clock);
      }
    }
  }
}
