/**
 The command reference, in bytes: what each command does to a map that forgets lapsed keys, and the very
 bytes a client receives. The server is proved to keep to it, reply by reply and over whole sessions.
 */
module Manual {
  import opened Wrappers
  import opened Bytes
  import opened Decimal
  import opened Utf8
  import opened Stores
  import opened EagerMap
  import opened Dispatching
  import opened Faults
  import opened Server
  import opened Pipeline
  import Resp
  import R = Replies
  import Recovery

  // ---------- the reference ----------

  function ErrorLine(text: bytes): bytes {
    "-ERR " + text + "\r\n"
  }

  function Usage(name: bytes): bytes {
    ErrorLine("wrong number of arguments for '" + name + "' command")
  }

  /** The keys that have not lapsed. */
  function Live(model: Model, now: Time): Model {
    map k | k in model && (model[k].deadline.None? || now < model[k].deadline.value) :: model[k]
  }

  ghost function PingPage(m: Model, args: seq<bytes>): (Model, bytes) {
    (m, if |args| == 0 then "+PONG\r\n" else Usage("ping"))
  }

  ghost function SetPage(m: Model, args: seq<bytes>): (Model, bytes) {
    if |args| == 2 then (m[args[0] := Entry(args[1], None)], "+OK\r\n") else (m, Usage("set"))
  }

  ghost function GetPage(m: Model, args: seq<bytes>): (Model, bytes) {
    (m, if |args| != 1 then Usage("get")
        else if args[0] in m then
          "$" + Str(|m[args[0]].value|) + "\r\n" + m[args[0]].value + "\r\n"
        else "$-1\r\n")
  }

  ghost function DelPage(m: Model, args: seq<bytes>): (Model, bytes) {
    if |args| != 1 then (m, Usage("del"))
    else if args[0] in m then (m - {args[0]}, ":1\r\n")
    else (m, ":0\r\n")
  }

  ghost function ExistsPage(m: Model, args: seq<bytes>): (Model, bytes) {
    (m, if |args| != 1 then Usage("exists") else if args[0] in m then ":1\r\n" else ":0\r\n")
  }

  ghost function ExpirePage(m: Model, args: seq<bytes>, now: Time): (Model, bytes) {
    if |args| != 2 then (m, Usage("expire"))
    else if !(exists n :: n > 0 && SpellsInteger(args[1], n)) then
      (m, ErrorLine("value is not an integer or out of range"))
    else
      var n :| n > 0 && SpellsInteger(args[1], n);
      if args[0] in m then (m[args[0] := Entry(m[args[0]].value, Some(now + n as real))], ":1\r\n")
      else (m, ":0\r\n")
  }

  ghost function TtlPage(m: Model, args: seq<bytes>, now: Time): (Model, bytes) {
    (m, if |args| != 1 then Usage("ttl")
        else if args[0] !in m then ":-2\r\n"
        else if m[args[0]].deadline.None? then ":-1\r\n"
        else ":" + Str((m[args[0]].deadline.value - now).Floor) + "\r\n")
  }

  ghost function SavePage(persist: bool, m: Model, args: seq<bytes>): (Model, bytes) {
    (m, if |args| != 0 then Usage("save") else if persist then "+OK\r\n" else ErrorLine("persistence is not enabled"))
  }

  /** The map after a command, and the bytes of its reply. */
  ghost function Page(persist: bool, model: Model, cmd: Resp.Command, now: Time): (Model, bytes) {
    var m, args := Live(model, now), cmd.args;
    if IsCalled(cmd.name, "PING", "ping") then PingPage(m, args)
    else if IsCalled(cmd.name, "SET", "set") then SetPage(m, args)
    else if IsCalled(cmd.name, "GET", "get") then GetPage(m, args)
    else if IsCalled(cmd.name, "DEL", "del") then DelPage(m, args)
    else if IsCalled(cmd.name, "EXISTS", "exists") then ExistsPage(m, args)
    else if IsCalled(cmd.name, "EXPIRE", "expire") then ExpirePage(m, args, now)
    else if IsCalled(cmd.name, "TTL", "ttl") then TtlPage(m, args, now)
    else if IsCalled(cmd.name, "SAVE", "save") then SavePage(persist, m, args)
    else (m, ErrorLine("unknown command '" + cmd.name + "'"))
  }

  ghost predicate Known(cmd: Resp.Command) {
    || IsCalled(cmd.name, "PING", "ping") || IsCalled(cmd.name, "SET", "set")
    || IsCalled(cmd.name, "GET", "get") || IsCalled(cmd.name, "DEL", "del")
    || IsCalled(cmd.name, "EXISTS", "exists") || IsCalled(cmd.name, "EXPIRE", "expire")
    || IsCalled(cmd.name, "TTL", "ttl") || IsCalled(cmd.name, "SAVE", "save")
  }

  /** One line of text can carry the name. */
  predicate OneLine(name: bytes) {
    '\r' !in name && '\n' !in name
  }

  // ---------- replies as bytes ----------

  lemma ErrorOnTheWire(message: bytes)
    requires message != [] && message[0] != 'E' && message[0] != 'M'
    ensures R.Encode(R.ErrorReply(message))
            == if OneLine(message) then Success(ErrorLine(message)) else Failure(R.ContainsCrOrLf)
  {
    ErrorReplyFits(message);
    assert "ERR " + message != message;
    assert "-" + ("ERR " + message) + "\r\n" == ErrorLine(message);
  }

  lemma UsageOnTheWire(verb: Verb)
    ensures R.Encode(Refusal(WrongArity(verb))) == Success(Usage(VerbText(verb)))
  {
    WrongArityFits(verb);
    hide VerbText, R.ErrorReply, R.Encode, ErrorLine;
    ErrorOnTheWire(ComplaintText(WrongArity(verb)));
  }

  lemma PlainOnTheWire(c: Complaint)
    requires c.NotAnInteger? || c.PersistenceOff?
    ensures R.Encode(Refusal(c)) ==
            Success(ErrorLine(if c.NotAnInteger? then "value is not an integer or out of range"
                              else "persistence is not enabled"))
  {
    PlainTextFits(c);
    hide R.ErrorReply, R.Encode, ErrorLine, HasCrOrLf;
    ErrorOnTheWire(ComplaintText(c));
  }

  lemma UnknownOnTheWire(name: bytes)
    ensures R.Encode(Refusal(UnknownCommand(name))) ==
            if OneLine(name) then Success(ErrorLine("unknown command '" + name + "'")) else Failure(R.ContainsCrOrLf)
  {
    EchoFits(name);
    hide R.ErrorReply, R.Encode, ErrorLine;
    ErrorOnTheWire(ComplaintText(UnknownCommand(name)));
  }

  lemma SmallNumbers()
    ensures Str(0) == "0" && Str(1) == "1" && Str(-1) == "-1" && Str(-2) == "-2"
  {
    StrIsDecimal(1, 0);
    StrIsDecimal(1, 1);
    StrIsDecimal(2, 2);
  }

  lemma ShortReplies()
    ensures R.Encode(R.SimpleString("PONG")) == Success("+PONG\r\n")
    ensures R.Encode(R.SimpleString("OK")) == Success("+OK\r\n")
    ensures R.Encode(R.Integer(0)) == Success(":0\r\n") && R.Encode(R.Integer(1)) == Success(":1\r\n")
    ensures R.Encode(R.Integer(-1)) == Success(":-1\r\n") && R.Encode(R.Integer(-2)) == Success(":-2\r\n")
  {
    SmallNumbers();
    assert "+" + "PONG" + "\r\n" == "+PONG\r\n" && "+" + "OK" + "\r\n" == "+OK\r\n";
    assert ":" + "0" + "\r\n" == ":0\r\n" && ":" + "1" + "\r\n" == ":1\r\n";
    assert ":" + "-1" + "\r\n" == ":-1\r\n" && ":" + "-2" + "\r\n" == ":-2\r\n";
  }

  // ---------- the server keeps to it ----------

  /** The reference server of module Pipeline does this with a known command. */
  ghost predicate Follows(cfg: Config, model: Model, verb: Verb, args: seq<bytes>, now: Time, page: (Model, bytes)) {
    var (after, reply) := EagerHandle(cfg, model, verb, args, now);
    Purge(after, now) == page.0 && R.Encode(reply) == Success(page.1)
  }

  lemma LiveIsPurge(model: Model, now: Time)
    ensures Live(model, now) == Purge(model, now)
  {
  }

  lemma PingFollows(cfg: Config, model: Model, args: seq<bytes>, now: Time)
    ensures Follows(cfg, model, PING, args, now, PingPage(Live(model, now), args))
  {
    hide Refusal;
    LiveIsPurge(model, now);
    UsageOnTheWire(PING);
    ShortReplies();
  }

  lemma SetFollows(cfg: Config, model: Model, args: seq<bytes>, now: Time)
    ensures Follows(cfg, model, SET, args, now, SetPage(Live(model, now), args))
  {
    hide Refusal;
    LiveIsPurge(model, now);
    UsageOnTheWire(SET);
    ShortReplies();
  }

  lemma GetFollows(cfg: Config, model: Model, args: seq<bytes>, now: Time)
    ensures Follows(cfg, model, GET, args, now, GetPage(Live(model, now), args))
  {
    hide Refusal;
    LiveIsPurge(model, now);
    UsageOnTheWire(GET);
    assert Purge(Purge(model, now), now) == Purge(model, now);
  }

  lemma DelFollows(cfg: Config, model: Model, args: seq<bytes>, now: Time)
    ensures Follows(cfg, model, DEL, args, now, DelPage(Live(model, now), args))
  {
    hide Refusal;
    LiveIsPurge(model, now);
    UsageOnTheWire(DEL);
    ShortReplies();
    if |args| == 1 && args[0] !in Purge(model, now) {
      assert Purge(model, now) - {args[0]} == Purge(model, now);
    }
  }

  lemma ExistsFollows(cfg: Config, model: Model, args: seq<bytes>, now: Time)
    ensures Follows(cfg, model, EXISTS, args, now, ExistsPage(Live(model, now), args))
  {
    hide Refusal;
    LiveIsPurge(model, now);
    UsageOnTheWire(EXISTS);
    ShortReplies();
    assert Purge(Purge(model, now), now) == Purge(model, now);
  }

  lemma ExpireFollows(cfg: Config, model: Model, args: seq<bytes>, now: Time)
    ensures Follows(cfg, model, EXPIRE, args, now, ExpirePage(Live(model, now), args, now))
  {
    hide Refusal, ReadInt, SpellsInteger;
    LiveIsPurge(model, now);
    UsageOnTheWire(EXPIRE);
    PlainOnTheWire(NotAnInteger);
    ShortReplies();
    if |args| == 2 {
      forall n ensures ReadInt(args[1]) == Some(n) <==> SpellsInteger(args[1], n) {
        ReadsExactlyTheIntegers(args[1], n);
      }
      assert Purge(Purge(model, now), now) == Purge(model, now);
    }
  }

  lemma TtlFollows(cfg: Config, model: Model, args: seq<bytes>, now: Time)
    ensures Follows(cfg, model, TTL, args, now, TtlPage(Live(model, now), args, now))
  {
    hide Refusal;
    LiveIsPurge(model, now);
    UsageOnTheWire(TTL);
    ShortReplies();
    assert Purge(Purge(model, now), now) == Purge(model, now);
  }

  lemma SaveFollows(cfg: Config, model: Model, args: seq<bytes>, now: Time)
    ensures Follows(cfg, model, SAVE, args, now, SavePage(cfg.persist, Live(model, now), args))
  {
    hide Refusal;
    LiveIsPurge(model, now);
    UsageOnTheWire(SAVE);
    ShortReplies();
    PlainOnTheWire(PersistenceOff);
  }

  /** The name has a page, or its error fits on a line. */
  ghost predicate Answerable(cmd: Resp.Command) {
    Known(cmd) || OneLine(cmd.name)
  }

  /** What is written for a reply: its bytes, unless an unknown name would break the line. */
  ghost function Written(cmd: Resp.Command, text: bytes): Result<bytes, R.EncodeError> {
    if Answerable(cmd) then Success(text) else Failure(R.ContainsCrOrLf)
  }

  lemma PageIsRight(cfg: Config, model: Model, cmd: Resp.Command, now: Time)
    requires Redirection(cfg, cmd) == Success(None)
    ensures var (after, reply) := EagerDispatch(cfg, model, cmd, now);
            var (page, text) := Page(cfg.persist, model, cmd, now);
            Purge(after, now) == page && R.Encode(reply) == Written(cmd, text)
  {
    CommandsByName(cmd);
    hide EagerHandle, IsCalled, VerbOf, NormalizedName, Refusal, R.Encode, Redirection;
    hide PingPage, SetPage, GetPage, DelPage, ExistsPage, ExpirePage, TtlPage, SavePage;
    var args, verb := cmd.args, VerbOf(NormalizedName(cmd));
    match verb {
      case None =>
        LiveIsPurge(model, now);
        UnknownOnTheWire(cmd.name);
      case Some(PING) => PingFollows(cfg, model, args, now);
      case Some(SET) => SetFollows(cfg, model, args, now);
      case Some(GET) => GetFollows(cfg, model, args, now);
      case Some(DEL) => DelFollows(cfg, model, args, now);
      case Some(EXISTS) => ExistsFollows(cfg, model, args, now);
      case Some(EXPIRE) => ExpireFollows(cfg, model, args, now);
      case Some(TTL) => TtlFollows(cfg, model, args, now);
      case Some(SAVE) => SaveFollows(cfg, model, args, now);
    }
  }

  /** One dispatched command: the store shows the map of the reference, and the reply has its bytes. */
  lemma ServerFollowsTheManual(cfg: Config, m: Machine, model: Model, cmd: Resp.Command, now: Time)
    requires Shows(m.mem, model, now) && Redirection(cfg, cmd) == Success(None)
    ensures var (after, reply) := Dispatch(cfg, m, cmd, now);
            var (page, text) := Page(cfg.persist, model, cmd, now);
            Shows(after.mem, page, now) && reply.Success? && R.Encode(reply.value) == Written(cmd, text)
  {
    hide Dispatch, EagerDispatch, Page, Written, Redirection, R.Encode;
    DispatchRefines(cfg, m, model, cmd, now);
    PageIsRight(cfg, model, cmd, now);
    var after := EagerDispatch(cfg, model, cmd, now).0;
    assert Purge(Purge(after, now), now) == Purge(after, now);
  }

  /** A name that is none of the eight changes nothing, on disk neither, and is answered by its own error. */
  lemma UnknownCommandsChangeNothing(cfg: Config, m: Machine, s: Recovery.Sys, cmd: Resp.Command, now: Time)
    requires !Known(cmd) && Redirection(cfg, cmd) == Success(None) && s.phase.Ready?
    ensures Dispatch(cfg, m, cmd, now) == (m, Success(R.Error("ERR unknown command '" + cmd.name + "'")))
    ensures StepsOf(cfg, s, cmd) == []
  {
    CommandsByName(cmd);
    hide IsCalled, VerbOf, NormalizedName, Redirection;
    var message: bytes := "unknown command '" + cmd.name + "'";
    assert message[0] == 'u' && "ERR " + message == "ERR unknown command '" + cmd.name + "'";
  }

  // ---------- protocol errors ----------

  function FaultText(e: Resp.ProtocolError): bytes {
    match e
    case ExpectedArray => "expected RESP array"
    case EmptyNumber(ArrayLength) => "empty " + "array length"
    case InvalidNumber(ArrayLength) => "invalid " + "array length"
    case EmptyArray => "array length must be greater than zero"
    case ExpectedBulk => "expected bulk string"
    case EmptyNumber(BulkLength) => "empty " + "bulk string length"
    case InvalidNumber(BulkLength) => "invalid " + "bulk string length"
    case NullBulk => "null bulk string is not allowed in request"
    case MissingCrlf => "missing CRLF after bulk string data"
    case InvalidUtf8 => "request contains invalid UTF-8"
  }

  lemma MessageIsFaultText(e: Resp.ProtocolError)
    ensures Resp.Message(e) == FaultText(e)
  {
  }

  lemma OneLineConcat(a: bytes, b: bytes)
    ensures OneLine(a + b) <==> OneLine(a) && OneLine(b)
  {
  }

  lemma HeaderFaultsFit()
    ensures OneLine("empty ") && OneLine("invalid ") && OneLine("array length") && OneLine("bulk string length")
  {
  }

  lemma ExpectationsFit()
    ensures OneLine("expected RESP array") && OneLine("expected bulk string")
  {
  }

  lemma EmptyArrayFits()
    ensures OneLine("array length must be greater than zero")
  {
  }

  lemma NullBulkFits()
    ensures OneLine("null bulk string is not allowed in request")
  {
  }

  lemma MissingCrlfFits()
    ensures OneLine("missing CRLF after bulk string data")
  {
  }

  lemma InvalidUtf8Fits()
    ensures OneLine("request contains invalid UTF-8")
  {
  }

  lemma FaultTextIsALine(e: Resp.ProtocolError)
    ensures OneLine(FaultText(e))
  {
    hide OneLine;
    match e {
      case EmptyNumber(context) =>
        HeaderFaultsFit();
        OneLineConcat("empty ", if context.ArrayLength? then "array length" else "bulk string length");
      case InvalidNumber(context) =>
        HeaderFaultsFit();
        OneLineConcat("invalid ", if context.ArrayLength? then "array length" else "bulk string length");
      case EmptyArray => EmptyArrayFits();
      case NullBulk => NullBulkFits();
      case MissingCrlf => MissingCrlfFits();
      case InvalidUtf8 => InvalidUtf8Fits();
      case _ => ExpectationsFit();
    }
  }

  lemma FaultTextBegins(e: Resp.ProtocolError)
    ensures FaultText(e) != [] && FaultText(e)[0] in "eianmr"
  {
  }

  /** A protocol error changes nothing and is answered by its text. */
  lemma FaultsAreAnswered(cfg: Config, m: Machine, e: Resp.ProtocolError, now: Time)
    ensures var (after, reply) := Answer(cfg, m, Refuse(e), now);
            after == m && reply.Success? && R.Encode(reply.value) == Success(ErrorLine(FaultText(e)))
  {
    MessageIsFaultText(e);
    FaultTextIsALine(e);
    FaultTextBegins(e);
    hide FaultText, Resp.Message, R.Encode, R.ErrorReply, OneLine, ErrorLine;
    ErrorOnTheWire(FaultText(e));
  }

  /** Behind a fault nothing is parsed and nothing is kept; the beginning of a request is kept. */
  lemma FaultsWipeTheBuffer(buffer: bytes, e: Resp.ProtocolError)
    ensures FirstFault(buffer, e) ==> Drain(buffer) == ([Refuse(e)], [])
    ensures Begun(buffer) ==> Drain(buffer) == ([], buffer)
  {
    MalformedIffFirstFault(buffer, e);
    IncompleteIffBegun(buffer);
    hide Resp.Parse, FirstFault, Begun;
  }

  // ---------- what is not answered ----------

  /** The encoder refuses simple strings and errors with a CR or LF, and nothing else. */
  lemma RefusedByTheEncoder(r: R.Response)
    ensures R.Encode(r).Failure? <==> (r.SimpleString? && !OneLine(r.value)) || (r.Error? && !OneLine(r.message))
  {
  }

  /** A command whose key lapsed while its value is missing: the deadline was left behind by something else. */
  ghost predicate Dangling(m: Machine, k: Key, now: Time) {
    k in m.mem.expires && m.mem.expires[k] <= now && k !in m.mem.data
  }

  /** One argument and a name that reads or deletes it, or an EXPIRE with a positive number of seconds. */
  ghost predicate Touches(cmd: Resp.Command) {
    || (|cmd.args| == 1 && (IsCalled(cmd.name, "GET", "get") || IsCalled(cmd.name, "DEL", "del") ||
                            IsCalled(cmd.name, "EXISTS", "exists") || IsCalled(cmd.name, "TTL", "ttl")))
    || (|cmd.args| == 2 && IsCalled(cmd.name, "EXPIRE", "expire") && exists n :: n > 0 && SpellsInteger(cmd.args[1], n))
  }

  /** The dispatcher raises exactly for a key that has to be routed and no nodes, and for a dangling deadline. */
  lemma RaisesExactly(cfg: Config, m: Machine, cmd: Resp.Command, now: Time)
    ensures var reply := Dispatch(cfg, m, cmd, now).1;
            && (reply == Failure(NoNodesToRoute) <==>
                  cfg.cluster.Some? && cfg.cluster.value.nodes == [] && RoutingKey(cmd).Some?)
            && (reply == Failure(MissingKey) <==>
                  Redirection(cfg, cmd) == Success(None) && Touches(cmd) && Dangling(m, cmd.args[0], now))
  {
    CommandsByName(cmd);
    hide IsCalled, VerbOf, NormalizedName, RoutingKey, SpellsInteger, ReadInt, R.ErrorReply, Refusal;
    RedirectionFails(cfg, cmd);
    var verb := VerbOf(NormalizedName(cmd));
    if Redirection(cfg, cmd) == Success(None) && verb.Some? {
      HandleRaises(cfg, m, verb.value, cmd.args, now);
      var v := verb.value;
      assert v.PING? || v.SET? || v.GET? || v.DEL? || v.EXISTS? || v.EXPIRE? || v.TTL? || v.SAVE?;
    }
    hide Redirection, Handle;
  }

  lemma RedirectionFails(cfg: Config, cmd: Resp.Command)
    ensures Redirection(cfg, cmd).Failure? <==>
            cfg.cluster.Some? && cfg.cluster.value.nodes == [] && RoutingKey(cmd).Some?
  {
    hide RoutingKey;
  }

  lemma HandleRaises(cfg: Config, m: Machine, verb: Verb, args: seq<bytes>, now: Time)
    ensures var reply := Handle(cfg, m, verb, args, now).1;
            var touches :=
              || (|args| == 1 && (verb.GET? || verb.DEL? || verb.EXISTS? || verb.TTL?))
              || (|args| == 2 && verb.EXPIRE? && exists n :: n > 0 && SpellsInteger(args[1], n));
            reply != Failure(NoNodesToRoute) &&
            (reply == Failure(MissingKey) <==> touches && Dangling(m, args[0], now))
  {
    if |args| == 2 {
      forall n ensures ReadInt(args[1]) == Some(n) <==> SpellsInteger(args[1], n) {
        ReadsExactlyTheIntegers(args[1], n);
      }
    }
    hide ReadInt, SpellsInteger, Refusal, Sweep, Image, Recovery.Pending;
    var request := RequestOf(verb, args);
    if request.Success? && request.value.Keyed? {
      RaisesExactlyOnDanglingDeadline(m.mem, request.value.op, now);
      hide LazyStep;
    }
  }

  // ---------- requests in bytes ----------

  lemma PingPart()
    ensures Resp.EncodePart("PING") == "$4\r\nPING\r\n"
  {
    StrIsDecimal(1, 4);
    hide Str;
  }

  lemma GetPart()
    ensures Resp.EncodePart("GET") == "$3\r\nGET\r\n"
  {
    StrIsDecimal(1, 3);
    hide Str;
  }

  lemma KeyPart()
    ensures Resp.EncodePart("k") == "$1\r\nk\r\n"
  {
    StrIsDecimal(1, 1);
    hide Str;
  }

  lemma Headers()
    ensures "*" + Str(1) + CRLF == "*1\r\n" && "*" + Str(2) + CRLF == "*2\r\n"
  {
    StrIsDecimal(1, 1);
    StrIsDecimal(1, 2);
    hide Str;
  }

  /** The bytes of two requests, of one part and of two. */
  lemma RequestsOnTheWire()
    ensures Resp.Encode(["PING"]) == "*1\r\n" + "$4\r\nPING\r\n"
    ensures Resp.Encode(["GET", "k"]) == "*2\r\n" + ("$3\r\nGET\r\n" + "$1\r\nk\r\n")
  {
    Headers();
    PingPart();
    GetPart();
    KeyPart();
    hide Str, Resp.EncodePart;
    OnePart("PING");
    OnePart("k");
    assert ["GET", "k"][1..] == ["k"];
  }

  lemma OnePart(part: bytes)
    ensures Resp.EncodeParts([part]) == Resp.EncodePart(part)
  {
    assert [part][1..] == [] && Resp.EncodeParts([]) == [];
  }

  // ---------- whole sessions ----------

  ghost function Transcript(persist: bool, model: Model, clock: nat -> Time, n: nat, commands: seq<Resp.Command>)
    : seq<bytes>
    decreases |commands|
  {
    if commands == [] then []
    else
      var (after, text) := Page(persist, model, commands[0], clock(n));
      [text] + Transcript(persist, after, clock, n + 1, commands[1..])
  }

  lemma PageOfLive(persist: bool, model: Model, other: Model, cmd: Resp.Command, now: Time)
    requires Live(model, now) == Live(other, now)
    ensures Page(persist, model, cmd, now) == Page(persist, other, cmd, now)
  {
  }

  lemma LiveLater(after: Model, page: Model, now: Time, later: Time)
    requires Purge(after, now) == page && now <= later
    ensures Live(after, later) == Live(page, later)
  {
  }

  lemma {:induction false} RepliesFollowTheManual(cfg: Config, model: Model, book: Model, clock: nat -> Time, n: nat,
                                                   commands: seq<Resp.Command>)
    requires Live(model, clock(n)) == Live(book, clock(n)) && forall i, j :: i <= j ==> clock(i) <= clock(j)
    requires forall c :: c in commands ==> Redirection(cfg, c) == Success(None) && Answerable(c)
    ensures var replies := EagerServe(cfg, model, clock, n, commands);
            var texts := Transcript(cfg.persist, book, clock, n, commands);
            |replies| == |texts| == |commands| &&
            forall i :: 0 <= i < |commands| ==> R.Encode(replies[i]) == Success(texts[i])
    decreases |commands|
  {
    hide EagerDispatch, Page, Redirection, R.Encode, Live, Answerable;
    if commands != [] {
      var cmd, now := commands[0], clock(n);
      PageIsRight(cfg, model, cmd, now);
      PageOfLive(cfg.persist, model, book, cmd, now);
      var after, page := EagerDispatch(cfg, model, cmd, now).0, Page(cfg.persist, book, cmd, now).0;
      LiveLater(after, page, now, clock(n + 1));
      RepliesFollowTheManual(cfg, after, page, clock, n + 1, commands[1..]);
    }
  }

  lemma AnswerableFits(cfg: Config, cmd: Resp.Command)
    requires Redirection(cfg, cmd) == Success(None)
    ensures Answerable(cmd) <==> !Unanswerable(cfg, cmd)
  {
    CommandsByName(cmd);
    hide IsCalled, VerbOf, NormalizedName, Redirection;
    var verb := VerbOf(NormalizedName(cmd));
    if verb.Some? {
      var v := verb.value;
      assert v.PING? || v.SET? || v.GET? || v.DEL? || v.EXISTS? || v.EXPIRE? || v.TTL? || v.SAVE?;
      assert Known(cmd);
    }
  }

  /** A new server shows the empty map, and every request of Unicode texts can be sent to it. */
  lemma NewServers(now: Time, c: Resp.Command)
    ensures Shows(EMPTY, map[], now)
    ensures Pipeline.Sendable(c) <==> forall part :: part in [c.name] + c.args ==>
              exists points :: AllScalar(points) && part == EncodeText(points)
  {
    forall part | part in [c.name] + c.args
      ensures ValidUtf8(part) <==> exists points :: AllScalar(points) && part == EncodeText(points)
    {
      ValidIffText(part);
    }
    hide ValidUtf8;
    assert c.name in [c.name] + c.args && forall p :: p in c.args ==> p in [c.name] + c.args;
  }

  /** A session end to end: the i-th text that the client reads is the i-th of the transcript, byte for byte. */
  method Session(dispatcher: Dispatcher, ghost model: Model, ghost commands: seq<Resp.Command>, count: nat,
                 chunks: seq<bytes>, clock: nat -> Time)
    returns (texts: seq<bytes>)
    requires dispatcher.Valid() && Shows(dispatcher.Now().mem, model, clock(0))
    requires forall i, j :: i <= j ==> clock(i) <= clock(j)
    requires count == |commands| && forall c :: c in commands ==> Sendable(c)
    requires CutOf(chunks, EncodeRequests(commands))
    requires forall c :: c in commands ==> Redirection(dispatcher.Settings(), c) == Success(None) && Answerable(c)
    modifies dispatcher.Footprint()
    ensures dispatcher.Valid()
    ensures texts == Transcript(dispatcher.Settings().persist, model, clock, 0, commands)
  {
    hide Shows, Redirection, Unanswerable, Answerable, EncodeRequests, CutOf, R.Encode, EagerServe, Transcript;
    hide Dispatcher.Valid;
    ghost var cfg := dispatcher.Settings();
    forall c | c in commands ensures !Unanswerable(cfg, c) {
      AnswerableFits(cfg, c);
    }
    RepliesFollowTheManual(cfg, model, model, clock, 0, commands);
    texts := Pipeline.Session(dispatcher, model, commands, count, chunks, clock);
  }
}
