/**
 Several servers that share the keys: each serves its own and sends clients elsewhere for the
 others. Together they answer as one server would.
 */
module Sharding {
  import opened Wrappers
  import opened Bytes
  import opened Decimal
  import opened Stores
  import opened Files
  import opened Routing
  import opened Dispatching
  import Resp
  import R = Replies
  import Recovery

  /** The common node list, the digest, and whether the servers persist. Server i runs as nodes[i]. */
  datatype Cluster = Cluster(nodes: seq<Node>, digest: bytes -> nat, persist: bool)

  ghost predicate DistinctAddresses(c: Cluster) {
    c.nodes != [] && forall i, j :: 0 <= i < j < |c.nodes| ==> Address(c.nodes[i]) != Address(c.nodes[j])
  }

  function Owner(c: Cluster, k: Key): (i: nat)
    requires c.nodes != []
    ensures i < |c.nodes|
  {
    HashSlot(c.digest, k) % |c.nodes|
  }

  function ConfigOf(c: Cluster, i: nat): Config
    requires i < |c.nodes|
  {
    Config(c.persist, Some(Coordinator(c.nodes[i], c.nodes, c.digest)))
  }

  // ---------- clients that follow a redirection ----------

  predicate IsMoved(r: Result<R.Response, Exception>) {
    r.Success? && r.value.Error? && R.StartsWith(r.value.message, "MOVED ")
  }

  /** The first node with an address. */
  function NodeAt(nodes: seq<Node>, address: bytes): (r: Option<nat>)
    ensures r.Some? ==> r.value < |nodes| && Address(nodes[r.value]) == address
  {
    if nodes == [] then None
    else if Address(nodes[0]) == address then Some(0)
    else
      var later := NodeAt(nodes[1..], address);
      assert later.Some? ==> nodes[1..][later.value] == nodes[later.value + 1];
      if later.None? then None else Some(later.value + 1)
  }

  /** Send a command to one server. */
  function Ask(c: Cluster, machines: seq<Machine>, i: nat, cmd: Resp.Command, now: Time)
    : (seq<Machine>, Result<R.Response, Exception>)
    requires i < |c.nodes| == |machines|
  {
    var (m, reply) := Dispatch(ConfigOf(c, i), machines[i], cmd, now);
    (machines[i := m], reply)
  }

  /** Send a command to one server, and once more to the server it names, if it names one. */
  function Follow(c: Cluster, machines: seq<Machine>, i: nat, cmd: Resp.Command, now: Time)
    : (result: (seq<Machine>, Result<R.Response, Exception>))
    requires i < |c.nodes| == |machines|
    ensures |result.0| == |machines|
  {
    var (after, reply) := Ask(c, machines, i, cmd, now);
    if !IsMoved(reply) then (after, reply)
    else
      var j := NodeAt(c.nodes, AddressIn(reply.value.message));
      if j.None? then (after, reply) else Ask(c, after, j.value, cmd, now)
  }

  /** The server that must carry out a command sent to server i. */
  function Serving(c: Cluster, i: nat, cmd: Resp.Command): nat
    requires c.nodes != []
  {
    if RoutingKey(cmd).None? then i else Owner(c, RoutingKey(cmd).value)
  }

  // ---------- one hop ----------

  lemma {:induction false} NodeAtFinds(nodes: seq<Node>, i: nat)
    requires i < |nodes| && forall a, b :: 0 <= a < b < |nodes| ==> Address(nodes[a]) != Address(nodes[b])
    ensures NodeAt(nodes, Address(nodes[i])) == Some(i)
  {
    hide Address;
    if i > 0 {
      NodeAtFinds(nodes[1..], i - 1);
    }
  }

  /** What the server says before it looks at its store. */
  lemma ServesOrMoves(c: Cluster, i: nat, cmd: Resp.Command)
    requires DistinctAddresses(c) && i < |c.nodes|
    ensures var j := Serving(c, i, cmd);
            j < |c.nodes| &&
            Redirection(ConfigOf(c, i), cmd) ==
            if j == i then Success(None)
            else Success(Some(MovedText(HashSlot(c.digest, RoutingKey(cmd).value), c.nodes[j])))
  {
    hide RoutingKey, MovedText;
    var j := Serving(c, i, cmd);
    if j != i {
      assert Address(c.nodes[if i < j then i else j]) != Address(c.nodes[if i < j then j else i]);
    }
  }

  lemma ServingInNumbers(c: Cluster, i: nat, cmd: Resp.Command)
    requires c.nodes != []
    ensures Serving(c, i, cmd) ==
            if RoutingKey(cmd).None? then i else c.digest(RoutingKey(cmd).value) % 16384 % |c.nodes|
    ensures RoutingKey(cmd).Some? ==>
              HashSlot(c.digest, RoutingKey(cmd).value) == c.digest(RoutingKey(cmd).value) % 16384
  {
    hide RoutingKey;
  }

  lemma MovedIsAnError(slot: nat, owner: Node)
    ensures R.ErrorReply(MovedText(slot, owner)) == R.Error(MovedText(slot, owner))
  {
    hide Address, Str;
    assert MovedText(slot, owner)[..6] == "MOVED ";
  }

  /**
   A server carries out a command exactly if it has no key or the server's index is the digest of the key
   modulo 16384 modulo the number of nodes. Otherwise it changes nothing and answers an error from which the
   client reads this slot and the owner's host and port.
   */
  lemma RedirectedExactlyWhenForeign(c: Cluster, i: nat, m: Machine, cmd: Resp.Command, now: Time)
    requires DistinctAddresses(c) && i < |c.nodes|
    ensures var cfg, key := ConfigOf(c, i), RoutingKey(cmd);
            if key.None? then Redirection(cfg, cmd) == Success(None)
            else
              var slot := c.digest(key.value) % 16384;
              var owner := c.nodes[slot % |c.nodes|];
              if slot % |c.nodes| == i then Redirection(cfg, cmd) == Success(None)
              else
                var (after, reply) := Dispatch(cfg, m, cmd, now);
                after == m && reply.Success? && reply.value.Error? &&
                ReadMoved(reply.value.message) == Some(Target(slot, owner.host, owner.port))
  {
    hide RoutingKey, MovedText, ReadMoved, Redirection, R.ErrorReply, HashSlot, Serving;
    ServesOrMoves(c, i, cmd);
    ServingInNumbers(c, i, cmd);
    if RoutingKey(cmd).Some? {
      var slot := c.digest(RoutingKey(cmd).value) % 16384;
      var owner := c.nodes[slot % |c.nodes|];
      MovedReadsBack(slot, owner);
      MovedIsAnError(slot, owner);
    }
  }

  lemma RefusalIsNotMoved(complaint: Complaint)
    ensures !IsMoved(Success(Refusal(complaint)))
  {
    var text := ComplaintText(complaint);
    assert text[0] != 'M' && text[0] != 'E';
    hide ComplaintText;
    assert !R.StartsWith(text, "MOVED ") && !R.StartsWith(text, "ERR ");
    assert ("ERR " + text)[0] == 'E';
  }

  /** A server never answers MOVED for a key of its own. */
  lemma ServingAnswers(cfg: Config, m: Machine, cmd: Resp.Command, now: Time)
    requires Redirection(cfg, cmd) == Success(None)
    ensures !IsMoved(Dispatch(cfg, m, cmd, now).1)
  {
    hide Redirection, RequestOf, VerbOf, NormalizedName, LazyStep, Refusal, Sweep, Image, Recovery.Pending;
    var verb := VerbOf(NormalizedName(cmd));
    if verb.None? {
      RefusalIsNotMoved(UnknownCommand(cmd.name));
    } else {
      var request := RequestOf(verb.value, cmd.args);
      RefusalIsNotMoved(if request.Failure? then request.error else PersistenceOff);
    }
  }

  /** From any server, at most one redirection leads to the server that carries the command out. */
  lemma OneHopIsEnough(c: Cluster, machines: seq<Machine>, i: nat, cmd: Resp.Command, now: Time)
    requires DistinctAddresses(c) && i < |c.nodes| == |machines|
    ensures Serving(c, i, cmd) < |machines|
    ensures Follow(c, machines, i, cmd, now) == Ask(c, machines, Serving(c, i, cmd), cmd, now)
    ensures !IsMoved(Follow(c, machines, i, cmd, now).1)
  {
    hide Address, MovedText, RoutingKey, VerbOf, Handle, Refusal;
    var j := Serving(c, i, cmd);
    ServesOrMoves(c, i, cmd);
    ServesOrMoves(c, j, cmd);
    ServingAnswers(ConfigOf(c, j), machines[j], cmd, now);
    if j != i {
      var slot := HashSlot(c.digest, RoutingKey(cmd).value);
      var text := MovedText(slot, c.nodes[j]);
      MovedStays(slot, c.nodes[j]);
      assert Dispatch(ConfigOf(c, i), machines[i], cmd, now) == (machines[i], Success(R.Error(text)));
      assert machines[i := machines[i]] == machines;
      AddressInMoved(slot, c.nodes[j]);
      NodeAtFinds(c.nodes, j);
    }
  }

  lemma MovedStays(slot: nat, owner: Node)
    ensures R.ErrorReply(MovedText(slot, owner)) == R.Error(MovedText(slot, owner))
    ensures R.StartsWith(MovedText(slot, owner), "MOVED ")
  {
  }

  // ---------- one store ----------

  /** Each server stores only its own keys, and together they show what the single store shows. */
  ghost predicate Sharded(c: Cluster, machines: seq<Machine>, single: Store, now: Time)
    requires c.nodes != []
  {
    && |machines| == |c.nodes|
    && Tidy(single)
    && (forall i :: 0 <= i < |machines| ==> Tidy(machines[i].mem))
    && (forall i, k :: 0 <= i < |machines| && k in machines[i].mem.data ==> Owner(c, k) == i)
    && (forall k :: Visible(machines[Owner(c, k)].mem, k, now) == Visible(single, k, now))
  }

  lemma ShardedLater(c: Cluster, machines: seq<Machine>, single: Store, now: Time, later: Time)
    requires c.nodes != [] && Sharded(c, machines, single, now) && now <= later
    ensures Sharded(c, machines, single, later)
  {
    forall k ensures Visible(machines[Owner(c, k)].mem, k, later) == Visible(single, k, later) {
      assert Visible(machines[Owner(c, k)].mem, k, now) == Visible(single, k, now);
    }
  }

  /** A command carried out by its server and by the single one. */
  lemma SameCommandSameAnswer(cfg: Config, alone: Config, m: Machine, single: Machine, cmd: Resp.Command, now: Time)
    requires Redirection(cfg, cmd) == Success(None) && alone.cluster == None && alone.persist == cfg.persist
    requires Tidy(m.mem) && Tidy(single.mem)
    requires RoutingKey(cmd).Some? ==>
               Visible(m.mem, RoutingKey(cmd).value, now) == Visible(single.mem, RoutingKey(cmd).value, now)
    ensures var (m', reply) := Dispatch(cfg, m, cmd, now);
            var (single', expected) := Dispatch(alone, single, cmd, now);
            Tidy(m'.mem) && Tidy(single'.mem) && reply == expected &&
            (forall k :: Some(k) != RoutingKey(cmd) ==> Visible(m'.mem, k, now) == Visible(m.mem, k, now)) &&
            (forall k :: Some(k) != RoutingKey(cmd) ==> Visible(single'.mem, k, now) == Visible(single.mem, k, now)) &&
            (forall k :: Some(k) != RoutingKey(cmd) && k in m'.mem.data ==> k in m.mem.data) &&
            (RoutingKey(cmd).Some? ==>
              Visible(m'.mem, RoutingKey(cmd).value, now) == Visible(single'.mem, RoutingKey(cmd).value, now))
  {
    RequestsFollowTheRoutingKey(cmd);
    hide VerbOf, NormalizedName, RequestOf, RoutingKey, LazyStep, KeyStep, Refusal, Sweep, Image, Recovery.Pending;
    var verb := VerbOf(NormalizedName(cmd));
    if verb.Some? {
      match RequestOf(verb.value, cmd.args) {
        case Failure(_) =>
        case Success(Ping) =>
        case Success(Save) =>
          SweepKeeps(m.mem, now);
          SweepKeeps(single.mem, now);
        case Success(Keyed(op)) =>
          StepActsOnItsKey(m.mem, op, now);
          StepActsOnItsKey(single.mem, op, now);
          OthersStay(m.mem, LazyStep(m.mem, op, now).0, op.key);
      }
    }
  }

  lemma SweepKeeps(s: Store, now: Time)
    requires Tidy(s)
    ensures Tidy(Sweep(s, now)) && Sweep(s, now).data.Keys <= s.data.Keys
    ensures forall k :: Visible(Sweep(s, now), k, now) == Visible(s, k, now)
  {
  }

  lemma OthersStay(s: Store, t: Store, key: Key)
    requires forall k :: k != key ==> At(t, k) == At(s, k)
    ensures forall k :: k != key && k in t.data ==> k in s.data
  {
    forall k | k != key && k in t.data ensures k in s.data {
      assert At(t, k) == At(s, k);
    }
  }

  /** A keyed request is about the key by which its command is routed. */
  lemma RequestsFollowTheRoutingKey(cmd: Resp.Command)
    ensures var verb := VerbOf(NormalizedName(cmd));
            verb.Some? && RequestOf(verb.value, cmd.args).Success? ==>
              match RequestOf(verb.value, cmd.args).value
              case Keyed(op) => RoutingKey(cmd) == Some(op.key)
              case _ => RoutingKey(cmd) == None
  {
    hide VerbOf, NormalizedName, ReadInt;
  }

  /** One command, sent anywhere: the reply of the single server, and the keys stay where they belong. */
  lemma FollowRefinesSingle(c: Cluster, machines: seq<Machine>, single: Machine, i: nat, cmd: Resp.Command, now: Time)
    requires DistinctAddresses(c) && Sharded(c, machines, single.mem, now) && i < |c.nodes|
    ensures var (after, reply) := Follow(c, machines, i, cmd, now);
            var (single', expected) := Dispatch(Config(c.persist, None), single, cmd, now);
            reply == expected && Sharded(c, after, single'.mem, now)
  {
    OneHopIsEnough(c, machines, i, cmd, now);
    var j := Serving(c, i, cmd);
    ServesOrMoves(c, j, cmd);
    assert j < |machines| && Tidy(machines[j].mem);
    SameCommandSameAnswer(ConfigOf(c, j), Config(c.persist, None), machines[j], single, cmd, now);
    hide Dispatch, RoutingKey, Redirection, Follow, HashSlot, Sharded;
    ShardedLength(c, machines, single.mem, now);
    var m' := Dispatch(ConfigOf(c, j), machines[j], cmd, now).0;
    var single' := Dispatch(Config(c.persist, None), single, cmd, now).0;
    ReplaceShard(c, machines, single.mem, j, m', single'.mem, RoutingKey(cmd), now);
  }

  /** Changing one server and the single store alike, at one key of that server at most. */
  lemma ReplaceShard(c: Cluster, machines: seq<Machine>, single: Store, j: nat, m: Machine, single': Store,
                     key: Option<Key>, now: Time)
    requires c.nodes != [] && Sharded(c, machines, single, now) && j < |machines|
    requires Tidy(m.mem) && Tidy(single')
    requires forall k :: Some(k) != key ==> Visible(m.mem, k, now) == Visible(machines[j].mem, k, now)
    requires forall k :: Some(k) != key ==> Visible(single', k, now) == Visible(single, k, now)
    requires forall k :: Some(k) != key && k in m.mem.data ==> k in machines[j].mem.data
    requires key.Some? ==>
               Owner(c, key.value) == j && Visible(m.mem, key.value, now) == Visible(single', key.value, now)
    ensures Sharded(c, machines[j := m], single', now)
  {
    hide Owner, Visible, Tidy;
    var after := machines[j := m];
    forall k ensures Visible(after[Owner(c, k)].mem, k, now) == Visible(single', k, now) {
      assert Visible(machines[Owner(c, k)].mem, k, now) == Visible(single, k, now);
    }
  }

  // ---------- whole runs ----------

  /** New servers share the keys of an empty one. */
  lemma NewClusterIsSharded(c: Cluster, now: Time)
    requires c.nodes != []
    ensures Sharded(c, seq(|c.nodes|, _ => Machine(EMPTY, Disk(None, None), [])), EMPTY, now)
  {
  }


  /** A client's command: the server it is first sent to, and when. */
  datatype Call = Call(server: nat, command: Resp.Command, now: Time)

  function ClusterRun(c: Cluster, machines: seq<Machine>, calls: seq<Call>): seq<Result<R.Response, Exception>>
    requires |machines| == |c.nodes| && forall i :: 0 <= i < |calls| ==> calls[i].server < |c.nodes|
    decreases |calls|
  {
    if calls == [] then []
    else
      var (after, reply) := Follow(c, machines, calls[0].server, calls[0].command, calls[0].now);
      [reply] + ClusterRun(c, after, calls[1..])
  }

  function SingleRun(cfg: Config, single: Machine, calls: seq<Call>): seq<Result<R.Response, Exception>>
    decreases |calls|
  {
    if calls == [] then []
    else
      var (after, reply) := Dispatch(cfg, single, calls[0].command, calls[0].now);
      [reply] + SingleRun(cfg, after, calls[1..])
  }

  /** Over every run, whichever servers the clients talk to: the replies of one server. */
  lemma {:induction false} ClusterRefinesSingle(c: Cluster, machines: seq<Machine>, single: Machine, start: Time,
                                                calls: seq<Call>)
    requires DistinctAddresses(c) && Sharded(c, machines, single.mem, start)
    requires forall i :: 0 <= i < |calls| ==> calls[i].server < |c.nodes|
    requires forall i :: 0 <= i < |calls| ==> start <= calls[i].now
    requires forall i, j :: 0 <= i < j < |calls| ==> calls[i].now <= calls[j].now
    ensures ClusterRun(c, machines, calls) == SingleRun(Config(c.persist, None), single, calls)
    decreases |calls|
  {
    if calls != [] {
      hide Follow, Dispatch, Sharded;
      var call := calls[0];
      ShardedLater(c, machines, single.mem, start, call.now);
      FollowRefinesSingle(c, machines, single, call.server, call.command, call.now);
      var after := Follow(c, machines, call.server, call.command, call.now).0;
      ShardedLength(c, machines, single.mem, start);
      var single' := Dispatch(Config(c.persist, None), single, call.command, call.now).0;
      ShardedLength(c, after, single'.mem, call.now);
      assert forall i :: 0 <= i < |calls[1..]| ==> calls[1..][i] == calls[i + 1];
      ClusterRefinesSingle(c, after, single', call.now, calls[1..]);
    }
  }

  lemma ShardedLength(c: Cluster, machines: seq<Machine>, single: Store, now: Time)
    requires c.nodes != [] && Sharded(c, machines, single, now)
    ensures |machines| == |c.nodes|
  {
  }
}
