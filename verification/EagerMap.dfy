/**
 The reference: a plain map that throws lapsed keys away before every command. The lazy
 store cannot be told apart from it.
 */
module EagerMap {
  import opened Wrappers
  import opened HashTables
  import opened Stores

  type Model = map<Key, Entry>

  /** The map without the entries whose deadline has come. */
  function Purge(m: Model, now: Time): Model {
    map k | k in m && Alive(m[k], now) :: m[k]
  }

  /** What the lazy store shows. */
  function View(s: Store, now: Time): Model {
    map k | k in s.data && Visible(s, k, now).Some? :: Visible(s, k, now).value
  }

  /** A command on the reference map. */
  function EagerStep(m: Model, op: Op, now: Time): (Model, Reply) {
    var p := Purge(m, now);
    match op
    case Set(k, v) => (p[k := Entry(v, None)], Ok)
    case Get(k) => (p, Bulk(if k in p then Some(p[k].value) else None))
    case Del(k) => (p - {k}, Integer(if k in p then 1 else 0))
    case Exists(k) => (p, Integer(if k in p then 1 else 0))
    case Expire(k, seconds) =>
      if k in p && seconds > 0 then (p[k := p[k].(deadline := Some(now + seconds as real))], Integer(1))
      else (p, Integer(0))
    case Ttl(k) =>
      (p, Integer(if k !in p then -2 else if p[k].deadline.None? then -1 else (p[k].deadline.value - now).Floor))
  }

  /** Commands with the clock readings at which they run. */
  type Script = seq<(Op, Time)>

  ghost predicate ClockRuns(start: Time, script: Script) {
    && (script != [] ==> start <= script[0].1)
    && forall i, j :: 0 <= i < j < |script| ==> script[i].1 <= script[j].1
  }

  function LazyRun(s: Store, script: Script): (Store, seq<Result<Reply, KeyError>>)
    decreases |script|
  {
    if script == [] then (s, [])
    else
      var (t, reply) := LazyStep(s, script[0].0, script[0].1);
      var (u, replies) := LazyRun(t, script[1..]);
      (u, [reply] + replies)
  }

  function EagerRun(m: Model, script: Script): (Model, seq<Reply>)
    decreases |script|
  {
    if script == [] then (m, [])
    else
      var (n, reply) := EagerStep(m, script[0].0, script[0].1);
      var (o, replies) := EagerRun(n, script[1..]);
      (o, [reply] + replies)
  }

  function Look(m: Model, k: Key): Option<Entry> {
    if k in m then Some(m[k]) else None
  }

  lemma SameLook(m: Model, n: Model)
    requires forall k :: Look(m, k) == Look(n, k)
    ensures m == n
  {
    assert forall k :: k in m <==> Look(m, k).Some?;
    assert forall k :: k in n <==> Look(n, k).Some?;
    assert forall k :: k in m ==> Look(m, k) == Some(m[k]) && Look(n, k) == Some(n[k]);
  }

  /** Looking later purges what has lapsed since. */
  lemma ViewLater(s: Store, now: Time, later: Time)
    requires now <= later
    ensures View(s, later) == Purge(View(s, now), later)
  {
  }

  /** One command: same reply, and the view is the reference's new map. */
  lemma StepRefines(s: Store, m: Model, op: Op, now: Time)
    requires Tidy(s) && View(s, now) == Purge(m, now)
    ensures var (t, reply) := LazyStep(s, op, now);
            var (n, expected) := EagerStep(m, op, now);
            Tidy(t) && reply == Success(expected) && View(t, now) == n
  {
    hide LazyStep;
    StepActsOnItsKey(s, op, now);
    var t, n := LazyStep(s, op, now).0, EagerStep(m, op, now).0;
    assert Look(View(s, now), op.key) == Visible(s, op.key, now);
    forall k ensures Look(View(t, now), k) == Look(n, k) {
      assert Look(View(s, now), k) == Visible(s, k, now);
      assert Look(View(t, now), k) == Visible(t, k, now);
    }
    SameLook(View(t, now), n);
  }

  /** Whole runs under a clock that never goes back: the replies are the reference's. */
  lemma {:induction false} LazyRefinesEager(s: Store, m: Model, start: Time, script: Script)
    requires Tidy(s) && View(s, start) == Purge(m, start)
    requires ClockRuns(start, script)
    ensures var replies := LazyRun(s, script).1;
            var expected := EagerRun(m, script).1;
            |replies| == |expected| == |script| &&
            forall i :: 0 <= i < |script| ==> replies[i] == Success(expected[i])
    decreases |script|
  {
    if script != [] {
      hide LazyStep, EagerStep;
      var op, now := script[0].0, script[0].1;
      ViewLater(s, start, now);
      assert Purge(Purge(m, start), now) == Purge(m, now);
      StepRefines(s, m, op, now);
      var t, n := LazyStep(s, op, now).0, EagerStep(m, op, now).0;
      assert View(t, now) == Purge(View(t, now), now);
      assert ClockRuns(now, script[1..]) by {
        assert forall i :: 0 <= i < |script[1..]| ==> script[1..][i] == script[i + 1];
      }
      LazyRefinesEager(t, n, now, script[1..]);
    }
  }
}
