/**
 The key-value store with lazy expiry, on values. The store is two tables, values and
 deadlines; each function is one method of src/storage/in_memory.py. A lapsed key stays
 in both tables until a command touches it.
 */
module Stores {
  import opened Wrappers
  import opened Bytes
  import opened HashTables

  type Key = bytes
  type Value = bytes

  /** Seconds since the epoch, exact. */
  type Time = real

  datatype Store = Store(data: map<Key, Value>, expires: map<Key, Time>)

  const EMPTY := Store(map[], map[])

  /** A value with its deadline, as a client can observe it. */
  datatype Entry = Entry(value: Value, deadline: Option<Time>)

  predicate Alive(e: Entry, now: Time) {
    e.deadline.None? || e.deadline.value > now
  }

  /** Every deadline belongs to a stored key. */
  ghost predicate Tidy(s: Store) {
    s.expires.Keys <= s.data.Keys
  }

  /** What the tables hold for a key, lapsed or not. */
  function At(s: Store, k: Key): Option<Entry> {
    if k in s.data then Some(Entry(s.data[k], if k in s.expires then Some(s.expires[k]) else None)) else None
  }

  /** What a client can see of a key. */
  function Visible(s: Store, k: Key, now: Time): Option<Entry> {
    Living(At(s, k), now)
  }

  function Living(e: Option<Entry>, now: Time): Option<Entry> {
    if e.Some? && Alive(e.value, now) then e else None
  }

  predicate Lapsed(s: Store, k: Key, now: Time) {
    k in s.expires && s.expires[k] <= now
  }

  /** The key is stored with a deadline in (since, now]. */
  predicate LapsedSince(s: Store, k: Key, since: Time, now: Time) {
    k in s.data && k in s.expires && since < s.expires[k] <= now
  }

  /** int(x): towards zero. */
  function Truncate(x: real): int {
    if x >= 0.0 then x.Floor else -((-x).Floor)
  }

  // ---------- the methods of InMemoryStore ----------

  /** Drop a lapsed key. The deadline goes first; a deadline without a key then raises. */
  function Evict(s: Store, k: Key, now: Time): (Store, Result<bool, KeyError>) {
    if !Lapsed(s, k, now) then (s, Success(false))
    else
      (Store(s.data - {k}, s.expires - {k}), if k in s.data then Success(true) else Failure(KeyError))
  }

  function SetPair(s: Store, k: Key, v: Value, ex: Option<int>, now: Time): Store {
    var stored := Store(s.data[k := v], s.expires - {k});
    if ex.None? then stored
    else if ex.value <= 0 then Store(stored.data - {k}, stored.expires - {k})
    else stored.(expires := stored.expires[k := now + ex.value as real])
  }

  function GetValue(s: Store, k: Key, now: Time): (Store, Result<Option<Value>, KeyError>) {
    var (t, evicted) := Evict(s, k, now);
    (t, if evicted.Failure? then Failure(evicted.error) else Success(if k in t.data then Some(t.data[k]) else None))
  }

  function Remove(s: Store, k: Key, now: Time): (Store, Result<int, KeyError>) {
    var (t, evicted) := Evict(s, k, now);
    if evicted.Failure? then (t, Failure(evicted.error))
    else if k !in t.data then (t.(expires := t.expires - {k}), Success(0))
    else (Store(t.data - {k}, t.expires - {k}), Success(1))
  }

  function HasKey(s: Store, k: Key, now: Time): (Store, Result<int, KeyError>) {
    var (t, evicted) := Evict(s, k, now);
    (t, if evicted.Failure? then Failure(evicted.error) else Success(if k in t.data then 1 else 0))
  }

  /** The clock is read at now for the eviction and at later for the new deadline. */
  function ExpireIn(s: Store, k: Key, seconds: int, now: Time, later: Time): (Store, Result<int, KeyError>) {
    var (t, evicted) := Evict(s, k, now);
    if evicted.Failure? then (t, Failure(evicted.error))
    else if k !in t.data || seconds <= 0 then (t, Success(0))
    else (t.(expires := t.expires[k := later + seconds as real]), Success(1))
  }

  /** The clock is read at now for the eviction and at later for the time left. */
  function TimeToLive(s: Store, k: Key, now: Time, later: Time): (Store, Result<int, KeyError>) {
    var (t, evicted) := Evict(s, k, now);
    if evicted.Failure? then (t, Failure(evicted.error))
    else if evicted.value || k !in t.data then (t, Success(-2))
    else if k !in t.expires then (t, Success(-1))
    else if Truncate(t.expires[k] - later) >= 0 then (t, Success(Truncate(t.expires[k] - later)))
    else (t.(expires := t.expires - {k}), Success(-2))
  }

  /** The clock is read at now for the eviction and at later for the deadline, which is forgotten if lapsed by then. */
  function ExpireAt(s: Store, k: Key, now: Time, later: Time): (Store, Result<Option<Time>, KeyError>) {
    var (t, evicted) := Evict(s, k, now);
    if evicted.Failure? then (t, Failure(evicted.error))
    else if Lapsed(t, k, later) then (t.(expires := t.expires - {k}), Success(None))
    else (t, Success(if k in t.expires then Some(t.expires[k]) else None))
  }

  /** The store after every stored key has been visited for eviction. */
  function Sweep(s: Store, now: Time): Store {
    Store(map k | k in s.data && !Lapsed(s, k, now) :: s.data[k],
          map k | k in s.expires && !(k in s.data && Lapsed(s, k, now)) :: s.expires[k])
  }

  /** What snapshot() returns: the swept data and the deadlines that lie ahead. */
  function Image(s: Store, now: Time): Store {
    Store(Sweep(s, now).data, Ahead(Sweep(s, now).expires, now))
  }

  function Ahead(expires: map<Key, Time>, now: Time): map<Key, Time> {
    map k | k in expires && expires[k] > now :: expires[k]
  }

  /** The store after load(): lapsed deadlines are forgotten, and their keys stay. */
  function Load(image: Store, now: Time): Store {
    Store(image.data, Ahead(image.expires, now))
  }

  // ---------- commands ----------

  datatype Op =
    | Set(key: Key, value: Value)
    | Get(key: Key)
    | Del(key: Key)
    | Exists(key: Key)
    | Expire(key: Key, seconds: int)
    | Ttl(key: Key)

  datatype Reply = Ok | Bulk(value: Option<Value>) | Integer(n: int)

  /** A command on the lazy store. */
  function LazyStep(s: Store, op: Op, now: Time): (Store, Result<Reply, KeyError>) {
    match op
    case Set(k, v) => (SetPair(s, k, v, None, now), Success(Ok))
    case Get(k) =>
      var (t, r) := GetValue(s, k, now);
      (t, if r.Success? then Success(Bulk(r.value)) else Failure(r.error))
    case Del(k) => IntegerReply(Remove(s, k, now))
    case Exists(k) => IntegerReply(HasKey(s, k, now))
    case Expire(k, seconds) => IntegerReply(ExpireIn(s, k, seconds, now, now))
    case Ttl(k) => IntegerReply(TimeToLive(s, k, now, now))
  }

  function IntegerReply(p: (Store, Result<int, KeyError>)): (Store, Result<Reply, KeyError>) {
    (p.0, if p.1.Success? then Success(Integer(p.1.value)) else Failure(p.1.error))
  }

  /** A command seen from one key: what was visible of it, and what is visible afterwards. */
  function KeyStep(e: Option<Entry>, op: Op, now: Time): (Option<Entry>, Reply) {
    match op
    case Set(_, v) => (Some(Entry(v, None)), Ok)
    case Get(_) => (e, Bulk(if e.Some? then Some(e.value.value) else None))
    case Del(_) => (None, Integer(if e.Some? then 1 else 0))
    case Exists(_) => (e, Integer(if e.Some? then 1 else 0))
    case Expire(_, seconds) =>
      if e.Some? && seconds > 0 then (Some(e.value.(deadline := Some(now + seconds as real))), Integer(1))
      else (e, Integer(0))
    case Ttl(_) =>
      (e, Integer(if e.None? then -2 else if e.value.deadline.None? then -1 else (e.value.deadline.value - now).Floor))
  }

  // ---------- laws ----------

  /** A command raises exactly when it evicts a deadline that has no key. */
  lemma RaisesExactlyOnDanglingDeadline(s: Store, op: Op, now: Time)
    ensures LazyStep(s, op, now).1.Failure? <==> !op.Set? && Lapsed(s, op.key, now) && op.key !in s.data
  {
  }

  /** Tidy stores never raise and stay tidy. */
  lemma StepKeepsTidy(s: Store, op: Op, now: Time)
    requires Tidy(s)
    ensures LazyStep(s, op, now).1.Success? && Tidy(LazyStep(s, op, now).0)
  {
  }

  /** Tidy stores with the same entries are equal. */
  lemma SameEntriesSameStore(s: Store, t: Store)
    requires Tidy(s) && Tidy(t)
    requires forall k :: At(s, k) == At(t, k)
    ensures s == t
  {
    assert forall k :: k in s.data <==> At(s, k).Some?;
    assert forall k :: k in t.data <==> At(t, k).Some?;
    assert forall k :: k in s.data ==> s.data[k] == At(s, k).value.value;
    assert forall k :: k in t.data ==> t.data[k] == At(t, k).value.value;
    assert forall k :: k in s.expires ==> At(s, k).value.deadline == Some(s.expires[k]);
    assert forall k :: k in t.expires ==> At(t, k).value.deadline == Some(t.expires[k]);
  }

  /** A command on a tidy store answers from, and changes, only what is visible of its key. */
  lemma StepActsOnItsKey(s: Store, op: Op, now: Time)
    requires Tidy(s)
    ensures var (t, reply) := LazyStep(s, op, now);
            var (after, expected) := KeyStep(Visible(s, op.key, now), op, now);
            Tidy(t) && reply == Success(expected) && Visible(t, op.key, now) == after &&
            forall k :: k != op.key ==> At(t, k) == At(s, k)
  {
  }

  /** SET with an expiry: the key shows the value until then, or nothing at all if it is not positive. */
  lemma SetPairShows(s: Store, k: Key, v: Value, ex: Option<int>, now: Time)
    ensures var t := SetPair(s, k, v, ex, now);
            At(t, k) == (if ex.None? then Some(Entry(v, None))
                         else if ex.value > 0 then Some(Entry(v, Some(now + ex.value as real))) else None) &&
            (Tidy(s) ==> Tidy(t)) && forall other :: other != k ==> At(t, other) == At(s, other)
  {
  }

  /** The deadline that is reported for a key is the one a client sees. */
  lemma ExpireAtReportsTheVisible(s: Store, k: Key, now: Time)
    requires Tidy(s)
    ensures var (t, at) := ExpireAt(s, k, now, now);
            at == Success(if Visible(s, k, now).Some? then Visible(s, k, now).value.deadline else None) &&
            Tidy(t) && forall other :: Visible(t, other, now) == Visible(s, other, now)
  {
  }

  /**
   EXPIRE and TTL with the clock moving inside them: the deadline counts from the second reading, and
   TTL answers by the second reading, with 0 for a deadline less than a second past and -2, forgetting
   the deadline, for one further past.
   */
  lemma SecondReadingDecides(s: Store, k: Key, seconds: int, now: Time, later: Time)
    requires Tidy(s) && now <= later && seconds > 0 && Visible(s, k, now).Some?
    ensures var entry := Visible(s, k, now).value;
            At(ExpireIn(s, k, seconds, now, later).0, k) == Some(entry.(deadline := Some(later + seconds as real))) &&
            (entry.deadline.None? ==> TimeToLive(s, k, now, later) == (s, Success(-1))) &&
            (entry.deadline.Some? ==>
              var left := entry.deadline.value - later;
              if left > -1.0 then
                TimeToLive(s, k, now, later) == (s, Success(if left > 0.0 then left.Floor else 0))
              else
                TimeToLive(s, k, now, later).1 == Success(-2) &&
                At(TimeToLive(s, k, now, later).0, k) == Some(entry.(deadline := None)))
  {
  }
}
