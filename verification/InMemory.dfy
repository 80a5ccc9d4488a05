/**
 The store object of src/storage/in_memory.py: a hash table of values and a deadline table,
 both changed in place. Every method is proved to be its function in module Stores.
 */
module InMemory {
  import opened Wrappers
  import opened HashTables
  import opened Stores
  import opened Expiration
  import opened ClockReadings

  class InMemoryStore {
    const data: HashTable<Key, Value>
    const expiration: ExpirationManager

    ghost function Footprint(): set<object>
      reads data
    {
      {data, data.buckets, expiration}
    }

    ghost predicate Valid()
      reads Footprint()
    {
      data.Valid()
    }

    /** The two tables as one value. */
    ghost function State(): Store
      reads data, expiration
    {
      Store(data.Contents, expiration.expiresAt)
    }

    constructor (hash: Key -> int)
      ensures Valid() && fresh(Footprint())
      ensures State() == EMPTY
    {
      data := new HashTable(hash);
      expiration := new ExpirationManager();
    }

    method EvictIfExpired(key: Key, now: Time) returns (r: Result<bool, KeyError>)
      requires Valid()
      modifies Footprint()
      ensures Valid() && fresh(Footprint() - old(Footprint()))
      ensures (State(), r) == Evict(old(State()), key, now)
    {
      hide HashTable.Valid;
      var expired := expiration.IsExpired(key, now);
      if !expired {
        return Success(false);
      }
      var popped := data.Pop(key, None);
      r := if popped.Success? then Success(true) else Failure(popped.error);
    }

    method SetPair(key: Key, value: Value, ex: Option<int>, now: Time)
      requires Valid()
      modifies Footprint()
      ensures Valid() && fresh(Footprint() - old(Footprint()))
      ensures State() == Stores.SetPair(old(State()), key, value, ex, now)
    {
      hide HashTable.Valid;
      data.SetItem(key, value);
      var _ := expiration.Persist(key);
      if ex.Some? {
        if ex.value <= 0 {
          var _ := data.Pop(key, None);
          expiration.Delete(key);
          return;
        }
        var _ := expiration.SetExpire(key, ex.value, now);
      }
    }

    method GetValue(key: Key, now: Time) returns (r: Result<Option<Value>, KeyError>)
      requires Valid()
      modifies Footprint()
      ensures Valid() && fresh(Footprint() - old(Footprint()))
      ensures (State(), r) == Stores.GetValue(old(State()), key, now)
    {
      hide HashTable.Valid;
      var evicted := EvictIfExpired(key, now);
      if evicted.Failure? {
        return Failure(evicted.error);
      }
      var value := data.Get(key);
      r := Success(value);
    }

    method Remove(key: Key, now: Time) returns (r: Result<int, KeyError>)
      requires Valid()
      modifies Footprint()
      ensures Valid() && fresh(Footprint() - old(Footprint()))
      ensures (State(), r) == Stores.Remove(old(State()), key, now)
    {
      hide HashTable.Valid;
      var evicted := EvictIfExpired(key, now);
      if evicted.Failure? {
        return Failure(evicted.error);
      }
      var present := data.Contains(key);
      if !present {
        expiration.Delete(key);
        return Success(0);
      }
      var _ := data.DelItem(key);
      expiration.Delete(key);
      r := Success(1);
    }

    method HasKey(key: Key, now: Time) returns (r: Result<int, KeyError>)
      requires Valid()
      modifies Footprint()
      ensures Valid() && fresh(Footprint() - old(Footprint()))
      ensures (State(), r) == Stores.HasKey(old(State()), key, now)
    {
      hide HashTable.Valid;
      var evicted := EvictIfExpired(key, now);
      if evicted.Failure? {
        return Failure(evicted.error);
      }
      var present := data.Contains(key);
      r := Success(if present then 1 else 0);
    }

    /** The clock is read for the eviction, and again for the new deadline. */
    method ExpireIn(key: Key, seconds: int, now: Time, later: Time) returns (r: Result<int, KeyError>)
      requires Valid()
      modifies Footprint()
      ensures Valid() && fresh(Footprint() - old(Footprint()))
      ensures (State(), r) == Stores.ExpireIn(old(State()), key, seconds, now, later)
    {
      hide HashTable.Valid;
      var evicted := EvictIfExpired(key, now);
      if evicted.Failure? {
        return Failure(evicted.error);
      }
      var present := data.Contains(key);
      if !present {
        return Success(0);
      }
      var done := expiration.SetExpire(key, seconds, later);
      r := Success(if done then 1 else 0);
    }

    /** The clock is read for the eviction, and again for the time left. */
    method TimeToLive(key: Key, now: Time, later: Time) returns (r: Result<int, KeyError>)
      requires Valid()
      modifies Footprint()
      ensures Valid() && fresh(Footprint() - old(Footprint()))
      ensures (State(), r) == Stores.TimeToLive(old(State()), key, now, later)
    {
      hide HashTable.Valid;
      var evicted := EvictIfExpired(key, now);
      if evicted.Failure? {
        return Failure(evicted.error);
      }
      if evicted.value {
        return Success(-2);
      }
      var present := data.Contains(key);
      var left := expiration.TtlOf(key, present, later);
      r := Success(left);
    }

    /** The clock is read for the eviction, and again for the deadline. */
    method GetExpireAt(key: Key, now: Time, later: Time) returns (r: Result<Option<Time>, KeyError>)
      requires Valid()
      modifies Footprint()
      ensures Valid() && fresh(Footprint() - old(Footprint()))
      ensures (State(), r) == ExpireAt(old(State()), key, now, later)
    {
      hide HashTable.Valid;
      var evicted := EvictIfExpired(key, now);
      if evicted.Failure? {
        return Failure(evicted.error);
      }
      var at := expiration.GetExpireAt(key, later);
      r := Success(at);
    }

    /** Visit these keys, with a reading of the clock for each. */
    method EvictKeys(keys: seq<Key>, clock: nat -> Time, first: nat)
      requires Valid()
      modifies Footprint()
      ensures Valid() && fresh(Footprint() - old(Footprint()))
      ensures State() == SweptOver(old(State()), keys, clock, first)
    {
      hide HashTable.Valid, Evict, SweptOver;
      ghost var before := State();
      NoneSwept(before, clock, first);
      assert keys[..0] == [];
      for i := 0 to |keys|
        invariant Valid() && fresh(Footprint() - old(Footprint()))
        invariant State() == SweptOver(before, keys[..i], clock, first)
      {
        SweptOverNext(before, keys, i, clock, first);
        var _ := EvictIfExpired(keys[i], clock(first + i));
      }
      assert keys[..|keys|] == keys;
    }

    /** Visit every key that was stored when the sweep began. */
    method EvictAll(clock: nat -> Time, first: nat) returns (ghost visited: seq<Key>)
      requires Valid()
      modifies Footprint()
      ensures Valid() && fresh(Footprint() - old(Footprint()))
      ensures Visits(visited, old(State()).data)
      ensures State() == SweptOver(old(State()), visited, clock, first)
    {
      hide HashTable.Valid, SweptOver;
      var keys := data.Keys();
      visited := keys;
      assert Visits(visited, State().data);
      EvictKeys(keys, clock, first);
    }

    /** Sweep all keys, then list the deadlines, with one more reading for the list. */
    method Snapshot(clock: nat -> Time)
      returns (values: map<Key, Value>, deadlines: map<Key, Time>, ghost visited: seq<Key>)
      requires Valid()
      modifies Footprint()
      ensures Valid() && fresh(Footprint() - old(Footprint()))
      ensures Visits(visited, old(State()).data)
      ensures State() == SweptOver(old(State()), visited, clock, 0)
      ensures Store(values, deadlines) == SlowImage(old(State()), visited, clock)
    {
      hide SweptOver, Represents;
      var count := data.Size();
      visited := EvictAll(clock, 0);
      VisitsAll(visited, old(State()).data);
      var entries := data.Items();
      values := ToDict(entries);
      deadlines := expiration.Snapshot(clock(count));
    }

    static method ToDict(entries: seq<(Key, Value)>) returns (values: map<Key, Value>)
      ensures values == Merge(map[], entries)
    {
      values := map[];
      for i := 0 to |entries|
        invariant values == Merge(map[], entries[..i])
      {
        assert entries[..i + 1] == entries[..i] + [entries[i]];
        MergeSnoc(map[], entries[..i], entries[i]);
        values := values[entries[i].0 := entries[i].1];
      }
      assert entries[..|entries|] == entries;
    }

    /** Replace both tables, the deadlines by one reading, and then sweep with a reading for each key. */
    method LoadAll(values: map<Key, Value>, deadlines: map<Key, Time>, clock: nat -> Time)
      returns (ghost visited: seq<Key>)
      requires Valid()
      modifies Footprint()
      ensures Valid() && fresh(Footprint() - old(Footprint()))
      ensures Visits(visited, values)
      ensures State() == SlowLoad(Store(values, deadlines), visited, clock)
    {
      hide HashTable.Valid, SweptOver;
      data.Clear();
      data.UpdateDict(values);
      assert map[] + values == values;
      expiration.LoadAll(deadlines, clock(0));
      visited := EvictAll(clock, 1);
    }
  }
}
