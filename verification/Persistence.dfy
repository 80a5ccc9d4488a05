/**
 The snapshot and the manager of both files: src/persistence/rdb.py and
 src/persistence/manager.py. Saving replaces the snapshot atomically and then removes the
 log; a crash may fall between the two.
 */
module Persistence {
  import opened Wrappers
  import opened HashTables
  import opened Stores
  import opened InMemory
  import opened ClockReadings
  import opened Files
  import opened AppendLog

  /** What the snapshot file stands for; a missing file is an empty store. */
  function LoadRdb(d: Disk): Store {
    if d.rdb.None? then EMPTY else d.rdb.value
  }

  /** The state that a restart would rebuild from the files. */
  function Recover(d: Disk): Store {
    Replay(LoadRdb(d), d.aof)
  }

  class RdbPersistence {
    const volume: Volume

    constructor (volume: Volume)
      ensures this.volume == volume
    {
      this.volume := volume;
    }

    /** Write a temporary file and move it over the old one: one atomic replacement. */
    method Save(data: map<Key, Value>, expires: map<Key, Time>)
      modifies volume
      ensures volume.disk == SaveImage(old(volume.disk), Store(data, expires))
      ensures volume.History == old(volume.History) + [volume.disk]
    {
      volume.ReplaceSnapshot(Store(data, expires));
    }

    method LoadFile() returns (data: map<Key, Value>, expires: map<Key, Time>)
      ensures Store(data, expires) == LoadRdb(volume.disk)
    {
      if volume.disk.rdb.None? {
        return map[], map[];
      }
      data, expires := volume.disk.rdb.value.data, volume.disk.rdb.value.expires;
    }
  }

  /** The disk states of a save: the new snapshot, and then no log, if there was one to delete. */
  function SaveTrace(d: Disk, image: Store): seq<Disk> {
    [SaveImage(d, image)] + if d.aof.None? then [] else [ResetLog(SaveImage(d, image))]
  }

  /** The write commands that the dispatcher reports. */
  datatype Write = WriteSet(key: Key, value: Value) | WriteDel(key: Key) | WriteExpire(key: Key)

  /**
   Recording a write; EXPIRE is recorded with the absolute deadline that the store now holds, for
   which the clock is read twice.
   */
  function Record(s: Store, d: Disk, w: Write, now: Time, later: Time): (Store, Disk, Result<(), KeyError>) {
    match w
    case WriteSet(k, v) => (s, AppendTo(d, LogSet(k, v)), Success(()))
    case WriteDel(k) => (s, AppendTo(d, LogDel(k)), Success(()))
    case WriteExpire(k) =>
      var (t, at) := ExpireAt(s, k, now, later);
      if at.Failure? then (t, d, Failure(at.error))
      else if at.value.None? then (t, d, Success(()))
      else (t, AppendTo(d, LogExpire(k, at.value.value)), Success(()))
  }

  /**
   The four readings of one EXPIRE. It is recorded, with its deadline, exactly when the last reading
   has not passed the deadline. If the third has, the key is dropped; if only the last has, memory
   keeps the key and forgets the deadline.
   */
  lemma ExpireIsRecordedIff(s: Store, d: Disk, k: Key, seconds: int,
                            first: Time, second: Time, third: Time, fourth: Time)
    requires first <= second <= third <= fourth
    requires ExpireIn(s, k, seconds, first, second).1 == Success(1)
    ensures var t := ExpireIn(s, k, seconds, first, second).0;
            var deadline := second + seconds as real;
            Record(t, d, WriteExpire(k), third, fourth) ==
            if fourth < deadline then (t, AppendTo(d, LogExpire(k, deadline)), Success(()))
            else if third < deadline then (t.(expires := t.expires - {k}), d, Success(()))
            else (Store(t.data - {k}, t.expires - {k}), d, Success(()))
  {
    hide AppendTo;
  }

  class PersistenceManager {
    const storage: InMemoryStore
    const volume: Volume
    const rdb: RdbPersistence
    const aof: AofPersistence

    ghost function Footprint(): set<object>
      reads storage.data
    {
      storage.Footprint() + {volume}
    }

    ghost predicate Valid()
      reads Footprint()
    {
      storage.Valid() && rdb.volume == volume && aof.volume == volume
    }

    constructor (storage: InMemoryStore, volume: Volume)
      requires storage.Valid()
      ensures Valid() && this.storage == storage && this.volume == volume
    {
      this.storage := storage;
      this.volume := volume;
      rdb := new RdbPersistence(volume);
      aof := new AofPersistence(volume);
    }

    /** The clock is read as load() of the store reads it. */
    method Restore(clock: nat -> Time) returns (ghost visited: seq<Key>)
      requires Valid()
      modifies storage.Footprint()
      ensures Valid() && fresh(Footprint() - old(Footprint()))
      ensures Visits(visited, Recover(volume.disk).data)
      ensures storage.State() == SlowLoad(Recover(volume.disk), visited, clock)
    {
      hide SlowLoad, Replay, HashTable.Valid;
      var data, expires := rdb.LoadFile();
      data, expires := aof.ReplayOver(data, expires);
      visited := storage.LoadAll(data, expires, clock);
    }

    /** First replace the snapshot, then drop the log. The clock is read as snapshot() of the store reads it. */
    method Snapshot(clock: nat -> Time) returns (ghost visited: seq<Key>)
      requires Valid()
      modifies Footprint()
      ensures Valid() && fresh(Footprint() - old(Footprint()))
      ensures Visits(visited, old(storage.State()).data)
      ensures storage.State() == SweptOver(old(storage.State()), visited, clock, 0)
      ensures var image := SlowImage(old(storage.State()), visited, clock);
              volume.disk == ResetLog(SaveImage(old(volume.disk), image)) &&
              volume.History == old(volume.History) + SaveTrace(old(volume.disk), image)
    {
      hide SweptOver, SlowImage, Visits, HashTable.Valid;
      var data, expires, keys := storage.Snapshot(clock);
      visited := keys;
      rdb.Save(data, expires);
      aof.Reset();
    }

    method RecordWrite(w: Write, now: Time, later: Time) returns (r: Result<(), KeyError>)
      requires Valid()
      modifies Footprint()
      ensures Valid() && fresh(Footprint() - old(Footprint()))
      ensures (storage.State(), volume.disk, r) == Record(old(storage.State()), old(volume.disk), w, now, later)
      ensures volume.History == old(volume.History) + if volume.disk == old(volume.disk) then [] else [volume.disk]
    {
      hide ExpireAt, AppendTo, HashTable.Valid;
      r := Success(());
      match w {
        case WriteSet(key, value) =>
          aof.Append(LogSet(key, value));
        case WriteDel(key) =>
          aof.Append(LogDel(key));
        case WriteExpire(key) =>
          var at := storage.GetExpireAt(key, now, later);
          if at.Failure? {
            return Failure(at.error);
          }
          if at.value.None? {
            return;
          }
          aof.Append(LogExpire(key, at.value.value));
      }
      AppendingChanges(old(volume.disk));
    }
  }
}
