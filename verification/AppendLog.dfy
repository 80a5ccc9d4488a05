/**
 The append-only log of src/persistence/aof.py and its meaning: what replaying it does to a base
 state.
 */
module AppendLog {
  import opened Wrappers
  import opened Stores
  import opened Files

  /** One record applied to the two dicts. */
  function Apply(s: Store, e: LogEntry): Store {
    match e
    case LogSet(k, v) => Store(s.data[k := v], s.expires - {k})
    case LogDel(k) => Store(s.data - {k}, s.expires - {k})
    case LogExpire(k, at) => if k in s.data then s.(expires := s.expires[k := at]) else s
  }

  function ApplyAll(s: Store, log: seq<LogEntry>): Store {
    if log == [] then s else Apply(ApplyAll(s, log[..|log| - 1]), log[|log| - 1])
  }

  /** The base without deadlines of unknown keys. */
  function Trim(base: Store): Store {
    Store(base.data, map k | k in base.expires && k in base.data :: base.expires[k])
  }

  /** Replaying a log file, which may not exist. */
  function Replay(base: Store, file: Option<seq<LogEntry>>): Store {
    if file.None? then base else ApplyAll(Trim(base), file.value)
  }

  class AofPersistence {
    const volume: Volume

    constructor (volume: Volume)
      ensures this.volume == volume
    {
      this.volume := volume;
    }

    method Append(e: LogEntry)
      modifies volume
      ensures volume.disk == AppendTo(old(volume.disk), e)
      ensures volume.History == old(volume.History) + [volume.disk]
    {
      volume.AppendRecord(e);
    }

    method Reset()
      modifies volume
      ensures volume.disk == ResetLog(old(volume.disk))
      ensures volume.History == old(volume.History) + if old(volume.disk).aof.None? then [] else [volume.disk]
    {
      if volume.disk.aof.Some? {
        volume.RemoveLog();
      }
    }

    /** Read the file record by record into the two dicts. */
    method ReplayOver(baseData: map<Key, Value>, baseExpires: map<Key, Time>)
      returns (data: map<Key, Value>, expires: map<Key, Time>)
      ensures Store(data, expires) == Replay(Store(baseData, baseExpires), volume.disk.aof)
    {
      data, expires := baseData, baseExpires;
      if volume.disk.aof.None? {
        return;
      }
      expires := map k | k in baseExpires && k in data :: baseExpires[k];
      var log := volume.disk.aof.value;
      for i := 0 to |log|
        invariant Store(data, expires) == ApplyAll(Trim(Store(baseData, baseExpires)), log[..i])
      {
        assert log[..i + 1][..i] == log[..i];
        match log[i] {
          case LogSet(key, value) =>
            data := data[key := value];
            expires := expires - {key};
          case LogDel(key) =>
            data := data - {key};
            expires := expires - {key};
          case LogExpire(key, at) =>
            if key in data {
              expires := expires[key := at];
            }
        }
      }
      assert log[..|log|] == log;
    }
  }
}
