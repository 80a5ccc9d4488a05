/**
 The data directory: the snapshot file and the log file, as typed values. Every change of a file is
 one atomic step, and the volume remembers all states it went through, since a crash may leave
 any of them behind.
 */
module Files {
  import opened Wrappers
  import opened Stores

  datatype LogEntry =
    | LogSet(key: Key, value: Value)
    | LogDel(key: Key)
    | LogExpire(key: Key, at: Time)

  datatype Disk = Disk(rdb: Option<Store>, aof: Option<seq<LogEntry>>)

  /** Moving a finished temporary file over the snapshot. */
  function SaveImage(d: Disk, image: Store): Disk {
    d.(rdb := Some(image))
  }

  /** Deleting the log. */
  function ResetLog(d: Disk): Disk {
    d.(aof := None)
  }

  /** Writing one record at the end of the log; opening for append creates it. */
  function AppendTo(d: Disk, e: LogEntry): Disk {
    d.(aof := Some((if d.aof.None? then [] else d.aof.value) + [e]))
  }

  /** An appended record always shows. */
  lemma AppendingChanges(d: Disk)
    ensures forall e :: AppendTo(d, e) != d
  {
    forall e ensures AppendTo(d, e) != d {
      if d.aof.Some? {
        assert |AppendTo(d, e).aof.value| == |d.aof.value| + 1;
      }
    }
  }

  class Volume {
    var disk: Disk
    /** The states of the disk so far, after each change of a file. */
    ghost var History: seq<Disk>

    constructor (disk: Disk)
      ensures this.disk == disk && History == []
    {
      this.disk := disk;
      History := [];
    }

    method ReplaceSnapshot(image: Store)
      modifies this
      ensures disk == SaveImage(old(disk), image)
      ensures History == old(History) + [disk]
    {
      disk := disk.(rdb := Some(image));
      History := History + [disk];
    }

    method RemoveLog()
      modifies this
      ensures disk == ResetLog(old(disk))
      ensures History == old(History) + [disk]
    {
      disk := disk.(aof := None);
      History := History + [disk];
    }

    method AppendRecord(e: LogEntry)
      modifies this
      ensures disk == AppendTo(old(disk), e)
      ensures History == old(History) + [disk]
    {
      var log := if disk.aof.None? then [] else disk.aof.value;
      disk := disk.(aof := Some(log + [e]));
      History := History + [disk];
    }
  }
}
