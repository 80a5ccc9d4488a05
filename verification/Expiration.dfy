/** The deadline table of src/storage/expiration.py. Each call is given its clock reading. */
module Expiration {
  import opened Wrappers
  import opened Stores

  class ExpirationManager {
    var expiresAt: map<Key, Time>

    constructor ()
      ensures expiresAt == map[]
    {
      expiresAt := map[];
    }

    method SetExpire(key: Key, seconds: int, now: Time) returns (done: bool)
      modifies this
      ensures done <==> seconds > 0
      ensures expiresAt == if seconds > 0 then old(expiresAt)[key := now + seconds as real] else old(expiresAt)
    {
      if seconds <= 0 {
        return false;
      }
      expiresAt := expiresAt[key := now + seconds as real];
      done := true;
    }

    method Persist(key: Key) returns (had: bool)
      modifies this
      ensures had <==> key in old(expiresAt)
      ensures expiresAt == old(expiresAt) - {key}
    {
      had := key in expiresAt;
      expiresAt := expiresAt - {key};
    }

    method Delete(key: Key)
      modifies this
      ensures expiresAt == old(expiresAt) - {key}
    {
      expiresAt := expiresAt - {key};
    }

    /** A lapsed deadline is reported once: it is removed when it is seen. */
    method IsExpired(key: Key, now: Time) returns (expired: bool)
      modifies this
      ensures expired <==> key in old(expiresAt) && old(expiresAt)[key] <= now
      ensures expiresAt == if expired then old(expiresAt) - {key} else old(expiresAt)
    {
      if key !in expiresAt || expiresAt[key] > now {
        return false;
      }
      expiresAt := expiresAt - {key};
      expired := true;
    }

    /** Seconds left; a deadline more than a second past is dropped on the way. */
    method TtlOf(key: Key, keyExists: bool, now: Time) returns (r: int)
      modifies this
      ensures !keyExists ==> r == -2
      ensures keyExists && key !in old(expiresAt) ==> r == -1
      ensures keyExists && key in old(expiresAt) ==>
                r == if old(expiresAt)[key] - now > -1.0 then Truncate(old(expiresAt)[key] - now) else -2
      ensures keyExists && key in old(expiresAt) && old(expiresAt)[key] - now <= -1.0 ==>
                expiresAt == old(expiresAt) - {key}
      ensures !keyExists || key !in old(expiresAt) || old(expiresAt)[key] - now > -1.0 ==> expiresAt == old(expiresAt)
    {
      if !keyExists {
        return -2;
      }
      if key !in expiresAt {
        return -1;
      }
      var remaining := Truncate(expiresAt[key] - now);
      if remaining >= 0 {
        return remaining;
      }
      expiresAt := expiresAt - {key};
      r := -2;
    }

    method Snapshot(now: Time) returns (ahead: map<Key, Time>)
      ensures ahead == Ahead(expiresAt, now)
    {
      ahead := map k | k in expiresAt && expiresAt[k] > now :: expiresAt[k];
    }

    method LoadAll(deadlines: map<Key, Time>, now: Time)
      modifies this
      ensures expiresAt == Ahead(deadlines, now)
    {
      expiresAt := map k | k in deadlines && deadlines[k] > now :: deadlines[k];
    }

    method GetExpireAt(key: Key, now: Time) returns (r: Option<Time>)
      modifies this
      ensures r == if key in old(expiresAt) && old(expiresAt)[key] > now then Some(old(expiresAt)[key]) else None
      ensures expiresAt ==
              if key in old(expiresAt) && old(expiresAt)[key] <= now then old(expiresAt) - {key} else old(expiresAt)
    {
      var expired := IsExpired(key, now);
      if expired {
        return None;
      }
      r := if key in expiresAt then Some(expiresAt[key]) else None;
    }
  }
}
