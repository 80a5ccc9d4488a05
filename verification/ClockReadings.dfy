/**
 Loops that read the clock once for every key: the sweep inside snapshot() and load(). The i-th key
 visited is judged by the i-th reading. The laws say what a moving clock does to an image, exactly.
 */
module ClockReadings {
  import opened Wrappers
  import opened Stores

  /** Each stored key is visited once, in any order. */
  ghost predicate Visits(keys: seq<Key>, data: map<Key, Value>) {
    && (forall i, j :: 0 <= i < j < |keys| ==> keys[i] != keys[j])
    && (forall k :: k in keys <==> k in data)
  }

  lemma {:induction false} VisitsAll(keys: seq<Key>, data: map<Key, Value>)
    requires Visits(keys, data)
    ensures |keys| == |data|
    decreases |keys|
  {
    if keys == [] {
      assert data == map[];
    } else {
      var n := |keys| - 1;
      var k, rest := keys[n], data - {keys[n]};
      forall other ensures other in keys[..n] <==> other in rest {
        assert other in rest <==> other in keys && other != k;
      }
      VisitsAll(keys[..n], rest);
      assert data.Keys == rest.Keys + {k};
    }
  }

  lemma {:induction false} SomeVisit(data: map<Key, Value>) returns (keys: seq<Key>)
    ensures Visits(keys, data)
    decreases data.Keys
  {
    if data.Keys == {} {
      keys := [];
    } else {
      var k :| k in data.Keys;
      var rest := data - {k};
      var others := SomeVisit(rest);
      keys := others + [k];
      forall other ensures other in keys <==> other in data {
        assert other in rest <==> other in data && other != k;
      }
    }
  }

  /** The readings do not go back. */
  ghost predicate Forward(clock: nat -> Time) {
    forall i, j :: i <= j ==> clock(i) <= clock(j)
  }

  /** The store after these keys have been visited, the first of them at reading first. */
  function SweptOver(s: Store, keys: seq<Key>, clock: nat -> Time, first: nat): Store {
    if keys == [] then s
    else
      var n := |keys| - 1;
      Evict(SweptOver(s, keys[..n], clock, first), keys[n], clock(first + n)).0
  }

  lemma NoneSwept(s: Store, clock: nat -> Time, first: nat)
    ensures SweptOver(s, [], clock, first) == s
  {
  }

  lemma SweptOverNext(s: Store, keys: seq<Key>, i: nat, clock: nat -> Time, first: nat)
    requires i < |keys|
    ensures Evict(SweptOver(s, keys[..i], clock, first), keys[i], clock(first + i)).0
            == SweptOver(s, keys[..i + 1], clock, first)
  {
    assert keys[..i + 1][..i] == keys[..i];
  }

  /** What snapshot() returns: one reading for each key and one more for the list of deadlines. */
  function SlowImage(s: Store, keys: seq<Key>, clock: nat -> Time): Store {
    var swept := SweptOver(s, keys, clock, 0);
    Store(swept.data, Ahead(swept.expires, clock(|keys|)))
  }

  /** The store after load(): one reading for the list of deadlines and one for each key. */
  function SlowLoad(image: Store, keys: seq<Key>, clock: nat -> Time): Store {
    SweptOver(Load(image, clock(0)), keys, clock, 1)
  }

  // ---------- a sweep, key by key ----------

  /** Both table entries of a key. */
  function Row(s: Store, k: Key): (Option<Value>, Option<Time>) {
    (if k in s.data then Some(s.data[k]) else None, if k in s.expires then Some(s.expires[k]) else None)
  }

  lemma SameRowsSameStore(s: Store, t: Store)
    requires forall k :: Row(s, k) == Row(t, k)
    ensures s == t
  {
    assert forall k :: k in s.data <==> Row(s, k).0.Some?;
    assert forall k :: k in t.data <==> Row(t, k).0.Some?;
    assert forall k :: k in s.data ==> Row(s, k).0 == Some(s.data[k]) && Row(t, k).0 == Some(t.data[k]);
    assert forall k :: k in s.expires <==> Row(s, k).1.Some?;
    assert forall k :: k in t.expires <==> Row(t, k).1.Some?;
    assert forall k :: k in s.expires ==> Row(s, k).1 == Some(s.expires[k]) && Row(t, k).1 == Some(t.expires[k]);
  }

  lemma EvictRow(s: Store, key: Key, now: Time, k: Key)
    ensures Row(Evict(s, key, now).0, k) == if k == key && Lapsed(s, key, now) then (None, None) else Row(s, k)
  {
  }

  lemma {:induction false} UnvisitedStay(s: Store, keys: seq<Key>, clock: nat -> Time, first: nat, k: Key)
    requires k !in keys
    ensures Row(SweptOver(s, keys, clock, first), k) == Row(s, k)
  {
    if keys != [] {
      hide Row, Evict;
      var n := |keys| - 1;
      UnvisitedStay(s, keys[..n], clock, first, k);
      EvictRow(SweptOver(s, keys[..n], clock, first), keys[n], clock(first + n), k);
    }
  }

  lemma SameRowSameVerdict(s: Store, t: Store, k: Key, now: Time)
    requires Row(s, k) == Row(t, k)
    ensures Lapsed(s, k, now) == Lapsed(t, k, now)
  {
  }

  /** A visited key is dropped exactly when it has lapsed at its own reading. */
  lemma {:induction false} VisitedAreJudged(s: Store, keys: seq<Key>, clock: nat -> Time, first: nat, i: nat)
    requires i < |keys| && forall a, b :: 0 <= a < b < |keys| ==> keys[a] != keys[b]
    ensures Row(SweptOver(s, keys, clock, first), keys[i])
            == if Lapsed(s, keys[i], clock(first + i)) then (None, None) else Row(s, keys[i])
  {
    hide Row, Evict, Lapsed;
    var n := |keys| - 1;
    var before := SweptOver(s, keys[..n], clock, first);
    EvictRow(before, keys[n], clock(first + n), keys[i]);
    if i == n {
      UnvisitedStay(s, keys[..n], clock, first, keys[n]);
      SameRowSameVerdict(before, s, keys[n], clock(first + n));
    } else {
      VisitedAreJudged(s, keys[..n], clock, first, i);
    }
  }

  // ---------- the exact laws ----------

  /** With one reading for all keys the loops are the single-reading functions. */
  lemma SweepAtOneReading(s: Store, keys: seq<Key>, clock: nat -> Time, first: nat, now: Time)
    requires Visits(keys, s.data) && forall i :: clock(i) == now
    ensures SweptOver(s, keys, clock, first) == Sweep(s, now)
  {
    var t := SweptOver(s, keys, clock, first);
    forall k ensures Row(t, k) == Row(Sweep(s, now), k) {
      if k in keys {
        var i :| 0 <= i < |keys| && keys[i] == k;
        VisitedAreJudged(s, keys, clock, first, i);
      } else {
        UnvisitedStay(s, keys, clock, first, k);
      }
    }
    SameRowsSameStore(t, Sweep(s, now));
  }

  lemma ImageAtOneReading(s: Store, keys: seq<Key>, clock: nat -> Time, now: Time)
    requires Visits(keys, s.data) && forall i :: clock(i) == now
    ensures SlowImage(s, keys, clock) == Image(s, now)
  {
    SweepAtOneReading(s, keys, clock, 0, now);
  }

  lemma LoadAtOneReading(image: Store, keys: seq<Key>, clock: nat -> Time, now: Time)
    requires Visits(keys, image.data) && forall i :: clock(i) == now
    ensures SlowLoad(image, keys, clock) == Load(image, now)
  {
    SweepAtOneReading(Load(image, now), keys, clock, 1, now);
    assert Sweep(Load(image, now), now) == Load(image, now);
  }

  lemma ImageAtKey(s: Store, keys: seq<Key>, clock: nat -> Time, i: nat)
    requires Tidy(s) && Visits(keys, s.data) && Forward(clock) && i < |keys|
    ensures var k := keys[i];
            At(SlowImage(s, keys, clock), k) ==
            if LapsedSince(s, k, clock(i), clock(|keys|)) then Some(Entry(s.data[k], None))
            else Visible(s, k, clock(|keys|))
  {
    VisitedAreJudged(s, keys, clock, 0, i);
    var k, swept := keys[i], SweptOver(s, keys, clock, 0);
    assert Row(swept, k) == if Lapsed(s, k, clock(i)) then (None, None) else Row(s, k);
    assert k in s.data && clock(i) <= clock(|keys|);
    RowInTables(swept, k);
    RowInTables(s, k);
  }

  lemma RowInTables(s: Store, k: Key)
    ensures k in s.data <==> Row(s, k).0.Some?
    ensures k in s.data ==> Row(s, k).0.value == s.data[k]
    ensures k in s.expires <==> Row(s, k).1.Some?
    ensures k in s.expires ==> Row(s, k).1.value == s.expires[k]
  {
  }

  /**
   A snapshot is right, as of its last reading, exactly when no deadline falls between the reading for
   its key and the last one; a key whose deadline does is saved without it.
   */
  lemma SlowImageIsRightIff(s: Store, keys: seq<Key>, clock: nat -> Time)
    requires Tidy(s) && Visits(keys, s.data) && Forward(clock)
    ensures (forall k :: At(SlowImage(s, keys, clock), k) == Visible(s, k, clock(|keys|))) <==>
            (forall i :: 0 <= i < |keys| ==> !LapsedSince(s, keys[i], clock(i), clock(|keys|)))
  {
    var image, last := SlowImage(s, keys, clock), clock(|keys|);
    forall i | 0 <= i < |keys|
      ensures At(image, keys[i]) == Visible(s, keys[i], last) <==> !LapsedSince(s, keys[i], clock(i), last)
    {
      ImageAtKey(s, keys, clock, i);
    }
    forall k | k !in keys ensures At(image, k) == None && Visible(s, k, last) == None {
      UnvisitedStay(s, keys, clock, 0, k);
      RowInTables(SweptOver(s, keys, clock, 0), k);
      RowInTables(s, k);
    }
    hide At, Visible, LapsedSince, SlowImage;
    if forall i :: 0 <= i < |keys| ==> !LapsedSince(s, keys[i], clock(i), last) {
      forall k ensures At(image, k) == Visible(s, k, last) {
        if k in keys {
          var i :| 0 <= i < |keys| && keys[i] == k;
        }
      }
    }
  }

  /**
   What load() makes of a key: a deadline that has come at the first reading is forgotten and the key
   stays for good; one that comes before the reading for its key takes the key with it.
   */
  lemma SlowLoadAtKey(image: Store, keys: seq<Key>, clock: nat -> Time, i: nat)
    requires Visits(keys, image.data) && i < |keys|
    ensures var k := keys[i];
            At(SlowLoad(image, keys, clock), k) ==
            if Lapsed(image, k, clock(0)) then Some(Entry(image.data[k], None))
            else if Lapsed(image, k, clock(1 + i)) then None
            else At(image, k)
  {
    var k, loaded := keys[i], Load(image, clock(0));
    VisitedAreJudged(loaded, keys, clock, 1, i);
    assert k in image.data;
    RowInTables(SlowLoad(image, keys, clock), k);
    RowInTables(loaded, k);
  }
}
