/**
 The chained hash table of asd.py: an array of buckets, doubled whenever the load
 factor passes 3/4. The class is proved to be a finite map for any hash function,
 and the work done by resizing is paid for by the insertions.
 */
module HashTables {
  import opened Wrappers

  const MIN_CAPACITY := 8

  /** The only exception a table raises. */
  datatype KeyError = KeyError

  // ---------- buckets as values ----------

  /** The entries of all buckets in iteration order. */
  function Flatten<T>(buckets: seq<seq<T>>): seq<T> {
    if buckets == [] then [] else buckets[0] + Flatten(buckets[1..])
  }

  ghost predicate DistinctKeys<K, V>(entries: seq<(K, V)>) {
    forall i, j :: 0 <= i < j < |entries| ==> entries[i].0 != entries[j].0
  }

  predicate HasKey<K(==), V>(entries: seq<(K, V)>, k: K) {
    exists i :: 0 <= i < |entries| && entries[i].0 == k
  }

  /** Every entry agrees with the map. */
  ghost predicate Within<K, V>(entries: seq<(K, V)>, m: map<K, V>) {
    forall i :: 0 <= i < |entries| ==> entries[i].0 in m && m[entries[i].0] == entries[i].1
  }

  /** The map that a list of entries denotes when written into a dict in order. */
  function Merge<K, V>(m: map<K, V>, entries: seq<(K, V)>): map<K, V>
    decreases |entries|
  {
    if entries == [] then m else Merge(m[entries[0].0 := entries[0].1], entries[1..])
  }

  lemma {:induction false} FlattenMember<T>(buckets: seq<seq<T>>, x: T)
    ensures x in Flatten(buckets) <==> exists b :: 0 <= b < |buckets| && x in buckets[b]
  {
    if buckets != [] {
      FlattenMember(buckets[1..], x);
      assert forall b :: 0 < b < |buckets| ==> buckets[b] == buckets[1..][b - 1];
    }
  }

  /** Replacing one bucket changes the number of entries by the difference in length. */
  lemma {:induction false} FlattenUpdate<T>(buckets: seq<seq<T>>, b: nat, bucket: seq<T>)
    requires b < |buckets|
    ensures |Flatten(buckets[b := bucket])| == |Flatten(buckets)| - |buckets[b]| + |bucket|
  {
    if b == 0 {
      assert buckets[b := bucket][1..] == buckets[1..];
    } else {
      FlattenUpdate(buckets[1..], b - 1, bucket);
      assert buckets[b := bucket][1..] == buckets[1..][b - 1 := bucket];
    }
  }

  lemma {:induction false} FlattenSnoc<T>(buckets: seq<seq<T>>, bucket: seq<T>)
    ensures Flatten(buckets + [bucket]) == Flatten(buckets) + bucket
  {
    if buckets == [] {
      assert Flatten([bucket]) == bucket + Flatten([]);
    } else {
      FlattenSnoc(buckets[1..], bucket);
      assert (buckets + [bucket])[1..] == buckets[1..] + [bucket];
    }
  }

  lemma {:induction false} FlattenEmpty<T>(buckets: seq<seq<T>>)
    requires forall b :: 0 <= b < |buckets| ==> buckets[b] == []
    ensures Flatten(buckets) == []
  {
    if buckets != [] {
      FlattenEmpty(buckets[1..]);
    }
  }

  /** Buckets without repeated keys, filled by a home function, hold no key twice. */
  lemma {:induction false} FlattenDistinct<K, V>(buckets: seq<seq<(K, V)>>, home: K -> int, first: int)
    requires forall b :: 0 <= b < |buckets| ==> DistinctKeys(buckets[b])
    requires forall b, e :: 0 <= b < |buckets| && e in buckets[b] ==> home(e.0) == first + b
    ensures DistinctKeys(Flatten(buckets))
  {
    if buckets != [] {
      var rest := buckets[1..];
      assert forall b :: 0 <= b < |rest| ==> rest[b] == buckets[b + 1];
      FlattenDistinct(rest, home, first + 1);
      forall e | e in Flatten(rest) ensures home(e.0) > first {
        FlattenMember(rest, e);
      }
      var front, back := buckets[0], Flatten(rest);
      assert forall i :: 0 <= i < |front| ==> front[i] in front;
      assert forall i :: 0 <= i < |back| ==> back[i] in back;
      assert forall i :: |front| <= i < |front + back| ==> (front + back)[i] == back[i - |front|];
    }
  }

  lemma {:induction false} MergeSnoc<K, V>(m: map<K, V>, entries: seq<(K, V)>, e: (K, V))
    ensures Merge(m, entries + [e]) == Merge(m, entries)[e.0 := e.1]
    decreases |entries|
  {
    if entries == [] {
      assert entries + [e] == [e];
    } else {
      assert (entries + [e])[1..] == entries[1..] + [e];
      MergeSnoc(m[entries[0].0 := entries[0].1], entries[1..], e);
    }
  }

  /** Entries with distinct keys, read into an empty dict, are exactly its items. */
  lemma {:induction false} MergeItems<K, V>(entries: seq<(K, V)>)
    requires DistinctKeys(entries)
    ensures Within(entries, Merge(map[], entries))
    ensures forall k :: k in Merge(map[], entries) ==> HasKey(entries, k)
    ensures |Merge(map[], entries)| == |entries|
  {
    if entries != [] {
      var n := |entries| - 1;
      var front, last := entries[..n], entries[n];
      assert entries == front + [last];
      MergeSnoc(map[], front, last);
      MergeItems(front);
      var before := Merge(map[], front);
      assert last.0 !in before;
      assert before[last.0 := last.1].Keys == before.Keys + {last.0};
      ReadOneMore(front, before, last);
    }
  }

  lemma ReadOneMore<K, V>(front: seq<(K, V)>, before: map<K, V>, last: (K, V))
    requires Within(front, before) && last.0 !in before
    requires forall k :: k in before ==> HasKey(front, k)
    ensures Within(front + [last], before[last.0 := last.1])
    ensures forall k :: k in before[last.0 := last.1] ==> HasKey(front + [last], k)
  {
    var entries := front + [last];
    assert entries[|front|].0 == last.0;
    forall k | k in before ensures HasKey(entries, k) {
      var i :| 0 <= i < |front| && front[i].0 == k;
      assert entries[i].0 == k;
    }
  }

  /** Reading distinct entries one by one adds one fresh key each time. */
  lemma MergeStep<K, V>(entries: seq<(K, V)>, i: nat)
    requires DistinctKeys(entries) && i < |entries|
    ensures Merge(map[], entries[..i + 1]) == Merge(map[], entries[..i])[entries[i].0 := entries[i].1]
    ensures |Merge(map[], entries[..i])| == i && entries[i].0 !in Merge(map[], entries[..i])
  {
    assert entries[..i + 1] == entries[..i] + [entries[i]];
    MergeSnoc(map[], entries[..i], entries[i]);
    MergeItems(entries[..i]);
  }

  // ---------- the representation ----------

  /** The bucket in which a key must live. */
  function Home<K>(hash: K -> int, key: K, count: int): (b: int)
    requires count > 0
    ensures 0 <= b < count
  {
    hash(key) % count
  }

  /** Bucket b holds exactly the entries of m whose home it is, each key once. */
  ghost predicate Holds<K(!new), V>(bucket: seq<(K, V)>, b: int, count: int, hash: K -> int, m: map<K, V>)
    requires count > 0
  {
    && DistinctKeys(bucket)
    && Within(bucket, m)
    && (forall i :: 0 <= i < |bucket| ==> Home(hash, bucket[i].0, count) == b)
    && (forall k :: k in m && Home(hash, k, count) == b ==> HasKey(bucket, k))
  }

  /** The buckets are a hash table for m, and the number of entries is the size of m. */
  ghost predicate Represents<K(!new), V>(buckets: seq<seq<(K, V)>>, hash: K -> int, m: map<K, V>) {
    && |buckets| >= MIN_CAPACITY
    && |Flatten(buckets)| == |m|
    && forall b :: 0 <= b < |buckets| ==> Holds(buckets[b], b, |buckets|, hash, m)
  }

  /** The load is above 3/4. */
  predicate Overloaded(size: int, count: int) {
    4 * size > 3 * count
  }

  /** The limit of the source on the load factor. */
  lemma LoadLimit(size: int, count: int)
    requires count > 0
    ensures Overloaded(size, count) <==> size as real / count as real > 0.75
    ensures Overloaded(size, count) <==> 4 * size > 3 * count
  {
    var load, n := size as real / count as real, count as real;
    assert load * n == size as real;
    SignOfProduct(load - 0.75, n);
    assert (load - 0.75) * n == load * n - 0.75 * n;
  }

  lemma SignOfProduct(x: real, n: real)
    requires n > 0.0
    ensures x * n > 0.0 <==> x > 0.0
  {
  }

  /** Work owed to the next resize: the potential that fresh insertions build up. */
  function Potential(size: int, count: int): int {
    if 6 * size > 3 * count then 6 * size - 3 * count else 0
  }

  /** Every entry is in the bucket of its hash, and no key is stored twice anywhere in the table. */
  lemma KeysAreHomeAndUnique<K(!new), V>(buckets: seq<seq<(K, V)>>, hash: K -> int, m: map<K, V>,
                                         b: nat, i: nat, c: nat, j: nat)
    requires Represents(buckets, hash, m)
    requires b < |buckets| && i < |buckets[b]| && c < |buckets| && j < |buckets[c]|
    requires buckets[b][i].0 == buckets[c][j].0
    ensures b == hash(buckets[b][i].0) % |buckets| && b == c && i == j
    ensures buckets[b][i].0 in m && m[buckets[b][i].0] == buckets[b][i].1
  {
    assert Holds(buckets[b], b, |buckets|, hash, m) && Holds(buckets[c], c, |buckets|, hash, m);
  }

  lemma EmptyRepresents<K(!new), V>(buckets: seq<seq<(K, V)>>, hash: K -> int)
    requires |buckets| >= MIN_CAPACITY
    requires forall b :: 0 <= b < |buckets| ==> buckets[b] == []
    ensures Represents(buckets, hash, map[])
  {
    FlattenEmpty(buckets);
  }

  /** Changing the map at one key only concerns the key's home bucket. */
  lemma ReplaceBucket<K(!new), V>(buckets: seq<seq<(K, V)>>, hash: K -> int, m: map<K, V>, key: K,
                                  bucket: seq<(K, V)>, m': map<K, V>)
    requires Represents(buckets, hash, m)
    requires m' - {key} == m - {key}
    requires var h := Home(hash, key, |buckets|);
             Holds(bucket, h, |buckets|, hash, m') && |m'| - |m| == |bucket| - |buckets[h]|
    ensures Represents(buckets[Home(hash, key, |buckets|) := bucket], hash, m')
  {
    var n := |buckets|;
    var h := Home(hash, key, n);
    FlattenUpdate(buckets, h, bucket);
    forall b | 0 <= b < n && b != h ensures Holds(buckets[b], b, n, hash, m') {
      assert Holds(buckets[b], b, n, hash, m);
      forall k | k != key ensures k in m <==> k in m' && (k in m ==> m[k] == m'[k]) {
        assert k in m - {key} <==> k in m' - {key};
        assert k in m ==> (m - {key})[k] == m[k];
        assert k in m' ==> (m' - {key})[k] == m'[k];
      }
    }
  }

  lemma Overwrite<K(!new), V>(bucket: seq<(K, V)>, b: int, count: int, hash: K -> int, m: map<K, V>, i: nat, value: V)
    requires count > 0 && Holds(bucket, b, count, hash, m) && i < |bucket|
    ensures Holds(bucket[i := (bucket[i].0, value)], b, count, hash, m[bucket[i].0 := value])
  {
    var after := bucket[i := (bucket[i].0, value)];
    assert forall j :: 0 <= j < |after| ==> after[j].0 == bucket[j].0;
    forall k | k in m && Home(hash, k, count) == b ensures HasKey(after, k) {
      var j :| 0 <= j < |bucket| && bucket[j].0 == k;
      assert after[j].0 == k;
    }
  }

  lemma Append<K(!new), V>(bucket: seq<(K, V)>, b: int, count: int, hash: K -> int, m: map<K, V>, key: K, value: V)
    requires count > 0 && Holds(bucket, b, count, hash, m)
    requires key !in m && Home(hash, key, count) == b
    ensures Holds(bucket + [(key, value)], b, count, hash, m[key := value])
  {
    var after := bucket + [(key, value)];
    assert after[|bucket|].0 == key;
    forall k | k in m && Home(hash, k, count) == b ensures HasKey(after, k) {
      var j :| 0 <= j < |bucket| && bucket[j].0 == k;
      assert after[j].0 == k;
    }
  }

  lemma Remove<K(!new), V>(bucket: seq<(K, V)>, b: int, count: int, hash: K -> int, m: map<K, V>, i: nat)
    requires count > 0 && Holds(bucket, b, count, hash, m) && i < |bucket|
    ensures Holds(bucket[..i] + bucket[i + 1..], b, count, hash, m - {bucket[i].0})
  {
    var after := bucket[..i] + bucket[i + 1..];
    forall j | 0 <= j < |after| ensures after[j] == bucket[if j < i then j else j + 1] {
    }
    assert DistinctKeys(after);
    forall j | 0 <= j < |after|
      ensures after[j].0 in m && after[j].0 != bucket[i].0 && m[after[j].0] == after[j].1
      ensures Home(hash, after[j].0, count) == b
    {
      var from := if j < i then j else j + 1;
      assert after[j] == bucket[from];
    }
    forall k | k in m && k != bucket[i].0 && Home(hash, k, count) == b ensures HasKey(after, k) {
      var j :| 0 <= j < |bucket| && bucket[j].0 == k;
      assert after[if j < i then j else j - 1].0 == k;
    }
  }

  lemma TableIsDistinct<K(!new), V>(buckets: seq<seq<(K, V)>>, hash: K -> int, m: map<K, V>)
    requires Represents(buckets, hash, m)
    ensures DistinctKeys(Flatten(buckets))
  {
    var n := |buckets|;
    var home := (k: K) => if n > 0 then Home(hash, k, n) else 0;
    forall b | 0 <= b < n
      ensures DistinctKeys(buckets[b]) && forall e :: e in buckets[b] ==> home(e.0) == 0 + b
    {
      assert Holds(buckets[b], b, n, hash, m);
    }
    FlattenDistinct(buckets, home, 0);
  }

  lemma ListedIsInMap<K(!new), V>(buckets: seq<seq<(K, V)>>, hash: K -> int, m: map<K, V>, e: (K, V))
    requires Represents(buckets, hash, m) && e in Flatten(buckets)
    ensures e.0 in m && m[e.0] == e.1
  {
    hide Flatten, DistinctKeys;
    FlattenMember(buckets, e);
    var b :| 0 <= b < |buckets| && e in buckets[b];
    assert Holds(buckets[b], b, |buckets|, hash, m);
  }

  lemma InMapIsListed<K(!new), V>(buckets: seq<seq<(K, V)>>, hash: K -> int, m: map<K, V>, k: K)
    requires Represents(buckets, hash, m) && k in m
    ensures HasKey(Flatten(buckets), k)
  {
    hide Flatten, DistinctKeys;
    var b := Home(hash, k, |buckets|);
    assert Holds(buckets[b], b, |buckets|, hash, m);
    var i :| 0 <= i < |buckets[b]| && buckets[b][i].0 == k;
    FlattenMember(buckets, buckets[b][i]);
    assert buckets[b][i] in Flatten(buckets);
  }

  /** Iterating the buckets yields the items of the map, each key once. */
  lemma ItemsRepresent<K(!new), V>(buckets: seq<seq<(K, V)>>, hash: K -> int, m: map<K, V>)
    requires Represents(buckets, hash, m)
    ensures DistinctKeys(Flatten(buckets)) && Merge(map[], Flatten(buckets)) == m
  {
    TableIsDistinct(buckets, hash, m);
    hide Flatten, Merge, Represents, DistinctKeys;
    var entries := Flatten(buckets);
    MergeItems(entries);
    var read := Merge(map[], entries);
    forall k | k in read ensures k in m && m[k] == read[k] {
      var i :| 0 <= i < |entries| && entries[i].0 == k;
      ListedIsInMap(buckets, hash, m, entries[i]);
    }
    forall k | k in m ensures k in read {
      InMapIsListed(buckets, hash, m, k);
      var i :| 0 <= i < |entries| && entries[i].0 == k;
    }
  }

  // ---------- the table ----------

  class HashTable<K(!new, ==), V> {
    const hash: K -> int
    var buckets: array<seq<(K, V)>>
    var size: nat
    /** The map this table represents. */
    ghost var Contents: map<K, V>
    /** How many fresh keys callers have inserted since construction. */
    ghost var Inserted: nat
    /** How many entries resizing has re-inserted since construction. */
    ghost var Moved: nat

    /** The buckets stand for Contents and the size field counts their entries. */
    ghost predicate Consistent()
      reads this, buckets
    {
      Represents(buckets[..], hash, Contents) && size == |Contents|
    }

    /** Also the load is at most 3/4, and insertions have paid for all resizing. */
    ghost predicate Valid()
      reads this, buckets
    {
      Consistent() && !Overloaded(size, buckets.Length) && 2 * Moved + Potential(size, buckets.Length) <= 6 * Inserted
    }

    constructor (hash: K -> int, initial: seq<(K, V)> := [], capacity: int := 8)
      ensures Valid() && fresh(buckets) && this.hash == hash
      ensures Contents == Merge(map[], initial)
      ensures Inserted == |Contents|
      ensures buckets.Length >= if capacity > 8 then capacity else 8
      ensures initial == [] ==> buckets.Length == if capacity > 8 then capacity else 8
    {
      this.hash := hash;
      var count := if capacity > MIN_CAPACITY then capacity else MIN_CAPACITY;
      buckets := new seq<(K, V)>[count](_ => []);
      size := 0;
      Contents, Inserted, Moved := map[], 0, 0;
      new;
      EmptyRepresents(buckets[..], hash);
      for i := 0 to |initial|
        invariant Valid() && fresh(buckets) && buckets.Length >= count
        invariant initial == [] ==> buckets.Length == count
        invariant Contents == Merge(map[], initial[..i])
        invariant Inserted == |Contents|
      {
        MergeSnoc(map[], initial[..i], initial[i]);
        assert initial[..i + 1] == initial[..i] + [initial[i]];
        SetItem(initial[i].0, initial[i].1);
      }
      assert initial[..|initial|] == initial;
    }

    /** The position of a key in its bucket, or the bucket's length. */
    static method Position(bucket: seq<(K, V)>, key: K) returns (index: nat)
      ensures index <= |bucket|
      ensures index < |bucket| ==> bucket[index].0 == key
      ensures index == |bucket| ==> !HasKey(bucket, key)
    {
      index := 0;
      while index < |bucket| && bucket[index].0 != key
        invariant index <= |bucket|
        invariant forall i :: 0 <= i < index ==> bucket[i].0 != key
      {
        index := index + 1;
      }
    }

    /** The bucket of a key, and where in it the key is. */
    method Find(key: K) returns (home: nat, index: nat)
      requires Consistent()
      ensures home == Home(hash, key, buckets.Length) && index <= |buckets[home]|
      ensures Holds(buckets[home], home, buckets.Length, hash, Contents)
      ensures key in Contents <==> index < |buckets[home]|
      ensures index < |buckets[home]| ==> buckets[home][index] == (key, Contents[key])
    {
      home := Home(hash, key, buckets.Length);
      index := Position(buckets[home], key);
      assert Holds(buckets[..][home], home, buckets.Length, hash, Contents);
    }

    /** The load never passes 3/4, there are never fewer than 8 buckets, and the size is the number of keys. */
    lemma LoadStaysLow()
      requires Valid()
      ensures 4 * size <= 3 * buckets.Length && size as real / buckets.Length as real <= 0.75
      ensures buckets.Length >= 8 && size == |Contents|
    {
      LoadLimit(size, buckets.Length);
    }

    /** len() */
    method Size() returns (n: nat)
      requires Valid()
      ensures n == |Contents|
    {
      n := size;
    }

    method GetItem(key: K) returns (r: Result<V, KeyError>)
      requires Valid()
      ensures r == if key in Contents then Success(Contents[key]) else Failure(KeyError)
    {
      var home, index := Find(key);
      r := if index < |buckets[home]| then Success(buckets[home][index].1) else Failure(KeyError);
    }

    method Contains(key: K) returns (found: bool)
      requires Valid()
      ensures found <==> key in Contents
    {
      var item := GetItem(key);
      found := item.Success?;
    }

    method Get(key: K) returns (r: Option<V>)
      requires Valid()
      ensures r == if key in Contents then Some(Contents[key]) else None
    {
      var item := GetItem(key);
      r := if item.Success? then Some(item.value) else None;
    }

    /**
     Insert or overwrite. A fresh key may push the load over 3/4, and then the table doubles;
     re-inserting into the doubled table never doubles again, so the mutual recursion ends.
     */
    method SetItem(key: K, value: V)
      requires Valid()
      modifies this, buckets
      ensures Valid() && (buckets == old(buckets) || fresh(buckets))
      ensures Contents == old(Contents)[key := value]
      ensures Inserted == old(Inserted) + if key in old(Contents) then 0 else 1
      ensures var doubles := key !in old(Contents) && 4 * (old(size) + 1) > 3 * old(buckets.Length);
              buckets.Length == (if doubles then 2 * old(buckets.Length) else old(buckets.Length)) &&
              Moved == old(Moved) + if doubles then size else 0
      ensures 4 * size <= 3 * buckets.Length && buckets.Length >= 8
      decreases if key !in Contents && Overloaded(size + 1, buckets.Length) then 2 else 0, 0
    {
      var home, index := Find(key);
      if index < |buckets[home]| {
        ReplaceAt(home, index, value);
      } else {
        AppendTo(home, key, value);
        if Overloaded(size, buckets.Length) {
          Resize(buckets.Length * 2);
        }
      }
    }

    /** Give the entry at a position of its bucket another value. */
    method ReplaceAt(home: nat, index: nat, value: V)
      requires Valid() && home < buckets.Length && index < |buckets[home]|
      requires home == Home(hash, buckets[home][index].0, buckets.Length)
      modifies buckets, this`Contents
      ensures Valid()
      ensures old(buckets[home][index].0) in old(Contents)
      ensures Contents == old(Contents)[old(buckets[home][index].0) := value]
    {
      ghost var was, m, key := buckets[..], Contents, buckets[home][index].0;
      assert Holds(was[home], home, buckets.Length, hash, m);
      Overwrite(was[home], home, buckets.Length, hash, m, index, value);
      assert m[key := value].Keys == m.Keys;
      ReplaceBucket(was, hash, m, key, was[home][index := (key, value)], m[key := value]);
      buckets[home] := buckets[home][index := (buckets[home][index].0, value)];
      assert buckets[..] == was[home := was[home][index := (key, value)]];
      Contents := m[key := value];
    }

    /** Add an entry for an absent key at the end of its bucket. */
    method AppendTo(home: nat, key: K, value: V)
      requires Valid() && key !in Contents && home == Home(hash, key, buckets.Length)
      modifies buckets, this`size, this`Contents, this`Inserted
      ensures Consistent() && Contents == old(Contents)[key := value]
      ensures size == old(size) + 1 && Inserted == old(Inserted) + 1
    {
      ghost var was, m := buckets[..], Contents;
      assert Holds(was[home], home, buckets.Length, hash, m);
      Append(was[home], home, buckets.Length, hash, m, key, value);
      assert m[key := value].Keys == m.Keys + {key};
      ReplaceBucket(was, hash, m, key, was[home] + [(key, value)], m[key := value]);
      buckets[home] := buckets[home] + [(key, value)];
      assert buckets[..] == was[home := was[home] + [(key, value)]];
      Contents := m[key := value];
      size := size + 1;
      Inserted := Inserted + 1;
    }

    /** Rebuild with the given number of buckets, re-inserting every entry. */
    method Resize(newCapacity: nat)
      requires Consistent()
      requires !Overloaded(size, if newCapacity > MIN_CAPACITY then newCapacity else MIN_CAPACITY)
      modifies this
      ensures Consistent() && fresh(buckets)
      ensures buckets.Length == if newCapacity > 8 then newCapacity else 8
      ensures Contents == old(Contents)
      ensures Inserted == old(Inserted) && Moved == old(Moved) + size
      decreases 1, 1
    {
      hide Represents;
      var oldItems := Items();
      var count := if newCapacity > MIN_CAPACITY then newCapacity else MIN_CAPACITY;
      buckets := new seq<(K, V)>[count](_ => []);
      size := 0;
      Contents, Inserted, Moved := map[], 0, 0;
      EmptyRepresents(buckets[..], hash);
      Reinsert(oldItems);
      Inserted := old(Inserted);
      Moved := old(Moved) + |oldItems|;
    }

    /** The loop of Resize: fill an empty table that has room for all entries, without resizing again. */
    method Reinsert(entries: seq<(K, V)>)
      requires Valid() && Contents == map[] && Moved == 0
      requires DistinctKeys(entries) && !Overloaded(|entries|, buckets.Length)
      modifies this, buckets
      ensures Valid() && (buckets == old(buckets) || fresh(buckets))
      ensures buckets.Length == old(buckets.Length) && Moved == 0
      ensures Contents == Merge(map[], entries) && size == |entries|
      decreases 1, 0
    {
      hide Represents, Merge;
      NothingMerged();
      for i := 0 to |entries|
        invariant Valid() && (buckets == old(buckets) || fresh(buckets))
        invariant buckets.Length == old(buckets.Length) && Moved == 0
        invariant Contents == Merge(map[], entries[..i]) && size == i
      {
        MergeStep(entries, i);
        SetItem(entries[i].0, entries[i].1);
      }
      assert entries[..|entries|] == entries;
    }

    lemma NothingMerged()
      ensures forall entries: seq<(K, V)> :: entries == [] ==> Merge(map[], entries) == map[]
    {
    }

    /** The entries in iteration order; as a dict they are the contents. */
    method Items() returns (entries: seq<(K, V)>)
      requires Consistent()
      ensures DistinctKeys(entries) && |entries| == size
      ensures Merge(map[], entries) == Contents
    {
      entries := [];
      ghost var all := buckets[..];
      for b := 0 to buckets.Length
        invariant entries == Flatten(all[..b])
      {
        assert all[..b + 1] == all[..b] + [buckets[b]];
        FlattenSnoc(all[..b], buckets[b]);
        entries := entries + buckets[b];
      }
      assert all[..|all|] == all;
      ItemsRepresent(all, hash, Contents);
    }

    /** The stored keys, as a list. */
    method Keys() returns (keys: seq<K>)
      requires Valid()
      ensures forall k :: k in keys <==> k in Contents
      ensures forall i, j :: 0 <= i < j < |keys| ==> keys[i] != keys[j]
    {
      var entries := Items();
      MergeItems(entries);
      keys := [];
      for i := 0 to |entries|
        invariant |keys| == i && forall j :: 0 <= j < i ==> keys[j] == entries[j].0
      {
        keys := keys + [entries[i].0];
      }
      forall k | k in Contents ensures k in keys {
        var i :| 0 <= i < |entries| && entries[i].0 == k;
        assert keys[i] == k;
      }
    }

    /** Take the entry at a position out of its bucket. */
    method RemoveAt(home: nat, index: nat)
      requires Valid() && home < buckets.Length && index < |buckets[home]|
      requires home == Home(hash, buckets[home][index].0, buckets.Length)
      modifies this, buckets
      ensures Valid() && buckets == old(buckets) && Inserted == old(Inserted) && Moved == old(Moved)
      ensures Contents == old(Contents) - {old(buckets[home][index].0)}
    {
      ghost var was, m, key := buckets[..], Contents, buckets[home][index].0;
      assert Holds(was[home], home, buckets.Length, hash, m);
      hide Holds, Represents, DistinctKeys;
      Remove(buckets[home], home, buckets.Length, hash, m, index);
      assert (m - {key}).Keys == m.Keys - {key};
      ReplaceBucket(was, hash, m, key, buckets[home][..index] + buckets[home][index + 1..], m - {key});
      buckets[home] := buckets[home][..index] + buckets[home][index + 1..];
      assert buckets[..] == was[home := was[home][..index] + was[home][index + 1..]];
      Contents := m - {key};
      size := size - 1;
    }

    method DelItem(key: K) returns (r: Result<(), KeyError>)
      requires Valid()
      modifies this, buckets
      ensures Valid() && buckets == old(buckets) && Inserted == old(Inserted) && Moved == old(Moved)
      ensures Contents == old(Contents) - {key}
      ensures r == if key in old(Contents) then Success(()) else Failure(KeyError)
    {
      var home, index := Find(key);
      if index < |buckets[home]| {
        RemoveAt(home, index);
        r := Success(());
      } else {
        r := Failure(KeyError);
      }
    }

    /** Remove and return; an absent key gives the default, or raises when there is none. */
    method Pop(key: K, default: Option<V>) returns (r: Result<V, KeyError>)
      requires Valid()
      modifies this, buckets
      ensures Valid() && buckets == old(buckets) && Inserted == old(Inserted) && Moved == old(Moved)
      ensures Contents == old(Contents) - {key}
      ensures r == if key in old(Contents) then Success(old(Contents)[key])
                   else if default.Some? then Success(default.value) else Failure(KeyError)
    {
      var home, index := Find(key);
      if index < |buckets[home]| {
        r := Success(buckets[home][index].1);
        RemoveAt(home, index);
      } else {
        r := if default.Some? then Success(default.value) else Failure(KeyError);
      }
    }

    method Clear()
      requires Valid()
      modifies this
      ensures Valid() && fresh(buckets) && Contents == map[]
      ensures buckets.Length == 8 && Inserted == old(Inserted) && Moved == old(Moved)
    {
      buckets := new seq<(K, V)>[MIN_CAPACITY](_ => []);
      size := 0;
      Contents := map[];
      EmptyRepresents(buckets[..], hash);
    }

    /** Write every pair in turn, as dict.update does. */
    method Update(source: seq<(K, V)>)
      requires Valid()
      modifies this, buckets
      ensures Valid() && (buckets == old(buckets) || fresh(buckets))
      ensures Contents == Merge(old(Contents), source)
    {
      for i := 0 to |source|
        invariant Valid() && (buckets == old(buckets) || fresh(buckets))
        invariant Contents == Merge(old(Contents), source[..i])
      {
        MergeSnoc(old(Contents), source[..i], source[i]);
        assert source[..i + 1] == source[..i] + [source[i]];
        SetItem(source[i].0, source[i].1);
      }
      assert source[..|source|] == source;
    }

    /** The same with a dict as the source, whose pairs come in any order. */
    method UpdateDict(source: map<K, V>)
      requires Valid()
      modifies this, buckets
      ensures Valid() && (buckets == old(buckets) || fresh(buckets))
      ensures Contents == old(Contents) + source
    {
      var rest := source.Keys;
      while rest != {}
        invariant Valid() && (buckets == old(buckets) || fresh(buckets))
        invariant rest <= source.Keys && Contents == old(Contents) + (source - rest)
      {
        var k :| k in rest;
        OneMore(old(Contents), source, rest, k);
        SetItem(k, source[k]);
        rest := rest - {k};
      }
      assert source - {} == source;
    }

    lemma OneMore(m: map<K, V>, source: map<K, V>, rest: set<K>, k: K)
      requires k in rest && k in source
      ensures m + (source - (rest - {k})) == (m + (source - rest))[k := source[k]]
    {
    }
  }
}
