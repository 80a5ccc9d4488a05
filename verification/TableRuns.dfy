/**
 Whole runs of the hash table: from an empty table, any list of operations gives the
 replies and the items of a finite map, and resizing stays within the budget that the
 insertions provide.
 */
module TableRuns {
  import opened Wrappers
  import opened HashTables

  datatype TableOp<K, V> =
    | Put(key: K, value: V)
    | Fetch(key: K)
    | Delete(key: K)
    | Take(key: K, default: Option<V>)
    | Wipe

  datatype TableReply<V> = Done | Found(value: V) | Raised(error: KeyError)

  /** One operation on a finite map. */
  function MapStep<K, V>(m: map<K, V>, op: TableOp<K, V>): (map<K, V>, TableReply<V>) {
    match op
    case Put(key, value) => (m[key := value], Done)
    case Fetch(key) => (m, if key in m then Found(m[key]) else Raised(KeyError))
    case Delete(key) => (m - {key}, if key in m then Done else Raised(KeyError))
    case Take(key, default) =>
      (m - {key}, if key in m then Found(m[key]) else if default.Some? then Found(default.value) else Raised(KeyError))
    case Wipe => (map[], Done)
  }

  function MapRun<K, V>(m: map<K, V>, ops: seq<TableOp<K, V>>): (map<K, V>, seq<TableReply<V>>) {
    if ops == [] then (m, [])
    else
      var (before, replies) := MapRun(m, ops[..|ops| - 1]);
      var (after, reply) := MapStep(before, ops[|ops| - 1]);
      (after, replies + [reply])
  }

  /** How many of the operations insert a key that is absent at that moment. */
  function FreshPuts<K, V>(m: map<K, V>, ops: seq<TableOp<K, V>>): nat {
    if ops == [] then 0
    else
      var last := ops[|ops| - 1];
      FreshPuts(m, ops[..|ops| - 1]) + if last.Put? && last.key !in MapRun(m, ops[..|ops| - 1]).0 then 1 else 0
  }

  /** Run operations on a new table. */
  method Run<K(!new, ==), V>(hash: K -> int, ops: seq<TableOp<K, V>>)
    returns (replies: seq<TableReply<V>>, items: seq<(K, V)>, ghost moved: nat)
    ensures replies == MapRun(map[], ops).1
    ensures DistinctKeys(items) && Merge(map[], items) == MapRun(map[], ops).0
    ensures moved <= 3 * FreshPuts(map[], ops)
  {
    var table := new HashTable(hash);
    replies := [];
    for i := 0 to |ops|
      invariant table.Valid() && fresh(table) && fresh(table.buckets)
      invariant table.Contents == MapRun(map[], ops[..i]).0
      invariant replies == MapRun(map[], ops[..i]).1
      invariant table.Inserted == FreshPuts(map[], ops[..i])
    {
      assert ops[..i + 1][..i] == ops[..i];
      var reply := Step(table, ops[i]);
      replies := replies + [reply];
    }
    assert ops[..|ops|] == ops;
    items := table.Items();
    moved := table.Moved;
  }

  /** Carry out one operation. */
  method Step<K(!new, ==), V>(table: HashTable<K, V>, op: TableOp<K, V>) returns (reply: TableReply<V>)
    requires table.Valid()
    modifies table, table.buckets
    ensures table.Valid() && (table.buckets == old(table.buckets) || fresh(table.buckets))
    ensures (table.Contents, reply) == MapStep(old(table.Contents), op)
    ensures table.Inserted == old(table.Inserted) + if op.Put? && op.key !in old(table.Contents) then 1 else 0
  {
    reply := Done;
    match op {
      case Put(key, value) =>
        table.SetItem(key, value);
      case Fetch(key) =>
        var item := table.GetItem(key);
        reply := if item.Success? then Found(item.value) else Raised(item.error);
      case Delete(key) =>
        var item := table.DelItem(key);
        reply := if item.Success? then Done else Raised(item.error);
      case Take(key, default) =>
        var item := table.Pop(key, default);
        reply := if item.Success? then Found(item.value) else Raised(item.error);
      case Wipe =>
        table.Clear();
    }
  }
}
