/** Which node owns a key: src/cluster/router.py, for any digest function. */
module Routing {
  import opened Wrappers
  import opened Bytes
  import opened Decimal

  const TOTAL_HASH_SLOTS := 16384

  datatype Node = Node(name: bytes, host: bytes, port: int)

  /** The nodes of a cluster in their common order, and the node that is asking. */
  datatype Coordinator = Coordinator(current: Node, nodes: seq<Node>, digest: bytes -> nat)

  datatype RoutingError = NoNodes

  function HashSlot(digest: bytes -> nat, key: bytes): (slot: nat)
    ensures slot < TOTAL_HASH_SLOTS
  {
    digest(key) % TOTAL_HASH_SLOTS
  }

  function Route(c: Coordinator, key: bytes): Result<Node, RoutingError> {
    if c.nodes == [] then Failure(NoNodes)
    else Success(c.nodes[HashSlot(c.digest, key) % |c.nodes|])
  }

  function Address(n: Node): bytes {
    n.host + ":" + Str(n.port)
  }

  function MovedText(slot: nat, owner: Node): bytes {
    "MOVED " + (Str(slot) + " " + Address(owner))
  }

  /** moved_error: nothing for a local key, else where to go. */
  function MovedError(c: Coordinator, key: bytes): Result<Option<bytes>, RoutingError> {
    var owner := Route(c, key);
    if owner.Failure? then Failure(owner.error)
    else if owner.value == c.current then Success(None)
    else Success(Some(MovedText(HashSlot(c.digest, key), owner.value)))
  }

  // ---------- what a client reads from a redirection ----------

  function FindSpace(s: bytes): (n: nat)
    ensures n <= |s|
  {
    if s == [] || s[0] == ' ' then 0 else 1 + FindSpace(s[1..])
  }

  /** The address in MOVED slot address. */
  function AddressIn(message: bytes): bytes {
    if |message| < 6 then []
    else
      var rest := message[6..];
      if FindSpace(rest) < |rest| then rest[FindSpace(rest) + 1..] else []
  }

  function FindLastColon(s: bytes): (r: Option<nat>)
    ensures r.Some? ==> r.value < |s|
  {
    if s == [] then None else if s[|s| - 1] == ':' then Some(|s| - 1) else FindLastColon(s[..|s| - 1])
  }

  datatype Target = Target(slot: int, host: bytes, port: int)

  /** MOVED slot host:port, with the port behind the last colon. */
  function ReadMoved(message: bytes): Option<Target> {
    if !("MOVED " <= message) || FindSpace(message[6..]) == |message| - 6 then None
    else
      var slot := ReadInt(message[6..6 + FindSpace(message[6..])]);
      var address := AddressIn(message);
      var colon := FindLastColon(address);
      if slot.None? || colon.None? then None
      else
        var port := ReadInt(address[colon.value + 1..]);
        if port.None? then None else Some(Target(slot.value, address[..colon.value], port.value))
  }

  lemma {:induction false} FindSpaceAfter(word: bytes, rest: bytes)
    requires ' ' !in word
    ensures FindSpace(word + " " + rest) == |word|
  {
    if word != [] {
      assert (word + " " + rest)[1..] == word[1..] + " " + rest;
      FindSpaceAfter(word[1..], rest);
    }
  }

  lemma AddressInMoved(slot: nat, owner: Node)
    ensures AddressIn(MovedText(slot, owner)) == Address(owner)
  {
    hide Address, Str;
    var rest := Str(slot) + " " + Address(owner);
    FindSpaceAfter(Str(slot), Address(owner));
    assert MovedText(slot, owner)[6..] == rest;
    assert rest[|Str(slot)| + 1..] == Address(owner);
  }

  lemma {:induction false} FindLastColonBefore(front: bytes, back: bytes)
    requires ':' !in back
    ensures FindLastColon(front + ":" + back) == Some(|front|)
    decreases |back|
  {
    if back == [] {
      assert front + ":" + back == front + ":";
    } else {
      var n := |back| - 1;
      assert (front + ":" + back)[..|front + ":" + back| - 1] == front + ":" + back[..n];
      FindLastColonBefore(front, back[..n]);
    }
  }

  lemma MovedReadsBack(slot: nat, owner: Node)
    ensures ReadMoved(MovedText(slot, owner)) == Some(Target(slot, owner.host, owner.port))
  {
    var text, address := MovedText(slot, owner), Address(owner);
    AddressReadsBack(owner);
    hide Address, AddressIn, FindLastColon, FindSpace, Str, ReadInt;
    AddressInMoved(slot, owner);
    FindSpaceAfter(Str(slot), address);
    assert text[6..] == Str(slot) + " " + address && text[6..6 + |Str(slot)|] == Str(slot);
    assert "MOVED " <= text;
    ReadIntOfStr(slot);
  }

  lemma AddressReadsBack(owner: Node)
    ensures var address, end := Address(owner), |owner.host|;
            FindLastColon(address) == Some(end) && address[..end] == owner.host &&
            ReadInt(address[end + 1..]) == Some(owner.port)
  {
    hide Str, ReadInt, FindLastColon;
    var address := Address(owner);
    FindLastColonBefore(owner.host, Str(owner.port));
    assert address[|owner.host| + 1..] == Str(owner.port) && address[..|owner.host|] == owner.host;
    ReadIntOfStr(owner.port);
  }

  // ---------- the owner, in numbers ----------

  /**
   The slot is the remainder of the digest by 16384, the owner the node whose index is the remainder of the
   slot by the number of nodes, and a redirection names this slot and this node's host and port.
   */
  lemma OwnerInNumbers(c: Coordinator, key: bytes) returns (q: nat, slot: nat, r: nat, o: nat)
    requires c.nodes != []
    ensures c.digest(key) == q * 16384 + slot && slot < 16384
    ensures slot == r * |c.nodes| + o && o < |c.nodes|
    ensures Route(c, key) == Success(c.nodes[o])
    ensures var moved := MovedError(c, key);
            moved.Success? && (moved.value.None? <==> c.nodes[o] == c.current) &&
            (moved.value.Some? ==>
               ReadMoved(moved.value.value) == Some(Target(slot, c.nodes[o].host, c.nodes[o].port)))
  {
    hide ReadMoved, MovedText;
    slot := HashSlot(c.digest, key);
    q := c.digest(key) / 16384;
    r, o := slot / |c.nodes|, slot % |c.nodes|;
    MovedReadsBack(slot, c.nodes[o]);
  }
}
