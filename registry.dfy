/**
 * The open connections of the server's main loop: `$connections`, a PHP array
 * with integer keys, the channels the loop waits on, and the two rules by
 * which one turn of the loop changes the array.
 */
module Registry {
  import opened Bytes
  import Handshake

  /** A stream the loop can wait on: the listening socket or a client's socket. */
  datatype Channel<H> = Listener | Conn(handle: H)

  /** `$connections + [$server]` as written: PHP's union keeps the left operand's key 0. */
  function ReadChannelsAsWritten<H>(slots: map<nat, H>): map<nat, Channel<H>>
  {
    map k | k in slots.Keys + {0} :: if k in slots then Conn(slots[k]) else Listener
  }

  /** As written, the listener is not waited on while key 0 holds a connection. */
  lemma ListenerDroppedAsWritten<H>(slots: map<nat, H>)
    requires 0 in slots
    ensures Listener !in ReadChannelsAsWritten(slots).Values
    ensures forall k :: k in slots ==> Conn(slots[k]) in ReadChannelsAsWritten(slots).Values
  {
    var r := ReadChannelsAsWritten(slots);
    forall k | k in slots ensures Conn(slots[k]) in r.Values {
      assert r[k] == Conn(slots[k]);
    }
  }

  /** The channels the loop evidently means to wait on: the listener and every connection. */
  function ReadChannels<H(==)>(slots: map<nat, H>): (r: set<Channel<H>>)
    ensures Listener in r
    ensures forall k :: k in slots ==> Conn(slots[k]) in r
    ensures forall ch :: ch in r && ch.Conn? ==> ch.handle in slots.Values
  {
    {Listener} + set k | k in slots :: Conn(slots[k])
  }

  /** `if ($data)` as written: PHP reads both "" and "0" as false. */
  predicate PeerClosedAsWritten(data: seq<Byte>)
  {
    data == [] || data == ['0' as int]
  }

  /** A read means the peer has gone only when it returns no octets. */
  predicate PeerClosed(data: seq<Byte>)
  {
    data == []
  }

  /** As written, a read of the single octet '0' is taken for a disconnect. */
  lemma ZeroOctetClosesAsWritten()
    ensures PeerClosedAsWritten(['0' as int]) && !PeerClosed(['0' as int])
  {
  }

  class Connections<H(==)> {
    /** `$connections`: key to socket. */
    var slots: map<nat, H>
    /** The key PHP gives the next appended element; it never goes down. */
    var next: nat

    ghost predicate Valid()
      reads this
    {
      (forall k :: k in slots ==> k < next) &&
      (forall j, k :: j in slots && k in slots && slots[j] == slots[k] ==> j == k)
    }

    constructor ()
      ensures Valid() && slots == map[] && next == 0
    {
      slots := map[];
      next := 0;
    }

    /** `array_search($connection, $connections)`: the first key, in order, holding `c`. */
    method Search(c: H) returns (key: Option<nat>)
      requires Valid()
      ensures key.None? <==> c !in slots.Values
      ensures key.Some? ==> key.value in slots && slots[key.value] == c
      ensures key.Some? ==> forall k :: k in slots && k < key.value ==> slots[k] != c
    {
      var k := 0;
      while k < next
        invariant k <= next
        invariant forall j :: j in slots && j < k ==> slots[j] != c
      {
        if k in slots && slots[k] == c {
          return Some(k);
        }
        k := k + 1;
      }
      return None;
    }

    /** `$connections []= $connection`. */
    method Append(c: H)
      requires Valid() && c !in slots.Values
      modifies this
      ensures Valid()
      ensures slots == old(slots)[old(next) := c] && next == old(next) + 1
    {
      slots := slots[next := c];
      next := next + 1;
    }

    /**
     * `unset($connections[array_search($connection, $connections)])`; a socket that
     * is not found gives `false`, which PHP reads as key 0.
     */
    method Remove(c: H)
      requires Valid()
      modifies this
      ensures Valid() && next == old(next)
      ensures c in old(slots).Values ==>
        slots == (map k | k in old(slots) && old(slots)[k] != c :: old(slots)[k]) &&
        slots.Values == old(slots).Values - {c}
      ensures c !in old(slots).Values ==> slots == old(slots) - {0}
    {
      var key := Search(c);
      var k := if key.Some? then key.value else 0;
      ghost var before := slots;
      slots := slots - {k};
      if key.Some? {
        assert slots == map j | j in before && before[j] != c :: before[j];
        forall v | v in before.Values - {c} ensures v in slots.Values {
          var j :| j in before && before[j] == v;
          assert slots[j] == v;
        }
      }
    }

    /**
     * One turn in which the listener was ready and accepted the socket `c`: it
     * joins the list exactly when its handshake succeeds.
     */
    method OnAccept(c: H, requestLine: string, lines: seq<string>, peerName: string,
                    accept: string -> string) returns (r: Handshake.Outcome)
      requires Valid() && c !in slots.Values
      modifies this
      ensures Valid()
      ensures r == Handshake.HandshakeOutcome(requestLine, lines, peerName, accept)
      ensures r.Accepted? ==> slots == old(slots)[old(next) := c] && next == old(next) + 1
      ensures r.Rejected? ==> slots == old(slots) && next == old(next)
    {
      r := Handshake.Handshake(requestLine, lines, peerName, accept);
      if r.Accepted? {
        Append(c);
      }
    }

    /**
     * One turn in which the registered socket `c` was ready and `fread` returned
     * `data`: an empty read closes it and removes exactly it; any other read
     * leaves the list alone.
     */
    method OnRead(c: H, data: seq<Byte>) returns (closed: bool)
      requires Valid() && c in slots.Values
      modifies this
      ensures Valid() && next == old(next)
      ensures closed <==> PeerClosed(data)
      ensures closed ==> slots == (map k | k in old(slots) && old(slots)[k] != c :: old(slots)[k])
      ensures closed ==> slots.Values == old(slots).Values - {c} && slots.Keys < old(slots).Keys
      ensures !closed ==> slots == old(slots)
    {
      closed := PeerClosed(data);
      if closed {
        Remove(c);
      }
    }
  }
}
