/**
 * The single chat room of the chat servers: a `std::set` of members (session
 * pointers for TCP, endpoints for UDP) and the fan-out of one message to
 * all of them.
 *
 * A `std::set` is kept here as its in-order sequence, strictly ascending
 * under the set's comparator; member keys are natural numbers whose order
 * stands for that comparator (pointer order, endpoint order).
 */
module ChatRoom {
  import opened Bytes

  type Key = nat

  predicate Ascending(keys: seq<Key>) {
    forall i, j :: 0 <= i < j < |keys| ==> keys[i] < keys[j]
  }

  /** The members of the room, in the order `std::set` iterates them. */
  datatype Room = Room(keys: seq<Key>)

  predicate Valid(room: Room) {
    Ascending(room.keys)
  }

  function Elements(keys: seq<Key>): set<Key> {
    set k | k in keys
  }

  function Members(room: Room): set<Key> {
    Elements(room.keys)
  }

  const Empty: Room := Room([])

  /** `sessions_.insert(k)` on the in-order sequence. */
  function Insert(keys: seq<Key>, k: Key): (r: seq<Key>)
    requires Ascending(keys)
    ensures Ascending(r)
    ensures Elements(r) == Elements(keys) + {k}
  {
    if keys == [] then [k]
    else if k < keys[0] then
      InsertFront(keys, k);
      [k] + keys
    else if k == keys[0] then
      assert k in Elements(keys);
      keys
    else
      assert Ascending(keys[1..]) by { SplitFirst(keys); }
      var tail := Insert(keys[1..], k);
      InsertBehind(keys, k, tail);
      [keys[0]] + tail
  }

  lemma InsertFront(keys: seq<Key>, k: Key)
    requires Ascending(keys) && keys != [] && k < keys[0]
    ensures Ascending([k] + keys)
    ensures Elements([k] + keys) == Elements(keys) + {k}
  {
    SplitFirst(keys);
    PrependAscending(k, keys);
    ElementsPrepend(k, keys);
  }

  lemma InsertBehind(keys: seq<Key>, k: Key, tail: seq<Key>)
    requires Ascending(keys) && keys != [] && keys[0] < k
    requires Ascending(tail) && Elements(tail) == Elements(keys[1..]) + {k}
    ensures Ascending([keys[0]] + tail)
    ensures Elements([keys[0]] + tail) == Elements(keys) + {k}
  {
    SplitFirst(keys);
    PrependAscending(keys[0], tail);
    ElementsPrepend(keys[0], tail);
  }

  /** Inserting a key that is already present returns the very same sequence. */
  lemma {:induction false} InsertPresent(keys: seq<Key>, k: Key)
    requires Ascending(keys) && k in keys
    ensures Insert(keys, k) == keys
  {
    SplitFirst(keys);
    if k != keys[0] {
      assert k in Elements(keys[1..]);
      InsertPresent(keys[1..], k);
    }
  }

  /** `sessions_.erase(k)` on the in-order sequence: a key that is absent leaves it as it was. */
  function Erase(keys: seq<Key>, k: Key): (r: seq<Key>)
    requires Ascending(keys)
    ensures Ascending(r)
    ensures Elements(r) == Elements(keys) - {k}
    ensures k !in keys ==> r == keys
    ensures k in keys ==> |r| == |keys| - 1
  {
    if keys == [] then []
    else if k == keys[0] then
      SplitFirst(keys);
      keys[1..]
    else
      assert Ascending(keys[1..]) by { SplitFirst(keys); }
      var tail := Erase(keys[1..], k);
      EraseBehind(keys, k, tail);
      [keys[0]] + tail
  }

  lemma EraseBehind(keys: seq<Key>, k: Key, tail: seq<Key>)
    requires Ascending(keys) && keys != [] && keys[0] != k
    requires Ascending(tail) && Elements(tail) == Elements(keys[1..]) - {k}
    requires k !in keys[1..] ==> tail == keys[1..]
    ensures Ascending([keys[0]] + tail)
    ensures Elements([keys[0]] + tail) == Elements(keys) - {k}
    ensures k !in keys ==> [keys[0]] + tail == keys
  {
    SplitFirst(keys);
    PrependAscending(keys[0], tail);
    ElementsPrepend(keys[0], tail);
  }

  /** An ascending sequence is its first key followed by larger keys. */
  lemma SplitFirst(keys: seq<Key>)
    requires Ascending(keys) && keys != []
    ensures keys == [keys[0]] + keys[1..]
    ensures Ascending(keys[1..])
    ensures Elements(keys) == {keys[0]} + Elements(keys[1..])
    ensures forall x :: x in Elements(keys[1..]) ==> keys[0] < x
  {
    forall x | x in Elements(keys[1..]) ensures keys[0] < x {
      var i :| 0 <= i < |keys[1..]| && keys[1..][i] == x;
      assert keys[i + 1] == x;
    }
  }

  lemma ElementsPrepend(k: Key, keys: seq<Key>)
    ensures Elements([k] + keys) == {k} + Elements(keys)
  {
    assert forall x :: x in [k] + keys <==> x == k || x in keys;
  }

  lemma PrependAscending(k: Key, keys: seq<Key>)
    requires Ascending(keys)
    requires forall x :: x in Elements(keys) ==> k < x
    ensures Ascending([k] + keys)
  {
    var r := [k] + keys;
    forall i, j | 0 <= i < j < |r| ensures r[i] < r[j] {
      assert r[j] == keys[j - 1];
      assert keys[j - 1] in Elements(keys);
    }
  }

  /** `ChatRoom::join` / `ChatRoom::add_participant`. */
  function Join(room: Room, k: Key): (r: Room)
    requires Valid(room)
    ensures Valid(r)
    ensures Members(r) == Members(room) + {k}
    ensures k in Members(room) ==> r == room
  {
    assert k in room.keys ==> Insert(room.keys, k) == room.keys by {
      if k in room.keys { InsertPresent(room.keys, k); }
    }
    Room(Insert(room.keys, k))
  }

  /** `ChatRoom::leave`. */
  function Leave(room: Room, k: Key): (r: Room)
    requires Valid(room)
    ensures Valid(r)
    ensures Members(r) == Members(room) - {k}
    ensures k !in Members(room) ==> r == room
  {
    Room(Erase(room.keys, k))
  }

  /** `sessions_.size()`: an ascending sequence has no repeated key, so this is the number of members. */
  function Size(room: Room): (n: nat)
    requires Valid(room)
    ensures n == |Members(room)|
  {
    DistinctCount(room.keys);
    |room.keys|
  }

  lemma {:induction false} DistinctCount(keys: seq<Key>)
    requires Ascending(keys)
    ensures |Elements(keys)| == |keys|
  {
    if keys != [] {
      DistinctCount(keys[1..]);
      assert Elements(keys) == {keys[0]} + Elements(keys[1..]);
      assert keys[0] !in keys[1..];
    }
  }

  /** One write of `msg` to the member `to`. */
  datatype Delivery = Delivery(to: Key, msg: seq<byte>)

  /** The number of deliveries addressed to `k`. */
  function CountTo(sends: seq<Delivery>, k: Key): nat {
    if sends == [] then 0
    else (if sends[0].to == k then 1 else 0) + CountTo(sends[1..], k)
  }

  /**
   * `ChatRoom::deliver`: one write of the same message per member, in the
   * set's iteration order, the sender included when it is a member.
   */
  function Deliver(room: Room, msg: seq<byte>): (sends: seq<Delivery>)
    requires Valid(room)
    ensures |sends| == Size(room)
    ensures forall i :: 0 <= i < |sends| ==> sends[i].msg == msg && sends[i].to in Members(room)
    ensures forall i, j :: 0 <= i < j < |sends| ==> sends[i].to < sends[j].to
  {
    seq(|room.keys|, i requires 0 <= i < |room.keys| => Delivery(room.keys[i], msg))
  }

  /** Every member receives the message exactly once, and nobody else receives it. */
  lemma DeliverExactlyOnce(room: Room, msg: seq<byte>, k: Key)
    requires Valid(room)
    ensures CountTo(Deliver(room, msg), k) == if k in Members(room) then 1 else 0
  {
    var sends := Deliver(room, msg);
    CountAscending(sends, k);
    if k in Members(room) {
      var i :| 0 <= i < |room.keys| && room.keys[i] == k;
      assert sends[i].to == k;
    }
  }

  lemma {:induction false} CountAscending(sends: seq<Delivery>, k: Key)
    requires forall i, j :: 0 <= i < j < |sends| ==> sends[i].to < sends[j].to
    ensures CountTo(sends, k) == if exists i :: 0 <= i < |sends| && sends[i].to == k then 1 else 0
  {
    if sends != [] {
      CountAscending(sends[1..], k);
      if sends[0].to == k {
        assert forall i :: 0 <= i < |sends[1..]| ==> sends[1..][i].to != k by {
          forall i | 0 <= i < |sends[1..]| ensures sends[1..][i].to != k {
            assert sends[1..][i] == sends[i + 1];
          }
        }
      } else {
        if exists i :: 0 <= i < |sends| && sends[i].to == k {
          var i :| 0 <= i < |sends| && sends[i].to == k;
          assert sends[1..][i - 1] == sends[i];
        }
      }
    }
  }

  /** Joining twice is joining once. */
  lemma JoinIdempotent(room: Room, k: Key)
    requires Valid(room)
    ensures Join(Join(room, k), k) == Join(room, k)
  {
  }

  /** Leaving when absent, or a second time, changes nothing. */
  lemma LeaveIdempotent(room: Room, k: Key)
    requires Valid(room)
    ensures Leave(Leave(room, k), k) == Leave(room, k)
    ensures k !in Members(room) ==> Leave(room, k) == room
  {
  }

  /** Every key of `ks` joining, one after another. */
  function JoinAll(room: Room, ks: seq<Key>): (r: Room)
    requires Valid(room)
    ensures Valid(r)
    ensures Members(r) == Members(room) + Elements(ks)
    decreases |ks|
  {
    if ks == [] then room else JoinAll(Join(room, ks[0]), ks[1..])
  }

  /** Every key of `ks` leaving, one after another. */
  function LeaveAll(room: Room, ks: seq<Key>): (r: Room)
    requires Valid(room)
    ensures Valid(r)
    ensures Members(r) == Members(room) - Elements(ks)
    decreases |ks|
  {
    if ks == [] then room else LeaveAll(Leave(room, ks[0]), ks[1..])
  }

  /**
   * N distinct sessions joining an empty room and then M of them leaving
   * leave exactly N - M members, whatever order the joins take among
   * themselves and the leaves among themselves.
   */
  lemma JoinThenLeaveCount(joined: seq<Key>, left: seq<Key>)
    requires forall i, j :: 0 <= i < j < |joined| ==> joined[i] != joined[j]
    requires forall i, j :: 0 <= i < j < |left| ==> left[i] != left[j]
    requires forall k :: k in left ==> k in joined
    ensures Size(LeaveAll(JoinAll(Empty, joined), left)) == |joined| - |left|
  {
    var js := Elements(joined);
    var ls := Elements(left);
    DistinctSetSize(joined);
    DistinctSetSize(left);
    assert ls <= js;
    assert Members(LeaveAll(JoinAll(Empty, joined), left)) == js - ls;
    assert |js - ls| == |js| - |ls|;
  }

  lemma {:induction false} DistinctSetSize(ks: seq<Key>)
    requires forall i, j :: 0 <= i < j < |ks| ==> ks[i] != ks[j]
    ensures |Elements(ks)| == |ks|
  {
    if ks != [] {
      DistinctSetSize(ks[1..]);
      assert Elements(ks) == {ks[0]} + Elements(ks[1..]);
      assert ks[0] !in ks[1..];
    }
  }
}
