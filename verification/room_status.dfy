/** Bulk status writes on the Room table: the `updateMany` behind
    `updateRoomStatus`, and the stale-room sweep `cleanupStaleRooms`. */
module RoomStatusOps {
  import opened Wrappers
  import opened Entities

  /** A WAITING room is stale when its last heartbeat is older than this. */
  const StaleAfterMs: int := 30 * 1000

  /** `updateRoomStatus(ids, status)`: every room whose id is listed gets the
      new status and `matchedAt := now` (whatever the status); every other
      room is left alone. */
  function UpdateRoomStatus(store: seq<Room>, ids: set<RoomId>, status: RoomStatus, now: int): (out: seq<Room>)
    ensures |out| == |store|
    ensures forall i :: 0 <= i < |store| && store[i].id in ids ==>
              out[i] == store[i].(status := status, matchedAt := Some(now))
    ensures forall i :: 0 <= i < |store| && store[i].id !in ids ==> out[i] == store[i]
  {
    if |store| == 0 then []
    else
      var r := store[0];
      [if r.id in ids then r.(status := status, matchedAt := Some(now)) else r]
        + UpdateRoomStatus(store[1..], ids, status, now)
  }

  /** The last of two writes to the same rooms wins. */
  lemma UpdateRoomStatusLastWriteWins(store: seq<Room>, ids: set<RoomId>, s1: RoomStatus, s2: RoomStatus, t1: int, t2: int)
    ensures UpdateRoomStatus(UpdateRoomStatus(store, ids, s1, t1), ids, s2, t2)
         == UpdateRoomStatus(store, ids, s2, t2)
  {
  }

  predicate IsStale(r: Room, now: int) {
    r.status == Waiting && r.lastPing < now - StaleAfterMs
  }

  /** Reference definition of the cleanup: exactly the stale rooms expire. */
  function ExpireStale(store: seq<Room>, now: int): (out: seq<Room>)
    ensures |out| == |store|
    ensures forall i :: 0 <= i < |store| && IsStale(store[i], now) ==>
              out[i] == store[i].(status := Expired)
    ensures forall i :: 0 <= i < |store| && !IsStale(store[i], now) ==> out[i] == store[i]
  {
    if |store| == 0 then []
    else
      [if IsStale(store[0], now) then store[0].(status := Expired) else store[0]]
        + ExpireStale(store[1..], now)
  }

  function CountStale(store: seq<Room>, now: int): nat
  {
    if |store| == 0 then 0
    else (if IsStale(store[0], now) then 1 else 0) + CountStale(store[1..], now)
  }

  lemma {:induction false} CountStaleAppend(a: seq<Room>, b: seq<Room>, now: int)
    ensures CountStale(a + b, now) == CountStale(a, now) + CountStale(b, now)
  {
    if |a| == 0 {
      assert a + b == b;
    } else {
      assert (a + b)[0] == a[0];
      assert (a + b)[1..] == a[1..] + b;
      CountStaleAppend(a[1..], b, now);
    }
  }

  /** `cleanupStaleRooms`: expire every stale room and report how many. */
  method CleanupStaleRooms(store: seq<Room>, now: int) returns (out: seq<Room>, count: nat)
    ensures out == ExpireStale(store, now)
    ensures |out| == |store|
    ensures forall i :: 0 <= i < |store| ==>
              out[i] == (if IsStale(store[i], now) then store[i].(status := Expired) else store[i])
    ensures count == CountStale(store, now)
  {
    out := [];
    count := 0;
    var k := 0;
    while k < |store|
      invariant 0 <= k <= |store|
      invariant |out| == k
      invariant forall i :: 0 <= i < k ==>
                  out[i] == (if IsStale(store[i], now) then store[i].(status := Expired) else store[i])
      invariant count == CountStale(store[..k], now)
    {
      var r := store[k];
      CountStaleAppend(store[..k], [r], now);
      assert store[..k + 1] == store[..k] + [r];
      if IsStale(r, now) {
        out := out + [r.(status := Expired)];
        count := count + 1;
      } else {
        out := out + [r];
      }
      k := k + 1;
    }
    assert store[..k] == store;
  }

  /** After a cleanup no room is stale any more. */
  lemma ExpireStaleLeavesNoStale(store: seq<Room>, now: int)
    ensures forall i :: 0 <= i < |store| ==> !IsStale(ExpireStale(store, now)[i], now)
  {
  }

  /** Running the cleanup twice at the same instant changes nothing more. */
  lemma ExpireStaleIdempotent(store: seq<Room>, now: int)
    ensures ExpireStale(ExpireStale(store, now), now) == ExpireStale(store, now)
  {
  }

  /** Expiring rooms never adds a WAITING room, so the one-waiting-room
      invariant survives the cleanup. */
  lemma {:induction false} ExpireStaleKeepsWaitingBound(store: seq<Room>, now: int, u: UserId)
    ensures CountWaiting(ExpireStale(store, now), u) <= CountWaiting(store, u)
  {
    if |store| > 0 {
      var out := ExpireStale(store, now);
      assert out[1..] == ExpireStale(store[1..], now);
      ExpireStaleKeepsWaitingBound(store[1..], now, u);
    }
  }

  lemma ExpireStalePreservesInvariant(store: seq<Room>, now: int)
    requires AtMostOneWaitingPerUser(store)
    ensures AtMostOneWaitingPerUser(ExpireStale(store, now))
  {
    forall u ensures CountWaiting(ExpireStale(store, now), u) <= 1 {
      ExpireStaleKeepsWaitingBound(store, now, u);
    }
  }
}
