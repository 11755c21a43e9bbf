/** `RoomService.createRoom`: look the user up by clerk id, delete all of
    that user's WAITING rooms, then create one created WAITING room. This is
    what keeps at most one WAITING room per user. */
module RoomJoin {
  import opened Wrappers
  import opened Entities

  const AccountNotFound: string := "We couldn't find your account."
  const RoomCreated: string := "Room created successfully"

  datatype Joined = Joined(store: seq<Room>, roomId: RoomId, message: string)

  /** The user's rooms, in store order. */
  function RoomsOf(store: seq<Room>, u: UserId): (r: seq<Room>)
    ensures forall x :: x in r <==> x in store && x.userId == u
  {
    if |store| == 0 then []
    else (if store[0].userId == u then [store[0]] else []) + RoomsOf(store[1..], u)
  }

  /** `room.deleteMany({ where: { userId, status: 'WAITING' } })`. */
  function DeleteWaiting(store: seq<Room>, u: UserId): (out: seq<Room>)
    ensures forall x :: x in out <==> x in store && !IsWaitingOf(x, u)
    ensures |out| == |store| - CountWaiting(store, u)
  {
    if |store| == 0 then []
    else (if IsWaitingOf(store[0], u) then [] else [store[0]]) + DeleteWaiting(store[1..], u)
  }

  /** The row `room.create({ data: { userId } })` inserts: WAITING, with the
      creation time as both `createdAt` and `lastPing`. */
  function NewRoom(id: RoomId, u: UserId, now: int): Room {
    Room(id, u, Waiting, now, now, None)
  }

  /** `createRoom`: fails, touching nothing, when no user has the clerk id. */
  function CreateRoom(store: seq<Room>, users: seq<User>, clerkId: string, newId: RoomId, now: int): (r: Result<Joined, string>)
    ensures r.Failure? <==> forall i :: 0 <= i < |users| ==> users[i].clerkId != clerkId
    ensures r.Failure? ==> r.error == AccountNotFound
    ensures r.Success? ==> r.value.roomId == newId && |r.value.store| > 0
    ensures r.Success? ==> r.value.message == RoomCreated
  {
    match FindUserByClerkId(users, clerkId)
    case None => Failure(AccountNotFound)
    case Some(user) =>
      Success(Joined(DeleteWaiting(store, user.id) + [NewRoom(newId, user.id, now)], newId, RoomCreated))
  }

  /** The owner of the new room is the first user with the clerk id. */
  function JoiningUser(users: seq<User>, clerkId: string): Option<UserId> {
    match FindUserByClerkId(users, clerkId)
    case None => None
    case Some(user) => Some(user.id)
  }

  lemma {:induction false} RoomsOfAppend(a: seq<Room>, b: seq<Room>, u: UserId)
    ensures RoomsOf(a + b, u) == RoomsOf(a, u) + RoomsOf(b, u)
  {
    if |a| == 0 {
      assert a + b == b;
    } else {
      assert (a + b)[0] == a[0];
      assert (a + b)[1..] == a[1..] + b;
      RoomsOfAppend(a[1..], b, u);
    }
  }

  lemma {:induction false} DeleteWaitingKeepsOthers(store: seq<Room>, u: UserId, v: UserId)
    requires v != u
    ensures RoomsOf(DeleteWaiting(store, u), v) == RoomsOf(store, v)
  {
    if |store| > 0 {
      var head := if IsWaitingOf(store[0], u) then [] else [store[0]];
      assert DeleteWaiting(store, u) == head + DeleteWaiting(store[1..], u);
      RoomsOfAppend(head, DeleteWaiting(store[1..], u), v);
      DeleteWaitingKeepsOthers(store[1..], u, v);
    }
  }

  lemma {:induction false} DeleteWaitingKeepsCount(store: seq<Room>, u: UserId, v: UserId)
    requires v != u
    ensures CountWaiting(DeleteWaiting(store, u), v) == CountWaiting(store, v)
  {
    if |store| > 0 {
      var head := if IsWaitingOf(store[0], u) then [] else [store[0]];
      assert DeleteWaiting(store, u) == head + DeleteWaiting(store[1..], u);
      CountWaitingAppend(head, DeleteWaiting(store[1..], u), v);
      DeleteWaitingKeepsCount(store[1..], u, v);
    }
  }

  /** The user's rooms that are not WAITING, in store order. */
  function SettledRoomsOf(store: seq<Room>, u: UserId): seq<Room>
  {
    if |store| == 0 then []
    else (if store[0].userId == u && store[0].status != Waiting then [store[0]] else [])
         + SettledRoomsOf(store[1..], u)
  }

  lemma {:induction false} SettledRoomsOfAppend(a: seq<Room>, b: seq<Room>, u: UserId)
    ensures SettledRoomsOf(a + b, u) == SettledRoomsOf(a, u) + SettledRoomsOf(b, u)
  {
    if |a| == 0 {
      assert a + b == b;
    } else {
      assert (a + b)[0] == a[0];
      assert (a + b)[1..] == a[1..] + b;
      SettledRoomsOfAppend(a[1..], b, u);
    }
  }

  lemma {:induction false} DeleteWaitingKeepsSettled(store: seq<Room>, u: UserId)
    ensures SettledRoomsOf(DeleteWaiting(store, u), u) == SettledRoomsOf(store, u)
  {
    if |store| > 0 {
      var head := if IsWaitingOf(store[0], u) then [] else [store[0]];
      assert DeleteWaiting(store, u) == head + DeleteWaiting(store[1..], u);
      SettledRoomsOfAppend(head, DeleteWaiting(store[1..], u), u);
      DeleteWaitingKeepsSettled(store[1..], u);
    }
  }

  /** After a successful join the user has exactly one WAITING room, the new
      one (the last row); the user's MATCHED, EXPIRED and PROCESSING rooms
      are kept in order, other users' rooms are untouched, and so is every
      other user's count of WAITING rooms. */
  lemma CreateRoomEffect(store: seq<Room>, users: seq<User>, clerkId: string, newId: RoomId, now: int)
    requires CreateRoom(store, users, clerkId, newId, now).Success?
    ensures var u := JoiningUser(users, clerkId).value;
            var out := CreateRoom(store, users, clerkId, newId, now).value.store;
            && CountWaiting(out, u) == 1
            && out[|out| - 1] == NewRoom(newId, u, now)
            && (forall i :: 0 <= i < |out| - 1 ==> !IsWaitingOf(out[i], u))
            && SettledRoomsOf(out, u) == SettledRoomsOf(store, u)
            && (forall v :: v != u ==> RoomsOf(out, v) == RoomsOf(store, v))
            && (forall v :: v != u ==> CountWaiting(out, v) == CountWaiting(store, v))
  {
    var u := JoiningUser(users, clerkId).value;
    var kept := DeleteWaiting(store, u);
    var created := [NewRoom(newId, u, now)];
    var out := kept + created;
    assert CreateRoom(store, users, clerkId, newId, now).value.store == out;
    CountWaitingAppend(kept, created, u);
    CountWaitingZero(kept, u);
    assert CountWaiting(created, u) == 1;
    forall i | 0 <= i < |out| - 1 ensures !IsWaitingOf(out[i], u) {
      assert out[i] == kept[i] && kept[i] in kept;
    }
    SettledRoomsOfAppend(kept, created, u);
    DeleteWaitingKeepsSettled(store, u);
    assert SettledRoomsOf(created, u) == [];
    forall v | v != u ensures RoomsOf(out, v) == RoomsOf(store, v) && CountWaiting(out, v) == CountWaiting(store, v) {
      RoomsOfAppend(kept, created, v);
      DeleteWaitingKeepsOthers(store, u, v);
      assert RoomsOf(created, v) == [];
      CountWaitingAppend(kept, created, v);
      DeleteWaitingKeepsCount(store, u, v);
    }
  }

  /** Joining preserves the store invariant "at most one WAITING room per user". */
  lemma CreateRoomPreservesInvariant(store: seq<Room>, users: seq<User>, clerkId: string, newId: RoomId, now: int)
    requires AtMostOneWaitingPerUser(store)
    requires CreateRoom(store, users, clerkId, newId, now).Success?
    ensures AtMostOneWaitingPerUser(CreateRoom(store, users, clerkId, newId, now).value.store)
  {
    CreateRoomEffect(store, users, clerkId, newId, now);
    var u := JoiningUser(users, clerkId).value;
    var out := CreateRoom(store, users, clerkId, newId, now).value.store;
    forall v ensures CountWaiting(out, v) <= 1 {
      if v != u {
        assert CountWaiting(store, v) <= 1;
      }
    }
  }

  /** Joining twice in a row still leaves exactly one WAITING room for the
      user: the one the second call created. */
  lemma CreateRoomTwice(store: seq<Room>, users: seq<User>, clerkId: string, id1: RoomId, id2: RoomId, t1: int, t2: int)
    requires CreateRoom(store, users, clerkId, id1, t1).Success?
    ensures var once := CreateRoom(store, users, clerkId, id1, t1).value.store;
            var twice := CreateRoom(once, users, clerkId, id2, t2);
            && twice.Success?
            && CountWaiting(twice.value.store, JoiningUser(users, clerkId).value) == 1
            && twice.value.store[|twice.value.store| - 1] == NewRoom(id2, JoiningUser(users, clerkId).value, t2)
  {
    var once := CreateRoom(store, users, clerkId, id1, t1).value.store;
    CreateRoomEffect(once, users, clerkId, id2, t2);
  }
}
