/** The persistent records the matchmaking core reads and writes: rooms
    (one per matchmaking attempt), users with their optional profile
    information, and the event pushed to a user when a match is found.
    Timestamps are integer milliseconds. */
module Entities {
  import opened Wrappers

  type RoomId = string
  type UserId = string

  datatype RoomStatus = Waiting | Processing | Matched | Expired

  /** A row of the Room table. `matchedAt` is null until a status update writes it. */
  datatype Room = Room(
    id: RoomId,
    userId: UserId,
    status: RoomStatus,
    createdAt: int,
    lastPing: int,
    matchedAt: Option<int>)

  /** The profile row joined to a user (`additionalInfo`). */
  datatype AdditionalInfo = AdditionalInfo(
    tierProgress: int,
    tierId: string,
    preferredLanguage: string)

  datatype User = User(
    id: UserId,
    clerkId: string,
    firstName: string,
    lastName: string,
    avatarConfig: string,
    additionalInfo: Option<AdditionalInfo>)

  /** What a match-found event tells a user about their opponent. */
  datatype UserPayload = UserPayload(
    name: string,
    language: string,
    profileRank: int,
    tierLevel: Option<string>,
    avatar: string)

  datatype EventType = MatchFound | MatchNotFound

  datatype RoomEvent = RoomEvent(kind: EventType, user: Option<UserPayload>)

  /** A room that counts towards the "one waiting room per user" rule. */
  predicate IsWaitingOf(r: Room, u: UserId) {
    r.userId == u && r.status == Waiting
  }

  /** Number of WAITING rooms that `u` owns in `store`. */
  function CountWaiting(store: seq<Room>, u: UserId): nat
  {
    if |store| == 0 then 0
    else (if IsWaitingOf(store[0], u) then 1 else 0) + CountWaiting(store[1..], u)
  }

  /** The store invariant the join operation maintains. */
  ghost predicate AtMostOneWaitingPerUser(store: seq<Room>) {
    forall u :: CountWaiting(store, u) <= 1
  }

  predicate NoneProcessing(store: seq<Room>) {
    forall i :: 0 <= i < |store| ==> store[i].status != Processing
  }

  /** The ids of the rooms in `rooms`. */
  function IdsOf(rooms: seq<Room>): set<RoomId>
  {
    set i | 0 <= i < |rooms| :: rooms[i].id
  }

  lemma {:induction false} CountWaitingAppend(a: seq<Room>, b: seq<Room>, u: UserId)
    ensures CountWaiting(a + b, u) == CountWaiting(a, u) + CountWaiting(b, u)
  {
    if |a| == 0 {
      assert a + b == b;
    } else {
      assert (a + b)[0] == a[0];
      assert (a + b)[1..] == a[1..] + b;
      CountWaitingAppend(a[1..], b, u);
    }
  }

  lemma {:induction false} CountWaitingZero(store: seq<Room>, u: UserId)
    requires forall x :: x in store ==> !IsWaitingOf(x, u)
    ensures CountWaiting(store, u) == 0
  {
    if |store| > 0 {
      assert store[0] in store;
      assert forall x :: x in store[1..] ==> x in store;
      CountWaitingZero(store[1..], u);
    }
  }

  /** `user.findFirst({ where: { id } })`: the first user row with that id. */
  function FindUser(users: seq<User>, id: UserId): (r: Option<User>)
    ensures r.None? <==> forall i :: 0 <= i < |users| ==> users[i].id != id
    ensures r.Some? ==> r.value.id == id && r.value in users
  {
    if |users| == 0 then None
    else if users[0].id == id then Some(users[0])
    else FindUser(users[1..], id)
  }

  /** `user.findFirst({ where: { clerkId } })`: the first user row with that clerk id. */
  function FindUserByClerkId(users: seq<User>, clerkId: string): (r: Option<User>)
    ensures r.None? <==> forall i :: 0 <= i < |users| ==> users[i].clerkId != clerkId
    ensures r.Some? ==> exists i :: 0 <= i < |users| && users[i] == r.value && r.value.clerkId == clerkId
                          && forall j :: 0 <= j < i ==> users[j].clerkId != clerkId
  {
    if |users| == 0 then None
    else if users[0].clerkId == clerkId then Some(users[0])
    else
      var r := FindUserByClerkId(users[1..], clerkId);
      assert r.Some? ==> exists i :: 0 <= i < |users[1..]| && users[1..][i] == r.value && users[i + 1] == r.value;
      r
  }
}
