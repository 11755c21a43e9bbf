/** `handleMatchMatckingCron`: one pass over the batch of WAITING rooms the
    database claimed, as a left fold. Each room not yet matched in this pass
    goes to PROCESSING, looks for the closest opponent among the OTHER
    users' rooms of the batch, and then either goes back to WAITING (no
    opponent, or any later step threw) or is MATCHED together with the
    opponent, gets a competition and both users get notified. */
module MatchSweep {
  import opened Wrappers
  import opened Entities
  import opened RoomStatusOps
  import opened OpponentSelection
  import opened GeneratedPayload
  import opened RoomEvents

  /** The fields read from the parsed generation result. */
  datatype Generated = Generated(question: string, endDateTime: string)

  datatype Competition = Competition(question: string, endDateTime: string, participants: seq<UserId>)

  /** The sweep's collaborators, as values: the user table with profiles,
      the tier-label table, the content generator (the two minigame payload
      requests and the Gemini call; `None` when any of them throws), the
      JSON parser, and whether both Pusher triggers resolved. */
  datatype Env = Env(
    users: seq<User>,
    tierLevels: map<string, string>,
    generate: (User, User) -> Option<string>,
    parse: string -> Option<Generated>,
    delivered: (UserId, UserId) -> bool)

  /** One Pusher trigger: the channel, the event and the competition id. */
  datatype Notice = Notice(channel: string, event: RoomEvent, competitionId: nat)

  /** A completed match of this sweep. */
  datatype Pairing = Pairing(
    roomId: RoomId,
    opponentRoomId: RoomId,
    userId: UserId,
    opponentUserId: UserId,
    competitionId: nat,
    toUser: Notice,
    toOpponent: Notice)

  /** The room store, the ids in `matchedRoomIds`, the competitions created
      so far (a competition's id is its position here) and the completed
      matches. */
  datatype SweepState = SweepState(
    store: seq<Room>,
    matched: set<RoomId>,
    competitions: seq<Competition>,
    pairings: seq<Pairing>)

  /** Which rooms of the batch count as opponents: the source filters out
      only the current user's own rooms; `ExcludeMatched` also leaves out
      rooms already matched in this sweep. */
  datatype OpponentPolicy = AsWritten | ExcludeMatched

  /** Same table, same rows: only the status and `matchedAt` of a room may
      differ, never its id or its owner. */
  predicate SameRows(a: seq<Room>, b: seq<Room>) {
    |a| == |b| && forall j :: 0 <= j < |a| ==> a[j].id == b[j].id && a[j].userId == b[j].userId
  }

  function Channel(u: UserId): string {
    "user-" + u + "-room"
  }

  predicate IsOpponentRoom(r: Room, u: UserId, matched: set<RoomId>, policy: OpponentPolicy) {
    r.userId != u && (policy == ExcludeMatched ==> r.id !in matched)
  }

  /** `usersInWaitingList.filter(opponent => opponent.userId !== user.id)`. */
  function OpponentRooms(batch: seq<Room>, u: UserId, matched: set<RoomId>, policy: OpponentPolicy): (r: seq<Room>)
    ensures forall i :: 0 <= i < |r| ==> r[i] in batch && IsOpponentRoom(r[i], u, matched, policy)
    ensures forall x :: x in batch && IsOpponentRoom(x, u, matched, policy) ==> x in r
  {
    if |batch| == 0 then []
    else
      var rest := OpponentRooms(batch[1..], u, matched, policy);
      assert forall x :: x in batch[1..] ==> x in batch;
      if IsOpponentRoom(batch[0], u, matched, policy) then [batch[0]] + rest else rest
  }

  /** The filter keeps the batch order: filtering a concatenation is the
      concatenation of the filtered parts, so the opponents come in scan
      order and each room appears as often as in the batch. */
  lemma {:induction false} OpponentRoomsAppend(a: seq<Room>, b: seq<Room>, u: UserId, matched: set<RoomId>, policy: OpponentPolicy)
    ensures OpponentRooms(a + b, u, matched, policy) == OpponentRooms(a, u, matched, policy) + OpponentRooms(b, u, matched, policy)
  {
    if |a| == 0 {
      assert a + b == b;
    } else {
      assert (a + b)[0] == a[0];
      assert (a + b)[1..] == a[1..] + b;
      OpponentRoomsAppend(a[1..], b, u, matched, policy);
    }
  }

  /** The tier progress `findOpponent` sees for a room owner: `None` when the
      user row or its `additionalInfo` is missing. */
  function TierOf(users: seq<User>, u: UserId): Option<int> {
    match FindUser(users, u)
    case None => None
    case Some(user) =>
      if user.additionalInfo.None? then None else Some(user.additionalInfo.value.tierProgress)
  }

  /** A tier exists exactly when the user row and its profile do, and it is
      then the `tierProgress` of a row of the table with that id. */
  lemma TierOfSpec(users: seq<User>, u: UserId)
    ensures (forall i :: 0 <= i < |users| ==> users[i].id != u) ==> TierOf(users, u).None?
    ensures TierOf(users, u).Some? <==> FindUser(users, u).Some? && FindUser(users, u).value.additionalInfo.Some?
    ensures TierOf(users, u).Some? ==>
              exists x :: x in users && x.id == u && x.additionalInfo.Some?
                          && TierOf(users, u).value == x.additionalInfo.value.tierProgress
  {
    if TierOf(users, u).Some? {
      var x := FindUser(users, u).value;
      assert x in users && x.id == u;
    }
  }

  function Candidates(rooms: seq<Room>, users: seq<User>): (cs: seq<Candidate>)
    ensures |cs| == |rooms|
    ensures forall i :: 0 <= i < |rooms| ==> cs[i] == Candidate(rooms[i], TierOf(users, rooms[i].userId))
  {
    seq(|rooms|, i requires 0 <= i < |rooms| => Candidate(rooms[i], TierOf(users, rooms[i].userId)))
  }

  /** `handleCreateCompetition`: generate, extract and parse; `None` when any
      step throws (a failed generation, or a null parse result whose
      destructuring throws). */
  function CreateCompetition(user: User, opponent: User, env: Env): (r: Option<Competition>)
    ensures r.Some? ==> r.value.participants == [user.id, opponent.id]
    ensures r.Some? ==> ExtractAndParseJSON(env.generate(user, opponent), env.parse)
                          == Some(Generated(r.value.question, r.value.endDateTime))
    ensures r.Some? <==> env.generate(user, opponent).Some?
                         && ExtractAndParseJSON(env.generate(user, opponent), env.parse).Some?
  {
    match env.generate(user, opponent)
    case None => None
    case Some(raw) =>
      match ExtractAndParseJSON(Some(raw), env.parse)
      case None => None
      case Some(g) => Some(Competition(g.question, g.endDateTime, [user.id, opponent.id]))
  }

  /** What the work after the PROCESSING write comes to for the claimed room
      `w`: no opponent (or the user row or its profile is missing, which
      makes the source throw before an opponent is chosen); an opponent was
      chosen but competition creation or notification threw, with the
      competition if it had been created; or a completed match. */
  datatype Attempt =
    | NoOpponent
    | Failed(opp: Room, created: seq<Competition>)
    | Completed(opp: Room, user: User, oppUser: User, comp: Competition)

  /** The position `findOpponent` picks among the opponent rooms of `w`:
      the closest tier, the first one on ties; `None` when `w`'s owner has
      no tier or no opponent has one. */
  function Choice(policy: OpponentPolicy, batch: seq<Room>, env: Env, matched: set<RoomId>, w: Room): (k: Option<nat>)
    ensures k.Some? ==> TierOf(env.users, w.userId).Some?
    ensures k.Some? ==> k.value < |OpponentRooms(batch, w.userId, matched, policy)|
                        && TierOf(env.users, OpponentRooms(batch, w.userId, matched, policy)[k.value].userId).Some?
  {
    match TierOf(env.users, w.userId)
    case None => None
    case Some(t) =>
      var cands := Candidates(OpponentRooms(batch, w.userId, matched, policy), env.users);
      var k := SelectIndex(cands, t);
      assert k.Some? ==> HasInfo(cands[k.value]);
      k
  }

  /** The attempt for `w`; the contract records what the step relies on,
      and `TryMatchChoosesFindOpponent` and `TryMatchOutcome` say which
      opponent it takes and how the attempt ends. */
  function TryMatch(policy: OpponentPolicy, batch: seq<Room>, env: Env, matched: set<RoomId>, w: Room): (a: Attempt)
    ensures !a.NoOpponent? ==> a.opp in batch && IsOpponentRoom(a.opp, w.userId, matched, policy)
    ensures a.Failed? ==> |a.created| <= 1
    ensures a.Completed? ==>
              && FindUser(env.users, w.userId) == Some(a.user)
              && FindUser(env.users, a.opp.userId) == Some(a.oppUser)
              && a.user.additionalInfo.Some? && a.oppUser.additionalInfo.Some?
              && a.user.id == w.userId && a.oppUser.id == a.opp.userId
              && a.comp.participants == [w.userId, a.opp.userId]
  {
    match Choice(policy, batch, env, matched, w)
    case None => NoOpponent
    case Some(k) =>
      var opp := OpponentRooms(batch, w.userId, matched, policy)[k];
      var user := FindUser(env.users, w.userId).value;
      var oppUser := FindUser(env.users, opp.userId).value;
      match CreateCompetition(user, oppUser, env)
      case None => Failed(opp, [])
      case Some(comp) =>
        if !env.delivered(user.id, oppUser.id) then Failed(opp, [comp])
        else Completed(opp, user, oppUser, comp)
  }

  /** There is no choice exactly when the claimed room's owner has no tier
      or no opponent room's owner has one. */
  lemma ChoiceNoneIff(policy: OpponentPolicy, batch: seq<Room>, env: Env, matched: set<RoomId>, w: Room)
    ensures var opps := OpponentRooms(batch, w.userId, matched, policy);
            Choice(policy, batch, env, matched, w).None? <==>
              || TierOf(env.users, w.userId).None?
              || forall i :: 0 <= i < |opps| ==> TierOf(env.users, opps[i].userId).None?
  {
    var opps := OpponentRooms(batch, w.userId, matched, policy);
    if TierOf(env.users, w.userId).Some? {
      var t := TierOf(env.users, w.userId).value;
      var cands := Candidates(opps, env.users);
      NoInfoMeansNoChoice(cands, t);
      assert forall i :: 0 <= i < |opps| ==> cands[i].tierProgress == TierOf(env.users, opps[i].userId);
    }
  }

  /** The opponent is the room `findOpponent` chooses among the opponent
      rooms, and there is none exactly when the claimed room's owner has no
      tier or no opponent room's owner has one. */
  lemma TryMatchChoosesFindOpponent(policy: OpponentPolicy, batch: seq<Room>, env: Env, matched: set<RoomId>, w: Room)
    ensures var a := TryMatch(policy, batch, env, matched, w);
            var opps := OpponentRooms(batch, w.userId, matched, policy);
            && (a.NoOpponent? <==>
                  || TierOf(env.users, w.userId).None?
                  || forall i :: 0 <= i < |opps| ==> TierOf(env.users, opps[i].userId).None?)
            && (!a.NoOpponent? ==>
                  && Choice(policy, batch, env, matched, w).Some?
                  && Choice(policy, batch, env, matched, w).value < |opps|
                  && a.opp == opps[Choice(policy, batch, env, matched, w).value])
  {
    ChoiceNoneIff(policy, batch, env, matched, w);
    var a := TryMatch(policy, batch, env, matched, w);
    assert a.NoOpponent? <==> Choice(policy, batch, env, matched, w).None?;
  }

  /** Once an opponent is chosen, the match completes exactly when the
      competition is created and both notifications are delivered; a failed
      attempt keeps the competition if it was created. */
  lemma TryMatchOutcome(policy: OpponentPolicy, batch: seq<Room>, env: Env, matched: set<RoomId>, w: Room)
    ensures var a := TryMatch(policy, batch, env, matched, w);
            !a.NoOpponent? ==>
              && FindUser(env.users, w.userId).Some? && FindUser(env.users, a.opp.userId).Some?
              && var u := FindUser(env.users, w.userId).value;
                 var o := FindUser(env.users, a.opp.userId).value;
                 var c := CreateCompetition(u, o, env);
                 && (a.Completed? <==> c.Some? && env.delivered(u.id, o.id))
                 && (a.Completed? ==> Some(a.comp) == c)
                 && (a.Failed? ==> a.created == if c.Some? then [c.value] else [])
  {
  }

  /** `findOpponent` returns nothing exactly when no candidate has a tier. */
  lemma NoInfoMeansNoChoice(cands: seq<Candidate>, current: int)
    ensures SelectIndex(cands, current).None? <==> forall i :: 0 <= i < |cands| ==> !HasInfo(cands[i])
  {
  }

  /** One iteration of the loop body for the claimed room `w`: PROCESSING
      first, then WAITING again unless the match completed; a chosen opponent
      is MATCHED even when the match later fails. */
  function Step(policy: OpponentPolicy, batch: seq<Room>, env: Env, now: int, st: SweepState, w: Room): SweepState
  {
    if w.id in st.matched then st
    else
      var processing := UpdateRoomStatus(st.store, {w.id}, Processing, now);
      match TryMatch(policy, batch, env, st.matched, w)
      case NoOpponent =>
        st.(store := UpdateRoomStatus(processing, {w.id}, Waiting, now))
      case Failed(opp, created) =>
        var both := UpdateRoomStatus(processing, {w.id, opp.id}, Matched, now);
        st.(store := UpdateRoomStatus(both, {w.id}, Waiting, now), competitions := st.competitions + created)
      case Completed(opp, user, oppUser, comp) =>
        var cid := |st.competitions|;
        var toUser := Notice(Channel(w.userId), GetRoomPayload(oppUser, env.tierLevels), cid);
        var toOpponent := Notice(Channel(opp.userId), GetRoomPayload(user, env.tierLevels), cid);
        SweepState(
          UpdateRoomStatus(processing, {w.id, opp.id}, Matched, now),
          st.matched + {w.id, opp.id},
          st.competitions + [comp],
          st.pairings + [Pairing(w.id, opp.id, w.userId, opp.userId, cid, toUser, toOpponent)])
  }

  /** The loop from position `i` of the batch on. */
  function Run(policy: OpponentPolicy, batch: seq<Room>, env: Env, now: int, st: SweepState, i: nat): SweepState
    requires i <= |batch|
    decreases |batch| - i
  {
    if i == |batch| then st
    else Run(policy, batch, env, now, Step(policy, batch, env, now, st, batch[i]), i + 1)
  }

  /** One sweep over the claimed `batch`, starting from the room `store`. */
  function Sweep(policy: OpponentPolicy, batch: seq<Room>, env: Env, now: int, store: seq<Room>): SweepState
  {
    Run(policy, batch, env, now, SweepState(store, {}, [], []), 0)
  }

  /** One iteration keeps every row's id and owner, only adds to
      `matchedRoomIds`, adds at most one match, and skips a room that is
      already matched. */
  lemma StepShape(policy: OpponentPolicy, batch: seq<Room>, env: Env, now: int, st: SweepState, w: Room)
    ensures var r := Step(policy, batch, env, now, st, w);
            && SameRows(st.store, r.store)
            && st.matched <= r.matched
            && |st.pairings| <= |r.pairings| <= |st.pairings| + 1
            && (w.id in st.matched ==> r == st)
  {
    if w.id !in st.matched {
      var p := UpdateRoomStatus(st.store, {w.id}, Processing, now);
      UpdateKeepsRows(st.store, {w.id}, Processing, now);
      match TryMatch(policy, batch, env, st.matched, w)
      case NoOpponent =>
        UpdateKeepsRows(p, {w.id}, Waiting, now);
        SameRowsTrans(st.store, p, UpdateRoomStatus(p, {w.id}, Waiting, now));
      case Failed(opp, created) =>
        var both := UpdateRoomStatus(p, {w.id, opp.id}, Matched, now);
        UpdateKeepsRows(p, {w.id, opp.id}, Matched, now);
        UpdateKeepsRows(both, {w.id}, Waiting, now);
        SameRowsTrans(st.store, p, both);
        SameRowsTrans(st.store, both, UpdateRoomStatus(both, {w.id}, Waiting, now));
      case Completed(opp, user, oppUser, comp) =>
        UpdateKeepsRows(p, {w.id, opp.id}, Matched, now);
        SameRowsTrans(st.store, p, UpdateRoomStatus(p, {w.id, opp.id}, Matched, now));
    }
  }

  lemma UpdateKeepsRows(store: seq<Room>, ids: set<RoomId>, status: RoomStatus, now: int)
    ensures SameRows(store, UpdateRoomStatus(store, ids, status, now))
  {
  }

  lemma SameRowsTrans(a: seq<Room>, b: seq<Room>, c: seq<Room>)
    requires SameRows(a, b) && SameRows(b, c)
    ensures SameRows(a, c)
  {
  }

  /** The rest of the loop from position `i`: the same, with at most one
      match per remaining room. */
  lemma {:induction false} RunShape(policy: OpponentPolicy, batch: seq<Room>, env: Env, now: int, st: SweepState, i: nat)
    requires i <= |batch|
    ensures var r := Run(policy, batch, env, now, st, i);
            && SameRows(st.store, r.store)
            && st.matched <= r.matched
            && |st.pairings| <= |r.pairings| <= |st.pairings| + (|batch| - i)
    decreases |batch| - i
  {
    if i < |batch| {
      StepShape(policy, batch, env, now, st, batch[i]);
      RunShape(policy, batch, env, now, Step(policy, batch, env, now, st, batch[i]), i + 1);
    }
  }

  /** A sweep keeps every row's id and owner and completes at most as many
      matches as the batch has rooms. */
  lemma SweepShape(policy: OpponentPolicy, batch: seq<Room>, env: Env, now: int, store: seq<Room>)
    ensures SameRows(store, Sweep(policy, batch, env, now, store).store)
    ensures |Sweep(policy, batch, env, now, store).pairings| <= |batch|
  {
    RunShape(policy, batch, env, now, SweepState(store, {}, [], []), 0);
  }

  // ---------------------------------------------------------------------
  // The three write patterns of a step, room by room

  /** No opponent: PROCESSING, then WAITING, for the claimed room only. */
  lemma RevertWrites(store: seq<Room>, wid: RoomId, now: int)
    ensures var out := UpdateRoomStatus(UpdateRoomStatus(store, {wid}, Processing, now), {wid}, Waiting, now);
            && |out| == |store|
            && (forall i :: 0 <= i < |store| && store[i].id == wid ==> out[i].status == Waiting)
            && (forall i :: 0 <= i < |store| && store[i].id != wid ==> out[i] == store[i])
  {
  }

  /** A match that failed after the MATCHED write: the claimed room ends
      WAITING, the opponent's room stays MATCHED. */
  lemma FailedWrites(store: seq<Room>, wid: RoomId, oid: RoomId, now: int)
    ensures var out := UpdateRoomStatus(UpdateRoomStatus(UpdateRoomStatus(store, {wid}, Processing, now),
                                                         {wid, oid}, Matched, now), {wid}, Waiting, now);
            && |out| == |store|
            && (forall i :: 0 <= i < |store| && store[i].id == wid ==> out[i].status == Waiting)
            && (forall i :: 0 <= i < |store| && store[i].id == oid && oid != wid ==> out[i].status == Matched)
            && (forall i :: 0 <= i < |store| && store[i].id != wid && store[i].id != oid ==> out[i] == store[i])
  {
    var p := UpdateRoomStatus(store, {wid}, Processing, now);
    var b := UpdateRoomStatus(p, {wid, oid}, Matched, now);
    var out := UpdateRoomStatus(b, {wid}, Waiting, now);
    forall i | 0 <= i < |store| && store[i].id == oid && oid != wid
      ensures out[i].status == Matched
    {
      assert p[i].id == oid;
      assert b[i].status == Matched && b[i].id == oid;
    }
  }

  /** A completed match: both rooms MATCHED. */
  lemma CompletedWrites(store: seq<Room>, wid: RoomId, oid: RoomId, now: int)
    ensures var out := UpdateRoomStatus(UpdateRoomStatus(store, {wid}, Processing, now), {wid, oid}, Matched, now);
            && |out| == |store|
            && (forall i :: 0 <= i < |store| && (store[i].id == wid || store[i].id == oid) ==> out[i].status == Matched)
            && (forall i :: 0 <= i < |store| && store[i].id != wid && store[i].id != oid ==> out[i] == store[i])
  {
  }

  /** A step with no opponent: the claimed room is back to WAITING and no
      other room changes. */
  lemma StepNoOpponentWrites(policy: OpponentPolicy, batch: seq<Room>, env: Env, now: int, st: SweepState, w: Room)
    ensures w.id !in st.matched && TryMatch(policy, batch, env, st.matched, w).NoOpponent? ==>
              var out := Step(policy, batch, env, now, st, w).store;
              && |out| == |st.store|
              && (forall i :: 0 <= i < |st.store| && st.store[i].id == w.id ==> out[i].status == Waiting)
              && (forall i :: 0 <= i < |st.store| && st.store[i].id != w.id ==> out[i] == st.store[i])
  {
    if w.id !in st.matched && TryMatch(policy, batch, env, st.matched, w).NoOpponent? {
      RevertWrites(st.store, w.id, now);
    }
  }

  /** A step whose match failed after the MATCHED write: the claimed room is
      back to WAITING, the chosen opponent's room stays MATCHED, and no other
      room changes. */
  lemma StepFailedWrites(policy: OpponentPolicy, batch: seq<Room>, env: Env, now: int, st: SweepState, w: Room)
    ensures w.id !in st.matched && TryMatch(policy, batch, env, st.matched, w).Failed? ==>
              var oid := TryMatch(policy, batch, env, st.matched, w).opp.id;
              var out := Step(policy, batch, env, now, st, w).store;
              && |out| == |st.store|
              && (forall i :: 0 <= i < |st.store| && st.store[i].id == w.id ==> out[i].status == Waiting)
              && (forall i :: 0 <= i < |st.store| && st.store[i].id == oid && oid != w.id ==> out[i].status == Matched)
              && (forall i :: 0 <= i < |st.store| && st.store[i].id != w.id && st.store[i].id != oid ==> out[i] == st.store[i])
  {
    if w.id !in st.matched && TryMatch(policy, batch, env, st.matched, w).Failed? {
      FailedWrites(st.store, w.id, TryMatch(policy, batch, env, st.matched, w).opp.id, now);
    }
  }

  /** A step that completed a match: the claimed room and the chosen
      opponent's room are MATCHED, and no other room changes. */
  lemma StepCompletedWrites(policy: OpponentPolicy, batch: seq<Room>, env: Env, now: int, st: SweepState, w: Room)
    ensures w.id !in st.matched && TryMatch(policy, batch, env, st.matched, w).Completed? ==>
              var oid := TryMatch(policy, batch, env, st.matched, w).opp.id;
              var out := Step(policy, batch, env, now, st, w).store;
              && |out| == |st.store|
              && (forall i :: 0 <= i < |st.store| && (st.store[i].id == w.id || st.store[i].id == oid) ==> out[i].status == Matched)
              && (forall i :: 0 <= i < |st.store| && st.store[i].id != w.id && st.store[i].id != oid ==> out[i] == st.store[i])
  {
    if w.id !in st.matched && TryMatch(policy, batch, env, st.matched, w).Completed? {
      CompletedWrites(st.store, w.id, TryMatch(policy, batch, env, st.matched, w).opp.id, now);
    }
  }

  // ---------------------------------------------------------------------
  // What a sweep guarantees

  /** A completed match: two different users, both rooms recorded in
      `matchedRoomIds`, one competition with exactly those two participants,
      and one match-found event per user on that user's channel, carrying
      the competition id and describing the OTHER user. */
  ghost predicate PairingOk(st: SweepState, env: Env, p: Pairing) {
    && p.userId != p.opponentUserId
    && p.roomId in st.matched && p.opponentRoomId in st.matched
    && p.competitionId < |st.competitions|
    && st.competitions[p.competitionId].participants == [p.userId, p.opponentUserId]
    && p.toUser.channel == Channel(p.userId)
    && p.toOpponent.channel == Channel(p.opponentUserId)
    && p.toUser.competitionId == p.competitionId
    && p.toOpponent.competitionId == p.competitionId
    && DescribesUser(env, p.toUser.event, p.opponentUserId)
    && DescribesUser(env, p.toOpponent.event, p.userId)
  }

  /** `e` is the match-found payload of user `u`'s profile. */
  ghost predicate DescribesUser(env: Env, e: RoomEvent, u: UserId) {
    && FindUser(env.users, u).Some?
    && FindUser(env.users, u).value.additionalInfo.Some?
    && e == GetRoomPayload(FindUser(env.users, u).value, env.tierLevels)
  }

  ghost predicate WellPaired(st: SweepState, env: Env) {
    forall n :: 0 <= n < |st.pairings| ==> PairingOk(st, env, st.pairings[n])
  }

  /** Rooms recorded in `matchedRoomIds` are MATCHED in the store. */
  ghost predicate MatchedStayMatched(st: SweepState) {
    forall i :: 0 <= i < |st.store| && st.store[i].id in st.matched ==> st.store[i].status == Matched
  }

  /** One step keeps every completed match well formed. */
  lemma StepKeepsWellPaired(policy: OpponentPolicy, batch: seq<Room>, env: Env, now: int, st: SweepState, w: Room)
    requires WellPaired(st, env)
    ensures WellPaired(Step(policy, batch, env, now, st, w), env)
  {
    var st' := Step(policy, batch, env, now, st, w);
    if w.id !in st.matched {
      match TryMatch(policy, batch, env, st.matched, w)
      case NoOpponent =>
        assert st'.pairings == st.pairings && st'.competitions == st.competitions && st'.matched == st.matched;
      case Failed(opp, created) =>
        assert st'.pairings == st.pairings && st'.competitions == st.competitions + created && st'.matched == st.matched;
        KeepsOldPairings(st, st', env);
      case Completed(opp, user, oppUser, comp) =>
        CompletedKeepsWellPaired(st, env, st'.store, w, opp, user, oppUser, comp);
    }
  }

  /** The state a completed match leaves behind keeps every match well formed. */
  lemma CompletedKeepsWellPaired(st: SweepState, env: Env, store: seq<Room>, w: Room, opp: Room,
                                 user: User, oppUser: User, comp: Competition)
    requires WellPaired(st, env)
    requires w.userId != opp.userId
    requires FindUser(env.users, w.userId) == Some(user) && FindUser(env.users, opp.userId) == Some(oppUser)
    requires user.additionalInfo.Some? && oppUser.additionalInfo.Some?
    requires comp.participants == [w.userId, opp.userId]
    ensures var cid := |st.competitions|;
            WellPaired(SweepState(
              store,
              st.matched + {w.id, opp.id},
              st.competitions + [comp],
              st.pairings + [Pairing(w.id, opp.id, w.userId, opp.userId, cid,
                                     Notice(Channel(w.userId), GetRoomPayload(oppUser, env.tierLevels), cid),
                                     Notice(Channel(opp.userId), GetRoomPayload(user, env.tierLevels), cid))]), env)
  {
    var cid := |st.competitions|;
    var p := Pairing(w.id, opp.id, w.userId, opp.userId, cid,
                     Notice(Channel(w.userId), GetRoomPayload(oppUser, env.tierLevels), cid),
                     Notice(Channel(opp.userId), GetRoomPayload(user, env.tierLevels), cid));
    var st' := SweepState(store, st.matched + {w.id, opp.id}, st.competitions + [comp], st.pairings + [p]);
    KeepsOldPairings(st, st', env);
    assert PairingOk(st', env, p);
    assert st'.pairings[|st.pairings|] == p;
  }

  /** One step keeps matched rooms MATCHED: the only room it moves back to
      WAITING is the claimed one, which is not yet matched. */
  lemma StepKeepsMatched(policy: OpponentPolicy, batch: seq<Room>, env: Env, now: int, st: SweepState, w: Room)
    requires MatchedStayMatched(st)
    ensures MatchedStayMatched(Step(policy, batch, env, now, st, w))
  {
    if w.id !in st.matched {
      match TryMatch(policy, batch, env, st.matched, w)
      case NoOpponent =>
        RevertKeepsMatched(st.store, st.matched, w.id, now);
      case Failed(opp, created) =>
        FailedKeepsMatched(st.store, st.matched, w.id, opp.id, now);
      case Completed(opp, user, oppUser, comp) =>
        CompletedKeepsMatched(st.store, st.matched, w.id, opp.id, now);
    }
  }

  lemma RevertKeepsMatched(store: seq<Room>, matched: set<RoomId>, wid: RoomId, now: int)
    requires wid !in matched
    requires MatchedStayMatched(SweepState(store, matched, [], []))
    ensures MatchedStayMatched(SweepState(
              UpdateRoomStatus(UpdateRoomStatus(store, {wid}, Processing, now), {wid}, Waiting, now), matched, [], []))
  {
    RevertWrites(store, wid, now);
  }

  lemma FailedKeepsMatched(store: seq<Room>, matched: set<RoomId>, wid: RoomId, oid: RoomId, now: int)
    requires wid !in matched
    requires MatchedStayMatched(SweepState(store, matched, [], []))
    ensures MatchedStayMatched(SweepState(
              UpdateRoomStatus(UpdateRoomStatus(UpdateRoomStatus(store, {wid}, Processing, now),
                                                {wid, oid}, Matched, now), {wid}, Waiting, now), matched, [], []))
  {
    FailedWrites(store, wid, oid, now);
  }

  lemma CompletedKeepsMatched(store: seq<Room>, matched: set<RoomId>, wid: RoomId, oid: RoomId, now: int)
    requires MatchedStayMatched(SweepState(store, matched, [], []))
    ensures MatchedStayMatched(SweepState(
              UpdateRoomStatus(UpdateRoomStatus(store, {wid}, Processing, now), {wid, oid}, Matched, now),
              matched + {wid, oid}, [], []))
  {
    CompletedWrites(store, wid, oid, now);
  }

  /** Extending the competitions and the matched set keeps old matches well formed. */
  lemma KeepsOldPairings(st: SweepState, st': SweepState, env: Env)
    requires WellPaired(st, env)
    requires st.matched <= st'.matched
    requires |st.competitions| <= |st'.competitions| && st'.competitions[..|st.competitions|] == st.competitions
    requires |st.pairings| <= |st'.pairings| && st'.pairings[..|st.pairings|] == st.pairings
    ensures forall n :: 0 <= n < |st.pairings| ==> PairingOk(st', env, st'.pairings[n])
  {
    forall n | 0 <= n < |st.pairings|
      ensures PairingOk(st', env, st'.pairings[n])
    {
      assert st'.pairings[n] == st.pairings[n];
      assert PairingOk(st, env, st.pairings[n]);
      assert st'.competitions[st.pairings[n].competitionId] == st.competitions[st.pairings[n].competitionId];
    }
  }

  lemma {:induction false} RunKeepsInvariant(policy: OpponentPolicy, batch: seq<Room>, env: Env, now: int, st: SweepState, i: nat)
    requires i <= |batch|
    requires WellPaired(st, env) && MatchedStayMatched(st)
    ensures WellPaired(Run(policy, batch, env, now, st, i), env)
    ensures MatchedStayMatched(Run(policy, batch, env, now, st, i))
    decreases |batch| - i
  {
    if i < |batch| {
      StepKeepsWellPaired(policy, batch, env, now, st, batch[i]);
      StepKeepsMatched(policy, batch, env, now, st, batch[i]);
      RunKeepsInvariant(policy, batch, env, now, Step(policy, batch, env, now, st, batch[i]), i + 1);
    }
  }

  /** Every match a sweep completes pairs two different users (a user is
      never their own opponent), rests on one competition with exactly those
      two participants, and notifies each user about the other with the
      same competition id; and every room recorded as matched ends MATCHED. */
  lemma SweepPairingsWellFormed(policy: OpponentPolicy, batch: seq<Room>, env: Env, now: int, store: seq<Room>)
    ensures WellPaired(Sweep(policy, batch, env, now, store), env)
    ensures MatchedStayMatched(Sweep(policy, batch, env, now, store))
    ensures forall n :: 0 <= n < |Sweep(policy, batch, env, now, store).pairings| ==>
              Sweep(policy, batch, env, now, store).pairings[n].userId
                != Sweep(policy, batch, env, now, store).pairings[n].opponentUserId
  {
    RunKeepsInvariant(policy, batch, env, now, SweepState(store, {}, [], []), 0);
  }

  /** A step only writes rooms whose id belongs to the batch. */
  lemma StepFrame(policy: OpponentPolicy, batch: seq<Room>, env: Env, now: int, st: SweepState, w: Room)
    requires w in batch
    ensures |Step(policy, batch, env, now, st, w).store| == |st.store|
    ensures forall i :: 0 <= i < |st.store| && st.store[i].id !in IdsOf(batch) ==>
              Step(policy, batch, env, now, st, w).store[i] == st.store[i]
    ensures var a := TryMatch(policy, batch, env, st.matched, w);
            forall i :: 0 <= i < |st.store| && st.store[i].id != w.id && (a.NoOpponent? || st.store[i].id != a.opp.id) ==>
              Step(policy, batch, env, now, st, w).store[i] == st.store[i]
  {
    if w.id !in st.matched {
      var a := TryMatch(policy, batch, env, st.matched, w);
      if a.NoOpponent? {
        StepNoOpponentWrites(policy, batch, env, now, st, w);
      } else if a.Failed? {
        StepFailedWrites(policy, batch, env, now, st, w);
      } else {
        StepCompletedWrites(policy, batch, env, now, st, w);
      }
    }
  }

  lemma {:induction false} RunFrame(policy: OpponentPolicy, batch: seq<Room>, env: Env, now: int, st: SweepState, i: nat)
    requires i <= |batch|
    ensures |Run(policy, batch, env, now, st, i).store| == |st.store|
    ensures forall j :: 0 <= j < |st.store| && st.store[j].id !in IdsOf(batch) ==>
              Run(policy, batch, env, now, st, i).store[j] == st.store[j]
    decreases |batch| - i
  {
    if i < |batch| {
      StepFrame(policy, batch, env, now, st, batch[i]);
      RunFrame(policy, batch, env, now, Step(policy, batch, env, now, st, batch[i]), i + 1);
    }
  }

  /** Rooms outside the claimed batch are left exactly as they were. */
  lemma SweepFrame(policy: OpponentPolicy, batch: seq<Room>, env: Env, now: int, store: seq<Room>)
    ensures |Sweep(policy, batch, env, now, store).store| == |store|
    ensures forall j :: 0 <= j < |store| && store[j].id !in IdsOf(batch) ==>
              Sweep(policy, batch, env, now, store).store[j] == store[j]
  {
    RunFrame(policy, batch, env, now, SweepState(store, {}, [], []), 0);
  }

  /** The step's outcome for the claimed room: MATCHED when it completed a
      match, otherwise back to WAITING, whatever went wrong. */
  lemma StepSettlesClaimedRoom(policy: OpponentPolicy, batch: seq<Room>, env: Env, now: int, st: SweepState, w: Room)
    requires w in batch && w.id !in st.matched
    ensures var st' := Step(policy, batch, env, now, st, w);
            && |st'.store| == |st.store|
            && (|st'.pairings| == |st.pairings| + 1 || |st'.pairings| == |st.pairings|)
            && forall i :: 0 <= i < |st'.store| && st'.store[i].id == w.id ==>
                 st'.store[i].status == (if |st'.pairings| > |st.pairings| then Matched else Waiting)
  {
  }

  /** A step never leaves a room in PROCESSING. */
  lemma StepLeavesNoneProcessing(policy: OpponentPolicy, batch: seq<Room>, env: Env, now: int, st: SweepState, w: Room)
    requires w in batch
    requires NoneProcessing(st.store)
    ensures NoneProcessing(Step(policy, batch, env, now, st, w).store)
  {
  }

  lemma {:induction false} RunLeavesNoneProcessing(policy: OpponentPolicy, batch: seq<Room>, env: Env, now: int, st: SweepState, i: nat)
    requires i <= |batch|
    requires NoneProcessing(st.store)
    ensures NoneProcessing(Run(policy, batch, env, now, st, i).store)
    decreases |batch| - i
  {
    if i < |batch| {
      StepLeavesNoneProcessing(policy, batch, env, now, st, batch[i]);
      RunLeavesNoneProcessing(policy, batch, env, now, Step(policy, batch, env, now, st, batch[i]), i + 1);
    }
  }

  /** PROCESSING is transient: a sweep that starts with no room in PROCESSING
      ends with none. */
  lemma SweepLeavesNoneProcessing(policy: OpponentPolicy, batch: seq<Room>, env: Env, now: int, store: seq<Room>)
    requires NoneProcessing(store)
    ensures NoneProcessing(Sweep(policy, batch, env, now, store).store)
  {
    RunLeavesNoneProcessing(policy, batch, env, now, SweepState(store, {}, [], []), 0);
  }

  /** A row that is WAITING afterwards was WAITING before, so no user's
      count of WAITING rooms grows. */
  lemma {:induction false} CountWaitingShrinks(before: seq<Room>, after: seq<Room>, u: UserId)
    requires SameRows(before, after)
    requires forall j :: 0 <= j < |after| && after[j].status == Waiting ==> before[j].status == Waiting
    ensures CountWaiting(after, u) <= CountWaiting(before, u)
  {
    if |before| > 0 {
      CountWaitingShrinks(before[1..], after[1..], u);
    }
  }

  /** A sweep over a batch of rooms that are WAITING in the store keeps at
      most one WAITING room per user: it writes WAITING only back to rooms
      of the batch, and leaves every other room as it was. */
  lemma SweepPreservesInvariant(policy: OpponentPolicy, batch: seq<Room>, env: Env, now: int, store: seq<Room>)
    requires AtMostOneWaitingPerUser(store)
    requires forall j :: 0 <= j < |store| && store[j].id in IdsOf(batch) ==> store[j].status == Waiting
    ensures AtMostOneWaitingPerUser(Sweep(policy, batch, env, now, store).store)
  {
    var out := Sweep(policy, batch, env, now, store).store;
    SweepFrame(policy, batch, env, now, store);
    SweepShape(policy, batch, env, now, store);
    forall u
      ensures CountWaiting(out, u) <= 1
    {
      CountWaitingShrinks(store, out, u);
    }
  }

  // ---------------------------------------------------------------------
  // Pairing a room twice in one sweep

  /** The room ids of all completed matches, two per match, in order. */
  function PairedRoomIds(ps: seq<Pairing>): (ids: seq<RoomId>)
    ensures |ids| == 2 * |ps|
  {
    if |ps| == 0 then []
    else PairedRoomIds(ps[..|ps| - 1]) + [ps[|ps| - 1].roomId, ps[|ps| - 1].opponentRoomId]
  }

  predicate NoDuplicates<T(==)>(s: seq<T>) {
    forall a, b :: 0 <= a < b < |s| ==> s[a] != s[b]
  }

  /** Database rows: two rooms with the same id are the same room. */
  predicate UniqueIds(rooms: seq<Room>) {
    forall a, b :: 0 <= a < |rooms| && 0 <= b < |rooms| && rooms[a].id == rooms[b].id ==> rooms[a] == rooms[b]
  }

  lemma {:induction false} PairedRoomIdsIn(ps: seq<Pairing>, m: set<RoomId>)
    requires forall n :: 0 <= n < |ps| ==> ps[n].roomId in m && ps[n].opponentRoomId in m
    ensures forall x :: x in PairedRoomIds(ps) ==> x in m
  {
    if |ps| > 0 {
      PairedRoomIdsIn(ps[..|ps| - 1], m);
    }
  }

  ghost predicate PairedAreMatched(st: SweepState) {
    forall n :: 0 <= n < |st.pairings| ==> st.pairings[n].roomId in st.matched && st.pairings[n].opponentRoomId in st.matched
  }

  lemma WellPairedAreMatched(st: SweepState, env: Env)
    requires WellPaired(st, env)
    ensures PairedAreMatched(st)
  {
    forall n | 0 <= n < |st.pairings|
      ensures st.pairings[n].roomId in st.matched && st.pairings[n].opponentRoomId in st.matched
    {
      assert PairingOk(st, env, st.pairings[n]);
    }
  }

  lemma NoDuplicatesAppendTwo<T>(s: seq<T>, x: T, y: T)
    requires NoDuplicates(s) && x !in s && y !in s && x != y
    ensures NoDuplicates(s + [x, y])
  {
  }

  /** Under `ExcludeMatched` a step adds a match only between two rooms not
      yet matched, so no room id is repeated. */
  lemma StepPairsFreshRooms(batch: seq<Room>, env: Env, now: int, st: SweepState, w: Room)
    requires w in batch && UniqueIds(batch)
    requires PairedAreMatched(st) && NoDuplicates(PairedRoomIds(st.pairings))
    ensures NoDuplicates(PairedRoomIds(Step(ExcludeMatched, batch, env, now, st, w).pairings))
  {
    if w.id !in st.matched {
      var a := TryMatch(ExcludeMatched, batch, env, st.matched, w);
      if a.Completed? {
        var opp := a.opp;
        var ps' := Step(ExcludeMatched, batch, env, now, st, w).pairings;
        var p := Pairing(w.id, opp.id, w.userId, opp.userId, |st.competitions|,
                         Notice(Channel(w.userId), GetRoomPayload(a.oppUser, env.tierLevels), |st.competitions|),
                         Notice(Channel(opp.userId), GetRoomPayload(a.user, env.tierLevels), |st.competitions|));
        assert ps' == st.pairings + [p];
        assert ps'[..|ps'| - 1] == st.pairings;
        assert PairedRoomIds(ps') == PairedRoomIds(st.pairings) + [w.id, opp.id];
        PairedRoomIdsIn(st.pairings, st.matched);
        assert w.id != opp.id by {
          assert opp.userId != w.userId;
        }
        NoDuplicatesAppendTwo(PairedRoomIds(st.pairings), w.id, opp.id);
      }
    }
  }

  lemma {:induction false} RunPairsFreshRooms(batch: seq<Room>, env: Env, now: int, st: SweepState, i: nat)
    requires i <= |batch| && UniqueIds(batch)
    requires WellPaired(st, env) && NoDuplicates(PairedRoomIds(st.pairings))
    ensures NoDuplicates(PairedRoomIds(Run(ExcludeMatched, batch, env, now, st, i).pairings))
    decreases |batch| - i
  {
    if i < |batch| {
      WellPairedAreMatched(st, env);
      StepPairsFreshRooms(batch, env, now, st, batch[i]);
      StepKeepsWellPaired(ExcludeMatched, batch, env, now, st, batch[i]);
      RunPairsFreshRooms(batch, env, now, Step(ExcludeMatched, batch, env, now, st, batch[i]), i + 1);
    }
  }

  /** Corrected behaviour: when opponents already matched in this sweep are
      excluded, every room takes part in at most one match per sweep. */
  lemma ExcludeMatchedPairsEachRoomOnce(batch: seq<Room>, env: Env, now: int, store: seq<Room>)
    requires UniqueIds(batch)
    ensures NoDuplicates(PairedRoomIds(Sweep(ExcludeMatched, batch, env, now, store).pairings))
  {
    RunPairsFreshRooms(batch, env, now, SweepState(store, {}, [], []), 0);
  }

  // The three-user example behind the double pairing.
  const RoomA := Room("a", "x", Waiting, 0, 0, None)
  const RoomB := Room("b", "y", Waiting, 0, 0, None)
  const RoomC := Room("c", "z", Waiting, 0, 0, None)
  const UserA := User("x", "k1", "A", "A", "", Some(AdditionalInfo(0, "t", "py")))
  const UserB := User("y", "k2", "B", "B", "", Some(AdditionalInfo(10, "t", "py")))
  const UserC := User("z", "k3", "C", "C", "", Some(AdditionalInfo(12, "t", "py")))
  const ExampleBatch := [RoomA, RoomB, RoomC]
  const ExampleEnv := Env([UserA, UserB, UserC], map[], (x: User, y: User) => Some(Wrap("{}")),
                          (t: string) => Some(Generated("q", "e")), (x: UserId, y: UserId) => true)

  lemma ExampleLookups()
    ensures FindUser(ExampleEnv.users, "x") == Some(UserA)
    ensures FindUser(ExampleEnv.users, "y") == Some(UserB)
    ensures FindUser(ExampleEnv.users, "z") == Some(UserC)
    ensures TierOf(ExampleEnv.users, "x") == Some(0)
    ensures TierOf(ExampleEnv.users, "y") == Some(10)
    ensures TierOf(ExampleEnv.users, "z") == Some(12)
  {
    var us := ExampleEnv.users;
    assert us == [UserA, UserB, UserC];
    assert us[1..] == [UserB, UserC];
    assert us[1..][1..] == [UserC];
    assert "x" != "y" && "x" != "z" && "y" != "z" by {
      assert "x"[0] != "y"[0] && "x"[0] != "z"[0] && "y"[0] != "z"[0];
    }
    assert FindUser(us[1..][1..], "z") == Some(UserC);
    assert FindUser(us[1..], "z") == Some(UserC);
  }

  lemma ExampleCompetition(x: User, y: User)
    ensures CreateCompetition(x, y, ExampleEnv) == Some(Competition("q", "e", [x.id, y.id]))
  {
    ExtractAndParseWrap("{}", ExampleEnv.parse);
  }

  lemma ExampleOpponents()
    ensures OpponentRooms(ExampleBatch, "x", {}, AsWritten) == [RoomB, RoomC]
    ensures OpponentRooms(ExampleBatch, "z", {"a", "b"}, AsWritten) == [RoomA, RoomB]
  {
    var b := ExampleBatch;
    assert b[1..] == [RoomB, RoomC];
    assert b[1..][1..] == [RoomC];
    assert b[1..][1..][1..] == [];
    assert "x" != "y" && "x" != "z" && "y" != "z" by {
      assert "x"[0] != "y"[0] && "x"[0] != "z"[0] && "y"[0] != "z"[0];
    }
    assert OpponentRooms([RoomC], "x", {}, AsWritten) == [RoomC];
    assert OpponentRooms([RoomB, RoomC], "x", {}, AsWritten) == [RoomB, RoomC];
    assert OpponentRooms([RoomC], "z", {"a", "b"}, AsWritten) == [];
    assert OpponentRooms([RoomB, RoomC], "z", {"a", "b"}, AsWritten) == [RoomB];
  }

  /** First iteration: room "a" meets room "b" (distance 10 beats 12). */
  lemma ExampleFirstMatch()
    ensures TryMatch(AsWritten, ExampleBatch, ExampleEnv, {}, RoomA)
              == Completed(RoomB, UserA, UserB, Competition("q", "e", ["x", "y"]))
  {
    ExampleLookups();
    ExampleOpponents();
    var opps := OpponentRooms(ExampleBatch, "x", {}, AsWritten);
    assert opps == [RoomB, RoomC];
    var cands := Candidates(opps, ExampleEnv.users);
    assert cands == [Candidate(RoomB, Some(10)), Candidate(RoomC, Some(12))];
    BestIsUnique(cands, 0, 2, SelectIndex(cands, 0), Some(0));
    ExampleCompetition(UserA, UserB);
  }

  /** Third iteration: room "c" meets room "b" again (distance 2 beats 12). */
  lemma ExampleSecondMatch()
    ensures TryMatch(AsWritten, ExampleBatch, ExampleEnv, {"a", "b"}, RoomC)
              == Completed(RoomB, UserC, UserB, Competition("q", "e", ["z", "y"]))
  {
    ExampleLookups();
    ExampleOpponents();
    var opps := OpponentRooms(ExampleBatch, "z", {"a", "b"}, AsWritten);
    assert opps == [RoomA, RoomB];
    var cands := Candidates(opps, ExampleEnv.users);
    assert cands == [Candidate(RoomA, Some(0)), Candidate(RoomB, Some(10))];
    BestIsUnique(cands, 12, 2, SelectIndex(cands, 12), Some(1));
    ExampleCompetition(UserC, UserB);
  }

  lemma ExampleFirstStep()
    ensures var st1 := Step(AsWritten, ExampleBatch, ExampleEnv, 0, SweepState(ExampleBatch, {}, [], []), RoomA);
            && st1.matched == {"a", "b"}
            && |st1.pairings| == 1
            && st1.pairings[0].roomId == "a" && st1.pairings[0].opponentRoomId == "b"
  {
    ExampleFirstMatch();
  }

  lemma ExampleThirdStep(st: SweepState)
    requires st.matched == {"a", "b"}
    ensures var st3 := Step(AsWritten, ExampleBatch, ExampleEnv, 0, st, RoomC);
            && |st3.pairings| == |st.pairings| + 1
            && st3.pairings[..|st.pairings|] == st.pairings
            && st3.pairings[|st.pairings|].roomId == "c" && st3.pairings[|st.pairings|].opponentRoomId == "b"
  {
    assert "c" !in st.matched by {
      assert "c"[0] != "a"[0] && "c"[0] != "b"[0];
    }
    ExampleSecondMatch();
  }

  /** As written, the opponent filter does not exclude rooms matched earlier
      in the same sweep: in the three-user example room "b" ends up in two
      matches, although the batch's room ids are unique. */
  lemma AsWrittenPairsRoomTwice()
    ensures UniqueIds(ExampleBatch)
    ensures PairedRoomIds(Sweep(AsWritten, ExampleBatch, ExampleEnv, 0, ExampleBatch).pairings) == ["a", "b", "c", "b"]
    ensures !NoDuplicates(PairedRoomIds(Sweep(AsWritten, ExampleBatch, ExampleEnv, 0, ExampleBatch).pairings))
  {
    assert UniqueIds(ExampleBatch) by {
      assert "a"[0] != "b"[0] && "a"[0] != "c"[0] && "b"[0] != "c"[0];
    }
    var st0 := SweepState(ExampleBatch, {}, [], []);
    var st1 := Step(AsWritten, ExampleBatch, ExampleEnv, 0, st0, RoomA);
    ExampleFirstStep();
    var st2 := Step(AsWritten, ExampleBatch, ExampleEnv, 0, st1, RoomB);
    assert st2 == st1;
    var st3 := Step(AsWritten, ExampleBatch, ExampleEnv, 0, st2, RoomC);
    ExampleThirdStep(st2);
    assert Run(AsWritten, ExampleBatch, ExampleEnv, 0, st2, 2) == st3;
    assert Run(AsWritten, ExampleBatch, ExampleEnv, 0, st1, 1) == st3;
    assert Run(AsWritten, ExampleBatch, ExampleEnv, 0, st0, 0) == st3;
    PairedRoomIdsOfTwo(st3.pairings);
    assert ["a", "b", "c", "b"][1] == ["a", "b", "c", "b"][3];
  }

  lemma PairedRoomIdsOfTwo(ps: seq<Pairing>)
    requires |ps| == 2
    ensures PairedRoomIds(ps) == [ps[0].roomId, ps[0].opponentRoomId, ps[1].roomId, ps[1].opponentRoomId]
  {
    assert ps[..1][..0] == [];
  }
}
