# Matchmaking core of Projectify-Microservice, in Dafny

Projectify-Microservice is a NestJS backend for a competitive coding game.
Players open a *room*, which waits in the `Room` table with status `WAITING`
and a heartbeat (`lastPing`). Every ten seconds a cron sweep claims a batch
of fresh waiting rooms. It walks through the batch and moves each room
`WAITING → PROCESSING`. It picks the opponent whose `tierProgress` is
closest, matches both rooms (`MATCHED`), creates a competition whose question
comes from a generator, and notifies both players over Pusher. Every minute a
second sweep expires waiting rooms whose heartbeat is older than 30 seconds.

Around this core sit four small pieces of pure logic, also modelled here:

- joining (`RoomService.createRoom`), which replaces a user's waiting rooms
  by one fresh room;
- the `attributes` whitelist of `GET /users/:clerkId`;
- the hash-key middleware that guards every route;
- the in-memory registry of Bull queues.

The model is functional: the room table is a `seq<Room>`, and a sweep is a
left fold of one step per claimed room over a state that holds:

- the store;
- `matchedRoomIds`;
- the competitions created;
- the completed pairings with their two notifications.

The database, the generator, the JSON parser and Pusher become values
(`MatchSweep.Env`). The clock becomes an integer `now` in milliseconds.

| file | module | models |
|---|---|---|
| wrappers.dfy | Wrappers | `Option` / `Result` |
| entities.dfy | Entities | `Room`, `User`, `RoomEvent`, user lookups |
| strings.dfy | Strings | JavaScript `split` / `join` with a one-character separator |
| room_status.dfy | RoomStatusOps | `updateRoomStatus`, `cleanupStaleRooms` |
| opponent.dfy | OpponentSelection | `findOpponent` |
| generated_payload.dfy | GeneratedPayload | `extractAndParseJSON`, `String.prototype.trim` |
| room_events.dfy | RoomEvents | `getRoomPayload` |
| match_sweep.dfy | MatchSweep | `handleMatchMatckingCron`, `handleCreateCompetition` |
| room_join.dfy | RoomJoin | `RoomService.createRoom` |
| user_attributes.dfy | UserAttributes | `UserController.getUserInfo` attribute parsing |
| utf8.dfy | Utf8 | `Buffer.from(string)` (UTF-8) |
| hash_key.dfy | HashKey | `HashMiddleware.use`, `verifyHash` |
| queue_registry.dfy | QueueRegistry | `QueueService` |

The model follows the code as written, including where it does less than
its own types suggest:

- `updateRoomStatus` writes `matchedAt := now` on every status change, not
  only on `MATCHED`.
- A room with no opponent goes straight back to `WAITING`. The `RoomEvent`
  type in src/types/pusher.ts declares `match-not-found`, but no code sends
  it, and nothing retries a failed pairing.
- A failure after both rooms were set to `MATCHED` reverts only the current
  room. The opponent's room stays `MATCHED`.
- The opponent list is not filtered by `matchedRoomIds` (see Findings).

## Model

| member | source | states |
|---|---|---|
| RoomStatusOps.UpdateRoomStatus | src/matchmaking/matchmaking.service.ts:180-190 | every room whose id is listed gets the new status and `matchedAt = now`; every other room is unchanged; the table keeps its length |
| RoomStatusOps.UpdateRoomStatusLastWriteWins | src/matchmaking/matchmaking.service.ts:180-190 | two writes to the same ids in a row leave exactly what the second write alone would |
| RoomStatusOps.ExpireStale | src/matchmaking/matchmaking.service.ts:137-147 | reference definition: a room becomes `EXPIRED` exactly when it is `WAITING` and its `lastPing` is before `now - 30000`; all other rooms are unchanged |
| RoomStatusOps.CleanupStaleRooms | src/matchmaking/matchmaking.service.ts:134-150 | the loop over the table equals the reference definition room by room, and the reported count is the number of stale rooms |
| RoomStatusOps.ExpireStaleLeavesNoStale | src/matchmaking/matchmaking.service.ts:139-147 | after the cleanup no room is stale at the same instant |
| RoomStatusOps.ExpireStaleIdempotent | src/matchmaking/matchmaking.service.ts:139-147 | a second cleanup at the same instant changes nothing |
| RoomStatusOps.ExpireStaleKeepsWaitingBound | src/matchmaking/matchmaking.service.ts:139-147 | the cleanup never increases a user's number of `WAITING` rooms |
| RoomStatusOps.ExpireStalePreservesInvariant | src/matchmaking/matchmaking.service.ts:139-147 | "at most one waiting room per user" survives the cleanup |
| OpponentSelection.ScanFrom | src/matchmaking/matchmaking.service.ts:160-176 | continuing the scan from a position whose prefix already has its best candidate yields the best candidate of the whole list |
| OpponentSelection.SelectIndex | src/matchmaking/matchmaking.service.ts:156-178 | the scanned choice is the position of a candidate with profile info, none closer in tier, none earlier equally close; none when no candidate has info |
| OpponentSelection.BestIsUnique | src/matchmaking/matchmaking.service.ts:172-175 | the best-so-far position is uniquely determined, so the strict `<` fixes the choice |
| OpponentSelection.SelectOpponent | src/matchmaking/matchmaking.service.ts:152-179 | null exactly when no candidate has profile info; otherwise a room of the list whose owner has profile info |
| OpponentSelection.FindOpponent | src/matchmaking/matchmaking.service.ts:152-179 | the loop with `minDifference` returns null iff no candidate has info; otherwise the first candidate with the smallest tier distance, equal to the reference choice |
| OpponentSelection.TieGoesToFirstScanned | src/matchmaking/matchmaking.service.ts:172 | with tiers 50 and 52 around 51, whichever of the two is scanned first wins, in both orders |
| GeneratedPayload.FindMarker | src/matchmaking/matchmaking.service.ts:241 | finds the first `$$$$` at or after a position, or reports that there is none |
| GeneratedPayload.DelimitedBody | src/matchmaking/matchmaking.service.ts:241-242 | none exactly when the text has no two non-overlapping `$$$$` markers; otherwise the text between the leftmost marker and the nearest marker after it |
| GeneratedPayload.Trim | src/matchmaking/matchmaking.service.ts:245 | the result is a contiguous infix of the input, with no leading or trailing JavaScript whitespace |
| GeneratedPayload.TrimIdempotent | src/matchmaking/matchmaking.service.ts:245 | trimming twice is trimming once |
| GeneratedPayload.ExtractAndParseJSON | src/matchmaking/matchmaking.service.ts:240-252 | null when there is no delimited body or the parser rejects it; otherwise the parse of the trimmed body |
| GeneratedPayload.ExtractWrapped | src/matchmaking/matchmaking.service.ts:241 | for text with no `$` in the prefix or body, the body between the first two markers is returned whatever follows |
| GeneratedPayload.ExtractAndParseWrapped | src/matchmaking/matchmaking.service.ts:240-252 | such a text is parsed from its trimmed body |
| GeneratedPayload.ExtractAndParseWrap | src/matchmaking/matchmaking.service.ts:240-252 | round trip: wrapping a `$`-free body in markers and extracting it parses the trimmed body |
| RoomEvents.GetRoomPayload | src/matchmaking/matchmaking.service.ts:254-269 | a match-found event; name is first name, one space, last name; rank, language and avatar are copied from the profile; the tier label is present exactly when the tier id is in the table |
| Entities.FindUser | src/matchmaking/matchmaking.service.ts:51-58 | none exactly when no user has the id; otherwise a user of the table with that id |
| Entities.FindUserByClerkId | src/room/room.service.ts:15-20 | none exactly when no user has the clerk id; otherwise a user of the table with that clerk id |
| MatchSweep.OpponentRooms | src/matchmaking/matchmaking.service.ts:63-65 | a batch room is an opponent exactly when another user owns it (and, under the corrected policy, it is not yet matched); every opponent is a batch room |
| MatchSweep.OpponentRoomsAppend | src/matchmaking/matchmaking.service.ts:63-65 | `filter` keeps batch order and multiplicity: filtering a concatenation is the concatenation of the filtered parts |
| MatchSweep.TierOfSpec | src/matchmaking/matchmaking.service.ts:161-166 | a room owner's tier exists exactly when the user row and its `additionalInfo` exist, and is then that row's `tierProgress`; an unknown user has none |
| MatchSweep.CreateCompetition | src/matchmaking/matchmaking.service.ts:192-239 | a competition exists exactly when generation succeeds and its payload extracts and parses; its question and end time are the parsed ones and its participants are the two users, current user first |
| MatchSweep.TryMatch | src/matchmaking/matchmaking.service.ts:49-116 | a chosen opponent is a batch room of another user; a completed match has both users' profiles and a competition of exactly these two users |
| MatchSweep.Choice | src/matchmaking/matchmaking.service.ts:63-67 | the position `findOpponent` returns for the claimed room: when there is one, the claimed room's owner has a tier, and it points into `OpponentRooms` at a room whose owner has a tier |
| MatchSweep.TryMatchChoosesFindOpponent | src/matchmaking/matchmaking.service.ts:63-72 | no opponent exactly when the current user has no tier or no opponent room's owner has one; otherwise the opponent is the room `findOpponent` picks in `OpponentRooms`: closest tier, first on ties |
| MatchSweep.TryMatchOutcome | src/matchmaking/matchmaking.service.ts:76-126 | with an opponent chosen, the match completes exactly when the competition is created and both notifications resolve; a failure keeps the competition if one was created |
| MatchSweep.StepShape | src/matchmaking/matchmaking.service.ts:46-126 | one loop iteration keeps every row's id and owner, only grows `matchedRoomIds`, adds at most one pairing, and skips a room already matched |
| MatchSweep.RunShape | src/matchmaking/matchmaking.service.ts:46-127 | the rest of the loop keeps every row's id and owner, only grows `matchedRoomIds`, and adds at most one pairing per remaining batch room |
| MatchSweep.SweepShape | src/matchmaking/matchmaking.service.ts:23-131 | the cron handler keeps every row's id and owner and completes at most as many matches as the batch has rooms |
| MatchSweep.StepNoOpponentWrites | src/matchmaking/matchmaking.service.ts:61-71 | a step that finds no opponent leaves the claimed room `WAITING` and every other room unchanged |
| MatchSweep.StepFailedWrites | src/matchmaking/matchmaking.service.ts:76-126 | a step that throws after the `MATCHED` write leaves the claimed room `WAITING`, the chosen opponent's room `MATCHED`, and every other room unchanged |
| MatchSweep.StepCompletedWrites | src/matchmaking/matchmaking.service.ts:76-116 | a step that completes a match leaves the claimed room and the chosen opponent's room `MATCHED` and every other room unchanged |
| MatchSweep.StepKeepsWellPaired | src/matchmaking/matchmaking.service.ts:88-116 | after a step every pairing links two different users, names a competition of exactly those two, and notifies each user on their own channel with the other's payload and that competition id |
| MatchSweep.StepKeepsMatched | src/matchmaking/matchmaking.service.ts:76-116 | every room in `matchedRoomIds` stays `MATCHED` in the table after a step |
| MatchSweep.RunKeepsInvariant | src/matchmaking/matchmaking.service.ts:46-127 | both invariants hold through the whole loop |
| MatchSweep.SweepPairingsWellFormed | src/matchmaking/matchmaking.service.ts:44-127 | after a sweep every pairing is well formed, no user is paired with themself, and every matched room is `MATCHED` |
| MatchSweep.StepFrame | src/matchmaking/matchmaking.service.ts:61-125 | a step writes only the claimed room and, when one was chosen, the opponent's room; in particular nothing outside the claimed batch |
| MatchSweep.SweepFrame | src/matchmaking/matchmaking.service.ts:44-127 | a sweep leaves every room outside the claimed batch unchanged |
| MatchSweep.StepSettlesClaimedRoom | src/matchmaking/matchmaking.service.ts:61-126 | a step on an unmatched room adds at most one pairing; the room ends `MATCHED` if it added one and `WAITING` otherwise |
| MatchSweep.SweepLeavesNoneProcessing | src/matchmaking/matchmaking.service.ts:61-126 | no room is left `PROCESSING` after a sweep that started with none |
| MatchSweep.SweepPreservesInvariant | src/matchmaking/matchmaking.service.ts:46-127 | when the claimed batch is `WAITING` in the table, "at most one waiting room per user" survives the sweep: a row is `WAITING` afterwards only if it was before |
| MatchSweep.AsWrittenPairsRoomTwice | src/matchmaking/matchmaking.service.ts:63-65 | three users with tiers 0, 10, 12: the sweep as written pairs room b twice, so the paired room ids repeat |
| MatchSweep.ExcludeMatchedPairsEachRoomOnce | src/matchmaking/matchmaking.service.ts:44-116 | with matched rooms left out of the opponent list, no room id appears in two pairings of one sweep |
| RoomJoin.DeleteWaiting | src/room/room.service.ts:29-34 | removes exactly the user's `WAITING` rooms; the count removed is the user's waiting count |
| RoomJoin.CreateRoom | src/room/room.service.ts:11-53 | fails with "We couldn't find your account." exactly when no user has the clerk id, and a failure yields no new table; otherwise returns the new room's id, a non-empty table and "Room created successfully" |
| RoomJoin.DeleteWaitingKeepsOthers | src/room/room.service.ts:29-34 | other users' rooms are not touched by the deletion |
| RoomJoin.DeleteWaitingKeepsSettled | src/room/room.service.ts:29-34 | the user's rooms in other statuses survive the deletion, in order |
| RoomJoin.CreateRoomEffect | src/room/room.service.ts:28-41 | afterwards the user has exactly one `WAITING` room, the new one; their other rooms and all other users' rooms and counts are unchanged |
| RoomJoin.CreateRoomPreservesInvariant | src/room/room.service.ts:28-41 | "at most one waiting room per user" is kept |
| RoomJoin.CreateRoomTwice | src/room/room.service.ts:28-41 | joining twice still leaves exactly one `WAITING` room, the second one |
| Strings.Split | src/user/user.controller.ts:76 | at least one piece, none containing the separator, one more piece than separators |
| Strings.JoinSplit | src/user/user.controller.ts:76 | joining the pieces back gives the original string |
| Strings.SplitJoin | src/user/user.controller.ts:76 | splitting a join of separator-free pieces gives the pieces back |
| Strings.SplitSeveral | src/middleware/hash.middleware.ts:36 | a string splits into two or more pieces exactly when it contains the separator |
| UserAttributes.KeepValid | src/user/user.controller.ts:59-79 | keeps only whitelisted tokens; a token survives iff it is whitelisted; each whitelisted name keeps its number of occurrences |
| UserAttributes.KeepValidAppend | src/user/user.controller.ts:77-79 | filtering preserves order: it distributes over concatenation |
| UserAttributes.KeepValidEmpty | src/user/user.controller.ts:77-84 | the filter leaves nothing exactly when no token is whitelisted, which is when the 400 is thrown |
| UserAttributes.ParseAttributes | src/user/user.controller.ts:74-84 | absent or empty input gives an empty list; a non-empty input fails with "No valid attributes specified." exactly when no token is whitelisted; otherwise the filtered tokens |
| UserAttributes.ParseJoinedAttributes | src/user/user.controller.ts:74-84 | round trip: a comma-joined list of whitelisted names parses back to itself, duplicates and order included |
| UserAttributes.SpacesAreNotTrimmed | src/user/user.controller.ts:76-84 | `" id"` is rejected and `"id, firstName"` yields only `id`, since tokens are not trimmed |
| Utf8.EncodeChar | src/middleware/hash.middleware.ts:21-22 | a character's UTF-8 bytes form one complete shortest-form sequence of 1 to 4 bytes, by code point range |
| Utf8.DecodeEncodeChar | src/middleware/hash.middleware.ts:21-22 | decoding a character's bytes gives back its code point |
| Utf8.EncodeInjective | src/middleware/hash.middleware.ts:21-28 | equal buffers come only from equal strings |
| Utf8.Encode | src/middleware/hash.middleware.ts:21-22 | `Buffer.from`: each character takes one to four bytes, so the buffer is at least as long as the string and at most four times as long |
| Utf8.AsciiLength | src/middleware/hash.middleware.ts:21-24 | an ASCII key's buffer has one byte per character, so for ASCII keys the length check compares the keys' lengths |
| HashKey.ProvidedKey | src/middleware/hash.middleware.ts:36 | none for a missing header; otherwise a key exactly when the header contains a space; the key contains no space |
| HashKey.SecondToken | src/middleware/hash.middleware.ts:36 | the key is the second space-separated token, whatever follows it |
| HashKey.BearerKey | src/middleware/hash.middleware.ts:36 | `scheme + " " + key` yields `key` for space-free scheme and key |
| HashKey.VerifyHash | src/middleware/hash.middleware.ts:20-33 | buffers of different byte length are rejected; accepted exactly when the byte sequences are equal; every rejection is "Invalid hash key" |
| HashKey.VerifyHashAcceptsOnlyExpected | src/middleware/hash.middleware.ts:20-33 | the check accepts exactly the configured key |
| HashKey.Use | src/middleware/hash.middleware.ts:35-46 | a missing or empty token gives "Hash key is required"; `next` exactly when the token is non-empty and its bytes equal the configured key's; any other rejection is "Invalid hash key"; a server error when no key is configured |
| HashKey.UseNextIffExpectedKey | src/middleware/hash.middleware.ts:35-46 | for any header, `next` is called exactly when the token equals the configured, non-empty key |
| HashKey.UseAcceptsOnlyExpected | src/middleware/hash.middleware.ts:35-46 | end to end for `scheme key` headers: accepted exactly when the key is the configured one and not empty |
| HashKey.NoSpaceIsRequired | src/middleware/hash.middleware.ts:36-40 | a header without a space is "Hash key is required" |
| QueueRegistry.Find | src/queue/queue.service.ts:14 | `has(name)`: the first position of the name, or none exactly when the name is absent |
| QueueRegistry.GetOrCreateQueue | src/queue/queue.service.ts:13-35 | an existing name returns its queue and leaves the map unchanged ("already exists"); a new name appends exactly that one key ("created successfully"); afterwards the name is present |
| QueueRegistry.GetOrCreateKeepsWellFormed | src/queue/queue.service.ts:27-29 | the map never holds a key twice |
| QueueRegistry.GetOrCreateIdempotent | src/queue/queue.service.ts:13-35 | asking twice gives the same queue and map as asking once, and the second answer is "already exists" |
| QueueRegistry.GetAllQueues | src/queue/queue.service.ts:37-46 | count is the map size; names and queues are the keys and values in insertion order, position by position |
| QueueRegistry.CountIsDistinctNames | src/queue/queue.service.ts:41 | the count equals the number of distinct queue names |
| QueueRegistry.DeleteQueue | src/queue/queue.service.ts:84-104 | an absent name leaves the map unchanged with "not found"; a present one removes exactly its entry and keeps every other entry, queue and jobs included, in order, with "deleted successfully" |
| QueueRegistry.DeleteQueueRemovesName | src/queue/queue.service.ts:85-97 | after deleting, the name is gone |
| QueueRegistry.CreateThenDelete | src/queue/queue.service.ts:84-97 | creating a new queue and deleting it restores the map |
| QueueRegistry.FirstJobOf | src/queue/queue.service.ts:55-63 | the first live job of the user, or none exactly when there is none |
| QueueRegistry.RemoveFirstLiveJob | src/queue/queue.service.ts:62-70 | the scan removes exactly the first live job of the user and keeps every other job in order; with no such job nothing changes |
| QueueRegistry.RemoveFirstLiveJobPermutes | src/queue/queue.service.ts:62-70 | as multisets, the jobs before equal the jobs after plus the removed one |
| QueueRegistry.RemoveUserFromQueue | src/queue/queue.service.ts:48-82 | keys are those after get-or-create; the queue's jobs lose at most the first live job of the user; other entries are unchanged; the message says whether a job was removed |
| QueueRegistry.RemoveUserKeepsOtherQueues | src/queue/queue.service.ts:48-82 | every other queue keeps its jobs |

## Left out

- The claim query (`SELECT … FOR UPDATE SKIP LOCKED`, `lastPing` within 10 seconds, `ORDER BY "createdAt"`, `LIMIT 10`) is database locking and concurrency. The claimed batch is an input sequence of rooms.
- The missing transaction around the sweep and any interleaving with other requests are not modelled; a sweep runs alone.
- Cron scheduling and `new Date()` are not modelled. Each sweep and each cleanup takes one integer `now` (milliseconds), so every status write of one sweep carries the same timestamp.
- The Prisma user lookups become `Entities.FindUser` over a `seq<User>`. A room whose user is missing or has no profile goes back to `WAITING`, which is what the thrown error and the `catch` do.
- The generator (`generateCodingMinigame` twice, then Gemini) is one function of the two users that may fail. `JSON.parse` is an abstract partial parser. The prompt text in `constants/ai.ts` is not modelled.
- Pusher is an oracle saying whether both triggers resolved. Delivery, retries and channel semantics are not modelled.
- Competition ids are positions in the list of competitions created during the sweep, not database ids.
- Failures of the database writes themselves (a failed `updateMany` or `create`) are not modelled.
- `crypto.timingSafeEqual` is modelled as byte equality; its constant-time behaviour cannot be expressed.
- Utf8.Encode: JavaScript strings may hold lone surrogates, which `Buffer.from` replaces by `EF BF BD`. Dafny characters are Unicode scalar values, so lone surrogates are not modelled.
- Reading `HASH_KEY` through `dotenv` is replaced by an optional expected key.
- Bull queues are a name plus the jobs Redis holds for them. Connecting to Redis, `getOrThrow` of the Redis settings, `queue.close()` and `job.remove()` are not modelled. The `catch` in `removeUserFromQueue` therefore never fires in the model.
- `getJobs` is taken to return the live jobs in the queue's stored order. Bull's own order across the four states is not modelled.
- The `tierProgress ?? 0` fallback in `getRoomPayload` is a no-op: `tierProgress` is an `int` here. The Prisma schema is not part of this model.
- `TIER_LEVELS` is a parameter map from tier id to label; its contents are not part of this model.
- The DTOs, module wiring, `main.ts`, the other controllers, `queue-consumer.ts`, `generate.service.ts` and `user.service.ts` are outside the core.
- The `updateUser` argument-order mismatch in src/user/user.controller.ts:41 is outside the core.

## Findings

| source | as written | input that shows it | evidently intended | confidence | as-written member | corrected member |
|---|---|---|---|---|---|---|
| src/matchmaking/matchmaking.service.ts:63-65 | the opponent list for a room keeps every batch room of another user, including rooms already matched earlier in the same sweep (`matchedRoomIds` is only consulted for the room being processed, line 47) | batch of rooms a, b, c of users x, y, z with tiers 0, 10, 12: a is paired with b, then c is paired with b again, so room b's user gets two competitions in one sweep | rooms in `matchedRoomIds` are left out of the opponent list, so every room is paired at most once per sweep | not executed | MatchSweep.AsWrittenPairsRoomTwice | MatchSweep.ExcludeMatchedPairsEachRoomOnce |

The sweep is modelled with both opponent policies. `AsWritten` is the code
as written. `ExcludeMatched` is the corrected behaviour. Every invariant
lemma of `MatchSweep` except the no-repeat one (`StepPairsFreshRooms`,
`RunPairsFreshRooms`, `ExcludeMatchedPairsEachRoomOnce`) holds under both
policies; that one holds only under `ExcludeMatched`, and
`AsWrittenPairsRoomTwice` shows it fails as written.
