/** `getRoomPayload`: the match-found event that describes a user to their opponent. */
module RoomEvents {
  import opened Wrappers
  import opened Entities

  /** Display name: first and last name joined by one space. */
  function FullName(u: User): string {
    u.firstName + " " + u.lastName
  }

  /** The event payload built from a user whose profile info is loaded;
      `TIER_LEVELS[tierId]` is `undefined` (here `None`) for an unknown tier. */
  function GetRoomPayload(u: User, tierLevels: map<string, string>): (e: RoomEvent)
    requires u.additionalInfo.Some?
    ensures e.kind == MatchFound && e.user.Some?
    ensures |e.user.value.name| == |u.firstName| + 1 + |u.lastName|
    ensures e.user.value.name[..|u.firstName|] == u.firstName
    ensures e.user.value.name[|u.firstName| + 1..] == u.lastName
    ensures e.user.value.name[|u.firstName|] == ' '
    ensures e.user.value.profileRank == u.additionalInfo.value.tierProgress
    ensures e.user.value.language == u.additionalInfo.value.preferredLanguage
    ensures e.user.value.tierLevel.Some? <==> u.additionalInfo.value.tierId in tierLevels
    ensures e.user.value.tierLevel.Some? ==> e.user.value.tierLevel.value == tierLevels[u.additionalInfo.value.tierId]
    ensures e.user.value.avatar == u.avatarConfig
  {
    var info := u.additionalInfo.value;
    RoomEvent(MatchFound, Some(UserPayload(
      FullName(u),
      info.preferredLanguage,
      info.tierProgress,
      if info.tierId in tierLevels then Some(tierLevels[info.tierId]) else None,
      u.avatarConfig)))
  }
}
