/** `findOpponent`: a single left-to-right scan for the candidate whose tier
    progress is closest to the current user's. A candidate whose profile
    lookup found no `additionalInfo` is skipped. */
module OpponentSelection {
  import opened Wrappers
  import opened Entities

  /** An opponent room paired with the tier progress its owner's profile
      reports, or `None` when the profile has no additional info. */
  datatype Candidate = Candidate(room: Room, tierProgress: Option<int>)

  function Abs(x: int): nat {
    if x < 0 then -x else x
  }

  predicate HasInfo(c: Candidate) {
    c.tierProgress.Some?
  }

  /** `Math.abs(current - candidate)`; only asked of candidates with info. */
  function Distance(current: int, c: Candidate): nat
    requires HasInfo(c)
  {
    Abs(current - c.tierProgress.value)
  }

  /** `best` is the correct answer for the first `n` candidates: `None` when
      none of them has info, otherwise the index of a candidate with info
      whose distance no candidate beats, and which every earlier candidate
      with info is strictly farther than (ties go to the earliest). */
  ghost predicate BestOfPrefix(cands: seq<Candidate>, current: int, n: nat, best: Option<nat>)
    requires n <= |cands|
  {
    match best
    case None => forall j :: 0 <= j < n ==> !HasInfo(cands[j])
    case Some(b) =>
      && b < n
      && HasInfo(cands[b])
      && (forall j :: 0 <= j < n && HasInfo(cands[j]) ==> Distance(current, cands[b]) <= Distance(current, cands[j]))
      && (forall j :: 0 <= j < b && HasInfo(cands[j]) ==> Distance(current, cands[b]) < Distance(current, cands[j]))
  }

  /** The scan step: a candidate replaces the best so far only when it has
      info and is strictly closer (`minDifference` starts at infinity). */
  function Improve(cands: seq<Candidate>, current: int, k: nat, best: Option<nat>): Option<nat>
    requires k < |cands|
    requires best.Some? ==> best.value < |cands| && HasInfo(cands[best.value])
  {
    if !HasInfo(cands[k]) then best
    else if best.None? || Distance(current, cands[k]) < Distance(current, cands[best.value]) then Some(k)
    else best
  }

  /** The scan from position `k` on, given the best of the prefix before `k`. */
  function ScanFrom(cands: seq<Candidate>, current: int, k: nat, best: Option<nat>): (r: Option<nat>)
    requires k <= |cands|
    requires BestOfPrefix(cands, current, k, best)
    ensures BestOfPrefix(cands, current, |cands|, r)
    decreases |cands| - k
  {
    if k == |cands| then best
    else ScanFrom(cands, current, k + 1, Improve(cands, current, k, best))
  }

  /** The index `findOpponent` settles on, as a function. */
  function SelectIndex(cands: seq<Candidate>, current: int): (r: Option<nat>)
    ensures BestOfPrefix(cands, current, |cands|, r)
  {
    ScanFrom(cands, current, 0, None)
  }

  /** There is only one correct answer, so `BestOfPrefix` pins the selection down. */
  lemma BestIsUnique(cands: seq<Candidate>, current: int, n: nat, a: Option<nat>, b: Option<nat>)
    requires n <= |cands|
    requires BestOfPrefix(cands, current, n, a) && BestOfPrefix(cands, current, n, b)
    ensures a == b
  {
  }

  /** `findOpponent` as a function over the candidate rooms. */
  function SelectOpponent(cands: seq<Candidate>, current: int): (r: Option<Room>)
    ensures r.None? <==> forall j :: 0 <= j < |cands| ==> !HasInfo(cands[j])
    ensures r.Some? ==> exists b :: 0 <= b < |cands| && cands[b].room == r.value && HasInfo(cands[b])
  {
    match SelectIndex(cands, current)
    case None => None
    case Some(b) => Some(cands[b].room)
  }

  /** `findOpponent`, as the source writes it: one loop keeping the smallest
      distance seen so far (`None` standing for the initial infinity). */
  method FindOpponent(cands: seq<Candidate>, current: int) returns (r: Option<Room>)
    ensures r.None? <==> forall j :: 0 <= j < |cands| ==> !HasInfo(cands[j])
    ensures r.Some? ==> exists b: nat :: b < |cands| && BestOfPrefix(cands, current, |cands|, Some(b)) && cands[b].room == r.value
    ensures r == SelectOpponent(cands, current)
  {
    var minDifference: Option<nat> := None;
    var best: Option<nat> := None;
    var k := 0;
    while k < |cands|
      invariant 0 <= k <= |cands|
      invariant BestOfPrefix(cands, current, k, best)
      invariant best.None? <==> minDifference.None?
      invariant best.Some? ==> minDifference == Some(Distance(current, cands[best.value]))
      invariant ScanFrom(cands, current, k, best) == SelectIndex(cands, current)
    {
      var c := cands[k];
      if c.tierProgress.Some? {
        var d := Abs(current - c.tierProgress.value);
        if minDifference.None? || d < minDifference.value {
          minDifference := Some(d);
          best := Some(k);
        }
      }
      k := k + 1;
    }
    if best.None? {
      r := None;
    } else {
      r := Some(cands[best.value].room);
    }
  }

  /** The worked example of the matcher's tie rule: with the current user at
      51 and candidates at 10, 50 and 52 scanned in that order, 50 and 52 are
      both at distance 1, and the one scanned first (50) wins. */
  lemma TieGoesToFirstScanned(r10: Room, r50: Room, r52: Room)
    ensures SelectIndex([Candidate(r10, Some(10)), Candidate(r50, Some(50)), Candidate(r52, Some(52))], 51) == Some(1)
    ensures SelectIndex([Candidate(r10, Some(10)), Candidate(r52, Some(52)), Candidate(r50, Some(50))], 51) == Some(1)
  {
    var a := [Candidate(r10, Some(10)), Candidate(r50, Some(50)), Candidate(r52, Some(52))];
    BestIsUnique(a, 51, 3, SelectIndex(a, 51), Some(1));
    var b := [Candidate(r10, Some(10)), Candidate(r52, Some(52)), Candidate(r50, Some(50))];
    BestIsUnique(b, 51, 3, SelectIndex(b, 51), Some(1));
  }
}
