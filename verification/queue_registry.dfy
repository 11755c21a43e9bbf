/** `QueueService`: an in-memory `Map` from queue name to Bull queue, kept in
    insertion order (as a JavaScript `Map` is). A queue is modelled by its
    name and the jobs Redis holds for it; connecting a new queue is given the
    jobs already stored under that name. */
module QueueRegistry {
  import opened Wrappers

  /** Bull job states; `removeUserFromQueue` only looks at the live ones. */
  datatype JobState = Waiting | Active | Delayed | Paused | Completed | Failed

  datatype Job = Job(id: string, userId: string, state: JobState)

  datatype Queue = Queue(name: string, jobs: seq<Job>)

  datatype Entry = Entry(name: string, queue: Queue)

  /** The map's entries in insertion order. */
  type Registry = seq<Entry>

  /** The map's keys, in insertion order (`Array.from(queues.keys())`). */
  function Names(reg: Registry): (names: seq<string>)
    ensures |names| == |reg|
    ensures forall i :: 0 <= i < |reg| ==> names[i] == reg[i].name
  {
    seq(|reg|, i requires 0 <= i < |reg| => reg[i].name)
  }

  /** A `Map` never holds a key twice. */
  predicate WellFormed(reg: Registry)
  {
    forall i, j :: 0 <= i < j < |reg| ==> reg[i].name != reg[j].name
  }

  /** Position of `name` in the map, if present. */
  function Find(reg: Registry, name: string): (r: Option<nat>)
    ensures r.None? <==> name !in Names(reg)
    ensures r.Some? ==> r.value < |reg| && reg[r.value].name == name
    ensures r.Some? ==> forall k :: 0 <= k < r.value ==> reg[k].name != name
  {
    if |reg| == 0 then None
    else if reg[0].name == name then Some(0)
    else match Find(reg[1..], name)
      case None => None
      case Some(k) => Some(k + 1)
  }

  /** `Find` reports the first position holding the name. */
  lemma FindIsFirst(reg: Registry, name: string, j: nat)
    requires j < |reg| && reg[j].name == name
    requires forall k :: 0 <= k < j ==> reg[k].name != name
    ensures Find(reg, name) == Some(j)
  {
    assert Names(reg)[j] == name;
  }

  /** The result of `getOrCreateQueue`: the map afterwards, the queue handed
      back and the message. */
  datatype Got = Got(registry: Registry, queue: Queue, message: string)

  function AlreadyExists(name: string): string { "Queue " + name + " already exists." }
  function CreatedMessage(name: string): string { "Queue " + name + " created successfully." }

  /** `getOrCreateQueue`: an existing queue is returned and the map is left as
      it is; otherwise a queue is connected (holding the jobs Redis already
      stores for it) and appended. */
  function GetOrCreateQueue(reg: Registry, name: string, stored: seq<Job>): (g: Got)
    ensures name in Names(reg) ==> g.registry == reg && g.message == AlreadyExists(name)
                                   && exists i :: 0 <= i < |reg| && reg[i].name == name && g.queue == reg[i].queue
    ensures name !in Names(reg) ==> g.registry == reg + [Entry(name, g.queue)]
                                    && g.queue == Queue(name, stored)
                                    && g.message == CreatedMessage(name)
    ensures name in Names(g.registry)
    ensures Names(g.registry) == Names(reg) + (if name in Names(reg) then [] else [name])
  {
    match Find(reg, name)
      case Some(i) =>
        assert Names(reg)[i] == name;
        assert Names(reg) + [] == Names(reg);
        Got(reg, reg[i].queue, AlreadyExists(name))
      case None =>
        var q := Queue(name, stored);
        assert Names(reg + [Entry(name, q)]) == Names(reg) + [name];
        Got(reg + [Entry(name, q)], q, CreatedMessage(name))
  }

  /** The map's values, in insertion order. */
  function Queues(reg: Registry): (qs: seq<Queue>)
    ensures |qs| == |reg|
    ensures forall i :: 0 <= i < |reg| ==> qs[i] == reg[i].queue
  {
    seq(|reg|, i requires 0 <= i < |reg| => reg[i].queue)
  }

  /** Adding a queue keeps the map free of duplicate keys. */
  lemma GetOrCreateKeepsWellFormed(reg: Registry, name: string, stored: seq<Job>)
    requires WellFormed(reg)
    ensures WellFormed(GetOrCreateQueue(reg, name, stored).registry)
  {
    var g := GetOrCreateQueue(reg, name, stored);
    if name !in Names(reg) {
      forall i, j | 0 <= i < j < |g.registry|
        ensures g.registry[i].name != g.registry[j].name
      {
        if j == |reg| {
          assert Names(reg)[i] == reg[i].name;
        }
      }
    }
  }

  /** Asking twice gives the same queue and the same map as asking once. */
  lemma GetOrCreateIdempotent(reg: Registry, name: string, stored: seq<Job>, stored': seq<Job>)
    requires WellFormed(reg)
    ensures var g := GetOrCreateQueue(reg, name, stored);
            var g' := GetOrCreateQueue(g.registry, name, stored');
            g'.registry == g.registry && g'.queue == g.queue && g'.message == AlreadyExists(name)
  {
    var g := GetOrCreateQueue(reg, name, stored);
    GetOrCreateKeepsWellFormed(reg, name, stored);
    var i := Find(g.registry, name).value;
    if name !in Names(reg) {
      assert g.registry[|reg|].name == name;
      assert i == |reg|;
    } else {
      var k := Find(reg, name).value;
      assert i == k;
    }
  }

  /** The payload of `getAllQueues`. */
  datatype Listing = Listing(message: string, count: nat, queueNames: seq<string>, queues: seq<Queue>)

  const FetchedAll: string := "Sucessfully fetched all queues"

  /** `getAllQueues`: the map's size, keys and values, keys and values in
      insertion order and position by position matching. */
  function GetAllQueues(reg: Registry): (l: Listing)
    ensures l.message == FetchedAll
    ensures l.count == |reg| == |l.queueNames| == |l.queues|
    ensures forall i :: 0 <= i < l.count ==> l.queueNames[i] == reg[i].name && l.queues[i] == reg[i].queue
  {
    Listing(FetchedAll, |reg|, Names(reg), Queues(reg))
  }

  /** The count is the number of distinct queue names. */
  lemma {:induction false} CountIsDistinctNames(reg: Registry)
    requires WellFormed(reg)
    ensures GetAllQueues(reg).count == |set i | 0 <= i < |reg| :: reg[i].name|
  {
    if |reg| > 0 {
      var rest := reg[..|reg| - 1];
      CountIsDistinctNames(rest);
      var last := reg[|reg| - 1].name;
      var s := set i | 0 <= i < |rest| :: rest[i].name;
      assert (set i | 0 <= i < |reg| :: reg[i].name) == s + {last};
      assert last !in s;
    }
  }

  /** The map without the entry at position `i`; order of the others kept. */
  function RemoveAt<T>(s: seq<T>, i: nat): (r: seq<T>)
    requires i < |s|
    ensures |r| == |s| - 1
    ensures forall k :: 0 <= k < i ==> r[k] == s[k]
    ensures forall k :: i <= k < |r| ==> r[k] == s[k + 1]
  {
    s[..i] + s[i + 1..]
  }

  function DeletedMessage(name: string): string { "Queue " + name + " deleted successfully." }
  function NotFoundMessage(name: string): string { "Queue " + name + " not found." }

  /** Removing one position keeps every value other than the one removed. */
  lemma RemoveAtKeeps<T>(s: seq<T>, i: nat, x: T)
    requires i < |s| && x != s[i]
    ensures x in RemoveAt(s, i) <==> x in s
  {
    if x in s {
      var k :| 0 <= k < |s| && s[k] == x;
      if k < i { assert RemoveAt(s, i)[k] == x; } else { assert RemoveAt(s, i)[k - 1] == x; }
    }
  }

  lemma NamesRemoveAt(reg: Registry, i: nat)
    requires i < |reg|
    ensures Names(RemoveAt(reg, i)) == RemoveAt(Names(reg), i)
  {
  }

  /** `deleteQueue`: a present queue is closed and its key removed; an
      absent one leaves the map alone and reports not found. */
  function DeleteQueue(reg: Registry, name: string): (r: (Registry, string))
    ensures name !in Names(reg) ==> r.0 == reg && r.1 == NotFoundMessage(name)
    ensures name in Names(reg) ==> r.1 == DeletedMessage(name) && |r.0| == |reg| - 1
    ensures forall n :: n != name ==> (n in Names(r.0) <==> n in Names(reg))
    ensures name in Names(reg) ==> r.0 == RemoveAt(reg, Find(reg, name).value)
    ensures forall e: Entry :: e.name != name ==> (e in r.0 <==> e in reg)
  {
    match Find(reg, name)
      case None => (reg, NotFoundMessage(name))
      case Some(i) =>
        var out := RemoveAt(reg, i);
        NamesRemoveAt(reg, i);
        assert forall n :: n != name ==> (n in Names(out) <==> n in Names(reg)) by {
          forall n | n != name
            ensures n in Names(out) <==> n in Names(reg)
          {
            RemoveAtKeeps(Names(reg), i, n);
          }
        }
        assert forall e: Entry :: e.name != name ==> (e in out <==> e in reg) by {
          forall e: Entry | e.name != name
            ensures e in out <==> e in reg
          {
            RemoveAtKeeps(reg, i, e);
          }
        }
        (out, DeletedMessage(name))
  }

  /** In a well-formed map the deleted name is gone afterwards. */
  lemma DeleteQueueRemovesName(reg: Registry, name: string)
    requires WellFormed(reg)
    ensures name !in Names(DeleteQueue(reg, name).0)
  {
    match Find(reg, name)
      case None =>
      case Some(i) =>
        var out := DeleteQueue(reg, name).0;
        NamesRemoveAt(reg, i);
        forall k | 0 <= k < |out|
          ensures out[k].name != name
        {
          if k < i { assert out[k] == reg[k]; } else { assert out[k] == reg[k + 1]; }
        }
  }

  /** Creating a queue and then deleting it restores the map. */
  lemma CreateThenDelete(reg: Registry, name: string, stored: seq<Job>)
    requires name !in Names(reg)
    ensures DeleteQueue(GetOrCreateQueue(reg, name, stored).registry, name).0 == reg
  {
    var g := GetOrCreateQueue(reg, name, stored);
    forall k | 0 <= k < |reg|
      ensures g.registry[k].name != name
    {
      assert Names(reg)[k] == reg[k].name;
    }
    var i := Find(g.registry, name).value;
    assert i == |reg|;
    assert RemoveAt(g.registry, i) == reg;
  }

  /** `getJobs(['waiting', 'active', 'delayed', 'paused'])` selects these. */
  predicate IsLive(j: Job)
  {
    j.state in {Waiting, Active, Delayed, Paused}
  }

  /** Position of the first live job of `userId`, if any. */
  function FirstJobOf(jobs: seq<Job>, userId: string): (r: Option<nat>)
    ensures r.None? <==> forall k :: 0 <= k < |jobs| ==> !(IsLive(jobs[k]) && jobs[k].userId == userId)
    ensures r.Some? ==> r.value < |jobs| && IsLive(jobs[r.value]) && jobs[r.value].userId == userId
    ensures r.Some? ==> forall k :: 0 <= k < r.value ==> !(IsLive(jobs[k]) && jobs[k].userId == userId)
  {
    if |jobs| == 0 then None
    else if IsLive(jobs[0]) && jobs[0].userId == userId then Some(0)
    else match FirstJobOf(jobs[1..], userId)
      case None => None
      case Some(k) => Some(k + 1)
  }

  /** The queue's jobs after the scan, and the job removed if one was. */
  datatype Removal = Removal(jobs: seq<Job>, removed: Option<Job>)

  /** The `for ... of jobs` loop: scan in order, remove the first live job
      of the user and stop. */
  function RemoveFirstLiveJob(jobs: seq<Job>, userId: string): (r: Removal)
    ensures FirstJobOf(jobs, userId).None? ==> r == Removal(jobs, None)
    ensures FirstJobOf(jobs, userId).Some? ==>
              r == Removal(RemoveAt(jobs, FirstJobOf(jobs, userId).value), Some(jobs[FirstJobOf(jobs, userId).value]))
  {
    if |jobs| == 0 then Removal(jobs, None)
    else if IsLive(jobs[0]) && jobs[0].userId == userId then
      Removal(jobs[1..], Some(jobs[0]))
    else
      var rest := RemoveFirstLiveJob(jobs[1..], userId);
      var r := Removal([jobs[0]] + rest.jobs, rest.removed);
      assert FirstJobOf(jobs[1..], userId).None? ==> r == Removal(jobs, None) by {
        assert jobs == [jobs[0]] + jobs[1..];
      }
      assert FirstJobOf(jobs[1..], userId).Some? ==>
               r.jobs == RemoveAt(jobs, FirstJobOf(jobs[1..], userId).value + 1);
      r
  }

  /** Exactly the removed job is gone: as multisets, before equals after plus
      the removed job. */
  lemma RemoveFirstLiveJobPermutes(jobs: seq<Job>, userId: string)
    ensures var r := RemoveFirstLiveJob(jobs, userId);
            multiset(jobs) == multiset(r.jobs) + (if r.removed.Some? then multiset{r.removed.value} else multiset{})
  {
    var f := FirstJobOf(jobs, userId);
    if f.Some? {
      var k := f.value;
      assert jobs == jobs[..k] + [jobs[k]] + jobs[k + 1..];
      assert RemoveAt(jobs, k) == jobs[..k] + jobs[k + 1..];
    }
  }

  function RemovedUser(userId: string): string { "User " + userId + " removed from the queue." }

  const RemovedFromAll: string := "User removed from all queues successfully"

  /** The jobs of queue `name` in a map that holds it. */
  function JobsOf(reg: Registry, name: string): seq<Job>
    requires name in Names(reg)
  {
    reg[Find(reg, name).value].queue.jobs
  }

  /** `removeUserFromQueue`: the queue is fetched (and created if missing),
      then its first live job of the user is removed. Only that queue's jobs
      change; the keys are those after `getOrCreateQueue`. */
  function RemoveUserFromQueue(reg: Registry, userId: string, name: string, stored: seq<Job>): (r: (Registry, string))
    ensures var g := GetOrCreateQueue(reg, name, stored).registry;
            var rm := RemoveFirstLiveJob(JobsOf(g, name), userId);
            && Names(r.0) == Names(g)
            && JobsOf(r.0, name) == rm.jobs
            && (forall k :: 0 <= k < |g| && g[k].name != name ==> r.0[k] == g[k])
            && r.1 == (if rm.removed.Some? then RemovedUser(userId) else RemovedFromAll)
  {
    var g := GetOrCreateQueue(reg, name, stored).registry;
    var i := Find(g, name).value;
    var rm := RemoveFirstLiveJob(g[i].queue.jobs, userId);
    if rm.removed.None? then (g, RemovedFromAll)
    else
      var out := g[i := Entry(name, Queue(name, rm.jobs))];
      ReplaceJobs(g, i, name, rm.jobs);
      (out, RemovedUser(userId))
  }

  /** Replacing the jobs of the entry found for `name` keeps the keys, the
      position of `name` and every other entry. */
  lemma ReplaceJobs(g: Registry, i: nat, name: string, jobs: seq<Job>)
    requires Find(g, name) == Some(i)
    ensures var out := g[i := Entry(name, Queue(name, jobs))];
            && Names(out) == Names(g)
            && Find(out, name) == Some(i)
            && JobsOf(out, name) == jobs
            && forall k :: 0 <= k < |g| && g[k].name != name ==> out[k] == g[k]
  {
    var out := g[i := Entry(name, Queue(name, jobs))];
    assert Names(out) == Names(g);
    assert Find(out, name) == Some(i);
  }

  /** Other queues keep their jobs. */
  lemma RemoveUserKeepsOtherQueues(reg: Registry, userId: string, name: string, stored: seq<Job>, other: string)
    requires other != name && other in Names(reg)
    ensures var r := RemoveUserFromQueue(reg, userId, name, stored);
            other in Names(r.0) && JobsOf(r.0, other) == JobsOf(reg, other)
  {
    var g := GetOrCreateQueue(reg, name, stored).registry;
    var r := RemoveUserFromQueue(reg, userId, name, stored).0;
    var j := Find(reg, other).value;
    assert g[j] == reg[j];
    assert r[j] == g[j];
    forall k | 0 <= k < j
      ensures r[k].name != other
    {
      assert Names(r)[k] == Names(g)[k] == g[k].name == reg[k].name;
    }
    FindIsFirst(r, other, j);
    assert Names(r)[j] == other;
  }
}
