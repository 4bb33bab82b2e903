/**
 * The job table: a fixed array of `MaxJobs` slots plus the next job number. A slot whose pid
 * is 0 is free; clearing a slot zeroes all of it. The first part states the table's operations
 * on values (the specification and its lemmas); the class `JobTable` holds the array that the
 * shell updates in place and is proved against those functions.
 */
module Jobs {
  import opened Wrappers
  import opened Sequences

  /** Number of slots in the table (MAX_JOBS). */
  const MaxJobs: nat := 10
  /** Size of a slot's command buffer (MAX_LINE); the stored text keeps one byte for the NUL. */
  const MaxLine: nat := 1024

  /** The job states; `Running` is the enum's first value, so a zeroed slot says `Running`. */
  datatype JobStatus = Running | Stopped | Done

  datatype Job = Job(pid: int, id: int, command: string, status: JobStatus)

  /** A slot after `memset(…, 0, …)`. */
  const EmptySlot: Job := Job(0, 0, [], Running)

  /** The table as a value: its slots and `next_job_id`. */
  datatype Table = Table(slots: seq<Job>, nextJobId: int)

  /** The diagnostics the table operations produce. */
  datatype Notice =
    | Launched(id: int, pid: int)                       // "[id] pid" for a background job
    | ListFull                                          // "Error: Job list full."
    | Finished(id: int, pid: int, command: string)      // "Job [id] (pid) Done: command"
    | Suspended(id: int, pid: int, command: string)     // "Job [id] (pid) Stopped: command"

  /**
   * The table's invariant: `MaxJobs` slots, each free (all zero) or holding a positive pid,
   * an id already handed out and a command that fits the buffer; no two occupied slots share
   * a pid or an id.
   */
  predicate TableInvariant(t: Table)
  {
    && |t.slots| == MaxJobs
    && t.nextJobId >= 1
    && (forall i :: 0 <= i < |t.slots| ==>
          t.slots[i] == EmptySlot ||
          (t.slots[i].pid > 0 && 1 <= t.slots[i].id < t.nextJobId && |t.slots[i].command| <= MaxLine - 1))
    && (forall i, j :: 0 <= i < j < |t.slots| && t.slots[i].pid > 0 && t.slots[j].pid > 0 ==>
          t.slots[i].pid != t.slots[j].pid && t.slots[i].id != t.slots[j].id)
  }

  /** The table `main` starts with: every slot zero, next job number 1. */
  function InitialTable(): (t: Table)
    ensures TableInvariant(t)
    ensures forall i :: 0 <= i < |t.slots| ==> t.slots[i].pid == 0
  {
    Table(seq(MaxJobs, _ => EmptySlot), 1)
  }

  // ---------------------------------------------------------------------------
  // Searches
  // ---------------------------------------------------------------------------

  /** The first slot whose pid is `pid` (with `pid == 0`, the first free slot). */
  function IndexOfPid(slots: seq<Job>, pid: int): (r: Option<nat>)
    ensures r.Some? ==> r.value < |slots| && slots[r.value].pid == pid
    ensures r.Some? ==> forall k :: 0 <= k < r.value ==> slots[k].pid != pid
    ensures r.None? <==> forall k :: 0 <= k < |slots| ==> slots[k].pid != pid
  {
    if slots == [] then None
    else if slots[0].pid == pid then Some(0)
    else match IndexOfPid(slots[1..], pid)
      case None => None
      case Some(k) => Some(k + 1)
  }

  /** `find_job_by_id`: the first slot carrying `id` whose pid is positive. */
  function IndexOfId(slots: seq<Job>, id: int): (r: Option<nat>)
    ensures r.Some? ==> r.value < |slots| && slots[r.value].id == id && slots[r.value].pid > 0
    ensures r.Some? ==> forall k :: 0 <= k < r.value ==> !(slots[k].id == id && slots[k].pid > 0)
    ensures r.None? <==> forall k :: 0 <= k < |slots| ==> !(slots[k].id == id && slots[k].pid > 0)
  {
    if slots == [] then None
    else if slots[0].id == id && slots[0].pid > 0 then Some(0)
    else match IndexOfId(slots[1..], id)
      case None => None
      case Some(k) => Some(k + 1)
  }

  /** The search finds the first match, wherever the caller located it. */
  lemma FirstPid(slots: seq<Job>, pid: int, k: nat)
    requires k < |slots| && slots[k].pid == pid
    requires forall j :: 0 <= j < k ==> slots[j].pid != pid
    ensures IndexOfPid(slots, pid) == Some(k)
  {
  }

  /** Likewise for the search by job number. */
  lemma FirstId(slots: seq<Job>, id: int, k: nat)
    requires k < |slots| && slots[k].id == id && slots[k].pid > 0
    requires forall j :: 0 <= j < k ==> !(slots[j].id == id && slots[j].pid > 0)
    ensures IndexOfId(slots, id) == Some(k)
  {
  }

  // ---------------------------------------------------------------------------
  // add_job, remove_job_by_pid
  // ---------------------------------------------------------------------------

  /** The command as `strncpy` into a `MaxLine` buffer stores it: at most `MaxLine - 1` characters. */
  function Truncated(command: string): (r: string)
    ensures |r| <= MaxLine - 1
    ensures |r| == if |command| <= MaxLine - 1 then |command| else MaxLine - 1
    ensures r == command[..|r|]
  {
    if |command| <= MaxLine - 1 then command else command[..MaxLine - 1]
  }

  /** `add_job` on values: fill the first free slot and advance the job number; a full table is left alone. */
  function Register(t: Table, pid: int, command: string, background: bool): Table
  {
    match IndexOfPid(t.slots, 0)
    case None => t
    case Some(k) =>
      Table(t.slots[k := Job(pid, t.nextJobId, Truncated(command), if background then Running else Done)],
            t.nextJobId + 1)
  }

  /** The message `add_job` prints. */
  function AddNotice(t: Table, pid: int, background: bool): Option<Notice>
  {
    match IndexOfPid(t.slots, 0)
    case None => Some(ListFull)
    case Some(_) => if background then Some(Launched(t.nextJobId, pid)) else None
  }

  /** `remove_job_by_pid` on values: zero the first slot holding `pid`, if any. */
  function Retire(t: Table, pid: int): Table
  {
    match IndexOfPid(t.slots, pid)
    case None => t
    case Some(k) => t.(slots := t.slots[k := EmptySlot])
  }

  /**
   * With a free slot, `add_job` fills the lowest free slot with the pid, the old job number and
   * the command cut to `MaxLine - 1` characters, marks it Running exactly for a background job
   * (Done otherwise), advances the job number by one and leaves every other slot as it was.
   */
  lemma AddFillsLowestFreeSlot(t: Table, pid: int, command: string, background: bool, k: nat)
    requires k < |t.slots| && t.slots[k].pid == 0
    requires forall j :: 0 <= j < k ==> t.slots[j].pid != 0
    ensures var t' := Register(t, pid, command, background);
      && |t'.slots| == |t.slots|
      && t'.slots[k].pid == pid && t'.slots[k].id == t.nextJobId
      && t'.slots[k].command == Truncated(command)
      && (t'.slots[k].status == Running <==> background)
      && (!background ==> t'.slots[k].status == Done)
      && (forall j :: 0 <= j < |t.slots| && j != k ==> t'.slots[j] == t.slots[j])
      && t'.nextJobId == t.nextJobId + 1
    ensures AddNotice(t, pid, background) == if background then Some(Launched(t.nextJobId, pid)) else None
  {
    FirstPid(t.slots, 0, k);
  }

  /** On a full table `add_job` changes nothing and only reports that the list is full. */
  lemma AddToFullTable(t: Table, pid: int, command: string, background: bool)
    requires forall j :: 0 <= j < |t.slots| ==> t.slots[j].pid != 0
    ensures Register(t, pid, command, background) == t
    ensures AddNotice(t, pid, background) == Some(ListFull)
  {
  }

  /** `add_job` keeps the invariant when the pid is positive and not yet in the table. */
  lemma AddKeepsInvariant(t: Table, pid: int, command: string, background: bool)
    requires TableInvariant(t) && pid > 0 && IndexOfPid(t.slots, pid).None?
    ensures TableInvariant(Register(t, pid, command, background))
  {
    match IndexOfPid(t.slots, 0)
    case None =>
    case Some(k) =>
      var t' := Register(t, pid, command, background);
      assert t'.slots[k].pid == pid && t'.slots[k].id == t.nextJobId;
      forall i, j | 0 <= i < j < |t'.slots| && t'.slots[i].pid > 0 && t'.slots[j].pid > 0
        ensures t'.slots[i].pid != t'.slots[j].pid && t'.slots[i].id != t'.slots[j].id
      {
        if i != k && j != k {
          assert t'.slots[i] == t.slots[i] && t'.slots[j] == t.slots[j];
        } else if i == k {
          assert t'.slots[j] == t.slots[j] && t.slots[j] != EmptySlot;
        } else {
          assert t'.slots[i] == t.slots[i] && t.slots[i] != EmptySlot;
        }
      }
  }

  /**
   * `remove_job_by_pid` zeroes exactly the first slot holding the pid and keeps the job number;
   * when no slot holds it, nothing changes.
   */
  lemma RemoveClearsFirstMatch(t: Table, pid: int)
    ensures var t' := Retire(t, pid);
      && t'.nextJobId == t.nextJobId && |t'.slots| == |t.slots|
      && (forall k :: (0 <= k < |t.slots| && t.slots[k].pid == pid &&
            (forall j :: 0 <= j < k ==> t.slots[j].pid != pid)) ==>
            t'.slots == t.slots[k := EmptySlot])
      && ((forall k :: 0 <= k < |t.slots| ==> t.slots[k].pid != pid) ==> t' == t)
  {
    forall k | 0 <= k < |t.slots| && t.slots[k].pid == pid && (forall j :: 0 <= j < k ==> t.slots[j].pid != pid)
      ensures Retire(t, pid).slots == t.slots[k := EmptySlot]
    {
      FirstPid(t.slots, pid, k);
    }
  }

  /** In a table that keeps its invariant, removal leaves no slot with that pid. */
  lemma RemoveRetiresPid(t: Table, pid: int)
    requires TableInvariant(t) && pid > 0
    ensures IndexOfPid(Retire(t, pid).slots, pid).None?
  {
    match IndexOfPid(t.slots, pid)
    case None =>
    case Some(k) =>
      var t' := Retire(t, pid);
      assert t.slots[k].pid > 0;
      forall j | 0 <= j < |t'.slots| ensures t'.slots[j].pid != pid {
        if j > k {
          assert t'.slots[j] == t.slots[j];
        }
      }
  }

  /** Removing the same positive pid twice is the same as removing it once. */
  lemma RemoveIdempotent(t: Table, pid: int)
    requires TableInvariant(t) && pid > 0
    ensures Retire(Retire(t, pid), pid) == Retire(t, pid)
  {
    RemoveRetiresPid(t, pid);
  }

  /** Removal keeps the invariant. */
  lemma RemoveKeepsInvariant(t: Table, pid: int)
    requires TableInvariant(t)
    ensures TableInvariant(Retire(t, pid))
  {
    match IndexOfPid(t.slots, pid)
    case None =>
    case Some(k) =>
      var t' := Retire(t, pid);
      forall i, j | 0 <= i < j < |t'.slots| && t'.slots[i].pid > 0 && t'.slots[j].pid > 0
        ensures t'.slots[i].pid != t'.slots[j].pid && t'.slots[i].id != t'.slots[j].id
      {
        assert i != k && j != k;
        assert t'.slots[i] == t.slots[i] && t'.slots[j] == t.slots[j];
      }
  }

  /**
   * A retired job can no longer be found by its number: once its slot is cleared, `find_job_by_id`
   * reports no job with that id.
   */
  lemma ClearedSlotNeverFound(t: Table, k: nat)
    requires TableInvariant(t) && k < |t.slots| && t.slots[k].pid > 0
    ensures IndexOfId(Retire(t, t.slots[k].pid).slots, t.slots[k].id).None?
  {
    var pid, id := t.slots[k].pid, t.slots[k].id;
    assert forall j :: 0 <= j < k ==> t.slots[j].pid != pid;
    FirstPid(t.slots, pid, k);
    var t' := Retire(t, pid);
    forall j | 0 <= j < |t'.slots| ensures !(t'.slots[j].id == id && t'.slots[j].pid > 0) {
      if j != k && t.slots[j].pid > 0 {
        if j < k {
          assert t.slots[j].id != t.slots[k].id;
        } else {
          assert t.slots[k].id != t.slots[j].id;
        }
      }
    }
  }

  // ---------------------------------------------------------------------------
  // The reaper's table update (sigchld_handler)
  // ---------------------------------------------------------------------------

  /** How `waitpid` reports a child: WIFEXITED, WIFSIGNALED or WIFSTOPPED. */
  datatype WaitStatus = Exited | Signalled | StoppedBySignal

  /** One state change `waitpid(-1, …, WNOHANG | WUNTRACED)` returned. */
  datatype ChildEvent = ChildEvent(pid: int, how: WaitStatus)

  /** Set the status of the first slot holding `pid` to Stopped. */
  function MarkStopped(t: Table, pid: int): Table
  {
    match IndexOfPid(t.slots, pid)
    case None => t
    case Some(k) => t.(slots := t.slots[k := t.slots[k].(status := Stopped)])
  }

  /** The table update for one event: exit or death by signal retires the job, a stop marks it. */
  function ApplyEvent(t: Table, e: ChildEvent): Table
  {
    if e.how == StoppedBySignal then MarkStopped(t, e.pid) else Retire(t, e.pid)
  }

  /** The message for one event; a pid the table does not hold produces none. */
  function EventNotice(t: Table, e: ChildEvent): Option<Notice>
  {
    match IndexOfPid(t.slots, e.pid)
    case None => None
    case Some(k) =>
      var job := t.slots[k];
      if e.how == StoppedBySignal then Some(Suspended(job.id, e.pid, job.command))
      else Some(Finished(job.id, e.pid, job.command))
  }

  /** The events applied in the order `waitpid` reported them. */
  function ReapAll(t: Table, events: seq<ChildEvent>): Table
    decreases |events|
  {
    if events == [] then t else ReapAll(ApplyEvent(t, events[0]), events[1..])
  }

  /** The messages of the events, in the order reported. */
  function ReapNotices(t: Table, events: seq<ChildEvent>): seq<Notice>
    decreases |events|
  {
    if events == [] then []
    else
      NoticeList(EventNotice(t, events[0])) +
      ReapNotices(ApplyEvent(t, events[0]), events[1..])
  }

  /** An exit or a death by signal removes the pid's entry, and nothing else changes. */
  lemma ExitRetiresJob(t: Table, e: ChildEvent)
    requires TableInvariant(t) && e.pid > 0 && e.how != StoppedBySignal
    ensures ApplyEvent(t, e) == Retire(t, e.pid)
    ensures IndexOfPid(ApplyEvent(t, e).slots, e.pid).None?
    ensures TableInvariant(ApplyEvent(t, e))
  {
    RemoveRetiresPid(t, e.pid);
    RemoveKeepsInvariant(t, e.pid);
  }

  /** A stop marks the pid's entry Stopped, keeping its pid, id and command, and changes nothing else. */
  lemma StopKeepsJob(t: Table, e: ChildEvent, k: nat)
    requires TableInvariant(t) && e.how == StoppedBySignal
    requires k < |t.slots| && t.slots[k].pid == e.pid && e.pid > 0
    ensures var t' := ApplyEvent(t, e);
      && t'.nextJobId == t.nextJobId && |t'.slots| == |t.slots|
      && t'.slots[k] == Job(e.pid, t.slots[k].id, t.slots[k].command, Stopped)
      && (forall j :: 0 <= j < |t.slots| && j != k ==> t'.slots[j] == t.slots[j])
    ensures TableInvariant(ApplyEvent(t, e))
  {
    forall j | 0 <= j < k ensures t.slots[j].pid != e.pid {
      assert t.slots[k].pid > 0;
    }
    FirstPid(t.slots, e.pid, k);
    var t' := ApplyEvent(t, e);
    forall i, j | 0 <= i < j < |t'.slots| && t'.slots[i].pid > 0 && t'.slots[j].pid > 0
      ensures t'.slots[i].pid != t'.slots[j].pid && t'.slots[i].id != t'.slots[j].id
    {
      assert t'.slots[i].pid == t.slots[i].pid && t'.slots[i].id == t.slots[i].id;
      assert t'.slots[j].pid == t.slots[j].pid && t'.slots[j].id == t.slots[j].id;
    }
  }

  /** An event for a pid the table does not hold leaves the table unchanged and prints nothing. */
  lemma UnknownPidIgnored(t: Table, e: ChildEvent)
    requires forall k :: 0 <= k < |t.slots| ==> t.slots[k].pid != e.pid
    ensures ApplyEvent(t, e) == t
    ensures EventNotice(t, e) == None
  {
  }

  /** Every event keeps the invariant. */
  lemma ApplyEventKeepsInvariant(t: Table, e: ChildEvent)
    requires TableInvariant(t) && e.pid > 0
    ensures TableInvariant(ApplyEvent(t, e))
    ensures ApplyEvent(t, e).nextJobId == t.nextJobId
  {
    if e.how == StoppedBySignal {
      match IndexOfPid(t.slots, e.pid)
      case None =>
      case Some(k) => StopKeepsJob(t, e, k);
    } else {
      ExitRetiresJob(t, e);
    }
  }

  /** Processing a batch keeps the invariant and never changes the job number. */
  lemma {:induction false} ReapKeepsInvariant(t: Table, events: seq<ChildEvent>)
    requires TableInvariant(t)
    requires forall i :: 0 <= i < |events| ==> events[i].pid > 0
    ensures TableInvariant(ReapAll(t, events))
    ensures ReapAll(t, events).nextJobId == t.nextJobId
    decreases |events|
  {
    if events != [] {
      ApplyEventKeepsInvariant(t, events[0]);
      ReapKeepsInvariant(ApplyEvent(t, events[0]), events[1..]);
    }
  }

  /** Events are taken in order: a batch is the first part followed by the rest. */
  lemma {:induction false} ReapInOrder(t: Table, first: seq<ChildEvent>, rest: seq<ChildEvent>)
    ensures ReapAll(t, first + rest) == ReapAll(ReapAll(t, first), rest)
    ensures ReapNotices(t, first + rest) == ReapNotices(t, first) + ReapNotices(ReapAll(t, first), rest)
    decreases |first|
  {
    if first == [] {
      assert first + rest == rest;
    } else {
      assert (first + rest)[0] == first[0];
      assert (first + rest)[1..] == first[1..] + rest;
      ReapInOrder(ApplyEvent(t, first[0]), first[1..], rest);
      Associative(NoticeList(EventNotice(t, first[0])), ReapNotices(ApplyEvent(t, first[0]), first[1..]),
                  ReapNotices(ReapAll(t, first), rest));
    }
  }

  // ---------------------------------------------------------------------------
  // print_jobs and the exit builtin's kill loop
  // ---------------------------------------------------------------------------

  /** The jobs whose pid is positive, in slot order. */
  function LiveJobs(slots: seq<Job>): (r: seq<Job>)
    ensures |r| <= |slots|
  {
    if slots == [] then []
    else (if slots[0].pid > 0 then [slots[0]] else []) + LiveJobs(slots[1..])
  }

  /** The live jobs are exactly the occupied slots: each has a positive pid, and none is missed. */
  lemma {:induction false} LiveJobsSpec(slots: seq<Job>)
    ensures forall i :: 0 <= i < |LiveJobs(slots)| ==> LiveJobs(slots)[i].pid > 0 && LiveJobs(slots)[i] in slots
    ensures forall k :: 0 <= k < |slots| && slots[k].pid > 0 ==> slots[k] in LiveJobs(slots)
    decreases |slots|
  {
    if slots != [] {
      LiveJobsSpec(slots[1..]);
      var head: seq<Job> := if slots[0].pid > 0 then [slots[0]] else [];
      var r := LiveJobs(slots);
      assert r == head + LiveJobs(slots[1..]);
      forall k | 0 <= k < |slots| && slots[k].pid > 0 ensures slots[k] in r {
        if k > 0 {
          assert slots[k] == slots[1..][k - 1];
        }
      }
    }
  }

  /** The indices below `n` of the occupied slots, in increasing order. */
  function Occupied(slots: seq<Job>, n: nat): (r: seq<nat>)
    requires n <= |slots|
    ensures forall i :: 0 <= i < |r| ==> r[i] < n
  {
    if n == 0 then [] else Occupied(slots, n - 1) + (if slots[n - 1].pid > 0 then [n - 1] else [])
  }

  /** The occupied indices are strictly increasing, each holds a positive pid, and none is missed. */
  lemma {:induction false} OccupiedSpec(slots: seq<Job>, n: nat)
    requires n <= |slots|
    ensures forall i :: 0 <= i < |Occupied(slots, n)| ==> slots[Occupied(slots, n)[i]].pid > 0
    ensures forall i, j :: 0 <= i < j < |Occupied(slots, n)| ==> Occupied(slots, n)[i] < Occupied(slots, n)[j]
    ensures forall k :: 0 <= k < n && slots[k].pid > 0 ==> k in Occupied(slots, n)
  {
    if n > 0 {
      OccupiedSpec(slots, n - 1);
    }
  }

  /**
   * The live jobs are the occupied slots taken once each, in slot order: the `i`-th live job
   * is the slot at the `i`-th occupied index.
   */
  lemma {:induction false} LiveJobsInSlotOrder(slots: seq<Job>, n: nat)
    requires n <= |slots|
    ensures |LiveJobs(slots[..n])| == |Occupied(slots, n)|
    ensures forall i :: 0 <= i < |Occupied(slots, n)| ==> LiveJobs(slots[..n])[i] == slots[Occupied(slots, n)[i]]
  {
    if n > 0 {
      LiveJobsInSlotOrder(slots, n - 1);
      LiveJobsStep(slots, n - 1);
    }
  }

  /** One line of the `jobs` listing, or the message for an empty listing. */
  datatype ListLine = JobLine(id: int, state: string, command: string) | NoBackgroundJobs

  /** The label `print_jobs` prints: anything that is not Running reads "Stopped". */
  function StatusLabel(s: JobStatus): string
  {
    if s == Running then "Running" else "Stopped"
  }

  /** The `jobs` listing: one line per live slot in slot order, or the empty-listing message. */
  function Listing(slots: seq<Job>): seq<ListLine>
  {
    var live := LiveJobs(slots);
    if live == [] then [NoBackgroundJobs] else LinesOf(live)
  }

  /**
   * The listing says "no background jobs" exactly when no slot is live; otherwise it has one
   * line per occupied slot, in slot order, so every live job has its line and every line is
   * a live job's.
   */
  lemma ListingSpec(slots: seq<Job>)
    ensures Listing(slots) == [NoBackgroundJobs] <==> forall k :: 0 <= k < |slots| ==> slots[k].pid <= 0
    ensures Listing(slots) != [NoBackgroundJobs] ==>
      (forall k :: 0 <= k < |slots| && slots[k].pid > 0 ==>
        JobLine(slots[k].id, StatusLabel(slots[k].status), slots[k].command) in Listing(slots))
    ensures Listing(slots) != [NoBackgroundJobs] ==>
      (forall l :: l in Listing(slots) ==>
        (exists k :: 0 <= k < |slots| && slots[k].pid > 0 &&
           l == JobLine(slots[k].id, StatusLabel(slots[k].status), slots[k].command)))
    ensures Listing(slots) != [NoBackgroundJobs] ==>
      var occ := Occupied(slots, |slots|);
      && |Listing(slots)| == |occ|
      && forall i :: 0 <= i < |occ| ==>
           Listing(slots)[i] == JobLine(slots[occ[i]].id, StatusLabel(slots[occ[i]].status), slots[occ[i]].command)
  {
    LiveJobsSpec(slots);
    var live := LiveJobs(slots);
    var lines := Listing(slots);
    if live != [] {
      assert lines[0].JobLine?;
      forall k | 0 <= k < |slots| && slots[k].pid > 0
        ensures JobLine(slots[k].id, StatusLabel(slots[k].status), slots[k].command) in lines
      {
        var i :| 0 <= i < |live| && live[i] == slots[k];
        assert lines[i] == JobLine(slots[k].id, StatusLabel(slots[k].status), slots[k].command);
      }
      forall l | l in lines
        ensures exists k :: (0 <= k < |slots| && slots[k].pid > 0 &&
          l == JobLine(slots[k].id, StatusLabel(slots[k].status), slots[k].command))
      {
        var i :| 0 <= i < |lines| && lines[i] == l;
        var k :| 0 <= k < |slots| && slots[k] == live[i];
      }
    }
    ListingInSlotOrder(slots);
  }

  /** The pids the `exit` builtin sends SIGTERM to: every live slot's, in slot order. */
  function ExitTargets(slots: seq<Job>): seq<int>
  {
    PidsOf(LiveJobs(slots))
  }

  // ---------------------------------------------------------------------------
  // The table the shell updates in place
  // ---------------------------------------------------------------------------

  /** `job_list` and `next_job_id`. */
  class JobTable {
    var slots: array<Job>
    var nextJobId: int

    ghost predicate Valid()
      reads this, slots
    {
      TableInvariant(Table(slots[..], nextJobId))
    }

    /** The table's current value. */
    ghost function State(): Table
      reads this, slots
    {
      Table(slots[..], nextJobId)
    }

    /** The zeroed table of program start (shell.c:29, shell.c:479). */
    constructor ()
      ensures Valid() && fresh(slots)
      ensures State() == InitialTable()
    {
      slots := new Job[MaxJobs](_ => EmptySlot);
      nextJobId := 1;
      new;
      assert slots[..] == InitialTable().slots;
    }

    /** `add_job`: the pid must be positive and not already tracked. */
    method AddJob(pid: int, command: string, background: bool) returns (notice: Option<Notice>)
      requires Valid() && pid > 0 && IndexOfPid(slots[..], pid).None?
      modifies this, slots
      ensures Valid() && slots == old(slots)
      ensures State() == Register(old(State()), pid, command, background)
      ensures notice == AddNotice(old(State()), pid, background)
    {
      ghost var t := State();
      AddKeepsInvariant(t, pid, command, background);
      for i := 0 to MaxJobs
        invariant State() == t
        invariant forall k :: 0 <= k < i ==> t.slots[k].pid != 0
      {
        if slots[i].pid == 0 {
          FirstPid(t.slots, 0, i);
          var id := nextJobId;
          var job := Job(pid, id, Truncated(command), if background then Running else Done);
          slots[i] := job;
          nextJobId := nextJobId + 1;
          assert State() == Table(t.slots[i := job], t.nextJobId + 1);
          notice := if background then Some(Launched(id, pid)) else None;
          return;
        }
      }
      notice := Some(ListFull);
    }

    /** `remove_job_by_pid`. */
    method RemoveJobByPid(pid: int)
      requires Valid()
      modifies slots
      ensures Valid()
      ensures State() == Retire(old(State()), pid)
    {
      RemoveKeepsInvariant(State(), pid);
      for i := 0 to MaxJobs
        invariant forall k :: 0 <= k < i ==> slots[k].pid != pid
      {
        if slots[i].pid == pid {
          FirstPid(slots[..], pid, i);
          slots[i] := EmptySlot;
          return;
        }
      }
    }

    /** `find_job_by_id`: the index of the slot it points to, if any. */
    method FindJobById(jobId: int) returns (r: Option<nat>)
      requires slots.Length == MaxJobs
      ensures r == IndexOfId(slots[..], jobId)
    {
      for i := 0 to MaxJobs
        invariant forall k :: 0 <= k < i ==> !(slots[k].id == jobId && slots[k].pid > 0)
      {
        if slots[i].id == jobId && slots[i].pid > 0 {
          FirstId(slots[..], jobId, i);
          return Some(i);
        }
      }
      r := None;
    }

    /** `print_jobs`: the lines it prints, counting the live slots. */
    method PrintJobs() returns (lines: seq<ListLine>)
      requires slots.Length == MaxJobs
      ensures lines == Listing(slots[..])
    {
      ghost var s := slots[..];
      lines := [];
      var count := 0;
      for i := 0 to MaxJobs
        invariant count == |LiveJobs(s[..i])|
        invariant lines == LinesOf(LiveJobs(s[..i]))
      {
        LiveJobsStep(s, i);
        if slots[i].pid > 0 {
          LinesOfAppend(LiveJobs(s[..i]), slots[i]);
          lines := lines + [JobLine(slots[i].id, StatusLabel(slots[i].status), slots[i].command)];
          count := count + 1;
        }
      }
      assert s[..MaxJobs] == s;
      if count == 0 {
        lines := [NoBackgroundJobs];
      }
    }

    /** The `exit` builtin's loop: the pids it signals. */
    method LivePids() returns (pids: seq<int>)
      requires slots.Length == MaxJobs
      ensures pids == ExitTargets(slots[..])
    {
      ghost var s := slots[..];
      pids := [];
      for i := 0 to MaxJobs
        invariant pids == PidsOf(LiveJobs(s[..i]))
      {
        LiveJobsStep(s, i);
        if slots[i].pid > 0 {
          PidsOfAppend(LiveJobs(s[..i]), slots[i]);
          pids := pids + [slots[i].pid];
        }
      }
      assert s[..MaxJobs] == s;
    }

    /**
     * `sigchld_handler`'s table update, for the events `waitpid` reported in order: an exit or
     * a death by signal prints "Done" and retires the job, a stop marks it Stopped.
     */
    method ReapChildren(events: seq<ChildEvent>) returns (notices: seq<Notice>)
      requires Valid()
      requires forall i :: 0 <= i < |events| ==> events[i].pid > 0
      modifies slots
      ensures Valid()
      ensures State() == ReapAll(old(State()), events)
      ensures notices == ReapNotices(old(State()), events)
    {
      ghost var t0 := State();
      notices := [];
      for n := 0 to |events|
        invariant Valid()
        invariant State() == ReapAll(t0, events[..n])
        invariant notices == ReapNotices(t0, events[..n])
      {
        notices := ReapNext(t0, events, n, notices);
      }
      assert events[..|events|] == events;
    }

    /** The handler loop's pass for the `n`-th event, extending the replayed prefix by one. */
    method ReapNext(ghost t0: Table, events: seq<ChildEvent>, n: nat, notices: seq<Notice>)
        returns (notices': seq<Notice>)
      requires Valid() && n < |events| && events[n].pid > 0
      requires State() == ReapAll(t0, events[..n]) && notices == ReapNotices(t0, events[..n])
      modifies slots
      ensures Valid()
      ensures State() == ReapAll(t0, events[..n + 1])
      ensures notices' == ReapNotices(t0, events[..n + 1])
    {
      ReapStep(t0, events[..n], events[n]);
      assert events[..n + 1] == events[..n] + [events[n]];
      var notice := HandleEvent(events[n]);
      notices' := notices + NoticeList(notice);
    }

    /** One pass of the handler's loop body for the pid `waitpid` returned. */
    method HandleEvent(e: ChildEvent) returns (notice: Option<Notice>)
      requires Valid() && e.pid > 0
      modifies slots
      ensures Valid()
      ensures State() == ApplyEvent(old(State()), e)
      ensures notice == EventNotice(old(State()), e)
    {
      notice := None;
      ghost var t := State();
      ApplyEventKeepsInvariant(t, e);
      for i := 0 to MaxJobs
        invariant State() == t
        invariant forall k :: 0 <= k < i ==> t.slots[k].pid != e.pid
      {
        if slots[i].pid == e.pid {
          FirstPid(t.slots, e.pid, i);
          var job := slots[i];
          if e.how == Exited || e.how == Signalled {
            notice := Some(Finished(job.id, e.pid, job.command));
            RemoveJobByPid(e.pid);
          } else {
            notice := Some(Suspended(job.id, e.pid, job.command));
            slots[i] := job.(status := Stopped);
            assert State() == Table(t.slots[i := job.(status := Stopped)], t.nextJobId);
          }
          return;
        }
      }
    }

    /**
     * The `fg` builtin's table effect once its argument is a number: a job found by that number
     * is resumed, waited for and retired; otherwise the table is untouched.
     */
    method ResumeJob(jobId: int) returns (resumed: Option<Job>)
      requires Valid()
      modifies slots
      ensures Valid()
      ensures match IndexOfId(old(slots[..]), jobId)
        case None => resumed == None && State() == old(State())
        case Some(k) => resumed == Some(old(slots[k])) && State() == Retire(old(State()), old(slots[k]).pid)
    {
      var found := FindJobById(jobId);
      match found
      case None =>
        resumed := None;
      case Some(k) =>
        resumed := Some(slots[k]);
        RemoveJobByPid(slots[k].pid);
    }
  }

  /** A non-empty listing has one line per occupied slot, in slot order. */
  lemma ListingInSlotOrder(slots: seq<Job>)
    ensures Listing(slots) != [NoBackgroundJobs] ==>
      var occ := Occupied(slots, |slots|);
      && |Listing(slots)| == |occ|
      && forall i :: 0 <= i < |occ| ==>
           Listing(slots)[i] == JobLine(slots[occ[i]].id, StatusLabel(slots[occ[i]].status), slots[occ[i]].command)
  {
    LiveJobsInSlotOrder(slots, |slots|);
    assert slots[..|slots|] == slots;
  }

  /** The listing lines of some live jobs. */
  function LinesOf(live: seq<Job>): seq<ListLine>
  {
    seq(|live|, i requires 0 <= i < |live| => JobLine(live[i].id, StatusLabel(live[i].status), live[i].command))
  }

  /** The pids of some live jobs. */
  function PidsOf(live: seq<Job>): seq<int>
  {
    seq(|live|, i requires 0 <= i < |live| => live[i].pid)
  }

  lemma {:induction false} LiveJobsAppend(a: seq<Job>, b: seq<Job>)
    ensures LiveJobs(a + b) == LiveJobs(a) + LiveJobs(b)
    decreases |a|
  {
    if a == [] {
      assert a + b == b;
    } else {
      assert (a + b)[1..] == a[1..] + b;
      LiveJobsAppend(a[1..], b);
      Associative(if a[0].pid > 0 then [a[0]] else [], LiveJobs(a[1..]), LiveJobs(b));
    }
  }

  lemma LiveJobsStep(s: seq<Job>, i: nat)
    requires i < |s|
    ensures LiveJobs(s[..i + 1]) == LiveJobs(s[..i]) + (if s[i].pid > 0 then [s[i]] else [])
  {
    assert s[..i + 1] == s[..i] + [s[i]];
    LiveJobsAppend(s[..i], [s[i]]);
    assert [s[i]][1..] == [];
  }

  lemma LinesOfAppend(live: seq<Job>, j: Job)
    ensures LinesOf(live + [j]) == LinesOf(live) + [JobLine(j.id, StatusLabel(j.status), j.command)]
  {
  }

  lemma PidsOfAppend(live: seq<Job>, j: Job)
    ensures PidsOf(live + [j]) == PidsOf(live) + [j.pid]
  {
  }

  /** An optional message as a list of zero or one messages. */
  function NoticeList(n: Option<Notice>): seq<Notice>
  {
    match n case None => [] case Some(x) => [x]
  }

  lemma ReapStep(t: Table, events: seq<ChildEvent>, e: ChildEvent)
    ensures ReapAll(t, events + [e]) == ApplyEvent(ReapAll(t, events), e)
    ensures ReapNotices(t, events + [e]) == ReapNotices(t, events) + NoticeList(EventNotice(ReapAll(t, events), e))
  {
    ReapInOrder(t, events, [e]);
    assert [e][1..] == [];
  }
}
