/**
 * The orchestration of one line: wiring the stages of a pipeline together, choosing each
 * child's standard input and output, registering every spawned stage in the job table and
 * retiring the ones the shell waits for.
 * `fork` and `pipe` results are inputs; what the child does after its descriptors are set up
 * (`execvp`) is not modelled.
 */
module Pipeline {
  import opened Wrappers
  import opened Text
  import opened Redirection
  import opened Jobs

  // ---------------------------------------------------------------------------
  // Wiring (shell.c:404-430)
  // ---------------------------------------------------------------------------

  /** The `fd_in` a stage is given: the shell's standard input or the read end of a pipe. */
  datatype InputFd = StdinFd | PipeRead(pipe: nat)
  /** The `fd_out` a stage is given: the shell's standard output or the write end of a pipe. */
  datatype OutputFd = StdoutFd | PipeWrite(pipe: nat)

  /** Stage 0 reads the terminal; stage `i > 0` reads the pipe created for stage `i - 1`. */
  function StageInput(i: nat): InputFd
  {
    if i == 0 then StdinFd else PipeRead(i - 1)
  }

  /** Every stage but the last writes the pipe created for it; the last writes the terminal. */
  function StageOutput(i: nat, count: nat): OutputFd
  {
    if i + 1 < count then PipeWrite(i) else StdoutFd
  }

  /**
   * A pipeline of `count` stages uses pipes `0 .. count - 2`, that is `count - 1` of them; pipe `j`
   * is written by stage `j` alone and read by stage `j + 1` alone. Only the first stage reads the
   * terminal and only the last writes it.
   */
  lemma WiringSpec(count: nat)
    requires count >= 1
    ensures forall i: nat, j: nat :: i < count ==> (StageOutput(i, count) == PipeWrite(j) <==> i == j && j < count - 1)
    ensures forall i: nat, j: nat :: i < count ==> (StageInput(i) == PipeRead(j) <==> i == j + 1)
    ensures forall i: nat :: i < count ==> (StageInput(i) == StdinFd <==> i == 0)
    ensures forall i: nat :: i < count ==> (StageOutput(i, count) == StdoutFd <==> i == count - 1)
  {
  }

  // ---------------------------------------------------------------------------
  // The child's standard streams (shell.c:237-268)
  // ---------------------------------------------------------------------------

  /** How an output file is opened: `O_TRUNC` for `>`, `O_APPEND` for `>>`. */
  datatype OpenMode = Truncate | Append

  /** Where the child's standard input comes from. */
  datatype StdinSource = InheritStdin | ReadFile(path: string) | FromPipe(pipe: nat)
  /** Where the child's standard output goes. */
  datatype StdoutTarget = InheritStdout | WriteFile(path: string, mode: OpenMode) | ToPipe(pipe: nat)

  /** An input redirection replaces whatever `fd_in` the stage was given. */
  function ResolveInput(inputFile: Option<string>, fdIn: InputFd): StdinSource
  {
    match inputFile
    case Some(path) => ReadFile(path)
    case None => match fdIn case StdinFd => InheritStdin case PipeRead(p) => FromPipe(p)
  }

  /** An output redirection replaces whatever `fd_out` the stage was given. */
  function ResolveOutput(outputFile: Option<string>, append: bool, fdOut: OutputFd): StdoutTarget
  {
    match outputFile
    case Some(path) => WriteFile(path, if append then Append else Truncate)
    case None => match fdOut case StdoutFd => InheritStdout case PipeWrite(p) => ToPipe(p)
  }

  /** A process the shell started for a stage, as set up in the child before `execvp`. */
  datatype Spawn = Spawn(pid: int, argv: seq<string>, stdin: StdinSource, stdout: StdoutTarget, background: bool)

  /** What became of one stage. */
  datatype StageOutcome =
    | ParseFailed(error: ParseResult)  // a redirection without a file name
    | EmptyCommand                      // nothing but redirections: nothing is spawned
    | ForkFailed                        // `fork` returned a negative value
    | Spawned(spawn: Spawn)

  /** `execute_single_command` up to the spawn, for the given `fork` result. */
  function StageOutcomeOf(command: string, fdIn: InputFd, fdOut: OutputFd, background: bool, forkResult: int): StageOutcome
  {
    match ParseStage(command)
    case Parsed(st) =>
      if st.args == [] then EmptyCommand
      else if forkResult < 0 then ForkFailed
      else Spawned(Spawn(forkResult, st.args, ResolveInput(st.inputFile, fdIn),
                         ResolveOutput(st.outputFile, st.append, fdOut), background))
    case _ => ParseFailed(ParseStage(command))
  }

  /**
   * A spawned stage runs the parsed arguments; its input is the redirected file when there is
   * one and the inherited descriptor otherwise, and likewise its output, opened in append mode
   * exactly for `>>`. A stage with no arguments or a syntax error spawns nothing.
   */
  lemma StageSetup(command: string, fdIn: InputFd, fdOut: OutputFd, background: bool, forkResult: int)
    requires forkResult > 0
    ensures var o := StageOutcomeOf(command, fdIn, fdOut, background, forkResult);
      && (o.Spawned? <==> ParseStage(command).Parsed? && ParseStage(command).stage.args != [])
      && (o.Spawned? ==>
            var st := ParseStage(command).stage;
            && o.spawn.pid == forkResult && o.spawn.argv == st.args && o.spawn.background == background
            && (st.inputFile.Some? ==> o.spawn.stdin == ReadFile(st.inputFile.value))
            && (st.inputFile.None? ==> (o.spawn.stdin == InheritStdin <==> fdIn == StdinFd))
            && (st.inputFile.None? && fdIn.PipeRead? ==> o.spawn.stdin == FromPipe(fdIn.pipe))
            && (st.outputFile.Some? ==>
                  o.spawn.stdout.WriteFile? && o.spawn.stdout.path == st.outputFile.value &&
                  (o.spawn.stdout.mode == Append <==> st.append))
            && (st.outputFile.None? ==> (o.spawn.stdout == InheritStdout <==> fdOut == StdoutFd))
            && (st.outputFile.None? && fdOut.PipeWrite? ==> o.spawn.stdout == ToPipe(fdOut.pipe)))
  {
  }

  // ---------------------------------------------------------------------------
  // Registering and waiting (shell.c:276-297)
  // ---------------------------------------------------------------------------

  /** The table after one stage: a spawned stage is added; a foreground one is waited for and retired. */
  function StageTableEffect(t: Table, o: StageOutcome, full: string): Table
  {
    match o
    case Spawned(s) =>
      if s.background then Register(t, s.pid, full, true)
      else Retire(Register(t, s.pid, full, false), s.pid)
    case _ => t
  }

  /**
   * A foreground stage leaves no entry behind: its slot is taken and then cleared to the free
   * state it had, so the slots are as before; it still uses up a job number when a slot was free.
   */
  lemma ForegroundStageLeavesNoEntry(t: Table, pid: int, full: string)
    requires TableInvariant(t) && pid > 0 && IndexOfPid(t.slots, pid).None?
    ensures Retire(Register(t, pid, full, false), pid).slots == t.slots
    ensures Retire(Register(t, pid, full, false), pid).nextJobId ==
      if IndexOfPid(t.slots, 0).Some? then t.nextJobId + 1 else t.nextJobId
    ensures TableInvariant(Retire(Register(t, pid, full, false), pid))
  {
    AddKeepsInvariant(t, pid, full, false);
    RemoveKeepsInvariant(Register(t, pid, full, false), pid);
    match IndexOfPid(t.slots, 0)
    case None =>
    case Some(k) =>
      var t1 := Register(t, pid, full, false);
      assert t1.slots[k].pid == pid;
      FirstPid(t1.slots, pid, k);
      assert t.slots[k] == EmptySlot;
      assert t1.slots[k := EmptySlot] == t.slots;
  }

  /** `execute_single_command` as the parent sees it. */
  method ExecuteSingleCommand(table: JobTable, command: string, fdIn: InputFd, fdOut: OutputFd,
                              full: string, background: bool, forkResult: int)
      returns (outcome: StageOutcome, notice: Option<Notice>)
    requires table.Valid() && forkResult != 0
    requires forkResult > 0 ==> IndexOfPid(table.slots[..], forkResult).None?
    modifies table, table.slots
    ensures table.Valid() && table.slots == old(table.slots)
    ensures outcome == StageOutcomeOf(command, fdIn, fdOut, background, forkResult)
    ensures table.State() == StageTableEffect(old(table.State()), outcome, full)
    ensures notice == if outcome.Spawned? then AddNotice(old(table.State()), forkResult, background) else None
  {
    notice := None;
    var parsed := ParseRedirection(command);
    if !parsed.Parsed? {
      return ParseFailed(parsed), None;
    }
    var st := parsed.stage;
    if st.args == [] {
      return EmptyCommand, None;
    }
    if forkResult < 0 {
      return ForkFailed, None;
    }
    outcome := Spawned(Spawn(forkResult, st.args, ResolveInput(st.inputFile, fdIn),
                             ResolveOutput(st.outputFile, st.append, fdOut), background));
    notice := table.AddJob(forkResult, full, background);
    if !background {
      table.RemoveJobByPid(forkResult);
    }
  }

  // ---------------------------------------------------------------------------
  // The pipeline loop (shell.c:404-432)
  // ---------------------------------------------------------------------------

  /** How many stages run when only `pipesAvailable` calls to `pipe` succeed: the loop returns at the first failure. */
  function StagesRun(count: nat, pipesAvailable: nat): (n: nat)
    ensures n <= count
  {
    if count <= pipesAvailable + 1 then count else pipesAvailable
  }

  /** The outcome of every stage the loop reaches; only the last stage carries the background flag. */
  function PipelineOutcomes(stages: seq<string>, background: bool, forks: seq<int>, pipesAvailable: nat): (r: seq<StageOutcome>)
    requires |forks| == |stages|
    ensures |r| == StagesRun(|stages|, pipesAvailable)
  {
    seq(StagesRun(|stages|, pipesAvailable), i requires 0 <= i < StagesRun(|stages|, pipesAvailable) =>
      StageOutcomeOf(stages[i], StageInput(i), StageOutput(i, |stages|),
                     background && i == |stages| - 1, forks[i]))
  }

  /** The table after the stages' effects, in order. */
  function PipelineTableEffect(t: Table, outcomes: seq<StageOutcome>, full: string): Table
    decreases |outcomes|
  {
    if outcomes == [] then t
    else StageTableEffect(PipelineTableEffect(t, outcomes[..|outcomes| - 1], full), outcomes[|outcomes| - 1], full)
  }

  /**
   * The messages `add_job` prints while the stages run: each spawned stage is added to the
   * table as the earlier stages left it.
   */
  function PipelineNotices(t: Table, outcomes: seq<StageOutcome>, full: string): seq<Notice>
    decreases |outcomes|
  {
    if outcomes == [] then []
    else
      var init := outcomes[..|outcomes| - 1];
      PipelineNotices(t, init, full) + NoticeList(StageNotice(PipelineTableEffect(t, init, full), outcomes[|outcomes| - 1]))
  }

  /** The message `add_job` prints for one stage, if it spawned. */
  function StageNotice(t: Table, o: StageOutcome): Option<Notice>
  {
    if o.Spawned? then AddNotice(t, o.spawn.pid, o.spawn.background) else None
  }

  /** The `fork` results a pipeline may be given: never 0 in the parent, and no pid the table already tracks. */
  predicate FreshForks(t: Table, forks: seq<int>)
  {
    && (forall i :: 0 <= i < |forks| ==> forks[i] != 0)
    && (forall i :: 0 <= i < |forks| && forks[i] > 0 ==> IndexOfPid(t.slots, forks[i]).None?)
  }

  /** The stage loop of `execute_pipeline_or_builtin`. */
  method ExecutePipeline(table: JobTable, stages: seq<string>, full: string, background: bool,
                         forks: seq<int>, pipesAvailable: nat)
      returns (outcomes: seq<StageOutcome>, notices: seq<Notice>)
    requires table.Valid() && |forks| == |stages| && FreshForks(table.State(), forks)
    modifies table, table.slots
    ensures table.Valid() && table.slots == old(table.slots)
    ensures outcomes == PipelineOutcomes(stages, background, forks, pipesAvailable)
    ensures table.State() == PipelineTableEffect(old(table.State()), outcomes, full)
    ensures notices == PipelineNotices(old(table.State()), outcomes, full)
  {
    ghost var t0 := table.State();
    var count := |stages|;
    var n := StagesRun(count, pipesAvailable);
    outcomes, notices := [], [];
    var fdIn := StdinFd;
    var i := 0;
    while i < count
      invariant i <= n && |outcomes| == i
      invariant table.Valid() && table.slots == old(table.slots)
      invariant i < count ==> fdIn == StageInput(i)
      invariant forall j :: 0 <= j < i ==> outcomes[j] == PlannedOutcome(stages, background, forks, j)
      invariant table.State() == PipelineTableEffect(t0, outcomes, full)
      invariant notices == PipelineNotices(t0, outcomes, full)
      invariant forall j :: i <= j < count && forks[j] > 0 ==> IndexOfPid(table.State().slots, forks[j]).None?
    {
      var fdOut := StdoutFd;
      if i < count - 1 {
        if i >= pipesAvailable {
          OutcomesArePlanned(stages, background, forks, pipesAvailable, outcomes);
          return;
        }
        fdOut := PipeWrite(i);
      }
      ghost var done := outcomes;
      outcomes, notices := RunStage(table, stages, i, fdIn, fdOut, full, background, forks, t0, outcomes, notices);
      PlannedSnoc(stages, background, forks, done, i);
      if i < count - 1 {
        fdIn := PipeRead(i);
      }
      i := i + 1;
    }
    OutcomesArePlanned(stages, background, forks, pipesAvailable, outcomes);
  }

  /**
   * One pass of the stage loop: stage `i` runs with the descriptors the loop chose for it, and
   * its outcome and its `add_job` message are appended to those of the earlier stages.
   */
  method RunStage(table: JobTable, stages: seq<string>, i: nat, fdIn: InputFd, fdOut: OutputFd,
                  full: string, background: bool, forks: seq<int>,
                  ghost t0: Table, outcomes: seq<StageOutcome>, notices: seq<Notice>)
      returns (outcomes': seq<StageOutcome>, notices': seq<Notice>)
    requires |forks| == |stages| && i < |stages|
    requires fdIn == StageInput(i) && fdOut == StageOutput(i, |stages|)
    requires table.Valid()
    requires table.State() == PipelineTableEffect(t0, outcomes, full)
    requires notices == PipelineNotices(t0, outcomes, full)
    requires forall j :: 0 <= j < |forks| ==> forks[j] != 0
    requires forall j :: i <= j < |forks| && forks[j] > 0 ==> IndexOfPid(table.State().slots, forks[j]).None?
    modifies table, table.slots
    ensures table.Valid() && table.slots == old(table.slots)
    ensures outcomes' == outcomes + [PlannedOutcome(stages, background, forks, i)]
    ensures table.State() == PipelineTableEffect(t0, outcomes', full)
    ensures notices' == PipelineNotices(t0, outcomes', full)
    ensures forall j :: i < j < |forks| && forks[j] > 0 ==> IndexOfPid(table.State().slots, forks[j]).None?
  {
    ghost var before := table.State();
    var last := background && i == |stages| - 1;
    var outcome, notice := ExecuteSingleCommand(table, stages[i], fdIn, fdOut, full, last, forks[i]);
    assert outcome.Spawned? ==> outcome.spawn.pid == forks[i] > 0 && outcome.spawn.background == last;
    StagePreservesAbsence(before, outcome, full, forks, i);
    EffectSnoc(t0, outcomes, outcome, full);
    NoticesSnoc(t0, outcomes, outcome, full);
    outcomes' := outcomes + [outcome];
    notices' := notices + NoticeList(notice);
  }

  /** The outcome the loop computes for stage `i`. */
  function PlannedOutcome(stages: seq<string>, background: bool, forks: seq<int>, i: nat): StageOutcome
    requires |forks| == |stages| && i < |stages|
  {
    StageOutcomeOf(stages[i], StageInput(i), StageOutput(i, |stages|), background && i == |stages| - 1, forks[i])
  }

  lemma OutcomesArePlanned(stages: seq<string>, background: bool, forks: seq<int>, pipesAvailable: nat, outcomes: seq<StageOutcome>)
    requires |forks| == |stages| && |outcomes| == StagesRun(|stages|, pipesAvailable)
    requires forall j :: 0 <= j < |outcomes| ==> outcomes[j] == PlannedOutcome(stages, background, forks, j)
    ensures outcomes == PipelineOutcomes(stages, background, forks, pipesAvailable)
  {
  }

  lemma PlannedSnoc(stages: seq<string>, background: bool, forks: seq<int>, done: seq<StageOutcome>, i: nat)
    requires |forks| == |stages| && i < |stages| && |done| == i
    requires forall j :: 0 <= j < i ==> done[j] == PlannedOutcome(stages, background, forks, j)
    ensures forall j :: 0 <= j < i + 1 ==>
      (done + [PlannedOutcome(stages, background, forks, i)])[j] == PlannedOutcome(stages, background, forks, j)
  {
  }

  lemma EffectSnoc(t: Table, outcomes: seq<StageOutcome>, o: StageOutcome, full: string)
    ensures PipelineTableEffect(t, outcomes + [o], full) == StageTableEffect(PipelineTableEffect(t, outcomes, full), o, full)
  {
    assert (outcomes + [o])[..|outcomes|] == outcomes;
  }

  lemma NoticesSnoc(t: Table, outcomes: seq<StageOutcome>, o: StageOutcome, full: string)
    ensures PipelineNotices(t, outcomes + [o], full) ==
      PipelineNotices(t, outcomes, full) + NoticeList(StageNotice(PipelineTableEffect(t, outcomes, full), o))
  {
    assert (outcomes + [o])[..|outcomes|] == outcomes;
  }

  /**
   * A stage leaves the later stages' pids untracked: a foreground stage leaves the slots as they
   * were, even when a later `fork` hands out its pid again, and a background stage is the last.
   */
  lemma StagePreservesAbsence(t: Table, o: StageOutcome, full: string, forks: seq<int>, i: nat)
    requires TableInvariant(t) && i < |forks|
    requires forall j :: i <= j < |forks| && forks[j] > 0 ==> IndexOfPid(t.slots, forks[j]).None?
    requires o.Spawned? ==> o.spawn.pid == forks[i] > 0
    requires o.Spawned? && o.spawn.background ==> i == |forks| - 1
    ensures forall j :: i < j < |forks| && forks[j] > 0 ==> IndexOfPid(StageTableEffect(t, o, full).slots, forks[j]).None?
  {
    if o.Spawned? && !o.spawn.background {
      ForegroundStageLeavesNoEntry(t, o.spawn.pid, full);
    }
  }

  /**
   * Stage `i` is started with the `i`-th `fork` result, and only the last stage of a pipeline is
   * ever spawned in the background, only when the line ended in `&`.
   */
  lemma OnlyLastStageInBackground(stages: seq<string>, background: bool, forks: seq<int>, pipesAvailable: nat)
    requires |forks| == |stages|
    ensures var outcomes := PipelineOutcomes(stages, background, forks, pipesAvailable);
      forall i :: 0 <= i < |outcomes| && outcomes[i].Spawned? ==>
        outcomes[i].spawn.pid == forks[i] >= 0 &&
        (outcomes[i].spawn.background <==> background && i == |stages| - 1)
  {
    var outcomes := PipelineOutcomes(stages, background, forks, pipesAvailable);
    forall i | 0 <= i < |outcomes| && outcomes[i].Spawned?
      ensures outcomes[i].spawn.pid == forks[i] >= 0
      ensures outcomes[i].spawn.background <==> background && i == |stages| - 1
    {
      assert outcomes[i] == PlannedOutcome(stages, background, forks, i);
    }
  }

  /**
   * Stages that are not in the background leave the slots as they found them: every one is
   * registered as Done, waited for and retired before the next stage starts.
   */
  lemma {:induction false} ForegroundStagesLeaveSlots(t: Table, outcomes: seq<StageOutcome>, full: string)
    requires TableInvariant(t)
    requires forall i :: 0 <= i < |outcomes| && outcomes[i].Spawned? ==>
      !outcomes[i].spawn.background && outcomes[i].spawn.pid > 0 && IndexOfPid(t.slots, outcomes[i].spawn.pid).None?
    ensures PipelineTableEffect(t, outcomes, full).slots == t.slots
    ensures TableInvariant(PipelineTableEffect(t, outcomes, full))
    decreases |outcomes|
  {
    if outcomes != [] {
      var init := outcomes[..|outcomes| - 1];
      ForegroundStagesLeaveSlots(t, init, full);
      var mid := PipelineTableEffect(t, init, full);
      var o := outcomes[|outcomes| - 1];
      if o.Spawned? {
        ForegroundStageLeavesNoEntry(mid, o.spawn.pid, full);
      }
    }
  }

  /**
   * A foreground pipeline leaves the slots unchanged. In a background pipeline every stage but
   * the last is still registered as Done and retired after a synchronous wait, so the only
   * slot that can change holds the last stage's process, as a Running job.
   */
  lemma PipelineEntries(t: Table, stages: seq<string>, full: string, background: bool, forks: seq<int>, pipesAvailable: nat)
    requires TableInvariant(t) && |forks| == |stages| && FreshForks(t, forks)
    ensures var r := PipelineTableEffect(t, PipelineOutcomes(stages, background, forks, pipesAvailable), full);
      && |r.slots| == |t.slots|
      && (!background ==> r.slots == t.slots)
      && (forall k :: 0 <= k < |t.slots| && r.slots[k] != t.slots[k] ==>
            r.slots[k].pid == forks[|stages| - 1] && r.slots[k].status == Running)
  {
    var outcomes := PipelineOutcomes(stages, background, forks, pipesAvailable);
    OnlyLastStageInBackground(stages, background, forks, pipesAvailable);
    EntriesOfOutcomes(t, outcomes, full, background, forks);
  }

  /**
   * On a `&` line whose stages all run and whose last stage is spawned while a slot is free, the
   * last stage's process takes the lowest free slot as a Running job with the line as its
   * command and the job number handed out last, every other slot is as before, and the last
   * message printed is its `[id] pid` launch notice.
   */
  lemma BackgroundJobRegistered(t: Table, stages: seq<string>, full: string, forks: seq<int>, pipesAvailable: nat)
    requires TableInvariant(t) && |forks| == |stages| && FreshForks(t, forks)
    requires IndexOfPid(t.slots, 0).Some? && stages != []
    requires var outcomes := PipelineOutcomes(stages, true, forks, pipesAvailable);
      |outcomes| == |stages| && outcomes[|stages| - 1].Spawned?
    ensures var outcomes := PipelineOutcomes(stages, true, forks, pipesAvailable);
      var r := PipelineTableEffect(t, outcomes, full);
      var k := IndexOfPid(t.slots, 0).value;
      && |r.slots| == |t.slots|
      && r.slots[k] == Job(forks[|stages| - 1], r.nextJobId - 1, Truncated(full), Running)
      && (forall j :: 0 <= j < |t.slots| && j != k ==> r.slots[j] == t.slots[j])
      && PipelineNotices(t, outcomes, full) != []
      && PipelineNotices(t, outcomes, full)[|PipelineNotices(t, outcomes, full)| - 1] ==
           Launched(r.nextJobId - 1, forks[|stages| - 1])
  {
    var outcomes := PipelineOutcomes(stages, true, forks, pipesAvailable);
    var m := |stages| - 1;
    var init := outcomes[..m];
    var last := outcomes[m];
    EarlierStagesInForeground(t, stages, forks, pipesAvailable);
    ForegroundStagesLeaveSlots(t, init, full);
    var mid := PipelineTableEffect(t, init, full);
    assert outcomes == init + [last];
    EffectSnoc(t, init, last, full);
    NoticesSnoc(t, init, last, full);
    assert last == PlannedOutcome(stages, true, forks, m);
    assert last.spawn.pid == forks[m] && last.spawn.background;
    AddFillsLowestFreeSlot(mid, last.spawn.pid, full, true, IndexOfPid(t.slots, 0).value);
  }

  /** On a line whose stages all run, every stage before the last is spawned in the foreground with a fresh pid. */
  lemma EarlierStagesInForeground(t: Table, stages: seq<string>, forks: seq<int>, pipesAvailable: nat)
    requires |forks| == |stages| && FreshForks(t, forks) && stages != []
    requires |PipelineOutcomes(stages, true, forks, pipesAvailable)| == |stages|
    ensures var init := PipelineOutcomes(stages, true, forks, pipesAvailable)[..|stages| - 1];
      forall i :: 0 <= i < |init| && init[i].Spawned? ==>
        !init[i].spawn.background && init[i].spawn.pid > 0 && IndexOfPid(t.slots, init[i].spawn.pid).None?
  {
    var outcomes := PipelineOutcomes(stages, true, forks, pipesAvailable);
    var init := outcomes[..|stages| - 1];
    forall i | 0 <= i < |init| && init[i].Spawned?
      ensures !init[i].spawn.background && init[i].spawn.pid > 0 && IndexOfPid(t.slots, init[i].spawn.pid).None?
    {
      assert init[i] == PlannedOutcome(stages, true, forks, i);
    }
  }

  /**
   * The only messages a pipeline prints are "Job list full" and, for a `&` line, the launch
   * notice of the last stage's process; there is at most one message per stage.
   */
  lemma PipelineNoticesSpec(t: Table, stages: seq<string>, full: string, background: bool, forks: seq<int>, pipesAvailable: nat)
    requires |forks| == |stages|
    ensures var n := PipelineNotices(t, PipelineOutcomes(stages, background, forks, pipesAvailable), full);
      && |n| <= StagesRun(|stages|, pipesAvailable)
      && forall k :: 0 <= k < |n| ==>
           n[k] == ListFull || (background && n[k].Launched? && n[k].pid == forks[|stages| - 1])
  {
    OnlyLastStageInBackground(stages, background, forks, pipesAvailable);
    NoticesOfOutcomes(t, PipelineOutcomes(stages, background, forks, pipesAvailable), full, background,
                      if forks == [] then 0 else forks[|forks| - 1]);
  }

  lemma {:induction false} NoticesOfOutcomes(t: Table, outcomes: seq<StageOutcome>, full: string, background: bool, lastPid: int)
    requires forall i :: 0 <= i < |outcomes| && outcomes[i].Spawned? && outcomes[i].spawn.background ==>
      background && outcomes[i].spawn.pid == lastPid
    ensures var n := PipelineNotices(t, outcomes, full);
      && |n| <= |outcomes|
      && forall k :: 0 <= k < |n| ==> n[k] == ListFull || (background && n[k].Launched? && n[k].pid == lastPid)
    decreases |outcomes|
  {
    if outcomes != [] {
      var init := outcomes[..|outcomes| - 1];
      assert forall i :: 0 <= i < |init| ==> init[i] == outcomes[i];
      NoticesOfOutcomes(t, init, full, background, lastPid);
    }
  }

  lemma EntriesOfOutcomes(t: Table, outcomes: seq<StageOutcome>, full: string, background: bool, forks: seq<int>)
    requires TableInvariant(t) && |outcomes| <= |forks| && FreshForks(t, forks)
    requires forall i :: 0 <= i < |outcomes| && outcomes[i].Spawned? ==>
      outcomes[i].spawn.pid == forks[i] >= 0 &&
      (outcomes[i].spawn.background <==> background && i == |forks| - 1)
    ensures var r := PipelineTableEffect(t, outcomes, full);
      && |r.slots| == |t.slots|
      && (!background ==> r.slots == t.slots)
      && (forall k :: 0 <= k < |t.slots| && r.slots[k] != t.slots[k] ==>
            r.slots[k].pid == forks[|forks| - 1] && r.slots[k].status == Running)
  {
    if outcomes != [] {
      var init := outcomes[..|outcomes| - 1];
      assert forall i :: 0 <= i < |init| ==> init[i] == outcomes[i];
      ForegroundStagesLeaveSlots(t, init, full);
      var last := outcomes[|outcomes| - 1];
      assert last.Spawned? ==> last.spawn.pid == forks[|outcomes| - 1] > 0;
      LastStageEntry(PipelineTableEffect(t, init, full), last, full, forks[|forks| - 1]);
    }
  }

  /**
   * The table effect of the stage the loop runs last: a foreground stage leaves the slots as
   * they were, and a background one only fills a free slot with its own pid, as Running; when
   * there is a free slot, it fills the lowest one with its pid, the next job number and the line.
   */
  lemma LastStageEntry(t: Table, o: StageOutcome, full: string, lastPid: int)
    requires TableInvariant(t)
    requires o.Spawned? ==> o.spawn.pid > 0 && IndexOfPid(t.slots, o.spawn.pid).None?
    requires o.Spawned? && o.spawn.background ==> o.spawn.pid == lastPid
    ensures var r := StageTableEffect(t, o, full);
      && |r.slots| == |t.slots|
      && (!(o.Spawned? && o.spawn.background) ==> r.slots == t.slots)
      && (forall k :: 0 <= k < |t.slots| && r.slots[k] != t.slots[k] ==>
            r.slots[k].pid == lastPid && r.slots[k].status == Running)
    ensures o.Spawned? && o.spawn.background && IndexOfPid(t.slots, 0).Some? ==>
      StageTableEffect(t, o, full).slots[IndexOfPid(t.slots, 0).value] ==
        Job(o.spawn.pid, t.nextJobId, Truncated(full), Running)
  {
    if o.Spawned? {
      var pid := o.spawn.pid;
      if o.spawn.background {
        match IndexOfPid(t.slots, 0)
        case None =>
        case Some(k) => AddFillsLowestFreeSlot(t, pid, full, true, k);
      } else {
        ForegroundStageLeavesNoEntry(t, pid, full);
      }
    }
  }
}
