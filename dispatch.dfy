/**
 * `execute_pipeline_or_builtin`: one accepted line is stripped of its background marker and
 * cut into stages; the first word of the first stage selects a builtin (`exit`, `cd`, `jobs`,
 * `fg`), and anything else runs as a pipeline. Builtins ignore the other stages and any
 * redirection. `chdir`, `getenv`, `kill`, `waitpid` and `atoi` are outside the model: `atoi`
 * is a parameter, the others are reported as the action the shell takes.
 */
module Dispatch {
  import opened Wrappers
  import opened Text
  import opened Jobs
  import opened Pipeline

  /** What the first word of the first stage selects. */
  datatype Builtin =
    | ExitShell
    | ChangeDirectory(path: Option<string>)  // None: the HOME directory
    | ListJobs
    | Foreground(jobArg: Option<string>)     // None: the usage message
    | External

  /** The builtin named by the first whitespace-separated word of `stage`, with its argument word. */
  function Classify(stage: string): Builtin
  {
    var words := Split(stage, Whitespace);
    if words == [] then External
    else
      var arg := if |words| > 1 then Some(words[1]) else None;
      if words[0] == "exit" then ExitShell
      else if words[0] == "cd" then ChangeDirectory(arg)
      else if words[0] == "jobs" then ListJobs
      else if words[0] == "fg" then Foreground(arg)
      else External
  }

  /**
   * A builtin is recognised by its whole first word, case-sensitively; `cd` and `fg` take the
   * second word as their argument, if there is one. Everything else is external.
   */
  lemma ClassifySpec(stage: string)
    ensures var words := Split(stage, Whitespace);
      var arg := if |words| > 1 then Some(words[1]) else None;
      && (Classify(stage) == External <==> words == [] || words[0] !in {"exit", "cd", "jobs", "fg"})
      && (words != [] && words[0] == "exit" ==> Classify(stage) == ExitShell)
      && (words != [] && words[0] == "cd" ==> Classify(stage) == ChangeDirectory(arg))
      && (words != [] && words[0] == "jobs" ==> Classify(stage) == ListJobs)
      && (words != [] && words[0] == "fg" ==> Classify(stage) == Foreground(arg))
  {
  }

  /** What a line comes to before anything runs. */
  datatype LineAction =
    | NoCommand                                          // no stage at all
    | RunBuiltin(builtin: Builtin)
    | RunPipeline(stages: seq<string>, background: bool)

  /** The decision `execute_pipeline_or_builtin` takes for a non-empty line. */
  function Interpret(line: string): LineAction
    requires line != []
  {
    var (rest, background) := BackgroundSplit(line);
    var stages := Stages(rest);
    if stages == [] then NoCommand
    else if Classify(stages[0]) != External then RunBuiltin(Classify(stages[0]))
    else RunPipeline(stages, background)
  }

  /**
   * A line does nothing exactly when, once the marker is stripped, it holds only `|` characters.
   * A builtin is chosen by the first word of the first stage alone (so `jobs | wc` lists the
   * jobs); any other line runs its 1 to `MaxCommands` stages, in the background exactly when
   * the line ends in `&`.
   */
  lemma InterpretSpec(line: string)
    requires line != []
    ensures var rest := BackgroundSplit(line).0;
      && (Interpret(line) == NoCommand <==> forall k :: 0 <= k < |rest| ==> rest[k] == '|')
      && (Interpret(line).RunBuiltin? <==>
            Stages(rest) != [] &&
            Split(Stages(rest)[0], Whitespace) != [] &&
            Split(Stages(rest)[0], Whitespace)[0] in {"exit", "cd", "jobs", "fg"})
      && (Interpret(line).RunBuiltin? ==> Interpret(line) == RunBuiltin(Classify(Stages(rest)[0])))
      && (Interpret(line).RunPipeline? ==>
            && Interpret(line).stages == Stages(rest)
            && 1 <= |Interpret(line).stages| <= MaxCommands
            && (Interpret(line).background <==> line[|line| - 1] == '&'))
  {
    var rest := BackgroundSplit(line).0;
    StagesSpec(rest);
    if Stages(rest) != [] {
      ClassifySpec(Stages(rest)[0]);
    }
  }

  /** What the shell did with a line. */
  datatype LineResult =
    | Ignored                                          // no stage: returns 0
    | Exiting(signalled: seq<int>)                     // SIGTERM to these pids, then exit
    | ChangingDirectory(path: Option<string>)          // `chdir` to the path, or to HOME
    | Listed(lines: seq<ListLine>)
    | FgUsage                                          // "fg: usage: fg <job_id>"
    | NoSuchJob(arg: string)                           // "fg: No such job: arg"
    | Resumed(job: Job)                                // SIGCONT, wait, retire
    | Ran(outcomes: seq<StageOutcome>, notices: seq<Notice>)

  /**
   * `execute_pipeline_or_builtin` for a line the read loop accepted. `forks` holds the result
   * `fork` would give each stage and `pipesAvailable` the number of `pipe` calls that succeed.
   */
  method ExecutePipelineOrBuiltin(table: JobTable, line: string, full: string, forks: seq<int>,
                                  pipesAvailable: nat, atoi: string -> int)
      returns (handled: bool, result: LineResult)
    requires line != [] && table.Valid()
    requires |forks| == MaxCommands && FreshForks(table.State(), forks)
    modifies table, table.slots
    ensures table.Valid() && table.slots == old(table.slots)
    ensures match Interpret(line)
      case NoCommand =>
        !handled && result == Ignored && table.State() == old(table.State())
      case RunBuiltin(b) =>
        handled &&
        (match b
        case ExitShell =>
          result == Exiting(ExitTargets(old(table.slots[..]))) && table.State() == old(table.State())
        case ChangeDirectory(path) =>
          result == ChangingDirectory(path) && table.State() == old(table.State())
        case ListJobs =>
          result == Listed(Listing(old(table.slots[..]))) && table.State() == old(table.State())
        case Foreground(None) =>
          result == FgUsage && table.State() == old(table.State())
        case Foreground(Some(arg)) =>
          (match IndexOfId(old(table.slots[..]), atoi(arg))
           case None => result == NoSuchJob(arg) && table.State() == old(table.State())
           case Some(k) =>
             result == Resumed(old(table.slots[k])) &&
             table.State() == Retire(old(table.State()), old(table.slots[k]).pid))
        case External => false)
      case RunPipeline(stages, background) =>
        && result.Ran?
        && result.outcomes == PipelineOutcomes(stages, background, forks[..|stages|], pipesAvailable)
        && table.State() == PipelineTableEffect(old(table.State()), result.outcomes, full)
        && result.notices == PipelineNotices(old(table.State()), result.outcomes, full)
        && (handled <==> StagesRun(|stages|, pipesAvailable) == |stages|)
  {
    var rest, background := StripBackground(line);
    var stages := SplitPipeline(rest);
    if |stages| == 0 {
      return false, Ignored;
    }
    var builtin := Classify(stages[0]);
    match builtin {
      case ExitShell =>
        var pids := table.LivePids();
        return true, Exiting(pids);
      case ChangeDirectory(path) =>
        return true, ChangingDirectory(path);
      case ListJobs =>
        var lines := table.PrintJobs();
        return true, Listed(lines);
      case Foreground(arg) =>
        if arg.None? {
          return true, FgUsage;
        }
        var resumed := table.ResumeJob(atoi(arg.value));
        if resumed.None? {
          return true, NoSuchJob(arg.value);
        }
        return true, Resumed(resumed.value);
      case External =>
    }
    var outcomes, notices := ExecutePipeline(table, stages, full, background, forks[..|stages|], pipesAvailable);
    handled := StagesRun(|stages|, pipesAvailable) == |stages|;
    result := Ran(outcomes, notices);
  }
}
