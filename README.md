# A verified model of a mini shell's core

`shell.c` is a small interactive Unix shell. It reads a line and strips a trailing `&` (the
background marker). It cuts the line into at most ten stages at `|`, trims each stage, and looks
at the first word of the first stage: `exit`, `cd`, `jobs` and `fg` are builtins. Anything else
runs as a pipeline. Each stage is tokenised on blanks and newlines, the redirection operators
`<`, `>` and `>>` are taken out, the stage is forked, and the child's standard input and output
are set to the redirected file, the neighbouring pipe or the terminal. The parent records every
child in a fixed table of ten job slots. A foreground stage is waited for and its slot is freed
at once. A background stage stays in the table until the `SIGCHLD` handler reaps it. A stopped
child is marked Stopped. `jobs` lists the occupied slots and `fg` resumes a job by number.

The project models this core in six Dafny modules:

- `Wrappers`: the `Option` type.
- `Text`: `strtok` as a function (`Split`) with its algebra. It also covers the trimming loop
  (`TrimPiece`), the background-marker strip (`StripBackground`), the pipe split
  (`SplitPipeline`), and the read loop's newline removal and empty-line skip (`AcceptLine`).
- `Redirection`: `parse_redirection`. `Scan` is a recursive specification over the token list,
  and `ParseRedirection` is the loop proved equal to it.
- `Jobs`: the job table. `JobTable` is a class over an `array<Job>` of `MaxJobs` slots plus the
  next job number. Its methods (`AddJob`, `RemoveJobByPid`, `FindJobById`, `PrintJobs`,
  `ReapChildren`, ...) are proved against value-level functions on a `Table` (`Register`,
  `Retire`, `IndexOfId`, `Listing`, `ReapAll`, ...). The table invariant and the promised
  properties are lemmas about those functions.
- `Pipeline`: `execute_single_command` and the stage loop. This covers the pipe wiring, the
  child's standard streams, and the table effect of each stage.
- `Dispatch`: builtin recognition and `execute_pipeline_or_builtin` on one accepted line.

System calls are inputs to the model. The result of each `fork` is a parameter (`forks`). The
number of `pipe` calls that succeed is a parameter (`pipesAvailable`). The `waitpid` results the
`SIGCHLD` handler collects are a sequence of `ChildEvent`s, and `atoi` is a function parameter.
The effect of `chdir`, `kill` and the exit is returned as a `LineResult` value, and messages on
standard error are returned as `Notice` / `ListLine` values.

The model keeps these behaviours of shell.c:

- Every foreground stage, including the earlier stages of a background pipeline, is entered in
  the table as Done and removed after a synchronous `waitpid` (shell.c:278, 285-296). Only the
  last stage of a background line stays in the table.
- Redirection operators must be separate words: `>file` is an ordinary argument (shell.c:182-198).
- `jobs` prints "Running" for RUNNING and "Stopped" for everything else, so a Done entry would be
  listed as Stopped (shell.c:93).
- The trailing trim of a stage stops one character after the leading blanks, so a stage whose
  only non-blank character is a newline keeps that newline (shell.c:326).

## Model

| member | source | states |
|---|---|---|
| Text.Split | shell.c:320-330 | every piece `strtok` returns is non-empty |
| Text.SplitRun | shell.c:320-330 | a non-empty run without delimiters comes back whole as one piece, so together with `SplitAtDelimiter` the pieces are exactly the maximal runs between delimiters |
| Text.SplitPiecesHaveNoDelimiter | shell.c:320-330 | no piece `strtok` returns contains a delimiter |
| Text.SplitKeepsNonDelimiters | shell.c:320-330 | concatenating the pieces gives exactly the non-delimiter characters of the input, in order |
| Text.SplitEmptyIff | shell.c:320-321 | `strtok` yields no piece exactly when the input consists only of delimiters |
| Text.SplitAtDelimiter | shell.c:320-330 | splitting `a + [d] + b` at a delimiter `d` gives the pieces of `a` followed by the pieces of `b` |
| Text.TrimShape | shell.c:323-329 | a trimmed stage is a contiguous slice starting after the leading blanks; everything cut from the end is whitespace; it starts with a non-blank, ends with a non-whitespace when longer than one character, and is empty exactly when the piece is all blanks |
| Text.TrimPiece | shell.c:324-329 | the two trimming loops compute `Trim` of the piece |
| Text.LeadingBlanksSpec | shell.c:324 | `strspn` over blanks: every character before the count is a space or tab, and the one at the count is not |
| Text.TrimEndSpec | shell.c:325-326 | the backward scan drops only spaces, tabs and newlines, and stops at a character that is none of them or just after the start |
| Text.DropTrailingBlanks | shell.c:313-315 | the result is a prefix, everything removed is blank, and it ends in a non-blank or is empty |
| Text.StripBackground | shell.c:307-316 | the loop sets the background flag exactly when the line ends in `&`, and computes `BackgroundSplit` |
| Text.BackgroundLineShape | shell.c:309-316 | a line without `&` is unchanged; otherwise the rest is a proper prefix whose cut-off part is blanks before the `&`, and which ends in a non-blank |
| Text.Stages | shell.c:322 | never more than `MaxCommands` stages |
| Text.SplitPipeline | shell.c:318-331 | the stage loop returns `Stages(line)` |
| Text.StagesSpec | shell.c:318-333 | the stage count is the piece count capped at ten; stage `k` is the trimmed piece `k`; there is no stage exactly when the line is all `\|` |
| Text.AcceptLine | shell.c:453-459 | a trailing newline is always removed and any other line is kept unchanged; a line is skipped exactly when it is empty or a lone newline |
| Redirection.ParseRedirection | shell.c:169-203 | the token loop computes the recursive specification `ParseStage` |
| Redirection.ScanAppend | shell.c:181-200 | parsing is left to right: a successful prefix hands its state to the rest of the tokens |
| Redirection.LaterRedirectionWins | shell.c:182-195 | a later `<` replaces the input file; a later `>`/`>>` replaces the output file and sets append exactly for `>>` |
| Redirection.MissingFileName | shell.c:182-195 | an operator with no token after it is the missing-input-file or missing-output-file error |
| Redirection.Capped | shell.c:196 | at most `MaxArgs - 1` arguments are kept |
| Redirection.ArgumentsInOrder | shell.c:196-201 | the arguments are the non-operator, non-file words in order, cut at 63 |
| Redirection.PlainCommand | shell.c:173-201 | a command without operators parses to its words, with no redirection and no append |
| Jobs.InitialTable | shell.c:28-29 | the zeroed table keeps the invariant and has every slot free |
| Jobs.IndexOfPid | shell.c:64-69 | the first slot holding the pid, or none exactly when no slot holds it |
| Jobs.IndexOfId | shell.c:77-84 | the first occupied slot with the job number, or none exactly when there is none |
| Jobs.Truncated | shell.c:47-48 | the stored command is the command's prefix of length `min(length, 1023)` |
| Jobs.AddFillsLowestFreeSlot | shell.c:41-53 | `add_job` fills the lowest free slot with the pid, the current job number and the truncated command; the status is Running exactly for background (Done otherwise); the number advances by one; other slots are unchanged; the `[id] pid` notice appears only for background |
| Jobs.AddToFullTable | shell.c:43-56 | a full table is unchanged and "Job list full" is reported |
| Jobs.AddKeepsInvariant | shell.c:41-53 | adding a new positive pid keeps pids and job numbers distinct and below the next number |
| Jobs.RemoveClearsFirstMatch | shell.c:63-70 | removal zeroes exactly the first slot holding the pid, and leaves the table alone when none does |
| Jobs.RemoveRetiresPid | shell.c:63-70 | after removal no slot holds the pid |
| Jobs.RemoveIdempotent | shell.c:63-70 | removing the same pid twice is the same as removing it once |
| Jobs.RemoveKeepsInvariant | shell.c:63-70 | removal keeps the table invariant |
| Jobs.ClearedSlotNeverFound | shell.c:77-84 | once a job is removed, `find_job_by_id` no longer finds its number |
| Jobs.ExitRetiresJob | shell.c:115-123 | an exited or signalled child's job is removed and no slot holds its pid |
| Jobs.StopKeepsJob | shell.c:124-132 | a stopped child's job keeps its slot, number and command, becomes Stopped, and the rest of the table is unchanged |
| Jobs.UnknownPidIgnored | shell.c:114-133 | an event for a pid not in the table changes nothing and prints nothing |
| Jobs.ApplyEventKeepsInvariant | shell.c:114-133 | handling one reaped child keeps the invariant and the next job number |
| Jobs.ReapKeepsInvariant | shell.c:114-134 | reaping any sequence of children keeps the invariant and the next job number |
| Jobs.ReapInOrder | shell.c:114-134 | reaping events in two batches gives the same table and the same notices as reaping them in one |
| Jobs.LiveJobsSpec | shell.c:91-92 | every live job has a positive pid and is one of the slots, and every slot with a positive pid is among the live jobs |
| Jobs.OccupiedSpec | shell.c:91-92 | the occupied slot indices below `n` are strictly increasing, each holds a positive pid, and none is missed |
| Jobs.LiveJobsInSlotOrder | shell.c:91-96 | the live jobs are the occupied slots taken once each, in slot order: the `i`-th live job is the slot at the `i`-th occupied index |
| Jobs.ListingSpec | shell.c:89-100 | "No background jobs" is printed exactly when no slot is occupied; otherwise there is one line per occupied slot, in slot order, with the slot's number, state label and command |
| Jobs.JobTable.constructor | shell.c:28-29 | the table starts zeroed with job number 1 |
| Jobs.JobTable.AddJob | shell.c:41-57 | the slot loop performs `Register` and reports `AddNotice` |
| Jobs.JobTable.RemoveJobByPid | shell.c:63-70 | the slot loop performs `Retire` |
| Jobs.JobTable.FindJobById | shell.c:77-84 | the slot loop returns `IndexOfId` |
| Jobs.JobTable.PrintJobs | shell.c:89-101 | the listing loop produces `Listing` |
| Jobs.JobTable.LivePids | shell.c:344-348 | the exit loop signals the pids of the occupied slots, in slot order |
| Jobs.JobTable.ReapChildren | shell.c:114-134 | the handler loop performs `ReapAll` and reports `ReapNotices` |
| Jobs.JobTable.ReapNext | shell.c:114-133 | one more pass of the handler loop extends the replayed prefix of events by one, in table and messages |
| Jobs.JobTable.HandleEvent | shell.c:115-133 | one reaped child: `ApplyEvent` with the message `EventNotice` |
| Jobs.JobTable.ResumeJob | shell.c:369-395 | `fg` with a known number returns that job and removes it from the table; otherwise the table is unchanged |
| Pipeline.WiringSpec | shell.c:409-430 | pipe `j` is written only by stage `j` and read only by stage `j + 1`; only the first stage reads the terminal and only the last writes it |
| Pipeline.StageSetup | shell.c:218-268 | a stage spawns exactly when it parses and has arguments; a redirection overrides the inherited descriptor; output is opened in append mode exactly for `>>` |
| Pipeline.ForegroundStageLeavesNoEntry | shell.c:276-296 | a waited-for stage leaves the slots as they were and keeps the invariant, while still using a job number when a slot was free |
| Pipeline.ExecuteSingleCommand | shell.c:213-298 | the parent's side of one stage: the outcome is `StageOutcomeOf`, the table gets `StageTableEffect`, and the notice is `add_job`'s |
| Pipeline.StagesRun | shell.c:413-417 | a failed `pipe` stops the loop, so never more stages run than exist |
| Pipeline.PipelineOutcomes | shell.c:409-430 | one outcome per stage the loop reaches |
| Pipeline.ExecutePipeline | shell.c:404-432 | the stage loop produces `PipelineOutcomes`, leaves the table at `PipelineTableEffect`, and prints `PipelineNotices`, the `add_job` messages of the spawned stages in order |
| Pipeline.PipelineNoticesSpec | shell.c:404-432 | a pipeline prints at most one message per stage; each is "Job list full" or, on a `&` line only, the launch notice of the last stage's pid |
| Pipeline.RunStage | shell.c:410-429 | one pass of the stage loop appends the planned stage's outcome and its `add_job` message to those of the earlier stages, leaves the table at their combined effect, and keeps the pids of later stages absent from the table, even one reused from a stage already waited for |
| Pipeline.OnlyLastStageInBackground | shell.c:422 | stage `i` runs as the `i`-th fork, and only the last stage of a `&` line runs in the background |
| Pipeline.ForegroundStagesLeaveSlots | shell.c:285-296 | any number of foreground stages leave the slots unchanged and keep the invariant |
| Pipeline.LastStageEntry | shell.c:276-296 | the stage run last leaves the slots alone when in the foreground; in the background it changes only a slot it fills with its own pid as Running, and with a free slot it fills the lowest one with its pid, the next job number and the line |
| Pipeline.PipelineEntries | shell.c:409-430 | a foreground pipeline leaves the slots unchanged; a background one changes at most the slot of the last stage's pid, which becomes Running |
| Pipeline.BackgroundJobRegistered | shell.c:409-430 | on a `&` line whose stages all run, whose last stage is spawned and whose table has a free slot, that stage takes the lowest free slot as a Running job with its pid, the line as its command and the job number handed out last; every other slot is as before; and the last message printed is its `[id] pid` launch notice |
| Dispatch.ClassifySpec | shell.c:335-396 | `exit` selects the exit, `cd` the directory change, `jobs` the listing and `fg` the resume, by the whole first word; `cd` and `fg` take the second word, if there is one, as their argument; any other word is external |
| Dispatch.InterpretSpec | shell.c:306-402 | a line does nothing exactly when it is all `\|` after the strip; it runs a builtin exactly when the first word of the first stage names one, and that builtin is `Classify` of the first stage; otherwise 1 to 10 stages run, in the background exactly when the line ends in `&` |
| Dispatch.ExecutePipelineOrBuiltin | shell.c:306-433 | each builtin's result and table effect (exit signals the live pids, `jobs` lists, `fg` retires the job or reports usage or no such job), and a pipeline's outcomes, table effect and `add_job` messages; the return value is 1 exactly when every stage was reached |

## Left out

- The child's side after its descriptors are chosen is not modelled: the `open`/`dup2`/`close` calls, `execvp`, and the "Command not found" or `open` failure exits. The model records which file, pipe or terminal each standard stream goes to.
- Process creation, pipes, `waitpid`, `kill`, `chdir`, `getenv` and `exit` are not performed. Their results are parameters and their effects are returned values, as described above.
- `SIGCHLD` delivery is asynchronous in the program. The model runs the handler as an explicit call on a given event sequence. The `children_pending` flag and races between the handler and the foreground `waitpid` are not modelled.
- `init_signals` (shell.c:141-156) is not modelled: it makes the shell ignore `SIGINT` and installs the `SIGCHLD` handler. The child's reset of `SIGINT` (shell.c:235) is not modelled either.
- The prompt/read loop and `main` (shell.c:438-488) are modelled only as far as `AcceptLine`. A line longer than 1023 characters, which `fgets` hands over in pieces, is not modelled.
- Descriptor lifetime is not modelled. This includes the parent's closing of pipe ends, and the second `close` of a write end at shell.c:427.
- Exact message text and formatting on standard error are not modelled. Messages are the `Notice`, `ListLine` and `LineResult` values.
- `strtok`'s in-place writes into the line buffer are not modelled. Splitting and trimming produce new strings.
- Jobs.JobTable.AddJob: `next_job_id` is an unbounded integer, so the `int` overflow after 2^31 - 1 jobs is not modelled.
- Jobs.JobTable.AddJob: requires a positive pid not already in the table, and `ExecutePipeline` requires the same of every `fork` result (`FreshForks`). The program does not guarantee this, because of the race below.
- The race between `fork` and `add_job` is not modelled. `SIGCHLD` is not blocked between `fork` (shell.c:226) and `add_job` (shell.c:278). A background child that exits at once can be reaped by the handler before its slot exists, so shell.c:117-123 finds nothing. `add_job` then records the dead pid as Running, the entry is never reaped, and a later `fork` can return the same pid, which leaves two slots with one pid.
- Dispatch.ExecutePipelineOrBuiltin: `atoi` is a parameter, so its treatment of non-numeric job arguments is not modelled.
