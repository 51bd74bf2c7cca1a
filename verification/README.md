# Job control of a minimal Python shell, in Dafny

This project models the bookkeeping core of `psh`, a small interactive shell
written in Python (`shell.py`). The shell launches external commands as child
processes and keeps them in a job table. It remembers one foreground process
and reacts to three terminal signals: SIGINT, SIGCHLD and SIGTSTP. The
built-ins `fg` and `bg` resume a job by number. After every command a reap pass
drops the jobs whose process has exited.

All of this is modelled as pure functions over an immutable state with three
fields:

- `jobs`: the job table, in launch order;
- `foreground`: the foreground slot, an optional pid;
- `counter`: the class-level job-number counter `Job.next_job_number`.

Everything the operating system decides is a parameter:

- the pid `fork` returns;
- the signal whose handler ends a `signal.pause()`;
- the `waitpid` status the reap pass sees for each job;
- whether a path passes `os.access(path, X_OK)`.

Signals the shell sends (`os.kill`) and lines it prints are returned as a list
of `Effect`s. They do not change the state.

Modules, leaf first:

- `Optional` (optional.dfy): `Option`, standing for Python's `None`.
- `Text` (text.dfy): Python's `str(int)`, base-10 `int(str)`, and `split`/`join`
  on one separator character, with their round trips.
- `Jobs` (jobs.dfy): `Job`, the numbering invariant `Numbered`, `str(job)`, and
  the reap pass. The reap pass is given both as written (method `Reap`, two
  loops) and as the filters `Done`/`Survivors`.
- `Signals` (signals.dfy): the state, the three handlers and `wait_for_process`.
- `Launcher` (launcher.dfy): the child-side executable resolution, and the
  parent-side registration followed by the wait.
- `Loop` (loop.dfy): `fg`/`bg`, one pass of the main loop (`Step`), and runs of
  passes with signals arriving between them (`Run`).

Four behaviours of the code are easy to misread, and the model keeps each
as written:

- The SIGTSTP handler empties the slot before it scans the table
  (shell.py:50-53). The scan looks for a job whose pid equals the now-empty
  slot, so no job's status ever becomes `False`. `Signals.OnStop` keeps this
  behaviour and `Signals.StoppedJobStaysRunning` states it.
- `fg`/`bg` with a number no job has does nothing and prints nothing
  (shell.py:90-95, shell.py:101-106). `Loop.JobControl` does the same.
- When no candidate is executable, the child keeps the current-directory path
  and hands it to `execve` (shell.py:113-119). `Launcher.Resolution` returns
  that path.
- The reap polls with `waitpid(pid, WNOHANG)` and no `WUNTRACED`
  (shell.py:152). A child that is still running or stopped reports status 0,
  which `WIFEXITED` accepts, so the reap drops that job with a `done:` line.
  `Jobs.Poll` states this, and `Loop.SleepStopResume` follows it through a
  session.

## Model

| member | source | states |
|---|---|---|
| Jobs.AppendNewJob | shell.py:8-15 | appending a job that takes the counter's value keeps job numbers strictly increasing in table order and below the counter, which has moved on by one |
| Jobs.JobsText | shell.py:85-86 | the `jobs` listing is a bracketed list that is `[]` exactly when the table is empty, and `[<str(job)>]` for a single job |
| Jobs.JobsTextAppend | shell.py:17-21 | appending a job to a non-empty table adds `, ` and the job's `str` before the closing bracket, so the listing is each job's `str` in table order, separated by `, ` |
| Jobs.JobTextFields | shell.py:17-21 | `str(job)` splits on spaces back into its fields: the first parses to the pid, the second to the job number, the last is the status word, and the fields between are exactly the command split on spaces |
| Jobs.Poll | shell.py:152-155 | only a child killed by a signal is skipped as signaled; every other child, including one still running or stopped, counts as exited |
| Jobs.Reap | shell.py:150-158 | the two loops of the reap pass compute exactly the removed jobs `Done` and the kept jobs `Survivors` |
| Jobs.DoneMembers | shell.py:150-157 | a job is reported done exactly when it is in the table and its status is exited without being signaled |
| Jobs.SurvivorsCount | shell.py:150-158 | after the reap, a job whose status is exited (and not signaled) is absent; any other job appears exactly as often as before |
| Jobs.SurvivorsAppend | shell.py:158 | the reap is an order-preserving filter: it acts on the two halves of a table independently |
| Jobs.SurvivorsNumbered | shell.py:158 | removing jobs keeps the job numbers strictly increasing and below the unchanged counter |
| Signals.OnInterrupt | shell.py:34-38 | SIGINT never changes the table, slot or counter; it forwards SIGINT to the foreground pid when there is one, and otherwise does nothing |
| Signals.OnChildChange | shell.py:40-44 | SIGCHLD empties the slot when it is set, does nothing when it is empty, and never touches the table or counter |
| Signals.MarkStopped | shell.py:51-53 | the scan keeps every pid and job number, and with an empty slot changes no job |
| Signals.OnStop | shell.py:46-56 | SIGTSTP with a foreground pid forwards SIGTSTP and empties the slot, leaving every job's status as it was; with none it only prints `no foreground` |
| Signals.StoppedJobStaysRunning | shell.py:46-56 | a running foreground job that gets SIGTSTP is still marked running afterwards, though the stop is forwarded and the slot emptied |
| Signals.Handle | shell.py:30-32 | whichever handler runs, the table and counter are unchanged; every handler but SIGINT leaves the slot empty |
| Signals.Wait | shell.py:58-60 | after the wait only the slot has changed, and it is empty, whichever signal ended the pause |
| Text.ParseShowInt | shell.py:89 | `int(str(n)) == n` for every integer whose text is within the interpreter's digit limit; this covers every job number the shell prints, which `fg` therefore accepts back |
| Text.ParseNeedsDigit | shell.py:89 | `int()` raises ValueError on any argument without a decimal digit |
| Text.JoinSplit | shell.py:115 | joining the fields of `PATH.split(":")` with `:` gives back `PATH` |
| Text.SplitJoin | shell.py:115 | splitting a `:`-join of colon-free directories gives back exactly those directories in order |
| Launcher.PathJoinShape | shell.py:113 | the joined path ends with the name; an absolute name is returned as is, otherwise the path starts with the directory |
| Launcher.FirstExecutable | shell.py:115-118 | the result is the first search directory whose candidate is executable, or none when no directory has one |
| Launcher.Resolution | shell.py:113-119 | an executable `cwd/name` wins; otherwise the first executable `p/name` in search order; with no executable candidate the result stays `cwd/name` |
| Launcher.Resolve | shell.py:113-119 | the child's loop over `PATH.split(":")`, which stops at the first match, computes `Resolution` |
| Launcher.SearchPathDirs | shell.py:29 | the shell's `PATH`, the colon-join of `/usr/local/bin`, `/usr/bin`, `/bin`, `/usr/sbin`, `/sbin`, splits back into exactly those directories in that order |
| Launcher.ResolveTwoDirs | shell.py:113-119 | with `PATH=a:b` and no executable `cwd/name`, `name` resolves to `a/name` if that is executable, else to `b/name` if that is (so `ls` with `PATH=/bin:/usr/bin` finds `/bin/ls` first) |
| Launcher.Register | shell.py:121-122 | the parent appends one running job with the new pid, the command line and the counter's value; the counter grows by one; the slot holds the pid; numbering is kept |
| Launcher.Launch | shell.py:120-123 | after registration and the wait, the old jobs are unchanged, exactly one job has been added at the end, the counter has grown by one and the slot is empty |
| Loop.ResumeFrom | shell.py:90-95 | from index `i` on, each job with number `n` is marked running and nothing else changes; the slot is empty after any match; with no match the state and output are unchanged |
| Loop.JobControl | shell.py:87-108 | a non-integer argument only prints `fg/bg requires integer argument`; a number no job has changes nothing; otherwise jobs with that number are running, all others and the counter unchanged, and the slot is empty |
| Loop.ResumeOneJob | shell.py:87-106 | in a numbered table, `fg` with a job's number resumes that job and leaves every other job unchanged |
| Loop.Command | shell.py:72-123 | only launching an external command advances the counter; from an empty slot, no command leaves a foreground process behind; numbering is kept |
| Loop.DoneLines | shell.py:157 | one `done: <job>` line per reaped job, in table order |
| Loop.Step | shell.py:62-158 | `exit` ends the loop; an empty line changes nothing; any other pass leaves no exited job in the table, advances the counter only for a launch, keeps an empty slot empty and keeps numbering |
| Loop.LaunchPass | shell.py:120-158 | a launch pass leaves the old table plus the new job, minus exactly the exited ones, each survivor once per occurrence |
| Loop.Run | shell.py:62-158 | over any run of passes and signals the counter never decreases and numbering is kept; a slot that is empty at the start is empty after every run, whatever signals arrive between passes |
| Loop.Issued | shell.py:8-13 | the job numbers a run of passes and signals hands out are consecutive from the starting counter on, in the order the jobs are launched |
| Loop.NumbersNeverReused | shell.py:8-13 | no job number is handed out twice, and none equals the number of a job already in the table |
| Loop.SleepStopResume | shell.py:120-158 | launching `sleep 5` and stopping it forwards SIGTSTP, and the reap, which sees the stopped child as exited, prints `done:` for job 1 and leaves an empty table with the counter at 2; `fg 1` afterwards changes nothing |

## Left out

- Process creation and replacement: `fork`, `setpgid`, `execve`, and the child's
  failure when `execve` raises (shell.py:110-112, shell.py:119). These are
  operating-system effects. The fork's pid is a parameter and the child's
  failure is outside the model.
- Signal registration and delivery (shell.py:30-32, shell.py:59). Each handler
  is one atomic transition. A run interleaves them with main-loop passes only
  between passes. `pause` is taken to return after exactly one handler.
- The bits of the raw `waitpid` status (shell.py:152-155). The reap sees the
  answers of `WIFSIGNALED` and `WIFEXITED` as a parameter; `Jobs.Poll` gives
  the answers for each kind of child.
- The pipeline block (shell.py:126-148). It only wires file descriptors and
  runs `subprocess.run`, and it never touches the job table, the slot or the
  counter.
- Reading and echoing the line, `shlex` tokenising, and the bodies of `cd`,
  `ls` and `pwd` (shell.py:62-84). These are terminal and file-system I/O. The
  words of a line are a parameter, and these built-ins leave the three fields
  unchanged.
- `fg`/`bg`, and `cd`, without an argument raise an uncaught `IndexError`. `fg`
  and `bg` with a missing argument are excluded by `Loop.WellFormed`. `cd` has no
  state effect.
- `Text.ParseInt`: covers `int()` on ASCII input only. Non-ASCII decimal digits
  and non-ASCII whitespace, which Python also accepts, are not modelled.
- `Text.ParseInt`: does not model the interpreter's limit on the digits of an
  integer string (4300 by default). Beyond it `int()` raises `ValueError`, so
  `fg`/`bg` with a longer all-digit argument print the complaint, whereas the
  model parses the number and finds no job.
- `Text.ShowInt`: does not model the same limit. Beyond it `str(n)` raises, so
  `Text.ParseShowInt` claims the round trip only where the interpreter would
  not refuse it.
- `Launcher.Resolution`: `os.access` is the abstract predicate `isExecutable`.
  The file system behind it is not modelled.
- The mutable default arguments of `Shell.__init__` (shell.py:24). These matter
  only across several shells, and the model has one shell.
- `os.kill` failures (for example, a job that has already been reaped). These
  would raise in the shell. Each `Kill` is recorded as an effect and never
  fails.
- `waitpid` failures in the reap (shell.py:152). A job kept after a signaled
  status was reaped by that same call (shell.py:153-154). The next non-empty
  command polls its pid again, and `ChildProcessError` ends the shell. The
  model's probe always answers, so such a job stays in the table and is
  polled in every later pass.
