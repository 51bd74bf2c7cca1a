/** One pass of the shell's main loop: the `fg` / `bg` built-ins, the
    launch of an external command, and the reap that ends every pass; and
    runs of many passes with signals arriving between them. */
module Loop {
  import opened Optional
  import Text
  import opened Jobs
  import opened Signals
  import Launcher

  /** The body of the `fg` / `bg` loop from job index `i` on: every job
      numbered `n` is sent SIGCONT, marked running, made the foreground
      process and waited for. */
  function ResumeFrom(s: State, n: int, i: nat, wake: Event): (r: Reaction)
    requires i <= |s.jobs|
    ensures |r.state.jobs| == |s.jobs| && r.state.counter == s.counter
    ensures forall k :: 0 <= k < |s.jobs| ==>
      r.state.jobs[k] == if i <= k && s.jobs[k].number == n then s.jobs[k].(running := true) else s.jobs[k]
    ensures (exists k :: i <= k < |s.jobs| && s.jobs[k].number == n) ==> r.state.foreground == None
    ensures (forall k :: i <= k < |s.jobs| ==> s.jobs[k].number != n) ==> r == Reaction(s, [])
    decreases |s.jobs| - i
  {
    if i == |s.jobs| then Reaction(s, [])
    else if s.jobs[i].number == n then
      var j := s.jobs[i];
      var resumed := s.(jobs := s.jobs[i := j.(running := true)], foreground := Some(j.pid));
      var w := Wait(resumed, wake);
      var rest := ResumeFrom(w.state, n, i + 1, wake);
      Reaction(rest.state, [Kill(j.pid, SigCont)] + w.effects + rest.effects)
    else
      ResumeFrom(s, n, i + 1, wake)
  }

  /** `fg arg` or `bg arg` (`name` is which): a non-integer argument only
      prints a complaint; a number no job has changes nothing; otherwise the
      job with that number is running again and the slot is empty after
      the wait. No other job changes and the counter is untouched. */
  function JobControl(s: State, name: string, arg: string, wake: Event): (r: Reaction)
    ensures Text.ParseInt(arg).None? ==> r == Reaction(s, [Print(name + " requires integer argument")])
    ensures Text.ParseInt(arg).Some? && (forall k :: 0 <= k < |s.jobs| ==> s.jobs[k].number != Text.ParseInt(arg).value) ==>
      r == Reaction(s, [])
    ensures |r.state.jobs| == |s.jobs| && r.state.counter == s.counter
    ensures forall k :: 0 <= k < |s.jobs| ==>
      r.state.jobs[k] == if Text.ParseInt(arg) == Some(s.jobs[k].number) then s.jobs[k].(running := true) else s.jobs[k]
    ensures (exists k :: 0 <= k < |s.jobs| && Text.ParseInt(arg) == Some(s.jobs[k].number)) ==> r.state.foreground == None
    ensures Valid(s) ==> Valid(r.state)
  {
    match Text.ParseInt(arg)
    case None => Reaction(s, [Print(name + " requires integer argument")])
    case Some(n) =>
      var r := ResumeFrom(s, n, 0, wake);
      NumbersKept(s.jobs, r.state.jobs, s.counter);
      r
  }

  /** In a numbered table `fg` touches exactly the one job with the given
      number. */
  lemma ResumeOneJob(s: State, name: string, k: int, wake: Event)
    requires Valid(s) && 0 <= k < |s.jobs|
    ensures var r := JobControl(s, name, Text.ShowInt(s.jobs[k].number), wake);
      && r.state.jobs[k] == s.jobs[k].(running := true)
      && r.state.foreground == None
      && forall m :: 0 <= m < |s.jobs| && m != k ==> r.state.jobs[m] == s.jobs[m]
  {
    Text.ParseShowInt(s.jobs[k].number);
    var r := JobControl(s, name, Text.ShowInt(s.jobs[k].number), wake);
    forall m | 0 <= m < |s.jobs| && m != k
      ensures r.state.jobs[m] == s.jobs[m]
    {
      if m < k {
        assert s.jobs[m].number < s.jobs[k].number;
      } else {
        assert s.jobs[k].number < s.jobs[m].number;
      }
    }
  }

  // ---------------------------------------------------------------------
  // One pass of the main loop

  /** The words that are not launched as external programs. */
  predicate IsBuiltin(word: string) {
    word == "cd" || word == "ls" || word == "pwd" || word == "jobs" || word == "fg" || word == "bg"
  }

  /** A pass that forks and registers a new job. */
  predicate Launches(line: string, words: seq<string>) {
    line != "exit" && |words| > 0 && !IsBuiltin(words[0])
  }

  /** The command part of a pass, before the reap. `cd`, `ls` and `pwd`
      only touch the file system and the terminal. */
  function Command(s: State, line: string, words: seq<string>, pid: Pid, wake: Event): (r: Reaction)
    requires |words| > 0
    requires words[0] == "fg" || words[0] == "bg" ==> |words| > 1
    ensures r.state.counter == s.counter + (if IsBuiltin(words[0]) then 0 else 1)
    ensures s.foreground.None? ==> r.state.foreground.None?
    ensures Valid(s) ==> Valid(r.state)
  {
    var word := words[0];
    if word == "cd" || word == "ls" || word == "pwd" then Reaction(s, [])
    else if word == "jobs" then Reaction(s, [Print(JobsText(s.jobs))])
    else if word == "fg" || word == "bg" then JobControl(s, word, words[1], wake)
    else Launcher.Launch(s, pid, line, wake)
  }

  /** The `done:` line printed for each reaped job. */
  function DoneLines(done: seq<Job>): (r: seq<Effect>)
    ensures |r| == |done|
    ensures forall i :: 0 <= i < |done| ==> r[i] == Print("done: " + JobText(done[i]))
  {
    if |done| == 0 then [] else [Print("done: " + JobText(done[0]))] + DoneLines(done[1..])
  }

  datatype Outcome = Exit | Next(state: State, effects: seq<Effect>)

  /** The observations one pass depends on: the words the tokenizer made of
      the line, the pid `fork` returns, the signal that ends a wait, and the
      `waitpid` status the reap sees for each job. */
  datatype Pass = Pass(line: string, words: seq<string>, pid: Pid, wake: Event, probe: Job -> WaitStatus)

  predicate WellFormed(p: Pass) {
    p.line != "exit" && |p.words| > 0 && (p.words[0] == "fg" || p.words[0] == "bg") ==> |p.words| > 1
  }

  /** One pass of `loop`: `exit` ends the loop, an empty line is skipped
      without reaping, anything else runs and is followed by the reap. */
  function Step(s: State, p: Pass): (r: Outcome)
    requires WellFormed(p)
    ensures r.Exit? <==> p.line == "exit"
    ensures r.Next? && |p.words| == 0 ==> r.state == s
    ensures r.Next? ==> r.state.counter == s.counter + (if Launches(p.line, p.words) then 1 else 0)
    ensures r.Next? && |p.words| > 0 ==> forall j :: j in r.state.jobs ==> !Exited(p.probe(j))
    ensures r.Next? && s.foreground.None? ==> r.state.foreground.None?
    ensures r.Next? && Valid(s) ==> Valid(r.state)
  {
    if p.line == "exit" then Exit
    else if |p.words| == 0 then Next(s, [])
    else
      var c := Command(s, p.line, p.words, p.pid, p.wake);
      var kept := Survivors(c.state.jobs, p.probe);
      var done := Done(c.state.jobs, p.probe);
      ReapFacts(c.state.jobs, c.state.counter, p.probe);
      Next(c.state.(jobs := kept), c.effects + DoneLines(done))
  }

  /** What `Step` needs about the reap: nothing exited survives, and the
      table stays numbered. */
  lemma ReapFacts(jobs: seq<Job>, counter: int, probe: Job -> WaitStatus)
    ensures forall j :: j in Survivors(jobs, probe) ==> !Exited(probe(j))
    ensures Numbered(jobs, counter) ==> Numbered(Survivors(jobs, probe), counter)
  {
    forall j | j in Survivors(jobs, probe)
      ensures !Exited(probe(j))
    {
      SurvivorsCount(jobs, probe, j);
    }
    if Numbered(jobs, counter) {
      SurvivorsNumbered(jobs, counter, probe);
    }
  }

  /** A pass that launches a command leaves the old table plus the new job,
      minus exactly those whose status says exited, each survivor once per
      occurrence. */
  lemma LaunchPass(s: State, p: Pass)
    requires WellFormed(p) && Launches(p.line, p.words)
    ensures var r := Step(s, p);
      var launched := s.jobs + [Job(p.pid, s.counter, p.line, true)];
      && r.Next?
      && forall j :: multiset(r.state.jobs)[j] == if Exited(p.probe(j)) then 0 else multiset(launched)[j]
  {
    var c := Command(s, p.line, p.words, p.pid, p.wake);
    var launched := s.jobs + [Job(p.pid, s.counter, p.line, true)];
    assert c.state.jobs == launched by {
      assert c.state.jobs == c.state.jobs[..|s.jobs|] + [c.state.jobs[|s.jobs|]];
    }
    forall j
      ensures multiset(Survivors(launched, p.probe))[j] == if Exited(p.probe(j)) then 0 else multiset(launched)[j]
    {
      SurvivorsCount(launched, p.probe, j);
    }
  }

  // ---------------------------------------------------------------------
  // Runs

  /** What reaches the shell: a signal between passes, or a pass. */
  datatype Input = Deliver(event: Event) | Enter(pass: Pass)

  predicate Admissible(inputs: seq<Input>) {
    forall i :: 0 <= i < |inputs| ==> inputs[i].Enter? ==> WellFormed(inputs[i].pass)
  }

  /** The job number an input hands out: the counter, when it launches a
      command. */
  function Fresh(s: State, x: Input): seq<int> {
    if x.Enter? && Launches(x.pass.line, x.pass.words) then [s.counter] else []
  }

  /** The state after one input; `None` when the input is `exit`. */
  function Apply(s: State, x: Input): (r: Option<State>)
    requires x.Enter? ==> WellFormed(x.pass)
    ensures r.None? <==> x.Enter? && x.pass.line == "exit"
    ensures r.Some? ==> r.value.counter == s.counter + |Fresh(s, x)|
    ensures r.Some? && Valid(s) ==> Valid(r.value)
    ensures r.Some? && s.foreground.None? ==> r.value.foreground.None?
  {
    match x
    case Deliver(e) => Some(Handle(s, e).state)
    case Enter(p) =>
      match Step(s, p)
      case Exit => None
      case Next(t, _) => Some(t)
  }

  /** The state after a run of inputs; `exit` ends the run. */
  function Run(s: State, inputs: seq<Input>): (r: State)
    requires Admissible(inputs)
    ensures r.counter >= s.counter
    ensures Valid(s) ==> Valid(r)
    ensures s.foreground.None? ==> r.foreground.None?
    decreases |inputs|
  {
    if |inputs| == 0 then s
    else match Apply(s, inputs[0])
      case None => s
      case Some(t) => Run(t, inputs[1..])
  }

  /** The job numbers a run hands out, in the order it hands them out:
      consecutive numbers from the starting counter on, so each once and in
      increasing order; removals never give a number back. */
  function Issued(s: State, inputs: seq<Input>): (r: seq<int>)
    requires Admissible(inputs)
    ensures forall i :: 0 <= i < |r| ==> r[i] == s.counter + i
    decreases |inputs|
  {
    if |inputs| == 0 then []
    else match Apply(s, inputs[0])
      case None => []
      case Some(t) => Fresh(s, inputs[0]) + Issued(t, inputs[1..])
  }

  /** No number is handed out twice in a run, and none collides with a job
      already in the table at its start. */
  lemma NumbersNeverReused(s: State, inputs: seq<Input>)
    requires Valid(s) && Admissible(inputs)
    ensures var ns := Issued(s, inputs);
      && (forall i, j :: 0 <= i < j < |ns| ==> ns[i] < ns[j])
      && (forall i, k :: 0 <= i < |ns| && 0 <= k < |s.jobs| ==> s.jobs[k].number < ns[i])
  {
  }

  // ---------------------------------------------------------------------
  // A session

  /** `sleep 5` is launched and stopped from the terminal. The stopped
      child reports no change to the reap's `waitpid`, which the reap takes
      for an exit: job 1 is dropped in the same pass with a `done:` line, so
      `fg 1` afterwards finds no job and changes nothing. */
  lemma SleepStopResume(pid: Pid, poll: Job -> WaitStatus)
    requires forall j :: poll(j) == Poll(Stopped)
    ensures var launched := Step(Initial, Pass("sleep 5", ["sleep", "5"], pid, TerminalStop, poll));
      && launched == Next(State([], None, 2), [Kill(pid, SigTstp), Print("done: " + JobText(Job(pid, 1, "sleep 5", true)))])
      && Step(launched.state, Pass("fg 1", ["fg", "1"], pid, ChildChange, poll)) == Next(State([], None, 2), [])
  {
    StopAtLaunch(pid, poll);
    NoJobToResume(pid, poll);
  }

  /** The launch pass of `SleepStopResume`. */
  lemma StopAtLaunch(pid: Pid, poll: Job -> WaitStatus)
    requires forall j :: poll(j) == Poll(Stopped)
    ensures Step(Initial, Pass("sleep 5", ["sleep", "5"], pid, TerminalStop, poll))
      == Next(State([], None, 2), [Kill(pid, SigTstp), Print("done: " + JobText(Job(pid, 1, "sleep 5", true)))])
  {
    SleepLaunched(pid);
    StoppedReaped(Job(pid, 1, "sleep 5", true), poll);
  }

  /** Launching `sleep 5` in a fresh shell registers job 1, and the stop
      that ends the wait is forwarded to it. */
  lemma SleepLaunched(pid: Pid)
    ensures Command(Initial, "sleep 5", ["sleep", "5"], pid, TerminalStop)
      == Reaction(State([Job(pid, 1, "sleep 5", true)], None, 2), [Kill(pid, SigTstp)])
  {
    assert !IsBuiltin("sleep");
  }

  /** The reap drops a job whose child is stopped, with its `done:` line. */
  lemma StoppedReaped(job: Job, poll: Job -> WaitStatus)
    requires poll(job) == Poll(Stopped)
    ensures Survivors([job], poll) == []
    ensures DoneLines(Done([job], poll)) == [Print("done: " + JobText(job))]
  {
    assert [job][..0] == [];
  }

  /** The `fg 1` pass of `SleepStopResume`: the table is empty, so nothing
      is resumed. */
  lemma NoJobToResume(pid: Pid, poll: Job -> WaitStatus)
    ensures Step(State([], None, 2), Pass("fg 1", ["fg", "1"], pid, ChildChange, poll)) == Next(State([], None, 2), [])
  {
    FgOneOnEmpty();
    FgOneDispatch(pid);
    QuietPassOnEmpty(State([], None, 2), Pass("fg 1", ["fg", "1"], pid, ChildChange, poll));
  }

  /** `fg 1` on an empty table resumes nothing and prints nothing. */
  lemma FgOneOnEmpty()
    ensures JobControl(State([], None, 2), "fg", "1", ChildChange) == Reaction(State([], None, 2), [])
  {
    OneParses();
  }

  /** The line `fg 1` reaches the `fg` built-in. */
  lemma FgOneDispatch(pid: Pid)
    ensures Command(State([], None, 2), "fg 1", ["fg", "1"], pid, ChildChange)
      == JobControl(State([], None, 2), "fg", "1", ChildChange)
  {
  }

  /** A command that changes nothing on an empty table leaves nothing to
      reap, so the whole pass changes nothing. */
  lemma QuietPassOnEmpty(s: State, p: Pass)
    requires WellFormed(p) && p.line != "exit" && |p.words| > 0 && s.jobs == []
    requires Command(s, p.line, p.words, p.pid, p.wake) == Reaction(s, [])
    ensures Step(s, p) == Next(s, [])
  {
    assert Survivors([], p.probe) == [] && Done([], p.probe) == [];
    assert DoneLines([]) == [];
  }

  /** `int("1")` is 1. */
  lemma OneParses()
    ensures Text.ParseInt("1") == Some(1)
  {
    Text.ParseShowInt(1);
    assert Text.ShowInt(1) == "1";
  }
}
