/** The shell's state and the three signal handlers it installs, each taken
    as one atomic transition, plus `wait_for_process`. */
module Signals {
  import opened Optional
  import opened Jobs

  /** The signals the shell sends with `os.kill`. */
  datatype Signal = SigInt | SigTstp | SigCont

  /** The signals the shell installs a handler for. */
  datatype Event = Interrupt | ChildChange | TerminalStop

  /** What a transition does outside the three fields: a signal sent to a
      process, or a line printed. */
  datatype Effect = Kill(pid: Pid, sig: Signal) | Print(line: string)

  /** The job table, the foreground slot and the job-number counter. */
  datatype State = State(jobs: seq<Job>, foreground: Option<Pid>, counter: int)

  datatype Reaction = Reaction(state: State, effects: seq<Effect>)

  /** A fresh shell: no jobs, no foreground process, numbering from 1. */
  const Initial := State([], None, 1)

  predicate Valid(s: State) { Numbered(s.jobs, s.counter) }

  /** SIGINT: forward the interrupt to the foreground process, if any; the
      shell's own state never changes. */
  function OnInterrupt(s: State): (r: Reaction)
    ensures r.state == s
    ensures s.foreground.None? ==> r.effects == []
    ensures s.foreground.Some? ==> r.effects == [Kill(s.foreground.value, SigInt)]
  {
    match s.foreground
    case Some(p) => Reaction(s, [Kill(p, SigInt)])
    case None => Reaction(s, [])
  }

  /** SIGCHLD: release the waiter by emptying the foreground slot. */
  function OnChildChange(s: State): (r: Reaction)
    ensures r.state.jobs == s.jobs && r.state.counter == s.counter
    ensures r.state.foreground == None
    ensures s.foreground.None? ==> r.state == s
    ensures r.effects == []
  {
    if s.foreground.Some? then Reaction(s.(foreground := None), []) else Reaction(s, [])
  }

  /** The scan of the SIGTSTP handler: stop every job whose pid is `slot`. */
  function MarkStopped(jobs: seq<Job>, slot: Option<Pid>): (r: seq<Job>)
    ensures |r| == |jobs|
    ensures forall i :: 0 <= i < |jobs| ==> r[i].pid == jobs[i].pid && r[i].number == jobs[i].number
    ensures slot.None? ==> r == jobs
  {
    seq(|jobs|, i requires 0 <= i < |jobs| =>
      if Some(jobs[i].pid) == slot then jobs[i].(running := false) else jobs[i])
  }

  /** SIGTSTP as written: forward the stop and empty the slot, then scan for
      jobs whose pid equals the slot, which is already empty, so no job is
      marked stopped. With no foreground process it only prints. */
  function OnStop(s: State): (r: Reaction)
    ensures r.state.jobs == s.jobs && r.state.counter == s.counter
    ensures r.state.foreground == None
    ensures s.foreground.None? ==> r == Reaction(s, [Print("no foreground")])
    ensures s.foreground.Some? ==> r.effects == [Kill(s.foreground.value, SigTstp)]
  {
    match s.foreground
    case Some(p) =>
      var cleared := s.(foreground := None);
      Reaction(cleared.(jobs := MarkStopped(cleared.jobs, cleared.foreground)), [Kill(p, SigTstp)])
    case None =>
      Reaction(s, [Print("no foreground")])
  }

  /** Dispatch an event to its handler. */
  function Handle(s: State, e: Event): (r: Reaction)
    ensures r.state.jobs == s.jobs && r.state.counter == s.counter
    ensures e == Interrupt ==> r.state == s
    ensures e != Interrupt ==> r.state.foreground == None
  {
    match e
    case Interrupt => OnInterrupt(s)
    case ChildChange => OnChildChange(s)
    case TerminalStop => OnStop(s)
  }

  /** `wait_for_process`: `signal.pause()` returns once a handler has run
      for `wake`, then the slot is emptied. Whatever the signal, only the
      slot changes. */
  function Wait(s: State, wake: Event): (r: Reaction)
    ensures r.state == s.(foreground := None)
    ensures r.effects == Handle(s, wake).effects
  {
    var h := Handle(s, wake);
    Reaction(h.state.(foreground := None), h.effects)
  }

  /** A foreground job that is stopped keeps status `True`: the handler
      forwards the stop and frees the shell but leaves the table alone. */
  lemma StoppedJobStaysRunning(s: State, k: int)
    requires 0 <= k < |s.jobs| && s.jobs[k].running
    requires s.foreground == Some(s.jobs[k].pid)
    ensures OnStop(s).state.jobs[k].running
    ensures OnStop(s).state.foreground == None
    ensures Kill(s.jobs[k].pid, SigTstp) in OnStop(s).effects
  {
  }
}
