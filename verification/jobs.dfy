/** The job table: `Job` records, the class-level job-number counter, the
    `str` form printed by `jobs` and `done:`, and the reap pass that drops
    the jobs whose process has exited. */
module Jobs {
  import opened Optional
  import Text

  /** A process id as the parent sees it: `os.fork()` returns a positive
      pid to the parent, so a pid in the table is never 0. */
  type Pid = p: int | 0 < p witness 1

  /** One `Job` object; `running` is the Python `status` field. */
  datatype Job = Job(pid: Pid, number: int, command: string, running: bool)

  /** Job numbers increase strictly in table order and all lie below the
      counter, so the next job will get a number no job has. */
  predicate Numbered(jobs: seq<Job>, counter: int) {
    && (forall i, j :: 0 <= i < j < |jobs| ==> jobs[i].number < jobs[j].number)
    && (forall i :: 0 <= i < |jobs| ==> jobs[i].number < counter)
  }

  /** `Job(pid, command)`: the new job takes the counter's value, starts
      running, and the counter moves on by one. */
  function NewJob(counter: int, pid: Pid, command: string): (Job, int)
  {
    (Job(pid, counter, command, true), counter + 1)
  }

  /** Appending a freshly numbered job keeps the table numbered. */
  lemma AppendNewJob(jobs: seq<Job>, counter: int, pid: Pid, command: string)
    ensures Numbered(jobs, counter) ==> Numbered(jobs + [NewJob(counter, pid, command).0], NewJob(counter, pid, command).1)
  {
  }

  /** Changing anything but the numbers keeps a table numbered. */
  lemma NumbersKept(a: seq<Job>, b: seq<Job>, counter: int)
    requires |a| == |b|
    requires forall k :: 0 <= k < |a| ==> b[k].number == a[k].number
    ensures Numbered(a, counter) ==> Numbered(b, counter)
  {
  }

  // ---------------------------------------------------------------------
  // Printing

  function ShowBool(b: bool): string { if b then "True" else "False" }

  /** `str(job)`: pid, number, command and status separated by spaces. */
  function JobText(j: Job): string {
    Text.Join([Text.ShowInt(j.pid), Text.ShowInt(j.number), j.command, ShowBool(j.running)], ' ')
  }

  function JobList(jobs: seq<Job>): string {
    if |jobs| == 0 then ""
    else if |jobs| == 1 then JobText(jobs[0])
    else JobText(jobs[0]) + ", " + JobList(jobs[1..])
  }

  /** `str(self.jobs)`: Python's list display of the jobs' `repr`, which is
      their `str`. */
  function JobsText(jobs: seq<Job>): (r: string)
    ensures |r| >= 2 && r[0] == '[' && r[|r| - 1] == ']'
    ensures |r| == 2 <==> |jobs| == 0
    ensures |jobs| == 1 ==> r == "[" + JobText(jobs[0]) + "]"
  {
    "[" + JobList(jobs) + "]"
  }

  /** Separating three texts by `, ` does not depend on grouping. */
  lemma ListSeparators(x: string, y: string, z: string)
    ensures x + ", " + (y + ", " + z) == x + ", " + y + ", " + z
  {
  }

  /** The entries after the first are each preceded by `, `. */
  lemma {:induction false} JobListAppend(a: seq<Job>, j: Job)
    requires |a| > 0
    ensures JobList(a + [j]) == JobList(a) + ", " + JobText(j)
    decreases |a|
  {
    var aj := a + [j];
    assert aj[0] == a[0] && aj[1..] == a[1..] + [j];
    if |a| > 1 {
      JobListAppend(a[1..], j);
      ListSeparators(JobText(a[0]), JobList(a[1..]), JobText(j));
    }
  }

  /** The listing holds one entry per job in table order: appending a job
      to a non-empty table adds `, ` and its text before the closing
      bracket. */
  lemma JobsTextAppend(a: seq<Job>, j: Job)
    requires |a| > 0
    ensures JobsText(a + [j]) == "[" + JobList(a) + ", " + JobText(j) + "]"
  {
    JobListAppend(a, j);
    Bracketed(JobList(a + [j]), JobList(a), JobText(j));
  }

  /** Bracketing a `, `-separated pair does not depend on grouping. */
  lemma Bracketed(l: string, x: string, y: string)
    requires l == x + ", " + y
    ensures "[" + l + "]" == "[" + x + ", " + y + "]"
  {
  }

  /** Four fields joined by spaces split back apart when only the third
      may hold spaces itself. */
  lemma SplitFour(a: string, b: string, c: string, d: string)
    requires ' ' !in a && ' ' !in b && ' ' !in d
    ensures Text.Split(Text.Join([a, b, c, d], ' '), ' ') == [a, b] + Text.Split(c, ' ') + [d]
  {
    var cd := c + [' '] + d;
    var bcd := b + [' '] + cd;
    assert [a, b, c, d][1..] == [b, c, d] && [b, c, d][1..] == [c, d] && [c, d][1..] == [d];
    assert Text.Join([d], ' ') == d;
    assert Text.Join([c, d], ' ') == cd;
    assert Text.Join([b, c, d], ' ') == bcd;
    assert Text.Join([a, b, c, d], ' ') == a + [' '] + bcd;
    Text.SplitNoSep(a, ' ');
    Text.SplitNoSep(b, ' ');
    Text.SplitNoSep(d, ' ');
    Text.SplitAround(c, ' ', d);
    Text.SplitAround(b, ' ', cd);
    assert Text.Split(bcd, ' ') == [b] + Text.Split(c, ' ') + [d];
    Text.SplitAround(a, ' ', bcd);
  }

  /** A job's text splits back into its fields: the first two parse to the
      pid and the job number and the last is the status. */
  lemma JobTextFields(j: Job)
    ensures var f := Text.Split(JobText(j), ' ');
      && |f| == 3 + |Text.Split(j.command, ' ')|
      && f[2..|f| - 1] == Text.Split(j.command, ' ')
      && Text.ParseInt(f[0]) == Some(j.pid)
      && Text.ParseInt(f[1]) == Some(j.number)
      && f[|f| - 1] == ShowBool(j.running)
  {
    var a, b, c, d := Text.ShowInt(j.pid), Text.ShowInt(j.number), j.command, ShowBool(j.running);
    assert ' ' !in a && ' ' !in b && ' ' !in d;
    SplitFour(a, b, c, d);
    var f := Text.Split(JobText(j), ' ');
    assert f == [a, b] + Text.Split(c, ' ') + [d];
    assert f[0] == a && f[1] == b && f[|f| - 1] == d;
    assert f[2..|f| - 1] == Text.Split(c, ' ');
    Text.ParseShowInt(j.pid);
    Text.ParseShowInt(j.number);
  }

  // ---------------------------------------------------------------------
  // Reaping

  /** What `os.waitpid(pid, os.WNOHANG)` reported, as the two tests the
      reap pass makes on it: `WIFSIGNALED` and `WIFEXITED`. */
  datatype WaitStatus = WaitStatus(signaled: bool, exited: bool)

  /** What a child is doing when the reap pass polls it. */
  datatype Child = Alive | Stopped | ExitedWith(code: int) | KilledBy(sig: int)

  /** The two tests on the status `os.waitpid(pid, os.WNOHANG)` returns.
      Without `WUNTRACED` a child that is running or stopped reports no
      change, status 0, and `WIFEXITED(0)` holds; so every child not killed
      by a signal counts as exited. */
  function Poll(c: Child): (w: WaitStatus)
    ensures w.signaled <==> c.KilledBy?
    ensures Exited(w) <==> !c.KilledBy?
  {
    match c
    case KilledBy(_) => WaitStatus(true, false)
    case _ => WaitStatus(false, true)
  }

  /** The reap pass tests `WIFSIGNALED` first and skips the job; only an
      unsignaled exited status removes it. */
  predicate Exited(w: WaitStatus) { !w.signaled && w.exited }

  /** The jobs the reap pass removes, in table order. */
  function Done(jobs: seq<Job>, probe: Job -> WaitStatus): seq<Job>
  {
    if |jobs| == 0 then []
    else
      var last := jobs[|jobs| - 1];
      Done(jobs[..|jobs| - 1], probe) + (if Exited(probe(last)) then [last] else [])
  }

  /** The jobs the reap pass keeps, in table order. */
  function Survivors(jobs: seq<Job>, probe: Job -> WaitStatus): seq<Job>
  {
    if |jobs| == 0 then []
    else
      var last := jobs[|jobs| - 1];
      Survivors(jobs[..|jobs| - 1], probe) + (if Exited(probe(last)) then [] else [last])
  }

  /** The removed jobs are exactly the table's jobs whose status says exited. */
  lemma {:induction false} DoneMembers(jobs: seq<Job>, probe: Job -> WaitStatus, j: Job)
    ensures j in Done(jobs, probe) <==> j in jobs && Exited(probe(j))
    decreases |jobs|
  {
    if |jobs| > 0 {
      var init := jobs[..|jobs| - 1];
      DoneMembers(init, probe, j);
      assert jobs == init + [jobs[|jobs| - 1]];
    }
  }

  /** A job whose status says exited is gone after the reap; every other
      job is kept as many times as the table held it. */
  lemma {:induction false} SurvivorsCount(jobs: seq<Job>, probe: Job -> WaitStatus, j: Job)
    ensures multiset(Survivors(jobs, probe))[j] == if Exited(probe(j)) then 0 else multiset(jobs)[j]
    decreases |jobs|
  {
    if |jobs| > 0 {
      var init := jobs[..|jobs| - 1];
      SurvivorsCount(init, probe, j);
      assert jobs == init + [jobs[|jobs| - 1]];
    }
  }

  /** The reap pass as written: a first loop collects the exited jobs, a
      second keeps every job not among them. */
  method Reap(jobs: seq<Job>, probe: Job -> WaitStatus) returns (kept: seq<Job>, removed: seq<Job>)
    ensures removed == Done(jobs, probe)
    ensures kept == Survivors(jobs, probe)
  {
    removed := [];
    var i := 0;
    while i < |jobs|
      invariant 0 <= i <= |jobs|
      invariant removed == Done(jobs[..i], probe)
    {
      var status := probe(jobs[i]);
      if !status.signaled {
        if status.exited {
          removed := removed + [jobs[i]];
        }
      }
      assert jobs[..i + 1][..i] == jobs[..i];
      i := i + 1;
    }
    assert jobs[..i] == jobs;
    kept := [];
    i := 0;
    while i < |jobs|
      invariant 0 <= i <= |jobs|
      invariant kept == Survivors(jobs[..i], probe)
    {
      DoneMembers(jobs, probe, jobs[i]);
      if jobs[i] !in removed {
        kept := kept + [jobs[i]];
      }
      assert jobs[..i + 1][..i] == jobs[..i];
      i := i + 1;
    }
    assert jobs[..i] == jobs;
  }

  /** Reaping is an order-preserving filter: it acts on the two halves of a
      table independently. */
  lemma {:induction false} SurvivorsAppend(a: seq<Job>, b: seq<Job>, probe: Job -> WaitStatus)
    ensures Survivors(a + b, probe) == Survivors(a, probe) + Survivors(b, probe)
    decreases |b|
  {
    if |b| == 0 {
      assert a + b == a;
    } else {
      var ab := a + b;
      assert ab[..|ab| - 1] == a + b[..|b| - 1];
      SurvivorsAppend(a, b[..|b| - 1], probe);
    }
  }

  /** Reaping keeps the table numbered. */
  lemma {:induction false} SurvivorsNumbered(jobs: seq<Job>, counter: int, probe: Job -> WaitStatus)
    requires Numbered(jobs, counter)
    ensures Numbered(Survivors(jobs, probe), counter)
    decreases |jobs|
  {
    if |jobs| > 0 {
      var init := jobs[..|jobs| - 1];
      var last := jobs[|jobs| - 1];
      assert Numbered(init, counter);
      SurvivorsNumbered(init, counter, probe);
      var s := Survivors(init, probe);
      if !Exited(probe(last)) {
        forall i | 0 <= i < |s|
          ensures s[i].number < last.number
        {
          SurvivorsCount(init, probe, s[i]);
          assert s[i] in init;
        }
        NumberedSnoc(s, last, counter);
      }
    }
  }

  /** A job numbered above every job of a numbered table, and below the
      counter, can go at its end. */
  lemma NumberedSnoc(jobs: seq<Job>, j: Job, counter: int)
    requires Numbered(jobs, counter) && j.number < counter
    requires forall i :: 0 <= i < |jobs| ==> jobs[i].number < j.number
    ensures Numbered(jobs + [j], counter)
  {
  }
}
