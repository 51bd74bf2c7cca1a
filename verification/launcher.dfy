/** Launching an external command: the child's executable resolution and
    the parent's registration of the new job followed by the wait. */
module Launcher {
  import opened Optional
  import Text
  import opened Jobs
  import opened Signals

  /** The directories of the `PATH` the shell sets up for itself. */
  const SearchDirs: seq<string> := ["/usr/local/bin", "/usr/bin", "/bin", "/usr/sbin", "/sbin"]

  /** That `PATH`: the directories joined with colons. */
  const SearchPath: string := Text.Join(SearchDirs, ':')

  /** `os.path.join(dir, name)` on POSIX: an absolute name replaces the
      directory, otherwise a `/` is put between them unless the directory
      is empty or already ends in one. */
  function PathJoin(dir: string, name: string): string
  {
    if |name| > 0 && name[0] == '/' then name
    else if |dir| == 0 || dir[|dir| - 1] == '/' then dir + name
    else dir + "/" + name
  }

  /** The joined path ends with the name; an absolute name is the whole
      path, and otherwise the path starts with the directory. */
  lemma PathJoinShape(dir: string, name: string)
    ensures var r := PathJoin(dir, name);
      && |name| <= |r| && r[|r| - |name|..] == name
      && (|name| > 0 && name[0] == '/' ==> r == name)
      && (!(|name| > 0 && name[0] == '/') ==> |dir| <= |r| && r[..|dir|] == dir)
  {
  }

  /** The index of the first directory, from `i` on, holding an executable
      `name`, if there is one. */
  function FirstExecutable(dirs: seq<string>, name: string, isExecutable: string -> bool, i: nat): (r: Option<nat>)
    requires i <= |dirs|
    ensures r.Some? ==> i <= r.value < |dirs| && isExecutable(PathJoin(dirs[r.value], name))
    ensures r.Some? ==> forall k :: i <= k < r.value ==> !isExecutable(PathJoin(dirs[k], name))
    ensures r.None? ==> forall k :: i <= k < |dirs| ==> !isExecutable(PathJoin(dirs[k], name))
    decreases |dirs| - i
  {
    if i == |dirs| then None
    else if isExecutable(PathJoin(dirs[i], name)) then Some(i)
    else FirstExecutable(dirs, name, isExecutable, i + 1)
  }

  /** Where the child looks for `name`: first in the current directory,
      then along the search directories in order; with no executable
      candidate anywhere it keeps the current-directory path. */
  function Resolution(cwd: string, name: string, dirs: seq<string>, isExecutable: string -> bool): (r: string)
    ensures isExecutable(PathJoin(cwd, name)) ==> r == PathJoin(cwd, name)
    ensures (forall k :: 0 <= k < |dirs| ==> !isExecutable(PathJoin(dirs[k], name))) ==> r == PathJoin(cwd, name)
    ensures !isExecutable(PathJoin(cwd, name)) && (exists k :: 0 <= k < |dirs| && isExecutable(PathJoin(dirs[k], name))) ==>
      exists i :: 0 <= i < |dirs| && r == PathJoin(dirs[i], name) && isExecutable(r) &&
        forall k :: 0 <= k < i ==> !isExecutable(PathJoin(dirs[k], name))
  {
    var here := PathJoin(cwd, name);
    if isExecutable(here) then here
    else match FirstExecutable(dirs, name, isExecutable, 0)
      case Some(i) => PathJoin(dirs[i], name)
      case None => here
  }

  /** The child-side lookup as written: the current-directory candidate,
      then a scan of the colon-split `PATH` that stops at the first
      executable candidate. */
  method Resolve(cwd: string, name: string, path: string, isExecutable: string -> bool) returns (executable: string)
    ensures executable == Resolution(cwd, name, Text.Split(path, ':'), isExecutable)
  {
    executable := PathJoin(cwd, name);
    if !isExecutable(executable) {
      var dirs := Text.Split(path, ':');
      var i := 0;
      while i < |dirs|
        invariant 0 <= i <= |dirs|
        invariant executable == PathJoin(cwd, name)
        invariant FirstExecutable(dirs, name, isExecutable, 0) == FirstExecutable(dirs, name, isExecutable, i)
      {
        var candidate := PathJoin(dirs[i], name);
        if isExecutable(candidate) {
          assert FirstExecutable(dirs, name, isExecutable, i) == Some(i);
          executable := candidate;
          break;
        }
        assert FirstExecutable(dirs, name, isExecutable, i) == FirstExecutable(dirs, name, isExecutable, i + 1);
        i := i + 1;
      }
    }
  }

  /** The shell's `PATH` splits back into its five directories, in order. */
  lemma SearchPathDirs()
    ensures Text.Split(SearchPath, ':') == SearchDirs
  {
    Text.SplitJoin(SearchDirs, ':');
  }

  /** With a two-directory `PATH` and no executable `name` in the current
      directory, the first directory's candidate wins when it is executable,
      and the second's otherwise. */
  lemma ResolveTwoDirs(cwd: string, name: string, first: string, second: string, isExecutable: string -> bool)
    requires ':' !in first && ':' !in second
    requires !isExecutable(PathJoin(cwd, name))
    ensures var r := Resolution(cwd, name, Text.Split(first + ":" + second, ':'), isExecutable);
      && (isExecutable(PathJoin(first, name)) ==> r == PathJoin(first, name))
      && (!isExecutable(PathJoin(first, name)) && isExecutable(PathJoin(second, name)) ==> r == PathJoin(second, name))
  {
    var dirs := [first, second];
    assert Text.Join(dirs, ':') == first + ":" + second by {
      assert dirs[1..] == [second];
    }
    Text.SplitJoin(dirs, ':');
    var found := FirstExecutable(dirs, name, isExecutable, 0);
    if !isExecutable(PathJoin(first, name)) && isExecutable(PathJoin(second, name)) {
      assert FirstExecutable(dirs, name, isExecutable, 1) == Some(1);
    }
  }

  // ---------------------------------------------------------------------
  // Parent side

  /** After `fork`: append the new job, numbered from the counter, and
      make its pid the foreground process. */
  function Register(s: State, pid: Pid, command: string): (r: State)
    ensures r.jobs == s.jobs + [Job(pid, s.counter, command, true)]
    ensures r.counter == s.counter + 1
    ensures r.foreground == Some(pid)
    ensures Valid(s) ==> Valid(r)
  {
    var (job, next) := NewJob(s.counter, pid, command);
    AppendNewJob(s.jobs, s.counter, pid, command);
    State(s.jobs + [job], Some(pid), next)
  }

  /** The parent's side of launching `command` as process `pid`: register
      it, then wait until `wake` is handled. Exactly one job is added, at
      the end, and the slot is empty again afterwards. */
  function Launch(s: State, pid: Pid, command: string, wake: Event): (r: Reaction)
    ensures |r.state.jobs| == |s.jobs| + 1
    ensures r.state.jobs[..|s.jobs|] == s.jobs
    ensures r.state.jobs[|s.jobs|] == Job(pid, s.counter, command, true)
    ensures r.state.counter == s.counter + 1
    ensures r.state.foreground == None
    ensures Valid(s) ==> Valid(r.state)
  {
    var started := Register(s, pid, command);
    var r := Wait(started, wake);
    assert r.state.jobs[..|s.jobs|] == s.jobs;
    r
  }
}
