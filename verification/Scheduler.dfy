/** The periodic scheduler: one clock reading per pass, every overdue task run, and the reading
    remembered as the task's last run whether or not it failed.
 */
module Scheduler {

  datatype Task = Task(name: string, interval: int, lastRun: real)

  /** What `enabled()` does on a pass. */
  datatype Switch = Enabled | Disabled | Raises

  /** One pass of the loop: its clock reading, the switch, and the positions of the tasks whose run fails. */
  datatype Pass = Pass(now: real, switch: Switch, failing: set<nat>)

  /** Task `task` (a position in the task list) ran on pass `pass`. */
  datatype Run = Run(pass: nat, task: nat)

  // ---------------------------------------------------------------- one task on its own

  /** The last run of a task after the passes so far, from its own interval and the clock alone. */
  function LastRun(task: Task, passes: seq<Pass>): real {
    if passes == [] then task.lastRun else
    var before := LastRun(task, passes[..|passes| - 1]);
    if Due(task, before, passes[|passes| - 1]) then passes[|passes| - 1].now else before
  }

  predicate Due(task: Task, last: real, pass: Pass) {
    pass.switch.Enabled? && pass.now - last >= task.interval as real
  }

  /** Whether the task runs on pass `k`. */
  predicate RunsAt(task: Task, passes: seq<Pass>, k: nat)
    requires k < |passes|
  {
    Due(task, LastRun(task, passes[..k]), passes[k])
  }

  // ---------------------------------------------------------------- the loop

  ghost predicate DistinctNames(tasks: seq<Task>) {
    forall i, j :: 0 <= i < j < |tasks| ==> tasks[i].name != tasks[j].name
  }

  class SimpleScheduler {
    const tasks: seq<Task>
    var lastRuns: map<string, real>
    var runs: seq<Run>       // every call of a task, in order
    var failures: seq<Run>   // those that raised and were logged

    constructor (tasks: seq<Task>)
      ensures this.tasks == tasks && runs == [] && failures == []
    {
      this.tasks := tasks;
      lastRuns, runs, failures := map[], [], [];
    }

    /** Every task has an entry; with distinct names it is the task's own. */
    ghost predicate UpTo(passes: seq<Pass>)
      reads this
    {
      && (forall i :: 0 <= i < |tasks| ==> tasks[i].name in lastRuns)
      && (DistinctNames(tasks) ==> forall i :: 0 <= i < |tasks| ==>
            lastRuns[tasks[i].name] == LastRun(tasks[i], passes))
    }

    /** The dictionary comprehension before the loop: of tasks with one name the last counts. */
    method Start()
      modifies this`lastRuns
      ensures UpTo([])
      ensures forall i :: 0 <= i < |tasks| && (forall j :: i < j < |tasks| ==> tasks[j].name != tasks[i].name)
                          ==> tasks[i].name in lastRuns && lastRuns[tasks[i].name] == tasks[i].lastRun
    {
      lastRuns := map[];
      var k := 0;
      while k < |tasks|
        invariant k <= |tasks|
        invariant forall i :: 0 <= i < k ==> tasks[i].name in lastRuns
        invariant forall i :: 0 <= i < k && (forall j :: i < j < k ==> tasks[j].name != tasks[i].name)
                              ==> lastRuns[tasks[i].name] == tasks[i].lastRun
      {
        lastRuns := lastRuns[tasks[k].name := tasks[k].lastRun];
        k := k + 1;
      }
    }

    /** One pass, number |before|: exactly the overdue tasks run, in their order, each failing or not. */
    method RunPass(ghost before: seq<Pass>, pass: Pass, number: nat) returns (ghost added: seq<Run>)
      requires UpTo(before) && number == |before|
      modifies this`lastRuns, this`runs, this`failures
      ensures UpTo(before + [pass])
      ensures runs == old(runs) + added && InOrder(added, number, |tasks|)
      ensures DistinctNames(tasks) ==> forall i :: 0 <= i < |tasks| ==>
                (Run(number, i) in added <==> RunsAt(tasks[i], before + [pass], number))
      ensures forall r :: r in failures <==> r in old(failures) || (r in added && r.task in pass.failing)
      // on a pass that is disabled, or whose check raises, nothing happens at all
      ensures !pass.switch.Enabled? ==>
                added == [] && runs == old(runs) && failures == old(failures) && lastRuns == old(lastRuns)
      // on any other a task runs exactly when its interval has passed since its entry, which then is renewed
      ensures DistinctNames(tasks) && pass.switch.Enabled? ==> forall i :: 0 <= i < |tasks| ==>
                var due := pass.now - old(lastRuns)[tasks[i].name] >= tasks[i].interval as real;
                && (Run(number, i) in added <==> due)
                && lastRuns[tasks[i].name] == if due then pass.now else old(lastRuns)[tasks[i].name]
    {
      hide LastRun, RunsAt;
      ghost var passes := before + [pass];
      OnePass(tasks, before, pass);
      added := [];
      if !pass.switch.Enabled? { return; }
      var k := 0;
      while k < |tasks|
        invariant k <= |tasks| && runs == old(runs) + added && InOrder(added, number, k)
        invariant forall i :: 0 <= i < |tasks| ==> tasks[i].name in lastRuns
        invariant DistinctNames(tasks) ==> forall i :: 0 <= i < |tasks| ==>
                    lastRuns[tasks[i].name] == LastRun(tasks[i], if i < k then passes else before)
        invariant DistinctNames(tasks) ==> forall i :: 0 <= i < k ==>
                    (Run(number, i) in added <==> RunsAt(tasks[i], passes, number))
        invariant forall r :: r in failures <==> r in old(failures) || (r in added && r.task in pass.failing)
      {
        var task := tasks[k];
        if pass.now - lastRuns[task.name] >= task.interval as real {
          runs := runs + [Run(number, k)];
          added := added + [Run(number, k)];
          if k in pass.failing { failures := failures + [Run(number, k)]; }
          lastRuns := lastRuns[task.name := pass.now];
        }
        k := k + 1;
      }
    }

    /** `run_forever` for any finite number of passes. */
    method RunPasses(passes: seq<Pass>)
      requires runs == [] && failures == []
      modifies this
      ensures UpTo(passes)
      ensures forall r :: r in runs ==> r.pass < |passes| && r.task < |tasks|
      ensures Ordered(runs) && forall r :: r in runs ==> passes[r.pass].switch.Enabled?
      ensures DistinctNames(tasks) ==> forall k, i :: 0 <= k < |passes| && 0 <= i < |tasks| ==>
                (Run(k, i) in runs <==> RunsAt(tasks[i], passes, k))
      ensures forall r :: r in failures <==> r in runs && r.task in passes[r.pass].failing
    {
      Start();
      var n := 0;
      while n < |passes|
        invariant n <= |passes| && UpTo(passes[..n])
        invariant forall r :: r in runs ==> r.pass < n && r.task < |tasks|
        invariant Ordered(runs) && forall r :: r in runs ==> passes[r.pass].switch.Enabled?
        invariant DistinctNames(tasks) ==> forall k, i :: 0 <= k < n && 0 <= i < |tasks| ==>
                    (Run(k, i) in runs <==> RunsAt(tasks[i], passes, k))
        invariant forall r :: r in failures <==> r in runs && r.task in passes[r.pass].failing
      {
        assert passes[..n] + [passes[n]] == passes[..n + 1];
        ghost var added := RunPass(passes[..n], passes[n], n);
        forall i | 0 <= i < |tasks| ensures RunsAt(tasks[i], passes[..n + 1], n) <==> RunsAt(tasks[i], passes, n) {
          assert passes[..n + 1][..n] == passes[..n];
        }
        n := n + 1;
      }
      assert passes[..n] == passes;
    }
  }

  /** What one pass means for each task on its own. */
  lemma OnePass(tasks: seq<Task>, before: seq<Pass>, pass: Pass)
    ensures forall i :: 0 <= i < |tasks| ==>
              var last := LastRun(tasks[i], before);
              && (RunsAt(tasks[i], before + [pass], |before|) <==> Due(tasks[i], last, pass))
              && LastRun(tasks[i], before + [pass]) == if Due(tasks[i], last, pass) then pass.now else last
  {
    assert (before + [pass])[..|before|] == before;
  }

  /** Runs of one pass, of tasks before position `end`, each task at most once and in list order. */
  ghost predicate InOrder(added: seq<Run>, pass: nat, end: nat) {
    && (forall i :: 0 <= i < |added| ==> added[i].pass == pass && added[i].task < end)
    && (forall i, j :: 0 <= i < j < |added| ==> added[i].task < added[j].task)
  }

  /** Runs in the order they were made: pass by pass, and in list order within a pass. */
  ghost predicate Ordered(runs: seq<Run>) {
    forall i, j :: 0 <= i < j < |runs| ==> Earlier(runs[i], runs[j])
  }

  ghost predicate Earlier(r: Run, s: Run) {
    r.pass < s.pass || (r.pass == s.pass && r.task < s.task)
  }

  lemma {:induction false} OrderedUnique(a: seq<Run>, b: seq<Run>)
    requires Ordered(a) && Ordered(b) && (forall r :: r in a <==> r in b)
    ensures a == b
  {
    assert b != [] ==> b[0] in b;
    if a != [] {
      var m, n := |a| - 1, |b| - 1;
      assert a[m] in b && b != [] && b[n] in a;
      var i :| 0 <= i <= n && b[i] == a[m];
      var j :| 0 <= j <= m && a[j] == b[n];
      assert a[m] == b[n];
      forall r ensures r in a[..m] <==> r in b[..n] {
        assert r in a[..m] <==> r in a && r != a[m];
        assert r in b[..n] <==> r in b && r != b[n];
      }
      OrderedUnique(a[..m], b[..n]);
    }
  }

  // ---------------------------------------------------------------- spacing

  /** `a` and `b` are passes on which the task runs, with no run in between. */
  ghost predicate Consecutive(task: Task, passes: seq<Pass>, a: nat, b: nat) {
    && a < b < |passes|
    && RunsAt(task, passes, a) && RunsAt(task, passes, b)
    && forall k :: a < k < b ==> !RunsAt(task, passes, k)
  }

  lemma {:induction false} LastRunKept(task: Task, passes: seq<Pass>, a: nat, b: nat)
    requires a < b <= |passes| && RunsAt(task, passes, a)
    requires forall k :: a < k < b ==> !RunsAt(task, passes, k)
    ensures LastRun(task, passes[..b]) == passes[a].now
  {
    assert passes[..b][..b - 1] == passes[..b - 1];
    if a + 1 < b {
      LastRunKept(task, passes, a, b - 1);
      assert !RunsAt(task, passes, b - 1);
    }
  }

  lemma {:induction false} NoRunYet(task: Task, passes: seq<Pass>, m: nat)
    requires m <= |passes| && forall k :: 0 <= k < m ==> !RunsAt(task, passes, k)
    ensures LastRun(task, passes[..m]) == task.lastRun
  {
    if m > 0 {
      assert passes[..m][..m - 1] == passes[..m - 1];
      NoRunYet(task, passes, m - 1);
      assert !RunsAt(task, passes, m - 1);
    }
  }

  /** A task that has not run yet runs on exactly the first enabled pass that reads its initial last run plus its
      interval or more. */
  lemma FirstRun(task: Task, passes: seq<Pass>, m: nat)
    requires m < |passes| && forall k :: 0 <= k < m ==> !RunsAt(task, passes, k)
    ensures RunsAt(task, passes, m)
       <==> passes[m].switch.Enabled? && passes[m].now >= task.lastRun + task.interval as real
  {
    NoRunYet(task, passes, m);
  }

  /** And after a run it runs on exactly the first enabled pass that reads that run plus its interval or more. */
  lemma NextRun(task: Task, passes: seq<Pass>, a: nat, m: nat)
    requires a < m < |passes| && RunsAt(task, passes, a) && forall k :: a < k < m ==> !RunsAt(task, passes, k)
    ensures RunsAt(task, passes, m)
       <==> passes[m].switch.Enabled? && passes[m].now >= passes[a].now + task.interval as real
  {
    LastRunKept(task, passes, a, m);
  }

  /** Consecutive runs of a task have readings at least its interval apart. */
  lemma RunsSpaced(task: Task, passes: seq<Pass>, a: nat, b: nat)
    requires Consecutive(task, passes, a, b)
    ensures passes[b].now - passes[a].now >= task.interval as real
  {
    LastRunKept(task, passes, a, b);
  }

  /** If passes stay enabled and start at most `d` apart, a task with a positive interval runs again
      less than its interval plus `d` later. */
  lemma RunsSoonEnough(task: Task, passes: seq<Pass>, a: nat, b: nat, d: real)
    requires Consecutive(task, passes, a, b) && task.interval > 0
    requires forall k :: a < k <= b ==> passes[k].switch.Enabled? && passes[k].now - passes[k - 1].now <= d
    ensures passes[b].now - passes[a].now < task.interval as real + d
  {
    if a + 1 < b {
      assert !RunsAt(task, passes, b - 1);
      LastRunKept(task, passes, a, b - 1);
    }
  }

  /** It does run again: at the latest on an enabled pass that reads an interval or more later. */
  lemma RunsAgain(task: Task, passes: seq<Pass>, a: nat, m: nat) returns (b: nat)
    requires a < m < |passes| && RunsAt(task, passes, a)
    requires passes[m].switch.Enabled? && passes[m].now - passes[a].now >= task.interval as real
    ensures b <= m && Consecutive(task, passes, a, b)
  {
    if forall k :: a < k < m ==> !RunsAt(task, passes, k) {
      LastRunKept(task, passes, a, m);
      b := m;
    } else {
      var k :| a < k < m && RunsAt(task, passes, k);
      b := FirstRunAfter(task, passes, a, k);
    }
  }

  lemma {:induction false} FirstRunAfter(task: Task, passes: seq<Pass>, a: nat, m: nat) returns (b: nat)
    requires a < m < |passes| && RunsAt(task, passes, a) && RunsAt(task, passes, m)
    ensures b <= m && Consecutive(task, passes, a, b)
  {
    b := m;
    if k :| a < k < m && RunsAt(task, passes, k) { b := FirstRunAfter(task, passes, a, k); }
  }

  /** The clock readings and the switch are the same; which tasks fail may differ. */
  ghost predicate SameClock(passes: seq<Pass>, others: seq<Pass>) {
    && |passes| == |others|
    && forall k :: 0 <= k < |passes| ==>
         passes[k].now == others[k].now && (passes[k].switch.Enabled? <==> others[k].switch.Enabled?)
  }

  lemma {:induction false} SameLastRun(task: Task, passes: seq<Pass>, others: seq<Pass>)
    requires SameClock(passes, others)
    ensures LastRun(task, passes) == LastRun(task, others)
  {
    if passes != [] { SameLastRun(task, passes[..|passes| - 1], others[..|others| - 1]); }
  }

  /** Two schedulers under the same clock readings and switch: a task in both runs on the same passes,
      whatever fails and whatever other tasks there are; with equal task lists all runs are the same. */
  method FailuresDoNotMatter(one: SimpleScheduler, two: SimpleScheduler, passes: seq<Pass>, others: seq<Pass>)
    requires one != two && one.runs == one.failures == two.runs == two.failures == []
    requires SameClock(passes, others) && DistinctNames(one.tasks) && DistinctNames(two.tasks)
    modifies one, two
    ensures forall k, i, j :: 0 <= k < |passes| && 0 <= i < |one.tasks| && 0 <= j < |two.tasks|
                              && one.tasks[i] == two.tasks[j] ==>
              (Run(k, i) in one.runs <==> Run(k, j) in two.runs)
    ensures one.tasks == two.tasks ==> one.runs == two.runs
  {
    one.RunPasses(passes);
    two.RunPasses(others);
    forall task, k | 0 <= k < |passes| ensures RunsAt(task, passes, k) <==> RunsAt(task, others, k) {
      SameLastRun(task, passes[..k], others[..k]);
    }
    if one.tasks == two.tasks {
      forall r ensures r in one.runs <==> r in two.runs {
        assert r == Run(r.pass, r.task);
      }
      OrderedUnique(one.runs, two.runs);
    }
  }
}
