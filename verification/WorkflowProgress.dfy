/** The percentage of a workflow run: finished jobs, plus a share for every repository whose file
    job is still at work, taken from its child runs.
 */
module WorkflowProgress {
  import opened Basics
  import opened Rounding
  import opened WorkflowRollup

  /** A number in the progress record of a child run; None stands for JSON null. */
  type Number = Option<real>

  /** A child run; `progress` is None when the stored value is not an object. */
  datatype ChildRun = ChildRun(repoId: string, finished: bool, started: real, progress: Option<map<string, Number>>)

  const COUNT_KEYS := ["total", "files_total", "changes"]

  predicate HasFileProgress(run: ChildRun) {
    run.progress.Some? && exists key <- COUNT_KEYS :: key in run.progress.value
  }

  function Truncate(x: real): int { if x >= 0.0 then x.Floor else -((-x).Floor) }

  /** `max(0, int(value or 0))` of the first key present. */
  function Count(raw: map<string, Number>, keys: seq<string>): nat {
    if keys == [] then 0
    else if keys[0] in raw then
      match raw[keys[0]] { case None => 0 case Some(x) => if Truncate(x) > 0 then Truncate(x) else 0 }
    else Count(raw, keys[1..])
  }

  /** The first key present counts, cut to a whole number and at least 0; null and a missing key count as 0. */
  lemma {:induction false} FirstKeyCounts(raw: map<string, Number>, keys: seq<string>)
    ensures (forall j :: 0 <= j < |keys| ==> keys[j] !in raw) ==> Count(raw, keys) == 0
    ensures forall k :: 0 <= k < |keys| && keys[k] in raw && (forall j :: 0 <= j < k ==> keys[j] !in raw) ==>
              match raw[keys[k]]
              case None => Count(raw, keys) == 0
              case Some(x) =>
                if x < 1.0 then Count(raw, keys) == 0
                else Count(raw, keys) as real <= x < Count(raw, keys) as real + 1.0
  {
    if keys != [] {
      FirstKeyCounts(raw, keys[1..]);
      assert forall j :: 0 < j < |keys| ==> keys[j] == keys[1..][j - 1];
    }
  }

  function Total(raw: map<string, Number>): nat { Count(raw, ["total", "files_total", "changes"]) }

  function Counted(raw: map<string, Number>): nat { Count(raw, ["completed", "files_processed", "processed"]) }

  function Clamp(x: real): real { if x < 0.0 then 0.0 else if x > 100.0 then 100.0 else x }

  function RawPercent(raw: map<string, Number>): real {
    var total := Total(raw);
    var counted := Counted(raw);
    var completed := if total > 0 && counted > total then total else counted;
    match if "percent" in raw then raw["percent"] else None
    case Some(x) => x
    case None => if total > 0 then completed as real * 100.0 / total as real else 0.0
  }

  /** Python's `max` by start time: the first of the latest. */
  function Latest(runs: seq<ChildRun>): ChildRun
    requires runs != []
  {
    if |runs| == 1 then runs[0]
    else
      var best := Latest(runs[..|runs| - 1]);
      if runs[|runs| - 1].started > best.started then runs[|runs| - 1] else best
  }

  /** The chosen run started no earlier than any other, and later than all before it in the list. */
  lemma {:induction false} LatestStarted(runs: seq<ChildRun>) returns (i: nat)
    requires runs != []
    ensures i < |runs| && runs[i] == Latest(runs)
    ensures forall j :: 0 <= j < |runs| ==> runs[j].started <= runs[i].started
    ensures forall j :: 0 <= j < i ==> runs[j].started < runs[i].started
  {
    var n := |runs| - 1;
    if n == 0 {
      i := 0;
    } else {
      i := LatestStarted(runs[..n]);
      if runs[n].started > runs[i].started { i := n; }
    }
  }

  predicate IsCandidate(run: ChildRun, finished: bool) { HasFileProgress(run) && run.finished == finished }

  function Candidates(runs: seq<ChildRun>, finished: bool): seq<ChildRun> {
    if runs == [] then []
    else
      Candidates(runs[..|runs| - 1], finished)
      + if IsCandidate(runs[|runs| - 1], finished) then [runs[|runs| - 1]] else []
  }

  /** The percentage `_workflow_child_run_progress` reports, from active child runs first. */
  function ChildPercent(runs: seq<ChildRun>): (r: Option<real>)
    ensures r.Some? ==> 0.0 <= r.value <= 100.0
  {
    var active := Candidates(runs, false);
    var candidates := if active != [] then active else Candidates(runs, true);
    if candidates == [] then None
    else
      var raw := Latest(candidates).progress;
      var percent := Clamp(RawPercent(if raw.Some? then raw.value else map[]));
      RoundPercent(percent);
      Some(Round2(percent))
  }

  /** While some child run with file progress is active, finished ones do not matter. */
  lemma ActiveRunDecides(runs: seq<ChildRun>, run: ChildRun)
    requires run.finished && Candidates(runs, false) != []
    ensures ChildPercent(runs + [run]) == ChildPercent(runs)
  {
    hide RawPercent, HasFileProgress, Latest, Round2;
    assert (runs + [run])[..|runs|] == runs;
    assert Candidates(runs + [run], false) == Candidates(runs, false);
  }

  /** A percentage given is reported, clamped; otherwise the share of the items completed. */
  lemma PercentReported(raw: map<string, Number>)
    ensures Round2(Clamp(RawPercent(raw)))
         == if "percent" in raw && raw["percent"].Some? then
              var percent := raw["percent"].value;
              if percent <= 0.0 then 0.0 else if percent >= 100.0 then 100.0 else Round2(percent)
            else if Total(raw) == 0 then 0.0
            else if Counted(raw) >= Total(raw) then 100.0
            else Round2(Counted(raw) as real * 100.0 / Total(raw) as real)
  {
    Fraction(raw);
    RoundWhole();
    hide Total, Counted, Round2;
  }

  lemma {:induction false} NoCandidates(runs: seq<ChildRun>, finished: bool)
    ensures Candidates(runs, finished) == [] <==> forall j :: 0 <= j < |runs| ==> !IsCandidate(runs[j], finished)
  {
    hide IsCandidate;
    if runs != [] {
      var n := |runs| - 1;
      NoCandidates(runs[..n], finished);
      assert forall j :: 0 <= j < n ==> runs[..n][j] == runs[j];
    }
  }

  lemma {:induction false} FirstOfLatest(runs: seq<ChildRun>, finished: bool) returns (i: nat)
    requires Candidates(runs, finished) != []
    ensures i < |runs| && IsCandidate(runs[i], finished) && Latest(Candidates(runs, finished)) == runs[i]
    ensures forall j :: 0 <= j < |runs| && IsCandidate(runs[j], finished) ==>
              runs[j].started <= runs[i].started && (j < i ==> runs[j].started < runs[i].started)
  {
    hide IsCandidate, Latest;
    var n := |runs| - 1;
    var before := Candidates(runs[..n], finished);
    LatestSnoc(before, runs[n]);
    assert Candidates(runs, finished) == if IsCandidate(runs[n], finished) then before + [runs[n]] else before;
    assert forall j :: 0 <= j < n ==> runs[..n][j] == runs[j];
    if before == [] {
      NoCandidates(runs[..n], finished);
      i := n;
    } else {
      i := FirstOfLatest(runs[..n], finished);
      if IsCandidate(runs[n], finished) && runs[n].started > runs[i].started { i := n; }
    }
  }

  lemma LatestSnoc(runs: seq<ChildRun>, run: ChildRun)
    ensures Latest(runs + [run])
         == if runs == [] || run.started > Latest(runs).started then run else Latest(runs)
  {
    assert (runs + [run])[..|runs|] == runs;
  }

  /** Nothing is reported exactly when no run has file progress.  Otherwise one run decides: an active one
      if there is any, and of its kind the first of those that started last.  It reports its own
      percentage when it has one, and else the share of its items completed. */
  lemma ChildPercentDecided(runs: seq<ChildRun>) returns (i: nat)
    ensures ChildPercent(runs).None? <==> forall j :: 0 <= j < |runs| ==> !HasFileProgress(runs[j])
    ensures ChildPercent(runs).Some? ==>
              && i < |runs| && HasFileProgress(runs[i])
              && (runs[i].finished ==> forall j :: 0 <= j < |runs| ==> !IsCandidate(runs[j], false))
              && (forall j :: 0 <= j < |runs| && IsCandidate(runs[j], runs[i].finished) ==>
                    runs[j].started <= runs[i].started && (j < i ==> runs[j].started < runs[i].started))
              && var raw := runs[i].progress.value;
                 ChildPercent(runs).value
                 == (if "percent" in raw && raw["percent"].Some? then
                       var percent := raw["percent"].value;
                       if percent <= 0.0 then 0.0 else if percent >= 100.0 then 100.0 else Round2(percent)
                     else if Total(raw) == 0 then 0.0
                     else if Counted(raw) >= Total(raw) then 100.0
                     else Round2(Counted(raw) as real * 100.0 / Total(raw) as real))
  {
    i := 0;
    hide Latest, Candidates, RawPercent, Total, Counted, Round2, HasFileProgress;
    NoCandidates(runs, false);
    NoCandidates(runs, true);
    assert forall j :: 0 <= j < |runs| && HasFileProgress(runs[j]) ==> IsCandidate(runs[j], runs[j].finished);
    if ChildPercent(runs).Some? {
      i := FirstOfLatest(runs, Candidates(runs, false) == []);
      HasProgress(runs[i]);
      PercentReported(runs[i].progress.value);
    }
  }

  lemma HasProgress(run: ChildRun)
    requires HasFileProgress(run)
    ensures run.progress.Some?
  {
  }

  /** With a single run that has file progress, that run is the one looked at. */
  lemma OnlyRun(run: ChildRun)
    requires run.progress.Some? && HasFileProgress(run)
    ensures ChildPercent([run]) == Some(Round2(Clamp(RawPercent(run.progress.value))))
  {
    hide RawPercent, Round2, HasFileProgress;
    OnlyCandidate(run);
    hide Candidates;
    assert Latest([run]) == run;
  }

  lemma OnlyCandidate(run: ChildRun)
    requires HasFileProgress(run)
    ensures Candidates([run], run.finished) == [run] && Candidates([run], !run.finished) == []
  {
    hide HasFileProgress;
    assert [run][..0] == [];
    assert Candidates([], true) == Candidates([], false) == [];
  }

  lemma RoundWhole()
    ensures Round2(0.0) == 0.0 && Round2(100.0) == 100.0
  {
    RoundInteger(0);
    RoundInteger(10000);
  }

  lemma Fraction(raw: map<string, Number>)
    ensures var total := Total(raw);
            var counted := Counted(raw);
            total > 0 ==>
              && (counted >= total ==> total as real * 100.0 / total as real == 100.0)
              && (counted < total ==> 0.0 <= counted as real * 100.0 / total as real <= 100.0)
  {
    hide Total, Counted;
    var total := Total(raw);
    var counted := Counted(raw);
    if total > 0 {
      Quotient(total as real, total as real);
      if counted < total { Quotient(counted as real, total as real); }
    }
  }

  lemma RoundPercent(x: real)
    requires 0.0 <= x <= 100.0
    ensures 0.0 <= Round2(x) <= 100.0
  {
    Round2Monotone(0.0, x);
    Round2Monotone(x, 100.0);
  }

  function RunsOf(runs: seq<ChildRun>, repoId: string): seq<ChildRun> {
    if runs == [] then []
    else RunsOf(runs[..|runs| - 1], repoId) + if runs[|runs| - 1].repoId == repoId then [runs[|runs| - 1]] else []
  }

  /** `at` lists the positions of the runs of a repository, in order and without omission. */
  ghost predicate OwnAt(runs: seq<ChildRun>, repoId: string, at: seq<nat>) {
    && (forall k :: 0 <= k < |at| ==> at[k] < |runs| && runs[at[k]].repoId == repoId)
    && (forall k, m :: 0 <= k < m < |at| ==> at[k] < at[m])
    && (forall j :: 0 <= j < |runs| && runs[j].repoId == repoId ==> exists k :: 0 <= k < |at| && at[k] == j)
  }

  lemma OwnAtSnoc(runs: seq<ChildRun>, repoId: string, at: seq<nat>)
    requires runs != [] && OwnAt(runs[..|runs| - 1], repoId, at)
    ensures OwnAt(runs, repoId, if runs[|runs| - 1].repoId == repoId then at + [|runs| - 1] else at)
  {
    var n := |runs| - 1;
    var after := if runs[n].repoId == repoId then at + [n] else at;
    assert forall j :: 0 <= j < n ==> runs[..n][j] == runs[j];
    forall j | 0 <= j < |runs| && runs[j].repoId == repoId ensures exists k :: 0 <= k < |after| && after[k] == j {
      if j < n {
        assert runs[..n][j].repoId == repoId;
        var k :| 0 <= k < |at| && at[k] == j;
        assert after[k] == j;
      } else {
        assert after[|at|] == j;
      }
    }
  }

  lemma NoRuns(repoId: string)
    ensures RunsOf([], repoId) == [] && OwnAt([], repoId, [])
  {
  }

  lemma RunsOfSnoc(runs: seq<ChildRun>, repoId: string)
    requires runs != []
    ensures var n := |runs| - 1;
            RunsOf(runs, repoId)
            == if runs[n].repoId == repoId then RunsOf(runs[..n], repoId) + [runs[n]] else RunsOf(runs[..n], repoId)
  {
  }

  /** The runs looked at for a repository are exactly its own, in their order. */
  lemma {:induction false} OwnRuns(runs: seq<ChildRun>, repoId: string) returns (at: seq<nat>)
    ensures OwnAt(runs, repoId, at) && |at| == |RunsOf(runs, repoId)|
    ensures forall k :: 0 <= k < |at| ==> at[k] < |runs| && runs[at[k]] == RunsOf(runs, repoId)[k]
  {
    at := [];
    hide *;
    if runs == [] {
      NoRuns(repoId);
    } else {
      var n := |runs| - 1;
      var init := OwnRuns(runs[..n], repoId);
      OwnAtSnoc(runs, repoId, init);
      RunsOfSnoc(runs, repoId);
      at := if runs[n].repoId == repoId then init + [n] else init;
    }
  }

  lemma {:induction false} RunsOfConcat(a: seq<ChildRun>, b: seq<ChildRun>, repoId: string)
    ensures RunsOf(a + b, repoId) == RunsOf(a, repoId) + RunsOf(b, repoId)
  {
    if b == [] {
      assert a + b == a;
    } else {
      var init := b[..|b| - 1];
      RunsOfConcat(a, init, repoId);
      assert (a + b)[..|a + b| - 1] == a + init;
    }
  }

  predicate IsActiveFileJob(job: Job, repoId: string) {
    job.repoId == repoId && !Terminal(job.status) && JobPhase(job.jobType) == Files
  }

  predicate HasActiveFileJob(jobs: seq<Job>, repoId: string) {
    exists job <- jobs :: IsActiveFileJob(job, repoId)
  }

  /** What one repository adds: nothing, or the share of its file job that is done. */
  function Share(jobs: seq<Job>, runs: seq<ChildRun>, repoId: string): (share: real)
    ensures 0.0 <= share <= 1.0
    ensures share > 0.0 ==> HasActiveFileJob(jobs, repoId)
  {
    if !HasActiveFileJob(jobs, repoId) then 0.0 else
    match ChildPercent(RunsOf(runs, repoId))
    case None => 0.0
    case Some(percent) => percent / 100.0
  }

  /** A child run of another repository, wherever it stands in the list, changes nothing for this one. */
  lemma OtherRunsDoNotMatter(jobs: seq<Job>, a: seq<ChildRun>, run: ChildRun, b: seq<ChildRun>, repoId: string)
    requires run.repoId != repoId
    ensures Share(jobs, a + [run] + b, repoId) == Share(jobs, a + b, repoId)
  {
    RunsOfConcat(a + [run], b, repoId);
    RunsOfConcat(a, [run], repoId);
    RunsOfConcat(a, b, repoId);
    assert [run][..0] == [] && RunsOf([], repoId) == [];
    assert RunsOf(a, repoId) + [] == RunsOf(a, repoId);
  }

  /** A repository adds nothing without an open file job or without a child run of its own that has file progress.
      Otherwise one of its own child runs decides, as in `ChildPercentDecided`. */
  lemma ShareDecided(jobs: seq<Job>, runs: seq<ChildRun>, repoId: string) returns (i: nat)
    ensures Works(jobs, repoId) && Reports(runs, repoId) ==>
              && Decides(runs, repoId, i)
              && ChildPercent([runs[i]]).Some? && Share(jobs, runs, repoId) == ChildPercent([runs[i]]).value / 100.0
    ensures !(Works(jobs, repoId) && Reports(runs, repoId)) ==> Share(jobs, runs, repoId) == 0.0
  {
    i := 0;
    var own := RunsOf(runs, repoId);
    var at := OwnRuns(runs, repoId);
    WorksExactly(jobs, repoId);
    ReportsExactly(runs, repoId, at);
    hide *;
    var k := Decider(own);
    ShareOfPercent(jobs, runs, repoId);
    if ChildPercent(own).Some? {
      i := at[k];
      DecidesAmong(runs, repoId, at, k);
    }
  }

  /** Some file job of the repository is not finished. */
  ghost predicate Works(jobs: seq<Job>, repoId: string) {
    exists j :: 0 <= j < |jobs| && jobs[j].repoId == repoId && JobPhase(jobs[j].jobType) == Files
                && !jobs[j].status.Succeeded? && !jobs[j].status.Cancelled? && !jobs[j].status.Dead?
  }

  /** Some child run of the repository has file progress. */
  ghost predicate Reports(runs: seq<ChildRun>, repoId: string) {
    exists k :: 0 <= k < |runs| && runs[k].repoId == repoId && HasFileProgress(runs[k])
  }

  /** Child run `i` of the repository: active if one with file progress is, and the first of those that started last. */
  ghost predicate Decides(runs: seq<ChildRun>, repoId: string, i: nat) {
    && i < |runs| && runs[i].repoId == repoId && HasFileProgress(runs[i])
    && (forall k :: 0 <= k < |runs| && runs[k].repoId == repoId && HasFileProgress(runs[k]) ==>
          && (runs[i].finished ==> runs[k].finished)
          && (runs[k].finished == runs[i].finished ==>
                runs[k].started <= runs[i].started && (k < i ==> runs[k].started < runs[i].started)))
  }

  lemma WorksExactly(jobs: seq<Job>, repoId: string)
    ensures Works(jobs, repoId) <==> HasActiveFileJob(jobs, repoId)
  {
    if HasActiveFileJob(jobs, repoId) {
      var job :| job in jobs && IsActiveFileJob(job, repoId);
      var j :| 0 <= j < |jobs| && jobs[j] == job;
    } else {
      assert forall j :: 0 <= j < |jobs| ==> jobs[j] in jobs && !IsActiveFileJob(jobs[j], repoId);
    }
  }

  lemma ReportsExactly(runs: seq<ChildRun>, repoId: string, at: seq<nat>)
    requires OwnAt(runs, repoId, at) && |at| == |RunsOf(runs, repoId)|
    requires forall k :: 0 <= k < |at| ==> at[k] < |runs| && runs[at[k]] == RunsOf(runs, repoId)[k]
    ensures Reports(runs, repoId)
       <==> exists k :: 0 <= k < |RunsOf(runs, repoId)| && HasFileProgress(RunsOf(runs, repoId)[k])
  {
    hide HasFileProgress, RunsOf;
    if Reports(runs, repoId) {
      var j :| 0 <= j < |runs| && runs[j].repoId == repoId && HasFileProgress(runs[j]);
      var k :| 0 <= k < |at| && at[k] == j;
      assert HasFileProgress(RunsOf(runs, repoId)[k]);
    }
    if k :| 0 <= k < |at| && HasFileProgress(RunsOf(runs, repoId)[k]) {
      assert HasFileProgress(runs[at[k]]);
    }
  }

  lemma Decider(own: seq<ChildRun>) returns (k: nat)
    ensures ChildPercent(own).Some? <==> exists j :: 0 <= j < |own| && HasFileProgress(own[j])
    ensures ChildPercent(own).Some? ==>
              && k < |own| && HasFileProgress(own[k]) && ChildPercent(own) == ChildPercent([own[k]])
              && (own[k].finished ==> forall j :: 0 <= j < |own| ==> !IsCandidate(own[j], false))
              && (forall j :: 0 <= j < |own| && IsCandidate(own[j], own[k].finished) ==>
                    own[j].started <= own[k].started && (j < k ==> own[j].started < own[k].started))
  {
    hide *;
    k := ChildPercentDecided(own);
    if ChildPercent(own).Some? {
      var j := ChildPercentDecided([own[k]]);
      assert HasFileProgress([own[k]][0]);
    }
  }

  lemma ShareOfPercent(jobs: seq<Job>, runs: seq<ChildRun>, repoId: string)
    ensures var child := ChildPercent(RunsOf(runs, repoId));
            Share(jobs, runs, repoId)
            == if HasActiveFileJob(jobs, repoId) && child.Some? then child.value / 100.0 else 0.0
  {
  }

  lemma DecidesAmong(runs: seq<ChildRun>, repoId: string, at: seq<nat>, k: nat)
    requires OwnAt(runs, repoId, at) && |at| == |RunsOf(runs, repoId)|
    requires forall k :: 0 <= k < |at| ==> at[k] < |runs| && runs[at[k]] == RunsOf(runs, repoId)[k]
    requires var own := RunsOf(runs, repoId);
             && k < |own| && HasFileProgress(own[k])
             && (own[k].finished ==> forall j :: 0 <= j < |own| ==> !IsCandidate(own[j], false))
             && (forall j :: 0 <= j < |own| && IsCandidate(own[j], own[k].finished) ==>
                   own[j].started <= own[k].started && (j < k ==> own[j].started < own[k].started))
    ensures Decides(runs, repoId, at[k])
  {
    hide HasFileProgress, RunsOf;
    var own, i := RunsOf(runs, repoId), at[k];
    forall r: nat | r < |runs| && runs[r].repoId == repoId && HasFileProgress(runs[r])
      ensures && (runs[i].finished ==> runs[r].finished)
              && (runs[r].finished == runs[i].finished ==>
                    runs[r].started <= runs[i].started && (r < i ==> runs[r].started < runs[i].started))
    {
      var j :| 0 <= j < |at| && at[j] == r;
      assert runs[r] == own[j];
    }
  }

  /** The shares are summed up, one for each repository listed. */
  lemma {:induction false} PartialAdds(a: seq<string>, b: seq<string>, jobs: seq<Job>, runs: seq<ChildRun>)
    ensures Partial(a + b, jobs, runs) == Partial(a, jobs, runs) + Partial(b, jobs, runs)
    ensures forall repoId :: Partial([repoId], jobs, runs) == Share(jobs, runs, repoId)
  {
    hide Share;
    forall repoId ensures Partial([repoId], jobs, runs) == Share(jobs, runs, repoId) {
      assert [repoId][..0] == [];
    }
    if b == [] {
      assert a + b == a;
    } else {
      var init := b[..|b| - 1];
      PartialAdds(a, init, jobs, runs);
      assert (a + b)[..|a + b| - 1] == a + init;
    }
  }

  function Partial(repoIds: seq<string>, jobs: seq<Job>, runs: seq<ChildRun>): (partial: real)
    ensures partial >= 0.0
  {
    if repoIds == [] then 0.0
    else Partial(repoIds[..|repoIds| - 1], jobs, runs) + Share(jobs, runs, repoIds[|repoIds| - 1])
  }

  function MinReal(a: real, b: real): real { if a <= b then a else b }

  function Percent(repoIds: seq<string>, jobs: seq<Job>, cleanup: seq<CleanupRow>, runs: seq<ChildRun>): real {
    var total := |RunStatuses(jobs, cleanup)|;
    var done := Completed(RunStatuses(jobs, cleanup)) as real + Partial(repoIds, jobs, runs);
    if total == 0 then 0.0 else Round2(MinReal(total as real, done) * 100.0 / total as real)
  }

  /** The progress part of `_handle_workflow_run_status`. */
  method RunProgress(repoIds: seq<string>, jobs: seq<Job>, cleanup: seq<CleanupRow>, runs: seq<ChildRun>)
      returns (completed: nat, total: nat, percent: real)
    ensures total == |jobs| + |cleanup| && completed == Completed(RunStatuses(jobs, cleanup))
    ensures percent == Percent(repoIds, jobs, cleanup, runs)
  {
    hide HasActiveFileJob, ChildPercent, RunsOf, Completed, Round2;
    var statuses := RunStatuses(jobs, cleanup);
    completed := Completed(statuses);
    total := |statuses|;
    var partial := 0.0;
    var i := 0;
    while i < |repoIds|
      invariant i <= |repoIds| && partial == Partial(repoIds[..i], jobs, runs)
    {
      assert repoIds[..i + 1][..i] == repoIds[..i];
      if HasActiveFileJob(jobs, repoIds[i]) {
        var child := ChildPercent(RunsOf(runs, repoIds[i]));
        if child.Some? { partial := partial + child.value / 100.0; }
      }
      i := i + 1;
    }
    assert repoIds[..i] == repoIds;
    percent := 0.0;
    if total > 0 { percent := Round2(MinReal(total as real, completed as real + partial) * 100.0 / total as real); }
  }

  // ---------------------------------------------------------------- the clamp never binds

  /** Jobs of the given repositories that are not terminal. */
  ghost function Open(jobs: seq<Job>, repoIds: seq<string>): nat {
    if jobs == [] then 0
    else Open(jobs[..|jobs| - 1], repoIds)
         + if !Terminal(jobs[|jobs| - 1].status) && jobs[|jobs| - 1].repoId in repoIds then 1 else 0
  }

  /** A repository with an open job, not counted before, adds at least one. */
  lemma {:induction false} OpenGrows(jobs: seq<Job>, repoIds: seq<string>, repoId: string)
    requires repoId !in repoIds
    ensures Open(jobs, repoIds + [repoId]) >= Open(jobs, repoIds) + if HasActiveFileJob(jobs, repoId) then 1 else 0
  {
    if jobs != [] {
      var init := jobs[..|jobs| - 1];
      OpenGrows(init, repoIds, repoId);
      assert jobs == init + [jobs[|jobs| - 1]];
    }
  }

  lemma {:induction false} PartialWithinOpen(repoIds: seq<string>, jobs: seq<Job>, runs: seq<ChildRun>)
    requires Distinct(repoIds)
    ensures Partial(repoIds, jobs, runs) <= Open(jobs, repoIds) as real
  {
    if repoIds != [] {
      var init, repoId := repoIds[..|repoIds| - 1], repoIds[|repoIds| - 1];
      PartialWithinOpen(init, jobs, runs);
      OpenGrows(jobs, init, repoId);
      assert repoIds == init + [repoId];
    }
  }

  lemma {:induction false} OpenAndTerminal(jobs: seq<Job>, repoIds: seq<string>)
    ensures Open(jobs, repoIds) + Completed(JobStatuses(jobs)) <= |jobs|
  {
    if jobs != [] {
      OpenAndTerminal(jobs[..|jobs| - 1], repoIds);
      assert JobStatuses(jobs)[..|jobs| - 1] == JobStatuses(jobs[..|jobs| - 1]);
    }
  }

  lemma {:induction false} CompletedBound(statuses: seq<Status>)
    ensures Completed(statuses) <= |statuses|
  {
    if statuses != [] { CompletedBound(statuses[..|statuses| - 1]); }
  }

  /** Over distinct repositories, completed + partial never exceeds the total. */
  lemma ClampNeverBinds(repoIds: seq<string>, jobs: seq<Job>, cleanup: seq<CleanupRow>, runs: seq<ChildRun>)
    requires Distinct(repoIds)
    ensures Completed(RunStatuses(jobs, cleanup)) as real + Partial(repoIds, jobs, runs)
            <= |RunStatuses(jobs, cleanup)| as real
  {
    PartialWithinOpen(repoIds, jobs, runs);
    OpenAndTerminal(jobs, repoIds);
    CompletedConcat(JobStatuses(jobs), CleanupStatuses(cleanup));
    CompletedBound(CleanupStatuses(cleanup));
  }

  /** What the percentage means: nothing to do is 0, all finished is 100, nothing finished or begun is 0, and over
      distinct repositories it is the completed jobs plus the shares, in percent of all, to two decimals. */
  lemma PercentMeans(repoIds: seq<string>, jobs: seq<Job>, cleanup: seq<CleanupRow>, runs: seq<ChildRun>)
    ensures var percent, total := Percent(repoIds, jobs, cleanup, runs), |jobs| + |cleanup|;
            var completed, shares := Completed(RunStatuses(jobs, cleanup)), Partial(repoIds, jobs, runs);
            && (total == 0 ==> percent == 0.0)
            && (total > 0 && completed == total ==> percent == 100.0)
            && (completed == total <==>
                  forall s <- RunStatuses(jobs, cleanup) :: s.Succeeded? || s.Cancelled? || s.Dead?)
            && (completed == 0 && shares == 0.0 ==> percent == 0.0)
            && 0.0 <= percent <= 100.0
            && (total > 0 && Distinct(repoIds) ==>
                  var exact := (completed as real + shares) * 100.0 / total as real;
                  exact - 0.005 <= percent <= exact + 0.005)
  {
    AllCompleted(RunStatuses(jobs, cleanup));
    hide Completed, Partial, Round2, Distinct;
    var total := |RunStatuses(jobs, cleanup)|;
    var completed, shares := Completed(RunStatuses(jobs, cleanup)), Partial(repoIds, jobs, runs);
    if Distinct(repoIds) { ClampNeverBinds(repoIds, jobs, cleanup, runs); }
    if total > 0 {
      var done := MinReal(total as real, completed as real + shares);
      PercentOf(done, total as real);
    }
  }

  /** With a repository listed twice it can: one running job whose child run is complete counts for two. */
  lemma RepeatedRepositoryOvershoots(job: Job, run: ChildRun)
    requires job.status.Running? && job.jobType.SyncLibraryFull? && run.repoId == job.repoId && !run.finished
    requires run.progress.Some? && HasFileProgress(run)
    requires RawPercent(run.progress.value) == 100.0
    ensures Completed(RunStatuses([job], [])) as real + Partial([job.repoId, job.repoId], [job], [run])
            > |RunStatuses([job], [])| as real
  {
    WholeShare(job, run);
    hide Share;
    var r := job.repoId;
    assert [r, r][..1] == [r] && [r][..0] == [];
    assert Partial([r], [job], [run]) == Share([job], [run], r);
    assert Partial([r, r], [job], [run]) == 2.0;
  }

  lemma WholeShare(job: Job, run: ChildRun)
    requires job.status.Running? && job.jobType.SyncLibraryFull? && run.repoId == job.repoId && !run.finished
    requires run.progress.Some? && HasFileProgress(run)
    requires RawPercent(run.progress.value) == 100.0
    ensures Share([job], [run], job.repoId) == 1.0
  {
    OnlyRun(run);
    RoundWhole();
    RunsOfOne(run);
    SyncIsFileJob(job);
    hide ChildPercent, RawPercent, HasFileProgress, Round2, HasActiveFileJob, RunsOf;
  }

  lemma SyncIsFileJob(job: Job)
    requires job.status.Running? && job.jobType.SyncLibraryFull?
    ensures HasActiveFileJob([job], job.repoId)
  {
    assert [job][0] in [job] && IsActiveFileJob(job, job.repoId);
  }

  lemma RunsOfOne(run: ChildRun)
    ensures RunsOf([run], run.repoId) == [run]
  {
    assert [run][..0] == [] && RunsOf([], run.repoId) == [];
  }

  // ---------------------------------------------------------------- progress never goes back

  function Finish(jobs: seq<Job>, k: nat, status: Status): seq<Job>
    requires k < |jobs|
  {
    jobs[k := jobs[k].(status := status)]
  }

  lemma {:induction false} CompletedUpdate(statuses: seq<Status>, k: nat, s: Status)
    requires k < |statuses|
    ensures Completed(statuses[k := s])
         == Completed(statuses) - (if Terminal(statuses[k]) then 1 else 0) + if Terminal(s) then 1 else 0
  {
    var n := |statuses| - 1;
    if k == n {
      assert statuses[k := s][..n] == statuses[..n];
    } else {
      assert statuses[k := s][..n] == statuses[..n][k := s];
      CompletedUpdate(statuses[..n], k, s);
    }
  }

  /** Finishing a job changes no repository's share but its own. */
  lemma ShareOfOthers(jobs: seq<Job>, runs: seq<ChildRun>, k: nat, s: Status, repoId: string)
    requires k < |jobs| && Terminal(s)
    requires jobs[k].repoId != repoId || Terminal(jobs[k].status)
    ensures Share(Finish(jobs, k, s), runs, repoId) == Share(jobs, runs, repoId)
  {
    var after := Finish(jobs, k, s);
    if HasActiveFileJob(jobs, repoId) {
      var i :| 0 <= i < |jobs| && IsActiveFileJob(jobs[i], repoId);
      assert after[i] == jobs[i];
    }
    if HasActiveFileJob(after, repoId) {
      var i :| 0 <= i < |after| && IsActiveFileJob(after[i], repoId);
      assert after[i] == jobs[i];
    }
  }

  lemma {:induction false} PartialAfterFinish(repoIds: seq<string>, jobs: seq<Job>, runs: seq<ChildRun>, k: nat,
                                              s: Status)
    requires k < |jobs| && Terminal(s) && Distinct(repoIds)
    ensures Partial(repoIds, Finish(jobs, k, s), runs)
         >= Partial(repoIds, jobs, runs) - if Terminal(jobs[k].status) || jobs[k].repoId !in repoIds then 0.0 else 1.0
  {
    hide Share;
    if repoIds != [] {
      var init, repoId := repoIds[..|repoIds| - 1], repoIds[|repoIds| - 1];
      PartialAfterFinish(init, jobs, runs, k, s);
      assert repoIds == init + [repoId];
      if jobs[k].repoId != repoId || Terminal(jobs[k].status) { ShareOfOthers(jobs, runs, k, s, repoId); }
    }
  }

  lemma PercentMonotone(total: nat, a: real, b: real)
    requires total > 0 && a <= b
    ensures Round2(MinReal(total as real, a) * 100.0 / total as real)
         <= Round2(MinReal(total as real, b) * 100.0 / total as real)
  {
    var x, y, t := MinReal(total as real, a) * 100.0, MinReal(total as real, b) * 100.0, total as real;
    assert x <= y;
    assert (y - x) / t >= 0.0;
    assert y / t == x / t + (y - x) / t;
    Round2Monotone(x / t, y / t);
  }

  /** Moving one job to a terminal status, all else fixed, never lowers the percentage. */
  lemma FinishingNeverLowers(repoIds: seq<string>, jobs: seq<Job>, cleanup: seq<CleanupRow>, runs: seq<ChildRun>,
                             k: nat, s: Status)
    requires Distinct(repoIds) && k < |jobs| && Terminal(s)
    ensures Percent(repoIds, Finish(jobs, k, s), cleanup, runs) >= Percent(repoIds, jobs, cleanup, runs)
  {
    hide Partial, Completed, Round2, Min;
    var after := Finish(jobs, k, s);
    assert RunStatuses(after, cleanup) == RunStatuses(jobs, cleanup)[k := s];
    CompletedUpdate(RunStatuses(jobs, cleanup), k, s);
    PartialAfterFinish(repoIds, jobs, runs, k, s);
    PercentMonotone(|RunStatuses(jobs, cleanup)|,
                    Completed(RunStatuses(jobs, cleanup)) as real + Partial(repoIds, jobs, runs),
                    Completed(RunStatuses(after, cleanup)) as real + Partial(repoIds, after, runs));
  }
}
