/** How the dashboard rolls the jobs of a workflow up into phases, one status, and one percentage. */
module WorkflowRollup {
  import opened Basics
  import opened Rounding

  /** A job status as stored; any text outside the enumeration is `Unknown`. */
  datatype Status = Queued | Running | Succeeded | Retrying | Dead | Cancelled | Unknown(text: string)

  /** The status of a row of the cleanup outbox. */
  datatype CleanupRow =
    | CleanupDead
    | CleanupCompleted
    | CleanupCancelled
    | CleanupSuperseded
    | CleanupOpen(text: string)

  /** The status shown for a run or a phase. */
  datatype Shown = IsQueued | IsRunning | IsRetrying | IsFailed | IsSucceeded | IsCancelled | IsPaused

  datatype PhaseName = Discovery | Dataset | Files | Parsing | Cleanup | OpenWebUi

  datatype JobType =
    | DiscoverLibraries | EnsureRagflowDataset | RefreshDatasetSettings | SyncLibraryFull | SyncLibraryDelta
    | ClassifyFile | PrepareIngestionArtifact | UploadFile | DeleteFile | ParseDocuments | ReparseDocuments
    | CheckParseStatus | ProcessCleanupOutbox | ReconcileLibrary | ReconcileRagflowDataset | SyncOpenWebUi
    | OtherType(text: string)

  /** `pausing`: a pause was requested and no cancellation. */
  datatype Job = Job(id: int, repoId: string, jobType: JobType, status: Status, pausing: bool)

  datatype Phase = Phase(name: PhaseName, status: Shown, percent: real, completed: nat, total: nat)

  predicate Terminal(status: Status) { status.Succeeded? || status.Cancelled? || status.Dead? }

  // ---------------------------------------------------------------- statuses

  function Aggregate(statuses: seq<Status>): Shown {
    if statuses == [] then IsQueued
    else if Running in statuses then IsRunning
    else if Retrying in statuses then IsRetrying
    else if Queued in statuses then IsQueued
    else if Dead in statuses then IsFailed
    else if forall s <- statuses :: s == Cancelled then IsCancelled
    else if forall s <- statuses :: s == Succeeded || s == Cancelled then IsSucceeded
    else IsQueued
  }

  function PhaseStatus(statuses: seq<Status>, paused: bool): Shown {
    if paused then IsPaused
    else if Running in statuses then IsRunning
    else if Retrying in statuses then IsRetrying
    else if Queued in statuses then IsQueued
    else if Dead in statuses then IsFailed
    else if forall s <- statuses :: s == Cancelled then IsCancelled
    else IsSucceeded
  }

  function CleanupStatus(row: CleanupRow): Status {
    match row
    case CleanupDead => Dead
    case CleanupCompleted | CleanupCancelled | CleanupSuperseded => Succeeded
    case CleanupOpen(_) => Retrying
  }

  function CleanupStatuses(cleanup: seq<CleanupRow>): seq<Status> {
    seq(|cleanup|, i requires 0 <= i < |cleanup| => CleanupStatus(cleanup[i]))
  }

  function JobStatuses(jobs: seq<Job>): seq<Status> {
    seq(|jobs|, i requires 0 <= i < |jobs| => jobs[i].status)
  }

  /** What the run as a whole is made of: its jobs' statuses, then those of its cleanup rows. */
  function RunStatuses(jobs: seq<Job>, cleanup: seq<CleanupRow>): seq<Status> {
    JobStatuses(jobs) + CleanupStatuses(cleanup)
  }

  function Completed(statuses: seq<Status>): nat {
    if statuses == [] then 0
    else Completed(statuses[..|statuses| - 1]) + if Terminal(statuses[|statuses| - 1]) then 1 else 0
  }

  /** The statuses counted as completed are those of finished jobs, whatever their outcome. */
  lemma {:induction false} CompletedCounts(statuses: seq<Status>)
    ensures Completed(statuses)
         == |set i | 0 <= i < |statuses|
                     && (statuses[i].Succeeded? || statuses[i].Cancelled? || statuses[i].Dead?)|
  {
    if statuses != [] {
      var n := |statuses| - 1;
      var init := statuses[..n];
      CompletedCounts(init);
      var before := set i | 0 <= i < n && (init[i].Succeeded? || init[i].Cancelled? || init[i].Dead?);
      var all := set i | 0 <= i < |statuses|
                         && (statuses[i].Succeeded? || statuses[i].Cancelled? || statuses[i].Dead?);
      assert forall i :: 0 <= i < n ==> init[i] == statuses[i];
      assert all == before + if Terminal(statuses[n]) then {n} else {};
    }
  }

  lemma {:induction false} AllCompleted(statuses: seq<Status>)
    ensures Completed(statuses) <= |statuses|
    ensures Completed(statuses) == |statuses|
       <==> forall i :: 0 <= i < |statuses| ==>
              statuses[i].Succeeded? || statuses[i].Cancelled? || statuses[i].Dead?
  {
    if statuses != [] { AllCompleted(statuses[..|statuses| - 1]); }
  }

  // ---------------------------------------------------------------- phases

  const PHASES := [Discovery, Dataset, Files, Parsing, Cleanup, OpenWebUi]

  function JobPhase(jobType: JobType): PhaseName {
    match jobType
    case DiscoverLibraries => Discovery
    case EnsureRagflowDataset | RefreshDatasetSettings => Dataset
    case ParseDocuments | ReparseDocuments | CheckParseStatus => Parsing
    case ProcessCleanupOutbox => Cleanup
    case SyncOpenWebUi => OpenWebUi
    case _ => Files  // the file jobs, and every type not listed
  }

  /** The jobs of one phase, in the order of `jobs`. */
  function JobsOf(jobs: seq<Job>, name: PhaseName): seq<Job> {
    if jobs == [] then []
    else JobsOf(jobs[..|jobs| - 1], name)
         + if JobPhase(jobs[|jobs| - 1].jobType) == name then [jobs[|jobs| - 1]] else []
  }

  function PhaseStatuses(jobs: seq<Job>, cleanup: seq<CleanupRow>, name: PhaseName): seq<Status> {
    JobStatuses(JobsOf(jobs, name)) + if name == Cleanup then CleanupStatuses(cleanup) else []
  }

  predicate PhasePaused(jobs: seq<Job>) {
    && jobs != []
    && (forall job <- jobs :: Terminal(job.status) || job.pausing)
    && (exists job <- jobs :: job.pausing)
  }

  function MakePhase(name: PhaseName, statuses: seq<Status>, paused: bool): (phase: Phase)
    requires statuses != []
    ensures phase.total == |statuses| && phase.completed == Completed(statuses)
  {
    var completed := Completed(statuses);
    var total := |statuses|;
    Phase(name, PhaseStatus(statuses, paused), Round2(completed as real * 100.0 / total as real), completed, total)
  }

  /** The phases named by `names` that have anything to show. */
  function PhaseList(jobs: seq<Job>, cleanup: seq<CleanupRow>, names: seq<PhaseName>): seq<Phase> {
    if names == [] then [] else
    var name := names[|names| - 1];
    var statuses := PhaseStatuses(jobs, cleanup, name);
    PhaseList(jobs, cleanup, names[..|names| - 1])
    + if statuses == [] then [] else [MakePhase(name, statuses, PhasePaused(JobsOf(jobs, name)))]
  }

  /** The grouping loop of `_workflow_phases`. */
  method GroupByPhase(jobs: seq<Job>) returns (byPhase: map<PhaseName, seq<Job>>)
    ensures forall name :: JobsOf(jobs, name) == if name in byPhase then byPhase[name] else []
  {
    byPhase := map[];
    var i := 0;
    while i < |jobs|
      invariant i <= |jobs|
      invariant forall name :: JobsOf(jobs[..i], name) == if name in byPhase then byPhase[name] else []
    {
      var name := JobPhase(jobs[i].jobType);
      assert jobs[..i + 1][..i] == jobs[..i];
      byPhase := byPhase[name := (if name in byPhase then byPhase[name] else []) + [jobs[i]]];
      i := i + 1;
    }
    assert jobs[..i] == jobs;
  }

  /** `_workflow_phases`: groups the jobs in one pass, then goes through the phases in their fixed order. */
  method Phases(jobs: seq<Job>, cleanup: seq<CleanupRow>) returns (phases: seq<Phase>)
    ensures phases == PhaseList(jobs, cleanup, PHASES)
  {
    hide JobsOf, MakePhase, PhaseList, PhasePaused, PhaseStatuses, JobStatuses, CleanupStatuses;
    var byPhase := GroupByPhase(jobs);
    phases := [];
    PhaseListSnoc(jobs, cleanup, [], PHASES[0]);
    var i := 0;
    while i < |PHASES|
      invariant i <= |PHASES|
      invariant phases == PhaseList(jobs, cleanup, PHASES[..i])
    {
      var name := PHASES[i];
      assert PHASES[..i + 1] == PHASES[..i] + [name];
      PhaseListSnoc(jobs, cleanup, PHASES[..i], name);
      var phaseJobs := if name in byPhase then byPhase[name] else [];
      var statuses := JobStatuses(phaseJobs) + if name == Cleanup then CleanupStatuses(cleanup) else [];
      StatusesOfPhase(jobs, cleanup, name);
      if statuses != [] {
        phases := phases + [MakePhase(name, statuses, PhasePaused(phaseJobs))];
      }
      i := i + 1;
    }
    assert PHASES[..i] == PHASES;
  }

  lemma StatusesOfPhase(jobs: seq<Job>, cleanup: seq<CleanupRow>, name: PhaseName)
    ensures PhaseStatuses(jobs, cleanup, name)
         == JobStatuses(JobsOf(jobs, name)) + if name == Cleanup then CleanupStatuses(cleanup) else []
  {
  }

  lemma PhaseListSnoc(jobs: seq<Job>, cleanup: seq<CleanupRow>, names: seq<PhaseName>, name: PhaseName)
    ensures PhaseList(jobs, cleanup, []) == []
    ensures var statuses := PhaseStatuses(jobs, cleanup, name);
            PhaseList(jobs, cleanup, names + [name])
            == PhaseList(jobs, cleanup, names)
               + if statuses == [] then [] else [MakePhase(name, statuses, PhasePaused(JobsOf(jobs, name)))]
  {
    hide PhaseStatuses, MakePhase, PhasePaused, JobsOf;
    assert (names + [name])[..|names|] == names;
  }

  // ---------------------------------------------------------------- counts are conserved

  function SumTotals(phases: seq<Phase>): nat {
    if phases == [] then 0 else SumTotals(phases[..|phases| - 1]) + phases[|phases| - 1].total
  }

  function SumCompleted(phases: seq<Phase>): nat {
    if phases == [] then 0 else SumCompleted(phases[..|phases| - 1]) + phases[|phases| - 1].completed
  }

  /** How many statuses fall to the phases in `names`, and how many of them are terminal. */
  function CountOver(jobs: seq<Job>, cleanup: seq<CleanupRow>, names: seq<PhaseName>): (r: (nat, nat)) {
    if names == [] then (0, 0) else
    var (total, completed) := CountOver(jobs, cleanup, names[..|names| - 1]);
    var statuses := PhaseStatuses(jobs, cleanup, names[|names| - 1]);
    (total + |statuses|, completed + Completed(statuses))
  }

  lemma EmptyCompleted()
    ensures Completed([]) == 0
  {
  }

  lemma {:induction false} SumsOfPhases(jobs: seq<Job>, cleanup: seq<CleanupRow>, names: seq<PhaseName>)
    ensures (SumTotals(PhaseList(jobs, cleanup, names)), SumCompleted(PhaseList(jobs, cleanup, names)))
         == CountOver(jobs, cleanup, names)
  {
    hide MakePhase, PhaseStatuses, PhasePaused, JobsOf, Completed;
    if names != [] {
      var init := names[..|names| - 1];
      SumsOfPhases(jobs, cleanup, init);
      EmptyCompleted();
      var phases := PhaseList(jobs, cleanup, names);
      if PhaseStatuses(jobs, cleanup, names[|names| - 1]) == [] {
        assert phases == PhaseList(jobs, cleanup, init);
      } else {
        assert phases[..|phases| - 1] == PhaseList(jobs, cleanup, init);
      }
    }
  }

  lemma {:induction false} CompletedConcat(a: seq<Status>, b: seq<Status>)
    ensures Completed(a + b) == Completed(a) + Completed(b)
  {
    if b == [] {
      assert a + b == a;
    } else {
      assert (a + b)[..|a + b| - 1] == a + b[..|b| - 1];
      CompletedConcat(a, b[..|b| - 1]);
    }
  }

  lemma CompletedOneMore(a: seq<Status>, s: Status, b: seq<Status>)
    ensures Completed(a + [s] + b) == Completed(a + b) + if Terminal(s) then 1 else 0
  {
    CompletedConcat(a, b);
    CompletedConcat(a + [s], b);
    assert (a + [s])[..|a|] == a;
  }

  /** One more job lengthens the statuses of its own phase by its status, and of no other. */
  lemma PhaseOneMore(jobs: seq<Job>, cleanup: seq<CleanupRow>, name: PhaseName, job: Job)
    ensures var here := JobPhase(job.jobType) == name;
            var before, after := PhaseStatuses(jobs, cleanup, name), PhaseStatuses(jobs + [job], cleanup, name);
            && |after| == |before| + (if here then 1 else 0)
            && Completed(after) == Completed(before) + if here && Terminal(job.status) then 1 else 0
  {
    hide Completed, JobPhase;
    assert (jobs + [job])[..|jobs|] == jobs;
    var mine := JobsOf(jobs, name);
    if JobPhase(job.jobType) == name {
      assert JobStatuses(mine + [job]) == JobStatuses(mine) + [job.status];
      CompletedOneMore(JobStatuses(mine), job.status, if name == Cleanup then CleanupStatuses(cleanup) else []);
    } else {
      assert JobsOf(jobs + [job], name) == mine;
    }
  }

  /** One more job adds its status to the one phase it belongs to. */
  lemma {:induction false} CountOneMore(jobs: seq<Job>, cleanup: seq<CleanupRow>, names: seq<PhaseName>, job: Job)
    requires Distinct(names)
    ensures var (total, completed) := CountOver(jobs, cleanup, names);
            var here := JobPhase(job.jobType) in names;
            CountOver(jobs + [job], cleanup, names)
            == (total + (if here then 1 else 0), completed + if here && Terminal(job.status) then 1 else 0)
  {
    hide *;
    if names == [] {
      CountOfNone(jobs, cleanup);
      CountOfNone(jobs + [job], cleanup);
    } else {
      var init, name := names[..|names| - 1], names[|names| - 1];
      DistinctInit(names);
      CountOneMore(jobs, cleanup, init, job);
      PhaseOneMore(jobs, cleanup, name, job);
      CountOfLast(jobs, cleanup, names);
      CountOfLast(jobs + [job], cleanup, names);
      assert names == init + [name];
    }
  }

  lemma DistinctInit(names: seq<PhaseName>)
    requires Distinct(names) && names != []
    ensures var init, name := names[..|names| - 1], names[|names| - 1];
            Distinct(init) && name !in init
  {
  }

  lemma CountOfNone(jobs: seq<Job>, cleanup: seq<CleanupRow>)
    ensures CountOver(jobs, cleanup, []) == (0, 0)
  {
  }

  lemma CountOfLast(jobs: seq<Job>, cleanup: seq<CleanupRow>, names: seq<PhaseName>)
    requires names != []
    ensures var (total, completed) := CountOver(jobs, cleanup, names[..|names| - 1]);
            var statuses := PhaseStatuses(jobs, cleanup, names[|names| - 1]);
            CountOver(jobs, cleanup, names) == (total + |statuses|, completed + Completed(statuses))
  {
    hide PhaseStatuses, Completed;
  }

  lemma NoJobsNoStatuses(cleanup: seq<CleanupRow>, name: PhaseName)
    ensures PhaseStatuses([], cleanup, name) == if name == Cleanup then CleanupStatuses(cleanup) else []
  {
  }

  lemma {:induction false} CountCleanup(cleanup: seq<CleanupRow>, names: seq<PhaseName>)
    requires Distinct(names)
    ensures CountOver([], cleanup, names)
         == if Cleanup in names then (|cleanup|, Completed(CleanupStatuses(cleanup))) else (0, 0)
  {
    hide Completed, PhaseStatuses;
    EmptyCompleted();
    if names != [] {
      var init, name := names[..|names| - 1], names[|names| - 1];
      CountCleanup(cleanup, init);
      assert names == init + [name];
      NoJobsNoStatuses(cleanup, name);
      if name == Cleanup { assert name !in init; }
    }
  }

  lemma {:induction false} CountAll(jobs: seq<Job>, cleanup: seq<CleanupRow>)
    ensures CountOver(jobs, cleanup, PHASES) == (|RunStatuses(jobs, cleanup)|, Completed(RunStatuses(jobs, cleanup)))
  {
    hide CountOver;
    if jobs == [] {
      CountCleanup(cleanup, PHASES);
      assert RunStatuses([], cleanup) == CleanupStatuses(cleanup);
    } else {
      var init, job := jobs[..|jobs| - 1], jobs[|jobs| - 1];
      CountAll(init, cleanup);
      CountOneMore(init, cleanup, PHASES, job);
      assert jobs == init + [job];
      assert JobPhase(job.jobType) in PHASES;
      CompletedOneMore(JobStatuses(init), job.status, CleanupStatuses(cleanup));
      assert JobStatuses(jobs) == JobStatuses(init) + [job.status];
    }
  }

  /** Over the phases shown, totals and completed counts sum to those of the run. */
  lemma PhasesConserveCounts(jobs: seq<Job>, cleanup: seq<CleanupRow>)
    ensures var phases := PhaseList(jobs, cleanup, PHASES);
            && SumTotals(phases) == |jobs| + |cleanup|
            && SumCompleted(phases) == Completed(RunStatuses(jobs, cleanup))
  {
    SumsOfPhases(jobs, cleanup, PHASES);
    CountAll(jobs, cleanup);
  }

  // ---------------------------------------------------------------- the flat status is the join of the phases

  /** running > retrying > queued > failed > succeeded > cancelled */
  function Rank(shown: Shown): nat {
    match shown
    case IsRunning => 6
    case IsRetrying => 5
    case IsQueued => 4
    case IsFailed => 3
    case IsSucceeded => 2
    case IsCancelled => 1
    case IsPaused => 0
  }

  /** `shown` is the highest of the statuses of the phases. */
  ghost predicate IsJoin(shown: Shown, phases: seq<Phase>) {
    && (exists p <- phases :: p.status == shown)
    && forall p <- phases :: Rank(p.status) <= Rank(shown)
  }

  /** Some job still has work to do, or is dead. */
  ghost predicate LiveOrDead(statuses: seq<Status>) {
    Running in statuses || Retrying in statuses || Queued in statuses || Dead in statuses
  }

  lemma {:induction false} JobsOfMembers(jobs: seq<Job>, name: PhaseName, job: Job)
    ensures job in JobsOf(jobs, name) <==> job in jobs && JobPhase(job.jobType) == name
  {
    if jobs != [] {
      JobsOfMembers(jobs[..|jobs| - 1], name, job);
      assert jobs == jobs[..|jobs| - 1] + [jobs[|jobs| - 1]];
    }
  }

  lemma PhaseStatusesWithin(jobs: seq<Job>, cleanup: seq<CleanupRow>, name: PhaseName, s: Status)
    requires s in PhaseStatuses(jobs, cleanup, name)
    ensures s in RunStatuses(jobs, cleanup)
  {
    var mine := JobsOf(jobs, name);
    if s in JobStatuses(mine) {
      var i :| 0 <= i < |mine| && mine[i].status == s;
      JobsOfMembers(jobs, name, mine[i]);
      var k :| 0 <= k < |jobs| && jobs[k] == mine[i];
      assert JobStatuses(jobs)[k] == s;
    }
  }

  lemma StatusHasPhase(jobs: seq<Job>, cleanup: seq<CleanupRow>, s: Status) returns (name: PhaseName)
    requires s in RunStatuses(jobs, cleanup)
    ensures s in PhaseStatuses(jobs, cleanup, name) && name in PHASES
  {
    if s in CleanupStatuses(cleanup) {
      name := PHASES[4];
    } else {
      var k :| 0 <= k < |jobs| && jobs[k].status == s;
      name := JobPhase(jobs[k].jobType);
      JobsOfMembers(jobs, name, jobs[k]);
      var mine := JobsOf(jobs, name);
      var i :| 0 <= i < |mine| && mine[i] == jobs[k];
      assert JobStatuses(mine)[i] == s;
      assert name in PHASES;
    }
  }

  lemma NothingPaused(jobs: seq<Job>, name: PhaseName)
    requires forall job <- jobs :: !job.pausing
    ensures !PhasePaused(JobsOf(jobs, name))
  {
    forall job | job in JobsOf(jobs, name) ensures !job.pausing { JobsOfMembers(jobs, name, job); }
  }

  /** The phases listed are exactly those with something to show. */
  lemma {:induction false} PhaseListMembers(jobs: seq<Job>, cleanup: seq<CleanupRow>, names: seq<PhaseName>, p: Phase)
    ensures p in PhaseList(jobs, cleanup, names)
       <==> exists name <- names :: PhaseStatuses(jobs, cleanup, name) != []
              && p == MakePhase(name, PhaseStatuses(jobs, cleanup, name), PhasePaused(JobsOf(jobs, name)))
  {
    hide MakePhase, PhaseStatuses, PhasePaused, JobsOf;
    if names != [] {
      var init := names[..|names| - 1];
      PhaseListMembers(jobs, cleanup, init, p);
      assert names == init + [names[|names| - 1]];
    }
  }

  /** The jobs of a phase, list by list and job by job. */
  lemma {:induction false} JobsOfConcat(a: seq<Job>, b: seq<Job>, name: PhaseName)
    ensures JobsOf(a + b, name) == JobsOf(a, name) + JobsOf(b, name)
  {
    hide JobPhase;
    if b == [] {
      assert a + b == a;
    } else {
      var init := b[..|b| - 1];
      JobsOfConcat(a, init, name);
      assert (a + b)[..|a + b| - 1] == a + init;
    }
  }

  /** The phases of the job types; a type that is not listed is a file job. */
  lemma PhasesOfTypes(t: JobType)
    ensures JobPhase(t) == Discovery <==> t == DiscoverLibraries
    ensures JobPhase(t) == Dataset <==> t == EnsureRagflowDataset || t == RefreshDatasetSettings
    ensures JobPhase(t) == Parsing <==> t == ParseDocuments || t == ReparseDocuments || t == CheckParseStatus
    ensures JobPhase(t) == Cleanup <==> t == ProcessCleanupOutbox
    ensures JobPhase(t) == OpenWebUi <==> t == SyncOpenWebUi
  {
  }

  lemma JobsOfOne(job: Job, name: PhaseName)
    ensures JobsOf([job], name) == if JobPhase(job.jobType) == name then [job] else []
  {
    assert [job][..0] == [];
  }

  /** What is shown of a phase: it is paused exactly when each of its jobs is finished or asked to pause, and some is
      asked; how many statuses it has and how many are finished; and their share in percent to two decimals. */
  lemma PhaseMeans(jobs: seq<Job>, cleanup: seq<CleanupRow>, p: Phase)
    requires p in PhaseList(jobs, cleanup, PHASES)
    ensures var mine, statuses := JobsOf(jobs, p.name), PhaseStatuses(jobs, cleanup, p.name);
            && (p.status == IsPaused
                <==> && (forall job :: job in mine ==>
                           job.pausing || job.status.Succeeded? || job.status.Cancelled? || job.status.Dead?)
                     && exists job :: job in mine && job.pausing)
            && (p.status != IsPaused ==> p.status == PhaseStatus(statuses, false))
            && p.total == |mine| + (if p.name == Cleanup then |cleanup| else 0)
            && p.total == |statuses| > 0 && p.completed == Completed(statuses) <= p.total
            && var exact := p.completed as real * 100.0 / p.total as real;
               && exact - 0.005 <= p.percent <= exact + 0.005 && 0.0 <= p.percent <= 100.0
               && (p.completed == p.total ==> p.percent == 100.0) && (p.completed == 0 ==> p.percent == 0.0)
  {
    hide *;
    PhaseListMembers(jobs, cleanup, PHASES, p);
    var name :| name in PHASES && PhaseStatuses(jobs, cleanup, name) != []
                && p == MakePhase(name, PhaseStatuses(jobs, cleanup, name), PhasePaused(JobsOf(jobs, name)));
    var statuses, mine := PhaseStatuses(jobs, cleanup, name), JobsOf(jobs, name);
    PhaseFields(name, statuses, PhasePaused(mine));
    StatusCount(jobs, cleanup, name);
    AllCompleted(statuses);
    PauseShown(statuses, mine);
    PercentOf(Completed(statuses) as real, |statuses| as real);
  }

  lemma PhaseFields(name: PhaseName, statuses: seq<Status>, paused: bool)
    requires statuses != []
    ensures MakePhase(name, statuses, paused)
         == Phase(name, PhaseStatus(statuses, paused), Round2(Completed(statuses) as real * 100.0 / |statuses| as real),
                  Completed(statuses), |statuses|)
  {
    hide PhaseStatus, Completed, Round2;
  }

  lemma StatusCount(jobs: seq<Job>, cleanup: seq<CleanupRow>, name: PhaseName)
    ensures |PhaseStatuses(jobs, cleanup, name)| == |JobsOf(jobs, name)| + (if name == Cleanup then |cleanup| else 0)
  {
  }

  lemma PauseShown(statuses: seq<Status>, mine: seq<Job>)
    ensures PhaseStatus(statuses, PhasePaused(mine)) != IsPaused ==>
              PhaseStatus(statuses, PhasePaused(mine)) == PhaseStatus(statuses, false)
    ensures PhaseStatus(statuses, PhasePaused(mine)) == IsPaused
       <==> && (forall job :: job in mine ==>
                  job.pausing || job.status.Succeeded? || job.status.Cancelled? || job.status.Dead?)
            && exists job :: job in mine && job.pausing
  {
  }

  /** Each phase shown stands for some statuses of the run; paused phases rank lowest. */
  lemma PhaseOrigin(jobs: seq<Job>, cleanup: seq<CleanupRow>, p: Phase) returns (name: PhaseName)
    requires p in PhaseList(jobs, cleanup, PHASES)
    ensures name in PHASES && PhaseStatuses(jobs, cleanup, name) != []
    ensures p.status
         == if PhasePaused(JobsOf(jobs, name)) then IsPaused
            else PhaseStatus(PhaseStatuses(jobs, cleanup, name), false)
    ensures forall s :: s in PhaseStatuses(jobs, cleanup, name) ==> s in RunStatuses(jobs, cleanup)
  {
    hide PhaseStatuses, PhasePaused, JobsOf, PhaseList, RunStatuses;
    PhaseListMembers(jobs, cleanup, PHASES, p);
    name :| name in PHASES && PhaseStatuses(jobs, cleanup, name) != []
            && p == MakePhase(name, PhaseStatuses(jobs, cleanup, name), PhasePaused(JobsOf(jobs, name)));
    forall s | s in PhaseStatuses(jobs, cleanup, name) ensures s in RunStatuses(jobs, cleanup) {
      PhaseStatusesWithin(jobs, cleanup, name, s);
    }
  }

  /** A status that the flat aggregate is decided by. */
  ghost predicate Decides(statuses: seq<Status>, s: Status) {
    s in statuses &&
    if Running in statuses then s == Running
    else if Retrying in statuses then s == Retrying
    else if Queued in statuses then s == Queued
    else if Dead in statuses then s == Dead
    else (exists t <- statuses :: t != Cancelled) ==> s != Cancelled
  }

  lemma DecidedPhase(all: seq<Status>, s: Status, phase: seq<Status>)
    requires Decides(all, s) && s in phase && forall t <- phase :: t in all
    ensures Aggregate(all) == PhaseStatus(phase, false)
       <==> LiveOrDead(all) || forall t <- all :: !t.Unknown?
  {
  }

  lemma PhaseNotAbove(all: seq<Status>, s: Status, phase: seq<Status>, mine: seq<Status>)
    requires Decides(all, s) && s in phase && mine != []
    requires (forall t <- phase :: t in all) && forall t <- mine :: t in all
    ensures Rank(PhaseStatus(mine, false)) <= Rank(PhaseStatus(phase, false))
  {
    assert mine[0] in mine;
  }

  lemma SomethingDecides(all: seq<Status>) returns (s: Status)
    requires all != []
    ensures Decides(all, s)
  {
    if t :| t in all && t != Cancelled && (LiveOrDead(all) ==> t == Running) {
      s := t;
    } else if Running in all {
      s := Running;
    } else if Retrying in all {
      s := Retrying;
    } else if Queued in all {
      s := Queued;
    } else if Dead in all {
      s := Dead;
    } else {
      s := all[0];
    }
  }

  /** An unpaused phase that shows the aggregate holds a status that decides it. */
  lemma ShowsADecidingStatus(all: seq<Status>, mine: seq<Status>) returns (s: Status)
    requires mine != [] && (forall t <- mine :: t in all)
    requires PhaseStatus(mine, false) == Aggregate(all)
    ensures s in mine && Decides(all, s)
  {
    assert mine[0] in mine;
    if Running in mine {
      s := Running;
    } else if Retrying in mine {
      s := Retrying;
    } else if Queued in mine {
      s := Queued;
    } else if Dead in mine {
      s := Dead;
    } else if t :| t in mine && t != Cancelled {
      s := t;
    } else {
      s := mine[0];
    }
  }

  /** `s` decides the aggregate and is shown by a phase that is not paused. */
  ghost predicate DecidesOpenly(jobs: seq<Job>, cleanup: seq<CleanupRow>, name: PhaseName, s: Status) {
    && Decides(RunStatuses(jobs, cleanup), s)
    && name in PHASES && s in PhaseStatuses(jobs, cleanup, name) && !PhasePaused(JobsOf(jobs, name))
  }

  /** The phase of such a status ranks above all others. */
  lemma OpenPhaseOnTop(jobs: seq<Job>, cleanup: seq<CleanupRow>, name: PhaseName, s: Status) returns (top: Phase)
    requires DecidesOpenly(jobs, cleanup, name, s)
    ensures top in PhaseList(jobs, cleanup, PHASES)
    ensures forall p :: p in PhaseList(jobs, cleanup, PHASES) ==> Rank(p.status) <= Rank(top.status)
    ensures var all := RunStatuses(jobs, cleanup);
            (Aggregate(all) == top.status <==> LiveOrDead(all) || forall t <- all :: !t.Unknown?)
  {
    hide PhaseStatuses, PhasePaused, JobsOf, PhaseStatus, PhaseList, RunStatuses, Aggregate, LiveOrDead, Decides;
    var all, mine := RunStatuses(jobs, cleanup), PhaseStatuses(jobs, cleanup, name);
    top := MakePhase(name, mine, false);
    PhaseListMembers(jobs, cleanup, PHASES, top);
    forall t | t in mine ensures t in all { PhaseStatusesWithin(jobs, cleanup, name, t); }
    DecidedPhase(all, s, mine);
    forall p | p in PhaseList(jobs, cleanup, PHASES) ensures Rank(p.status) <= Rank(top.status) {
      var other := PhaseOrigin(jobs, cleanup, p);
      PhaseNotAbove(all, s, mine, PhaseStatuses(jobs, cleanup, other));
    }
  }

  /** The flat status of a run is the join of its phases' statuses exactly when a status that decides it
      is shown by a phase that is not paused, and some job is live or dead or every status is a known
      one: an unknown status among finished jobs makes the run look queued while its phase looks succeeded. */
  lemma FlatStatusIsJoin(jobs: seq<Job>, cleanup: seq<CleanupRow>)
    ensures var all := RunStatuses(jobs, cleanup);
            (IsJoin(Aggregate(all), PhaseList(jobs, cleanup, PHASES))
             <==> && (LiveOrDead(all) || forall s <- all :: !s.Unknown?)
                  && exists name, s :: DecidesOpenly(jobs, cleanup, name, s))
  {
    hide PhaseStatuses, PhasePaused, JobsOf, PhaseStatus, PhaseList, RunStatuses, Aggregate, LiveOrDead, Decides, Rank;
    var all := RunStatuses(jobs, cleanup);
    var phases := PhaseList(jobs, cleanup, PHASES);
    if p :| p in phases && p.status == Aggregate(all) {
      var name := PhaseOrigin(jobs, cleanup, p);
      NeverPaused(all);
      var s := ShowsADecidingStatus(all, PhaseStatuses(jobs, cleanup, name));
      assert DecidesOpenly(jobs, cleanup, name, s);
    }
    if name, s :| DecidesOpenly(jobs, cleanup, name, s) {
      var top := OpenPhaseOnTop(jobs, cleanup, name, s);
      RankInjective(Aggregate(all), top.status);
    }
  }

  lemma NeverPaused(all: seq<Status>)
    ensures Aggregate(all) != IsPaused
  {
  }

  /** In a run in which no pause is requested, the unknown status is the only exception. */
  lemma JoinUnlessUnknown(jobs: seq<Job>, cleanup: seq<CleanupRow>)
    requires RunStatuses(jobs, cleanup) != [] && forall job <- jobs :: !job.pausing
    ensures var all := RunStatuses(jobs, cleanup);
            (IsJoin(Aggregate(all), PhaseList(jobs, cleanup, PHASES))
             <==> LiveOrDead(all) || forall s <- all :: !s.Unknown?)
  {
    hide PhaseStatuses, PhasePaused, JobsOf, PhaseList, RunStatuses, Aggregate, LiveOrDead, Decides;
    FlatStatusIsJoin(jobs, cleanup);
    var s := SomethingDecides(RunStatuses(jobs, cleanup));
    DecidesMember(RunStatuses(jobs, cleanup), s);
    var name := StatusHasPhase(jobs, cleanup, s);
    NothingPaused(jobs, name);
    assert DecidesOpenly(jobs, cleanup, name, s);
  }

  /** A job that succeeded and one whose status is unknown: the run looks queued, which is not the join. */
  lemma UnknownLooksQueued(done: Job, odd: Job)
    requires done.status.Succeeded? && odd.status.Unknown?
    ensures Aggregate(RunStatuses([done, odd], [])) == IsQueued
    ensures !IsJoin(IsQueued, PhaseList([done, odd], [], PHASES))
  {
    var all := RunStatuses([done, odd], []);
    assert all == [done.status, odd.status];
    hide *;
    SucceededAndUnknown(done.status, odd.status);
    FlatStatusIsJoin([done, odd], []);
  }

  lemma SucceededAndUnknown(done: Status, odd: Status)
    requires done.Succeeded? && odd.Unknown?
    ensures Aggregate([done, odd]) == IsQueued && !LiveOrDead([done, odd])
    ensures exists s <- [done, odd] :: s.Unknown?
  {
    var all := [done, odd];
    assert all[1] in all && all[1].Unknown?;
    assert forall s <- all :: s == done || s == odd;
  }

  /** A single running job whose pause is requested: the run looks running, its phase paused. */
  lemma PausedLooksRunning(job: Job)
    requires job.status.Running? && job.pausing
    ensures Aggregate(RunStatuses([job], [])) == IsRunning
    ensures !IsJoin(IsRunning, PhaseList([job], [], PHASES))
  {
    assert RunStatuses([job], [])[0] == Running;
    forall name | PhaseStatuses([job], [], name) != [] ensures PhasePaused(JobsOf([job], name)) {
      assert [job][..0] == [] && JobsOf([], name) == [];
      assert JobsOf([job], name) == [job];
      assert [job][0] in [job];
    }
    hide PhaseList, RunStatuses, PhaseStatuses, PhasePaused, Decides;
    FlatStatusIsJoin([job], []);
  }

  lemma DecidesMember(all: seq<Status>, s: Status)
    requires Decides(all, s)
    ensures s in all
  {
  }

  lemma RankInjective(a: Shown, b: Shown)
    ensures Rank(a) == Rank(b) ==> a == b
  {
  }

  /** The order of the jobs does not matter. */
  lemma AggregateIgnoresOrder(a: seq<Status>, b: seq<Status>)
    requires multiset(a) == multiset(b)
    ensures Aggregate(a) == Aggregate(b)
  {
    assert forall s :: s in a <==> s in multiset(a);
    assert forall s :: s in b <==> s in multiset(b);
    assert |multiset(a)| == |a| && |multiset(b)| == |b|;
  }

  lemma CleanupMembers(cleanup: seq<CleanupRow>, s: Status)
    ensures s in CleanupStatuses(cleanup) <==> exists row <- cleanup :: CleanupStatus(row) == s
  {
    hide CleanupStatus;
    if row :| row in cleanup && CleanupStatus(row) == s {
      var i :| 0 <= i < |cleanup| && cleanup[i] == row;
      assert CleanupStatuses(cleanup)[i] == s;
    }
  }

  /** A list of succeeded, dead and retrying statuses only. */
  lemma AggregateOfThree(all: seq<Status>)
    requires forall s <- all :: s.Succeeded? || s.Dead? || s.Retrying?
    ensures Aggregate(all)
         == if all == [] then IsQueued
            else if Retrying in all then IsRetrying
            else if Dead in all then IsFailed
            else IsSucceeded
  {
    if all != [] { assert all[0] in all; }
  }

  /** What a run of cleanup rows alone shows: still retrying while one is open, then failed if one is dead. */
  lemma CleanupAlone(cleanup: seq<CleanupRow>)
    ensures Aggregate(RunStatuses([], cleanup))
         == if cleanup == [] then IsQueued
            else if exists row <- cleanup :: row.CleanupOpen? then IsRetrying
            else if CleanupDead in cleanup then IsFailed
            else IsSucceeded
  {
    var all := RunStatuses([], cleanup);
    assert all == CleanupStatuses(cleanup);
    hide Aggregate, CleanupStatuses, RunStatuses;
    assert |all| == |cleanup| by { CleanupCount(cleanup); }
    forall s | s in all ensures s.Succeeded? || s.Dead? || s.Retrying? { CleanupMembers(cleanup, s); }
    CleanupMembers(cleanup, Retrying);
    CleanupMembers(cleanup, Dead);
    AggregateOfThree(all);
  }

  lemma CleanupCount(cleanup: seq<CleanupRow>)
    ensures |CleanupStatuses(cleanup)| == |cleanup|
  {
  }
}
