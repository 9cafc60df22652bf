/** Starting a workflow run: one job per repository, and compensation when any call on the way fails.
    The job store and the signal queue are external; every call to them may raise, and every call is logged.
 */
module WorkflowScheduling {
  import opened Basics

  datatype Enqueued = Enqueued(jobId: int, deduplicated: bool)

  /** A call and how it ended; `Enqueue` carries None when it raised. */
  datatype Call =
    | Enqueue(repoId: string, result: Option<Enqueued>)
    | Subscribe(jobId: int, ownsJob: bool, ok: bool)
    | BindRun(jobId: int, ok: bool)
    | CancelSubscription(cancelled: Option<set<int>>)
    | RequestCancel(jobId: int, accepted: bool)
    | Signal(jobId: int)

  predicate Raised(c: Call) {
    match c
    case Enqueue(_, result) => result.None?
    case Subscribe(_, _, ok) => !ok
    case BindRun(_, ok) => !ok
    case _ => false
  }

  class Services {
    ghost var log: seq<Call>

    method EnqueueJob(repoId: string) returns (result: Option<Enqueued>)
      modifies this
      ensures log == old(log) + [Enqueue(repoId, result)]
    {
      var raised: bool, jobId: int, deduplicated: bool := *, *, *;
      result := if raised then None else Some(Enqueued(jobId, deduplicated));
      log := log + [Enqueue(repoId, result)];
    }

    method SubscribeWorkflow(jobId: int, ownsJob: bool) returns (ok: bool)
      modifies this
      ensures log == old(log) + [Subscribe(jobId, ownsJob, ok)]
    {
      ok := *;
      log := log + [Subscribe(jobId, ownsJob, ok)];
    }

    method Bind(jobId: int) returns (ok: bool)
      modifies this
      ensures log == old(log) + [BindRun(jobId, ok)]
    {
      ok := *;
      log := log + [BindRun(jobId, ok)];
    }

    /** The ids the store reports as cancelled; None when the call raised. */
    method CancelWorkflowSubscription() returns (ids: Option<set<int>>)
      modifies this
      ensures log == old(log) + [CancelSubscription(ids)]
    {
      ids := *;
      log := log + [CancelSubscription(ids)];
    }

    /** False when the store declined the request or raised. */
    method RequestJobCancel(jobId: int) returns (accepted: bool)
      modifies this
      ensures log == old(log) + [RequestCancel(jobId, accepted)]
    {
      accepted := *;
      log := log + [RequestCancel(jobId, accepted)];
    }

    method SignalJob(jobId: int)
      modifies this
      ensures log == old(log) + [Signal(jobId)]
    {
      log := log + [Signal(jobId)];
    }
  }

  // ---------------------------------------------------------------- what a log says

  /** The jobs a stretch of log created: enqueued, and not answered with an existing one. */
  ghost function Created(log: seq<Call>): seq<int> {
    if log == [] then [] else
    var c := log[|log| - 1];
    Created(log[..|log| - 1])
    + if c.Enqueue? && c.result.Some? && !c.result.value.deduplicated then [c.result.value.jobId] else []
  }

  ghost function CancelRequests(log: seq<Call>): seq<int> {
    if log == [] then [] else
    var c := log[|log| - 1];
    CancelRequests(log[..|log| - 1]) + if c.RequestCancel? then [c.jobId] else []
  }

  datatype JobEntry = JobEntry(repoId: string, jobId: int, deduplicated: bool)

  /** The jobs enqueued, new or not, whatever became of the calls after them. */
  ghost function Entries(log: seq<Call>): seq<JobEntry> {
    if log == [] then [] else
    var c := log[|log| - 1];
    Entries(log[..|log| - 1])
    + if c.Enqueue? && c.result.Some? then [JobEntry(c.repoId, c.result.value.jobId, c.result.value.deduplicated)]
      else []
  }

  /** The jobs the store reported as cancelled. */
  ghost function Aborted(log: seq<Call>): set<int> {
    if log == [] then {} else
    var c := log[|log| - 1];
    Aborted(log[..|log| - 1])
    + match c
      case CancelSubscription(cancelled) => if cancelled.Some? then cancelled.value else {}
      case RequestCancel(jobId, accepted) => if accepted then {jobId} else {}
      case _ => {}
  }

  ghost function Signals(log: seq<Call>): seq<int> {
    if log == [] then [] else
    var c := log[|log| - 1];
    Signals(log[..|log| - 1]) + if c.Signal? then [c.jobId] else []
  }

  ghost function Binds(log: seq<Call>): seq<int> {
    if log == [] then [] else
    var c := log[|log| - 1];
    Binds(log[..|log| - 1]) + if c.BindRun? then [c.jobId] else []
  }

  /** The jobs subscribed to, each with whether the run owns it. */
  ghost function Subscriptions(log: seq<Call>): seq<(int, bool)> {
    if log == [] then [] else
    var c := log[|log| - 1];
    Subscriptions(log[..|log| - 1]) + if c.Subscribe? then [(c.jobId, c.ownsJob)] else []
  }

  /** No call follows one that raised. */
  ghost predicate StopsAtRaise(log: seq<Call>) { forall i :: 0 <= i < |log| - 1 ==> !Raised(log[i]) }

  ghost predicate SomethingRaised(log: seq<Call>) { exists c <- log :: Raised(c) }

  lemma LogSnoc(log: seq<Call>, c: Call)
    ensures Created(log + [c])
         == Created(log)
            + if c.Enqueue? && c.result.Some? && !c.result.value.deduplicated then [c.result.value.jobId] else []
    ensures CancelRequests(log + [c]) == CancelRequests(log) + if c.RequestCancel? then [c.jobId] else []
    ensures Signals(log + [c]) == Signals(log) + if c.Signal? then [c.jobId] else []
    ensures Binds(log + [c]) == Binds(log) + if c.BindRun? then [c.jobId] else []
    ensures Subscriptions(log + [c]) == Subscriptions(log) + if c.Subscribe? then [(c.jobId, c.ownsJob)] else []
    ensures SomethingRaised(log + [c]) <==> SomethingRaised(log) || Raised(c)
    ensures Entries(log + [c])
         == Entries(log)
            + if c.Enqueue? && c.result.Some? then
                [JobEntry(c.repoId, c.result.value.jobId, c.result.value.deduplicated)]
              else []
  {
    assert (log + [c])[..|log|] == log;
    if SomethingRaised(log) {
      var d :| d in log && Raised(d);
      assert d in log + [c];
    }
    assert c in log + [c];
  }

  lemma AbortedSnoc(log: seq<Call>, c: Call)
    ensures Aborted([]) == {}
    ensures Aborted(log + [c])
         == Aborted(log)
            + if c.CancelSubscription? && c.cancelled.Some? then c.cancelled.value
              else if c.RequestCancel? && c.accepted then {c.jobId} else {}
  {
    assert (log + [c])[..|log|] == log;
  }

  /** What the readings of a log contain, call by call. */
  lemma {:induction false} LogMembers(log: seq<Call>)
    ensures forall repoId, jobId, known :: JobEntry(repoId, jobId, known) in Entries(log)
                                         <==> Enqueue(repoId, Some(Enqueued(jobId, known))) in log
    ensures forall id :: id in Created(log) <==> exists repoId :: Enqueue(repoId, Some(Enqueued(id, false))) in log
    ensures forall id :: id in Aborted(log)
                         <==> RequestCancel(id, true) in log
                              || exists ids: set<int> :: id in ids && CancelSubscription(Some(ids)) in log
  {
    if log != [] {
      var init, c := log[..|log| - 1], log[|log| - 1];
      LogMembers(init);
      assert log == init + [c];
    }
  }

  lemma {:induction false} CallMembers(log: seq<Call>)
    ensures forall id :: id in CancelRequests(log) <==> exists accepted :: RequestCancel(id, accepted) in log
    ensures forall id :: id in Signals(log) <==> Signal(id) in log
    ensures forall id :: id in Binds(log) <==> exists ok :: BindRun(id, ok) in log
    ensures forall id, own :: (id, own) in Subscriptions(log) <==> exists ok :: Subscribe(id, own, ok) in log
  {
    if log != [] {
      var init, c := log[..|log| - 1], log[|log| - 1];
      CallMembers(init);
      assert log == init + [c];
    }
  }

  // ---------------------------------------------------------------- the run

  /** The answer and the numbers written to the run's record. */
  datatype Response = Response(accepted: bool, jobs: seq<JobEntry>, checked: nat, skipped: nat, aborted: set<int>)

  function SubscriptionsOf(jobs: seq<JobEntry>): seq<(int, bool)> {
    seq(|jobs|, i requires 0 <= i < |jobs| => (jobs[i].jobId, !jobs[i].deduplicated))
  }

  /** One round of the loop; `failed` when one of its calls raised. */
  method ScheduleOne(s: Services, repoId: string)
      returns (failed: bool, entry: Option<JobEntry>, ghost trace: seq<Call>)
    modifies s
    ensures s.log == old(s.log) + trace
    ensures CancelRequests(trace) == [] && Signals(trace) == [] && (failed <==> SomethingRaised(trace))
    ensures StopsAtRaise(trace)
    ensures entry.Some? ==> entry.value.repoId == repoId
    ensures Entries(trace) == if entry.Some? then [entry.value] else []
    ensures Created(trace) == if entry.Some? && !entry.value.deduplicated then [entry.value.jobId] else []
    ensures !failed ==> entry.Some? && Binds(trace) == Created(trace)
                        && Subscriptions(trace) == [(entry.value.jobId, !entry.value.deduplicated)]
  {
    hide Created, CancelRequests, Signals, Binds, Subscriptions, Entries, SomethingRaised;
    EmptyLog();
    var result := s.EnqueueJob(repoId);
    LogSnoc([], Enqueue(repoId, result));
    trace := [] + [Enqueue(repoId, result)];
    if result.None? { return true, None, trace; }
    var Enqueued(jobId, deduplicated) := result.value;
    entry := Some(JobEntry(repoId, jobId, deduplicated));
    var subscribed := s.SubscribeWorkflow(jobId, !deduplicated);
    LogSnoc(trace, Subscribe(jobId, !deduplicated, subscribed));
    trace := trace + [Subscribe(jobId, !deduplicated, subscribed)];
    if !subscribed { return true, entry, trace; }
    if !deduplicated {
      var bound := s.Bind(jobId);
      LogSnoc(trace, BindRun(jobId, bound));
      trace := trace + [BindRun(jobId, bound)];
      if !bound { return true, entry, trace; }
    }
    failed := false;
  }

  /** The loop over the repositories, up to the first call that raises. `created` and `signals` are its lists. */
  method ScheduleAll(s: Services, repoIds: seq<string>)
      returns (failed: bool, jobs: seq<JobEntry>, created: seq<int>, signals: seq<int>, ghost trace: seq<Call>)
    modifies s
    ensures s.log == old(s.log) + trace
    ensures created == Created(trace) && CancelRequests(trace) == [] && Signals(trace) == []
    ensures (failed <==> SomethingRaised(trace)) && StopsAtRaise(trace)
    ensures jobs == Entries(trace)
    ensures |jobs| <= |repoIds| && forall i :: 0 <= i < |jobs| ==> jobs[i].repoId == repoIds[i]
    ensures !failed ==> |jobs| == |repoIds| && signals == created == Binds(trace)
                        && Subscriptions(trace) == SubscriptionsOf(jobs)
  {
    hide Created, CancelRequests, Signals, Binds, Subscriptions, Entries, SomethingRaised, StopsAtRaise;
    failed, jobs, created, signals, trace := false, [], [], [], [];
    EmptyLog();
    var i := 0;
    while i < |repoIds|
      invariant i <= |repoIds| && |jobs| == i
      invariant s.log == old(s.log) + trace
      invariant created == signals == Created(trace) == Binds(trace)
      invariant CancelRequests(trace) == [] && Signals(trace) == [] && Entries(trace) == jobs
      invariant !SomethingRaised(trace) && !failed
      invariant forall k :: 0 <= k < i ==> jobs[k].repoId == repoIds[k]
      invariant Subscriptions(trace) == SubscriptionsOf(jobs)
    {
      var entry;
      ghost var added;
      failed, entry, added := ScheduleOne(s, repoIds[i]);
      LogConcat(trace, added);
      StopsConcat(trace, added);
      trace := trace + added;
      if entry.Some? {
        SubscriptionsSnoc(jobs, entry.value);
        jobs := jobs + [entry.value];
        if !entry.value.deduplicated { created := created + [entry.value.jobId]; }
      }
      if failed { return; }
      if !entry.value.deduplicated { signals := signals + [entry.value.jobId]; }
      i := i + 1;
    }
    NoneRaised(trace);
  }

  lemma NoneRaised(log: seq<Call>)
    requires !SomethingRaised(log)
    ensures StopsAtRaise(log)
  {
    assert forall i :: 0 <= i < |log| ==> log[i] in log;
  }

  lemma StopsConcat(a: seq<Call>, b: seq<Call>)
    requires !SomethingRaised(a) && StopsAtRaise(b)
    ensures StopsAtRaise(a + b)
  {
    forall i | 0 <= i < |a + b| - 1 ensures !Raised((a + b)[i]) {
      assert i < |a| ==> (a + b)[i] in a;
    }
  }

  lemma SubscriptionsSnoc(jobs: seq<JobEntry>, entry: JobEntry)
    ensures SubscriptionsOf(jobs + [entry]) == SubscriptionsOf(jobs) + [(entry.jobId, !entry.deduplicated)]
  {
  }

  lemma EmptyLog()
    ensures Created([]) == [] && CancelRequests([]) == [] && Signals([]) == [] && Binds([]) == []
    ensures Subscriptions([]) == [] && !SomethingRaised([]) && Entries([]) == []
  {
  }

  /** The exception handler: drops the subscription, then asks for every created job to be cancelled. */
  method Compensate(s: Services, created: seq<int>) returns (aborted: set<int>, ghost trace: seq<Call>)
    modifies s
    ensures s.log == old(s.log) + trace
    ensures CancelRequests(trace) == created && Signals(trace) == [] && Created(trace) == [] && !SomethingRaised(trace)
    ensures aborted == Aborted(trace) && Entries(trace) == []
    ensures |trace| == 1 + |created| && trace[0].CancelSubscription?
  {
    hide Created, CancelRequests, Signals, Binds, Subscriptions, Entries, SomethingRaised, Aborted;
    EmptyLog();
    var ids := s.CancelWorkflowSubscription();
    aborted := if ids.Some? then ids.value else {};
    LogSnoc([], CancelSubscription(ids));
    AbortedSnoc([], CancelSubscription(ids));
    trace := [] + [CancelSubscription(ids)];
    var i := 0;
    while i < |created|
      invariant i <= |created| && s.log == old(s.log) + trace
      invariant |trace| == 1 + i && trace[0].CancelSubscription?
      invariant CancelRequests(trace) == created[..i] && Signals(trace) == [] && Created(trace) == []
      invariant !SomethingRaised(trace) && aborted == Aborted(trace) && Entries(trace) == []
    {
      var accepted := s.RequestJobCancel(created[i]);
      LogSnoc(trace, RequestCancel(created[i], accepted));
      AbortedSnoc(trace, RequestCancel(created[i], accepted));
      trace := trace + [RequestCancel(created[i], accepted)];
      if accepted { aborted := aborted + {created[i]}; }
      i := i + 1;
    }
  }

  method SignalAll(s: Services, signals: seq<int>) returns (ghost trace: seq<Call>)
    modifies s
    ensures s.log == old(s.log) + trace
    ensures Signals(trace) == signals && CancelRequests(trace) == [] && Created(trace) == [] && !SomethingRaised(trace)
    ensures Entries(trace) == [] && |trace| == |signals|
  {
    hide Created, CancelRequests, Signals, Binds, Subscriptions, Entries, SomethingRaised;
    EmptyLog();
    trace := [];
    var i := 0;
    while i < |signals|
      invariant i <= |signals| && |trace| == i && s.log == old(s.log) + trace
      invariant Signals(trace) == signals[..i] && CancelRequests(trace) == [] && Created(trace) == []
      invariant !SomethingRaised(trace) && Entries(trace) == []
    {
      s.SignalJob(signals[i]);
      LogSnoc(trace, Signal(signals[i]));
      trace := trace + [Signal(signals[i])];
      i := i + 1;
    }
  }

  lemma {:induction false} LogConcat(a: seq<Call>, b: seq<Call>)
    ensures Created(a + b) == Created(a) + Created(b)
    ensures CancelRequests(a + b) == CancelRequests(a) + CancelRequests(b)
    ensures Signals(a + b) == Signals(a) + Signals(b)
    ensures Binds(a + b) == Binds(a) + Binds(b)
    ensures Subscriptions(a + b) == Subscriptions(a) + Subscriptions(b)
    ensures Entries(a + b) == Entries(a) + Entries(b)
    ensures SomethingRaised(a + b) <==> SomethingRaised(a) || SomethingRaised(b)
  {
    hide Created, CancelRequests, Signals, Binds, Subscriptions, Entries, SomethingRaised;
    EmptyLog();
    if b == [] {
      assert a + b == a;
    } else {
      var init, c := b[..|b| - 1], b[|b| - 1];
      LogConcat(a, init);
      LogSnoc(a + init, c);
      LogSnoc(init, c);
      assert a + b == a + init + [c] && b == init + [c];
    }
  }

  /** The scheduling part of `_handle_workflow_run_impl`. `setup` is the log of the loop over the
      repositories, `rest` what follows it. */
  method HandleRun(s: Services, repoIds: seq<string>)
      returns (r: Response, ghost setup: seq<Call>, ghost rest: seq<Call>)
    modifies s
    ensures s.log == old(s.log) + setup + rest
    // refused exactly when some call raised, after which nothing is scheduled; the subscription is dropped first
    ensures StopsAtRaise(setup) && |rest| == |Created(setup)| + (if r.accepted then 0 else 1)
    ensures !r.accepted ==> rest[0].CancelSubscription?
    ensures r.accepted <==> !SomethingRaised(setup + rest)
    // then every job this run created, and no other, is passed to request_cancel, and nothing is signalled
    ensures !r.accepted ==> CancelRequests(setup + rest) == Created(setup + rest) && Signals(setup + rest) == []
    ensures r.aborted == if r.accepted then {} else Aborted(rest)
    // the answer lists exactly the jobs enqueued, in order, the one whose subscription or binding raised included
    ensures r.jobs == Entries(setup + rest) && |r.jobs| <= |repoIds|
    ensures forall i :: 0 <= i < |r.jobs| ==> r.jobs[i].repoId == repoIds[i]
    ensures r.checked + r.skipped == |repoIds| && r.checked == |r.jobs|
    // otherwise every repository is subscribed once, in order, and exactly the created jobs are signalled
    ensures r.accepted ==>
              && Signals(setup + rest) == Created(setup + rest) && CancelRequests(setup + rest) == []
              && |r.jobs| == |repoIds| && (forall i :: 0 <= i < |repoIds| ==> r.jobs[i].repoId == repoIds[i])
              && Subscriptions(setup) == SubscriptionsOf(r.jobs)
              && Binds(setup) == Created(setup)
  {
    hide Created, CancelRequests, Signals, Binds, Subscriptions, Entries, SomethingRaised, Aborted;
    var failed, jobs, created, signals;
    failed, jobs, created, signals, setup := ScheduleAll(s, repoIds);
    if failed {
      var aborted;
      aborted, rest := Compensate(s, created);
      r := Response(false, jobs, |jobs|, if |repoIds| > |jobs| then |repoIds| - |jobs| else 0, aborted);
    } else {
      rest := SignalAll(s, signals);
      r := Response(true, jobs, |jobs|, 0, {});
    }
    LogConcat(setup, rest);
  }

  // ---------------------------------------------------------------- the selected repositories

  datatype Error = NotAList | NothingSelected | TooManySelected
  datatype Result<+T> = Ok(value: T) | Err(error: Error)

  const MAX_REPOSITORIES := 200

  /** The non-empty texts, each where it first occurs. */
  function FirstOccurrences(texts: seq<string>): seq<string> {
    if texts == [] then [] else
    var before := FirstOccurrences(texts[..|texts| - 1]);
    var text := texts[|texts| - 1];
    if text != "" && text !in before then before + [text] else before
  }

  /** `texts` are the entries of `repo_ids`, already converted to text and stripped; None is any other value. */
  method WorkflowRepoIds(raw: Option<seq<string>>) returns (r: Result<seq<string>>)
    ensures r == match raw
                 case None => Err(NotAList)
                 case Some(texts) =>
                   var ids := FirstOccurrences(texts);
                   if ids == [] then Err(NothingSelected)
                   else if |ids| > 200 then Err(TooManySelected) else Ok(ids)
  {
    if raw.None? { return Err(NotAList); }
    var texts := raw.value;
    var ids: seq<string> := [];
    var i := 0;
    while i < |texts|
      invariant i <= |texts| && ids == FirstOccurrences(texts[..i])
    {
      assert texts[..i + 1][..i] == texts[..i];
      if texts[i] != "" && texts[i] !in ids { ids := ids + [texts[i]]; }
      i := i + 1;
    }
    assert texts[..i] == texts;
    if ids == [] { return Err(NothingSelected); }
    if |ids| > MAX_REPOSITORIES { return Err(TooManySelected); }
    return Ok(ids);
  }

  /** Repository ids are distinct, they are exactly the non-empty texts, and they keep the order of first occurrence. */
  lemma {:induction false} RepoIdsDistinct(texts: seq<string>) returns (at: seq<nat>)
    ensures var ids := FirstOccurrences(texts);
            && Distinct(ids)
            && (forall t :: t in ids <==> t in texts && t != "")
            && |at| == |ids|
            && (forall i :: 0 <= i < |ids| ==> at[i] < |texts| && texts[at[i]] == ids[i] && ids[i] !in texts[..at[i]])
            && (forall i, j :: 0 <= i < j < |ids| ==> at[i] < at[j])
  {
    at := [];
    if texts != [] {
      var n := |texts| - 1;
      var init := texts[..n];
      at := RepoIdsDistinct(init);
      assert texts == init + [texts[n]];
      forall k | 0 <= k <= n ensures init[..k] == texts[..k] { }
      if texts[n] != "" && texts[n] !in FirstOccurrences(init) {
        at := at + [n];
      }
    }
  }
}
