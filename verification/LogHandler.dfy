/** The log handler as an object, in the program's own control flow.  Its methods run one thread each;
    before every access to shared state any stretch of the other actors' steps may happen.  A ghost
    trace records all steps, and every method keeps the object in the state that the trace leads to
    on the step machine of LogWriter, so every lemma about runs of the machine holds of the object.
 */
module LogHandler {
  import opened Basics
  import opened LogWriter
  import opened MonotonicClock

  /** A thread inside `emit`, the worker inside `_run`, or a caller of `flush` or `close`. */
  datatype Actor = Thread(t: nat) | TheWorker | Caller(n: nat)

  ghost predicate By(me: Actor, a: Action) {
    match me
    case Thread(t) => a.Emit? && a.t == t
    case TheWorker => a.Work?
    case Caller(n) => a == Action.Close(n)
  }

  /** From position `from` on, no step of the trace is by `me`. */
  ghost predicate Others(me: Actor, trace: seq<Action>, from: nat) {
    forall i :: from <= i < |trace| ==> !By(me, trace[i])
  }

  /** From position `from` on, every step of the trace is by `me`: nobody interrupted. */
  ghost predicate Alone(me: Actor, trace: seq<Action>, from: nat) {
    forall i :: from <= i < |trace| ==> By(me, trace[i])
  }

  /** The entries that thread `t` began to emit. */
  ghost function Begun(t: nat, trace: seq<Action>): seq<Entry> {
    if trace == [] then []
    else
      Begun(t, trace[..|trace| - 1]) + BegunBy(t, trace[|trace| - 1])
  }

  ghost function BegunBy(t: nat, a: Action): seq<Entry> {
    if a.Emit? && a.t == t && a.emit.Begin? then [a.emit.entry] else []
  }

  ghost function Tally(trace: seq<Action>, counted: Action -> bool): nat {
    if trace == [] then 0
    else Tally(trace[..|trace| - 1], counted) + (if counted(trace[|trace| - 1]) then 1 else 0)
  }

  /** How often caller `n` set stop. */
  ghost function Closes(n: nat, trace: seq<Action>): nat {
    Tally(trace, a => a == Action.Close(n))
  }

  ghost predicate EndsPass(a: Action) { a == Work(NextRound) || a == Work(GetTimeout) }

  ghost predicate IsAttempt(a: Action) { a.Work? && a.work.Persist? }

  /** What only `me` changes. */
  ghost predicate Kept(me: Actor, s: State, s': State) {
    && |s'.emitters| == |s.emitters|
    && (s.stop ==> s'.stop)
    && s.hist.puts <= s'.hist.puts
    && match me
       case Thread(t) => t < |s.emitters| ==> s'.emitters[t] == s.emitters[t]
       case TheWorker =>
         && s'.worker == s.worker && s'.batch == s.batch && s'.lastPrune == s.lastPrune
         && s'.hist.batches == s.hist.batches && s'.hist.givenUp == s.hist.givenUp
         && s'.hist.backoff == s.hist.backoff && s'.hist.rows == s.hist.rows && s'.hist.prunes == s.hist.prunes
       case Caller(_) => true
  }

  ghost predicate KeptCounts(me: Actor, before: seq<Action>, after: seq<Action>) {
    match me
    case Thread(t) => Begun(t, after) == Begun(t, before)
    case TheWorker =>
      Tally(after, EndsPass) == Tally(before, EndsPass) && Tally(after, IsAttempt) == Tally(before, IsAttempt)
    case Caller(n) => Closes(n, after) == Closes(n, before)
  }

  lemma {:induction false} EmitterKeeps(c: Config, s: State, t: nat, step: EmitStep, me: Actor)
    requires t < |s.emitters| && EmitEnabled(s.emitters[t], step) && me != Thread(t)
    ensures Kept(me, s, EmitNext(c, s, t, step))
  {
  }

  lemma {:induction false} WorkerKeeps(c: Config, s: State, step: WorkStep, me: Actor)
    requires WorkEnabled(c, s, step) && !me.TheWorker?
    ensures Kept(me, s, WorkNext(c, s, step))
  {
    hide Pow2;
  }

  lemma {:induction false} OtherKeeps(c: Config, s: State, a: Action, me: Actor)
    requires Enabled(c, s, a) && !By(me, a)
    ensures Kept(me, s, Next(c, s, a))
  {
    hide EmitNext, WorkNext;
    match a
    case Emit(t, step) => EmitterKeeps(c, s, t, step, me);
    case Close(_) =>
    case Work(step) => WorkerKeeps(c, s, step, me);
  }

  /** A run is its first part, then the rest from the state that part leads to. */
  lemma {:induction false} Continue(c: Config, s: State, before: seq<Action>, after: seq<Action>)
    requires before <= after && Legal(c, s, after)
    ensures Legal(c, s, before)
    ensures var rest := after[|before|..];
            Legal(c, Exec(c, s, before), rest) && Exec(c, Exec(c, s, before), rest) == Exec(c, s, after)
    decreases |before|
  {
    if before == [] {
      assert after[0..] == after;
    } else {
      Continue(c, Next(c, s, before[0]), before[1..], after[1..]);
      assert after[1..][|before[1..]|..] == after[|before|..];
    }
  }

  lemma {:induction false} OthersKeep(c: Config, s: State, run: seq<Action>, me: Actor)
    requires Legal(c, s, run) && Others(me, run, 0)
    ensures Kept(me, s, Exec(c, s, run))
    decreases |run|
  {
    if run != [] {
      hide Next, Enabled, By;
      OtherKeeps(c, s, run[0], me);
      assert forall i :: 0 <= i < |run[1..]| ==> run[1..][i] == run[i + 1];
      OthersKeep(c, Next(c, s, run[0]), run[1..], me);
    }
  }

  lemma {:induction false} OthersKeepCounts(before: seq<Action>, after: seq<Action>, me: Actor)
    requires before <= after && Others(me, after, |before|)
    ensures KeptCounts(me, before, after)
    decreases |after|
  {
    if |after| == |before| {
      assert after == before;
    } else {
      OthersKeepCounts(before, after[..|after| - 1], me);
      assert !By(me, after[|after| - 1]);
    }
  }

  lemma {:induction false} Snoc(trace: seq<Action>, a: Action, me: Actor, from: nat)
    requires from <= |trace|
    ensures By(me, a) ==> (Alone(me, trace + [a], from) <==> Alone(me, trace, from))
    ensures me.Thread? ==> Begun(me.t, trace + [a]) == Begun(me.t, trace) + BegunBy(me.t, a)
    ensures Tally(trace + [a], EndsPass) == Tally(trace, EndsPass) + (if EndsPass(a) then 1 else 0)
    ensures Tally(trace + [a], IsAttempt) == Tally(trace, IsAttempt) + (if IsAttempt(a) then 1 else 0)
    ensures me.Caller? ==> Closes(me.n, trace + [a]) == Closes(me.n, trace) + (if By(me, a) then 1 else 0)
  {
    assert (trace + [a])[..|trace|] == trace;
    assert forall i :: 0 <= i < |trace| ==> (trace + [a])[i] == trace[i];
  }

  /** At position `k` of the trace the count of unfinished tasks was zero, or was not. */
  ghost predicate SawZero(c: Config, threads: nat, trace: seq<Action>, k: nat, zero: bool) {
    && k <= |trace| && Legal(c, Init(threads), trace[..k])
    && (Exec(c, Init(threads), trace[..k]).unfinished == 0 <==> zero)
  }

  /** Looks at the count, one after the other from position `from` on: every one but the last found something
      unfinished, and the last found nothing exactly if `drained`. */
  ghost predicate Looks(c: Config, threads: nat, trace: seq<Action>, from: nat, looks: seq<nat>, drained: bool) {
    && (forall i :: 0 <= i < |looks| ==>
          from <= looks[i] && SawZero(c, threads, trace, looks[i], drained && i == |looks| - 1))
    && forall i :: 0 < i < |looks| ==> looks[i - 1] <= looks[i]
  }

  lemma NextLook(c: Config, threads: nat, before: seq<Action>, after: seq<Action>, from: nat, looks: seq<nat>,
                 zero: bool)
    requires Looks(c, threads, before, from, looks, false) && from <= |before| && before <= after
    requires SawZero(c, threads, after, |after|, zero)
    ensures Looks(c, threads, after, from, looks + [|after|], zero)
  {
    forall i | 0 <= i < |looks| ensures looks[i] <= |before| && SawZero(c, threads, after, looks[i], false) {
      SawStays(c, threads, before, after, looks[i], false);
    }
    hide Legal, Exec;
  }

  lemma SawStays(c: Config, threads: nat, before: seq<Action>, after: seq<Action>, k: nat, zero: bool)
    requires before <= after && SawZero(c, threads, before, k, zero)
    ensures k <= |before| && SawZero(c, threads, after, k, zero)
  {
    hide Legal, Exec;
    assert after[..k] == before[..k];
  }

  /** What one attempt changes. */
  lemma {:induction false} AttemptEffect(c: Config, s: State, outcome: Outcome, now: real)
    requires s.worker.Persisting?
    ensures var s', prune := Next(c, s, Work(Persist(outcome, now))), outcome.Stored? && now - s.lastPrune >= 60.0;
            && s'.queue == s.queue && s'.unfinished == s.unfinished && s'.dropped == s.dropped && s'.stop == s.stop
            && s'.lastPrune == (if prune then now else s.lastPrune)
            && s'.hist.prunes == (if prune then s.hist.prunes + [now] else s.hist.prunes)
            && s'.hist.rows == (if outcome.NotStored? then s.hist.rows else s.hist.rows + s.batch)
            && s'.hist.givenUp == s.hist.givenUp
            && s'.hist.batches == (if outcome.Stored? then s.hist.batches + [s.batch] else s.hist.batches)
            && (outcome.Stored? ==> s'.worker == Finishing(|s.batch|))
            && (!outcome.Stored? ==>
                  && s'.batch == s.batch
                  && (if s.worker.attempt + 1 < c.maxAttempts then
                        && s'.worker == Persisting(s.worker.attempt + 1)
                        && s'.hist.backoff == s.hist.backoff + Pow2(s.worker.attempt)
                      else
                        s'.worker == GivingUp && s'.hist.backoff == s.hist.backoff))
  {
    hide Pow2;
  }

  class DashboardLogHandler {
    const config: Config
    var queue: seq<Entry>
    var unfinished: int
    var dropped: int
    var stop: bool
    var lastPrune: real
    var rows: seq<Entry>    // the table behind the store
    var pruned: nat         // how often it was pruned
    ghost const threads: nat
    ghost var emitters: seq<Emitter>
    ghost var worker: Worker
    ghost var batch: seq<Entry>
    ghost var hist: History
    ghost var trace: seq<Action>

    ghost function View(): State
      reads this
    {
      State(queue, unfinished, dropped, stop, lastPrune, emitters, worker, batch, hist)
    }

    /** The object is in the state its trace leads to. */
    ghost predicate Valid()
      reads this
    {
      && config.Valid()
      && Legal(config, Init(threads), trace)
      && View() == Exec(config, Init(threads), trace)
      && rows == hist.rows && pruned == |hist.prunes|
    }

    /** The object has gone on from its old state by steps of the machine. */
    twostate predicate Ran()
      reads this
    {
      Valid() && old(trace) <= trace
    }

    constructor (config: Config, ghost threads: nat)
      requires config.Valid()
      ensures Valid() && this.config == config && this.threads == threads && trace == []
    {
      this.config := config;
      this.threads := threads;
      queue, unfinished, dropped, stop, lastPrune, rows, pruned := [], 0, 0, false, 0.0, [], 0;
      emitters, worker, batch := seq(threads, _ => Idle), Polling, [];
      hist, trace := NO_HISTORY, [];
    }

    /** The constructor of the source refuses settings that are not positive. */
    static method Create(config: Config, ghost threads: nat) returns (handler: Option<DashboardLogHandler>)
      ensures handler.Some? <==>
              && config.capacity > 0 && config.batchSize > 0 && config.flushInterval > 0.0
              && config.maxAttempts > 0 && config.retryBackoff > 0.0
      ensures handler.Some? ==>
                && fresh(handler.value) && handler.value.Valid() && handler.value.config == config
                && handler.value.View() == Init(threads)
    {
      if config.capacity <= 0 || config.batchSize <= 0 || config.flushInterval <= 0.0
         || config.maxAttempts <= 0 || config.retryBackoff <= 0.0 {
        return None;
      }
      var h := new DashboardLogHandler(config, threads);
      handler := Some(h);
    }

    // ------------------------------------------------------------ the other actors

    /** Any legal stretch of steps of the others.  Callers rely on this contract alone, which every
        such stretch meets; the empty one is merely the shortest. */
    method Interfere(ghost me: Actor)
      requires Valid()
      modifies this
      ensures Ran() && Others(me, trace, |old(trace)|)
    {
    }

    /** The others run for a while.  If the trace shows that nobody did, nothing has changed. */
    method AwaitTurn(ghost me: Actor, ghost from: nat)
      requires Valid() && from <= |trace|
      modifies this
      ensures Ran()
      ensures Kept(me, old(View()), View()) && KeptCounts(me, old(trace), trace)
      ensures Alone(me, trace, from) ==> Alone(me, old(trace), from) && View() == old(View()) && trace == old(trace)
    {
      ghost var s, before := View(), trace;
      Interfere(me);
      hide Kept, KeptCounts, Legal, Exec;
      Continue(config, Init(threads), before, trace);
      assert forall i :: 0 <= i < |trace[|before|..]| ==> trace[|before|..][i] == trace[i + |before|];
      OthersKeep(config, s, trace[|before|..], me);
      OthersKeepCounts(before, trace, me);
      if |trace| > |before| {
        assert !By(me, trace[|before|]);
      } else {
        assert trace == before;
      }
    }

    /** The change just made to the real fields is step `a` of the machine, taken in `s`. */
    ghost method Follow(s: State, a: Action, me: Actor, from: nat)
      requires from <= |trace|
      requires config.Valid() && Legal(config, Init(threads), trace) && s == Exec(config, Init(threads), trace)
      requires Enabled(config, s, a)
      requires var s' := Next(config, s, a);
               && queue == s'.queue && unfinished == s'.unfinished && dropped == s'.dropped
               && stop == s'.stop && lastPrune == s'.lastPrune && rows == s'.hist.rows
               && pruned == |s'.hist.prunes|
      modifies this`emitters, this`worker, this`batch, this`hist, this`trace
      ensures Valid() && View() == Next(config, s, a)
      ensures trace == old(trace) + [a]
      ensures By(me, a) ==> (Alone(me, trace, from) <==> Alone(me, old(trace), from))
      ensures me.Thread? ==> Begun(me.t, trace) == old(Begun(me.t, trace)) + BegunBy(me.t, a)
      ensures me.TheWorker? ==>
                && Tally(trace, EndsPass) == old(Tally(trace, EndsPass)) + (if EndsPass(a) then 1 else 0)
                && Tally(trace, IsAttempt) == old(Tally(trace, IsAttempt)) + (if IsAttempt(a) then 1 else 0)
      ensures me.Caller? ==> Closes(me.n, trace) == old(Closes(me.n, trace)) + (if By(me, a) then 1 else 0)
    {
      hide Enabled, Next, Begun, Alone, Tally, Closes;
      Snoc(trace, a, me, from);
      var s' := Next(config, s, a);
      OneMore(config, Init(threads), trace, a);
      emitters, worker, batch, hist := s'.emitters, s'.worker, s'.batch, s'.hist;
      trace := trace + [a];
    }

    // ------------------------------------------------------------ shared primitives

    /** queue.Queue.put_nowait; false stands for queue.Full. */
    method PutNowait(entry: Entry) returns (ok: bool)
      modifies this`queue, this`unfinished
      ensures ok == (|old(queue)| < config.capacity)
      ensures queue == (if ok then old(queue) + [entry] else old(queue))
      ensures unfinished == (if ok then old(unfinished) + 1 else old(unfinished))
    {
      ok := |queue| < config.capacity;
      if ok {
        queue := queue + [entry];
        unfinished := unfinished + 1;
      }
    }

    /** queue.Queue.get_nowait, and the end of a get with a timeout; None stands for queue.Empty. */
    method GetNowait() returns (entry: Option<Entry>)
      modifies this`queue
      ensures if old(queue) == [] then entry == None && queue == []
              else entry == Some(old(queue)[0]) && queue == old(queue)[1..]
    {
      if queue == [] { return None; }
      entry := Some(queue[0]);
      queue := queue[1..];
    }

    /** queue.Queue.task_done raises when no task is unfinished. */
    method TaskDone()
      requires unfinished >= 1
      modifies this`unfinished
      ensures unfinished == old(unfinished) - 1
    {
      unfinished := unfinished - 1;
    }

    method RecordDrops(count: nat)
      modifies this`dropped
      ensures dropped == old(dropped) + count
    {
      dropped := dropped + count;
    }

    /** The store's record_logs, which may raise before its commit, or after it when it prunes. */
    method RecordLogs(entries: seq<Entry>, prune: bool) returns (outcome: Outcome)
      modifies this`rows, this`pruned
      ensures rows == if outcome.NotStored? then old(rows) else old(rows) + entries
      ensures pruned == if outcome.Stored? && prune then old(pruned) + 1 else old(pruned)
    {
      outcome := *;
      if !outcome.NotStored? { rows := rows + entries; }
      if outcome.Stored? && prune { pruned := pruned + 1; }
    }

    // ------------------------------------------------------------ emit

    /** `emit` by thread `t`.  It begins exactly this entry and leaves nothing half done; undisturbed, a
        full queue drops the entry, or its oldest one in favour of a record of level WARNING or above. */
    method Emit(t: nat, e: Entry)
      requires Valid() && t < |emitters| && emitters[t].Idle?
      modifies this
      ensures Ran() && t < |emitters| && emitters[t].Idle?
      ensures Begun(t, trace) == old(Begun(t, trace)) + [e]
      ensures Alone(Thread(t), trace, |old(trace)|) ==>
                if |old(queue)| < config.capacity then
                  queue == old(queue) + [e] && dropped == old(dropped) && unfinished == old(unfinished) + 1
                else if e.warning then
                  queue == old(queue)[1..] + [e] && dropped == old(dropped) + 1 && unfinished == old(unfinished)
                else
                  queue == old(queue) && dropped == old(dropped) + 1 && unfinished == old(unfinished)
    {
      hide Legal, Exec, Others, Alone, Begun;
      ghost var from := |trace|;
      Follow(View(), Action.Emit(t, Begin(e)), Thread(t), from);
      var ok := Offer(t, e, from);
      if !ok {
        CountDrop(t, e, from);
        if e.warning { ReplaceOldest(t, e, from); }
      }
    }

    /** `_replace_oldest` by thread `t`, which has counted the drop. */
    method ReplaceOldest(t: nat, e: Entry, ghost from: nat)
      requires Valid() && t < |emitters| && emitters[t] == Evicting(e) && from <= |trace|
      modifies this
      ensures EmitRan(t, from) && emitters[t].Idle?
      ensures Alone(Thread(t), trace, from) && old(queue) != [] ==>
                queue == old(queue)[1..] + [e] && dropped == old(dropped) && unfinished == old(unfinished)
    {
      hide Valid, Alone, Begun, View;
      var found := DropOldest(t, e, from);
      if found { Acknowledged(t, e, from); }
      var ok := Offer(t, e, from);
      if !ok { CountDrop(t, e, from); }
    }

    /** Steps of thread `t` inside one call, and of others. */
    twostate predicate EmitRan(t: nat, from: nat)
      reads this
    {
      && Ran() && t < |emitters|
      && Begun(t, trace) == old(Begun(t, trace))
      && (Alone(Thread(t), trace, from) ==> Alone(Thread(t), old(trace), from))
    }

    /** put_nowait, the first time or again. */
    method Offer(t: nat, e: Entry, ghost from: nat) returns (ok: bool)
      requires Valid() && t < |emitters| && from <= |trace|
      requires emitters[t] == Offering(e) || emitters[t] == Reputting(e)
      modifies this
      ensures EmitRan(t, from)
      ensures emitters[t] == if ok then Idle else if old(emitters[t]).Offering? then Rejected(e) else RejectedAgain(e)
      ensures Alone(Thread(t), trace, from) ==>
                && ok == (|old(queue)| < config.capacity) && dropped == old(dropped)
                && queue == (if ok then old(queue) + [e] else old(queue))
                && unfinished == (if ok then old(unfinished) + 1 else old(unfinished))
                && |queue| <= config.capacity
    {
      hide Legal, Exec, Others, Alone, Begun;
      AwaitTurn(Thread(t), from);
      ghost var s := View();
      ok := PutNowait(e);
      Follow(s, Action.Emit(t, if emitters[t].Offering? then Put else PutAgain), Thread(t), from);
      QueueBounded();
    }

    method CountDrop(t: nat, e: Entry, ghost from: nat)
      requires Valid() && t < |emitters| && from <= |trace|
      requires emitters[t] == Rejected(e) || emitters[t] == RejectedAgain(e)
      modifies this
      ensures EmitRan(t, from)
      ensures emitters[t] == if old(emitters[t]).Rejected? && e.warning then Evicting(e) else Idle
      ensures Alone(Thread(t), trace, from) ==>
                queue == old(queue) && dropped == old(dropped) + 1 && unfinished == old(unfinished)
    {
      hide Legal, Exec, Others, Alone, Begun;
      AwaitTurn(Thread(t), from);
      ghost var s := View();
      RecordDrops(1);
      Follow(s, Action.Emit(t, if emitters[t].Rejected? then LogWriter.Count else CountAgain), Thread(t), from);
    }

    method DropOldest(t: nat, e: Entry, ghost from: nat) returns (found: bool)
      requires Valid() && t < |emitters| && from <= |trace| && emitters[t] == Evicting(e)
      modifies this
      ensures EmitRan(t, from)
      ensures emitters[t] == if found then Acknowledging(e) else Reputting(e)
      ensures Alone(Thread(t), trace, from) ==>
                && found == (old(queue) != []) && queue == (if found then old(queue)[1..] else [])
                && dropped == old(dropped) && unfinished == old(unfinished)
                && |old(queue)| <= config.capacity
    {
      hide Legal, Exec, Others, Alone, Begun;
      AwaitTurn(Thread(t), from);
      QueueBounded();
      ghost var s := View();
      var oldest := GetNowait();
      Follow(s, Action.Emit(t, Evict), Thread(t), from);
      found := oldest.Some?;
    }

    method Acknowledged(t: nat, e: Entry, ghost from: nat)
      requires Valid() && t < |emitters| && from <= |trace| && emitters[t] == Acknowledging(e)
      modifies this
      ensures EmitRan(t, from) && emitters[t] == Reputting(e)
      ensures Alone(Thread(t), trace, from) ==>
                queue == old(queue) && dropped == old(dropped) && unfinished == old(unfinished) - 1
    {
      hide Legal, Exec, Others, Alone, Begun;
      AwaitTurn(Thread(t), from);
      ghost var s := View();
      TaskDoneNeverUnderflows(config, threads, trace, Action.Emit(t, Acknowledge));
      TaskDone();
      Follow(s, Action.Emit(t, Acknowledge), Thread(t), from);
    }

    lemma QueueBounded()
      requires Valid()
      ensures |queue| <= config.capacity
    {
      EveryRunKeepsInv(config, threads, trace);
    }

    // ------------------------------------------------------------ the worker

    /** `_run`, for at most the given number of passes: true once it has ended, which it does exactly
        where the worker of the machine exits. */
    method Run(clock: Clock, passes: nat) returns (ended: bool)
      requires Valid() && worker.Polling?
      modifies this, clock
      ensures Ran()
      ensures if ended then worker.Exited?
              else worker.Polling? && Tally(trace, EndsPass) == old(Tally(trace, EndsPass)) + passes
    {
      hide Valid, View;
      for pass := 0 to passes
        invariant WorkRan(pass) && worker.Polling?
      {
        var needed := RunPass(clock);
        if !needed { return true; }
      }
      ended := false;
    }

    /** One pass of the loop, unless its condition fails. */
    method RunPass(clock: Clock) returns (needed: bool)
      requires Valid() && worker.Polling?
      modifies this, clock
      ensures if needed then WorkRan(1) && worker.Polling? else Ran() && worker.Exited?
    {
      hide Valid, View, Tally;
      needed := StillNeeded();
      if !needed { return; }
      var entries := CollectBatch(clock);
      if entries != [] {
        var _, _ := PersistWithRetries(clock, entries);
        AcknowledgeAll(|entries|);
      }
    }

    /** Steps of the worker, and of others. */
    twostate predicate WorkRan(passes: nat)
      reads this
    {
      Ran() && Tally(trace, EndsPass) == old(Tally(trace, EndsPass)) + passes
    }

    /** The condition of the loop: stop is not set, or the queue is not empty. */
    method StillNeeded() returns (needed: bool)
      requires Valid() && worker.Polling?
      modifies this
      ensures WorkRan(0)
      ensures worker == if needed then Getting else Exited
    {
      hide Legal, Exec, Others, Alone, Tally;
      AwaitTurn(TheWorker, 0);
      Follow(View(), Work(Poll), TheWorker, 0);
      if !stop { return true; }
      AwaitTurn(TheWorker, 0);
      Follow(View(), Work(CheckEmpty), TheWorker, 0);
      needed := queue != [];
    }

    /** Waits for a first entry, then fills the batch until it is full, time is up, or the queue is empty. */
    method CollectBatch(clock: Clock) returns (entries: seq<Entry>)
      requires Valid() && worker.Getting?
      modifies this, clock
      ensures entries == [] ==> WorkRan(1) && worker.Polling?
      ensures entries != [] ==>
                && WorkRan(0) && |entries| <= config.batchSize
                && worker == Persisting(0) && batch == entries && hist.backoff == 0
                && (|| |entries| == config.batchSize || queue == []
                    || clock.now - old(clock.now) >= config.flushInterval)
    {
      BatchEmpty();
      hide Valid, View, Tally;
      var first := Take([]);
      if first.None? { return []; }
      entries := [first.value];
      var now := clock.Monotonic();
      var deadline := now + config.flushInterval;
      while |entries| < config.batchSize
        invariant WorkRan(0) && worker.Filling? && batch == entries && 1 <= |entries| <= config.batchSize
        invariant clock.now >= deadline - config.flushInterval >= old(clock.now)
      {
        now := clock.Monotonic();
        var remaining := deadline - now;
        if remaining <= 0.0 { break; }
        var next := Take(entries);
        if next.None? { break; }
        entries := entries + [next.value];
      }
      StopFilling();
    }

    /** A get with a timeout: when it runs out on the first entry the pass is over. */
    method Take(entries: seq<Entry>) returns (entry: Option<Entry>)
      requires Valid() && batch == entries
      requires worker.Getting? || (worker.Filling? && |entries| < config.batchSize)
      modifies this
      ensures entry.Some? ==> WorkRan(0) && worker.Filling? && batch == entries + [entry.value]
      ensures entry.None? ==>
                && queue == []
                && (if old(worker).Getting? then WorkRan(1) && worker.Polling?
                    else WorkRan(0) && worker.Filling? && batch == entries)
    {
      hide Legal, Exec, Others, Alone, Tally;
      AwaitTurn(TheWorker, 0);
      ghost var s := View();
      entry := GetNowait();
      if entry.Some? {
        Follow(s, Work(if worker.Getting? then Get else Fill), TheWorker, 0);
      } else if worker.Getting? {
        Follow(s, Work(GetTimeout), TheWorker, 0);
      }
    }

    ghost method StopFilling()
      requires Valid() && worker.Filling?
      modifies this
      ensures WorkRan(0) && batch == old(batch) && worker == Persisting(0) && hist.backoff == 0
      ensures queue == old(queue)
    {
      hide Legal, Exec, Others, Alone, Tally;
      Follow(View(), Work(FillStop), TheWorker, 0);
    }

    lemma BatchEmpty()
      requires Valid() && worker.Getting?
      ensures batch == [] && config.batchSize >= 1
    {
      EveryRunKeepsInv(config, threads, trace);
    }

    /** The attempts to persist one batch: stored once on the first success, otherwise given up and counted
        as dropped after every attempt has failed and the full back-off has been asked for. */
    method PersistWithRetries(clock: Clock, entries: seq<Entry>) returns (persisted: bool, waited: nat)
      requires Valid() && worker == Persisting(0) && batch == entries && hist.backoff == 0
      modifies this, clock
      ensures WorkRan(0) && worker == Finishing(|entries|)
      ensures persisted ==>
                && hist.batches == old(hist.batches) + [entries] && hist.givenUp == old(hist.givenUp)
                && Tally(trace, IsAttempt) <= old(Tally(trace, IsAttempt)) + config.maxAttempts
      ensures !persisted ==>
                && hist.batches == old(hist.batches) && hist.givenUp == old(hist.givenUp) + entries
                && Tally(trace, IsAttempt) == old(Tally(trace, IsAttempt)) + config.maxAttempts
                && waited == Pow2(config.maxAttempts - 1) - 1
      ensures Alone(TheWorker, trace, |old(trace)|) ==>
                queue == old(queue) && dropped == old(dropped) + (if persisted then 0 else |entries|)
    {
      assert config.maxAttempts > 0;
      hide Valid, View, Alone, Tally, Pow2;
      ghost var from := |trace|;
      persisted, waited := false, 0;
      var attempt := 0;
      while attempt < config.maxAttempts && !persisted
        invariant attempt <= config.maxAttempts
        invariant WorkRan(0) && Tally(trace, IsAttempt) == old(Tally(trace, IsAttempt)) + attempt
        invariant hist.givenUp == old(hist.givenUp) && from == |old(trace)|
        invariant persisted ==>
                    worker == Finishing(|entries|) && hist.batches == old(hist.batches) + [entries]
        invariant !persisted ==>
                    && batch == entries && hist.batches == old(hist.batches) && waited == hist.backoff
                    && worker == (if attempt < config.maxAttempts then Persisting(attempt) else GivingUp)
        invariant Alone(TheWorker, trace, from) ==> queue == old(queue) && dropped == old(dropped)
      {
        persisted := PersistBatch(clock, entries, from);
        if !persisted && attempt + 1 < config.maxAttempts { waited := waited + Pow2(attempt); }
        attempt := attempt + 1;
      }
      if !persisted {
        FullyBackedOff();
        GiveUpBatch(entries, from);
      }
    }

    lemma FullyBackedOff()
      requires Valid() && worker.GivingUp?
      ensures hist.backoff == Pow2(config.maxAttempts - 1) - 1
    {
      EveryRunKeepsInv(config, threads, trace);
    }

    /** `_persist_batch`: one attempt; a raise of record_logs is a failure, whatever it committed. */
    method PersistBatch(clock: Clock, entries: seq<Entry>, ghost from: nat) returns (persisted: bool)
      requires Valid() && worker.Persisting? && batch == entries && from <= |trace|
      modifies this, clock
      // a stored batch is pruned after exactly when the last prune is 60 seconds back, so none is left due
      ensures persisted ==> clock.now - lastPrune < 60.0
      ensures lastPrune == if persisted && clock.now - old(lastPrune) >= 60.0 then clock.now else old(lastPrune)
      ensures hist.prunes == if lastPrune == old(lastPrune) then old(hist.prunes) else old(hist.prunes) + [lastPrune]
      ensures WorkRan(0) && Tally(trace, IsAttempt) == old(Tally(trace, IsAttempt)) + 1
      ensures hist.givenUp == old(hist.givenUp)
      ensures hist.batches == if persisted then old(hist.batches) + [entries] else old(hist.batches)
      ensures persisted ==> worker == Finishing(|entries|)
      ensures !persisted ==>
                && batch == entries
                && (var attempt := old(worker.attempt);
                    if attempt + 1 < config.maxAttempts then
                      worker == Persisting(attempt + 1) && hist.backoff == old(hist.backoff) + Pow2(attempt)
                    else
                      worker == GivingUp && hist.backoff == old(hist.backoff))
      ensures Alone(TheWorker, trace, from) ==>
                Alone(TheWorker, old(trace), from) && queue == old(queue) && dropped == old(dropped)
    {
      hide Legal, Exec, Others, Alone, Tally, Begun, Pow2, Next;
      var now := clock.Monotonic();
      var prune := now - lastPrune >= PRUNE_INTERVAL;
      AwaitTurn(TheWorker, from);
      ghost var s := View();
      var outcome := RecordLogs(entries, prune);
      persisted := outcome.Stored?;
      if persisted && prune { lastPrune := now; }
      AttemptEffect(config, s, outcome, now);
      Follow(s, Work(Persist(outcome, now)), TheWorker, from);
    }

    method GiveUpBatch(entries: seq<Entry>, ghost from: nat)
      requires Valid() && worker.GivingUp? && batch == entries && from <= |trace|
      modifies this
      ensures WorkRan(0) && Tally(trace, IsAttempt) == old(Tally(trace, IsAttempt))
      ensures worker == Finishing(|entries|)
      ensures hist.batches == old(hist.batches) && hist.givenUp == old(hist.givenUp) + entries
      ensures Alone(TheWorker, trace, from) ==>
                && Alone(TheWorker, old(trace), from)
                && queue == old(queue) && dropped == old(dropped) + |entries|
    {
      hide Legal, Exec, Others, Alone, Tally;
      AwaitTurn(TheWorker, from);
      ghost var s := View();
      RecordDrops(|entries|);
      Follow(s, Work(GiveUp), TheWorker, from);
    }

    /** task_done for every entry of the batch; the pass ends here. */
    method AcknowledgeAll(count: nat)
      requires Valid() && worker == Finishing(count)
      modifies this
      ensures WorkRan(1) && worker.Polling?
    {
      hide Legal, Exec, Others, Alone, Tally;
      for i := 0 to count
        invariant WorkRan(0) && worker == Finishing(count - i)
      {
        AcknowledgeOne();
      }
      Follow(View(), Work(NextRound), TheWorker, 0);
    }

    method AcknowledgeOne()
      requires Valid() && worker.Finishing? && worker.left > 0
      modifies this
      ensures WorkRan(0) && worker == Finishing(old(worker.left) - 1)
    {
      hide Legal, Exec, Others, Alone, Tally;
      AwaitTurn(TheWorker, 0);
      ghost var s := View();
      TaskDoneNeverUnderflows(config, threads, trace, Work(WorkStep.TaskDone));
      TaskDone();
      Follow(s, Work(WorkStep.TaskDone), TheWorker, 0);
    }

    // ------------------------------------------------------------ flush and close

    const SECONDS_TO_WAIT := 2.0
    const NAP := 0.01

    /** `flush` by caller `n`: looks at the count until it is zero or two seconds are over, sleeping in between, and
        takes no step itself.  `looks` are the positions in the trace at which it looked. */
    method Flush(clock: Clock, ghost n: nat) returns (drained: bool, ghost looks: seq<nat>)
      requires Valid()
      modifies this, clock
      ensures Ran() && old(hist.puts) <= hist.puts && Closes(n, trace) == old(Closes(n, trace))
      ensures Alone(Caller(n), trace, |old(trace)|) ==>
                View() == old(View()) && (old(unfinished) == 0 ==> drained)
      // every look but the last found something unfinished, the last one nothing exactly when drained
      ensures 1 <= |looks| <= 201 && Looks(config, threads, trace, |old(trace)|, looks, drained)
      // one nap between two looks, and it gives up only after two seconds
      ensures clock.ticks == old(clock.ticks) + 2 * |looks| - (if drained then 1 else 0)
      ensures clock.now == old(clock.now) + clock.Passed(old(clock.ticks), clock.ticks) + 0.01 * (|looks| - 1) as real
      ensures !drained ==> clock.now - old(clock.now) >= 2.0
      // when it ends on the count, every entry put so far is persisted or counted as dropped
      ensures drained ==> forall x :: PutsAccountedFor(View(), x)
    {
      ghost var from := |trace|;
      looks := [];
      assert Looks(config, threads, trace, from, [], false);
      hide Valid, View, SawZero, Looks, Alone, Closes, PutsAccountedFor;
      var now := clock.Monotonic();
      var deadline := now + SECONDS_TO_WAIT;
      assert clock.Passed(old(clock.ticks), clock.ticks) == clock.Gap(old(clock.ticks));
      while true
        invariant Ran() && old(hist.puts) <= hist.puts && Closes(n, trace) == old(Closes(n, trace))
        invariant Alone(Caller(n), trace, from) ==>
                    View() == old(View()) && unfinished == old(unfinished) && (old(unfinished) == 0 ==> looks == [])
        invariant |looks| <= 200 && Looks(config, threads, trace, from, looks, false)
        invariant clock.ticks == old(clock.ticks) + 1 + 2 * |looks|
        invariant clock.now
               == old(clock.now) + clock.Passed(old(clock.ticks), clock.ticks) + 0.01 * |looks| as real
        invariant deadline - SECONDS_TO_WAIT + 0.01 * |looks| as real <= clock.now
        invariant old(clock.now) <= deadline - SECONDS_TO_WAIT
        decreases 200 - |looks|
      {
        ghost var before := trace;
        var zero := Look(n, from);
        NextLook(config, threads, before, trace, from, looks, zero);
        looks := looks + [|trace|];
        if zero {
          Drained();
          return true, looks;
        }
        ghost var tick := clock.ticks;
        var over := NapUnlessOver(clock, deadline);
        clock.PassedAdds(old(clock.ticks), tick, clock.ticks);
        if over { return false, looks; }
      }
    }

    /** The rest of a round: whether the time is over, and a nap if it is not. */
    method NapUnlessOver(clock: Clock, deadline: real) returns (over: bool)
      modifies clock
      ensures over ==> clock.now >= deadline && clock.ticks == old(clock.ticks) + 1
      ensures !over ==> old(clock.now) < deadline && clock.ticks == old(clock.ticks) + 2
      ensures clock.now
           == old(clock.now) + clock.Passed(old(clock.ticks), clock.ticks) + (if over then 0.0 else NAP)
    {
      ghost var tick := clock.ticks;
      var now := clock.Monotonic();
      assert clock.Passed(tick, tick + 1) == clock.Gap(tick);
      over := now >= deadline;
      if !over { clock.Sleep(NAP); }
    }

    /** One look at the count of unfinished tasks. */
    method Look(ghost n: nat, ghost from: nat) returns (zero: bool)
      requires Valid() && from <= |trace|
      modifies this
      ensures Ran() && old(hist.puts) <= hist.puts && Closes(n, trace) == old(Closes(n, trace))
      ensures Alone(Caller(n), trace, from) ==>
                Alone(Caller(n), old(trace), from) && View() == old(View()) && unfinished == old(unfinished)
      ensures zero == (unfinished == 0) && SawZero(config, threads, trace, |trace|, zero)
    {
      hide Legal, Exec, Others, Alone, Tally, Closes;
      AwaitTurn(Caller(n), from);
      assert trace[..|trace|] == trace;
      zero := unfinished == 0;
    }

    lemma Drained()
      requires Valid() && unfinished == 0
      ensures forall x :: PutsAccountedFor(View(), x)
    {
      forall x ensures PutsAccountedFor(View(), x) {
        FlushOnZero(config, threads, trace, [], x);
      }
    }

    /** `close` by caller `n`, without the join: sets stop at most once, not at all when it was set before, and
        leaves it set; undisturbed, that is all that happens. */
    method Close(ghost n: nat)
      requires Valid()
      modifies this
      ensures Ran() && stop
      ensures Closes(n, trace) <= old(Closes(n, trace)) + 1
      ensures old(stop) ==> Closes(n, trace) == old(Closes(n, trace))
      ensures Alone(Caller(n), trace, |old(trace)|) ==>
                && View() == old(View()).(stop := true)
                && trace == old(trace) + if old(stop) then [] else [Action.Close(n)]
    {
      hide Legal, Exec, Others, Alone, Tally, Closes;
      ghost var from := |trace|;
      AwaitTurn(Caller(n), from);
      if !stop {
        AwaitTurn(Caller(n), from);
        ghost var s := View();
        stop := true;
        Follow(s, Action.Close(n), Caller(n), from);
        AwaitTurn(Caller(n), from);
      }
    }
  }
}
