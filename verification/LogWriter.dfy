/** The dashboard log writer as a step machine: any number of threads emit entries into
    one bounded queue, one worker batches them into the store.  Every step is one atomic
    access to shared state, so a run is an arbitrary interleaving.
 */
module LogWriter {

  /** `warning` says whether the record's level is WARNING or above. */
  datatype Entry = Entry(id: nat, warning: bool)

  datatype Config = Config(
    capacity: int,
    batchSize: int,
    flushInterval: real,
    maxAttempts: int,
    retryBackoff: real)
  {
    /** The constructor refuses every other setting. */
    predicate Valid() {
      capacity > 0 && batchSize > 0 && flushInterval > 0.0 && maxAttempts > 0 && retryBackoff > 0.0
    }
  }

  /** Where a thread stands inside `emit`; every place but Idle and Offering lies behind a full queue. */
  datatype Emitter =
    | Idle
    | Offering(entry: Entry)       // about to call put_nowait
    | Rejected(entry: Entry)       // queue was full, drop not yet counted
    | Evicting(entry: Entry)       // drop counted, about to call get_nowait
    | Acknowledging(entry: Entry)  // took the oldest entry, about to call task_done
    | Reputting(entry: Entry)      // about to call put_nowait again
    | RejectedAgain(entry: Entry)  // queue was full again, drop not yet counted

  /** Where the worker stands inside `_run`. */
  datatype Worker =
    | Polling                 // about to read the stop event
    | CheckingEmpty           // stop was set, about to read queue.empty()
    | Getting                 // waiting for the first entry of a batch
    | Filling                 // batch open, waiting for more
    | Persisting(attempt: nat)
    | GivingUp                // every attempt failed, drops not yet counted
    | Finishing(left: nat)    // task_done still to be called `left` times
    | Exited

  /** What one call of record_logs does: the rows are committed and the call returns, nothing is
      committed and it raises, or the rows are committed and pruning raises afterwards. */
  datatype Outcome = Stored | NotStored | StoredThenRaised

  /** What has happened so far.  `puts` are the entries accepted by the queue in order, and the
      first `popped` of them have left it.  `batches` were persisted; `persistedAt` and `batchAt`
      are the positions in `puts` of the persisted entries and of the open batch. */
  datatype History = History(
    offered: seq<Entry>,
    puts: seq<Entry>,
    popped: nat,
    batches: seq<seq<Entry>>,
    persistedAt: seq<nat>,
    batchAt: seq<nat>,
    rejected: seq<Entry>,
    evicted: seq<Entry>,
    givenUp: seq<Entry>,
    emptyEvictions: nat,
    rows: seq<Entry>,
    unreported: seq<Entry>,
    backoff: nat,
    giveUpBackoffs: seq<nat>,
    prunes: seq<real>,
    putsAtExit: nat)

  datatype State = State(
    queue: seq<Entry>,
    unfinished: int,
    dropped: int,
    stop: bool,
    lastPrune: real,
    emitters: seq<Emitter>,
    worker: Worker,
    batch: seq<Entry>,
    hist: History)

  /** The atomic steps of one thread in `emit`. */
  datatype EmitStep =
    | Begin(entry: Entry)
    | Put
    | Count
    | Evict
    | Acknowledge
    | PutAgain
    | CountAgain

  /** The atomic steps of the worker in `_run`. */
  datatype WorkStep =
    | Poll
    | CheckEmpty
    | Get
    | GetTimeout
    | Fill
    | FillStop
    | Persist(outcome: Outcome, now: real)
    | GiveUp
    | TaskDone
    | NextRound

  datatype Action = Emit(t: nat, emit: EmitStep) | Close(caller: nat) | Work(work: WorkStep)

  const NO_HISTORY := History([], [], 0, [], [], [], [], [], [], 0, [], [], 0, [], [], 0)
  const PRUNE_INTERVAL := 60.0

  function Init(threads: nat): State {
    State([], 0, 0, false, 0.0, seq(threads, _ => Idle), Polling, [], NO_HISTORY)
  }

  predicate EmitEnabled(e: Emitter, step: EmitStep) {
    match step
    case Begin(_) => e.Idle?
    case Put => e.Offering?
    case Count => e.Rejected?
    case Evict => e.Evicting?
    case Acknowledge => e.Acknowledging?
    case PutAgain => e.Reputting?
    case CountAgain => e.RejectedAgain?
  }

  predicate WorkEnabled(c: Config, s: State, step: WorkStep) {
    match step
    case Poll => s.worker.Polling?
    case CheckEmpty => s.worker.CheckingEmpty?
    case Get => s.worker.Getting? && s.queue != []
    case GetTimeout => s.worker.Getting? && s.queue == []
    case Fill => s.worker.Filling? && |s.batch| < c.batchSize && s.queue != []
    case FillStop => s.worker.Filling?   // batch full, deadline passed, or queue empty
    case Persist(_, _) => s.worker.Persisting?
    case GiveUp => s.worker.GivingUp?
    case TaskDone => s.worker.Finishing? && s.worker.left > 0
    case NextRound => s.worker.Finishing? && s.worker.left == 0
  }

  predicate Enabled(c: Config, s: State, a: Action) {
    match a
    case Emit(t, step) => t < |s.emitters| && EmitEnabled(s.emitters[t], step)
    case Close(_) => true
    case Work(step) => WorkEnabled(c, s, step)
  }

  /** queue.Queue.put_nowait by thread `t`: a full queue sends it to `full` instead. */
  function PutNowait(c: Config, s: State, t: nat, entry: Entry, full: Emitter): State
    requires t < |s.emitters|
  {
    if |s.queue| < c.capacity then
      s.(queue := s.queue + [entry], unfinished := s.unfinished + 1,
         emitters := s.emitters[t := Idle],
         hist := s.hist.(puts := s.hist.puts + [entry]))
    else
      s.(emitters := s.emitters[t := full])
  }

  /** The worker moves the oldest entry from the queue into its batch. */
  function Take(s: State): State
    requires s.queue != []
  {
    s.(queue := s.queue[1..], batch := s.batch + [s.queue[0]], worker := Filling,
       hist := s.hist.(popped := s.hist.popped + 1, batchAt := s.hist.batchAt + [s.hist.popped]))
  }

  function Prunes(s: State, now: real): bool {
    now - s.lastPrune >= PRUNE_INTERVAL
  }

  /** One call of `_persist_batch`, and the loop's reaction to its result. */
  function PersistOnce(c: Config, s: State, outcome: Outcome, now: real): State
    requires s.worker.Persisting?
  {
    var h := s.hist;
    var prune := Prunes(s, now);
    if outcome.Stored? then
      s.(lastPrune := if prune then now else s.lastPrune,
         worker := Finishing(|s.batch|), batch := [],
         hist := h.(batches := h.batches + [s.batch], rows := h.rows + s.batch,
                    persistedAt := h.persistedAt + h.batchAt, batchAt := [],
                    prunes := if prune then h.prunes + [now] else h.prunes))
    else
      var h1 := if outcome.NotStored? then h
                else h.(rows := h.rows + s.batch, unreported := h.unreported + s.batch);
      if s.worker.attempt + 1 < c.maxAttempts then
        s.(worker := Persisting(s.worker.attempt + 1),
           hist := h1.(backoff := h1.backoff + Pow2(s.worker.attempt)))
      else
        s.(worker := GivingUp, hist := h1)
  }

  function EmitNext(c: Config, s: State, t: nat, step: EmitStep): State
    requires t < |s.emitters| && EmitEnabled(s.emitters[t], step)
  {
    var h := s.hist;
    match step
    case Begin(e) =>
      s.(emitters := s.emitters[t := Offering(e)], hist := h.(offered := h.offered + [e]))
    case Put =>
      PutNowait(c, s, t, s.emitters[t].entry, Rejected(s.emitters[t].entry))
    case Count =>
      var e := s.emitters[t].entry;
      if e.warning then
        s.(dropped := s.dropped + 1, emitters := s.emitters[t := Evicting(e)])
      else
        s.(dropped := s.dropped + 1, emitters := s.emitters[t := Idle],
           hist := h.(rejected := h.rejected + [e]))
    case Evict =>
      var e := s.emitters[t].entry;
      if s.queue == [] then
        s.(emitters := s.emitters[t := Reputting(e)], hist := h.(emptyEvictions := h.emptyEvictions + 1))
      else
        s.(queue := s.queue[1..], emitters := s.emitters[t := Acknowledging(e)],
           hist := h.(evicted := h.evicted + [s.queue[0]], popped := h.popped + 1))
    case Acknowledge =>
      s.(unfinished := s.unfinished - 1, emitters := s.emitters[t := Reputting(s.emitters[t].entry)])
    case PutAgain =>
      PutNowait(c, s, t, s.emitters[t].entry, RejectedAgain(s.emitters[t].entry))
    case CountAgain =>
      s.(dropped := s.dropped + 1, emitters := s.emitters[t := Idle],
         hist := h.(rejected := h.rejected + [s.emitters[t].entry]))
  }

  function WorkNext(c: Config, s: State, step: WorkStep): State
    requires WorkEnabled(c, s, step)
  {
    var h := s.hist;
    match step
    case Poll => s.(worker := if s.stop then CheckingEmpty else Getting)
    case CheckEmpty =>
      if s.queue == [] then s.(worker := Exited, hist := h.(putsAtExit := |h.puts|))
      else s.(worker := Getting)
    case Get => Take(s)
    case GetTimeout => s.(worker := Polling)
    case Fill => Take(s)
    case FillStop => s.(worker := Persisting(0), hist := h.(backoff := 0))
    case Persist(outcome, now) => PersistOnce(c, s, outcome, now)
    case GiveUp =>
      s.(dropped := s.dropped + |s.batch|, worker := Finishing(|s.batch|), batch := [],
         hist := h.(givenUp := h.givenUp + s.batch, batchAt := [],
                    giveUpBackoffs := h.giveUpBackoffs + [h.backoff]))
    case TaskDone => s.(unfinished := s.unfinished - 1, worker := Finishing(s.worker.left - 1))
    case NextRound => s.(worker := Polling)
  }

  function Next(c: Config, s: State, a: Action): State
    requires Enabled(c, s, a)
  {
    match a
    case Emit(t, step) => EmitNext(c, s, t, step)
    case Close(_) => s.(stop := true)
    case Work(step) => WorkNext(c, s, step)
  }

  // ---------------------------------------------------------------- runs

  ghost predicate Legal(c: Config, s: State, run: seq<Action>)
    decreases |run|
  {
    run == [] || (Enabled(c, s, run[0]) && Legal(c, Next(c, s, run[0]), run[1..]))
  }

  ghost function Exec(c: Config, s: State, run: seq<Action>): State
    requires Legal(c, s, run)
    decreases |run|
  {
    if run == [] then s else Exec(c, Next(c, s, run[0]), run[1..])
  }

  // ---------------------------------------------------------------- measures over threads and batches

  function Pow2(n: nat): nat { if n == 0 then 1 else 2 * Pow2(n - 1) }

  /** How often `x` occurs in `es`. */
  ghost function Occ(es: seq<Entry>, x: Entry): nat {
    if es == [] then 0 else (if es[|es| - 1] == x then 1 else 0) + Occ(es[..|es| - 1], x)
  }

  ghost predicate Holds(e: Emitter, x: Entry) { !e.Idle? && e.entry == x }

  /** How many threads inside `emit` still hold `x`. */
  ghost function Held(es: seq<Emitter>, x: Entry): nat {
    if es == [] then 0 else (if Holds(es[0], x) then 1 else 0) + Held(es[1..], x)
  }

  ghost function CountEvicting(es: seq<Emitter>): nat {
    if es == [] then 0 else (if es[0].Evicting? then 1 else 0) + CountEvicting(es[1..])
  }

  ghost function CountAcknowledging(es: seq<Emitter>): nat {
    if es == [] then 0 else (if es[0].Acknowledging? then 1 else 0) + CountAcknowledging(es[1..])
  }

  ghost function Flatten(batches: seq<seq<Entry>>): seq<Entry> {
    if batches == [] then [] else Flatten(batches[..|batches| - 1]) + batches[|batches| - 1]
  }

  ghost function Persisted(s: State): seq<Entry> { Flatten(s.hist.batches) }

  /** How many times `x` was refused by a full queue, evicted from it, or given up with its batch. */
  ghost function Lost(s: State, x: Entry): nat {
    Occ(s.hist.rejected, x) + Occ(s.hist.evicted, x) + Occ(s.hist.givenUp, x)
  }

  ghost function TotalLost(s: State): nat {
    |s.hist.rejected| + |s.hist.evicted| + |s.hist.givenUp|
  }

  /** Tasks the worker has taken and not yet acknowledged. */
  ghost function Unacknowledged(s: State): nat {
    if s.worker.Finishing? then s.worker.left else |s.batch|
  }

  // ---------------------------------------------------------------- the invariant

  /** Every offered `x` was put, is still held, or was refused. */
  ghost predicate OffersBalance(s: State, x: Entry) {
    Occ(s.hist.offered, x) == Occ(s.hist.puts, x) + Held(s.emitters, x) + Occ(s.hist.rejected, x)
  }

  /** Every `x` put is in exactly one place. */
  ghost predicate PutsBalance(s: State, x: Entry) {
    Occ(s.hist.puts, x) == Occ(Persisted(s), x) + Occ(s.queue, x) + Occ(s.batch, x)
                           + Occ(s.hist.evicted, x) + Occ(s.hist.givenUp, x)
  }

  /** The table holds what was persisted and what attempts committed before they raised. */
  ghost predicate RowsBalance(s: State, x: Entry) {
    Occ(s.hist.rows, x) == Occ(Persisted(s), x) + Occ(s.hist.unreported, x)
  }

  ghost predicate Conserved(s: State, x: Entry) {
    OffersBalance(s, x) && PutsBalance(s, x) && RowsBalance(s, x)
  }

  ghost predicate Counted(c: Config, s: State) {
    && s.dropped == TotalLost(s) + s.hist.emptyEvictions + CountEvicting(s.emitters)
    && s.unfinished == |s.queue| + Unacknowledged(s) + CountAcknowledging(s.emitters)
    && |s.queue| <= c.capacity
  }

  ghost predicate Increasing(at: seq<nat>) {
    forall i, j :: 0 <= i < j < |at| ==> at[i] < at[j]
  }

  /** `at` picks the entries `es` out of `puts`, in the order of `puts`. */
  ghost predicate Picks(at: seq<nat>, es: seq<Entry>, puts: seq<Entry>) {
    && |at| == |es|
    && Increasing(at)
    && forall i :: 0 <= i < |at| ==> at[i] < |puts| && es[i] == puts[at[i]]
  }

  ghost predicate IsSubsequence(es: seq<Entry>, puts: seq<Entry>) {
    exists at :: Picks(at, es, puts)
  }

  ghost predicate Ordered(s: State) {
    && s.hist.popped <= |s.hist.puts|
    && s.queue == s.hist.puts[s.hist.popped..]
    && Picks(s.hist.persistedAt + s.hist.batchAt, Persisted(s) + s.batch, s.hist.puts[..s.hist.popped])
    && |s.hist.batchAt| == |s.batch|
  }

  /** Back-off requested for a batch that failed every attempt, in units of `retry_backoff_seconds`. */
  ghost function FullBackoff(c: Config): int
    requires c.Valid()
  {
    Pow2(c.maxAttempts - 1) - 1
  }

  ghost predicate WorkerOk(c: Config, s: State)
    requires c.Valid()
  {
    && (s.worker.Filling? || s.worker.Persisting? || s.worker.GivingUp? <==> s.batch != [])
    && |s.batch| <= c.batchSize
    && (s.worker.Persisting? ==> s.worker.attempt < c.maxAttempts && s.hist.backoff == Pow2(s.worker.attempt) - 1)
    && (s.worker.GivingUp? ==> s.hist.backoff == FullBackoff(c))
    && (s.worker.Exited? ==> s.stop && s.hist.putsAtExit <= s.hist.popped)
    && (s.worker.CheckingEmpty? ==> s.stop)
  }

  ghost predicate BatchesOk(c: Config, s: State)
    requires c.Valid()
  {
    && (forall i :: 0 <= i < |s.hist.batches| ==> 1 <= |s.hist.batches[i]| <= c.batchSize)
    && (forall i :: 0 <= i < |s.hist.giveUpBackoffs| ==> s.hist.giveUpBackoffs[i] == FullBackoff(c))
  }

  ghost predicate PrunesSpaced(s: State) {
    && s.lastPrune == (if s.hist.prunes == [] then 0.0 else s.hist.prunes[|s.hist.prunes| - 1])
    && forall i :: 0 < i < |s.hist.prunes| ==> s.hist.prunes[i] - s.hist.prunes[i - 1] >= PRUNE_INTERVAL
  }

  ghost predicate Inv(c: Config, s: State) {
    && c.Valid()
    && (forall x :: Conserved(s, x))
    && Counted(c, s) && Ordered(s) && WorkerOk(c, s) && BatchesOk(c, s) && PrunesSpaced(s)
  }

  // ---------------------------------------------------------------- one thread moves

  lemma {:induction false} HeldUpdate(es: seq<Emitter>, t: nat, e: Emitter, x: Entry)
    requires t < |es|
    ensures Held(es[t := e], x) == Held(es, x) - (if Holds(es[t], x) then 1 else 0) + (if Holds(e, x) then 1 else 0)
  {
    if t == 0 {
      assert es[t := e][1..] == es[1..];
    } else {
      assert es[t := e][1..] == es[1..][t - 1 := e];
      HeldUpdate(es[1..], t - 1, e, x);
    }
  }

  lemma {:induction false} CountsUpdate(es: seq<Emitter>, t: nat, e: Emitter)
    requires t < |es|
    ensures CountEvicting(es[t := e])
         == CountEvicting(es) - (if es[t].Evicting? then 1 else 0) + (if e.Evicting? then 1 else 0)
    ensures CountAcknowledging(es[t := e])
         == CountAcknowledging(es) - (if es[t].Acknowledging? then 1 else 0) + (if e.Acknowledging? then 1 else 0)
  {
    if t == 0 {
      assert es[t := e][1..] == es[1..];
    } else {
      assert es[t := e][1..] == es[1..][t - 1 := e];
      CountsUpdate(es[1..], t - 1, e);
    }
  }

  lemma {:induction false} OccEmpty(x: Entry)
    ensures Occ([], x) == 0
  {
  }

  lemma {:induction false} OccSnoc(es: seq<Entry>, e: Entry, x: Entry)
    ensures Occ(es + [e], x) == Occ(es, x) + (if e == x then 1 else 0)
  {
    assert (es + [e])[..|es|] == es;
  }

  lemma {:induction false} OccConcat(es: seq<Entry>, fs: seq<Entry>, x: Entry)
    ensures Occ(es + fs, x) == Occ(es, x) + Occ(fs, x)
  {
    if fs == [] {
      assert es + fs == es;
    } else {
      assert (es + fs)[..|es + fs| - 1] == es + fs[..|fs| - 1];
      OccConcat(es, fs[..|fs| - 1], x);
    }
  }

  lemma {:induction false} OccPop(q: seq<Entry>, x: Entry)
    requires q != []
    ensures Occ(q, x) == (if q[0] == x then 1 else 0) + Occ(q[1..], x)
  {
    assert q == [q[0]] + q[1..];
    OccConcat([q[0]], q[1..], x);
  }

  lemma {:induction false} FlattenSnoc(batches: seq<seq<Entry>>, batch: seq<Entry>)
    ensures Flatten(batches + [batch]) == Flatten(batches) + batch
  {
    assert (batches + [batch])[..|batches|] == batches;
  }

  // ---------------------------------------------------------------- preservation, part by part

  lemma {:induction false} EmitKeepsConserved(c: Config, s: State, t: nat, step: EmitStep, x: Entry)
    requires t < |s.emitters| && EmitEnabled(s.emitters[t], step) && Conserved(s, x)
    ensures Conserved(EmitNext(c, s, t, step), x)
  {
    hide Occ, Held, Flatten;
    HeldUpdate(s.emitters, t, EmitNext(c, s, t, step).emitters[t], x);
    match step
    case Begin(e) => OccSnoc(s.hist.offered, e, x);
    case Put => PutKeepsConserved(c, s, t, s.emitters[t].entry, Rejected(s.emitters[t].entry), x);
    case Count => OccSnoc(s.hist.rejected, s.emitters[t].entry, x);
    case Evict =>
      if s.queue != [] {
        OccPop(s.queue, x);
        OccSnoc(s.hist.evicted, s.queue[0], x);
      }
    case Acknowledge =>
    case PutAgain => PutKeepsConserved(c, s, t, s.emitters[t].entry, RejectedAgain(s.emitters[t].entry), x);
    case CountAgain => OccSnoc(s.hist.rejected, s.emitters[t].entry, x);
  }

  lemma {:induction false} PutKeepsConserved(c: Config, s: State, t: nat, e: Entry, full: Emitter, x: Entry)
    requires t < |s.emitters| && !s.emitters[t].Idle? && s.emitters[t].entry == e
    requires !full.Idle? && full.entry == e && Conserved(s, x)
    ensures Conserved(PutNowait(c, s, t, e, full), x)
  {
    hide Occ, Held, Flatten;
    HeldUpdate(s.emitters, t, full, x);
    HeldUpdate(s.emitters, t, Idle, x);
    OccSnoc(s.queue, e, x);
    OccSnoc(s.hist.puts, e, x);
  }

  lemma {:induction false} TakeKeepsConserved(s: State, x: Entry)
    requires s.queue != [] && Conserved(s, x)
    ensures Conserved(Take(s), x)
  {
    OccPop(s.queue, x);
    OccSnoc(s.batch, s.queue[0], x);
  }

  lemma {:induction false} PersistKeepsConserved(c: Config, s: State, outcome: Outcome, now: real, x: Entry)
    requires s.worker.Persisting? && Conserved(s, x)
    ensures Conserved(PersistOnce(c, s, outcome, now), x)
  {
    hide Occ, Held, Flatten;
    OccEmpty(x);
    FlattenSnoc(s.hist.batches, s.batch);
    OccConcat(Persisted(s), s.batch, x);
    OccConcat(s.hist.rows, s.batch, x);
    OccConcat(s.hist.unreported, s.batch, x);
  }

  lemma {:induction false} WorkKeepsConserved(c: Config, s: State, step: WorkStep, x: Entry)
    requires WorkEnabled(c, s, step) && Conserved(s, x)
    ensures Conserved(WorkNext(c, s, step), x)
  {
    hide Occ, Held, Flatten;
    match step
    case Get => TakeKeepsConserved(s, x);
    case Fill => TakeKeepsConserved(s, x);
    case Persist(outcome, now) => PersistKeepsConserved(c, s, outcome, now, x);
    case GiveUp =>
      OccEmpty(x);
      OccConcat(s.hist.givenUp, s.batch, x);
    case _ =>
  }

  lemma {:induction false} EmitKeepsCounted(c: Config, s: State, t: nat, step: EmitStep)
    requires t < |s.emitters| && EmitEnabled(s.emitters[t], step) && Counted(c, s)
    ensures Counted(c, EmitNext(c, s, t, step))
  {
    hide CountEvicting, CountAcknowledging;
    CountsUpdate(s.emitters, t, EmitNext(c, s, t, step).emitters[t]);
  }

  lemma {:induction false} WorkKeepsCounted(c: Config, s: State, step: WorkStep)
    requires c.Valid() && WorkEnabled(c, s, step) && Counted(c, s) && WorkerOk(c, s)
    ensures Counted(c, WorkNext(c, s, step))
  {
    hide CountEvicting, CountAcknowledging, FullBackoff, Pow2;
  }

  lemma {:induction false} PicksPush(at: seq<nat>, es: seq<Entry>, puts: seq<Entry>, popped: nat)
    requires popped < |puts| && Picks(at, es, puts[..popped])
    ensures Picks(at, es, puts[..popped + 1])
    ensures Picks(at + [popped], es + [puts[popped]], puts[..popped + 1])
  {
  }

  lemma {:induction false} PicksPrefix(at: seq<nat>, es: seq<Entry>, at1: seq<nat>, es1: seq<Entry>, puts: seq<Entry>)
    requires Picks(at + at1, es + es1, puts) && |at1| == |es1|
    ensures Picks(at, es, puts)
  {
    assert forall i :: 0 <= i < |at| ==> at[i] == (at + at1)[i] && es[i] == (es + es1)[i];
  }

  lemma {:induction false} EmitKeepsOrdered(c: Config, s: State, t: nat, step: EmitStep)
    requires t < |s.emitters| && EmitEnabled(s.emitters[t], step) && Ordered(s)
    ensures Ordered(EmitNext(c, s, t, step))
  {
    var h := s.hist;
    if step.Evict? && s.queue != [] {
      PicksPush(h.persistedAt + h.batchAt, Persisted(s) + s.batch, h.puts, h.popped);
    } else if step.Put? || step.PutAgain? {
      var e := s.emitters[t].entry;
      assert (h.puts + [e])[..h.popped] == h.puts[..h.popped];
      assert (h.puts + [e])[h.popped..] == s.queue + [e];
    }
  }

  lemma {:induction false} TakeKeepsOrdered(s: State)
    requires s.queue != [] && Ordered(s)
    ensures Ordered(Take(s))
  {
    var h := s.hist;
    PicksPush(h.persistedAt + h.batchAt, Persisted(s) + s.batch, h.puts, h.popped);
    assert h.persistedAt + h.batchAt + [h.popped] == h.persistedAt + (h.batchAt + [h.popped]);
    assert Persisted(s) + s.batch + [s.queue[0]] == Persisted(s) + (s.batch + [s.queue[0]]);
  }

  lemma {:induction false} PersistKeepsOrdered(c: Config, s: State, outcome: Outcome, now: real)
    requires s.worker.Persisting? && Ordered(s)
    ensures Ordered(PersistOnce(c, s, outcome, now))
  {
    var h := s.hist;
    if outcome.Stored? {
      FlattenSnoc(h.batches, s.batch);
      assert Persisted(s) + s.batch + [] == Persisted(s) + s.batch;
      assert h.persistedAt + h.batchAt + [] == h.persistedAt + h.batchAt;
    }
  }

  lemma {:induction false} WorkKeepsOrdered(c: Config, s: State, step: WorkStep)
    requires WorkEnabled(c, s, step) && Ordered(s)
    ensures Ordered(WorkNext(c, s, step))
  {
    var h := s.hist;
    match step
    case Get => TakeKeepsOrdered(s);
    case Fill => TakeKeepsOrdered(s);
    case Persist(outcome, now) => PersistKeepsOrdered(c, s, outcome, now);
    case GiveUp =>
      PicksPrefix(h.persistedAt, Persisted(s), h.batchAt, s.batch, h.puts[..h.popped]);
      assert h.persistedAt + [] == h.persistedAt && Persisted(s) + [] == Persisted(s);
    case _ =>
  }

  lemma {:induction false} WorkKeepsWorkerOk(c: Config, s: State, step: WorkStep)
    requires c.Valid() && WorkEnabled(c, s, step) && WorkerOk(c, s) && Ordered(s)
    ensures WorkerOk(c, WorkNext(c, s, step))
  {
  }

  lemma {:induction false} WorkKeepsBatches(c: Config, s: State, step: WorkStep)
    requires c.Valid() && WorkEnabled(c, s, step) && WorkerOk(c, s) && BatchesOk(c, s)
    ensures BatchesOk(c, WorkNext(c, s, step))
  {
    hide FullBackoff, Pow2;
  }

  lemma {:induction false} WorkKeepsPrunes(c: Config, s: State, step: WorkStep)
    requires WorkEnabled(c, s, step) && PrunesSpaced(s)
    ensures PrunesSpaced(WorkNext(c, s, step))
  {
    hide Pow2;
  }

  /** `emit` touches neither the worker nor the records about it. */
  lemma {:induction false} EmitLeavesWorker(c: Config, s: State, t: nat, step: EmitStep)
    requires t < |s.emitters| && EmitEnabled(s.emitters[t], step)
    ensures var s' := EmitNext(c, s, t, step);
            && s'.worker == s.worker && s'.batch == s.batch && s'.stop == s.stop && s'.lastPrune == s.lastPrune
            && s'.hist.batches == s.hist.batches && s'.hist.prunes == s.hist.prunes
            && s'.hist.backoff == s.hist.backoff && s'.hist.giveUpBackoffs == s.hist.giveUpBackoffs
            && s'.hist.putsAtExit == s.hist.putsAtExit && s'.hist.popped >= s.hist.popped
  {
  }

  lemma {:induction false} EmitKeepsWorkerOk(c: Config, s: State, t: nat, step: EmitStep)
    requires c.Valid() && t < |s.emitters| && EmitEnabled(s.emitters[t], step)
    requires WorkerOk(c, s) && BatchesOk(c, s) && PrunesSpaced(s)
    ensures var s' := EmitNext(c, s, t, step);
            WorkerOk(c, s') && BatchesOk(c, s') && PrunesSpaced(s')
  {
    hide FullBackoff, Pow2, EmitNext;
    EmitLeavesWorker(c, s, t, step);
  }

  lemma {:induction false} EmitKeepsInv(c: Config, s: State, t: nat, step: EmitStep)
    requires t < |s.emitters| && EmitEnabled(s.emitters[t], step) && Inv(c, s)
    ensures Inv(c, EmitNext(c, s, t, step))
  {
    hide Conserved, Counted, Ordered, WorkerOk, BatchesOk, PrunesSpaced, EmitNext;
    forall x ensures Conserved(EmitNext(c, s, t, step), x) { EmitKeepsConserved(c, s, t, step, x); }
    EmitKeepsCounted(c, s, t, step);
    EmitKeepsOrdered(c, s, t, step);
    EmitKeepsWorkerOk(c, s, t, step);
  }

  lemma {:induction false} WorkKeepsInv(c: Config, s: State, step: WorkStep)
    requires WorkEnabled(c, s, step) && Inv(c, s)
    ensures Inv(c, WorkNext(c, s, step))
  {
    hide Conserved, Counted, Ordered, WorkerOk, BatchesOk, PrunesSpaced, WorkNext;
    forall x ensures Conserved(WorkNext(c, s, step), x) { WorkKeepsConserved(c, s, step, x); }
    WorkKeepsCounted(c, s, step);
    WorkKeepsOrdered(c, s, step);
    WorkKeepsWorkerOk(c, s, step);
    WorkKeepsBatches(c, s, step);
    WorkKeepsPrunes(c, s, step);
  }

  lemma {:induction false} NextKeepsInv(c: Config, s: State, a: Action)
    requires Enabled(c, s, a) && Inv(c, s)
    ensures Inv(c, Next(c, s, a))
  {
    match a
    case Emit(t, step) => EmitKeepsInv(c, s, t, step);
    case Close(_) =>
      forall x ensures Conserved(Next(c, s, a), x) { assert Conserved(s, x); }
    case Work(step) => WorkKeepsInv(c, s, step);
  }

  lemma {:induction false} AllIdle(es: seq<Emitter>)
    requires forall t :: 0 <= t < |es| ==> es[t].Idle?
    ensures CountEvicting(es) == 0 && CountAcknowledging(es) == 0
    ensures forall x :: Held(es, x) == 0
  {
    if es != [] { AllIdle(es[1..]); }
  }

  lemma {:induction false} ExecKeepsInv(c: Config, s: State, run: seq<Action>)
    requires Inv(c, s) && Legal(c, s, run)
    ensures Inv(c, Exec(c, s, run))
    decreases |run|
  {
    if run != [] {
      NextKeepsInv(c, s, run[0]);
      ExecKeepsInv(c, Next(c, s, run[0]), run[1..]);
    }
  }

  lemma {:induction false} InitInv(c: Config, threads: nat)
    requires c.Valid()
    ensures Inv(c, Init(threads))
  {
    AllIdle(Init(threads).emitters);
  }

  /** Every interleaving of every number of threads keeps the invariant. */
  lemma {:induction false} EveryRunKeepsInv(c: Config, threads: nat, run: seq<Action>)
    requires c.Valid() && Legal(c, Init(threads), run)
    ensures Inv(c, Exec(c, Init(threads), run))
  {
    InitInv(c, threads);
    ExecKeepsInv(c, Init(threads), run);
  }

  // ---------------------------------------------------------------- what every run keeps

  /** Entries offered = persisted + queued + in the batch + held by a thread + lost. */
  lemma {:induction false} EntriesConserved(c: Config, threads: nat, run: seq<Action>, x: Entry)
    requires c.Valid() && Legal(c, Init(threads), run)
    ensures var s := Exec(c, Init(threads), run);
            Occ(s.hist.offered, x)
            == Occ(Persisted(s), x) + Occ(s.queue, x) + Occ(s.batch, x) + Held(s.emitters, x) + Lost(s, x)
  {
    EveryRunKeepsInv(c, threads, run);
    assert Conserved(Exec(c, Init(threads), run), x);
  }

  ghost predicate Quiet(s: State) {
    forall t :: 0 <= t < |s.emitters| ==> s.emitters[t].Idle?
  }

  /** The drop counter never understates the loss; between emits its excess is exactly the
      number of emits that met a full queue and then found it empty. */
  lemma {:induction false} DropCounterExact(c: Config, threads: nat, run: seq<Action>)
    requires c.Valid() && Legal(c, Init(threads), run)
    ensures var s := Exec(c, Init(threads), run);
            && s.dropped >= TotalLost(s)
            && (Quiet(s) ==> s.dropped - TotalLost(s) == s.hist.emptyEvictions)
  {
    EveryRunKeepsInv(c, threads, run);
    var s := Exec(c, Init(threads), run);
    if Quiet(s) { AllIdle(s.emitters); }
  }

  lemma {:induction false} AcknowledgingCounted(es: seq<Emitter>, t: nat)
    requires t < |es| && es[t].Acknowledging?
    ensures CountAcknowledging(es) >= 1
  {
    if t > 0 { AcknowledgingCounted(es[1..], t - 1); }
  }

  /** queue.task_done raises when it is called more often than entries were put; here it never does. */
  lemma {:induction false} TaskDoneNeverUnderflows(c: Config, threads: nat, run: seq<Action>, a: Action)
    requires c.Valid() && Legal(c, Init(threads), run)
    requires Enabled(c, Exec(c, Init(threads), run), a)
    requires a == Work(TaskDone) || (a.Emit? && a.emit.Acknowledge?)
    ensures Exec(c, Init(threads), run).unfinished >= 1
  {
    EveryRunKeepsInv(c, threads, run);
    if a.Emit? { AcknowledgingCounted(Exec(c, Init(threads), run).emitters, a.t); }
  }

  /** Persisted batches concatenate to a subsequence of the put order, in batches of 1 to `batchSize`. */
  lemma {:induction false} PersistedInPutOrder(c: Config, threads: nat, run: seq<Action>)
    requires c.Valid() && Legal(c, Init(threads), run)
    ensures var s := Exec(c, Init(threads), run);
            && IsSubsequence(Persisted(s), s.hist.puts)
            && (forall b <- s.hist.batches :: 1 <= |b| <= c.batchSize)
            && |s.queue| <= c.capacity
  {
    EveryRunKeepsInv(c, threads, run);
    var s := Exec(c, Init(threads), run);
    var h := s.hist;
    PicksPrefix(h.persistedAt, Persisted(s), h.batchAt, s.batch, h.puts[..h.popped]);
    assert Picks(h.persistedAt, Persisted(s), h.puts);
    assert IsSubsequence(Persisted(s), h.puts);
  }

  /** A batch that fails every attempt asked for back-off * (2^(attempts-1) - 1) in all, and
      successful prunes are at least the interval apart. */
  lemma {:induction false} BackoffAndPruneSpacing(c: Config, threads: nat, run: seq<Action>)
    requires c.Valid() && Legal(c, Init(threads), run)
    ensures var h := Exec(c, Init(threads), run).hist;
            && (forall b <- h.giveUpBackoffs :: b == Pow2(c.maxAttempts - 1) - 1)
            && (forall i :: 0 < i < |h.prunes| ==> h.prunes[i] - h.prunes[i - 1] >= 60.0)
  {
    EveryRunKeepsInv(c, threads, run);
  }

  // ---------------------------------------------------------------- flush

  /** Every `x` put so far was persisted, evicted, or given up; the last two are counted as drops. */
  ghost predicate PutsAccountedFor(s: State, x: Entry) {
    Occ(s.hist.puts, x) == Occ(Persisted(s), x) + Occ(s.hist.evicted, x) + Occ(s.hist.givenUp, x)
  }

  lemma {:induction false} ExecExtendsPuts(c: Config, s: State, run: seq<Action>)
    requires Legal(c, s, run)
    ensures s.hist.puts <= Exec(c, s, run).hist.puts
    decreases |run|
  {
    if run != [] { ExecExtendsPuts(c, Next(c, s, run[0]), run[1..]); }
  }

  lemma {:induction false} OccPrefix(es: seq<Entry>, fs: seq<Entry>, x: Entry)
    requires es <= fs
    ensures Occ(es, x) <= Occ(fs, x)
  {
    assert fs == es + fs[|es|..];
    OccConcat(es, fs[|es|..], x);
  }

  /** When flush, entered in some reachable state, sees the count of unfinished tasks at zero, every
      entry put before flush began is persisted or counted as dropped. */
  lemma {:induction false} FlushOnZero(c: Config, threads: nat, before: seq<Action>, during: seq<Action>, x: Entry)
    requires c.Valid() && Legal(c, Init(threads), before)
    requires Legal(c, Exec(c, Init(threads), before), during)
    requires Exec(c, Exec(c, Init(threads), before), during).unfinished == 0
    ensures var s0 := Exec(c, Init(threads), before);
            var s := Exec(c, s0, during);
            && s0.hist.puts <= s.hist.puts && Occ(s0.hist.puts, x) <= Occ(s.hist.puts, x)
            && PutsAccountedFor(s, x)
            && |s.hist.evicted| + |s.hist.givenUp| <= s.dropped
  {
    var s0 := Exec(c, Init(threads), before);
    EveryRunKeepsInv(c, threads, before);
    ExecKeepsInv(c, s0, during);
    var s := Exec(c, s0, during);
    ExecExtendsPuts(c, s0, during);
    OccPrefix(s0.hist.puts, s.hist.puts, x);
    assert Conserved(s, x);
    assert s.queue == [] && s.batch == [];
    OccEmpty(x);
  }

  // ---------------------------------------------------------------- at-least-once rows

  predicate RaisesAfterCommit(a: Action) { a.Work? && a.work.Persist? && a.work.outcome.StoredThenRaised? }

  ghost predicate NeverRaisesAfterCommit(run: seq<Action>) {
    forall i :: 0 <= i < |run| ==> !RaisesAfterCommit(run[i])
  }

  lemma {:induction false} WorkUnreported(c: Config, s: State, step: WorkStep)
    requires WorkEnabled(c, s, step) && (s.worker.Persisting? ==> s.batch != [])
    ensures var s' := WorkNext(c, s, step);
            if RaisesAfterCommit(Work(step)) then |s'.hist.unreported| > |s.hist.unreported|
            else s'.hist.unreported == s.hist.unreported
  {
    hide Pow2;
  }

  lemma {:induction false} EmitUnreported(c: Config, s: State, t: nat, step: EmitStep)
    requires t < |s.emitters| && EmitEnabled(s.emitters[t], step)
    ensures EmitNext(c, s, t, step).hist.unreported == s.hist.unreported
  {
  }

  /** What was committed without being reported grows exactly when an attempt raises after its commit. */
  lemma {:induction false} Unreported(c: Config, s: State, a: Action)
    requires Inv(c, s) && Enabled(c, s, a)
    ensures var s' := Next(c, s, a);
            if RaisesAfterCommit(a) then |s'.hist.unreported| > |s.hist.unreported|
            else s'.hist.unreported == s.hist.unreported
  {
    assert WorkerOk(c, s);
    hide Inv, EmitNext, WorkNext;
    match a
    case Emit(t, step) => EmitUnreported(c, s, t, step);
    case Close(_) =>
    case Work(step) => WorkUnreported(c, s, step);
  }

  lemma {:induction false} UnreportedExactly(c: Config, s: State, run: seq<Action>)
    requires Inv(c, s) && Legal(c, s, run)
    ensures |Exec(c, s, run).hist.unreported| >= |s.hist.unreported|
    ensures |Exec(c, s, run).hist.unreported| == |s.hist.unreported| <==> NeverRaisesAfterCommit(run)
    decreases |run|
  {
    if run != [] {
      Unreported(c, s, run[0]);
      NextKeepsInv(c, s, run[0]);
      UnreportedExactly(c, Next(c, s, run[0]), run[1..]);
      hide *;
      NeverRaisesFirst(run);
    }
  }

  lemma {:induction false} NeverRaisesFirst(run: seq<Action>)
    requires run != []
    ensures NeverRaisesAfterCommit(run) <==> !RaisesAfterCommit(run[0]) && NeverRaisesAfterCommit(run[1..])
  {
    hide RaisesAfterCommit;
    assert forall i :: 0 < i < |run| ==> run[i] == run[1..][i - 1];
  }

  /** The table holds every persisted entry at least once, and each exactly once if and only if no record_logs
      raised after its commit. */
  lemma {:induction false} RowsAtLeastOnce(c: Config, threads: nat, run: seq<Action>)
    requires c.Valid() && Legal(c, Init(threads), run)
    ensures var s := Exec(c, Init(threads), run);
            && (forall x :: Occ(s.hist.rows, x) >= Occ(Persisted(s), x))
            && ((forall x :: Occ(s.hist.rows, x) == Occ(Persisted(s), x)) <==> NeverRaisesAfterCommit(run))
  {
    EveryRunKeepsInv(c, threads, run);
    InitInv(c, threads);
    UnreportedExactly(c, Init(threads), run);
    RowsExactly(c, Exec(c, Init(threads), run));
    hide *;
  }

  lemma {:induction false} RowsExactly(c: Config, s: State)
    requires Inv(c, s)
    ensures forall x :: Occ(s.hist.rows, x) >= Occ(Persisted(s), x)
    ensures (forall x :: Occ(s.hist.rows, x) == Occ(Persisted(s), x)) <==> s.hist.unreported == []
  {
    forall x ensures Occ(s.hist.rows, x) == Occ(Persisted(s), x) + Occ(s.hist.unreported, x) { assert Conserved(s, x); }
    hide Inv, Occ;
    if s.hist.unreported == [] {
      forall x ensures Occ([], x) == 0 { OccEmpty(x); }
    } else {
      var x := s.hist.unreported[0];
      OccFull(s.hist.unreported);
      assert Occ(s.hist.rows, x) != Occ(Persisted(s), x);
    }
  }

  // ---------------------------------------------------------------- emits one at a time

  /** logging.Handler.handle holds the handler's lock around emit: a thread begins only when no other is inside. */
  ghost predicate Serial(c: Config, s: State, run: seq<Action>)
    requires Legal(c, s, run)
    decreases |run|
  {
    run == [] || ((run[0].Emit? && run[0].emit.Begin? ==> Quiet(s)) && Serial(c, Next(c, s, run[0]), run[1..]))
  }

  /** A thread about to put again finds room, and none has been refused a second time. */
  ghost predicate HasRoom(c: Config, queued: nat, e: Emitter) {
    !e.RejectedAgain? && (e.Acknowledging? || e.Reputting? ==> queued < c.capacity)
  }

  ghost predicate SoleEmitter(es: seq<Emitter>) {
    forall t, u :: 0 <= t < |es| && 0 <= u < |es| && !es[t].Idle? && !es[u].Idle? ==> t == u
  }

  ghost predicate RoomForWarning(c: Config, s: State) {
    && SoleEmitter(s.emitters)
    && (forall e <- s.emitters :: HasRoom(c, |s.queue|, e))
    && (forall e <- s.hist.rejected :: !e.warning)
  }

  lemma {:induction false} EmitKeepsRoom(c: Config, s: State, t: nat, step: EmitStep)
    requires c.Valid() && t < |s.emitters| && EmitEnabled(s.emitters[t], step)
    requires HasRoom(c, |s.queue|, s.emitters[t]) && |s.queue| <= c.capacity
    ensures var s' := EmitNext(c, s, t, step);
            && HasRoom(c, |s'.queue|, s'.emitters[t]) && s'.emitters == s.emitters[t := s'.emitters[t]]
            && (s'.hist.rejected == s.hist.rejected
                || (s'.hist.rejected == s.hist.rejected + [s.emitters[t].entry] && !s.emitters[t].entry.warning))
  {
  }

  lemma {:induction false} WorkKeepsRoom(c: Config, s: State, step: WorkStep)
    requires WorkEnabled(c, s, step)
    ensures var s' := WorkNext(c, s, step);
            s'.emitters == s.emitters && s'.hist.rejected == s.hist.rejected && |s'.queue| <= |s.queue|
  {
    hide Pow2;
  }

  lemma {:induction false} SerialStep(c: Config, s: State, a: Action)
    requires c.Valid() && Enabled(c, s, a) && RoomForWarning(c, s) && |s.queue| <= c.capacity
    requires a.Emit? && a.emit.Begin? ==> Quiet(s)
    ensures RoomForWarning(c, Next(c, s, a))
  {
    hide EmitNext, WorkNext;
    var s' := Next(c, s, a);
    match a
    case Emit(t, step) =>
      EmitKeepsRoom(c, s, t, step);
      assert forall u :: 0 <= u < |s.emitters| && u != t ==> s.emitters[u].Idle? && s'.emitters[u].Idle?;
      forall e | e in s'.emitters ensures HasRoom(c, |s'.queue|, e) {
        var u :| 0 <= u < |s'.emitters| && s'.emitters[u] == e;
      }
    case Close(_) =>
    case Work(step) => WorkKeepsRoom(c, s, step);
  }

  lemma {:induction false} SerialKeepsRoom(c: Config, s: State, run: seq<Action>)
    requires Inv(c, s) && Legal(c, s, run) && Serial(c, s, run) && RoomForWarning(c, s)
    ensures RoomForWarning(c, Exec(c, s, run))
    decreases |run|
  {
    if run != [] {
      SerialStep(c, s, run[0]);
      NextKeepsInv(c, s, run[0]);
      SerialKeepsRoom(c, Next(c, s, run[0]), run[1..]);
    }
  }

  /** Under the handler's lock the second put never meets a full queue, so no record of level
      WARNING or above is ever refused. */
  lemma {:induction false} SerialEmitsNeverRefuseWarnings(c: Config, threads: nat, run: seq<Action>)
    requires c.Valid() && Legal(c, Init(threads), run) && Serial(c, Init(threads), run)
    ensures var s := Exec(c, Init(threads), run);
            && (forall e <- s.emitters :: !e.RejectedAgain?)
            && (forall e <- s.hist.rejected :: !e.warning)
  {
    AllIdle(Init(threads).emitters);
    SerialKeepsRoom(c, Init(threads), run);
  }

  // ---------------------------------------------------------------- close

  ghost function Phase(c: Config, s: State): int {
    match s.worker
    case Exited => 0
    case Getting => if s.queue == [] then 5 else 2
    case CheckingEmpty => 3
    case Polling => 4
    case Finishing(left) => 5 + left
    case GivingUp => 6 + |s.batch|
    case Persisting(attempt) => 7 + |s.batch| + c.maxAttempts - attempt
    case Filling => 8 + |s.batch| + c.maxAttempts
  }

  /** Bounds the steps the worker can still take once stop is set, as long as nothing is put. */
  ghost function DrainBound(c: Config, s: State): int {
    Steps(c, |s.queue|) + Phase(c, s)
  }

  /** Bounds the worker's steps for `n` entries. */
  ghost function Steps(c: Config, n: int): int { n * (c.batchSize + c.maxAttempts + 10) }

  lemma {:induction false} OneFewer(c: Config, n: int)
    ensures Steps(c, n - 1) == Steps(c, n) - Steps(c, 1) && Steps(c, 1) == c.batchSize + c.maxAttempts + 10
    ensures Steps(c, 0) == 0
  {
    var k := c.batchSize + c.maxAttempts + 10;
    assert (n - 1) * k == n * k - k;
  }

  lemma {:induction false} StepsAdd(c: Config, m: int, n: int)
    ensures Steps(c, m + n) == Steps(c, m) + Steps(c, n)
  {
    var k := c.batchSize + c.maxAttempts + 10;
    assert (m + n) * k == m * k + n * k;
  }

  lemma {:induction false} WorkerAdvances(c: Config, s: State, step: WorkStep)
    requires Inv(c, s) && s.stop && WorkEnabled(c, s, step)
    ensures DrainBound(c, WorkNext(c, s, step)) < DrainBound(c, s)
    ensures s.worker.Exited? || s.queue != [] || WorkNext(c, s, step).queue == []
  {
    hide Occ, Held, Flatten;
    OneFewer(c, |s.queue|);
    hide Steps;
    assert WorkerOk(c, s);
  }

  ghost predicate OnlyWork(run: seq<Action>) { forall i :: 0 <= i < |run| ==> run[i].Work? }

  /** The number of the worker's steps. */
  ghost function Works(run: seq<Action>): nat {
    if run == [] then 0 else (if run[0].Work? then 1 else 0) + Works(run[1..])
  }

  lemma {:induction false} OnlyWorks(run: seq<Action>)
    requires OnlyWork(run)
    ensures Works(run) == |run|
  {
    if run != [] { OnlyWorks(run[1..]); }
  }

  /** What the worker may still have to do, less what it was given: never rises once stop is set. */
  ghost function Budget(c: Config, s: State): int {
    Phase(c, s) - Steps(c, |s.hist.puts| - |s.queue|)
  }

  lemma {:induction false} BudgetIsBound(c: Config, s: State)
    ensures DrainBound(c, s) == Budget(c, s) + Steps(c, |s.hist.puts|)
  {
    StepsAdd(c, |s.hist.puts| - |s.queue|, |s.queue|);
  }

  lemma {:induction false} EmitKeepsBudget(c: Config, s: State, t: nat, step: EmitStep)
    requires c.Valid() && t < |s.emitters| && EmitEnabled(s.emitters[t], step)
    ensures Budget(c, EmitNext(c, s, t, step)) <= Budget(c, s)
    ensures EmitNext(c, s, t, step).stop == s.stop
  {
    OneFewer(c, |s.hist.puts| - |s.queue| + 1);
    hide Steps;
    EmitMoves(c, s, t, step);
    hide EmitNext;
  }

  /** As far as the worker is concerned a thread's step puts one entry, takes one, or changes nothing. */
  lemma {:induction false} EmitMoves(c: Config, s: State, t: nat, step: EmitStep)
    requires t < |s.emitters| && EmitEnabled(s.emitters[t], step)
    ensures var s' := EmitNext(c, s, t, step);
            && s'.worker == s.worker && s'.batch == s.batch && s'.stop == s.stop
            && (|| (|s'.queue| == |s.queue| + 1 && |s'.hist.puts| == |s.hist.puts| + 1)
                || (|s'.queue| == |s.queue| - 1 && |s'.hist.puts| == |s.hist.puts|)
                || (s'.queue == s.queue && s'.hist.puts == s.hist.puts))
  {
  }

  lemma {:induction false} WorkPutsNothing(c: Config, s: State, step: WorkStep)
    requires WorkEnabled(c, s, step)
    ensures var s' := WorkNext(c, s, step);
            s'.hist.puts == s.hist.puts && s'.stop == s.stop
  {
    hide Pow2;
  }

  lemma {:induction false} StepDrains(c: Config, s: State, a: Action)
    requires Inv(c, s) && s.stop && Enabled(c, s, a)
    ensures (if a.Work? then 1 else 0) + Budget(c, Next(c, s, a)) <= Budget(c, s)
    ensures Next(c, s, a).stop
  {
    assert c.Valid();
    hide EmitNext, WorkNext, Inv, DrainBound, Steps;
    match a
    case Emit(t, step) => EmitKeepsBudget(c, s, t, step);
    case Close(_) =>
    case Work(step) =>
      WorkerAdvances(c, s, step);
      WorkPutsNothing(c, s, step);
      BudgetIsBound(c, s);
      BudgetIsBound(c, WorkNext(c, s, step));
  }

  lemma {:induction false} RunDrains(c: Config, s: State, run: seq<Action>)
    requires Inv(c, s) && s.stop && Legal(c, s, run)
    ensures Works(run) + Budget(c, Exec(c, s, run)) <= Budget(c, s)
    decreases |run|
  {
    if run != [] {
      hide Inv, Next, Enabled, Budget;
      StepDrains(c, s, run[0]);
      NextKeepsInv(c, s, run[0]);
      RunDrains(c, Next(c, s, run[0]), run[1..]);
    }
  }

  /** Once stop is set, however many threads go on emitting: the worker's steps are bounded by the work that
      was left and the entries put since. */
  lemma {:induction false} DrainBounded(c: Config, s: State, run: seq<Action>)
    requires Inv(c, s) && s.stop && Legal(c, s, run)
    ensures var e := Exec(c, s, run);
            Works(run) + DrainBound(c, e)
            <= DrainBound(c, s) + (|e.hist.puts| - |s.hist.puts|) * (c.batchSize + c.maxAttempts + 10)
  {
    var e := Exec(c, s, run);
    RunDrains(c, s, run);
    BudgetIsBound(c, s);
    BudgetIsBound(c, e);
    StepsAdd(c, |e.hist.puts| - |s.hist.puts|, |s.hist.puts|);
    hide Inv, Legal, Exec, Budget, DrainBound, Works;
  }

  lemma {:induction false} DrainRun(c: Config, s: State, run: seq<Action>)
    requires Inv(c, s) && s.stop && Legal(c, s, run) && OnlyWork(run)
    ensures s.worker.Exited? || !Exec(c, s, run).worker.Exited? || Exec(c, s, run).queue == []
    ensures Exec(c, s, run).hist.puts == s.hist.puts
    decreases |run|
  {
    if run != [] {
      hide WorkNext, Inv;
      WorkerAdvances(c, s, run[0].work);
      WorkPutsNothing(c, s, run[0].work);
      NextKeepsInv(c, s, run[0]);
      DrainRun(c, Next(c, s, run[0]), run[1..]);
    }
  }

  ghost predicate WorkerStuck(c: Config, s: State) {
    forall step :: !WorkEnabled(c, s, step)
  }

  lemma {:induction false} OnlyExitedIsStuck(c: Config, s: State)
    ensures WorkerStuck(c, s) <==> s.worker.Exited?
  {
    if !s.worker.Exited? {
      var step :=
        match s.worker
        case Polling => Poll
        case CheckingEmpty => CheckEmpty
        case Getting => if s.queue == [] then GetTimeout else Get
        case Filling => FillStop
        case Persisting(_) => Persist(Stored, 0.0)
        case GivingUp => GiveUp
        case Finishing(left) => if left > 0 then TaskDone else NextRound;
      assert WorkEnabled(c, s, step);
    }
  }

  lemma {:induction false} AccountedWhenEmpty(s: State, x: Entry)
    requires Conserved(s, x) && s.batch == []
    ensures PutsAccountedFor(s, x) <==> Occ(s.queue, x) == 0
    ensures s.queue == [] ==> PutsAccountedFor(s, x)
  {
    OccEmpty(x);
  }

  /** Once stop is set the worker takes a bounded number of steps, whatever the threads do, and it can stop
      only by exiting.  If no thread emits, every entry ever put is then persisted or counted as dropped. */
  lemma {:induction false} CloseDrains(c: Config, s: State, run: seq<Action>, x: Entry)
    requires Inv(c, s) && s.stop && Legal(c, s, run)
    ensures var e := Exec(c, s, run);
            && Works(run) <= DrainBound(c, s) + (|e.hist.puts| - |s.hist.puts|) * (c.batchSize + c.maxAttempts + 10)
            && (WorkerStuck(c, e) <==> e.worker.Exited?)
            && (OnlyWork(run) ==> |run| <= DrainBound(c, s))
            && (OnlyWork(run) && !s.worker.Exited? && WorkerStuck(c, e) ==>
                  e.queue == [] && e.batch == [] && PutsAccountedFor(e, x))
  {
    hide *;
    DrainBounded(c, s, run);
    ExecKeepsInv(c, s, run);
    var e := Exec(c, s, run);
    DrainBoundNonNegative(c, e);
    OnlyExitedIsStuck(c, e);
    if OnlyWork(run) {
      DrainRun(c, s, run);
      OnlyWorks(run);
    }
    ExitedAccount(c, e, x);
  }

  lemma {:induction false} ExitedAccount(c: Config, e: State, x: Entry)
    requires Inv(c, e)
    ensures e.worker.Exited? ==> e.batch == []
    ensures e.worker.Exited? && e.queue == [] ==> PutsAccountedFor(e, x)
  {
    assert WorkerOk(c, e);
    assert Conserved(e, x);
    if e.worker.Exited? { AccountedWhenEmpty(e, x); }
  }

  lemma {:induction false} DrainBoundNonNegative(c: Config, s: State)
    requires Inv(c, s)
    ensures DrainBound(c, s) >= 0
  {
    assert WorkerOk(c, s);
    assert Steps(c, |s.queue|) >= 0;
  }

  lemma {:induction false} AfterExit(c: Config, s: State, run: seq<Action>)
    requires s.worker.Exited? && Legal(c, s, run)
    ensures var e := Exec(c, s, run);
            e.worker.Exited? && e.hist.batches == s.hist.batches && e.hist.givenUp == s.hist.givenUp
            && e.hist.putsAtExit == s.hist.putsAtExit
    decreases |run|
  {
    if run != [] { AfterExit(c, Next(c, s, run[0]), run[1..]); }
  }

  lemma {:induction false} OccFull(es: seq<Entry>)
    requires es != []
    ensures Occ(es, es[0]) > 0
  {
    OccPop(es, es[0]);
  }

  /** After the worker has exited nothing is persisted any more, whatever is queued was put after the
      exit, and all entries put are accounted for exactly when the queue is empty. */
  lemma {:induction false} LateEntriesStay(c: Config, s: State, run: seq<Action>)
    requires Inv(c, s) && s.worker.Exited? && Legal(c, s, run)
    ensures var e := Exec(c, s, run);
            && Persisted(e) == Persisted(s)
            && s.hist.putsAtExit <= e.hist.popped <= |e.hist.puts|
            && e.queue == e.hist.puts[e.hist.popped..]
            && ((forall x :: PutsAccountedFor(e, x)) <==> e.queue == [])
  {
    AfterExit(c, s, run);
    ExecKeepsInv(c, s, run);
    var e := Exec(c, s, run);
    assert WorkerOk(c, e) && Ordered(e);
    forall x ensures e.queue == [] ==> PutsAccountedFor(e, x) {
      assert Conserved(e, x);
      AccountedWhenEmpty(e, x);
    }
    if e.queue != [] {
      assert Conserved(e, e.queue[0]);
      AccountedWhenEmpty(e, e.queue[0]);
      OccFull(e.queue);
      assert !PutsAccountedFor(e, e.queue[0]);
    }
  }

  // ---------------------------------------------------------------- puts after the exit

  /** A thread that took an entry out of the queue, or found none, and will put its own. */
  ghost predicate PutsBack(e: Emitter) { e.Acknowledging? || e.Reputting? }

  ghost predicate Emptying(es: seq<Emitter>) {
    exists t :: 0 <= t < |es| && PutsBack(es[t])
  }

  /** Once something was put after the exit, the queue stays filled except while a thread replaces its oldest entry. */
  ghost predicate LatePutsRemain(s: State) {
    s.worker.Exited? ==>
      && s.hist.putsAtExit <= |s.hist.puts|
      && (|s.hist.puts| > s.hist.putsAtExit ==> s.queue != [] || Emptying(s.emitters))
  }

  lemma {:induction false} EmitKeepsLatePuts(c: Config, s: State, t: nat, step: EmitStep)
    requires c.Valid() && t < |s.emitters| && EmitEnabled(s.emitters[t], step) && LatePutsRemain(s)
    ensures LatePutsRemain(EmitNext(c, s, t, step))
  {
    var s' := EmitNext(c, s, t, step);
    if s.worker.Exited? && |s'.hist.puts| > s.hist.putsAtExit && s'.queue == [] {
      assert s'.hist.puts == s.hist.puts;
      if s.queue != [] {
        assert PutsBack(s'.emitters[t]);
      } else {
        var u :| 0 <= u < |s.emitters| && PutsBack(s.emitters[u]);
        assert PutsBack(s'.emitters[u]);
      }
    }
  }

  lemma {:induction false} WorkKeepsLatePuts(c: Config, s: State, step: WorkStep)
    requires WorkEnabled(c, s, step) && LatePutsRemain(s)
    ensures LatePutsRemain(WorkNext(c, s, step))
  {
    hide Pow2;
  }

  lemma {:induction false} RunKeepsLatePuts(c: Config, s: State, run: seq<Action>)
    requires c.Valid() && Legal(c, s, run) && LatePutsRemain(s)
    ensures LatePutsRemain(Exec(c, s, run))
    decreases |run|
  {
    if run != [] {
      hide EmitNext, WorkNext;
      match run[0] {
        case Emit(t, step) => EmitKeepsLatePuts(c, s, t, step);
        case Close(_) =>
        case Work(step) => WorkKeepsLatePuts(c, s, step);
      }
      RunKeepsLatePuts(c, Next(c, s, run[0]), run[1..]);
    }
  }

  /** The worker has exited and no thread is inside `emit`: every entry ever put is accounted for
      exactly when none was put after the exit. */
  lemma {:induction false} AccountedExactlyWhenNoLatePut(c: Config, threads: nat, run: seq<Action>)
    requires c.Valid() && Legal(c, Init(threads), run)
    requires Exec(c, Init(threads), run).worker.Exited? && Quiet(Exec(c, Init(threads), run))
    ensures var e := Exec(c, Init(threads), run);
            (forall x :: PutsAccountedFor(e, x)) <==> |e.hist.puts| == e.hist.putsAtExit
  {
    EveryRunKeepsInv(c, threads, run);
    var e := Exec(c, Init(threads), run);
    LateEntriesStay(c, e, []);
    RunKeepsLatePuts(c, Init(threads), run);
    assert WorkerOk(c, e);
  }

  // ---------------------------------------------------------------- two concrete runs

  lemma {:induction false} OneMore(c: Config, s: State, run: seq<Action>, a: Action)
    requires Legal(c, s, run) && Enabled(c, Exec(c, s, run), a)
    ensures Legal(c, s, run + [a]) && Exec(c, s, run + [a]) == Next(c, Exec(c, s, run), a)
    decreases |run|
  {
    if run == [] {
      assert (run + [a])[1..] == [];
    } else {
      assert (run + [a])[1..] == run[1..] + [a];
      OneMore(c, Next(c, s, run[0]), run[1..], a);
    }
  }

  /** Close, the worker exits, then a thread emits: the entry is neither persisted nor counted, and no
      step of the worker will ever take it. */
  lemma {:induction false} LateEntryIsNeverCounted(c: Config, e: Entry) returns (run: seq<Action>)
    requires c.Valid()
    ensures Legal(c, Init(1), run)
    ensures var s := Exec(c, Init(1), run);
            s.queue == [e] && s.dropped == 0 && Persisted(s) == [] && Quiet(s) && s.worker.Exited?
  {
    hide Occ, Held, Legal, Exec;
    run := [];
    assert Legal(c, Init(1), run) && Exec(c, Init(1), run) == Init(1) by { NoAction(c, Init(1)); }
    OneMore(c, Init(1), run, Close(0));
    run := run + [Close(0)];
    OneMore(c, Init(1), run, Work(Poll));
    run := run + [Work(Poll)];
    OneMore(c, Init(1), run, Work(CheckEmpty));
    run := run + [Work(CheckEmpty)];
    OneMore(c, Init(1), run, Emit(0, Begin(e)));
    run := run + [Emit(0, Begin(e))];
    OneMore(c, Init(1), run, Emit(0, Put));
    run := run + [Emit(0, Put)];
  }

  lemma {:induction false} NoAction(c: Config, s: State)
    ensures Legal(c, s, []) && Exec(c, s, []) == s
  {
  }

  /** Thread 0 fills a queue of one place, and its next record, a warning, evicts the entry. */
  lemma {:induction false} WarningEvicts(c: Config, first: Entry, warning: Entry) returns (run: seq<Action>)
    requires c.Valid() && c.capacity == 1 && warning.warning
    ensures Legal(c, Init(2), run)
    ensures var s := Exec(c, Init(2), run);
            && s.emitters == [Acknowledging(warning), Idle] && s.queue == []
            && s.hist.rejected == [] && s.hist.evicted == [first]
  {
    hide Occ, Held, Legal, Exec;
    run := [];
    assert Legal(c, Init(2), run) && Exec(c, Init(2), run) == Init(2) by { NoAction(c, Init(2)); }
    OneMore(c, Init(2), run, Emit(0, Begin(first)));
    run := run + [Emit(0, Begin(first))];
    OneMore(c, Init(2), run, Emit(0, Put));
    run := run + [Emit(0, Put)];
    OneMore(c, Init(2), run, Emit(0, Begin(warning)));
    run := run + [Emit(0, Begin(warning))];
    OneMore(c, Init(2), run, Emit(0, Put));
    run := run + [Emit(0, Put)];
    OneMore(c, Init(2), run, Emit(0, Count));
    run := run + [Emit(0, Count)];
    OneMore(c, Init(2), run, Emit(0, Evict));
    run := run + [Emit(0, Evict)];
  }

  /** Without the handler's lock that warning can be refused: another thread's entry takes the room
      before it is put. */
  lemma {:induction false} RacingEmitsRefuseWarning(c: Config, first: Entry, warning: Entry, other: Entry)
      returns (run: seq<Action>)
    requires c.Valid() && c.capacity == 1 && warning.warning
    ensures Legal(c, Init(2), run)
    ensures var s := Exec(c, Init(2), run);
            s.hist.rejected == [warning] && s.hist.evicted == [first] && s.queue == [other] && Quiet(s)
  {
    hide Occ, Held, Legal, Exec;
    run := WarningEvicts(c, first, warning);
    OneMore(c, Init(2), run, Emit(1, Begin(other)));
    run := run + [Emit(1, Begin(other))];
    OneMore(c, Init(2), run, Emit(1, Put));
    run := run + [Emit(1, Put)];
    OneMore(c, Init(2), run, Emit(0, Acknowledge));
    run := run + [Emit(0, Acknowledge)];
    OneMore(c, Init(2), run, Emit(0, PutAgain));
    run := run + [Emit(0, PutAgain)];
    OneMore(c, Init(2), run, Emit(0, CountAgain));
    run := run + [Emit(0, CountAgain)];
  }
}
