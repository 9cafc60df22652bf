/** Document versions reduced to parsing counters, computed twice in the program: per repository for
    the dashboard, and per repository and dataset for the command line.
 */
module ParsingProgress {
  import opened Basics
  import opened Rounding

  /** The state column; every other text, NULL included, is `OtherState`. */
  datatype VersionState = Current | Superseded | DeadVersion | Uploaded | Parsing | RetryableFailed | OtherState

  datatype Row = Row(id: int, repoId: string, fileId: int, datasetId: string, state: VersionState)

  type FileKey = (string, int)

  function KeyOf(r: Row): FileKey { (r.repoId, r.fileId) }

  /** Row ids are a primary key. */
  ghost predicate UniqueIds(rows: set<Row>) {
    forall r, s :: r in rows && s in rows && r.id == s.id ==> r == s
  }

  ghost function OfRepos(table: set<Row>, repoIds: set<string>): set<Row> {
    set r | r in table && r.repoId in repoIds
  }

  ghost function OfDataset(table: set<Row>, repoId: string, datasetId: string): set<Row> {
    set r | r in table && r.repoId == repoId && r.datasetId == datasetId
  }

  /** `rows` lists the selected rows, the versions of one file newest first (ORDER BY .., id DESC). */
  ghost predicate QueryResult(selected: set<Row>, rows: seq<Row>) {
    && (forall r :: r in rows <==> r in selected)
    && (forall i, j :: 0 <= i < j < |rows| && KeyOf(rows[i]) == KeyOf(rows[j]) ==> rows[i].id > rows[j].id)
  }

  /** `r` is the newest of the selected rows of its file. */
  ghost predicate Newest(selected: set<Row>, r: Row) {
    r in selected && forall other :: other in selected && KeyOf(other) == KeyOf(r) ==> other.id <= r.id
  }

  /** `latest` maps every file with a selected version to the state of its newest one. */
  ghost predicate LatestOf(selected: set<Row>, latest: map<FileKey, VersionState>) {
    && (forall r :: r in selected ==> KeyOf(r) in latest)
    && (forall key :: key in latest ==> exists r :: Newest(selected, r) && KeyOf(r) == key && r.state == latest[key])
  }

  // ---------------------------------------------------------------- one pass with setdefault

  ghost predicate FirstOfFile(rows: seq<Row>, k: nat) {
    k < |rows| && forall j :: 0 <= j < k ==> KeyOf(rows[j]) != KeyOf(rows[k])
  }

  /** The newest version of every file: a later row of the same file never replaces the first. */
  method LatestStates(ghost selected: set<Row>, rows: seq<Row>) returns (latest: map<FileKey, VersionState>)
    requires QueryResult(selected, rows)
    ensures LatestOf(selected, latest)
  {
    latest := map[];
    var i := 0;
    while i < |rows|
      invariant i <= |rows|
      invariant forall k :: 0 <= k < i ==> KeyOf(rows[k]) in latest
      invariant forall key :: key in latest ==>
                  exists k :: 0 <= k < i && FirstOfFile(rows, k) && KeyOf(rows[k]) == key
                              && rows[k].state == latest[key]
    {
      var key := KeyOf(rows[i]);
      if key !in latest {
        assert FirstOfFile(rows, i);
        latest := latest[key := rows[i].state];
      }
      i := i + 1;
    }
    forall key | key in latest ensures exists r :: Newest(selected, r) && KeyOf(r) == key && r.state == latest[key] {
      var k :| 0 <= k < |rows| && FirstOfFile(rows, k) && KeyOf(rows[k]) == key && rows[k].state == latest[key];
      FirstIsNewest(selected, rows, k);
    }
  }

  lemma FirstIsNewest(selected: set<Row>, rows: seq<Row>, k: nat)
    requires QueryResult(selected, rows) && FirstOfFile(rows, k)
    ensures Newest(selected, rows[k])
  {
    assert rows[k] in rows;
    forall other | other in selected && KeyOf(other) == KeyOf(rows[k]) ensures other.id <= rows[k].id {
      assert other in rows;
      var j :| 0 <= j < |rows| && rows[j] == other;
    }
  }

  // ---------------------------------------------------------------- the dashboard's counters

  datatype Counters = Counters(tracked: nat, done: nat, pending: nat, running: nat, failed: nat)

  const ZERO := Counters(0, 0, 0, 0, 0)

  datatype Category = Tracked | Done | Running | Failed

  predicate Falls(s: VersionState, category: Category) {
    match category
    case Tracked => true
    case Done => s.Current? || s.Superseded?
    case Running => s.Uploaded? || s.Parsing? || s.RetryableFailed?
    case Failed => s.DeadVersion?
  }

  function CountState(c: Counters, s: VersionState): Counters {
    var c := c.(tracked := c.tracked + 1);
    if Falls(s, Done) then c.(done := c.done + 1)
    else if Falls(s, Failed) then c.(failed := c.failed + 1)
    else
      var c := c.(pending := c.pending + 1);
      if Falls(s, Running) then c.(running := c.running + 1) else c
  }

  /** The files of a repository whose newest version falls into the category. */
  ghost function FilesIn(latest: map<FileKey, VersionState>, repoId: string, category: Category): set<FileKey> {
    set key | key in latest && key.0 == repoId && Falls(latest[key], category)
  }

  /** `c` counts the files of one repository by what their newest version is doing. */
  ghost predicate Counts(latest: map<FileKey, VersionState>, repoId: string, c: Counters) {
    && c.tracked == |FilesIn(latest, repoId, Tracked)|
    && c.done == |FilesIn(latest, repoId, Done)|
    && c.running == |FilesIn(latest, repoId, Running)|
    && c.failed == |FilesIn(latest, repoId, Failed)|
    && c.tracked == c.done + c.pending + c.failed
    && c.running <= c.pending
  }

  lemma FilesInOneMore(seen: map<FileKey, VersionState>, key: FileKey, s: VersionState, repoId: string,
                       category: Category)
    requires key !in seen
    ensures |FilesIn(seen[key := s], repoId, category)|
         == |FilesIn(seen, repoId, category)| + if key.0 == repoId && Falls(s, category) then 1 else 0
  {
    var next := seen[key := s];
    var before, after := FilesIn(seen, repoId, category), FilesIn(next, repoId, category);
    var hit := key.0 == repoId && Falls(s, category);
    hide Falls;
    assert forall k :: k in after <==> k in before || (k == key && hit);
    if hit {
      assert after == before + {key};
    } else {
      assert after == before;
    }
  }

  lemma CountOne(seen: map<FileKey, VersionState>, key: FileKey, s: VersionState, repoId: string, c: Counters)
    requires key !in seen && Counts(seen, repoId, c)
    ensures Counts(seen[key := s], repoId, if repoId == key.0 then CountState(c, s) else c)
  {
    hide FilesIn;
    FilesInOneMore(seen, key, s, repoId, Tracked);
    FilesInOneMore(seen, key, s, repoId, Done);
    FilesInOneMore(seen, key, s, repoId, Running);
    FilesInOneMore(seen, key, s, repoId, Failed);
  }

  /** The second loop of `_workflow_parsing_by_repo`, visiting the files in any order. */
  method CountByRepo(repoIds: set<string>, latest: map<FileKey, VersionState>) returns (result: map<string, Counters>)
    requires forall key :: key in latest ==> key.0 in repoIds
    ensures result.Keys == repoIds
    ensures forall repoId :: repoId in repoIds ==> Counts(latest, repoId, result[repoId])
  {
    hide Counts;
    result := map repoId | repoId in repoIds :: ZERO;
    ghost var seen: map<FileKey, VersionState> := map[];
    var pending := latest.Keys;
    forall repoId ensures Counts(seen, repoId, ZERO) { NothingCounted(repoId); }
    while pending != {}
      invariant pending <= latest.Keys && result.Keys == repoIds
      invariant seen == map key | key in latest && key !in pending :: latest[key]
      invariant forall repoId :: repoId in repoIds ==> Counts(seen, repoId, result[repoId])
    {
      ghost var some := Element(pending);
      var key :| key in pending;
      forall repoId | repoId in repoIds
        ensures Counts(seen[key := latest[key]], repoId,
                       if repoId == key.0 then CountState(result[repoId], latest[key]) else result[repoId])
      {
        CountOne(seen, key, latest[key], repoId, result[repoId]);
      }
      result := result[key.0 := CountState(result[key.0], latest[key])];
      seen := seen[key := latest[key]];
      pending := pending - {key};
    }
    assert seen == latest;
  }

  lemma NothingCounted(repoId: string)
    ensures Counts(map[], repoId, ZERO)
  {
  }

  function PercentDone(c: Counters): real {
    if c.tracked == 0 then 0.0 else Round2(c.done as real * 100.0 / c.tracked as real)
  }

  /** The share of files done, in percent to two decimals: 0 without files, 100 with all of them done. */
  lemma PercentDoneMeans(c: Counters)
    requires c.done <= c.tracked
    ensures 0.0 <= PercentDone(c) <= 100.0
    ensures c.done == 0 ==> PercentDone(c) == 0.0
    ensures c.tracked > 0 ==>
              var exact := c.done as real * 100.0 / c.tracked as real;
              exact - 0.005 <= PercentDone(c) <= exact + 0.005 && (c.done == c.tracked ==> PercentDone(c) == 100.0)
  {
    hide Round2;
    if c.tracked > 0 { PercentOf(c.done as real, c.tracked as real); }
  }

  /** The states behind the counters. */
  lemma CountedStates(latest: map<FileKey, VersionState>, repoId: string, key: FileKey)
    ensures key in FilesIn(latest, repoId, Tracked) <==> key in latest && key.0 == repoId
    ensures key in FilesIn(latest, repoId, Done)
       <==> key in latest && key.0 == repoId && (latest[key] == Current || latest[key] == Superseded)
    ensures key in FilesIn(latest, repoId, Running)
       <==> && key in latest && key.0 == repoId
            && (latest[key] == Uploaded || latest[key] == Parsing || latest[key] == RetryableFailed)
    ensures key in FilesIn(latest, repoId, Failed)
       <==> key in latest && key.0 == repoId && latest[key] == DeadVersion
  {
  }

  /** `_workflow_parsing_by_repo` over the table: for every repository asked for, its distinct files are
      split into done, pending and failed by their newest version. */
  method ParsingByRepo(ghost table: set<Row>, repoIds: set<string>, rows: seq<Row>)
      returns (result: map<string, Counters>, percent: map<string, real>)
    requires QueryResult(OfRepos(table, repoIds), rows)
    ensures result.Keys == percent.Keys == repoIds
    ensures exists latest :: LatestOf(OfRepos(table, repoIds), latest)
              && forall repoId :: repoId in repoIds ==> Counts(latest, repoId, result[repoId])
    ensures forall repoId :: repoId in repoIds ==> percent[repoId] == PercentDone(result[repoId])
  {
    var states := LatestStates(OfRepos(table, repoIds), rows);
    result := CountByRepo(repoIds, states);
    percent := map repoId | repoId in repoIds :: PercentDone(result[repoId]);
  }

  // ---------------------------------------------------------------- the command line's counters

  /** `_parse_work_state`: the files still parsing and the dead ones, by the newest version within one dataset. */
  method ParseWorkState(ghost table: set<Row>, repoId: string, datasetId: string, rows: seq<Row>)
      returns (pending: nat, dead: nat)
    requires QueryResult(OfDataset(table, repoId, datasetId), rows)
    ensures exists latest :: LatestOf(OfDataset(table, repoId, datasetId), latest)
              && pending == |FilesIn(latest, repoId, Running)| && dead == |FilesIn(latest, repoId, Failed)|
  {
    hide FilesIn, Falls, LatestOf;
    var states := LatestStates(OfDataset(table, repoId, datasetId), rows);
    KeysOfRepo(table, repoId, datasetId, states);
    pending, dead := 0, 0;
    ghost var seen: map<FileKey, VersionState> := map[];
    var left := states.Keys;
    NothingIn(repoId);
    while left != {}
      invariant left <= states.Keys
      invariant seen == map key | key in states && key !in left :: states[key]
      invariant pending == |FilesIn(seen, repoId, Running)| && dead == |FilesIn(seen, repoId, Failed)|
    {
      ghost var some := Element(left);
      var key :| key in left;
      FilesInOneMore(seen, key, states[key], repoId, Running);
      FilesInOneMore(seen, key, states[key], repoId, Failed);
      if Falls(states[key], Running) { pending := pending + 1; }
      if Falls(states[key], Failed) { dead := dead + 1; }
      seen := seen[key := states[key]];
      left := left - {key};
    }
    assert seen == states;
  }

  lemma KeysOfRepo(table: set<Row>, repoId: string, datasetId: string, latest: map<FileKey, VersionState>)
    requires LatestOf(OfDataset(table, repoId, datasetId), latest)
    ensures forall key :: key in latest ==> key.0 == repoId
  {
  }

  lemma NothingIn(repoId: string)
    ensures FilesIn(map[], repoId, Running) == {} && FilesIn(map[], repoId, Failed) == {}
  {
  }

  // ---------------------------------------------------------------- one fact, two computations

  /** There is only one map of newest states. */
  lemma LatestUnique(selected: set<Row>, a: map<FileKey, VersionState>, b: map<FileKey, VersionState>)
    requires UniqueIds(selected) && LatestOf(selected, a) && LatestOf(selected, b)
    ensures a == b
  {
    hide UniqueIds, LatestOf;
    forall key | key in a ensures key in b && a[key] == b[key] { SameState(selected, a, b, key); }
    forall key | key in b ensures key in a { SameState(selected, b, a, key); }
  }

  lemma SameState(selected: set<Row>, a: map<FileKey, VersionState>, b: map<FileKey, VersionState>, key: FileKey)
    requires UniqueIds(selected) && LatestOf(selected, a) && LatestOf(selected, b) && key in a
    ensures key in b && a[key] == b[key]
  {
    var r :| Newest(selected, r) && KeyOf(r) == key && r.state == a[key];
    NewestState(selected, b, r);
  }

  ghost function NewestRows(selected: set<Row>): set<Row> { set r | r in selected && Newest(selected, r) }

  lemma {:induction false} NewestExists(selected: set<Row>, candidates: set<Row>, r: Row) returns (n: Row)
    requires candidates <= selected && r in candidates
    requires forall c :: c in candidates ==> KeyOf(c) == KeyOf(r)
    requires forall c :: c in selected && KeyOf(c) == KeyOf(r) && c !in candidates ==> c.id <= r.id
    ensures Newest(selected, n) && KeyOf(n) == KeyOf(r)
    decreases |candidates|
  {
    if better :| better in candidates && better.id > r.id {
      n := NewestExists(selected, candidates - {r}, better);
    } else {
      n := r;
    }
  }

  /** The command line looks at the very versions the dashboard looks at exactly when the newest version
      of every file lies in the dataset asked for. */
  lemma SameVersionsExactlyWhen(table: set<Row>, repoId: string, datasetId: string)
    requires UniqueIds(table)
    ensures NewestRows(OfDataset(table, repoId, datasetId)) == NewestRows(OfRepos(table, {repoId}))
       <==> forall r :: r in NewestRows(OfRepos(table, {repoId})) ==> r.datasetId == datasetId
  {
    var one, all := OfDataset(table, repoId, datasetId), OfRepos(table, {repoId});
    if forall r :: r in NewestRows(all) ==> r.datasetId == datasetId {
      forall r | r in NewestRows(all) ensures r in NewestRows(one) { }
      forall r | r in NewestRows(one) ensures r in NewestRows(all) {
        var candidates := set c | c in all && KeyOf(c) == KeyOf(r);
        assert r in candidates;
        var n := NewestExists(all, candidates, r);
        assert n in NewestRows(all) && n in one;
      }
    }
  }

  /** Then both computations report the same: pending there is running here, dead there is failed here.
      In particular they do when all versions share one dataset. */
  method CommandLineAgrees(ghost table: set<Row>, repoId: string, datasetId: string, inDataset: seq<Row>,
                           inRepo: seq<Row>)
      returns (pending: nat, dead: nat, shown: Counters)
    requires UniqueIds(table)
    requires QueryResult(OfDataset(table, repoId, datasetId), inDataset)
    requires QueryResult(OfRepos(table, {repoId}), inRepo)
    ensures (forall r :: r in NewestRows(OfRepos(table, {repoId})) ==> r.datasetId == datasetId) ==>
              pending == shown.running && dead == shown.failed
  {
    pending, dead := ParseWorkState(table, repoId, datasetId, inDataset);
    var result, _ := ParsingByRepo(table, {repoId}, inRepo);
    shown := result[repoId];
    hide OfDataset, OfRepos, LatestOf, FilesIn, NewestRows, UniqueIds;
    ghost var cli :| LatestOf(OfDataset(table, repoId, datasetId), cli)
                     && pending == |FilesIn(cli, repoId, Running)| && dead == |FilesIn(cli, repoId, Failed)|;
    ghost var dashboard :| LatestOf(OfRepos(table, {repoId}), dashboard)
                           && forall id :: id in {repoId} ==> Counts(dashboard, id, result[id]);
    assert Counts(dashboard, repoId, shown);
    if forall r :: r in NewestRows(OfRepos(table, {repoId})) ==> r.datasetId == datasetId {
      SameStates(table, repoId, datasetId, cli, dashboard);
    }
  }

  lemma SameStates(table: set<Row>, repoId: string, datasetId: string,
                   cli: map<FileKey, VersionState>, dashboard: map<FileKey, VersionState>)
    requires UniqueIds(table)
    requires LatestOf(OfDataset(table, repoId, datasetId), cli) && LatestOf(OfRepos(table, {repoId}), dashboard)
    requires forall r :: r in NewestRows(OfRepos(table, {repoId})) ==> r.datasetId == datasetId
    ensures cli == dashboard
  {
    SameVersionsExactlyWhen(table, repoId, datasetId);
    SameNewestSameStates(OfDataset(table, repoId, datasetId), OfRepos(table, {repoId}), cli);
    LatestUnique(OfRepos(table, {repoId}), cli, dashboard);
  }

  lemma SameNewestSameStates(one: set<Row>, all: set<Row>, latest: map<FileKey, VersionState>)
    requires NewestRows(one) == NewestRows(all) && LatestOf(one, latest)
    ensures LatestOf(all, latest)
  {
    forall r | r in all ensures KeyOf(r) in latest {
      var candidates := set c | c in all && KeyOf(c) == KeyOf(r);
      var n := NewestExists(all, candidates, r);
      assert n in NewestRows(all);
    }
    forall key | key in latest ensures exists r :: Newest(all, r) && KeyOf(r) == key && r.state == latest[key] {
      var r :| Newest(one, r) && KeyOf(r) == key && r.state == latest[key];
      assert r in NewestRows(one);
    }
  }

  lemma NewestState(selected: set<Row>, latest: map<FileKey, VersionState>, r: Row)
    requires UniqueIds(selected) && LatestOf(selected, latest) && Newest(selected, r)
    ensures KeyOf(r) in latest && latest[KeyOf(r)] == r.state
  {
    var s :| Newest(selected, s) && KeyOf(s) == KeyOf(r) && s.state == latest[KeyOf(r)];
    assert s.id <= r.id <= s.id;
  }

  /** A file uploaded anew to another dataset: the command line still counts its old version as parsing,
      while the dashboard shows nothing at work. */
  method MovedFileDisagrees(before: Row, after: Row) returns (pending: nat, dead: nat, shown: Counters)
    requires KeyOf(before) == KeyOf(after) && before.id < after.id && before.datasetId != after.datasetId
    requires before.state.Parsing? && after.state.Current?
    ensures pending == 1 && shown.running == 0 && shown.done == shown.tracked == 1
  {
    TwoRows(before, after);
    hide *;
    var repoId := before.repoId;
    pending, dead := ParseWorkState({before, after}, repoId, before.datasetId, [before]);
    var result, _ := ParsingByRepo({before, after}, {repoId}, [after, before]);
    shown := result[repoId];
    ghost var cli :| LatestOf(OfDataset({before, after}, repoId, before.datasetId), cli)
                     && pending == |FilesIn(cli, repoId, Running)| && dead == |FilesIn(cli, repoId, Failed)|;
    ghost var dashboard :| LatestOf(OfRepos({before, after}, {repoId}), dashboard)
                           && forall id :: id in {repoId} ==> Counts(dashboard, id, result[id]);
    CountsOf(dashboard, repoId, shown);
    MovedCounts(before, after, cli, dashboard);
  }

  lemma CountsOf(latest: map<FileKey, VersionState>, repoId: string, c: Counters)
    requires Counts(latest, repoId, c)
    ensures c.tracked == |FilesIn(latest, repoId, Tracked)| && c.done == |FilesIn(latest, repoId, Done)|
    ensures c.running == |FilesIn(latest, repoId, Running)|
  {
  }

  lemma MovedCounts(before: Row, after: Row, cli: map<FileKey, VersionState>, dashboard: map<FileKey, VersionState>)
    requires KeyOf(before) == KeyOf(after) && before.id < after.id
    requires before.state.Parsing? && after.state.Current?
    requires LatestOf({before}, cli) && LatestOf({before, after}, dashboard)
    ensures |FilesIn(cli, before.repoId, Running)| == 1
    ensures |FilesIn(dashboard, before.repoId, Tracked)| == |FilesIn(dashboard, before.repoId, Done)| == 1
    ensures |FilesIn(dashboard, before.repoId, Running)| == 0
  {
    hide LatestOf, FilesIn;
    OneFile({before}, before, cli);
    OneFile({before, after}, after, dashboard);
  }

  /** All selected rows are versions of one file, which counts by its newest. */
  lemma OneFile(selected: set<Row>, newest: Row, latest: map<FileKey, VersionState>)
    requires UniqueIds(selected) && LatestOf(selected, latest) && Newest(selected, newest)
    requires forall r :: r in selected ==> KeyOf(r) == KeyOf(newest)
    ensures forall category ::
              |FilesIn(latest, newest.repoId, category)| == if Falls(newest.state, category) then 1 else 0
  {
    NewestState(selected, latest, newest);
    hide Falls;
    forall category
      ensures |FilesIn(latest, newest.repoId, category)| == if Falls(newest.state, category) then 1 else 0
    {
      var files := FilesIn(latest, newest.repoId, category);
      assert files == if Falls(newest.state, category) then {KeyOf(newest)} else {};
    }
  }

  lemma TwoRows(before: Row, after: Row)
    requires KeyOf(before) == KeyOf(after) && before.id < after.id && before.datasetId != after.datasetId
    ensures OfDataset({before, after}, before.repoId, before.datasetId) == {before}
    ensures OfRepos({before, after}, {before.repoId}) == {before, after}
    ensures QueryResult(OfDataset({before, after}, before.repoId, before.datasetId), [before])
    ensures QueryResult(OfRepos({before, after}, {before.repoId}), [after, before])
  {
  }
}
