/** Retention of dashboard events: rows are inserted, and a prune deletes all but the `keep` rows of
    the latest timestamps.  Pruning online, insert by insert, keeps what pruning the whole history
    once would keep.
 */
module Retention {
  import opened Basics

  datatype Row = Row(id: nat, at: int)

  /** `kept` are `keep` rows of `all` (or all of them), none older than a row left out.  Among rows of
      one timestamp the choice is the database's. */
  ghost predicate IsTop(keep: nat, all: set<Row>, kept: set<Row>) {
    && kept <= all
    && |kept| == (if |all| <= keep then |all| else keep)
    && forall x, y :: x in kept && y in all && y !in kept ==> y.at <= x.at
  }

  // ---------------------------------------------------------------- sets of rows

  lemma {:induction false} SubsetCard(a: set<Row>, b: set<Row>)
    requires a <= b
    ensures |a| <= |b|
    ensures |a| == |b| ==> a == b
  {
    assert b == a + (b - a);
    assert |b| == |a| + |b - a|;
  }

  // ---------------------------------------------------------------- online equals offline

  /** A row of the later choice that is new pushes out an older one that is no later than it. */
  lemma NewerThanDropped(keep: nat, a: set<Row>, top: set<Row>, b: set<Row>, kept: set<Row>, x: Row, y: Row)
    requires IsTop(keep, a, top) && IsTop(keep, top + b, kept)
    requires x in kept && x !in top && y in a && y !in top
    ensures y.at <= x.at
  {
    SubsetCard(top, a);
    SubsetCard(top, top + b);
    assert |kept| == |top| == keep;
    if top <= kept { SubsetCard(top, kept); }
    var t :| t in top && t !in kept;
    assert y.at <= t.at <= x.at;
  }

  /** Choosing the top rows first and again after more rows came in is choosing them once at the end. */
  lemma PruneAgain(keep: nat, a: set<Row>, top: set<Row>, b: set<Row>, kept: set<Row>)
    requires IsTop(keep, a, top) && IsTop(keep, top + b, kept)
    ensures IsTop(keep, a + b, kept)
  {
    SubsetCard(top, a);
    if |a| > keep {
      SubsetCard(top, top + b);
      SubsetCard(a, a + b);
    }
    forall x, y | x in kept && y in a + b && y !in kept ensures y.at <= x.at {
      if y !in top + b && x !in top { NewerThanDropped(keep, a, top, b, kept, x, y); }
    }
  }

  /** Without ties there is only one choice. */
  lemma TopUnique(keep: nat, all: set<Row>, u: set<Row>, v: set<Row>)
    requires IsTop(keep, all, u) && IsTop(keep, all, v)
    requires forall x, y :: x in all && y in all && x.at == y.at ==> x == y
    ensures u == v
  {
    if u != v {
      if u <= v { SubsetCard(u, v); }
      if v <= u { SubsetCard(v, u); }
      var x :| x in u && x !in v;
      var y :| y in v && y !in u;
      assert false;
    }
  }

  function Rows(events: seq<Row>): set<Row> { set e | e in events }

  lemma RowsSnoc(events: seq<Row>, e: Row)
    ensures Rows(events + [e]) == Rows(events) + {e} && Rows([]) == {}
  {
  }

  ghost predicate StrictlyLater(events: seq<Row>) {
    forall i, j :: 0 <= i < j < |events| ==> events[i].at < events[j].at
  }

  lemma {:induction false} RowsCount(events: seq<Row>)
    requires StrictlyLater(events)
    ensures |Rows(events)| == |events|
  {
    if events != [] {
      var n := |events| - 1;
      RowsCount(events[..n]);
      assert events == events[..n] + [events[n]];
      assert Rows(events) == Rows(events[..n]) + {events[n]};
      assert events[n] !in events[..n];
    } else {
      assert Rows(events) == {};
    }
  }

  function Last(events: seq<Row>, keep: nat): seq<Row> { events[|events| - Min(|events|, keep)..] }

  lemma InRows(events: seq<Row>, x: Row) returns (i: nat)
    requires x in Rows(events)
    ensures i < |events| && events[i] == x
  {
    i :| 0 <= i < |events| && events[i] == x;
  }

  lemma TailInLast(keep: nat, events: seq<Row>)
    ensures forall k :: |events| - Min(|events|, keep) <= k < |events| ==> events[k] in Rows(Last(events, keep))
  {
    var from := |events| - Min(|events|, keep);
    forall k | from <= k < |events| ensures events[k] in Rows(Last(events, keep)) {
      assert Last(events, keep)[k - from] == events[k];
    }
  }

  lemma LastIsLater(keep: nat, events: seq<Row>, x: Row, y: Row)
    requires StrictlyLater(events)
    requires x in Rows(Last(events, keep)) && y in Rows(events) && y !in Rows(Last(events, keep))
    ensures y.at <= x.at
  {
    TailInLast(keep, events);
    var i := InRows(Last(events, keep), x);
    var j := InRows(events, y);
    hide Rows;
    assert Last(events, keep)[i] == events[|events| - Min(|events|, keep) + i];
  }

  lemma MemberOfRows(events: seq<Row>, i: nat)
    requires i < |events|
    ensures events[i] in Rows(events)
  {
  }

  lemma LastIsTop(keep: nat, events: seq<Row>)
    requires StrictlyLater(events)
    ensures IsTop(keep, Rows(events), Rows(Last(events, keep)))
  {
    var last := Last(events, keep);
    RowsCount(events);
    RowsCount(last);
    hide Rows;
    forall x | x in Rows(last) ensures x in Rows(events) {
      var i := InRows(last, x);
      MemberOfRows(events, |events| - |last| + i);
    }
    forall x, y | x in Rows(last) && y in Rows(events) && y !in Rows(last) ensures y.at <= x.at {
      LastIsLater(keep, events, x, y);
    }
  }

  /** With increasing timestamps the kept rows are the last min(n, keep) events ever recorded. */
  lemma TopIsLast(keep: nat, events: seq<Row>, kept: set<Row>)
    requires StrictlyLater(events) && IsTop(keep, Rows(events), kept)
    ensures kept == Rows(Last(events, keep))
  {
    LastIsTop(keep, events);
    TopUnique(keep, Rows(events), kept, Rows(Last(events, keep)));
  }

  // ---------------------------------------------------------------- the table

  ghost predicate LatestFirst(order: seq<Row>, rows: set<Row>) {
    && (forall r :: r in order <==> r in rows)
    && (forall i, j :: 0 <= i < j < |order| ==> order[i] != order[j] && order[i].at >= order[j].at)
  }

  lemma {:induction false} LatestRow(rows: set<Row>) returns (r: Row)
    requires rows != {}
    ensures r in rows && forall x :: x in rows ==> x.at <= r.at
  {
    r := Element(rows);
    assert rows == {r} + (rows - {r});
    if rows != {r} {
      var s := LatestRow(rows - {r});
      assert forall x :: x in rows ==> x == r || x in rows - {r};
      if s.at > r.at { r := s; }
    }
  }

  /** SELECT .. ORDER BY the timestamp, latest first; rows of one timestamp come in any order. */
  method SelectLatestFirst(rows: set<Row>) returns (order: seq<Row>)
    ensures LatestFirst(order, rows)
  {
    order := [];
    var left := rows;
    while left != {}
      invariant left <= rows && LatestFirst(order, rows - left)
      invariant forall x, y :: x in left && y in order ==> x.at <= y.at
    {
      ghost var _ := LatestRow(left);
      var r :| r in left && forall x :: x in left ==> x.at <= r.at;
      assert rows - (left - {r}) == rows - left + {r};
      order := order + [r];
      left := left - {r};
    }
    assert rows - left == rows;
  }

  lemma {:induction false} OrderCount(order: seq<Row>, rows: set<Row>)
    requires LatestFirst(order, rows)
    ensures |order| == |rows|
  {
    if order == [] {
      assert rows == {};
    } else {
      var n := |order| - 1;
      var rest := order[..n];
      assert order == rest + [order[n]];
      forall r ensures r in rest <==> r in rows - {order[n]} {
        if r in rest { var i :| 0 <= i < n && rest[i] == r; assert order[i] != order[n]; }
      }
      OrderCount(rest, rows - {order[n]});
    }
  }

  /** Deleting everything behind the first `keep` rows of an order leaves a top choice. */
  lemma OffsetLeavesTop(keep: nat, order: seq<Row>, rows: set<Row>)
    requires LatestFirst(order, rows) && keep < |order|
    ensures IsTop(keep, rows, rows - Rows(order[keep..]))
  {
    var kept := rows - Rows(order[keep..]);
    assert order == order[..keep] + order[keep..];
    assert forall r :: r in kept <==> r in order[..keep];
    OrderCount(order, rows);
    OrderCount(order[..keep], kept);
  }

  /** The SELECT with OFFSET and the DELETE of `_prune_table`. */
  method DeleteStale(rows: set<Row>, keep: nat) returns (kept: set<Row>)
    ensures IsTop(keep, rows, kept)
  {
    var order := SelectLatestFirst(rows);
    OrderCount(order, rows);
    if |order| > keep {
      OffsetLeavesTop(keep, order, rows);
      kept := rows - Rows(order[keep..]);
    } else {
      kept := rows;
    }
  }

  /** Pruning a table of earlier survivors and later events prunes the whole history. */
  lemma PruneHistory(keep: nat, events: seq<Row>, split: nat, survivors: set<Row>, kept: set<Row>)
    requires split <= |events| && IsTop(keep, Rows(events[..split]), survivors)
    requires IsTop(keep, survivors + Rows(events[split..]), kept)
    ensures IsTop(keep, Rows(events), kept)
  {
    assert events == events[..split] + events[split..];
    assert Rows(events) == Rows(events[..split]) + Rows(events[split..]);
    PruneAgain(keep, Rows(events[..split]), survivors, Rows(events[split..]), kept);
  }

  /** The rows are a top choice of all events up to the last prune, and every event after it. */
  ghost predicate Survivors(limit: int, events: seq<Row>, since: nat, pruned: set<Row>, rows: set<Row>) {
    && since <= |events|
    && rows == pruned + Rows(events[|events| - since..])
    && (limit > 0 ==> IsTop(limit, Rows(events[..|events| - since]), pruned))
    && (limit <= 0 ==> rows == Rows(events))
  }

  lemma SurvivorsPruned(limit: int, events: seq<Row>, since: nat, pruned: set<Row>, rows: set<Row>, kept: set<Row>)
    requires limit > 0 && Survivors(limit, events, since, pruned, rows) && IsTop(limit, rows, kept)
    ensures Survivors(limit, events, 0, kept, kept) && IsTop(limit, Rows(events), kept) && kept <= rows
  {
    PruneHistory(limit, events, |events| - since, pruned, kept);
    assert events[..|events|] == events && events[|events|..] == [];
  }

  lemma SurvivorsJoined(limit: int, events: seq<Row>, since: nat, pruned: set<Row>, rows: set<Row>, row: Row)
    requires Survivors(limit, events, since, pruned, rows)
    ensures Survivors(limit, events + [row], since + 1, pruned, rows + {row})
  {
    assert (events + [row])[|events| - since..] == events[|events| - since..] + [row];
    assert (events + [row])[..|events| - since] == events[..|events| - since];
  }

  /** One dashboard table.  `events` is everything ever inserted; `pruned` what the last prune left,
      and `since` what came after it. */
  class EventTable {
    const limit: int
    var rows: set<Row>
    var nextId: nat
    ghost var events: seq<Row>
    ghost var pruned: set<Row>
    ghost var since: nat

    ghost predicate Valid()
      reads this
    {
      Survivors(limit, events, since, pruned, rows) && forall e :: e in events ==> e.id < nextId
    }

    constructor (limit: int)
      ensures Valid() && this.limit == limit && rows == {} && events == []
    {
      this.limit := limit;
      rows, nextId, events, pruned, since := {}, 0, [], {}, 0;
    }

    /** session.add and commit. */
    method Insert(at: int)
      requires Valid()
      modifies this
      ensures Valid() && nextId == old(nextId) + 1 && since == old(since) + 1
      ensures events == old(events) + [Row(old(nextId), at)] && pruned == old(pruned)
      ensures rows == old(rows) + {Row(old(nextId), at)}
    {
      hide Survivors;
      var row := Row(nextId, at);
      SurvivorsJoined(limit, events, since, pruned, rows, row);
      events := events + [row];
      since := since + 1;
      rows := rows + {row};
      nextId := nextId + 1;
    }

    /** `_prune_table`: a limit of zero or less keeps everything. */
    method Prune()
      requires Valid()
      modifies this`rows, this`pruned, this`since
      ensures Valid() && rows <= old(rows)
      ensures limit > 0 ==> since == 0 && IsTop(limit, Rows(events), rows)
      ensures limit <= 0 ==> rows == Rows(events) && since == old(since)
    {
      hide IsTop, Rows;
      if limit <= 0 { return; }
      var kept := DeleteStale(rows, limit);
      SurvivorsPruned(limit, events, since, pruned, rows, kept);
      rows, pruned, since := kept, kept, 0;
    }

    /** `stage_change`: no prune. */
    method StageChange(at: int)
      requires Valid()
      modifies this
      ensures Valid() && events == old(events) + [Row(old(nextId), at)]
      ensures rows == old(rows) + {Row(old(nextId), at)} && since == old(since) + 1
    {
      Insert(at);
    }

    /** `record_change`: whatever was staged or recorded before, the table is then a top choice of all events. */
    method RecordChange(at: int)
      requires Valid()
      modifies this
      ensures Valid() && events == old(events) + [Row(old(nextId), at)]
      ensures limit > 0 ==> IsTop(limit, Rows(events), rows)
      ensures limit > 0 && StrictlyLater(events) ==> rows == Rows(Last(events, limit))
      ensures limit <= 0 ==> rows == Rows(events)
    {
      Insert(at);
      Prune();
      if limit > 0 && StrictlyLater(events) { TopIsLast(limit, events, rows); }
    }

    /** session.add_all: `count` rows under one timestamp. */
    method InsertBatch(count: nat, at: int)
      requires Valid()
      modifies this
      ensures Valid() && |events| == |old(events)| + count && old(events) <= events
      ensures forall i :: |old(events)| <= i < |events| ==> events[i].at == at
      ensures since == old(since) + count && pruned == old(pruned)
      ensures rows == old(rows) + Rows(events[|old(events)|..])
    {
      hide Survivors, Rows;
      RowsSnoc([], Row(0, at));
      assert events[|events|..] == [];
      var i := 0;
      while i < count
        invariant i <= count && Valid()
        invariant |events| == |old(events)| + i && old(events) <= events
        invariant forall k :: |old(events)| <= k < |events| ==> events[k].at == at
        invariant since == old(since) + i && pruned == old(pruned)
        invariant rows == old(rows) + Rows(events[|old(events)|..])
      {
        ghost var before, row := events[|old(events)|..], Row(nextId, at);
        Insert(at);
        RowsSnoc(before, row);
        assert events[|old(events)|..] == before + [row];
        i := i + 1;
      }
    }

    /** `record_logs`: a batch of `count` entries under one timestamp, pruned only when asked. */
    method RecordLogs(count: nat, at: int, prune: bool)
      requires Valid()
      modifies this
      ensures Valid() && |events| == |old(events)| + count && old(events) <= events
      ensures forall i :: |old(events)| <= i < |events| ==> events[i].at == at
      ensures count == 0 ==> rows == old(rows)
      ensures count > 0 && prune && limit > 0 ==> since == 0 && IsTop(limit, Rows(events), rows)
      ensures !prune ==> since == old(since) + count && pruned == old(pruned)
                         && rows == old(rows) + Rows(events[|old(events)|..])
      ensures limit <= 0 ==> rows == Rows(events)
    {
      hide IsTop;
      if count == 0 {
        assert events[|events|..] == [];
        return;
      }
      InsertBatch(count, at);
      if prune { Prune(); }
    }
  }
}
