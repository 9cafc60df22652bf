/** Bounding stored JSON: long strings are cut with an ellipsis, long lists and objects keep their
    first entries, at every depth.
 */
module TruncateJson {
  import opened Basics

  datatype Json =
    | Text(text: string)
    | Array(items: seq<Json>)
    | Object(entries: seq<Entry>)
    | Scalar(literal: string)   // null, a boolean, or a number

  datatype Entry = Entry(key: string, value: Json)

  const MAX_ITEMS := 50
  const MAX_ENTRIES := 100
  const ELLIPSIS := '\U{2026}'

  /** Python's text[:stop]; a negative stop counts from the end. */
  function Slice(text: string, stop: int): string {
    var end := if stop >= 0 then stop else |text| + stop;
    if end <= 0 then "" else if end >= |text| then text else text[..end]
  }

  /** `safe_text` on a string. */
  function SafeText(text: string, maxLength: int): string {
    if |text| <= maxLength then text else Slice(text, maxLength - 1) + [ELLIPSIS]
  }

  function Truncate(value: Json, maxLength: int): Json {
    match value
    case Text(text) => Text(SafeText(text, maxLength))
    case Array(items) =>
      Array(seq(Min(|items|, MAX_ITEMS), i requires 0 <= i < Min(|items|, MAX_ITEMS) => Truncate(items[i], maxLength)))
    case Object(entries) =>
      Object(seq(Min(|entries|, MAX_ENTRIES), i requires 0 <= i < Min(|entries|, MAX_ENTRIES) =>
        Entry(entries[i].key, Truncate(entries[i].value, maxLength))))
    case Scalar(_) => value
  }

  /** Every string, list and object, at every depth, is within the bounds. */
  ghost predicate Bounded(value: Json, maxLength: int) {
    match value
    case Text(text) => |text| <= maxLength
    case Array(items) => |items| <= 50 && forall i :: 0 <= i < |items| ==> Bounded(items[i], maxLength)
    case Object(entries) =>
      |entries| <= 100 && forall i :: 0 <= i < |entries| ==> Bounded(entries[i].value, maxLength)
    case Scalar(_) => true
  }

  /** The cut keeps a string within the limit exactly when the limit is positive or the string was short anyway. */
  lemma SafeTextBound(text: string, maxLength: int)
    ensures |SafeText(text, maxLength)| <= maxLength <==> maxLength >= 1 || |text| <= maxLength
    ensures maxLength >= 1 && |text| > maxLength ==>
              var cut := SafeText(text, maxLength);
              |cut| == maxLength && cut[..maxLength - 1] == text[..maxLength - 1] && cut[maxLength - 1] == ELLIPSIS
    ensures |text| <= maxLength ==> SafeText(text, maxLength) == text
    ensures maxLength <= 0 && |text| > maxLength ==>
              var kept := |text| + maxLength - 1;
              SafeText(text, maxLength) == (if kept > 0 then text[..kept] else "") + [ELLIPSIS]
  {
  }

  lemma {:induction false} TruncateBounds(value: Json, maxLength: int)
    requires maxLength >= 1
    ensures Bounded(Truncate(value, maxLength), maxLength)
  {
    match value
    case Text(text) => SafeTextBound(text, maxLength);
    case Array(items) =>
      forall i | 0 <= i < Min(|items|, MAX_ITEMS) ensures Bounded(Truncate(items[i], maxLength), maxLength) {
        TruncateBounds(items[i], maxLength);
      }
    case Object(entries) =>
      forall i | 0 <= i < Min(|entries|, MAX_ENTRIES)
        ensures Bounded(Truncate(entries[i].value, maxLength), maxLength)
      {
        TruncateBounds(entries[i].value, maxLength);
      }
    case Scalar(_) =>
  }

  /** Values within the bounds, and only they, pass unchanged (for a positive limit). */
  lemma {:induction false} TruncateIdentity(value: Json, maxLength: int)
    requires Bounded(value, maxLength)
    ensures Truncate(value, maxLength) == value
  {
    match value
    case Text(_) =>
    case Array(items) =>
      forall i | 0 <= i < |items| ensures Truncate(items[i], maxLength) == items[i] {
        TruncateIdentity(items[i], maxLength);
      }
      assert Truncate(value, maxLength).items == items;
    case Object(entries) =>
      forall i | 0 <= i < |entries| ensures Truncate(entries[i].value, maxLength) == entries[i].value {
        TruncateIdentity(entries[i].value, maxLength);
      }
      assert Truncate(value, maxLength).entries == entries;
    case Scalar(_) =>
  }

  lemma UnchangedExactlyWhenBounded(value: Json, maxLength: int)
    requires maxLength >= 1
    ensures Truncate(value, maxLength) == value <==> Bounded(value, maxLength)
    ensures Truncate(Truncate(value, maxLength), maxLength) == Truncate(value, maxLength)
  {
    TruncateBounds(value, maxLength);
    TruncateIdentity(Truncate(value, maxLength), maxLength);
    if Bounded(value, maxLength) { TruncateIdentity(value, maxLength); }
  }

  /** With a negative limit truncation is not even idempotent. */
  lemma NegativeLimitKeepsCutting()
    ensures SafeText(SafeText("abc", -1), -1) != SafeText("abc", -1)
  {
    assert SafeText("abc", -1) == "a" + [ELLIPSIS];
    assert SafeText("a" + [ELLIPSIS], -1) == [ELLIPSIS];
  }

  // ---------------------------------------------------------------- what stays where

  /** What stands at a path of positions, each in a list or an object. */
  ghost function Get(value: Json, path: seq<nat>): Option<Json>
    decreases |path|
  {
    if path == [] then Some(value) else
    match value
    case Array(items) => if path[0] < |items| then Get(items[path[0]], path[1..]) else None
    case Object(entries) => if path[0] < |entries| then Get(entries[path[0]].value, path[1..]) else None
    case _ => None
  }

  /** Every position on the path is among the first 50 of its list, or the first 100 of its object. */
  ghost predicate WithinLimits(value: Json, path: seq<nat>)
    decreases |path|
  {
    path == [] ||
    match value
    case Array(items) => path[0] < |items| && path[0] < 50 && WithinLimits(items[path[0]], path[1..])
    case Object(entries) => path[0] < |entries| && path[0] < 100 && WithinLimits(entries[path[0]].value, path[1..])
    case _ => false
  }

  /** A value and what it becomes: of the same kind, with its key names, a list or an object cut to length. */
  ghost predicate Cut(was: Json, now: Json, maxLength: int) {
    match was
    case Text(text) => now == Text(SafeText(text, maxLength))
    case Array(items) => now.Array? && |now.items| == (if |items| > 50 then 50 else |items|)
    case Object(entries) =>
      && now.Object? && |now.entries| == (if |entries| > 100 then 100 else |entries|)
      && forall i :: 0 <= i < |now.entries| ==> now.entries[i].key == entries[i].key
    case Scalar(_) => now == was
  }

  /** Truncation moves nothing: exactly the paths within the limits stay, each with the cut form of what was there. */
  lemma {:induction false} TruncateAt(value: Json, path: seq<nat>, maxLength: int)
    ensures var now := Get(Truncate(value, maxLength), path);
            && (now.Some? <==> WithinLimits(value, path))
            && (now.Some? ==> Get(value, path).Some? && Cut(Get(value, path).value, now.value, maxLength))
    decreases |path|
  {
    hide SafeText;
    if path != [] {
      match value
      case Array(items) =>
        if path[0] < |items| { TruncateAt(items[path[0]], path[1..], maxLength); }
      case Object(entries) =>
        if path[0] < |entries| { TruncateAt(entries[path[0]].value, path[1..], maxLength); }
      case _ =>
    }
  }

  // ---------------------------------------------------------------- the stored workflow parent

  function Strings(texts: seq<string>): Json {
    Array(seq(|texts|, i requires 0 <= i < |texts| => Text(texts[i])))
  }

  function CutAll(texts: seq<string>, maxLength: int): seq<string> {
    seq(|texts|, i requires 0 <= i < |texts| => SafeText(texts[i], maxLength))
  }

  /** Two texts that are cut to the same: both too long with one beginning, or one of them too long and
      the other its cut form already. */
  predicate CutAlike(a: string, b: string, maxLength: int)
    requires maxLength >= 1
  {
    var start := maxLength - 1;
    || (|a| > maxLength && |b| > maxLength && a[..start] == b[..start])
    || (|a| > maxLength && b == a[..start] + [ELLIPSIS])
    || (|b| > maxLength && a == b[..start] + [ELLIPSIS])
  }

  lemma CutAlikeExactly(a: string, b: string, maxLength: int)
    requires maxLength >= 1 && a != b
    ensures SafeText(a, maxLength) == SafeText(b, maxLength) <==> CutAlike(a, b, maxLength)
  {
    if |a| > maxLength && |b| > maxLength {
      assert SafeText(a, maxLength)[..maxLength - 1] == a[..maxLength - 1];
      assert SafeText(b, maxLength)[..maxLength - 1] == b[..maxLength - 1];
    }
  }

  /** The repository list of a workflow parent is stored whole exactly up to 50 entries that all fit; beyond,
      the first 50 remain, each cut.  What remains still lists each repository once exactly when no two
      of those are cut to the same text. */
  lemma StoredRepositories(repoIds: seq<string>, maxLength: int)
    requires maxLength >= 1 && Distinct(repoIds)
    ensures var kept := CutAll(repoIds[..Min(|repoIds|, MAX_ITEMS)], maxLength);
            && Truncate(Strings(repoIds), maxLength) == Strings(kept)
            && (Distinct(kept) <==> forall i, j :: 0 <= i < j < |kept| ==> !CutAlike(repoIds[i], repoIds[j], maxLength))
    ensures Truncate(Strings(repoIds), maxLength) == Strings(repoIds)
       <==> |repoIds| <= 50 && forall i :: 0 <= i < |repoIds| ==> |repoIds[i]| <= maxLength
  {
    CutFormsDistinct(repoIds[..Min(|repoIds|, MAX_ITEMS)], maxLength);
    StoredCut(repoIds, maxLength);
    StoredWhole(repoIds, maxLength);
    hide Truncate, Strings, CutAll, CutAlike, Distinct;
  }

  lemma StoredCut(repoIds: seq<string>, maxLength: int)
    ensures Truncate(Strings(repoIds), maxLength)
         == Strings(CutAll(repoIds[..Min(|repoIds|, MAX_ITEMS)], maxLength))
  {
    hide SafeText;
    assert Truncate(Strings(repoIds), maxLength).items
        == Strings(CutAll(repoIds[..Min(|repoIds|, MAX_ITEMS)], maxLength)).items;
  }

  lemma StoredWhole(repoIds: seq<string>, maxLength: int)
    requires maxLength >= 1
    ensures Truncate(Strings(repoIds), maxLength) == Strings(repoIds)
       <==> |repoIds| <= 50 && forall i :: 0 <= i < |repoIds| ==> |repoIds[i]| <= maxLength
  {
    UnchangedExactlyWhenBounded(Strings(repoIds), maxLength);
    hide Truncate;
    assert forall i :: 0 <= i < |repoIds| ==> Strings(repoIds).items[i] == Text(repoIds[i]);
  }

  lemma CutFormsDistinct(texts: seq<string>, maxLength: int)
    requires maxLength >= 1 && Distinct(texts)
    ensures Distinct(CutAll(texts, maxLength))
       <==> forall i, j :: 0 <= i < j < |texts| ==> !CutAlike(texts[i], texts[j], maxLength)
  {
    hide SafeText, CutAlike;
    forall i, j | 0 <= i < j < |texts|
      ensures CutAll(texts, maxLength)[i] == CutAll(texts, maxLength)[j] <==> CutAlike(texts[i], texts[j], maxLength)
    {
      CutAlikeExactly(texts[i], texts[j], maxLength);
    }
  }

  /** Two long ids with a common beginning become one text. */
  lemma LongIdsCollide(start: string, a: string, b: string)
    requires a != b && |a| >= 2 && |b| >= 2
    ensures Distinct([start + a, start + b])
    ensures !Distinct(CutAll([start + a, start + b], |start| + 1))
  {
    var ids := [start + a, start + b];
    assert ids[0][|start|..] == a && ids[1][|start|..] == b;
    assert ids[0][..|start|] == start == ids[1][..|start|];
    var cut := CutAll(ids, |start| + 1);
    assert cut[0] == cut[1];
  }
}
