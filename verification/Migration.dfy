/** Migration 0006: legacy duplicate document bindings are quarantined, then the surviving ones
    become the first rows of the version table.  The SQL statements are given as set semantics;
    the database object carries them out row by row, in any order.
 */
module Migration {
  import opened Basics

  datatype File = File(
    repoId: string,
    path: string,
    documentId: Option<string>,
    documentName: Option<string>,
    ingestedName: Option<string>,
    sourceHash: Option<string>,
    ingestedHash: Option<string>,
    mime: Option<string>,
    syncStatus: string,
    parseStatus: Option<string>,
    error: Option<string>,
    retries: int,
    createdAt: int,
    updatedAt: int)

  datatype Version = Version(
    fileId: int,
    repoId: string,
    path: string,
    datasetId: string,
    documentId: string,
    documentName: string,
    sourceHash: Option<string>,
    ingestedHash: Option<string>,
    mime: Option<string>,
    state: string,
    parseStatus: Option<string>,
    polls: int,
    retries: int,
    error: Option<string>,
    createdAt: int,
    updatedAt: int,
    promotedAt: int)

  /** The document a file is bound to, within the dataset of its library. */
  datatype Target = Target(datasetId: string, documentId: string)

  /** Library rows by their primary key, reduced to the dataset column. */
  type Libraries = map<string, Option<string>>
  /** File rows by their primary key. */
  type Files = map<int, File>

  const QUARANTINE_ERROR := "Legacy duplicate RAGFlow document binding quarantined by migration 0006"

  /** The join of a file with its library, where both document and dataset are not NULL. */
  function Binding(libs: Libraries, f: File): Option<Target> {
    if f.documentId.Some? && f.repoId in libs && libs[f.repoId].Some?
    then Some(Target(libs[f.repoId].value, f.documentId.value))
    else None
  }

  // ---------------------------------------------------------------- UPDATE files

  /** The subquery: some file of lower id in a library with the same dataset is bound to the same document. */
  ghost predicate Loser(libs: Libraries, files: Files, id: int)
    requires id in files
  {
    exists winner :: winner in files && Beats(libs, files, winner, id)
  }

  ghost predicate Beats(libs: Libraries, files: Files, winner: int, loser: int)
    requires winner in files && loser in files
  {
    winner < loser && Binding(libs, files[loser]).Some? && Binding(libs, files[winner]) == Binding(libs, files[loser])
  }

  function Quarantine(f: File): File {
    f.(documentId := None, documentName := None, ingestedName := None,
       syncStatus := "repair_required", parseStatus := None, error := Some(QUARANTINE_ERROR))
  }

  ghost function Quarantined(libs: Libraries, files: Files): Files {
    map id | id in files :: if Loser(libs, files, id) then Quarantine(files[id]) else files[id]
  }

  // ---------------------------------------------------------------- INSERT INTO file_document_versions

  function Name(f: File): Option<string> {
    if f.documentName.Some? then f.documentName else f.ingestedName
  }

  predicate Inserted(libs: Libraries, f: File) {
    Binding(libs, f).Some? && Name(f).Some?
  }

  function VersionOf(libs: Libraries, id: int, f: File): Version
    requires Inserted(libs, f)
  {
    var target := Binding(libs, f).value;
    Version(id, f.repoId, f.path, target.datasetId, target.documentId, Name(f).value,
            f.sourceHash, f.ingestedHash, f.mime, "current", f.parseStatus, 0, f.retries, f.error,
            f.createdAt, f.updatedAt, f.updatedAt)
  }

  function TargetOf(v: Version): Target { Target(v.datasetId, v.documentId) }

  /** uq_file_document_versions_target */
  ghost predicate UniqueTargets(versions: seq<Version>) {
    forall i, j :: 0 <= i < j < |versions| ==> TargetOf(versions[i]) != TargetOf(versions[j])
  }

  /** The rows inserted are, one for one, the versions of the files that are bound and named. */
  ghost predicate VersionsOf(libs: Libraries, files: Files, versions: seq<Version>) {
    && (forall v <- versions :: v.fileId in files && Inserted(libs, files[v.fileId])
                                && v == VersionOf(libs, v.fileId, files[v.fileId]))
    && (forall i, j :: 0 <= i < j < |versions| ==> versions[i].fileId != versions[j].fileId)
    && (forall id :: id in files && Inserted(libs, files[id]) ==> VersionOf(libs, id, files[id]) in versions)
  }

  // ---------------------------------------------------------------- what the UPDATE achieves

  ghost predicate LowestOwner(libs: Libraries, files: Files, id: int, t: Target) {
    && id in files && Binding(libs, files[id]) == Some(t)
    && forall other :: other in files && Binding(libs, files[other]) == Some(t) ==> id <= other
  }

  /** Some file below `bound` that is bound to `t` has the lowest id of all. */
  lemma {:induction false} LowestOwnerExists(libs: Libraries, files: Files, candidates: set<int>, t: Target)
      returns (id: int)
    requires candidates == (set i | i in files && Binding(libs, files[i]) == Some(t)) && candidates != {}
    ensures LowestOwner(libs, files, id, t)
  {
    id := Minimum(candidates);
    forall other | other in files && Binding(libs, files[other]) == Some(t) ensures id <= other {
      assert other in candidates;
    }
  }

  lemma {:induction false} Minimum(s: set<int>) returns (m: int)
    requires s != {}
    ensures m in s && forall x :: x in s ==> m <= x
  {
    m := Element(s);
    assert s == {m} + (s - {m});
    if s != {m} {
      var m' := Minimum(s - {m});
      assert forall x :: x in s ==> x == m || x in s - {m};
      if m' < m { m := m'; }
    }
  }

  /** After the UPDATE a document is bound by exactly the file of lowest id that was bound to it before. */
  lemma {:induction false} OwnerIsLowest(libs: Libraries, files: Files, id: int, t: Target)
    ensures (id in files && Binding(libs, Quarantined(libs, files)[id]) == Some(t)) <==> LowestOwner(libs, files, id, t)
  {
    if id in files && Binding(libs, files[id]) == Some(t) {
      if Loser(libs, files, id) {
        var w :| w in files && Beats(libs, files, w, id);
      } else {
        forall other | other in files && Binding(libs, files[other]) == Some(t) ensures id <= other {
          assert !Beats(libs, files, other, id);
        }
      }
    }
  }

  /** (dataset, document) pairs are injective over the files. */
  lemma {:induction false} TargetsInjective(libs: Libraries, files: Files, a: int, b: int)
    requires a in files && b in files
    requires Binding(libs, Quarantined(libs, files)[a]).Some?
    requires Binding(libs, Quarantined(libs, files)[a]) == Binding(libs, Quarantined(libs, files)[b])
    ensures a == b
  {
    var t := Binding(libs, Quarantined(libs, files)[a]).value;
    OwnerIsLowest(libs, files, a, t);
    OwnerIsLowest(libs, files, b, t);
  }

  /** No document loses its binding. */
  lemma {:induction false} NoTargetLost(libs: Libraries, files: Files, id: int)
    requires id in files && Binding(libs, files[id]).Some?
    ensures exists owner :: owner in files && owner <= id && Quarantined(libs, files)[owner] == files[owner]
                            && Binding(libs, files[owner]) == Binding(libs, files[id])
  {
    var t := Binding(libs, files[id]).value;
    var candidates := set i | i in files && Binding(libs, files[i]) == Some(t);
    assert id in candidates;
    var owner := LowestOwnerExists(libs, files, candidates, t);
    OwnerIsLowest(libs, files, owner, t);
    assert !Loser(libs, files, owner);
  }

  /** A second run of the UPDATE changes nothing. */
  lemma {:induction false} UpdateIdempotent(libs: Libraries, files: Files)
    ensures Quarantined(libs, Quarantined(libs, files)) == Quarantined(libs, files)
  {
    var once := Quarantined(libs, files);
    forall id | id in once ensures !Loser(libs, once, id) {
      if Loser(libs, once, id) {
        var w :| w in once && Beats(libs, once, w, id);
        TargetsInjective(libs, files, w, id);
      }
    }
  }

  // ---------------------------------------------------------------- what the INSERT achieves

  /** The unique constraint holds on the versions exactly when no two bound and named files share a target. */
  lemma {:induction false} UniqueExactlyWhenInjective(libs: Libraries, files: Files, versions: seq<Version>)
    requires VersionsOf(libs, files, versions)
    ensures UniqueTargets(versions) <==>
            forall a, b :: a in files && b in files && a != b && Inserted(libs, files[a]) && Inserted(libs, files[b])
                           ==> Binding(libs, files[a]) != Binding(libs, files[b])
  {
    forall a, b | a in files && b in files && a != b && Inserted(libs, files[a]) && Inserted(libs, files[b])
                  && Binding(libs, files[a]) == Binding(libs, files[b])
      ensures !UniqueTargets(versions)
    {
      var va, vb := VersionOf(libs, a, files[a]), VersionOf(libs, b, files[b]);
      assert va in versions && vb in versions;
      var i :| 0 <= i < |versions| && versions[i] == va;
      var j :| 0 <= j < |versions| && versions[j] == vb;
      assert TargetOf(versions[i]) == TargetOf(versions[j]);
    }
    forall i, j | 0 <= i < j < |versions| && TargetOf(versions[i]) == TargetOf(versions[j])
      ensures exists a, b :: a in files && b in files && a != b && Inserted(libs, files[a]) && Inserted(libs, files[b])
                             && Binding(libs, files[a]) == Binding(libs, files[b])
    {
      assert versions[i] in versions && versions[j] in versions;
      assert Binding(libs, files[versions[i].fileId]) == Binding(libs, files[versions[j].fileId]);
    }
  }

  /** A document that was bound gets a version exactly when its lowest file carries a name: a named
      file of higher id does not help. */
  lemma {:induction false} VersionedExactlyWhenOwnerNamed(libs: Libraries, files: Files, versions: seq<Version>,
                                                          owner: int, t: Target)
    requires VersionsOf(libs, Quarantined(libs, files), versions) && LowestOwner(libs, files, owner, t)
    ensures (exists v <- versions :: TargetOf(v) == t) <==> Name(files[owner]).Some?
  {
    var after := Quarantined(libs, files);
    OwnerIsLowest(libs, files, owner, t);
    assert after[owner] == files[owner];
    if Name(files[owner]).Some? {
      var v := VersionOf(libs, owner, after[owner]);
      assert v in versions && TargetOf(v) == t;
    }
    forall v | v in versions && TargetOf(v) == t ensures v.fileId == owner {
      assert Binding(libs, after[v.fileId]) == Some(t);
      TargetsInjective(libs, files, v.fileId, owner);
    }
  }

  /** Such a document exists: bound by a nameless file and by a named one of higher id, it ends with no version. */
  lemma NamedLoserLeavesNoVersion(f: File, versions: seq<Version>)
    requires f.documentId.Some? && f.repoId == "r"
    requires var nameless := f.(documentName := None, ingestedName := None);
             var named := f.(documentName := Some("report.md"));
             var libs := map["r" := Some("ds")];
             VersionsOf(libs, Quarantined(libs, map[1 := nameless, 2 := named]), versions)
    ensures forall v <- versions :: TargetOf(v) != Target("ds", f.documentId.value)
  {
    var libs: Libraries := map["r" := Some("ds")];
    var nameless := f.(documentName := None, ingestedName := None);
    var files: Files := map[1 := nameless, 2 := f.(documentName := Some("report.md"))];
    assert LowestOwner(libs, files, 1, Target("ds", f.documentId.value));
    VersionedExactlyWhenOwnerNamed(libs, files, versions, 1, Target("ds", f.documentId.value));
  }

  // ---------------------------------------------------------------- column by column

  /** In SQL terms: the file joins its library, and neither the dataset nor the document is NULL. */
  ghost predicate BoundTo(libs: Libraries, f: File, datasetId: string, documentId: string) {
    f.documentId == Some(documentId) && f.repoId in libs && libs[f.repoId] == Some(datasetId)
  }

  ghost predicate SharesDocument(libs: Libraries, f: File, g: File) {
    exists datasetId, documentId :: BoundTo(libs, f, datasetId, documentId) && BoundTo(libs, g, datasetId, documentId)
  }

  /** A file that shares its document with one of lower id is unbound, nameless and marked for repair, with all
      else as it was; every other file is untouched. */
  ghost predicate Repaired(libs: Libraries, before: Files, after: Files) {
    && after.Keys == before.Keys
    && forall id :: id in before ==>
         var was, f := before[id], after[id];
         if exists lower :: lower in before && lower < id && SharesDocument(libs, was, before[lower]) then
           && f.documentId.None? && f.documentName.None? && f.ingestedName.None? && f.parseStatus.None?
           && f.syncStatus == "repair_required" && f.error == Some(QUARANTINE_ERROR)
           && f.repoId == was.repoId && f.path == was.path && f.mime == was.mime && f.retries == was.retries
           && f.sourceHash == was.sourceHash && f.ingestedHash == was.ingestedHash
           && f.createdAt == was.createdAt && f.updatedAt == was.updatedAt
         else
           f == was
  }

  /** A version repeats the columns of a file that is bound and named, the first name given counting. */
  ghost predicate Repeats(libs: Libraries, f: File, v: Version) {
    && BoundTo(libs, f, v.datasetId, v.documentId)
    && (if f.documentName.Some? then f.documentName == Some(v.documentName) else f.ingestedName == Some(v.documentName))
    && v.repoId == f.repoId && v.path == f.path && v.mime == f.mime && v.retries == f.retries && v.error == f.error
    && v.sourceHash == f.sourceHash && v.ingestedHash == f.ingestedHash && v.parseStatus == f.parseStatus
    && v.createdAt == f.createdAt && v.updatedAt == f.updatedAt && v.promotedAt == f.updatedAt
    && v.state == "current" && v.polls == 0
  }

  /** Each version repeats its file, and each bound and named file has one. */
  ghost predicate Versioned(libs: Libraries, files: Files, versions: seq<Version>) {
    && (forall v :: v in versions ==> v.fileId in files && Repeats(libs, files[v.fileId], v))
    && (forall i, j :: 0 <= i < j < |versions| ==> versions[i].fileId != versions[j].fileId)
    && forall id, datasetId, documentId ::
         id in files && BoundTo(libs, files[id], datasetId, documentId)
         && (files[id].documentName.Some? || files[id].ingestedName.Some?) ==>
           exists v :: v in versions && v.fileId == id
  }

  lemma SharesExactly(libs: Libraries, f: File, g: File)
    ensures SharesDocument(libs, f, g) <==> Binding(libs, f).Some? && Binding(libs, f) == Binding(libs, g)
  {
    if Binding(libs, f).Some? && Binding(libs, f) == Binding(libs, g) {
      var t := Binding(libs, f).value;
      assert BoundTo(libs, f, t.datasetId, t.documentId) && BoundTo(libs, g, t.datasetId, t.documentId);
    }
  }

  lemma QuarantineRepairs(libs: Libraries, files: Files)
    ensures Repaired(libs, files, Quarantined(libs, files))
  {
    hide SharesDocument, Binding;
    forall id | id in files
      ensures Loser(libs, files, id)
         <==> exists lower :: lower in files && lower < id && SharesDocument(libs, files[id], files[lower])
    {
      forall lower | lower in files && lower < id
        ensures Beats(libs, files, lower, id) <==> SharesDocument(libs, files[id], files[lower])
      {
        SharesExactly(libs, files[id], files[lower]);
      }
    }
  }

  lemma VersionsRepeat(libs: Libraries, files: Files, versions: seq<Version>)
    requires VersionsOf(libs, files, versions)
    ensures Versioned(libs, files, versions)
  {
    forall id, datasetId, documentId |
      id in files && BoundTo(libs, files[id], datasetId, documentId)
      && (files[id].documentName.Some? || files[id].ingestedName.Some?)
      ensures exists v :: v in versions && v.fileId == id
    {
      assert VersionOf(libs, id, files[id]) in versions;
    }
  }

  lemma InsertOne(libs: Libraries, met: Files, id: int, f: File, versions: seq<Version>)
    requires VersionsOf(libs, met, versions) && id !in met
    ensures VersionsOf(libs, met[id := f], if Inserted(libs, f) then versions + [VersionOf(libs, id, f)] else versions)
  {
    if Inserted(libs, f) {
      var v := VersionOf(libs, id, f);
      assert (versions + [v])[|versions|] == v;
    }
  }

  // ---------------------------------------------------------------- the database

  class Database {
    const libraries: Libraries
    var files: Files
    var versions: seq<Version>

    constructor (libraries: Libraries, files: Files)
      ensures this.libraries == libraries && this.files == files && versions == []
    {
      this.libraries, this.files, versions := libraries, files, [];
    }

    /** The UPDATE as one pass over the rows in any order: each target keeps the lowest owner met so far. */
    method QuarantineDuplicates()
      modifies this`files
      ensures files == Quarantined(libraries, old(files))
    {
      var pending := files.Keys;
      var owners: map<Target, int> := map[];
      while pending != {}
        invariant pending <= old(files).Keys && files.Keys == old(files).Keys
        invariant OwnersKnown(old(files), pending, owners)
        invariant files == SoFar(old(files), pending)
      {
        ghost var some := Element(pending);
        var id :| id in pending;
        var target := Binding(libraries, files[id]);
        PassStep(old(files), pending, owners, id);
        pending := pending - {id};
        if target.Some? {
          var t := target.value;
          if t !in owners {
            owners := owners[t := id];
          } else if owners[t] < id {
            files := files[id := Quarantine(files[id])];
          } else {
            var demoted := owners[t];
            files := files[demoted := Quarantine(files[demoted])];
            owners := owners[t := id];
          }
        }
      }
      forall id | id in files ensures DecidedLoser(old(files), {}, id) <==> Loser(libraries, old(files), id) { }
    }

    /** The INSERT .. SELECT, row by row in any order; it stops at the first row that breaks the unique constraint. */
    method InsertVersions() returns (ok: bool)
      requires versions == []
      modifies this`versions
      ensures ok ==> VersionsOf(libraries, files, versions) && UniqueTargets(versions)
      ensures !ok ==> exists a, b :: SameTarget(a, b) && Inserted(libraries, files[a]) && Inserted(libraries, files[b])
    {
      var pending := files.Keys;
      ok := true;
      while pending != {}
        invariant pending <= files.Keys
        invariant VersionsOf(libraries, files - pending, versions) && UniqueTargets(versions)
      {
        ghost var some := Element(pending);
        var id :| id in pending;
        InsertOne(libraries, files - pending, id, files[id], versions);
        assert files - (pending - {id}) == (files - pending)[id := files[id]];
        pending := pending - {id};
        if Inserted(libraries, files[id]) {
          var v := VersionOf(libraries, id, files[id]);
          if w :| w in versions && TargetOf(w) == TargetOf(v) {
            assert SameTarget(w.fileId, id);
            return false;
          }
          versions := versions + [v];
        }
      }
      assert files - {} == files;
    }

    ghost predicate SameTarget(a: int, b: int)
      reads this`files
    {
      a in files && b in files && a != b && Binding(libraries, files[a]).Some?
      && Binding(libraries, files[a]) == Binding(libraries, files[b])
    }

    /** Both statements of `upgrade`: whatever the legacy rows, the INSERT never violates the constraint. */
    method Upgrade() returns (ok: bool)
      requires versions == []
      modifies this`files, this`versions
      ensures ok && files == Quarantined(libraries, old(files))
      ensures VersionsOf(libraries, files, versions) && UniqueTargets(versions)
      ensures Repaired(libraries, old(files), files) && Versioned(libraries, files, versions)
    {
      QuarantineDuplicates();
      QuarantineRepairs(libraries, old(files));
      ok := InsertVersions();
      if ok { VersionsRepeat(libraries, files, versions); }
      if !ok {
        ghost var a, b :| SameTarget(a, b);
        TargetsInjective(libraries, old(files), a, b);
        assert false;
      }
    }

    /** `id`, already met, is bound to `t`. */
    ghost predicate BoundAmong(rows: Files, pending: set<int>, id: int, t: Target) {
      id in rows && id !in pending && Binding(libraries, rows[id]) == Some(t)
    }

    ghost predicate LowestAmong(rows: Files, pending: set<int>, id: int, t: Target) {
      BoundAmong(rows, pending, id, t) && forall other :: BoundAmong(rows, pending, other, t) ==> id <= other
    }

    /** `owners` holds, for exactly the targets met, the lowest file met. */
    ghost predicate OwnersKnown(rows: Files, pending: set<int>, owners: map<Target, int>) {
      && (forall t :: t in owners ==> LowestAmong(rows, pending, owners[t], t))
      && (forall id, t :: BoundAmong(rows, pending, id, t) ==> t in owners)
    }

    /** `id` and a file that beats it have both been met. */
    ghost predicate DecidedLoser(rows: Files, pending: set<int>, id: int)
      requires id in rows
    {
      id !in pending && exists w :: w in rows && w !in pending && Beats(libraries, rows, w, id)
    }

    ghost function SoFar(rows: Files, pending: set<int>): Files {
      map id | id in rows :: if DecidedLoser(rows, pending, id) then Quarantine(rows[id]) else rows[id]
    }

    /** The file that meeting `id` turns out to lose its binding: `id` itself, or the owner it is lower than. */
    function Demoted(rows: Files, owners: map<Target, int>, id: int): Option<int>
      requires id in rows
    {
      var b := Binding(libraries, rows[id]);
      if b.Some? && b.value in owners then Some(if owners[b.value] < id then id else owners[b.value]) else None
    }

    /** Meeting one more file decides at most one more loser. */
    lemma PassStep(rows: Files, pending: set<int>, owners: map<Target, int>, id: int)
      requires id in pending && pending <= rows.Keys && OwnersKnown(rows, pending, owners)
      ensures SoFar(rows, pending)[id] == rows[id]
      ensures SoFar(rows, pending - {id})
           == match Demoted(rows, owners, id)
              case None => SoFar(rows, pending)
              case Some(d) => SoFar(rows, pending)[d := Quarantine(rows[d])]
      ensures Demoted(rows, owners, id).Some? ==> SoFar(rows, pending)[Demoted(rows, owners, id).value]
                                                  == rows[Demoted(rows, owners, id).value]
      ensures var b := Binding(libraries, rows[id]);
              OwnersKnown(rows, pending - {id},
                          if b.None? || Demoted(rows, owners, id) == Some(id) then owners else owners[b.value := id])
    {
      var next := pending - {id};
      var b := Binding(libraries, rows[id]);
      forall other, t | BoundAmong(rows, next, other, t) && other != id ensures BoundAmong(rows, pending, other, t) { }
      if b.Some? {
        assert BoundAmong(rows, next, id, b.value);
        if b.value in owners { OwnerUnbeaten(rows, pending, owners, b.value); }
      }
      forall other | other in rows
        ensures DecidedLoser(rows, next, other)
           <==> DecidedLoser(rows, pending, other) || Demoted(rows, owners, id) == Some(other)
      {
        if b.Some? && b.value in owners { DemotedLoses(rows, pending, owners, id); }
        if DecidedLoser(rows, next, other) && !DecidedLoser(rows, pending, other) {
          OnlyDemotedLoses(rows, pending, owners, id, other);
        }
      }
    }

    lemma OwnerUnbeaten(rows: Files, pending: set<int>, owners: map<Target, int>, t: Target)
      requires OwnersKnown(rows, pending, owners) && t in owners
      ensures owners[t] in rows && !DecidedLoser(rows, pending, owners[t])
    {
      assert LowestAmong(rows, pending, owners[t], t);
      forall w | w in rows && w !in pending ensures !Beats(libraries, rows, w, owners[t]) {
        assert BoundAmong(rows, pending, w, t) ==> owners[t] <= w;
      }
    }

    lemma DemotedLoses(rows: Files, pending: set<int>, owners: map<Target, int>, id: int)
      requires id in pending && pending <= rows.Keys && OwnersKnown(rows, pending, owners)
      requires Demoted(rows, owners, id).Some?
      ensures DecidedLoser(rows, pending - {id}, Demoted(rows, owners, id).value)
    {
      var t := Binding(libraries, rows[id]).value;
      assert LowestAmong(rows, pending, owners[t], t);
      if owners[t] < id {
        assert Beats(libraries, rows, owners[t], id);
      } else {
        assert Beats(libraries, rows, id, owners[t]);
      }
    }

    lemma OnlyDemotedLoses(rows: Files, pending: set<int>, owners: map<Target, int>, id: int, other: int)
      requires id in pending && pending <= rows.Keys && OwnersKnown(rows, pending, owners) && other in rows
      requires DecidedLoser(rows, pending - {id}, other) && !DecidedLoser(rows, pending, other)
      ensures Demoted(rows, owners, id) == Some(other)
    {
      var w :| w in rows && w !in pending - {id} && Beats(libraries, rows, w, other);
      var t := Binding(libraries, rows[other]).value;
      if other == id {
        assert BoundAmong(rows, pending, w, t);
        assert LowestAmong(rows, pending, owners[t], t);
      } else {
        assert w == id;
        assert BoundAmong(rows, pending, other, t);
        assert LowestAmong(rows, pending, owners[t], t);
        assert !Beats(libraries, rows, owners[t], other);
      }
    }
  }
}
