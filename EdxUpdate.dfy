/** The edX step: for each record `{"old_username", "new_username", ...}` of the previous step's
    `updated` list, validate the new name, rename the matching users and, when some user was
    renamed, the social-auth uids, all in one transaction; then file the record under
    `updated`, `not_found` or `failed`.

    The database and `validate_username` are oracles indexed by the record's position. */
module EdxUpdate {
  import opened Py
  import opened StepRecords
  import Seqs
  import UpdateLib

  /** `validate(i)` is `Some(message)` when `validate_username` rejects record `i`'s new name;
      `updateUsers(i)` is the number of users the rename of record `i` matches; `updateUids(i)`
      is `Some(message)` when renaming the social-auth uids raises. */
  datatype EdxDb = EdxDb(
    validate: nat -> Option<string>,
    updateUsers: nat -> Call<nat>,
    updateUids: nat -> Option<string>)

  /** A committed write on the edX database. */
  datatype Write = UsersRenamed(oldUsername: Json, newUsername: Json) | UidsRenamed(oldUsername: Json, newUsername: Json)

  /** Where a record is filed: the input record itself for `updated` and `not_found`, and a new
      record with the exception for `failed`. */
  datatype Decision =
    | Updated(record: Json)
    | NotFound(record: Json)
    | Failed(oldUsername: Json, newUsername: Json, exception: string)

  /** How record `i` is filed. */
  function DecisionAt(db: EdxDb, record: Json, i: nat): Decision
    requires Names(record).Ok?
  {
    var oldName, newName := Names(record).value.oldUsername, Names(record).value.newUsername;
    match db.validate(i)
    case Some(message) => Failed(oldName, newName, message)
    case None =>
      match db.updateUsers(i)
      case Threw(message) => Failed(oldName, newName, message)
      case Returned(count) =>
        if count == 0 then NotFound(record)
        else if db.updateUids(i).Some? then Failed(oldName, newName, db.updateUids(i).value)
        else Updated(record)
  }

  /** What the transaction for record `i` leaves committed: both renames when users matched and
      nothing raised, else nothing (a raise rolls the transaction back). */
  function WritesAt(db: EdxDb, record: Json, i: nat): seq<Write>
    requires Names(record).Ok?
  {
    var oldName, newName := Names(record).value.oldUsername, Names(record).value.newUsername;
    if db.validate(i).None? && db.updateUsers(i).Returned? && db.updateUsers(i).value > 0
       && db.updateUids(i).None?
    then [UsersRenamed(oldName, newName), UidsRenamed(oldName, newName)]
    else []
  }

  function Decisions(db: EdxDb, records: seq<Json>, n: nat): (r: seq<Decision>)
    requires n <= |records|
    requires forall j :: 0 <= j < n ==> Names(records[j]).Ok?
    ensures |r| == n
  {
    seq(n, i requires 0 <= i < n => DecisionAt(db, records[i], i))
  }

  /** The writes committed by the first `n` records, in order. */
  function WritesBefore(db: EdxDb, records: seq<Json>, n: nat): seq<Write>
    requires n <= |records|
    requires forall j :: 0 <= j < n ==> Names(records[j]).Ok?
  {
    if n == 0 then [] else WritesBefore(db, records, n - 1) + WritesAt(db, records[n - 1], n - 1)
  }

  predicate IsUpdated(d: Decision) {
    d.Updated?
  }

  predicate IsFailed(d: Decision) {
    d.Failed?
  }

  predicate IsNotFound(d: Decision) {
    d.NotFound?
  }

  datatype Buckets = Buckets(updated: seq<Decision>, failed: seq<Decision>, notFound: seq<Decision>)

  function BucketsOf(ds: seq<Decision>): Buckets {
    Buckets(Seqs.Filter(ds, IsUpdated), Seqs.Filter(ds, IsFailed), Seqs.Filter(ds, IsNotFound))
  }

  /** The lists after filing `d`. */
  function Place(b: Buckets, d: Decision): Buckets {
    match d
    case Updated(_) => b.(updated := b.updated + [d])
    case Failed(_, _, _) => b.(failed := b.failed + [d])
    case NotFound(_) => b.(notFound := b.notFound + [d])
  }

  lemma BucketsOfAppend(ds: seq<Decision>, d: Decision)
    ensures BucketsOf(ds + [d]) == Place(BucketsOf(ds), d)
  {
    Seqs.FilterAppend(ds, d, IsUpdated);
    Seqs.FilterAppend(ds, d, IsFailed);
    Seqs.FilterAppend(ds, d, IsNotFound);
  }

  /** The outcome of the step: the three lists, or the exception that aborts it at the first
      unreadable record. */
  function StepOutcome(db: EdxDb, updateList: Json): Result<Buckets> {
    var records :- Records(updateList);
    var k := FirstUnreadable(records);
    if k < |records| then Err(Names(records[k]).error)
    else Ok(BucketsOf(Decisions(db, records, |records|)))
  }

  /** The writes committed before the step ends, normally or by an exception. */
  function StepWrites(db: EdxDb, updateList: Json): seq<Write> {
    match Records(updateList)
    case Err(_) => []
    case Ok(records) => WritesBefore(db, records, FirstUnreadable(records))
  }

  /** Filing record `i` places its decision and appends the writes it commits. */
  lemma RecordStep(db: EdxDb, records: seq<Json>, i: nat)
    requires i < |records|
    requires forall j :: 0 <= j <= i ==> Names(records[j]).Ok?
    ensures BucketsOf(Decisions(db, records, i + 1))
      == Place(BucketsOf(Decisions(db, records, i)), DecisionAt(db, records[i], i))
    ensures WritesBefore(db, records, i + 1) == WritesBefore(db, records, i) + WritesAt(db, records[i], i)
  {
    var ds := Decisions(db, records, i);
    assert Decisions(db, records, i + 1) == ds + [DecisionAt(db, records[i], i)];
    BucketsOfAppend(ds, DecisionAt(db, records[i], i));
  }

  /** The `try` for record `i`: validation, then the renames in one transaction, then the
      choice of list. */
  method UpdateRecord(db: EdxDb, record: Json, i: nat) returns (d: Decision, committed: seq<Write>)
    requires Names(record).Ok?
    ensures d == DecisionAt(db, record, i) && committed == WritesAt(db, record, i)
  {
    var oldName, newName := Names(record).value.oldUsername, Names(record).value.newUsername;
    committed := [];
    match db.validate(i) {
      case Some(message) =>
        d := Failed(oldName, newName, message);
      case None =>
        match db.updateUsers(i) {
          case Threw(message) =>
            d := Failed(oldName, newName, message);
          case Returned(updateCount) =>
            var uidFailure: Option<string> := None;
            if updateCount > 0 {
              uidFailure := db.updateUids(i);
            }
            if uidFailure.Some? {
              d := Failed(oldName, newName, uidFailure.value);
            } else if updateCount == 0 {
              d := NotFound(record);
            } else {
              committed := [UsersRenamed(oldName, newName), UidsRenamed(oldName, newName)];
              d := Updated(record);
            }
        }
    }
  }

  /** `EdxUsernameUpdater.perform_username_updates`, with the writes the database commits. */
  method PerformUsernameUpdates(db: EdxDb, updateList: Json) returns (r: Result<Buckets>, writes: seq<Write>)
    ensures r == StepOutcome(db, updateList)
    ensures writes == StepWrites(db, updateList)
  {
    writes := [];
    var recordsOrError := Records(updateList);
    if recordsOrError.Err? {
      return Err(recordsOrError.error), writes;
    }
    var records := recordsOrError.value;
    ghost var k := FirstUnreadable(records);
    var b := Buckets([], [], []);
    for i := 0 to |records|
      invariant i <= k
      invariant forall j :: 0 <= j < i ==> Names(records[j]).Ok?
      invariant b == BucketsOf(Decisions(db, records, i))
      invariant writes == WritesBefore(db, records, i)
    {
      var names := Names(records[i]);
      if names.Err? {
        FirstUnreadableIs(records, i);
        return Err(names.error), writes;
      }
      assert i < k;
      RecordStep(db, records, i);
      var d, committed := UpdateRecord(db, records[i], i);
      b := Place(b, d);
      writes := writes + committed;
    }
    FirstUnreadableIs(records, |records|);
    return Ok(b), writes;
  }

  /** Every record lands in exactly one of the three lists; their sizes add up to the number of
      records. */
  lemma DecisionsPartition(db: EdxDb, records: seq<Json>)
    requires forall j :: 0 <= j < |records| ==> Names(records[j]).Ok?
    ensures var ds := Decisions(db, records, |records|);
      var b := BucketsOf(ds);
      && multiset(b.updated) + multiset(b.failed) + multiset(b.notFound) == multiset(ds)
      && |b.updated| + |b.failed| + |b.notFound| == |records|
  {
    var ds := Decisions(db, records, |records|);
    assert forall k :: 0 <= k < |ds| ==> Seqs.ExactlyOne(ds[k], IsUpdated, IsFailed, IsNotFound);
    Seqs.FilterPartition3(ds, IsUpdated, IsFailed, IsNotFound);
    Seqs.FilterPartition3Size(ds, IsUpdated, IsFailed, IsNotFound);
  }

  /** The `updated` and `not_found` lists hold input records unchanged. */
  lemma FiledRecordsAreInputs(db: EdxDb, records: seq<Json>)
    requires forall j :: 0 <= j < |records| ==> Names(records[j]).Ok?
    ensures var b := BucketsOf(Decisions(db, records, |records|));
      && (forall d :: d in b.updated ==> d.Updated? && d.record in records)
      && (forall d :: d in b.notFound ==> d.NotFound? && d.record in records)
  {
    var ds := Decisions(db, records, |records|);
    Seqs.FilterMembersAll(ds, IsUpdated);
    Seqs.FilterMembersAll(ds, IsNotFound);
    forall d | d in ds && (d.Updated? || d.NotFound?) ensures d.record in records {
      var i :| 0 <= i < |ds| && ds[i] == d;
      assert d.record == records[i];
    }
  }

  /** A record is `not_found` exactly when its new name validates and the rename matches no
      user; it is `updated` exactly when the rename matches some user and the uid rename does not
      raise; a failed validation files it under `failed` with the validation message. */
  lemma DecisionCases(db: EdxDb, record: Json, i: nat)
    requires Names(record).Ok?
    ensures DecisionAt(db, record, i) == NotFound(record)
        <==> db.validate(i).None? && db.updateUsers(i) == Returned(0)
    ensures DecisionAt(db, record, i) == Updated(record)
        <==> db.validate(i).None? && db.updateUsers(i).Returned? && db.updateUsers(i).value > 0
             && db.updateUids(i).None?
    ensures db.validate(i).Some? ==>
        DecisionAt(db, record, i)
          == Failed(record.fields["old_username"], record.fields["new_username"], db.validate(i).value)
  {
  }

  /** The uids are renamed only after some user was renamed, and a record that is not `updated`
      leaves nothing committed. */
  lemma WritesFollowDecision(db: EdxDb, record: Json, i: nat)
    requires Names(record).Ok?
    ensures UidsRenamed(record.fields["old_username"], record.fields["new_username"]) in WritesAt(db, record, i)
        ==> db.updateUsers(i).Returned? && db.updateUsers(i).value > 0 && db.validate(i).None?
    ensures WritesAt(db, record, i) != [] <==> DecisionAt(db, record, i).Updated?
  {
  }

  /** An `updated` or `not_found` entry is the input record itself; a `failed` entry is a new
      record with the two names and the exception. */
  function DecisionToJson(d: Decision): (r: Json)
    ensures d.Updated? || d.NotFound? ==> r == d.record
    ensures d.Failed? ==>
      && r.JObject? && r.fields.Keys == {"old_username", "new_username", "exception"}
      && Names(r) == Ok(Rename(d.oldUsername, d.newUsername))
      && r.fields["exception"] == JString(d.exception)
  {
    match d
    case Failed(o, n, x) => JObject(map["old_username" := o, "new_username" := n, "exception" := JString(x)])
    case Updated(rec) => rec
    case NotFound(rec) => rec
  }

  /** The dictionary `perform_username_updates` returns, or the exception it raises: it fails
      exactly when the step's outcome does, and otherwise holds the three lists, one entry per
      input record, the `updated` and `not_found` entries being input records. */
  function StepResult(db: EdxDb, updateList: Json): (r: Result<UpdateLib.StepDict>)
    ensures var outcome := StepOutcome(db, updateList);
      && (r.Ok? <==> outcome.Ok?)
      && (r.Err? ==> r.error == outcome.error)
    ensures r.Ok? ==>
      && Records(updateList).Ok?
      && r.value.Keys == {"updated", "failed", "not_found"}
      && r.value["updated"].JArray? && r.value["failed"].JArray? && r.value["not_found"].JArray?
      && |r.value["updated"].items| + |r.value["failed"].items| + |r.value["not_found"].items|
         == |Records(updateList).value|
      && (forall x :: x in r.value["updated"].items ==> x in Records(updateList).value)
      && (forall x :: x in r.value["not_found"].items ==> x in Records(updateList).value)
  {
    var b :- StepOutcome(db, updateList);
    var records := Records(updateList).value;
    DecisionsCount(db, records);
    FiledEntriesAreInputs(db, records);
    var updated, failed, notFound :=
      Seqs.Map(b.updated, DecisionToJson), Seqs.Map(b.failed, DecisionToJson), Seqs.Map(b.notFound, DecisionToJson);
    var d: UpdateLib.StepDict := map["updated" := JArray(updated), "failed" := JArray(failed), "not_found" := JArray(notFound)];
    assert d["updated"].items == updated && d["failed"].items == failed && d["not_found"].items == notFound;
    Ok(d)
  }

  /** The three lists together are as long as the records. */
  lemma DecisionsCount(db: EdxDb, records: seq<Json>)
    requires forall j :: 0 <= j < |records| ==> Names(records[j]).Ok?
    ensures var b := BucketsOf(Decisions(db, records, |records|));
      |b.updated| + |b.failed| + |b.notFound| == |records|
  {
    DecisionsPartition(db, records);
  }

  /** The `updated` and `not_found` entries of the dictionary are input records. */
  lemma FiledEntriesAreInputs(db: EdxDb, records: seq<Json>)
    requires forall j :: 0 <= j < |records| ==> Names(records[j]).Ok?
    ensures var b := BucketsOf(Decisions(db, records, |records|));
      && (forall x :: x in Seqs.Map(b.updated, DecisionToJson) ==> x in records)
      && (forall x :: x in Seqs.Map(b.notFound, DecisionToJson) ==> x in records)
  {
    FiledRecordsAreInputs(db, records);
  }
}
