/** The xPro renaming script: select the users whose usernames look auto-generated, rename each
    with the bounded retry, and sort the outcomes into `updated` and `failed`. */
module XproUpdate {
  import opened Py
  import opened XproUsers
  import Seqs
  import StepRecords
  import UpdateLib

  /** `AUTOGEN_USERNAME_LENGTH`: the length of a ULID. */
  const AutogenUsernameLength: nat := 26

  predicate IsUpperAlnum(ch: char) {
    'A' <= ch <= 'Z' || '0' <= ch <= '9'
  }

  /** The query filter: length 26 and matching `^[A-Z0-9]+$`. */
  predicate IsUlidUsername(s: string) {
    |s| == AutogenUsernameLength && forall k :: 0 <= k < |s| ==> IsUpperAlnum(s[k])
  }

  predicate HasUlidUsername(u: User) {
    IsUlidUsername(u.username)
  }

  /** `ulid_username_user_qset()`: the users with auto-generated usernames, in table order. */
  function UlidUsernameUsers(users: seq<User>): (r: seq<User>)
    ensures forall u :: u in r <==> u in users && IsUlidUsername(u.username)
  {
    Seqs.FilterMembersAll(users, HasUlidUsername);
    Seqs.Filter(users, HasUlidUsername)
  }

  /** `SuccessfulChange` and `FailedChange`, the two records the generator yields. */
  datatype Change =
    | SuccessfulChange(oldUsername: string, newUsername: string)
    | FailedChange(username: string, newUsername: string, failure: string)

  function OutOfAttemptsMessage(initial: string): string {
    "Ran out of attempts for finding and saving username (" + initial + ")"
  }

  /** The record a finished retry loop yields. */
  function ChangeOf(oldUsername: string, initial: string, ending: Ending): Change {
    match ending
    case SavedAs(c) => SuccessfulChange(oldUsername, c)
    case StoppedAt(c, m) => FailedChange(oldUsername, c, m)
    case Exhausted => FailedChange(oldUsername, initial, OutOfAttemptsMessage(initial))
  }

  /** The body of `updated_username_gen` for one user: the `while` loop over the `saved`,
      `failed` and `attempts` flags, and everything it yields. `username` is the in-memory
      `user.username`, which each save attempt writes. */
  method UpdatedUsername(oldUsername: string, initial: string, save: SaveOracle, find: FindOracle)
    returns (yielded: seq<Change>, attempts: nat)
    ensures var r := RetryOutcome(initial, save, find);
      yielded == [ChangeOf(oldUsername, initial, r.ending)] && attempts == r.attempts
  {
    var username := initial;
    var saved, failed := false, false;
    attempts := 0;
    yielded := [];
    while !saved && !failed && attempts < UsernameRetryAttempts
      invariant attempts <= UsernameRetryAttempts
      invariant !(saved && failed)
      invariant saved || failed ==> attempts >= 1
      invariant DuplicatesBefore(initial, save, find, if saved || failed then attempts - 1 else attempts)
      invariant !saved && !failed ==> username == Candidate(initial, find, attempts) && yielded == []
      invariant saved ==>
        username == Candidate(initial, find, attempts - 1) && save(attempts - 1, username) == Saved
        && yielded == []
      invariant failed ==>
        var c := Candidate(initial, find, attempts - 1);
        save(attempts - 1, c).IntegrityFailure?
        && yielded == [FailedChange(oldUsername, c, save(attempts - 1, c).message)]
    {
      match save(attempts, username) {
        case Saved =>
          saved := true;
        case DuplicateUsername(_) =>
          username := find(initial, attempts);
        case IntegrityFailure(message) =>
          failed := true;
          yielded := yielded + [FailedChange(oldUsername, username, message)];
          username := find(initial, attempts);
      }
      attempts := attempts + 1;
    }
    if saved {
      yielded := yielded + [SuccessfulChange(oldUsername, username)];
    } else if !failed {
      yielded := yielded + [FailedChange(oldUsername, initial, OutOfAttemptsMessage(initial))];
    }
    FirstDecisiveUnique(initial, save, find, 0, if saved || failed then attempts - 1 else attempts);
  }

  /** The record the generator yields for the selected user at position `pos`. */
  function ChangeAt(db: Db, selected: seq<User>, pos: nat): Change
    requires pos < |selected|
  {
    var initial := InitialUsername(db, selected[pos]);
    ChangeOf(selected[pos].username, initial, RetryOutcome(initial, SaveAt(db, pos), FindAt(db, pos)).ending)
  }

  /** Everything `updated_username_gen()` yields, in order. */
  function Changes(db: Db): (r: seq<Change>)
    ensures |r| == |UlidUsernameUsers(db.users)|
  {
    var selected := UlidUsernameUsers(db.users);
    seq(|selected|, pos requires 0 <= pos < |selected| => ChangeAt(db, selected, pos))
  }

  /** `updated_username_gen()`: one retry loop per selected user, in query order. */
  method UpdatedUsernameGen(db: Db) returns (changes: seq<Change>)
    ensures changes == Changes(db)
  {
    var selected := UlidUsernameUsers(db.users);
    changes := [];
    for pos := 0 to |selected|
      invariant changes == Changes(db)[..pos]
    {
      var user := selected[pos];
      var initial := InitialUsername(db, user);
      var yielded, _ := UpdatedUsername(user.username, initial, SaveAt(db, pos), FindAt(db, pos));
      changes := changes + yielded;
    }
  }

  predicate IsSuccessful(c: Change) {
    c.SuccessfulChange?
  }

  predicate IsFailed(c: Change) {
    c.FailedChange?
  }

  /** `XproUpdater.perform_username_updates`: successes to `updated`, everything else to
      `failed`, both in generator order. */
  method PerformUsernameUpdates(db: Db) returns (updated: seq<Change>, failed: seq<Change>)
    ensures updated == Seqs.Filter(Changes(db), IsSuccessful)
    ensures failed == Seqs.Filter(Changes(db), IsFailed)
  {
    var changes := UpdatedUsernameGen(db);
    updated, failed := [], [];
    for i := 0 to |changes|
      invariant updated == Seqs.Filter(changes[..i], IsSuccessful)
      invariant failed == Seqs.Filter(changes[..i], IsFailed)
    {
      assert changes[..i + 1] == changes[..i] + [changes[i]];
      Seqs.FilterAppend(changes[..i], changes[i], IsSuccessful);
      Seqs.FilterAppend(changes[..i], changes[i], IsFailed);
      if changes[i].SuccessfulChange? {
        updated := updated + [changes[i]];
      } else {
        failed := failed + [changes[i]];
      }
    }
    assert changes[..|changes|] == changes;
  }

  /** Every selected user yields exactly one record, and it lands in exactly one of the two lists. */
  lemma UpdatesPartition(db: Db)
    ensures multiset(Seqs.Filter(Changes(db), IsSuccessful)) + multiset(Seqs.Filter(Changes(db), IsFailed))
      == multiset(Changes(db))
    ensures |Seqs.Filter(Changes(db), IsSuccessful)| + |Seqs.Filter(Changes(db), IsFailed)|
      == |UlidUsernameUsers(db.users)|
  {
    ChangesPartition(Changes(db));
  }

  /** Every change is either successful or failed. */
  lemma ChangesPartition(cs: seq<Change>)
    ensures multiset(Seqs.Filter(cs, IsSuccessful)) + multiset(Seqs.Filter(cs, IsFailed)) == multiset(cs)
    ensures |Seqs.Filter(cs, IsSuccessful)| + |Seqs.Filter(cs, IsFailed)| == |cs|
  {
    assert forall k :: 0 <= k < |cs| ==> Seqs.ExactlyOne(cs[k], IsSuccessful, IsFailed, Seqs.Never);
    Seqs.FilterPartition3(cs, IsSuccessful, IsFailed, Seqs.Never);
    Seqs.FilterPartition3Size(cs, IsSuccessful, IsFailed, Seqs.Never);
    assert Seqs.Filter(cs, Seqs.Never) == [] by {
      Seqs.FilterNever(cs);
    }
  }

  /** The two lists together are as long as the changes. */
  lemma ChangesSplit(cs: seq<Change>)
    ensures |Seqs.Filter(cs, IsSuccessful)| + |Seqs.Filter(cs, IsFailed)| == |cs|
  {
    ChangesPartition(cs);
  }

  /** What each user's record says: it names the user's old username; a success carries the
      generated username or a suggestion derived from it; a non-duplicate error records the
      username being tried and its message; running out of attempts records the generated
      username after ten duplicate-username failures. */
  lemma ChangeAtFacts(db: Db, pos: nat)
    requires pos < |UlidUsernameUsers(db.users)|
    ensures var selected := UlidUsernameUsers(db.users);
      var initial := InitialUsername(db, selected[pos]);
      var save, find := SaveAt(db, pos), FindAt(db, pos);
      var c := ChangeAt(db, selected, pos);
      && (c.SuccessfulChange? ==>
            c.oldUsername == selected[pos].username
            && (c.newUsername == initial
                || exists call :: 0 <= call < UsernameRetryAttempts - 1
                     && c.newUsername == db.findAvailable(pos, initial, call)))
      && (c.FailedChange? ==> c.username == selected[pos].username)
      && (DuplicatesBefore(initial, save, find, UsernameRetryAttempts) ==>
            c.FailedChange? && c.failure == OutOfAttemptsMessage(initial) && c.newUsername == initial)
      && (c.FailedChange? && !DuplicatesBefore(initial, save, find, UsernameRetryAttempts) ==>
            exists k :: 0 <= k < UsernameRetryAttempts && DuplicatesBefore(initial, save, find, k)
              && c.newUsername == Candidate(initial, find, k)
              && save(k, c.newUsername) == IntegrityFailure(c.failure))
  {
    var selected := UlidUsernameUsers(db.users);
    var initial := InitialUsername(db, selected[pos]);
    var save, find := SaveAt(db, pos), FindAt(db, pos);
    SavedNameDerivesFromInitial(initial, save, find);
    ExhaustedExactly(initial, save, find);
    var k := FirstDecisive(initial, save, find, 0);
    if k > 0 {
      assert Candidate(initial, find, k) == find(initial, k - 1);
    }
  }

  /** `namedtuple_to_dict`. A successful change becomes a record the later steps can read; a
      failed one has no `old_username` and so is not such a record. */
  function ChangeToJson(c: Change): (r: Json)
    ensures r.JObject?
    ensures c.SuccessfulChange? ==>
      && r.fields.Keys == {"old_username", "new_username"}
      && StepRecords.Names(r) == Ok(StepRecords.Rename(JString(c.oldUsername), JString(c.newUsername)))
    ensures c.FailedChange? ==>
      && r.fields.Keys == {"username", "new_username", "failure"}
      && r.fields["username"] == JString(c.username) && r.fields["new_username"] == JString(c.newUsername)
      && r.fields["failure"] == JString(c.failure)
      && StepRecords.Names(r).Err?
  {
    match c
    case SuccessfulChange(o, n) =>
      JObject(map["old_username" := JString(o), "new_username" := JString(n)])
    case FailedChange(u, n, f) =>
      JObject(map["username" := JString(u), "new_username" := JString(n), "failure" := JString(f)])
  }

  /** The dictionary `perform_username_updates` returns: the two lists hold one entry per
      selected user, and every `updated` entry is a record the next step can read. */
  function StepResult(db: Db): (r: UpdateLib.StepDict)
    ensures r.Keys == {"updated", "failed"}
    ensures r["updated"].JArray? && r["failed"].JArray?
    ensures |r["updated"].items| + |r["failed"].items| == |UlidUsernameUsers(db.users)|
    ensures forall x :: x in r["updated"].items ==> StepRecords.Names(x).Ok?
    ensures forall x :: x in r["failed"].items ==> StepRecords.Names(x).Err?
  {
    ChangeLists(Changes(db))
  }

  /** The two lists of a run whose generator yielded `changes`. */
  function ChangeLists(changes: seq<Change>): (r: UpdateLib.StepDict)
    ensures r.Keys == {"updated", "failed"}
    ensures r["updated"].JArray? && r["failed"].JArray?
    ensures |r["updated"].items| + |r["failed"].items| == |changes|
    ensures forall x :: x in r["updated"].items ==> StepRecords.Names(x).Ok?
    ensures forall x :: x in r["failed"].items ==> StepRecords.Names(x).Err?
  {
    ChangesSplit(changes);
    EntriesReadable(changes);
    var updated := Seqs.Map(Seqs.Filter(changes, IsSuccessful), ChangeToJson);
    var failed := Seqs.Map(Seqs.Filter(changes, IsFailed), ChangeToJson);
    var r: UpdateLib.StepDict := map["updated" := JArray(updated), "failed" := JArray(failed)];
    assert r["updated"].items == updated && r["failed"].items == failed;
    r
  }

  /** The successful changes become readable records and the failed ones do not. */
  lemma EntriesReadable(changes: seq<Change>)
    ensures forall x :: x in Seqs.Map(Seqs.Filter(changes, IsSuccessful), ChangeToJson) ==> StepRecords.Names(x).Ok?
    ensures forall x :: x in Seqs.Map(Seqs.Filter(changes, IsFailed), ChangeToJson) ==> StepRecords.Names(x).Err?
  {
    Seqs.FilterMembersAll(changes, IsSuccessful);
    Seqs.FilterMembersAll(changes, IsFailed);
  }

  /** The script as a whole: it reads no previous result, so its dictionary is its run date and
      its two lists. */
  lemma ScriptRun(config: UpdateLib.Config, env: map<string, string>, files: map<string, string>,
                  loads: string -> Option<Json>, runDate: string, stamp: string, db: Db)
    ensures UpdateLib.HandleResults(UpdateLib.XproSettings(), config, env, files, loads, runDate, stamp,
                                    (updateList: Json) => Ok(StepResult(db)))
      == Ok(UpdateLib.Run(UpdateLib.WriteResultFile(UpdateLib.XproSettings(), config, stamp),
                          map["run_date" := JString(runDate)] + StepResult(db)))
  {
  }
}
