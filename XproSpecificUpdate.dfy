/** The xPro script that regenerates the usernames of users named in the
    `USERNAMES_TO_REGENERATE` setting: users whose generated username equals their current one
    are ignored, the others go through the bounded retry and land in `updated` or `failed`. */
module XproSpecificUpdate {
  import opened Py
  import opened XproUsers
  import Seqs
  import Strings
  import UpdateLib

  /** The names the setting asks for (`USERNAMES_TO_REGENERATE.split(",")`). */
  function RequestedUsernames(setting: string): seq<string> {
    Strings.Split(setting, ',')
  }

  function UsernamesOf(users: seq<User>): set<string> {
    set u | u in users :: u.username
  }

  /** The rows of `User.objects.filter(username__in=usernames)`, in table order. */
  function MatchingUsers(users: seq<User>, usernames: seq<string>): seq<User> {
    Seqs.Filter(users, (u: User) => u.username in usernames)
  }

  /** The requested names no user has. */
  function MissingUsernames(usernames: seq<string>, users: seq<User>): set<string> {
    (set n | n in usernames) - UsernamesOf(users)
  }

  /** `get_users_with_specified_usernames` as written: it raises when the number of rows found
      differs from the number of names in the setting. */
  function UsersWithSpecifiedUsernamesAsWritten(setting: string, users: seq<User>): (r: Result<seq<User>>)
    ensures setting == "" ==> r == Err(ImproperlyConfigured(UsernamesNotSet))
    ensures setting != "" && r.Err? ==>
      var usernames := RequestedUsernames(setting);
      r.error == ImproperlyConfigured(UsersNotFound(
        (set n | n in usernames) - UsernamesOf(MatchingUsers(users, usernames))))
    ensures setting != "" && Seqs.DistinctBy(users, Username) ==>
      var usernames := RequestedUsernames(setting);
      r.Err? <==> MissingUsernames(usernames, users) != {} || !Seqs.DistinctBy(usernames, Name)
    ensures r.Ok? ==> r.value == MatchingUsers(users, RequestedUsernames(setting))
  {
    if setting == "" then Err(ImproperlyConfigured(UsernamesNotSet))
    else
      var usernames := RequestedUsernames(setting);
      var found := MatchingUsers(users, usernames);
      CountMismatchExactly(usernames, users);
      if |found| != |usernames| then
        Err(ImproperlyConfigured(UsersNotFound((set n | n in usernames) - UsernamesOf(found))))
      else Ok(found)
  }

  /** A repeated name in the setting makes the check raise although every requested user
      exists, and the error lists no missing name. */
  lemma RepeatedNameRaisesWithNothingMissing(u: User)
    requires u.username != "" && ',' !in u.username
    ensures UsersWithSpecifiedUsernamesAsWritten(u.username + [','] + u.username, [u])
      == Err(ImproperlyConfigured(UsersNotFound({})))
  {
    var usernames := RequestedUsernames(u.username + [','] + u.username);
    SplitTwice(u.username);
    assert usernames == [u.username, u.username];
    OnlyUserMatches(u, usernames);
    assert UsernamesOf([u]) == {u.username};
    assert (set n | n in usernames) == {u.username};
    assert (set n | n in usernames) - UsernamesOf(MatchingUsers([u], usernames)) == {};
    assert |MatchingUsers([u], usernames)| != |usernames|;
  }

  /** The same with concrete values: `USERNAMES_TO_REGENERATE=alice,alice`. */
  lemma AliceTwice()
    ensures UsersWithSpecifiedUsernamesAsWritten("alice,alice", [User("alice", "Alice", "alice@example.com")])
      == Err(ImproperlyConfigured(UsersNotFound({})))
  {
    assert "alice,alice" == "alice" + [','] + "alice";
    RepeatedNameRaisesWithNothingMissing(User("alice", "Alice", "alice@example.com"));
  }

  lemma SplitTwice(name: string)
    requires ',' !in name
    ensures Strings.Split(name + [','] + name, ',') == [name, name]
  {
    Strings.SplitAt(name, name, ',');
    Strings.SplitNoSep(name, ',');
  }

  lemma OnlyUserMatches(u: User, usernames: seq<string>)
    requires u.username in usernames
    ensures MatchingUsers([u], usernames) == [u]
  {
    Seqs.FilterAppend([], u, (v: User) => v.username in usernames);
    assert [] + [u] == [u];
  }

  /** `get_users_with_specified_usernames` with the evident intent: raise exactly when some
      requested name has no user. */
  function UsersWithSpecifiedUsernames(setting: string, users: seq<User>): (r: Result<seq<User>>)
    ensures setting == "" ==> r == Err(ImproperlyConfigured(UsernamesNotSet))
    ensures setting != "" ==>
      var usernames := RequestedUsernames(setting);
      var missing := MissingUsernames(usernames, users);
      && (r.Err? <==> missing != {})
      && (r.Err? ==> r.error == ImproperlyConfigured(UsersNotFound(missing)))
      && (r.Ok? ==> r.value == MatchingUsers(users, usernames))
  {
    if setting == "" then Err(ImproperlyConfigured(UsernamesNotSet))
    else
      var usernames := RequestedUsernames(setting);
      var found := MatchingUsers(users, usernames);
      UnfoundAreMissing(usernames, users);
      if MissingUsernames(usernames, users) != {} then
        Err(ImproperlyConfigured(UsersNotFound((set n | n in usernames) - UsernamesOf(found))))
      else Ok(found)
  }

  /** The requested names without a matching row are the requested names no user has. */
  lemma UnfoundAreMissing(usernames: seq<string>, users: seq<User>)
    ensures (set n | n in usernames) - UsernamesOf(MatchingUsers(users, usernames))
      == MissingUsernames(usernames, users)
  {
    var found := MatchingUsers(users, usernames);
    Seqs.FilterMembersAll(users, (u: User) => u.username in usernames);
    forall n | n in usernames && n in UsernamesOf(users) ensures n in UsernamesOf(found) {
      var u :| u in users && u.username == n;
      assert u in found;
    }
  }

  function Username(u: User): string {
    u.username
  }

  function Name(n: string): string {
    n
  }

  /** With unique usernames, the number of rows found differs from the number of names in the
      setting exactly when some name has no user or some name is repeated. */
  lemma CountMismatchExactly(usernames: seq<string>, users: seq<User>)
    ensures Seqs.DistinctBy(users, Username) ==>
      (|MatchingUsers(users, usernames)| != |usernames|
       <==> MissingUsernames(usernames, users) != {} || !Seqs.DistinctBy(usernames, Name))
  {
    if Seqs.DistinctBy(users, Username) {
      var found := MatchingUsers(users, usernames);
      var requested, named := (set n | n in usernames), UsernamesOf(found);
      Seqs.FilterKeySetSize(users, (u: User) => u.username in usernames, Username);
      assert Seqs.KeySet(found, Username) == named;
      Seqs.KeySetSizeBound(usernames, Name);
      assert Seqs.KeySet(usernames, Name) == requested;
      if Seqs.DistinctBy(usernames, Name) {
        Seqs.KeySetSize(usernames, Name);
      }
      Seqs.FilterMembersAll(users, (u: User) => u.username in usernames);
      assert named <= requested;
      UnfoundAreMissing(usernames, users);
      assert requested == named + (requested - named);
      if requested - named != {} {
        assert |requested| == |named| + |requested - named|;
      } else {
        assert requested == named;
      }
    }
  }

  /** When the setting names no user twice and usernames are unique, counting rows is the same
      check as looking for missing names: the two versions agree. */
  lemma AsWrittenAgreesWithoutRepeats(setting: string, users: seq<User>)
    requires Seqs.DistinctBy(RequestedUsernames(setting), Name)
    requires Seqs.DistinctBy(users, Username)
    ensures UsersWithSpecifiedUsernamesAsWritten(setting, users) == UsersWithSpecifiedUsernames(setting, users)
  {
    if setting != "" {
      UnfoundAreMissing(RequestedUsernames(setting), users);
    }
  }

  /** With unique usernames, whatever the check as written lets through, the corrected check
      lets through too, with the same users. */
  lemma AsWrittenOkIsCorrect(setting: string, users: seq<User>)
    requires Seqs.DistinctBy(users, Username)
    requires UsersWithSpecifiedUsernamesAsWritten(setting, users).Ok?
    ensures UsersWithSpecifiedUsernames(setting, users) == UsersWithSpecifiedUsernamesAsWritten(setting, users)
  {
  }

  /** Which version of `get_users_with_specified_usernames` a run uses: the script's count
      check, or the corrected check for missing names. */
  datatype Check = CountCheck | MissingCheck

  function Selection(check: Check, setting: string, users: seq<User>): Result<seq<User>> {
    match check
    case CountCheck => UsersWithSpecifiedUsernamesAsWritten(setting, users)
    case MissingCheck => UsersWithSpecifiedUsernames(setting, users)
  }

  /** A successful selection holds exactly the users whose username was requested, and every
      requested name has a user. */
  lemma SelectionIsRequestedUsers(setting: string, users: seq<User>)
    requires UsersWithSpecifiedUsernames(setting, users).Ok?
    ensures var selected := UsersWithSpecifiedUsernames(setting, users).value;
      && (forall u :: u in selected <==> u in users && u.username in RequestedUsernames(setting))
      && (forall n :: n in RequestedUsernames(setting) ==> exists u :: u in selected && u.username == n)
  {
    var usernames := RequestedUsernames(setting);
    Seqs.FilterMembersAll(users, (u: User) => u.username in usernames);
    forall n | n in usernames
      ensures exists u :: u in MatchingUsers(users, usernames) && u.username == n
    {
      assert n !in MissingUsernames(usernames, users);
      var u :| u in users && u.username == n;
      assert u in MatchingUsers(users, usernames);
    }
  }
  /** Either check, when it succeeds on a table without repeated usernames, selects exactly the
      requested users. */
  lemma SelectionIsRequestedUsersEither(check: Check, setting: string, users: seq<User>)
    requires Seqs.DistinctBy(users, Username)
    requires Selection(check, setting, users).Ok?
    ensures var selected := Selection(check, setting, users).value;
      && (forall u :: u in selected <==> u in users && u.username in RequestedUsernames(setting))
      && (forall n :: n in RequestedUsernames(setting) ==> exists u :: u in selected && u.username == n)
  {
    if check == CountCheck {
      AsWrittenOkIsCorrect(setting, users);
    }
    SelectionIsRequestedUsers(setting, users);
  }


  /** The records the script writes: `ignored` holds `{"username"}`, `updated` holds
      `{"old_username", "new_username"}`, and `failed` holds either the record of a
      non-duplicate error (`"exception"`) or the record of running out of attempts
      (`"failure"`). */
  datatype Entry =
    | Ignored(username: string)
    | Updated(oldUsername: string, newUsername: string)
    | Rejected(oldUsername: string, newUsername: string, exception: string)
    | OutOfAttempts(oldUsername: string, newUsername: string, failure: string)

  function OutOfAttemptsMessage(initial: string): string {
    "Ran out of attempts for finding and saving username (" + initial + ")"
  }

  /** The record a finished retry loop appends. */
  function EntryOf(oldUsername: string, initial: string, ending: Ending): Entry {
    match ending
    case SavedAs(c) => Updated(oldUsername, c)
    case StoppedAt(c, m) => Rejected(oldUsername, c, m)
    case Exhausted => OutOfAttempts(oldUsername, initial, OutOfAttemptsMessage(initial))
  }

  /** The `while` loop over the `saved`, `stop_retrying` and `attempts` flags for one user whose
      generated username differs from the current one, with the records it appends. */
  method RegenerateUsername(oldUsername: string, initial: string, save: SaveOracle, find: FindOracle)
    returns (appended: seq<Entry>, attempts: nat)
    ensures var r := RetryOutcome(initial, save, find);
      appended == [EntryOf(oldUsername, initial, r.ending)] && attempts == r.attempts
  {
    var username := initial;
    var saved, stopRetrying := false, false;
    attempts := 0;
    appended := [];
    while !saved && !stopRetrying && attempts < UsernameRetryAttempts
      invariant attempts <= UsernameRetryAttempts
      invariant !(saved && stopRetrying)
      invariant saved || stopRetrying ==> attempts >= 1
      invariant DuplicatesBefore(initial, save, find, if saved || stopRetrying then attempts - 1 else attempts)
      invariant !saved && !stopRetrying ==> username == Candidate(initial, find, attempts) && appended == []
      invariant saved ==>
        username == Candidate(initial, find, attempts - 1) && save(attempts - 1, username) == Saved
        && appended == []
      invariant stopRetrying ==>
        var c := Candidate(initial, find, attempts - 1);
        save(attempts - 1, c).IntegrityFailure?
        && appended == [Rejected(oldUsername, c, save(attempts - 1, c).message)]
    {
      match save(attempts, username) {
        case Saved =>
          saved := true;
        case DuplicateUsername(_) =>
          username := find(initial, attempts);
        case IntegrityFailure(message) =>
          stopRetrying := true;
          appended := appended + [Rejected(oldUsername, username, message)];
          username := find(initial, attempts);
      }
      attempts := attempts + 1;
    }
    if saved {
      appended := appended + [Updated(oldUsername, username)];
    } else if !stopRetrying {
      appended := appended + [OutOfAttempts(oldUsername, initial, OutOfAttemptsMessage(initial))];
    }
    FirstDecisiveUnique(initial, save, find, 0, if saved || stopRetrying then attempts - 1 else attempts);
  }

  /** The record for the selected user at position `pos`. */
  function EntryAt(db: Db, selected: seq<User>, pos: nat): Entry
    requires pos < |selected|
  {
    var user := selected[pos];
    var initial := InitialUsername(db, user);
    if user.username == initial then Ignored(user.username)
    else EntryOf(user.username, initial, RetryOutcome(initial, SaveAt(db, pos), FindAt(db, pos)).ending)
  }

  /** The number of `save()` calls made for the selected user at position `pos`. */
  function SavesAt(db: Db, selected: seq<User>, pos: nat): nat
    requires pos < |selected|
  {
    var user := selected[pos];
    var initial := InitialUsername(db, user);
    if user.username == initial then 0
    else RetryOutcome(initial, SaveAt(db, pos), FindAt(db, pos)).attempts
  }

  function Entries(db: Db, selected: seq<User>): (r: seq<Entry>)
    ensures |r| == |selected|
  {
    seq(|selected|, pos requires 0 <= pos < |selected| => EntryAt(db, selected, pos))
  }

  function Saves(db: Db, selected: seq<User>): (r: seq<nat>)
    ensures |r| == |selected|
  {
    seq(|selected|, pos requires 0 <= pos < |selected| => SavesAt(db, selected, pos))
  }

  predicate IsUpdated(e: Entry) {
    e.Updated?
  }

  predicate IsFailed(e: Entry) {
    e.Rejected? || e.OutOfAttempts?
  }

  predicate IsIgnored(e: Entry) {
    e.Ignored?
  }

  datatype Buckets = Buckets(updated: seq<Entry>, failed: seq<Entry>, ignored: seq<Entry>)

  function BucketsOf(entries: seq<Entry>): Buckets {
    Buckets(Seqs.Filter(entries, IsUpdated), Seqs.Filter(entries, IsFailed), Seqs.Filter(entries, IsIgnored))
  }

  /** The lists after appending `e` to the one it belongs to. */
  function Place(b: Buckets, e: Entry): Buckets {
    if IsUpdated(e) then b.(updated := b.updated + [e])
    else if IsFailed(e) then b.(failed := b.failed + [e])
    else b.(ignored := b.ignored + [e])
  }

  lemma BucketsOfAppend(entries: seq<Entry>, e: Entry)
    ensures BucketsOf(entries + [e]) == Place(BucketsOf(entries), e)
  {
    Seqs.FilterAppend(entries, e, IsUpdated);
    Seqs.FilterAppend(entries, e, IsFailed);
    Seqs.FilterAppend(entries, e, IsIgnored);
  }

  /** What filing the user at `pos` does to the lists and the save counts. */
  lemma EntryStep(db: Db, selected: seq<User>, pos: nat)
    requires pos < |selected|
    ensures var entries := Entries(db, selected);
      && BucketsOf(entries[..pos + 1]) == Place(BucketsOf(entries[..pos]), EntryAt(db, selected, pos))
      && Saves(db, selected)[..pos + 1] == Saves(db, selected)[..pos] + [SavesAt(db, selected, pos)]
  {
    var entries := Entries(db, selected);
    assert entries[..pos + 1] == entries[..pos] + [entries[pos]];
    BucketsOfAppend(entries[..pos], entries[pos]);
    var saves := Saves(db, selected);
    assert saves[..pos + 1] == saves[..pos] + [saves[pos]];
  }

  /** `XproSpecificUpdater.perform_username_updates`; `CountCheck` runs it as the script does.
      Besides the three lists it returns the number of saves made per selected user. */
  method PerformUsernameUpdates(check: Check, setting: string, db: Db) returns (r: Result<Buckets>, saves: seq<nat>)
    ensures var selection := Selection(check, setting, db.users);
      && (selection.Err? ==> r == Err(selection.error) && saves == [])
      && (selection.Ok? ==>
            r == Ok(BucketsOf(Entries(db, selection.value))) && saves == Saves(db, selection.value))
  {
    var selection := Selection(check, setting, db.users);
    if selection.Err? {
      return Err(selection.error), [];
    }
    var selected := selection.value;
    ghost var entries := Entries(db, selected);
    var b := Buckets([], [], []);
    saves := [];
    for pos := 0 to |selected|
      invariant b == BucketsOf(entries[..pos])
      invariant saves == Saves(db, selected)[..pos]
    {
      EntryStep(db, selected, pos);
      var user := selected[pos];
      var initial := InitialUsername(db, user);
      if user.username == initial {
        b := b.(ignored := b.ignored + [Ignored(user.username)]);
        saves := saves + [0];
        continue;
      }
      var appended, attempts := RegenerateUsername(user.username, initial, SaveAt(db, pos), FindAt(db, pos));
      if appended[0].Updated? {
        b := b.(updated := b.updated + appended);
      } else {
        b := b.(failed := b.failed + appended);
      }
      saves := saves + [attempts];
    }
    assert entries[..|selected|] == entries;
    r := Ok(b);
  }

  /** Every selected user lands in exactly one of the three lists, in selection order. */
  lemma EntriesPartition(db: Db, selected: seq<User>)
    ensures var b := BucketsOf(Entries(db, selected));
      && multiset(b.updated) + multiset(b.failed) + multiset(b.ignored) == multiset(Entries(db, selected))
      && |b.updated| + |b.failed| + |b.ignored| == |selected|
  {
    var es := Entries(db, selected);
    assert forall k :: 0 <= k < |es| ==> Seqs.ExactlyOne(es[k], IsUpdated, IsFailed, IsIgnored);
    Seqs.FilterPartition3(es, IsUpdated, IsFailed, IsIgnored);
    Seqs.FilterPartition3Size(es, IsUpdated, IsFailed, IsIgnored);
  }

  /** A user is ignored exactly when the generated username equals the current one, and then no
      save is made; every other user gets between one and ten saves. If a save raises a
      non-duplicate error, the one failure record names the username being tried; running
      out of attempts records the generated username. */
  lemma EntryAtFacts(db: Db, selected: seq<User>, pos: nat)
    requires pos < |selected|
    ensures var user := selected[pos];
      var initial := InitialUsername(db, user);
      var e := EntryAt(db, selected, pos);
      var save, find := SaveAt(db, pos), FindAt(db, pos);
      && (e.Ignored? <==> user.username == initial)
      && (e.Ignored? ==> SavesAt(db, selected, pos) == 0)
      && (!e.Ignored? ==> 1 <= SavesAt(db, selected, pos) <= UsernameRetryAttempts)
      && (e.OutOfAttempts? ==>
            e.newUsername == initial && DuplicatesBefore(initial, save, find, UsernameRetryAttempts))
      && (e.Rejected? ==>
            var k := SavesAt(db, selected, pos) - 1;
            DuplicatesBefore(initial, save, find, k) && e.newUsername == Candidate(initial, find, k)
            && save(k, e.newUsername) == IntegrityFailure(e.exception))
  {
    var user := selected[pos];
    var initial := InitialUsername(db, user);
    ExhaustedExactly(initial, SaveAt(db, pos), FindAt(db, pos));
  }

  /** The dictionary each record becomes: `{"username"}` for an ignored user, and the old and
      new usernames, with the exception or the failure message, for the others. */
  function EntryToJson(e: Entry): (r: Json)
    ensures r.JObject?
    ensures e.Ignored? ==> r.fields == map["username" := JString(e.username)]
    ensures !e.Ignored? ==>
      && r.fields.Keys == {"old_username", "new_username"}
           + (if e.Rejected? then {"exception"} else if e.OutOfAttempts? then {"failure"} else {})
      && r.fields["old_username"] == JString(e.oldUsername) && r.fields["new_username"] == JString(e.newUsername)
    ensures e.Rejected? ==> r.fields["exception"] == JString(e.exception)
    ensures e.OutOfAttempts? ==> r.fields["failure"] == JString(e.failure)
  {
    match e
    case Ignored(u) => JObject(map["username" := JString(u)])
    case Updated(o, n) => JObject(map["old_username" := JString(o), "new_username" := JString(n)])
    case Rejected(o, n, x) =>
      JObject(map["old_username" := JString(o), "new_username" := JString(n), "exception" := JString(x)])
    case OutOfAttempts(o, n, f) =>
      JObject(map["old_username" := JString(o), "new_username" := JString(n), "failure" := JString(f)])
  }

  /** The dictionary `perform_username_updates` returns, or the exception it raises: it fails
      exactly when the selection does, and otherwise holds the three lists, one entry per
      selected user. */
  function StepResult(check: Check, setting: string, db: Db): (r: Result<UpdateLib.StepDict>)
    ensures var selection := Selection(check, setting, db.users);
      && (r.Ok? <==> selection.Ok?)
      && (r.Err? ==> r.error == selection.error)
      && (r.Ok? ==>
            && r.value.Keys == {"updated", "failed", "ignored"}
            && r.value["updated"].JArray? && r.value["failed"].JArray? && r.value["ignored"].JArray?
            && |r.value["updated"].items| + |r.value["failed"].items| + |r.value["ignored"].items|
               == |selection.value|)
  {
    var selected :- Selection(check, setting, db.users);
    var b := BucketsOf(Entries(db, selected));
    EntriesPartition(db, selected);
    var d: UpdateLib.StepDict := map[
      "updated" := JArray(Seqs.Map(b.updated, EntryToJson)),
      "failed" := JArray(Seqs.Map(b.failed, EntryToJson)),
      "ignored" := JArray(Seqs.Map(b.ignored, EntryToJson))];
    Ok(d)
  }

  /** The script as a whole: the setting comes from `USERNAMES_TO_REGENERATE`, no previous result
      is read, and a failed selection is the script's failure. With `CountCheck` this is the
      script as written. */
  lemma ScriptRun(check: Check, env: map<string, string>, files: map<string, string>,
                  loads: string -> Option<Json>, runDate: string, stamp: string, db: Db)
    ensures var config := UpdateLib.LoadConfig(env);
      var selection := Selection(check, config.usernamesToRegenerate, db.users);
      var run := UpdateLib.HandleResults(UpdateLib.XproSettings(), config, env, files, loads, runDate, stamp,
                                         (updateList: Json) => StepResult(check, config.usernamesToRegenerate, db));
      && (selection.Err? ==> run == Err(selection.error))
      && (selection.Ok? ==> run.Ok? && run.value.resultDict.Keys == {"run_date", "updated", "failed", "ignored"})
  {
  }

  /** The script as written fails on `USERNAMES_TO_REGENERATE=alice,alice` although `alice`
      exists, and makes no save. */
  lemma AliceTwiceScriptFails(env: map<string, string>, files: map<string, string>,
                              loads: string -> Option<Json>, runDate: string, stamp: string, db: Db)
    requires env == map["USERNAMES_TO_REGENERATE" := "alice,alice"]
    requires db.users == [User("alice", "Alice", "alice@example.com")]
    ensures var config := UpdateLib.LoadConfig(env);
      UpdateLib.HandleResults(UpdateLib.XproSettings(), config, env, files, loads, runDate, stamp,
                              (updateList: Json) => StepResult(CountCheck, config.usernamesToRegenerate, db))
        == Err(ImproperlyConfigured(UsersNotFound({})))
  {
    assert UpdateLib.LoadConfig(env).usernamesToRegenerate == "alice,alice";
    AliceTwice();
    ScriptRun(CountCheck, env, files, loads, runDate, stamp, db);
  }
}
