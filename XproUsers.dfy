/** The xPro user table and the bounded "save, and on a duplicate username retry with a suggested
    one" procedure that both xPro scripts run per user.

    The database is an oracle: `save` says what `user.save()` does on a given attempt with a
    given username, and `findAvailable` what `find_available_username(initial)` returns on a
    given call. Both are indexed by the user's position in the selection, so the database may
    change between users and between calls. */
module XproUsers {

  /** `USERNAME_RETRY_ATTEMPTS`, the same constant in both xPro scripts. */
  const UsernameRetryAttempts: nat := 10

  datatype User = User(username: string, name: string, email: string)

  /** What one `user.save()` does: succeed, or raise an `IntegrityError` that
      `is_duplicate_username_error` classifies as a duplicate username or as something else.
      The messages are `str(exc)`. */
  datatype SaveOutcome = Saved | DuplicateUsername(message: string) | IntegrityFailure(message: string)

  /** The database as the scripts see it. `users` is the user table in the order the query returns
      it; `usernameify(name, email)` is the generated username; `findAvailable(pos, initial, call)`
      is the value of the `call`-th `find_available_username(initial)` for the user at `pos`;
      `save(pos, attempt, username)` is the outcome of save attempt `attempt` (from 0). */
  datatype Db = Db(
    users: seq<User>,
    usernameify: (string, string) -> string,
    findAvailable: (nat, string, nat) -> string,
    save: (nat, nat, string) -> SaveOutcome)

  /** The save attempts of the user at one position. */
  type SaveOracle = (nat, string) -> SaveOutcome

  /** The suggestions `find_available_username(initial)` returns for the user at one position. */
  type FindOracle = (string, nat) -> string

  function SaveAt(db: Db, pos: nat): SaveOracle {
    (attempt: nat, username: string) => db.save(pos, attempt, username)
  }

  function FindAt(db: Db, pos: nat): FindOracle {
    (initial: string, call: nat) => db.findAvailable(pos, initial, call)
  }

  function InitialUsername(db: Db, u: User): string {
    db.usernameify(u.name, u.email)
  }

  /** The username tried on attempt `k`: the generated one first, then each retry takes a fresh
      suggestion derived from the generated one (never from the previous suggestion). */
  function Candidate(initial: string, find: FindOracle, k: nat): string {
    if k == 0 then initial else find(initial, k - 1)
  }

  predicate DuplicateAt(initial: string, save: SaveOracle, find: FindOracle, k: nat) {
    save(k, Candidate(initial, find, k)).DuplicateUsername?
  }

  /** Attempts `0 .. k - 1` all failed with a duplicate username. */
  predicate DuplicatesBefore(initial: string, save: SaveOracle, find: FindOracle, k: nat) {
    forall j :: 0 <= j < k ==> DuplicateAt(initial, save, find, j)
  }

  /** The first attempt at or after `from` that does not fail with a duplicate username, or the
      retry limit when every remaining attempt does. */
  function FirstDecisive(initial: string, save: SaveOracle, find: FindOracle, from: nat): (k: nat)
    requires from <= UsernameRetryAttempts
    ensures from <= k <= UsernameRetryAttempts
    ensures forall j :: from <= j < k ==> DuplicateAt(initial, save, find, j)
    ensures k < UsernameRetryAttempts ==> !DuplicateAt(initial, save, find, k)
    decreases UsernameRetryAttempts - from
  {
    if from == UsernameRetryAttempts then from
    else if DuplicateAt(initial, save, find, from) then FirstDecisive(initial, save, find, from + 1)
    else from
  }

  /** How a user's retry loop ends. */
  datatype Ending =
    | SavedAs(username: string)
    | StoppedAt(username: string, message: string)
    | Exhausted

  datatype Retry = Retry(ending: Ending, attempts: nat)

  /** The outcome of the retry loop for one user, in closed form. */
  function RetryOutcome(initial: string, save: SaveOracle, find: FindOracle): (r: Retry)
    ensures 1 <= r.attempts <= UsernameRetryAttempts
  {
    var k := FirstDecisive(initial, save, find, 0);
    var c := Candidate(initial, find, k);
    if k < UsernameRetryAttempts && save(k, c).Saved? then Retry(SavedAs(c), k + 1)
    else if k < UsernameRetryAttempts && save(k, c).IntegrityFailure? then
      Retry(StoppedAt(c, save(k, c).message), k + 1)
    else Retry(Exhausted, UsernameRetryAttempts)
  }

  /** The first decisive attempt is the unique attempt preceded only by duplicates that is
      itself decisive (or the limit). */
  lemma {:induction false} FirstDecisiveUnique(initial: string, save: SaveOracle, find: FindOracle, from: nat, k: nat)
    requires from <= k <= UsernameRetryAttempts
    requires forall j :: from <= j < k ==> DuplicateAt(initial, save, find, j)
    requires k < UsernameRetryAttempts ==> !DuplicateAt(initial, save, find, k)
    ensures FirstDecisive(initial, save, find, from) == k
    decreases k - from
  {
    if from < k {
      assert DuplicateAt(initial, save, find, from);
      FirstDecisiveUnique(initial, save, find, from + 1, k);
    }
  }

  /** The loop saves under `c` exactly when some attempt `k` within the limit, preceded only by
      duplicate-username failures, succeeds with `c` as its candidate; then `k + 1` saves ran. */
  lemma SavedExactly(initial: string, save: SaveOracle, find: FindOracle, c: string, k: nat)
    requires k < UsernameRetryAttempts
    ensures RetryOutcome(initial, save, find) == Retry(SavedAs(c), k + 1)
        <==> DuplicatesBefore(initial, save, find, k) && save(k, Candidate(initial, find, k)) == Saved
             && c == Candidate(initial, find, k)
  {
    if DuplicatesBefore(initial, save, find, k) && save(k, Candidate(initial, find, k)) == Saved {
      FirstDecisiveUnique(initial, save, find, 0, k);
    }
  }

  /** The loop stops early, recording `c` and `m`, exactly when attempt `k`, preceded only by
      duplicate-username failures, raises a non-duplicate error `m` while trying `c`. */
  lemma StoppedExactly(initial: string, save: SaveOracle, find: FindOracle, c: string, m: string, k: nat)
    requires k < UsernameRetryAttempts
    ensures RetryOutcome(initial, save, find) == Retry(StoppedAt(c, m), k + 1)
        <==> DuplicatesBefore(initial, save, find, k)
             && save(k, Candidate(initial, find, k)) == IntegrityFailure(m)
             && c == Candidate(initial, find, k)
  {
    if DuplicatesBefore(initial, save, find, k) && save(k, Candidate(initial, find, k)) == IntegrityFailure(m) {
      FirstDecisiveUnique(initial, save, find, 0, k);
    }
  }

  /** The loop runs out of attempts exactly when every one of the allowed attempts fails with a
      duplicate username; it then made exactly `UsernameRetryAttempts` saves. */
  lemma ExhaustedExactly(initial: string, save: SaveOracle, find: FindOracle)
    ensures RetryOutcome(initial, save, find).ending == Exhausted
        <==> DuplicatesBefore(initial, save, find, UsernameRetryAttempts)
    ensures RetryOutcome(initial, save, find).ending == Exhausted
        ==> RetryOutcome(initial, save, find).attempts == UsernameRetryAttempts
  {
    if DuplicatesBefore(initial, save, find, UsernameRetryAttempts) {
      FirstDecisiveUnique(initial, save, find, 0, UsernameRetryAttempts);
    }
  }

  /** A saved username is the generated one or one of the first nine suggestions derived from it. */
  lemma SavedNameDerivesFromInitial(initial: string, save: SaveOracle, find: FindOracle)
    ensures var e := RetryOutcome(initial, save, find).ending;
      e.SavedAs? ==>
        (e.username == initial
         || exists call :: 0 <= call < UsernameRetryAttempts - 1 && e.username == find(initial, call))
  {
    var k := FirstDecisive(initial, save, find, 0);
    if k > 0 {
      assert Candidate(initial, find, k) == find(initial, k - 1);
    }
  }
}
