# edx-username-updater, modelled in Dafny

The repository is a three-step pipeline that renames auto-generated usernames. Each step runs as a
separate script:

1. **xPro.** `xpro_username_update.py` selects every user whose username looks like a ULID.
   `xpro_specific_username_update.py` is the alternative first step: it selects the users named
   in `USERNAMES_TO_REGENERATE`. Either script generates a username from the user's name and
   email and saves it. When a save fails with a duplicate username, it retries up to ten times
   with a suggested username. Each outcome is filed under `updated`, `failed` or `ignored`.
2. **edX.** `edx_username_update.py` reads the previous step's `updated` list. For each record
   it renames the matching users and their social-auth uids in one transaction. The record is
   filed under `updated`, `not_found` or `failed`.
3. **Forum.** `edx_forum_username_update.py` renames the forum user of each edX record. It then
   walks the threads of every course the user is actively enrolled in, breadth first, and renames
   each thread and comment the user wrote. It files the record under `updated`, with the number of
   items renamed, or under `failed`.

`username_update_lib.py` holds what all three steps share:

- the settings of each step;
- `join_path`;
- finding the previous step's result, either in a file tried at several paths or in a raw JSON
  environment variable;
- assembling the result dictionary;
- the name of the file it is written to.

## How the model is built

Everything outside the scripts is an oracle indexed by position. This covers the database, the
ORM, `usernameify`, `find_available_username`, `validate_username`, the forum client and its URL
builders. For example, `save` is indexed by the user's position and the attempt number. Because
of this indexing, the model allows the outside world to change between calls.

Imperative code stays imperative:

- every `while` or `for` statement of the source, and every function that fills a dictionary in
  place, is a `method`;
- each such method is proved equal to a closed-form specification function;
- the properties are proved as lemmas about those functions.

List comprehensions and `map` calls are expressions in the source and stay functions:
`EdxForumUpdate.EnrolledCourseIds` (the active enrollments' course ids) and `UpdateLib.JoinPath`
(the stripped parts). The comprehension that fetches a course's threads is inside the forum
client oracle `threads`.

The statement-by-statement methods are:

- `XproUpdate.UpdatedUsername` and `XproUpdate.UpdatedUsernameGen`;
- `XproSpecificUpdate.RegenerateUsername`;
- `UpdateLib.GetPreviousResultData`;
- `UpdateLib.PerformUpdatesAndHandleResults`;
- `ForumThreads.ScanThread`, `ForumThreads.ScanThreads` and
  `ForumThreads.AuthoredThreadsAndComments`;
- `EdxUpdate.UpdateRecord`, `EdxForumUpdate.UpdateRecordUsername` and
  `EdxForumUpdate.UpdateAuthoredItems`;
- the `PerformUsernameUpdates` of each step.

The xPro specific step is parameterised by a `Check`. `CountCheck` is the script's
`get_users_with_specified_usernames` as written. `MissingCheck` is the corrected check of
"## Findings".

The bounded retry has a closed form in `XproUsers.RetryOutcome`. It finds the first attempt that
does not fail with a duplicate username and classifies the save outcome there. Both xPro loops
are proved equal to it.

The forum's walk over a thread is `ForumThreads.Bfs`, a FIFO queue. It is proved to list items
level by level (`LevelOrder`). It is also proved to visit each item of the tree exactly once, by
comparison with the preorder list `Nodes`.

Module layout:

| module | what it holds |
|---|---|
| `Py` | JSON values, exceptions, Python truthiness, and Python's `in`, `[...]`, `.get` and `os.getenv` |
| `Strings` | `strip`, `join`, `split` and the substring test |
| `Seqs` | order-preserving selection (`Filter`), which is the shape of every result list, and the partition lemmas |
| `XproUsers` | the user table, the save and suggestion oracles, and the closed-form retry |
| `UpdateLib` | `username_update_lib.py` |
| `XproUpdate`, `XproSpecificUpdate` | the two xPro scripts |
| `StepRecords` | reading the previous step's records (shared by the edX and forum steps) |
| `EdxUpdate` | the edX step |
| `ForumThreads` | the forum's thread trees and the generator that walks them |
| `EdxForumUpdate` | the forum step |

## Model

| member | source | states |
|---|---|---|
| UpdateLib.SettingsChain | username_update_lib.py:21-50 | xPro reads no previous result, each later step's input base is the previous step's output base, and each later step reads a file-name variable distinct from its raw-JSON variable |
| UpdateLib.LoadConfig | username_update_lib.py:17-19 | the result directory, the skip flag and the names to regenerate are read from the environment, with the defaults `.`, `None` and the empty string |
| UpdateLib.JoinPath | username_update_lib.py:53-57 | no parts join to the empty string; one part is only stripped; a joined path starts with the first stripped part and ends with the last |
| Strings.JoinEnds | username_update_lib.py:57 | a join begins with its first part and ends with its last |
| UpdateLib.JoinPathSegments | username_update_lib.py:53-57 | when no stripped part contains an inner `/`, splitting the joined path at `/` gives back exactly the stripped parts, one segment per part |
| UpdateLib.JoinPathEnds | username_update_lib.py:53-57 | a joined path whose first and last parts do not strip to nothing neither begins nor ends with `/` |
| UpdateLib.JoinPathSingle | username_update_lib.py:53-57 | one part is only stripped; a part without a `/` at either end comes back unchanged |
| UpdateLib.JoinPathTwo | username_update_lib.py:53-57 | two parts join to the stripped directory, one `/` and the stripped name |
| Strings.StripShape | username_update_lib.py:55 | `strip("/")` returns the infix that remains after cutting a run of `/` off each end, and the result neither begins nor ends with `/` |
| Strings.StripIdempotent | username_update_lib.py:55 | stripping twice is stripping once |
| Strings.SplitJoin | username_update_lib.py:57 | joining pieces that contain no separator and splitting again gives the pieces back |
| Strings.JoinSplit | xpro_specific_username_update.py:27 | splitting a string at `,` and joining the pieces again gives the string back |
| Strings.Split | xpro_specific_username_update.py:27 | `split(",")` returns at least one piece, and no piece contains `,` |
| Py.Contains | username_update_lib.py:90 | `in` raises `TypeError` exactly for a value that is not a dict, a list or a string; for a dict it tests the keys, for a list the elements and for a string the substrings |
| Py.Subscript | username_update_lib.py:90-91 | `value["key"]` succeeds exactly on a dict holding the key, and then returns its value |
| Py.Get | username_update_lib.py:134 | `.get` succeeds exactly on a dict, returning the key's value or the default |
| UpdateLib.FirstExisting | username_update_lib.py:102-106 | the position returned is the first existing path: all earlier paths are missing, and it is either an existing path or the end of the list |
| UpdateLib.GetPreviousResultData | username_update_lib.py:74-113 | the method equals the case-by-case specification `PreviousResultData` |
| UpdateLib.FirstExistingIs | username_update_lib.py:102-106 | any position preceded only by missing paths that is itself an existing path (or the end) is the first existing one |
| UpdateLib.NothingSetRaises | username_update_lib.py:76-86 | the step raises "either variable needs to be set" exactly when the file-name variable is unset or empty and the raw JSON value parses but is falsy |
| UpdateLib.ResultsPortion | username_update_lib.py:88-92 | the answer is the value itself or its `"results"` entry; it raises only `TypeError`, and exactly when `in` or the subscript meets a non-container (a list or string containing `"results"` raises on the subscript); a dict without `"results"` is answered whole, and a `"results"` dict is answered when it holds `"updated"` |
| UpdateLib.FileNameIgnoresRawJson | username_update_lib.py:77-79 | when a file name is set, the raw JSON variable is never read: any value of it gives the same answer |
| UpdateLib.RawResultsPortion | username_update_lib.py:88-92 | a raw dict whose `"results"` dict holds `"updated"` is answered with that portion; a dict without `"results"`, or whose `"results"` lacks `"updated"`, is answered whole |
| UpdateLib.FirstExistingPathWins | username_update_lib.py:94-113 | paths are tried in the order name, `dir/name`, `dir/name.json`; the first existing one is parsed, and when none exists the error lists all three paths, the variable and the name |
| UpdateLib.WriteResultFile | username_update_lib.py:115-126 | no file is written exactly when `SKIP_USERNAME_JSON_FILE_WRITE` is set and non-empty |
| UpdateLib.ResultFileName | username_update_lib.py:115-126 | the written file is `<base>_<stamp>.json` inside the stripped result directory, or `/<base>_<stamp>.json` when the directory strips to nothing |
| UpdateLib.PerformUpdatesAndHandleResults | username_update_lib.py:128-143 | the method, which fills the dictionary in place, equals the specification `HandleResults` |
| UpdateLib.RunDictionaryKeys | username_update_lib.py:128-143 | a finished run records its own run date, records `previous_step_file` and `previous_step_run_date` exactly when the step reads a previous result, and returns the result file name |
| UpdateLib.RunCarriesStep | username_update_lib.py:136-141 | without a previous step, the step receives `None`, the run fails exactly when the step does, and the dictionary is the step's own plus `run_date` |
| UpdateLib.RunUsesPreviousResult | username_update_lib.py:131-141 | a failure to find or parse the previous result is the run's failure; a found dict passes its `"updated"` list (or `None`) to the step and its `"run_date"` to the dictionary; a found non-dict raises `AttributeError` on `.get` |
| XproUpdate.UlidUsernameUsers | xpro_username_update.py:28-37 | the selection holds exactly the users whose username has length 26 and consists of `A-Z` and `0-9` |
| XproUsers.FirstDecisive | xpro_username_update.py:48-62 | the attempt returned is the first one within the limit that does not fail with a duplicate username, or the limit when every attempt does |
| XproUsers.RetryOutcome | xpro_username_update.py:48-62 | the loop makes between one and ten save attempts |
| XproUsers.FirstDecisiveUnique | xpro_username_update.py:48-62 | an attempt preceded only by duplicate-username failures that is itself decisive (or the limit) is the first decisive attempt |
| XproUsers.SavedExactly | xpro_username_update.py:48-67 | the loop saves under `c` after `k + 1` attempts exactly when attempts `0..k-1` all failed with a duplicate username, attempt `k` succeeded, and `c` is the username attempt `k` tried |
| XproUsers.StoppedExactly | xpro_username_update.py:52-59 | the loop stops early, recording `(c, m)`, exactly when attempt `k` follows only duplicate-username failures and raises the non-duplicate error `m` while trying `c` |
| XproUsers.ExhaustedExactly | xpro_username_update.py:68-75 | the loop runs out of attempts exactly when all ten attempts fail with a duplicate username, and it then made exactly ten saves |
| XproUsers.SavedNameDerivesFromInitial | xpro_username_update.py:60 | a saved username is the generated one or one of the first nine suggestions derived from it |
| XproUpdate.UpdatedUsername | xpro_username_update.py:41-75 | one user's loop yields exactly one record, the one the closed-form retry determines, after that many attempts |
| XproUpdate.Changes | xpro_username_update.py:40-41 | the generator yields one record per selected user |
| XproUpdate.UpdatedUsernameGen | xpro_username_update.py:40-75 | the generator's records, in order, are the closed-form record of each selected user |
| XproUpdate.PerformUsernameUpdates | xpro_username_update.py:79-93 | `updated` holds the successful changes and `failed` the failed ones, each in generator order |
| XproUpdate.UpdatesPartition | xpro_username_update.py:83-88 | every record lands in exactly one of the two lists (as multisets), and the list sizes add up to the number of selected users |
| XproUpdate.ChangeAtFacts | xpro_username_update.py:42-75 | each record names the user's old username. A success carries the generated username or a suggestion. Ten duplicate failures give the out-of-attempts record with the generated username. Any other failure carries the username and message of the first non-duplicate attempt |
| XproUpdate.ChangeToJson | xpro_username_update.py:20-25 | a successful change becomes a dict with exactly `old_username` and `new_username`, which the next step reads back as those two names; a failed change becomes a dict with exactly `username`, `new_username` and `failure`, which the next step cannot read |
| XproUpdate.ChangesPartition | xpro_username_update.py:83-88 | every yielded change is either successful or failed: the two lists are a partition of the changes |
| XproUpdate.EntriesReadable | xpro_username_update.py:83-88 | every `updated` entry is a record the next step can read, and no `failed` entry is |
| XproUpdate.ChangeLists | xpro_username_update.py:79-93 | the dictionary has exactly the keys `updated` and `failed`, both lists, holding together one entry per change; the `updated` entries are readable records and the `failed` ones are not |
| XproUpdate.StepResult | xpro_username_update.py:79-93 | the step's dictionary holds one entry per selected user, split between `updated` and `failed`, each `updated` entry a record the edX step can read |
| XproUpdate.ScriptRun | xpro_username_update.py:96-99 | the script's dictionary is its run date plus its two lists, and it is written unless skipped |
| XproSpecificUpdate.UsersWithSpecifiedUsernamesAsWritten | xpro_specific_username_update.py:20-35 | as written: an empty setting raises "need to set"; a raise after a non-empty setting lists the requested names no row was found for; on a table without repeated usernames it raises exactly when some requested name has no user or a name is requested twice, and a success is the matching users in table order |
| XproSpecificUpdate.CountMismatchExactly | xpro_specific_username_update.py:28-29 | on a table without repeated usernames, the number of rows found differs from the number of names exactly when some name has no user or a name repeats |
| XproSpecificUpdate.AsWrittenOkIsCorrect | xpro_specific_username_update.py:27-35 | on a table without repeated usernames, whenever the check as written succeeds the corrected check gives the same users |
| XproSpecificUpdate.SelectionIsRequestedUsersEither | xpro_specific_username_update.py:27-35 | on a table without repeated usernames, a successful selection of either check holds exactly the requested users, one for every requested name |
| Seqs.KeySetSizeBound | xpro_specific_username_update.py:28-31 | a list has at most as many distinct keys as elements, and exactly as many only when no key repeats |
| XproSpecificUpdate.RepeatedNameRaisesWithNothingMissing | xpro_specific_username_update.py:27-34 | requesting an existing user's name twice makes the as-written check raise, although every requested user exists, and the error lists no missing name |
| XproSpecificUpdate.AliceTwice | xpro_specific_username_update.py:27-34 | `alice,alice` with user `alice` present raises `UsersNotFound({})` |
| XproSpecificUpdate.UsersWithSpecifiedUsernames | xpro_specific_username_update.py:20-35 | corrected check: an empty setting raises "need to set"; otherwise it raises exactly when some requested name has no user, listing those names, and returns the matching users in table order |
| XproSpecificUpdate.UnfoundAreMissing | xpro_specific_username_update.py:30-31 | the names in the error (`set(usernames)` minus the usernames found) are exactly the requested names no user has |
| XproSpecificUpdate.AsWrittenAgreesWithoutRepeats | xpro_specific_username_update.py:27-35 | when the setting repeats no name and usernames are unique, the check as written and the corrected check give the same answer |
| XproSpecificUpdate.SelectionIsRequestedUsers | xpro_specific_username_update.py:27-35 | a successful selection holds exactly the users whose username was requested, and every requested name has a selected user |
| XproSpecificUpdate.RegenerateUsername | xpro_specific_username_update.py:50-81 | one user's loop appends exactly one record, the one the closed-form retry determines (`updated`, an `exception` record, or a `failure` record), after that many saves |
| XproSpecificUpdate.Entries | xpro_specific_username_update.py:42 | one record per selected user |
| XproSpecificUpdate.Saves | xpro_specific_username_update.py:42-68 | one save count per selected user |
| XproSpecificUpdate.BucketsOfAppend | xpro_specific_username_update.py:46-81 | filing one more record appends it to the one list its kind selects |
| XproSpecificUpdate.PerformUsernameUpdates | xpro_specific_username_update.py:37-87 | with the chosen check (`CountCheck` as the script runs it), a failed selection is raised with no save made; otherwise the three lists are the records of the selected users filtered by kind, in selection order, and the save counts are each user's |
| XproSpecificUpdate.EntryToJson | xpro_specific_username_update.py:46-81 | an ignored user becomes a dict holding only `username`; every other record holds `old_username` and `new_username`, plus `exception` for a non-duplicate error or `failure` after ten duplicates, with those values |
| XproSpecificUpdate.StepResult | xpro_specific_username_update.py:37-87 | the step raises exactly when the chosen selection does, with its error; otherwise the dictionary has exactly the lists `updated`, `failed` and `ignored`, holding together one entry per selected user |
| XproSpecificUpdate.EntriesPartition | xpro_specific_username_update.py:42-81 | every selected user lands in exactly one of `updated`, `failed` and `ignored`, and the sizes add up to the number of selected users |
| XproSpecificUpdate.EntryAtFacts | xpro_specific_username_update.py:43-81 | a user is ignored exactly when the generated username equals the current one, and is then not saved. Every other user gets one to ten saves. An `exception` record carries the username and message of the first non-duplicate attempt, which is the last save. A `failure` record carries the generated username after ten duplicate failures |
| XproSpecificUpdate.ScriptRun | xpro_specific_username_update.py:90-93 | with the chosen check (`CountCheck` as the script runs it), the setting comes from `USERNAMES_TO_REGENERATE`; a failed selection is the script's failure; otherwise the dictionary has exactly the keys `run_date`, `updated`, `failed` and `ignored` |
| XproSpecificUpdate.AliceTwiceScriptFails | xpro_specific_username_update.py:20-93 | the script as written fails with `UsersNotFound({})` on `USERNAMES_TO_REGENERATE=alice,alice` although user `alice` exists |
| StepRecords.Records | edx_username_update.py:22 | iterating the previous `updated` value gives a list's elements; only a list, an empty dict or an empty string iterate without raising |
| StepRecords.Names | edx_username_update.py:23-24 | a record's two names can be read exactly when it is a dict holding both keys, and are then those values |
| StepRecords.FirstUnreadable | edx_username_update.py:22-24 | the position returned is the first record whose names cannot be read: all earlier ones can be read |
| StepRecords.FirstUnreadableIs | edx_username_update.py:22-24 | a position preceded only by readable records that is itself unreadable (or the end) is the first unreadable one |
| EdxUpdate.RecordStep | edx_username_update.py:22-41 | filing record `i` places its decision in one list and appends the writes it commits |
| EdxUpdate.UpdateRecord | edx_username_update.py:25-41 | one record's `try` yields the decision and the committed writes of the specification |
| EdxUpdate.PerformUsernameUpdates | edx_username_update.py:17-46 | the step equals its specification: it raises at the first unreadable record or a non-iterable list, and otherwise returns the three lists of decisions in record order, together with exactly the writes committed before it ends |
| EdxUpdate.DecisionsPartition | edx_username_update.py:22-41 | every record lands in exactly one of the three lists, and the sizes add up to the number of records |
| EdxUpdate.FiledRecordsAreInputs | edx_username_update.py:37-41 | the `updated` and `not_found` lists hold input records unchanged |
| EdxUpdate.DecisionCases | edx_username_update.py:26-41 | `not_found` exactly when validation passes and the rename matches no user; `updated` exactly when it matches some user and the uid rename does not raise; a validation failure goes to `failed` with its message |
| EdxUpdate.WritesFollowDecision | edx_username_update.py:27-36 | uids are renamed only after a validated rename matched some user, and a record leaves writes committed exactly when it is `updated` (a raise rolls the transaction back) |
| EdxForumUpdate.EnrolledCourseIds | edx_forum_username_update.py:33-38 | the course ids are those of the enrollments whose `is_active` is exactly `True`, in enrollment order |
| EdxForumUpdate.CheckUpdateResponse | edx_forum_username_update.py:65-66 | the check passes exactly when the answer is a dict whose `username` equals the requested name; a different name raises `UpdateFailedException` with the URL and the name |
| EdxForumUpdate.UpdateError | edx_forum_username_update.py:58-88 | a rename request raises only an exception that a `failed` record can render |
| EdxForumUpdate.ItemErrorAt | edx_forum_username_update.py:106-114 | an item that is neither a thread nor a comment raises nothing; a thread or comment raises what its rename request raises, which a `failed` record can render |
| EdxForumUpdate.FirstFailedItem | edx_forum_username_update.py:106-114 | the position returned is the first item whose rename raises: every earlier rename succeeded |
| EdxForumUpdate.FirstFailedItemIs | edx_forum_username_update.py:106-114 | a position preceded only by successful renames that itself fails (or is the end) is the first failing one |
| EdxForumUpdate.PutsCountUpdatable | edx_forum_username_update.py:106-114 | exactly one request is sent per thread or comment |
| EdxForumUpdate.ItemsResult | edx_forum_username_update.py:105-114 | any exception the item loop ends with is renderable |
| EdxForumUpdate.ItemStep | edx_forum_username_update.py:106-114 | handling item `k` adds one to the count and one request exactly when it is a thread or comment |
| EdxForumUpdate.UpdateAuthoredItems | edx_forum_username_update.py:105-114 | the loop's count, exception and requests equal the specification: it stops at the first failing rename, with the threads and comments before it counted |
| EdxForumUpdate.CountIsUpdatableItems | edx_forum_username_update.py:105-114 | when no rename fails, the count is the number of threads and comments yielded, with one request each |
| ForumThreads.ForestSizeAppend | edx_forum_username_update.py:50-55 | the size of two lists of trees together is the sum of their sizes |
| ForumThreads.PopExtendShrinks | edx_forum_username_update.py:51-53 | popping the head of `children_to_scan` and appending its replies leaves less work, so the walk ends |
| ForumThreads.NodesAppend | edx_forum_username_update.py:50-55 | the preorder list of two lists of trees is the concatenation of their preorder lists |
| ForumThreads.AllChildrenSize | edx_forum_username_update.py:50-55 | one level down holds the items of the list minus the list itself |
| ForumThreads.BfsConcat | edx_forum_username_update.py:51-53 | the FIFO walk finishes its starting queue before it reaches their replies |
| ForumThreads.BfsIsLevelOrder | edx_forum_username_update.py:50-55 | the walk lists items level by level: breadth-first order |
| ForumThreads.BfsSelectsLikeNodes | edx_forum_username_update.py:50-55 | for any test, the walk selects the same items, with the same multiplicities, as the preorder list |
| ForumThreads.BfsVisitsEachOnce | edx_forum_username_update.py:50-55 | the walk visits every item of the reply tree exactly once |
| ForumThreads.ScanStep | edx_forum_username_update.py:51-55 | one step of the walk yields the head when the user wrote it, then what the rest of the queue plus its replies yields |
| ForumThreads.ScanThread | edx_forum_username_update.py:47-55 | one thread's loop yields the thread when the user wrote it, then the user's items of the reply tree in FIFO order |
| ForumThreads.ThreadItemsCount | edx_forum_username_update.py:47-55 | a thread's walk yields exactly the thread's items the user wrote, each as often as it occurs |
| ForumThreads.ThreadItemsAuthored | edx_forum_username_update.py:47-55 | an item is yielded exactly when it belongs to the thread and the user wrote it; the thread comes first when the user wrote it |
| ForumThreads.StreamStops | edx_forum_username_update.py:42-46 | once a course's thread fetch raises, later courses add nothing |
| ForumThreads.ScanThreads | edx_forum_username_update.py:47-55 | the loop over one course's threads yields each thread's items in thread order |
| ForumThreads.AuthoredThreadsAndComments | edx_forum_username_update.py:41-55 | the generator equals the course-by-course specification, ending at the first fetch that raises |
| ForumThreads.StreamItemsAuthored | edx_forum_username_update.py:41-55 | every item the generator yields was written by the user |
| ForumThreads.ThreadsItemsAuthored | edx_forum_username_update.py:47-55 | every item yielded for a list of threads was written by the user |
| EdxForumUpdate.StreamErrorIsRaised | edx_forum_username_update.py:42-46 | the generator can only end early with an exception from the forum client |
| EdxForumUpdate.UpdateRecordUsername | edx_forum_username_update.py:99-125 | one record's `try` yields the decision and requests of the specification |
| EdxForumUpdate.RecordOutcomeFacts | edx_forum_username_update.py:99-125 | a record is `updated` exactly when its user exists, the forum user rename is confirmed, every thread and comment rename is confirmed and no fetch raises. Its count is then the number of such items, with one request for the user plus one per item. A user rename answered with another name files it under `failed` with the `UpdateFailedException` text |
| EdxForumUpdate.Decisions | edx_forum_username_update.py:96-125 | one decision per record |
| EdxForumUpdate.RecordStep | edx_forum_username_update.py:96-125 | filing record `i` appends its decision to the list of its kind and its requests to the log |
| EdxForumUpdate.PerformUsernameUpdates | edx_forum_username_update.py:92-129 | the step equals its specification: it raises at the first unreadable record or a non-iterable list, and otherwise returns the `updated` and `failed` decisions in record order, together with exactly the requests sent |
| EdxForumUpdate.DecisionsPartition | edx_forum_username_update.py:115-125 | every record lands in exactly one of the two lists, and the sizes add up to the number of records |
| EdxUpdate.DecisionToJson | edx_username_update.py:31-41 | an `updated` or `not_found` entry is the input record; a `failed` entry is a dict of exactly the two names and the exception, readable as a record with those names |
| EdxUpdate.StepResult | edx_username_update.py:17-46 | the step raises exactly when its outcome does, with that error; otherwise the dictionary has exactly the lists `updated`, `failed` and `not_found`, holding together one entry per record, and the `updated` and `not_found` entries are input records |
| EdxUpdate.FiledEntriesAreInputs | edx_username_update.py:37-41 | the `updated` and `not_found` entries of the dictionary are input records |
| EdxUpdate.DecisionsCount | edx_username_update.py:22-41 | the three lists together are as long as the records |
| EdxForumUpdate.DecisionToJson | edx_forum_username_update.py:115-125 | either entry is readable as a record with the two names; an `updated` entry holds exactly the names and `updated_item_count`, a `failed` entry exactly the names and `exception` |
| EdxForumUpdate.StepResult | edx_forum_username_update.py:92-129 | the step raises exactly when its outcome does, with that error; otherwise the dictionary has exactly the lists `updated` and `failed`, holding together one entry per record |
| EdxForumUpdate.DecisionsCount | edx_forum_username_update.py:96-125 | the two lists together are as long as the records |
| EdxUpdate.Decisions | edx_username_update.py:22-41 | one decision per record |
| EdxUpdate.BucketsOfAppend | edx_username_update.py:31-41 | filing one more decision appends it to the one list its kind selects |
| Seqs.FilterMembers | xpro_username_update.py:83-88 | an element is in a result list exactly when it is in the input and passes that list's test |
| Seqs.FilterConcat | edx_forum_username_update.py:42-55 | selection distributes over concatenation |
| Seqs.FilterPartition3 | edx_username_update.py:31-41 | three exclusive, exhaustive tests split a sequence into three lists whose multiset union is the sequence |
| Seqs.FilterKeySetSize | xpro_specific_username_update.py:28-30 | when keys are distinct, the selected elements have exactly as many distinct keys as there are of them |
| Seqs.KeySetSize | xpro_specific_username_update.py:29-31 | a list with no repeated key has as many distinct keys as elements |
| Seqs.FilterNever | edx_forum_username_update.py:115-125 | a test that nothing passes selects nothing, so a two-way split is a three-way split with an empty third list |
| Seqs.Map | edx_forum_username_update.py:34-38 | a list comprehension has one result per element, each the function applied to that element |

## Left out

- I/O: the scripts' final `sys.stdout.write` and the storage write in `write_json_file` are not
  modelled. `WriteResultFile` returns the path under which the file would be written.
- The storage backend's renaming of a file when its name is already taken is not modelled;
  `WriteResultFile` returns the requested name.
- `ContentFile` and UTF-8 encoding are not modelled.
- `json.loads` is the oracle `loads`, and `json.dumps` is not modelled. `JObject` is a map, so
  key order is not modelled. JSON numbers are integers, so floats are left out.
- The clock: `runDate` (`now.isoformat()`) and `stamp` (`strftime("%Y%m%d_%H%M%S")`) are inputs.
- The environment is read once into `Config` with `UpdateLib.LoadConfig`, as the module does at
  import time.
- `input_filename_base` is kept in the settings. No code of the repository reads it.
- Django's ORM is not modelled. Query order (`order_by("created_on")`, table order) is the order
  of a sequence.
- `usernameify`, `find_available_username` and `is_duplicate_username_error` are oracles.
- `user.save()` raising anything other than `IntegrityError` aborts the real script and is left
  out.
- `validate_username`, the `transaction.atomic` updates and the forum client are oracles. A raise
  inside the transaction is modelled as committing nothing.
- The edX step's `validate`, `updateUsers` and `updateUids` oracles are indexed by record
  position. For this reason the model does not say the rename is by `old_username`.
- `CourseEnrollment.enrollments_for_user` is taken not to raise.
- Forum responses are typed `Item` trees. A thread or reply missing `id`, `user_id` or `children`
  would raise in the real script, and that is not modelled.
- The forum URL builders (`url_with_id`, `url_for_comments`) are oracle functions.
- The forum generator is lazy; the model evaluates it eagerly as the stream of items yielded
  before it ends (`ForumThreads.Stream`). The two agree because fetching threads changes nothing
  and the consumer handles items in stream order. The only difference is that the model
  computes the stream past the item whose rename fails, and it does not use those items.
- The forum walk aliases `children_to_scan` to the thread's own `children` list, so its `pop(0)`
  empties that list in the thread dict the generator already yielded. `ForumThreads.ScanThread`
  walks a copy and leaves the thread unchanged. No reader sees the difference: the consumer reads
  only `id` and `type`, before the generator resumes.
- Py.ErrorText: `str()` of a non-string new username inside `UpdateFailedException`'s message is
  rendered as `<non-string value>` rather than Python's `repr`-like text.
- Py.Contains: the interpreter's exact `TypeError` and `KeyError` wording is not modelled; each
  error carries a short reason instead.
- `ImproperlyConfigured` messages are not modelled. The error carries its data instead (the
  missing names as a set, the three paths, the variable names), so the order in which Python
  prints a set is not modelled.
- The xPro specific step takes a `Check` parameter. `CountCheck` runs the selection as written,
  and `MissingCheck` runs the corrected one of "## Findings".

## Findings

| source | as written | input that shows it | evidently intended | confidence | as-written member | corrected member |
|---|---|---|---|---|---|---|
| xpro_specific_username_update.py:27-34 | The check compares the number of rows found with the number of names in the setting. | `USERNAMES_TO_REGENERATE=alice,alice` with user `alice` present. The query finds one row against two names, so the step raises `ImproperlyConfigured`, and the error message lists no missing username. | Raise exactly when some requested name has no user, and list those names. | not executed | XproSpecificUpdate.UsersWithSpecifiedUsernamesAsWritten (shown by XproSpecificUpdate.RepeatedNameRaisesWithNothingMissing, XproSpecificUpdate.AliceTwice and, for the whole script, XproSpecificUpdate.AliceTwiceScriptFails) | XproSpecificUpdate.UsersWithSpecifiedUsernames, run by the step as `MissingCheck` (it agrees with the check as written when no name repeats and usernames are unique: XproSpecificUpdate.AsWrittenAgreesWithoutRepeats) |
