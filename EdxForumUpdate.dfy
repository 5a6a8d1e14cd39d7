/** The forum step: for each record of the edX step's `updated` list, find the renamed user,
    rename the forum user, then rename every thread and comment the user wrote in the courses
    they are actively enrolled in; file the record under `updated` (with the number of items
    renamed) or `failed` (with the exception).

    The database, the forum and its URL builders are oracles: `findUser(i)` is the forum id of
    the user named by record `i`'s new name (or the exception when there is none),
    `enrollments(i)` that user's enrollments, `threads(i, course)` the threads found and
    retrieved for a course, `userResponse(i)` the answer to the user rename, and
    `itemResponse(i, k)` the answer to the rename of the `k`-th yielded item. */
module EdxForumUpdate {
  import opened Py
  import opened StepRecords
  import opened ForumThreads
  import Seqs
  import UpdateLib

  const CommentType := "comment"
  const ThreadType := "thread"

  datatype Enrollment = Enrollment(courseId: string, isActive: Json)

  datatype Forum = Forum(
    findUser: nat -> Call<Json>,
    enrollments: nat -> seq<Enrollment>,
    threads: (nat, string) -> Call<seq<Item>>,
    userUrl: Json -> string,
    threadUrl: Json -> string,
    commentUrl: Json -> string,
    userResponse: nat -> Call<Json>,
    itemResponse: (nat, nat) -> Call<Json>)

  /** A `PUT` of `{"username": newUsername}` to a forum URL. */
  datatype Put = Put(url: string, newUsername: Json)

  predicate IsActive(e: Enrollment) {
    e.isActive == JBool(true)
  }

  function CourseIdOf(e: Enrollment): string {
    e.courseId
  }

  /** `get_enrolled_course_ids`: the course ids of the enrollments whose `is_active is True`, in
      enrollment order. */
  function EnrolledCourseIds(enrollments: seq<Enrollment>): (r: seq<string>)
    ensures r == Seqs.Map(Seqs.Filter(enrollments, IsActive), CourseIdOf)
    ensures forall c :: c in r <==> exists e :: e in enrollments && IsActive(e) && e.courseId == c
  {
    var active := Seqs.Filter(enrollments, IsActive);
    Seqs.FilterMembersAll(enrollments, IsActive);
    assert forall c :: c in Seqs.Map(active, CourseIdOf) <==> exists e :: e in active && e.courseId == c
    by {
      forall c | c in Seqs.Map(active, CourseIdOf) ensures exists e :: e in active && e.courseId == c {
        var k :| 0 <= k < |active| && Seqs.Map(active, CourseIdOf)[k] == c;
        assert active[k] in active;
      }
      forall c | exists e :: e in active && e.courseId == c ensures c in Seqs.Map(active, CourseIdOf) {
        var e :| e in active && e.courseId == c;
        var k :| 0 <= k < |active| && active[k] == e;
        assert Seqs.Map(active, CourseIdOf)[k] == c;
      }
    }
    Seqs.Map(active, CourseIdOf)
  }

  /** The check after each rename request: it raises `UpdateFailedException` when the answer's
      `username` differs from the requested name, and raises as `response["username"]` does
      when there is no such field. */
  function CheckUpdateResponse(url: string, response: Json, newUsername: Json): (r: Option<PyError>)
    ensures r.None? <==> response.JObject? && "username" in response.fields
                         && response.fields["username"] == newUsername
    ensures response.JObject? && "username" in response.fields && response.fields["username"] != newUsername
            ==> r == Some(UpdateFailed(url, newUsername))
    ensures r.Some? ==> Recordable(r.value)
  {
    match Subscript(response, "username")
    case Err(e) => Some(e)
    case Ok(answered) => if answered != newUsername then Some(UpdateFailed(url, newUsername)) else None
  }

  /** The exception a rename request raises: the call's own, or the check's. */
  function UpdateError(url: string, response: Call<Json>, newUsername: Json): (r: Option<PyError>)
    ensures r.Some? ==> Recordable(r.value)
  {
    match response
    case Threw(message) => Some(Raised(message))
    case Returned(answer) => CheckUpdateResponse(url, answer, newUsername)
  }

  /** `str(authored_item.get("type")) == THREAD_TYPE` and the same for comments: only the
      string values themselves stringify to these names. */
  predicate IsThread(item: Item) {
    item.kind == Some(JString(ThreadType))
  }

  predicate IsComment(item: Item) {
    item.kind == Some(JString(CommentType))
  }

  predicate Updatable(item: Item) {
    IsThread(item) || IsComment(item)
  }

  /** `update_thread_username` targets the thread's URL, `update_comment_username` the comment's. */
  function ItemUrl(forum: Forum, item: Item): string {
    if IsThread(item) then forum.threadUrl(item.id) else forum.commentUrl(item.id)
  }

  function ItemErrorAt(forum: Forum, i: nat, items: seq<Item>, k: nat, newUsername: Json): (r: Option<PyError>)
    requires k < |items|
    ensures r.Some? ==> Recordable(r.value)
    ensures !Updatable(items[k]) ==> r.None?
    ensures Updatable(items[k]) ==> r == UpdateError(ItemUrl(forum, items[k]), forum.itemResponse(i, k), newUsername)
  {
    if Updatable(items[k]) then UpdateError(ItemUrl(forum, items[k]), forum.itemResponse(i, k), newUsername)
    else None
  }

  /** The position of the first yielded item whose rename raises, or the number of items. */
  function FirstFailedItem(forum: Forum, i: nat, items: seq<Item>, newUsername: Json, from: nat): (k: nat)
    requires from <= |items|
    ensures from <= k <= |items|
    ensures forall j :: from <= j < k ==> ItemErrorAt(forum, i, items, j, newUsername).None?
    ensures k < |items| ==> ItemErrorAt(forum, i, items, k, newUsername).Some?
    decreases |items| - from
  {
    if from == |items| then from
    else if ItemErrorAt(forum, i, items, from, newUsername).Some? then from
    else FirstFailedItem(forum, i, items, newUsername, from + 1)
  }

  lemma {:induction false} FirstFailedItemIs(forum: Forum, i: nat, items: seq<Item>, newUsername: Json, from: nat, k: nat)
    requires from <= k <= |items|
    requires forall j :: from <= j < k ==> ItemErrorAt(forum, i, items, j, newUsername).None?
    requires k < |items| ==> ItemErrorAt(forum, i, items, k, newUsername).Some?
    ensures FirstFailedItem(forum, i, items, newUsername, from) == k
    decreases k - from
  {
    if from < k {
      FirstFailedItemIs(forum, i, items, newUsername, from + 1, k);
    }
  }

  /** The rename requests sent for a list of yielded items: one per thread or comment, in order. */
  function PutsFor(forum: Forum, items: seq<Item>, newUsername: Json): seq<Put>
    decreases |items|
  {
    if items == [] then []
    else
      var last := items[|items| - 1];
      PutsFor(forum, items[..|items| - 1], newUsername)
        + (if Updatable(last) then [Put(ItemUrl(forum, last), newUsername)] else [])
  }

  /** One request per thread or comment, none for other items. */
  lemma {:induction false} PutsCountUpdatable(forum: Forum, items: seq<Item>, newUsername: Json)
    ensures |PutsFor(forum, items, newUsername)| == |Seqs.Filter(items, Updatable)|
    decreases |items|
  {
    if items != [] {
      PutsCountUpdatable(forum, items[..|items| - 1], newUsername);
    }
  }

  /** How renaming the yielded items ends: the count of renamed items, or the first exception,
      with the requests sent (the failing one included). */
  datatype ItemsOutcome = ItemsOutcome(count: nat, error: Option<PyError>, puts: seq<Put>)

  function ItemsResult(forum: Forum, i: nat, items: seq<Item>, newUsername: Json): (r: ItemsOutcome)
    ensures r.error.Some? ==> Recordable(r.error.value)
  {
    var k := FirstFailedItem(forum, i, items, newUsername, 0);
    if k < |items| then
      ItemsOutcome(|Seqs.Filter(items[..k], Updatable)|, ItemErrorAt(forum, i, items, k, newUsername),
                   PutsFor(forum, items[..k + 1], newUsername))
    else ItemsOutcome(|Seqs.Filter(items, Updatable)|, None, PutsFor(forum, items, newUsername))
  }

  /** Handling item `k` extends the count and the requests by that item's share. */
  lemma ItemStep(forum: Forum, items: seq<Item>, k: nat, newUsername: Json)
    requires k < |items|
    ensures |Seqs.Filter(items[..k + 1], Updatable)|
      == |Seqs.Filter(items[..k], Updatable)| + (if Updatable(items[k]) then 1 else 0)
    ensures PutsFor(forum, items[..k + 1], newUsername)
      == PutsFor(forum, items[..k], newUsername)
         + (if Updatable(items[k]) then [Put(ItemUrl(forum, items[k]), newUsername)] else [])
  {
    assert items[..k + 1] == items[..k] + [items[k]];
    assert items[..k + 1][..k] == items[..k];
    Seqs.FilterAppend(items[..k], items[k], Updatable);
  }

  /** The `for authored_item in authored_items` loop with its `update_count`. */
  method UpdateAuthoredItems(forum: Forum, i: nat, items: seq<Item>, newUsername: Json)
    returns (updateCount: nat, error: Option<PyError>, puts: seq<Put>)
    ensures ItemsOutcome(updateCount, error, puts) == ItemsResult(forum, i, items, newUsername)
  {
    updateCount, error, puts := 0, None, [];
    for k := 0 to |items|
      invariant forall j :: 0 <= j < k ==> ItemErrorAt(forum, i, items, j, newUsername).None?
      invariant updateCount == |Seqs.Filter(items[..k], Updatable)|
      invariant puts == PutsFor(forum, items[..k], newUsername)
    {
      ItemStep(forum, items, k, newUsername);
      var item := items[k];
      if item.kind == Some(JString(ThreadType)) {
        var url := forum.threadUrl(item.id);
        puts := puts + [Put(url, newUsername)];
        var failure := UpdateError(url, forum.itemResponse(i, k), newUsername);
        if failure.Some? {
          FirstFailedItemIs(forum, i, items, newUsername, 0, k);
          return updateCount, failure, puts;
        }
        updateCount := updateCount + 1;
      } else if item.kind == Some(JString(CommentType)) {
        var url := forum.commentUrl(item.id);
        puts := puts + [Put(url, newUsername)];
        var failure := UpdateError(url, forum.itemResponse(i, k), newUsername);
        if failure.Some? {
          FirstFailedItemIs(forum, i, items, newUsername, 0, k);
          return updateCount, failure, puts;
        }
        updateCount := updateCount + 1;
      }
    }
    assert items[..|items|] == items;
    FirstFailedItemIs(forum, i, items, newUsername, 0, |items|);
  }

  /** When every rename succeeds, the count is the number of yielded threads and comments, and
      exactly one request was sent for each of them. */
  lemma CountIsUpdatableItems(forum: Forum, i: nat, items: seq<Item>, newUsername: Json)
    ensures var r := ItemsResult(forum, i, items, newUsername);
      r.error.None? ==>
        r.count == |Seqs.Filter(items, Updatable)| && |r.puts| == r.count
        && r.puts == PutsFor(forum, items, newUsername)
  {
    PutsCountUpdatable(forum, items, newUsername);
  }

  /** Where a record is filed. */
  datatype Decision =
    | Updated(oldUsername: Json, newUsername: Json, updatedItemCount: nat)
    | Failed(oldUsername: Json, newUsername: Json, exception: string)

  /** The authored items the walk yields for record `i`'s user. */
  function StreamFor(forum: Forum, i: nat, uid: Json): Stream {
    StreamOf(uid, EnrolledCourseIds(forum.enrollments(i)), (course: string) => forum.threads(i, course))
  }

  /** How record `i` is filed, and the rename requests it sends. */
  function RecordOutcome(forum: Forum, i: nat, oldUsername: Json, newUsername: Json): (Decision, seq<Put>) {
    match forum.findUser(i)
    case Threw(message) => (Failed(oldUsername, newUsername, message), [])
    case Returned(uid) =>
      var userUrl := forum.userUrl(uid);
      var userFailure := UpdateError(userUrl, forum.userResponse(i), newUsername);
      if userFailure.Some? then
        (Failed(oldUsername, newUsername, ErrorText(userFailure.value)), [Put(userUrl, newUsername)])
      else
        var s := StreamFor(forum, i, uid);
        var r := ItemsResult(forum, i, s.items, newUsername);
        var puts := [Put(userUrl, newUsername)] + r.puts;
        if r.error.Some? then (Failed(oldUsername, newUsername, ErrorText(r.error.value)), puts)
        else if s.error.Some? then
          assert s.error.value.Raised? by {
            StreamErrorIsRaised(uid, EnrolledCourseIds(forum.enrollments(i)), (course: string) => forum.threads(i, course));
          }
          (Failed(oldUsername, newUsername, ErrorText(s.error.value)), puts)
        else (Updated(oldUsername, newUsername, r.count), puts)
  }

  lemma {:induction false} StreamErrorIsRaised(uid: Json, courseIds: seq<string>, fetch: string -> Call<seq<Item>>)
    ensures StreamOf(uid, courseIds, fetch).error.Some? ==> StreamOf(uid, courseIds, fetch).error.value.Raised?
    decreases |courseIds|
  {
    if courseIds != [] {
      StreamErrorIsRaised(uid, courseIds[..|courseIds| - 1], fetch);
    }
  }

  /** The body of the `try` for one record. */
  method UpdateRecordUsername(forum: Forum, i: nat, oldUsername: Json, newUsername: Json)
    returns (d: Decision, puts: seq<Put>)
    ensures (d, puts) == RecordOutcome(forum, i, oldUsername, newUsername)
  {
    puts := [];
    match forum.findUser(i) {
      case Threw(message) =>
        return Failed(oldUsername, newUsername, message), puts;
      case Returned(uid) =>
        var userUrl := forum.userUrl(uid);
        puts := [Put(userUrl, newUsername)];
        var userFailure := UpdateError(userUrl, forum.userResponse(i), newUsername);
        if userFailure.Some? {
          return Failed(oldUsername, newUsername, ErrorText(userFailure.value)), puts;
        }
        var enrolledCourseIds := EnrolledCourseIds(forum.enrollments(i));
        var authoredItems := AuthoredThreadsAndComments(uid, enrolledCourseIds,
          (course: string) => forum.threads(i, course));
        var updateCount, itemFailure, itemPuts := UpdateAuthoredItems(forum, i, authoredItems.items, newUsername);
        puts := puts + itemPuts;
        if itemFailure.Some? {
          return Failed(oldUsername, newUsername, ErrorText(itemFailure.value)), puts;
        }
        if authoredItems.error.Some? {
          StreamErrorIsRaised(uid, enrolledCourseIds, (course: string) => forum.threads(i, course));
          return Failed(oldUsername, newUsername, ErrorText(authoredItems.error.value)), puts;
        }
        return Updated(oldUsername, newUsername, updateCount), puts;
    }
  }

  /** A record is `updated` exactly when its user exists, the forum user's rename is confirmed,
      every yielded thread and comment rename is confirmed and no thread fetch raises; its count
      is then the number of threads and comments yielded, and one request went to the forum user
      plus one per such item. A rename answered with another name fails the record with
      `UpdateFailedException`. */
  lemma RecordOutcomeFacts(forum: Forum, i: nat, oldUsername: Json, newUsername: Json)
    ensures var outcome := RecordOutcome(forum, i, oldUsername, newUsername);
      var d, puts := outcome.0, outcome.1;
      && (d.Updated? <==>
            forum.findUser(i).Returned?
            && UpdateError(forum.userUrl(forum.findUser(i).value), forum.userResponse(i), newUsername).None?
            && ItemsResult(forum, i, StreamFor(forum, i, forum.findUser(i).value).items, newUsername).error.None?
            && StreamFor(forum, i, forum.findUser(i).value).error.None?)
      && (d.Updated? ==>
            var items := StreamFor(forum, i, forum.findUser(i).value).items;
            d.updatedItemCount == |Seqs.Filter(items, Updatable)| && |puts| == 1 + d.updatedItemCount)
      && (forum.findUser(i).Returned? && forum.userResponse(i).Returned? ==>
            var answer := forum.userResponse(i).value;
            var url := forum.userUrl(forum.findUser(i).value);
            answer.JObject? && "username" in answer.fields && answer.fields["username"] != newUsername ==>
              d == Failed(oldUsername, newUsername, ErrorText(UpdateFailed(url, newUsername))))
  {
    if forum.findUser(i).Returned? {
      var uid := forum.findUser(i).value;
      CountIsUpdatableItems(forum, i, StreamFor(forum, i, uid).items, newUsername);
    }
  }

  predicate IsUpdated(d: Decision) {
    d.Updated?
  }

  predicate IsFailed(d: Decision) {
    d.Failed?
  }

  datatype Buckets = Buckets(updated: seq<Decision>, failed: seq<Decision>)

  function BucketsOf(ds: seq<Decision>): Buckets {
    Buckets(Seqs.Filter(ds, IsUpdated), Seqs.Filter(ds, IsFailed))
  }

  function Decisions(forum: Forum, records: seq<Json>, n: nat): (r: seq<Decision>)
    requires n <= |records|
    requires forall j :: 0 <= j < n ==> Names(records[j]).Ok?
    ensures |r| == n
  {
    seq(n, i requires 0 <= i < n =>
      RecordOutcome(forum, i, Names(records[i]).value.oldUsername, Names(records[i]).value.newUsername).0)
  }

  /** The requests sent for the first `n` records, in order. */
  function PutsBefore(forum: Forum, records: seq<Json>, n: nat): seq<Put>
    requires n <= |records|
    requires forall j :: 0 <= j < n ==> Names(records[j]).Ok?
  {
    if n == 0 then []
    else
      var names := Names(records[n - 1]).value;
      PutsBefore(forum, records, n - 1) + RecordOutcome(forum, n - 1, names.oldUsername, names.newUsername).1
  }

  /** The outcome of the step: the two lists, or the exception that aborts it at the first
      unreadable record. */
  function StepOutcome(forum: Forum, updateList: Json): Result<Buckets> {
    var records :- Records(updateList);
    var k := FirstUnreadable(records);
    if k < |records| then Err(Names(records[k]).error)
    else Ok(BucketsOf(Decisions(forum, records, |records|)))
  }

  /** The requests sent before the step ends, normally or by an exception. */
  function StepPuts(forum: Forum, updateList: Json): seq<Put> {
    match Records(updateList)
    case Err(_) => []
    case Ok(records) => PutsBefore(forum, records, FirstUnreadable(records))
  }

  /** Filing record `i` appends its decision to one list and its requests to the log. */
  lemma RecordStep(forum: Forum, records: seq<Json>, i: nat)
    requires i < |records|
    requires forall j :: 0 <= j <= i ==> Names(records[j]).Ok?
    ensures var names := Names(records[i]).value;
      var outcome := RecordOutcome(forum, i, names.oldUsername, names.newUsername);
      var d, puts := outcome.0, outcome.1;
      var b := BucketsOf(Decisions(forum, records, i));
      && BucketsOf(Decisions(forum, records, i + 1))
           == (if d.Updated? then b.(updated := b.updated + [d]) else b.(failed := b.failed + [d]))
      && PutsBefore(forum, records, i + 1) == PutsBefore(forum, records, i) + puts
  {
    var names := Names(records[i]).value;
    var d := RecordOutcome(forum, i, names.oldUsername, names.newUsername).0;
    var ds := Decisions(forum, records, i);
    assert Decisions(forum, records, i + 1) == ds + [d];
    Seqs.FilterAppend(ds, d, IsUpdated);
    Seqs.FilterAppend(ds, d, IsFailed);
  }

  /** `EdxUsernameUpdater.perform_username_updates` of the forum step. */
  method PerformUsernameUpdates(forum: Forum, updateList: Json) returns (r: Result<Buckets>, puts: seq<Put>)
    ensures r == StepOutcome(forum, updateList)
    ensures puts == StepPuts(forum, updateList)
  {
    puts := [];
    var recordsOrError := Records(updateList);
    if recordsOrError.Err? {
      return Err(recordsOrError.error), puts;
    }
    var records := recordsOrError.value;
    ghost var k := FirstUnreadable(records);
    var updated, failed := [], [];
    for i := 0 to |records|
      invariant i <= k
      invariant forall j :: 0 <= j < i ==> Names(records[j]).Ok?
      invariant Buckets(updated, failed) == BucketsOf(Decisions(forum, records, i))
      invariant puts == PutsBefore(forum, records, i)
    {
      var names := Names(records[i]);
      if names.Err? {
        FirstUnreadableIs(records, i);
        return Err(names.error), puts;
      }
      assert i < k;
      RecordStep(forum, records, i);
      var d, recordPuts := UpdateRecordUsername(forum, i, names.value.oldUsername, names.value.newUsername);
      if d.Updated? {
        updated := updated + [d];
      } else {
        failed := failed + [d];
      }
      puts := puts + recordPuts;
    }
    FirstUnreadableIs(records, |records|);
    return Ok(Buckets(updated, failed)), puts;
  }

  /** Every record lands in exactly one of the two lists; their sizes add up to the number of
      records. */
  lemma DecisionsPartition(forum: Forum, records: seq<Json>)
    requires forall j :: 0 <= j < |records| ==> Names(records[j]).Ok?
    ensures var ds := Decisions(forum, records, |records|);
      var b := BucketsOf(ds);
      && multiset(b.updated) + multiset(b.failed) == multiset(ds)
      && |b.updated| + |b.failed| == |records|
  {
    var ds := Decisions(forum, records, |records|);
    assert forall k :: 0 <= k < |ds| ==> Seqs.ExactlyOne(ds[k], IsUpdated, IsFailed, Seqs.Never);
    Seqs.FilterPartition3(ds, IsUpdated, IsFailed, Seqs.Never);
    Seqs.FilterPartition3Size(ds, IsUpdated, IsFailed, Seqs.Never);
    Seqs.FilterNever(ds);
  }

  /** Either entry is a record with the two names, and the count of updated items or the
      exception. */
  function DecisionToJson(d: Decision): (r: Json)
    ensures r.JObject? && Names(r) == Ok(Rename(d.oldUsername, d.newUsername))
    ensures d.Updated? ==>
      r.fields.Keys == {"old_username", "new_username", "updated_item_count"}
      && r.fields["updated_item_count"] == JNumber(d.updatedItemCount)
    ensures d.Failed? ==>
      r.fields.Keys == {"old_username", "new_username", "exception"} && r.fields["exception"] == JString(d.exception)
  {
    match d
    case Updated(o, n, c) => JObject(map["old_username" := o, "new_username" := n, "updated_item_count" := JNumber(c)])
    case Failed(o, n, x) => JObject(map["old_username" := o, "new_username" := n, "exception" := JString(x)])
  }

  /** The dictionary `perform_username_updates` returns, or the exception it raises: it fails
      exactly when the step's outcome does, and otherwise holds the two lists, one entry per
      input record. */
  function StepResult(forum: Forum, updateList: Json): (r: Result<UpdateLib.StepDict>)
    ensures var outcome := StepOutcome(forum, updateList);
      && (r.Ok? <==> outcome.Ok?)
      && (r.Err? ==> r.error == outcome.error)
    ensures r.Ok? ==>
      && Records(updateList).Ok?
      && r.value.Keys == {"updated", "failed"}
      && r.value["updated"].JArray? && r.value["failed"].JArray?
      && |r.value["updated"].items| + |r.value["failed"].items| == |Records(updateList).value|
  {
    var b :- StepOutcome(forum, updateList);
    DecisionsCount(forum, Records(updateList).value);
    var updated, failed := Seqs.Map(b.updated, DecisionToJson), Seqs.Map(b.failed, DecisionToJson);
    var d: UpdateLib.StepDict := map["updated" := JArray(updated), "failed" := JArray(failed)];
    assert d["updated"].items == updated && d["failed"].items == failed;
    Ok(d)
  }

  /** The two lists together are as long as the records. */
  lemma DecisionsCount(forum: Forum, records: seq<Json>)
    requires forall j :: 0 <= j < |records| ==> Names(records[j]).Ok?
    ensures var b := BucketsOf(Decisions(forum, records, |records|)); |b.updated| + |b.failed| == |records|
  {
    DecisionsPartition(forum, records);
  }
}
