/** The forum's discussion threads and the walk that collects what one user wrote in them.

    A thread, as `Thread.retrieve(with_responses=True, recursive=True)` returns it, is a tree:
    every item has an id, the id of its author, an optional `type`, and the list of its replies.
    The walk visits a thread's replies breadth first through a FIFO list. */
module ForumThreads {
  import opened Py
  import opened StepRecords
  import Seqs

  datatype Item = Item(id: Json, userId: Json, kind: Option<Json>, children: seq<Item>)

  /** The number of items in a tree and in a list of trees. */
  function Size(t: Item): nat
    decreases t
  {
    1 + ForestSize(t.children)
  }

  function ForestSize(f: seq<Item>): nat
    decreases f
  {
    if f == [] then 0 else Size(f[0]) + ForestSize(f[1..])
  }

  lemma {:induction false} ForestSizeAppend(a: seq<Item>, b: seq<Item>)
    ensures ForestSize(a + b) == ForestSize(a) + ForestSize(b)
    decreases |a|
  {
    if a == [] {
      assert a + b == b;
    } else {
      assert (a + b)[0] == a[0];
      assert (a + b)[1..] == a[1..] + b;
      ForestSizeAppend(a[1..], b);
    }
  }

  /** Popping the head of a non-empty queue and appending its replies shrinks the work left. */
  lemma PopExtendShrinks(q: seq<Item>)
    requires q != []
    ensures ForestSize(q[1..] + q[0].children) < ForestSize(q)
  {
    ForestSizeAppend(q[1..], q[0].children);
  }

  /** The order in which a FIFO walk starting from the queue `q` visits items. */
  function Bfs(q: seq<Item>): seq<Item>
    decreases ForestSize(q)
  {
    if q == [] then []
    else
      PopExtendShrinks(q);
      [q[0]] + Bfs(q[1..] + q[0].children)
  }

  /** All items of a list of trees, each tree in preorder: the reference list of descendants. */
  function Nodes(f: seq<Item>): seq<Item>
    decreases f
  {
    if f == [] then []
    else [f[0]] + Nodes(f[0].children) + Nodes(f[1..])
  }

  lemma {:induction false} NodesAppend(a: seq<Item>, b: seq<Item>)
    ensures Nodes(a + b) == Nodes(a) + Nodes(b)
    decreases |a|
  {
    if a == [] {
      assert a + b == b;
    } else {
      assert (a + b)[0] == a[0];
      assert (a + b)[1..] == a[1..] + b;
      NodesAppend(a[1..], b);
    }
  }

  /** The replies of every item of `f`, in order: the next level down. */
  function AllChildren(f: seq<Item>): seq<Item>
    decreases |f|
  {
    if f == [] then [] else f[0].children + AllChildren(f[1..])
  }

  lemma {:induction false} AllChildrenSize(f: seq<Item>)
    ensures ForestSize(AllChildren(f)) + |f| == ForestSize(f)
    decreases |f|
  {
    if f != [] {
      AllChildrenSize(f[1..]);
      ForestSizeAppend(f[0].children, AllChildren(f[1..]));
    }
  }

  /** The items of `f` level by level: `f` itself, then all of their replies, and so on. */
  function LevelOrder(f: seq<Item>): seq<Item>
    decreases ForestSize(f)
  {
    if f == [] then []
    else
      AllChildrenSize(f);
      f + LevelOrder(AllChildren(f))
  }

  /** A FIFO walk finishes the queue it starts with before it reaches their replies. */
  lemma {:induction false} BfsConcat(q: seq<Item>, r: seq<Item>)
    ensures Bfs(q + r) == q + Bfs(r + AllChildren(q))
    decreases |q|
  {
    if q == [] {
      assert [] + r == r;
      assert r + AllChildren([]) == r;
    } else {
      var x := q[0];
      assert (q + r)[0] == x;
      assert (q + r)[1..] + x.children == q[1..] + (r + x.children);
      BfsConcat(q[1..], r + x.children);
      assert (r + x.children) + AllChildren(q[1..]) == r + AllChildren(q);
      assert [x] + q[1..] == q;
    }
  }

  /** The FIFO walk lists items in breadth-first (level) order. */
  lemma {:induction false} BfsIsLevelOrder(f: seq<Item>)
    ensures Bfs(f) == LevelOrder(f)
    decreases ForestSize(f)
  {
    if f != [] {
      BfsConcat(f, []);
      assert f + [] == f;
      assert [] + AllChildren(f) == AllChildren(f);
      AllChildrenSize(f);
      BfsIsLevelOrder(AllChildren(f));
    }
  }

  /** Whatever the test, the walk selects the same items, with the same multiplicities, as the
      preorder list does. */
  lemma {:induction false} BfsSelectsLikeNodes(q: seq<Item>, p: Item -> bool)
    ensures multiset(Seqs.Filter(Bfs(q), p)) == multiset(Seqs.Filter(Nodes(q), p))
    decreases ForestSize(q)
  {
    if q != [] {
      var x, rest, c := q[0], q[1..], q[0].children;
      PopExtendShrinks(q);
      BfsSelectsLikeNodes(rest + c, p);
      Seqs.FilterConcat([x], Bfs(rest + c), p);
      NodesAppend(rest, c);
      Seqs.FilterConcat(Nodes(rest), Nodes(c), p);
      Seqs.FilterConcat([x] + Nodes(c), Nodes(rest), p);
      Seqs.FilterConcat([x], Nodes(c), p);
    }
  }

  /** The walk visits every descendant exactly once. */
  lemma BfsVisitsEachOnce(q: seq<Item>)
    ensures multiset(Bfs(q)) == multiset(Nodes(q))
  {
    BfsSelectsLikeNodes(q, Seqs.Always);
    Seqs.FilterAlways(Bfs(q));
    Seqs.FilterAlways(Nodes(q));
  }

  function AuthoredBy(uid: Json): Item -> bool {
    (x: Item) => x.userId == uid
  }

  /** What the walk yields for one thread: the thread itself when `uid` wrote it, then the
      items of its reply tree that `uid` wrote, breadth first. */
  function ThreadItems(uid: Json, thread: Item): seq<Item> {
    (if thread.userId == uid then [thread] else []) + Seqs.Filter(Bfs(thread.children), AuthoredBy(uid))
  }

  /** One step of the walk: the head is visited, then the rest of the queue with its replies. */
  lemma ScanStep(uid: Json, q: seq<Item>)
    requires q != []
    ensures ForestSize(q[1..] + q[0].children) < ForestSize(q)
    ensures Seqs.Filter(Bfs(q), AuthoredBy(uid))
      == (if q[0].userId == uid then [q[0]] else []) + Seqs.Filter(Bfs(q[1..] + q[0].children), AuthoredBy(uid))
  {
    PopExtendShrinks(q);
    Seqs.FilterConcat([q[0]], Bfs(q[1..] + q[0].children), AuthoredBy(uid));
    Seqs.FilterSingle(q[0], AuthoredBy(uid));
  }

  /** One thread's walk, with the `children_to_scan` list popped at the front and extended at
      the back. */
  method ScanThread(uid: Json, thread: Item) returns (yielded: seq<Item>)
    ensures yielded == ThreadItems(uid, thread)
  {
    ghost var target := ThreadItems(uid, thread);
    yielded := if thread.userId == uid then [thread] else [];
    var childrenToScan := thread.children;
    while childrenToScan != []
      invariant yielded + Seqs.Filter(Bfs(childrenToScan), AuthoredBy(uid)) == target
      decreases ForestSize(childrenToScan)
    {
      ScanStep(uid, childrenToScan);
      var child := childrenToScan[0];
      childrenToScan := childrenToScan[1..];
      childrenToScan := childrenToScan + child.children;
      if child.userId == uid {
        yielded := yielded + [child];
      }
    }
    assert yielded + [] == yielded;
  }

  /** A thread's walk yields exactly the items of the thread that `uid` wrote, each as often as
      it occurs in the tree. */
  lemma ThreadItemsCount(uid: Json, thread: Item)
    ensures multiset(ThreadItems(uid, thread)) == multiset(Seqs.Filter(Nodes([thread]), AuthoredBy(uid)))
  {
    var p := AuthoredBy(uid);
    var c := thread.children;
    assert Nodes([thread]) == [thread] + Nodes(c) + Nodes([]);
    assert Nodes([thread]) == [thread] + Nodes(c);
    BfsSelectsLikeNodes(c, p);
    Seqs.FilterConcat([thread], Nodes(c), p);
    Seqs.FilterSingle(thread, p);
  }

  /** An item is yielded exactly when it belongs to the thread and `uid` wrote it; the thread
      comes first when `uid` wrote it. */
  lemma ThreadItemsAuthored(uid: Json, thread: Item)
    ensures forall x :: x in ThreadItems(uid, thread) <==> x in Nodes([thread]) && x.userId == uid
    ensures thread.userId == uid ==> ThreadItems(uid, thread)[0] == thread
  {
    var yielded, authored := ThreadItems(uid, thread), Seqs.Filter(Nodes([thread]), AuthoredBy(uid));
    ThreadItemsCount(uid, thread);
    Seqs.FilterMembersAll(Nodes([thread]), AuthoredBy(uid));
    forall x ensures x in yielded <==> x in authored {
      assert x in yielded <==> x in multiset(yielded);
      assert x in authored <==> x in multiset(authored);
    }
  }

  /** What the walk yields for a list of threads, in order. */
  function ItemsOfThreads(uid: Json, threads: seq<Item>): seq<Item>
    decreases |threads|
  {
    if threads == [] then []
    else ItemsOfThreads(uid, threads[..|threads| - 1]) + ThreadItems(uid, threads[|threads| - 1])
  }

  /** The items yielded before the walk ends, and the exception that ends it early, if any. */
  datatype Stream = Stream(items: seq<Item>, error: Option<PyError>)

  /** `get_authored_threads_and_comments(comment_user, course_ids)`: course by course, the threads
      `fetch(course_id)` returns (the search and the retrieval of each thread found), walked in
      order; a fetch that raises ends the walk. */
  function StreamOf(uid: Json, courseIds: seq<string>, fetch: string -> Call<seq<Item>>): Stream
    decreases |courseIds|
  {
    if courseIds == [] then Stream([], None)
    else
      var before := StreamOf(uid, courseIds[..|courseIds| - 1], fetch);
      if before.error.Some? then before
      else
        match fetch(courseIds[|courseIds| - 1])
        case Threw(message) => Stream(before.items, Some(Raised(message)))
        case Returned(threads) => Stream(before.items + ItemsOfThreads(uid, threads), None)
  }

  /** Once a fetch has raised, later courses add nothing. */
  lemma {:induction false} StreamStops(uid: Json, courseIds: seq<string>, fetch: string -> Call<seq<Item>>, n: nat)
    requires n <= |courseIds|
    requires StreamOf(uid, courseIds[..n], fetch).error.Some?
    ensures StreamOf(uid, courseIds, fetch) == StreamOf(uid, courseIds[..n], fetch)
    decreases |courseIds|
  {
    if n < |courseIds| {
      var init := courseIds[..|courseIds| - 1];
      assert init[..n] == courseIds[..n];
      StreamStops(uid, init, fetch, n);
    } else {
      assert courseIds[..n] == courseIds;
    }
  }

  /** The generator's loop over the threads retrieved for one course. */
  method ScanThreads(uid: Json, involvedThreads: seq<Item>) returns (items: seq<Item>)
    ensures items == ItemsOfThreads(uid, involvedThreads)
  {
    items := [];
    for j := 0 to |involvedThreads|
      invariant items == ItemsOfThreads(uid, involvedThreads[..j])
    {
      assert involvedThreads[..j + 1][..j] == involvedThreads[..j];
      var yielded := ScanThread(uid, involvedThreads[j]);
      items := items + yielded;
    }
    assert involvedThreads[..|involvedThreads|] == involvedThreads;
  }

  /** The generator with its loops over courses, over threads and over each thread's replies. */
  method AuthoredThreadsAndComments(uid: Json, courseIds: seq<string>, fetch: string -> Call<seq<Item>>)
    returns (s: Stream)
    ensures s == StreamOf(uid, courseIds, fetch)
  {
    var items: seq<Item> := [];
    for c := 0 to |courseIds|
      invariant StreamOf(uid, courseIds[..c], fetch) == Stream(items, None)
    {
      assert courseIds[..c + 1][..c] == courseIds[..c];
      match fetch(courseIds[c]) {
        case Threw(message) =>
          s := Stream(items, Some(Raised(message)));
          StreamStops(uid, courseIds, fetch, c + 1);
          return;
        case Returned(involvedThreads) =>
          var yielded := ScanThreads(uid, involvedThreads);
          items := items + yielded;
      }
    }
    assert courseIds[..|courseIds|] == courseIds;
    s := Stream(items, None);
  }

  /** Everything the walk yields was written by `uid`. */
  lemma {:induction false} StreamItemsAuthored(uid: Json, courseIds: seq<string>, fetch: string -> Call<seq<Item>>)
    ensures forall x :: x in StreamOf(uid, courseIds, fetch).items ==> x.userId == uid
    decreases |courseIds|
  {
    if courseIds != [] {
      StreamItemsAuthored(uid, courseIds[..|courseIds| - 1], fetch);
      match fetch(courseIds[|courseIds| - 1]) {
        case Threw(_) =>
        case Returned(threads) => ThreadsItemsAuthored(uid, threads);
      }
    }
  }

  lemma {:induction false} ThreadsItemsAuthored(uid: Json, threads: seq<Item>)
    ensures forall x :: x in ItemsOfThreads(uid, threads) ==> x.userId == uid
    decreases |threads|
  {
    if threads != [] {
      ThreadsItemsAuthored(uid, threads[..|threads| - 1]);
      ThreadItemsAuthored(uid, threads[|threads| - 1]);
    }
  }
}
