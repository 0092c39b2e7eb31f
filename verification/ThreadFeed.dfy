/** listComments: a page of roots with their previews, and on the first page the replies whose root is gone. */
module ThreadFeed {
  import opened Prelude
  import opened Comments
  import opened Paging
  import opened CommentListing

  function OrphanThread(row: Comment): Thread {
    Thread(row, [], 0, NoToken, true, false)
  }

  function ShowOrphans(blocked: set<nat>): Comment -> seq<Thread> {
    (row: Comment) => if row.author in blocked then [] else [OrphanThread(row)]
  }

  /** What a root contributes: its thread, or its previewed replies alone when its author is blocked. */
  function ShowRoot(table: seq<Comment>, blocked: set<nat>): Comment -> seq<Thread> {
    (root: Comment) =>
      if root.author in blocked then
          FlatMap(PreviewOf(table, root.id, COMMENT_REPLY_PREVIEW_LIMIT), ShowOrphans(blocked))
      else [ThreadOf(table, root, blocked)]
  }

  predicate IsOrphan(table: seq<Comment>, row: Comment, postId: nat) {
    && row.postId == postId && row.status == Published && row.threadRoot.Some?
    && var root := FindComment(table, row.threadRoot.value); root.Some? && root.value.status != Published
  }

  function OrphansIn(table: seq<Comment>, rows: seq<Comment>, postId: nat): (orphans: seq<Comment>)
    ensures forall row :: row in orphans <==> row in rows && IsOrphan(table, row, postId)
  {
    if rows == [] then []
    else if IsOrphan(table, rows[0], postId) then [rows[0]] + OrphansIn(table, rows[1..], postId)
    else OrphansIn(table, rows[1..], postId)
  }

  /** list_discussion_comment_orphans */
  function Orphans(table: seq<Comment>, postId: nat, limit: nat): seq<Comment> {
    Take(OrderBy(ByScore, OrphansIn(table, table, postId)), Max(1, Min(limit, 50)))
  }

  function FeedOf(db: Db, viewer: Viewer, postId: nat, limit: Option<real>, token: Token): Feed {
    if !PostIsOpen(db, viewer, postId) then Feed([], NoToken)
    else
      var n := NormalizeLimit(limit, DEFAULT_COMMENT_THREAD_LIMIT, MAX_COMMENT_THREAD_LIMIT);
      var page := ReadPage(ByScore, Listed(db.comments, RootsOf(postId)), viewer.valid, token, n);
      Feed(FlatMap(page.rows, ShowRoot(db.comments, viewer.blocked))
           + (if token == NoToken then FlatMap(Orphans(db.comments, postId, n), ShowOrphans(viewer.blocked)) else []),
           page.next)
  }

  // ---------------------------------------------------------------- grouping the previews

  function OfRoot(rows: seq<Comment>, rootId: nat): seq<Comment> {
    if rows == [] then []
    else
      var last := rows[|rows| - 1];
      OfRoot(rows[..|rows| - 1], rootId) + if last.threadRoot == Some(rootId) then [last] else []
  }

  function Grouped(groups: map<nat, seq<Comment>>, rootId: nat): seq<Comment> {
    if rootId in groups then groups[rootId] else []
  }

  method GroupByRoot(replies: seq<Comment>) returns (groups: map<nat, seq<Comment>>)
    ensures forall rootId: nat :: Grouped(groups, rootId) == OfRoot(replies, rootId)
  {
    groups := map[];
    for i := 0 to |replies|
      invariant forall rootId: nat :: Grouped(groups, rootId) == OfRoot(replies[..i], rootId)
    {
      var reply := replies[i];
      assert replies[..i + 1][..i] == replies[..i];
      if reply.threadRoot.Some? {
        var current := Grouped(groups, reply.threadRoot.value);
        groups := groups[reply.threadRoot.value := current + [reply]];
      }
    }
    assert replies[..|replies|] == replies;
  }

  lemma {:induction false} OfRootSplits(a: seq<Comment>, b: seq<Comment>, rootId: nat)
    ensures OfRoot(a + b, rootId) == OfRoot(a, rootId) + OfRoot(b, rootId)
  {
    if b == [] {
      assert a + b == a;
    } else {
      var n := |b| - 1;
      OfRootSplits(a, b[..n], rootId);
      assert (a + b)[..|a| + n] == a + b[..n];
    }
  }

  lemma {:induction false} OfRootOfOne(rows: seq<Comment>, owner: nat, rootId: nat)
    requires forall k :: 0 <= k < |rows| ==> rows[k].threadRoot == Some(owner)
    ensures OfRoot(rows, rootId) == if owner == rootId then rows else []
  {
    if rows != [] {
      OfRootOfOne(rows[..|rows| - 1], owner, rootId);
      assert rows == rows[..|rows| - 1] + [rows[|rows| - 1]];
    }
  }

  lemma PreviewIsOfRoot(table: seq<Comment>, owner: nat, perRootLimit: nat, rootId: nat)
    requires DistinctIds(table)
    ensures OfRoot(PreviewOf(table, owner, perRootLimit), rootId)
         == if owner == rootId then PreviewOf(table, owner, perRootLimit) else []
  {
    ListedRows(table, RepliesOf(owner));
    var raw := PreviewOf(table, owner, perRootLimit);
    forall k | 0 <= k < |raw|
      ensures raw[k].threadRoot == Some(owner)
    {
      assert raw[k] in Listed(table, RepliesOf(owner));
    }
    OfRootOfOne(raw, owner, rootId);
  }

  lemma LastPreview(table: seq<Comment>, roots: seq<Comment>, perRootLimit: nat, rootId: nat)
    requires DistinctIds(table) && roots != []
    ensures var n := |roots| - 1;
      OfRoot(ReplyPreview(table, roots, perRootLimit), rootId)
      == OfRoot(ReplyPreview(table, roots[..n], perRootLimit), rootId)
         + if roots[n].id == rootId then PreviewOf(table, rootId, perRootLimit) else []
  {
    var n := |roots| - 1;
    PreviewIsOfRoot(table, roots[n].id, perRootLimit, rootId);
    OfRootSplits(ReplyPreview(table, roots[..n], perRootLimit), PreviewOf(table, roots[n].id, perRootLimit), rootId);
  }

  lemma {:induction false} NoPreviewOfOthers(table: seq<Comment>, roots: seq<Comment>, perRootLimit: nat, rootId: nat)
    requires DistinctIds(table) && forall k :: 0 <= k < |roots| ==> roots[k].id != rootId
    ensures OfRoot(ReplyPreview(table, roots, perRootLimit), rootId) == []
  {
    if roots != [] {
      LastPreview(table, roots, perRootLimit, rootId);
      NoPreviewOfOthers(table, roots[..|roots| - 1], perRootLimit, rootId);
    }
  }

  /** Grouping the batched preview by root gives back the preview of every root of the page. */
  lemma {:induction false} PreviewsRegroup(table: seq<Comment>, roots: seq<Comment>, perRootLimit: nat, k: nat)
    requires DistinctIds(table) && DistinctIds(roots) && k < |roots|
    ensures OfRoot(ReplyPreview(table, roots, perRootLimit), roots[k].id) == PreviewOf(table, roots[k].id, perRootLimit)
    decreases |roots|
  {
    var n := |roots| - 1;
    LastPreview(table, roots, perRootLimit, roots[k].id);
    if k == n {
      NoPreviewOfOthers(table, roots[..n], perRootLimit, roots[n].id);
    } else {
      PreviewsRegroup(table, roots[..n], perRootLimit, k);
    }
  }

  // ---------------------------------------------------------------- listComments

  lemma FlatMapStep<Item>(rows: seq<Comment>, i: nat, show: Comment -> seq<Item>)
    requires i < |rows|
    ensures FlatMap(rows[..i + 1], show) == FlatMap(rows[..i], show) + show(rows[i])
  {
    assert rows[..i + 1][..i] == rows[..i];
  }

  lemma {:induction false} AfterKeepsIds(order: Order, rows: seq<Comment>, key: Key)
    requires DistinctIds(rows)
    ensures DistinctIds(After(order, rows, key)) && forall row :: row in After(order, rows, key) ==> row in rows
  {
    if rows != [] {
      AfterKeepsIds(order, rows[1..], key);
      var rest := After(order, rows[1..], key);
      assert forall k :: 0 <= k < |rest| ==> rest[k] in rows[1..];
    }
  }

  lemma PageKeepsIds(table: seq<Comment>, filter: Filter, valid: Key -> bool, token: Token, limit: nat)
    requires DistinctIds(table)
    ensures DistinctIds(ReadPage(OrderOf(filter), Listed(table, filter), valid, token, limit).rows)
  {
    ListedIsOrdered(table, filter);
    if Decode(valid, token).Some? {
      AfterKeepsIds(OrderOf(filter), Listed(table, filter), Decode(valid, token).value);
    }
  }

  method AddOrphans(threads: seq<Thread>, rows: seq<Comment>, blocked: set<nat>) returns (r: seq<Thread>)
    ensures r == threads + FlatMap(rows, ShowOrphans(blocked))
  {
    r := threads;
    for i := 0 to |rows|
      invariant r == threads + FlatMap(rows[..i], ShowOrphans(blocked))
    {
      FlatMapStep(rows, i, ShowOrphans(blocked));
      if rows[i].author !in blocked {
        r := r + [OrphanThread(rows[i])];
      }
    }
    assert rows[..|rows|] == rows;
  }

  method ListComments(db: Db, viewer: Viewer, postId: nat, limit: Option<real>, token: Token) returns (feed: Feed)
    requires DistinctIds(db.comments)
    ensures feed == FeedOf(db, viewer, postId, limit, token)
  {
    if !PostIsOpen(db, viewer, postId) {
      return Feed([], NoToken);
    }
    var n := NormalizeLimit(limit, DEFAULT_COMMENT_THREAD_LIMIT, MAX_COMMENT_THREAD_LIMIT);
    var page := ReadPage(ByScore, Listed(db.comments, RootsOf(postId)), viewer.valid, token, n);
    PageKeepsIds(db.comments, RootsOf(postId), viewer.valid, token, n);
    var threads := ThreadsOfPage(db.comments, page.rows, viewer.blocked);
    if token == NoToken {
      threads := AddOrphans(threads, Orphans(db.comments, postId, n), viewer.blocked);
    }
    return Feed(threads, page.next);
  }

  method ThreadsOfPage(table: seq<Comment>, roots: seq<Comment>, blocked: set<nat>) returns (threads: seq<Thread>)
    requires DistinctIds(table) && DistinctIds(roots)
    ensures threads == FlatMap(roots, ShowRoot(table, blocked))
  {
    var previews := GroupByRoot(ReplyPreview(table, roots, COMMENT_REPLY_PREVIEW_LIMIT));
    threads := [];
    for i := 0 to |roots|
      invariant threads == FlatMap(roots[..i], ShowRoot(table, blocked))
    {
      var root := roots[i];
      PreviewsRegroup(table, roots, COMMENT_REPLY_PREVIEW_LIMIT, i);
      FlatMapStep(roots, i, ShowRoot(table, blocked));
      var raw := Grouped(previews, root.id);
      assert raw == PreviewOf(table, root.id, COMMENT_REPLY_PREVIEW_LIMIT);
      if root.author in blocked {
        threads := AddOrphans(threads, raw, blocked);
      } else {
        var next := if raw != [] && root.threadReplyCount > |raw| then Encoded(KeyOf(raw[|raw| - 1])) else NoToken;
        var visible := FlatMap(raw, Visible(blocked));
        threads := threads + [Thread(root, visible, Max(0, root.threadReplyCount), next, false, true)];
      }
    }
    assert roots[..|roots|] == roots;
  }

  // ---------------------------------------------------------------- following the feed

  /** The threads of a page that are not orphaned replies. */
  function Attached(threads: seq<Thread>): seq<Thread> {
    if threads == [] then []
    else
      var last := threads[|threads| - 1];
      Attached(threads[..|threads| - 1]) + if last.isOrphaned then [] else [last]
  }

  function ShowAttached(table: seq<Comment>, blocked: set<nat>): Comment -> seq<Thread> {
    (root: Comment) => if root.author in blocked then [] else [ThreadOf(table, root, blocked)]
  }

  /** A client that follows the cursors of the feed, one request for each limit. */
  function FollowFeed(db: Db, viewer: Viewer, postId: nat, token: Token, limits: seq<Option<real>>): Walk<Thread>
    decreases |limits|
  {
    if limits == [] then Walk([], false)
    else
      var feed := FeedOf(db, viewer, postId, limits[0], token);
      if feed.next == NoToken then Walk(feed.threads, true)
      else
        var rest := FollowFeed(db, viewer, postId, feed.next, limits[1..]);
        Walk(feed.threads + rest.items, rest.done)
  }

  /** Pages after the first have no orphans of their own. */
  lemma {:induction false} LaterPages(db: Db, viewer: Viewer, postId: nat, token: Token, limits: seq<Option<real>>)
    requires PostIsOpen(db, viewer, postId) && token != NoToken
    ensures FollowFeed(db, viewer, postId, token, limits)
         == Follow(ByScore, Listed(db.comments, RootsOf(postId)), viewer.valid, token,
                   Normalized(limits, DEFAULT_COMMENT_THREAD_LIMIT, MAX_COMMENT_THREAD_LIMIT),
                   ShowRoot(db.comments, viewer.blocked))
    decreases |limits|
  {
    if limits != [] {
      var feed := FeedOf(db, viewer, postId, limits[0], token);
      var n := NormalizeLimit(limits[0], DEFAULT_COMMENT_THREAD_LIMIT, MAX_COMMENT_THREAD_LIMIT);
      var page := ReadPage(ByScore, Listed(db.comments, RootsOf(postId)), viewer.valid, token, n);
      var shown := FlatMap(page.rows, ShowRoot(db.comments, viewer.blocked));
      assert shown + [] == shown;
      assert feed == Feed(shown, page.next);
      if feed.next != NoToken {
        LaterPages(db, viewer, postId, feed.next, limits[1..]);
      }
    }
  }

  /** What the roots up to some position contribute, then the orphans, then what the other roots contribute. */
  function FeedParts(table: seq<Comment>, roots: seq<Comment>, end: nat, orphans: seq<Comment>,
                     blocked: set<nat>): seq<Thread>
    requires end <= |roots|
  {
    FlatMap(roots[..end], ShowRoot(table, blocked)) + FlatMap(orphans, ShowOrphans(blocked))
    + FlatMap(roots[end..], ShowRoot(table, blocked))
  }

  /** Everything the feed shows when its cursors are followed to the end: the orphans, up to the first page's limit,
      come after the roots of the first page. */
  function WholeFeed(db: Db, viewer: Viewer, postId: nat, limit: Option<real>): seq<Thread> {
    var rows := Listed(db.comments, RootsOf(postId));
    var n := NormalizeLimit(limit, DEFAULT_COMMENT_THREAD_LIMIT, MAX_COMMENT_THREAD_LIMIT);
    FeedParts(db.comments, rows, PageEnd(rows, 0, n), Orphans(db.comments, postId, n), viewer.blocked)
  }

  lemma FirstPage(db: Db, viewer: Viewer, postId: nat, limit: Option<real>)
    requires DistinctIds(db.comments) && PostIsOpen(db, viewer, postId)
    ensures var rows := Listed(db.comments, RootsOf(postId));
      var n := NormalizeLimit(limit, DEFAULT_COMMENT_THREAD_LIMIT, MAX_COMMENT_THREAD_LIMIT);
      var end := PageEnd(rows, 0, n);
      FeedOf(db, viewer, postId, limit, NoToken)
      == Feed(FlatMap(rows[..end], ShowRoot(db.comments, viewer.blocked))
              + FlatMap(Orphans(db.comments, postId, n), ShowOrphans(viewer.blocked)),
              if end < |rows| then Encoded(KeyOf(rows[end - 1])) else NoToken)
  {
    var rows := Listed(db.comments, RootsOf(postId));
    ListedIsOrdered(db.comments, RootsOf(postId));
    PageIsSlice(ByScore, rows, viewer.valid, NoToken, 0,
        NormalizeLimit(limit, DEFAULT_COMMENT_THREAD_LIMIT, MAX_COMMENT_THREAD_LIMIT));
  }

  lemma RestOfFeed(db: Db, viewer: Viewer, postId: nat, end: nat, limits: seq<Option<real>>)
    requires var rows := Listed(db.comments, RootsOf(postId));
      && DistinctIds(db.comments) && PostIsOpen(db, viewer, postId) && BoundariesValid(rows, viewer.valid)
      && 0 < end < |rows| && |limits| >= |rows| - end
    ensures var rows := Listed(db.comments, RootsOf(postId));
      FollowFeed(db, viewer, postId, Encoded(KeyOf(rows[end - 1])), limits)
      == Walk(FlatMap(rows[end..], ShowRoot(db.comments, viewer.blocked)), true)
  {
    var rows := Listed(db.comments, RootsOf(postId));
    var next := Encoded(KeyOf(rows[end - 1]));
    ListedIsOrdered(db.comments, RootsOf(postId));
    LaterPages(db, viewer, postId, next, limits);
    NextResumes(rows, viewer.valid, end);
    FollowFrom(ByScore, rows, viewer.valid, next, end,
        Normalized(limits, DEFAULT_COMMENT_THREAD_LIMIT, MAX_COMMENT_THREAD_LIMIT),
        ShowRoot(db.comments, viewer.blocked));
  }

  /** Following the feed's cursors to the end, for any limits. */
  lemma FeedIsWhole(db: Db, viewer: Viewer, postId: nat, limits: seq<Option<real>>)
    requires var rows := Listed(db.comments, RootsOf(postId));
      && DistinctIds(db.comments) && PostIsOpen(db, viewer, postId) && BoundariesValid(rows, viewer.valid)
      && |limits| > 0 && |limits| >= |rows|
    ensures FollowFeed(db, viewer, postId, NoToken, limits) == Walk(WholeFeed(db, viewer, postId, limits[0]), true)
  {
    var rows := Listed(db.comments, RootsOf(postId));
    var end := PageEnd(rows, 0, NormalizeLimit(limits[0], DEFAULT_COMMENT_THREAD_LIMIT, MAX_COMMENT_THREAD_LIMIT));
    FirstPage(db, viewer, postId, limits[0]);
    if end < |rows| {
      RestOfFeed(db, viewer, postId, end, limits[1..]);
    } else {
      var threads := FeedOf(db, viewer, postId, limits[0], NoToken).threads;
      assert threads + [] == threads;
    }
  }

  lemma {:induction false} AttachedSplits(a: seq<Thread>, b: seq<Thread>)
    ensures Attached(a + b) == Attached(a) + Attached(b)
  {
    if b == [] {
      assert a + b == a;
    } else {
      var n := |b| - 1;
      AttachedSplits(a, b[..n]);
      assert (a + b)[..|a| + n] == a + b[..n];
    }
  }

  lemma {:induction false} OrphansAreNotAttached(rows: seq<Comment>, blocked: set<nat>)
    ensures Attached(FlatMap(rows, ShowOrphans(blocked))) == []
  {
    if rows != [] {
      var n := |rows| - 1;
      OrphansAreNotAttached(rows[..n], blocked);
      AttachedSplits(FlatMap(rows[..n], ShowOrphans(blocked)), ShowOrphans(blocked)(rows[n]));
    }
  }

  lemma RootAttached(table: seq<Comment>, root: Comment, blocked: set<nat>)
    ensures Attached(ShowRoot(table, blocked)(root)) == ShowAttached(table, blocked)(root)
  {
    if root.author in blocked {
      OrphansAreNotAttached(PreviewOf(table, root.id, COMMENT_REPLY_PREVIEW_LIMIT), blocked);
    }
  }

  lemma {:induction false} PageAttached(table: seq<Comment>, rows: seq<Comment>, blocked: set<nat>)
    ensures Attached(FlatMap(rows, ShowRoot(table, blocked))) == FlatMap(rows, ShowAttached(table, blocked))
  {
    if rows != [] {
      var n := |rows| - 1;
      PageAttached(table, rows[..n], blocked);
      RootAttached(table, rows[n], blocked);
      AttachedSplits(FlatMap(rows[..n], ShowRoot(table, blocked)), ShowRoot(table, blocked)(rows[n]));
    }
  }

  lemma OuterAttached(a: seq<Thread>, b: seq<Thread>, c: seq<Thread>)
    requires Attached(b) == []
    ensures Attached(a + b + c) == Attached(a) + Attached(c)
  {
    AttachedSplits(a, b);
    AttachedSplits(a + b, c);
  }

  lemma PartsAttached(table: seq<Comment>, roots: seq<Comment>, end: nat, orphans: seq<Comment>, blocked: set<nat>)
    requires end <= |roots|
    ensures Attached(FeedParts(table, roots, end, orphans, blocked)) == FlatMap(roots, ShowAttached(table, blocked))
  {
    OrphansAreNotAttached(orphans, blocked);
    OuterAttached(FlatMap(roots[..end], ShowRoot(table, blocked)), FlatMap(orphans, ShowOrphans(blocked)),
        FlatMap(roots[end..], ShowRoot(table, blocked)));
    PageAttached(table, roots[..end], blocked);
    PageAttached(table, roots[end..], blocked);
    FlatMapSplits(roots, end, ShowAttached(table, blocked));
  }

  lemma {:induction false} ThreadsOfShownRoots(table: seq<Comment>, rows: seq<Comment>, blocked: set<nat>)
    ensures var threads, shown := FlatMap(rows, ShowAttached(table, blocked)), FlatMap(rows, Visible(blocked));
      |threads| == |shown| && forall k :: 0 <= k < |shown| ==> threads[k] == ThreadOf(table, shown[k], blocked)
  {
    if rows != [] {
      ThreadsOfShownRoots(table, rows[..|rows| - 1], blocked);
    }
  }

  /** Following the feed's cursors gives the thread of each published root by an author who is not blocked, best
      score first, each once, for any limits. */
  lemma ThreadsAreShownOnce(db: Db, viewer: Viewer, postId: nat, limits: seq<Option<real>>)
      returns (shown: seq<Comment>)
    requires var rows := Listed(db.comments, RootsOf(postId));
      && DistinctIds(db.comments) && PostIsOpen(db, viewer, postId) && BoundariesValid(rows, viewer.valid)
      && |limits| > 0 && |limits| >= |rows|
    ensures BestFirst(shown) && DistinctIds(shown)
    ensures forall row :: row in shown <==>
        && row in db.comments && row.status == Published && row.postId == postId && row.threadRoot == None
        && row.author !in viewer.blocked
    ensures var walk := FollowFeed(db, viewer, postId, NoToken, limits);
      var threads := Attached(walk.items);
      && walk.done && |threads| == |shown|
      && forall k :: 0 <= k < |shown| ==> threads[k] == ThreadOf(db.comments, shown[k], viewer.blocked)
  {
    var rows := Listed(db.comments, RootsOf(postId));
    shown := FlatMap(rows, Visible(viewer.blocked));
    ListedIsOrdered(db.comments, RootsOf(postId));
    ListedRows(db.comments, RootsOf(postId));
    ShownInOrder(ByScore, rows, viewer.blocked);
    ShownRows(rows, viewer.blocked);
    FeedIsWhole(db, viewer, postId, limits);
    var n := NormalizeLimit(limits[0], DEFAULT_COMMENT_THREAD_LIMIT, MAX_COMMENT_THREAD_LIMIT);
    PartsAttached(db.comments, rows, PageEnd(rows, 0, n), Orphans(db.comments, postId, n), viewer.blocked);
    ThreadsOfShownRoots(db.comments, rows, viewer.blocked);
    OrderedMeans(shown);
  }

  // ---------------------------------------------------------------- under a blocked root

  lemma {:induction false} ShownBySome<Item>(rows: seq<Comment>, show: Comment -> seq<Item>, item: Item)
    returns (k: nat)
    requires item in FlatMap(rows, show)
    ensures k < |rows| && item in show(rows[k])
  {
    var n := |rows| - 1;
    if item in show(rows[n]) {
      k := n;
    } else {
      k := ShownBySome(rows[..n], show, item);
    }
  }

  predicate Shows(thread: Thread, row: Comment) {
    thread.root == row || row in thread.replies
  }

  /** A reply behind the previewed ones of its thread. */
  ghost predicate BehindPreview(table: seq<Comment>, root: Comment, row: Comment) {
    row in Listed(table, RepliesOf(root.id)) && row !in PreviewOf(table, root.id, COMMENT_REPLY_PREVIEW_LIMIT)
  }

  lemma PreviewedAreReplies(table: seq<Comment>, rootId: nat, row: Comment)
    requires DistinctIds(table) && row in PreviewOf(table, rootId, COMMENT_REPLY_PREVIEW_LIMIT)
    ensures row in table && row.threadRoot == Some(rootId)
  {
    ListedRows(table, RepliesOf(rootId));
    assert row in Listed(table, RepliesOf(rootId));
  }

  lemma OtherRootsDoNotShow(table: seq<Comment>, blocked: set<nat>, root: Comment, row: Comment, other: Comment,
      t: Thread)
    requires DistinctIds(table) && root.author in blocked && BehindPreview(table, root, row)
    requires other.threadRoot == None && (other.id == root.id ==> other == root) && t in ShowRoot(table, blocked)(other)
    ensures !Shows(t, row)
  {
    ListedRows(table, RepliesOf(root.id));
    var raw := PreviewOf(table, other.id, COMMENT_REPLY_PREVIEW_LIMIT);
    if row in raw {
      PreviewedAreReplies(table, other.id, row);
    }
    if other.author in blocked {
      var k := ShownBySome(raw, ShowOrphans(blocked), t);
    } else {
      ShownRows(raw, blocked);
    }
  }

  lemma OrphansDoNotShow(table: seq<Comment>, blocked: set<nat>, rows: seq<Comment>, row: Comment, t: Thread)
    requires row !in rows && t in FlatMap(rows, ShowOrphans(blocked))
    ensures !Shows(t, row)
  {
    var k := ShownBySome(rows, ShowOrphans(blocked), t);
  }

  lemma OrphanPage(table: seq<Comment>, postId: nat, limit: nat, row: Comment)
    requires row in Orphans(table, postId, limit)
    ensures IsOrphan(table, row, postId)
  {
    var orphans := OrphansIn(table, table, postId);
    OrderByKeepsRows(ByScore, orphans);
    assert row in multiset(OrderBy(ByScore, orphans));
  }

  /** Replies to a blocked author's published root behind the previewed ones are in no page of the feed, whatever the
      cursor, and the thread's own pages are empty. */
  lemma RepliesOfBlockedRootAreHidden(db: Db, viewer: Viewer, postId: nat, root: Comment, row: Comment,
                                      limit: Option<real>, token: Token)
    requires DistinctIds(db.comments) && root in db.comments && Passes(root, RootsOf(postId))
    requires root.author in viewer.blocked && BehindPreview(db.comments, root, row)
    ensures forall t :: t in FeedOf(db, viewer, postId, limit, token).threads ==> !Shows(t, row)
    ensures ListCommentReplies(db, viewer, postId, root.id, limit, token) == Page([], NoToken)
  {
    RootIsFound(db.comments, root);
    if PostIsOpen(db, viewer, postId) {
      forall t | t in FeedOf(db, viewer, postId, limit, token).threads
        ensures !Shows(t, row)
      {
        HiddenFromThread(db, viewer, postId, root, row, limit, token, t);
      }
    }
  }

  lemma RootIsFound(table: seq<Comment>, root: Comment)
    requires DistinctIds(table) && root in table
    ensures FindComment(table, root.id) == Some(root)
  {
    var found := FindComment(table, root.id).value;
    var j :| 0 <= j < |table| && table[j] == found;
    var k :| 0 <= k < |table| && table[k] == root;
  }

  lemma PageRootIs(table: seq<Comment>, postId: nat, valid: Key -> bool, token: Token, n: nat, other: Comment)
    requires DistinctIds(table)
    requires other in ReadPage(ByScore, Listed(table, RootsOf(postId)), valid, token, n).rows
    ensures other in table && other.threadRoot == None
  {
    ListedRows(table, RootsOf(postId));
    ListedIsOrdered(table, RootsOf(postId));
    if Decode(valid, token).Some? {
      AfterKeepsIds(ByScore, Listed(table, RootsOf(postId)), Decode(valid, token).value);
    }
  }

  lemma HiddenFromThread(db: Db, viewer: Viewer, postId: nat, root: Comment, row: Comment, limit: Option<real>,
                         token: Token, t: Thread)
    requires DistinctIds(db.comments) && root in db.comments && Passes(root, RootsOf(postId))
    requires root.author in viewer.blocked && BehindPreview(db.comments, root, row) && PostIsOpen(db, viewer, postId)
    requires t in FeedOf(db, viewer, postId, limit, token).threads
    ensures !Shows(t, row)
  {
    var n := NormalizeLimit(limit, DEFAULT_COMMENT_THREAD_LIMIT, MAX_COMMENT_THREAD_LIMIT);
    var page := ReadPage(ByScore, Listed(db.comments, RootsOf(postId)), viewer.valid, token, n);
    if t in FlatMap(page.rows, ShowRoot(db.comments, viewer.blocked)) {
      var k := ShownBySome(page.rows, ShowRoot(db.comments, viewer.blocked), t);
      PageRootIs(db.comments, postId, viewer.valid, token, n, page.rows[k]);
      RootIsFound(db.comments, root);
      RootIsFound(db.comments, page.rows[k]);
      OtherRootsDoNotShow(db.comments, viewer.blocked, root, row, page.rows[k], t);
    } else {
      NotAnOrphan(db.comments, postId, n, root, row);
      OrphansDoNotShow(db.comments, viewer.blocked, Orphans(db.comments, postId, n), row, t);
    }
  }

  lemma NotAnOrphan(table: seq<Comment>, postId: nat, n: nat, root: Comment, row: Comment)
    requires DistinctIds(table) && root in table && root.status == Published && BehindPreview(table, root, row)
    ensures row !in Orphans(table, postId, n)
  {
    ListedRows(table, RepliesOf(root.id));
    RootIsFound(table, root);
    if row in Orphans(table, postId, n) {
      OrphanPage(table, postId, n, row);
    }
  }

  // ---------------------------------------------------------------- what can be reached

  predicate ShownIn(threads: seq<Thread>, row: Comment) {
    exists k :: 0 <= k < |threads| && Shows(threads[k], row)
  }

  lemma {:induction false} ShowsAll<Item>(rows: seq<Comment>, show: Comment -> seq<Item>, k: nat, item: Item)
    requires k < |rows| && item in show(rows[k])
    ensures item in FlatMap(rows, show)
  {
    var n := |rows| - 1;
    if k < n {
      ShowsAll(rows[..n], show, k, item);
    }
  }

  lemma {:induction false} ClosedThreadIsEmpty(db: Db, viewer: Viewer, postId: nat, rootId: nat, token: Token,
      limits: seq<Option<real>>)
    requires !ThreadIsOpen(db, viewer, postId, rootId)
    ensures FollowReplies(db, viewer, postId, rootId, token, limits).items == []
  {
    if limits != [] {
      assert ListCommentReplies(db, viewer, postId, rootId, limits[0], token) == Page([], NoToken);
    }
  }

  lemma InParts(table: seq<Comment>, roots: seq<Comment>, end: nat, orphans: seq<Comment>, blocked: set<nat>,
                k: nat, t: Thread)
    requires end <= |roots| && k < |roots| && t in ShowRoot(table, blocked)(roots[k])
    ensures t in FeedParts(table, roots, end, orphans, blocked)
  {
    if k < end {
      ShowsAll(roots[..end], ShowRoot(table, blocked), k, t);
    } else {
      ShowsAll(roots[end..], ShowRoot(table, blocked), k - end, t);
    }
  }

  /** A previewed reply under a blocked root stands in the feed on its own. */
  lemma PreviewedStandsAlone(table: seq<Comment>, blocked: set<nat>, root: Comment, row: Comment)
    requires root.author in blocked && row.author !in blocked
    requires row in PreviewOf(table, root.id, COMMENT_REPLY_PREVIEW_LIMIT)
    ensures OrphanThread(row) in ShowRoot(table, blocked)(root)
  {
    var raw := PreviewOf(table, root.id, COMMENT_REPLY_PREVIEW_LIMIT);
    var j :| 0 <= j < |raw| && raw[j] == row;
    ShowsAll(raw, ShowOrphans(blocked), j, OrphanThread(row));
  }

  lemma PreviewedIsShown(db: Db, viewer: Viewer, postId: nat, root: Comment, row: Comment, limit: Option<real>)
    requires DistinctIds(db.comments) && root in db.comments && Passes(root, RootsOf(postId))
    requires root.author in viewer.blocked && row.author !in viewer.blocked
    requires row in PreviewOf(db.comments, root.id, COMMENT_REPLY_PREVIEW_LIMIT)
    ensures OrphanThread(row) in WholeFeed(db, viewer, postId, limit)
  {
    var rows := Listed(db.comments, RootsOf(postId));
    var n := NormalizeLimit(limit, DEFAULT_COMMENT_THREAD_LIMIT, MAX_COMMENT_THREAD_LIMIT);
    ListedRows(db.comments, RootsOf(postId));
    PreviewedStandsAlone(db.comments, viewer.blocked, root, row);
    var k :| 0 <= k < |rows| && rows[k] == root;
    InParts(db.comments, rows, PageEnd(rows, 0, n), Orphans(db.comments, postId, n), viewer.blocked, k,
        OrphanThread(row));
  }

  lemma OneOfThree<T>(a: seq<T>, b: seq<T>, c: seq<T>, t: T)
    requires t in a + b + c
    ensures t in a || t in b || t in c
  {
  }

  lemma OneOfTwo(roots: seq<Comment>, end: nat, show: Comment -> seq<Thread>, t: Thread) returns (k: nat)
    requires end <= |roots| && (t in FlatMap(roots[..end], show) || t in FlatMap(roots[end..], show))
    ensures k < |roots| && t in show(roots[k])
  {
    if t in FlatMap(roots[..end], show) {
      k := ShownBySome(roots[..end], show, t);
    } else {
      var i := ShownBySome(roots[end..], show, t);
      k := end + i;
    }
  }

  /** The feed is made of what its roots and its orphans contribute. */
  lemma OneOfParts(table: seq<Comment>, roots: seq<Comment>, end: nat, orphans: seq<Comment>, blocked: set<nat>,
                   t: Thread) returns (k: nat)
    requires end <= |roots| && t in FeedParts(table, roots, end, orphans, blocked)
    ensures k < |roots| + |orphans|
    ensures if k < |roots| then t in ShowRoot(table, blocked)(roots[k])
            else t in ShowOrphans(blocked)(orphans[k - |roots|])
  {
    var show, single := ShowRoot(table, blocked), ShowOrphans(blocked);
    OneOfThree(FlatMap(roots[..end], show), FlatMap(orphans, single), FlatMap(roots[end..], show), t);
    if t in FlatMap(orphans, single) {
      var i := ShownBySome(orphans, single, t);
      k := |roots| + i;
    } else {
      k := OneOfTwo(roots, end, show, t);
    }
  }

  /** A reply that can be read: in some thread of the feed, or in the pages of its own thread. */
  predicate CanBeRead(db: Db, viewer: Viewer, postId: nat, rootId: nat, row: Comment, feedLimits: seq<Option<real>>,
                      replyLimits: seq<Option<real>>) {
    || ShownIn(FollowFeed(db, viewer, postId, NoToken, feedLimits).items, row)
    || row in FollowReplies(db, viewer, postId, rootId, NoToken, replyLimits).items
  }

  lemma HiddenFromFeed(db: Db, viewer: Viewer, postId: nat, root: Comment, row: Comment, limit: Option<real>)
    requires DistinctIds(db.comments) && root in db.comments && Passes(root, RootsOf(postId))
    requires root.author in viewer.blocked && BehindPreview(db.comments, root, row)
    ensures !ShownIn(WholeFeed(db, viewer, postId, limit), row)
  {
    var rows := Listed(db.comments, RootsOf(postId));
    var n := NormalizeLimit(limit, DEFAULT_COMMENT_THREAD_LIMIT, MAX_COMMENT_THREAD_LIMIT);
    var orphans, threads := Orphans(db.comments, postId, n), WholeFeed(db, viewer, postId, limit);
    ListedRows(db.comments, RootsOf(postId));
    RootIsFound(db.comments, root);
    NotAnOrphan(db.comments, postId, n, root, row);
    forall i | 0 <= i < |threads|
      ensures !Shows(threads[i], row)
    {
      var k := OneOfParts(db.comments, rows, PageEnd(rows, 0, n), orphans, viewer.blocked, threads[i]);
      if k < |rows| {
        RootIsFound(db.comments, rows[k]);
        OtherRootsDoNotShow(db.comments, viewer.blocked, root, row, rows[k], threads[i]);
      }
    }
  }

  /** Which published replies under a published root a viewer can read, by authors who are not blocked: all of them if
      the root's author is not blocked, and otherwise the previewed ones. */
  lemma ReplyCanBeReadIff(db: Db, viewer: Viewer, postId: nat, root: Comment, row: Comment,
                          feedLimits: seq<Option<real>>, replyLimits: seq<Option<real>>)
    requires DistinctIds(db.comments) && PostIsOpen(db, viewer, postId)
    requires root in db.comments && Passes(root, RootsOf(postId))
    requires row in db.comments && Passes(row, RepliesOf(root.id)) && row.author !in viewer.blocked
    requires var roots := Listed(db.comments, RootsOf(postId));
      BoundariesValid(roots, viewer.valid) && |feedLimits| > 0 && |feedLimits| >= |roots|
    requires var replies := Listed(db.comments, RepliesOf(root.id));
      BoundariesValid(replies, viewer.valid) && |replyLimits| > 0 && |replyLimits| >= |replies|
    ensures CanBeRead(db, viewer, postId, root.id, row, feedLimits, replyLimits)
        <==> root.author !in viewer.blocked || row in PreviewOf(db.comments, root.id, COMMENT_REPLY_PREVIEW_LIMIT)
  {
    RootIsFound(db.comments, root);
    if root.author !in viewer.blocked {
      RepliesAreShownOnce(db, viewer, postId, root.id, replyLimits);
    } else {
      FeedIsWhole(db, viewer, postId, feedLimits);
      ClosedThreadIsEmpty(db, viewer, postId, root.id, NoToken, replyLimits);
      BlockedRootShowsPreviewed(db, viewer, postId, root, row, feedLimits[0]);
    }
  }

  lemma BlockedRootShowsPreviewed(db: Db, viewer: Viewer, postId: nat, root: Comment, row: Comment,
                                  limit: Option<real>)
    requires DistinctIds(db.comments) && root in db.comments && Passes(root, RootsOf(postId))
    requires root.author in viewer.blocked && row.author !in viewer.blocked
    requires row in db.comments && Passes(row, RepliesOf(root.id))
    ensures ShownIn(WholeFeed(db, viewer, postId, limit), row)
        <==> row in PreviewOf(db.comments, root.id, COMMENT_REPLY_PREVIEW_LIMIT)
  {
    ListedRows(db.comments, RepliesOf(root.id));
    if row in PreviewOf(db.comments, root.id, COMMENT_REPLY_PREVIEW_LIMIT) {
      PreviewedIsShown(db, viewer, postId, root, row, limit);
      var threads := WholeFeed(db, viewer, postId, limit);
      var i :| 0 <= i < |threads| && threads[i] == OrphanThread(row);
      assert Shows(threads[i], row);
    } else {
      HiddenFromFeed(db, viewer, postId, root, row, limit);
    }
  }

  // ---------------------------------------------------------------- orphaned replies

  lemma {:induction false} OrphansKeepIds(table: seq<Comment>, rows: seq<Comment>, postId: nat)
    requires DistinctIds(rows)
    ensures DistinctIds(OrphansIn(table, rows, postId))
  {
    if rows != [] {
      var rest := OrphansIn(table, rows[1..], postId);
      OrphansKeepIds(table, rows[1..], postId);
      forall k | 0 <= k < |rest|
        ensures rest[k].id != rows[0].id
      {
        assert rest[k] in rows[1..];
      }
    }
  }

  /** All orphaned replies of a post, best score first. */
  function AllOrphans(table: seq<Comment>, postId: nat): seq<Comment> {
    OrderBy(ByScore, OrphansIn(table, table, postId))
  }

  lemma OrphanIsListedIff(table: seq<Comment>, postId: nat, n: nat, k: nat)
    requires DistinctIds(table) && 1 <= n <= 50 && k < |AllOrphans(table, postId)|
    ensures AllOrphans(table, postId)[k] in Orphans(table, postId, n) <==> k < n
    ensures IsOrphan(table, AllOrphans(table, postId)[k], postId) && AllOrphans(table, postId)[k] in table
  {
    var orphans := AllOrphans(table, postId);
    OrphansKeepIds(table, table, postId);
    OrderByOrders(ByScore, OrphansIn(table, table, postId));
    assert orphans[k] in multiset(orphans);
    assert Orphans(table, postId, n) == Take(orphans, n);
  }

  lemma RootDoesNotShowOrphan(table: seq<Comment>, blocked: set<nat>, postId: nat, root: Comment, row: Comment,
      t: Thread)
    requires DistinctIds(table) && root in table && Passes(root, RootsOf(postId)) && IsOrphan(table, row, postId)
    requires t in ShowRoot(table, blocked)(root)
    ensures !Shows(t, row)
  {
    var raw := PreviewOf(table, root.id, COMMENT_REPLY_PREVIEW_LIMIT);
    RootIsFound(table, root);
    if row in raw {
      PreviewedAreReplies(table, root.id, row);
    }
    if root.author in blocked {
      var k := ShownBySome(raw, ShowOrphans(blocked), t);
    } else {
      ShownRows(raw, blocked);
    }
  }

  lemma ListedOrphanIsShown(table: seq<Comment>, roots: seq<Comment>, end: nat, orphans: seq<Comment>,
                            blocked: set<nat>, row: Comment)
    requires end <= |roots| && row in orphans && row.author !in blocked
    ensures ShownIn(FeedParts(table, roots, end, orphans, blocked), row)
  {
    var k :| 0 <= k < |orphans| && orphans[k] == row;
    var threads := FeedParts(table, roots, end, orphans, blocked);
    ShowsAll(orphans, ShowOrphans(blocked), k, OrphanThread(row));
    assert OrphanThread(row) in threads;
    var i :| 0 <= i < |threads| && threads[i] == OrphanThread(row);
    assert Shows(threads[i], row);
  }

  lemma UnlistedOrphanIsHidden(table: seq<Comment>, postId: nat, end: nat, orphans: seq<Comment>, blocked: set<nat>,
                               row: Comment)
    requires DistinctIds(table) && end <= |Listed(table, RootsOf(postId))|
    requires row !in orphans && IsOrphan(table, row, postId)
    ensures !ShownIn(FeedParts(table, Listed(table, RootsOf(postId)), end, orphans, blocked), row)
  {
    var roots := Listed(table, RootsOf(postId));
    var threads := FeedParts(table, roots, end, orphans, blocked);
    ListedRows(table, RootsOf(postId));
    forall i | 0 <= i < |threads|
      ensures !Shows(threads[i], row)
    {
      var k := OneOfParts(table, roots, end, orphans, blocked, threads[i]);
      if k < |roots| {
        RootDoesNotShowOrphan(table, blocked, postId, roots[k], row, threads[i]);
      }
    }
  }

  /** Orphaned replies are shown with the first page only, and it cuts them at its limit: the k-th best of them, by an
      author who is not blocked, can be read anywhere exactly if k is below that limit. */
  lemma OrphanCanBeReadIff(db: Db, viewer: Viewer, postId: nat, k: nat, feedLimits: seq<Option<real>>,
                           replyLimits: seq<Option<real>>)
    requires DistinctIds(db.comments) && PostIsOpen(db, viewer, postId)
    requires k < |AllOrphans(db.comments, postId)|
    requires AllOrphans(db.comments, postId)[k].author !in viewer.blocked
    requires var roots := Listed(db.comments, RootsOf(postId));
      BoundariesValid(roots, viewer.valid) && |feedLimits| > 0 && |feedLimits| >= |roots|
    ensures var row := AllOrphans(db.comments, postId)[k];
      && row.threadRoot.Some?
      && (CanBeRead(db, viewer, postId, row.threadRoot.value, row, feedLimits, replyLimits)
          <==> k < NormalizeLimit(feedLimits[0], DEFAULT_COMMENT_THREAD_LIMIT, MAX_COMMENT_THREAD_LIMIT))
  {
    var row, roots := AllOrphans(db.comments, postId)[k], Listed(db.comments, RootsOf(postId));
    var n := NormalizeLimit(feedLimits[0], DEFAULT_COMMENT_THREAD_LIMIT, MAX_COMMENT_THREAD_LIMIT);
    var end, orphans := PageEnd(roots, 0, n), Orphans(db.comments, postId, n);
    OrphanIsListedIff(db.comments, postId, n, k);
    FeedIsWhole(db, viewer, postId, feedLimits);
    ClosedThreadIsEmpty(db, viewer, postId, row.threadRoot.value, NoToken, replyLimits);
    if k < n {
      ListedOrphanIsShown(db.comments, roots, end, orphans, viewer.blocked, row);
    } else {
      UnlistedOrphanIsHidden(db.comments, postId, end, orphans, viewer.blocked, row);
    }
  }

  /** The orphaned replies of a post: published replies to a root that is there but not published, best score first. */
  lemma OrphansAre(table: seq<Comment>, postId: nat)
    requires DistinctIds(table)
    ensures BestFirst(AllOrphans(table, postId)) && DistinctIds(AllOrphans(table, postId))
    ensures forall row :: row in AllOrphans(table, postId) <==>
      && row in table && row.postId == postId && row.status == Published && row.threadRoot.Some?
      && FindComment(table, row.threadRoot.value).Some?
      && FindComment(table, row.threadRoot.value).value.status != Published
  {
    var orphans := OrphansIn(table, table, postId);
    OrphansKeepIds(table, table, postId);
    OrderByOrders(ByScore, orphans);
    OrderedMeans(OrderBy(ByScore, orphans));
    forall row
      ensures row in OrderBy(ByScore, orphans) <==> row in orphans
    {
      assert row in OrderBy(ByScore, orphans) <==> row in multiset(OrderBy(ByScore, orphans));
      assert row in orphans <==> row in multiset(orphans);
    }
  }

  // ---------------------------------------------------------------- page sizes and closed posts

  /** How many rows a page holds: the default without a limit, and never more than the maximum. */
  function PageSize(limit: Option<real>, standard: nat, most: nat): nat {
    if limit.None? then standard
    else if limit.value < 2.0 then 1
    else if limit.value >= most as real then most
    else limit.value.Floor
  }

  /** A page of the feed holds 20 roots unless the client asks for another number, and at most 50; a page of replies
      holds 25, and at most 100. */
  lemma PageSizes(db: Db, viewer: Viewer, postId: nat, rootId: nat, limit: Option<real>)
    requires DistinctIds(db.comments)
    ensures PostIsOpen(db, viewer, postId) ==>
      (FeedOf(db, viewer, postId, limit, NoToken).next == NoToken
       <==> |Listed(db.comments, RootsOf(postId))| <= PageSize(limit, 20, 50))
    ensures ThreadIsOpen(db, viewer, postId, rootId) ==>
      (ListCommentReplies(db, viewer, postId, rootId, limit, NoToken).next == NoToken
       <==> |Listed(db.comments, RepliesOf(rootId))| <= PageSize(limit, 25, 100))
  {
    ListedIsOrdered(db.comments, RootsOf(postId));
    ListedIsOrdered(db.comments, RepliesOf(rootId));
    PageIsSlice(ByScore, Listed(db.comments, RootsOf(postId)), viewer.valid, NoToken, 0, PageSize(limit, 20, 50));
    PageIsSlice(ByAge, Listed(db.comments, RepliesOf(rootId)), viewer.valid, NoToken, 0, PageSize(limit, 25, 100));
  }

  /** Nothing of a post is shown unless it is published and its author is not blocked. */
  lemma ClosedPostShowsNothing(db: Db, viewer: Viewer, postId: nat, rootId: nat, limit: Option<real>, token: Token)
    requires forall k :: 0 <= k < |db.posts| && db.posts[k].id == postId ==>
      db.posts[k].status != Published || db.posts[k].author in viewer.blocked
    ensures FeedOf(db, viewer, postId, limit, token) == Feed([], NoToken)
    ensures ListCommentReplies(db, viewer, postId, rootId, limit, token) == Page([], NoToken)
  {
  }

  /** No replies are listed of a root that is not a published root of the post, or by a blocked author. */
  lemma ClosedThreadListsNothing(db: Db, viewer: Viewer, postId: nat, rootId: nat, limit: Option<real>, token: Token)
    requires forall k :: 0 <= k < |db.comments| && db.comments[k].id == rootId ==>
      || db.comments[k].status != Published || db.comments[k].postId != postId || db.comments[k].threadRoot.Some?
      || db.comments[k].author in viewer.blocked
    ensures ListCommentReplies(db, viewer, postId, rootId, limit, token) == Page([], NoToken)
  {
  }
}
