/** Reading a discussion: pages of threads with a short preview of each, and pages of one thread's replies.
    Comments by authors the viewer has blocked are left out after a page was cut. */
module CommentListing {
  import opened Prelude
  import opened Comments
  import opened Paging

  const DEFAULT_COMMENT_THREAD_LIMIT := 20
  const MAX_COMMENT_THREAD_LIMIT := 50
  const COMMENT_REPLY_PREVIEW_LIMIT := 2
  const DEFAULT_COMMENT_REPLY_LIMIT := 25
  const MAX_COMMENT_REPLY_LIMIT := 100

  datatype Db = Db(posts: seq<Post>, comments: seq<Comment>)

  /** blocked: the authors the viewer has blocked. valid: which keys a cursor decodes to. */
  datatype Viewer = Viewer(blocked: set<nat>, valid: Key -> bool)

  datatype Thread = Thread(root: Comment, replies: seq<Comment>, replyCount: int, repliesNext: Token,
                           isOrphaned: bool, canReply: bool)

  datatype Feed = Feed(threads: seq<Thread>, next: Token)

  /** A missing or non-finite limit is None. */
  function NormalizeLimit(value: Option<real>, fallback: nat, max: nat): (n: nat)
    requires 1 <= fallback <= max
    ensures 1 <= n <= max
    ensures value.None? ==> n == fallback
    ensures value.Some? && value.value < 2.0 ==> n == 1
    ensures value.Some? && value.value >= max as real ==> n == max
    ensures value.Some? && 1.0 <= value.value < max as real ==> n as real <= value.value < n as real + 1.0
  {
    if value.None? then fallback else Min(max, Max(1, Trunc(value.value)))
  }

  predicate PostIsOpen(db: Db, viewer: Viewer, postId: nat) {
    var post := FindPost(db.posts, postId);
    post.Some? && post.value.status == Published && post.value.author !in viewer.blocked
  }

  function Visible(blocked: set<nat>): Comment -> seq<Comment> {
    (row: Comment) => if row.author in blocked then [] else [row]
  }

  // ---------------------------------------------------------------- listCommentReplies

  predicate ThreadIsOpen(db: Db, viewer: Viewer, postId: nat, rootId: nat) {
    var root := FindComment(db.comments, rootId);
    && PostIsOpen(db, viewer, postId)
    && root.Some? && root.value.postId == postId && root.value.threadRoot == None
    && root.value.status == Published && root.value.author !in viewer.blocked
  }

  function ListCommentReplies(db: Db, viewer: Viewer, postId: nat, rootId: nat, limit: Option<real>,
      token: Token): Page {
    if !ThreadIsOpen(db, viewer, postId, rootId) then Page([], NoToken)
    else
      var n := NormalizeLimit(limit, DEFAULT_COMMENT_REPLY_LIMIT, MAX_COMMENT_REPLY_LIMIT);
      var page := ReadPage(ByAge, Listed(db.comments, RepliesOf(rootId)), viewer.valid, token, n);
      Page(FlatMap(page.rows, Visible(viewer.blocked)), page.next)
  }

  /** A client that asks for the replies of a thread, one request for each limit. */
  function FollowReplies(db: Db, viewer: Viewer, postId: nat, rootId: nat, token: Token,
      limits: seq<Option<real>>): Walk<Comment>
    decreases |limits|
  {
    if limits == [] then Walk([], false)
    else
      var page := ListCommentReplies(db, viewer, postId, rootId, limits[0], token);
      if page.next == NoToken then Walk(page.rows, true)
      else
        var rest := FollowReplies(db, viewer, postId, rootId, page.next, limits[1..]);
        Walk(page.rows + rest.items, rest.done)
  }

  function Normalized(limits: seq<Option<real>>, fallback: nat, max: nat): (s: seq<nat>)
    requires 1 <= fallback <= max
    ensures |s| == |limits| && Positive(s)
  {
    if limits == [] then [] else [NormalizeLimit(limits[0], fallback, max)] + Normalized(limits[1..], fallback, max)
  }

  lemma {:induction false} FollowRepliesIsFollow(db: Db, viewer: Viewer, postId: nat, rootId: nat, token: Token,
      limits: seq<Option<real>>)
    requires ThreadIsOpen(db, viewer, postId, rootId)
    ensures FollowReplies(db, viewer, postId, rootId, token, limits)
         == Follow(ByAge, Listed(db.comments, RepliesOf(rootId)), viewer.valid, token,
                   Normalized(limits, DEFAULT_COMMENT_REPLY_LIMIT, MAX_COMMENT_REPLY_LIMIT), Visible(viewer.blocked))
    decreases |limits|
  {
    if limits != [] {
      var page := ListCommentReplies(db, viewer, postId, rootId, limits[0], token);
      FollowRepliesIsFollow(db, viewer, postId, rootId, page.next, limits[1..]);
    }
  }

  lemma VisibleStep(rows: seq<Comment>, last: Comment, blocked: set<nat>)
    ensures FlatMap(rows + [last], Visible(blocked))
         == if last.author in blocked then FlatMap(rows, Visible(blocked)) else FlatMap(rows, Visible(blocked)) + [last]
  {
    assert (rows + [last])[..|rows|] == rows;
    assert FlatMap(rows, Visible(blocked)) + [] == FlatMap(rows, Visible(blocked));
  }

  lemma {:induction false} ShownRows(rows: seq<Comment>, blocked: set<nat>)
    ensures forall row :: row in FlatMap(rows, Visible(blocked)) <==> row in rows && row.author !in blocked
  {
    if rows == [] {
    } else {
      var n := |rows| - 1;
      ShownRows(rows[..n], blocked);
      VisibleStep(rows[..n], rows[n], blocked);
      assert rows == rows[..n] + [rows[n]];
    }
  }

  lemma AppendInOrder(order: Order, rows: seq<Comment>, row: Comment)
    requires Ordered(order, rows) && DistinctIds(rows)
    requires forall k :: 0 <= k < |rows| ==> Before(order, KeyOf(rows[k]), KeyOf(row)) && rows[k].id != row.id
    ensures Ordered(order, rows + [row]) && DistinctIds(rows + [row])
  {
  }

  lemma PrefixInOrder(order: Order, rows: seq<Comment>, n: nat)
    requires Ordered(order, rows) && DistinctIds(rows) && n < |rows|
    ensures Ordered(order, rows[..n]) && DistinctIds(rows[..n])
    ensures forall row :: row in rows[..n] ==> Before(order, KeyOf(row), KeyOf(rows[n])) && row.id != rows[n].id
  {
  }

  /** What is shown of a listing stays in order and without repetition. */
  lemma {:induction false} ShownInOrder(order: Order, rows: seq<Comment>, blocked: set<nat>)
    requires Ordered(order, rows) && DistinctIds(rows)
    ensures Ordered(order, FlatMap(rows, Visible(blocked))) && DistinctIds(FlatMap(rows, Visible(blocked)))
  {
    if rows != [] {
      var n := |rows| - 1;
      var before, last := rows[..n], rows[n];
      PrefixInOrder(order, rows, n);
      ShownInOrder(order, before, blocked);
      ShownRows(before, blocked);
      VisibleStep(before, last, blocked);
      assert rows == before + [last];
      AppendInOrder(order, FlatMap(before, Visible(blocked)), last);
    }
  }

  /** Following the reply cursors of an open thread shows exactly its published replies by authors who are not
      blocked, oldest first, each once, for any limits; a page whose authors are all blocked does not end it. */
  lemma RepliesAreShownOnce(db: Db, viewer: Viewer, postId: nat, rootId: nat, limits: seq<Option<real>>)
    requires DistinctIds(db.comments) && ThreadIsOpen(db, viewer, postId, rootId)
    requires BoundariesValid(Listed(db.comments, RepliesOf(rootId)), viewer.valid)
    requires |limits| > 0 && |limits| >= |Listed(db.comments, RepliesOf(rootId))|
    ensures var walk := FollowReplies(db, viewer, postId, rootId, NoToken, limits);
      && walk.done && OldestFirst(walk.items) && DistinctIds(walk.items)
      && forall row :: row in walk.items <==>
          && row in db.comments && row.status == Published && row.threadRoot == Some(rootId)
          && row.author !in viewer.blocked
  {
    var rows := Listed(db.comments, RepliesOf(rootId));
    var normalized := Normalized(limits, DEFAULT_COMMENT_REPLY_LIMIT, MAX_COMMENT_REPLY_LIMIT);
    ListedIsOrdered(db.comments, RepliesOf(rootId));
    FollowRepliesIsFollow(db, viewer, postId, rootId, NoToken, limits);
    FollowingShowsAll(ByAge, rows, viewer.valid, normalized, Visible(viewer.blocked));
    ShownInOrder(ByAge, rows, viewer.blocked);
    ShownRows(rows, viewer.blocked);
    ListedRows(db.comments, RepliesOf(rootId));
    OrderedMeans(FlatMap(rows, Visible(viewer.blocked)));
  }

  lemma ListedRows(table: seq<Comment>, filter: Filter)
    requires DistinctIds(table)
    ensures forall row :: row in Listed(table, filter) <==> row in table && Passes(row, filter)
  {
    ListedIsOrdered(table, filter);
    forall row
      ensures row in Listed(table, filter) <==> row in table && Passes(row, filter)
    {
      assert row in Listed(table, filter) <==> row in multiset(Listed(table, filter));
      assert row in Where(table, filter) <==> row in multiset(Where(table, filter));
    }
  }

  // ---------------------------------------------------------------- the preview

  /** The first replies of a thread, the part of list_discussion_comment_reply_preview for one root. */
  function PreviewOf(table: seq<Comment>, rootId: nat, perRootLimit: nat): seq<Comment> {
    Take(Listed(table, RepliesOf(rootId)), Max(1, Min(perRootLimit, 10)))
  }

  function ReplyPreview(table: seq<Comment>, roots: seq<Comment>, perRootLimit: nat): seq<Comment> {
    if roots == [] then []
    else ReplyPreview(table, roots[..|roots| - 1], perRootLimit) + PreviewOf(table, roots[|roots| - 1].id, perRootLimit)
  }

  /** The thread shown for a root whose author is not blocked. */
  function ThreadOf(table: seq<Comment>, root: Comment, blocked: set<nat>): Thread {
    var raw := PreviewOf(table, root.id, COMMENT_REPLY_PREVIEW_LIMIT);
    Thread(root, FlatMap(raw, Visible(blocked)), Max(0, root.threadReplyCount),
           if raw != [] && root.threadReplyCount > |raw| then Encoded(KeyOf(raw[|raw| - 1])) else NoToken,
           false, true)
  }

  /** The preview and then the pages that its cursor leads to. */
  function PreviewThenPages(db: Db, viewer: Viewer, root: Comment, limits: seq<Option<real>>): Walk<Comment> {
    var thread := ThreadOf(db.comments, root, viewer.blocked);
    if thread.repliesNext == NoToken then Walk(thread.replies, true)
    else
      var rest := FollowReplies(db, viewer, root.postId, root.id, thread.repliesNext, limits);
      Walk(thread.replies + rest.items, rest.done)
  }

  /** Every key of a listing is accepted back. */
  ghost predicate KeysValid(rows: seq<Comment>, valid: Key -> bool) {
    forall k :: 0 <= k < |rows| ==> valid(KeyOf(rows[k]))
  }

  /** The pages behind a preview are exactly the rest. */
  lemma PagesFollowPreview(db: Db, viewer: Viewer, root: Comment, limits: seq<Option<real>>, shown: nat)
    requires var rows := Listed(db.comments, RepliesOf(root.id));
      && DistinctIds(db.comments) && ThreadIsOpen(db, viewer, root.postId, root.id) && KeysValid(rows, viewer.valid)
      && 0 < shown <= |rows| && |limits| > 0 && |limits| >= |rows|
    ensures var rows := Listed(db.comments, RepliesOf(root.id));
      FollowReplies(db, viewer, root.postId, root.id, Encoded(KeyOf(rows[shown - 1])), limits)
      == Walk(FlatMap(rows[shown..], Visible(viewer.blocked)), true)
  {
    var rows := Listed(db.comments, RepliesOf(root.id));
    var token := Encoded(KeyOf(rows[shown - 1]));
    var normalized := Normalized(limits, DEFAULT_COMMENT_REPLY_LIMIT, MAX_COMMENT_REPLY_LIMIT);
    ListedIsOrdered(db.comments, RepliesOf(root.id));
    FollowRepliesIsFollow(db, viewer, root.postId, root.id, token, limits);
    FollowFrom(ByAge, rows, viewer.valid, token, shown, normalized, Visible(viewer.blocked));
  }

  /** A preview and the pages behind it show all replies of the thread, unless the stored count claims that the
      preview is everything while there is more: then the rest is never reached. */
  lemma PreviewHandsOver(db: Db, viewer: Viewer, root: Comment, limits: seq<Option<real>>)
    requires var rows := Listed(db.comments, RepliesOf(root.id));
      && DistinctIds(db.comments) && ThreadIsOpen(db, viewer, root.postId, root.id) && KeysValid(rows, viewer.valid)
      && |limits| > 0 && |limits| >= |rows|
    ensures var rows := Listed(db.comments, RepliesOf(root.id));
      PreviewThenPages(db, viewer, root, limits)
      == Walk(FlatMap(Reached(rows, root.threadReplyCount), Visible(viewer.blocked)), true)
  {
    var rows := Listed(db.comments, RepliesOf(root.id));
    var shown := |PreviewOf(db.comments, root.id, COMMENT_REPLY_PREVIEW_LIMIT)|;
    if 0 < shown < root.threadReplyCount {
      PagesFollowPreview(db, viewer, root, limits, shown);
      FlatMapSplits(rows, shown, Visible(viewer.blocked));
    }
    PreviewIsPrefix(db.comments, root);
  }

  /** The replies that can be reached from a preview when this count is stored with the root. */
  function Reached(rows: seq<Comment>, count: int): seq<Comment> {
    if count <= COMMENT_REPLY_PREVIEW_LIMIT < |rows| then rows[..COMMENT_REPLY_PREVIEW_LIMIT] else rows
  }

  lemma PreviewIsPrefix(table: seq<Comment>, root: Comment)
    ensures var rows, raw := Listed(table, RepliesOf(root.id)), PreviewOf(table, root.id, COMMENT_REPLY_PREVIEW_LIMIT);
      && raw <= rows && raw == rows[..|raw|]
      && (raw == [] || root.threadReplyCount <= |raw| ==> raw == Reached(rows, root.threadReplyCount))
      && (raw != [] && root.threadReplyCount > |raw| ==> Reached(rows, root.threadReplyCount) == rows)
  {
  }

  /** With a true count everything is shown. */
  lemma TrueCountHandsOver(db: Db, viewer: Viewer, root: Comment, limits: seq<Option<real>>)
    requires var rows := Listed(db.comments, RepliesOf(root.id));
      && DistinctIds(db.comments) && ThreadIsOpen(db, viewer, root.postId, root.id) && KeysValid(rows, viewer.valid)
      && |limits| > 0 && |limits| >= |rows| && root.threadReplyCount == |rows|
    ensures var walk := PreviewThenPages(db, viewer, root, limits);
      && walk.done && OldestFirst(walk.items) && DistinctIds(walk.items)
      && forall row :: row in walk.items <==>
          && row in db.comments && row.status == Published && row.threadRoot == Some(root.id)
          && row.author !in viewer.blocked
  {
    var rows := Listed(db.comments, RepliesOf(root.id));
    PreviewHandsOver(db, viewer, root, limits);
    ListedIsOrdered(db.comments, RepliesOf(root.id));
    ListedRows(db.comments, RepliesOf(root.id));
    ShownInOrder(ByAge, rows, viewer.blocked);
    ShownRows(rows, viewer.blocked);
    OrderedMeans(FlatMap(rows, Visible(viewer.blocked)));
  }
}
