/** What holds of the comment table after any run: threads are trees of earlier comments, and the stored counts
    are true. */
module ThreadRuns {
  import opened Prelude
  import opened Comments
  import opened CommentListing
  import opened Cursors
  import opened Paging
  import opened ThreadFeed
  import opened Threads

  /** Equal but for status, score and stored count. */
  ghost predicate Alike(a: seq<Comment>, b: seq<Comment>) {
    |a| == |b| && forall k :: 0 <= k < |a| ==> AlikeRows(a[k], b[k])
  }

  predicate AlikeRows(x: Comment, y: Comment) {
    x == y.(threadReplyCount := x.threadReplyCount, feedScore := x.feedScore, status := x.status)
  }

  lemma {:induction false} AlikeIndex(a: seq<Comment>, b: seq<Comment>, id: nat)
    requires Alike(a, b)
    ensures IndexOf(a, id) == IndexOf(b, id)
  {
    if a != [] {
      var n := |a| - 1;
      AlikeIndex(a[..n], b[..n], id);
      assert AlikeRows(a[n], b[n]);
    }
  }

  lemma AlikeLinked(a: seq<Comment>, b: seq<Comment>)
    requires Alike(a, b) && Linked(a)
    ensures Linked(b)
  {
    forall j, k | 0 <= j < k < |b|
      ensures b[j].id != b[k].id
    {
      assert AlikeRows(a[j], b[j]) && AlikeRows(a[k], b[k]);
    }
    forall k | 0 <= k < |b|
      ensures LinkedAt(b, k)
    {
      AlikeLinkedAt(a, b, k);
    }
  }

  lemma AlikeLinkedAt(a: seq<Comment>, b: seq<Comment>, k: nat)
    requires Alike(a, b) && k < |a| && LinkedAt(a, k)
    ensures LinkedAt(b, k)
  {
    assert AlikeRows(a[k], b[k]);
    if a[k].threadRoot.Some? {
      AlikeEarlier(a, b, k, a[k].replyTo.value);
      AlikeEarlier(a, b, k, a[k].threadRoot.value);
    }
  }

  lemma AlikeEarlier(a: seq<Comment>, b: seq<Comment>, k: nat, id: nat)
    requires Alike(a, b) && k < |a| && EarlierAt(a, k, id)
    ensures EarlierAt(b, k, id) && IndexOf(a, id) == IndexOf(b, id)
    ensures AlikeRows(a[IndexOf(a, id).value], b[IndexOf(a, id).value])
  {
    AlikeIndex(a, b, id);
    assert AlikeRows(a[k], b[k]);
  }

  // ---------------------------------------------------------------- refreshing counts

  /** Equal but for score and stored count. */
  ghost predicate SameStatuses(a: seq<Comment>, b: seq<Comment>) {
    Alike(a, b) && forall k :: 0 <= k < |a| ==> a[k].status == b[k].status
  }

  lemma {:induction false} CountIgnoresCounts(a: seq<Comment>, b: seq<Comment>, rootId: nat)
    requires SameStatuses(a, b)
    ensures CountReplies(a, rootId) == CountReplies(b, rootId)
  {
    if a != [] {
      var n := |a| - 1;
      CountIgnoresCounts(a[..n], b[..n], rootId);
      assert AlikeRows(a[n], b[n]);
    }
  }

  lemma {:induction false} RefreshAt(all: seq<Comment>, comments: seq<Comment>, target: Option<nat>, k: nat)
    requires k < |comments|
    ensures var row := comments[k];
      Refresh(all, comments, target)[k]
      == if target == Some(row.id) then
          row.(threadReplyCount := if row.threadRoot == None then CountReplies(all, row.id) else 0) else row
  {
    if k < |comments| - 1 {
      RefreshAt(all, comments[..|comments| - 1], target, k);
    }
  }

  lemma RefreshKeepsStatuses(comments: seq<Comment>, target: Option<nat>)
    ensures SameStatuses(comments, Refresh(comments, comments, target))
  {
    forall k | 0 <= k < |comments|
      ensures AlikeRows(comments[k], Refresh(comments, comments, target)[k])
      ensures comments[k].status == Refresh(comments, comments, target)[k].status
    {
      RefreshAt(comments, comments, target, k);
    }
  }

  /** The counts of every row but one are true. */
  ghost predicate CountedBut(comments: seq<Comment>, but: Option<nat>) {
    forall k :: 0 <= k < |comments| ==> but == Some(comments[k].id) || CountedAt(comments, k)
  }

  lemma RefreshedIsCounted(comments: seq<Comment>, target: Option<nat>, k: nat)
    requires k < |comments| && (target == Some(comments[k].id) || CountedAt(comments, k))
    ensures CountedAt(Refresh(comments, comments, target), k)
  {
    RefreshAt(comments, comments, target, k);
    RefreshKeepsStatuses(comments, target);
    CountIgnoresCounts(comments, Refresh(comments, comments, target), comments[k].id);
  }

  lemma RefreshForCounts(comments: seq<Comment>, row: Comment)
    requires CountedBut(comments, row.threadRoot)
    ensures Counted(RefreshFor(comments, row)) && SameStatuses(comments, RefreshFor(comments, row))
  {
    var once := Refresh(comments, comments, row.replyTo);
    RefreshKeepsStatuses(comments, row.replyTo);
    RefreshKeepsStatuses(once, row.threadRoot);
    forall k | 0 <= k < |comments|
      ensures CountedAt(RefreshFor(comments, row), k)
    {
      RefreshAt(comments, comments, row.replyTo, k);
      if row.threadRoot != Some(comments[k].id) {
        RefreshedIsCounted(comments, row.replyTo, k);
      }
      RefreshedIsCounted(once, row.threadRoot, k);
    }
    SameStatusesChain(comments, once, RefreshFor(comments, row));
  }

  lemma SameStatusesChain(a: seq<Comment>, b: seq<Comment>, c: seq<Comment>)
    requires SameStatuses(a, b) && SameStatuses(b, c)
    ensures SameStatuses(a, c)
  {
    forall k | 0 <= k < |a|
      ensures AlikeRows(a[k], c[k])
    {
      assert AlikeRows(a[k], b[k]) && AlikeRows(b[k], c[k]);
    }
  }

  // ---------------------------------------------------------------- inserting

  lemma FoundIsIndexed(comments: seq<Comment>, id: nat)
    requires DistinctIds(comments) && FindComment(comments, id).Some?
    ensures IndexOf(comments, id).Some? && comments[IndexOf(comments, id).value] == FindComment(comments, id).value
  {
    var row := FindComment(comments, id).value;
    var k :| 0 <= k < |comments| && comments[k] == row;
  }

  lemma IndexGrows(comments: seq<Comment>, row: Comment, id: nat)
    requires IndexOf(comments, id).Some?
    ensures IndexOf(comments + [row], id) == IndexOf(comments, id)
  {
    assert (comments + [row])[..|comments|] == comments;
  }

  lemma LinkedAtGrows(comments: seq<Comment>, row: Comment, k: nat)
    requires k < |comments| && LinkedAt(comments, k)
    ensures LinkedAt(comments + [row], k)
  {
    if comments[k].threadRoot.Some? {
      IndexGrows(comments, row, comments[k].replyTo.value);
      IndexGrows(comments, row, comments[k].threadRoot.value);
    }
  }

  lemma NewRowIsLinked(comments: seq<Comment>, row: Comment)
    requires DistinctIds(comments) && LinksAreValid(comments, row)
    ensures LinkedAt(comments + [row], |comments|)
  {
    if row.threadRoot.Some? {
      FoundIsIndexed(comments, row.threadRoot.value);
      FoundIsIndexed(comments, row.replyTo.value);
      IndexGrows(comments, row, row.threadRoot.value);
      IndexGrows(comments, row, row.replyTo.value);
    }
  }

  lemma {:induction false} NoReplies(comments: seq<Comment>, rootId: nat)
    requires forall k :: 0 <= k < |comments| ==> comments[k].threadRoot != Some(rootId)
    ensures CountReplies(comments, rootId) == 0
  {
    if comments != [] {
      NoReplies(comments[..|comments| - 1], rootId);
    }
  }

  lemma UnknownHasNoReplies(comments: seq<Comment>, id: nat)
    requires Linked(comments) && FindComment(comments, id).None?
    ensures CountReplies(comments, id) == 0
  {
    forall k | 0 <= k < |comments|
      ensures comments[k].threadRoot != Some(id)
    {
      assert LinkedAt(comments, k);
    }
    NoReplies(comments, id);
  }

  lemma CountGrows(comments: seq<Comment>, row: Comment, rootId: nat)
    ensures CountReplies(comments + [row], rootId) == CountReplies(comments, rootId)
        + if Passes(row, RepliesOf(rootId)) then 1 else 0
  {
    assert (comments + [row])[..|comments|] == comments;
  }

  lemma GrownIsLinked(comments: seq<Comment>, row: Comment)
    requires Linked(comments) && FindComment(comments, row.id).None? && LinksAreValid(comments, row)
    ensures Linked(comments + [row])
  {
    forall k | 0 <= k <= |comments|
      ensures LinkedAt(comments + [row], k)
    {
      if k < |comments| {
        LinkedAtGrows(comments, row, k);
      } else {
        NewRowIsLinked(comments, row);
      }
    }
  }

  lemma GrownIsCounted(comments: seq<Comment>, row: Comment)
    requires Linked(comments) && Counted(comments)
    requires FindComment(comments, row.id).None? && LinksAreValid(comments, row) && row.threadReplyCount == 0
    ensures CountedBut(comments + [row], row.threadRoot)
  {
    UnknownHasNoReplies(comments, row.id);
    forall k | 0 <= k <= |comments| && row.threadRoot != Some((comments + [row])[k].id)
      ensures CountedAt(comments + [row], k)
    {
      CountGrows(comments, row, (comments + [row])[k].id);
      assert k < |comments| ==> CountedAt(comments, k);
    }
  }

  // ---------------------------------------------------------------- changing a status

  lemma {:induction false} StatusMovesOneCount(comments: seq<Comment>, at: nat, row: Comment, rootId: nat)
    requires at < |comments| && AlikeRows(comments[at], row) && row.threadRoot != Some(rootId)
    ensures CountReplies(comments[at := row], rootId) == CountReplies(comments, rootId)
  {
    var n := |comments| - 1;
    if at < n {
      StatusMovesOneCount(comments[..n], at, row, rootId);
      assert comments[at := row][..n] == comments[..n][at := row];
    } else {
      assert comments[at := row][..n] == comments[..n];
    }
  }

  lemma UpdatedIsAlike(comments: seq<Comment>, at: nat, row: Comment)
    requires at < |comments| && AlikeRows(comments[at], row)
    ensures Alike(comments, comments[at := row])
  {
    forall k | 0 <= k < |comments|
      ensures AlikeRows(comments[k], comments[at := row][k])
    {
    }
  }

  lemma UpdatedIsCounted(comments: seq<Comment>, at: nat, row: Comment)
    requires Counted(comments) && at < |comments| && AlikeRows(comments[at], row)
    requires row.threadReplyCount == comments[at].threadReplyCount
    ensures CountedBut(comments[at := row], row.threadRoot)
  {
    var after := comments[at := row];
    forall k | 0 <= k < |after|
      ensures row.threadRoot == Some(after[k].id) || CountedAt(after, k)
    {
      assert CountedAt(comments, k);
      if row.threadRoot != Some(comments[k].id) {
        StatusMovesOneCount(comments, at, row, comments[k].id);
      }
    }
  }

  // ---------------------------------------------------------------- every run

  ghost predicate Inv(db: Db) {
    Linked(db.comments) && Counted(db.comments)
  }

  lemma AlikeChain(a: seq<Comment>, b: seq<Comment>, c: seq<Comment>)
    requires Alike(a, b) && Alike(b, c)
    ensures Alike(a, c)
  {
    forall k | 0 <= k < |a|
      ensures AlikeRows(a[k], c[k])
    {
      assert AlikeRows(a[k], b[k]) && AlikeRows(b[k], c[k]);
    }
  }

  lemma CreateKeepsInv(db: Db, input: Input)
    requires Inv(db) && CreateComment(db, input).Ok?
    ensures Inv(CreateComment(db, input).value)
  {
    var row := NewRow(input, PlaceOf(db.comments, input.postId, input.replyTo, input.blocked).value);
    GrownIsLinked(db.comments, row);
    GrownIsCounted(db.comments, row);
    RefreshForCounts(db.comments + [row], row);
    AlikeLinked(db.comments + [row], RefreshFor(db.comments + [row], row));
  }

  lemma StatusKeepsInv(comments: seq<Comment>, id: nat, status: Status)
    requires Linked(comments) && Counted(comments)
    ensures Linked(SetStatusOf(comments, id, status)) && Counted(SetStatusOf(comments, id, status))
  {
    var at := IndexOf(comments, id);
    if at.Some? {
      var row := comments[at.value].(status := status);
      UpdatedIsAlike(comments, at.value, row);
      UpdatedIsCounted(comments, at.value, row);
      RefreshForCounts(comments[at.value := row], row);
      AlikeChain(comments, comments[at.value := row], RefreshFor(comments[at.value := row], row));
      AlikeLinked(comments, RefreshFor(comments[at.value := row], row));
    }
  }

  lemma RescoreKeepsInv(db: Db, id: nat, score: real)
    requires Inv(db)
    ensures Inv(Step(db, Rescore(id, score)))
  {
    var at := IndexOf(db.comments, id);
    if at.Some? {
      var after := db.comments[at.value := db.comments[at.value].(feedScore := score)];
      UpdatedIsAlike(db.comments, at.value, after[at.value]);
      AlikeLinked(db.comments, after);
      forall k | 0 <= k < |after|
        ensures CountedAt(after, k)
      {
        assert CountedAt(db.comments, k);
        CountIgnoresCounts(db.comments, after, after[k].id);
      }
    }
  }

  lemma StepKeepsInv(db: Db, a: Action)
    requires Inv(db)
    ensures Inv(Step(db, a))
  {
    match a
    case Create(input) =>
      if CreateComment(db, input).Ok? {
        CreateKeepsInv(db, input);
      }
    case SetStatus(id, status) => StatusKeepsInv(db.comments, id, status);
    case Rescore(id, score) => RescoreKeepsInv(db, id, score);
    case _ =>
  }

  /** Whatever comments are created and however statuses and scores change, links and counts are sound. */
  lemma {:induction false} RunsKeepThreads(actions: seq<Action>)
    ensures Inv(Run(actions))
  {
    if actions != [] {
      RunsKeepThreads(actions[..|actions| - 1]);
      StepKeepsInv(Run(actions[..|actions| - 1]), actions[|actions| - 1]);
    }
  }

  // ---------------------------------------------------------------- following reply_to

  /** The comment at place k, the one it answers, and so on. */
  ghost function Climb(comments: seq<Comment>, k: nat): (path: seq<nat>)
    requires Linked(comments) && k < |comments|
    ensures path != [] && path[0] == k && forall i :: 0 <= i < |path| ==> path[i] < |comments|
    decreases k
  {
    assert LinkedAt(comments, k);
    [k] + if comments[k].replyTo == None then []
        else Climb(comments, IndexOf(comments, comments[k].replyTo.value).value)
  }

  /** Replies lead to ever earlier comments of one post and one thread, and end at the root of that thread. */
  lemma {:induction false} RepliesLeadToRoot(comments: seq<Comment>, k: nat)
    requires Linked(comments) && k < |comments|
    ensures var path := Climb(comments, k);
      && (forall i, j :: 0 <= i < j < |path| ==> path[j] < path[i])
      && (forall i :: 0 <= i < |path| ==>
          comments[path[i]].postId == comments[k].postId && ThreadId(comments[path[i]]) == ThreadId(comments[k]))
    ensures var last := comments[Climb(comments, k)[|Climb(comments, k)| - 1]];
      last.id == ThreadId(comments[k]) && last.threadRoot == None && last.replyTo == None
    decreases k
  {
    assert LinkedAt(comments, k);
    if comments[k].replyTo.Some? {
      var up := IndexOf(comments, comments[k].replyTo.value).value;
      RepliesLeadToRoot(comments, up);
      var path := Climb(comments, up);
      assert Climb(comments, k) == [k] + path;
      assert forall i :: 0 < i < |path| ==> path[i] < path[0];
    }
  }

  // ---------------------------------------------------------------- what the listings rely on

  lemma {:induction false} WhereGrows(rows: seq<Comment>, row: Comment, filter: Filter)
    ensures Where(rows + [row], filter) == if Passes(row, filter) then Where(rows, filter) + [row]
        else Where(rows, filter)
  {
    if rows == [] {
      assert [] + [row] == [row];
      assert [row][1..] == [];
    } else {
      WhereGrows(rows[1..], row, filter);
      assert (rows + [row])[1..] == rows[1..] + [row];
    }
  }

  lemma {:induction false} CountIsListingLength(comments: seq<Comment>, rootId: nat)
    ensures CountReplies(comments, rootId) == |Where(comments, RepliesOf(rootId))|
  {
    if comments != [] {
      var n := |comments| - 1;
      CountIsListingLength(comments[..n], rootId);
      WhereGrows(comments[..n], comments[n], RepliesOf(rootId));
      assert comments == comments[..n] + [comments[n]];
    }
  }

  /** After any run the count stored with a root is the length of its listing of replies. */
  lemma StoredCountIsTrue(actions: seq<Action>, k: nat)
    requires var comments := Run(actions).comments; k < |comments| && comments[k].threadRoot == None
    ensures var comments := Run(actions).comments;
      comments[k].threadReplyCount == |Listed(comments, RepliesOf(comments[k].id))|
  {
    RunsKeepThreads(actions);
    var comments := Run(actions).comments;
    assert CountedAt(comments, k);
    CountIsListingLength(comments, comments[k].id);
    ListedIsOrdered(comments, RepliesOf(comments[k].id));
    assert |multiset(Listed(comments, RepliesOf(comments[k].id)))|
        == |multiset(Where(comments, RepliesOf(comments[k].id)))|;
  }

  // ---------------------------------------------------------------- the keys of stored rows

  /** Ids as randomUUID makes them, and creation times that the calendar can print. */
  ghost predicate FromService(actions: seq<Action>, calendar: int -> Stamp) {
    forall k :: 0 <= k < |actions| && actions[k].Create? ==>
      IsRandomUuid(actions[k].input.id) && InCalendar(calendar(actions[k].input.createdAt))
  }

  ghost predicate KeysAccepted(rows: seq<Comment>, calendar: int -> Stamp) {
    forall k :: 0 <= k < |rows| ==> CursorCheck(calendar)(KeyOf(rows[k]))
  }

  lemma AlikeKeysAccepted(a: seq<Comment>, b: seq<Comment>, calendar: int -> Stamp)
    requires Alike(a, b) && KeysAccepted(a, calendar)
    ensures KeysAccepted(b, calendar)
  {
    forall k | 0 <= k < |b|
      ensures CursorCheck(calendar)(KeyOf(b[k]))
    {
      assert AlikeRows(a[k], b[k]) && CursorCheck(calendar)(KeyOf(a[k]));
    }
  }

  lemma RefreshForIsAlike(comments: seq<Comment>, row: Comment)
    ensures Alike(comments, RefreshFor(comments, row))
  {
    var once := Refresh(comments, comments, row.replyTo);
    RefreshKeepsStatuses(comments, row.replyTo);
    RefreshKeepsStatuses(once, row.threadRoot);
    AlikeChain(comments, once, RefreshFor(comments, row));
  }

  lemma CreatedKeysAccepted(db: Db, input: Input, calendar: int -> Stamp)
    requires KeysAccepted(db.comments, calendar) && CreateComment(db, input).Ok?
    requires IsRandomUuid(input.id) && InCalendar(calendar(input.createdAt))
    ensures KeysAccepted(CreateComment(db, input).value.comments, calendar)
  {
    var row := NewRow(input, PlaceOf(db.comments, input.postId, input.replyTo, input.blocked).value);
    KeyAcceptedIff(calendar, KeyOf(row));
    RefreshForIsAlike(db.comments + [row], row);
    AlikeKeysAccepted(db.comments + [row], RefreshFor(db.comments + [row], row), calendar);
  }

  lemma ChangedKeysAccepted(comments: seq<Comment>, id: nat, status: Status, calendar: int -> Stamp)
    requires KeysAccepted(comments, calendar)
    ensures KeysAccepted(SetStatusOf(comments, id, status), calendar)
  {
    var at := IndexOf(comments, id);
    if at.Some? {
      var row := comments[at.value].(status := status);
      UpdatedIsAlike(comments, at.value, row);
      RefreshForIsAlike(comments[at.value := row], row);
      AlikeChain(comments, comments[at.value := row], RefreshFor(comments[at.value := row], row));
      AlikeKeysAccepted(comments, RefreshFor(comments[at.value := row], row), calendar);
    }
  }

  lemma StepKeepsKeys(db: Db, a: Action, calendar: int -> Stamp)
    requires KeysAccepted(db.comments, calendar)
    requires a.Create? ==> IsRandomUuid(a.input.id) && InCalendar(calendar(a.input.createdAt))
    ensures KeysAccepted(Step(db, a).comments, calendar)
  {
    match a
    case Create(input) =>
      if CreateComment(db, input).Ok? {
        CreatedKeysAccepted(db, input, calendar);
      }
    case SetStatus(id, status) => ChangedKeysAccepted(db.comments, id, status, calendar);
    case Rescore(id, score) =>
      var at := IndexOf(db.comments, id);
      if at.Some? {
        var row := db.comments[at.value].(feedScore := score);
        UpdatedIsAlike(db.comments, at.value, row);
        AlikeKeysAccepted(db.comments, db.comments[at.value := row], calendar);
      }
    case _ =>
  }

  /** The key of every row the service has made is accepted back as a cursor. */
  lemma {:induction false} StoredKeysAreAccepted(actions: seq<Action>, calendar: int -> Stamp)
    requires FromService(actions, calendar)
    ensures KeysAccepted(Run(actions).comments, calendar)
  {
    if actions != [] {
      StoredKeysAreAccepted(actions[..|actions| - 1], calendar);
      StepKeepsKeys(Run(actions[..|actions| - 1]), actions[|actions| - 1], calendar);
    }
  }

  lemma ListedKeysAccepted(comments: seq<Comment>, filter: Filter, calendar: int -> Stamp)
    requires DistinctIds(comments) && KeysAccepted(comments, calendar)
    ensures KeysValid(Listed(comments, filter), CursorCheck(calendar))
  {
    ListedRows(comments, filter);
    forall k | 0 <= k < |Listed(comments, filter)|
      ensures CursorCheck(calendar)(KeyOf(Listed(comments, filter)[k]))
    {
      var row := Listed(comments, filter)[k];
      assert row in comments;
      var j :| 0 <= j < |comments| && comments[j] == row;
    }
  }

  // ---------------------------------------------------------------- reading what a run has stored

  /** A viewer for whom cursors are checked as the service checks them. */
  function ReaderOf(blocked: set<nat>, calendar: int -> Stamp): Viewer {
    Viewer(blocked, CursorCheck(calendar))
  }

  /** The post is there, published, and by nobody whom the viewer has blocked. */
  predicate PostShown(db: Db, blocked: set<nat>, postId: nat) {
    var post := FindPost(db.posts, postId);
    post.Some? && post.value.status == Published && post.value.author !in blocked
  }

  /** A published root of the post by somebody whom the viewer has not blocked. */
  predicate RootShown(db: Db, blocked: set<nat>, postId: nat, root: Comment) {
    && root in db.comments && root.status == Published && root.postId == postId && root.threadRoot == None
    && root.author !in blocked
  }

  /** The published replies of a thread, oldest first. */
  ghost predicate IsListing(rows: seq<Comment>, comments: seq<Comment>, rootId: nat) {
    && OldestFirst(rows) && DistinctIds(rows)
    && forall row :: row in rows <==> row in comments && row.status == Published && row.threadRoot == Some(rootId)
  }

  function ShownAt(rows: seq<Comment>, blocked: set<nat>, k: nat): seq<Comment> {
    if k < |rows| && rows[k].author !in blocked then [rows[k]] else []
  }

  /** A thread as it is shown: its root, the first two replies without those of blocked authors, the number of all its
      replies, and a cursor behind the second if there are more. */
  ghost predicate ThreadShown(comments: seq<Comment>, blocked: set<nat>, root: Comment, t: Thread) {
    var rows := Listed(comments, RepliesOf(root.id));
    && IsListing(rows, comments, root.id)
    && t.root == root && t.replies == ShownAt(rows, blocked, 0) + ShownAt(rows, blocked, 1)
    && t.replyCount == |rows| && t.repliesNext == (if |rows| > 2 then Encoded(KeyOf(rows[1])) else NoToken)
    && !t.isOrphaned && t.canReply
  }

  lemma FirstTwoShown(rows: seq<Comment>, blocked: set<nat>)
    ensures FlatMap(Take(rows, 2), Visible(blocked)) == ShownAt(rows, blocked, 0) + ShownAt(rows, blocked, 1)
  {
    var raw := Take(rows, 2);
    if |rows| > 1 {
      assert raw[..1] == [rows[0]] && raw[..1][..0] == [];
      assert FlatMap(raw[..1], Visible(blocked)) == [] + Visible(blocked)(rows[0]);
    } else if |rows| == 1 {
      assert raw[..0] == [];
    }
  }

  lemma ListingOf(comments: seq<Comment>, rootId: nat)
    requires DistinctIds(comments)
    ensures IsListing(Listed(comments, RepliesOf(rootId)), comments, rootId)
  {
    ListedIsOrdered(comments, RepliesOf(rootId));
    ListedRows(comments, RepliesOf(rootId));
    OrderedMeans(Listed(comments, RepliesOf(rootId)));
  }

  lemma ThreadContent(actions: seq<Action>, blocked: set<nat>, root: Comment)
    requires root in Run(actions).comments && root.threadRoot == None
    ensures ThreadShown(Run(actions).comments, blocked, root, ThreadOf(Run(actions).comments, root, blocked))
  {
    var comments := Run(actions).comments;
    RunsKeepThreads(actions);
    RootIsFound(comments, root);
    RootCountIsTrue(actions, root);
    ListingOf(comments, root.id);
    FirstTwoShown(Listed(comments, RepliesOf(root.id)), blocked);
  }

  lemma ShownRootIsOpen(actions: seq<Action>, calendar: int -> Stamp, blocked: set<nat>, postId: nat, root: Comment)
    requires PostShown(Run(actions), blocked, postId) && RootShown(Run(actions), blocked, postId, root)
    ensures ThreadIsOpen(Run(actions), ReaderOf(blocked, calendar), postId, root.id)
  {
    RunsKeepThreads(actions);
    RootIsFound(Run(actions).comments, root);
  }

  lemma RunListings(actions: seq<Action>, calendar: int -> Stamp, filter: Filter)
    requires FromService(actions, calendar)
    ensures DistinctIds(Run(actions).comments)
    ensures KeysValid(Listed(Run(actions).comments, filter), CursorCheck(calendar))
    ensures BoundariesValid(Listed(Run(actions).comments, filter), CursorCheck(calendar))
  {
    RunsKeepThreads(actions);
    StoredKeysAreAccepted(actions, calendar);
    ListedKeysAccepted(Run(actions).comments, filter, calendar);
  }

  /** After any run, the preview of an open thread and the pages behind it show each of its visible replies once. */
  lemma RunsHandOver(actions: seq<Action>, calendar: int -> Stamp, blocked: set<nat>, root: Comment,
      limits: seq<Option<real>>)
    requires FromService(actions, calendar) && PostShown(Run(actions), blocked, root.postId)
    requires RootShown(Run(actions), blocked, root.postId, root)
    requires |limits| > 0 && |limits| >= |Listed(Run(actions).comments, RepliesOf(root.id))|
    ensures var db := Run(actions);
      var walk := PreviewThenPages(db, ReaderOf(blocked, calendar), root, limits);
      && walk.done && OldestFirst(walk.items) && DistinctIds(walk.items)
      && forall row :: row in walk.items <==>
          && row in db.comments && row.status == Published && row.threadRoot == Some(root.id)
          && row.author !in blocked
  {
    RunsKeepThreads(actions);
    ShownRootIsOpen(actions, calendar, blocked, root.postId, root);
    RunListings(actions, calendar, RepliesOf(root.id));
    RootCountIsTrue(actions, root);
    TrueCountHandsOver(Run(actions), ReaderOf(blocked, calendar), root, limits);
  }

  lemma RootCountIsTrue(actions: seq<Action>, root: Comment)
    requires root in Run(actions).comments && FindComment(Run(actions).comments, root.id).Some?
    requires FindComment(Run(actions).comments, root.id).value.threadRoot == None
    ensures root.threadReplyCount == |Listed(Run(actions).comments, RepliesOf(root.id))|
  {
    RunsKeepThreads(actions);
    var comments := Run(actions).comments;
    var k :| 0 <= k < |comments| && comments[k] == root;
    FoundIsIndexed(comments, root.id);
    assert FindComment(comments, root.id).value == root;
    StoredCountIsTrue(actions, k);
  }

  /** After any run, following the reply cursors of an open thread shows each of its visible replies once. */
  lemma RunsShowReplies(actions: seq<Action>, calendar: int -> Stamp, blocked: set<nat>, postId: nat, rootId: nat,
      limits: seq<Option<real>>)
    requires FromService(actions, calendar) && PostShown(Run(actions), blocked, postId)
    requires exists root :: RootShown(Run(actions), blocked, postId, root) && root.id == rootId
    requires |limits| > 0 && |limits| >= |Listed(Run(actions).comments, RepliesOf(rootId))|
    ensures var db := Run(actions);
      var walk := FollowReplies(db, ReaderOf(blocked, calendar), postId, rootId, NoToken, limits);
      && walk.done && OldestFirst(walk.items) && DistinctIds(walk.items)
      && forall row :: row in walk.items <==>
          && row in db.comments && row.status == Published && row.threadRoot == Some(rootId)
          && row.author !in blocked
  {
    var root :| RootShown(Run(actions), blocked, postId, root) && root.id == rootId;
    ShownRootIsOpen(actions, calendar, blocked, postId, root);
    RunListings(actions, calendar, RepliesOf(rootId));
    RepliesAreShownOnce(Run(actions), ReaderOf(blocked, calendar), postId, rootId, limits);
  }

  /** After any run, following the feed shows the thread of each visible root of an open post once, best first. */
  lemma RunsShowThreads(actions: seq<Action>, calendar: int -> Stamp, blocked: set<nat>, postId: nat,
      limits: seq<Option<real>>)
      returns (shown: seq<Comment>)
    requires FromService(actions, calendar) && PostShown(Run(actions), blocked, postId)
    requires |limits| > 0 && |limits| >= |Listed(Run(actions).comments, RootsOf(postId))|
    ensures BestFirst(shown) && DistinctIds(shown)
    ensures forall row :: row in shown <==>
        && row in Run(actions).comments && row.status == Published && row.postId == postId && row.threadRoot == None
        && row.author !in blocked
    ensures var walk := FollowFeed(Run(actions), ReaderOf(blocked, calendar), postId, NoToken, limits);
      var threads := Attached(walk.items);
      && walk.done && |threads| == |shown|
      && forall k :: 0 <= k < |shown| ==> ThreadShown(Run(actions).comments, blocked, shown[k], threads[k])
  {
    RunListings(actions, calendar, RootsOf(postId));
    shown := ThreadsAreShownOnce(Run(actions), ReaderOf(blocked, calendar), postId, limits);
    forall k | 0 <= k < |shown|
      ensures ThreadShown(Run(actions).comments, blocked, shown[k], ThreadOf(Run(actions).comments, shown[k], blocked))
    {
      ThreadContent(actions, blocked, shown[k]);
    }
  }

  /** After any run: which visible replies under a published root can be read at all. */
  lemma RunsReadReplies(actions: seq<Action>, calendar: int -> Stamp, blocked: set<nat>, postId: nat, root: Comment,
                        row: Comment, feedLimits: seq<Option<real>>, replyLimits: seq<Option<real>>)
    requires FromService(actions, calendar) && PostShown(Run(actions), blocked, postId)
    requires root in Run(actions).comments && root.status == Published && root.postId == postId
    requires root.threadRoot == None && row in Run(actions).comments && row.status == Published
    requires row.threadRoot == Some(root.id) && row.author !in blocked
    requires |feedLimits| > 0 && |feedLimits| >= |Listed(Run(actions).comments, RootsOf(postId))|
    requires |replyLimits| > 0 && |replyLimits| >= |Listed(Run(actions).comments, RepliesOf(root.id))|
    ensures CanBeRead(Run(actions), ReaderOf(blocked, calendar), postId, root.id, row, feedLimits, replyLimits)
        <==> root.author !in blocked
             || row in PreviewOf(Run(actions).comments, root.id, COMMENT_REPLY_PREVIEW_LIMIT)
  {
    RunListings(actions, calendar, RootsOf(postId));
    RunListings(actions, calendar, RepliesOf(root.id));
    ReplyCanBeReadIff(Run(actions), ReaderOf(blocked, calendar), postId, root, row, feedLimits, replyLimits);
  }

  // ---------------------------------------------------------------- when a comment is accepted

  /** The database never refuses the links that the service chose. */
  lemma ServiceLinksAreValid(comments: seq<Comment>, input: Input)
    requires PlaceOf(comments, input.postId, input.replyTo, input.blocked).Ok?
    ensures LinksAreValid(comments, NewRow(input, PlaceOf(comments, input.postId, input.replyTo, input.blocked).value))
  {
  }

  /** A reply finds its place exactly when its target and the root of the target's thread can both be answered;
      that the root has no root of its own need not be asked. */
  lemma ReplyAcceptedIff(comments: seq<Comment>, postId: nat, target: nat, blocked: set<nat>)
    requires Linked(comments)
    ensures var row := FindComment(comments, target);
      PlaceOf(comments, postId, Some(target), blocked).Ok?
      <==> CanReplyTo(row, postId, blocked) && CanReplyTo(FindComment(comments, ThreadId(row.value)), postId, blocked)
  {
    var row := FindComment(comments, target);
    if row.Some? {
      FoundIsIndexed(comments, target);
      var k := IndexOf(comments, target).value;
      assert LinkedAt(comments, k);
      var root := FindComment(comments, ThreadId(row.value));
      if root.Some? {
        FoundIsIndexed(comments, ThreadId(row.value));
      }
    }
  }
}
