/** Writing comments: which thread a reply joins, what the database checks again, and the reply counts that the
    listings rely on. Scores and statuses may change at any time. */
module Threads {
  import opened Prelude
  import opened Comments
  import opened CommentListing

  datatype CreateError =
    | UserNotFound | VerifiedIdentityRequired | PostNotFound | CommentNotFound | ValidationFailed | StorageError

  /** status: what moderation decided. blocked: the authors the creator has blocked. bodyOk: a body is left after
      trimming and it passes the first gate. */
  datatype Input = Input(id: nat, postId: nat, replyTo: Option<nat>, author: nat, blocked: set<nat>, createdAt: int,
                         userExists: bool, verified: bool, bodyOk: bool, status: Status)

  datatype Place = Place(threadRoot: Option<nat>, replyTo: Option<nat>)

  /** The thread a comment belongs to. */
  function ThreadId(row: Comment): nat {
    if row.threadRoot.Some? then row.threadRoot.value else row.id
  }

  predicate CanReplyTo(row: Option<Comment>, postId: nat, blocked: set<nat>) {
    row.Some? && row.value.postId == postId && row.value.status == Published && row.value.author !in blocked
  }

  function PlaceOf(comments: seq<Comment>, postId: nat, replyTo: Option<nat>,
                   blocked: set<nat>): Result<Place, CreateError> {
    if replyTo.None? then Ok(Place(None, None))
    else
      var target := FindComment(comments, replyTo.value);
      if !CanReplyTo(target, postId, blocked) then Err(CommentNotFound)
      else
        var rootId := ThreadId(target.value);
        var root := if rootId == target.value.id then target else FindComment(comments, rootId);
        if !CanReplyTo(root, postId, blocked) || root.value.threadRoot.Some? then Err(CommentNotFound)
        else Ok(Place(Some(rootId), Some(target.value.id)))
  }

  // ---------------------------------------------------------------- the table

  /** validate_discussion_comment_thread_links, before an insert. */
  predicate LinksAreValid(comments: seq<Comment>, row: Comment) {
    match row.threadRoot
    case None => row.replyTo == None
    case Some(rootId) =>
      var root := FindComment(comments, rootId);
      && root.Some? && root.value.postId == row.postId && root.value.threadRoot == None
      && row.replyTo.Some?
      && var target := FindComment(comments, row.replyTo.value);
      target.Some? && target.value.postId == row.postId && ThreadId(target.value) == rootId
  }

  /** The published replies of a root. */
  function CountReplies(comments: seq<Comment>, rootId: nat): nat {
    if comments == [] then 0
    else
      var n := |comments| - 1;
      CountReplies(comments[..n], rootId) + if Passes(comments[n], RepliesOf(rootId)) then 1 else 0
  }

  /** refresh_discussion_comment_reply_metrics; counts are taken over the table all. */
  function Refresh(all: seq<Comment>, comments: seq<Comment>, target: Option<nat>): (r: seq<Comment>)
    ensures |r| == |comments|
  {
    if comments == [] then []
    else
      var n := |comments| - 1;
      var row := comments[n];
      Refresh(all, comments[..n], target)
      + [if target == Some(row.id) then
          row.(threadReplyCount := if row.threadRoot == None then CountReplies(all, row.id) else 0) else row]
  }

  /** The counts of a row's reply target and of its thread root are refreshed after it changed. */
  function RefreshFor(comments: seq<Comment>, row: Comment): seq<Comment> {
    var once := Refresh(comments, comments, row.replyTo);
    Refresh(once, once, row.threadRoot)
  }

  function InsertComment(comments: seq<Comment>, row: Comment): Result<seq<Comment>, CreateError> {
    if FindComment(comments, row.id).Some? || !LinksAreValid(comments, row) then Err(StorageError)
    else Ok(RefreshFor(comments + [row], row))
  }

  function NewRow(input: Input, place: Place): Comment {
    Comment(input.id, input.postId, input.author, place.threadRoot, place.replyTo, input.createdAt, 0.0, 0,
        input.status)
  }

  function CreateComment(db: Db, input: Input): Result<Db, CreateError> {
    var post := FindPost(db.posts, input.postId);
    if !input.userExists then Err(UserNotFound)
    else if !input.verified then Err(VerifiedIdentityRequired)
    else if post.None? || post.value.status != Published || post.value.author in input.blocked then Err(PostNotFound)
    else
      match PlaceOf(db.comments, input.postId, input.replyTo, input.blocked)
      case Err(error) => Err(error)
      case Ok(place) =>
        if !input.bodyOk then Err(ValidationFailed)
        else
          match InsertComment(db.comments, NewRow(input, place))
          case Err(error) => Err(error)
          case Ok(comments) => Ok(db.(comments := comments))
  }

  // ---------------------------------------------------------------- runs

  datatype Action =
    | AddPost(post: Post)
    | SetPostStatus(postId: nat, status: Status)
    | Create(input: Input)
    | SetStatus(commentId: nat, status: Status)
    | Rescore(commentId: nat, score: real)

  function WithPostStatus(posts: seq<Post>, id: nat, status: Status): seq<Post> {
    if posts == [] then []
    else [if posts[0].id == id then posts[0].(status := status) else posts[0]] + WithPostStatus(posts[1..], id, status)
  }

  function SetStatusOf(comments: seq<Comment>, id: nat, status: Status): seq<Comment> {
    var at := IndexOf(comments, id);
    if at.None? then comments
    else
      var row := comments[at.value].(status := status);
      RefreshFor(comments[at.value := row], row)
  }

  function Step(db: Db, a: Action): Db {
    match a
    case AddPost(post) => if FindPost(db.posts, post.id).Some? then db else db.(posts := db.posts + [post])
    case SetPostStatus(id, status) => db.(posts := WithPostStatus(db.posts, id, status))
    case Create(input) => var r := CreateComment(db, input); if r.Ok? then r.value else db
    case SetStatus(id, status) => db.(comments := SetStatusOf(db.comments, id, status))
    case Rescore(id, score) =>
      var at := IndexOf(db.comments, id);
      if at.None? then db else db.(comments := db.comments[at.value := db.comments[at.value].(feedScore := score)])
  }

  function Run(actions: seq<Action>): Db {
    if actions == [] then Db([], []) else Step(Run(actions[..|actions| - 1]), actions[|actions| - 1])
  }

  /** The place of a comment in order of creation. */
  function IndexOf(comments: seq<Comment>, id: nat): (r: Option<nat>)
    ensures r.Some? ==> r.value < |comments| && comments[r.value].id == id
    ensures r.None? ==> forall k :: 0 <= k < |comments| ==> comments[k].id != id
  {
    if comments == [] then None
    else
      var n := |comments| - 1;
      var at := IndexOf(comments[..n], id);
      if at.Some? then at else if comments[n].id == id then Some(n) else None
  }

  // ---------------------------------------------------------------- the invariant

  /** A root answers nothing; a reply answers an earlier comment of its own thread, whose root is an earlier root of
      the same post. */
  ghost predicate LinkedAt(comments: seq<Comment>, k: nat)
    requires k < |comments|
  {
    var row := comments[k];
    match row.threadRoot
    case None => row.replyTo == None
    case Some(rootId) =>
      && row.replyTo.Some?
      && EarlierAt(comments, k, row.replyTo.value)
          && ThreadId(comments[IndexOf(comments, row.replyTo.value).value]) == rootId
      && EarlierAt(comments, k, rootId) && comments[IndexOf(comments, rootId).value].threadRoot == None
  }

  ghost predicate EarlierAt(comments: seq<Comment>, k: nat, id: nat)
    requires k < |comments|
  {
    var at := IndexOf(comments, id);
    at.Some? && at.value < k && comments[at.value].postId == comments[k].postId
  }

  ghost predicate CountedAt(comments: seq<Comment>, k: nat)
    requires k < |comments|
  {
    comments[k].threadReplyCount == if comments[k].threadRoot == None then CountReplies(comments, comments[k].id) else 0
  }

  ghost predicate Linked(comments: seq<Comment>) {
    DistinctIds(comments) && forall k :: 0 <= k < |comments| ==> LinkedAt(comments, k)
  }

  ghost predicate Counted(comments: seq<Comment>) {
    forall k :: 0 <= k < |comments| ==> CountedAt(comments, k)
  }

  // ---------------------------------------------------------------- the service method

  /** The discussion tables as createComment finds and leaves them. */
  class DiscussionStore {
    var posts: seq<Post>
    var comments: seq<Comment>

    constructor ()
      ensures Tables() == Run([])
    {
      posts, comments := [], [];
    }

    function Tables(): Db
      reads this
    {
      Db(posts, comments)
    }

    method InsertRow(row: Comment) returns (ok: bool)
      modifies this`comments
      ensures ok == InsertComment(old(comments), row).Ok?
      ensures comments == if ok then InsertComment(old(comments), row).value else old(comments)
    {
      ok := FindComment(comments, row.id).None? && LinksAreValid(comments, row);
      if ok {
        comments := comments + [row];
        comments := Refresh(comments, comments, row.replyTo);
        comments := Refresh(comments, comments, row.threadRoot);
      }
    }

    method AddComment(input: Input) returns (error: Option<CreateError>)
      modifies this`comments
      ensures var r := CreateComment(old(Tables()), input);
        && error == (if r.Ok? then None else Some(r.error))
        && Tables() == (if r.Ok? then r.value else old(Tables()))
    {
      if !input.userExists {
        return Some(UserNotFound);
      }
      if !input.verified {
        return Some(VerifiedIdentityRequired);
      }
      var post := FindPost(posts, input.postId);
      if post.None? || post.value.status != Published || post.value.author in input.blocked {
        return Some(PostNotFound);
      }
      var threadRoot, replyTo := None, None;
      if input.replyTo.Some? {
        var target := FindComment(comments, input.replyTo.value);
        if !CanReplyTo(target, input.postId, input.blocked) {
          return Some(CommentNotFound);
        }
        threadRoot := Some(ThreadId(target.value));
        var root := target;
        if threadRoot.value != target.value.id {
          root := FindComment(comments, threadRoot.value);
        }
        if !CanReplyTo(root, input.postId, input.blocked) || root.value.threadRoot.Some? {
          return Some(CommentNotFound);
        }
        replyTo := Some(target.value.id);
      }
      if !input.bodyOk {
        return Some(ValidationFailed);
      }
      var stored := InsertRow(NewRow(input, Place(threadRoot, replyTo)));
      return if stored then None else Some(StorageError);
    }
  }
}
