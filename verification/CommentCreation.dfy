/** Creating one comment: when it is accepted, which refusal comes first, and what is stored. */
module CommentCreation {
  import opened Prelude
  import opened Comments
  import opened CommentListing
  import opened Threads
  import opened ThreadRuns

  // ---------------------------------------------------------------- when a comment is accepted

  /** A published comment of the post, by an author the creator has not blocked. */
  predicate Answerable(row: Option<Comment>, input: Input) {
    && row.Some? && row.value.postId == input.postId && row.value.status == Published
    && row.value.author !in input.blocked
  }

  predicate PostOpenFor(db: Db, input: Input) {
    var post := FindPost(db.posts, input.postId);
    post.Some? && post.value.status == Published && post.value.author !in input.blocked
  }

  /** The root of the thread of a comment that is answered: the comment it names, or itself. */
  function RootAnswered(comments: seq<Comment>, target: Comment): Option<Comment> {
    FindComment(comments, if target.threadRoot.Some? then target.threadRoot.value else target.id)
  }

  /** A new thread, or a reply to a comment that can be answered in a thread whose root can be answered. */
  predicate PlaceOpenFor(db: Db, input: Input) {
    input.replyTo.Some? ==>
      var target := FindComment(db.comments, input.replyTo.value);
      && Answerable(target, input)
      && var root := RootAnswered(db.comments, target.value);
         Answerable(root, input) && root.value.threadRoot == None
  }

  lemma PlaceFoundIff(comments: seq<Comment>, db: Db, input: Input)
    requires db.comments == comments
    ensures var r := PlaceOf(comments, input.postId, input.replyTo, input.blocked);
      && (r.Ok? <==> PlaceOpenFor(db, input)) && (r.Err? ==> r.error == CommentNotFound)
  {
  }

  /** Exactly when a comment is accepted, and which refusal comes first otherwise. */
  lemma CommentAcceptedIff(db: Db, input: Input)
    ensures var r := CreateComment(db, input);
      var user := input.userExists && input.verified;
      var open := user && PostOpenFor(db, input);
      var placed := open && PlaceOpenFor(db, input);
      var valid := placed && input.bodyOk;
      && (r == Err(UserNotFound) <==> !input.userExists)
      && (r == Err(VerifiedIdentityRequired) <==> input.userExists && !input.verified)
      && (r == Err(PostNotFound) <==> user && !open)
      && (r == Err(CommentNotFound) <==> open && !placed)
      && (r == Err(ValidationFailed) <==> placed && !valid)
      && (r == Err(StorageError) <==> valid && FindComment(db.comments, input.id).Some?)
      && (r.Ok? <==> valid && FindComment(db.comments, input.id).None?)
  {
    PlaceFoundIff(db.comments, db, input);
    if PlaceOf(db.comments, input.postId, input.replyTo, input.blocked).Ok? {
      ServiceLinksAreValid(db.comments, input);
    }
  }

  // ---------------------------------------------------------------- what is stored

  /** The row differs in nothing but its stored count of replies. */
  predicate SameButCount(x: Comment, y: Comment) {
    y == Comment(x.id, x.postId, x.author, x.threadRoot, x.replyTo, x.createdAt, x.feedScore, y.threadReplyCount,
                 x.status)
  }

  predicate IsFreshRow(row: Comment, input: Input) {
    && row.id == input.id && row.postId == input.postId && row.author == input.author
    && row.createdAt == input.createdAt && row.status == input.status
    && row.feedScore == 0.0 && row.threadReplyCount == 0
  }

  /** A new thread answers nothing; a reply answers its target in the target's thread. */
  predicate IsPlaced(comments: seq<Comment>, row: Comment, input: Input) {
    if input.replyTo.None? then row.threadRoot == None && row.replyTo == None
    else
      var target := FindComment(comments, input.replyTo.value);
      && target.Some? && row.replyTo == Some(target.value.id)
      && row.threadRoot == Some(if target.value.threadRoot.Some? then target.value.threadRoot.value
                                else target.value.id)
  }

  /** The comment is neither what the row answers nor the root of its thread. */
  predicate IsElsewhere(x: Comment, row: Comment) {
    row.replyTo != Some(x.id) && row.threadRoot != Some(x.id)
  }

  lemma AddedRow(db: Db, input: Input)
    requires CreateComment(db, input).Ok?
    ensures var place := PlaceOf(db.comments, input.postId, input.replyTo, input.blocked);
      && place.Ok? && FindComment(db.comments, input.id).None?
      && var row := NewRow(input, place.value);
         && IsFreshRow(row, input) && IsPlaced(db.comments, row, input)
         && CreateComment(db, input).value == Db(db.posts, RefreshFor(db.comments + [row], row))
  {
  }

  lemma RefreshedRows(comments: seq<Comment>, row: Comment, k: nat)
    requires k < |comments|
    ensures |RefreshFor(comments, row)| == |comments|
    ensures var refreshed := RefreshFor(comments, row)[k];
      && SameButCount(comments[k], refreshed)
      && (IsElsewhere(comments[k], row) ==> refreshed == comments[k])
  {
    var once := Refresh(comments, comments, row.replyTo);
    RefreshAt(comments, comments, row.replyTo, k);
    RefreshAt(once, once, row.threadRoot, k);
  }

  lemma PlacedElsewhere(comments: seq<Comment>, row: Comment, input: Input)
    requires FindComment(comments, input.id).None? && PlaceOf(comments, input.postId, input.replyTo, input.blocked).Ok?
    requires row == NewRow(input, PlaceOf(comments, input.postId, input.replyTo, input.blocked).value)
    ensures row.replyTo != Some(row.id) && row.threadRoot != Some(row.id)
  {
  }

  /** What an accepted comment leaves: one row more, at the end, with the fields of the input and the status that
      moderation decided; of the other rows at most the stored counts of its target and its root changed. */
  lemma CommentStored(db: Db, input: Input)
    requires CreateComment(db, input).Ok?
    ensures var after := CreateComment(db, input).value;
      var n := |db.comments|;
      && after.posts == db.posts && |after.comments| == n + 1
      && IsFreshRow(after.comments[n], input) && IsPlaced(db.comments, after.comments[n], input)
      && forall k :: 0 <= k < n ==>
          && SameButCount(db.comments[k], after.comments[k])
          && (IsElsewhere(db.comments[k], after.comments[n]) ==> after.comments[k] == db.comments[k])
  {
    var n := |db.comments|;
    var row := NewRow(input, PlaceOf(db.comments, input.postId, input.replyTo, input.blocked).value);
    var grown := db.comments + [row];
    AddedRow(db, input);
    PlacedElsewhere(db.comments, row, input);
    RefreshedRows(grown, row, n);
    forall k | 0 <= k < n
      ensures SameButCount(db.comments[k], RefreshFor(grown, row)[k])
      ensures IsElsewhere(db.comments[k], row) ==> RefreshFor(grown, row)[k] == db.comments[k]
    {
      RefreshedRows(grown, row, k);
      assert grown[k] == db.comments[k];
    }
  }
}
