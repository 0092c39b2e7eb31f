/** The discussion tables, and ordered reads from them. */
module Comments {
  import opened Prelude

  datatype Status =
    | Draft | ModerationPending | Published | ReviewRequired | NeedsEdit | Blocked
    | ModerationError | AppealPending | AppealApproved | AppealRejected

  datatype Post = Post(id: nat, author: nat, status: Status)

  /** id: the 128-bit value of the row's UUID. */
  datatype Comment = Comment(id: nat, postId: nat, author: nat, threadRoot: Option<nat>, replyTo: Option<nat>,
                             createdAt: int, feedScore: real, threadReplyCount: int, status: Status)

  /** What a cursor carries; replies do not use the score. */
  datatype Key = Key(feedScore: real, createdAt: int, id: nat)

  function KeyOf(row: Comment): Key {
    Key(row.feedScore, row.createdAt, row.id)
  }

  /** Roots are listed by score, newest first; replies oldest first. Ties are broken by id. */
  datatype Order = ByScore | ByAge

  predicate Before(order: Order, a: Key, b: Key) {
    match order
    case ByScore =>
      || a.feedScore > b.feedScore
      || (a.feedScore == b.feedScore && a.createdAt > b.createdAt)
      || (a.feedScore == b.feedScore && a.createdAt == b.createdAt && a.id > b.id)
    case ByAge =>
      || a.createdAt < b.createdAt
      || (a.createdAt == b.createdAt && a.id < b.id)
  }

  /** Oldest first, and at one moment by ascending id. */
  ghost predicate OldestFirst(rows: seq<Comment>) {
    forall j, k :: 0 <= j < k < |rows| ==>
      rows[j].createdAt <= rows[k].createdAt && (rows[j].createdAt == rows[k].createdAt ==> rows[j].id < rows[k].id)
  }

  /** Highest score first, at one score newest first, and then by descending id. */
  ghost predicate BestFirst(rows: seq<Comment>) {
    forall j, k :: 0 <= j < k < |rows| ==>
      && rows[j].feedScore >= rows[k].feedScore
      && (rows[j].feedScore == rows[k].feedScore ==>
            rows[j].createdAt >= rows[k].createdAt
                && (rows[j].createdAt == rows[k].createdAt ==> rows[j].id > rows[k].id))
  }

  lemma OrderedMeans(rows: seq<Comment>)
    ensures Ordered(ByAge, rows) <==> OldestFirst(rows)
    ensures Ordered(ByScore, rows) <==> BestFirst(rows)
  {
    if OldestFirst(rows) {
      forall j, k | 0 <= j < k < |rows|
        ensures Before(ByAge, KeyOf(rows[j]), KeyOf(rows[k]))
      {
      }
    }
    if BestFirst(rows) {
      forall j, k | 0 <= j < k < |rows|
        ensures Before(ByScore, KeyOf(rows[j]), KeyOf(rows[k]))
      {
      }
    }
  }

  // ---------------------------------------------------------------- order by

  function Insert(order: Order, row: Comment, rows: seq<Comment>): seq<Comment> {
    if rows == [] || Before(order, KeyOf(row), KeyOf(rows[0])) then [row] + rows
    else [rows[0]] + Insert(order, row, rows[1..])
  }

  function OrderBy(order: Order, rows: seq<Comment>): seq<Comment> {
    if rows == [] then [] else Insert(order, rows[0], OrderBy(order, rows[1..]))
  }

  ghost predicate DistinctIds(rows: seq<Comment>) {
    forall j, k :: 0 <= j < k < |rows| ==> rows[j].id != rows[k].id
  }

  predicate Ordered(order: Order, rows: seq<Comment>) {
    forall j, k :: 0 <= j < k < |rows| ==> Before(order, KeyOf(rows[j]), KeyOf(rows[k]))
  }

  lemma {:induction false} InsertKeepsRows(order: Order, row: Comment, rows: seq<Comment>)
    ensures multiset(Insert(order, row, rows)) == multiset(rows) + multiset{row}
  {
    if rows == [] || Before(order, KeyOf(row), KeyOf(rows[0])) {
    } else {
      InsertKeepsRows(order, row, rows[1..]);
      assert rows == [rows[0]] + rows[1..];
    }
  }

  lemma InsertedIsOneOf(order: Order, row: Comment, rows: seq<Comment>, k: nat)
    requires k < |Insert(order, row, rows)|
    ensures Insert(order, row, rows)[k] == row || Insert(order, row, rows)[k] in rows
  {
    InsertKeepsRows(order, row, rows);
    assert Insert(order, row, rows)[k] in multiset(Insert(order, row, rows));
  }

  lemma {:induction false} InsertKeepsOrder(order: Order, row: Comment, rows: seq<Comment>)
    requires Ordered(order, rows)
    requires forall k :: 0 <= k < |rows| ==> rows[k].id != row.id
    ensures Ordered(order, Insert(order, row, rows))
  {
    if rows == [] || Before(order, KeyOf(row), KeyOf(rows[0])) {
    } else {
      var rest := rows[1..];
      InsertKeepsOrder(order, row, rest);
      forall k | 0 <= k < |Insert(order, row, rest)|
        ensures Before(order, KeyOf(rows[0]), KeyOf(Insert(order, row, rest)[k]))
      {
        InsertedIsOneOf(order, row, rest, k);
      }
    }
  }

  lemma {:induction false} InsertKeepsIds(order: Order, row: Comment, rows: seq<Comment>)
    requires DistinctIds(rows)
    requires forall k :: 0 <= k < |rows| ==> rows[k].id != row.id
    ensures DistinctIds(Insert(order, row, rows))
  {
    if rows == [] || Before(order, KeyOf(row), KeyOf(rows[0])) {
    } else {
      var rest := rows[1..];
      InsertKeepsIds(order, row, rest);
      forall k | 0 <= k < |Insert(order, row, rest)|
        ensures Insert(order, row, rest)[k].id != rows[0].id
      {
        InsertedIsOneOf(order, row, rest, k);
      }
    }
  }

  lemma {:induction false} OrderByKeepsRows(order: Order, rows: seq<Comment>)
    ensures multiset(OrderBy(order, rows)) == multiset(rows)
  {
    if rows == [] {
    } else {
      OrderByKeepsRows(order, rows[1..]);
      InsertKeepsRows(order, rows[0], OrderBy(order, rows[1..]));
      assert rows == [rows[0]] + rows[1..];
    }
  }

  lemma FirstIsNew(order: Order, rows: seq<Comment>, k: nat)
    requires DistinctIds(rows) && rows != [] && k < |OrderBy(order, rows[1..])|
    ensures OrderBy(order, rows[1..])[k].id != rows[0].id
  {
    OrderByKeepsRows(order, rows[1..]);
    var row := OrderBy(order, rows[1..])[k];
    assert row in multiset(OrderBy(order, rows[1..]));
    assert row in rows[1..];
  }

  /** Ordering loses nothing, repeats nothing and orders strictly. */
  lemma {:induction false} OrderByOrders(order: Order, rows: seq<Comment>)
    requires DistinctIds(rows)
    ensures multiset(OrderBy(order, rows)) == multiset(rows)
    ensures Ordered(order, OrderBy(order, rows)) && DistinctIds(OrderBy(order, rows))
  {
    if rows == [] {
    } else {
      var rest := OrderBy(order, rows[1..]);
      OrderByOrders(order, rows[1..]);
      forall k | 0 <= k < |rest|
        ensures rest[k].id != rows[0].id
      {
        FirstIsNew(order, rows, k);
      }
      InsertKeepsOrder(order, rows[0], rest);
      InsertKeepsIds(order, rows[0], rest);
      OrderByKeepsRows(order, rows);
    }
  }

  // ---------------------------------------------------------------- where

  datatype Filter = RepliesOf(rootId: nat) | RootsOf(postId: nat)

  predicate Passes(row: Comment, filter: Filter) {
    && row.status == Published
    && match filter
       case RepliesOf(rootId) => row.threadRoot == Some(rootId)
       case RootsOf(postId) => row.postId == postId && row.threadRoot == None
  }

  function Where(table: seq<Comment>, filter: Filter): (rows: seq<Comment>)
    ensures forall row :: row in rows <==> row in table && Passes(row, filter)
  {
    if table == [] then []
    else if Passes(table[0], filter) then [table[0]] + Where(table[1..], filter)
    else Where(table[1..], filter)
  }

  lemma {:induction false} WhereKeepsIds(table: seq<Comment>, filter: Filter)
    requires DistinctIds(table)
    ensures DistinctIds(Where(table, filter))
  {
    if table == [] {
    } else {
      var rest := Where(table[1..], filter);
      WhereKeepsIds(table[1..], filter);
      forall k | 0 <= k < |rest|
        ensures rest[k].id != table[0].id
      {
        assert rest[k] in table[1..];
      }
    }
  }

  function OrderOf(filter: Filter): Order {
    if filter.RootsOf? then ByScore else ByAge
  }

  /** The rows of a listing, in the order in which they are listed. */
  function Listed(table: seq<Comment>, filter: Filter): seq<Comment> {
    OrderBy(OrderOf(filter), Where(table, filter))
  }

  lemma ListedIsOrdered(table: seq<Comment>, filter: Filter)
    requires DistinctIds(table)
    ensures Ordered(OrderOf(filter), Listed(table, filter))
    ensures multiset(Listed(table, filter)) == multiset(Where(table, filter))
    ensures DistinctIds(Listed(table, filter))
  {
    WhereKeepsIds(table, filter);
    OrderByOrders(OrderOf(filter), Where(table, filter));
  }

  function FindPost(posts: seq<Post>, id: nat): (r: Option<Post>)
    ensures r.Some? ==> r.value in posts && r.value.id == id
    ensures r.None? ==> forall post :: post in posts ==> post.id != id
  {
    if posts == [] then None else if posts[0].id == id then Some(posts[0]) else FindPost(posts[1..], id)
  }

  function FindComment(table: seq<Comment>, id: nat): (r: Option<Comment>)
    ensures r.Some? ==> r.value in table && r.value.id == id
    ensures r.None? ==> forall row :: row in table ==> row.id != id
  {
    if table == [] then None else if table[0].id == id then Some(table[0]) else FindComment(table[1..], id)
  }
}
