/** Keyset paging: each page reads the rows strictly after a cursor, one more than it shows, and hands out the
    key of its last row when there is more. */
module Paging {
  import opened Prelude
  import opened Comments

  /** A cursor as it arrives: none, a text that is not a cursor, or the encoding of a key. */
  datatype Token = NoToken | Unreadable | Encoded(key: Key)

  datatype Page = Page(rows: seq<Comment>, next: Token)

  /** What a client has seen after some requests, and whether it was told that there is no more. */
  datatype Walk<Item> = Walk(items: seq<Item>, done: bool)

  /** decodeCursor; valid: the key has a finite score, an ISO timestamp and an RFC 4122 UUID. */
  function Decode(valid: Key -> bool, token: Token): Option<Key> {
    if token.Encoded? && valid(token.key) then Some(token.key) else None
  }

  function Take<T>(rows: seq<T>, n: nat): seq<T> {
    if |rows| <= n then rows else rows[..n]
  }

  /** The filter a cursor adds to the query, alternative by alternative. */
  predicate IsAfter(order: Order, row: Comment, cursor: Key) {
    match order
    case ByScore =>
      || row.feedScore < cursor.feedScore
      || (row.feedScore == cursor.feedScore && row.createdAt < cursor.createdAt)
      || (row.feedScore == cursor.feedScore && row.createdAt == cursor.createdAt && row.id < cursor.id)
    case ByAge =>
      || row.createdAt > cursor.createdAt
      || (row.createdAt == cursor.createdAt && row.id > cursor.id)
  }

  function After(order: Order, rows: seq<Comment>, cursor: Key): seq<Comment> {
    if rows == [] then []
    else if IsAfter(order, rows[0], cursor) then [rows[0]] + After(order, rows[1..], cursor)
    else After(order, rows[1..], cursor)
  }

  function ReadAfter(order: Order, rows: seq<Comment>, cursor: Option<Key>, limit: nat): seq<Comment> {
    Take(if cursor.Some? then After(order, rows, cursor.value) else rows, limit)
  }

  function ReadPage(order: Order, rows: seq<Comment>, valid: Key -> bool, token: Token, limit: nat): Page {
    var fetched := ReadAfter(order, rows, Decode(valid, token), limit + 1);
    var shown := Take(fetched, limit);
    Page(shown, if |fetched| > limit && shown != [] then Encoded(KeyOf(shown[|shown| - 1])) else NoToken)
  }

  function FlatMap<Item>(rows: seq<Comment>, show: Comment -> seq<Item>): seq<Item> {
    if rows == [] then [] else FlatMap(rows[..|rows| - 1], show) + show(rows[|rows| - 1])
  }

  /** A client that follows the cursors, one request for each limit, until there is no more. */
  function Follow<Item>(order: Order, rows: seq<Comment>, valid: Key -> bool, token: Token, limits: seq<nat>,
                        show: Comment -> seq<Item>): Walk<Item>
    decreases |limits|
  {
    if limits == [] then Walk([], false)
    else
      var page := ReadPage(order, rows, valid, token, limits[0]);
      if page.next == NoToken then Walk(FlatMap(page.rows, show), true)
      else
        var rest := Follow(order, rows, valid, page.next, limits[1..], show);
        Walk(FlatMap(page.rows, show) + rest.items, rest.done)
  }

  // ---------------------------------------------------------------- one page

  lemma {:induction false} AllAfter(order: Order, rows: seq<Comment>, key: Key)
    requires forall k :: 0 <= k < |rows| ==> Before(order, key, KeyOf(rows[k]))
    ensures After(order, rows, key) == rows
  {
    if rows == [] {
    } else {
      AllAfter(order, rows[1..], key);
      assert rows == [rows[0]] + rows[1..];
    }
  }

  /** The rows after the key of a row are the rows that follow it. */
  lemma {:induction false} AfterIsSuffix(order: Order, rows: seq<Comment>, k: nat)
    requires k < |rows| && Ordered(order, rows)
    ensures After(order, rows, KeyOf(rows[k])) == rows[k + 1..]
  {
    if k == 0 {
      AllAfter(order, rows[1..], KeyOf(rows[0]));
    } else {
      assert Before(order, KeyOf(rows[0]), KeyOf(rows[k]));
      AfterIsSuffix(order, rows[1..], k - 1);
      assert rows[1..][k..] == rows[k + 1..];
    }
  }

  /** The token resumes reading at row start. */
  ghost predicate ResumesAt(rows: seq<Comment>, valid: Key -> bool, token: Token, start: nat) {
    if start == 0 then Decode(valid, token) == None
    else start <= |rows| && Decode(valid, token) == Some(KeyOf(rows[start - 1]))
  }

  function PageEnd(rows: seq<Comment>, start: nat, limit: nat): nat {
    if start + limit < |rows| then start + limit else |rows|
  }

  /** Cutting one row more and then one row less. */
  lemma TakeIsSlice(rows: seq<Comment>, start: nat, limit: nat)
    requires start <= |rows|
    ensures var fetched := Take(rows[start..], limit + 1);
      && Take(fetched, limit) == rows[start..PageEnd(rows, start, limit)]
      && (|fetched| > limit <==> PageEnd(rows, start, limit) < |rows|)
  {
  }

  lemma ReadFromStart(order: Order, rows: seq<Comment>, valid: Key -> bool, token: Token, start: nat, limit: nat)
    requires Ordered(order, rows) && start <= |rows| && ResumesAt(rows, valid, token, start)
    ensures ReadAfter(order, rows, Decode(valid, token), limit) == Take(rows[start..], limit)
  {
    if start > 0 {
      AfterIsSuffix(order, rows, start - 1);
    }
  }

  /** The rows from start on up to the limit, and a cursor for the last of them if more follow. */
  function SliceAt(rows: seq<Comment>, start: nat, limit: nat): Page
    requires start <= |rows| && limit > 0
  {
    var end := PageEnd(rows, start, limit);
    Page(rows[start..end], if end < |rows| then Encoded(KeyOf(rows[end - 1])) else NoToken)
  }

  lemma PageIsSlice(order: Order, rows: seq<Comment>, valid: Key -> bool, token: Token, start: nat, limit: nat)
    requires Ordered(order, rows) && limit > 0 && start <= |rows| && ResumesAt(rows, valid, token, start)
    ensures ReadPage(order, rows, valid, token, limit) == SliceAt(rows, start, limit)
  {
    ReadFromStart(order, rows, valid, token, start, limit + 1);
    TakeIsSlice(rows, start, limit);
  }

  // ---------------------------------------------------------------- following the cursors

  ghost predicate BoundariesValid(rows: seq<Comment>, valid: Key -> bool) {
    forall k :: 0 <= k < |rows| - 1 ==> valid(KeyOf(rows[k]))
  }

  ghost predicate Positive(limits: seq<nat>) {
    forall k :: 0 <= k < |limits| ==> limits[k] > 0
  }

  lemma {:induction false} FlatMapSplits<Item>(rows: seq<Comment>, mid: nat, show: Comment -> seq<Item>)
    requires mid <= |rows|
    ensures FlatMap(rows, show) == FlatMap(rows[..mid], show) + FlatMap(rows[mid..], show)
  {
    if mid == |rows| {
      assert rows[..mid] == rows;
      assert FlatMap(rows, show) + [] == FlatMap(rows, show);
    } else {
      var n := |rows| - 1;
      FlatMapSplits(rows[..n], mid, show);
      assert rows[..n][..mid] == rows[..mid] && rows[..n][mid..] == rows[mid..][..n - mid];
      assert (FlatMap(rows[..mid], show) + FlatMap(rows[..n][mid..], show)) + show(rows[n])
          == FlatMap(rows[..mid], show) + (FlatMap(rows[..n][mid..], show) + show(rows[n]));
    }
  }

  lemma SplitPage<Item>(rows: seq<Comment>, start: nat, end: nat, show: Comment -> seq<Item>)
    requires start <= end <= |rows|
    ensures FlatMap(rows[start..], show) == FlatMap(rows[start..end], show) + FlatMap(rows[end..], show)
  {
    FlatMapSplits(rows[start..], end - start, show);
    assert rows[start..][..end - start] == rows[start..end];
    assert rows[start..][end - start..] == rows[end..];
  }

  /** What remains to be shown and followed after a page. */
  function Continue<Item>(order: Order, rows: seq<Comment>, valid: Key -> bool, page: Page, limits: seq<nat>,
                          show: Comment -> seq<Item>): Walk<Item> {
    if page.next == NoToken then Walk(FlatMap(page.rows, show), true)
    else
      var rest := Follow(order, rows, valid, page.next, limits, show);
      Walk(FlatMap(page.rows, show) + rest.items, rest.done)
  }

  lemma FollowUnfolds<Item>(order: Order, rows: seq<Comment>, valid: Key -> bool, token: Token, limits: seq<nat>,
                            show: Comment -> seq<Item>)
    requires limits != []
    ensures Follow(order, rows, valid, token, limits, show)
         == Continue(order, rows, valid, ReadPage(order, rows, valid, token, limits[0]), limits[1..], show)
  {
  }

  lemma FollowStep<Item>(order: Order, rows: seq<Comment>, valid: Key -> bool, token: Token,
                         start: nat, limits: seq<nat>, show: Comment -> seq<Item>)
    requires Ordered(order, rows) && limits != [] && limits[0] > 0
    requires start <= |rows| && ResumesAt(rows, valid, token, start)
    ensures Follow(order, rows, valid, token, limits, show)
         == Continue(order, rows, valid, SliceAt(rows, start, limits[0]), limits[1..], show)
  {
    PageIsSlice(order, rows, valid, token, start, limits[0]);
    FollowUnfolds(order, rows, valid, token, limits, show);
  }

  /** What a walk from row start has to deliver: always a beginning of what there is to show, all of it once the
      client is told that there is no more, and that within one request for each row. */
  ghost predicate Delivers<Item>(walk: Walk<Item>, rows: seq<Comment>, start: nat, requests: nat,
      show: Comment -> seq<Item>)
    requires start <= |rows|
  {
    && walk.items <= FlatMap(rows[start..], show)
    && (walk.done ==> walk.items == FlatMap(rows[start..], show))
    && (requests > 0 && requests >= |rows| - start ==> walk.done)
  }

  lemma PageThenRest<Item>(rest: Walk<Item>, rows: seq<Comment>, start: nat, end: nat, requests: nat,
      show: Comment -> seq<Item>)
    requires start < end < |rows| && requests > 0 && Delivers(rest, rows, end, requests - 1, show)
    ensures Delivers(Walk(FlatMap(rows[start..end], show) + rest.items, rest.done), rows, start, requests, show)
  {
    SplitPage(rows, start, end, show);
  }

  lemma NextResumes(rows: seq<Comment>, valid: Key -> bool, end: nat)
    requires BoundariesValid(rows, valid) && 0 < end < |rows|
    ensures ResumesAt(rows, valid, Encoded(KeyOf(rows[end - 1])), end)
  {
  }

  lemma LastPageDelivers<Item>(rows: seq<Comment>, start: nat, requests: nat, show: Comment -> seq<Item>)
    requires start <= |rows|
    ensures Delivers(Walk(FlatMap(rows[start..|rows|], show), true), rows, start, requests, show)
  {
    assert rows[start..|rows|] == rows[start..];
  }

  lemma {:induction false} FollowFrom<Item>(order: Order, rows: seq<Comment>, valid: Key -> bool, token: Token,
                                            start: nat, limits: seq<nat>, show: Comment -> seq<Item>)
    requires Ordered(order, rows) && BoundariesValid(rows, valid) && Positive(limits)
    requires start <= |rows| && ResumesAt(rows, valid, token, start)
    ensures Delivers(Follow(order, rows, valid, token, limits, show), rows, start, |limits|, show)
    decreases |limits|
  {
    if limits != [] {
      var end := PageEnd(rows, start, limits[0]);
      FollowStep(order, rows, valid, token, start, limits, show);
      if end < |rows| {
        var next := Encoded(KeyOf(rows[end - 1]));
        NextResumes(rows, valid, end);
        FollowFrom(order, rows, valid, next, end, limits[1..], show);
        PageThenRest(Follow(order, rows, valid, next, limits[1..], show), rows, start, end, |limits|, show);
      } else {
        LastPageDelivers(rows, start, |limits|, show);
      }
    }
  }

  /** Following the cursors from the start shows every row once, in order, for any page sizes. */
  lemma FollowingShowsAll<Item>(order: Order, rows: seq<Comment>, valid: Key -> bool, limits: seq<nat>,
                                show: Comment -> seq<Item>)
    requires Ordered(order, rows) && BoundariesValid(rows, valid) && Positive(limits)
    requires |limits| > 0 && |limits| >= |rows|
    ensures Follow(order, rows, valid, NoToken, limits, show) == Walk(FlatMap(rows, show), true)
  {
    FollowFrom(order, rows, valid, NoToken, 0, limits, show);
    assert rows[0..] == rows;
  }

  // ---------------------------------------------------------------- keys that do not decode

  function Pages(limit: nat, n: nat): (limits: seq<nat>)
    ensures |limits| == n && forall k :: 0 <= k < n ==> limits[k] == limit
  {
    if n == 0 then [] else [limit] + Pages(limit, n - 1)
  }

  /** So many rows fill pages of this size: a multiple of it. */
  predicate EndsPage(end: nat, limit: nat)
    requires limit > 0
  {
    end == 0 || (end >= limit && EndsPage(end - limit, limit))
  }

  lemma {:induction false} NextPageEnd(start: nat, end: nat, limit: nat)
    requires limit > 0 && EndsPage(start, limit) && EndsPage(end, limit) && start < end
    ensures start + limit <= end
    decreases start
  {
    if start > 0 {
      NextPageEnd(start - limit, end - limit, limit);
    }
  }

  /** The keys that become cursors when the pages have one size: those of the last row of each full page, except at the
      end of the listing. */
  ghost predicate PageKeysValid(rows: seq<Comment>, valid: Key -> bool, limit: nat)
    requires limit > 0
  {
    forall end :: 0 < end < |rows| ==> !Refused(rows, valid, limit, end)
  }

  predicate Refused(rows: seq<Comment>, valid: Key -> bool, limit: nat, end: nat)
    requires limit > 0 && 0 < end <= |rows|
  {
    EndsPage(end, limit) && !valid(KeyOf(rows[end - 1]))
  }

  /** Where pages of one size lead: from a row on to the next page, or back to the start if the key is refused. */
  predicate Ends(rows: seq<Comment>, valid: Key -> bool, start: nat, limit: nat, n: nat)
    requires limit > 0
    decreases n
  {
    if n == 0 then false
    else if start + limit >= |rows| then true
    else Ends(rows, valid, if valid(KeyOf(rows[start + limit - 1])) then start + limit else 0, limit, n - 1)
  }

  /** The cursor that a page of this size hands out. */
  function NextOf(order: Order, rows: seq<Comment>, valid: Key -> bool, limit: nat): Token -> Token {
    token => ReadPage(order, rows, valid, token, limit).next
  }

  /** Whether a client that follows the cursors is told, in so many requests, that there is no more. */
  predicate ReachesEnd(next: Token -> Token, token: Token, n: nat)
    decreases n
  {
    n > 0 && (next(token) == NoToken || ReachesEnd(next, next(token), n - 1))
  }

  lemma {:induction false} FollowReachesEnd<Item>(order: Order, rows: seq<Comment>, valid: Key -> bool, token: Token,
                                                  limit: nat, n: nat, show: Comment -> seq<Item>)
    ensures Follow(order, rows, valid, token, Pages(limit, n), show).done
         == ReachesEnd(NextOf(order, rows, valid, limit), token, n)
    decreases n
  {
    if n > 0 {
      var page := ReadPage(order, rows, valid, token, limit);
      FollowUnfolds(order, rows, valid, token, Pages(limit, n), show);
      assert Pages(limit, n)[1..] == Pages(limit, n - 1);
      FollowReachesEnd(order, rows, valid, page.next, limit, n - 1, show);
    }
  }

  function NextToken(rows: seq<Comment>, start: nat, limit: nat): Token {
    if 0 < start + limit < |rows| then Encoded(KeyOf(rows[start + limit - 1])) else NoToken
  }

  /** A token that resumes at a row leads to the cursor of that page. */
  ghost predicate LeadsOn(next: Token -> Token, rows: seq<Comment>, valid: Key -> bool, limit: nat) {
    forall token, start: nat :: start <= |rows| && ResumesAt(rows, valid, token, start) ==>
      next(token) == NextToken(rows, start, limit)
  }

  lemma NextOfPage(order: Order, rows: seq<Comment>, valid: Key -> bool, token: Token, start: nat, limit: nat)
    requires Ordered(order, rows) && limit > 0 && start <= |rows| && ResumesAt(rows, valid, token, start)
    ensures ReadPage(order, rows, valid, token, limit).next == NextToken(rows, start, limit)
  {
    PageIsSlice(order, rows, valid, token, start, limit);
  }

  lemma PagesLeadOn(order: Order, rows: seq<Comment>, valid: Key -> bool, limit: nat)
    requires Ordered(order, rows) && limit > 0
    ensures LeadsOn(NextOf(order, rows, valid, limit), rows, valid, limit)
  {
    forall token, start: nat | start <= |rows| && ResumesAt(rows, valid, token, start)
      ensures NextOf(order, rows, valid, limit)(token) == NextToken(rows, start, limit)
    {
      NextOfPage(order, rows, valid, token, start, limit);
      assert NextOf(order, rows, valid, limit)(token) == ReadPage(order, rows, valid, token, limit).next;
    }
  }

  lemma {:induction false} ReachesEndIff(next: Token -> Token, rows: seq<Comment>, valid: Key -> bool, token: Token,
                                         start: nat, limit: nat, n: nat)
    requires LeadsOn(next, rows, valid, limit) && limit > 0 && start <= |rows| && ResumesAt(rows, valid, token, start)
    ensures ReachesEnd(next, token, n) == Ends(rows, valid, start, limit, n)
    decreases n
  {
    if n > 0 && start + limit < |rows| {
      var key := KeyOf(rows[start + limit - 1]);
      ReachesEndIff(next, rows, valid, Encoded(key), if valid(key) then start + limit else 0, limit, n - 1);
    }
  }

  lemma {:induction false} ValidKeysEnd(rows: seq<Comment>, valid: Key -> bool, start: nat, limit: nat, n: nat)
    requires limit > 0 && PageKeysValid(rows, valid, limit) && EndsPage(start, limit)
    requires n > 0 && n >= |rows| - start
    ensures Ends(rows, valid, start, limit, n)
    decreases n
  {
    if start + limit < |rows| {
      assert !Refused(rows, valid, limit, start + limit);
      ValidKeysEnd(rows, valid, start + limit, limit, n - 1);
    }
  }

  /** Pages of one size that reach a page whose last key is refused start over for ever. */
  lemma {:induction false} RefusedKeyRestarts(rows: seq<Comment>, valid: Key -> bool, start: nat, bad: nat, limit: nat,
                                              n: nat)
    requires limit > 0 && 0 < bad < |rows| && Refused(rows, valid, limit, bad)
    requires forall end :: 0 < end < bad ==> !Refused(rows, valid, limit, end)
    requires start < bad && EndsPage(start, limit)
    ensures !Ends(rows, valid, start, limit, n)
    decreases n
  {
    if n > 0 {
      NextPageEnd(start, bad, limit);
      if start + limit == bad {
        RefusedKeyRestarts(rows, valid, 0, bad, limit, n - 1);
      } else {
        assert !Refused(rows, valid, limit, start + limit);
        RefusedKeyRestarts(rows, valid, start + limit, bad, limit, n - 1);
      }
    }
  }

  lemma FirstRefused(rows: seq<Comment>, valid: Key -> bool, limit: nat) returns (bad: nat)
    requires limit > 0 && !PageKeysValid(rows, valid, limit)
    ensures 0 < bad < |rows| && Refused(rows, valid, limit, bad)
    ensures forall end :: 0 < end < bad ==> !Refused(rows, valid, limit, end)
  {
    var last :| 0 < last < |rows| && Refused(rows, valid, limit, last);
    bad := 1;
    while !Refused(rows, valid, limit, bad)
      invariant 0 < bad <= last
      invariant forall end :: 0 < end < bad ==> !Refused(rows, valid, limit, end)
      decreases last - bad
    {
      bad := bad + 1;
    }
  }

  /** Pages of one size come to an end exactly when the key of the last row of each full page, except at the end of the
      listing, is accepted back. */
  lemma PagingEndsIff<Item>(order: Order, rows: seq<Comment>, valid: Key -> bool, limit: nat, n: nat,
                            show: Comment -> seq<Item>)
    requires Ordered(order, rows) && limit > 0 && n > 0 && n >= |rows|
    ensures Follow(order, rows, valid, NoToken, Pages(limit, n), show).done
        <==> PageKeysValid(rows, valid, limit)
  {
    FollowReachesEnd(order, rows, valid, NoToken, limit, n, show);
    PagesLeadOn(order, rows, valid, limit);
    ReachesEndIff(NextOf(order, rows, valid, limit), rows, valid, NoToken, 0, limit, n);
    if PageKeysValid(rows, valid, limit) {
      ValidKeysEnd(rows, valid, 0, limit, n);
    } else {
      var bad := FirstRefused(rows, valid, limit);
      RefusedKeyRestarts(rows, valid, 0, bad, limit, n);
    }
  }
}
