/** The life of refresh and access tokens over a run in which every minted token is new.
    The ledger records which family each refresh token was handed to and which were accepted. */
module RefreshTokens {
  import opened Prelude
  import opened Sessions
  import opened SessionRuns
  import opened SessionHistory

  datatype Grant = Grant(family: nat, token: Hash)

  datatype World = World(db: Tables, issued: seq<Grant>, accepted: seq<Grant>, access: set<Hash>)

  function Minted(op: Op): Option<Tokens> {
    match op
    case LoginOp(_, _, _, _, minted, _) => Some(minted)
    case RegisterOp(_, _, _, _, _, _, _, _, minted, _) => Some(minted)
    case RefreshOp(_, minted, _) => Some(minted)
    case _ => None
  }

  /** The tokens an operation would hand out were never handed out before. */
  ghost predicate MintsNew(w: World, op: Op) {
    Minted(op).Some? ==>
      && (forall k :: 0 <= k < |w.issued| ==> w.issued[k].token != Minted(op).value.refresh)
      && Minted(op).value.access !in w.access
  }

  function Serve(policy: Policy, w: World, op: Op): World {
    var (db, r) := Apply(policy, w.db, op);
    match (r, op)
    case (SessionIssued(s), LoginOp(_, _, _, _, minted, _)) =>
      World(db, w.issued + [Grant(s, minted.refresh)], w.accepted, w.access + {minted.access})
    case (SessionIssued(s), RegisterOp(_, _, _, _, _, _, _, _, minted, _)) =>
      World(db, w.issued + [Grant(s, minted.refresh)], w.accepted, w.access + {minted.access})
    case (Refreshed(f), RefreshOp(token, minted, _)) =>
      World(db, w.issued + [Grant(f, minted.refresh)], w.accepted + [Grant(f, token)], w.access + {minted.access})
    case _ => w.(db := db)
  }

  /** The tokens of one family, oldest first. */
  function TokensOf(grants: seq<Grant>, f: nat): seq<Hash> {
    if grants == [] then []
    else
      var last := grants[|grants| - 1];
      TokensOf(grants[..|grants| - 1], f) + if last.family == f then [last.token] else []
  }

  ghost predicate AllDistinct(grants: seq<Grant>) {
    forall j, k :: 0 <= j < k < |grants| ==> grants[j].token != grants[k].token
  }

  /** A family's row shows the last two tokens it was given, and counts the accepted ones, which are
      all but the last. */
  ghost predicate FamilyHistory(row: Family, given: seq<Hash>, accepted: seq<Hash>) {
    && |given| == row.rotations + 1
    && row.current == given[row.rotations]
    && row.previous == (if row.rotations == 0 then None else Some(given[row.rotations - 1]))
    && accepted == given[..row.rotations]
  }

  ghost predicate KnownFamilies(db: Tables, grants: seq<Grant>) {
    forall k :: 0 <= k < |grants| ==> grants[k].family < |db.families|
  }

  ghost predicate HistoryAt(db: Tables, issued: seq<Grant>, accepted: seq<Grant>, f: nat)
    requires f < |db.families|
  {
    FamilyHistory(db.families[f], TokensOf(issued, f), TokensOf(accepted, f))
  }

  ghost predicate Histories(db: Tables, issued: seq<Grant>, accepted: seq<Grant>) {
    && KnownFamilies(db, issued) && KnownFamilies(db, accepted)
    && forall f :: 0 <= f < |db.families| ==> HistoryAt(db, issued, accepted, f)
  }

  ghost predicate AccessKnown(db: Tables, access: set<Hash>) {
    && (forall s :: 0 <= s < |db.sessions| ==> db.sessions[s].accessHash in access)
    && (forall r, s :: 0 <= r < s < |db.sessions| ==> db.sessions[r].accessHash != db.sessions[s].accessHash)
  }

  ghost predicate LedgerInv(policy: Policy, w: World) {
    && Inv(policy, w.db)
    && AllDistinct(w.issued)
    && Histories(w.db, w.issued, w.accepted)
    && AccessKnown(w.db, w.access)
  }

  // ---------------------------------------------------------------- the ledger as sequences

  lemma {:induction false} TokensOfAppend(grants: seq<Grant>, g: Grant, f: nat)
    ensures TokensOf(grants + [g], f) == TokensOf(grants, f) + if g.family == f then [g.token] else []
  {
    assert (grants + [g])[..|grants|] == grants;
  }

  /** A family's i-th token stands somewhere in the ledger, and later tokens stand later. */
  lemma {:induction false} TokenPlace(grants: seq<Grant>, f: nat, i: nat) returns (k: nat)
    requires i < |TokensOf(grants, f)|
    ensures k < |grants| && grants[k] == Grant(f, TokensOf(grants, f)[i])
    ensures TokensOf(grants[..k], f) == TokensOf(grants, f)[..i]
  {
    var n := |grants| - 1;
    if i < |TokensOf(grants[..n], f)| {
      k := TokenPlace(grants[..n], f, i);
      assert grants[..n][..k] == grants[..k];
      assert TokensOf(grants, f)[..i] == TokensOf(grants[..n], f)[..i];
    } else {
      k := n;
      assert TokensOf(grants, f)[..i] == TokensOf(grants[..n], f);
    }
  }

  /** With distinct tokens, a token belongs to one family and to one place in its history. */
  lemma TokenBelongsOnce(grants: seq<Grant>, f: nat, i: nat, g: nat, j: nat)
    requires AllDistinct(grants)
    requires i < |TokensOf(grants, f)| && j < |TokensOf(grants, g)|
    requires TokensOf(grants, f)[i] == TokensOf(grants, g)[j]
    ensures f == g && i == j
  {
    var k := TokenPlace(grants, f, i);
    var l := TokenPlace(grants, g, j);
    assert k == l;
  }

  lemma {:induction false} UnseenFamilyHasNoTokens(grants: seq<Grant>, f: nat)
    requires forall k :: 0 <= k < |grants| ==> grants[k].family != f
    ensures TokensOf(grants, f) == []
  {
    if grants == [] {
    } else {
      UnseenFamilyHasNoTokens(grants[..|grants| - 1], f);
    }
  }

  // ---------------------------------------------------------------- the invariant

  ghost predicate SameTokens(a: Family, b: Family) {
    a.current == b.current && a.previous == b.previous && a.rotations == b.rotations
  }

  /** One lineage with the minted tokens was added. */
  ghost predicate AddsLineage(db: Tables, after: Tables, minted: Tokens) {
    var s := |db.families|;
    && |db.sessions| == s && |after.families| == |after.sessions| == s + 1
    && (forall g :: 0 <= g < s ==> SameTokens(after.families[g], db.families[g]))
    && (forall g :: 0 <= g < s ==> after.sessions[g].accessHash == db.sessions[g].accessHash)
    && after.families[s].current == minted.refresh && after.families[s].previous == None
        && after.families[s].rotations == 0
    && after.sessions[s].accessHash == minted.access
  }

  /** No token changed. */
  ghost predicate KeepsTokens(db: Tables, after: Tables) {
    && |after.families| == |db.families| && |after.sessions| == |db.sessions|
    && (forall g :: 0 <= g < |db.families| ==> SameTokens(after.families[g], db.families[g]))
    && (forall g :: 0 <= g < |db.sessions| ==> after.sessions[g].accessHash == db.sessions[g].accessHash)
  }

  lemma RevokeKeepsTokens(db: Tables, dead: set<nat>, status: FamilyStatus)
    ensures KeepsTokens(db, RevokeLineages(db, dead, status))
  {
  }

  lemma IssueShape(policy: Policy, db: Tables, user: nat, credential: nat, minted: Tokens, now: int)
    requires |db.families| == |db.sessions|
    ensures var (after, r) := IssueSession(policy, db, user, credential, minted, now);
      if r.SessionIssued? then r.session == |db.families| && AddsLineage(db, after, minted) else KeepsTokens(db, after)
  {
  }

  lemma LoginShape(policy: Policy, db: Tables, op: Op)
    requires |db.families| == |db.sessions| && op.LoginOp?
    ensures var (after, r) := Apply(policy, db, op);
      if r.SessionIssued? then r.session == |db.families| && AddsLineage(db, after, op.minted)
          else KeepsTokens(db, after)
  {
    if op.credential in db.credentials {
      IssueShape(policy, Consume(db, op.challenge), db.credentials[op.credential].user, op.credential, op.minted,
          op.now);
    }
  }

  lemma RegisterShape(policy: Policy, db: Tables, op: Op)
    requires |db.families| == |db.sessions| && op.RegisterOp?
    ensures var (after, r) := Apply(policy, db, op);
      if r.SessionIssued? then r.session == |db.families| && AddsLineage(db, after, op.minted)
          else KeepsTokens(db, after)
  {
    var enrolled := Enrol(ResolveUser(db, op.user), op.user, op.credential);
    IssueShape(policy, Consume(enrolled, op.challenge), op.user, op.credential, op.minted, op.now);
  }

  lemma RefreshShape(policy: Policy, db: Tables, token: Hash, minted: Tokens, now: int)
    requires Inv(policy, db)
    ensures var (after, r) := Refresh(policy, db, token, minted, now);
      if r.Refreshed?
      then FindCurrent(db.families, token) == Some(r.family) && db.families[r.family].session == r.family
           && after == Rotate(policy, db, r.family, minted, now)
      else !r.SessionIssued? && KeepsTokens(db, after)
  {
    RefreshCases(policy, db, token, minted, now);
    var current, previous := FindCurrent(db.families, token), FindPrevious(db.families, token);
    if current.Some? {
      RevokeKeepsTokens(db, {current.value}, FamilyExpired);
      RevokeKeepsTokens(db, {current.value}, FamilyRevoked);
    } else if previous.Some? {
      RevokeKeepsTokens(db, {previous.value}, FamilyReused);
    }
  }

  lemma BearerKeepsTokens(db: Tables, token: Hash, now: int)
    ensures KeepsTokens(db, Bearer(db, token, now).0)
  {
    var found := FindByAccess(db.sessions, token);
    if found.Some? {
      RevokeKeepsTokens(db, {found.value}, FamilyExpired);
      RevokeKeepsTokens(db, {found.value}, FamilyRevoked);
    }
  }

  lemma ListKeepsTokens(db: Tables, user: nat, now: int)
    ensures KeepsTokens(db, ListSessions(db, user, now).0)
  {
    if user in db.users {
      RevokeKeepsTokens(db, PruneSet(db, user, db.users[user].generation, None, now), FamilyRevoked);
    }
  }

  lemma OtherShape(policy: Policy, db: Tables, op: Op)
    requires Minted(op).None?
    ensures KeepsTokens(db, Apply(policy, db, op).0)
    ensures !Apply(policy, db, op).1.SessionIssued? && !Apply(policy, db, op).1.Refreshed?
  {
    match op
    case LogoutOp(user, s) => RevokeKeepsTokens(db, {s}, FamilyRevoked);
    case ListOp(user, now) => ListKeepsTokens(db, user, now);
    case BearerOp(token, now) => BearerKeepsTokens(db, token, now);
    case _ =>
  }

  lemma AppendDistinct(grants: seq<Grant>, g: Grant)
    requires AllDistinct(grants) && forall k :: 0 <= k < |grants| ==> grants[k].token != g.token
    ensures AllDistinct(grants + [g])
  {
  }

  /** Changing statuses only does not touch any history. */
  lemma StatusesKeepHistories(db: Tables, after: Tables, issued: seq<Grant>, accepted: seq<Grant>)
    requires Histories(db, issued, accepted) && KeepsTokens(db, after)
    ensures Histories(after, issued, accepted)
  {
    forall f | 0 <= f < |after.families|
      ensures HistoryAt(after, issued, accepted, f)
    {
      assert SameTokens(after.families[f], db.families[f]) && HistoryAt(db, issued, accepted, f);
    }
  }

  lemma NewFamilyHistory(db: Tables, after: Tables, issued: seq<Grant>, accepted: seq<Grant>, minted: Tokens)
    requires Histories(db, issued, accepted) && AddsLineage(db, after, minted)
    ensures Histories(after, issued + [Grant(|db.families|, minted.refresh)], accepted)
  {
    var s := |db.families|;
    var grown := issued + [Grant(s, minted.refresh)];
    forall f | 0 <= f < |after.families|
      ensures HistoryAt(after, grown, accepted, f)
    {
      TokensOfAppend(issued, Grant(s, minted.refresh), f);
      if f < s {
        assert SameTokens(after.families[f], db.families[f]) && HistoryAt(db, issued, accepted, f);
        assert TokensOf(grown, f) == TokensOf(issued, f);
      } else {
        UnseenFamilyHasNoTokens(issued, s);
        UnseenFamilyHasNoTokens(accepted, s);
      }
    }
  }

  lemma RotatedHistory(policy: Policy, db: Tables, issued: seq<Grant>, accepted: seq<Grant>, f: nat, minted: Tokens,
      now: int)
    requires Histories(db, issued, accepted)
    requires f < |db.families| && db.families[f].session < |db.sessions|
    ensures Histories(Rotate(policy, db, f, minted, now), issued + [Grant(f, minted.refresh)], accepted
        + [Grant(f, db.families[f].current)])
  {
    var token := db.families[f].current;
    var after, given, used := Rotate(policy, db, f, minted, now), issued + [Grant(f, minted.refresh)], accepted
        + [Grant(f, token)];
    forall g | 0 <= g < |after.families|
      ensures HistoryAt(after, given, used, g)
    {
      assert HistoryAt(db, issued, accepted, g);
      TokensOfAppend(issued, Grant(f, minted.refresh), g);
      TokensOfAppend(accepted, Grant(f, token), g);
      if g == f {
        HistoryRotates(db.families[f], TokensOf(issued, f), TokensOf(accepted, f), minted.refresh);
      } else {
        assert TokensOf(given, g) == TokensOf(issued, g);
        assert TokensOf(used, g) == TokensOf(accepted, g);
      }
    }
  }

  lemma HistoryRotates(row: Family, given: seq<Hash>, accepted: seq<Hash>, token: Hash)
    requires FamilyHistory(row, given, accepted)
    ensures FamilyHistory(row.(previous := Some(row.current), current := token, rotations := row.rotations + 1),
                          given + [token], accepted + [row.current])
  {
    var n := row.rotations;
    assert (given + [token])[..n + 1] == given[..n] + [given[n]];
  }

  lemma AddKeepsAccess(db: Tables, after: Tables, access: set<Hash>, minted: Tokens)
    requires AccessKnown(db, access) && minted.access !in access && AddsLineage(db, after, minted)
    ensures AccessKnown(after, access + {minted.access})
  {
  }

  lemma IssueKeepsLedger(policy: Policy, w: World, op: Op)
    requires LedgerInv(policy, w) && MintsNew(w, op)
    requires op.LoginOp? || op.RegisterOp?
    ensures LedgerInv(policy, Serve(policy, w, op))
  {
    ApplyKeepsInv(policy, w.db, op);
    if op.LoginOp? {
      LoginShape(policy, w.db, op);
    } else {
      RegisterShape(policy, w.db, op);
    }
    var (db, r) := Apply(policy, w.db, op);
    if r.SessionIssued? {
      NewFamilyHistory(w.db, db, w.issued, w.accepted, op.minted);
      AppendDistinct(w.issued, Grant(r.session, op.minted.refresh));
      AddKeepsAccess(w.db, db, w.access, op.minted);
    } else {
      StatusesKeepHistories(w.db, db, w.issued, w.accepted);
    }
  }

  lemma RotateKeepsAccess(policy: Policy, db: Tables, f: nat, minted: Tokens, now: int, access: set<Hash>)
    requires f < |db.families| && db.families[f].session < |db.sessions|
    requires AccessKnown(db, access) && minted.access !in access
    ensures AccessKnown(Rotate(policy, db, f, minted, now), access + {minted.access})
  {
  }

  lemma RefreshKeepsLedger(policy: Policy, w: World, op: Op)
    requires LedgerInv(policy, w) && MintsNew(w, op)
    requires op.RefreshOp?
    ensures LedgerInv(policy, Serve(policy, w, op))
  {
    ApplyKeepsInv(policy, w.db, op);
    RefreshShape(policy, w.db, op.token, op.minted, op.now);
    var (db, r) := Apply(policy, w.db, op);
    if r.Refreshed? {
      RotatedHistory(policy, w.db, w.issued, w.accepted, r.family, op.minted, op.now);
      AppendDistinct(w.issued, Grant(r.family, op.minted.refresh));
      RotateKeepsAccess(policy, w.db, r.family, op.minted, op.now, w.access);
    } else {
      StatusesKeepHistories(w.db, db, w.issued, w.accepted);
    }
  }

  lemma ServeKeepsLedger(policy: Policy, w: World, op: Op)
    requires LedgerInv(policy, w) && MintsNew(w, op)
    ensures LedgerInv(policy, Serve(policy, w, op))
  {
    if op.LoginOp? || op.RegisterOp? {
      IssueKeepsLedger(policy, w, op);
    } else if op.RefreshOp? {
      RefreshKeepsLedger(policy, w, op);
    } else {
      ApplyKeepsInv(policy, w.db, op);
      OtherShape(policy, w.db, op);
      StatusesKeepHistories(w.db, Apply(policy, w.db, op).0, w.issued, w.accepted);
    }
  }

  // ---------------------------------------------------------------- runs

  const INITIAL_WORLD := World(EMPTY_TABLES, [], [], {})

  function ServeAll(policy: Policy, w: World, ops: seq<Op>): World
    decreases |ops|
  {
    if ops == [] then w else ServeAll(policy, Serve(policy, w, ops[0]), ops[1..])
  }

  ghost predicate RunMintsNew(policy: Policy, w: World, ops: seq<Op>)
    decreases |ops|
  {
    ops != [] ==> MintsNew(w, ops[0]) && RunMintsNew(policy, Serve(policy, w, ops[0]), ops[1..])
  }

  lemma {:induction false} RunKeepsLedger(policy: Policy, w: World, ops: seq<Op>)
    requires LedgerInv(policy, w) && RunMintsNew(policy, w, ops)
    ensures LedgerInv(policy, ServeAll(policy, w, ops))
    decreases |ops|
  {
    if ops == [] {
    } else {
      ServeKeepsLedger(policy, w, ops[0]);
      RunKeepsLedger(policy, Serve(policy, w, ops[0]), ops[1..]);
    }
  }

  /** In every reachable state a family's current and previous hashes are the last two tokens it was
      given, its rotation counter is the number of its accepted refreshes, and the accepted tokens are
      all the given ones but the last, in order. */
  lemma ReachableLedgers(policy: Policy, ops: seq<Op>)
    requires RunMintsNew(policy, INITIAL_WORLD, ops)
    ensures LedgerInv(policy, ServeAll(policy, INITIAL_WORLD, ops))
  {
    EmptyIsInv(policy);
    RunKeepsLedger(policy, INITIAL_WORLD, ops);
  }

  /** A refresh token is accepted at most once. */
  lemma RefreshTokensAreSingleUse(policy: Policy, w: World, f: nat, i: nat, g: nat, j: nat)
    requires LedgerInv(policy, w)
    requires f < |w.db.families| && g < |w.db.families|
    requires i < |TokensOf(w.accepted, f)| && j < |TokensOf(w.accepted, g)|
    requires TokensOf(w.accepted, f)[i] == TokensOf(w.accepted, g)[j]
    ensures f == g && i == j
  {
    assert HistoryAt(w.db, w.issued, w.accepted, f) && HistoryAt(w.db, w.issued, w.accepted, g);
    TokenBelongsOnce(w.issued, f, i, g, j);
  }

  /** The row whose current hash is the i-th token of family f, if any, is f itself at its last token. */
  lemma CurrentIsLast(w: World, f: nat, i: nat)
    requires Histories(w.db, w.issued, w.accepted) && AllDistinct(w.issued)
    requires f < |w.db.families| && i < |TokensOf(w.issued, f)|
    ensures var found := FindCurrent(w.db.families, TokensOf(w.issued, f)[i]);
      found == if i == w.db.families[f].rotations then Some(f) else None
  {
    var found := FindCurrent(w.db.families, TokensOf(w.issued, f)[i]);
    assert HistoryAt(w.db, w.issued, w.accepted, f);
    if found.Some? {
      assert HistoryAt(w.db, w.issued, w.accepted, found.value);
      TokenBelongsOnce(w.issued, f, i, found.value, w.db.families[found.value].rotations);
    }
  }

  lemma PreviousIsLastButOne(w: World, f: nat, i: nat)
    requires Histories(w.db, w.issued, w.accepted) && AllDistinct(w.issued)
    requires f < |w.db.families| && i < |TokensOf(w.issued, f)|
    ensures var found := FindPrevious(w.db.families, TokensOf(w.issued, f)[i]);
      found == if i + 1 == w.db.families[f].rotations then Some(f) else None
  {
    var found := FindPrevious(w.db.families, TokensOf(w.issued, f)[i]);
    assert HistoryAt(w.db, w.issued, w.accepted, f);
    if found.Some? {
      assert HistoryAt(w.db, w.issued, w.accepted, found.value);
      TokenBelongsOnce(w.issued, f, i, found.value, w.db.families[found.value].rotations - 1);
    }
  }

  /** Presenting the i-th token a family was given. The last one is looked up as current. The one before
      it is the replay that ends the lineage. Any older one finds no row, so its replay changes nothing. */
  lemma PresentingAnIssuedToken(policy: Policy, w: World, f: nat, i: nat, minted: Tokens, now: int)
    requires LedgerInv(policy, w)
    requires f < |w.db.families| && i < |TokensOf(w.issued, f)|
    ensures var token := TokensOf(w.issued, f)[i];
      var rotations := w.db.families[f].rotations;
      var (after, r) := Refresh(policy, w.db, token, minted, now);
      && i <= rotations
      && (i == rotations ==> FindCurrent(w.db.families, token) == Some(f))
      && (i + 1 == rotations ==> after == RevokeLineage(w.db, f, FamilyReused) && r == Refused(RefreshTokenNotFound))
      && (i + 1 < rotations ==> after == w.db && r == Refused(RefreshTokenNotFound))
  {
    assert HistoryAt(w.db, w.issued, w.accepted, f);
    CurrentIsLast(w, f, i);
    PreviousIsLastButOne(w, f, i);
    RefreshCases(policy, w.db, TokensOf(w.issued, f)[i], minted, now);
  }

  /** Replaying the previous token ends exactly its own lineage: every other session and family is as it
      was, and nothing is ever served on this one again. */
  lemma ReplayEndsExactlyItsLineage(policy: Policy, w: World, f: nat, minted: Tokens, now: int, ops: seq<Op>, op: Op)
    requires LedgerInv(policy, w)
    requires f < |w.db.families| && w.db.families[f].previous.Some?
    ensures var after := Refresh(policy, w.db, w.db.families[f].previous.value, minted, now).0;
      && |after.sessions| == |w.db.sessions| && |after.families| == |w.db.families|
      && (forall g :: 0 <= g < |after.families| && g != f ==>
          after.families[g] == w.db.families[g] && after.sessions[g] == w.db.sessions[g])
      && after.sessions[f].status == Revoked && after.families[f].status == FamilyReused
      && !ActsFor(Apply(policy, After(policy, after, ops), op).1, f)
  {
    assert HistoryAt(w.db, w.issued, w.accepted, f) && LineageAt(w.db, f);
    PresentingAnIssuedToken(policy, w, f, w.db.families[f].rotations - 1, minted, now);
    var after := RevokeLineage(w.db, f, FamilyReused);
    RevokeKeepsInv(policy, w.db, {f}, FamilyReused);
    forall g | 0 <= g < |after.families| && g != f
      ensures after.families[g] == w.db.families[g] && after.sessions[g] == w.db.sessions[g]
    {
      assert LineageAt(w.db, g);
    }
    EndedLineageNeverActs(policy, after, f, ops, op);
  }

  // ---------------------------------------------------------------- access tokens

  /** Handed out once and no longer on any session row. */
  ghost predicate Retired(w: World, token: Hash) {
    token in w.access && FindByAccess(w.db.sessions, token).None?
  }

  /** A rotation retires the access token it replaces. */
  lemma RotationRetiresAccess(policy: Policy, w: World, op: Op)
    requires LedgerInv(policy, w) && MintsNew(w, op)
    requires op.RefreshOp? && Apply(policy, w.db, op).1.Refreshed?
    ensures Retired(Serve(policy, w, op), w.db.sessions[Apply(policy, w.db, op).1.family].accessHash)
  {
    RefreshShape(policy, w.db, op.token, op.minted, op.now);
  }

  lemma {:induction false} RetiredStaysRetired(policy: Policy, w: World, token: Hash, ops: seq<Op>)
    requires LedgerInv(policy, w) && RunMintsNew(policy, w, ops)
    requires Retired(w, token)
    ensures Retired(ServeAll(policy, w, ops), token)
    decreases |ops|
  {
    if ops == [] {
    } else {
      ServeKeepsLedger(policy, w, ops[0]);
      RetiredOneStep(policy, w, token, ops[0]);
      RetiredStaysRetired(policy, Serve(policy, w, ops[0]), token, ops[1..]);
    }
  }

  lemma KeptTokensStayRetired(db: Tables, after: Tables, token: Hash)
    requires KeepsTokens(db, after) && FindByAccess(db.sessions, token).None?
    ensures FindByAccess(after.sessions, token).None?
  {
  }

  lemma AddedTokensStayRetired(db: Tables, after: Tables, minted: Tokens, token: Hash)
    requires AddsLineage(db, after, minted) && FindByAccess(db.sessions, token).None? && token != minted.access
    ensures FindByAccess(after.sessions, token).None?
  {
  }

  lemma RetiredOneStep(policy: Policy, w: World, token: Hash, op: Op)
    requires LedgerInv(policy, w) && MintsNew(w, op)
    requires Retired(w, token)
    ensures Retired(Serve(policy, w, op), token)
  {
    var (after, r) := Apply(policy, w.db, op);
    if op.LoginOp? || op.RegisterOp? {
      if op.LoginOp? {
        LoginShape(policy, w.db, op);
      } else {
        RegisterShape(policy, w.db, op);
      }
      if r.SessionIssued? {
        AddedTokensStayRetired(w.db, after, op.minted, token);
      } else {
        KeptTokensStayRetired(w.db, after, token);
      }
    } else if op.RefreshOp? {
      RefreshShape(policy, w.db, op.token, op.minted, op.now);
      if !r.Refreshed? {
        KeptTokensStayRetired(w.db, after, token);
      }
    } else {
      OtherShape(policy, w.db, op);
      KeptTokensStayRetired(w.db, after, token);
    }
  }

  /** A replaced access token resolves nobody in any continuation of the run. */
  lemma RetiredTokenResolvesNobody(policy: Policy, w: World, token: Hash, ops: seq<Op>, now: int)
    requires LedgerInv(policy, w) && RunMintsNew(policy, w, ops)
    requires Retired(w, token)
    ensures var later := ServeAll(policy, w, ops).db;
      Bearer(later, token, now) == (later, Refused(ViewerNotResolved))
  {
    RetiredStaysRetired(policy, w, token, ops);
  }
}
