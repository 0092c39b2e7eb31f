/** What every operation on sessions keeps, and what follows over whole runs. */
module SessionRuns {
  import opened Prelude
  import opened Sessions

  // ---------------------------------------------------------------- the invariant

  /** Session i and family i are one lineage: they belong together and live and die together. */
  ghost predicate LineageAt(db: Tables, i: nat)
    requires i < |db.sessions| && i < |db.families|
  {
    && db.families[i].session == i
    && db.families[i].user == db.sessions[i].user
    && (db.families[i].status == FamilyActive <==> db.sessions[i].status == Active)
  }

  ghost predicate Paired(db: Tables) {
    && |db.families| == |db.sessions|
    && forall i :: 0 <= i < |db.sessions| ==> LineageAt(db, i)
  }

  /** A session's user exists, owns the credential, and is at least at the session's generation. */
  ghost predicate OwnedAt(db: Tables, s: Session) {
    && s.user in db.users
    && s.generation <= db.users[s.user].generation
    && s.credential in db.credentials
    && db.credentials[s.credential].user == s.user
  }

  ghost predicate Owned(db: Tables) {
    && (forall i :: 0 <= i < |db.sessions| ==> OwnedAt(db, db.sessions[i]))
    && (forall c :: c in db.credentials ==> db.credentials[c].user in db.users)
  }

  ghost predicate Capped(policy: Policy, db: Tables) {
    forall u :: |ActiveOf(db, u)| <= policy.maxActiveSessions
  }

  ghost predicate OnePerCredential(db: Tables) {
    forall i, j :: 0 <= i < j < |db.sessions| && IsActive(db, i) && IsActive(db, j) ==>
        db.sessions[i].credential != db.sessions[j].credential
  }

  ghost predicate Inv(policy: Policy, db: Tables) {
    Paired(db) && Owned(db) && Capped(policy, db) && OnePerCredential(db)
  }

  const EMPTY_TABLES := Tables(map[], map[], [], [], [])

  lemma EmptyIsInv(policy: Policy)
    ensures Inv(policy, EMPTY_TABLES)
  {
    forall u
      ensures |ActiveOf(EMPTY_TABLES, u)| <= policy.maxActiveSessions
    {
      assert ActiveOf(EMPTY_TABLES, u) == {};
    }
  }

  // ---------------------------------------------------------------- each update keeps it

  /** Nothing but statuses moved towards revoked: the cap and the credential rule survive. */
  lemma FewerActiveKeepsInv(policy: Policy, db: Tables, after: Tables)
    requires Inv(policy, db)
    requires |after.sessions| == |db.sessions|
    requires forall i :: 0 <= i < |db.sessions| ==>
      && after.sessions[i].user == db.sessions[i].user
      && after.sessions[i].credential == db.sessions[i].credential
      && (after.sessions[i].status == Active ==> db.sessions[i].status == Active)
    ensures Capped(policy, after) && OnePerCredential(after)
  {
    forall u
      ensures |ActiveOf(after, u)| <= policy.maxActiveSessions
    {
      assert |ActiveOf(db, u)| <= policy.maxActiveSessions;
      SubsetCount(ActiveOf(after, u), ActiveOf(db, u));
    }
  }

  lemma RevokeKeepsInv(policy: Policy, db: Tables, dead: set<nat>, status: FamilyStatus)
    requires Inv(policy, db) && status != FamilyActive
    ensures Inv(policy, RevokeLineages(db, dead, status))
  {
    var after := RevokeLineages(db, dead, status);
    forall i | 0 <= i < |after.sessions|
      ensures LineageAt(after, i) && OwnedAt(after, after.sessions[i])
    {
      assert LineageAt(db, i) && OwnedAt(db, db.sessions[i]);
    }
    FewerActiveKeepsInv(policy, db, after);
  }

  lemma RevokeFamilyAndSession(db: Tables, f: nat, status: FamilyStatus)
    requires Paired(db) && f < |db.families|
    ensures RevokeSession(RevokeFamily(db, f, status), db.families[f].session) == RevokeLineage(db, f, status)
    ensures RevokeFamily(RevokeSession(db, db.families[f].session), f, status) == RevokeLineage(db, f, status)
  {
    assert LineageAt(db, f);
    var after := RevokeSession(RevokeFamily(db, f, status), f);
    forall i | 0 <= i < |db.families|
      ensures after.families[i] == RevokeLineage(db, f, status).families[i]
    {
      assert LineageAt(db, i);
    }
    assert after.sessions == RevokeLineage(db, f, status).sessions;
    assert after.families == RevokeLineage(db, f, status).families;
  }

  lemma AddKeepsLineages(policy: Policy, db: Tables, user: nat, credential: nat, minted: Tokens, now: int)
    requires Paired(db) && Owned(db)
    requires user in db.users && credential in db.credentials && db.credentials[credential].user == user
    ensures var after := AddLineage(policy, db, user, db.users[user].generation, credential, minted, now);
      Paired(after) && Owned(after)
  {
    var after := AddLineage(policy, db, user, db.users[user].generation, credential, minted, now);
    forall i | 0 <= i < |after.sessions|
      ensures LineageAt(after, i) && OwnedAt(after, after.sessions[i])
    {
      if i < |db.sessions| {
        assert LineageAt(db, i) && OwnedAt(db, db.sessions[i]);
      }
    }
  }

  lemma AddActives(policy: Policy, db: Tables, user: nat, generation: nat, credential: nat, minted: Tokens, now: int,
      u: nat)
    ensures ActiveOf(AddLineage(policy, db, user, generation, credential, minted, now), u)
            == ActiveOf(db, u) + if u == user then {|db.sessions|} else {}
  {
  }

  lemma AddKeepsCap(policy: Policy, db: Tables, user: nat, generation: nat, credential: nat, minted: Tokens, now: int)
    requires Capped(policy, db) && |ActiveOf(db, user)| < policy.maxActiveSessions
    ensures Capped(policy, AddLineage(policy, db, user, generation, credential, minted, now))
  {
    var after := AddLineage(policy, db, user, generation, credential, minted, now);
    forall u
      ensures |ActiveOf(after, u)| <= policy.maxActiveSessions
    {
      AddActives(policy, db, user, generation, credential, minted, now, u);
      assert |ActiveOf(db, u)| <= policy.maxActiveSessions;
    }
  }

  lemma AddKeepsCredentialRule(policy: Policy, db: Tables, user: nat, generation: nat, credential: nat,
      minted: Tokens, now: int)
    requires OnePerCredential(db)
    requires forall i :: 0 <= i < |db.sessions| && IsActive(db, i) ==> db.sessions[i].credential != credential
    ensures OnePerCredential(AddLineage(policy, db, user, generation, credential, minted, now))
  {
    var after := AddLineage(policy, db, user, generation, credential, minted, now);
    forall i, j | 0 <= i < j < |after.sessions| && IsActive(after, i) && IsActive(after, j)
      ensures after.sessions[i].credential != after.sessions[j].credential
    {
      assert IsActive(db, i);
      assert j < |db.sessions| ==> IsActive(db, j);
    }
  }

  lemma AddKeepsInv(policy: Policy, db: Tables, user: nat, credential: nat, minted: Tokens, now: int)
    requires Inv(policy, db)
    requires user in db.users && credential in db.credentials && db.credentials[credential].user == user
    requires |ActiveOf(db, user)| < policy.maxActiveSessions
    requires forall i :: 0 <= i < |db.sessions| && IsActive(db, i) ==> db.sessions[i].credential != credential
    ensures Inv(policy, AddLineage(policy, db, user, db.users[user].generation, credential, minted, now))
  {
    AddKeepsLineages(policy, db, user, credential, minted, now);
    AddKeepsCap(policy, db, user, db.users[user].generation, credential, minted, now);
    AddKeepsCredentialRule(policy, db, user, db.users[user].generation, credential, minted, now);
  }

  lemma RotateKeepsInv(policy: Policy, db: Tables, f: nat, minted: Tokens, now: int)
    requires Inv(policy, db) && f < |db.families|
    requires db.families[f].session < |db.sessions|
    ensures Inv(policy, Rotate(policy, db, f, minted, now))
  {
    var after := Rotate(policy, db, f, minted, now);
    assert LineageAt(db, f);
    forall i | 0 <= i < |after.sessions|
      ensures LineageAt(after, i) && OwnedAt(after, after.sessions[i])
    {
      assert LineageAt(db, i) && OwnedAt(db, db.sessions[i]);
    }
    FewerActiveKeepsInv(policy, db, after);
  }

  /** Users and credentials may change as long as generations do not fall and owners stay. */
  lemma AccountsKeepInv(policy: Policy, db: Tables, after: Tables)
    requires Inv(policy, db)
    requires after.sessions == db.sessions && after.families == db.families
    requires forall u :: u in db.users ==> u in after.users && db.users[u].generation <= after.users[u].generation
    requires forall c :: c in db.credentials ==>
        c in after.credentials && after.credentials[c].user == db.credentials[c].user
    requires forall c :: c in after.credentials ==> after.credentials[c].user in after.users
    ensures Inv(policy, after)
  {
    forall i | 0 <= i < |after.sessions|
      ensures LineageAt(after, i) && OwnedAt(after, after.sessions[i])
    {
      assert LineageAt(db, i) && OwnedAt(db, db.sessions[i]);
    }
    FewerActiveKeepsInv(policy, db, after);
  }

  // ---------------------------------------------------------------- pruning

  lemma PruneActives(db: Tables, user: nat, generation: nat, replacing: Option<nat>, now: int, u: nat)
    ensures var dead := PruneSet(db, user, generation, replacing, now);
      ActiveOf(Prune(db, user, generation, replacing, now), u) == ActiveOf(db, u) - dead
  {
  }

  /** After pruning, the user's active sessions are exactly the current ones on other credentials. */
  lemma PruneLeavesCurrent(db: Tables, user: nat, generation: nat, replacing: Option<nat>, now: int, s: nat)
    ensures s in ActiveOf(Prune(db, user, generation, replacing, now), user)
            <==> s in ActiveOf(db, user) && now < db.sessions[s].expiresAt && db.sessions[s].generation == generation
                 && replacing != Some(db.sessions[s].credential)
  {
    PruneActives(db, user, generation, replacing, now, user);
  }

  lemma PruneFreesAt(db: Tables, user: nat, generation: nat, credential: nat, now: int, i: nat)
    requires i < |db.sessions| && OwnedAt(db, db.sessions[i])
    requires credential in db.credentials && db.credentials[credential].user == user
    requires IsActive(Prune(db, user, generation, Some(credential), now), i)
    ensures db.sessions[i].credential != credential
  {
    assert i !in PruneSet(db, user, generation, Some(credential), now);
  }

  lemma PruneFreesCredential(policy: Policy, db: Tables, user: nat, generation: nat, credential: nat, now: int)
    requires Owned(db)
    requires credential in db.credentials && db.credentials[credential].user == user
    ensures var pruned := Prune(db, user, generation, Some(credential), now);
      forall i :: 0 <= i < |pruned.sessions| && IsActive(pruned, i) ==> pruned.sessions[i].credential != credential
  {
    var pruned := Prune(db, user, generation, Some(credential), now);
    forall i | 0 <= i < |pruned.sessions| && IsActive(pruned, i)
      ensures pruned.sessions[i].credential != credential
    {
      PruneFreesAt(db, user, generation, credential, now, i);
    }
  }

  lemma IssueKeepsInv(policy: Policy, db: Tables, user: nat, credential: nat, minted: Tokens, now: int)
    requires Inv(policy, db)
    requires user in db.users && credential in db.credentials && db.credentials[credential].user == user
    ensures Inv(policy, IssueSession(policy, db, user, credential, minted, now).0)
  {
    var generation := db.users[user].generation;
    var pruned := Prune(db, user, generation, Some(credential), now);
    RevokeKeepsInv(policy, db, PruneSet(db, user, generation, Some(credential), now), FamilyRevoked);
    if |ActiveOf(pruned, user)| < policy.maxActiveSessions {
      PruneFreesCredential(policy, db, user, generation, credential, now);
      AddKeepsInv(policy, pruned, user, credential, minted, now);
    }
  }

  /** A login refused for the session limit ended nothing: in a reachable state the limit is only met
      when there was nothing to prune. */
  lemma LimitRefusalRevokesNothing(policy: Policy, db: Tables, user: nat, credential: nat, minted: Tokens, now: int)
    requires Inv(policy, db) && user in db.users
    requires IssueSession(policy, db, user, credential, minted, now).1 == Refused(SessionLimitReached)
    ensures IssueSession(policy, db, user, credential, minted, now).0 == db
  {
    var generation := db.users[user].generation;
    var dead := PruneSet(db, user, generation, Some(credential), now);
    PruneActives(db, user, generation, Some(credential), now, user);
    assert |ActiveOf(db, user)| <= policy.maxActiveSessions;
    SubsetCount(ActiveOf(db, user) - dead, ActiveOf(db, user));
    assert dead == {};
    RevokeNone(db, FamilyRevoked);
  }

  // ---------------------------------------------------------------- every operation keeps the invariant

  lemma LoginKeepsInv(policy: Policy, db: Tables, op: Op)
    requires Inv(policy, db) && op.LoginOp?
    ensures Inv(policy, Apply(policy, db, op).0)
  {
    if op.credential in db.credentials {
      var consumed := Consume(db, op.challenge);
      AccountsKeepInv(policy, db, consumed);
      IssueKeepsInv(policy, consumed, db.credentials[op.credential].user, op.credential, op.minted, op.now);
    }
  }

  lemma EnrolKeepsInv(policy: Policy, db: Tables, user: nat, credential: nat)
    requires Inv(policy, db)
    requires credential in db.credentials ==> db.credentials[credential].user == user
    ensures Inv(policy, Enrol(ResolveUser(db, user), user, credential))
  {
    var known := ResolveUser(db, user);
    AccountsKeepInv(policy, db, known);
    AccountsKeepInv(policy, known, Enrol(known, user, credential));
  }

  lemma RegisterKeepsInv(policy: Policy, db: Tables, op: Op)
    requires Inv(policy, db) && op.RegisterOp?
    ensures Inv(policy, Apply(policy, db, op).0)
  {
    AccountsKeepInv(policy, db, ResolveUser(db, op.user));
    if op.credential in db.credentials ==> db.credentials[op.credential].user == op.user {
      EnrolKeepsInv(policy, db, op.user, op.credential);
      var enrolled := Enrol(ResolveUser(db, op.user), op.user, op.credential);
      var consumed := Consume(enrolled, op.challenge);
      AccountsKeepInv(policy, enrolled, consumed);
      IssueKeepsInv(policy, consumed, op.user, op.credential, op.minted, op.now);
    }
  }

  /** In a reachable state a refresh does one of four things: nothing, end the one lineage it names
      in one of three ways, or rotate it. */
  lemma RefreshCases(policy: Policy, db: Tables, token: Hash, minted: Tokens, now: int)
    requires Inv(policy, db)
    ensures var current, previous := FindCurrent(db.families, token), FindPrevious(db.families, token);
      var (after, r) := Refresh(policy, db, token, minted, now);
      if current.None? then
        && r == Refused(RefreshTokenNotFound)
        && after == (if previous.None? then db else RevokeLineage(db, previous.value, FamilyReused))
      else
        var f := current.value;
        var user := db.users[db.sessions[f].user];
        && LineageAt(db, f)
        && (after, r) ==
           if !IsActive(db, f) then (db, Refused(RefreshTokenNotActive))
           else if db.families[f].expiresAt <= now then
             (RevokeLineage(db, f, FamilyExpired), Refused(RefreshTokenExpired))
           else if !user.enabled then (RevokeLineage(db, f, FamilyRevoked), Refused(AccountDisabled))
           else if user.generation != db.sessions[f].generation then
             (RevokeLineage(db, f, FamilyRevoked), Refused(SessionSuperseded))
           else (Rotate(policy, db, f, minted, now), Refreshed(f))
  {
    var current, previous := FindCurrent(db.families, token), FindPrevious(db.families, token);
    if current.Some? {
      var f := current.value;
      assert LineageAt(db, f) && OwnedAt(db, db.sessions[f]);
      RevokeFamilyAndSession(db, f, FamilyExpired);
      RevokeFamilyAndSession(db, f, FamilyRevoked);
    } else if previous.Some? {
      RevokeFamilyAndSession(db, previous.value, FamilyReused);
    }
  }

  lemma RefreshKeepsInv(policy: Policy, db: Tables, token: Hash, minted: Tokens, now: int)
    requires Inv(policy, db)
    ensures Inv(policy, Refresh(policy, db, token, minted, now).0)
  {
    RefreshCases(policy, db, token, minted, now);
    var current, previous := FindCurrent(db.families, token), FindPrevious(db.families, token);
    if current.Some? {
      var f := current.value;
      assert LineageAt(db, f);
      RevokeKeepsInv(policy, db, {f}, FamilyExpired);
      RevokeKeepsInv(policy, db, {f}, FamilyRevoked);
      RotateKeepsInv(policy, db, f, minted, now);
    } else if previous.Some? {
      RevokeKeepsInv(policy, db, {previous.value}, FamilyReused);
    }
  }

  lemma RecoverKeepsInv(policy: Policy, db: Tables, user: nat, preserve: Option<nat>)
    requires Inv(policy, db)
    ensures Inv(policy, Recover(db, user, preserve).0)
  {
    if user in db.users {
      var bumped := BumpGeneration(db, user);
      AccountsKeepInv(policy, db, bumped);
      var revoked := RevokeLineages(bumped, RecoverySet(bumped, user, preserve), FamilyRevoked);
      RevokeKeepsInv(policy, bumped, RecoverySet(bumped, user, preserve), FamilyRevoked);
      AccountsKeepInv(policy, revoked, RevokeCredentials(revoked, user, preserve));
    }
  }

  lemma BearerKeepsInv(policy: Policy, db: Tables, token: Hash, now: int)
    requires Inv(policy, db)
    ensures Inv(policy, Bearer(db, token, now).0)
  {
    var found := FindByAccess(db.sessions, token);
    if found.Some? {
      RevokeKeepsInv(policy, db, {found.value}, FamilyExpired);
      RevokeKeepsInv(policy, db, {found.value}, FamilyRevoked);
    }
  }

  /** The lineage invariant is kept by every operation, whatever it answers. */
  lemma ApplyKeepsInv(policy: Policy, db: Tables, op: Op)
    requires Inv(policy, db)
    ensures Inv(policy, Apply(policy, db, op).0)
  {
    match op
    case IssueChallengeOp(purpose, hash, expiresAt) =>
      AccountsKeepInv(policy, db, IssueChallenge(db, purpose, hash, expiresAt));
    case LoginOp(_, _, _, _, _, _) => LoginKeepsInv(policy, db, op);
    case RegisterOp(_, _, _, _, _, _, _, _, _, _) => RegisterKeepsInv(policy, db, op);
    case RefreshOp(token, minted, now) => RefreshKeepsInv(policy, db, token, minted, now);
    case LogoutOp(user, s) => RevokeKeepsInv(policy, db, {s}, FamilyRevoked);
    case ListOp(user, now) =>
      if user in db.users {
        RevokeKeepsInv(policy, db, PruneSet(db, user, db.users[user].generation, None, now), FamilyRevoked);
      }
    case RecoverOp(user, preserve) => RecoverKeepsInv(policy, db, user, preserve);
    case BearerOp(token, now) => BearerKeepsInv(policy, db, token, now);
    case SetAccountOp(user, enabled) => AccountsKeepInv(policy, db, SetAccount(db, user, enabled));
  }

  function After(policy: Policy, db: Tables, ops: seq<Op>): Tables
    decreases |ops|
  {
    if ops == [] then db else After(policy, Apply(policy, db, ops[0]).0, ops[1..])
  }

  lemma {:induction false} RunKeepsInv(policy: Policy, db: Tables, ops: seq<Op>)
    requires Inv(policy, db)
    ensures Inv(policy, After(policy, db, ops))
    decreases |ops|
  {
    if ops == [] {
    } else {
      ApplyKeepsInv(policy, db, ops[0]);
      RunKeepsInv(policy, Apply(policy, db, ops[0]).0, ops[1..]);
    }
  }

  /** In every reachable state a session is active exactly when its family is, no user is over the cap
      and no credential has two active sessions. */
  lemma ReachableLineages(policy: Policy, ops: seq<Op>)
    ensures Inv(policy, After(policy, EMPTY_TABLES, ops))
  {
    EmptyIsInv(policy);
    RunKeepsInv(policy, EMPTY_TABLES, ops);
  }
}
