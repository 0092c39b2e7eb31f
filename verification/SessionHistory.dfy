/** Properties that relate two moments of one run: what is final, what recovery cuts off, and the
    life of every refresh token. */
module SessionHistory {
  import opened Prelude
  import opened Sessions
  import opened SessionRuns

  // ---------------------------------------------------------------- what never comes back

  ghost predicate SessionLater(a: Session, b: Session) {
    && a.user == b.user && a.credential == b.credential && a.generation == b.generation
    && (b.status == Active ==> a.status == Active)
  }

  ghost predicate FamilyLater(a: Family, b: Family) {
    && a.session == b.session && a.user == b.user && a.rotations <= b.rotations
    && (b.status == FamilyActive ==> a.status == FamilyActive)
  }

  ghost predicate ChallengeLater(a: Challenge, b: Challenge) {
    a.purpose == b.purpose && a.hash == b.hash && a.expiresAt == b.expiresAt && (a.consumed ==> b.consumed)
  }

  ghost predicate UserLater(db: Tables, after: Tables, u: nat) {
    u in db.users ==> u in after.users && db.users[u].generation <= after.users[u].generation
  }

  /** `after` can follow `db`: rows are only added, statuses only move away from active, generations
      and rotation counters never fall, consumed challenges stay consumed. */
  ghost predicate Later(db: Tables, after: Tables) {
    && |db.sessions| <= |after.sessions| && |db.families| <= |after.families| && |db.challenges| <= |after.challenges|
    && (forall i :: 0 <= i < |db.sessions| ==> SessionLater(db.sessions[i], after.sessions[i]))
    && (forall i :: 0 <= i < |db.families| ==> FamilyLater(db.families[i], after.families[i]))
    && (forall i :: 0 <= i < |db.challenges| ==> ChallengeLater(db.challenges[i], after.challenges[i]))
    && (forall u :: UserLater(db, after, u))
  }

  lemma LaterIsTransitive(a: Tables, b: Tables, c: Tables)
    requires Later(a, b) && Later(b, c)
    ensures Later(a, c)
  {
    forall i | 0 <= i < |a.sessions|
      ensures SessionLater(a.sessions[i], c.sessions[i])
    {
      assert SessionLater(a.sessions[i], b.sessions[i]) && SessionLater(b.sessions[i], c.sessions[i]);
    }
    forall i | 0 <= i < |a.families|
      ensures FamilyLater(a.families[i], c.families[i])
    {
      assert FamilyLater(a.families[i], b.families[i]) && FamilyLater(b.families[i], c.families[i]);
    }
    forall i | 0 <= i < |a.challenges|
      ensures ChallengeLater(a.challenges[i], c.challenges[i])
    {
      assert ChallengeLater(a.challenges[i], b.challenges[i]) && ChallengeLater(b.challenges[i], c.challenges[i]);
    }
    forall u
      ensures UserLater(a, c, u)
    {
      assert UserLater(a, b, u) && UserLater(b, c, u);
    }
  }

  lemma RevokeIsLater(db: Tables, dead: set<nat>, status: FamilyStatus)
    requires status != FamilyActive
    ensures Later(db, RevokeLineages(db, dead, status))
  {
  }

  lemma AccountsAreLater(db: Tables, after: Tables)
    requires after.sessions == db.sessions && after.families == db.families
    requires |db.challenges| <= |after.challenges|
    requires forall i :: 0 <= i < |db.challenges| ==> ChallengeLater(db.challenges[i], after.challenges[i])
    requires forall u :: UserLater(db, after, u)
    ensures Later(db, after)
  {
  }

  lemma IssueIsLater(policy: Policy, db: Tables, user: nat, credential: nat, minted: Tokens, now: int)
    ensures Later(db, IssueSession(policy, db, user, credential, minted, now).0)
  {
    if user in db.users {
      var generation := db.users[user].generation;
      var pruned := Prune(db, user, generation, Some(credential), now);
      RevokeIsLater(db, PruneSet(db, user, generation, Some(credential), now), FamilyRevoked);
      AddLineageIsLater(policy, pruned, user, generation, credential, minted, now);
      LaterIsTransitive(db, pruned, AddLineage(policy, pruned, user, generation, credential, minted, now));
    } else {
      SameIsLater(db);
    }
  }

  lemma AddLineageIsLater(policy: Policy, db: Tables, user: nat, generation: nat, credential: nat, minted: Tokens,
      now: int)
    ensures Later(db, AddLineage(policy, db, user, generation, credential, minted, now))
  {
  }

  lemma RotateIsLater(policy: Policy, db: Tables, f: nat, minted: Tokens, now: int)
    requires f < |db.families| && db.families[f].session < |db.sessions|
    ensures Later(db, Rotate(policy, db, f, minted, now))
  {
  }

  lemma SameIsLater(db: Tables)
    ensures Later(db, db)
  {
  }

  lemma BearerIsLater(db: Tables, token: Hash, now: int)
    ensures Later(db, Bearer(db, token, now).0)
  {
    var found := FindByAccess(db.sessions, token);
    SameIsLater(db);
    if found.Some? {
      RevokeIsLater(db, {found.value}, FamilyExpired);
      RevokeIsLater(db, {found.value}, FamilyRevoked);
    }
  }

  lemma LogoutIsLater(db: Tables, user: nat, s: nat)
    ensures Later(db, Logout(db, user, s).0)
  {
    SameIsLater(db);
    RevokeIsLater(db, {s}, FamilyRevoked);
  }

  lemma ListIsLater(db: Tables, user: nat, now: int)
    ensures Later(db, ListSessions(db, user, now).0)
  {
    SameIsLater(db);
    if user in db.users {
      RevokeIsLater(db, PruneSet(db, user, db.users[user].generation, None, now), FamilyRevoked);
    }
  }

  lemma ReplayIsLater(policy: Policy, db: Tables, token: Hash, minted: Tokens, now: int)
    requires Inv(policy, db) && FindCurrent(db.families, token).None?
    ensures Later(db, Refresh(policy, db, token, minted, now).0)
  {
    RefreshCases(policy, db, token, minted, now);
    var previous := FindPrevious(db.families, token);
    SameIsLater(db);
    if previous.Some? {
      RevokeIsLater(db, {previous.value}, FamilyReused);
    }
  }

  lemma RefreshIsLater(policy: Policy, db: Tables, token: Hash, minted: Tokens, now: int)
    requires Inv(policy, db)
    ensures Later(db, Refresh(policy, db, token, minted, now).0)
  {
    var current := FindCurrent(db.families, token);
    if current.None? {
      ReplayIsLater(policy, db, token, minted, now);
    } else {
      RefreshCases(policy, db, token, minted, now);
      SameIsLater(db);
      RevokeIsLater(db, {current.value}, FamilyExpired);
      RevokeIsLater(db, {current.value}, FamilyRevoked);
      RotateIsLater(policy, db, current.value, minted, now);
    }
  }

  lemma LoginIsLater(policy: Policy, db: Tables, op: Op)
    requires op.LoginOp?
    ensures Later(db, Apply(policy, db, op).0)
  {
    if op.credential in db.credentials {
      var consumed := Consume(db, op.challenge);
      AccountsAreLater(db, consumed);
      IssueIsLater(policy, consumed, db.credentials[op.credential].user, op.credential, op.minted, op.now);
      LaterIsTransitive(db, consumed,
          IssueSession(policy, consumed, db.credentials[op.credential].user, op.credential, op.minted, op.now).0);
    }
  }

  lemma EnrolIsLater(db: Tables, user: nat, credential: nat)
    ensures Later(db, ResolveUser(db, user))
    ensures Later(db, Enrol(ResolveUser(db, user), user, credential))
  {
    AccountsAreLater(db, ResolveUser(db, user));
    AccountsAreLater(db, Enrol(ResolveUser(db, user), user, credential));
  }

  lemma ConsumeIsLater(db: Tables, enrolled: Tables, challenge: nat)
    requires Later(db, enrolled)
    ensures Later(db, Consume(enrolled, challenge))
  {
    AccountsAreLater(enrolled, Consume(enrolled, challenge));
    LaterIsTransitive(db, enrolled, Consume(enrolled, challenge));
  }

  lemma RegisterIsLater(policy: Policy, db: Tables, op: Op)
    requires op.RegisterOp?
    ensures Later(db, Apply(policy, db, op).0)
  {
    SameIsLater(db);
    EnrolIsLater(db, op.user, op.credential);
    var enrolled := Enrol(ResolveUser(db, op.user), op.user, op.credential);
    var consumed := Consume(enrolled, op.challenge);
    ConsumeIsLater(db, enrolled, op.challenge);
    IssueIsLater(policy, consumed, op.user, op.credential, op.minted, op.now);
    LaterIsTransitive(db, consumed, IssueSession(policy, consumed, op.user, op.credential, op.minted, op.now).0);
  }

  lemma RecoverIsLater(db: Tables, user: nat, preserve: Option<nat>)
    ensures Later(db, Recover(db, user, preserve).0)
  {
    if user in db.users {
      var bumped := BumpGeneration(db, user);
      AccountsAreLater(db, bumped);
      var revoked := RevokeLineages(bumped, RecoverySet(bumped, user, preserve), FamilyRevoked);
      RevokeIsLater(bumped, RecoverySet(bumped, user, preserve), FamilyRevoked);
      LaterIsTransitive(db, bumped, revoked);
      AccountsAreLater(revoked, RevokeCredentials(revoked, user, preserve));
      LaterIsTransitive(db, revoked, RevokeCredentials(revoked, user, preserve));
    }
  }

  lemma ApplyIsLater(policy: Policy, db: Tables, op: Op)
    requires Inv(policy, db)
    ensures Later(db, Apply(policy, db, op).0)
  {
    match op
    case IssueChallengeOp(purpose, hash, expiresAt) =>
      AccountsAreLater(db, IssueChallenge(db, purpose, hash, expiresAt));
    case LoginOp(_, _, _, _, _, _) => LoginIsLater(policy, db, op);
    case RegisterOp(_, _, _, _, _, _, _, _, _, _) => RegisterIsLater(policy, db, op);
    case RefreshOp(token, minted, now) => RefreshIsLater(policy, db, token, minted, now);
    case LogoutOp(user, s) => LogoutIsLater(db, user, s);
    case ListOp(user, now) => ListIsLater(db, user, now);
    case RecoverOp(user, preserve) => RecoverIsLater(db, user, preserve);
    case BearerOp(token, now) => BearerIsLater(db, token, now);
    case SetAccountOp(user, enabled) => AccountsAreLater(db, SetAccount(db, user, enabled));
  }

  /** Over any run from a reachable state: nothing revoked becomes active again, generations and rotation
      counters never fall, consumed challenges stay consumed. */
  lemma {:induction false} RunIsLater(policy: Policy, db: Tables, ops: seq<Op>)
    requires Inv(policy, db)
    ensures Later(db, After(policy, db, ops))
    decreases |ops|
  {
    if ops == [] {
    } else {
      var next := Apply(policy, db, ops[0]).0;
      ApplyKeepsInv(policy, db, ops[0]);
      ApplyIsLater(policy, db, ops[0]);
      RunIsLater(policy, next, ops[1..]);
      LaterIsTransitive(db, next, After(policy, db, ops));
    }
  }

  // ---------------------------------------------------------------- who gets in

  /** The outcomes by which session s acts for its user. */
  predicate ActsFor(r: Outcome, s: nat) {
    r == Refreshed(s) || (r.Viewer? && r.viewerSession == s)
  }

  /** Only an active session of an enabled user at the current generation resolves a viewer or refreshes. */
  lemma ActingNeedsCurrentSession(policy: Policy, db: Tables, op: Op, s: nat)
    requires Inv(policy, db)
    requires ActsFor(Apply(policy, db, op).1, s)
    ensures s < |db.sessions| && IsActive(db, s)
    ensures db.sessions[s].user in db.users && db.users[db.sessions[s].user].enabled
    ensures db.sessions[s].generation == db.users[db.sessions[s].user].generation
  {
    if op.RefreshOp? {
      RefreshCases(policy, db, op.token, op.minted, op.now);
      assert LineageAt(db, s) && OwnedAt(db, db.sessions[s]);
    }
  }

  /** An ended lineage is final: no later request of any run is served on it. */
  lemma EndedLineageNeverActs(policy: Policy, db: Tables, s: nat, ops: seq<Op>, op: Op)
    requires Inv(policy, db)
    requires s < |db.sessions| && !IsActive(db, s)
    ensures !ActsFor(Apply(policy, After(policy, db, ops), op).1, s)
  {
    RunKeepsInv(policy, db, ops);
    RunIsLater(policy, db, ops);
    var later := After(policy, db, ops);
    assert SessionLater(db.sessions[s], later.sessions[s]);
    if ActsFor(Apply(policy, later, op).1, s) {
      ActingNeedsCurrentSession(policy, later, op, s);
    }
  }

  /** Recovery cuts off the past: no session that existed before, not even one on the preserved
      credential, ever acts for the user again. */
  lemma RecoveryCutsOffThePast(policy: Policy, db: Tables, user: nat, preserve: Option<nat>, s: nat, ops: seq<Op>,
      op: Op)
    requires Inv(policy, db) && user in db.users
    requires s < |db.sessions| && db.sessions[s].user == user
    ensures !ActsFor(Apply(policy, After(policy, Recover(db, user, preserve).0, ops), op).1, s)
  {
    var recovered := Recover(db, user, preserve).0;
    RecoverKeepsInv(policy, db, user, preserve);
    RecoverIsLater(db, user, preserve);
    RunKeepsInv(policy, recovered, ops);
    RunIsLater(policy, recovered, ops);
    var later := After(policy, recovered, ops);
    assert OwnedAt(db, db.sessions[s]);
    assert SessionLater(db.sessions[s], recovered.sessions[s])
        && SessionLater(recovered.sessions[s], later.sessions[s]);
    assert UserLater(recovered, later, user);
    assert recovered.users[user].generation == db.users[user].generation + 1;
    if ActsFor(Apply(policy, later, op).1, s) {
      ActingNeedsCurrentSession(policy, later, op, s);
    }
  }

  /** Which rows a recovery leaves active: exactly the sessions of the preserved credential, and those
      are already out of date. */
  lemma RecoveryLeavesOnlyPreserved(db: Tables, user: nat, preserve: Option<nat>, s: nat)
    requires user in db.users
    ensures s in ActiveOf(Recover(db, user, preserve).0, user)
            <==> s in ActiveOf(db, user) && preserve == Some(db.sessions[s].credential)
  {
  }

  /** A challenge that issued a session never issues another. */
  lemma ChallengeIsSingleUse(policy: Policy, db: Tables, first: Op, ops: seq<Op>, second: Op)
    requires Inv(policy, db)
    requires (first.LoginOp? || first.RegisterOp?) && Apply(policy, db, first).1.SessionIssued?
    requires (second.LoginOp? || second.RegisterOp?) && second.challenge == first.challenge
    ensures var later := After(policy, Apply(policy, db, first).0, ops);
      Apply(policy, later, second) == (later, Refused(InvalidChallenge))
  {
    var next := Apply(policy, db, first).0;
    ApplyKeepsInv(policy, db, first);
    RunIsLater(policy, next, ops);
    var later := After(policy, next, ops);
    assert next.challenges[first.challenge].consumed;
    assert ChallengeLater(next.challenges[first.challenge], later.challenges[first.challenge]);
  }

  // ---------------------------------------------------------------- when registration issues a session

  /** The user's generation, or that of a user created on first contact. */
  function GenerationOf(db: Tables, user: nat): nat {
    if user in db.users then db.users[user].generation else 1
  }

  /** The active sessions that count towards the cap: unexpired, of the present generation, on other credentials. */
  function StillCounted(db: Tables, user: nat, credential: nat, now: int): set<nat> {
    set s | s in ActiveOf(db, user) && now < db.sessions[s].expiresAt
            && db.sessions[s].generation == GenerationOf(db, user) && db.sessions[s].credential != credential
  }

  /** The account and the credential let this person register: whether the credential is active is not asked. */
  predicate MayRegister(db: Tables, user: nat, credential: nat, keyMatches: bool) {
    && (user in db.users ==> db.users[user].enabled)
    && (credential in db.credentials ==> db.credentials[credential].user == user && keyMatches)
  }

  lemma PrunedIsCounted(db: Tables, user: nat, credential: nat, now: int)
    ensures ActiveOf(Prune(db, user, GenerationOf(db, user), Some(credential), now), user)
         == StillCounted(db, user, credential, now)
  {
    forall s
      ensures s in ActiveOf(Prune(db, user, GenerationOf(db, user), Some(credential), now), user)
          <==> s in StillCounted(db, user, credential, now)
    {
      PruneLeavesCurrent(db, user, GenerationOf(db, user), Some(credential), now, s);
    }
  }

  lemma IssuesIff(policy: Policy, db: Tables, user: nat, credential: nat, minted: Tokens, now: int)
    requires user in db.users
    ensures var r := IssueSession(policy, db, user, credential, minted, now).1;
      if |StillCounted(db, user, credential, now)| < policy.maxActiveSessions then r == SessionIssued(|db.sessions|)
      else r == Refused(SessionLimitReached)
  {
    PrunedIsCounted(db, user, credential, now);
  }

  lemma SameSessionsCounted(db: Tables, other: Tables, user: nat, credential: nat, now: int)
    requires db.sessions == other.sessions && GenerationOf(db, user) == GenerationOf(other, user)
    ensures StillCounted(db, user, credential, now) == StillCounted(other, user, credential, now)
  {
    assert ActiveOf(db, user) == ActiveOf(other, user);
  }

  /** Exactly when registration issues a session. */
  lemma RegistrationIssuesIff(policy: Policy, db: Tables, challenge: nat, hash: Hash, proofsOk: bool,
                              reviewValid: bool, user: nat, credential: nat, keyMatches: bool, reviewOk: bool,
                              minted: Tokens, now: int)
    ensures Register(policy, db, challenge, hash, proofsOk, reviewValid, user, credential, keyMatches, reviewOk,
                     minted, now).1.SessionIssued?
        <==> ChallengeAccepted(db, challenge, hash, RegisterPurpose, now) && proofsOk && reviewValid && reviewOk
             && MayRegister(db, user, credential, keyMatches)
             && |StillCounted(db, user, credential, now)| < policy.maxActiveSessions
  {
    var ready := Consume(Enrol(ResolveUser(db, user), user, credential), challenge);
    IssuesIff(policy, ready, user, credential, minted, now);
    SameSessionsCounted(db, ready, user, credential, now);
  }

  lemma NothingCountsAfterRecovery(policy: Policy, db: Tables, user: nat, preserve: Option<nat>, credential: nat,
                                   now: int)
    requires Inv(policy, db) && user in db.users
    ensures StillCounted(Recover(db, user, preserve).0, user, credential, now) == {}
  {
    var recovered := Recover(db, user, preserve).0;
    forall s | s in ActiveOf(recovered, user)
      ensures recovered.sessions[s].generation != GenerationOf(recovered, user)
    {
      assert OwnedAt(db, db.sessions[s]);
    }
  }

  /** Recovery disables the credentials it does not preserve for login. Registering one of them again issues a session
      on it exactly as for any other of the user's credentials, and it stays disabled for login. */
  lemma RegistrationAcceptsDisabledCredential(policy: Policy, db: Tables, preserve: Option<nat>, challenge: nat,
                                              hash: Hash, proofsOk: bool, reviewValid: bool, user: nat, credential: nat,
                                              keyMatches: bool, reviewOk: bool, minted: Tokens, now: int)
    requires Inv(policy, db) && user in db.users
    requires credential in db.credentials && db.credentials[credential].user == user && preserve != Some(credential)
    ensures var recovered := Recover(db, user, preserve).0;
      var (after, r) := Register(policy, recovered, challenge, hash, proofsOk, reviewValid, user, credential,
                                 keyMatches, reviewOk, minted, now);
      && !recovered.credentials[credential].active
      && (r.SessionIssued? <==>
          ChallengeAccepted(db, challenge, hash, RegisterPurpose, now) && proofsOk && reviewValid && reviewOk
          && db.users[user].enabled && keyMatches && policy.maxActiveSessions > 0)
      && (r.SessionIssued? ==> r.session == |db.sessions| && after.sessions[r.session].credential == credential
                               && !after.credentials[credential].active)
  {
    var recovered := Recover(db, user, preserve).0;
    RegistrationIssuesIff(policy, recovered, challenge, hash, proofsOk, reviewValid, user, credential, keyMatches,
        reviewOk, minted, now);
    NothingCountsAfterRecovery(policy, db, user, preserve, credential, now);
    var ready := Consume(Enrol(recovered, user, credential), challenge);
    IssuesIff(policy, ready, user, credential, minted, now);
  }
}
