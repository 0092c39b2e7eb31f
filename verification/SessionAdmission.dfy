/** What each session operation answers and stores, written out field by field. */
module SessionAdmission {
  import opened Prelude
  import opened Sessions
  import opened SessionRuns
  import opened SessionHistory
  import opened SessionService

  // ---------------------------------------------------------------- rows

  /** The session counts as active for the user but must make room: it is out of time, of another generation, or on
      the credential that is being replaced. */
  predicate MakesRoom(x: Session, user: nat, generation: nat, replacing: Option<nat>, now: int) {
    && x.user == user && x.status == Active
    && (x.expiresAt <= now || x.generation != generation || replacing == Some(x.credential))
  }

  /** A row ended, and nothing else about it changed. */
  predicate SessionEnded(x: Session, y: Session) {
    y == Session(x.user, x.credential, Revoked, x.generation, x.accessHash, x.expiresAt)
  }

  predicate FamilyEnded(x: Family, y: Family, status: FamilyStatus) {
    y == Family(x.session, x.user, status, x.current, x.previous, x.rotations, x.expiresAt)
  }

  /** Exactly the sessions of a set ended, with the families that name one of them. */
  ghost predicate Ended(db: Tables, sessions: seq<Session>, families: seq<Family>, dead: iset<nat>,
                        status: FamilyStatus) {
    && |sessions| == |db.sessions| && |families| == |db.families|
    && (forall s :: 0 <= s < |sessions| ==>
        if s in dead then SessionEnded(db.sessions[s], sessions[s]) else sessions[s] == db.sessions[s])
    && (forall f :: 0 <= f < |families| ==>
        if db.families[f].session in dead then FamilyEnded(db.families[f], families[f], status)
        else families[f] == db.families[f])
  }

  ghost function RoomMakers(db: Tables, user: nat, generation: nat, replacing: Option<nat>, now: int): iset<nat> {
    iset s | 0 <= s < |db.sessions| && MakesRoom(db.sessions[s], user, generation, replacing, now)
  }

  lemma PruneEnds(db: Tables, user: nat, generation: nat, replacing: Option<nat>, now: int)
    ensures var after := Prune(db, user, generation, replacing, now);
      && Ended(db, after.sessions, after.families, RoomMakers(db, user, generation, replacing, now), FamilyRevoked)
      && after.users == db.users && after.credentials == db.credentials && after.challenges == db.challenges
  {
  }

  lemma LineageEnds(db: Tables, s: nat, status: FamilyStatus)
    ensures var after := RevokeLineage(db, s, status);
      && Ended(db, after.sessions, after.families, iset{s}, status)
      && after.users == db.users && after.credentials == db.credentials && after.challenges == db.challenges
  {
  }

  /** A session and its family for a user: what made room for them ended, and they are the last rows. */
  ghost predicate Stored(policy: Policy, db: Tables, after: Tables, user: nat, credential: nat, generation: nat,
                         minted: Tokens, now: int) {
    var n, m := |db.sessions|, |db.families|;
    && |after.sessions| == n + 1 && |after.families| == m + 1
    && Ended(db, after.sessions[..n], after.families[..m], RoomMakers(db, user, generation, Some(credential), now),
             FamilyRevoked)
    && after.sessions[n] == Session(user, credential, Active, generation, minted.access, now + policy.accessTtl)
    && after.families[m] == Family(n, user, FamilyActive, minted.refresh, None, 0, now + policy.refreshTtl)
  }

  lemma IssueStores(policy: Policy, db: Tables, user: nat, credential: nat, minted: Tokens, now: int)
    requires user in db.users && IssueSession(policy, db, user, credential, minted, now).1.SessionIssued?
    ensures var (after, r) := IssueSession(policy, db, user, credential, minted, now);
      && r == SessionIssued(|db.sessions|)
      && Stored(policy, db, after, user, credential, db.users[user].generation, minted, now)
      && after.users == db.users && after.credentials == db.credentials && after.challenges == db.challenges
  {
    var pruned := Prune(db, user, db.users[user].generation, Some(credential), now);
    var after := IssueSession(policy, db, user, credential, minted, now).0;
    PruneEnds(db, user, db.users[user].generation, Some(credential), now);
    assert after.sessions[..|db.sessions|] == pruned.sessions && after.families[..|db.families|] == pruned.families;
  }

  lemma StoredOver(policy: Policy, db: Tables, other: Tables, after: Tables, user: nat, credential: nat,
                   generation: nat, minted: Tokens, now: int)
    requires db.sessions == other.sessions && db.families == other.families
    requires Stored(policy, other, after, user, credential, generation, minted, now)
    ensures Stored(policy, db, after, user, credential, generation, minted, now)
  {
    assert RoomMakers(db, user, generation, Some(credential), now)
        == RoomMakers(other, user, generation, Some(credential), now);
  }

  // ---------------------------------------------------------------- challenges

  /** The challenge is there for this purpose, with this value, unused and in time. */
  predicate ChallengeOpen(db: Tables, id: nat, hash: Hash, purpose: Purpose, now: int) {
    && id < |db.challenges| && db.challenges[id].hash == hash && db.challenges[id].purpose == purpose
    && !db.challenges[id].consumed && now < db.challenges[id].expiresAt
  }

  /** Only this challenge changed: it is used up. */
  ghost predicate OnlyConsumed(before: seq<Challenge>, after: seq<Challenge>, id: nat) {
    && |after| == |before| && id < |before|
    && (forall k :: 0 <= k < |after| && k != id ==> after[k] == before[k])
    && after[id] == Challenge(before[id].purpose, before[id].hash, before[id].expiresAt, true)
  }

  // ---------------------------------------------------------------- login

  /** Exactly when a login issues a session. */
  lemma LoginIssuesIff(policy: Policy, db: Tables, challenge: nat, hash: Hash, credential: nat, proofsOk: bool,
                       minted: Tokens, now: int)
    ensures Login(policy, db, challenge, hash, credential, proofsOk, minted, now).1.SessionIssued?
        <==> && challenge < |db.challenges| && db.challenges[challenge].purpose == LoginPurpose
             && db.challenges[challenge].hash == hash && !db.challenges[challenge].consumed
             && now < db.challenges[challenge].expiresAt
             && credential in db.credentials && db.credentials[credential].active && db.credentials[credential].attested
             && db.credentials[credential].user in db.users && db.users[db.credentials[credential].user].enabled
             && proofsOk
             && |StillCounted(db, db.credentials[credential].user, credential, now)| < policy.maxActiveSessions
  {
    if credential in db.credentials && db.credentials[credential].user in db.users {
      var user := db.credentials[credential].user;
      var ready := Consume(db, challenge);
      IssuesIff(policy, ready, user, credential, minted, now);
      SameSessionsCounted(db, ready, user, credential, now);
    }
  }

  /** Which refusal a login that is not served gets: the first that applies, in this order. All but the last leave the
      tables as they are. */
  lemma LoginRefusals(policy: Policy, db: Tables, challenge: nat, hash: Hash, credential: nat, proofsOk: bool,
                      minted: Tokens, now: int)
    ensures var (after, r) := Login(policy, db, challenge, hash, credential, proofsOk, minted, now);
      var open := ChallengeOpen(db, challenge, hash, LoginPurpose, now);
      var known := open && credential in db.credentials && db.credentials[credential].active;
      var owned := known && db.credentials[credential].user in db.users;
      var enabled := owned && db.users[db.credentials[credential].user].enabled;
      var attested := enabled && db.credentials[credential].attested;
      && (r == Refused(InvalidChallenge) <==> !open)
      && (r == Refused(CredentialNotFound) <==> open && !known)
      && (r == Refused(UserNotFound) <==> known && !owned)
      && (r == Refused(AccountDisabled) <==> owned && !enabled)
      && (r == Refused(AttestationRequired) <==> enabled && !attested)
      && (r == Refused(ProofRejected) <==> attested && !proofsOk)
      && (attested && proofsOk ==> r.SessionIssued? || r == Refused(SessionLimitReached))
      && (!attested || !proofsOk ==> after == db)
  {
    if credential in db.credentials && db.credentials[credential].user in db.users {
      IssuesIff(policy, Consume(db, challenge), db.credentials[credential].user, credential, minted, now);
    }
  }

  /** What a login that is served stores: the challenge is used up, and one session with its family is added on the
      credential, for its user, at the user's generation. */
  lemma LoginStores(policy: Policy, db: Tables, challenge: nat, hash: Hash, credential: nat, proofsOk: bool,
                    minted: Tokens, now: int)
    requires Login(policy, db, challenge, hash, credential, proofsOk, minted, now).1.SessionIssued?
    ensures credential in db.credentials && db.credentials[credential].user in db.users
    ensures var (after, r) := Login(policy, db, challenge, hash, credential, proofsOk, minted, now);
      var user := db.credentials[credential].user;
      && r == SessionIssued(|db.sessions|)
      && Stored(policy, db, after, user, credential, db.users[user].generation, minted, now)
      && OnlyConsumed(db.challenges, after.challenges, challenge)
      && after.users == db.users && after.credentials == db.credentials
  {
    LoginIssuesIff(policy, db, challenge, hash, credential, proofsOk, minted, now);
    var user, ready := db.credentials[credential].user, Consume(db, challenge);
    IssueStores(policy, ready, user, credential, minted, now);
    StoredOver(policy, db, ready, Login(policy, db, challenge, hash, credential, proofsOk, minted, now).0, user,
        credential, db.users[user].generation, minted, now);
  }

  /** A login refused for the limit used up its challenge and, in a reachable state, did nothing else. */
  lemma LimitRefusalUsesChallenge(policy: Policy, db: Tables, challenge: nat, hash: Hash, credential: nat,
                                  proofsOk: bool, minted: Tokens, now: int)
    requires Inv(policy, db)
    requires Login(policy, db, challenge, hash, credential, proofsOk, minted, now).1 == Refused(SessionLimitReached)
    ensures var after := Login(policy, db, challenge, hash, credential, proofsOk, minted, now).0;
      && OnlyConsumed(db.challenges, after.challenges, challenge)
      && after == db.(challenges := after.challenges)
  {
    AccountsKeepInv(policy, db, Consume(db, challenge));
    LimitRefusalRevokesNothing(policy, Consume(db, challenge), db.credentials[credential].user, credential, minted,
        now);
  }

  // ---------------------------------------------------------------- registration

  /** The users after a registration has looked up its person: created enabled, at generation one, on first contact. */
  ghost predicate OnlyMet(before: map<nat, User>, after: map<nat, User>, user: nat) {
    && after.Keys == before.Keys + {user}
    && (forall u :: u in after && u != user ==> after[u] == before[u])
    && after[user] == if user in before then before[user] else User(1, true)
  }

  /** Only this credential changed: it has a verified attestation, and is the user's and active if it is new. */
  ghost predicate OnlyEnrolled(before: map<nat, Credential>, after: map<nat, Credential>, user: nat, credential: nat) {
    && after.Keys == before.Keys + {credential}
    && (forall c :: c in after && c != credential ==> after[c] == before[c])
    && after[credential] == if credential in before then Credential(before[credential].user, before[credential].active,
                                                                    true)
                            else Credential(user, true, true)
  }

  predicate OwnOrNew(db: Tables, user: nat, credential: nat) {
    credential in db.credentials ==> db.credentials[credential].user == user
  }

  predicate EnabledOrNew(db: Tables, user: nat) {
    user in db.users ==> db.users[user].enabled
  }

  /** Which refusal a registration that is not served gets: the first that applies, in this order. */
  lemma RegistrationRefusals(policy: Policy, db: Tables, challenge: nat, hash: Hash, proofsOk: bool,
                             reviewValid: bool, user: nat, credential: nat, keyMatches: bool, reviewOk: bool,
                             minted: Tokens, now: int)
    ensures var r := Register(policy, db, challenge, hash, proofsOk, reviewValid, user, credential, keyMatches,
                              reviewOk, minted, now).1;
      var open := ChallengeOpen(db, challenge, hash, RegisterPurpose, now);
      var met := open && proofsOk && reviewValid;
      var enabled := met && EnabledOrNew(db, user);
      var own := enabled && OwnOrNew(db, user, credential);
      var matching := own && (credential in db.credentials ==> keyMatches);
      && (r == Refused(InvalidChallenge) <==> !open)
      && (r == Refused(ProofRejected) <==> open && !proofsOk)
      && (r == Refused(AccountDisabled) <==> met && !enabled)
      && (r == Refused(CredentialAlreadyBound) <==> enabled && !own)
      && (r == Refused(CredentialKeyMismatch) <==> own && !matching)
      && (r == Refused(ReviewNotApproved) <==> (open && proofsOk && !reviewValid) || (matching && !reviewOk))
      && (matching && reviewOk ==> r.SessionIssued? || r == Refused(SessionLimitReached))
  {
    var ready := Consume(Enrol(ResolveUser(db, user), user, credential), challenge);
    IssuesIff(policy, ready, user, credential, minted, now);
  }

  /** What a refused registration leaves behind: nothing up to the first look at a review, the person after that, and
      the credential too if only the review could not be used up. */
  lemma RegistrationLeaves(policy: Policy, db: Tables, challenge: nat, hash: Hash, proofsOk: bool, reviewValid: bool,
                           user: nat, credential: nat, keyMatches: bool, reviewOk: bool, minted: Tokens, now: int)
    ensures var after := Register(policy, db, challenge, hash, proofsOk, reviewValid, user, credential, keyMatches,
                                  reviewOk, minted, now).0;
      var met := ChallengeOpen(db, challenge, hash, RegisterPurpose, now) && proofsOk && reviewValid;
      var matching := EnabledOrNew(db, user) && OwnOrNew(db, user, credential)
                      && (credential in db.credentials ==> keyMatches);
      && (!met ==> after == db)
      && (met && !matching ==> OnlyMet(db.users, after.users, user) && after == db.(users := after.users))
      && (met && matching && !reviewOk ==>
          && OnlyMet(db.users, after.users, user) && OnlyEnrolled(db.credentials, after.credentials, user, credential)
          && after == db.(users := after.users, credentials := after.credentials))
  {
  }

  lemma RegistrationIssues(policy: Policy, db: Tables, challenge: nat, hash: Hash, proofsOk: bool, reviewValid: bool,
                           user: nat, credential: nat, keyMatches: bool, reviewOk: bool, minted: Tokens, now: int)
    requires Register(policy, db, challenge, hash, proofsOk, reviewValid, user, credential, keyMatches, reviewOk,
                      minted, now).1.SessionIssued?
    ensures challenge < |db.challenges|
    ensures var ready := Consume(Enrol(ResolveUser(db, user), user, credential), challenge);
      Register(policy, db, challenge, hash, proofsOk, reviewValid, user, credential, keyMatches, reviewOk, minted, now)
      == IssueSession(policy, ready, user, credential, minted, now)
  {
  }

  lemma ReadyToIssue(db: Tables, user: nat, credential: nat, challenge: nat)
    requires challenge < |db.challenges|
    ensures var ready := Consume(Enrol(ResolveUser(db, user), user, credential), challenge);
      && OnlyMet(db.users, ready.users, user) && OnlyEnrolled(db.credentials, ready.credentials, user, credential)
      && OnlyConsumed(db.challenges, ready.challenges, challenge)
      && ready.sessions == db.sessions && ready.families == db.families
  {
  }

  /** What a registration that is served stores: the person, the credential with its attestation, the used challenge,
      and one session with its family. */
  lemma RegistrationStores(policy: Policy, db: Tables, challenge: nat, hash: Hash, proofsOk: bool, reviewValid: bool,
                           user: nat, credential: nat, keyMatches: bool, reviewOk: bool, minted: Tokens, now: int)
    requires Register(policy, db, challenge, hash, proofsOk, reviewValid, user, credential, keyMatches, reviewOk,
                      minted, now).1.SessionIssued?
    ensures var (after, r) := Register(policy, db, challenge, hash, proofsOk, reviewValid, user, credential, keyMatches,
                                       reviewOk, minted, now);
      && r == SessionIssued(|db.sessions|)
      && Stored(policy, db, after, user, credential, GenerationOf(db, user), minted, now)
      && OnlyConsumed(db.challenges, after.challenges, challenge)
      && OnlyMet(db.users, after.users, user) && OnlyEnrolled(db.credentials, after.credentials, user, credential)
  {
    RegistrationIssues(policy, db, challenge, hash, proofsOk, reviewValid, user, credential, keyMatches, reviewOk,
        minted, now);
    ReadyToIssue(db, user, credential, challenge);
    var ready := Consume(Enrol(ResolveUser(db, user), user, credential), challenge);
    IssueStores(policy, ready, user, credential, minted, now);
    StoredOver(policy, db, ready, IssueSession(policy, ready, user, credential, minted, now).0, user, credential,
        GenerationOf(db, user), minted, now);
  }

  // ---------------------------------------------------------------- refresh

  /** The family of the token is active and in time, its session is active and of the same, enabled user at the user's
      present generation. */
  predicate Refreshable(db: Tables, f: nat, now: int)
    requires f < |db.families|
  {
    var family := db.families[f];
    && family.status == FamilyActive && now < family.expiresAt
    && family.session < |db.sessions|
    && var session := db.sessions[family.session];
       && session.user == family.user && session.status == Active
       && family.user in db.users && db.users[family.user].enabled
       && db.users[family.user].generation == session.generation
  }

  /** Only this session changed: it has a new access token that is good for accessTtl from now. */
  ghost predicate OnlyRenewed(before: seq<Session>, after: seq<Session>, s: nat, access: Hash, expiresAt: int) {
    && |after| == |before| && s < |before|
    && (forall k :: 0 <= k < |after| && k != s ==> after[k] == before[k])
    && var x := before[s];
       after[s] == Session(x.user, x.credential, x.status, x.generation, access, expiresAt)
  }

  /** Only this family changed: its token became the previous one. */
  ghost predicate OnlyRotated(before: seq<Family>, after: seq<Family>, f: nat, refresh: Hash, expiresAt: int) {
    && |after| == |before| && f < |before|
    && (forall k :: 0 <= k < |after| && k != f ==> after[k] == before[k])
    && var x := before[f];
       after[f] == Family(x.session, x.user, x.status, refresh, Some(x.current), x.rotations + 1, expiresAt)
  }

  /** Exactly when a token is refreshed, and what that stores. */
  lemma RefreshIssuesIff(policy: Policy, db: Tables, token: Hash, minted: Tokens, now: int)
    ensures var (after, r) := Refresh(policy, db, token, minted, now);
      var found := FindCurrent(db.families, token);
      && (r.Refreshed? <==> found.Some? && Refreshable(db, found.value, now))
      && (r.Refreshed? ==>
          && r == Refreshed(found.value)
          && OnlyRenewed(db.sessions, after.sessions, db.families[found.value].session, minted.access,
                         now + policy.accessTtl)
          && OnlyRotated(db.families, after.families, found.value, minted.refresh, now + policy.refreshTtl)
          && after == db.(sessions := after.sessions, families := after.families))
  {
  }

  // ---------------------------------------------------------------- bearer tokens

  /** Exactly whom an access token resolves, and what each refusal ends. */
  lemma BearerResolvesIff(db: Tables, token: Hash, now: int)
    ensures var (after, r) := Bearer(db, token, now);
      var found := FindByAccess(db.sessions, token);
      var active := found.Some? && db.sessions[found.value].status == Active;
      var current := active && now < db.sessions[found.value].expiresAt;
      var owned := current && db.sessions[found.value].user in db.users;
      var enabled := owned && db.users[db.sessions[found.value].user].enabled;
      var latest := enabled && db.users[db.sessions[found.value].user].generation
                               == db.sessions[found.value].generation;
      && (r.Viewer? <==> latest)
      && (latest ==> r == Viewer(db.sessions[found.value].user, found.value))
      && (r == Refused(ViewerNotResolved) <==> !active || (current && !owned))
      && (r == Refused(SessionExpired) <==> active && !current)
      && (r == Refused(AccountDisabled) <==> owned && !enabled)
      && (r == Refused(SessionStale) <==> enabled && !latest)
      && (latest || !active || (current && !owned) ==> after == db)
      && (active && !latest && (current ==> owned) ==>
          && Ended(db, after.sessions, after.families, iset{found.value},
                   if current then FamilyRevoked else FamilyExpired)
          && after == db.(sessions := after.sessions, families := after.families))
  {
    var found := FindByAccess(db.sessions, token);
    if found.Some? {
      LineageEnds(db, found.value, FamilyRevoked);
      LineageEnds(db, found.value, FamilyExpired);
    }
  }

  // ---------------------------------------------------------------- logout, listing, recovery

  /** A session is ended for its own user only. */
  lemma LogoutEndsIff(db: Tables, user: nat, s: nat)
    ensures var (after, r) := Logout(db, user, s);
      var own := s < |db.sessions| && db.sessions[s].user == user;
      && r == (if own then LoggedOut(s) else Refused(SessionNotFound))
      && (own ==> Ended(db, after.sessions, after.families, iset{s}, FamilyRevoked))
      && after == if own then db.(sessions := after.sessions, families := after.families) else db
  {
    LineageEnds(db, s, FamilyRevoked);
  }

  /** All sessions of a user are listed, after those that are out of time or of another generation have ended. */
  lemma ListingShows(db: Tables, user: nat, now: int)
    ensures var (after, r) := ListSessions(db, user, now);
      if user !in db.users then after == db && r == Refused(UserNotFound)
      else
        && r.Listed? && after == db.(sessions := after.sessions, families := after.families)
        && Ended(db, after.sessions, after.families, RoomMakers(db, user, db.users[user].generation, None, now),
                 FamilyRevoked)
        && (forall k :: 0 <= k < |r.ids| ==> r.ids[k] < |db.sessions| && db.sessions[r.ids[k]].user == user)
        && (forall s :: 0 <= s < |db.sessions| && db.sessions[s].user == user ==> s in r.ids)
        && (forall j, k :: 0 <= j < k < |r.ids| ==> r.ids[j] > r.ids[k])
  {
    if user in db.users {
      var pruned := Prune(db, user, db.users[user].generation, None, now);
      PruneEnds(db, user, db.users[user].generation, None, now);
      SessionsOfIsExact(pruned.sessions, user);
      assert forall s :: 0 <= s < |db.sessions| ==> pruned.sessions[s].user == db.sessions[s].user;
    }
  }

  ghost function Unpreserved(db: Tables, user: nat, preserve: Option<nat>): iset<nat> {
    iset s | 0 <= s < |db.sessions| && db.sessions[s].user == user && db.sessions[s].status == Active
             && preserve != Some(db.sessions[s].credential)
  }

  lemma LineagesEnd(db: Tables, chosen: set<nat>, dead: iset<nat>, status: FamilyStatus)
    requires forall s :: s in chosen <==> s in dead
    ensures var after := RevokeLineages(db, chosen, status);
      Ended(db, after.sessions, after.families, dead, status)
  {
  }

  lemma RecoveryChooses(db: Tables, user: nat, preserve: Option<nat>, s: nat)
    requires user in db.users
    ensures s in RecoverySet(BumpGeneration(db, user), user, preserve) <==> s in Unpreserved(db, user, preserve)
  {
  }

  lemma RecoveryEnds(db: Tables, user: nat, preserve: Option<nat>)
    requires user in db.users
    ensures var after := Recover(db, user, preserve).0;
      Ended(db, after.sessions, after.families, Unpreserved(db, user, preserve), FamilyRevoked)
  {
    var bumped := BumpGeneration(db, user);
    forall s: nat
      ensures s in RecoverySet(bumped, user, preserve) <==> s in Unpreserved(db, user, preserve)
    {
      RecoveryChooses(db, user, preserve, s);
    }
    LineagesEnd(bumped, RecoverySet(bumped, user, preserve), Unpreserved(db, user, preserve), FamilyRevoked);
  }

  /** The user's credentials that are not preserved are disabled, with their attestations. */
  ghost predicate OnlyDisabled(before: map<nat, Credential>, after: map<nat, Credential>, user: nat,
                               preserve: Option<nat>) {
    && after.Keys == before.Keys
    && forall c :: c in before ==>
        after[c] == if before[c].user == user && preserve != Some(c) then Credential(user, false, false) else before[c]
  }

  /** A recovery raises the user's generation by one, ends the user's active sessions on credentials that are not
      preserved, disables these credentials, and leaves everything else. */
  lemma RecoveryDoes(db: Tables, user: nat, preserve: Option<nat>)
    ensures var (after, r) := Recover(db, user, preserve);
      if user !in db.users then after == db && r == Refused(UserNotFound)
      else
        && r == Recovered(db.users[user].generation + 1)
        && after.users == db.users[user := User(db.users[user].generation + 1, db.users[user].enabled)]
        && Ended(db, after.sessions, after.families, Unpreserved(db, user, preserve), FamilyRevoked)
        && OnlyDisabled(db.credentials, after.credentials, user, preserve)
        && after.challenges == db.challenges
  {
    if user in db.users {
      RecoveryEnds(db, user, preserve);
    }
  }
}
