/** Sessions, refresh-token families and authentication generations: the tables and what each
    operation does to them. A row's id is its position, so ids are never reused. Tokens appear as
    their hashes. */
module Sessions {
  import opened Prelude

  type Hash = nat

  datatype Policy = Policy(maxActiveSessions: nat, accessTtl: nat, refreshTtl: nat)

  datatype User = User(generation: nat, enabled: bool)

  datatype Credential = Credential(user: nat, active: bool, attested: bool)

  datatype Purpose = LoginPurpose | RegisterPurpose

  datatype Challenge = Challenge(purpose: Purpose, hash: Hash, expiresAt: int, consumed: bool)

  datatype SessionStatus = Active | Revoked

  datatype Session = Session(
    user: nat, credential: nat, status: SessionStatus, generation: nat, accessHash: Hash, expiresAt: int)

  datatype FamilyStatus = FamilyActive | FamilyRevoked | FamilyReused | FamilyExpired

  datatype Family = Family(
    session: nat, user: nat, status: FamilyStatus, current: Hash, previous: Option<Hash>, rotations: nat,
    expiresAt: int)

  datatype Tables = Tables(
    users: map<nat, User>, credentials: map<nat, Credential>, challenges: seq<Challenge>,
    sessions: seq<Session>, families: seq<Family>)

  datatype Tokens = Tokens(access: Hash, refresh: Hash)

  datatype Refusal =
    | InvalidChallenge | ProofRejected | AccountDisabled | CredentialAlreadyBound | CredentialKeyMismatch
    | ReviewNotApproved | CredentialNotFound | UserNotFound | AttestationRequired | SessionLimitReached
    | RefreshTokenNotFound | RefreshTokenNotActive | RefreshTokenExpired | SessionNotFound | SessionNotActive
    | SessionSuperseded | ViewerNotResolved | SessionExpired | SessionStale

  datatype Outcome =
    | Refused(code: Refusal)
    | SessionIssued(session: nat)
    | Refreshed(family: nat)
    | LoggedOut(session: nat)
    | Listed(ids: seq<nat>)
    | Recovered(generation: nat)
    | Viewer(user: nat, viewerSession: nat)
    | Done

  // ---------------------------------------------------------------- updates

  predicate IsActive(db: Tables, s: nat) {
    s < |db.sessions| && db.sessions[s].status == Active
  }

  function RevokeSession(db: Tables, s: nat): Tables {
    if s < |db.sessions| then db.(sessions := db.sessions[s := db.sessions[s].(status := Revoked)]) else db
  }

  function RevokeFamily(db: Tables, f: nat, status: FamilyStatus): Tables {
    if f < |db.families| then db.(families := db.families[f := db.families[f].(status := status)]) else db
  }

  function SessionsRevoked(sessions: seq<Session>, dead: set<nat>): (r: seq<Session>)
    ensures |r| == |sessions|
    ensures forall i :: 0 <= i < |r| ==> r[i] == if i in dead then sessions[i].(status := Revoked) else sessions[i]
  {
    seq(|sessions|, i requires 0 <= i < |sessions| =>
      if i in dead then sessions[i].(status := Revoked) else sessions[i])
  }

  function FamiliesRevoked(families: seq<Family>, dead: set<nat>, status: FamilyStatus): (r: seq<Family>)
    ensures |r| == |families|
    ensures forall i :: 0 <= i < |r| ==>
        r[i] == if families[i].session in dead then families[i].(status := status) else families[i]
  {
    seq(|families|, i requires 0 <= i < |families| =>
      if families[i].session in dead then families[i].(status := status) else families[i])
  }

  /** End the lineages of a set of sessions: the sessions and every family that names one of them. */
  function RevokeLineages(db: Tables, dead: set<nat>, status: FamilyStatus): Tables {
    db.(sessions := SessionsRevoked(db.sessions, dead), families := FamiliesRevoked(db.families, dead, status))
  }

  function RevokeLineage(db: Tables, s: nat, status: FamilyStatus): Tables {
    RevokeLineages(db, {s}, status)
  }

  lemma RevokeNone(db: Tables, status: FamilyStatus)
    ensures RevokeLineages(db, {}, status) == db
  {
    assert SessionsRevoked(db.sessions, {}) == db.sessions;
    assert FamiliesRevoked(db.families, {}, status) == db.families;
  }

  // ---------------------------------------------------------------- look-ups

  function FindCurrent(families: seq<Family>, token: Hash): (r: Option<nat>)
    ensures r.Some? ==> r.value < |families| && families[r.value].current == token
    ensures r.None? ==> forall f :: 0 <= f < |families| ==> families[f].current != token
  {
    if families == [] then None
    else if families[|families| - 1].current == token then Some(|families| - 1)
    else FindCurrent(families[..|families| - 1], token)
  }

  function FindPrevious(families: seq<Family>, token: Hash): (r: Option<nat>)
    ensures r.Some? ==> r.value < |families| && families[r.value].previous == Some(token)
    ensures r.None? ==> forall f :: 0 <= f < |families| ==> families[f].previous != Some(token)
  {
    if families == [] then None
    else if families[|families| - 1].previous == Some(token) then Some(|families| - 1)
    else FindPrevious(families[..|families| - 1], token)
  }

  function FindByAccess(sessions: seq<Session>, token: Hash): (r: Option<nat>)
    ensures r.Some? ==> r.value < |sessions| && sessions[r.value].accessHash == token
    ensures r.None? ==> forall s :: 0 <= s < |sessions| ==> sessions[s].accessHash != token
  {
    if sessions == [] then None
    else if sessions[|sessions| - 1].accessHash == token then Some(|sessions| - 1)
    else FindByAccess(sessions[..|sessions| - 1], token)
  }

  function ActiveOf(db: Tables, user: nat): set<nat> {
    set s | 0 <= s < |db.sessions| && db.sessions[s].user == user && db.sessions[s].status == Active
  }

  // ---------------------------------------------------------------- challenges

  predicate ChallengeAccepted(db: Tables, id: nat, hash: Hash, purpose: Purpose, now: int) {
    && id < |db.challenges|
    && db.challenges[id].purpose == purpose
    && !db.challenges[id].consumed
    && now < db.challenges[id].expiresAt
    && db.challenges[id].hash == hash
  }

  function Consume(db: Tables, id: nat): Tables {
    if id < |db.challenges| then db.(challenges := db.challenges[id := db.challenges[id].(consumed := true)]) else db
  }

  // ---------------------------------------------------------------- issuing a session

  /** Active sessions of the user that are expired, of another generation, or on the credential being replaced. */
  predicate Prunable(db: Tables, user: nat, generation: nat, replacing: Option<nat>, now: int, s: nat) {
    && s in ActiveOf(db, user)
    && (|| db.sessions[s].expiresAt <= now
        || db.sessions[s].generation != generation
        || replacing == Some(db.sessions[s].credential))
  }

  function PruneSet(db: Tables, user: nat, generation: nat, replacing: Option<nat>, now: int): set<nat> {
    set s | s in ActiveOf(db, user) && Prunable(db, user, generation, replacing, now, s)
  }

  function Prune(db: Tables, user: nat, generation: nat, replacing: Option<nat>, now: int): Tables {
    RevokeLineages(db, PruneSet(db, user, generation, replacing, now), FamilyRevoked)
  }

  function AddLineage(policy: Policy, db: Tables, user: nat, generation: nat, credential: nat, minted: Tokens,
      now: int): Tables {
    var id := |db.sessions|;
    var session := Session(user, credential, Active, generation, minted.access, now + policy.accessTtl);
    var family := Family(id, user, FamilyActive, minted.refresh, None, 0, now + policy.refreshTtl);
    db.(sessions := db.sessions + [session], families := db.families + [family])
  }

  function IssueSession(policy: Policy, db: Tables, user: nat, credential: nat, minted: Tokens,
                        now: int): (Tables, Outcome) {
    if user !in db.users then (db, Refused(UserNotFound))
    else
      var generation := db.users[user].generation;
      var pruned := Prune(db, user, generation, Some(credential), now);
      if |ActiveOf(pruned, user)| >= policy.maxActiveSessions then (pruned, Refused(SessionLimitReached))
      else (AddLineage(policy, pruned, user, generation, credential, minted, now), SessionIssued(|db.sessions|))
  }

  // ---------------------------------------------------------------- the operations

  /** proofsOk stands for the device signature and the app assertion. */
  function Login(policy: Policy, db: Tables, challenge: nat, challengeHash: Hash, credential: nat, proofsOk: bool,
      minted: Tokens, now: int): (Tables, Outcome) {
    if !ChallengeAccepted(db, challenge, challengeHash, LoginPurpose, now) then (db, Refused(InvalidChallenge))
    else if credential !in db.credentials || !db.credentials[credential].active then (db, Refused(CredentialNotFound))
    else
      var user := db.credentials[credential].user;
      if user !in db.users then (db, Refused(UserNotFound))
      else if !db.users[user].enabled then (db, Refused(AccountDisabled))
      else if !db.credentials[credential].attested then (db, Refused(AttestationRequired))
      else if !proofsOk then (db, Refused(ProofRejected))
      else IssueSession(policy, Consume(db, challenge), user, credential, minted, now)
  }

  /** The user of a verified identity, created on first contact. */
  function ResolveUser(db: Tables, user: nat): Tables {
    if user in db.users then db else db.(users := db.users[user := User(1, true)])
  }

  /** Enrol the credential unless it exists; either way its attestation is now verified. */
  function Enrol(db: Tables, user: nat, credential: nat): Tables {
    var row := if credential in db.credentials then db.credentials[credential] else Credential(user, true, false);
    db.(credentials := db.credentials[credential := row.(attested := true)])
  }

  /** reviewValid and reviewOk: a human review, if that is the evidence, is complete and approved when it is first
      looked at, and when it is used up at the end. */
  function Register(policy: Policy, db: Tables, challenge: nat, challengeHash: Hash, proofsOk: bool, reviewValid: bool,
                    user: nat, credential: nat, keyMatches: bool, reviewOk: bool, minted: Tokens,
                    now: int): (Tables, Outcome) {
    if !ChallengeAccepted(db, challenge, challengeHash, RegisterPurpose, now) then (db, Refused(InvalidChallenge))
    else if !proofsOk then (db, Refused(ProofRejected))
    else if !reviewValid then (db, Refused(ReviewNotApproved))
    else
      var known := ResolveUser(db, user);
      if !known.users[user].enabled then (known, Refused(AccountDisabled))
      else if credential in known.credentials && known.credentials[credential].user != user then
          (known, Refused(CredentialAlreadyBound))
      else if credential in known.credentials && !keyMatches then (known, Refused(CredentialKeyMismatch))
      else
        var enrolled := Enrol(known, user, credential);
        if !reviewOk then (enrolled, Refused(ReviewNotApproved))
        else IssueSession(policy, Consume(enrolled, challenge), user, credential, minted, now)
  }

  function Rotate(policy: Policy, db: Tables, f: nat, minted: Tokens, now: int): Tables
    requires f < |db.families| && db.families[f].session < |db.sessions|
  {
    var family := db.families[f];
    var session := db.sessions[family.session].(accessHash := minted.access, expiresAt := now + policy.accessTtl);
    var rotated := family.(previous := Some(family.current), current := minted.refresh,
                           rotations := family.rotations + 1, expiresAt := now + policy.refreshTtl);
    db.(sessions := db.sessions[family.session := session], families := db.families[f := rotated])
  }

  function Refresh(policy: Policy, db: Tables, token: Hash, minted: Tokens, now: int): (Tables, Outcome) {
    match FindCurrent(db.families, token)
    case None =>
      (match FindPrevious(db.families, token)
       case None => (db, Refused(RefreshTokenNotFound))
       case Some(f) =>
         (RevokeSession(RevokeFamily(db, f, FamilyReused), db.families[f].session), Refused(RefreshTokenNotFound)))
    case Some(f) =>
      var family := db.families[f];
      var s := family.session;
      if family.status != FamilyActive then (db, Refused(RefreshTokenNotActive))
      else if family.expiresAt <= now then
          (RevokeSession(RevokeFamily(db, f, FamilyExpired), s), Refused(RefreshTokenExpired))
      else if s >= |db.sessions| || db.sessions[s].user != family.user then (db, Refused(SessionNotFound))
      else if db.sessions[s].status != Active then (RevokeFamily(db, f, FamilyRevoked), Refused(SessionNotActive))
      else if family.user !in db.users then (db, Refused(UserNotFound))
      else if !db.users[family.user].enabled then (RevokeLineage(db, s, FamilyRevoked), Refused(AccountDisabled))
      else if db.users[family.user].generation != db.sessions[s].generation
      then (RevokeFamily(RevokeSession(db, s), f, FamilyRevoked), Refused(SessionSuperseded))
      else (Rotate(policy, db, f, minted, now), Refreshed(f))
  }

  function Logout(db: Tables, user: nat, s: nat): (Tables, Outcome) {
    if s >= |db.sessions| || db.sessions[s].user != user then (db, Refused(SessionNotFound))
    else (RevokeLineage(db, s, FamilyRevoked), LoggedOut(s))
  }

  /** All sessions of a user, whatever their status, newest first. */
  function SessionsOf(sessions: seq<Session>, user: nat): seq<nat> {
    if sessions == [] then []
    else
      var n := |sessions| - 1;
      if sessions[n].user == user then [n] + SessionsOf(sessions[..n], user) else SessionsOf(sessions[..n], user)
  }

  function ListSessions(db: Tables, user: nat, now: int): (Tables, Outcome) {
    if user !in db.users then (db, Refused(UserNotFound))
    else
      var pruned := Prune(db, user, db.users[user].generation, None, now);
      (pruned, Listed(SessionsOf(pruned.sessions, user)))
  }

  /** Active sessions of the user on any credential but the preserved one. */
  function RecoverySet(db: Tables, user: nat, preserve: Option<nat>): set<nat> {
    set s | s in ActiveOf(db, user) && preserve != Some(db.sessions[s].credential)
  }

  function RevokeCredentials(db: Tables, user: nat, preserve: Option<nat>): Tables {
    db.(credentials := map c | c in db.credentials ::
          if db.credentials[c].user == user && preserve != Some(c) then
              db.credentials[c].(active := false, attested := false)
          else db.credentials[c])
  }

  function BumpGeneration(db: Tables, user: nat): Tables
    requires user in db.users
  {
    db.(users := db.users[user := db.users[user].(generation := db.users[user].generation + 1)])
  }

  function Recover(db: Tables, user: nat, preserve: Option<nat>): (Tables, Outcome) {
    if user !in db.users then (db, Refused(UserNotFound))
    else
      var bumped := BumpGeneration(db, user);
      var revoked := RevokeLineages(bumped, RecoverySet(bumped, user, preserve), FamilyRevoked);
      (RevokeCredentials(revoked, user, preserve), Recovered(bumped.users[user].generation))
  }

  /** requireViewer: resolve a bearer token on a protected route. */
  function Bearer(db: Tables, token: Hash, now: int): (Tables, Outcome) {
    match FindByAccess(db.sessions, token)
    case None => (db, Refused(ViewerNotResolved))
    case Some(s) =>
      var session := db.sessions[s];
      if session.status != Active then (db, Refused(ViewerNotResolved))
      else if session.expiresAt <= now then (RevokeLineage(db, s, FamilyExpired), Refused(SessionExpired))
      else if session.user !in db.users then (db, Refused(ViewerNotResolved))
      else if !db.users[session.user].enabled then (RevokeLineage(db, s, FamilyRevoked), Refused(AccountDisabled))
      else if db.users[session.user].generation != session.generation then
          (RevokeLineage(db, s, FamilyRevoked), Refused(SessionStale))
      else (db, Viewer(session.user, s))
  }

  function IssueChallenge(db: Tables, purpose: Purpose, hash: Hash, expiresAt: int): Tables {
    db.(challenges := db.challenges + [Challenge(purpose, hash, expiresAt, false)])
  }

  /** Support disables or re-enables an account. */
  function SetAccount(db: Tables, user: nat, enabled: bool): Tables {
    if user in db.users then db.(users := db.users[user := db.users[user].(enabled := enabled)]) else db
  }

  datatype Op =
    | IssueChallengeOp(purpose: Purpose, hash: Hash, expiresAt: int)
    | LoginOp(challenge: nat, challengeHash: Hash, credential: nat, proofsOk: bool, minted: Tokens, now: int)
    | RegisterOp(challenge: nat, challengeHash: Hash, proofsOk: bool, reviewValid: bool, user: nat, credential: nat,
                 keyMatches: bool, reviewOk: bool, minted: Tokens, now: int)
    | RefreshOp(token: Hash, minted: Tokens, now: int)
    | LogoutOp(user: nat, session: nat)
    | ListOp(user: nat, now: int)
    | RecoverOp(user: nat, preserve: Option<nat>)
    | BearerOp(token: Hash, now: int)
    | SetAccountOp(user: nat, enabled: bool)

  function Apply(policy: Policy, db: Tables, op: Op): (Tables, Outcome) {
    match op
    case IssueChallengeOp(purpose, hash, expiresAt) => (IssueChallenge(db, purpose, hash, expiresAt), Done)
    case LoginOp(challenge, challengeHash, credential, proofsOk, minted, now) =>
      Login(policy, db, challenge, challengeHash, credential, proofsOk, minted, now)
    case RegisterOp(challenge, challengeHash, proofsOk, reviewValid, user, credential, keyMatches, reviewOk, minted,
        now) =>
      Register(policy, db, challenge, challengeHash, proofsOk, reviewValid, user, credential, keyMatches, reviewOk,
               minted, now)
    case RefreshOp(token, minted, now) => Refresh(policy, db, token, minted, now)
    case LogoutOp(user, session) => Logout(db, user, session)
    case ListOp(user, now) => ListSessions(db, user, now)
    case RecoverOp(user, preserve) => Recover(db, user, preserve)
    case BearerOp(token, now) => Bearer(db, token, now)
    case SetAccountOp(user, enabled) => (SetAccount(db, user, enabled), Done)
  }
}
