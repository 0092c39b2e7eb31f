/** authService and requireViewer over their tables, step by step. */
module SessionService {
  import opened Prelude
  import opened Sessions

  lemma RevokeOneMore(db: Tables, dead: set<nat>, s: nat, status: FamilyStatus)
    ensures RevokeLineage(RevokeLineages(db, dead, status), s, status) == RevokeLineages(db, dead + {s}, status)
  {
    var once, twice := RevokeLineages(db, dead + {s}, status),
        RevokeLineage(RevokeLineages(db, dead, status), s, status);
    assert once.sessions == twice.sessions;
    assert once.families == twice.families;
  }

  lemma SparedRow(before: Tables, dead: set<nat>, s: nat)
    requires s < |before.sessions| && s !in dead
    ensures RevokeLineages(before, dead, FamilyRevoked).sessions[s] == before.sessions[s]
  {
  }

  lemma PruneMember(db: Tables, user: nat, generation: nat, replacing: Option<nat>, now: int, s: nat)
    requires s < |db.sessions| && db.sessions[s].user == user
    ensures s in ActiveOf(db, user) <==> db.sessions[s].status == Active
    ensures s in PruneSet(db, user, generation, replacing, now)
       <==> && db.sessions[s].status == Active
            && (|| db.sessions[s].expiresAt <= now || db.sessions[s].generation != generation
                || replacing == Some(db.sessions[s].credential))
  {
  }

  lemma RecoveryMember(db: Tables, user: nat, preserve: Option<nat>, s: nat)
    requires s < |db.sessions| && db.sessions[s].user == user
    ensures s in RecoverySet(db, user, preserve)
       <==> db.sessions[s].status == Active && preserve != Some(db.sessions[s].credential)
  {
  }

  class AuthStore {
    var users: map<nat, User>
    var credentials: map<nat, Credential>
    var challenges: seq<Challenge>
    var sessions: seq<Session>
    var families: seq<Family>

    constructor ()
      ensures Db() == Tables(map[], map[], [], [], [])
    {
      users, credentials, challenges, sessions, families := map[], map[], [], [], [];
    }

    function Db(): Tables
      reads this
    {
      Tables(users, credentials, challenges, sessions, families)
    }

    method VerifyStoredChallenge(id: nat, hash: Hash, purpose: Purpose, now: int) returns (ok: bool)
      ensures ok == ChallengeAccepted(Db(), id, hash, purpose, now)
    {
      if id >= |challenges| {
        return false;
      }
      var stored := challenges[id];
      if stored.purpose != purpose || stored.consumed || stored.expiresAt <= now {
        return false;
      }
      return stored.hash == hash;
    }

    /** The update only touches a challenge that is not consumed yet. */
    method MarkConsumed(id: nat)
      modifies this`challenges
      ensures Db() == Consume(old(Db()), id)
    {
      if id < |challenges| && !challenges[id].consumed {
        challenges := challenges[id := challenges[id].(consumed := true)];
      }
      assert id < |old(challenges)| && old(challenges)[id].consumed ==> challenges[id := challenges[id]] == challenges;
    }

    method RevokeSessionById(s: nat)
      modifies this`sessions
      ensures Db() == RevokeSession(old(Db()), s)
    {
      if s < |sessions| {
        sessions := sessions[s := sessions[s].(status := Revoked)];
      }
    }

    method RevokeFamilyById(f: nat, status: FamilyStatus)
      modifies this`families
      ensures Db() == RevokeFamily(old(Db()), f, status)
    {
      if f < |families| {
        families := families[f := families[f].(status := status)];
      }
    }

    method RevokeFamiliesBySession(s: nat, status: FamilyStatus)
      modifies this`families
      ensures families == FamiliesRevoked(old(families), {s}, status)
    {
      var f := 0;
      while f < |families|
        invariant f <= |families| == |old(families)|
        invariant families[..f] == FamiliesRevoked(old(families), {s}, status)[..f]
        invariant families[f..] == old(families)[f..]
      {
        assert families[f] == old(families)[f];
        if families[f].session == s {
          families := families[f := families[f].(status := status)];
        }
        f := f + 1;
      }
    }

    /** One session and its refresh family are one revocable lineage. */
    method RevokeSessionLineage(s: nat, status: FamilyStatus)
      modifies this`sessions, this`families
      ensures Db() == RevokeLineage(old(Db()), s, status)
    {
      if s < |sessions| && sessions[s].status == Active {
        RevokeSessionById(s);
      }
      assert sessions == SessionsRevoked(old(sessions), {s});
      RevokeFamiliesBySession(s, status);
    }

    /** The step of a loop over listed sessions at which a chosen one is revoked. */
    method RevokeListed(ghost before: Tables, ghost chosen: set<nat>, listed: seq<nat>, k: nat)
      requires k < |listed| && NewestFirst(listed) && listed[k] in chosen
      requires Db() == RevokeLineages(before, chosen * Seen(listed, k), FamilyRevoked)
      modifies this`sessions, this`families
      ensures Db() == RevokeLineages(before, chosen * Seen(listed, k + 1), FamilyRevoked)
    {
      RevokeSessionLineage(listed[k], FamilyRevoked);
      RevokeOneMore(before, chosen * Seen(listed, k), listed[k], FamilyRevoked);
      SeenStep(listed, k, chosen);
    }

    /** Sessions of the user, newest first. */
    method ListByUserId(user: nat) returns (ids: seq<nat>)
      ensures ids == SessionsOf(sessions, user)
      ensures forall k :: 0 <= k < |ids| ==> ids[k] < |sessions| && sessions[ids[k]].user == user
      ensures forall s :: 0 <= s < |sessions| && sessions[s].user == user ==> s in ids
      ensures NewestFirst(ids)
    {
      ids := [];
      var s := |sessions|;
      assert sessions[..s] == sessions;
      while s > 0
        invariant 0 <= s <= |sessions|
        invariant ids + SessionsOf(sessions[..s], user) == SessionsOf(sessions, user)
      {
        assert sessions[..s][..s - 1] == sessions[..s - 1];
        s := s - 1;
        if sessions[s].user == user {
          ids := ids + [s];
        }
      }
      SessionsOfIsExact(sessions, user);
    }

    /** One turn of the pruning loop; keep: the session stays active. */
    method PruneOne(ghost before: Tables, user: nat, listed: seq<nat>, k: nat, generation: nat, replacing: Option<nat>,
                    now: int)
      returns (keep: bool)
      requires k < |listed| && NewestFirst(listed)
      requires listed[k] < |before.sessions| && before.sessions[listed[k]].user == user
      requires Db() == RevokeLineages(
        before, PruneSet(before, user, generation, replacing, now) * Seen(listed, k), FamilyRevoked)
      modifies this`sessions, this`families
      ensures Db() == RevokeLineages(
        before, PruneSet(before, user, generation, replacing, now) * Seen(listed, k + 1), FamilyRevoked)
      ensures keep <==> listed[k] in ActiveOf(before, user) - PruneSet(before, user, generation, replacing, now)
    {
      var id := listed[k];
      ghost var chosen := PruneSet(before, user, generation, replacing, now);
      SeenStep(listed, k, chosen);
      SparedRow(before, chosen * Seen(listed, k), id);
      PruneMember(before, user, generation, replacing, now, id);
      var session := sessions[id];
      if session.status != Active {
        return false;
      }
      if session.expiresAt <= now || session.generation != generation || replacing == Some(session.credential) {
        RevokeListed(before, chosen, listed, k);
        return false;
      }
      return true;
    }

    method PruneInactiveLoginSessions(user: nat, listed: seq<nat>, generation: nat, replacing: Option<nat>, now: int)
      returns (stillActive: seq<nat>)
      requires forall k :: 0 <= k < |listed| ==> listed[k] < |sessions| && sessions[listed[k]].user == user
      requires forall s :: 0 <= s < |sessions| && sessions[s].user == user ==> s in listed
      requires NewestFirst(listed)
      modifies this`sessions, this`families
      ensures Db() == Prune(old(Db()), user, generation, replacing, now)
      ensures |stillActive| == |ActiveOf(Db(), user)|
    {
      stillActive := [];
      ghost var before := Db();
      ghost var chosen := PruneSet(before, user, generation, replacing, now);
      ghost var kept := ActiveOf(before, user) - chosen;
      RevokeNone(before, FamilyRevoked);
      NothingSeen(listed, chosen);
      NothingSeen(listed, kept);
      for k := 0 to |listed|
        invariant Db() == RevokeLineages(before, chosen * Seen(listed, k), FamilyRevoked)
        invariant Enumerates(stillActive, kept * Seen(listed, k))
      {
        var keep := PruneOne(before, user, listed, k, generation, replacing, now);
        SeenStep(listed, k, kept);
        if keep {
          EnumerateMore(stillActive, kept * Seen(listed, k), listed[k]);
          stillActive := stillActive + [listed[k]];
        }
      }
      PruningEnds(before, listed, user, chosen, stillActive);
    }

    method InsertLineage(policy: Policy, user: nat, generation: nat, credential: nat, minted: Tokens, now: int)
        returns (s: nat)
      modifies this`sessions, this`families
      ensures Db() == AddLineage(policy, old(Db()), user, generation, credential, minted, now)
      ensures s == |old(sessions)|
    {
      s := |sessions|;
      sessions := sessions + [Session(user, credential, Active, generation, minted.access, now + policy.accessTtl)];
      families := families + [Family(s, user, FamilyActive, minted.refresh, None, 0, now + policy.refreshTtl)];
    }

    method IssueFirstPartyAuthSession(policy: Policy, user: nat, credential: nat, minted: Tokens, now: int)
        returns (r: Outcome)
      modifies this`sessions, this`families
      ensures (Db(), r) == IssueSession(policy, old(Db()), user, credential, minted, now)
    {
      if user !in users {
        return Refused(UserNotFound);
      }
      var generation := users[user].generation;
      var existing := ListByUserId(user);
      var stillActive := PruneInactiveLoginSessions(user, existing, generation, Some(credential), now);
      if |stillActive| >= policy.maxActiveSessions {
        return Refused(SessionLimitReached);
      }
      var s := InsertLineage(policy, user, generation, credential, minted, now);
      return SessionIssued(s);
    }

    method CompleteLogin(policy: Policy, challenge: nat, challengeHash: Hash, credential: nat, proofsOk: bool,
        minted: Tokens, now: int)
      returns (r: Outcome)
      modifies this
      ensures (Db(), r) == Login(policy, old(Db()), challenge, challengeHash, credential, proofsOk, minted, now)
    {
      var accepted := VerifyStoredChallenge(challenge, challengeHash, LoginPurpose, now);
      if !accepted {
        return Refused(InvalidChallenge);
      }
      if credential !in credentials || !credentials[credential].active {
        return Refused(CredentialNotFound);
      }
      var user := credentials[credential].user;
      if user !in users {
        return Refused(UserNotFound);
      }
      if !users[user].enabled {
        return Refused(AccountDisabled);
      }
      if !credentials[credential].attested {
        return Refused(AttestationRequired);
      }
      if !proofsOk {
        return Refused(ProofRejected);
      }
      MarkConsumed(challenge);
      r := IssueFirstPartyAuthSession(policy, user, credential, minted, now);
    }

    method CompleteRegistration(policy: Policy, challenge: nat, challengeHash: Hash, proofsOk: bool, reviewValid: bool,
                                user: nat, credential: nat, keyMatches: bool, reviewOk: bool, minted: Tokens, now: int)
      returns (r: Outcome)
      modifies this
      ensures (Db(), r) == Register(policy, old(Db()), challenge, challengeHash, proofsOk, reviewValid, user,
                                    credential, keyMatches, reviewOk, minted, now)
    {
      var accepted := VerifyStoredChallenge(challenge, challengeHash, RegisterPurpose, now);
      if !accepted {
        return Refused(InvalidChallenge);
      }
      if !proofsOk {
        return Refused(ProofRejected);
      }
      if !reviewValid {
        return Refused(ReviewNotApproved);
      }
      if user !in users {
        users := users[user := User(1, true)];
      }
      if !users[user].enabled {
        return Refused(AccountDisabled);
      }
      if credential in credentials && credentials[credential].user != user {
        return Refused(CredentialAlreadyBound);
      }
      if credential in credentials && !keyMatches {
        return Refused(CredentialKeyMismatch);
      }
      var row := if credential in credentials then credentials[credential] else Credential(user, true, false);
      credentials := credentials[credential := row.(attested := true)];
      if !reviewOk {
        return Refused(ReviewNotApproved);
      }
      MarkConsumed(challenge);
      r := IssueFirstPartyAuthSession(policy, user, credential, minted, now);
    }

    method RotateTokens(policy: Policy, f: nat, minted: Tokens, now: int)
      requires f < |families| && families[f].session < |sessions|
      modifies this`sessions, this`families
      ensures Db() == Rotate(policy, old(Db()), f, minted, now)
    {
      var family := families[f];
      sessions := sessions[family.session :=
          sessions[family.session].(accessHash := minted.access, expiresAt := now + policy.accessTtl)];
      families := families[f := family.(previous := Some(family.current), current := minted.refresh,
                                        rotations := family.rotations + 1, expiresAt := now + policy.refreshTtl)];
    }

    method RefreshSession(policy: Policy, token: Hash, minted: Tokens, now: int) returns (r: Outcome)
      modifies this
      ensures (Db(), r) == Refresh(policy, old(Db()), token, minted, now)
    {
      var current := FindCurrent(families, token);
      if current.None? {
        var reused := FindPrevious(families, token);
        if reused.Some? {
          var s := families[reused.value].session;
          RevokeFamilyById(reused.value, FamilyReused);
          RevokeSessionById(s);
        }
        return Refused(RefreshTokenNotFound);
      }
      var f := current.value;
      var family := families[f];
      if family.status != FamilyActive {
        return Refused(RefreshTokenNotActive);
      }
      if family.expiresAt <= now {
        RevokeFamilyById(f, FamilyExpired);
        RevokeSessionById(family.session);
        return Refused(RefreshTokenExpired);
      }
      if family.session >= |sessions| || sessions[family.session].user != family.user {
        return Refused(SessionNotFound);
      }
      var session := sessions[family.session];
      if session.status != Active {
        RevokeFamilyById(f, FamilyRevoked);
        return Refused(SessionNotActive);
      }
      if family.user !in users {
        return Refused(UserNotFound);
      }
      if !users[family.user].enabled {
        RevokeSessionLineage(family.session, FamilyRevoked);
        return Refused(AccountDisabled);
      }
      if users[family.user].generation != session.generation {
        RevokeSessionById(family.session);
        RevokeFamilyById(f, FamilyRevoked);
        return Refused(SessionSuperseded);
      }
      RotateTokens(policy, f, minted, now);
      return Refreshed(f);
    }

    method RevokeSessionForUser(user: nat, s: nat) returns (r: Outcome)
      modifies this
      ensures (Db(), r) == Logout(old(Db()), user, s)
    {
      if s >= |sessions| || sessions[s].user != user {
        return Refused(SessionNotFound);
      }
      RevokeSessionLineage(s, FamilyRevoked);
      return LoggedOut(s);
    }

    method ListSessionsForUser(user: nat, now: int) returns (r: Outcome)
      modifies this
      ensures (Db(), r) == ListSessions(old(Db()), user, now)
    {
      if user !in users {
        return Refused(UserNotFound);
      }
      var listed := ListByUserId(user);
      var stillActive := PruneInactiveLoginSessions(user, listed, users[user].generation, None, now);
      listed := ListByUserId(user);
      return Listed(listed);
    }

    method RevokeUnlessPreserved(ghost before: Tables, user: nat, preserve: Option<nat>, listed: seq<nat>, k: nat)
      requires k < |listed| && NewestFirst(listed)
      requires listed[k] < |before.sessions| && before.sessions[listed[k]].user == user
      requires Db() == RevokeLineages(before, RecoverySet(before, user, preserve) * Seen(listed, k), FamilyRevoked)
      modifies this`sessions, this`families
      ensures Db() == RevokeLineages(before, RecoverySet(before, user, preserve) * Seen(listed, k + 1), FamilyRevoked)
    {
      var id := listed[k];
      ghost var chosen := RecoverySet(before, user, preserve);
      SeenStep(listed, k, chosen);
      SparedRow(before, chosen * Seen(listed, k), id);
      RecoveryMember(before, user, preserve, id);
      if sessions[id].status == Active && preserve != Some(sessions[id].credential) {
        RevokeListed(before, chosen, listed, k);
      }
    }

    method RevokeUnpreserved(user: nat, listed: seq<nat>, preserve: Option<nat>)
      requires forall k :: 0 <= k < |listed| ==> listed[k] < |sessions| && sessions[listed[k]].user == user
      requires forall s :: 0 <= s < |sessions| && sessions[s].user == user ==> s in listed
      requires NewestFirst(listed)
      modifies this`sessions, this`families
      ensures Db() == RevokeLineages(old(Db()), RecoverySet(old(Db()), user, preserve), FamilyRevoked)
    {
      ghost var before := Db();
      ghost var chosen := RecoverySet(before, user, preserve);
      RevokeNone(before, FamilyRevoked);
      NothingSeen(listed, chosen);
      for k := 0 to |listed|
        invariant Db() == RevokeLineages(before, chosen * Seen(listed, k), FamilyRevoked)
      {
        RevokeUnlessPreserved(before, user, preserve, listed, k);
      }
      ListingCovers(before, listed, user, chosen);
    }

    method RevokeOtherSessions(user: nat, preserve: Option<nat>)
      modifies this`sessions, this`families
      ensures Db() == RevokeLineages(old(Db()), RecoverySet(old(Db()), user, preserve), FamilyRevoked)
    {
      var listed := ListByUserId(user);
      RevokeUnpreserved(user, listed, preserve);
    }

    method IncrementAuthGeneration(user: nat) returns (generation: nat)
      requires user in users
      modifies this`users
      ensures Db() == BumpGeneration(old(Db()), user) && user in users && generation == users[user].generation
    {
      generation := users[user].generation + 1;
      users := users[user := users[user].(generation := generation)];
    }

    method RevokeOtherCredentials(user: nat, preserve: Option<nat>)
      modifies this`credentials
      ensures Db() == RevokeCredentials(old(Db()), user, preserve)
    {
      credentials := map c | c in credentials ::
        if credentials[c].user == user && preserve != Some(c) then credentials[c].(active := false, attested := false)
        else credentials[c];
      assert credentials == RevokeCredentials(old(Db()), user, preserve).credentials;
    }

    method RevokeAuthenticationForRecovery(user: nat, preserve: Option<nat>) returns (r: Outcome)
      modifies this
      ensures (Db(), r) == Recover(old(Db()), user, preserve)
    {
      if user !in users {
        return Refused(UserNotFound);
      }
      var generation := IncrementAuthGeneration(user);
      RevokeOtherSessions(user, preserve);
      RevokeOtherCredentials(user, preserve);
      return Recovered(generation);
    }

    method RequireViewer(token: Hash, now: int) returns (r: Outcome)
      modifies this
      ensures (Db(), r) == Bearer(old(Db()), token, now)
    {
      var found := FindByAccess(sessions, token);
      if found.None? || sessions[found.value].status != Active {
        return Refused(ViewerNotResolved);
      }
      var s := found.value;
      var session := sessions[s];
      if session.expiresAt <= now {
        RevokeSessionLineage(s, FamilyExpired);
        return Refused(SessionExpired);
      }
      if session.user !in users {
        return Refused(ViewerNotResolved);
      }
      if !users[session.user].enabled {
        RevokeSessionLineage(s, FamilyRevoked);
        return Refused(AccountDisabled);
      }
      if users[session.user].generation != session.generation {
        RevokeSessionLineage(s, FamilyRevoked);
        return Refused(SessionStale);
      }
      return Viewer(session.user, s);
    }
  }

  // ---------------------------------------------------------------- loops over a listing

  /** A listing holds exactly the sessions of the user, newest first. */
  lemma {:induction false} SessionsOfIsExact(sessions: seq<Session>, user: nat)
    ensures var ids := SessionsOf(sessions, user);
      && (forall k :: 0 <= k < |ids| ==> ids[k] < |sessions| && sessions[ids[k]].user == user)
      && (forall s :: 0 <= s < |sessions| && sessions[s].user == user ==> s in ids)
      && NewestFirst(ids)
  {
    if sessions != [] {
      SessionsOfIsExact(sessions[..|sessions| - 1], user);
    }
  }

  ghost predicate NewestFirst(listed: seq<nat>) {
    forall j, k :: 0 <= j < k < |listed| ==> listed[j] > listed[k]
  }

  ghost function Seen(listed: seq<nat>, k: nat): set<nat>
    requires k <= |listed|
  {
    set s | s in listed[..k]
  }

  lemma NothingSeen(listed: seq<nat>, chosen: set<nat>)
    ensures chosen * Seen(listed, 0) == {}
  {
  }

  lemma SeenStep(listed: seq<nat>, k: nat, chosen: set<nat>)
    requires k < |listed| && NewestFirst(listed)
    ensures listed[k] !in Seen(listed, k)
    ensures chosen * Seen(listed, k + 1) == chosen * Seen(listed, k) + if listed[k] in chosen then {listed[k]} else {}
  {
    assert listed[..k + 1] == listed[..k] + [listed[k]];
  }

  lemma AllSeen(listed: seq<nat>, chosen: set<nat>)
    requires forall s :: s in chosen ==> s in listed
    ensures chosen * Seen(listed, |listed|) == chosen
  {
    assert listed[..|listed|] == listed;
  }

  /** xs lists the elements of s, each once. */
  ghost predicate Enumerates(xs: seq<nat>, s: set<nat>) {
    (forall i, j :: 0 <= i < j < |xs| ==> xs[i] != xs[j]) && forall x :: x in xs <==> x in s
  }

  lemma EnumerateMore(xs: seq<nat>, s: set<nat>, x: nat)
    requires Enumerates(xs, s) && x !in s
    ensures Enumerates(xs + [x], s + {x})
  {
  }

  lemma KeptAreActive(db: Tables, chosen: set<nat>, user: nat)
    ensures ActiveOf(RevokeLineages(db, chosen, FamilyRevoked), user) == ActiveOf(db, user) - chosen
  {
  }

  lemma ListingCovers(db: Tables, listed: seq<nat>, user: nat, chosen: set<nat>)
    requires chosen <= ActiveOf(db, user)
    requires forall s :: 0 <= s < |db.sessions| && db.sessions[s].user == user ==> s in listed
    ensures chosen * Seen(listed, |listed|) == chosen
  {
    AllSeen(listed, chosen);
  }

  lemma PruningEnds(db: Tables, listed: seq<nat>, user: nat, chosen: set<nat>, stillActive: seq<nat>)
    requires chosen <= ActiveOf(db, user)
    requires forall s :: 0 <= s < |db.sessions| && db.sessions[s].user == user ==> s in listed
    requires Enumerates(stillActive, (ActiveOf(db, user) - chosen) * Seen(listed, |listed|))
    ensures chosen * Seen(listed, |listed|) == chosen
    ensures |stillActive| == |ActiveOf(RevokeLineages(db, chosen, FamilyRevoked), user)|
  {
    AllSeen(listed, chosen);
    AllSeen(listed, ActiveOf(db, user) - chosen);
    DistinctCount(stillActive, ActiveOf(db, user) - chosen);
    KeptAreActive(db, chosen, user);
  }

  lemma {:induction false} DistinctCount(xs: seq<nat>, s: set<nat>)
    requires Enumerates(xs, s)
    ensures |xs| == |s|
  {
    if xs == [] {
      assert s == {};
    } else {
      var n := |xs| - 1;
      assert xs == xs[..n] + [xs[n]];
      assert xs[n] in s;
      forall x
        ensures x in xs[..n] <==> x in s - {xs[n]}
      {
      }
      DistinctCount(xs[..n], s - {xs[n]});
    }
  }
}
