/** Issuance from the raw input: what the answer and the stored row have to do with the fields that were sent, and which
    error an input that is refused gets. */
module CredentialRequests {
  import opened Prelude
  import opened FieldElements
  import opened MerkleTree
  import opened SparseMerkle
  import opened Text
  import opened CredentialRegistry
  import opened CredentialRegistryRuns
  import opened CredentialRootRuns

  /** The fields of a row that the input fixes. */
  predicate Holds(e: Entry, input: IssueInput) {
    && ParseHex64(input.commitment) == Some(e.commitment)
    && ParseHex64(input.schemaHash) == Some(e.schemaHash)
    && ParseHex64(input.claimsHash) == Some(e.claimsHash)
    && e.issuerId == Trim(input.issuerId) && e.issuerId != ""
    && e.scheme == (if input.scheme.Some? then input.scheme.value else "civicos-credential-commitment-v1")
    && e.depth == (if input.depth.Some? then input.depth.value else 32)
    && !e.revoked
  }

  /** The row is that of the input's identity key. */
  predicate HasKey(hs: Hashes, e: Entry, input: IssueInput) {
    var key := ParseHex64(input.canonicalIdentityKey);
    key.Some? && e.identityKeyHash == hs.identity(key.value % BN254)
  }

  lemma NewRowHolds(hs: Hashes, input: IssueInput, leafIndex: nat)
    requires Normalize(hs, input).Ok?
    ensures var e := EntryFor(Normalize(hs, input).value, leafIndex);
      && Holds(e, input) && HasKey(hs, e, input)
      && e.verifiedIdentityId == input.verifiedIdentityId && e.leafIndex == leafIndex
  {
  }

  lemma MatchingRowHolds(hs: Hashes, existing: Entry, input: IssueInput)
    requires Normalize(hs, input).Ok? && CheckExisting(existing, Normalize(hs, input).value).None?
    ensures Holds(existing, input)
  {
    NewRowHolds(hs, input, existing.leafIndex);
  }

  lemma BuildAnswers(hs: Hashes, reg: Registry, status: Status, e: Entry, now: int)
    requires BuildResult(hs, reg, status, e, now).1.Ok?
    ensures var x := BuildResult(hs, reg, status, e, now).1.value; x.entry == e && x.status == status
  {
  }

  lemma KeyOfRequest(hs: Hashes, input: IssueInput)
    requires Normalize(hs, input).Ok?
    ensures var req, key := Normalize(hs, input).value, ParseHex64(input.canonicalIdentityKey);
      && key.Some? && req.identityKeyHash == hs.identity(key.value % BN254)
      && req.verifiedIdentityId == input.verifiedIdentityId
      && ParseHex64(input.schemaHash) == Some(req.schemaHash)
  {
  }

  /** What an accepted request returns: a row with exactly the fields of the input. A new one is stored as it is
      returned; an existing one was stored for the same key or the same verified identity. */
  lemma AnswerMatchesInput(hs: Hashes, reg: Registry, input: IssueInput, now: int)
    requires IssueRaw(hs, reg, input, now).1.Ok?
    ensures var (after, r) := IssueRaw(hs, reg, input, now);
      var e := r.value.entry;
      && Holds(e, input)
      && (r.value.status == FreshlyIssued ==>
          && HasKey(hs, e, input) && e.verifiedIdentityId == input.verifiedIdentityId
          && after.entries == reg.entries + [e])
      && (r.value.status == Existing ==>
          && (HasKey(hs, e, input) || e.verifiedIdentityId == input.verifiedIdentityId)
          && e in reg.entries && after.entries == reg.entries)
  {
    var req := Normalize(hs, input).value;
    KeyOfRequest(hs, input);
    if FreshRequest(reg, req) {
      var next := NextLeafIndex(ListActive(reg.entries, req.depth));
      NewRowHolds(hs, input, next);
      FreshAnswer(hs, reg, req, now);
    } else {
      var e := KnownRow(reg, req).value;
      KnownAnswer(hs, reg, req, now);
      MatchingRowHolds(hs, e, input);
    }
  }

  lemma FreshAnswer(hs: Hashes, reg: Registry, req: Request, now: int)
    requires FreshRequest(reg, req) && IssueEntry(hs, reg, req, now).1.Ok?
    ensures var (after, r) := IssueEntry(hs, reg, req, now);
      var e := EntryFor(req, NextLeafIndex(ListActive(reg.entries, req.depth)));
      r.value.entry == e && r.value.status == FreshlyIssued && after.entries == reg.entries + [e]
  {
    var e := EntryFor(req, NextLeafIndex(ListActive(reg.entries, req.depth)));
    var mid := reg.(entries := reg.entries + [e]);
    BuildAnswers(hs, mid, FreshlyIssued, e, now);
    BuildKeepsRows(hs, mid, FreshlyIssued, e, now);
  }

  lemma KnownAnswer(hs: Hashes, reg: Registry, req: Request, now: int)
    requires !FreshRequest(reg, req) && IssueEntry(hs, reg, req, now).1.Ok?
    ensures var (after, r) := IssueEntry(hs, reg, req, now);
      var e := KnownRow(reg, req).value;
      && CheckExisting(e, req).None? && r.value.entry == e && r.value.status == Existing && after.entries == reg.entries
      && (SameIdentity(e, req.identityKeyHash, req.schemaHash)
          || SameVerifiedIdentity(e, req.verifiedIdentityId, req.schemaHash))
  {
    var e := KnownRow(reg, req).value;
    BuildAnswers(hs, reg, Existing, e, now);
    BuildKeepsRows(hs, reg, Existing, e, now);
  }

  /** The row is for the schema of the input, and for its key or its verified identity. */
  predicate SamePerson(hs: Hashes, e: Entry, input: IssueInput) {
    && ParseHex64(input.schemaHash) == Some(e.schemaHash)
    && (HasKey(hs, e, input) || e.verifiedIdentityId == input.verifiedIdentityId)
  }

  /** An accepted request is answered with a stored row exactly if one has the input's key and schema, or its verified
      identity and schema. */
  lemma ExistingIff(hs: Hashes, reg: Registry, input: IssueInput, now: int)
    requires IssueRaw(hs, reg, input, now).1.Ok?
    ensures IssueRaw(hs, reg, input, now).1.value.status == Existing
        <==> exists k :: 0 <= k < |reg.entries| && SamePerson(hs, reg.entries[k], input)
  {
    var req := Normalize(hs, input).value;
    KeyOfRequest(hs, input);
    if FreshRequest(reg, req) {
      FreshAnswer(hs, reg, req, now);
      forall k | 0 <= k < |reg.entries|
        ensures !SameIdentity(reg.entries[k], req.identityKeyHash, req.schemaHash)
        ensures !SameVerifiedIdentity(reg.entries[k], req.verifiedIdentityId, req.schemaHash)
      {
        assert reg.entries[k] in reg.entries;
      }
    } else {
      KnownAnswer(hs, reg, req, now);
      var k :| 0 <= k < |reg.entries| && reg.entries[k] == KnownRow(reg, req).value;
    }
  }

  predicate DepthGiven(input: IssueInput) {
    input.depth.Some? ==> 1 <= input.depth.value <= 64
  }

  /** Which error an input gets before any table is read: the first that applies, in this order. The tables stay as
      they are. */
  lemma FirstInputError(hs: Hashes, reg: Registry, input: IssueInput, now: int)
    ensures var (after, r) := IssueRaw(hs, reg, input, now);
      var commitment := DepthGiven(input) && ParseHex64(input.commitment).Some?;
      var schema := commitment && ParseHex64(input.schemaHash).Some?;
      var claims := schema && ParseHex64(input.claimsHash).Some?;
      var issuer := claims && Trim(input.issuerId) != "";
      var key := issuer && ParseHex64(input.canonicalIdentityKey).Some?;
      && (r == Err(InTree(DepthOutOfRange)) <==> !DepthGiven(input))
      && (r == Err(NotHex64("credentialCommitment")) <==> DepthGiven(input) && !commitment)
      && (r == Err(NotHex64("credentialSchemaHash")) <==> commitment && !schema)
      && (r == Err(NotHex64("claimsHash")) <==> schema && !claims)
      && (r == Err(IssuerRequired) <==> claims && !issuer)
      && (r == Err(NotHex64("canonicalIdentityKey")) <==> issuer && !key)
      && (!key ==> after == reg)
  {
    InputErrors(hs, input);
    if Normalize(hs, input).Ok? {
      LaterErrors(hs, reg, Normalize(hs, input).value, now);
    }
  }

  lemma FieldNamesDiffer()
    ensures "credentialCommitment" != "credentialSchemaHash" && "credentialCommitment" != "claimsHash"
    ensures "credentialCommitment" != "canonicalIdentityKey" && "credentialSchemaHash" != "claimsHash"
    ensures "credentialSchemaHash" != "canonicalIdentityKey" && "claimsHash" != "canonicalIdentityKey"
  {
    assert "credentialCommitment"[1] == 'r' && "claimsHash"[1] == 'l' && "canonicalIdentityKey"[1] == 'a';
    assert "credentialCommitment"[10] == 'C' && "credentialSchemaHash"[10] == 'S' && "credentialSchemaHash"[1] == 'r';
  }

  lemma InputErrors(hs: Hashes, input: IssueInput)
    ensures var r := Normalize(hs, input);
      var commitment := DepthGiven(input) && ParseHex64(input.commitment).Some?;
      var schema := commitment && ParseHex64(input.schemaHash).Some?;
      var claims := schema && ParseHex64(input.claimsHash).Some?;
      var issuer := claims && Trim(input.issuerId) != "";
      var key := issuer && ParseHex64(input.canonicalIdentityKey).Some?;
      && (r == Err(InTree(DepthOutOfRange)) <==> !DepthGiven(input))
      && (r == Err(NotHex64("credentialCommitment")) <==> DepthGiven(input) && !commitment)
      && (r == Err(NotHex64("credentialSchemaHash")) <==> commitment && !schema)
      && (r == Err(NotHex64("claimsHash")) <==> schema && !claims)
      && (r == Err(IssuerRequired) <==> claims && !issuer)
      && (r == Err(NotHex64("canonicalIdentityKey")) <==> issuer && !key)
      && (r.Ok? <==> key)
      && (r.Ok? ==> 1 <= r.value.depth <= 64)
  {
    FieldNamesDiffer();
  }

  /** The errors that can come after the input was checked. */
  predicate IsLate(e: IssueError) {
    e.EntryRevoked? || e.DifferentEntry? || e.UniqueViolation? || e.MissingFromMaterial?
    || (e.InTree? && !e.error.DepthOutOfRange?)
  }

  lemma {:induction false} LeafErrorIsLate(leaves: seq<Leaf>, depth: nat)
    ensures FirstLeafError(leaves, depth).Some? ==> !FirstLeafError(leaves, depth).value.DepthOutOfRange?
  {
    if leaves != [] {
      LeafErrorIsLate(leaves[1..], depth);
    }
  }

  lemma BuildErrorsAreLate(hs: Hashes, reg: Registry, status: Status, e: Entry, now: int)
    requires 1 <= e.depth <= 64
    ensures var r := BuildResult(hs, reg, status, e, now).1; r.Err? ==> IsLate(r.error)
  {
    LeafErrorIsLate(LeavesOf(ListActive(reg.entries, e.depth)), e.depth);
  }

  lemma LaterErrors(hs: Hashes, reg: Registry, req: Request, now: int)
    requires 1 <= req.depth <= 64
    ensures var r := IssueEntry(hs, reg, req, now).1; r.Err? ==> IsLate(r.error)
  {
    if FreshRequest(reg, req) {
      var e := EntryFor(req, NextLeafIndex(ListActive(reg.entries, req.depth)));
      BuildErrorsAreLate(hs, reg.(entries := reg.entries + [e]), FreshlyIssued, e, now);
    } else if CheckExisting(KnownRow(reg, req).value, req).None? {
      BuildErrorsAreLate(hs, reg, Existing, KnownRow(reg, req).value, now);
    }
  }
}
