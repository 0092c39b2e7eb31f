# Verification of the CivicOS backend's protocols

This project models the parts of the backend whose correctness is a matter of state, order or arithmetic, and proves
properties of the model for all inputs and all runs. `dafny verify dfyconfig.toml` checks everything (Dafny 4.11).

## What is modelled

**Credential registry** (`MerkleTree`, `SparseMerkle`, `Text`, `CredentialRegistry`, `CredentialRegistryRuns`,
`CredentialRootRuns`, `CredentialIssuance`, `CredentialRaces`, `CredentialRequests`). The sparse Poseidon tree is built level by level over
maps, as the service builds it, and is compared with the complete zero-padded binary tree. On top of it stands the table
of issued credentials, with leaf assignment, the unique constraints, and the chain of roots, for requests served one
after the other and for requests that interleave read by read and insert by insert. A 64-digit hex text is the number it
spells. The hash is any function on pairs of field elements whose inputs are reduced modulo the BN254 scalar field, as
the Poseidon service reduces them. No hash is ever assumed to be injective: where a statement needs that, it excludes a
collision between the particular inputs that the two computations hash.

**Sessions and refresh tokens** (`Sessions`, `SessionRuns`, `SessionHistory`, `RefreshTokens`, `SessionService`,
`SessionAdmission`). Users, credentials, challenges, sessions and refresh families are tables; each service operation is a
function on them, and the class `AuthStore` carries the same operations as methods that update rows one after the other
and are proved equal to those functions. `SessionAdmission` says field by field whom each operation serves and what it
stores; the rest is about runs of any operations.

**Audit log** (`AuditChain`, `AuditAppend`). The hash chain, and concurrent appenders that read a head, hash, append if
the head is unchanged and try once more if it is not.

**DER reader and digest normaliser** (`Der`, `DerSearch`, `Orbits`, `DerTrees`, `CertDigest`). The tag-length-value
reader of ITU-T X.690 sections 8.1.2 and 8.1.3 with the signed 32-bit arithmetic of JavaScript's shifts, the
depth-bounded search over it wherever its offsets lead, an encoder for trees of elements, and the normaliser for
hexadecimal and base64url (section 5 of RFC 4648) digests.

**Paging, threads, counting and moderation** (`Comments`, `Cursors`, `Paging`, `CommentListing`, `ThreadFeed`,
`Threads`, `ThreadRuns`, `CommentCreation`, `VoteProbe`, `Moderation`). Keyset paging with rows filtered after the page is cut, the
hand-over from a thread's preview to its pages, what a reader can reach at all, the shape of threads and the stored reply
counts over any run, the exponential and binary count probe, and reviewers who decide on the same items at once.

Clocks are parameters. New tokens are values never issued before; a signature, an attestation, a moderation score or a
body check is a Boolean or a status among the inputs. A step of the registry, audit and moderation state machines is one
read or one write of the database. In the session model and in the runs of comments a step is one service operation.

## Where the code falls short of what one might expect

Each of these is a lemma below. Where the expected property depends on the input, a lemma says exactly on what.

- A commitment equal to the field modulus passes the 64-digit check and is invisible in the root
  (`ModulusLeafIsInvisible`; exact below the modulus: `RootDeterminesCanonicalTree`).
- The last row of a depth being revoked blocks every later issuance at that depth (`RevokedLastRowBlocksIssuance`).
- A full tree refuses a newcomer only after the row was stored, and from then on everybody at that depth
  (`FullTreeNeverBuilds`), until the surplus row is revoked, which closes the depth to newcomers (`FullTreeIsSpoiled`;
  exact: `BuildsIff`).
- Roots are unique over all depths, so that a person can be refused because of a tree of another depth, without any
  collision (`SharedRootRefusesRequest`; exact: `FreshRequestAcceptedIff`).
- With two requests at once, the root of the smaller tree can be stored last and be the latest (`OlderRootStoredLast`;
  exact: `LatestInLineIff`). Everybody at that depth is then refused until somebody new comes (`StaleUntilSomebodyNew`,
  `SomebodyNewRecovers`; exact: `RepeatRefusedIff`).
- A refresh token older than the previous one is refused without ending its lineage (`PresentingAnIssuedToken`).
- A credential that recovery has disabled for login can be registered again like any other
  (`RegistrationAcceptsDisabledCredential`; exact: `RegistrationIssuesIff`).
- Two streams cannot open with the same event, since event hashes are unique over all streams (`SameFirstEventClashes`).
- A stream name with outer spaces is read under one name and appended under another (`UncleanNameReadsGenesis`).
- A DER length field can decode to a negative number, so that the search stands still for ever (`NoProgressExample`;
  exact: `NeverReturnsIff`).
- A digest of nothing but spaces is not normalised idempotently (`NormalizingTwiceIff`).
- The count probe answers the hint when the hint is too high, and 0 when the hint is 0 (`ProbeIsRightIff`).
- The cursor check refuses UUIDs without the version and variant of RFC 4122, which the id column can hold; a listing
  that meets one starts over (`KeyAcceptedIff`, `NilIdIsRefused`, `PagingEndsIff`). Rows that the service makes are never
  refused (`StoredKeysAreAccepted`).
- Replies to a blocked author's root beyond the previewed ones cannot be reached (exact: `ReplyCanBeReadIff`), nor can
  orphaned replies beyond the first page's limit (exact: `OrphanCanBeReadIff`).
- Reported published content can be approved twice, both times logged (`ReportedContentCanBeApprovedTwice`; exact:
  `OnlyApprovalsRepeat`, `BothDecideIff`).

## Model

| member | source | states |
|---|---|---|
| MerkleTree.RootIsCompleteRoot | src/services/credentialRegistryService.ts:142-212 | the root defined node by node is the root of the complete binary tree over 2^depth zero-padded leaves |
| MerkleTree.PathBitsSpellIndex | src/services/credentialRegistryService.ts:219-226 | the direction bits of a path are the binary digits of the leaf index |
| MerkleTree.PathFoldsToRoot | src/services/credentialRegistryService.ts:215-229 | folding a leaf up its siblings by its direction bits gives the root |
| MerkleTree.PathFoldsAnyLeaf | src/services/credentialRegistryService.ts:215-229 | folding any other leaf up the same path gives the root of the tree with that leaf stored instead |
| MerkleTree.FoldBinds | src/services/credentialRegistryService.ts:215-229 | two folds along the same bits that end equal and meet no collision started from the same leaf element and used the same siblings |
| MerkleTree.RootDeterminesLeaves | src/services/credentialRegistryService.ts:152-236 | at a fixed depth, barring collisions between the two trees, roots are equal if and only if all leaves are equal as field elements |
| MerkleTree.RootDeterminesCanonicalTree | src/services/credentialRegistryService.ts:152-236 | with commitments below the modulus, roots are equal if and only if the zero-padded leaf maps are equal |
| MerkleTree.ModulusLeafIsInvisible | src/services/poseidonBn254Service.ts:15-39 | without that bound a tree whose only commitment is the modulus has the root of the empty tree, whatever the hash |
| MerkleTree.OpeningIsHonest | src/services/credentialRegistryService.ts:215-229 | a path of the right length that folds to the root at index i starts from the element stored at i, barring collisions |
| SparseMerkle.NormalizeLeafIndex | src/services/credentialRegistryService.ts:88-98 | an integer index is accepted exactly between 0 and 2^depth - 1, and which of the two errors is raised otherwise |
| SparseMerkle.FirstLeafErrorIsExact | src/services/credentialRegistryService.ts:88-98 | a list of leaves raises no error exactly when every index is in range |
| SparseMerkle.LeafOrderIsIrrelevant | src/services/credentialRegistryService.ts:152-236 | two lists with distinct indices and the same leaves give the same material |
| SparseMerkle.BuildZeroHashes | src/services/credentialRegistryService.ts:142-150 | the loop fills in the roots of the empty trees of each height, with one hash call per level |
| SparseMerkle.HashPair | src/services/credentialRegistryService.ts:152-199 | the value stored for a sibling pair is the hash of both values with zero for an absent one |
| SparseMerkle.HashPairs | src/services/credentialRegistryService.ts:152-199 | visiting the sorted indices with a processed set produces exactly the parent of every occupied pair, with at most one hash call for each occupied index |
| SparseMerkle.PairsRepresentParents | src/services/credentialRegistryService.ts:152-199 | if a level's map represents the nodes of the complete tree, so does the map made from its pairs |
| SparseMerkle.PlaceLeaves | src/services/credentialRegistryService.ts:152-199 | the bottom layer maps each index to its commitment, the last one winning, or the first index error is reported |
| SparseMerkle.BuildSparseMerkleLayers | src/services/credentialRegistryService.ts:152-199 | every level's map, with that level's zero hash where it is silent, is that level of the complete tree, within depth times leaves hash calls |
| SparseMerkle.RaiseLayers | src/services/credentialRegistryService.ts:152-199 | the loop over levels keeps that correspondence and the bound on hash calls |
| SparseMerkle.ExtractPath | src/services/credentialRegistryService.ts:215-226 | the cursor loop collects the siblings of the ancestors and the bits of the index |
| SparseMerkle.ExtractPaths | src/services/credentialRegistryService.ts:213-229 | every stored leaf gets its path and the root |
| SparseMerkle.BuildCredentialRegistryMerkleMaterial | src/services/credentialRegistryService.ts:201-236 | the whole construction returns the root, count and paths of the complete tree or the first error, with at most depth * (leaves + 1) hash calls |
| SparseMerkle.MaterialIsComplete | src/services/credentialRegistryService.ts:201-236 | in the returned material each leaf's path has length depth, spells its index and folds its commitment to the complete tree's root |
| Text.ParseHex64IsExact | src/services/credentialRegistryService.ts:66-75 | two accepted hex texts name the same value exactly when they are equal after trimming and lower-casing |
| CredentialRegistry.LeavesOf | src/services/credentialRegistryService.ts:252-259 | the leaves handed to the tree are the active rows, in order |
| CredentialRegistry.FindByIdentity | src/repositories/credentialRegistryRepository.ts:47-65 | the row found has the identity hash and schema asked for, and none has if none is found |
| CredentialRegistry.FindByVerifiedIdentity | src/repositories/credentialRegistryRepository.ts:85-103 | the row found has the verified identity and schema asked for, and none has if none is found |
| CredentialRegistry.RegistryStore.InsertRegistryEntry | src/repositories/credentialRegistryRepository.ts:124-152 | a row is appended unless it breaks a unique constraint; then nothing changes |
| CredentialRegistry.RegistryStore.InsertRoot | src/repositories/credentialRegistryRepository.ts:238-261 | a root row is appended unless the root is stored already; then nothing changes |
| CredentialRegistry.RegistryStore.BuildResultForEntry | src/services/credentialRegistryService.ts:248-292 | the result and both tables are those of the specification BuildResult, which has no second root insert: the branch at line 276 is never taken |
| CredentialRegistry.RegistryStore.AnswerExistingEntry | src/services/credentialRegistryService.ts:103-130 | an existing row is answered if it is active and matches in every field, and refused with the right error otherwise |
| CredentialRegistry.RegistryStore.StoreNewEntry | src/services/credentialRegistryService.ts:372-410 | assigning the next index, inserting, and answering the existing row after a unique violation is the specification Commit |
| CredentialRegistry.RegistryStore.IssueCredentialRegistryEntry | src/services/credentialRegistryService.ts:309-411 | the whole request, validation included, has the outcome and the tables of the specification IssueRaw |
| CredentialRequests.AnswerMatchesInput | src/services/credentialRegistryService.ts:309-411 | an accepted request returns a row whose commitment, schema hash, claims hash, issuer, scheme and depth are those of the raw input; a new row is also for its identity key and verified identity and is the one row stored, an existing one for one of the two |
| CredentialRequests.ExistingIff | src/services/credentialRegistryService.ts:334-371 | an accepted request is answered with a stored row exactly if one has the input's schema and its identity key or verified identity |
| CredentialRequests.FirstInputError | src/services/credentialRegistryService.ts:309-333 | which error an input gets before any table is read, by the first field that is wrong in the code's order, and that nothing is stored then |
| CredentialRegistryRuns.RowsStayWellFormed | src/services/credentialRegistryService.ts:309-411 | under any interleaving of the single reads and inserts of any requests, and of revocations, indices at each depth stay distinct and gap-free and there is one row per identity and schema |
| CredentialRegistryRuns.RowsAreUnique | supabase/migrations/20260708120000_add_credential_registry_roots.sql:18-20 | after any such interleaving no two rows share a key and schema, a verified identity and schema, or a leaf |
| CredentialRegistryRuns.ActiveInLeafOrder | src/repositories/credentialRegistryRepository.ts:105-122 | the active rows of a well-formed table come in ascending leaf order |
| CredentialRegistryRuns.NextIndexIsFreeIff | src/services/credentialRegistryService.ts:238-239 | the next index is unused exactly when the last row of the depth is active |
| CredentialRegistryRuns.RevokedLastRowBlocksIssuance | src/services/credentialRegistryService.ts:372-400 | a new identity is stored if and only if the last row of the depth is active; otherwise the request fails and changes nothing |
| CredentialRootRuns.RunKeepsInv | src/services/credentialRegistryService.ts:248-411 | over any sequential run, whatever the requests answer, rows are well formed and at every depth each root names its predecessor and commits to a prefix of the entries |
| CredentialRootRuns.LatestIsNewest | src/repositories/credentialRegistryRepository.ts:174-193 | the latest root is a stored one of the depth that is newest, and of those stored at one moment the one with the most leaves |
| CredentialRootRuns.IssueSyncs | src/services/credentialRegistryService.ts:309-411 | an accepted request leaves the latest root of its depth equal to the root of the active entries, whatever it was before |
| CredentialRootRuns.IssueKeepsOtherDepths | src/services/credentialRegistryService.ts:309-411 | whatever it answers, a request does not disturb the latest roots of other depths |
| CredentialRootRuns.LastAcceptedSyncs | src/services/credentialRegistryService.ts:309-411 | over any run, the latest root of a depth is the root of its active entries if the last request there that was accepted or changed a table was accepted, whatever failed before |
| CredentialIssuance.AcceptedIffRoom | src/services/credentialRegistryService.ts:372-387 | with no collision among the trees over beginnings of the rows, a new identity is accepted if and only if the tree of its depth has room |
| CredentialIssuance.IssuanceWithinCapacity | src/services/credentialRegistryService.ts:248-411 | over any sequential run in which each depth is asked for at most as many identities as it has leaves, and whose own trees meet no collision, every new identity is accepted with a path that links consecutive roots, and the latest root of every depth is always the root of its active entries |
| CredentialRootRuns.IssueLinksRoots | src/services/credentialRegistryService.ts:248-292 | the path of a newly issued entry folds its commitment to the returned root and folds zero to the root before the insert, which is the latest stored root and is stored as the predecessor of the new one |
| CredentialRootRuns.NonzeroCommitmentMovesRoot | src/services/credentialRegistryService.ts:265-274 | a commitment that is not zero in the field changes the root, barring a collision along its path |
| CredentialRootRuns.ZeroCommitmentKeepsRoot | src/services/credentialRegistryService.ts:265-267 | a commitment that is zero in the field does not change the root |
| CredentialRootRuns.FreshRequestAcceptedIff | src/services/credentialRegistryService.ts:372-387 | a new identity is accepted exactly when the tree has room and the new root is the latest one or stored nowhere |
| CredentialRootRuns.FullTreeIsSpoiled | src/services/credentialRegistryService.ts:372-387 | at capacity the request fails after storing its row and no row of the depth can be built with; revoking the surplus row brings the tree back and closes the depth to newcomers |
| CredentialRootRuns.FullTreeNeverBuilds | src/services/credentialRegistryService.ts:252-259 | over any sequential run, once somebody new has been asked for at a full depth, that request and every later one at that depth fail |
| CredentialRootRuns.BuildsIff | src/services/credentialRegistryService.ts:88-98 | with revocation, a depth can be built exactly if every active row has an index below 2^depth |
| CredentialRootRuns.RepeatReturnsTheSame | src/services/credentialRegistryService.ts:338-353 | an immediate repeat of any accepted request returns the same row, root and path and stores nothing |
| CredentialRootRuns.ConflictChangesNothing | src/services/credentialRegistryService.ts:103-130 | a request for a known identity is refused as revoked or different exactly when the stored row is, and then nothing changes |
| CredentialRootRuns.DepthsCanShareRoots | supabase/migrations/20260708120000_add_credential_registry_roots.sql:71 | trees of different depths can have one root without a collision |
| CredentialIssuance.SharedRootRefusesRequest | supabase/migrations/20260708120000_add_credential_registry_roots.sql:71 | three people, one at depth two and two at depth one: the third is refused as a unique violation after the row was stored, and the latest root of depth one is no longer that of its entries |
| CredentialRaces.AloneIsIssueEntry | src/services/credentialRegistryService.ts:309-411 | the single reads and inserts of a request that nothing interferes with have the outcome and tables of the specification IssueEntry |
| CredentialRaces.RootsCommitToPrefixes | src/services/credentialRegistryService.ts:252-274 | under any interleaving without revocation, every stored root commits to the first rows of its depth, as many as it counts, and the predecessor it names was stored earlier for that depth |
| CredentialRaces.LatestInLineIff | src/repositories/credentialRegistryRepository.ts:174-193 | after any such interleaving and barring collisions, the latest root of a depth is that of its rows if and only if the rows it does not count are zero in the field; if no commitment is zero, if and only if it counts all rows that have a leaf |
| CredentialRaces.OlderRootStoredLast | src/services/credentialRegistryService.ts:252-274 | a run from the empty tables: two newcomers are both accepted, the smaller tree's root is stored last, is the latest exactly if its clock is later, and then neither can repeat the request |
| CredentialRaces.RepeatRefusedIff | src/services/credentialRegistryService.ts:262-274 | after any interleaving, while the rows fit and with no collision and no root shared between depths among their trees, a repeated request is refused, and changes nothing, if and only if the root of the present rows is stored without being the latest; otherwise it is answered with its row |
| CredentialRaces.StaleUntilSomebodyNew | src/services/credentialRegistryService.ts:262-274 | a depth in that state stays in it: every request by somebody known is refused and changes nothing |
| CredentialRaces.SomebodyNewRecovers | src/services/credentialRegistryService.ts:372-387 | under the same conditions on the trees, somebody new with a nonzero commitment is accepted if and only if there is room, and then the latest root is that of the rows again |
| Sessions.FindCurrent | src/repositories/refreshTokenFamilyRepository.ts:52-68 | the family found holds the hash as its current one, and none does if none is found |
| Sessions.FindPrevious | src/repositories/refreshTokenFamilyRepository.ts:70-86 | the family found holds the hash as its previous one, and none does if none is found |
| Sessions.FindByAccess | src/repositories/authSessionRepository.ts:69-85 | the session found holds the access hash, and none does if none is found |
| SessionService.AuthStore.VerifyStoredChallenge | src/services/authService.ts:119-149 | a challenge is accepted exactly if it exists with that purpose and hash, is not consumed and not expired |
| SessionService.AuthStore.RevokeSessionLineage | src/services/authService.ts:194-229 | revoking a session and its families leaves exactly the tables with that lineage ended |
| SessionService.AuthStore.ListByUserId | src/repositories/authSessionRepository.ts:36-51 | exactly the sessions of the user, newest first |
| SessionService.AuthStore.PruneInactiveLoginSessions | src/services/authService.ts:231-266 | the loop ends exactly the lineages that are expired, of another generation or on the same credential, and returns as many sessions as stay active |
| SessionService.AuthStore.InsertLineage | src/services/authService.ts:296-350 | a session and its family are added as one lineage |
| SessionService.AuthStore.IssueFirstPartyAuthSession | src/services/authService.ts:268-350 | pruning, the session limit and the insert have the outcome and tables of the specification IssueSession |
| SessionService.AuthStore.CompleteLogin | src/services/authService.ts:630-741 | login has the outcome and tables of the specification, error by error in the code's order |
| SessionAdmission.LoginIssuesIff | src/services/authService.ts:630-712 | login issues a session exactly if the challenge exists for login with this value, unused and in time, the credential is stored, active and attested, its user exists and is enabled, the proofs are right and there is room under the cap |
| SessionAdmission.LoginRefusals | src/services/authService.ts:630-712 | which refusal a login gets otherwise, by the first condition that fails in the code's order, and that the tables stay as they are |
| SessionAdmission.LoginStores | src/services/authService.ts:286-350 | a login that is served uses up its challenge and adds one session with its family, field by field, after ending exactly the sessions that make room |
| SessionAdmission.LimitRefusalUsesChallenge | src/services/authService.ts:712-735 | a login refused for the cap in a reachable state has used up its challenge and changed nothing else |
| SessionService.AuthStore.CompleteRegistration | src/services/authService.ts:394-628 | registration has the outcome and tables of the specification, error by error in the code's order |
| SessionAdmission.RegistrationRefusals | src/services/authService.ts:394-480 | which refusal a registration gets, by the first condition that fails in the code's order |
| SessionAdmission.RegistrationLeaves | src/services/authService.ts:394-560 | what a refused registration leaves behind at each point: nothing, the person, or the person and the credential |
| SessionAdmission.RegistrationStores | src/services/authService.ts:480-600 | what a registration that is served stores, field by field |
| SessionService.AuthStore.RotateTokens | src/repositories/refreshTokenFamilyRepository.ts:88-119 | current becomes previous, the counter goes up by one and the session gets a new access token |
| SessionService.AuthStore.RefreshSession | src/services/authService.ts:743-909 | refreshing, with replay detection and every refusal, has the outcome and tables of the specification |
| SessionAdmission.RefreshIssuesIff | src/services/authService.ts:743-909 | a token is refreshed exactly if its family is active and in time and its session active, of the same enabled user and at the present generation; what changes then are the access token and the two refresh hashes, the counter and both expiry times |
| SessionService.AuthStore.RevokeSessionForUser | src/services/authService.ts:943-965 | logging a session out has the outcome and tables of the specification |
| SessionAdmission.LogoutEndsIff | src/services/authService.ts:943-965 | a session is ended exactly for its own user, with its families and nothing else |
| SessionService.AuthStore.ListSessionsForUser | src/services/authService.ts:915-941 | listing prunes first and then returns all sessions of the user, ended ones included, newest first |
| SessionAdmission.ListingShows | src/services/authService.ts:915-941 | all sessions of the user are listed, newest first, after exactly those that are out of time or of another generation have ended |
| SessionService.AuthStore.RevokeAuthenticationForRecovery | src/services/authService.ts:1000-1067 | recovery bumps the generation, ends every lineage not on the preserved credential and disables the other credentials |
| SessionAdmission.RecoveryDoes | src/services/authService.ts:1000-1067 | field by field: the generation goes up by one, exactly the active sessions on credentials that are not preserved end, exactly those credentials are disabled |
| SessionService.AuthStore.IncrementAuthGeneration | src/repositories/userRepository.ts:216-238 | the user's generation goes up by one and nothing else changes |
| SessionService.AuthStore.RequireViewer | src/auth/requireViewer.ts:90-177 | bearer resolution with its three revoking refusals has the outcome and tables of the specification |
| SessionAdmission.BearerResolvesIff | src/auth/requireViewer.ts:108-177 | an access token resolves the session's user exactly if the session is active and in time and its user enabled and at its generation; which refusal comes first otherwise, and what it ends |
| SessionRuns.ApplyKeepsInv | src/services/authService.ts:194-350 | every operation keeps the lineage invariant, the session cap and one session per credential |
| SessionRuns.ReachableLineages | src/services/authService.ts:194-350 | in every reachable state a session is active exactly when its family is, each user has at most the maximum and each credential at most one active session, and no session is ahead of its user's generation |
| SessionRuns.PruneLeavesCurrent | src/services/authService.ts:231-266 | after pruning, exactly the sessions that were active, in time, of the current generation and on another credential are active |
| SessionRuns.LimitRefusalRevokesNothing | src/services/authService.ts:286-294 | when the limit refuses a login in a reachable state, no session was pruned |
| SessionRuns.RefreshCases | src/services/authService.ts:743-909 | which of the outcomes a refresh has, and its effect on the tables in each |
| SessionHistory.RunIsLater | src/services/authService.ts:194-350 | over any run rows are only added, nothing becomes active again, counters and generations never fall and consumed challenges stay consumed |
| SessionHistory.ActingNeedsCurrentSession | src/auth/requireViewer.ts:112-162 | only an active session of the user's present generation resolves a viewer or is refreshed |
| SessionHistory.EndedLineageNeverActs | src/services/authService.ts:194-229 | once a lineage has ended, no continuation of the run lets it resolve a viewer or refresh |
| SessionHistory.RecoveryCutsOffThePast | src/services/authService.ts:1000-1067 | after a recovery no earlier session of the user, even on the preserved credential, ever acts again |
| SessionHistory.RecoveryLeavesOnlyPreserved | src/services/authService.ts:1000-1067 | exactly the sessions of the preserved credential are left active by a recovery |
| SessionHistory.ChallengeIsSingleUse | src/services/authService.ts:119-149 | a challenge that completed a login or a registration completes no other, in any continuation |
| SessionHistory.RegistrationIssuesIff | src/services/authService.ts:394-628 | registration issues a session exactly if the challenge, the proofs and the review are accepted, the user is enabled, the credential is new or the user's own with its key, and fewer than the maximum of current sessions on other credentials are active; whether the credential is active plays no part |
| SessionHistory.RegistrationAcceptsDisabledCredential | src/services/authService.ts:472-510 | after a recovery that does not preserve a credential, registering it again issues a session on it under the same conditions, and it stays disabled for login |
| RefreshTokens.ReachableLedgers | src/services/authService.ts:743-909 | in every reachable state a family's current and previous hashes are the last two tokens it was given, its counter is the number of accepted refreshes and the accepted tokens are all the given ones but the last |
| RefreshTokens.RefreshTokensAreSingleUse | src/services/authService.ts:743-909 | no refresh token is accepted twice |
| RefreshTokens.PresentingAnIssuedToken | src/services/authService.ts:743-800 | what each token ever given to a family does when presented: the last is current, the one before it ends the lineage, an older one changes nothing |
| RefreshTokens.ReplayEndsExactlyItsLineage | src/services/authService.ts:743-800 | replaying the previous token ends exactly its own lineage for good and leaves every other row as it was |
| RefreshTokens.RotationRetiresAccess | src/repositories/authSessionRepository.ts:102-127 | a refresh retires the session's access token |
| RefreshTokens.RetiredTokenResolvesNobody | src/auth/requireViewer.ts:109-118 | a retired access token resolves no viewer in any continuation |
| AuditChain.PreimageIsInjective | src/services/backendAuditHashChainService.ts:89-97 | the pipe-joined preimage determines the previous hash and the payload |
| AuditChain.BuildChain | src/services/backendAuditHashChainService.ts:107-133 | the loop returns the chain that the specification builds, or the first error |
| AuditChain.BuiltIsChain | src/services/backendAuditHashChainService.ts:107-133 | the events returned are linked from the initial hash to the root hash |
| AuditChain.BuiltCarriesInputs | src/services/backendAuditHashChainService.ts:107-133 | there is one event for each input, in order, with its decision, its trimmed type and time, its subject's type and id trimmed or left out when blank, and its payload or the empty object |
| AuditChain.BuiltIff | src/services/backendAuditHashChainService.ts:66-75 | a chain is built exactly if every event has a type and a time |
| AuditChain.BuildError | src/services/backendAuditHashChainService.ts:66-75 | otherwise the first event that has not says which error is raised |
| AuditChain.BuiltHashes | src/services/backendAuditHashChainService.ts:88-97 | each hash is that of the fixed heading, the hash before and the canonical payload, joined by bars |
| AuditChain.StartOfChain | src/services/backendAuditHashChainService.ts:44-55 | a chain starts from 64 zeros without a given hash, and otherwise from its 64 hexadecimal digits in lower case or with an error |
| AuditChain.ChainsCompose | src/services/backendAuditHashChainService.ts:107-133 | building over a and then over b from the root of a is building over both, errors included |
| AuditChain.RootBindsChain | src/services/backendAuditHashChainService.ts:57-133 | two chains of equal length with the same root have the same payloads in order and the same start, unless two of their own events collide |
| AuditAppend.AuditTable.AppendRpc | supabase/migrations/20260705170000_add_backend_audit_hash_chain.sql:43-130 | the append function under its lock: three refusals that change nothing, or one row at the tail with the next number |
| AuditAppend.AuditTable.Attempt | src/repositories/backendAuditEventRepository.ts:76-106 | one attempt hashes over the head that was read and adds that one row or none, keeping every stream a chain |
| AuditAppend.AuditTable.Append | src/repositories/backendAuditEventRepository.ts:74-124 | with others committing in between, a success adds exactly its row over the tip it replaces, a failure adds none, and losing both attempts means two other commits |
| AuditAppend.AppendedRow | src/repositories/backendAuditEventRepository.ts:76-106 | an accepted row is linked to the tip it replaces, numbered next, with a hash not used before |
| AuditAppend.StreamIs | supabase/migrations/20260705170000_add_backend_audit_hash_chain.sql:60 | a name stands for itself without outer spaces, and for "global" if nothing is left |
| AuditAppend.InterleavingsKeepOneChain | src/repositories/backendAuditEventRepository.ts:54-124 | under any interleaving every stream is one hash chain from genesis numbered without gaps, and rows match successful calls one to one, each with its own call's event in its own call's stream |
| AuditAppend.LosingTwiceMeansTwoOtherCommits | src/repositories/backendAuditEventRepository.ts:74-124 | a call that lost both attempts saw at least two commits to its stream while it ran and added none |
| AuditAppend.OneRowPerCall | src/repositories/backendAuditEventRepository.ts:74-124 | no call ever adds two rows |
| AuditAppend.UndisturbedAppend | src/repositories/backendAuditEventRepository.ts:54-106 | alone, a call that reads its own head is accepted exactly when its event is well formed, its hash is new in the table, and its stream name is clean or the stream stands at genesis |
| AuditAppend.SuppliedAppend | src/repositories/backendAuditEventRepository.ts:54-106 | a call that brings a hash of its own is accepted exactly when its event is well formed, that hash is the stream's head and the new one is unused |
| AuditAppend.AttemptEnds | src/repositories/backendAuditEventRepository.ts:100-124 | an attempt wins, or reads again if the head was stale on the first try of a call without a hash of its own, or is lost |
| AuditAppend.SameFirstEventClashes | supabase/migrations/20260705170000_add_backend_audit_hash_chain.sql:9 | an event that opened one stream cannot open another |
| AuditAppend.UncleanNameReadsGenesis | src/repositories/backendAuditEventRepository.ts:51-71 | a well-formed call under a name with outer spaces is refused as stale exactly when its stream has moved on from genesis |
| Der.LengthAt | src/auth/appAttestation.ts:985-1012 | a length field that is read ends inside the buffer, after its start, with a signed 32-bit value |
| Der.ReadDerLength | src/auth/appAttestation.ts:985-1012 | the shifting loop computes the signed 32-bit remainder of the big-endian value of the octets |
| Der.LengthIsExact | src/auth/appAttestation.ts:1001-1006 | the decoded length is negative exactly when the fourth octet from the end has its top bit set, and right exactly below 2^31 |
| Der.OnlyFourOctetsCount | src/auth/appAttestation.ts:1001-1006 | octets before the last four have no influence on the decoded length |
| Der.ElementAt | src/auth/appAttestation.ts:1014-1039 | an element that is read ends inside the buffer and its content is at least two bytes shorter than what was left |
| Der.ReadDerElement | src/auth/appAttestation.ts:1014-1039 | the reader has the tag, content, end and errors of the specification at every integer offset, with an undefined tag at -1 and no end before that |
| Der.ReadGoesBackIff | src/auth/appAttestation.ts:1014-1039 | an element ends at or before its own start exactly when its length is written in counted octets whose last four spell a value from 2^31 up to 2^32 less the size of tag and length field |
| DerSearch.NoProgressExample | src/auth/appAttestation.ts:1041-1070 | six bytes on which the search never returns |
| DerSearch.FindAppleNonceCandidate | src/auth/appAttestation.ts:1041-1070 | the recursive loop, followed wherever its offsets lead, has the outcome of the specification for any bound on the turns of its loops |
| DerSearch.FinishedIsFinal | src/auth/appAttestation.ts:1041-1070 | a search that is not cut off has its outcome under every higher bound |
| DerSearch.EnoughIsEnough | src/auth/appAttestation.ts:1041-1070 | a bound of two more than the number of bytes decides: a higher one changes nothing |
| DerSearch.NeverReturnsIff | src/auth/appAttestation.ts:1041-1070 | the search never returns exactly when its loop stands at one offset twice, or at an element whose own search never returns |
| DerSearch.CandidateComesFromInput | src/auth/appAttestation.ts:1041-1070 | on any bytes and wherever the lengths lead, a candidate is 32 consecutive bytes of the input |
| DerSearch.FittingLengthsReturn | src/auth/appAttestation.ts:1041-1070 | if no length field that the search reads decodes to a negative number, every turn moves strictly forward and the search returns within as many turns as there are bytes |
| DerTrees.ElementReadsBack | src/auth/appAttestation.ts:1014-1039 | at any offset with any suffix, reading the encoding of an element gives its tag, content and end |
| DerTrees.ReadIsEncoded | src/auth/appAttestation.ts:1014-1039 | conversely the bytes of an element read with a length below 2^31 are the encoding of what was read |
| DerTrees.ForestFindsFirst | src/auth/appAttestation.ts:1041-1070 | over the encoding of any forest the search finds the first 32-byte octet string in document order that is reachable within the depth bound, or nothing if there is none |
| DerTrees.DepthBoundIsExact | src/auth/appAttestation.ts:1045-1047 | a 32-byte octet string inside n nested elements with tag 0x30 or 0xa0 to 0xbf is found exactly if n is at most eight |
| DerTrees.EnteredIff | src/auth/appAttestation.ts:1057-1066 | a 32-byte octet string inside one element is found exactly if that element's tag is 0x30 or 0xa0 to 0xbf |
| DerTrees.LeafTakenIff | src/auth/appAttestation.ts:1053-1055 | a primitive element is taken exactly if its tag is 4 and it has 32 bytes |
| DerTrees.AppleExtensionIsFound | src/auth/appAttestation.ts:1041-1070 | the extension of Apple's certificates gives its nonce, for every nonce |
| CertDigest.NormalizeBase64 | src/auth/appAttestation.ts:224-225 | the text has the standard alphabet in place and padding signs up to whole groups of four |
| CertDigest.Base64ReadsBack | src/auth/appAttestation.ts:224-225 | decoding the base64url text of any bytes gives these bytes back |
| CertDigest.HexReadsBack | src/auth/appAttestation.ts:148 | reading the hexadecimal of any bytes gives these bytes back |
| CertDigest.NormalizesToDigestIff | src/auth/appAttestation.ts:132-157 | the result is the lower-case hexadecimal of 32 bytes exactly for the hexadecimal and base64url forms of these bytes, between any spaces |
| CertDigest.EncodingsAgree | src/auth/appAttestation.ts:132-157 | hexadecimal in any case with or without colons and base64url padded or not normalise to the same text |
| CertDigest.NormalizingTwiceIff | src/auth/appAttestation.ts:132-157 | normalising is idempotent exactly unless the input is spaces only |
| VoteProbe.HasValidVoteAtOffset | src/repositories/voteRepository.ts:116-150 | a row is found at an offset exactly when the offset is less than the number of matching votes |
| VoteProbe.CountIsOfWanted | src/repositories/voteRepository.ts:116-150 | what is counted are the valid votes of the poll, for the option if one is named and with a location if that is asked for |
| VoteProbe.CountValidVotesWithProbe | src/repositories/voteRepository.ts:152-211 | the result is the larger of a positive hint and the number of these votes, within 2 log2(number) + 3 probes |
| VoteProbe.Bisect | src/repositories/voteRepository.ts:193-210 | the halving loop returns the count that lies between its bounds within the logarithm of their distance |
| VoteProbe.ProbeIsRightIff | src/repositories/voteRepository.ts:152-211 | the answer is the count exactly when the hint is positive and not above it, or both are nothing |
| Comments.OrderByOrders | src/repositories/discussionRepository.ts:667-759 | ordering loses and repeats no row and is strict |
| Comments.OrderedMeans | src/repositories/discussionRepository.ts:683-741 | the two listing orders are oldest first by time and id, and best score first, then newest, then highest id |
| Comments.ListedIsOrdered | src/repositories/discussionRepository.ts:667-759 | a listing is the matching rows, each once, in the listing's order |
| Paging.AfterIsSuffix | src/repositories/discussionRepository.ts:688-751 | the rows strictly after the key of a row are the rows that follow it |
| Paging.PageIsSlice | src/services/discussionService.ts:1063-1087 | a page is the next rows up to its limit, with a cursor for its last row exactly if more rows follow |
| Paging.FollowFrom | src/services/discussionService.ts:1063-1087 | from any position, what a client collects is always a beginning of what is left, and all of it when it is told to stop, within one request for each row |
| Paging.FollowingShowsAll | src/services/discussionService.ts:1063-1087 | following the cursors from the start shows every row once and in order, for any page sizes |
| Paging.PagingEndsIff | src/services/discussionService.ts:178-194 | pages of one size come to an end exactly if the key of the last row of each full page, except at the end of the listing, is accepted back as a cursor |
| Cursors.IdAcceptedIff | src/services/discussionService.ts:199-210 | a stored id is accepted exactly if its version and variant are those of RFC 4122 |
| Cursors.TimestampAccepted | src/services/discussionService.ts:201-207 | every instant of the years 0 to 9999 is accepted as the database prints it |
| Cursors.KeyAcceptedIff | src/services/discussionService.ts:212-221 | in these years the key of a row is accepted exactly if its id is a UUID of RFC 4122 |
| Cursors.NilIdIsRefused | src/services/discussionService.ts:199-210 | the nil UUID is refused |
| CommentListing.NormalizeLimit | src/services/discussionService.ts:152-162 | a missing or non-finite limit becomes the default, any other its whole part held between 1 and the maximum |
| CommentListing.RepliesAreShownOnce | src/services/discussionService.ts:1027-1089 | following the reply cursors of an open thread shows exactly its published replies by authors who are not blocked, oldest first, each once, even across fully blocked pages |
| CommentListing.PreviewHandsOver | src/services/discussionService.ts:988-1001 | exactly which replies a preview and its pages reach, for any stored count |
| CommentListing.TrueCountHandsOver | src/services/discussionService.ts:988-1001 | with a true count these are all replies by authors who are not blocked, each once and in order |
| ThreadFeed.GroupByRoot | src/services/discussionService.ts:956-965 | the map built by the loop holds, for each root, its replies in order |
| ThreadFeed.PreviewsRegroup | supabase/migrations/20260806140000_add_discussion_comment_parent.sql:230-258 | grouping the batched preview gives each root of a page its own first replies |
| ThreadFeed.ThreadsOfPage | src/services/discussionService.ts:956-1002 | the loops over roots build the threads of the specification, or the single replies of a blocked root |
| ThreadFeed.ListComments | src/services/discussionService.ts:910-1025 | the page has the threads, orphans and cursor of the specification FeedOf |
| ThreadFeed.ThreadsAreShownOnce | src/services/discussionService.ts:910-1025 | following the feed gives the thread of each published root by an author who is not blocked, best score first, each once |
| ThreadFeed.FeedIsWhole | src/services/discussionService.ts:910-1025 | following the feed's cursors gives, for any limits, what the roots of the first page contribute, the orphans up to the first limit, and what all other roots contribute |
| ThreadFeed.RepliesOfBlockedRootAreHidden | src/services/discussionService.ts:974-986 | replies to a blocked author's root behind the previewed ones are in no page of the feed and in no page of the thread, whatever the cursor |
| ThreadFeed.ReplyCanBeReadIff | src/services/discussionService.ts:974-986 | a published reply under a published root of an open post, by an author who is not blocked, can be read exactly if the root's author is not blocked or the reply is previewed |
| ThreadFeed.OrphanCanBeReadIff | src/services/discussionService.ts:935-943 | of the orphaned replies in order, the k-th can be read exactly if k is below the first page's limit |
| ThreadFeed.OrphansAre | supabase/migrations/20260806140000_add_discussion_comment_parent.sql:261-281 | the orphaned replies are the published ones of the post whose root is there but not published, best score first |
| ThreadFeed.PageSizes | src/services/discussionService.ts:64-68 | a page holds 20 roots, at most 50, or 25 replies, at most 100 |
| ThreadFeed.ClosedPostShowsNothing | src/services/discussionService.ts:916-924 | nothing of a post is shown unless it is published and its author not blocked |
| ThreadFeed.ClosedThreadListsNothing | src/services/discussionService.ts:1027-1056 | no replies are listed of a root that is not a published root of the post, or by a blocked author |
| Threads.DiscussionStore.AddComment | src/services/discussionService.ts:1091-1200 | creating a comment has the outcome and table of the specification CreateComment, error by error |
| CommentCreation.CommentAcceptedIff | src/services/discussionService.ts:1091-1175 | exactly when a comment is accepted, and which refusal comes first otherwise |
| CommentCreation.CommentStored | src/services/discussionService.ts:1120-1191 | an accepted comment adds one row, with the input's fields, the status that moderation decided and the links of its place; of the other rows at most two stored counts change |
| Threads.DiscussionStore.InsertRow | src/repositories/discussionRepository.ts:779-794 | a row whose id is new and whose links the trigger accepts is stored and the affected counts are refreshed; any other changes nothing |
| ThreadRuns.RunsKeepThreads | src/services/discussionService.ts:1120-1157 | over any run of comments, status changes and score changes, links go to earlier comments of the same post and thread and every stored count is true |
| ThreadRuns.RepliesLeadToRoot | src/services/discussionService.ts:1120-1157 | following reply links is acyclic, stays in one post and thread and ends at the thread's root, which answers nothing |
| ThreadRuns.StoredCountIsTrue | src/services/discussionService.ts:994-998 | after any run the count stored with a root is the length of its listing |
| ThreadRuns.StoredKeysAreAccepted | src/services/discussionService.ts:1177-1191 | over any run of comments whose ids randomUUID has made, the key of every stored row is accepted as a cursor |
| ThreadRuns.RunsShowReplies | src/services/discussionService.ts:1027-1089 | after any such run, following the reply cursors of an open thread shows each of its visible replies once, oldest first |
| ThreadRuns.RunsShowThreads | src/services/discussionService.ts:910-1025 | after any such run, following the feed shows the thread of each visible root once, best first: its first two replies without those of blocked authors, the true number of replies, and a cursor if there are more |
| ThreadRuns.RunsHandOver | src/services/discussionService.ts:988-1001 | after any such run, the preview of an open thread and its pages show each visible reply once |
| ThreadRuns.RunsReadReplies | src/services/discussionService.ts:974-986 | after any such run, the replies under a published root that can be read are exactly all of them, or the previewed ones if the root's author is blocked |
| ThreadRuns.ServiceLinksAreValid | src/services/discussionService.ts:1120-1157 | the links chosen by the service always pass the database's own check |
| ThreadRuns.ReplyAcceptedIff | src/services/discussionService.ts:1124-1157 | a reply finds its place exactly when its target and the target's thread root are published, of the post, and by authors who are not blocked |
| Moderation.StatusForAction | src/services/adminModerationService.ts:143-154 | approval publishes, rejection blocks, and the third decision asks for an edit |
| Moderation.LogTellsTheTruth | src/services/adminModerationService.ts:517-605 | under any interleaving each log row names one update of its own, by the same request, and the status the item held then; viewers never appear |
| Moderation.OneDecisionPerStay | src/services/adminModerationService.ts:549-593 | each stay in review ends with at most one decision |
| Moderation.RecordsCount | src/services/adminModerationService.ts:549-593 | the stay of an item is the number of times it came into review, its epoch the number of times its status was set from outside |
| Moderation.UndisturbedDecision | src/services/adminModerationService.ts:501-621 | alone, a decision goes through exactly for a reviewer and an item in review or published with open reports; it is logged, the item takes the decided status and reports on published content are settled; otherwise nothing changes and the refusal says why |
| Moderation.OnlyApprovalsRepeat | src/services/adminModerationService.ts:526-593 | of two decisions on one item with no outside change of its status in between, the earlier one approved and the later one found the item published |
| Moderation.BothDecideIff | src/services/adminModerationService.ts:526-593 | two requests that have both seen an item published both go through if and only if the first approves |
| Moderation.ReportedContentCanBeApprovedTwice | src/repositories/adminModerationRepository.ts:420-440 | a run in which two requests approve the same reported content and both are logged |
| Moderation.ReviewDesk.UpdateReviewStatus | src/repositories/adminModerationRepository.ts:376-504 | the update fires only on the expected status and changes nothing else |
| Moderation.ReviewDesk.ApplyDecision | src/services/adminModerationService.ts:501-621 | it succeeds exactly when the status seen at the read is still held at the update, whatever others did in between; a success logs the status the item held at the update, and a refusal logs nothing |

## Left out

- NormalizeAndroidCertDigest: lower-casing is that of ASCII, so its statements speak about ASCII inputs of the program.
- KeyAcceptedIff: the JSON and base64url text around a key is taken to decode to itself, the calendar by which the database prints an instant is a parameter, and Date.parse is taken to accept every text of the pattern whose fields are in the calendar's ranges.
- CountValidVotesWithProbe: votes do not change between probes, and numbers are unbounded.
- AddComment: reads and insert happen as one step; deleting a post together with its comments, the count of direct replies and the score formula are not modelled (scores may change at any time).
- RefreshSession: two refreshes of the same token at the same time are not modelled, since the rotation is not conditional on the current hash; the statements are about operations one after the other.
- IssuanceWithinCapacity: revocation is not a step of the runs with roots, only of the runs about rows.
- RootsCommitToPrefixes: as there, without revocation; the time stored with a root is that of its insert.
- NormalizeLeafIndex: indices and depths that are not integers are not modelled.
- PlaceLeaves: that a stored commitment has 64 hexadecimal digits is its type here; the builder checks it again.
- RequireViewer: the two refusals of a request without a bearer token are not modelled; the token is a parameter.
- ApplyDecision: a poll whose status is missing counts as waiting for review in the code; the column cannot be NULL, and the model has no such poll.
- Append: a caller that passes its own previous hash is modelled, but the statements about the stale tail are about callers that let the method read it.
- Session rows carry no last-seen times, revocation reasons or audit events, and account deletion is not modelled.
- Signatures, app attestations, certificates, CBOR and OAuth are Boolean inputs.
- Poseidon, SHA-256 and the JSON canonicaliser are arbitrary functions; publishing roots on Solana is not modelled.
- The queue listing, display addresses, likes, bookmarks, reports and mapping to transfer objects would add only easy members.
