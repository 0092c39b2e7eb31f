/** The registry and root tables, and the issuance service over them.
    A list returned by the database is in insertion order here; CredentialRegistryRuns.ActiveInLeafOrder
    shows that this is the requested order by leaf index in every reachable state. */
module CredentialRegistry {
  import opened Prelude
  import opened FieldElements
  import opened SparseMerkle
  import opened Text

  const DEFAULT_COMMITMENT_SCHEME := "civicos-credential-commitment-v1"

  /** The two uses of Poseidon: on a pair of nodes, and on an identity key. */
  datatype Hashes = Hashes(node: Poseidon2, identity: Field -> Field)

  datatype Entry = Entry(
    verifiedIdentityId: string, identityKeyHash: Hex64, commitment: Hex64, schemaHash: Hex64,
    claimsHash: Hex64, issuerId: string, scheme: string, depth: nat, leafIndex: nat, revoked: bool)

  datatype RootRow = RootRow(root: Hex64, previousRoot: Option<Hex64>, depth: nat, leafCount: nat, createdAt: int)

  datatype Registry = Registry(entries: seq<Entry>, roots: seq<RootRow>)

  datatype IssueInput = IssueInput(
    verifiedIdentityId: string, canonicalIdentityKey: string, commitment: string, schemaHash: string,
    claimsHash: string, issuerId: string, scheme: Option<string>, depth: Option<int>)

  datatype Request = Request(
    verifiedIdentityId: string, identityKeyHash: Hex64, commitment: Hex64, schemaHash: Hex64,
    claimsHash: Hex64, issuerId: string, scheme: string, depth: nat)

  datatype IssueError =
    | NotHex64(field: string)
    | IssuerRequired
    | EntryRevoked
    | DifferentEntry
    | UniqueViolation
    | MissingFromMaterial
    | InTree(error: TreeError)

  datatype Status = FreshlyIssued | Existing

  datatype Issued = Issued(status: Status, entry: Entry, credentialRoot: RootRow, path: CredentialPath)

  // ---------------------------------------------------------------- table reads

  /** Rows of one depth that are not revoked. */
  function ListActive(entries: seq<Entry>, depth: nat): seq<Entry> {
    if entries == [] then []
    else
      var last := entries[|entries| - 1];
      ListActive(entries[..|entries| - 1], depth) + if last.depth == depth && !last.revoked then [last] else []
  }

  function LeavesOf(rows: seq<Entry>): (leaves: seq<Leaf>)
    ensures |leaves| == |rows|
    ensures forall k :: 0 <= k < |rows| ==> leaves[k] == Leaf(rows[k].leafIndex, rows[k].commitment)
  {
    if rows == [] then []
    else LeavesOf(rows[..|rows| - 1]) + [Leaf(rows[|rows| - 1].leafIndex, rows[|rows| - 1].commitment)]
  }

  predicate SameIdentity(e: Entry, identityKeyHash: Hex64, schemaHash: Hex64) {
    e.identityKeyHash == identityKeyHash && e.schemaHash == schemaHash
  }

  predicate SameVerifiedIdentity(e: Entry, verifiedIdentityId: string, schemaHash: Hex64) {
    e.verifiedIdentityId == verifiedIdentityId && e.schemaHash == schemaHash
  }

  function FindByIdentity(entries: seq<Entry>, identityKeyHash: Hex64, schemaHash: Hex64): (r: Option<Entry>)
    ensures r.None? ==> forall e :: e in entries ==> !SameIdentity(e, identityKeyHash, schemaHash)
    ensures r.Some? ==> r.value in entries && SameIdentity(r.value, identityKeyHash, schemaHash)
  {
    if entries == [] then None
    else if SameIdentity(entries[0], identityKeyHash, schemaHash) then Some(entries[0])
    else FindByIdentity(entries[1..], identityKeyHash, schemaHash)
  }

  function FindByVerifiedIdentity(entries: seq<Entry>, verifiedIdentityId: string,
      schemaHash: Hex64): (r: Option<Entry>)
    ensures r.None? ==> forall e :: e in entries ==> !SameVerifiedIdentity(e, verifiedIdentityId, schemaHash)
    ensures r.Some? ==> r.value in entries && SameVerifiedIdentity(r.value, verifiedIdentityId, schemaHash)
  {
    if entries == [] then None
    else if SameVerifiedIdentity(entries[0], verifiedIdentityId, schemaHash) then Some(entries[0])
    else FindByVerifiedIdentity(entries[1..], verifiedIdentityId, schemaHash)
  }

  /** order by created_at desc, leaf_count desc limit 1 */
  function LatestRoot(roots: seq<RootRow>, depth: nat): Option<RootRow> {
    if roots == [] then None
    else
      var earlier, last := LatestRoot(roots[..|roots| - 1], depth), roots[|roots| - 1];
      if last.depth != depth then earlier
      else if earlier.Some? && Newer(earlier.value, last) then earlier
      else Some(last)
  }

  predicate Newer(a: RootRow, b: RootRow) {
    a.createdAt > b.createdAt || (a.createdAt == b.createdAt && a.leafCount > b.leafCount)
  }

  predicate RootTaken(roots: seq<RootRow>, root: Hex64) {
    exists k :: 0 <= k < |roots| && roots[k].root == root
  }

  /** The three unique constraints of credential_registry. */
  predicate Clash(a: Entry, b: Entry) {
    || SameIdentity(a, b.identityKeyHash, b.schemaHash)
    || SameVerifiedIdentity(a, b.verifiedIdentityId, b.schemaHash)
    || (a.depth == b.depth && a.leafIndex == b.leafIndex)
  }

  predicate ClashesWith(entries: seq<Entry>, e: Entry) {
    exists k :: 0 <= k < |entries| && Clash(entries[k], e)
  }

  function NextLeafIndex(rows: seq<Entry>): nat {
    if rows == [] then 0
    else
      var before := NextLeafIndex(rows[..|rows| - 1]);
      if rows[|rows| - 1].leafIndex >= before then rows[|rows| - 1].leafIndex + 1 else before
  }

  // ---------------------------------------------------------------- the service

  function Normalize(hs: Hashes, input: IssueInput): Result<Request, IssueError> {
    match NormalizeMerkleDepth(input.depth)
    case Err(e) => Err(InTree(e))
    case Ok(depth) =>
      var commitment, schemaHash := ParseHex64(input.commitment), ParseHex64(input.schemaHash);
      var claimsHash := ParseHex64(input.claimsHash);
      if commitment.None? then Err(NotHex64("credentialCommitment"))
      else if schemaHash.None? then Err(NotHex64("credentialSchemaHash"))
      else if claimsHash.None? then Err(NotHex64("claimsHash"))
      else if Trim(input.issuerId) == "" then Err(IssuerRequired)
      else
        match ParseHex64(input.canonicalIdentityKey)
        case None => Err(NotHex64("canonicalIdentityKey"))
        case Some(key) =>
          var scheme := if input.scheme.Some? then input.scheme.value else DEFAULT_COMMITMENT_SCHEME;
          Ok(Request(input.verifiedIdentityId, hs.identity(Reduce(key)), commitment.value, schemaHash.value,
                     claimsHash.value, Trim(input.issuerId), scheme, depth))
  }

  function CheckExisting(existing: Entry, req: Request): Option<IssueError> {
    if existing.revoked then Some(EntryRevoked)
    else if || existing.commitment != req.commitment || existing.schemaHash != req.schemaHash
            || existing.claimsHash != req.claimsHash || existing.issuerId != req.issuerId
            || existing.scheme != req.scheme || existing.depth != req.depth
    then Some(DifferentEntry)
    else None
  }

  function EntryFor(req: Request, leafIndex: nat): Entry {
    Entry(req.verifiedIdentityId, req.identityKeyHash, req.commitment, req.schemaHash, req.claimsHash, req.issuerId,
          req.scheme, req.depth, leafIndex, false)
  }

  /** From the rows and the latest root that were listed for the entry's depth: build the tree and make its root
      the latest one. */
  function BuildFrom(hs: Hashes, reg: Registry, status: Status, entry: Entry, active: seq<Entry>,
                     latest: Option<RootRow>, now: int): (Registry, Result<Issued, IssueError>) {
    match MaterialSpec(hs.node, LeavesOf(active), Some(entry.depth))
    case Err(e) => (reg, Err(InTree(e)))
    case Ok(material) =>
      if entry.leafIndex !in material.pathsByLeafIndex then (reg, Err(MissingFromMaterial))
      else
        var path := material.pathsByLeafIndex[entry.leafIndex];
        if latest.Some? && latest.value.root == material.root then (reg, Ok(Issued(status, entry, latest.value, path)))
        else if RootTaken(reg.roots, material.root) then (reg, Err(UniqueViolation))
        else
          var previous := if latest.Some? then Some(latest.value.root) else None;
          var row := RootRow(material.root, previous, entry.depth, |active|, now);
          (reg.(roots := reg.roots + [row]), Ok(Issued(status, entry, row, path)))
  }

  /** Listing and building at one moment. */
  function BuildResult(hs: Hashes, reg: Registry, status: Status, entry: Entry,
                       now: int): (Registry, Result<Issued, IssueError>) {
    BuildFrom(hs, reg, status, entry, ListActive(reg.entries, entry.depth), LatestRoot(reg.roots, entry.depth), now)
  }

  function AnswerExisting(hs: Hashes, reg: Registry, existing: Entry, req: Request,
                          now: int): (Registry, Result<Issued, IssueError>) {
    match CheckExisting(existing, req)
    case Some(e) => (reg, Err(e))
    case None => BuildResult(hs, reg, Existing, existing, now)
  }

  /** Insert under the leaf index computed earlier; on a unique violation answer with the row that won. */
  function Commit(hs: Hashes, reg: Registry, req: Request, leafIndex: nat,
                  now: int): (Registry, Result<Issued, IssueError>) {
    var entry := EntryFor(req, leafIndex);
    if !ClashesWith(reg.entries, entry) then
      BuildResult(hs, reg.(entries := reg.entries + [entry]), FreshlyIssued, entry, now)
    else
      match FindByIdentity(reg.entries, req.identityKeyHash, req.schemaHash)
      case None => (reg, Err(UniqueViolation))
      case Some(existing) => AnswerExisting(hs, reg, existing, req, now)
  }

  /** One request served without interference. */
  function IssueEntry(hs: Hashes, reg: Registry, req: Request, now: int): (Registry, Result<Issued, IssueError>) {
    var byIdentity := FindByIdentity(reg.entries, req.identityKeyHash, req.schemaHash);
    if byIdentity.Some? then AnswerExisting(hs, reg, byIdentity.value, req, now)
    else
      var byVerified := FindByVerifiedIdentity(reg.entries, req.verifiedIdentityId, req.schemaHash);
      if byVerified.Some? then AnswerExisting(hs, reg, byVerified.value, req, now)
      else Commit(hs, reg, req, NextLeafIndex(ListActive(reg.entries, req.depth)), now)
  }

  /** A request as it arrives: its fields are checked and normalised first. */
  function IssueRaw(hs: Hashes, reg: Registry, input: IssueInput, now: int): (Registry, Result<Issued, IssueError>) {
    match Normalize(hs, input)
    case Err(e) => (reg, Err(e))
    case Ok(req) => IssueEntry(hs, reg, req, now)
  }

  /** The tables as the service updates them. */
  class RegistryStore {
    var entries: seq<Entry>
    var roots: seq<RootRow>

    constructor ()
      ensures Tables() == Registry([], [])
    {
      entries, roots := [], [];
    }

    function Tables(): Registry
      reads this
    {
      Registry(entries, roots)
    }

    method InsertRegistryEntry(entry: Entry) returns (r: Result<Entry, IssueError>)
      modifies this`entries
      ensures r == if old(ClashesWith(entries, entry)) then Err(UniqueViolation) else Ok(entry)
      ensures entries == if r.Ok? then old(entries) + [entry] else old(entries)
    {
      if exists k :: 0 <= k < |entries| && Clash(entries[k], entry) {
        return Err(UniqueViolation);
      }
      entries := entries + [entry];
      return Ok(entry);
    }

    method InsertRoot(row: RootRow) returns (r: Result<RootRow, IssueError>)
      modifies this`roots
      ensures r == if old(RootTaken(roots, row.root)) then Err(UniqueViolation) else Ok(row)
      ensures roots == if r.Ok? then old(roots) + [row] else old(roots)
    {
      if exists k :: 0 <= k < |roots| && roots[k].root == row.root {
        return Err(UniqueViolation);
      }
      roots := roots + [row];
      return Ok(row);
    }

    method BuildResultForEntry(hs: Hashes, status: Status, entry: Entry, now: int)
        returns (r: Result<Issued, IssueError>)
      modifies this`roots
      ensures (Tables(), r) == BuildResult(hs, old(Tables()), status, entry, now)
    {
      var active := ListActive(entries, entry.depth);
      var latest := LatestRoot(roots, entry.depth);
      var built, hashCalls := BuildCredentialRegistryMerkleMaterial(hs.node, LeavesOf(active), Some(entry.depth));
      if built.Err? {
        return Err(InTree(built.error));
      }
      var material := built.value;
      if entry.leafIndex !in material.pathsByLeafIndex {
        return Err(MissingFromMaterial);
      }
      var path := material.pathsByLeafIndex[entry.leafIndex];
      var credentialRoot;
      if latest.Some? && latest.value.root == material.root {
        credentialRoot := latest.value;
      } else {
        var previous := if latest.Some? then Some(latest.value.root) else None;
        var inserted := InsertRoot(RootRow(material.root, previous, entry.depth, material.leafCount, now));
        if inserted.Err? {
          return Err(inserted.error);
        }
        credentialRoot := inserted.value;
      }
      // The service inserts a second root here when the two differ; they never do.
      assert credentialRoot.root == path.root;
      return Ok(Issued(status, entry, credentialRoot, path));
    }

    method AnswerExistingEntry(hs: Hashes, existing: Entry, req: Request, now: int)
        returns (r: Result<Issued, IssueError>)
      modifies this`roots
      ensures (Tables(), r) == AnswerExisting(hs, old(Tables()), existing, req, now)
    {
      var refusal := CheckExisting(existing, req);
      if refusal.Some? {
        return Err(refusal.value);
      }
      r := BuildResultForEntry(hs, Existing, existing, now);
    }

    method IssueCredentialRegistryEntry(hs: Hashes, input: IssueInput, now: int) returns (r: Result<Issued, IssueError>)
      modifies this
      ensures (Tables(), r) == IssueRaw(hs, old(Tables()), input, now)
    {
      var normalized := Normalize(hs, input);
      if normalized.Err? {
        return Err(normalized.error);
      }
      var req := normalized.value;
      var existingByIdentity := FindByIdentity(entries, req.identityKeyHash, req.schemaHash);
      if existingByIdentity.Some? {
        r := AnswerExistingEntry(hs, existingByIdentity.value, req, now);
        return;
      }
      var existingByVerified := FindByVerifiedIdentity(entries, req.verifiedIdentityId, req.schemaHash);
      if existingByVerified.Some? {
        r := AnswerExistingEntry(hs, existingByVerified.value, req, now);
        return;
      }
      var leafIndex := NextLeafIndex(ListActive(entries, req.depth));
      r := StoreNewEntry(hs, req, leafIndex, now);
    }

    /** The try/catch of the service: other requests may have run since leafIndex was computed. */
    method StoreNewEntry(hs: Hashes, req: Request, leafIndex: nat, now: int) returns (r: Result<Issued, IssueError>)
      modifies this
      ensures (Tables(), r) == Commit(hs, old(Tables()), req, leafIndex, now)
    {
      var inserted := InsertRegistryEntry(EntryFor(req, leafIndex));
      if inserted.Ok? {
        r := BuildResultForEntry(hs, FreshlyIssued, inserted.value, now);
        return;
      }
      var existing := FindByIdentity(entries, req.identityKeyHash, req.schemaHash);
      if existing.None? {
        return Err(UniqueViolation);
      }
      r := AnswerExistingEntry(hs, existing.value, req, now);
    }
  }
}
