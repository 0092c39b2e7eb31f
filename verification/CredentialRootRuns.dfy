/** Runs of issuances one after the other, without revocation: the chain of roots. */
module CredentialRootRuns {
  import opened Prelude
  import opened FieldElements
  import opened MerkleTree
  import opened SparseMerkle
  import opened CredentialRegistry
  import opened CredentialRegistryRuns

  function RootsAt(roots: seq<RootRow>, depth: nat): seq<RootRow> {
    if roots == [] then []
    else
      var last := roots[|roots| - 1];
      RootsAt(roots[..|roots| - 1], depth) + if last.depth == depth then [last] else []
  }

  ghost predicate NoneRevoked(entries: seq<Entry>) {
    forall k :: 0 <= k < |entries| ==> !entries[k].revoked
  }

  function TreeOf(rows: seq<Entry>): Tree {
    LeafMap(LeavesOf(rows))
  }

  function TreeRoot(hs: Hashes, entries: seq<Entry>, depth: nat): Hex64 {
    Root(hs.node, TreeOf(ListActive(entries, depth)), depth)
  }

  /** Each stored root names the root stored before it, and counts and clocks only go up. */
  ghost predicate Chained(rows: seq<RootRow>) {
    forall k :: 0 <= k < |rows| ==> LinkedAt(rows, k)
  }

  ghost predicate LinkedAt(rows: seq<RootRow>, k: nat)
    requires k < |rows|
  {
    if k == 0 then rows[k].previousRoot == None
    else
      && rows[k].previousRoot == Some(rows[k - 1].root)
      && rows[k - 1].leafCount < rows[k].leafCount
      && rows[k - 1].createdAt <= rows[k].createdAt
  }

  /** A stored root is the root of the tree over the first leafCount rows of its depth. */
  ghost predicate CommitsToPrefix(hs: Hashes, entries: seq<Entry>, row: RootRow) {
    var active := ListActive(entries, row.depth);
    && row.leafCount <= |active|
    && row.root == Root(hs.node, TreeOf(active[..row.leafCount]), row.depth)
  }

  ghost predicate PrefixRoots(hs: Hashes, reg: Registry, clock: int) {
    forall k :: 0 <= k < |reg.roots| ==>
        CommitsToPrefix(hs, reg.entries, reg.roots[k]) && reg.roots[k].createdAt <= clock
  }

  ghost predicate RootsSound(hs: Hashes, reg: Registry, clock: int) {
    (forall d: nat :: Chained(RootsAt(reg.roots, d))) && PrefixRoots(hs, reg, clock)
  }

  /** What holds of the tables even when requests interleave. */
  ghost predicate TablesSound(hs: Hashes, reg: Registry, clock: int) {
    WellFormed(reg.entries) && NoneRevoked(reg.entries) && PrefixRoots(hs, reg, clock)
  }

  ghost predicate Inv(hs: Hashes, reg: Registry, clock: int) {
    && WellFormed(reg.entries)
    && NoneRevoked(reg.entries)
    && RootsSound(hs, reg, clock)
  }

  /** The latest root of a depth is the root of its active entries. */
  ghost predicate Synced(hs: Hashes, reg: Registry, depth: nat) {
    match LatestRoot(reg.roots, depth)
    case None => CountAt(reg.entries, depth) == 0
    case Some(row) => row.root == TreeRoot(hs, reg.entries, depth)
  }

  // ---------------------------------------------------------------- the tables as they grow

  lemma {:induction false} RootsAtMembers(roots: seq<RootRow>, depth: nat)
    ensures forall a :: 0 <= a < |RootsAt(roots, depth)| ==>
        RootsAt(roots, depth)[a] in roots && RootsAt(roots, depth)[a].depth == depth
  {
    if roots == [] {
    } else {
      RootsAtMembers(roots[..|roots| - 1], depth);
    }
  }

  lemma {:induction false} LatestIsLast(roots: seq<RootRow>, depth: nat)
    requires Chained(RootsAt(roots, depth))
    ensures var rows := RootsAt(roots, depth);
      LatestRoot(roots, depth) == if rows == [] then None else Some(rows[|rows| - 1])
  {
    if roots == [] {
    } else {
      var init, last := roots[..|roots| - 1], roots[|roots| - 1];
      var before := RootsAt(init, depth);
      if last.depth == depth {
        var rows := before + [last];
        assert LinkedAt(rows, |before|);
        ChainedPrefix(before, last);
      } else {
        assert RootsAt(roots, depth) == before;
      }
      LatestIsLast(init, depth);
    }
  }

  lemma ChainedPrefix(rows: seq<RootRow>, last: RootRow)
    requires Chained(rows + [last])
    ensures Chained(rows)
  {
    forall k | 0 <= k < |rows|
      ensures LinkedAt(rows, k)
    {
      assert LinkedAt(rows + [last], k);
    }
  }

  lemma AppendChained(rows: seq<RootRow>, row: RootRow)
    requires Chained(rows)
    requires LinkedAt(rows + [row], |rows|)
    ensures Chained(rows + [row])
  {
    forall k | 0 <= k < |rows + [row]|
      ensures LinkedAt(rows + [row], k)
    {
      if k < |rows| {
        assert LinkedAt(rows, k);
      }
    }
  }

  lemma ActiveGrows(entries: seq<Entry>, e: Entry, depth: nat)
    requires !e.revoked
    ensures ListActive(entries + [e], depth) == ListActive(entries, depth) + if e.depth == depth then [e] else []
  {
    assert (entries + [e])[..|entries|] == entries;
  }

  lemma {:induction false} ActiveCount(entries: seq<Entry>, depth: nat)
    requires NoneRevoked(entries)
    ensures |ListActive(entries, depth)| == CountAt(entries, depth)
    ensures LastIsActive(entries, depth)
  {
    if entries == [] {
    } else {
      ActiveCount(entries[..|entries| - 1], depth);
    }
  }

  lemma {:induction false} ActivePosition(entries: seq<Entry>, depth: nat, k: nat)
    requires NoneRevoked(entries) && Contiguous(entries) && k < |ListActive(entries, depth)|
    ensures ListActive(entries, depth)[k].leafIndex == k
  {
    var n := |entries| - 1;
    ContiguousPrefix(entries, n);
    ActiveCount(entries[..n], depth);
    assert NumberedInOrder(entries, n);
    if k < |ListActive(entries[..n], depth)| {
      ActivePosition(entries[..n], depth, k);
    }
  }

  lemma TreeGrows(rows: seq<Entry>, e: Entry)
    ensures TreeOf(rows + [e]) == TreeOf(rows)[e.leafIndex := e.commitment]
  {
    assert (rows + [e])[..|rows|] == rows;
    var leaves := LeavesOf(rows + [e]);
    assert leaves[..|leaves| - 1] == LeavesOf(rows);
  }

  lemma {:induction false} TreeKeysBelow(rows: seq<Entry>, bound: nat)
    requires forall k :: 0 <= k < |rows| ==> rows[k].leafIndex < bound
    ensures forall i :: i in TreeOf(rows) ==> i < bound
  {
    if rows == [] {
    } else {
      var n := |rows| - 1;
      TreeKeysBelow(rows[..n], bound);
      TreeGrows(rows[..n], rows[n]);
      assert rows == rows[..n] + [rows[n]];
    }
  }

  /** The index given to a new row was a zero leaf before. */
  lemma NewLeafWasZero(entries: seq<Entry>, depth: nat)
    requires Contiguous(entries)
    ensures LeafValue(TreeOf(ListActive(entries, depth)), CountAt(entries, depth)) == ZERO
  {
    ActiveInLeafOrder(entries, depth);
    TreeKeysBelow(ListActive(entries, depth), CountAt(entries, depth));
  }

  /** The tree of a depth can be built exactly while it has at most 2^depth rows. */
  lemma LeavesFitIff(entries: seq<Entry>, depth: nat)
    requires NoneRevoked(entries) && Contiguous(entries)
    ensures InRange(LeavesOf(ListActive(entries, depth)), depth) <==> CountAt(entries, depth) <= Pow2(depth)
  {
    var rows := ListActive(entries, depth);
    ActiveCount(entries, depth);
    forall k | 0 <= k < |rows|
      ensures LeavesOf(rows)[k].index == k
    {
      ActivePosition(entries, depth, k);
    }
    if |rows| > Pow2(depth) {
      assert LeavesOf(rows)[|rows| - 1].index == |rows| - 1;
    }
  }

  lemma GrowthKeepsPrefixes(hs: Hashes, entries: seq<Entry>, e: Entry, row: RootRow)
    requires !e.revoked && CommitsToPrefix(hs, entries, row)
    ensures CommitsToPrefix(hs, entries + [e], row)
  {
    ActiveGrows(entries, e, row.depth);
    var active := ListActive(entries, row.depth);
    var grown := ListActive(entries + [e], row.depth);
    assert grown[..row.leafCount] == active[..row.leafCount];
  }

  // ---------------------------------------------------------------- building a result

  /** When the tree of the entry's depth can be built and contains the entry. */
  ghost predicate Buildable(reg: Registry, entry: Entry) {
    && 0 < entry.depth <= MAX_DEPTH
    && InRange(LeavesOf(ListActive(reg.entries, entry.depth)), entry.depth)
    && entry in ListActive(reg.entries, entry.depth)
  }

  lemma RowIsLeaf(rows: seq<Entry>, entry: Entry, depth: nat)
    requires InRange(LeavesOf(rows), depth) && entry in rows
    ensures entry.leafIndex in TreeOf(rows)
  {
    var k :| 0 <= k < |rows| && rows[k] == entry;
    LeafMapFacts(LeavesOf(rows), depth);
    assert LeavesOf(rows)[k].index == entry.leafIndex;
  }

  /** The material of a buildable entry, as the complete tree gives it. */
  lemma MaterialOfEntry(hs: Hashes, reg: Registry, entry: Entry)
    requires Buildable(reg, entry)
    ensures var active := ListActive(reg.entries, entry.depth);
      var root := TreeRoot(hs, reg.entries, entry.depth);
      var m := MaterialSpec(hs.node, LeavesOf(active), Some(entry.depth));
      && m.Ok? && m.value.root == root
      && entry.leafIndex in m.value.pathsByLeafIndex
      && m.value.pathsByLeafIndex[entry.leafIndex]
         == CredentialPath(root, PathOf(hs.node, TreeOf(active), entry.leafIndex, entry.depth))
  {
    var active := ListActive(reg.entries, entry.depth);
    FirstLeafErrorIsExact(LeavesOf(active), entry.depth);
    RowIsLeaf(active, entry, entry.depth);
  }

  /** The row the service stores when the tree's root is not the latest one. */
  function NewRoot(hs: Hashes, reg: Registry, depth: nat, now: int): RootRow {
    var latest := LatestRoot(reg.roots, depth);
    RootRow(TreeRoot(hs, reg.entries, depth), if latest.Some? then Some(latest.value.root) else None, depth,
            |ListActive(reg.entries, depth)|, now)
  }

  predicate UpToDate(hs: Hashes, reg: Registry, depth: nat) {
    LatestRoot(reg.roots, depth).Some? && LatestRoot(reg.roots, depth).value.root == TreeRoot(hs, reg.entries, depth)
  }

  lemma BuildOutcome(hs: Hashes, reg: Registry, status: Status, entry: Entry, now: int)
    requires Buildable(reg, entry)
    ensures var root := TreeRoot(hs, reg.entries, entry.depth);
      var path := CredentialPath(root,
          PathOf(hs.node, TreeOf(ListActive(reg.entries, entry.depth)), entry.leafIndex, entry.depth));
      var row := NewRoot(hs, reg, entry.depth, now);
      BuildResult(hs, reg, status, entry, now)
      == if UpToDate(hs, reg, entry.depth)
         then (reg, Ok(Issued(status, entry, LatestRoot(reg.roots, entry.depth).value, path)))
         else if RootTaken(reg.roots, root) then (reg, Err(UniqueViolation))
         else (reg.(roots := reg.roots + [row]), Ok(Issued(status, entry, row, path)))
  {
    MaterialOfEntry(hs, reg, entry);
  }

  lemma NewRootKeepsSound(hs: Hashes, reg: Registry, depth: nat, clock: int, now: int)
    requires RootsSound(hs, reg, clock) && clock <= now
    requires !UpToDate(hs, reg, depth)
    ensures RootsSound(hs, reg.(roots := reg.roots + [NewRoot(hs, reg, depth, now)]), now)
  {
    var row := NewRoot(hs, reg, depth, now);
    var after := reg.roots + [row];
    assert after[..|reg.roots|] == reg.roots;
    forall d: nat
      ensures Chained(RootsAt(after, d))
    {
      assert Chained(RootsAt(reg.roots, d));
      if d == depth {
        NewRootLinks(hs, reg, depth, clock, now);
        AppendChained(RootsAt(reg.roots, d), row);
      } else {
        assert RootsAt(after, d) == RootsAt(reg.roots, d);
      }
    }
    var active := ListActive(reg.entries, depth);
    assert active[..|active|] == active;
    forall k | 0 <= k < |after|
      ensures CommitsToPrefix(hs, reg.entries, after[k]) && after[k].createdAt <= now
    {
      if k < |reg.roots| {
        assert CommitsToPrefix(hs, reg.entries, reg.roots[k]);
      }
    }
  }

  lemma StaleRootCountsFewer(hs: Hashes, entries: seq<Entry>, row: RootRow)
    requires CommitsToPrefix(hs, entries, row) && row.root != TreeRoot(hs, entries, row.depth)
    ensures row.leafCount < |ListActive(entries, row.depth)|
  {
    var active := ListActive(entries, row.depth);
    assert active[..|active|] == active;
  }

  lemma LatestIsStale(hs: Hashes, reg: Registry, depth: nat, clock: int)
    requires RootsSound(hs, reg, clock) && !UpToDate(hs, reg, depth)
    ensures var rows := RootsAt(reg.roots, depth);
      rows != [] ==>
        && LatestRoot(reg.roots, depth) == Some(rows[|rows| - 1])
        && rows[|rows| - 1].leafCount < |ListActive(reg.entries, depth)| && rows[|rows| - 1].createdAt <= clock
  {
    var rows := RootsAt(reg.roots, depth);
    LatestIsLast(reg.roots, depth);
    if rows != [] {
      RootsAtMembers(reg.roots, depth);
      var k :| 0 <= k < |reg.roots| && reg.roots[k] == rows[|rows| - 1];
      StaleRootCountsFewer(hs, reg.entries, reg.roots[k]);
    }
  }

  lemma NewRootLinks(hs: Hashes, reg: Registry, depth: nat, clock: int, now: int)
    requires RootsSound(hs, reg, clock) && clock <= now
    requires !UpToDate(hs, reg, depth)
    ensures LinkedAt(RootsAt(reg.roots, depth) + [NewRoot(hs, reg, depth, now)], |RootsAt(reg.roots, depth)|)
  {
    LatestIsStale(hs, reg, depth, clock);
    LatestIsLast(reg.roots, depth);
  }

  // ---------------------------------------------------------------- one issuance

  /** A build either changes nothing or stores the one root that was missing. */
  lemma BuildStoresAtMostOneRoot(hs: Hashes, reg: Registry, status: Status, entry: Entry, now: int)
    ensures var after := BuildResult(hs, reg, status, entry, now);
      && (after.0 == reg || (!UpToDate(hs, reg, entry.depth)
                             && after.0 == reg.(roots := reg.roots + [NewRoot(hs, reg, entry.depth, now)])))
      && (after.1.Ok? && after.0 == reg ==> UpToDate(hs, reg, entry.depth))
  {
  }

  lemma BuildKeepsInv(hs: Hashes, reg: Registry, status: Status, entry: Entry, clock: int, now: int)
    requires Inv(hs, reg, clock) && clock <= now
    ensures Inv(hs, BuildResult(hs, reg, status, entry, now).0, now)
  {
    BuildStoresAtMostOneRoot(hs, reg, status, entry, now);
    if !UpToDate(hs, reg, entry.depth) {
      NewRootKeepsSound(hs, reg, entry.depth, clock, now);
    }
  }

  lemma NewRowKeepsTables(hs: Hashes, reg: Registry, e: Entry, clock: int)
    requires TablesSound(hs, reg, clock)
    requires !e.revoked && e.leafIndex <= CountAt(reg.entries, e.depth) && !ClashesWith(reg.entries, e)
    ensures TablesSound(hs, reg.(entries := reg.entries + [e]), clock)
  {
    FreshRowIsNext(reg.entries, e);
    forall k | 0 <= k < |reg.roots|
      ensures CommitsToPrefix(hs, reg.entries + [e], reg.roots[k])
    {
      GrowthKeepsPrefixes(hs, reg.entries, e, reg.roots[k]);
    }
  }

  lemma NewRowKeepsInv(hs: Hashes, reg: Registry, e: Entry, clock: int)
    requires Inv(hs, reg, clock)
    requires !e.revoked && e.leafIndex <= CountAt(reg.entries, e.depth) && !ClashesWith(reg.entries, e)
    ensures Inv(hs, reg.(entries := reg.entries + [e]), clock)
  {
    NewRowKeepsTables(hs, reg, e, clock);
  }

  /** Served one after the other, requests keep the tables and the chain of roots sound, whatever
      they answer. */
  lemma IssueKeepsInv(hs: Hashes, reg: Registry, req: Request, clock: int, now: int)
    requires Inv(hs, reg, clock) && clock <= now
    ensures Inv(hs, IssueEntry(hs, reg, req, now).0, now)
  {
    var byIdentity := FindByIdentity(reg.entries, req.identityKeyHash, req.schemaHash);
    var byVerified := FindByVerifiedIdentity(reg.entries, req.verifiedIdentityId, req.schemaHash);
    if byIdentity.Some? {
      BuildKeepsInv(hs, reg, Existing, byIdentity.value, clock, now);
    } else if byVerified.Some? {
      BuildKeepsInv(hs, reg, Existing, byVerified.value, clock, now);
    } else {
      FreshRequestInserts(reg, req);
      var e := NewEntry(reg, req);
      NewRowKeepsInv(hs, reg, e, clock);
      BuildKeepsInv(hs, reg.(entries := reg.entries + [e]), FreshlyIssued, e, clock, now);
    }
  }

  /** The row of a request that no existing row answers. */
  function NewEntry(reg: Registry, req: Request): Entry {
    EntryFor(req, NextLeafIndex(ListActive(reg.entries, req.depth)))
  }

  predicate FreshRequest(reg: Registry, req: Request) {
    && FindByIdentity(reg.entries, req.identityKeyHash, req.schemaHash).None?
    && FindByVerifiedIdentity(reg.entries, req.verifiedIdentityId, req.schemaHash).None?
  }

  lemma FreshRequestInserts(reg: Registry, req: Request)
    requires WellFormed(reg.entries) && NoneRevoked(reg.entries)
    requires FreshRequest(reg, req)
    ensures NewEntry(reg, req).leafIndex == CountAt(reg.entries, req.depth)
    ensures !ClashesWith(reg.entries, NewEntry(reg, req))
  {
    ActiveCount(reg.entries, req.depth);
    NextIndexValue(reg.entries, req.depth);
    NextIndexIsFreeIff(reg.entries, req.depth);
    forall k | 0 <= k < |reg.entries|
      ensures !Clash(reg.entries[k], NewEntry(reg, req))
    {
      assert reg.entries[k] in reg.entries;
    }
  }

  lemma FreshRequestBuilds(hs: Hashes, reg: Registry, req: Request, now: int)
    requires WellFormed(reg.entries) && NoneRevoked(reg.entries)
    requires FreshRequest(reg, req)
    ensures var e := NewEntry(reg, req);
      IssueEntry(hs, reg, req, now) == BuildResult(hs, reg.(entries := reg.entries + [e]), FreshlyIssued, e, now)
  {
    FreshRequestInserts(reg, req);
  }

  lemma {:induction false} LatestIsStored(roots: seq<RootRow>, depth: nat)
    requires LatestRoot(roots, depth).Some?
    ensures LatestRoot(roots, depth).value in roots && LatestRoot(roots, depth).value.depth == depth
  {
    var n := |roots| - 1;
    if LatestRoot(roots[..n], depth).Some? {
      LatestIsStored(roots[..n], depth);
    }
  }

  /** The latest root is a stored one of the depth that no other was stored after; of those stored at one moment it has
      the most leaves. */
  lemma {:induction false} LatestIsNewest(roots: seq<RootRow>, depth: nat)
    ensures LatestRoot(roots, depth).None? <==> forall k :: 0 <= k < |roots| ==> roots[k].depth != depth
    ensures LatestRoot(roots, depth).Some? ==> forall k :: 0 <= k < |roots| && roots[k].depth == depth ==>
      var latest := LatestRoot(roots, depth).value;
      roots[k].createdAt < latest.createdAt
      || (roots[k].createdAt == latest.createdAt && roots[k].leafCount <= latest.leafCount)
  {
    if roots != [] {
      LatestIsNewest(roots[..|roots| - 1], depth);
    }
  }

  lemma NewRootIsLatest(hs: Hashes, reg: Registry, depth: nat, clock: int, now: int)
    requires PrefixRoots(hs, reg, clock) && clock <= now
    ensures UpToDate(hs, reg.(roots := reg.roots + [NewRoot(hs, reg, depth, now)]), depth)
    ensures LatestRoot(reg.roots + [NewRoot(hs, reg, depth, now)], depth) == Some(NewRoot(hs, reg, depth, now))
  {
    var after := reg.roots + [NewRoot(hs, reg, depth, now)];
    assert after[..|reg.roots|] == reg.roots;
    if LatestRoot(reg.roots, depth).Some? {
      LatestIsStored(reg.roots, depth);
    }
  }

  lemma BuildSyncs(hs: Hashes, reg: Registry, status: Status, entry: Entry, clock: int, now: int)
    requires TablesSound(hs, reg, clock) && clock <= now
    requires BuildResult(hs, reg, status, entry, now).1.Ok?
    ensures UpToDate(hs, BuildResult(hs, reg, status, entry, now).0, entry.depth)
    ensures forall d: nat :: d != entry.depth ==>
        LatestRoot(BuildResult(hs, reg, status, entry, now).0.roots, d) == LatestRoot(reg.roots, d)
  {
    BuildStoresAtMostOneRoot(hs, reg, status, entry, now);
    if !UpToDate(hs, reg, entry.depth) {
      NewRootIsLatest(hs, reg, entry.depth, clock, now);
      assert (reg.roots + [NewRoot(hs, reg, entry.depth, now)])[..|reg.roots|] == reg.roots;
    }
  }

  lemma BuildSyncsDepth(hs: Hashes, reg: Registry, status: Status, entry: Entry, clock: int, now: int, d: nat)
    requires TablesSound(hs, reg, clock) && clock <= now
    requires BuildResult(hs, reg, status, entry, now).1.Ok?
    requires d == entry.depth || Synced(hs, reg, d)
    ensures Synced(hs, BuildResult(hs, reg, status, entry, now).0, d)
  {
    BuildSyncs(hs, reg, status, entry, clock, now);
    BuildKeepsRows(hs, reg, status, entry, now);
  }

  lemma NewRowKeepsOtherDepths(hs: Hashes, reg: Registry, e: Entry, d: nat)
    requires !e.revoked && d != e.depth && Synced(hs, reg, d)
    ensures Synced(hs, reg.(entries := reg.entries + [e]), d)
  {
    ActiveGrows(reg.entries, e, d);
    CountGrows(reg.entries, e, d);
    assert ListActive(reg.entries + [e], d) == ListActive(reg.entries, d);
  }

  /** An accepted request leaves the latest root of its depth equal to the root of the active entries, whatever it
      was before. */
  lemma IssueSyncs(hs: Hashes, reg: Registry, req: Request, clock: int, now: int)
    requires TablesSound(hs, reg, clock) && clock <= now
    requires IssueEntry(hs, reg, req, now).1.Ok?
    ensures Synced(hs, IssueEntry(hs, reg, req, now).0, req.depth)
  {
    if FreshRequest(reg, req) {
      FreshRequestSyncs(hs, reg, req, clock, now);
    } else {
      KnownRequestSyncs(hs, reg, req, clock, now);
    }
  }

  lemma KnownRequestSyncs(hs: Hashes, reg: Registry, req: Request, clock: int, now: int)
    requires TablesSound(hs, reg, clock) && clock <= now && !FreshRequest(reg, req)
    requires IssueEntry(hs, reg, req, now).1.Ok?
    ensures Synced(hs, IssueEntry(hs, reg, req, now).0, req.depth)
  {
    BuildSyncsDepth(hs, reg, Existing, KnownRow(reg, req).value, clock, now, req.depth);
  }

  lemma FreshRequestSyncs(hs: Hashes, reg: Registry, req: Request, clock: int, now: int)
    requires TablesSound(hs, reg, clock) && clock <= now && FreshRequest(reg, req)
    requires IssueEntry(hs, reg, req, now).1.Ok?
    ensures Synced(hs, IssueEntry(hs, reg, req, now).0, req.depth)
  {
    FreshRequestInserts(reg, req);
    FreshRequestBuilds(hs, reg, req, now);
    var e := NewEntry(reg, req);
    NewRowKeepsTables(hs, reg, e, clock);
    BuildSyncsDepth(hs, reg.(entries := reg.entries + [e]), FreshlyIssued, e, clock, now, req.depth);
  }

  lemma BuildKeepsOtherDepths(hs: Hashes, reg: Registry, status: Status, entry: Entry, now: int, d: nat)
    requires d != entry.depth && Synced(hs, reg, d)
    ensures Synced(hs, BuildResult(hs, reg, status, entry, now).0, d)
  {
    BuildStoresAtMostOneRoot(hs, reg, status, entry, now);
    assert (reg.roots + [NewRoot(hs, reg, entry.depth, now)])[..|reg.roots|] == reg.roots;
  }

  /** Whatever it answers, a request does not disturb the other depths. */
  lemma IssueKeepsOtherDepths(hs: Hashes, reg: Registry, req: Request, clock: int, now: int, d: nat)
    requires Inv(hs, reg, clock) && d != req.depth && Synced(hs, reg, d)
    ensures Synced(hs, IssueEntry(hs, reg, req, now).0, d)
  {
    if FreshRequest(reg, req) {
      FreshRequestInserts(reg, req);
      FreshRequestBuilds(hs, reg, req, now);
      var e := NewEntry(reg, req);
      NewRowKeepsOtherDepths(hs, reg, e, d);
      BuildKeepsOtherDepths(hs, reg.(entries := reg.entries + [e]), FreshlyIssued, e, now, d);
    } else {
      var e := KnownRow(reg, req).value;
      if CheckExisting(e, req).None? {
        BuildKeepsOtherDepths(hs, reg, Existing, e, now, d);
      }
    }
  }

  /** The stored row of the request's identity or, failing that, of its verified identity. */
  function KnownRow(reg: Registry, req: Request): (r: Option<Entry>)
    ensures r.None? <==> FreshRequest(reg, req)
    ensures r.Some? ==> r.value in reg.entries
  {
    var byIdentity := FindByIdentity(reg.entries, req.identityKeyHash, req.schemaHash);
    if byIdentity.Some? then byIdentity else FindByVerifiedIdentity(reg.entries, req.verifiedIdentityId, req.schemaHash)
  }

  // ---------------------------------------------------------------- runs

  datatype Call = Call(req: Request, now: int)

  function Serve(hs: Hashes, calls: seq<Call>): Registry {
    if calls == [] then Registry([], [])
    else
      var last := calls[|calls| - 1];
      IssueEntry(hs, Serve(hs, calls[..|calls| - 1]), last.req, last.now).0
  }

  function Answered(hs: Hashes, calls: seq<Call>, k: nat): Result<Issued, IssueError>
    requires k < |calls|
  {
    IssueEntry(hs, Serve(hs, calls[..k]), calls[k].req, calls[k].now).1
  }

  ghost predicate Timely(calls: seq<Call>, clock: int) {
    && (forall k :: 0 <= k < |calls| ==> calls[k].now <= clock)
    && (forall j, k :: 0 <= j < k < |calls| ==> calls[j].now <= calls[k].now)
  }

  /** Over any sequential run: distinct gap-free leaves, one row per identity and schema, a chain of
      roots per depth in which each root names its predecessor and commits to a prefix of the entries. */
  lemma {:induction false} RunKeepsInv(hs: Hashes, calls: seq<Call>, clock: int)
    requires Timely(calls, clock)
    ensures Inv(hs, Serve(hs, calls), clock)
  {
    if calls == [] {
      forall d: nat
        ensures Chained(RootsAt([], d))
      {
      }
    } else {
      var n := |calls| - 1;
      RunKeepsInv(hs, calls[..n], calls[n].now);
      IssueKeepsInv(hs, Serve(hs, calls[..n]), calls[n].req, calls[n].now, calls[n].now);
      LaterClock(hs, Serve(hs, calls), calls[n].now, clock);
    }
  }

  lemma LaterClock(hs: Hashes, reg: Registry, clock: int, later: int)
    requires Inv(hs, reg, clock) && clock <= later
    ensures Inv(hs, reg, later)
  {
  }

  /** The last request at a depth that was accepted or changed a table was accepted. */
  ghost predicate LastWriteAccepted(hs: Hashes, calls: seq<Call>, d: nat) {
    if calls == [] then true
    else
      var n := |calls| - 1;
      var same := Serve(hs, calls) == Serve(hs, calls[..n]);
      if calls[n].req.depth != d || (same && Answered(hs, calls, n).Err?) then LastWriteAccepted(hs, calls[..n], d)
      else Answered(hs, calls, n).Ok?
  }

  /** Then the latest root of that depth is the root of its active entries, whatever failed earlier. */
  lemma {:induction false} LastAcceptedSyncs(hs: Hashes, calls: seq<Call>, clock: int, d: nat)
    requires Timely(calls, clock) && LastWriteAccepted(hs, calls, d)
    ensures Synced(hs, Serve(hs, calls), d)
  {
    if calls != [] {
      var n := |calls| - 1;
      var call, before := calls[n], Serve(hs, calls[..n]);
      RunKeepsInv(hs, calls[..n], call.now);
      if call.req.depth != d {
        LastAcceptedSyncs(hs, calls[..n], call.now, d);
        IssueKeepsOtherDepths(hs, before, call.req, call.now, call.now, d);
      } else if Answered(hs, calls, n).Ok? {
        IssueSyncs(hs, before, call.req, call.now, call.now);
      } else {
        LastAcceptedSyncs(hs, calls[..n], call.now, d);
      }
    }
  }

  // ---------------------------------------------------------------- what one accepted request proves

  /** What an accepted fresh request returns and stores: the path of the new entry folds its commitment to the
      root of the tree after the insert, and folds zero to the root of the tree before it, which is the latest
      root stored before and is named by the new root. */
  ghost predicate LinksRoots(hs: Hashes, reg: Registry, req: Request, after: Registry, x: Issued) {
    var siblings, bits := x.path.path.siblings, x.path.path.pathIndices;
    var latest := LatestRoot(reg.roots, req.depth);
    && |siblings| == |bits| == req.depth && IndexValue(bits) == x.entry.leafIndex
    && x.status == FreshlyIssued && after.entries == reg.entries + [x.entry]
    && x.entry == EntryFor(req, CountAt(reg.entries, req.depth))
    && var folded, emptied := Fold(hs.node, req.commitment, siblings, bits), Fold(hs.node, ZERO, siblings, bits);
       && folded == x.path.root == x.credentialRoot.root == TreeRoot(hs, after.entries, req.depth)
       && emptied == TreeRoot(hs, reg.entries, req.depth)
       && (latest.Some? ==> emptied == latest.value.root)
       && (if latest.Some? && emptied == folded
           then after.roots == reg.roots && x.credentialRoot == latest.value
           else after.roots == reg.roots + [x.credentialRoot]
                && x.credentialRoot.previousRoot == (if latest.Some? then Some(emptied) else None)
                && x.credentialRoot.leafCount == CountAt(after.entries, req.depth))
  }

  /** Issuing links consecutive roots. */
  lemma IssueLinksRoots(hs: Hashes, reg: Registry, req: Request, clock: int, now: int)
    requires Inv(hs, reg, clock) && clock <= now
    requires Synced(hs, reg, req.depth) && FreshRequest(reg, req)
    requires IssueEntry(hs, reg, req, now).1.Ok?
    ensures LinksRoots(hs, reg, req, IssueEntry(hs, reg, req, now).0, IssueEntry(hs, reg, req, now).1.value)
  {
    FreshRequestInserts(reg, req);
    FreshRequestBuilds(hs, reg, req, now);
    var e := NewEntry(reg, req);
    var mid := reg.(entries := reg.entries + [e]);
    NewRowKeepsInv(hs, reg, e, clock);
    AnsweredIsBuildable(hs, mid, FreshlyIssued, e, now);
    BuildOutcome(hs, mid, FreshlyIssued, e, now);
    ActiveCount(mid.entries, req.depth);
    NewPathFolds(hs, reg.entries, e);
  }

  lemma NewPathFolds(hs: Hashes, entries: seq<Entry>, e: Entry)
    requires Contiguous(entries) && !e.revoked && e.leafIndex == CountAt(entries, e.depth)
    requires e.leafIndex < Pow2(e.depth)
    ensures var p := PathOf(hs.node, TreeOf(ListActive(entries + [e], e.depth)), e.leafIndex, e.depth);
      && Fold(hs.node, e.commitment, p.siblings, p.pathIndices) == TreeRoot(hs, entries + [e], e.depth)
      && Fold(hs.node, ZERO, p.siblings, p.pathIndices) == TreeRoot(hs, entries, e.depth)
      && IndexValue(p.pathIndices) == e.leafIndex
  {
    var rowsBefore := ListActive(entries, e.depth);
    ActiveGrows(entries, e, e.depth);
    TreeGrows(rowsBefore, e);
    NewLeafWasZero(entries, e.depth);
    var t, u := TreeOf(rowsBefore + [e]), TreeOf(rowsBefore);
    PathFoldsToRoot(hs.node, t, e.leafIndex, e.depth);
    PathFoldsAnyLeaf(hs.node, t, u, e.leafIndex, e.depth);
    PathBitsSpellIndex(e.leafIndex, e.depth);
  }

  /** A commitment the hash can tell from zero always moves the root, unless the hash collides along the path. */
  lemma NonzeroCommitmentMovesRoot(h: Poseidon2, commitment: Hex64, siblings: seq<Hex64>, bits: seq<nat>)
    requires |siblings| == |bits|
    requires forall k :: 0 <= k < |bits| ==> !FoldsCollide(h, commitment, siblings, ZERO, siblings, bits, k)
    requires !SameElement(commitment, ZERO)
    ensures Fold(h, commitment, siblings, bits) != Fold(h, ZERO, siblings, bits)
  {
    if Fold(h, commitment, siblings, bits) == Fold(h, ZERO, siblings, bits) {
      FoldBinds(h, commitment, siblings, ZERO, siblings, bits);
    }
  }

  /** A commitment that is zero in the field is stored as an entry but never shows in a root: the answer
      carries the root row of the tree before. */
  lemma {:induction false} ZeroCommitmentKeepsRoot(h: Poseidon2, commitment: Hex64, siblings: seq<Hex64>,
      bits: seq<nat>)
    requires |siblings| == |bits| > 0
    requires SameElement(commitment, ZERO)
    ensures Fold(h, commitment, siblings, bits) == Fold(h, ZERO, siblings, bits)
  {
    var top := |bits| - 1;
    if top > 0 {
      ZeroCommitmentKeepsRoot(h, commitment, siblings[..top], bits[..top]);
    }
  }

  /** The row of a new identity can be built with exactly if a leaf was left for it. */
  lemma NewRowBuildableIff(reg: Registry, req: Request)
    requires WellFormed(reg.entries) && NoneRevoked(reg.entries)
    requires FreshRequest(reg, req) && 0 < req.depth <= MAX_DEPTH
    ensures var e := NewEntry(reg, req);
      var mid := reg.(entries := reg.entries + [e]);
      && (Buildable(mid, e) <==> CountAt(reg.entries, req.depth) < Pow2(req.depth))
      && (Buildable(mid, e) <==> InRange(LeavesOf(ListActive(mid.entries, req.depth)), req.depth))
  {
    var e := NewEntry(reg, req);
    FreshRequestInserts(reg, req);
    FreshRowIsNext(reg.entries, e);
    LeavesFitIff(reg.entries + [e], req.depth);
    CountGrows(reg.entries, e, req.depth);
    ActiveGrows(reg.entries, e, req.depth);
  }

  /** Exactly when a new identity is accepted: there is room in the tree, and the new root is either the
      latest one already or not stored at any depth. */
  lemma FreshRequestAcceptedIff(hs: Hashes, reg: Registry, req: Request, now: int)
    requires WellFormed(reg.entries) && NoneRevoked(reg.entries)
    requires FreshRequest(reg, req) && 0 < req.depth <= MAX_DEPTH
    ensures var mid := reg.(entries := reg.entries + [NewEntry(reg, req)]);
      IssueEntry(hs, reg, req, now).1.Ok?
      <==> CountAt(reg.entries, req.depth) < Pow2(req.depth)
           && (UpToDate(hs, mid, req.depth) || !RootTaken(reg.roots, TreeRoot(hs, mid.entries, req.depth)))
  {
    FreshRequestBuilds(hs, reg, req, now);
    NewRowBuildableIff(reg, req);
    var e := NewEntry(reg, req);
    var mid := reg.(entries := reg.entries + [e]);
    if Buildable(mid, e) {
      BuildOutcome(hs, mid, FreshlyIssued, e, now);
    } else {
      FirstLeafErrorIsExact(LeavesOf(ListActive(mid.entries, req.depth)), req.depth);
    }
  }

  /** With revocation, a depth can be built exactly if none of its active rows lies beyond the last leaf. */
  lemma BuildsIff(hs: Hashes, entries: seq<Entry>, depth: nat)
    ensures MaterialSpec(hs.node, LeavesOf(ListActive(entries, depth)), Some(depth)).Ok?
        <==> 0 < depth <= MAX_DEPTH && forall e :: e in entries && e.depth == depth && !e.revoked ==>
            e.leafIndex < Pow2(depth)
  {
    var rows := ListActive(entries, depth);
    FirstLeafErrorIsExact(LeavesOf(rows), depth);
    forall e
      ensures e in rows <==> e in entries && e.depth == depth && !e.revoked
    {
      ActiveMembers(entries, depth, e);
    }
    if InRange(LeavesOf(rows), depth) {
      forall e | e in rows
        ensures e.leafIndex < Pow2(depth)
      {
        var k :| 0 <= k < |rows| && rows[k] == e;
        assert LeavesOf(rows)[k].index == e.leafIndex;
      }
    }
  }

  lemma {:induction false} ActiveMembers(entries: seq<Entry>, depth: nat, e: Entry)
    ensures e in ListActive(entries, depth) <==> e in entries && e.depth == depth && !e.revoked
  {
    if entries != [] {
      var n := |entries| - 1;
      ActiveMembers(entries[..n], depth, e);
      assert entries == entries[..n] + [entries[n]];
    }
  }

  lemma CountMonotone(entries: seq<Entry>, after: seq<Entry>, depth: nat)
    requires GrownByOne(entries, after)
    ensures CountAt(entries, depth) <= CountAt(after, depth)
  {
    if after != entries {
      assert after == entries + [after[|entries|]];
      CountGrows(entries, after[|entries|], depth);
    }
  }

  lemma LastCallCounts(hs: Hashes, calls: seq<Call>, depth: nat)
    requires calls != []
    ensures CountAt(Serve(hs, calls[..|calls| - 1]).entries, depth) <= CountAt(Serve(hs, calls).entries, depth)
  {
    var before, last := Serve(hs, calls[..|calls| - 1]), calls[|calls| - 1];
    IssueRows(hs, before, last.req, last.now);
    CommitRows(hs, before, last.req, NextLeafIndex(ListActive(before.entries, last.req.depth)), last.now);
    CountMonotone(before.entries, Serve(hs, calls).entries, depth);
  }

  lemma {:induction false} ServedCountsGrow(hs: Hashes, calls: seq<Call>, j: nat, depth: nat)
    requires j <= |calls|
    ensures CountAt(Serve(hs, calls[..j]).entries, depth) <= CountAt(Serve(hs, calls).entries, depth)
    decreases |calls|
  {
    if j == |calls| {
      assert calls[..j] == calls;
    } else {
      var n := |calls| - 1;
      assert calls[..n][..j] == calls[..j];
      ServedCountsGrow(hs, calls[..n], j, depth);
      LastCallCounts(hs, calls, depth);
    }
  }

  lemma OverfullBuildFails(hs: Hashes, reg: Registry, status: Status, e: Entry, now: int)
    requires Contiguous(reg.entries) && NoneRevoked(reg.entries) && CountAt(reg.entries, e.depth) > Pow2(e.depth)
    ensures BuildResult(hs, reg, status, e, now).1.Err?
  {
    LeavesFitIff(reg.entries, e.depth);
    FirstLeafErrorIsExact(LeavesOf(ListActive(reg.entries, e.depth)), e.depth);
  }

  /** A new identity that finds no leaf left is refused after its row was stored. */
  lemma SurplusRow(hs: Hashes, reg: Registry, req: Request, now: int)
    requires WellFormed(reg.entries) && NoneRevoked(reg.entries) && FreshRequest(reg, req)
    requires CountAt(reg.entries, req.depth) >= Pow2(req.depth)
    ensures IssueEntry(hs, reg, req, now).1.Err?
    ensures IssueEntry(hs, reg, req, now).0.entries == reg.entries + [NewEntry(reg, req)]
    ensures CountAt(IssueEntry(hs, reg, req, now).0.entries, req.depth) > Pow2(req.depth)
  {
    FreshRequestInserts(reg, req);
    FreshRequestBuilds(hs, reg, req, now);
    var e := NewEntry(reg, req);
    var mid := reg.(entries := reg.entries + [e]);
    FreshRowIsNext(reg.entries, e);
    CountGrows(reg.entries, e, req.depth);
    OverfullBuildFails(hs, mid, FreshlyIssued, e, now);
    BuildKeepsRows(hs, mid, FreshlyIssued, e, now);
  }

  /** Nothing that is asked for at a depth with too many rows is answered. */
  lemma OverfullRefuses(hs: Hashes, reg: Registry, req: Request, now: int)
    requires WellFormed(reg.entries) && NoneRevoked(reg.entries) && CountAt(reg.entries, req.depth) > Pow2(req.depth)
    ensures IssueEntry(hs, reg, req, now).1.Err?
  {
    if FreshRequest(reg, req) {
      SurplusRow(hs, reg, req, now);
    } else {
      OverfullBuildFails(hs, reg, Existing, KnownRow(reg, req).value.(depth := req.depth), now);
    }
  }

  lemma SurplusCall(hs: Hashes, calls: seq<Call>, j: nat)
    requires j < |calls|
    requires var before, req := Serve(hs, calls[..j]), calls[j].req;
      && WellFormed(before.entries) && NoneRevoked(before.entries)
      && FreshRequest(before, req) && CountAt(before.entries, req.depth) >= Pow2(req.depth)
    ensures CountAt(Serve(hs, calls[..j + 1]).entries, calls[j].req.depth) > Pow2(calls[j].req.depth)
  {
    assert calls[..j + 1][..j] == calls[..j];
    SurplusRow(hs, Serve(hs, calls[..j]), calls[j].req, calls[j].now);
  }

  lemma OverfullCall(hs: Hashes, calls: seq<Call>, clock: int, k: nat)
    requires Timely(calls, clock) && k < |calls|
    requires CountAt(Serve(hs, calls[..k]).entries, calls[k].req.depth) > Pow2(calls[k].req.depth)
    ensures Answered(hs, calls, k).Err?
  {
    RunKeepsInv(hs, calls[..k], calls[k].now);
    OverfullRefuses(hs, Serve(hs, calls[..k]), calls[k].req, calls[k].now);
  }

  lemma LaterCount(hs: Hashes, calls: seq<Call>, j: nat, k: nat, depth: nat)
    requires j <= k <= |calls|
    ensures CountAt(Serve(hs, calls[..j]).entries, depth) <= CountAt(Serve(hs, calls[..k]).entries, depth)
  {
    assert calls[..k][..j] == calls[..j];
    ServedCountsGrow(hs, calls[..k], j, depth);
  }

  /** Once a new identity has been asked for at a full depth, that request and every later one at that depth fail,
      whatever is asked for in between. */
  lemma FullTreeNeverBuilds(hs: Hashes, calls: seq<Call>, clock: int, j: nat, k: nat)
    requires Timely(calls, clock) && j <= k < |calls| && calls[k].req.depth == calls[j].req.depth
    requires var before, req := Serve(hs, calls[..j]), calls[j].req;
      FreshRequest(before, req) && CountAt(before.entries, req.depth) >= Pow2(req.depth)
    ensures Answered(hs, calls, k).Err?
  {
    RunKeepsInv(hs, calls[..j], calls[j].now);
    if j < k {
      SurplusCall(hs, calls, j);
      LaterCount(hs, calls, j + 1, k, calls[k].req.depth);
      OverfullCall(hs, calls, clock, k);
    } else {
      SurplusRow(hs, Serve(hs, calls[..j]), calls[j].req, calls[j].now);
    }
  }

  /** Revoking a surplus row leaves the rows that were active before it. */
  lemma SurplusRowRevoked(entries: seq<Entry>, e: Entry)
    ensures var revoked := RevokeRow(entries + [e], |entries|);
      ListActive(revoked, e.depth) == ListActive(entries, e.depth) && !LastIsActive(revoked, e.depth)
  {
    var revoked := RevokeRow(entries + [e], |entries|);
    assert revoked == entries + [e.(revoked := true)];
    assert revoked[..|entries|] == entries;
  }

  lemma FittingRowsBuild(hs: Hashes, entries: seq<Entry>, depth: nat)
    requires Contiguous(entries) && NoneRevoked(entries) && 0 < depth <= MAX_DEPTH
    requires CountAt(entries, depth) <= Pow2(depth)
    ensures MaterialSpec(hs.node, LeavesOf(ListActive(entries, depth)), Some(depth)).Ok?
  {
    LeavesFitIff(entries, depth);
    FirstLeafErrorIsExact(LeavesOf(ListActive(entries, depth)), depth);
  }

  /** What a table with a surplus row refuses, whatever is built with. */
  lemma OverfullBuildsFail(hs: Hashes, reg: Registry, depth: nat)
    requires Contiguous(reg.entries) && NoneRevoked(reg.entries) && CountAt(reg.entries, depth) > Pow2(depth)
    ensures forall entry: Entry, status, later :: entry.depth == depth ==>
      BuildResult(hs, reg, status, entry, later).1.Err?
  {
    forall entry: Entry, status, later | entry.depth == depth
      ensures BuildResult(hs, reg, status, entry, later).1.Err?
    {
      OverfullBuildFails(hs, reg, status, entry, later);
    }
  }

  /** A full tree: the request fails only after its row was stored, and then no row of the depth can be built with.
      Revoking the surplus row brings the tree back, and closes the depth to new identities. */
  lemma FullTreeIsSpoiled(hs: Hashes, reg: Registry, req: Request, now: int)
    requires WellFormed(reg.entries) && NoneRevoked(reg.entries)
    requires FreshRequest(reg, req) && 0 < req.depth <= MAX_DEPTH
    requires CountAt(reg.entries, req.depth) == Pow2(req.depth)
    ensures var after := IssueEntry(hs, reg, req, now).0;
      && IssueEntry(hs, reg, req, now).1.Err?
      && after.entries == reg.entries + [NewEntry(reg, req)]
      && (forall entry: Entry, status, later :: entry.depth == req.depth ==>
          BuildResult(hs, after, status, entry, later).1.Err?)
      && var revoked := RevokeRow(after.entries, |reg.entries|);
         && ListActive(revoked, req.depth) == ListActive(reg.entries, req.depth)
         && MaterialSpec(hs.node, LeavesOf(ListActive(revoked, req.depth)), Some(req.depth)).Ok?
         && !LastIsActive(revoked, req.depth)
  {
    SurplusRow(hs, reg, req, now);
    FreshRequestInserts(reg, req);
    FreshRowIsNext(reg.entries, NewEntry(reg, req));
    OverfullBuildsFail(hs, IssueEntry(hs, reg, req, now).0, req.depth);
    SurplusRowRevoked(reg.entries, NewEntry(reg, req));
    FittingRowsBuild(hs, reg.entries, req.depth);
  }

  lemma {:induction false} ActiveIsListed(entries: seq<Entry>, e: Entry)
    requires e in entries && !e.revoked
    ensures e in ListActive(entries, e.depth)
  {
    var n := |entries| - 1;
    if entries[n] != e {
      assert entries == entries[..n] + [entries[n]];
      ActiveIsListed(entries[..n], e);
    }
  }

  lemma MaterialMeansInRange(h: Poseidon2, leaves: seq<Leaf>, depth: nat)
    requires MaterialSpec(h, leaves, Some(depth)).Ok?
    ensures 0 < depth <= MAX_DEPTH && InRange(leaves, depth)
  {
    FirstLeafErrorIsExact(leaves, depth);
  }

  lemma AnsweredIsBuildable(hs: Hashes, reg: Registry, status: Status, e: Entry, now: int)
    requires BuildResult(hs, reg, status, e, now).1.Ok? && e in reg.entries && !e.revoked
    ensures Buildable(reg, e)
  {
    MaterialMeansInRange(hs.node, LeavesOf(ListActive(reg.entries, e.depth)), e.depth);
    ActiveIsListed(reg.entries, e);
  }

  /** Building again for the same entry finds the root that the first build left behind. */
  lemma BuildRepeats(hs: Hashes, reg: Registry, status: Status, e: Entry, clock: int, now: int, later: int)
    requires TablesSound(hs, reg, clock) && clock <= now
    requires BuildResult(hs, reg, status, e, now).1.Ok? && e in reg.entries
    ensures var (after, r) := BuildResult(hs, reg, status, e, now);
      BuildResult(hs, after, Existing, e, later) == (after, Ok(r.value.(status := Existing)))
  {
    var after := BuildResult(hs, reg, status, e, now).0;
    AnsweredIsBuildable(hs, reg, status, e, now);
    BuildOutcome(hs, reg, status, e, now);
    BuildSyncs(hs, reg, status, e, clock, now);
    if !UpToDate(hs, reg, e.depth) {
      NewRootIsLatest(hs, reg, e.depth, clock, now);
    }
    BuildKeepsRows(hs, reg, status, e, now);
    BuildOutcome(hs, after, Existing, e, later);
  }

  lemma ExistingRepeats(hs: Hashes, reg: Registry, req: Request, clock: int, now: int, later: int)
    requires TablesSound(hs, reg, clock) && clock <= now
    requires !FreshRequest(reg, req) && IssueEntry(hs, reg, req, now).1.Ok?
    ensures var (after, r) := IssueEntry(hs, reg, req, now);
      IssueEntry(hs, after, req, later) == (after, r)
  {
    var byIdentity := FindByIdentity(reg.entries, req.identityKeyHash, req.schemaHash);
    var byVerified := FindByVerifiedIdentity(reg.entries, req.verifiedIdentityId, req.schemaHash);
    var e := if byIdentity.Some? then byIdentity.value else byVerified.value;
    BuildRepeats(hs, reg, Existing, e, clock, now, later);
    BuildKeepsRows(hs, reg, Existing, e, now);
  }

  /** Repeating an accepted request returns the same row, root and path and stores nothing. */
  lemma RepeatReturnsTheSame(hs: Hashes, reg: Registry, req: Request, clock: int, now: int, later: int)
    requires TablesSound(hs, reg, clock) && clock <= now
    requires IssueEntry(hs, reg, req, now).1.Ok?
    ensures var (after, r) := IssueEntry(hs, reg, req, now);
      IssueEntry(hs, after, req, later) == (after, Ok(r.value.(status := Existing)))
  {
    if FreshRequest(reg, req) {
      FreshRequestInserts(reg, req);
      FreshRequestBuilds(hs, reg, req, now);
      var e := NewEntry(reg, req);
      var mid := reg.(entries := reg.entries + [e]);
      NewRowKeepsTables(hs, reg, e, clock);
      BuildRepeats(hs, mid, FreshlyIssued, e, clock, now, later);
      BuildKeepsRows(hs, mid, FreshlyIssued, e, now);
      LastRowFound(reg.entries, e);
    } else {
      ExistingRepeats(hs, reg, req, clock, now, later);
      IssueStatus(hs, reg, req, now);
    }
  }

  lemma IssueStatus(hs: Hashes, reg: Registry, req: Request, now: int)
    requires !FreshRequest(reg, req) && IssueEntry(hs, reg, req, now).1.Ok?
    ensures IssueEntry(hs, reg, req, now).1.value.status == Existing
  {
  }

  lemma {:induction false} LastRowFound(entries: seq<Entry>, e: Entry)
    requires FindByIdentity(entries, e.identityKeyHash, e.schemaHash).None?
    ensures FindByIdentity(entries + [e], e.identityKeyHash, e.schemaHash) == Some(e)
  {
    if entries == [] {
    } else {
      assert entries[0] in entries;
      assert (entries + [e])[1..] == entries[1..] + [e];
      LastRowFound(entries[1..], e);
    }
  }

  /** A request for a known identity is refused as revoked or different exactly when the stored row is revoked or
      differs from what the request would store in anything but the two identities, and then nothing changes. */
  lemma ConflictChangesNothing(hs: Hashes, reg: Registry, req: Request, now: int)
    requires KnownRow(reg, req).Some?
    ensures var e := KnownRow(reg, req).value;
      var wanted := EntryFor(req, e.leafIndex);
      var conflict := e != wanted.(verifiedIdentityId := e.verifiedIdentityId, identityKeyHash := e.identityKeyHash);
      && (IssueEntry(hs, reg, req, now).1 in {Err(EntryRevoked), Err(DifferentEntry)} <==> conflict)
      && (conflict ==> IssueEntry(hs, reg, req, now).0 == reg)
  {
  }

  /** Roots are unique across depths in the table, but trees of different depths can share a root without
      any hash collision: the shallow one only has to store the deep one's inner nodes as commitments. */
  lemma DepthsCanShareRoots(h: Poseidon2, commitment: Hex64)
    ensures Root(h, map[0 := Node(h, commitment, ZERO), 1 := Node(h, ZERO, ZERO)], 1)
         == Root(h, map[0 := commitment], 2)
  {
    var deep: Tree := map[0 := commitment];
    var shallow: Tree := map[0 := Node(h, commitment, ZERO), 1 := Node(h, ZERO, ZERO)];
    assert NodeAt(h, deep, 1, 0) == Node(h, commitment, ZERO) == NodeAt(h, shallow, 0, 0);
    assert NodeAt(h, deep, 1, 1) == Node(h, ZERO, ZERO) == NodeAt(h, shallow, 0, 1);
    assert NodeAt(h, deep, 2, 0) == NodeAt(h, shallow, 1, 0);
  }
}
