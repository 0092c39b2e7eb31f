/** Sequential issuance within capacity: with no collisions among the trees that the run itself builds, every new
    identity is accepted and the chain of roots follows the tree at every step. Nothing is supposed about what the
    requests answer. */
module CredentialIssuance {
  import opened Prelude
  import opened FieldElements
  import opened MerkleTree
  import opened SparseMerkle
  import opened CredentialRegistry
  import opened CredentialRegistryRuns
  import opened CredentialRootRuns

  /** The tree over the first n rows of a depth. */
  function PrefixTree(entries: seq<Entry>, depth: nat, n: nat): Tree
    requires n <= |ListActive(entries, depth)|
  {
    TreeOf(ListActive(entries, depth)[..n])
  }

  ghost predicate RowsDoNotCollide(h: Poseidon2, rows: seq<Entry>, depth: nat, a: nat, b: nat) {
    a <= |rows| && b <= |rows| ==> NoCollisionBetween(h, TreeOf(rows[..a]), TreeOf(rows[..b]), depth)
  }

  ghost predicate PrefixesDoNotCollide(hs: Hashes, entries: seq<Entry>, depth: nat, a: nat, b: nat) {
    RowsDoNotCollide(hs.node, ListActive(entries, depth), depth, a, b)
  }

  /** Two depths do not have a root in common. */
  ghost predicate RootsDiffer(hs: Hashes, entries: seq<Entry>, depth: nat, a: nat, other: nat, b: nat) {
    depth != other && 0 < a <= |ListActive(entries, depth)| && 0 < b <= |ListActive(entries, other)| ==>
      Root(hs.node, PrefixTree(entries, depth, a), depth) != Root(hs.node, PrefixTree(entries, other, b), other)
  }

  /** The trees over beginnings of these rows meet no hash collision, and no two depths share a root. */
  ghost predicate Separate(hs: Hashes, entries: seq<Entry>) {
    && (forall d: nat, a: nat, b: nat :: PrefixesDoNotCollide(hs, entries, d, a, b))
    && (forall d: nat, a: nat, e: nat, b: nat :: RootsDiffer(hs, entries, d, a, e, b))
  }

  /** Every stored root counts a leaf. */
  ghost predicate RootsCountLeaves(reg: Registry) {
    forall k :: 0 <= k < |reg.roots| ==> reg.roots[k].leafCount > 0
  }

  ghost predicate AllSynced(hs: Hashes, reg: Registry) {
    forall d: nat :: Synced(hs, reg, d)
  }

  ghost predicate Good(hs: Hashes, reg: Registry, clock: int) {
    Inv(hs, reg, clock) && AllSynced(hs, reg) && RootsCountLeaves(reg)
  }

  // ---------------------------------------------------------------- one new identity

  lemma {:induction false} LatestExists(roots: seq<RootRow>, depth: nat, k: nat)
    requires k < |roots| && roots[k].depth == depth
    ensures LatestRoot(roots, depth).Some?
  {
    if k < |roots| - 1 {
      LatestExists(roots[..|roots| - 1], depth, k);
    }
  }

  lemma SameLeavesSameRoot(h: Poseidon2, t: Tree, u: Tree, depth: nat)
    requires depth > 0 && SameLeaves(t, u, 0, Pow2(depth))
    ensures Root(h, t, depth) == Root(h, u, depth)
  {
    SameLeavesHaveEqualNodes(h, t, u, depth, 0);
  }

  /** A prefix tree that has the leaves of a longer one proves that the leaf in between is zero. */
  lemma SharedLeavesMeanZero(rows: seq<Entry>, e: Entry, c: nat, depth: nat)
    requires forall k :: 0 <= k < |rows| ==> rows[k].leafIndex == k
    requires e.leafIndex == |rows| < Pow2(depth) && c <= |rows|
    requires SameLeaves(TreeOf(rows[..c]), TreeOf(rows + [e]), 0, Pow2(depth))
    ensures SameElement(e.commitment, ZERO)
  {
    TreeGrows(rows, e);
    TreeKeysBelow(rows[..c], |rows|);
    assert SameElement(LeafValue(TreeOf(rows[..c]), |rows|), LeafValue(TreeOf(rows + [e]), |rows|));
  }

  lemma ZeroLeafKeepsLeaves(rows: seq<Entry>, e: Entry, depth: nat)
    requires forall k :: 0 <= k < |rows| ==> rows[k].leafIndex == k
    requires e.leafIndex == |rows| && SameElement(e.commitment, ZERO)
    ensures SameLeaves(TreeOf(rows), TreeOf(rows + [e]), 0, Pow2(depth))
  {
    TreeGrows(rows, e);
    TreeKeysBelow(rows, |rows|);
  }

  /** If a shorter prefix has the root of the tree with the new row, the new row did not move the root. */
  lemma RepeatedRootIsLatest(hs: Hashes, entries: seq<Entry>, e: Entry, c: nat)
    requires Contiguous(entries) && NoneRevoked(entries) && !e.revoked
    requires 0 < e.depth && e.leafIndex == CountAt(entries, e.depth) < Pow2(e.depth)
    requires c <= |ListActive(entries, e.depth)|
    requires PrefixesDoNotCollide(hs, entries + [e], e.depth, c, |ListActive(entries, e.depth)| + 1)
    requires Root(hs.node, PrefixTree(entries, e.depth, c), e.depth) == TreeRoot(hs, entries + [e], e.depth)
    ensures TreeRoot(hs, entries, e.depth) == TreeRoot(hs, entries + [e], e.depth)
  {
    var d, rows := e.depth, ListActive(entries, e.depth);
    RowsAreNumbered(entries, d);
    GrownRowsDoNotCollide(hs.node, rows, e, c, d);
    RepeatedRowsRoot(hs.node, rows, e, c, d);
  }

  lemma GrownRowsDoNotCollide(h: Poseidon2, rows: seq<Entry>, e: Entry, c: nat, d: nat)
    requires c <= |rows| && RowsDoNotCollide(h, rows + [e], d, c, |rows| + 1)
    ensures NoCollisionBetween(h, TreeOf(rows[..c]), TreeOf(rows + [e]), d)
  {
    assert (rows + [e])[..c] == rows[..c] && (rows + [e])[..|rows| + 1] == rows + [e];
  }

  lemma RowsAreNumbered(entries: seq<Entry>, d: nat)
    requires Contiguous(entries) && NoneRevoked(entries)
    ensures |ListActive(entries, d)| == CountAt(entries, d)
    ensures forall k :: 0 <= k < |ListActive(entries, d)| ==> ListActive(entries, d)[k].leafIndex == k
  {
    ActiveCount(entries, d);
    forall k | 0 <= k < |ListActive(entries, d)|
      ensures ListActive(entries, d)[k].leafIndex == k
    {
      ActivePosition(entries, d, k);
    }
  }

  lemma RepeatedRowsRoot(h: Poseidon2, rows: seq<Entry>, e: Entry, c: nat, d: nat)
    requires 0 < d && forall k :: 0 <= k < |rows| ==> rows[k].leafIndex == k
    requires e.leafIndex == |rows| < Pow2(d) && c <= |rows|
    requires NoCollisionBetween(h, TreeOf(rows[..c]), TreeOf(rows + [e]), d)
    requires Root(h, TreeOf(rows[..c]), d) == Root(h, TreeOf(rows + [e]), d)
    ensures Root(h, TreeOf(rows), d) == Root(h, TreeOf(rows + [e]), d)
  {
    RootDeterminesLeaves(h, TreeOf(rows[..c]), TreeOf(rows + [e]), d);
    SharedLeavesMeanZero(rows, e, c, d);
    ZeroLeafKeepsLeaves(rows, e, d);
    SameLeavesSameRoot(h, TreeOf(rows), TreeOf(rows + [e]), d);
  }

  /** A root that is stored already can only be the latest one of its depth. */
  lemma TakenRootIsLatest(hs: Hashes, reg: Registry, req: Request, clock: int, k: nat)
    requires Good(hs, reg, clock) && FreshRequest(reg, req) && 0 < req.depth
    requires CountAt(reg.entries, req.depth) < Pow2(req.depth)
    requires Separate(hs, reg.entries + [NewEntry(reg, req)])
    requires k < |reg.roots| && reg.roots[k].root == TreeRoot(hs, reg.entries + [NewEntry(reg, req)], req.depth)
    ensures UpToDate(hs, reg.(entries := reg.entries + [NewEntry(reg, req)]), req.depth)
  {
    var e, row := NewEntry(reg, req), reg.roots[k];
    var grown := reg.entries + [e];
    FreshRequestInserts(reg, req);
    GrowthKeepsPrefixes(hs, reg.entries, e, row);
    ActiveGrows(reg.entries, e, req.depth);
    var rows := ListActive(grown, req.depth);
    assert rows[..|rows|] == rows;
    assert RootsDiffer(hs, grown, req.depth, |rows|, row.depth, row.leafCount);
    assert row.depth == req.depth;
    assert PrefixesDoNotCollide(hs, grown, req.depth, row.leafCount, |rows|);
    RepeatedRootIsLatest(hs, reg.entries, e, row.leafCount);
    LatestExists(reg.roots, req.depth, k);
    assert Synced(hs, reg, req.depth);
  }

  /** A new identity is accepted if and only if the tree of its depth has room. */
  lemma AcceptedIffRoom(hs: Hashes, reg: Registry, req: Request, clock: int, now: int)
    requires Good(hs, reg, clock) && clock <= now && FreshRequest(reg, req) && 0 < req.depth <= MAX_DEPTH
    requires Separate(hs, reg.entries + [NewEntry(reg, req)])
    ensures IssueEntry(hs, reg, req, now).1.Ok? <==> CountAt(reg.entries, req.depth) < Pow2(req.depth)
  {
    FreshRequestAcceptedIff(hs, reg, req, now);
    var root := TreeRoot(hs, reg.entries + [NewEntry(reg, req)], req.depth);
    if CountAt(reg.entries, req.depth) < Pow2(req.depth) && RootTaken(reg.roots, root) {
      var k :| 0 <= k < |reg.roots| && reg.roots[k].root == root;
      TakenRootIsLatest(hs, reg, req, clock, k);
    }
  }

  /** A new identity that finds room leaves everything in order and links the roots. */
  lemma FreshKeepsGood(hs: Hashes, reg: Registry, req: Request, clock: int, now: int)
    requires Good(hs, reg, clock) && clock <= now && FreshRequest(reg, req) && 0 < req.depth <= MAX_DEPTH
    requires Separate(hs, reg.entries + [NewEntry(reg, req)])
    requires CountAt(reg.entries, req.depth) < Pow2(req.depth)
    ensures Good(hs, IssueEntry(hs, reg, req, now).0, now)
    ensures IssueEntry(hs, reg, req, now).1.Ok?
    ensures LinksRoots(hs, reg, req, IssueEntry(hs, reg, req, now).0, IssueEntry(hs, reg, req, now).1.value)
  {
    AcceptedIffRoom(hs, reg, req, clock, now);
    IssueKeepsInv(hs, reg, req, clock, now);
    assert Synced(hs, reg, req.depth);
    IssueLinksRoots(hs, reg, req, clock, now);
    AcceptedKeepsSynced(hs, reg, req, clock, now);
    NewRootsCountLeaves(hs, reg, req, now);
  }

  lemma AcceptedKeepsSynced(hs: Hashes, reg: Registry, req: Request, clock: int, now: int)
    requires Inv(hs, reg, clock) && clock <= now && AllSynced(hs, reg) && IssueEntry(hs, reg, req, now).1.Ok?
    ensures AllSynced(hs, IssueEntry(hs, reg, req, now).0)
  {
    IssueSyncs(hs, reg, req, clock, now);
    forall d: nat
      ensures Synced(hs, IssueEntry(hs, reg, req, now).0, d)
    {
      assert Synced(hs, reg, d);
      if d != req.depth {
        IssueKeepsOtherDepths(hs, reg, req, clock, now, d);
      }
    }
  }

  lemma NewRootsCountLeaves(hs: Hashes, reg: Registry, req: Request, now: int)
    requires RootsCountLeaves(reg) && FreshRequest(reg, req) && WellFormed(reg.entries) && NoneRevoked(reg.entries)
    ensures RootsCountLeaves(IssueEntry(hs, reg, req, now).0)
  {
    var e := NewEntry(reg, req);
    var mid := reg.(entries := reg.entries + [e]);
    FreshRequestBuilds(hs, reg, req, now);
    ActiveGrows(reg.entries, e, req.depth);
    BuildRootsCountLeaves(hs, mid, e, now);
  }

  lemma BuildRootsCountLeaves(hs: Hashes, reg: Registry, e: Entry, now: int)
    requires RootsCountLeaves(reg) && ListActive(reg.entries, e.depth) != []
    ensures RootsCountLeaves(BuildResult(hs, reg, FreshlyIssued, e, now).0)
  {
    BuildStoresAtMostOneRoot(hs, reg, FreshlyIssued, e, now);
  }

  /** A request for a known identity changes nothing, whatever it answers. */
  lemma KnownChangesNothing(hs: Hashes, reg: Registry, req: Request, clock: int, now: int)
    requires Good(hs, reg, clock) && !FreshRequest(reg, req)
    ensures IssueEntry(hs, reg, req, now).0 == reg
  {
    var e := KnownRow(reg, req).value;
    BuildStoresAtMostOneRoot(hs, reg, Existing, e, now);
    RowIsCounted(reg.entries, e);
    assert Synced(hs, reg, e.depth);
  }

  lemma {:induction false} RowIsCounted(entries: seq<Entry>, e: Entry)
    requires e in entries
    ensures CountAt(entries, e.depth) > 0
  {
    var n := |entries| - 1;
    if entries[n] != e {
      assert entries == entries[..n] + [entries[n]];
      RowIsCounted(entries[..n], e);
    }
  }

  // ---------------------------------------------------------------- identities

  /** The identities, one for each schema, that are asked for at a depth. */
  function IdentitiesAt(calls: seq<Call>, depth: nat): set<(Hex64, Hex64)> {
    if calls == [] then {}
    else
      var n := |calls| - 1;
      IdentitiesAt(calls[..n], depth) + if calls[n].req.depth == depth then {IdentityOf(calls[n].req)} else {}
  }

  function IdentityOf(req: Request): (Hex64, Hex64) {
    (req.identityKeyHash, req.schemaHash)
  }

  function StoredAt(entries: seq<Entry>, depth: nat): set<(Hex64, Hex64)> {
    if entries == [] then {}
    else
      var n := |entries| - 1;
      StoredAt(entries[..n], depth)
      + if entries[n].depth == depth then {(entries[n].identityKeyHash, entries[n].schemaHash)} else {}
  }

  lemma {:induction false} UnusedIsNotStored(entries: seq<Entry>, depth: nat, identity: (Hex64, Hex64))
    requires forall k :: 0 <= k < |entries| ==> !SameIdentity(entries[k], identity.0, identity.1)
    ensures identity !in StoredAt(entries, depth)
  {
    if entries != [] {
      UnusedIsNotStored(entries[..|entries| - 1], depth, identity);
    }
  }

  /** Rows of one depth have distinct identities. */
  lemma {:induction false} StoredCount(entries: seq<Entry>, depth: nat)
    requires NoClash(entries)
    ensures |StoredAt(entries, depth)| == CountAt(entries, depth)
  {
    if entries != [] {
      var n := |entries| - 1;
      StoredCount(entries[..n], depth);
      forall k | 0 <= k < n
        ensures !SameIdentity(entries[..n][k], entries[n].identityKeyHash, entries[n].schemaHash)
      {
        assert !Clash(entries[k], entries[n]);
      }
      UnusedIsNotStored(entries[..n], depth, (entries[n].identityKeyHash, entries[n].schemaHash));
    }
  }

  /** A new identity among at most 2^depth of them finds room. */
  lemma NewIdentityHasRoom(reg: Registry, req: Request, asked: set<(Hex64, Hex64)>)
    requires NoClash(reg.entries) && FreshRequest(reg, req)
    requires StoredAt(reg.entries, req.depth) <= asked && IdentityOf(req) in asked && |asked| <= Pow2(req.depth)
    ensures CountAt(reg.entries, req.depth) < Pow2(req.depth)
  {
    var stored := StoredAt(reg.entries, req.depth);
    StoredCount(reg.entries, req.depth);
    forall k | 0 <= k < |reg.entries|
      ensures !SameIdentity(reg.entries[k], req.identityKeyHash, req.schemaHash)
    {
      assert reg.entries[k] in reg.entries;
    }
    UnusedIsNotStored(reg.entries, req.depth, IdentityOf(req));
    SubsetCount(stored + {IdentityOf(req)}, asked);
  }

  // ---------------------------------------------------------------- every run

  lemma FreshRows(hs: Hashes, reg: Registry, req: Request, now: int)
    requires WellFormed(reg.entries) && NoneRevoked(reg.entries) && FreshRequest(reg, req)
    ensures IssueEntry(hs, reg, req, now).0.entries == reg.entries + [NewEntry(reg, req)]
  {
    FreshRequestBuilds(hs, reg, req, now);
    var e := NewEntry(reg, req);
    BuildStoresAtMostOneRoot(hs, reg.(entries := reg.entries + [e]), FreshlyIssued, e, now);
  }

  /** What is stored was asked for. */
  lemma {:induction false} StoredWasAsked(hs: Hashes, calls: seq<Call>, clock: int, depth: nat)
    requires Timely(calls, clock)
    ensures StoredAt(Serve(hs, calls).entries, depth) <= IdentitiesAt(calls, depth)
  {
    if calls != [] {
      var n := |calls| - 1;
      var before, call := Serve(hs, calls[..n]), calls[n];
      StoredWasAsked(hs, calls[..n], call.now, depth);
      RunKeepsInv(hs, calls[..n], call.now);
      if FreshRequest(before, call.req) {
        FreshRows(hs, before, call.req, call.now);
        assert (before.entries + [NewEntry(before, call.req)])[..|before.entries|] == before.entries;
      } else {
        KnownKeepsRows(hs, before, call.req, call.now);
      }
    }
  }

  lemma KnownKeepsRows(hs: Hashes, reg: Registry, req: Request, now: int)
    requires !FreshRequest(reg, req)
    ensures IssueEntry(hs, reg, req, now).0.entries == reg.entries
  {
    AnswerKeepsRows(hs, reg, KnownRow(reg, req).value, req, now);
  }

  lemma ServeGrows(hs: Hashes, calls: seq<Call>, clock: int)
    requires calls != [] && Timely(calls, clock)
    ensures Serve(hs, calls[..|calls| - 1]).entries <= Serve(hs, calls).entries
    ensures NoneRevoked(Serve(hs, calls).entries)
  {
    var n := |calls| - 1;
    RunKeepsInv(hs, calls, clock);
    RunKeepsInv(hs, calls[..n], calls[n].now);
    IssueKeepsRows(hs, Serve(hs, calls[..n]), calls[n].req, calls[n].now);
  }

  lemma {:induction false} ActivePrefix(entries: seq<Entry>, longer: seq<Entry>, depth: nat)
    requires entries <= longer && NoneRevoked(longer)
    ensures ListActive(entries, depth) <= ListActive(longer, depth)
    decreases |longer|
  {
    if |entries| < |longer| {
      var n := |longer| - 1;
      ActivePrefix(entries, longer[..n], depth);
    } else {
      assert entries == longer;
    }
  }

  lemma PrefixTreeStays(entries: seq<Entry>, longer: seq<Entry>, depth: nat, n: nat)
    requires entries <= longer && NoneRevoked(longer) && n <= |ListActive(entries, depth)|
    ensures n <= |ListActive(longer, depth)| && PrefixTree(longer, depth, n) == PrefixTree(entries, depth, n)
  {
    ActivePrefix(entries, longer, depth);
    assert ListActive(longer, depth)[..n] == ListActive(entries, depth)[..n];
  }

  lemma SeparateStays(hs: Hashes, entries: seq<Entry>, longer: seq<Entry>)
    requires entries <= longer && NoneRevoked(longer) && Separate(hs, longer)
    ensures Separate(hs, entries)
  {
    forall d: nat, a: nat, b: nat
      ensures PrefixesDoNotCollide(hs, entries, d, a, b)
    {
      if a <= |ListActive(entries, d)| && b <= |ListActive(entries, d)| {
        PrefixTreeStays(entries, longer, d, a);
        PrefixTreeStays(entries, longer, d, b);
        assert PrefixesDoNotCollide(hs, longer, d, a, b);
      }
    }
    forall d: nat, a: nat, e: nat, b: nat
      ensures RootsDiffer(hs, entries, d, a, e, b)
    {
      if a <= |ListActive(entries, d)| && b <= |ListActive(entries, e)| {
        PrefixTreeStays(entries, longer, d, a);
        PrefixTreeStays(entries, longer, e, b);
        assert RootsDiffer(hs, longer, d, a, e, b);
      }
    }
  }

  /** At each depth at most as many identities are asked for as its tree has leaves. */
  ghost predicate WithinCapacity(calls: seq<Call>) {
    && (forall k :: 0 <= k < |calls| ==> 0 < calls[k].req.depth <= MAX_DEPTH)
    && forall d: nat :: HasRoomFor(calls, d)
  }

  ghost predicate HasRoomFor(calls: seq<Call>, d: nat) {
    |IdentitiesAt(calls, d)| <= Pow2(d)
  }

  lemma CapacityBefore(calls: seq<Call>)
    requires calls != [] && WithinCapacity(calls)
    ensures WithinCapacity(calls[..|calls| - 1])
  {
    var n := |calls| - 1;
    forall d: nat
      ensures HasRoomFor(calls[..n], d)
    {
      assert HasRoomFor(calls, d);
      SubsetCount(IdentitiesAt(calls[..n], d), IdentitiesAt(calls, d));
    }
  }

  lemma EmptyIsGood(hs: Hashes, clock: int)
    ensures Good(hs, Registry([], []), clock)
  {
    RunKeepsInv(hs, [], clock);
  }

  lemma LastCallKeepsGood(hs: Hashes, calls: seq<Call>, clock: int)
    requires calls != [] && Timely(calls, clock) && WithinCapacity(calls) && Separate(hs, Serve(hs, calls).entries)
    requires Good(hs, Serve(hs, calls[..|calls| - 1]), calls[|calls| - 1].now)
    ensures Good(hs, Serve(hs, calls), calls[|calls| - 1].now)
    ensures FreshCallLinks(hs, calls, |calls| - 1)
  {
    var n := |calls| - 1;
    var before, call := Serve(hs, calls[..n]), calls[n];
    assert calls[..n + 1] == calls;
    if FreshRequest(before, call.req) {
      FreshRows(hs, before, call.req, call.now);
      StoredWasAsked(hs, calls[..n], call.now, call.req.depth);
      assert HasRoomFor(calls, call.req.depth);
      NewIdentityHasRoom(before, call.req, IdentitiesAt(calls, call.req.depth));
      FreshKeepsGood(hs, before, call.req, call.now, call.now);
    } else {
      KnownChangesNothing(hs, before, call.req, call.now, call.now);
    }
  }

  /** If the k-th call is for a new identity, it was accepted and its path links the roots before and after it. */
  ghost predicate FreshCallLinks(hs: Hashes, calls: seq<Call>, k: nat)
    requires k < |calls|
  {
    FreshRequest(Serve(hs, calls[..k]), calls[k].req) ==>
      && Answered(hs, calls, k).Ok?
      && LinksRoots(hs, Serve(hs, calls[..k]), calls[k].req, Serve(hs, calls[..k + 1]), Answered(hs, calls, k).value)
  }

  ghost predicate AllFreshCallsLink(hs: Hashes, calls: seq<Call>) {
    forall k :: 0 <= k < |calls| ==> FreshCallLinks(hs, calls, k)
  }

  lemma EarlierCall(hs: Hashes, calls: seq<Call>, n: nat, k: nat)
    requires k < n <= |calls| && FreshCallLinks(hs, calls[..n], k)
    ensures FreshCallLinks(hs, calls, k)
  {
    assert calls[..n][..k] == calls[..k] && calls[..n][..k + 1] == calls[..k + 1];
  }

  lemma OneMoreCall(hs: Hashes, calls: seq<Call>)
    requires calls != [] && AllFreshCallsLink(hs, calls[..|calls| - 1]) && FreshCallLinks(hs, calls, |calls| - 1)
    ensures AllFreshCallsLink(hs, calls)
  {
    forall k | 0 <= k < |calls|
      ensures FreshCallLinks(hs, calls, k)
    {
      if k < |calls| - 1 {
        EarlierCall(hs, calls, |calls| - 1, k);
      }
    }
  }

  lemma RunBefore(hs: Hashes, calls: seq<Call>, clock: int)
    requires calls != [] && Timely(calls, clock) && WithinCapacity(calls) && Separate(hs, Serve(hs, calls).entries)
    ensures var n := |calls| - 1;
      && Timely(calls[..n], calls[n].now) && WithinCapacity(calls[..n])
      && Separate(hs, Serve(hs, calls[..n]).entries)
  {
    ServeGrows(hs, calls, clock);
    SeparateStays(hs, Serve(hs, calls[..|calls| - 1]).entries, Serve(hs, calls).entries);
    CapacityBefore(calls);
  }

  /** A sequential run within capacity, whose own trees meet no collision: the latest root of every depth is always
      the root of its active entries, and every new identity is accepted with a path that links consecutive roots. */
  lemma {:induction false} IssuanceWithinCapacity(hs: Hashes, calls: seq<Call>, clock: int)
    requires Timely(calls, clock) && WithinCapacity(calls) && Separate(hs, Serve(hs, calls).entries)
    ensures Good(hs, Serve(hs, calls), clock) && AllFreshCallsLink(hs, calls)
  {
    if calls == [] {
      EmptyIsGood(hs, clock);
    } else {
      var n := |calls| - 1;
      RunBefore(hs, calls, clock);
      IssuanceWithinCapacity(hs, calls[..n], calls[n].now);
      LastCallKeepsGood(hs, calls, clock);
      LaterClock(hs, Serve(hs, calls), calls[n].now, clock);
      OneMoreCall(hs, calls);
    }
  }

  // ---------------------------------------------------------------- roots shared between depths

  /** What a new identity is answered while there is room. */
  lemma FreshOutcome(hs: Hashes, reg: Registry, req: Request, now: int)
    requires WellFormed(reg.entries) && NoneRevoked(reg.entries)
    requires FreshRequest(reg, req) && 0 < req.depth <= MAX_DEPTH
    requires CountAt(reg.entries, req.depth) < Pow2(req.depth)
    ensures var mid := reg.(entries := reg.entries + [NewEntry(reg, req)]);
      var (after, r) := IssueEntry(hs, reg, req, now);
      if UpToDate(hs, mid, req.depth) then after == mid && r.Ok?
      else if RootTaken(reg.roots, TreeRoot(hs, mid.entries, req.depth)) then after == mid && r == Err(UniqueViolation)
      else after == mid.(roots := reg.roots + [NewRoot(hs, mid, req.depth, now)]) && r.Ok?
  {
    FreshRequestBuilds(hs, reg, req, now);
    NewRowBuildableIff(reg, req);
    var e := NewEntry(reg, req);
    BuildOutcome(hs, reg.(entries := reg.entries + [e]), FreshlyIssued, e, now);
  }

  predicate DistinctPeople(a: Request, b: Request) {
    a.identityKeyHash != b.identityKeyHash && a.verifiedIdentityId != b.verifiedIdentityId
  }

  lemma OneRow(e: Entry, d: nat)
    requires !e.revoked && e.leafIndex == 0
    ensures ListActive([e], d) == if e.depth == d then [e] else []
    ensures CountAt([e], d) == if e.depth == d then 1 else 0
    ensures TreeOf([e]) == map[0 := e.commitment]
  {
    TreeGrows([], e);
    assert [] + [e] == [e];
    assert [e][..0] == [];
  }

  /** The new row of an answer with room left, and the root that is stored for it unless it is there already. */
  lemma FirstAtDepth(hs: Hashes, reg: Registry, req: Request, clock: int, now: int)
    requires Inv(hs, reg, clock) && clock <= now && FreshRequest(reg, req) && 0 < req.depth <= MAX_DEPTH
    requires CountAt(reg.entries, req.depth) == 0 && LatestRoot(reg.roots, req.depth) == None
    ensures var root := Root(hs.node, map[0 := req.commitment], req.depth);
      !RootTaken(reg.roots, root) ==>
        IssueEntry(hs, reg, req, now).0
        == Registry(reg.entries + [EntryFor(req, 0)], reg.roots + [RootRow(root, None, req.depth, 1, now)])
  {
    var e := NewEntry(reg, req);
    FreshRequestInserts(reg, req);
    FreshOutcome(hs, reg, req, now);
    ActiveGrows(reg.entries, e, req.depth);
    ActiveCount(reg.entries, req.depth);
    assert ListActive(reg.entries, req.depth) + [e] == [e];
    OneRow(e, req.depth);
  }

  function DeepRoot(hs: Hashes, deep: Request): Hex64 {
    Root(hs.node, map[0 := deep.commitment], 2)
  }

  function LeftRoot(hs: Hashes, left: Request): Hex64 {
    Root(hs.node, map[0 := left.commitment], 1)
  }

  /** The tables after one request at depth two. */
  function AfterDeep(hs: Hashes, deep: Request, now: int): Registry {
    Registry([EntryFor(deep, 0)], [RootRow(DeepRoot(hs, deep), None, 2, 1, now)])
  }

  /** And after another one at depth one. */
  function AfterLeft(hs: Hashes, deep: Request, left: Request, now: int): Registry {
    Registry([EntryFor(deep, 0), EntryFor(left, 0)],
             [RootRow(DeepRoot(hs, deep), None, 2, 1, now), RootRow(LeftRoot(hs, left), None, 1, 1, now)])
  }

  lemma DeepCall(hs: Hashes, deep: Request, now: int)
    requires deep.depth == 2
    ensures IssueEntry(hs, Registry([], []), deep, now).0 == AfterDeep(hs, deep, now)
    ensures Inv(hs, AfterDeep(hs, deep, now), now)
  {
    RunKeepsInv(hs, [], now);
    FirstAtDepth(hs, Registry([], []), deep, now, now);
    IssueKeepsInv(hs, Registry([], []), deep, now, now);
  }

  lemma BeforeLeft(hs: Hashes, deep: Request, left: Request, now: int)
    requires deep.depth == 2 && left.depth == 1 && DistinctPeople(deep, left)
    requires LeftRoot(hs, left) != DeepRoot(hs, deep)
    ensures var first := AfterDeep(hs, deep, now);
      && FreshRequest(first, left) && CountAt(first.entries, 1) == 0
      && LatestRoot(first.roots, 1) == None && !RootTaken(first.roots, LeftRoot(hs, left))
  {
    OneRow(EntryFor(deep, 0), 1);
    assert AfterDeep(hs, deep, now).roots[..0] == [];
  }

  lemma AppendsRow(hs: Hashes, deep: Request, left: Request, now: int)
    ensures var first := AfterDeep(hs, deep, now);
      AfterLeft(hs, deep, left, now)
      == Registry(first.entries + [EntryFor(left, 0)], first.roots + [RootRow(LeftRoot(hs, left), None, 1, 1, now)])
  {
  }

  lemma LeftCall(hs: Hashes, deep: Request, left: Request, now: int)
    requires deep.depth == 2 && left.depth == 1 && DistinctPeople(deep, left)
    requires LeftRoot(hs, left) != DeepRoot(hs, deep)
    ensures IssueEntry(hs, AfterDeep(hs, deep, now), left, now).0 == AfterLeft(hs, deep, left, now)
    ensures Inv(hs, AfterLeft(hs, deep, left, now), now)
  {
    DeepCall(hs, deep, now);
    BeforeLeft(hs, deep, left, now);
    FirstAtDepth(hs, AfterDeep(hs, deep, now), left, now, now);
    AppendsRow(hs, deep, left, now);
    IssueKeepsInv(hs, AfterDeep(hs, deep, now), left, now, now);
  }

  lemma PairTree(hs: Hashes, deep: Request, left: Request, right: Request)
    requires left.depth == right.depth == 1 && deep.depth == 2
    requires left.commitment == Node(hs.node, deep.commitment, ZERO) && right.commitment == Node(hs.node, ZERO, ZERO)
    ensures var entries := [EntryFor(deep, 0), EntryFor(left, 0), EntryFor(right, 1)];
      |ListActive(entries, 1)| == 2 && TreeRoot(hs, entries, 1) == DeepRoot(hs, deep)
  {
    var e, f, g := EntryFor(deep, 0), EntryFor(left, 0), EntryFor(right, 1);
    OneRow(e, 1);
    ActiveGrows([e], f, 1);
    ActiveGrows([e, f], g, 1);
    assert [e] + [f] == [e, f] && [e, f] + [g] == [e, f, g];
    OneRow(f, 1);
    TreeGrows([f], g);
    DepthsCanShareRoots(hs.node, deep.commitment);
  }

  /** Uniqueness over depths refuses a legitimate root, with no collision: somebody at depth two, then somebody at
      depth one whose commitment is the first one's inner node; a third person, whose commitment completes the pair,
      is refused after the row was stored, and the latest root of depth one is not that of its entries. */
  lemma SharedRootRefusesRequest(hs: Hashes, deep: Request, left: Request, right: Request, now: int)
    requires deep.depth == 2 && left.depth == right.depth == 1
    requires DistinctPeople(deep, left) && DistinctPeople(deep, right) && DistinctPeople(left, right)
    requires left.commitment == Node(hs.node, deep.commitment, ZERO) && right.commitment == Node(hs.node, ZERO, ZERO)
    requires LeftRoot(hs, left) != DeepRoot(hs, deep)
    ensures var calls := [Call(deep, now), Call(left, now), Call(right, now)];
      var after := Serve(hs, calls);
      && Answered(hs, calls, 2) == Err(UniqueViolation)
      && after.entries == [EntryFor(deep, 0), EntryFor(left, 0), EntryFor(right, 1)] && !Synced(hs, after, 1)
  {
    var calls := [Call(deep, now), Call(left, now), Call(right, now)];
    DeepCall(hs, deep, now);
    LeftCall(hs, deep, left, now);
    ThreeCalls(hs, calls);
    RightCall(hs, deep, left, right, now);
  }

  lemma ThreeCalls(hs: Hashes, calls: seq<Call>)
    requires |calls| == 3
    ensures Serve(hs, calls[..0]) == Registry([], [])
    ensures Serve(hs, calls[..1]) == IssueEntry(hs, Serve(hs, calls[..0]), calls[0].req, calls[0].now).0
    ensures Serve(hs, calls[..2]) == IssueEntry(hs, Serve(hs, calls[..1]), calls[1].req, calls[1].now).0
    ensures Serve(hs, calls) == IssueEntry(hs, Serve(hs, calls[..2]), calls[2].req, calls[2].now).0
  {
    assert calls[..1][..0] == calls[..0] && calls[..2][..1] == calls[..1];
  }

  lemma RightCall(hs: Hashes, deep: Request, left: Request, right: Request, now: int)
    requires deep.depth == 2 && left.depth == right.depth == 1
    requires DistinctPeople(deep, left) && DistinctPeople(deep, right) && DistinctPeople(left, right)
    requires left.commitment == Node(hs.node, deep.commitment, ZERO) && right.commitment == Node(hs.node, ZERO, ZERO)
    requires LeftRoot(hs, left) != DeepRoot(hs, deep)
    ensures var second := AfterLeft(hs, deep, left, now);
      var after := second.(entries := second.entries + [EntryFor(right, 1)]);
      IssueEntry(hs, second, right, now) == (after, Err(UniqueViolation)) && !Synced(hs, after, 1)
  {
    var second := AfterLeft(hs, deep, left, now);
    LeftCall(hs, deep, left, now);
    BeforeRight(hs, deep, left, right, now);
    PairTree(hs, deep, left, right);
    assert second.entries + [EntryFor(right, 1)] == [EntryFor(deep, 0), EntryFor(left, 0), EntryFor(right, 1)];
    FreshOutcome(hs, second, right, now);
  }

  lemma BeforeRight(hs: Hashes, deep: Request, left: Request, right: Request, now: int)
    requires deep.depth == 2 && left.depth == right.depth == 1
    requires DistinctPeople(deep, right) && DistinctPeople(left, right) && Inv(hs, AfterLeft(hs, deep, left, now), now)
    ensures var second := AfterLeft(hs, deep, left, now);
      && FreshRequest(second, right) && CountAt(second.entries, 1) == 1 && NewEntry(second, right) == EntryFor(right, 1)
      && LatestRoot(second.roots, 1) == Some(RootRow(LeftRoot(hs, left), None, 1, 1, now))
      && RootTaken(second.roots, DeepRoot(hs, deep))
  {
    var second := AfterLeft(hs, deep, left, now);
    OneRow(EntryFor(deep, 0), 1);
    CountGrows([EntryFor(deep, 0)], EntryFor(left, 0), 1);
    assert second.entries == [EntryFor(deep, 0)] + [EntryFor(left, 0)];
    assert FreshRequest(second, right);
    FreshRequestInserts(second, right);
    assert CountAt(second.entries, 1) == 1;
    assert NewEntry(second, right) == EntryFor(right, 1);
    assert second.roots[..1] == [RootRow(DeepRoot(hs, deep), None, 2, 1, now)];
    assert second.roots[..1][..0] == [];
    assert LatestRoot(second.roots[..1], 1) == None;
    assert second.roots[0].root == DeepRoot(hs, deep);
    assert RootTaken(second.roots, DeepRoot(hs, deep));
  }
}
