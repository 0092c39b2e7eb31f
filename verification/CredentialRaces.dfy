/** Requests that interleave read by read and insert by insert, without revocation: what the stored roots are, when
    the latest one is that of the rows, and what happens when it is not. */
module CredentialRaces {
  import opened Prelude
  import opened FieldElements
  import opened MerkleTree
  import opened SparseMerkle
  import opened CredentialRegistry
  import opened CredentialRegistryRuns
  import opened CredentialRootRuns
  import opened CredentialIssuance

  // ---------------------------------------------------------------- a request on its own

  function Proceeds(pid: nat, now: int, n: nat): (steps: seq<Step>) {
    if n == 0 then [] else [Proceed(pid, now)] + Proceeds(pid, now, n - 1)
  }

  function Advances(hs: Hashes, reg: Registry, phase: Phase, now: int, n: nat): (Registry, Phase)
    decreases n
  {
    if n == 0 then (reg, phase)
    else
      var (after, next) := Advance(hs, reg, phase, now);
      Advances(hs, after, next, now, n - 1)
  }

  lemma {:induction false} RunSplits(hs: Hashes, sys: System, a: seq<Step>, b: seq<Step>)
    ensures Run(hs, sys, a + b) == Run(hs, Run(hs, sys, a), b)
  {
    if b == [] {
      assert a + b == a;
    } else {
      var n := |b| - 1;
      RunSplits(hs, sys, a, b[..n]);
      assert (a + b)[..|a| + n] == a + b[..n];
    }
  }

  lemma {:induction false} ProceedsAdvance(hs: Hashes, sys: System, pid: nat, now: int, n: nat)
    requires pid in sys.phases
    ensures var (reg, phase) := Advances(hs, sys.reg, sys.phases[pid], now, n);
      Run(hs, sys, Proceeds(pid, now, n)) == System(reg, sys.phases[pid := phase])
    decreases n
  {
    if n == 0 {
      assert sys.phases[pid := sys.phases[pid]] == sys.phases;
    } else {
      var next := Next(hs, sys, Proceed(pid, now));
      RunSplits(hs, sys, [Proceed(pid, now)], Proceeds(pid, now, n - 1));
      OneStep(hs, sys, Proceed(pid, now));
      ProceedsAdvance(hs, next, pid, now, n - 1);
      var (reg, phase) := Advances(hs, next.reg, next.phases[pid], now, n - 1);
      assert next.phases[pid := phase] == sys.phases[pid := phase];
    }
  }

  lemma OneStep(hs: Hashes, sys: System, step: Step)
    ensures Run(hs, sys, [step]) == Next(hs, sys, step)
  {
    assert [step][..0] == [];
  }

  lemma {:induction false} EndedStays(hs: Hashes, reg: Registry, r: Result<Issued, IssueError>, now: int, n: nat)
    ensures Advances(hs, reg, Ended(r), now, n) == (reg, Ended(r))
  {
    if n > 0 {
      EndedStays(hs, reg, r, now, n - 1);
    }
  }

  lemma AdvancesSplit(hs: Hashes, reg: Registry, phase: Phase, now: int, n: nat)
    requires n > 0
    ensures Advances(hs, reg, phase, now, n)
         == Advances(hs, Advance(hs, reg, phase, now).0, Advance(hs, reg, phase, now).1, now, n - 1)
  {
  }

  /** Listing the rows, listing the latest root and storing, with nothing in between, is a build. */
  lemma BuildAlone(hs: Hashes, reg: Registry, status: Status, e: Entry, now: int, n: nat)
    requires n >= 3
    ensures var (after, r) := BuildResult(hs, reg, status, e, now);
      Advances(hs, reg, Builds(status, e, None, None), now, n) == (after, Ended(r))
  {
    var active, latest := ListActive(reg.entries, e.depth), LatestRoot(reg.roots, e.depth);
    var (after, r) := BuildResult(hs, reg, status, e, now);
    AdvancesSplit(hs, reg, Builds(status, e, None, None), now, n);
    AdvancesSplit(hs, reg, Builds(status, e, Some(active), None), now, n - 1);
    AdvancesSplit(hs, reg, Builds(status, e, Some(active), Some(latest)), now, n - 2);
    EndedStays(hs, after, r, now, n - 3);
  }

  lemma MatchAlone(hs: Hashes, reg: Registry, existing: Entry, req: Request, now: int, n: nat)
    requires n >= 3
    ensures var (after, r) := AnswerExisting(hs, reg, existing, req, now);
      Advances(hs, reg, Matched(existing, req), now, n) == (after, Ended(r))
  {
    if CheckExisting(existing, req).Some? {
      EndedStays(hs, reg, Err(CheckExisting(existing, req).value), now, n);
    } else {
      BuildAlone(hs, reg, Existing, existing, now, n);
    }
  }

  lemma InsertAlone(hs: Hashes, reg: Registry, req: Request, leafIndex: nat, now: int)
    requires FindByIdentity(reg.entries, req.identityKeyHash, req.schemaHash).None?
    ensures var (after, r) := Commit(hs, reg, req, leafIndex, now);
      Advances(hs, reg, Inserts(req, leafIndex), now, 4) == (after, Ended(r))
  {
    var e := EntryFor(req, leafIndex);
    AdvancesSplit(hs, reg, Inserts(req, leafIndex), now, 4);
    if ClashesWith(reg.entries, e) {
      AdvancesSplit(hs, reg, FindsAgain(req), now, 3);
      EndedStays(hs, reg, Err(UniqueViolation), now, 2);
    } else {
      BuildAlone(hs, reg.(entries := reg.entries + [e]), FreshlyIssued, e, now, 3);
    }
  }

  lemma RequestAlone(hs: Hashes, reg: Registry, req: Request, now: int)
    ensures var (after, r) := IssueEntry(hs, reg, req, now);
      Advances(hs, reg, FindsIdentity(req), now, 7) == (after, Ended(r))
  {
    var byIdentity := FindByIdentity(reg.entries, req.identityKeyHash, req.schemaHash);
    AdvancesSplit(hs, reg, FindsIdentity(req), now, 7);
    if byIdentity.Some? {
      MatchAlone(hs, reg, byIdentity.value, req, now, 6);
    } else {
      VerifiedAlone(hs, reg, req, now);
    }
  }

  lemma VerifiedAlone(hs: Hashes, reg: Registry, req: Request, now: int)
    requires FindByIdentity(reg.entries, req.identityKeyHash, req.schemaHash).None?
    ensures var (after, r) := IssueEntry(hs, reg, req, now);
      Advances(hs, reg, FindsVerified(req), now, 6) == (after, Ended(r))
  {
    var byVerified := FindByVerifiedIdentity(reg.entries, req.verifiedIdentityId, req.schemaHash);
    AdvancesSplit(hs, reg, FindsVerified(req), now, 6);
    if byVerified.Some? {
      MatchAlone(hs, reg, byVerified.value, req, now, 5);
    } else {
      AdvancesSplit(hs, reg, ListsForIndex(req), now, 5);
      InsertAlone(hs, reg, req, NextLeafIndex(ListActive(reg.entries, req.depth)), now);
    }
  }

  lemma StartedRun(hs: Hashes, sys: System, pid: nat, req: Request, now: int, n: nat)
    requires pid !in sys.phases
    ensures var (after, phase) := Advances(hs, sys.reg, FindsIdentity(req), now, n);
      Run(hs, sys, [Start(pid, req)] + Proceeds(pid, now, n)) == System(after, sys.phases[pid := phase])
  {
    var started := sys.(phases := sys.phases[pid := FindsIdentity(req)]);
    RunSplits(hs, sys, [Start(pid, req)], Proceeds(pid, now, n));
    OneStep(hs, sys, Start(pid, req));
    ProceedsAdvance(hs, started, pid, now, n);
    var phase := Advances(hs, sys.reg, FindsIdentity(req), now, n).1;
    assert started.phases[pid := phase] == sys.phases[pid := phase];
  }

  /** A request that nothing interferes with has the outcome and the tables of IssueEntry, and leaves the other
      requests where they are. */
  lemma AloneIsIssueEntry(hs: Hashes, sys: System, pid: nat, req: Request, now: int)
    requires pid !in sys.phases
    ensures var (after, r) := IssueEntry(hs, sys.reg, req, now);
      Run(hs, sys, [Start(pid, req)] + Proceeds(pid, now, 7)) == System(after, sys.phases[pid := Ended(r)])
  {
    StartedRun(hs, sys, pid, req, now, 7);
    RequestAlone(hs, sys.reg, req, now);
  }

  // ---------------------------------------------------------------- every interleaving

  /** A stored root commits to the first leafCount rows of its depth, which fit the tree. */
  ghost predicate StoredRoot(hs: Hashes, entries: seq<Entry>, row: RootRow) {
    0 < row.depth <= MAX_DEPTH && 0 < row.leafCount <= Pow2(row.depth) && CommitsToPrefix(hs, entries, row)
  }

  /** The predecessor that a root names, if any, is a root stored earlier for its depth. */
  ghost predicate NamesEarlier(roots: seq<RootRow>, k: nat)
    requires k < |roots|
  {
    roots[k].previousRoot.Some? ==> IsStored(roots[..k], roots[k].previousRoot.value, roots[k].depth)
  }

  ghost predicate IsStored(roots: seq<RootRow>, root: Hex64, depth: nat) {
    exists j :: 0 <= j < |roots| && roots[j].root == root && roots[j].depth == depth
  }

  ghost predicate StoredRoots(hs: Hashes, reg: Registry) {
    forall k :: 0 <= k < |reg.roots| ==> StoredRoot(hs, reg.entries, reg.roots[k]) && NamesEarlier(reg.roots, k)
  }

  /** What a request has listed may be old, but was so once. */
  ghost predicate ListingSound(reg: Registry, phase: Phase) {
    phase.Builds? ==>
      && (phase.active.Some? ==> phase.active.value <= ListActive(reg.entries, phase.entry.depth))
      && (phase.latest.Some? && phase.latest.value.Some? ==>
          IsStored(reg.roots, phase.latest.value.value.root, phase.entry.depth))
  }

  ghost predicate RaceInv(hs: Hashes, sys: System) {
    && SystemInv(sys) && NoneRevoked(sys.reg.entries) && StoredRoots(hs, sys.reg)
    && forall pid :: pid in sys.phases ==> ListingSound(sys.reg, sys.phases[pid])
  }

  lemma LatestIsKept(roots: seq<RootRow>, depth: nat)
    ensures LatestRoot(roots, depth).Some? ==> IsStored(roots, LatestRoot(roots, depth).value.root, depth)
  {
    if LatestRoot(roots, depth).Some? {
      LatestIsStored(roots, depth);
      var k :| 0 <= k < |roots| && roots[k] == LatestRoot(roots, depth).value;
    }
  }

  /** The tables grow at their ends. */
  ghost predicate Grown(before: Registry, after: Registry) {
    before.entries <= after.entries && before.roots <= after.roots && NoneRevoked(after.entries)
  }

  lemma StoredStays(roots: seq<RootRow>, more: seq<RootRow>, root: Hex64, depth: nat)
    requires roots <= more && IsStored(roots, root, depth)
    ensures IsStored(more, root, depth)
  {
    var j :| 0 <= j < |roots| && roots[j].root == root && roots[j].depth == depth;
    assert more[j] == roots[j];
  }

  lemma ListingStays(before: Registry, after: Registry, phase: Phase)
    requires Grown(before, after) && ListingSound(before, phase)
    ensures ListingSound(after, phase)
  {
    if phase.Builds? {
      ActivePrefix(before.entries, after.entries, phase.entry.depth);
      if phase.latest.Some? && phase.latest.value.Some? {
        StoredStays(before.roots, after.roots, phase.latest.value.value.root, phase.entry.depth);
      }
    }
  }

  lemma RowsKeepRoots(hs: Hashes, reg: Registry, e: Entry)
    requires StoredRoots(hs, reg) && !e.revoked
    ensures StoredRoots(hs, reg.(entries := reg.entries + [e]))
  {
    forall k | 0 <= k < |reg.roots|
      ensures StoredRoot(hs, reg.entries + [e], reg.roots[k])
    {
      GrowthKeepsPrefixes(hs, reg.entries, e, reg.roots[k]);
    }
  }

  /** The root that a build stores, if any. */
  lemma BuildFromStores(hs: Hashes, reg: Registry, status: Status, e: Entry, active: seq<Entry>,
                        latest: Option<RootRow>, now: int)
    ensures var after := BuildFrom(hs, reg, status, e, active, latest, now).0;
      var row := RootRow(Root(hs.node, LeafMap(LeavesOf(active)), e.depth),
          if latest.Some? then Some(latest.value.root) else None, e.depth, |active|, now);
      after == reg || (after == reg.(roots := reg.roots + [row]) && 0 < e.depth <= MAX_DEPTH
                       && InRange(LeavesOf(active), e.depth) && active != [])
  {
    FirstLeafErrorIsExact(LeavesOf(active), e.depth);
  }

  lemma ListedRootIsStored(hs: Hashes, entries: seq<Entry>, active: seq<Entry>, row: RootRow)
    requires Contiguous(entries) && NoneRevoked(entries) && active <= ListActive(entries, row.depth) && active != []
    requires 0 < row.depth <= MAX_DEPTH && InRange(LeavesOf(active), row.depth)
    requires row.leafCount == |active| && row.root == Root(hs.node, TreeOf(active), row.depth)
    ensures StoredRoot(hs, entries, row)
  {
    var rows := ListActive(entries, row.depth);
    assert rows[..|active|] == active;
    ActivePosition(entries, row.depth, |active| - 1);
    assert LeavesOf(active)[|active| - 1].index == |active| - 1;
  }

  lemma NewRootNames(roots: seq<RootRow>, row: RootRow)
    requires forall k :: 0 <= k < |roots| ==> NamesEarlier(roots, k)
    requires row.previousRoot.Some? ==> IsStored(roots, row.previousRoot.value, row.depth)
    ensures forall k :: 0 <= k < |roots + [row]| ==> NamesEarlier(roots + [row], k)
  {
    forall k | 0 <= k < |roots + [row]|
      ensures NamesEarlier(roots + [row], k)
    {
      assert (roots + [row])[..k] == if k < |roots| then roots[..k] else roots;
      assert k < |roots| ==> NamesEarlier(roots, k);
    }
  }

  lemma StoreKeepsRoots(hs: Hashes, reg: Registry, status: Status, e: Entry, active: seq<Entry>,
                        latest: Option<RootRow>, now: int)
    requires Contiguous(reg.entries) && NoneRevoked(reg.entries) && StoredRoots(hs, reg)
    requires active <= ListActive(reg.entries, e.depth)
    requires latest.Some? ==> IsStored(reg.roots, latest.value.root, e.depth)
    ensures var after := BuildFrom(hs, reg, status, e, active, latest, now).0;
      StoredRoots(hs, after) && Grown(reg, after)
  {
    BuildFromStores(hs, reg, status, e, active, latest, now);
    var after := BuildFrom(hs, reg, status, e, active, latest, now).0;
    if after != reg {
      var row := after.roots[|reg.roots|];
      ListedRootIsStored(hs, reg.entries, active, row);
      NewRootNames(reg.roots, row);
    }
  }

  lemma BuildKeepsRoots(hs: Hashes, reg: Registry, phase: Phase, now: int)
    requires WellFormed(reg.entries) && NoneRevoked(reg.entries) && StoredRoots(hs, reg)
    requires phase.Builds? && ListingSound(reg, phase)
    ensures var (after, next) := Build(hs, reg, phase, now);
      StoredRoots(hs, after) && Grown(reg, after) && ListingSound(after, next)
  {
    LatestIsKept(reg.roots, phase.entry.depth);
    if phase.active.Some? && phase.latest.Some? {
      StoreKeepsRoots(hs, reg, phase.status, phase.entry, phase.active.value, phase.latest.value, now);
    }
  }

  lemma AdvanceKeepsRoots(hs: Hashes, reg: Registry, phase: Phase, now: int)
    requires WellFormed(reg.entries) && NoneRevoked(reg.entries) && StoredRoots(hs, reg) && ListingSound(reg, phase)
    ensures var (after, next) := Advance(hs, reg, phase, now);
      StoredRoots(hs, after) && Grown(reg, after) && ListingSound(after, next)
  {
    match phase
    case Builds(_, _, _, _) => BuildKeepsRoots(hs, reg, phase, now);
    case Inserts(req, leafIndex) => RowsKeepRoots(hs, reg, EntryFor(req, leafIndex));
    case _ =>
  }

  lemma RaceStep(hs: Hashes, sys: System, step: Step)
    requires RaceInv(hs, sys) && !step.Revoke?
    ensures RaceInv(hs, Next(hs, sys, step)) && Grown(sys.reg, Next(hs, sys, step).reg)
  {
    NextKeepsInv(hs, sys, step);
    var after := Next(hs, sys, step);
    match step
    case Proceed(pid, now) =>
      if pid in sys.phases {
        AdvanceKeepsRoots(hs, sys.reg, sys.phases[pid], now);
        forall q | q in after.phases
          ensures ListingSound(after.reg, after.phases[q])
        {
          if q != pid {
            ListingStays(sys.reg, after.reg, sys.phases[q]);
          }
        }
      }
    case ReadLatestFirst(pid) =>
      if pid in sys.phases && sys.phases[pid].Builds? {
        LatestIsKept(sys.reg.roots, sys.phases[pid].entry.depth);
      }
    case _ =>
  }

  ghost predicate WithoutRevocation(steps: seq<Step>) {
    forall k :: 0 <= k < |steps| ==> !steps[k].Revoke?
  }

  /** Whatever interleaves: every stored root commits to the first rows of its depth, as many as it counts, and the
      predecessor it names was stored earlier. */
  lemma {:induction false} RootsCommitToPrefixes(hs: Hashes, steps: seq<Step>)
    requires WithoutRevocation(steps)
    ensures RaceInv(hs, Run(hs, EMPTY_SYSTEM, steps))
  {
    if steps == [] {
    } else {
      RootsCommitToPrefixes(hs, steps[..|steps| - 1]);
      RaceStep(hs, Run(hs, EMPTY_SYSTEM, steps[..|steps| - 1]), steps[|steps| - 1]);
    }
  }

  // ---------------------------------------------------------------- when the latest root is that of the rows

  ghost predicate Numbered(rows: seq<Entry>) {
    forall k :: 0 <= k < |rows| ==> rows[k].leafIndex == k
  }

  lemma {:induction false} LeafOfRows(rows: seq<Entry>, i: nat)
    requires Numbered(rows)
    ensures LeafValue(TreeOf(rows), i) == if i < |rows| then rows[i].commitment else ZERO
  {
    if rows == [] {
      assert TreeOf(rows) == map[];
    } else {
      var init, last := rows[..|rows| - 1], rows[|rows| - 1];
      assert rows == init + [last];
      LeafOfRows(init, i);
      TreeGrows(init, last);
    }
  }

  /** The rows from c on that have a leaf of the tree carry commitments that are zero in the field. */
  predicate OnlyZerosFrom(rows: seq<Entry>, c: nat, depth: nat) {
    forall k :: c <= k < Min(|rows|, Pow2(depth)) ==> SameElement(rows[k].commitment, ZERO)
  }

  lemma PrefixLeavesIff(rows: seq<Entry>, c: nat, depth: nat)
    requires Numbered(rows) && c <= |rows|
    ensures SameLeaves(TreeOf(rows[..c]), TreeOf(rows), 0, Pow2(depth)) <==> OnlyZerosFrom(rows, c, depth)
  {
    forall i: nat
      ensures LeafValue(TreeOf(rows), i) == (if i < |rows| then rows[i].commitment else ZERO)
      ensures LeafValue(TreeOf(rows[..c]), i) == (if i < c then rows[i].commitment else ZERO)
    {
      LeafOfRows(rows, i);
      LeafOfRows(rows[..c], i);
    }
  }

  /** Barring a collision between the two trees. */
  lemma PrefixRootIff(h: Poseidon2, rows: seq<Entry>, c: nat, depth: nat)
    requires Numbered(rows) && c <= |rows| && depth > 0
    requires NoCollisionBetween(h, TreeOf(rows[..c]), TreeOf(rows), depth)
    ensures Root(h, TreeOf(rows[..c]), depth) == Root(h, TreeOf(rows), depth) <==> OnlyZerosFrom(rows, c, depth)
  {
    PrefixLeavesIff(rows, c, depth);
    RootDeterminesLeaves(h, TreeOf(rows[..c]), TreeOf(rows), depth);
  }

  /** The root leaves out no commitment that would show in it. */
  predicate LeavesNothingOut(entries: seq<Entry>, row: RootRow) {
    OnlyZerosFrom(ListActive(entries, row.depth), row.leafCount, row.depth)
  }

  /** A stored root is the root of the present rows exactly if it leaves nothing out. */
  lemma StoredRootIsPresentIff(hs: Hashes, entries: seq<Entry>, row: RootRow)
    requires Contiguous(entries) && NoneRevoked(entries) && StoredRoot(hs, entries, row)
    requires PrefixesDoNotCollide(hs, entries, row.depth, row.leafCount, |ListActive(entries, row.depth)|)
    ensures row.root == TreeRoot(hs, entries, row.depth) <==> LeavesNothingOut(entries, row)
  {
    var rows := ListActive(entries, row.depth);
    RowsAreNumbered(entries, row.depth);
    assert rows[..|rows|] == rows;
    PrefixRootIff(hs.node, rows, row.leafCount, row.depth);
  }

  ghost predicate NonzeroAt(entries: seq<Entry>, depth: nat) {
    forall e :: e in entries && e.depth == depth ==> !SameElement(e.commitment, ZERO)
  }

  /** Where no commitment is zero, that is to count every row that has a leaf. */
  lemma NothingLeftOutIff(hs: Hashes, entries: seq<Entry>, row: RootRow)
    requires NoneRevoked(entries) && StoredRoot(hs, entries, row) && NonzeroAt(entries, row.depth)
    ensures LeavesNothingOut(entries, row) <==> row.leafCount == Min(CountAt(entries, row.depth), Pow2(row.depth))
  {
    var rows := ListActive(entries, row.depth);
    ActiveCount(entries, row.depth);
    if row.leafCount < Min(|rows|, Pow2(row.depth)) {
      ActiveMembers(entries, row.depth, rows[row.leafCount]);
    }
  }

  ghost predicate LatestMeetsNoCollision(hs: Hashes, reg: Registry, depth: nat) {
    var latest := LatestRoot(reg.roots, depth);
    latest.Some? ==> PrefixesDoNotCollide(hs, reg.entries, depth, latest.value.leafCount,
                                          |ListActive(reg.entries, depth)|)
  }

  /** Whatever interleaves, the latest root of a depth is that of its rows if and only if it leaves nothing out: if no
      commitment is zero, if and only if it counts them all. */
  lemma LatestInLineIff(hs: Hashes, steps: seq<Step>, depth: nat)
    requires WithoutRevocation(steps) && LatestMeetsNoCollision(hs, Run(hs, EMPTY_SYSTEM, steps).reg, depth)
    ensures var reg := Run(hs, EMPTY_SYSTEM, steps).reg;
      match LatestRoot(reg.roots, depth)
      case None => Synced(hs, reg, depth) <==> CountAt(reg.entries, depth) == 0
      case Some(row) =>
        && (Synced(hs, reg, depth) <==> LeavesNothingOut(reg.entries, row))
        && (NonzeroAt(reg.entries, depth) ==>
            (Synced(hs, reg, depth) <==> row.leafCount == Min(CountAt(reg.entries, depth), Pow2(depth))))
  {
    var reg := Run(hs, EMPTY_SYSTEM, steps).reg;
    RootsCommitToPrefixes(hs, steps);
    if LatestRoot(reg.roots, depth).Some? {
      LatestIsStored(reg.roots, depth);
      var k :| 0 <= k < |reg.roots| && reg.roots[k] == LatestRoot(reg.roots, depth).value;
      StoredRootIsPresentIff(hs, reg.entries, reg.roots[k]);
      if NonzeroAt(reg.entries, depth) {
        NothingLeftOutIff(hs, reg.entries, reg.roots[k]);
      }
    }
  }

  // ---------------------------------------------------------------- who is answered then

  ghost predicate Reachable(hs: Hashes, reg: Registry) {
    WellFormed(reg.entries) && NoneRevoked(reg.entries) && StoredRoots(hs, reg)
  }

  /** Some stored root of the depth is the root of the present rows. */
  ghost predicate PresentRootStored(reg: Registry, depth: nat) {
    exists k :: 0 <= k < |reg.roots| && reg.roots[k].depth == depth && LeavesNothingOut(reg.entries, reg.roots[k])
  }

  lemma StoredAtSameDepth(hs: Hashes, entries: seq<Entry>, row: RootRow, depth: nat)
    requires StoredRoot(hs, entries, row) && Separate(hs, entries) && ListActive(entries, depth) != []
    requires row.root == TreeRoot(hs, entries, depth)
    ensures row.depth == depth
  {
    var rows := ListActive(entries, depth);
    assert rows[..|rows|] == rows;
    assert RootsDiffer(hs, entries, depth, |rows|, row.depth, row.leafCount);
  }

  lemma PresentRootTakenIff(hs: Hashes, reg: Registry, depth: nat)
    requires Reachable(hs, reg) && Separate(hs, reg.entries) && ListActive(reg.entries, depth) != []
    ensures RootTaken(reg.roots, TreeRoot(hs, reg.entries, depth)) <==> PresentRootStored(reg, depth)
  {
    var n := |ListActive(reg.entries, depth)|;
    forall k | 0 <= k < |reg.roots|
      ensures reg.roots[k].root == TreeRoot(hs, reg.entries, depth)
          <==> reg.roots[k].depth == depth && LeavesNothingOut(reg.entries, reg.roots[k])
    {
      var row := reg.roots[k];
      if row.root == TreeRoot(hs, reg.entries, depth) {
        StoredAtSameDepth(hs, reg.entries, row, depth);
      }
      if row.depth == depth {
        assert PrefixesDoNotCollide(hs, reg.entries, depth, row.leafCount, n);
        StoredRootIsPresentIff(hs, reg.entries, row);
      }
    }
  }

  lemma KnownBuilds(hs: Hashes, reg: Registry, req: Request, now: int)
    requires Reachable(hs, reg) && !FreshRequest(reg, req) && CheckExisting(KnownRow(reg, req).value, req).None?
    requires 0 < req.depth <= MAX_DEPTH && CountAt(reg.entries, req.depth) <= Pow2(req.depth)
    ensures var e := KnownRow(reg, req).value;
      Buildable(reg, e) && e.depth == req.depth
      && IssueEntry(hs, reg, req, now) == BuildResult(hs, reg, Existing, e, now)
  {
    var e := KnownRow(reg, req).value;
    LeavesFitIff(reg.entries, req.depth);
    ActiveIsListed(reg.entries, e);
  }

  /** After any interleaving, a repeated request is refused exactly if the root of the present rows is stored but is
      not the latest one; it answers with its row otherwise. */
  lemma RepeatRefusedIff(hs: Hashes, steps: seq<Step>, req: Request, now: int)
    requires WithoutRevocation(steps) && Separate(hs, Run(hs, EMPTY_SYSTEM, steps).reg.entries)
    requires var reg := Run(hs, EMPTY_SYSTEM, steps).reg;
      && !FreshRequest(reg, req) && CheckExisting(KnownRow(reg, req).value, req).None?
      && 0 < req.depth <= MAX_DEPTH && CountAt(reg.entries, req.depth) <= Pow2(req.depth)
    ensures var reg := Run(hs, EMPTY_SYSTEM, steps).reg;
      var (after, r) := IssueEntry(hs, reg, req, now);
      if PresentRootStored(reg, req.depth) && !Synced(hs, reg, req.depth) then after == reg && r == Err(UniqueViolation)
      else r.Ok? && r.value.entry == KnownRow(reg, req).value
  {
    var reg := Run(hs, EMPTY_SYSTEM, steps).reg;
    RootsCommitToPrefixes(hs, steps);
    RepeatOutcome(hs, reg, req, now);
  }

  lemma RepeatOutcome(hs: Hashes, reg: Registry, req: Request, now: int)
    requires Reachable(hs, reg) && Separate(hs, reg.entries)
    requires !FreshRequest(reg, req) && CheckExisting(KnownRow(reg, req).value, req).None?
    requires 0 < req.depth <= MAX_DEPTH && CountAt(reg.entries, req.depth) <= Pow2(req.depth)
    ensures var (after, r) := IssueEntry(hs, reg, req, now);
      if PresentRootStored(reg, req.depth) && !Synced(hs, reg, req.depth) then after == reg && r == Err(UniqueViolation)
      else r.Ok? && r.value.entry == KnownRow(reg, req).value
  {
    var e := KnownRow(reg, req).value;
    KnownBuilds(hs, reg, req, now);
    RowIsCounted(reg.entries, e);
    PresentRootTakenIff(hs, reg, req.depth);
    BuildOutcome(hs, reg, Existing, e, now);
  }

  function ServeFrom(hs: Hashes, reg: Registry, calls: seq<Call>): Registry {
    if calls == [] then reg
    else
      var last := calls[|calls| - 1];
      IssueEntry(hs, ServeFrom(hs, reg, calls[..|calls| - 1]), last.req, last.now).0
  }

  /** The root of the present rows is stored, but another one is the latest. */
  predicate Stale(hs: Hashes, reg: Registry, depth: nat) {
    !UpToDate(hs, reg, depth) && RootTaken(reg.roots, TreeRoot(hs, reg.entries, depth))
  }

  lemma StaleRefuses(hs: Hashes, reg: Registry, req: Request, now: int)
    requires Stale(hs, reg, req.depth) && !FreshRequest(reg, req)
    ensures IssueEntry(hs, reg, req, now).0 == reg && IssueEntry(hs, reg, req, now).1.Err?
  {
    BuildStoresAtMostOneRoot(hs, reg, Existing, KnownRow(reg, req).value, now);
  }

  /** Every build for a row of that depth is refused, and changes nothing. */
  lemma StaleBuildRefused(hs: Hashes, reg: Registry, status: Status, e: Entry, now: int)
    requires Stale(hs, reg, e.depth) && Buildable(reg, e)
    ensures BuildResult(hs, reg, status, e, now) == (reg, Err(UniqueViolation))
  {
    BuildOutcome(hs, reg, status, e, now);
  }

  ghost predicate NobodyNew(reg: Registry, depth: nat, calls: seq<Call>) {
    forall k :: 0 <= k < |calls| ==> calls[k].req.depth == depth && !FreshRequest(reg, calls[k].req)
  }

  lemma {:induction false} StaleStays(hs: Hashes, reg: Registry, depth: nat, calls: seq<Call>)
    requires Stale(hs, reg, depth) && NobodyNew(reg, depth, calls)
    ensures ServeFrom(hs, reg, calls) == reg
  {
    if calls != [] {
      var n := |calls| - 1;
      StaleStays(hs, reg, depth, calls[..n]);
      StaleRefuses(hs, reg, calls[n].req, calls[n].now);
    }
  }

  /** A depth in that state stays so: as long as nobody new comes, every request is refused and changes nothing. */
  lemma StaleUntilSomebodyNew(hs: Hashes, reg: Registry, calls: seq<Call>, req: Request, now: int)
    requires Stale(hs, reg, req.depth) && NobodyNew(reg, req.depth, calls) && !FreshRequest(reg, req)
    ensures var before := ServeFrom(hs, reg, calls);
      before == reg && IssueEntry(hs, before, req, now).0 == reg && IssueEntry(hs, before, req, now).1.Err?
  {
    StaleStays(hs, reg, req.depth, calls);
    StaleRefuses(hs, reg, req, now);
  }

  /** The clocks of the steps so far. */
  ghost predicate NotAfter(steps: seq<Step>, clock: int) {
    forall k :: 0 <= k < |steps| && steps[k].Proceed? ==> steps[k].now <= clock
  }

  ghost predicate StoredBy(roots: seq<RootRow>, clock: int) {
    forall k :: 0 <= k < |roots| ==> roots[k].createdAt <= clock
  }

  lemma StepClock(hs: Hashes, sys: System, step: Step, clock: int)
    requires StoredBy(sys.reg.roots, clock) && (step.Proceed? ==> step.now <= clock)
    ensures StoredBy(Next(hs, sys, step).reg.roots, clock)
  {
    if step.Proceed? && step.pid in sys.phases {
      var phase := sys.phases[step.pid];
      if phase.Builds? && phase.active.Some? && phase.latest.Some? {
        BuildFromStores(hs, sys.reg, phase.status, phase.entry, phase.active.value, phase.latest.value, step.now);
      }
    }
  }

  lemma {:induction false} RootsAreNotLater(hs: Hashes, steps: seq<Step>, clock: int)
    requires NotAfter(steps, clock)
    ensures StoredBy(Run(hs, EMPTY_SYSTEM, steps).reg.roots, clock)
  {
    if steps != [] {
      RootsAreNotLater(hs, steps[..|steps| - 1], clock);
      StepClock(hs, Run(hs, EMPTY_SYSTEM, steps[..|steps| - 1]), steps[|steps| - 1], clock);
    }
  }

  /** No root stored so far is that of a tree with one more nonzero commitment. */
  lemma NewRootIsNotTaken(hs: Hashes, reg: Registry, e: Entry)
    requires Reachable(hs, reg) && !e.revoked && e.leafIndex == CountAt(reg.entries, e.depth) < Pow2(e.depth)
    requires Contiguous(reg.entries + [e]) && Separate(hs, reg.entries + [e]) && !SameElement(e.commitment, ZERO)
    ensures !RootTaken(reg.roots, TreeRoot(hs, reg.entries + [e], e.depth))
  {
    var grown := reg.entries + [e];
    ActiveGrows(reg.entries, e, e.depth);
    ActiveCount(reg.entries, e.depth);
    var rows := ListActive(grown, e.depth);
    assert rows[|rows| - 1] == e;
    forall k | 0 <= k < |reg.roots|
      ensures reg.roots[k].root != TreeRoot(hs, grown, e.depth)
    {
      var row := reg.roots[k];
      GrowthKeepsPrefixes(hs, reg.entries, e, row);
      if row.root == TreeRoot(hs, grown, e.depth) {
        StoredAtSameDepth(hs, grown, row, e.depth);
        assert PrefixesDoNotCollide(hs, grown, e.depth, row.leafCount, |rows|);
        StoredRootIsPresentIff(hs, grown, row);
      }
    }
  }

  /** After any interleaving, somebody new with a nonzero commitment is accepted if and only if there is room, and then
      the latest root is that of the rows again. */
  lemma SomebodyNewRecovers(hs: Hashes, steps: seq<Step>, req: Request, now: int)
    requires WithoutRevocation(steps) && NotAfter(steps, now) && !SameElement(req.commitment, ZERO)
    requires 0 < req.depth <= MAX_DEPTH
    requires var reg := Run(hs, EMPTY_SYSTEM, steps).reg;
      FreshRequest(reg, req) && Separate(hs, reg.entries + [NewEntry(reg, req)])
    ensures var reg := Run(hs, EMPTY_SYSTEM, steps).reg;
      var (after, r) := IssueEntry(hs, reg, req, now);
      && (r.Ok? <==> CountAt(reg.entries, req.depth) < Pow2(req.depth))
      && (r.Ok? ==> Synced(hs, after, req.depth))
  {
    var reg := Run(hs, EMPTY_SYSTEM, steps).reg;
    RootsCommitToPrefixes(hs, steps);
    RootsAreNotLater(hs, steps, now);
    FreshRequestAcceptedIff(hs, reg, req, now);
    FreshRequestInserts(reg, req);
    FreshRowIsNext(reg.entries, NewEntry(reg, req));
    if CountAt(reg.entries, req.depth) < Pow2(req.depth) {
      NewRootIsNotTaken(hs, reg, NewEntry(reg, req));
      IssueSyncs(hs, reg, req, now, now);
    }
  }

  // ---------------------------------------------------------------- an older root stored last

  /** The first six steps of somebody new: two lookups, the index, the insert and the two reads. */
  lemma ListedAlone(hs: Hashes, reg: Registry, req: Request, now: int)
    requires WellFormed(reg.entries) && NoneRevoked(reg.entries) && FreshRequest(reg, req)
    ensures var e := NewEntry(reg, req);
      var after := reg.(entries := reg.entries + [e]);
      Advances(hs, reg, FindsIdentity(req), now, 6)
      == (after, Builds(FreshlyIssued, e, Some(ListActive(after.entries, req.depth)),
                        Some(LatestRoot(reg.roots, req.depth))))
  {
    var e := NewEntry(reg, req);
    var after := reg.(entries := reg.entries + [e]);
    FreshRequestInserts(reg, req);
    AdvancesSplit(hs, reg, FindsIdentity(req), now, 6);
    AdvancesSplit(hs, reg, FindsVerified(req), now, 5);
    AdvancesSplit(hs, reg, ListsForIndex(req), now, 4);
    AdvancesSplit(hs, reg, Inserts(req, e.leafIndex), now, 3);
    ReadsAlone(hs, after, e, now);
  }

  lemma ReadsAlone(hs: Hashes, reg: Registry, e: Entry, now: int)
    ensures Advances(hs, reg, Builds(FreshlyIssued, e, None, None), now, 2)
        == (reg, Builds(FreshlyIssued, e, Some(ListActive(reg.entries, e.depth)),
                        Some(LatestRoot(reg.roots, e.depth))))
  {
    AdvancesSplit(hs, reg, Builds(FreshlyIssued, e, None, None), now, 2);
    AdvancesSplit(hs, reg, Builds(FreshlyIssued, e, Some(ListActive(reg.entries, e.depth)), None), now, 1);
  }

  /** The first one has stored a row and listed the tree when the second one is served; then the first one stores
      the root of what was listed. */
  function RaceSteps(first: Request, second: Request, between: int, last: int): seq<Step> {
    ([Start(0, first)] + Proceeds(0, between, 6)) + ([Start(1, second)] + Proceeds(1, between, 7)) + [Proceed(0, last)]
  }

  function FirstRoot(hs: Hashes, first: Request): Hex64 {
    Root(hs.node, map[0 := first.commitment], first.depth)
  }

  function BothRoot(hs: Hashes, first: Request, second: Request): Hex64 {
    Root(hs.node, map[0 := first.commitment, 1 := second.commitment], first.depth)
  }

  predicate TwoNewcomers(first: Request, second: Request) {
    0 < first.depth == second.depth <= MAX_DEPTH && DistinctPeople(first, second)
  }

  function HasListed(first: Request): Phase {
    Builds(FreshlyIssued, EntryFor(first, 0), Some([EntryFor(first, 0)]), Some(None))
  }

  lemma ListedRun(hs: Hashes, sys: System, pid: nat, req: Request, now: int)
    requires WellFormed(sys.reg.entries) && NoneRevoked(sys.reg.entries) && FreshRequest(sys.reg, req)
    requires pid !in sys.phases
    ensures var e := NewEntry(sys.reg, req);
      var after := sys.reg.(entries := sys.reg.entries + [e]);
      Run(hs, sys, [Start(pid, req)] + Proceeds(pid, now, 6))
      == System(after, sys.phases[pid := Builds(FreshlyIssued, e, Some(ListActive(after.entries, req.depth)),
                                                Some(LatestRoot(sys.reg.roots, req.depth)))])
  {
    StartedRun(hs, sys, pid, req, now, 6);
    ListedAlone(hs, sys.reg, req, now);
  }

  lemma FirstHasListed(hs: Hashes, first: Request, now: int)
    ensures Run(hs, EMPTY_SYSTEM, [Start(0, first)] + Proceeds(0, now, 6))
         == System(Registry([EntryFor(first, 0)], []), map[0 := HasListed(first)])
  {
    var e := EntryFor(first, 0);
    ListedRun(hs, EMPTY_SYSTEM, 0, first, now);
    assert NewEntry(Registry([], []), first) == e;
    assert [] + [e] == [e];
    OneRow(e, first.depth);
  }

  lemma TwoRows(hs: Hashes, first: Request, second: Request)
    requires TwoNewcomers(first, second)
    ensures var d, e, f := first.depth, EntryFor(first, 0), EntryFor(second, 1);
      && ListActive([e, f], d) == [e, f] && TreeRoot(hs, [e, f], d) == BothRoot(hs, first, second)
      && CountAt([e], d) == 1 && ListActive([e], d) == [e] && TreeRoot(hs, [e], d) == FirstRoot(hs, first)
  {
    var d, e, f := first.depth, EntryFor(first, 0), EntryFor(second, 1);
    OneRow(e, d);
    ActiveGrows([e], f, d);
    TreeGrows([e], f);
    assert [e] + [f] == [e, f];
  }

  lemma OneRowIsWellFormed(e: Entry)
    requires !e.revoked && e.leafIndex == 0
    ensures WellFormed([e]) && NoneRevoked([e])
  {
    assert NumberedInOrder([e], 0);
  }

  lemma SecondIsFresh(first: Request, second: Request)
    requires TwoNewcomers(first, second)
    ensures var reg := Registry([EntryFor(first, 0)], []);
      FreshRequest(reg, second) && NewEntry(reg, second) == EntryFor(second, 1)
  {
    var e := EntryFor(first, 0);
    OneRow(e, first.depth);
    OneRowIsWellFormed(e);
    assert [e][1..] == [];
    FreshRequestInserts(Registry([e], []), second);
  }

  /** The second request has been served, the first has not stored its root. */
  function BeforeLast(hs: Hashes, first: Request, second: Request, between: int): Registry {
    Registry([EntryFor(first, 0), EntryFor(second, 1)],
             [RootRow(BothRoot(hs, first, second), None, first.depth, 2, between)])
  }

  lemma SecondServed(hs: Hashes, first: Request, second: Request, now: int)
    requires TwoNewcomers(first, second)
    ensures var (after, r) := IssueEntry(hs, Registry([EntryFor(first, 0)], []), second, now);
      r.Ok? && after == BeforeLast(hs, first, second, now)
  {
    var e, f := EntryFor(first, 0), EntryFor(second, 1);
    var reg := Registry([e], []);
    OneRowIsWellFormed(e);
    SecondIsFresh(first, second);
    TwoRows(hs, first, second);
    FreshOutcome(hs, reg, second, now);
    assert [e] + [f] == [e, f];
  }

  function AfterRace(hs: Hashes, first: Request, second: Request, between: int, last: int): Registry {
    Registry([EntryFor(first, 0), EntryFor(second, 1)],
             [RootRow(BothRoot(hs, first, second), None, first.depth, 2, between),
              RootRow(FirstRoot(hs, first), None, first.depth, 1, last)])
  }

  /** Storing a root that is not there yet, from a listing that knew of no root. */
  lemma StoresFirstRoot(hs: Hashes, listed: Registry, reg: Registry, status: Status, e: Entry, now: int)
    requires Buildable(listed, e) && !RootTaken(reg.roots, TreeRoot(hs, listed.entries, e.depth))
    ensures var active := ListActive(listed.entries, e.depth);
      var (after, r) := BuildFrom(hs, reg, status, e, active, None, now);
      r.Ok? && after == reg.(roots := reg.roots
                             + [RootRow(TreeRoot(hs, listed.entries, e.depth), None, e.depth, |active|, now)])
  {
    MaterialOfEntry(hs, listed, e);
  }

  lemma FirstStores(hs: Hashes, first: Request, second: Request, between: int, last: int)
    requires TwoNewcomers(first, second) && FirstRoot(hs, first) != BothRoot(hs, first, second)
    ensures var (after, r) := BuildFrom(hs, BeforeLast(hs, first, second, between), FreshlyIssued, EntryFor(first, 0),
                                        [EntryFor(first, 0)], None, last);
      after == AfterRace(hs, first, second, between, last) && r.Ok?
  {
    var e := EntryFor(first, 0);
    TwoRows(hs, first, second);
    OneRowIsWellFormed(e);
    LeavesFitIff([e], first.depth);
    StoresFirstRoot(hs, Registry([e], []), BeforeLast(hs, first, second, between), FreshlyIssued, e, last);
  }

  lemma AfterRaceFacts(hs: Hashes, first: Request, second: Request, between: int, last: int)
    requires TwoNewcomers(first, second) && FirstRoot(hs, first) != BothRoot(hs, first, second)
    ensures var reg := AfterRace(hs, first, second, between, last);
      && (Synced(hs, reg, first.depth) <==> last <= between)
      && (between < last ==> Stale(hs, reg, first.depth))
  {
    var reg := AfterRace(hs, first, second, between, last);
    TwoRows(hs, first, second);
    assert reg.roots[..1] == [reg.roots[0]] && reg.roots[..1][..0] == [];
    assert LatestRoot(reg.roots[..1], first.depth) == Some(reg.roots[0]);
    assert reg.roots[0].root == TreeRoot(hs, reg.entries, first.depth);
  }

  lemma BothRowsBuildable(hs: Hashes, first: Request, second: Request, between: int, last: int)
    requires TwoNewcomers(first, second)
    ensures var reg := AfterRace(hs, first, second, between, last);
      Buildable(reg, EntryFor(first, 0)) && Buildable(reg, EntryFor(second, 1))
  {
    TwoRows(hs, first, second);
    assert Pow2(first.depth) == 2 * Pow2(first.depth - 1) >= 2;
  }

  lemma BothAreFound(first: Request, second: Request)
    requires TwoNewcomers(first, second)
    ensures var e, f := EntryFor(first, 0), EntryFor(second, 1);
      && FindByIdentity([e, f], first.identityKeyHash, first.schemaHash) == Some(e)
      && FindByIdentity([e, f], second.identityKeyHash, second.schemaHash) == Some(f)
  {
    assert [EntryFor(first, 0), EntryFor(second, 1)][1..] == [EntryFor(second, 1)];
  }

  lemma NeitherCanRepeat(hs: Hashes, first: Request, second: Request, between: int, last: int, later: int)
    requires TwoNewcomers(first, second) && FirstRoot(hs, first) != BothRoot(hs, first, second) && between < last
    ensures var reg := AfterRace(hs, first, second, between, last);
      && IssueEntry(hs, reg, first, later) == (reg, Err(UniqueViolation))
      && IssueEntry(hs, reg, second, later) == (reg, Err(UniqueViolation))
  {
    var reg := AfterRace(hs, first, second, between, last);
    AfterRaceFacts(hs, first, second, between, last);
    BothRowsBuildable(hs, first, second, between, last);
    BothAreFound(first, second);
    StaleRepeatRefused(hs, reg, first, EntryFor(first, 0), later);
    StaleRepeatRefused(hs, reg, second, EntryFor(second, 1), later);
  }

  lemma StaleRepeatRefused(hs: Hashes, reg: Registry, req: Request, e: Entry, now: int)
    requires Stale(hs, reg, req.depth) && Buildable(reg, e) && e == EntryFor(req, e.leafIndex)
    requires FindByIdentity(reg.entries, req.identityKeyHash, req.schemaHash) == Some(e)
    ensures IssueEntry(hs, reg, req, now) == (reg, Err(UniqueViolation))
  {
    StaleBuildRefused(hs, reg, Existing, e, now);
  }

  lemma BothButTheRoot(hs: Hashes, first: Request, second: Request, between: int, last: int)
    requires TwoNewcomers(first, second)
    ensures var r := IssueEntry(hs, Registry([EntryFor(first, 0)], []), second, between).1;
      && r.Ok? && Run(hs, EMPTY_SYSTEM, RaceSteps(first, second, between, last))
      == Next(hs, System(BeforeLast(hs, first, second, between), map[0 := HasListed(first), 1 := Ended(r)]),
              Proceed(0, last))
  {
    var sys := System(Registry([EntryFor(first, 0)], []), map[0 := HasListed(first)]);
    var a, b := [Start(0, first)] + Proceeds(0, between, 6), [Start(1, second)] + Proceeds(1, between, 7);
    FirstHasListed(hs, first, between);
    RunSplits(hs, EMPTY_SYSTEM, a, b);
    AloneIsIssueEntry(hs, sys, 1, second, between);
    SecondServed(hs, first, second, between);
    RunSplits(hs, EMPTY_SYSTEM, a + b, [Proceed(0, last)]);
    OneStep(hs, Run(hs, EMPTY_SYSTEM, a + b), Proceed(0, last));
  }

  lemma LastStep(hs: Hashes, first: Request, second: Request, between: int, last: int, r: Result<Issued, IssueError>)
    requires TwoNewcomers(first, second) && FirstRoot(hs, first) != BothRoot(hs, first, second) && r.Ok?
    ensures var end := Next(hs, System(BeforeLast(hs, first, second, between),
                                       map[0 := HasListed(first), 1 := Ended(r)]), Proceed(0, last));
      end.reg == AfterRace(hs, first, second, between, last) && BothAccepted(end.phases)
  {
    FirstStores(hs, first, second, between, last);
  }

  predicate BothAccepted(phases: map<nat, Phase>) {
    forall pid :: 0 <= pid < 2 ==> pid in phases && phases[pid].Ended? && phases[pid].result.Ok?
  }

  /** Two newcomers at once: both are accepted, but the root of the smaller tree is stored last, with the same (no)
      predecessor as the other. If its clock is later, it is the latest root, the depth is out of line, and neither of
      the two can repeat the request. */
  lemma OlderRootStoredLast(hs: Hashes, first: Request, second: Request, between: int, last: int, later: int)
    requires TwoNewcomers(first, second) && FirstRoot(hs, first) != BothRoot(hs, first, second)
    ensures var end := Run(hs, EMPTY_SYSTEM, RaceSteps(first, second, between, last));
      && BothAccepted(end.phases) && end.reg == AfterRace(hs, first, second, between, last)
      && (Synced(hs, end.reg, first.depth) <==> last <= between)
      && (between < last ==>
          && IssueEntry(hs, end.reg, first, later) == (end.reg, Err(UniqueViolation))
          && IssueEntry(hs, end.reg, second, later) == (end.reg, Err(UniqueViolation)))
  {
    BothButTheRoot(hs, first, second, between, last);
    LastStep(hs, first, second, between, last,
        IssueEntry(hs, Registry([EntryFor(first, 0)], []), second, between).1);
    AfterRaceFacts(hs, first, second, between, last);
    if between < last {
      NeitherCanRepeat(hs, first, second, between, last, later);
    }
  }
}
