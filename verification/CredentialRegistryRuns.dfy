/** What holds over whole runs of the registry. */
module CredentialRegistryRuns {
  import opened Prelude
  import opened CredentialRegistry

  // ---------------------------------------------------------------- leaf indices

  function CountAt(entries: seq<Entry>, depth: nat): (n: nat)
    ensures n <= |entries|
  {
    if entries == [] then 0
    else CountAt(entries[..|entries| - 1], depth) + if entries[|entries| - 1].depth == depth then 1 else 0
  }

  /** Rows of a depth, revoked ones included, carry the leaf indices 0, 1, 2, ... in insertion order. */
  ghost predicate Contiguous(entries: seq<Entry>) {
    forall k :: 0 <= k < |entries| ==> NumberedInOrder(entries, k)
  }

  ghost predicate NumberedInOrder(entries: seq<Entry>, k: nat)
    requires k < |entries|
  {
    entries[k].leafIndex == CountAt(entries[..k], entries[k].depth)
  }

  ghost predicate NoClash(entries: seq<Entry>) {
    forall j, k :: 0 <= j < k < |entries| ==> !Clash(entries[j], entries[k])
  }

  ghost predicate WellFormed(entries: seq<Entry>) {
    Contiguous(entries) && NoClash(entries)
  }

  lemma ContiguousPrefix(entries: seq<Entry>, n: nat)
    requires Contiguous(entries) && n <= |entries|
    ensures Contiguous(entries[..n])
  {
    forall k | 0 <= k < n
      ensures NumberedInOrder(entries[..n], k)
    {
      assert NumberedInOrder(entries, k);
      assert entries[..n][..k] == entries[..k];
    }
  }

  lemma AppendContiguous(entries: seq<Entry>, e: Entry)
    requires Contiguous(entries) && e.leafIndex == CountAt(entries, e.depth)
    ensures Contiguous(entries + [e])
  {
    var grown := entries + [e];
    forall k | 0 <= k < |grown|
      ensures NumberedInOrder(grown, k)
    {
      if k < |entries| {
        assert NumberedInOrder(entries, k);
        assert grown[..k] == entries[..k];
      } else {
        assert grown[..k] == entries;
      }
    }
  }

  /** Every index below the count is in use, and none above. */
  lemma {:induction false} IndexInUse(entries: seq<Entry>, depth: nat, i: nat)
    requires Contiguous(entries)
    ensures i < CountAt(entries, depth) <==>
        exists k :: 0 <= k < |entries| && entries[k].depth == depth && entries[k].leafIndex == i
  {
    if entries == [] {
    } else {
      var n := |entries| - 1;
      ContiguousPrefix(entries, n);
      IndexInUse(entries[..n], depth, i);
      assert NumberedInOrder(entries, n);
      if i < CountAt(entries[..n], depth) {
        var k :| 0 <= k < n && entries[..n][k].depth == depth && entries[..n][k].leafIndex == i;
        assert entries[k].depth == depth && entries[k].leafIndex == i;
      }
      if exists k :: 0 <= k < |entries| && entries[k].depth == depth && entries[k].leafIndex == i {
        var k :| 0 <= k < |entries| && entries[k].depth == depth && entries[k].leafIndex == i;
        assert k < n ==> entries[..n][k].depth == depth && entries[..n][k].leafIndex == i;
      }
    }
  }

  ghost predicate AscendingLeaves(rows: seq<Entry>) {
    forall a, b :: 0 <= a < b < |rows| ==> rows[a].leafIndex < rows[b].leafIndex
  }

  ghost predicate ActiveBelow(rows: seq<Entry>, depth: nat, bound: nat) {
    forall a :: 0 <= a < |rows| ==> rows[a].leafIndex < bound && rows[a].depth == depth && !rows[a].revoked
  }

  /** The active rows of a depth come out in ascending order of leaf index. */
  lemma {:induction false} ActiveInLeafOrder(entries: seq<Entry>, depth: nat)
    requires Contiguous(entries)
    ensures AscendingLeaves(ListActive(entries, depth))
    ensures ActiveBelow(ListActive(entries, depth), depth, CountAt(entries, depth))
  {
    if entries == [] {
    } else {
      var n := |entries| - 1;
      ContiguousPrefix(entries, n);
      ActiveInLeafOrder(entries[..n], depth);
      assert NumberedInOrder(entries, n);
    }
  }

  /** The last row stored at the depth, if any, is still active. */
  predicate LastIsActive(entries: seq<Entry>, depth: nat) {
    if entries == [] then true
    else
      var last := entries[|entries| - 1];
      if last.depth == depth then !last.revoked else LastIsActive(entries[..|entries| - 1], depth)
  }

  lemma {:induction false} NextIndexValue(entries: seq<Entry>, depth: nat)
    requires Contiguous(entries)
    ensures var next := NextLeafIndex(ListActive(entries, depth));
      && next <= CountAt(entries, depth)
      && (next == CountAt(entries, depth) <==> LastIsActive(entries, depth))
  {
    if entries == [] {
    } else {
      var n := |entries| - 1;
      var last := entries[n];
      ContiguousPrefix(entries, n);
      NextIndexValue(entries[..n], depth);
      assert NumberedInOrder(entries, n);
      if last.depth == depth && !last.revoked {
        var rows := ListActive(entries[..n], depth);
        assert (rows + [last])[..|rows|] == rows;
      } else {
        assert ListActive(entries, depth) == ListActive(entries[..n], depth);
      }
    }
  }

  /** The proposed index is free exactly when the last row issued at that depth was not revoked:
      the service looks at active rows only, the unique constraint covers revoked rows too. */
  lemma NextIndexIsFreeIff(entries: seq<Entry>, depth: nat)
    requires Contiguous(entries)
    ensures var next := NextLeafIndex(ListActive(entries, depth));
      (forall k :: 0 <= k < |entries| ==> !(entries[k].depth == depth && entries[k].leafIndex == next))
      <==> LastIsActive(entries, depth)
  {
    NextIndexValue(entries, depth);
    IndexInUse(entries, depth, NextLeafIndex(ListActive(entries, depth)));
  }

  // ---------------------------------------------------------------- interleaved requests

  /** How far a request has come: each step is one read or one insert of the database. The rows and the latest
      root are asked for together and arrive in either order. */
  datatype Phase =
    | FindsIdentity(req: Request)
    | FindsVerified(req: Request)
    | ListsForIndex(req: Request)
    | Inserts(req: Request, leafIndex: nat)
    | FindsAgain(req: Request)
    | Builds(status: Status, entry: Entry, active: Option<seq<Entry>>, latest: Option<Option<RootRow>>)
    | Ended(result: Result<Issued, IssueError>)

  datatype System = System(reg: Registry, phases: map<nat, Phase>)

  datatype Step =
    | Start(pid: nat, req: Request)
    | Proceed(pid: nat, now: int)
    | ReadLatestFirst(pid: nat)
    | Revoke(row: nat)

  const EMPTY_SYSTEM := System(Registry([], []), map[])

  function RevokeRow(entries: seq<Entry>, row: nat): seq<Entry> {
    if row < |entries| then entries[row := entries[row].(revoked := true)] else entries
  }

  /** A row that was found answers the request, if it matches. */
  function Matched(existing: Entry, req: Request): Phase {
    match CheckExisting(existing, req)
    case Some(e) => Ended(Err(e))
    case None => Builds(Existing, existing, None, None)
  }

  function Inserted(reg: Registry, req: Request, leafIndex: nat): (Registry, Phase) {
    var entry := EntryFor(req, leafIndex);
    if ClashesWith(reg.entries, entry) then (reg, FindsAgain(req))
    else (reg.(entries := reg.entries + [entry]), Builds(FreshlyIssued, entry, None, None))
  }

  function Build(hs: Hashes, reg: Registry, phase: Phase, now: int): (Registry, Phase)
    requires phase.Builds?
  {
    if phase.active.None? then (reg, phase.(active := Some(ListActive(reg.entries, phase.entry.depth))))
    else if phase.latest.None? then (reg, phase.(latest := Some(LatestRoot(reg.roots, phase.entry.depth))))
    else
      var (after, r) := BuildFrom(hs, reg, phase.status, phase.entry, phase.active.value, phase.latest.value, now);
      (after, Ended(r))
  }

  /** One read or one insert. */
  function Advance(hs: Hashes, reg: Registry, phase: Phase, now: int): (Registry, Phase) {
    match phase
    case FindsIdentity(req) =>
      var found := FindByIdentity(reg.entries, req.identityKeyHash, req.schemaHash);
      (reg, if found.Some? then Matched(found.value, req) else FindsVerified(req))
    case FindsVerified(req) =>
      var found := FindByVerifiedIdentity(reg.entries, req.verifiedIdentityId, req.schemaHash);
      (reg, if found.Some? then Matched(found.value, req) else ListsForIndex(req))
    case ListsForIndex(req) => (reg, Inserts(req, NextLeafIndex(ListActive(reg.entries, req.depth))))
    case Inserts(req, leafIndex) => Inserted(reg, req, leafIndex)
    case FindsAgain(req) =>
      var found := FindByIdentity(reg.entries, req.identityKeyHash, req.schemaHash);
      (reg, if found.Some? then Matched(found.value, req) else Ended(Err(UniqueViolation)))
    case Builds(_, _, _, _) => Build(hs, reg, phase, now)
    case Ended(_) => (reg, phase)
  }

  function Next(hs: Hashes, sys: System, step: Step): System {
    match step
    case Start(pid, req) => if pid in sys.phases then sys else sys.(phases := sys.phases[pid := FindsIdentity(req)])
    case Proceed(pid, now) =>
      if pid !in sys.phases then sys
      else
        var (reg, phase) := Advance(hs, sys.reg, sys.phases[pid], now);
        System(reg, sys.phases[pid := phase])
    case ReadLatestFirst(pid) =>
      if pid in sys.phases && sys.phases[pid].Builds? && sys.phases[pid].latest.None? then
        var phase := sys.phases[pid];
        sys.(phases := sys.phases[pid := phase.(latest := Some(LatestRoot(sys.reg.roots, phase.entry.depth)))])
      else sys
    case Revoke(row) => sys.(reg := sys.reg.(entries := RevokeRow(sys.reg.entries, row)))
  }

  function Run(hs: Hashes, sys: System, steps: seq<Step>): System {
    if steps == [] then sys else Next(hs, Run(hs, sys, steps[..|steps| - 1]), steps[|steps| - 1])
  }

  /** An index that was computed earlier may be stale, but is never ahead of the table. */
  ghost predicate SystemInv(sys: System) {
    && WellFormed(sys.reg.entries)
    && forall pid :: pid in sys.phases ==> IndexNotAhead(sys.reg.entries, sys.phases[pid])
  }

  ghost predicate IndexNotAhead(entries: seq<Entry>, phase: Phase) {
    phase.Inserts? ==> phase.leafIndex <= CountAt(entries, phase.req.depth)
  }

  lemma BuildKeepsRows(hs: Hashes, reg: Registry, status: Status, entry: Entry, now: int)
    ensures BuildResult(hs, reg, status, entry, now).0.entries == reg.entries
  {
  }

  lemma CommitRows(hs: Hashes, reg: Registry, req: Request, leafIndex: nat, now: int)
    ensures var after := Commit(hs, reg, req, leafIndex, now).0.entries;
      after == if ClashesWith(reg.entries, EntryFor(req, leafIndex)) then reg.entries
               else reg.entries + [EntryFor(req, leafIndex)]
  {
    var e := EntryFor(req, leafIndex);
    BuildKeepsRows(hs, reg.(entries := reg.entries + [e]), FreshlyIssued, e, now);
    var existing := FindByIdentity(reg.entries, req.identityKeyHash, req.schemaHash);
    if existing.Some? {
      BuildKeepsRows(hs, reg, Existing, existing.value, now);
    }
  }

  lemma FreshRowIsNext(entries: seq<Entry>, e: Entry)
    requires WellFormed(entries) && e.leafIndex <= CountAt(entries, e.depth)
    requires !ClashesWith(entries, e)
    ensures WellFormed(entries + [e])
  {
    IndexInUse(entries, e.depth, e.leafIndex);
    assert e.leafIndex == CountAt(entries, e.depth);
    AppendContiguous(entries, e);
    AppendNoClash(entries, e);
  }

  lemma AppendNoClash(entries: seq<Entry>, e: Entry)
    requires NoClash(entries) && !ClashesWith(entries, e)
    ensures NoClash(entries + [e])
  {
  }

  lemma CommitKeepsRows(hs: Hashes, reg: Registry, req: Request, leafIndex: nat, now: int)
    requires WellFormed(reg.entries) && leafIndex <= CountAt(reg.entries, req.depth)
    ensures var after := Commit(hs, reg, req, leafIndex, now).0.entries;
      && WellFormed(after)
      && (after == reg.entries || after == reg.entries + [EntryFor(req, leafIndex)])
  {
    CommitRows(hs, reg, req, leafIndex, now);
    if !ClashesWith(reg.entries, EntryFor(req, leafIndex)) {
      FreshRowIsNext(reg.entries, EntryFor(req, leafIndex));
    }
  }

  lemma {:induction false} CountSurvivesRevoke(entries: seq<Entry>, row: nat, depth: nat)
    ensures |RevokeRow(entries, row)| == |entries|
    ensures CountAt(RevokeRow(entries, row), depth) == CountAt(entries, depth)
  {
    if entries == [] {
    } else {
      var n := |entries| - 1;
      assert RevokeRow(entries, row)[..n] == RevokeRow(entries[..n], row);
      CountSurvivesRevoke(entries[..n], row, depth);
    }
  }

  lemma RevokeKeepsRows(entries: seq<Entry>, row: nat)
    requires WellFormed(entries)
    ensures WellFormed(RevokeRow(entries, row))
  {
    var after := RevokeRow(entries, row);
    forall k | 0 <= k < |after|
      ensures NumberedInOrder(after, k)
    {
      assert NumberedInOrder(entries, k);
      assert after[..k] == RevokeRow(entries[..k], row);
      CountSurvivesRevoke(entries[..k], row, entries[k].depth);
    }
    forall j, k | 0 <= j < k < |after|
      ensures !Clash(after[j], after[k])
    {
      assert !Clash(entries[j], entries[k]);
    }
  }

  /** At most one row was added, at the end. */
  predicate GrownByOne(before: seq<Entry>, after: seq<Entry>) {
    before <= after && |after| <= |before| + 1
  }

  lemma AnswerKeepsRows(hs: Hashes, reg: Registry, existing: Entry, req: Request, now: int)
    ensures AnswerExisting(hs, reg, existing, req, now).0.entries == reg.entries
  {
    BuildKeepsRows(hs, reg, Existing, existing, now);
  }

  lemma IssueRows(hs: Hashes, reg: Registry, req: Request, now: int)
    ensures var after := IssueEntry(hs, reg, req, now).0.entries;
      || after == reg.entries
      || after == Commit(hs, reg, req, NextLeafIndex(ListActive(reg.entries, req.depth)), now).0.entries
  {
    var byIdentity := FindByIdentity(reg.entries, req.identityKeyHash, req.schemaHash);
    var byVerified := FindByVerifiedIdentity(reg.entries, req.verifiedIdentityId, req.schemaHash);
    if byIdentity.Some? {
      AnswerKeepsRows(hs, reg, byIdentity.value, req, now);
    } else if byVerified.Some? {
      AnswerKeepsRows(hs, reg, byVerified.value, req, now);
    }
  }

  lemma IssueKeepsRows(hs: Hashes, reg: Registry, req: Request, now: int)
    requires WellFormed(reg.entries)
    ensures var after := IssueEntry(hs, reg, req, now).0.entries;
      WellFormed(after) && GrownByOne(reg.entries, after)
  {
    NextIndexValue(reg.entries, req.depth);
    CommitKeepsRows(hs, reg, req, NextLeafIndex(ListActive(reg.entries, req.depth)), now);
    IssueRows(hs, reg, req, now);
  }

  lemma {:induction false} CountGrows(entries: seq<Entry>, e: Entry, depth: nat)
    ensures CountAt(entries + [e], depth) == CountAt(entries, depth) + if e.depth == depth then 1 else 0
  {
    assert (entries + [e])[..|entries|] == entries;
  }

  lemma AdvanceRows(hs: Hashes, reg: Registry, phase: Phase, now: int)
    requires WellFormed(reg.entries) && IndexNotAhead(reg.entries, phase)
    ensures var (after, next) := Advance(hs, reg, phase, now);
      && WellFormed(after.entries) && GrownByOne(reg.entries, after.entries)
      && IndexNotAhead(after.entries, next)
  {
    match phase
    case ListsForIndex(req) => NextIndexValue(reg.entries, req.depth);
    case Inserts(req, leafIndex) =>
      if !ClashesWith(reg.entries, EntryFor(req, leafIndex)) {
        FreshRowIsNext(reg.entries, EntryFor(req, leafIndex));
      }
    case _ =>
  }

  lemma GrowthKeepsIndices(entries: seq<Entry>, after: seq<Entry>, phase: Phase)
    requires GrownByOne(entries, after) && IndexNotAhead(entries, phase)
    ensures IndexNotAhead(after, phase)
  {
    if phase.Inserts? && after != entries {
      assert after == entries + [after[|entries|]];
      CountGrows(entries, after[|entries|], phase.req.depth);
    }
  }

  lemma ProceedKeepsInv(hs: Hashes, sys: System, pid: nat, now: int)
    requires SystemInv(sys) && pid in sys.phases
    ensures SystemInv(Next(hs, sys, Proceed(pid, now)))
  {
    var after := Next(hs, sys, Proceed(pid, now));
    AdvanceRows(hs, sys.reg, sys.phases[pid], now);
    forall q | q in after.phases
      ensures IndexNotAhead(after.reg.entries, after.phases[q])
    {
      if q != pid {
        GrowthKeepsIndices(sys.reg.entries, after.reg.entries, sys.phases[q]);
      }
    }
  }

  lemma NextKeepsInv(hs: Hashes, sys: System, step: Step)
    requires SystemInv(sys)
    ensures SystemInv(Next(hs, sys, step))
  {
    match step
    case Proceed(pid, now) =>
      if pid in sys.phases {
        ProceedKeepsInv(hs, sys, pid, now);
      }
    case Revoke(row) =>
      RevokeKeepsRows(sys.reg.entries, row);
      forall pid | pid in sys.phases
        ensures IndexNotAhead(RevokeRow(sys.reg.entries, row), sys.phases[pid])
      {
        if sys.phases[pid].Inserts? {
          CountSurvivesRevoke(sys.reg.entries, row, sys.phases[pid].req.depth);
        }
      }
    case _ =>
  }

  /** Under any interleaving of requests and revocations, from empty tables: leaf indices stay
      distinct and gap-free at every depth, and there is one row per identity and schema. */
  lemma {:induction false} RowsStayWellFormed(hs: Hashes, steps: seq<Step>)
    ensures SystemInv(Run(hs, EMPTY_SYSTEM, steps))
  {
    if steps == [] {
    } else {
      RowsStayWellFormed(hs, steps[..|steps| - 1]);
      NextKeepsInv(hs, Run(hs, EMPTY_SYSTEM, steps[..|steps| - 1]), steps[|steps| - 1]);
    }
  }

  /** No two stored rows are for one key and schema, for one verified identity and schema, or for one leaf. */
  lemma RowsAreUnique(hs: Hashes, steps: seq<Step>, j: nat, k: nat)
    requires j < k < |Run(hs, EMPTY_SYSTEM, steps).reg.entries|
    ensures var rows := Run(hs, EMPTY_SYSTEM, steps).reg.entries;
      && (rows[j].schemaHash == rows[k].schemaHash ==>
          && rows[j].identityKeyHash != rows[k].identityKeyHash
          && rows[j].verifiedIdentityId != rows[k].verifiedIdentityId)
      && (rows[j].depth == rows[k].depth ==> rows[j].leafIndex != rows[k].leafIndex)
  {
    RowsStayWellFormed(hs, steps);
    var rows := Run(hs, EMPTY_SYSTEM, steps).reg.entries;
    assert !Clash(rows[j], rows[k]);
  }

  /** Once the last row of a depth is revoked, no new identity can be issued there. */
  lemma RevokedLastRowBlocksIssuance(hs: Hashes, reg: Registry, req: Request, now: int)
    requires WellFormed(reg.entries)
    requires FindByIdentity(reg.entries, req.identityKeyHash, req.schemaHash).None?
    requires FindByVerifiedIdentity(reg.entries, req.verifiedIdentityId, req.schemaHash).None?
    ensures LastIsActive(reg.entries, req.depth) <==> IssueEntry(hs, reg, req, now).0.entries != reg.entries
    ensures !LastIsActive(reg.entries, req.depth) ==> IssueEntry(hs, reg, req, now) == (reg, Err(UniqueViolation))
  {
    var next := NextLeafIndex(ListActive(reg.entries, req.depth));
    var e := EntryFor(req, next);
    NextIndexIsFreeIff(reg.entries, req.depth);
    if LastIsActive(reg.entries, req.depth) {
      forall k | 0 <= k < |reg.entries|
        ensures !Clash(reg.entries[k], e)
      {
        assert reg.entries[k] in reg.entries;
      }
      assert IssueEntry(hs, reg, req, now).0.entries == reg.entries + [e];
    } else {
      var k :| 0 <= k < |reg.entries| && reg.entries[k].depth == req.depth && reg.entries[k].leafIndex == next;
      assert Clash(reg.entries[k], e);
    }
  }
}
