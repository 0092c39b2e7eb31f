/** Concurrent appenders on the audit table: each reads the head of its stream, hashes its event and asks
    the database to append if the head is still the same, and tries a second time if it is not.
    A row's author, and the lengths kept with a call, are records for the proofs. */
module AuditAppend {
  import opened Prelude
  import opened Text
  import opened AuditChain

  datatype Row = Row(stream: string, sequence: nat, event: Hashed, author: nat)

  /** streamId is the caller's, or "global" when the caller gave none. */
  datatype Call = Call(streamId: string, supplied: Option<string>, event: EventInput)

  datatype RpcError = StaleTail | NotGenesis | DuplicateHash

  datatype CallError = InEvent(error: AuditError) | InAppend(cause: RpcError)

  function DropSpaces(s: string): string {
    if s != "" && s[0] == ' ' then DropSpaces(s[1..])
    else if s != "" && s[|s| - 1] == ' ' then DropSpaces(s[..|s| - 1])
    else s
  }

  /** The stream the append function writes to: the name without outer spaces, "global" if nothing is left. */
  function StreamOf(streamId: string): string {
    if DropSpaces(streamId) == "" then "global" else DropSpaces(streamId)
  }

  /** Names on which the reader and the append function agree. */
  predicate Clean(streamId: string) {
    StreamOf(streamId) == streamId
  }

  lemma {:induction false} DropSpacesTwice(s: string)
    ensures DropSpaces(DropSpaces(s)) == DropSpaces(s)
    decreases |s|
  {
    if s != "" && s[0] == ' ' {
      DropSpacesTwice(s[1..]);
    } else if s != "" && s[|s| - 1] == ' ' {
      DropSpacesTwice(s[..|s| - 1]);
    }
  }

  /** What is left of a name has no space at either end, and only spaces were dropped. */
  lemma {:induction false} OnlySpacesDropped(s: string) returns (before: nat, after: nat)
    ensures s == Repeat(' ', before) + DropSpaces(s) + Repeat(' ', after)
    ensures DropSpaces(s) != "" ==> DropSpaces(s)[0] != ' ' && DropSpaces(s)[|DropSpaces(s)| - 1] != ' '
    decreases |s|
  {
    if s != "" && s[0] == ' ' {
      before, after := OnlySpacesDropped(s[1..]);
      before := before + 1;
    } else if s != "" && s[|s| - 1] == ' ' {
      before, after := OnlySpacesDropped(s[..|s| - 1]);
      after := after + 1;
    } else {
      before, after := 0, 0;
    }
  }

  /** The stream a name stands for: "global" for nothing but spaces, and otherwise the name without outer spaces. */
  lemma StreamIs(streamId: string) returns (before: nat, after: nat)
    ensures
      if streamId == Repeat(' ', |streamId|) then StreamOf(streamId) == "global"
      else
        && streamId == Repeat(' ', before) + StreamOf(streamId) + Repeat(' ', after)
        && StreamOf(streamId) != "" && StreamOf(streamId)[0] != ' '
        && StreamOf(streamId)[|StreamOf(streamId)| - 1] != ' '
  {
    before, after := OnlySpacesDropped(streamId);
    if DropSpaces(streamId) != "" {
      assert streamId[before] == DropSpaces(streamId)[0];
    }
    if DropSpaces(streamId) == "" {
      assert streamId == Repeat(' ', before) + Repeat(' ', after);
      assert forall k :: 0 <= k < |streamId| ==> streamId[k] == ' ';
      assert streamId == Repeat(' ', |streamId|);
    }
  }

  lemma StoredNamesAreClean(streamId: string)
    ensures Clean(StreamOf(streamId))
  {
    DropSpacesTwice(streamId);
  }

  function EventsOf(rows: seq<Row>, stream: string): seq<Hashed> {
    if rows == [] then []
    else
      var last := rows[|rows| - 1];
      EventsOf(rows[..|rows| - 1], stream) + if last.stream == stream then [last.event] else []
  }

  /** The newest row of a stream; sequence numbers follow insertion order (see TableInv). */
  function LastRow(rows: seq<Row>, stream: string): (r: Option<Row>)
    ensures r.Some? ==> r.value in rows && r.value.stream == stream
  {
    if rows == [] then None
    else if rows[|rows| - 1].stream == stream then Some(rows[|rows| - 1])
    else LastRow(rows[..|rows| - 1], stream)
  }

  predicate HashTaken(rows: seq<Row>, hash: Digest) {
    exists k :: 0 <= k < |rows| && rows[k].event.eventHash == hash
  }

  /** append_backend_audit_event, which holds the stream's lock: compare the tail, then insert. */
  function Rpc(rows: seq<Row>, streamId: string, hashed: Hashed, author: nat): Result<Row, RpcError> {
    var stream := StreamOf(streamId);
    var last := LastRow(rows, stream);
    if last.Some? && last.value.event.eventHash != hashed.previousEventHash then Err(StaleTail)
    else if last.None? && hashed.previousEventHash != GENESIS then Err(NotGenesis)
    else if HashTaken(rows, hashed.eventHash) then Err(DuplicateHash)
    else Ok(Row(stream, if last.Some? then last.value.sequence + 1 else 0, hashed, author))
  }

  predicate Supplied(call: Call) {
    call.supplied.Some? && call.supplied.value != ""
  }

  function ReadHead(rows: seq<Row>, call: Call): string {
    if Supplied(call) then call.supplied.value
    else
      var last := LastRow(rows, call.streamId);
      if last.Some? then last.value.event.eventHash else GENESIS
  }

  // ---------------------------------------------------------------- interleaving

  datatype Pc =
    | Ready(attempt: nat)
    | HasHead(attempt: nat, head: string)
    | Won(row: Row)
    | Lost(error: CallError)

  /** startLen and readLen: the length of the stream when the call began and when it last read the head. */
  datatype Proc = Proc(call: Call, pc: Pc, startLen: nat, readLen: nat)

  datatype System = System(rows: seq<Row>, procs: map<nat, Proc>)

  datatype Action = Start(pid: nat, call: Call) | Move(pid: nat)

  function Len(rows: seq<Row>, call: Call): nat {
    |EventsOf(rows, StreamOf(call.streamId))|
  }

  /** One attempt's append: build the event over the head that was read and hand it to the database. */
  function TryAppend(dg: Digester, rows: seq<Row>, call: Call, head: string, author: nat): Result<Row, CallError> {
    match BuildEventHash(dg, Some(head), call.event)
    case Err(error) => Err(InEvent(error))
    case Ok(hashed) =>
      match Rpc(rows, call.streamId, hashed, author)
      case Err(error) => Err(InAppend(error))
      case Ok(row) => Ok(row)
  }

  predicate Retries(call: Call, attempt: nat, error: CallError) {
    !Supplied(call) && error == InAppend(StaleTail) && attempt == 0
  }

  function Next(dg: Digester, sys: System, a: Action): System {
    match a
    case Start(pid, call) =>
      if pid in sys.procs then sys
      else sys.(procs := sys.procs[pid := Proc(call, Ready(0), Len(sys.rows, call), Len(sys.rows, call))])
    case Move(pid) =>
      if pid !in sys.procs then sys
      else
        var p := sys.procs[pid];
        match p.pc
        case Ready(attempt) =>
          sys.(procs := sys.procs[pid :=
              p.(pc := HasHead(attempt, ReadHead(sys.rows, p.call)), readLen := Len(sys.rows, p.call))])
        case HasHead(attempt, head) =>
          (match TryAppend(dg, sys.rows, p.call, head, pid)
           case Ok(row) => System(sys.rows + [row], sys.procs[pid := p.(pc := Won(row))])
           case Err(error) =>
             if Retries(p.call, attempt, error) then sys.(procs := sys.procs[pid := p.(pc := Ready(1))])
             else sys.(procs := sys.procs[pid := p.(pc := Lost(error))]))
        case Won(_) => sys
        case Lost(_) => sys
  }

  function Run(dg: Digester, actions: seq<Action>): System {
    if actions == [] then System([], map[]) else Next(dg, Run(dg, actions[..|actions| - 1]), actions[|actions| - 1])
  }

  // ---------------------------------------------------------------- the table

  ghost predicate NumberedAt(rows: seq<Row>, k: nat)
    requires k < |rows|
  {
    rows[k].sequence == |EventsOf(rows[..k], rows[k].stream)|
  }

  /** Every stream is one hash chain from genesis, numbered 0, 1, 2, ..., streams are stored under clean
      names, and no event hash repeats. */
  ghost predicate TableInv(dg: Digester, rows: seq<Row>) {
    && (forall k :: 0 <= k < |rows| ==> Clean(rows[k].stream))
    && (forall s: string :: IsChain(dg, GENESIS, EventsOf(rows, s)))
    && (forall k :: 0 <= k < |rows| ==> NumberedAt(rows, k))
    && (forall j, k :: 0 <= j < k < |rows| ==> rows[j].event.eventHash != rows[k].event.eventHash)
  }

  lemma EventsGrow(rows: seq<Row>, row: Row, stream: string)
    ensures EventsOf(rows + [row], stream) == EventsOf(rows, stream) + if row.stream == stream then [row.event] else []
  {
    assert (rows + [row])[..|rows|] == rows;
  }

  /** The newest row of a stream carries the last event and its number. */
  lemma {:induction false} LastRowIsTip(rows: seq<Row>, stream: string)
    requires forall k :: 0 <= k < |rows| ==> NumberedAt(rows, k)
    ensures var last, events := LastRow(rows, stream), EventsOf(rows, stream);
      && (last.None? <==> events == [])
      && (last.Some? ==> last.value.event == events[|events| - 1] && last.value.sequence == |events| - 1)
  {
    if rows == [] {
    } else {
      var n := |rows| - 1;
      assert NumberedAt(rows, n);
      forall k | 0 <= k < n
        ensures NumberedAt(rows[..n], k)
      {
        assert NumberedAt(rows, k);
        assert rows[..n][..k] == rows[..k];
      }
      LastRowIsTip(rows[..n], stream);
      EventsGrow(rows[..n], rows[n], stream);
      assert rows == rows[..n] + [rows[n]];
    }
  }

  /** The head a caller reads on a clean name is the tip of that stream's chain. */
  lemma HeadIsTip(dg: Digester, rows: seq<Row>, call: Call)
    requires TableInv(dg, rows) && !Supplied(call) && Clean(call.streamId)
    ensures ReadHead(rows, call) == Tip(GENESIS, EventsOf(rows, StreamOf(call.streamId)))
  {
    LastRowIsTip(rows, call.streamId);
  }

  /** What an accepted append looks like: one event, linked to the head it replaces. */
  lemma AppendedRow(dg: Digester, rows: seq<Row>, call: Call, head: string, author: nat)
    requires TableInv(dg, rows)
    requires TryAppend(dg, rows, call, head, author).Ok?
    ensures var row := TryAppend(dg, rows, call, head, author).value;
      var events := EventsOf(rows, row.stream);
      && row.stream == StreamOf(call.streamId) && row.author == author
      && row.sequence == |events|
      && IsComplete(call.event) && IsPayloadOf(row.event.payload, call.event)
      && row.event == Link(dg, Tip(GENESIS, events), row.event.payload)
      && !HashTaken(rows, row.event.eventHash)
  {
    LastRowIsTip(rows, StreamOf(call.streamId));
    TriedEvent(dg, rows, call, head, author);
  }

  /** The event that an attempt appends is the call's. */
  lemma TriedEvent(dg: Digester, rows: seq<Row>, call: Call, head: string, author: nat)
    requires TryAppend(dg, rows, call, head, author).Ok?
    ensures var row := TryAppend(dg, rows, call, head, author).value;
      && IsComplete(call.event) && IsPayloadOf(row.event.payload, call.event)
      && row.event == Link(dg, row.event.previousEventHash, row.event.payload)
      && Rpc(rows, call.streamId, row.event, author) == Ok(row)
  {
    NormalizedEvent(call.event);
  }

  /** The row carries the call's event over the tip of its stream. */
  ghost predicate Follows(dg: Digester, rows: seq<Row>, call: Call, row: Row) {
    && IsComplete(call.event) && IsPayloadOf(row.event.payload, call.event) && row.stream == StreamOf(call.streamId)
    && row.sequence == |EventsOf(rows, row.stream)|
    && row.event == Link(dg, Tip(GENESIS, EventsOf(rows, row.stream)), row.event.payload)
  }

  lemma AppendKeepsTable(dg: Digester, rows: seq<Row>, call: Call, head: string, author: nat)
    requires TableInv(dg, rows)
    requires TryAppend(dg, rows, call, head, author).Ok?
    ensures TableInv(dg, rows + [TryAppend(dg, rows, call, head, author).value])
  {
    var row := TryAppend(dg, rows, call, head, author).value;
    var after := rows + [row];
    AppendedRow(dg, rows, call, head, author);
    StoredNamesAreClean(call.streamId);
    forall s: string
      ensures IsChain(dg, GENESIS, EventsOf(after, s))
    {
      EventsGrow(rows, row, s);
      assert IsChain(dg, GENESIS, EventsOf(rows, s));
      if s == row.stream {
        AppendLink(dg, GENESIS, EventsOf(rows, s), row.event.payload);
      } else {
        assert EventsOf(after, s) == EventsOf(rows, s);
      }
    }
    forall k | 0 <= k < |after|
      ensures NumberedAt(after, k)
    {
      assert after[..k] == if k < |rows| then rows[..k] else rows;
      assert k < |rows| ==> NumberedAt(rows, k);
    }
  }

  // ---------------------------------------------------------------- the calls

  /** Calls whose head is the database's and whose name means the same on both sides. */
  predicate Ordinary(call: Call) {
    !Supplied(call) && Clean(call.streamId)
  }

  /** What a call knows about its stream at each point. */
  ghost predicate ProcInv(rows: seq<Row>, p: Proc) {
    var events := EventsOf(rows, StreamOf(p.call.streamId));
    && p.startLen <= |events|
    && match p.pc
       case Ready(attempt) => attempt < 2 && (attempt == 1 ==> p.startLen + 1 <= |events|)
       case HasHead(attempt, head) =>
         && attempt < 2 && p.startLen + attempt <= p.readLen <= |events|
         && head == Tip(GENESIS, events[..p.readLen])
       case Won(_) => true
       case Lost(error) => error == InAppend(StaleTail) ==> p.startLen + 2 <= |events|
  }

  /** Rows and successful calls match one to one, and a row carries its own call's event in its call's stream. */
  ghost predicate Authorship(sys: System) {
    && (forall k :: 0 <= k < |sys.rows| ==> AuthorWon(sys, k))
    && (forall pid :: pid in sys.procs && sys.procs[pid].pc.Won? ==>
        sys.procs[pid].pc.row in sys.rows && sys.procs[pid].pc.row.author == pid)
  }

  ghost predicate AuthorWon(sys: System, k: nat)
    requires k < |sys.rows|
  {
    var row := sys.rows[k];
    && row.author in sys.procs && sys.procs[row.author].pc == Won(row)
    && row.stream == StreamOf(sys.procs[row.author].call.streamId)
    && IsComplete(sys.procs[row.author].call.event)
    && IsPayloadOf(row.event.payload, sys.procs[row.author].call.event)
  }

  ghost predicate SystemInv(dg: Digester, sys: System) {
    && TableInv(dg, sys.rows)
    && Authorship(sys)
    && forall pid :: pid in sys.procs && Ordinary(sys.procs[pid].call) ==> ProcInv(sys.rows, sys.procs[pid])
  }

  /** A stale tail means that the head that was read is no longer the tip. */
  lemma StaleMeansOlder(dg: Digester, rows: seq<Row>, call: Call, readLen: nat, author: nat)
    requires TableInv(dg, rows) && readLen <= Len(rows, call)
    requires var head := Tip(GENESIS, EventsOf(rows, StreamOf(call.streamId))[..readLen]);
      TryAppend(dg, rows, call, head, author) == Err(InAppend(StaleTail))
    ensures readLen < Len(rows, call)
  {
    var events := EventsOf(rows, StreamOf(call.streamId));
    LastRowIsTip(rows, StreamOf(call.streamId));
    DigestNormalizesToItself(Tip(GENESIS, events));
    assert events[..|events|] == events;
  }

  /** A stale tail means that somebody committed to the stream after the head was read. */
  lemma StaleMeansCommit(dg: Digester, rows: seq<Row>, p: Proc, author: nat)
    requires TableInv(dg, rows) && Ordinary(p.call) && ProcInv(rows, p) && p.pc.HasHead?
    requires TryAppend(dg, rows, p.call, p.pc.head, author) == Err(InAppend(StaleTail))
    ensures p.readLen < Len(rows, p.call)
  {
    StaleMeansOlder(dg, rows, p.call, p.readLen, author);
  }

  lemma GrowthKeepsProc(rows: seq<Row>, row: Row, p: Proc)
    requires ProcInv(rows, p)
    ensures ProcInv(rows + [row], p)
  {
    EventsGrow(rows, row, StreamOf(p.call.streamId));
    var events, grown := EventsOf(rows, StreamOf(p.call.streamId)), EventsOf(rows + [row], StreamOf(p.call.streamId));
    if p.pc.HasHead? {
      assert grown[..p.readLen] == events[..p.readLen];
    }
  }

  lemma CommitKeepsInv(dg: Digester, sys: System, pid: nat)
    requires SystemInv(dg, sys) && pid in sys.procs && sys.procs[pid].pc.HasHead?
    requires TryAppend(dg, sys.rows, sys.procs[pid].call, sys.procs[pid].pc.head, pid).Ok?
    ensures SystemInv(dg, Next(dg, sys, Move(pid)))
  {
    var p := sys.procs[pid];
    var row := TryAppend(dg, sys.rows, p.call, p.pc.head, pid).value;
    var after := Next(dg, sys, Move(pid));
    AppendKeepsTable(dg, sys.rows, p.call, p.pc.head, pid);
    AppendedRow(dg, sys.rows, p.call, p.pc.head, pid);
    forall k | 0 <= k < |after.rows|
      ensures AuthorWon(after, k)
    {
      assert k < |sys.rows| ==> AuthorWon(sys, k);
    }
    forall q | q in after.procs && Ordinary(after.procs[q].call)
      ensures ProcInv(after.rows, after.procs[q])
    {
      assert ProcInv(sys.rows, sys.procs[q]);
      GrowthKeepsProc(sys.rows, row, sys.procs[q]);
    }
  }

  /** A step that leaves the table alone and takes one call from one open state to another. */
  lemma ProcStepKeepsInv(dg: Digester, sys: System, pid: nat, p: Proc)
    requires SystemInv(dg, sys)
    requires pid in sys.procs ==> !sys.procs[pid].pc.Won?
    requires !p.pc.Won?
    requires Ordinary(p.call) ==> ProcInv(sys.rows, p)
    ensures SystemInv(dg, sys.(procs := sys.procs[pid := p]))
  {
    var after := sys.(procs := sys.procs[pid := p]);
    forall k | 0 <= k < |after.rows|
      ensures AuthorWon(after, k)
    {
      assert AuthorWon(sys, k);
    }
  }

  lemma ReadKeepsProc(dg: Digester, rows: seq<Row>, p: Proc)
    requires TableInv(dg, rows) && Ordinary(p.call) && ProcInv(rows, p) && p.pc.Ready?
    ensures ProcInv(rows, p.(pc := HasHead(p.pc.attempt, ReadHead(rows, p.call)), readLen := Len(rows, p.call)))
  {
    HeadIsTip(dg, rows, p.call);
    var events := EventsOf(rows, StreamOf(p.call.streamId));
    assert events[..|events|] == events;
  }

  lemma RefusalKeepsProc(dg: Digester, rows: seq<Row>, p: Proc, pid: nat)
    requires TableInv(dg, rows) && Ordinary(p.call) && ProcInv(rows, p) && p.pc.HasHead?
    requires TryAppend(dg, rows, p.call, p.pc.head, pid).Err?
    ensures var error := TryAppend(dg, rows, p.call, p.pc.head, pid).error;
      ProcInv(rows, p.(pc := if Retries(p.call, p.pc.attempt, error) then Ready(1) else Lost(error)))
  {
    if TryAppend(dg, rows, p.call, p.pc.head, pid).error == InAppend(StaleTail) {
      StaleMeansCommit(dg, rows, p, pid);
    }
  }

  lemma MoveKeepsInv(dg: Digester, sys: System, pid: nat)
    requires SystemInv(dg, sys) && pid in sys.procs
    ensures SystemInv(dg, Next(dg, sys, Move(pid)))
  {
    var p := sys.procs[pid];
    match p.pc
    case Ready(attempt) =>
      if Ordinary(p.call) {
        ReadKeepsProc(dg, sys.rows, p);
      }
      ProcStepKeepsInv(dg, sys, pid,
          p.(pc := HasHead(attempt, ReadHead(sys.rows, p.call)), readLen := Len(sys.rows, p.call)));
    case HasHead(attempt, head) =>
      var r := TryAppend(dg, sys.rows, p.call, head, pid);
      if r.Ok? {
        CommitKeepsInv(dg, sys, pid);
      } else {
        if Ordinary(p.call) {
          RefusalKeepsProc(dg, sys.rows, p, pid);
        }
        ProcStepKeepsInv(dg, sys, pid, p.(pc := if Retries(p.call, attempt, r.error) then Ready(1) else Lost(r.error)));
      }
    case Won(_) =>
    case Lost(_) =>
  }

  lemma NextKeepsInv(dg: Digester, sys: System, a: Action)
    requires SystemInv(dg, sys)
    ensures SystemInv(dg, Next(dg, sys, a))
  {
    match a
    case Start(pid, call) =>
      if pid !in sys.procs {
        ProcStepKeepsInv(dg, sys, pid, Proc(call, Ready(0), Len(sys.rows, call), Len(sys.rows, call)));
      }
    case Move(pid) =>
      if pid in sys.procs {
        MoveKeepsInv(dg, sys, pid);
      }
  }

  /** Under any interleaving the table holds one valid chain per stream, and the rows are exactly those of
      the calls that succeeded, one each, with the event and the stream of its call. */
  lemma {:induction false} InterleavingsKeepOneChain(dg: Digester, actions: seq<Action>)
    ensures SystemInv(dg, Run(dg, actions))
  {
    if actions == [] {
      forall s: string
        ensures IsChain(dg, GENESIS, EventsOf([], s))
      {
      }
    } else {
      InterleavingsKeepOneChain(dg, actions[..|actions| - 1]);
      NextKeepsInv(dg, Run(dg, actions[..|actions| - 1]), actions[|actions| - 1]);
    }
  }

  /** A call that lost both attempts to a moved head saw at least two commits to its stream while it ran,
      and none of the rows in the table is its own. */
  lemma LosingTwiceMeansTwoOtherCommits(dg: Digester, actions: seq<Action>, pid: nat)
    requires var sys := Run(dg, actions);
      pid in sys.procs && Ordinary(sys.procs[pid].call) && sys.procs[pid].pc == Lost(InAppend(StaleTail))
    ensures var sys := Run(dg, actions);
      && sys.procs[pid].startLen + 2 <= Len(sys.rows, sys.procs[pid].call)
      && forall k :: 0 <= k < |sys.rows| ==> sys.rows[k].author != pid
  {
    InterleavingsKeepOneChain(dg, actions);
    var sys := Run(dg, actions);
    forall k | 0 <= k < |sys.rows|
      ensures sys.rows[k].author != pid
    {
      assert AuthorWon(sys, k);
    }
  }

  /** A call never adds more than one row. */
  lemma OneRowPerCall(dg: Digester, actions: seq<Action>, j: nat, k: nat)
    requires j < k < |Run(dg, actions).rows|
    ensures Run(dg, actions).rows[j].author != Run(dg, actions).rows[k].author
  {
    InterleavingsKeepOneChain(dg, actions);
    var sys := Run(dg, actions);
    assert AuthorWon(sys, j) && AuthorWon(sys, k);
  }

  // ---------------------------------------------------------------- when an append is accepted

  /** A call that brings a previous hash of its own appends over that one, and no other. */
  lemma SuppliedAppend(dg: Digester, rows: seq<Row>, call: Call, payload: EventPayload, author: nat)
    requires TableInv(dg, rows) && IsPayloadOf(payload, call.event)
    requires call.supplied.Some? && call.supplied.value != ""
    ensures var tip, head := Tip(GENESIS, EventsOf(rows, StreamOf(call.streamId))),
                NormalizePreviousHash(call.supplied);
      TryAppend(dg, rows, call, ReadHead(rows, call), author).Ok?
      <==> IsComplete(call.event) && head == Ok(tip) && !HashTaken(rows, Link(dg, tip, payload).eventHash)
  {
    NormalizedEvent(call.event);
    var head := NormalizePreviousHash(call.supplied);
    if IsComplete(call.event) && head.Ok? {
      RpcAnswers(rows, call.streamId, Link(dg, head.value, payload), author);
    }
  }

  /** What an attempt that has read its head comes to: it wins; or the head was stale, it was the first attempt and
      the call brought no hash of its own, and it reads again; or it is lost. */
  lemma AttemptEnds(dg: Digester, sys: System, pid: nat)
    requires pid in sys.procs && sys.procs[pid].pc.HasHead?
    ensures var p := sys.procs[pid];
      var r := TryAppend(dg, sys.rows, p.call, p.pc.head, pid);
      var own := p.call.supplied.Some? && p.call.supplied.value != "";
      var pc := Next(dg, sys, Move(pid)).procs[pid].pc;
      && (r.Ok? <==> pc.Won?)
      && (r.Err? ==>
          pc == if r == Err(InAppend(StaleTail)) && p.pc.attempt == 0 && !own then Ready(1) else Lost(r.error))
  {
  }

  /** With nobody in between, a call that reads its own head is accepted exactly when its event is well formed, no
      event of any stream has the same hash, and the head it reads is the stream's: its name has no outer spaces, or
      the stream still stands at genesis. */
  lemma UndisturbedAppend(dg: Digester, rows: seq<Row>, call: Call, payload: EventPayload, author: nat)
    requires TableInv(dg, rows) && IsPayloadOf(payload, call.event)
    requires call.supplied.None? || call.supplied.value == ""
    ensures var tip := Tip(GENESIS, EventsOf(rows, StreamOf(call.streamId)));
      TryAppend(dg, rows, call, ReadHead(rows, call), author).Ok?
      <==> && IsComplete(call.event) && (Clean(call.streamId) || tip == GENESIS)
           && !HashTaken(rows, Link(dg, tip, payload).eventHash)
  {
    NormalizedEvent(call.event);
    HeadReadIs(dg, rows, call);
    AppendOver(dg, rows, call, ReadHead(rows, call), author);
  }

  /** What an append over a digest is answered. */
  lemma AppendOver(dg: Digester, rows: seq<Row>, call: Call, head: Digest, author: nat)
    requires TableInv(dg, rows)
    ensures var payload, events := NormalizeEvent(call.event), EventsOf(rows, StreamOf(call.streamId));
      var r := TryAppend(dg, rows, call, head, author);
      && (r.Ok? <==> payload.Ok? && head == Tip(GENESIS, events)
                     && !HashTaken(rows, Link(dg, head, payload.value).eventHash))
      && (r == Err(InAppend(StaleTail)) <==> payload.Ok? && events != [] && head != Tip(GENESIS, events))
  {
    if NormalizeEvent(call.event).Ok? {
      BuiltOverDigest(dg, head, call.event);
      RpcAnswers(rows, call.streamId, Link(dg, head, NormalizeEvent(call.event).value), author);
    }
  }

  lemma RpcAnswers(rows: seq<Row>, streamId: string, hashed: Hashed, author: nat)
    requires forall k :: 0 <= k < |rows| ==> NumberedAt(rows, k)
    ensures var events, r := EventsOf(rows, StreamOf(streamId)), Rpc(rows, streamId, hashed, author);
      && (r.Ok? <==> hashed.previousEventHash == Tip(GENESIS, events) && !HashTaken(rows, hashed.eventHash))
      && (r == Err(StaleTail) <==> events != [] && hashed.previousEventHash != Tip(GENESIS, events))
  {
    TailIsTip(rows, StreamOf(streamId));
    RpcComparesTail(rows, streamId, hashed, author);
  }

  lemma TailIsTip(rows: seq<Row>, stream: string)
    requires forall k :: 0 <= k < |rows| ==> NumberedAt(rows, k)
    ensures var last, events := LastRow(rows, stream), EventsOf(rows, stream);
      && (last.None? <==> events == [])
      && Tip(GENESIS, events) == if last.None? then GENESIS else last.value.event.eventHash
  {
    LastRowIsTip(rows, stream);
  }

  lemma RpcComparesTail(rows: seq<Row>, streamId: string, hashed: Hashed, author: nat)
    ensures var last, r := LastRow(rows, StreamOf(streamId)), Rpc(rows, streamId, hashed, author);
      var tail := if last.None? then GENESIS else last.value.event.eventHash;
      && (r.Ok? <==> hashed.previousEventHash == tail && !HashTaken(rows, hashed.eventHash))
      && (r == Err(StaleTail) <==> last.Some? && hashed.previousEventHash != tail)
  {
  }

  /** A clean name reads the tip of its stream, any other genesis. */
  lemma HeadReadIs(dg: Digester, rows: seq<Row>, call: Call)
    requires TableInv(dg, rows) && !Supplied(call)
    ensures ReadHead(rows, call)
         == if Clean(call.streamId) then Tip(GENESIS, EventsOf(rows, StreamOf(call.streamId))) else GENESIS
  {
    if Clean(call.streamId) {
      HeadIsTip(dg, rows, call);
    }
  }

  /** The stream is not part of what is hashed, but hashes are unique over the whole table: an event that
      opened one stream cannot open another. */
  lemma SameFirstEventClashes(dg: Digester, rows: seq<Row>, first: Call, second: Call, author: nat, other: nat)
    requires TableInv(dg, rows) && Ordinary(first) && Ordinary(second)
    requires first.event == second.event && first.streamId != second.streamId
    requires EventsOf(rows, first.streamId) == [] && EventsOf(rows, second.streamId) == []
    requires TryAppend(dg, rows, first, ReadHead(rows, first), author).Ok?
    ensures var after := rows + [TryAppend(dg, rows, first, ReadHead(rows, first), author).value];
      TryAppend(dg, after, second, ReadHead(after, second), other) == Err(InAppend(DuplicateHash))
  {
    var row := TryAppend(dg, rows, first, ReadHead(rows, first), author).value;
    var after := rows + [row];
    AppendedRow(dg, rows, first, ReadHead(rows, first), author);
    AppendKeepsTable(dg, rows, first, ReadHead(rows, first), author);
    EventsGrow(rows, row, second.streamId);
    HeadIsTip(dg, after, second);
    LastRowIsTip(after, second.streamId);
    DigestNormalizesToItself(ReadHead(after, second));
    assert after[|rows|].event.eventHash == row.event.eventHash;
  }

  /** A stream name with outer spaces, or an empty one, is read under one name and appended under another: with a
      well-formed event it is refused as stale exactly when the stream has moved on from genesis. */
  lemma UncleanNameReadsGenesis(dg: Digester, rows: seq<Row>, call: Call, author: nat)
    requires TableInv(dg, rows) && !Supplied(call) && !Clean(call.streamId) && IsComplete(call.event)
    ensures TryAppend(dg, rows, call, ReadHead(rows, call), author) == Err(InAppend(StaleTail))
       <==> Tip(GENESIS, EventsOf(rows, StreamOf(call.streamId))) != GENESIS
  {
    HeadReadIs(dg, rows, call);
    AppendOver(dg, rows, call, GENESIS, author);
  }

  lemma BuiltOverDigest(dg: Digester, head: Digest, event: EventInput)
    requires NormalizeEvent(event).Ok?
    ensures BuildEventHash(dg, Some(head), event) == Ok(Link(dg, head, NormalizeEvent(event).value))
  {
    DigestNormalizesToItself(head);
  }

  // ---------------------------------------------------------------- the repository method

  /** An append attempted by somebody else, over a head read at any earlier time. */
  datatype Other = Other(author: nat, call: Call, head: string)

  class AuditTable {
    var rows: seq<Row>

    constructor ()
      ensures rows == []
    {
      rows := [];
    }

    method AppendRpc(streamId: string, hashed: Hashed, author: nat) returns (r: Result<Row, RpcError>)
      modifies this
      ensures r == Rpc(old(rows), streamId, hashed, author)
      ensures rows == if r.Ok? then old(rows) + [r.value] else old(rows)
    {
      var stream := StreamOf(streamId);
      var last := LastRow(rows, stream);
      if last.Some? && last.value.event.eventHash != hashed.previousEventHash {
        return Err(StaleTail);
      }
      if last.None? && hashed.previousEventHash != GENESIS {
        return Err(NotGenesis);
      }
      if exists k :: 0 <= k < |rows| && rows[k].event.eventHash == hashed.eventHash {
        return Err(DuplicateHash);
      }
      var row := Row(stream, if last.Some? then last.value.sequence + 1 else 0, hashed, author);
      rows := rows + [row];
      return Ok(row);
    }

    /** Whatever others commit between two steps of a call. */
    method Interfere(dg: Digester, others: seq<Other>, author: nat)
      requires TableInv(dg, rows)
      requires forall k :: 0 <= k < |others| ==> others[k].author != author
      modifies this
      ensures TableInv(dg, rows)
      ensures Grown(old(rows), rows, author)
      ensures others == [] ==> rows == old(rows)
    {
      for k := 0 to |others|
        invariant TableInv(dg, rows) && Grown(old(rows), rows, author)
        invariant k == 0 ==> rows == old(rows)
      {
        var attempt := TryAppend(dg, rows, others[k].call, others[k].head, others[k].author);
        if attempt.Ok? {
          AppendKeepsTable(dg, rows, others[k].call, others[k].head, others[k].author);
          AppendedRow(dg, rows, others[k].call, others[k].head, others[k].author);
          rows := rows + [attempt.value];
        }
      }
    }

    /** One attempt over a head that was read earlier. */
    method Attempt(dg: Digester, call: Call, head: string, author: nat) returns (r: Result<Row, CallError>)
      requires TableInv(dg, rows)
      modifies this
      ensures r == TryAppend(dg, old(rows), call, head, author)
      ensures rows == if r.Ok? then old(rows) + [r.value] else old(rows)
      ensures TableInv(dg, rows)
      ensures r.Ok? ==> r.value.author == author && Follows(dg, old(rows), call, r.value)
    {
      ghost var table := rows;
      var hashed := BuildEventHash(dg, Some(head), call.event);
      if hashed.Err? {
        return Err(InEvent(hashed.error));
      }
      var appended := AppendRpc(call.streamId, hashed.value, author);
      if appended.Err? {
        return Err(InAppend(appended.error));
      }
      AppendKeepsTable(dg, table, call, head, author);
      AppendedRow(dg, table, call, head, author);
      return Ok(appended.value);
    }

    /** append: at most two attempts, with others free to commit between each read and its append. */
    method Append(dg: Digester, call: Call, author: nat, others: seq<seq<Other>>) returns (r: Result<Row, CallError>)
      requires TableInv(dg, rows)
      requires |others| == 2
      requires forall i, k :: 0 <= i < 2 && 0 <= k < |others[i]| ==> others[i][k].author != author
      modifies this
      ensures TableInv(dg, rows)
      ensures r.Ok? ==>
          rows != [] && rows[|rows| - 1] == r.value && r.value.author == author
              && Grown(old(rows), rows[..|rows| - 1], author)
      ensures r.Ok? ==> Follows(dg, rows[..|rows| - 1], call, r.value)
      ensures r.Err? ==> Grown(old(rows), rows, author)
      ensures r == Err(InAppend(StaleTail)) && Ordinary(call) ==> Len(old(rows), call) + 2 <= Len(rows, call)
      ensures others[0] == [] && Ordinary(call) ==> r != Err(InAppend(StaleTail))
    {
      r := Err(InAppend(StaleTail));
      ghost var start := rows;
      var attempt := 0;
      while attempt < 2
        invariant 0 <= attempt <= 2
        invariant TableInv(dg, rows) && Progress(start, rows, call, author, attempt)
        invariant attempt > 0 ==> r == Err(InAppend(StaleTail)) && !Supplied(call)
        invariant attempt > 0 && Ordinary(call) ==> others[0] != []
      {
        var head := ReadHead(rows, call);
        ghost var read := rows;
        Interfere(dg, others[attempt], author);
        ghost var table := rows;
        GrownTwice(start, read, table, author);
        r := Attempt(dg, call, head, author);
        if r.Ok? {
          assert rows[..|rows| - 1] == table;
          return;
        }
        if Supplied(call) || r.error != InAppend(StaleTail) {
          return;
        }
        AttemptFailed(dg, start, read, rows, call, author, attempt);
        attempt := attempt + 1;
      }
    }
  }

  /** Rows were only added, none of them by this author. */
  ghost predicate Grown(before: seq<Row>, after: seq<Row>, author: nat) {
    before <= after && forall k :: |before| <= k < |after| ==> after[k].author != author
  }

  lemma {:induction false} EventsOfPrefix(before: seq<Row>, after: seq<Row>, stream: string)
    requires before <= after
    ensures EventsOf(before, stream) <= EventsOf(after, stream)
    decreases |after|
  {
    if before == after {
    } else {
      var n := |after| - 1;
      EventsOfPrefix(before, after[..n], stream);
      EventsGrow(after[..n], after[n], stream);
      assert after == after[..n] + [after[n]];
    }
  }

  lemma LostHeadMeansCommit(dg: Digester, before: seq<Row>, after: seq<Row>, call: Call, author: nat)
    requires TableInv(dg, before) && TableInv(dg, after) && before <= after && Ordinary(call)
    requires TryAppend(dg, after, call, ReadHead(before, call), author) == Err(InAppend(StaleTail))
    ensures Len(before, call) < Len(after, call)
  {
    var earlier, later := EventsOf(before, StreamOf(call.streamId)), EventsOf(after, StreamOf(call.streamId));
    EventsOfPrefix(before, after, StreamOf(call.streamId));
    HeadIsTip(dg, before, call);
    assert later[..|earlier|] == earlier;
    StaleMeansOlder(dg, after, call, |earlier|, author);
  }

  /** How far a call has got: every failed attempt of an ordinary call saw another commit to its stream. */
  ghost predicate Progress(before: seq<Row>, rows: seq<Row>, call: Call, author: nat, attempt: nat) {
    && Grown(before, rows, author)
    && (Ordinary(call) ==> Len(before, call) + attempt <= Len(rows, call))
  }

  lemma AttemptFailed(dg: Digester, before: seq<Row>, read: seq<Row>, rows: seq<Row>, call: Call, author: nat,
      attempt: nat)
    requires TableInv(dg, read) && TableInv(dg, rows) && Progress(before, read, call, author, attempt)
        && Grown(read, rows, author)
    requires TryAppend(dg, rows, call, ReadHead(read, call), author) == Err(InAppend(StaleTail))
    ensures Progress(before, rows, call, author, attempt + 1)
    ensures Ordinary(call) ==> read != rows
  {
    GrownTwice(before, read, rows, author);
    if Ordinary(call) {
      LostHeadMeansCommit(dg, read, rows, call, author);
    }
  }

  lemma GrownTwice(before: seq<Row>, read: seq<Row>, rows: seq<Row>, author: nat)
    requires Grown(before, read, author) && Grown(read, rows, author)
    ensures Grown(before, rows, author)
  {
    forall k | |before| <= k < |rows|
      ensures rows[k].author != author
    {
      assert k < |read| ==> rows[k] == read[k];
    }
  }
}
