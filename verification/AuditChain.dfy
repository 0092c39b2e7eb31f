/** Hash-linked audit events. SHA-256 and the JSON canonicaliser are parameters: the first is any
    function from text to 64 hex digits, the second any function from payloads to text. */
module AuditChain {
  import opened Prelude
  import opened Text

  const DOMAIN := "org.civicos.backend-audit-log"
  const VERSION := "civicos-backend-audit-log-v1"
  const ALGORITHM := "sha256"
  const GENESIS: string := Repeat('0', 64)

  type Digest = s: string | IsHex64(s) witness GENESIS

  datatype Json =
    | JNull | JBool(b: bool) | JNumber(text: string) | JString(text: string)
    | JArray(items: seq<Json>) | JObject(members: seq<(string, Json)>)

  datatype Decision = Accepted | Rejected | Recorded | Published | Errored

  datatype EventInput = EventInput(
    eventType: string, decision: Decision, subjectType: Option<string>, subjectId: Option<string>,
    occurredAt: string, payload: Option<Json>)

  datatype EventPayload = EventPayload(
    eventType: string, decision: Decision, subjectType: Option<string>, subjectId: Option<string>,
    occurredAt: string, payload: Json)

  datatype Hashed = Hashed(previousEventHash: Digest, eventHash: Digest, payload: EventPayload, canonical: string)

  datatype AuditError = EventTypeRequired | OccurredAtRequired | BadPreviousHash

  datatype Digester = Digester(sha: string -> Digest, canon: EventPayload -> string)

  function NormalizeText(value: Option<string>): Option<string> {
    if value.None? || Trim(value.value) == "" then None else Some(Trim(value.value))
  }

  function NormalizePreviousHash(value: Option<string>): Result<Digest, AuditError> {
    match NormalizeText(value)
    case None => Ok(GENESIS)
    case Some(text) => if IsHex64(Lower(text)) then Ok(Lower(text)) else Err(BadPreviousHash)
  }

  lemma DigestNormalizesToItself(d: Digest)
    ensures NormalizePreviousHash(Some(d)) == Ok(d)
  {
    assert IsHexDigit(d[0]) && IsHexDigit(d[63]);
    assert Trimmed(d);
    TrimmedIsFixed(d);
    assert Lower(d) == d;
  }

  function NormalizeEvent(e: EventInput): Result<EventPayload, AuditError> {
    if Trim(e.eventType) == "" then Err(EventTypeRequired)
    else if Trim(e.occurredAt) == "" then Err(OccurredAtRequired)
    else Ok(EventPayload(Trim(e.eventType), e.decision, NormalizeText(e.subjectType), NormalizeText(e.subjectId),
                         Trim(e.occurredAt), if e.payload.None? || e.payload.value == JNull then JObject([])
                                             else e.payload.value))
  }

  predicate IsComplete(e: EventInput) {
    Trim(e.eventType) != "" && Trim(e.occurredAt) != ""
  }

  /** Nothing if the text is missing or blank, and otherwise the text without outer spaces. */
  predicate IsTextOf(x: Option<string>, value: Option<string>) {
    if value.None? || Trim(value.value) == "" then x == None else x == Some(Trim(value.value))
  }

  /** The payload that is hashed for an event, field by field. */
  predicate IsPayloadOf(x: EventPayload, e: EventInput) {
    && x.eventType == Trim(e.eventType) && x.decision == e.decision && x.occurredAt == Trim(e.occurredAt)
    && IsTextOf(x.subjectType, e.subjectType) && IsTextOf(x.subjectId, e.subjectId)
    && x.payload == (if e.payload.None? || e.payload == Some(JNull) then JObject([]) else e.payload.value)
  }

  lemma NormalizedEvent(e: EventInput)
    ensures var r := NormalizeEvent(e);
      && (r.Ok? <==> IsComplete(e)) && (r.Ok? ==> IsPayloadOf(r.value, e))
      && (r == Err(EventTypeRequired) <==> Trim(e.eventType) == "")
      && (r == Err(OccurredAtRequired) <==> Trim(e.eventType) != "" && Trim(e.occurredAt) == "")
  {
  }

  /** The start of a chain: 64 zeros if it is missing or blank, and otherwise its 64 hexadecimal digits in lower
      case. */
  lemma StartOfChain(value: Option<string>)
    ensures var r := NormalizePreviousHash(value);
      if value.None? || Trim(value.value) == "" then
        r.Ok? && |r.value| == 64 && forall k :: 0 <= k < 64 ==> r.value[k] == '0'
      else
        var text := Lower(Trim(value.value));
        if |text| == 64 && (forall k :: 0 <= k < 64 ==> '0' <= text[k] <= '9' || 'a' <= text[k] <= 'f')
        then r == Ok(text) else r == Err(BadPreviousHash)
  {
  }

  function Preimage(previous: Digest, canonical: string): string {
    DOMAIN + "|" + VERSION + "|" + ALGORITHM + "|" + previous + "|" + canonical
  }

  function Link(dg: Digester, previous: Digest, payload: EventPayload): Hashed {
    Hashed(previous, dg.sha(Preimage(previous, dg.canon(payload))), payload, dg.canon(payload))
  }

  /** buildBackendAuditEventHash: the event's own fields are checked before the previous hash. */
  function BuildEventHash(dg: Digester, previous: Option<string>, e: EventInput): Result<Hashed, AuditError> {
    match NormalizeEvent(e)
    case Err(error) => Err(error)
    case Ok(payload) =>
      match NormalizePreviousHash(previous)
      case Err(error) => Err(error)
      case Ok(hash) => Ok(Link(dg, hash, payload))
  }

  /** The separator splits the preimage in one way only, because a previous hash has 64 characters. */
  lemma PreimageIsInjective(p: Digest, a: string, q: Digest, b: string)
    requires Preimage(p, a) == Preimage(q, b)
    ensures p == q && a == b
  {
    var head := DOMAIN + "|" + VERSION + "|" + ALGORITHM + "|";
    var s := Preimage(p, a);
    assert s == head + (p + "|" + a) == head + (q + "|" + b);
    assert s[|head|..] == p + "|" + a == q + "|" + b;
    assert s[|head|..][..64] == p == q;
    assert s[|head|..][65..] == a == b;
  }

  // ---------------------------------------------------------------- chains

  function Tip(initial: Digest, events: seq<Hashed>): Digest {
    if events == [] then initial else events[|events| - 1].eventHash
  }

  /** Each event names the hash before it and hashes to its own. */
  ghost predicate IsChain(dg: Digester, initial: Digest, events: seq<Hashed>) {
    forall k :: 0 <= k < |events| ==> LinkedAt(dg, initial, events, k)
  }

  ghost predicate LinkedAt(dg: Digester, initial: Digest, events: seq<Hashed>, k: nat)
    requires k < |events|
  {
    && events[k].previousEventHash == Tip(initial, events[..k])
    && events[k].eventHash == dg.sha(Preimage(events[k].previousEventHash, events[k].canonical))
  }

  function ChainFrom(dg: Digester, initial: Digest, inputs: seq<EventInput>): Result<seq<Hashed>, AuditError> {
    if inputs == [] then Ok([])
    else Extend(dg, initial, ChainFrom(dg, initial, inputs[..|inputs| - 1]), inputs[|inputs| - 1])
  }

  function Extend(dg: Digester, initial: Digest, before: Result<seq<Hashed>, AuditError>,
      e: EventInput): Result<seq<Hashed>, AuditError> {
    match before
    case Err(error) => Err(error)
    case Ok(events) =>
      match BuildEventHash(dg, Some(Tip(initial, events)), e)
      case Err(error) => Err(error)
      case Ok(next) => Ok(events + [next])
  }

  function After(first: Result<seq<Hashed>, AuditError>,
                 second: Result<seq<Hashed>, AuditError>): Result<seq<Hashed>, AuditError> {
    if first.Err? then first else if second.Err? then second else Ok(first.value + second.value)
  }

  method BuildChain(dg: Digester, inputs: seq<EventInput>, initial: Option<string>)
    returns (r: Result<(Digest, seq<Hashed>), AuditError>)
    ensures var start := NormalizePreviousHash(initial);
      if start.Err? then r == Err(start.error)
      else
        var built := ChainFrom(dg, start.value, inputs);
        r == if built.Err? then Err(built.error) else Ok((Tip(start.value, built.value), built.value))
  {
    var start := NormalizePreviousHash(initial);
    if start.Err? {
      return Err(start.error);
    }
    var previous := start.value;
    var events: seq<Hashed> := [];
    for k := 0 to |inputs|
      invariant ChainFrom(dg, start.value, inputs[..k]) == Ok(events)
      invariant previous == Tip(start.value, events)
    {
      assert inputs[..k + 1][..k] == inputs[..k];
      var hashed := BuildEventHash(dg, Some(previous), inputs[k]);
      if hashed.Err? {
        ErrorIsFinal(dg, start.value, inputs, k + 1);
        return Err(hashed.error);
      }
      events := events + [hashed.value];
      previous := hashed.value.eventHash;
    }
    assert inputs[..|inputs|] == inputs;
    return Ok((previous, events));
  }

  lemma {:induction false} ErrorIsFinal(dg: Digester, initial: Digest, inputs: seq<EventInput>, k: nat)
    requires k <= |inputs| && ChainFrom(dg, initial, inputs[..k]).Err?
    ensures ChainFrom(dg, initial, inputs) == ChainFrom(dg, initial, inputs[..k])
  {
    if k == |inputs| {
      assert inputs[..k] == inputs;
    } else {
      assert inputs[..|inputs| - 1][..k] == inputs[..k];
      ErrorIsFinal(dg, initial, inputs[..|inputs| - 1], k);
    }
  }

  lemma AppendLink(dg: Digester, initial: Digest, events: seq<Hashed>, payload: EventPayload)
    requires IsChain(dg, initial, events)
    ensures IsChain(dg, initial, events + [Link(dg, Tip(initial, events), payload)])
  {
    var grown := events + [Link(dg, Tip(initial, events), payload)];
    forall k | 0 <= k < |grown|
      ensures LinkedAt(dg, initial, grown, k)
    {
      if k < |events| {
        assert LinkedAt(dg, initial, events, k);
        assert grown[..k] == events[..k];
      } else {
        assert grown[..k] == events;
      }
    }
  }

  /** What is built is a chain. */
  lemma {:induction false} BuiltIsChain(dg: Digester, initial: Digest, inputs: seq<EventInput>)
    requires ChainFrom(dg, initial, inputs).Ok?
    ensures IsChain(dg, initial, ChainFrom(dg, initial, inputs).value)
  {
    if inputs == [] {
    } else {
      var n := |inputs| - 1;
      BuiltIsChain(dg, initial, inputs[..n]);
      var before := ChainFrom(dg, initial, inputs[..n]).value;
      DigestNormalizesToItself(Tip(initial, before));
      AppendLink(dg, initial, before, NormalizeEvent(inputs[n]).value);
    }
  }

  /** One event per input, in order, with the input's fields. */
  ghost predicate Carries(events: seq<Hashed>, inputs: seq<EventInput>) {
    && |events| == |inputs|
    && forall k :: 0 <= k < |inputs| ==> IsComplete(inputs[k]) && IsPayloadOf(events[k].payload, inputs[k])
  }

  lemma CarriesOneMore(events: seq<Hashed>, inputs: seq<EventInput>)
    requires |events| == |inputs| > 0
    requires Carries(events[..|events| - 1], inputs[..|inputs| - 1])
    requires IsComplete(inputs[|inputs| - 1]) && IsPayloadOf(events[|events| - 1].payload, inputs[|inputs| - 1])
    ensures Carries(events, inputs)
  {
    var n := |inputs| - 1;
    forall k | 0 <= k < |inputs|
      ensures IsComplete(inputs[k]) && IsPayloadOf(events[k].payload, inputs[k])
    {
      assert k < n ==> inputs[k] == inputs[..n][k] && events[k] == events[..n][k];
    }
  }

  lemma ExtendFacts(dg: Digester, initial: Digest, before: Result<seq<Hashed>, AuditError>, e: EventInput)
    requires Extend(dg, initial, before, e).Ok?
    ensures var events := Extend(dg, initial, before, e).value;
      && before.Ok? && |events| == |before.value| + 1
      && events[..|before.value|] == before.value
      && var last := events[|before.value|];
         && IsComplete(e) && IsPayloadOf(last.payload, e)
         && last.canonical == dg.canon(last.payload) && last.previousEventHash == Tip(initial, before.value)
         && last.eventHash == dg.sha(Preimage(last.previousEventHash, last.canonical))
  {
    NormalizedEvent(e);
    DigestNormalizesToItself(Tip(initial, before.value));
  }

  lemma {:induction false} BuiltCarriesInputs(dg: Digester, initial: Digest, inputs: seq<EventInput>,
      events: seq<Hashed>)
    requires ChainFrom(dg, initial, inputs) == Ok(events)
    ensures Carries(events, inputs)
  {
    if inputs == [] {
    } else {
      var before, e := ChainFrom(dg, initial, inputs[..|inputs| - 1]), inputs[|inputs| - 1];
      ExtendFacts(dg, initial, before, e);
      BuiltCarriesInputs(dg, initial, inputs[..|inputs| - 1], before.value);
      CarriesOneMore(events, inputs);
    }
  }

  /** The first event without a type or a time, and the error it raises. */
  predicate FailsAt(inputs: seq<EventInput>, k: nat, error: AuditError)
    requires k < |inputs|
  {
    && !IsComplete(inputs[k]) && (forall j :: 0 <= j < k ==> IsComplete(inputs[j]))
    && error == if Trim(inputs[k].eventType) == "" then EventTypeRequired else OccurredAtRequired
  }

  lemma LastLink(dg: Digester, initial: Digest, inputs: seq<EventInput>)
    requires inputs != []
    ensures var before, r := ChainFrom(dg, initial, inputs[..|inputs| - 1]), ChainFrom(dg, initial, inputs);
      var e := inputs[|inputs| - 1];
      && (r.Ok? <==> before.Ok? && IsComplete(e))
      && (before.Err? ==> r == before)
      && (before.Ok? && r.Err? ==> r.error == if Trim(e.eventType) == "" then EventTypeRequired else OccurredAtRequired)
  {
    var before := ChainFrom(dg, initial, inputs[..|inputs| - 1]);
    NormalizedEvent(inputs[|inputs| - 1]);
    if before.Ok? {
      DigestNormalizesToItself(Tip(initial, before.value));
    }
  }

  predicate AllComplete(inputs: seq<EventInput>) {
    inputs == [] || (AllComplete(inputs[..|inputs| - 1]) && IsComplete(inputs[|inputs| - 1]))
  }

  lemma {:induction false} AllCompleteMeans(inputs: seq<EventInput>)
    ensures AllComplete(inputs) <==> forall k :: 0 <= k < |inputs| ==> IsComplete(inputs[k])
  {
    if inputs != [] {
      AllCompleteMeans(inputs[..|inputs| - 1]);
      assert forall k :: 0 <= k < |inputs| - 1 ==> inputs[..|inputs| - 1][k] == inputs[k];
    }
  }

  lemma {:induction false} BuiltIfAllComplete(dg: Digester, initial: Digest, inputs: seq<EventInput>)
    ensures ChainFrom(dg, initial, inputs).Ok? <==> AllComplete(inputs)
  {
    if inputs != [] {
      BuiltIfAllComplete(dg, initial, inputs[..|inputs| - 1]);
      LastLink(dg, initial, inputs);
    }
  }

  /** A chain is built exactly if every event has a type and a time. */
  lemma BuiltIff(dg: Digester, initial: Digest, inputs: seq<EventInput>)
    ensures ChainFrom(dg, initial, inputs).Ok? <==> forall k :: 0 <= k < |inputs| ==> IsComplete(inputs[k])
  {
    BuiltIfAllComplete(dg, initial, inputs);
    AllCompleteMeans(inputs);
  }

  /** Otherwise the first event that is incomplete says which error is raised. */
  lemma {:induction false} BuildError(dg: Digester, initial: Digest, inputs: seq<EventInput>) returns (k: nat)
    requires ChainFrom(dg, initial, inputs).Err?
    ensures k < |inputs| && FailsAt(inputs, k, ChainFrom(dg, initial, inputs).error)
  {
    var n := |inputs| - 1;
    LastLink(dg, initial, inputs);
    BuiltIff(dg, initial, inputs[..n]);
    if ChainFrom(dg, initial, inputs[..n]).Err? {
      k := BuildError(dg, initial, inputs[..n]);
    } else {
      k := n;
    }
    assert forall j :: 0 <= j < n ==> inputs[..n][j] == inputs[j];
  }

  /** What is hashed: the fixed heading, the hash before and the canonical payload, joined by bars. */
  lemma {:induction false} BuiltHashes(dg: Digester, initial: Digest, inputs: seq<EventInput>, events: seq<Hashed>,
                                       k: nat)
    requires ChainFrom(dg, initial, inputs) == Ok(events) && k < |events|
    ensures var previous: string := if k == 0 then initial else events[k - 1].eventHash;
      && events[k].previousEventHash == previous && events[k].canonical == dg.canon(events[k].payload)
      && events[k].eventHash == dg.sha("org.civicos.backend-audit-log" + "|" + "civicos-backend-audit-log-v1" + "|"
                                       + "sha256" + "|" + previous + "|" + events[k].canonical)
    decreases |inputs|
  {
    var n := |inputs| - 1;
    var before := ChainFrom(dg, initial, inputs[..n]);
    ExtendFacts(dg, initial, before, inputs[n]);
    if k < |before.value| {
      BuiltHashes(dg, initial, inputs[..n], before.value, k);
      assert events[k] == events[..|before.value|][k];
      assert k > 0 ==> events[k - 1] == events[..|before.value|][k - 1];
    }
  }

  lemma ExtendAfter(dg: Digester, initial: Digest, first: seq<Hashed>, middle: Result<seq<Hashed>, AuditError>,
      e: EventInput)
    ensures Extend(dg, initial, After(Ok(first), middle), e)
         == After(Ok(first), Extend(dg, Tip(initial, first), middle, e))
  {
    if middle.Ok? {
      assert Tip(initial, first + middle.value) == Tip(Tip(initial, first), middle.value);
      var last := BuildEventHash(dg, Some(Tip(initial, first + middle.value)), e);
      if last.Ok? {
        assert (first + middle.value) + [last.value] == first + (middle.value + [last.value]);
      }
    }
  }

  /** Building over a ++ b is building over a and going on from its root over b. */
  lemma {:induction false} ChainsCompose(dg: Digester, initial: Digest, a: seq<EventInput>, b: seq<EventInput>)
    ensures var first := ChainFrom(dg, initial, a);
      ChainFrom(dg, initial, a + b) == if first.Err? then first
          else After(first, ChainFrom(dg, Tip(initial, first.value), b))
  {
    var first := ChainFrom(dg, initial, a);
    if b == [] {
      assert a + b == a;
      if first.Ok? {
        assert first.value + [] == first.value;
      }
    } else {
      var m := |b| - 1;
      assert (a + b)[..|a + b| - 1] == a + b[..m];
      ChainsCompose(dg, initial, a, b[..m]);
      if first.Ok? {
        ExtendAfter(dg, initial, first.value, ChainFrom(dg, Tip(initial, first.value), b[..m]), b[m]);
      }
    }
  }

  /** SHA-256 does not collide between events in the same place of two chains. */
  ghost predicate NoCollisionBetween(dg: Digester, a: seq<Hashed>, b: seq<Hashed>) {
    forall k :: 0 <= k < |a| && k < |b| ==> !EventsCollide(dg, a[k], b[k])
  }

  ghost predicate EventsCollide(dg: Digester, x: Hashed, y: Hashed) {
    var p, q := Preimage(x.previousEventHash, x.canonical), Preimage(y.previousEventHash, y.canonical);
    p != q && dg.sha(p) == dg.sha(q)
  }

  /** The root of a chain binds everything below it: two chains of one length with one root have the same
      canonical payloads in order, the same links and, unless empty, the same starting hash. */
  lemma {:induction false} RootBindsChain(dg: Digester, i: Digest, a: seq<Hashed>, j: Digest, b: seq<Hashed>)
    requires IsChain(dg, i, a) && IsChain(dg, j, b)
    requires |a| == |b| && Tip(i, a) == Tip(j, b)
    requires NoCollisionBetween(dg, a, b)
    ensures i == j
    ensures forall k :: 0 <= k < |a| ==>
        a[k].canonical == b[k].canonical && a[k].previousEventHash == b[k].previousEventHash
                                         && a[k].eventHash == b[k].eventHash
    decreases |a|
  {
    if a == [] {
    } else {
      var n := |a| - 1;
      assert LinkedAt(dg, i, a, n) && LinkedAt(dg, j, b, n);
      assert !EventsCollide(dg, a[n], b[n]);
      PreimageIsInjective(a[n].previousEventHash, a[n].canonical, b[n].previousEventHash, b[n].canonical);
      ChainPrefix(dg, i, a, n);
      ChainPrefix(dg, j, b, n);
      RootBindsChain(dg, i, a[..n], j, b[..n]);
      forall k | 0 <= k < |a|
        ensures a[k].canonical == b[k].canonical && a[k].previousEventHash == b[k].previousEventHash
            && a[k].eventHash == b[k].eventHash
      {
        if k < n {
          assert a[k] == a[..n][k] && b[k] == b[..n][k];
        }
      }
    }
  }

  lemma ChainPrefix(dg: Digester, initial: Digest, events: seq<Hashed>, n: nat)
    requires IsChain(dg, initial, events) && n <= |events|
    ensures IsChain(dg, initial, events[..n])
  {
    forall k | 0 <= k < n
      ensures LinkedAt(dg, initial, events[..n], k)
    {
      assert LinkedAt(dg, initial, events, k);
      assert events[..n][..k] == events[..k];
    }
  }
}
