/** Counting votes without a count query: single-row range reads at doubling and then halving offsets. */
module VoteProbe {
  import opened Prelude

  datatype Vote = Vote(pollId: string, optionId: string, isValid: bool, hasSnapshot: bool)

  datatype Query = Query(pollId: string, requireSnapshot: bool, optionId: Option<string>)

  predicate Matches(vote: Vote, query: Query) {
    && vote.pollId == query.pollId && vote.isValid
    && (query.optionId.Some? && query.optionId.value != "" ==> vote.optionId == query.optionId.value)
    && (query.requireSnapshot ==> vote.hasSnapshot)
  }

  function Matching(votes: seq<Vote>, query: Query): seq<Vote> {
    if votes == [] then []
    else (if Matches(votes[0], query) then [votes[0]] else []) + Matching(votes[1..], query)
  }

  function Count(votes: seq<Vote>, query: Query): nat {
    |Matching(votes, query)|
  }

  /** The rows of a result at the offsets from first to last, both included. */
  function Range<T>(rows: seq<T>, first: nat, last: nat): seq<T>
    requires first <= last
  {
    if first >= |rows| then [] else rows[first..if last < |rows| then last + 1 else |rows|]
  }

  function HasValidVoteAtOffset(votes: seq<Vote>, query: Query, offset: int): (r: bool)
    ensures r <==> Max(0, offset) < Count(votes, query)
  {
    |Range(Matching(votes, query), Max(0, offset), Max(0, offset))| > 0
  }

  /** A vote that is to be counted: valid, of the poll, for the option if one is named, and with a location if that is
      asked for. */
  predicate IsWanted(vote: Vote, query: Query) {
    && vote.isValid && vote.pollId == query.pollId
    && (query.optionId.None? || query.optionId == Some("") || query.optionId == Some(vote.optionId))
    && (!query.requireSnapshot || vote.hasSnapshot)
  }

  function WantedPlaces(votes: seq<Vote>, query: Query): set<nat> {
    set k | 0 <= k < |votes| && IsWanted(votes[k], query)
  }

  lemma MatchesIff(vote: Vote, query: Query)
    ensures Matches(vote, query) <==> IsWanted(vote, query)
  {
  }

  lemma WantedGrow(votes: seq<Vote>, query: Query)
    requires votes != []
    ensures var n := |votes| - 1;
      && n !in WantedPlaces(votes[..n], query)
      && WantedPlaces(votes, query)
         == WantedPlaces(votes[..n], query) + if IsWanted(votes[n], query) then {n} else {}
  {
  }

  /** The number that is counted is that of the wanted votes. */
  lemma {:induction false} CountIsOfWanted(votes: seq<Vote>, query: Query)
    ensures Count(votes, query) == |WantedPlaces(votes, query)|
  {
    if votes != [] {
      var n := |votes| - 1;
      CountIsOfWanted(votes[..n], query);
      MatchingGrows(votes[..n], votes[n], query);
      MatchesIff(votes[n], query);
      WantedGrow(votes, query);
      assert votes == votes[..n] + [votes[n]];
    }
  }

  lemma {:induction false} MatchingGrows(votes: seq<Vote>, vote: Vote, query: Query)
    ensures Matching(votes + [vote], query) == Matching(votes, query) + if Matches(vote, query) then [vote] else []
  {
    if votes != [] {
      assert (votes + [vote])[1..] == votes[1..] + [vote];
      MatchingGrows(votes[1..], vote, query);
    }
  }

  // ---------------------------------------------------------------- logarithms

  /** The largest e with 2^e at most n; 0 for 0. */
  function Log2(n: nat): nat {
    if n < 2 then 0 else 1 + Log2(n / 2)
  }

  function CeilLog2(n: nat): nat {
    if n < 2 then 0 else 1 + CeilLog2((n + 1) / 2)
  }

  lemma {:induction false} CeilLog2Monotone(a: nat, b: nat)
    requires a <= b
    ensures CeilLog2(a) <= CeilLog2(b)
    decreases b
  {
    if a >= 2 {
      CeilLog2Monotone((a + 1) / 2, (b + 1) / 2);
    }
  }

  lemma {:induction false} CeilOfPower(w: nat, e: nat)
    requires w <= Pow2(e)
    ensures CeilLog2(w) <= e
    decreases e
  {
    if w >= 2 {
      CeilOfPower((w + 1) / 2, e - 1);
    }
  }

  lemma {:induction false} PowerAbove(n: nat)
    ensures n < Pow2(Log2(n) + 1)
  {
    if n >= 2 {
      PowerAbove(n / 2);
    }
  }

  lemma {:induction false} PowerBelow(e: nat, n: nat)
    requires Pow2(e) <= n
    ensures e <= Log2(n)
  {
    if e > 0 {
      PowerBelow(e - 1, n / 2);
    }
  }

  // ---------------------------------------------------------------- countValidVotesWithProbe

  /** The count when the hint is positive and not too high. */
  function Counted(hint: int, count: nat): int {
    if hint <= 0 then 0 else Max(hint, count)
  }

  method CountValidVotesWithProbe(votes: seq<Vote>, query: Query, hintedCount: real) returns (r: int, probes: nat)
    ensures var hint, count := Trunc(hintedCount), |WantedPlaces(votes, query)|;
      r == if hint <= 0 then 0 else if hint > count then hint else count
    ensures probes <= 2 * Log2(|WantedPlaces(votes, query)|) + 3
  {
    ghost var n := Count(votes, query);
    CountIsOfWanted(votes, query);
    var hint := Max(0, Trunc(hintedCount));
    probes := 0;
    if hint == 0 {
      return 0, probes;
    }
    var present := HasValidVoteAtOffset(votes, query, hint);
    probes := 1;
    if !present {
      return hint, probes;
    }
    var lower, upper := hint, Max(hint + 1, hint * 2);
    present, probes := HasValidVoteAtOffset(votes, query, upper), probes + 1;
    ghost var doublings: nat := 0;
    while present
      invariant hint <= lower < n && upper == 2 * lower
      invariant present <==> upper < n
      invariant probes == doublings + 2 && Pow2(doublings) <= lower
      decreases n - lower
    {
      lower, upper := upper, upper * 2;
      doublings := doublings + 1;
      present, probes := HasValidVoteAtOffset(votes, query, upper), probes + 1;
    }
    PowerBelow(doublings, n);
    PowerAbove(n);
    CeilOfPower(lower, Log2(n) + 1);
    var halvings: nat;
    r, halvings := Bisect(votes, query, lower, upper);
    probes := probes + halvings;
  }

  /** The halving loop: the count lies above lower and not above upper. */
  method Bisect(votes: seq<Vote>, query: Query, low: nat, high: nat) returns (r: int, probes: nat)
    requires low < Count(votes, query) <= high
    ensures r == Count(votes, query) && probes <= CeilLog2(high - low)
  {
    var lower, upper := low, high;
    probes := 0;
    while lower + 1 < upper
      invariant 0 <= lower < Count(votes, query) <= upper
      invariant probes + CeilLog2(upper - lower) <= CeilLog2(high - low)
    {
      var midpoint := (lower + upper) / 2;
      ghost var width := upper - lower;
      var present := HasValidVoteAtOffset(votes, query, midpoint);
      probes := probes + 1;
      if present {
        lower := midpoint;
      } else {
        upper := midpoint;
      }
      CeilLog2Monotone(upper - lower, (width + 1) / 2);
    }
    r := lower + 1;
  }

  /** The probe is right exactly when the hint is positive and at most the count, or nothing is there to count. */
  lemma ProbeIsRightIff(hint: int, count: nat)
    ensures Counted(hint, count) == count <==> 0 < hint <= count || (hint <= 0 && count == 0)
  {
  }
}
