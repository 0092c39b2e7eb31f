/** The depth-bounded search for a 32-byte OCTET STRING over raw bytes. Its loop follows the offsets that the reader
    returns, wherever they lead: a length that decodes to a negative number can take it back. The search is a function
    of how many turns each of its loops may take, and what is proved of it is when that number does not matter. */
module DerSearch {
  import opened Prelude
  import opened Der
  import opened Orbits

  const MAX_DEPTH := 8
  const NONCE_LENGTH := 32
  const OCTET_STRING: Byte := 0x04

  /** TooLong: some loop was cut off. */
  datatype Outcome = Found(value: seq<Byte>) | Absent | Malformed | TooLong

  /** One turn of a loop ends the search or goes on at another offset. */
  datatype Turn = Ended(outcome: Outcome) | On(offset: int)

  predicate IsCandidate(tag: Byte, value: seq<Byte>) {
    tag == OCTET_STRING && |value| == NONCE_LENGTH
  }

  /** SEQUENCE, or a constructed context-specific tag. */
  predicate Descends(tag: Byte) {
    tag == 0x30 || 0xa0 <= tag < 0xc0
  }

  function TurnAt(bytes: seq<Byte>, offset: int, depth: nat, limit: nat): Turn
    decreases |bytes|, 0
  {
    match ReadAt(bytes, offset)
    case Failed(_) => Ended(Malformed)
    case Nowhere => Ended(Absent)
    case Tagless(next) => On(next)
    case Whole(element) =>
      if IsCandidate(element.tag, element.value) then Ended(Found(element.value))
      else
        var nested := if Descends(element.tag) then FindWithin(element.value, depth + 1, limit) else Absent;
        if nested != Absent then Ended(nested) else On(element.nextOffset)
  }

  function Walk(bytes: seq<Byte>, offset: int, depth: nat, turns: nat, limit: nat): Outcome
    decreases |bytes|, turns
  {
    if offset >= |bytes| then Absent
    else if turns == 0 then TooLong
    else
      match TurnAt(bytes, offset, depth, limit)
      case Ended(outcome) => outcome
      case On(next) => Walk(bytes, next, depth, turns - 1, limit)
  }

  /** The search in which no loop takes more than limit turns. */
  function FindWithin(bytes: seq<Byte>, depth: nat, limit: nat): Outcome
    decreases |bytes|, limit + 1
  {
    if depth > MAX_DEPTH then Absent else Walk(bytes, 0, depth, limit, limit)
  }

  method FindAppleNonceCandidate(bytes: seq<Byte>, depth: nat, limit: nat) returns (r: Outcome)
    ensures r == FindWithin(bytes, depth, limit)
    decreases |bytes|
  {
    if depth > MAX_DEPTH {
      return Absent;
    }
    var offset: int := 0;
    var turns: nat := limit;
    while offset < |bytes|
      invariant 0 <= turns <= limit
      invariant Walk(bytes, offset, depth, turns, limit) == Walk(bytes, 0, depth, limit, limit)
      decreases turns
    {
      if turns == 0 {
        return TooLong;
      }
      turns := turns - 1;
      var read := ReadDerElement(bytes, offset);
      match read {
        case Failed(_) => return Malformed;
        case Nowhere => return Absent;
        case Tagless(next) => offset := next;
        case Whole(element) =>
          if IsCandidate(element.tag, element.value) {
            return Found(element.value);
          }
          if Descends(element.tag) {
            var nested := FindAppleNonceCandidate(element.value, depth + 1, limit);
            if nested != Absent {
              return nested;
            }
          }
          offset := element.nextOffset;
      }
    }
    return Absent;
  }

  // ---------------------------------------------------------------- what is found

  lemma {:induction false} TurnFindsInput(bytes: seq<Byte>, offset: int, depth: nat, limit: nat, found: seq<Byte>)
    requires TurnAt(bytes, offset, depth, limit) == Ended(Found(found))
    ensures |found| == NONCE_LENGTH && Occurs(bytes, found)
    decreases |bytes|, 0
  {
    var element := ReadAt(bytes, offset).element;
    if IsCandidate(element.tag, element.value) {
      assert OccursAt(element.value, element.value, 0);
    } else {
      WalkFindsInput(element.value, 0, depth + 1, limit, limit);
    }
    ValueOccurs(bytes, offset, found);
  }

  lemma {:induction false} WalkFindsInput(bytes: seq<Byte>, offset: int, depth: nat, turns: nat, limit: nat)
    requires Walk(bytes, offset, depth, turns, limit).Found?
    ensures |Walk(bytes, offset, depth, turns, limit).value| == NONCE_LENGTH
    ensures Occurs(bytes, Walk(bytes, offset, depth, turns, limit).value)
    decreases |bytes|, turns
  {
    match TurnAt(bytes, offset, depth, limit)
    case On(next) => WalkFindsInput(bytes, next, depth, turns - 1, limit);
    case Ended(outcome) => TurnFindsInput(bytes, offset, depth, limit, outcome.value);
  }

  /** Whatever the input and wherever its lengths lead, a candidate is 32 consecutive bytes of it. */
  lemma CandidateComesFromInput(bytes: seq<Byte>, depth: nat, limit: nat)
    requires FindWithin(bytes, depth, limit).Found?
    ensures |FindWithin(bytes, depth, limit).value| == 32
    ensures Occurs(bytes, FindWithin(bytes, depth, limit).value)
  {
    WalkFindsInput(bytes, 0, depth, limit, limit);
  }

  // ---------------------------------------------------------------- more turns change nothing

  lemma {:induction false} WalkKeeps(bytes: seq<Byte>, offset: int, depth: nat, turns: nat, limit: nat, more: nat,
      higher: nat)
    requires turns <= more && limit <= higher
    requires Walk(bytes, offset, depth, turns, limit) != TooLong
    ensures Walk(bytes, offset, depth, more, higher) == Walk(bytes, offset, depth, turns, limit)
    decreases |bytes|, turns
  {
    if offset < |bytes| {
      TurnKeeps(bytes, offset, depth, limit, higher);
      match TurnAt(bytes, offset, depth, limit)
      case Ended(_) =>
      case On(next) => WalkKeeps(bytes, next, depth, turns - 1, limit, more - 1, higher);
    }
  }

  lemma {:induction false} TurnKeeps(bytes: seq<Byte>, offset: int, depth: nat, limit: nat, higher: nat)
    requires limit <= higher && TurnAt(bytes, offset, depth, limit) != Ended(TooLong)
    ensures TurnAt(bytes, offset, depth, higher) == TurnAt(bytes, offset, depth, limit)
    decreases |bytes|, 0
  {
    var read := ReadAt(bytes, offset);
    if read.Whole? && Descends(read.element.tag) && depth < MAX_DEPTH {
      WalkKeeps(read.element.value, 0, depth + 1, limit, limit, higher, higher);
    }
  }

  /** A search that is not cut off has its outcome under every higher limit. */
  lemma FinishedIsFinal(bytes: seq<Byte>, depth: nat, limit: nat, higher: nat)
    requires limit <= higher && FindWithin(bytes, depth, limit) != TooLong
    ensures FindWithin(bytes, depth, higher) == FindWithin(bytes, depth, limit)
  {
    if depth <= MAX_DEPTH {
      WalkKeeps(bytes, 0, depth, limit, limit, higher, higher);
    }
  }

  // ---------------------------------------------------------------- where the loop stands

  /** From one offset inside the loop to the next; nothing once the loop has ended. */
  function NextPlace(bytes: seq<Byte>, depth: nat, limit: nat, place: Option<int>): Option<int> {
    if place.None? then None
    else
      match TurnAt(bytes, place.value, depth, limit)
      case Ended(_) => None
      case On(next) => if next < |bytes| then Some(next) else None
  }

  /** The offset at which the loop stands after i turns. */
  function Place(bytes: seq<Byte>, depth: nat, limit: nat, i: nat): Option<int> {
    if i > 0 then NextPlace(bytes, depth, limit, Place(bytes, depth, limit, i - 1))
    else if bytes == [] then None
    else Some(0)
  }

  lemma {:induction false} PlaceBelow(bytes: seq<Byte>, depth: nat, limit: nat, i: nat)
    requires Place(bytes, depth, limit, i).Some?
    ensures Place(bytes, depth, limit, i).value < |bytes|
  {
  }

  lemma {:induction false} PlacesBefore(bytes: seq<Byte>, depth: nat, limit: nat, i: nat, n: nat)
    requires i <= n && Place(bytes, depth, limit, n).Some?
    ensures Place(bytes, depth, limit, i).Some?
    decreases n - i
  {
    if i < n {
      PlacesBefore(bytes, depth, limit, i + 1, n);
    }
  }

  lemma WalkGoesOn(bytes: seq<Byte>, offset: int, depth: nat, turns: nat, limit: nat, next: int)
    requires offset < |bytes| && turns > 0 && TurnAt(bytes, offset, depth, limit) == On(next)
    ensures Walk(bytes, offset, depth, turns, limit) == Walk(bytes, next, depth, turns - 1, limit)
  {
  }

  lemma PlaceGoesOn(bytes: seq<Byte>, depth: nat, limit: nat, i: nat)
    requires Place(bytes, depth, limit, i + 1).Some?
    ensures Place(bytes, depth, limit, i).Some? && Place(bytes, depth, limit, i).value < |bytes|
    ensures TurnAt(bytes, Place(bytes, depth, limit, i).value, depth, limit)
         == On(Place(bytes, depth, limit, i + 1).value)
  {
    PlaceBelow(bytes, depth, limit, i);
  }

  lemma {:induction false} WalkFromPlace(bytes: seq<Byte>, depth: nat, limit: nat, turns: nat, i: nat)
    requires i <= turns && Place(bytes, depth, limit, i).Some?
    ensures Walk(bytes, 0, depth, turns, limit)
         == Walk(bytes, Place(bytes, depth, limit, i).value, depth, turns - i, limit)
  {
    if i > 0 {
      PlaceGoesOn(bytes, depth, limit, i - 1);
      WalkFromPlace(bytes, depth, limit, turns, i - 1);
      var before, here := Place(bytes, depth, limit, i - 1).value, Place(bytes, depth, limit, i).value;
      WalkGoesOn(bytes, before, depth, turns - (i - 1), limit, here);
    }
  }

  /** A nested search is cut off after i turns of this loop. */
  predicate NestedTooLong(bytes: seq<Byte>, depth: nat, limit: nat, i: nat) {
    var place := Place(bytes, depth, limit, i);
    place.Some? && TurnAt(bytes, place.value, depth, limit) == Ended(TooLong)
  }

  lemma {:induction false} WalkTooLongIff(bytes: seq<Byte>, depth: nat, limit: nat, turns: nat)
    ensures Walk(bytes, 0, depth, turns, limit) == TooLong
       <==> (|| Place(bytes, depth, limit, turns).Some?
             || (exists i: nat :: i < turns && NestedTooLong(bytes, depth, limit, i)))
  {
    if Place(bytes, depth, limit, turns).Some? {
      PlaceBelow(bytes, depth, limit, turns);
      WalkFromPlace(bytes, depth, limit, turns, turns);
    } else if i: nat :| i < turns && NestedTooLong(bytes, depth, limit, i) {
      PlaceBelow(bytes, depth, limit, i);
      WalkFromPlace(bytes, depth, limit, turns, i);
    } else if bytes != [] {
      var last := LastPlace(bytes, depth, limit, turns);
      WalkFromPlace(bytes, depth, limit, turns, last);
      assert !NestedTooLong(bytes, depth, limit, last);
    }
  }

  lemma {:induction false} LastPlace(bytes: seq<Byte>, depth: nat, limit: nat, n: nat) returns (last: nat)
    requires bytes != [] && Place(bytes, depth, limit, n).None?
    ensures last < n && Place(bytes, depth, limit, last).Some? && Place(bytes, depth, limit, last + 1).None?
  {
    last := 0;
    while Place(bytes, depth, limit, last + 1).Some?
      invariant last < n && Place(bytes, depth, limit, last).Some?
      decreases n - last
    {
      last := last + 1;
    }
  }

  // ---------------------------------------------------------------- a loop that comes back

  /** The loop stands at one offset twice. */
  predicate ComesBack(bytes: seq<Byte>, depth: nat, limit: nat, i: nat, j: nat) {
    && i < j && Place(bytes, depth, limit, i).Some?
    && Place(bytes, depth, limit, i) == Place(bytes, depth, limit, j)
  }

  function Mover(bytes: seq<Byte>, depth: nat, limit: nat): Option<int> -> Option<int> {
    (place: Option<int>) => NextPlace(bytes, depth, limit, place)
  }

  lemma {:induction false} PlaceIsIterate(bytes: seq<Byte>, depth: nat, limit: nat, i: nat)
    ensures Place(bytes, depth, limit, i) == Iterate(Mover(bytes, depth, limit), Place(bytes, depth, limit, 0), i)
  {
    if i > 0 {
      PlaceIsIterate(bytes, depth, limit, i - 1);
    }
  }

  /** A loop that comes back never ends. */
  lemma ComingBackIsForEver(bytes: seq<Byte>, depth: nat, limit: nat, i: nat, j: nat, n: nat)
    requires ComesBack(bytes, depth, limit, i, j)
    ensures Place(bytes, depth, limit, n).Some?
  {
    PlaceIsIterate(bytes, depth, limit, i);
    PlaceIsIterate(bytes, depth, limit, j);
    PlaceIsIterate(bytes, depth, limit, n);
    var m := OrbitStays(Mover(bytes, depth, limit), Place(bytes, depth, limit, 0), i, j, n);
    PlaceIsIterate(bytes, depth, limit, m);
    PlacesBefore(bytes, depth, limit, m, j);
  }

  function Places(bytes: seq<Byte>, depth: nat, limit: nat, n: nat): (s: seq<int>)
    requires n == 0 || Place(bytes, depth, limit, n - 1).Some?
    ensures |s| == n
  {
    if n == 0 then []
    else Places(bytes, depth, limit, n - 1) + [Place(bytes, depth, limit, n - 1).value]
  }

  lemma {:induction false} PlacesAt(bytes: seq<Byte>, depth: nat, limit: nat, n: nat, k: nat)
    requires k < n && Place(bytes, depth, limit, n - 1).Some?
    ensures Place(bytes, depth, limit, k) == Some(Places(bytes, depth, limit, n)[k])
  {
    if k < n - 1 {
      PlacesBefore(bytes, depth, limit, n - 2, n - 1);
      PlacesAt(bytes, depth, limit, n - 1, k);
    }
  }

  /** A loop that goes on from an offset stands at -1 or inside the buffer. */
  lemma GoingOnMeansInside(bytes: seq<Byte>, depth: nat, limit: nat, i: nat)
    requires Place(bytes, depth, limit, i + 1).Some?
    ensures Place(bytes, depth, limit, i).Some? && -1 <= Place(bytes, depth, limit, i).value < |bytes|
  {
    PlaceGoesOn(bytes, depth, limit, i);
  }

  /** A loop that takes more turns than there are offsets to stand at has come back. */
  lemma LongLoopComesBack(bytes: seq<Byte>, depth: nat, limit: nat) returns (i: nat, j: nat)
    requires Place(bytes, depth, limit, |bytes| + 2).Some?
    ensures j < |bytes| + 2 && ComesBack(bytes, depth, limit, i, j)
  {
    var n := |bytes| + 2;
    PlacesBefore(bytes, depth, limit, n - 1, n);
    var s := Places(bytes, depth, limit, n);
    forall k | 0 <= k < n
      ensures -1 <= s[k] < |bytes|
    {
      PlacesBefore(bytes, depth, limit, k + 1, n);
      GoingOnMeansInside(bytes, depth, limit, k);
      PlacesAt(bytes, depth, limit, n, k);
    }
    i, j := Pigeonhole(s, -1, |bytes|);
    PlacesAt(bytes, depth, limit, n, i);
    PlacesAt(bytes, depth, limit, n, j);
  }

  // ---------------------------------------------------------------- when the search never returns

  /** A limit under which every loop that ends at all has ended. */
  function Enough(bytes: seq<Byte>): nat {
    |bytes| + 2
  }

  /** Above that limit a turn does not depend on it, and neither does the whole search. */
  lemma {:induction false} TurnIgnoresLimit(bytes: seq<Byte>, offset: int, depth: nat, limit: nat)
    requires limit >= Enough(bytes)
    ensures TurnAt(bytes, offset, depth, limit) == TurnAt(bytes, offset, depth, Enough(bytes))
    decreases |bytes|, 0
  {
    var read := ReadAt(bytes, offset);
    if read.Whole? && Descends(read.element.tag) {
      EnoughIsEnough(read.element.value, depth + 1, limit);
      EnoughIsEnough(read.element.value, depth + 1, Enough(bytes));
    }
  }

  lemma {:induction false} WalkIgnoresLimit(bytes: seq<Byte>, offset: int, depth: nat, turns: nat, limit: nat)
    requires limit >= Enough(bytes)
    ensures Walk(bytes, offset, depth, turns, limit) == Walk(bytes, offset, depth, turns, Enough(bytes))
    decreases |bytes|, 1, turns
  {
    if offset < |bytes| && turns > 0 {
      TurnIgnoresLimit(bytes, offset, depth, limit);
      var turn := TurnAt(bytes, offset, depth, limit);
      if turn.On? {
        WalkIgnoresLimit(bytes, turn.offset, depth, turns - 1, limit);
      }
    }
  }

  /** A loop that is cut off at enough turns is cut off at any number of them. */
  lemma CutOffForEver(bytes: seq<Byte>, depth: nat, limit: nat, turns: nat)
    requires Walk(bytes, 0, depth, Enough(bytes), limit) == TooLong && turns >= Enough(bytes)
    ensures Walk(bytes, 0, depth, turns, limit) == TooLong
  {
    WalkTooLongIff(bytes, depth, limit, Enough(bytes));
    WalkTooLongIff(bytes, depth, limit, turns);
    if Place(bytes, depth, limit, Enough(bytes)).Some? {
      var i, j := LongLoopComesBack(bytes, depth, limit);
      ComingBackIsForEver(bytes, depth, limit, i, j, turns);
    }
  }

  /** The length of the input bounds every loop that ends: a higher limit changes nothing. */
  lemma {:induction false} EnoughIsEnough(bytes: seq<Byte>, depth: nat, limit: nat)
    requires limit >= Enough(bytes)
    ensures FindWithin(bytes, depth, limit) == FindWithin(bytes, depth, Enough(bytes))
    decreases |bytes|, 2
  {
    if depth <= MAX_DEPTH {
      WalkIgnoresLimit(bytes, 0, depth, limit, limit);
      if Walk(bytes, 0, depth, Enough(bytes), Enough(bytes)) == TooLong {
        CutOffForEver(bytes, depth, Enough(bytes), limit);
      } else {
        WalkKeeps(bytes, 0, depth, Enough(bytes), Enough(bytes), limit, Enough(bytes));
      }
    }
  }

  /** However many turns its loops are given, the search is cut off. */
  ghost predicate NeverReturns(bytes: seq<Byte>, depth: nat) {
    forall limit: nat :: FindWithin(bytes, depth, limit) == TooLong
  }

  /** One limit tells whether the search returns at all. */
  lemma NeverReturnsMeans(bytes: seq<Byte>, depth: nat)
    ensures NeverReturns(bytes, depth) <==> FindWithin(bytes, depth, Enough(bytes)) == TooLong
  {
    if FindWithin(bytes, depth, Enough(bytes)) == TooLong {
      forall limit: nat
        ensures FindWithin(bytes, depth, limit) == TooLong
      {
        if limit >= Enough(bytes) {
          EnoughIsEnough(bytes, depth, limit);
        } else if FindWithin(bytes, depth, limit) != TooLong {
          FinishedIsFinal(bytes, depth, limit, Enough(bytes));
        }
      }
    }
  }

  /** After i turns the loop stands at an element whose content is searched for ever. */
  ghost predicate EntersEndless(bytes: seq<Byte>, depth: nat, i: nat) {
    var place := Place(bytes, depth, Enough(bytes), i);
    place.Some?
    && var read := ReadAt(bytes, place.value);
       && read.Whole? && !IsCandidate(read.element.tag, read.element.value) && Descends(read.element.tag)
       && NeverReturns(read.element.value, depth + 1)
  }

  lemma EntersEndlessMeans(bytes: seq<Byte>, depth: nat, i: nat)
    ensures EntersEndless(bytes, depth, i) <==> NestedTooLong(bytes, depth, Enough(bytes), i)
  {
    var place := Place(bytes, depth, Enough(bytes), i);
    if place.Some? && ReadAt(bytes, place.value).Whole? {
      var value := ReadAt(bytes, place.value).element.value;
      NeverReturnsMeans(value, depth + 1);
      EnoughIsEnough(value, depth + 1, Enough(bytes));
    }
  }

  /** The search never returns exactly when its loop comes back to an offset, or stands at an element whose own search
      never returns. */
  lemma NeverReturnsIff(bytes: seq<Byte>, depth: nat)
    requires depth <= MAX_DEPTH
    ensures NeverReturns(bytes, depth)
       <==> (|| (exists i: nat, j: nat :: ComesBack(bytes, depth, Enough(bytes), i, j))
             || (exists i: nat :: EntersEndless(bytes, depth, i)))
  {
    var limit := Enough(bytes);
    NeverReturnsMeans(bytes, depth);
    WalkTooLongIff(bytes, depth, limit, limit);
    if i: nat, j: nat :| ComesBack(bytes, depth, limit, i, j) {
      ComingBackIsForEver(bytes, depth, limit, i, j, limit);
    } else if i: nat :| EntersEndless(bytes, depth, i) {
      EntersEndlessMeans(bytes, depth, i);
      if i >= limit {
        PlacesBefore(bytes, depth, limit, limit, i);
      }
    } else if NeverReturns(bytes, depth) {
      if Place(bytes, depth, limit, limit).Some? {
        var i, j := LongLoopComesBack(bytes, depth, limit);
      } else {
        var i: nat :| i < limit && NestedTooLong(bytes, depth, limit, i);
        EntersEndlessMeans(bytes, depth, i);
      }
    }
  }

  /** A length field that decodes to -6 after a six-byte header: the next element is the same element, for ever. */
  lemma NoProgressExample()
    ensures var bytes: seq<Byte> := [0x02, 0x84, 0xff, 0xff, 0xff, 0xfa];
      ElementAt(bytes, 0) == Ok(Element(0x02, [], 0)) && NeverReturns(bytes, 0)
  {
    var bytes: seq<Byte> := [0x02, 0x84, 0xff, 0xff, 0xff, 0xfa];
    StandingStill();
    assert ComesBack(bytes, 0, Enough(bytes), 0, 1);
    NeverReturnsIff(bytes, 0);
  }

  lemma StandingStill()
    ensures var bytes: seq<Byte> := [0x02, 0x84, 0xff, 0xff, 0xff, 0xfa];
      ElementAt(bytes, 0) == Ok(Element(0x02, [], 0))
  {
    var bytes: seq<Byte> := [0x02, 0x84, 0xff, 0xff, 0xff, 0xfa];
    var octets: seq<Byte> := [0xff, 0xff, 0xff, 0xfa];
    assert bytes[2..6] == octets;
    assert octets[..1] == [0xff] && octets[..2] == [0xff, 0xff] && octets[..3] == [0xff, 0xff, 0xff];
    assert octets[..3][..2] == octets[..2] && octets[..2][..1] == octets[..1];
    assert BigEndian(octets[..1]) == 0xff;
    assert BigEndian(octets[..2]) == 0xffff;
    assert BigEndian(octets[..3]) == 0xff_ffff;
    assert ToInt32(BigEndian(octets)) == -6;
  }

  // ---------------------------------------------------------------- when every length is below 2^31

  /** No length field that the search reads, from offset on and inside what it enters, decodes to a negative number. */
  predicate LengthsFit(bytes: seq<Byte>, offset: nat, depth: nat)
    decreases |bytes|, |bytes| - offset
  {
    if offset >= |bytes| || depth > MAX_DEPTH || ElementAt(bytes, offset).Err? then true
    else
      var element := ElementAt(bytes, offset).value;
      var nested := if Descends(element.tag) then FindWithin(element.value, depth + 1, Enough(element.value))
          else Absent;
      && LengthAt(bytes, offset + 1).value.length >= 0
      && (!IsCandidate(element.tag, element.value) ==>
            && (Descends(element.tag) ==> LengthsFit(element.value, 0, depth + 1))
            && (nested == Absent ==> LengthsFit(bytes, element.nextOffset, depth)))
  }

  /** Then every turn moves strictly forward, and the search returns within as many turns as there are bytes. */
  lemma {:induction false} FittingLengthsReturn(bytes: seq<Byte>, offset: nat, depth: nat, turns: nat, limit: nat)
    requires LengthsFit(bytes, offset, depth) && depth <= MAX_DEPTH
    requires offset <= |bytes| && turns >= |bytes| - offset && limit >= |bytes|
    ensures Walk(bytes, offset, depth, turns, limit) != TooLong
    ensures offset < |bytes| && TurnAt(bytes, offset, depth, limit).On? ==>
      TurnAt(bytes, offset, depth, limit).offset >= offset + 2
    decreases |bytes|, |bytes| - offset
  {
    if offset < |bytes| && ElementAt(bytes, offset).Ok? {
      var element := ElementAt(bytes, offset).value;
      if !IsCandidate(element.tag, element.value) {
        if Descends(element.tag) {
          NestedFits(element.value, depth + 1, limit);
        }
        if TurnAt(bytes, offset, depth, limit).On? {
          FittingLengthsReturn(bytes, element.nextOffset, depth, turns - 1, limit);
        }
      }
    }
  }

  lemma {:induction false} NestedFits(bytes: seq<Byte>, depth: nat, limit: nat)
    requires LengthsFit(bytes, 0, depth) && limit >= |bytes|
    ensures FindWithin(bytes, depth, limit) != TooLong
    ensures FindWithin(bytes, depth, limit) == FindWithin(bytes, depth, Enough(bytes))
    decreases |bytes|, |bytes| + 1
  {
    if depth <= MAX_DEPTH {
      FittingLengthsReturn(bytes, 0, depth, limit, limit);
      FinishedIsFinal(bytes, depth, limit, limit + Enough(bytes));
      EnoughIsEnough(bytes, depth, limit + Enough(bytes));
    }
  }
}
