/** The DER reader behind the attestation nonce: tag, length and value of ITU-T X.690 sections 8.1.2 and 8.1.3,
    read from raw bytes, and the depth-bounded search for a 32-byte OCTET STRING.
    A mask test on a byte is written as the range of values that passes it. */
module Der {
  import opened Prelude

  type Byte = b: int | 0 <= b < 256

  const TWO_31 := 0x8000_0000
  const TWO_32 := 0x1_0000_0000

  datatype DerError = LengthOutOfBounds | LengthInvalid | ElementOutOfBounds | ElementTooLong

  datatype Length = Length(length: int, nextOffset: nat)

  datatype Element = Element(tag: Byte, value: seq<Byte>, nextOffset: int)

  /** What a read gives at any offset the search can come to. Whole: an element. Tagless: at offset -1 the tag is
      undefined and only the length is read. Nowhere: before that the length is undefined too, and the end is not
      a number. */
  datatype Read = Whole(element: Element) | Tagless(nextOffset: int) | Nowhere | Failed(error: DerError)

  // ---------------------------------------------------------------- 32-bit shifting

  /** The signed 32-bit number that the bitwise operators make of an integer. */
  function ToInt32(x: int): (r: int)
    ensures -TWO_31 <= r < TWO_31 && (r - x) % TWO_32 == 0
  {
    (x + TWO_31) % TWO_32 - TWO_31
  }

  function BigEndian(octets: seq<Byte>): nat {
    if octets == [] then 0 else 256 * BigEndian(octets[..|octets| - 1]) + octets[|octets| - 1]
  }

  function Pow256(n: nat): (p: nat)
    ensures p > 0
  {
    if n == 0 then 1 else 256 * Pow256(n - 1)
  }

  lemma ShiftIn(x: int, b: Byte)
    ensures ToInt32(256 * ToInt32(x) + b) == ToInt32(256 * x + b)
  {
    var k := (x - ToInt32(x)) / TWO_32;
    assert x == ToInt32(x) + k * TWO_32;
    assert 256 * x + b == 256 * ToInt32(x) + b + (256 * k) * TWO_32;
  }

  // ---------------------------------------------------------------- readDerLength

  /** The length field at offset: its value is the signed 32-bit remainder of the octets' value. */
  function LengthAt(bytes: seq<Byte>, offset: nat): (r: Result<Length, DerError>)
    ensures r.Ok? ==> offset < r.value.nextOffset <= |bytes| && -TWO_31 <= r.value.length < TWO_31
  {
    if offset >= |bytes| then Err(LengthOutOfBounds)
    else if bytes[offset] < 0x80 then Ok(Length(bytes[offset], offset + 1))
    else
      var count := bytes[offset] - 0x80;
      if count == 0 || offset + 1 + count > |bytes| then Err(LengthInvalid)
      else Ok(Length(ToInt32(BigEndian(bytes[offset + 1..offset + 1 + count])), offset + 1 + count))
  }

  method ReadDerLength(bytes: seq<Byte>, offset: nat) returns (r: Result<Length, DerError>)
    ensures r == LengthAt(bytes, offset)
  {
    if offset >= |bytes| {
      return Err(LengthOutOfBounds);
    }
    var first := bytes[offset];
    if first < 0x80 {
      return Ok(Length(first, offset + 1));
    }
    var byteLength := first - 0x80;
    if byteLength == 0 || offset + 1 + byteLength > |bytes| {
      return Err(LengthInvalid);
    }
    var length := 0;
    ghost var octets := bytes[offset + 1..offset + 1 + byteLength];
    for index := 0 to byteLength
      invariant length == ToInt32(BigEndian(octets[..index]))
    {
      ShiftIn(BigEndian(octets[..index]), octets[index]);
      assert octets[..index + 1][..index] == octets[..index];
      length := ToInt32(256 * length + bytes[offset + 1 + index]);
    }
    assert octets[..byteLength] == octets;
    return Ok(Length(length, offset + 1 + byteLength));
  }

  // ---------------------------------------------------------------- readDerElement

  /** Buffer.subarray: a negative end counts from the end of the buffer, a reversed range is empty. */
  function Subarray(bytes: seq<Byte>, start: nat, end: int): (s: seq<Byte>)
    requires start <= |bytes| && end <= |bytes|
    ensures |s| <= |bytes| - start
  {
    var stop := if end < 0 then |bytes| + end else end;
    if stop <= start then [] else bytes[start..stop]
  }

  function ElementAt(bytes: seq<Byte>, offset: nat): (r: Result<Element, DerError>)
    ensures r.Ok? ==> r.value.nextOffset <= |bytes| && |r.value.value| + 2 <= |bytes| - offset
  {
    if offset >= |bytes| then Err(ElementOutOfBounds)
    else
      match LengthAt(bytes, offset + 1)
      case Err(error) => Err(error)
      case Ok(field) =>
        var end := field.nextOffset + field.length;
        if end > |bytes| then Err(ElementTooLong)
        else Ok(Element(bytes[offset], Subarray(bytes, field.nextOffset, end), end))
  }

  function ReadAt(bytes: seq<Byte>, offset: int): Read {
    if offset >= 0 then
      match ElementAt(bytes, offset)
      case Err(error) => Failed(error)
      case Ok(element) => Whole(element)
    else if offset == -1 then
      match LengthAt(bytes, 0)
      case Err(error) => Failed(error)
      case Ok(field) =>
        var end := field.nextOffset + field.length;
        if end > |bytes| then Failed(ElementTooLong) else Tagless(end)
    else Nowhere
  }

  method ReadDerElement(bytes: seq<Byte>, offset: int) returns (r: Read)
    ensures r == ReadAt(bytes, offset)
  {
    if offset >= |bytes| && offset >= 0 {
      return Failed(ElementOutOfBounds);
    }
    if offset < -1 {
      return Nowhere;
    }
    var field := ReadDerLength(bytes, offset + 1);
    if field.Err? {
      return Failed(field.error);
    }
    var valueStart := field.value.nextOffset;
    var valueEnd := valueStart + field.value.length;
    if valueEnd > |bytes| {
      return Failed(ElementTooLong);
    }
    if offset == -1 {
      return Tagless(valueEnd);
    }
    return Whole(Element(bytes[offset], Subarray(bytes, valueStart, valueEnd), valueEnd));
  }

  // ---------------------------------------------------------------- what the reader accepts

  lemma {:induction false} BigEndianBound(octets: seq<Byte>)
    ensures BigEndian(octets) < Pow256(|octets|)
  {
    if octets == [] {
    } else {
      BigEndianBound(octets[..|octets| - 1]);
    }
  }

  lemma {:induction false} BigEndianSplit(high: seq<Byte>, low: seq<Byte>)
    ensures BigEndian(high + low) == Pow256(|low|) * BigEndian(high) + BigEndian(low)
  {
    if low == [] {
      assert high + low == high;
    } else {
      var n := |low| - 1;
      BigEndianSplit(high, low[..n]);
      assert (high + low)[..|high| + n] == high + low[..n];
      assert 256 * (Pow256(n) * BigEndian(high)) == Pow256(n + 1) * BigEndian(high);
    }
  }

  lemma WholeTurns(k: int, x: int)
    ensures ToInt32(TWO_32 * k + x) == ToInt32(x)
  {
    assert (TWO_32 * k + (x + TWO_31)) % TWO_32 == (x + TWO_31) % TWO_32;
  }

  lemma SmallPowers()
    ensures Pow256(2) == 0x1_0000 && Pow256(3) == 0x100_0000 && Pow256(4) == TWO_32
  {
    assert Pow256(2) == 0x1_0000;
  }

  /** Only the last four octets of a long length survive the shifting. */
  lemma OnlyFourOctetsCount(octets: seq<Byte>)
    requires |octets| >= 4
    ensures ToInt32(BigEndian(octets)) == ToInt32(BigEndian(octets[|octets| - 4..]))
  {
    var high, low := octets[..|octets| - 4], octets[|octets| - 4..];
    BigEndianSplit(high, low);
    SmallPowers();
    assert octets == high + low;
    WholeTurns(BigEndian(high), BigEndian(low));
  }

  lemma TopOctetIsSign(octets: seq<Byte>)
    requires |octets| == 4
    ensures BigEndian(octets) < TWO_32
    ensures BigEndian(octets) >= TWO_31 <==> octets[0] >= 0x80
  {
    BigEndianSplit(octets[..1], octets[1..]);
    BigEndianBound(octets[1..]);
    SmallPowers();
    assert octets == octets[..1] + octets[1..];
    assert BigEndian(octets[..1]) == octets[0];
  }

  /** The decoded length is negative exactly when there are at least four octets and the fourth from the end
      has its top bit set; it is the encoded value exactly below 2^31. */
  lemma LengthIsExact(octets: seq<Byte>)
    ensures ToInt32(BigEndian(octets)) < 0 <==> |octets| >= 4 && octets[|octets| - 4] >= 0x80
    ensures ToInt32(BigEndian(octets)) == BigEndian(octets) <==> BigEndian(octets) < TWO_31
  {
    SmallPowers();
    if |octets| < 4 {
      BigEndianBound(octets);
    } else {
      OnlyFourOctetsCount(octets);
      TopOctetIsSign(octets[|octets| - 4..]);
    }
  }

  /** The value of the last four octets, or of all of them if there are fewer. */
  function LastFour(octets: seq<Byte>): nat {
    BigEndian(if |octets| < 4 then octets else octets[|octets| - 4..])
  }

  lemma SignedIsLastFour(octets: seq<Byte>)
    ensures LastFour(octets) < TWO_32
    ensures ToInt32(BigEndian(octets)) == if LastFour(octets) < TWO_31 then LastFour(octets)
        else LastFour(octets) - TWO_32
  {
    SmallPowers();
    if |octets| < 4 {
      BigEndianBound(octets);
    } else {
      OnlyFourOctetsCount(octets);
      TopOctetIsSign(octets[|octets| - 4..]);
    }
  }

  /** An element ends at or before its own start exactly when its length is written in a counted number of octets
      whose last four spell a value from 2^31 up to 2^32 less the size of tag and length field. */
  lemma ReadGoesBackIff(bytes: seq<Byte>, offset: nat)
    requires ElementAt(bytes, offset).Ok?
    ensures var start := LengthAt(bytes, offset + 1).value.nextOffset;
      ElementAt(bytes, offset).value.nextOffset <= offset
      <==> bytes[offset + 1] >= 0x80 && TWO_31 <= LastFour(bytes[offset + 2..start]) <= TWO_32 - (start - offset)
  {
    if bytes[offset + 1] >= 0x80 {
      SignedIsLastFour(bytes[offset + 2..LengthAt(bytes, offset + 1).value.nextOffset]);
    }
  }

  ghost predicate OccursAt(bytes: seq<Byte>, value: seq<Byte>, at: nat) {
    at + |value| <= |bytes| && bytes[at..at + |value|] == value
  }

  ghost predicate Occurs(bytes: seq<Byte>, value: seq<Byte>) {
    exists at: nat :: OccursAt(bytes, value, at)
  }

  lemma ValueIsSlice(bytes: seq<Byte>, offset: nat)
    requires ElementAt(bytes, offset).Ok?
    ensures var value, start := ElementAt(bytes, offset).value.value, LengthAt(bytes, offset + 1).value.nextOffset;
      start + |value| <= |bytes| && value == bytes[start..start + |value|]
  {
  }

  lemma SliceOfSlice(bytes: seq<Byte>, start: nat, end: nat, first: nat, last: nat)
    requires start <= end <= |bytes| && first <= last <= end - start
    ensures bytes[start..end][first..last] == bytes[start + first..start + last]
  {
    var outer, inner := bytes[start..end], bytes[start + first..start + last];
    assert |outer[first..last]| == |inner|;
    assert forall k :: 0 <= k < |inner| ==> outer[first..last][k] == inner[k];
  }

  lemma ValueOccurs(bytes: seq<Byte>, offset: nat, found: seq<Byte>)
    requires ElementAt(bytes, offset).Ok? && Occurs(ElementAt(bytes, offset).value.value, found)
    ensures Occurs(bytes, found)
  {
    var value := ElementAt(bytes, offset).value.value;
    var start := LengthAt(bytes, offset + 1).value.nextOffset;
    var at: nat :| OccursAt(value, found, at);
    ValueIsSlice(bytes, offset);
    SliceOfSlice(bytes, start, start + |value|, at, at + |found|);
    assert OccursAt(bytes, found, start + at);
  }
}
