/** Which keys a cursor is accepted with: a UUID of RFC 4122 shape and an ISO timestamp, both checked as text. The
    calendar that turns an instant into date and time is the database's and a parameter. */
module Cursors {
  import opened Text
  import opened Comments

  // ---------------------------------------------------------------- identifiers

  /** The last count hexadecimal digits of a number. */
  function HexDigits(v: nat, count: nat): (s: string)
    ensures |s| == count && IsHex(s)
  {
    if count == 0 then "" else HexDigits(v / 16, count - 1) + [DigitChar(v % 16)]
  }

  /** A uuid column as text. */
  function UuidText(id: nat): (t: string)
    ensures |t| == 36
  {
    var h := HexDigits(id, 32);
    h[..8] + "-" + h[8..12] + "-" + h[12..16] + "-" + h[16..20] + "-" + h[20..]
  }

  predicate IsDash(k: nat) {
    k == 8 || k == 13 || k == 18 || k == 23
  }

  /** UUID_PATTERN: five groups, the third starting with a version from 1 to 8, the fourth with a
      variant from 8 to b. */
  predicate IsCursorId(t: string) {
    && |t| == 36
    && (forall k :: 0 <= k < 36 ==> if IsDash(k) then t[k] == '-' else IsHexDigit(LowerChar(t[k])))
    && '1' <= t[14] <= '8'
    && (t[19] == '8' || t[19] == '9' || LowerChar(t[19]) == 'a' || LowerChar(t[19]) == 'b')
  }

  /** Version and variant as RFC 4122 has them. */
  predicate IsRfcUuid(id: nat) {
    var h := HexDigits(id, 32);
    '1' <= h[12] <= '8' && (h[16] == '8' || h[16] == '9' || h[16] == 'a' || h[16] == 'b')
  }

  /** What randomUUID returns: version 4. */
  predicate IsRandomUuid(id: nat) {
    HexDigits(id, 32)[12] == '4' && IsRfcUuid(id)
  }

  lemma UuidTextAt(id: nat, k: nat)
    requires k < 36
    ensures UuidText(id)[k] == if IsDash(k) then '-'
        else HexDigits(id, 32)[k - (if k < 8 then 0 else if k < 13 then 1 else if k < 18 then 2 else if k < 23 then 3
            else 4)]
  {
  }

  lemma HexStaysHex(c: char)
    requires IsHexDigit(c)
    ensures LowerChar(c) == c
  {
  }

  /** A stored id is accepted exactly if its version and variant are those of RFC 4122. */
  lemma IdAcceptedIff(id: nat)
    ensures IsCursorId(UuidText(id)) <==> IsRfcUuid(id)
  {
    forall k | 0 <= k < 36
      ensures if IsDash(k) then UuidText(id)[k] == '-' else IsHexDigit(LowerChar(UuidText(id)[k]))
    {
      UuidTextAt(id, k);
      if !IsDash(k) {
        HexStaysHex(UuidText(id)[k]);
      }
    }
    UuidTextAt(id, 14);
    UuidTextAt(id, 19);
    HexStaysHex(UuidText(id)[19]);
  }

  // ---------------------------------------------------------------- timestamps

  datatype Stamp = Stamp(year: nat, month: nat, day: nat, hour: nat, minute: nat, second: nat, micros: nat)

  /** A date and time of day in the years 0 to 9999. */
  predicate InCalendar(s: Stamp) {
    && s.year < 10000 && 1 <= s.month <= 12 && 1 <= s.day <= 31
    && s.hour < 24 && s.minute < 60 && s.second < 60 && s.micros < 1000000
  }

  predicate IsDigit(c: char) {
    '0' <= c <= '9'
  }

  predicate AllDigits(s: string) {
    forall k :: 0 <= k < |s| ==> IsDigit(s[k])
  }

  function Decimal(v: nat, count: nat): (s: string)
    ensures |s| == count && AllDigits(s)
  {
    if count == 0 then "" else Decimal(v / 10, count - 1) + [(v % 10 + '0' as int) as char]
  }

  function Number(s: string): nat
    requires AllDigits(s)
  {
    if s == "" then 0 else 10 * Number(s[..|s| - 1]) + (s[|s| - 1] as int - '0' as int)
  }

  function Pow10(n: nat): (p: nat)
    ensures p > 0
  {
    if n == 0 then 1 else 10 * Pow10(n - 1)
  }

  lemma {:induction false} DecimalReadsBack(v: nat, count: nat)
    requires v < Pow10(count)
    ensures Number(Decimal(v, count)) == v
  {
    if count > 0 {
      DecimalReadsBack(v / 10, count - 1);
      assert Decimal(v, count)[..count - 1] == Decimal(v / 10, count - 1);
    }
  }

  function DropZeros(s: string): (t: string)
    ensures t <= s && (t != "" ==> t[|t| - 1] != '0')
  {
    if s != "" && s[|s| - 1] == '0' then DropZeros(s[..|s| - 1]) else s
  }

  /** Microseconds without trailing zeros, nothing for none. */
  function Fraction(micros: nat): string {
    if DropZeros(Decimal(micros, 6)) == "" then "" else "." + DropZeros(Decimal(micros, 6))
  }

  function DateText(s: Stamp): (t: string)
    ensures |t| == 19
  {
    Decimal(s.year, 4) + "-" + Decimal(s.month, 2) + "-" + Decimal(s.day, 2) + "T"
    + Decimal(s.hour, 2) + ":" + Decimal(s.minute, 2) + ":" + Decimal(s.second, 2)
  }

  /** A timestamptz column as JSON text, in UTC. */
  function StampText(s: Stamp): string {
    DateText(s) + Fraction(s.micros) + "+00:00"
  }

  predicate IsZone(t: string) {
    || t == "Z"
    || (|t| == 6 && (t[0] == '+' || t[0] == '-') && IsDigit(t[1]) && IsDigit(t[2]) && t[3] == ':' && IsDigit(t[4])
        && IsDigit(t[5]))
  }

  predicate IsFractionAndZone(t: string, digits: nat) {
    digits < |t| && t[0] == '.' && AllDigits(t[1..digits + 1]) && IsZone(t[digits + 1..])
  }

  predicate IsDate(t: string) {
    && |t| == 19
    && AllDigits(t[0..4]) && t[4] == '-' && AllDigits(t[5..7]) && t[7] == '-' && AllDigits(t[8..10]) && t[10] == 'T'
    && AllDigits(t[11..13]) && t[13] == ':' && AllDigits(t[14..16]) && t[16] == ':' && AllDigits(t[17..19])
  }

  /** ISO_TIMESTAMP_PATTERN */
  predicate IsTimestampText(t: string) {
    && |t| > 19 && IsDate(t[..19])
    && (IsZone(t[19..]) || exists digits :: 1 <= digits <= 6 && IsFractionAndZone(t[19..], digits))
  }

  /** Date.parse gives a number: every field is one of the calendar. */
  predicate DateParses(t: string)
    requires IsDate(t)
  {
    && 1 <= Number(t[5..7]) <= 12 && 1 <= Number(t[8..10]) <= 31
    && Number(t[11..13]) < 24 && Number(t[14..16]) < 60 && Number(t[17..19]) < 60
  }

  predicate IsCursorTimestamp(t: string) {
    IsTimestampText(t) && DateParses(t[..19])
  }

  lemma DateFields(s: Stamp)
    ensures var t := DateText(s);
      && t[0..4] == Decimal(s.year, 4) && t[4] == '-' && t[5..7] == Decimal(s.month, 2) && t[7] == '-'
      && t[8..10] == Decimal(s.day, 2) && t[10] == 'T'
  {
  }

  lemma TimeFields(s: Stamp)
    ensures var t := DateText(s);
      && t[11..13] == Decimal(s.hour, 2) && t[13] == ':' && t[14..16] == Decimal(s.minute, 2) && t[16] == ':'
      && t[17..19] == Decimal(s.second, 2)
  {
  }

  lemma TwoDigits(v: nat)
    requires v < 100
    ensures Number(Decimal(v, 2)) == v
  {
    assert Pow10(2) == 100;
    DecimalReadsBack(v, 2);
  }

  lemma DateTextIsDate(s: Stamp)
    requires InCalendar(s)
    ensures IsDate(DateText(s)) && DateParses(DateText(s))
  {
    DateFields(s);
    TimeFields(s);
    TwoDigits(s.month);
    TwoDigits(s.day);
    TwoDigits(s.hour);
    TwoDigits(s.minute);
    TwoDigits(s.second);
  }

  lemma TailIsAccepted(micros: nat)
    ensures var tail := Fraction(micros) + "+00:00";
      IsZone(tail) || exists digits :: 1 <= digits <= 6 && IsFractionAndZone(tail, digits)
  {
    var kept := DropZeros(Decimal(micros, 6));
    var tail := Fraction(micros) + "+00:00";
    if kept == "" {
      assert tail == "+00:00";
    } else {
      assert tail[1..|kept| + 1] == kept;
      assert tail[|kept| + 1..] == "+00:00";
      assert IsFractionAndZone(tail, |kept|);
    }
  }

  /** Every instant of the years 0 to 9999 is accepted as the database prints it. */
  lemma TimestampAccepted(s: Stamp)
    requires InCalendar(s)
    ensures IsCursorTimestamp(StampText(s))
  {
    var t := StampText(s);
    DateTextIsDate(s);
    TailIsAccepted(s.micros);
    assert t[..19] == DateText(s) && t[19..] == Fraction(s.micros) + "+00:00";
  }

  // ---------------------------------------------------------------- keys

  /** isCommentThreadCursor and isCommentReplyCursor on the key of a stored row; a score is always finite. */
  function CursorCheck(calendar: int -> Stamp): Key -> bool {
    (key: Key) => IsCursorTimestamp(StampText(calendar(key.createdAt))) && IsCursorId(UuidText(key.id))
  }

  /** Between the years 0 and 9999 the key of a row is accepted back exactly if its id is a UUID of RFC 4122. */
  lemma KeyAcceptedIff(calendar: int -> Stamp, key: Key)
    requires InCalendar(calendar(key.createdAt))
    ensures CursorCheck(calendar)(key) <==> IsRfcUuid(key.id)
  {
    TimestampAccepted(calendar(key.createdAt));
    IdAcceptedIff(key.id);
  }

  lemma {:induction false} ZeroDigits(count: nat, k: nat)
    requires k < count
    ensures HexDigits(0, count)[k] == '0'
  {
    if k < count - 1 {
      ZeroDigits(count - 1, k);
    }
  }

  /** The nil UUID, which the column can hold, is refused. */
  lemma NilIdIsRefused(calendar: int -> Stamp, key: Key)
    requires key.id == 0
    ensures !CursorCheck(calendar)(key)
  {
    ZeroDigits(32, 12);
    IdAcceptedIff(0);
  }
}
