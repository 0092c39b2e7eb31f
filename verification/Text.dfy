/** The string operations the services share: trim, ASCII lower case and hexadecimal. */
module Text {
  import opened Prelude
  import opened FieldElements

  /** White space and line terminators, as String.prototype.trim removes them. */
  predicate IsSpace(c: char) {
    || '\U{0009}' <= c <= '\U{000D}' || c == ' ' || c == '\U{00A0}' || c == '\U{1680}'
    || '\U{2000}' <= c <= '\U{200A}' || c == '\U{2028}' || c == '\U{2029}' || c == '\U{202F}'
    || c == '\U{205F}' || c == '\U{3000}' || c == '\U{FEFF}'
  }

  function TrimLeft(s: string): (t: string)
    ensures |t| <= |s|
  {
    if s != "" && IsSpace(s[0]) then TrimLeft(s[1..]) else s
  }

  function TrimRight(s: string): (t: string)
    ensures |t| <= |s|
  {
    if s != "" && IsSpace(s[|s| - 1]) then TrimRight(s[..|s| - 1]) else s
  }

  function Trim(s: string): string {
    TrimRight(TrimLeft(s))
  }

  /** No space at either end. */
  predicate Trimmed(s: string) {
    s != "" ==> !IsSpace(s[0]) && !IsSpace(s[|s| - 1])
  }

  lemma TrimmedIsFixed(s: string)
    requires Trimmed(s)
    ensures Trim(s) == s
  {
  }

  lemma {:induction false} TrimRightEnds(s: string)
    ensures TrimRight(s) <= s
    ensures TrimRight(s) != "" ==> !IsSpace(TrimRight(s)[|TrimRight(s)| - 1])
  {
    if s != "" && IsSpace(s[|s| - 1]) {
      TrimRightEnds(s[..|s| - 1]);
    }
  }

  lemma {:induction false} TrimLeftStarts(s: string)
    ensures TrimLeft(s) != "" ==> !IsSpace(TrimLeft(s)[0])
  {
    if s != "" && IsSpace(s[0]) {
      TrimLeftStarts(s[1..]);
    }
  }

  lemma TrimTrims(s: string)
    ensures Trimmed(Trim(s)) && Trim(Trim(s)) == Trim(s)
  {
    TrimLeftStarts(s);
    TrimRightEnds(TrimLeft(s));
    TrimmedIsFixed(Trim(s));
  }

  function Repeat(c: char, n: nat): (s: string)
    ensures |s| == n && forall k :: 0 <= k < n ==> s[k] == c
  {
    if n == 0 then "" else Repeat(c, n - 1) + [c]
  }

  function LowerChar(c: char): char {
    if 'A' <= c <= 'Z' then (c as int + 32) as char else c
  }

  function Lower(s: string): (t: string)
    ensures |t| == |s| && forall k :: 0 <= k < |s| ==> t[k] == LowerChar(s[k])
  {
    if s == "" then "" else [LowerChar(s[0])] + Lower(s[1..])
  }

  lemma LowerIsIdempotent(s: string)
    ensures Lower(Lower(s)) == Lower(s)
  {
  }

  predicate IsHexDigit(c: char) {
    '0' <= c <= '9' || 'a' <= c <= 'f'
  }

  function DigitValue(c: char): (v: nat)
    requires IsHexDigit(c)
    ensures v < 16
  {
    if c <= '9' then c as int - '0' as int else c as int - 'a' as int + 10
  }

  function DigitChar(v: nat): (c: char)
    requires v < 16
    ensures IsHexDigit(c) && DigitValue(c) == v
  {
    if v < 10 then (v + '0' as int) as char else (v - 10 + 'a' as int) as char
  }

  predicate IsHex(s: string) {
    forall k :: 0 <= k < |s| ==> IsHexDigit(s[k])
  }

  /** /^[0-9a-f]{64}$/ */
  predicate IsHex64(s: string) {
    |s| == 64 && IsHex(s)
  }

  function Pow16(n: nat): (p: nat)
    ensures p > 0
  {
    if n == 0 then 1 else 16 * Pow16(n - 1)
  }

  function HexValue(s: string): (v: nat)
    requires IsHex(s)
    ensures v < Pow16(|s|)
  {
    if s == "" then 0 else 16 * HexValue(s[..|s| - 1]) + DigitValue(s[|s| - 1])
  }

  lemma {:induction false} Pow16Sum(a: nat, b: nat)
    ensures Pow16(a + b) == Pow16(a) * Pow16(b)
  {
    if a == 0 {
    } else {
      Pow16Sum(a - 1, b);
    }
  }

  lemma Pow16Doubles(a: nat, p: nat)
    requires Pow16(a) == p
    ensures Pow16(2 * a) == p * p
  {
    Pow16Sum(a, a);
  }

  lemma Pow16Of64()
    ensures Pow16(64) == HEX64_LIMIT
  {
    Pow16Doubles(4, 0x1_0000);
    Pow16Doubles(8, 0x1_0000_0000);
    Pow16Doubles(16, 0x1_0000_0000_0000_0000);
    Pow16Doubles(32, 0x1_0000_0000_0000_0000_0000_0000_0000_0000);
  }

  /** normalizeCredentialRegistryHex64: trimmed, lower-cased, and then exactly 64 hex digits. */
  function ParseHex64(raw: string): Option<Hex64> {
    var s := Lower(Trim(raw));
    if !IsHex64(s) then None
    else
      Pow16Of64();
      Some(HexValue(s))
  }

  lemma {:induction false} HexValueIsInjective(s: string, t: string)
    requires IsHex(s) && IsHex(t) && |s| == |t|
    requires HexValue(s) == HexValue(t)
    ensures s == t
  {
    if s == "" {
    } else {
      var n := |s| - 1;
      assert DigitValue(s[n]) == DigitValue(t[n]) && HexValue(s[..n]) == HexValue(t[..n]);
      HexValueIsInjective(s[..n], t[..n]);
      assert s[n] == t[n];
      assert s == s[..n] + [s[n]] && t == t[..n] + [t[n]];
    }
  }

  /** Naming a hex value by its number loses nothing but case and surrounding space. */
  lemma ParseHex64IsExact(a: string, b: string)
    requires ParseHex64(a).Some?
    ensures ParseHex64(a) == ParseHex64(b) <==> Lower(Trim(a)) == Lower(Trim(b))
  {
    if ParseHex64(a) == ParseHex64(b) {
      HexValueIsInjective(Lower(Trim(a)), Lower(Trim(b)));
    }
  }
}
