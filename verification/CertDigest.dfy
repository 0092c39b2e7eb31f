/** Signing-certificate digests as operators write them: 32 bytes as hexadecimal in any case, with or without
    colons, or as base64url (section 5 of RFC 4648) with or without padding. Lower-casing is ASCII. */
module CertDigest {
  import opened Prelude
  import opened Text
  import opened Der

  type Sextet = d: int | 0 <= d < 64

  function DropColons(s: string): (t: string)
    ensures forall k :: 0 <= k < |t| ==> t[k] != ':'
  {
    if s == "" then "" else if s[0] == ':' then DropColons(s[1..]) else [s[0]] + DropColons(s[1..])
  }

  function DropPadding(s: string): (t: string)
    ensures t <= s && (t != "" ==> t[|t| - 1] != '=')
  {
    if s != "" && s[|s| - 1] == '=' then DropPadding(s[..|s| - 1]) else s
  }

  predicate IsUrlChar(c: char) {
    'a' <= c <= 'z' || 'A' <= c <= 'Z' || '0' <= c <= '9' || c == '-' || c == '_'
  }

  predicate IsDigestHex(s: string) {
    |s| == 64 && IsHex(Lower(s))
  }

  predicate IsDigestBase64(s: string) {
    |s| == 43 && forall k :: 0 <= k < |s| ==> IsUrlChar(s[k])
  }

  // ---------------------------------------------------------------- base64

  function StandardChar(c: char): char {
    if c == '-' then '+' else if c == '_' then '/' else c
  }

  function ToStandard(s: string): (t: string)
    ensures |t| == |s| && forall k :: 0 <= k < |s| ==> t[k] == StandardChar(s[k])
  {
    if s == "" then "" else [StandardChar(s[0])] + ToStandard(s[1..])
  }

  /** The standard alphabet, padded to whole groups of four. */
  function NormalizeBase64(s: string): (t: string)
    ensures |t| % 4 == 0 && |s| <= |t| < |s| + 4
    ensures forall k :: 0 <= k < |t| ==> t[k] == if k < |s| then StandardChar(s[k]) else '='
  {
    ToStandard(s) + Repeat('=', (|s| + 3) / 4 * 4 - |s|)
  }

  function SextetOf(c: char): Sextet {
    if 'A' <= c <= 'Z' then c as int - 'A' as int
    else if 'a' <= c <= 'z' then c as int - 'a' as int + 26
    else if '0' <= c <= '9' then c as int - '0' as int + 52
    else if c == '+' then 62
    else 63
  }

  function UrlChar(d: Sextet): (c: char)
    ensures IsUrlChar(c) && SextetOf(StandardChar(c)) == d
  {
    if d < 26 then (d + 'A' as int) as char
    else if d < 52 then (d - 26 + 'a' as int) as char
    else if d < 62 then (d - 52 + '0' as int) as char
    else if d == 62 then '-'
    else '_'
  }

  /** The digits up to the padding. */
  function Digits(s: string): seq<Sextet> {
    if s == "" || s[0] == '=' then [] else [SextetOf(s[0])] + Digits(s[1..])
  }

  /** Four digits make three bytes; what is left of an incomplete byte is dropped. */
  function BytesOf(digits: seq<Sextet>): (b: seq<Byte>)
    ensures |b| == |digits| * 3 / 4
  {
    if |digits| < 2 then []
    else
      var d0: int, d1: int := digits[0], digits[1];
      if |digits| == 2 then [d0 * 4 + d1 / 16]
      else
        var d2: int := digits[2];
        if |digits| == 3 then [d0 * 4 + d1 / 16, d1 % 16 * 16 + d2 / 4]
        else [d0 * 4 + d1 / 16, d1 % 16 * 16 + d2 / 4, d2 % 4 * 64 + digits[3]] + BytesOf(digits[4..])
  }

  function DecodeBase64(s: string): seq<Byte> {
    BytesOf(Digits(s))
  }

  function DigitsOf(bytes: seq<Byte>): seq<Sextet> {
    if bytes == [] then []
    else
      var first: Sextet := bytes[0] / 4;
      if |bytes| == 1 then [first, bytes[0] % 4 * 16]
      else
        var second: Sextet := bytes[0] % 4 * 16 + bytes[1] / 16;
        if |bytes| == 2 then [first, second, bytes[1] % 16 * 4]
        else [first, second, bytes[1] % 16 * 4 + bytes[2] / 64, bytes[2] % 64] + DigitsOf(bytes[3..])
  }

  function UrlChars(digits: seq<Sextet>): (s: string)
    ensures |s| == |digits| && forall k :: 0 <= k < |s| ==> s[k] == UrlChar(digits[k])
  {
    if digits == [] then "" else [UrlChar(digits[0])] + UrlChars(digits[1..])
  }

  /** The base64url form of some bytes, without padding. */
  function EncodeBase64Url(bytes: seq<Byte>): string {
    UrlChars(DigitsOf(bytes))
  }

  function HexOf(bytes: seq<Byte>): (s: string)
    ensures |s| == 2 * |bytes|
  {
    if bytes == [] then "" else [DigitChar(bytes[0] / 16), DigitChar(bytes[0] % 16)] + HexOf(bytes[1..])
  }

  // ---------------------------------------------------------------- normalizeAndroidCertDigest

  function NormalizeAndroidCertDigest(value: Option<string>): Option<string> {
    if value.None? || value.value == "" then None
    else
      var trimmed := Trim(value.value);
      if IsDigestHex(DropColons(trimmed)) then Some(Lower(DropColons(trimmed)))
      else if IsDigestBase64(DropPadding(trimmed)) && |DecodeBase64(NormalizeBase64(DropPadding(trimmed)))| == 32 then
        Some(HexOf(DecodeBase64(NormalizeBase64(DropPadding(trimmed)))))
      else Some(Lower(trimmed))
  }

  // ---------------------------------------------------------------- encodings of the same bytes

  lemma {:induction false} DigitsReadBack(s: string, padding: nat)
    requires forall k :: 0 <= k < |s| ==> IsUrlChar(s[k])
    ensures |Digits(ToStandard(s) + Repeat('=', padding))| == |s|
    ensures forall k :: 0 <= k < |s| ==> Digits(ToStandard(s) + Repeat('=', padding))[k] == SextetOf(StandardChar(s[k]))
  {
    var text := ToStandard(s) + Repeat('=', padding);
    if s == "" {
    } else {
      DigitsReadBack(s[1..], padding);
      assert text[1..] == ToStandard(s[1..]) + Repeat('=', padding);
      assert text[0] != '=';
    }
  }

  lemma {:induction false} BytesReadBack(bytes: seq<Byte>)
    ensures BytesOf(DigitsOf(bytes)) == bytes
  {
    if |bytes| < 3 {
    } else {
      BytesReadBack(bytes[3..]);
      assert DigitsOf(bytes)[4..] == DigitsOf(bytes[3..]);
      assert bytes == bytes[..3] + bytes[3..];
    }
  }

  /** The encoder leaves the unused bits of the last digit zero (section 3.5 of RFC 4648). */
  lemma {:induction false} UnusedBitsAreZero(bytes: seq<Byte>)
    ensures |bytes| % 3 == 1 ==> DigitsOf(bytes) != [] && DigitsOf(bytes)[|DigitsOf(bytes)| - 1] % 16 == 0
    ensures |bytes| % 3 == 2 ==> DigitsOf(bytes) != [] && DigitsOf(bytes)[|DigitsOf(bytes)| - 1] % 4 == 0
  {
    if |bytes| >= 3 {
      UnusedBitsAreZero(bytes[3..]);
    }
  }

  /** Decoding a base64url text gives back the bytes it was made from. */
  lemma Base64ReadsBack(bytes: seq<Byte>)
    ensures DecodeBase64(NormalizeBase64(EncodeBase64Url(bytes))) == bytes
  {
    var s := EncodeBase64Url(bytes);
    DigitsReadBack(s, (|s| + 3) / 4 * 4 - |s|);
    assert Digits(NormalizeBase64(s)) == DigitsOf(bytes);
    BytesReadBack(bytes);
  }

  lemma {:induction false} HexIsHex(bytes: seq<Byte>)
    ensures IsHex(HexOf(bytes)) && Lower(HexOf(bytes)) == HexOf(bytes)
  {
    if bytes == [] {
    } else {
      HexIsHex(bytes[1..]);
    }
  }

  /** The bytes that pairs of hexadecimal digits spell, high digit first. */
  function HexBytes(s: string): seq<Byte>
    requires IsHex(s)
  {
    if |s| < 2 then [] else [16 * DigitValue(s[0]) + DigitValue(s[1])] + HexBytes(s[2..])
  }

  /** Reading the hexadecimal of any bytes gives these bytes back. */
  lemma {:induction false} HexReadsBack(bytes: seq<Byte>)
    ensures IsHex(HexOf(bytes)) && HexBytes(HexOf(bytes)) == bytes
  {
    HexIsHex(bytes);
    if bytes != [] {
      HexReadsBack(bytes[1..]);
      assert HexOf(bytes)[2..] == HexOf(bytes[1..]);
      assert bytes == [bytes[0]] + bytes[1..];
    }
  }

  // ---------------------------------------------------------------- which inputs name a digest

  /** 64 hexadecimal digits of the bytes in any case, colons anywhere. */
  predicate HexForm(s: string, bytes: seq<Byte>) {
    Lower(DropColons(s)) == HexOf(bytes)
  }

  /** 43 base64url digits that decode to the bytes, any number of padding signs. */
  predicate Base64Form(s: string, bytes: seq<Byte>) {
    IsDigestBase64(DropPadding(s)) && DecodeBase64(NormalizeBase64(DropPadding(s))) == bytes
  }

  lemma {:induction false} ColonsOrKept(s: string, k: nat)
    requires k < |s|
    ensures s[k] == ':' || s[k] in DropColons(s)
  {
    if k > 0 {
      ColonsOrKept(s[1..], k - 1);
      assert s[k] == s[1..][k - 1];
    }
  }

  lemma HexFormHasHexChars(s: string, bytes: seq<Byte>, k: nat)
    requires HexForm(s, bytes) && k < |s|
    ensures s[k] == ':' || IsHexDigit(LowerChar(s[k]))
  {
    ColonsOrKept(s, k);
    HexIsHex(bytes);
    if s[k] != ':' {
      var j :| 0 <= j < |DropColons(s)| && DropColons(s)[j] == s[k];
      assert HexOf(bytes)[j] == LowerChar(s[k]);
    }
  }

  lemma HexFormIsTrimmed(s: string, bytes: seq<Byte>)
    requires HexForm(s, bytes)
    ensures Trimmed(s)
  {
    if s != "" {
      HexFormHasHexChars(s, bytes, 0);
      HexFormHasHexChars(s, bytes, |s| - 1);
    }
  }

  lemma {:induction false} NoColons(s: string)
    requires ':' !in s
    ensures DropColons(s) == s
  {
    if s != "" {
      NoColons(s[1..]);
      assert s == [s[0]] + s[1..];
    }
  }

  lemma {:induction false} PaddingDrops(s: string, padding: nat)
    requires s != "" && s[|s| - 1] != '='
    ensures DropPadding(s + Repeat('=', padding)) == s
  {
    var padded := s + Repeat('=', padding);
    if padding == 0 {
      assert padded == s;
    } else {
      PaddingDrops(s, padding - 1);
      assert padded[..|padded| - 1] == s + Repeat('=', padding - 1);
    }
  }

  /** A text that is not a digest is lower-cased whole, and then it is not the hexadecimal of any digest. */
  lemma OtherTextsNameNothing(s: string, bytes: seq<Byte>)
    requires |bytes| == 32 && Lower(s) == HexOf(bytes)
    ensures HexForm(s, bytes)
  {
    HexIsHex(bytes);
    forall k | 0 <= k < |s|
      ensures s[k] != ':'
    {
      assert IsHexDigit(Lower(s)[k]);
    }
    NoColons(s);
  }

  /** The result is the lower-case hexadecimal of 32 bytes exactly for the hexadecimal and base64url forms
      of those bytes, between any spaces. */
  lemma NormalizesToDigestIff(s: string, bytes: seq<Byte>)
    requires |bytes| == 32
    ensures NormalizeAndroidCertDigest(Some(s)) == Some(HexOf(bytes))
       <==> HexForm(Trim(s), bytes) || (!IsDigestHex(DropColons(Trim(s))) && Base64Form(Trim(s), bytes))
  {
    var t := Trim(s);
    HexIsHex(bytes);
    if IsDigestHex(DropColons(t)) {
    } else if IsDigestBase64(DropPadding(t)) {
      var decoded := DecodeBase64(NormalizeBase64(DropPadding(t)));
      Base64Digests(DropPadding(t));
      if HexOf(decoded) == HexOf(bytes) {
        HexReadsBack(decoded);
        HexReadsBack(bytes);
      }
    } else if Lower(t) == HexOf(bytes) {
      OtherTextsNameNothing(t, bytes);
    }
  }

  /** 43 base64url digits always decode to 32 bytes. */
  lemma Base64Digests(s: string)
    requires IsDigestBase64(s)
    ensures |DecodeBase64(NormalizeBase64(s))| == 32
  {
    DigitsReadBack(s, 1);
  }

  /** Hexadecimal in any case with or without colons, and base64url padded or not, all normalise to the
      lower-case hexadecimal of the same 32 bytes. */
  lemma EncodingsAgree(bytes: seq<Byte>, hex: string, padding: nat)
    requires |bytes| == 32 && HexForm(hex, bytes)
    ensures NormalizeAndroidCertDigest(Some(hex)) == Some(HexOf(bytes))
    ensures NormalizeAndroidCertDigest(Some(EncodeBase64Url(bytes) + Repeat('=', padding))) == Some(HexOf(bytes))
  {
    HexFormIsTrimmed(hex, bytes);
    TrimmedIsFixed(hex);
    NormalizesToDigestIff(hex, bytes);
    UnpaddedForm(bytes, padding);
    NormalizesToDigestIff(EncodeBase64Url(bytes) + Repeat('=', padding), bytes);
  }

  lemma DigitsLength(bytes: seq<Byte>)
    ensures |DigitsOf(bytes)| == (|bytes| * 4 + 2) / 3
  {
  }

  lemma UnpaddedForm(bytes: seq<Byte>, padding: nat)
    requires |bytes| == 32
    ensures var s := EncodeBase64Url(bytes) + Repeat('=', padding);
      Trim(s) == s && !IsDigestHex(DropColons(s)) && Base64Form(s, bytes)
  {
    DigitsLength(bytes);
    PaddedText(EncodeBase64Url(bytes), padding);
    Base64ReadsBack(bytes);
  }

  lemma PaddedIsNotHex(text: string, padding: nat)
    requires IsDigestBase64(text)
    ensures !IsDigestHex(DropColons(text + Repeat('=', padding)))
  {
    var s := text + Repeat('=', padding);
    NoColons(s);
    if padding > 0 {
      assert Lower(s)[43] == '=';
    }
  }

  lemma PaddedText(text: string, padding: nat)
    requires IsDigestBase64(text)
    ensures var s := text + Repeat('=', padding);
      Trim(s) == s && !IsDigestHex(DropColons(s)) && DropPadding(s) == text
  {
    assert IsUrlChar(text[0]) && IsUrlChar(text[42]);
    PaddingDrops(text, padding);
    PaddedIsNotHex(text, padding);
    TrimmedIsFixed(text + Repeat('=', padding));
  }

  // ---------------------------------------------------------------- idempotence

  lemma {:induction false} LowerKeepsColons(s: string)
    ensures DropColons(Lower(s)) == Lower(DropColons(s))
  {
    if s != "" {
      LowerKeepsColons(s[1..]);
      assert Lower(s)[1..] == Lower(s[1..]);
    }
  }

  lemma LowerOfPrefix(s: string, n: nat)
    requires n <= |s|
    ensures Lower(s)[..n] == Lower(s[..n])
  {
  }

  lemma {:induction false} LowerKeepsPadding(s: string)
    ensures DropPadding(Lower(s)) == Lower(DropPadding(s))
  {
    if s != "" && s[|s| - 1] == '=' {
      LowerKeepsPadding(s[..|s| - 1]);
      LowerOfPrefix(s, |s| - 1);
    }
  }

  lemma DigestsAreFixed(bytes: seq<Byte>)
    requires |bytes| == 32
    ensures NormalizeAndroidCertDigest(Some(HexOf(bytes))) == Some(HexOf(bytes))
  {
    HexIsHex(bytes);
    OtherTextsNameNothing(HexOf(bytes), bytes);
    EncodingsAgree(bytes, HexOf(bytes), 0);
  }

  /** Normalising twice is normalising once, except for a text of nothing but spaces: it becomes the empty
      text, which normalises to nothing. */
  lemma NormalizingTwiceIff(value: Option<string>)
    ensures NormalizeAndroidCertDigest(NormalizeAndroidCertDigest(value)) == NormalizeAndroidCertDigest(value)
       <==> !(value.Some? && value.value != "" && Trim(value.value) == "")
  {
    if value.Some? && value.value != "" {
      var t := Trim(value.value);
      TrimTrims(value.value);
      if IsDigestHex(DropColons(t)) {
        HexTextsAreFixed(Lower(DropColons(t)));
      } else if IsDigestBase64(DropPadding(t)) {
        Base64Digests(DropPadding(t));
        DigestsAreFixed(DecodeBase64(NormalizeBase64(DropPadding(t))));
      } else {
        OtherTextsAreFixed(t);
      }
    }
  }

  lemma HexTextsAreFixed(s: string)
    requires |s| == 64 && IsHex(s)
    ensures NormalizeAndroidCertDigest(Some(s)) == Some(s)
  {
    assert ':' !in s;
    NoColons(s);
    TrimmedIsFixed(s);
    assert Lower(s) == s;
  }

  lemma LowerKeepsBase64(s: string)
    ensures IsDigestBase64(Lower(s)) <==> IsDigestBase64(s)
  {
    if |s| == 43 && !IsDigestBase64(s) {
      var k :| 0 <= k < 43 && !IsUrlChar(s[k]);
      assert !IsUrlChar(Lower(s)[k]);
    }
  }

  lemma LowerKeepsHex(t: string)
    ensures IsDigestHex(DropColons(Lower(t))) <==> IsDigestHex(DropColons(t))
  {
    LowerKeepsColons(t);
    LowerIsIdempotent(DropColons(t));
  }

  /** A text that is neither form is lower-cased. */
  lemma NeitherForm(s: string)
    requires s != "" && Trimmed(s) && !IsDigestHex(DropColons(s)) && !IsDigestBase64(DropPadding(s))
    ensures NormalizeAndroidCertDigest(Some(s)) == Some(Lower(s))
  {
    TrimmedIsFixed(s);
  }

  lemma LowerStaysTrimmed(t: string)
    requires Trimmed(t)
    ensures Trimmed(Lower(t))
  {
  }

  lemma OtherTextsAreFixed(t: string)
    requires Trimmed(t) && !IsDigestHex(DropColons(t)) && !IsDigestBase64(DropPadding(t))
    ensures t != "" ==> NormalizeAndroidCertDigest(Some(Lower(t))) == Some(Lower(t))
  {
    LowerKeepsHex(t);
    LowerKeepsPadding(t);
    LowerKeepsBase64(DropPadding(t));
    LowerStaysTrimmed(t);
    LowerIsIdempotent(t);
    if t != "" {
      NeitherForm(Lower(t));
    }
  }
}
