/**
  How Django converts a query-string value into a key before it compares:
  Python's `int(text)` for an integer key, and `uuid.UUID(hex=text)` for a
  UUID key. Text that does not convert is an error.

  Rows keep their keys as canonical text: the decimal digits of an integer
  key, and `str(uuid)`, 32 lower-case hexadecimal digits grouped 8-4-4-4-12
  by hyphens, of a UUID key.
 */
module Keys {
  import opened Wrappers
  import opened Text
  import opened Decimal

  /** The value of an ASCII digit in bases up to 36: `0`-`9`, then letters of either case; 36 for anything else. */
  function DigitOf(c: char): nat
  {
    if '0' <= c <= '9' then c as int - '0' as int
    else if 'a' <= c <= 'z' then c as int - 'a' as int + 10
    else if 'A' <= c <= 'Z' then c as int - 'A' as int + 10
    else 36
  }

  predicate IsDigitIn(c: char, base: nat)
  {
    DigitOf(c) < base
  }

  /** Digits of `base` with single underscores between them: the body `int(text, base)` accepts. */
  predicate Grouped(s: string, base: nat)
  {
    && |s| > 0 && IsDigitIn(s[0], base) && IsDigitIn(s[|s| - 1], base)
    && (forall i :: 0 <= i < |s| ==> IsDigitIn(s[i], base) || s[i] == '_')
    && (forall i :: 0 <= i < |s| - 1 ==> s[i] == '_' ==> s[i + 1] != '_')
  }

  /** The number the digits of `s` denote in `base`, most significant first, underscores skipped. */
  function ValueIn(s: string, base: nat): nat
    decreases |s|
  {
    if |s| == 0 then 0
    else if s[|s| - 1] == '_' then ValueIn(s[..|s| - 1], base)
    else ValueIn(s[..|s| - 1], base) * base + DigitOf(s[|s| - 1])
  }

  /** The body after an optional `0x` or `0X` prefix, which may be followed by one underscore. */
  function DropHexPrefix(s: string): string
  {
    if |s| >= 2 && s[0] == '0' && (s[1] == 'x' || s[1] == 'X') then
      if |s| >= 3 && s[2] == '_' then s[3..] else s[2..]
    else s
  }

  /**
    Python's `int(text, base)` for base 10 or 16: surrounding whitespace,
    an optional sign, for base 16 an optional `0x` prefix, then digits with
    single underscores between them.
   */
  function ParseInt(s: string, base: nat): (r: Option<int>)
    requires base == 10 || base == 16
    ensures r.Some? ==> var t := Trim(s); |t| > 0 && (r.value < 0 ==> t[0] == '-')
  {
    var t := Trim(s);
    var negative := |t| > 0 && t[0] == '-';
    var body := if |t| > 0 && (t[0] == '+' || t[0] == '-') then t[1..] else t;
    var digits := if base == 16 then DropHexPrefix(body) else body;
    var n: int := ValueIn(digits, base);
    if Grouped(digits, base) then Some(if negative then -n else n)
    else None
  }

  /** On plain decimal digits, the general digit value is the decimal value. */
  lemma {:induction false} ValueInDecimal(s: string)
    requires AllDigits(s)
    ensures ValueIn(s, 10) == Value(s)
    decreases |s|
  {
    if |s| > 0 {
      ValueInDecimal(s[..|s| - 1]);
    }
  }

  /** Decimal digits without a sign or underscores parse to their value. */
  lemma DigitsParse(s: string)
    requires |s| > 0 && AllDigits(s)
    ensures ParseInt(s, 10) == Some(Value(s))
  {
    TrimNoop(s);
    ValueInDecimal(s);
    assert s[0] != '+' && s[0] != '-';
    assert Grouped(s, 10) by {
      assert forall i :: 0 <= i < |s| ==> IsDigitIn(s[i], 10) && s[i] != '_';
    }
  }

  /** The decimal text of a number parses back to it. */
  lemma IntRoundTrip(n: nat)
    ensures ParseInt(NatToString(n), 10) == Some(n)
  {
    DigitsParse(NatToString(n));
  }

  /** Leading zeros do not change the number: `int("007") == 7`. */
  lemma LeadingZerosParse(k: nat, n: nat)
    ensures ParseInt(Zeros(k) + NatToString(n), 10) == Some(n)
  {
    var s := NatToString(n);
    ValueZeros(k, s);
    DigitsParse(Zeros(k) + s);
  }

  /** The key text an integer query value selects: the decimal text of the number it parses to. */
  function IntKey(s: string): (r: Option<string>)
    ensures r.Some? <==> ParseInt(s, 10).Some?
    ensures r.Some? ==> r.value == IntToString(ParseInt(s, 10).value)
  {
    match ParseInt(s, 10)
    case None => None
    case Some(n) => Some(IntToString(n))
  }

  /** An integer query value selects the row with key `k` exactly when it parses to `k`. */
  lemma IntKeySelects(s: string, k: nat)
    ensures IntKey(s) == Some(NatToString(k)) <==> ParseInt(s, 10) == Some(k)
  {
    if IntKey(s) == Some(NatToString(k)) {
      var n := ParseInt(s, 10).value;
      if n >= 0 {
        NatToStringInjective(n, k);
      }
    }
  }

  // ---------------------------------------------------------------------
  // UUIDs
  // ---------------------------------------------------------------------

  /** Python's `s.replace(pat, "")`: every occurrence, found left to right without overlap, removed. */
  function RemoveAll(s: string, pat: string): string
    requires |pat| > 0
    decreases |s|
  {
    if |s| < |pat| then s
    else if s[..|pat|] == pat then RemoveAll(s[|pat|..], pat)
    else [s[0]] + RemoveAll(s[1..], pat)
  }

  predicate IsBrace(c: char)
  {
    c == '{' || c == '}'
  }

  /** Python's `s.strip('{}')`. */
  function StripBraces(s: string): string
    decreases |s|
  {
    if |s| > 0 && IsBrace(s[0]) then StripBraces(s[1..])
    else if |s| > 0 && IsBrace(s[|s| - 1]) then StripBraces(s[..|s| - 1])
    else s
  }

  /** 16^32, that is 2^128: a UUID is a 128-bit number. */
  const UuidBound: nat := Pow16(32)

  /** The 32 characters `uuid.UUID(hex=s)` reads as hexadecimal: prefixes, braces and hyphens dropped. */
  function UuidHex(s: string): string
  {
    RemoveAll(StripBraces(RemoveAll(RemoveAll(s, "urn:"), "uuid:")), "-")
  }

  /**
    `uuid.UUID(hex=s)`: after dropping `urn:` and `uuid:`, the surrounding
    braces and every hyphen, exactly 32 characters must remain, they must
    read as a hexadecimal integer, and the number must fit in 128 bits.
   */
  function ParseUuid(s: string): (r: Option<nat>)
    ensures r.Some? ==> r.value < UuidBound
  {
    var h := UuidHex(s);
    if |h| != 32 then None
    else
      match ParseInt(h, 16)
      case None => None
      case Some(v) => if 0 <= v < UuidBound then Some(v) else None
  }

  function HexDigit(d: nat): (c: char)
    requires d < 16
    ensures DigitOf(c) == d && c != '_' && c != '-' && c != ':' && !IsSpace(c) && !IsBrace(c)
    ensures c != 'x' && c != 'X' && c != '+'
  {
    if d < 10 then ('0' as int + d) as char else ('a' as int + d - 10) as char
  }

  function Pow16(k: nat): (p: nat)
    ensures p >= 1
  {
    if k == 0 then 1 else 16 * Pow16(k - 1)
  }

  /** Hexadecimal digits only: no sign, prefix letter, underscore, hyphen, colon, brace or whitespace. */
  predicate PlainHex(s: string)
  {
    forall i :: 0 <= i < |s| ==> IsDigitIn(s[i], 16) && !IsSpace(s[i]) && !IsBrace(s[i])
                                 && s[i] != '-' && s[i] != ':' && s[i] != '+' && s[i] != '_' && s[i] != 'x' && s[i] != 'X'
  }

  /** `n` as exactly `width` lower-case hexadecimal digits, most significant first. */
  function HexText(n: nat, width: nat): (s: string)
    ensures |s| == width && PlainHex(s)
    ensures n < Pow16(width) ==> ValueIn(s, 16) == n
    decreases width
  {
    if width == 0 then ""
    else
      var s := HexText(n / 16, width - 1) + [HexDigit(n % 16)];
      assert s[..width - 1] == HexText(n / 16, width - 1);
      s
  }

  /** `str(uuid)`: the 32 digits grouped 8-4-4-4-12 by hyphens. */
  function CanonicalUuid(v: nat): string
  {
    var h := HexText(v, 32);
    h[..8] + "-" + h[8..12] + "-" + h[12..16] + "-" + h[16..20] + "-" + h[20..]
  }

  /** The key text a UUID query value selects: the canonical text of the UUID it parses to. */
  function UuidKey(s: string): (r: Option<string>)
    ensures r.Some? <==> ParseUuid(s).Some?
    ensures r.Some? ==> r.value == CanonicalUuid(ParseUuid(s).value)
  {
    match ParseUuid(s)
    case None => None
    case Some(v) => Some(CanonicalUuid(v))
  }

  /** Removing a pattern one of whose characters never occurs changes nothing. */
  lemma {:induction false} RemoveAllAbsent(s: string, pat: string, k: nat)
    requires k < |pat| && pat[k] !in s
    ensures RemoveAll(s, pat) == s
    decreases |s|
  {
    if |s| >= |pat| {
      RemoveAllAbsent(s[1..], pat, k);
      assert s == [s[0]] + s[1..];
    }
  }

  /** Removing a single character distributes over concatenation. */
  lemma {:induction false} RemoveCharConcat(a: string, b: string, c: char)
    ensures RemoveAll(a + b, [c]) == RemoveAll(a, [c]) + RemoveAll(b, [c])
    decreases |a|
  {
    if |a| > 0 {
      assert (a + b)[1..] == a[1..] + b;
      assert (a + b)[..1] == [a[0]];
      RemoveCharConcat(a[1..], b, c);
    } else {
      assert a + b == b;
    }
  }

  /** Appending a hyphen and a piece without hyphens adds just the piece to the hyphen-free text. */
  lemma DropOneHyphen(acc: string, p: string)
    requires '-' !in p
    ensures RemoveAll(acc + "-" + p, "-") == RemoveAll(acc, "-") + p
  {
    RemoveAllAbsent(p, "-", 0);
    assert RemoveAll("-", "-") == "";
    RemoveCharConcat(acc + "-", p, '-');
    RemoveCharConcat(acc, "-", '-');
  }

  /** The five groups of a UUID text lose exactly their four separating hyphens. */
  lemma DropHyphens(pieces: seq<string>)
    requires |pieces| == 5
    requires forall i :: 0 <= i < 5 ==> '-' !in pieces[i]
    ensures RemoveAll(pieces[0] + "-" + pieces[1] + "-" + pieces[2] + "-" + pieces[3] + "-" + pieces[4], "-")
            == pieces[0] + pieces[1] + pieces[2] + pieces[3] + pieces[4]
  {
    var p0, p1, p2, p3, p4 := pieces[0], pieces[1], pieces[2], pieces[3], pieces[4];
    RemoveAllAbsent(p0, "-", 0);
    DropOneHyphen(p0, p1);
    DropOneHyphen(p0 + "-" + p1, p2);
    DropOneHyphen(p0 + "-" + p1 + "-" + p2, p3);
    DropOneHyphen(p0 + "-" + p1 + "-" + p2 + "-" + p3, p4);
  }


  /** Thirty-two hexadecimal digits of either case, nothing else, parse to their value. */
  lemma HexDigitsParse(h: string)
    requires |h| == 32 && PlainHex(h) && ValueIn(h, 16) < UuidBound
    ensures ParseInt(h, 16) == Some(ValueIn(h, 16))
  {
    TrimNoop(h);
    assert DropHexPrefix(h) == h;
  }

  /** A text without `:`, braces at its ends or hyphens is what `uuid.UUID` reads as hexadecimal. */
  lemma UuidHexPlain(s: string)
    requires ':' !in s && '-' !in s
    requires |s| > 0 ==> !IsBrace(s[0]) && !IsBrace(s[|s| - 1])
    ensures UuidHex(s) == s
  {
    RemoveAllAbsent(s, "urn:", 3);
    RemoveAllAbsent(s, "uuid:", 4);
    assert StripBraces(s) == s;
    RemoveAllAbsent(s, "-", 0);
    assert UuidHex(s) == RemoveAll(StripBraces(RemoveAll(RemoveAll(s, "urn:"), "uuid:")), "-");
  }

  /** The 32 unhyphenated digits of a UUID (`uuid.hex`) parse back to it. */
  lemma HexRoundTrip(v: nat)
    requires v < UuidBound
    ensures ParseUuid(HexText(v, 32)) == Some(v)
  {
    var h := HexText(v, 32);
    PlainSlice(h, 0, 32);
    assert h[0..32] == h;
    UuidHexPlain(h);
    ParseOfHex(h, v);
  }

  /** A text whose hexadecimal core is the 32 digits of `v` parses to `v`. */
  lemma ParseOfHex(s: string, v: nat)
    requires v < UuidBound && UuidHex(s) == HexText(v, 32)
    ensures ParseUuid(s) == Some(v)
  {
    var h := HexText(v, 32);
    assert ValueIn(h, 16) == v;
    HexDigitsParse(h);
    ParseOfDigits(s, h, v);
  }

  /** `ParseUuid` accepts a 32-digit core whose hexadecimal value is in range. */
  lemma ParseOfDigits(s: string, h: string, v: nat)
    requires UuidHex(s) == h && |h| == 32 && ParseInt(h, 16) == Some(v as int) && v < UuidBound
    ensures ParseUuid(s) == Some(v)
  {
  }

  /** Every slice of plain hexadecimal text is plain, and misses the characters plain text lacks. */
  lemma PlainSlice(s: string, a: nat, b: nat)
    requires PlainHex(s) && a <= b <= |s|
    ensures PlainHex(s[a..b]) && ':' !in s[a..b] && '-' !in s[a..b]
  {
    assert forall i :: 0 <= i < b - a ==> s[a..b][i] == s[a + i];
  }

  /** Plain pieces joined by hyphens read, once `uuid.UUID` has dropped the hyphens, as the pieces run together. */
  lemma HyphenatedHex(p0: string, p1: string, p2: string, p3: string, p4: string)
    requires PlainHex(p0) && PlainHex(p1) && PlainHex(p2) && PlainHex(p3) && PlainHex(p4)
    requires |p0| > 0 && |p4| > 0
    ensures UuidHex(p0 + "-" + p1 + "-" + p2 + "-" + p3 + "-" + p4) == p0 + p1 + p2 + p3 + p4
  {
    var c := p0 + "-" + p1 + "-" + p2 + "-" + p3 + "-" + p4;
    PlainSlice(p0, 0, |p0|);
    PlainSlice(p1, 0, |p1|);
    PlainSlice(p2, 0, |p2|);
    PlainSlice(p3, 0, |p3|);
    PlainSlice(p4, 0, |p4|);
    assert p0[0..|p0|] == p0 && p1[0..|p1|] == p1 && p2[0..|p2|] == p2 && p3[0..|p3|] == p3 && p4[0..|p4|] == p4;
    assert ':' !in c;
    assert c[0] == p0[0] && c[|c| - 1] == p4[|p4| - 1];
    RemoveAllAbsent(c, "urn:", 3);
    RemoveAllAbsent(c, "uuid:", 4);
    assert StripBraces(c) == c;
    DropHyphens([p0, p1, p2, p3, p4]);
  }

  /** Thirty-two plain digits, grouped 8-4-4-4-12 by hyphens, read back as the digits. */
  lemma GroupedHex(h: string)
    requires |h| == 32 && PlainHex(h)
    ensures UuidHex(h[..8] + "-" + h[8..12] + "-" + h[12..16] + "-" + h[16..20] + "-" + h[20..]) == h
  {
    PlainSlice(h, 0, 8);
    PlainSlice(h, 8, 12);
    PlainSlice(h, 12, 16);
    PlainSlice(h, 16, 20);
    PlainSlice(h, 20, 32);
    assert h[20..32] == h[20..];
    HyphenatedHex(h[..8], h[8..12], h[12..16], h[16..20], h[20..]);
    assert h == h[..8] + h[8..12] + h[12..16] + h[16..20] + h[20..];
  }

  /** Dropping the hyphens of the canonical text leaves the 32 digits. */
  lemma CanonicalHex(v: nat)
    ensures UuidHex(CanonicalUuid(v)) == HexText(v, 32)
  {
    GroupedHex(HexText(v, 32));
  }

  /** The canonical text of a UUID parses back to it. */
  lemma UuidRoundTrip(v: nat)
    requires v < UuidBound
    ensures ParseUuid(CanonicalUuid(v)) == Some(v)
  {
    CanonicalHex(v);
    ParseOfHex(CanonicalUuid(v), v);
  }

  /** Different UUIDs have different canonical texts. */
  lemma CanonicalUuidInjective(a: nat, b: nat)
    requires a < UuidBound && b < UuidBound && CanonicalUuid(a) == CanonicalUuid(b)
    ensures a == b
  {
    UuidRoundTrip(a);
    UuidRoundTrip(b);
  }

  /** A UUID query value selects the row keyed `CanonicalUuid(v)` exactly when it parses to `v`. */
  lemma UuidKeySelects(s: string, v: nat)
    requires v < UuidBound
    ensures UuidKey(s) == Some(CanonicalUuid(v)) <==> ParseUuid(s) == Some(v)
  {
    if UuidKey(s) == Some(CanonicalUuid(v)) {
      CanonicalUuidInjective(ParseUuid(s).value, v);
    }
  }

  /** The unhyphenated form selects the same key as the canonical text. */
  lemma UuidKeyUnhyphenated(v: nat)
    requires v < UuidBound
    ensures UuidKey(HexText(v, 32)) == UuidKey(CanonicalUuid(v)) == Some(CanonicalUuid(v))
  {
    HexRoundTrip(v);
    UuidRoundTrip(v);
  }
}
