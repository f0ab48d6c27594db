/**
 * UTF-8 (section 3 of RFC 3629) and UTF-16 (section 2.1 of RFC 2781)
 * encodings of single code points, used as the reference definitions the
 * byte/char offset code is proved against.
 */
module Unicode {
  import opened Common

  const MaxCodePoint: int := 0x10FFFF
  const MinSupplementaryCodePoint: int := 0x1_0000
  const MinHighSurrogate: int := 0xD800
  const MinLowSurrogate: int := 0xDC00

  predicate IsCodePoint(cp: int) { 0 <= cp <= MaxCodePoint }

  predicate IsHighSurrogate(u: int) { 0xD800 <= u <= 0xDBFF }

  predicate IsLowSurrogate(u: int) { 0xDC00 <= u <= 0xDFFF }

  predicate IsSurrogate(u: int) { 0xD800 <= u <= 0xDFFF }

  /** A UTF-8 continuation byte, 10xxxxxx. */
  predicate IsContinuation(b: Byte) { 0x80 <= b < 0xC0 }

  /** The UTF-8 encoding of one code point. */
  function Utf8(cp: int): (bytes: seq<Byte>)
    requires IsCodePoint(cp)
    ensures 1 <= |bytes| <= 4
    ensures !IsContinuation(bytes[0])
    ensures forall k :: 1 <= k < |bytes| ==> IsContinuation(bytes[k])
    ensures |bytes| == 1 <==> cp < 0x80
  {
    if cp < 0x80 then [cp]
    else if cp < 0x800 then [0xC0 + cp / 64, 0x80 + cp % 64]
    else if cp < 0x1_0000 then [0xE0 + cp / 64 / 64, 0x80 + cp / 64 % 64, 0x80 + cp % 64]
    else [0xF0 + cp / 64 / 64 / 64, 0x80 + cp / 64 / 64 % 64, 0x80 + cp / 64 % 64, 0x80 + cp % 64]
  }

  /** The UTF-16 encoding of one code point: one unit, or a surrogate pair from cp - 0x10000. */
  function Utf16(cp: int): (units: seq<CodeUnit>)
    requires IsCodePoint(cp)
    ensures |units| == if cp < MinSupplementaryCodePoint then 1 else 2
  {
    if cp < MinSupplementaryCodePoint then [cp]
    else
      var offset := cp - MinSupplementaryCodePoint;
      [offset / 0x400 + MinHighSurrogate, offset % 0x400 + MinLowSurrogate]
  }

  /** Java's `Character.toCodePoint`: the code point a surrogate pair stands for. */
  function ToCodePoint(high: int, low: int): int
  {
    (high - MinHighSurrogate) * 0x400 + (low - MinLowSurrogate) + MinSupplementaryCodePoint
  }

  /** A supplementary code point becomes a high then a low surrogate, and the pair decodes back. */
  lemma {:induction false} Utf16SurrogatePair(cp: int)
    requires MinSupplementaryCodePoint <= cp <= MaxCodePoint
    ensures IsHighSurrogate(Utf16(cp)[0]) && IsLowSurrogate(Utf16(cp)[1])
    ensures ToCodePoint(Utf16(cp)[0], Utf16(cp)[1]) == cp
  {
  }

  function Utf8All(cps: seq<int>): (bytes: seq<Byte>)
    requires forall k :: 0 <= k < |cps| ==> IsCodePoint(cps[k])
  {
    if cps == [] then [] else Utf8(cps[0]) + Utf8All(cps[1..])
  }

  function Utf16All(cps: seq<int>): (units: seq<CodeUnit>)
    requires forall k :: 0 <= k < |cps| ==> IsCodePoint(cps[k])
  {
    if cps == [] then [] else Utf16(cps[0]) + Utf16All(cps[1..])
  }

  /** A Unicode scalar value: a code point that is not a surrogate. */
  predicate IsScalarValue(cp: int) { IsCodePoint(cp) && !IsSurrogate(cp) }

  /**
   * The length of the well-formed UTF-8 sequence at the start of `s`, as
   * table 3-7 of the Unicode Standard lists them (no overlong forms, no
   * surrogates, nothing above U+10FFFF), or 0 when `s` does not start with one.
   */
  function WellFormedPrefix(s: seq<Byte>): (n: nat)
    requires s != []
    ensures n <= |s| && (n == 0 || 1 <= n <= 4)
  {
    var b0 := s[0];
    if b0 < 0x80 then 1
    else if 0xC2 <= b0 <= 0xDF then
      if |s| >= 2 && IsContinuation(s[1]) then 2 else 0
    else if 0xE0 <= b0 <= 0xEF then
      var lo := if b0 == 0xE0 then 0xA0 else 0x80;
      var hi := if b0 == 0xED then 0x9F else 0xBF;
      if |s| >= 3 && lo <= s[1] <= hi && IsContinuation(s[2]) then 3 else 0
    else if 0xF0 <= b0 <= 0xF4 then
      var lo := if b0 == 0xF0 then 0x90 else 0x80;
      var hi := if b0 == 0xF4 then 0x8F else 0xBF;
      if |s| >= 4 && lo <= s[1] <= hi && IsContinuation(s[2]) && IsContinuation(s[3]) then 4 else 0
    else 0
  }

  /** `s` is a sequence of well-formed UTF-8 sequences: what a strict decoder accepts. */
  predicate WellFormedUtf8(s: seq<Byte>)
    decreases |s|
  {
    s == [] || (WellFormedPrefix(s) > 0 && WellFormedUtf8(s[WellFormedPrefix(s)..]))
  }

  /** The encoding of a scalar value is one well-formed sequence, whatever follows it. */
  lemma {:induction false} Utf8IsWellFormedPrefix(cp: int, rest: seq<Byte>)
    requires IsScalarValue(cp)
    ensures WellFormedPrefix(Utf8(cp) + rest) == |Utf8(cp)|
  {
  }

  /** Encoding scalar values gives bytes a strict decoder accepts. */
  lemma {:induction false} Utf8AllWellFormed(cps: seq<int>)
    requires forall k :: 0 <= k < |cps| ==> IsCodePoint(cps[k]) && !IsSurrogate(cps[k])
    ensures WellFormedUtf8(Utf8All(cps))
  {
    if cps != [] {
      var rest := Utf8All(cps[1..]);
      Utf8AllWellFormed(cps[1..]);
      Utf8IsWellFormedPrefix(cps[0], rest);
      assert (Utf8(cps[0]) + rest)[|Utf8(cps[0])|..] == rest;
    }
  }

  /** A surrogate code point encoded the way Java's modified UTF-8 does is refused. */
  lemma {:induction false} EncodedSurrogateRefused(u: int)
    requires IsSurrogate(u)
    ensures !WellFormedUtf8(Utf8(u))
  {
    assert WellFormedPrefix(Utf8(u)) == 0;
  }
}
