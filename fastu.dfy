/**
 * Fast UTF-8 to UTF-16 decoding into a `char[]`, with the lead-byte
 * classification of section 3 of RFC 3629 (plus the obsolete 5- and 6-byte
 * forms) and surrogate-pair output per section 2.1 of RFC 2781.
 */
module Fastu {
  import opened Common
  import opened Unicode

  /**
   * Bytes announced by a lead byte, following the masks 0x80, 0xE0, 0xF0,
   * 0xF8, 0xFC and 0xFE; 0 for a byte that no branch accepts
   * (continuation bytes and 0xFE/0xFF).
   */
  function SequenceLength(b: Byte): (n: nat)
    ensures n <= 6
    ensures n == 0 <==> IsContinuation(b) || b >= 0xFE
  {
    if b < 0x80 then 1
    else if 0xC0 <= b < 0xE0 then 2
    else if 0xE0 <= b < 0xF0 then 3
    else if 0xF0 <= b < 0xF8 then 4
    else if 0xF8 <= b < 0xFC then 5
    else if 0xFC <= b < 0xFE then 6
    else 0
  }

  /** Payload bits of a lead byte of an `n`-byte sequence (`b & 0x1F`, `b & 0x0F`, ...). */
  function LeadPayload(b: Byte, n: nat): nat
    requires 1 <= n <= 6
  {
    if n == 1 then b
    else if n == 2 then b % 32
    else if n == 3 then b % 16
    else if n == 4 then b % 8
    else if n == 5 then b % 4
    else b % 2
  }

  /** The value assembled from a lead byte and the continuation payloads (`uc <<= 6; uc |= b & 0x3F`). */
  function Payload(bytes: seq<Byte>, n: nat): nat
    requires 1 <= n <= 6 && 1 <= |bytes|
  {
    if |bytes| == 1 then LeadPayload(bytes[0], n)
    else Payload(bytes[..|bytes| - 1], n) * 64 + bytes[|bytes| - 1] % 64
  }

  /** Prefixes decoded output to a decoding result, keeping a failure a failure. */
  function Prepend(prefix: seq<CodeUnit>, r: Result<seq<CodeUnit>>): Result<seq<CodeUnit>>
  {
    match r
    case Ok(rest) => Ok(prefix + rest)
    case Err(e) => Err(e)
  }

  /**
   * What `decode` produces: the UTF-16 text, or the exception it raises. A
   * sequence cut off by the end of the input runs past the array; a code
   * point above U+10FFFF is refused by `toChars`; a byte no branch accepts
   * never advances the input while U+0000 is written again and again, until
   * the output array overflows.
   */
  function Decode(data: seq<Byte>): Result<seq<CodeUnit>>
    decreases |data|
  {
    if data == [] then Ok([])
    else
      var n := SequenceLength(data[0]);
      if n == 0 || n > |data| then Err("ArrayIndexOutOfBoundsException")
      else
        var uc := Payload(data[..n], n);
        if uc > MaxCodePoint then Err("IllegalArgumentException")
        else Prepend(Utf16(uc), Decode(data[n..]))
  }

  /**
   * `toChars(codePoint, dst, index)`: writes the UTF-16 form of the code
   * point at `index` and returns the index after it; an out-of-range code
   * point raises IllegalArgumentException.
   */
  method ToChars(codePoint: int, dst: array<CodeUnit>, index: int) returns (r: Result<int>)
    requires 0 <= index
    requires IsCodePoint(codePoint) ==> index + |Utf16(codePoint)| <= dst.Length
    modifies dst
    ensures !IsCodePoint(codePoint) ==> r.Err? && dst[..] == old(dst[..])
    ensures IsCodePoint(codePoint) ==>
      r == Ok(index + |Utf16(codePoint)|) &&
      dst[..] == old(dst[..index]) + Utf16(codePoint) + old(dst[index + |Utf16(codePoint)|..])
  {
    if codePoint < 0 || codePoint > MaxCodePoint {
      return Err("IllegalArgumentException");
    }
    if codePoint < MinSupplementaryCodePoint {
      dst[index] := codePoint;
      return Ok(index + 1);
    }
    var offset := codePoint - MinSupplementaryCodePoint;
    dst[index + 1] := offset % 0x400 + MinLowSurrogate;
    dst[index] := offset / 0x400 + MinHighSurrogate;
    return Ok(index + 2);
  }

  /** `decode(data)`: decodes into a buffer of `data.length` chars, as `Decode` describes. */
  method DecodeBytes(data: array<Byte>) returns (r: Result<seq<CodeUnit>>)
    ensures r == Decode(data[..])
    ensures r.Ok? ==> |r.value| <= data.Length
  {
    var chars := new CodeUnit[data.Length];
    var len := 0;
    var offset := 0;
    assert data[offset..] == data[..] && chars[..len] == [];
    PrependEmpty(Decode(data[..]));
    while offset < data.Length
      invariant 0 <= len <= offset <= data.Length == chars.Length
      invariant Decode(data[..]) == Prepend(chars[..len], Decode(data[offset..]))
      decreases data.Length - offset
    {
      var failure;
      failure, len, offset := DecodeSequenceAt(data, chars, len, offset);
      if failure.Some? {
        return Err(failure.value);
      }
    }
    assert data[offset..] == [];
    assert chars[..len] + [] == chars[..len];
    return Ok(chars[..len]);
  }

  /** One iteration of the `decode` loop: the sequence starting at `offset`. */
  method DecodeSequenceAt(data: array<Byte>, chars: array<CodeUnit>, len: nat, offset: nat)
    returns (failure: Option<string>, len': nat, offset': nat)
    requires len <= offset < data.Length == chars.Length
    modifies chars
    ensures failure.Some? ==> Prepend(old(chars[..len]), Decode(data[offset..])) == Err(failure.value)
    ensures failure.None? ==>
      len' <= offset' <= data.Length && offset < offset' &&
      Prepend(old(chars[..len]), Decode(data[offset..])) == Prepend(chars[..len'], Decode(data[offset'..]))
  {
    var lead := data[offset];
    var n := SequenceLength(lead);
    if n == 1 {
      ghost var done := chars[..len];
      ghost var tail := data[offset..];
      assert tail[..1] == [lead] && tail[1..] == data[offset + 1..];
      DecodeStep(tail, 1);
      PrependAppend(done, [lead], Decode(data[offset + 1..]));
      chars[len] := lead;
      assert chars[..len + 1] == done + [lead];
      return None, len + 1, offset + 1;
    }
    if n == 0 || offset + n > data.Length {
      return Some("ArrayIndexOutOfBoundsException"), len, offset;
    }
    failure, len', offset' := DecodeMultiByte(data, chars, len, offset, n);
  }

  /** A sequence of `n` >= 2 bytes that fits in `data`: its value as one or two chars, or too large. */
  method DecodeMultiByte(data: array<Byte>, chars: array<CodeUnit>, len: nat, offset: nat, n: nat)
    returns (failure: Option<string>, len': nat, offset': nat)
    requires len <= offset < data.Length == chars.Length
    requires n == SequenceLength(data[offset]) && 2 <= n && offset + n <= data.Length
    modifies chars
    ensures failure.Some? ==> Prepend(old(chars[..len]), Decode(data[offset..])) == Err(failure.value)
    ensures failure.None? ==>
      len' <= offset' <= data.Length && offset < offset' &&
      Prepend(old(chars[..len]), Decode(data[offset..])) == Prepend(chars[..len'], Decode(data[offset'..]))
  {
    ghost var done := chars[..len];
    ghost var tail := data[offset..];
    var uc := AssembleSequence(data, offset, n);
    assert tail[..n] == data[offset..offset + n] && tail[n..] == data[offset + n..];
    if uc > MaxCodePoint {
      return Some("IllegalArgumentException"), len, offset;
    }
    PayloadBound(data[offset..offset + n], n);
    offset' := offset + n;
    MultiByteStep(done, tail, n, uc, data[offset'..]);
    var written := ToChars(uc, chars, len);
    len' := written.value;
    assert chars[..len'] == done + Utf16(uc);
    failure := None;
  }

  /** What one well-formed multi-byte sequence adds to the chars decoded so far. */
  lemma {:induction false} MultiByteStep(done: seq<CodeUnit>, tail: seq<Byte>, n: nat, uc: int, rest: seq<Byte>)
    requires tail != [] && n == SequenceLength(tail[0]) && 1 <= n <= |tail| && rest == tail[n..]
    requires uc == Payload(tail[..n], n) <= MaxCodePoint
    ensures Prepend(done, Decode(tail)) == Prepend(done + Utf16(uc), Decode(rest))
  {
    DecodeStep(tail, n);
    PrependAppend(done, Utf16(uc), Decode(rest));
  }

  /** The unrolled `uc <<= 6; uc |= data[offset] & 0x3F` steps of one multi-byte sequence. */
  method AssembleSequence(data: array<Byte>, offset: nat, n: nat) returns (uc: nat)
    requires 2 <= n <= 6 && offset + n <= data.Length
    ensures uc == Payload(data[offset..offset + n], n)
  {
    uc := LeadPayload(data[offset], n);
    var k := 1;
    while k < n
      invariant 1 <= k <= n
      invariant uc == Payload(data[offset..offset + k], n)
    {
      assert data[offset..offset + k + 1][..k] == data[offset..offset + k];
      uc := uc * 64 + data[offset + k] % 64;
      k := k + 1;
    }
  }

  /** One step of `Decode`: a well-formed leading sequence contributes the UTF-16 form of its value. */
  lemma {:induction false} DecodeStep(s: seq<Byte>, n: nat)
    requires s != [] && n == SequenceLength(s[0]) && 1 <= n <= |s|
    requires Payload(s[..n], n) <= MaxCodePoint
    ensures Decode(s) == Prepend(Utf16(Payload(s[..n], n)), Decode(s[n..]))
  {
  }

  lemma {:induction false} PrependEmpty(r: Result<seq<CodeUnit>>)
    ensures Prepend([], r) == r
  {
    if r.Ok? {
      assert [] + r.value == r.value;
    }
  }

  lemma {:induction false} PrependAppend(a: seq<CodeUnit>, b: seq<CodeUnit>, r: Result<seq<CodeUnit>>)
    ensures Prepend(a, Prepend(b, r)) == Prepend(a + b, r)
  {
    if r.Ok? {
      assert a + (b + r.value) == a + b + r.value;
    }
  }

  /** A sequence of at most three bytes assembles a BMP value. */
  lemma {:induction false} PayloadBound(bytes: seq<Byte>, n: nat)
    requires 2 <= n <= 6 && |bytes| == n
    ensures n == 2 ==> Payload(bytes, n) < 0x800
    ensures n == 3 ==> Payload(bytes, n) < 0x1_0000
    ensures Payload(bytes, n) >= MinSupplementaryCodePoint ==> n >= 4
  {
    if n <= 3 {
      var p1 := Payload(bytes[..1], n);
      assert p1 == LeadPayload(bytes[0], n);
      assert bytes[..2][..1] == bytes[..1];
      var p2 := Payload(bytes[..2], n);
      assert p2 == p1 * 64 + bytes[1] % 64;
      if n == 3 {
        assert bytes[..3] == bytes;
        assert bytes[..3][..2] == bytes[..2];
      } else {
        assert bytes[..2] == bytes;
      }
    }
  }

  /** Decoding never yields more chars than there were bytes. */
  lemma {:induction false} DecodeLength(data: seq<Byte>)
    requires Decode(data).Ok?
    ensures |Decode(data).value| <= |data|
    decreases |data|
  {
    if data != [] {
      var n := SequenceLength(data[0]);
      var uc := Payload(data[..n], n);
      DecodeLength(data[n..]);
      if n <= 3 && n >= 2 { PayloadBound(data[..n], n); }
    }
  }

  /** Decoding the UTF-8 form of one code point consumes exactly its bytes and yields its UTF-16 form. */
  lemma {:induction false} DecodeOne(cp: int, rest: seq<Byte>)
    requires IsCodePoint(cp)
    ensures Decode(Utf8(cp) + rest) == Prepend(Utf16(cp), Decode(rest))
  {
    var b := Utf8(cp);
    var data := b + rest;
    var n := |b|;
    assert data[0] == b[0];
    assert SequenceLength(data[0]) == n by { SequenceLengthOfLead(cp); }
    assert data[..n] == b && data[n..] == rest;
    assert Payload(b, n) == cp by { PayloadOfUtf8(cp); }
  }

  lemma {:induction false} SequenceLengthOfLead(cp: int)
    requires IsCodePoint(cp)
    ensures SequenceLength(Utf8(cp)[0]) == |Utf8(cp)|
  {
    if 0x1_0000 <= cp {
      assert cp / 262144 <= 4;
    }
  }

  /** The lead and continuation payloads of the encoding reassemble the code point. */
  lemma {:induction false} PayloadOfUtf8(cp: int)
    requires IsCodePoint(cp)
    ensures Payload(Utf8(cp), |Utf8(cp)|) == cp
  {
    var b := Utf8(cp);
    var n := |b|;
    if n == 2 {
      assert b[..1] == [b[0]];
    } else if n == 3 {
      Payload3(cp, b);
    } else if n == 4 {
      Payload4(cp, b);
    }
  }

  lemma {:induction false} Payload3(cp: int, b: seq<Byte>)
    requires 0x800 <= cp < 0x1_0000 && b == Utf8(cp)
    ensures Payload(b, 3) == cp
  {
    assert b[..2][..1] == [b[0]];
    var t1 := cp / 64;
    assert LeadPayload(b[0], 3) == t1 / 64;
    assert Payload(b[..2], 3) == t1 / 64 * 64 + t1 % 64 == t1;
  }

  lemma {:induction false} Payload4(cp: int, b: seq<Byte>)
    requires 0x1_0000 <= cp <= MaxCodePoint && b == Utf8(cp)
    ensures Payload(b, 4) == cp
  {
    assert b[..3][..2][..1] == [b[0]];
    assert b[..3][..2] == b[..2];
    var t1 := cp / 64;
    var t2 := t1 / 64;
    assert LeadPayload(b[0], 4) == t2 / 64;
    assert Payload(b[..2], 4) == t2 / 64 * 64 + t2 % 64 == t2;
    assert Payload(b[..3], 4) == t2 * 64 + t1 % 64 == t1;
  }

  /** On valid input, decoding the UTF-8 form of a code-point sequence yields its UTF-16 form. */
  lemma {:induction false} DecodeUtf8(cps: seq<int>)
    requires forall k :: 0 <= k < |cps| ==> IsCodePoint(cps[k])
    ensures Decode(Utf8All(cps)) == Ok(Utf16All(cps))
  {
    if cps != [] {
      DecodeOne(cps[0], Utf8All(cps[1..]));
      DecodeUtf8(cps[1..]);
    }
  }

  /** A stray continuation byte makes `decode` fail instead of substituting a char. */
  lemma {:induction false} StrayContinuationFails(rest: seq<Byte>)
    ensures Decode([0x80] + rest).Err?
  {
  }
}
