/**
 * A char filter that records, for the offset-correction map of its base
 * class, how far UTF-8 byte offsets run ahead of char offsets: each char
 * that needs k > 1 bytes in UTF-8 adds k - 1 to a running total, and the
 * next char's offset is mapped to that total.
 */
module Utf8MappingCharFilter {
  import opened Common
  import opened Unicode

  /** `charUtf8Size`: the UTF-8 length of a code point; anything above U+10FFFF counts as 3. */
  function CharUtf8Size(cp: int): (size: nat)
    ensures IsCodePoint(cp) ==> size == |Utf8(cp)|
    ensures cp > MaxCodePoint ==> size == 3
    ensures cp < 0 ==> size == 1
  {
    if cp < 0x80 then 1
    else if cp < 0x800 then 2
    else if cp < 0x1_0000 || cp >= 0x11_0000 then 3
    else 4
  }

  /** Java's `Character.codePointAt(char[], index)`: a surrogate pair read as one code point. */
  function CodePointAt(buf: seq<CodeUnit>, i: nat): int
    requires i < |buf|
  {
    if IsHighSurrogate(buf[i]) && i + 1 < |buf| && IsLowSurrogate(buf[i + 1])
    then ToCodePoint(buf[i], buf[i + 1])
    else buf[i]
  }

  /** One entry of the base class's offset-correction map. */
  datatype Correction = Correction(offset: int, cumulativeDiff: int)

  /** The filter's bookkeeping fields together with the corrections recorded so far. */
  datatype OffsetState = OffsetState(cumulative: int, currentOffset: int, nextIsOffset: bool, corrections: seq<Correction>)

  /** The loop body of `correctOffsets` for one char. */
  function StepChar(st: OffsetState, cp: int): OffsetState
  {
    var recorded :=
      if st.nextIsOffset
      then st.(corrections := st.corrections + [Correction(st.currentOffset, st.cumulative)], nextIsOffset := false)
      else st;
    var advanced := recorded.(currentOffset := recorded.currentOffset + 1);
    var increment := CharUtf8Size(cp) - 1;
    if increment > 0 then advanced.(cumulative := advanced.cumulative + increment, nextIsOffset := true)
    else advanced
  }

  /** `correctOffsets` over `buf[from..hi)`. */
  function StepRange(st: OffsetState, buf: seq<CodeUnit>, from: nat, hi: nat): OffsetState
    requires from <= hi <= |buf|
    decreases hi - from
  {
    if hi == from then st else StepChar(StepRange(st, buf, from, hi - 1), CodePointAt(buf, hi - 1))
  }

  predicate NoSurrogates(s: seq<CodeUnit>)
  {
    forall k :: 0 <= k < |s| ==> !IsSurrogate(s[k])
  }

  /** UTF-8 length of a text of BMP chars. */
  function Utf8Length(s: seq<CodeUnit>): nat
  {
    if s == [] then 0 else Utf8Length(s[..|s| - 1]) + |Utf8(s[|s| - 1])|
  }

  lemma {:induction false} Utf8LengthStep(buf: seq<CodeUnit>, from: nat, hi: nat)
    requires from < hi <= |buf|
    ensures Utf8Length(buf[from..hi]) == Utf8Length(buf[from..hi - 1]) + |Utf8(buf[hi - 1])|
  {
    assert buf[from..hi][..hi - 1 - from] == buf[from..hi - 1];
  }

  lemma {:induction false} NoSurrogatesPrefix(buf: seq<CodeUnit>, from: nat, hi: nat)
    requires from < hi <= |buf| && NoSurrogates(buf[from..hi])
    ensures NoSurrogates(buf[from..hi - 1]) && !IsSurrogate(buf[hi - 1])
  {
    assert buf[from..hi - 1] == buf[from..hi][..hi - 1 - from];
    assert buf[hi - 1] == buf[from..hi][hi - 1 - from];
  }

  /**
   * For BMP text: `currentOffset` advances by the number of chars,
   * `cumulative` by the UTF-8 byte count minus the char count, and the flag
   * says whether the last char needed more than one byte.
   */
  lemma {:induction false} StepRangeCounters(st: OffsetState, buf: seq<CodeUnit>, from: nat, hi: nat)
    requires from <= hi <= |buf| && NoSurrogates(buf[from..hi])
    ensures var r := StepRange(st, buf, from, hi);
      && r.currentOffset == st.currentOffset + (hi - from)
      && r.cumulative == st.cumulative + Utf8Length(buf[from..hi]) - (hi - from)
      && r.nextIsOffset == (if hi == from then st.nextIsOffset else |Utf8(buf[hi - 1])| > 1)
      && st.corrections <= r.corrections
    decreases hi - from
  {
    if hi > from {
      NoSurrogatesPrefix(buf, from, hi);
      StepRangeCounters(st, buf, from, hi - 1);
      Utf8LengthStep(buf, from, hi);
      assert CodePointAt(buf, hi - 1) == buf[hi - 1];
    }
  }

  /**
   * For BMP text, every correction recorded maps a char offset to the
   * number of extra UTF-8 bytes taken by the chars before it, so adding the
   * correction to a char offset gives the byte offset.
   */
  lemma {:induction false} StepRangeCorrections(st: OffsetState, buf: seq<CodeUnit>, from: nat, hi: nat)
    requires from <= hi <= |buf| && NoSurrogates(buf[from..hi])
    ensures var r := StepRange(st, buf, from, hi);
      forall k :: |st.corrections| <= k < |r.corrections| ==>
        var c := r.corrections[k];
        var chars := c.offset - st.currentOffset;
        && 0 <= chars <= hi - from
        && c.cumulativeDiff == st.cumulative + Utf8Length(buf[from..from + chars]) - chars
    decreases hi - from
  {
    if hi > from {
      NoSurrogatesPrefix(buf, from, hi);
      StepRangeCorrections(st, buf, from, hi - 1);
      StepRangeCounters(st, buf, from, hi - 1);
      var prev := StepRange(st, buf, from, hi - 1);
      var r := StepRange(st, buf, from, hi);
      assert r.corrections == prev.corrections
          || r.corrections == prev.corrections + [Correction(prev.currentOffset, prev.cumulative)];
      assert buf[from..from + (hi - 1 - from)] == buf[from..hi - 1];
    }
  }

  class Utf8MappingCharFilter {
    var cumulative: int
    var currentOffset: int
    var nextIsOffset: bool
    /** The offset-correction map kept by the base class, in insertion order. */
    var corrections: seq<Correction>
    /** What the wrapped reader has still to deliver. */
    var input: seq<CodeUnit>

    function State(): OffsetState
      reads this
    {
      OffsetState(cumulative, currentOffset, nextIsOffset, corrections)
    }

    constructor (input: seq<CodeUnit>)
      ensures State() == OffsetState(0, 0, false, []) && this.input == input
    {
      cumulative := 0;
      currentOffset := 0;
      nextIsOffset := false;
      corrections := [];
      this.input := input;
    }

    /** `correctOffsets(cbuf, off, len)`: runs the per-char bookkeeping over `cbuf[off..off+len)`. */
    method CorrectOffsets(cbuf: array<CodeUnit>, off: nat, len: nat)
      requires off + len <= cbuf.Length
      modifies this`corrections, this`nextIsOffset, this`currentOffset, this`cumulative
      ensures State() == StepRange(old(State()), cbuf[..], off, off + len)
    {
      var i := off;
      while i < off + len
        invariant off <= i <= off + len
        invariant State() == StepRange(old(State()), cbuf[..], off, i)
      {
        var cp := CodePointAt(cbuf[..], i);
        Step(cp);
        i := i + 1;
      }
    }

    /** The bookkeeping for one char whose code point is `cp`. */
    method Step(cp: int)
      modifies this`corrections, this`nextIsOffset, this`currentOffset, this`cumulative
      ensures State() == StepChar(old(State()), cp)
    {
      if nextIsOffset {
        corrections := corrections + [Correction(currentOffset, cumulative)];
        nextIsOffset := false;
      }
      currentOffset := currentOffset + 1;
      var increment := CharUtf8Size(cp) - 1;
      if increment > 0 {
        cumulative := cumulative + increment;
        nextIsOffset := true;
      }
    }

    /**
     * `read(cbuf, off, len)`: fills `cbuf` from the wrapped reader, which
     * hands over as many chars as it has, and records offsets for them;
     * -1 only when the reader was already exhausted.
     */
    method Read(cbuf: array<CodeUnit>, off: nat, len: int) returns (numRead: int)
      requires off + Max(len, 0) <= cbuf.Length
      modifies this, cbuf
      ensures numRead == -1 <==> len > 0 && old(input) == []
      ensures numRead != -1 ==> numRead == Min(Max(len, 0), |old(input)|)
      ensures numRead != -1 ==>
        && cbuf[off..off + numRead] == old(input)[..numRead]
        && input == old(input)[numRead..]
        && State() == StepRange(old(State()), cbuf[..], off, off + numRead)
      ensures numRead == -1 ==> State() == old(State()) && input == old(input)
    {
      numRead := 0;
      var at := off;
      while len - numRead > 0
        invariant 0 <= numRead <= Max(len, 0) && at == off + numRead
        invariant numRead <= |old(input)| && input == old(input)[numRead..]
        invariant cbuf[off..at] == old(input)[..numRead]
        invariant State() == StepRange(old(State()), cbuf[..], off, at)
        invariant numRead > 0 && numRead < Max(len, 0) ==> input == []
        decreases len - numRead
      {
        var lenToRead := len - numRead;
        var read := ReadInput(cbuf, at, lenToRead);
        if read < 0 {
          if numRead == 0 {
            return -1;
          }
          break;
        }
        CorrectOffsets(cbuf, at, read);
        at := at + read;
        numRead := numRead + read;
      }
    }

    /** The wrapped reader: up to `lenToRead` chars into `cbuf` at `at`, or -1 at its end. */
    method ReadInput(cbuf: array<CodeUnit>, at: nat, lenToRead: nat) returns (read: int)
      requires 0 < lenToRead && at + lenToRead <= cbuf.Length
      modifies this`input, cbuf
      ensures read == -1 <==> old(input) == []
      ensures read != -1 ==> read == Min(lenToRead, |old(input)|) && input == old(input)[read..]
      ensures read != -1 ==> cbuf[at..at + read] == old(input)[..read]
      ensures read != -1 ==> cbuf[..at] == old(cbuf[..at])
      ensures read == -1 ==> input == old(input) && cbuf[..] == old(cbuf[..])
    {
      if input == [] {
        return -1;
      }
      read := Min(lenToRead, |input|);
      forall k | 0 <= k < read {
        cbuf[at + k] := input[k];
      }
      input := input[read..];
    }
  }
}
