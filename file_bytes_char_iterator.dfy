/**
 * A character iterator over the bytes of a file whose indexes are byte
 * offsets, not char indexes: an ASCII byte reads as itself and every
 * other byte as '?'. Sub-sequences taken in UTF-8 mode are widened to
 * start on UTF-8 sequence boundaries.
 */
module FileBytesCharIterator {
  import opened Common
  import opened Unicode
  import BaseSourceReader

  /** `CharacterIterator.DONE`. */
  const Done: char := '\U{FFFF}'

  /** The size of the reusable copy buffer of the forced-ASCII `subSequence`. */
  const CopyBufSize: nat := 128 * 1024

  /** The constructor's UTF-8 heuristic on the first bytes, as written: a BOM, or a first byte shaped like a 4-, 3-, 2- or 1-byte sequence start. */
  predicate PassesUtf8Heuristic(b0: Byte, b1: Byte, b2: Byte)
  {
    (b0 == 0xEF && b1 == 0xBB && b2 == 0xBF)
    || b0 / 8 == 0x1E || b0 / 16 == 0xE || b0 / 32 == 6 || b0 / 128 == 0
  }

  /**
   * Why opening a file fails, if it does: in UTF-8 mode four bytes are
   * read for the check, so a shorter file underflows, and a file that
   * fails the heuristic is rejected.
   */
  function OpenError(bytes: seq<Byte>, utf8: bool): Option<string>
  {
    if !utf8 then None
    else if |bytes| < 4 then Some("BufferUnderflowException")
    else if !PassesUtf8Heuristic(bytes[0], bytes[1], bytes[2]) then Some("IllegalArgumentException")
    else None
  }

  /**
   * The heuristic comes down to the first byte: a file opens in UTF-8
   * mode exactly when it has at least four bytes and its first byte is
   * ASCII or the lead byte of a 2-, 3- or 4-byte sequence. The BOM test
   * adds nothing, since 0xEF already passes as a 3-byte lead.
   */
  lemma {:induction false} OpenErrorFirstByte(bytes: seq<Byte>, utf8: bool)
    ensures OpenError(bytes, utf8) == None
        <==> !utf8 || (|bytes| >= 4 && (bytes[0] < 0x80 || 0xC0 <= bytes[0] < 0xF8))
  {
    if utf8 && |bytes| >= 4 {
      var b0 := bytes[0];
      if b0 < 0x80 {
        assert b0 / 128 == 0;
      } else if b0 < 0xC0 {
        assert b0 / 128 == 1 && b0 / 32 in {4, 5} && b0 / 16 in {8, 9, 10, 11} && b0 / 8 < 0x18;
      } else if b0 < 0xE0 {
        assert b0 / 32 == 6;
      } else if b0 < 0xF0 {
        assert b0 / 16 == 0xE;
      } else if b0 < 0xF8 {
        assert b0 / 8 == 0x1E;
      } else {
        assert b0 / 8 == 0x1F && b0 / 16 == 0xF && b0 / 32 == 7 && b0 / 128 == 1;
      }
    }
  }

  /** `charAt`: an ASCII byte as its char, any other byte as '?'; an offset outside the file is an index error. */
  function CharAt(bytes: seq<Byte>, offset: int): (r: Result<char>)
    ensures r.Ok? <==> 0 <= offset < |bytes|
    ensures r.Ok? ==> r.value < '\U{0080}'
    ensures r.Ok? && bytes[offset] < 0x80 ==> r.value as int == bytes[offset]
    ensures r.Ok? && bytes[offset] >= 0x80 ==> r.value == '?'
  {
    if !(0 <= offset < |bytes|) then Err("IndexOutOfBoundsException")
    else if bytes[offset] < 0x80 then Ok(bytes[offset] as char)
    else Ok('?')
  }

  /** `current()` at index `cur`: DONE exactly at the end index, since `CharAt` never yields U+FFFF. */
  function CurrentChar(bytes: seq<Byte>, cur: int): (r: Result<char>)
    ensures r.Ok? <==> 0 <= cur <= |bytes|
    ensures r == Ok(Done) <==> cur == |bytes|
  {
    if cur == |bytes| then Ok(Done) else CharAt(bytes, cur)
  }

  /** The byte width `next()` assumes for the char at the cursor. */
  function NextWidth(c: char): nat
  {
    if IsHighSurrogate(c as int) || c > '\U{07FF}' then 3 else if c > '\U{007F}' then 2 else 1
  }

  /** The byte width `previous()` assumes for the char at the cursor. */
  function PreviousWidth(c: char): nat
  {
    if IsLowSurrogate(c as int) || c > '\U{07FF}' then 3 else if c > '\U{007F}' then 2 else 1
  }

  /**
   * The index `previous()` moves to from `cur > 0`, as written: the width
   * is taken from `current()`, which is DONE (U+FFFF) at the end index.
   */
  function PreviousIndexAsWritten(bytes: seq<Byte>, cur: int): Result<int>
    requires cur > 0
  {
    var c :- CurrentChar(bytes, cur);
    Ok(Max(cur - PreviousWidth(c), 0))
  }

  /** Stepping back from the end of "abc" lands on 'a' instead of 'c': DONE counts as a 3-byte char. */
  lemma {:induction false} PreviousFromEndAsWritten()
    ensures PreviousIndexAsWritten(['a' as int, 'b' as int, 'c' as int], 3) == Ok(0)
  {
    assert CurrentChar(['a' as int, 'b' as int, 'c' as int], 3) == Ok(Done);
  }

  /**
   * `adjustOffset(offset)`: the end index stays; any other offset moves
   * left to the nearest byte at or before it that is not a UTF-8
   * continuation byte, and running off the front is an index error.
   */
  function Snap(bytes: seq<Byte>, offset: nat): (r: Result<int>)
    requires offset <= |bytes|
    ensures offset == |bytes| ==> r == Ok(offset)
    ensures r.Ok? ==> 0 <= r.value <= offset
    ensures r.Ok? && r.value < |bytes| ==> !IsContinuation(bytes[r.value])
    ensures r.Ok? ==> forall k :: r.value < k <= offset && k < |bytes| ==> IsContinuation(bytes[k])
    ensures r.Err? <==> offset < |bytes| && forall k :: 0 <= k <= offset ==> IsContinuation(bytes[k])
  {
    if offset == |bytes| then Ok(offset)
    else
      var p := BaseSourceReader.BoundaryBefore(bytes, offset + 1);
      if p < 0 then Err("IndexOutOfBoundsException") else Ok(p)
  }

  /** Snapping keeps the order of offsets, and an offset that fails makes every smaller one fail too. */
  lemma {:induction false} SnapMonotone(bytes: seq<Byte>, a: nat, b: nat)
    requires a <= b <= |bytes|
    ensures Snap(bytes, b).Err? ==> Snap(bytes, a).Err?
    ensures Snap(bytes, a).Ok? && Snap(bytes, b).Ok? ==> Snap(bytes, a).value <= Snap(bytes, b).value
  {
  }

  /** A snapped offset is already a boundary: snapping it again leaves it where it is. */
  lemma {:induction false} SnapIdempotent(bytes: seq<Byte>, offset: nat)
    requires offset <= |bytes| && Snap(bytes, offset).Ok?
    ensures Snap(bytes, Snap(bytes, offset).value) == Snap(bytes, offset)
  {
    var p := Snap(bytes, offset).value;
    if p < |bytes| {
      var q := Snap(bytes, p);
      assert q.Ok? by {
        assert !IsContinuation(bytes[p]);
      }
    }
  }

  /** An open file with its cursor; `copyBuf` is the reusable buffer of the forced-ASCII copy. */
  class FileBytesCharIterator {
    const bytes: seq<Byte>
    const utf8: bool
    const copyBuf: array<Byte>
    var current: int

    ghost predicate Valid()
      reads this
    {
      copyBuf.Length == CopyBufSize
    }

    /** Opening a file that passes the encoding check; the cursor starts at 0. */
    constructor (bytes: seq<Byte>, utf8: bool)
      requires OpenError(bytes, utf8) == None
      ensures Valid() && fresh(copyBuf)
      ensures this.bytes == bytes && this.utf8 == utf8 && current == 0
    {
      this.bytes := bytes;
      this.utf8 := utf8;
      this.copyBuf := new Byte[CopyBufSize](_ => 0);
      this.current := 0;
    }

    /** The copy constructor: the same file and charset, reopened, at the same cursor. */
    constructor Copy(other: FileBytesCharIterator)
      requires OpenError(other.bytes, other.utf8) == None
      ensures Valid() && fresh(copyBuf)
      ensures bytes == other.bytes && utf8 == other.utf8 && current == other.current
    {
      this.bytes := other.bytes;
      this.utf8 := other.utf8;
      this.copyBuf := new Byte[CopyBufSize](_ => 0);
      this.current := other.current;
    }

    /** `first()`: the cursor goes to 0. */
    method First() returns (r: Result<char>)
      modifies this
      ensures current == 0
      ensures r == CurrentChar(bytes, 0)
    {
      current := 0;
      r := CurrentChar(bytes, current);
    }

    /** `last()`: the cursor goes to the last byte; on an empty file that is -1, an index error. */
    method Last() returns (r: Result<char>)
      modifies this
      ensures current == |bytes| - 1
      ensures r.Err? <==> bytes == []
      ensures bytes != [] ==> r == CharAt(bytes, |bytes| - 1)
    {
      current := |bytes| - 1;
      r := CurrentChar(bytes, current);
    }

    /**
     * `next()`: since the char at the cursor is always ASCII or '?', the
     * cursor moves exactly one byte, never past the end, and DONE comes
     * back once the end is reached.
     */
    method Next() returns (r: Result<char>)
      modifies this
      ensures !(0 <= old(current) <= |bytes|) ==> r.Err? && current == old(current)
      ensures old(current) == |bytes| ==> current == |bytes| && r == Ok(Done)
      ensures 0 <= old(current) < |bytes| ==> current == old(current) + 1
      ensures 0 <= old(current) <= |bytes| ==> r == CurrentChar(bytes, current)
    {
      var c :- CurrentChar(bytes, current);
      var inc := NextWidth(c);
      current := Min(current + inc, |bytes|);
      if current == |bytes| {
        return Ok(Done);
      }
      r := CurrentChar(bytes, current);
    }

    /**
     * `previous()`, with the step at the end index taken as one byte:
     * from any index in (0, length] the cursor moves exactly one byte
     * back; at 0 or below it stays and DONE comes back.
     */
    method Previous() returns (r: Result<char>)
      modifies this
      ensures old(current) <= 0 ==> current == old(current) && r == Ok(Done)
      ensures old(current) > |bytes| ==> current == old(current) && r.Err?
      ensures 0 < old(current) <= |bytes| ==> current == old(current) - 1 && r == CurrentChar(bytes, current)
    {
      if current > 0 {
        var c :- CurrentChar(bytes, current);
        var dec := if current == |bytes| then 1 else PreviousWidth(c);
        current := Max(current - dec, 0);
        r := CurrentChar(bytes, current);
      } else {
        r := Ok(Done);
      }
    }

    /** `setIndex(offset)`: the cursor moves even when the index is invalid, which is then reported as an argument error. */
    method SetIndex(offset: int) returns (r: Result<char>)
      modifies this
      ensures current == offset
      ensures r.Err? <==> !(0 <= offset <= |bytes|)
      ensures r.Err? ==> r.error == "IllegalArgumentException"
      ensures r.Ok? ==> r == CurrentChar(bytes, offset)
    {
      current := offset;
      var c := CurrentChar(bytes, current);
      if c.Err? {
        return Err("IllegalArgumentException");
      }
      r := c;
    }

    /** `adjustOffset(offset)`: the byte walk to the left, proved to compute `Snap`. */
    method AdjustOffset(offset: int) returns (r: Result<int>)
      requires 0 <= offset <= |bytes|
      ensures r == Snap(bytes, offset)
    {
      if offset == |bytes| {
        return Ok(offset);
      }
      var o := offset;
      var b := bytes[o];
      while b / 64 == 2
        invariant 0 <= o <= offset && b == bytes[o]
        invariant Snap(bytes, offset) == Snap(bytes, o)
        decreases o
      {
        if o == 0 {
          return Err("IndexOutOfBoundsException");
        }
        o := o - 1;
        b := bytes[o];
      }
      return Ok(o);
    }

    /**
     * `subSequence(start, end)` as the bytes it decodes: invalid bounds
     * are an index error; in UTF-8 mode both ends are snapped left to
     * sequence boundaries first.
     */
    method SubSequence(start: int, end: int) returns (r: Result<seq<Byte>>)
      ensures start < 0 || end < 0 || end > |bytes| || end < start ==> r == Err("IndexOutOfBoundsException")
      ensures 0 <= start <= end <= |bytes| && !utf8 ==> r == Ok(bytes[start..end])
      ensures 0 <= start <= end <= |bytes| && utf8 ==>
        (r.Err? <==> Snap(bytes, start).Err? || Snap(bytes, end).Err?)
      ensures 0 <= start <= end <= |bytes| && utf8 && r.Ok? ==>
        Snap(bytes, start).value <= Snap(bytes, end).value
        && r.value == bytes[Snap(bytes, start).value..Snap(bytes, end).value]
    {
      if start < 0 || end < 0 || end > |bytes| || end < start {
        return Err("IndexOutOfBoundsException");
      }
      var s, e := start, end;
      if utf8 {
        s :- AdjustOffset(start);
        // Once `start` has a boundary at or before it, so has `end`.
        var adjustedEnd := AdjustOffset(end);
        SnapMonotone(bytes, start, end);
        e := adjustedEnd.value;
      }
      r := Ok(bytes[s..e]);
    }

    /**
     * `subSequence(start, end, true)`: the bytes are copied into the
     * fixed copy buffer and read one char per byte; a range longer than
     * that buffer is an index error.
     */
    method SubSequenceAscii(start: int, end: int) returns (r: Result<string>)
      requires Valid()
      modifies copyBuf
      ensures start < 0 || end < 0 || end > |bytes| || end < start || end - start > CopyBufSize
        <==> r == Err("IndexOutOfBoundsException")
      ensures r.Ok? ==> r.value == BaseSourceReader.Latin1(bytes[start..end])
    {
      if start < 0 || end < 0 || end > |bytes| || end < start || end - start > copyBuf.Length {
        return Err("IndexOutOfBoundsException");
      }
      var copyLen := end - start;
      forall i | 0 <= i < copyLen {
        copyBuf[i] := bytes[start + i];
      }
      assert copyBuf[..copyLen] == bytes[start..end];
      r := Ok(BaseSourceReader.Latin1(copyBuf[..copyLen]));
    }
  }

  /** The constructor's two outcomes: the encoding check's exception, or a fresh iterator at index 0. */
  method Open(bytes: seq<Byte>, utf8: bool) returns (r: Result<FileBytesCharIterator>)
    ensures r.Err? <==> OpenError(bytes, utf8).Some?
    ensures r.Err? ==> r.error == OpenError(bytes, utf8).value
    ensures r.Ok? ==> fresh(r.value) && r.value.bytes == bytes && r.value.utf8 == utf8 && r.value.current == 0
  {
    var e := OpenError(bytes, utf8);
    if e.Some? {
      return Err(e.value);
    }
    var it := new FileBytesCharIterator(bytes, utf8);
    r := Ok(it);
  }
}
