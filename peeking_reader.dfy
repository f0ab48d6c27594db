/**
 * A reader that buffers the beginning of its input for repeated peeking
 * and keeps a fixed-capacity window of the chars it has most recently
 * handed out (the back context).
 */
module PeekingReader {
  import opened Common

  /** The last `n` elements of `s` (all of `s` when it is shorter). */
  function LastN<T>(s: seq<T>, n: nat): (r: seq<T>)
    ensures |r| == Min(|s|, n)
    ensures r == s[|s| - |r|..]
  {
    if |s| <= n then s else s[|s| - n..]
  }

  lemma {:induction false} LastNAppend<T>(s: seq<T>, t: seq<T>, n: nat)
    requires |t| <= n
    ensures LastN(s + t, n) == LastN(s, n - |t|) + t
  {
    var st := s + t;
    if |st| > n {
      assert st[|st| - n..] == s[|s| - (n - |t|)..] + t;
    }
  }

  lemma {:induction false} LastNOfLastN<T>(s: seq<T>, n: nat, m: nat)
    requires m <= n
    ensures LastN(LastN(s, n), m) == LastN(s, m)
  {
  }

  lemma {:induction false} LastNLongSuffix<T>(s: seq<T>, t: seq<T>, n: nat)
    requires |t| >= n
    ensures LastN(s + t, n) == t[|t| - n..]
  {
    var st := s + t;
    assert st[|st| - n..] == t[|t| - n..];
  }

  /** Keeping only the last `n` before appending does not change the last `n` after it. */
  lemma {:induction false} LastNCompose<T>(s: seq<T>, t: seq<T>, n: nat)
    ensures LastN(LastN(s, n) + t, n) == LastN(s + t, n)
  {
    if |t| >= n {
      LastNLongSuffix(LastN(s, n), t, n);
      LastNLongSuffix(s, t, n);
    } else {
      LastNAppend(LastN(s, n), t, n);
      LastNAppend(s, t, n);
      LastNOfLastN(s, n, n - |t|);
    }
  }

  /**
   * The chars the wrapped reader's one `read(buf, 0, n)` may deliver: none
   * when `n` is 0, -1 at the end of its input, and otherwise between one and
   * `n` chars, as many as it has ready.
   */
  predicate ReaderAnswer(remaining: nat, n: nat, k: int)
  {
    if n == 0 then k == 0
    else if remaining == 0 then k == -1
    else 1 <= k <= Min(n, remaining)
  }

  /**
   * What the constructor leaves in `peekStart`, as written, when the first
   * `read(buf, 0, beginPeekSize)` answers `numRead`: a shorter answer gives
   * a copy of that many chars, and the -1 of a reader already at its end
   * makes `new char[-1]` raise NegativeArraySizeException.
   */
  function InitialPeekAsWritten(source: seq<char>, beginPeekSize: nat, numRead: int): Result<seq<char>>
    requires ReaderAnswer(|source|, beginPeekSize, numRead)
  {
    if numRead < 0 then Err("NegativeArraySizeException")
    else Ok(source[..numRead])
  }

  /**
   * A peek buffer the constructor means to set up: a beginning of the
   * input, no longer than `beginPeekSize`, and empty only when either is
   * empty. How much of the input it holds is up to the wrapped reader.
   */
  predicate InitialPeek(source: seq<char>, beginPeekSize: nat, peek: seq<char>)
  {
    peek <= source && |peek| <= beginPeekSize && (peek == [] ==> source == [] || beginPeekSize == 0)
  }

  /** The peek buffer set up from the wrapped reader's answer: what it delivered, or nothing at the end of its input. */
  function PeekOfAnswer(source: seq<char>, beginPeekSize: nat, numRead: int): (peek: seq<char>)
    requires ReaderAnswer(|source|, beginPeekSize, numRead)
    ensures InitialPeek(source, beginPeekSize, peek)
    ensures InitialPeekAsWritten(source, beginPeekSize, numRead) == Ok(peek) <==> numRead >= 0
  {
    if numRead < 0 then [] else source[..numRead]
  }

  /** An empty input makes the constructor as written fail, where the only peek buffer meant is empty. */
  lemma {:induction false} EmptyInputFailsAsWritten(beginPeekSize: nat, numRead: int, peek: seq<char>)
    requires beginPeekSize > 0 && ReaderAnswer(0, beginPeekSize, numRead)
    ensures InitialPeekAsWritten([], beginPeekSize, numRead).Err?
    ensures InitialPeek([], beginPeekSize, peek) <==> peek == []
  {
  }

  /**
   * The value `read(cbuf, off, len)` returns as written, given how many
   * peeked chars are left (`peekLeft`) and what the wrapped reader answers
   * (`inputRead`, -1 at its end): the peeked part is bounded by the room
   * left in `cbuf` rather than by `len`, and a -1 from the wrapped reader
   * is added to the count.
   */
  function ReadCountAsWritten(peekLeft: nat, cbufLength: nat, off: nat, len: nat, inputRead: int): int
    requires off <= cbufLength
  {
    var restLen := if peekLeft > 0 then Min(peekLeft, cbufLength - off) else 0;
    if len > restLen then restLen + inputRead else restLen
  }

  /** The count `read` is meant to return: at most `len` chars, -1 only at the end of all input. */
  function ReadCount(peekLeft: nat, len: nat, inputRead: int): (n: int)
    requires inputRead >= -1
    ensures n == -1 <==> Min(peekLeft, len) == 0 && len > Min(peekLeft, len) && inputRead == -1
    ensures n >= 0 ==> n <= len
    ensures inputRead <= len - Min(peekLeft, len) && n >= 0 ==>
      n == Min(peekLeft, len) + Max(inputRead, 0) || len == Min(peekLeft, len)
  {
    var restLen := Min(peekLeft, len);
    if len > restLen then
      if inputRead < 0 then (if restLen == 0 then -1 else restLen)
      else Min(restLen + inputRead, len)
    else restLen
  }

  /**
   * Two peeked chars left, a wrapped reader at its end, room for 100:
   * both chars are copied but 1 is reported, so the last char of the input
   * is lost. With three peeked chars and `len` 1, 3 chars are reported.
   */
  lemma {:induction false} ReadCountAsWrittenMiscounts()
    ensures ReadCountAsWritten(2, 100, 0, 100, -1) == 1
    ensures ReadCount(2, 100, -1) == 2
    ensures ReadCountAsWritten(3, 10, 0, 1, -1) == 3
    ensures ReadCount(3, 1, -1) == 1
  {
  }

  class PeekingReader {
    /** Buffer holding the beginning of the input. */
    const peekStart: seq<char>
    /** How much of `peekStart` has already been handed out by `read`. */
    var peekStartOffset: nat
    var backContext: array<char>
    var backContextSize: nat
    var inputOffset: nat
    /** What the wrapped reader has still to deliver. */
    var input: seq<char>

    /** The whole input of the wrapped reader. */
    ghost const source: seq<char>
    ghost const beginPeekSize: nat
    /** Every char handed out by `read` so far, in order. */
    ghost var delivered: seq<char>

    ghost function Remaining(): seq<char>
      reads this
      requires peekStartOffset <= |peekStart|
    {
      peekStart[peekStartOffset..] + input
    }

    ghost predicate Valid()
      reads this, backContext
    {
      && peekStartOffset <= |peekStart|
      && InitialPeek(source, beginPeekSize, peekStart)
      && (peekStartOffset < |peekStart| ==> input == source[|peekStart|..])
      && delivered + Remaining() == source
      && inputOffset == |delivered|
      && backContextSize <= backContext.Length
      && backContext[..backContextSize] == LastN(delivered, backContext.Length)
    }

    constructor (source: seq<char>, beginPeekSize: nat, maxBackContextSize: nat)
      ensures Valid() && fresh(backContext)
      ensures backContext.Length == maxBackContextSize && delivered == []
      ensures this.source == source && this.beginPeekSize == beginPeekSize
    {
      this.source := source;
      this.beginPeekSize := beginPeekSize;
      assert ReaderAnswer(|source|, beginPeekSize, if beginPeekSize == 0 then 0 else if source == [] then -1 else 1);
      var numRead :| ReaderAnswer(|source|, beginPeekSize, numRead);
      var peek := PeekOfAnswer(source, beginPeekSize, numRead);
      peekStart := peek;
      input := source[|peek|..];
      peekStartOffset := 0;
      backContext := new char[maxBackContextSize];
      backContextSize := 0;
      inputOffset := 0;
      delivered := [];
    }

    /** `peekBeginning`: the buffered beginning of the input, whatever has been read since. */
    function PeekBeginning(): (r: seq<char>)
      reads this, backContext
      requires Valid()
      ensures InitialPeek(source, beginPeekSize, r)
      ensures r == source[..|r|] && |r| <= beginPeekSize
    {
      peekStart
    }

    /** `peekBackContext`: the most recent chars handed out, at most the capacity. */
    function PeekBackContext(): (r: seq<char>)
      reads this, backContext
      requires Valid()
      ensures r == LastN(delivered, backContext.Length)
      ensures r == delivered[GetBackContextStartOffset()..]
    {
      backContext[..backContextSize]
    }

    /** `getBackContextStartOffset`: the input offset at which the back context begins. */
    function GetBackContextStartOffset(): (r: nat)
      reads this, backContext
      requires Valid()
      ensures r == Max(0, inputOffset - backContext.Length)
      ensures r + backContextSize == inputOffset
    {
      if inputOffset - backContext.Length > 0 then inputOffset - backContext.Length else 0
    }

    /**
     * `read(cbuf, off, len)`, with the peeked part bounded by `len` and the
     * wrapped reader's -1 not counted: the next chars of the input, all the
     * peeked ones that fit and then as many as the wrapped reader delivers,
     * at most `len` in all; -1 once everything has been read.
     */
    method Read(cbuf: array<char>, off: nat, len: nat) returns (numRead: int)
      requires Valid() && off + len <= cbuf.Length && cbuf != backContext
      modifies this, cbuf, backContext
      ensures Valid() && backContext.Length == old(backContext.Length)
      ensures numRead == -1 <==> len > 0 && old(Remaining()) == []
      ensures numRead != -1 ==> numRead <= len && numRead <= |old(Remaining())|
      ensures numRead != -1 ==> numRead == len || numRead >= |peekStart| - old(peekStartOffset)
      ensures len > 0 && old(Remaining()) != [] ==> numRead > 0
      ensures numRead != -1 ==> cbuf[off..off + numRead] == old(Remaining())[..numRead]
      ensures numRead != -1 ==> delivered == old(delivered) + cbuf[off..off + numRead]
      ensures numRead <= 0 ==> inputOffset == old(inputOffset) && PeekBackContext() == old(PeekBackContext())
    {
      ghost var rest := Remaining();
      numRead := Take(cbuf, off, len);
      if numRead == -1 {
        return;
      }
      if numRead == 0 {
        return;
      }
      ghost var chunk, rem, before := cbuf[off..off + numRead], Remaining(), delivered;
      TakeDropJoin(rest, numRead, chunk, rem);
      ConcatAssoc(before, chunk, rem);
      Deliver(cbuf, off, numRead);
      assert Remaining() == rem;
    }

    /** Lines 67-72: the chars just read join the back context and advance the input offset. */
    method Deliver(cbuf: array<char>, off: nat, numRead: nat)
      requires 0 < numRead && off + numRead <= cbuf.Length && cbuf != backContext
      requires backContextSize <= backContext.Length
      requires backContext[..backContextSize] == LastN(delivered, backContext.Length)
      modifies this`backContext, this`backContextSize, backContext, this`delivered, this`inputOffset
      ensures backContext.Length == old(backContext.Length) && backContextSize <= backContext.Length
      ensures delivered == old(delivered) + cbuf[off..off + numRead]
      ensures inputOffset == old(inputOffset) + numRead
      ensures backContext[..backContextSize] == LastN(delivered, backContext.Length)
    {
      ghost var chunk := cbuf[off..off + numRead];
      ghost var before := delivered;
      UpdateBackContext(cbuf, off, numRead);
      LastNCompose(before, chunk, backContext.Length);
      delivered := before + chunk;
      inputOffset := inputOffset + numRead;
    }

    /** Lines 54-66: the chars come from the peek buffer first, then from the wrapped reader. */
    method Take(cbuf: array<char>, off: nat, len: nat) returns (numRead: int)
      requires peekStartOffset <= |peekStart| && off + len <= cbuf.Length
      modifies this`peekStartOffset, this`input, cbuf
      ensures peekStartOffset <= |peekStart|
      ensures peekStartOffset < |peekStart| ==> input == old(input)
      ensures numRead == -1 <==> len > 0 && old(Remaining()) == []
      ensures numRead != -1 ==> numRead <= len && numRead <= |old(Remaining())|
      ensures numRead != -1 ==> numRead == len || numRead >= |peekStart| - old(peekStartOffset)
      ensures len > 0 && old(Remaining()) != [] ==> numRead > 0
      ensures numRead != -1 ==> cbuf[off..off + numRead] == old(Remaining())[..numRead]
      ensures numRead != -1 ==> Remaining() == old(Remaining())[numRead..]
      ensures numRead == -1 ==> Remaining() == old(Remaining())
    {
      ghost var rest := Remaining();
      var n := TakePeek(cbuf, off, len);
      numRead := n;
      if len > n {
        assert rest == cbuf[off..off + n] + input by {
          assert peekStart[peekStartOffset..] == [];
        }
        numRead := TakeInput(cbuf, off, n, len);
      } else {
        assert cbuf[off..off + numRead] == rest[..numRead];
        assert Remaining() == rest[numRead..];
      }
    }

    /** Lines 59-65: the peek buffer is used up, the rest of the request goes to the wrapped reader. */
    method TakeInput(cbuf: array<char>, off: nat, n: nat, len: nat) returns (numRead: int)
      requires n < len && off + len <= cbuf.Length && peekStartOffset == |peekStart|
      modifies this`input, cbuf
      ensures numRead == -1 <==> n == 0 && old(input) == []
      ensures numRead != -1 ==> n <= numRead <= len && numRead <= n + |old(input)|
      ensures old(input) != [] ==> numRead > n
      ensures numRead != -1 ==> cbuf[off..off + numRead] == (old(cbuf[off..off + n]) + old(input))[..numRead]
      ensures numRead != -1 ==> Remaining() == (old(cbuf[off..off + n]) + old(input))[numRead..]
      ensures numRead == -1 ==> input == old(input)
    {
      ghost var before, inp := cbuf[off..off + n], input;
      var read := ReadInput(cbuf, off + n, len - n);
      assert cbuf[off..off + n] == before;
      assert Remaining() == input by {
        assert peekStart[peekStartOffset..] == [];
      }
      if read < 0 {
        numRead := if n == 0 then -1 else n;
        if n > 0 {
          assert cbuf[off..off + numRead] == before;
        }
      } else {
        numRead := n + read;
        PrefixOfAppend(before, inp, cbuf[off..off + numRead], read);
      }
    }

    /** Lines 54-58: as many peeked chars as are left and asked for. */
    method TakePeek(cbuf: array<char>, off: nat, len: nat) returns (n: nat)
      requires peekStartOffset <= |peekStart| && off + len <= cbuf.Length
      modifies this`peekStartOffset, cbuf
      ensures peekStartOffset <= |peekStart|
      ensures n == Min(len, |peekStart| - old(peekStartOffset))
      ensures n < len ==> peekStartOffset == |peekStart|
      ensures n <= len && n <= |old(Remaining())| && cbuf[off..off + n] == old(Remaining())[..n]
      ensures old(Remaining()) == cbuf[off..off + n] + Remaining()
      ensures old(peekStartOffset) < |peekStart| ==> n > 0 || len == 0
    {
      ghost var rest := Remaining();
      n := 0;
      if peekStartOffset < |peekStart| {
        n := Min(|peekStart| - peekStartOffset, len);
        forall k | 0 <= k < n {
          cbuf[off + k] := peekStart[peekStartOffset + k];
        }
        peekStartOffset := peekStartOffset + n;
        assert cbuf[off..off + n] == rest[..n];
      }
    }

    /** The wrapped reader: between one and `lenToRead` chars into `cbuf` at `at`, as many as it has ready, or -1 at its end. */
    method ReadInput(cbuf: array<char>, at: nat, lenToRead: nat) returns (read: int)
      requires 0 < lenToRead && at + lenToRead <= cbuf.Length
      modifies this`input, cbuf
      ensures read == -1 <==> old(input) == []
      ensures ReaderAnswer(|old(input)|, lenToRead, read)
      ensures read != -1 ==> input == old(input)[read..]
      ensures read != -1 ==> cbuf[at..at + read] == old(input)[..read]
      ensures cbuf[..at] == old(cbuf[..at])
      ensures read == -1 ==> input == old(input)
    {
      if input == [] {
        return -1;
      }
      var ready :| 1 <= ready <= lenToRead && ready <= |input|;
      read := ready;
      forall k | 0 <= k < read {
        cbuf[at + k] := input[k];
      }
      assert cbuf[at..at + read] == input[..read];
      input := input[read..];
    }

    /** Lines 73-99: append the chars just read to the back context, dropping the oldest beyond its capacity. */
    method UpdateBackContext(cbuf: array<char>, off: nat, numRead: nat)
      requires backContextSize <= backContext.Length
      requires 0 < numRead && off + numRead <= cbuf.Length && cbuf != backContext
      modifies this`backContext, this`backContextSize, backContext
      ensures backContext.Length == old(backContext.Length)
      ensures backContextSize <= backContext.Length
      ensures backContext[..backContextSize]
           == LastN(old(backContext[..backContextSize]) + cbuf[off..off + numRead], backContext.Length)
    {
      if numRead >= backContext.Length {
        Replace(cbuf, off, numRead);
      } else if backContextSize + numRead <= backContext.Length {
        Append(cbuf, off, numRead);
      } else {
        Shift(cbuf, off, numRead);
      }
    }

    /** Lines 76-80: at least a full context was read, its last chars replace the context. */
    method Replace(cbuf: array<char>, off: nat, numRead: nat)
      requires backContextSize <= backContext.Length <= numRead
      requires off + numRead <= cbuf.Length && cbuf != backContext
      modifies this`backContextSize, backContext
      ensures backContextSize <= backContext.Length
      ensures backContext[..backContextSize]
           == LastN(old(backContext[..backContextSize]) + cbuf[off..off + numRead], backContext.Length)
    {
      var ctxLen := backContext.Length;
      var srcOffset := off + numRead - ctxLen;
      forall k | 0 <= k < ctxLen {
        backContext[k] := cbuf[srcOffset + k];
      }
      backContextSize := ctxLen;
      assert backContext[..] == cbuf[off..off + numRead][numRead - ctxLen..];
      LastNLongSuffix(old(backContext[..backContextSize]), cbuf[off..off + numRead], ctxLen);
    }

    /** Lines 81-87: the new chars fit behind the old ones. */
    method Append(cbuf: array<char>, off: nat, numRead: nat)
      requires backContextSize + numRead <= backContext.Length
      requires off + numRead <= cbuf.Length && cbuf != backContext
      modifies this`backContextSize, backContext
      ensures backContextSize <= backContext.Length
      ensures backContext[..backContextSize]
           == LastN(old(backContext[..backContextSize]) + cbuf[off..off + numRead], backContext.Length)
    {
      var fill := backContextSize;
      forall k | 0 <= k < numRead {
        backContext[fill + k] := cbuf[off + k];
      }
      backContextSize := fill + numRead;
      assert backContext[..backContextSize] == old(backContext[..backContextSize]) + cbuf[off..off + numRead];
    }

    /** Lines 88-98: keep the newest old chars that still fit, then the new ones, in a fresh buffer. */
    method Shift(cbuf: array<char>, off: nat, numRead: nat)
      requires backContextSize <= backContext.Length
      requires 0 < numRead && off + numRead <= cbuf.Length
      requires numRead < backContext.Length < backContextSize + numRead
      modifies this`backContext, this`backContextSize
      ensures backContext.Length == old(backContext.Length)
      ensures backContextSize <= backContext.Length
      ensures backContext[..backContextSize]
           == LastN(old(backContext[..backContextSize]) + cbuf[off..off + numRead], backContext.Length)
    {
      ghost var oldCtx := backContext[..backContextSize];
      ghost var chunk := cbuf[off..off + numRead];
      var ctxLen := backContext.Length;
      var srcLen := ctxLen - numRead;
      var srcOff := backContextSize - srcLen;
      var newContext := Concat(backContext, srcOff, srcLen, cbuf, off, numRead);
      LastNShift(oldCtx, chunk, ctxLen);
      backContext := newContext;
      backContextSize := ctxLen;
    }
  }

  /** A fresh array holding `a[aOff..aOff + aLen]` followed by `b[bOff..bOff + bLen]`. */
  method Concat<T(0)>(a: array<T>, aOff: nat, aLen: nat, b: array<T>, bOff: nat, bLen: nat) returns (c: array<T>)
    requires aOff + aLen <= a.Length && bOff + bLen <= b.Length
    ensures fresh(c) && c[..] == a[aOff..aOff + aLen] + b[bOff..bOff + bLen]
  {
    c := new T[aLen + bLen];
    forall k | 0 <= k < aLen {
      c[k] := a[aOff + k];
    }
    forall k | 0 <= k < bLen {
      c[aLen + k] := b[bOff + k];
    }
    assert c[..] == a[aOff..aOff + aLen] + b[bOff..bOff + bLen];
  }

  /** Reading `k` more chars of `t` behind the `|p|` already taken from `p + t`. */
  lemma {:induction false} PrefixOfAppend<T>(p: seq<T>, t: seq<T>, got: seq<T>, k: nat)
    requires k <= |t| && |got| == |p| + k
    requires got[..|p|] == p && got[|p|..] == t[..k]
    ensures got == (p + t)[..|p| + k]
    ensures (p + t)[|p| + k..] == t[k..]
  {
    assert got == got[..|p|] + got[|p|..];
  }

  /** When the new chars push some old ones out, the window is the newest old ones that fit, then the new ones. */
  lemma {:induction false} LastNShift<T>(s: seq<T>, t: seq<T>, n: nat)
    requires |t| <= n <= |s| + |t|
    ensures LastN(s + t, n) == s[|s| - (n - |t|)..] + t
  {
    LastNAppend(s, t, n);
  }
}
