/**
 * A break locator that splits an XML-like document on one opening or
 * closing tag, scanning the text block by block. The text is its ASCII
 * view: one character per byte offset.
 */
module TagBreakLocator {
  import opened Common
  import B = BaseBreakLocator

  const DefaultBlockSize: nat := 64 * 1024

  /** The string searched for: `<name` for an opening tag, `</name>` for a closing one. */
  function BreakTag(tagName: string, closing: bool): (r: string)
    ensures |r| > 0 && r[0] == '<'
    ensures closing ==> |r| == |tagName| + 3 && r[1] == '/' && r[2..|r| - 1] == tagName && r[|r| - 1] == '>'
    ensures !closing ==> |r| == |tagName| + 1 && r[1..] == tagName
  {
    if closing then "</" + tagName + ">" else "<" + tagName
  }

  // Occurrences of the tag and what the block scans must find.

  /** An occurrence lies inside the block `text[a..b]` exactly when it lies wholly between a and b. */
  lemma {:induction false} OccursInBlock(text: string, tag: string, a: nat, b: nat, i: int)
    requires a <= b <= |text|
    ensures OccursAt(text[a..b], tag, i) <==> i >= 0 && a + i + |tag| <= b && OccursAt(text, tag, a + i)
  {
    if i >= 0 && a + i + |tag| <= b {
      SliceOfSlice(text, a, b, i, i + |tag|);
    }
  }

  /** With no occurrence in [a, c), the first occurrence from a is the first from c. */
  lemma {:induction false} IndexOfSkip(text: string, tag: string, a: nat, c: nat)
    requires a <= c
    requires forall p :: a <= p < c ==> !OccursAt(text, tag, p)
    ensures IndexOf(text, tag, a) == IndexOf(text, tag, c)
  {
    var r1, r2 := IndexOf(text, tag, a), IndexOf(text, tag, c);
    if r1 >= 0 {
      assert !(r1 < c);
    }
    if r2 >= 0 {
      assert OccursAt(text, tag, r2);
    }
  }

  /** With no occurrence in (c, a], the last occurrence up to a is the last up to c. */
  lemma {:induction false} LastIndexOfSkip(text: string, tag: string, a: int, c: int)
    requires c <= a
    requires forall p :: c < p <= a ==> !OccursAt(text, tag, p)
    ensures LastIndexOf(text, tag, a) == LastIndexOf(text, tag, c)
  {
    var r1, r2 := LastIndexOf(text, tag, a), LastIndexOf(text, tag, c);
    if r1 >= 0 {
      assert !(c < r1);
    }
    if r2 >= 0 {
      assert OccursAt(text, tag, r2);
    }
  }

  /**
   * Searching the block `text[a..b]` finds the first occurrence from a when
   * one lies wholly inside the block; otherwise none lies wholly inside it.
   */
  lemma {:induction false} BlockIndexOf(text: string, tag: string, a: nat, b: nat)
    requires a <= b <= |text| && |tag| > 0
    ensures IndexOf(text[a..b], tag, 0) >= 0 ==> IndexOf(text, tag, a) == a + IndexOf(text[a..b], tag, 0)
    ensures IndexOf(text[a..b], tag, 0) < 0 ==> forall p :: a <= p && p + |tag| <= b ==> !OccursAt(text, tag, p)
  {
    var i := IndexOf(text[a..b], tag, 0);
    if i >= 0 {
      OccursInBlock(text, tag, a, b, i);
      forall p | a <= p < a + i
        ensures !OccursAt(text, tag, p)
      {
        OccursInBlock(text, tag, a, b, p - a);
      }
      IndexOfSkip(text, tag, a, a + i);
    } else {
      forall p | a <= p && p + |tag| <= b
        ensures !OccursAt(text, tag, p)
      {
        OccursInBlock(text, tag, a, b, p - a);
      }
    }
  }

  /** An occurrence wholly inside the block `text[a..b]` is found by the block search. */
  lemma {:induction false} BlockLastIndexOfMisses(text: string, tag: string, a: nat, b: nat, p: int)
    requires a <= b <= |text| && |tag| > 0
    requires LastIndexOf(text[a..b], tag, b - a - 1) < 0
    requires a <= p && p + |tag| <= b
    ensures !OccursAt(text, tag, p)
  {
    OccursInBlock(text, tag, a, b, p - a);
  }

  /** No occurrence inside the block follows the one the block search finds. */
  lemma {:induction false} BlockLastIndexOfAfter(text: string, tag: string, a: nat, b: nat, p: int)
    requires a <= b <= |text| && |tag| > 0
    requires a + LastIndexOf(text[a..b], tag, b - a - 1) < p <= b - |tag|
    ensures !OccursAt(text, tag, p)
  {
    OccursInBlock(text, tag, a, b, p - a);
  }

  /** No occurrence lies wholly inside the block `text[a..b]` when the block search finds none. */
  lemma {:induction false} BlockLastIndexOfMissing(text: string, tag: string, a: nat, b: nat)
    requires a <= b <= |text| && |tag| > 0
    requires LastIndexOf(text[a..b], tag, b - a - 1) < 0
    ensures forall p :: a <= p && p + |tag| <= b ==> !OccursAt(text, tag, p)
  {
    forall p | a <= p && p + |tag| <= b
      ensures !OccursAt(text, tag, p)
    {
      BlockLastIndexOfMisses(text, tag, a, b, p);
    }
  }

  /**
   * The last occurrence inside the block `text[a..b]`, found with the
   * optimized search, is the last occurrence of the text ending by b when
   * one lies wholly inside the block; otherwise none does.
   */
  lemma {:induction false} BlockLastIndexOf(text: string, tag: string, a: nat, b: nat)
    requires a <= b <= |text| && |tag| > 0
    ensures LastIndexOf(text[a..b], tag, b - a - 1) >= 0 ==>
      LastIndexOf(text, tag, b - |tag|) == a + LastIndexOf(text[a..b], tag, b - a - 1)
    ensures LastIndexOf(text[a..b], tag, b - a - 1) < 0 ==>
      forall p :: a <= p && p + |tag| <= b ==> !OccursAt(text, tag, p)
  {
    var i := LastIndexOf(text[a..b], tag, b - a - 1);
    if i >= 0 {
      OccursInBlock(text, tag, a, b, i);
      forall p | a + i < p <= b - |tag|
        ensures !OccursAt(text, tag, p)
      {
        BlockLastIndexOfAfter(text, tag, a, b, p);
      }
      LastIndexOfSkip(text, tag, b - |tag|, a + i);
    } else {
      BlockLastIndexOfMissing(text, tag, a, b);
    }
  }

  /**
   * One block of `getPreceding`: a hit in the block is the last occurrence
   * ending by `end`; a miss in the first block means there is none, and a
   * miss in a later block carries the search to the block before, which
   * ends at `next`, the tag length past its start.
   */
  lemma {:induction false} PrecedingBlock(text: string, tag: string, start: nat, end: nat, next: int)
    requires start <= end <= |text| && |tag| > 0 && next == start + |tag|
    requires start > 0 ==> end - start > |tag|
    ensures LastIndexOf(text[start..end], tag, end - start - 1) >= 0 ==>
      LastIndexOf(text, tag, end - |tag|) == start + LastIndexOf(text[start..end], tag, end - start - 1)
    ensures LastIndexOf(text[start..end], tag, end - start - 1) < 0 && start == 0 ==>
      LastIndexOf(text, tag, end - |tag|) == -1
    ensures LastIndexOf(text[start..end], tag, end - start - 1) < 0 && start > 0 ==>
      LastIndexOf(text, tag, end - |tag|) == LastIndexOf(text, tag, next - |tag|)
  {
    BlockLastIndexOf(text, tag, start, end);
    if LastIndexOf(text[start..end], tag, end - start - 1) < 0 {
      if start == 0 {
        var r := LastIndexOf(text, tag, end - |tag|);
        assert r >= 0 ==> OccursAt(text, tag, r);
      } else {
        LastIndexOfSkip(text, tag, end - |tag|, start);
      }
    }
  }

  // What getFollowing and getPreceding find.

  /** `getFollowing(offset)`: the first occurrence after offset, or the text length. */
  function FollowingSpec(text: string, tag: string, offset: int): int
  {
    var i := IndexOf(text, tag, offset + 1);
    if i >= 0 then i else |text|
  }

  /** `getPreceding(offset)`: the last occurrence ending by offset - 1, or 0. */
  function PrecedingSpec(text: string, tag: string, offset: int): int
  {
    var i := LastIndexOf(text, tag, Max(0, offset - 1) - |tag|);
    if i >= 0 then i else 0
  }

  /** The positions in [from, |text|) where the tag occurs, in order. */
  function Occurrences(text: string, tag: string, from: nat): (r: seq<int>)
    requires |tag| > 0
    ensures B.Sorted(r)
    ensures forall p :: p in r ==> from <= p && OccursAt(text, tag, p)
    decreases |text| - from
  {
    if from >= |text| then []
    else if OccursAt(text, tag, from) then
      var rest := Occurrences(text, tag, from + 1);
      assert forall j :: 0 <= j < |rest| ==> rest[j] in rest;
      [from] + rest
    else Occurrences(text, tag, from + 1)
  }

  /** Every occurrence from `from` on is listed. */
  lemma {:induction false} OccurrencesComplete(text: string, tag: string, from: nat, p: int)
    requires |tag| > 0 && from <= p && OccursAt(text, tag, p)
    ensures p in Occurrences(text, tag, from)
    decreases |text| - from
  {
    if p > from {
      OccurrencesComplete(text, tag, from + 1, p);
    }
  }

  /** The breaks of a tag locator: the occurrences strictly inside the text. */
  function TagBreaks(text: string, tag: string): (r: seq<int>)
    requires |tag| > 0
    ensures B.BreaksValid(r, |text|)
  {
    Occurrences(text, tag, 1)
  }

  /** For offsets in the text, `getFollowing` is the abstract next break of the tag breaks. */
  lemma {:induction false} FollowingIsNextBreak(text: string, tag: string, offset: int)
    requires |tag| > 0 && 0 <= offset
    ensures FollowingSpec(text, tag, offset) == B.Next(TagBreaks(text, tag), |text|, offset)
  {
    var breaks := TagBreaks(text, tag);
    var i := IndexOf(text, tag, offset + 1);
    var n := B.Next(breaks, |text|, offset);
    if i >= 0 {
      OccurrencesComplete(text, tag, 1, i);
      assert n in breaks;
      assert OccursAt(text, tag, n);
    }
  }

  /**
   * `getPreceding(offset)` is the abstract previous break, taken before
   * offset - |tag| rather than before offset: a tag ending after offset - 1
   * is not seen.
   */
  lemma {:induction false} PrecedingIsShiftedPrevBreak(text: string, tag: string, offset: int)
    requires |tag| > 0 && 1 <= offset
    ensures PrecedingSpec(text, tag, offset) == B.Prev(TagBreaks(text, tag), offset - |tag|)
  {
    var breaks := TagBreaks(text, tag);
    var i := LastIndexOf(text, tag, offset - 1 - |tag|);
    var p := B.Prev(breaks, offset - |tag|);
    if i > 0 {
      OccurrencesComplete(text, tag, 1, i);
      assert p in breaks;
      assert OccursAt(text, tag, p);
    }
  }

  // The forward block scan as written.

  /**
   * The loop of `getFollowing` as written: the next block starts where the
   * previous one ended, and only its end is pulled back by the tag length,
   * so the blocks never overlap.
   */
  function FollowingLoopAsWritten(text: string, tag: string, blockSize: nat, start: nat, end: nat): (r: int)
    requires |tag| < blockSize
    requires start <= end <= |text| && (start < |text| ==> start < end)
    ensures start <= r <= |text|
    decreases |text| - start
  {
    if start >= |text| then |text|
    else
      var idx := IndexOf(text[start..end], tag, 0);
      if idx >= 0 then start + idx
      else
        var e := if end < |text| then end - |tag| else end;
        FollowingLoopAsWritten(text, tag, blockSize, end, Min(e + blockSize, |text|))
  }

  function FollowingAsWritten(text: string, tag: string, blockSize: nat, offset: int): (r: Result<int>)
    requires |tag| < blockSize
    ensures r.Ok? ==> r.value <= |text|
  {
    var start := Min(offset + 1, |text|);
    if start < 0 then Err("IndexOutOfBoundsException")
    else Ok(FollowingLoopAsWritten(text, tag, blockSize, start, Min(start + blockSize, |text|)))
  }

  /** A tag straddling the first block boundary is skipped: "<w" at 3 is missed with blocks of 4. */
  lemma {:induction false} FollowingStraddleAsWritten()
    ensures FollowingSpec("aaa<wa", "<w", -1) == 3
    ensures FollowingAsWritten("aaa<wa", "<w", 4, -1) == Ok(6)
  {
    var text: string := "aaa<wa";
    assert OccursAt(text, "<w", 3);
    assert text[0..2] == "aa" && text[1..3] == "aa" && text[2..4] == "a<";
    assert text[0..4] == "aaa<";
    assert IndexOf(text[0..4], "<w", 0) == -1 by {
      forall p | 0 <= p ensures !OccursAt(text[0..4], "<w", p) {
        OccursInBlock(text, "<w", 0, 4, p);
      }
    }
    assert text[4..6] == "wa";
    assert IndexOf(text[4..6], "<w", 0) == -1 by {
      forall p | 0 <= p ensures !OccursAt(text[4..6], "<w", p) {
        OccursInBlock(text, "<w", 4, 6, p);
      }
    }
    assert FollowingLoopAsWritten(text, "<w", 4, 6, 6) == 6;
    assert FollowingLoopAsWritten(text, "<w", 4, 4, 6) == 6;
  }

  class TagBreakLocator {
    const text: string
    const breakTag: string
    const blockSize: nat

    constructor (text: string, tagName: string, closing: bool, blockSize: nat)
      requires blockSize > |BreakTag(tagName, closing)|
      ensures this.text == text && breakTag == BreakTag(tagName, closing) && this.blockSize == blockSize
    {
      this.text := text;
      this.breakTag := BreakTag(tagName, closing);
      this.blockSize := blockSize;
    }

    /**
     * `getFollowing(offset)`, with each block after the first starting
     * |tag| characters before the end of the previous one, as the backward
     * scan does, so that no occurrence straddles two blocks unseen.
     */
    method GetFollowing(offset: int) returns (r: Result<int>)
      requires 0 < |breakTag| < blockSize
      ensures r.Err? <==> offset + 1 < 0
      ensures r.Ok? ==> r.value == FollowingSpec(text, breakTag, offset)
      ensures r.Ok? && offset < |text| ==> offset < r.value <= |text|
      ensures r.Ok? && r.value < |text| ==> OccursAt(text, breakTag, r.value)
    {
      var start := Min(offset + 1, |text|);
      if start < 0 {
        return Err("IndexOutOfBoundsException");
      }
      ghost var first := start;
      var end := Min(start + blockSize, |text|);
      while start < |text|
        invariant first <= start <= end <= |text|
        invariant start < |text| ==> start < end
        invariant end == Min(start + blockSize, |text|)
        invariant IndexOf(text, breakTag, first) == IndexOf(text, breakTag, start)
        decreases |text| - start
      {
        var block := text[start..end];
        var idx := IndexOf(block, breakTag, 0);
        BlockIndexOf(text, breakTag, start, end);
        if idx >= 0 {
          return Ok(start + idx);
        }
        var next := end;
        if end < |text| {
          next := end - |breakTag|;
        }
        IndexOfSkip(text, breakTag, start, next);
        start := next;
        end := Min(start + blockSize, |text|);
      }
      assert IndexOf(text, breakTag, start) == -1;
      return Ok(|text|);
    }

    /**
     * `getPreceding(offset)`: blocks of blockSize end at offset - 1 and move
     * back, each overlapping the next by the tag length.
     */
    method GetPreceding(offset: int) returns (r: Result<int>)
      requires 0 < |breakTag| < blockSize
      ensures r.Err? <==> offset - 1 > |text|
      ensures r.Ok? ==> r.value == PrecedingSpec(text, breakTag, offset)
      ensures r.Ok? && r.value > 0 ==> OccursAt(text, breakTag, r.value) && r.value + |breakTag| <= offset - 1
    {
      var end := Max(0, offset - 1);
      if end > |text| {
        return Err("IndexOutOfBoundsException");
      }
      ghost var last := end;
      ghost var target := LastIndexOf(text, breakTag, Max(0, offset - 1) - |breakTag|);
      var start := Max(0, end - blockSize);
      while start >= 0
        invariant 0 <= start <= end <= last == Max(0, offset - 1)
        invariant start > 0 ==> end - start >= blockSize
        invariant target == LastIndexOf(text, breakTag, end - |breakTag|)
        decreases start
      {
        var idx := SearchBlockBackward(start, end);
        if idx >= 0 {
          return Ok(start + idx);
        }
        end := start + |breakTag|;
        if start == 0 {
          break;
        }
        start := Max(0, start - blockSize);
      }
      return Ok(0);
    }

    /** The block `text[start..end]` searched from its end, as `getPreceding` does it. */
    method SearchBlockBackward(start: nat, end: nat) returns (idx: int)
      requires start <= end <= |text| && 0 < |breakTag|
      requires start > 0 ==> end - start > |breakTag|
      ensures idx >= 0 ==> LastIndexOf(text, breakTag, end - |breakTag|) == start + idx
      ensures idx < 0 && start == 0 ==> LastIndexOf(text, breakTag, end - |breakTag|) == -1
      ensures idx < 0 && start > 0 ==>
        LastIndexOf(text, breakTag, end - |breakTag|) == LastIndexOf(text, breakTag, (start + |breakTag|) - |breakTag|)
    {
      var block := text[start..end];
      idx := B.OptimizedLastIndexOf(block, breakTag, |block|);
      PrecedingBlock(text, breakTag, start, end, start + |breakTag|);
    }
  }
}
