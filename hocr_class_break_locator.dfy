/**
 * A break locator for hOCR that breaks before the opening '<' of every
 * element carrying one of a list of classes, reading the text section by
 * section. The text is the ASCII view of the source: one character per
 * byte offset.
 */
module HocrClassBreakLocator {
  import opened Common
  import B = BaseBreakLocator
  import R = BaseSourceReader

  /** A class name the scans can step over: non-empty and free of tag delimiters. */
  predicate ValidClass(c: string)
  {
    |c| > 0 && '<' !in c && '>' !in c
  }

  predicate ValidClasses(classes: seq<string>)
  {
    forall c :: c in classes ==> ValidClass(c)
  }

  /** Java's `startsWith(prefix, k)`. */
  predicate StartsWithAt(s: string, prefix: string, k: int)
  {
    0 <= k && k + |prefix| <= |s| && s[k..k + |prefix|] == prefix
  }

  /** No `ch` at the positions (lo, hi] of `s`. */
  predicate NoCharIn(s: string, ch: char, lo: int, hi: int)
  {
    forall k :: lo < k <= hi && 0 <= k < |s| ==> s[k] != ch
  }

  /** `r` is the last '<' before the occurrence of class `c` at `i`. */
  predicate OpensClassTag(s: string, c: string, r: int, i: int)
  {
    0 <= r < i && OccursAt(s, c, i) && s[r] == '<' && NoCharIn(s, '<', r, i)
  }

  lemma {:induction false} FirstCharOfOccurrence(s: string, c: string, i: int)
    requires |c| > 0 && OccursAt(s, c, i)
    ensures s[i] == c[0]
  {
    assert s[i..i + |c|][0] == s[i];
  }

  // Seeking forward.

  /**
   * `findForwardMatch`: the '<' opening a tag, at or after fromOffset, in
   * which some break class occurs before toOffset, or -1. A tag whose name
   * starts with "meta" is never returned. When such a tag has no '>' after
   * the class, the class is given up.
   */
  method FindForwardMatch(s: string, classes: seq<string>, fromOffset: int, toOffset: int)
    returns (r: int, ghost c: string, ghost i: int)
    requires ValidClasses(classes) && 0 <= fromOffset
    ensures r == -1 || (c in classes && fromOffset <= r && i < toOffset && OpensClassTag(s, c, r, i)
                        && !StartsWithAt(s, "meta", r + 1))
  {
    c, i := [], 0;
    for k := 0 to |classes|
    {
      var cls := classes[k];
      assert cls in classes && cls[0] in cls;
      var fromIdx := fromOffset;
      while fromIdx < toOffset
        invariant fromOffset <= fromIdx
        decreases toOffset - fromIdx
      {
        var idx := IndexOf(s, cls, fromIdx);
        if idx < 0 || idx >= toOffset {
          break;
        }
        FirstCharOfOccurrence(s, cls, idx);
        var openIdx := LastIndexOfChar(s, '<', idx);
        var closeIdx := IndexOfChar(s, '>', idx);
        if openIdx < fromIdx && closeIdx < 0 {
          break;
        }
        if openIdx < fromOffset {
          fromIdx := closeIdx;
          continue;
        }
        var nextOpenIdx := IndexOfChar(s, '<', idx);
        if nextOpenIdx >= toOffset {
          nextOpenIdx := -1;
        }
        if nextOpenIdx > 0 && closeIdx > nextOpenIdx {
          fromIdx := idx + |cls|;
          continue;
        }
        if StartsWithAt(s, "meta", openIdx + 1) {
          if closeIdx < 0 {
            break;
          }
          fromIdx := closeIdx;
          continue;
        }
        return openIdx, cls, idx;
      }
    }
    return -1, c, i;
  }

  /** What one pass of the inner loop of `findForwardMatch` does next. */
  datatype Step = Found(at: int) | NextClass | Resume(fromIdx: int)

  /**
   * One pass of the inner loop of `findForwardMatch` as written: a "meta"
   * tag resumes the search at its '>', even when there is none (-1).
   */
  function ForwardStepAsWritten(s: string, cls: string, fromOffset: int, toOffset: int, fromIdx: int): (r: Step)
    ensures r.Found? ==> fromOffset <= r.at
  {
    var idx := IndexOf(s, cls, fromIdx);
    if idx < 0 || idx >= toOffset then NextClass
    else
      var openIdx := LastIndexOfChar(s, '<', idx);
      var closeIdx := IndexOfChar(s, '>', idx);
      if openIdx < fromIdx && closeIdx < 0 then NextClass
      else if openIdx < fromOffset then Resume(closeIdx)
      else
        var nextOpen := IndexOfChar(s, '<', idx);
        var nextOpenIdx := if nextOpen >= toOffset then -1 else nextOpen;
        if nextOpenIdx > 0 && closeIdx > nextOpenIdx then Resume(idx + |cls|)
        else if StartsWithAt(s, "meta", openIdx + 1) then Resume(closeIdx)
        else Found(openIdx)
  }

  /**
   * `cls` first occurs at `idx`, inside a "meta" tag opened at 0 that is
   * never closed, and no '<' follows the occurrence.
   */
  predicate UnclosedMetaClass(s: string, cls: string, idx: int)
  {
    IndexOf(s, cls, 0) == idx && 0 <= idx
    && LastIndexOfChar(s, '<', idx) == 0 && IndexOfChar(s, '>', idx) == -1 && IndexOfChar(s, '<', idx) == -1
    && StartsWithAt(s, "meta", 1)
  }

  /**
   * An unterminated "meta" tag holding a break class makes the loop as
   * written resume at -1 forever: -1 stays below toOffset and leads back to
   * the same step.
   */
  lemma {:induction false} ForwardMetaLoopAsWritten(s: string, cls: string, idx: int, toOffset: int)
    requires UnclosedMetaClass(s, cls, idx) && idx < toOffset
    ensures ForwardStepAsWritten(s, cls, 0, toOffset, 0) == Resume(-1)
    ensures ForwardStepAsWritten(s, cls, 0, toOffset, -1) == Resume(-1)
  {
    assert IndexOf(s, cls, -1) == idx;
    UnclosedMetaStep(s, cls, 0, toOffset, 0, idx);
    UnclosedMetaStep(s, cls, 0, toOffset, -1, idx);
  }

  /**
   * A class occurrence at `idx` inside a "meta" tag opened at 0 that is
   * never closed, with no later '<': the step resumes at -1.
   */
  lemma {:induction false} UnclosedMetaStep(s: string, cls: string, fromOffset: int, toOffset: int, fromIdx: int, idx: int)
    requires IndexOf(s, cls, fromIdx) == idx && 0 <= idx < toOffset && fromOffset <= 0 && fromIdx <= 0
    requires LastIndexOfChar(s, '<', idx) == 0 && IndexOfChar(s, '>', idx) == -1 && IndexOfChar(s, '<', idx) == -1
    requires StartsWithAt(s, "meta", LastIndexOfChar(s, '<', idx) + 1)
    ensures ForwardStepAsWritten(s, cls, fromOffset, toOffset, fromIdx) == Resume(-1)
  {
  }

  /** "<meta ocr_line" is such a text: the loop as written never ends on it. */
  lemma {:induction false} MetaSampleUnclosed()
    ensures UnclosedMetaClass("<meta ocr_line", "ocr_line", 6)
  {
    MetaClassFound();
    MetaTagUnclosed();
  }

  lemma {:induction false} MetaClassFound()
    ensures IndexOf("<meta ocr_line", "ocr_line", 0) == 6
  {
    var s: string := "<meta ocr_line";
    assert OccursAt(s, "ocr_line", 6);
    forall k | 0 <= k < 6 ensures !OccursAt(s, "ocr_line", k) {
      if OccursAt(s, "ocr_line", k) {
        FirstCharOfOccurrence(s, "ocr_line", k);
      }
    }
  }

  lemma {:induction false} MetaTagUnclosed()
    ensures LastIndexOfChar("<meta ocr_line", '<', 6) == 0
    ensures IndexOfChar("<meta ocr_line", '>', 6) == -1
    ensures IndexOfChar("<meta ocr_line", '<', 6) == -1
    ensures StartsWithAt("<meta ocr_line", "meta", 1)
  {
    var s: string := "<meta ocr_line";
    assert s[1..5] == "meta";
  }

  // Seeking backward.

  /**
   * The class occurrence at `j` marks a break for `findBackwardMatch`: its
   * last '<' is at or after toOffset, no '>' follows that '<' before the
   * occurrence, and the tag is not a "meta" tag.
   */
  predicate BackwardQualifies(s: string, c: string, j: int, toOffset: int)
  {
    OccursAt(s, c, j)
    && LastIndexOfChar(s, '<', j) >= toOffset
    && LastIndexOfChar(s, '>', j) <= LastIndexOfChar(s, '<', j)
    && !StartsWithAt(s, "meta", LastIndexOfChar(s, '<', j) + 1)
  }

  /** A qualifying occurrence lies in the tag its '<' opens, with no '>' in between. */
  lemma {:induction false} QualifiesOpensTag(s: string, c: string, j: int, toOffset: int)
    requires ValidClass(c) && 0 <= toOffset && BackwardQualifies(s, c, j, toOffset)
    ensures OpensClassTag(s, c, LastIndexOfChar(s, '<', j), j)
    ensures NoCharIn(s, '>', LastIndexOfChar(s, '<', j), j)
  {
    FirstCharOfOccurrence(s, c, j);
  }

  /** The last `ch` up to i is also the last up to j when it comes before j. */
  lemma {:induction false} LastCharSame(s: string, ch: char, j: int, i: int)
    requires 0 <= j <= i < |s| && LastIndexOfChar(s, ch, i) < j
    ensures LastIndexOfChar(s, ch, j) == LastIndexOfChar(s, ch, i)
  {
    var ri, rj := LastIndexOfChar(s, ch, i), LastIndexOfChar(s, ch, j);
    if rj >= 0 {
      assert !(ri < rj);
    }
    if ri >= 0 {
      assert !(rj < ri);
    }
  }

  /**
   * When the occurrence at idx, the last one before `from`, is skipped, no
   * occurrence from the skip target up to `from` qualifies either.
   */
  lemma {:induction false} BackwardSkip(s: string, cls: string, from: int, idx: int, toOffset: int)
    requires ValidClass(cls) && 0 <= toOffset <= idx
    requires idx == LastIndexOf(s, cls, from - 1)
    requires !BackwardQualifies(s, cls, idx, toOffset)
    ensures forall j :: Max(LastIndexOfChar(s, '>', idx), LastIndexOfChar(s, '<', idx)) <= j < from && toOffset <= j ==>
      !BackwardQualifies(s, cls, j, toOffset)
  {
    var eo, pc := LastIndexOfChar(s, '<', idx), LastIndexOfChar(s, '>', idx);
    forall j | Max(pc, eo) <= j < from && toOffset <= j
      ensures !BackwardQualifies(s, cls, j, toOffset)
    {
      if j < idx && OccursAt(s, cls, j) {
        FirstCharOfOccurrence(s, cls, j);
        LastCharSame(s, '<', j, idx);
        LastCharSame(s, '>', j, idx);
      }
    }
  }

  /**
   * `findBackwardMatch`, with each class searched from fromOffset down to
   * toOffset: the '<' of the last qualifying occurrence of the first class
   * that has one, or -1 exactly when no class has one.
   */
  method FindBackwardMatch(s: string, classes: seq<string>, fromOffset: int, toOffset: int)
    returns (r: int, ghost c: string, ghost i: int)
    requires ValidClasses(classes) && 0 <= toOffset
    ensures r >= 0 ==> c in classes && toOffset <= i < fromOffset && BackwardQualifies(s, c, i, toOffset)
                       && r == LastIndexOfChar(s, '<', i)
    ensures r < 0 ==> r == -1 && forall k, j :: 0 <= k < |classes| && toOffset <= j < fromOffset ==>
                                   !BackwardQualifies(s, classes[k], j, toOffset)
  {
    c, i := [], 0;
    if fromOffset == 0 || fromOffset == toOffset {
      return -1, c, i;
    }
    for k := 0 to |classes|
      invariant forall k', j :: 0 <= k' < k && toOffset <= j < fromOffset ==> !BackwardQualifies(s, classes[k'], j, toOffset)
    {
      var cls := classes[k];
      assert cls in classes;
      var from := fromOffset;
      while from > toOffset
        invariant from <= fromOffset
        invariant forall j :: from <= j < fromOffset && toOffset <= j ==> !BackwardQualifies(s, cls, j, toOffset)
        decreases from
      {
        var idx := B.OptimizedLastIndexOf(s, cls, from);
        if idx < toOffset {
          assert forall j :: toOffset <= j < fromOffset ==> !BackwardQualifies(s, cls, j, toOffset);
          break;
        }
        var elemOpen := LastIndexOfChar(s, '<', idx);
        var previousClose := LastIndexOfChar(s, '>', idx);
        if elemOpen < toOffset || previousClose > elemOpen || StartsWithAt(s, "meta", elemOpen + 1) {
          BackwardSkip(s, cls, from, idx, toOffset);
          from := Max(previousClose, elemOpen);
          continue;
        }
        return elemOpen, cls, idx;
      }
    }
    return -1, c, i;
  }

  /**
   * The loop of `findBackwardMatch` as written: one cursor `from` is shared
   * by all classes, so a class is searched only below the point where the
   * previous classes' skips left it.
   */
  function BackwardScanAsWritten(s: string, classes: seq<string>, k: nat, from: int, toOffset: int): int
    requires ValidClasses(classes) && 0 <= toOffset
    decreases |classes| - k, from - toOffset
  {
    if k >= |classes| then -1
    else if from <= toOffset then BackwardScanAsWritten(s, classes, k + 1, from, toOffset)
    else
      var idx := LastIndexOf(s, classes[k], from - 1);
      if idx < toOffset then BackwardScanAsWritten(s, classes, k + 1, from, toOffset)
      else
        var elemOpen := LastIndexOfChar(s, '<', idx);
        var previousClose := LastIndexOfChar(s, '>', idx);
        if elemOpen < toOffset || previousClose > elemOpen || StartsWithAt(s, "meta", elemOpen + 1) then
          assert Max(previousClose, elemOpen) <= idx < from;
          BackwardScanAsWritten(s, classes, k, Max(previousClose, elemOpen), toOffset)
        else elemOpen
  }

  function FindBackwardMatchAsWritten(s: string, classes: seq<string>, fromOffset: int, toOffset: int): int
    requires ValidClasses(classes) && 0 <= toOffset
  {
    if fromOffset == 0 || fromOffset == toOffset then -1
    else BackwardScanAsWritten(s, classes, 0, fromOffset, toOffset)
  }

  /**
   * In "A<p B>" with classes A then B, the text occurrence of A moves the
   * shared cursor to -1, so the tag at 1 carrying B is never searched.
   */
  lemma {:induction false} BackwardSharedCursorAsWritten()
    ensures BackwardQualifies("A<p B>", "B", 4, 0)
    ensures FindBackwardMatchAsWritten("A<p B>", ["A", "B"], 6, 0) == -1
  {
    var s: string := "A<p B>";
    assert OccursAt(s, "B", 4) && OccursAt(s, "A", 0);
    assert LastIndexOfChar(s, '<', 4) == 1;
    assert LastIndexOfChar(s, '>', 4) == -1;
    assert !StartsWithAt(s, "meta", 2);
    assert LastIndexOf(s, "A", 5) == 0 by {
      forall k | 0 < k <= 5 ensures !OccursAt(s, "A", k) {
        if OccursAt(s, "A", k) {
          FirstCharOfOccurrence(s, "A", k);
        }
      }
    }
    assert LastIndexOfChar(s, '<', 0) == -1;
    assert LastIndexOfChar(s, '>', 0) == -1;
    assert BackwardScanAsWritten(s, ["A", "B"], 0, -1, 0) == -1;
  }

  // The sections a source reader hands out.

  /** The start of the section holding `offset`: offset rounded down to a multiple of the section size. */
  function SectionStart(offset: nat, sectionSize: nat): (r: nat)
    requires sectionSize > 0
    ensures r <= offset < r + sectionSize
    decreases offset
  {
    if offset < sectionSize then 0 else sectionSize + SectionStart(offset - sectionSize, sectionSize)
  }

  /** `a` is a multiple of the section size. */
  predicate Aligned(a: nat, sectionSize: nat)
    requires sectionSize > 0
    decreases a
  {
    a == 0 || (a >= sectionSize && Aligned(a - sectionSize, sectionSize))
  }

  lemma {:induction false} SectionStartAligned(offset: nat, sectionSize: nat)
    requires sectionSize > 0
    ensures Aligned(SectionStart(offset, sectionSize), sectionSize)
    decreases offset
  {
    if offset >= sectionSize {
      SectionStartAligned(offset - sectionSize, sectionSize);
    }
  }

  /** A section boundary is the start of its own section. */
  lemma {:induction false} AlignedIsStart(a: nat, sectionSize: nat)
    requires sectionSize > 0 && Aligned(a, sectionSize)
    ensures SectionStart(a, sectionSize) == a
    decreases a
  {
    if a > 0 {
      AlignedIsStart(a - sectionSize, sectionSize);
    }
  }

  /** The offset just before a section boundary lies in the section that ends there. */
  lemma {:induction false} BeforeAlignedStart(a: nat, sectionSize: nat)
    requires sectionSize > 0 && Aligned(a, sectionSize) && a > 0
    ensures SectionStart(a - 1, sectionSize) + sectionSize == a
    decreases a
  {
    if a - sectionSize > 0 {
      BeforeAlignedStart(a - sectionSize, sectionSize);
    }
  }

  /** `getAsciiSection(offset)` of a text, for an offset inside it. */
  function AsciiSection(text: string, sectionSize: nat, offset: int): (r: R.Section)
    requires sectionSize > 0 && 0 <= offset < |text|
    ensures 0 <= r.start <= offset < r.end <= |text| && r.text == text[r.start..r.end]
    ensures r.start == SectionStart(offset, sectionSize) && r.end == Min(r.start + sectionSize, |text|)
  {
    var start := SectionStart(offset, sectionSize);
    var end := Min(start + sectionSize, |text|);
    R.Section(start, end, text[start..end])
  }

  // From a block back to the whole text.

  /** The '<' of some break class's tag, as `getFollowing` finds it. */
  ghost predicate ClassTagAt(text: string, classes: seq<string>, r: int)
  {
    exists c, i :: c in classes && OpensClassTag(text, c, r, i)
  }

  /** The '<' of some break class's tag with no '>' before the class, as `getPreceding` finds it. */
  ghost predicate ClosedClassTagAt(text: string, classes: seq<string>, r: int)
  {
    exists c, i :: c in classes && OpensClassTag(text, c, r, i) && NoCharIn(text, '>', r, i)
  }

  /**
   * A break-class tag the backward search finds in the block `text[a..b]`,
   * whose part from `e` on holds no '<', is a closed break-class tag of the
   * text that opens before `e`.
   */
  lemma {:induction false} OverlapMatchIsClosedTag(text: string, classes: seq<string>, a: nat, e: nat, b: nat, c: string, i: int, r: int)
    requires a <= e <= b <= |text| && ValidClasses(classes) && c in classes
    requires '<' !in text[e..b]
    requires BackwardQualifies(text[a..b], c, i, 0) && r == LastIndexOfChar(text[a..b], '<', i)
    ensures 0 <= r && a + r < e && ClosedClassTagAt(text, classes, a + r)
  {
    QualifiesOpensTag(text[a..b], c, i, 0);
    OpensClassTagInSlice(text, a, b, c, r, i);
    assert OpensClassTag(text, c, a + r, a + i) && NoCharIn(text, '>', a + r, a + i);
  }

  /** A tag found in the block `text[a..b]` is a tag of the text, `a` further on. */
  lemma {:induction false} OpensClassTagInSlice(text: string, a: nat, b: nat, c: string, r: int, i: int)
    requires a <= b <= |text| && |c| > 0 && OpensClassTag(text[a..b], c, r, i)
    ensures OpensClassTag(text, c, a + r, a + i)
    ensures forall ch :: NoCharIn(text[a..b], ch, r, i) ==> NoCharIn(text, ch, a + r, a + i)
  {
    SliceOfSlice(text, a, b, i, i + |c|);
    forall ch | NoCharIn(text[a..b], ch, r, i)
      ensures NoCharIn(text, ch, a + r, a + i)
    {
      forall k | a + r < k <= a + i && 0 <= k < |text|
        ensures text[k] != ch
      {
        assert text[a..b][k - a] == text[k];
      }
    }
  }

  class HocrClassBreakLocator {
    const text: string
    const sectionSize: nat
    const breakClasses: seq<string>

    predicate Valid()
    {
      sectionSize > 0 && ValidClasses(breakClasses)
    }

    constructor (text: string, sectionSize: nat, breakClasses: seq<string>)
      requires sectionSize > 0 && ValidClasses(breakClasses)
      ensures Valid()
      ensures this.text == text && this.sectionSize == sectionSize && this.breakClasses == breakClasses
    {
      this.text := text;
      this.sectionSize := sectionSize;
      this.breakClasses := breakClasses;
    }

    /**
     * `getFollowing(offset)`: the '<' of the first break-class tag after
     * offset, read section by section, with a tag cut by a section end
     * completed from the next section; the text length when there is none.
     */
    method GetFollowing(offset: int) returns (r: Result<int>)
      requires Valid()
      ensures r.Err? <==> offset + 1 < 0
      ensures r.Ok? ==> r.value == |text| || (offset < r.value < |text| && ClassTagAt(text, breakClasses, r.value))
    {
      var globalStart := Min(offset + 1, |text|);
      if globalStart < 0 {
        return Err("IllegalArgumentException");
      }
      var overlapHead: Option<string> := None;
      while globalStart < |text|
        invariant 0 <= globalStart <= |text|
        invariant globalStart == |text| || offset < globalStart
        invariant overlapHead.Some? ==>
          offset < globalStart - |overlapHead.value| && overlapHead.value == text[globalStart - |overlapHead.value|..globalStart]
        invariant overlapHead.Some? && globalStart < |text| ==> Aligned(globalStart, sectionSize)
        decreases |text| - globalStart
      {
        var section := AsciiSection(text, sectionSize, globalStart);
        var blockStart := globalStart - section.start;
        if overlapHead.Some? {
          AlignedIsStart(globalStart, sectionSize);
          var overlapMatch;
          overlapMatch, blockStart := FollowingInOverlap(overlapHead.value, section);
          if overlapMatch >= 0 {
            return Ok(overlapMatch);
          }
          overlapHead := None;
        }
        var found;
        found, overlapHead := FollowingInSection(section, blockStart);
        if found >= 0 {
          return Ok(found);
        }
        SectionStartAligned(globalStart, sectionSize);
        globalStart := section.end;
      }
      return Ok(|text|);
    }

    /**
     * The tag `head` cut by the end of the previous section, completed with
     * the start of `section` up to its first '>': the text offset of a
     * break-class tag in it, or -1, and where the rest of the section starts.
     */
    method FollowingInOverlap(head: string, section: R.Section) returns (m: int, blockStart: int)
      requires Valid()
      requires 0 <= section.start - |head| && section.start <= section.end <= |text|
      requires head == text[section.start - |head|..section.start] && section.text == text[section.start..section.end]
      ensures m == -1 || (section.start - |head| <= m < |text| && ClassTagAt(text, breakClasses, m))
      ensures 0 <= blockStart <= |section.text|
    {
      var block := section.text;
      var firstTagClose := IndexOfChar(block, '>', 0);
      var overlapStart := section.start - |head|;
      var overlap := head + block[..firstTagClose + 1];
      assert overlap == text[overlapStart..section.start + firstTagClose + 1];
      var overlapMatch;
      ghost var c, i;
      overlapMatch, c, i := FindForwardMatch(overlap, breakClasses, 0, |overlap|);
      if overlapMatch >= 0 {
        OpensClassTagInSlice(text, overlapStart, section.start + firstTagClose + 1, c, overlapMatch, i);
        return overlapStart + overlapMatch, firstTagClose + 1;
      }
      return -1, firstTagClose + 1;
    }

    /**
     * The rest of `section` from blockStart, cut after the '<' of a tag the
     * section end leaves open: the text offset of a break-class tag in it, or
     * -1, and the open tag to carry over.
     */
    method FollowingInSection(section: R.Section, blockStart: int) returns (m: int, overlapHead: Option<string>)
      requires Valid()
      requires 0 <= section.start <= section.end <= |text| && section.text == text[section.start..section.end]
      requires 0 <= blockStart <= |section.text|
      ensures m == -1 || (section.start + blockStart <= m < section.end && ClassTagAt(text, breakClasses, m))
      ensures overlapHead.Some? ==> section.start + blockStart <= section.end - |overlapHead.value|
                                    && overlapHead.value == text[section.end - |overlapHead.value|..section.end]
    {
      var block := section.text;
      var blockEnd := |block|;
      var lastTagOpen := LastIndexOfChar(block, '<', |block| - 1);
      if lastTagOpen < blockStart {
        lastTagOpen := -1;
      }
      var lastTagClose := LastIndexOfChar(block, '>', |block| - 1);
      if lastTagClose < blockStart {
        lastTagClose := -1;
      }
      var partialTag := (lastTagOpen >= 0 && lastTagClose < 0) || (lastTagClose >= 0 && lastTagClose < lastTagOpen);
      overlapHead := None;
      if partialTag {
        overlapHead := Some(block[lastTagOpen..blockEnd]);
        blockEnd := lastTagOpen + 1;
      }
      var found;
      ghost var c, i;
      found, c, i := FindForwardMatch(block, breakClasses, blockStart, blockEnd);
      if found >= 0 {
        OpensClassTagInSlice(text, section.start, section.end, c, found, i);
        return section.start + found, overlapHead;
      }
      return -1, overlapHead;
    }

    /**
     * `getPreceding(offset)`: the '<' of the last break-class tag, with no
     * '>' before its class, that starts before offset - 1, read section by
     * section backwards, with a tag cut by a section start completed from
     * the previous section; 0 when there is none.
     */
    method GetPreceding(offset: int) returns (r: Result<int>)
      requires Valid()
      ensures offset <= 0 ==> r == Ok(0)
      ensures offset > 1 && offset - 1 >= |text| ==> r == Err("IllegalArgumentException")
      ensures r.Err? ==> (offset > 1 && offset - 1 >= |text|) || r.error == "StringIndexOutOfBoundsException"
      ensures r.Ok? ==> r.value == 0 || (0 < r.value < offset && ClosedClassTagAt(text, breakClasses, r.value))
    {
      if offset <= 0 {
        return Ok(0);
      }
      var overlapTail: Option<string> := None;
      var globalEnd := Max(0, offset - 1);
      if globalEnd > 0 && globalEnd >= |text| {
        return Err("IllegalArgumentException");
      }
      while globalEnd > 0
        invariant -1 <= globalEnd < offset && (globalEnd > 0 ==> globalEnd < |text|)
        invariant overlapTail.Some? ==>
          && Aligned(globalEnd + 1, sectionSize)
          && globalEnd + 1 + |overlapTail.value| <= |text|
          && overlapTail.value == text[globalEnd + 1..globalEnd + 1 + |overlapTail.value|]
          && '<' !in overlapTail.value
        decreases globalEnd
      {
        var section := AsciiSection(text, sectionSize, globalEnd);
        var blockEnd := globalEnd - section.start;
        if overlapTail.Some? {
          BeforeAlignedStart(globalEnd + 1, sectionSize);
          var overlapMatch;
          overlapMatch, blockEnd := PrecedingInOverlap(overlapTail.value, section, globalEnd);
          if overlapMatch.Err? || overlapMatch.value >= 0 {
            return overlapMatch;
          }
          overlapTail := None;
        }
        var found;
        found, overlapTail := PrecedingInSection(section, blockEnd);
        if found >= 0 {
          return Ok(found);
        }
        SectionStartAligned(globalEnd, sectionSize);
        globalEnd := section.start - 1;
      }
      return Ok(0);
    }

    /**
     * The tag cut by the start of the following section, whose part there is
     * `tail`, completed with the end of `section` from its last '<': the
     * text offset of a break-class tag in it, or -1, and where the rest of
     * the section ends. A section holding no '<' cannot complete it.
     */
    method PrecedingInOverlap(tail: string, section: R.Section, globalEnd: int) returns (m: Result<int>, blockEnd: int)
      requires Valid()
      requires 0 <= section.start <= globalEnd && globalEnd + 1 == section.end && section.end + |tail| <= |text|
      requires section.text == text[section.start..section.end] && tail == text[section.end..section.end + |tail|]
      requires '<' !in tail
      ensures m.Err? ==> m.error == "StringIndexOutOfBoundsException"
      ensures m.Ok? ==> m.value == -1 || (section.start <= m.value < section.end && ClosedClassTagAt(text, breakClasses, m.value))
      ensures 0 <= blockEnd < |section.text|
    {
      var block := section.text;
      var lastTagOpen := LastIndexOfChar(block, '<', globalEnd - section.start);
      if lastTagOpen < 0 {
        return Err("StringIndexOutOfBoundsException"), 0;
      }
      var overlapHead := block[lastTagOpen..];
      var overlapStartOffset := globalEnd - |overlapHead| + 1;
      var overlap := overlapHead + tail;
      assert overlap == text[overlapStartOffset..section.end + |tail|];
      var overlapMatch;
      ghost var c, i;
      overlapMatch, c, i := FindBackwardMatch(overlap, breakClasses, |overlap|, 0);
      if overlapMatch >= 0 {
        OverlapMatchIsClosedTag(text, breakClasses, overlapStartOffset, section.end, section.end + |tail|, c, i, overlapMatch);
        return Ok(overlapStartOffset + overlapMatch), lastTagOpen;
      }
      return Ok(-1), lastTagOpen;
    }

    /**
     * `section` up to blockEnd, from after the '>' of a tag the section
     * start leaves open: the text offset of a break-class tag in it, or -1,
     * and the open tag's tail to carry over.
     */
    method PrecedingInSection(section: R.Section, blockEnd: int) returns (m: int, overlapTail: Option<string>)
      requires Valid()
      requires 0 <= section.start <= section.end <= |text| && section.text == text[section.start..section.end]
      requires 0 <= blockEnd < |section.text|
      ensures m == -1 || (section.start <= m < section.start + blockEnd && ClosedClassTagAt(text, breakClasses, m))
      ensures overlapTail.Some? ==>
        && |overlapTail.value| <= blockEnd + 1
        && overlapTail.value == text[section.start..section.start + |overlapTail.value|]
        && '<' !in overlapTail.value
    {
      var block := section.text;
      var blockStart := 0;
      var firstTagOpen := IndexOfChar(block, '<', 0);
      if firstTagOpen > blockEnd {
        firstTagOpen := -1;
      }
      var firstTagClose := IndexOfChar(block, '>', 0);
      if firstTagClose > blockEnd {
        firstTagClose := -1;
      }
      var partialTag := (firstTagOpen < 0 && firstTagClose >= 0) || (firstTagClose >= 0 && firstTagClose < firstTagOpen);
      overlapTail := None;
      if partialTag {
        blockStart := firstTagClose + 1;
        overlapTail := Some(block[..firstTagClose + 1]);
      }
      var found;
      ghost var c, i;
      found, c, i := FindBackwardMatch(block, breakClasses, blockEnd, blockStart);
      if found >= 0 {
        assert c in breakClasses;
        QualifiesOpensTag(block, c, i, blockStart);
        OpensClassTagInSlice(text, section.start, section.end, c, found, i);
        return section.start + found, overlapTail;
      }
      return -1, overlapTail;
    }
  }
}
