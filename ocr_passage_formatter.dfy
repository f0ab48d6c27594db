/**
 * The parts of the passage formatter that do not touch Lucene: merging the
 * highlight matches of a passage, moving a highlight position past the
 * character entities of the word it falls in, the shape of the snippet
 * array, and the page a passage starts on.
 *
 * A match is a closed interval of byte offsets. The page break locator,
 * the reader and the format's fragment parser are given as values and
 * functions.
 */
module OcrPassageFormatter {
  import opened Common
  import opened OcrFormat
  import BaseBreakLocator

  // ---------------------------------------------------------------------
  // Matches

  /** The offsets a match spans, both ends included. */
  datatype Interval = Interval(start: int, end: int)

  /** `overlaps`: one interval has an end inside the other, or lies inside it. */
  predicate Meets(a: Interval, b: Interval)
  {
    (a.start <= b.start && b.start <= a.end) ||
    (a.start <= b.end && b.end <= a.end) ||
    (b.start <= a.start && a.start <= b.end && b.start <= a.end && a.end <= b.end)
  }

  /** `merge`: the end is raised to the other's end, or else the start lowered to the other's start. */
  function Merged(a: Interval, b: Interval): Interval
  {
    if a.end < b.end then a.(end := b.end)
    else if a.start > b.start then a.(start := b.start)
    else a
  }

  /** An interval whose start is not after its end. */
  predicate Proper(a: Interval) { a.start <= a.end }

  /** `x` lies in the interval. */
  predicate In(a: Interval, x: int) { a.start <= x <= a.end }

  /** For proper intervals, `overlaps` holds exactly when the two share an offset. */
  lemma MeetsIffShared(a: Interval, b: Interval)
    requires Proper(a) && Proper(b)
    ensures Meets(a, b) <==> Max(a.start, b.start) <= Min(a.end, b.end)
    ensures Meets(a, b) <==> exists x :: In(a, x) && In(b, x)
  {
    if Max(a.start, b.start) <= Min(a.end, b.end) {
      var x := Max(a.start, b.start);
      assert In(a, x) && In(b, x);
    }
  }

  /** For proper intervals, `overlaps` does not depend on the order of the two. */
  lemma MeetsSymmetric(a: Interval, b: Interval)
    requires Proper(a) && Proper(b)
    ensures Meets(a, b) <==> Meets(b, a)
  {
    MeetsIffShared(a, b);
    MeetsIffShared(b, a);
  }

  /** `merge` never shrinks the interval it changes. */
  lemma MergedGrows(a: Interval, b: Interval)
    ensures Merged(a, b).start <= a.start && a.end <= Merged(a, b).end
    ensures Merged(a, b).start == a.start || Merged(a, b).end == a.end
  {
  }

  /**
   * Merging a proper interval with one that starts no earlier and meets it
   * covers exactly the offsets of the two.
   */
  lemma MergedCovers(a: Interval, b: Interval, x: int)
    requires Proper(a) && Proper(b) && a.start <= b.start && Meets(a, b)
    ensures Proper(Merged(a, b))
    ensures Merged(a, b) == Interval(a.start, Max(a.end, b.end))
    ensures In(Merged(a, b), x) <==> In(a, x) || In(b, x)
  {
  }

  /** A highlight match whose bounds `merge` changes in place. */
  class PassageMatch {
    var start: int
    var end: int

    constructor(start: int, end: int)
      ensures this.start == start && this.end == end
    {
      this.start := start;
      this.end := end;
    }

    /** The interval the match spans now. */
    function Value(): Interval
      reads this
    {
      Interval(start, end)
    }

    /** `overlaps(other)`. */
    predicate Overlaps(other: PassageMatch)
      reads this, other
    {
      Meets(Value(), other.Value())
    }

    /** `merge(other)`: raises the end to the other's, or else lowers the start to the other's. */
    method Merge(other: PassageMatch)
      modifies this
      ensures Value() == Merged(old(Value()), old(other.Value()))
    {
      if end < other.end {
        end := other.end;
      } else if start > other.start {
        start := other.start;
      }
    }
  }

  // ---------------------------------------------------------------------
  // Merging the matches of a passage

  /** The matches as the passage lists them. */
  function Inputs(starts: seq<int>, ends: seq<int>, n: nat): (r: seq<Interval>)
    requires n <= |starts| && n <= |ends|
    ensures |r| == n
    ensures forall i :: 0 <= i < n ==> r[i] == Interval(starts[i], ends[i])
  {
    seq(n, i requires 0 <= i < n => Interval(starts[i], ends[i]))
  }

  /** One candidate against the merged list: it merges into the last match when they overlap, else it is added. */
  function Step(merged: seq<Interval>, c: Interval): (r: seq<Interval>)
    requires merged != []
  {
    var last := merged[|merged| - 1];
    if Meets(last, c) then merged[..|merged| - 1] + [Merged(last, c)] else merged + [c]
  }

  /** The merged list after all matches of `ms`, in order. */
  function MergeAll(ms: seq<Interval>): (r: seq<Interval>)
    requires ms != []
    ensures r != []
    decreases |ms|
  {
    if |ms| == 1 then [ms[0]] else Step(MergeAll(ms[..|ms| - 1]), ms[|ms| - 1])
  }

  /** The matches come sorted by start. */
  predicate SortedByStart(ms: seq<Interval>)
  {
    forall i, j :: 0 <= i < j < |ms| ==> ms[i].start <= ms[j].start
  }

  /** Every match is proper. */
  predicate AllProper(ms: seq<Interval>)
  {
    forall i :: 0 <= i < |ms| ==> Proper(ms[i])
  }

  /** Each interval ends before the next one starts. */
  predicate Separated(ms: seq<Interval>)
  {
    forall i :: 0 <= i < |ms| - 1 ==> ms[i].end < ms[i + 1].start
  }

  /** Some interval of `ms` holds `x`. */
  predicate Covered(ms: seq<Interval>, x: int)
  {
    exists k :: 0 <= k < |ms| && In(ms[k], x)
  }

  /**
   * With proper matches sorted by start, the merged matches are proper,
   * sorted and pairwise apart: each ends before the next one starts. No
   * merged match starts after the last input match.
   */
  lemma {:induction false} MergeAllSeparated(ms: seq<Interval>)
    requires ms != [] && SortedByStart(ms) && AllProper(ms)
    ensures var r := MergeAll(ms); AllProper(r) && Separated(r)
    ensures var r := MergeAll(ms); forall k :: 0 <= k < |r| ==> r[k].start <= ms[|ms| - 1].start
    decreases |ms|
  {
    if |ms| > 1 {
      var init := ms[..|ms| - 1];
      var c := ms[|ms| - 1];
      assert SortedByStart(init) && AllProper(init);
      MergeAllSeparated(init);
      var m := MergeAll(init);
      var last := m[|m| - 1];
      assert last.start <= init[|init| - 1].start <= c.start;
      var r := Step(m, c);
      if Meets(last, c) {
        MergedCovers(last, c, c.start);
        assert r == m[..|m| - 1] + [Interval(last.start, Max(last.end, c.end))];
      } else {
        assert last.end < c.start;
      }
    }
  }

  /** A step covers what the merged list and the candidate covered, and nothing more. */
  lemma StepCovers(m: seq<Interval>, c: Interval, x: int)
    requires m != [] && Proper(m[|m| - 1]) && Proper(c) && m[|m| - 1].start <= c.start
    ensures Covered(Step(m, c), x) <==> Covered(m, x) || In(c, x)
  {
    var last := m[|m| - 1];
    var r := Step(m, c);
    if Meets(last, c) {
      MergedCovers(last, c, x);
      if Covered(m, x) {
        var k :| 0 <= k < |m| && In(m[k], x);
        if k < |m| - 1 {
          assert r[k] == m[k];
        } else {
          assert In(r[|r| - 1], x);
        }
      }
      if In(c, x) {
        assert In(r[|r| - 1], x);
      }
      if Covered(r, x) {
        var k :| 0 <= k < |r| && In(r[k], x);
        if k < |r| - 1 {
          assert m[k] == r[k];
        } else {
          assert In(last, x) || In(c, x);
        }
      }
    } else {
      if Covered(m, x) {
        var k :| 0 <= k < |m| && In(m[k], x);
        assert r[k] == m[k];
      }
      if In(c, x) {
        assert r[|r| - 1] == c;
      }
      if Covered(r, x) {
        var k :| 0 <= k < |r| && In(r[k], x);
        if k < |m| {
          assert m[k] == r[k];
        }
      }
    }
  }

  /** With proper matches sorted by start, merging keeps exactly the offsets the matches cover. */
  lemma {:induction false} MergeAllCovers(ms: seq<Interval>, x: int)
    requires ms != [] && SortedByStart(ms) && AllProper(ms)
    ensures Covered(MergeAll(ms), x) <==> Covered(ms, x)
    decreases |ms|
  {
    if |ms| == 1 {
      assert MergeAll(ms) == ms;
    } else {
      var init := ms[..|ms| - 1];
      var c := ms[|ms| - 1];
      assert SortedByStart(init) && AllProper(init);
      MergeAllCovers(init, x);
      MergeAllSeparated(init);
      var m := MergeAll(init);
      StepCovers(m, c, x);
      if Covered(ms, x) {
        var k :| 0 <= k < |ms| && In(ms[k], x);
        if k < |ms| - 1 {
          assert init[k] == ms[k];
        }
      }
      if Covered(init, x) {
        var k :| 0 <= k < |init| && In(init[k], x);
        assert ms[k] == init[k];
      }
    }
  }

  /**
   * `mergeMatches`: the first match opens the merged list, and every later
   * one merges into the last merged match when the two overlap, or is
   * appended. Without matches the first removal fails.
   */
  method MergeMatches(numMatches: int, matchStarts: array<int>, matchEnds: array<int>)
    returns (r: Result<seq<PassageMatch>>)
    requires numMatches <= matchStarts.Length && numMatches <= matchEnds.Length
    ensures r.Err? <==> numMatches <= 0
    ensures r.Err? ==> r.error == "NoSuchElementException"
    ensures r.Ok? ==> forall k :: 0 <= k < |r.value| ==> fresh(r.value[k])
    ensures r.Ok? ==> var merged := MergeAll(Inputs(matchStarts[..], matchEnds[..], numMatches));
      |r.value| == |merged| && forall k :: 0 <= k < |merged| ==> r.value[k].Value() == merged[k]
  {
    if numMatches <= 0 {
      return Err("NoSuchElementException");
    }
    ghost var ms := Inputs(matchStarts[..], matchEnds[..], numMatches);
    // the merged matches before the last one, which only the last can still change
    var done: seq<PassageMatch> := [];
    ghost var settled: seq<Interval> := [];
    var last := new PassageMatch(matchStarts[0], matchEnds[0]);
    var i := 1;
    assert ms[..1] == [ms[0]];
    while i < numMatches
      invariant 1 <= i <= numMatches
      invariant fresh(last) && last !in done
      invariant forall m :: m in done ==> fresh(m)
      invariant |done| == |settled| && forall k :: 0 <= k < |done| ==> done[k].Value() == settled[k]
      invariant settled + [last.Value()] == MergeAll(ms[..i])
    {
      var candidate := new PassageMatch(matchStarts[i], matchEnds[i]);
      MergeAllNext(ms, i);
      done, last, settled := Absorb(done, last, candidate, settled);
      i := i + 1;
    }
    assert ms[..i] == ms;
    var merged := done + [last];
    forall k | 0 <= k < |merged|
      ensures merged[k].Value() == (settled + [last.Value()])[k] && fresh(merged[k])
    {
      if k < |done| {
        assert merged[k] == done[k] && done[k] in done;
      }
    }
    r := Ok(merged);
  }

  /** One pass of the merge loop: the candidate merges into the last match or becomes the new last one. */
  method Absorb(done: seq<PassageMatch>, last: PassageMatch, candidate: PassageMatch, ghost settled: seq<Interval>)
    returns (done': seq<PassageMatch>, last': PassageMatch, ghost settled': seq<Interval>)
    requires last !in done && candidate !in done && candidate != last
    requires |done| == |settled| && forall k :: 0 <= k < |done| ==> done[k].Value() == settled[k]
    modifies last
    ensures last' == last || last' == candidate
    ensures last' !in done' && forall m :: m in done' ==> m in done || m == last
    ensures |done'| == |settled'| && forall k :: 0 <= k < |done'| ==> done'[k].Value() == settled'[k]
    ensures settled' + [last'.Value()] == Step(settled + [old(last.Value())], old(candidate.Value()))
  {
    StepLast(settled, last.Value(), candidate.Value());
    if last.Overlaps(candidate) {
      last.Merge(candidate);
      done', last', settled' := done, last, settled;
    } else {
      done', last', settled' := done + [last], candidate, settled + [last.Value()];
    }
  }

  /** Merging one more match is one more step. */
  lemma MergeAllNext(ms: seq<Interval>, i: nat)
    requires 1 <= i < |ms|
    ensures MergeAll(ms[..i + 1]) == Step(MergeAll(ms[..i]), ms[i])
  {
    assert ms[..i + 1][..i] == ms[..i];
  }

  /** A step on a list written as its settled part and its last match. */
  lemma StepLast(settled: seq<Interval>, last: Interval, c: Interval)
    ensures Step(settled + [last], c) ==
      if Meets(last, c) then settled + [Merged(last, c)] else (settled + [last]) + [c]
  {
    assert (settled + [last])[..|settled|] == settled;
  }

  // ---------------------------------------------------------------------
  // Character entities before a highlight position

  /**
   * `adjustPositionToCharacterEntities` on the word `[lower, upper]` that
   * holds the position: each `&` inside the word before the position
   * moves the position on by the distance to the next `;`, and the search
   * goes on after that `;`.
   */
  function EntityShift(fragment: string, lower: int, upper: int, idx: int, position: int): int
    decreases position - idx
  {
    if !(idx >= lower && idx < position) then position
    else
      var s := IndexOfChar(fragment, '&', idx);
      if s < 0 || s >= position || s > upper then position
      else
        var e := IndexOfChar(fragment, ';', s);
        EntityShift(fragment, lower, upper, e + 1, position + (e - s))
  }

  /** Every `&` from `lower` on is closed by a later `;`, as in well-formed XML. */
  predicate EntitiesClosed(fragment: string, lower: int)
  {
    forall k :: Max(lower, 0) <= k < |fragment| ==> ClosedAt(fragment, k)
  }

  /** An `&` at `k` is followed by a `;`. */
  predicate ClosedAt(fragment: string, k: int)
    requires 0 <= k < |fragment|
  {
    fragment[k] == '&' ==> IndexOfChar(fragment, ';', k) >= 0
  }

  /** With every entity closed, the position never moves back. */
  lemma {:induction false} EntityShiftKeepsAhead(fragment: string, lower: int, upper: int, idx: int, position: int)
    requires EntitiesClosed(fragment, lower)
    ensures EntityShift(fragment, lower, upper, idx, position) >= position
    decreases position - idx
  {
    if idx >= lower && idx < position {
      var s := IndexOfChar(fragment, '&', idx);
      if !(s < 0 || s >= position || s > upper) {
        var e := IndexOfChar(fragment, ';', s);
        EntityClosedAfter(fragment, lower, idx);
        EntityShiftKeepsAhead(fragment, lower, upper, e + 1, position + (e - s));
      }
    }
  }

  /** The next `&` from `idx` on is closed by a `;` after it. */
  lemma {:induction false} EntityClosedAfter(fragment: string, lower: int, idx: int)
    requires EntitiesClosed(fragment, lower)
    requires idx >= lower
    ensures var s := IndexOfChar(fragment, '&', idx);
      s >= 0 ==> IndexOfChar(fragment, ';', s) > s
  {
    var s := IndexOfChar(fragment, '&', idx);
    if s >= 0 {
      assert ClosedAt(fragment, s);
    }
  }

  /**
   * With every entity closed, the position never moves back, and an entity
   * inside the word before the position moves it on by at least its length
   * up to the `;`.
   */
  lemma {:induction false} EntityShiftGrows(fragment: string, lower: int, upper: int, idx: int, position: int)
    requires EntitiesClosed(fragment, lower)
    ensures EntityShift(fragment, lower, upper, idx, position) >= position
    ensures idx >= lower && idx < position ==>
      var s := IndexOfChar(fragment, '&', idx);
      (0 <= s < position && s <= upper ==>
        EntityShift(fragment, lower, upper, idx, position) >= position + (IndexOfChar(fragment, ';', s) - s))
  {
    EntityShiftKeepsAhead(fragment, lower, upper, idx, position);
    if idx >= lower && idx < position {
      var s := IndexOfChar(fragment, '&', idx);
      if 0 <= s < position && s <= upper {
        var e := IndexOfChar(fragment, ';', s);
        EntityShiftKeepsAhead(fragment, lower, upper, e + 1, position + (e - s));
      }
    }
  }

  /** Without an `&` inside the word before the position, the position stays. */
  lemma NoEntityKeeps(fragment: string, lower: int, upper: int, position: int)
    requires forall k :: Max(lower, 0) <= k < |fragment| && k < position && k <= upper ==> fragment[k] != '&'
    ensures EntityShift(fragment, lower, upper, lower, position) == position
  {
  }

  /** An `&` with no `;` after it moves the position back: "a&b" at 3 comes out at 1. */
  lemma UnclosedEntityMovesBack()
    ensures EntityShift("a&b", 0, 3, 0, 3) == 1
  {
    assert IndexOfChar("a&b", '&', 0) == 1;
    assert IndexOfChar("a&b", ';', 1) == -1;
  }

  /** The loop of `adjustPositionToCharacterEntities`, over the word limits the format gives. */
  method AdjustPositionToCharacterEntities(fragment: string, lower: int, upper: int, position: int)
    returns (r: int)
    ensures r == EntityShift(fragment, lower, upper, lower, position)
  {
    var idx := lower;
    r := position;
    while idx >= lower && idx < r
      invariant EntityShift(fragment, lower, upper, idx, r) == EntityShift(fragment, lower, upper, lower, position)
      decreases r - idx
    {
      var entStart := IndexOfChar(fragment, '&', idx);
      if entStart < 0 || entStart >= r || entStart > upper {
        break;
      }
      var entEnd := IndexOfChar(fragment, ';', entStart);
      var entLength := entEnd - entStart;
      r := r + entLength;
      idx := entEnd + 1;
    }
  }

  // ---------------------------------------------------------------------
  // Snippets and pages

  /**
   * `format(passages, content)`: one slot per passage. A passage whose
   * formatting runs out of bounds leaves its slot empty; any other failure
   * ends the call.
   */
  method Format<P, S>(passages: seq<P>, formatOne: P -> Result<Option<S>>) returns (r: Result<array<Option<S>>>)
    ensures r.Ok? ==> fresh(r.value) && r.value.Length == |passages|
    ensures r.Ok? ==> forall i :: 0 <= i < |passages| ==>
      r.value[i] == (if formatOne(passages[i]).Ok? then formatOne(passages[i]).value else None)
    ensures r.Err? <==> (exists i :: 0 <= i < |passages| && formatOne(passages[i]).Err? &&
                                    formatOne(passages[i]).error != "IndexOutOfBoundsException")
  {
    var snippets := new Option<S>[|passages|](_ => None);
    var i := 0;
    while i < |passages|
      invariant 0 <= i <= |passages|
      invariant forall k :: i <= k < |passages| ==> snippets[k].None?
      invariant forall k :: 0 <= k < i ==>
        snippets[k] == (if formatOne(passages[k]).Ok? then formatOne(passages[k]).value else None)
      invariant forall k :: 0 <= k < i ==>
        formatOne(passages[k]).Ok? || formatOne(passages[k]).error == "IndexOutOfBoundsException"
    {
      var snippet := formatOne(passages[i]);
      if snippet.Ok? {
        snippets[i] := snippet.value;
      } else if snippet.error != "IndexOutOfBoundsException" {
        return Err(snippet.error);
      }
      i := i + 1;
    }
    r := Ok(snippets);
  }

  /**
   * `p` is where the page holding offset `x` starts: the last page break
   * before `x`, or the start of the text when no page break precedes it.
   */
  predicate PageStartOf(pageBreaks: seq<int>, x: int, p: int)
  {
    (p in pageBreaks && p < x && forall b :: b in pageBreaks && b < x ==> b <= p)
    || (p == 0 && forall b :: b in pageBreaks ==> b >= x)
  }

  /**
   * `determineStartPage`: the page locator's `preceding(startOffset)` over
   * the page breaks `pageBreaks` of a text of `length` characters, then at
   * most 512 characters read from there and parsed as a page fragment. The
   * locator answers DONE only for a start at or before 0, and then there
   * is no page: it is part of the passage itself.
   */
  function DetermineStartPage(pageBreaks: seq<int>, length: nat, startOffset: int, read: (int, int) -> string,
                              parse: string -> Option<OcrPage>): (r: Option<OcrPage>)
    requires BaseBreakLocator.BreaksValid(pageBreaks, length)
    ensures startOffset <= 0 ==> r.None?
    ensures startOffset > 0 ==>
      exists p :: PageStartOf(pageBreaks, startOffset, p) && 0 <= p <= length && r == parse(read(p, Min(512, length - p)))
  {
    var pageOffset := if startOffset <= 0 then BaseBreakLocator.Done else BaseBreakLocator.Prev(pageBreaks, startOffset);
    if pageOffset == BaseBreakLocator.Done then None
    else
      assert PageStartOf(pageBreaks, startOffset, pageOffset);
      parse(read(pageOffset, Min(512, length - pageOffset)))
  }

  /** There is one page start for an offset, so `DetermineStartPage` reads from exactly that position. */
  lemma {:induction false} PageStartUnique(pageBreaks: seq<int>, x: int, p: int, q: int)
    requires PageStartOf(pageBreaks, x, p) && PageStartOf(pageBreaks, x, q)
    ensures p == q
  {
  }
}
