/**
 * What every OCR parser shares: the box a parser yields, the highlight
 * markers, the tracking of highlight spans across boxes, and the joining of
 * a run of boxes into text.
 *
 * Text is a sequence of Unicode scalar values, so each highlight marker is
 * one `char` here; in Java each is a surrogate pair, and `contains` on the
 * pair finds exactly the places where the scalar value occurs.
 */
module OcrParser {
  import opened Common
  import opened OcrFormat

  /** The features a caller can ask a parser for. */
  datatype ParsingFeature = TEXT | OFFSETS | COORDINATES | HIGHLIGHTS | CONFIDENCE | ALTERNATIVES | PAGES

  const AllFeatures: set<ParsingFeature> := {TEXT, OFFSETS, COORDINATES, HIGHLIGHTS, CONFIDENCE, ALTERNATIVES, PAGES}

  /** The marker that opens a highlight (U+1F525). */
  const StartHl: char := '\U{1F525}'

  /** The marker that closes a highlight (U+1F9EF). */
  const EndHl: char := '\U{1F9EF}'

  /** The soft hyphen (U+00AD) that marks a word split across lines. */
  const SoftHyphen: char := '\U{00AD}'

  /**
   * An `OcrBox`. Coordinates are integers (the parsers only ever store
   * parsed integers in them), the highlight span is a number standing for
   * its UUID, the confidence is the attribute text it is parsed from, and
   * the trailing chars may be cleared (`None`, Java's null).
   */
  datatype OcrBox = OcrBox(
    text: Option<string>,
    textOffset: int,
    alternatives: seq<string>,
    alternativeOffsets: seq<int>,
    trailingChars: Option<string>,
    page: Option<OcrPage>,
    ulx: int, uly: int, lrx: int, lry: int,
    highlightSpan: Option<nat>,
    dehyphenatedForm: Option<string>,
    hyphenStart: Option<bool>,
    confidence: Option<string>)

  /** A box as `new OcrBox()` creates it. */
  const EmptyBox: OcrBox :=
    OcrBox(None, -1, [], [], Some(""), None, -1, -1, -1, -1, None, None, None, None)

  /** `addAlternative`: the alternative is kept, its offset only when there is one. */
  function AddAlternative(b: OcrBox, alternative: string, offset: Option<int>): (r: OcrBox)
    ensures r.alternatives == b.alternatives + [alternative]
    ensures r.alternativeOffsets == b.alternativeOffsets + (if offset.Some? then [offset.value] else [])
    ensures r == b.(alternatives := r.alternatives, alternativeOffsets := r.alternativeOffsets)
  {
    b.(alternatives := b.alternatives + [alternative],
       alternativeOffsets := if offset.Some? then b.alternativeOffsets + [offset.value] else b.alternativeOffsets)
  }

  /** `isHyphenated`: the box carries hyphenation information. */
  predicate IsHyphenated(b: OcrBox) { b.hyphenStart.Some? }

  /** `isHyphenated() && isHyphenStart()`: the box is the first half of a split word. */
  predicate IsHyphenStart(b: OcrBox) { b.hyphenStart == Some(true) }

  /** Java's string conversion of a possibly null string, as `append` and `+` do it. */
  function Str(s: Option<string>): string
  {
    if s.None? then "null" else s.value
  }

  /** The string with every occurrence of `c` removed (`replace(c, "")`). */
  function Without(s: string, c: char): (r: string)
    ensures c !in r
    ensures forall x :: x != c ==> (x in r <==> x in s)
    ensures c !in s ==> r == s
  {
    if s == [] then [] else (if s[0] == c then [] else [s[0]]) + Without(s[1..], c)
  }

  // ---------------------------------------------------------------------
  // Highlight spans

  /**
   * The parser state that `trackHighlightSpan` reads and writes: the open
   * span, whether it closes after the next box, and the next fresh span id
   * (the model's stand-in for `UUID.randomUUID`).
   */
  datatype SpanState = SpanState(current: Option<nat>, terminateAfterNext: bool, nextId: nat)

  /** The state the parser starts in. */
  const NoSpan: SpanState := SpanState(None, false, 0)

  /**
   * What holds between calls: a pending close needs an open span, and the
   * open span's id was handed out already, so fresh ids are never reused.
   */
  predicate SpanInv(st: SpanState)
  {
    (st.terminateAfterNext ==> st.current.Some?) && (st.current.Some? ==> st.current.value < st.nextId)
  }

  /**
   * `trackHighlightSpan(text, box)`: the new state and the id of the span
   * the box belongs to. A start marker opens a fresh span when none is
   * open; an end marker (or a pending close) closes it, except that an end
   * marker on the first half of a split word delays the close to the next box.
   */
  function TrackHighlight(st: SpanState, text: string, hyphenStart: bool): (r: (SpanState, Option<nat>))
    ensures SpanInv(st) ==> SpanInv(r.0)
    // the box belongs to the open span, or to the fresh one its start marker opens
    ensures r.1 == (if st.current.None? && StartHl in text then Some(st.nextId) else st.current)
    ensures r.0.nextId == (if st.current.None? && StartHl in text then st.nextId + 1 else st.nextId)
    // the span stays open unless the box closes it
    ensures r.0.current.None? <==>
      r.1.None? || (EndHl in text && !hyphenStart && !st.terminateAfterNext) || st.terminateAfterNext
    ensures r.0.current.Some? ==> r.0.current == r.1
    // a close is delayed exactly when the first half of a split word ends the span
    ensures SpanInv(st) ==> (r.0.terminateAfterNext <==> r.1.Some? && !st.terminateAfterNext && EndHl in text && hyphenStart)
  {
    var st1 := if st.current.None? && StartHl in text
      then st.(current := Some(st.nextId), nextId := st.nextId + 1) else st;
    if st1.current.Some? && (st1.terminateAfterNext || EndHl in text) then
      if st1.terminateAfterNext then
        (st1.(current := None, terminateAfterNext := false), st1.current)
      else if hyphenStart && EndHl in text then
        (st1.(terminateAfterNext := true), st1.current)
      else
        (st1.(current := None), st1.current)
    else
      (st1, st1.current)
  }

  /**
   * A span that ends on the first half of a split word also covers the
   * second half, whatever that half's text, and closes after it.
   */
  lemma DelayedClose(st: SpanState, first: string, second: string, hyphenStart: bool)
    requires SpanInv(st) && !st.terminateAfterNext
    requires st.current.Some? || StartHl in first
    requires EndHl in first
    ensures var (mid, id1) := TrackHighlight(st, first, true);
      var (after, id2) := TrackHighlight(mid, second, hyphenStart);
      id1.Some? && id2 == id1 && after.current.None? && !after.terminateAfterNext
  {
  }

  /**
   * Ids are never reused: every box of a run belongs to the span open when
   * the run starts or to one opened during the run with a fresh id.
   */
  lemma {:induction false} SpansAreFresh(st: SpanState, texts: seq<string>, hyphenStarts: seq<bool>)
    requires |texts| == |hyphenStarts| && SpanInv(st)
    ensures var (end, ids) := TrackAll(st, texts, hyphenStarts);
      SpanInv(end) && end.nextId >= st.nextId &&
      forall i :: 0 <= i < |ids| && ids[i].Some? ==> ids[i] == st.current || st.nextId <= ids[i].value < end.nextId
    decreases |texts|
  {
    if texts != [] {
      var (next, id) := TrackHighlight(st, texts[0], hyphenStarts[0]);
      SpansAreFresh(next, texts[1..], hyphenStarts[1..]);
      var (end, ids) := TrackAll(next, texts[1..], hyphenStarts[1..]);
      assert TrackAll(st, texts, hyphenStarts) == (end, [id] + ids);
      assert forall i :: 1 <= i < |ids| + 1 ==> ([id] + ids)[i] == ids[i - 1];
    }
  }

  /** Tracking a run of boxes one after the other: the final state and each box's span. */
  function TrackAll(st: SpanState, texts: seq<string>, hyphenStarts: seq<bool>): (r: (SpanState, seq<Option<nat>>))
    requires |texts| == |hyphenStarts|
    ensures |r.1| == |texts|
    decreases |texts|
  {
    if texts == [] then (st, [])
    else
      var (next, id) := TrackHighlight(st, texts[0], hyphenStarts[0]);
      var (end, ids) := TrackAll(next, texts[1..], hyphenStarts[1..]);
      (end, [id] + ids)
  }

  /**
   * A run of boxes from a closed state where only the first box carries
   * a start marker and only the last an end marker (and the last is not the
   * first half of a split word) puts every box in the same fresh span and
   * leaves no span open.
   */
  lemma {:induction false} HighlightedRun(st: SpanState, texts: seq<string>, hyphenStarts: seq<bool>)
    requires |texts| == |hyphenStarts| >= 1 && SpanInv(st)
    requires st.current.None? && StartHl in texts[0]
    requires forall i :: 0 <= i < |texts| - 1 ==> EndHl !in texts[i]
    requires EndHl in texts[|texts| - 1] && !hyphenStarts[|texts| - 1]
    ensures var (end, ids) := TrackAll(st, texts, hyphenStarts);
      end.current.None? && !end.terminateAfterNext && end.nextId == st.nextId + 1 &&
      forall i :: 0 <= i < |ids| ==> ids[i] == Some(st.nextId)
  {
    var (next, id) := TrackHighlight(st, texts[0], hyphenStarts[0]);
    if |texts| > 1 {
      OpenRun(next, texts[1..], hyphenStarts[1..], st.nextId);
    }
  }

  /** The inductive step of `HighlightedRun`: a run continuing an open span. */
  lemma {:induction false} OpenRun(st: SpanState, texts: seq<string>, hyphenStarts: seq<bool>, id: nat)
    requires |texts| == |hyphenStarts| >= 1 && SpanInv(st)
    requires st.current == Some(id) && !st.terminateAfterNext
    requires forall i :: 0 <= i < |texts| - 1 ==> EndHl !in texts[i]
    requires EndHl in texts[|texts| - 1] && !hyphenStarts[|texts| - 1]
    ensures var (end, ids) := TrackAll(st, texts, hyphenStarts);
      end.current.None? && !end.terminateAfterNext && end.nextId == st.nextId &&
      forall i :: 0 <= i < |ids| ==> ids[i] == Some(id)
    decreases |texts|
  {
    var (next, first) := TrackHighlight(st, texts[0], hyphenStarts[0]);
    if |texts| > 1 {
      OpenRun(next, texts[1..], hyphenStarts[1..], id);
    }
  }

  // ---------------------------------------------------------------------
  // Boxes to text

  /** The second box completes the split word the first one starts. */
  predicate CompletesHyphenation(b: OcrBox, next: OcrBox)
  {
    IsHyphenStart(b) && IsHyphenated(next) && !IsHyphenStart(next)
  }

  /** A trimmed isolated word start, with a '-' added unless it has one. */
  function Dashed(text: string): (r: string)
    ensures r != [] && r[|r| - 1] == '-'
    ensures text <= r && |r| <= |text| + 1
  {
    if text != [] && text[|text| - 1] == '-' then text else text + "-"
  }

  /** The first alternative carrying a highlight marker. */
  function HighlightedAlternative(alts: seq<string>): (r: Option<string>)
    ensures r.Some? <==> exists i :: 0 <= i < |alts| && (StartHl in alts[i] || EndHl in alts[i])
    ensures r.Some? ==> r.value in alts && (StartHl in r.value || EndHl in r.value)
  {
    if alts == [] then None
    else if StartHl in alts[0] || EndHl in alts[0] then Some(alts[0])
    else
      var r := HighlightedAlternative(alts[1..]);
      assert forall i :: 1 <= i < |alts| ==> alts[i] == alts[1..][i - 1];
      r
  }

  /** What a box that does not start a complete split word contributes before its trailing chars. */
  function Form(b: OcrBox): string
  {
    if IsHyphenStart(b) then Dashed(Trim(Str(b.text)))
    else if HighlightedAlternative(b.alternatives).Some? then HighlightedAlternative(b.alternatives).value
    else Str(b.text)
  }

  /** The trailing chars as appended: nothing when cleared. */
  function Trailing(t: Option<string>): string
  {
    if t.None? then "" else t.value
  }

  /** Every first half of a split word has a text (the join trims it). */
  predicate StartsHaveText(boxes: seq<OcrBox>)
  {
    forall i :: 0 <= i < |boxes| && IsHyphenStart(boxes[i]) ==> boxes[i].text.Some?
  }

  /**
   * The text of a run of boxes before the final trim: a complete split word
   * gives its dehyphenated form once with the trailing chars of its second
   * half, every other box its form and its own trailing chars.
   */
  function Joined(boxes: seq<OcrBox>): string
    decreases |boxes|
  {
    if boxes == [] then ""
    else if |boxes| > 1 && CompletesHyphenation(boxes[0], boxes[1]) then
      Str(boxes[1].dehyphenatedForm) + Trailing(boxes[1].trailingChars) + Joined(boxes[2..])
    else
      Form(boxes[0]) + Trailing(boxes[0].trailingChars) + Joined(boxes[1..])
  }

  /**
   * The boxes after joining: the first half of each complete split word has
   * taken over the trailing chars of its second half.
   */
  function Carried(boxes: seq<OcrBox>): (r: seq<OcrBox>)
    ensures |r| == |boxes|
  {
    seq(|boxes|, i requires 0 <= i < |boxes| =>
      if i + 1 < |boxes| && CompletesHyphenation(boxes[i], boxes[i + 1])
      then boxes[i].(trailingChars := boxes[i + 1].trailingChars) else boxes[i])
  }

  /**
   * `boxesToString`: the joined text of the boxes, trimmed, and the boxes as
   * the call leaves them.
   */
  method BoxesToString(boxes: seq<OcrBox>) returns (s: string, after: seq<OcrBox>)
    requires StartsHaveText(boxes)
    ensures s == Trim(Joined(boxes))
    ensures after == Carried(boxes)
  {
    var sb := "";
    var idx := 0;
    after := [];
    while idx < |boxes|
      invariant 0 <= idx <= |boxes|
      invariant sb + Joined(boxes[idx..]) == Joined(boxes)
      invariant after == Carried(boxes)[..idx]
    {
      var text, taken := NextPiece(boxes, idx);
      ConcatAssoc(sb, text, Joined(boxes[idx + |taken|..]));
      sb := sb + text;
      after := after + taken;
      idx := idx + |taken|;
    }
    assert boxes[idx..] == [];
    assert sb == Joined(boxes);
    s := Trim(sb);
  }

  /**
   * One round of the join: the text the box at `idx` (with its partner,
   * when it starts a complete split word) contributes, and the boxes the
   * round hands back.
   */
  method NextPiece(boxes: seq<OcrBox>, idx: nat) returns (text: string, taken: seq<OcrBox>)
    requires StartsHaveText(boxes) && idx < |boxes|
    ensures 1 <= |taken| <= 2 && idx + |taken| <= |boxes|
    ensures text + Joined(boxes[idx + |taken|..]) == Joined(boxes[idx..])
    ensures Carried(boxes)[..idx + |taken|] == Carried(boxes)[..idx] + taken
  {
    JoinedFrom(boxes, idx);
    var b := boxes[idx];
    var piece;
    if IsHyphenated(b) && IsHyphenStart(b) {
      var complete := idx < |boxes| - 1 && IsHyphenated(boxes[idx + 1]) && !IsHyphenStart(boxes[idx + 1]);
      if complete {
        // both halves are present: the dehyphenated form stands for the word
        var next := boxes[idx + 1];
        piece := Str(next.dehyphenatedForm);
        b := b.(trailingChars := next.trailingChars);
        taken := [b, next];
      } else {
        piece := Dashed(Trim(b.text.value));
        assert piece == Form(b);
        taken := [b];
      }
    } else {
      var alt := HighlightedAlternative(b.alternatives);
      if b.alternatives != [] && alt.Some? {
        piece := alt.value;
      } else {
        piece := Str(b.text);
      }
      assert piece == Form(b);
      taken := [b];
    }
    // cleared trailing chars add nothing
    text := piece + Trailing(b.trailingChars);
    CarriedPrefix(boxes, idx, |taken|);
    if |taken| == 2 {
      assert text == Str(boxes[idx + 1].dehyphenatedForm) + Trailing(boxes[idx + 1].trailingChars);
    } else {
      assert text == Form(boxes[idx]) + Trailing(boxes[idx].trailingChars);
    }
  }

  /** The boxes a step of the join hands back extend the carried prefix. */
  lemma CarriedPrefix(boxes: seq<OcrBox>, i: nat, n: nat)
    requires 1 <= n <= 2 && i + n <= |boxes|
    requires n == 2 <==> i + 1 < |boxes| && CompletesHyphenation(boxes[i], boxes[i + 1])
    ensures Carried(boxes)[..i + n] == Carried(boxes)[..i] +
      if n == 2 then [boxes[i].(trailingChars := boxes[i + 1].trailingChars), boxes[i + 1]] else [boxes[i]]
  {
  }

  /** `Joined` unfolded at a position of the run. */
  lemma JoinedFrom(boxes: seq<OcrBox>, i: nat)
    requires i < |boxes|
    ensures Joined(boxes[i..]) ==
      if i + 1 < |boxes| && CompletesHyphenation(boxes[i], boxes[i + 1]) then
        Str(boxes[i + 1].dehyphenatedForm) + Trailing(boxes[i + 1].trailingChars) + Joined(boxes[i + 2..])
      else Form(boxes[i]) + Trailing(boxes[i].trailingChars) + Joined(boxes[i + 1..])
  {
    assert boxes[i..][1..] == boxes[i + 1..];
    if i + 1 < |boxes| {
      assert boxes[i..][2..] == boxes[i + 2..];
    }
  }

  /** Joining a complete split word gives its dehyphenated form once, then the second half's trailing chars. */
  lemma SplitWordJoins(start: OcrBox, end: OcrBox, word: string)
    requires IsHyphenStart(start) && start.text.Some? && end.hyphenStart == Some(false)
    requires end.dehyphenatedForm == Some(word)
    ensures Joined([start, end]) == word + Trailing(end.trailingChars)
  {
  }

  /** An isolated first half of a split word is shown with its hyphen. */
  lemma {:induction false} IsolatedStartJoins(start: OcrBox, rest: seq<OcrBox>)
    requires IsHyphenStart(start) && start.text.Some?
    requires rest == [] || !CompletesHyphenation(start, rest[0])
    ensures Joined([start] + rest) ==
      Dashed(Trim(start.text.value)) + Trailing(start.trailingChars) + Joined(rest)
  {
    assert ([start] + rest)[1..] == rest;
  }
}
