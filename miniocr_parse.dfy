/**
 * The two readers of util/miniocr.py and its entry point. The XML parser
 * (`ElementTree.iterparse`) is not modelled: its output is given as a
 * sequence of start and end events, each with the element's tag, its
 * attributes, its text and its tail.
 */
module MiniOcrParse {
  import opened Common
  import opened MiniOcr

  /** One `iterparse` event: `start` or `end` of an element. */
  datatype XmlEvent = XmlEvent(start: bool, tag: string, attrib: map<string, string>, text: Option<string>, tail: Option<string>)

  /** `attrib.get(key)`. */
  function Get(attrib: map<string, string>, key: string): (r: Option<string>)
    ensures r.Some? <==> key in attrib
    ensures r.Some? ==> r.value == attrib[key]
  {
    if key in attrib then Some(attrib[key]) else None
  }

  /** `tag.split("}")[-1]`: the tag without its namespace. */
  function LocalName(tag: string): (r: string)
    ensures '}' !in r
    ensures '}' !in tag ==> r == tag
  {
    var k := LastIndexOfChar(tag, '}', |tag| - 1);
    if k < 0 then tag else tag[k + 1..]
  }

  /** A text is truthy in Python when it is present and non-empty. */
  predicate Truthy(t: Option<string>)
  {
    t.Some? && t.value != []
  }

  /** `f"{x}"` of an optional text: a missing text prints as `None`. */
  function PyStr(t: Option<string>): string
  {
    if t.Some? then t.value else "None"
  }

  // ---------------------------------------------------------------------
  // hOCR title properties (HOCR_PROP_PATS, searched leftmost-first)

  /** The end of the maximal run of ASCII digits starting at `i`. */
  function DigitsEnd(s: string, i: nat): (r: nat)
    requires i <= |s|
    ensures i <= r <= |s| && AllDigits(s[i..r]) && (r < |s| ==> !IsAsciiDigit(s[r]))
    decreases |s| - i
  {
    if i < |s| && IsAsciiDigit(s[i]) then
      var r := DigitsEnd(s, i + 1);
      assert s[i..r] == [s[i]] + s[i + 1..r];
      r
    else i
  }

  /** The end of the run of characters other than `;` starting at `i`. */
  function NonSemicolonEnd(s: string, i: nat): (r: nat)
    requires i <= |s|
    ensures i <= r <= |s| && ';' !in s[i..r] && (r < |s| ==> s[r] == ';')
    decreases |s| - i
  {
    if i < |s| && s[i] != ';' then
      var r := NonSemicolonEnd(s, i + 1);
      assert s[i..r] == [s[i]] + s[i + 1..r];
      r
    else i
  }

  /** A digit run is found where a number was written, up to a non-digit. */
  lemma {:induction false} DigitsEndOf(s: string, i: nat, n: string)
    requires i + |n| <= |s| && s[i..i + |n|] == n && AllDigits(n)
    requires i + |n| == |s| || !IsAsciiDigit(s[i + |n|])
    ensures DigitsEnd(s, i) == i + |n|
    decreases |n|
  {
    if n != [] {
      assert s[i] == n[0];
      assert s[i + 1..i + 1 + |n[1..]|] == n[1..];
      DigitsEndOf(s, i + 1, n[1..]);
    }
  }

  /** `\d+` at position `i`: its value and where it ends. */
  function NumberAt(s: string, i: nat): (r: Option<(nat, nat)>)
    ensures r.Some? ==> i < r.value.1 <= |s|
  {
    if i > |s| then None
    else
      var e := DigitsEnd(s, i);
      if e == i then None else Some((ParseNat(s[i..e]), e))
  }

  /** `\d+ ` at position `i`: the number and the position after its space. */
  function SpacedNumberAt(s: string, i: nat): (r: Option<(nat, nat)>)
    ensures r.Some? ==> i < r.value.1 <= |s|
  {
    var n := NumberAt(s, i);
    if n.None? || n.value.1 >= |s| || s[n.value.1] != ' ' then None else Some((n.value.0, n.value.1 + 1))
  }

  /** `bbox (\d+ \d+ \d+ \d+)` at position `i`. */
  function BboxAt(s: string, i: nat): Option<(nat, nat, nat, nat)>
  {
    if !OccursAt(s, "bbox ", i) then None
    else
      var n1 := SpacedNumberAt(s, i + 5);
      if n1.None? then None
      else
        var n2 := SpacedNumberAt(s, n1.value.1);
        if n2.None? then None
        else
          var n3 := SpacedNumberAt(s, n2.value.1);
          if n3.None? then None
          else
            var n4 := NumberAt(s, n3.value.1);
            if n4.None? then None else Some((n1.value.0, n2.value.0, n3.value.0, n4.value.0))
  }

  /** `ppageno (\d+)` at position `i`. */
  function PpagenoAt(s: string, i: nat): Option<string>
  {
    if !OccursAt(s, "ppageno ", i) then None
    else
      var e := DigitsEnd(s, i + 8);
      if e == i + 8 then None else Some(s[i + 8..e])
  }

  /** `image "(\d+)"` at position `i`. */
  function ImageAt(s: string, i: nat): Option<string>
  {
    if !OccursAt(s, "image \"", i) then None
    else
      var e := DigitsEnd(s, i + 7);
      if e == i + 7 || e >= |s| || s[e] != '"' then None else Some(s[i + 7..e])
  }

  /**
   * `x_source "?([^;]+)"?` at position `i`, as written: after an opening
   * quote the value runs to the next `;`, closing quote included. When
   * nothing but a quote follows, the pattern backtracks and the quote
   * itself is the value.
   */
  function XSourceAt(s: string, i: nat): Option<string>
  {
    if !OccursAt(s, "x_source ", i) then None
    else
      var j := i + 9;
      if j < |s| && s[j] == '"' && NonSemicolonEnd(s, j + 1) > j + 1 then Some(s[j + 1..NonSemicolonEnd(s, j + 1)])
      else if NonSemicolonEnd(s, j) > j then Some(s[j..NonSemicolonEnd(s, j)])
      else None
  }

  /** The leftmost position from `i` on where `at` matches, and its value. */
  function SearchBbox(s: string, i: nat): Option<(nat, nat, nat, nat)>
    decreases |s| + 1 - i
  {
    if i > |s| then None else if BboxAt(s, i).Some? then BboxAt(s, i) else SearchBbox(s, i + 1)
  }

  function SearchPpageno(s: string, i: nat): Option<string>
    decreases |s| + 1 - i
  {
    if i > |s| then None else if PpagenoAt(s, i).Some? then PpagenoAt(s, i) else SearchPpageno(s, i + 1)
  }

  function SearchImage(s: string, i: nat): Option<string>
    decreases |s| + 1 - i
  {
    if i > |s| then None else if ImageAt(s, i).Some? then ImageAt(s, i) else SearchImage(s, i + 1)
  }

  function SearchXSource(s: string, i: nat): Option<string>
    decreases |s| + 1 - i
  {
    if i > |s| then None else if XSourceAt(s, i).Some? then XSourceAt(s, i) else SearchXSource(s, i + 1)
  }

  /** The `x_source` value as written: a quoted path keeps its closing quote. */
  function XSourceAsWritten(title: string): Option<string>
  {
    SearchXSource(title, 0)
  }

  /** The `x_source` value with the closing quote of a quoted path removed. */
  function XSource(title: string): (r: Option<string>)
    ensures r.Some? <==> XSourceAsWritten(title).Some?
    ensures r.Some? ==> (r.value == XSourceAsWritten(title).value
      || r.value + "\"" == XSourceAsWritten(title).value)
  {
    var v := XSourceAsWritten(title);
    if v.Some? && |v.value| >= 2 && v.value[|v.value| - 1] == '"' then
      assert v.value[..|v.value| - 1] + "\"" == v.value;
      Some(v.value[..|v.value| - 1])
    else v
  }

  /** A quoted source path is read with its closing quote. */
  lemma {:induction false} QuotedSourceKeepsQuote(p: string)
    requires p != [] && ';' !in p
    ensures XSourceAsWritten("x_source \"" + p + "\"") == Some(p + "\"")
    ensures XSource("x_source \"" + p + "\"") == Some(p)
  {
    var s := "x_source \"" + p + "\"";
    assert s[0..9] == "x_source ";
    assert s[9] == '"';
    assert s[10..] == p + "\"";
    assert ';' !in s[10..];
    NoSemicolonRunsToEnd(s, 10);
    assert OccursAt(s, "x_source ", 0);
    assert s[10..|s|] == p + "\"";
    assert XSourceAt(s, 0) == Some(p + "\"");
    assert (p + "\"")[..|p|] == p;
  }

  lemma {:induction false} NoSemicolonRunsToEnd(s: string, i: nat)
    requires i <= |s| && ';' !in s[i..]
    ensures NonSemicolonEnd(s, i) == |s|
    decreases |s| - i
  {
    if i < |s| {
      assert s[i] == s[i..][0];
      assert s[i + 1..] == s[i..][1..];
      NoSemicolonRunsToEnd(s, i + 1);
    }
  }

  /** The page identifier: `x_source`, else `ppageno`, else `image`. */
  function HocrPageId(title: string): Option<string>
  {
    var xs := XSource(title);
    if xs.Some? then xs
    else
      var pp := SearchPpageno(title, 0);
      if pp.Some? then pp else SearchImage(title, 0)
  }

  /** The box of a title: left, top, then width and height from the corners. */
  function HocrCoords(title: string): Option<Coords>
  {
    var b := SearchBbox(title, 0);
    if b.None? then None
    else
      var (ulx, uly, lrx, lry) := b.value;
      Some(Pixels(ulx, uly, lrx - ulx, lry - uly))
  }

  /** The title an hOCR producer writes for a box, its four numbers in decimal. */
  function BboxTitle(l: string, t: string, r: string, b: string): string
  {
    "bbox " + l + " " + t + " " + r + " " + b
  }

  /** A box title is read back as its corner, width and height. */
  lemma {:induction false} BboxTitleRead(l: string, t: string, r: string, b: string)
    requires l != [] && t != [] && r != [] && b != []
    requires AllDigits(l) && AllDigits(t) && AllDigits(r) && AllDigits(b)
    ensures HocrCoords(BboxTitle(l, t, r, b))
      == Some(Pixels(ParseNat(l), ParseNat(t), ParseNat(r) - ParseNat(l), ParseNat(b) - ParseNat(t)))
  {
    BboxTitleAt(l, t, r, b);
  }

  /** The box pattern matches a box title at its start. */
  lemma {:induction false} BboxTitleAt(l: string, t: string, r: string, b: string)
    requires l != [] && t != [] && r != [] && b != []
    requires AllDigits(l) && AllDigits(t) && AllDigits(r) && AllDigits(b)
    ensures BboxAt(BboxTitle(l, t, r, b), 0) == Some((ParseNat(l), ParseNat(t), ParseNat(r), ParseNat(b)))
  {
    TitleSlices(l, t, r, b);
    BboxFromParts(BboxTitle(l, t, r, b), l, t, r, b);
  }

  /** A string laid out as `bbox l t r b` matches the box pattern with those numbers. */
  lemma {:induction false} BboxFromParts(s: string, l: string, t: string, r: string, b: string)
    requires l != [] && t != [] && r != [] && b != []
    requires AllDigits(l) && AllDigits(t) && AllDigits(r) && AllDigits(b)
    requires var e1 := 5 + |l|;
      var e2 := e1 + 1 + |t|;
      var e3 := e2 + 1 + |r|;
      |s| == e3 + 1 + |b| && OccursAt(s, "bbox ", 0)
      && s[5..e1] == l && s[e1] == ' ' && s[e1 + 1..e2] == t && s[e2] == ' '
      && s[e2 + 1..e3] == r && s[e3] == ' ' && s[e3 + 1..|s|] == b
    ensures BboxAt(s, 0) == Some((ParseNat(l), ParseNat(t), ParseNat(r), ParseNat(b)))
  {
    var e1 := 5 + |l|;
    var e2 := e1 + 1 + |t|;
    var e3 := e2 + 1 + |r|;
    BboxDigits(s, 5, e1, l);
    BboxDigits(s, e1 + 1, e2, t);
    BboxDigits(s, e2 + 1, e3, r);
    BboxDigits(s, e3 + 1, |s|, b);
    BboxAtOf(s, 0, e1 + 1, e2 + 1, e3 + 1, |s|, ParseNat(l), ParseNat(t), ParseNat(r), ParseNat(b));
  }

  /** Where the parts of a box title lie. */
  lemma {:induction false} TitleSlices(L: string, T: string, R: string, B: string)
    ensures var s := BboxTitle(L, T, R, B);
      var e1 := 5 + |L|;
      var e2 := e1 + 1 + |T|;
      var e3 := e2 + 1 + |R|;
      |s| == e3 + 1 + |B| && OccursAt(s, "bbox ", 0)
      && s[5..e1] == L && s[e1] == ' ' && s[e1 + 1..e2] == T && s[e2] == ' '
      && s[e2 + 1..e3] == R && s[e3] == ' ' && s[e3 + 1..|s|] == B
  {
    var p1 := "bbox " + L;
    var p3 := p1 + " " + T;
    var p5 := p3 + " " + R;
    var s := p5 + " " + B;
    var e1, e2, e3 := |p1|, |p3|, |p5|;
    assert s[..e3] == p5 && s[e3] == ' ' && s[e3 + 1..] == B;
    assert p5[..e2] == p3 && p5[e2] == ' ' && p5[e2 + 1..] == R;
    assert p3[..e1] == p1 && p3[e1] == ' ' && p3[e1 + 1..] == T;
    assert p1[..5] == "bbox " && p1[5..] == L;
    assert s[5..e1] == p5[5..e1] == p3[5..e1] == p1[5..];
    assert s[e1 + 1..e2] == p5[e1 + 1..e2] == p3[e1 + 1..];
    assert s[e2 + 1..e3] == p5[e2 + 1..];
    assert s[e3 + 1..|s|] == B;
    assert s[0..5] == p1[..5];
  }

  /** Four numbers read one after the other make the box. */
  lemma {:induction false} BboxAtOf(s: string, i: nat, j1: nat, j2: nat, j3: nat, j4: nat, v1: nat, v2: nat, v3: nat, v4: nat)
    requires OccursAt(s, "bbox ", i)
    requires SpacedNumberAt(s, i + 5) == Some((v1, j1))
    requires SpacedNumberAt(s, j1) == Some((v2, j2))
    requires SpacedNumberAt(s, j2) == Some((v3, j3))
    requires NumberAt(s, j3) == Some((v4, j4))
    ensures BboxAt(s, i) == Some((v1, v2, v3, v4))
  {
  }

  /** One number of a box title is read where it was written. */
  lemma {:induction false} BboxDigits(s: string, i: nat, e: nat, n: string)
    requires i < e <= |s| && s[i..e] == n && AllDigits(n)
    requires e == |s| || s[e] == ' '
    ensures NumberAt(s, i) == Some((ParseNat(n), e))
    ensures e < |s| ==> SpacedNumberAt(s, i) == Some((ParseNat(n), e + 1))
  {
    DigitsEndOf(s, i, n);
  }

  // ---------------------------------------------------------------------
  // parse_hocr

  /** The word being read, and whether its alternatives are being read. */
  datatype HocrState = HocrState(out: seq<ParseEvent>, curWord: Option<ParseEvent>, inAlternatives: bool)

  /** The readings of a word inside its alternatives, joined by the alternative mark. */
  function Alternatives(current: Option<string>, tag: string, elemText: Option<string>): string
  {
    var alts := if Truthy(current) then [current.value] else [];
    var joined :=
      if tag == "ins" && Truthy(elemText) then [elemText.value] + alts
      else if tag == "del" && Truthy(elemText) then alts + [elemText.value]
      else alts;
    Join(joined, AlternativeMark)
  }

  lemma {:induction false} JoinPair(x: string, y: string, sep: string)
    ensures Join([x, y], sep) == x + sep + y
  {
    assert [x, y][1..] == [y];
  }

  /** Inside the alternatives an `ins` reading goes first and a `del` reading last; other elements add nothing. */
  lemma {:induction false} AlternativesOrder(current: Option<string>, tag: string, elemText: Option<string>)
    ensures Truthy(current) && tag == "ins" && Truthy(elemText) ==>
      Alternatives(current, tag, elemText) == elemText.value + AlternativeMark + current.value
    ensures Truthy(current) && tag == "del" && Truthy(elemText) ==>
      Alternatives(current, tag, elemText) == current.value + AlternativeMark + elemText.value
    ensures tag != "ins" && tag != "del" ==>
      Alternatives(current, tag, elemText) == (if Truthy(current) then current.value else [])
  {
    if Truthy(current) && Truthy(elemText) {
      JoinPair(elemText.value, current.value, AlternativeMark);
      JoinPair(current.value, elemText.value, AlternativeMark);
    }
  }

  /** What one XML event does to the reader's state; a box without a title raises TypeError. */
  function HocrStep(st: HocrState, ev: XmlEvent): Result<HocrState>
  {
    var cls := Get(ev.attrib, "class");
    var box := FromHocrClass(cls);
    var tag := LocalName(ev.tag);
    var inAlt := st.inAlternatives || (st.curWord.Some? && tag == "span" && cls == Some("alternatives"));
    var cur :=
      if ev.start && st.curWord.Some? && inAlt then
        Some(st.curWord.value.(text := Some(Alternatives(st.curWord.value.text, tag, ev.text))))
      else st.curWord;
    if box.None? then Ok(HocrState(st.out, cur, inAlt))
    else if !ev.start then
      var b := box.value;
      var flush := b == Word && cur.Some?;
      var ended := (if flush then st.out + [cur.value] else st.out) + [Bare(End, b)];
      Ok(HocrState(if b == Word && Truthy(ev.tail) then ended + [TextEvent(ev.tail.value)] else ended,
                   if flush then None else cur, if flush then false else inAlt))
    else
      var title := Get(ev.attrib, "title");
      if title.None? then Err("TypeError")
      else
        var evt := ParseEvent(Start, box, HocrPageId(title.value), HocrCoords(title.value), None);
        if box.value == Word then Ok(HocrState(st.out, Some(evt.(text := ev.text)), inAlt))
        else Ok(HocrState(st.out + [evt], cur, inAlt))
  }

  /** The state after a sequence of XML events from `st`, or the first error. */
  function HocrSteps(st: HocrState, events: seq<XmlEvent>): Result<HocrState>
    decreases |events|
  {
    if events == [] then Ok(st)
    else
      var prev := HocrSteps(st, events[..|events| - 1]);
      if prev.Err? then prev else HocrStep(prev.value, events[|events| - 1])
  }

  /** No word being read, outside any alternatives. */
  const HocrStart := HocrState([], None, false)

  /** The reader's state after the whole document. */
  function HocrRun(events: seq<XmlEvent>): Result<HocrState>
  {
    HocrSteps(HocrStart, events)
  }

  /** `parse_hocr` over the XML events of the entity-fixed document. */
  method ParseHocr(events: seq<XmlEvent>) returns (r: Result<seq<ParseEvent>>)
    ensures r.Err? <==> HocrRun(events).Err?
    ensures r.Err? ==> r.error == HocrRun(events).error
    ensures r.Ok? ==> r.value == HocrRun(events).value.out
  {
    var st := HocrStart;
    var i := 0;
    while i < |events|
      invariant 0 <= i <= |events|
      invariant HocrRun(events[..i]) == Ok(st)
    {
      HocrStepsSnoc(HocrStart, events, i);
      var next := HocrHandle(st, events[i]);
      if next.Err? {
        HocrErrorStays(HocrStart, events, i + 1);
        return Err(next.error);
      }
      st := next.value;
      i := i + 1;
    }
    assert events[..i] == events;
    r := Ok(st.out);
  }

  /** The body of `parse_hocr`'s loop: one XML event, updating the output and the reader's variables. */
  method HocrHandle(st: HocrState, ev: XmlEvent) returns (r: Result<HocrState>)
    ensures r == HocrStep(st, ev)
  {
    var out := st.out;
    var curWord := st.curWord;
    var inWordAlternatives := st.inAlternatives;
    var cls := Get(ev.attrib, "class");
    var box := FromHocrClass(cls);
    var tag := LocalName(ev.tag);
    if curWord.Some? && tag == "span" && cls == Some("alternatives") {
      inWordAlternatives := true;
    }
    if ev.start && curWord.Some? && inWordAlternatives {
      curWord := Some(curWord.value.(text := Some(Alternatives(curWord.value.text, tag, ev.text))));
    }
    if box.Some? {
      if !ev.start {
        if box.value == Word && curWord.Some? {
          out := out + [curWord.value];
          curWord := None;
          inWordAlternatives := false;
        }
        out := out + [Bare(End, box.value)];
        if box.value == Word && Truthy(ev.tail) {
          out := out + [TextEvent(ev.tail.value)];
        }
      } else {
        var title := Get(ev.attrib, "title");
        if title.None? {
          return Err("TypeError");
        }
        var evt := ParseEvent(Start, box, HocrPageId(title.value), HocrCoords(title.value), None);
        if box.value == Word {
          curWord := Some(evt.(text := ev.text));
        } else {
          out := out + [evt];
        }
      }
    }
    r := Ok(HocrState(out, curWord, inWordAlternatives));
  }

  lemma {:induction false} HocrStepsSnoc(st: HocrState, events: seq<XmlEvent>, i: nat)
    requires i < |events|
    ensures HocrSteps(st, events[..i + 1]) ==
      (if HocrSteps(st, events[..i]).Err? then HocrSteps(st, events[..i]) else HocrStep(HocrSteps(st, events[..i]).value, events[i]))
  {
    assert events[..i + 1][..i] == events[..i];
  }

  /** Once the reader has raised, the whole run ends in that error. */
  lemma {:induction false} HocrErrorStays(st: HocrState, events: seq<XmlEvent>, i: nat)
    requires i <= |events| && HocrSteps(st, events[..i]).Err?
    ensures HocrSteps(st, events) == HocrSteps(st, events[..i])
    decreases |events| - i
  {
    if i == |events| {
      assert events[..i] == events;
    } else {
      HocrStepsSnoc(st, events, i);
      HocrErrorStays(st, events, i + 1);
    }
  }

  /** A word start event. */
  predicate IsWordStart(e: ParseEvent)
  {
    e.kind == Start && e.boxType == Some(Word)
  }

  /**
   * The shape of the event stream: every word start is directly followed by
   * that word's end, and every text event directly follows a word's end.
   */
  predicate WordsClosed(s: seq<ParseEvent>)
  {
    (forall k :: 0 <= k < |s| && IsWordStart(s[k]) ==> k + 1 < |s| && s[k + 1] == Bare(End, Word))
    && (forall k :: 0 <= k < |s| && s[k].kind == Text ==> 0 < k && s[k - 1] == Bare(End, Word))
  }

  lemma {:induction false} WordsClosedAppend(a: seq<ParseEvent>, b: seq<ParseEvent>)
    requires WordsClosed(a) && WordsClosed(b)
    requires b != [] ==> b[0].kind != Text
    ensures WordsClosed(a + b)
  {
    var s := a + b;
    forall k | 0 <= k < |s| && IsWordStart(s[k])
      ensures k + 1 < |s| && s[k + 1] == Bare(End, Word)
    {
      if k < |a| {
        assert s[k] == a[k];
      } else {
        assert s[k] == b[k - |a|];
        assert s[k + 1] == b[k + 1 - |a|];
      }
    }
    forall k | 0 <= k < |s| && s[k].kind == Text
      ensures 0 < k && s[k - 1] == Bare(End, Word)
    {
      if k < |a| {
        assert s[k] == a[k];
      } else {
        assert s[k] == b[k - |a|];
        assert k - |a| > 0;
        assert s[k - 1] == b[k - 1 - |a|];
      }
    }
  }

  /** What a word end appends: the buffered word, the end, then the tail as text. */
  lemma {:induction false} WordEndShape(cur: Option<ParseEvent>, b: BoxType, tail: seq<ParseEvent>)
    requires cur.Some? ==> b == Word && IsWordStart(cur.value)
    requires tail != [] ==> b == Word && |tail| == 1 && tail[0].kind == Text
    ensures WordsClosed((if cur.Some? then [cur.value] else []) + [Bare(End, b)] + tail)
    ensures ((if cur.Some? then [cur.value] else []) + [Bare(End, b)] + tail)[0].kind != Text
  {
    var pre := if cur.Some? then [cur.value] else [];
    var s := pre + [Bare(End, b)] + tail;
    assert s[|pre|] == Bare(End, b);
    forall k | 0 <= k < |s| && IsWordStart(s[k])
      ensures k + 1 < |s| && s[k + 1] == Bare(End, Word)
    {
    }
    forall k | 0 <= k < |s| && s[k].kind == Text
      ensures 0 < k && s[k - 1] == Bare(End, Word)
    {
    }
  }

  /** The hOCR reader buffers each word until its end and emits its tail after it. */
  lemma {:induction false} HocrWordsClosed(events: seq<XmlEvent>)
    ensures HocrRun(events).Ok? ==> WordsClosed(HocrRun(events).value.out)
  {
    HocrStepsShape(HocrStart, events);
  }

  lemma {:induction false} HocrStepsShape(st: HocrState, events: seq<XmlEvent>)
    requires WordsClosed(st.out) && (st.curWord.Some? ==> IsWordStart(st.curWord.value))
    ensures HocrSteps(st, events).Ok? ==> WordsClosed(HocrSteps(st, events).value.out)
    ensures HocrSteps(st, events).Ok? && HocrSteps(st, events).value.curWord.Some? ==> IsWordStart(HocrSteps(st, events).value.curWord.value)
    decreases |events|
  {
    if events != [] {
      var init := events[..|events| - 1];
      HocrStepsShape(st, init);
      var prev := HocrSteps(st, init);
      if prev.Ok? {
        HocrStepShape(prev.value, events[|events| - 1]);
      }
    }
  }

  lemma {:induction false} HocrStepShape(st: HocrState, ev: XmlEvent)
    requires WordsClosed(st.out) && (st.curWord.Some? ==> IsWordStart(st.curWord.value))
    ensures HocrStep(st, ev).Ok? ==> WordsClosed(HocrStep(st, ev).value.out)
    ensures HocrStep(st, ev).Ok? && HocrStep(st, ev).value.curWord.Some? ==> IsWordStart(HocrStep(st, ev).value.curWord.value)
  {
    var cls := Get(ev.attrib, "class");
    var box := FromHocrClass(cls);
    var tag := LocalName(ev.tag);
    var inAlt := st.inAlternatives || (st.curWord.Some? && tag == "span" && cls == Some("alternatives"));
    var cur :=
      if ev.start && st.curWord.Some? && inAlt then
        Some(st.curWord.value.(text := Some(Alternatives(st.curWord.value.text, tag, ev.text))))
      else st.curWord;
    if box.Some? && !ev.start {
      HocrEndShape(st, ev, cur, inAlt, box.value);
    } else if box.Some? && ev.start && Get(ev.attrib, "title").Some? && box.value != Word {
      var title := Get(ev.attrib, "title").value;
      var evt := ParseEvent(Start, box, HocrPageId(title), HocrCoords(title), None);
      WordsClosedAppend(st.out, [evt]);
    }
  }

  /** Closing a box appends its end, after the buffered word and before its tail when it is a word. */
  lemma {:induction false} HocrEndShape(st: HocrState, ev: XmlEvent, cur: Option<ParseEvent>, inAlt: bool, b: BoxType)
    requires !ev.start && FromHocrClass(Get(ev.attrib, "class")) == Some(b)
    requires inAlt == (st.inAlternatives || (st.curWord.Some? && LocalName(ev.tag) == "span" && Get(ev.attrib, "class") == Some("alternatives")))
    requires cur == st.curWord
    requires WordsClosed(st.out) && (cur.Some? ==> IsWordStart(cur.value))
    ensures HocrStep(st, ev).Ok? && WordsClosed(HocrStep(st, ev).value.out)
    ensures HocrStep(st, ev).value.curWord.Some? ==> IsWordStart(HocrStep(st, ev).value.curWord.value)
  {
    var flush := b == Word && cur.Some?;
    var tail := if b == Word && Truthy(ev.tail) then [TextEvent(ev.tail.value)] else [];
    var added := (if flush then [cur.value] else []) + [Bare(End, b)] + tail;
    WordEndShape(if flush then cur else None, b, tail);
    WordsClosedAppend(st.out, added);
    var ended := (if flush then st.out + [cur.value] else st.out) + [Bare(End, b)];
    assert (if b == Word && Truthy(ev.tail) then ended + [TextEvent(ev.tail.value)] else ended) == st.out + added;
  }

  /** An `ins` or `del` element inside the alternatives, with no class of its own. */
  lemma {:induction false} HocrInsDel(st: HocrState, ev: XmlEvent, text: string)
    requires ev.start && ev.attrib == map[] && ev.text == Some(text) && (ev.tag == "ins" || ev.tag == "del")
    requires st.curWord.Some? && st.inAlternatives
    ensures HocrStep(st, ev) == Ok(st.(curWord := Some(st.curWord.value.(text := Some(Alternatives(st.curWord.value.text, ev.tag, ev.text))))))
  {
    assert LocalName(ev.tag) == ev.tag;
    HocrReadingInAlternatives(st, ev);
  }

  /** A word's start is held back, with its text, until the word ends. */
  lemma {:induction false} HocrWordOpens(st: HocrState, ev: XmlEvent)
    requires ev.start && Get(ev.attrib, "class") == Some("ocrx_word") && "title" in ev.attrib && st.curWord.None?
    ensures HocrStep(st, ev) == Ok(st.(curWord := Some(ParseEvent(Start, Some(Word), HocrPageId(ev.attrib["title"]),
                                                                  HocrCoords(ev.attrib["title"]), ev.text))))
  {
  }

  /** An `alternatives` span inside a word switches to reading alternatives and keeps the word's text. */
  lemma {:induction false} HocrAlternativesOpen(st: HocrState, ev: XmlEvent)
    requires ev.start && LocalName(ev.tag) == "span" && Get(ev.attrib, "class") == Some("alternatives")
    requires st.curWord.Some? && Truthy(st.curWord.value.text)
    ensures HocrStep(st, ev) == Ok(st.(inAlternatives := true))
  {
    AlternativesOrder(st.curWord.value.text, "span", ev.text);
    assert st.curWord.value.(text := Some(st.curWord.value.text.value)) == st.curWord.value;
  }

  /** While alternatives are read, every element that is no box adds its reading to the word's text. */
  lemma {:induction false} HocrReadingInAlternatives(st: HocrState, ev: XmlEvent)
    requires st.curWord.Some? && st.inAlternatives && FromHocrClass(Get(ev.attrib, "class")).None?
    ensures HocrStep(st, ev) == Ok(if ev.start then
        st.(curWord := Some(st.curWord.value.(text := Some(Alternatives(st.curWord.value.text, LocalName(ev.tag), ev.text)))))
      else st)
  {
  }

  /** A word's end releases the word, its end, then its tail as text, and leaves its alternatives. */
  lemma {:induction false} HocrWordCloses(st: HocrState, ev: XmlEvent)
    requires !ev.start && Get(ev.attrib, "class") == Some("ocrx_word") && st.curWord.Some?
    ensures HocrStep(st, ev) == Ok(HocrState(if Truthy(ev.tail) then st.out + [st.curWord.value, Bare(End, Word), TextEvent(ev.tail.value)]
                                             else st.out + [st.curWord.value, Bare(End, Word)], None, false))
  {
    assert st.out + [st.curWord.value] + [Bare(End, Word)] == st.out + [st.curWord.value, Bare(End, Word)];
    if Truthy(ev.tail) {
      assert st.out + [st.curWord.value] + [Bare(End, Word)] + [TextEvent(ev.tail.value)]
          == st.out + [st.curWord.value, Bare(End, Word), TextEvent(ev.tail.value)];
    }
  }

  // ---------------------------------------------------------------------
  // parse_alto

  /** The word being read, whether units are relative, and the page size they are relative to. */
  datatype AltoState = AltoState(out: seq<ParseEvent>, curWord: Option<ParseEvent>, useRelative: bool,
                                 reference: Option<(string, string)>)

  /** The text of an `ALTERNATIVE` appended to the word's text. */
  function WithAlternative(word: ParseEvent, alt: Option<string>): ParseEvent
  {
    word.(text := Some(PyStr(word.text) + AlternativeMark + PyStr(alt)))
  }

  /**
   * The coordinates of an element with all four of `HPOS`, `VPOS`, `WIDTH`,
   * `HEIGHT`: whole pixels (`int(float(v))`, given as `whole`), or, once
   * units are relative and a page size is known, four-decimal ratios to the
   * page size (`ratio`).
   */
  function AltoCoords(attrib: map<string, string>, relative: bool, reference: Option<(string, string)>,
                      whole: string -> int, ratio: (string, string) -> string): Option<Coords>
  {
    if "HPOS" in attrib && "VPOS" in attrib && "WIDTH" in attrib && "HEIGHT" in attrib then
      if relative && reference.Some? then
        var (w, h) := reference.value;
        Some(Relative(ratio(attrib["HPOS"], w), ratio(attrib["VPOS"], h), ratio(attrib["WIDTH"], w), ratio(attrib["HEIGHT"], h)))
      else Some(Pixels(whole(attrib["HPOS"]), whole(attrib["VPOS"]), whole(attrib["WIDTH"]), whole(attrib["HEIGHT"])))
    else None
  }

  /** The text of a `String`: its `CONTENT`, with a soft hyphen when it is the first part of a hyphenated word. */
  function AltoWordText(attrib: map<string, string>): (r: Option<string>)
    ensures Get(attrib, "SUBS_TYPE") == Some("HypPart1") ==> r == Some(PyStr(Get(attrib, "CONTENT")) + [SoftHyphen])
    ensures Get(attrib, "SUBS_TYPE") != Some("HypPart1") ==> r == Get(attrib, "CONTENT")
  {
    var content := Get(attrib, "CONTENT");
    if Get(attrib, "SUBS_TYPE") == Some("HypPart1") then Some(PyStr(content) + [SoftHyphen]) else content
  }

  /** What one XML event does to the reader's state; a relative page without a size raises KeyError. */
  function AltoStep(st: AltoState, ev: XmlEvent, whole: string -> int, ratio: (string, string) -> string): Result<AltoState>
  {
    var tag := LocalName(ev.tag);
    var out := if ev.start && tag == "SP" then st.out + [TextEvent(" ")] else st.out;
    var relative := st.useRelative || (ev.start && tag == "MeasurementUnit" && ev.text != Some("pixel"));
    var cur := if ev.start && tag == "ALTERNATIVE" && st.curWord.Some? then Some(WithAlternative(st.curWord.value, ev.text)) else st.curWord;
    var box := FromAltoTag(tag);
    if box.None? then Ok(AltoState(out, cur, relative, st.reference))
    else if !ev.start then
      var flush := box.value == Word && cur.Some?;
      Ok(AltoState((if flush then out + [cur.value] else out) + [Bare(End, box.value)],
                   if flush then None else cur, relative, st.reference))
    else if tag == "Page" && relative && !("WIDTH" in ev.attrib && "HEIGHT" in ev.attrib) then Err("KeyError")
    else
      var pageId := if tag == "Page" then Get(ev.attrib, "ID") else None;
      var reference := if tag == "Page" && relative then Some((ev.attrib["WIDTH"], ev.attrib["HEIGHT"])) else st.reference;
      var evt := ParseEvent(Start, box, pageId, AltoCoords(ev.attrib, relative, reference, whole, ratio), None);
      if box.value == Word then Ok(AltoState(out, Some(evt.(text := AltoWordText(ev.attrib))), relative, reference))
      else Ok(AltoState(out + [evt], cur, relative, reference))
  }

  function AltoRun(events: seq<XmlEvent>, whole: string -> int, ratio: (string, string) -> string): Result<AltoState>
    decreases |events|
  {
    if events == [] then Ok(AltoState([], None, false, None))
    else
      var prev := AltoRun(events[..|events| - 1], whole, ratio);
      if prev.Err? then prev else AltoStep(prev.value, events[|events| - 1], whole, ratio)
  }

  lemma {:induction false} AltoRunSnoc(events: seq<XmlEvent>, i: nat, whole: string -> int, ratio: (string, string) -> string)
    requires i < |events|
    ensures AltoRun(events[..i + 1], whole, ratio) ==
      (if AltoRun(events[..i], whole, ratio).Err? then AltoRun(events[..i], whole, ratio)
       else AltoStep(AltoRun(events[..i], whole, ratio).value, events[i], whole, ratio))
  {
    assert events[..i + 1][..i] == events[..i];
  }

  /** Once the reader has raised, the whole run ends in that error. */
  lemma {:induction false} AltoErrorStays(events: seq<XmlEvent>, i: nat, whole: string -> int, ratio: (string, string) -> string)
    requires i <= |events| && AltoRun(events[..i], whole, ratio).Err?
    ensures AltoRun(events, whole, ratio) == AltoRun(events[..i], whole, ratio)
    decreases |events| - i
  {
    if i == |events| {
      assert events[..i] == events;
    } else {
      AltoRunSnoc(events, i, whole, ratio);
      AltoErrorStays(events, i + 1, whole, ratio);
    }
  }

  /** `parse_alto` over the XML events of the document. */
  method ParseAlto(events: seq<XmlEvent>, whole: string -> int, ratio: (string, string) -> string)
    returns (r: Result<seq<ParseEvent>>)
    ensures r.Err? <==> AltoRun(events, whole, ratio).Err?
    ensures r.Err? ==> r.error == AltoRun(events, whole, ratio).error
    ensures r.Ok? ==> r.value == AltoRun(events, whole, ratio).value.out
  {
    var st := AltoState([], None, false, None);
    var i := 0;
    while i < |events|
      invariant 0 <= i <= |events|
      invariant AltoRun(events[..i], whole, ratio) == Ok(st)
    {
      AltoRunSnoc(events, i, whole, ratio);
      var next := AltoHandle(st, events[i], whole, ratio);
      if next.Err? {
        AltoErrorStays(events, i + 1, whole, ratio);
        return Err(next.error);
      }
      st := next.value;
      i := i + 1;
    }
    assert events[..i] == events;
    r := Ok(st.out);
  }

  /** The body of `parse_alto`'s loop: one XML event, updating the output and the reader's variables. */
  method AltoHandle(st: AltoState, ev: XmlEvent, whole: string -> int, ratio: (string, string) -> string)
    returns (r: Result<AltoState>)
    ensures r == AltoStep(st, ev, whole, ratio)
  {
    var out := st.out;
    var useRelative := st.useRelative;
    var relativeReference := st.reference;
    var curWord := st.curWord;
    var tag := LocalName(ev.tag);
    if ev.start {
      if tag == "SP" {
        out := out + [TextEvent(" ")];
      }
      if tag == "MeasurementUnit" && ev.text != Some("pixel") {
        useRelative := true;
      }
      if tag == "ALTERNATIVE" && curWord.Some? {
        curWord := Some(WithAlternative(curWord.value, ev.text));
      }
    }
    var box := FromAltoTag(tag);
    if box.Some? {
      if !ev.start {
        if box.value == Word && curWord.Some? {
          out := out + [curWord.value];
          curWord := None;
        }
        out := out + [Bare(End, box.value)];
      } else {
        var pageId: Option<string> := None;
        if tag == "Page" {
          pageId := Get(ev.attrib, "ID");
          if useRelative {
            if !("WIDTH" in ev.attrib && "HEIGHT" in ev.attrib) {
              return Err("KeyError");
            }
            relativeReference := Some((ev.attrib["WIDTH"], ev.attrib["HEIGHT"]));
          }
        }
        var evt := ParseEvent(Start, box, pageId, AltoCoords(ev.attrib, useRelative, relativeReference, whole, ratio), None);
        if box.value == Word {
          curWord := Some(evt.(text := AltoWordText(ev.attrib)));
        } else {
          out := out + [evt];
        }
      }
    }
    r := Ok(AltoState(out, curWord, useRelative, relativeReference));
  }

  /** The ALTO reader, too, emits each word together with its end; its text events stand for `SP`. */
  lemma {:induction false} AltoWordsBuffered(events: seq<XmlEvent>, whole: string -> int, ratio: (string, string) -> string)
    ensures var r := AltoRun(events, whole, ratio);
      r.Ok? ==> AltoShape(r.value.out)
    ensures var r := AltoRun(events, whole, ratio);
      r.Ok? && r.value.curWord.Some? ==> IsWordStart(r.value.curWord.value)
    decreases |events|
  {
    if events != [] {
      var init := events[..|events| - 1];
      AltoWordsBuffered(init, whole, ratio);
      var prev := AltoRun(init, whole, ratio);
      if prev.Ok? {
        AltoStepShape(prev.value, events[|events| - 1], whole, ratio);
      }
    }
  }

  /** Words are followed by their end, and text events are spaces. */
  predicate AltoShape(s: seq<ParseEvent>)
  {
    (forall k :: 0 <= k < |s| && IsWordStart(s[k]) ==> k + 1 < |s| && s[k + 1] == Bare(End, Word))
    && (forall k :: 0 <= k < |s| && s[k].kind == Text ==> s[k] == TextEvent(" "))
  }

  lemma {:induction false} AltoShapeAppend(a: seq<ParseEvent>, b: seq<ParseEvent>)
    requires AltoShape(a) && AltoShape(b)
    ensures AltoShape(a + b)
  {
    var s := a + b;
    forall k | 0 <= k < |s| && IsWordStart(s[k])
      ensures k + 1 < |s| && s[k + 1] == Bare(End, Word)
    {
      if k < |a| {
        assert s[k] == a[k];
      } else {
        assert s[k] == b[k - |a|];
        assert s[k + 1] == b[k + 1 - |a|];
      }
    }
    forall k | 0 <= k < |s| && s[k].kind == Text
      ensures s[k] == TextEvent(" ")
    {
      if k < |a| {
        assert s[k] == a[k];
      } else {
        assert s[k] == b[k - |a|];
      }
    }
  }

  lemma {:induction false} AltoStepShape(st: AltoState, ev: XmlEvent, whole: string -> int, ratio: (string, string) -> string)
    requires AltoShape(st.out) && (st.curWord.Some? ==> IsWordStart(st.curWord.value))
    ensures var r := AltoStep(st, ev, whole, ratio);
      r.Ok? ==> AltoShape(r.value.out) && (r.value.curWord.Some? ==> IsWordStart(r.value.curWord.value))
  {
    var tag := LocalName(ev.tag);
    var out := if ev.start && tag == "SP" then st.out + [TextEvent(" ")] else st.out;
    AltoShapeAppend(st.out, [TextEvent(" ")]);
    var cur := if ev.start && tag == "ALTERNATIVE" && st.curWord.Some? then Some(WithAlternative(st.curWord.value, ev.text)) else st.curWord;
    var box := FromAltoTag(tag);
    if box.Some? && !ev.start {
      AltoEndShape(st, ev, out, cur, box.value, whole, ratio);
    } else if box.Some? && ev.start {
      AltoOpenShape(st, ev, out, cur, box.value, whole, ratio);
    }
  }

  /** Closing a box appends its end, after the buffered word when it is a word. */
  lemma {:induction false} AltoEndShape(st: AltoState, ev: XmlEvent, out: seq<ParseEvent>, cur: Option<ParseEvent>, b: BoxType,
                                        whole: string -> int, ratio: (string, string) -> string)
    requires !ev.start && FromAltoTag(LocalName(ev.tag)) == Some(b) && out == st.out && cur == st.curWord
    requires AltoShape(out) && (cur.Some? ==> IsWordStart(cur.value))
    ensures var r := AltoStep(st, ev, whole, ratio);
      r.Ok? && AltoShape(r.value.out) && (r.value.curWord.Some? ==> IsWordStart(r.value.curWord.value))
  {
    var flush := b == Word && cur.Some?;
    var added := (if flush then [cur.value] else []) + [Bare(End, b)];
    if flush {
      assert added[1] == Bare(End, Word);
    }
    assert AltoShape(added);
    AltoShapeAppend(out, added);
    assert (if flush then out + [cur.value] else out) + [Bare(End, b)] == out + added;
  }

  /** Opening a box buffers a word, or appends the start of any other box. */
  lemma {:induction false} AltoOpenShape(st: AltoState, ev: XmlEvent, out: seq<ParseEvent>, cur: Option<ParseEvent>, b: BoxType,
                                         whole: string -> int, ratio: (string, string) -> string)
    requires ev.start && FromAltoTag(LocalName(ev.tag)) == Some(b)
    requires out == (if LocalName(ev.tag) == "SP" then st.out + [TextEvent(" ")] else st.out)
    requires cur == (if LocalName(ev.tag) == "ALTERNATIVE" && st.curWord.Some? then Some(WithAlternative(st.curWord.value, ev.text)) else st.curWord)
    requires AltoShape(out) && (st.curWord.Some? ==> IsWordStart(st.curWord.value))
    ensures var r := AltoStep(st, ev, whole, ratio);
      r.Ok? ==> AltoShape(r.value.out) && (r.value.curWord.Some? ==> IsWordStart(r.value.curWord.value))
  {
    FromAltoTagRecognises(LocalName(ev.tag));
    assert out == st.out && cur == st.curWord;
    if b != Word {
      forall evt: ParseEvent | evt.kind == Start && evt.boxType == Some(b)
        ensures AltoShape(out + [evt])
      {
        AltoShapeAppend(out, [evt]);
      }
    }
  }

  /** The first half of a hyphenated word is read with a soft hyphen after its content. */
  lemma {:induction false} AltoHyphenatedWordOpens(st: AltoState, ev: XmlEvent, c: string,
                                                   whole: string -> int, ratio: (string, string) -> string)
    requires ev.start && LocalName(ev.tag) == "String"
    requires Get(ev.attrib, "CONTENT") == Some(c) && Get(ev.attrib, "SUBS_TYPE") == Some("HypPart1")
    ensures AltoStep(st, ev, whole, ratio) == Ok(st.(curWord := Some(ParseEvent(Start, Some(Word), None,
      AltoCoords(ev.attrib, st.useRelative, st.reference, whole, ratio), Some(c + [SoftHyphen])))))
  {
  }

  /** A space between words on a line is read as a one-space text event. */
  lemma {:induction false} AltoSpaceRead(st: AltoState, ev: XmlEvent, whole: string -> int, ratio: (string, string) -> string)
    requires ev.start && LocalName(ev.tag) == "SP"
    ensures AltoStep(st, ev, whole, ratio) == Ok(st.(out := st.out + [TextEvent(" ")]))
  {
  }

  /**
   * A line whose last word is the first half of a hyphenated word is closed
   * without the space that otherwise follows a line, so the two halves join.
   */
  lemma {:induction false} AltoHyphenJoinsLines(pre: seq<ParseEvent>, word: ParseEvent, c: string)
    requires IsWordStart(word) && word.text == Some(c + [SoftHyphen])
    ensures WriteAll(pre + [word, Bare(End, Word), Bare(End, Line)]).chunks
         == WriteAll(pre + [word, Bare(End, Word)]).chunks + ["</l>"]
  {
    var events := pre + [word, Bare(End, Word), Bare(End, Line)];
    var n := |pre|;
    assert events[..n + 2] == pre + [word, Bare(End, Word)];
    assert events[..n + 2][..n + 1] == pre + [word];
    assert (pre + [word])[n] == word;
    assert LastTextHyphen(events[..n + 2]);
    LineEndSpacing(events, n + 2);
    assert events[..n + 3] == events;
  }

  // ---------------------------------------------------------------------
  // main

  datatype Dialect = Hocr | Alto

  /** The bytes of `<alto`. */
  const AltoMarker: seq<Byte> := [0x3C, 0x61, 0x6C, 0x74, 0x6F]

  /** `b'<alto' in input[:512]`: the document is ALTO when its first 512 bytes mention the root element. */
  function DetectDialect(input: seq<Byte>): Dialect
  {
    if IndexOf(input[..Min(|input|, 512)], AltoMarker, 0) >= 0 then Alto else Hocr
  }

  /** The dialect is ALTO exactly when `<alto` lies wholly within the first 512 bytes. */
  lemma {:induction false} DialectFromHeader(input: seq<Byte>)
    ensures DetectDialect(input) == Alto <==>
      exists i :: 0 <= i && i + 5 <= Min(|input|, 512) && OccursAt(input, AltoMarker, i)
  {
    var head := input[..Min(|input|, 512)];
    forall i | 0 <= i && i + 5 <= |head|
      ensures OccursAt(head, AltoMarker, i) <==> OccursAt(input, AltoMarker, i)
    {
      assert head[i..i + 5] == input[i..i + 5];
    }
    if DetectDialect(input) == Alto {
      var i := IndexOf(head, AltoMarker, 0);
      assert OccursAt(input, AltoMarker, i);
    }
  }

  /** Nothing after the first 512 bytes changes the choice. */
  lemma {:induction false} DialectIgnoresTail(input: seq<Byte>, more: seq<Byte>)
    requires |input| >= 512
    ensures DetectDialect(input + more) == DetectDialect(input)
  {
    assert (input + more)[..512] == input[..512];
  }

  /**
   * `main`: the dialect decides the reader; hOCR is decoded (`decode`), its
   * named entities fixed, and then parsed; ALTO is parsed from its bytes.
   * The two XML parsers are given as `hocrXml` and `altoXml`.
   */
  method Convert(input: seq<Byte>, decode: seq<Byte> -> string, names: seq<string>, expansion: string -> string,
                 hocrXml: string -> seq<XmlEvent>, altoXml: seq<Byte> -> seq<XmlEvent>,
                 whole: string -> int, ratio: (string, string) -> string)
    returns (r: Result<seq<string>>)
    ensures DetectDialect(input) == Alto ==>
      r == (var p := AltoRun(altoXml(input), whole, ratio);
            if p.Err? then Err(p.error) else Ok(["<ocr>"] + WriteAll(p.value.out).chunks + ["</ocr>"]))
    ensures DetectDialect(input) == Hocr ==>
      r == (var p := HocrRun(hocrXml(FixEntities(decode(input), names, expansion)));
            if p.Err? then Err(p.error) else Ok(["<ocr>"] + WriteAll(p.value.out).chunks + ["</ocr>"]))
  {
    var parsed: Result<seq<ParseEvent>>;
    if IndexOf(input[..Min(|input|, 512)], AltoMarker, 0) >= 0 {
      parsed := ParseAlto(altoXml(input), whole, ratio);
    } else {
      parsed := ParseHocr(hocrXml(FixEntities(decode(input), names, expansion)));
    }
    if parsed.Err? {
      return Err(parsed.error);
    }
    var chunks := GenerateMiniOcr(parsed.value);
    r := Ok(chunks);
  }
}
