/**
 * The hOCR parser: it pulls events from an XML stream and turns each
 * `ocrx_word` span into an `OcrBox`, joining the halves of words split
 * across lines, collecting the text between words as the box's trailing
 * chars, and following page changes.
 *
 * The XML stream is a sequence of events and a cursor; the event the
 * cursor has just passed is the reader's current event.
 */
module HocrParser {
  import opened Common
  import opened OcrFormat
  import opened OcrParser

  /** One event of the XML stream, as far as the parser looks at it. */
  datatype XmlEvent =
    | StartElement(name: string, attributes: map<string, string>)
    | EndElement(name: string)
    | Characters(text: string, offset: int)
    | Space(text: string)
    | OtherEvent

  /** `getAttributeValue("", key)` on an element start; null elsewhere. */
  function Attr(ev: XmlEvent, key: string): Option<string>
  {
    if ev.StartElement? && key in ev.attributes then Some(ev.attributes[key]) else None
  }

  /** The event starts a `name` element of the given hOCR class. */
  predicate HasClass(ev: XmlEvent, name: string, hocrClass: string)
  {
    ev.StartElement? && ev.name == name && Attr(ev, "class") == Some(hocrClass)
  }

  /** The event starts a word. */
  predicate IsWordStart(ev: XmlEvent) { HasClass(ev, "span", "ocrx_word") }

  /** `map.get(key)`. */
  function Lookup(m: map<string, string>, key: string): Option<string>
  {
    if key in m then Some(m[key]) else None
  }

  // ---------------------------------------------------------------------
  // Titles

  /** The value is wrapped in a matching pair of double or single quotes (a lone quote counts). */
  predicate QuotedForm(v: string)
  {
    v != [] && (v[0] == '"' || v[0] == '\'') && v[|v| - 1] == v[0]
  }

  /**
   * A quoted value loses its quotes. A lone quote char looks quoted at
   * both ends and makes `substring(1, 0)` fail.
   */
  function Unquote(v: string): (r: Result<string>)
    ensures r.Err? <==> |v| == 1 && QuotedForm(v)
    ensures r.Ok? ==> |r.value| == (if QuotedForm(v) then |v| - 2 else |v|)
  {
    if QuotedForm(v) then
      if |v| < 2 then Err("StringIndexOutOfBoundsException") else Ok(v[1..|v| - 1])
    else Ok(v)
  }

  /** Quoting a value and unquoting it gives the value back. */
  lemma UnquoteQuoted(v: string, q: char)
    requires q == '"' || q == '\''
    ensures Unquote([q] + v + [q]) == Ok(v)
  {
    assert ([q] + v + [q])[1..|v| + 1] == v;
  }

  /** One `key value` part of a title: the key ends at the first space from index 3. */
  function TitleEntry(part: string): (r: Result<(string, string)>)
    ensures r.Err? <==> IndexOfChar(part, ' ', 3) < 0 || Unquote(Trim(part[IndexOfChar(part, ' ', 3) + 1..])).Err?
    ensures r.Ok? ==> var i := IndexOfChar(part, ' ', 3);
      r.value.0 == Trim(part[..i]) && r.value.1 == Unquote(Trim(part[i + 1..])).value
  {
    var spaceIdx := IndexOfChar(part, ' ', 3);
    if spaceIdx < 0 then Err("StringIndexOutOfBoundsException")
    else
      var value :- Unquote(Trim(part[spaceIdx + 1..]));
      Ok((Trim(part[..spaceIdx]), value))
  }

  /** The entries of the parts put into `m` one after the other; a later key wins. */
  function PutEntries(m: map<string, string>, parts: seq<string>): (r: Result<map<string, string>>)
    ensures r.Ok? ==> m.Keys <= r.value.Keys
    decreases |parts|
  {
    if parts == [] then Ok(m)
    else
      var entry :- TitleEntry(parts[0]);
      PutEntries(m[entry.0 := entry.1], parts[1..])
  }

  /** `parseTitle`: the properties of an hOCR `title` attribute; none when there is no title. */
  function ParseTitle(title: Option<string>): (r: Result<map<string, string>>)
    ensures title.None? ==> r == Ok(map[])
  {
    if title.None? then Ok(map[]) else PutEntries(map[], JavaSplit(title.value, ';'))
  }

  /** A key as hOCR writes it: at least three visible chars, no ';'. */
  predicate KeyForm(k: string)
  {
    |k| >= 3 && forall i :: 0 <= i < |k| ==> k[i] > ' ' && k[i] != ';'
  }

  /** A value as hOCR writes it: no ';', no surrounding blanks, not quoted. */
  predicate ValueForm(v: string)
  {
    ';' !in v && (v != [] ==> v[0] > ' ' && v[|v| - 1] > ' ') && !QuotedForm(v)
  }

  /** The parts of a title holding the pairs, the first led by `lead` and the others by the ' ' after a ';'. */
  function TitleParts(pairs: seq<(string, string)>, lead: string): (parts: seq<string>)
    ensures |parts| == |pairs|
    decreases |pairs|
  {
    if pairs == [] then [] else [lead + pairs[0].0 + " " + pairs[0].1] + TitleParts(pairs[1..], " ")
  }

  /** A title written the way hOCR writes one: `key value; key value`. */
  function FormatTitle(pairs: seq<(string, string)>): string
  {
    Join(TitleParts(pairs, ""), ";")
  }

  /** The pairs put into a map one after the other. */
  function PairsMap(m: map<string, string>, pairs: seq<(string, string)>): map<string, string>
    decreases |pairs|
  {
    if pairs == [] then m else PairsMap(m[pairs[0].0 := pairs[0].1], pairs[1..])
  }

  /** In a written part the key ends at the first space from index 3. */
  lemma KeyEnds(lead: string, k: string, v: string)
    requires lead == "" || lead == " "
    requires KeyForm(k)
    ensures IndexOfChar(lead + k + " " + v, ' ', 3) == |lead| + |k|
  {
    var part := lead + k + " " + v;
    var i := |lead| + |k|;
    assert part[i] == ' ';
    assert forall j :: 3 <= j < i ==> part[j] == k[j - |lead|];
  }

  /** A key led by at most one space is trimmed to itself. */
  lemma TrimKey(lead: string, k: string)
    requires lead == "" || lead == " "
    requires KeyForm(k)
    ensures Trim(lead + k) == k
  {
    if lead == " " {
      assert (lead + k)[1..] == k;
      assert TrimStart(lead + k) == TrimStart(k);
    }
  }

  /** Reading one written part gives its pair back. */
  lemma TitleEntryOfPart(lead: string, k: string, v: string)
    requires lead == "" || lead == " "
    requires KeyForm(k) && ValueForm(v)
    ensures TitleEntry(lead + k + " " + v) == Ok((k, v))
  {
    var part := lead + k + " " + v;
    var i := |lead| + |k|;
    KeyEnds(lead, k, v);
    TrimKey(lead, k);
    ConcatAssoc(lead + k, " ", v);
    PrefixOfConcat(lead + k, " " + v);
    SuffixOfConcat(lead + k + " ", v);
    var t := Trim(v);
    assert t == v by {
      if v == [] {
        assert |t| <= 0;
      }
    }
    assert Unquote(t) == Ok(v);
  }

  /** Parsing the parts of a written title gives the pairs, put in order. */
  lemma {:induction false} PutEntriesOfParts(m: map<string, string>, pairs: seq<(string, string)>, lead: string)
    requires lead == "" || lead == " "
    requires forall i :: 0 <= i < |pairs| ==> KeyForm(pairs[i].0) && ValueForm(pairs[i].1)
    ensures PutEntries(m, TitleParts(pairs, lead)) == Ok(PairsMap(m, pairs))
    decreases |pairs|
  {
    if pairs != [] {
      FirstEntry(m, pairs, lead);
      forall i | 0 <= i < |pairs| - 1
        ensures KeyForm(pairs[1..][i].0) && ValueForm(pairs[1..][i].1)
      {
        assert pairs[1..][i] == pairs[i + 1];
      }
      PutEntriesOfParts(m[pairs[0].0 := pairs[0].1], pairs[1..], " ");
    }
  }

  /** The first written part puts the first pair. */
  lemma FirstEntry(m: map<string, string>, pairs: seq<(string, string)>, lead: string)
    requires pairs != [] && (lead == "" || lead == " ")
    requires KeyForm(pairs[0].0) && ValueForm(pairs[0].1)
    ensures PutEntries(m, TitleParts(pairs, lead)) == PutEntries(m[pairs[0].0 := pairs[0].1], TitleParts(pairs[1..], " "))
  {
    var parts := TitleParts(pairs, lead);
    TitleEntryOfPart(lead, pairs[0].0, pairs[0].1);
    assert TitleEntry(parts[0]) == Ok((pairs[0].0, pairs[0].1));
    assert parts[1..] == TitleParts(pairs[1..], " ");
  }

  /** No part of a written title holds a ';', and none is empty. */
  lemma {:induction false} TitlePartsFree(pairs: seq<(string, string)>, lead: string)
    requires lead == "" || lead == " "
    requires forall i :: 0 <= i < |pairs| ==> KeyForm(pairs[i].0) && ValueForm(pairs[i].1)
    ensures forall i :: 0 <= i < |pairs| ==> ';' !in TitleParts(pairs, lead)[i] && TitleParts(pairs, lead)[i] != []
    decreases |pairs|
  {
    if pairs != [] {
      TitlePartsFree(pairs[1..], " ");
      var parts := TitleParts(pairs, lead);
      var first := lead + pairs[0].0 + " " + pairs[0].1;
      assert ';' !in first by {
        forall c | c in first
          ensures c != ';'
        {
          assert c in lead || c in pairs[0].0 || c == ' ' || c in pairs[0].1;
        }
      }
      assert forall i :: 1 <= i < |pairs| ==> parts[i] == TitleParts(pairs[1..], " ")[i - 1];
    }
  }

  /** Reading a title written from key-value pairs gives those pairs, a later key winning. */
  lemma {:induction false} ParseFormattedTitle(pairs: seq<(string, string)>)
    requires |pairs| >= 1
    requires forall i :: 0 <= i < |pairs| ==> KeyForm(pairs[i].0) && ValueForm(pairs[i].1)
    ensures ParseTitle(Some(FormatTitle(pairs))) == Ok(PairsMap(map[], pairs))
  {
    TitlePartsFree(pairs, "");
    JavaSplitJoin(TitleParts(pairs, ""), ';');
    PutEntriesOfParts(map[], pairs, "");
  }

  // ---------------------------------------------------------------------
  // Coordinates

  /** `parseCoordinates`: the first four integers of `bbox` become ulx, uly, lrx, lry. */
  function ParseCoordinates(box: OcrBox, bbox: Option<string>): (r: Result<OcrBox>)
    ensures bbox.None? ==> r == Err("NullPointerException")
    // fields the bbox has no part for are kept
    ensures r.Ok? ==> var n := |JavaSplit(bbox.value, ' ')|;
      r.value == box.(ulx := r.value.ulx, uly := r.value.uly, lrx := r.value.lrx, lry := r.value.lry) &&
      (n <= 0 ==> r.value.ulx == box.ulx) && (n <= 1 ==> r.value.uly == box.uly) &&
      (n <= 2 ==> r.value.lrx == box.lrx) && (n <= 3 ==> r.value.lry == box.lry)
  {
    if bbox.None? then Err("NullPointerException")
    else
      var parts := JavaSplit(bbox.value, ' ');
      var ulx :- if |parts| > 0 then ParseInt(parts[0]) else Ok(box.ulx);
      var uly :- if |parts| > 1 then ParseInt(parts[1]) else Ok(box.uly);
      var lrx :- if |parts| > 2 then ParseInt(parts[2]) else Ok(box.lrx);
      var lry :- if |parts| > 3 then ParseInt(parts[3]) else Ok(box.lry);
      Ok(box.(ulx := ulx, uly := uly, lrx := lrx, lry := lry))
  }

  /** Four integers written with single spaces. */
  function FormatBbox(l: int, t: int, r: int, b: int): string
  {
    Join([IntToString(l), IntToString(t), IntToString(r), IntToString(b)], " ")
  }

  /** Splitting a written bbox on ' ' gives its four numbers. */
  lemma SplitBbox(l: int, t: int, r: int, b: int)
    ensures JavaSplit(FormatBbox(l, t, r, b), ' ') == [IntToString(l), IntToString(t), IntToString(r), IntToString(b)]
  {
    var parts := [IntToString(l), IntToString(t), IntToString(r), IntToString(b)];
    forall i | 0 <= i < 4
      ensures ' ' !in parts[i]
    {
      var s := parts[i];
      assert forall k :: 0 <= k < |s| ==> s[k] == '-' || IsAsciiDigit(s[k]);
    }
    JavaSplitJoin(parts, ' ');
  }

  /** A bbox written from four `int`s sets exactly those four coordinates. */
  lemma ParseFormattedBbox(box: OcrBox, l: int, t: int, r: int, b: int)
    requires IsInt32(l) && IsInt32(t) && IsInt32(r) && IsInt32(b)
    ensures ParseCoordinates(box, Some(FormatBbox(l, t, r, b))) == Ok(box.(ulx := l, uly := t, lrx := r, lry := b))
  {
    SplitBbox(l, t, r, b);
    ParseIntToString(l);
    ParseIntToString(t);
    ParseIntToString(r);
    ParseIntToString(b);
  }

  // ---------------------------------------------------------------------
  // Pages

  /** The page size from a page's bbox: its third and fourth numbers. */
  function BboxSize(bbox: string): (r: Result<Option<Dimension>>)
    ensures r.Ok? ==> r.value.Some?
    ensures |JavaSplit(bbox, ' ')| < 4 ==> r.Err?
  {
    var parts := JavaSplit(bbox, ' ');
    if |parts| <= 2 then Err("ArrayIndexOutOfBoundsException")
    else
      var width :- ParseInt(parts[2]);
      if |parts| <= 3 then Err("ArrayIndexOutOfBoundsException")
      else
        var height :- ParseInt(parts[3]);
        Ok(Some(Dimension(width, height)))
  }

  /** The identifier a page is known by: its `id`, else `x_source`, else `ppageno`. */
  function PageIdOf(ev: XmlEvent, props: map<string, string>): Option<string>
  {
    if Attr(ev, "id").Some? then Attr(ev, "id")
    else if "x_source" in props then Some(props["x_source"])
    else Lookup(props, "ppageno")
  }

  /** The page an `ocr_page` element starts. */
  function PageOf(ev: XmlEvent): (r: Result<OcrPage>)
    ensures r.Ok? ==> ParseTitle(Attr(ev, "title")).Ok? && Some(r.value.id) == PageIdOf(ev, ParseTitle(Attr(ev, "title")).value)
    ensures ParseTitle(Attr(ev, "title")).Ok? && "bbox" !in ParseTitle(Attr(ev, "title")).value ==>
      r == NewPage(PageIdOf(ev, ParseTitle(Attr(ev, "title")).value), None)
  {
    var props :- ParseTitle(Attr(ev, "title"));
    var dims :- if "bbox" in props then BboxSize(props["bbox"]) else Ok(None);
    NewPage(PageIdOf(ev, props), dims)
  }

  /** A page with an `id` attribute and a four-number bbox is known by that id and sized by the bbox. */
  lemma PageWithBbox(ev: XmlEvent, l: int, t: int, w: int, h: int)
    requires ev.StartElement? && "id" in ev.attributes && IsInt32(w) && IsInt32(h)
    requires ParseTitle(Attr(ev, "title")) == Ok(map["bbox" := FormatBbox(l, t, w, h)])
    ensures PageOf(ev) == Ok(OcrPage(ev.attributes["id"], Some(Dimension(w, h))))
  {
    SplitBbox(l, t, w, h);
    ParseIntToString(w);
    ParseIntToString(h);
  }

  // ---------------------------------------------------------------------
  // Text between words

  /** The text collected between words after one more text node. */
  function Collect(trailing: string, text: string): (r: string)
    // blank text adds a single ' ', and none after a ' '
    ensures IsBlank(text) ==> r == trailing || (r == trailing + " " && (trailing == [] || trailing[|trailing| - 1] != ' '))
    ensures IsBlank(text) ==> r != [] && r[|r| - 1] == ' '
    // other text is kept as it is
    ensures !IsBlank(text) ==> r == trailing + text
  {
    if IsBlank(text) then
      if trailing == [] || trailing[|trailing| - 1] != ' ' then trailing + " " else trailing
    else trailing + text
  }

  /** What the parser has gathered between two words: the trailing chars and the current page. */
  datatype Gap = Gap(trailing: string, page: Option<OcrPage>)

  /** One event between two words. */
  function GapStep(g: Gap, ev: XmlEvent, trackPages: bool): (r: Result<Gap>)
    // a line start adds a ' ' only when none was collected yet
    ensures HasClass(ev, "span", "ocr_line") ==>
      r == Ok(if ' ' in g.trailing then g else g.(trailing := g.trailing + " "))
    ensures r.Ok? && r.value.page != g.page ==> trackPages && HasClass(ev, "div", "ocr_page")
  {
    if ev.StartElement? then
      if HasClass(ev, "span", "ocr_line") && ' ' !in g.trailing then Ok(g.(trailing := g.trailing + " "))
      else if trackPages && HasClass(ev, "div", "ocr_page") then
        var page :- PageOf(ev);
        Ok(g.(page := Some(page)))
      else Ok(g)
    else if ev.Characters? || ev.Space? then Ok(g.(trailing := Collect(g.trailing, ev.text)))
    else Ok(g)
  }

  /** No event from `lo` up to `hi` starts a word. */
  predicate NoWord(events: seq<XmlEvent>, lo: nat, hi: nat)
    requires lo <= hi <= |events|
  {
    forall i :: lo <= i < hi ==> !IsWordStart(events[i])
  }

  /** The events from `lo` up to `hi`, all between two words, one after the other; the first failure stops it. */
  function GapOver(g: Gap, events: seq<XmlEvent>, lo: nat, hi: nat, trackPages: bool): Result<Gap>
    requires lo <= hi <= |events|
    decreases hi
  {
    if hi == lo then Ok(g)
    else
      var before :- GapOver(g, events, lo, hi - 1, trackPages);
      GapStep(before, events[hi - 1], trackPages)
  }

  /** A text event whose text is blank. */
  predicate BlankText(ev: XmlEvent)
  {
    (ev.Characters? || ev.Space?) && IsBlank(ev.text)
  }

  /** A text event whose text is not blank. */
  predicate WordlessText(ev: XmlEvent)
  {
    (ev.Characters? || ev.Space?) && !IsBlank(ev.text)
  }

  /**
   * Between two words with no visible text in between, the trailing chars
   * are at most a single ' ', however many blank nodes and line starts there are.
   */
  lemma {:induction false} BlankGap(g: Gap, events: seq<XmlEvent>, lo: nat, hi: nat, trackPages: bool)
    requires lo <= hi <= |events| && g.trailing == []
    requires forall i :: lo <= i < hi ==> !WordlessText(events[i])
    ensures GapOver(g, events, lo, hi, trackPages).Ok? ==>
      GapOver(g, events, lo, hi, trackPages).value.trailing in {"", " "}
    decreases hi
  {
    if lo < hi {
      BlankGap(g, events, lo, hi - 1, trackPages);
      var before := GapOver(g, events, lo, hi - 1, trackPages);
      if before.Ok? {
        var t := before.value.trailing;
        assert t == "" || t == " ";
        var last := events[hi - 1];
        assert !WordlessText(last);
        assert GapOver(g, events, lo, hi, trackPages) == GapStep(before.value, last, trackPages);
        if last.Characters? || last.Space? {
          assert Collect(t, last.text) == " ";
        } else if HasClass(last, "span", "ocr_line") {
          assert t == " " ==> ' ' in t;
          assert t == "" ==> t + " " == " ";
        }
      }
    }
  }

  /** A run of blank nodes after some text adds exactly one ' ' when the text does not end in one. */
  lemma {:induction false} BlankRun(g: Gap, events: seq<XmlEvent>, lo: nat, hi: nat, trackPages: bool)
    requires lo < hi <= |events|
    requires forall i :: lo <= i < hi ==> BlankText(events[i])
    requires g.trailing == [] || g.trailing[|g.trailing| - 1] != ' '
    ensures GapOver(g, events, lo, hi, trackPages) == Ok(g.(trailing := g.trailing + " "))
    decreases hi
  {
    if lo + 1 < hi {
      BlankRun(g, events, lo, hi - 1, trackPages);
    }
  }

  /** The first word start at or after `lo`, or the end of the stream. */
  function NextWordFrom(events: seq<XmlEvent>, lo: nat): (w: nat)
    requires lo <= |events|
    ensures lo <= w <= |events|
    ensures w < |events| ==> IsWordStart(events[w])
    ensures NoWord(events, lo, w)
    decreases |events| - lo
  {
    if lo == |events| then lo
    else if IsWordStart(events[lo]) then lo
    else NextWordFrom(events, lo + 1)
  }

  /** A failure inside the gap fails the whole gap. */
  lemma {:induction false} GapFailureSticks(g: Gap, events: seq<XmlEvent>, lo: nat, n: nat, hi: nat, trackPages: bool)
    requires lo <= n <= hi <= |events|
    ensures GapOver(g, events, lo, n, trackPages).Err? ==> GapOver(g, events, lo, hi, trackPages).Err?
    decreases hi - n
  {
    if n < hi {
      GapFailureSticks(g, events, lo, n + 1, hi, trackPages);
    }
  }

  // ---------------------------------------------------------------------
  // Hyphenation and skipping

  /** The text, highlight end markers aside, ends in a soft hyphen. */
  predicate EndsInSoftHyphen(text: string)
  {
    var t := Without(text, EndHl); t != [] && t[|t| - 1] == SoftHyphen
  }

  /**
   * Whether the word is the first half of a split word (its text ends in a
   * soft hyphen, or the text after it starts with one), and the box with a
   * soft-hyphen-ended text cleaned and marked as a first half.
   */
  function HyphenCheck(box: OcrBox, trailing: string): (r: (bool, OcrBox))
    ensures r.0 <==> (box.text.Some? && EndsInSoftHyphen(box.text.value)) || (trailing != [] && trailing[0] == SoftHyphen)
    ensures box.text.Some? && EndsInSoftHyphen(box.text.value) ==>
      r.1.text.Some? && SoftHyphen !in r.1.text.value && IsHyphenStart(r.1) && r.1.dehyphenatedForm.None? &&
      r.1 == box.(text := r.1.text, hyphenStart := r.1.hyphenStart, dehyphenatedForm := None)
    ensures !(box.text.Some? && EndsInSoftHyphen(box.text.value)) ==> r.1 == box
  {
    if box.text.Some? && EndsInSoftHyphen(box.text.value) then
      (true, box.(text := Some(Without(box.text.value, SoftHyphen)), hyphenStart := Some(true), dehyphenatedForm := None))
    else if trailing != [] && trailing[0] == SoftHyphen then (true, box)
    else (false, box)
  }

  /**
   * The first half of a split word and the word read after it: both share
   * the dehyphenated form, the first half's text followed by the second's.
   * Without a second word the first half keeps a '-' and loses its
   * hyphenation info.
   */
  function JoinHalves(start: OcrBox, end: Option<OcrBox>): (r: (OcrBox, Option<OcrBox>))
    ensures end.Some? ==> (r.1.Some? &&
      r.0 == start.(hyphenStart := Some(true), dehyphenatedForm := Some(Str(start.text) + Str(end.value.text))) &&
      r.1.value == end.value.(hyphenStart := Some(false), dehyphenatedForm := r.0.dehyphenatedForm))
    ensures end.None? ==> (r.1.None? && !IsHyphenated(r.0) && r.0.dehyphenatedForm.None? &&
      r.0 == start.(text := r.0.text, hyphenStart := None, dehyphenatedForm := None))
    ensures end.None? && start.text.Some? ==> (r.0.text.Some? && start.text.value <= r.0.text.value &&
      r.0.text.value != [] && r.0.text.value[|r.0.text.value| - 1] == '-')
  {
    if end.Some? then
      var dehyphenated := Str(start.text) + Str(end.value.text);
      (start.(hyphenStart := Some(true), dehyphenatedForm := Some(dehyphenated)),
       Some(end.value.(hyphenStart := Some(false), dehyphenatedForm := Some(dehyphenated))))
    else
      var text := if start.text.Some? && !(start.text.value != [] && start.text.value[|start.text.value| - 1] == '-')
        then Some(start.text.value + "-") else start.text;
      (start.(text := text, hyphenStart := None, dehyphenatedForm := None), None)
  }

  /** The two halves of a split word read back as the whole word with the second half's trailing chars. */
  lemma JoinedHalvesRead(start: OcrBox, end: OcrBox)
    requires start.text.Some?
    ensures var (s, e) := JoinHalves(start, Some(end));
      Joined([s, e.value]) == start.text.value + Str(end.text) + Trailing(end.trailingChars)
  {
    var (s, e) := JoinHalves(start, Some(end));
    SplitWordJoins(s, e.value, start.text.value + Str(end.text));
  }

  /** A box that is skipped: no text when text is wanted, or no coordinates when they are wanted. */
  predicate Ignored(box: OcrBox, features: set<ParsingFeature>)
  {
    (TEXT in features && (box.text.None? || box.text.value == [])) ||
    (COORDINATES in features && box.lrx < 0 && box.lry < 0 && box.ulx < 0 && box.uly < 0)
  }

  /** Marking the halves of a split word leaves whether a box is skipped unchanged. */
  lemma JoinKeepsKept(start: OcrBox, end: OcrBox, features: set<ParsingFeature>)
    requires !Ignored(end, features)
    ensures !Ignored(JoinHalves(start, Some(end)).1.value, features)
  {
  }

  // ---------------------------------------------------------------------
  // The parser

  /**
   * An hOCR parser over an event stream. The highlight state of the shared
   * parser lives here too: the open span, the pending close, and the next
   * fresh span id.
   */
  class HocrParser {
    const events: seq<XmlEvent>
    const features: set<ParsingFeature>
    /** How many events the reader has consumed. */
    var pos: nat
    /** The box `next` hands out next; none once the input is exhausted. */
    var nextWord: Option<OcrBox>
    var currentHighlightSpan: Option<nat>
    var terminateHighlightSpanAfterNext: bool
    var nextSpanId: nat
    var noMoreWords: bool
    var currentPage: Option<OcrPage>
    /** The second half of a split word, read ahead together with its first half. */
    var hyphenEnd: Option<OcrBox>

    /** The highlight fields as one state. */
    function Spans(): SpanState
      reads this`currentHighlightSpan, this`terminateHighlightSpanAfterNext, this`nextSpanId
    {
      SpanState(currentHighlightSpan, terminateHighlightSpanAfterNext, nextSpanId)
    }

    /** The cursor is inside the stream, the span state is sound, and a read-ahead second half is never a skipped box. */
    ghost predicate Valid()
      reads this`pos, this`currentHighlightSpan, this`terminateHighlightSpanAfterNext, this`nextSpanId, this`hyphenEnd
    {
      pos <= |events| && SpanInv(Spans()) &&
      (hyphenEnd.Some? ==> !Ignored(hyphenEnd.value, features) && !IsHyphenStart(hyphenEnd.value))
    }

    /** The event the reader is on: the last one consumed, or the document start. */
    function Current(): XmlEvent
      reads this`pos
      requires pos <= |events|
    {
      if pos == 0 then OtherEvent else events[pos - 1]
    }

    /** A parser at the start of the stream; no features means all of them. */
    constructor (events: seq<XmlEvent>, requested: set<ParsingFeature>)
      ensures this.events == events && features == (if requested == {} then AllFeatures else requested)
      ensures pos == 0 && nextWord.None? && Spans() == NoSpan && !noMoreWords && currentPage.None? && hyphenEnd.None?
      ensures Valid()
    {
      this.events := events;
      features := if requested == {} then AllFeatures else requested;
      pos := 0;
      nextWord := None;
      currentHighlightSpan := None;
      terminateHighlightSpanAfterNext := false;
      nextSpanId := 0;
      noMoreWords := false;
      currentPage := None;
      hyphenEnd := None;
    }

    /** `hasNext`: a box is buffered. */
    predicate HasNext()
      reads this`nextWord
    {
      nextWord.Some?
    }

    /**
     * `next`: hands out the buffered box and refills the buffer with one
     * read; an exhausted parser refuses.
     */
    method Next() returns (r: Result<OcrBox>)
      requires Valid()
      modifies this`pos, this`nextWord, this`currentHighlightSpan, this`terminateHighlightSpanAfterNext,
        this`nextSpanId, this`noMoreWords, this`currentPage, this`hyphenEnd
      ensures Valid()
      ensures !old(HasNext()) ==> r == Err("IllegalStateException") && pos == old(pos) && nextWord == old(nextWord)
      ensures r.Ok? ==> old(HasNext()) && r.value == old(nextWord).value
      ensures r.Ok? && nextWord.Some? ==> !Ignored(nextWord.value, features)
      ensures r.Ok? && nextWord.None? ==> noMoreWords && hyphenEnd.None?
      ensures r.Err? ==> nextWord == old(nextWord)
    {
      if !HasNext() {
        return Err("IllegalStateException");
      }
      var out := nextWord.value;
      // the refill loop runs once: it repeats only while a box is buffered and none is
      var read := ReadNext();
      if read.Err? {
        return Err(read.error);
      }
      nextWord := read.value;
      r := Ok(out);
    }

    /**
     * `trackHighlightSpan(text, box)`: the id of the span the box belongs
     * to, opening and closing spans as the markers in the text say.
     */
    method TrackHighlightSpan(text: string, box: OcrBox) returns (id: Option<nat>)
      modifies this`currentHighlightSpan, this`terminateHighlightSpanAfterNext, this`nextSpanId
      ensures (Spans(), id) == TrackHighlight(old(Spans()), text, IsHyphenStart(box))
    {
      if currentHighlightSpan.None? && StartHl in text {
        currentHighlightSpan := Some(nextSpanId);
        nextSpanId := nextSpanId + 1;
      }
      if currentHighlightSpan.Some? && (terminateHighlightSpanAfterNext || EndHl in text) {
        if terminateHighlightSpanAfterNext {
          terminateHighlightSpanAfterNext := false;
        } else if IsHyphenated(box) && IsHyphenStart(box) && EndHl in text {
          terminateHighlightSpanAfterNext := true;
          return currentHighlightSpan;
        }
        id := currentHighlightSpan;
        currentHighlightSpan := None;
        return;
      }
      id := currentHighlightSpan;
    }

    /**
     * One event between two words: the text collected so far grows and a
     * page start becomes the current page.
     */
    method GapEvent(ev: XmlEvent, trailing: string, trackPages: bool) returns (r: Result<string>)
      modifies this`currentPage
      ensures var step := GapStep(Gap(trailing, old(currentPage)), ev, trackPages);
        (r.Ok? <==> step.Ok?) && (r.Ok? ==> Gap(r.value, currentPage) == step.value)
    {
      r := Ok(trailing);
      if ev.StartElement? {
        if HasClass(ev, "span", "ocr_line") && ' ' !in trailing {
          // a line break ends in a ' ' unless one was collected already
          r := Ok(trailing + " ");
        } else if trackPages && HasClass(ev, "div", "ocr_page") {
          var page := PageOf(ev);
          if page.Err? {
            return Err(page.error);
          }
          currentPage := Some(page.value);
        }
      } else if ev.Characters? || ev.Space? {
        r := Ok(Collect(trailing, ev.text));
      }
    }

    /** One event of the seek: a word start ends it, any other event goes into the gap. */
    method SeekStep(ghost g0: Gap, ghost start: nat, trailing: string, trackPages: bool)
      returns (found: bool, r: Result<string>)
      requires start <= pos < |events|
      requires GapOver(g0, events, start, pos, trackPages) == Ok(Gap(trailing, currentPage))
      modifies this`currentPage
      ensures found == IsWordStart(events[pos])
      ensures found ==> r == Ok(trailing) && currentPage == old(currentPage)
      ensures !found ==> (r.Ok? <==> GapOver(g0, events, start, pos + 1, trackPages).Ok?)
      ensures !found && r.Ok? ==> GapOver(g0, events, start, pos + 1, trackPages) == Ok(Gap(r.value, currentPage))
    {
      var ev := events[pos];
      found := IsWordStart(ev);
      if found {
        return found, Ok(trailing);
      }
      r := GapEvent(ev, trailing, trackPages);
    }

    /**
     * `seekToNextWord`: consumes events up to and including the next word
     * start, collecting the text in between and following page starts.
     */
    method SeekToNextWord(trackPages: bool) returns (r: Result<string>)
      requires pos <= |events|
      modifies this`pos, this`noMoreWords, this`currentPage
      ensures old(pos) <= pos <= |events| && (old(pos) < |events| ==> old(pos) < pos)
      ensures pos == old(pos) ==> noMoreWords
      ensures var w := NextWordFrom(events, old(pos));
        var gap := GapOver(Gap("", old(currentPage)), events, old(pos), w, trackPages);
        (r.Ok? <==> gap.Ok?) &&
        (r.Ok? ==>
           r.value == gap.value.trailing && currentPage == gap.value.page &&
           pos == (if w < |events| then w + 1 else w) && noMoreWords == (w == |events|))
      ensures r.Err? ==> noMoreWords == old(noMoreWords)
    {
      var foundWord := false;
      var trailing := "";
      ghost var start := pos;
      ghost var w := NextWordFrom(events, start);
      ghost var g0 := Gap("", currentPage);
      while pos < |events|
        invariant start <= pos <= w
        invariant GapOver(g0, events, start, pos, trackPages) == Ok(Gap(trailing, currentPage))
        invariant noMoreWords == old(noMoreWords)
        decreases |events| - pos
      {
        var found, step := SeekStep(g0, start, trailing, trackPages);
        pos := pos + 1;
        if found {
          foundWord := true;
          break;
        }
        if step.Err? {
          GapFailureSticks(g0, events, start, pos, w, trackPages);
          return Err(step.error);
        }
        trailing := step.value;
      }
      noMoreWords := !foundWord;
      r := Ok(trailing);
    }
  
    /** A text node among the events from `from` up to `to` holds `t`. */
    ghost predicate TextTaken(from: nat, to: nat, t: string)
    {
      exists k :: from <= k < to && k < |events| && events[k].Characters? && events[k].text == t
    }

    /** The event at the cursor, consumed; the stream refuses when exhausted. */
    method NextEvent() returns (r: Result<XmlEvent>)
      requires pos <= |events|
      modifies this`pos
      ensures r.Ok? <==> old(pos) < |events|
      ensures r.Ok? ==> r.value == events[old(pos)] && pos == old(pos) + 1
      ensures r.Err? ==> pos == old(pos) && r.error == "NoSuchElementException"
    {
      if pos == |events| {
        return Err("NoSuchElementException");
      }
      r := Ok(events[pos]);
      pos := pos + 1;
    }

    /**
     * The next event, which must be a text node (`wantText`) or an end tag:
     * what an `<ins>` or `<del>` element holds, and how it closes.
     */
    method Expect(wantText: bool) returns (r: Result<XmlEvent>)
      requires pos <= |events|
      modifies this`pos
      ensures old(pos) <= pos <= |events|
      ensures r.Ok? <==> (old(pos) < |events| &&
        (if wantText then events[old(pos)].Characters? else events[old(pos)].EndElement?))
      ensures r.Ok? ==> r.value == events[old(pos)] && pos == old(pos) + 1
      ensures r.Err? ==> r.error == (if old(pos) == |events| then "NoSuchElementException" else "IllegalStateException")
    {
      r := NextEvent();
      if r.Ok? && !(if wantText then r.value.Characters? else r.value.EndElement?) {
        r := Err("IllegalStateException");
      }
    }

    /** A `<del>` text becomes an alternative, and may open or close a highlight span. */
    method TakeAlternative(b: OcrBox, inner: XmlEvent, withHighlights: bool, withOffsets: bool) returns (r: OcrBox)
      requires inner.Characters? && SpanInv(Spans())
      modifies this`currentHighlightSpan, this`terminateHighlightSpanAfterNext, this`nextSpanId
      ensures SpanInv(Spans())
      ensures r == b.(alternatives := b.alternatives + [inner.text],
        alternativeOffsets := b.alternativeOffsets + (if withOffsets then [inner.offset] else []),
        highlightSpan := r.highlightSpan)
      // a span tracked already is kept
      ensures !withHighlights || b.highlightSpan.Some? ==> r.highlightSpan == b.highlightSpan && Spans() == old(Spans())
      ensures withHighlights && b.highlightSpan.None? ==>
        (Spans(), r.highlightSpan) == TrackHighlight(old(Spans()), inner.text, IsHyphenStart(b))
    {
      r := b;
      if withHighlights && b.highlightSpan.None? {
        var id := TrackHighlightSpan(inner.text, b);
        r := r.(highlightSpan := id);
      }
      r := AddAlternative(r, inner.text, if withOffsets then Some(inner.offset) else None);
    }

    /**
     * An `<ins>` or `<del>` element inside a word: its text node, which for
     * a `<del>` becomes an alternative, and its end tag.
     */
    method ReadEdit(ins: bool, b: OcrBox, withHighlights: bool, withOffsets: bool) returns (r: Result<(OcrBox, XmlEvent)>)
      requires pos <= |events| && SpanInv(Spans())
      modifies this`pos, this`currentHighlightSpan, this`terminateHighlightSpanAfterNext, this`nextSpanId
      ensures old(pos) <= pos <= |events| && SpanInv(Spans())
      ensures r.Ok? ==> pos == old(pos) + 2 && r.value.1 == events[old(pos)] && r.value.1.Characters?
      ensures r.Ok? && ins ==> r.value.0 == b
      ensures r.Ok? && !ins ==> r.value.0 == b.(alternatives := b.alternatives + [r.value.1.text],
        alternativeOffsets := b.alternativeOffsets + (if withOffsets then [r.value.1.offset] else []),
        highlightSpan := r.value.0.highlightSpan)
      ensures r.Ok? && !withHighlights ==> r.value.0.highlightSpan == b.highlightSpan
    {
      var inner := Expect(true);
      if inner.Err? {
        return Err(inner.error);
      }
      var box := b;
      if !ins {
        box := TakeAlternative(b, inner.value, withHighlights, withOffsets);
      }
      var close := Expect(false);
      if close.Err? {
        return Err(close.error);
      }
      r := Ok((box, inner.value));
    }

    /** The end of the word: its text, its offset, whether it is a first half, and its highlight span. */
    method FinishText(b: OcrBox, t: string, offset: int, withHighlights: bool, withOffsets: bool) returns (r: OcrBox)
      requires SpanInv(Spans())
      modifies this`currentHighlightSpan, this`terminateHighlightSpanAfterNext, this`nextSpanId
      ensures SpanInv(Spans())
      ensures r == b.(text := Some(t), textOffset := if withOffsets then offset else b.textOffset,
        hyphenStart := r.hyphenStart, dehyphenatedForm := r.dehyphenatedForm, highlightSpan := r.highlightSpan)
      // a text ending in a soft hyphen marks a first half
      ensures EndsInSoftHyphen(t) ==> IsHyphenStart(r) && r.dehyphenatedForm.None?
      ensures !EndsInSoftHyphen(t) ==> r.hyphenStart == b.hyphenStart && r.dehyphenatedForm == b.dehyphenatedForm
      // a span tracked from an alternative is kept
      ensures !withHighlights || b.highlightSpan.Some? ==> r.highlightSpan == b.highlightSpan && Spans() == old(Spans())
      ensures withHighlights && b.highlightSpan.None? ==>
        (Spans(), r.highlightSpan) == TrackHighlight(old(Spans()), t, IsHyphenStart(r))
    {
      r := b.(text := Some(t));
      if withOffsets {
        r := r.(textOffset := offset);
      }
      if EndsInSoftHyphen(t) {
        r := r.(hyphenStart := Some(true), dehyphenatedForm := None);
      }
      if withHighlights && r.highlightSpan.None? {
        var id := TrackHighlightSpan(t, r);
        r := r.(highlightSpan := id);
      }
    }

    /**
     * `parseText`: reads the word's text up to the end of its element,
     * taking an `<ins>` text as the word's text and, when asked, `<del>`
     * texts as alternatives.
     */
    method ParseText(box: OcrBox, withHighlights: bool, withOffsets: bool, withAlternatives: bool)
      returns (r: Result<OcrBox>)
      requires pos <= |events| && SpanInv(Spans())
      modifies this`pos, this`currentHighlightSpan, this`terminateHighlightSpanAfterNext, this`nextSpanId
      ensures old(pos) <= pos <= |events| && SpanInv(Spans())
      // only the text and what comes with it change
      ensures r.Ok? ==> r.value == box.(text := r.value.text, textOffset := r.value.textOffset,
        alternatives := r.value.alternatives, alternativeOffsets := r.value.alternativeOffsets,
        highlightSpan := r.value.highlightSpan, hyphenStart := r.value.hyphenStart,
        dehyphenatedForm := r.value.dehyphenatedForm)
      // a new text comes from a text node of the word
      ensures r.Ok? && r.value.text != box.text ==> r.value.text.Some? && TextTaken(old(pos), pos, r.value.text.value)
      // a new text ending in a soft hyphen marks a first half
      ensures r.Ok? && r.value.text != box.text && EndsInSoftHyphen(r.value.text.value) ==>
        IsHyphenStart(r.value) && r.value.dehyphenatedForm.None?
      ensures r.Ok? && r.value.hyphenStart != box.hyphenStart ==>
        r.value.text.Some? && EndsInSoftHyphen(r.value.text.value)
      ensures r.Ok? ==> box.alternatives <= r.value.alternatives
      ensures r.Ok? && !withAlternatives ==> r.value.alternatives == box.alternatives
      ensures r.Ok? && !withHighlights ==> r.value.highlightSpan == box.highlightSpan
    {
      var b := box;
      var txt: Option<string> := None;
      var txtOffset := -1;
      var inAlternatives := false;
      ghost var start := pos;
      while pos < |events|
        invariant start <= pos <= |events| && SpanInv(Spans())
        invariant b == box.(alternatives := b.alternatives, alternativeOffsets := b.alternativeOffsets,
          highlightSpan := b.highlightSpan)
        invariant txt.Some? ==> TextTaken(start, pos, txt.value)
        invariant box.alternatives <= b.alternatives
        invariant !withAlternatives ==> b.alternatives == box.alternatives
        invariant !withHighlights ==> b.highlightSpan == box.highlightSpan
        decreases |events| - pos
      {
        var ev := events[pos];
        pos := pos + 1;
        if ev.Characters? && txt.None? {
          if withOffsets {
            txtOffset := ev.offset;
          }
          txt := Some(ev.text);
        } else if ev.EndElement? {
          if inAlternatives {
            inAlternatives := false;
          } else {
            // a word without text is left as it is
            if txt.None? {
              return Ok(b);
            }
            b := FinishText(b, txt.value, txtOffset, withHighlights, withOffsets);
            return Ok(b);
          }
        } else if ev.StartElement? {
          if HasClass(ev, "span", "alternatives") {
            inAlternatives := true;
          } else if ev.name == "ins" || (withAlternatives && ev.name == "del") {
            var edit := ReadEdit(ev.name == "ins", b, withHighlights, withOffsets);
            if edit.Err? {
              return Err(edit.error);
            }
            if ev.name == "ins" {
              if withOffsets {
                txtOffset := edit.value.1.offset;
              }
              txt := Some(edit.value.1.text);
            }
            b := edit.value.0;
          }
        }
      }
      r := Ok(b);
    }

    /**
     * The word the reader is on: its title, its text up to the end of its
     * element, its coordinates, its confidence and the current page, each
     * as far as asked for.
     */
    method ReadWord(here: XmlEvent) returns (r: Result<OcrBox>)
      requires pos <= |events| && SpanInv(Spans())
      modifies this`pos, this`currentHighlightSpan, this`terminateHighlightSpanAfterNext, this`nextSpanId
      ensures pos <= |events| && SpanInv(Spans()) && old(pos) <= pos
      // only a text ending in a soft hyphen marks a first half
      ensures r.Ok? && IsHyphenStart(r.value) ==> r.value.text.Some? && EndsInSoftHyphen(r.value.text.value)
      // what was not asked for keeps its default
      ensures r.Ok? && TEXT !in features ==> r.value.text.None?
      ensures r.Ok? ==> r.value.trailingChars == EmptyBox.trailingChars
      ensures r.Ok? && COORDINATES !in features ==>
        r.value.ulx == r.value.uly == r.value.lrx == r.value.lry == -1
      ensures r.Ok? && r.value.confidence.Some? ==> CONFIDENCE in features
      ensures r.Ok? ==> r.value.page == (if PAGES in features then currentPage else None)
    {
      var props :- ParseTitle(Attr(here, "title"));
      var box := EmptyBox;
      if TEXT in features {
        box :- ParseText(box, HIGHLIGHTS in features, OFFSETS in features, ALTERNATIVES in features);
      }
      if COORDINATES in features {
        box :- ParseCoordinates(box, Lookup(props, "bbox"));
      }
      if CONFIDENCE in features && "x_wconf" in props {
        box := box.(confidence := Some(props["x_wconf"]));
      }
      if PAGES in features && currentPage.Some? {
        box := box.(page := currentPage);
      }
      r := Ok(box);
    }

    /**
     * The word-reading part of `readNext`: seek to the next word, read its
     * title, text, coordinates, confidence and page, then collect the text up
     * to the following word. None when the stream holds no further word.
     * Past the last event the reader is on the document end.
     */
    method ReadBox() returns (r: Result<Option<(OcrBox, string)>>)
      requires Valid() && !noMoreWords
      modifies this`pos, this`currentHighlightSpan, this`terminateHighlightSpanAfterNext, this`nextSpanId,
        this`noMoreWords, this`currentPage
      ensures pos <= |events| && SpanInv(Spans()) && old(pos) <= pos
      // every word read moves the reader on, or ends the stream
      ensures r.Ok? && r.value.Some? ==> old(pos) < pos || noMoreWords
      ensures r == Ok(None) ==> noMoreWords
      // only a text ending in a soft hyphen marks a first half
      ensures r.Ok? && r.value.Some? && IsHyphenStart(r.value.value.0) ==>
        r.value.value.0.text.Some? && EndsInSoftHyphen(r.value.value.0.text.value)
      // what was not asked for keeps its default
      ensures r.Ok? && r.value.Some? && TEXT !in features ==>
        r.value.value.0.text.None? && r.value.value.0.trailingChars == EmptyBox.trailingChars
      ensures r.Ok? && r.value.Some? && COORDINATES !in features ==>
        r.value.value.0.ulx == r.value.value.0.uly == r.value.value.0.lrx == r.value.value.0.lry == -1
      ensures r.Ok? && r.value.Some? && r.value.value.0.confidence.Some? ==> CONFIDENCE in features
      // the text up to the next word is the box's trailing text
      ensures r.Ok? && r.value.Some? && TEXT in features && r.value.value.1 != [] ==>
        r.value.value.0.trailingChars == Some(r.value.value.1)
    {
      if !IsWordStart(Current()) {
        var skipped := SeekToNextWord(PAGES in features);
        if skipped.Err? {
          return Err(skipped.error);
        }
      }
      var here := Current();
      if noMoreWords || !here.StartElement? {
        // no words in the input
        return Ok(None);
      }
      var word := ReadWord(here);
      if word.Err? {
        return Err(word.error);
      }
      var box := word.value;
      var trailing := SeekToNextWord(PAGES in features);
      if trailing.Err? {
        return Err(trailing.error);
      }
      if TEXT in features && trailing.value != [] {
        box := box.(trailingChars := Some(trailing.value));
      }
      r := Ok(Some((box, trailing.value)));
    }

    /**
     * `readNext`: the next box of the stream, or none at its end. The second
     * half of a split word is read together with its first half and handed
     * out on the following call; a box without the text or coordinates asked
     * for is skipped.
     */
    method ReadNext() returns (r: Result<Option<OcrBox>>)
      requires Valid()
      modifies this`pos, this`currentHighlightSpan, this`terminateHighlightSpanAfterNext, this`nextSpanId,
        this`noMoreWords, this`currentPage, this`hyphenEnd
      ensures Valid()
      ensures old(pos) <= pos && (old(noMoreWords) ==> noMoreWords)
      // a read-ahead second half comes first
      ensures old(hyphenEnd).Some? ==> r == Ok(old(hyphenEnd)) && hyphenEnd.None? && pos == old(pos)
      // an exhausted stream stays exhausted
      ensures old(hyphenEnd).None? && old(noMoreWords) ==> r == Ok(None) && pos == old(pos)
      ensures r == Ok(None) ==> noMoreWords && hyphenEnd.None?
      // skipped boxes never come out
      ensures r.Ok? && r.value.Some? ==> !Ignored(r.value.value, features)
      // a first half comes out with its second half read ahead, both sharing the whole word
      ensures r.Ok? && r.value.Some? && IsHyphenStart(r.value.value) ==>
        hyphenEnd.Some? && hyphenEnd.value.hyphenStart == Some(false) &&
        r.value.value.dehyphenatedForm == Some(Str(r.value.value.text) + Str(hyphenEnd.value.text)) &&
        hyphenEnd.value.dehyphenatedForm == r.value.value.dehyphenatedForm
      decreases |events| - pos, if noMoreWords then 0 else 1
    {
      if hyphenEnd.Some? {
        r := Ok(hyphenEnd);
        hyphenEnd := None;
        return;
      }
      if noMoreWords {
        return Ok(None);
      }
      var read := ReadBox();
      if read.Err? {
        return Err(read.error);
      }
      if read.value.None? {
        return Ok(None);
      }
      var checked := HyphenCheck(read.value.value.0, read.value.value.1);
      var box := checked.1;
      if checked.0 {
        box := box.(trailingChars := None);
        var end := ReadNext();
        if end.Err? {
          return Err(end.error);
        }
        if end.value.Some? {
          JoinKeepsKept(box, end.value.value, features);
        }
        var halves := JoinHalves(box, end.value);
        box, hyphenEnd := halves.0, halves.1;
      }
      if Ignored(box, features) {
        r := ReadNext();
      } else {
        r := Ok(Some(box));
      }
    }
  }

  /**
   * Opening a parser reads the first box into the buffer; a failure there
   * fails the construction.
   */
  method Open(events: seq<XmlEvent>, requested: set<ParsingFeature>) returns (r: Result<HocrParser>)
    ensures r.Ok? ==> fresh(r.value) && r.value.Valid() && r.value.events == events
    ensures r.Ok? && r.value.nextWord.Some? ==> !Ignored(r.value.nextWord.value, r.value.features)
  {
    var p := new HocrParser(events, requested);
    var first := p.ReadNext();
    if first.Err? {
      return Err(first.error);
    }
    p.nextWord := first.value;
    r := Ok(p);
  }
}
