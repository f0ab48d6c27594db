/**
 * The MiniOCR format: one-letter tags for pages, sections, blocks, lines
 * and words, page identifiers in an `xml:id` attribute and page sizes in a
 * `wh` attribute.
 */
module MiniOcrFormat {
  import opened Common
  import opened OcrFormat
  import T = TagBreakLocator

  /** The tag of each block type; there is no paragraph tag. */
  function BlockTag(b: OcrBlock): Option<string>
  {
    match b
    case PAGE => Some("p")
    case SECTION => Some("s")
    case BLOCK => Some("b")
    case LINE => Some("l")
    case WORD => Some("w")
    case PARAGRAPH => None
  }

  /** The tags in the order the tag map iterates them. */
  const Tags: seq<string> := ["p", "s", "b", "l", "w"]

  /**
   * `getBreakLocator`: a tag locator on the opening tag of the FIRST
   * requested block type, given here as its break tag. Java's string
   * concatenation spells the missing paragraph tag "null".
   */
  function GetBreakLocator(blockTypes: seq<OcrBlock>): (r: Result<string>)
    ensures r.Err? <==> blockTypes == []
    ensures r.Ok? && BlockTag(blockTypes[0]).Some? ==> r.value == T.BreakTag(BlockTag(blockTypes[0]).value, false)
    ensures r.Ok? && BlockTag(blockTypes[0]).None? ==> r.value == "<null"
  {
    if blockTypes == [] then Err("ArrayIndexOutOfBoundsException")
    else
      var tag := BlockTag(blockTypes[0]);
      Ok(T.BreakTag(if tag.Some? then tag.value else "null", false))
  }

  /** Only the first requested block type matters. */
  lemma {:induction false} BreakLocatorUsesFirstBlock(blockTypes: seq<OcrBlock>)
    requires blockTypes != []
    ensures GetBreakLocator(blockTypes) == GetBreakLocator([blockTypes[0]])
  {
  }

  /**
   * `hasFormat`: an opening tag "<t " or "<t>" of a section, block, line or
   * word; page tags are skipped because hOCR's "<p" paragraphs would match.
   */
  function HasFormat(chunk: string): bool
  {
    exists j :: 0 <= j < |Tags| && Tags[j] != "p"
      && (IndexOf(chunk, "<" + Tags[j] + " ", 0) >= 0 || IndexOf(chunk, "<" + Tags[j] + ">", 0) >= 0)
  }

  /** The tag `t` opens somewhere in the chunk, followed by a space or '>'. */
  ghost predicate Opens(chunk: string, t: string)
  {
    Contains(chunk, "<" + t + " ") || Contains(chunk, "<" + t + ">")
  }

  /** `hasFormat` holds exactly when a section, block, line or word tag opens somewhere in the chunk. */
  lemma {:induction false} HasFormatIff(chunk: string)
    ensures HasFormat(chunk) <==> Opens(chunk, "s") || Opens(chunk, "b") || Opens(chunk, "l") || Opens(chunk, "w")
  {
    forall j | 0 <= j < |Tags|
      ensures (IndexOf(chunk, "<" + Tags[j] + " ", 0) >= 0 || IndexOf(chunk, "<" + Tags[j] + ">", 0) >= 0) == Opens(chunk, Tags[j])
    {
      IndexOfFindsOccurrence(chunk, "<" + Tags[j] + " ");
      IndexOfFindsOccurrence(chunk, "<" + Tags[j] + ">");
    }
    assert Tags[1] == "s" && Tags[2] == "b" && Tags[3] == "l" && Tags[4] == "w";
  }

  // The page identifier pattern `(?:xml)?:id=["'](.+?)["']`.

  /**
   * The identifier the pattern captures at the occurrence of ":id=" at
   * `i`: after a quote, the shortest non-empty run up to the next quote,
   * with no line terminator in it.
   */
  function IdMatchAt(s: string, i: int): (r: Option<string>)
    ensures r.Some? ==> |r.value| > 0 && forall k :: 0 <= k < |r.value| ==> !IsLineTerminator(r.value[k])
  {
    if !OccursAt(s, ":id=", i) || i + 4 >= |s| || !IsQuote(s[i + 4]) then None
    else
      var e := QuoteFrom(s, i + 6);
      if e < 0 || exists k :: i + 5 <= k < e && IsLineTerminator(s[k]) then None
      else Some(s[i + 5..e])
  }

  /** The first occurrence at or after `from` where the identifier pattern matches, or -1. */
  function FirstIdMatch(s: string, from: nat): (r: int)
    ensures r == -1 || (from <= r && IdMatchAt(s, r).Some?)
    ensures forall k :: from <= k && (r == -1 || k < r) ==> IdMatchAt(s, k).None?
    decreases |s| - from
  {
    if from >= |s| then -1 else if IdMatchAt(s, from).Some? then from else FirstIdMatch(s, from + 1)
  }

  // The page size pattern `wh=["'](\d+) (\d+)["']`.

  /** The width and height digits the size pattern captures at `i`. */
  function DimsMatchAt(s: string, i: int): (r: Option<(string, string)>)
    ensures r.Some? ==> r.value.0 != [] && AllDigits(r.value.0) && r.value.1 != [] && AllDigits(r.value.1)
  {
    if !OccursAt(s, "wh=", i) || i + 3 >= |s| || !IsQuote(s[i + 3]) then None
    else
      var w := DigitRun(s, i + 4);
      var sp := i + 4 + w;
      if w == 0 || sp >= |s| || s[sp] != ' ' then None
      else
        var h := DigitRun(s, sp + 1);
        var e := sp + 1 + h;
        if h == 0 || e >= |s| || !IsQuote(s[e]) then None
        else Some((s[i + 4..sp], s[sp + 1..e]))
  }

  /** The first position at or after `from` where the size pattern matches, or -1. */
  function FirstDimsMatch(s: string, from: nat): (r: int)
    ensures r == -1 || (from <= r && DimsMatchAt(s, r).Some?)
    ensures forall k :: from <= k && (r == -1 || k < r) ==> DimsMatchAt(s, k).None?
    decreases |s| - from
  {
    if from >= |s| then -1 else if DimsMatchAt(s, from).Some? then from else FirstDimsMatch(s, from + 1)
  }

  /**
   * `parsePageFragment`: the identifier of the first `:id=` attribute and
   * the size of the first `wh` attribute; a size too large for an `int`
   * fails to parse, and a page without identifier is refused.
   */
  function ParsePageFragment(pageFragment: string): (r: Result<OcrPage>)
    ensures r.Ok? ==>
      (FirstIdMatch(pageFragment, 0) >= 0 && r.value.id == IdMatchAt(pageFragment, FirstIdMatch(pageFragment, 0)).value)
    ensures r.Ok? ==> (r.value.dimensions.Some? <==> FirstDimsMatch(pageFragment, 0) >= 0)
    ensures FirstIdMatch(pageFragment, 0) < 0 ==> r.Err?
    ensures FirstIdMatch(pageFragment, 0) < 0 && FirstDimsMatch(pageFragment, 0) < 0 ==> r == Err("NullPointerException")
  {
    var i := FirstIdMatch(pageFragment, 0);
    var pageId := if i >= 0 then IdMatchAt(pageFragment, i) else None;
    var d := FirstDimsMatch(pageFragment, 0);
    if d >= 0 then
      var m := DimsMatchAt(pageFragment, d).value;
      var width :- ParseInt(m.0);
      var height :- ParseInt(m.1);
      NewPage(pageId, Some(Dimension(width, height)))
    else
      NewPage(pageId, None)
  }

  /** `getLastContentStartIdx`: just after the last '>'. */
  function GetLastContentStartIdx(content: string): (r: int)
    ensures 0 <= r <= |content| && (r > 0 ==> content[r - 1] == '>')
    ensures forall k :: r <= k < |content| ==> content[k] != '>'
  {
    LastContentStartIdx(content)
  }

  /** `getFirstContentEndIdx`: the first closing tag "</", or -1. */
  function GetFirstContentEndIdx(content: string): (r: int)
    ensures r == -1 || OccursAt(content, "</", r)
    ensures forall k :: 0 <= k && (r == -1 || k < r) ==> !OccursAt(content, "</", k)
  {
    FirstContentEndIdx(content)
  }

  // A page's start tag as the MiniOCR converter writes it parses back.

  /** `<p xml:id="ID" wh="W H">`. */
  function PageStartTag(id: string, width: nat, height: nat): string
  {
    "<p xml:id=\"" + id + "\" wh=\"" + NatToString(width) + " " + NatToString(height) + "\">"
  }

  /** A plain identifier: no quote, line terminator, ':' or '='. */
  predicate PlainId(id: string)
  {
    id != [] && forall k :: 0 <= k < |id| ==> !IsQuote(id[k]) && !IsLineTerminator(id[k]) && id[k] != ':' && id[k] != '='
  }

  /** Where the pieces of a page start tag sit. */
  lemma {:induction false} PageStartTagLayout(id: string, width: nat, height: nat)
    ensures var s, w, h, n := PageStartTag(id, width, height), NatToString(width), NatToString(height), |id|;
      && |s| == 20 + n + |w| + |h|
      && s[..11] == "<p xml:id=\"" && s[11..11 + n] == id
      && s[11 + n..17 + n] == "\" wh=\""
      && s[17 + n..17 + n + |w|] == w && s[17 + n + |w|] == ' '
      && s[18 + n + |w|..18 + n + |w| + |h|] == h && s[18 + n + |w| + |h|..] == "\">"
  {
    var s, w, h, n := PageStartTag(id, width, height), NatToString(width), NatToString(height), |id|;
    var p1 := "<p xml:id=\"" + id;
    var p2 := p1 + "\" wh=\"";
    var p3 := p2 + w;
    var p4 := p3 + " ";
    var p5 := p4 + h;
    assert s == p5 + "\">";
    PrefixPiece(s, p5, "\">", 18 + n + |w| + |h|, |s|);
    PrefixPiece(s, p4, h, 18 + n + |w|, 18 + n + |w| + |h|);
    PrefixPiece(s, p3, " ", 17 + n + |w|, 18 + n + |w|);
    PrefixPiece(s, p2, w, 17 + n, 17 + n + |w|);
    PrefixPiece(s, p1, "\" wh=\"", 11 + n, 17 + n);
    PrefixPiece(s, "<p xml:id=\"", id, 11, 11 + n);
    assert s[17 + n + |w|] == s[17 + n + |w|..18 + n + |w|][0];
  }


  /** A page start tag gives back its identifier and its size. */
  lemma {:induction false} ParsePageStartTag(id: string, width: nat, height: nat)
    requires PlainId(id) && width <= Int32Max && height <= Int32Max
    ensures ParsePageFragment(PageStartTag(id, width, height)) == Ok(OcrPage(id, Some(Dimension(width, height))))
  {
    PageStartTagLayout(id, width, height);
    ParseNatToString(width);
    ParseNatToString(height);
    ParseLaidOutTag(PageStartTag(id, width, height), id, NatToString(width), NatToString(height), width, height);
  }

  /** A string laid out as a page start tag, with numbers that parse, describes that page. */
  lemma {:induction false} ParseLaidOutTag(s: string, id: string, w: string, h: string, width: int, height: int)
    requires PlainId(id) && w != [] && AllDigits(w) && h != [] && AllDigits(h)
    requires ParseInt(w) == Ok(width) && ParseInt(h) == Ok(height)
    requires |s| == 20 + |id| + |w| + |h|
    requires s[..11] == "<p xml:id=\"" && s[11..11 + |id|] == id
    requires s[11 + |id|..17 + |id|] == "\" wh=\""
    requires s[17 + |id|..17 + |id| + |w|] == w && s[17 + |id| + |w|] == ' '
    requires s[18 + |id| + |w|..18 + |id| + |w| + |h|] == h && s[18 + |id| + |w| + |h|..] == "\">"
    ensures ParsePageFragment(s) == Ok(OcrPage(id, Some(Dimension(width, height))))
  {
    assert s[11 + |id|] == s[11 + |id|..17 + |id|][0];
    IdFoundAtSix(s, id);
    DimsFoundAfterId(s, id, w, h);
    ParseFoundPage(s, id, 13 + |id|, w, h, width, height);
  }

  /** Once both patterns are found and both numbers parse, the fragment describes that page. */
  lemma {:induction false} ParseFoundPage(s: string, id: string, d: int, w: string, h: string, width: int, height: int)
    requires FirstIdMatch(s, 0) >= 0 && IdMatchAt(s, FirstIdMatch(s, 0)) == Some(id)
    requires FirstDimsMatch(s, 0) == d >= 0 && DimsMatchAt(s, d) == Some((w, h))
    requires ParseInt(w) == Ok(width) && ParseInt(h) == Ok(height)
    ensures ParsePageFragment(s) == Ok(OcrPage(id, Some(Dimension(width, height))))
  {
  }

  /** In a page start tag, the identifier pattern first matches at the ':' of "xml:id". */
  lemma {:induction false} IdFoundAtSix(s: string, id: string)
    requires PlainId(id) && |s| >= 13 + |id|
    requires s[..11] == "<p xml:id=\"" && s[11..11 + |id|] == id && s[11 + |id|] == '"'
    ensures FirstIdMatch(s, 0) == 6 && IdMatchAt(s, 6) == Some(id)
  {
    IdAtSix(s, id);
    forall k | 0 <= k < 6
      ensures IdMatchAt(s, k).None?
    {
      assert s[k] == s[..11][k];
      NoColonIdAt(s, k);
    }
    FirstIdMatchIs(s, 0, 6);
  }

  /** The identifier pattern captures the identifier at the ':' of "xml:id". */
  lemma {:induction false} IdAtSix(s: string, id: string)
    requires PlainId(id) && |s| >= 13 + |id|
    requires s[..11] == "<p xml:id=\"" && s[11..11 + |id|] == id && s[11 + |id|] == '"'
    ensures IdMatchAt(s, 6) == Some(id)
  {
    assert OccursAt(s, ":id=", 6) by {
      assert s[6..10] == s[..11][6..10];
    }
    assert IsQuote(s[10]) by {
      assert s[10] == s[..11][10];
    }
    var e := QuoteFrom(s, 12);
    assert e == 11 + |id| by {
      assert forall k :: 12 <= k < 11 + |id| ==> s[k] == id[k - 11];
    }
  }

  /** ":id=" cannot start where there is no ':'. */
  lemma {:induction false} NoColonIdAt(s: string, k: int)
    requires 0 <= k < |s| && s[k] != ':'
    ensures !OccursAt(s, ":id=", k)
  {
  }


  /** The scan for the identifier pattern stops at the first position where it matches. */
  lemma {:induction false} FirstIdMatchIs(s: string, from: nat, i: nat)
    requires from <= i < |s| && IdMatchAt(s, i).Some?
    requires forall k :: from <= k < i ==> IdMatchAt(s, k).None?
    ensures FirstIdMatch(s, from) == i
    decreases i - from
  {
    if from < i {
      FirstIdMatchIs(s, from + 1, i);
    }
  }

  /** The scan for the size pattern stops at the first position where it matches. */
  lemma {:induction false} FirstDimsMatchIs(s: string, from: nat, i: nat)
    requires from <= i < |s| && DimsMatchAt(s, i).Some?
    requires forall k :: from <= k < i ==> DimsMatchAt(s, k).None?
    ensures FirstDimsMatch(s, from) == i
    decreases i - from
  {
    if from < i {
      FirstDimsMatchIs(s, from + 1, i);
    }
  }

  /** In a page start tag, the size pattern first matches at the "wh" attribute. */
  lemma {:induction false} DimsFoundAfterId(s: string, id: string, w: string, h: string)
    requires PlainId(id) && w != [] && AllDigits(w) && h != [] && AllDigits(h)
    requires |s| == 20 + |id| + |w| + |h|
    requires s[..11] == "<p xml:id=\"" && s[11..11 + |id|] == id
    requires s[11 + |id|..17 + |id|] == "\" wh=\""
    requires s[17 + |id|..17 + |id| + |w|] == w && s[17 + |id| + |w|] == ' '
    requires s[18 + |id| + |w|..18 + |id| + |w| + |h|] == h && s[18 + |id| + |w| + |h|..] == "\">"
    ensures FirstDimsMatch(s, 0) == 13 + |id|
    ensures DimsMatchAt(s, 13 + |id|) == Some((w, h))
  {
    SizeAttributeMatches(s, 11 + |id|, w, h);
    NoSizeBeforeAttribute(s, id);
    FirstDimsMatchIs(s, 0, 13 + |id|);
  }

  /** The size pattern matches a `wh="W H"` attribute whose quote before "wh" is at `q`. */
  lemma {:induction false} SizeAttributeMatches(s: string, q: nat, w: string, h: string)
    requires w != [] && AllDigits(w) && h != [] && AllDigits(h)
    requires |s| == q + 9 + |w| + |h|
    requires s[q..q + 6] == "\" wh=\""
    requires s[q + 6..q + 6 + |w|] == w && s[q + 6 + |w|] == ' '
    requires s[q + 7 + |w|..q + 7 + |w| + |h|] == h && s[q + 7 + |w| + |h|..] == "\">"
    ensures DimsMatchAt(s, q + 2) == Some((w, h))
  {
    SizeAttributeStart(s, q);
    DigitRunOf(s, q + 6, w);
    assert s[q + 7 + |w| + |h|] == s[q + 7 + |w| + |h|..][0];
    DigitRunOf(s, q + 7 + |w|, h);
    DimsMatchAtIs(s, q + 2, w, h);
  }

  /** `" wh="` at `q`: "wh=" at `q + 2`, followed by a quote. */
  lemma {:induction false} SizeAttributeStart(s: string, q: nat)
    requires q + 6 <= |s| && s[q..q + 6] == "\" wh=\""
    ensures OccursAt(s, "wh=", q + 2) && IsQuote(s[q + 5])
  {
    SliceOfSlice(s, q, q + 6, 2, 5);
    assert "\" wh=\""[2..5] == "wh=";
    assert s[q + 5] == s[q..q + 6][5];
  }

  /** The size pattern matches at `i` when its pieces are where it expects them. */
  lemma {:induction false} DimsMatchAtIs(s: string, i: nat, w: string, h: string)
    requires OccursAt(s, "wh=", i) && i + 3 < |s| && IsQuote(s[i + 3])
    requires w != [] && DigitRun(s, i + 4) == |w| && i + 4 + |w| < |s| && s[i + 4 + |w|] == ' '
    requires h != [] && DigitRun(s, i + 5 + |w|) == |h| && i + 5 + |w| + |h| < |s| && IsQuote(s[i + 5 + |w| + |h|])
    requires s[i + 4..i + 4 + |w|] == w && s[i + 5 + |w|..i + 5 + |w| + |h|] == h
    ensures DimsMatchAt(s, i) == Some((w, h))
  {
  }

  /** "wh=" cannot start at `k` when the character there is not 'w' or the one two further is not '='. */
  lemma {:induction false} NoWhAt(s: string, k: int)
    requires 0 <= k && k + 2 < |s| && (s[k] != 'w' || s[k + 2] != '=')
    ensures !OccursAt(s, "wh=", k)
  {
  }

  /** Before the "wh" attribute of a page start tag there is no "wh=" at all. */
  lemma {:induction false} NoSizeBeforeAttribute(s: string, id: string)
    requires PlainId(id) && |s| >= 17 + |id|
    requires s[..11] == "<p xml:id=\"" && s[11..11 + |id|] == id
    requires s[11 + |id|..17 + |id|] == "\" wh=\""
    ensures forall k :: 0 <= k < 13 + |id| ==> DimsMatchAt(s, k).None?
  {
    var n := |id|;
    forall k | 0 <= k < 13 + n
      ensures !OccursAt(s, "wh=", k)
    {
      if k + 2 < 11 {
        assert s[k] == s[..11][k] && s[k + 2] == s[..11][k + 2];
        NoWhAt(s, k);
      } else if k + 2 < 11 + n {
        assert s[k + 2] == s[11..11 + n][k + 2 - 11];
        NoWhAt(s, k);
      } else {
        assert s[k + 2] == s[11 + n..17 + n][k + 2 - (11 + n)];
        NoWhAt(s, k);
      }
    }
  }
}
