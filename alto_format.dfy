/**
 * The ALTO format: upper-case XML elements (`Page`, `TextBlock`,
 * `TextLine`, `String`) whose word text sits in a `CONTENT` attribute, and
 * page identifiers and sizes in the `ID`, `WIDTH` and `HEIGHT` attributes
 * of the page element.
 */
module AltoFormat {
  import opened Common
  import opened OcrFormat
  import T = TagBreakLocator

  /** The element of each block type; sections and paragraphs have none. */
  function BlockTag(b: OcrBlock): Option<string>
  {
    match b
    case PAGE => Some("Page")
    case BLOCK => Some("TextBlock")
    case LINE => Some("TextLine")
    case WORD => Some("String")
    case SECTION => None
    case PARAGRAPH => None
  }

  /** The mapped elements in the order the tag map iterates them. */
  const Tags: seq<string> := ["Page", "TextBlock", "TextLine", "String"]

  /**
   * `getBreakLocator`: a tag locator on the element of the FIRST requested
   * block type (the hierarchy is fixed, so the lowest one is enough), given
   * here as its break tag; an unmapped block type is spelled "null".
   */
  function GetBreakLocator(blockTypes: seq<OcrBlock>): (r: Result<string>)
    ensures r.Err? <==> blockTypes == []
    ensures r.Ok? && BlockTag(blockTypes[0]).Some? ==> r.value == T.BreakTag(BlockTag(blockTypes[0]).value, false)
    ensures r.Ok? && BlockTag(blockTypes[0]).None? ==> r.value == "<null"
  {
    if blockTypes == [] then Err("ArrayIndexOutOfBoundsException")
    else
      var tag := BlockTag(blockTypes[0]);
      Ok(T.BreakTag(if tag.Some? then tag.value else "null", false))
  }

  /** Only the first requested block type matters. */
  lemma {:induction false} BreakLocatorUsesFirstBlock(blockTypes: seq<OcrBlock>)
    requires blockTypes != []
    ensures GetBreakLocator(blockTypes) == GetBreakLocator([blockTypes[0]])
  {
  }

  /**
   * `hasFormat`: the chunk holds the root element or one of the mapped
   * elements, with or without a namespace prefix.
   */
  function HasFormat(chunk: string): bool
  {
    || IndexOf(chunk, "<alto", 0) >= 0
    || IndexOf(chunk, ":alto", 0) >= 0
    || exists j :: 0 <= j < |Tags| && (IndexOf(chunk, "<" + Tags[j], 0) >= 0 || IndexOf(chunk, ":" + Tags[j], 0) >= 0)
  }

  /** The element name `t` appears after '<' or after a namespace prefix's ':'. */
  ghost predicate Mentions(chunk: string, t: string)
  {
    Contains(chunk, "<" + t) || Contains(chunk, ":" + t)
  }

  /** `hasFormat` holds exactly when the root or a page, block, line or word element is mentioned. */
  lemma {:induction false} HasFormatIff(chunk: string)
    ensures HasFormat(chunk) <==>
      Mentions(chunk, "alto") || Mentions(chunk, "Page") || Mentions(chunk, "TextBlock")
      || Mentions(chunk, "TextLine") || Mentions(chunk, "String")
  {
    forall j | 0 <= j < |Tags|
      ensures (IndexOf(chunk, "<" + Tags[j], 0) >= 0 || IndexOf(chunk, ":" + Tags[j], 0) >= 0) == Mentions(chunk, Tags[j])
    {
      IndexOfFindsOccurrence(chunk, "<" + Tags[j]);
      IndexOfFindsOccurrence(chunk, ":" + Tags[j]);
    }
    IndexOfFindsOccurrence(chunk, "<alto");
    IndexOfFindsOccurrence(chunk, ":alto");
    assert "<" + "alto" == "<alto" && ":" + "alto" == ":alto";
    assert Tags[0] == "Page" && Tags[1] == "TextBlock" && Tags[2] == "TextLine" && Tags[3] == "String";
  }

  /** The attribute whose value holds a word's text. */
  const ContentAttr: string := "CONTENT="

  /**
   * `getLastContentStartIdx`: just after the opening quote of the last
   * `CONTENT` attribute, or -1 when there is none.
   */
  function GetLastContentStartIdx(content: string): (r: int)
    ensures r == -1 || (r >= 9 && OccursAt(content, ContentAttr, r - 9))
    ensures r != -1 ==> forall k :: r - 9 < k ==> !OccursAt(content, ContentAttr, k)
    ensures r == -1 ==> forall k :: !OccursAt(content, ContentAttr, k)
  {
    var i := LastIndexOf(content, ContentAttr, |content|);
    if i >= 0 then i + 9 else i
  }

  /**
   * `getFirstContentEndIdx`: the first quote of either kind, which is
   * where the first attribute value the content is in ends.
   */
  function GetFirstContentEndIdx(content: string): (r: int)
    ensures r == QuoteFrom(content, 0)
  {
    var single := IndexOfChar(content, '\'', 0);
    var double := IndexOfChar(content, '"', 0);
    var q := QuoteFrom(content, 0);
    assert q >= 0 ==> content[q] == '\'' || content[q] == '"';
    if single < 0 then double
    else if double < 0 then single
    else Min(single, double)
  }

  // The word around a position: `getContainingWordLimits`.

  const DoubleOpener: string := "CONTENT=\""
  const SingleOpener: string := "CONTENT='"
  const AltOpener: string := "<ALTERNATIVE>"

  /** `Range.closedOpen(lo, hi)`, which refuses a lower bound above the upper one. */
  function ClosedOpen(lo: int, hi: int): (r: Result<(int, int)>)
    ensures r.Ok? <==> lo <= hi
    ensures r.Ok? ==> r.value == (lo, hi)
    ensures r.Err? ==> r.error == "IllegalArgumentException"
  {
    if lo > hi then Err("IllegalArgumentException") else Ok((lo, hi))
  }

  /**
   * A word's text can begin at `e` with delimiter `c`: an opener of that
   * kind starts at or before `position` and ends at `e`.
   */
  ghost predicate OpenerEnd(fragment: string, position: int, e: int, c: char)
  {
    || (c == '"' && e - 9 <= position && OccursAt(fragment, DoubleOpener, e - 9))
    || (c == '\'' && e - 9 <= position && OccursAt(fragment, SingleOpener, e - 9))
    || (c == '<' && e - 13 <= position && OccursAt(fragment, AltOpener, e - 13))
  }

  /**
   * `getContainingWordLimits` as written: each `lastIndexOf` result gets
   * the opener's length added whether it was found or not, so a missing
   * `<ALTERNATIVE>` stands for a start at 12.
   */
  function GetContainingWordLimitsAsWritten(fragment: string, position: int): (r: Result<(int, int)>)
    ensures r.Ok? ==> r.value.0 >= 12 && r.value.0 <= r.value.1
  {
    var d := LastIndexOf(fragment, DoubleOpener, position) + 9;
    var s := LastIndexOf(fragment, SingleOpener, position) + 9;
    var a := LastIndexOf(fragment, AltOpener, position) + 13;
    var start := Max(Max(d, s), a);
    var c := if start == d then '"' else if start == s then '\'' else '<';
    ClosedOpen(start, IndexOfChar(fragment, c, position))
  }

  /** The end of a found opener of length `len` at `i`, or -1 when it was not found. */
  function FoundEnd(i: int, len: nat): int
  {
    if i >= 0 then i + len else -1
  }

  /**
   * Where the word containing `position` begins and which character ends
   * it: after the opener that ends last among those starting at or before
   * `position`; -1 when there is none.
   */
  function WordStart(fragment: string, position: int): (r: (int, char))
    ensures r.0 >= 0 ==> OpenerEnd(fragment, position, r.0, r.1)
    ensures forall e, c :: OpenerEnd(fragment, position, e, c) ==> e <= r.0
  {
    var d := FoundEnd(LastIndexOf(fragment, DoubleOpener, position), 9);
    var s := FoundEnd(LastIndexOf(fragment, SingleOpener, position), 9);
    var a := FoundEnd(LastIndexOf(fragment, AltOpener, position), 13);
    var start := Max(Max(d, s), a);
    (start, if start == d then '"' else if start == s then '\'' else '<')
  }

  /**
   * `getContainingWordLimits`, with only the openers that were found taking
   * part: from the end of the last opener to the next delimiter of its kind.
   * Without any opener the fallback of the code as written is kept.
   */
  function GetContainingWordLimits(fragment: string, position: int): (r: Result<(int, int)>)
    ensures r.Ok? ==> r.value.0 <= r.value.1
    ensures WordStart(fragment, position).0 >= 0 ==>
      r == ClosedOpen(WordStart(fragment, position).0, IndexOfChar(fragment, WordStart(fragment, position).1, position))
    ensures r.Ok? && WordStart(fragment, position).0 >= 0 ==>
      r.value.1 >= position && fragment[r.value.1] == WordStart(fragment, position).1
  {
    var (start, c) := WordStart(fragment, position);
    if start < 0 then ClosedOpen(12, IndexOfChar(fragment, '<', position))
    else ClosedOpen(start, IndexOfChar(fragment, c, position))
  }

  /**
   * A `CONTENT` attribute at the very start of the fragment loses to the
   * missing `<ALTERNATIVE>`: the word range comes out empty at 12 instead
   * of covering "ab".
   */
  lemma {:induction false} WordLimitsSentinelAsWritten()
    ensures GetContainingWordLimitsAsWritten("CONTENT=\"ab\"<", 10) == Ok((12, 12))
    ensures GetContainingWordLimits("CONTENT=\"ab\"<", 10) == Ok((9, 11))
  {
    var f := "CONTENT=\"ab\"<";
    assert OccursAt(f, DoubleOpener, 0);
    forall k | 0 <= k <= 10
      ensures !OccursAt(f, SingleOpener, k) && !OccursAt(f, AltOpener, k)
      ensures k > 0 ==> !OccursAt(f, DoubleOpener, k)
    {
      OccursAtEnds(f, SingleOpener, k);
      OccursAtEnds(f, AltOpener, k);
      OccursAtEnds(f, DoubleOpener, k);
    }
    assert LastIndexOf(f, DoubleOpener, 10) == 0;
    assert LastIndexOf(f, SingleOpener, 10) == -1;
    assert LastIndexOf(f, AltOpener, 10) == -1;
    assert IndexOfChar(f, '<', 10) == 12;
    assert IndexOfChar(f, '"', 10) == 11;
  }

  /**
   * The two agree whenever the word starts at 12 or later, which every
   * `CONTENT` attribute past the fragment's first three characters and
   * every `<ALTERNATIVE>` gives.
   */
  lemma {:induction false} WordLimitsAgreeFromTwelve(fragment: string, position: int)
    requires WordStart(fragment, position).0 >= 12
    ensures GetContainingWordLimitsAsWritten(fragment, position) == GetContainingWordLimits(fragment, position)
  {
  }

  /** An occurrence begins with the needle's first character and ends with its last. */
  lemma {:induction false} OccursAtEnds(s: string, needle: string, k: int)
    requires needle != []
    ensures OccursAt(s, needle, k) ==> s[k] == needle[0] && s[k + |needle| - 1] == needle[|needle| - 1]
  {
    if OccursAt(s, needle, k) {
      assert s[k..k + |needle|][0] == s[k];
      assert s[k..k + |needle|][|needle| - 1] == s[k + |needle| - 1];
    }
  }

  // The page element: `parsePageFragment`.

  /** The attribute values found so far, as the loop's three locals. */
  datatype Attrs = Attrs(width: Option<string>, height: Option<string>, id: Option<string>)

  const NoAttrs := Attrs(None, None, None)

  predicate Complete(a: Attrs) { a.width.Some? && a.height.Some? && a.id.Some? }

  /**
   * One space-separated part of the element: a `WIDTH`, `HEIGHT` or `ID`
   * attribute sets that value, without its first and last character (the
   * quotes); any other part changes nothing. A part that is only '='s, or
   * one of these names without a value of at least two characters, makes
   * Java throw.
   */
  function ScanPart(a: Attrs, elemPart: string): (r: Result<Attrs>)
    ensures r.Ok? && r.value != a ==> |JavaSplit(elemPart, '=')| >= 2 && JavaSplit(elemPart, '=')[0] in {"WIDTH", "HEIGHT", "ID"}
  {
    var parts := JavaSplit(elemPart, '=');
    if parts == [] then Err("ArrayIndexOutOfBoundsException")
    else if parts[0] != "WIDTH" && parts[0] != "HEIGHT" && parts[0] != "ID" then Ok(a)
    else if |parts| < 2 then Err("ArrayIndexOutOfBoundsException")
    else if |parts[1]| < 2 then Err("StringIndexOutOfBoundsException")
    else
      var v := parts[1][1..|parts[1]| - 1];
      Ok(if parts[0] == "WIDTH" then a.(width := Some(v))
         else if parts[0] == "HEIGHT" then a.(height := Some(v))
         else a.(id := Some(v)))
  }

  /** The parts from left to right, stopping as soon as all three values are known. */
  function ScanParts(a: Attrs, elemParts: seq<string>): Result<Attrs>
    decreases |elemParts|
  {
    if elemParts == [] then Ok(a)
    else
      match ScanPart(a, elemParts[0])
      case Err(e) => Err(e)
      case Ok(b) => if Complete(b) then Ok(b) else ScanParts(b, elemParts[1..])
  }

  /**
   * The size, when both values are known and both convert; `toInt` stands
   * for `(int) Double.parseDouble`, with `None` for a `NumberFormatException`.
   */
  function Dims(a: Attrs, toInt: string -> Option<int>): Option<Dimension>
  {
    if a.width.Some? && a.height.Some? && toInt(a.width.value).Some? && toInt(a.height.value).Some?
    then Some(Dimension(toInt(a.width.value).value, toInt(a.height.value).value))
    else None
  }

  /** What `parsePageFragment` returns: the attributes of the first tag, up to its '>'. */
  function PageFragment(pageFragment: string, toInt: string -> Option<int>): Result<OcrPage>
  {
    var gt := IndexOfChar(pageFragment, '>', 0);
    if gt < 0 then Err("StringIndexOutOfBoundsException")
    else
      match ScanParts(NoAttrs, JavaSplit(pageFragment[..gt], ' '))
      case Err(e) => Err(e)
      case Ok(a) => NewPage(a.id, Dims(a, toInt))
  }

  /** One turn of the loop of `parsePageFragment`: the part split at '=' and, for a known name, its value. */
  method ReadPart(a: Attrs, elemPart: string) returns (r: Result<Attrs>)
    ensures r == ScanPart(a, elemPart)
  {
    var parts := JavaSplit(elemPart, '=');
    if |parts| == 0 {
      return Err("ArrayIndexOutOfBoundsException");
    }
    r := Ok(a);
    if parts[0] == "WIDTH" || parts[0] == "HEIGHT" || parts[0] == "ID" {
      if |parts| < 2 {
        return Err("ArrayIndexOutOfBoundsException");
      }
      if |parts[1]| < 2 {
        return Err("StringIndexOutOfBoundsException");
      }
      var value := parts[1][1..|parts[1]| - 1];
      if parts[0] == "WIDTH" {
        r := Ok(a.(width := Some(value)));
      } else if parts[0] == "HEIGHT" {
        r := Ok(a.(height := Some(value)));
      } else {
        r := Ok(a.(id := Some(value)));
      }
    }
  }

  /** `parsePageFragment`, the loop over the element's parts. */
  method ParsePageFragment(pageFragment: string, toInt: string -> Option<int>) returns (r: Result<OcrPage>)
    ensures r == PageFragment(pageFragment, toInt)
  {
    var gt := IndexOfChar(pageFragment, '>', 0);
    if gt < 0 {
      return Err("StringIndexOutOfBoundsException");
    }
    var elemParts := JavaSplit(pageFragment[..gt], ' ');
    var width: Option<string>, height: Option<string>, id: Option<string> := None, None, None;
    var i := 0;
    while i < |elemParts|
      invariant 0 <= i <= |elemParts|
      invariant ScanParts(NoAttrs, elemParts) == ScanParts(Attrs(width, height, id), elemParts[i..])
    {
      assert elemParts[i..][0] == elemParts[i] && elemParts[i..][1..] == elemParts[i + 1..];
      var step := ReadPart(Attrs(width, height, id), elemParts[i]);
      if step.Err? {
        return Err(step.error);
      }
      width, height, id := step.value.width, step.value.height, step.value.id;
      if id.Some? && width.Some? && height.Some? {
        break;
      }
      i := i + 1;
    }
    var dims: Option<Dimension> := None;
    if width.Some? && height.Some? {
      var w, h := toInt(width.value), toInt(height.value);
      if w.Some? && h.Some? {
        dims := Some(Dimension(w.value, h.value));
      }
    }
    r := NewPage(id, dims);
  }

  // A page element as an ALTO writer emits it, and its round trip.

  /** `NAME="value"`. */
  function Attr(name: string, value: string): string
  {
    name + "=\"" + value + "\""
  }

  function PageTagParts(id: string, w: nat, h: nat): seq<string>
  {
    ["<Page", Attr("ID", id), Attr("WIDTH", NatToString(w)), Attr("HEIGHT", NatToString(h))]
  }

  /** `<Page ID="id" WIDTH="w" HEIGHT="h">`. */
  function PageStartTag(id: string, w: nat, h: nat): string
  {
    Join(PageTagParts(id, w, h), " ") + ">"
  }

  /** An identifier that survives the lean parsing: no space, '=' or '>' in it. */
  predicate PlainId(id: string)
  {
    ' ' !in id && '=' !in id && '>' !in id
  }

  /** A character in none of the pieces and not the separator is not in the join. */
  lemma {:induction false} CharNotInJoin(parts: seq<string>, sep: string, c: char)
    requires c !in sep && forall i :: 0 <= i < |parts| ==> c !in parts[i]
    ensures c !in Join(parts, sep)
    decreases |parts|
  {
    if |parts| > 1 {
      CharNotInJoin(parts[1..], sep, c);
    }
  }

  /** An attribute splits at its one '=' into its name and its quoted value. */
  lemma {:induction false} AttrSplits(name: string, value: string)
    requires name != [] && '=' !in name && '=' !in value
    ensures JavaSplit(Attr(name, value), '=') == [name, "\"" + value + "\""]
  {
    var q := "\"" + value + "\"";
    assert Attr(name, value) == Join([name, q], "=");
    assert '=' !in q;
    JavaSplitJoin([name, q], '=');
  }

  /** Scanning an attribute part of one of the three names records its unquoted value. */
  lemma {:induction false} ScanAttr(a: Attrs, name: string, value: string)
    requires name == "WIDTH" || name == "HEIGHT" || name == "ID"
    requires '=' !in value
    ensures ScanPart(a, Attr(name, value)) == Ok(
      if name == "WIDTH" then a.(width := Some(value))
      else if name == "HEIGHT" then a.(height := Some(value))
      else a.(id := Some(value)))
  {
    AttrSplits(name, value);
    var q := "\"" + value + "\"";
    assert q[1..|q| - 1] == value;
  }

  /** The parts of the page element scan to its identifier and size. */
  lemma {:induction false} ScanPageTag(id: string, w: nat, h: nat)
    requires PlainId(id)
    ensures ScanParts(NoAttrs, PageTagParts(id, w, h)) == Ok(Attrs(Some(NatToString(w)), Some(NatToString(h)), Some(id)))
  {
    var p := PageTagParts(id, w, h);
    assert '=' !in "<Page";
    assert JavaSplit("<Page", '=') == ["<Page"];
    assert ScanPart(NoAttrs, p[0]) == Ok(NoAttrs);
    ScanAttr(NoAttrs, "ID", id);
    var a1 := NoAttrs.(id := Some(id));
    ScanAttr(a1, "WIDTH", NatToString(w));
    var a2 := a1.(width := Some(NatToString(w)));
    ScanAttr(a2, "HEIGHT", NatToString(h));
    assert p[1..][1..][1..] == [p[3]];
    assert ScanParts(a2, p[1..][1..][1..]) == Ok(a2.(height := Some(NatToString(h))));
    assert ScanParts(a1, p[1..][1..]) == ScanParts(a2, p[1..][1..][1..]);
    assert ScanParts(NoAttrs, p[1..]) == ScanParts(a1, p[1..][1..]);
  }

  /**
   * Round trip: a fragment that starts with a page element written with an
   * identifier and a size parses back to that page, provided the number
   * conversion reads the written digits back.
   */
  lemma {:induction false} ParsePageStartTag(id: string, w: nat, h: nat, rest: string, toInt: string -> Option<int>)
    requires PlainId(id)
    requires toInt(NatToString(w)) == Some(w) && toInt(NatToString(h)) == Some(h)
    ensures PageFragment(PageStartTag(id, w, h) + rest, toInt) == Ok(OcrPage(id, Some(Dimension(w, h))))
  {
    var p := PageTagParts(id, w, h);
    var head := Join(p, " ");
    var s := PageStartTag(id, w, h) + rest;
    forall i | 0 <= i < |p|
      ensures '>' !in p[i] && ' ' !in p[i]
    {
      assert '>' !in "<Page" && ' ' !in "<Page";
    }
    CharNotInJoin(p, " ", '>');
    assert s == head + ">" + rest;
    assert s[|head|] == '>';
    var gt := IndexOfChar(s, '>', 0);
    assert forall k :: 0 <= k < |head| ==> s[k] == head[k];
    assert gt == |head|;
    assert s[..gt] == head;
    JavaSplitJoin(p, ' ');
    ScanPageTag(id, w, h);
  }

  /** A fragment that starts with a page element is recognised as ALTO. */
  lemma {:induction false} PageStartTagHasFormat(id: string, w: nat, h: nat, rest: string)
    ensures HasFormat(PageStartTag(id, w, h) + rest)
  {
    var s := PageStartTag(id, w, h) + rest;
    var p := PageTagParts(id, w, h);
    assert p[0] == "<Page";
    assert Join(p, " ") == "<Page" + " " + Join(p[1..], " ");
    assert s[..5] == "<Page";
    assert OccursAt(s, "<" + Tags[0], 0);
  }
}
