/**
 * The MiniOCR conversion script (util/miniocr.py): the box types it knows,
 * the named-entity rewrite it applies to hOCR before parsing, the escaping
 * of word text, and the writer that turns parse events into MiniOCR markup.
 * The hOCR and ALTO readers that produce the events are in MiniOcrParse.
 */
module MiniOcr {
  import opened Common
  import OcrFormat
  import MiniOcrFormat

  // ---------------------------------------------------------------------
  // Events and box types

  datatype EventKind = Start | End | Text

  datatype BoxType = Page | Block | Line | Word

  /**
   * The coordinates of a box: whole pixels, or (for ALTO documents measured
   * in other units) each value as the four-decimal rendering of its ratio to
   * the page size.
   */
  datatype Coords =
    | Pixels(x: int, y: int, width: int, height: int)
    | Relative(rx: string, ry: string, rwidth: string, rheight: string)

  /** One event of the stream shared by the two readers and the writer. */
  datatype ParseEvent = ParseEvent(kind: EventKind, boxType: Option<BoxType>, pageId: Option<string>,
                                   coords: Option<Coords>, text: Option<string>)

  /** An event carrying only its kind and box type. */
  function Bare(kind: EventKind, b: BoxType): ParseEvent
  {
    ParseEvent(kind, Some(b), None, None, None)
  }

  /** A coordinate-less text event. */
  function TextEvent(t: string): ParseEvent
  {
    ParseEvent(Text, None, None, None, Some(t))
  }

  /** U+00AD SOFT HYPHEN: the word continues on the next line. */
  const SoftHyphen: char := '\U{00AD}'

  /** U+21FF, which joins the alternative readings of a word. */
  const AlternativeMark: string := "\U{21FF}"

  /** The hOCR classes that open a box. */
  function FromHocrClass(val: Option<string>): Option<BoxType>
  {
    if val == Some("ocr_page") then Some(Page)
    else if val == Some("ocr_carea") || val == Some("ocr_par") || val == Some("ocrx_block") then Some(Block)
    else if val == Some("ocr_line") then Some(Line)
    else if val == Some("ocrx_word") then Some(Word)
    else None
  }

  /** Exactly the six box classes of hOCR open a box, each of its own type. */
  lemma FromHocrClassRecognises(val: Option<string>)
    ensures FromHocrClass(val) == Some(Page) <==> val == Some("ocr_page")
    ensures FromHocrClass(val) == Some(Block) <==> val == Some("ocr_carea") || val == Some("ocr_par") || val == Some("ocrx_block")
    ensures FromHocrClass(val) == Some(Line) <==> val == Some("ocr_line")
    ensures FromHocrClass(val) == Some(Word) <==> val == Some("ocrx_word")
    ensures FromHocrClass(val).None? <==>
      val !in {Some("ocr_page"), Some("ocr_carea"), Some("ocr_par"), Some("ocrx_block"), Some("ocr_line"), Some("ocrx_word")}
  {
  }

  /** The ALTO elements that open a box (namespace already stripped). */
  function FromAltoTag(val: string): Option<BoxType>
  {
    if val == "Page" then Some(Page)
    else if val == "PrintSpace" || val == "TextBlock" then Some(Block)
    else if val == "TextLine" then Some(Line)
    else if val == "String" then Some(Word)
    else None
  }

  /** Exactly the five box elements of ALTO open a box, each of its own type. */
  lemma FromAltoTagRecognises(val: string)
    ensures FromAltoTag(val) == Some(Page) <==> val == "Page"
    ensures FromAltoTag(val) == Some(Block) <==> val == "PrintSpace" || val == "TextBlock"
    ensures FromAltoTag(val) == Some(Line) <==> val == "TextLine"
    ensures FromAltoTag(val) == Some(Word) <==> val == "String"
    ensures FromAltoTag(val).None? <==> val !in {"Page", "PrintSpace", "TextBlock", "TextLine", "String"}
  {
  }

  /** The MiniOCR element written for a box type. */
  function MiniOcrTag(b: BoxType): string
  {
    match b
    case Page => "p"
    case Block => "b"
    case Line => "l"
    case Word => "w"
  }

  /** The block type of the search side that a converter box type stands for. */
  function AsOcrBlock(b: BoxType): OcrFormat.OcrBlock
  {
    match b
    case Page => OcrFormat.PAGE
    case Block => OcrFormat.BLOCK
    case Line => OcrFormat.LINE
    case Word => OcrFormat.WORD
  }

  /**
   * The tags written are exactly the tags the MiniOCR format reads for the
   * same block type, and different box types get different tags.
   */
  lemma MiniOcrTagsMatchFormat(a: BoxType, b: BoxType)
    ensures MiniOcrFormat.BlockTag(AsOcrBlock(a)) == Some(MiniOcrTag(a))
    ensures MiniOcrTag(a) == MiniOcrTag(b) <==> a == b
    ensures |MiniOcrTag(a)| == 1
  {
  }

  // ---------------------------------------------------------------------
  // Named entities (parse_hocr's rewrite before the XML parser)

  /** A numeric character reference `&#N;`, N in decimal. */
  function CharRef(c: char): (r: string)
    ensures |r| >= 4 && r[0] == '&' && r[1] == '#' && r[|r| - 1] == ';'
    ensures MarkupSafe(r)
  {
    var d := NatToString(c as int);
    var r := "&#" + d + ";";
    forall k | 0 <= k < |r|
      ensures !IsMarkupChar(r[k]) || (r[k] == '&' && k + 1 < |r| && r[k + 1] == '#')
    {
      if 2 <= k < |d| + 2 {
        assert r[k] == d[k - 2] && IsAsciiDigit(d[k - 2]);
      }
    }
    r
  }

  /** The references of the special names are those of their characters. */
  lemma SpecialRefsAreCharRefs()
    ensures CharRef('<') == "&#60;" && CharRef('>') == "&#62;" && CharRef('&') == "&#38;"
    ensures CharRef('"') == "&#34;" && CharRef('\'') == "&#39;"
  {
    assert NatToString(6) == "6" && NatToString(3) == "3";
    assert NatToString(60) == NatToString(6) + [DigitChar(0)];
    assert NatToString(62) == NatToString(6) + [DigitChar(2)];
    assert NatToString(38) == NatToString(3) + [DigitChar(8)];
    assert NatToString(34) == NatToString(3) + [DigitChar(4)];
    assert NatToString(39) == NatToString(3) + [DigitChar(9)];
  }

  /** `encode("ascii", "xmlcharrefreplace")`: non-ASCII characters become numeric references. */
  function AsciiCharRefs(s: string): (r: string)
    ensures forall k :: 0 <= k < |r| ==> r[k] as int < 0x80
    decreases |s|
  {
    if s == [] then []
    else (if s[0] as int < 0x80 then [s[0]] else CharRef(s[0])) + AsciiCharRefs(s[1..])
  }

  predicate IsMarkupChar(c: char)
  {
    c == '<' || c == '>' || c == '&' || c == '"' || c == '\''
  }

  /**
   * Markup-safe text: none of `<`, `>`, `"`, `'`, and every `&` opens a
   * numeric reference.
   */
  predicate MarkupSafe(t: string)
  {
    forall k :: 0 <= k < |t| ==> !IsMarkupChar(t[k]) || (t[k] == '&' && k + 1 < |t| && t[k + 1] == '#')
  }

  lemma MarkupSafeConcat(a: string, b: string)
    requires MarkupSafe(a) && MarkupSafe(b)
    ensures MarkupSafe(a + b)
  {
    forall k | 0 <= k < |a + b|
      ensures !IsMarkupChar((a + b)[k]) || ((a + b)[k] == '&' && k + 1 < |a + b| && (a + b)[k + 1] == '#')
    {
      if k >= |a| {
        assert (a + b)[k] == b[k - |a|];
        assert !IsMarkupChar(b[k - |a|]) || (b[k - |a|] == '&' && k - |a| + 1 < |b| && b[k - |a| + 1] == '#');
        if k + 1 < |a + b| {
          assert (a + b)[k + 1] == b[k + 1 - |a|];
        }
      } else {
        assert (a + b)[k] == a[k];
        assert !IsMarkupChar(a[k]) || (a[k] == '&' && k + 1 < |a| && a[k + 1] == '#');
        if k + 1 < |a| {
          assert (a + b)[k + 1] == a[k + 1];
        }
      }
    }
  }

  /** How one character of an entity's expansion is written. */
  function CharPiece(c: char): (r: string)
    ensures MarkupSafe(r)
  {
    if c as int < 0x80 && !IsMarkupChar(c) then [c] else CharRef(c)
  }

  /** Like `AsciiCharRefs`, but the five markup characters become references too. */
  function MarkupCharRefs(s: string): (r: string)
    ensures MarkupSafe(r)
    decreases |s|
  {
    if s == [] then []
    else
      var rest := MarkupCharRefs(s[1..]);
      MarkupSafeConcat(CharPiece(s[0]), rest);
      CharPiece(s[0]) + rest
  }

  /** The five names `convert_entity` answers itself, with their references. */
  function SpecialRef(name: string): Option<string>
  {
    if name == "lt" then Some("&#60;")
    else if name == "gt" then Some("&#62;")
    else if name == "amp" then Some("&#38;")
    else if name == "quot" then Some("&#34;")
    else if name == "apos" then Some("&#39;")
    else None
  }

  /**
   * `convert_entity` as written: every name except the five lower-case
   * markup names becomes its expansion with only non-ASCII characters
   * turned into references, so the legacy upper-case `LT`, `GT`, `AMP` and
   * `QUOT` expand to raw markup characters.
   */
  function ConvertEntityAsWritten(name: string, expansion: string -> string): (r: string)
    ensures SpecialRef(name).Some? ==> r == SpecialRef(name).value
  {
    var special := SpecialRef(name);
    if special.Some? then special.value else AsciiCharRefs(expansion(name))
  }

  /** `&LT;` is turned into a raw `<` before the document reaches the XML parser. */
  lemma UpperCaseLtLeaksMarkup(expansion: string -> string)
    requires expansion("LT") == "<"
    ensures ConvertEntityAsWritten("LT", expansion) == "<"
    ensures !MarkupSafe(ConvertEntityAsWritten("LT", expansion))
  {
    assert AsciiCharRefs("<") == ['<'] + AsciiCharRefs([]);
  }

  /** `convert_entity` with every markup character of an expansion written as a reference. */
  function ConvertEntity(name: string, expansion: string -> string): (r: string)
    ensures MarkupSafe(r)
  {
    var special := SpecialRef(name);
    if special.Some? then
      SpecialRefsAreCharRefs();
      special.value
    else MarkupCharRefs(expansion(name))
  }

  /** What a named reference stands for in HTML. */
  function Meaning(name: string, expansion: string -> string): string
  {
    if name == "lt" then "<"
    else if name == "gt" then ">"
    else if name == "amp" then "&"
    else if name == "quot" then "\""
    else if name == "apos" then "'"
    else expansion(name)
  }

  predicate IsScalarValue(n: int)
  {
    0 <= n < 0xD800 || 0xE000 <= n < 0x11_0000
  }

  /** How an XML reader takes decimal numeric references: `&#N;` stands for the character N. */
  function DecodeRefs(t: string): string
    decreases |t|
  {
    if t == [] then []
    else if |t| >= 2 && t[0] == '&' && t[1] == '#' then
      var j := IndexOfChar(t, ';', 2);
      if j > 2 && AllDigits(t[2..j]) && IsScalarValue(ParseNat(t[2..j])) then
        [ParseNat(t[2..j]) as char] + DecodeRefs(t[j + 1..])
      else [t[0]] + DecodeRefs(t[1..])
    else [t[0]] + DecodeRefs(t[1..])
  }

  /** A numeric reference is read back as its character. */
  lemma DecodeCharRef(c: char, rest: string)
    ensures DecodeRefs(CharRef(c) + rest) == [c] + DecodeRefs(rest)
  {
    var d := NatToString(c as int);
    var t := CharRef(c) + rest;
    assert t == "&#" + d + ";" + rest;
    var j := IndexOfChar(t, ';', 2);
    assert t[2 + |d|] == ';';
    forall k | 2 <= k < 2 + |d|
      ensures t[k] != ';'
    {
      assert t[k] == d[k - 2];
    }
    assert j == 2 + |d|;
    assert t[2..j] == d;
    ParseNatToString(c as int);
    assert t[j + 1..] == rest;
  }

  /** A character written as itself is read back as itself. */
  lemma DecodePlain(c: char, rest: string)
    requires c != '&'
    ensures DecodeRefs([c] + rest) == [c] + DecodeRefs(rest)
  {
    assert ([c] + rest)[1..] == rest;
  }

  /** One written character is read back as itself. */
  lemma DecodePiece(c: char, rest: string)
    ensures DecodeRefs(CharPiece(c) + rest) == [c] + DecodeRefs(rest)
  {
    if c as int < 0x80 && !IsMarkupChar(c) {
      DecodePlain(c, rest);
    } else {
      DecodeCharRef(c, rest);
    }
  }

  /** The references written for an expansion are read back as the expansion. */
  lemma {:induction false} DecodeMarkupCharRefs(s: string, rest: string)
    ensures DecodeRefs(MarkupCharRefs(s) + rest) == s + DecodeRefs(rest)
    decreases |s|
  {
    if s == [] {
      assert MarkupCharRefs(s) + rest == rest;
    } else {
      var tail := MarkupCharRefs(s[1..]) + rest;
      assert MarkupCharRefs(s) + rest == CharPiece(s[0]) + tail;
      DecodeMarkupCharRefs(s[1..], rest);
      DecodePiece(s[0], tail);
      assert s == [s[0]] + s[1..];
      ConcatAssoc([s[0]], s[1..], DecodeRefs(rest));
    }
  }

  /** A converted entity is read by the XML parser as what the entity means. */
  lemma ConvertEntityMeans(name: string, expansion: string -> string, rest: string)
    ensures DecodeRefs(ConvertEntity(name, expansion) + rest) == Meaning(name, expansion) + DecodeRefs(rest)
  {
    SpecialRefsAreCharRefs();
    if name == "lt" {
      DecodeCharRef('<', rest);
    } else if name == "gt" {
      DecodeCharRef('>', rest);
    } else if name == "amp" {
      DecodeCharRef('&', rest);
    } else if name == "quot" {
      DecodeCharRef('"', rest);
    } else if name == "apos" {
      DecodeCharRef('\'', rest);
    } else {
      DecodeMarkupCharRefs(expansion(name), rest);
    }
  }

  /**
   * The first name of the table, in table order, such that `&name;` starts
   * the text: the alternation of ENTITIES_PAT tries its names in order.
   */
  function FirstEntityName(t: string, names: seq<string>): (r: Option<string>)
    ensures r.Some? ==> r.value in names && OccursAt(t, "&" + r.value + ";", 0)
    ensures r.None? ==> forall n :: n in names ==> !OccursAt(t, "&" + n + ";", 0)
  {
    if names == [] then None
    else if OccursAt(t, "&" + names[0] + ";", 0) then Some(names[0])
    else FirstEntityName(t, names[1..])
  }

  /** `ENTITIES_PAT.sub(convert_entity, text)`: each named reference, scanning left to right, is converted. */
  function FixEntities(t: string, names: seq<string>, expansion: string -> string): string
    decreases |t|
  {
    if t == [] then []
    else
      var name := if t[0] == '&' then FirstEntityName(t, names) else None;
      if name.Some? then ConvertEntity(name.value, expansion) + FixEntities(t[|name.value| + 2..], names, expansion)
      else [t[0]] + FixEntities(t[1..], names, expansion)
  }

  /** The text an HTML reader sees: every named reference replaced by its meaning. */
  function ExpandEntities(t: string, names: seq<string>, expansion: string -> string): string
    decreases |t|
  {
    if t == [] then []
    else
      var name := if t[0] == '&' then FirstEntityName(t, names) else None;
      if name.Some? then Meaning(name.value, expansion) + ExpandEntities(t[|name.value| + 2..], names, expansion)
      else [t[0]] + ExpandEntities(t[1..], names, expansion)
  }

  /** Every `&` of the text opens a reference named in the table. */
  predicate AmpersandsNamed(t: string, names: seq<string>)
  {
    forall k :: 0 <= k < |t| && t[k] == '&' ==> FirstEntityName(t[k..], names).Some?
  }

  /** Text without `&` goes through the rewrite unchanged. */
  lemma {:induction false} FixEntitiesKeepsPlainText(t: string, names: seq<string>, expansion: string -> string)
    requires '&' !in t
    ensures FixEntities(t, names, expansion) == t
    decreases |t|
  {
    if t != [] {
      FixEntitiesKeepsPlainText(t[1..], names, expansion);
      assert t == [t[0]] + t[1..];
    }
  }

  /**
   * For a document whose every `&` opens a named reference, the XML parser
   * reads the rewritten document as the HTML reading of the original.
   */
  lemma {:induction false} FixEntitiesPreservesText(t: string, names: seq<string>, expansion: string -> string)
    requires AmpersandsNamed(t, names)
    ensures DecodeRefs(FixEntities(t, names, expansion)) == ExpandEntities(t, names, expansion)
    decreases |t|
  {
    if t != [] {
      var name := if t[0] == '&' then FirstEntityName(t, names) else None;
      if name.Some? {
        var n := |name.value| + 2;
        forall k | 0 <= k < |t[n..]| && t[n..][k] == '&'
          ensures FirstEntityName(t[n..][k..], names).Some?
        {
          assert t[n..][k..] == t[n + k..];
        }
        FixEntitiesPreservesText(t[n..], names, expansion);
        ConvertEntityMeans(name.value, expansion, FixEntities(t[n..], names, expansion));
      } else {
        assert t[0] != '&' by {
          assert t[0..] == t;
        }
        forall k | 0 <= k < |t[1..]| && t[1..][k] == '&'
          ensures FirstEntityName(t[1..][k..], names).Some?
        {
          assert t[1..][k..] == t[1 + k..];
        }
        FixEntitiesPreservesText(t[1..], names, expansion);
        DecodePlain(t[0], FixEntities(t[1..], names, expansion));
      }
    }
  }

  // ---------------------------------------------------------------------
  // Escaping (html.escape with quote=True)

  function EscapeChar(c: char): string
  {
    if c == '&' then "&amp;"
    else if c == '<' then "&lt;"
    else if c == '>' then "&gt;"
    else if c == '"' then "&quot;"
    else if c == '\'' then "&#x27;"
    else [c]
  }

  /** `html.escape(s)`: the five markup characters become references. */
  function Escape(s: string): (r: string)
    ensures forall k :: 0 <= k < |r| ==> r[k] != '<' && r[k] != '>' && r[k] != '"' && r[k] != '\''
    ensures |r| >= |s|
    decreases |s|
  {
    if s == [] then [] else EscapeChar(s[0]) + Escape(s[1..])
  }

  /** How a reader takes the five references `html.escape` writes. */
  function Unescape(t: string): string
    decreases |t|
  {
    if t == [] then []
    else if t[0] != '&' || |t| < 2 then [t[0]] + Unescape(t[1..])
    else if t[1] == 'a' && |t| >= 5 && t[..5] == "&amp;" then "&" + Unescape(t[5..])
    else if t[1] == 'l' && |t| >= 4 && t[..4] == "&lt;" then "<" + Unescape(t[4..])
    else if t[1] == 'g' && |t| >= 4 && t[..4] == "&gt;" then ">" + Unescape(t[4..])
    else if t[1] == 'q' && |t| >= 6 && t[..6] == "&quot;" then "\"" + Unescape(t[6..])
    else if t[1] == '#' && |t| >= 6 && t[..6] == "&#x27;" then "'" + Unescape(t[6..])
    else [t[0]] + Unescape(t[1..])
  }

  lemma UnescapeChar(c: char, rest: string)
    ensures Unescape(EscapeChar(c) + rest) == [c] + Unescape(rest)
  {
    var e := EscapeChar(c);
    var t := e + rest;
    if IsMarkupChar(c) {
      assert t[..|e|] == e && t[|e|..] == rest;
      assert t[0] == '&' && t[1] == e[1];
    } else {
      assert t[0] == c && t[1..] == rest;
    }
  }

  /** Escaped text is read back as the original text. */
  lemma {:induction false} UnescapeEscape(s: string)
    ensures Unescape(Escape(s)) == s
    decreases |s|
  {
    if s != [] {
      UnescapeEscape(s[1..]);
      UnescapeChar(s[0], Escape(s[1..]));
      assert s == [s[0]] + s[1..];
    }
  }

  // ---------------------------------------------------------------------
  // The writer (generate_miniocr)

  /** Python's `str.isspace` on one character. */
  predicate IsPyWhitespace(c: char)
  {
    ('\U{0009}' <= c <= '\U{000D}') || ('\U{001C}' <= c <= '\U{0020}') || c == '\U{0085}' || c == '\U{00A0}'
    || c == '\U{1680}' || ('\U{2000}' <= c <= '\U{200A}') || c == '\U{2028}' || c == '\U{2029}'
    || c == '\U{202F}' || c == '\U{205F}' || c == '\U{3000}'
  }

  /** `not text.strip()`: the text is whitespace only. */
  predicate IsBlankText(t: string)
  {
    forall k :: 0 <= k < |t| ==> IsPyWhitespace(t[k])
  }

  /** `text.endswith("\xad")`. */
  predicate EndsWithHyphen(t: string)
  {
    t != [] && t[|t| - 1] == SoftHyphen
  }

  /**
   * A relative coordinate as written: the four-decimal rendering with its
   * first character cut off, meant to drop the leading zero of `0.1234`.
   */
  function FractionAsWritten(fixed: string): string
  {
    if fixed == [] then [] else fixed[1..]
  }

  /** A full-extent coordinate, rendered `1.0000`, is written as `.0000`, which reads as zero. */
  lemma FullExtentReadsAsZero()
    ensures FractionAsWritten("1.0000") == ".0000"
    ensures Fraction("1.0000") == "1.0000"
  {
  }

  /** A relative coordinate with only a leading zero dropped. */
  function Fraction(fixed: string): (r: string)
    ensures fixed == r || fixed == "0" + r
    ensures fixed != [] && fixed[0] != '0' ==> r == fixed
    ensures |fixed| >= 2 && fixed[0] == '0' && fixed[1] == '.' ==> r == fixed[1..]
  {
    if |fixed| >= 2 && fixed[0] == '0' then
      assert fixed == "0" + fixed[1..];
      fixed[1..]
    else fixed
  }

  /** The attributes of a page: its identifier when non-empty, its size when both sides are non-zero pixels. */
  function PageAttributes(e: ParseEvent): seq<string>
  {
    (if e.pageId.Some? && e.pageId.value != [] then ["xml:id=\"" + e.pageId.value + "\""] else [])
    + match e.coords
      case Some(Pixels(_, _, w, h)) => if w != 0 && h != 0 then ["wh=\"" + IntToString(w) + " " + IntToString(h) + "\""] else []
      case _ => []
  }

  /** The coordinate attribute of a word, quoted in both forms. */
  function WordAttributes(e: ParseEvent): seq<string>
  {
    match e.coords
    case Some(Pixels(x, y, w, h)) =>
      ["x=\"" + IntToString(x) + " " + IntToString(y) + " " + IntToString(w) + " " + IntToString(h) + "\""]
    case Some(Relative(x, y, w, h)) =>
      ["x=\"" + Fraction(x) + " " + Fraction(y) + " " + Fraction(w) + " " + Fraction(h) + "\""]
    case None => []
  }

  /** The coordinate attribute of a word as written: relative values go unquoted. */
  function WordAttributesAsWritten(e: ParseEvent): seq<string>
  {
    match e.coords
    case Some(Pixels(x, y, w, h)) =>
      ["x=\"" + IntToString(x) + " " + IntToString(y) + " " + IntToString(w) + " " + IntToString(h) + "\""]
    case Some(Relative(x, y, w, h)) =>
      ["x=" + FractionAsWritten(x) + " " + FractionAsWritten(y) + " " + FractionAsWritten(w) + " " + FractionAsWritten(h)]
    case None => []
  }

  /** `<tag attr ...>`, or `<tag>` without attributes. */
  function OpenTag(b: BoxType, attrs: seq<string>): (r: string)
    ensures |r| >= 3 && r[0] == '<' && r[1..2] == MiniOcrTag(b) && (r[2] == ' ' || r[2] == '>') && r[|r| - 1] == '>'
  {
    if attrs == [] then "<" + MiniOcrTag(b) + ">" else "<" + MiniOcrTag(b) + " " + Join(attrs, " ") + ">"
  }

  function StartTag(b: BoxType, e: ParseEvent): string
  {
    OpenTag(b, if b == Page then PageAttributes(e) else if b == Word then WordAttributes(e) else [])
  }

  function CloseTag(b: BoxType): string
  {
    "</" + MiniOcrTag(b) + ">"
  }

  /** What the writer has produced so far, and whether the last text written ended in a soft hyphen. */
  datatype Written = Written(chunks: seq<string>, hyphen: bool)

  /** The chunks written for one event, given the hyphen flag before it. */
  function EventChunks(e: ParseEvent, hyphen: bool): Written
  {
    if e.kind == Text && e.text.Some? && e.text.value != [] then
      if hyphen && IsBlankText(e.text.value) then Written([], hyphen)
      else Written([Escape(e.text.value)], EndsWithHyphen(e.text.value))
    else if e.boxType.None? then Written([], hyphen)
    else
      var b := e.boxType.value;
      if e.kind == Start then
        if b == Word && e.text.Some? then Written([StartTag(b, e), Escape(e.text.value)], EndsWithHyphen(e.text.value))
        else Written([StartTag(b, e)], hyphen)
      else if e.kind == End then
        Written([CloseTag(b)] + (if b == Line && !hyphen then [" "] else []), hyphen)
      else Written([], hyphen)
  }

  /** The chunks of one event as written: text events unescaped, relative coordinates unquoted. */
  function EventChunksAsWritten(e: ParseEvent, hyphen: bool): Written
  {
    if e.kind == Text && e.text.Some? && e.text.value != [] then
      if hyphen && IsBlankText(e.text.value) then Written([], hyphen)
      else Written([e.text.value], EndsWithHyphen(e.text.value))
    else if e.boxType.None? then Written([], hyphen)
    else
      var b := e.boxType.value;
      var attrs := if b == Page then PageAttributes(e) else if b == Word then WordAttributesAsWritten(e) else [];
      if e.kind == Start then
        if b == Word && e.text.Some? then Written([OpenTag(b, attrs), Escape(e.text.value)], EndsWithHyphen(e.text.value))
        else Written([OpenTag(b, attrs)], hyphen)
      else if e.kind == End then
        Written([CloseTag(b)] + (if b == Line && !hyphen then [" "] else []), hyphen)
      else Written([], hyphen)
  }

  /** Everything written for a sequence of events, before the closing `</ocr>`. */
  function WriteAll(events: seq<ParseEvent>): Written
    decreases |events|
  {
    if events == [] then Written([], false)
    else
      var w := WriteAll(events[..|events| - 1]);
      var step := EventChunks(events[|events| - 1], w.hyphen);
      Written(w.chunks + step.chunks, step.hyphen)
  }

  /** One more event written. */
  lemma WriteAllSnoc(events: seq<ParseEvent>, i: nat)
    requires i < |events|
    ensures var w := WriteAll(events[..i]);
      WriteAll(events[..i + 1]) == Written(w.chunks + EventChunks(events[i], w.hyphen).chunks, EventChunks(events[i], w.hyphen).hyphen)
  {
    assert events[..i + 1][..i] == events[..i];
  }

  /** `generate_miniocr`: the events written out between `<ocr>` and `</ocr>`. */
  method GenerateMiniOcr(events: seq<ParseEvent>) returns (out: seq<string>)
    ensures out == ["<ocr>"] + WriteAll(events).chunks + ["</ocr>"]
  {
    out := ["<ocr>"];
    var lastTextWasHyphen := false;
    ghost var written := Written([], false);
    var i := 0;
    while i < |events|
      invariant 0 <= i <= |events|
      invariant written == WriteAll(events[..i])
      invariant out == ["<ocr>"] + written.chunks && lastTextWasHyphen == written.hyphen
    {
      var step := EventChunks(events[i], lastTextWasHyphen);
      WriteAllSnoc(events, i);
      ConcatAssoc(["<ocr>"], written.chunks, step.chunks);
      out := out + step.chunks;
      lastTextWasHyphen := step.hyphen;
      written := Written(written.chunks + step.chunks, step.hyphen);
      i := i + 1;
    }
    assert events[..i] == events;
    out := out + ["</ocr>"];
  }

  // ---------------------------------------------------------------------
  // What a reader of the output sees

  datatype Tag = Open(name: string) | Close(name: string)

  /** The end of an element name starting at `k`: the first space or `>`. */
  function NameEnd(c: string, k: nat): (r: nat)
    ensures k <= r <= |c| || (k > |c| && r == k)
    decreases |c| - k
  {
    if k >= |c| || c[k] == ' ' || c[k] == '>' then k else NameEnd(c, k + 1)
  }

  /** The tag a chunk opens with, if it starts with `<`. */
  function ChunkTag(c: string): Option<Tag>
  {
    if |c| >= 2 && c[0] == '<' && c[1] == '/' then
      Some(Close(c[2..Min(NameEnd(c, 2), |c|)]))
    else if |c| >= 1 && c[0] == '<' then
      Some(Open(c[1..Min(NameEnd(c, 1), |c|)]))
    else None
  }

  /** The tags of a chunk sequence, in order. */
  function Tags(chunks: seq<string>): seq<Tag>
    decreases |chunks|
  {
    if chunks == [] then []
    else
      var t := ChunkTag(chunks[|chunks| - 1]);
      Tags(chunks[..|chunks| - 1]) + (if t.Some? then [t.value] else [])
  }

  lemma {:induction false} TagsAppend(a: seq<string>, b: seq<string>)
    ensures Tags(a + b) == Tags(a) + Tags(b)
    decreases |b|
  {
    if b == [] {
      assert a + b == a;
    } else {
      assert (a + b)[..|a + b| - 1] == a + b[..|b| - 1];
      TagsAppend(a, b[..|b| - 1]);
    }
  }

  /** The tag an event stands for: its box opened or closed. */
  function EventTag(e: ParseEvent): seq<Tag>
  {
    if e.boxType.Some? && e.kind == Start then [Open(MiniOcrTag(e.boxType.value))]
    else if e.boxType.Some? && e.kind == End then [Close(MiniOcrTag(e.boxType.value))]
    else []
  }

  function EventTags(events: seq<ParseEvent>): seq<Tag>
    decreases |events|
  {
    if events == [] then [] else EventTags(events[..|events| - 1]) + EventTag(events[|events| - 1])
  }

  lemma TagsOne(c: string)
    ensures Tags([c]) == if ChunkTag(c).Some? then [ChunkTag(c).value] else []
  {
    assert [c][..0] == [];
  }

  lemma TagsTwo(c: string, d: string)
    requires ChunkTag(d).None?
    ensures Tags([c, d]) == Tags([c])
  {
    assert [c, d] == [c] + [d];
    TagsAppend([c], [d]);
    TagsOne(d);
  }

  lemma OpenTagRead(b: BoxType, attrs: seq<string>)
    ensures ChunkTag(OpenTag(b, attrs)) == Some(Open(MiniOcrTag(b)))
  {
    var c := OpenTag(b, attrs);
    assert c[1] != ' ' && c[1] != '>';
    assert NameEnd(c, 2) == 2;
  }

  lemma CloseTagRead(b: BoxType)
    ensures ChunkTag(CloseTag(b)) == Some(Close(MiniOcrTag(b)))
  {
    var c := CloseTag(b);
    assert NameEnd(c, 3) == 3;
  }

  /** The frame of the document reads as the `ocr` element. */
  lemma FrameTagsRead()
    ensures ChunkTag("<ocr>") == Some(Open("ocr")) && ChunkTag("</ocr>") == Some(Close("ocr"))
  {
    var o := "<ocr>";
    assert NameEnd(o, 4) == 4;
    assert NameEnd(o, 3) == 4;
    assert NameEnd(o, 2) == 4;
    assert NameEnd(o, 1) == 4;
    assert o[1..4] == "ocr";
    var c := "</ocr>";
    assert NameEnd(c, 5) == 5;
    assert NameEnd(c, 4) == 5;
    assert NameEnd(c, 3) == 5;
    assert NameEnd(c, 2) == 5;
    assert c[2..5] == "ocr";
  }

  /** Escaped text never reads as a tag. */
  lemma EscapedTextIsNoTag(t: string)
    ensures ChunkTag(Escape(t)) == None
  {
    var e := Escape(t);
    if e != [] {
      assert e[0] != '<';
    }
  }

  lemma TextChunksTags(e: ParseEvent, hyphen: bool)
    requires e.kind == Text && e.text.Some? && e.text.value != []
    ensures Tags(EventChunks(e, hyphen).chunks) == []
  {
    EscapedTextIsNoTag(e.text.value);
    TagsOne(Escape(e.text.value));
  }

  lemma StartChunksTags(e: ParseEvent, hyphen: bool)
    requires e.kind == Start && e.boxType.Some?
    ensures Tags(EventChunks(e, hyphen).chunks) == [Open(MiniOcrTag(e.boxType.value))]
  {
    var b := e.boxType.value;
    OpenTagRead(b, if b == Page then PageAttributes(e) else if b == Word then WordAttributes(e) else []);
    TagsOne(StartTag(b, e));
    if b == Word && e.text.Some? {
      EscapedTextIsNoTag(e.text.value);
      TagsTwo(StartTag(b, e), Escape(e.text.value));
    }
  }

  lemma EndChunksTags(e: ParseEvent, hyphen: bool)
    requires e.kind == End && e.boxType.Some?
    ensures Tags(EventChunks(e, hyphen).chunks) == [Close(MiniOcrTag(e.boxType.value))]
  {
    var b := e.boxType.value;
    CloseTagRead(b);
    TagsOne(CloseTag(b));
    if b == Line && !hyphen {
      assert ChunkTag(" ") == None;
      TagsTwo(CloseTag(b), " ");
      assert EventChunks(e, hyphen).chunks == [CloseTag(b), " "];
    }
  }

  /** The chunks of one event carry exactly the tag of its box. */
  lemma EventChunksTags(e: ParseEvent, hyphen: bool)
    ensures Tags(EventChunks(e, hyphen).chunks) == EventTag(e)
  {
    if e.kind == Text && e.text.Some? && e.text.value != [] {
      TextChunksTags(e, hyphen);
    } else if e.boxType.Some? && e.kind == Start {
      StartChunksTags(e, hyphen);
    } else if e.boxType.Some? && e.kind == End {
      EndChunksTags(e, hyphen);
    } else {
      assert EventChunks(e, hyphen).chunks == [];
    }
  }

  lemma {:induction false} WriteAllTags(events: seq<ParseEvent>)
    ensures Tags(WriteAll(events).chunks) == EventTags(events)
    decreases |events|
  {
    if events != [] {
      var init := events[..|events| - 1];
      var w := WriteAll(init);
      WriteAllTags(init);
      EventChunksTags(events[|events| - 1], w.hyphen);
      TagsAppend(w.chunks, EventChunks(events[|events| - 1], w.hyphen).chunks);
    }
  }

  /**
   * The element structure of the output mirrors the events: `<ocr>`, then
   * one start or end tag per box event in event order, then `</ocr>`; no
   * text, escaped as it is, reads as a tag.
   */
  lemma GenerateMirrorsEvents(events: seq<ParseEvent>)
    ensures Tags(["<ocr>"] + WriteAll(events).chunks + ["</ocr>"]) == [Open("ocr")] + EventTags(events) + [Close("ocr")]
  {
    var body := WriteAll(events).chunks;
    WriteAllTags(events);
    TagsAppend(["<ocr>"], body);
    TagsAppend(["<ocr>"] + body, ["</ocr>"]);
    FrameTagsRead();
    TagsOne("<ocr>");
    TagsOne("</ocr>");
  }

  /** An unescaped text event starting with `<` reads as a tag that no box event stands for. */
  lemma RawTextReadsAsTag()
    ensures Tags(EventChunksAsWritten(TextEvent("<b>"), false).chunks) == [Open("b")]
    ensures EventTag(TextEvent("<b>")) == []
    ensures Tags(EventChunks(TextEvent("<b>"), false).chunks) == []
  {
    var c := "<b>";
    assert NameEnd(c, 2) == 2;
    assert NameEnd(c, 1) == 2;
    assert c[1..2] == "b";
    assert EventChunksAsWritten(TextEvent(c), false).chunks == [c];
    TagsOne(c);
    TextChunksTags(TextEvent(c), false);
  }

  /** A word with relative coordinates gets an unquoted `x=` attribute. */
  lemma RelativeCoordinatesUnquoted(x: string, y: string, w: string, h: string)
    ensures var e := ParseEvent(Start, Some(Word), None, Some(Relative(x, y, w, h)), None);
      WordAttributesAsWritten(e) == ["x=" + FractionAsWritten(x) + " " + FractionAsWritten(y) + " " + FractionAsWritten(w) + " " + FractionAsWritten(h)]
      && WordAttributes(e)[0][..3] == "x=\""
  {
  }

  // ---------------------------------------------------------------------
  // Inter-line spacing

  /** The events whose text sets the hyphen flag: non-blank text, or a word start with text. */
  predicate CarriesText(e: ParseEvent)
  {
    (e.kind == Text && e.text.Some? && e.text.value != [] && !IsBlankText(e.text.value))
    || (e.kind == Start && e.boxType == Some(Word) && e.text.Some?)
  }

  /** Whether the last text-carrying event's text ends in a soft hyphen. */
  function LastTextHyphen(events: seq<ParseEvent>): bool
    decreases |events|
  {
    if events == [] then false
    else
      var e := events[|events| - 1];
      if CarriesText(e) then EndsWithHyphen(e.text.value) else LastTextHyphen(events[..|events| - 1])
  }

  /** Whitespace never ends in a soft hyphen. */
  lemma BlankHasNoHyphen(t: string)
    requires IsBlankText(t)
    ensures !EndsWithHyphen(t)
  {
    if t != [] {
      assert IsPyWhitespace(t[|t| - 1]);
    }
  }

  /** The writer's flag is exactly whether the last text carried ended in a soft hyphen. */
  lemma {:induction false} HyphenFlagIsLastText(events: seq<ParseEvent>)
    ensures WriteAll(events).hyphen == LastTextHyphen(events)
    decreases |events|
  {
    if events != [] {
      var e := events[|events| - 1];
      HyphenFlagIsLastText(events[..|events| - 1]);
      if e.text.Some? {
        if IsBlankText(e.text.value) {
          BlankHasNoHyphen(e.text.value);
        }
      }
    }
  }

  /**
   * A line end writes `</l>` followed by one space unless the last text
   * written before it ended in a soft hyphen.
   */
  lemma LineEndSpacing(events: seq<ParseEvent>, i: nat)
    requires i < |events| && events[i].kind == End && events[i].boxType == Some(Line)
    ensures WriteAll(events[..i + 1]).chunks
      == WriteAll(events[..i]).chunks + ["</l>"] + (if LastTextHyphen(events[..i]) then [] else [" "])
  {
    WriteAllSnoc(events, i);
    HyphenFlagIsLastText(events[..i]);
    var h := WriteAll(events[..i]).hyphen;
    assert CloseTag(Line) == "</l>";
    assert EventChunks(events[i], h).chunks == ["</l>"] + (if h then [] else [" "]);
  }

  /** Whitespace-only text right after a soft hyphen writes nothing. */
  lemma BlankAfterHyphenDropped(events: seq<ParseEvent>, t: string)
    requires LastTextHyphen(events) && t != [] && IsBlankText(t)
    ensures WriteAll(events + [TextEvent(t)]) == WriteAll(events)
  {
    assert (events + [TextEvent(t)])[..|events|] == events;
    HyphenFlagIsLastText(events);
  }

  /**
   * A page with a plain identifier and a pixel size opens with the page tag
   * the MiniOCR format reads back as that page.
   */
  lemma PageTagReadBack(id: string, x: int, y: int, w: int, h: int)
    requires MiniOcrFormat.PlainId(id) && 0 < w <= Int32Max && 0 < h <= Int32Max
    ensures var e := ParseEvent(Start, Some(Page), Some(id), Some(Pixels(x, y, w, h)), None);
      StartTag(Page, e) == MiniOcrFormat.PageStartTag(id, w, h)
      && MiniOcrFormat.ParsePageFragment(StartTag(Page, e)) == Ok(OcrFormat.OcrPage(id, Some(OcrFormat.Dimension(w, h))))
  {
    PageStartTagWritten(id, x, y, w, h);
    MiniOcrFormat.ParsePageStartTag(id, w, h);
  }

  lemma PageStartTagWritten(id: string, x: int, y: int, w: int, h: int)
    requires id != [] && 0 < w && 0 < h
    ensures StartTag(Page, ParseEvent(Start, Some(Page), Some(id), Some(Pixels(x, y, w, h)), None))
      == MiniOcrFormat.PageStartTag(id, w, h)
  {
    var e := ParseEvent(Start, Some(Page), Some(id), Some(Pixels(x, y, w, h)), None);
    var W := NatToString(w);
    var H := NatToString(h);
    var a := "xml:id=\"" + id + "\"";
    var d := "wh=\"" + W + " " + H + "\"";
    assert PageAttributes(e) == [a] + [d];
    assert Join([a, d], " ") == a + " " + d;
    assert StartTag(Page, e) == "<p" + " " + (a + " " + d) + ">";
    ConcatFlat(id, W, H);
  }

  /** The page tag pieces, regrouped. */
  lemma ConcatFlat(id: string, W: string, H: string)
    ensures "<p" + " " + (("xml:id=\"" + id + "\"") + " " + ("wh=\"" + W + " " + H + "\"")) + ">"
      == "<p xml:id=\"" + id + "\" wh=\"" + W + " " + H + "\">"
  {
    var l := "<p" + " " + (("xml:id=\"" + id + "\"") + " " + ("wh=\"" + W + " " + H + "\"")) + ">";
    var r := "<p xml:id=\"" + id + "\" wh=\"" + W + " " + H + "\">";
    assert |l| == |r|;
    forall k | 0 <= k < |l|
      ensures l[k] == r[k]
    {
      if k < 11 {
      } else if k < 11 + |id| {
        assert l[k] == id[k - 11] == r[k];
      } else if k < 17 + |id| {
      } else if k < 17 + |id| + |W| {
        assert l[k] == W[k - 17 - |id|] == r[k];
      } else if k < 18 + |id| + |W| {
      } else if k < 18 + |id| + |W| + |H| {
        assert l[k] == H[k - 18 - |id| - |W|] == r[k];
      }
    }
  }
}
