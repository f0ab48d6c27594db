/**
 * The hOCR format: HTML whose `class` attributes name the block types
 * (`ocr_page`, `ocr_carea`, `ocr_line`, `ocrx_word`, ...) and whose
 * `title` attributes carry page identifiers and bounding boxes.
 */
module HocrFormat {
  import opened Common
  import opened OcrFormat

  /** The classes that mark each block type. */
  function BlockClasses(b: OcrBlock): seq<string>
  {
    match b
    case PAGE => ["ocr_page"]
    case BLOCK => ["ocr_carea", "ocrx_block"]
    case SECTION => ["ocr_chapter", "ocr_section", "ocr_subsection", "ocr_subsubsection"]
    case PARAGRAPH => ["ocr_par"]
    case LINE => ["ocr_line", "ocrx_line"]
    case WORD => ["ocrx_word"]
  }

  /** The block type a class marks, if any: every class belongs to one block type at most. */
  function BlockOfClass(c: string): Option<OcrBlock>
  {
    if c == "ocr_page" then Some(PAGE)
    else if c == "ocr_carea" || c == "ocrx_block" then Some(BLOCK)
    else if c == "ocr_chapter" || c == "ocr_section" || c == "ocr_subsection" || c == "ocr_subsubsection" then Some(SECTION)
    else if c == "ocr_par" then Some(PARAGRAPH)
    else if c == "ocr_line" || c == "ocrx_line" then Some(LINE)
    else if c == "ocrx_word" then Some(WORD)
    else None
  }

  /** The class table and its inverse agree: a class is listed for a block type exactly when it marks it. */
  lemma {:induction false} ClassOfBlock(b: OcrBlock, c: string)
    ensures c in BlockClasses(b) <==> BlockOfClass(c) == Some(b)
  {
  }

  /** The read size a block type gets when none is configured. */
  function DefaultReadSize(b: OcrBlock): int
  {
    match b
    case PAGE => 16 * 1024
    case BLOCK => 8 * 1024
    case SECTION => 8 * 1024
    case PARAGRAPH => 2 * 1024
    case LINE => 1024
    case WORD => 128
  }

  /** `Map.putIfAbsent`. */
  function PutIfAbsent(m: map<OcrBlock, int>, k: OcrBlock, v: int): (r: map<OcrBlock, int>)
    ensures k in r && (k in m ==> r[k] == m[k]) && (k !in m ==> r[k] == v)
    ensures forall b :: b != k ==> (b in r <==> b in m) && (b in m ==> r[b] == m[b])
  {
    if k in m then m else m[k := v]
  }

  /**
   * `sizes` is `configured` with the defaults of the block types in `done`
   * put where they were absent.
   */
  predicate FilledFor(configured: map<OcrBlock, int>, sizes: map<OcrBlock, int>, done: set<OcrBlock>)
  {
    forall b ::
      && (b in sizes <==> b in configured || b in done)
      && (b in configured ==> sizes[b] == configured[b])
      && (b !in configured && b in done ==> sizes[b] == DefaultReadSize(b))
  }

  /** One more `putIfAbsent` of a block type's default. */
  lemma {:induction false} FillStep(configured: map<OcrBlock, int>, sizes: map<OcrBlock, int>, done: set<OcrBlock>, k: OcrBlock, v: int)
    requires FilledFor(configured, sizes, done) && v == DefaultReadSize(k)
    ensures FilledFor(configured, PutIfAbsent(sizes, k, v), done + {k})
  {
  }

  /** Once all six block types are done, every block type has its configured or default size. */
  lemma {:induction false} FilledAll(configured: map<OcrBlock, int>, sizes: map<OcrBlock, int>)
    requires FilledFor(configured, sizes, {PAGE, BLOCK, SECTION, PARAGRAPH, LINE, WORD})
    ensures forall b :: b in sizes
    ensures forall b :: b in configured ==> sizes[b] == configured[b]
    ensures forall b :: b !in configured ==> sizes[b] == DefaultReadSize(b)
  {
    forall b
      ensures b in sizes && (b !in configured ==> sizes[b] == DefaultReadSize(b))
    {
      assert b.PAGE? || b.BLOCK? || b.SECTION? || b.PARAGRAPH? || b.LINE? || b.WORD?;
    }
  }

  /** The classes of the requested block types, in request order (the `flatMap`). */
  function ClassesOf(blockTypes: seq<OcrBlock>): (r: seq<string>)
    ensures forall c :: c in r <==> BlockOfClass(c).Some? && BlockOfClass(c).value in blockTypes
  {
    if blockTypes == [] then []
    else
      var rest := ClassesOf(blockTypes[1..]);
      forall c ensures c in BlockClasses(blockTypes[0]) <==> BlockOfClass(c) == Some(blockTypes[0]) {
        ClassOfBlock(blockTypes[0], c);
      }
      assert forall b :: b in blockTypes <==> b == blockTypes[0] || b in blockTypes[1..];
      BlockClasses(blockTypes[0]) + rest
  }

  /** The largest read size among the requested block types, or 64 KiB when none is requested. */
  function MaxReadSize(sizes: map<OcrBlock, int>, blockTypes: seq<OcrBlock>): (r: int)
    requires forall b :: b in sizes
    ensures forall k :: 0 <= k < |blockTypes| ==> sizes[blockTypes[k]] <= r
    ensures blockTypes == [] ==> r == 64 * 1024
    ensures blockTypes != [] ==> exists k :: 0 <= k < |blockTypes| && r == sizes[blockTypes[k]]
  {
    if blockTypes == [] then 64 * 1024
    else if |blockTypes| == 1 then sizes[blockTypes[0]]
    else
      var rest := MaxReadSize(sizes, blockTypes[1..]);
      assert forall k :: 1 <= k < |blockTypes| ==> blockTypes[k] == blockTypes[1..][k - 1];
      Max(sizes[blockTypes[0]], rest)
  }

  /** The format, with the read size used for each block type. */
  class HocrFormat {
    const blockReadSizes: map<OcrBlock, int>

    /**
     * `new HocrFormat(readSizes)`: every block type gets a read size, the
     * configured one where there is one and its default otherwise; no
     * configuration at all stands for an empty one.
     */
    constructor (readSizes: Option<map<OcrBlock, int>>)
      ensures forall b :: b in blockReadSizes
      ensures forall b :: readSizes.Some? && b in readSizes.value ==> blockReadSizes[b] == readSizes.value[b]
      ensures forall b :: (readSizes.None? || b !in readSizes.value) ==> blockReadSizes[b] == DefaultReadSize(b)
    {
      var sizes := if readSizes.Some? then readSizes.value else map[];
      ghost var configured := sizes;
      FillStep(configured, sizes, {}, PAGE, 16 * 1024);
      sizes := PutIfAbsent(sizes, PAGE, 16 * 1024);
      FillStep(configured, sizes, {PAGE}, BLOCK, 8 * 1024);
      sizes := PutIfAbsent(sizes, BLOCK, 8 * 1024);
      FillStep(configured, sizes, {PAGE, BLOCK}, SECTION, 8 * 1024);
      sizes := PutIfAbsent(sizes, SECTION, 8 * 1024);
      FillStep(configured, sizes, {PAGE, BLOCK, SECTION}, PARAGRAPH, 2 * 1024);
      sizes := PutIfAbsent(sizes, PARAGRAPH, 2 * 1024);
      FillStep(configured, sizes, {PAGE, BLOCK, SECTION, PARAGRAPH}, LINE, 1024);
      sizes := PutIfAbsent(sizes, LINE, 1024);
      FillStep(configured, sizes, {PAGE, BLOCK, SECTION, PARAGRAPH, LINE}, WORD, 128);
      sizes := PutIfAbsent(sizes, WORD, 128);
      FilledAll(configured, sizes);
      blockReadSizes := sizes;
    }

    /**
     * `getBreakLocator`: a class locator on the union of the classes of
     * the requested block types, reading blocks of the largest of their
     * read sizes; given here as that class list and read size.
     */
    function GetBreakLocator(blockTypes: seq<OcrBlock>): (r: (seq<string>, int))
      requires forall b :: b in blockReadSizes
      ensures forall c :: c in r.0 <==> BlockOfClass(c).Some? && BlockOfClass(c).value in blockTypes
      ensures forall k :: 0 <= k < |blockTypes| ==> blockReadSizes[blockTypes[k]] <= r.1
      ensures blockTypes == [] ==> r.1 == 64 * 1024
      ensures blockTypes != [] ==> exists k :: 0 <= k < |blockTypes| && r.1 == blockReadSizes[blockTypes[k]]
    {
      (ClassesOf(blockTypes), MaxReadSize(blockReadSizes, blockTypes))
    }
  }

  // The page identifier: `parsePage`'s loop over the matches of its pattern.

  /**
   * One match of the page identifier pattern, by its three named groups;
   * a group that did not take part is `None`. Only one of the alternatives
   * `id=...`, `x_source ...` and `ppageno N` takes part in a match.
   */
  datatype PageIdMatch = PageIdMatch(id: Option<string>, source: Option<string>, pageno: Option<string>)

  /** `StringUtils.isNotEmpty`. */
  predicate NotEmpty(g: Option<string>) { g.Some? && g.value != "" }

  /** The first non-empty group in the order id, source, page number. */
  function Candidate(m: PageIdMatch): Option<string>
  {
    if NotEmpty(m.id) then m.id else if NotEmpty(m.source) then m.source else if NotEmpty(m.pageno) then m.pageno else None
  }

  /** `candidate.equals(group)`, false for a group that did not take part. */
  predicate Equals(candidate: string, g: Option<string>) { g.Some? && g.value == candidate }

  predicate HasSource(m: PageIdMatch) { !NotEmpty(m.id) && NotEmpty(m.source) }

  predicate HasPageno(m: PageIdMatch) { !NotEmpty(m.id) && !NotEmpty(m.source) && NotEmpty(m.pageno) }

  /** A match that ends the scan: an identifier, or no usable group at all. */
  predicate Stops(m: PageIdMatch) { NotEmpty(m.id) || Candidate(m).None? }

  function FirstStop(ms: seq<PageIdMatch>): (k: nat)
    ensures k <= |ms| && (k < |ms| ==> Stops(ms[k]))
    ensures forall j :: 0 <= j < k ==> !Stops(ms[j])
  {
    if ms == [] then 0 else if Stops(ms[0]) then 0 else 1 + FirstStop(ms[1..])
  }

  /** The last source among the matches. */
  function LastSource(ms: seq<PageIdMatch>): Option<string>
  {
    if ms == [] then None
    else if HasSource(ms[|ms| - 1]) then ms[|ms| - 1].source
    else LastSource(ms[..|ms| - 1])
  }

  /** The first page number among the matches. */
  function FirstPageno(ms: seq<PageIdMatch>): Option<string>
  {
    if ms == [] then None
    else
      var p := FirstPageno(ms[..|ms| - 1]);
      if p.Some? then p else if HasPageno(ms[|ms| - 1]) then ms[|ms| - 1].pageno else None
  }

  /** Without an identifier: the last source, else the first page number. */
  function Fallback(ms: seq<PageIdMatch>): Option<string>
  {
    if LastSource(ms).Some? then LastSource(ms) else FirstPageno(ms)
  }

  /**
   * The identifier a page gets: the first `id=` value; before that one
   * (or without one) the last `x_source`, else the first `ppageno`. A
   * match with no usable group before the first identifier, or no
   * candidate at all, is an error.
   */
  function PreferredPageId(ms: seq<PageIdMatch>): Result<string>
  {
    var k := FirstStop(ms);
    if k < |ms| then
      if NotEmpty(ms[k].id) then Ok(ms[k].id.value) else Err("RuntimeException")
    else if Fallback(ms).Some? then Ok(Fallback(ms).value)
    else Err("RuntimeException")
  }

  /** Every value the preferred identifier can take is non-empty. */
  lemma {:induction false} PreferredPageIdNotEmpty(ms: seq<PageIdMatch>)
    ensures PreferredPageId(ms).Ok? ==> PreferredPageId(ms).value != ""
  {
    FallbackNotEmpty(ms);
  }

  lemma {:induction false} FallbackNotEmpty(ms: seq<PageIdMatch>)
    ensures LastSource(ms).Some? ==> LastSource(ms).value != ""
    ensures FirstPageno(ms).Some? ==> FirstPageno(ms).value != ""
  {
    if ms != [] {
      FallbackNotEmpty(ms[..|ms| - 1]);
    }
  }

  /** One more match for the scan: how the fallback grows. */
  lemma {:induction false} FallbackSnoc(ms: seq<PageIdMatch>, i: nat)
    requires i < |ms|
    ensures LastSource(ms[..i + 1]) == if HasSource(ms[i]) then ms[i].source else LastSource(ms[..i])
    ensures FirstPageno(ms[..i + 1]) ==
      if FirstPageno(ms[..i]).Some? then FirstPageno(ms[..i]) else if HasPageno(ms[i]) then ms[i].pageno else None
  {
    assert ms[..i + 1][..i] == ms[..i];
  }

  /** The stopping point is unique: the first stop after non-stops. */
  lemma {:induction false} FirstStopIs(ms: seq<PageIdMatch>, k: nat)
    requires k <= |ms| && (k < |ms| ==> Stops(ms[k]))
    requires forall j :: 0 <= j < k ==> !Stops(ms[j])
    ensures FirstStop(ms) == k
  {
  }

  /** The `while (idMatch.find())` loop of `parsePage`, over the successive matches. */
  method PageId(matches: seq<PageIdMatch>) returns (r: Result<string>)
    ensures r == PreferredPageId(matches)
  {
    var pageId: Option<string> := None;
    var i := 0;
    while i < |matches|
      invariant 0 <= i <= |matches|
      invariant forall j :: 0 <= j < i ==> !Stops(matches[j])
      invariant pageId == Fallback(matches[..i])
    {
      var candidate := Candidate(matches[i]);
      if candidate.None? {
        FirstStopIs(matches, i);
        return Err("RuntimeException");
      }
      var c := candidate.value;
      FallbackSnoc(matches, i);
      if Equals(c, matches[i].id) {
        FirstStopIs(matches, i);
        return Ok(c);
      } else if Equals(c, matches[i].source) {
        pageId := Some(c);
      } else if Equals(c, matches[i].pageno) && pageId.None? {
        pageId := Some(c);
      }
      i := i + 1;
    }
    FirstStopIs(matches, i);
    assert matches[..i] == matches;
    if pageId.None? {
      return Err("RuntimeException");
    }
    r := Ok(pageId.value);
  }

  // The page size pattern `bbox 0 0 (\d+) (\d+)`.

  const BboxPrefix: string := "bbox 0 0 "

  /** The width and height digits the size pattern captures at `i`. */
  function BboxMatchAt(s: string, i: int): (r: Option<(string, string)>)
    ensures r.Some? ==> r.value.0 != [] && AllDigits(r.value.0) && r.value.1 != [] && AllDigits(r.value.1)
  {
    if !OccursAt(s, BboxPrefix, i) then None
    else
      var w := DigitRun(s, i + 9);
      var sp := i + 9 + w;
      if w == 0 || sp >= |s| || s[sp] != ' ' then None
      else
        var h := DigitRun(s, sp + 1);
        if h == 0 then None else Some((s[i + 9..sp], s[sp + 1..sp + 1 + h]))
  }

  /** The first position at or after `from` where the size pattern matches, or -1. */
  function FirstBboxMatch(s: string, from: nat): (r: int)
    ensures r == -1 || (from <= r && BboxMatchAt(s, r).Some?)
    ensures forall k :: from <= k && (r == -1 || k < r) ==> BboxMatchAt(s, k).None?
    decreases |s| - from
  {
    if from >= |s| then -1 else if BboxMatchAt(s, from).Some? then from else FirstBboxMatch(s, from + 1)
  }

  /** The page size of the attributes: from the first bounding box, when there is one. */
  function PageDims(pageAttribs: string): (r: Result<Option<Dimension>>)
    ensures r.Ok? ==> (r.value.Some? <==> FirstBboxMatch(pageAttribs, 0) >= 0)
    ensures FirstBboxMatch(pageAttribs, 0) < 0 ==> r == Ok(None)
  {
    var b := FirstBboxMatch(pageAttribs, 0);
    if b < 0 then Ok(None)
    else
      var m := BboxMatchAt(pageAttribs, b).value;
      var width :- ParseInt(m.0);
      var height :- ParseInt(m.1);
      Ok(Some(Dimension(width, height)))
  }

  /**
   * `parsePage`: the preferred identifier among `idMatches` (the matches
   * of the identifier pattern in `pageAttribs`) and the size of the first
   * bounding box; a size too large for an `int` fails to parse.
   */
  method ParsePage(pageAttribs: string, idMatches: seq<PageIdMatch>) returns (r: Result<OcrPage>)
    ensures r.Ok? <==> PreferredPageId(idMatches).Ok? && PageDims(pageAttribs).Ok?
    ensures r.Ok? ==> r.value == OcrPage(PreferredPageId(idMatches).value, PageDims(pageAttribs).value)
    ensures PreferredPageId(idMatches).Err? ==> r == Err("RuntimeException")
  {
    var pageId := PageId(idMatches);
    if pageId.Err? {
      return Err(pageId.error);
    }
    var dims := PageDims(pageAttribs);
    if dims.Err? {
      return Err(dims.error);
    }
    r := NewPage(Some(pageId.value), dims.value);
  }

  /**
   * `parsePageFragment`: `pageElem` is the attributes group of the first
   * match of the page element pattern, `None` when there is no match, in
   * which case there is no page.
   */
  method ParsePageFragment(pageElem: Option<string>, idMatches: seq<PageIdMatch>) returns (r: Result<Option<OcrPage>>)
    ensures pageElem.None? ==> r == Ok(None)
    ensures pageElem.Some? ==> (r.Ok? <==> PreferredPageId(idMatches).Ok? && PageDims(pageElem.value).Ok?)
    ensures pageElem.Some? && r.Ok? ==> r.value == Some(OcrPage(PreferredPageId(idMatches).value, PageDims(pageElem.value).value))
  {
    if pageElem.None? {
      return Ok(None);
    }
    var page := ParsePage(pageElem.value, idMatches);
    if page.Err? {
      return Err(page.error);
    }
    r := Ok(Some(page.value));
  }

  /** A bounding box "bbox 0 0 W H" at the start of a title gives back its size. */
  lemma {:induction false} ParseBbox(w: nat, h: nat, rest: string)
    requires w <= Int32Max && h <= Int32Max
    requires rest == [] || !IsAsciiDigit(rest[0])
    ensures PageDims(BboxPrefix + NatToString(w) + " " + NatToString(h) + rest) == Ok(Some(Dimension(w, h)))
  {
    var ws, hs := NatToString(w), NatToString(h);
    var s := BboxPrefix + ws + " " + hs + rest;
    BboxLayout(ws, hs, rest);
    BboxAtStart(s, ws, hs);
    ParseNatToString(w);
    ParseNatToString(h);
  }

  /** Where the pieces of a bounding box sit. */
  lemma {:induction false} BboxLayout(ws: string, hs: string, rest: string)
    ensures var s := BboxPrefix + ws + " " + hs + rest;
      && |s| == 10 + |ws| + |hs| + |rest|
      && s[..9] == BboxPrefix && s[9..9 + |ws|] == ws && s[9 + |ws|] == ' '
      && s[10 + |ws|..10 + |ws| + |hs|] == hs
      && (rest != [] ==> s[10 + |ws| + |hs|] == rest[0])
  {
  }

  /** The size pattern matches at 0 when its pieces are where it expects them. */
  lemma {:induction false} BboxAtStart(s: string, ws: string, hs: string)
    requires ws != [] && AllDigits(ws) && hs != [] && AllDigits(hs)
    requires |s| >= 10 + |ws| + |hs|
    requires s[..9] == BboxPrefix && s[9..9 + |ws|] == ws && s[9 + |ws|] == ' '
    requires s[10 + |ws|..10 + |ws| + |hs|] == hs
    requires 10 + |ws| + |hs| < |s| ==> !IsAsciiDigit(s[10 + |ws| + |hs|])
    ensures FirstBboxMatch(s, 0) == 0 && BboxMatchAt(s, 0) == Some((ws, hs))
  {
    BboxPieces(s, ws, hs);
  }

  /** The captures of the size pattern at 0, from its pieces. */
  lemma {:induction false} BboxPieces(s: string, ws: string, hs: string)
    requires ws != [] && AllDigits(ws) && hs != [] && AllDigits(hs)
    requires |s| >= 10 + |ws| + |hs|
    requires s[..9] == BboxPrefix && s[9..9 + |ws|] == ws && s[9 + |ws|] == ' '
    requires s[10 + |ws|..10 + |ws| + |hs|] == hs
    requires 10 + |ws| + |hs| < |s| ==> !IsAsciiDigit(s[10 + |ws| + |hs|])
    ensures BboxMatchAt(s, 0) == Some((ws, hs))
  {
    assert OccursAt(s, BboxPrefix, 0) by {
      assert s[0..9] == s[..9];
    }
    DigitRunOf(s, 9, ws);
    DigitRunOf(s, 10 + |ws|, hs);
  }

  /** All classes of the class table, in its order. */
  const AllClasses: seq<string> :=
    ["ocr_page", "ocr_carea", "ocrx_block", "ocr_chapter", "ocr_section", "ocr_subsection",
     "ocr_subsubsection", "ocr_par", "ocr_line", "ocrx_line", "ocrx_word"]

  /** `hasFormat`: the chunk contains the name of some block class. */
  function HasFormat(chunk: string): bool
  {
    exists j :: 0 <= j < |AllClasses| && IndexOf(chunk, AllClasses[j], 0) >= 0
  }

  /** `hasFormat` holds exactly when the chunk contains a name that marks a block type. */
  lemma {:induction false} HasFormatIff(chunk: string)
    ensures HasFormat(chunk) <==> exists c :: BlockOfClass(c).Some? && Contains(chunk, c)
  {
    forall j | 0 <= j < |AllClasses|
      ensures IndexOf(chunk, AllClasses[j], 0) >= 0 <==> Contains(chunk, AllClasses[j])
    {
      IndexOfFindsOccurrence(chunk, AllClasses[j]);
    }
    forall c | BlockOfClass(c).Some?
      ensures c in AllClasses
    {
    }
    forall j | 0 <= j < |AllClasses|
      ensures BlockOfClass(AllClasses[j]).Some?
    {
    }
  }

  /** `getLastContentStartIdx`: just after the last '>'. */
  function GetLastContentStartIdx(content: string): (r: int)
    ensures 0 <= r <= |content| && (r > 0 ==> content[r - 1] == '>')
    ensures forall k :: r <= k < |content| ==> content[k] != '>'
  {
    LastContentStartIdx(content)
  }

  /** `getFirstContentEndIdx`: the first closing tag "</", or -1. */
  function GetFirstContentEndIdx(content: string): (r: int)
    ensures r == -1 || OccursAt(content, "</", r)
    ensures forall k :: 0 <= k && (r == -1 || k < r) ==> !OccursAt(content, "</", k)
  {
    FirstContentEndIdx(content)
  }
}
