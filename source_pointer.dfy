/**
 * Source pointers: tokens `target{ascii}[start:end,...]` joined by `+`,
 * each naming a file or S3 object and, optionally, the byte regions of it
 * that make up a document.
 */
module SourcePointer {
  import opened Common

  datatype Region = Region(start: int, end: int)

  datatype SourceType = FileSystem | S3

  datatype Source = Source(kind: SourceType, target: string, regions: seq<Region>, isAscii: bool)

  /** `Region.toString`: `start:end`. */
  function RegionToString(r: Region): string
  {
    IntToString(r.start) + ":" + IntToString(r.end)
  }

  /**
   * `Region.parse`: ":N" is (0, N), "N:" is (N, -1), otherwise the first two
   * ':'-separated numbers; a malformed number raises NumberFormatException
   * and a missing second number ArrayIndexOutOfBoundsException.
   */
  function ParseRegion(r: string): (res: Result<Region>)
    ensures res.Ok? ==> IsInt32(res.value.start) && IsInt32(res.value.end)
  {
    if |r| > 0 && r[0] == ':' then
      var e :- ParseInt(r[1..]);
      Ok(Region(0, e))
    else if |r| > 0 && r[|r| - 1] == ':' then
      var s :- ParseInt(r[..|r| - 1]);
      Ok(Region(s, -1))
    else
      var offsets := JavaSplit(r, ':');
      if |offsets| == 0 then Err("ArrayIndexOutOfBoundsException")
      else
        var s :- ParseInt(offsets[0]);
        if |offsets| < 2 then Err("ArrayIndexOutOfBoundsException")
        else
          var e :- ParseInt(offsets[1]);
          Ok(Region(s, e))
  }

  /** The three forms of a region: ":N", "N:" and "A:B". */
  lemma {:induction false} ParseRegionForms(a: nat, b: nat)
    requires a <= Int32Max && b <= Int32Max
    ensures ParseRegion(":" + NatToString(b)) == Ok(Region(0, b))
    ensures ParseRegion(NatToString(a) + ":") == Ok(Region(a, -1))
    ensures ParseRegion(NatToString(a) + ":" + NatToString(b)) == Ok(Region(a, b))
  {
    ParseNatToString(a);
    ParseNatToString(b);
    assert (":" + NatToString(b))[1..] == NatToString(b);
    var sa := NatToString(a) + ":";
    assert sa[..|sa| - 1] == NatToString(a);
    RegionRoundTrip(Region(a, b));
  }

  /** Every region with `int` bounds survives printing and parsing. */
  lemma {:induction false} RegionRoundTrip(r: Region)
    requires IsInt32(r.start) && IsInt32(r.end)
    ensures ParseRegion(RegionToString(r)) == Ok(r)
  {
    var a := IntToString(r.start);
    var b := IntToString(r.end);
    NoColonInInt(r.start);
    NoColonInInt(r.end);
    JoinedRegionSplits(a, b);
    ParseIntToString(r.start);
    ParseIntToString(r.end);
    ParseTwoPieces(a + ":" + b, a, b, r.start, r.end);
  }

  /** A printed integer holds no ':' and does not start with one. */
  lemma {:induction false} NoColonInInt(n: int)
    ensures ':' !in IntToString(n) && IntToString(n)[0] != ':'
  {
    var a := IntToString(n);
    if n < 0 { assert a == [a[0]] + a[1..]; }
  }

  /** Two pieces without ':', neither empty, joined by ':', split back into the two. */
  lemma {:induction false} JoinedRegionSplits(a: string, b: string)
    requires a != [] && b != [] && ':' !in a && ':' !in b && a[0] != ':'
    ensures |a + ":" + b| > 0 && (a + ":" + b)[0] != ':' && (a + ":" + b)[|a + ":" + b| - 1] != ':'
    ensures JavaSplit(a + ":" + b, ':') == [a, b]
  {
    var s := a + ":" + b;
    assert s[0] == a[0] && s[|s| - 1] == b[|b| - 1];
    assert s[|a|] == ':';
    SplitCons(a, b, ':');
    SplitNoSep(b, ':');
  }

  /** A region text that neither starts nor ends with ':' and splits into two numbers. */
  lemma {:induction false} ParseTwoPieces(r: string, a: string, b: string, x: int, y: int)
    requires |r| > 0 && r[0] != ':' && r[|r| - 1] != ':' && JavaSplit(r, ':') == [a, b]
    requires ParseInt(a) == Ok(x) && ParseInt(b) == Ok(y)
    ensures ParseRegion(r) == Ok(Region(x, y))
  {
  }

  /** Line terminators, which `.` in a Java pattern does not match. */
  predicate IsLineTerminator(c: char)
  {
    c == '\n' || c == '\r' || c == '\U{0085}' || c == '\U{2028}' || c == '\U{2029}'
  }

  predicate IsRegionsChar(c: char) { IsAsciiDigit(c) || c == ':' || c == ',' }

  /** The `regions` group of the pattern: one or more of `[0-9:,]`. */
  predicate IsRegionsText(s: string)
  {
    s != [] && forall k :: 0 <= k < |s| ==> IsRegionsChar(s[k])
  }

  /** What `POINTER_PAT` captures from a token. */
  datatype PointerMatch = PointerMatch(target: string, isAscii: bool, regions: Option<string>)

  /** The text the two optional groups after the target stand for. */
  function Suffix(isAscii: bool, regions: Option<string>): string
  {
    (if isAscii then "{ascii}" else "") + (if regions.Some? then "[" + regions.value + "]" else "")
  }

  /** `token` reads as the capture `m`: a non-empty target on one line, then the optional groups. */
  predicate Decomposes(token: string, m: PointerMatch)
  {
    && m.target != []
    && (forall k :: 0 <= k < |m.target| ==> !IsLineTerminator(m.target[k]))
    && (m.regions.Some? ==> IsRegionsText(m.regions.value))
    && token == m.target + Suffix(m.isAscii, m.regions)
  }

  /** The optional `[regions]` group at the end of the token. */
  function MatchRegions(rest: string): Option<Option<string>>
  {
    if rest == [] then Some(None)
    else if |rest| >= 3 && rest[0] == '[' && rest[|rest| - 1] == ']' && IsRegionsText(rest[1..|rest| - 1])
    then Some(Some(rest[1..|rest| - 1]))
    else None
  }

  /** Both optional groups after the target, or no match. */
  function MatchSuffix(rest: string): (r: Option<(bool, Option<string>)>)
    ensures r.Some? ==> rest == Suffix(r.value.0, r.value.1)
    ensures r.Some? && r.value.1.Some? ==> IsRegionsText(r.value.1.value)
  {
    if |rest| >= 7 && rest[..7] == "{ascii}" then
      match MatchRegions(rest[7..])
      case Some(g) => (assert rest == rest[..7] + rest[7..]; Some((true, g)))
      case None => None
    else
      match MatchRegions(rest)
      case Some(g) => Some((false, g))
      case None => None
  }

  /** Whatever the optional groups stand for is matched back to them. */
  lemma {:induction false} MatchSuffixComplete(isAscii: bool, regions: Option<string>)
    requires regions.Some? ==> IsRegionsText(regions.value)
    ensures MatchSuffix(Suffix(isAscii, regions)) == Some((isAscii, regions))
  {
    var rest := Suffix(isAscii, regions);
    var tail := if regions.Some? then "[" + regions.value + "]" else "";
    if regions.Some? {
      assert tail[1..|tail| - 1] == regions.value;
    }
    if isAscii {
      assert rest[..7] == "{ascii}" && rest[7..] == tail;
    } else {
      assert rest == tail;
    }
  }

  /** A target of length `n` leaves a rest that the optional groups match. */
  predicate SplitsAt(token: string, n: nat)
  {
    && 1 <= n <= |token|
    && (forall k :: 0 <= k < n ==> !IsLineTerminator(token[k]))
    && MatchSuffix(token[n..]).Some?
  }

  /** The lazy `.+?` from length `n` on: the shortest target after which the rest matches. */
  function MatchFrom(token: string, n: nat): Option<PointerMatch>
    requires 1 <= n
    decreases |token| - n
  {
    if n > |token| || IsLineTerminator(token[n - 1]) then None
    else match MatchSuffix(token[n..])
      case Some(groups) => Some(PointerMatch(token[..n], groups.0, groups.1))
      case None => MatchFrom(token, n + 1)
  }

  /** `POINTER_PAT` matched against a whole token. */
  function MatchPointer(token: string): Option<PointerMatch>
  {
    MatchFrom(token, 1)
  }

  lemma {:induction false} MatchFromSound(token: string, n: nat)
    requires 1 <= n && forall k :: 0 <= k < n - 1 && k < |token| ==> !IsLineTerminator(token[k])
    requires forall j :: 1 <= j < n ==> !SplitsAt(token, j)
    ensures MatchFrom(token, n).Some? ==>
      var m := MatchFrom(token, n).value;
      Decomposes(token, m) && SplitsAt(token, |m.target|) && forall j :: 1 <= j < |m.target| ==> !SplitsAt(token, j)
    ensures MatchFrom(token, n).None? ==> forall j :: 1 <= j ==> !SplitsAt(token, j)
    decreases |token| - n
  {
    if n > |token| {
    } else if IsLineTerminator(token[n - 1]) {
      assert forall j :: n <= j ==> !SplitsAt(token, j) by {
        forall j | n <= j && j <= |token|
          ensures !SplitsAt(token, j)
        {
          assert IsLineTerminator(token[n - 1]);
        }
      }
    } else if MatchSuffix(token[n..]).Some? {
      assert token == token[..n] + token[n..];
    } else {
      MatchFromSound(token, n + 1);
    }
  }

  /** A reading of the token with a target of some length splits it there. */
  lemma {:induction false} DecomposesSplits(token: string, m: PointerMatch)
    requires Decomposes(token, m)
    ensures SplitsAt(token, |m.target|)
  {
    assert token[..|m.target|] == m.target;
    assert token[|m.target|..] == Suffix(m.isAscii, m.regions);
    MatchSuffixComplete(m.isAscii, m.regions);
  }

  /**
   * The matcher is the pattern: what it returns is a reading of the token,
   * every reading makes it succeed, and its target is the shortest one.
   */
  lemma {:induction false} MatchPointerCorrect(token: string, other: PointerMatch)
    ensures MatchPointer(token).Some? ==> Decomposes(token, MatchPointer(token).value)
    ensures Decomposes(token, other) ==>
      MatchPointer(token).Some? && |MatchPointer(token).value.target| <= |other.target|
  {
    MatchFromSound(token, 1);
    if Decomposes(token, other) {
      DecomposesSplits(token, other);
    }
  }

  /** `isPointer`: not markup, and every `+`-separated token matches the pattern. */
  predicate IsPointer(pointer: string)
  {
    && !(|pointer| > 0 && pointer[0] == '<')
    && forall t :: t in JavaSplit(pointer, '+') ==> MatchPointer(t).Some?
  }

  /**
   * `Source.determineType`: absolute paths and existing files are on the
   * file system, `s3://` URLs on S3, anything else is unsupported.
   */
  function DetermineType(target: string, fileExists: string -> bool): (r: Result<SourceType>)
    ensures r.Ok? && r.value == S3 ==> |target| >= 5 && target[..5] == "s3://"
    ensures |target| > 0 && target[0] == '/' ==> r == Ok(FileSystem)
  {
    if |target| > 0 && target[0] == '/' then Ok(FileSystem)
    else if fileExists(target) then Ok(FileSystem)
    else if |target| >= 5 && target[..5] == "s3://" then Ok(S3)
    else Err("IOException")
  }

  predicate SortedByStart(rs: seq<Region>)
  {
    forall i, j :: 0 <= i < j < |rs| ==> rs[i].start <= rs[j].start
  }

  /** Puts `r` in front of the first region that does not start before it. */
  function InsertByStart(r: Region, rs: seq<Region>): (out: seq<Region>)
    requires SortedByStart(rs)
    ensures SortedByStart(out) && multiset(out) == multiset(rs) + multiset{r}
    ensures rs != [] && r.start <= rs[0].start ==> out == [r] + rs
  {
    if rs == [] || r.start <= rs[0].start then [r] + rs
    else
      var rest := InsertByStart(r, rs[1..]);
      InsertKeepsFirst(r, rs, rest);
      [rs[0]] + rest
  }

  lemma {:induction false} InsertKeepsFirst(r: Region, rs: seq<Region>, rest: seq<Region>)
    requires rs != [] && SortedByStart(rs) && rs[0].start < r.start
    requires SortedByStart(rest) && multiset(rest) == multiset(rs[1..]) + multiset{r}
    ensures SortedByStart([rs[0]] + rest) && multiset([rs[0]] + rest) == multiset(rs) + multiset{r}
  {
    assert rs == [rs[0]] + rs[1..];
    forall j | 0 <= j < |rest|
      ensures rs[0].start <= rest[j].start
    {
      assert rest[j] in multiset(rest);
      if rest[j] != r {
        assert rest[j] in multiset(rs[1..]);
        var k :| 0 <= k < |rs[1..]| && rs[1..][k] == rest[j];
        assert rs[k + 1] == rest[j];
      }
    }
  }

  /** The stable sort by start of `Source.parse`. */
  function SortByStart(rs: seq<Region>): (out: seq<Region>)
    ensures SortedByStart(out) && multiset(out) == multiset(rs)
  {
    if rs == [] then []
    else
      assert rs == [rs[0]] + rs[1..];
      InsertByStart(rs[0], SortByStart(rs[1..]))
  }

  /** Sorting regions that are already in order keeps them as they are. */
  lemma {:induction false} SortSorted(rs: seq<Region>)
    requires SortedByStart(rs)
    ensures SortByStart(rs) == rs
  {
    if rs != [] {
      SortSorted(rs[1..]);
    }
  }

  /**
   * A stream of texts mapped through a parser that may raise: every text
   * parsed in order, and the first failure is what is raised.
   */
  function ParseEach<T>(parse: string -> Result<T>, parts: seq<string>): (r: Result<seq<T>>)
    ensures r.Ok? ==> |r.value| == |parts| && forall i :: 0 <= i < |parts| ==> parse(parts[i]) == Ok(r.value[i])
    ensures r.Err? ==>
      exists i :: 0 <= i < |parts| && parse(parts[i]) == Err(r.error) && forall j :: 0 <= j < i ==> parse(parts[j]).Ok?
  {
    if parts == [] then Ok([])
    else
      var first :- parse(parts[0]);
      var rest :- ParseEach(parse, parts[1..]);
      (assert forall i :: 1 <= i < |parts| ==> parts[1..][i - 1] == parts[i];
       Ok([first] + rest))
  }

  /** Parsing a list succeeds with exactly the values each text parses to on its own. */
  lemma {:induction false} ParseEachAll<T>(parse: string -> Result<T>, parts: seq<string>, values: seq<T>)
    requires |parts| == |values| && forall i :: 0 <= i < |parts| ==> parse(parts[i]) == Ok(values[i])
    ensures ParseEach(parse, parts) == Ok(values)
    decreases |parts|
  {
    if parts != [] {
      assert forall i :: 0 <= i < |parts| - 1 ==> parts[1..][i] == parts[i + 1] && values[1..][i] == values[i + 1];
      ParseEachAll(parse, parts[1..], values[1..]);
      assert values == [values[0]] + values[1..];
    }
  }

  /** `Region.parse` over the `,`-separated region texts. */
  function ParseRegionList(parts: seq<string>): Result<seq<Region>>
  {
    ParseEach(ParseRegion, parts)
  }

  /**
   * `Source.parse`: the captured target, `{ascii}` flag and regions sorted by
   * start; an unmatched token, a malformed region or an unsupported target
   * raises.
   */
  function ParseSource(token: string, fileExists: string -> bool): (r: Result<Source>)
    ensures r.Ok? ==> SortedByStart(r.value.regions)
    ensures r.Ok? ==> MatchPointer(token).Some? && r.value.target == MatchPointer(token).value.target
    ensures r.Ok? ==> r.value.isAscii == MatchPointer(token).value.isAscii
    ensures MatchPointer(token).None? ==> r.Err?
  {
    match MatchPointer(token)
    case None => Err("RuntimeException")
    case Some(m) =>
      var regions :- if m.regions.Some? then ParseRegionList(JavaSplit(m.regions.value, ',')) else Ok([]);
      match DetermineType(m.target, fileExists)
      case Err(_) => Err("RuntimeException")
      case Ok(kind) => Ok(Source(kind, m.target, SortByStart(regions), m.isAscii))
  }

  /** `Source.parse` with the file-system lookup fixed. */
  function SourceParser(fileExists: string -> bool): string -> Result<Source>
  {
    t => ParseSource(t, fileExists)
  }

  function ParseSources(tokens: seq<string>, fileExists: string -> bool): Result<seq<Source>>
  {
    ParseEach(SourceParser(fileExists), tokens)
  }

  /**
   * `SourcePointer.parse`: raises unless the string is a pointer; `None`
   * (Java's null) when splitting on `+` leaves no token at all.
   */
  function ParsePointer(pointer: string, fileExists: string -> bool): (r: Result<Option<seq<Source>>>)
    ensures !IsPointer(pointer) ==> r.Err?
    ensures r.Ok? && r.value.Some? ==> r.value.value != []
    ensures r.Ok? ==> forall s :: s in (if r.value.Some? then r.value.value else []) ==> SortedByStart(s.regions)
  {
    if !IsPointer(pointer) then Err("RuntimeException")
    else
      var sources :- ParseSources(JavaSplit(pointer, '+'), fileExists);
      if sources == [] then Ok(None) else Ok(Some(sources))
  }

  /** A pointer made only of separators splits into no token and parses to null. */
  lemma {:induction false} SeparatorsOnlyGiveNull(fileExists: string -> bool)
    ensures ParsePointer("+", fileExists) == Ok(None)
    ensures ParsePointer("", fileExists).Err?
  {
    assert Split("+", '+') == ["", ""] by {
      SplitCons("", "", '+');
      SplitNoSep("", '+');
    }
    assert JavaSplit("", '+') == [""];
    assert MatchPointer("") == None;
  }

  function RegionStrings(rs: seq<Region>): seq<string>
  {
    MapSeq(RegionToString, rs)
  }

  /** The `[r1,r2,...]` part of `Source.toString`, without the brackets. */
  function RegionsText(rs: seq<Region>): string
  {
    Join(RegionStrings(rs), ",")
  }

  /** `Source.toString`: target, then `{ascii}` when flagged, then `[r1,r2,...]` when there are regions. */
  function SourceString(src: Source): string
  {
    src.target + AsciiMark(src.isAscii) + RegionsPart(src.regions)
  }

  function AsciiMark(isAscii: bool): string { if isAscii then "{ascii}" else "" }

  function RegionsPart(rs: seq<Region>): string { if rs == [] then "" else "[" + RegionsText(rs) + "]" }

  /** `Source.toString` as the string-builder code it is. */
  method SourceToString(src: Source) returns (sb: string)
    ensures sb == SourceString(src)
  {
    sb := src.target;
    if src.isAscii {
      sb := sb + "{ascii}";
    }
    assert sb == src.target + AsciiMark(src.isAscii);
    ghost var head := sb;
    if |src.regions| > 0 {
      ghost var text := RegionsText(src.regions);
      sb := AppendRegions(sb + "[", src.regions);
      ConcatAssoc(head, "[", text);
      sb := sb + "]";
      ConcatAssoc(head, "[" + text, "]");
    } else {
      assert sb == head + RegionsPart(src.regions);
    }
  }

  /** The loop of `Source.toString`: a comma before every region but the first, told by the `[` before it. */
  method AppendRegions(sb0: string, rs: seq<Region>) returns (sb: string)
    requires sb0 != [] && sb0[|sb0| - 1] == '['
    ensures sb == sb0 + RegionsText(rs)
  {
    sb := sb0;
    var i := 0;
    while i < |rs|
      invariant 0 <= i <= |rs|
      invariant sb == sb0 + RegionsText(rs[..i])
      invariant sb != [] && (i == 0 ==> sb[|sb| - 1] == '[') && (i > 0 ==> IsAsciiDigit(sb[|sb| - 1]))
    {
      var piece := RegionToString(rs[i]);
      ghost var text := RegionsText(rs[..i]);
      RegionsTextSnoc(rs, i);
      if sb[|sb| - 1] != '[' {
        sb := sb + ",";
        ConcatAssoc(sb0, text, ",");
        ConcatAssoc(sb0, text + ",", piece);
      } else {
        assert text == [];
        assert sb == sb0;
      }
      sb := sb + piece;
      i := i + 1;
    }
    assert rs[..i] == rs;
  }

  lemma {:induction false} RegionsTextSnoc(rs: seq<Region>, i: nat)
    requires i < |rs|
    ensures RegionsText(rs[..i + 1])
         == if i == 0 then RegionToString(rs[i]) else RegionsText(rs[..i]) + "," + RegionToString(rs[i])
  {
    MapSnoc(RegionToString, rs, i);
    JoinAppend(RegionStrings(rs[..i]), RegionToString(rs[i]), ",");
  }

  /** `SourcePointer.toString`: the sources joined with `+`. */
  function PointerString(sources: seq<Source>): string
  {
    Join(SourceStrings(sources), "+")
  }

  /** Targets that survive printing and parsing: non-empty, on one line, free of `{`, `[` and `+`, not markup. */
  predicate PlainTarget(t: string)
  {
    && t != [] && t[0] != '<'
    && forall k :: 0 <= k < |t| ==> !IsLineTerminator(t[k]) && t[k] != '{' && t[k] != '[' && t[k] != '+'
  }

  /** Regions the pattern's `[0-9:,]` can carry: both bounds non-negative `int`s. */
  predicate PrintableRegion(r: Region) { 0 <= r.start <= Int32Max && 0 <= r.end <= Int32Max }

  predicate PrintableSource(src: Source, fileExists: string -> bool)
  {
    && PlainTarget(src.target)
    && (forall i :: 0 <= i < |src.regions| ==> PrintableRegion(src.regions[i]))
    && SortedByStart(src.regions)
    && DetermineType(src.target, fileExists) == Ok(src.kind)
  }

  lemma {:induction false} RegionStringChars(r: Region)
    requires PrintableRegion(r)
    ensures IsRegionsText(RegionToString(r)) && ',' !in RegionToString(r)
  {
    var s := RegionToString(r);
    assert forall k :: 0 <= k < |s| ==> IsRegionsChar(s[k]) by {
      var a := IntToString(r.start);
      forall k | 0 <= k < |s|
        ensures IsRegionsChar(s[k])
      {
        if k < |a| { assert s[k] == a[k]; }
        else if k > |a| { assert s[k] == IntToString(r.end)[k - |a| - 1]; }
      }
    }
  }

  lemma {:induction false} RegionsTextChars(rs: seq<Region>)
    requires rs != [] && forall i :: 0 <= i < |rs| ==> PrintableRegion(rs[i])
    ensures IsRegionsText(RegionsText(rs))
    decreases |rs|
  {
    var parts := RegionStrings(rs);
    RegionStringChars(rs[0]);
    if |rs| > 1 {
      RegionsTextChars(rs[1..]);
      MapTail(RegionToString, rs);
      var first := parts[0];
      var rest := RegionsText(rs[1..]);
      assert RegionsText(rs) == first + "," + rest;
      forall k | 0 <= k < |first + "," + rest|
        ensures IsRegionsChar((first + "," + rest)[k])
      {
        if k < |first| { assert (first + "," + rest)[k] == first[k]; }
        else if k > |first| { assert (first + "," + rest)[k] == rest[k - |first| - 1]; }
      }
    }
  }

  /** The printed regions parse back to the regions. */
  lemma {:induction false} ParseRegionStrings(rs: seq<Region>)
    requires forall i :: 0 <= i < |rs| ==> PrintableRegion(rs[i])
    ensures ParseRegionList(RegionStrings(rs)) == Ok(rs)
  {
    forall i | 0 <= i < |rs|
      ensures ParseRegion(RegionStrings(rs)[i]) == Ok(rs[i])
    {
      RegionRoundTrip(rs[i]);
    }
    ParseEachAll(ParseRegion, RegionStrings(rs), rs);
  }

  /** What follows the target of a reading starts with `{` or `[`, if anything follows at all. */
  lemma {:induction false} SuffixAfterTarget(token: string, m: PointerMatch)
    ensures Decomposes(token, m) && |m.target| < |token| ==> token[|m.target|] in "{["
  {
    if Decomposes(token, m) && |m.target| < |token| {
      assert token[|m.target|..] == Suffix(m.isAscii, m.regions);
      SuffixStart(m.isAscii, m.regions);
    }
  }

  /**
   * A region read from "N:" ends at -1 and prints as "N:-1", whose `-` the
   * pointer pattern's regions group does not admit, so such a region does
   * not survive printing and parsing again.
   */
  lemma {:induction false} OpenRegionPrintsMinus(n: nat)
    requires n <= Int32Max
    ensures ParseRegion(NatToString(n) + ":") == Ok(Region(n, -1))
    ensures RegionToString(Region(n, -1)) == NatToString(n) + ":-1"
  {
    ParseRegionForms(n, 0);
  }

  /** Any non-empty text the optional groups stand for starts with `{` or `[`. */
  lemma {:induction false} SuffixStart(isAscii: bool, regions: Option<string>)
    ensures Suffix(isAscii, regions) != [] ==> Suffix(isAscii, regions)[0] in "{["
  {
  }

  /** The `regions` group a printed source carries: none when it has no regions. */
  function RegionsGroup(rs: seq<Region>): Option<string>
  {
    if rs == [] then None else Some(RegionsText(rs))
  }

  /** The pattern reads a printed source back as its target, flag and regions text. */
  lemma {:induction false} PrintedSourceMatches(src: Source, fileExists: string -> bool)
    requires PrintableSource(src, fileExists)
    ensures MatchPointer(SourceString(src)) == Some(PointerMatch(src.target, src.isAscii, RegionsGroup(src.regions)))
  {
    var g := RegionsGroup(src.regions);
    if g.Some? {
      RegionsTextChars(src.regions);
    }
    var token := SourceString(src);
    ConcatAssoc(src.target, AsciiMark(src.isAscii), RegionsPart(src.regions));
    assert token == src.target + Suffix(src.isAscii, g);
    var m := PointerMatch(src.target, src.isAscii, g);
    assert Decomposes(token, m);
    MatchPointerCorrect(token, m);
    var found := MatchPointer(token).value;
    assert found.target == src.target by {
      var n := |found.target|;
      if n < |src.target| {
        SuffixAfterTarget(token, found);
        assert false;
      }
      assert token[..n] == found.target && token[..|src.target|] == src.target;
    }
    assert Suffix(found.isAscii, found.regions) == Suffix(src.isAscii, g) by {
      assert token[|src.target|..] == Suffix(found.isAscii, found.regions);
      assert token[|src.target|..] == Suffix(src.isAscii, g);
    }
    MatchSuffixComplete(found.isAscii, found.regions);
    MatchSuffixComplete(src.isAscii, g);
  }

  /** The regions text of printable regions splits on `,` and parses back to them. */
  lemma {:induction false} PrintedRegionsParse(rs: seq<Region>)
    requires rs != [] && forall i :: 0 <= i < |rs| ==> PrintableRegion(rs[i])
    ensures ParseRegionList(JavaSplit(RegionsText(rs), ',')) == Ok(rs)
  {
    forall i | 0 <= i < |rs|
      ensures ',' !in RegionStrings(rs)[i]
    {
      RegionStringChars(rs[i]);
    }
    JavaSplitJoin(RegionStrings(rs), ',');
    ParseRegionStrings(rs);
  }

  /** What `Source.parse` makes of a token whose capture and regions are known. */
  lemma {:induction false} ParseSourceOf(token: string, fileExists: string -> bool, m: PointerMatch, regions: seq<Region>, kind: SourceType)
    requires MatchPointer(token) == Some(m)
    requires m.regions.Some? ==> ParseRegionList(JavaSplit(m.regions.value, ',')) == Ok(regions)
    requires m.regions.None? ==> regions == []
    requires DetermineType(m.target, fileExists) == Ok(kind)
    ensures ParseSource(token, fileExists) == Ok(Source(kind, m.target, SortByStart(regions), m.isAscii))
  {
  }

  /** Printing a source and parsing the text gives the source back. */
  lemma {:induction false} SourceRoundTrip(src: Source, fileExists: string -> bool)
    requires PrintableSource(src, fileExists)
    ensures ParseSource(SourceString(src), fileExists) == Ok(src)
  {
    PrintedSourceMatches(src, fileExists);
    if src.regions != [] {
      PrintedRegionsParse(src.regions);
    }
    SortSorted(src.regions);
    ParseSourceOf(SourceString(src), fileExists, PointerMatch(src.target, src.isAscii, RegionsGroup(src.regions)), src.regions, src.kind);
  }

  function SourceStrings(sources: seq<Source>): seq<string>
  {
    MapSeq(SourceString, sources)
  }


  /** No `+` in a printed source, whose text starts with its target. */
  lemma {:induction false} SourceStringShape(src: Source, fileExists: string -> bool)
    requires PrintableSource(src, fileExists)
    ensures '+' !in SourceString(src) && SourceString(src) != [] && SourceString(src)[0] == src.target[0]
  {
    var s := SourceString(src);
    var t := src.target;
    var tail := AsciiMark(src.isAscii) + RegionsPart(src.regions);
    ConcatAssoc(t, AsciiMark(src.isAscii), RegionsPart(src.regions));
    if src.regions != [] {
      RegionsTextChars(src.regions);
    }
    forall k | 0 <= k < |s|
      ensures s[k] != '+'
    {
      if k < |t| {
        assert s[k] == t[k];
      } else {
        assert s[k] == tail[k - |t|];
        if src.regions != [] {
          var text := RegionsText(src.regions);
          var mark := AsciiMark(src.isAscii);
          if k - |t| > |mark| && k - |t| < |mark| + 1 + |text| {
            assert tail[k - |t|] == text[k - |t| - |mark| - 1];
          }
        }
      }
    }
  }

  lemma {:induction false} ParsePrintedSources(sources: seq<Source>, fileExists: string -> bool)
    requires forall i :: 0 <= i < |sources| ==> PrintableSource(sources[i], fileExists)
    ensures ParseSources(SourceStrings(sources), fileExists) == Ok(sources)
  {
    forall i | 0 <= i < |sources|
      ensures SourceParser(fileExists)(SourceStrings(sources)[i]) == Ok(sources[i])
    {
      SourceRoundTrip(sources[i], fileExists);
    }
    ParseEachAll(SourceParser(fileExists), SourceStrings(sources), sources);
  }

  lemma {:induction false} JoinFirst(parts: seq<string>, sep: string)
    requires parts != [] && parts[0] != []
    ensures Join(parts, sep) != [] && Join(parts, sep)[0] == parts[0][0]
  {
  }

  /** What `SourcePointer.parse` makes of a pointer whose tokens all parse. */
  lemma {:induction false} ParsePointerOf(pointer: string, fileExists: string -> bool, sources: seq<Source>)
    requires pointer != [] && pointer[0] != '<' && sources != []
    requires ParseSources(JavaSplit(pointer, '+'), fileExists) == Ok(sources)
    ensures ParsePointer(pointer, fileExists) == Ok(Some(sources))
  {
    var tokens := JavaSplit(pointer, '+');
    forall t | t in tokens
      ensures MatchPointer(t).Some?
    {
      var i :| 0 <= i < |tokens| && tokens[i] == t;
      assert SourceParser(fileExists)(tokens[i]).Ok?;
    }
  }

  /** Printing a non-empty list of sources and parsing the pointer gives the list back. */
  lemma {:induction false} PointerRoundTrip(sources: seq<Source>, fileExists: string -> bool)
    requires sources != []
    requires forall i :: 0 <= i < |sources| ==> PrintableSource(sources[i], fileExists)
    ensures ParsePointer(PointerString(sources), fileExists) == Ok(Some(sources))
  {
    var strings := SourceStrings(sources);
    assert PointerString(sources) == Join(strings, "+");
    forall i | 0 <= i < |strings|
      ensures '+' !in strings[i] && strings[i] != []
    {
      SourceStringShape(sources[i], fileExists);
    }
    JavaSplitJoin(strings, '+');
    SourceStringShape(sources[0], fileExists);
    JoinFirst(strings, "+");
    ParsePrintedSources(sources, fileExists);
    ParsePointerOf(PointerString(sources), fileExists, sources);
  }
}
