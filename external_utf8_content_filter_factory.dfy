/**
 * The factory of the char filter that reads a document's text from the
 * files its source pointer names: before reading, it makes every region of
 * every source a byte range of the concatenation of all sources, skipping a
 * leading UTF-8 byte-order mark.
 */
module ExternalUtf8ContentFilterFactory {
  import opened Common
  import opened SourcePointer

  /** The UTF-8 byte-order mark, EF BB BF. */
  const Bom: seq<Byte> := [0xEF, 0xBB, 0xBF]

  predicate HasBom(content: seq<Byte>)
  {
    |content| >= 3 && content[..3] == Bom
  }

  /**
   * `chan.read(ByteBuffer.wrap(buf))` at position 0: as many leading bytes
   * of the content as fit overwrite the buffer, the rest of the buffer keeps
   * what it held (an empty content reads nothing).
   */
  function ReadInto(buf: seq<Byte>, content: seq<Byte>): (r: seq<Byte>)
    requires |buf| == 3
    ensures |r| == 3
    ensures forall i :: 0 <= i < 3 ==> r[i] == if i < |content| then content[i] else buf[i]
  {
    var n := Min(3, |content|);
    content[..n] + buf[n..]
  }

  /** A fresh buffer reads the mark exactly when the content starts with it. */
  lemma {:induction false} FreshBufferSeesBom(content: seq<Byte>)
    ensures ReadInto([0, 0, 0], content) == Bom <==> HasBom(content)
  {
    var r := ReadInto([0, 0, 0], content);
    assert r[2] == if 2 < |content| then content[2] else 0;
    if r == Bom {
      assert content[..3] == r;
    }
    if HasBom(content) {
      assert r == content[..3];
    }
  }

  /** The regions a source is read with: the whole input when it names none. */
  function DefaultRegions(regions: seq<Region>, inputLen: int): seq<Region>
  {
    if regions == [] then [Region(0, inputLen)] else regions
  }

  /** The mark is looked for only in a non-ASCII source with a region starting at 0. */
  predicate ChecksBom(isAscii: bool, regions: seq<Region>)
  {
    !isAscii && exists i :: 0 <= i < |regions| && regions[i].start == 0
  }

  /** One region after adjustment: past the mark when it is skipped, closed at the input's end, moved by `offset`. */
  function AdjustRegion(r: Region, skipBom: bool, inputLen: int, offset: int): Region
  {
    var start := if skipBom && r.start == 0 then 3 else r.start;
    var end := if r.end == -1 then inputLen else r.end;
    Region(start + offset, end + offset)
  }

  function AdjustEach(rs: seq<Region>, skipBom: bool, inputLen: int, offset: int): (out: seq<Region>)
    ensures |out| == |rs|
  {
    seq(|rs|, i requires 0 <= i < |rs| => AdjustRegion(rs[i], skipBom, inputLen, offset))
  }

  /**
   * One iteration of `adjustRegions` for a source of `inputLen` bytes placed
   * at `offset` in the concatenation; `bufHoldsBom` is what the comparison of
   * the buffer with the mark gives, should the mark be looked for.
   */
  function AdjustSource(src: Source, inputLen: int, bufHoldsBom: bool, offset: int): Source
  {
    var rs := DefaultRegions(src.regions, inputLen);
    src.(regions := AdjustEach(rs, bufHoldsBom && ChecksBom(src.isAscii, rs), inputLen, offset))
  }

  /** The number of bytes of all the given sources together. */
  function TotalLength(contents: seq<seq<Byte>>): nat
  {
    if contents == [] then 0 else |contents[0]| + TotalLength(contents[1..])
  }

  lemma {:induction false} TotalLengthSnoc(contents: seq<seq<Byte>>, k: nat)
    requires k < |contents|
    ensures TotalLength(contents[..k + 1]) == TotalLength(contents[..k]) + |contents[k]|
    decreases k
  {
    if k > 0 {
      TotalLengthSnoc(contents[1..], k - 1);
      assert contents[..k + 1][1..] == contents[1..][..k];
      assert contents[..k][1..] == contents[1..][..k - 1];
    }
  }

  /** A prefix of the sources holds no more bytes than all of them. */
  lemma {:induction false} TotalLengthPrefix(contents: seq<seq<Byte>>, k: nat)
    requires k <= |contents|
    ensures TotalLength(contents[..k]) <= TotalLength(contents)
    decreases |contents| - k
  {
    if k < |contents| {
      TotalLengthSnoc(contents, k);
      TotalLengthPrefix(contents, k + 1);
    } else {
      assert contents[..k] == contents;
    }
  }

  /** The bytes of all sources one after the other, as the reader over the pointer delivers them. */
  function Concat(contents: seq<seq<Byte>>): (all: seq<Byte>)
    ensures |all| == TotalLength(contents)
  {
    if contents == [] then [] else contents[0] + Concat(contents[1..])
  }

  /**
   * All sources as `adjustRegions` leaves them, source `k` placed after the
   * bytes of the sources before it, with `bomFlags[k]` what the comparison
   * of the buffer with the mark gave for it.
   */
  function AdjustAll(sources: seq<Source>, contents: seq<seq<Byte>>, bomFlags: seq<bool>): (out: seq<Source>)
    requires |sources| == |contents| == |bomFlags|
    ensures |out| == |sources|
  {
    seq(|sources|, k requires 0 <= k < |sources| =>
      AdjustSource(sources[k], |contents[k]|, bomFlags[k], TotalLength(contents[..k])))
  }

  /** With a buffer of its own per source, the comparison tells whether the source starts with the mark. */
  function BomFlags(contents: seq<seq<Byte>>): (flags: seq<bool>)
    ensures |flags| == |contents|
  {
    seq(|contents|, k requires 0 <= k < |contents| => HasBom(contents[k]))
  }

  /** With the buffer shared, the comparison is with what the sources before left in it. */
  function BomFlagsAsWritten(sources: seq<Source>, contents: seq<seq<Byte>>): (flags: seq<bool>)
    requires |sources| == |contents|
    ensures |flags| == |contents|
  {
    seq(|contents|, k requires 0 <= k < |contents| => ReadInto(BufferAt([0, 0, 0], sources, contents, k), contents[k]) == Bom)
  }

  /** The shared buffer after a source: its first bytes when it looked for the mark. */
  function NextBuffer(buf: seq<Byte>, src: Source, content: seq<Byte>): (next: seq<Byte>)
    requires |buf| == 3
    ensures |next| == 3
  {
    if ChecksBom(src.isAscii, DefaultRegions(src.regions, |content|)) then ReadInto(buf, content) else buf
  }

  /** The shared buffer when source `k` is reached, having held `buf` at the first source. */
  function BufferAt(buf: seq<Byte>, sources: seq<Source>, contents: seq<seq<Byte>>, k: nat): (b: seq<Byte>)
    requires |buf| == 3 && k <= |sources| == |contents|
    ensures |b| == 3
    decreases k
  {
    if k == 0 then buf else BufferAt(NextBuffer(buf, sources[0], contents[0]), sources[1..], contents[1..], k - 1)
  }

  lemma {:induction false} BufferAtNext(buf: seq<Byte>, sources: seq<Source>, contents: seq<seq<Byte>>, k: nat)
    requires |buf| == 3 && k < |sources| == |contents|
    ensures BufferAt(buf, sources, contents, k + 1) == NextBuffer(BufferAt(buf, sources, contents, k), sources[k], contents[k])
    decreases k
  {
    if k > 0 {
      BufferAtNext(NextBuffer(buf, sources[0], contents[0]), sources[1..], contents[1..], k - 1);
    }
  }

  /** The first bytes of `content` into `bomBuf`, as the channel read does. */
  method ReadBom(bomBuf: array<Byte>, content: seq<Byte>)
    requires bomBuf.Length == 3
    modifies bomBuf
    ensures bomBuf[..] == ReadInto(old(bomBuf[..]), content)
  {
    var i := 0;
    while i < 3 && i < |content|
      invariant 0 <= i <= 3 && i <= |content|
      invariant forall j :: 0 <= j < 3 ==> bomBuf[j] == if j < i then content[j] else old(bomBuf[j])
    {
      bomBuf[i] := content[i];
      i := i + 1;
    }
  }

  /**
   * The body of the loop of `adjustRegions` for one source: the default
   * region, the check for the mark (through `bomBuf`), the shift past it,
   * the open ends closed and every region moved by `offset`.
   */
  method AdjustOne(src: Source, content: seq<Byte>, bomBuf: array<Byte>, offset: int) returns (adjusted: Source)
    requires bomBuf.Length == 3
    modifies bomBuf
    ensures adjusted == AdjustSource(src, |content|, ReadInto(old(bomBuf[..]), content) == Bom, offset)
    ensures bomBuf[..] == NextBuffer(old(bomBuf[..]), src, content)
  {
    var inputLen := |content|;
    var regions := src.regions;
    if regions == [] {
      regions := [Region(0, inputLen)];
    }
    ghost var rs := regions;
    var skip := false;
    if !src.isAscii && exists i :: 0 <= i < |regions| && regions[i].start == 0 {
      ReadBom(bomBuf, content);
      skip := bomBuf[..] == Bom;
    }
    assert skip == (ReadInto(old(bomBuf[..]), content) == Bom && ChecksBom(src.isAscii, rs));
    if skip {
      var i := 0;
      while i < |regions|
        invariant 0 <= i <= |regions| == |rs|
        invariant forall j :: 0 <= j < |rs| ==>
          regions[j] == if j < i && rs[j].start == 0 then rs[j].(start := 3) else rs[j]
      {
        if regions[i].start == 0 {
          regions := regions[i := regions[i].(start := 3)];
        }
        i := i + 1;
      }
    }
    ghost var shifted := regions;
    var i := 0;
    while i < |regions|
      invariant 0 <= i <= |regions| == |rs|
      invariant forall j :: 0 <= j < i ==> regions[j] == AdjustRegion(rs[j], skip, inputLen, offset)
      invariant forall j :: i <= j < |rs| ==> regions[j] == shifted[j]
    {
      var r := regions[i];
      if r.end == -1 {
        r := r.(end := inputLen);
      }
      regions := regions[i := Region(r.start + offset, r.end + offset)];
      i := i + 1;
    }
    adjusted := src.(regions := regions);
  }

  /**
   * `adjustRegions`, with a buffer for the mark of its own for every
   * source: each source's regions are adjusted after its own first bytes
   * and placed after all the bytes of the sources before it.
   */
  method AdjustRegions(sources: array<Source>, contents: seq<seq<Byte>>)
    requires sources.Length == |contents|
    modifies sources
    ensures sources[..] == AdjustAll(old(sources[..]), contents, BomFlags(contents))
  {
    ghost var orig := sources[..];
    ghost var spec := AdjustAll(orig, contents, BomFlags(contents));
    var outByteOffset := 0;
    var k := 0;
    while k < sources.Length
      invariant 0 <= k <= sources.Length
      invariant outByteOffset == TotalLength(contents[..k])
      invariant sources[..k] == spec[..k] && sources[k..] == orig[k..]
    {
      var bomBuf := new Byte[3](_ => 0);
      assert bomBuf[..] == [0, 0, 0];
      FreshBufferSeesBom(contents[k]);
      assert BomFlags(contents)[k] == (ReadInto(bomBuf[..], contents[k]) == Bom);
      var adjusted := AdjustOne(sources[k], contents[k], bomBuf, outByteOffset);
      StoreNext(sources[..], spec, orig, k, adjusted);
      Store(sources, k, adjusted);
      TotalLengthSnoc(contents, k);
      outByteOffset := outByteOffset + |contents[k]|;
      k := k + 1;
    }
    assert sources[..] == sources[..k] && spec == spec[..k];
  }

  /** `sources[k] = v`. */
  method Store(sources: array<Source>, k: nat, v: Source)
    requires k < sources.Length
    modifies sources
    ensures sources[..] == old(sources[..])[k := v]
  {
    sources[k] := v;
  }

  /** Storing the next specified source moves the boundary between done and untouched by one. */
  lemma {:induction false} StoreNext(cur: seq<Source>, spec: seq<Source>, orig: seq<Source>, k: nat, v: Source)
    requires k < |cur| == |spec| == |orig| && cur[..k] == spec[..k] && cur[k..] == orig[k..] && v == spec[k]
    ensures cur[k := v][..k + 1] == spec[..k + 1] && cur[k := v][k + 1..] == orig[k + 1..]
  {
    assert cur[k := v][..k + 1] == cur[..k] + [v];
    assert cur[k := v][k + 1..] == cur[k..][1..];
  }

  /** One turn of the loop with the shared buffer: source `k` as specified, and the buffer passed on. */
  lemma {:induction false} AsWrittenStep(sources: seq<Source>, contents: seq<seq<Byte>>, k: nat, buf: seq<Byte>, adjusted: Source)
    requires |sources| == |contents| && k < |sources|
    requires buf == BufferAt([0, 0, 0], sources, contents, k)
    requires adjusted == AdjustSource(sources[k], |contents[k]|, ReadInto(buf, contents[k]) == Bom, TotalLength(contents[..k]))
    ensures adjusted == AdjustAll(sources, contents, BomFlagsAsWritten(sources, contents))[k]
    ensures BufferAt([0, 0, 0], sources, contents, k + 1) == NextBuffer(buf, sources[k], contents[k])
  {
    BufferAtNext([0, 0, 0], sources, contents, k);
  }

  /**
   * `adjustRegions` as written: one buffer for the mark shared by all
   * sources, so a source shorter than three bytes is compared with bytes
   * left over from an earlier one.
   */
  method AdjustRegionsAsWritten(sources: array<Source>, contents: seq<seq<Byte>>)
    requires sources.Length == |contents|
    modifies sources
    ensures sources[..] == AdjustAll(old(sources[..]), contents, BomFlagsAsWritten(old(sources[..]), contents))
  {
    ghost var orig := sources[..];
    ghost var spec := AdjustAll(orig, contents, BomFlagsAsWritten(orig, contents));
    var outByteOffset := 0;
    var bomBuf := new Byte[3](_ => 0);
    assert bomBuf[..] == [0, 0, 0];
    var k := 0;
    while k < sources.Length
      invariant 0 <= k <= sources.Length && bomBuf.Length == 3
      invariant outByteOffset == TotalLength(contents[..k])
      invariant bomBuf[..] == BufferAt([0, 0, 0], orig, contents, k)
      invariant sources[..k] == spec[..k] && sources[k..] == orig[k..]
    {
      ghost var buf := bomBuf[..];
      var adjusted := AdjustOne(sources[k], contents[k], bomBuf, outByteOffset);
      AsWrittenStep(orig, contents, k, buf, adjusted);
      StoreNext(sources[..], spec, orig, k, adjusted);
      Store(sources, k, adjusted);
      TotalLengthSnoc(contents, k);
      outByteOffset := outByteOffset + |contents[k]|;
      k := k + 1;
    }
    assert sources[..] == sources[..k] && spec == spec[..k];
  }

  /** A source that names no regions is read whole: one region over all of its bytes, past the mark if it has one. */
  lemma {:induction false} DefaultRegionCoversSource(src: Source, content: seq<Byte>, offset: int)
    requires src.regions == []
    ensures AdjustSource(src, |content|, HasBom(content), offset).regions
         == [Region(offset + (if HasBom(content) && !src.isAscii then 3 else 0), offset + |content|)]
  {
    assert DefaultRegions(src.regions, |content|)[0].start == 0;
  }

  /**
   * What happens to a region, given the source's mark: a start at 0 of a
   * non-ASCII source with the mark moves to 3, an end of -1 becomes the
   * input's length, and both move by the bytes of the sources before.
   */
  lemma {:induction false} AdjustedRegion(src: Source, content: seq<Byte>, offset: int, i: nat)
    requires i < |src.regions|
    ensures var r := src.regions[i];
      var out := AdjustSource(src, |content|, HasBom(content), offset).regions[i];
      && out.start == offset + (if r.start == 0 && HasBom(content) && !src.isAscii then 3 else r.start)
      && out.end == offset + (if r.end == -1 then |content| else r.end)
  {
  }

  /** A region a source can be read with: inside its bytes, not ending within the mark it starts on. */
  predicate ValidRegion(r: Region, content: seq<Byte>)
  {
    && 0 <= r.start <= |content|
    && (r.end == -1 || r.start <= r.end <= |content|)
    && (HasBom(content) && r.start == 0 ==> r.end == -1 || r.end >= 3)
  }

  /**
   * With a buffer of its own per source, the adjusted regions of source `k`
   * are well-formed byte ranges inside that source's span of the
   * concatenation.
   */
  lemma {:induction false} AdjustedRegionsInBounds(sources: seq<Source>, contents: seq<seq<Byte>>, k: nat)
    requires |sources| == |contents| && k < |sources|
    requires forall i :: 0 <= i < |sources[k].regions| ==> ValidRegion(sources[k].regions[i], contents[k])
    ensures var out := AdjustAll(sources, contents, BomFlags(contents))[k];
      forall i :: 0 <= i < |out.regions| ==>
        TotalLength(contents[..k]) <= out.regions[i].start <= out.regions[i].end <= TotalLength(contents[..k + 1])
  {
    assert AdjustAll(sources, contents, BomFlags(contents))[k]
        == AdjustSource(sources[k], |contents[k]|, HasBom(contents[k]), TotalLength(contents[..k]));
    TotalLengthSnoc(contents, k);
  }

  /**
   * The shared buffer goes wrong: after a source that starts with the mark,
   * an empty non-ASCII source is taken to start with it too, and its one
   * region comes out with its start after its end.
   */
  lemma {:induction false} StaleBomBufferAsWritten()
    ensures var a := Source(FileSystem, "/a.xml", [], false);
      var b := Source(FileSystem, "/b.xml", [], false);
      var contents := [[0xEF, 0xBB, 0xBF, 0x41], []];
      && AdjustAll([a, b], contents, BomFlagsAsWritten([a, b], contents))[1].regions == [Region(7, 4)]
      && AdjustAll([a, b], contents, BomFlags(contents))[1].regions == [Region(4, 4)]
  {
    var a := Source(FileSystem, "/a.xml", [], false);
    var b := Source(FileSystem, "/b.xml", [], false);
    var contents: seq<seq<Byte>> := [[0xEF, 0xBB, 0xBF, 0x41], []];
    assert ChecksBom(a.isAscii, DefaultRegions(a.regions, 4)) by {
      assert DefaultRegions(a.regions, 4)[0].start == 0;
    }
    assert ChecksBom(b.isAscii, DefaultRegions(b.regions, 0)) by {
      assert DefaultRegions(b.regions, 0)[0].start == 0;
    }
    assert BufferAt([0, 0, 0], [a, b], contents, 1) == Bom by {
      assert ReadInto([0, 0, 0], contents[0]) == Bom;
    }
    assert contents[..1] == [contents[0]];
  }

  /** The regions of all sources in order, as `create` collects them. */
  function FlatRegions(sources: seq<Source>): seq<Region>
  {
    if sources == [] then [] else sources[0].regions + FlatRegions(sources[1..])
  }

  lemma {:induction false} FlatRegionsFrom(sources: seq<Source>, r: Region)
    requires r in FlatRegions(sources)
    ensures exists k :: 0 <= k < |sources| && r in sources[k].regions
  {
    if r !in sources[0].regions {
      FlatRegionsFrom(sources[1..], r);
      var k :| 0 <= k < |sources[1..]| && r in sources[1..][k].regions;
      assert r in sources[k + 1].regions;
    }
  }

  /** What the filter is made to read: nothing, or the bytes of all sources with the regions to take from them. */
  datatype FilterInput = EmptyReader | ExternalContent(bytes: seq<Byte>, regions: seq<Region>, pointer: string)

  /** The bytes of every source, as its reader yields them. */
  function Contents(sources: seq<Source>, contentOf: string -> seq<Byte>): (contents: seq<seq<Byte>>)
    ensures |contents| == |sources|
  {
    MapSeq((s: Source) => contentOf(s.target), sources)
  }

  /** The filter input `create` builds from the parsed sources. */
  function Created(sources: seq<Source>, contentOf: string -> seq<Byte>, pointer: string): FilterInput
  {
    var contents := Contents(sources, contentOf);
    ExternalContent(Concat(contents), FlatRegions(AdjustAll(sources, contents, BomFlags(contents))), pointer)
  }

  /**
   * `create`: an empty field gives an empty reader; a pointer that does not
   * parse, or parses to null, is an error; otherwise the regions are
   * adjusted and collected over the concatenated sources. The contents of
   * the files and objects are given by `contentOf`.
   */
  method Create(ptrStr: string, fileExists: string -> bool, contentOf: string -> seq<Byte>) returns (r: Result<FilterInput>)
    ensures ptrStr == [] ==> r == Ok(EmptyReader)
    ensures ptrStr != [] ==>
      (r.Ok? <==> ParsePointer(ptrStr, fileExists).Ok? && ParsePointer(ptrStr, fileExists).value.Some?)
    ensures ptrStr != [] && r.Ok? ==> r.value == Created(ParsePointer(ptrStr, fileExists).value.value, contentOf, ptrStr)
  {
    if ptrStr == [] {
      return Ok(EmptyReader);
    }
    var parsed := ParsePointer(ptrStr, fileExists);
    if parsed.Err? {
      return Err(parsed.error);
    }
    if parsed.value.None? {
      return Err("RuntimeException");
    }
    var sources := parsed.value.value;
    var contents := Contents(sources, contentOf);
    var arr := new Source[|sources|](i requires 0 <= i < |sources| => sources[i]);
    assert arr[..] == sources;
    AdjustRegions(arr, contents);
    var regions := FlatRegions(arr[..]);
    assert regions == FlatRegions(AdjustAll(sources, contents, BomFlags(contents)));
    return Ok(ExternalContent(Concat(contents), regions, ptrStr));
  }

  /**
   * Every region the filter is given is a well-formed byte range of the
   * concatenated sources, as long as each source's own regions are valid
   * for its bytes.
   */
  lemma {:induction false} CreatedRegionsInBounds(sources: seq<Source>, contentOf: string -> seq<Byte>, pointer: string)
    requires forall k, i :: 0 <= k < |sources| && 0 <= i < |sources[k].regions| ==>
      ValidRegion(sources[k].regions[i], contentOf(sources[k].target))
    ensures var out := Created(sources, contentOf, pointer);
      forall r :: r in out.regions ==> 0 <= r.start <= r.end <= |out.bytes|
  {
    var contents := Contents(sources, contentOf);
    var adjusted := AdjustAll(sources, contents, BomFlags(contents));
    forall r | r in FlatRegions(adjusted)
      ensures 0 <= r.start <= r.end <= TotalLength(contents)
    {
      FlatRegionsFrom(adjusted, r);
      var k :| 0 <= k < |adjusted| && r in adjusted[k].regions;
      AdjustedRegionsInBounds(sources, contents, k);
      TotalLengthPrefix(contents, k + 1);
      var i :| 0 <= i < |adjusted[k].regions| && adjusted[k].regions[i] == r;
      assert TotalLength(contents[..k]) <= r.start <= r.end <= TotalLength(contents[..k + 1]);
    }
  }
}
