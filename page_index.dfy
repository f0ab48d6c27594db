/**
 * The page index file: a header ("OCRIDX", a version byte, a feature
 * bitset and, with identifiers, a record count), a table of fixed-size
 * page records, and a tail of NUL-terminated UTF-8 page identifiers.
 */
module PageIndex {
  import opened Common
  import opened Unicode
  import opened OcrFormat

  datatype Feature = LENGTH | IDENTIFIER | DIMENSION

  const Version: Byte := 0x01

  /** "OCRIDX" in ASCII. */
  const Magic: seq<Byte> := [0x4F, 0x43, 0x52, 0x49, 0x44, 0x58]

  /** The three features, so that any feature set has between zero and three members. */
  lemma {:induction false} FeatureSetCases(features: set<Feature>)
    ensures |features| == (if LENGTH in features then 1 else 0) + (if IDENTIFIER in features then 1 else 0)
      + (if DIMENSION in features then 1 else 0)
  {
    var noDims := features - {DIMENSION};
    var onlyLength := noDims - {IDENTIFIER};
    assert onlyLength <= {LENGTH} by {
      forall f | f in onlyLength ensures f == LENGTH {
        assert f.LENGTH? || f.IDENTIFIER? || f.DIMENSION?;
      }
    }
    RemoveOne(noDims, IDENTIFIER);
    RemoveOne(features, DIMENSION);
    assert |onlyLength| == if LENGTH in features then 1 else 0 by {
      if LENGTH in features { assert onlyLength == {LENGTH}; } else { assert onlyLength == {}; }
    }
  }

  /** Removing a member takes one off the size. */
  lemma {:induction false} RemoveOne<T>(s: set<T>, x: T)
    ensures |s| == |s - {x}| + if x in s then 1 else 0
  {
    if x in s {
      assert s == (s - {x}) + {x};
    } else {
      assert s - {x} == s;
    }
  }

  /** `getRecordSize`: a 4-byte start offset, and 4 more bytes per feature. */
  function RecordSize(features: set<Feature>): int
  {
    var size := 4;
    var size := if LENGTH in features then size + 4 else size;
    var size := if IDENTIFIER in features then size + 4 else size;
    if DIMENSION in features then size + 4 else size
  }

  /** A record has four bytes for its start and four for each feature. */
  lemma {:induction false} RecordSizeCounts(features: set<Feature>)
    ensures RecordSize(features) == 4 + 4 * |features|
    ensures 4 <= RecordSize(features) <= 16
  {
    FeatureSetCases(features);
  }

  /** `getHeaderSize`: 8 bytes, and 2 more for the record count when identifiers are stored. */
  function HeaderSize(features: set<Feature>): (r: int)
    ensures r == 8 || r == 10
    ensures r == 10 <==> IDENTIFIER in features
  {
    if IDENTIFIER in features then 8 + 2 else 8
  }

  /** The feature bitset: 0x01 for the length, 0x02 for identifiers, 0x04 for dimensions. */
  function FeatureByte(features: set<Feature>): Byte
  {
    (if LENGTH in features then 0x01 else 0) + (if IDENTIFIER in features then 0x02 else 0)
      + (if DIMENSION in features then 0x04 else 0)
  }

  /** The features whose bit is set in a bitset byte; other bits are ignored. */
  function FeaturesOf(b: Byte): (r: set<Feature>)
    ensures LENGTH in r <==> b % 2 == 1
    ensures IDENTIFIER in r <==> b / 2 % 2 == 1
    ensures DIMENSION in r <==> b / 4 % 2 == 1
  {
    (if b % 2 == 1 then {LENGTH} else {}) + (if b / 2 % 2 == 1 then {IDENTIFIER} else {})
      + (if b / 4 % 2 == 1 then {DIMENSION} else {})
  }

  /** The bitset decodes to the features it was written from. */
  lemma {:induction false} FeatureByteRoundTrip(features: set<Feature>)
    ensures FeaturesOf(FeatureByte(features)) == features
  {
    var r := FeaturesOf(FeatureByte(features));
    forall f ensures f in r <==> f in features {
      match f
      case LENGTH =>
      case IDENTIFIER =>
      case DIMENSION =>
    }
  }

  /** The low 16 bits of `n`, big-endian: `putShort((short) n)`. */
  function U16BE(n: int): (r: seq<Byte>)
    ensures |r| == 2
  {
    var v := n % 0x1_0000;
    [v / 0x100, v % 0x100]
  }

  /** The low 32 bits of `n`, big-endian: `putInt((int) n)`, the high half first. */
  function U32BE(n: int): (r: seq<Byte>)
    ensures |r| == 4
  {
    var v := n % 0x1_0000_0000;
    U16BE(v / 0x1_0000) + U16BE(v)
  }

  /** An unsigned big-endian number: `Short.toUnsignedInt(getShort())`, `Integer.toUnsignedLong(getInt())`. */
  function ReadBE(bytes: seq<Byte>): (r: nat)
  {
    if bytes == [] then 0 else ReadBE(bytes[..|bytes| - 1]) * 0x100 + bytes[|bytes| - 1]
  }

  lemma {:induction false} ReadBE2(a: Byte, b: Byte)
    ensures ReadBE([a, b]) == a * 0x100 + b
  {
    assert [a][..0] == [];
    assert ReadBE([a]) == a;
    assert [a, b][..1] == [a];
  }

  /** Reading two more bytes shifts what was read by 16 bits. */
  lemma {:induction false} ReadBEAppend2(a: seq<Byte>, b: seq<Byte>)
    requires |b| == 2
    ensures ReadBE(a + b) == ReadBE(a) * 0x1_0000 + ReadBE(b)
  {
    assert (a + b)[..|a + b| - 1] == a + [b[0]];
    assert (a + [b[0]])[..|a|] == a;
    assert b == [b[0], b[1]];
    ReadBE2(b[0], b[1]);
  }

  /** Reading a written short gives back the low 16 bits. */
  lemma {:induction false} ReadU16BE(n: int)
    ensures ReadBE(U16BE(n)) == n % 0x1_0000
  {
    var v := n % 0x1_0000;
    ReadBE2(v / 0x100, v % 0x100);
  }

  /** Reading a written int gives back the low 32 bits. */
  lemma {:induction false} ReadU32BE(n: int)
    ensures ReadBE(U32BE(n)) == n % 0x1_0000_0000
  {
    var v := n % 0x1_0000_0000;
    ReadBEAppend2(U16BE(v / 0x1_0000), U16BE(v));
    ReadU16BE(v / 0x1_0000);
    ReadU16BE(v);
  }

  /** The header's fields; its sizes follow from the features. */
  datatype Header = Header(version: int, numRecords: int, features: set<Feature>)

  /** The bytes `compile` produces. */
  function HeaderBytes(h: Header): (r: seq<Byte>)
    ensures |r| == HeaderSize(h.features)
  {
    Magic + [Version, FeatureByte(h.features)] + (if IDENTIFIER in h.features then U16BE(h.numRecords) else [])
  }

  /** `compile`: the header written into a buffer of exactly `headerSize` bytes. */
  method Compile(h: Header) returns (out: seq<Byte>)
    ensures out == HeaderBytes(h)
    ensures |out| == HeaderSize(h.features)
  {
    var buf := new Byte[HeaderSize(h.features)](_ => 0);
    Put(buf, 0, Magic);
    buf[6] := Version;
    buf[7] := FeatureByte(h.features);
    if IDENTIFIER in h.features {
      Put(buf, 8, U16BE(h.numRecords));
    }
    assert forall k :: 0 <= k < buf.Length ==> buf[k] == HeaderBytes(h)[k];
    out := buf[..];
  }

  /** The `n` bytes from `at` as a read into an `n`-byte buffer leaves them: zeros past the end of the file. */
  function Padded(data: seq<Byte>, at: nat, n: nat): (r: seq<Byte>)
    ensures |r| == n
    ensures forall k :: 0 <= k < n && at + k < |data| ==> r[k] == data[at + k]
  {
    seq(n, k requires 0 <= k < n => if at + k < |data| then data[at + k] else 0)
  }

  /** The six bytes read first are the magic exactly when the file starts with it: the magic holds no zero byte. */
  lemma {:induction false} PaddedMagic(data: seq<Byte>)
    ensures Padded(data, 0, 6) == Magic <==> |data| >= 6 && data[..6] == Magic
  {
    if |data| < 6 {
      assert Padded(data, 0, 6)[|data|] == 0 != Magic[|data|];
    } else {
      assert Padded(data, 0, 6) == data[..6];
    }
  }

  /** A Java `byte` read as an `int`. */
  function SignedByte(b: Byte): int
  {
    if b >= 0x80 then b - 0x100 else b
  }

  /** Java's `/` on `long`s, which rounds toward zero. */
  function JavaDiv(a: int, b: int): int
    requires b > 0
  {
    if a >= 0 then a / b else -((-a) / b)
  }

  /** The `(int)` cast of a `long`: the low 32 bits as a signed value. */
  function WrapInt32(n: int): (r: int)
    ensures IsInt32(r)
    ensures IsInt32(n) ==> r == n
  {
    (n - Int32Min) % 0x1_0000_0000 + Int32Min
  }

  /**
   * `Header.parse` as written over the file's bytes. With identifiers it
   * moves its 2-byte buffer to position 8, which `ByteBuffer.position`
   * refuses; without them the record count comes from the file size.
   */
  function ParseHeaderAsWritten(data: seq<Byte>): (r: Result<Header>)
    ensures r.Ok? ==> |data| >= 6 && data[..6] == Magic && IDENTIFIER !in r.value.features
    ensures !(|data| >= 6 && data[..6] == Magic) ==> r == Err("IOException")
  {
    PaddedMagic(data);
    if Padded(data, 0, 6) != Magic then Err("IOException")
    else
      var buf := Padded(data, 6, 2);
      var features := FeaturesOf(buf[1]);
      if IDENTIFIER in features then Err("IllegalArgumentException")
      else Ok(Header(SignedByte(buf[0]), WrapInt32(JavaDiv(|data| - HeaderSize(features), RecordSize(features))), features))
  }

  /** `Header.parse` with the record count read from bytes 8 and 9 of the file. */
  function ParseHeader(data: seq<Byte>): (r: Result<Header>)
    ensures r.Ok? <==> |data| >= 6 && data[..6] == Magic
    ensures r.Ok? && IDENTIFIER in r.value.features ==> r.value.numRecords == ReadBE(Padded(data, 8, 2))
  {
    PaddedMagic(data);
    if Padded(data, 0, 6) != Magic then Err("IOException")
    else
      var buf := Padded(data, 6, 2);
      var features := FeaturesOf(buf[1]);
      var numRecords :=
        if IDENTIFIER in features then ReadBE(Padded(data, 8, 2))
        else WrapInt32(JavaDiv(|data| - HeaderSize(features), RecordSize(features)));
      Ok(Header(SignedByte(buf[0]), numRecords, features))
  }

  /** Where the pieces of a compiled header sit. */
  lemma {:induction false} HeaderBytesLayout(h: Header, rest: seq<Byte>)
    ensures var s := HeaderBytes(h) + rest;
      && |HeaderBytes(h)| == HeaderSize(h.features)
      && Padded(s, 0, 6) == Magic && Padded(s, 6, 2) == [Version, FeatureByte(h.features)]
      && (IDENTIFIER in h.features ==> Padded(s, 8, 2) == U16BE(h.numRecords))
  {
  }

  /** Without identifiers, a compiled header parses back, and the record count is the number of whole records after it. */
  lemma {:induction false} ParseCompiledHeaderAsWritten(h: Header, rest: seq<Byte>)
    requires IDENTIFIER !in h.features && |rest| < 0x8000_0000
    ensures ParseHeaderAsWritten(HeaderBytes(h) + rest) == Ok(Header(1, |rest| / RecordSize(h.features), h.features))
  {
    HeaderBytesLayout(h, rest);
    FeatureByteRoundTrip(h.features);
  }

  /** With identifiers, the code as written cannot parse any header it compiled. */
  lemma {:induction false} ParseIdentifierHeaderAsWritten(h: Header, rest: seq<Byte>)
    requires IDENTIFIER in h.features
    ensures ParseHeaderAsWritten(HeaderBytes(h) + rest) == Err("IllegalArgumentException")
  {
    HeaderBytesLayout(h, rest);
    FeatureByteRoundTrip(h.features);
  }

  /** A compiled header with identifiers parses back, its record count as the low 16 bits of the one written. */
  lemma {:induction false} ParseCompiledHeader(h: Header, rest: seq<Byte>)
    requires IDENTIFIER in h.features
    ensures ParseHeader(HeaderBytes(h) + rest) == Ok(Header(1, h.numRecords % 0x1_0000, h.features))
  {
    HeaderBytesLayout(h, rest);
    FeatureByteRoundTrip(h.features);
    ReadU16BE(h.numRecords);
  }

  /** The features an index must have to be opened. */
  const RequiredFeatures: set<Feature> := {LENGTH, IDENTIFIER, DIMENSION}

  /** `new PageIndex(path)` as written, over the file's bytes. */
  function OpenAsWritten(data: seq<Byte>): (r: Result<Header>)
    ensures r.Err?
  {
    match ParseHeaderAsWritten(data)
    case Err(e) => Err(e)
    case Ok(h) => if RequiredFeatures <= h.features then Ok(h) else Err("IllegalArgumentException")
  }

  /** `new PageIndex(path)` with the corrected header parsing: every index with all three features opens. */
  function Open(data: seq<Byte>): (r: Result<Header>)
    ensures r.Ok? <==> ParseHeader(data).Ok? && RequiredFeatures <= ParseHeader(data).value.features
    ensures r.Ok? ==> r == ParseHeader(data)
  {
    match ParseHeader(data)
    case Err(e) => Err(e)
    case Ok(h) => if RequiredFeatures <= h.features then Ok(h) else Err("IllegalArgumentException")
  }

  // `locatePage`: the binary search over the page records.

  /** A heap `ByteBuffer`: its bytes (as many as its capacity), its position and its limit. */
  datatype ByteBuf = ByteBuf(content: seq<Byte>, position: nat, limit: nat)

  predicate ValidBuf(b: ByteBuf)
  {
    b.position <= b.limit <= |b.content|
  }

  /** `ByteBuffer.allocate(8)`: eight zero bytes, position 0, limit 8. */
  const FreshBuf: ByteBuf := ByteBuf([0, 0, 0, 0, 0, 0, 0, 0], 0, 8)

  /**
   * `FileChannel.read(buf, at)` on a file holding `data`: as many bytes as
   * remain both in the buffer and in the file from `at` on go to the
   * buffer's position, which moves past them. A buffer with nothing
   * remaining reads nothing.
   */
  function ChannelRead(data: seq<Byte>, b: ByteBuf, at: nat): (r: ByteBuf)
    requires ValidBuf(b)
    ensures ValidBuf(r) && |r.content| == |b.content| && r.limit == b.limit && r.position >= b.position
    ensures b.position == b.limit ==> r == b
  {
    if at >= |data| then b
    else
      var n := Min(b.limit - b.position, |data| - at);
      ByteBuf(b.content[..b.position] + data[at..at + n] + b.content[b.position + n..], b.position + n, b.limit)
  }

  /** `flip`: the limit moves to the position, and the position to 0. */
  function Flip(b: ByteBuf): (r: ByteBuf)
    requires ValidBuf(b)
    ensures ValidBuf(r)
  {
    ByteBuf(b.content, 0, b.position)
  }

  /** `clear`: position 0 and limit at the capacity; the bytes stay. */
  function Clear(b: ByteBuf): (r: ByteBuf)
    ensures ValidBuf(r)
  {
    ByteBuf(b.content, 0, |b.content|)
  }

  /** `getInt`: four bytes at the position, big-endian, unsigned here; fewer than four before the limit underflow. */
  function GetInt(b: ByteBuf): (r: Result<(nat, ByteBuf)>)
    requires ValidBuf(b)
    ensures r.Ok? <==> b.position + 4 <= b.limit
    ensures r.Ok? ==> ValidBuf(r.value.1) && r.value.1 == b.(position := b.position + 4)
  {
    if b.position + 4 > b.limit then Err("BufferUnderflowException")
    else Ok((ReadBE(b.content[b.position..b.position + 4]), b.(position := b.position + 4)))
  }

  /** An unsigned 32-bit value read as a Java `int`. */
  function SignedInt32(v: nat): int
  {
    if v >= 0x8000_0000 then v - 0x1_0000_0000 else v
  }

  /** Where one probe of the binary search leaves it: finished with an answer, or a narrower range and the buffer as the probe left it. */
  datatype Probe = Done(answer: Result<Option<int>>) | Next(left: int, right: int, buf: ByteBuf)

  /**
   * One probe of `locatePage` over `left`..`right` (`left < right`), with
   * the buffer as the previous probe left it: record `middle` is read into
   * the buffer, which is flipped; the start is read unsigned and the length
   * as a signed `int`. As written the buffer is never cleared (`clearing`
   * false); with `clearing`, the probe starts from a cleared buffer.
   */
  function LocateStep(data: seq<Byte>, h: Header, ocrOffset: int, left: nat, right: int, buf: ByteBuf, clearing: bool): (r: Probe)
    requires ValidBuf(buf) && left < right
    ensures r.Next? ==> ValidBuf(r.buf) && left <= r.left && r.right <= right && r.right - r.left < right - left
  {
    var middle := (left + right) / 2;
    var b := if clearing then Clear(buf) else buf;
    var b := Flip(ChannelRead(data, b, HeaderSize(h.features) + middle * RecordSize(h.features)));
    var start := GetInt(b);
    if start.Err? then Done(Err(start.error))
    else
      var pageStart := start.value.0;
      if ocrOffset < pageStart then Next(left, middle - 1, start.value.1)
      else
        var length := GetInt(start.value.1);
        if length.Err? then Done(Err(length.error))
        else if ocrOffset >= pageStart + SignedInt32(length.value.0) then Next(middle + 1, right, length.value.1)
        else Done(Ok(Some(pageStart)))
  }

  /** The binary search of `locatePage` from `left`..`right`, probe after probe; it stops without an answer once `left` reaches `right`. */
  function LocateFrom(data: seq<Byte>, h: Header, ocrOffset: int, left: nat, right: int, buf: ByteBuf, clearing: bool): (r: Result<Option<int>>)
    requires ValidBuf(buf)
    decreases right - left
  {
    if left >= right then Ok(None)
    else
      match LocateStep(data, h, ocrOffset, left, right, buf, clearing)
      case Done(answer) => answer
      case Next(l, r, b) => LocateFrom(data, h, ocrOffset, l, r, b, clearing)
  }

  /**
   * `locatePage` as written, over the index file's bytes, `h` being the
   * header of an opened index (which has the length feature, so the buffer
   * holds eight bytes). The answer is the start offset the code hands on
   * to `parsePage`. The buffer is allocated once and only flipped: after a
   * probe has read both ints its position is at its limit, so the next read
   * adds nothing and the probe sees the previous record again; after a
   * probe that read only the start, the next one reads four new bytes
   * behind the four old ones.
   */
  method LocatePageAsWritten(data: seq<Byte>, h: Header, ocrOffset: int) returns (r: Result<Option<int>>)
    requires LENGTH in h.features
    ensures r == if h.numRecords == 0 then Ok(None) else LocateFrom(data, h, ocrOffset, 0, h.numRecords - 1, FreshBuf, false)
  {
    if h.numRecords == 0 {
      return Ok(None);
    }
    var buf := FreshBuf;
    var left: nat, right := 0, h.numRecords - 1;
    while left < right
      invariant ValidBuf(buf)
      invariant LocateFrom(data, h, ocrOffset, left, right, buf, false) == LocateFrom(data, h, ocrOffset, 0, h.numRecords - 1, FreshBuf, false)
      decreases right - left
    {
      var probe := LocateStep(data, h, ocrOffset, left, right, buf, false);
      if probe.Done? {
        return probe.answer;
      }
      left, right, buf := probe.left, probe.right, probe.buf;
    }
    return Ok(None);
  }

  /**
   * From a cleared buffer, a probe of a record that lies in the file reads
   * that record's eight bytes: this is the probe the corrected `LocatePage`
   * below is given.
   */
  lemma {:induction false} ClearedProbeReadsRecord(data: seq<Byte>, buf: ByteBuf, at: nat)
    requires |buf.content| == 8 && at + 8 <= |data|
    ensures Flip(ChannelRead(data, Clear(buf), at)) == ByteBuf(data[at..at + 8], 0, 8)
  {
    assert Clear(buf).content[8..] == [];
  }

  /** A probe of a spent buffer, one whose position is at its limit, reads the bytes it already holds. */
  lemma {:induction false} SpentProbeRereads(data: seq<Byte>, buf: ByteBuf, at: nat)
    requires ValidBuf(buf) && buf.position == buf.limit
    ensures Flip(ChannelRead(data, buf, at)) == ByteBuf(buf.content, 0, buf.limit)
  {
  }

  /** One probe that reads an eight-byte record holding `start` and `length`, and what the search does next. */
  lemma {:induction false} ProbeOfRecord(data: seq<Byte>, h: Header, ocrOffset: int, left: nat, right: int, buf: ByteBuf, clearing: bool, record: seq<Byte>)
    requires ValidBuf(buf) && left < right && |record| == 8
    requires Flip(ChannelRead(data, if clearing then Clear(buf) else buf, HeaderSize(h.features) + (left + right) / 2 * RecordSize(h.features)))
      == ByteBuf(record, 0, 8)
    ensures var start, length := ReadBE(record[..4]), ReadBE(record[4..]);
      LocateStep(data, h, ocrOffset, left, right, buf, clearing)
      == if ocrOffset < start then Next(left, (left + right) / 2 - 1, ByteBuf(record, 4, 8))
        else if ocrOffset >= start + SignedInt32(length) then Next((left + right) / 2 + 1, right, ByteBuf(record, 8, 8))
        else Done(Ok(Some(start)))
  {
    assert record[0..4] == record[..4];
    assert record[4..8] == record[4..];
  }

  /** A record of a page that starts at OCR offset `hi * 0x100 + lo` and is 100 bytes long. */
  function SampleRecord(hi: Byte, lo: Byte): (r: seq<Byte>)
    ensures |r| == 16
  {
    [0, 0, hi, lo, 0, 0, 0, 100] + seq(8, _ => 0)
  }

  /** The header of an index of five records with all three features. */
  const FiveHead: seq<Byte> := Magic + [Version, 0x07, 0, 5]

  /** An index of five pages of 100 bytes each, at OCR offsets 0, 100, 200, 300 and 400. */
  const FivePages: seq<Byte> :=
    (FiveHead + SampleRecord(0, 0) + SampleRecord(0, 100)) + SampleRecord(0, 200) + (SampleRecord(1, 44) + SampleRecord(1, 144))

  /** The eight bytes at `|a|` in `a + b + c` are the first eight of `b`. */
  lemma {:induction false} EightAt(a: seq<Byte>, b: seq<Byte>, c: seq<Byte>)
    requires |b| >= 8
    ensures (a + b + c)[|a|..|a| + 8] == b[..8]
  {
    assert (a + b + c)[|a|..|a| + 8] == (a + b + c)[|a|..][..8];
    assert (a + b + c)[|a|..] == b + c;
  }

  /** A record's start and length, read big-endian. */
  lemma {:induction false} SampleRecordRead(hi: Byte, lo: Byte)
    ensures ReadBE(SampleRecord(hi, lo)[..4]) == hi * 0x100 + lo
    ensures ReadBE(SampleRecord(hi, lo)[4..8]) == 100
  {
    assert SampleRecord(hi, lo)[..4] == [0, 0, hi, lo];
    assert SampleRecord(hi, lo)[4..8] == [0, 0, 0, 100];
    ReadBE4(0, 0, hi, lo);
    ReadBE4(0, 0, 0, 100);
  }

  /** The five-page index has a well-formed header. */
  lemma {:induction false} FivePagesHeader()
    ensures ParseHeader(FivePages) == Ok(Header(1, 5, RequiredFeatures))
  {
    assert FivePages[..10] == FiveHead;
    assert FeaturesOf(0x07) == RequiredFeatures;
    assert Padded(FivePages, 0, 6) == Magic;
    assert Padded(FivePages, 6, 2) == [Version, 0x07];
    assert Padded(FivePages, 8, 2) == [0, 5];
    ReadBE2(0, 5);
  }

  /**
   * A search for OCR offset 350 over five records, in an index whose
   * record 2 covers 200..300 and whose record 3 covers 300..400: the first
   * probe, record 2, reads both ints and sends the search right; the
   * second probe, record 3, reads nothing into the spent buffer and sees
   * record 2 again, so the search moves past record 3, whose page holds
   * the offset, and finds nothing.
   */
  lemma {:induction false} StaleSearch(data: seq<Byte>, r2: seq<Byte>)
    requires |data| >= 66 && |r2| == 8 && data[42..50] == r2
    requires ReadBE(r2[..4]) == 200 && ReadBE(r2[4..]) == 100
    ensures LocateFrom(data, Header(1, 5, RequiredFeatures), 350, 0, 4, FreshBuf, false) == Ok(None)
  {
    var h := Header(1, 5, RequiredFeatures);
    assert HeaderSize(h.features) == 10 && RecordSize(h.features) == 16;
    assert HeaderSize(h.features) + (0 + 4) / 2 * RecordSize(h.features) == 42;
    assert HeaderSize(h.features) + (3 + 4) / 2 * RecordSize(h.features) == 58;
    ClearedProbeReadsRecord(data, FreshBuf, 42);
    assert Clear(FreshBuf) == FreshBuf;
    ProbeOfRecord(data, h, 350, 0, 4, FreshBuf, false, r2);
    var spent := ByteBuf(r2, 8, 8);
    assert LocateFrom(data, h, 350, 0, 4, FreshBuf, false) == LocateFrom(data, h, 350, 3, 4, spent, false);
    SpentProbeRereads(data, spent, 58);
    ProbeOfRecord(data, h, 350, 3, 4, spent, false, r2);
  }

  /** The same search with the buffer cleared before each probe reads record 3 on the second probe and finds page 3. */
  lemma {:induction false} ClearedSearch(data: seq<Byte>, r2: seq<Byte>, r3: seq<Byte>)
    requires |data| >= 66 && |r2| == 8 && |r3| == 8 && data[42..50] == r2 && data[58..66] == r3
    requires ReadBE(r2[..4]) == 200 && ReadBE(r2[4..]) == 100 && ReadBE(r3[..4]) == 300 && ReadBE(r3[4..]) == 100
    ensures LocateFrom(data, Header(1, 5, RequiredFeatures), 350, 0, 4, FreshBuf, true) == Ok(Some(300))
  {
    var h := Header(1, 5, RequiredFeatures);
    assert HeaderSize(h.features) == 10 && RecordSize(h.features) == 16;
    assert HeaderSize(h.features) + (0 + 4) / 2 * RecordSize(h.features) == 42;
    assert HeaderSize(h.features) + (3 + 4) / 2 * RecordSize(h.features) == 58;
    ClearedProbeReadsRecord(data, FreshBuf, 42);
    assert Clear(FreshBuf) == FreshBuf;
    ProbeOfRecord(data, h, 350, 0, 4, FreshBuf, true, r2);
    var spent := ByteBuf(r2, 8, 8);
    assert LocateFrom(data, h, 350, 0, 4, FreshBuf, true) == LocateFrom(data, h, 350, 3, 4, spent, true);
    ClearedProbeReadsRecord(data, spent, 58);
    ProbeOfRecord(data, h, 350, 3, 4, spent, true, r3);
  }

  /**
   * `locatePage` as written misses a page of the five-page index (offset
   * 350 lies in page 3, which starts at 300), and the same search with a
   * cleared buffer per probe finds it.
   */
  lemma {:induction false} StaleBufferMissesPage()
    ensures LocateFrom(FivePages, Header(1, 5, RequiredFeatures), 350, 0, 4, FreshBuf, false) == Ok(None)
    ensures LocateFrom(FivePages, Header(1, 5, RequiredFeatures), 350, 0, 4, FreshBuf, true) == Ok(Some(300))
  {
    var front := FiveHead + SampleRecord(0, 0) + SampleRecord(0, 100);
    assert |front| == 42 && |FivePages| == 90;
    EightAt(front, SampleRecord(0, 200), SampleRecord(1, 44) + SampleRecord(1, 144));
    EightAt(front + SampleRecord(0, 200), SampleRecord(1, 44), SampleRecord(1, 144));
    assert FivePages == (front + SampleRecord(0, 200)) + SampleRecord(1, 44) + SampleRecord(1, 144);
    var r2, r3 := SampleRecord(0, 200)[..8], SampleRecord(1, 44)[..8];
    SampleRecordRead(0, 200);
    SampleRecordRead(1, 44);
    assert r2[..4] == SampleRecord(0, 200)[..4] && r2[4..] == SampleRecord(0, 200)[4..8];
    assert r3[..4] == SampleRecord(1, 44)[..4] && r3[4..] == SampleRecord(1, 44)[4..8];
    StaleSearch(FivePages, r2);
    ClearedSearch(FivePages, r2, r3);
  }

  /** Four bytes read big-endian. */
  lemma {:induction false} ReadBE4(a: Byte, b: Byte, c: Byte, d: Byte)
    ensures ReadBE([a, b, c, d]) == ((a * 0x100 + b) * 0x100 + c) * 0x100 + d
  {
    assert [a, b, c, d][..3] == [a, b, c];
    assert [a, b, c][..2] == [a, b];
    ReadBE2(a, b);
  }

  /** The records as the probe reads them lie in order, each ending before the next starts. */
  ghost predicate Ordered(numRecords: int, probe: int -> (int, int))
  {
    forall i, j :: 0 <= i < j < numRecords ==> probe(i).0 <= probe(i).1 <= probe(j).0
  }

  /** Record `k` holds the offset. */
  ghost predicate Holds(probe: int -> (int, int), k: int, ocrOffset: int)
  {
    probe(k).0 <= ocrOffset < probe(k).1
  }

  /**
   * `locatePage` with the last candidate checked too, answering the index
   * of the record found so that the record itself, not the page's start in
   * the OCR file, can be read next (`LocateRecord` does so). `probe(m)` is
   * what a probe of record `m` reads from a buffer cleared before it (see
   * `ClearedProbeReadsRecord`):
   * the record's start and its end. On ordered records it finds the record
   * that holds the offset whenever there is one.
   */
  method LocatePage(numRecords: int, ocrOffset: int, probe: int -> (int, int)) returns (r: Option<int>)
    ensures numRecords <= 0 ==> r == None
    ensures r.Some? ==> 0 <= r.value < numRecords && Holds(probe, r.value, ocrOffset)
    ensures Ordered(numRecords, probe) ==> forall k :: 0 <= k < numRecords && Holds(probe, k, ocrOffset) ==> r == Some(k)
  {
    if numRecords <= 0 {
      return None;
    }
    var left, right := 0, numRecords - 1;
    while left <= right
      invariant 0 <= left && right <= numRecords - 1
      invariant Ordered(numRecords, probe) ==>
        forall k :: 0 <= k < numRecords && Holds(probe, k, ocrOffset) ==> left <= k <= right
      decreases right - left
    {
      var middle := (left + right) / 2;
      var (pageStart, pageEnd) := probe(middle);
      if ocrOffset < pageStart {
        right := middle - 1;
        continue;
      }
      if ocrOffset >= pageEnd {
        left := middle + 1;
      } else {
        if Ordered(numRecords, probe) {
          forall k | 0 <= k < numRecords && Holds(probe, k, ocrOffset)
            ensures k == middle
          {
          }
        }
        return Some(middle);
      }
    }
    return None;
  }

  // `writeIndex`: the header, the record table and the identifier tail.

  /**
   * A `PageRecord`: identifier, start offset of the page's markup, offset
   * just after it, and size when known. Its constructor refuses a null
   * identifier, so every record has one.
   */
  datatype PageRecord = PageRecord(id: string, startOffset: int, endOffset: int, dimensions: Option<Dimension>)

  /** `getBytes(UTF_8)`: a Dafny string holds no lone surrogates, so every character is encoded as itself. */
  function Utf8String(s: string): (r: seq<Byte>)
    ensures '\0' !in s ==> 0 !in r
  {
    if s == [] then [] else Utf8(s[0] as int) + Utf8String(s[1..])
  }

  predicate AnyDims(pages: seq<PageRecord>)
  {
    exists i :: 0 <= i < |pages| && pages[i].dimensions.Some?
  }

  predicate AllDims(pages: seq<PageRecord>)
  {
    forall i :: 0 <= i < |pages| ==> pages[i].dimensions.Some?
  }

  /** The features `writeIndex` chooses for a non-empty list: length, identifiers, and sizes when any page has one. */
  function WrittenFeatures(pages: seq<PageRecord>): set<Feature>
  {
    {LENGTH, IDENTIFIER} + (if AnyDims(pages) then {DIMENSION} else {})
  }

  /** The tail entry of a page: its identifier's bytes and a NUL. */
  function IdEntry(p: PageRecord): seq<Byte>
  {
    Utf8String(p.id) + [0]
  }

  /** The identifier tail of the pages, in page order. */
  function IdTail(pages: seq<PageRecord>): seq<Byte>
  {
    if pages == [] then [] else IdTail(pages[..|pages| - 1]) + IdEntry(pages[|pages| - 1])
  }

  /**
   * Width and height of a page. A page without size never gets here:
   * `writeIndex` throws on it first, so its four bytes are left zero.
   */
  function SizeBytes(d: Option<Dimension>): (r: seq<Byte>)
    ensures |r| == 4
  {
    match d
    case Some(dims) => U16BE(dims.width) + U16BE(dims.height)
    case None => [0, 0, 0, 0]
  }

  /** One record: start, length, identifier pointer, and width and height when sizes are stored. */
  function RecordBytes(p: PageRecord, idPtr: int, hasDims: bool): (r: seq<Byte>)
    ensures |r| == if hasDims then 16 else 12
  {
    U32BE(p.startOffset) + U32BE(p.endOffset - p.startOffset) + U32BE(idPtr) + (if hasDims then SizeBytes(p.dimensions) else [])
  }

  /** Where each page's identifier entry starts: right after the entries of the pages before it. */
  function IdPointers(pages: seq<PageRecord>, tailStart: int): (r: seq<int>)
    ensures |r| == |pages|
  {
    if pages == [] then []
    else
      var init := pages[..|pages| - 1];
      IdPointers(init, tailStart) + [tailStart + |IdTail(init)|]
  }

  /** The record table: one record per page, with its identifier pointer. */
  function Table(pages: seq<PageRecord>, ptrs: seq<int>, hasDims: bool): seq<Byte>
    requires |ptrs| == |pages|
  {
    if pages == [] then []
    else Table(pages[..|pages| - 1], ptrs[..|ptrs| - 1], hasDims) + RecordBytes(pages[|pages| - 1], ptrs[|ptrs| - 1], hasDims)
  }

  /** The bytes `writeIndex` writes for the pages, or the exception it throws. */
  function IndexBytes(pages: seq<PageRecord>): Result<seq<Byte>>
  {
    if pages == [] then Ok([])
    else if AnyDims(pages) && !AllDims(pages) then Err("NullPointerException")
    else Ok(IndexLayout(pages, WrittenFeatures(pages)))
  }

  /** The header for the features, the table of records, then the identifier tail. */
  function IndexLayout(pages: seq<PageRecord>, features: set<Feature>): seq<Byte>
  {
    HeaderBytes(Header(1, |pages|, features))
      + Table(pages, IdPointers(pages, HeaderSize(features) + |pages| * RecordSize(features)), DIMENSION in features)
      + IdTail(pages)
  }

  /** Writes `bytes` into `buf` from `at` on, as a run of `put` calls does. */
  method Put(buf: array<Byte>, at: nat, bytes: seq<Byte>)
    requires at + |bytes| <= buf.Length
    modifies buf
    ensures buf[..] == old(buf[..at]) + bytes + old(buf[at + |bytes|..])
  {
    forall k | 0 <= k < |bytes| {
      buf[at + k] := bytes[k];
    }
  }

  /** One more page adds its record to the table, its entry to the tail and its pointer to the pointers. */
  lemma {:induction false} TableSnoc(pages: seq<PageRecord>, idx: nat, next: nat, tailStart: int, ptr: int, hasDims: bool)
    requires idx < |pages| && next == idx + 1 && ptr == tailStart + |IdTail(pages[..idx])|
    ensures IdPointers(pages[..next], tailStart) == IdPointers(pages[..idx], tailStart) + [ptr]
    ensures Table(pages[..next], IdPointers(pages[..next], tailStart), hasDims)
      == Table(pages[..idx], IdPointers(pages[..idx], tailStart), hasDims) + RecordBytes(pages[idx], ptr, hasDims)
    ensures IdTail(pages[..next]) == IdTail(pages[..idx]) + IdEntry(pages[idx])
  {
    assert pages[..next][..idx] == pages[..idx];
    var ptrs := IdPointers(pages[..idx], tailStart);
    assert (ptrs + [ptr])[..idx] == ptrs;
  }

  /** Writing `bytes` at `at` leaves a buffer whose first `at + |bytes|` bytes are the old prefix and `bytes`. */
  lemma {:induction false} PutExtends<T>(b: seq<T>, b': seq<T>, at: nat, bytes: seq<T>, end: nat)
    requires end == at + |bytes| <= |b| && b' == b[..at] + bytes + b[end..]
    ensures |b'| == |b| && b'[..end] == b[..at] + bytes
  {
    assert b'[..end] == b[..at] + bytes;
  }

  /** The `put` calls for one page, its identifier starting at `idOffset`. */
  method AssembleRecord(page: PageRecord, idOffset: int, hasDims: bool) returns (record: seq<Byte>)
    requires hasDims ==> page.dimensions.Some?
    ensures record == RecordBytes(page, idOffset, hasDims)
  {
    record := U32BE(page.startOffset) + U32BE(page.endOffset - page.startOffset);
    record := record + U32BE(idOffset);
    if hasDims {
      record := record + U16BE(page.dimensions.value.width) + U16BE(page.dimensions.value.height);
      ConcatAssoc(U32BE(page.startOffset) + U32BE(page.endOffset - page.startOffset) + U32BE(idOffset),
        U16BE(page.dimensions.value.width), U16BE(page.dimensions.value.height));
    }
  }

  /** The first `n` pages all have a size. */
  predicate SizedUpTo(pages: seq<PageRecord>, n: nat)
    requires n <= |pages|
  {
    forall k :: 0 <= k < n ==> pages[k].dimensions.Some?
  }

  /** A sized page extends a sized prefix. */
  lemma {:induction false} SizedStep(pages: seq<PageRecord>, n: nat)
    requires n < |pages| && SizedUpTo(pages, n) && pages[n].dimensions.Some?
    ensures SizedUpTo(pages, n + 1)
  {
  }

  /** The slot of record `idx` is followed by that of record `idx + 1`, and both fit in `n` slots. */
  lemma {:induction false} NextSlot(idx: nat, n: nat, size: nat)
    requires idx < n
    ensures idx * size + size == (idx + 1) * size <= n * size
  {
  }

  /**
   * One turn of the loop of `writeIndex`: puts the record of page `idx` at
   * `outOff`, just after the records before it, and appends its identifier
   * and a NUL to the tail.
   */
  method PutRecord(buf: array<Byte>, pages: seq<PageRecord>, idx: nat, outOff: nat, recordSize: nat, hasDims: bool,
                   compiled: seq<Byte>, idOffset: int, idOutput: seq<Byte>)
    returns (idx': nat, outOff': nat, idOffset': int, idOutput': seq<Byte>)
    requires idx < |pages| && (hasDims ==> pages[idx].dimensions.Some?)
    requires recordSize == if hasDims then 16 else 12
    requires idOutput == IdTail(pages[..idx]) && idOffset == buf.Length + |idOutput|
    requires outOff + recordSize <= buf.Length
    requires buf[..outOff] == compiled + Table(pages[..idx], IdPointers(pages[..idx], buf.Length), hasDims)
    modifies buf
    ensures idx' == idx + 1 && outOff' == outOff + recordSize
    ensures buf[..outOff'] == compiled + Table(pages[..idx'], IdPointers(pages[..idx'], buf.Length), hasDims)
    ensures idOutput' == IdTail(pages[..idx']) && idOffset' == buf.Length + |idOutput'|
  {
    idx', outOff' := idx + 1, outOff + recordSize;
    var record := AssembleRecord(pages[idx], idOffset, hasDims);
    ghost var table := Table(pages[..idx], IdPointers(pages[..idx], buf.Length), hasDims);
    ghost var before := buf[..];
    assert before[..outOff] == compiled + table;
    Put(buf, outOff, record);
    PutExtends(before, buf[..], outOff, record, outOff');
    TableSnoc(pages, idx, idx', buf.Length, idOffset, hasDims);
    ConcatAssoc(compiled, table, record);
    var idBytes := Utf8String(pages[idx].id);
    idOutput' := idOutput + idBytes + [0];
    idOffset' := idOffset + |idBytes| + 1;
    ConcatAssoc<Byte>(idOutput, idBytes, [0]);
    assert idBytes + [0] == IdEntry(pages[idx]);
  }

  /**
   * The loop of `writeIndex`: the record of page `idx` goes to
   * `headerSize + idx * recordSize`, its identifier to the tail. The
   * result is the whole buffer followed by the tail.
   */
  method WriteRecords(buf: array<Byte>, pages: seq<PageRecord>, headerSize: nat, recordSize: nat, hasDims: bool,
                      compiled: seq<Byte>) returns (r: Result<seq<Byte>>)
    requires recordSize == if hasDims then 16 else 12
    requires buf.Length == headerSize + |pages| * recordSize
    requires |compiled| == headerSize && buf[..headerSize] == compiled
    modifies buf
    ensures r.Err? <==> hasDims && !AllDims(pages)
    ensures r.Err? ==> r.error == "NullPointerException"
    ensures r.Ok? ==> r.value == compiled + Table(pages, IdPointers(pages, buf.Length), hasDims) + IdTail(pages)
  {
    var idOffset := buf.Length;
    var idOutput: seq<Byte> := [];
    var idx, outOff := 0, headerSize;
    while idx < |pages|
      invariant 0 <= idx <= |pages| && outOff == headerSize + idx * recordSize
      invariant hasDims ==> SizedUpTo(pages, idx)
      invariant idOutput == IdTail(pages[..idx]) && idOffset == buf.Length + |idOutput|
      invariant buf[..outOff] == compiled + Table(pages[..idx], IdPointers(pages[..idx], buf.Length), hasDims)
    {
      var page := pages[idx];
      if hasDims && page.dimensions.None? {
        return Err("NullPointerException");
      }
      NextSlot(idx, |pages|, recordSize);
      if hasDims {
        SizedStep(pages, idx);
      }
      idx, outOff, idOffset, idOutput := PutRecord(buf, pages, idx, outOff, recordSize, hasDims, compiled, idOffset, idOutput);
    }
    assert pages[..idx] == pages;
    assert buf[..] == buf[..outOff];
    r := Ok(buf[..] + idOutput);
  }

  /**
   * `writeIndex`: nothing for no pages; otherwise the header, one record
   * per page, and the identifiers. A page without size in a list where
   * another has one makes it throw.
   */
  method WriteIndex(pages: seq<PageRecord>) returns (r: Result<seq<Byte>>)
    ensures r == IndexBytes(pages)
  {
    var numPages := |pages|;
    var hasDims := AnyDims(pages);
    if numPages < 1 {
      return Ok([]);
    }
    var features := WrittenFeatures(pages);
    var header := Header(1, numPages, features);
    var headerSize, recordSize := HeaderSize(features), RecordSize(features);
    assert recordSize == if hasDims then 16 else 12;
    var buf := new Byte[headerSize + numPages * recordSize](_ => 0);
    var compiled := Compile(header);
    Put(buf, 0, compiled);
    assert buf[..headerSize] == compiled;
    r := WriteRecords(buf, pages, headerSize, recordSize, hasDims, compiled);
  }

  // Reading the index back: `new PageIndex(path)` and `parsePage`.

  /** The fields `parsePage` reads from a record; the identifier stays a pointer into the tail. */
  datatype RecordFields = RecordFields(startOffset: int, endOffset: int, idPtr: int, width: int, height: int)

  /** A record of the required features: unsigned start, length, identifier pointer, width and height. */
  function ReadRecord(rec: seq<Byte>): RecordFields
    requires |rec| == 16
  {
    var start := ReadBE(rec[0..4]);
    RecordFields(start, start + ReadBE(rec[4..8]), ReadBE(rec[8..12]), ReadBE(rec[12..14]), ReadBE(rec[14..16]))
  }

  /**
   * `parsePage` as written, `h` being the header of an opened index. Its
   * alignment guard reads `pageOffset - (headerSize % recordSize) != 0`, so
   * only offset 10 gets through.
   */
  function ParsePageAsWritten(data: seq<Byte>, h: Header, pageOffset: int): (r: Result<RecordFields>)
    requires RequiredFeatures <= h.features
    ensures r.Ok? <==> pageOffset == 10
  {
    assert HeaderSize(h.features) == 10 && RecordSize(h.features) == 16;
    if pageOffset - HeaderSize(h.features) % RecordSize(h.features) != 0 then Err("IllegalArgumentException")
    else Ok(ReadRecord(Padded(data, pageOffset, RecordSize(h.features))))
  }

  /**
   * `parsePage` with the guard it means, `(pageOffset - headerSize) %
   * recordSize != 0`: every record's offset passes. A negative offset is
   * refused by the channel's read.
   */
  function ParsePage(data: seq<Byte>, h: Header, pageOffset: int): (r: Result<RecordFields>)
    requires RequiredFeatures <= h.features
    ensures r.Ok? <==> pageOffset >= 0 && (pageOffset - 10) % 16 == 0
    ensures r.Ok? ==> r.value == ReadRecord(Padded(data, pageOffset, 16))
  {
    assert HeaderSize(h.features) == 10 && RecordSize(h.features) == 16;
    if (pageOffset - HeaderSize(h.features)) % RecordSize(h.features) != 0 || pageOffset < 0 then
      Err("IllegalArgumentException")
    else Ok(ReadRecord(Padded(data, pageOffset, RecordSize(h.features))))
  }

  /** The guard as written turns away the record of every page but the first. */
  lemma {:induction false} ParsePageRejectsLaterRecords(data: seq<Byte>, h: Header, idx: int)
    requires RequiredFeatures <= h.features && idx >= 1
    ensures ParsePageAsWritten(data, h, 10 + idx * 16) == Err("IllegalArgumentException")
    ensures ParsePage(data, h, 10 + idx * 16).Ok?
  {
  }

  /** A written record reads back as its page's offsets modulo 2^32 and its size modulo 2^16. */
  lemma {:induction false} ReadRecordBytes(p: PageRecord, idPtr: int)
    requires p.dimensions.Some?
    ensures var start := p.startOffset % 0x1_0000_0000;
      ReadRecord(RecordBytes(p, idPtr, true)) == RecordFields(start, start + (p.endOffset - p.startOffset) % 0x1_0000_0000,
        idPtr % 0x1_0000_0000, p.dimensions.value.width % 0x1_0000, p.dimensions.value.height % 0x1_0000)
  {
    var d := p.dimensions.value;
    var a, b, c := U32BE(p.startOffset), U32BE(p.endOffset - p.startOffset), U32BE(idPtr);
    var w, h := U16BE(d.width), U16BE(d.height);
    var rec := RecordBytes(p, idPtr, true);
    assert rec == a + b + c + (w + h);
    assert rec[0..4] == a && rec[4..8] == b && rec[8..12] == c && rec[12..14] == w && rec[14..16] == h;
    ReadU32BE(p.startOffset);
    ReadU32BE(p.endOffset - p.startOffset);
    ReadU32BE(idPtr);
    ReadU16BE(d.width);
    ReadU16BE(d.height);
  }

  /** With sizes, the table holds one record of 16 bytes per page. */
  lemma {:induction false} TableLength(pages: seq<PageRecord>, ptrs: seq<int>)
    requires |ptrs| == |pages|
    ensures |Table(pages, ptrs, true)| == |pages| * 16
    decreases |pages|
  {
    if pages != [] {
      TableLength(pages[..|pages| - 1], ptrs[..|ptrs| - 1]);
    }
  }

  /** A slice within the first part of a concatenation. */
  lemma {:induction false} SliceOfAppendLeft<T>(t: seq<T>, last: seq<T>, lo: nat, hi: nat)
    requires lo <= hi <= |t|
    ensures (t + last)[lo..hi] == t[lo..hi]
  {
  }

  /** The second part of a concatenation, sliced back out. */
  lemma {:induction false} SliceOfAppendRight<T>(t: seq<T>, last: seq<T>)
    ensures (t + last)[|t|..|t| + |last|] == last
  {
  }

  /** Record `i` of a table with sizes sits at `i * 16` and carries pointer `i`. */
  lemma {:induction false} TableRecordAt(pages: seq<PageRecord>, ptrs: seq<int>, i: nat)
    requires |ptrs| == |pages| && i < |pages|
    ensures i * 16 + 16 <= |Table(pages, ptrs, true)|
    ensures Table(pages, ptrs, true)[i * 16..i * 16 + 16] == RecordBytes(pages[i], ptrs[i], true)
    decreases |pages|
  {
    var init, initPtrs := pages[..|pages| - 1], ptrs[..|ptrs| - 1];
    var t := Table(init, initPtrs, true);
    var last := RecordBytes(pages[|pages| - 1], ptrs[|ptrs| - 1], true);
    assert Table(pages, ptrs, true) == t + last;
    TableLength(init, initPtrs);
    if i == |pages| - 1 {
      SliceOfAppendRight(t, last);
    } else {
      TableRecordAt(init, initPtrs, i);
      SliceOfAppendLeft(t, last, i * 16, i * 16 + 16);
    }
  }

  /** Pointer `i` points past the tail entries of the pages before page `i`. */
  lemma {:induction false} IdPointerAt(pages: seq<PageRecord>, tailStart: int, i: nat)
    requires i < |pages|
    ensures IdPointers(pages, tailStart)[i] == tailStart + |IdTail(pages[..i])|
    decreases |pages|
  {
    var init := pages[..|pages| - 1];
    if i == |pages| - 1 {
      assert pages[..i] == init;
    } else {
      IdPointerAt(init, tailStart, i);
      assert init[..i] == pages[..i];
    }
  }

  /** The tail entry of page `i` sits right after the entries of the pages before it. */
  lemma {:induction false} IdTailEntryAt(pages: seq<PageRecord>, i: nat)
    requires i < |pages|
    ensures var off := |IdTail(pages[..i])|;
      && off + |IdEntry(pages[i])| <= |IdTail(pages)|
      && IdTail(pages)[off..off + |IdEntry(pages[i])|] == IdEntry(pages[i])
  {
    var front := pages[..i + 1];
    assert front[..i] == pages[..i] && front[i] == pages[i];
    var t, e := IdTail(pages[..i]), IdEntry(pages[i]);
    assert IdTail(front) == t + e;
    IdTailPrefix(pages, i + 1);
    var whole := IdTail(pages);
    assert whole[..|t + e|] == t + e;
    assert whole[|t|..|t| + |e|] == (t + e)[|t|..|t| + |e|];
    SliceOfAppendRight(t, e);
  }

  /** The tail of the first `j` pages begins the tail of all of them. */
  lemma {:induction false} IdTailPrefix(pages: seq<PageRecord>, j: nat)
    requires j <= |pages|
    ensures |IdTail(pages[..j])| <= |IdTail(pages)| && IdTail(pages)[..|IdTail(pages[..j])|] == IdTail(pages[..j])
    decreases |pages|
  {
    if j == |pages| {
      assert pages[..j] == pages;
    } else {
      var init := pages[..|pages| - 1];
      IdTailPrefix(init, j);
      assert init[..j] == pages[..j];
      var t, e := IdTail(init), IdEntry(pages[|pages| - 1]);
      assert IdTail(pages) == t + e;
      var n := |IdTail(pages[..j])|;
      assert (t + e)[..n] == t[..n];
    }
  }

  /** An identifier's entry is its UTF-8 bytes ended by the only NUL, when the identifier holds no NUL. */
  lemma {:induction false} IdEntryTerminated(p: PageRecord)
    requires '\0' !in p.id
    ensures var e := IdEntry(p); e[|e| - 1] == 0 && forall k :: 0 <= k < |e| - 1 ==> e[k] != 0
  {
  }

  /** The code as written opens no index that `writeIndex` wrote. */
  lemma {:induction false} WrittenIndexUnopenableAsWritten(pages: seq<PageRecord>)
    requires pages != [] && IndexBytes(pages).Ok?
    ensures OpenAsWritten(IndexBytes(pages).value) == Err("IllegalArgumentException")
  {
    var features := WrittenFeatures(pages);
    var tailStart := HeaderSize(features) + |pages| * RecordSize(features);
    var table := Table(pages, IdPointers(pages, tailStart), DIMENSION in features);
    var rest := table + IdTail(pages);
    ConcatAssoc(HeaderBytes(Header(1, |pages|, features)), table, IdTail(pages));
    ParseIdentifierHeaderAsWritten(Header(1, |pages|, features), rest);
  }

  /** Where the tail starts in an index with sizes. */
  function TailStart(pages: seq<PageRecord>): (r: int)
    ensures r == 10 + |pages| * 16
  {
    HeaderSize(RequiredFeatures) + |pages| * RecordSize(RequiredFeatures)
  }

  /** An index written for pages with sizes: a 10-byte header, 16 bytes per page, then the tail. */
  lemma {:induction false} WrittenLayout(pages: seq<PageRecord>)
    requires pages != [] && AllDims(pages)
    ensures WrittenFeatures(pages) == RequiredFeatures
    ensures var table := Table(pages, IdPointers(pages, TailStart(pages)), true);
      && |HeaderBytes(Header(1, |pages|, RequiredFeatures))| == 10 && |table| == |pages| * 16
      && IndexBytes(pages) == Ok(HeaderBytes(Header(1, |pages|, RequiredFeatures)) + (table + IdTail(pages)))
  {
    assert AnyDims(pages) by { assert pages[0].dimensions.Some?; }
    assert WrittenFeatures(pages) == RequiredFeatures;
    assert IndexBytes(pages) == Ok(IndexLayout(pages, RequiredFeatures));
    LayoutOf(pages, RequiredFeatures, TailStart(pages), true);
    TableLength(pages, IdPointers(pages, TailStart(pages)));
  }

  /** The layout of an index, with the tail start and the sizes flag given by the caller. */
  lemma {:induction false} LayoutOf(pages: seq<PageRecord>, features: set<Feature>, tailStart: int, hasDims: bool)
    requires tailStart == HeaderSize(features) + |pages| * RecordSize(features) && hasDims == (DIMENSION in features)
    ensures IndexLayout(pages, features)
      == HeaderBytes(Header(1, |pages|, features)) + (Table(pages, IdPointers(pages, tailStart), hasDims) + IdTail(pages))
  {
    ConcatAssoc(HeaderBytes(Header(1, |pages|, features)), Table(pages, IdPointers(pages, tailStart), hasDims), IdTail(pages));
  }

  /** With the corrected header parsing, an index written for pages with sizes opens, its page count modulo 2^16. */
  lemma {:induction false} WrittenIndexOpens(pages: seq<PageRecord>)
    requires pages != [] && AllDims(pages)
    ensures IndexBytes(pages).Ok? && Open(IndexBytes(pages).value) == Ok(Header(1, |pages| % 0x1_0000, RequiredFeatures))
  {
    WrittenLayout(pages);
    var table := Table(pages, IdPointers(pages, TailStart(pages)), true);
    ParseCompiledHeader(Header(1, |pages|, RequiredFeatures), table + IdTail(pages));
  }

  /** In an index written for pages with sizes, the corrected `parsePage` reads page `i`'s record whole. */
  lemma {:induction false} WrittenRecordParses(pages: seq<PageRecord>, i: nat)
    requires i < |pages| && AllDims(pages)
    ensures IndexBytes(pages).Ok?
    ensures ParsePage(IndexBytes(pages).value, Header(1, |pages| % 0x1_0000, RequiredFeatures), 10 + i * 16)
      == Ok(ReadRecord(RecordBytes(pages[i], IdPointers(pages, TailStart(pages))[i], true)))
  {
    var rec := RecordBytes(pages[i], IdPointers(pages, TailStart(pages))[i], true);
    WrittenRecordBytes(pages, i);
    ParseRecordAt(IndexBytes(pages).value, Header(1, |pages| % 0x1_0000, RequiredFeatures), i, rec);
  }

  /** In an index written for pages with sizes, the 16 bytes at `10 + i * 16` are page `i`'s record. */
  lemma {:induction false} WrittenRecordBytes(pages: seq<PageRecord>, i: nat)
    requires i < |pages| && AllDims(pages)
    ensures IndexBytes(pages).Ok?
    ensures Padded(IndexBytes(pages).value, 10 + i * 16, 16) == RecordBytes(pages[i], IdPointers(pages, TailStart(pages))[i], true)
  {
    WrittenLayout(pages);
    RecordSlice(HeaderBytes(Header(1, |pages|, RequiredFeatures)), pages, IdPointers(pages, TailStart(pages)), IdTail(pages), i);
  }

  /** The 16 bytes at `10 + i * 16` are record `i` of the table. */
  lemma {:induction false} RecordSlice(header: seq<Byte>, pages: seq<PageRecord>, ptrs: seq<int>, tail: seq<Byte>, i: nat)
    requires |ptrs| == |pages| && i < |pages| && |header| == 10
    ensures Padded(header + (Table(pages, ptrs, true) + tail), 10 + i * 16, 16) == RecordBytes(pages[i], ptrs[i], true)
  {
    TableRecordAt(pages, ptrs, i);
    RecordAfterHeader(header, Table(pages, ptrs, true), tail, i * 16);
  }

  /** The record of page `i` is read whole by the corrected `parsePage`. */
  lemma {:induction false} ParseRecordAt(data: seq<Byte>, h: Header, i: nat, rec: seq<Byte>)
    requires RequiredFeatures <= h.features && |rec| == 16 && Padded(data, 10 + i * 16, 16) == rec
    ensures ParsePage(data, h, 10 + i * 16) == Ok(ReadRecord(rec))
  {
    assert (10 + i * 16 - 10) % 16 == 0;
  }

  /** The 16 bytes read at `10 + at` of a 10-byte header, the table and the tail are the table's bytes at `at`. */
  lemma {:induction false} RecordAfterHeader(header: seq<Byte>, table: seq<Byte>, tail: seq<Byte>, at: nat)
    requires |header| == 10 && at + 16 <= |table|
    ensures Padded(header + (table + tail), 10 + at, 16) == table[at..at + 16]
  {
    var data := header + (table + tail);
    assert data[10 + at..10 + at + 16] == table[at..at + 16];
  }

  /** In an index written for pages with sizes, the identifier tail starts right after the table. */
  lemma {:induction false} WrittenTail(pages: seq<PageRecord>)
    requires pages != [] && AllDims(pages)
    ensures IndexBytes(pages).Ok?
    ensures TailStart(pages) <= |IndexBytes(pages).value| && IndexBytes(pages).value[TailStart(pages)..] == IdTail(pages)
  {
    WrittenLayout(pages);
    TailAfterTable(HeaderBytes(Header(1, |pages|, RequiredFeatures)), Table(pages, IdPointers(pages, TailStart(pages)), true),
      IdTail(pages), TailStart(pages));
  }

  /** What follows the header and the table is the tail. */
  lemma {:induction false} TailAfterTable(header: seq<Byte>, table: seq<Byte>, tail: seq<Byte>, at: int)
    requires at == |header| + |table|
    ensures at <= |header + (table + tail)| && (header + (table + tail))[at..] == tail
  {
    assert (header + (table + tail))[at..] == tail;
  }

  /** An index written for pages without sizes lacks a required feature and is refused. */
  lemma {:induction false} WrittenWithoutSizesUnopenable(pages: seq<PageRecord>)
    requires pages != [] && !AnyDims(pages)
    ensures IndexBytes(pages).Ok? && Open(IndexBytes(pages).value) == Err("IllegalArgumentException")
  {
    var features := WrittenFeatures(pages);
    var header := Header(1, |pages|, features);
    var tailStart := HeaderSize(features) + |pages| * RecordSize(features);
    var table := Table(pages, IdPointers(pages, tailStart), false);
    ConcatAssoc(HeaderBytes(header), table, IdTail(pages));
    ParseCompiledHeader(header, table + IdTail(pages));
  }

  // What `locatePage` hands to `parsePage`.

  /**
   * `locatePage` followed by `parsePage` as written: the page start the
   * search answers is an offset in the OCR file, but `parsePage` takes it
   * for the offset of a record in the index file. Only a page starting at
   * OCR offset 10 gets past the alignment guard.
   */
  function LocateRecordAsWritten(data: seq<Byte>, h: Header, ocrOffset: int): (r: Result<Option<RecordFields>>)
    requires RequiredFeatures <= h.features
    ensures r.Ok? && r.value.Some? ==>
      h.numRecords > 0 && LocateFrom(data, h, ocrOffset, 0, h.numRecords - 1, FreshBuf, false) == Ok(Some(10))
  {
    var found := if h.numRecords == 0 then Ok(None) else LocateFrom(data, h, ocrOffset, 0, h.numRecords - 1, FreshBuf, false);
    if found.Err? then Err(found.error)
    else if found.value.None? then Ok(None)
    else
      var rec := ParsePageAsWritten(data, h, found.value.value);
      if rec.Err? then Err(rec.error) else Ok(Some(rec.value))
  }

  /**
   * On the five-page index, offset 250 lies in page 2, which starts at OCR
   * offset 200. The search as written finds that start at its first probe,
   * and `parsePage` refuses 200, under the guard as written and under the
   * corrected one alike, since no record starts there. The record of page
   * 2 lies at `10 + 2 * 16`.
   */
  lemma {:induction false} PageStartIsNoRecordOffset()
    ensures LocateFrom(FivePages, Header(1, 5, RequiredFeatures), 250, 0, 4, FreshBuf, false) == Ok(Some(200))
    ensures LocateRecordAsWritten(FivePages, Header(1, 5, RequiredFeatures), 250) == Err("IllegalArgumentException")
    ensures ParsePage(FivePages, Header(1, 5, RequiredFeatures), 200).Err?
    ensures ParsePage(FivePages, Header(1, 5, RequiredFeatures), 10 + 2 * 16) == Ok(RecordFields(200, 300, 0, 0, 0))
  {
    FirstProbeFindsPageTwo();
    PageTwoRecord();
  }

  /** The five-page index as its header and first two records, record 2, and the last two records. */
  lemma {:induction false} FivePagesAroundTwo()
    ensures |FiveHead + SampleRecord(0, 0) + SampleRecord(0, 100)| == 42
    ensures FivePages == (FiveHead + SampleRecord(0, 0) + SampleRecord(0, 100)) + SampleRecord(0, 200) + (SampleRecord(1, 44) + SampleRecord(1, 144))
  {
  }

  /** The first probe of the search for offset 250 reads record 2, whose page, 200..300, holds 250. */
  lemma {:induction false} FirstProbeFindsPageTwo()
    ensures LocateFrom(FivePages, Header(1, 5, RequiredFeatures), 250, 0, 4, FreshBuf, false) == Ok(Some(200))
  {
    var front := FiveHead + SampleRecord(0, 0) + SampleRecord(0, 100);
    FivePagesAroundTwo();
    EightAt(front, SampleRecord(0, 200), SampleRecord(1, 44) + SampleRecord(1, 144));
    var r2 := SampleRecord(0, 200)[..8];
    SampleRecordRead(0, 200);
    assert r2[..4] == SampleRecord(0, 200)[..4] && r2[4..] == SampleRecord(0, 200)[4..8];
    FoundAtFirstProbe(FivePages, r2);
  }

  /** Over five records whose record 2 covers 200..300, the first probe of a search for 250 answers that page's start. */
  lemma {:induction false} FoundAtFirstProbe(data: seq<Byte>, r2: seq<Byte>)
    requires |data| >= 50 && |r2| == 8 && data[42..50] == r2
    requires ReadBE(r2[..4]) == 200 && ReadBE(r2[4..]) == 100
    ensures LocateFrom(data, Header(1, 5, RequiredFeatures), 250, 0, 4, FreshBuf, false) == Ok(Some(200))
  {
    var h := Header(1, 5, RequiredFeatures);
    assert HeaderSize(h.features) == 10 && RecordSize(h.features) == 16;
    assert HeaderSize(h.features) + (0 + 4) / 2 * RecordSize(h.features) == 42;
    ClearedProbeReadsRecord(data, FreshBuf, 42);
    assert Clear(FreshBuf) == FreshBuf;
    ProbeOfRecord(data, h, 250, 0, 4, FreshBuf, false, r2);
  }

  /** Record 2 of the five-page index, read whole: the page from 200 to 300, identifier pointer and size 0. */
  lemma {:induction false} PageTwoRecord()
    ensures Padded(FivePages, 42, 16) == SampleRecord(0, 200)
    ensures ReadRecord(Padded(FivePages, 42, 16)) == RecordFields(200, 300, 0, 0, 0)
  {
    var front := FiveHead + SampleRecord(0, 0) + SampleRecord(0, 100);
    var rest := SampleRecord(1, 44) + SampleRecord(1, 144);
    FivePagesAroundTwo();
    assert (front + SampleRecord(0, 200) + rest)[42..58] == SampleRecord(0, 200);
    var rec := SampleRecord(0, 200);
    assert rec[0..4] == [0, 0, 0, 200] && rec[4..8] == [0, 0, 0, 100] && rec[8..12] == [0, 0, 0, 0];
    assert rec[12..14] == [0, 0] && rec[14..16] == [0, 0];
    ReadBE4(0, 0, 0, 200);
    ReadBE4(0, 0, 0, 100);
    ReadBE4(0, 0, 0, 0);
    ReadBE2(0, 0);
  }

  /** The 16 bytes of record `k`, at `headerSize + k * recordSize` of an index with the required features. */
  function RecordAt(data: seq<Byte>, k: nat): (r: seq<Byte>)
    ensures |r| == 16
  {
    Padded(data, 10 + k * 16, 16)
  }

  /** What a probe of record `k` reads from a cleared buffer: the record's start and its end. */
  function RecordProbe(data: seq<Byte>): int -> (int, int)
  {
    k => if k < 0 then (0, 0) else (ReadRecord(RecordAt(data, k)).startOffset, ReadRecord(RecordAt(data, k)).endOffset)
  }

  /**
   * `locatePage` corrected at the hand-over too: the record index the
   * search answers is turned into the record's offset in the index file,
   * `headerSize + k * recordSize`, and the record is read there. An answer
   * is a record of the index holding the offset; on ordered records, the
   * record holding the offset is always found.
   */
  method LocateRecord(data: seq<Byte>, h: Header, ocrOffset: int) returns (r: Option<RecordFields>)
    requires RequiredFeatures <= h.features
    ensures r.Some? ==> r.value.startOffset <= ocrOffset < r.value.endOffset
    ensures r.Some? ==> exists k: nat :: k < h.numRecords && r.value == ReadRecord(RecordAt(data, k))
    ensures Ordered(h.numRecords, RecordProbe(data)) ==>
      forall k: nat :: k < h.numRecords && Holds(RecordProbe(data), k, ocrOffset) ==> r == Some(ReadRecord(RecordAt(data, k)))
  {
    var found := LocatePage(h.numRecords, ocrOffset, RecordProbe(data));
    if found.None? {
      return None;
    }
    var k: nat := found.value;
    assert HeaderSize(h.features) == 10 && RecordSize(h.features) == 16;
    assert (HeaderSize(h.features) + k * RecordSize(h.features) - 10) % 16 == 0;
    var rec := ParsePage(data, h, HeaderSize(h.features) + k * RecordSize(h.features));
    assert rec == Ok(ReadRecord(RecordAt(data, k)));
    return Some(rec.value);
  }
}
