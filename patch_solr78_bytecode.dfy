/**
 * The class-file patcher that makes the plugin's Solr 9 build load in
 * Solr 7 and 8 (util/patch_solr78_bytecode.py): a walk over the constant
 * pool of a JVM class file (section 4.4 of the Java Virtual Machine
 * Specification), the rewrite of one package path in every class, and the
 * retargeting of one anonymous class from the `CloseHook` interface to the
 * `CloseHook` abstract class.
 *
 * Class files are byte sequences; a Python exception is an `Err` carrying
 * the exception's name.
 */
module PatchBytecode {
  import opened Common
  import Unicode

  // ---------------------------------------------------------------------
  // Big-endian u16 fields, as `struct` reads and writes them with ">H"

  /** The unsigned big-endian 16-bit value of two bytes. */
  function U16(hi: Byte, lo: Byte): (v: nat)
    ensures v < 0x1_0000
  {
    hi * 0x100 + lo
  }

  /** `struct.pack(">H", v)`. */
  function Be16(v: nat): (r: seq<Byte>)
    requires v < 0x1_0000
    ensures |r| == 2 && U16(r[0], r[1]) == v
  {
    [v / 0x100, v % 0x100]
  }

  /** Reading two bytes back as a u16 and writing it again gives the two bytes. */
  lemma {:induction false} Be16OfU16(hi: Byte, lo: Byte)
    ensures Be16(U16(hi, lo)) == [hi, lo]
  {
  }

  /**
   * `struct.unpack_from(">H", s, off)`: a negative offset counts from the
   * end of the buffer, as long as the two bytes it names end within it;
   * anything else raises `struct.error`.
   */
  function UnpackU16(s: seq<Byte>, off: int): (r: Result<nat>)
    ensures r.Ok? <==> (0 <= off && off + 2 <= |s|) || (-|s| <= off <= -2)
    ensures r.Ok? && off >= 0 ==> r.value == U16(s[off], s[off + 1])
    ensures r.Ok? && off < 0 ==> r.value == U16(s[|s| + off], s[|s| + off + 1])
    decreases if off < 0 then 1 else 0
  {
    if off < 0 then
      if off + 2 > 0 || off + |s| < 0 then Err("struct.error") else UnpackU16(s, off + |s|)
    else if off + 2 > |s| then Err("struct.error")
    else Ok(U16(s[off], s[off + 1]))
  }

  /** `struct.pack_into(">H", s, off, v)` on a bytearray, with the same reading of a negative offset. */
  function PackU16(s: seq<Byte>, off: int, v: nat): (r: Result<seq<Byte>>)
    requires v < 0x1_0000
    ensures r.Ok? <==> UnpackU16(s, off).Ok?
    decreases if off < 0 then 1 else 0
  {
    if off < 0 then
      if off + 2 > 0 || off + |s| < 0 then Err("struct.error") else PackU16(s, off + |s|, v)
    else if off + 2 > |s| then Err("struct.error")
    else Ok(s[..off] + Be16(v) + s[off + 2..])
  }

  /** A packed value reads back, the buffer keeps its length, and no other byte changes. */
  lemma {:induction false} PackThenUnpack(s: seq<Byte>, off: int, v: nat)
    requires v < 0x1_0000 && PackU16(s, off, v).Ok?
    ensures var t := PackU16(s, off, v).value;
      var at := if off < 0 then off + |s| else off;
      |t| == |s| && UnpackU16(t, off) == Ok(v)
      && t[..at] == s[..at] && t[at + 2..] == s[at + 2..]
  {
  }

  // ---------------------------------------------------------------------
  // Constant pool entry sizes (table 4.4-A)

  /** `_get_utf8_size`: a Utf8 entry takes its tag, its u16 length and that many bytes. */
  function Utf8Size(entryData: seq<Byte>): (r: Result<nat>)
    ensures r.Ok? <==> |entryData| >= 3
    ensures r.Ok? ==> r.value == 3 + U16(entryData[1], entryData[2])
  {
    var length := UnpackU16(entryData, 1);
    if length.Err? then Err(length.error) else Ok(3 + length.value)
  }

  /** `CONSTANT_POOL_SIZES` for every tag but Utf8 (1), whose size depends on the entry. */
  function FixedSize(tag: Byte): Option<nat>
  {
    if tag == 7 || tag == 8 || tag == 16 || tag == 19 || tag == 20 then Some(3)
    else if tag == 9 || tag == 10 || tag == 11 || tag == 3 || tag == 4 || tag == 12 || tag == 17 || tag == 18 then Some(5)
    else if tag == 5 || tag == 6 then Some(9)
    else if tag == 15 then Some(4)
    else None
  }

  /**
   * The widths of the fields after the tag byte, as section 4.4 of the Java
   * Virtual Machine Specification lays each entry out.
   */
  function InfoLayout(tag: Byte): seq<nat>
  {
    if tag == 7 || tag == 8 || tag == 16 || tag == 19 || tag == 20 then [2]
    else if tag == 9 || tag == 10 || tag == 11 || tag == 12 || tag == 17 || tag == 18 then [2, 2]
    else if tag == 3 || tag == 4 then [4]
    else if tag == 5 || tag == 6 then [4, 4]
    else if tag == 15 then [1, 2]
    else []
  }

  function Sum(s: seq<nat>): nat
  {
    if s == [] then 0 else s[0] + Sum(s[1..])
  }

  /** The table of fixed sizes is the tag byte plus the fields of each entry's layout. */
  lemma {:induction false} FixedSizesMatchLayout(tag: Byte)
    ensures FixedSize(tag).Some? <==> InfoLayout(tag) != []
    ensures FixedSize(tag).Some? ==> FixedSize(tag).value == 1 + Sum(InfoLayout(tag))
  {
    var l := InfoLayout(tag);
    if l != [] {
      assert Sum(l) == l[0] + Sum(l[1..]);
      if |l| == 2 {
        assert Sum(l[1..]) == l[1] + Sum(l[2..]);
      }
    }
  }

  /** The size of the entry with tag `tag` at the start of `rest`; an unknown tag raises KeyError. */
  function EntrySize(tag: Byte, rest: seq<Byte>): (r: Result<nat>)
    ensures r.Ok? ==> r.value >= 3
  {
    if tag == 1 then Utf8Size(rest)
    else if FixedSize(tag).None? then Err("KeyError")
    else Ok(FixedSize(tag).value)
  }

  /**
   * Exactly the tags of table 4.4-A have a size; a Utf8 entry needs its
   * length bytes and then spans them plus that many bytes.
   */
  lemma {:induction false} EntrySizeKnown(tag: Byte, rest: seq<Byte>)
    ensures EntrySize(tag, rest).Err? <==> (tag != 1 && InfoLayout(tag) == []) || (tag == 1 && |rest| < 3)
    ensures EntrySize(tag, rest).Err? ==> EntrySize(tag, rest).error == if tag == 1 then "struct.error" else "KeyError"
    ensures tag == 1 && |rest| >= 3 ==> EntrySize(tag, rest).value == 3 + U16(rest[1], rest[2])
    ensures tag != 1 && InfoLayout(tag) != [] ==> EntrySize(tag, rest).value == 1 + Sum(InfoLayout(tag))
  {
    FixedSizesMatchLayout(tag);
  }

  // ---------------------------------------------------------------------
  // `_check_valid_classfile`

  const Magic: seq<Byte> := [0xCA, 0xFE, 0xBA, 0xBE]

  /** Anything not starting with CA FE BA BE, a file shorter than that included, raises ValueError. */
  function CheckValidClassfile(classfile: seq<Byte>): (r: Option<string>)
    ensures r.None? <==> |classfile| >= 4 && classfile[..4] == Magic
    ensures r.Some? ==> r.value == "ValueError"
  {
    if classfile[..Min(4, |classfile|)] != Magic then Some("ValueError") else None
  }

  // ---------------------------------------------------------------------
  // `_walk_constant_pool`

  /** `ConstantPoolEntry`: 1-based pool index, tag, the bytes after the tag, byte offset of the tag. */
  datatype Entry = Entry(poolIdx: nat, tag: Byte, value: seq<Byte>, offset: nat)

  /** What the generator yields before it stops, and the exception it stops with, if any. */
  datatype Walked = Walked(entries: seq<Entry>, failure: Option<string>)

  /**
   * How pool indexes advance: one per entry as written, or, as section 4.4.5
   * of the Java Virtual Machine Specification requires, two after a Long or
   * Double entry, whose next index is unusable.
   */
  datatype Indexing = AsWritten | PerJvmSpec

  function Slots(ix: Indexing, tag: Byte): nat
  {
    if ix == PerJvmSpec && (tag == 5 || tag == 6) then 2 else 1
  }

  /** The size of the entry whose tag is at `offset`; reading past the end raises IndexError. */
  function SizeAt(classfile: seq<Byte>, offset: nat): (r: Result<nat>)
    ensures r.Ok? ==> offset < |classfile| && r.value >= 3
  {
    if offset >= |classfile| then Err("IndexError") else EntrySize(classfile[offset], classfile[offset..])
  }

  /** A position of the walk: the pool index due next and the byte offset of its tag. */
  datatype Cursor = Cursor(idx: nat, offset: nat)

  /**
   * One step of the generator from `at`: the entry there, its value cut
   * short at the end of the file, and the position after it.
   */
  function Step(classfile: seq<Byte>, ix: Indexing, at: Cursor): (r: Result<(Entry, Cursor)>)
    ensures r.Ok? <==> SizeAt(classfile, at.offset).Ok?
    ensures r.Err? ==> r.error == SizeAt(classfile, at.offset).error
    ensures r.Ok? ==> r.value.0.poolIdx == at.idx && r.value.0.offset == at.offset && r.value.0.tag == classfile[at.offset]
    ensures r.Ok? ==> r.value.1 == Cursor(at.idx + Slots(ix, classfile[at.offset]), at.offset + SizeAt(classfile, at.offset).value)
  {
    var size := SizeAt(classfile, at.offset);
    if size.Err? then Err(size.error)
    else
      var entry := Entry(at.idx, classfile[at.offset], classfile[at.offset + 1..Min(at.offset + size.value, |classfile|)], at.offset);
      Ok((entry, Cursor(at.idx + Slots(ix, classfile[at.offset]), at.offset + size.value)))
  }

  /** The entries from `at` on, until the pool index reaches `count`. */
  function WalkFrom(classfile: seq<Byte>, ix: Indexing, count: nat, at: Cursor): Walked
    decreases count - at.idx
  {
    if at.idx >= count then Walked([], None)
    else
      var step := Step(classfile, ix, at);
      if step.Err? then Walked([], Some(step.error))
      else
        var rest := WalkFrom(classfile, ix, count, step.value.1);
        Walked([step.value.0] + rest.entries, rest.failure)
  }

  /** The whole walk: the magic number, `constant_pool_count` at byte 8, then the entries from byte 10. */
  function Walk(classfile: seq<Byte>, ix: Indexing): Walked
  {
    var invalid := CheckValidClassfile(classfile);
    if invalid.Some? then Walked([], invalid)
    else
      var count := UnpackU16(classfile, 8);
      if count.Err? then Walked([], Some(count.error))
      else WalkFrom(classfile, ix, count.value, Cursor(1, 10))
  }

  /** The entries `done` already yielded, followed by what `w` yields. */
  function After(done: seq<Entry>, w: Walked): Walked
  {
    Walked(done + w.entries, w.failure)
  }

  /**
   * `_walk_constant_pool`, with pool indexes advanced as section 4.4.5 of
   * the Java Virtual Machine Specification requires: the running pool size
   * gives each entry's offset.
   */
  method WalkConstantPool(classfile: seq<Byte>) returns (w: Walked)
    ensures w == Walk(classfile, PerJvmSpec)
  {
    var invalid := CheckValidClassfile(classfile);
    if invalid.Some? {
      return Walked([], invalid);
    }
    var count := UnpackU16(classfile, 8);
    if count.Err? {
      return Walked([], Some(count.error));
    }
    ghost var total := Walk(classfile, PerJvmSpec);
    assert total == After([], WalkFrom(classfile, PerJvmSpec, count.value, Cursor(1, 10)));
    var entries: seq<Entry> := [];
    // `at.offset` is 10 plus the running constant pool size
    var at := Cursor(1, 10);
    while at.idx < count.value
      invariant total == After(entries, WalkFrom(classfile, PerJvmSpec, count.value, at))
      decreases count.value - at.idx
    {
      var step := Step(classfile, PerJvmSpec, at);
      if step.Err? {
        return Walked(entries, Some(step.error));
      }
      var entry, next := step.value.0, step.value.1;
      ghost var rest := WalkFrom(classfile, PerJvmSpec, count.value, next);
      assert WalkFrom(classfile, PerJvmSpec, count.value, at) == After([entry], rest);
      assert entries + ([entry] + rest.entries) == (entries + [entry]) + rest.entries;
      entries := entries + [entry];
      at := next;
    }
    w := Walked(entries, None);
  }

  /** The first entry of a walk is at `at`. */
  lemma {:induction false} WalkStartsAt(classfile: seq<Byte>, ix: Indexing, count: nat, at: Cursor)
    ensures var es := WalkFrom(classfile, ix, count, at).entries;
      es != [] ==> es[0].offset == at.offset && es[0].poolIdx == at.idx
  {
  }

  /** `b` is the entry that follows `a`: `a` is the entry at its own position, and the step from it lands on `b`'s. */
  predicate Linked(classfile: seq<Byte>, ix: Indexing, a: Entry, b: Entry)
  {
    Step(classfile, ix, Cursor(a.poolIdx, a.offset)) == Ok((a, Cursor(b.poolIdx, b.offset)))
  }

  /**
   * An entry followed by another carries the tag byte at its offset and the
   * bytes after it up to its size (cut short at the end of the file); the
   * next one starts where that size ends, at the index plus its slots.
   */
  lemma {:induction false} LinkedMeans(classfile: seq<Byte>, ix: Indexing, a: Entry, b: Entry)
    requires Linked(classfile, ix, a, b)
    ensures SizeAt(classfile, a.offset).Ok?
    ensures a.tag == classfile[a.offset]
    ensures a.value == classfile[a.offset + 1..Min(a.offset + SizeAt(classfile, a.offset).value, |classfile|)]
    ensures b.offset == a.offset + SizeAt(classfile, a.offset).value
    ensures b.poolIdx == a.poolIdx + Slots(ix, a.tag)
  {
  }

  predicate Chained(classfile: seq<Byte>, ix: Indexing, es: seq<Entry>)
  {
    forall k {:trigger Linked(classfile, ix, es[k], es[k + 1])} :: 0 <= k < |es| - 1 ==> Linked(classfile, ix, es[k], es[k + 1])
  }

  lemma {:induction false} ChainedCons(classfile: seq<Byte>, ix: Indexing, e: Entry, rest: seq<Entry>)
    requires Chained(classfile, ix, rest) && (rest != [] ==> Linked(classfile, ix, e, rest[0]))
    ensures Chained(classfile, ix, [e] + rest)
  {
    var es := [e] + rest;
    forall k | 0 <= k < |es| - 1
      ensures Linked(classfile, ix, es[k], es[k + 1])
    {
      if k > 0 {
        var j := k - 1;
        assert Linked(classfile, ix, rest[j], rest[j + 1]);
        assert es[k] == rest[j] && es[k + 1] == rest[j + 1];
      }
    }
  }

  /** Consecutive entries of a walk are linked: the walk is the generator stepping from entry to entry. */
  lemma {:induction false} WalkChained(classfile: seq<Byte>, ix: Indexing, count: nat, at: Cursor)
    ensures Chained(classfile, ix, WalkFrom(classfile, ix, count, at).entries)
    decreases count - at.idx
  {
    if at.idx < count {
      var step := Step(classfile, ix, at);
      if step.Ok? {
        var (e, next) := step.value;
        WalkChained(classfile, ix, count, next);
        WalkStartsAt(classfile, ix, count, next);
        assert Cursor(e.poolIdx, e.offset) == at;
        var rest := WalkFrom(classfile, ix, count, next).entries;
        if rest != [] {
          assert Cursor(rest[0].poolIdx, rest[0].offset) == next;
        }
        ChainedCons(classfile, ix, e, WalkFrom(classfile, ix, count, next).entries);
      }
    }
  }

  /** `e` is the entry the generator yields at `e`'s own position. */
  predicate Yielded(classfile: seq<Byte>, ix: Indexing, e: Entry)
  {
    Step(classfile, ix, Cursor(e.poolIdx, e.offset)).Ok? && Step(classfile, ix, Cursor(e.poolIdx, e.offset)).value.0 == e
  }

  /** Every entry of `es` is the generator's entry at its own position, with a pool index in `lo..count`. */
  predicate AllYielded(classfile: seq<Byte>, ix: Indexing, lo: nat, count: nat, es: seq<Entry>)
  {
    forall k :: 0 <= k < |es| ==> lo <= es[k].poolIdx < count && Yielded(classfile, ix, es[k])
  }

  /** Every entry of a walk is the generator's entry at its own position, with a pool index below `count`. */
  lemma {:induction false} WalkEntriesValid(classfile: seq<Byte>, ix: Indexing, count: nat, at: Cursor)
    ensures AllYielded(classfile, ix, at.idx, count, WalkFrom(classfile, ix, count, at).entries)
    decreases count - at.idx
  {
    if at.idx < count {
      var step := Step(classfile, ix, at);
      if step.Ok? {
        var e, next := step.value.0, step.value.1;
        assert Cursor(e.poolIdx, e.offset) == at;
        assert Yielded(classfile, ix, e);
        WalkEntriesValid(classfile, ix, count, next);
        var rest := WalkFrom(classfile, ix, count, next).entries;
        var es := WalkFrom(classfile, ix, count, at).entries;
        assert es == [e] + rest;
        forall k | 1 <= k < |es|
          ensures at.idx <= es[k].poolIdx < count && Yielded(classfile, ix, es[k])
        {
          assert es[k] == rest[k - 1];
        }
      }
    }
  }

  /**
   * Read per the Java Virtual Machine Specification, a walk that ends
   * without an error accounts for every usable pool index: its last entry
   * (with the unusable slot after a Long or Double) reaches `count`.
   */
  lemma {:induction false} WalkCoversPool(classfile: seq<Byte>, count: nat, at: Cursor)
    requires at.idx < count
    ensures var w := WalkFrom(classfile, PerJvmSpec, count, at);
      w.failure.None? ==> w.entries != [] && Last(w.entries).poolIdx + Slots(PerJvmSpec, Last(w.entries).tag) >= count
    decreases count - at.idx
  {
    var step := Step(classfile, PerJvmSpec, at);
    if step.Ok? && step.value.1.idx < count {
      WalkCoversPool(classfile, count, step.value.1);
    }
  }

  function Last<T>(s: seq<T>): T
    requires s != []
  {
    s[|s| - 1]
  }

  /** A step reads nothing before its offset. */
  lemma {:induction false} StepFrame(a: seq<Byte>, b: seq<Byte>, ix: Indexing, at: Cursor)
    requires |a| == |b| && at.offset <= |a| && a[at.offset..] == b[at.offset..]
    ensures Step(a, ix, at) == Step(b, ix, at)
  {
    if at.offset < |a| {
      assert a[at.offset] == a[at.offset..][0] == b[at.offset];
      assert SizeAt(a, at.offset) == SizeAt(b, at.offset);
      if SizeAt(a, at.offset).Ok? {
        var hi := Min(at.offset + SizeAt(a, at.offset).value, |a|);
        assert a[at.offset + 1..hi] == a[at.offset..][1..hi - at.offset] == b[at.offset + 1..hi];
      }
    }
  }

  /** A walk reads nothing before its offset: two files that agree from there on walk alike. */
  lemma {:induction false} WalkFromFrame(a: seq<Byte>, b: seq<Byte>, ix: Indexing, count: nat, at: Cursor)
    requires |a| == |b| && at.offset <= |a| && a[at.offset..] == b[at.offset..]
    ensures WalkFrom(a, ix, count, at) == WalkFrom(b, ix, count, at)
    decreases count - at.idx
  {
    if at.idx < count {
      StepFrame(a, b, ix, at);
      var step := Step(a, ix, at);
      if step.Ok? {
        var next := step.value.1;
        if next.offset <= |a| {
          assert a[next.offset..] == a[at.offset..][next.offset - at.offset..];
          assert b[next.offset..] == b[at.offset..][next.offset - at.offset..];
          WalkFromFrame(a, b, ix, count, next);
        } else {
          WalkPastEnd(a, ix, count, next);
          WalkPastEnd(b, ix, count, next);
        }
      }
    }
  }

  /** Past the end of the file a walk yields nothing, and raises IndexError if an entry is still due. */
  lemma {:induction false} WalkPastEnd(classfile: seq<Byte>, ix: Indexing, count: nat, at: Cursor)
    requires at.offset >= |classfile|
    ensures WalkFrom(classfile, ix, count, at) == Walked([], if at.idx < count then Some("IndexError") else None)
  {
  }

  // ---------------------------------------------------------------------
  // `patch_package_paths`

  /** The bytes of a string whose characters are all below U+0100, one byte per character. */
  function Latin1(s: string): (r: seq<Byte>)
    ensures |r| == |s|
  {
    seq(|s|, k requires 0 <= k < |s| => (s[k] as int) % 0x100)
  }

  /** `PACKAGE_SUBS`: each Solr 9 package path and the Solr 7/8 path it becomes. */
  const PackageSubs: seq<(seq<Byte>, seq<Byte>)> := [
    (Latin1("org/apache/lucene/analysis/CharFilterFactory"), Latin1("org/apache/lucene/analysis/util/CharFilterFactory"))
  ]

  /** Every source path is non-empty and every target fits a u16 length field. */
  predicate ValidSubs(subs: seq<(seq<Byte>, seq<Byte>)>)
  {
    forall k :: 0 <= k < |subs| ==> subs[k].0 != [] && |subs[k].1| < 0x1_0000
  }

  lemma {:induction false} PackageSubsValid()
    ensures ValidSubs(PackageSubs)
  {
  }

  /** `bytes.replace(src, target)`: every occurrence of `src`, left to right and not overlapping, becomes `target`. */
  function ReplaceAll(s: seq<Byte>, src: seq<Byte>, target: seq<Byte>): (r: seq<Byte>)
    requires src != []
    ensures IndexOf(s, src, 0) < 0 ==> r == s
    decreases |s|
  {
    var i := IndexOf(s, src, 0);
    if i < 0 then s else s[..i] + target + ReplaceAll(s[i + |src|..], src, target)
  }

  /** Replacing a path by itself leaves the bytes as they were. */
  lemma {:induction false} ReplaceAllSelf(s: seq<Byte>, src: seq<Byte>)
    requires src != []
    ensures ReplaceAll(s, src, src) == s
    decreases |s|
  {
    var i := IndexOf(s, src, 0);
    if i >= 0 {
      ReplaceAllSelf(s[i + |src|..], src);
      assert s == s[..i] + src + s[i + |src|..];
    }
  }

  /** The first occurrence is replaced in place: what precedes it is kept, and `target` follows. */
  lemma {:induction false} ReplaceAllKeepsPrefix(s: seq<Byte>, src: seq<Byte>, target: seq<Byte>)
    requires src != [] && IndexOf(s, src, 0) >= 0
    ensures var i := IndexOf(s, src, 0);
      var r := ReplaceAll(s, src, target);
      |r| >= i + |target| && r[..i] == s[..i] && r[i..i + |target|] == target
  {
    var i := IndexOf(s, src, 0);
    var r := ReplaceAll(s, src, target);
    assert r == s[..i] + target + ReplaceAll(s[i + |src|..], src, target);
    assert r[..i] == s[..i];
    assert r[i..i + |target|] == target;
  }

  /**
   * One substitution: the class file is changed only when the first
   * occurrence of `src` is preceded by a u16 equal to its length, that is,
   * when it is the whole text of a Utf8 entry; then every occurrence is
   * replaced and that length field is set to the length of `target`.
   */
  function PatchPath(classfile: seq<Byte>, src: seq<Byte>, target: seq<Byte>): (r: Result<seq<Byte>>)
    requires src != [] && |target| < 0x1_0000
  {
    var idx := IndexOf(classfile, src, 0);
    if idx < 0 then Ok(classfile)
    else
      var length := UnpackU16(classfile, idx - 2);
      if length.Err? then Err(length.error)
      else if length.value != |src| then Ok(classfile)
      else PackU16(ReplaceAll(classfile, src, target), idx - 2, |target|)
  }

  /**
   * When the path is the text of a Utf8 entry (its length field two bytes
   * before it), the patched file keeps everything before that field, the
   * field now holds the length of `target`, and `target` follows it: the
   * entry is again a well-formed Utf8 entry holding the new path.
   */
  lemma {:induction false} PatchPathRewritesEntry(classfile: seq<Byte>, src: seq<Byte>, target: seq<Byte>)
    requires src != [] && |target| < 0x1_0000
    requires IndexOf(classfile, src, 0) >= 2
    requires UnpackU16(classfile, IndexOf(classfile, src, 0) - 2) == Ok(|src|)
    ensures PatchPath(classfile, src, target).Ok?
    ensures var idx := IndexOf(classfile, src, 0);
      var out := PatchPath(classfile, src, target).value;
      |out| >= idx + |target| && out[..idx - 2] == classfile[..idx - 2]
      && UnpackU16(out, idx - 2) == Ok(|target|) && out[idx..idx + |target|] == target
  {
    var idx := IndexOf(classfile, src, 0);
    var replaced := ReplaceAll(classfile, src, target);
    ReplaceAllKeepsPrefix(classfile, src, target);
    assert UnpackU16(replaced, idx - 2).Ok?;
    PackThenUnpack(replaced, idx - 2, |target|);
    var out := PackU16(replaced, idx - 2, |target|).value;
    assert out[..idx - 2] == replaced[..idx - 2] == classfile[..idx - 2];
    assert out[idx..idx + |target|] == replaced[idx..][..|target|];
  }

  /** The substitutions applied in order; the first exception ends the patch. */
  function PatchPaths(classfile: seq<Byte>, subs: seq<(seq<Byte>, seq<Byte>)>): Result<seq<Byte>>
    requires ValidSubs(subs)
    decreases |subs|
  {
    if subs == [] then Ok(classfile)
    else
      var once := PatchPath(classfile, subs[0].0, subs[0].1);
      if once.Err? then once else PatchPaths(once.value, subs[1..])
  }

  /** `patch_package_paths`: each substitution of `PACKAGE_SUBS` in turn. */
  method PatchPackagePaths(classfile: seq<Byte>) returns (r: Result<seq<Byte>>)
    ensures r == PatchPaths(classfile, PackageSubs)
  {
    PackageSubsValid();
    var current := classfile;
    for k := 0 to |PackageSubs|
      invariant PatchPaths(current, PackageSubs[k..]) == PatchPaths(classfile, PackageSubs)
    {
      var src, target := PackageSubs[k].0, PackageSubs[k].1;
      assert PackageSubs[k..][0] == PackageSubs[k] && PackageSubs[k..][1..] == PackageSubs[k + 1..];
      var patched := PatchPath(current, src, target);
      if patched.Err? {
        return patched;
      }
      current := patched.value;
    }
    return Ok(current);
  }

  // ---------------------------------------------------------------------
  // `patch_close_hook`

  const ObjectName: seq<Byte> := Latin1("java/lang/Object")
  const CloseHookName: seq<Byte> := Latin1("org/apache/solr/core/CloseHook")

  /** `struct.pack(">H", v)`, which raises struct.error for a value that does not fit. */
  function Pack16(v: nat): (r: Result<seq<Byte>>)
    ensures r.Ok? <==> v < 0x1_0000
    ensures r.Ok? ==> |r.value| == 2 && U16(r.value[0], r.value[1]) == v
  {
    if v < 0x1_0000 then Ok(Be16(v)) else Err("struct.error")
  }

  /**
   * `buf[lo:hi] = x` on a bytearray: the slice, clamped to the buffer, is
   * replaced by `x`; `del buf[lo:hi]` is the same with nothing put back.
   */
  function Splice(buf: seq<Byte>, lo: nat, hi: nat, x: seq<Byte>): (r: seq<Byte>)
    ensures lo <= hi <= |buf| ==> |r| == |buf| - (hi - lo) + |x|
    ensures lo <= hi <= |buf| ==> r[..lo] == buf[..lo] && r[lo..lo + |x|] == x && r[lo + |x|..] == buf[hi..]
  {
    var a := Min(lo, |buf|);
    var b := Max(a, Min(hi, |buf|));
    buf[..a] + x + buf[b..]
  }

  /** The text of a Utf8 entry: its value after the two length bytes. */
  function Utf8Text(e: Entry): seq<Byte>
  {
    e.value[Min(2, |e.value|)..]
  }

  /**
   * The first pass: the text of every Utf8 entry by pool index. Text a
   * strict UTF-8 decoder refuses raises UnicodeDecodeError. The strings are
   * kept as their bytes: a strict decoder is one-to-one, so two texts it
   * accepts decode to equal strings exactly when their bytes are equal.
   */
  function CollectStrings(es: seq<Entry>): (r: Result<map<nat, seq<Byte>>>)
    decreases |es|
  {
    if es == [] then Ok(map[])
    else
      var prev := CollectStrings(es[..|es| - 1]);
      var e := es[|es| - 1];
      if prev.Err? || e.tag != 1 then prev
      else if !Unicode.WellFormedUtf8(Utf8Text(e)) then Err("UnicodeDecodeError")
      else Ok(prev.value[e.poolIdx := Utf8Text(e)])
  }

  predicate IsUtf8Entry(e: Entry) { e.tag == 1 }

  /** The first pass fails exactly when some Utf8 entry's text is not well-formed UTF-8. */
  lemma {:induction false} CollectStringsFails(es: seq<Entry>)
    ensures CollectStrings(es).Ok? <==> forall k :: 0 <= k < |es| && IsUtf8Entry(es[k]) ==> Unicode.WellFormedUtf8(Utf8Text(es[k]))
    decreases |es|
  {
    if es != [] {
      var init := es[..|es| - 1];
      CollectStringsFails(init);
      forall k | 0 <= k < |init|
        ensures init[k] == es[k]
      {
      }
    }
  }

  /** When the first pass succeeds, its keys are exactly the pool indexes of the Utf8 entries. */
  lemma {:induction false} CollectStringsKeys(es: seq<Entry>)
    requires CollectStrings(es).Ok?
    ensures forall i :: i in CollectStrings(es).value <==> exists k :: 0 <= k < |es| && IsUtf8Entry(es[k]) && es[k].poolIdx == i
    decreases |es|
  {
    if es != [] {
      var init := es[..|es| - 1];
      CollectStringsKeys(init);
      forall k | 0 <= k < |init|
        ensures init[k] == es[k]
      {
      }
    }
  }

  /** When the first pass succeeds, each index maps to the text of the last Utf8 entry with that index. */
  lemma {:induction false} CollectStringsValues(es: seq<Entry>)
    requires CollectStrings(es).Ok?
    ensures forall k :: 0 <= k < |es| && IsUtf8Entry(es[k]) && LastWithIndex(es, k) ==> MapsTo(CollectStrings(es).value, es[k].poolIdx, Utf8Text(es[k]))
    decreases |es|
  {
    if es != [] {
      var init := es[..|es| - 1];
      var e := es[|es| - 1];
      CollectStringsValues(init);
      var m := CollectStrings(es).value;
      forall k | 0 <= k < |es| && IsUtf8Entry(es[k]) && LastWithIndex(es, k)
        ensures MapsTo(m, es[k].poolIdx, Utf8Text(es[k]))
      {
        if k < |init| {
          assert init[k] == es[k];
          forall j | k < j < |init|
            ensures !(IsUtf8Entry(init[j]) && init[j].poolIdx == init[k].poolIdx)
          {
            assert init[j] == es[j];
          }
          assert LastWithIndex(init, k);
        }
      }
    }
  }

  predicate MapsTo(m: map<nat, seq<Byte>>, i: nat, text: seq<Byte>)
  {
    i in m && m[i] == text
  }

  /** No Utf8 entry after the `k`th has its pool index. */
  predicate LastWithIndex(es: seq<Entry>, k: nat)
    requires k < |es|
  {
    forall j :: k < j < |es| ==> !(IsUtf8Entry(es[j]) && es[j].poolIdx == es[k].poolIdx)
  }

  /** A class entry whose value, exactly one u16, is the index of a string equal to `name`. */
  predicate NamesClass(e: Entry, strings: map<nat, seq<Byte>>, name: seq<Byte>)
  {
    e.tag == 7 && |e.value| == 2 && U16(e.value[0], e.value[1]) in strings && strings[U16(e.value[0], e.value[1])] == name
  }

  /**
   * The second pass: the pool indexes of the class entries named
   * `java/lang/Object` and `org/apache/solr/core/CloseHook`, the last one
   * of each winning. Unpacking a class entry that is not exactly two bytes
   * raises struct.error.
   */
  function FindClasses(es: seq<Entry>, strings: map<nat, seq<Byte>>): (r: Result<(Option<nat>, Option<nat>)>)
    decreases |es|
  {
    if es == [] then Ok((None, None))
    else
      var prev := FindClasses(es[..|es| - 1], strings);
      var e := es[|es| - 1];
      if prev.Err? || e.tag != 7 then prev
      else if |e.value| != 2 then Err("struct.error")
      else
        var nameIdx := U16(e.value[0], e.value[1]);
        if nameIdx !in strings then prev
        else if strings[nameIdx] == ObjectName then Ok((Some(e.poolIdx), prev.value.1))
        else if strings[nameIdx] == CloseHookName then Ok((prev.value.0, Some(e.poolIdx)))
        else prev
  }

  /** The `k`th entry names class `name`, and no later one does. */
  predicate LastNaming(es: seq<Entry>, strings: map<nat, seq<Byte>>, name: seq<Byte>, k: nat)
    requires k < |es|
  {
    NamesClass(es[k], strings, name) && forall j :: k < j < |es| ==> !NamesClass(es[j], strings, name)
  }

  /** The index `FindClasses` reports for `name`, one of the two class names it looks for. */
  function FoundFor(found: (Option<nat>, Option<nat>), name: seq<Byte>): Option<nat>
  {
    if name == ObjectName then found.0 else found.1
  }

  /**
   * The second pass fails exactly when some class entry is not two bytes
   * long; otherwise, for either name, it reports a pool index exactly when a
   * class entry names it, and then the index of the last such entry.
   */
  lemma {:induction false} FindClassesFindsLast(es: seq<Entry>, strings: map<nat, seq<Byte>>, name: seq<Byte>)
    requires name == ObjectName || name == CloseHookName
    ensures var r := FindClasses(es, strings);
      r.Ok? <==> forall k :: 0 <= k < |es| && es[k].tag == 7 ==> |es[k].value| == 2
    ensures var r := FindClasses(es, strings);
      r.Ok? ==> (FoundFor(r.value, name).Some? <==> exists k :: 0 <= k < |es| && NamesClass(es[k], strings, name))
    ensures var r := FindClasses(es, strings);
      r.Ok? && FoundFor(r.value, name).Some? ==>
        exists k :: 0 <= k < |es| && LastNaming(es, strings, name, k) && es[k].poolIdx == FoundFor(r.value, name).value
    decreases |es|
  {
    assert |ObjectName| != |CloseHookName|;
    if es != [] {
      var init := es[..|es| - 1];
      var last := |es| - 1;
      FindClassesFindsLast(init, strings, name);
      forall k | 0 <= k < |init|
        ensures init[k] == es[k]
      {
      }
      var r := FindClasses(es, strings);
      if r.Ok? && NamesClass(es[last], strings, name) {
        assert FoundFor(r.value, name) == Some(es[last].poolIdx);
      } else if r.Ok? && FoundFor(r.value, name).Some? {
        var prev := FindClasses(init, strings);
        assert FoundFor(r.value, name) == FoundFor(prev.value, name);
        var k :| 0 <= k < |init| && LastNaming(init, strings, name, k) && init[k].poolIdx == FoundFor(prev.value, name).value;
        assert LastNaming(es, strings, name, k);
      }
    }
  }

  /** The third pass's state: the buffer, whether a constructor reference was retargeted, and where the pool ends. */
  datatype Retargeting = Retargeting(buf: seq<Byte>, patched: bool, afterPool: nat)

  /** A method reference (tag 10) whose class index, its first u16, is `objectIdx`. */
  predicate RefersTo(e: Entry, objectIdx: nat)
  {
    e.tag == 10 && |e.value| == 4 && U16(e.value[0], e.value[1]) == objectIdx
  }

  /**
   * One entry of the third pass: the end of the pool moves past the entry;
   * a method reference must unpack as two u16 (struct.error otherwise), and
   * if its class is `java/lang/Object` that class index is overwritten with
   * the index of `CloseHook`.
   */
  function RetargetOne(st: Retargeting, e: Entry, objectIdx: nat, hookIdx: nat): (r: Result<Retargeting>)
    ensures r.Ok? ==> r.value.afterPool == e.offset + |e.value| + 1
    ensures r.Ok? ==> (r.value.patched <==> st.patched || RefersTo(e, objectIdx))
  {
    var st := st.(afterPool := e.offset + |e.value| + 1);
    if e.tag != 10 then Ok(st)
    else if |e.value| != 4 then Err("struct.error")
    else if U16(e.value[0], e.value[1]) != objectIdx then Ok(st)
    else
      var packed := Pack16(hookIdx);
      if packed.Err? then Err(packed.error)
      else Ok(st.(buf := Splice(st.buf, e.offset + 1, e.offset + 3, packed.value), patched := true))
  }

  /** A method reference's class index is written inside its own entry: the bytes from `from` on are kept. */
  lemma {:induction false} RetargetOneKeepsTail(st: Retargeting, e: Entry, objectIdx: nat, hookIdx: nat, from: nat)
    requires RetargetOne(st, e, objectIdx, hookIdx).Ok? && from <= |st.buf|
    requires e.tag == 10 && |e.value| == 4 ==> e.offset + 5 <= from
    ensures var b := RetargetOne(st, e, objectIdx, hookIdx).value.buf;
      |b| == |st.buf| && b[from..] == st.buf[from..]
  {
  }

  /** The third pass over the entries `es`, starting from the unchanged file. */
  function Retarget(classfile: seq<Byte>, es: seq<Entry>, objectIdx: nat, hookIdx: nat): Result<Retargeting>
    decreases |es|
  {
    if es == [] then Ok(Retargeting(classfile, false, 0))
    else
      var prev := Retarget(classfile, es[..|es| - 1], objectIdx, hookIdx);
      if prev.Err? then prev else RetargetOne(prev.value, es[|es| - 1], objectIdx, hookIdx)
  }

  /** Byte `p` lies in the class index of an entry referring to `objectIdx`, where it holds that byte of `hook`. */
  predicate RetargetedByte(es: seq<Entry>, objectIdx: nat, hook: seq<Byte>, buf: seq<Byte>, p: nat)
    requires |hook| == 2 && p < |buf|
  {
    exists k :: 0 <= k < |es| && RefersTo(es[k], objectIdx) && es[k].offset + 1 <= p < es[k].offset + 3 && buf[p] == hook[p - es[k].offset - 1]
  }

  /** Every method reference's entry lies inside the file, as it does for the entries of a walk. */
  predicate RefsInside(classfile: seq<Byte>, es: seq<Entry>)
  {
    forall k :: 0 <= k < |es| && es[k].tag == 10 ==> es[k].offset + 1 + |es[k].value| <= |classfile|
  }

  /**
   * The third pass keeps the file's length and marks it patched exactly
   * when some method reference's class is `java/lang/Object`.
   */
  lemma {:induction false} RetargetKeepsLength(classfile: seq<Byte>, es: seq<Entry>, objectIdx: nat, hookIdx: nat)
    requires RefsInside(classfile, es)
    ensures var r := Retarget(classfile, es, objectIdx, hookIdx);
      r.Ok? ==> |r.value.buf| == |classfile| && (r.value.patched <==> exists k :: 0 <= k < |es| && RefersTo(es[k], objectIdx))
    decreases |es|
  {
    if es != [] {
      var init := es[..|es| - 1];
      forall k | 0 <= k < |init|
        ensures init[k] == es[k]
      {
      }
      RetargetKeepsLength(classfile, init, objectIdx, hookIdx);
    }
  }

  /** Each byte of `buf` is the file's, or lies in a retargeted class index. */
  predicate OnlyRetargeted(classfile: seq<Byte>, es: seq<Entry>, objectIdx: nat, hookIdx: nat, buf: seq<Byte>)
    requires hookIdx < 0x1_0000 && |buf| == |classfile|
  {
    forall p :: 0 <= p < |classfile| ==> buf[p] == classfile[p] || RetargetedByte(es, objectIdx, Be16(hookIdx), buf, p)
  }

  /**
   * The third pass changes no byte except within the class index of a
   * method reference whose class is `java/lang/Object`, which then holds
   * the index of `CloseHook`.
   */
  lemma {:induction false} RetargetChangesOnlyClassIndexes(classfile: seq<Byte>, es: seq<Entry>, objectIdx: nat, hookIdx: nat)
    requires hookIdx < 0x1_0000 && RefsInside(classfile, es)
    ensures var r := Retarget(classfile, es, objectIdx, hookIdx);
      r.Ok? ==> |r.value.buf| == |classfile| && OnlyRetargeted(classfile, es, objectIdx, hookIdx, r.value.buf)
    decreases |es|
  {
    RetargetKeepsLength(classfile, es, objectIdx, hookIdx);
    if es != [] {
      var init := es[..|es| - 1];
      var e := es[|es| - 1];
      forall k | 0 <= k < |init|
        ensures init[k] == es[k]
      {
      }
      RetargetChangesOnlyClassIndexes(classfile, init, objectIdx, hookIdx);
      var prev := Retarget(classfile, init, objectIdx, hookIdx);
      var r := Retarget(classfile, es, objectIdx, hookIdx);
      if r.Ok? {
        var hook := Be16(hookIdx);
        assert OnlyRetargeted(classfile, init, objectIdx, hookIdx, prev.value.buf);
        forall p | 0 <= p < |classfile|
          ensures r.value.buf[p] == classfile[p] || RetargetedByte(es, objectIdx, hook, r.value.buf, p)
        {
          if RefersTo(e, objectIdx) && e.offset + 1 <= p < e.offset + 3 {
            assert r.value.buf[p] == hook[p - e.offset - 1];
            assert RetargetedByte(es, objectIdx, hook, r.value.buf, p);
          } else {
            assert r.value.buf[p] == prev.value.buf[p];
            if prev.value.buf[p] != classfile[p] {
              var k :| 0 <= k < |init| && RefersTo(init[k], objectIdx) && init[k].offset + 1 <= p < init[k].offset + 3 && prev.value.buf[p] == hook[p - init[k].offset - 1];
              assert RetargetedByte(es, objectIdx, hook, r.value.buf, p);
            }
          }
        }
      }
    }
  }

  /**
   * The rewrite after the pool, whose end is `after`: the class must
   * implement exactly one interface (otherwise the file is returned
   * unchanged, `None`); then `super_class` (at `after + 4`) becomes
   * `CloseHook`, `interfaces_count` (at `after + 6`) becomes 0, and the one
   * interface index after it is deleted.
   */
  function DropInterface(buf: seq<Byte>, after: nat, hookIdx: nat): (r: Result<Option<seq<Byte>>>)
  {
    var ifaceCount := UnpackU16(buf, after + 6);
    if ifaceCount.Err? then Err(ifaceCount.error)
    else if ifaceCount.value != 1 then Ok(None)
    else
      var superClass := Pack16(hookIdx);
      if superClass.Err? then Err(superClass.error)
      else
        var ifacesIdx := after + 8;
        Ok(Some(Splice(Splice(Splice(buf, after + 4, after + 6, superClass.value), after + 6, ifacesIdx, [0, 0]), ifacesIdx, ifacesIdx + 2, [])))
  }

  /**
   * After the rewrite, the bytes before `super_class` are as they were,
   * `super_class` names `CloseHook`, `interfaces_count` is 0, the file is
   * two bytes shorter when the interface index was there, and what followed
   * the interface index follows `interfaces_count` directly.
   */
  lemma {:induction false} DropInterfaceRewrites(buf: seq<Byte>, after: nat, hookIdx: nat)
    requires DropInterface(buf, after, hookIdx).Ok? && DropInterface(buf, after, hookIdx).value.Some?
    ensures var out := DropInterface(buf, after, hookIdx).value.value;
      |out| == |buf| - (Min(after + 10, |buf|) - (after + 8))
      && out[..after + 4] == buf[..after + 4]
      && UnpackU16(out, after + 4) == Ok(hookIdx) && UnpackU16(out, after + 6) == Ok(0)
      && out[after + 8..] == buf[Min(after + 10, |buf|)..]
  {
    var hook := Be16(hookIdx);
    var b1 := Splice(buf, after + 4, after + 6, hook);
    var b2 := Splice(b1, after + 6, after + 8, [0, 0]);
    var cut := Min(after + 10, |buf|);
    var out := Splice(b2, after + 8, after + 10, []);
    assert |b1| == |buf| && |b2| == |buf|;
    assert out == b2[..after + 8] + b2[cut..];
    assert b2[..after + 6] == b1[..after + 6];
    assert b1[..after + 4] == buf[..after + 4];
    assert out[..after + 4] == buf[..after + 4] by {
      assert out[..after + 4] == b2[..after + 8][..after + 4] == b2[..after + 6][..after + 4];
      assert b1[..after + 6][..after + 4] == b1[..after + 4];
    }
    assert out[after + 4] == b2[after + 4] == b1[after + 4] == hook[0];
    assert out[after + 5] == b2[after + 5] == b1[after + 5] == hook[1];
    assert out[after + 6] == b2[after + 6] == 0;
    assert out[after + 7] == b2[after + 7] == 0;
    assert out[after + 8..] == b2[cut..] == b1[cut..] == buf[cut..];
  }

  /**
   * The first two passes of `patch_close_hook`: the class file check, the
   * strings of the pool, and the indexes of the two class entries.
   */
  function FindTargets(classfile: seq<Byte>, ix: Indexing): Result<(Option<nat>, Option<nat>)>
  {
    var invalid := CheckValidClassfile(classfile);
    if invalid.Some? then Err(invalid.value)
    else
      var w := Walk(classfile, ix);
      var strings := CollectStrings(w.entries);
      if strings.Err? then Err(strings.error)
      else if w.failure.Some? then Err(w.failure.value)
      else FindClasses(w.entries, strings.value)
  }

  /** `patch_close_hook`, with the walk reading pool indexes as `ix` says; a raised exception is an `Err`. */
  function CloseHookPatch(classfile: seq<Byte>, ix: Indexing): Result<seq<Byte>>
  {
    var found := FindTargets(classfile, ix);
    if found.Err? then Err(found.error)
    else if found.value.0.None? || found.value.1.None? then Ok(classfile)
    else
      var objectIdx, hookIdx := found.value.0.value, found.value.1.value;
      var rt := Retarget(classfile, Walk(classfile, ix).entries, objectIdx, hookIdx);
      if rt.Err? then Err(rt.error)
      else if !rt.value.patched then Ok(classfile)
      else
        var dropped := DropInterface(rt.value.buf, rt.value.afterPool, hookIdx);
        if dropped.Err? then Err(dropped.error)
        else if dropped.value.None? then Ok(classfile)
        else Ok(dropped.value.value)
  }

  /**
   * `patch_close_hook`. The first two passes read the walk of the unchanged
   * file; the third walks the buffer it is patching, as the generator does,
   * which reads each entry before any write at or after that entry.
   */
  method PatchCloseHook(classfile: seq<Byte>) returns (r: Result<seq<Byte>>)
    ensures r == CloseHookPatch(classfile, PerJvmSpec)
  {
    var found, entries := FindTargetsPasses(classfile);
    if found.Err? {
      return Err(found.error);
    }
    var objectIdx, closeHookIdx := found.value.0, found.value.1;
    if objectIdx.None? || closeHookIdx.None? {
      return Ok(classfile);
    }

    var retargeted := RetargetLive(classfile, entries, objectIdx.value, closeHookIdx.value);
    if retargeted.Err? {
      return Err(retargeted.error);
    }
    if !retargeted.value.patched {
      return Ok(classfile);
    }
    var dropped := DropInterfacePass(retargeted.value.buf, retargeted.value.afterPool, closeHookIdx.value);
    if dropped.Err? {
      return Err(dropped.error);
    }
    if dropped.value.None? {
      return Ok(classfile);
    }
    return Ok(dropped.value.value);
  }

  /** The end of `patch_close_hook`, rewriting the buffer after the pool, which ends at `afterPoolIdx`. */
  method DropInterfacePass(buf: seq<Byte>, afterPoolIdx: nat, closeHookIdx: nat) returns (r: Result<Option<seq<Byte>>>)
    ensures r == DropInterface(buf, afterPoolIdx, closeHookIdx)
  {
    var ifaceCount := UnpackU16(buf, afterPoolIdx + 6);
    if ifaceCount.Err? {
      return Err(ifaceCount.error);
    }
    if ifaceCount.value != 1 {
      return Ok(None);
    }
    var ifacesIdx := afterPoolIdx + 8;
    var superClass := Pack16(closeHookIdx);
    if superClass.Err? {
      return Err(superClass.error);
    }
    var out := Splice(buf, afterPoolIdx + 4, afterPoolIdx + 6, superClass.value);
    out := Splice(out, afterPoolIdx + 6, ifacesIdx, [0, 0]);
    out := Splice(out, ifacesIdx, ifacesIdx + 2, []);
    return Ok(Some(out));
  }

  /** The first two passes of `patch_close_hook`, and the entries of the walk they read. */
  method FindTargetsPasses(classfile: seq<Byte>) returns (found: Result<(Option<nat>, Option<nat>)>, entries: seq<Entry>)
    ensures found == FindTargets(classfile, PerJvmSpec)
    ensures found.Ok? ==> Walk(classfile, PerJvmSpec) == Walked(entries, None)
  {
    var invalid := CheckValidClassfile(classfile);
    if invalid.Some? {
      return Err(invalid.value), [];
    }
    var w := WalkConstantPool(classfile);
    entries := w.entries;
    var strings := CollectStringsPass(w.entries);
    if strings.Err? {
      return Err(strings.error), entries;
    }
    if w.failure.Some? {
      return Err(w.failure.value), entries;
    }
    found := FindClassesPass(w.entries, strings.value);
  }

  /**
   * The third pass of `patch_close_hook` as the generator runs it: each
   * entry is read from the buffer as patched so far, which differs from the
   * file only before that entry, so the pass sees the entries of the walk
   * of the unchanged file.
   */
  method RetargetLive(classfile: seq<Byte>, entries: seq<Entry>, objectIdx: nat, hookIdx: nat) returns (r: Result<Retargeting>)
    requires Walk(classfile, PerJvmSpec) == Walked(entries, None)
    ensures r == Retarget(classfile, entries, objectIdx, hookIdx)
  {
    var count := UnpackU16(classfile, 8).value;
    var buf := classfile;
    var patched := false;
    var afterPoolIdx: nat := 0;
    var at := Cursor(1, 10);
    ghost var done: seq<Entry> := [];
    while at.idx < count
      invariant entries == done + WalkFrom(classfile, PerJvmSpec, count, at).entries
      invariant WalkFrom(classfile, PerJvmSpec, count, at).failure.None?
      invariant Retarget(classfile, done, objectIdx, hookIdx) == Ok(Retargeting(buf, patched, afterPoolIdx))
      invariant |buf| == |classfile| && buf[Min(at.offset, |buf|)..] == classfile[Min(at.offset, |buf|)..]
      decreases count - at.idx
    {
      RetargetLiveStep(classfile, count, entries, done, at, buf, patched, afterPoolIdx, objectIdx, hookIdx);
      var step := Step(buf, PerJvmSpec, at);
      var entry, next := step.value.0, step.value.1;
      var st := RetargetOne(Retargeting(buf, patched, afterPoolIdx), entry, objectIdx, hookIdx);
      if st.Err? {
        RetargetStopsAtError(classfile, entries, objectIdx, hookIdx, |done| + 1);
        return st;
      }
      buf, patched, afterPoolIdx := st.value.buf, st.value.patched, st.value.afterPool;
      done := done + [entry];
      at := next;
    }
    assert entries == done;
    return Ok(Retargeting(buf, patched, afterPoolIdx));
  }

  /**
   * One step of the live third pass: the entry read from the buffer is the
   * next entry of the walk of the unchanged file, and the buffer after it
   * still agrees with the file from the next entry on.
   */
  lemma {:induction false} RetargetLiveStep(classfile: seq<Byte>, count: nat, entries: seq<Entry>, done: seq<Entry>, at: Cursor,
                                            buf: seq<Byte>, patched: bool, afterPool: nat, objectIdx: nat, hookIdx: nat)
    requires at.idx < count
    requires entries == done + WalkFrom(classfile, PerJvmSpec, count, at).entries
    requires WalkFrom(classfile, PerJvmSpec, count, at).failure.None?
    requires Retarget(classfile, done, objectIdx, hookIdx) == Ok(Retargeting(buf, patched, afterPool))
    requires |buf| == |classfile| && buf[Min(at.offset, |buf|)..] == classfile[Min(at.offset, |buf|)..]
    ensures Step(buf, PerJvmSpec, at).Ok?
    ensures var e, next := Step(buf, PerJvmSpec, at).value.0, Step(buf, PerJvmSpec, at).value.1;
      entries == (done + [e]) + WalkFrom(classfile, PerJvmSpec, count, next).entries
      && WalkFrom(classfile, PerJvmSpec, count, next).failure.None? && next.idx > at.idx
      && entries[..|done| + 1] == done + [e]
    ensures var e, next := Step(buf, PerJvmSpec, at).value.0, Step(buf, PerJvmSpec, at).value.1;
      var st := RetargetOne(Retargeting(buf, patched, afterPool), e, objectIdx, hookIdx);
      Retarget(classfile, done + [e], objectIdx, hookIdx) == st
      && (st.Ok? ==> |st.value.buf| == |classfile| && st.value.buf[Min(next.offset, |buf|)..] == classfile[Min(next.offset, |buf|)..])
  {
    StepFrame(buf, classfile, PerJvmSpec, at);
    var step := Step(buf, PerJvmSpec, at);
    var e, next := step.value.0, step.value.1;
    var rest := WalkFrom(classfile, PerJvmSpec, count, next).entries;
    assert entries == (done + [e]) + rest;
    assert (done + [e])[..|done|] == done;
    var st := RetargetOne(Retargeting(buf, patched, afterPool), e, objectIdx, hookIdx);
    if st.Ok? {
      RetargetOneKeepsTail(Retargeting(buf, patched, afterPool), e, objectIdx, hookIdx, Min(next.offset, |buf|));
    }
  }

  /** The first pass of `patch_close_hook`. */
  method CollectStringsPass(entries: seq<Entry>) returns (r: Result<map<nat, seq<Byte>>>)
    ensures r == CollectStrings(entries)
  {
    var strings: map<nat, seq<Byte>> := map[];
    for k := 0 to |entries|
      invariant CollectStrings(entries[..k]) == Ok(strings)
    {
      var e := entries[k];
      assert entries[..k + 1][..k] == entries[..k];
      if e.tag != 1 {
        continue;
      }
      var text := Utf8Text(e);
      if !Unicode.WellFormedUtf8(text) {
        CollectStringsStopsAtError(entries, k + 1);
        return Err("UnicodeDecodeError");
      }
      strings := strings[e.poolIdx := text];
    }
    assert entries[..|entries|] == entries;
    return Ok(strings);
  }

  /** The second pass of `patch_close_hook`. */
  method FindClassesPass(entries: seq<Entry>, strings: map<nat, seq<Byte>>) returns (r: Result<(Option<nat>, Option<nat>)>)
    ensures r == FindClasses(entries, strings)
  {
    var objectIdx: Option<nat>, closeHookIdx: Option<nat> := None, None;
    for k := 0 to |entries|
      invariant FindClasses(entries[..k], strings) == Ok((objectIdx, closeHookIdx))
    {
      var e := entries[k];
      assert entries[..k + 1][..k] == entries[..k];
      if e.tag != 7 {
        continue;
      }
      if |e.value| != 2 {
        FindClassesStopsAtError(entries, strings, k + 1);
        return Err("struct.error");
      }
      var nameIdx := U16(e.value[0], e.value[1]);
      if nameIdx !in strings {
        continue;
      }
      if strings[nameIdx] == ObjectName {
        objectIdx := Some(e.poolIdx);
      } else if strings[nameIdx] == CloseHookName {
        closeHookIdx := Some(e.poolIdx);
      }
    }
    assert entries[..|entries|] == entries;
    return Ok((objectIdx, closeHookIdx));
  }

  /** An exception in the first pass ends it: the pass over more entries raises the same. */
  lemma {:induction false} CollectStringsStopsAtError(es: seq<Entry>, k: nat)
    requires k <= |es| && CollectStrings(es[..k]).Err?
    ensures CollectStrings(es) == CollectStrings(es[..k])
    decreases |es| - k
  {
    if k < |es| {
      assert es[..k + 1][..k] == es[..k];
      CollectStringsStopsAtError(es, k + 1);
    } else {
      assert es[..k] == es;
    }
  }

  /** An exception in the second pass ends it. */
  lemma {:induction false} FindClassesStopsAtError(es: seq<Entry>, strings: map<nat, seq<Byte>>, k: nat)
    requires k <= |es| && FindClasses(es[..k], strings).Err?
    ensures FindClasses(es, strings) == FindClasses(es[..k], strings)
    decreases |es| - k
  {
    if k < |es| {
      assert es[..k + 1][..k] == es[..k];
      FindClassesStopsAtError(es, strings, k + 1);
    } else {
      assert es[..k] == es;
    }
  }

  /** An exception in the third pass ends it. */
  lemma {:induction false} RetargetStopsAtError(classfile: seq<Byte>, es: seq<Entry>, objectIdx: nat, hookIdx: nat, k: nat)
    requires k <= |es| && Retarget(classfile, es[..k], objectIdx, hookIdx).Err?
    ensures Retarget(classfile, es, objectIdx, hookIdx) == Retarget(classfile, es[..k], objectIdx, hookIdx)
    decreases |es| - k
  {
    if k < |es| {
      assert es[..k + 1][..k] == es[..k];
      RetargetStopsAtError(classfile, es, objectIdx, hookIdx, k + 1);
    } else {
      assert es[..k] == es;
    }
  }

  /** Every entry a walk yields lies inside the file. */
  lemma {:induction false} WalkRefsInside(classfile: seq<Byte>, ix: Indexing)
    ensures RefsInside(classfile, Walk(classfile, ix).entries)
  {
    var w := Walk(classfile, ix);
    if CheckValidClassfile(classfile).None? && UnpackU16(classfile, 8).Ok? {
      WalkEntriesValid(classfile, ix, UnpackU16(classfile, 8).value, Cursor(1, 10));
      forall k | 0 <= k < |w.entries| && w.entries[k].tag == 10
        ensures w.entries[k].offset + 1 + |w.entries[k].value| <= |classfile|
      {
        var e := w.entries[k];
        assert Yielded(classfile, ix, e);
      }
    }
  }

  /**
   * `patch_close_hook` changes a file only when its constant pool walks
   * without error, names both `java/lang/Object` and `CloseHook` in class
   * entries, and holds a method reference whose class is the former; the
   * file then loses at most the two bytes of the deleted interface index.
   */
  lemma {:induction false} CloseHookPatchChanges(classfile: seq<Byte>, ix: Indexing)
    requires CloseHookPatch(classfile, ix).Ok? && CloseHookPatch(classfile, ix).value != classfile
    ensures Walk(classfile, ix).failure.None? && CollectStrings(Walk(classfile, ix).entries).Ok?
    ensures var es := Walk(classfile, ix).entries;
      var strings := CollectStrings(es).value;
      (exists k :: 0 <= k < |es| && NamesClass(es[k], strings, ObjectName))
      && (exists k :: 0 <= k < |es| && NamesClass(es[k], strings, CloseHookName))
    ensures var es := Walk(classfile, ix).entries;
      var found := FindClasses(es, CollectStrings(es).value);
      found.Ok? && found.value.0.Some? && exists k :: 0 <= k < |es| && RefersTo(es[k], found.value.0.value)
    ensures |classfile| - 2 <= |CloseHookPatch(classfile, ix).value| <= |classfile|
  {
    var es := Walk(classfile, ix).entries;
    var strings := CollectStrings(es).value;
    FindClassesFindsLast(es, strings, ObjectName);
    FindClassesFindsLast(es, strings, CloseHookName);
    var found := FindClasses(es, strings).value;
    var objectIdx, hookIdx := found.0.value, found.1.value;
    WalkRefsInside(classfile, ix);
    RetargetKeepsLength(classfile, es, objectIdx, hookIdx);
    var rt := Retarget(classfile, es, objectIdx, hookIdx).value;
    DropInterfaceRewrites(rt.buf, rt.afterPool, hookIdx);
  }

  // ---------------------------------------------------------------------
  // `patch_jar`, one archive member at a time

  predicate EndsWith(s: string, suffix: string)
  {
    |suffix| <= |s| && s[|s| - |suffix|..] == suffix
  }

  const ComponentClass: string := "OcrHighlightComponent$1.class"

  /** What `patch_jar` writes for the member `name`: class files get their package paths patched, the component's anonymous class its `CloseHook`. */
  function PatchJarEntry(name: string, data: seq<Byte>): Result<seq<Byte>>
  {
    PackageSubsValid();
    var paths := if EndsWith(name, ".class") then PatchPaths(data, PackageSubs) else Ok(data);
    if paths.Err? || !EndsWith(name, ComponentClass) then paths
    else CloseHookPatch(paths.value, PerJvmSpec)
  }

  /**
   * Members that are not class files are copied unchanged, and the
   * component's anonymous class, being a class file too, gets both patches.
   */
  lemma {:induction false} PatchJarEntryDispatch(name: string, data: seq<Byte>)
    ensures !EndsWith(name, ".class") ==> PatchJarEntry(name, data) == Ok(data)
    ensures EndsWith(name, ComponentClass) ==> EndsWith(name, ".class")
  {
    if EndsWith(name, ComponentClass) {
      assert name[|name| - 6..] == ComponentClass[|ComponentClass| - 6..];
    }
  }

  // ---------------------------------------------------------------------
  // Long and Double entries

  /**
   * A class file whose constant pool holds a single Long entry: by
   * section 4.4.5 of the Java Virtual Machine Specification it takes pool
   * indexes 1 and 2, so `constant_pool_count` is 3.
   */
  const LongOnlyClass: seq<Byte> := [0xCA, 0xFE, 0xBA, 0xBE, 0, 0, 0, 0x34, 0, 3, 5, 0, 0, 0, 0, 0, 0, 0, 1, 0, 0]

  /**
   * Advancing one index per entry, as `_walk_constant_pool` does, looks for
   * a second entry after the Long and reads the `access_flags` byte 0 as a
   * tag, which raises KeyError, so `patch_close_hook` fails on this file;
   * with two indexes per Long the walk yields the one entry and the file
   * passes unchanged.
   */
  lemma {:induction false} LongEntryMisread()
    ensures Walk(LongOnlyClass, AsWritten) == Walked([Entry(1, 5, LongOnlyClass[11..19], 10)], Some("KeyError"))
    ensures Walk(LongOnlyClass, PerJvmSpec) == Walked([Entry(1, 5, LongOnlyClass[11..19], 10)], None)
    ensures CloseHookPatch(LongOnlyClass, AsWritten) == Err("KeyError")
    ensures CloseHookPatch(LongOnlyClass, PerJvmSpec) == Ok(LongOnlyClass)
  {
    var cf := LongOnlyClass;
    assert CheckValidClassfile(cf).None?;
    assert UnpackU16(cf, 8) == Ok(3);
    var e := Entry(1, 5, cf[11..19], 10);
    assert SizeAt(cf, 10) == Ok(9);
    assert Step(cf, AsWritten, Cursor(1, 10)) == Ok((e, Cursor(2, 19)));
    assert Step(cf, PerJvmSpec, Cursor(1, 10)) == Ok((e, Cursor(3, 19)));
    assert SizeAt(cf, 19) == Err("KeyError");
    assert WalkFrom(cf, AsWritten, 3, Cursor(2, 19)) == Walked([], Some("KeyError"));
    assert WalkFrom(cf, PerJvmSpec, 3, Cursor(3, 19)) == Walked([], None);
    assert CollectStrings([e]) == Ok(map[]) by {
      assert [e][..0] == [];
    }
    assert FindClasses([e], map[]) == Ok((None, None)) by {
      assert [e][..0] == [];
    }
  }
}
