/**
 * The base of the source readers: the source is cut into sections of
 * `sectionSize` bytes, at most `maxCacheEntries` of which are kept in a
 * cache that evicts the least recently used one; strings are read either
 * as one char per byte through that cache, or as a UTF-8 byte window
 * trimmed so that it neither starts nor ends inside a multi-byte sequence.
 */
module BaseSourceReader {
  import opened Common
  import opened Unicode

  /** The length a read of `len` bytes from `start` is cut back to, so that it ends at the end of the source. */
  function ClippedLength(start: int, len: int, length: nat): int
  {
    if start + len > length then length - start else len
  }

  /** `Section`: bytes `[start, end)` of the source and their text. */
  datatype Section = Section(start: int, end: int, text: string)

  /** A cached section and the time it was last used. */
  datatype CachedSection = CachedSection(section: Section, lastUsed: nat)

  datatype AdjustDirection = Left | Right

  /** The marker of an unused entry of `cachedSectionIdxes`. */
  const Unused: int := -1

  /** `new String(bytes, 0, 0, n)`: each byte becomes the char with that value. */
  function Latin1(bytes: seq<Byte>): (s: string)
    ensures |s| == |bytes|
  {
    seq(|bytes|, i requires 0 <= i < |bytes| => bytes[i] as char)
  }

  /** Each char of `Latin1(bytes)` has the value of its byte, so no byte is lost. */
  lemma {:induction false} Latin1Chars(bytes: seq<Byte>)
    ensures forall i :: 0 <= i < |bytes| ==> Latin1(bytes)[i] as int == bytes[i]
    ensures forall other: seq<Byte> :: Latin1(other) == Latin1(bytes) ==> other == bytes
  {
    forall other: seq<Byte> | Latin1(other) == Latin1(bytes)
      ensures other == bytes
    {
      assert forall i :: 0 <= i < |bytes| ==> other[i] == Latin1(other)[i] as int;
    }
  }

  lemma {:induction false} Latin1Slice(bytes: seq<Byte>, i: nat, j: nat)
    requires i <= j <= |bytes|
    ensures Latin1(bytes)[i..j] == Latin1(bytes[i..j])
  {
  }

  lemma {:induction false} Latin1Append(a: seq<Byte>, b: seq<Byte>)
    ensures Latin1(a + b) == Latin1(a) + Latin1(b)
  {
  }

  /** `(int) Math.ceil((double) length / sectionSize)`. */
  function NumSections(length: nat, sectionSize: nat): nat
    requires sectionSize > 0
  {
    (length + sectionSize - 1) / sectionSize
  }

  lemma {:induction false} MulMono(x: int, y: int, d: nat)
    requires x <= y
    ensures x * d <= y * d
  {
    assert y * d == x * d + (y - x) * d;
  }

  /** The quotient is the one multiple of `d` at or below `a` within `d` of it. */
  lemma {:induction false} DivUnique(a: int, d: int, q: int)
    requires d > 0 && q * d <= a < q * d + d
    ensures a / d == q
  {
    var x := a / d;
    assert x * d <= a < x * d + d;
    assert (x + 1) * d == x * d + d && (q + 1) * d == q * d + d;
    if x < q {
      MulMono(x + 1, q, d);
    } else if q < x {
      MulMono(q + 1, x, d);
    }
  }

  lemma {:induction false} DivMonotone(a: int, b: int, d: int)
    requires 0 <= a <= b && d > 0
    ensures a / d <= b / d
  {
    var x, y := a / d, b / d;
    assert x * d <= a;
    assert b < y * d + d;
    assert (y + 1) * d == y * d + d;
    if y + 1 <= x {
      MulMono(y + 1, x, d);
    }
  }

  /** The section an offset falls into exists, starts at or before it and ends after it. */
  lemma {:induction false} SectionOfOffset(offset: nat, length: nat, sectionSize: nat)
    requires sectionSize > 0 && offset < length
    ensures var k := offset / sectionSize;
      && k < NumSections(length, sectionSize)
      && k * sectionSize <= offset < k * sectionSize + sectionSize
  {
    var k := offset / sectionSize;
    assert k * sectionSize <= offset < k * sectionSize + sectionSize;
    assert (k + 1) * sectionSize == k * sectionSize + sectionSize;
    DivUnique(offset + sectionSize, sectionSize, k + 1);
    DivMonotone(offset + sectionSize, length + sectionSize - 1, sectionSize);
  }

  /** Every section of the source starts inside it. */
  lemma {:induction false} SectionStartInside(k: nat, length: nat, sectionSize: nat)
    requires sectionSize > 0 && k < NumSections(length, sectionSize)
    ensures k * sectionSize < length
  {
    var q := NumSections(length, sectionSize);
    assert q * sectionSize <= length + sectionSize - 1;
    MulMono(k + 1, q, sectionSize);
    assert (k + 1) * sectionSize == k * sectionSize + sectionSize;
  }

  /** The section `k` of `data` as `getAsciiSection` reads it. */
  function SectionAt(data: seq<Byte>, sectionSize: nat, k: nat): (s: Section)
    requires k * sectionSize < |data|
    ensures s.start == k * sectionSize && s.end == Min(s.start + sectionSize, |data|)
    ensures |s.text| == s.end - s.start
  {
    var start := k * sectionSize;
    var end := Min(start + sectionSize, |data|);
    Section(start, end, Latin1(data[start..end]))
  }

  /** `sections` lists every section of the source, in order. */
  ghost predicate IsSectionTable(sections: seq<Section>, data: seq<Byte>, sectionSize: nat)
  {
    && sectionSize > 0 && |sections| == NumSections(|data|, sectionSize)
    && forall k :: 0 <= k < |sections| ==> k * sectionSize < |data| && sections[k] == SectionAt(data, sectionSize, k)
  }

  /** The table of the sections of `data`. */
  ghost function SectionsOf(data: seq<Byte>, sectionSize: nat): (r: seq<Section>)
    requires sectionSize > 0
    ensures IsSectionTable(r, data, sectionSize)
  {
    var n := NumSections(|data|, sectionSize);
    AllSectionsStartInside(|data|, sectionSize);
    seq(n, k requires 0 <= k < n => SectionAt(data, sectionSize, k))
  }

  lemma {:induction false} AllSectionsStartInside(length: nat, sectionSize: nat)
    requires sectionSize > 0
    ensures forall k :: 0 <= k < NumSections(length, sectionSize) ==> k * sectionSize < length
  {
    forall k | 0 <= k < NumSections(length, sectionSize)
      ensures k * sectionSize < length
    {
      SectionStartInside(k, length, sectionSize);
    }
  }

  /** Every offset of the source lies in the section `offset / sectionSize` of the table, which holds its bytes. */
  lemma {:induction false} SectionInTable(sections: seq<Section>, data: seq<Byte>, sectionSize: nat, offset: int)
    requires IsSectionTable(sections, data, sectionSize) && 0 <= offset < |data|
    ensures var k := offset / sectionSize;
      && 0 <= k < |sections| && k * sectionSize < |data|
      && sections[k].start <= offset < sections[k].end && HoldsBytes(data, sections[k])
  {
    var k := offset / sectionSize;
    SectionOfOffset(offset, |data|, sectionSize);
    assert sections[k] == SectionAt(data, sectionSize, k);
  }

  /** The section of the table that holds an offset is the one `offset / sectionSize` names. */
  lemma {:induction false} SectionHoldingOffset(sections: seq<Section>, data: seq<Byte>, sectionSize: nat, offset: int, k: int)
    requires IsSectionTable(sections, data, sectionSize) && 0 <= k < |sections|
    requires sections[k].start <= offset < sections[k].end
    ensures k == offset / sectionSize
  {
    assert k * sectionSize <= offset < k * sectionSize + sectionSize;
    DivUnique(offset, sectionSize, k);
  }

  // The sets the cache invariant counts.

  /** The filled slots of the cache. */
  function Filled(slots: seq<Option<CachedSection>>): set<int>
  {
    set s | 0 <= s < |slots| && slots[s].Some?
  }

  /** The entries of `cachedSectionIdxes` in use. */
  function UsedEntries(idxes: seq<int>): set<int>
  {
    set i | 0 <= i < |idxes| && idxes[i] != Unused
  }

  /** The sections `cachedSectionIdxes` lists. */
  function Listed(idxes: seq<int>): set<int>
  {
    set i | 0 <= i < |idxes| && idxes[i] != Unused :: idxes[i]
  }

  /** A set of indexes below `n` has at most `n` members, and all of them when it has `n`. */
  lemma {:induction false} SubsetOfRange(s: set<int>, n: nat)
    requires forall i :: i in s ==> 0 <= i < n
    ensures |s| <= n
    ensures |s| == n ==> forall i :: 0 <= i < n ==> i in s
    ensures (forall i :: 0 <= i < n ==> i in s) ==> |s| == n
  {
    if n > 0 {
      var rest := s - {n - 1};
      SubsetOfRange(rest, n - 1);
    } else {
      assert forall x :: x !in s;
    }
  }

  /** At most `|idxes|` entries are in use, and one is free when fewer are. */
  lemma {:induction false} UsedBound(idxes: seq<int>)
    ensures |UsedEntries(idxes)| <= |idxes|
    ensures |UsedEntries(idxes)| < |idxes| ==> exists i :: 0 <= i < |idxes| && idxes[i] == Unused
  {
    SubsetOfRange(UsedEntries(idxes), |idxes|);
    if |UsedEntries(idxes)| < |idxes| {
      var i :| 0 <= i < |idxes| && i !in UsedEntries(idxes);
    }
  }

  lemma {:induction false} NoneUsed(idxes: seq<int>)
    ensures (forall i :: 0 <= i < |idxes| ==> idxes[i] == Unused) ==> UsedEntries(idxes) == {}
  {
  }

  lemma {:induction false} FillSlot(slots: seq<Option<CachedSection>>, s: nat, c: CachedSection)
    requires s < |slots|
    ensures Filled(slots[s := Some(c)]) == Filled(slots) + {s}
  {
  }

  lemma {:induction false} EmptySlot(slots: seq<Option<CachedSection>>, s: nat)
    requires s < |slots|
    ensures Filled(slots[s := None]) == Filled(slots) - {s}
  {
  }

  lemma {:induction false} UseEntry(idxes: seq<int>, i: nat, k: int)
    requires i < |idxes| && idxes[i] == Unused && k != Unused
    ensures UsedEntries(idxes[i := k]) == UsedEntries(idxes) + {i}
    ensures Listed(idxes[i := k]) == Listed(idxes) + {k}
  {
    var after := idxes[i := k];
    assert k == after[i];
    forall x | x in Listed(after)
      ensures x in Listed(idxes) + {k}
    {
      var j :| 0 <= j < |after| && after[j] != Unused && after[j] == x;
      if j != i {
        assert idxes[j] == x;
      }
    }
    forall x | x in Listed(idxes)
      ensures x in Listed(after)
    {
      var j :| 0 <= j < |idxes| && idxes[j] != Unused && idxes[j] == x;
      assert after[j] == x;
    }
  }

  lemma {:induction false} FreeEntry(idxes: seq<int>, i: nat)
    requires i < |idxes| && idxes[i] != Unused
    requires forall j :: 0 <= j < |idxes| && j != i ==> idxes[j] != idxes[i]
    ensures UsedEntries(idxes[i := Unused]) == UsedEntries(idxes) - {i}
    ensures Listed(idxes[i := Unused]) == Listed(idxes) - {idxes[i]}
  {
    var after := idxes[i := Unused];
    forall x | x in Listed(after)
      ensures x in Listed(idxes) - {idxes[i]}
    {
      var j :| 0 <= j < |after| && after[j] != Unused && after[j] == x;
      assert idxes[j] == x;
    }
    forall x | x in Listed(idxes) - {idxes[i]}
      ensures x in Listed(after)
    {
      var j :| 0 <= j < |idxes| && idxes[j] != Unused && idxes[j] == x;
      assert after[j] == x;
    }
  }

  /** Every entry in use names a filled slot. */
  ghost predicate EntriesFilled(slots: seq<Option<CachedSection>>, idxes: seq<int>)
  {
    forall i :: 0 <= i < |idxes| ==> idxes[i] == Unused || (0 <= idxes[i] < |slots| && slots[idxes[i]].Some?)
  }

  /** No section is listed twice. */
  ghost predicate NoDuplicates(idxes: seq<int>)
  {
    forall i, j :: 0 <= i < |idxes| && 0 <= j < |idxes| ==> i == j || idxes[i] == Unused || idxes[i] != idxes[j]
  }

  /** The filled slots are the listed sections, and `used` counts both. */
  ghost predicate Counted(slots: seq<Option<CachedSection>>, idxes: seq<int>, used: int)
  {
    Filled(slots) == Listed(idxes) && used == |Filled(slots)| == |UsedEntries(idxes)|
  }

  /** Every cached section is the section of the source at its index, stamped before `clock`. */
  ghost predicate SectionsCurrent(slots: seq<Option<CachedSection>>, clock: nat, sections: seq<Section>)
  {
    forall s :: 0 <= s < |slots| && slots[s].Some? ==>
      s < |sections| && slots[s].value.section == sections[s] && slots[s].value.lastUsed < clock
  }

  /** The cache invariant, on the contents of the two arrays. */
  ghost predicate CacheInv(slots: seq<Option<CachedSection>>, idxes: seq<int>, used: int, clock: nat,
                           sections: seq<Section>)
  {
    && EntriesFilled(slots, idxes)
    && NoDuplicates(idxes)
    && Counted(slots, idxes, used)
    && SectionsCurrent(slots, clock, sections)
  }

  /** At most `|idxes|` sections are cached, and an entry is free when fewer are. */
  lemma {:induction false} CacheInvBound(slots: seq<Option<CachedSection>>, idxes: seq<int>, used: int, clock: nat,
                      sections: seq<Section>)
    requires CacheInv(slots, idxes, used, clock, sections)
    ensures 0 <= used <= |idxes|
    ensures used < |idxes| ==> exists i :: 0 <= i < |idxes| && idxes[i] == Unused
  {
    UsedBound(idxes);
  }

  /** Renewing the stamp of a cached section keeps the invariant. */
  lemma {:induction false} CacheInvTouch(slots: seq<Option<CachedSection>>, idxes: seq<int>, used: int, clock: nat,
                      sections: seq<Section>, k: nat)
    requires CacheInv(slots, idxes, used, clock, sections)
    requires k < |slots| && slots[k].Some?
    ensures CacheInv(slots[k := Some(slots[k].value.(lastUsed := clock))], idxes, used, clock + 1, sections)
  {
    var after := slots[k := Some(slots[k].value.(lastUsed := clock))];
    FillSlot(slots, k, slots[k].value.(lastUsed := clock));
    assert Filled(after) == Filled(slots);
    assert EntriesFilled(after, idxes);
    assert SectionsCurrent(after, clock + 1, sections);
  }

  /** Dropping a listed section from its slot and its entry keeps the invariant, with one fewer in use. */
  lemma {:induction false} CacheInvEvict(slots: seq<Option<CachedSection>>, idxes: seq<int>, used: int, clock: nat,
                      sections: seq<Section>, i: nat)
    requires CacheInv(slots, idxes, used, clock, sections)
    requires i < |idxes| && idxes[i] != Unused
    ensures CacheInv(slots[idxes[i] := None], idxes[i := Unused], used - 1, clock, sections)
  {
    EmptySlot(slots, idxes[i]);
    FreeEntry(idxes, i);
  }

  /** Caching the section `k` of the source in a free entry keeps the invariant, with one more in use. */
  lemma {:induction false} CacheInvInsert(slots: seq<Option<CachedSection>>, idxes: seq<int>, used: int, clock: nat,
                       sections: seq<Section>, i: nat, k: nat)
    requires CacheInv(slots, idxes, used, clock, sections)
    requires i < |idxes| && idxes[i] == Unused && k < |slots| && slots[k].None? && k < |sections|
    ensures CacheInv(slots[k := Some(CachedSection(sections[k], clock))], idxes[i := k],
                     used + 1, clock + 1, sections)
  {
    var c := CachedSection(sections[k], clock);
    assert k !in Listed(idxes) by {
      assert k !in Filled(slots);
    }
    InsertEntriesFilled(slots, idxes, i, k, c);
    InsertNoDuplicates(idxes, i, k);
    InsertCounted(slots, idxes, used, i, k, c);
    InsertSectionsCurrent(slots, clock, sections, k);
  }

  lemma {:induction false} InsertEntriesFilled(slots: seq<Option<CachedSection>>, idxes: seq<int>, i: nat, k: nat, c: CachedSection)
    requires EntriesFilled(slots, idxes) && i < |idxes| && k < |slots|
    ensures EntriesFilled(slots[k := Some(c)], idxes[i := k])
  {
  }

  lemma {:induction false} InsertNoDuplicates(idxes: seq<int>, i: nat, k: nat)
    requires NoDuplicates(idxes) && i < |idxes| && k !in Listed(idxes)
    ensures NoDuplicates(idxes[i := k])
  {
    forall j | 0 <= j < |idxes| && j != i && idxes[j] != Unused
      ensures idxes[j] != k
    {
      assert idxes[j] in Listed(idxes);
    }
  }

  lemma {:induction false} InsertCounted(slots: seq<Option<CachedSection>>, idxes: seq<int>, used: int, i: nat, k: nat, c: CachedSection)
    requires Counted(slots, idxes, used)
    requires i < |idxes| && idxes[i] == Unused && k < |slots| && slots[k].None?
    ensures Counted(slots[k := Some(c)], idxes[i := k], used + 1)
  {
    FillSlot(slots, k, c);
    UseEntry(idxes, i, k);
    assert k !in Filled(slots);
    assert i !in UsedEntries(idxes);
  }

  lemma {:induction false} InsertSectionsCurrent(slots: seq<Option<CachedSection>>, clock: nat, sections: seq<Section>, k: nat)
    requires SectionsCurrent(slots, clock, sections) && k < |slots| && k < |sections|
    ensures SectionsCurrent(slots[k := Some(CachedSection(sections[k], clock))], clock + 1, sections)
  {
  }

  /**
   * A reader over `data`, the bytes its `readBytes` delivers. The cache
   * arrays are made together with the reader.
   */
  class BaseSourceReader {
    const data: seq<Byte>
    const sectionSize: nat
    const maxCacheEntries: nat
    const copyBuf: array<Byte>
    /** One slot per section of the source; only the cached sections are filled. */
    const cache: array<Option<CachedSection>>
    /** The sections currently cached, `Unused` for a free entry. */
    const cachedSectionIdxes: array<int>
    /** The sections of the source, the values the cache may hold. */
    ghost const sections: seq<Section>
    var cacheSlotsUsed: int
    /** A logical clock standing for `System.nanoTime()`: each use stamps a section with it and advances it. */
    var clock: nat

    /** The shape of the arrays and the cache invariant over their contents. */
    ghost predicate Valid()
      reads this, cache, cachedSectionIdxes
    {
      && sectionSize > 0 && maxCacheEntries >= 1
      && copyBuf.Length == sectionSize
      && cache.Length == NumSections(|data|, sectionSize)
      && cachedSectionIdxes.Length == maxCacheEntries
      && IsSectionTable(sections, data, sectionSize)
      && CacheInv(cache[..], cachedSectionIdxes[..], cacheSlotsUsed, clock, sections)
    }

    /** The constructor together with `initializeCache`: every slot empty, every entry unused. */
    constructor (data: seq<Byte>, sectionSize: nat, maxCacheEntries: nat)
      requires sectionSize > 0 && maxCacheEntries >= 1
      ensures Valid()
      ensures this.data == data && this.sectionSize == sectionSize && this.maxCacheEntries == maxCacheEntries
      ensures Filled(cache[..]) == {} && cacheSlotsUsed == 0
      ensures fresh(cache) && fresh(cachedSectionIdxes) && fresh(copyBuf)
    {
      this.data := data;
      this.sectionSize := sectionSize;
      this.maxCacheEntries := maxCacheEntries;
      copyBuf := new Byte[sectionSize](_ => 0);
      cache := new Option<CachedSection>[NumSections(|data|, sectionSize)](_ => None);
      cachedSectionIdxes := new int[maxCacheEntries](_ => Unused);
      sections := SectionsOf(data, sectionSize);
      cacheSlotsUsed := 0;
      clock := 0;
      new;
      assert Filled(cache[..]) == {};
      NoneUsed(cachedSectionIdxes[..]);
      assert Listed(cachedSectionIdxes[..]) == {};
    }

    function Length(): nat
    {
      |data|
    }

    /**
     * `readBytes(dst, dstOffset, start, len)`: copies bytes of the source
     * from `start` into `dst` at `dstOffset` and returns how many; a reader
     * may deliver fewer than asked, but at least one.
     */
    method ReadBytes(dst: array<Byte>, dstOffset: nat, start: nat, len: nat) returns (n: nat)
      requires 0 < len && dstOffset + len <= dst.Length && start + len <= |data|
      modifies dst
      ensures 0 < n <= len
      ensures dst[dstOffset..dstOffset + n] == data[start..start + n]
      ensures dst[..dstOffset] == old(dst[..dstOffset]) && dst[dstOffset + n..] == old(dst[dstOffset + n..])
    {
      n :| 0 < n <= len;
      forall k | 0 <= k < n {
        dst[dstOffset + k] := data[start + k];
      }
    }

    /**
     * `purgeLeastRecentlyUsed`: when the cache is full, the section with
     * the oldest stamp is dropped from its slot and its entry.
     */
    method PurgeLeastRecentlyUsed() returns (ghost evicted: int, ghost entry: int)
      requires Valid()
      modifies this, cache, cachedSectionIdxes
      ensures Valid() && clock == old(clock)
      ensures old(cache.Length == 0 || cacheSlotsUsed < maxCacheEntries) ==>
        && cache[..] == old(cache[..]) && cachedSectionIdxes[..] == old(cachedSectionIdxes[..])
        && cacheSlotsUsed == old(cacheSlotsUsed)
      ensures old(cache.Length > 0 && cacheSlotsUsed >= maxCacheEntries) ==>
        && 0 <= evicted < cache.Length && old(cache[evicted]).Some?
        && (forall s :: 0 <= s < cache.Length && old(cache[s]).Some? ==>
              old(cache[evicted]).value.lastUsed <= old(cache[s]).value.lastUsed)
        && cache[..] == old(cache[..])[evicted := None]
        && 0 <= entry < cachedSectionIdxes.Length && old(cachedSectionIdxes[entry]) == evicted
        && cachedSectionIdxes[..] == old(cachedSectionIdxes[..])[entry := Unused]
        && cacheSlotsUsed == old(cacheSlotsUsed) - 1
    {
      evicted, entry := -1, -1;
      if cache.Length == 0 || cacheSlotsUsed < maxCacheEntries {
        return;
      }
      var oldestTimestamp := clock;
      var oldestIndex := -1;
      var idxOfOldestIndex := -1;
      var i := 0;
      while i < cachedSectionIdxes.Length
        invariant 0 <= i <= cachedSectionIdxes.Length
        invariant oldestIndex == -1 ==> oldestTimestamp == clock && forall j :: 0 <= j < i ==> cachedSectionIdxes[j] == Unused
        invariant oldestIndex != -1 ==>
          && 0 <= idxOfOldestIndex < i && cachedSectionIdxes[idxOfOldestIndex] == oldestIndex
          && 0 <= oldestIndex < cache.Length && cache[oldestIndex].Some?
          && cache[oldestIndex].value.lastUsed == oldestTimestamp
        invariant forall j :: 0 <= j < i && cachedSectionIdxes[j] != Unused ==>
          oldestTimestamp <= cache[cachedSectionIdxes[j]].value.lastUsed
      {
        var sectionIdx := cachedSectionIdxes[i];
        if sectionIdx != Unused && cache[sectionIdx].value.lastUsed < oldestTimestamp {
          oldestTimestamp := cache[sectionIdx].value.lastUsed;
          oldestIndex := sectionIdx;
          idxOfOldestIndex := i;
        }
        i := i + 1;
      }
      assert oldestIndex != -1 by {
        NoneUsed(cachedSectionIdxes[..]);
      }
      forall s | 0 <= s < cache.Length && cache[s].Some?
        ensures oldestTimestamp <= cache[s].value.lastUsed
      {
        assert s in Listed(cachedSectionIdxes[..]);
      }
      CacheInvEvict(cache[..], cachedSectionIdxes[..], cacheSlotsUsed, clock, sections, idxOfOldestIndex);
      cache[oldestIndex] := None;
      cachedSectionIdxes[idxOfOldestIndex] := Unused;
      cacheSlotsUsed := cacheSlotsUsed - 1;
      evicted, entry := oldestIndex, idxOfOldestIndex;
    }

    /**
     * The read loop of `getAsciiSection` and `readUtf8String`: `readBytes`
     * until `len` bytes from `start` are in `dst`.
     */
    method ReadFully(dst: array<Byte>, start: nat, len: nat)
      requires len <= dst.Length && start + len <= |data|
      modifies dst
      ensures dst[..len] == data[start..start + len]
    {
      var numRead := 0;
      while numRead < len
        invariant 0 <= numRead <= len
        invariant dst[..numRead] == data[start..start + numRead]
      {
        var n := ReadBytes(dst, numRead, start + numRead, len - numRead);
        SliceSplit(dst[..], 0, numRead, numRead + n);
        SliceSplit(data, start, start + numRead, start + numRead + n);
        assert dst[..numRead + n] == dst[0..numRead + n];
        numRead := numRead + n;
      }
    }

    /** The bytes of section `k` read into `copyBuf`. */
    method ReadSection(k: nat) returns (section: Section)
      requires sectionSize > 0 && copyBuf.Length == sectionSize && k * sectionSize < |data|
      modifies copyBuf
      ensures section == SectionAt(data, sectionSize, k)
    {
      ghost var expected := SectionAt(data, sectionSize, k);
      var startOffset := k * sectionSize;
      var readLen := Min(sectionSize, Length() - startOffset);
      assert expected.start == startOffset && expected.end == startOffset + readLen;
      ReadFully(copyBuf, startOffset, readLen);
      section := Section(startOffset, startOffset + readLen, Latin1(copyBuf[..readLen]));
      assert section.text == expected.text;
    }

    /**
     * The insertion of `getAsciiSection`: the first free entry of
     * `cachedSectionIdxes` takes `k`, and slot `k` the section, stamped
     * with the clock.
     */
    method CacheSection(k: nat, section: Section)
      requires Valid() && k < cache.Length && cache[k].None? && cacheSlotsUsed < maxCacheEntries
      requires section == sections[k]
      modifies this, cache, cachedSectionIdxes
      ensures Valid() && clock == old(clock) + 1 && cacheSlotsUsed == old(cacheSlotsUsed) + 1
      ensures cache[..] == old(cache[..])[k := Some(CachedSection(section, old(clock)))]
      ensures exists i ::
        && 0 <= i < cachedSectionIdxes.Length && old(cachedSectionIdxes[i]) == Unused
        && cachedSectionIdxes[..] == old(cachedSectionIdxes[..])[i := k]
    {
      CacheInvBound(cache[..], cachedSectionIdxes[..], cacheSlotsUsed, clock, sections);
      var i := 0;
      while i < cachedSectionIdxes.Length && cachedSectionIdxes[i] != Unused
        invariant 0 <= i <= cachedSectionIdxes.Length
        invariant forall j :: 0 <= j < i ==> cachedSectionIdxes[j] != Unused
      {
        i := i + 1;
      }
      CacheInvInsert(cache[..], cachedSectionIdxes[..], cacheSlotsUsed, clock, sections, i, k);
      cachedSectionIdxes[i] := k;
      cache[k] := Some(CachedSection(section, clock));
      cacheSlotsUsed := cacheSlotsUsed + 1;
      clock := clock + 1;
    }

    /**
     * `getAsciiSection`: the section holding `offset`, from the cache when
     * it is there (its stamp renewed), otherwise read from the source and
     * cached, evicting the least recently used section when the cache is
     * full; an offset outside the source is an error.
     */
    method GetAsciiSection(offset: int) returns (r: Result<Section>, ghost k: int)
      requires Valid()
      modifies this, cache, cachedSectionIdxes, copyBuf
      ensures Valid()
      ensures r.Err? <==> offset < 0 || offset >= |data|
      ensures r.Ok? ==>
        && 0 <= k < cache.Length && r.value == sections[k]
        && HoldsBytes(data, r.value) && r.value.start <= offset < r.value.end
        && cache[k] == Some(CachedSection(r.value, old(clock)))
        && (old(cache[k]).Some? ==>
              && cache[..] == old(cache[..])[k := cache[k]]
              && cachedSectionIdxes[..] == old(cachedSectionIdxes[..])
              && cacheSlotsUsed == old(cacheSlotsUsed))
        && (old(cache[k]).None? ==>
              cacheSlotsUsed == if old(cacheSlotsUsed) == maxCacheEntries then old(cacheSlotsUsed) else old(cacheSlotsUsed) + 1)
      ensures r.Err? ==> cache[..] == old(cache[..]) && cachedSectionIdxes[..] == old(cachedSectionIdxes[..])
    {
      k := -1;
      if offset < 0 {
        return Err("IllegalArgumentException"), k;
      }
      if offset >= Length() {
        return Err("IllegalArgumentException"), k;
      }
      var sectionIndex := offset / sectionSize;
      SectionInTable(sections, data, sectionSize, offset);
      k := sectionIndex;
      var section;
      if cache[sectionIndex].Some? {
        section := UseCached(sectionIndex);
      } else {
        section := LoadSection(sectionIndex);
      }
      return Ok(section), k;
    }

    /** The cache hit of `getAsciiSection`: the stamp of slot `k` is renewed and its section returned. */
    method UseCached(k: nat) returns (section: Section)
      requires Valid() && k < cache.Length && cache[k].Some?
      modifies this, cache
      ensures Valid() && clock == old(clock) + 1 && cacheSlotsUsed == old(cacheSlotsUsed)
      ensures section == old(cache[k]).value.section
      ensures cache[..] == old(cache[..])[k := Some(CachedSection(section, old(clock)))]
    {
      var hit := cache[k].value;
      CacheInvTouch(cache[..], cachedSectionIdxes[..], cacheSlotsUsed, clock, sections, k);
      cache[k] := Some(hit.(lastUsed := clock));
      clock := clock + 1;
      section := hit.section;
    }

    /**
     * The cache miss of `getAsciiSection`: section `k` is read and cached,
     * after the least recently used section is evicted when the cache is full.
     */
    method LoadSection(k: nat) returns (section: Section)
      requires Valid() && k < cache.Length && cache[k].None?
      modifies this, cache, cachedSectionIdxes, copyBuf
      ensures Valid() && section == sections[k]
      ensures cache[k] == Some(CachedSection(section, old(clock)))
      ensures cacheSlotsUsed == if old(cacheSlotsUsed) == maxCacheEntries then old(cacheSlotsUsed) else old(cacheSlotsUsed) + 1
    {
      section := ReadSection(k);
      if cache.Length > 0 && cacheSlotsUsed == maxCacheEntries {
        ghost var evicted, entry := PurgeLeastRecentlyUsed();
      }
      CacheInvBound(cache[..], cachedSectionIdxes[..], cacheSlotsUsed, clock, sections);
      if cache.Length > 0 {
        CacheSection(k, section);
      }
    }

    /**
     * `readAsciiString(start, len)`: the bytes `[start, start + len)` as one
     * char each, clipped at the end of the source and read section by
     * section through the cache; a negative start, or a clipped length
     * below zero, is an error.
     */
    method ReadAsciiString(start: int, len: int) returns (r: Result<string>)
      requires Valid()
      modifies this, cache, cachedSectionIdxes, copyBuf
      ensures Valid()
      ensures start < 0 || ClippedLength(start, len, |data|) < 0 <==> r.Err?
      ensures start >= 0 && ClippedLength(start, len, |data|) >= 0 ==>
        r == Ok(Latin1(data[start..start + ClippedLength(start, len, |data|)]))
    {
      if start < 0 {
        return Err("IllegalArgumentException");
      }
      var len' := len;
      if start + len' > Length() {
        len' := Length() - start;
      }
      if len' < 0 {
        return Err("NegativeArraySizeException");
      }
      var sb := "";
      var numRead := 0;
      while numRead < len'
        invariant Valid()
        invariant 0 <= numRead <= len' && start + len' <= |data|
        invariant sb == Latin1(data[start..start + numRead])
        decreases len' - numRead
      {
        var part := ReadPart(start + numRead, len' - numRead);
        Latin1Grow(data, start, numRead, part, sb);
        sb := sb + part;
        numRead := numRead + |part|;
      }
      return Ok(sb);
    }

    /**
     * One round of the loop of `readAsciiString`: the text of the section
     * holding `at`, from `at` to the end of that section or `at + remaining`,
     * whichever comes first.
     */
    method ReadPart(at: int, remaining: int) returns (part: string)
      requires Valid() && 0 <= at && 0 < remaining && at + remaining <= |data|
      modifies this, cache, cachedSectionIdxes, copyBuf
      ensures Valid()
      ensures 0 < |part| <= remaining && part == Latin1(data[at..at + |part|])
    {
      var got;
      ghost var k;
      got, k := GetAsciiSection(at);
      var section := got.value;
      var sectionStart := at - section.start;
      var sectionEnd := Min(sectionStart + remaining, section.end - section.start);
      SectionSlice(data, section, at, sectionEnd - sectionStart);
      part := section.text[sectionStart..sectionEnd];
    }

    /**
     * `readUtf8String(start, byteLen)`: the bytes `[start, start + byteLen)`,
     * clipped at the end of the source, with the continuation bytes at the
     * front and an incomplete sequence at the back trimmed off; these are
     * the bytes handed to the UTF-8 decoder.
     */
    method ReadUtf8String(start: int, byteLen: int) returns (r: Result<seq<Byte>>)
      ensures start < 0 || ClippedLength(start, byteLen, |data|) < 0 ==> r.Err?
      ensures start >= 0 && ClippedLength(start, byteLen, |data|) >= 0 ==>
        r == Utf8Window(data[start..start + ClippedLength(start, byteLen, |data|)])
    {
      if start < 0 {
        return Err("IllegalArgumentException");
      }
      var len := byteLen;
      if start + len > Length() {
        len := Length() - start;
      }
      if len < 0 {
        return Err("NegativeArraySizeException");
      }
      ghost var bytes := data[start..start + len];
      assert bytes == data[start..start + ClippedLength(start, byteLen, |data|)];
      Utf8WindowErrors(bytes);
      var buf := new Byte[len](_ => 0);
      ReadFully(buf, start, len);
      assert buf[..] == bytes;
      var dataStart :- AdjustOffset(0, buf[..], Right);
      var dataEnd :- AdjustOffset(buf.Length - 1, buf[..], Left);
      Utf8WindowSteps(bytes, dataStart, dataEnd);
      if dataStart < 0 || dataEnd - dataStart + 1 < 0 {
        return Err("IndexOutOfBoundsException");
      }
      r := Ok(buf[dataStart..dataEnd + 1]);
    }
  }

  /** A section holds the bytes `[start, end)` of the source, one char each. */
  ghost predicate HoldsBytes(data: seq<Byte>, s: Section)
  {
    0 <= s.start <= s.end <= |data| && s.text == Latin1(data[s.start..s.end])
  }

  /** Cutting a section's text at positions inside it gives the bytes there. */
  lemma {:induction false} SectionSlice(data: seq<Byte>, s: Section, p: int, m: int)
    requires HoldsBytes(data, s) && s.start <= p && 0 <= m && p + m <= s.end
    ensures s.text[p - s.start..p - s.start + m] == Latin1(data[p..p + m])
  {
    Latin1Slice(data[s.start..s.end], p - s.start, p - s.start + m);
    SliceOfSlice(data, s.start, s.end, p - s.start, p - s.start + m);
  }

  lemma {:induction false} Latin1Extend(data: seq<Byte>, a: nat, b: nat, c: nat)
    requires a <= b <= c <= |data|
    ensures Latin1(data[a..b]) + Latin1(data[b..c]) == Latin1(data[a..c])
  {
    Latin1Append(data[a..b], data[b..c]);
    assert data[a..b] + data[b..c] == data[a..c];
  }

  /** The text read so far, followed by the next part, is the text of the longer run. */
  lemma {:induction false} Latin1Grow(data: seq<Byte>, start: nat, numRead: nat, part: string, sb: string)
    requires start + numRead + |part| <= |data|
    requires sb == Latin1(data[start..start + numRead])
    requires part == Latin1(data[start + numRead..start + numRead + |part|])
    ensures sb + part == Latin1(data[start..start + (numRead + |part|)])
  {
    Latin1Extend(data, start, start + numRead, start + numRead + |part|);
  }

  // The UTF-8 boundary search of `adjustOffset`.

  predicate IsAsciiByte(b: Byte) { b < 0x80 }

  predicate IsLeadByte(b: Byte) { b >= 0xC0 }

  /**
   * The length a lead byte announces, as the checks `b >> 5 == 0b110`,
   * `b >> 4 == 0b1110` and `b >> 3 == 0b11110` read it; 0 for any other byte.
   */
  function AnnouncedLength(b: Byte): nat
  {
    if b / 32 == 6 then 2 else if b / 16 == 14 then 3 else if b / 8 == 30 then 4 else 0
  }

  /** The first byte at or after `i` that is not a continuation byte, or -1. */
  function NextBoundary(buf: seq<Byte>, i: nat): (r: int)
    requires i <= |buf|
    ensures r == -1 || (i <= r < |buf| && !IsContinuation(buf[r]))
    ensures forall k :: i <= k < (if r == -1 then |buf| else r) ==> IsContinuation(buf[k])
    decreases |buf| - i
  {
    if i == |buf| then -1 else if !IsContinuation(buf[i]) then i else NextBoundary(buf, i + 1)
  }

  /** The last byte before `i` that is not a continuation byte, or -1. */
  function BoundaryBefore(buf: seq<Byte>, i: nat): (p: int)
    requires i <= |buf|
    ensures -1 <= p < i
    ensures p >= 0 ==> !IsContinuation(buf[p])
    ensures forall k :: p < k < i ==> IsContinuation(buf[k])
  {
    if i == 0 then -1 else if !IsContinuation(buf[i - 1]) then i - 1 else BoundaryBefore(buf, i - 1)
  }

  /**
   * The backward scan of `adjustOffset(offset, buf, LEFT)` from the byte
   * before `offset`: a plain byte ends the text there, a lead byte keeps
   * `offset` when its sequence ends exactly at `offset` and otherwise ends
   * the text just before it; running off the front is an index error.
   */
  function ScanBack(buf: seq<Byte>, offset: nat): Result<int>
    requires offset < |buf|
  {
    var p := BoundaryBefore(buf, offset);
    if p < 0 then Err("ArrayIndexOutOfBoundsException")
    else if IsAsciiByte(buf[p]) then Ok(p)
    else if AnnouncedLength(buf[p]) == offset - p + 1 then Ok(offset)
    else Ok(p - 1)
  }

  /** `adjustOffset(offset, buf, LEFT)` as written: a lead byte at `offset` itself is not looked at. */
  function AdjustLeftAsWritten(buf: seq<Byte>, offset: nat): Result<int>
    requires offset < |buf|
  {
    if IsAsciiByte(buf[offset]) then Ok(offset) else ScanBack(buf, offset)
  }

  /** `adjustOffset(offset, buf, LEFT)` with a lead byte at `offset` dropped as the incomplete sequence it starts. */
  function AdjustLeft(buf: seq<Byte>, offset: nat): Result<int>
    requires offset < |buf|
  {
    if IsAsciiByte(buf[offset]) then Ok(offset)
    else if IsLeadByte(buf[offset]) then Ok(offset - 1)
    else ScanBack(buf, offset)
  }

  /**
   * `adjustOffset`: RIGHT moves to the first byte that is not a
   * continuation byte (-1 when there is none); LEFT moves back to the last
   * byte that ends a complete sequence. An offset outside the buffer is
   * an index error.
   */
  method AdjustOffset(offset: int, buf: seq<Byte>, direction: AdjustDirection) returns (r: Result<int>)
    ensures !(0 <= offset < |buf|) ==> r == Err("ArrayIndexOutOfBoundsException")
    ensures 0 <= offset < |buf| && direction == Right ==> r == Ok(NextBoundary(buf, offset))
    ensures 0 <= offset < |buf| && direction == Left ==> r == AdjustLeft(buf, offset)
  {
    if !(0 <= offset < |buf|) {
      return Err("ArrayIndexOutOfBoundsException");
    }
    var at := offset;
    var b := buf[at];
    if direction == Right {
      while b / 64 == 2
        invariant offset <= at < |buf| && b == buf[at]
        invariant NextBoundary(buf, offset) == NextBoundary(buf, at)
        decreases |buf| - at
      {
        at := at + 1;
        if at >= |buf| {
          return Ok(-1);
        }
        b := buf[at];
      }
      return Ok(at);
    }
    var hiBits := b / 64;
    if hiBits != 3 && hiBits != 2 {
      return Ok(at);
    }
    if hiBits == 3 {
      return Ok(at - 1);
    }
    var shift := 0;
    while at - shift >= 0
      invariant 0 <= shift <= at
      invariant forall k :: at - shift <= k <= at ==> IsContinuation(buf[k])
      invariant BoundaryBefore(buf, at) == BoundaryBefore(buf, at - shift)
      decreases at - shift
    {
      shift := shift + 1;
      if at - shift < 0 {
        return Err("ArrayIndexOutOfBoundsException");
      }
      b := buf[at - shift];
      hiBits := b / 64;
      if hiBits == 3 {
        if b / 32 == 6 && shift == 1 {
          return Ok(at);
        } else if b / 16 == 14 && shift == 2 {
          return Ok(at);
        } else if b / 8 == 30 && shift == 3 {
          return Ok(at);
        } else {
          return Ok(at - shift - 1);
        }
      } else if hiBits < 2 {
        return Ok(at - shift);
      }
    }
    return Ok(at);
  }

  /** The trimmed window `readUtf8String` hands to the decoder. */
  function Utf8Window(bytes: seq<Byte>): Result<seq<Byte>>
  {
    if bytes == [] then Err("ArrayIndexOutOfBoundsException")
    else
      var dataStart := NextBoundary(bytes, 0);
      var dataEnd :- AdjustLeft(bytes, |bytes| - 1);
      if dataStart < 0 || dataEnd - dataStart + 1 < 0 then Err("IndexOutOfBoundsException")
      else Ok(bytes[dataStart..dataEnd + 1])
  }

  lemma {:induction false} Utf8WindowErrors(bytes: seq<Byte>)
    ensures bytes == [] ==> Utf8Window(bytes) == Err("ArrayIndexOutOfBoundsException")
    ensures bytes != [] && AdjustLeft(bytes, |bytes| - 1).Err? ==> Utf8Window(bytes) == Err(AdjustLeft(bytes, |bytes| - 1).error)
  {
  }

  lemma {:induction false} Utf8WindowSteps(bytes: seq<Byte>, dataStart: int, dataEnd: int)
    requires bytes != [] && dataStart == NextBoundary(bytes, 0) && AdjustLeft(bytes, |bytes| - 1) == Ok(dataEnd)
    ensures Utf8Window(bytes) ==
      if dataStart < 0 || dataEnd - dataStart + 1 < 0 then Err("IndexOutOfBoundsException")
      else Ok(bytes[dataStart..dataEnd + 1])
  {
  }

  lemma {:induction false} AnnouncedLengthOfLead(cp: int)
    requires IsCodePoint(cp) && cp >= 0x80
    ensures AnnouncedLength(Utf8(cp)[0]) == |Utf8(cp)|
    ensures IsLeadByte(Utf8(cp)[0])
  {
    if 0x1_0000 <= cp {
      assert cp / 64 / 64 / 64 <= 4;
    }
  }

  /** A complete sequence at the end is kept: LEFT leaves an offset on its last byte where it is. */
  lemma {:induction false} AdjustLeftKeepsComplete(buf: seq<Byte>, p: nat, cp: int)
    requires IsCodePoint(cp) && p + |Utf8(cp)| <= |buf| && buf[p..p + |Utf8(cp)|] == Utf8(cp)
    ensures AdjustLeft(buf, p + |Utf8(cp)| - 1) == Ok(p + |Utf8(cp)| - 1)
  {
    var e := Utf8(cp);
    var offset := p + |e| - 1;
    assert forall k :: 0 <= k < |e| ==> buf[p + k] == e[k];
    if cp >= 0x80 {
      AnnouncedLengthOfLead(cp);
      assert BoundaryBefore(buf, offset) == p by {
        BoundaryAt(buf, p, offset);
      }
    }
  }

  /**
   * A sequence cut short at the end is dropped: LEFT from its last byte
   * moves to the byte before its lead byte.
   */
  lemma {:induction false} AdjustLeftDropsTruncated(buf: seq<Byte>, p: nat, cp: int, n: nat)
    requires IsCodePoint(cp) && 1 <= n < |Utf8(cp)| && p + n <= |buf| && buf[p..p + n] == Utf8(cp)[..n]
    ensures AdjustLeft(buf, p + n - 1) == Ok(p - 1)
  {
    var e := Utf8(cp);
    var offset := p + n - 1;
    assert forall k :: 0 <= k < n ==> buf[p + k] == e[k];
    AnnouncedLengthOfLead(cp);
    assert buf[p] == e[0] && IsLeadByte(buf[p]) && !IsAsciiByte(buf[p]);
    if n > 1 {
      assert buf[offset] == e[n - 1] && IsContinuation(buf[offset]);
      BoundaryAt(buf, p, offset);
      assert ScanBack(buf, offset) == Ok(p - 1);
    }
  }

  /** With a non-continuation byte at `p` and only continuation bytes after it up to `i`, `p` is the boundary before `i`. */
  lemma {:induction false} BoundaryAt(buf: seq<Byte>, p: nat, i: nat)
    requires p < i <= |buf| && !IsContinuation(buf[p])
    requires forall k :: p < k < i ==> IsContinuation(buf[k])
    ensures BoundaryBefore(buf, i) == p
    decreases i
  {
    if i - 1 != p {
      BoundaryAt(buf, p, i - 1);
    }
  }

  /** As written, a complete two-byte sequence followed by a lone lead byte loses both. */
  lemma {:induction false} LoneLeadAsWritten()
    ensures AdjustLeftAsWritten([0xC3, 0xA9, 0xC3], 2) == Ok(-1)
    ensures AdjustLeft([0xC3, 0xA9, 0xC3], 2) == Ok(1)
  {
    assert BoundaryBefore([0xC3, 0xA9, 0xC3], 2) == 0 by {
      BoundaryAt([0xC3, 0xA9, 0xC3], 0, 2);
    }
  }

  /** Text that is whole UTF-8 from first to last byte comes through the window unchanged. */
  lemma {:induction false} Utf8WindowWhole(cps: seq<int>)
    requires cps != [] && forall k :: 0 <= k < |cps| ==> IsCodePoint(cps[k])
    ensures Utf8Window(Utf8All(cps)) == Ok(Utf8All(cps))
  {
    var last := |cps| - 1;
    var init, e := Utf8All(cps[..last]), Utf8(cps[last]);
    Utf8AllLast(cps);
    Utf8AllFirst(cps);
    SuffixOfConcat(init, e);
    WindowKeepsWhole(init + e, |init|, cps[last]);
  }

  /**
   * The window of well-formed text is what a UTF-8 decoder accepts whole:
   * it is well-formed UTF-8 (section 3.9 of the Unicode Standard), and the
   * string `readUtf8String` builds from it is the text's UTF-16 form.
   */
  lemma {:induction false} Utf8WindowWellFormed(cps: seq<int>)
    requires cps != [] && forall k :: 0 <= k < |cps| ==> IsCodePoint(cps[k]) && !IsSurrogate(cps[k])
    ensures Utf8Window(Utf8All(cps)) == Ok(Utf8All(cps)) && WellFormedUtf8(Utf8All(cps))
  {
    Utf8WindowWhole(cps);
    Utf8AllWellFormed(cps);
  }

  /** Text whose last character is cut short: the window holds the whole characters before it and nothing of the cut one. */
  lemma {:induction false} Utf8WindowDropsTruncated(cps: seq<int>, cp: int, n: nat)
    requires cps != [] && forall k :: 0 <= k < |cps| ==> IsCodePoint(cps[k])
    requires IsCodePoint(cp) && 1 <= n < |Utf8(cp)|
    ensures Utf8Window(Utf8All(cps) + Utf8(cp)[..n]) == Ok(Utf8All(cps))
  {
    var init := Utf8All(cps);
    var bytes := init + Utf8(cp)[..n];
    var p := |init|;
    assert bytes[p..p + n] == Utf8(cp)[..n];
    AdjustLeftDropsTruncated(bytes, p, cp, n);
    Utf8AllFirst(cps);
    assert bytes[0] == init[0];
    assert NextBoundary(bytes, 0) == 0;
    Utf8WindowSteps(bytes, 0, p - 1);
    assert bytes[0..p] == init;
  }

  /** A buffer that starts on a boundary and ends with a whole sequence is its own window. */
  lemma {:induction false} WindowKeepsWhole(bytes: seq<Byte>, p: nat, cp: int)
    requires IsCodePoint(cp) && p + |Utf8(cp)| == |bytes| && bytes[p..] == Utf8(cp)
    requires !IsContinuation(bytes[0])
    ensures Utf8Window(bytes) == Ok(bytes)
  {
    assert bytes[p..p + |Utf8(cp)|] == Utf8(cp);
    AdjustLeftKeepsComplete(bytes, p, cp);
    assert bytes[0..|bytes|] == bytes;
  }

  lemma {:induction false} Utf8AllFirst(cps: seq<int>)
    requires cps != [] && forall k :: 0 <= k < |cps| ==> IsCodePoint(cps[k])
    ensures Utf8All(cps) != [] && !IsContinuation(Utf8All(cps)[0])
  {
    var e := Utf8(cps[0]);
    assert Utf8All(cps) == e + Utf8All(cps[1..]);
    assert Utf8All(cps)[0] == e[0];
  }

  lemma {:induction false} Utf8AllLast(cps: seq<int>)
    requires cps != [] && forall k :: 0 <= k < |cps| ==> IsCodePoint(cps[k])
    ensures var last := |cps| - 1;
      Utf8All(cps) == Utf8All(cps[..last]) + Utf8(cps[last])
  {
    var last := |cps| - 1;
    SplitLast(cps);
    Utf8AllSnoc(cps[..last], cps[last]);
  }

  lemma {:induction false} Utf8AllSnoc(cps: seq<int>, cp: int)
    requires IsCodePoint(cp) && forall k :: 0 <= k < |cps| ==> IsCodePoint(cps[k])
    ensures Utf8All(cps + [cp]) == Utf8All(cps) + Utf8(cp)
  {
    if cps == [] {
      assert [cp][1..] == [];
    } else {
      assert (cps + [cp])[1..] == cps[1..] + [cp];
      Utf8AllSnoc(cps[1..], cp);
    }
  }
}
