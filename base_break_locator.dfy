/**
 * The shared part of the break locators: a last-occurrence search built
 * from forward searches, and the two range caches that remember, for
 * the offsets between two neighbouring breaks, which break follows and
 * which precedes them.
 *
 * The subclass hooks `getFollowing`/`getPreceding` are modelled by a
 * locator whose breaks are a sorted sequence of positions inside the
 * text: `getFollowing(x)` is the first break after `x` (the text length
 * when there is none) and `getPreceding(x)` the last break before `x`
 * (0 when there is none).
 */
module BaseBreakLocator {
  import opened Common

  /** `BreakLocator.DONE`, as in `java.text.BreakIterator`. */
  const Done: int := -1

  /**
   * `optimizedLastIndexOf`: walks the occurrences of `needle` from the
   * front and keeps the last one before `fromIdx`. The source's loop does
   * not end for an empty needle with `fromIdx` past the end of the
   * haystack, which the precondition excludes.
   */
  method OptimizedLastIndexOf(haystack: string, needle: string, fromIdx: int) returns (r: int)
    requires |needle| > 0 || fromIdx <= |haystack|
    ensures r == LastIndexOf(haystack, needle, fromIdx - 1)
  {
    var from := -1;
    var idx := IndexOf(haystack, needle, from + 1);
    while idx >= 0 && idx < fromIdx
      invariant from == -1 || (from < fromIdx && OccursAt(haystack, needle, from))
      invariant from <= LastIndexOf(haystack, needle, fromIdx - 1)
      invariant idx == IndexOf(haystack, needle, from + 1)
      decreases |haystack| - from
    {
      from := idx;
      idx := IndexOf(haystack, needle, from + 1);
    }
    r := from;
  }

  // The breaks of a locator.

  predicate Sorted(breaks: seq<int>)
  {
    forall i, j :: 0 <= i < j < |breaks| ==> breaks[i] < breaks[j]
  }

  /** Breaks are sorted and lie strictly inside the text. */
  predicate BreaksValid(breaks: seq<int>, length: nat)
  {
    Sorted(breaks) && forall b :: b in breaks ==> 0 < b < length
  }

  /** `getFollowing(x)`: the first break after `x`, or the text length. */
  function Next(breaks: seq<int>, length: nat, x: int): (r: int)
    requires Sorted(breaks)
    ensures (r in breaks && r > x && forall b :: b in breaks && b > x ==> r <= b)
         || (r == length && forall b :: b in breaks ==> b <= x)
  {
    if breaks == [] then length
    else if breaks[0] > x then breaks[0]
    else
      assert forall b :: b in breaks ==> b == breaks[0] || b in breaks[1..];
      Next(breaks[1..], length, x)
  }

  /** `getPreceding(x)`: the last break before `x`, or 0. */
  function Prev(breaks: seq<int>, x: int): (r: int)
    requires Sorted(breaks)
    ensures (r in breaks && r < x && forall b :: b in breaks && b < x ==> b <= r)
         || (r == 0 && forall b :: b in breaks ==> b >= x)
  {
    if breaks == [] then 0
    else if breaks[|breaks| - 1] < x then breaks[|breaks| - 1]
    else
      assert forall b :: b in breaks ==> b == breaks[|breaks| - 1] || b in breaks[..|breaks| - 1];
      Prev(breaks[..|breaks| - 1], x)
  }

  /** The positions that can end a gap: the text's two ends and the breaks. */
  predicate Bound(breaks: seq<int>, length: nat, x: int)
  {
    x == 0 || x == length || x in breaks
  }

  /** `[lo, hi]` spans two neighbouring bounds, with no break strictly between. */
  predicate Gap(breaks: seq<int>, length: nat, lo: int, hi: int)
  {
    lo < hi && Bound(breaks, length, lo) && Bound(breaks, length, hi)
    && forall b :: b in breaks ==> !(lo < b < hi)
  }

  /** Every offset of `[lo, hi)` in a gap has `hi` as its following break. */
  lemma {:induction false} GapNext(breaks: seq<int>, length: nat, lo: int, hi: int, x: int)
    requires BreaksValid(breaks, length) && Gap(breaks, length, lo, hi) && lo <= x < hi
    ensures Next(breaks, length, x) == hi
  {
    var n := Next(breaks, length, x);
    if n in breaks && n > x {
      assert n >= hi;
      if hi in breaks {
        assert n <= hi;
      }
    }
  }

  /** Every offset of `(lo, hi]` in a gap has `lo` as its preceding break. */
  lemma {:induction false} GapPrev(breaks: seq<int>, length: nat, lo: int, hi: int, x: int)
    requires BreaksValid(breaks, length) && Gap(breaks, length, lo, hi) && lo < x <= hi
    ensures Prev(breaks, x) == lo
  {
    var p := Prev(breaks, x);
    if p in breaks && p < x {
      assert p <= lo;
      if lo in breaks {
        assert lo <= p;
      }
    }
  }

  /** The last break at or before `x` and the first break after it span a gap, unless both are 0. */
  lemma {:induction false} AroundIsGap(breaks: seq<int>, length: nat, x: int)
    requires BreaksValid(breaks, length) && x < length
    ensures Prev(breaks, x + 1) <= Next(breaks, length, x)
    ensures Prev(breaks, x + 1) < Next(breaks, length, x) ==> Gap(breaks, length, Prev(breaks, x + 1), Next(breaks, length, x))
  {
  }

  /** The last break before `x` and the first break at or after it span a gap, unless the text is empty. */
  lemma {:induction false} BeforeIsGap(breaks: seq<int>, length: nat, x: int)
    requires BreaksValid(breaks, length) && x > 0
    ensures Prev(breaks, x) <= Next(breaks, length, x - 1)
    ensures Prev(breaks, x) < Next(breaks, length, x - 1) ==> Gap(breaks, length, Prev(breaks, x), Next(breaks, length, x - 1))
  {
  }

  // Guava's `TreeRangeMap<Integer, Integer>` restricted to what the locator uses.

  /** One stored range with its value. */
  datatype Entry = Entry(lo: int, hi: int, value: int)

  /** The forward cache holds `[lo, hi)` ranges, the backward cache `(lo, hi]` ranges. */
  datatype Bounds = ClosedOpen | OpenClosed

  predicate Holds(e: Entry, kind: Bounds, x: int)
  {
    if kind == ClosedOpen then e.lo <= x < e.hi else e.lo < x <= e.hi
  }

  /** `getEntry(x)`: the stored range holding `x`, if any. */
  function GetEntry(m: seq<Entry>, kind: Bounds, x: int): (r: Option<Entry>)
    ensures r.Some? ==> r.value in m && Holds(r.value, kind, x)
    ensures r.None? ==> forall e :: e in m ==> !Holds(e, kind, x)
  {
    if m == [] then None
    else if Holds(m[0], kind, x) then Some(m[0])
    else GetEntry(m[1..], kind, x)
  }

  /** What is left of a stored range once `lo..hi` is removed from it: up to two pieces with the same value. */
  function Pieces(e: Entry, lo: int, hi: int): seq<Entry>
  {
    (if e.lo < Min(e.hi, lo) then [Entry(e.lo, Min(e.hi, lo), e.value)] else [])
    + (if Max(e.lo, hi) < e.hi then [Entry(Max(e.lo, hi), e.hi, e.value)] else [])
  }

  /** `remove(range)`: every stored range is cut back to what lies outside `lo..hi`. */
  function Clip(m: seq<Entry>, lo: int, hi: int): seq<Entry>
  {
    if m == [] then [] else Pieces(m[0], lo, hi) + Clip(m[1..], lo, hi)
  }

  /** `put(range, value)`: an empty range changes nothing; otherwise the range replaces what it overlaps. */
  function Put(m: seq<Entry>, e: Entry): seq<Entry>
    requires e.lo <= e.hi
  {
    if e.lo == e.hi then m else Clip(m, e.lo, e.hi) + [e]
  }

  /** The value `get(x)` answers with. */
  function ValueAt(m: seq<Entry>, kind: Bounds, x: int): Option<int>
  {
    match GetEntry(m, kind, x)
    case None => None
    case Some(e) => Some(e.value)
  }

  lemma {:induction false} GetEntryAppend(a: seq<Entry>, b: seq<Entry>, kind: Bounds, x: int)
    ensures GetEntry(a + b, kind, x) == if GetEntry(a, kind, x).Some? then GetEntry(a, kind, x) else GetEntry(b, kind, x)
  {
    if a == [] {
      assert a + b == b;
    } else {
      assert (a + b)[0] == a[0] && (a + b)[1..] == a[1..] + b;
      GetEntryAppend(a[1..], b, kind, x);
    }
  }

  /** An offset outside the removed range keeps the value it had. */
  lemma {:induction false} ClipOutside(m: seq<Entry>, kind: Bounds, lo: int, hi: int, x: int)
    requires !Holds(Entry(lo, hi, 0), kind, x)
    ensures ValueAt(Clip(m, lo, hi), kind, x) == ValueAt(m, kind, x)
  {
    if m != [] {
      GetEntryAppend(Pieces(m[0], lo, hi), Clip(m[1..], lo, hi), kind, x);
      ClipOutside(m[1..], kind, lo, hi, x);
    }
  }

  /** An offset inside the removed range is no longer held by any range. */
  lemma {:induction false} ClipInside(m: seq<Entry>, kind: Bounds, lo: int, hi: int, x: int)
    requires Holds(Entry(lo, hi, 0), kind, x)
    ensures GetEntry(Clip(m, lo, hi), kind, x) == None
  {
    if m != [] {
      GetEntryAppend(Pieces(m[0], lo, hi), Clip(m[1..], lo, hi), kind, x);
      ClipInside(m[1..], kind, lo, hi, x);
    }
  }

  /** After `put(range, v)`, offsets in the range answer `v` and all others answer what they did before. */
  lemma {:induction false} PutGet(m: seq<Entry>, e: Entry, kind: Bounds, x: int)
    requires e.lo <= e.hi
    ensures Holds(e, kind, x) ==> ValueAt(Put(m, e), kind, x) == Some(e.value)
    ensures !Holds(e, kind, x) ==> ValueAt(Put(m, e), kind, x) == ValueAt(m, kind, x)
  {
    if e.lo < e.hi {
      GetEntryAppend(Clip(m, e.lo, e.hi), [e], kind, x);
      if Holds(e, kind, x) {
        ClipInside(m, kind, e.lo, e.hi, x);
      } else {
        ClipOutside(m, kind, e.lo, e.hi, x);
      }
    }
  }

  /** Forward entries are gaps mapped to their upper end. */
  ghost predicate ForwardSound(breaks: seq<int>, length: nat, m: seq<Entry>)
  {
    forall e :: e in m ==> Gap(breaks, length, e.lo, e.hi) && e.value == e.hi
  }

  /** Backward entries are gaps mapped to their lower end. */
  ghost predicate BackwardSound(breaks: seq<int>, length: nat, m: seq<Entry>)
  {
    forall e :: e in m ==> Gap(breaks, length, e.lo, e.hi) && e.value == e.lo
  }

  /** Two gaps never partly overlap, so cutting one gap out of another leaves it whole or removes it. */
  lemma {:induction false} PiecesOfGap(breaks: seq<int>, length: nat, e: Entry, lo: int, hi: int)
    requires BreaksValid(breaks, length)
    requires Gap(breaks, length, e.lo, e.hi) && Gap(breaks, length, lo, hi)
    ensures forall p :: p in Pieces(e, lo, hi) ==> p == e
  {
  }

  lemma {:induction false} ClipKeepsGaps(breaks: seq<int>, length: nat, m: seq<Entry>, lo: int, hi: int)
    requires BreaksValid(breaks, length) && Gap(breaks, length, lo, hi)
    requires forall e :: e in m ==> Gap(breaks, length, e.lo, e.hi)
    ensures forall p :: p in Clip(m, lo, hi) ==> p in m
  {
    if m != [] {
      PiecesOfGap(breaks, length, m[0], lo, hi);
      ClipKeepsGaps(breaks, length, m[1..], lo, hi);
    }
  }

  /** Putting a gap mapped to its upper end keeps the forward cache sound. */
  lemma {:induction false} PutForward(breaks: seq<int>, length: nat, m: seq<Entry>, lo: int, hi: int)
    requires BreaksValid(breaks, length) && ForwardSound(breaks, length, m)
    requires lo == hi || Gap(breaks, length, lo, hi)
    ensures ForwardSound(breaks, length, Put(m, Entry(lo, hi, hi)))
  {
    if lo < hi {
      ClipKeepsGaps(breaks, length, m, lo, hi);
    }
  }

  /** Putting a gap mapped to its lower end keeps the backward cache sound. */
  lemma {:induction false} PutBackward(breaks: seq<int>, length: nat, m: seq<Entry>, lo: int, hi: int)
    requires BreaksValid(breaks, length) && BackwardSound(breaks, length, m)
    requires lo == hi || Gap(breaks, length, lo, hi)
    ensures BackwardSound(breaks, length, Put(m, Entry(lo, hi, lo)))
  {
    if lo < hi {
      ClipKeepsGaps(breaks, length, m, lo, hi);
    }
  }

  /**
   * The forward range `following(x)` caches on an empty cache, as
   * written: from `getPreceding(x)` to `getFollowing(x)`.
   */
  function FollowingEntryAsWritten(breaks: seq<int>, length: nat, x: int): Entry
    requires Sorted(breaks)
  {
    var f := Next(breaks, length, x);
    Entry(Prev(breaks, x), f, f)
  }

  /**
   * With breaks at 10, 20 and 30, `following(20)` caches `[10, 30) -> 30`,
   * so a later `following(15)` answers 30 where the locator's answer is 20.
   */
  lemma {:induction false} FollowingOnBreakAsWritten()
    ensures FollowingEntryAsWritten([10, 20, 30], 40, 20) == Entry(10, 30, 30)
    ensures Holds(Entry(10, 30, 30), ClosedOpen, 15) && Next([10, 20, 30], 40, 15) == 20
  {
    assert Prev([10, 20, 30], 20) == 10 by {
      assert [10, 20, 30][..2] == [10, 20];
    }
    assert Next([10, 20, 30], 40, 20) == 30 by {
      assert [10, 20, 30][1..][1..] == [30];
    }
    assert Next([10, 20, 30], 40, 15) == 20;
  }

  /**
   * A locator with its two caches: `forwardCache` maps each offset of a
   * cached `[p, f)` to `f`, `backwardCache` each offset of `(p, f]` to `p`.
   */
  class BaseBreakLocator {
    const breaks: seq<int>
    const length: nat
    var forwardCache: seq<Entry>
    var backwardCache: seq<Entry>

    ghost predicate Valid()
      reads this
    {
      BreaksValid(breaks, length)
      && ForwardSound(breaks, length, forwardCache)
      && BackwardSound(breaks, length, backwardCache)
    }

    constructor (breaks: seq<int>, length: nat)
      requires BreaksValid(breaks, length)
      ensures Valid()
      ensures this.breaks == breaks && this.length == length
      ensures forwardCache == [] && backwardCache == []
    {
      this.breaks := breaks;
      this.length := length;
      forwardCache := [];
      backwardCache := [];
    }

    /**
     * `following(offset)`, with the range it caches starting at the last
     * break at or before `offset`. Whatever the caches hold, the answer
     * is DONE past the text and otherwise the first break after `offset`.
     */
    method Following(offset: int) returns (r: int)
      requires Valid()
      modifies this
      ensures Valid()
      ensures offset >= length ==> r == Done
      ensures offset < length ==> r == Next(breaks, length, offset)
    {
      if offset >= length {
        return Done;
      }
      var cached := GetEntry(forwardCache, ClosedOpen, offset);
      if cached.Some? {
        GapNext(breaks, length, cached.value.lo, cached.value.hi, offset);
        return cached.value.value;
      }
      AroundIsGap(breaks, length, offset);
      var entry := GetEntry(backwardCache, OpenClosed, offset);
      var preceding: int;
      if entry.None? {
        preceding := Prev(breaks, offset + 1);
      } else {
        var e := entry.value;
        if e.hi == offset {
          preceding := offset;
        } else {
          preceding := e.value;
          GapPrev(breaks, length, e.lo, e.hi, offset + 1);
        }
      }
      var following := Next(breaks, length, offset);
      if following < 0 {
        following := length;
      }
      PutForward(breaks, length, forwardCache, preceding, following);
      PutBackward(breaks, length, backwardCache, preceding, following);
      forwardCache := Put(forwardCache, Entry(preceding, following, following));
      backwardCache := Put(backwardCache, Entry(preceding, following, preceding));
      return following;
    }

    /**
     * `preceding(offset)`, with the range it caches ending at the first
     * break at or after `offset`. Whatever the caches hold, the answer is
     * DONE at or before 0 and otherwise the last break before `offset`.
     */
    method Preceding(offset: int) returns (r: int)
      requires Valid()
      modifies this
      ensures Valid()
      ensures offset <= 0 ==> r == Done
      ensures offset > 0 ==> r == Prev(breaks, offset)
    {
      if offset <= 0 {
        return Done;
      }
      var cached := GetEntry(backwardCache, OpenClosed, offset);
      if cached.Some? {
        GapPrev(breaks, length, cached.value.lo, cached.value.hi, offset);
        return cached.value.value;
      }
      BeforeIsGap(breaks, length, offset);
      var entry := GetEntry(forwardCache, ClosedOpen, offset);
      var following: int;
      if entry.None? {
        following := Next(breaks, length, offset - 1);
      } else {
        var e := entry.value;
        if e.lo == offset {
          following := offset;
        } else {
          following := e.value;
          GapNext(breaks, length, e.lo, e.hi, offset - 1);
        }
      }
      var preceding := Prev(breaks, offset);
      PutBackward(breaks, length, backwardCache, Max(0, preceding), following);
      PutForward(breaks, length, forwardCache, Max(0, preceding), following);
      backwardCache := Put(backwardCache, Entry(Max(0, preceding), following, preceding));
      forwardCache := Put(forwardCache, Entry(Max(0, preceding), following, following));
      return preceding;
    }
  }
}
