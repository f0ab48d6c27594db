/**
 * The per-term byte-offset collector of the phrase helper: the offsets a
 * span query visits for one term, kept in a fixed-capacity array as a
 * strictly increasing, duplicate-free run, then enumerated in order.
 */
module ByteOffsetPhraseHelper {
  import opened Common

  ghost predicate Increasing(s: seq<int>)
  {
    forall i, j :: 0 <= i < j < |s| ==> s[i] < s[j]
  }

  /**
   * The run `s` with `x` inserted where the backward scan of `add` places
   * it: kept as is when `x` is already there.
   */
  function InsertSorted(s: seq<int>, x: int): seq<int>
  {
    if |s| == 0 then [x]
    else if s[|s| - 1] == x then s
    else if s[|s| - 1] < x then s + [x]
    else InsertSorted(s[..|s| - 1], x) + [s[|s| - 1]]
  }

  /** Inserting into an increasing run keeps it increasing and adds exactly `x` to its elements. */
  lemma {:induction false} InsertSortedIsUnion(s: seq<int>, x: int)
    requires Increasing(s)
    ensures Increasing(InsertSorted(s, x))
    ensures forall k :: k in InsertSorted(s, x) <==> k in s || k == x
    ensures x in s ==> InsertSorted(s, x) == s
    ensures x !in s ==> |InsertSorted(s, x)| == |s| + 1
  {
    if |s| > 0 && s[|s| - 1] > x {
      var init, last := s[..|s| - 1], s[|s| - 1];
      assert s == init + [last];
      assert forall k :: k in init ==> k < last;
      InsertSortedIsUnion(init, x);
      AppendGreater(InsertSorted(init, x), last);
      assert forall k :: k in s <==> k in init || k == last;
      assert InsertSorted(s, x) == InsertSorted(init, x) + [last];
      if x in s {
        assert x in init;
      }
    } else if |s| > 0 && s[|s| - 1] < x {
      assert forall k :: 0 <= k < |s| ==> s[k] <= s[|s| - 1];
      assert forall k :: k in s ==> k < x;
      AppendGreater(s, x);
    }
  }

  /** Appending a value above every element keeps a run increasing. */
  lemma {:induction false} AppendGreater(r: seq<int>, last: int)
    requires Increasing(r) && forall k :: k in r ==> k < last
    ensures Increasing(r + [last])
    ensures forall k :: k in r + [last] <==> k in r || k == last
  {
    assert forall k :: 0 <= k < |r| ==> r[k] in r;
  }

  /**
   * Where the scan stops: when every element from `k` on is greater than
   * `x` and the one before `k`, if any, is smaller, `x` goes in at `k`.
   */
  lemma {:induction false} InsertSortedAt(s: seq<int>, x: int, k: nat)
    requires k <= |s|
    requires k > 0 ==> s[k - 1] < x
    requires forall j :: k <= j < |s| ==> s[j] > x
    ensures InsertSorted(s, x) == s[..k] + [x] + s[k..]
  {
    if |s| > k {
      var init := s[..|s| - 1];
      InsertSortedAt(init, x, k);
      assert s[..k] == init[..k];
      assert s[k..] == init[k..] + [s[|s| - 1]];
    } else if k > 0 {
      assert s[..k] == s;
    }
  }

  /** Finding `x` at `k` means `add` keeps the run as it is. */
  lemma {:induction false} InsertSortedFound(s: seq<int>, x: int, k: nat)
    requires Increasing(s) && k < |s| && s[k] == x
    ensures InsertSorted(s, x) == s
  {
    assert x in s;
    InsertSortedIsUnion(s, x);
  }

  class SpanCollectedByteOffsetsEnum {
    const term: seq<Byte>
    const offsets: array<int>
    var numPairs: int
    var enumIdx: int

    ghost predicate Valid()
      reads this, offsets
    {
      && 0 <= numPairs <= offsets.Length
      && enumIdx >= -1
      && Increasing(offsets[..numPairs])
    }

    /** The offsets collected so far, in their stored order. */
    ghost function Contents(): seq<int>
      reads this, offsets
      requires Valid()
    {
      offsets[..numPairs]
    }

    /** A collector with room for `postingsFreq` offsets, before any enumeration. */
    constructor (term: seq<Byte>, postingsFreq: nat)
      ensures Valid() && fresh(offsets)
      ensures this.term == term && offsets.Length == postingsFreq
      ensures Contents() == [] && enumIdx == -1
    {
      this.term := term;
      this.offsets := new int[postingsFreq](_ => 0);
      this.numPairs := 0;
      this.enumIdx := -1;
    }

    /**
     * `add(byteOffset)`: an offset already present changes nothing; a new
     * one is inserted in order, shifting the larger ones right by one.
     */
    method Add(byteOffset: int)
      requires Valid() && enumIdx == -1
      requires byteOffset !in Contents() ==> numPairs < offsets.Length
      modifies this, offsets
      ensures Valid() && enumIdx == -1
      ensures Contents() == InsertSorted(old(Contents()), byteOffset)
      ensures byteOffset in old(Contents()) ==> numPairs == old(numPairs) && offsets[..] == old(offsets[..])
      ensures byteOffset !in old(Contents()) ==> numPairs == old(numPairs) + 1
    {
      ghost var s := offsets[..numPairs];
      var pairIdx := numPairs - 1;
      while pairIdx >= 0
        invariant -1 <= pairIdx < numPairs
        invariant forall j :: pairIdx < j < numPairs ==> offsets[j] > byteOffset
      {
        var iByteOffset := offsets[pairIdx];
        if iByteOffset == byteOffset {
          InsertSortedFound(s, byteOffset, pairIdx);
          return;
        } else if iByteOffset < byteOffset {
          break;
        }
        pairIdx := pairIdx - 1;
      }
      InsertSortedAt(s, byteOffset, pairIdx + 1);
      InsertSortedIsUnion(s, byteOffset);
      ShiftInsert(pairIdx + 1, byteOffset);
    }

    /**
     * The tail of `add`: the stored offsets from `at` on move right by one
     * (the `System.arraycopy`) and `x` takes slot `at`.
     */
    method ShiftInsert(at: int, x: int)
      requires 0 <= at <= numPairs < offsets.Length && Increasing(InsertSorted(offsets[..numPairs], x))
      requires InsertSorted(offsets[..numPairs], x) == offsets[..at] + [x] + offsets[at..numPairs]
      requires enumIdx >= -1
      modifies this, offsets
      ensures enumIdx == old(enumIdx) && numPairs == old(numPairs) + 1 && Valid()
      ensures offsets[..numPairs] == InsertSorted(old(offsets[..numPairs]), x)
    {
      ghost var s := offsets[..numPairs];
      var shiftLen := numPairs - at;
      if shiftLen > 0 {
        forall j | at + 1 <= j < at + 1 + shiftLen {
          offsets[j] := offsets[j - 1];
        }
      }
      offsets[at] := x;
      numPairs := numPairs + 1;
      assert offsets[..numPairs] == s[..at] + [x] + s[at..];
      assert offsets[..numPairs] == InsertSorted(s, x);
    }

    /** `nextPosition()`: moves to the next stored offset, true while one is left. */
    method NextPosition() returns (r: bool)
      requires Valid()
      modifies this
      ensures Valid() && numPairs == old(numPairs)
      ensures enumIdx == old(enumIdx) + 1
      ensures r <==> enumIdx < numPairs
    {
      enumIdx := enumIdx + 1;
      r := enumIdx < numPairs;
    }

    /** `freq()`: the number of distinct offsets collected. */
    method Freq() returns (r: int)
      requires Valid()
      ensures r == |Contents()|
    {
      r := numPairs;
    }

    /**
     * `byteOffset()`: the offset at the enumeration cursor, i.e. the
     * (enumIdx + 1)-th smallest collected offset; outside the array Java
     * throws.
     */
    method ByteOffset() returns (r: Result<int>)
      requires Valid()
      ensures 0 <= enumIdx < numPairs ==> r == Ok(Contents()[enumIdx])
      ensures 0 <= enumIdx < numPairs ==> forall j :: 0 <= j < enumIdx ==> Contents()[j] < r.value
      ensures r.Err? <==> !(0 <= enumIdx < offsets.Length)
    {
      if 0 <= enumIdx < offsets.Length {
        r := Ok(offsets[enumIdx]);
      } else {
        r := Err("ArrayIndexOutOfBoundsException");
      }
    }
  }
}
