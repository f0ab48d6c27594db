/**
 * Substring search and whitespace test over `char[]` windows.
 */
module CharBufUtils {
  import opened Common

  /**
   * The search loop of `indexOf` as written: `k` needle chars are matched
   * so far; a mismatch resets `k` to 0 without looking at the current char
   * again and without going back.
   */
  function NaiveScan(h: seq<char>, i: int, hi: int, needle: seq<char>, k: nat): int
    requires k <= |needle|
    requires 0 <= i && hi <= |h|
    decreases hi - i
  {
    if k < |needle| && i < hi then
      NaiveScan(h, i + 1, hi, needle, if h[i] == needle[k] then k + 1 else 0)
    else if k == |needle| then i - |needle|
    else -1
  }

  /**
   * `indexOf(haystack, fromIndex, toIndex, needle)` as written. Java raises
   * an index error for a negative `fromIndex` or a `toIndex` past the array;
   * callers must avoid both.
   */
  method IndexOf(haystack: array<char>, fromIndex: int, toIndex: int, needle: array<char>) returns (r: int)
    requires 0 <= fromIndex && toIndex <= haystack.Length
    ensures r == NaiveScan(haystack[..], fromIndex, toIndex, needle[..], 0)
    ensures needle.Length == 0 ==> r == fromIndex
    ensures fromIndex <= toIndex ==> r == -1 || (fromIndex <= r && r + needle.Length <= toIndex
                                                 && haystack[r..r + needle.Length] == needle[..])
  {
    var from := fromIndex;
    var needleIdx := 0;
    while needleIdx < needle.Length && from < toIndex
      invariant fromIndex <= from && 0 <= needleIdx <= needle.Length
      invariant NaiveScan(haystack[..], from, toIndex, needle[..], needleIdx)
             == NaiveScan(haystack[..], fromIndex, toIndex, needle[..], 0)
      decreases toIndex - from
    {
      if haystack[from] == needle[needleIdx] {
        needleIdx := needleIdx + 1;
      } else {
        needleIdx := 0;
      }
      from := from + 1;
    }
    if needleIdx == needle.Length {
      r := from - needle.Length;
    } else {
      r := -1;
    }
    if fromIndex <= toIndex {
      NaiveScanSound(haystack[..], fromIndex, toIndex, needle[..], 0, fromIndex);
    }
  }

  /** Whatever the naive scan reports is a real occurrence inside the window. */
  lemma {:induction false} NaiveScanSound(h: seq<char>, i: int, hi: int, needle: seq<char>, k: nat, from: int)
    requires k <= |needle| && 0 <= from <= i - k && i <= hi <= |h|
    requires h[i - k..i] == needle[..k]
    ensures var r := NaiveScan(h, i, hi, needle, k);
      r == -1 || (from <= r && r + |needle| <= hi && h[r..r + |needle|] == needle)
    decreases hi - i
  {
    if k < |needle| && i < hi {
      if h[i] == needle[k] {
        assert h[i - k..i + 1] == h[i - k..i] + [h[i]];
        assert needle[..k + 1] == needle[..k] + [needle[k]];
        NaiveScanSound(h, i + 1, hi, needle, k + 1, from);
      } else {
        NaiveScanSound(h, i + 1, hi, needle, 0, from);
      }
    } else if k == |needle| {
      assert needle[..k] == needle;
    }
  }

  /** The scan misses "ab" in "aab": the second 'a' is never compared with the needle's start. */
  lemma {:induction false} NaiveScanMissesOverlap()
    ensures NaiveScan("aab", 0, 3, "ab", 0) == -1
    ensures OccursAt("aab", "ab", 1)
  {
    assert NaiveScan("aab", 0, 3, "ab", 0) == NaiveScan("aab", 1, 3, "ab", 1);
    assert NaiveScan("aab", 1, 3, "ab", 1) == NaiveScan("aab", 2, 3, "ab", 0);
    assert NaiveScan("aab", 2, 3, "ab", 0) == NaiveScan("aab", 3, 3, "ab", 0);
    assert "aab"[1..3] == "ab";
  }

  /**
   * The search the documentation promises: the first occurrence of the
   * needle inside `haystack[fromIndex..toIndex)`, restarting one position
   * after each failed candidate.
   */
  method IndexOfRestarting(haystack: array<char>, fromIndex: int, toIndex: int, needle: array<char>) returns (r: int)
    requires 0 <= fromIndex && 0 <= toIndex <= haystack.Length
    ensures r == Common.IndexOf(haystack[..toIndex], needle[..], fromIndex)
    ensures r == -1 <==> forall j :: fromIndex <= j ==> !OccursAt(haystack[..toIndex], needle[..], j)
  {
    var start := fromIndex;
    while start + needle.Length <= toIndex
      invariant fromIndex <= start
      invariant forall j :: fromIndex <= j < start ==> !OccursAt(haystack[..toIndex], needle[..], j)
      decreases toIndex - start
    {
      var k := 0;
      while k < needle.Length && haystack[start + k] == needle[k]
        invariant 0 <= k <= needle.Length
        invariant haystack[start..start + k] == needle[..k]
      {
        k := k + 1;
      }
      if k == needle.Length {
        assert needle[..k] == needle[..];
        assert haystack[..toIndex][start..start + needle.Length] == haystack[start..start + k];
        assert OccursAt(haystack[..toIndex], needle[..], start);
        ghost var q := Common.IndexOf(haystack[..toIndex], needle[..], fromIndex);
        assert q != -1 && q <= start;
        return start;
      }
      assert haystack[..toIndex][start..start + needle.Length][k] != needle[..][k];
      start := start + 1;
    }
    return -1;
  }

  /** `isWhitespace(buf, from, len)`: every char of the window is whitespace. */
  method IsWhitespace(buf: array<char>, from: int, len: int) returns (r: bool)
    requires 0 <= from && (len <= 0 || from + len <= buf.Length)
    ensures r <==> forall i :: from <= i < from + len ==> IsJavaWhitespace(buf[i])
  {
    var i := from;
    while i < from + len
      invariant from <= i <= Max(from, from + len)
      invariant forall j :: from <= j < i ==> IsJavaWhitespace(buf[j])
    {
      if !IsJavaWhitespace(buf[i]) {
        return false;
      }
      i := i + 1;
    }
    return true;
  }
}
