/**
 * What the OCR formats (hOCR, ALTO, MiniOCR) share: the block types a
 * break can be requested on, the page a fragment describes, and the
 * character classes their lean regular expressions use.
 */
module OcrFormat {
  import opened Common

  /** The block types of the `OcrBlock` enumeration. */
  datatype OcrBlock = PAGE | SECTION | BLOCK | PARAGRAPH | LINE | WORD

  /** A `java.awt.Dimension`. */
  datatype Dimension = Dimension(width: int, height: int)

  /** An `OcrPage`: the identifier and, when known, the size of a page. */
  datatype OcrPage = OcrPage(id: string, dimensions: Option<Dimension>)

  /** `new OcrPage(id, dims)`: a page without an identifier is refused. */
  function NewPage(id: Option<string>, dims: Option<Dimension>): (r: Result<OcrPage>)
    ensures r.Ok? <==> id.Some?
    ensures r.Ok? ==> r.value.id == id.value && r.value.dimensions == dims
    ensures r.Err? ==> r.error == "NullPointerException"
  {
    if id.None? then Err("NullPointerException") else Ok(OcrPage(id.value, dims))
  }

  /** `['"]` in a pattern. */
  predicate IsQuote(c: char) { c == '"' || c == '\'' }

  /** The characters `.` does not match in a Java pattern without flags. */
  predicate IsLineTerminator(c: char)
  {
    c == '\n' || c == '\r' || c == '\U{0085}' || c == '\U{2028}' || c == '\U{2029}'
  }

  /** The length of the maximal run of ASCII digits (`\d+` without flags) starting at `i`. */
  function DigitRun(s: string, i: nat): (n: nat)
    ensures i + n <= |s| || n == 0
    ensures forall k :: i <= k < i + n ==> IsAsciiDigit(s[k])
    ensures i + n < |s| ==> !IsAsciiDigit(s[i + n])
    decreases |s| - i
  {
    if i >= |s| || !IsAsciiDigit(s[i]) then 0 else 1 + DigitRun(s, i + 1)
  }

  /** A run of digits that ends the string or is followed by a non-digit is the maximal run. */
  lemma {:induction false} DigitRunOf(s: string, i: nat, d: string)
    requires i + |d| <= |s| && s[i..i + |d|] == d && AllDigits(d)
    requires i + |d| < |s| ==> !IsAsciiDigit(s[i + |d|])
    ensures DigitRun(s, i) == |d|
    decreases |d|
  {
    if d != [] {
      assert s[i + 1..i + |d|] == d[1..];
      DigitRunOf(s, i + 1, d[1..]);
    }
  }

  /** The first quote at or after `from`, or -1. */
  function QuoteFrom(s: string, from: nat): (r: int)
    ensures r == -1 || (from <= r < |s| && IsQuote(s[r]))
    ensures forall k :: from <= k < |s| && (r == -1 || k < r) ==> !IsQuote(s[k])
    decreases |s| - from
  {
    if from >= |s| then -1 else if IsQuote(s[from]) then from else QuoteFrom(s, from + 1)
  }

  /**
   * `getLastContentStartIdx` of the tag-based formats: just after the last
   * '>', or 0 when there is none.
   */
  function LastContentStartIdx(content: string): (r: int)
    ensures 0 <= r <= |content|
    ensures r > 0 ==> content[r - 1] == '>'
    ensures forall k :: r <= k < |content| ==> content[k] != '>'
  {
    LastIndexOfChar(content, '>', |content|) + 1
  }

  /** `getFirstContentEndIdx` of the tag-based formats: the first "</", or -1. */
  function FirstContentEndIdx(content: string): (r: int)
    ensures r == -1 || OccursAt(content, "</", r)
    ensures forall k :: 0 <= k && (r == -1 || k < r) ==> !OccursAt(content, "</", k)
  {
    IndexOf(content, "</", 0)
  }

  /** A single character needle occurs exactly where that character is. */
  lemma {:induction false} OccursAtOne(s: string, c: char, k: int)
    ensures OccursAt(s, [c], k) <==> 0 <= k < |s| && s[k] == c
  {
    if 0 <= k < |s| {
      assert s[k..k + 1] == [s[k]];
    }
  }
}
