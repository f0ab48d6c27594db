/**
 * Shared vocabulary of the model: optional values, results standing for
 * Java/Python exceptions, bytes, UTF-16 code units, and the Java string
 * primitives (`indexOf`, `lastIndexOf`, `trim`, `Character.isWhitespace`)
 * that the modelled code relies on.
 */
module Common {

  datatype Option<T> = None | Some(value: T)

  /** An operation that either yields a value or raises an exception. */
  datatype Result<T> = Ok(value: T) | Err(error: string)
  {
    predicate IsFailure() { Err? }

    function PropagateFailure<U>(): Result<U>
      requires Err?
    {
      Err(error)
    }

    function Extract(): T
      requires Ok?
    {
      value
    }
  }

  /** One byte, read unsigned (Java code masks with `& 0xFF`). */
  type Byte = b: int | 0 <= b < 0x100

  /** One UTF-16 code unit: a Java `char`, surrogates included. */
  type CodeUnit = u: int | 0 <= u < 0x1_0000

  function Min(a: int, b: int): int { if a <= b then a else b }
  function Max(a: int, b: int): int { if a >= b then a else b }

  /** `needle` occurs in `s` starting at index `i`. */
  predicate OccursAt<T(==)>(s: seq<T>, needle: seq<T>, i: int)
  {
    0 <= i && i + |needle| <= |s| && s[i..i + |needle|] == needle
  }

  /**
   * Java's `indexOf(str, fromIndex)`: the first occurrence at or after the
   * clamped start position, or -1.
   */
  function IndexOf<T(==)>(s: seq<T>, needle: seq<T>, from: int): (r: int)
    ensures r == -1 || (Max(from, 0) <= r && OccursAt(s, needle, r))
    ensures r >= 0 ==> forall j :: Max(from, 0) <= j < r ==> !OccursAt(s, needle, j)
    ensures r == -1 ==> forall j :: Max(from, 0) <= j ==> !OccursAt(s, needle, j)
    decreases |s| - from
  {
    if from < 0 then IndexOf(s, needle, 0)
    else if from + |needle| > |s| then -1
    else if s[from..from + |needle|] == needle then from
    else IndexOf(s, needle, from + 1)
  }

  /** Java's `indexOf(ch, fromIndex)`. */
  function IndexOfChar<T(==)>(s: seq<T>, c: T, from: int): (r: int)
    ensures r == -1 || (Max(from, 0) <= r < |s| && s[r] == c)
    ensures r >= 0 ==> forall j :: Max(from, 0) <= j < r ==> s[j] != c
    ensures r == -1 ==> forall j :: Max(from, 0) <= j < |s| ==> s[j] != c
    decreases |s| - from
  {
    if from < 0 then IndexOfChar(s, c, 0)
    else if from >= |s| then -1
    else if s[from] == c then from
    else IndexOfChar(s, c, from + 1)
  }

  /**
   * Java's `lastIndexOf(str, fromIndex)`: the last occurrence starting at or
   * before `from`, or -1.
   */
  function LastIndexOf<T(==)>(s: seq<T>, needle: seq<T>, from: int): (r: int)
    ensures r == -1 || (r <= from && OccursAt(s, needle, r))
    ensures forall j :: r < j <= from ==> !OccursAt(s, needle, j)
    decreases from + 1
  {
    if from < 0 then -1
    else if from + |needle| > |s| then LastIndexOf(s, needle, from - 1)
    else if s[from..from + |needle|] == needle then from
    else LastIndexOf(s, needle, from - 1)
  }

  /** Java's `lastIndexOf(ch, fromIndex)`. */
  function LastIndexOfChar<T(==)>(s: seq<T>, c: T, from: int): (r: int)
    ensures r == -1 || (0 <= r <= from && r < |s| && s[r] == c)
    ensures forall j :: r < j <= from && 0 <= j < |s| ==> s[j] != c
    decreases from + 1
  {
    if from < 0 then -1
    else if from >= |s| then LastIndexOfChar(s, c, |s| - 1)
    else if s[from] == c then from
    else LastIndexOfChar(s, c, from - 1)
  }

  ghost predicate Contains<T>(s: seq<T>, needle: seq<T>)
  {
    exists i :: OccursAt(s, needle, i)
  }

  /** `IndexOf` finds an occurrence exactly when there is one. */
  lemma {:induction false} IndexOfFindsOccurrence<T>(s: seq<T>, needle: seq<T>)
    ensures IndexOf(s, needle, 0) >= 0 <==> Contains(s, needle)
  {
    var r := IndexOf(s, needle, 0);
    if r >= 0 {
      assert OccursAt(s, needle, r);
    }
  }

  /** Java's `String.trim`: strips leading and trailing chars <= U+0020. */
  function Trim(s: string): (r: string)
    ensures |r| <= |s|
    ensures Contains(s, r)
    ensures r != [] ==> r[0] > ' ' && r[|r| - 1] > ' '
    ensures s != [] && s[0] > ' ' && s[|s| - 1] > ' ' ==> r == s
  {
    var t := TrimStart(s);
    var r := TrimEnd(t);
    assert OccursAt(s, r, |s| - |t|);
    r
  }

  function TrimStart(s: string): (r: string)
    ensures |r| <= |s| && r == s[|s| - |r|..]
    ensures r != [] ==> r[0] > ' '
    ensures s != [] && s[0] > ' ' ==> r == s
  {
    if s == [] || s[0] > ' ' then s else TrimStart(s[1..])
  }

  function TrimEnd(s: string): (r: string)
    ensures |r| <= |s| && r == s[..|r|]
    ensures r != [] ==> r[|r| - 1] > ' '
    ensures s != [] && s[|s| - 1] > ' ' ==> r == s
  {
    if s == [] || s[|s| - 1] > ' ' then s else TrimEnd(s[..|s| - 1])
  }

  /** Java's `Character.isWhitespace` on a char. */
  predicate IsJavaWhitespace(c: char)
  {
    // SPACE_SEPARATOR, LINE_SEPARATOR, PARAGRAPH_SEPARATOR without the
    // non-breaking spaces, plus the ASCII controls Java lists
    c == ' ' || c == '\U{1680}' || ('\U{2000}' <= c <= '\U{2006}') || ('\U{2008}' <= c <= '\U{200A}')
    || c == '\U{205F}' || c == '\U{3000}' || c == '\U{2028}' || c == '\U{2029}'
    || ('\U{0009}' <= c <= '\U{000D}') || ('\U{001C}' <= c <= '\U{001F}')
  }

  /** Java's `String.isBlank`-style test used for whitespace-only text. */
  predicate IsBlank(s: string)
  {
    forall k :: 0 <= k < |s| ==> IsJavaWhitespace(s[k])
  }

  predicate IsAsciiDigit(c: char) { '0' <= c <= '9' }

  predicate IsAsciiLetter(c: char) { ('a' <= c <= 'z') || ('A' <= c <= 'Z') }

  predicate IsHexDigit(c: char) { IsAsciiDigit(c) || ('a' <= c <= 'f') || ('A' <= c <= 'F') }

  function DigitValue(c: char): (v: nat)
    requires IsHexDigit(c)
    ensures v < 16
  {
    if IsAsciiDigit(c) then c as int - '0' as int
    else if 'a' <= c <= 'f' then c as int - 'a' as int + 10
    else c as int - 'A' as int + 10
  }

  /** Value of a (non-empty or empty) run of digits in the given base. */
  function DigitsValue(s: string, base: nat): nat
    requires base == 10 || base == 16
    requires forall k :: 0 <= k < |s| ==> IsHexDigit(s[k])
  {
    if s == [] then 0 else DigitsValue(s[..|s| - 1], base) * base + DigitValue(s[|s| - 1])
  }

  predicate AllDigits(s: string) { forall k :: 0 <= k < |s| ==> IsAsciiDigit(s[k]) }

  /** Decimal rendering of a natural number (Java `Integer.toString`). */
  function NatToString(n: nat): (r: string)
    ensures r != [] && AllDigits(r)
    ensures n > 0 ==> r[0] != '0'
    decreases n
  {
    if n < 10 then [DigitChar(n)] else NatToString(n / 10) + [DigitChar(n % 10)]
  }

  function DigitChar(d: nat): (c: char)
    requires d < 10
    ensures IsAsciiDigit(c) && c as int - '0' as int == d
  {
    ('0' as int + d) as char
  }

  /** Parses a non-empty run of decimal digits (Java `Integer.parseInt`, unbounded). */
  function ParseNat(s: string): (r: nat)
    requires AllDigits(s)
    decreases |s|
  {
    if s == [] then 0 else ParseNat(s[..|s| - 1]) * 10 + (s[|s| - 1] as int - '0' as int)
  }

  lemma {:induction false} ParseNatToString(n: nat)
    ensures ParseNat(NatToString(n)) == n
    decreases n
  {
    if n >= 10 {
      var r := NatToString(n);
      assert r[..|r| - 1] == NatToString(n / 10);
      ParseNatToString(n / 10);
    }
  }

  /** Splits `s` on every occurrence of `sep`, keeping empty pieces. */
  function Split(s: string, sep: char): (parts: seq<string>)
    ensures |parts| >= 1
    ensures forall i :: 0 <= i < |parts| ==> sep !in parts[i]
    decreases |s|
  {
    var i := IndexOfChar(s, sep, 0);
    if i < 0 then [s]
    else
      var head := s[..i];
      var rest := Split(s[i + 1..], sep);
      FirstPieceFree(s, sep);
      assert forall k :: 1 <= k <= |rest| ==> ([head] + rest)[k] == rest[k - 1];
      [head] + rest
  }

  lemma {:induction false} FirstPieceFree(s: string, sep: char)
    ensures var i := IndexOfChar(s, sep, 0); i >= 0 ==> sep !in s[..i]
  {
    var i := IndexOfChar(s, sep, 0);
    if i >= 0 {
      assert forall k :: 0 <= k < i ==> s[..i][k] == s[k];
    }
  }

  /** Joins pieces with a separator; inverse of `Split`. */
  function Join(parts: seq<string>, sep: string): string
  {
    if parts == [] then [] else if |parts| == 1 then parts[0] else parts[0] + sep + Join(parts[1..], sep)
  }

  lemma {:induction false} JoinSplit(s: string, sep: char)
    ensures Join(Split(s, sep), [sep]) == s
    decreases |s|
  {
    var i := IndexOfChar(s, sep, 0);
    if i >= 0 {
      var rest := Split(s[i + 1..], sep);
      JoinSplit(s[i + 1..], sep);
      assert Split(s, sep) == [s[..i]] + rest;
      assert ([s[..i]] + rest)[1..] == rest;
      assert Join(Split(s, sep), [sep]) == s[..i] + [sep] + Join(rest, [sep]);
      assert s == s[..i] + [sep] + s[i + 1..];
    }
  }

  /** Splitting a string with no separator in it gives the string itself. */
  lemma {:induction false} SplitNoSep(s: string, sep: char)
    requires sep !in s
    ensures Split(s, sep) == [s]
  {
  }

  /** The first separator ends the first piece. */
  lemma {:induction false} SplitCons(a: string, b: string, sep: char)
    requires sep !in a
    ensures Split(a + [sep] + b, sep) == [a] + Split(b, sep)
  {
    var s := a + [sep] + b;
    assert s[|a|] == sep;
    var i := IndexOfChar(s, sep, 0);
    assert i == |a|;
    assert s[..i] == a && s[i + 1..] == b;
  }

  /** Splitting undoes joining when no piece holds the separator. */
  lemma {:induction false} SplitJoin(parts: seq<string>, sep: char)
    requires |parts| >= 1
    requires forall i :: 0 <= i < |parts| ==> sep !in parts[i]
    ensures Split(Join(parts, [sep]), sep) == parts
    decreases |parts|
  {
    if |parts| == 1 {
      SplitNoSep(parts[0], sep);
    } else {
      SplitJoin(parts[1..], sep);
      SplitCons(parts[0], Join(parts[1..], [sep]), sep);
      assert parts[0] + [sep] + Join(parts[1..], [sep]) == Join(parts, [sep]);
      assert [parts[0]] + parts[1..] == parts;
    }
  }

  /** The pieces with the trailing empty ones removed, as Java's `String.split` returns them. */
  function DropTrailingEmpty(parts: seq<string>): (r: seq<string>)
    ensures r <= parts
    ensures r != [] ==> r[|r| - 1] != []
    ensures forall i :: |r| <= i < |parts| ==> parts[i] == []
  {
    if parts != [] && parts[|parts| - 1] == [] then DropTrailingEmpty(parts[..|parts| - 1]) else parts
  }

  /**
   * Java's `String.split` on a one-char literal: the whole string when the
   * separator does not occur, otherwise the pieces without trailing empty ones.
   */
  function JavaSplit(s: string, sep: char): (parts: seq<string>)
    ensures forall i :: 0 <= i < |parts| ==> sep !in parts[i]
    ensures sep !in s ==> parts == [s]
  {
    if sep !in s then [s] else DropTrailingEmpty(Split(s, sep))
  }

  /** Java splitting undoes joining when no piece holds the separator and the last one is not empty. */
  lemma {:induction false} JavaSplitJoin(parts: seq<string>, sep: char)
    requires |parts| >= 1 && parts[|parts| - 1] != []
    requires forall i :: 0 <= i < |parts| ==> sep !in parts[i]
    ensures JavaSplit(Join(parts, [sep]), sep) == parts
  {
    SplitJoin(parts, sep);
    var s := Join(parts, [sep]);
    if sep !in s {
      JoinSplit(s, sep);
    }
  }

  const Int32Min: int := -0x8000_0000
  const Int32Max: int := 0x7FFF_FFFF

  /** The value fits in a Java `int`. */
  predicate IsInt32(n: int) { Int32Min <= n <= Int32Max }

  /** Java's `Integer.toString`. */
  function IntToString(n: int): (r: string)
    ensures r != [] && IsAsciiDigit(r[|r| - 1])
    ensures n >= 0 ==> AllDigits(r)
    ensures n < 0 ==> r[0] == '-' && AllDigits(r[1..]) && |r| >= 2
  {
    if n < 0 then "-" + NatToString(-n) else NatToString(n)
  }

  /**
   * Java's `Integer.parseInt` on ASCII input: an optional sign and at least
   * one digit, with a value that fits in an `int`; NumberFormatException otherwise.
   */
  function ParseInt(s: string): (r: Result<int>)
    ensures r.Ok? ==> IsInt32(r.value)
    ensures r.Ok? ==> s != [] && (AllDigits(s) || (|s| >= 2 && (s[0] == '-' || s[0] == '+') && AllDigits(s[1..])))
    ensures s != [] && AllDigits(s) && ParseNat(s) <= Int32Max ==> r == Ok(ParseNat(s))
  {
    if |s| >= 1 && (s[0] == '-' || s[0] == '+') then
      var digits := s[1..];
      if digits == [] || !AllDigits(digits) then Err("NumberFormatException")
      else
        var v: int := if s[0] == '-' then -(ParseNat(digits) as int) else ParseNat(digits) as int;
        if IsInt32(v) then Ok(v) else Err("NumberFormatException")
    else if s == [] || !AllDigits(s) then Err("NumberFormatException")
    else if ParseNat(s) <= Int32Max then Ok(ParseNat(s))
    else Err("NumberFormatException")
  }

  /** Every `int` survives printing and parsing. */
  lemma {:induction false} ParseIntToString(n: int)
    requires IsInt32(n)
    ensures ParseInt(IntToString(n)) == Ok(n)
  {
    if n < 0 {
      ParseNatToString(-n);
      assert IntToString(n)[1..] == NatToString(-n);
    } else {
      ParseNatToString(n);
    }
  }

  /** Appending one more piece to a join. */
  lemma {:induction false} JoinAppend(parts: seq<string>, p: string, sep: string)
    ensures Join(parts + [p], sep) == if parts == [] then p else Join(parts, sep) + sep + p
    decreases |parts|
  {
    if |parts| > 1 {
      assert (parts + [p])[1..] == parts[1..] + [p];
      JoinAppend(parts[1..], p, sep);
    } else if |parts| == 1 {
      assert (parts + [p])[1..] == [p];
    }
  }

  /** Regrouping a concatenation, stated once so that callers need not unfold the pieces. */
  /** A sequence is its first `n` elements followed by the rest. */
  lemma {:induction false} TakeDropJoin<T>(s: seq<T>, n: nat, a: seq<T>, b: seq<T>)
    requires n <= |s| && a == s[..n] && b == s[n..]
    ensures s == a + b
  {
  }

  lemma {:induction false} ConcatAssoc<T>(a: seq<T>, b: seq<T>, c: seq<T>)
    ensures a + b + c == a + (b + c)
  {
  }

  /** Two adjacent slices make the slice that spans both. */
  lemma {:induction false} SliceSplit<T>(s: seq<T>, a: nat, b: nat, c: nat)
    requires a <= b <= c <= |s|
    ensures s[a..b] + s[b..c] == s[a..c]
  {
  }

  /** A prefix `p + x` of `s`, at its known positions: `x` sits between `i` and `j`, `p` before. */
  lemma {:induction false} PrefixPiece<T>(s: seq<T>, p: seq<T>, x: seq<T>, i: nat, j: nat)
    requires i == |p| && j == i + |x| <= |s| && s[..j] == p + x
    ensures s[i..j] == x && s[..i] == p
  {
    assert s[i..j] == s[..j][i..j];
    assert s[..i] == s[..j][..i];
  }

  /** A slice of a slice is a slice of the whole. */
  lemma {:induction false} SliceOfSlice<T>(s: seq<T>, a: nat, b: nat, i: nat, j: nat)
    requires a <= b <= |s| && i <= j <= b - a
    ensures s[a..b][i..j] == s[a + i..a + j]
  {
    forall k | 0 <= k < j - i
      ensures s[a..b][i..j][k] == s[a + i..a + j][k]
    {
    }
  }

  /** Two sequences that agree up to `hi` agree on every part before it. */
  lemma {:induction false} PrefixParts<T>(a: seq<T>, b: seq<T>, lo: nat, hi: nat)
    requires lo <= hi <= |a| && hi <= |b| && a[..hi] == b[..hi]
    ensures a[..lo] == b[..lo] && a[lo..hi] == b[lo..hi]
  {
    assert a[..lo] == a[..hi][..lo] && b[..lo] == b[..hi][..lo];
    assert a[lo..hi] == a[..hi][lo..] && b[lo..hi] == b[..hi][lo..];
  }

  /** The second part of a concatenation is what follows the first. */
  lemma {:induction false} SuffixOfConcat<T>(a: seq<T>, b: seq<T>)
    ensures (a + b)[|a|..] == b
  {
  }

  lemma {:induction false} PrefixOfConcat<T>(a: seq<T>, b: seq<T>)
    ensures (a + b)[..|a|] == a
  {
  }

  /** A non-empty sequence is its front followed by its last element. */
  lemma {:induction false} SplitLast<T>(s: seq<T>)
    requires s != []
    ensures s[..|s| - 1] + [s[|s| - 1]] == s
  {
  }

  /** Applies `f` to every element, in order. */
  function MapSeq<A, B>(f: A -> B, s: seq<A>): (r: seq<B>)
    ensures |r| == |s| && forall i :: 0 <= i < |s| ==> r[i] == f(s[i])
  {
    seq(|s|, i requires 0 <= i < |s| => f(s[i]))
  }

  lemma {:induction false} MapSnoc<A, B>(f: A -> B, s: seq<A>, i: nat)
    requires i < |s|
    ensures MapSeq(f, s[..i + 1]) == MapSeq(f, s[..i]) + [f(s[i])]
  {
    var a := MapSeq(f, s[..i + 1]);
    var b := MapSeq(f, s[..i]) + [f(s[i])];
    assert forall k :: 0 <= k < |a| ==> a[k] == b[k];
  }

  lemma {:induction false} MapTail<A, B>(f: A -> B, s: seq<A>)
    requires s != []
    ensures MapSeq(f, s)[1..] == MapSeq(f, s[1..])
  {
    assert forall k :: 0 <= k < |s| - 1 ==> MapSeq(f, s)[1..][k] == f(s[1..][k]);
  }
}
