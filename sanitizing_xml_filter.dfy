/**
 * The character filter that repairs malformed XML without moving any char:
 * unmatched closing tags, duplicate DOCTYPEs and `<br>` are overwritten with
 * spaces, stray markup and illegal entities are masked with '_', unclosed
 * elements get a trailer of closing tags once the input is exhausted, and an
 * element or entity cut by the end of a read is carried over to the next one.
 */
module SanitizingXmlFilter {
  import opened Common

  /** `STRIP_TAGS`: HTML elements that occur unclosed and are blanked instead of pushed. */
  const StripTags: set<string> := {"br"}

  /** The chars a tag name ends at. */
  const TagNameEnds: seq<char> := [' ', '\n', '\t']

  /**
   * `after` is `before` with some chars in `[lo, hi)` overwritten by a space
   * or a '_': same length, nothing moved.
   */
  ghost predicate Repaired(before: seq<char>, after: seq<char>, lo: int, hi: int)
  {
    |before| == |after| &&
    forall k :: 0 <= k < |after| ==>
      after[k] == before[k] || (lo <= k < hi && (after[k] == ' ' || after[k] == '_'))
  }

  /**
   * The data part of one `read`, out of the `pending` chars of which the first
   * `carried` are carried over: `raw` is what fits into `len`, `data` what is
   * returned of it (all of it unless `truncated`) and `rest` what stays
   * pending; unless a cut element overwrote the old carry-over, the returned
   * and the pending chars are the pending ones, masked.
   */
  ghost predicate DataRead(pending: seq<char>, carried: nat, len: nat, raw: seq<char>,
                           data: seq<char>, truncated: bool, rest: seq<char>)
  {
    raw == pending[..Min(len, |pending|)] &&
    |data| <= |raw| && (!truncated ==> |data| == |raw|) &&
    (!truncated || carried <= len ==> Masked(pending, data + rest))
  }

  /**
   * What `read` returns and keeps pending, when `raw` was placed and masked
   * into `repaired`, whether or not the chars from `kept` on are carried over.
   */
  lemma {:induction false} ReadMasked(pending: seq<char>, raw: seq<char>, rest: seq<char>, repaired: seq<char>, kept: nat)
    requires pending == raw + rest && Masked(raw, repaired) && kept <= |repaired|
    ensures Masked(pending, repaired + rest)
    ensures Masked(pending, repaired[..kept] + (repaired[kept..] + rest))
  {
    MaskedAppend(raw, repaired, rest);
    assert repaired[..kept] + (repaired[kept..] + rest) == repaired + rest;
  }

  /** Position by position, `after` keeps the char of `before` or holds a space or a '_'. */
  ghost predicate Masked(before: seq<char>, after: seq<char>)
  {
    |before| == |after| &&
    forall k {:trigger MaskedChar(before[k], after[k])} :: 0 <= k < |after| ==> MaskedChar(before[k], after[k])
  }

  /** `after` is the char `before` or its replacement, a space or a '_'. */
  predicate MaskedChar(before: char, after: char)
  {
    after == before || after == ' ' || after == '_'
  }

  lemma {:induction false} RepairedTrans(a: seq<char>, b: seq<char>, c: seq<char>, lo: int, hi: int, lo2: int, hi2: int)
    requires Repaired(a, b, lo, hi) && Repaired(b, c, lo2, hi2) && lo <= lo2 && hi2 <= hi
    ensures Repaired(a, c, lo, hi)
  {
    forall k | 0 <= k < |c|
      ensures c[k] == a[k] || (lo <= k < hi && (c[k] == ' ' || c[k] == '_'))
    {
      assert c[k] == b[k] || (lo2 <= k < hi2 && (c[k] == ' ' || c[k] == '_'));
      assert b[k] == a[k] || (lo <= k < hi && (b[k] == ' ' || b[k] == '_'));
    }
  }

  lemma {:induction false} RepairedSlice(a: seq<char>, b: seq<char>, lo: int, hi: int)
    requires Repaired(a, b, lo, hi) && 0 <= lo <= hi <= |a|
    ensures Masked(a[lo..hi], b[lo..hi])
  {
    forall k | 0 <= k < hi - lo
      ensures MaskedChar(a[lo..hi][k], b[lo..hi][k])
    {
      assert b[lo + k] == a[lo + k] || (lo <= lo + k < hi && (b[lo + k] == ' ' || b[lo + k] == '_'));
    }
  }

  /** Appending the same chars to both sides keeps a masking. */
  lemma {:induction false} MaskedAppend(a: seq<char>, b: seq<char>, rest: seq<char>)
    requires Masked(a, b)
    ensures Masked(a + rest, b + rest)
  {
    forall k | 0 <= k < |b + rest|
      ensures MaskedChar((a + rest)[k], (b + rest)[k])
    {
      if k < |b| {
        assert MaskedChar(a[k], b[k]);
        assert (b + rest)[k] == b[k] && (a + rest)[k] == a[k];
      } else {
        assert (b + rest)[k] == rest[k - |b|] == (a + rest)[k];
      }
    }
  }

  // ---------------------------------------------------------------------
  // The search and comparison helpers
  // ---------------------------------------------------------------------

  /** The first index at or after `max(from, 0)` holding one of `values`, or -1. */
  function FirstOf(a: seq<char>, from: int, values: seq<char>): (r: int)
    ensures r == -1 || (Max(from, 0) <= r < |a| && a[r] in values)
    ensures forall j :: Max(from, 0) <= j < |a| && (r == -1 || j < r) ==> a[j] !in values
    decreases |a| - from
  {
    if from < 0 then FirstOf(a, 0, values)
    else if from >= |a| then -1
    else if a[from] in values then from
    else FirstOf(a, from + 1, values)
  }

  /** `multiIndexOf`: the whole array is searched, from `max(startIndex, 0)`. */
  method MultiIndexOf(a: array<char>, startIndex: int, values: seq<char>) returns (r: int)
    ensures r == FirstOf(a[..], startIndex, values)
  {
    var i := Max(startIndex, 0);
    while i < a.Length
      invariant Max(startIndex, 0) <= i
      invariant FirstOf(a[..], startIndex, values) == FirstOf(a[..], i, values)
      decreases a.Length - i
    {
      var j := 0;
      while j < |values|
        invariant 0 <= j <= |values|
        invariant forall k :: 0 <= k < j ==> values[k] != a[i]
      {
        if values[j] == a[i] {
          return i;
        }
        j := j + 1;
      }
      i := i + 1;
    }
    return -1;
  }

  /** `tagEquals`: the tag at `startTag` has the length and the chars of `checkTag`. */
  method TagEquals(markupBuf: array<char>, startTag: int, tagLen: int, checkTag: seq<char>) returns (r: bool)
    requires tagLen == |checkTag| ==> 0 <= startTag && startTag + tagLen <= markupBuf.Length
    ensures r <==> tagLen == |checkTag| && markupBuf[startTag..startTag + tagLen] == checkTag
  {
    if tagLen != |checkTag| {
      return false;
    }
    var i := 0;
    while i < tagLen
      invariant 0 <= i <= tagLen
      invariant markupBuf[startTag..startTag + i] == checkTag[..i]
    {
      if markupBuf[startTag + i] != checkTag[i] {
        assert markupBuf[startTag..startTag + tagLen][i] != checkTag[i];
        return false;
      }
      assert markupBuf[startTag..startTag + i + 1] == markupBuf[startTag..startTag + i] + [markupBuf[startTag + i]];
      i := i + 1;
    }
    assert checkTag[..i] == checkTag;
    return true;
  }

  /** The comparison `tagEquals` performs, on the buffer contents. */
  predicate TagMatches(b: seq<char>, startTag: int, tagLen: int, checkTag: seq<char>)
    requires tagLen == |checkTag| ==> 0 <= startTag && startTag + tagLen <= |b|
  {
    tagLen == |checkTag| && b[startTag..startTag + tagLen] == checkTag
  }

  /** `b[s..e]` is an element span: '>' at `e`. */
  predicate Bracketed(b: seq<char>, s: int, e: int)
  {
    0 <= s < e < |b| && b[e] == '>'
  }

  /** `isLegalComment`: the span starts with "<!--" and its last two chars before the '>' are "--". */
  predicate IsLegalComment(b: seq<char>, startIdx: int, endIdx: int)
    requires Bracketed(b, startIdx, endIdx)
    ensures IsLegalComment(b, startIdx, endIdx) <==>
      endIdx - startIdx >= 3 && b[startIdx + 1..startIdx + 4] == "!--" && b[endIdx - 2..endIdx] == "--"
  {
    if b[startIdx + 1] != '!' || b[startIdx + 2] != '-' || b[startIdx + 3] != '-' then false
    else b[endIdx - 2] == '-' && b[endIdx - 1] == '-'
  }

  // ---------------------------------------------------------------------
  // Entities
  // ---------------------------------------------------------------------

  /** A hexadecimal character reference body: hex digits only, a Unicode code point. */
  predicate HexReference(h: string)
  {
    h != [] && (forall k :: 0 <= k < |h| ==> IsHexDigit(h[k])) && DigitsValue(h, 16) <= 0x10FFFF
  }

  /** A decimal character reference body: decimal digits only. */
  predicate DecimalReference(d: string)
  {
    d != [] && AllDigits(d)
  }

  /**
   * The rules `isLegalEntity` applies to the candidate running from the '&'
   * at `st` to the ';' or '<' at `en`: `&#x…;` holds hex digits of a value
   * at most 0x10FFFF, `&#…;` holds decimal digits, and a named entity starts
   * with a letter, consists of name chars and ends in ';'. A reference with
   * no digits at all is not legal (see the as-written variant below).
   */
  predicate EntityRule(a: seq<char>, st: int, en: int, isLetter: char -> bool, isNameChar: char -> bool)
    requires 0 <= st < en < |a| && (a[en] == ';' || a[en] == '<')
  {
    if a[st + 1] == '#' then
      (if a[st + 2] == 'x' then HexReference(a[st + 3..en]) else DecimalReference(a[st + 2..en]))
      && a[en] == ';'
    else
      isLetter(a[st + 1]) && a[en] == ';' && forall i :: st + 1 <= i < en ==> isNameChar(a[i])
  }

  /**
   * `isLegalEntity` as written: `Long.parseLong` of an empty or overlong hex
   * run raises NumberFormatException, and `&#;` passes the decimal check.
   */
  function IsLegalEntityAsWritten(a: seq<char>, st: int, en: int, isLetter: char -> bool, isNameChar: char -> bool): Result<bool>
    requires 0 <= st < en < |a| && (a[en] == ';' || a[en] == '<')
  {
    if a[st + 1] == '#' then
      if a[st + 2] == 'x' then
        var h := a[st + 3..en];
        if !(forall k :: 0 <= k < |h| ==> IsHexDigit(h[k])) then Ok(false)
        else if h == [] || DigitsValue(h, 16) > 0x7FFF_FFFF_FFFF_FFFF then Err("NumberFormatException")
        else if DigitsValue(h, 16) > 0x10FFFF then Ok(false)
        else Ok(a[en] == ';')
      else Ok(AllDigits(a[st + 2..en]) && a[en] == ';')
    else Ok(isLetter(a[st + 1]) && a[en] == ';' && forall i :: st + 1 <= i < en ==> isNameChar(a[i]))
  }

  /** "&#x;" makes the code as written throw, and "&#;" passes it; neither is a reference. */
  lemma {:induction false} EmptyReferenceAsWritten(isLetter: char -> bool, isNameChar: char -> bool)
    ensures IsLegalEntityAsWritten("&#x;", 0, 3, isLetter, isNameChar).Err?
    ensures !EntityRule("&#x;", 0, 3, isLetter, isNameChar)
    ensures IsLegalEntityAsWritten("&#;", 0, 2, isLetter, isNameChar) == Ok(true)
    ensures !EntityRule("&#;", 0, 2, isLetter, isNameChar)
  {
    assert "&#x;"[3..3] == [];
    assert "&#;"[2..2] == [];
  }

  /** Wherever the code as written reaches a verdict without throwing, it agrees with the rules except on an empty digit run. */
  lemma {:induction false} EntityAsWrittenAgrees(a: seq<char>, st: int, en: int, isLetter: char -> bool, isNameChar: char -> bool)
    requires 0 <= st < en < |a| && (a[en] == ';' || a[en] == '<')
    requires a[st + 1] == '#' ==> en > st + 3 || (a[st + 2] != 'x' && en > st + 2)
    requires IsLegalEntityAsWritten(a, st, en, isLetter, isNameChar).Ok?
    ensures IsLegalEntityAsWritten(a, st, en, isLetter, isNameChar).value == EntityRule(a, st, en, isLetter, isNameChar)
  {
  }

  /**
   * `isLegalEntity`, with an empty digit run refused instead of handed to
   * `Long.parseLong`. `Character.isDigit` is taken as the ASCII digits and
   * `Character.isLetter` and Woodstox's `isNameChar` are parameters.
   */
  method IsLegalEntity(cbuf: array<char>, startIdx: int, endIdx: int, isLetter: char -> bool, isNameChar: char -> bool)
    returns (r: bool)
    requires 0 <= startIdx < endIdx < cbuf.Length && (cbuf[endIdx] == ';' || cbuf[endIdx] == '<')
    ensures r == EntityRule(cbuf[..], startIdx, endIdx, isLetter, isNameChar)
  {
    if cbuf[startIdx + 1] == '#' {
      if cbuf[startIdx + 2] == 'x' {
        var i := startIdx + 3;
        while i < endIdx
          invariant startIdx + 3 <= i <= endIdx
          invariant forall k :: startIdx + 3 <= k < i ==> IsHexDigit(cbuf[k])
        {
          if !IsHexDigit(cbuf[i]) {
            assert cbuf[..][startIdx + 3..endIdx][i - (startIdx + 3)] == cbuf[i];
            return false;
          }
          i := i + 1;
        }
        ghost var h := cbuf[..][startIdx + 3..endIdx];
        assert forall k :: 0 <= k < |h| ==> h[k] == cbuf[startIdx + 3 + k];
        if endIdx == startIdx + 3 {
          return false;
        }
        var value := DigitsValue(cbuf[startIdx + 3..endIdx], 16);
        if value > 0x10FFFF {
          return false;
        }
      } else {
        var i := startIdx + 2;
        while i < endIdx
          invariant startIdx + 2 <= i <= endIdx
          invariant forall k :: startIdx + 2 <= k < i ==> IsAsciiDigit(cbuf[k])
        {
          if !IsAsciiDigit(cbuf[i]) {
            assert cbuf[..][startIdx + 2..endIdx][i - (startIdx + 2)] == cbuf[i];
            return false;
          }
          i := i + 1;
        }
        ghost var d := cbuf[..][startIdx + 2..endIdx];
        assert forall k :: 0 <= k < |d| ==> d[k] == cbuf[startIdx + 2 + k];
        if endIdx == startIdx + 2 {
          return false;
        }
      }
      return cbuf[endIdx] == ';';
    } else if !isLetter(cbuf[startIdx + 1]) {
      return false;
    }
    if cbuf[endIdx] != ';' {
      return false;
    }
    var i := startIdx + 1;
    while i < endIdx
      invariant startIdx + 1 <= i <= endIdx
      invariant forall k :: startIdx + 1 <= k < i ==> isNameChar(cbuf[k])
    {
      if !isNameChar(cbuf[i]) {
        return false;
      }
      i := i + 1;
    }
    return true;
  }

  // ---------------------------------------------------------------------
  // What one complete element does to the buffer and the element stack
  // ---------------------------------------------------------------------

  /** The buffer, the element stack (most recently opened first) and the DOCTYPE flag. */
  datatype Effect = Effect(buf: seq<char>, stack: seq<string>, hasDocType: bool)

  function Spaces(n: nat): (r: seq<char>)
    ensures |r| == n && forall k :: 0 <= k < n ==> r[k] == ' '
  {
    seq(n, _ => ' ')
  }

  /** Positions `i` to `j` (both included) overwritten with spaces. */
  function BlankRange(b: seq<char>, i: int, j: int): (r: seq<char>)
    requires 0 <= i <= j < |b|
    ensures |r| == |b|
    ensures forall k :: 0 <= k < |b| ==> r[k] == (if i <= k <= j then ' ' else b[k])
  {
    b[..i] + Spaces(j - i + 1) + b[j + 1..]
  }

  /** The '<' and the '>' of an element masked with '_'. */
  function Unbracket(b: seq<char>, s: int, e: int): (r: seq<char>)
    requires 0 <= s < e < |b|
    ensures Repaired(b, r, s, e + 1)
  {
    b[s := '_'][e := '_']
  }

  /** A processing instruction that does not end in "?>" loses its '?' (advanced fixing). */
  function FixPi(b: seq<char>, s: int, e: int): (r: seq<char>)
    requires Bracketed(b, s, e)
    ensures Bracketed(r, s, e) && Repaired(b, r, s, e + 1)
    ensures b[s + 1] != '?' ==> r == b
  {
    if b[s + 1] == '?' && (e - s < 3 || b[e - 1] != '?') then b[s + 1 := '_'] else b
  }

  /** A `<!…>` that is neither a comment, nor a long enough DOCTYPE nor a long enough CDATA section. */
  predicate BadDeclaration(b: seq<char>, s: int, e: int)
    requires Bracketed(b, s, e)
  {
    b[s + 1] == '!' && !IsLegalComment(b, s, e)
    && !((b[s + 2] == 'D' || b[s + 2] == 'd') && e - s >= 12)
    && !(b[s + 2] == '[' && e - s >= 10)
  }

  predicate IsDoctype(b: seq<char>, s: int, e: int)
    requires Bracketed(b, s, e)
  {
    b[s + 1] == '!' && (b[s + 2] == 'D' || b[s + 2] == 'd')
  }

  /** Where the tag name starts: after "</" or "<?", else after '<'. */
  function StartTagOf(b: seq<char>, s: int, e: int): (r: int)
    requires Bracketed(b, s, e)
    ensures s + 1 <= r <= e
  {
    if b[s + 1] == '/' || b[s + 1] == '?' then s + 2 else s + 1
  }

  /**
   * Where the tag name ends: at the first separator inside the element, else
   * before a self-closing "/>", else at the '>'.
   */
  function EndTagOf(b: seq<char>, s: int, e: int): (r: int)
    requires Bracketed(b, s, e)
    ensures StartTagOf(b, s, e) <= r <= e || (r == e - 1 && b[e - 1] == '/')
    ensures forall k :: StartTagOf(b, s, e) <= k < r ==> b[k] !in TagNameEnds
  {
    var ws := FirstOf(b, StartTagOf(b, s, e), TagNameEnds);
    if ws > e || ws < 0 then (if b[e - 1] == '/' then e - 1 else e) else ws
  }

  /** The chars advanced fixing accepts in a tag name. */
  predicate TagNameChar(c: char, isLetter: char -> bool)
  {
    isLetter(c) || c == ':'
  }

  /** An empty tag name, or one with a char other than a letter or ':'. */
  predicate IllegalTag(b: seq<char>, startTag: int, tagLen: int, isLetter: char -> bool)
    requires 0 <= startTag && startTag + tagLen <= |b|
  {
    tagLen == 0 || !(forall j :: startTag <= j < startTag + tagLen ==> TagNameChar(b[j], isLetter))
  }

  /**
   * Lines 204-257 of `read`: a closing tag pops a matching top of the stack
   * and is blanked otherwise, an opening tag is pushed (or blanked when it
   * is a strip tag), a self-closing tag or a processing instruction leaves
   * everything as it is.
   */
  function TagEffect(b: seq<char>, s: int, e: int, stack: seq<string>, hd: bool, adv: bool, isLetter: char -> bool): (r: Effect)
    requires Bracketed(b, s, e)
    ensures Repaired(b, r.buf, s, e + 1) && r.hasDocType == hd
  {
    var startTag := StartTagOf(b, s, e);
    var endTag := EndTagOf(b, s, e);
    if adv && endTag - startTag >= 0 && IllegalTag(b, startTag, endTag - startTag, isLetter) then Effect(Unbracket(b, s, e), stack, hd)
    else StackEffect(b, s, e, startTag, endTag, stack, hd)
  }

  /** Lines 219-255 of `read`: the tag `b[startTag..endTag]` of the element, on the element stack. */
  function StackEffect(b: seq<char>, s: int, e: int, startTag: int, endTag: int, stack: seq<string>, hd: bool): (r: Effect)
    requires Bracketed(b, s, e) && startTag == StartTagOf(b, s, e) && endTag == EndTagOf(b, s, e)
    ensures Repaired(b, r.buf, s, e + 1) && r.hasDocType == hd
  {
    if b[s + 1] == '/' then
      if stack != [] && TagMatches(b, startTag, endTag - startTag, stack[0]) then Effect(b, stack[1..], hd)
      else Effect(BlankRange(b, s, e), stack, hd)
    else if b[e - 1] != '/' && b[s + 1] != '?' then
      if b[startTag..endTag] in StripTags then Effect(BlankRange(b, s, e), stack, hd)
      else Effect(b, [b[startTag..endTag]] + stack, hd)
    else Effect(b, stack, hd)
  }

  /** Lines 187-202 of `read`: comments pass, a DOCTYPE after the first is blanked. */
  function MarkupEffect(b: seq<char>, s: int, e: int, stack: seq<string>, hd: bool, adv: bool, isLetter: char -> bool): (r: Effect)
    requires Bracketed(b, s, e)
    ensures Repaired(b, r.buf, s, e + 1)
  {
    if IsLegalComment(b, s, e) then Effect(b, stack, hd)
    else if IsDoctype(b, s, e) then
      if hd then Effect(BlankRange(b, s, e), stack, hd) else Effect(b, stack, true)
    else TagEffect(b, s, e, stack, hd, adv, isLetter)
  }

  /**
   * Lines 165-257 of `read`: what the complete element `b[s..e]` does to the
   * buffer, the element stack and the DOCTYPE flag.
   */
  function ElementEffect(b: seq<char>, s: int, e: int, stack: seq<string>, hd: bool, adv: bool, isLetter: char -> bool): (r: Effect)
    requires Bracketed(b, s, e)
    ensures Repaired(b, r.buf, s, e + 1)
  {
    if !adv then MarkupEffect(b, s, e, stack, hd, adv, isLetter)
    else
      var b1 := FixPi(b, s, e);
      if BadDeclaration(b1, s, e) then Effect(Unbracket(b1, s, e), stack, hd)
      else MarkupEffect(b1, s, e, stack, hd, adv, isLetter)
  }

  // ---------------------------------------------------------------------
  // Properties of one element
  // ---------------------------------------------------------------------

  /**
   * A closing tag whose name advanced fixing accepts pops the stack when it
   * names the most recently opened element and is overwritten with the same
   * number of spaces otherwise.
   */
  lemma {:induction false} ClosingTagPopsOrBlanks(b: seq<char>, s: int, e: int, stack: seq<string>, hd: bool, adv: bool, isLetter: char -> bool)
    requires Bracketed(b, s, e) && b[s + 1] == '/'
    requires adv && EndTagOf(b, s, e) >= s + 2 ==> !IllegalTag(b, s + 2, EndTagOf(b, s, e) - (s + 2), isLetter)
    ensures var r := ElementEffect(b, s, e, stack, hd, adv, isLetter);
      r.hasDocType == hd &&
      if stack != [] && TagMatches(b, s + 2, EndTagOf(b, s, e) - (s + 2), stack[0]) then r.buf == b && r.stack == stack[1..]
      else r.buf == BlankRange(b, s, e) && r.stack == stack
  {
    assert FixPi(b, s, e) == b;
    assert !IsLegalComment(b, s, e) && !IsDoctype(b, s, e);
  }

  /**
   * An opening tag, not self-closing and not a processing instruction, whose
   * name advanced fixing accepts, is pushed; a strip tag ("br") is overwritten
   * with spaces instead.
   */
  lemma {:induction false} OpeningTagPushes(b: seq<char>, s: int, e: int, stack: seq<string>, hd: bool, adv: bool, isLetter: char -> bool)
    requires Bracketed(b, s, e) && b[s + 1] !in {'/', '?', '!'} && b[e - 1] != '/'
    requires adv ==> !IllegalTag(b, s + 1, EndTagOf(b, s, e) - (s + 1), isLetter)
    ensures var r := ElementEffect(b, s, e, stack, hd, adv, isLetter);
      var name := b[s + 1..EndTagOf(b, s, e)];
      r.hasDocType == hd &&
      if name == "br" then r.buf == BlankRange(b, s, e) && r.stack == stack
      else r.buf == b && r.stack == [name] + stack
  {
    assert FixPi(b, s, e) == b;
    assert !IsLegalComment(b, s, e) && !IsDoctype(b, s, e);
  }

  /** The first DOCTYPE is kept and remembered; every later one is overwritten with spaces. */
  lemma {:induction false} DoctypeOnce(b: seq<char>, s: int, e: int, stack: seq<string>, hd: bool, adv: bool, isLetter: char -> bool)
    requires Bracketed(b, s, e) && IsDoctype(b, s, e) && e - s >= 12
    ensures var r := ElementEffect(b, s, e, stack, hd, adv, isLetter);
      r.stack == stack && r.hasDocType &&
      r.buf == if hd then BlankRange(b, s, e) else b
  {
    assert FixPi(b, s, e) == b;
    assert !IsLegalComment(b, s, e);
  }

  // ---------------------------------------------------------------------
  // The trailer
  // ---------------------------------------------------------------------

  /** The closing tag of an element. */
  function ClosingTag(name: string): (r: string)
    ensures |r| == |name| + 3 && r[0] == '<' && r[1] == '/' && r[|r| - 1] == '>'
    ensures r[2..|r| - 1] == name
  {
    "</" + name + ">"
  }

  /** The trailer: the closing tag of every element on the stack, most recently opened first. */
  function ClosingTags(stack: seq<string>): (r: string)
    ensures stack == [] <==> r == []
  {
    if stack == [] then [] else ClosingTag(stack[0]) + ClosingTags(stack[1..])
  }

  /** The trailer of two stacks one on the other is the two trailers one after the other. */
  lemma {:induction false} ClosingTagsAppend(top: seq<string>, below: seq<string>)
    ensures ClosingTags(top + below) == ClosingTags(top) + ClosingTags(below)
    decreases |top|
  {
    if top == [] {
      assert top + below == below;
    } else {
      assert (top + below)[0] == top[0] && (top + below)[1..] == top[1..] + below;
      ClosingTagsAppend(top[1..], below);
      ConcatAssoc(ClosingTag(top[0]), ClosingTags(top[1..]), ClosingTags(below));
    }
  }

  /**
   * The trailer holds the closing tag of each open element in its place:
   * after those of the elements opened later, before those opened earlier.
   */
  lemma {:induction false} ClosingTagsAt(stack: seq<string>, i: nat)
    requires i < |stack|
    ensures ClosingTags(stack) == ClosingTags(stack[..i]) + ClosingTag(stack[i]) + ClosingTags(stack[i + 1..])
  {
    assert stack == stack[..i] + stack[i..];
    ClosingTagsAppend(stack[..i], stack[i..]);
    assert stack[i..][0] == stack[i] && stack[i..][1..] == stack[i + 1..];
    ConcatAssoc(ClosingTags(stack[..i]), ClosingTag(stack[i]), ClosingTags(stack[i + 1..]));
  }

  /** A name the stack can hold under advanced fixing: non-empty, letters and ':' only. */
  predicate Closable(name: string, isLetter: char -> bool)
  {
    name != [] && forall k :: 0 <= k < |name| ==> TagNameChar(name[k], isLetter) && name[k] !in TagNameEnds
  }

  /** The closing tag of a closable name pops it off the top of the stack. */
  lemma {:induction false} ClosingTagPops(name: string, stack: seq<string>, hd: bool, adv: bool, isLetter: char -> bool)
    requires stack != [] && name == stack[0] && Closable(name, isLetter) && !isLetter('/')
    ensures var t := ClosingTag(name);
      ElementEffect(t, 0, |t| - 1, stack, hd, adv, isLetter) == Effect(t, stack[1..], hd)
  {
    var t := ClosingTag(name);
    var e := |t| - 1;
    assert Bracketed(t, 0, e);
    assert forall k :: 2 <= k <= e ==> t[k] !in TagNameEnds by {
      forall k | 2 <= k <= e ensures t[k] !in TagNameEnds {
        if k < e {
          assert t[k] == t[2..e][k - 2] == name[k - 2];
        }
      }
    }
    assert FirstOf(t, 2, TagNameEnds) == -1;
    assert t[e - 1] == name[|name| - 1];
    assert EndTagOf(t, 0, e) == e;
    assert t[2..e] == name;
    assert !IllegalTag(t, 2, e - 2, isLetter);
    ClosingTagPopsOrBlanks(t, 0, e, stack, hd, adv, isLetter);
  }

  /**
   * Under advanced fixing every name an element pushes is closable, so every
   * closing tag of the trailer pops its element.
   */
  lemma {:induction false} PushedNamesClosable(b: seq<char>, s: int, e: int, stack: seq<string>, hd: bool, isLetter: char -> bool)
    requires Bracketed(b, s, e) && !isLetter('/')
    requires forall k :: 0 <= k < |stack| ==> Closable(stack[k], isLetter)
    ensures var r := ElementEffect(b, s, e, stack, hd, true, isLetter);
      forall k :: 0 <= k < |r.stack| ==> Closable(r.stack[k], isLetter)
  {
    var b1 := FixPi(b, s, e);
    if !BadDeclaration(b1, s, e) && !IsLegalComment(b1, s, e) && !IsDoctype(b1, s, e) {
      var startTag := StartTagOf(b1, s, e);
      var endTag := EndTagOf(b1, s, e);
      if b1[s + 1] != '/' && b1[e - 1] != '/' && b1[s + 1] != '?' && !IllegalTag(b1, startTag, endTag - startTag, isLetter) {
        var name := b1[startTag..endTag];
        assert forall k :: 0 <= k < |name| ==> name[k] == b1[startTag + k];
        assert Closable(name, isLetter);
      }
    }
  }

  // ---------------------------------------------------------------------
  // Corrections to `read` (see the as-written variants)
  // ---------------------------------------------------------------------

  /** The carried-over chunk `read` copies as written: always from index 0 of the carry-over. */
  function CarryChunkAsWritten(carry: seq<char>, carryIdx: nat, len: nat): seq<char>
    requires carryIdx <= |carry|
  {
    carry[..Min(|carry| - carryIdx, len)]
  }

  /** The carried-over chunk a read hands out: the next chars after those already handed out. */
  function CarryChunk(carry: seq<char>, carryIdx: nat, len: nat): (r: seq<char>)
    requires carryIdx <= |carry|
    ensures |r| == Min(|carry| - carryIdx, len)
    ensures r + carry[carryIdx + |r|..] == carry[carryIdx..]
  {
    carry[carryIdx..carryIdx + Min(|carry| - carryIdx, len)]
  }

  /** Two reads of size 2 over the carry-over "<abc": as written "<a" twice, intended "<a" then "bc". */
  lemma {:induction false} CarryRepeatedAsWritten()
    ensures CarryChunkAsWritten("<abc", 0, 2) + CarryChunkAsWritten("<abc", 2, 2) == "<a<a"
    ensures CarryChunk("<abc", 0, 2) + CarryChunk("<abc", 2, 2) == "<abc"
  {
  }

  /** `numRead += numInputRead` as written: the -1 of an exhausted reader is added. */
  function ReadCountAsWritten(carried: nat, numInputRead: int): int
  {
    carried + numInputRead
  }

  /** The chars a read holds after the carry-over and the wrapped reader: -1 only when both gave nothing. */
  function ReadCount(carried: nat, numInputRead: int): (r: int)
    ensures r == -1 <==> carried == 0 && numInputRead < 0
    ensures r >= 0 ==> r == carried + Max(numInputRead, 0)
  {
    if numInputRead < 0 then (if carried > 0 then carried else -1) else carried + numInputRead
  }

  /** Three carried-over chars and an exhausted reader: as written two are returned. */
  lemma {:induction false} EndAfterCarryAsWritten()
    ensures ReadCountAsWritten(3, -1) == 2 && ReadCount(3, -1) == 3
  {
  }

  /** The bound checks as written (`p > off + numRead` means outside): the index just past the data passes. */
  predicate InDataAsWritten(p: int, off: int, numRead: int)
  {
    0 <= p <= off + numRead
  }

  /** A search result that lies in the data just read. */
  predicate InData(p: int, off: int, numRead: int)
  {
    0 <= p < off + numRead
  }

  /**
   * With "<ab" just read into a buffer whose next, stale, char is '>', the
   * check as written takes the stale '>' as the end of the element and pushes
   * "ab"; the intended check carries "<ab" over instead.
   */
  lemma {:induction false} StaleCloseAsWritten(isLetter: char -> bool)
    ensures IndexOfChar("<ab>", '>', 1) == 3
    ensures InDataAsWritten(3, 0, 3) && !InData(3, 0, 3)
    ensures ElementEffect("<ab>", 0, 3, [], false, false, isLetter).stack == ["ab"]
  {
    assert IndexOfChar("<ab>", '>', 1) == 3;
    var b: seq<char> := "<ab>";
    assert FirstOf(b, 1, TagNameEnds) == -1;
    assert b[1..3] == "ab";
  }

  /** The size of an entity carry-over as written: `off` is left out. */
  function EntityCarrySizeAsWritten(off: int, numRead: int, amp: int): int
  {
    numRead - (amp + 1)
  }

  /** The size of an entity carry-over: the chars of the data after the '&'. */
  function EntityCarrySize(off: int, numRead: int, amp: int): (r: int)
    requires off <= amp < off + numRead
    ensures 0 <= r < numRead && amp + 1 + r == off + numRead
  {
    off + numRead - (amp + 1)
  }

  /** "&ab" read at offset 4: as written the size is -2 (NegativeArraySizeException), intended 2. */
  lemma {:induction false} EntityCarryAsWritten()
    ensures EntityCarrySizeAsWritten(4, 3, 4) == -2
    ensures EntityCarrySize(4, 3, 4) == |"ab"|
  {
  }

  // ---------------------------------------------------------------------
  // The filter
  // ---------------------------------------------------------------------

  /** How an entity pass ends: at an element, with nothing left to check, or cut by the end of the data. */
  datatype EntityScan = Resume(idx: int) | Finish | EntityCarry(size: int)

  /** How one pass of the outer loop of `read` ends. */
  datatype ScanStep = Continue(next: int) | Stop | Carry(size: int)

  class SanitizingXmlFilter {
    /** The names of the open elements, most recently opened first. */
    var elementStack: seq<string>
    var carryOver: Option<seq<char>>
    var carryOverIdx: int
    var closingTagsTrailer: Option<seq<char>>
    var closingTagsTrailerIdx: int
    var hasDocType: bool
    const advancedFixing: bool
    /** `Character.isLetter`. */
    const isLetter: char -> bool
    /** Woodstox's `WstxInputData.isNameChar(c, false, false)`. */
    const isNameChar: char -> bool
    /** What the wrapped reader has still to deliver. */
    var input: seq<char>

    ghost predicate Valid()
      reads this`carryOver, this`carryOverIdx, this`input, this`elementStack,
        this`closingTagsTrailer, this`closingTagsTrailerIdx
    {
      (carryOver.Some? ==> 0 <= carryOverIdx <= |carryOver.value|) &&
      (closingTagsTrailer.Some? ==>
        0 <= closingTagsTrailerIdx <= |closingTagsTrailer.value| &&
        closingTagsTrailer.value == ClosingTags(elementStack) &&
        carryOver.None? && input == [])
    }

    /** `s` is the last part of the closing tags trailer handed out. */
    ghost predicate HandedOut(s: seq<char>)
      reads this`closingTagsTrailer, this`closingTagsTrailerIdx
    {
      closingTagsTrailer.Some? && 0 <= closingTagsTrailerIdx - |s| &&
      closingTagsTrailerIdx <= |closingTagsTrailer.value| &&
      s == closingTagsTrailer.value[closingTagsTrailerIdx - |s|..closingTagsTrailerIdx]
    }

    /** The carried-over chars not yet handed out. */
    function CarryRest(): seq<char>
      reads this`carryOver, this`carryOverIdx
    {
      if carryOver.Some? && 0 <= carryOverIdx <= |carryOver.value| then carryOver.value[carryOverIdx..] else []
    }

    /** The chars still to be handed out before the trailer: the carry-over, then the input. */
    function Pending(): seq<char>
      reads this`carryOver, this`carryOverIdx, this`input
    {
      CarryRest() + input
    }

    constructor (input: seq<char>, advancedFixing: bool, isLetter: char -> bool, isNameChar: char -> bool)
      ensures Valid() && Pending() == input
      ensures elementStack == [] && !hasDocType && closingTagsTrailer.None?
      ensures this.advancedFixing == advancedFixing && this.isLetter == isLetter && this.isNameChar == isNameChar
    {
      elementStack := [];
      carryOver := None;
      carryOverIdx := -1;
      closingTagsTrailer := None;
      closingTagsTrailerIdx := -1;
      hasDocType := false;
      this.advancedFixing := advancedFixing;
      this.isLetter := isLetter;
      this.isNameChar := isNameChar;
      this.input := input;
    }

    /** The wrapped reader's `read(cbuf, at, n)`: all it has, up to `n` chars, or -1 at its end. */
    method ReadInput(cbuf: array<char>, at: nat, n: nat) returns (k: int)
      requires at + n <= cbuf.Length
      modifies this`input, cbuf
      ensures n == 0 ==> k == 0
      ensures n > 0 && old(input) == [] ==> k == -1
      ensures n > 0 && old(input) != [] ==> k == Min(n, |old(input)|)
      ensures at + Max(k, 0) <= cbuf.Length
      ensures cbuf[..at + Max(k, 0)] == old(cbuf[..at]) + old(input)[..Max(k, 0)] && input == old(input)[Max(k, 0)..]
    {
      if n == 0 {
        return 0;
      }
      if input == [] {
        return -1;
      }
      k := Min(n, |input|);
      Copy(input, 0, cbuf, at, k);
      assert cbuf[..at + k] == cbuf[..at] + cbuf[at..at + k];
      input := input[k..];
    }

    /**
     * The entity pass of `read` (advanced fixing): from `idx`, every '&'
     * before the next '<' is checked and masked with '_' when it does not
     * start a legal entity.
     */
    method FixEntities(cbuf: array<char>, off: nat, end: nat, idx0: nat) returns (outcome: EntityScan)
      requires off <= idx0 < end <= cbuf.Length
      modifies cbuf
      ensures Repaired(old(cbuf[..]), cbuf[..], off, end)
      ensures outcome.Resume? ==> idx0 <= outcome.idx <= end
      ensures outcome.EntityCarry? ==> 0 <= outcome.size < end - off
    {
      var idx := idx0;
      while idx < end
        invariant idx0 <= idx <= end
        invariant Repaired(old(cbuf[..]), cbuf[..], off, end)
        decreases end - idx
      {
        var amp := MultiIndexOf(cbuf, idx, ['<', '&']);
        if !InData(amp, off, end - off) {
          return Finish;
        }
        if cbuf[amp] == '<' {
          return Resume(idx);
        }
        var entityEnd := MultiIndexOf(cbuf, amp + 1, ['<', ';']);
        if entityEnd < amp + 1 || !InData(entityEnd, off, end - off) {
          return EntityCarry(EntityCarrySize(off, end - off, amp));
        }
        var legal := IsLegalEntity(cbuf, amp, entityEnd, isLetter, isNameChar);
        if !legal {
          ghost var before := cbuf[..];
          cbuf[amp] := '_';
          RepairedTrans(old(cbuf[..]), before, cbuf[..], off, end, off, end);
        }
        idx := amp + 1;
      }
      return Resume(idx);
    }

    /** The `advancedFixing` block of lines 167-185 on a complete element. */
    method FixDeclaration(cbuf: array<char>, startElem: int, endElem: int) returns (masked: bool)
      requires Bracketed(cbuf[..], startElem, endElem)
      modifies cbuf
      ensures var b1 := FixPi(old(cbuf[..]), startElem, endElem);
        masked == BadDeclaration(b1, startElem, endElem) &&
        cbuf[..] == if masked then Unbracket(b1, startElem, endElem) else b1
    {
      if cbuf[startElem + 1] == '?' && (endElem - startElem < 3 || cbuf[endElem - 1] != '?') {
        cbuf[startElem + 1] := '_';
      }
      if cbuf[startElem + 1] == '!' {
        var isComment := IsLegalComment(cbuf[..], startElem, endElem);
        var isDoctype := (cbuf[startElem + 2] == 'D' || cbuf[startElem + 2] == 'd') && endElem - startElem >= 12;
        var isCdata := cbuf[startElem + 2] == '[' && endElem - startElem >= 10;
        if !isComment && !isDoctype && !isCdata {
          cbuf[startElem] := '_';
          cbuf[endElem] := '_';
          return true;
        }
      }
      return false;
    }

    /** Lines 204-257 of `read` on a complete element that is no comment and no DOCTYPE. */
    method HandleTag(cbuf: array<char>, startElem: int, endElem: int)
      requires Bracketed(cbuf[..], startElem, endElem)
      modifies cbuf, this`elementStack
      ensures var r := TagEffect(old(cbuf[..]), startElem, endElem, old(elementStack), hasDocType, advancedFixing, isLetter);
        cbuf[..] == r.buf && elementStack == r.stack
    {
      var startTag := if cbuf[startElem + 1] == '/' || cbuf[startElem + 1] == '?' then startElem + 2 else startElem + 1;
      var endTag := MultiIndexOf(cbuf, startTag, TagNameEnds);
      if endTag > endElem || endTag < 0 {
        endTag := if cbuf[endElem - 1] == '/' then endElem - 1 else endElem;
      }
      assert startTag == StartTagOf(cbuf[..], startElem, endElem) && endTag == EndTagOf(cbuf[..], startElem, endElem);
      var tagLen := endTag - startTag;
      if advancedFixing {
        var illegalTag := CheckTagName(cbuf, startTag, tagLen);
        if illegalTag {
          cbuf[startElem] := '_';
          cbuf[endElem] := '_';
          return;
        }
      }
      HandleStack(cbuf, startElem, endElem, startTag, endTag);
    }

    /** Lines 219-255 of `read`: a closing tag, an opening tag, or neither. */
    method HandleStack(cbuf: array<char>, startElem: int, endElem: int, startTag: int, endTag: int)
      requires Bracketed(cbuf[..], startElem, endElem)
      requires startTag == StartTagOf(cbuf[..], startElem, endElem) && endTag == EndTagOf(cbuf[..], startElem, endElem)
      modifies cbuf, this`elementStack
      ensures var r := StackEffect(old(cbuf[..]), startElem, endElem, startTag, endTag, old(elementStack), hasDocType);
        cbuf[..] == r.buf && elementStack == r.stack
    {
      if cbuf[startElem + 1] == '/' {
        CloseTag(cbuf, startElem, endElem, startTag, endTag - startTag);
      } else if cbuf[endElem - 1] != '/' && cbuf[startElem + 1] != '?' {
        OpenTag(cbuf, startElem, endElem, startTag, endTag);
      }
    }

    /** The tag name check of advanced fixing (lines 207-217): empty, or a char not allowed in a name. */
    method CheckTagName(cbuf: array<char>, startTag: int, tagLen: int) returns (illegalTag: bool)
      requires 0 <= startTag <= cbuf.Length && startTag + tagLen <= cbuf.Length
      ensures illegalTag <==> tagLen >= 0 && IllegalTag(cbuf[..], startTag, tagLen, isLetter)
    {
      illegalTag := tagLen == 0;
      var i := 0;
      while i < tagLen
        invariant 0 <= i && (tagLen >= 0 ==> i <= tagLen) && startTag + i <= cbuf.Length
        invariant forall j :: startTag <= j < startTag + i ==> TagNameChar(cbuf[j], isLetter)
        invariant illegalTag <==> tagLen == 0
      {
        if !TagNameChar(cbuf[startTag + i], isLetter) {
          illegalTag := true;
          break;
        }
        i := i + 1;
      }
    }

    /** A closing tag (lines 219-237): pops the matching top of the stack, else is blanked. */
    method CloseTag(cbuf: array<char>, startElem: int, endElem: int, startTag: int, tagLen: int)
      requires Bracketed(cbuf[..], startElem, endElem) && startTag == startElem + 2 && startTag + tagLen <= endElem
      modifies cbuf, this`elementStack
      ensures if old(elementStack) != [] && TagMatches(old(cbuf[..]), startTag, tagLen, old(elementStack)[0])
        then cbuf[..] == old(cbuf[..]) && elementStack == old(elementStack)[1..]
        else cbuf[..] == BlankRange(old(cbuf[..]), startElem, endElem) && elementStack == old(elementStack)
    {
      var matches := false;
      if elementStack != [] {
        matches := TagEquals(cbuf, startTag, tagLen, elementStack[0]);
      }
      if !matches {
        Blank(cbuf, startElem, endElem);
      } else {
        elementStack := elementStack[1..];
      }
    }

    /** An opening tag (lines 238-255): pushed on the stack, or blanked when it is a strip tag. */
    method OpenTag(cbuf: array<char>, startElem: int, endElem: int, startTag: int, endTag: int)
      requires Bracketed(cbuf[..], startElem, endElem) && startElem < startTag <= endTag <= endElem
      modifies cbuf, this`elementStack
      ensures var name := old(cbuf[startTag..endTag]);
        if name in StripTags then cbuf[..] == BlankRange(old(cbuf[..]), startElem, endElem) && elementStack == old(elementStack)
        else cbuf[..] == old(cbuf[..]) && elementStack == [name] + old(elementStack)
    {
      var newTag := cbuf[startTag..endTag];
      if newTag in StripTags {
        Blank(cbuf, startElem, endElem);
      } else {
        elementStack := [newTag] + elementStack;
      }
    }

    /** Lines 165-257 of `read`: one complete element, `cbuf[startElem..endElem]`. */
    method HandleElement(cbuf: array<char>, startElem: int, endElem: int)
      requires Bracketed(cbuf[..], startElem, endElem)
      modifies cbuf, this`elementStack, this`hasDocType
      ensures var r := ElementEffect(old(cbuf[..]), startElem, endElem, old(elementStack), old(hasDocType), advancedFixing, isLetter);
        cbuf[..] == r.buf && elementStack == r.stack && hasDocType == r.hasDocType
    {
      if advancedFixing {
        var masked := FixDeclaration(cbuf, startElem, endElem);
        if masked {
          return;
        }
      }
      if IsLegalComment(cbuf[..], startElem, endElem) {
        return;
      }
      if cbuf[startElem + 1] == '!' && (cbuf[startElem + 2] == 'D' || cbuf[startElem + 2] == 'd') {
        if hasDocType {
          Blank(cbuf, startElem, endElem);
        } else {
          hasDocType := true;
        }
        return;
      }
      HandleTag(cbuf, startElem, endElem);
    }

    /** One pass of the outer loop of `read`, from `idx`, over the data `cbuf[off..end]`. */
    method Step(cbuf: array<char>, off: nat, end: nat, idx: nat) returns (step: ScanStep)
      requires off <= idx < end <= cbuf.Length
      modifies cbuf, this`elementStack, this`hasDocType
      ensures Repaired(old(cbuf[..]), cbuf[..], off, end)
      ensures step.Continue? ==> idx < step.next <= end
      ensures step.Carry? ==> 0 <= step.size < end - off
    {
      var i := idx;
      if advancedFixing {
        var outcome := FixEntities(cbuf, off, end, idx);
        match outcome
        case Resume(j) => i := j;
        case Finish => return Stop;
        case EntityCarry(size) => return Carry(size);
      }
      ghost var fixed := cbuf[..];
      var startElem := IndexOfChar(cbuf[..], '<', i);
      if !InData(startElem, off, end - off) {
        return Stop;
      }
      if advancedFixing {
        var nextOpen := IndexOfChar(cbuf[..], '<', startElem + 1);
        var nextClose := IndexOfChar(cbuf[..], '>', startElem);
        if nextOpen >= 0 && nextOpen < nextClose {
          cbuf[startElem] := '_';
          RepairedTrans(old(cbuf[..]), fixed, cbuf[..], off, end, off, end);
          return Continue(i + 1);
        }
      }
      var endElem := IndexOfChar(cbuf[..], '>', startElem + 1);
      if !InData(endElem, off, end - off) {
        var carryOverSize := (end - off) - (startElem - off);
        if carryOverSize == end - off {
          return Continue(end);
        }
        return Carry(carryOverSize);
      }
      HandleElement(cbuf, startElem, endElem);
      RepairedTrans(old(cbuf[..]), fixed, cbuf[..], off, end, startElem, endElem + 1);
      return Continue(endElem + 1);
    }

    /**
     * The scanning loop of `read` over the `numRead` chars at `off`: entities
     * and elements are checked and repaired in place; `dataLen` is how many
     * of them the read returns, the rest being carried over.
     */
    method Scan(cbuf: array<char>, off: nat, numRead: nat) returns (dataLen: nat, truncated: bool)
      requires 0 < numRead && off + numRead <= cbuf.Length
      modifies cbuf, this`elementStack, this`hasDocType
      ensures dataLen <= numRead && (truncated ==> 0 < dataLen) && (!truncated ==> dataLen == numRead)
      ensures Repaired(old(cbuf[..]), cbuf[..], off, off + numRead)
    {
      var end := off + numRead;
      var idx := off;
      dataLen, truncated := numRead, false;
      while idx < end
        invariant off <= idx <= end
        invariant Repaired(old(cbuf[..]), cbuf[..], off, end)
        decreases end - idx
      {
        ghost var before := cbuf[..];
        var step := Step(cbuf, off, end, idx);
        RepairedTrans(old(cbuf[..]), before, cbuf[..], off, end, off, end);
        match step
        case Continue(next) =>
          idx := next;
        case Stop =>
          break;
        case Carry(size) =>
          dataLen, truncated := numRead - size, true;
          break;
      }
    }

    /**
     * `read(cbuf, off, len)`: hands out the carried-over chars and what the
     * wrapped reader delivers, repaired in place; an element or entity cut by
     * the end of the data is carried over; once the input is exhausted the
     * closing tags of the open elements follow, as many per read as fit.
     * `raw` is the data placed into the buffer before the repairs, `dataLen`
     * how much of it the read returns.
     */
    method Read(cbuf: array<char>, off: nat, len: nat)
      returns (numRead: int, ghost raw: seq<char>, ghost dataLen: nat, ghost truncated: bool)
      requires Valid() && off + len <= cbuf.Length
      modifies this`carryOver, this`carryOverIdx, this`input, this`elementStack, this`hasDocType,
        this`closingTagsTrailer, this`closingTagsTrailerIdx, cbuf
      ensures Valid()
      ensures numRead == -1 || 0 <= numRead <= len
      ensures numRead == -1 ==> len > 0 && old(Pending()) == []
      ensures len > 0 && old(Pending()) != [] ==> numRead > 0
      ensures off + dataLen <= cbuf.Length && (numRead >= 0 ==> dataLen <= numRead)
      ensures DataRead(old(Pending()), |old(CarryRest())|, len, raw, cbuf[off..off + dataLen], truncated, Pending())
      ensures numRead > dataLen ==> closingTagsTrailer.Some? && off + numRead <= cbuf.Length
      ensures cbuf[..off] == old(cbuf[..off])
    {
      var n, rem, cut;
      numRead, n, rem, cut, raw := ReadData(cbuf, off, len);
      dataLen, truncated := n, cut;
      if !cut && numRead < rem && elementStack != [] {
        var added := AppendTrailer(cbuf, off, n, rem - n);
        if added == -1 {
          numRead := -1;
        } else {
          numRead := n + added;
        }
      } else {
        assert numRead <= dataLen;
      }
    }

    /**
     * The data part of `read`: the pending chars that fit are placed at `off`
     * and repaired; when `cut`, the element or entity cut by the end of the
     * data becomes the new carry-over and `numRead` counts only what is
     * returned. `rem` is the room left after the old carry-over.
     */
    method ReadData(cbuf: array<char>, off: nat, len: nat)
      returns (numRead: int, n: nat, rem: nat, cut: bool, ghost raw: seq<char>)
      requires Valid() && off + len <= cbuf.Length
      modifies this`carryOver, this`carryOverIdx, this`input, this`elementStack, this`hasDocType, cbuf
      ensures Valid() && closingTagsTrailer == old(closingTagsTrailer)
      ensures -1 <= numRead <= len && rem <= len && (numRead == -1 ==> rem == len)
      ensures numRead == -1 ==> len > 0 && old(Pending()) == [] && !cut
      ensures len > 0 && old(Pending()) != [] ==> numRead > 0
      ensures n == Max(numRead, 0) && off + n <= cbuf.Length
      ensures DataRead(old(Pending()), |old(CarryRest())|, len, raw, cbuf[off..off + n], cut, Pending())
      ensures !cut && numRead < rem ==> carryOver.None? && input == []
      ensures closingTagsTrailer.Some? ==> elementStack == old(elementStack)
      ensures cbuf[..off] == old(cbuf[..off])
    {
      ghost var pending := Pending();
      numRead, n, rem := Fill(cbuf, off, len);
      raw := cbuf[off..off + n];
      ghost var rest := Pending();
      TakeDropJoin(pending, n, raw, rest);
      cut := false;
      if numRead > 0 {
        assert closingTagsTrailer.None?;
        var kept;
        kept, cut := ScanAndCarry(cbuf, off, n);
        if cut {
          numRead, n := kept, kept;
        }
      } else {
        assert Masked(pending, pending);
      }
    }

    /**
     * The repairs of `read` over the `n` chars at `off`; when an element or
     * entity is cut by the end of the data, it becomes the carry-over and
     * only the `kept` chars before it are returned. Unless an old carry-over
     * is overwritten, the returned and the pending chars are the placed and
     * the pending ones, masked.
     */
    method ScanAndCarry(cbuf: array<char>, off: nat, n: nat) returns (kept: nat, cut: bool)
      requires 0 < n && off + n <= cbuf.Length
      modifies cbuf, this`elementStack, this`hasDocType, this`carryOver, this`carryOverIdx
      ensures kept <= n && (cut ==> 0 < kept) && (!cut ==> kept == n)
      ensures !cut || old(carryOver).None? ==>
        Masked(old(cbuf[off..off + n]) + old(Pending()), cbuf[off..off + kept] + Pending())
      ensures cbuf[..off] == old(cbuf[..off])
      ensures cut ==> carryOver.Some? && carryOverIdx == 0 && |carryOver.value| == n - kept
      ensures !cut ==> carryOver == old(carryOver) && carryOverIdx == old(carryOverIdx)
    {
      ghost var placed := cbuf[..];
      ghost var raw := cbuf[off..off + n];
      ghost var rest := Pending();
      kept, cut := Scan(cbuf, off, n);
      ghost var repaired := cbuf[off..off + n];
      RepairedSlice(placed, cbuf[..], off, off + n);
      assert placed[off..off + n] == raw;
      ReadMasked(raw + rest, raw, rest, repaired, kept);
      assert cbuf[..off] == placed[..off] by {
        forall k | 0 <= k < off
          ensures cbuf[k] == placed[k]
        {
          assert cbuf[..][k] == placed[k] || off <= k < off + n;
        }
      }
      if cut {
        carryOver := Some(cbuf[off + kept..off + n]);
        carryOverIdx := 0;
        if old(carryOver).None? {
          assert cbuf[off..off + kept] == repaired[..kept];
          assert Pending() == repaired[kept..] + rest;
        }
      } else {
        assert cbuf[off..off + kept] == repaired;
      }
    }

    /** The carry-over part of `read`: as much of the carried-over chars as fit, placed at `off`. */
    method CopyCarry(cbuf: array<char>, off: nat, len: nat) returns (readLen: nat)
      requires Valid() && off + len <= cbuf.Length
      modifies this`carryOver, this`carryOverIdx, cbuf
      ensures carryOver.Some? ==> 0 <= carryOverIdx <= |carryOver.value|
      ensures readLen == Min(|old(CarryRest())|, len)
      ensures cbuf[..off + readLen] == old(cbuf[..off]) + old(CarryRest())[..readLen]
      ensures CarryRest() == old(CarryRest())[readLen..]
      ensures readLen == |old(CarryRest())| ==> carryOver.None?
    {
      ghost var carried := CarryRest();
      readLen := 0;
      if carryOver.Some? {
        var chunk := CarryChunk(carryOver.value, carryOverIdx, len);
        assert chunk == carried[..|chunk|];
        readLen := |chunk|;
        Copy(chunk, 0, cbuf, off, readLen);
        assert cbuf[..off + readLen] == cbuf[..off] + cbuf[off..off + readLen];
        carryOverIdx := carryOverIdx + readLen;
        if carryOverIdx == |carryOver.value| {
          carryOver := None;
          carryOverIdx := -1;
        }
      }
    }

    /**
     * The start of `read`: the rest of the carry-over, then what the wrapped
     * reader delivers into the room left, placed at `off`; `rem` is the room
     * left after the carry-over (`len` as `read` decrements it).
     */
    method Fill(cbuf: array<char>, off: nat, len: nat) returns (numRead: int, n: nat, rem: nat)
      requires Valid() && off + len <= cbuf.Length
      modifies this`carryOver, this`carryOverIdx, this`input, cbuf
      ensures carryOver.Some? ==> 0 <= carryOverIdx <= |carryOver.value|
      ensures numRead == -1 <==> len > 0 && old(Pending()) == []
      ensures numRead >= -1 && (numRead >= 0 ==> numRead == Min(len, |old(Pending())|))
      ensures rem <= len && (numRead == -1 ==> rem == len)
      ensures n == Max(numRead, 0) && off + n <= cbuf.Length
      ensures cbuf[..off] == old(cbuf[..off]) && cbuf[off..off + n] == old(Pending())[..n]
      ensures Pending() == old(Pending())[n..]
      ensures |old(CarryRest())| <= len ==> carryOver.None?
      ensures numRead < rem ==> carryOver.None? && input == []
    {
      ghost var carried := CarryRest();
      ghost var inputBefore := input;
      ghost var head := cbuf[..off];
      var readLen := CopyCarry(cbuf, off, len);
      rem := len - readLen;
      var numInputRead := ReadInput(cbuf, off + readLen, rem);
      numRead := ReadCount(readLen, numInputRead);
      FillCount(|carried|, |inputBefore|, len, readLen, numInputRead);
      PendingPrefix(carried, inputBefore, len, readLen, numInputRead);
      ConcatAssoc(head, carried[..readLen], inputBefore[..Max(numInputRead, 0)]);
      n := if numRead < 0 then 0 else numRead;
      assert off + n == off + readLen + Max(numInputRead, 0);
      PrefixPiece(cbuf[..], head, (carried + inputBefore)[..n], off, off + n);
    }

    /**
     * The end of `read` once the input is exhausted: the closing tags of the
     * open elements, as many as fit into the `room` chars after the `n` at `off`,
     * continuing where the last read left off; `added` is how many, or -1
     * when the whole trailer has been handed out.
     */
    method AppendTrailer(cbuf: array<char>, off: nat, n: nat, room: nat) returns (added: int)
      requires 0 < room && off + n + room <= cbuf.Length && elementStack != []
      requires closingTagsTrailer.Some? ==>
        0 <= closingTagsTrailerIdx <= |closingTagsTrailer.value| && closingTagsTrailer.value == ClosingTags(elementStack)
      modifies this`closingTagsTrailer, this`closingTagsTrailerIdx, cbuf
      ensures closingTagsTrailer.Some? && closingTagsTrailer.value == ClosingTags(elementStack)
      ensures 0 <= closingTagsTrailerIdx <= |closingTagsTrailer.value|
      ensures old(closingTagsTrailer).Some? ==> closingTagsTrailer == old(closingTagsTrailer)
      ensures added == -1 <==> old(closingTagsTrailer).Some? && old(closingTagsTrailerIdx) == |closingTagsTrailer.value|
      ensures added != -1 ==> 0 < added <= room && HandedOut(cbuf[off + n..off + n + added])
      ensures cbuf[..off] == old(cbuf[..off]) && cbuf[off..off + n] == old(cbuf[off..off + n])
    {
      if closingTagsTrailer.None? {
        closingTagsTrailer := Some(ClosingTags(elementStack));
        closingTagsTrailerIdx := 0;
      } else if closingTagsTrailerIdx == |closingTagsTrailer.value| {
        return -1;
      }
      added := CopyTrailer(cbuf, off, n, room);
    }

    /** The next `added` chars of the trailer, as many as fit into `room`, placed after the `n` at `off`. */
    method CopyTrailer(cbuf: array<char>, off: nat, n: nat, room: nat) returns (added: nat)
      requires 0 < room && off + n + room <= cbuf.Length
      requires closingTagsTrailer.Some? && 0 <= closingTagsTrailerIdx < |closingTagsTrailer.value|
      modifies this`closingTagsTrailerIdx, cbuf
      ensures 0 < added <= room && closingTagsTrailerIdx == old(closingTagsTrailerIdx) + added
      ensures closingTagsTrailerIdx <= |closingTagsTrailer.value|
      ensures HandedOut(cbuf[off + n..off + n + added])
      ensures cbuf[..off] == old(cbuf[..off]) && cbuf[off..off + n] == old(cbuf[off..off + n])
    {
      var at, idx := off + n, closingTagsTrailerIdx;
      ghost var before := cbuf[..];
      added := Min(room, |closingTagsTrailer.value| - idx);
      Copy(closingTagsTrailer.value, idx, cbuf, at, added);
      closingTagsTrailerIdx := idx + added;
      assert cbuf[at..at + added] == closingTagsTrailer.value[closingTagsTrailerIdx - added..closingTagsTrailerIdx];
      PrefixParts(cbuf[..], before, off, at);
    }
  }

  /** The count `read` holds after the carry-over and the wrapped reader, and when it leaves room. */
  lemma {:induction false} FillCount(carried: nat, input: nat, len: nat, readLen: nat, k: int)
    requires readLen == Min(carried, len)
    requires len - readLen == 0 ==> k == 0
    requires len - readLen > 0 && input == 0 ==> k == -1
    requires len - readLen > 0 && input != 0 ==> k == Min(len - readLen, input)
    ensures ReadCount(readLen, k) == -1 <==> len > 0 && carried + input == 0
    ensures ReadCount(readLen, k) >= 0 ==> ReadCount(readLen, k) == Min(len, carried + input)
    ensures ReadCount(readLen, k) < len - readLen ==> readLen == carried && Max(k, 0) == input
  {
  }

  /**
   * The carried-over chars and the wrapped reader's delivery together are the
   * first `len` chars of what was pending (all of it when shorter).
   */
  lemma {:induction false} PendingPrefix(carried: seq<char>, input: seq<char>, len: nat, readLen: nat, k: int)
    requires readLen == Min(|carried|, len)
    requires len - readLen == 0 ==> k == 0
    requires len - readLen > 0 && input == [] ==> k == -1
    requires len - readLen > 0 && input != [] ==> k == Min(len - readLen, |input|)
    ensures Max(k, 0) <= |input| && Max(ReadCount(readLen, k), 0) == readLen + Max(k, 0)
    ensures carried[..readLen] + input[..Max(k, 0)] == (carried + input)[..Max(ReadCount(readLen, k), 0)]
    ensures (carried + input)[Max(ReadCount(readLen, k), 0)..] == carried[readLen..] + input[Max(k, 0)..]
  {
    var ci := carried + input;
    if readLen < |carried| {
      assert ci[..len] == carried[..len];
    } else {
      assert ci[..|carried| + Max(k, 0)] == carried + input[..Max(k, 0)];
    }
  }

  /** `System.arraycopy` of `n` chars of `src` from `from` into `dst` at `at`. */
  method Copy(src: seq<char>, from: nat, dst: array<char>, at: nat, n: nat)
    requires from + n <= |src| && at + n <= dst.Length
    modifies dst
    ensures dst[at..at + n] == src[from..from + n]
    ensures dst[..at] == old(dst[..at]) && dst[at + n..] == old(dst[at + n..])
  {
    var i := 0;
    while i < n
      invariant 0 <= i <= n
      invariant dst[..at] == old(dst[..at]) && dst[at + i..] == old(dst[at + i..])
      invariant dst[at..at + i] == src[from..from + i]
    {
      dst[at + i] := src[from + i];
      assert dst[at..at + i + 1] == dst[at..at + i] + [src[from + i]];
      i := i + 1;
    }
  }

  /** Overwrites positions `from` to `upTo` (both included) with spaces. */
  method Blank(cbuf: array<char>, from: int, upTo: int)
    requires 0 <= from <= upTo < cbuf.Length
    modifies cbuf
    ensures cbuf[..] == BlankRange(old(cbuf[..]), from, upTo)
  {
    ghost var orig := cbuf[..];
    var i := from;
    while i <= upTo
      invariant from <= i <= upTo + 1
      invariant |cbuf[..]| == |orig|
      invariant forall k :: 0 <= k < cbuf.Length ==> cbuf[k] == (if from <= k < i then ' ' else orig[k])
    {
      cbuf[i] := ' ';
      i := i + 1;
    }
    assert forall k :: 0 <= k < cbuf.Length ==> cbuf[..][k] == BlankRange(orig, from, upTo)[k];
  }
}
