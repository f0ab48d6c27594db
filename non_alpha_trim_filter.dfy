/**
 * The token filter that trims every token's leading and trailing runs of
 * characters that are neither letters nor surrogates, leaving its interior
 * untouched.
 */
module NonAlphaTrimFilter {
  import opened Common
  import opened Unicode

  /**
   * `shouldSkip`: neither a letter nor half of a surrogate pair. Which
   * UTF-16 units are letters is the Unicode character database's business,
   * given here as `isLetter`.
   */
  predicate ShouldSkip(isLetter: CodeUnit -> bool, c: CodeUnit)
  {
    !isLetter(c) && !IsHighSurrogate(c) && !IsLowSurrogate(c)
  }

  /** The length of the maximal run of skippable units at the start of `s`. */
  function LeadSkips(isLetter: CodeUnit -> bool, s: seq<CodeUnit>): (n: nat)
    ensures n <= |s|
    ensures forall k :: 0 <= k < n ==> ShouldSkip(isLetter, s[k])
    ensures n < |s| ==> !ShouldSkip(isLetter, s[n])
  {
    if |s| == 0 || !ShouldSkip(isLetter, s[0]) then 0 else 1 + LeadSkips(isLetter, s[1..])
  }

  /** The length of the maximal run of skippable units at the end of `s`. */
  function TrailSkips(isLetter: CodeUnit -> bool, s: seq<CodeUnit>): (n: nat)
    ensures n <= |s|
    ensures forall k :: |s| - n <= k < |s| ==> ShouldSkip(isLetter, s[k])
    ensures n < |s| ==> !ShouldSkip(isLetter, s[|s| - 1 - n])
  {
    if |s| == 0 || !ShouldSkip(isLetter, s[|s| - 1]) then 0 else 1 + TrailSkips(isLetter, s[..|s| - 1])
  }

  /**
   * The token after trimming: what lies between the two maximal skippable
   * runs, or nothing when every unit is skippable.
   */
  function Trimmed(isLetter: CodeUnit -> bool, s: seq<CodeUnit>): (r: seq<CodeUnit>)
    ensures |r| <= |s|
  {
    var lead := LeadSkips(isLetter, s);
    if lead == |s| then [] else s[lead..|s| - TrailSkips(isLetter, s)]
  }

  /** When some unit is kept, the trailing run ends after the leading one. */
  lemma {:induction false} RunsDisjoint(isLetter: CodeUnit -> bool, s: seq<CodeUnit>)
    requires LeadSkips(isLetter, s) < |s|
    ensures TrailSkips(isLetter, s) < |s|
    ensures LeadSkips(isLetter, s) < |s| - TrailSkips(isLetter, s)
  {
    var lead, trail := LeadSkips(isLetter, s), TrailSkips(isLetter, s);
    assert !ShouldSkip(isLetter, s[lead]);
    assert !(|s| - trail <= lead < |s|);
  }

  /** Nothing remains exactly when every unit is skippable. */
  lemma {:induction false} TrimmedEmptyIffAllSkipped(isLetter: CodeUnit -> bool, s: seq<CodeUnit>)
    ensures (forall k :: 0 <= k < |s| ==> ShouldSkip(isLetter, s[k])) <==> Trimmed(isLetter, s) == []
  {
    if LeadSkips(isLetter, s) < |s| {
      RunsDisjoint(isLetter, s);
    }
  }

  /**
   * The trimmed token is the middle part of the token, between its leading
   * run and its trailing part, and it begins and ends with a kept unit.
   */
  lemma {:induction false} TrimmedIsMiddle(isLetter: CodeUnit -> bool, s: seq<CodeUnit>)
    requires Trimmed(isLetter, s) != []
    ensures LeadSkips(isLetter, s) + |Trimmed(isLetter, s)| <= |s|
    ensures Trimmed(isLetter, s) == s[LeadSkips(isLetter, s)..LeadSkips(isLetter, s) + |Trimmed(isLetter, s)|]
    ensures !ShouldSkip(isLetter, Trimmed(isLetter, s)[0])
    ensures !ShouldSkip(isLetter, Trimmed(isLetter, s)[|Trimmed(isLetter, s)| - 1])
  {
    var lead, trail, t := LeadSkips(isLetter, s), TrailSkips(isLetter, s), Trimmed(isLetter, s);
    RunsDisjoint(isLetter, s);
    assert t == s[lead..|s| - trail];
    assert lead + |t| == |s| - trail;
    assert t[0] == s[lead];
    assert t[|t| - 1] == s[|s| - 1 - trail];
  }

  /** Every kept unit of the token survives trimming: only skippable units are cut. */
  lemma {:induction false} TrimmedKeepsEveryKept(isLetter: CodeUnit -> bool, s: seq<CodeUnit>, k: int)
    requires 0 <= k < |s| && !ShouldSkip(isLetter, s[k])
    ensures LeadSkips(isLetter, s) <= k < LeadSkips(isLetter, s) + |Trimmed(isLetter, s)|
    ensures Trimmed(isLetter, s)[k - LeadSkips(isLetter, s)] == s[k]
  {
    RunsDisjoint(isLetter, s);
  }

  /** The loop bound of the leading scan is the maximal leading run. */
  lemma {:induction false} LeadSkipsIsFirstKept(isLetter: CodeUnit -> bool, s: seq<CodeUnit>, n: nat)
    requires n <= |s| && (forall k :: 0 <= k < n ==> ShouldSkip(isLetter, s[k]))
    requires n < |s| ==> !ShouldSkip(isLetter, s[n])
    ensures LeadSkips(isLetter, s) == n
  {
    if n > 0 {
      LeadSkipsIsFirstKept(isLetter, s[1..], n - 1);
    }
  }

  /** The loop bound of the trailing scan is the maximal trailing run. */
  lemma {:induction false} TrailSkipsIsLastKept(isLetter: CodeUnit -> bool, s: seq<CodeUnit>, n: nat)
    requires n < |s| && (forall k :: |s| - n <= k < |s| ==> ShouldSkip(isLetter, s[k]))
    requires !ShouldSkip(isLetter, s[|s| - 1 - n])
    ensures TrailSkips(isLetter, s) == n
  {
    if n > 0 {
      TrailSkipsIsLastKept(isLetter, s[..|s| - 1], n - 1);
    }
  }


  /** A token with nothing skippable at either end is left as it is. */
  lemma {:induction false} TrimmedKeepsCleanToken(isLetter: CodeUnit -> bool, s: seq<CodeUnit>)
    requires |s| > 0 ==> !ShouldSkip(isLetter, s[0]) && !ShouldSkip(isLetter, s[|s| - 1])
    ensures Trimmed(isLetter, s) == s
  {
  }

  /** Trimming twice is trimming once. */
  lemma {:induction false} TrimmedIdempotent(isLetter: CodeUnit -> bool, s: seq<CodeUnit>)
    ensures Trimmed(isLetter, Trimmed(isLetter, s)) == Trimmed(isLetter, s)
  {
    if Trimmed(isLetter, s) != [] {
      TrimmedIsMiddle(isLetter, s);
    }
    TrimmedKeepsCleanToken(isLetter, Trimmed(isLetter, s));
  }

  /**
   * The filter over an upstream token stream, given as the tokens it has
   * still to deliver; `term` is the current token's term attribute.
   */
  class NonAlphaTrimFilter {
    const isLetter: CodeUnit -> bool
    var input: seq<seq<CodeUnit>>
    var term: seq<CodeUnit>

    constructor (isLetter: CodeUnit -> bool, input: seq<seq<CodeUnit>>)
      ensures this.isLetter == isLetter && this.input == input && term == []
    {
      this.isLetter := isLetter;
      this.input := input;
      this.term := [];
    }

    /**
     * `incrementToken()`: false once the upstream is exhausted; otherwise
     * the next upstream token, trimmed of its leading and trailing
     * skippable runs.
     */
    method IncrementToken() returns (r: bool)
      modifies this
      ensures r <==> old(input) != []
      ensures !r ==> input == old(input) && term == old(term)
      ensures r ==> input == old(input)[1..] && term == Trimmed(isLetter, old(input)[0])
    {
      if input == [] {
        return false;
      }
      term, input := input[0], input[1..];
      r := true;
      var len := |term|;
      if len == 0 {
        return;
      }
      var start := 0;
      while start < len && ShouldSkip(isLetter, term[start])
        invariant 0 <= start <= len
        invariant forall k :: 0 <= k < start ==> ShouldSkip(isLetter, term[k])
      {
        start := start + 1;
      }
      var end := len;
      while end >= start && ShouldSkip(isLetter, term[end - 1])
        invariant start - 1 <= end <= len && (start < len ==> start < end)
        invariant forall k :: end <= k < len ==> ShouldSkip(isLetter, term[k])
      {
        end := end - 1;
      }
      ghost var s := term;
      assert start == LeadSkips(isLetter, s) by {
        LeadSkipsIsFirstKept(isLetter, s, start);
      }
      if start < len {
        assert len - end == TrailSkips(isLetter, s) by {
          TrailSkipsIsLastKept(isLetter, s, len - end);
        }
      }
      if start > 0 || end < len {
        if start < end {
          term := term[start..end];
        } else {
          term := [];
        }
      }
    }
  }
}
