/**
 * A break locator that widens the breaks of a base locator into a
 * context of several base units, never reaching past the breaks of an
 * optional limit locator.
 */
module ContextBreakLocator {
  import opened Common
  import B = BaseBreakLocator

  /** The base break reached from `x` after `n` successive `following` steps. */
  function NthNext(breaks: seq<int>, length: nat, x: int, n: nat): int
    requires B.Sorted(breaks)
  {
    if n == 0 then x else B.Next(breaks, length, NthNext(breaks, length, x, n - 1))
  }

  /** The base break reached from `x` after `n` successive `preceding` steps. */
  function NthPrev(breaks: seq<int>, x: int, n: nat): int
    requires B.Sorted(breaks)
  {
    if n == 0 then x else B.Prev(breaks, NthPrev(breaks, x, n - 1))
  }

  /** One more forward step. */
  lemma {:induction false} NthNextStep(breaks: seq<int>, length: nat, x: int, k: nat, k1: nat)
    requires B.Sorted(breaks) && k1 == k + 1
    ensures NthNext(breaks, length, x, k1) == B.Next(breaks, length, NthNext(breaks, length, x, k))
  {
  }

  /** One more backward step. */
  lemma {:induction false} NthPrevStep(breaks: seq<int>, x: int, k: nat, k1: nat)
    requires B.Sorted(breaks) && k1 == k + 1
    ensures NthPrev(breaks, x, k1) == B.Prev(breaks, NthPrev(breaks, x, k))
  {
  }

  /** Once the forward walk reaches a limit inside the text, it stays at or beyond it. */
  lemma {:induction false} NthNextStaysBeyond(breaks: seq<int>, length: nat, x: int, j: nat, n: nat, limit: int)
    requires B.BreaksValid(breaks, length) && limit <= length
    requires j <= n && NthNext(breaks, length, x, j) >= limit
    ensures NthNext(breaks, length, x, n) >= limit && Min(limit, NthNext(breaks, length, x, n)) == limit
  {
    if n > j {
      NthNextStaysBeyond(breaks, length, x, j, n - 1, limit);
    }
  }

  /** Once the backward walk reaches a limit at or after 0, it stays at or before it. */
  lemma {:induction false} NthPrevStaysBefore(breaks: seq<int>, length: nat, x: int, j: nat, n: nat, limit: int)
    requires B.BreaksValid(breaks, length) && limit >= 0
    requires j <= n && NthPrev(breaks, x, j) <= limit
    ensures NthPrev(breaks, x, n) <= limit && Max(limit, NthPrev(breaks, x, n)) == limit
  {
    if n > j {
      NthPrevStaysBefore(breaks, length, x, j, n - 1, limit);
    }
  }

  /** Each further forward step moves on: the walk is non-decreasing in `n` and leaves `x` after one step. */
  lemma {:induction false} NthNextMonotone(breaks: seq<int>, length: nat, x: int, m: nat, n: nat)
    requires B.BreaksValid(breaks, length) && x < length && m <= n
    ensures NthNext(breaks, length, x, m) <= NthNext(breaks, length, x, n)
    ensures n >= 1 ==> x < NthNext(breaks, length, x, n) <= length
    decreases n
  {
    NthNextBounds(breaks, length, x, n);
    if m < n {
      NthNextMonotone(breaks, length, x, m, n - 1);
      NthNextBounds(breaks, length, x, n - 1);
      NthNextGrows(breaks, length, x, n - 1, n);
    } else {
      assert m == n;
    }
  }

  /** The forward walk from inside the text stays within it, and leaves `x` after one step. */
  lemma {:induction false} NthNextBounds(breaks: seq<int>, length: nat, x: int, n: nat)
    requires B.BreaksValid(breaks, length) && x < length
    ensures x <= NthNext(breaks, length, x, n) <= length
    ensures n >= 1 ==> x < NthNext(breaks, length, x, n)
    decreases n
  {
    if n > 0 {
      NthNextBounds(breaks, length, x, n - 1);
      NthNextGrows(breaks, length, x, n - 1, n);
    }
  }

  /** One more forward step within the text never moves back, and moves forward unless at the end. */
  lemma {:induction false} NthNextGrows(breaks: seq<int>, length: nat, x: int, k: nat, k1: nat)
    requires B.BreaksValid(breaks, length) && k1 == k + 1 && NthNext(breaks, length, x, k) <= length
    ensures NthNext(breaks, length, x, k) <= NthNext(breaks, length, x, k1) <= length
    ensures NthNext(breaks, length, x, k) < length ==> NthNext(breaks, length, x, k) < NthNext(breaks, length, x, k1)
  {
    NthNextStep(breaks, length, x, k, k1);
    NextAdvances(breaks, length, NthNext(breaks, length, x, k));
  }

  /** One more backward step within the text never moves forward, and moves back unless at 0. */
  lemma {:induction false} NthPrevShrinks(breaks: seq<int>, length: nat, x: int, k: nat, k1: nat)
    requires B.BreaksValid(breaks, length) && k1 == k + 1 && NthPrev(breaks, x, k) >= 0
    ensures 0 <= NthPrev(breaks, x, k1) <= NthPrev(breaks, x, k)
    ensures NthPrev(breaks, x, k) > 0 ==> NthPrev(breaks, x, k1) < NthPrev(breaks, x, k)
  {
    NthPrevStep(breaks, x, k, k1);
    PrevRetreats(breaks, length, NthPrev(breaks, x, k));
  }

  /** A forward step within the text never moves back, and moves forward unless at the end. */
  lemma {:induction false} NextAdvances(breaks: seq<int>, length: nat, y: int)
    requires B.BreaksValid(breaks, length) && y <= length
    ensures y <= B.Next(breaks, length, y) <= length
    ensures y < length ==> y < B.Next(breaks, length, y)
  {
  }

  /** A backward step within the text never moves forward, and moves back unless at 0. */
  lemma {:induction false} PrevRetreats(breaks: seq<int>, length: nat, y: int)
    requires B.BreaksValid(breaks, length) && y >= 0
    ensures 0 <= B.Prev(breaks, y) <= y
    ensures y > 0 ==> B.Prev(breaks, y) < y
  {
  }

  /** Each further backward step moves back: the walk is non-increasing in `n` and leaves `x` after one step. */
  lemma {:induction false} NthPrevMonotone(breaks: seq<int>, length: nat, x: int, m: nat, n: nat)
    requires B.BreaksValid(breaks, length) && x > 0 && m <= n
    ensures NthPrev(breaks, x, n) <= NthPrev(breaks, x, m)
    ensures n >= 1 ==> 0 <= NthPrev(breaks, x, n) < x
    decreases n
  {
    NthPrevBounds(breaks, length, x, n);
    if m < n {
      NthPrevMonotone(breaks, length, x, m, n - 1);
      NthPrevBounds(breaks, length, x, n - 1);
      NthPrevShrinks(breaks, length, x, n - 1, n);
    } else {
      assert m == n;
    }
  }

  /** The backward walk from a positive offset stays at or after 0, and leaves `x` after one step. */
  lemma {:induction false} NthPrevBounds(breaks: seq<int>, length: nat, x: int, n: nat)
    requires B.BreaksValid(breaks, length) && x > 0
    ensures 0 <= NthPrev(breaks, x, n) <= x
    ensures n >= 1 ==> NthPrev(breaks, x, n) < x
    decreases n
  {
    if n > 0 {
      NthPrevBounds(breaks, length, x, n - 1);
      NthPrevShrinks(breaks, length, x, n - 1, n);
    }
  }

  class ContextBreakLocator {
    const baseLocator: B.BaseBreakLocator
    const limitLocator: B.BaseBreakLocator?
    const contextSize: int

    ghost predicate Valid()
      reads this, baseLocator, limitLocator
    {
      baseLocator.Valid()
      && (limitLocator != null ==> limitLocator.Valid() && limitLocator.length == baseLocator.length)
    }

    constructor (baseLocator: B.BaseBreakLocator, limitLocator: B.BaseBreakLocator?, contextSize: int)
      requires baseLocator.Valid()
      requires limitLocator != null ==> limitLocator.Valid() && limitLocator.length == baseLocator.length
      ensures Valid()
      ensures this.baseLocator == baseLocator && this.limitLocator == limitLocator && this.contextSize == contextSize
    {
      this.baseLocator := baseLocator;
      this.limitLocator := limitLocator;
      this.contextSize := contextSize;
    }

    /** The limit `following(offset)` may not pass: the limit locator's next break, or the text length. */
    ghost function FollowingLimit(offset: int): int
      reads this, baseLocator, limitLocator
      requires Valid()
    {
      if limitLocator == null then baseLocator.length
      else if offset >= limitLocator.length then B.Done
      else B.Next(limitLocator.breaks, limitLocator.length, offset)
    }

    /** The limit `preceding(offset)` may not pass: the limit locator's previous break, or 0. */
    ghost function PrecedingLimit(offset: int): int
      reads this, baseLocator, limitLocator
      requires Valid()
    {
      if limitLocator == null then 0
      else if offset <= 0 then B.Done
      else B.Prev(limitLocator.breaks, offset)
    }

    /**
     * `following(offset)`: never beyond the limit, and inside the text the
     * (contextSize + 1)-th base break after `offset` unless the limit comes
     * first.
     */
    method Following(offset: int) returns (r: int)
      requires Valid()
      modifies baseLocator, limitLocator
      ensures Valid()
      ensures r <= old(FollowingLimit(offset))
      ensures offset < baseLocator.length ==>
        r == Min(old(FollowingLimit(offset)), NthNext(baseLocator.breaks, baseLocator.length, offset, Max(contextSize, 0) + 1))
    {
      var limit := baseLocator.length;
      if limitLocator != null {
        limit := limitLocator.Following(offset);
      }
      r := WidenForward(offset, limit);
    }

    /** The loop of `following`: base steps from `offset` until the context is full or `limit` is reached. */
    method WidenForward(offset: int, limit: int) returns (r: int)
      requires baseLocator.Valid() && limit <= baseLocator.length
      modifies baseLocator
      ensures baseLocator.Valid()
      ensures r <= limit
      ensures offset < baseLocator.length ==>
        r == Min(limit, NthNext(baseLocator.breaks, baseLocator.length, offset, Max(contextSize, 0) + 1))
    {
      ghost var breaks, length := baseLocator.breaks, baseLocator.length;
      ghost var n := Max(contextSize, 0) + 1;
      var idx := baseLocator.Following(offset);
      if idx >= limit {
        if offset < length {
          NthNextStaysBeyond(breaks, length, offset, 1, n, limit);
        }
        return limit;
      }
      var i := 0;
      ghost var k := 1;
      while i < contextSize
        invariant baseLocator.Valid()
        invariant 0 <= i < n && k == i + 1
        invariant idx < limit
        invariant offset < length ==> idx == NthNext(breaks, length, offset, k)
      {
        var next := baseLocator.Following(idx);
        NthNextStep(breaks, length, offset, k, k + 1);
        if next >= limit {
          if offset < length {
            NthNextStaysBeyond(breaks, length, offset, k + 1, n, limit);
          }
          return limit;
        }
        idx := next;
        i, k := i + 1, k + 1;
      }
      assert k == n;
      return idx;
    }

    /**
     * `preceding(offset)`: never before the limit, and after the start of
     * the text the (contextSize + 1)-th base break before `offset` unless
     * the limit comes first.
     */
    method Preceding(offset: int) returns (r: int)
      requires Valid()
      modifies baseLocator, limitLocator
      ensures Valid()
      ensures r >= old(PrecedingLimit(offset))
      ensures offset <= 0 ==> r == old(PrecedingLimit(offset))
      ensures offset > 0 ==>
        r == Max(old(PrecedingLimit(offset)), NthPrev(baseLocator.breaks, offset, Max(contextSize, 0) + 1))
    {
      var limit := 0;
      if limitLocator != null {
        limit := limitLocator.Preceding(offset);
      }
      r := WidenBackward(offset, limit);
    }

    /** The loop of `preceding`: base steps from `offset` until the context is full or `limit` is reached. */
    method WidenBackward(offset: int, limit: int) returns (r: int)
      requires baseLocator.Valid() && limit >= -1 && (offset <= 0 ==> limit <= 0) && (offset > 0 ==> limit >= 0)
      modifies baseLocator
      ensures baseLocator.Valid()
      ensures r >= limit
      ensures offset <= 0 ==> r == limit
      ensures offset > 0 ==> r == Max(limit, NthPrev(baseLocator.breaks, offset, Max(contextSize, 0) + 1))
    {
      ghost var breaks, length := baseLocator.breaks, baseLocator.length;
      ghost var n := Max(contextSize, 0) + 1;
      var idx := baseLocator.Preceding(offset);
      if idx <= limit {
        if offset > 0 {
          NthPrevStaysBefore(breaks, length, offset, 1, n, limit);
        }
        return limit;
      }
      var i := 0;
      ghost var k := 1;
      while i < contextSize
        invariant baseLocator.Valid()
        invariant 0 <= i < n && k == i + 1
        invariant idx > limit
        invariant offset > 0 ==> idx == NthPrev(breaks, offset, k)
      {
        var next := baseLocator.Preceding(idx);
        NthPrevStep(breaks, offset, k, k + 1);
        if next <= limit {
          if offset > 0 {
            NthPrevStaysBefore(breaks, length, offset, k + 1, n, limit);
          }
          return limit;
        }
        idx := next;
        i, k := i + 1, k + 1;
      }
      assert k == n;
      return idx;
    }
  }
}
