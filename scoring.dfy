/**
 * calculate_metrics (app.py): the accuracy of a typed attempt, as the
 * similarity ratio of the target snippet and the typed text in percent, and
 * its speed in words per minute, one word being five characters.  Values are
 * exact reals; the program rounds both to two decimals.
 */
module Scoring {
  import opened Wrappers
  import Matching

  datatype Metrics = Metrics(accuracy: real, wpm: real)

  /** The speed formula divides by the duration: a duration of 0 raises. */
  datatype MetricsError = ZeroDuration

  /** matcher.ratio() * 100 for SequenceMatcher(None, target, typed). */
  function Accuracy(target: string, typed: string): (r: real)
    ensures 0.0 <= r <= 100.0
  {
    Matching.Ratio(target, typed) * 100.0
  }

  /** (len(typed) / 5) / (duration / 60). */
  function Wpm(typed: string, duration: int): (r: real)
    requires duration != 0
    ensures r == 12.0 * |typed| as real / duration as real
    ensures duration > 0 ==> 0.0 <= r && (r == 0.0 <==> typed == [])
    ensures duration < 0 ==> r <= 0.0
  {
    var words := |typed| as real / 5.0;
    var minutes := duration as real / 60.0;
    WpmClosedForm(|typed| as real, duration as real);
    words / minutes
  }

  lemma WpmClosedForm(n: real, d: real)
    requires d != 0.0
    ensures (n / 5.0) / (d / 60.0) == 12.0 * n / d
  {
    calc {
      (n / 5.0) / (d / 60.0);
      (n / 5.0) * (60.0 / d);
      12.0 * n / d;
    }
  }

  /**
   * calculate_metrics(target, typed, duration): both metrics, or the division
   * by zero that a duration of 0 raises.  A negative duration is not refused
   * by the program; it yields a speed of 0 or below.
   */
  function CalculateMetrics(target: string, typed: string, duration: int): (r: Result<Metrics, MetricsError>)
    ensures r.Failure? <==> duration == 0
    ensures r.Success? ==> 0.0 <= r.value.accuracy <= 100.0
    ensures r.Success? ==> (r.value.accuracy == 100.0 <==> typed == target)
    ensures r.Success? && duration > 0 ==> 0.0 <= r.value.wpm && (r.value.wpm == 0.0 <==> typed == [])
  {
    if duration == 0 then
      Failure(ZeroDuration)
    else
      AccuracyIsFullIff(target, typed);
      Success(Metrics(Accuracy(target, typed), Wpm(typed, duration)))
  }

  /** Accuracy is 100 exactly when the attempt reproduces the target. */
  lemma AccuracyIsFullIff(target: string, typed: string)
    ensures Accuracy(target, typed) == 100.0 <==> typed == target
  {
    Matching.RatioIsOneIff(target, typed);
  }

  /** Two empty texts score 100: the ratio of two empty sequences is 1. */
  lemma AccuracyOfEmpty()
    ensures Accuracy("", "") == 100.0
  {
    Matching.RatioOfEqual("");
  }

  /**
   * Accuracy is 0 exactly when target and typed share no character and are
   * not both empty (one of them may be).
   */
  lemma AccuracyIsZeroIff(target: string, typed: string)
    ensures Accuracy(target, typed) == 0.0 <==>
      |target| + |typed| > 0 && forall i, j | 0 <= i < |target| && 0 <= j < |typed| :: target[i] != typed[j]
  {
    Matching.RatioIsZeroIff(target, typed);
  }

  /** Retyping "print(1)" exactly in 10 seconds: accuracy 100, 9.6 words per minute. */
  lemma ExactAttempt()
    ensures CalculateMetrics("print(1)", "print(1)", 10) == Success(Metrics(100.0, 9.6))
  {
    AccuracyIsFullIff("print(1)", "print(1)");
  }

  /**
   * One wrong character at the end of an otherwise exact attempt: the one
   * block is the common prefix p, so M = |p| and T = 2|p| + 2.
   */
  lemma AccuracyOfFinalTypo(p: string, c: char, d: char)
    requires c != d
    ensures Accuracy(p + [c], p + [d]) == 100.0 * |p| as real / (|p| + 1) as real
  {
    var a, b := p + [c], p + [d];
    MatchesOfFinalTypo(p, c, d);
    Matching.RatioOfMatches(a, b);
    PercentOfHalf(Matching.Ratio(a, b), |p| as real, (|a| + |b|) as real);
  }

  lemma MatchesOfFinalTypo(p: string, c: char, d: char)
    requires c != d
    ensures Matching.Matches(Matching.GetMatchingBlocks(p + [c], p + [d])) == |p|
  {
    var a, b, n := p + [c], p + [d], |p|;
    FinalTypoBlocks(p, c, d);
    Matching.MatchesOfMatchingBlocks(a, b);
    var blocks := Matching.MatchingBlocks(a, b, 0, n + 1, 0, n + 1);
    assert Matching.Matches(blocks) == n by {
      if n > 0 {
        assert blocks[1..] == [];
      }
    }
  }

  /** The matching blocks of p + [c] and p + [d]: the prefix p alone. */
  lemma FinalTypoBlocks(p: string, c: char, d: char)
    requires c != d
    ensures Matching.MatchingBlocks(p + [c], p + [d], 0, |p| + 1, 0, |p| + 1) ==
      if |p| > 0 then [Matching.Block(0, 0, |p|)] else []
  {
    var a, b, n := p + [c], p + [d], |p|;
    FinalTypoLongest(p, c, d);
    FinalTypoTail(p, c, d);
    LeadingBlocks(a, b, 0, n + 1);
  }

  /**
   * When the longest match of a[lo..hi] and b[lo..hi] is all but their last
   * element and those last elements do not match, it is the only block.
   */
  lemma LeadingBlocks<T>(a: seq<T>, b: seq<T>, lo: nat, hi: nat)
    requires lo < hi <= |a| && hi <= |b|
    requires Matching.LongestMatch(a, b, lo, hi, lo, hi) == Matching.Block(lo, lo, hi - 1 - lo)
    requires Matching.MatchingBlocks(a, b, hi - 1, hi, hi - 1, hi) == []
    ensures Matching.MatchingBlocks(a, b, lo, hi, lo, hi) == if lo < hi - 1 then [Matching.Block(lo, lo, hi - 1 - lo)] else []
  {
    Matching.MatchingBlocksOfLeading(a, b, lo, hi, lo, hi);
    assert [Matching.Block(lo, lo, hi - 1 - lo)] + [] == [Matching.Block(lo, lo, hi - 1 - lo)];
  }

  /** The longest match of p + [c] and p + [d] is the prefix p. */
  lemma FinalTypoLongest(p: string, c: char, d: char)
    requires c != d
    ensures Matching.LongestMatch(p + [c], p + [d], 0, |p| + 1, 0, |p| + 1) == Matching.Block(0, 0, |p|)
  {
    var a, b, n := p + [c], p + [d], |p|;
    var m := Matching.LongestMatch(a, b, 0, n + 1, 0, n + 1);
    assert a[..n] == b[..n] == p;
    assert Matching.IsMatch(a, b, 0, n + 1, 0, n + 1, 0, 0, n);
    if m.size > n {
      Matching.MatchAt(a, b, m.a, m.b, m.size, n);
      assert false;
    }
  }

  /** After the prefix, the two last characters differ: no blocks. */
  lemma FinalTypoTail(p: string, c: char, d: char)
    requires c != d
    ensures Matching.MatchingBlocks(p + [c], p + [d], |p|, |p| + 1, |p|, |p| + 1) == []
  {
    var a, b, n := p + [c], p + [d], |p|;
    assert a[n] == c && b[n] == d;
    Matching.NoBlocksAtMismatch(a, b, n);
  }

  lemma PercentOfHalf(ratio: real, x: real, total: real)
    requires x >= 0.0 && total == 2.0 * x + 2.0
    requires ratio == 2.0 * x / total
    ensures ratio * 100.0 == 100.0 * x / (x + 1.0)
  {
    assert 2.0 * x / (2.0 * x + 2.0) == x / (x + 1.0);
  }

  /**
   * Three characters typed in 6 seconds with only the last one wrong, such as
   * "abd" for "abc": M = 2, T = 6, so the accuracy is 200/3 (66.67 once
   * rounded), and 3 characters in 6 seconds is 6 words per minute.
   */
  lemma OneTypoAttempt(p: string, c: char, d: char)
    requires |p| == 2 && c != d
    ensures CalculateMetrics(p + [c], p + [d], 6) == Success(Metrics(200.0 / 3.0, 6.0))
  {
    AccuracyOfFinalTypo(p, c, d);
  }
}
