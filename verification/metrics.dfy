/**
 The live and final statistics of a typing session: words per minute by the
 five-characters-per-word rule and positional accuracy, both rounded the way
 JavaScript's Math.round does (to the nearest integer, halves upwards).

 All arithmetic is exact: a rounded quotient p/q is computed on integers as
 floor((2p + q) / 2q), so no floating-point error enters the model.
 */
module Metrics {

  /** Floor of a / b for a non-zero divisor of either sign. */
  function FloorDiv(a: int, b: int): (r: int)
    requires b != 0
    ensures b > 0 ==> b * r <= a < b * r + b
    ensures b < 0 ==> b * r >= a > b * r + b
  {
    if b > 0 then a / b else (-a) / (-b)
  }

  /** Math.round(p / q): the integer r with r - 1/2 <= p/q < r + 1/2. */
  function Round(p: int, q: int): (r: int)
    requires q != 0
    ensures q > 0 ==> 2 * q * r - q <= 2 * p < 2 * q * r + q
    ensures q < 0 ==> 2 * q * r - q >= 2 * p > 2 * q * r + q
  {
    FloorDiv(2 * p + q, 2 * q)
  }

  /** q * d < q forces d < 1 when q is positive. */
  lemma MulBelowDivisor(q: int, d: int)
    requires q > 0
    requires q * d < q
    ensures d < 1
  {
  }

  /**
   Rounded quotients are ordered like their numerators: if r1 is within a
   half below p1/q and r2 within a half above p2/q, then p1 <= p2 gives r1 <= r2.
   */
  lemma BracketOrder(q: int, p1: int, p2: int, r1: int, r2: int)
    requires q > 0
    requires p1 <= p2
    requires 2 * q * r1 - q <= 2 * p1
    requires 2 * p2 < 2 * q * r2 + q
    ensures r1 <= r2
  {
    assert (2 * q) * (r1 - r2) == 2 * q * r1 - 2 * q * r2;
    MulBelowDivisor(2 * q, r1 - r2);
  }

  /** The rounded quotient is the only integer within one half of p/q (q > 0). */
  lemma RoundUnique(p: int, q: int, k: int)
    requires q > 0
    requires 2 * q * k - q <= 2 * p < 2 * q * k + q
    ensures Round(p, q) == k
  {
    var r := Round(p, q);
    BracketOrder(q, p, p, r, k);
    BracketOrder(q, p, p, k, r);
  }

  /**
   Words per minute for `len` typed characters after `elapsed` seconds:
   (len / 5) words over (elapsed / 60) minutes, i.e. 12 * len / elapsed,
   rounded. Zero elapsed seconds are replaced by 0.01 minutes, which gives
   exactly 20 * len.
   */
  function Wpm(len: nat, elapsed: int): (r: int)
    ensures elapsed > 0 ==> 2 * elapsed * r - elapsed <= 24 * len < 2 * elapsed * r + elapsed
    ensures elapsed == 0 ==> r == 20 * len
    ensures elapsed >= 0 ==> r >= 0
    ensures len == 0 ==> r == 0
  {
    if elapsed == 0 then 20 * len else Round(12 * len, elapsed)
  }

  /** At a fixed elapsed time, typing more characters never lowers the WPM. */
  lemma WpmMonotone(len1: nat, len2: nat, elapsed: int)
    requires len1 <= len2
    requires elapsed >= 0
    ensures Wpm(len1, elapsed) <= Wpm(len2, elapsed)
  {
    if elapsed > 0 {
      BracketOrder(elapsed, 12 * len1, 12 * len2, Wpm(len1, elapsed), Wpm(len2, elapsed));
    }
  }

  /** "cat" typed completely after 10 of 60 seconds: 3.6 words per minute shows as 4. */
  lemma WpmCatExample()
    ensures Wpm(|"cat"|, 60 - 50) == 4
  {
    RoundUnique(12 * 3, 10, 4);
  }

  /** Whether position i was typed and matches the reference text there;
      a typed position past the end of the text never matches. */
  predicate MatchAt(input: string, text: string, i: int)
  {
    0 <= i < |input| && i < |text| && input[i] == text[i]
  }

  /** The number of matching positions below k. */
  function CorrectBelow(input: string, text: string, k: nat): (n: nat)
    ensures n <= k
  {
    if k == 0 then 0
    else CorrectBelow(input, text, k - 1) + (if MatchAt(input, text, k - 1) then 1 else 0)
  }

  /** The correctly typed characters: positions of the input that equal the text. */
  function CorrectCount(input: string, text: string): (n: nat)
    ensures n <= |input|
    ensures n <= |text|
  {
    CorrectBelowSaturates(input, text, |input|);
    assert CorrectBelow(input, text, if |input| <= |text| then |input| else |text|) <= |text|;
    CorrectBelow(input, text, |input|)
  }

  /** Every position below k matches exactly when all k of them are counted. */
  lemma {:induction false} CorrectBelowFull(input: string, text: string, k: nat)
    ensures CorrectBelow(input, text, k) == k <==> forall i :: 0 <= i < k ==> MatchAt(input, text, i)
  {
    if k > 0 {
      CorrectBelowFull(input, text, k - 1);
      if !MatchAt(input, text, k - 1) {
        assert CorrectBelow(input, text, k - 1) <= k - 1;
      }
    }
  }

  /** The count stops growing once k passes the end of the input or of the text. */
  lemma {:induction false} CorrectBelowSaturates(input: string, text: string, k: nat)
    requires k >= |input| || k >= |text|
    ensures CorrectBelow(input, text, k) == CorrectBelow(input, text, if |input| <= |text| then |input| else |text|)
  {
    var m := if |input| <= |text| then |input| else |text|;
    if k > m {
      assert !MatchAt(input, text, k - 1);
      CorrectBelowSaturates(input, text, k - 1);
    }
  }

  /** Appending a character leaves the count over the old positions unchanged. */
  lemma {:induction false} CorrectBelowExtend(input: string, c: char, text: string, k: nat)
    requires k <= |input|
    ensures CorrectBelow(input + [c], text, k) == CorrectBelow(input, text, k)
  {
    if k > 0 {
      CorrectBelowExtend(input, c, text, k - 1);
      assert MatchAt(input + [c], text, k - 1) == MatchAt(input, text, k - 1);
    }
  }

  /** The input is fully correct: every typed character equals the text at its index. */
  predicate AllCorrect(input: string, text: string)
  {
    forall i :: 0 <= i < |input| ==> MatchAt(input, text, i)
  }

  /** All characters are counted exactly when the input is fully correct. */
  lemma CorrectCountFull(input: string, text: string)
    ensures CorrectCount(input, text) == |input| <==> AllCorrect(input, text)
  {
    CorrectBelowFull(input, text, |input|);
  }

  /** Accuracy in percent: correct characters over typed characters, rounded; 0 with nothing typed. */
  function Accuracy(input: string, text: string): (r: int)
    ensures 0 <= r <= 100
    ensures |input| == 0 ==> r == 0
    ensures |input| > 0 ==>
      2 * |input| * r - |input| <= 200 * CorrectCount(input, text) < 2 * |input| * r + |input|
  {
    if |input| > 0 then
      var n, c := |input|, CorrectCount(input, text);
      var r := Round(100 * c, n);
      BracketOrder(n, 100 * c, 100 * n, r, 100);
      BracketOrder(n, 0, 100 * c, 0, r);
      r
    else 0
  }

  /** A fully correct, non-empty input scores 100. */
  lemma AccuracyOfCorrectInput(input: string, text: string)
    requires |input| > 0
    requires AllCorrect(input, text)
    ensures Accuracy(input, text) == 100
  {
    CorrectCountFull(input, text);
    RoundUnique(100 * |input|, |input|, 100);
  }

  /** With fewer than 200 typed characters a score of 100 means a fully correct input. */
  lemma AccuracyHundredIffCorrect(input: string, text: string)
    requires 0 < |input| < 200
    ensures Accuracy(input, text) == 100 <==> AllCorrect(input, text)
  {
    CorrectCountFull(input, text);
    var n, c := |input|, CorrectCount(input, text);
    if AllCorrect(input, text) {
      AccuracyOfCorrectInput(input, text);
    } else {
      assert c <= n - 1;
    }
  }

  /**
   From 200 typed characters on, a single wrong last character still rounds
   to 100: a score of 100 does not mean the input is fully correct.
   */
  lemma AccuracyHundredDespiteMistake(input: string, text: string)
    requires |input| >= 200
    requires forall i :: 0 <= i < |input| - 1 ==> MatchAt(input, text, i)
    requires !MatchAt(input, text, |input| - 1)
    ensures !AllCorrect(input, text)
    ensures Accuracy(input, text) == 100
  {
    var n := |input|;
    CorrectBelowFull(input, text, n - 1);
    assert CorrectCount(input, text) == n - 1;
    RoundUnique(100 * (n - 1), n, 100);
  }
}
