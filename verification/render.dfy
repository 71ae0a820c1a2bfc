/**
 How the typing screen colours each character of the reference text: typed
 and equal, typed and different, the cursor position, or not reached yet.
 */
module Render {
  import Metrics

  datatype Mark = Correct | Incorrect | Active | Untouched

  /** The mark of text position i given the current input. */
  function MarkAt(input: string, text: string, i: nat): Mark
    requires i < |text|
  {
    if i < |input| then
      if input[i] == text[i] then Correct else Incorrect
    else if i == |input| then Active
    else Untouched
  }

  /** One mark per character of the text. */
  function Classify(input: string, text: string): (marks: seq<Mark>)
    ensures |marks| == |text|
    ensures forall i :: 0 <= i < |marks| ==> (marks[i] == Correct <==> Metrics.MatchAt(input, text, i))
    ensures forall i :: 0 <= i < |marks| ==> (marks[i] == Incorrect <==> i < |input| && !Metrics.MatchAt(input, text, i))
    ensures forall i :: 0 <= i < |marks| ==> (marks[i] == Active <==> i == |input|)
    ensures forall i :: 0 <= i < |marks| ==> (marks[i] == Untouched <==> i > |input|)
  {
    seq(|text|, i requires 0 <= i < |text| => MarkAt(input, text, i))
  }

  /** The number of marks equal to m among the first k. */
  function CountMarks(marks: seq<Mark>, m: Mark, k: nat): (n: nat)
    requires k <= |marks|
    ensures n <= k
  {
    if k == 0 then 0
    else CountMarks(marks, m, k - 1) + (if marks[k - 1] == m then 1 else 0)
  }

  lemma {:induction false} CorrectMarksBelow(input: string, text: string, k: nat)
    requires k <= |text|
    ensures CountMarks(Classify(input, text), Correct, k) == Metrics.CorrectBelow(input, text, k)
  {
    if k > 0 {
      CorrectMarksBelow(input, text, k - 1);
    }
  }

  /** The characters shown as correct are exactly those counted by the accuracy. */
  lemma CorrectMarksAreCorrectCount(input: string, text: string)
    ensures CountMarks(Classify(input, text), Correct, |text|) == Metrics.CorrectCount(input, text)
  {
    CorrectMarksBelow(input, text, |text|);
    Metrics.CorrectBelowSaturates(input, text, |text|);
    Metrics.CorrectBelowSaturates(input, text, |input|);
  }

  /** The cursor is shown exactly when the input has not yet reached the end of the text. */
  lemma {:induction false} CursorShownIffUnfinished(input: string, text: string)
    ensures CountMarks(Classify(input, text), Active, |text|) == (if |input| < |text| then 1 else 0)
  {
    ActiveCountBelow(input, text, |text|);
  }

  lemma {:induction false} ActiveCountBelow(input: string, text: string, k: nat)
    requires k <= |text|
    ensures CountMarks(Classify(input, text), Active, k) == (if |input| < k then 1 else 0)
  {
    if k > 0 {
      ActiveCountBelow(input, text, k - 1);
    }
  }
}
