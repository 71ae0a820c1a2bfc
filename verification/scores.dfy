/**
 The score history: finished tests, most recent first, at most ten kept.
 */
module Scores {

  /** One finished test; the date is the browser's locale rendering, kept opaque. */
  datatype ScoreRecord = ScoreRecord(date: string, wpm: int, accuracy: int, duration: int)

  const Capacity: nat := 10

  function Min(a: int, b: int): int
  {
    if a <= b then a else b
  }

  /** Recording a finished test: the new record goes in front and only the ten newest remain. */
  function Push(h: seq<ScoreRecord>, rec: ScoreRecord): (r: seq<ScoreRecord>)
    ensures |r| == Min(|h| + 1, Capacity)
    ensures r[0] == rec
    ensures r[1..] == h[..|r| - 1]
  {
    ([rec] + h)[..Min(|h| + 1, Capacity)]
  }

  /** An older record survives a push exactly when it was not the tenth, moving one place back. */
  lemma PushEvictsOldest(h: seq<ScoreRecord>, rec: ScoreRecord, j: nat)
    requires j < |h|
    ensures j + 1 < |Push(h, rec)| <==> j < Capacity - 1
    ensures j < Capacity - 1 ==> Push(h, rec)[j + 1] == h[j]
  {
  }

  function Reverse<T>(s: seq<T>): (r: seq<T>)
    ensures |r| == |s|
    ensures forall i :: 0 <= i < |s| ==> r[i] == s[|s| - 1 - i]
  {
    if |s| == 0 then [] else [s[|s| - 1]] + Reverse(s[..|s| - 1])
  }

  /** Recording the tests rs in the order they finished. */
  function PushAll(h: seq<ScoreRecord>, rs: seq<ScoreRecord>): (r: seq<ScoreRecord>)
  {
    if |rs| == 0 then h else Push(PushAll(h, rs[..|rs| - 1]), rs[|rs| - 1])
  }

  /**
   After one or more tests finish, the history holds the new records, newest
   first, followed by the old history, cut to ten.
   */
  lemma {:induction false} PushAllKeepsNewest(h: seq<ScoreRecord>, rs: seq<ScoreRecord>)
    requires |rs| > 0
    ensures PushAll(h, rs) == (Reverse(rs) + h)[..Min(|rs| + |h|, Capacity)]
  {
    var last := rs[|rs| - 1];
    var prefix := rs[..|rs| - 1];
    if |prefix| == 0 {
      assert Reverse(rs) == [last];
    } else {
      PushAllKeepsNewest(h, prefix);
      var before := PushAll(h, prefix);
      var after := Push(before, last);
      var all := Reverse(rs) + h;
      assert Reverse(rs) == [last] + Reverse(prefix);
      assert |after| == Min(|rs| + |h|, Capacity);
      forall i | 0 <= i < |after|
        ensures after[i] == all[i]
      {
        if i > 0 {
          assert after[i] == before[i - 1];
        }
      }
    }
  }

  /** The history never grows beyond ten records once a test has been recorded. */
  lemma PushAllBounded(h: seq<ScoreRecord>, rs: seq<ScoreRecord>)
    requires |rs| > 0
    ensures |PushAll(h, rs)| == Min(|rs| + |h|, Capacity)
  {
    PushAllKeepsNewest(h, rs);
  }
}
