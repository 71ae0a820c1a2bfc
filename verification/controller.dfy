/**
 The typing-session controller: a finite-state machine over the screens
 home, typing, result and history, whose state carries the reference text,
 the typed input, the error count, the chosen duration, the seconds left and
 whether the one-second countdown is running. Every event handler of the
 browser component is a pure transition here.
 */
module Controller {
  import Metrics

  /** The screen shown; also the phase of the session. */
  datatype AppState = Home | Typing | Result | History

  /** The three test lengths offered on the home screen. */
  datatype DurationChoice = Thirty | Sixty | OneTwenty

  function Seconds(c: DurationChoice): (d: int)
  {
    match c
    case Thirty => 30
    case Sixty => 60
    case OneTwenty => 120
  }

  predicate ValidDuration(d: int)
  {
    d == 30 || d == 60 || d == 120
  }

  datatype Session = Session(
    state: AppState,
    duration: int,
    timeLeft: int,
    text: string,
    input: string,
    errors: nat,
    timerRunning: bool)

  /** The component as first mounted: home screen, 60 seconds, nothing typed. */
  function Initial(): (s: Session)
    ensures s.state == Home && !s.timerRunning
    ensures s.duration == 60 && s.timeLeft == s.duration
    ensures s.text == [] && s.input == [] && s.errors == 0
  {
    Session(Home, 60, 60, "", "", 0, false)
  }

  /** Choosing a test length on the home screen. */
  function SelectDuration(s: Session, c: DurationChoice): (r: Session)
    ensures ValidDuration(r.duration)
    ensures r.duration == Seconds(c)
    ensures r.(duration := s.duration) == s
  {
    s.(duration := Seconds(c))
  }

  /**
   Starting a test with the drawn passage t: a 120-second test gets the
   passage twice, joined by a space; the input, the error count and the
   countdown are reset and the timer starts.
   */
  function Start(s: Session, t: string): (r: Session)
    ensures r.state == Typing && r.timerRunning
    ensures r.input == [] && r.errors == 0
    ensures r.duration == s.duration && r.timeLeft == s.duration
    ensures s.duration != 120 ==> r.text == t
    ensures s.duration == 120 ==>
      |r.text| == 2 * |t| + 1 && r.text[..|t|] == t && r.text[|t|] == ' ' && r.text[|t| + 1..] == t
  {
    var text := if s.duration == 120 then t + " " + t else t;
    s.(state := Typing, text := text, input := "", errors := 0, timeLeft := s.duration, timerRunning := true)
  }

  /** Ending the test: the timer stops and the result screen is shown; nothing else changes. */
  function EndTest(s: Session): (r: Session)
    ensures r.state == Result && !r.timerRunning
    ensures r.(state := s.state, timerRunning := s.timerRunning) == s
  {
    s.(state := Result, timerRunning := false)
  }

  /** One second of the countdown; the last one ends the test. */
  function Tick(s: Session): (r: Session)
    ensures r.timeLeft >= 0
    ensures s.timeLeft > 1 ==> r.timeLeft == s.timeLeft - 1 && r.state == s.state && r.timerRunning == s.timerRunning
    ensures s.timeLeft <= 1 ==> r.timeLeft == 0 && r.state == Result && !r.timerRunning
    ensures r.(state := s.state, timeLeft := s.timeLeft, timerRunning := s.timerRunning) == s
  {
    if s.timeLeft <= 1 then EndTest(s.(timeLeft := 0)) else s.(timeLeft := s.timeLeft - 1)
  }

  /** The paste guard: an input event more than two characters longer than the current input. */
  predicate Pasted(s: Session, val: string)
  {
    |val| - |s.input| > 2
  }

  /** The text has a character at the position of the new input's last character. */
  predicate Checked(s: Session, val: string)
  {
    0 < |val| <= |s.text|
  }

  /** The new input's last character differs from the text at that position. */
  predicate Mistyped(s: Session, val: string)
  {
    Checked(s, val) && val[|val| - 1] != s.text[|val| - 1]
  }

  /**
   A change of the hidden input field to val. A paste-sized jump is ignored.
   Otherwise the last character of val is checked against the text (even
   when val is shorter than before), the input becomes val, and the test ends
   when the input is exactly as long as the text.
   */
  function InputChange(s: Session, val: string): (r: Session)
    ensures Pasted(s, val) ==> r == s
    ensures !Pasted(s, val) ==> r.input == val
    ensures s.errors <= r.errors <= s.errors + 1
    ensures r.errors == s.errors + 1 <==> !Pasted(s, val) && Mistyped(s, val)
    ensures !Pasted(s, val) && |val| == |s.text| ==> r.state == Result && !r.timerRunning
    ensures !Pasted(s, val) && |val| != |s.text| ==> r.state == s.state && r.timerRunning == s.timerRunning
    ensures r.text == s.text && r.duration == s.duration && r.timeLeft == s.timeLeft
  {
    if Pasted(s, val) then s
    else
      var counted := s.(errors := if Mistyped(s, val) then s.errors + 1 else s.errors, input := val);
      if |val| == |s.text| then EndTest(counted) else counted
  }

  /** The sound a keystroke plays: none, a high tone when correct, a low tone when wrong. */
  datatype Sound = Silent | Tone(correct: bool)

  /** A tone plays exactly for accepted keystrokes whose last character is checked; it is low exactly when mistyped. */
  function Feedback(s: Session, val: string): (sound: Sound)
    ensures sound.Tone? <==> !Pasted(s, val) && Checked(s, val)
    ensures sound == Tone(false) <==> !Pasted(s, val) && Mistyped(s, val)
  {
    if Pasted(s, val) || !Checked(s, val) then Silent
    else Tone(val[|val| - 1] == s.text[|val| - 1])
  }

  /** The low tone and the error count agree: a keystroke adds an error exactly when it sounds low. */
  lemma LowToneIffError(s: Session, val: string)
    ensures Feedback(s, val) == Tone(false) <==> InputChange(s, val).errors == s.errors + 1
  {
  }

  /** A jump of exactly two characters passes the guard. */
  lemma TwoCharJumpAccepted(s: Session, val: string)
    requires |val| == |s.input| + 2
    ensures InputChange(s, val).input == val
  {
  }

  /**
   The input can outgrow the text: from a typing session one short of the
   end, a two-character jump passes the guard, misses the exact-length check
   and leaves the test running past the end.
   */
  lemma OvershootOnlyByTwoCharJump(s: Session, val: string)
    requires s.state == Typing && |s.input| < |s.text|
    requires |InputChange(s, val).input| > |s.text|
    ensures !Pasted(s, val)
    ensures |s.input| == |s.text| - 1 && |val| == |s.text| + 1
    ensures InputChange(s, val).state == Typing
  {
  }

  lemma OvershootExample()
    ensures var r := InputChange(Session(Typing, 60, 50, "abc", "ab", 0, true), "abcd");
            r.state == Typing && r.input == "abcd" && |r.input| > |r.text|
  {
  }

  /** Deleting a character re-checks the new last character and can add an error. */
  lemma BackspaceCanAddError()
    ensures var s := Session(Typing, 60, 50, "ab", "xy", 1, true);
            var r := InputChange(s, "x");
            r.input == "x" && r.errors == 2
  {
  }

  /** Opening or closing the history view; the countdown is left alone. */
  function ToggleHistory(s: Session): (r: Session)
    ensures s.state == History ==> r.state == Home
    ensures s.state != History ==> r.state == History
    ensures r.(state := s.state) == s
  {
    s.(state := if s.state == History then Home else History)
  }

  /**
   Toggling the history view twice during a test does not return to it: it
   lands on the home screen with the countdown still running.
   */
  lemma HistoryRoundTripLeavesTest(s: Session)
    requires s.state == Typing && s.timerRunning
    ensures var r := ToggleHistory(ToggleHistory(s));
            r.state == Home && r.timerRunning && r.timeLeft == s.timeLeft
  {
  }

  /** Leaving the result screen for the home screen. */
  function BackHome(s: Session): (r: Session)
    ensures r.state == Home
    ensures r.(state := s.state) == s
  {
    s.(state := Home)
  }

  datatype Stats = Stats(wpm: int, accuracy: int, errors: nat)

  /** Seconds elapsed since the start, as the statistics see them. */
  function Elapsed(s: Session): (t: int)
  {
    s.duration - s.timeLeft
  }

  /** The statistics of the session as it stands. */
  function StatsOf(s: Session): (st: Stats)
    ensures 0 <= st.accuracy <= 100
    ensures s.timeLeft <= s.duration ==> st.wpm >= 0
    ensures |s.input| == 0 ==> st.wpm == 0 && st.accuracy == 0
    ensures Elapsed(s) == 0 ==> st.wpm == 20 * |s.input|
    ensures st.errors == s.errors
  {
    Stats(Metrics.Wpm(|s.input|, Elapsed(s)), Metrics.Accuracy(s.input, s.text), s.errors)
  }

  /** The statistics computed with a single pass over the input, as the component does. */
  method CalculateStats(s: Session) returns (st: Stats)
    ensures st == StatsOf(s)
  {
    var wpm := Metrics.Wpm(|s.input|, s.duration - s.timeLeft);
    var correct := 0;
    var i := 0;
    while i < |s.input|
      invariant 0 <= i <= |s.input|
      invariant correct == Metrics.CorrectBelow(s.input, s.text, i)
    {
      if i < |s.text| && s.input[i] == s.text[i] {
        correct := correct + 1;
      }
      i := i + 1;
    }
    var accuracy := if |s.input| > 0 then Metrics.Round(100 * correct, |s.input|) else 0;
    st := Stats(wpm, accuracy, s.errors);
  }

  /** Typing the characters cs one by one, as long as the test lasts. */
  function TypeChars(s: Session, cs: string): (r: Session)
    decreases |cs|
  {
    if |cs| == 0 || s.state != Typing then s
    else TypeChars(InputChange(s, s.input + [cs[0]]), cs[1..])
  }

  /**
   Typing character by character never overshoots: the test ends exactly
   when the input reaches the length of the text, and not before.
   */
  lemma {:induction false} AppendsEndExactlyAtText(s: Session, cs: string)
    requires s.state == Typing && |s.input| < |s.text|
    ensures var r := TypeChars(s, cs);
            && r.text == s.text
            && (|s.input| + |cs| < |s.text| ==>
                  r.state == Typing && r.input == s.input + cs && r.timerRunning == s.timerRunning)
            && (|s.input| + |cs| >= |s.text| ==>
                  r.state == Result && !r.timerRunning && r.input == s.input + cs[..|s.text| - |s.input|])
    decreases |cs|
  {
    if |cs| > 0 {
      var next := InputChange(s, s.input + [cs[0]]);
      assert !Pasted(s, s.input + [cs[0]]);
      if |s.input| + 1 == |s.text| {
        assert cs[..1] == [cs[0]];
      } else {
        AppendsEndExactlyAtText(next, cs[1..]);
        assert s.input + [cs[0]] + cs[1..] == s.input + cs;
        if |s.input| + |cs| >= |s.text| {
          var m := |s.text| - |s.input|;
          assert cs[1..][..m - 1] == cs[1..m];
          assert s.input + [cs[0]] + cs[1..m] == s.input + cs[..m];
        }
      }
    }
  }

  /** Every error counted so far is a wrong character still on screen, and vice versa. */
  predicate ErrorsAreWrongChars(s: Session)
  {
    s.errors + Metrics.CorrectCount(s.input, s.text) == |s.input|
  }

  /**
   Typed one character at a time, each position is checked exactly once, so
   the error count stays equal to the number of wrong characters in the input.
   A two-character jump breaks this (JumpUndercountsErrors).
   */
  lemma {:induction false} AppendsKeepErrorsAreWrongChars(s: Session, cs: string)
    requires s.state == Typing && |s.input| < |s.text|
    requires ErrorsAreWrongChars(s)
    ensures ErrorsAreWrongChars(TypeChars(s, cs))
    decreases |cs|
  {
    if |cs| > 0 {
      var val := s.input + [cs[0]];
      var next := InputChange(s, val);
      var n := |s.input|;
      Metrics.CorrectBelowExtend(s.input, cs[0], s.text, n);
      assert Metrics.CorrectCount(val, s.text)
          == Metrics.CorrectCount(s.input, s.text) + (if Metrics.MatchAt(val, s.text, n) then 1 else 0);
      assert Mistyped(s, val) <==> !Metrics.MatchAt(val, s.text, n);
      assert ErrorsAreWrongChars(next);
      if next.state == Typing {
        AppendsKeepErrorsAreWrongChars(next, cs[1..]);
      }
    }
  }

  /** A test typed one character at a time from its start ends with as many errors as wrong characters. */
  lemma PlainTypingErrorsAreWrongChars(home: Session, t: string, cs: string)
    requires |t| > 0
    ensures var r := TypeChars(Start(home, t), cs);
            r.errors == |r.input| - Metrics.CorrectCount(r.input, r.text)
  {
    AppendsKeepErrorsAreWrongChars(Start(home, t), cs);
  }

  /**
   A two-character jump checks only its last character, so the error count
   can fall behind the wrong characters on screen: "xy" against "abc" has two
   wrong characters but adds one error, and the test keeps running.
   */
  lemma JumpUndercountsErrors()
    ensures var r := InputChange(Start(Initial(), "abc"), "xy");
            && r.state == Typing && r.input == "xy" && r.errors == 1
            && Metrics.CorrectCount(r.input, r.text) == 0
            && !ErrorsAreWrongChars(r)
  {
    var r := InputChange(Start(Initial(), "abc"), "xy");
    assert !Metrics.MatchAt(r.input, r.text, 0) && !Metrics.MatchAt(r.input, r.text, 1);
    assert Metrics.CorrectBelow(r.input, r.text, 1) == 0;
    assert Metrics.CorrectBelow(r.input, r.text, 2) == 0;
  }

  /** n seconds of the countdown. */
  function Ticks(s: Session, n: nat): (r: Session)
  {
    if n == 0 then s else Tick(Ticks(s, n - 1))
  }

  /** Before the countdown runs out each second only lowers the seconds left. */
  lemma {:induction false} CountdownRuns(s: Session, n: nat)
    requires n < s.timeLeft
    ensures Ticks(s, n) == s.(timeLeft := s.timeLeft - n)
  {
    if n > 0 {
      CountdownRuns(s, n - 1);
    }
  }

  /** After as many seconds as were left, the test is over with no time left. */
  lemma CountdownExpires(s: Session)
    requires s.timeLeft >= 1
    ensures Ticks(s, s.timeLeft) == s.(state := Result, timeLeft := 0, timerRunning := false)
  {
    var t := s.timeLeft;
    CountdownRuns(s, t - 1);
    var last := s.(timeLeft := 1);
    assert Ticks(s, t) == Tick(last);
    assert Tick(last) == EndTest(last.(timeLeft := 0));
  }

  /**
   A 60-second test on "cat": after 10 seconds the three characters are typed
   correctly; the third keystroke ends the test with 4 WPM, 100% and no errors.
   */
  lemma CatScenario(home: Session)
    requires home.state == Home && home.duration == 60
    ensures var typing := Ticks(Start(home, "cat"), 10);
            var r := TypeChars(typing, "cat");
            r.state == Result && r.timeLeft == 50 && StatsOf(r) == Stats(4, 100, 0)
  {
    var started := Start(home, "cat");
    CountdownRuns(started, 10);
    var typing := Ticks(started, 10);
    AppendsEndExactlyAtText(typing, "cat");
    var r := TypeChars(typing, "cat");
    assert r.input == "cat";
    Metrics.WpmCatExample();
    Metrics.AccuracyOfCorrectInput("cat", "cat");
  }

  /** A 30-second test left untouched runs out with 0 WPM and 0% accuracy. */
  lemma IdleExpiryScenario(home: Session, t: string)
    requires home.duration == 30
    ensures var r := Ticks(Start(home, t), 30);
            r.state == Result && StatsOf(r) == Stats(0, 0, 0)
  {
    CountdownExpires(Start(home, t));
  }
}
