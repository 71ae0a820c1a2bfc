/**
 The whole component: the session controller, the score history and the
 theme, driven by the events its screens can deliver. Entering the result
 screen records the finished test, as the component's effect on the screen
 state does.
 */
module AppComponent {
  import Controller
  import Scores
  import Theme
  import Passages

  /** What the user and the countdown can do. */
  datatype Event =
    | Start(pick: Passages.PassageIndex)
    | Keystroke(value: string)
    | Tick
    | EndEarly
    | BackHome
    | PickDuration(choice: Controller.DurationChoice)
    | ToggleHistory
    | ToggleTheme

  datatype App = App(session: Controller.Session, history: seq<Scores.ScoreRecord>, theme: string)

  /** The component on mount, given what the browser store held. */
  function Mount(storedTheme: Theme.Stored, loaded: seq<Scores.ScoreRecord>): (a: App)
    ensures a.session == Controller.Initial()
    ensures a.history == loaded
    ensures a.theme == Theme.Initial(storedTheme)
  {
    App(Controller.Initial(), loaded, Theme.Initial(storedTheme))
  }

  /** Whether the current screen offers the event: each screen renders its own buttons and input. */
  function Enabled(s: Controller.Session, ev: Event): (offered: bool)
    ensures ev.ToggleHistory? || ev.ToggleTheme? ==> offered
    ensures ev.Keystroke? || ev.EndEarly? ==> (offered <==> s.state == Controller.Typing)
    ensures ev.Start? ==> (offered <==> s.state in {Controller.Home, Controller.Result})
    ensures ev.BackHome? ==> (offered <==> s.state == Controller.Result)
    ensures ev.PickDuration? ==> (offered <==> s.state == Controller.Home)
    ensures ev.Tick? ==> (offered <==> s.timerRunning)
  {
    match ev
    case Start(_) => s.state == Controller.Home || s.state == Controller.Result
    case Keystroke(_) => s.state == Controller.Typing
    case Tick => s.timerRunning
    case EndEarly => s.state == Controller.Typing
    case BackHome => s.state == Controller.Result
    case PickDuration(_) => s.state == Controller.Home
    case ToggleHistory => true
    case ToggleTheme => true
  }

  /**
   The controller's handler for an event the screen offers; an event it does
   not offer changes nothing. Each field is written only by the handlers
   whose setters touch it.
   */
  function Transition(s: Controller.Session, ev: Event): (r: Controller.Session)
    ensures r.text != s.text ==> ev.Start?
    ensures r.input != s.input || r.errors != s.errors ==> ev.Start? || ev.Keystroke?
    ensures r.timeLeft != s.timeLeft ==> ev.Start? || ev.Tick?
    ensures r.duration != s.duration ==> ev.PickDuration?
    ensures r.timerRunning != s.timerRunning ==> ev.Start? || ev.Tick? || ev.EndEarly? || ev.Keystroke?
    ensures r.state != s.state ==> !ev.PickDuration? && !ev.ToggleTheme?
    ensures ev.ToggleTheme? ==> r == s
    ensures Enabled(s, ev) && ev.Start? ==>
      && r.state == Controller.Typing && r.timerRunning
      && r.input == [] && r.errors == 0 && r.timeLeft == s.duration
      && (s.duration != 120 ==> r.text == Passages.Passage(ev.pick))
      && (s.duration == 120 ==> r.text == Passages.Passage(ev.pick) + " " + Passages.Passage(ev.pick))
    ensures Enabled(s, ev) && ev.Keystroke? && !Controller.Pasted(s, ev.value) ==>
      && r.input == ev.value
      && (r.errors == s.errors + 1 <==> Controller.Mistyped(s, ev.value))
    ensures Enabled(s, ev) && ev.Tick? ==> r.timeLeft == (if s.timeLeft > 1 then s.timeLeft - 1 else 0)
    ensures Enabled(s, ev) && ev.EndEarly? ==> r.state == Controller.Result && !r.timerRunning
    ensures Enabled(s, ev) && ev.BackHome? ==> r.state == Controller.Home
    ensures Enabled(s, ev) && ev.PickDuration? ==> r.duration == Controller.Seconds(ev.choice)
    ensures ev.ToggleHistory? ==> (r.state == Controller.History <==> s.state != Controller.History)
  {
    if !Enabled(s, ev) then s
    else
      match ev
      case Start(i) => Controller.Start(s, Passages.Passage(i))
      case Keystroke(v) => Controller.InputChange(s, v)
      case Tick => Controller.Tick(s)
      case EndEarly => Controller.EndTest(s)
      case BackHome => Controller.BackHome(s)
      case PickDuration(c) => Controller.SelectDuration(s, c)
      case ToggleHistory => Controller.ToggleHistory(s)
      case ToggleTheme => s
  }

  /** The record of a finished test, with its statistics as they stand on the result screen. */
  function RecordOf(s: Controller.Session, today: string): (r: Scores.ScoreRecord)
    ensures r.date == today && r.duration == s.duration
    ensures r.wpm == Controller.StatsOf(s).wpm && r.accuracy == Controller.StatsOf(s).accuracy
    ensures 0 <= r.accuracy <= 100
    ensures s.timeLeft <= s.duration ==> r.wpm >= 0
  {
    var st := Controller.StatsOf(s);
    Scores.ScoreRecord(today, st.wpm, st.accuracy, s.duration)
  }

  /** The step enters the result screen from another one. */
  predicate Finishes(before: Controller.Session, after: Controller.Session)
  {
    before.state != Controller.Result && after.state == Controller.Result
  }

  /** One event; `today` is the date the browser reports when the result is recorded. */
  function Step(a: App, ev: Event, today: string): (b: App)
    ensures b.session == Transition(a.session, ev)
    ensures !Enabled(a.session, ev) ==> b.session == a.session
    ensures !Finishes(a.session, b.session) ==> b.history == a.history
    ensures Finishes(a.session, b.session) ==> b.history == Scores.Push(a.history, RecordOf(b.session, today))
    ensures ev.ToggleTheme? ==> b.theme == Theme.Toggle(a.theme)
    ensures !ev.ToggleTheme? ==> b.theme == a.theme
  {
    var s := Transition(a.session, ev);
    var history := if Finishes(a.session, s) then Scores.Push(a.history, RecordOf(s, today)) else a.history;
    var theme := if ev.ToggleTheme? then Theme.Toggle(a.theme) else a.theme;
    App(s, history, theme)
  }

  function Run(a: App, evs: seq<Event>, today: string): (b: App)
    decreases |evs|
  {
    if |evs| == 0 then a else Run(Step(a, evs[0], today), evs[1..], today)
  }

  /**
   What holds of every reachable component: a valid duration, no negative
   countdown; a running test has its timer on, time left within the duration
   and an input not exactly as long as its text; a result has its timer off.
   */
  predicate Inv(a: App)
  {
    var s := a.session;
    && Controller.ValidDuration(s.duration)
    && s.timeLeft >= 0
    && (s.state == Controller.Typing ==>
          s.timerRunning && 1 <= s.timeLeft <= s.duration && |s.input| != |s.text|)
    && (s.state == Controller.Result ==> !s.timerRunning && s.timeLeft <= s.duration)
  }

  /** A record the model itself can produce. */
  predicate ValidRecord(r: Scores.ScoreRecord)
  {
    r.wpm >= 0 && 0 <= r.accuracy <= 100 && Controller.ValidDuration(r.duration)
  }

  lemma MountInv(storedTheme: Theme.Stored, loaded: seq<Scores.ScoreRecord>)
    ensures Inv(Mount(storedTheme, loaded))
  {
  }

  lemma StepPreservesInv(a: App, ev: Event, today: string)
    requires Inv(a)
    ensures Inv(Step(a, ev, today))
  {
  }

  /**
   The history changes exactly when a step finishes a test, and then by
   pushing one valid record dated today.
   */
  lemma StepRecordsOnFinish(a: App, ev: Event, today: string)
    requires Inv(a)
    ensures var b := Step(a, ev, today);
            && (!Finishes(a.session, b.session) ==> b.history == a.history)
            && (Finishes(a.session, b.session) ==>
                  && b.history == Scores.Push(a.history, b.history[0])
                  && b.history[0].date == today
                  && b.history[0].wpm == Controller.StatsOf(b.session).wpm
                  && b.history[0].accuracy == Controller.StatsOf(b.session).accuracy
                  && b.history[0].duration == b.session.duration
                  && ValidRecord(b.history[0]))
  {
    var b := Step(a, ev, today);
    if Finishes(a.session, b.session) {
      StepPreservesInv(a, ev, today);
    }
  }

  lemma {:induction false} RunPreservesInv(a: App, evs: seq<Event>, today: string)
    requires Inv(a)
    ensures Inv(Run(a, evs, today))
    decreases |evs|
  {
    if |evs| > 0 {
      StepPreservesInv(a, evs[0], today);
      RunPreservesInv(Step(a, evs[0], today), evs[1..], today);
    }
  }

  /** Every component reachable from mount satisfies the invariant. */
  lemma ReachableInv(storedTheme: Theme.Stored, loaded: seq<Scores.ScoreRecord>, evs: seq<Event>, today: string)
    ensures Inv(Run(Mount(storedTheme, loaded), evs, today))
  {
    MountInv(storedTheme, loaded);
    RunPreservesInv(Mount(storedTheme, loaded), evs, today);
  }

  /** Starting never touches the history, and the history screen offers no start. */
  lemma StartKeepsHistory(a: App, i: Passages.PassageIndex, today: string)
    ensures Step(a, Start(i), today).history == a.history
    ensures a.session.state == Controller.History ==> Step(a, Start(i), today) == a
  {
  }

  /**
   The countdown keeps running behind the history screen: when it runs out
   there, the test is finished and recorded all the same.
   */
  lemma ExpiryBehindHistoryRecords(a: App, today: string)
    requires a.session.state == Controller.History && a.session.timerRunning
    requires a.session.timeLeft <= 1
    ensures var b := Step(a, Tick, today);
            b.session.state == Controller.Result && |b.history| >= 1 && b.history[1..] == a.history[..|b.history| - 1]
  {
  }

  /** Only the theme button changes the theme, and it changes nothing else. */
  lemma ThemeOnlyByToggle(a: App, ev: Event, today: string)
    ensures ev.ToggleTheme? ==> Step(a, ev, today) == a.(theme := Theme.Toggle(a.theme))
    ensures !ev.ToggleTheme? ==> Step(a, ev, today).theme == a.theme
  {
  }
}
