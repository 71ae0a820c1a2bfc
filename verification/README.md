# TypeSpeed typing test — a Dafny model of its session controller

TypeSpeed is a browser typing-speed test written as one React component
(`src/App.jsx`). Its only real logic is a small state machine over the
screens `home`, `typing`, `result` and `history`. The state holds the
reference text, the typed input, the error count, the chosen duration and the
seconds left. Around it sit the statistics (words per minute, accuracy), the
per-character colouring of the text, the score history (newest first, ten
kept) and the dark/light theme.

This project models that logic as pure Dafny functions over immutable
datatypes and proves what the component promises about it.

| file | module | models |
|---|---|---|
| `passages.dfy` | `Passages` | the three sample passages and the random pick |
| `metrics.dfy` | `Metrics` | `Math.round` on exact rationals, WPM, correct-character count, accuracy |
| `render.dfy` | `Render` | the correct / incorrect / cursor / untouched colouring of each character |
| `controller.dfy` | `Controller` | the `Session` datatype and its transitions: start, keystroke, timer tick, end, history toggle, back home, duration choice, statistics |
| `scores.dfy` | `Scores` | score records and the "prepend, keep ten" history update |
| `theme.dfy` | `Theme` | the initial theme and the theme toggle |
| `app.dfy` | `AppComponent` | the whole component: which screen offers which event, the result effect that records a test, the reachable-state invariant |

Arithmetic is exact. `Math.round(x)` is `floor(x + 1/2)`, so a rounded
quotient `p/q` is computed as `floor((2p + q) / 2q)`. The results are:

- WPM is `round(12·len / elapsed)`, which is `(24·len + elapsed) div (2·elapsed)`.
  When `elapsed` is 0 the code uses 0.01 minutes instead, which gives exactly `20·len`.
- Accuracy is `(200·correct + len) div (2·len)`, and 0 when nothing is typed.

## Where the code behaves differently than one might expect

The model follows the code in each case below.

- **The input can outgrow the text.** One might expect the input never to
  get longer than the text. But the test only ends when the input length is
  exactly the text length (`src/App.jsx:103`). The paste guard lets a
  two-character jump through (`src/App.jsx:89`). So from one character
  before the end, a two-character jump goes past the end and the test keeps
  running. See `Controller.OvershootOnlyByTwoCharJump` and
  `Controller.OvershootExample`. Typing one character at a time always stops
  exactly at the end (`Controller.AppendsEndExactlyAtText`).
- **The error count can be lower than the number of wrong characters.** One
  might expect every wrong character to count as an error. But a keystroke
  checks only the last character of the new input (`src/App.jsx:92-93`), so
  a two-character jump checks one of its two characters. Typing "xy" against
  "abc" shows two wrong characters and one error
  (`Controller.JumpUndercountsErrors`). Typed one character at a time, the
  two always agree (`Controller.PlainTypingErrorsAreWrongChars`).
- **Accuracy 100 does not mean every character is correct.** One might expect
  accuracy to be 100 exactly when every typed character is correct. This holds
  for fewer than 200 typed characters (`Metrics.AccuracyHundredIffCorrect`).
  From 200 characters on, one wrong character still rounds up to 100
  (`Metrics.AccuracyHundredDespiteMistake`).
- **Deleting a character can add an error.** The last character is checked
  again after a deletion too (`src/App.jsx:92-96`), so pressing backspace can
  raise the error count (`Controller.BackspaceCanAddError`).
- **The history view does not stop the timer.** Opening it during a test
  leaves the timer running (`src/App.jsx:146`). Closing it goes to the home
  screen, not back to the test (`Controller.HistoryRoundTripLeavesTest`). If
  the time runs out while the history view is open, the test still finishes
  and is recorded (`AppComponent.ExpiryBehindHistoryRecords`).

## Model

| member | source | states |
|---|---|---|
| Passages.Passage | src/App.jsx:4-8 | each of the three passages a random pick can choose has more than 200 characters |
| Metrics.FloorDiv | src/App.jsx:111 | the result is the floor of a/b for a divisor of either sign |
| Metrics.Round | src/App.jsx:111 | `Math.round(p/q)`: the integer r with r - 1/2 <= p/q < r + 1/2 (ties round up), for either sign of q |
| Metrics.RoundUnique | src/App.jsx:111 | for a positive divisor q, any integer within half a unit of p/q is the rounded value |
| Metrics.Wpm | src/App.jsx:108-111 | WPM is the nearest integer to 12·len/elapsed; it is 20·len when no time has elapsed (the 0.01-minute floor); it is never negative for elapsed >= 0; it is 0 with nothing typed |
| Metrics.WpmMonotone | src/App.jsx:108-111 | at a fixed elapsed time, more typed characters never give a lower WPM |
| Metrics.WpmCatExample | src/App.jsx:108-111 | three characters after 10 seconds give 3.6 words per minute, shown as 4 |
| Metrics.CorrectBelow | src/App.jsx:113-116 | the count of matching positions below k is at most k |
| Metrics.CorrectBelowFull | src/App.jsx:113-116 | the count below k equals k exactly when every position below k matches |
| Metrics.CorrectBelowSaturates | src/App.jsx:113-116 | positions past the end of the text or of the input never add to the count |
| Metrics.CorrectBelowExtend | src/App.jsx:113-116 | appending a character does not change the count over the positions typed before it |
| Metrics.CorrectCount | src/App.jsx:113-116 | the number of correct characters never exceeds the input length, nor the text length, since typed positions past the text never count |
| Metrics.CorrectCountFull | src/App.jsx:113-116 | every typed character is counted correct exactly when each equals the text at its index; typed characters past the end of the text count as wrong |
| Metrics.Accuracy | src/App.jsx:118 | accuracy lies in [0,100]; it is 0 with nothing typed; otherwise it is the nearest integer to 100·correct/len |
| Metrics.AccuracyOfCorrectInput | src/App.jsx:113-118 | a non-empty, fully correct input scores 100 |
| Metrics.AccuracyHundredIffCorrect | src/App.jsx:113-118 | with 1 to 199 typed characters, the score is 100 exactly when the input is fully correct |
| Metrics.AccuracyHundredDespiteMistake | src/App.jsx:113-118 | with 200 or more typed characters and only the last one wrong, the score is still 100 |
| Render.Classify | src/App.jsx:206-212 | one mark per text character: correct exactly where typed and equal; incorrect exactly where typed and different; the cursor exactly at the input length; untouched beyond it |
| Render.CorrectMarksAreCorrectCount | src/App.jsx:206-212 | the number of characters shown as correct equals the correct-character count used for accuracy |
| Render.CursorShownIffUnfinished | src/App.jsx:206-212 | the cursor mark appears once when the input is shorter than the text, and not at all otherwise |
| Render.ActiveCountBelow | src/App.jsx:210-211 | among the first k characters, the cursor mark appears once when the input is shorter than k, and not at all otherwise |
| Controller.Initial | src/App.jsx:12-17 | the component mounts on the home screen with 60 s chosen and 60 s left, no text, no input, no errors and no timer |
| Controller.SelectDuration | src/App.jsx:163-171 | the duration becomes the chosen 30, 60 or 120; nothing else changes |
| Controller.Start | src/App.jsx:53-60 | a start resets the input, the errors and the seconds left to the duration, starts the timer and enters `typing`; the text is the drawn passage, or for 120 s the passage, a space and the passage again |
| Controller.EndTest | src/App.jsx:78-83 | ending stops the timer and shows the result; nothing else changes |
| Controller.Tick | src/App.jsx:67-75 | above one second the countdown drops by one and the screen is unchanged; at one second or less it becomes 0 and the test ends; it is never negative |
| Controller.InputChange | src/App.jsx:85-106 | a jump of more than two characters changes nothing; otherwise the input becomes the new value; errors rise by at most one, and by exactly one when the text has a character at the new last position that differs from it; the test ends exactly when the new length equals the text length |
| Controller.Feedback | src/App.jsx:92-97 | a keystroke sound plays exactly when the guard accepts it and the text has a character at its last position; the tone is low exactly when that character is mistyped |
| Controller.LowToneIffError | src/App.jsx:92-97 | a keystroke plays the low tone exactly when it adds an error |
| Controller.TwoCharJumpAccepted | src/App.jsx:89 | a jump of exactly two characters passes the paste guard |
| Controller.OvershootOnlyByTwoCharJump | src/App.jsx:89-105 | the input can only outgrow the text by a two-character jump from one short of the end, and the test then keeps running |
| Controller.OvershootExample | src/App.jsx:100-105 | "ab" jumping to "abcd" on the text "abc" leaves the test running with a four-character input |
| Controller.BackspaceCanAddError | src/App.jsx:92-96 | shortening "xy" to "x" on the text "ab" adds an error |
| Controller.ToggleHistory | src/App.jsx:146 | the history view closes to home and opens from any other screen; timer and session data are untouched |
| Controller.HistoryRoundTripLeavesTest | src/App.jsx:146 | opening and closing the history view during a test lands on home with the timer still running |
| Controller.BackHome | src/App.jsx:263 | the back-home button shows the home screen and changes nothing else |
| Controller.StatsOf | src/App.jsx:108-120 | accuracy lies in [0,100]; WPM is non-negative when the seconds left do not exceed the duration; nothing typed gives 0 and 0; errors are the session's |
| Controller.CalculateStats | src/App.jsx:108-120 | the single pass over the input computes the same statistics as the positional definition |
| Controller.AppendsEndExactlyAtText | src/App.jsx:100-105 | typing one character at a time keeps the test running until the input reaches the text length, then ends it with the input exactly as long as the text |
| Controller.AppendsKeepErrorsAreWrongChars | src/App.jsx:92-100 | while characters are typed one at a time, the error count stays equal to the number of wrong characters in the input |
| Controller.PlainTypingErrorsAreWrongChars | src/App.jsx:53-100 | a test typed one character at a time from its start has exactly as many errors as wrong characters |
| Controller.JumpUndercountsErrors | src/App.jsx:89-100 | a two-character jump checks only its last character: typing "xy" against "abc" leaves the test running with one error but two wrong characters |
| Controller.CountdownRuns | src/App.jsx:67-75 | before time runs out, n ticks lower the seconds left by n and change nothing else |
| Controller.CountdownExpires | src/App.jsx:67-75 | as many ticks as seconds left end the test with 0 seconds left and the timer stopped |
| Controller.CatScenario | src/App.jsx:53-120 | a 60 s test on "cat", typed correctly after 10 s, ends on the third keystroke with 4 WPM, 100 % accuracy and no errors |
| Controller.IdleExpiryScenario | src/App.jsx:53-120 | a 30 s test with nothing typed runs out to a result with 0 WPM and 0 % accuracy |
| Scores.Push | src/App.jsx:131-132 | the new record becomes the head; the length becomes min(old + 1, 10); the rest is a prefix of the old history in its old order |
| Scores.PushEvictsOldest | src/App.jsx:132 | an old record survives a push exactly when it was among the nine newest, and moves back one place |
| Scores.PushAllKeepsNewest | src/App.jsx:131-132 | after one or more results, the history is the new records (newest first), then the old history, cut to ten |
| Scores.PushAllBounded | src/App.jsx:132 | after at least one result the history has min(results + old, 10) records |
| Theme.Initial | src/App.jsx:11 | a missing or empty stored theme becomes "dark"; any other stored string is kept |
| Theme.Toggle | src/App.jsx:51 | the toggle always yields "dark" or "light", and it flips a dark or light theme |
| Theme.ToggleTwice | src/App.jsx:51 | toggling twice restores a dark or light theme |
| Theme.ToggleNormalises | src/App.jsx:51 | a stored theme other than dark or light becomes dark, then light |
| AppComponent.Mount | src/App.jsx:11-18 | the mounted component has the initial session, the loaded history unchanged, and the stored theme or "dark" |
| AppComponent.Enabled | src/App.jsx:155-287 | the header toggles are always offered; keystrokes and end-early only while typing; start on home and result; back-home on result; the duration buttons on home; a tick only while the timer runs |
| AppComponent.RecordOf | src/App.jsx:124-130 | the record carries today's date, the session's duration and its WPM and accuracy; accuracy is in [0,100] and WPM is non-negative when the seconds left do not exceed the duration |
| AppComponent.Transition | src/App.jsx:53-263 | an event the screen offers runs its handler: a start enters `typing` with the timer on, no input, no errors, the full duration left and the drawn passage (twice for 120 s); an accepted keystroke replaces the input and adds an error exactly when mistyped; a tick lowers the seconds left by one, to no less than 0; ending early shows the result with the timer off; back-home shows home; a duration button sets the chosen duration; the history button toggles the history screen. Only a start changes the text; only a start or a keystroke changes the input or the errors; only a start or a tick changes the seconds left; only a duration button changes the duration; only a start, a tick, ending early or a keystroke changes whether the timer runs; the duration and theme buttons never change the screen; the theme button leaves the session alone |
| AppComponent.Step | src/App.jsx:122-137 | the session is the one the event's handler produces, and an event the screen does not offer leaves it alone; the history changes only when the step enters the result screen, and then by pushing the finished session's record; only the theme button changes the theme |
| AppComponent.MountInv | src/App.jsx:11-18 | the component as mounted satisfies the invariant |
| AppComponent.StepPreservesInv | src/App.jsx:53-106 | every event keeps the invariant: a valid duration; no negative countdown; a running test has its timer on, time left between 1 and the duration, and an input not exactly as long as its text; a result has its timer off and time left within the duration |
| AppComponent.StepRecordsOnFinish | src/App.jsx:122-137 | the history changes exactly when a step enters the result screen, and then by pushing one record dated today that carries the finished session's WPM, accuracy and duration; in every reachable state its WPM is non-negative, its accuracy in [0,100] and its duration 30, 60 or 120 |
| AppComponent.RunPreservesInv | src/App.jsx:53-106 | the invariant holds after any sequence of events |
| AppComponent.ReachableInv | src/App.jsx:12-17 | every state reachable from mount satisfies the invariant |
| AppComponent.StartKeepsHistory | src/App.jsx:270-287 | starting never changes the history; the history screen offers no start, so it changes nothing there |
| AppComponent.ExpiryBehindHistoryRecords | src/App.jsx:146 | a timer that runs out behind the history screen still finishes the test and records it |
| AppComponent.ThemeOnlyByToggle | src/App.jsx:149-151 | only the theme button changes the theme, and it changes nothing else |

## Left out

- Metrics.Wpm: the contract says nothing for a negative elapsed time. No result screen can show one: `AppComponent.Inv` keeps the seconds left within the duration there.
- Sound synthesis (`src/App.jsx:25-44`): Web Audio is a foreign call whose failures are swallowed. The model only decides which tone would play (`Controller.Feedback`).
- Browser storage and JSON (`src/App.jsx:11`, `18`, `48`, `133`): loading and saving are side effects. The stored theme and the loaded history are inputs to `AppComponent.Mount`. A malformed stored history would make `JSON.parse` throw at mount; the model does not cover this.
- Random choice of the passage (`src/App.jsx:54`): the drawn index is a parameter of the start event.
- `Date.now` and `toLocaleDateString` (`src/App.jsx:61`, `126`): the start time is never read by the statistics. The record's date is an opaque string passed to each step.
- DOM and React plumbing: input focus (`src/App.jsx:63-65`), paste and copy blocking through `preventDefault` (`src/App.jsx:227-228`), the layout and the theme's effect on the page. React's batching of state updates is taken as atomic: each event is one step.
- Floating point: the component rounds IEEE-754 doubles, the model rounds exact rationals, and the two differ when a true .5 is computed just below it. 23 correct characters of 40 give `(23/40)*100 = 57.49999999999999`, so 57 % in the component and 58 % in the model. 3 characters after 24 s give `0.6/0.4 = 1.4999999999999998`, so 1 WPM in the component and 2 in the model. The progress-bar width (`src/App.jsx:201`) is presentation only.
- Several live intervals: closing the history view to home during a test and then starting again leaves the old interval running, because `timerRef` is overwritten (`src/App.jsx:67`, `146`). Two intervals would count down twice as fast. The model has one abstract timer (`timerRunning`).
- Character width: JavaScript string lengths and indices count UTF-16 code units; the model counts Dafny characters (Unicode scalar values). The passages are ASCII, but the typed input is not limited to it. A character outside the Basic Multilingual Plane, such as an emoji, is two code units in the component and one character in the model. For such input the model differs in the paste guard's length difference, in the position whose character is checked, and in when the input length equals the text length.
