# Quiz session of the quiz app, modelled in Dafny

The quiz app asks for an email address and starts the quiz if it is well
formed. It then loads a bank of multiple-choice questions and runs a 30-minute
count-down. The user moves freely among the questions with Previous, Next and
one numbered button per question, and answers them. The quiz ends with a report
when the user submits or the clock reaches zero.

All of this lives in the `App` component (`src/App.js`). This project models
that component's state and its transitions, leaving out the markup.

- `time_format.dfy` (module `TimeFormat`): the `formatTime` helper that shows
  the clock as "MM:SS". It is proved to write the minutes and seconds in
  decimal, each with at least two digits. The clock text is also proved to
  determine the remaining seconds.
- `email_check.dfy` (module `EmailCheck`): the address test
  `^[^\s@]+@[^\s@]+\.[^\s@]+$`.
  - `MatchesEmailPattern` states it as the pattern reads: three segments joined
    by '@' and '.'.
  - `IsValidEmail` states it as four checks: no whitespace, exactly one '@',
    something before it, and a dot inside the part after it.
  - The two are proved equivalent.
- `quiz.dfy` (module `Quiz`) holds the session itself.
  - **Questions and options.** A question's option list is its wrong answers
    followed by the right one. The shuffle is represented by a rearrangement
    predicate, proved to mean "same multiset".
  - **Visit state.** The colour rule of the question buttons.
  - **Navigation clamps.** The targets of Previous and Next.
  - **The `QuizSession` class.** It has the same twelve fields as the
    component's state. Each user event, and each timer tick, is one method.
    That method also runs the current-question effect when the event changes
    what the effect depends on (the index, the started flag, the question
    list or the answers).
  - **The invariant `Valid`.** It holds between events. Among other facts:
    - every visited index is a question;
    - the attempted questions are exactly those with a recorded answer, and
      are all visited;
    - the clock never leaves `0 .. 1800`, and stands at zero only when the
      report is shown;
    - on the question screen, the current question is visited, its options
      are displayed in some order, and the selection is its recorded answer.
- `scenarios.dfy` (module `QuizScenarios`): runs of a session from creation,
  including one that shows how the score over-counts.

Outside effects are parameters:
- The questions the bank returns are an argument of `LoadQuestions`.
- The order the random sort gives the options is an argument `perm` of every
  method that runs the current-question effect. It is required to be a
  rearrangement of that question's options.

Two behaviours of the code shape the model:
- **Score.** The code never recomputes or decrements `score`. Each click on the
  correct answer adds one, even for a question already answered correctly, and
  changing to a wrong answer takes nothing away. So the model proves neither
  `score <= |questions|` nor "score equals the number of correct answers". It
  proves the lower bound and exhibits the over-count.
- **Reshuffling.** The code shuffles the options again after every answer,
  because the effect depends on the answers. So `HandleAnswer` takes a new
  order, too.

## Model

| member | source | states |
|---|---|---|
| TimeFormat.Decimal | src/App.js:20 | `String(n)` for a non-negative integer below 10^21 (the clock never exceeds 1800) is a non-empty digit string that denotes n and has no leading zero; it has one digit exactly when n < 10 and at most two exactly when n < 100 |
| TimeFormat.PadStart | src/App.js:20 | `padStart(width, fill)` gives a string as long as the width or the original, whichever is longer: the original string at the end and only fill characters in front of it |
| TimeFormat.PaddedDecimal | src/App.js:20 | `String(n).padStart(2, "0")` is a digit string of length at least 2 that still denotes n; it is exactly two characters long exactly when n < 100 |
| TimeFormat.FormatTime | src/App.js:20 | the clock text is digits, ':', then two digits; the digits before the colon denote `Math.floor(sec / 60)` and the last two denote `sec % 60`; the text is five characters long exactly when sec < 6000 |
| TimeFormat.FormatTimeRoundTrip | src/App.js:20 | reading the minutes and seconds back from `formatTime(sec)` gives sec again |
| TimeFormat.FormatTimeInjective | src/App.js:20 | two different numbers of seconds are never shown as the same text |
| EmailCheck.IndexOf | src/App.js:23 | the position of the first occurrence of a character, or the length when it does not occur |
| EmailCheck.ValidEmailMatchesPattern | src/App.js:23 | the regular expression (`MatchesEmailPattern`, with JavaScript's `\s` as `IsWhitespace`) matches (segment '@' segment '.' segment, segments free of whitespace and '@') exactly when the test `IsValidEmail` holds: the string has no whitespace, a single '@' with something before it, and a dot after it that is neither first nor last there |
| EmailCheck.ValidImpliesPattern | src/App.js:23 | a string passing the four checks splits into the three segments the pattern asks for |
| EmailCheck.PatternImpliesValid | src/App.js:23 | a string matching the pattern passes the four checks |
| Quiz.Options | src/App.js:61 | the option list is the wrong answers in their order followed by the correct answer |
| Quiz.RemoveOneMultiset | src/App.js:62 | taking out one occurrence of a present element removes exactly that element from the multiset, and leaves a sequence without it unchanged |
| Quiz.RearrangementIsSameMultiset | src/App.js:62 | a sequence is a rearrangement of another exactly when both hold the same elements with the same multiplicities, so the shuffled options are a permutation of the options |
| Quiz.RestoredSelection | src/App.js:64 | the falsy-or-null lookup of the recorded answer selects the recorded answer exactly when one is recorded and it is not the empty string |
| Quiz.CorrectCountIsSize | src/App.js:74-76 | the recursive count of correctly answered questions is the size of the set of indices whose recorded answer is correct |
| Quiz.RecordingAnswerBound | src/App.js:71-76 | recording answer a for question c raises the number of correctly answered questions by at most one, and not at all unless a is correct; so the score, raised by exactly that one, stays at or above it |
| Quiz.VisitStateOf | src/App.js:137-141 | a question is Attempted exactly when attempted, Viewed exactly when visited but not attempted, Not Viewed otherwise |
| Quiz.ButtonShowsVisitState | src/App.js:130-141 | the overwriting colour assignments (`ButtonColour`) paint each button in the legend colour of its visit state, and the three legend colours are distinct |
| Quiz.PreviousIndex | src/App.js:190 | `Math.max(0, current - 1)` stays within `0 .. current`, equals current exactly when current is 0, and is one step back otherwise |
| Quiz.NextIndex | src/App.js:191 | `Math.min(count - 1, current + 1)` stays within `current .. count - 1`, equals current exactly at the last index, and is one step on otherwise |
| Quiz.QuizSession.constructor | src/App.js:7-18 | the initial state: empty address, not started, no questions, index 0, score 0, 1800 seconds, no report, nothing visited, attempted or answered, no options, no selection; the invariant holds |
| Quiz.QuizSession.SetEmail | src/App.js:92 | typing in the address field replaces the address and changes nothing else |
| Quiz.QuizSession.StartQuiz | src/App.js:22-29 | the quiz starts exactly when the address passes the test; a rejected address changes no state at all |
| Quiz.QuizSession.CurrentQuestionEffect | src/App.js:56-67 | once started with questions loaded, the current index is added to the visited set (nothing is removed), the options are shown in the given order, which is a permutation of the current question's options, and the selection becomes the recorded answer; otherwise nothing changes; the invariant is re-established |
| Quiz.QuizSession.LoadQuestions | src/App.js:31-39 | the question list arrives; a non-empty one puts question 0 on screen as the only visited question, with no selection; an empty one leaves the loading notice; nothing visited before is lost (nothing was visited) |
| Quiz.QuizSession.Tick | src/App.js:44-51 | above one second the clock loses one second and the report flag is untouched; at one second or less the clock becomes 0 and the report is shown; the clock never increases or goes negative, and strictly decreases while positive |
| Quiz.QuizSession.HandleAnswer | src/App.js:69-77 | once the report is shown or the clock is at zero nothing changes at all; otherwise the answer is recorded for the current question and no other entry changes, the question becomes attempted, the score rises by exactly one for the correct answer and is unchanged otherwise, the visited set stays as it was, and the selection is the answer (none for the empty string); the score never decreases |
| Quiz.QuizSession.RecordAnswer | src/App.js:71-76 | the four updates of `handleAnswer` past its guard keep every invariant the current-question effect does not restore, including the lower bound on the score |
| Quiz.QuizSession.SubmitQuiz | src/App.js:79-81 | the report is shown and the invariant holds |
| Quiz.QuizSession.SetCurrentQuestion | src/App.js:146 | the index becomes i and no index leaves the visited set; choosing the index already current changes nothing; a new index is added to the visited set, its options are shown in the given order and its recorded answer is selected |
| Quiz.QuizSession.Previous | src/App.js:190 | the index moves to `PreviousIndex` of the old one and stays within the questions; at the first question nothing changes; otherwise the new index is added to the visited set (nothing is removed), its options are shown in the given order and its recorded answer is selected |
| Quiz.QuizSession.Next | src/App.js:191 | the index moves to `NextIndex` of the old one and stays within the questions; at the last question nothing changes; otherwise the new index is added to the visited set (nothing is removed), its options are shown in the given order and its recorded answer is selected |
| Quiz.QuizSession.VisitStateAt | src/App.js:137-138 | a button is coloured at all exactly when its question was visited, and green exactly when its question has a recorded answer |
| Quiz.QuizSession.AnsweredCount | src/App.js:127 | the "Answered" counter is the number of recorded answers and never exceeds the number of questions |
| QuizScenarios.SampleAddressIsWellFormed | src/App.js:23 | "a@b.com" passes the address test |
| QuizScenarios.AddressWithoutAtIsMalformed | src/App.js:23 | every address without an '@' fails the address test |
| QuizScenarios.StartedSession | src/App.js:22-67 | a new session given a well-formed address and a non-empty question list is on the question screen with question 0 current and the only one visited, nothing answered and a full clock |
| QuizScenarios.StartWithWellFormedAddress | src/App.js:22-29 | starting with "a@b.com" and loading two questions leaves question 0 current and the only one visited |
| QuizScenarios.StartWithMalformedAddress | src/App.js:22-29 | starting with "not-an-email" leaves the quiz unstarted |
| QuizScenarios.JumpAndAnswer | src/App.js:146 | jumping from question 0 to question 2 and answering it correctly gives score 1, attempted {2}, visited {0, 2} |
| QuizScenarios.AnswerAfterJump | src/App.js:69-77 | the same run from a freshly created session with three questions |
| QuizScenarios.RunOutTheClock | src/App.js:70 | ticking until the clock is at zero shows the report, and an answer given afterwards records nothing and scores nothing |
| QuizScenarios.AnswerTwice | src/App.js:74-76 | answering the only question twice with the same answer records it once and scores two if it is correct |
| QuizScenarios.ReanswerOvercounts | src/App.js:75 | answering the only question correctly twice, then wrongly, leaves score 2 with no correct answer on record: the score exceeds the number of correct answers |

## Left out

- The request to the question bank and the parsing of its reply (`src/App.js:33-37`) are network I/O. `LoadQuestions` receives the list the reply would carry, of any length. A failed request or a reply without results is not modelled.
- The `setInterval`/`clearInterval` scheduling and the effect cleanup (`src/App.js:43`, `46`, `53`) are timer plumbing. Only the per-second update is modelled, as `Tick`, callable any time after the start.
- `Math.random` in the sort comparator (`src/App.js:62`) is a foreign random source. The order it yields is the parameter `perm`, constrained only to be a rearrangement of the options.
- `alert` (`src/App.js:25`), the JSX markup, the styles, the HTML rendering of question texts and the report page (`src/App.js:83-200`) are presentation. Question and answer texts are opaque strings.
- React's scheduling of state updates and effects is not modelled. Each event method runs the current-question effect itself, at the point React would run it after that event's re-render. An update that leaves the state as it was triggers neither a re-render nor the effect.
- The navigation methods require the question screen to be on display, the only time their buttons exist. `HandleAnswer` only needs the questions loaded; on the report screen its guard makes it change nothing.
- TimeFormat.Decimal: writes every natural number in plain decimal, whereas JavaScript's `String` uses exponent form from 10^21 on; the clock's values stay far below that.
- TimeFormat.FormatTime: takes a natural number, so the behaviour of `formatTime` on negative seconds is not modelled. The clock never holds one (`Valid` keeps it in `0 .. 1800`).
- Quiz.QuizSession.Consistent: bounds the score only from below, by the number of correctly answered questions. The code never recomputes the score and over-counts re-answered questions (see `QuizScenarios.ReanswerOvercounts`), so no upper bound is stated.
