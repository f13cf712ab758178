# Quiz session model

A Dafny model of the timed multiple-choice quiz of the CodeDuo quiz page
(`frontend/components/QuizPage.js`). Under its React rendering the page keeps
a small session object of ten fields: the current question index, the
selected option, the score, the seconds left, whether the quiz is complete,
whether the results are shown, the list of answer records, the streak, the
longest streak and the multiplier. Five events change it: selecting an
answer, advancing to the next question, a tick of the clock (which, at zero,
advances on its own), restarting, and revealing the results. The results
screen derives the number of correct answers, a rounded percentage and a
letter grade from the answer records.

The model has three modules:

- `QuizScoring` (`scoring.dfy`): the pure rules. The streak multiplier
  (one level per three consecutive correct answers, capped at 5), the time
  bonus (one point per full five seconds left), the points of a correct
  answer, functions of the answer list (the correct records, the current and
  the longest streak, the score those records add up to), the grade and the
  rounded percentage. Lemmas prove that the streak is at most the longest
  streak, which is at most the correct count; that the score lies between 100
  and 530 points per correct answer and never drops as records are added;
  that the grade is monotone in the correct count and agrees with an
  independent grading by tenths; what the correct count, the streak and the
  longest streak count in terms of positions of the list; and how the grade and the displayed
  percentage relate.
- `QuizSession` (`session.dfy`): a class `Session` with the ten fields and
  one method per event. Its invariant `Valid()` keeps the index on the
  question list and the clock within [0, 30]. It allows at most one record
  per question reached. It also ties the score, the streak, the longest
  streak and the multiplier to the functions of the answer list. Each method
  states the whole new state in terms of the old one.
- `QuizScenarios` (`scenarios.dfy`): short runs of events whose final
  figures are proved from the methods' contracts: the two-question run
  scoring 211, a timeout, a repeated click, and a restart.

Questions are a parameter of the constructor: a non-empty sequence of
`Question(id, correctAnswer)`. The question text and the options are not
needed by any rule and are not modelled.

In four places the code does something one might not expect, and the model
follows the code:

- A timeout does not produce an answer record, and it does not reset the
  streak or the multiplier. One might expect a timeout to count as a wrong
  answer, but the tick at zero calls `handleNextQuestion`
  (`frontend/components/QuizPage.js:25-26`), which only advances (lines
  69-78). `TimeoutKeepsStreak` shows the streak carrying on.
- The clock keeps running after a selection, because the tick guard
  (`frontend/components/QuizPage.js:22`) does not look at `selectedAnswer`
  (`SelectionLocksButClockRuns`).
- Because timeouts leave no record, the answer list holds at most one record
  per question, not exactly one. This holds for the model. It also holds for
  the page, except when the stale auto-advance described under "Left out"
  runs.
- The grade compares the unrounded percentage, but the results screen shows
  the rounded one. So 26 correct out of 29 shows 90 percent with grade A
  (`DisplayedPercentageDoesNotImplyGrade`).

## Model

| member | source | states |
|---|---|---|
| `QuizScoring.Multiplier` | frontend/components/QuizPage.js:50-52 | the multiplier lies in [1, 5]; it is 5 exactly when the streak is at least 12; below the cap, multiplier m covers streaks 3(m-1) to 3m-1 |
| `QuizScoring.MultiplierMonotone` | frontend/components/QuizPage.js:51 | a longer streak never gives a smaller multiplier |
| `QuizScoring.TimeBonus` | frontend/components/QuizPage.js:55 | the bonus b is the floor of a fifth of the time left (5b <= t < 5b + 5), and lies in [0, 6] for a time on the clock |
| `QuizScoring.Points` | frontend/components/QuizPage.js:54-56 | a correct answer is worth at least 100 times the multiplier and at most 530; with multiplier 1 it is 100 plus the time bonus |
| `QuizScoring.CorrectAnswers` | frontend/components/QuizPage.js:126 | the filtered list holds only correct records of the answer list, holds every correct record of it, and is no longer than it |
| `QuizScoring.CorrectAnswersAppend` | frontend/components/QuizPage.js:126 | filtering a list with one more record gives the filtered list of the shorter one, followed by that record if it is correct; so the filtered list keeps the records in their original order |
| `QuizScoring.CorrectAnswersMultiset` | frontend/components/QuizPage.js:126 | each correct record occurs in the filtered list exactly as many times as in the answer list, and no wrong record occurs in it |
| `QuizScoring.CorrectCount` | frontend/components/QuizPage.js:94 | the number of correct answers is at most the number of records |
| `QuizScoring.CorrectCountIsPositions` | frontend/components/QuizPage.js:94 | the number of correct answers equals the number of positions of the answer list holding a correct record |
| `QuizScoring.AllCorrectCount` | frontend/components/QuizPage.js:94 | when every record is correct, the number of correct answers is the number of records |
| `QuizScoring.TrailingCorrect` | frontend/components/QuizPage.js:45-60 | the streak is at most the number of records |
| `QuizScoring.TrailingCorrectIsCorrectSuffix` | frontend/components/QuizPage.js:45-60 | the last `streak` records are all correct, and the record just before them, if any, is wrong: the streak is the length of the longest all-correct suffix |
| `QuizScoring.LongestStreak` | frontend/components/QuizPage.js:48 | the longest streak is at least the current streak and at most the number of records |
| `QuizScoring.LongestStreakIsLongestRun` | frontend/components/QuizPage.js:48 | no prefix of the answer list ends in a streak longer than the longest streak, and some prefix ends in a streak exactly as long |
| `QuizScoring.AppendRecord` | frontend/components/QuizPage.js:43-61 | appending one record adds one to the correct count when it is correct; extends the streak by one or resets it to 0; raises the longest streak to the new streak if that is longer; and adds the record's points to the score (`TotalScore`) |
| `QuizScoring.StreakBounds` | frontend/components/QuizPage.js:46-48 | the current streak is at most the longest streak, which is at most the correct count, which is at most the number of records |
| `QuizScoring.ScoreBounds` | frontend/components/QuizPage.js:45-61 | for records taken with the clock in range, the accumulated score (`TotalScore`) is between 100 and 530 times the number of correct answers, so it is never negative |
| `QuizScoring.ScorePrefixMonotone` | frontend/components/QuizPage.js:57-61 | the accumulated score (`TotalScore`) of any prefix of the answer list is at most that of the whole list: adding records never lowers the score |
| `QuizScoring.GradeFor` | frontend/components/QuizPage.js:97-101 | the threshold chain on c correct out of n agrees with grading by the whole tenths floor(10c / n): 9 or more A+, 8 A, 7 B, 6 C, fewer D |
| `QuizScoring.ScoreGrade` | frontend/components/QuizPage.js:93-102 | the grade of an answer list equals grading by the whole tenths of the questions answered correctly; it is A+ exactly when at least nine tenths are correct |
| `QuizScoring.GradeThresholds` | frontend/components/QuizPage.js:97-101 | A+ iff 100c >= 90n; A iff 80n <= 100c < 90n; B between 70 and 80; C between 60 and 70; D below 60 percent |
| `QuizScoring.GradeMonotone` | frontend/components/QuizPage.js:97-101 | more correct answers never give a lower grade |
| `QuizScoring.Percentage` | frontend/components/QuizPage.js:127 | r is 100c / n rounded to the nearest integer with halves upwards (2nr - n <= 200c < 2nr + n); it is non-negative, and at most 100 when c <= n |
| `QuizScoring.ResultsPercentage` | frontend/components/QuizPage.js:126-127 | the displayed percentage of an answer list is its correct count over n, rounded; it lies in [0, 100] when there are at most n records |
| `QuizScoring.AllCorrectResults` | frontend/components/QuizPage.js:126-128 | a non-empty answer list with every record correct, one per question, is graded A+ and shown at 100 percent |
| `QuizScoring.GradeImpliesDisplayedPercentage` | frontend/components/QuizPage.js:95-101 | whenever the grade reaches a threshold (A+ 90, A 80, B 70, C 60), the displayed percentage is at least that threshold |
| `QuizScoring.DisplayedPercentageDoesNotImplyGrade` | frontend/components/QuizPage.js:126-128 | the converse fails: 26 of 29 displays 90 percent but is graded A |
| `QuizSession.Session.constructor` | frontend/components/QuizPage.js:9-18 | a new session starts at question 0, nothing selected, score 0, 30 seconds, not complete, no results, no records, streak 0, longest streak 0, multiplier 1, and satisfies the invariant |
| `QuizSession.Session.SelectAnswer` | frontend/components/QuizPage.js:30-67 | with an option already selected nothing changes. Otherwise it selects the option and appends exactly one record: the question's id, the option, the correct option, whether they match, and the time left. A correct answer increments the streak, raises the longest streak, sets the multiplier from the new streak and adds (100 + time bonus) times that multiplier to the score. A wrong one sets the streak to 0 and the multiplier to 1 and leaves the score. The index, clock and phase flags do not change; the score never drops; the invariant is kept |
| `QuizSession.Session.NextQuestion` | frontend/components/QuizPage.js:69-78 | before the last question it moves to the next one, clears the selection and resets the clock to 30; on the last one it only marks the quiz complete; the index never decreases and stays on the list |
| `QuizSession.Session.Tick` | frontend/components/QuizPage.js:21-28 | with time left on an incomplete quiz not showing results, it takes exactly one second off and changes nothing else, whether or not an option is selected. At zero on an incomplete quiz it advances exactly as `NextQuestion`. Otherwise nothing changes. The clock never goes negative, and a tick never touches the records, the score, the streak or the multiplier |
| `QuizSession.Session.Restart` | frontend/components/QuizPage.js:80-91 | from any state, all ten fields return to their initial values |
| `QuizSession.Session.RevealResults` | frontend/components/QuizPage.js:76 | the results are shown and nothing else changes |
| `QuizScenarios.RunClock` | frontend/components/QuizPage.js:21-24 | k ticks on a running question take exactly k seconds off and change nothing else |
| `QuizScenarios.AnswerBothCorrectly` | frontend/components/QuizPage.js:30-78 | on the two-question quiz, answering option 2 at 30 seconds and, five seconds into the second question, option 0, leaves two correct records, a score of 211 and the quiz still running on question 2 |
| `QuizScenarios.TwoCorrectAnswers` | frontend/components/QuizPage.js:45-78 | two correct answers at 30 and 25 seconds score 106 + 105 = 211, with two records, grade A+ and 100 percent, and the run ends complete on the results screen |
| `QuizScenarios.TimeoutKeepsStreak` | frontend/components/QuizPage.js:25-26 | a timeout advances past the question with no record, keeps the streak at 1, and the next correct answer makes it 2 |
| `QuizScenarios.SelectionLocksButClockRuns` | frontend/components/QuizPage.js:22-31 | a second click leaves the first selection and its single record in place, while the clock goes on from 29 to 28 |
| `QuizScenarios.RestartAfterFinish` | frontend/components/QuizPage.js:80-91 | restarting a finished quiz showing its results gives back exactly the initial state |

## Left out

- `backend/services/questionService.js`: each operation forwards to a question repository, which is not part of this model. There is no logic of its own to state.
- Rendering: the JSX, the CSS classes chosen per option, icons, the progress bar, and the colour classes returned with each grade. These are presentation only.
- `shareScore` and `openPage`: browser sharing, clipboard, alert and navigation I/O.
- The hardcoded leaderboard and the rank shown with it: sample data.
- The `quizQuestions` module is not part of this model. Its list is the constructor's parameter, and only each question's id and correct option are kept.
- Real-time scheduling: the 1 s tick delay, the 2 s auto-advance after a selection and the 1 s delay before the results. Each of these is an event method (`Tick`, `NextQuestion`, `RevealResults`) that any caller may issue in any order. The model therefore admits every order of the events, each applied to the current state, including orders the page's timing never produces. It does not model the cancelling of pending timers.
- The stale auto-advance. The 2 s timer set on a selection (`frontend/components/QuizPage.js:64-66`) runs the `handleNextQuestion` of the render in which the answer was chosen. That function reads that render's `currentQuestion` (lines 70-71), not the current one. Suppose the answer comes with 1 s on the clock. The clock still runs out (line 22) and advances the quiz (line 26). The late timer then sets the same next question again, clears a selection made on it and puts the clock back to 30. The question can then be answered, and scored, a second time. The advance of the model always works from the current state, so it never reaches such a state: in the model, with nothing selected, the records never outnumber the questions already left behind.
- Floating point: the grade compares 100c against 90n, 80n, 70n and 60n exactly. The JavaScript comparison of the floating-point `(c / n) * 100` agrees with that for every c <= n <= 200. The division by zero of an empty question list cannot happen, since a session requires a non-empty list.
- `QuizScoring.Percentage`: it rounds the exact value 100c / n, halves upwards. JavaScript rounds the floating-point `(c / n) * 100`, which can fall just below a half. For 23 of 40 that is 57.49999999999999, shown as 57, while `Percentage(23, 40)` is 58. The same happens for 46 of 80, 29 of 200 and 57 of 200; the model does not capture this rounding error.
- The gate of the option buttons: they are drawn only while the quiz is neither complete nor showing results (`frontend/components/QuizPage.js:125`, 258-270, 354-357). Rendering is not modelled, so `SelectAnswer` accepts a click in any state; the handler itself (line 31) checks only for an earlier selection.
- `QuizSession.Session.Restart`: it requires a non-empty question list. The constructor guarantees that for every session, so this excludes no reachable state.
