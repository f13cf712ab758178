/** Client runs of the session, each a sequence of events with the figures
    it ends in, proved from the event methods' contracts alone. */
module QuizScenarios {
  import opened QuizScoring
  import opened QuizSession

  /** Lets `k` seconds run off the clock of a running question. */
  method RunClock(s: Session, k: int)
    requires s.Valid() && !s.isQuizComplete && !s.showResults
    requires 0 <= k <= s.timeLeft
    modifies s
    ensures s.Valid()
    ensures s.View() == old(s.View()).(timeLeft := old(s.timeLeft) - k)
  {
    var i := 0;
    while i < k
      invariant 0 <= i <= k
      invariant s.Valid()
      invariant s.View() == old(s.View()).(timeLeft := old(s.timeLeft) - i)
    {
      s.Tick();
      i := i + 1;
    }
  }

  /** The two answers of `TwoCorrectAnswers`: option 2 on question 1 at 30
      seconds, then, five seconds into question 2, option 0. */
  method AnswerBothCorrectly(s: Session)
    requires s.Valid() && s.View() == Start
    requires s.questions == [Question(1, 2), Question(2, 0)]
    modifies s
    ensures s.Valid() && s.currentQuestion == 1
    ensures !s.isQuizComplete && !s.showResults
    ensures s.score == 211 && |s.userAnswers| == 2
    ensures s.userAnswers[0].isCorrect && s.userAnswers[1].isCorrect
  {
    s.SelectAnswer(2);
    assert s.score == 106 && s.streak == 1;
    s.NextQuestion();
    RunClock(s, 5);
    assert s.timeLeft == 25 && s.currentQuestion == 1;
    s.SelectAnswer(0);
  }

  /** Two questions, both answered correctly, at 30 and at 25 seconds: the
      streak reaches 2 with the multiplier still 1, so the score is
      (100 + 6) + (100 + 5) = 211, graded A+ at 100 percent, and the run ends
      on the results screen. */
  method TwoCorrectAnswers() returns (finalScore: int, records: int, grade: Grade, percent: int, shown: bool)
    ensures finalScore == 211 && records == 2
    ensures grade == APlus && percent == 100
    ensures shown
  {
    var s := new Session([Question(1, 2), Question(2, 0)]);
    AnswerBothCorrectly(s);
    var answers := s.userAnswers;
    AllCorrectResults(answers);
    finalScore, records := s.score, |answers|;
    grade := ScoreGrade(answers, |s.questions|);
    percent := ResultsPercentage(answers, |s.questions|);
    s.NextQuestion();
    s.RevealResults();
    shown := s.isQuizComplete && s.showResults;
  }

  /** A question that times out is skipped without a record: the quiz moves
      on, and the streak built before it carries on into the next correct
      answer. */
  method TimeoutKeepsStreak() returns (records: int, streakAfterTimeout: int, index: int, streakAtEnd: int)
    ensures records == 1 && streakAfterTimeout == 1 && index == 2
    ensures streakAtEnd == 2
  {
    var s := new Session([Question(1, 0), Question(2, 1), Question(3, 2)]);
    s.SelectAnswer(0);
    s.NextQuestion();
    RunClock(s, 30);
    s.Tick();
    records, streakAfterTimeout, index := |s.userAnswers|, s.streak, s.currentQuestion;
    s.SelectAnswer(2);
    streakAtEnd := s.streak;
  }

  /** After a selection, a second click is ignored, while the clock keeps
      running down. */
  method SelectionLocksButClockRuns() returns (records: int, selected: Option<int>, time: int)
    ensures records == 1 && selected == Some(1) && time == 28
  {
    var s := new Session([Question(7, 1), Question(8, 0)]);
    s.Tick();
    s.SelectAnswer(1);
    s.SelectAnswer(0);
    s.Tick();
    records, selected, time := |s.userAnswers|, s.selectedAnswer, s.timeLeft;
  }

  /** Restarting a finished quiz gives back the initial state. */
  method RestartAfterFinish() returns (before: Snapshot, after: Snapshot)
    ensures before.isQuizComplete && before.showResults && before.score == 106
    ensures after == Start
  {
    var s := new Session([Question(1, 3)]);
    s.SelectAnswer(3);
    s.NextQuestion();
    s.RevealResults();
    before := s.View();
    s.Restart();
    after := s.View();
  }
}
