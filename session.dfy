/** The quiz session: the ten pieces of state of the quiz page and the five
    events that change them (select an answer, advance, clock tick, restart,
    reveal the results), each taken as one atomic step. */
module QuizSession {
  import opened QuizScoring

  datatype Option<T> = None | Some(value: T)

  /** The values of the ten session fields at one moment. */
  datatype Snapshot = Snapshot(
    currentQuestion: int,
    selectedAnswer: Option<int>,
    score: int,
    timeLeft: int,
    isQuizComplete: bool,
    showResults: bool,
    userAnswers: seq<AnswerRecord>,
    streak: int,
    maxStreak: int,
    multiplier: int)

  /** The state of a fresh or restarted quiz. */
  const Start: Snapshot :=
    Snapshot(0, None, 0, QuestionTime, false, false, [], 0, 0, 1)

  /** The state after an advance over `n` questions: the next question with
      a cleared selection and a full clock, or, on the last question, the
      same state marked complete. */
  function AfterAdvance(s: Snapshot, n: int): Snapshot
  {
    if s.currentQuestion < n - 1 then
      s.(currentQuestion := s.currentQuestion + 1, selectedAnswer := None, timeLeft := QuestionTime)
    else
      s.(isQuizComplete := true)
  }

  /** Every record comes from a question of the list, is correct exactly
      when its selection is the correct option, and was taken with the clock
      in range. */
  ghost predicate RecordsFrom(qs: seq<Question>, a: seq<AnswerRecord>)
  {
    (forall i :: 0 <= i < |a| ==>
       Question(a[i].questionId, a[i].correct) in qs &&
       a[i].isCorrect == (a[i].selected == a[i].correct)) &&
    TimesInRange(a)
  }

  /** The session invariant over the questions `qs`. The question index
      stays on the list and the clock on [0, 30]; the records come from the
      list; there is at most one record per question reached, none yet for
      the current one while nothing is selected; and the score, the streak,
      the longest streak and the multiplier are the figures of the record
      list. */
  ghost predicate Consistent(qs: seq<Question>, s: Snapshot)
  {
    |qs| > 0 &&
    0 <= s.currentQuestion < |qs| &&
    0 <= s.timeLeft <= QuestionTime &&
    RecordsFrom(qs, s.userAnswers) &&
    |s.userAnswers| + (if s.selectedAnswer.None? then 1 else 0) <= s.currentQuestion + 1 &&
    s.streak == TrailingCorrect(s.userAnswers) &&
    s.maxStreak == LongestStreak(s.userAnswers) &&
    s.multiplier == Multiplier(s.streak) &&
    s.score == TotalScore(s.userAnswers)
  }

  /** An accepted selection of `idx` takes a consistent state `s` with
      nothing selected to a consistent state `t`. */
  lemma AcceptKeepsConsistent(qs: seq<Question>, s: Snapshot, t: Snapshot, idx: int)
    requires Consistent(qs, s) && s.selectedAnswer.None?
    requires
      var q := qs[s.currentQuestion];
      var ok := idx == q.correctAnswer;
      && t.currentQuestion == s.currentQuestion && t.timeLeft == s.timeLeft
      && t.selectedAnswer == Some(idx)
      && t.userAnswers == s.userAnswers + [AnswerRecord(q.id, idx, q.correctAnswer, ok, s.timeLeft)]
      && t.streak == (if ok then s.streak + 1 else 0)
      && t.maxStreak == (if ok then Max(s.maxStreak, s.streak + 1) else s.maxStreak)
      && t.multiplier == (if ok then Multiplier(s.streak + 1) else 1)
      && t.score == s.score + (if ok then Points(s.timeLeft, Multiplier(s.streak + 1)) else 0)
    ensures Consistent(qs, t)
  {
    var q := qs[s.currentQuestion];
    var a := s.userAnswers;
    var r := AnswerRecord(q.id, idx, q.correctAnswer, idx == q.correctAnswer, s.timeLeft);
    assert t.userAnswers == a + [r];
    RecordsFromAppend(qs, a, r);
    AppendRecord(a, r);
    assert t.streak == TrailingCorrect(a + [r]);
    assert t.maxStreak == LongestStreak(a + [r]);
    assert t.score == TotalScore(a + [r]);
  }

  /** Appending a record taken from a question of the list, with the clock
      in range, keeps the records of a list coming from it. */
  lemma RecordsFromAppend(qs: seq<Question>, a: seq<AnswerRecord>, r: AnswerRecord)
    requires RecordsFrom(qs, a)
    requires Question(r.questionId, r.correct) in qs
    requires r.isCorrect == (r.selected == r.correct)
    requires 0 <= r.timeRemaining <= QuestionTime
    ensures RecordsFrom(qs, a + [r])
  {
    var b := a + [r];
    forall i | 0 <= i < |b|
      ensures Question(b[i].questionId, b[i].correct) in qs
      ensures b[i].isCorrect == (b[i].selected == b[i].correct)
      ensures 0 <= b[i].timeRemaining <= QuestionTime
    {
      if i < |a| { assert b[i] == a[i]; }
    }
  }

  class Session {
    /** The quiz's questions, fixed for the life of the session. */
    const questions: seq<Question>

    var currentQuestion: int
    var selectedAnswer: Option<int>
    var score: int
    var timeLeft: int
    var isQuizComplete: bool
    var showResults: bool
    var userAnswers: seq<AnswerRecord>
    var streak: int
    var maxStreak: int
    var multiplier: int

    function View(): Snapshot
      reads this
    {
      Snapshot(currentQuestion, selectedAnswer, score, timeLeft, isQuizComplete,
               showResults, userAnswers, streak, maxStreak, multiplier)
    }

    /** The session invariant: see `Consistent`. */
    ghost predicate Valid()
      reads this
    {
      Consistent(questions, View())
    }

    /** A session over a non-empty question list, in its initial state. */
    constructor (qs: seq<Question>)
      requires |qs| > 0
      ensures questions == qs
      ensures View() == Start
      ensures Valid()
    {
      questions := qs;
      currentQuestion := 0;
      selectedAnswer := None;
      score := 0;
      timeLeft := QuestionTime;
      isQuizComplete := false;
      showResults := false;
      userAnswers := [];
      streak := 0;
      maxStreak := 0;
      multiplier := 1;
    }

    /** A click on option `answerIndex`. Ignored once an option is selected;
        otherwise records the answer and scores it. */
    method SelectAnswer(answerIndex: int)
      requires Valid()
      modifies this
      ensures Valid()
      ensures old(selectedAnswer).Some? ==> View() == old(View())
      ensures currentQuestion == old(currentQuestion) && timeLeft == old(timeLeft)
      ensures isQuizComplete == old(isQuizComplete) && showResults == old(showResults)
      ensures old(selectedAnswer).None? ==> selectedAnswer == Some(answerIndex)
      ensures old(selectedAnswer).None? ==>
        var q := questions[old(currentQuestion)];
        userAnswers == old(userAnswers) +
          [AnswerRecord(q.id, answerIndex, q.correctAnswer, answerIndex == q.correctAnswer, old(timeLeft))]
      ensures old(selectedAnswer).None? && answerIndex == questions[old(currentQuestion)].correctAnswer ==>
        && streak == old(streak) + 1
        && maxStreak == Max(old(maxStreak), old(streak) + 1)
        && multiplier == Multiplier(old(streak) + 1)
        && score == old(score) + Points(old(timeLeft), Multiplier(old(streak) + 1))
      ensures old(selectedAnswer).None? && answerIndex != questions[old(currentQuestion)].correctAnswer ==>
        streak == 0 && maxStreak == old(maxStreak) && multiplier == 1 && score == old(score)
      ensures old(score) <= score
      ensures 1 <= multiplier <= MaxMultiplier
      ensures |userAnswers| <= |questions|
    {
      if selectedAnswer.None? {
        var q := questions[currentQuestion];
        var isCorrect := answerIndex == q.correctAnswer;
        var newAnswer := AnswerRecord(q.id, answerIndex, q.correctAnswer, isCorrect, timeLeft);
        var newStreak, newMaxStreak, newMultiplier, newScore;
        if isCorrect {
          newStreak := streak + 1;
          newMaxStreak := Max(maxStreak, newStreak);
          newMultiplier := Multiplier(newStreak);
          newScore := score + Points(timeLeft, newMultiplier);
        } else {
          newStreak, newMaxStreak, newMultiplier, newScore := 0, maxStreak, 1, score;
        }
        selectedAnswer, userAnswers := Some(answerIndex), userAnswers + [newAnswer];
        streak, maxStreak, multiplier, score := newStreak, newMaxStreak, newMultiplier, newScore;
        AcceptKeepsConsistent(questions, old(View()), View(), answerIndex);
      }
    }

    /** Advance: to the next question, or mark the quiz complete on the
        last one. */
    method NextQuestion()
      requires Valid()
      modifies this
      ensures Valid()
      ensures View() == AfterAdvance(old(View()), |questions|)
      ensures old(currentQuestion) <= currentQuestion
    {
      if currentQuestion < |questions| - 1 {
        currentQuestion := currentQuestion + 1;
        selectedAnswer := None;
        timeLeft := QuestionTime;
      } else {
        isQuizComplete := true;
      }
    }

    /** One firing of the timer effect: while the clock runs and the quiz is
        neither complete nor showing results, take one second off (whether
        or not an option is selected); at zero on an incomplete quiz,
        advance, with no record and no change to the score, the streak or
        the multiplier; otherwise nothing. */
    method Tick()
      requires Valid()
      modifies this
      ensures Valid()
      ensures old(timeLeft) > 0 && !old(isQuizComplete) && !old(showResults) ==>
        View() == old(View()).(timeLeft := old(timeLeft) - 1)
      ensures !(old(timeLeft) > 0 && !old(isQuizComplete) && !old(showResults)) &&
              old(timeLeft) == 0 && !old(isQuizComplete) ==>
        View() == AfterAdvance(old(View()), |questions|)
      ensures !(old(timeLeft) > 0 && !old(isQuizComplete) && !old(showResults)) &&
              !(old(timeLeft) == 0 && !old(isQuizComplete)) ==>
        View() == old(View())
      ensures 0 <= timeLeft
      ensures userAnswers == old(userAnswers) && score == old(score)
      ensures streak == old(streak) && multiplier == old(multiplier)
    {
      if timeLeft > 0 && !isQuizComplete && !showResults {
        timeLeft := timeLeft - 1;
      } else if timeLeft == 0 && !isQuizComplete {
        NextQuestion();
      }
    }

    /** Back to the initial state, from any state. */
    method Restart()
      requires |questions| > 0
      modifies this
      ensures View() == Start
      ensures Valid()
    {
      currentQuestion := 0;
      selectedAnswer := None;
      score := 0;
      timeLeft := QuestionTime;
      isQuizComplete := false;
      userAnswers := [];
      streak := 0;
      maxStreak := 0;
      multiplier := 1;
      showResults := false;
    }

    /** The delayed switch to the results screen that completing the quiz
        schedules. */
    method RevealResults()
      requires Valid()
      modifies this
      ensures Valid()
      ensures View() == old(View()).(showResults := true)
    {
      showResults := true;
    }
  }
}
