/** Pure scoring rules of the quiz: the streak multiplier, the time bonus,
    the points of one correct answer, the figures derived from the list of
    answer records (correct count, score, streaks) and the final grade and
    displayed percentage. */
module QuizScoring {

  /** Seconds on the clock at the start of every question. */
  const QuestionTime: int := 30
  /** Points of a correct answer before the time bonus. */
  const BasePoints: int := 100
  /** Consecutive correct answers needed for each multiplier level. */
  const StreakPerLevel: nat := 3
  /** Cap of the streak multiplier. */
  const MaxMultiplier: nat := 5
  /** Seconds left per point of time bonus. */
  const SecondsPerBonusPoint: int := 5

  /** A question as the session sees it: its identifier and the index of
      its correct option. */
  datatype Question = Question(id: int, correctAnswer: int)

  /** The record appended for every accepted selection. */
  datatype AnswerRecord = AnswerRecord(
    questionId: int,
    selected: int,
    correct: int,
    isCorrect: bool,
    timeRemaining: int)

  /** The letter grades of the results screen. */
  datatype Grade = APlus | A | B | C | D

  function Max(x: int, y: int): int { if x >= y then x else y }

  /** The multiplier earned by a streak of the given length: one level per
      three consecutive correct answers, capped at five. */
  function Multiplier(streak: nat): (m: nat)
    ensures 1 <= m <= MaxMultiplier
    ensures m == MaxMultiplier <==> streak >= 12
    ensures m < MaxMultiplier ==> 3 * (m - 1) <= streak < 3 * m
  {
    if streak / StreakPerLevel + 1 < MaxMultiplier then streak / StreakPerLevel + 1 else MaxMultiplier
  }

  /** A longer streak never earns a smaller multiplier. */
  lemma MultiplierMonotone(s: nat, t: nat)
    requires s <= t
    ensures Multiplier(s) <= Multiplier(t)
  {
  }

  /** The time bonus: one point per full five seconds left (floor division,
      which for a positive divisor agrees with JavaScript's Math.floor). */
  function TimeBonus(timeLeft: int): (b: int)
    ensures SecondsPerBonusPoint * b <= timeLeft < SecondsPerBonusPoint * b + SecondsPerBonusPoint
    ensures 0 <= timeLeft <= QuestionTime ==> 0 <= b <= 6
  {
    timeLeft / SecondsPerBonusPoint
  }

  /** Points of a correct answer given with `timeLeft` seconds left under
      multiplier `m`. */
  function Points(timeLeft: int, m: nat): (p: int)
    ensures 0 <= timeLeft ==> BasePoints * m <= p
    ensures timeLeft <= QuestionTime && m <= MaxMultiplier ==> p <= 530
    ensures 0 <= timeLeft <= QuestionTime && m == 1 ==> p == BasePoints + TimeBonus(timeLeft)
  {
    (BasePoints + TimeBonus(timeLeft)) * m
  }

  /** The records that were correct, in their original order (the
      `filter(answer => answer.isCorrect)` of the results screen). */
  function CorrectAnswers(a: seq<AnswerRecord>): (r: seq<AnswerRecord>)
    ensures |r| <= |a|
    ensures forall i :: 0 <= i < |r| ==> r[i].isCorrect && r[i] in a
    ensures forall i :: 0 <= i < |a| && a[i].isCorrect ==> a[i] in r
  {
    if a == [] then []
    else
      var rest := CorrectAnswers(a[..|a| - 1]);
      var last := a[|a| - 1];
      assert forall i :: 0 <= i < |a| - 1 ==> a[i] == a[..|a| - 1][i];
      if last.isCorrect then rest + [last] else rest
  }

  /** Filtering one more record extends the filtered list by that record
      when it is correct and leaves it as it was otherwise: the filtered
      list keeps the records in their original order. */
  lemma CorrectAnswersAppend(p: seq<AnswerRecord>, x: AnswerRecord)
    ensures CorrectAnswers(p + [x]) == CorrectAnswers(p) + (if x.isCorrect then [x] else [])
  {
    assert (p + [x])[..|p|] == p;
  }

  /** Each correct record occurs in the filtered list exactly as often as in
      the answer list, and no wrong record occurs in it. */
  lemma {:induction false} CorrectAnswersMultiset(a: seq<AnswerRecord>)
    ensures forall x :: multiset(CorrectAnswers(a))[x] == if x.isCorrect then multiset(a)[x] else 0
  {
    if a != [] {
      var p := a[..|a| - 1];
      var last := a[|a| - 1];
      CorrectAnswersMultiset(p);
      assert a == p + [last];
      assert multiset(a) == multiset(p) + multiset{last};
    }
  }

  /** The positions of the correct records. */
  ghost function CorrectPositions(a: seq<AnswerRecord>): set<int>
  {
    set i | 0 <= i < |a| && a[i].isCorrect
  }

  /** Number of correct records: the number of positions holding a correct
      record, at most the number of records. */
  function CorrectCount(a: seq<AnswerRecord>): (c: nat)
    ensures c <= |a|
  {
    |CorrectAnswers(a)|
  }

  /** One more record adds its own position to the correct positions when
      it is correct, and nothing otherwise. */
  lemma PositionsAppend(p: seq<AnswerRecord>, x: AnswerRecord)
    ensures CorrectPositions(p + [x]) == CorrectPositions(p) + (if x.isCorrect then {|p|} else {})
  {
    var a := p + [x];
    forall i | 0 <= i < |p|
      ensures a[i] == p[i]
    {
    }
  }

  /** The correct count is the number of positions holding a correct record. */
  lemma {:induction false} CorrectCountIsPositions(a: seq<AnswerRecord>)
    ensures CorrectCount(a) == |CorrectPositions(a)|
  {
    if a != [] {
      var p := a[..|a| - 1];
      var x := a[|a| - 1];
      CorrectCountIsPositions(p);
      assert a == p + [x];
      CorrectAnswersAppend(p, x);
      PositionsAppend(p, x);
      assert |p| !in CorrectPositions(p);
    }
  }

  /** Number of correct records at the end of the list, uninterrupted by a
      wrong one: the current streak. */
  function TrailingCorrect(a: seq<AnswerRecord>): (t: nat)
    ensures t <= |a|
  {
    if a == [] || !a[|a| - 1].isCorrect then 0
    else TrailingCorrect(a[..|a| - 1]) + 1
  }

  /** The streak is the length of the longest all-correct suffix: the last
      `TrailingCorrect(a)` records are correct and the one before them, if
      any, is not. */
  lemma {:induction false} TrailingCorrectIsCorrectSuffix(a: seq<AnswerRecord>)
    ensures forall i :: |a| - TrailingCorrect(a) <= i < |a| ==> a[i].isCorrect
    ensures TrailingCorrect(a) < |a| ==> !a[|a| - 1 - TrailingCorrect(a)].isCorrect
  {
    if a != [] && a[|a| - 1].isCorrect {
      var p := a[..|a| - 1];
      TrailingCorrectIsCorrectSuffix(p);
      assert forall i :: 0 <= i < |p| ==> p[i] == a[i];
    }
  }

  /** The longest run of consecutive correct records seen so far. */
  function LongestStreak(a: seq<AnswerRecord>): (m: nat)
    ensures TrailingCorrect(a) <= m <= |a|
  {
    if a == [] then 0
    else Max(LongestStreak(a[..|a| - 1]), TrailingCorrect(a))
  }

  /** The longest streak is the longest run of correct records ending at
      some point of the list: no prefix ends in a longer run, and some
      prefix ends in a run exactly that long. */
  lemma {:induction false} LongestStreakIsLongestRun(a: seq<AnswerRecord>)
    ensures forall j :: 0 <= j <= |a| ==> TrailingCorrect(a[..j]) <= LongestStreak(a)
    ensures exists j :: 0 <= j <= |a| && TrailingCorrect(a[..j]) == LongestStreak(a)
  {
    assert a[..|a|] == a;
    if a != [] {
      var p := a[..|a| - 1];
      LongestStreakIsLongestRun(p);
      forall j | 0 <= j <= |p| ensures a[..j] == p[..j] {}
    }
  }

  /** Points earned by the last of the records, given the records before it. */
  function RecordPoints(before: seq<AnswerRecord>, r: AnswerRecord): int
  {
    if r.isCorrect then Points(r.timeRemaining, Multiplier(TrailingCorrect(before) + 1)) else 0
  }

  /** Score accumulated over a list of records: every correct record earns
      its points under the multiplier of the streak it extends; a wrong one
      earns nothing. */
  function TotalScore(a: seq<AnswerRecord>): int
  {
    if a == [] then 0
    else TotalScore(a[..|a| - 1]) + RecordPoints(a[..|a| - 1], a[|a| - 1])
  }

  /** Records whose time lies on the clock's range. */
  ghost predicate TimesInRange(a: seq<AnswerRecord>)
  {
    forall i :: 0 <= i < |a| ==> 0 <= a[i].timeRemaining <= QuestionTime
  }

  /** How each figure changes when one record is appended: the effect of
      one accepted selection on the figures of the answer list. */
  lemma AppendRecord(a: seq<AnswerRecord>, r: AnswerRecord)
    ensures CorrectCount(a + [r]) == CorrectCount(a) + (if r.isCorrect then 1 else 0)
    ensures TrailingCorrect(a + [r]) == if r.isCorrect then TrailingCorrect(a) + 1 else 0
    ensures LongestStreak(a + [r]) == Max(LongestStreak(a), TrailingCorrect(a + [r]))
    ensures TotalScore(a + [r]) == TotalScore(a) + RecordPoints(a, r)
  {
    assert (a + [r])[..|a|] == a;
  }

  /** The current streak never exceeds the longest one, which never exceeds
      the number of correct records. */
  lemma {:induction false} StreakBounds(a: seq<AnswerRecord>)
    ensures TrailingCorrect(a) <= LongestStreak(a) <= CorrectCount(a) <= |a|
  {
    if a != [] {
      var p := a[..|a| - 1];
      StreakBounds(p);
      assert a == p + [a[|a| - 1]];
      AppendRecord(p, a[|a| - 1]);
    }
  }

  /** Every correct answer is worth between 100 and 530 points and a wrong
      one nothing, so the score lies between 100 and 530 times the number of
      correct answers; in particular it is never negative. */
  lemma {:induction false} ScoreBounds(a: seq<AnswerRecord>)
    requires TimesInRange(a)
    ensures BasePoints * CorrectCount(a) <= TotalScore(a) <= 530 * CorrectCount(a)
  {
    if a != [] {
      var p := a[..|a| - 1];
      var r := a[|a| - 1];
      assert TimesInRange(p) by {
        forall i | 0 <= i < |p| ensures 0 <= p[i].timeRemaining <= QuestionTime {
          assert p[i] == a[i];
        }
      }
      ScoreBounds(p);
      assert a == p + [r];
      AppendRecord(p, r);
    }
  }

  /** The score of a list of records is the score of any prefix plus what
      the later records add: the score can only grow as records are
      appended. */
  lemma {:induction false} ScorePrefixMonotone(a: seq<AnswerRecord>, k: nat)
    requires k <= |a|
    requires TimesInRange(a)
    ensures TotalScore(a[..k]) <= TotalScore(a)
  {
    if k == |a| {
      assert a[..k] == a;
    } else {
      var p := a[..|a| - 1];
      var r := a[|a| - 1];
      assert TimesInRange(p) by {
        forall i | 0 <= i < |p| ensures 0 <= p[i].timeRemaining <= QuestionTime {
          assert p[i] == a[i];
        }
      }
      assert 0 <= r.timeRemaining;
      ScorePrefixMonotone(p, k);
      assert p[..k] == a[..k];
      assert a == p + [r];
      AppendRecord(p, r);
    }
  }

  /** The grade for `c` correct answers out of `n` questions, with the
      thresholds of 90, 80, 70 and 60 percent compared without division. */
  function GradeFor(c: nat, n: nat): (g: Grade)
    requires n > 0
    ensures g == GradeOfTenths((10 * c) / n)
  {
    TenthsThreshold(c, n, 9);
    TenthsThreshold(c, n, 8);
    TenthsThreshold(c, n, 7);
    TenthsThreshold(c, n, 6);
    if 100 * c >= 90 * n then APlus
    else if 100 * c >= 80 * n then A
    else if 100 * c >= 70 * n then B
    else if 100 * c >= 60 * n then C
    else D
  }

  /** The grade shown on the results screen for a list of answer records
      over `n` questions. */
  function ScoreGrade(answers: seq<AnswerRecord>, n: nat): (g: Grade)
    requires n > 0
    ensures g == GradeOfTenths((10 * CorrectCount(answers)) / n)
    ensures g == APlus <==> 10 * CorrectCount(answers) >= 9 * n
  {
    TenthsThreshold(CorrectCount(answers), n, 9);
    GradeFor(CorrectCount(answers), n)
  }

  /** Position of a grade in the order D < C < B < A < A+. */
  function Rank(g: Grade): (k: nat)
    ensures k <= 4
  {
    match g
    case APlus => 4
    case A => 3
    case B => 2
    case C => 1
    case D => 0
  }

  /** The grade, read off the percentage thresholds one by one. */
  lemma GradeThresholds(c: nat, n: nat)
    requires n > 0
    ensures GradeFor(c, n) == APlus <==> 100 * c >= 90 * n
    ensures GradeFor(c, n) == A <==> 80 * n <= 100 * c < 90 * n
    ensures GradeFor(c, n) == B <==> 70 * n <= 100 * c < 80 * n
    ensures GradeFor(c, n) == C <==> 60 * n <= 100 * c < 70 * n
    ensures GradeFor(c, n) == D <==> 100 * c < 60 * n
  {
  }

  /** More correct answers never give a lower grade. */
  lemma GradeMonotone(c1: nat, c2: nat, n: nat)
    requires n > 0 && c1 <= c2
    ensures Rank(GradeFor(c1, n)) <= Rank(GradeFor(c2, n))
  {
  }

  /** An independent reading of the grade: by the tenths of the questions
      answered correctly (9 or more tenths is A+, 8 is A, 7 is B, 6 is C,
      fewer is D). */
  function GradeOfTenths(tenths: nat): Grade
  {
    if tenths >= 9 then APlus
    else if tenths == 8 then A
    else if tenths == 7 then B
    else if tenths == 6 then C
    else D
  }

  /** Whole tenths of the questions reach `k` exactly when 10c reaches kn. */
  lemma TenthsThreshold(c: nat, n: nat, k: nat)
    requires n > 0
    ensures 10 * c >= k * n <==> (10 * c) / n >= k
  {
    var t := (10 * c) / n;
    assert n * t <= 10 * c < n * t + n;
    if t >= k {
      MulMonotone(n, k, t);
    } else {
      MulMonotone(n, t + 1, k);
    }
  }

  lemma MulMonotone(n: nat, x: int, y: int)
    requires x <= y
    ensures n * x <= n * y
  {
    assert n * y - n * x == n * (y - x);
  }

  /** The percentage of the results screen: 100 * c / n rounded to the
      nearest integer, halves upwards (JavaScript's Math.round). */
  function Percentage(c: nat, n: nat): (r: int)
    requires n > 0
    ensures 2 * n * r - n <= 200 * c < 2 * n * r + n
    ensures 0 <= r
    ensures c <= n ==> r <= 100
  {
    var d := 2 * n;
    var r := (200 * c + n) / d;
    assert d * r <= 200 * c + n < d * r + d;
    assert c <= n ==> r <= 100 by {
      if c <= n && r > 100 {
        MulMonotone(d, 101, r);
      }
    }
    r
  }

  /** The percentage shown beside the grade, for a list of records. */
  function ResultsPercentage(answers: seq<AnswerRecord>, n: nat): (r: int)
    requires n > 0
    ensures |answers| <= n ==> 0 <= r <= 100
    ensures 2 * n * r - n <= 200 * CorrectCount(answers) < 2 * n * r + n
  {
    Percentage(CorrectCount(answers), n)
  }

  /** Every record correct: as many correct answers as records. */
  lemma {:induction false} AllCorrectCount(a: seq<AnswerRecord>)
    requires forall i :: 0 <= i < |a| ==> a[i].isCorrect
    ensures CorrectCount(a) == |a|
  {
    if a != [] {
      var p := a[..|a| - 1];
      assert forall i :: 0 <= i < |p| ==> p[i] == a[i];
      AllCorrectCount(p);
      assert a == p + [a[|a| - 1]];
      AppendRecord(p, a[|a| - 1]);
    }
  }

  /** A quiz with one correct record per question is graded A+ and shown
      at 100 percent. */
  lemma AllCorrectResults(a: seq<AnswerRecord>)
    requires |a| > 0
    requires forall i :: 0 <= i < |a| ==> a[i].isCorrect
    ensures ScoreGrade(a, |a|) == APlus && ResultsPercentage(a, |a|) == 100
  {
    AllCorrectCount(a);
    var n := |a|;
    var r := Percentage(n, n);
    assert n * (199 - 2 * r) < 0;
    ProductSign(n, 199 - 2 * r);
  }

  /** Meeting a grade's threshold means the displayed percentage is at
      least that threshold. */
  lemma {:induction false} GradeImpliesDisplayedPercentage(c: nat, n: nat)
    requires n > 0
    ensures Rank(GradeFor(c, n)) >= 4 ==> Percentage(c, n) >= 90
    ensures Rank(GradeFor(c, n)) >= 3 ==> Percentage(c, n) >= 80
    ensures Rank(GradeFor(c, n)) >= 2 ==> Percentage(c, n) >= 70
    ensures Rank(GradeFor(c, n)) >= 1 ==> Percentage(c, n) >= 60
  {
    var r := Percentage(c, n);
    forall k: int | 60 <= k <= 90 && 100 * c >= k * n
      ensures r >= k
    {
      assert n * (2 * k - 2 * r - 1) < 0;
      ProductSign(n, 2 * k - 2 * r - 1);
    }
  }

  lemma ProductSign(n: nat, x: int)
    requires n > 0 && n * x < 0
    ensures x < 0
  {
  }

  /** The converse fails: the grade compares the unrounded percentage, so
      26 of 29 (89.66 percent) is displayed as 90 percent but graded A. */
  lemma DisplayedPercentageDoesNotImplyGrade()
    ensures Percentage(26, 29) == 90 && GradeFor(26, 29) == A
  {
  }
}
