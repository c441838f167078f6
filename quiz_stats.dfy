/** The quiz-statistics ledger of the student dashboard: how one user's
    points, quiz count, running quiz average and per-subject mastery scores
    change each time the user answers a quiz question (app.py,
    update_quiz_stats). The user record is a class whose fields the update
    changes in place; the functions below are its specification. */
module QuizStats {
  import opened Wrappers

  /** Points awarded for a correct answer. */
  const Reward := 10
  /** Change of a subject's score on a correct and on an incorrect answer. */
  const SubjectGain := 10
  const SubjectLoss := 5
  /** The score a correct answer contributes to the average, and the cap of
      every subject score. */
  const MaxScore := 100
  /** Subject charged when the request does not name one. */
  const DefaultSubject := "General"

  /** The stored per-subject score text as the update sees it: a JSON object
      of integer scores, or text whose parse or update raises. */
  datatype ScoreBlob = Parsed(scores: map<string, int>) | Corrupt

  /** The subject scores a new account starts with. */
  function DefaultScores(): map<string, int> {
    map["Math" := 0, "Science" := 0, "English" := 0, "History" := 0, "AI" := 0]
  }

  /** The score one answer contributes to the running total. */
  function AnswerScore(isCorrect: bool): int {
    if isCorrect then MaxScore else 0
  }

  /** Python's `int(a / b)`: the quotient truncated toward zero. */
  function TruncDiv(a: int, b: int): (q: int)
    requires b > 0
    ensures 0 <= a ==> 0 <= q && q * b <= a < q * b + b
    ensures a < 0 ==> q <= 0 && q * b - b < a <= q * b
  {
    if a >= 0 then a / b else -((-a) / b)
  }

  /** The average stored after one more answer: a running total is rebuilt
      from the stored (already truncated) average and count, the answer's
      score is added, and the sum is divided by the new count. The result is
      the truncated mean of that reconstructed total. */
  function NextAverage(average: int, count: nat, isCorrect: bool): (r: int)
    ensures var total := average * count + AnswerScore(isCorrect);
            0 <= total ==> r * (count + 1) <= total < (r + 1) * (count + 1)
  {
    TruncDiv(average * count + AnswerScore(isCorrect), count + 1)
  }

  /** Multiplying both sides of `x <= y` by a natural number keeps the order. */
  lemma {:induction false} MulMono(x: int, y: int, n: nat)
    requires x <= y
    ensures x * n <= y * n
    decreases n
  {
    if n > 0 {
      MulMono(x, y, n - 1);
      assert x * n == x * (n - 1) + x;
      assert y * n == y * (n - 1) + y;
    }
  }

  /** A truncated quotient `r` of `total` by `n` is at least any `lo` with
      `lo * n <= total`. */
  lemma QuotientAtLeast(total: int, n: nat, r: int, lo: int)
    requires n > 0
    requires total < (r + 1) * n
    requires lo * n <= total
    ensures lo <= r
  {
    if r < lo {
      MulMono(r + 1, lo, n);
    }
  }

  /** A truncated quotient `r` of `total` by `n` is at most any `hi` with
      `total <= hi * n`. */
  lemma QuotientAtMost(total: int, n: nat, r: int, hi: int)
    requires n > 0
    requires r * n <= total
    requires total <= hi * n
    ensures r <= hi
  {
    if r > hi {
      MulMono(hi + 1, r, n);
    }
  }

  /** An average in [0, 100] stays there; a correct answer never lowers it
      and an incorrect one never raises it. */
  lemma AverageStep(average: int, count: nat, isCorrect: bool)
    requires 0 <= average <= MaxScore
    ensures 0 <= NextAverage(average, count, isCorrect) <= MaxScore
    ensures isCorrect ==> NextAverage(average, count, isCorrect) >= average
    ensures !isCorrect ==> NextAverage(average, count, isCorrect) <= average
  {
    var n := count + 1;
    var total := average * count + AnswerScore(isCorrect);
    var r := NextAverage(average, count, isCorrect);
    MulMono(0, average, count);
    MulMono(average, MaxScore, count);
    assert average * n == average * count + average;
    assert MaxScore * n == MaxScore * count + MaxScore;
    if isCorrect {
      QuotientAtLeast(total, n, r, average);
      QuotientAtMost(total, n, r, MaxScore);
    } else {
      QuotientAtLeast(total, n, r, 0);
      QuotientAtMost(total, n, r, average);
    }
  }

  /** The new score of a subject after one answer: +10 capped at 100 when
      correct, -5 floored at 0 when incorrect. */
  function AdjustScore(score: int, isCorrect: bool): (r: int)
    ensures isCorrect ==> r <= MaxScore && (r == score + SubjectGain || r == MaxScore)
    ensures isCorrect && score + SubjectGain <= MaxScore ==> r == score + SubjectGain
    ensures !isCorrect ==> 0 <= r && (r == score - SubjectLoss || r == 0)
    ensures !isCorrect && score - SubjectLoss >= 0 ==> r == score - SubjectLoss
    ensures 0 <= score <= MaxScore ==> 0 <= r <= MaxScore
  {
    if isCorrect then
      (if MaxScore <= score + SubjectGain then MaxScore else score + SubjectGain)
    else
      (if 0 >= score - SubjectLoss then 0 else score - SubjectLoss)
  }

  /** Every subject score lies in [0, 100]. */
  ghost predicate InRange(scores: map<string, int>) {
    forall s :: s in scores ==> 0 <= scores[s] <= MaxScore
  }

  /** The subject map after one answer about `subject`: the subject is added
      at 0 if it is missing, its score is adjusted, and no other entry
      changes. */
  function UpdateScores(scores: map<string, int>, subject: string, isCorrect: bool): (r: map<string, int>)
    ensures r.Keys == scores.Keys + {subject}
    ensures subject in scores ==> r[subject] == AdjustScore(scores[subject], isCorrect)
    ensures subject !in scores ==> r[subject] == (if isCorrect then SubjectGain else 0)
    ensures forall s :: s in scores && s != subject ==> r[s] == scores[s]
    ensures InRange(scores) ==> InRange(r)
  {
    var base := if subject in scores then scores else scores[subject := 0];
    base[subject := AdjustScore(base[subject], isCorrect)]
  }

  /** The subject map after a history of answers, oldest first. */
  function ScoresAfter(scores: map<string, int>, history: seq<(string, bool)>): map<string, int>
    decreases |history|
  {
    if history == [] then scores
    else ScoresAfter(UpdateScores(scores, history[0].0, history[0].1), history[1..])
  }

  /** Clamping holds under any sequence of answers: scores that start in
      [0, 100] never leave it. */
  lemma {:induction false} HistoryKeepsRange(scores: map<string, int>, history: seq<(string, bool)>)
    requires InRange(scores)
    ensures InRange(ScoresAfter(scores, history))
    decreases |history|
  {
    if history != [] {
      HistoryKeepsRange(UpdateScores(scores, history[0].0, history[0].1), history[1..]);
    }
  }

  /** A subject nobody answered about keeps its score through any history. */
  lemma {:induction false} UntouchedSubjectKept(scores: map<string, int>, history: seq<(string, bool)>, s: string)
    requires s in scores
    requires forall i :: 0 <= i < |history| ==> history[i].0 != s
    ensures s in ScoresAfter(scores, history) && ScoresAfter(scores, history)[s] == scores[s]
    decreases |history|
  {
    if history != [] {
      var next := UpdateScores(scores, history[0].0, history[0].1);
      assert history[0].0 != s;
      forall i | 0 <= i < |history[1..]| ensures history[1..][i].0 != s {
        assert history[1..][i] == history[i + 1];
      }
      UntouchedSubjectKept(next, history[1..], s);
    }
  }

  /** The numeric part of a user record: points, quiz count and average. */
  datatype Tally = Tally(points: int, quizCount: nat, quizAverage: int)

  /** The numbers of a new account. */
  const Fresh := Tally(0, 0, 0)

  /** The numbers after one answer. */
  function Step(t: Tally, isCorrect: bool): Tally {
    Tally(t.points + (if isCorrect then Reward else 0),
          t.quizCount + 1,
          NextAverage(t.quizAverage, t.quizCount, isCorrect))
  }

  /** The numbers of a new account after a history of answers, oldest first. */
  function Replay(answers: seq<bool>): Tally
    decreases |answers|
  {
    if answers == [] then Fresh
    else Step(Replay(answers[..|answers| - 1]), answers[|answers| - 1])
  }

  /** How many answers of a history are correct. */
  function CorrectCount(answers: seq<bool>): nat
    decreases |answers|
  {
    if answers == [] then 0
    else CorrectCount(answers[..|answers| - 1]) + (if answers[|answers| - 1] then 1 else 0)
  }

  /** After any history from a new account: the count is the number of
      answers, the points are 10 per correct answer, the average lies in
      [0, 100], and the stored average times the count never exceeds the true
      total (100 per correct answer): truncation only ever loses ground. */
  lemma {:induction false} ReplayTally(answers: seq<bool>)
    ensures Replay(answers).quizCount == |answers|
    ensures Replay(answers).points == Reward * CorrectCount(answers)
    ensures 0 <= Replay(answers).quizAverage <= MaxScore
    ensures Replay(answers).quizAverage * |answers| <= MaxScore * CorrectCount(answers)
    decreases |answers|
  {
    if answers != [] {
      var prefix := answers[..|answers| - 1];
      var last := answers[|answers| - 1];
      ReplayTally(prefix);
      var t := Replay(prefix);
      AverageStep(t.quizAverage, t.quizCount, last);
      var n := |answers|;
      var r := NextAverage(t.quizAverage, t.quizCount, last);
      assert r * n <= t.quizAverage * (n - 1) + AnswerScore(last);
    }
  }

  /** The stored average never exceeds the truncated true mean. */
  lemma AverageLagsTrueMean(answers: seq<bool>)
    requires answers != []
    ensures Replay(answers).quizAverage <= MaxScore * CorrectCount(answers) / |answers|
  {
    ReplayTally(answers);
    DivAtLeast(MaxScore * CorrectCount(answers), |answers|, Replay(answers).quizAverage);
  }

  /** Any `a` with `a * n <= total` is at most `total / n`. */
  lemma DivAtLeast(total: int, n: nat, a: int)
    requires n > 0
    requires a * n <= total
    ensures a <= total / n
  {
    var q := total / n;
    assert total == q * n + total % n;
    assert (q + 1) * n == q * n + n;
    QuotientAtLeast(total, n, q, a);
  }

  /** A history of correct answers only keeps the average at 100; one of
      incorrect answers only keeps it at 0. */
  lemma {:induction false} UniformHistory(answers: seq<bool>, isCorrect: bool)
    requires answers != []
    requires forall i :: 0 <= i < |answers| ==> answers[i] == isCorrect
    ensures Replay(answers).quizAverage == AnswerScore(isCorrect)
    decreases |answers|
  {
    var prefix := answers[..|answers| - 1];
    if prefix == [] {
      assert Replay(answers) == Step(Fresh, isCorrect);
    } else {
      UniformHistory(prefix, isCorrect);
      ReplayTally(prefix);
      AverageStep(Replay(prefix).quizAverage, Replay(prefix).quizCount, isCorrect);
    }
  }

  /** Correct, incorrect, correct from a new account gives the averages 100,
      50 and 66. */
  lemma ExampleAverages()
    ensures Replay([true]).quizAverage == 100
    ensures Replay([true, false]).quizAverage == 50
    ensures Replay([true, false, true]).quizAverage == 66
  {
    assert [true, false, true][..2] == [true, false];
    assert [true, false][..1] == [true];
    assert [true][..0] == [];
  }

  /** The reconstruction drifts: correct, incorrect, incorrect, correct
      stores 49 although the truncated true mean of the four answers is 50. */
  lemma ExampleDrift()
    ensures Replay([true, false, false, true]).quizAverage == 49
    ensures MaxScore * CorrectCount([true, false, false, true]) / 4 == 50
  {
    assert [true, false, false, true][..3] == [true, false, false];
    assert [true, false, false][..2] == [true, false];
    assert [true, false][..1] == [true];
    assert [true][..0] == [];
  }

  /** One user's stored record, as far as the quiz update reads and writes it. */
  class UserStats {
    var points: int
    var quizCount: nat
    var quizAverage: int
    var subjectScores: ScoreBlob

    /** The ranges the update keeps: non-negative points, an average in
        [0, 100], subject scores in [0, 100]. */
    ghost predicate Valid()
      reads this
    {
      && 0 <= points
      && 0 <= quizAverage <= MaxScore
      && (subjectScores.Parsed? ==> InRange(subjectScores.scores))
    }

    /** The numeric part of the record. */
    function Numbers(): Tally
      reads this
    {
      Tally(points, quizCount, quizAverage)
    }

    /** A new account, with the column defaults of the user table. */
    constructor ()
      ensures Numbers() == Fresh
      ensures subjectScores == Parsed(DefaultScores())
      ensures Valid()
    {
      points := 0;
      quizCount := 0;
      quizAverage := 0;
      subjectScores := Parsed(DefaultScores());
    }

    /** Records one answered question. The subject defaults to "General"
        when the request names none. A stored subject blob that cannot be
        used is left as it is, while the numbers are still updated. */
    method RecordAnswer(isCorrect: bool, requested: Option<string>)
      modifies this
      ensures Numbers() == Step(old(Numbers()), isCorrect)
      ensures old(subjectScores).Corrupt? ==> subjectScores == old(subjectScores)
      ensures old(subjectScores).Parsed? ==>
                subjectScores == Parsed(UpdateScores(old(subjectScores).scores, requested.GetOr(DefaultSubject), isCorrect))
      ensures old(Valid()) ==> Valid()
    {
      ghost var wasValid := Valid();
      ghost var oldAverage, oldCount := quizAverage, quizCount;
      var subject := requested.GetOr(DefaultSubject);
      if isCorrect {
        points := points + Reward;
      }
      var score := if isCorrect then MaxScore else 0;
      var total := quizAverage * quizCount;
      quizCount := quizCount + 1;
      quizAverage := TruncDiv(total + score, quizCount);
      match subjectScores {
        case Corrupt =>
        case Parsed(scores) =>
          if subject !in scores {
            scores := scores[subject := 0];
          }
          var current := scores[subject];
          if isCorrect {
            scores := scores[subject := if MaxScore <= current + SubjectGain then MaxScore else current + SubjectGain];
          } else {
            scores := scores[subject := if 0 >= current - SubjectLoss then 0 else current - SubjectLoss];
          }
          subjectScores := Parsed(scores);
      }
      if wasValid {
        AverageStep(oldAverage, oldCount, isCorrect);
      }
    }
  }

  /** A client of the class: a new account answering correct, incorrect,
      correct sees the averages 100, 50, 66 and earns 20 points. */
  method ExampleSession()
  {
    var u := new UserStats();
    u.RecordAnswer(true, Some("Math"));
    assert u.quizAverage == 100 by {
      assert NextAverage(0, 0, true) == TruncDiv(100, 1);
    }
    u.RecordAnswer(false, Some("Math"));
    assert u.quizAverage == 50 by {
      assert NextAverage(100, 1, false) == TruncDiv(100, 2);
    }
    u.RecordAnswer(true, None);
    assert u.quizAverage == 66 by {
      assert NextAverage(50, 2, true) == TruncDiv(200, 3);
    }
    assert u.points == 20 && u.quizCount == 3;
  }
}
