/** Deadlines, the answer window and the score of an answer. */
module Scoring {
  import opened GoRuntime

  datatype Config = Config(
    validAnswerTimeOut: int,
    baseScore: int,
    maxBonus: int,
    bonusDeadline: int)

  // ------------------------------------------------------------------- score

  /** BaseScore plus a bonus proportional to the time left; exact arithmetic in place of float64. */
  function CalculateScore(cfg: Config, isCorrect: bool, answerTime: int, validAnswerTime: int): int {
    if !isCorrect || answerTime > validAnswerTime then 0 else
      var remaining := Sub(validAnswerTime, answerTime);
      if remaining >= cfg.bonusDeadline then cfg.baseScore + cfg.maxBonus
      else cfg.baseScore + Quo(cfg.maxBonus * remaining, cfg.bonusDeadline)
  }

  /** Nothing negative is awarded, and the bonus deadline is an int64 duration. */
  predicate ScoresSound(cfg: Config) {
    cfg.baseScore >= 0 && cfg.maxBonus >= 0 && cfg.bonusDeadline <= MAX_INT64
  }

  /** The bonus reaches k exactly when the remaining time, scaled by MaxBonus, reaches k bonus deadlines. */
  lemma ScoreThreshold(cfg: Config, answerTime: int, validAnswerTime: int, k: int)
    requires answerTime <= validAnswerTime
    requires 0 <= k <= cfg.maxBonus
    ensures CalculateScore(cfg, true, answerTime, validAnswerTime) >= cfg.baseScore + k <==>
      Sub(validAnswerTime, answerTime) * cfg.maxBonus >= k * cfg.bonusDeadline
  {
    var remaining := Sub(validAnswerTime, answerTime);
    if remaining < cfg.bonusDeadline {
      MulMonotone(0, remaining, cfg.maxBonus);
      assert remaining * cfg.maxBonus == cfg.maxBonus * remaining;
      QuoAtLeast(cfg.maxBonus * remaining, cfg.bonusDeadline, k);
    } else if cfg.bonusDeadline >= 0 {
      MulMonotone(cfg.bonusDeadline, remaining, cfg.maxBonus);
      MulMonotone(k, cfg.maxBonus, cfg.bonusDeadline);
      assert cfg.bonusDeadline * cfg.maxBonus == cfg.maxBonus * cfg.bonusDeadline;
    } else {
      MulMonotone(0, remaining, cfg.maxBonus);
      MulMonotone(0, k, -cfg.bonusDeadline);
      assert k * -cfg.bonusDeadline == -(k * cfg.bonusDeadline);
    }
  }

  /**
   * Scores lie between nothing and BaseScore + MaxBonus; a correct answer on time
   * earns at least BaseScore, any other answer nothing.
   */
  lemma ScoreBounds(cfg: Config, isCorrect: bool, answerTime: int, validAnswerTime: int)
    requires cfg.baseScore >= 0 && cfg.maxBonus >= 0
    ensures 0 <= CalculateScore(cfg, isCorrect, answerTime, validAnswerTime) <= cfg.baseScore + cfg.maxBonus
    ensures isCorrect && answerTime <= validAnswerTime ==>
      CalculateScore(cfg, isCorrect, answerTime, validAnswerTime) >= cfg.baseScore
    ensures !isCorrect || answerTime > validAnswerTime ==>
      CalculateScore(cfg, isCorrect, answerTime, validAnswerTime) == 0
  {
    if isCorrect && answerTime <= validAnswerTime {
      ScoreThreshold(cfg, answerTime, validAnswerTime, 0);
      var remaining := Sub(validAnswerTime, answerTime);
      MulMonotone(0, remaining, cfg.maxBonus);
      assert remaining * cfg.maxBonus == cfg.maxBonus * remaining;
      if remaining < cfg.bonusDeadline {
        MulMonotone(remaining, cfg.bonusDeadline, cfg.maxBonus);
        assert (cfg.maxBonus + 1) * cfg.bonusDeadline == cfg.bonusDeadline * cfg.maxBonus + cfg.bonusDeadline;
        QuoAtLeast(cfg.maxBonus * remaining, cfg.bonusDeadline, cfg.maxBonus + 1);
      }
    }
  }

  /** Answering earlier never scores less. */
  lemma ScoreMonotone(cfg: Config, earlier: int, later: int, validAnswerTime: int)
    requires cfg.baseScore >= 0 && cfg.maxBonus >= 0
    requires earlier <= later
    requires earlier <= validAnswerTime
    ensures CalculateScore(cfg, true, earlier, validAnswerTime) >= CalculateScore(cfg, true, later, validAnswerTime)
  {
    ScoreBounds(cfg, true, earlier, validAnswerTime);
    if later <= validAnswerTime {
      ScoreBounds(cfg, true, later, validAnswerTime);
      var score := CalculateScore(cfg, true, later, validAnswerTime);
      ScoreReached(cfg, earlier, later, validAnswerTime, score - cfg.baseScore);
    }
  }

  lemma ScoreReached(cfg: Config, earlier: int, later: int, validAnswerTime: int, k: int)
    requires earlier <= later <= validAnswerTime && 0 <= k <= cfg.maxBonus
    requires CalculateScore(cfg, true, later, validAnswerTime) >= cfg.baseScore + k
    ensures CalculateScore(cfg, true, earlier, validAnswerTime) >= cfg.baseScore + k
  {
    ScoreThreshold(cfg, later, validAnswerTime, k);
    MulMonotone(Sub(validAnswerTime, later), Sub(validAnswerTime, earlier), cfg.maxBonus);
    ScoreThreshold(cfg, earlier, validAnswerTime, k);
  }

  /**
   * What an answer is worth, on the clock itself: nothing unless it is right and
   * not late; else BaseScore and every point of bonus whose share of the bonus
   * deadline is still left.
   */
  ghost predicate IsScore(cfg: Config, isRight: bool, answerTime: int, deadline: int, points: int) {
    if !isRight || answerTime > deadline then points == 0 else
      && cfg.baseScore <= points <= cfg.baseScore + cfg.maxBonus
      && (forall k :: 0 <= k <= cfg.maxBonus ==>
            (points >= cfg.baseScore + k <==> Left(answerTime, deadline) * cfg.maxBonus >= k * cfg.bonusDeadline))
  }

  function Left(answerTime: int, deadline: int): int { deadline - answerTime }

  lemma ScoreExactly(cfg: Config, isCorrect: bool, answerTime: int, deadline: int)
    requires ScoresSound(cfg)
    ensures IsScore(cfg, isCorrect, answerTime, deadline, CalculateScore(cfg, isCorrect, answerTime, deadline))
  {
    ScoreBounds(cfg, isCorrect, answerTime, deadline);
    if isCorrect && answerTime <= deadline {
      var left, points := Left(answerTime, deadline), CalculateScore(cfg, true, answerTime, deadline);
      forall k | 0 <= k <= cfg.maxBonus
        ensures points >= cfg.baseScore + k <==> left * cfg.maxBonus >= k * cfg.bonusDeadline
      {
        ScoreThreshold(cfg, answerTime, deadline, k);
        if left > MAX_INT64 {
          FullBonus(cfg, MAX_INT64, k);
          FullBonus(cfg, left, k);
        }
      }
    }
  }

  lemma FullBonus(cfg: Config, left: int, k: int)
    requires 0 <= k <= cfg.maxBonus && cfg.bonusDeadline <= left && left >= 0
    ensures left * cfg.maxBonus >= k * cfg.bonusDeadline
  {
    MulMonotone(k, cfg.maxBonus, left);
    MulMonotone(cfg.bonusDeadline, left, k);
    assert k * left == left * k && cfg.maxBonus * left == left * cfg.maxBonus;
    assert cfg.bonusDeadline * k == k * cfg.bonusDeadline;
  }

  /** There is only one such number of points. */
  lemma ScoreUnique(cfg: Config, isRight: bool, answerTime: int, deadline: int, p: int, q: int)
    requires IsScore(cfg, isRight, answerTime, deadline, p) && IsScore(cfg, isRight, answerTime, deadline, q)
    ensures p == q
  {
    if isRight && answerTime <= deadline {
      var j, k := p - cfg.baseScore, q - cfg.baseScore;
      assert q >= cfg.baseScore + j <==> Left(answerTime, deadline) * cfg.maxBonus >= j * cfg.bonusDeadline;
      assert p >= cfg.baseScore + k <==> Left(answerTime, deadline) * cfg.maxBonus >= k * cfg.bonusDeadline;
    }
  }

  // --------------------------------------------------------------- deadlines

  /** The time question i is given after the start, in int64 arithmetic. */
  function Offset(timeOut: int, i: nat): int { Wrap64(timeOut * (i + 1)) }

  /** The completion delay the stamping loop adds up, in int64 arithmetic. */
  function DelaySum(timeOut: int, n: nat): int {
    if n == 0 then 0 else Wrap64(DelaySum(timeOut, n - 1) + Offset(timeOut, n - 1))
  }

  /** The n-th triangular number. */
  function Triangle(n: nat): (r: nat)
    ensures n <= r
  {
    if n == 0 then 0 else Triangle(n - 1) + n
  }

  lemma {:induction false} TriangleFormula(n: nat)
    ensures Triangle(n) == n * (n + 1) / 2
  {
    if n > 0 {
      TriangleFormula(n - 1);
      MulSum(n, n - 1, 2);
    }
  }

  /** The delay is T·n(n+1)/2 modulo 2^64, hence exactly that iff it fits int64. */
  lemma {:induction false} DelayIsTriangle(timeOut: int, n: nat)
    ensures DelaySum(timeOut, n) == Wrap64(timeOut * Triangle(n))
    ensures DelaySum(timeOut, n) == timeOut * Triangle(n) <==> MIN_INT64 <= timeOut * Triangle(n) <= MAX_INT64
  {
    if n > 0 {
      DelayIsTriangle(timeOut, n - 1);
      MulSum(timeOut, Triangle(n - 1), n);
      WrapSum(timeOut * Triangle(n - 1), timeOut * n);
    }
  }

  /** The whole delay of n questions fits int64. */
  predicate Fits(timeOut: int, n: nat) {
    timeOut >= 0 && timeOut * Triangle(n) <= MAX_INT64
  }

  lemma TenQuestionsFit(timeOut: int, n: nat)
    requires 0 <= timeOut <= MAX_INT64 / 55 && n <= 10
    ensures Fits(timeOut, n)
  {
    TriangleFormula(n);
    MulMonotone(n, 10, n + 1);
    MulMonotone(Triangle(n), 55, timeOut);
    assert Triangle(n) * timeOut == timeOut * Triangle(n);
  }

  lemma DelayExact(timeOut: int, n: nat)
    requires Fits(timeOut, n)
    ensures 0 <= DelaySum(timeOut, n) == timeOut * Triangle(n)
  {
    MulMonotone(0, Triangle(n), timeOut);
    assert Triangle(n) * timeOut == timeOut * Triangle(n);
    DelayIsTriangle(timeOut, n);
  }

  /** When the delay fits nothing wraps, and the delay is at least every offset. */
  lemma NoOverflow(timeOut: int, n: nat, i: nat)
    requires Fits(timeOut, n) && i < n
    ensures Offset(timeOut, i) == timeOut * (i + 1)
    ensures DelaySum(timeOut, n) == timeOut * Triangle(n)
    ensures Offset(timeOut, i) <= DelaySum(timeOut, n)
  {
    var t := Triangle(n);
    MulMonotone(0, i + 1, timeOut);
    MulMonotone(i + 1, t, timeOut);
    assert (i + 1) * timeOut == timeOut * (i + 1) && t * timeOut == timeOut * t;
    DelayExact(timeOut, n);
  }

  /** The deadlines one start stamps, from the clock reading of each iteration. */
  function Deadlines(timeOut: int, clock: seq<int>): seq<int> {
    seq(|clock|, i requires 0 <= i < |clock| => clock[i] + Offset(timeOut, i))
  }

  /** The completion task of a start fires no earlier than any deadline of that start. */
  lemma CompletionAfterDeadlines(timeOut: int, clock: seq<int>, enqueuedAt: int, i: nat)
    requires i < |clock| && Fits(timeOut, |clock|)
    requires Nondecreasing(clock) && clock[|clock| - 1] <= enqueuedAt
    ensures Deadlines(timeOut, clock)[i] <= enqueuedAt + DelaySum(timeOut, |clock|)
  {
    NoOverflow(timeOut, |clock|, i);
    assert clock[i] <= clock[|clock| - 1];
  }

  // ------------------------------------------------------- the answer window

  /** The anti-early check, in truncated milliseconds. */
  predicate TooEarly(timeOut: int, validAnswerTime: int, answerTime: int) {
    Quo(Sub(validAnswerTime, answerTime), MILLISECOND) > Quo(timeOut, MILLISECOND)
  }

  /** How long before a deadline answers are admitted: the next whole number of milliseconds above the time-out. */
  function Admission(timeOut: int): (w: int)
    requires timeOut >= 0
    ensures w % 1_000_000 == 0 && timeOut < w <= timeOut + 1_000_000
  {
    (timeOut / MILLISECOND + 1) * MILLISECOND
  }

  lemma TooEarlyExactly(timeOut: int, validAnswerTime: int, answerTime: int)
    requires 0 <= timeOut <= MAX_INT64 - MILLISECOND
    ensures TooEarly(timeOut, validAnswerTime, answerTime) <==>
      answerTime <= validAnswerTime - Admission(timeOut)
  {}

  /** Whether a right answer at this time is admitted and earns points. */
  ghost predicate CanScore(cfg: Config, validAnswerTime: int, answerTime: int) {
    !TooEarly(cfg.validAnswerTimeOut, validAnswerTime, answerTime)
    && CalculateScore(cfg, true, answerTime, validAnswerTime) > 0
  }

  /**
   * Points can be earned on a question only within (D - w, D], w being the
   * admission time; and exactly then if BaseScore is positive, or if the time
   * left is worth a whole point of bonus.
   */
  lemma ScoringWindow(cfg: Config, validAnswerTime: int, answerTime: int)
    requires 0 <= cfg.validAnswerTimeOut <= MAX_INT64 - MILLISECOND
    requires cfg.baseScore >= 0 && cfg.maxBonus >= 0
    ensures CanScore(cfg, validAnswerTime, answerTime) <==>
      && validAnswerTime - Admission(cfg.validAnswerTimeOut) < answerTime <= validAnswerTime
      && (cfg.baseScore > 0
          || (cfg.maxBonus > 0 && Sub(validAnswerTime, answerTime) * cfg.maxBonus >= cfg.bonusDeadline))
  {
    TooEarlyExactly(cfg.validAnswerTimeOut, validAnswerTime, answerTime);
    if answerTime <= validAnswerTime {
      ScoreBounds(cfg, true, answerTime, validAnswerTime);
      if cfg.maxBonus > 0 {
        ScoreThreshold(cfg, answerTime, validAnswerTime, 1);
      }
    }
  }

  lemma DeadlineGap(timeOut: int, clock: seq<int>, i: nat, j: nat)
    requires i < j < |clock| && Fits(timeOut, |clock|) && Nondecreasing(clock)
    ensures Deadlines(timeOut, clock)[i] + timeOut <= Deadlines(timeOut, clock)[j]
    ensures j >= i + 2 ==> Deadlines(timeOut, clock)[i] + 2 * timeOut <= Deadlines(timeOut, clock)[j]
  {
    NoOverflow(timeOut, |clock|, i);
    NoOverflow(timeOut, |clock|, j);
    OffsetGap(timeOut, i, j);
    assert clock[i] <= clock[j];
  }

  lemma OffsetGap(timeOut: int, i: nat, j: nat)
    requires timeOut >= 0 && i < j
    ensures timeOut * (i + 1) + timeOut <= timeOut * (j + 1)
    ensures j >= i + 2 ==> timeOut * (i + 1) + 2 * timeOut <= timeOut * (j + 1)
  {
    MulSum(timeOut, i + 1, j - i);
    MulMonotone(1, j - i, timeOut);
    if j >= i + 2 {
      MulMonotone(2, j - i, timeOut);
    }
  }

  /**
   * The scoring windows of one start tile: deadlines increase by at least the
   * time-out, and an instant at which two questions can both earn points lies
   * within the last millisecond before the earlier deadline; for a time-out of
   * a millisecond or more the two questions follow one another.
   */
  lemma WindowsTile(cfg: Config, clock: seq<int>, i: nat, j: nat, answerTime: int)
    requires 0 < cfg.validAnswerTimeOut <= MAX_INT64 - MILLISECOND
    requires cfg.baseScore >= 0 && cfg.maxBonus >= 0
    requires i < j < |clock| && Fits(cfg.validAnswerTimeOut, |clock|) && Nondecreasing(clock)
    ensures var d := Deadlines(cfg.validAnswerTimeOut, clock);
      && d[i] + cfg.validAnswerTimeOut <= d[j]
      && (CanScore(cfg, d[i], answerTime) && CanScore(cfg, d[j], answerTime) ==>
            && d[i] - MILLISECOND < answerTime <= d[i]
            && (cfg.validAnswerTimeOut >= MILLISECOND ==> j == i + 1))
  {
    DeadlineGap(cfg.validAnswerTimeOut, clock, i, j);
    TooEarlyExactly(cfg.validAnswerTimeOut, Deadlines(cfg.validAnswerTimeOut, clock)[j], answerTime);
  }
}
