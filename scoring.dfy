/** Scoring of one answer (`timeFactorFromElapsed`, the streak multiplier and
    the bookkeeping of `handleAnswer`) and the theoretical maximum
    `computeMaxRaw`. Times are in milliseconds, on exact reals. */
module Scoring {
  import opened Questions
  import Numbers

  const TIME_LIMIT_MS: real := 30000.0
  /** A wrong multiple-choice answer given this fast counts as a fast guess. */
  const FAST_WRONG_MS: real := 3000.0

  /** `timeFactorFromElapsed`: full credit up to 7 s, then linear down to 0.2
      at 25 s (0.8 less per 18 s, so 0.6 at 16 s), 0.2 until the limit and
      nothing from 30 s on. */
  function TimeFactor(elapsedMs: real): (f: real)
    ensures 0.0 <= f <= 1.0
    ensures elapsedMs <= 7000.0 ==> f == 1.0
    ensures 7000.0 < elapsedMs < 25000.0 ==> 0.2 < f < 1.0 && f == 1.0 - (elapsedMs - 7000.0) / 22500.0
    ensures elapsedMs == 16000.0 ==> f == 0.6
    ensures 25000.0 <= elapsedMs < TIME_LIMIT_MS ==> f == 0.2
    ensures TIME_LIMIT_MS <= elapsedMs ==> f == 0.0
  {
    var t := elapsedMs / 1000.0;
    if t <= 7.0 then 1.0
    else if t < 25.0 then 1.0 - ((t - 7.0) / 18.0) * 0.8
    else if t < 30.0 then 0.2
    else 0.0
  }

  /** Answering later never earns more. */
  lemma TimeFactorMonotonic(x: real, y: real)
    requires x <= y
    ensures TimeFactor(y) <= TimeFactor(x)
  {
    if 7000.0 < x && y < 25000.0 {
      assert TimeFactor(x) - TimeFactor(y) == (y - x) / 22500.0;
    }
  }

  /** Below the time limit the factor changes by at most 0.8 per 18 s, so it
      is continuous at 7 s and at 25 s; it only jumps (from 0.2 to 0) at the
      limit. */
  lemma TimeFactorLipschitz(x: real, y: real)
    requires x <= y < TIME_LIMIT_MS
    ensures TimeFactor(x) - TimeFactor(y) <= (y - x) / 22500.0
  {
    var lo := Numbers.Max(7000.0, Numbers.Min(x, 25000.0));
    var hi := Numbers.Max(7000.0, Numbers.Min(y, 25000.0));
    assert TimeFactor(x) == 1.0 - (lo - 7000.0) / 22500.0;
    assert TimeFactor(y) == 1.0 - (hi - 7000.0) / 22500.0;
  }

  /** The streak bonus: 5 % more per answer in the streak, at most 25 %. */
  function StreakMultiplier(streak: nat): (m: real)
    ensures 1.0 <= m <= 1.25
    ensures streak <= 5 ==> m == 1.0 + 0.05 * streak as real
    ensures streak >= 5 ==> m == 1.25
  {
    Numbers.Min(1.25, 1.0 + 0.05 * streak as real)
  }

  lemma StreakMultiplierMonotonic(a: nat, b: nat)
    requires a <= b
    ensures StreakMultiplier(a) <= StreakMultiplier(b)
  {
  }

  // ---------------------------------------------------------------------------
  // The statistics handleAnswer keeps.

  datatype Tally = Tally(correct: nat, total: nat)
  datatype FastWrong = FastWrong(fastWrong: nat, totalWrong: nat)
  datatype Stats = Stats(byDifficulty: map<string, Tally>, fastWrongMC: FastWrong)

  /** The difficulties whose answers are counted. */
  const DIFFICULTIES: seq<string> := ["Easy", "Medium", "Hard", "Elite"]

  /** The `stats` object as `resetGameState` builds it. */
  function InitialStats(): (st: Stats)
    ensures st.byDifficulty.Keys == set d | d in DIFFICULTIES
    ensures forall d :: d in st.byDifficulty ==> st.byDifficulty[d] == Tally(0, 0)
    ensures st.fastWrongMC == FastWrong(0, 0)
  {
    Stats(map["Easy" := Tally(0, 0), "Medium" := Tally(0, 0), "Hard" := Tally(0, 0), "Elite" := Tally(0, 0)],
          FastWrong(0, 0))
  }

  /** No tally counts more right than given answers, nor more fast wrong
      answers than wrong ones. */
  predicate StatsValid(st: Stats) {
    (forall d :: d in st.byDifficulty ==> st.byDifficulty[d].correct <= st.byDifficulty[d].total)
    && st.fastWrongMC.fastWrong <= st.fastWrongMC.totalWrong
  }

  /** The scoring part of the game state. */
  datatype ScoreState = ScoreState(streak: nat, rawPoints: real, stats: Stats)

  function InitialScore(): ScoreState {
    ScoreState(0, 0.0, InitialStats())
  }

  /** What reaches `handleAnswer`: the chosen column (none on a timeout or
      when nothing was selected), whether the timer expired, and the total
      time spent on the question, including earlier visits. */
  datatype Answer = Answer(chosen: Option<Col>, isTimeout: bool, elapsedMs: real)

  /** An answer is correct when it was not a timeout and the chosen column is
      the question's answer column. */
  predicate IsCorrect(q: Question, a: Answer) {
    !a.isTimeout && a.chosen == Some(q.answerCol)
  }

  /** The key under which the answer is counted: the difficulty, or "Medium"
      when it is empty. */
  function DifficultyKey(q: Question): string {
    if q.difficulty == "" then "Medium" else q.difficulty
  }

  function Bump(t: Tally, correct: bool): (r: Tally)
    ensures r.total == t.total + 1 && r.correct == t.correct + (if correct then 1 else 0)
  {
    Tally(t.correct + (if correct then 1 else 0), t.total + 1)
  }

  /** The effect of `handleAnswer` on streak, raw points and statistics. */
  function Record(s: ScoreState, q: Question, a: Answer): (r: ScoreState)
    ensures IsCorrect(q, a) ==>
      && r.streak == s.streak + 1
      && r.rawPoints == s.rawPoints + q.value * TimeFactor(a.elapsedMs) * StreakMultiplier(s.streak + 1)
    ensures !IsCorrect(q, a) ==> r.streak == 0 && r.rawPoints == s.rawPoints
    ensures r.stats.byDifficulty.Keys == s.stats.byDifficulty.Keys
    ensures forall d :: d in s.stats.byDifficulty && d != DifficultyKey(q) ==>
      r.stats.byDifficulty[d] == s.stats.byDifficulty[d]
    ensures DifficultyKey(q) in s.stats.byDifficulty ==>
      var t := s.stats.byDifficulty[DifficultyKey(q)];
      var t' := r.stats.byDifficulty[DifficultyKey(q)];
      t'.total == t.total + 1 && (t'.correct == t.correct + 1 <==> IsCorrect(q, a))
      && (t'.correct == t.correct <==> !IsCorrect(q, a))
    ensures !(!IsCorrect(q, a) && q.kind == MC) ==> r.stats.fastWrongMC == s.stats.fastWrongMC
    ensures !IsCorrect(q, a) && q.kind == MC ==>
      r.stats.fastWrongMC.totalWrong == s.stats.fastWrongMC.totalWrong + 1
      && (r.stats.fastWrongMC.fastWrong == s.stats.fastWrongMC.fastWrong + 1 <==> a.elapsedMs <= FAST_WRONG_MS)
      && (r.stats.fastWrongMC.fastWrong == s.stats.fastWrongMC.fastWrong <==> a.elapsedMs > FAST_WRONG_MS)
    ensures StatsValid(s.stats) ==> StatsValid(r.stats)
  {
    var correct := IsCorrect(q, a);
    var tFactor := if correct then TimeFactor(a.elapsedMs) else 0.0;
    var d := DifficultyKey(q);
    var byDiff :=
      if d in s.stats.byDifficulty then s.stats.byDifficulty[d := Bump(s.stats.byDifficulty[d], correct)]
      else s.stats.byDifficulty;
    var fw := s.stats.fastWrongMC;
    var fw' :=
      if !correct && q.kind == MC then
        FastWrong(fw.fastWrong + (if a.elapsedMs <= FAST_WRONG_MS then 1 else 0), fw.totalWrong + 1)
      else fw;
    if correct then
      ScoreState(s.streak + 1, s.rawPoints + q.value * tFactor * StreakMultiplier(s.streak + 1), Stats(byDiff, fw'))
    else
      ScoreState(0, s.rawPoints, Stats(byDiff, fw'))
  }

  /** The answers to `qs` given in order, without skips. */
  function RecordAll(s: ScoreState, qs: seq<Question>, answers: seq<Answer>): ScoreState
    requires |answers| == |qs|
    decreases |qs|
  {
    if qs == [] then s else RecordAll(Record(s, qs[0], answers[0]), qs[1..], answers[1..])
  }

  // ---------------------------------------------------------------------------
  // The theoretical maximum.

  /** The points of a perfect run over `qs` (every answer right, within 7 s)
      when `k` answers were already right in a row. */
  function PerfectFrom(qs: seq<Question>, k: nat): real
    decreases |qs|
  {
    if qs == [] then 0.0 else qs[0].value * StreakMultiplier(k + 1) + PerfectFrom(qs[1..], k + 1)
  }

  /** What `computeMaxRaw` returns: the perfect run, or 1 when that is 0. */
  function MaxRaw(qs: seq<Question>): (m: real)
    ensures m != 0.0
  {
    var p := PerfectFrom(qs, 0);
    if p == 0.0 then 1.0 else p
  }

  /** `computeMaxRaw(set)`. */
  method ComputeMaxRaw(quiz: seq<Question>) returns (max: real)
    ensures max == MaxRaw(quiz)
  {
    var s := 0;
    max := 0.0;
    var i := 0;
    while i < |quiz|
      invariant 0 <= i <= |quiz| && s == i
      invariant max + PerfectFrom(quiz[i..], i) == PerfectFrom(quiz, 0)
    {
      assert quiz[i..][1..] == quiz[i + 1..];
      s := s + 1;
      var streakMult := Numbers.Min(1.25, 1.0 + 0.05 * s as real);
      max := max + quiz[i].value * 1.0 * streakMult;
      i := i + 1;
    }
    assert quiz[i..] == [];
    if max == 0.0 {
      max := 1.0;
    }
  }

  /** Answering every question of `qs` right within 7 s, in order, earns
      exactly the perfect run. */
  lemma {:induction false} PerfectRun(s: ScoreState, qs: seq<Question>, answers: seq<Answer>)
    requires |answers| == |qs|
    requires forall i :: 0 <= i < |qs| ==> IsCorrect(qs[i], answers[i]) && answers[i].elapsedMs <= 7000.0
    ensures RecordAll(s, qs, answers).rawPoints == s.rawPoints + PerfectFrom(qs, s.streak)
    ensures RecordAll(s, qs, answers).streak == s.streak + |qs|
    decreases |qs|
  {
    if qs != [] {
      var s' := Record(s, qs[0], answers[0]);
      assert s'.rawPoints == s.rawPoints + qs[0].value * StreakMultiplier(s.streak + 1);
      PerfectRun(s', qs[1..], answers[1..]);
    }
  }

  /** Without skips, and with no negative value, the raw points never exceed
      the perfect run: a streak is never longer than the number of answers
      given, and the time factor is at most 1. */
  lemma {:induction false} InOrderBounded(s: ScoreState, k: nat, qs: seq<Question>, answers: seq<Answer>)
    requires |answers| == |qs| && s.streak <= k
    requires forall q :: q in qs ==> q.value >= 0.0
    ensures RecordAll(s, qs, answers).rawPoints <= s.rawPoints + PerfectFrom(qs, k)
    decreases |qs|
  {
    if qs != [] {
      var q := qs[0];
      var s' := Record(s, q, answers[0]);
      GainBounded(s, q, answers[0], k);
      assert forall q' :: q' in qs[1..] ==> q' in qs;
      InOrderBounded(s', k + 1, qs[1..], answers[1..]);
    }
  }

  lemma GainBounded(s: ScoreState, q: Question, a: Answer, k: nat)
    requires s.streak <= k && q.value >= 0.0
    ensures Record(s, q, a).streak <= k + 1
    ensures Record(s, q, a).rawPoints - s.rawPoints <= q.value * StreakMultiplier(k + 1)
  {
    if IsCorrect(q, a) {
      CorrectGainBounded(s, q, a, k);
    } else {
      ProductBound(q.value, 0.0, 0.0, StreakMultiplier(k + 1), 0.0);
    }
  }

  lemma CorrectGainBounded(s: ScoreState, q: Question, a: Answer, k: nat)
    requires s.streak <= k && q.value >= 0.0 && IsCorrect(q, a)
    ensures Record(s, q, a).rawPoints - s.rawPoints <= q.value * StreakMultiplier(k + 1)
  {
    var f := TimeFactor(a.elapsedMs);
    var m := StreakMultiplier(s.streak + 1);
    StreakMultiplierMonotonic(s.streak + 1, k + 1);
    ProductBound(q.value, f, m, StreakMultiplier(k + 1), Record(s, q, a).rawPoints - s.rawPoints);
  }

  /** `p`, the product `v * f * m`, is at most `v * m'`. */
  lemma ProductBound(v: real, f: real, m: real, m': real, p: real)
    requires v >= 0.0 && 0.0 <= f <= 1.0 && 0.0 <= m <= m' && p == v * f * m
    ensures 0.0 <= p <= v * m'
  {
    var vf := v * f;
    assert 0.0 <= vf <= v;
    assert p == vf * m;
    assert vf * m <= v * m;
    assert v * m <= v * m';
  }

  /** With skips the raw points CAN exceed `computeMaxRaw`: for the set
      [a (100 points), b (0 points)], skipping a and then answering b and a
      right within 7 s puts a on a streak of two, worth 100 * 1.10, while the
      maximum assumed 100 * 1.05. */
  lemma RawCanExceedMax(a: Question, b: Question)
    requires a.value == 100.0 && b.value == 0.0
    ensures var answers := [Answer(Some(b.answerCol), false, 1000.0), Answer(Some(a.answerCol), false, 1000.0)];
      && RecordAll(InitialScore(), [b, a], answers).rawPoints == 110.0
      && MaxRaw([a, b]) == 105.0
  {
    var answers := [Answer(Some(b.answerCol), false, 1000.0), Answer(Some(a.answerCol), false, 1000.0)];
    PerfectRun(InitialScore(), [b, a], answers);
    assert [b, a][1..] == [a];
    assert [a, b][1..] == [b];
    assert [a][1..] == [] && [b][1..] == [];
    assert PerfectFrom([a], 1) == 110.0 by { assert StreakMultiplier(2) == 1.1; }
    assert PerfectFrom([b, a], 0) == 110.0;
    assert PerfectFrom([b], 1) == 0.0;
    assert PerfectFrom([a, b], 0) == 105.0 by { assert StreakMultiplier(1) == 1.05; }
  }
}
