/** The end of a quiz: `computeAntiGuessFactors`, the score that
    `showResult` computes and the badge `pickBadge` awards for it. */
module Finalize {
  import opened Scoring
  import opened Numbers

  /** The accuracy `acc(d)` on the questions of difficulty `d`: zero when
      none was answered. */
  function Accuracy(st: Stats, d: string): (acc: real)
    ensures acc >= 0.0
    ensures StatsValid(st) ==> acc <= 1.0
    ensures acc > 0.0 <==> d in st.byDifficulty && st.byDifficulty[d].total > 0 && st.byDifficulty[d].correct > 0
    ensures StatsValid(st) && d in st.byDifficulty && st.byDifficulty[d].total > 0 ==>
      (acc == 1.0 <==> st.byDifficulty[d].correct == st.byDifficulty[d].total)
  {
    if d !in st.byDifficulty || st.byDifficulty[d].total == 0 then 0.0
    else
      var o := st.byDifficulty[d];
      assert StatsValid(st) ==> o.correct as real <= o.total as real;
      QuotientBounds(o.correct as real, o.total as real);
      o.correct as real / o.total as real
  }

  /** The share of wrong multiple-choice answers given in under
      `FAST_WRONG_MS`: zero when no such answer was wrong. */
  function FastWrongRate(st: Stats): (rate: real)
    ensures rate >= 0.0
    ensures StatsValid(st) ==> rate <= 1.0
    ensures rate > 0.0 <==> st.fastWrongMC.totalWrong > 0 && st.fastWrongMC.fastWrong > 0
  {
    var fw := st.fastWrongMC;
    if fw.totalWrong == 0 then 0.0
    else
      assert StatsValid(st) ==> fw.fastWrong as real <= fw.totalWrong as real;
      QuotientBounds(fw.fastWrong as real, fw.totalWrong as real);
      fw.fastWrong as real / fw.totalWrong as real
  }

  /** What `computeAntiGuessFactors` returns. */
  datatype Factors = Factors(consistency: real, guess: real)

  /** `computeAntiGuessFactors()`: a consistency factor lowered when the
      easy questions went badly or markedly worse than the hard or elite
      ones, and a guess factor lowered when many wrong multiple-choice
      answers were fast. */
  function AntiGuessFactors(st: Stats): (f: Factors)
    ensures 0.6 <= f.consistency <= 1.0
    ensures f.guess == 1.0 || f.guess == 0.9 || f.guess == 0.8
    ensures Accuracy(st, "Easy") < 0.5 ==> f.consistency <= 0.9
    ensures f.consistency == 1.0 <==>
      && Accuracy(st, "Easy") >= 0.5
      && Accuracy(st, "Hard") - Accuracy(st, "Easy") < 0.35
      && Accuracy(st, "Elite") - Accuracy(st, "Easy") < 0.35
    ensures f.guess == 1.0 <==> FastWrongRate(st) < 0.4
    ensures f.guess == 0.8 <==> FastWrongRate(st) >= 0.55
  {
    var accEasy := Accuracy(st, "Easy");
    var accHard := Accuracy(st, "Hard");
    var accElite := Accuracy(st, "Elite");
    var consistency := 1.0
      - (if accEasy < 0.5 then 0.10 else 0.0)
      - (if accHard - accEasy >= 0.35 then 0.15 else 0.0)
      - (if accElite - accEasy >= 0.35 then 0.20 else 0.0);
    var rate := FastWrongRate(st);
    var guess := 1.0
      - (if rate >= 0.40 then 0.10 else 0.0)
      - (if rate >= 0.55 then 0.10 else 0.0);
    Factors(Clamp(consistency, 0.6, 1.0), Clamp(guess, 0.7, 1.0))
  }

  /** A player who answered no easy question loses at least a tenth of the
      consistency factor. */
  lemma NoEasyAnswerPenalized(st: Stats)
    requires "Easy" !in st.byDifficulty || st.byDifficulty["Easy"].total == 0
    ensures AntiGuessFactors(st).consistency <= 0.9
  {
    assert Accuracy(st, "Easy") == 0.0;
  }

  /** The maximum raw points as a divisor: one when the maximum is zero. */
  function Denominator(maxRaw: real): (d: real)
    ensures d != 0.0
  {
    if maxRaw == 0.0 then 1.0 else maxRaw
  }

  /** A factor whose product with a positive number is non-negative is
      non-negative. */
  lemma PositiveFactor(x: real, b: real)
    requires b > 0.0 && x * b >= 0.0
    ensures x >= 0.0
  {
  }

  /** Where `a / b` lies when `b` is positive. */
  lemma QuotientBounds(a: real, b: real)
    ensures 0.0 < b && 0.0 <= a <= b ==> 0.0 <= a / b <= 1.0
    ensures 0.0 < b <= a ==> a / b >= 1.0
    ensures 0.0 < b ==> (a / b == 1.0 <==> a == b)
  {
    if b > 0.0 {
      var q := a / b;
      assert q * b == a;
      if 0.0 <= a {
        PositiveFactor(q, b);
      }
      if a <= b {
        assert (1.0 - q) * b == b - a;
        PositiveFactor(1.0 - q, b);
      }
      if a >= b {
        assert (q - 1.0) * b == a - b;
        PositiveFactor(q - 1.0, b);
      }
      if a == b {
        assert (q - 1.0) * b == 0.0;
        PositiveFactor(q - 1.0, b);
        PositiveFactor(1.0 - q, b);
      }
    }
  }

  /** The raw points as a share of the maximum (a zero maximum counting as
      one), on a scale of 1000, rounded and kept within 0 and 1000: 1000
      when they reach the maximum. */
  function NormalizedScore(raw: real, maxRaw: real): (score: int)
    ensures 0 <= score <= 1000
    ensures maxRaw > 0.0 && 0.0 <= raw <= maxRaw ==> score == Round(1000.0 * (raw / maxRaw))
    ensures maxRaw > 0.0 && raw >= maxRaw ==> score == 1000
    ensures maxRaw == 0.0 && raw >= 0.0 ==> score == if Round(1000.0 * raw) < 1000 then Round(1000.0 * raw) else 1000
  {
    QuotientBounds(raw, maxRaw);
    ClampWhole(Round(1000.0 * (raw / Denominator(maxRaw))), 0, 1000)
  }

  /** More raw points never give a lower normalized score. */
  lemma NormalizedScoreMonotonic(raw: real, raw': real, maxRaw: real)
    requires raw <= raw' && maxRaw >= 0.0
    ensures NormalizedScore(raw, maxRaw) <= NormalizedScore(raw', maxRaw)
  {
    var d := Denominator(maxRaw);
    assert raw / d <= raw' / d;
    RoundMonotonic(1000.0 * (raw / d), 1000.0 * (raw' / d));
  }

  /** `score * consistency * guess` lies between 0.48 and 1 times `score`
      when both factors are in their ranges. */
  lemma ScaledBetween(score: real, c: real, g: real, p: real)
    requires score >= 0.0 && 0.6 <= c <= 1.0 && 0.8 <= g <= 1.0 && p == score * c * g
    ensures 0.48 * score <= p <= score
  {
    var sc := score * c;
    assert 0.6 * score <= sc <= score;
    assert p == sc * g;
    assert 0.8 * sc <= sc * g <= sc;
  }

  /** The score times both factors, rounded and kept within 0 and 1000. */
  function FinalScore(score: int, f: Factors): (final: int)
    ensures 0 <= final <= 1000
  {
    ClampWhole(Round(score as real * f.consistency * f.guess), 0, 1000)
  }

  /** The final score never exceeds the normalized one, keeps at least 48%
      of it, and equals it when neither factor penalizes. */
  lemma FinalScoreBounds(score: int, f: Factors)
    requires 0 <= score <= 1000
    requires 0.6 <= f.consistency <= 1.0 && 0.8 <= f.guess <= 1.0
    ensures Round(0.48 * score as real) <= FinalScore(score, f) <= score
    ensures f == Factors(1.0, 1.0) ==> FinalScore(score, f) == score
  {
    var p := score as real * f.consistency * f.guess;
    ScaledBetween(score as real, f.consistency, f.guess, p);
    RoundMonotonic(0.48 * score as real, p);
    RoundMonotonic(p, score as real);
    RoundOfInteger(score);
    assert 0 <= Round(0.48 * score as real) <= Round(p) <= score;
    assert FinalScore(score, f) == Round(p);
    if f == Factors(1.0, 1.0) {
      assert p == score as real;
    }
  }

  /** An entry of the badge table: the least final score that earns it,
      its key, its image and its title. */
  datatype Badge = Badge(min: int, key: string, src: string, title: string)

  const BADGES: seq<Badge> := [
    Badge(0, "bronze", "assets/badge_bronze.svg", "Bronze"),
    Badge(200, "silver", "assets/badge_silver.svg", "Silver"),
    Badge(400, "gold", "assets/badge_gold.svg", "Gold"),
    Badge(600, "platinum", "assets/badge_platinum.svg", "Platinum"),
    Badge(750, "diamond", "assets/badge_diamond.svg", "Diamond"),
    Badge(900, "conqueror", "assets/badge_conqueror.svg", "Conqueror")
  ]

  /** The thresholds of a badge table grow strictly. */
  predicate Ascending(bs: seq<Badge>) {
    forall i, j :: 0 <= i < j < |bs| ==> bs[i].min < bs[j].min
  }

  lemma BadgesAscending()
    ensures Ascending(BADGES) && BADGES[0].min == 0
  {
  }

  /** What the loop of `pickBadge` holds after scanning `bs`, starting from
      `first`: the last badge of `bs` whose threshold `score` reaches. */
  function LastReached(bs: seq<Badge>, score: int, first: Badge): Badge
  {
    if bs == [] then first
    else if score >= bs[|bs| - 1].min then bs[|bs| - 1]
    else LastReached(bs[..|bs| - 1], score, first)
  }

  /** In an ascending table the badge found is the one with the greatest
      threshold `score` reaches; when it reaches none, the badge is
      `first`. */
  lemma {:induction false} LastReachedIsBest(bs: seq<Badge>, score: int, first: Badge)
    requires Ascending(bs)
    ensures var b := LastReached(bs, score, first);
      && ((exists i :: 0 <= i < |bs| && bs[i].min <= score) ==>
            b in bs && b.min <= score && forall c :: c in bs && c.min <= score ==> c.min <= b.min)
      && ((forall i :: 0 <= i < |bs| ==> score < bs[i].min) ==> b == first)
  {
    if bs != [] {
      var init := bs[..|bs| - 1];
      assert Ascending(init);
      LastReachedIsBest(init, score, first);
      if score < bs[|bs| - 1].min {
        forall c | c in bs && c.min <= score ensures c in init {
          var k :| 0 <= k < |bs| && bs[k] == c;
          assert k != |bs| - 1;
          assert init[k] == c;
        }
        if exists i :: 0 <= i < |bs| && bs[i].min <= score {
          var i :| 0 <= i < |bs| && bs[i].min <= score;
          assert init[i].min <= score;
        }
      } else {
        forall c | c in bs ensures c.min <= bs[|bs| - 1].min {
          var k :| 0 <= k < |bs| && bs[k] == c;
        }
      }
    }
  }

  /** `pickBadge(score)`. */
  method PickBadge(score: int) returns (chosen: Badge)
    ensures chosen == LastReached(BADGES, score, BADGES[0])
  {
    chosen := BADGES[0];
    for i := 0 to |BADGES|
      invariant chosen == LastReached(BADGES[..i], score, BADGES[0])
    {
      assert BADGES[..i + 1][..i] == BADGES[..i];
      var b := BADGES[i];
      if score >= b.min {
        chosen := b;
      }
    }
    assert BADGES[..|BADGES|] == BADGES;
  }

  /** Every score from 0 earns the badge with the greatest threshold it
      reaches; a negative one earns the first. */
  lemma BadgeIsBest(score: int)
    ensures var b := LastReached(BADGES, score, BADGES[0]);
      && b in BADGES
      && (score >= 0 ==> b.min <= score && forall c :: c in BADGES && c.min <= score ==> c.min <= b.min)
  {
    BadgesAscending();
    LastReachedIsBest(BADGES, score, BADGES[0]);
    if score >= 0 {
      assert BADGES[0].min <= score;
    }
  }

  /** A higher score never earns a lower badge. */
  lemma BadgeMonotonic(score: int, score': int)
    requires 0 <= score <= score'
    ensures LastReached(BADGES, score, BADGES[0]).min <= LastReached(BADGES, score', BADGES[0]).min
  {
    BadgeIsBest(score);
    BadgeIsBest(score');
  }

  /** What `showResult` shows: the final score and its badge. */
  datatype Outcome = Outcome(finalScore: int, badge: Badge)

  /** `showResult()` on the final state: the raw points normalized, scaled
      by the anti-guess factors and rounded, and the badge they earn. */
  function ShowResult(rawPoints: real, maxRawPoints: real, st: Stats): (r: Outcome)
    ensures 0 <= r.finalScore <= NormalizedScore(rawPoints, maxRawPoints) <= 1000
    ensures r.badge in BADGES && r.badge.min <= r.finalScore
    ensures forall c :: c in BADGES && c.min <= r.finalScore ==> c.min <= r.badge.min
  {
    var score := NormalizedScore(rawPoints, maxRawPoints);
    var f := AntiGuessFactors(st);
    var final := FinalScore(score, f);
    FinalScoreBounds(score, f);
    BadgeIsBest(final);
    Outcome(final, LastReached(BADGES, final, BADGES[0]))
  }

  /** A flawless quiz without fast wrong guesses scores 1000 and earns the
      top badge. */
  lemma FlawlessQuizWins(maxRawPoints: real, st: Stats)
    requires maxRawPoints > 0.0
    requires StatsValid(st) && st.fastWrongMC.fastWrong == 0
    requires forall d :: d in st.byDifficulty ==> st.byDifficulty[d].correct == st.byDifficulty[d].total
    requires "Easy" in st.byDifficulty && st.byDifficulty["Easy"].total > 0
    ensures ShowResult(maxRawPoints, maxRawPoints, st) == Outcome(1000, BADGES[5])
  {
    assert Accuracy(st, "Easy") == 1.0;
    assert AntiGuessFactors(st) == Factors(1.0, 1.0);
  }
}
