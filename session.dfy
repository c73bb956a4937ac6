/** The module state of the quiz page and the handlers that change it:
    `resetGameState`, `startQuizFlow`, a click on an answer button, the timer
    tick, `skipQuestion`, `confirmAnswer` and `handleAnswer`. Every reading of
    `performance.now()` is the parameter `now` of the handler that makes it,
    and `Math.random` is the stream `random`. */
module Session {
  import opened Questions
  import opened Scoring
  import opened Shuffle
  import Sampler
  import Text

  /** The time spent on a question so far: the time carried from earlier
      visits plus the time since it was shown. */
  function Elapsed(carry: real, start: real, now: real): real {
    (now - start) + carry
  }

  /** A timeout leaves no credit, and an answer in time at least 0.2 of it. */
  lemma TimeoutIffNoCredit(elapsed: real)
    ensures elapsed >= TIME_LIMIT_MS <==> TimeFactor(elapsed) == 0.0
    ensures elapsed < TIME_LIMIT_MS ==> TimeFactor(elapsed) >= 0.2
  {
    if elapsed < TIME_LIMIT_MS {
      assert TimeFactor(elapsed) >= 0.2 by {
        if 7000.0 < elapsed < 25000.0 {
          assert 0.2 < TimeFactor(elapsed);
        }
      }
    }
  }

  /** `q` with `extra` more milliseconds carried. */
  function Carried(q: Question, extra: real): Question {
    q.(elapsedCarryMs := q.elapsedCarryMs + extra)
  }

  /** The queue after `skipQuestion` at position `i`: the question there,
      its time carried, is taken out and pushed at the end. */
  function Requeue(queue: seq<Question>, i: nat, extra: real): (r: seq<Question>)
    requires i < |queue|
  {
    queue[..i] + queue[i + 1..] + [Carried(queue[i], extra)]
  }

  /** Skipping keeps the length of the queue, puts the skipped question last
      and keeps every other question in its order: those before `i` stay
      where they were and those after it move up by one. */
  lemma RequeueFacts(queue: seq<Question>, i: nat, extra: real)
    requires i < |queue|
    ensures var r := Requeue(queue, i, extra);
      && |r| == |queue|
      && r[|r| - 1] == Carried(queue[i], extra)
      && (forall k :: 0 <= k < i ==> r[k] == queue[k])
      && (forall k :: i <= k < |queue| - 1 ==> r[k] == queue[k + 1])
  {
    var r := Requeue(queue, i, extra);
    forall k | i <= k < |queue| - 1 ensures r[k] == queue[k + 1] {
      assert r[k] == queue[i + 1..][k - i];
    }
  }

  /** Skipping neither loses nor duplicates a question: the ids stay
      distinct, and every question is still queued, the skipped one with its
      time carried. */
  lemma RequeueKeepsQuestions(queue: seq<Question>, i: nat, extra: real)
    requires i < |queue|
    ensures var r := Requeue(queue, i, extra);
      && (forall k :: 0 <= k < |queue| && k != i ==> queue[k] in r)
      && (forall q :: q in r ==> q in queue || q == Carried(queue[i], extra))
      && (Sampler.DistinctIds(queue) ==> Sampler.DistinctIds(r))
  {
    var r := Requeue(queue, i, extra);
    RequeueFacts(queue, i, extra);
    forall k | 0 <= k < |queue| && k != i ensures queue[k] in r {
      if k < i { assert r[k] == queue[k]; } else { assert r[k - 1] == queue[k]; }
    }
    forall q | q in r ensures q in queue || q == Carried(queue[i], extra) {
      var k :| 0 <= k < |r| && r[k] == q;
      if k < i { assert q == queue[k]; } else if k < |r| - 1 { assert q == queue[k + 1]; }
    }
    if Sampler.DistinctIds(queue) {
      forall a, b | 0 <= a < b < |r| ensures r[a].id != r[b].id {
        var a' := if a < i then a else a + 1;
        var b' := if b == |r| - 1 then i else if b < i then b else b + 1;
        assert r[a].id == queue[a'].id && r[b].id == queue[b'].id && a' != b';
      }
    }
  }

  /** Skipping after a non-negative time keeps every carried time
      non-negative. */
  lemma RequeueKeepsCarries(queue: seq<Question>, i: nat, extra: real)
    requires i < |queue| && extra >= 0.0
    requires forall q :: q in queue ==> q.elapsedCarryMs >= 0.0
    ensures forall q :: q in Requeue(queue, i, extra) ==> q.elapsedCarryMs >= 0.0
  {
    RequeueKeepsQuestions(queue, i, extra);
  }

  /** The module state of the page. */
  class Game {
    const random: nat -> real
    /** The questions `loadQuestions` returned (none when it failed). */
    const allQuestions: seq<Question>
    var quizQueue: seq<Question>
    var currentIndex: nat
    var selectedAnswerCol: Option<Col>
    var questionStartTs: real
    /** `timerRaf` holds a scheduled tick. */
    var timerRunning: bool
    var playerName: string
    var streak: nat
    var rawPoints: real
    var maxRawPoints: real
    var stats: Stats
    /** How many values of `random` were drawn so far. */
    var draws: nat
    /** The options whose buttons are on the page, one button per option. */
    ghost var shownOptions: seq<AnswerOption>

    /** The state when the script was loaded. */
    constructor(allQuestions: seq<Question>, random: nat -> real)
      requires IsRandomStream(random)
      ensures this.allQuestions == allQuestions && this.random == random
      ensures quizQueue == [] && currentIndex == 0 && selectedAnswerCol == None
      ensures questionStartTs == 0.0 && !timerRunning && playerName == ""
      ensures streak == 0 && rawPoints == 0.0 && maxRawPoints == 0.0 && stats == InitialStats()
      ensures draws == 0 && shownOptions == [] && Valid()
    {
      this.random := random;
      this.allQuestions := allQuestions;
      quizQueue := [];
      currentIndex := 0;
      selectedAnswerCol := None;
      questionStartTs := 0.0;
      timerRunning := false;
      playerName := "";
      streak := 0;
      rawPoints := 0.0;
      maxRawPoints := 0.0;
      stats := InitialStats();
      draws := 0;
      shownOptions := [];
    }

    /** The scoring part of the state. */
    function Score(): ScoreState
      reads this
    {
      ScoreState(streak, rawPoints, stats)
    }

    /** There is a button for column `col` on the page. */
    ghost predicate Shows(col: Col)
      reads this
    {
      exists j :: 0 <= j < |shownOptions| && shownOptions[j].col == col
    }

    /** What holds between handlers: the cursor is within the queue, a tick
        is scheduled only for a question on screen, whose options are the
        buttons on the page, a selection is one of those buttons, the
        tallies are consistent and no question carries negative time. */
    ghost predicate Valid()
      reads this
    {
      && IsRandomStream(random)
      && currentIndex <= |quizQueue|
      && (timerRunning ==> currentIndex < |quizQueue| && shownOptions == quizQueue[currentIndex].options)
      && (selectedAnswerCol.Some? ==> Shows(selectedAnswerCol.value))
      && StatsValid(stats)
      && (forall q :: q in quizQueue ==> q.elapsedCarryMs >= 0.0)
    }

    /** `resetGameState()`; the bar widths it sets are not modelled. */
    method ResetGameState()
      modifies this`quizQueue, this`currentIndex, this`selectedAnswerCol, this`streak, this`rawPoints, this`maxRawPoints, this`stats
      ensures quizQueue == [] && currentIndex == 0 && selectedAnswerCol == None
      ensures streak == 0 && rawPoints == 0.0 && maxRawPoints == 1.0 && stats == InitialStats()
    {
      quizQueue := [];
      currentIndex := 0;
      selectedAnswerCol := None;
      streak := 0;
      rawPoints := 0.0;
      maxRawPoints := 1.0;
      stats := InitialStats();
    }

    /** `renderQuestion()` at time `now`: the selection is cleared and, when
        there is a question at the cursor, its options replace the buttons
        and its timer starts; otherwise the old buttons stay. */
    method RenderQuestion(now: real)
      modifies this`selectedAnswerCol, this`questionStartTs, this`timerRunning, this`shownOptions
      ensures selectedAnswerCol == None
      ensures currentIndex < |quizQueue| ==>
        questionStartTs == now && timerRunning && shownOptions == quizQueue[currentIndex].options
      ensures currentIndex >= |quizQueue| ==>
        questionStartTs == old(questionStartTs) && timerRunning == old(timerRunning) && shownOptions == old(shownOptions)
    {
      selectedAnswerCol := None;
      if currentIndex < |quizQueue| {
        shownOptions := quizQueue[currentIndex].options;
        questionStartTs := now;
        timerRunning := true;
      }
    }

    /** The facts `buildQuizSet` establishes about the quiz it drew from
        `all`: at most `QUIZ_SIZE` fresh copies of questions with loaded ids,
        as many as possible and all different when the loaded ids are
        distinct. */
    ghost predicate IsDrawnQuiz(quiz: seq<Question>, all: seq<Question>) {
      && |quiz| <= Sampler.QUIZ_SIZE
      && (forall q :: q in quiz ==> q.id in Sampler.Ids(all) && q.elapsedCarryMs == 0.0 && !q.answered)
      && (Sampler.DistinctIds(all) ==> Sampler.DistinctIds(quiz) && |quiz| == Sampler.Min(Sampler.QUIZ_SIZE, |all|))
    }

    /** The quiz is drawn by `buildQuizSet` from the loaded questions, which
        also sets `maxRawPoints`. */
    method DrawQuiz()
      requires IsRandomStream(random)
      modifies this`quizQueue, this`maxRawPoints, this`draws
      ensures IsDrawnQuiz(quizQueue, allQuestions)
      ensures maxRawPoints == MaxRaw(quizQueue) && draws >= old(draws)
    {
      var quiz, maxRaw, next;
      ghost var quota, used, tDiff, tArea;
      quiz, maxRaw, next, quota, used, tDiff, tArea := Sampler.BuildQuizSet(allQuestions, random, draws);
      forall q | q in quiz ensures q.id in Sampler.Ids(allQuestions) {
        Sampler.FromPoolHasLoadedId(q, allQuestions);
      }
      quizQueue, maxRawPoints, draws := quiz, maxRaw, next;
    }

    /** `startQuizFlow()` at time `now`: the state is reset, the quiz is
        drawn and its first question shown. */
    method StartQuizFlow(now: real)
      requires Valid() && !timerRunning
      modifies this`quizQueue, this`currentIndex, this`selectedAnswerCol, this`questionStartTs, this`timerRunning,
        this`streak, this`rawPoints, this`maxRawPoints, this`stats, this`draws, this`shownOptions
      ensures Valid()
      ensures IsDrawnQuiz(quizQueue, allQuestions) && maxRawPoints == MaxRaw(quizQueue)
      ensures currentIndex == 0 && selectedAnswerCol == None
      ensures streak == 0 && rawPoints == 0.0 && stats == InitialStats()
      ensures timerRunning <==> quizQueue != []
      ensures timerRunning ==> questionStartTs == now
    {
      ResetGameState();
      DrawQuiz();
      currentIndex := 0;
      RenderQuestion(now);
    }

    /** A click on the begin button with `input` in the name field:
        `playerName` is the trimmed input, or "Player" when that is empty,
        and the quiz starts. The name screen is only reachable when no tick
        is scheduled. */
    method Begin(input: string, now: real)
      requires Valid() && !timerRunning
      modifies this
      ensures Valid()
      ensures playerName == (if Text.Trim(input) == [] then "Player" else Text.Trim(input))
      ensures IsDrawnQuiz(quizQueue, allQuestions) && maxRawPoints == MaxRaw(quizQueue)
      ensures currentIndex == 0 && selectedAnswerCol == None
      ensures streak == 0 && rawPoints == 0.0 && stats == InitialStats()
      ensures timerRunning <==> quizQueue != []
      ensures timerRunning ==> questionStartTs == now
    {
      var name := Text.Trim(input);
      if name == [] {
        name := "Player";
      }
      playerName := name;
      StartQuizFlow(now);
    }

    /** A click on the button of the option in column `col`; only the
        buttons on the page can be clicked. */
    method Select(col: Col)
      requires Valid() && Shows(col)
      modifies this`selectedAnswerCol
      ensures Valid()
      ensures selectedAnswerCol == Some(col)
    {
      selectedAnswerCol := Some(col);
    }

    /** `handleAnswer(chosen, isTimeout)` at time `now`. The answer is
        scored by `Record` on the total time spent on the question, the
        question is marked answered and the cursor moves on; the next
        question is shown unless `QUIZ_SIZE` questions were answered, in
        which case the quiz finishes. Without a question at the cursor the
        handler fails on `q.elapsedCarryMs` before changing anything: `ok`
        is false. */
    method HandleAnswer(chosen: Option<Col>, isTimeout: bool, now: real) returns (ok: bool)
      requires Valid() && questionStartTs <= now
      modifies this`quizQueue, this`currentIndex, this`selectedAnswerCol, this`questionStartTs, this`timerRunning,
        this`streak, this`rawPoints, this`stats, this`shownOptions
      ensures Valid()
      ensures ok <==> old(currentIndex) < |old(quizQueue)|
      ensures !ok ==> unchanged(this)
      ensures ok ==> var i, q := old(currentIndex), old(quizQueue[currentIndex]);
        && Score() == Record(old(Score()), q, Answer(chosen, isTimeout, Elapsed(q.elapsedCarryMs, old(questionStartTs), now)))
        && quizQueue == old(quizQueue)[i := q.(answered := true)]
        && currentIndex == i + 1
      ensures ok && currentIndex < Sampler.QUIZ_SIZE ==>
        selectedAnswerCol == None && (timerRunning <==> currentIndex < |quizQueue|)
        && (timerRunning ==> questionStartTs == now)
      ensures ok && currentIndex >= Sampler.QUIZ_SIZE ==> !timerRunning
      ensures ok && (currentIndex >= |quizQueue| || currentIndex >= Sampler.QUIZ_SIZE) ==>
        shownOptions == old(shownOptions) && questionStartTs == old(questionStartTs)
      ensures ok && currentIndex >= Sampler.QUIZ_SIZE ==> selectedAnswerCol == old(selectedAnswerCol)
    {
      if currentIndex >= |quizQueue| {
        return false;
      }
      var q := quizQueue[currentIndex];
      var totalElapsed := Elapsed(q.elapsedCarryMs, questionStartTs, now);
      timerRunning := false;
      var s := Record(Score(), q, Answer(chosen, isTimeout, totalElapsed));
      streak, rawPoints, stats := s.streak, s.rawPoints, s.stats;
      quizQueue := quizQueue[currentIndex := q.(answered := true)];
      currentIndex := currentIndex + 1;
      if currentIndex < Sampler.QUIZ_SIZE {
        RenderQuestion(now);
      }
      ok := true;
    }

    /** `confirmAnswer()`: nothing without a selection, else the selected
        column is answered. */
    method ConfirmAnswer(now: real) returns (ok: bool)
      requires Valid() && questionStartTs <= now
      modifies this`quizQueue, this`currentIndex, this`selectedAnswerCol, this`questionStartTs, this`timerRunning,
        this`streak, this`rawPoints, this`stats, this`shownOptions
      ensures Valid()
      ensures ok <==> old(selectedAnswerCol).Some? && old(currentIndex) < |old(quizQueue)|
      ensures !ok ==> unchanged(this)
      ensures ok ==> var i, q := old(currentIndex), old(quizQueue[currentIndex]);
        && Score() == Record(old(Score()), q, Answer(old(selectedAnswerCol), false, Elapsed(q.elapsedCarryMs, old(questionStartTs), now)))
        && quizQueue == old(quizQueue)[i := q.(answered := true)]
        && currentIndex == i + 1
      ensures ok && currentIndex < Sampler.QUIZ_SIZE ==>
        selectedAnswerCol == None && (timerRunning <==> currentIndex < |quizQueue|)
        && (timerRunning ==> questionStartTs == now)
      ensures ok && currentIndex >= Sampler.QUIZ_SIZE ==> !timerRunning
      ensures ok && (currentIndex >= |quizQueue| || currentIndex >= Sampler.QUIZ_SIZE) ==>
        shownOptions == old(shownOptions) && questionStartTs == old(questionStartTs)
      ensures ok && currentIndex >= Sampler.QUIZ_SIZE ==> selectedAnswerCol == old(selectedAnswerCol)
    {
      if selectedAnswerCol.None? {
        return false;
      }
      ok := HandleAnswer(selectedAnswerCol, false, now);
    }

    /** One tick of the timer loop at time `now`: when the time spent on
        the question reached `TIME_LIMIT_MS` it is answered as a timeout.
        Nothing runs when no tick is scheduled; the timer bar is not
        modelled. */
    method Tick(now: real) returns (timedOut: bool)
      requires Valid() && questionStartTs <= now
      modifies this`quizQueue, this`currentIndex, this`selectedAnswerCol, this`questionStartTs, this`timerRunning,
        this`streak, this`rawPoints, this`stats, this`shownOptions
      ensures Valid()
      ensures timedOut <==> (old(timerRunning)
        && Elapsed(old(quizQueue[currentIndex]).elapsedCarryMs, old(questionStartTs), now) >= TIME_LIMIT_MS)
      ensures !timedOut ==> unchanged(this)
      ensures timedOut ==> var i, q := old(currentIndex), old(quizQueue[currentIndex]);
        && Score() == Record(old(Score()), q, Answer(None, true, Elapsed(q.elapsedCarryMs, old(questionStartTs), now)))
        && quizQueue == old(quizQueue)[i := q.(answered := true)]
        && currentIndex == i + 1 && streak == 0
      ensures timedOut && currentIndex < Sampler.QUIZ_SIZE ==>
        selectedAnswerCol == None && (timerRunning <==> currentIndex < |quizQueue|)
        && (timerRunning ==> questionStartTs == now)
      ensures timedOut && currentIndex >= Sampler.QUIZ_SIZE ==> !timerRunning
      ensures timedOut && (currentIndex >= |quizQueue| || currentIndex >= Sampler.QUIZ_SIZE) ==>
        shownOptions == old(shownOptions) && questionStartTs == old(questionStartTs)
      ensures timedOut && currentIndex >= Sampler.QUIZ_SIZE ==> selectedAnswerCol == old(selectedAnswerCol)
    {
      if !timerRunning {
        return false;
      }
      var q := quizQueue[currentIndex];
      if Elapsed(q.elapsedCarryMs, questionStartTs, now) >= TIME_LIMIT_MS {
        var ok := HandleAnswer(None, true, now);
        timedOut := true;
      } else {
        timedOut := false;
      }
    }

    /** `skipQuestion()` at time `now`: the question at the cursor carries
        the time spent on it and goes to the end of the queue; the cursor
        stays, so the next question is shown. Without a question at the
        cursor the handler fails before changing anything: `ok` is false. */
    method SkipQuestion(now: real) returns (ok: bool)
      requires Valid() && questionStartTs <= now
      modifies this`quizQueue, this`selectedAnswerCol, this`questionStartTs, this`timerRunning, this`shownOptions
      ensures Valid()
      ensures ok <==> currentIndex < |old(quizQueue)|
      ensures !ok ==> unchanged(this)
      ensures ok ==> quizQueue == Requeue(old(quizQueue), currentIndex, now - old(questionStartTs))
      ensures ok ==> selectedAnswerCol == None && timerRunning && questionStartTs == now
    {
      if currentIndex >= |quizQueue| {
        return false;
      }
      RequeueKeepsCarries(quizQueue, currentIndex, now - questionStartTs);
      quizQueue := Requeue(quizQueue, currentIndex, now - questionStartTs);
      timerRunning := false;
      RenderQuestion(now);
      ok := true;
    }
  }
}
