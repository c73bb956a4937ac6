# Quiz session engine — a Dafny model

This project models the engine of the Age of Empires IV quiz page: `app.js`.
The engine does five things:

- It reads the question sheet: it splits the CSV text into lines, picks the
  delimiter, splits each line into fields, and validates rows into questions.
- It draws a balanced quiz of 24 questions. Difficulty, area and type quotas
  steer the draw, which uses buckets, a random area and a backfill.
- It runs the quiz: it shows questions, times them with a 30-second limit,
  lets the player skip (the question goes to the end with its time carried),
  and confirms answers.
- It scores every answer: a time factor, a streak multiplier, and tallies per
  difficulty plus "fast wrong" multiple-choice answers.
- At the end it computes the 0–1000 score, the anti-guess factors, the final
  score and the badge.

## How the model is laid out

| module | file | what it models |
|---|---|---|
| `Text` | text.dfy | JavaScript's `trim` and first-match `replace`, and the case mappings of `toUpperCase` and `toLowerCase` on the letters that decide the engine's comparisons, on `seq<char>` |
| `Numbers` | numbers.dfy | `Math.min`, `Math.max`, `clamp` and `Math.round`, on reals and integers |
| `Csv` | csv.dfy | `parseCSV` and `parseCSVLine` |
| `Questions` | questions.dfy | the question record, `mapRowToQuestion`, the row loop of `loadQuestions`, `canon`, `structuredCloneQuestion` |
| `Shuffle` | shuffle.dfy | `shuffleInPlace`, as a Fisher–Yates loop on an `array` |
| `Scoring` | scoring.dfy | `timeFactorFromElapsed`, the streak multiplier, `computeMaxRaw`, and the scoring part of `handleAnswer` |
| `Sampler` | sampler.dfy | `buildQuizSet` with its helper `pickOne` |
| `Session` | session.dfy | the page's module state and its handlers |
| `Finalize` | result.dfy | `computeAntiGuessFactors`, `pickBadge` and `showResult` |

How the source's forms are mapped:

- **Pure helpers** become functions with named results, plus lemmas about them.
- **Loops** become methods with `while`/`for` loops. Each is proved against a
  recursive specification function:
  - `parseCSVLine` against `Scan`
  - the row loops against `Accepted`
  - `shuffleInPlace` against `Shuffled`
  - `computeMaxRaw` against `MaxRaw`
  - `pickBadge` against `LastReached`
- **`buildQuizSet`** is the class `Sampler.QuizSampler`. The state its closure
  `pickOne` shares becomes fields:
  - `byBucket`, `usedIds` and `picked`
  - the targets: the area and difficulty targets go as sequences in the fixed
    key orders `AREA_ORDER` and `DIFF_ORDER`, the type targets as `targetMC` and
    `targetTF`
- **The page's `let` variables** are the fields of the class `Session.Game`.
  Each event handler is a method.

Two kinds of input become parameters:

- `Math.random()` is a stream `random: nat -> real` with values in [0, 1),
  and a draw counter `draws` says how many values were used.
- `performance.now()` is the parameter `now` of the handler that reads it.
  The numeric reading of a question's value cell is the parameter `number`.

Behaviour of `app.js` that the model keeps as written:

- `pickOne`'s second, "relaxed" pass over MC and TF (app.js:297-307) can never
  succeed. The typed pass has already emptied both buckets of that area and
  difficulty. `Sampler.QuizSampler.PickOne` asserts this.
- A question found in another area lowers the target of the area that was
  DRAWN, not of the area that supplied it (app.js:318-330).
  `Sampler.QuizSampler.FillOne` states this.
- The backfill takes pool entries by id. It does not check that their ids differ
  from one another (app.js:334-341). So the model proves distinct ids, and
  exactly `min(24, pool size)` questions, only for loaded questions whose ids
  are distinct.
- A difficulty other than Easy, Medium, Hard or Elite is not tallied
  (app.js:499-503).
- A true/false row whose answer is H or I is accepted, and its answer is then
  not among its two options (app.js:195, 205).
- Raw points can exceed `maxRawPoints` (`Scoring.RawCanExceedMax`).
  `computeMaxRaw` gives the streak bonus in the quiz's order, while a player
  answers in a different order after skips.
- The quiz ends on `currentIndex >= QUIZ_SIZE` (app.js:532), not on the queue's
  length. With fewer than 24 questions, the last answer renders nothing
  (app.js:411) and no timer runs. `Session.Game.HandleAnswer` states this:
  the timer runs again only while `currentIndex < |quizQueue|`.
- `parseCSV` returns `[]` for text without a non-blank line and `{rows, delim}`
  otherwise (app.js:139, 147). The two cases are `Csv.ParsedCsv.NoLines` and
  `Csv.ParsedCsv.Table`. `loadQuestions` reads `.rows` of `[]` (undefined),
  which makes its loop throw. `Questions.CollectQuestions` returns `None` there.
- `skipQuestion` and `handleAnswer` on a missing question throw a
  `TypeError`. The model returns `ok == false` and changes nothing.

## Model

| member | source | states |
|---|---|---|
| `Text.TrimIsSlice` | app.js:132-134 | `trim` returns a contiguous slice of its input, with only white space cut on either side, and neither end of the result is white space |
| `Text.TrimStartCuts` | app.js:132-134 | the leading cut is a blank prefix, and the rest starts with a non-space |
| `Text.TrimEndCuts` | app.js:132-134 | the trailing cut is a blank suffix, and the rest ends with a non-space |
| `Text.TrimOfClean` | app.js:132-134 | a string with no white space at either end is its own `trim` |
| `Text.TrimEmptyIffBlank` | app.js:138 | `trim` yields the empty string exactly when every character is white space (the non-blank line filter) |
| `Text.TrimIdempotent` | app.js:132-134 | trimming twice is trimming once |
| `Text.UpperCharOf` | app.js:182-183 | a character upper-cases to a capital exactly when it is that capital, its small letter, or `ı` for `I` |
| `Text.LowerCharOf` | app.js:192 | a character lower-cases to a small letter exactly when it is that letter or its capital |
| `Text.ToUpperMatches` | app.js:182-183 | a string upper-cases to a word of capitals exactly when it has its length and each character is the capital, its small letter, or `ı` for `I` |
| `Text.ToLowerMatches` | app.js:192 | a string lower-cases to a word of small letters exactly when it has its length and each character is the letter or its capital |
| `Text.IndexOf` | app.js:181 | the first position of the character, or the length when it is absent |
| `Numbers.Min` | app.js:382 | the result is the smaller argument |
| `Numbers.Max` | app.js:130 | the result is the larger argument |
| `Numbers.Clamp` | app.js:130 | within the bounds; equals `x` inside them; the nearer bound outside them |
| `Numbers.ClampWhole` | app.js:596 | the clamp of a whole number, within the bounds |
| `Numbers.Round` | app.js:595 | `Math.round`: the whole number within one half of `x`, halves rounded up |
| `Numbers.RoundMonotonic` | app.js:595 | rounding preserves order |
| `Numbers.RoundOfInteger` | app.js:595 | a whole number rounds to itself |
| `Csv.ParseCsvLine` | app.js:150-175 | the loop returns the trimmed fields of the quote-aware scan `Scan` |
| `Csv.ScanCount` | app.js:150-175 | the scan yields one field more than the delimiters met outside quotes |
| `Csv.FieldCount` | app.js:150-175 | a line has 1 + (delimiters outside quotes) fields |
| `Csv.ScanContent` | app.js:154-172 | the scan's fields hold exactly the line's characters that are not quotes and not delimiters outside quotes |
| `Csv.ScanQuotes` | app.js:156-164 | the fields hold at most half as many quote characters as the scanned text |
| `Csv.FieldCharacters` | app.js:154-172 | the fields hold exactly the line's characters that are not quotes and not delimiters outside quotes, and at most half as many quotes as the line |
| `Csv.ScanEscaped` | app.js:156-164 | a doubled quote inside quotes gives one quote, and a closing quote leaves quoted mode |
| `Csv.ScanJoinQuoted` | app.js:150-175 | scanning quoted fields joined by the delimiter yields the fields |
| `Csv.QuotedRoundTrip` | app.js:150-175 | parsing fields written quoted, with inner quotes doubled, gives the fields back |
| `Csv.ScanPlain` | app.js:166-172 | a run without quotes or delimiters goes into the current field unchanged |
| `Csv.ScanJoin` | app.js:166-172 | scanning plain fields joined by the delimiter yields the fields |
| `Csv.PlainRoundTrip` | app.js:150-175 | parsing plain fields joined by the delimiter gives the fields back |
| `Csv.ReplaceCr` | app.js:138 | same length, and no carriage return is left |
| `Csv.SplitLines` | app.js:138 | at least one line, and no line holds a line feed |
| `Csv.SplitLinesJoin` | app.js:138 | joining the split lines with line feeds gives the text back |
| `Csv.NonBlank` | app.js:138 | keeps exactly the lines whose trim is non-empty |
| `Csv.NonBlankConcat` | app.js:138 | filtering keeps order: the kept lines of two blocks are those of the first followed by those of the second |
| `Csv.NonBlankFirst` | app.js:138-141 | nothing is kept exactly when every line is blank, and the first kept line (the header) is the first non-blank line |
| `Csv.Lines` | app.js:138 | every line kept is non-blank and holds no line break |
| `Csv.DelimiterOf` | app.js:141-142 | `;` exactly when the header holds `;`, else `,` |
| `Csv.ParseRows` | app.js:143-146 | one row per line, each the parsed fields of its line |
| `Csv.ParseCsv` | app.js:137-148 | `NoLines` exactly when there is no non-blank line; otherwise the header's delimiter and one parsed row per line |
| `Questions.KindOf` | app.js:194 | a type exactly for `MC` or `TF`, and it names that text |
| `Questions.ColOf` | app.js:195 | a column exactly for F, G, H or I, and it names that text |
| `Questions.KindSpellings` | app.js:182-194 | the type cell is accepted as MC exactly for `MC`, `Mc`, `mC`, `mc`, and as TF for the four spellings of `TF` |
| `Questions.ColSpellings` | app.js:183-195 | the answer cell names F, G or H exactly in either case, and I also as `ı` |
| `Questions.HeaderSpellings` | app.js:192 | an id is taken for the header exactly when it spells `questid` in any mix of cases |
| `Questions.MapRowToQuestion` | app.js:177-220 | a question exactly when the row passes the four checks, with the trimmed id and prompt, the upper-cased type and answer, the options, the trimmed area or `Unknown` when it is blank, the trimmed difficulty or `Medium` when it is blank, and fresh runtime fields |
| `Questions.AcceptedColumns` | app.js:197-205 | an accepted question's options are in column order, and a multiple-choice answer is one of its options |
| `Questions.TrueFalseColumns` | app.js:205 | a true/false question has no H or I option |
| `Questions.TrueFalseRowAccepted` | app.js:192-195 | a true/false row with answer H passes the checks |
| `Questions.TrueFalseAnswerOutsideOptions` | app.js:195-205 | that row becomes a question whose answer H is not among its options |
| `Questions.CollectQuestions` | app.js:226-235 | `None` exactly for the `[]` result; otherwise, in order, the questions accepted from the rows after the header |
| `Questions.AcceptedStep` | app.js:230-234 | one step of the row loop keeps the accepted questions in order |
| `Questions.Accepted` | app.js:230-234 | no more questions than rows, each with an id, a prompt and no carried time |
| `Questions.CanonIdempotent` | app.js:240-248 | `canon` of a canonical label is that label |
| `Questions.CanonLabel` | app.js:242-247 | every canonical label is trimmed and maps to itself |
| `Questions.CanonExamples` | app.js:240-248 | `" eLiTe "` becomes `Elite`; an unknown label stays as trimmed |
| `Shuffle.RandomIndex` | app.js:371 | the whole part of `r` times `n` is an index below `n` |
| `Shuffle.SwapPermutes` | app.js:372 | a swap permutes the sequence |
| `Shuffle.ShuffleFromPermutes` | app.js:369-374 | the rest of the Fisher–Yates loop permutes the sequence |
| `Shuffle.ShuffledPermutes` | app.js:369-374 | the shuffle permutes the sequence |
| `Shuffle.SwapAt` | app.js:371-372 | one in-place step takes the array one step through the specification |
| `Shuffle.ShuffleInPlace` | app.js:369-374 | the array becomes `Shuffled` of its old contents, a permutation of them, using `length - 1` draws |
| `Scoring.TimeFactor` | app.js:389-397 | 1 up to 7 s; from 7 s to 25 s the linear value 1 − 0.8 × (t − 7 s)/18 s, strictly between 0.2 and 1 (0.6 at 16 s); 0.2 up to 30 s; 0 from 30 s |
| `Scoring.TimeFactorMonotonic` | app.js:389-397 | a longer time never earns a larger factor |
| `Scoring.TimeFactorLipschitz` | app.js:392-394 | before the limit, the factor falls by at most 0.8 per 18 s |
| `Scoring.StreakMultiplier` | app.js:514 | 1 + 0.05 per streak step, capped at 1.25 |
| `Scoring.StreakMultiplierMonotonic` | app.js:514 | a longer streak never lowers the multiplier |
| `Scoring.InitialStats` | app.js:724-727 | the four difficulty tallies at zero and no fast-wrong answers |
| `Scoring.Record` | app.js:494-519 | a correct answer extends the streak and adds value × time factor × multiplier; a wrong one resets the streak; only the answer's difficulty tally moves; a wrong multiple-choice answer counts as wrong, and as fast within 3 s; consistent tallies stay consistent |
| `Scoring.MaxRaw` | app.js:376-386 | the maximum is never 0 (`max \|\| 1`) |
| `Scoring.ComputeMaxRaw` | app.js:376-386 | the loop computes `MaxRaw`, the raw points of a perfect run in quiz order |
| `Scoring.PerfectRun` | app.js:376-386 | answering every question correctly within 7 s in quiz order earns exactly the raw maximum |
| `Scoring.InOrderBounded` | app.js:494-519 | with non-negative values, answers in quiz order never earn more than a perfect run |
| `Scoring.GainBounded` | app.js:512-516 | one answer gains at most value × the next multiplier |
| `Scoring.CorrectGainBounded` | app.js:512-516 | a correct answer gains at most value × the next multiplier |
| `Scoring.RawCanExceedMax` | app.js:376-386 | two questions answered out of quiz order earn 110 raw points against a maximum of 105 |
| `Sampler.KeyOfTypes` | app.js:258 | the MC and TF buckets of one area and difficulty differ |
| `Sampler.PoolChangesOnlyLabels` | app.js:250-255 | a pool entry is its loaded question with only the area and the difficulty replaced, by their `canon` labels |
| `Sampler.BucketOfMembers` | app.js:259-263 | a bucket holds exactly the pool entries with its key |
| `Sampler.Unused` | app.js:336 | exactly the pool entries whose id is not used |
| `Sampler.UnusedCount` | app.js:336 | with distinct ids, the unused entries are the pool size minus the used ids |
| `Sampler.UnusedDistinct` | app.js:336 | the unused entries of a pool with distinct ids have distinct ids |
| `Sampler.PopClones` | app.js:338-341 | popping `n` gives copies of the last `n` entries, last first |
| `Sampler.PopClonesFacts` | app.js:338-341 | the popped copies come from the pool and keep distinct ids |
| `Sampler.Needing` | app.js:315 | exactly the areas whose target is positive |
| `Sampler.ShuffledFacts` | app.js:266 | a shuffled bucket has the same members and keeps distinct ids |
| `Sampler.TakeValid` | app.js:289-291 | taking an unused entry keeps `usedIds` equal to the ids of `picked` |
| `Sampler.PopValid` | app.js:286-292 | one pass of pops keeps the buckets, the stock and `picked` consistent |
| `Sampler.Insert` | app.js:259-263 | adding a question keeps the buckets; a new key goes to the end, so the keys stay in the order of their first appearance |
| `Sampler.Distribute` | app.js:257-264 | the buckets hold the pool by key, and the keys are ordered by their first appearance in the pool |
| `Sampler.FirstSeenKeys` | app.js:259-263 | the first-appearance order lists each key of the pool exactly once, and no other |
| `Sampler.PopUntilUnused` | app.js:286-289 | pops up to the last unused entry and takes it, or empties a bucket holding only used entries |
| `Sampler.ShuffleAllPermutes` | app.js:266 | shuffling every bucket keeps its keys and permutes each bucket |
| `Sampler.ShuffleAllValid` | app.js:266 | shuffling every bucket keeps them drawn from the pool and stocked |
| `Sampler.KeySplit` | app.js:258 | on labels without `\|`, equal keys have equal area, difficulty and type |
| `Sampler.TookOneFacts` | app.js:289-291 | a pick adds one question of its difficulty and none of another |
| `Sampler.NoneFound` | app.js:320-326 | when no wanted area has stock, the difficulty is exhausted |
| `Sampler.AreaWanted` | app.js:314-316 | while a difficulty target is positive, some area target is positive too |
| `Sampler.CountsStep` | app.js:313-330 | a pick with both targets lowered keeps the quota bookkeeping |
| `Sampler.DrawnArea` | app.js:318-319 | the random area is one still wanted |
| `Sampler.InitialCounts` | app.js:273-275 | the quota tables start consistent |
| `Sampler.Popped` | app.js:284-294 | pops the bucket down to its LAST unused entry and takes it, every entry popped above it being used; or empties the bucket when none is left |
| `Sampler.PopInto` | app.js:338-341 | the backfill loop appends popped copies up to 24 |
| `Sampler.BackfillFacts` | app.js:334-341 | after the backfill there are at most 24 questions, all copies of pool entries; with distinct pool ids they have distinct ids and number `min(24, pool size)` |
| `Sampler.BackfillKeepsCounts` | app.js:334-341 | the backfill only appends, so no difficulty loses questions |
| `Sampler.CountDiffConcat` | app.js:338-341 | the per-difficulty count of a concatenation is the sum of the counts |
| `Sampler.CountDiffPermutation` | app.js:345-346 | reordering a quiz, as the final shuffle does, keeps every difficulty's count |
| `Sampler.QuizSampler.constructor` | app.js:250-275 | the pool is canonicalised, buckets and picks are empty, and the type targets are 18 and 6 |
| `Sampler.QuizSampler.FillBuckets` | app.js:257-264 | the buckets hold the pool by key, with the keys in first-appearance order |
| `Sampler.QuizSampler.FilledValid` | app.js:257-264 | the filled buckets satisfy the sampler's invariant |
| `Sampler.QuizSampler.ShuffleBucket` | app.js:266 | the bucket becomes its shuffle, and the other buckets are untouched |
| `Sampler.QuizSampler.ShuffleBuckets` | app.js:266 | every bucket is shuffled in insertion order, and the invariant is kept |
| `Sampler.QuizSampler.PopUnused` | app.js:284-295 | found exactly when the bucket holds an unused entry; then the LAST one is picked, the bucket keeps only the entries below it, and its type target is lowered (not below 0); otherwise the bucket is left empty |
| `Sampler.QuizSampler.PickOne` | app.js:281-309 | succeeds exactly when the area and difficulty have an unused entry of either type; the type tried first is MC unless the TF target is larger, the other type is taken only when the first has none left, and only the target of the type taken is lowered (not below 0) |
| `Sampler.QuizSampler.TryAreas` | app.js:322-324 | picks from the first listed area with stock, every area before it being out of stock, or finds every listed area out of stock |
| `Sampler.QuizSampler.PickInArea` | app.js:318-326 | picks from the drawn area, or, when that has no stock, from a wanted area; otherwise the difficulty is exhausted |
| `Sampler.QuizSampler.FillOne` | app.js:313-330 | draws an area; on success, the question comes from that area or another wanted one, and the difficulty target and the DRAWN area's target are lowered; otherwise stops with the difficulty exhausted |
| `Sampler.QuizSampler.FillStep` | app.js:313-331 | one round keeps the bookkeeping, and either lowers the difficulty target or stops |
| `Sampler.QuizSampler.FillTier` | app.js:312-332 | a difficulty loop ends with its target met or its stock exhausted |
| `Sampler.QuizSampler.FillQuotas` | app.js:312-332 | after all four tiers, each difficulty met its quota or ran out of stock in every wanted area |
| `Sampler.QuizSampler.Backfill` | app.js:334-341 | `picked` becomes the specified backfill of the unused pool entries |
| `Sampler.QuizSampler.ShufflePicked` | app.js:345-346 | `picked` becomes its shuffle |
| `Sampler.QuizSampler.QuotaPhase` | app.js:257-332 | the quota phase picks at most 24 distinct copies of pool entries, keeps the quota bookkeeping, and leaves each difficulty at its quota or out of unused entries in every area still wanted |
| `Sampler.QuizSampler.CompletePhase` | app.js:334-351 | the result holds at most 24 copies of pool entries; with distinct pool ids they have distinct ids and number `min(24, pool size)`; no difficulty holds fewer questions than after the quota phase |
| `Sampler.CloneIsFresh` | app.js:354-367 | a copy has no carried time and is not answered |
| `Sampler.FromPoolHasLoadedId` | app.js:250-254 | a copy of a pool entry has the id of a loaded question |
| `Sampler.BuildQuizSet` | app.js:238-351 | at most 24 fresh copies of loaded questions; with distinct ids, distinct ids and `min(24, loaded)` of them; `maxRawPoints` of the drawn set; the quota phase's picks, used ids and leftover targets are consistent (picks plus difficulty targets make 24 per tier, area targets sum to the same total); and each difficulty holds at least its quota, unless the quota phase ran out of unused entries of it in every area still wanted |
| `Sampler.ShortTierOutOfStock` | app.js:312-326 | a difficulty the quota phase left short has some area still wanted in which no unused entry of that difficulty is left |
| `Session.TimeoutIffNoCredit` | app.js:451-455 | the timer fires exactly when the time factor has dropped to 0; before that an answer earns at least 0.2 |
| `Session.RequeueFacts` | app.js:473-477 | the skipped question moves to the end with its time carried; the others keep their order |
| `Session.RequeueKeepsQuestions` | app.js:475-477 | a skip loses no question, adds none, and keeps ids distinct |
| `Session.RequeueKeepsCarries` | app.js:469-470 | carried times stay non-negative |
| `Session.Game.constructor` | app.js:108-123 | the page's initial state, with `maxRawPoints` 0 |
| `Session.Game.ResetGameState` | app.js:717-730 | queue emptied, cursor 0, no selection, scores reset, `maxRawPoints` 1 |
| `Session.Game.RenderQuestion` | app.js:406-437 | the selection is cleared; with a question at the cursor its options become the buttons on the page and its timer starts at `now`; otherwise buttons and timer stay |
| `Session.Game.DrawQuiz` | app.js:737 | the queue is a fresh balanced draw, and `maxRawPoints` is its maximum |
| `Session.Game.StartQuizFlow` | app.js:732-744 | a reset, a fresh draw, the cursor at 0, and the timer running from `now` exactly when the quiz is not empty |
| `Session.Game.Begin` | app.js:758-763 | the player name is the trimmed input, or `Player` when that is empty, and a quiz starts |
| `Session.Game.Select` | app.js:424-430 | only a column whose button is on the page can be clicked; it becomes the selection, and the state stays valid |
| `Session.Game.HandleAnswer` | app.js:488-537 | the scores are `Record` of the answer, timed with the carried time; the question is marked answered and the cursor advances; the next question is rendered unless 24 were answered; when nothing is rendered, the buttons and the start time stay, and after the 24th answer so does the selection |
| `Session.Game.ConfirmAnswer` | app.js:483-486 | nothing without a selection; otherwise what `handleAnswer` of the selected column does: `Record` of the answer, the question marked answered, the cursor advanced, the selection cleared and the timer restarted at `now` exactly while questions remain, unless 24 were answered; when nothing is rendered the buttons, the start time and (after the 24th answer) the selection stay |
| `Session.Game.Tick` | app.js:444-457 | it times out exactly when a tick is scheduled and the carried plus elapsed time reaches 30 s; the answer is then scored as a timeout, the streak reset, the question marked answered and the next one rendered as in `handleAnswer`, with the buttons, the start time and the selection kept as there when nothing is rendered |
| `Session.Game.SkipQuestion` | app.js:467-480 | the question at the cursor goes to the end with its elapsed time carried; the cursor stays; the next question is rendered from `now` |
| `Finalize.Accuracy` | app.js:540-544 | between 0 and 1; positive exactly when some answer was correct; 1 exactly when all were |
| `Finalize.FastWrongRate` | app.js:556-558 | between 0 and 1, and positive exactly when a fast wrong answer exists |
| `Finalize.AntiGuessFactors` | app.js:539-565 | consistency is in [0.6, 1], and 1 exactly when no penalty applies; guess is 1, 0.9 or 0.8: 1 exactly below a 40% fast-wrong rate, 0.8 exactly from 55% |
| `Finalize.NoEasyAnswerPenalized` | app.js:540-550 | a player who answered no easy question loses consistency |
| `Finalize.Denominator` | app.js:595 | `maxRawPoints \|\| 1` is never 0 |
| `Finalize.QuotientBounds` | app.js:542-543 | a part of a positive whole lies in [0, 1], and equals 1 exactly when it is the whole |
| `Finalize.NormalizedScore` | app.js:595-596 | in [0, 1000]; the rounded per-mille of the maximum; 1000 from the maximum on |
| `Finalize.NormalizedScoreMonotonic` | app.js:595-596 | more raw points never give a lower score |
| `Finalize.ScaledBetween` | app.js:600 | the factors keep the product between 0.48 × score and the score |
| `Finalize.FinalScore` | app.js:600 | in [0, 1000] |
| `Finalize.FinalScoreBounds` | app.js:600 | the final score lies between the rounded 0.48 × score and the score, and equals it without penalties |
| `Finalize.BadgesAscending` | app.js:32-39 | the badge thresholds rise strictly from 0 |
| `Finalize.LastReachedIsBest` | app.js:584-591 | on rising thresholds, the scan returns the reached badge with the highest threshold, else the first badge |
| `Finalize.PickBadge` | app.js:584-591 | the loop returns the scan's result |
| `Finalize.BadgeIsBest` | app.js:584-591 | the badge is the highest one whose threshold the score reaches |
| `Finalize.BadgeMonotonic` | app.js:584-591 | a higher score never earns a lower badge |
| `Finalize.ShowResult` | app.js:593-603 | final score ≤ normalised score ≤ 1000, and the badge is the highest reached |
| `Finalize.FlawlessQuizWins` | app.js:593-603 | all correct, easy questions included, with no fast wrong answer and the maximum raw points: 1000 and Conqueror |

## Left out

- carousel.js is not part of this model. It is the landing screen's image carousel and does not touch the quiz state.
- `loadQuestions`' `fetch` of the sheet: network I/O. The text it would get is an input; only the parsing and the row loop are modelled.
- `Session.Game.constructor`: the model starts once loading has finished, with the loaded questions as the constant `allQuestions`. In the source `allQuestions` is a variable that starts empty and is set when `loadQuestions` resolves at start-up (app.js:108, 802); a quiz begun before that draws from no questions, which the model does not cover.
- `showScreen`, the DOM building in `renderQuestion`, `updateTopProgress`, the timer and loading bars, the sound effects (`playSfx`, `unlockAudio`): presentation only, with no effect on the state.
- `finishQuiz`'s 10-second loading animation: a `requestAnimationFrame` loop that only delays the call. `Finalize.ShowResult` is the result computed from the final `rawPoints`, `maxRawPoints` and `stats`.
- The result screen's share, image and clipboard code: browser I/O.
- `requestAnimationFrame` scheduling: a scheduled tick is the flag `timerRunning`, and a frame is a call to `Session.Game.Tick` at some `now`.
- `Math.random` and `performance.now`: they become the stream `random` and the parameter `now`. The handlers require that time does not run backwards (`questionStartTs <= now`).
- IEEE-754 arithmetic: the model computes on exact reals. `Number()` parsing is the parameter `number`; its `NaN` and the fallback to zero are not modelled.
- `Session.Game.Begin`: requires that no timer runs. The name screen is only reachable when no timer runs, and the model does not model the screens.
- `Session.Game.DrawQuiz`: states where the drawn questions come from by their ids. The stronger fact, that each is a copy of a canonicalised pool entry, is stated by `Sampler.BuildQuizSet`, and so are the quota facts (each difficulty's quota is met unless its stock ran out); `DrawQuiz` does not repeat them.
- `Sampler.KeySplit`: needs labels without `|`. The model builds the same `area||difficulty||type` key as the source, so two buckets that share a key in the source share it in the model too; only this lemma, which recovers the three labels from a key, does not hold for labels containing `|`.
- `Questions.Canon` and `Questions.CanonIdempotent`: `canon` looks the lower-cased label up in an object literal, which also answers for the names that every object inherits (`constructor`, `__proto__`, `toString`, `valueOf`, `hasOwnProperty` and the like) with a function or an object instead of the label. The model keeps the trimmed label for these; it does not promise what the source does with an area or difficulty spelled like one of them.
- `Text.ToUpper` and `Text.ToLower`: map only the ASCII letters, plus `ı` to `I` in upper case. The full Unicode case mappings (`é`, `ß`, ligatures and so on) are not modelled. The engine only compares the results with `MC`, `TF`, F–I and `questid`; the model takes the letters of these words, and `ı` (the one other character whose upper case is `I`), to be the only characters that map onto them, and `Text.ToUpperMatches`, `Text.ToLowerMatches` and the spelling lemmas state which cells are accepted under that reading.
- The JavaScript objects' aliasing: marking a question answered and the skip's update of its carried time act on the queue entry itself, which the model writes as an update of the `quizQueue` sequence.
