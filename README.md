# fobbage quiz engine — a verified model

fobbage is a party quiz in the style of "Fibbage". A host runs a **session** of a quiz
for a roster of **players**. The session is played in **rounds**; each round has a
question quota and a score multiplier, kept in the session's settings. Every question
played becomes a **fobbit**, which moves through the statuses BLUFF → GUESS → FINISHED:

- while BLUFF, every player writes a fake answer, a **bluff**;
- once as many bluffs exist as players, the engine generates the **answers**: the true
  answer plus the bluffs, with bluffs that agree up to letter case folded into one
  answer, shuffled and numbered 1..N;
- while GUESS, every player picks one answer, a **guess**;
- once everybody has guessed, the host finishes the fobbit and points are awarded.
  A correct guess earns 1000 × multiplier. A bluff earns 500 × multiplier for each
  guess on its answer, split evenly among the bluffs folded into that answer.

The model covers the engine in `fobbage/quizes/models.py`:

- the session's round bookkeeping (`rounds`, `active_round`, `questions_in_round`,
  `Fobbit.multiplier`);
- the progression through questions (`next_question`, `generate_fobbit`, `new_round`);
- answer generation (`generate_answers`) and the bluff-created trigger that starts it;
- the fobbit lifecycle (`reset`, `delete_answers`, `finish`, `players_without_guess`,
  `players_without_bluff`);
- all scoring (`Bluff.score`, `Guess.score`, `Fobbit.score_for_player`,
  `Session.score_for_player`).

Module layout:

| module | file | contents |
|---|---|---|
| `Entities` | `entities.dfy` | the rows: questions, round settings, fobbits with their answers, bluffs and guesses; Python list indexing; `iexact` comparison |
| `Queries` | `queries.dfy` | `.filter().first()`, `.filter().count()` and `.get()` over a table in id order |
| `Rounds` | `rounds.dfy` | `questions_in_round` and `Fobbit.multiplier` |
| `Scoring` | `scoring.dfy` | the four scoring methods |
| `Generation` | `generation.dfy` | the generation guard, the bluff fold, shuffle-and-number, the whole of `generate_answers` on one row |
| `Lifecycle` | `lifecycle.dfy` | bluff and guess submission, `reset`, `delete_answers`, `finish` on one row |
| `Progression` | `progression.dfy` | the persisted session state, `next_question`, `generate_fobbit`, `new_round` |
| `Sessions` | `session.dfy` | the `Session` class whose methods change that state in place |
| `Scenario` | `scenario.dfy` | a worked two-player fobbit that checks the formulas on concrete rows |

Modelling choices. Each is described once here; where the code and its comments differ, the code is followed:

- A fobbit row is a value holding its own answer, bluff and guess tables.
  An answer's id is its position in the fobbit's answer table.
  This is sound because the core only ever deletes all of a fobbit's answers at once.
- Deleting answers brings the schema's cascades with it: guesses on them are deleted
  (`on_delete=CASCADE`) and bluff links to them become null (`SET_NULL`).
- The session's mutable fields live in the class `Sessions.Session`.
  Each of its methods is proved against a function of the old persisted state (`Progression.State`)
  or, where the shuffle makes the result nondeterministic, against a relation on it (`Progression.AnswersStep`).
  `ScoreForPlayer` changes nothing and is proved equal to `Scoring.TotalScore`.
- `random.shuffle` is an arbitrary permutation chosen with `:|`: every property is proved for every shuffle.
- Exceptions become explicit results:
  - a missing question is `Outcome.NoQuestionLeft`;
  - a `.get()` that finds no row or several rows is `None`;
  - `Guess.score` falling off the end of the method is `None`;
  - `finish` raising is a `false` return with nothing changed.
- Python's negative list indexing is written out (`Entities.PyIndex`). With no active fobbit
  the active round is -1, so the **last** configured round's quota and multiplier apply.
- Scores and round multipliers are exact reals: a multiplier is a JSON number and may be
  fractional. The source's `/` is true division.
- Quirks of the code that the model keeps because the code has them:
  - `new_round` sets the modus to BLUFFING (0), although its comment says "return to guessing".
  - `generate_answers` counts bluffs against the number of players; it does not check who bluffed (`Generation.CountNotMembership`).
  - A bluff equal to the truth (up to case) is linked to the correct answer.
  - When `next_question` fails inside `generate_answers`, the new answers and status are already saved.
  - `finish` does not look at the current status.
  - Only a newly created bluff fires the trigger; an edited bluff never does.
  - Nothing stops a player from guessing twice, and a second guess makes that player's score a `.get()` failure.

## Model

| member | source | states |
|---|---|---|
| `Queries.FirstWhere` | fobbage/quizes/models.py:406-408 | the result is the least index whose row matches, or None when no row matches |
| `Queries.CountWhere` | fobbage/quizes/models.py:142 | the count is at most the table size and is 0 exactly when no row matches |
| `Queries.CountWhereCounts` | fobbage/quizes/models.py:418-421 | the count is exactly the number of rows that match, as `.count()` and `len(filter(...))` return |
| `Queries.GetWhere` | fobbage/quizes/models.py:308-309 | Some(i) only when row i is the one matching row; None when no row or at least two rows match |
| `Rounds.QuestionsInRound` | fobbage/quizes/models.py:129-134 | `Session.questions_in_round`; its contract is stated by `QuestionsInRoundCases` and `MinusOneIsLastRound` |
| `Rounds.QuestionsInRoundCases` | fobbage/quizes/models.py:129-134 | the quota of a round, indexed from the front or (negative index) from the back; 0 on an IndexError |
| `Rounds.Multiplier` | fobbage/quizes/models.py:222-231 | `Fobbit.multiplier`; its contract is stated by `MultiplierCases`, `MinusOneIsLastRound` and `MultiplierPositive` |
| `Rounds.MultiplierCases` | fobbage/quizes/models.py:222-231 | 1 with no rounds; the indexed round's (possibly fractional) multiplier; `round + 1` when the index is out of range |
| `Rounds.MinusOneIsLastRound` | fobbage/quizes/models.py:119-134 | round -1 (no active fobbit) reads the quota and multiplier of the last configured round |
| `Rounds.MultiplierPositive` | fobbage/quizes/models.py:222-231 | for rounds >= -1 and positive configured multipliers every fallback is positive |
| `Generation.CanGenerate` | fobbage/quizes/models.py:259-267 | the three guards of `generate_answers`: a non-empty roster, as many bluffs as players, status below GUESS; see `GenerationGuarantees`, `FinishedIsFinal`, `ResetReopensBluffing` and `CountNotMembership` |
| `Generation.PlayersWithoutBluff` | fobbage/quizes/models.py:239-243 | a player is listed iff rostered and owning no bluff of the fobbit |
| `Generation.CountNotMembership` | fobbage/quizes/models.py:259-267 | generation can be allowed while a rostered player has not bluffed, because the guard compares counts |
| `Generation.PlayersWithoutGuess` | fobbage/quizes/models.py:233-237 | a player is listed iff rostered and owning no guess on the fobbit's answers |
| `Generation.Cleared` | fobbage/quizes/models.py:269-270 | deleting all answers removes every guess, unlinks every bluff, keeps bluff players and texts and keeps the rows consistent |
| `Generation.FindIExact` | fobbage/quizes/models.py:279 | Some(j) only for an answer equal to the text up to case; None only when no answer is |
| `Generation.FoldOne` | fobbage/quizes/models.py:279-286 | one step of the fold; its contract is stated by `FoldOneKeepsFolded` |
| `Generation.FoldOneKeepsFolded` | fobbage/quizes/models.py:279-286 | folding one more bluff keeps the fold invariant: correct answer first, case-distinct answers, every bluff linked to a matching answer, every bluff answer made for a bluff with its text |
| `Generation.MergeAll` | fobbage/quizes/models.py:272-286 | the reference fold: seed the correct answer, then fold each bluff; one answer more than the bluffs at most, every bluff kept; the fold invariant is `MergeAllFolded` |
| `Generation.MergeAllFolded` | fobbage/quizes/models.py:272-286 | the fold invariant holds for the whole bluff table |
| `Generation.MergeBluffs` | fobbage/quizes/models.py:278-286 | the loop produces exactly the answers and bluff links of the reference fold `MergeAll` |
| `Generation.ExactlyOneCorrect` | fobbage/quizes/models.py:272-276 | exactly one generated answer is correct, and its text is the question's correct answer |
| `Generation.DuplicateBluffsShareAnswer` | fobbage/quizes/models.py:278-286 | bluffs equal up to letter case are linked to the same answer |
| `Generation.TruthBluffLinksToCorrect` | fobbage/quizes/models.py:278-286 | a bluff equal to the truth up to case is linked to the correct answer |
| `Generation.ExactTextMeansCorrect` | fobbage/quizes/models.py:272-286 | on generated answers, text equal to the correct answer holds exactly for the correct one |
| `Generation.DistinctBluffsGetOwnAnswers` | fobbage/quizes/models.py:278-286 | pairwise case-distinct bluffs that differ from the truth each get their own new answer, in table order |
| `Generation.ShuffleAndNumber` | fobbage/quizes/models.py:288-293 | for every permutation the answers are unchanged except their order field, and the orders are exactly 1..N, one each |
| `Generation.AnswersGenerated` | fobbage/quizes/models.py:269-296 | the relation between a row and its regenerated row, for any shuffle; what it guarantees is stated by `GenerationGuarantees` |
| `Generation.GenerationGuarantees` | fobbage/quizes/models.py:254-296 | after generation: 1..bluffs+1 answers, one correct answer, text = truth iff correct, case-distinct answers, every bluff kept and linked to a matching answer, consistent rows, and no guard lets generation run again |
| `Generation.RegenerateRow` | fobbage/quizes/models.py:269-296 | the row after delete, seed, fold, shuffle and status GUESS is a generated row of the old one and is consistent |
| `Lifecycle.Upserted` | fobbage/quizes/models.py:399-400 | an existing bluff of the player gets the new text in place; otherwise one unlinked bluff is appended; nothing else changes |
| `Lifecycle.BluffRemovesFromWaiting` | fobbage/quizes/models.py:239-243 | a bluff submission removes exactly its player from the players without a bluff |
| `Lifecycle.OneBluffPerPlayer` | fobbage/quizes/models.py:399-400 | after a submission the player has exactly one bluff, with the latest text, and the table grew by at most one |
| `Lifecycle.ResubmissionIdempotent` | fobbage/quizes/models.py:399-400 | submitting the same bluff twice equals submitting it once |
| `Lifecycle.Guessed` | fobbage/quizes/models.py:430-441 | a guess is refused exactly when its answer is not one of the fobbit's answers; otherwise it is appended, the rows stay consistent and, for every roster, exactly its player leaves the players without a guess |
| `Lifecycle.GuessingTwiceBreaksScore` | fobbage/quizes/models.py:309 | two guesses by one player make that player's score on the finished fobbit fail |
| `Lifecycle.ResetRow` | fobbage/quizes/models.py:328-331 | status BLUFF, no answers, no guesses, the same question and round, the bluffs unlinked |
| `Lifecycle.ResetReopensBluffing` | fobbage/quizes/models.py:328-331 | a reset row is consistent, can be generated again iff the bluff count matches a non-empty roster, scores 0, and resetting is idempotent |
| `Lifecycle.DeleteAnswersRow` | fobbage/quizes/models.py:342-349 | `Fobbit.delete_answers`; its contract is stated by `DeleteAnswersProtectsFinished` and `FinishedIsFinal` |
| `Lifecycle.DeleteAnswersProtectsFinished` | fobbage/quizes/models.py:342-349 | `delete_answers` does nothing (returns None) exactly on a FINISHED fobbit |
| `Lifecycle.FinishRow` | fobbage/quizes/models.py:334-340 | `Fobbit.finish`; its contract is stated by `FinishNeedsEveryGuess` and `FinishedIsFinal` |
| `Lifecycle.FinishNeedsEveryGuess` | fobbage/quizes/models.py:334-340 | finishing succeeds iff every rostered player has a guess, and then only the status changes, to FINISHED |
| `Lifecycle.FinishedIsFinal` | fobbage/quizes/models.py:334-349 | a finished fobbit can neither be regenerated nor have its answers deleted, and finishing again changes nothing |
| `Scoring.BluffScore` | fobbage/quizes/models.py:402-423 | `Bluff.score`; its contract is stated by `BluffScoreZeroCases`, `BluffScoreShare`, `BluffScoreTimesBluffs`, `BluffScoreIgnoresStatus`, `SharedBluffsScoreAlike` and `BluffScoreNonNegative` |
| `Scoring.BluffScoreZeroCases` | fobbage/quizes/models.py:406-415 | a bluff earns 0 when its player has not guessed, when it is linked to the correct answer, or when its player voted for its own answer |
| `Scoring.BluffScoreShare` | fobbage/quizes/models.py:417-421 | otherwise it earns the `Share` of the guesses on its answer among the bluffs on that answer, and that divisor is positive |
| `Scoring.ShareFormula` | fobbage/quizes/models.py:420-421 | a share taken k times gives back guesses × multiplier × 500: the division by the number of bluffs is exact true division |
| `Scoring.BluffScoreTimesBluffs` | fobbage/quizes/models.py:417-421 | a scoring bluff's points times the number of bluffs on its answer equal the guesses on that answer × multiplier × 500 |
| `Scoring.BluffScoreIgnoresStatus` | fobbage/quizes/models.py:402-423 | a bluff's score does not depend on the fobbit's status |
| `Scoring.SharedBluffsScoreAlike` | fobbage/quizes/models.py:418-421 | two scoring bluffs folded into the same answer earn the same |
| `Scoring.BluffScoreNonNegative` | fobbage/quizes/models.py:402-423 | with a non-negative multiplier a bluff never earns less than 0 |
| `Scoring.GuessScore` | fobbage/quizes/models.py:443-450 | `Guess.score`; its contract is stated by `GuessScoreCases` |
| `Scoring.GuessScoreCases` | fobbage/quizes/models.py:443-450 | 0 unless FINISHED; multiplier × 1000 for the exact correct text; no value for a wrong finished guess |
| `Scoring.FobbitScore` | fobbage/quizes/models.py:302-326 | `Fobbit.score_for_player`; its contract is stated by `UnfinishedScoresZero`, `FobbitScoreZeroCases`, `FobbitScoreReconciles` and `FobbitScoreDefinedness` |
| `Scoring.UnfinishedScoresZero` | fobbage/quizes/models.py:304-306 | on a fobbit that is not FINISHED every player scores 0, whether or not they bluffed or guessed |
| `Scoring.FobbitScoreZeroCases` | fobbage/quizes/models.py:308-322 | a player with their one bluff and one guess scores 0 with a bluff on the truth, or voting for their own bluff |
| `Scoring.FobbitScoreReconciles` | fobbage/quizes/models.py:302-326 | otherwise the total is the bluff score plus 1000 × multiplier for the exact correct text, and `.first()` in `Bluff.score` picks the same guess as `.get()` |
| `Scoring.FobbitScoreDefinedness` | fobbage/quizes/models.py:308-309 | on a finished fobbit the score exists iff the player has exactly one bluff and exactly one guess |
| `Scoring.TotalScore` | fobbage/quizes/models.py:181-185 | `Session.score_for_player`; its contract is stated by `TermsAt`, `SumSplit`, `SumNoneSticks`, `UnfinishedScoreNothing`, `TotalScoreSplit` and the loop `Sessions.Session.ScoreForPlayer` |
| `Scoring.TermsAt` | fobbage/quizes/models.py:183-184 | the i-th summand is fobbit i's score with the multiplier of its own round |
| `Scoring.AddFobbitScore` | fobbage/quizes/models.py:184 | one `score +=` step: either the whole sum raises, or the running total is the sum of one more term |
| `Scoring.SumSplit` | fobbage/quizes/models.py:181-185 | the sum over two tables is the sum of the two sums, a failure on either side failing the whole |
| `Scoring.SumNoneSticks` | fobbage/quizes/models.py:181-185 | once a prefix of the loop raises, the whole sum raises |
| `Scoring.UnfinishedScoreNothing` | fobbage/quizes/models.py:181-185 | a session with no finished fobbit scores 0 for everybody |
| `Scoring.TotalScoreSplit` | fobbage/quizes/models.py:181-185 | the session total is additive over any split of the fobbit table |
| `Progression.ActiveRound` | fobbage/quizes/models.py:119-127 | `Session.active_round`: the active fobbit's round, -1 without one; see `NoActiveFobbitPlaysRoundMinusOne` and `MinusOneIsLastRound` |
| `Progression.FirstUnused` | fobbage/quizes/models.py:160-163 | the least question in (order, id) order whose id is unused; None only when every question is used |
| `Progression.CreateFobbit` | fobbage/quizes/models.py:159-169 | a fresh BLUFF fobbit for that question and round; fails exactly when every question is used |
| `Progression.AppendKeepsValid` | fobbage/quizes/models.py:165-169 | adding a consistent fobbit for an unused quiz question keeps the session invariant |
| `Progression.NextQuestion` | fobbage/quizes/models.py:137-156 | `Session.next_question`; its contract is stated by `NextQuestionWhileGuessing`, `NextQuestionFillsRound`, `NextQuestionClosesRound`, `NextQuestionKeepsValid` and `NextQuestionKeepsRows` |
| `Progression.NextQuestionWhileGuessing` | fobbage/quizes/models.py:137-156 | while GUESSING nothing changes and None is returned |
| `Progression.NextQuestionFillsRound` | fobbage/quizes/models.py:141-146 | below the quota: fails with nothing changed exactly when no question is left, else appends one BLUFF fobbit for an unused question to the active round, activates and returns it |
| `Progression.NextQuestionClosesRound` | fobbage/quizes/models.py:147-153 | at the quota: switches to GUESSING, returns and activates the round's first fobbit (the active one stays when there is none), fobbits untouched |
| `Progression.NoActiveFobbitPlaysRoundMinusOne` | fobbage/quizes/models.py:119-146 | without an active fobbit the new fobbit gets round -1 under the last round's quota |
| `Progression.NextQuestionKeepsValid` | fobbage/quizes/models.py:137-156 | `next_question` keeps the session invariant |
| `Progression.NextQuestionKeepsRows` | fobbage/quizes/models.py:137-156 | `next_question` never changes the existing fobbits, the roster or the rounds |
| `Progression.NewRound` | fobbage/quizes/models.py:171-179 | `Session.new_round`; its contract is stated by `NewRoundStartsRound` |
| `Progression.NewRoundStartsRound` | fobbage/quizes/models.py:171-179 | fails exactly when no question is left; else appends the round, one fresh active fobbit in it, modus BLUFFING, and the new round's quota and multiplier apply |
| `Progression.AnswersStepIntro` | fobbage/quizes/models.py:295-300 | saving the regenerated row and then running `next_question` is one generation step |
| `Progression.AnswersStepKeepsValid` | fobbage/quizes/models.py:254-300 | a generation step keeps the session invariant and leaves a fobbit no guard lets regenerate |
| `Sessions.Session.constructor` | fobbage/quizes/models.py:67-106 | a new session: the given roster and rounds, modus BLUFFING, no fobbits and no active fobbit |
| `Sessions.Session.Join` | fobbage/quizes/models.py:84-87 | the roster gains the player and nothing else changes |
| `Sessions.Session.GenerateFobbit` | fobbage/quizes/models.py:159-169 | on success the fobbit table gains exactly the created fobbit; otherwise nothing changes |
| `Sessions.Session.NextQuestion` | fobbage/quizes/models.py:137-156 | the new state and the result are those of `Progression.NextQuestion` on the old state |
| `Sessions.Session.NewRound` | fobbage/quizes/models.py:171-179 | the new state is that of `Progression.NewRound`, or unchanged when it fails |
| `Sessions.Session.GenerateAnswers` | fobbage/quizes/models.py:254-300 | refused exactly when a guard fails, with nothing changed; otherwise the row is regenerated and `next_question` runs on the result |
| `Sessions.Session.SubmitBluff` | fobbage/quizes/models.py:463-470 | the bluff is upserted; generation runs exactly when the bluff is new and the bluff count now equals the roster size, and the result is None exactly when it did not run |
| `Sessions.Session.AddGuess` | fobbage/quizes/models.py:430-441 | the guess is appended when its answer exists; otherwise nothing changes |
| `Sessions.Session.Reset` | fobbage/quizes/models.py:328-331 | only fobbit f changes, to its reset row |
| `Sessions.Session.DeleteAnswers` | fobbage/quizes/models.py:342-349 | an unfinished fobbit is reset; a finished one is left alone and false is returned |
| `Sessions.Session.Finish` | fobbage/quizes/models.py:334-340 | fobbit f becomes FINISHED when everybody guessed; otherwise nothing changes |
| `Sessions.Session.ScoreForPlayer` | fobbage/quizes/models.py:181-185 | the loop returns the exact session total, or None as soon as one fobbit's score fails |
| `Scenario.AliceScores` | fobbage/quizes/models.py:302-326 | in the worked fobbit Alice, whose bluff London nobody picked and who guessed Rome, earns 0 |
| `Scenario.BobScores` | fobbage/quizes/models.py:302-326 | Bob earns 500 for fooling Alice with Rome plus 1000 for guessing Paris: 1500 |
| `Scenario.PlayedIsGeneratedAndFinished` | fobbage/quizes/models.py:254-340 | the worked fobbit is a finish of a generation from the bluffs London and Rome: generation may run and can yield three answers numbered 1..3, both guesses are accepted, and finishing succeeds for the roster |
| `Scenario.CaseVariantsMerge` | fobbage/quizes/models.py:278-286 | "london" and "London" are folded into one answer next to "Paris" |

## Left out

- Notifications (`session_updated`, the `post_save` receivers fobbage/quizes/models.py:453-480) are left out, except the bluff trigger's decision to generate: they only push messages to clients.
- `scored_answers` (fobbage/quizes/models.py:245-252) is left out: it is a display query that changes nothing.
- The `__str__` methods are left out: they are presentation only.
- `fobbage/quizes/views.py`, the JavaScript front end and the migrations are not part of this model.
  Bluff and guess creation, which those views perform, appears only as `Lifecycle.Upserted`, `Lifecycle.Guessed` and the `Session` methods that call them.
- `Sessions.Session.Join` and the constructor stand in for the roster and settings editing done outside the core.
- Concurrency and transactions are left out: every operation is atomic in the model.
- Floating point is left out: scores are exact reals.
- `Entities.RoundDef`: the question quota `numberOfQuestions` is an integer; a fractional quota in the settings is not modelled.
- `Session.rounds` falling back to `[]` is the field's starting value. A missing key in a round dictionary, and questions_in_round's `TypeError` branch, are not modelled: a round is a typed `RoundDef`.
- `iexact` is modelled as ASCII case folding: `Entities.Lower` does no Unicode case mapping.
- The loop that deletes answers row by row (fobbage/quizes/models.py:269-270) is modelled as one bulk delete with its cascades; the intermediate states are not modelled.
- `exclude(id__in=[queryset])` (fobbage/quizes/models.py:160-162) is read as "exclude the questions already used in this session".
- `new_round` appends to the settings list in memory before `generate_fobbit` can fail. The model leaves the whole state unchanged on that failure; the unsaved in-memory list is not modelled.
- Tables are iterated in id order. Bluffs have no declared ordering, so their iteration order is taken to be table order too.
- `Sessions.Session.ScoreForPlayer` requires only row consistency (`AllWellFormed`), which a `.get()` or foreign-key read needs; it does not require the whole session invariant.
- `Generation.ShuffleAndNumber`: the shuffle is any permutation; the distribution `random.shuffle` draws from is not modelled.
- `Scenario` is a worked example with two players, not an operation of the source.
