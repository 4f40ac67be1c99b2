/** Points, computed on demand from a fobbit's rows: `Bluff.score`, `Guess.score`,
    `Fobbit.score_for_player` and `Session.score_for_player`. */
module Scoring {
  import opened Entities
  import opened Queries
  import opened Rounds

  /** `Guess.objects.filter(answer=a)`; a guess always has an answer, so `a == None` matches none. */
  function GuessOn(a: Option<nat>): (r: Guess -> bool) { (g: Guess) => Some(g.answer) == a }
  function BluffOn(a: Option<nat>): (r: Bluff -> bool) { (b: Bluff) => b.answer == a }

  /** The bluff is linked to this fobbit's correct answer. */
  predicate LinksCorrect(F: Fobbit, b: Bluff) {
    b.answer.Some? && b.answer.value < |F.answers| && F.answers[b.answer.value].isCorrect
  }

  /** The bluffer voted for the answer their own bluff is linked to. */
  predicate SelfVote(b: Bluff, g: Guess) {
    Some(g.answer) == b.answer
  }

  /** 500 x multiplier for each of n guesses, split evenly among k bluffs (true division). */
  function Share(n: nat, m: real, k: nat): (r: real)
    requires k > 0
  {
    (n as real * m * 500.0) / k as real
  }

  /** A share is what, taken by each of the k bluffs, adds up to 500 x multiplier per guess. */
  lemma ShareFormula(n: nat, m: real, k: nat)
    requires k > 0
    ensures Share(n, m, k) * k as real == n as real * m * 500.0
  {
  }

  /** `Bluff.score` for the bluff with index i. The status of the fobbit is not consulted. */
  function BluffScore(F: Fobbit, i: nat, m: real): (r: real)
    requires WellFormed(F) && i < |F.bluffs|
  {
    var b := F.bluffs[i];
    match FirstWhere(F.guesses, GuessBy(b.player))
    case None => 0.0
    case Some(j) =>
      if LinksCorrect(F, b) then 0.0
      else if SelfVote(b, F.guesses[j]) then 0.0
      else
        assert BluffOn(b.answer)(F.bluffs[i]);
        Share(CountWhere(F.guesses, GuessOn(b.answer)), m, CountWhere(F.bluffs, BluffOn(b.answer)))
  }

  /** `Guess.score`: None where the source falls off the end of the method (a FINISHED
      fobbit and a wrong answer). */
  function GuessScore(F: Fobbit, j: nat, m: real): (r: Option<real>)
    requires WellFormed(F) && j < |F.guesses|
  {
    if F.status == FINISHED then
      if F.answers[F.guesses[j].answer].text == F.question.correctAnswer then Some(m * 1000.0)
      else None
    else Some(0.0)
  }

  /** `Fobbit.score_for_player`; None stands for the exception `.get()` raises when the
      player has no bluff, or has no guess or several guesses, on a FINISHED fobbit. */
  function FobbitScore(F: Fobbit, p: Player, m: real): (r: Option<real>)
    requires WellFormed(F)
  {
    if F.status != FINISHED then Some(0.0)
    else match GetWhere(F.bluffs, BluffBy(p))
      case None => None
      case Some(i) =>
        match GetWhere(F.guesses, GuessBy(p))
        case None => None
        case Some(j) =>
          var b, g := F.bluffs[i], F.guesses[j];
          if LinksCorrect(F, b) then Some(0.0)
          else if SelfVote(b, g) then Some(0.0)
          else if F.answers[g.answer].text == F.question.correctAnswer then
            Some(BluffScore(F, i, m) + GuessScore(F, j, m).value)
          else Some(BluffScore(F, i, m))
  }

  /** `score += x` where evaluating either side may have raised (None). */
  function Add(a: Option<real>, b: Option<real>): (r: Option<real>) {
    if a.Some? && b.Some? then Some(a.value + b.value) else None
  }

  /** The scores of a table of fobbits added up left to right, as the loop does. */
  function Sum(ts: seq<Option<real>>): (r: Option<real>)
    decreases |ts|
  {
    if |ts| == 0 then Some(0.0) else Add(Sum(ts[..|ts| - 1]), ts[|ts| - 1])
  }

  /** Every fobbit's score, each with the multiplier of its own round. */
  function Terms(rounds: seq<RoundDef>, fs: seq<Fobbit>, p: Player): (ts: seq<Option<real>>)
    requires AllWellFormed(fs)
    ensures |ts| == |fs|
    decreases |fs|
  {
    if |fs| == 0 then []
    else Terms(rounds, fs[..|fs| - 1], p) + [FobbitScore(fs[|fs| - 1], p, Multiplier(rounds, fs[|fs| - 1].round))]
  }

  /** `Session.score_for_player`: the sum over the session's fobbits; an exception from
      any fobbit is an exception of the sum. */
  function TotalScore(rounds: seq<RoundDef>, fs: seq<Fobbit>, p: Player): (r: Option<real>)
    requires AllWellFormed(fs)
  {
    Sum(Terms(rounds, fs, p))
  }

  // ---------------------------------------------------------------------------
  // Bluff.score

  /** The three ways a bluff earns nothing. */
  lemma BluffScoreZeroCases(F: Fobbit, i: nat, m: real)
    requires WellFormed(F) && i < |F.bluffs|
    ensures FirstWhere(F.guesses, GuessBy(F.bluffs[i].player)).None? ==> BluffScore(F, i, m) == 0.0
    ensures LinksCorrect(F, F.bluffs[i]) ==> BluffScore(F, i, m) == 0.0
    ensures forall j :: 0 <= j < |F.guesses| && F.guesses[j].player == F.bluffs[i].player &&
                        SelfVote(F.bluffs[i], F.guesses[j]) &&
                        FirstWhere(F.guesses, GuessBy(F.bluffs[i].player)) == Some(j)
                        ==> BluffScore(F, i, m) == 0.0
  {
  }

  /** Otherwise the bluffer earns 500 x multiplier per guess on the bluff's answer, shared
      equally among the bluffs linked to that answer. */
  lemma BluffScoreShare(F: Fobbit, i: nat, m: real, j: nat)
    requires WellFormed(F) && i < |F.bluffs|
    requires FirstWhere(F.guesses, GuessBy(F.bluffs[i].player)) == Some(j)
    requires !LinksCorrect(F, F.bluffs[i]) && !SelfVote(F.bluffs[i], F.guesses[j])
    ensures CountWhere(F.bluffs, BluffOn(F.bluffs[i].answer)) > 0
    ensures BluffScore(F, i, m) ==
            Share(CountWhere(F.guesses, GuessOn(F.bluffs[i].answer)), m, CountWhere(F.bluffs, BluffOn(F.bluffs[i].answer)))
  {
    assert BluffOn(F.bluffs[i].answer)(F.bluffs[i]);
  }

  /** The scores of all bluffs on one answer add up to 500 x multiplier per guess on it:
      the bluff's score times the number of bluffs sharing its answer. */
  lemma BluffScoreTimesBluffs(F: Fobbit, i: nat, m: real, j: nat, n: nat, k: nat)
    requires WellFormed(F) && i < |F.bluffs|
    requires FirstWhere(F.guesses, GuessBy(F.bluffs[i].player)) == Some(j)
    requires !LinksCorrect(F, F.bluffs[i]) && !SelfVote(F.bluffs[i], F.guesses[j])
    requires n == CountWhere(F.guesses, GuessOn(F.bluffs[i].answer)) && k == CountWhere(F.bluffs, BluffOn(F.bluffs[i].answer))
    ensures BluffScore(F, i, m) * k as real == n as real * m * 500.0
  {
    BluffScoreShare(F, i, m, j);
    ScaledShare(BluffScore(F, i, m), n, m, k);
  }

  /** Any value equal to a share, scaled back by its divisor. */
  lemma ScaledShare(x: real, n: nat, m: real, k: nat)
    requires k > 0 && x == Share(n, m, k)
    ensures x * k as real == n as real * m * 500.0
  {
    ShareFormula(n, m, k);
  }

  /** `Bluff.score` does not look at the status: it is the same before and after finish. */
  lemma BluffScoreIgnoresStatus(F: Fobbit, i: nat, m: real, s: Status)
    requires WellFormed(F) && i < |F.bluffs|
    ensures WellFormed(F.(status := s)) && BluffScore(F.(status := s), i, m) == BluffScore(F, i, m)
  {
  }

  /** Bluffs folded into the same answer are rewarded alike: players who independently
      wrote the same decoy split the credit evenly. */
  lemma SharedBluffsScoreAlike(F: Fobbit, i: nat, k: nat, m: real)
    requires WellFormed(F) && i < |F.bluffs| && k < |F.bluffs|
    requires F.bluffs[i].answer == F.bluffs[k].answer
    requires FirstWhere(F.guesses, GuessBy(F.bluffs[i].player)).Some?
    requires FirstWhere(F.guesses, GuessBy(F.bluffs[k].player)).Some?
    requires !SelfVote(F.bluffs[i], F.guesses[FirstWhere(F.guesses, GuessBy(F.bluffs[i].player)).value])
    requires !SelfVote(F.bluffs[k], F.guesses[FirstWhere(F.guesses, GuessBy(F.bluffs[k].player)).value])
    ensures BluffScore(F, i, m) == BluffScore(F, k, m)
  {
  }

  lemma ShareNonNegative(n: nat, m: real, k: nat)
    requires m >= 0.0 && k > 0
    ensures Share(n, m, k) >= 0.0
  {
    assert n as real * m >= 0.0;
  }

  lemma BluffScoreNonNegative(F: Fobbit, i: nat, m: real)
    requires WellFormed(F) && i < |F.bluffs| && m >= 0.0
    ensures BluffScore(F, i, m) >= 0.0
  {
    var b := F.bluffs[i];
    match FirstWhere(F.guesses, GuessBy(b.player))
    case None =>
    case Some(j) =>
      if !LinksCorrect(F, b) && !SelfVote(b, F.guesses[j]) {
        assert BluffOn(b.answer)(F.bluffs[i]);
        var n := CountWhere(F.guesses, GuessOn(b.answer));
        var k := CountWhere(F.bluffs, BluffOn(b.answer));
        ShareNonNegative(n, m, k);
      }
  }

  // ---------------------------------------------------------------------------
  // Guess.score

  lemma GuessScoreCases(F: Fobbit, j: nat, m: real)
    requires WellFormed(F) && j < |F.guesses|
    ensures F.status != FINISHED ==> GuessScore(F, j, m) == Some(0.0)
    ensures F.status == FINISHED && F.answers[F.guesses[j].answer].text == F.question.correctAnswer
            ==> GuessScore(F, j, m) == Some(m * 1000.0)
    ensures F.status == FINISHED && F.answers[F.guesses[j].answer].text != F.question.correctAnswer
            ==> GuessScore(F, j, m).None?
  {
  }

  // ---------------------------------------------------------------------------
  // Fobbit.score_for_player

  /** Only finished fobbits have scores: on any other fobbit every player scores 0, whether
      or not they bluffed or guessed. */
  lemma UnfinishedScoresZero(F: Fobbit, p: Player, m: real)
    requires WellFormed(F) && F.status != FINISHED
    ensures FobbitScore(F, p, m) == Some(0.0)
  {
  }

  /** The other two ways a player's total for a fobbit is 0. */
  lemma FobbitScoreZeroCases(F: Fobbit, p: Player, m: real, i: nat, j: nat)
    requires WellFormed(F)
    requires GetWhere(F.bluffs, BluffBy(p)) == Some(i) && GetWhere(F.guesses, GuessBy(p)) == Some(j)
    ensures LinksCorrect(F, F.bluffs[i]) ==> FobbitScore(F, p, m) == Some(0.0)
    ensures SelfVote(F.bluffs[i], F.guesses[j]) ==> FobbitScore(F, p, m) == Some(0.0)
  {
  }

  /** Otherwise the total is the player's bluff score plus 1000 x multiplier when the
      guessed text is exactly the correct answer; the three scoring rules agree. */
  lemma FobbitScoreReconciles(F: Fobbit, p: Player, m: real, i: nat, j: nat)
    requires WellFormed(F) && F.status == FINISHED
    requires GetWhere(F.bluffs, BluffBy(p)) == Some(i) && GetWhere(F.guesses, GuessBy(p)) == Some(j)
    requires !LinksCorrect(F, F.bluffs[i]) && !SelfVote(F.bluffs[i], F.guesses[j])
    ensures FirstWhere(F.guesses, GuessBy(p)) == Some(j)
    ensures FobbitScore(F, p, m) ==
            Some(BluffScore(F, i, m) +
                 if F.answers[F.guesses[j].answer].text == F.question.correctAnswer
                 then m * 1000.0 else 0.0)
  {
    var first := FirstWhere(F.guesses, GuessBy(p));
    assert first.Some? by { assert GuessBy(p)(F.guesses[j]); }
    assert GuessBy(p)(F.guesses[first.value]);
  }

  /** On a FINISHED fobbit the total exists exactly when the player has one bluff and
      exactly one guess. */
  lemma FobbitScoreDefinedness(F: Fobbit, p: Player, m: real)
    requires WellFormed(F) && F.status == FINISHED
    ensures FobbitScore(F, p, m).Some? <==>
            GetWhere(F.bluffs, BluffBy(p)).Some? && GetWhere(F.guesses, GuessBy(p)).Some?
  {
  }

  // ---------------------------------------------------------------------------
  // Session.score_for_player

  /** Adding up happens in any grouping: the sum of two tables is the sum of their sums. */
  lemma {:induction false} SumSplit(xs: seq<Option<real>>, ys: seq<Option<real>>)
    ensures Sum(xs + ys) == Add(Sum(xs), Sum(ys))
    decreases |ys|
  {
    if |ys| == 0 {
      assert xs + ys == xs;
    } else {
      var ys' := ys[..|ys| - 1];
      SumSplit(xs, ys');
      assert (xs + ys)[..|xs + ys| - 1] == xs + ys';
      assert (xs + ys)[|xs + ys| - 1] == ys[|ys| - 1];
    }
  }

  lemma SumStep(ts: seq<Option<real>>, i: nat)
    requires i < |ts|
    ensures Sum(ts[..i + 1]) == Add(Sum(ts[..i]), ts[i])
  {
    assert ts[..i + 1][..i] == ts[..i];
  }

  /** Once a prefix of the table raises, so does the whole sum. */
  lemma SumNoneSticks(ts: seq<Option<real>>, n: nat)
    requires n <= |ts| && Sum(ts[..n]).None?
    ensures Sum(ts).None?
  {
    SumSplit(ts[..n], ts[n..]);
    assert ts[..n] + ts[n..] == ts;
  }

  /** Term i is fobbit i's own score. */
  lemma {:induction false} TermsAt(rounds: seq<RoundDef>, fs: seq<Fobbit>, p: Player, i: nat)
    requires AllWellFormed(fs) && i < |fs|
    ensures Terms(rounds, fs, p)[i] == FobbitScore(fs[i], p, Multiplier(rounds, fs[i].round))
    decreases |fs|
  {
    if i < |fs| - 1 {
      TermsAt(rounds, fs[..|fs| - 1], p, i);
    }
  }

  /** One step of a running sum: adding term i, or raising with it. */
  lemma SumAdvance(ts: seq<Option<real>>, i: nat, total: real)
    requires i < |ts| && Sum(ts[..i]) == Some(total)
    ensures ts[i].None? ==> Sum(ts).None?
    ensures ts[i].Some? ==> Sum(ts[..i + 1]) == Some(total + ts[i].value)
  {
    SumStep(ts, i);
    if ts[i].None? {
      SumNoneSticks(ts, i + 1);
    }
  }

  /** One iteration of the loop in `Session.score_for_player`: `score += fobbit.score_for_player(player)`. */
  method AddFobbitScore(rounds: seq<RoundDef>, fs: seq<Fobbit>, p: Player, i: nat, total: real)
    returns (raised: bool, total': real)
    requires AllWellFormed(fs) && i < |fs|
    requires Sum(Terms(rounds, fs, p)[..i]) == Some(total)
    ensures raised ==> TotalScore(rounds, fs, p).None?
    ensures !raised ==> Sum(Terms(rounds, fs, p)[..i + 1]) == Some(total')
  {
    var s := FobbitScore(fs[i], p, Multiplier(rounds, fs[i].round));
    TermsAt(rounds, fs, p, i);
    SumAdvance(Terms(rounds, fs, p), i, total);
    if s.None? {
      raised, total' := true, total;
    } else {
      raised, total' := false, total + s.value;
    }
  }

  lemma {:induction false} SumOfZeros(ts: seq<Option<real>>)
    requires forall i :: 0 <= i < |ts| ==> ts[i] == Some(0.0)
    ensures Sum(ts) == Some(0.0)
    decreases |ts|
  {
    if |ts| > 0 {
      SumOfZeros(ts[..|ts| - 1]);
    }
  }

  /** Fobbits that are not FINISHED contribute nothing: a session without a finished
      fobbit scores 0 for everybody. */
  lemma UnfinishedScoreNothing(rounds: seq<RoundDef>, fs: seq<Fobbit>, p: Player)
    requires AllWellFormed(fs)
    requires forall i :: 0 <= i < |fs| ==> fs[i].status != FINISHED
    ensures TotalScore(rounds, fs, p) == Some(0.0)
  {
    forall i | 0 <= i < |fs| ensures Terms(rounds, fs, p)[i] == Some(0.0) {
      TermsAt(rounds, fs, p, i);
    }
    SumOfZeros(Terms(rounds, fs, p));
  }

  /** The session total is additive over the fobbit table. */
  lemma TotalScoreSplit(rounds: seq<RoundDef>, xs: seq<Fobbit>, ys: seq<Fobbit>, p: Player)
    requires AllWellFormed(xs) && AllWellFormed(ys)
    ensures AllWellFormed(xs + ys)
    ensures TotalScore(rounds, xs + ys, p) == Add(TotalScore(rounds, xs, p), TotalScore(rounds, ys, p))
  {
    forall i | 0 <= i < |xs + ys| ensures WellFormed((xs + ys)[i]) {
      if i >= |xs| { assert (xs + ys)[i] == ys[i - |xs|]; }
    }
    forall i | 0 <= i < |xs + ys|
      ensures Terms(rounds, xs + ys, p)[i] == (Terms(rounds, xs, p) + Terms(rounds, ys, p))[i]
    {
      TermsAt(rounds, xs + ys, p, i);
      if i < |xs| {
        TermsAt(rounds, xs, p, i);
      } else {
        TermsAt(rounds, ys, p, i - |xs|);
        assert (xs + ys)[i] == ys[i - |xs|];
      }
    }
    assert Terms(rounds, xs + ys, p) == Terms(rounds, xs, p) + Terms(rounds, ys, p);
    SumSplit(Terms(rounds, xs, p), Terms(rounds, ys, p));
  }
}
