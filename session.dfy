/** A quiz session as the object the engine mutates: its roster, round settings, modus,
    active fobbit and fobbit table, with the operations of the game loop. */
module Sessions {
  import opened Entities
  import opened Queries
  import opened Rounds
  import opened Scoring
  import opened Generation
  import opened Lifecycle
  import opened Progression

  class Session {
    /** The questions of the session's quiz. */
    const questions: seq<Question>
    var players: set<Player>
    var rounds: seq<RoundDef>
    var modus: Modus
    var active: Option<nat>
    var fobbits: seq<Fobbit>

    function Snapshot(): (s: State)
      reads this
    {
      State(players, rounds, modus, active, fobbits)
    }

    predicate Valid()
      reads this
    {
      ValidState(questions, Snapshot())
    }

    /** A new session: no fobbits yet, no active fobbit, modus BLUFFING. */
    constructor(questions: seq<Question>, players: set<Player>, rounds: seq<RoundDef>)
      ensures Valid()
      ensures this.questions == questions
      ensures Snapshot() == State(players, rounds, BLUFFING, None, [])
    {
      this.questions := questions;
      this.players := players;
      this.rounds := rounds;
      modus := BLUFFING;
      active := None;
      fobbits := [];
    }

    /** A user joins the roster. */
    method Join(p: Player)
      requires Valid()
      modifies this
      ensures Valid()
      ensures Snapshot() == old(Snapshot()).(players := old(players) + {p})
    {
      players := players + {p};
    }

    /** `Session.generate_fobbit(round)`. */
    method GenerateFobbit(round: int) returns (r: Outcome<nat>)
      requires Valid()
      modifies this
      ensures Valid()
      ensures CreateFobbit(questions, old(fobbits), round).NoQuestionLeft? ==>
                r == NoQuestionLeft && Snapshot() == old(Snapshot())
      ensures CreateFobbit(questions, old(fobbits), round).Success? ==>
                r == Success(|old(fobbits)|) &&
                Snapshot() == old(Snapshot()).(fobbits := old(fobbits) + [CreateFobbit(questions, old(fobbits), round).value])
    {
      var c := CreateFobbit(questions, fobbits, round);
      if c.NoQuestionLeft? {
        return NoQuestionLeft;
      }
      AppendKeepsValid(questions, Snapshot(), c.value, active);
      fobbits := fobbits + [c.value];
      r := Success(|fobbits| - 1);
    }

    /** `Session.next_question`. */
    method NextQuestion() returns (r: Outcome<Option<nat>>)
      requires Valid()
      modifies this
      ensures Valid()
      ensures Step(Snapshot(), r) == Progression.NextQuestion(questions, old(Snapshot()))
    {
      NextQuestionKeepsValid(questions, Snapshot());
      var round := ActiveRound(Snapshot());
      var maxQuestions := QuestionsInRound(rounds, round);
      var nOfQuestions := CountWhere(fobbits, InRound(round));
      var fobbit: Option<nat> := None;
      if modus == BLUFFING {
        if nOfQuestions < maxQuestions {
          var created := GenerateFobbit(round);
          if created.NoQuestionLeft? {
            return NoQuestionLeft;
          }
          fobbit := Some(created.value);
        } else {
          modus := GUESSING;
          fobbit := FirstWhere(fobbits, InRound(round));
        }
      }
      if fobbit.Some? {
        active := fobbit;
      }
      r := Success(fobbit);
    }

    /** `Session.new_round(rd)`: false when no question is left for the round's fobbit. */
    method NewRound(rd: RoundDef) returns (ok: bool)
      requires Valid()
      modifies this
      ensures Valid()
      ensures ok <==> Progression.NewRound(questions, old(Snapshot()), rd).Some?
      ensures ok ==> Snapshot() == Progression.NewRound(questions, old(Snapshot()), rd).value
      ensures !ok ==> Snapshot() == old(Snapshot())
    {
      NewRoundStartsRound(questions, Snapshot(), rd);
      var extended := rounds + [rd];
      var created := GenerateFobbit(|extended| - 1);
      if created.NoQuestionLeft? {
        return false;
      }
      rounds := extended;
      active := Some(created.value);
      modus := BLUFFING;
      ok := true;
    }

    /** `Fobbit.generate_answers` on fobbit f. */
    method GenerateAnswers(f: nat) returns (r: GenResult)
      requires Valid() && f < |fobbits|
      modifies this
      ensures Valid()
      ensures r.Refused? <==> !CanGenerate(old(players), old(fobbits[f]))
      ensures AnswersStep(questions, old(Snapshot()), f, Snapshot(), r)
    {
      var F := fobbits[f];
      if |players| == 0 {
        return Refused;
      }
      if |F.bluffs| != |players| {
        return Refused;
      }
      if F.status.Rank() >= GUESS.Rank() {
        return Refused;
      }
      var G := RegenerateRow(F);
      ghost var s0 := Snapshot();
      ReplaceKeepsValid(questions, s0, f, G);
      fobbits := fobbits[f := G];
      var next := NextQuestion();
      AnswersStepIntro(questions, s0, f, G, Snapshot(), next);
      r := Generated(next);
    }

    /** Saving player p's bluff text for fobbit f. Only a newly created bluff fires the
        trigger of models.py:463-470, and it generates the answers once the number of bluffs
        equals the number of players; the status of the fobbit is not looked at. `r` is
        None when the trigger did not call `generate_answers`, else what that returned. */
    method SubmitBluff(f: nat, p: Player, text: string) returns (created: bool, r: Option<GenResult>)
      requires Valid() && f < |fobbits|
      modifies this
      ensures Valid()
      ensures created <==> FirstWhere(old(fobbits[f]).bluffs, BluffBy(p)).None?
      ensures r.Some? <==> created && |Upserted(old(fobbits[f]), p, text).bluffs| == |old(players)|
      ensures r.None? ==>
                Snapshot() == old(Snapshot()).(fobbits := old(fobbits)[f := Upserted(old(fobbits[f]), p, text)])
      ensures r.Some? ==>
                AnswersStep(questions, old(Snapshot()).(fobbits := old(fobbits)[f := Upserted(old(fobbits[f]), p, text)]),
                            f, Snapshot(), r.value)
    {
      var F := fobbits[f];
      created := FirstWhere(F.bluffs, BluffBy(p)).None?;
      var U := Upserted(F, p, text);
      ReplaceKeepsValid(questions, Snapshot(), f, U);
      fobbits := fobbits[f := U];
      r := None;
      if created && |U.bluffs| == |players| {
        var g := GenerateAnswers(f);
        r := Some(g);
      }
    }

    /** Player p guesses answer a of fobbit f; false when a is not one of its answers. */
    method AddGuess(f: nat, p: Player, a: nat) returns (ok: bool)
      requires Valid() && f < |fobbits|
      modifies this
      ensures Valid()
      ensures ok <==> Guessed(old(fobbits[f]), p, a).Some?
      ensures ok ==> Snapshot() == old(Snapshot()).(fobbits := old(fobbits)[f := Guessed(old(fobbits[f]), p, a).value])
      ensures !ok ==> Snapshot() == old(Snapshot())
    {
      var F := fobbits[f];
      if a >= |F.answers| {
        return false;
      }
      var G := Guessed(F, p, a).value;
      ReplaceKeepsValid(questions, Snapshot(), f, G);
      fobbits := fobbits[f := G];
      ok := true;
    }

    /** `Fobbit.reset` on fobbit f. */
    method Reset(f: nat)
      requires Valid() && f < |fobbits|
      modifies this
      ensures Valid()
      ensures Snapshot() == old(Snapshot()).(fobbits := old(fobbits)[f := ResetRow(old(fobbits[f]))])
    {
      var F := fobbits[f];
      ResetReopensBluffing(players, F, 0, 1.0);
      ReplaceKeepsValid(questions, Snapshot(), f, ResetRow(F));
      fobbits := fobbits[f := Cleared(F).(status := BLUFF)];
    }

    /** `Fobbit.delete_answers` on fobbit f; false (the source's None) for a FINISHED fobbit. */
    method DeleteAnswers(f: nat) returns (ok: bool)
      requires Valid() && f < |fobbits|
      modifies this
      ensures Valid()
      ensures ok <==> DeleteAnswersRow(old(fobbits[f])).Some?
      ensures ok ==> Snapshot() == old(Snapshot()).(fobbits := old(fobbits)[f := DeleteAnswersRow(old(fobbits[f])).value])
      ensures !ok ==> Snapshot() == old(Snapshot())
    {
      if fobbits[f].status.Rank() < FINISHED.Rank() {
        Reset(f);
        ok := true;
      } else {
        ok := false;
      }
    }

    /** `Fobbit.finish` on fobbit f; false where the source raises `Guess.DoesNotExist`. */
    method Finish(f: nat) returns (ok: bool)
      requires Valid() && f < |fobbits|
      modifies this
      ensures Valid()
      ensures ok <==> FinishRow(old(players), old(fobbits[f])).Some?
      ensures ok ==> Snapshot() == old(Snapshot()).(fobbits := old(fobbits)[f := FinishRow(old(players), old(fobbits[f])).value])
      ensures !ok ==> Snapshot() == old(Snapshot())
    {
      var F := fobbits[f];
      if PlayersWithoutGuess(players, F) != {} {
        return false;
      }
      ReplaceKeepsValid(questions, Snapshot(), f, F.(status := FINISHED));
      fobbits := fobbits[f := F.(status := FINISHED)];
      ok := true;
    }

    /** `Session.score_for_player`: the fobbits' scores summed in table order; None when
        one of them raises. */
    method ScoreForPlayer(p: Player) returns (score: Option<real>)
      requires AllWellFormed(fobbits)
      ensures score == TotalScore(rounds, fobbits, p)
    {
      var fs := fobbits;
      var total := 0.0;
      var i := 0;
      while i < |fs|
        invariant 0 <= i <= |fs|
        invariant Sum(Terms(rounds, fs, p)[..i]) == Some(total)
      {
        var raised;
        raised, total := AddFobbitScore(rounds, fs, p, i, total);
        if raised {
          return None;
        }
        i := i + 1;
      }
      assert Terms(rounds, fs, p)[..i] == Terms(rounds, fs, p);
      score := Some(total);
    }
  }
}
