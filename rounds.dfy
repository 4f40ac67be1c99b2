/** Reading the session's round settings: how many questions a round has and which
    score multiplier a fobbit of that round plays for. */
module Rounds {
  import opened Entities

  /** `Session.questions_in_round`: the configured question count, or 0 when the index
      is out of range. */
  function QuestionsInRound(rounds: seq<RoundDef>, round: int): (n: int) {
    match PyIndex(rounds, round)
    case Some(rd) => rd.numberOfQuestions
    case None => 0
  }

  /** `Fobbit.multiplier`: the round's multiplier, `round + 1` when the index is out of
      range, and 1 when no rounds are configured. */
  function Multiplier(rounds: seq<RoundDef>, round: int): (m: real) {
    if |rounds| == 0 then 1.0
    else match PyIndex(rounds, round)
      case Some(rd) => rd.multiplier
      case None => (round + 1) as real
  }

  lemma QuestionsInRoundCases(rounds: seq<RoundDef>, round: int)
    ensures 0 <= round < |rounds| ==> QuestionsInRound(rounds, round) == rounds[round].numberOfQuestions
    ensures -|rounds| <= round < 0 ==>
              QuestionsInRound(rounds, round) == rounds[|rounds| + round].numberOfQuestions
    ensures round >= |rounds| || round < -|rounds| ==> QuestionsInRound(rounds, round) == 0
  {
  }

  lemma MultiplierCases(rounds: seq<RoundDef>, round: int)
    ensures |rounds| == 0 ==> Multiplier(rounds, round) == 1.0
    ensures 0 <= round < |rounds| ==> Multiplier(rounds, round) == rounds[round].multiplier
    ensures -|rounds| <= round < 0 ==> Multiplier(rounds, round) == rounds[|rounds| + round].multiplier
    ensures |rounds| > 0 && (round >= |rounds| || round < -|rounds|) ==> Multiplier(rounds, round) == (round + 1) as real
  {
  }

  /** With no active fobbit the active round is -1, and Python's `rounds[-1]` is the
      LAST configured round: its question count and its multiplier are the ones used. */
  lemma MinusOneIsLastRound(rounds: seq<RoundDef>)
    requires |rounds| > 0
    ensures QuestionsInRound(rounds, -1) == rounds[|rounds| - 1].numberOfQuestions
    ensures Multiplier(rounds, -1) == rounds[|rounds| - 1].multiplier
  {
  }

  /** The fallbacks never produce a non-positive multiplier for the rounds the engine
      creates (round indexes >= -1), provided the configured multipliers are positive. */
  lemma MultiplierPositive(rounds: seq<RoundDef>, round: int)
    requires forall i :: 0 <= i < |rounds| ==> rounds[i].multiplier > 0.0
    requires round >= -1
    ensures Multiplier(rounds, round) > 0.0
  {
  }
}
