/** How a session moves through its questions: picking the next unused question,
    `Session.next_question` and `Session.new_round`, stated on the persisted state. */
module Progression {
  import opened Entities
  import opened Queries
  import opened Rounds
  import opened Generation

  /** The persisted fields of a session together with its fobbit table in id order;
      `active` is the index of the active fobbit. */
  datatype State = State(players: set<Player>, rounds: seq<RoundDef>, modus: Modus,
                         active: Option<nat>, fobbits: seq<Fobbit>)

  predicate ActiveInRange(s: State) {
    s.active.None? || s.active.value < |s.fobbits|
  }

  /** The ids of the questions this session has already played. */
  function UsedQuestions(fs: seq<Fobbit>): (ids: set<nat>) {
    set i | 0 <= i < |fs| :: fs[i].question.id
  }

  /** No question is played twice in one session. */
  predicate DistinctQuestions(fs: seq<Fobbit>) {
    forall i, k :: 0 <= i < k < |fs| ==> fs[i].question.id != fs[k].question.id
  }

  /** The invariant every operation of a session keeps. */
  predicate ValidState(questions: seq<Question>, s: State) {
    ActiveInRange(s) &&
    AllWellFormed(s.fobbits) &&
    (forall i :: 0 <= i < |s.fobbits| ==> s.fobbits[i].question in questions) &&
    DistinctQuestions(s.fobbits)
  }

  /** `Session.active_round`: the round of the active fobbit, -1 without one. */
  function ActiveRound(s: State): (r: int)
    requires ActiveInRange(s)
  {
    match s.active
    case None => -1
    case Some(f) => s.fobbits[f].round
  }

  function InRound(r: int): (P: Fobbit -> bool) { (F: Fobbit) => F.round == r }

  /** The question ordering `['order', 'id']`. */
  predicate Less(a: Question, b: Question) {
    a.order < b.order || (a.order == b.order && a.id < b.id)
  }

  /** `quiz.questions.exclude(id__in=used).first()`: the least question, in (order, id)
      order, whose id is not used yet. */
  function FirstUnused(qs: seq<Question>, used: set<nat>): (r: Option<Question>)
    ensures r.Some? ==> r.value in qs && r.value.id !in used &&
                        forall k :: 0 <= k < |qs| && qs[k].id !in used ==> !Less(qs[k], r.value)
    ensures r.None? ==> forall k :: 0 <= k < |qs| ==> qs[k].id in used
    decreases |qs|
  {
    if |qs| == 0 then None
    else
      var pre := qs[..|qs| - 1];
      var q := qs[|qs| - 1];
      var best := FirstUnused(pre, used);
      assert forall k :: 0 <= k < |qs| - 1 ==> qs[k] == pre[k];
      assert best.Some? ==> best.value in qs;
      if q.id in used then best
      else if best.None? || Less(q, best.value) then Some(q)
      else best
  }

  /** `Session.generate_fobbit(round)`: a new fobbit (status BLUFF, nothing attached) for
      the first unused question; without one the creation fails. */
  function CreateFobbit(questions: seq<Question>, fs: seq<Fobbit>, round: int): (r: Outcome<Fobbit>)
    ensures r.NoQuestionLeft? <==> forall k :: 0 <= k < |questions| ==> questions[k].id in UsedQuestions(fs)
    ensures r.Success? ==> r.value == NewFobbit(r.value.question, round) &&
                           r.value.question in questions && r.value.question.id !in UsedQuestions(fs) &&
                           forall k :: 0 <= k < |questions| && questions[k].id !in UsedQuestions(fs) ==>
                             !Less(questions[k], r.value.question)
  {
    match FirstUnused(questions, UsedQuestions(fs))
    case None => NoQuestionLeft
    case Some(q) => Success(NewFobbit(q, round))
  }

  /** The state after a call and what the call returned (the index of the fobbit it
      activated, None for Python's None, or the failure). */
  datatype Step = Step(state: State, outcome: Outcome<Option<nat>>)

  /** `Session.next_question` (models.py:137-156). */
  function NextQuestion(questions: seq<Question>, s: State): (t: Step)
    requires ActiveInRange(s)
  {
    var r := ActiveRound(s);
    if s.modus == GUESSING then Step(s, Success(None))
    else if CountWhere(s.fobbits, InRound(r)) < QuestionsInRound(s.rounds, r) then
      match CreateFobbit(questions, s.fobbits, r)
      case NoQuestionLeft => Step(s, NoQuestionLeft)
      case Success(F) =>
        Step(s.(fobbits := s.fobbits + [F], active := Some(|s.fobbits|)), Success(Some(|s.fobbits|)))
    else
      var first := FirstWhere(s.fobbits, InRound(r));
      Step(s.(modus := GUESSING, active := if first.Some? then first else s.active), Success(first))
  }

  /** `Session.new_round(rd)` (models.py:171-179): None when no question is left, in which
      case nothing is saved. */
  function NewRound(questions: seq<Question>, s: State, rd: RoundDef): (r: Option<State>)
  {
    match CreateFobbit(questions, s.fobbits, |s.rounds|)
    case NoQuestionLeft => None
    case Success(F) =>
      Some(s.(rounds := s.rounds + [rd], fobbits := s.fobbits + [F], active := Some(|s.fobbits|), modus := BLUFFING))
  }

  /** What `generate_answers` returns: False when a guard refuses, otherwise None or the
      failure of the `next_question` it ends with. */
  datatype GenResult = Refused | Generated(next: Outcome<Option<nat>>)

  // ---------------------------------------------------------------------------
  // Properties

  lemma CountAppend(fs: seq<Fobbit>, F: Fobbit, P: Fobbit -> bool)
    ensures CountWhere(fs + [F], P) == CountWhere(fs, P) + (if P(F) then 1 else 0)
  {
    assert (fs + [F])[..|fs|] == fs;
  }

  /** Appending a fobbit for an unused question of the quiz keeps the session valid. */
  lemma AppendKeepsValid(questions: seq<Question>, s: State, F: Fobbit, f: Option<nat>)
    requires ValidState(questions, s) && WellFormed(F)
    requires F.question in questions && F.question.id !in UsedQuestions(s.fobbits)
    requires f.None? || f.value <= |s.fobbits|
    ensures ValidState(questions, s.(fobbits := s.fobbits + [F], active := f))
  {
    var fs := s.fobbits + [F];
    forall i, k | 0 <= i < k < |fs| ensures fs[i].question.id != fs[k].question.id {
      if k == |s.fobbits| {
        assert fs[i].question.id in UsedQuestions(s.fobbits);
      }
    }
  }

  /** Replacing a fobbit row by a consistent row for the same question keeps the session valid. */
  lemma ReplaceKeepsValid(questions: seq<Question>, s: State, f: nat, G: Fobbit)
    requires ValidState(questions, s) && f < |s.fobbits|
    requires WellFormed(G) && G.question == s.fobbits[f].question
    ensures ValidState(questions, s.(fobbits := s.fobbits[f := G]))
  {
    var fs := s.fobbits[f := G];
    forall i, k | 0 <= i < k < |fs| ensures fs[i].question.id != fs[k].question.id {
      assert s.fobbits[i].question.id != s.fobbits[k].question.id;
    }
  }

  /** While guessing, `next_question` only saves the session as it is and returns None. */
  lemma NextQuestionWhileGuessing(questions: seq<Question>, s: State)
    requires ActiveInRange(s) && s.modus == GUESSING
    ensures NextQuestion(questions, s) == Step(s, Success(None))
  {
  }

  /** While bluffing below the round's quota, `next_question` adds exactly one fobbit to
      the active round, for the first unused question, and activates it; without an
      unused question it fails and changes nothing. */
  lemma NextQuestionFillsRound(questions: seq<Question>, s: State)
    requires ActiveInRange(s) && s.modus == BLUFFING
    requires CountWhere(s.fobbits, InRound(ActiveRound(s))) < QuestionsInRound(s.rounds, ActiveRound(s))
    ensures var t := NextQuestion(questions, s);
            t.outcome.NoQuestionLeft? <==> forall k :: 0 <= k < |questions| ==> questions[k].id in UsedQuestions(s.fobbits)
    ensures var t := NextQuestion(questions, s);
            t.outcome.NoQuestionLeft? ==> t.state == s
    ensures var t := NextQuestion(questions, s);
            var r := ActiveRound(s);
            t.outcome.Success? ==>
              t.outcome == Success(Some(|s.fobbits|)) &&
              |t.state.fobbits| == |s.fobbits| + 1 && t.state.fobbits[..|s.fobbits|] == s.fobbits &&
              t.state.active == Some(|s.fobbits|) && ActiveRound(t.state) == r &&
              t.state.fobbits[|s.fobbits|].status == BLUFF &&
              t.state.fobbits[|s.fobbits|].question.id !in UsedQuestions(s.fobbits) &&
              CountWhere(t.state.fobbits, InRound(r)) == CountWhere(s.fobbits, InRound(r)) + 1 <= QuestionsInRound(s.rounds, r) &&
              t.state.modus == BLUFFING && t.state.players == s.players && t.state.rounds == s.rounds
  {
    var r := ActiveRound(s);
    var c := CreateFobbit(questions, s.fobbits, r);
    if c.Success? {
      CountAppend(s.fobbits, c.value, InRound(r));
      assert (s.fobbits + [c.value])[..|s.fobbits|] == s.fobbits;
    }
  }

  /** While bluffing with the round's quota reached, `next_question` switches to guessing
      and activates the round's first fobbit (keeping the active one when the round has
      none); the fobbit table is untouched. */
  lemma NextQuestionClosesRound(questions: seq<Question>, s: State)
    requires ActiveInRange(s) && s.modus == BLUFFING
    requires CountWhere(s.fobbits, InRound(ActiveRound(s))) >= QuestionsInRound(s.rounds, ActiveRound(s))
    ensures var t := NextQuestion(questions, s);
            var first := FirstWhere(s.fobbits, InRound(ActiveRound(s)));
            t.state.modus == GUESSING && t.state.fobbits == s.fobbits &&
            t.outcome == Success(first) &&
            (first.Some? ==> t.state.active == first && s.fobbits[first.value].round == ActiveRound(s) &&
                             forall i :: 0 <= i < first.value ==> s.fobbits[i].round != ActiveRound(s)) &&
            (first.None? ==> t.state.active == s.active)
  {
    var first := FirstWhere(s.fobbits, InRound(ActiveRound(s)));
    if first.Some? {
      assert InRound(ActiveRound(s))(s.fobbits[first.value]);
      assert forall i :: 0 <= i < first.value ==> !InRound(ActiveRound(s))(s.fobbits[i]);
    }
  }

  /** Without an active fobbit the active round is -1, so the quota consulted is that of
      the LAST configured round and a new fobbit is created with round -1. */
  lemma NoActiveFobbitPlaysRoundMinusOne(questions: seq<Question>, s: State)
    requires s.active.None? && s.modus == BLUFFING && |s.rounds| > 0
    requires CountWhere(s.fobbits, InRound(-1)) < s.rounds[|s.rounds| - 1].numberOfQuestions
    requires NextQuestion(questions, s).outcome.Success?
    ensures var t := NextQuestion(questions, s);
            |t.state.fobbits| == |s.fobbits| + 1 && t.state.fobbits[|s.fobbits|].round == -1
  {
    MinusOneIsLastRound(s.rounds);
  }

  /** `next_question` keeps the session valid. */
  lemma NextQuestionKeepsValid(questions: seq<Question>, s: State)
    requires ValidState(questions, s)
    ensures ValidState(questions, NextQuestion(questions, s).state)
  {
    var r := ActiveRound(s);
    if s.modus == BLUFFING && CountWhere(s.fobbits, InRound(r)) < QuestionsInRound(s.rounds, r) {
      var c := CreateFobbit(questions, s.fobbits, r);
      if c.Success? {
        AppendKeepsValid(questions, s, c.value, Some(|s.fobbits|));
      }
    }
  }

  /** A new round is appended to the settings, starts with one fresh fobbit that becomes
      active, and is then the active round: its own question count and multiplier apply.
      The session goes to BLUFFING although the source's comment speaks of guessing. */
  lemma NewRoundStartsRound(questions: seq<Question>, s: State, rd: RoundDef)
    requires ValidState(questions, s)
    ensures NewRound(questions, s, rd).None? <==>
            forall k :: 0 <= k < |questions| ==> questions[k].id in UsedQuestions(s.fobbits)
    ensures NewRound(questions, s, rd).Some? ==>
              var s' := NewRound(questions, s, rd).value;
              ValidState(questions, s') &&
              s'.rounds == s.rounds + [rd] && s'.modus == BLUFFING && s'.players == s.players &&
              |s'.fobbits| == |s.fobbits| + 1 && s'.fobbits[..|s.fobbits|] == s.fobbits &&
              s'.active == Some(|s.fobbits|) && s'.fobbits[|s.fobbits|].status == BLUFF &&
              ActiveRound(s') == |s.rounds| &&
              QuestionsInRound(s'.rounds, ActiveRound(s')) == rd.numberOfQuestions &&
              Multiplier(s'.rounds, ActiveRound(s')) == rd.multiplier
  {
    var c := CreateFobbit(questions, s.fobbits, |s.rounds|);
    if c.Success? {
      AppendKeepsValid(questions, s, c.value, Some(|s.fobbits|));
      assert (s.fobbits + [c.value])[..|s.fobbits|] == s.fobbits;
    }
  }

  /** `next_question` never touches the fobbits that already exist. */
  lemma NextQuestionKeepsRows(questions: seq<Question>, s: State)
    requires ActiveInRange(s)
    ensures var t := NextQuestion(questions, s);
            |s.fobbits| <= |t.state.fobbits| && t.state.fobbits[..|s.fobbits|] == s.fobbits &&
            ActiveInRange(t.state) && t.state.players == s.players && t.state.rounds == s.rounds
  {
    var r := ActiveRound(s);
    if s.modus == BLUFFING && CountWhere(s.fobbits, InRound(r)) < QuestionsInRound(s.rounds, r) {
      var c := CreateFobbit(questions, s.fobbits, r);
      if c.Success? {
        assert (s.fobbits + [c.value])[..|s.fobbits|] == s.fobbits;
      }
    }
  }

  // ---------------------------------------------------------------------------
  // generate_answers on the session

  /** `Fobbit.generate_answers` for fobbit f, from s0 to s1 with result r: refused by the
      guards with nothing changed, or the row regenerated and saved, followed by a
      `next_question` on the session whose failure is the result's failure. */
  ghost predicate AnswersStep(questions: seq<Question>, s0: State, f: nat, s1: State, r: GenResult)
    requires ActiveInRange(s0) && f < |s0.fobbits|
  {
    if !CanGenerate(s0.players, s0.fobbits[f]) then r == Refused && s1 == s0
    else
      r.Generated? && f < |s1.fobbits| && AnswersGenerated(s0.fobbits[f], s1.fobbits[f]) &&
      NextQuestion(questions, s0.(fobbits := s0.fobbits[f := s1.fobbits[f]])) == Step(s1, r.next)
  }

  /** How a generation that got past the guards establishes `AnswersStep`. */
  lemma AnswersStepIntro(questions: seq<Question>, s0: State, f: nat, G: Fobbit, s1: State, next: Outcome<Option<nat>>)
    requires ActiveInRange(s0) && f < |s0.fobbits|
    requires CanGenerate(s0.players, s0.fobbits[f]) && AnswersGenerated(s0.fobbits[f], G)
    requires NextQuestion(questions, s0.(fobbits := s0.fobbits[f := G])) == Step(s1, next)
    ensures AnswersStep(questions, s0, f, s1, Generated(next))
  {
    NextQuestionKeepsRows(questions, s0.(fobbits := s0.fobbits[f := G]));
    assert s1.fobbits[f] == G;
  }

  /** The session stays valid, and generation does not run again on the same fobbit: its
      status is GUESS now, so a second call is refused until the fobbit is reset. */
  lemma AnswersStepKeepsValid(questions: seq<Question>, s0: State, f: nat, s1: State, r: GenResult)
    requires ValidState(questions, s0) && f < |s0.fobbits|
    requires AnswersStep(questions, s0, f, s1, r)
    ensures ValidState(questions, s1)
    ensures r.Generated? ==> f < |s1.fobbits| && forall ps :: !CanGenerate(ps, s1.fobbits[f])
  {
    if r.Generated? {
      var G := s1.fobbits[f];
      GenerationGuarantees(s0.fobbits[f], G);
      var mid := s0.(fobbits := s0.fobbits[f := G]);
      assert ValidState(questions, mid) by {
        forall i, k | 0 <= i < k < |mid.fobbits| ensures mid.fobbits[i].question.id != mid.fobbits[k].question.id {
          assert s0.fobbits[i].question.id != s0.fobbits[k].question.id;
        }
      }
      NextQuestionKeepsValid(questions, mid);
    }
  }
}
