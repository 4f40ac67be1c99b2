/** What happens to one fobbit row between generations: players submit bluffs and
    guesses, and the host resets, clears or finishes the fobbit. */
module Lifecycle {
  import opened Entities
  import opened Queries
  import opened Generation
  import opened Scoring

  // ---------------------------------------------------------------------------
  // Submitting a bluff

  /** Writing player p's bluff: the (fobbit, player) pair is unique, so an existing bluff
      gets the new text (its answer link is kept) and otherwise a new unlinked row is added. */
  function Upserted(F: Fobbit, p: Player, text: string): (G: Fobbit)
    ensures G == F.(bluffs := G.bluffs)
    ensures FirstWhere(F.bluffs, BluffBy(p)).None? ==> G.bluffs == F.bluffs + [Bluff(p, text, None)]
    ensures FirstWhere(F.bluffs, BluffBy(p)).Some? ==>
              var i := FirstWhere(F.bluffs, BluffBy(p)).value;
              G.bluffs == F.bluffs[i := F.bluffs[i].(text := text)]
    ensures WellFormed(F) ==> WellFormed(G)
  {
    match FirstWhere(F.bluffs, BluffBy(p))
    case Some(i) =>
      assert BluffBy(p)(F.bluffs[i]);
      F.(bluffs := F.bluffs[i := F.bluffs[i].(text := text)])
    case None =>
      assert forall i :: 0 <= i < |F.bluffs| ==> !BluffBy(p)(F.bluffs[i]);
      F.(bluffs := F.bluffs + [Bluff(p, text, None)])
  }

  /** Resubmitting overwrites in place: afterwards the player has exactly one bluff, with
      the latest text, and the table grew by at most one row. */
  lemma OneBluffPerPlayer(F: Fobbit, p: Player, text: string)
    requires WellFormed(F)
    ensures var G := Upserted(F, p, text);
            GetWhere(G.bluffs, BluffBy(p)).Some? &&
            G.bluffs[GetWhere(G.bluffs, BluffBy(p)).value].text == text &&
            |F.bluffs| <= |G.bluffs| <= |F.bluffs| + 1
  {
    var G := Upserted(F, p, text);
    var k := if FirstWhere(F.bluffs, BluffBy(p)).Some? then FirstWhere(F.bluffs, BluffBy(p)).value else |F.bluffs|;
    assert BluffBy(p)(G.bluffs[k]);
    assert forall l :: 0 <= l < |G.bluffs| && l != k ==> !BluffBy(p)(G.bluffs[l]);
  }

  /** A submission takes exactly its player off every roster's list of players without a bluff. */
  lemma BluffRemovesFromWaiting(players: set<Player>, F: Fobbit, p: Player, text: string)
    ensures PlayersWithoutBluff(players, Upserted(F, p, text)) == PlayersWithoutBluff(players, F) - {p}
  {
    var G := Upserted(F, p, text);
    var k := if FirstWhere(F.bluffs, BluffBy(p)).Some? then FirstWhere(F.bluffs, BluffBy(p)).value else |F.bluffs|;
    assert G.bluffs[k].player == p;
    assert forall i :: 0 <= i < |G.bluffs| && i != k ==> G.bluffs[i].player == F.bluffs[i].player;
    if k < |F.bluffs| {
      assert BluffBy(p)(F.bluffs[k]);
    }
  }

  /** Submitting the same bluff twice is the same as submitting it once. */
  lemma ResubmissionIdempotent(F: Fobbit, p: Player, text: string)
    requires WellFormed(F)
    ensures Upserted(Upserted(F, p, text), p, text) == Upserted(F, p, text)
  {
    var G := Upserted(F, p, text);
    var k := if FirstWhere(F.bluffs, BluffBy(p)).Some? then FirstWhere(F.bluffs, BluffBy(p)).value else |F.bluffs|;
    assert BluffBy(p)(G.bluffs[k]);
    assert FirstWhere(G.bluffs, BluffBy(p)) == Some(k) by {
      assert forall l :: 0 <= l < |G.bluffs| && l != k ==> !BluffBy(p)(G.bluffs[l]);
    }
    assert G.bluffs[k := G.bluffs[k].(text := text)] == G.bluffs;
  }

  // ---------------------------------------------------------------------------
  // Guessing

  /** Creating `Guess(answer, player)`: the answer must be one of this fobbit's answers
      (the foreign key); nothing stops a player from guessing twice. A guess keeps the rows
      consistent and takes exactly its player off every roster's waiting list. */
  function Guessed(F: Fobbit, p: Player, a: nat): (r: Option<Fobbit>)
    ensures r.None? <==> a >= |F.answers|
    ensures r.Some? ==> r.value == F.(guesses := F.guesses + [Guess(p, a)])
    ensures r.Some? && WellFormed(F) ==> WellFormed(r.value)
    ensures r.Some? ==> forall players :: PlayersWithoutGuess(players, r.value) == PlayersWithoutGuess(players, F) - {p}
  {
    if a < |F.answers| then
      var G := F.(guesses := F.guesses + [Guess(p, a)]);
      assert G.guesses[|F.guesses|].player == p;
      assert forall j :: 0 <= j < |F.guesses| ==> G.guesses[j] == F.guesses[j];
      Some(G)
    else None
  }

  /** Guessing twice makes `Guess.objects.get(...)` fail, so once the fobbit is finished
      the player's score for it cannot be computed at all. */
  lemma GuessingTwiceBreaksScore(F: Fobbit, p: Player, a: nat, b: nat, m: real)
    requires WellFormed(F) && a < |F.answers| && b < |F.answers|
    ensures var G := Guessed(Guessed(F, p, a).value, p, b).value;
            WellFormed(G) && FobbitScore(G.(status := FINISHED), p, m).None?
  {
    var G := Guessed(Guessed(F, p, a).value, p, b).value;
    var n := |F.guesses|;
    assert GuessBy(p)(G.guesses[n]) && GuessBy(p)(G.guesses[n + 1]);
  }

  // ---------------------------------------------------------------------------
  // Reset, delete_answers and finish

  /** `Fobbit.reset`: back to status BLUFF with the answers (and with them the guesses)
      deleted; the bluffs survive, unlinked. */
  function ResetRow(F: Fobbit): (G: Fobbit)
    ensures G.status == BLUFF && G.answers == [] && G.guesses == []
    ensures G.question == F.question && G.round == F.round
    ensures G.bluffs == Unlinked(F.bluffs)
  {
    Cleared(F).(status := BLUFF)
  }

  /** After a reset the unchanged bluffs are enough to generate the answers again, the
      fobbit scores nothing, and resetting twice is resetting once. */
  lemma ResetReopensBluffing(players: set<Player>, F: Fobbit, p: Player, m: real)
    requires WellFormed(F)
    ensures WellFormed(ResetRow(F))
    ensures CanGenerate(players, ResetRow(F)) <==> |players| != 0 && |F.bluffs| == |players|
    ensures FobbitScore(ResetRow(F), p, m) == Some(0.0)
    ensures ResetRow(ResetRow(F)) == ResetRow(F)
  {
    assert Unlinked(Unlinked(F.bluffs)) == Unlinked(F.bluffs);
  }

  /** `Fobbit.delete_answers`: clears an unfinished fobbit just like `reset`; a FINISHED
      fobbit is left alone (the method then returns None). */
  function DeleteAnswersRow(F: Fobbit): (r: Option<Fobbit>)
  {
    if F.status.Rank() < FINISHED.Rank() then Some(ResetRow(F)) else None
  }

  lemma DeleteAnswersProtectsFinished(F: Fobbit)
    ensures DeleteAnswersRow(F).None? <==> F.status == FINISHED
  {
  }

  /** `Fobbit.finish`: every rostered player must have guessed; otherwise the source raises
      and nothing changes. The status it starts from is not checked. */
  function FinishRow(players: set<Player>, F: Fobbit): (r: Option<Fobbit>)
  {
    if PlayersWithoutGuess(players, F) == {} then Some(F.(status := FINISHED)) else None
  }

  lemma FinishNeedsEveryGuess(players: set<Player>, F: Fobbit)
    ensures FinishRow(players, F).Some? <==>
            forall p :: p in players ==> exists j :: 0 <= j < |F.guesses| && F.guesses[j].player == p
    ensures FinishRow(players, F).Some? ==>
            FinishRow(players, F).value.status == FINISHED &&
            FinishRow(players, F).value.(status := F.status) == F
  {
    if FinishRow(players, F).None? {
      var p :| p in PlayersWithoutGuess(players, F);
      assert p in players && forall j :: 0 <= j < |F.guesses| ==> F.guesses[j].player != p;
    }
  }

  /** A finished fobbit is final: its answers can be neither regenerated nor deleted, and
      finishing it again changes nothing. */
  lemma FinishedIsFinal(players: set<Player>, F: Fobbit, others: set<Player>)
    requires FinishRow(players, F).Some?
    ensures var G := FinishRow(players, F).value;
            !CanGenerate(others, G) && DeleteAnswersRow(G).None? && FinishRow(players, G) == Some(G)
  {
  }
}
