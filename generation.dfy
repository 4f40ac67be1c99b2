/** The answer generator: folding every bluff onto a case-insensitively equal answer or
    a new one, the anti-guessing shuffle and numbering, and the guards and cascades
    around them. */
module Generation {
  import opened Entities
  import opened Queries

  // ---------------------------------------------------------------------------
  // Roster views and the generation guard

  /** The players who have a bluff for this fobbit. */
  function Bluffers(F: Fobbit): (r: set<Player>) {
    set i | 0 <= i < |F.bluffs| :: F.bluffs[i].player
  }

  /** The players who have a guess on one of this fobbit's answers. */
  function Guessers(F: Fobbit): (r: set<Player>) {
    set j | 0 <= j < |F.guesses| :: F.guesses[j].player
  }

  /** `Fobbit.players_without_bluff`. */
  function PlayersWithoutBluff(players: set<Player>, F: Fobbit): (r: set<Player>)
    ensures forall p :: p in r <==> p in players && forall i :: 0 <= i < |F.bluffs| ==> F.bluffs[i].player != p
  {
    players - Bluffers(F)
  }

  /** `Fobbit.players_without_guess`. */
  function PlayersWithoutGuess(players: set<Player>, F: Fobbit): (r: set<Player>)
    ensures forall p :: p in r <==> p in players && forall j :: 0 <= j < |F.guesses| ==> F.guesses[j].player != p
  {
    players - Guessers(F)
  }

  /** The three guards of `generate_answers`: a non-empty roster, as many bluffs as
      rostered players (a count, not a membership test), and status still BLUFF. */
  predicate CanGenerate(players: set<Player>, F: Fobbit) {
    |players| != 0 && |F.bluffs| == |players| && F.status.Rank() < GUESS.Rank()
  }

  /** The guard counts bluffs instead of checking who bluffed: a bluff by someone off the
      roster can stand in for a rostered player who has not bluffed yet. */
  lemma CountNotMembership()
    ensures exists players, F :: WellFormed(F) && CanGenerate(players, F) && PlayersWithoutBluff(players, F) != {}
  {
    var q := Question(0, 0, "Capital of France?", "Paris");
    var F := Fobbit(q, 0, BLUFF, [], [Bluff(1, "London", None), Bluff(3, "Rome", None)], []);
    var players: set<Player> := {1, 2};
    assert |players| == 2;
    assert 2 in PlayersWithoutBluff(players, F);
    assert WellFormed(F) && CanGenerate(players, F);
  }

  // ---------------------------------------------------------------------------
  // Deleting a fobbit's answers

  function Unlinked(bs: seq<Bluff>): (r: seq<Bluff>)
    ensures |r| == |bs|
    ensures forall i :: 0 <= i < |bs| ==> r[i] == bs[i].(answer := None)
  {
    seq(|bs|, i requires 0 <= i < |bs| => bs[i].(answer := None))
  }

  /** `self.answers.all().delete()` with the cascades of the schema: guesses on the
      deleted answers are deleted, bluff links to them are set to null. */
  function Cleared(F: Fobbit): (G: Fobbit)
    ensures WellFormed(F) ==> WellFormed(G)
    ensures G.answers == [] && G.guesses == [] && |G.bluffs| == |F.bluffs|
    ensures forall i :: 0 <= i < |G.bluffs| ==>
              G.bluffs[i].answer.None? && G.bluffs[i].player == F.bluffs[i].player && G.bluffs[i].text == F.bluffs[i].text
    ensures G.question == F.question && G.round == F.round && G.status == F.status
  {
    F.(answers := [], guesses := [], bluffs := Unlinked(F.bluffs))
  }

  // ---------------------------------------------------------------------------
  // Folding bluffs onto answers

  function MatchesText(text: string): (r: Answer -> bool) { (a: Answer) => IEqual(a.text, text) }

  /** `self.answers.filter(text__iexact=text).first()`. */
  function FindIExact(answers: seq<Answer>, text: string): (r: Option<nat>)
    ensures r.Some? ==> r.value < |answers| && IEqual(answers[r.value].text, text)
    ensures r.None? ==> forall j :: 0 <= j < |answers| ==> !IEqual(answers[j].text, text)
  {
    var r := FirstWhere(answers, MatchesText(text));
    assert r.Some? ==> MatchesText(text)(answers[r.value]);
    assert r.None? ==> forall j :: 0 <= j < |answers| ==> !MatchesText(text)(answers[j]);
    r
  }

  function CorrectAnswer(correct: string): (a: Answer) { Answer(correct, None, false, true) }

  function BluffAnswer(text: string): (a: Answer) { Answer(text, None, false, false) }

  datatype Merged = Merged(answers: seq<Answer>, bluffs: seq<Bluff>)

  /** No two answers are equal up to letter case. */
  predicate CaseDistinct(answers: seq<Answer>) {
    forall j, k :: 0 <= j < k < |answers| ==> !IEqual(answers[j].text, answers[k].text)
  }

  /** Bluff i of the merge is bluff i of the input, linked to an answer whose text equals
      the bluff's text up to letter case. */
  predicate LinkedAt(m: Merged, bs: seq<Bluff>, i: nat)
    requires i < |bs| && |m.bluffs| == |bs|
  {
    m.bluffs[i] == bs[i].(answer := m.bluffs[i].answer) &&
    m.bluffs[i].answer.Some? && m.bluffs[i].answer.value < |m.answers| &&
    IEqual(m.answers[m.bluffs[i].answer.value].text, bs[i].text)
  }

  /** Answer j of the merge was created for a bluff: one bluff with exactly its text is linked to it. */
  ghost predicate CreatedFor(m: Merged, bs: seq<Bluff>, j: nat)
    requires j < |m.answers| && |m.bluffs| == |bs|
  {
    exists i :: 0 <= i < |bs| && m.bluffs[i].answer == Some(j) && bs[i].text == m.answers[j].text
  }

  /** What folding the bluffs bs over the seeded correct answer yields: the correct
      answer first and bluff answers after it, no two equal up to letter case, each bluff
      linked to a matching answer, and every bluff answer made for a bluff of that text. */
  ghost predicate Folded(correct: string, bs: seq<Bluff>, m: Merged) {
    1 <= |m.answers| <= |bs| + 1 &&
    m.answers[0] == CorrectAnswer(correct) &&
    (forall j :: 1 <= j < |m.answers| ==> m.answers[j] == BluffAnswer(m.answers[j].text)) &&
    |m.bluffs| == |bs| &&
    (forall i :: 0 <= i < |bs| ==> LinkedAt(m, bs, i)) &&
    CaseDistinct(m.answers) &&
    (forall j :: 1 <= j < |m.answers| ==> CreatedFor(m, bs, j))
  }

  /** Folding one more bluff onto an answer it matches. */
  lemma FoldOntoExisting(correct: string, pre: seq<Bluff>, b: Bluff, prev: Merged, j: nat)
    requires Folded(correct, pre, prev)
    requires j < |prev.answers| && IEqual(prev.answers[j].text, b.text)
    ensures Folded(correct, pre + [b], Merged(prev.answers, prev.bluffs + [b.(answer := Some(j))]))
  {
    var bs := pre + [b];
    var m := Merged(prev.answers, prev.bluffs + [b.(answer := Some(j))]);
    forall i | 0 <= i < |bs| ensures LinkedAt(m, bs, i) {
      if i < |pre| {
        assert LinkedAt(prev, pre, i) && m.bluffs[i] == prev.bluffs[i] && bs[i] == pre[i];
      }
    }
    forall j' | 1 <= j' < |m.answers| ensures CreatedFor(m, bs, j') {
      assert CreatedFor(prev, pre, j');
      var i :| 0 <= i < |pre| && prev.bluffs[i].answer == Some(j') && pre[i].text == prev.answers[j'].text;
      assert m.bluffs[i] == prev.bluffs[i] && bs[i] == pre[i];
    }
  }

  /** Folding one more bluff that matches no answer: it gets a new answer of its own. */
  lemma FoldOntoNew(correct: string, pre: seq<Bluff>, b: Bluff, prev: Merged)
    requires Folded(correct, pre, prev)
    requires forall j :: 0 <= j < |prev.answers| ==> !IEqual(prev.answers[j].text, b.text)
    ensures Folded(correct, pre + [b],
                   Merged(prev.answers + [BluffAnswer(b.text)], prev.bluffs + [b.(answer := Some(|prev.answers|))]))
  {
    var bs := pre + [b];
    var n := |prev.answers|;
    var m := Merged(prev.answers + [BluffAnswer(b.text)], prev.bluffs + [b.(answer := Some(n))]);
    forall i | 0 <= i < |bs| ensures LinkedAt(m, bs, i) {
      if i < |pre| {
        assert LinkedAt(prev, pre, i) && m.bluffs[i] == prev.bluffs[i] && bs[i] == pre[i];
      }
    }
    forall j' | 1 <= j' < |m.answers| ensures CreatedFor(m, bs, j') {
      if j' == n {
        assert m.bluffs[|pre|].answer == Some(j') && bs[|pre|].text == m.answers[j'].text;
      } else {
        assert CreatedFor(prev, pre, j');
        var i :| 0 <= i < |pre| && prev.bluffs[i].answer == Some(j') && pre[i].text == prev.answers[j'].text;
        assert m.bluffs[i] == prev.bluffs[i] && bs[i] == pre[i];
      }
    }
  }

  /** Folding one bluff (models.py:279-286): link it to the first answer that matches its text
      up to letter case, or to a new answer created with its text. */
  function FoldOne(m: Merged, b: Bluff): (r: Merged) {
    match FindIExact(m.answers, b.text)
    case Some(j) => Merged(m.answers, m.bluffs + [b.(answer := Some(j))])
    case None => Merged(m.answers + [BluffAnswer(b.text)], m.bluffs + [b.(answer := Some(|m.answers|))])
  }

  lemma FoldOneKeepsFolded(correct: string, pre: seq<Bluff>, b: Bluff, prev: Merged)
    requires Folded(correct, pre, prev)
    ensures Folded(correct, pre + [b], FoldOne(prev, b))
  {
    match FindIExact(prev.answers, b.text)
    case Some(j) => FoldOntoExisting(correct, pre, b, prev, j);
    case None => FoldOntoNew(correct, pre, b, prev);
  }

  /** The reference definition of models.py:272-286: seed the correct answer, then fold the
      bluffs in table order. */
  function MergeAll(correct: string, bs: seq<Bluff>): (m: Merged)
    ensures |m.bluffs| == |bs| && 1 <= |m.answers| <= |bs| + 1
    decreases |bs|
  {
    if |bs| == 0 then Merged([CorrectAnswer(correct)], [])
    else FoldOne(MergeAll(correct, bs[..|bs| - 1]), bs[|bs| - 1])
  }

  lemma {:induction false} MergeAllFolded(correct: string, bs: seq<Bluff>)
    ensures Folded(correct, bs, MergeAll(correct, bs))
    decreases |bs|
  {
    if |bs| > 0 {
      var pre := bs[..|bs| - 1];
      MergeAllFolded(correct, pre);
      assert bs == pre + [bs[|bs| - 1]];
      FoldOneKeepsFolded(correct, pre, bs[|bs| - 1], MergeAll(correct, pre));
    }
  }

  /** The loop of models.py:278-286: the same fold, bluff by bluff. */
  method MergeBluffs(correct: string, bs: seq<Bluff>) returns (answers: seq<Answer>, linked: seq<Bluff>)
    ensures Merged(answers, linked) == MergeAll(correct, bs)
  {
    answers := [CorrectAnswer(correct)];
    linked := [];
    var i := 0;
    while i < |bs|
      invariant 0 <= i <= |bs|
      invariant Merged(answers, linked) == MergeAll(correct, bs[..i])
    {
      MergeAllStep(correct, bs, i);
      var b := bs[i];
      var hit := FindIExact(answers, b.text);
      if hit.None? {
        linked := linked + [b.(answer := Some(|answers|))];
        answers := answers + [BluffAnswer(b.text)];
      } else {
        linked := linked + [b.(answer := hit)];
      }
      i := i + 1;
    }
    assert bs[..i] == bs;
  }

  lemma MergeAllStep(correct: string, bs: seq<Bluff>, i: nat)
    requires i < |bs|
    ensures MergeAll(correct, bs[..i + 1]) == FoldOne(MergeAll(correct, bs[..i]), bs[i])
  {
    assert bs[..i + 1][..i] == bs[..i];
  }

  /** Exactly one answer is correct, and its text is the question's correct answer. */
  lemma ExactlyOneCorrect(correct: string, bs: seq<Bluff>, j: nat)
    requires j < |MergeAll(correct, bs).answers|
    ensures MergeAll(correct, bs).answers[j].isCorrect <==> j == 0
    ensures MergeAll(correct, bs).answers[0].text == correct
  {
    MergeAllFolded(correct, bs);
    var m := MergeAll(correct, bs);
    if j > 0 { assert m.answers[j] == BluffAnswer(m.answers[j].text); }
  }

  /** Bluffs that agree up to letter case collapse onto one answer. */
  lemma DuplicateBluffsShareAnswer(correct: string, bs: seq<Bluff>, i: nat, k: nat)
    requires i < |bs| && k < |bs| && IEqual(bs[i].text, bs[k].text)
    ensures MergeAll(correct, bs).bluffs[i].answer == MergeAll(correct, bs).bluffs[k].answer
  {
    MergeAllFolded(correct, bs);
    var m := MergeAll(correct, bs);
    assert LinkedAt(m, bs, i) && LinkedAt(m, bs, k);
  }

  /** A bluff that equals the truth up to letter case is linked to the correct answer
      (it is not left unlinked). */
  lemma TruthBluffLinksToCorrect(correct: string, bs: seq<Bluff>, i: nat)
    requires i < |bs| && IEqual(bs[i].text, correct)
    ensures MergeAll(correct, bs).bluffs[i].answer == Some(0)
    ensures MergeAll(correct, bs).answers[0].isCorrect
  {
    MergeAllFolded(correct, bs);
    var m := MergeAll(correct, bs);
    assert LinkedAt(m, bs, i);
  }

  /** The scoring rules test `answer.text == correct_answer` exactly; on generated answers
      that test picks out the correct answer and nothing else. */
  lemma ExactTextMeansCorrect(correct: string, bs: seq<Bluff>, j: nat)
    requires j < |MergeAll(correct, bs).answers|
    ensures MergeAll(correct, bs).answers[j].text == correct <==> MergeAll(correct, bs).answers[j].isCorrect
  {
    MergeAllFolded(correct, bs);
    var m := MergeAll(correct, bs);
    if j > 0 {
      assert !IEqual(m.answers[0].text, m.answers[j].text);
      assert m.answers[j] == BluffAnswer(m.answers[j].text);
    }
  }

  /** When the correct answer and all bluffs differ pairwise up to letter case, every
      bluff gets an answer of its own, in table order after the correct one. */
  lemma {:induction false} DistinctBluffsGetOwnAnswers(correct: string, bs: seq<Bluff>)
    requires forall i :: 0 <= i < |bs| ==> !IEqual(bs[i].text, correct)
    requires forall i, k :: 0 <= i < k < |bs| ==> !IEqual(bs[i].text, bs[k].text)
    ensures |MergeAll(correct, bs).answers| == |bs| + 1
    ensures forall i :: 0 <= i < |bs| ==>
              MergeAll(correct, bs).answers[i + 1] == BluffAnswer(bs[i].text) &&
              MergeAll(correct, bs).bluffs[i] == bs[i].(answer := Some(i + 1))
    decreases |bs|
  {
    if |bs| > 0 {
      var pre := bs[..|bs| - 1];
      assert forall i :: 0 <= i < |pre| ==> pre[i] == bs[i];
      DistinctBluffsGetOwnAnswers(correct, pre);
      MergeAllFolded(correct, pre);
      var prev := MergeAll(correct, pre);
      var b := bs[|bs| - 1];
      assert forall j :: 0 <= j < |prev.answers| ==> !IEqual(prev.answers[j].text, b.text) by {
        forall j | 0 <= j < |prev.answers| ensures !IEqual(prev.answers[j].text, b.text) {
          if j > 0 { assert prev.answers[j] == BluffAnswer(pre[j - 1].text); }
        }
      }
      assert FindIExact(prev.answers, b.text).None?;
      var m := Merged(prev.answers + [BluffAnswer(b.text)], prev.bluffs + [b.(answer := Some(|prev.answers|))]);
      assert MergeAll(correct, bs) == FoldOne(prev, b) == m;
      forall i | 0 <= i < |bs|
        ensures m.answers[i + 1] == BluffAnswer(bs[i].text) && m.bluffs[i] == bs[i].(answer := Some(i + 1))
      {
        if i < |pre| {
          assert m.answers[i + 1] == prev.answers[i + 1] && m.bluffs[i] == prev.bluffs[i];
        }
      }
    }
  }

  // ---------------------------------------------------------------------------
  // Shuffling and numbering

  /** p lists 0 .. n-1, each exactly once. */
  predicate IsPermutation(p: seq<nat>, n: nat) {
    |p| == n &&
    (forall k :: 0 <= k < n ==> p[k] < n) &&
    (forall k, l :: 0 <= k < l < n ==> p[k] != p[l]) &&
    (forall j :: 0 <= j < n ==> j in p)
  }

  /** Some answer carries display order v. */
  ghost predicate HasOrder(answers: seq<Answer>, v: int) {
    exists j :: 0 <= j < |answers| && answers[j].order == Some(v)
  }

  /** The display orders are exactly 1 .. N, one per answer. */
  ghost predicate OrderedOneToN(answers: seq<Answer>) {
    (forall j :: 0 <= j < |answers| ==> answers[j].order.Some? && 1 <= answers[j].order.value <= |answers|) &&
    (forall j, k :: 0 <= j < k < |answers| ==> answers[j].order != answers[k].order) &&
    (forall v :: 1 <= v <= |answers| ==> HasOrder(answers, v))
  }

  /** The two tables agree on everything except the display order. */
  predicate SameButOrder(xs: seq<Answer>, ys: seq<Answer>) {
    |xs| == |ys| && forall j :: 0 <= j < |xs| ==> ys[j] == xs[j].(order := ys[j].order)
  }

  function Identity(n: nat): (p: seq<nat>)
    ensures IsPermutation(p, n)
  {
    var p := seq(n, k requires 0 <= k < n => k as nat);
    forall j | 0 <= j < n ensures j in p {
      assert p[j] == j;
    }
    p
  }

  /** models.py:288-293: `random.shuffle` (any permutation may come out) followed by
      numbering the shuffled answers 1, 2, ... N. */
  method ShuffleAndNumber(answers: seq<Answer>) returns (ordered: seq<Answer>)
    ensures SameButOrder(answers, ordered)
    ensures OrderedOneToN(ordered)
  {
    var n := |answers|;
    assert IsPermutation(Identity(n), n);
    var perm: seq<nat> :| IsPermutation(perm, n);
    assert IsPermutation(perm, n);
    ordered := answers;
    var k := 0;
    while k < n
      invariant 0 <= k <= n
      invariant SameButOrder(answers, ordered)
      invariant forall l :: 0 <= l < k ==> ordered[perm[l]].order == Some(l + 1)
    {
      ordered := ordered[perm[k] := ordered[perm[k]].(order := Some(k + 1))];
      k := k + 1;
    }
    forall v | 1 <= v <= n ensures HasOrder(ordered, v) {
      assert ordered[perm[v - 1]].order == Some(v);
    }
    forall j | 0 <= j < n ensures exists l :: 0 <= l < n && perm[l] == j && ordered[j].order == Some(l + 1) {
      assert j in perm;
      var l :| 0 <= l < n && perm[l] == j;
    }
  }

  // ---------------------------------------------------------------------------
  // The whole of generate_answers on one fobbit row

  /** G is what models.py:269-296 leave of fobbit row F: the bluffs folded over the freshly
      seeded correct answer, any shuffle of the resulting answers numbered 1 .. N, no
      guesses (the deleted answers took them along) and status GUESS. */
  ghost predicate AnswersGenerated(F: Fobbit, G: Fobbit) {
    var m := MergeAll(F.question.correctAnswer, Unlinked(F.bluffs));
    G.question == F.question && G.round == F.round && G.status == GUESS && G.guesses == [] &&
    G.bluffs == m.bluffs && SameButOrder(m.answers, G.answers) && OrderedOneToN(G.answers)
  }

  /** What generation guarantees about the new answer table, whatever the shuffle did. */
  lemma GenerationGuarantees(F: Fobbit, G: Fobbit)
    requires AnswersGenerated(F, G)
    ensures WellFormed(F) ==> WellFormed(G)
    ensures 1 <= |G.answers| <= |F.bluffs| + 1
    ensures exists j :: 0 <= j < |G.answers| && G.answers[j].isCorrect
    ensures forall j, k :: 0 <= j < k < |G.answers| ==> !(G.answers[j].isCorrect && G.answers[k].isCorrect)
    ensures forall j :: 0 <= j < |G.answers| ==>
              (G.answers[j].text == F.question.correctAnswer <==> G.answers[j].isCorrect)
    ensures CaseDistinct(G.answers)
    ensures |G.bluffs| == |F.bluffs|
    ensures forall i :: 0 <= i < |F.bluffs| ==>
              G.bluffs[i].player == F.bluffs[i].player && G.bluffs[i].text == F.bluffs[i].text &&
              G.bluffs[i].answer.Some? && G.bluffs[i].answer.value < |G.answers| &&
              IEqual(G.answers[G.bluffs[i].answer.value].text, F.bluffs[i].text)
    ensures forall players :: !CanGenerate(players, G)
  {
    var correct := F.question.correctAnswer;
    var bs := Unlinked(F.bluffs);
    var m := MergeAll(correct, bs);
    MergeAllFolded(correct, bs);
    forall j | 0 <= j < |G.answers|
      ensures G.answers[j].isCorrect <==> j == 0
      ensures G.answers[j].text == correct <==> G.answers[j].isCorrect
    {
      ExactlyOneCorrect(correct, bs, j);
      ExactTextMeansCorrect(correct, bs, j);
    }
    assert G.answers[0].isCorrect;
    forall i | 0 <= i < |F.bluffs|
      ensures G.bluffs[i].player == F.bluffs[i].player && G.bluffs[i].text == F.bluffs[i].text &&
              G.bluffs[i].answer.Some? && G.bluffs[i].answer.value < |G.answers| &&
              IEqual(G.answers[G.bluffs[i].answer.value].text, F.bluffs[i].text)
    {
      assert LinkedAt(m, bs, i);
    }
    assert CaseDistinct(m.answers);
  }

  /** models.py:269-296 on one fobbit row: delete the answers, seed the correct one, fold the
      bluffs, shuffle and number, set status GUESS. */
  method RegenerateRow(F: Fobbit) returns (G: Fobbit)
    requires WellFormed(F)
    ensures AnswersGenerated(F, G) && WellFormed(G)
  {
    G := Cleared(F);
    var answers, linked := MergeBluffs(G.question.correctAnswer, G.bluffs);
    var ordered := ShuffleAndNumber(answers);
    G := G.(answers := ordered, bluffs := linked, status := GUESS);
    GenerationGuarantees(F, G);
  }
}
