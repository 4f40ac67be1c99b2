/** A worked round with two players, checking the formulas on concrete rows. */
module Scenario {
  import opened Entities
  import opened Queries
  import opened Scoring
  import opened Generation
  import opened Lifecycle

  const alice: Player := 1
  const bob: Player := 2

  function France(): (q: Question) { Question(7, 1, "Capital of France?", "Paris") }

  /** The fobbit once Alice has bluffed "London" and Bob "Rome". */
  function Bluffed(): (F: Fobbit) {
    Fobbit(France(), 0, BLUFF, [], [Bluff(alice, "London", None), Bluff(bob, "Rome", None)], [])
  }

  /** The answers after generation, under the shuffle that put London first and Rome last. */
  function Generated(): (F: Fobbit) {
    Fobbit(France(), 0, GUESS,
           [Answer("Paris", Some(2), false, true), Answer("London", Some(1), false, false),
            Answer("Rome", Some(3), false, false)],
           [Bluff(alice, "London", Some(1)), Bluff(bob, "Rome", Some(2))],
           [])
  }

  /** Alice falls for Rome, Bob picks the truth, and the host finishes the fobbit. */
  function Played(): (F: Fobbit) {
    Generated().(status := FINISHED, guesses := [Guess(alice, 2), Guess(bob, 0)])
  }

  lemma PlayedWellFormed()
    ensures WellFormed(Played())
  {
  }

  /** `.get(P)` on a two-row table where exactly row k matches. */
  lemma GetOneOfTwo<T>(s: seq<T>, P: T -> bool, k: nat)
    requires |s| == 2 && k < 2 && P(s[k]) && !P(s[1 - k])
    ensures GetWhere(s, P) == Some(k)
  {
    assert FirstWhere(s, P) == Some(k);
    var rest := s[k + 1..];
    assert forall j :: 0 <= j < |rest| ==> rest[j] == s[k + 1 + j];
    assert FirstWhere(rest, P).None?;
  }

  /** Who bluffed and guessed what, as the queries see it. */
  lemma AliceRows()
    ensures GetWhere(Played().bluffs, BluffBy(alice)) == Some(0)
    ensures GetWhere(Played().guesses, GuessBy(alice)) == Some(0)
  {
    var F := Played();
    GetOneOfTwo(F.bluffs, BluffBy(alice), 0);
    GetOneOfTwo(F.guesses, GuessBy(alice), 0);
  }

  lemma BobRows()
    ensures GetWhere(Played().bluffs, BluffBy(bob)) == Some(1)
    ensures GetWhere(Played().guesses, GuessBy(bob)) == Some(1)
  {
    var F := Played();
    GetOneOfTwo(F.bluffs, BluffBy(bob), 1);
    GetOneOfTwo(F.guesses, GuessBy(bob), 1);
  }

  /** Nobody picked London and Alice picked a bluff: Alice earns nothing. */
  lemma AliceScores()
    ensures WellFormed(Played()) && FobbitScore(Played(), alice, 1.0) == Some(0.0)
  {
    var F := Played();
    PlayedWellFormed();
    AliceRows();
    assert FirstWhere(F.guesses, GuessBy(alice)) == Some(0) by {
      assert GuessBy(alice)(F.guesses[0]);
    }
    assert CountWhere(F.guesses, GuessOn(Some(1))) == 0;
    assert BluffScore(F, 0, 1.0) == 0.0;
  }

  /** Bob earns 500 for fooling Alice and 1000 for the truth. */
  lemma BobScores()
    ensures WellFormed(Played()) && FobbitScore(Played(), bob, 1.0) == Some(1500.0)
  {
    var F := Played();
    PlayedWellFormed();
    BobRows();
    assert FirstWhere(F.guesses, GuessBy(bob)) == Some(1) by {
      assert !GuessBy(bob)(F.guesses[0]) && GuessBy(bob)(F.guesses[1]);
    }
    assert CountWhere(F.guesses, GuessOn(Some(2))) == 1 by {
      assert F.guesses[..1] == [Guess(alice, 2)];
    }
    assert CountWhere(F.bluffs, BluffOn(Some(2))) == 1 by {
      assert F.bluffs[..1] == [Bluff(alice, "London", Some(1))];
    }
    assert BluffScore(F, 1, 1.0) == 500.0;
  }

  /** The bluffs London and Rome fold onto two new answers next to the truth. */
  lemma ThreeAnswers()
    ensures MergeAll("Paris", Unlinked(Bluffed().bluffs)) ==
            Merged([CorrectAnswer("Paris"), BluffAnswer("London"), BluffAnswer("Rome")],
                   [Bluff(alice, "London", Some(1)), Bluff(bob, "Rome", Some(2))])
  {
    var bs := Unlinked(Bluffed().bluffs);
    assert bs == [Bluff(alice, "London", None), Bluff(bob, "Rome", None)];
    assert Lower("Paris")[0] == 'p' && Lower("London")[0] == 'l' && Lower("Rome")[0] == 'r';
    var m0 := Merged([CorrectAnswer("Paris")], []);
    assert !MatchesText("London")(m0.answers[0]);
    var m1 := Merged([CorrectAnswer("Paris"), BluffAnswer("London")], [Bluff(alice, "London", Some(1))]);
    assert bs[..1][..0] == [] && bs[..1] == [bs[0]];
    assert MergeAll("Paris", bs[..1]) == FoldOne(m0, bs[0]) == m1;
    assert !MatchesText("Rome")(m1.answers[0]) && !MatchesText("Rome")(m1.answers[1]);
    assert MergeAll("Paris", bs) == FoldOne(m1, bs[1]);
  }

  /** The generated answers are numbered 1 .. 3, one number each. */
  lemma GeneratedOrders()
    ensures |Generated().answers| == 3 && OrderedOneToN(Generated().answers)
  {
    var A := Generated().answers;
    var orders := [A[0].order, A[1].order, A[2].order];
    assert orders == [Some(2), Some(1), Some(3)];
    assert HasOrder(A, 1) by { assert A[1].order == Some(1); }
    assert HasOrder(A, 2) by { assert A[0].order == Some(2); }
    assert HasOrder(A, 3) by { assert A[2].order == Some(3); }
    forall j, k | 0 <= j < k < |A| ensures A[j].order != A[k].order {
      assert A[j].order == orders[j] && A[k].order == orders[k];
    }
  }

  /** Both rostered players bluffed, so generation may run, and it can yield the three
      answers numbered 1 .. 3 above. */
  lemma GeneratedFromBluffs()
    ensures CanGenerate({alice, bob}, Bluffed())
    ensures AnswersGenerated(Bluffed(), Generated()) && |Generated().answers| == 3
  {
    assert |{alice, bob}| == 2;
    var F, G := Bluffed(), Generated();
    var m := MergeAll("Paris", Unlinked(F.bluffs));
    ThreeAnswers();
    assert G.bluffs == m.bluffs;
    assert SameButOrder(m.answers, G.answers);
    GeneratedOrders();
  }

  /** Alice's guess on Rome and Bob's on Paris are accepted, and then finishing succeeds
      because both rostered players guessed. */
  lemma GuessedAndFinished()
    ensures var G1 := Guessed(Generated(), alice, 2);
            G1.Some? && Guessed(G1.value, bob, 0) == Some(Played().(status := GUESS))
    ensures FinishRow({alice, bob}, Played().(status := GUESS)) == Some(Played())
  {
    var G := Generated();
    var P := Played().(status := GUESS);
    var G1 := G.(guesses := [Guess(alice, 2)]);
    assert G.guesses + [Guess(alice, 2)] == [Guess(alice, 2)];
    assert Guessed(G, alice, 2) == Some(G1);
    assert G1.guesses + [Guess(bob, 0)] == P.guesses;
    assert Guessed(G1, bob, 0) == Some(P);
    assert P.guesses[0].player == alice && P.guesses[1].player == bob;
    assert PlayersWithoutGuess({alice, bob}, P) == {};
  }

  /** The worked fobbit is what the engine makes of the two bluffs and the two guesses. */
  lemma PlayedIsGeneratedAndFinished()
    ensures CanGenerate({alice, bob}, Bluffed())
    ensures AnswersGenerated(Bluffed(), Generated()) && |Generated().answers| == 3
    ensures var G1 := Guessed(Generated(), alice, 2);
            G1.Some? && Guessed(G1.value, bob, 0) == Some(Played().(status := GUESS))
    ensures FinishRow({alice, bob}, Played().(status := GUESS)) == Some(Played())
  {
    GeneratedFromBluffs();
    GuessedAndFinished();
  }

  lemma LondonFolds()
    ensures IEqual("london", "London")
    ensures !IEqual("Paris", "london") && !IEqual("Paris", "London")
  {
    assert Lower("London")[0] == 'l';
    assert Lower("london") == "london" == Lower("London");
    assert Lower("Paris")[0] == 'p';
  }

  /** Two bluffs that differ only in letter case end up on one answer, next to the truth. */
  lemma CaseVariantsMerge()
    ensures var m := MergeAll("Paris", [Bluff(alice, "london", None), Bluff(bob, "London", None)]);
            |m.answers| == 2 && m.answers[1].text == "london" &&
            m.bluffs[0].answer == Some(1) && m.bluffs[1].answer == Some(1)
  {
    var b0, b1 := Bluff(alice, "london", None), Bluff(bob, "London", None);
    var bs := [b0, b1];
    LondonFolds();
    var m0 := Merged([CorrectAnswer("Paris")], []);
    assert !MatchesText("london")(m0.answers[0]);
    var m1 := Merged([CorrectAnswer("Paris"), BluffAnswer("london")], [b0.(answer := Some(1))]);
    assert bs[..1][..0] == [] && bs[..1] == [b0];
    assert MergeAll("Paris", bs[..1]) == FoldOne(m0, b0) == m1;
    assert !MatchesText("London")(m1.answers[0]) && MatchesText("London")(m1.answers[1]);
    assert MergeAll("Paris", bs) == FoldOne(m1, b1);
  }
}
