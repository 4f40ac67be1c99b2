/** The records of the quiz engine: questions, round settings, fobbits (a question
    as played in a session) and the answers, bluffs and guesses that hang off a fobbit. */
module Entities {

  /** A player is an opaque, comparable user key. */
  type Player = nat

  datatype Option<T> = None | Some(value: T)

  /** Creating a fobbit without a question fails: the quiz has no unused question left. */
  datatype Outcome<T> = Success(value: T) | NoQuestionLeft

  datatype Question = Question(id: nat, order: int, text: string, correctAnswer: string)

  /** One entry of the session's `settings['rounds']` list. The multiplier is a JSON
      number, so it may be fractional. */
  datatype RoundDef = RoundDef(numberOfQuestions: int, multiplier: real)

  /** Session-wide intent for what `next_question` does next. */
  datatype Modus = BLUFFING | GUESSING

  /** Lifecycle of one fobbit; the source compares these as the integers 0, 1, 2. */
  datatype Status = BLUFF | GUESS | FINISHED {
    function Rank(): (r: nat) {
      match this
      case BLUFF => 0
      case GUESS => 1
      case FINISHED => 2
    }
  }

  datatype Answer = Answer(text: string, order: Option<int>, showed: bool, isCorrect: bool)

  /** `answer` is the id (index) of the fobbit's answer this bluff was folded into, if any. */
  datatype Bluff = Bluff(player: Player, text: string, answer: Option<nat>)

  /** `answer` is the id (index) of the answer voted for. */
  datatype Guess = Guess(player: Player, answer: nat)

  /** A fobbit row together with the rows it owns. Answer ids are positions in `answers`. */
  datatype Fobbit = Fobbit(question: Question, round: int, status: Status,
                           answers: seq<Answer>, bluffs: seq<Bluff>, guesses: seq<Guess>)

  /** Referential integrity of a fobbit's rows, and the (fobbit, player) uniqueness of bluffs. */
  predicate WellFormed(F: Fobbit) {
    (forall i :: 0 <= i < |F.bluffs| && F.bluffs[i].answer.Some? ==> F.bluffs[i].answer.value < |F.answers|) &&
    (forall j :: 0 <= j < |F.guesses| ==> F.guesses[j].answer < |F.answers|) &&
    (forall i, k :: 0 <= i < k < |F.bluffs| ==> F.bluffs[i].player != F.bluffs[k].player)
  }

  /** Every row of a fobbit table is consistent. */
  predicate AllWellFormed(fs: seq<Fobbit>) {
    forall i :: 0 <= i < |fs| ==> WellFormed(fs[i])
  }

  /** `.filter(player=p)` on the bluff and guess tables. */
  function BluffBy(p: Player): (r: Bluff -> bool) { (b: Bluff) => b.player == p }
  function GuessBy(p: Player): (r: Guess -> bool) { (g: Guess) => g.player == p }

  /** A freshly created fobbit: status BLUFF and no answers, bluffs or guesses. */
  function NewFobbit(q: Question, round: int): (F: Fobbit) {
    Fobbit(q, round, BLUFF, [], [], [])
  }

  /** Python list indexing: negative indexes count from the end, anything else is an IndexError. */
  function PyIndex<T>(xs: seq<T>, i: int): (r: Option<T>) {
    if 0 <= i < |xs| then Some(xs[i])
    else if -|xs| <= i < 0 then Some(xs[|xs| + i])
    else None
  }

  function LowerChar(c: char): (r: char) {
    if 'A' <= c <= 'Z' then (c as int + 32) as char else c
  }

  function Lower(s: string): (r: string) {
    seq(|s|, i requires 0 <= i < |s| => LowerChar(s[i]))
  }

  /** The `iexact` lookup: equality up to (ASCII) letter case. */
  predicate IEqual(a: string, b: string) {
    Lower(a) == Lower(b)
  }
}
