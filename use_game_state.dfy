/** The game-state hook `useGameState`: one round of guessing a secret in 1..100
    with a budget of `maxAttempts` guesses. The round's state is a value
    (`GameState`); `Guess` and `Initial` are its transitions, and `GameHook` is
    the owner that replaces its state step by step. */
module GameStateHook {
  import opened Wrappers
  import opened Decimal
  import opened GameConstants
  import GameUtils

  datatype GameStatus = Playing | Won | Lost

  datatype GameState = GameState(secretNumber: int, attemptsLeft: int, status: GameStatus, message: string)

  /** The hook's fixed guess range is 1..GuessRange. */
  const GuessRange := 100
  /** The default of the hook's `maxAttempts` parameter. */
  const DefaultMaxAttempts := 10
  const InitialMessage := "Make your guess!"
  // Written as two literals so that the verifier sees its first characters: it
  // does not unfold a single literal of this length character by character.
  const InvalidGuessMessage := "Please enter " + "a valid number between 1 and 100"

  /** The state at mount and after a reset; `secretNumber` stands for the random draw. */
  function Initial(maxAttempts: int, secretNumber: int): (st: GameState)
    requires 1 <= secretNumber <= GuessRange
    ensures Invariant(st, maxAttempts) <==> maxAttempts >= 1
  {
    GameState(secretNumber, maxAttempts, Playing, InitialMessage)
  }

  /** What holds of every state of a round whose budget is at least one guess. */
  ghost predicate Invariant(st: GameState, maxAttempts: int) {
    && 1 <= st.secretNumber <= GuessRange
    && 0 <= st.attemptsLeft <= maxAttempts
    && (st.status == Playing ==> st.attemptsLeft >= 1)
  }

  /** `makeGuess`: the state after guessing `guess` in state `st`. */
  function Guess(st: GameState, guess: int): (r: GameState)
    ensures r.secretNumber == st.secretNumber
    ensures st.attemptsLeft - 1 <= r.attemptsLeft <= st.attemptsLeft
    ensures st.status != Playing ==> r == st
  {
    if st.status != Playing then st
    else if guess < 1 || guess > GuessRange then st.(message := InvalidGuessMessage)
    else
      var newAttemptsLeft := st.attemptsLeft - 1;
      if guess == st.secretNumber then
        st.(status := Won, attemptsLeft := newAttemptsLeft, message := GameUtils.WinMessage)
      else
        var direction := if guess < st.secretNumber then "low" else "high";
        if newAttemptsLeft == 0 then
          st.(status := Lost, attemptsLeft := 0,
              message := GameUtils.LossPrefix + IntToString(st.secretNumber))
        else
          st.(attemptsLeft := newAttemptsLeft,
              message := "Too " + direction + "! " + IntToString(newAttemptsLeft) + " "
                         + (if newAttemptsLeft == 1 then "guess" else "guesses") + " remaining")
  }

  /** The state after a sequence of guesses, first to last. */
  function Run(st: GameState, guesses: seq<int>): GameState
    decreases |guesses|
  {
    if guesses == [] then st else Run(Guess(st, guesses[0]), guesses[1..])
  }

  // ---- One guess ----

  /** Once the round is over, a guess changes nothing. */
  lemma GuessWhenOver(st: GameState, guess: int)
    requires st.status != Playing
    ensures Guess(st, guess) == st
  {
  }

  /** An out-of-range guess only replaces the message. */
  lemma GuessOutOfRange(st: GameState, guess: int)
    requires st.status == Playing && (guess < 1 || guess > GuessRange)
    ensures Guess(st, guess) == st.(message := InvalidGuessMessage)
  {
  }

  /** Hitting the secret wins and uses up one attempt, even the last one. */
  lemma GuessCorrect(st: GameState)
    requires st.status == Playing && 1 <= st.secretNumber <= GuessRange
    ensures var r := Guess(st, st.secretNumber);
            r.status == Won && r.attemptsLeft == st.attemptsLeft - 1
            && r.message == GameUtils.WinMessage
            && GameUtils.ParseMessage(r.message) == Some(GameUtils.Won)
  {
    GameUtils.MessageDecodes(st.secretNumber, st.secretNumber, st.attemptsLeft - 1);
  }

  /** A miss with the last attempt loses, and the message reveals the secret. */
  lemma GuessLastMiss(st: GameState, guess: int)
    requires st.status == Playing && st.attemptsLeft == 1
    requires 1 <= guess <= GuessRange && guess != st.secretNumber
    ensures var r := Guess(st, guess);
            r.status == Lost && r.attemptsLeft == 0 && r.secretNumber == st.secretNumber
            && r.message == GameUtils.LossPrefix + IntToString(st.secretNumber)
            && GameUtils.ParseMessage(r.message) == Some(GameUtils.Lost(st.secretNumber))
  {
    GameUtils.LossRoundTrip(st.secretNumber);
  }

  /** Any other miss keeps playing with one attempt fewer, and the message says
      "low" exactly when the guess is below the secret, with the attempts left. */
  lemma GuessOtherMiss(st: GameState, guess: int)
    requires st.status == Playing && st.attemptsLeft != 1
    requires 1 <= guess <= GuessRange && guess != st.secretNumber
    ensures var r := Guess(st, guess);
            r.status == Playing && r.attemptsLeft == st.attemptsLeft - 1
            && GameUtils.ParseMessage(r.message)
               == Some(if guess < st.secretNumber then GameUtils.TooLow(r.attemptsLeft)
                       else GameUtils.TooHigh(r.attemptsLeft))
  {
    GameUtils.HintRoundTrip(guess < st.secretNumber, st.attemptsLeft - 1);
  }

  /** The range complaint is not a message about the outcome of a guess. */
  lemma InvalidMessageIsNoOutcome()
    ensures GameUtils.ParseMessage(InvalidGuessMessage) == None
  {
    assert InvalidGuessMessage[0] == 'P';
    GameUtils.DiffersAt(InvalidGuessMessage, GameUtils.WinMessage, 0);
    GameUtils.DiffersAt(InvalidGuessMessage, GameUtils.LossPrefix, 0);
    GameUtils.DiffersAt(InvalidGuessMessage, GameUtils.LowPrefix, 0);
    GameUtils.DiffersAt(InvalidGuessMessage, GameUtils.HighPrefix, 0);
  }

  /** The hook's inline range test is `validateGuess` with range 100, and for an
      accepted guess its message is `getGameMessage` of the attempts left after it. */
  lemma GuessAgreesWithUtils(st: GameState, guess: int)
    requires st.status == Playing
    ensures Guess(st, guess).message == InvalidGuessMessage <==> !GameUtils.ValidateGuess(guess, GuessRange)
    ensures GameUtils.ValidateGuess(guess, GuessRange) ==>
      Guess(st, guess).message == GameUtils.GetGameMessage(guess, st.secretNumber, st.attemptsLeft - 1)
  {
    if GameUtils.ValidateGuess(guess, GuessRange) {
      var r := Guess(st, guess);
      var m := GameUtils.GetGameMessage(guess, st.secretNumber, st.attemptsLeft - 1);
      assert r.message == m;
      GameUtils.MessageDecodes(guess, st.secretNumber, st.attemptsLeft - 1);
      InvalidMessageIsNoOutcome();
    }
  }

  /** A guess keeps the round invariant. */
  lemma GuessKeepsInvariant(st: GameState, maxAttempts: int, guess: int)
    requires Invariant(st, maxAttempts)
    ensures Invariant(Guess(st, guess), maxAttempts)
  {
  }

  // ---- Sequences of guesses ----

  /** Over any sequence of guesses the invariant holds, the secret stays and the
      attempts never grow. */
  lemma {:induction false} RunKeepsInvariant(st: GameState, maxAttempts: int, guesses: seq<int>)
    requires Invariant(st, maxAttempts)
    ensures Invariant(Run(st, guesses), maxAttempts)
    ensures Run(st, guesses).secretNumber == st.secretNumber
    ensures Run(st, guesses).attemptsLeft <= st.attemptsLeft
    decreases |guesses|
  {
    if guesses != [] {
      GuessKeepsInvariant(st, maxAttempts, guesses[0]);
      RunKeepsInvariant(Guess(st, guesses[0]), maxAttempts, guesses[1..]);
    }
  }

  /** Won and lost are final: no later guess changes anything. */
  lemma {:induction false} RunFromFinal(st: GameState, guesses: seq<int>)
    requires st.status != Playing
    ensures Run(st, guesses) == st
    decreases |guesses|
  {
    if guesses != [] {
      RunFromFinal(Guess(st, guesses[0]), guesses[1..]);
    }
  }

  predicate AllInRange(guesses: seq<int>) {
    forall i :: 0 <= i < |guesses| ==> 1 <= guesses[i] <= GuessRange
  }

  /** A round ends after at most as many in-range guesses as it has attempts left. */
  lemma {:induction false} RunEnds(st: GameState, maxAttempts: int, guesses: seq<int>)
    requires Invariant(st, maxAttempts)
    requires AllInRange(guesses) && |guesses| >= st.attemptsLeft
    ensures Run(st, guesses).status != Playing
    decreases |guesses|
  {
    if st.status != Playing {
      RunFromFinal(st, guesses);
    } else {
      var next := Guess(st, guesses[0]);
      assert AllInRange(guesses[1..]) by {
        forall i | 0 <= i < |guesses[1..]| ensures 1 <= guesses[1..][i] <= GuessRange {
          assert guesses[1..][i] == guesses[i + 1];
        }
      }
      RunEnds(next, maxAttempts, guesses[1..]);
    }
  }

  /** Missing with every remaining attempt loses with no attempts left, and the
      message reveals the secret. */
  lemma {:induction false} RunAllMisses(st: GameState, maxAttempts: int, guesses: seq<int>)
    requires Invariant(st, maxAttempts) && st.status == Playing
    requires |guesses| == st.attemptsLeft
    requires forall i :: 0 <= i < |guesses| ==> 1 <= guesses[i] <= GuessRange && guesses[i] != st.secretNumber
    ensures var r := Run(st, guesses);
            r.status == Lost && r.attemptsLeft == 0
            && r.message == GameUtils.LossPrefix + IntToString(st.secretNumber)
    decreases |guesses|
  {
    var next := Guess(st, guesses[0]);
    if st.attemptsLeft == 1 {
      assert Run(st, guesses) == Run(next, []);
    } else {
      forall i | 0 <= i < |guesses[1..]|
        ensures 1 <= guesses[1..][i] <= GuessRange && guesses[1..][i] != next.secretNumber
      {
        assert guesses[1..][i] == guesses[i + 1];
      }
      RunAllMisses(next, maxAttempts, guesses[1..]);
    }
  }

  /** With a budget of zero or fewer attempts the hook never declares a loss: the
      attempt count only moves further from zero. */
  lemma {:induction false} RunWithoutBudgetNeverLost(st: GameState, guesses: seq<int>)
    requires st.attemptsLeft <= 0 && st.status != Lost
    ensures Run(st, guesses).status != Lost
    decreases |guesses|
  {
    if guesses != [] {
      RunWithoutBudgetNeverLost(Guess(st, guesses[0]), guesses[1..]);
    }
  }

  // ---- Difficulty table ----

  /** The hook's fixed defaults are the medium tier of the settings table. */
  lemma MediumTierMatchesHook()
    ensures Settings(Medium).attempts == DefaultMaxAttempts
    ensures Settings(Medium).range == GuessRange
  {
  }

  // ---- Worked rounds ----

  /** Default budget, secret 42: guessing 50 then 42. */
  lemma MediumRound()
    ensures var s1 := Guess(Initial(DefaultMaxAttempts, 42), 50);
            s1 == GameState(42, 9, Playing, "Too high! 9 guesses remaining")
            && Guess(s1, 42) == GameState(42, 8, Won, "Congratulations! You won!")
  {
    var s0 := Initial(DefaultMaxAttempts, 42);
    var s1 := Guess(s0, 50);
    assert IntToString(9) == "9";
    assert s1.message == "Too " + "high" + "! " + "9" + " " + "guesses" + " remaining";
    assert s1 == GameState(42, 9, Playing, "Too high! 9 guesses remaining");
  }

  /** A budget of five and five misses lose the round. */
  lemma HardRound(secretNumber: int, guesses: seq<int>)
    requires 1 <= secretNumber <= GuessRange && |guesses| == 5
    requires forall i :: 0 <= i < 5 ==> 1 <= guesses[i] <= GuessRange && guesses[i] != secretNumber
    ensures var r := Run(Initial(5, secretNumber), guesses);
            r.status == Lost && r.attemptsLeft == 0
            && GameUtils.ParseMessage(r.message) == Some(GameUtils.Lost(secretNumber))
  {
    RunAllMisses(Initial(5, secretNumber), 5, guesses);
    GameUtils.LossRoundTrip(secretNumber);
  }

  // ---- The hook as a state owner ----

  class GameHook {
    const maxAttempts: int
    var secretNumber: int
    var attemptsLeft: int
    var status: GameStatus
    var message: string

    /** The `gameState` snapshot the hook exposes. */
    function State(): GameState
      reads this
    {
      GameState(secretNumber, attemptsLeft, status, message)
    }

    ghost predicate Valid()
      reads this
    {
      1 <= secretNumber <= GuessRange && (maxAttempts >= 1 ==> Invariant(State(), maxAttempts))
    }

    /** Mounting the hook; `secretNumber` stands for the random draw. */
    constructor (maxAttempts: int := DefaultMaxAttempts, secretNumber: int)
      requires 1 <= secretNumber <= GuessRange
      ensures this.maxAttempts == maxAttempts && Valid()
      ensures State() == Initial(maxAttempts, secretNumber)
    {
      this.maxAttempts := maxAttempts;
      this.secretNumber := secretNumber;
      this.attemptsLeft := maxAttempts;
      this.status := Playing;
      this.message := InitialMessage;
    }

    method MakeGuess(guess: int)
      requires Valid()
      modifies this
      ensures Valid()
      ensures State() == Guess(old(State()), guess)
    {
      if status != Playing {
        return;
      }
      if guess < 1 || guess > GuessRange {
        message := InvalidGuessMessage;
        return;
      }
      var newAttemptsLeft := attemptsLeft - 1;
      if guess == secretNumber {
        status := Won;
        attemptsLeft := newAttemptsLeft;
        message := GameUtils.WinMessage;
      } else {
        var direction := if guess < secretNumber then "low" else "high";
        if newAttemptsLeft == 0 {
          status := Lost;
          attemptsLeft := 0;
          message := GameUtils.LossPrefix + IntToString(secretNumber);
        } else {
          attemptsLeft := newAttemptsLeft;
          message := "Too " + direction + "! " + IntToString(newAttemptsLeft) + " "
                     + (if newAttemptsLeft == 1 then "guess" else "guesses") + " remaining";
        }
      }
    }

    /** `resetGame`: a fresh round with the same budget; `secretNumber` stands for the new draw. */
    method ResetGame(secretNumber: int)
      requires 1 <= secretNumber <= GuessRange
      modifies this
      ensures Valid()
      ensures State() == Initial(maxAttempts, secretNumber)
    {
      this.secretNumber := secretNumber;
      attemptsLeft := maxAttempts;
      status := Playing;
      message := InitialMessage;
    }
  }
}
