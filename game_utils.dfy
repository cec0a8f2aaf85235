/** The pure helpers of the game: drawing a secret, validating a guess and
    wording the outcome of a guess. */
module GameUtils {
  import opened Wrappers
  import opened Decimal
  import opened GameConstants

  const WinMessage := "Congratulations! You won!"
  const LossPrefix := "Game Over! The number was "
  const LowPrefix := "Too low! "
  const HighPrefix := "Too high! "
  const OneLeftSuffix := " guess remaining"
  const ManyLeftSuffix := " guesses remaining"

  /** `generateRandomNumber`: `draw` stands for the value of `Math.random()`, a
      fraction in [0, 1); the result is floor(draw * range) + 1. */
  function GenerateRandomNumber(d: Difficulty, draw: real): (n: int)
    requires 0.0 <= draw < 1.0
    ensures 1 <= n <= Settings(d).range
  {
    var range := Settings(d).range as real;
    assert draw * range < range;
    (draw * range).Floor + 1
  }

  /** Every number of the tier's range is drawn by some fraction. */
  lemma GenerateRandomNumberCoversRange(d: Difficulty, n: int)
    requires 1 <= n <= Settings(d).range
    ensures exists draw: real :: 0.0 <= draw < 1.0 && GenerateRandomNumber(d, draw) == n
  {
    var range := Settings(d).range as real;
    var draw := (n - 1) as real / range;
    assert draw * range == (n - 1) as real;
    assert GenerateRandomNumber(d, draw) == n;
  }

  /** `validateGuess` on an integer guess: accepted exactly inside 1..maxRange. */
  function ValidateGuess(guess: int, maxRange: int): (valid: bool)
    ensures valid ==> 1 <= guess <= maxRange
    ensures 1 <= guess <= maxRange ==> valid
    ensures maxRange < 1 ==> !valid
  {
    guess >= 1 && guess <= maxRange
  }

  /** `getGameMessage`: the text shown after a guess, given the attempts left after it. */
  function GetGameMessage(guess: int, secretNumber: int, attemptsLeft: int): string {
    if guess == secretNumber then WinMessage
    else if attemptsLeft == 0 then LossPrefix + IntToString(secretNumber)
    else
      var direction := if guess < secretNumber then "low" else "high";
      "Too " + direction + "! " + IntToString(attemptsLeft) + " "
        + (if attemptsLeft == 1 then "guess" else "guesses") + " remaining"
  }

  predicate StartsWith(m: string, prefix: string) {
    |prefix| <= |m| && m[..|prefix|] == prefix
  }

  predicate EndsWith(m: string, suffix: string) {
    |suffix| <= |m| && m[|m| - |suffix|..] == suffix
  }

  /** What a message tells the player. */
  datatype Outcome = Won | Lost(secretNumber: int) | TooLow(remaining: int) | TooHigh(remaining: int)

  /** Reads the remaining-attempts tail "N guess(es) remaining" of a hint message;
      the noun must agree with N. */
  function ParseRemaining(t: string): Option<int> {
    if EndsWith(t, ManyLeftSuffix) then
      match ParseInt(t[..|t| - |ManyLeftSuffix|])
      case Some(n) => if n != 1 then Some(n) else None
      case None => None
    else if EndsWith(t, OneLeftSuffix) then
      match ParseInt(t[..|t| - |OneLeftSuffix|])
      case Some(n) => if n == 1 then Some(1) else None
      case None => None
    else None
  }

  /** Reads a message back into the outcome it reports; None for any other text. */
  function ParseMessage(m: string): Option<Outcome> {
    if m == WinMessage then Some(Won)
    else if StartsWith(m, LossPrefix) then
      match ParseInt(m[|LossPrefix|..])
      case Some(n) => Some(Lost(n))
      case None => None
    else if StartsWith(m, LowPrefix) then
      match ParseRemaining(m[|LowPrefix|..])
      case Some(n) => Some(TooLow(n))
      case None => None
    else if StartsWith(m, HighPrefix) then
      match ParseRemaining(m[|HighPrefix|..])
      case Some(n) => Some(TooHigh(n))
      case None => None
    else None
  }

  /** The count-and-noun tail of a hint reads back as its count. */
  lemma RemainingRoundTrip(n: int)
    ensures ParseRemaining(IntToString(n) + " " + (if n == 1 then "guess" else "guesses") + " remaining")
      == Some(n)
  {
    var digits := IntToString(n);
    IntToStringRoundTrip(n);
    if n == 1 {
      assert digits == "1";
      var t := digits + OneLeftSuffix;
      assert digits + " " + "guess" + " remaining" == t;
      assert |t| < |ManyLeftSuffix|;
      assert t[|t| - |OneLeftSuffix|..] == OneLeftSuffix;
      assert t[..|t| - |OneLeftSuffix|] == digits;
    } else {
      var t := digits + ManyLeftSuffix;
      assert digits + " " + "guesses" + " remaining" == t;
      assert t[|t| - |ManyLeftSuffix|..] == ManyLeftSuffix;
      assert t[..|t| - |ManyLeftSuffix|] == digits;
    }
  }

  lemma ConcatStartsWith(prefix: string, tail: string)
    ensures StartsWith(prefix + tail, prefix) && (prefix + tail)[|prefix|..] == tail
  {
  }

  /** A message that differs from `p` at position `i` neither equals nor starts with `p`. */
  lemma DiffersAt(m: string, p: string, i: nat)
    requires i < |p| && i < |m| && m[i] != p[i]
    ensures m != p && !StartsWith(m, p)
  {
  }

  /** A message made of a direction prefix and a tail is read by its tail. */
  lemma ParseHint(low: bool, tail: string)
    ensures ParseMessage((if low then LowPrefix else HighPrefix) + tail)
      == match ParseRemaining(tail)
         case Some(n) => Some(if low then TooLow(n) else TooHigh(n))
         case None => None
  {
    var prefix := if low then LowPrefix else HighPrefix;
    var m := prefix + tail;
    ConcatStartsWith(prefix, tail);
    DiffersAt(m, WinMessage, 0);
    DiffersAt(m, LossPrefix, 0);
    if !low {
      DiffersAt(m, LowPrefix, 4);
    }
  }

  /** A hint message reads back as its direction and count. */
  lemma HintRoundTrip(low: bool, n: int)
    ensures var m := "Too " + (if low then "low" else "high") + "! " + IntToString(n) + " "
                     + (if n == 1 then "guess" else "guesses") + " remaining";
            ParseMessage(m) == Some(if low then TooLow(n) else TooHigh(n))
  {
    var digits := IntToString(n);
    var noun := if n == 1 then "guess" else "guesses";
    var tail := digits + " " + noun + " remaining";
    var direction := if low then "low" else "high";
    var prefix := if low then LowPrefix else HighPrefix;
    assert "Too " + direction + "! " + digits + " " + noun + " remaining" == prefix + tail by {
      assert "Too " + direction + "! " == prefix;
    }
    RemainingRoundTrip(n);
    ParseHint(low, tail);
  }

  /** The loss message reads back as the secret it reveals. */
  lemma LossRoundTrip(secretNumber: int)
    ensures ParseMessage(LossPrefix + IntToString(secretNumber)) == Some(Lost(secretNumber))
  {
    var m := LossPrefix + IntToString(secretNumber);
    ConcatStartsWith(LossPrefix, IntToString(secretNumber));
    DiffersAt(m, WinMessage, 0);
    IntToStringRoundTrip(secretNumber);
  }

  /** Different secrets give different loss messages. */
  lemma LossMessagesDistinct(a: int, b: int)
    requires a != b
    ensures LossPrefix + IntToString(a) != LossPrefix + IntToString(b)
  {
    LossRoundTrip(a);
    LossRoundTrip(b);
  }

  /** Every message `getGameMessage` produces is unambiguous: it reads back as a win
      exactly when the guess hits the secret, as a loss revealing the secret exactly
      when a miss leaves no attempts, and otherwise as "too low" exactly when the
      guess is below the secret, carrying the attempts left. */
  lemma MessageDecodes(guess: int, secretNumber: int, attemptsLeft: int)
    ensures ParseMessage(GetGameMessage(guess, secretNumber, attemptsLeft)) == Some(Won)
        <==> guess == secretNumber
    ensures ParseMessage(GetGameMessage(guess, secretNumber, attemptsLeft)) == Some(Lost(secretNumber))
        <==> guess != secretNumber && attemptsLeft == 0
    ensures ParseMessage(GetGameMessage(guess, secretNumber, attemptsLeft)) == Some(TooLow(attemptsLeft))
        <==> guess < secretNumber && attemptsLeft != 0
    ensures ParseMessage(GetGameMessage(guess, secretNumber, attemptsLeft)) == Some(TooHigh(attemptsLeft))
        <==> guess > secretNumber && attemptsLeft != 0
  {
    if guess == secretNumber {
    } else if attemptsLeft == 0 {
      LossRoundTrip(secretNumber);
    } else {
      HintRoundTrip(guess < secretNumber, attemptsLeft);
    }
  }

  /** A hit is a win whatever the attempt count. */
  lemma WinWhateverAttempts(guess: int, secretNumber: int, attemptsLeft: int)
    requires guess == secretNumber
    ensures GetGameMessage(guess, secretNumber, attemptsLeft) == WinMessage
  {
  }

  /** A miss with no attempts left reveals the secret in decimal after the fixed prefix. */
  lemma LossRevealsSecret(guess: int, secretNumber: int)
    requires guess != secretNumber
    ensures var m := GetGameMessage(guess, secretNumber, 0);
            |m| > |LossPrefix| && m[..|LossPrefix|] == LossPrefix
            && ParseInt(m[|LossPrefix|..]) == Some(secretNumber)
  {
    var m := GetGameMessage(guess, secretNumber, 0);
    assert m[|LossPrefix|..] == IntToString(secretNumber);
    IntToStringRoundTrip(secretNumber);
  }

  /** Only the singular tail ends with the singular suffix. */
  lemma EndsWithSingular(head: string, many: bool)
    ensures EndsWith(head + (if many then ManyLeftSuffix else OneLeftSuffix), OneLeftSuffix) <==> !many
  {
    var m := head + (if many then ManyLeftSuffix else OneLeftSuffix);
    if many {
      assert m[|m| - |OneLeftSuffix|] == 'u';
    } else {
      assert m[|m| - |OneLeftSuffix|..] == OneLeftSuffix;
    }
  }

  lemma DirectionPrefix(low: bool)
    ensures "Too " + (if low then "low" else "high") + "! " == if low then LowPrefix else HighPrefix
  {
  }

  lemma NounSuffix(one: bool)
    ensures " " + (if one then "guess" else "guesses") + " remaining" == if one then OneLeftSuffix else ManyLeftSuffix
  {
  }

  /** A hint message is a direction prefix, the count, and a noun suffix. */
  lemma HintShape(guess: int, secretNumber: int, attemptsLeft: int)
    requires guess != secretNumber && attemptsLeft != 0
    ensures GetGameMessage(guess, secretNumber, attemptsLeft)
      == (if guess < secretNumber then LowPrefix else HighPrefix) + IntToString(attemptsLeft)
         + (if attemptsLeft == 1 then OneLeftSuffix else ManyLeftSuffix)
  {
    var direction := if guess < secretNumber then "low" else "high";
    var noun := if attemptsLeft == 1 then "guess" else "guesses";
    var digits := IntToString(attemptsLeft);
    DirectionPrefix(guess < secretNumber);
    NounSuffix(attemptsLeft == 1);
    assert "Too " + direction + "! " + digits + " " + noun + " remaining"
        == ("Too " + direction + "! ") + digits + (" " + noun + " remaining");
  }

  /** Only the "low" prefix starts with the "low" prefix. */
  lemma StartsWithLow(low: bool, rest: string)
    ensures StartsWith((if low then LowPrefix else HighPrefix) + rest, LowPrefix) <==> low
  {
    var m := (if low then LowPrefix else HighPrefix) + rest;
    if low {
      ConcatStartsWith(LowPrefix, rest);
    } else {
      DiffersAt(m, LowPrefix, 4);
    }
  }

  /** Any other miss says "low" exactly when the guess is below the secret and uses
      the singular noun exactly when one attempt is left. */
  lemma HintWording(guess: int, secretNumber: int, attemptsLeft: int)
    requires guess != secretNumber && attemptsLeft != 0
    ensures StartsWith(GetGameMessage(guess, secretNumber, attemptsLeft), LowPrefix) <==> guess < secretNumber
    ensures EndsWith(GetGameMessage(guess, secretNumber, attemptsLeft), OneLeftSuffix) <==> attemptsLeft == 1
  {
    var prefix := if guess < secretNumber then LowPrefix else HighPrefix;
    var digits := IntToString(attemptsLeft);
    var suffix := if attemptsLeft == 1 then OneLeftSuffix else ManyLeftSuffix;
    HintShape(guess, secretNumber, attemptsLeft);
    assert prefix + digits + suffix == prefix + (digits + suffix);
    StartsWithLow(guess < secretNumber, digits + suffix);
    EndsWithSingular(prefix + digits, attemptsLeft != 1);
  }
}
