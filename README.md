# Number-guessing game: verified model of the game state and its helpers

The game hides a secret integer in 1..100 and gives the player a budget of
guesses (`maxAttempts`, 10 by default). Each guess is answered with "too low",
"too high", a win or, when the budget runs out, a loss that reveals the secret.
This project models the three files that hold that logic:

- `src/hooks/useGameState.ts`, the hook that owns one round's state
  (`secretNumber`, `attemptsLeft`, `status`, `message`) and offers `makeGuess`
  and `resetGame`. Module `GameStateHook` gives the state as a value
  (`GameState`), its transitions as the functions `Initial` and `Guess`, and the
  hook itself as the class `GameHook`. The class's fields are replaced step by
  step by `MakeGuess` and `ResetGame`, and each method is proved to produce
  exactly the state the transition function describes.
- `src/utils/gameUtils.ts`, the pure helpers `generateRandomNumber`,
  `validateGuess` and `getGameMessage` (module `GameUtils`). A decoder,
  `ParseMessage`, reads a message back into the outcome it reports, which shows
  that every message is unambiguous and carries the secret or the attempt count
  it mentions.
- `src/constants/gameConstants.ts`, the `DIFFICULTY_SETTINGS` table (module
  `GameConstants`).

Module `Decimal` renders integers the way a JavaScript template literal does
(`${n}`) for integer values of magnitude at most 2^53 (`Number.MAX_SAFE_INTEGER` + 1), and parses them back. The hook and the helpers both print numbers in
their messages this way.

The hook works on a fixed range of 1..100 and has no difficulty, hint or sound
state, even though the settings table and the game's type declarations list
difficulty tiers. The model follows the hook as written. Its range-error message
always says "between 1 and 100", whatever tier a caller has in mind.

The hook does not check `maxAttempts`. For a budget of at least one guess, the
round invariant holds (`Invariant`): the secret stays in 1..100, and
`0 <= attemptsLeft <= maxAttempts`. A playing round also has at least one
attempt left. For a budget of zero or less, the hook as written keeps counting
down below zero and never declares a loss (`RunWithoutBudgetNeverLost`). The
model keeps that behaviour.

## Model

| member | source | states |
|---|---|---|
| `GameConstants.Settings` | src/constants/gameConstants.ts:7-11 | every tier has at least one attempt and a range of at least 1 |
| `GameConstants.SettingsValues` | src/constants/gameConstants.ts:8-10 | easy = (15, 50), medium = (10, 100), hard = (5, 200) |
| `GameConstants.HarderTierIsStricter` | src/constants/gameConstants.ts:8-10 | from easy to medium to hard, attempts strictly decrease and the range strictly increases |
| `GameUtils.GenerateRandomNumber` | src/utils/gameUtils.ts:4-7 | floor(draw * range) + 1 lies in 1..range for every draw in [0, 1) |
| `GameUtils.GenerateRandomNumberCoversRange` | src/utils/gameUtils.ts:4-7 | every number in 1..range is produced by some draw |
| `GameUtils.ValidateGuess` | src/utils/gameUtils.ts:9-11 | a guess is accepted iff 1 <= guess <= maxRange, so nothing is accepted when maxRange < 1 |
| `GameUtils.GetGameMessage` | src/utils/gameUtils.ts:13-19 | `getGameMessage` itself; what its result means is stated by `MessageDecodes` (win / loss / direction and count, each as an iff), `HintWording` (direction word and noun) and `LossRevealsSecret` (the secret in decimal) |
| `GameUtils.MessageDecodes` | src/utils/gameUtils.ts:13-19 | the message reads back as a win iff guess = secret; as a loss revealing the secret iff it is a miss with 0 attempts left; otherwise as "too low" iff guess < secret, or as "too high" iff guess > secret, each with the attempt count |
| `GameUtils.WinWhateverAttempts` | src/utils/gameUtils.ts:14 | a hit gives the win message for any attempt count |
| `GameUtils.LossRevealsSecret` | src/utils/gameUtils.ts:15 | a miss with 0 attempts left gives "Game Over! The number was " followed by text that parses back to the secret |
| `GameUtils.HintWording` | src/utils/gameUtils.ts:17-18 | any other miss starts with "Too low! " iff guess < secret, and ends in " guess remaining" iff exactly one attempt is left |
| `GameUtils.HintShape` | src/utils/gameUtils.ts:17-18 | any other miss is the direction prefix, then the count, then the singular or plural suffix |
| `GameUtils.HintRoundTrip` | src/utils/gameUtils.ts:17-18 | a hint message reads back as its direction and its count |
| `GameUtils.RemainingRoundTrip` | src/utils/gameUtils.ts:18 | the "N guess(es) remaining" tail reads back as N, and the noun agrees with N |
| `GameUtils.LossRoundTrip` | src/utils/gameUtils.ts:15 | the loss message reads back as a loss carrying the secret |
| `Decimal.IntToString` | src/utils/gameUtils.ts:15 | the text of a number is non-empty and starts with '-' iff the number is negative |
| `Decimal.NatToString` | src/utils/gameUtils.ts:15 | the text of a natural number is all digits, non-empty, with a leading '0' only for 0 |
| `Decimal.NatToStringRoundTrip` | src/utils/gameUtils.ts:15 | the digits of n denote n |
| `Decimal.IntToStringRoundTrip` | src/utils/gameUtils.ts:15 | parsing the text of any integer gives back that integer |
| `GameUtils.LossMessagesDistinct` | src/utils/gameUtils.ts:15 | distinct secrets give distinct loss messages |
| `GameStateHook.Initial` | src/hooks/useGameState.ts:13-18 | a fresh round satisfies the round invariant iff maxAttempts >= 1 |
| `GameStateHook.Guess` | src/hooks/useGameState.ts:20-59 | a guess never changes the secret and uses up at most one attempt; once the round is over it changes nothing |
| `GameStateHook.GuessWhenOver` | src/hooks/useGameState.ts:21-23 | when the status is not playing, every field stays the same |
| `GameStateHook.GuessOutOfRange` | src/hooks/useGameState.ts:25-31 | a guess below 1 or above 100 changes only the message, to the range complaint |
| `GameStateHook.GuessCorrect` | src/hooks/useGameState.ts:33-41 | a hit sets won, uses up exactly one attempt (the last one too) and gives the win message |
| `GameStateHook.GuessLastMiss` | src/hooks/useGameState.ts:43-50 | a miss with the last attempt sets lost with 0 attempts, and the message reveals the secret |
| `GameStateHook.GuessOtherMiss` | src/hooks/useGameState.ts:43-56 | any other miss keeps playing with one attempt fewer; the message reads back as "too low" iff guess < secret, with the new count |
| `GameStateHook.InvalidMessageIsNoOutcome` | src/hooks/useGameState.ts:28 | the range complaint cannot be mistaken for a win, loss or hint message |
| `GameStateHook.GuessAgreesWithUtils` | src/hooks/useGameState.ts:25-56 | the hook rejects a guess iff `validateGuess(guess, 100)` fails, and for an accepted guess its message equals `getGameMessage(guess, secret, attemptsLeft - 1)` |
| `GameStateHook.GuessKeepsInvariant` | src/hooks/useGameState.ts:20-59 | one guess keeps 1 <= secret <= 100, 0 <= attemptsLeft <= maxAttempts, and at least one attempt left while playing |
| `GameStateHook.RunKeepsInvariant` | src/hooks/useGameState.ts:12-59 | over any sequence of guesses the invariant holds, the secret never changes and attempts never grow |
| `GameStateHook.RunFromFinal` | src/hooks/useGameState.ts:21-23 | won and lost are final: no sequence of guesses changes the state |
| `GameStateHook.RunEnds` | src/hooks/useGameState.ts:33-57 | a round is over after at most as many in-range guesses as it has attempts left |
| `GameStateHook.RunAllMisses` | src/hooks/useGameState.ts:43-50 | missing with every remaining attempt ends lost with 0 attempts and the secret in the message |
| `GameStateHook.RunWithoutBudgetNeverLost` | src/hooks/useGameState.ts:44-57 | with zero or fewer attempts left, no sequence of guesses ever reaches lost |
| `GameStateHook.MediumTierMatchesHook` | src/constants/gameConstants.ts:9 | the medium tier has the hook's default 10 attempts and its fixed range of 100 |
| `GameStateHook.MediumRound` | src/hooks/useGameState.ts:33-56 | with secret 42 and 10 attempts, guessing 50 gives "Too high! 9 guesses remaining"; then guessing 42 wins with 8 left |
| `GameStateHook.HardRound` | src/hooks/useGameState.ts:43-50 | with 5 attempts, five misses lose, and the message reads back as the secret |
| `GameStateHook.GameHook.constructor` | src/hooks/useGameState.ts:12-18 | mounting gives the initial state: maxAttempts attempts, playing, "Make your guess!", the given secret |
| `GameStateHook.GameHook.MakeGuess` | src/hooks/useGameState.ts:20-59 | the new state is exactly `Guess` of the old state, and the class invariant is kept |
| `GameStateHook.GameHook.ResetGame` | src/hooks/useGameState.ts:61-68 | from any state: the initial state with the new secret and the same budget |

## Left out

- Randomness: `Math.random()` in the hook (src/hooks/useGameState.ts:14, 63) is replaced by a secret that the caller passes in, with `1 <= secret <= 100`.
- GameUtils.GenerateRandomNumber: the draw is an exact real in [0, 1), not an IEEE double, and uniformity is not stated.
- GameUtils.ValidateGuess: the `Number.isInteger` test is not modelled, because guesses are integers here. Fractional, NaN and infinite inputs are out of scope.
- Numbers are unbounded integers, not IEEE doubles: there is no rounding above 2^53 (so `attemptsLeft - 1` is exact); `${n}` in JavaScript prints, above 2^53, the shortest digits that read back as the same double padded with zeros, and from 10^21 on uses exponent notation, whereas the model prints every digit; and there is no fractional `maxAttempts` or `maxRange` (a fractional budget would never meet the `newAttemptsLeft === 0` test at src/hooks/useGameState.ts:44).
- GameStateHook.Guess: the hook's `Number.isInteger` test is left out for the same reason.
- React machinery (`useState`, `useCallback`, and the closure-captured `gameState` next to the updater's `prev`). The model is sequential, so both name the same current state.
- The test's "the secret differs after reset" assertion (src/hooks/useGameState.test.ts:31) is probabilistic and is not stated.
- `GAME_SETTINGS` (src/constants/gameConstants.ts:1-5) reads environment variables.
- The presentation layer (src/components/NumberGame.tsx, src/components/GameButton.tsx) is left out: rendering, `parseInt` of the input text, colours and console logging.
- src/types/game.ts only declares types. Its `GameStatus` and `Difficulty` appear as datatypes; its `difficulty` field is not used by the hook and is not modelled.
- Hints, sound and a difficulty-aware round are not modelled: the hook has none of them.
