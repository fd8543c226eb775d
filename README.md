# Astronomy sugoroku: the turn engine, verified

This project models the game logic of a browser board game ("space sugoroku")
in Dafny. Two players race along a track of 30 squares (0 to 29). The game
logic has two parts:

- `src/lib/utils.ts` holds the die (`rollDice`, a value from 1 to 6) and the
  random events (`getRandomEvent`, one of five fixed entries that add +2, -1,
  +3, -2 or 0 squares).
- `src/hooks/useGameState.ts` holds the state (players, whose turn it is, the
  game-over flag and winner, the shown die value, the rolling flag, the last
  event), the roll action `rollDiceAction` and `resetGame`.

A roll does nothing while a roll is running or after the game has ended.
Otherwise the player to move advances `max(dice + event, 1)` squares,
capped at the goal square 29. Reaching the goal ends the game with that
player as the winner. If nobody wins, the turn passes to the next player,
wrapping round.

Layout:

- `wrappers.dfy`: `Option`, which stands where the source stores `null`.
- `events.dfy` (module `Events`): the die, the event table and their value bounds.
- `rules.dfy` (module `Rules`): the state as a datatype, the state
  updater (`Commit`), one whole roll (`Step`), the invariant of a resting
  state (`Valid`) and the lemmas about one roll and about a series of rolls.
- `game.dfy` (module `GameHook`): class `Game`, whose fields are the hook's
  state cell. Its methods `RollDiceAction` and `ResetGame` are proved equal to
  `Rules.Step` and `Rules.InitialState`, and they keep `Valid`.

Randomness is an input. `RollDice` takes the draw `floor(random * 6)`.
`GetRandomEvent` takes the event index `floor(random * 5)`. `Step` and
`Game.RollDiceAction` take the die value and that event index.

The `winner` field is modelled as written. It holds the record of the player
to move as it was BEFORE the move, so its `position` is the pre-move square.
The winner's identity (its `id`) is the reliable part. The user interface
reads only the winner's name.

Beyond the per-roll facts, the model proves that the game always ends. Every
roll that does not end the game raises the sum of all positions by at least
one. The sum stays below `|players| * 29` while nobody is on the goal. So
from the initial state, any 58 rolls end a two-player game.

## Model

| member | source | states |
|---|---|---|
| Events.RollDice | src/lib/utils.ts:11 | the die value lies in 1..6 |
| Events.RollDiceIsOnto | src/lib/utils.ts:11 | every face 1..6 is the roll of exactly one of the six draws |
| Events.GetRandomEvent | src/lib/utils.ts:13-21 | the event is an entry of the table; bonus events are worth 2 or 3, penalties -1 or -2, the neutral event 0; the tag matches the sign of the value; every value lies in [-2, 3] |
| Events.EventTableIsFixed | src/lib/utils.ts:14-20 | the table has exactly five entries and every entry is the event of some draw 0..4 |
| Events.TotalMoveRange | src/lib/utils.ts:15-19 | a die value plus an event value lies in [-1, 9], and both ends are reached |
| Rules.AppliedMove | src/hooks/useGameState.ts:54-56 | the applied move is at least 1 and at least the raw move, and equals the raw move or 1 |
| Rules.NewPosition | src/hooks/useGameState.ts:55-58 | the landing square never passes the goal 29 and never lies behind the square the token started from; below the goal it is at least one square ahead |
| Rules.MovePlayer | src/hooks/useGameState.ts:61-65 | the player list keeps its length and order; the records with the mover's id get the new position, and the others are unchanged |
| Rules.Commit | src/hooks/useGameState.ts:60-82 | the updated state keeps the player count; the game is over exactly when the new position reaches the goal, and exactly then a winner is set |
| Rules.Step | src/hooks/useGameState.ts:40-82 | one roll keeps the current index pointing at a player and keeps the player count; afterwards no roll is running, unless the state was returned unchanged |
| Rules.StepIgnoredWhileBusy | src/hooks/useGameState.ts:41 | a roll while another is running or after the game ended leaves the state unchanged |
| Rules.StepMovesCurrentPlayer | src/hooks/useGameState.ts:51-58 | the mover lands on `min(old + max(dice + event, 1), 29)`: at least one square ahead unless capped, never past the goal, never backwards |
| Rules.StepKeepsOtherPlayers | src/hooks/useGameState.ts:61-65 | with distinct ids, every other player record is unchanged and the mover changes only in position |
| Rules.StepDecidesWinner | src/hooks/useGameState.ts:67-79 | the game is over exactly when the mover's new position is at least 29; the winner is then the mover's pre-move record, with the mover's id, and there is no winner otherwise |
| Rules.StepAdvancesTurn | src/hooks/useGameState.ts:68-70 | with no winner the index becomes `(i + 1) % n`, i.e. `i + 1` or 0 after the last player; with a winner it stays `i`; either way it is in `[0, n)` |
| Rules.StepRecordsRoll | src/hooks/useGameState.ts:76-80 | after a completed roll no roll is running, the shown die value is the final roll and the last event is the drawn one |
| Rules.MovePlayerUpdatesOne | src/hooks/useGameState.ts:61-65 | with distinct ids, moving by the mover's id is the same as updating the mover's slot only |
| Rules.StepPreservesValid | src/hooks/useGameState.ts:40-82 | a roll keeps the resting-state invariant: positions in [0, 29], distinct ids, index in range, game over exactly when a winner is set and the player to move stands on the goal, nobody on the goal otherwise |
| Rules.InitialStateIsValid | src/hooks/useGameState.ts:24-38 | the initial state has two players with ids 1 and 2 on square 0, player index 0, not over, no winner, die 1, not rolling, no event, and it satisfies the invariant |
| Rules.OpeningRollPassesTurn | src/hooks/useGameState.ts:54-70 | from the start, a 6 with the neutral event puts player 1 on square 6 and passes the turn to player 2, with the game still running |
| Rules.OvershootWins | src/hooks/useGameState.ts:54-79 | from square 25, a 6 with the +2 event is capped at 29 and wins, and the turn index stays on the winner |
| Rules.Run | src/hooks/useGameState.ts:40-82 | any number of rolls in a row keeps the index pointing at a player and the player count unchanged |
| Rules.RunPreservesValid | src/hooks/useGameState.ts:40-82 | after any number of rolls the invariant still holds, so every position stays in [0, 29] |
| Rules.GameOverIsFinal | src/hooks/useGameState.ts:41 | once the game is over, no number of further rolls changes the state or the winner |
| Rules.SumPositionsUpdate | src/hooks/useGameState.ts:61-65 | changing one player's position changes the sum of positions by the same amount |
| Rules.SumPositionsBelowGoal | src/hooks/useGameState.ts:67 | while nobody stands on the goal, the positions sum to less than `n * 29` |
| Rules.StepMakesProgress | src/hooks/useGameState.ts:54-58 | a roll that does not end the game raises the sum of positions by at least one |
| Rules.GameEndsWithin | src/hooks/useGameState.ts:40-82 | from any resting state, any `n * 29 - sum` rolls or more end the game |
| Rules.InitialGameEndsWithin58 | src/hooks/useGameState.ts:24-82 | from the initial state, every sequence of 58 rolls ends the game |
| GameHook.Game.constructor | src/hooks/useGameState.ts:30-38 | the hook starts in the initial state, which satisfies the invariant |
| GameHook.Game.RollDiceAction | src/hooks/useGameState.ts:40-83 | the object's new state is `Step` of its old state, and the invariant is kept |
| GameHook.Game.ResetGame | src/hooks/useGameState.ts:85-95 | from any state, the object returns to the initial state, which satisfies the invariant |

## Left out

- The dice animation at src/hooks/useGameState.ts:46-49 is left out. Its ten throwaway `diceValue` writes with 100 ms timers are presentation only, and the final commit overwrites them.
- `Math.random` and its floating-point arithmetic are left out. Randomness is an input: the die draw, the die value and the event index, each limited to its range.
- `cn` and `sleep` in src/lib/utils.ts:4-9 are left out. They wrap external styling libraries and a timer.
- React's `useState` and `useCallback` are left out. The state is one owned value (class `Game`), and each roll runs to completion as one method call. Because of this, the flag `isRolling` is set and cleared inside one call, and the interleaving of a second click during the animation is not modelled. The pure `Step` still refuses any state whose `isRolling` is set.
- The source reads the mover and its landing square from the captured `gameState` (src/hooks/useGameState.ts:52-58) and applies them to `prev` (lines 60-82). Here both are the same value, so the stale-closure case is not modelled. That case does happen: the reset button stays enabled during the one-second animation, and a `resetGame` then is followed by the old roll's updater applied to the fresh state. A mover on 27 who rolled 6 then stands on 29 and has won the new game.
- Board-square effects, status counters (rest, curse, confusion), automated players and difficulty tiers are left out. No shown source file implements them; `Square.effect` in src/types.ts is a display type only.
- All components, the app layout and page, and the configuration files are left out. They only render or configure.
- Rules.StepKeepsOtherPlayers: needs distinct ids, because the source moves every record whose id equals the mover's id; the initial players and every roll keep the ids distinct.
