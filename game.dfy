/**
  The `useGameState` hook as an object: its fields are the state cell the
  hook owns, `RollDiceAction` is `rollDiceAction` and `ResetGame` is `resetGame`.
  Each method's effect is stated through the pure rules of module Rules.
 */
module GameHook {
  import opened Wrappers
  import opened Events
  import opened Rules

  class Game {
    var players: seq<Player>
    var currentPlayerIndex: int
    var isGameOver: bool
    var winner: Option<Player>
    var diceValue: int
    var isRolling: bool
    var lastEvent: Option<GameEvent>

    /** The state cell as one value. */
    function State(): GameState
      reads this
    {
      GameState(players, currentPlayerIndex, isGameOver, winner, diceValue, isRolling, lastEvent)
    }

    ghost predicate Valid()
      reads this
    {
      Rules.Valid(State())
    }

    /** The hook's first render: the initial state. */
    constructor ()
      ensures State() == InitialState() && Valid()
    {
      players := InitialPlayers;
      currentPlayerIndex := 0;
      isGameOver := false;
      winner := None;
      diceValue := 1;
      isRolling := false;
      lastEvent := None;
      new;
      InitialStateIsValid();
    }

    /**
      `rollDiceAction` with the final die value `dice` and the event
      `EventTable[eventIndex]`: refuses while busy or over, otherwise sets
      the rolling flag, moves the player to move and commits the result.
     */
    method RollDiceAction(dice: int, eventIndex: nat)
      requires Valid() && IsDieValue(dice) && eventIndex < |EventTable|
      modifies this
      ensures State() == Step(old(State()), dice, eventIndex)
      ensures Valid()
    {
      ghost var before := State();
      if isRolling || isGameOver {
        return;
      }
      isRolling := true;
      var finalDiceValue := dice;
      var currentPlayer := players[currentPlayerIndex];
      var event := GetRandomEvent(eventIndex);
      var totalMove := finalDiceValue + event.value;
      var newPosition := NewPosition(currentPlayer.position, totalMove);

      var isWinner := newPosition >= Goal;
      var nextPlayerIndex := if isWinner then currentPlayerIndex else (currentPlayerIndex + 1) % |players|;
      players := MovePlayer(players, currentPlayer.id, newPosition);
      currentPlayerIndex := nextPlayerIndex;
      diceValue := finalDiceValue;
      isRolling := false;
      isGameOver := isWinner;
      winner := if isWinner then Some(currentPlayer) else None;
      lastEvent := Some(event);
      StepPreservesValid(before, dice, eventIndex);
    }

    /** `resetGame`: back to the initial state, whatever the state was. */
    method ResetGame()
      modifies this
      ensures State() == InitialState() && Valid()
    {
      players := InitialPlayers;
      currentPlayerIndex := 0;
      isGameOver := false;
      winner := None;
      diceValue := 1;
      isRolling := false;
      lastEvent := None;
      InitialStateIsValid();
    }
  }
}
