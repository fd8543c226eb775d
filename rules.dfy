/**
  The state of src/hooks/useGameState.ts and the pure transition that one
  call of `rollDiceAction` performs on it.

  The die value and the event index are inputs (see module Events). The
  10-step dice animation only rewrites `diceValue` with throwaway values
  before the final commit, so it does not appear here.
 */
module Rules {
  import opened Wrappers
  import opened Events

  /** Number of squares; the goal is the last one. */
  const BoardSize: int := 30
  const Goal: int := BoardSize - 1

  datatype Player = Player(id: int, name: string, position: int, color: string)

  datatype GameState = GameState(
    players: seq<Player>,
    currentPlayerIndex: int,
    isGameOver: bool,
    winner: Option<Player>,
    diceValue: int,
    isRolling: bool,
    lastEvent: Option<GameEvent>)

  /** One roll's random inputs: the die value and the event index. */
  datatype Draw = Draw(dice: int, eventIndex: nat)

  predicate ValidDraw(d: Draw) {
    IsDieValue(d.dice) && d.eventIndex < |EventTable|
  }

  const InitialPlayers: seq<Player> := [
    Player(1, "プレイヤー1", 0, "bg-blue-500"),
    Player(2, "プレイヤー2", 0, "bg-red-500")
  ]

  /** The state the hook starts in and `resetGame` restores. */
  function InitialState(): GameState {
    GameState(InitialPlayers, 0, false, None, 1, false, None)
  }

  /** The current player index points at a player. */
  predicate IndexInRange(s: GameState) {
    0 <= s.currentPlayerIndex < |s.players|
  }

  predicate DistinctIds(players: seq<Player>) {
    forall j, k :: 0 <= j < k < |players| ==> players[j].id != players[k].id
  }

  predicate OnBoard(players: seq<Player>) {
    forall k :: 0 <= k < |players| ==> 0 <= players[k].position <= Goal
  }

  /**
    What holds of every state the hook rests in between two rolls: the
    turn points at a player, ids are distinct, every token is on the board,
    the game is over exactly when a winner is recorded and the player to
    move stands on the goal, and nobody stands on the goal otherwise.
   */
  predicate Valid(s: GameState) {
    && IndexInRange(s)
    && DistinctIds(s.players)
    && OnBoard(s.players)
    && !s.isRolling
    && IsDieValue(s.diceValue)
    && (s.isGameOver <==> s.winner.Some?)
    && (s.isGameOver ==>
          s.players[s.currentPlayerIndex].position == Goal
          && s.winner.value.id == s.players[s.currentPlayerIndex].id)
    && (!s.isGameOver ==> forall k :: 0 <= k < |s.players| ==> s.players[k].position < Goal)
    && (s.lastEvent.Some? ==> s.lastEvent.value in EventTable)
  }

  /** `Math.max(totalMove, 1)`: the squares a roll moves, at least one. */
  function AppliedMove(total: int): (m: int)
    ensures m >= 1 && m >= total
    ensures m == total || m == 1
  {
    if total > 1 then total else 1
  }

  /** Where a token at `position` lands for the raw move `total`: never past the goal. */
  function NewPosition(position: int, total: int): (p: int)
    ensures p <= Goal && p <= position + AppliedMove(total)
    ensures p == Goal || p == position + AppliedMove(total)
    ensures p < Goal ==> p >= position + 1
    ensures position <= Goal ==> position <= p
  {
    var target := position + AppliedMove(total);
    if target < Goal then target else Goal
  }

  /** One player record as `players.map` leaves it: moved if its id matches. */
  function Moved(p: Player, id: int, position: int): Player {
    if p.id == id then p.(position := position) else p
  }

  /** `prev.players.map(...)`: every record with id `id` moves to `position`. */
  function MovePlayer(players: seq<Player>, id: int, position: int): (r: seq<Player>)
    ensures |r| == |players|
    ensures forall k :: 0 <= k < |r| ==> r[k] == Moved(players[k], id, position)
  {
    if players == [] then []
    else [Moved(players[0], id, position)] + MovePlayer(players[1..], id, position)
  }

  /**
    The final state updater of `rollDiceAction`: applied to `prev`, with the
    mover `current`, its landing square, the final die value and the event.
   */
  function Commit(prev: GameState, current: Player, newPosition: int, finalDice: int, event: GameEvent): (r: GameState)
    requires |prev.players| > 0
    ensures |r.players| == |prev.players|
    ensures r.isGameOver <==> newPosition >= Goal
    ensures r.winner.Some? <==> r.isGameOver
  {
    var newPlayers := MovePlayer(prev.players, current.id, newPosition);
    var isWinner := newPosition >= Goal;
    var nextPlayerIndex :=
      if isWinner then prev.currentPlayerIndex
      else (prev.currentPlayerIndex + 1) % |prev.players|;
    prev.(players := newPlayers,
          currentPlayerIndex := nextPlayerIndex,
          diceValue := finalDice,
          isRolling := false,
          isGameOver := isWinner,
          winner := if isWinner then Some(current) else None,
          lastEvent := Some(event))
  }

  /**
    One call of `rollDiceAction` with the die value `dice` and the event
    `EventTable[eventIndex]`: nothing happens while a roll is running or the
    game is over; otherwise the player to move advances and the turn passes.
   */
  function Step(s: GameState, dice: int, eventIndex: nat): (r: GameState)
    requires IsDieValue(dice) && eventIndex < |EventTable|
    requires IndexInRange(s)
    ensures IndexInRange(r) && |r.players| == |s.players|
    ensures !r.isRolling || r == s
  {
    if s.isRolling || s.isGameOver then s
    else
      var rolling := s.(isRolling := true);
      var current := rolling.players[rolling.currentPlayerIndex];
      var event := GetRandomEvent(eventIndex);
      var totalMove := dice + event.value;
      var newPosition := NewPosition(current.position, totalMove);
      Commit(rolling, current, newPosition, dice, event)
  }

  /** A roll requested while another is running or after the game ended changes nothing. */
  lemma StepIgnoredWhileBusy(s: GameState, dice: int, eventIndex: nat)
    requires IsDieValue(dice) && eventIndex < |EventTable| && IndexInRange(s)
    requires s.isRolling || s.isGameOver
    ensures Step(s, dice, eventIndex) == s
  {
  }

  /**
    The player to move advances by `max(dice + event, 1)` squares, capped at
    the goal: at least one square unless capped, never past the goal, never back.
   */
  lemma StepMovesCurrentPlayer(s: GameState, dice: int, eventIndex: nat)
    requires IsDieValue(dice) && eventIndex < |EventTable| && IndexInRange(s)
    requires !s.isRolling && !s.isGameOver
    ensures var i := s.currentPlayerIndex;
            var old_ := s.players[i].position;
            var new_ := Step(s, dice, eventIndex).players[i].position;
            var total := dice + EventTable[eventIndex].value;
            && new_ <= Goal
            && new_ == (if old_ + AppliedMove(total) < Goal then old_ + AppliedMove(total) else Goal)
            && (old_ <= Goal ==> old_ <= new_)
            && (new_ < Goal ==> new_ >= old_ + 1)
  {
  }

  /**
    Only the player to move changes, and only in position: every other
    record is the same, and the count and order of players are kept.
   */
  lemma StepKeepsOtherPlayers(s: GameState, dice: int, eventIndex: nat)
    requires IsDieValue(dice) && eventIndex < |EventTable| && IndexInRange(s)
    requires DistinctIds(s.players)
    ensures var r := Step(s, dice, eventIndex);
            var i := s.currentPlayerIndex;
            && |r.players| == |s.players|
            && (forall k :: 0 <= k < |s.players| && k != i ==> r.players[k] == s.players[k])
            && r.players[i] == s.players[i].(position := r.players[i].position)
  {
  }

  /**
    The game is over after a roll exactly when the mover reached the goal;
    the winner is then the mover's record as it was before the move
    (identified by its id), and there is no winner otherwise.
   */
  lemma StepDecidesWinner(s: GameState, dice: int, eventIndex: nat)
    requires IsDieValue(dice) && eventIndex < |EventTable| && IndexInRange(s)
    requires !s.isRolling && !s.isGameOver
    ensures var r := Step(s, dice, eventIndex);
            var i := s.currentPlayerIndex;
            && (r.isGameOver <==> r.players[i].position >= Goal)
            && (r.isGameOver ==> r.winner == Some(s.players[i]) && r.winner.value.id == r.players[i].id)
            && (!r.isGameOver ==> r.winner == None)
  {
  }

  /** Without a winner the turn passes to the next player, wrapping round; with one it stays. */
  lemma StepAdvancesTurn(s: GameState, dice: int, eventIndex: nat)
    requires IsDieValue(dice) && eventIndex < |EventTable| && IndexInRange(s)
    requires !s.isRolling && !s.isGameOver
    ensures var r := Step(s, dice, eventIndex);
            var i := s.currentPlayerIndex;
            && (!r.isGameOver ==> r.currentPlayerIndex == (i + 1) % |s.players|)
            && (!r.isGameOver && i + 1 < |s.players| ==> r.currentPlayerIndex == i + 1)
            && (!r.isGameOver && i + 1 == |s.players| ==> r.currentPlayerIndex == 0)
            && (r.isGameOver ==> r.currentPlayerIndex == i)
            && 0 <= r.currentPlayerIndex < |r.players|
  {
  }

  /** After a roll completes, no roll is running, the final die value is shown and the event is recorded. */
  lemma StepRecordsRoll(s: GameState, dice: int, eventIndex: nat)
    requires IsDieValue(dice) && eventIndex < |EventTable| && IndexInRange(s)
    requires !s.isRolling && !s.isGameOver
    ensures var r := Step(s, dice, eventIndex);
            && !r.isRolling
            && r.diceValue == dice
            && r.lastEvent == Some(EventTable[eventIndex])
  {
  }

  /** With distinct ids, moving the player at `i` by id updates that one slot only. */
  lemma MovePlayerUpdatesOne(players: seq<Player>, i: int, position: int)
    requires 0 <= i < |players| && DistinctIds(players)
    ensures MovePlayer(players, players[i].id, position) == players[i := players[i].(position := position)]
  {
    var r := MovePlayer(players, players[i].id, position);
    var u := players[i := players[i].(position := position)];
    assert |r| == |u|;
    forall k | 0 <= k < |r| ensures r[k] == u[k] {
      if k != i {
        assert k < i || i < k;
        assert players[k].id != players[i].id;
      }
    }
  }

  /** Every roll keeps the resting-state invariant. */
  lemma StepPreservesValid(s: GameState, dice: int, eventIndex: nat)
    requires IsDieValue(dice) && eventIndex < |EventTable| && Valid(s)
    ensures Valid(Step(s, dice, eventIndex))
  {
    if !s.isGameOver {
      var i := s.currentPlayerIndex;
      var r := Step(s, dice, eventIndex);
      var p := NewPosition(s.players[i].position, dice + EventTable[eventIndex].value);
      MovePlayerUpdatesOne(s.players, i, p);
      assert r.players == s.players[i := s.players[i].(position := p)];
    }
  }

  /** The state `resetGame` restores: two players with ids 1 and 2 on square 0, player 1 to move. */
  lemma InitialStateIsValid()
    ensures var s := InitialState();
            && Valid(s)
            && |s.players| == 2
            && s.players[0].id == 1 && s.players[1].id == 2
            && s.players[0].position == 0 && s.players[1].position == 0
            && s.currentPlayerIndex == 0
            && !s.isGameOver && s.winner == None
            && s.diceValue == 1 && !s.isRolling && s.lastEvent == None
  {
  }

  /** The opening roll: player 1 rolls 6 with the neutral event, lands on 6, and player 2 is to move. */
  lemma OpeningRollPassesTurn()
    ensures var r := Step(InitialState(), 6, 4);
            && r.players[0].position == 6 && r.players[1].position == 0
            && r.currentPlayerIndex == 1 && !r.isGameOver && r.winner == None
  {
  }

  /** A roll that overshoots stops on the goal and wins: 25 + 6 + 2 is capped at 29. */
  lemma OvershootWins(s: GameState)
    requires Valid(s) && !s.isGameOver && s.players[s.currentPlayerIndex].position == 25
    ensures var r := Step(s, 6, 0);
            && r.players[s.currentPlayerIndex].position == Goal
            && r.isGameOver && r.winner.Some? && r.winner.value.id == s.players[s.currentPlayerIndex].id
            && r.currentPlayerIndex == s.currentPlayerIndex
  {
  }

  // ---------------------------------------------------------------------
  // Several rolls in a row.

  /** The rolls of a sequence of draws, applied in order. */
  function Run(s: GameState, draws: seq<Draw>): (r: GameState)
    requires IndexInRange(s)
    requires forall k :: 0 <= k < |draws| ==> ValidDraw(draws[k])
    ensures IndexInRange(r) && |r.players| == |s.players|
    decreases |draws|
  {
    if draws == [] then s
    else
      assert ValidDraw(draws[0]);
      Run(Step(s, draws[0].dice, draws[0].eventIndex), draws[1..])
  }

  /** Any number of rolls keeps the resting-state invariant, so positions stay on the board. */
  lemma {:induction false} RunPreservesValid(s: GameState, draws: seq<Draw>)
    requires Valid(s)
    requires forall k :: 0 <= k < |draws| ==> ValidDraw(draws[k])
    ensures Valid(Run(s, draws))
    decreases |draws|
  {
    if draws != [] {
      StepPreservesValid(s, draws[0].dice, draws[0].eventIndex);
      RunPreservesValid(Step(s, draws[0].dice, draws[0].eventIndex), draws[1..]);
    }
  }

  /** Once the game is over, no roll changes anything: the winner is final. */
  lemma {:induction false} GameOverIsFinal(s: GameState, draws: seq<Draw>)
    requires IndexInRange(s) && s.isGameOver
    requires forall k :: 0 <= k < |draws| ==> ValidDraw(draws[k])
    ensures Run(s, draws) == s
    decreases |draws|
  {
    if draws != [] {
      GameOverIsFinal(s, draws[1..]);
    }
  }

  /** Sum of all positions: the progress measure of the game. */
  function SumPositions(players: seq<Player>): int {
    if players == [] then 0 else players[0].position + SumPositions(players[1..])
  }

  lemma {:induction false} SumPositionsUpdate(players: seq<Player>, i: int, p: Player)
    requires 0 <= i < |players|
    ensures SumPositions(players[i := p]) == SumPositions(players) - players[i].position + p.position
    decreases |players|
  {
    if i > 0 {
      assert players[i := p][1..] == players[1..][i - 1 := p];
      SumPositionsUpdate(players[1..], i - 1, p);
    } else {
      assert players[i := p][1..] == players[1..];
    }
  }

  /** While nobody stands on the goal, the positions add up to less than `|players| * Goal`. */
  lemma {:induction false} SumPositionsBelowGoal(players: seq<Player>)
    requires |players| > 0
    requires forall k :: 0 <= k < |players| ==> players[k].position < Goal
    ensures SumPositions(players) < |players| * Goal
    decreases |players|
  {
    if |players| > 1 {
      SumPositionsBelowGoal(players[1..]);
    }
  }

  /** A roll that does not end the game moves the sum of positions forward by at least one. */
  lemma StepMakesProgress(s: GameState, dice: int, eventIndex: nat)
    requires IsDieValue(dice) && eventIndex < |EventTable| && Valid(s)
    requires !s.isGameOver
    ensures SumPositions(Step(s, dice, eventIndex).players) >= SumPositions(s.players) + 1
  {
    var i := s.currentPlayerIndex;
    var p := NewPosition(s.players[i].position, dice + EventTable[eventIndex].value);
    MovePlayerUpdatesOne(s.players, i, p);
    SumPositionsUpdate(s.players, i, s.players[i].(position := p));
  }

  /**
    The game always ends: from any resting state, any
    `|players| * Goal - SumPositions(players)` rolls or more leave it over.
   */
  lemma {:induction false} GameEndsWithin(s: GameState, draws: seq<Draw>)
    requires Valid(s)
    requires forall k :: 0 <= k < |draws| ==> ValidDraw(draws[k])
    requires |draws| >= |s.players| * Goal - SumPositions(s.players)
    ensures Run(s, draws).isGameOver
    decreases |draws|
  {
    if s.isGameOver {
      GameOverIsFinal(s, draws);
    } else {
      SumPositionsBelowGoal(s.players);
      var next := Step(s, draws[0].dice, draws[0].eventIndex);
      StepMakesProgress(s, draws[0].dice, draws[0].eventIndex);
      StepPreservesValid(s, draws[0].dice, draws[0].eventIndex);
      GameEndsWithin(next, draws[1..]);
    }
  }

  /** From the initial state, every sequence of 58 rolls ends the two-player game. */
  lemma InitialGameEndsWithin58(draws: seq<Draw>)
    requires forall k :: 0 <= k < |draws| ==> ValidDraw(draws[k])
    requires |draws| >= 58
    ensures Run(InitialState(), draws).isGameOver
  {
    InitialStateIsValid();
    assert SumPositions(InitialPlayers) == 0;
    GameEndsWithin(InitialState(), draws);
  }
}
