/**
  The die and the random events of src/lib/utils.ts.

  Both helpers draw from `Math.random`; here the draw is an input instead:
  `RollDice` takes `floor(random * 6)` and `GetRandomEvent` takes the index
  `floor(random * 5)` into the fixed event table.
 */
module Events {

  /** Number of faces of the die. */
  const DieFaces: nat := 6

  /** The three tags an event carries; the board shows each in its own colour. */
  datatype EventKind = Bonus | Penalty | Neutral

  /** A random event: its tag, the message shown and the squares it adds to the roll. */
  datatype GameEvent = GameEvent(kind: EventKind, message: string, value: int)

  /** The five events, in the order the source lists them. */
  const EventTable: seq<GameEvent> := [
    GameEvent(Bonus, "昇進しました！", 2),
    GameEvent(Penalty, "体調不良で休憩", -1),
    GameEvent(Bonus, "宝くじが当たった！", 3),
    GameEvent(Penalty, "道に迷いました", -2),
    GameEvent(Neutral, "平凡な一日", 0)
  ]

  predicate IsDieValue(d: int) {
    1 <= d <= DieFaces
  }

  /** An event's tag agrees with the sign of its value. */
  predicate SignMatchesKind(e: GameEvent) {
    && (e.kind == Bonus <==> e.value > 0)
    && (e.kind == Penalty <==> e.value < 0)
    && (e.kind == Neutral <==> e.value == 0)
  }

  /** One die roll, given the uniform draw `floor(random * 6)`. */
  function RollDice(draw: nat): (d: int)
    requires draw < DieFaces
    ensures IsDieValue(d)
  {
    draw + 1
  }

  /** Every face of the die is the roll of exactly one draw. */
  lemma RollDiceIsOnto(d: int)
    requires IsDieValue(d)
    ensures 0 <= d - 1 < DieFaces && RollDice(d - 1) == d
    ensures forall draw: nat :: draw < DieFaces && RollDice(draw) == d ==> draw == d - 1
  {
  }

  /** The event picked by the draw `floor(random * 5)`. */
  function GetRandomEvent(index: nat): (e: GameEvent)
    requires index < |EventTable|
    ensures e in EventTable
    ensures SignMatchesKind(e)
    ensures -2 <= e.value <= 3
    ensures e.kind == Bonus ==> e.value == 2 || e.value == 3
    ensures e.kind == Penalty ==> e.value == -1 || e.value == -2
    ensures e.kind == Neutral ==> e.value == 0
  {
    EventTable[index]
  }

  /** The table holds exactly five entries, and every one of them is some draw's event. */
  lemma EventTableIsFixed()
    ensures |EventTable| == 5
    ensures forall e :: e in EventTable <==> exists index: nat :: index < 5 && GetRandomEvent(index) == e
  {
    forall e | e in EventTable
      ensures exists index: nat :: index < 5 && GetRandomEvent(index) == e
    {
      var index :| 0 <= index < 5 && EventTable[index] == e;
      assert GetRandomEvent(index) == e;
    }
  }

  /**
    A die value plus an event value, the raw move of one turn, lies in
    [-1, 9], and both ends are reached.
   */
  lemma TotalMoveRange(dice: int, index: nat)
    requires IsDieValue(dice) && index < |EventTable|
    ensures -1 <= dice + GetRandomEvent(index).value <= 9
    ensures RollDice(0) + GetRandomEvent(3).value == -1
    ensures RollDice(5) + GetRandomEvent(2).value == 9
  {
  }
}
