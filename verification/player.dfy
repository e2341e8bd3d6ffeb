/**
 * Per-player state (src/game/player.ts).
 *
 * A player keeps its last three dice values in a queue seeded with
 * 0, 0, 0, together with their running sum `movesSum`. The ghost history
 * `Rolls` records every value ever given to UpdateMovesSum; the object
 * invariant says that the window is the last three of those (padded with
 * the initial zeros) and that `movesSum` is their sum.
 */
module Players {
  import opened Queues

  /** The four status strings of the source: 'waiting', 'playing', 'won', 'lost'. */
  datatype Status = Waiting | Playing | Won | Lost

  /** The contents the window is seeded with. */
  const Seed: seq<int> := [0, 0, 0]

  /** The window after the rolls `rolls`: the last three of Seed + rolls. */
  function Window(rolls: seq<int>): (w: seq<int>)
    ensures |w| == 3
    ensures |rolls| >= 3 ==> w == rolls[|rolls| - 3..]
    ensures |rolls| < 3 ==> w == Seed[|rolls|..] + rolls
  {
    (Seed + rolls)[|rolls|..]
  }

  function Sum(w: seq<int>): int
  {
    if w == [] then 0 else w[0] + Sum(w[1..])
  }

  /** One more roll evicts the oldest window entry and appends the new value. */
  lemma WindowStep(rolls: seq<int>, v: int)
    ensures Window(rolls + [v]) == Window(rolls)[1..] + [v]
  {
    assert Seed + (rolls + [v]) == (Seed + rolls) + [v];
  }

  /** The sum of a three-entry window, written out. */
  lemma SumOfThree(w: seq<int>)
    requires |w| == 3
    ensures Sum(w) == w[0] + w[1] + w[2]
  {
    assert w[1..][1..] == [w[2]];
    assert Sum([w[2]]) == w[2] + Sum([]);
  }

  /**
   * With every roll in 1..6 the running sum stays in [0, 18], and it is 18
   * exactly when the last three rolls were all sixes.
   */
  lemma TripleSix(rolls: seq<int>)
    requires forall k :: 0 <= k < |rolls| ==> 1 <= rolls[k] <= 6
    ensures 0 <= Sum(Window(rolls)) <= 18
    ensures Sum(Window(rolls)) == 18 <==>
      |rolls| >= 3 && rolls[|rolls| - 3] == 6 && rolls[|rolls| - 2] == 6 && rolls[|rolls| - 1] == 6
  {
    var w := Window(rolls);
    SumOfThree(w);
    if |rolls| < 3 {
      assert w[0] == 0;
    } else {
      assert w[0] == rolls[|rolls| - 3] && w[1] == rolls[|rolls| - 2] && w[2] == rolls[|rolls| - 1];
    }
  }

  class Player {
    const id: int
    const lastMoves: Queue<int>

    var status: Status
    var pos: int
    var prevPos: int
    var movesSum: int
    var color: string
    var visibleName: string

    // every value passed to UpdateMovesSum, oldest first
    ghost var Rolls: seq<int>

    ghost predicate Valid()
      reads this`Rolls, this`movesSum, lastMoves
    {
      && lastMoves.Valid()
      && lastMoves.Contents == Window(Rolls)
      && movesSum == Sum(lastMoves.Contents)
    }

    /** A registered player that has not started: at cell 0, waiting, window 0, 0, 0. */
    constructor (id: int)
      ensures Valid()
      ensures fresh(lastMoves)
      ensures this.id == id
      ensures pos == 0 && prevPos == 0
      ensures status == Waiting
      ensures Rolls == [] && lastMoves.Contents == [0, 0, 0] && movesSum == 0
      ensures color == "" && visibleName == ""
    {
      this.id := id;
      lastMoves := new Queue<int>();
      prevPos := 0;
      pos := 0;
      status := Waiting;
      movesSum := 0;
      color := "";
      visibleName := "";
      Rolls := [];
      new;
      lastMoves.Enqueue([0, 0, 0]);
      SumOfThree(lastMoves.Contents);
    }

    /**
     * Records a dice value: the oldest window entry is dequeued, the new value
     * enqueued, and the sum adjusted by their difference. Nothing else changes.
     */
    method UpdateMovesSum(diceVal: int)
      requires Valid()
      modifies this, lastMoves
      ensures Valid()
      ensures Rolls == old(Rolls) + [diceVal]
      ensures lastMoves.Contents == old(lastMoves.Contents)[1..] + [diceVal]
      ensures movesSum == old(movesSum) - old(lastMoves.Contents)[0] + diceVal
      ensures pos == old(pos) && prevPos == old(prevPos) && status == old(status)
      ensures color == old(color) && visibleName == old(visibleName)
    {
      ghost var w := lastMoves.Contents;
      var first := lastMoves.Dequeue();
      lastMoves.Enqueue([diceVal]);
      movesSum := movesSum - first + diceVal;
      WindowStep(Rolls, diceVal);
      Rolls := Rolls + [diceVal];
      SumOfThree(w);
      SumOfThree(lastMoves.Contents);
    }
  }
}
