/**
 * The board (src/game/board.ts): its layout options and the redirect
 * table `sal` (snakes and ladders) built once from a board definition.
 */
module Boards {

  /** Grid and pixel layout of a board image. */
  datatype BoardOptions = BoardOptions(
    row: int, col: int,
    cellW: int, cellH: int,
    paddingTop: int, paddingBottom: int, paddingLeft: int, paddingRight: int,
    gapV: int, gapH: int)

  /** A board definition: snake and ladder maps from cell to target cell. */
  datatype BoardType = BoardType(
    id: int,
    snakes: map<int, int>,
    ladders: map<int, int>,
    options: BoardOptions)

  /**
   * The loop of the Board constructor: scans the cells 1..size, copying a
   * snake entry and then letting a ladder entry for the same cell overwrite
   * it. Targets are copied as they are; nothing is rejected.
   */
  method BuildRedirects(snakes: map<int, int>, ladders: map<int, int>, size: int)
    returns (sal: map<int, int>)
    ensures forall c :: c in sal <==> 1 <= c <= size && (c in snakes || c in ladders)
    ensures forall c :: c in sal && c in ladders ==> sal[c] == ladders[c]
    ensures forall c :: c in sal && c !in ladders ==> sal[c] == snakes[c]
  {
    sal := map[];
    var i := 1;
    while i <= size
      invariant 1 <= i && (i == 1 || i <= size + 1)
      invariant forall c :: c in sal <==> 1 <= c < i && (c in snakes || c in ladders)
      invariant forall c :: c in sal && c in ladders ==> sal[c] == ladders[c]
      invariant forall c :: c in sal && c !in ladders ==> sal[c] == snakes[c]
    {
      if i in snakes {
        sal := sal[i := snakes[i]];
      }
      if i in ladders {
        sal := sal[i := ladders[i]];
      }
      i := i + 1;
    }
  }

  class Board {
    const snakesAndLadders: map<int, int>
    const boardOptions: BoardOptions

    /** Every redirected cell is a cell of the board: the constructor scans 1..size only. */
    ghost predicate Valid()
    {
      forall c :: c in snakesAndLadders ==> 1 <= c <= boardOptions.row * boardOptions.col
    }

    /** Builds the redirect table over the cells 1..row*col; never fails. */
    constructor (board: BoardType)
      ensures Valid()
      ensures Options() == board.options
      ensures Size() == board.options.row * board.options.col
      ensures forall c :: c in Sal() <==> 1 <= c <= Size() && (c in board.snakes || c in board.ladders)
      ensures forall c :: c in Sal() && c in board.ladders ==> Sal()[c] == board.ladders[c]
      ensures forall c :: c in Sal() && c !in board.ladders ==> Sal()[c] == board.snakes[c]
    {
      var sal := BuildRedirects(board.snakes, board.ladders, board.options.row * board.options.col);
      boardOptions := board.options;
      snakesAndLadders := sal;
    }

    /** The layout options the board was built with. */
    function Options(): (o: BoardOptions)
      ensures o == boardOptions
    {
      boardOptions
    }

    /** The number of cells: one per grid position of the layout. */
    function Size(): (n: int)
      ensures n == Options().row * Options().col
      ensures Options().row >= 0 && Options().col >= 0 ==> n >= 0
    {
      boardOptions.row * boardOptions.col
    }

    /** The redirect table; its keys are cells of the board. */
    function Sal(): (sal: map<int, int>)
      requires Valid()
      ensures forall c :: c in sal ==> 1 <= c <= Size()
    {
      snakesAndLadders
    }
  }
}
