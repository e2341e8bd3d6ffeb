# Snakes and ladders engine (salbot), modelled in Dafny

This project models the game engine behind the salbot Telegram bot: a
turn-based Snakes and Ladders game for several players in one chat. The
engine consists of:

- a FIFO **queue** stored as a dictionary with two ever-increasing counters
  (`queue.dfy`, module `Queues`);
- the mutable **player** record, which keeps a rolling window of its last three
  dice values and their running sum (`player.dfy`, module `Players`);
- the **board**, which builds the cell-to-cell redirect table of snakes and
  ladders (`board.dfy`, module `Boards`);
- the **game**, which seeds the turn queue, resolves a dice roll (the
  triple-sum rule, the exact win on cell 100, the bounce back past 100, the
  redirects), rotates turns and detects the end of a game (`game.dfy`, module
  `Games`; the key order of a player record is in `keys.dfy`, module `Keys`);
- the **board geometry** of the visualizer: the snake-shaped table from cell
  number to grid position, and the pixel offset of a grid position
  (`visualizer.dfy`, module `Visualizer`).

Classes keep the source's mutable state as fields: the queue, the player,
the game and the visualizer. Each class has an object invariant
`Valid()` where the state has one. Each method states its new state
in its `ensures`, so the model shares the source's aliasing. Queue
entries are references to player objects, and one player can stand in the
queue twice. `Dice` and `HasFinished` change that shared object.

The model reproduces these behaviours of the code:

- 100 is hard-coded as the winning cell, whatever the board size.
- The triple-sum rule appends the current player to the queue again without
  removing it, so that player then stands in the queue twice.
- Winners are never removed from the queue.
- `start` neither clears the queue before seeding it nor rejects a second start.
- When a cell is both a snake and a ladder, the ladder target wins.
- The redirect table is built without range or cycle checks, and nothing
  raises a configuration error: snake and ladder cells outside 1..size are
  dropped, and targets are copied as they are.

The redirect loop of `dice` runs forever when the chain from the landing
cell reaches a cycle. The model requires more, `Acyclic`: from every
redirected cell, `|sal|` steps of the chain reach a cell without a redirect.

## Model

| member | source | states |
|---|---|---|
| Queues.Queue.constructor | src/game/queue.ts:6-10 | A new queue is empty: no elements, `head == tail == 0`. |
| Queues.Queue.Enqueue | src/game/queue.ts:12-17 | The arguments are appended in argument order behind the existing elements; `tail` grows by their number, `head` is unchanged, and the representation invariant is kept. |
| Queues.Queue.Dequeue | src/game/queue.ts:19-24 | On a non-empty queue, returns the oldest element and removes exactly that one; `head` grows by one. |
| Queues.Queue.Peek | src/game/queue.ts:26-28 | Returns the element the next Dequeue would return and changes nothing. |
| Queues.Queue.Length | src/game/queue.ts:30-32 | `tail - head` is the number of elements present. |
| Queues.Queue.IsEmpty | src/game/queue.ts:34-36 | True exactly when no element is present. |
| Queues.DrainInOrder | src/game/queue.ts:12-24 | FIFO: elements enqueued into a fresh queue and dequeued until it is empty come out in exactly the order they went in. |
| Players.Window | src/game/player.ts:20-28 | The rolling window always holds exactly three values: the last three rolls, padded in front with the initial zeros while there are fewer than three. |
| Players.WindowStep | src/game/player.ts:27-28 | Recording a roll evicts the oldest window entry and appends the new value. |
| Players.TripleSix | src/game/player.ts:26-30 | With every roll in 1..6, the window sum stays in [0, 18] and is 18 exactly when the last three rolls were all sixes. |
| Players.Player.constructor | src/game/player.ts:14-24 | A new player is waiting at cell 0 with `prevPos == 0`, window `[0, 0, 0]`, `movesSum == 0`, empty colour and name, and a fresh window queue of its own. |
| Players.Player.UpdateMovesSum | src/game/player.ts:26-30 | The window becomes `old[1..] + [v]` and `movesSum` moves by `v - old[0]`, so it still equals the window sum. Position, previous position, status, colour and name are unchanged. |
| Boards.BuildRedirects | src/game/board.ts:29-37 | The keys are exactly the cells in [1, size] that are a snake or a ladder. A ladder's target wins over a snake's on the same cell; otherwise the snake's target is copied. Targets are not checked. |
| Boards.Board.constructor | src/game/board.ts:25-50 | Construction never fails. `options` are the given options, `size == row * col`, and `sal` is the table BuildRedirects describes. |
| Boards.Board.Options | src/game/board.ts:40-42 | The getter returns the layout options the board was built with. |
| Boards.Board.Size | src/game/board.ts:44-46 | The number of cells is `row * col`, never negative for a layout with non-negative rows and columns. |
| Boards.Board.Sal | src/game/board.ts:48-50 | Every key of the redirect table is a cell of the board, in [1, size]. |
| Keys.SortedKeysComplete | src/game/game.ts:26 | The seeding order lists every key of the player record. |
| Keys.SortedKeysIncreasing | src/game/game.ts:26 | The seeding order is strictly ascending in the integer key, so each key is listed once. |
| Keys.KeysAscending | src/game/game.ts:26 | Computes the ascending key order of a record of players. |
| Games.Overshoot | src/game/game.ts:76-77 | A raw position up to 100 is kept. One past 100 is bounced back into [1, 100], and one below 200 is reflected at 100: `200 - p`. |
| Games.OvershootOnBoard | src/game/game.ts:70-78 | From a cell in 1..100, a roll of 1..6 that does not land on 100 gives a position in [1, 100). Past 100 it is the reflection `200 - (pos + val)`, so 97 + 6 gives 97. |
| Games.Resolve | src/game/game.ts:80-82 | On an acyclic table, following the redirects ends on a cell that has no redirect. |
| Games.FollowRedirects | src/game/game.ts:80-82 | The redirect loop terminates on an acyclic table, on a cell with no redirect: the one Resolve describes. |
| Games.ResolveStep | src/game/game.ts:80-82 | A redirected cell resolves to the same cell as its target. |
| Games.ResolveUnique | src/game/game.ts:80-82 | Every chain of redirects that stops on a cell with no redirect stops on the resolved cell. |
| Games.ResolveInRange | src/game/game.ts:80-82 | If every target lies in [lo, hi], redirects from a cell in [lo, hi] never leave it. |
| Games.SelfRedirectIsCyclic | src/game/game.ts:80-82 | A cell that redirects to itself makes the table cyclic, so the loop would never end; the precondition rules this out. |
| Games.ResolveChainExample | src/game/game.ts:80-82 | The chain 3 → 7 → 15 is acyclic and resolves 3 to 15. |
| Games.LandingOnBoard | src/game/game.ts:70-82 | If every target is a cell of 1..100, a player on the board who rolls 1..6 and does not win stays on the board. |
| Games.RotateNSplit | src/game/game.ts:90-94 | k turn passes move the first k queue entries, in order, to the back. |
| Games.RotateFull | src/game/game.ts:90-94 | With n entries in the queue, n turn passes restore the original order. |
| Games.Game.constructor | src/game/game.ts:8-11 | A new engine has an empty queue, is not started and has no board. |
| Games.Game.SetBoard | src/game/game.ts:16-19 | Installs a freshly built board with the redirect table and options of the definition; the started flag is unchanged. |
| Games.Game.IsStarted | src/game/game.ts:21-23 | The getter reports the started flag, which Start sets when it seats players on a board and Stop clears. |
| Games.Game.Start | src/game/game.ts:25-47 | An empty record returns null (NoPlayers) and changes nothing. Otherwise every player is set playing on cell 1 with `prevPos == 1`, and the players are appended behind the existing queue in ascending key order. With no board set, reading its options throws (NoBoard) and the game is not marked started. With a board the game is started and the queue head is returned. Of the players, only status and positions may change. |
| Games.Game.SetPlaying | src/game/game.ts:30-34 | After the first loop of start, every player of the record is playing on cell 1 with `prevPos == 1`; only those three fields are written. |
| Games.Game.Enter | src/game/game.ts:31-33 | One player is set playing on cell 1 with `prevPos == 1`. |
| Games.Game.EnqueueInOrder | src/game/game.ts:36-38 | The second loop of start appends the players behind the existing queue in the seeding order. |
| Games.Game.Stop | src/game/game.ts:49-54 | The queue ends empty and the game is not started; on an empty, stopped game this changes nothing. |
| Games.Game.Dice | src/game/game.ts:56-88 | Only the head player, its window and the queue change. The roll is recorded in the window and `prevPos` becomes the old position. On the triple sum 18 the player goes to cell 1 and is appended once more to the queue. A move that lands exactly on 100 wins, with no redirect applied. Otherwise the position is the bounced-back raw position with its redirects resolved. |
| Games.Game.Advance | src/game/game.ts:70-82 | The move without the triple sum: landing exactly on 100 wins; otherwise the position is Resolve of the bounced-back position and the status is unchanged. |
| Games.Game.NextPlayer | src/game/game.ts:90-94 | The head moves to the tail, the length is unchanged, and the new head is returned. |
| Games.Game.HasFinished | src/game/game.ts:96-104 | True exactly when one entry is left. That player is then marked lost, and only its status is written: positions, sum, window, colour and name are unchanged, and its invariant is kept. Otherwise nothing changes. |
| Games.Game.LastPlayer | src/game/game.ts:106-108 | Removes and returns the head of the queue. |
| Visualizer.PlayersVisualizer.constructor | src/game/playersVisualizer.ts:17-24 | The visualizer keeps the board options, and its table is exactly the standard table of the board's rows and columns. |
| Visualizer.PlayersVisualizer.SetStandardBoardHash | src/game/playersVisualizer.ts:104-119 | The nested loops add exactly the standard table for row x col to the existing table: the closed form CellToGrid for every cell 1..row*col. |
| Visualizer.PlayersVisualizer.WriteRowAscending | src/game/playersVisualizer.ts:107-111 | An even row is written left to right with decreasing cell numbers and consumes `col` cells. |
| Visualizer.PlayersVisualizer.WriteRowDescending | src/game/playersVisualizer.ts:112-117 | An odd row is written right to left with decreasing cell numbers and consumes `col` cells. |
| Visualizer.CellGridRoundTrip | src/game/playersVisualizer.ts:104-119 | Every cell 1..row*col lands on a grid position with `0 <= i < row` and `0 <= j < col`, and the inverse mapping gives the cell back. |
| Visualizer.GridCellRoundTrip | src/game/playersVisualizer.ts:104-119 | Every grid position holds a cell of 1..row*col, and the table maps that cell back to it. |
| Visualizer.StandardHashBijection | src/game/playersVisualizer.ts:104-119 | The table's keys are exactly 1..row*col, each mapped to one grid position. Distinct cells get distinct positions, and every position is taken. |
| Visualizer.StandardHashCorners | src/game/playersVisualizer.ts:105-117 | Cell row*col sits at (0, 0). Cell 1 sits in the bottom row: at column 0 for an even row count, at the last column for an odd one. |
| Visualizer.TenByTen | src/game/playersVisualizer.ts:105-117 | On a 10 x 10 board, 100 ↦ (0, 0), 1 ↦ (9, 0), 10 ↦ (9, 9) and 11 ↦ (8, 9). |
| Visualizer.ConsecutiveCellsAdjacent | src/game/playersVisualizer.ts:104-119 | Cells c and c + 1 always share a side on the grid. |
| Visualizer.PlayersVisualizer.CellXY | src/game/playersVisualizer.ts:79-86 | With positive pitches, a grid position is drawn inside the padded board: x from `paddingLeft` to the last column's offset, and y from `paddingTop` to the last row's offset. |
| Visualizer.CellXYStep | src/game/playersVisualizer.ts:79-86 | One column to the right adds `cellW + gapV` to x, and one row down adds `cellH + gapH` to y. The horizontal gap really is `gapV`. |
| Visualizer.CellXYInjective | src/game/playersVisualizer.ts:79-86 | With positive pitches, distinct grid positions get distinct pixel offsets. |
| Visualizer.DistinctCellsDrawnApart | src/game/playersVisualizer.ts:51-55 | With positive pitches, players on different cells of the board are drawn at different offsets. |

## Left out

- Rendering is out: the canvas and image work of the visualizer (`setImage`, `updateBoard`, `drawImageOnCanvas`, `drawPlayers`, `drawPlayer`, `getColor`), the `players` record the visualizer keeps for drawing, and `boardPVBuffer`. These are calls into a canvas library, with floating-point radii and CSS colour strings.
- The visualizer hooks of the engine are out: the construction of the visualizer and `await setImage` in `start`, and the `updateBoard` calls and buffer copy in `dice`. Of their failures, only the one that reads the options of a missing board is modelled (Start's NoBoard outcome). The model assumes that loading the board image and drawing succeed; when they fail, the source's `start` leaves the players seated and queued without marking the game started.
- `setBoard`'s `boardName` argument is out: `path.resolve` is filesystem plumbing. Board definitions are parameters; the `boards.json` file is not part of this model.
- The Telegram bot (`src/bot.ts`, `bot.ts`, `bot.js`) is not part of this model.
- Queues.Queue.Dequeue: requires a non-empty queue. On an empty queue the source returns `undefined` and still advances `head`, leaving `length` at −1; the model does not represent that state.
- Queues.Queue.Peek: requires a non-empty queue; the source returns `undefined` on an empty one.
- Games.Game.Dice: requires a non-empty queue, a board, the head player's window invariant and a redirect table without cycles. The source has no such checks: without a queue head or a board it throws, and every player it creates keeps the window invariant. Its redirect loop runs forever only when the chain from the landing cell reaches a cycle. A cycle elsewhere in the table does not affect that roll, yet the precondition excludes it too.
- Games.Game.Dice: `movesSum == 18` is the source's own test and is not tied to the rolls being in 1..6. TripleSix states what it means for such rolls.
- Games.Game.NextPlayer, Games.Game.LastPlayer: require a non-empty queue, as `dequeue` does.
- Keys.KeysAscending, Games.Game.Start: the model seeds the queue in ascending order of every integer key. `Object.values` does so only for array-index keys, 0 to 2^32 − 2. Negative keys and keys of 2^32 − 1 or more come after those, in the order the players joined. Telegram user ids can exceed 2^32, so for such players the source uses join order and the model does not.
- Games.Game.Start: appends the players in ascending key order (InKeyOrder), which matches the source only when every key is an array index, 0 to 2^32 − 2; see the line above.
- Status strings are modelled as the datatype `Status`. Numbers are unbounded integers: the JavaScript doubles of the source are exact for every value a board produces.
