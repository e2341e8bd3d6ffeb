/**
 * The game engine (src/game/game.ts): a turn queue of player references,
 * a board, and the started flag, driven by Start, Dice, NextPlayer,
 * HasFinished, LastPlayer and Stop.
 *
 * Players are objects shared between the caller and the queue; a player
 * may stand in the queue more than once (the triple-sum rule re-enqueues
 * the current player without removing it).
 */
module Games {
  import opened Queues
  import opened Players
  import opened Boards
  import opened Keys

  /** The winning cell. The source compares with the literal 100, not with the board size. */
  const WinCell: int := 100

  /** Three window entries summing to this send the player back to cell 1. */
  const TripleSum: int := 18

  // ---------------------------------------------------------------------
  // Overshoot

  /**
   * A raw position past the winning cell is bounced back to 100 - p % 100:
   * a position up to 100 is kept, one past it lands in 1..100, and one
   * below 200 is reflected at 100 (104 gives 96).
   */
  function Overshoot(p: int): (r: int)
    ensures p <= WinCell ==> r == p
    ensures p > WinCell ==> 1 <= r <= WinCell
    ensures WinCell < p < 2 * WinCell ==> r == 2 * WinCell - p
  {
    if p > WinCell then WinCell - p % WinCell else p
  }

  /**
   * From a cell of the board, one roll of 1..6 that does not land exactly on
   * 100 gives a position on the board, and an overshoot is a reflection at 100
   * (97 + 6 gives 97).
   */
  lemma OvershootOnBoard(pos: int, val: int)
    requires 1 <= pos <= WinCell && 1 <= val <= 6
    requires pos + val != WinCell
    ensures 1 <= Overshoot(pos + val) < WinCell
    ensures pos + val > WinCell ==> Overshoot(pos + val) == 2 * WinCell - (pos + val)
  {
  }

  // ---------------------------------------------------------------------
  // Redirects (snakes and ladders)

  /** The cell reached from `c` after at most `n` redirects. */
  function Follow(sal: map<int, int>, c: int, n: nat): int
    decreases n
  {
    if n == 0 || c !in sal then c else Follow(sal, sal[c], n - 1)
  }

  /**
   * No chain of redirects cycles: from every redirected cell, |sal| steps
   * reach a cell without a redirect (a chain visiting only distinct keys has
   * at most |sal| steps).
   */
  ghost predicate Acyclic(sal: map<int, int>)
  {
    forall c :: c in sal ==> Follow(sal, c, |sal|) !in sal
  }

  /** Where a player standing on `c` ends up after all redirects. */
  function Resolve(sal: map<int, int>, c: int): (r: int)
    requires Acyclic(sal)
    ensures r !in sal
  {
    Follow(sal, c, |sal|)
  }

  /** Once a chain reaches a cell without a redirect, more steps change nothing. */
  lemma {:induction false} FollowSettles(sal: map<int, int>, c: int, n: nat, m: nat)
    requires n <= m
    requires Follow(sal, c, n) !in sal
    ensures Follow(sal, c, m) == Follow(sal, c, n)
    decreases n
  {
    if n != 0 && c in sal {
      FollowSettles(sal, sal[c], n - 1, m - 1);
    }
  }

  /** Resolution is transitive: a redirected cell resolves like its target (3 -> 7 -> 15). */
  lemma ResolveStep(sal: map<int, int>, c: int)
    requires Acyclic(sal)
    requires c in sal
    ensures Resolve(sal, c) == Resolve(sal, sal[c])
  {
    assert Resolve(sal, c) == Follow(sal, sal[c], |sal| - 1);
    FollowSettles(sal, sal[c], |sal| - 1, |sal|);
  }

  /** Any chain that ends on a cell without a redirect ends on Resolve. */
  lemma ResolveUnique(sal: map<int, int>, c: int, n: nat)
    requires Acyclic(sal)
    requires Follow(sal, c, n) !in sal
    ensures Resolve(sal, c) == Follow(sal, c, n)
  {
    if n <= |sal| {
      FollowSettles(sal, c, n, |sal|);
    } else {
      FollowSettles(sal, c, |sal|, n);
    }
  }

  lemma {:induction false} FollowInRange(sal: map<int, int>, c: int, n: nat, lo: int, hi: int)
    requires forall k :: k in sal ==> lo <= sal[k] <= hi
    requires lo <= c <= hi
    ensures lo <= Follow(sal, c, n) <= hi
    decreases n
  {
    if n != 0 && c in sal {
      FollowInRange(sal, sal[c], n - 1, lo, hi);
    }
  }

  /** When every target lies in [lo, hi], redirects never leave [lo, hi]. */
  lemma ResolveInRange(sal: map<int, int>, c: int, lo: int, hi: int)
    requires Acyclic(sal)
    requires forall k :: k in sal ==> lo <= sal[k] <= hi
    requires lo <= c <= hi
    ensures lo <= Resolve(sal, c) <= hi
  {
    FollowInRange(sal, c, |sal|, lo, hi);
  }

  lemma {:induction false} FollowFixpoint(sal: map<int, int>, c: int, n: nat)
    requires c in sal && sal[c] == c
    ensures Follow(sal, c, n) == c
    decreases n
  {
    if n != 0 {
      FollowFixpoint(sal, c, n - 1);
    }
  }

  /** A cell redirecting to itself makes the redirect loop run forever. */
  lemma SelfRedirectIsCyclic(sal: map<int, int>, c: int)
    requires c in sal && sal[c] == c
    ensures !Acyclic(sal)
  {
    FollowFixpoint(sal, c, |sal|);
  }

  /** The chain 3 -> 7 -> 15 resolves 3 to 15, not to 7. */
  lemma ResolveChainExample()
    ensures Acyclic(map[3 := 7, 7 := 15])
    ensures Resolve(map[3 := 7, 7 := 15], 3) == 15
  {
    var sal := map[3 := 7, 7 := 15];
    assert |sal| == 2;
    assert Follow(sal, 3, 2) == 15;
    assert Follow(sal, 7, 2) == 15;
  }

  /**
   * The redirect loop of Dice: while the current cell has a redirect,
   * move to its target. Terminates because the redirects are acyclic.
   */
  method FollowRedirects(sal: map<int, int>, start: int) returns (cell: int)
    requires Acyclic(sal)
    ensures cell !in sal
    ensures cell == Resolve(sal, start)
  {
    cell := start;
    ghost var n: nat := |sal|;
    while cell in sal
      invariant Follow(sal, cell, n) == Resolve(sal, start)
      decreases n
    {
      cell := sal[cell];
      n := n - 1;
    }
  }

  /**
   * A player on the board who rolls 1..6 and does not win stays on the
   * board, provided every redirect target is a cell of the board.
   */
  lemma LandingOnBoard(sal: map<int, int>, pos: int, val: int)
    requires Acyclic(sal)
    requires forall k :: k in sal ==> 1 <= sal[k] <= WinCell
    requires 1 <= pos <= WinCell && 1 <= val <= 6
    requires pos + val != WinCell
    ensures 1 <= Resolve(sal, Overshoot(pos + val)) <= WinCell
  {
    OvershootOnBoard(pos, val);
    ResolveInRange(sal, Overshoot(pos + val), 1, WinCell);
  }

  // ---------------------------------------------------------------------
  // Turn rotation

  function Rotate<T>(s: seq<T>): seq<T>
    requires s != []
  {
    s[1..] + [s[0]]
  }

  /** `k` successive rotations. */
  function RotateN<T>(s: seq<T>, k: nat): seq<T>
    decreases k
  {
    if k == 0 || s == [] then s else RotateN(Rotate(s), k - 1)
  }

  /** After k <= |s| rotations the first k entries have moved, in order, to the back. */
  lemma {:induction false} RotateNSplit<T>(s: seq<T>, k: nat)
    requires k <= |s|
    ensures RotateN(s, k) == s[k..] + s[..k]
    decreases k
  {
    if k == 0 {
      assert s[0..] == s;
      assert s[..0] == [];
    } else {
      var r := Rotate(s);
      RotateNSplit(r, k - 1);
      assert r[k - 1..] == s[k..] + [s[0]];
      assert r[..k - 1] == s[1..k];
      calc {
        RotateN(s, k);
        RotateN(r, k - 1);
        r[k - 1..] + r[..k - 1];
        (s[k..] + [s[0]]) + s[1..k];
        s[k..] + ([s[0]] + s[1..k]);
        { assert [s[0]] + s[1..k] == s[..k]; }
        s[k..] + s[..k];
      }
    }
  }

  /** With n entries in the queue, n calls of NextPlayer restore the original order. */
  lemma RotateFull<T>(s: seq<T>)
    ensures RotateN(s, |s|) == s
  {
    RotateNSplit(s, |s|);
    assert s[|s|..] + s[..|s|] == s;
  }

  // ---------------------------------------------------------------------
  // Seeding order of Start

  /** The players of a record in the order Start enqueues them. */
  ghost function InKeyOrder(players: map<int, Player>): (r: seq<Player>)
    ensures |r| == |players|
  {
    var ks := SortedKeys(players.Keys);
    seq(|ks|, i requires 0 <= i < |ks| => players[ks[i]])
  }

  // ---------------------------------------------------------------------
  // The engine

  /**
   * How Start ends: null for an empty record, the player whose turn comes
   * first, or the exception raised when no board has been set.
   */
  datatype StartOutcome = NoPlayers | Started(first: Player) | NoBoard

  class Game {
    const queue: Queue<Player>
    var board: Board?
    var isGameStarted: bool

    ghost predicate Valid()
      reads this, queue
    {
      queue.Valid() && (board != null ==> board.Valid())
    }

    /** A stopped engine with an empty queue and no board yet. */
    constructor ()
      ensures Valid()
      ensures fresh(queue)
      ensures queue.Contents == [] && !isGameStarted && board == null
    {
      queue := new Queue<Player>();
      board := null;
      isGameStarted := false;
    }

    /** Builds the board the engine plays on. */
    method SetBoard(b: BoardType)
      requires Valid()
      modifies this
      ensures Valid()
      ensures board != null && fresh(board)
      ensures board.Options() == b.options
      ensures board.Size() == b.options.row * b.options.col
      ensures forall c :: c in board.Sal() <==> 1 <= c <= board.Size() && (c in b.snakes || c in b.ladders)
      ensures forall c :: c in board.Sal() && c in b.ladders ==> board.Sal()[c] == b.ladders[c]
      ensures forall c :: c in board.Sal() && c !in b.ladders ==> board.Sal()[c] == b.snakes[c]
      ensures isGameStarted == old(isGameStarted)
    {
      board := new Board(b);
    }

    /** Whether a game is running: set by a Start that seats players on a board, cleared by Stop. */
    function IsStarted(): (started: bool)
      reads this
      ensures started <==> isGameStarted
    {
      isGameStarted
    }

    /** The player at the head of the queue: the one whose turn it is. */
    ghost function Current(): Player
      reads this, queue
      requires Valid() && queue.Contents != []
    {
      queue.Contents[0]
    }

    /**
     * Starts a game. An empty record yields NoPlayers and changes nothing.
     * Otherwise every player is set playing on cell 1 and all are appended to
     * the queue in ascending key order (behind whatever the queue already
     * holds). Then the visualizer reads the board's options: with no board
     * set that throws (NoBoard) before the engine is marked started; with a
     * board the engine is marked started and the queue head is returned.
     * Of the players, only the status and the two positions are written.
     */
    method Start(players: map<int, Player>) returns (outcome: StartOutcome)
      requires Valid()
      modifies this, queue, players.Values`status, players.Values`pos, players.Values`prevPos
      ensures Valid()
      ensures board == old(board)
      ensures |players| == 0 ==>
        && outcome == NoPlayers
        && queue.Contents == old(queue.Contents)
        && isGameStarted == old(isGameStarted)
      ensures |players| > 0 ==>
        && queue.Contents == old(queue.Contents) + InKeyOrder(players)
        && (forall key :: key in players ==> IsPlaying(players[key]))
      ensures |players| > 0 && board == null ==>
        && outcome == NoBoard
        && isGameStarted == old(isGameStarted)
      ensures |players| > 0 && board != null ==>
        && outcome == Started(queue.Contents[0])
        && isGameStarted
    {
      var keys := KeysAscending(players.Keys);
      if |keys| < 1 {
        return NoPlayers;
      }
      SetPlaying(players, keys);
      EnqueueInOrder(players, keys);
      if board == null {
        return NoBoard;
      }
      isGameStarted := true;
      var first := queue.Peek();
      return Started(first);
    }

    /** What Start makes of every player: playing, on cell 1. */
    static ghost predicate IsPlaying(p: Player)
      reads p
    {
      p.status == Playing && p.pos == 1 && p.prevPos == 1
    }

    /**
     * The first loop of Start: every listed player is set playing on cell 1.
     * Only the status and the two positions of the players are written.
     */
    static method SetPlaying(players: map<int, Player>, keys: seq<int>)
      requires keys == SortedKeys(players.Keys)
      modifies players.Values`status, players.Values`pos, players.Values`prevPos
      ensures forall key :: key in players ==> IsPlaying(players[key])
    {
      for k := 0 to |keys|
        invariant forall j :: 0 <= j < k ==> IsPlaying(players[keys[j]])
      {
        Enter(players[keys[k]]);
      }
      forall key | key in players
        ensures IsPlaying(players[key])
      {
        SortedKeysComplete(players.Keys, key);
      }
    }

    /** One player joins the game: playing, on cell 1; nothing else about it changes. */
    static method Enter(p: Player)
      modifies p`status, p`pos, p`prevPos
      ensures IsPlaying(p)
    {
      p.status := Playing;
      p.prevPos := 1;
      p.pos := 1;
    }

    /** The second loop of Start: the players are appended one at a time, in key order. */
    method EnqueueInOrder(players: map<int, Player>, keys: seq<int>)
      requires Valid()
      requires keys == SortedKeys(players.Keys)
      modifies queue
      ensures Valid()
      ensures queue.Contents == old(queue.Contents) + InKeyOrder(players)
    {
      ghost var order := InKeyOrder(players);
      for k := 0 to |keys|
        invariant queue.Valid()
        invariant queue.Contents == old(queue.Contents) + order[..k]
      {
        queue.Enqueue([players[keys[k]]]);
      }
      assert order[..|keys|] == order;
    }

    /** Empties the queue and marks the engine stopped; a no-op on a stopped, empty engine. */
    method Stop()
      requires Valid()
      modifies this, queue
      ensures Valid()
      ensures queue.Contents == [] && !isGameStarted
      ensures board == old(board)
    {
      while queue.Length() != 0
        modifies queue
        invariant queue.Valid()
        decreases |queue.Contents|
      {
        var dropped := queue.Dequeue();
      }
      isGameStarted := false;
    }

    /**
     * Resolves a roll of `val` for the player at the head of the queue, in
     * the strict order: triple sum, exact win, overshoot, redirects. Only
     * that player (and, for the triple sum, the queue) changes.
     */
    method Dice(val: int) returns (player: Player)
      requires Valid()
      requires queue.Contents != []
      requires Current().Valid()
      requires board != null && Acyclic(board.Sal())
      modifies queue, Current(), Current().lastMoves
      ensures Valid()
      ensures player == old(Current())
      ensures player.Valid()
      ensures player.Rolls == old(player.Rolls) + [val]
      ensures player.prevPos == old(player.pos)
      ensures player.color == old(player.color) && player.visibleName == old(player.visibleName)
      ensures player.movesSum == TripleSum ==>
        && player.pos == 1
        && player.status == old(player.status)
        && queue.Contents == old(queue.Contents) + [player]
      ensures player.movesSum != TripleSum && old(player.pos) + val == WinCell ==>
        && player.pos == WinCell
        && player.status == Won
        && queue.Contents == old(queue.Contents)
      ensures player.movesSum != TripleSum && old(player.pos) + val != WinCell ==>
        && player.pos == Resolve(board.Sal(), Overshoot(old(player.pos) + val))
        && player.status == old(player.status)
        && queue.Contents == old(queue.Contents)
    {
      player := queue.Peek();
      player.UpdateMovesSum(val);
      player.prevPos := player.pos;

      if player.movesSum == TripleSum {
        player.pos := 1;
        queue.Enqueue([player]);
      } else {
        Advance(player, val, board.Sal());
      }
    }

    /**
     * The move of a roll that did not hit the triple sum: exactly 100 wins;
     * past 100 the position bounces back; then every redirect is followed.
     */
    static method Advance(p: Player, val: int, sal: map<int, int>)
      requires Acyclic(sal)
      modifies p`pos, p`status
      ensures old(p.pos) + val == WinCell ==> p.pos == WinCell && p.status == Won
      ensures old(p.pos) + val != WinCell ==>
        p.pos == Resolve(sal, Overshoot(old(p.pos) + val)) && p.status == old(p.status)
    {
      p.pos := p.pos + val;
      if p.pos == WinCell {
        p.status := Won;
      } else {
        if p.pos > WinCell {
          p.pos := WinCell - p.pos % WinCell;
        }
        p.pos := FollowRedirects(sal, p.pos);
      }
    }

    /** Passes the turn: the head moves to the tail and the new head is returned. */
    method NextPlayer() returns (next: Player)
      requires Valid()
      requires queue.Contents != []
      modifies queue
      ensures Valid()
      ensures queue.Contents == Rotate(old(queue.Contents))
      ensures next == queue.Contents[0]
    {
      var player := queue.Dequeue();
      queue.Enqueue([player]);
      next := queue.Peek();
    }

    /**
     * True exactly when one entry is left in the queue; that player is then
     * marked lost, and nothing else about it changes.
     */
    method HasFinished() returns (finished: bool)
      requires Valid()
      modifies (if |queue.Contents| == 1 then {Current()} else {})`status
      ensures Valid()
      ensures finished <==> |queue.Contents| == 1
      ensures finished ==>
        var p := Current();
        && p.status == Lost
        && p.pos == old(p.pos) && p.prevPos == old(p.prevPos) && p.movesSum == old(p.movesSum)
        && p.color == old(p.color) && p.visibleName == old(p.visibleName) && p.Rolls == old(p.Rolls)
        && (old(p.Valid()) ==> p.Valid())
    {
      if queue.Length() == 1 {
        var player := queue.Peek();
        player.status := Lost;
        finished := true;
      } else {
        finished := false;
      }
    }

    /** Removes and returns the player at the head of the queue. */
    method LastPlayer() returns (last: Player)
      requires Valid()
      requires queue.Contents != []
      modifies queue
      ensures Valid()
      ensures last == old(Current())
      ensures queue.Contents == old(queue.Contents)[1..]
    {
      last := queue.Dequeue();
    }
  }
}
