/** The Connect-4 game state: a board mutated in place by `Step`, the player who
    moved last and the winner. */
module Connect4 {
  import opened Rules

  datatype Result<T, E> = Ok(value: T) | Err(error: E)

  /** Why a move was refused. `InvalidMove` is the error the environment raises
      itself, carrying the column and the legal moves at that moment;
      `IndexOutOfRange` is the indexing error of a column equal to the width,
      which passes the bounds test and then fails the lookup of its top cell. */
  datatype StepError =
    | InvalidMove(column: int, validMoves: seq<int>)
    | IndexOutOfRange(column: int)

  /** What a successful move returns: one observation per player (each a copy of
      the raw board), the reward pair indexed by player - 1, and the flag
      `winner == 0`, which is true while the game is NOT decided. */
  datatype StepResult = StepResult(observations: seq<Board>, reward: seq<int>, noWinner: bool)

  class Connect4Env {
    const width: nat
    const height: nat
    const connect: int
    /** `board[col, row]`, row 0 at the bottom. */
    var board: array2<int>
    var playerJustMoved: int
    /** 0 while nobody has won, otherwise the winning player. */
    var winner: int
    /** The board's contents as a value. */
    ghost var cells: Board

    ghost predicate Valid()
      reads this, board
    {
      && height >= 1
      && board.Length0 == width && board.Length1 == height
      && (playerJustMoved == 1 || playerJustMoved == 2)
      && (winner == 0 || winner == 1 || winner == 2)
      && WellFormed(cells, width, height) && Chips(cells)
      && forall c, r :: 0 <= c < width && 0 <= r < height ==> cells[c][r] == board[c, r]
    }

    /** A chip can be dropped into `col`: it is a column of the board and its top cell is empty. */
    ghost predicate CanDrop(col: int)
      reads this
      requires WellFormed(cells, width, height) && height >= 1
    {
      0 <= col < width && cells[col][height - 1] == 0
    }

    /** A new game; player 1 moves first. */
    constructor (width: nat := 7, height: nat := 6, connect: int := 4)
      requires height >= 1
      ensures Valid() && fresh(board)
      ensures this.width == width && this.height == height && this.connect == connect
      ensures playerJustMoved == 2 && winner == 0
      ensures cells == EmptyBoard(width, height) && Settled(cells)
      ensures GetMoves() == seq(width, i => i)
    {
      var grid := Connect4Env.InitializeBoard(width, height);
      this.width, this.height, this.connect := width, height, connect;
      playerJustMoved := 2;
      winner := 0;
      board := grid;
      cells := EmptyBoard(width, height);
      new;
      OpenColumnsWhenNoneFull(cells, height, 0);
      assert GetMoves() == seq(width, i => i);
    }

    /** A fresh board of `width` columns, each of `height` empty cells. */
    static method InitializeBoard(width: nat, height: nat) returns (grid: array2<int>)
      ensures fresh(grid) && grid.Length0 == width && grid.Length1 == height
      ensures forall c, r :: 0 <= c < width && 0 <= r < height ==> grid[c, r] == 0
    {
      grid := new int[width, height];
      for col := 0 to width
        invariant forall c, r :: 0 <= c < col && 0 <= r < height ==> grid[c, r] == 0
      {
        for row := 0 to height
          invariant forall c, r :: 0 <= c < col && 0 <= r < height ==> grid[c, r] == 0
          invariant forall r :: 0 <= r < row ==> grid[col, r] == 0
        {
          grid[col, row] := 0;
        }
      }
    }

    /** A copy for simulation, sharing no storage with this state. It is built
        by the constructor with this width and height and no connect length, so
        it plays with the default 4. */
    method Clone() returns (st: Connect4Env)
      requires Valid()
      ensures fresh(st) && fresh(st.board) && st.Valid()
      ensures st.width == width && st.height == height && st.connect == 4
      ensures st.playerJustMoved == playerJustMoved && st.winner == winner
      ensures st.cells == cells
    {
      st := new Connect4Env(width, height);
      st.playerJustMoved := playerJustMoved;
      st.winner := winner;
      st.board := CopyBoard(board);
      st.cells := cells;
    }

    /** A column-by-column copy of `src` into fresh storage. */
    static method CopyBoard(src: array2<int>) returns (copy: array2<int>)
      ensures fresh(copy) && copy.Length0 == src.Length0 && copy.Length1 == src.Length1
      ensures forall c, r :: 0 <= c < src.Length0 && 0 <= r < src.Length1 ==> copy[c, r] == src[c, r]
    {
      copy := new int[src.Length0, src.Length1];
      for col := 0 to src.Length0
        invariant forall c, r :: 0 <= c < col && 0 <= r < src.Length1 ==> copy[c, r] == src[c, r]
      {
        for row := 0 to src.Length1
          invariant forall c, r :: 0 <= c < col && 0 <= r < src.Length1 ==> copy[c, r] == src[c, r]
          invariant forall r :: 0 <= r < row ==> copy[col, r] == src[col, r]
        {
          copy[col, row] := src[col, row];
        }
      }
    }

    /** A deep copy of the board, as a value. */
    method Snapshot() returns (obs: Board)
      requires Valid()
      ensures obs == cells
    {
      obs := [];
      for col := 0 to width
        invariant |obs| == col
        invariant forall c :: 0 <= c < col ==> obs[c] == cells[c]
      {
        var column := [];
        for row := 0 to height
          invariant column == cells[col][..row]
        {
          column := column + [board[col, row]];
        }
        obs := obs + [column];
      }
    }

    /** The columns from `from` on whose top cell on the board is empty. */
    function OpenColumnsFrom(from: nat): (cols: seq<int>)
      reads this, board
      requires Valid() && from <= width
      ensures cols == OpenColumns(cells, height, from)
      decreases width - from
    {
      if from == width then []
      else (if board[from, height - 1] == 0 then [from] else []) + OpenColumnsFrom(from + 1)
    }

    /** The legal moves: in ascending order, every column whose top cell is
        empty, or none at all once somebody has won. */
    function GetMoves(): (moves: seq<int>)
      reads this, board
      requires Valid()
      ensures winner != 0 ==> moves == []
      ensures winner == 0 ==> forall c :: c in moves <==> CanDrop(c)
      ensures forall i, j :: 0 <= i < j < |moves| ==> moves[i] < moves[j]
    {
      if winner != 0 then [] else OpenColumnsFrom(0)
    }

    /** Whether `player` is the winner. Player 0 "wins" exactly while nobody has. */
    function GetResult(player: int): (won: bool)
      reads this
      ensures won <==> player == winner
      ensures player == 0 ==> (won <==> winner == 0)
    {
      player == winner
    }

    /** One scan of `does_move_win`: starting one step from (x, y), counts the
        cells holding `me` along (dx, dy), plus one. `Along(x, dx, k)` is the
        offset `x + k * dx` (lemma `AlongIsProduct`); called with the negated
        direction it is the backward scan over `x - k * dx`. */
    method CountAlong(x: int, y: int, dx: int, dy: int, me: int) returns (k: int)
      requires Valid() && OnBoard(width, height, x, y) && IsDirection(dx, dy)
      ensures k == 1 + Run(cells, width, height, x + dx, y + dy, dx, dy, me)
    {
      k := 1;
      while OnBoard(width, height, Along(x, dx, k), Along(y, dy, k)) && board[Along(x, dx, k), Along(y, dy, k)] == me
        invariant k >= 1
        invariant 1 + Run(cells, width, height, x + dx, y + dy, dx, dy, me)
               == k + Run(cells, width, height, Along(x, dx, k), Along(y, dy, k), dx, dy, me)
        decreases Run(cells, width, height, Along(x, dx, k), Along(y, dy, k), dx, dy, me)
      {
        k := k + 1;
      }
    }

    /** Whether the chip at (x, y) wins: along some axis the cells holding it,
        counted forwards (`p`) and backwards (`n`) from (x, y), reach `connect`. */
    method DoesMoveWin(x: int, y: int) returns (wins: bool)
      requires Valid() && OnBoard(width, height, x, y)
      ensures wins == MoveWins(cells, width, height, connect, x, y)
    {
      var me := board[x, y];
      for i := 0 to |Directions|
        invariant forall j :: 0 <= j < i ==>
                    !WinsAlong(cells, width, height, connect, x, y, Directions[j].0, Directions[j].1)
      {
        var (dx, dy) := Directions[i];
        var p := CountAlong(x, y, dx, dy, me);
        var n := CountAlong(x, y, -dx, -dy, me);
        assert p + n == Forward(cells, width, height, x, y, dx, dy) + Backward(cells, width, height, x, y, dx, dy);
        if p + n >= connect + 1 {
          return true;
        }
      }
      return false;
    }

    /** The placing half of a move: finds the landing row of `movecol` by
        scanning down from the top, switches the player and writes the chip. */
    method DropChip(movecol: int) returns (row: int)
      requires Valid() && CanDrop(movecol)
      modifies this`playerJustMoved, this`cells, board
      ensures Valid() && board == old(board) && winner == old(winner)
      ensures row == LandingRow(old(cells)[movecol])
      ensures playerJustMoved == 3 - old(playerJustMoved)
      ensures cells == Drop(old(cells), height, movecol, playerJustMoved)
      ensures old(Settled(cells)) ==> Settled(cells)
    {
      row := height - 1;
      while row >= 0 && board[movecol, row] == 0
        invariant -1 <= row < height
        invariant HighestChip(cells[movecol], row) == HighestChip(cells[movecol], height - 1)
        decreases row + 1
      {
        row := row - 1;
      }
      row := row + 1;

      playerJustMoved := 3 - playerJustMoved;
      board[movecol, row] := playerJustMoved;
      DropKeepsInvariants(cells, height, movecol, playerJustMoved);
      cells := Drop(cells, height, movecol, playerJustMoved);
      forall c, r | 0 <= c < width && 0 <= r < height ensures cells[c][r] == board[c, r] {
        if c != movecol || r != row {
          assert cells[c][r] == old(cells)[c][r];
        }
      }
    }

    /** Drops a chip for the player to move into column `movecol`. */
    method Step(movecol: int) returns (result: Result<StepResult, StepError>)
      requires Valid()
      modifies this`playerJustMoved, this`winner, this`cells, board
      ensures Valid() && board == old(board)
      // Refused moves change nothing.
      ensures movecol == width ==> result == Err(IndexOutOfRange(movecol))
      ensures movecol != width && !old(CanDrop(movecol)) ==> result == Err(InvalidMove(movecol, old(GetMoves())))
      ensures result.Err? ==> unchanged(this) && unchanged(board)
      // An accepted move drops one chip for the other player and may decide the game.
      ensures result.Ok? <==> old(CanDrop(movecol))
      ensures result.Ok? ==>
                var row := LandingRow(old(cells)[movecol]);
                var wins := MoveWins(cells, width, height, connect, movecol, row);
                && playerJustMoved == 3 - old(playerJustMoved)
                && cells == Drop(old(cells), height, movecol, playerJustMoved)
                && winner == (if wins then playerJustMoved else old(winner))
                && result.value == StepResult([cells, cells], if wins then WinReward(playerJustMoved) else [0, 0], winner == 0)
      ensures old(Settled(cells)) ==> Settled(cells)
    {
      if !(movecol >= 0 && movecol <= width) {
        return Err(InvalidMove(movecol, GetMoves()));
      }
      if movecol == width {
        return Err(IndexOutOfRange(movecol));
      }
      if board[movecol, height - 1] != 0 {
        return Err(InvalidMove(movecol, GetMoves()));
      }
      var row := DropChip(movecol);
      var reward := [0, 0];

      var wins := DoesMoveWin(movecol, row);
      if wins {
        winner := playerJustMoved;
        if winner == 1 {
          reward := [1, -1];
        } else {
          reward := [-1, 1];
        }
      }
      var first := Snapshot();
      var second := Snapshot();
      return Ok(StepResult([first, second], reward, winner == 0));
    }
  }

  /** A simulation on a clone leaves the original game untouched. */
  method SimulateOnClone(game: Connect4Env, col: int) returns (sim: Connect4Env, result: Result<StepResult, StepError>)
    requires game.Valid()
    ensures fresh(sim) && sim.Valid()
    ensures unchanged(game) && unchanged(game.board)
  {
    sim := game.Clone();
    result := sim.Step(col);
  }

  /** Under legal play (a move taken from `GetMoves`) the move is accepted, the
      game was undecided before it, and afterwards it is either still undecided
      or won by the player who just moved, in which case no move is legal. */
  method PlayLegal(game: Connect4Env, col: int) returns (result: Result<StepResult, StepError>)
    requires game.Valid() && col in game.GetMoves()
    modifies game`playerJustMoved, game`winner, game`cells, game.board
    ensures game.Valid() && result.Ok?
    ensures old(game.winner) == 0
    ensures game.winner == 0 || game.winner == game.playerJustMoved
    ensures game.playerJustMoved != old(game.playerJustMoved)
    ensures result.value.noWinner <==> game.winner == 0
    ensures !result.value.noWinner ==> game.GetMoves() == []
  {
    result := game.Step(col);
  }
}
