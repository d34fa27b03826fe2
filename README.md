# Connect-4 game state, modelled in Dafny

This project models `Connect4Env`, the game-state class of the gym-connect4
environment. The class holds the following state:

- a board of `width` columns, each of `height` cells;
- each cell holds 0 (empty), 1 (player 1) or 2 (player 2);
- the board is indexed `board[col][row]`, with row 0 at the bottom;
- `playerJustMoved` is the player who placed the last chip. It starts at 2, so player 1 moves first;
- `winner` is 0 while nobody has won and 1 or 2 once a move has won;
- the connect length is `connect`, 4 by default.

The class has these operations:

- `step(movecol)` drops a chip for the player to move. It scans down from the top cell to find the landing row, flips `playerJustMoved`, writes the chip, checks whether the chip wins, and returns:
  - two copies of the board;
  - a reward pair;
  - the flag `winner == 0`.
- `get_moves()` lists the columns whose top cell is empty, or none once somebody has won.
- `does_move_win(x, y)` scans the four axes through the new chip. It counts the matching cells forwards (`p`) and backwards (`n`) from the chip, and reports a win when `p + n >= connect + 1`.
- `is_on_board(x, y)` is the bounds test.
- `get_result(player)` reports whether `player == winner`.
- `Clone()` copies the state for simulation.

The model has two modules.

- `Rules` (rules.dfy) holds the rules as pure functions on board values. A board value is `seq<seq<int>>`, column-major like the array. The module contains:
  - gravity (`Settled`);
  - the landing row (`LandingRow`) and the drop (`Drop`);
  - the open columns (`OpenColumns`);
  - the reward pair (`WinReward`);
  - the win scan: `OnBoard` is `is_on_board`, and `Run`, `Forward`, `Backward`, `WinsAlong` and `MoveWins` give the `p`/`n` counts and the test;
  - an independent reference meaning of a win (`HasLine`: a line of `connect` cells through the chip along one axis). The scan is proved equivalent to it.
- `Connect4` (env.dfy) holds the class `Connect4Env`:
  - the board is an `array2<int>`, mutated in place;
  - a ghost field `cells` is the board's value, and `Valid()` ties it to the array cell by cell;
  - `Step`, the landing-row loop (`DropChip`), the two counting loops (`CountAlong`) and the direction loop (`DoesMoveWin`) are methods with loops;
  - each is proved against the functions of `Rules`.

The code has no draw outcome, so a full board leaves `winner == 0`. It
produces no per-player observations: both observations are the raw board.
It does not refuse a move after a win as long as the column has room, and
`get_result` returns a boolean rather than a win/loss/draw value. The model
follows the code on all four points.

## Model

| member | source | states |
|---|---|---|
| Connect4.Connect4Env.constructor | gym_connect4/envs/connect4_env.py:16-23 | A new game has `width` columns of `height` empty cells, `playerJustMoved == 2` (player 1 moves first) and `winner == 0`. Every column `0 .. width-1` is then a legal move, in order. Gravity holds on the empty board. |
| Connect4.Connect4Env.InitializeBoard | gym_connect4/envs/connect4_env.py:35-41 | Builds a fresh `width` by `height` board with every cell 0. |
| Connect4.Connect4Env.Clone | gym_connect4/envs/connect4_env.py:43-54 | The copy is a new object on a new board, sharing no storage with the original. It has the same width, height, `playerJustMoved`, `winner` and board contents. Its connect length is the default 4, because the copy is built without passing `connect`. |
| Connect4.Connect4Env.CopyBoard | gym_connect4/envs/connect4_env.py:53 | The copied board is freshly allocated, has the same dimensions and holds the same value in every cell. |
| Connect4.SimulateOnClone | gym_connect4/envs/connect4_env.py:43-54 | A move played on a clone leaves the original game, object and board alike, unchanged. |
| Connect4.Connect4Env.Step | gym_connect4/envs/connect4_env.py:56-81 | Error cases change nothing at all. A column equal to `width` fails with the indexing error. Any other column out of range, or a column with a full top cell, fails with `InvalidMove`, carrying the column and the legal moves before the call. A move is accepted exactly when the column is in range with an empty top cell. An accepted move flips `playerJustMoved`. The new board is the old one with the mover's chip dropped into `movecol`. `winner` becomes the mover exactly when the scan says the chip wins, and is otherwise unchanged. The result holds two copies of the new board, the zero-sum win reward or `[0, 0]`, and the flag `winner == 0`. Gravity is preserved. |
| Connect4.Connect4Env.DropChip | gym_connect4/envs/connect4_env.py:64-71 | The downward scan stops at the landing row of the column. The player flips and the board becomes the old one with the new player's chip at that row. Nothing else changes, and gravity is preserved. |
| Connect4.Connect4Env.Snapshot | gym_connect4/envs/connect4_env.py:80 | The observation is a copy of the board's current contents. |
| Connect4.PlayLegal | gym_connect4/envs/connect4_env.py:56-89 | A move taken from `get_moves` is always accepted. The game was undecided before it. Afterwards the game is either still undecided or won by the player who just moved. The returned flag is true exactly when nobody has won, and once somebody has won no move is legal any more. |
| Connect4.Connect4Env.OpenColumnsFrom | gym_connect4/envs/connect4_env.py:89 | Filtering the array's columns `from .. width-1` by an empty top cell gives exactly the open columns of the board's value. |
| Connect4.Connect4Env.GetMoves | gym_connect4/envs/connect4_env.py:83-89 | Once somebody has won there are no moves. Otherwise a column is listed if and only if it is in range with an empty top cell. The list is strictly ascending. |
| Connect4.Connect4Env.GetResult | gym_connect4/envs/connect4_env.py:116-121 | True exactly when `player` is the winner. In particular, player 0 gets true exactly while nobody has won. |
| Connect4.Connect4Env.CountAlong | gym_connect4/envs/connect4_env.py:101-106 | The counting loop stops with one more than the number of consecutive cells holding `me` from the neighbour of (x, y) onwards along (dx, dy). It reads only cells on the board, and it terminates. |
| Connect4.Connect4Env.DoesMoveWin | gym_connect4/envs/connect4_env.py:91-111 | The loop over the four directions, in their order, returns true exactly when some direction has `p + n >= connect + 1` on the current board. |
| Rules.EmptyBoard | gym_connect4/envs/connect4_env.py:39-41 | The initial board has the given shape, and every cell is 0. |
| Rules.HighestChip | gym_connect4/envs/connect4_env.py:64-66 | Scanning down from row `r`, the scan stops at the highest nonzero cell at or below `r`, or at -1 if there is none. Every cell passed over is 0. |
| Rules.LandingRow | gym_connect4/envs/connect4_env.py:64-68 | In a column whose top cell is empty, the landing row is empty and every cell from it upwards is empty. The cell just below it is occupied. When the column obeys gravity, every cell below it is occupied, so it is the lowest empty row. |
| Rules.Drop | gym_connect4/envs/connect4_env.py:70-71 | Dropping writes the chip at the landing row of the column. The board keeps its shape, and every other cell is unchanged. |
| Rules.DropKeepsInvariants | gym_connect4/envs/connect4_env.py:64-71 | Dropping a chip of player 1 or 2 preserves gravity: no chip sits above an empty cell. Every cell still holds 0, 1 or 2. |
| Rules.OpenColumns | gym_connect4/envs/connect4_env.py:89 | A column is listed if and only if it lies in `from .. width-1` and its top cell is 0. The list is strictly ascending. |
| Rules.OpenColumnsWhenNoneFull | gym_connect4/envs/connect4_env.py:83-89 | On a board with no full column, such as a fresh one, the open columns are exactly `from, from+1, ..., width-1`. |
| Rules.WinReward | gym_connect4/envs/connect4_env.py:74-77 | The win reward is zero-sum. It gives +1 at the mover's index and -1 at the other player's. |
| Rules.OnBoard | gym_connect4/envs/connect4_env.py:113-114 | The bounds test: (x, y) is a cell of the `width` by `height` board. Every board read in the win scan is guarded by it. |
| Rules.Run | gym_connect4/envs/connect4_env.py:101-106 | The number of consecutive cells holding `me`, starting at (cx, cy) and stepping by (dx, dy), up to the first cell that is off the board or holds something else. `Rules.RunCells` states this. |
| Rules.Forward | gym_connect4/envs/connect4_env.py:101-103 | `p`: one more than the matching cells ahead of (x, y), so it is at least 1. |
| Rules.Backward | gym_connect4/envs/connect4_env.py:104-106 | `n`: one more than the matching cells behind (x, y), so it is at least 1. |
| Rules.WinsAlong | gym_connect4/envs/connect4_env.py:108 | The test for one direction, `p + n >= connect + 1`. With a connect length of 1 or less it holds along every direction. |
| Rules.MoveWins | gym_connect4/envs/connect4_env.py:99-111 | Some of the four directions, (0,1), (1,1), (1,0) and (1,-1), passes the test. `Rules.MoveWinsIff` gives its meaning. |
| Rules.AlongIsProduct | gym_connect4/envs/connect4_env.py:102-105 | The stepped coordinate is `x + k*d` forwards and `x - k*d` backwards, the offsets the two scans index. |
| Rules.RunCells | gym_connect4/envs/connect4_env.py:101-106 | Every offset below the counted run holds `me` on the board. The first offset past it does not. |
| Rules.MatchesAhead | gym_connect4/envs/connect4_env.py:101-103 | At forward offsets `1 .. p`, a cell matches the chip exactly when the offset is below `p`. |
| Rules.MatchesBehind | gym_connect4/envs/connect4_env.py:104-106 | At backward offsets `1 .. n`, a cell matches the chip exactly when the offset is below `n`. |
| Rules.MatchesAroundMove | gym_connect4/envs/connect4_env.py:99-106 | Between the two cells where the scans stop, the matching offsets are exactly the `p + n - 1` cells from `-(n-1)` to `p-1`. |
| Rules.WinsAlongIff | gym_connect4/envs/connect4_env.py:99-109 | For `connect >= 1`, a direction passes `p + n >= connect + 1` if and only if `connect` consecutive cells along it all hold the chip and include (x, y). |
| Rules.MoveWinsIff | gym_connect4/envs/connect4_env.py:91-111 | For `connect >= 1`, the move wins if and only if a line of `connect` equal chips runs through (x, y) along one of the four axes. |

## Left out

- `observation_space`, `action_space` and the `gym.Env` base class are metadata of a foreign library, with no logic.
- `state_space_size` is a constant initialised in the constructor. It does not affect behaviour.
- `render` is display only, and depends on colorama escape codes.
- The `info` dictionary that `step` returns is always empty, so it is not part of `StepResult`.
- The observations are copies made with `deepcopy`. They are modelled as the board's value, read out cell by cell (`Snapshot`), not as library deep-copy semantics.
- Connect4.Connect4Env.constructor: requires `height >= 1`. On a board with no rows, `get_moves` and `step` index the top cell of a column and fail. The model does not describe those failures.
- Connect4.Connect4Env.Clone: `Clone` constructs a class named `Connect4State`, which is not defined in connect4_env.py. The model follows the evident intent and constructs a `Connect4Env` of the same width and height. Like the code, it passes no `connect`, so the copy plays with the default 4.
- Connect4.Connect4Env.Step: the bounds test lets `movecol == width` through. The failure then comes from Python list indexing, not from the game's own error. The model keeps the two failures apart (`IndexOutOfRange` and `InvalidMove`) and does not model the messages.
- Rules.MoveWinsIff: the equivalence is stated for `connect >= 1` only. With `connect <= 0` the scan reports every move as a win, while no line of non-positive length exists.
- Draw detection and per-player egocentric observations do not exist in the code, so they are not modelled.
- Python integers are unbounded, and so are Dafny's `int`. No width arithmetic is involved.
