/** Pure rules of the Connect-4 game, stated on board values.

    A board is stored column-major, exactly as the environment stores it:
    `b[col][row]`, with row 0 at the bottom and each cell 0 (empty),
    1 (player 1) or 2 (player 2). */
module Rules {

  type Board = seq<seq<int>>

  /** `width` columns of `height` cells each. */
  predicate WellFormed(b: Board, width: nat, height: nat) {
    |b| == width && forall c :: 0 <= c < |b| ==> |b[c]| == height
  }

  /** Every cell is empty or holds a chip of player 1 or 2. */
  predicate Chips(b: Board) {
    forall c, r :: 0 <= c < |b| && 0 <= r < |b[c]| ==> 0 <= b[c][r] <= 2
  }

  /** The board a new game starts from: `width` columns of `height` zeros. */
  function EmptyBoard(width: nat, height: nat): (b: Board)
    ensures WellFormed(b, width, height) && Chips(b)
    ensures forall c, r :: 0 <= c < width && 0 <= r < height ==> b[c][r] == 0
  {
    seq(width, _ => seq(height, _ => 0))
  }

  // ---------------------------------------------------------------------------
  // Gravity and the landing row

  /** Gravity within one column: no chip rests above an empty cell. */
  predicate SettledColumn(col: seq<int>) {
    forall i, j :: 0 <= i < j < |col| && col[i] == 0 ==> col[j] == 0
  }

  /** Gravity in every column. */
  predicate Settled(b: Board) {
    forall c :: 0 <= c < |b| ==> SettledColumn(b[c])
  }

  /** Where the downward scan of a move stops: the highest row at or below `r`
      that holds a chip, or -1 when every cell up to `r` is empty. */
  function HighestChip(col: seq<int>, r: int): (k: int)
    requires -1 <= r < |col|
    ensures -1 <= k <= r
    ensures k >= 0 ==> col[k] != 0
    ensures forall j :: k < j <= r ==> col[j] == 0
    decreases r + 1
  {
    if r >= 0 && col[r] == 0 then HighestChip(col, r - 1) else r
  }

  /** The row a chip dropped into `col` lands in: one above the highest chip.
      It is an empty cell with only empty cells above it; when the column obeys
      gravity it is also the lowest empty cell. */
  function LandingRow(col: seq<int>): (row: nat)
    requires |col| > 0 && col[|col| - 1] == 0
    ensures row < |col| && col[row] == 0
    ensures forall j :: row <= j < |col| ==> col[j] == 0
    ensures row > 0 ==> col[row - 1] != 0
    ensures SettledColumn(col) ==> forall j :: 0 <= j < row ==> col[j] != 0
  {
    HighestChip(col, |col| - 1) + 1
  }

  /** The board after chip `v` is dropped into column `c`. */
  function Drop(b: Board, height: nat, c: int, v: int): (d: Board)
    requires WellFormed(b, |b|, height) && height > 0
    requires 0 <= c < |b| && b[c][height - 1] == 0
    ensures WellFormed(d, |b|, height)
    ensures d[c][LandingRow(b[c])] == v
    ensures forall c', r :: 0 <= c' < |b| && 0 <= r < height && (c' != c || r != LandingRow(b[c])) ==>
              d[c'][r] == b[c'][r]
  {
    b[c := b[c][LandingRow(b[c]) := v]]
  }

  /** Dropping a chip keeps gravity and the cell contents. */
  lemma DropKeepsInvariants(b: Board, height: nat, c: int, v: int)
    requires WellFormed(b, |b|, height) && height > 0
    requires 0 <= c < |b| && b[c][height - 1] == 0
    requires 1 <= v <= 2
    ensures Settled(b) ==> Settled(Drop(b, height, c, v))
    ensures Chips(b) ==> Chips(Drop(b, height, c, v))
  {
  }

  // ---------------------------------------------------------------------------
  // Legal moves

  /** The columns from `from` onwards whose top cell is empty, in ascending order. */
  function OpenColumns(b: Board, height: nat, from: nat): (cols: seq<int>)
    requires WellFormed(b, |b|, height) && height > 0 && from <= |b|
    ensures forall c :: c in cols <==> from <= c < |b| && b[c][height - 1] == 0
    ensures forall i, j :: 0 <= i < j < |cols| ==> cols[i] < cols[j]
    decreases |b| - from
  {
    if from == |b| then []
    else
      var rest := OpenColumns(b, height, from + 1);
      assert forall k :: 0 <= k < |rest| ==> rest[k] in rest;
      (if b[from][height - 1] == 0 then [from] else []) + rest
  }

  /** A strictly ascending sequence holding exactly the integers of [lo, hi)
      is the run lo, lo + 1, ..., hi - 1. */
  lemma {:induction false} AscendingRange(s: seq<int>, lo: int, hi: int)
    requires lo <= hi
    requires forall i, j :: 0 <= i < j < |s| ==> s[i] < s[j]
    requires forall c :: c in s <==> lo <= c < hi
    ensures |s| == hi - lo
    ensures forall i :: 0 <= i < |s| ==> s[i] == lo + i
    decreases hi - lo
  {
    if |s| == 0 {
      assert lo !in s;
    } else {
      assert s[0] in s;
      assert lo in s;
      var k :| 0 <= k < |s| && s[k] == lo;
      assert k == 0;
      var tail := s[1..];
      forall c
        ensures c in tail <==> lo + 1 <= c < hi
      {
        if c in tail {
          var j :| 0 <= j < |tail| && tail[j] == c;
          assert s[j + 1] == c && s[0] < s[j + 1];
          assert c in s;
        }
        if lo + 1 <= c < hi {
          assert c in s;
          var j :| 0 <= j < |s| && s[j] == c;
          assert j != 0;
          assert tail[j - 1] == c;
        }
      }
      AscendingRange(tail, lo + 1, hi);
    }
  }

  /** When no column is full (as on an empty board), every column from `from`
      onwards is open, in order. */
  lemma OpenColumnsWhenNoneFull(b: Board, height: nat, from: nat)
    requires WellFormed(b, |b|, height) && height > 0 && from <= |b|
    requires forall c :: 0 <= c < |b| ==> b[c][height - 1] == 0
    ensures |OpenColumns(b, height, from)| == |b| - from
    ensures forall i :: 0 <= i < |b| - from ==> OpenColumns(b, height, from)[i] == from + i
  {
    AscendingRange(OpenColumns(b, height, from), from, |b|);
  }

  // ---------------------------------------------------------------------------
  // Rewards

  /** The reward pair of a winning move by `mover`, indexed by player - 1. */
  function WinReward(mover: int): (reward: seq<int>)
    requires mover == 1 || mover == 2
    ensures |reward| == 2 && reward[0] + reward[1] == 0
    ensures reward[mover - 1] == 1 && reward[2 - mover] == -1
  {
    if mover == 1 then [1, -1] else [-1, 1]
  }

  // ---------------------------------------------------------------------------
  // Win detection

  predicate OnBoard(width: int, height: int, x: int, y: int) {
    0 <= x < width && 0 <= y < height
  }

  /** One step along an axis: each coordinate moves by -1, 0 or +1, not both by 0. */
  predicate IsDirection(dx: int, dy: int) {
    -1 <= dx <= 1 && -1 <= dy <= 1 && (dx != 0 || dy != 0)
  }

  /** The directions scanned, in the order `does_move_win` scans them. */
  const Directions: seq<(int, int)> := [(0, 1), (1, 1), (1, 0), (1, -1)]

  /** The coordinate `k` steps of size `d` away from `x`, for `d` in -1..1. */
  function Along(x: int, d: int, k: int): (z: int)
    requires -1 <= d <= 1
  {
    if d == 0 then x else if d > 0 then x + k else x - k
  }

  /** `Along(x, d, k)` is the offset `x + k * d`, and stepping backwards is `x - k * d`.
      The proofs work with `Along` directly; this lemma only records that it
      denotes the offsets `does_move_win` indexes. */
  lemma AlongIsProduct(x: int, d: int, k: int)
    requires -1 <= d <= 1
    ensures Along(x, d, k) == x + k * d
    ensures Along(x, -d, k) == x - k * d
  {
  }

  /** The cell `k` steps from (x, y) along (dx, dy) is on the board and holds `me`. */
  predicate MatchAt(b: Board, width: nat, height: nat, x: int, y: int, dx: int, dy: int, me: int, k: int)
    requires WellFormed(b, width, height) && IsDirection(dx, dy)
  {
    OnBoard(width, height, Along(x, dx, k), Along(y, dy, k)) && b[Along(x, dx, k)][Along(y, dy, k)] == me
  }

  /** How many consecutive cells hold `me`, starting at (cx, cy) and stepping by (dx, dy). */
  function Run(b: Board, width: nat, height: nat, cx: int, cy: int, dx: int, dy: int, me: int): (n: nat)
    requires WellFormed(b, width, height) && IsDirection(dx, dy)
    decreases if dx > 0 then width - cx else if dx < 0 then cx + 1 else if dy > 0 then height - cy else cy + 1
  {
    if OnBoard(width, height, cx, cy) && b[cx][cy] == me then 1 + Run(b, width, height, cx + dx, cy + dy, dx, dy, me)
    else 0
  }

  /** A run covers exactly the matching cells before the first one that is off the
      board or holds something else. */
  lemma {:induction false} RunCells(b: Board, width: nat, height: nat, cx: int, cy: int, dx: int, dy: int, me: int)
    requires WellFormed(b, width, height) && IsDirection(dx, dy)
    ensures forall k :: 0 <= k < Run(b, width, height, cx, cy, dx, dy, me) ==>
              MatchAt(b, width, height, cx, cy, dx, dy, me, k)
    ensures !MatchAt(b, width, height, cx, cy, dx, dy, me, Run(b, width, height, cx, cy, dx, dy, me))
    decreases if dx > 0 then width - cx else if dx < 0 then cx + 1 else if dy > 0 then height - cy else cy + 1
  {
    var n := Run(b, width, height, cx, cy, dx, dy, me);
    if OnBoard(width, height, cx, cy) && b[cx][cy] == me {
      RunCells(b, width, height, cx + dx, cy + dy, dx, dy, me);
      forall k | 0 <= k <= n
        ensures MatchAt(b, width, height, cx, cy, dx, dy, me, k)
                <==> (k == 0 || MatchAt(b, width, height, cx + dx, cy + dy, dx, dy, me, k - 1))
      {
        if k > 0 {
          assert Along(cx, dx, k) == Along(cx + dx, dx, k - 1);
          assert Along(cy, dy, k) == Along(cy + dy, dy, k - 1);
        }
      }
    } else {
      assert Along(cx, dx, 0) == cx && Along(cy, dy, 0) == cy;
    }
  }

  /** `p` of `does_move_win`: one more than the matching cells ahead of (x, y). */
  function Forward(b: Board, width: nat, height: nat, x: int, y: int, dx: int, dy: int): (p: nat)
    requires WellFormed(b, width, height) && IsDirection(dx, dy) && OnBoard(width, height, x, y)
    ensures p >= 1
  {
    1 + Run(b, width, height, x + dx, y + dy, dx, dy, b[x][y])
  }

  /** `n` of `does_move_win`: one more than the matching cells behind (x, y). */
  function Backward(b: Board, width: nat, height: nat, x: int, y: int, dx: int, dy: int): (n: nat)
    requires WellFormed(b, width, height) && IsDirection(dx, dy) && OnBoard(width, height, x, y)
    ensures n >= 1
  {
    1 + Run(b, width, height, x - dx, y - dy, -dx, -dy, b[x][y])
  }

  /** The test of `does_move_win` for one direction: `p + n >= connect + 1`.
      Since both counts include the chip itself, a connect length of 1 or less
      is met along every direction. */
  predicate WinsAlong(b: Board, width: nat, height: nat, connect: int, x: int, y: int, dx: int, dy: int): (wins: bool)
    requires WellFormed(b, width, height) && IsDirection(dx, dy) && OnBoard(width, height, x, y)
    ensures connect <= 1 ==> wins
  {
    Forward(b, width, height, x, y, dx, dy) + Backward(b, width, height, x, y, dx, dy) >= connect + 1
  }

  /** `does_move_win`: some scanned direction passes the test. */
  predicate MoveWins(b: Board, width: nat, height: nat, connect: int, x: int, y: int)
    requires WellFormed(b, width, height) && OnBoard(width, height, x, y)
  {
    exists i :: 0 <= i < |Directions| && WinsAlong(b, width, height, connect, x, y, Directions[i].0, Directions[i].1)
  }

  /** The cells at offsets lo .. lo + len - 1 from (x, y) along (dx, dy) all hold `me`. */
  ghost predicate Segment(b: Board, width: nat, height: nat, x: int, y: int, dx: int, dy: int, me: int, lo: int, len: int)
    requires WellFormed(b, width, height) && IsDirection(dx, dy)
  {
    forall k :: lo <= k < lo + len ==> MatchAt(b, width, height, x, y, dx, dy, me, k)
  }

  /** Reference meaning of a win along one axis: `connect` consecutive cells on the
      board, all holding the chip at (x, y), with (x, y) among them. */
  ghost predicate LineAlong(b: Board, width: nat, height: nat, connect: int, x: int, y: int, dx: int, dy: int)
    requires WellFormed(b, width, height) && IsDirection(dx, dy) && OnBoard(width, height, x, y)
  {
    exists lo :: -connect < lo <= 0 && Segment(b, width, height, x, y, dx, dy, b[x][y], lo, connect)
  }

  /** Reference meaning of a winning move: a line through (x, y) along one of the axes. */
  ghost predicate HasLine(b: Board, width: nat, height: nat, connect: int, x: int, y: int)
    requires WellFormed(b, width, height) && OnBoard(width, height, x, y)
  {
    exists i :: 0 <= i < |Directions| && LineAlong(b, width, height, connect, x, y, Directions[i].0, Directions[i].1)
  }

  /** Ahead of (x, y): offset `k` matches exactly within the forward run. */
  lemma MatchesAhead(b: Board, width: nat, height: nat, x: int, y: int, dx: int, dy: int, k: int)
    requires WellFormed(b, width, height) && IsDirection(dx, dy) && OnBoard(width, height, x, y)
    requires 0 < k <= Forward(b, width, height, x, y, dx, dy)
    ensures MatchAt(b, width, height, x, y, dx, dy, b[x][y], k) <==> k < Forward(b, width, height, x, y, dx, dy)
  {
    RunCells(b, width, height, x + dx, y + dy, dx, dy, b[x][y]);
    assert Along(x, dx, k) == Along(x + dx, dx, k - 1);
    assert Along(y, dy, k) == Along(y + dy, dy, k - 1);
    assert MatchAt(b, width, height, x, y, dx, dy, b[x][y], k)
        == MatchAt(b, width, height, x + dx, y + dy, dx, dy, b[x][y], k - 1);
  }

  /** Behind (x, y): offset `-k` matches exactly within the backward run. */
  lemma MatchesBehind(b: Board, width: nat, height: nat, x: int, y: int, dx: int, dy: int, k: int)
    requires WellFormed(b, width, height) && IsDirection(dx, dy) && OnBoard(width, height, x, y)
    requires 0 < k <= Backward(b, width, height, x, y, dx, dy)
    ensures MatchAt(b, width, height, x, y, dx, dy, b[x][y], -k) <==> k < Backward(b, width, height, x, y, dx, dy)
  {
    RunCells(b, width, height, x - dx, y - dy, -dx, -dy, b[x][y]);
    assert Along(x, dx, -k) == Along(x - dx, -dx, k - 1);
    assert Along(y, dy, -k) == Along(y - dy, -dy, k - 1);
    assert MatchAt(b, width, height, x, y, dx, dy, b[x][y], -k)
        == MatchAt(b, width, height, x - dx, y - dy, -dx, -dy, b[x][y], k - 1);
  }

  /** Around the placed chip, the matching cells along (dx, dy) are exactly the
      offsets from minus the backward run to the forward run. */
  lemma MatchesAroundMove(b: Board, width: nat, height: nat, x: int, y: int, dx: int, dy: int, k: int)
    requires WellFormed(b, width, height) && IsDirection(dx, dy) && OnBoard(width, height, x, y)
    requires 0 <= k + Backward(b, width, height, x, y, dx, dy) && k <= Forward(b, width, height, x, y, dx, dy)
    ensures MatchAt(b, width, height, x, y, dx, dy, b[x][y], k)
            <==> 1 - Backward(b, width, height, x, y, dx, dy) <= k <= Forward(b, width, height, x, y, dx, dy) - 1
  {
    if k > 0 {
      MatchesAhead(b, width, height, x, y, dx, dy, k);
    } else if k < 0 {
      MatchesBehind(b, width, height, x, y, dx, dy, -k);
    } else {
      assert Along(x, dx, 0) == x && Along(y, dy, 0) == y;
    }
  }

  /** The forward and backward counts meet the test of `does_move_win` exactly when a line
      of `connect` cells runs through (x, y) along (dx, dy). */
  lemma WinsAlongIff(b: Board, width: nat, height: nat, connect: int, x: int, y: int, dx: int, dy: int)
    requires WellFormed(b, width, height) && IsDirection(dx, dy) && OnBoard(width, height, x, y)
    requires connect >= 1
    ensures WinsAlong(b, width, height, connect, x, y, dx, dy) <==> LineAlong(b, width, height, connect, x, y, dx, dy)
  {
    var me := b[x][y];
    var p := Forward(b, width, height, x, y, dx, dy);
    var n := Backward(b, width, height, x, y, dx, dy);
    if p + n >= connect + 1 {
      var lo := if n - 1 < connect - 1 then 1 - n else 1 - connect;
      forall k | lo <= k < lo + connect ensures MatchAt(b, width, height, x, y, dx, dy, me, k) {
        MatchesAroundMove(b, width, height, x, y, dx, dy, k);
      }
      assert Segment(b, width, height, x, y, dx, dy, me, lo, connect);
    }
    if LineAlong(b, width, height, connect, x, y, dx, dy) {
      var lo :| -connect < lo <= 0 && Segment(b, width, height, x, y, dx, dy, me, lo, connect);
      if lo < 1 - n {
        MatchesAroundMove(b, width, height, x, y, dx, dy, -n);
        assert false;
      }
      if lo + connect > p {
        MatchesAroundMove(b, width, height, x, y, dx, dy, p);
        assert false;
      }
    }
  }

  /** `does_move_win` is true exactly when the placed chip completes a line of
      `connect` cells along one of the four axes. */
  lemma MoveWinsIff(b: Board, width: nat, height: nat, connect: int, x: int, y: int)
    requires WellFormed(b, width, height) && OnBoard(width, height, x, y)
    requires connect >= 1
    ensures MoveWins(b, width, height, connect, x, y) <==> HasLine(b, width, height, connect, x, y)
  {
    forall i | 0 <= i < |Directions|
      ensures WinsAlong(b, width, height, connect, x, y, Directions[i].0, Directions[i].1)
          <==> LineAlong(b, width, height, connect, x, y, Directions[i].0, Directions[i].1)
    {
      WinsAlongIff(b, width, height, connect, x, y, Directions[i].0, Directions[i].1);
    }
  }
}
