/** The 4x4 Connect-Four engine: a fixed grid of optional player markers,
    gravity drops, full-column and full-board tests, the four-in-a-row scan
    and the text rendering returned to clients. */
module ConnectFour {
  import opened Common
  import opened SeededRng

  /** `BOARD_SIZE`: the grid has N rows and N columns; row 0 is the top. */
  const N: nat := 4

  datatype Player = Milk | Cookie

  /** A cell is empty (`None`) or holds one player's marker. */
  type Cell = Option<Player>

  predicate IsGrid(rows: seq<seq<Cell>>)
  {
    |rows| == N && forall r :: 0 <= r < |rows| ==> |rows[r]| == N
  }

  function EmptyRows(): (rows: seq<seq<Cell>>)
    ensures IsGrid(rows)
  {
    seq(N, _ => seq(N, _ => None))
  }

  /** The `Connect4` struct: `board[row][column]`. */
  type Board = rows: seq<seq<Cell>> | IsGrid(rows) witness EmptyRows()

  // ---------------------------------------------------------------------
  // Construction, reset and single-cell updates
  // ---------------------------------------------------------------------

  /** True iff no cell of the board is occupied. */
  predicate IsEmpty(g: Board)
  {
    forall r, c :: 0 <= r < N && 0 <= c < N ==> g[r][c].None?
  }

  /** `Connect4::new`. */
  function New(): (g: Board)
    ensures IsEmpty(g)
  {
    EmptyRows()
  }

  /** `Connect4::reset`: the board is replaced by an empty one whatever it held. */
  function Reset(g: Board): (h: Board)
    ensures IsEmpty(h)
    ensures h == New()
  {
    EmptyRows()
  }

  /** Writes `p` into one cell. */
  function SetCell(g: Board, row: nat, col: nat, p: Player): (h: Board)
    requires row < N && col < N
    ensures h[row][col] == Some(p)
    ensures forall r, c :: 0 <= r < N && 0 <= c < N && (r != row || c != col) ==> h[r][c] == g[r][c]
  {
    g[row := g[row][col := Some(p)]]
  }

  // ---------------------------------------------------------------------
  // Random boards
  // ---------------------------------------------------------------------

  /** The marker `random` writes for one drawn boolean. */
  function CellFromBit(b: bool): Cell
  {
    if b then Some(Cookie) else Some(Milk)
  }

  /** Fills `n` cells left to right, one draw per cell. */
  function DrawCells(bits: BitStream, rng: StdRng, n: nat): (res: (seq<Cell>, StdRng))
    ensures |res.0| == n
    ensures res.1 == StdRng(rng.seed, rng.drawn + n)
    ensures forall i :: 0 <= i < n ==> res.0[i] == CellFromBit(bits(rng.seed, rng.drawn + i))
    decreases n
  {
    if n == 0 then ([], rng)
    else
      var draw := GenBool(bits, rng);
      var rest := DrawCells(bits, draw.1, n - 1);
      ([CellFromBit(draw.0)] + rest.0, rest.1)
  }

  /** Fills `n` rows of N cells top to bottom, one draw per cell. */
  function DrawRows(bits: BitStream, rng: StdRng, n: nat): (res: (seq<seq<Cell>>, StdRng))
    ensures |res.0| == n
    ensures res.1 == StdRng(rng.seed, rng.drawn + N * n)
    ensures forall r :: 0 <= r < n ==> |res.0[r]| == N
    ensures forall r, c :: 0 <= r < n && 0 <= c < N ==>
      res.0[r][c] == CellFromBit(bits(rng.seed, rng.drawn + N * r + c))
    decreases n
  {
    if n == 0 then ([], rng)
    else
      var first := DrawCells(bits, rng, N);
      var next := first.1;
      var others := DrawRows(bits, next, n - 1);
      var rest := others.0;
      var rows := [first.0] + rest;
      forall r, c | 1 <= r < n && 0 <= c < N
        ensures rows[r][c] == CellFromBit(bits(rng.seed, rng.drawn + N * r + c))
      {
        assert rows[r] == rest[r - 1];
        assert rest[r - 1][c] == CellFromBit(bits(next.seed, next.drawn + N * (r - 1) + c));
        assert next.drawn + N * (r - 1) + c == rng.drawn + N * r + c;
      }
      (rows, others.1)
  }

  /** `Connect4::random`: every cell, in row-major order, takes one drawn
      boolean (true is a cookie, false a milk). */
  function Random(bits: BitStream, rng: StdRng): (res: (Board, StdRng))
    ensures BoardFull(res.0)
    ensures res.1 == StdRng(rng.seed, rng.drawn + N * N)
    ensures forall r, c :: 0 <= r < N && 0 <= c < N ==>
      res.0[r][c] == CellFromBit(bits(rng.seed, rng.drawn + N * r + c))
  {
    var (rows, next) := DrawRows(bits, rng, N);
    assert IsGrid(rows);
    (rows, next)
  }

  // ---------------------------------------------------------------------
  // Gravity drop
  // ---------------------------------------------------------------------

  /** `row` is the lowest empty cell of column `col`: it is empty and every
      cell below it (larger row index) is occupied. */
  ghost predicate LowestEmpty(g: Board, col: nat, row: nat)
    requires col < N
  {
    row < N && g[row][col].None? && forall k :: row < k < N ==> g[k][col].Some?
  }

  /** `h` is `g` with `p` dropped into the lowest empty cell of column `col`,
      and no other cell changed. */
  ghost predicate DropsInto(g: Board, h: Board, col: nat, p: Player)
    requires col < N
  {
    exists row :: LowestEmpty(g, col, row) && h == SetCell(g, row, col, p)
  }

  /** True iff every cell of column `col` is occupied. */
  ghost predicate ColumnOccupied(g: Board, col: nat)
    requires col < N
  {
    forall k :: 0 <= k < N ==> g[k][col].Some?
  }

  /** The row scan of `play`: rows `row`, `row - 1`, ..., 0 of column `col`
      are visited bottom to top and the first empty one is returned. */
  function DropRow(g: Board, col: nat, row: int): (r: Option<nat>)
    requires col < N && -1 <= row < N
    ensures r.Some? ==> r.value <= row && g[r.value][col].None?
    ensures r.Some? ==> forall k :: r.value < k <= row ==> g[k][col].Some?
    ensures r.None? <==> forall k :: 0 <= k <= row ==> g[k][col].Some?
    decreases row + 1
  {
    if row < 0 then None
    else if g[row][col].None? then Some(row)
    else DropRow(g, col, row - 1)
  }

  datatype PlayError = InvalidColumn | ColumnFull

  /** `Connect4::play`: drops `p` into column `col` under gravity. */
  function Play(g: Board, p: Player, col: nat): (r: Result<Board, PlayError>)
    ensures col >= N <==> r == Err(InvalidColumn)
    ensures col < N ==> (r == Err(ColumnFull) <==> ColumnOccupied(g, col))
    ensures r.Ok? ==> col < N && DropsInto(g, r.value, col, p)
  {
    if col >= N then Err(InvalidColumn)
    else
      match DropRow(g, col, N - 1)
      case None => Err(ColumnFull)
      case Some(row) =>
        assert LowestEmpty(g, col, row);
        Ok(SetCell(g, row, col, p))
  }

  /** `Connect4::column_full`: reads only the top cell of the column. */
  function IsColumnFull(g: Board, col: nat): (r: bool)
    requires col < N
    ensures Settled(g) ==> (r <==> ColumnOccupied(g, col))
    ensures ColumnOccupied(g, col) ==> r
  {
    g[0][col].Some?
  }

  /** `Connect4::board_full`: every cell of every row is occupied. */
  function BoardFull(g: Board): (r: bool)
    ensures r ==> Settled(g) && forall c :: 0 <= c < N ==> ColumnOccupied(g, c)
    ensures Settled(g) ==> (r <==> forall c :: 0 <= c < N ==> IsColumnFull(g, c))
  {
    assert Settled(g) && (forall c :: 0 <= c < N ==> IsColumnFull(g, c)) ==>
      forall r, c :: 0 <= r < N && 0 <= c < N ==> g[r][c].Some?
    by {
      if Settled(g) && (forall c :: 0 <= c < N ==> IsColumnFull(g, c)) {
        forall r, c | 0 <= r < N && 0 <= c < N
          ensures g[r][c].Some?
        {
          assert IsColumnFull(g, c);
        }
      }
    }
    forall r, c :: 0 <= r < N && 0 <= c < N ==> g[r][c].Some?
  }

  // ---------------------------------------------------------------------
  // The gravity invariant
  // ---------------------------------------------------------------------

  /** Gravity: an occupied cell has only occupied cells below it. */
  ghost predicate Settled(g: Board)
  {
    forall r, r', c :: 0 <= r < r' < N && 0 <= c < N && g[r][c].Some? ==> g[r'][c].Some?
  }

  /** Cells are only ever set: every occupied cell of `g` is unchanged in `h`. */
  ghost predicate Extends(g: Board, h: Board)
  {
    forall r, c :: 0 <= r < N && 0 <= c < N && g[r][c].Some? ==> h[r][c] == g[r][c]
  }

  lemma NewIsSettled()
    ensures Settled(New())
  {
  }

  /** A successful play keeps the gravity invariant and never empties or
      overwrites an occupied cell. */
  lemma PlayPreservesSettled(g: Board, p: Player, col: nat)
    requires Settled(g)
    requires Play(g, p, col).Ok?
    ensures Settled(Play(g, p, col).value)
    ensures Extends(g, Play(g, p, col).value)
  {
    var row :| LowestEmpty(g, col, row) && Play(g, p, col).value == SetCell(g, row, col, p);
  }

  /** Under the gravity invariant the one-cell test of `column_full` is exact:
      it holds precisely when a play into that column fails. */
  lemma ColumnFullIffPlayFails(g: Board, p: Player, col: nat)
    requires Settled(g) && col < N
    ensures IsColumnFull(g, col) <==> Play(g, p, col).Err?
  {
  }

  /** A full board rejects every play. */
  lemma FullBoardRejectsPlay(g: Board, p: Player, col: nat)
    requires BoardFull(g)
    ensures Play(g, p, col).Err?
  {
    if col < N {
      assert ColumnOccupied(g, col);
    }
  }

  /** Without the invariant the top cell still decides: a play into a column
      whose top cell is empty always succeeds. */
  lemma OpenTopAcceptsPlay(g: Board, p: Player, col: nat)
    requires col < N && !IsColumnFull(g, col)
    ensures Play(g, p, col).Ok?
  {
  }

  // ---------------------------------------------------------------------
  // Counting occupied cells
  // ---------------------------------------------------------------------

  function CountRow(cells: seq<Cell>): (n: nat)
    ensures n <= |cells|
  {
    if cells == [] then 0 else (if cells[0].Some? then 1 else 0) + CountRow(cells[1..])
  }

  function CountRows(rows: seq<seq<Cell>>): nat
  {
    if rows == [] then 0 else CountRow(rows[0]) + CountRows(rows[1..])
  }

  /** Number of occupied cells of the board. */
  function Occupied(g: Board): nat
  {
    CountRows(g)
  }

  lemma {:induction false} CountRowAllIff(cells: seq<Cell>)
    ensures CountRow(cells) == |cells| <==> forall i :: 0 <= i < |cells| ==> cells[i].Some?
  {
    if cells != [] {
      CountRowAllIff(cells[1..]);
      if CountRow(cells) == |cells| {
        forall i | 0 <= i < |cells|
          ensures cells[i].Some?
        {
          if i > 0 {
            assert cells[i] == cells[1..][i - 1];
          }
        }
      }
      if forall i :: 0 <= i < |cells| ==> cells[i].Some? {
        forall i | 0 <= i < |cells[1..]|
          ensures cells[1..][i].Some?
        {
          assert cells[1..][i] == cells[i + 1];
        }
      }
    }
  }

  lemma {:induction false} CountRowSet(cells: seq<Cell>, i: nat, p: Player)
    requires i < |cells| && cells[i].None?
    ensures CountRow(cells[i := Some(p)]) == CountRow(cells) + 1
  {
    var upd := cells[i := Some(p)];
    if i == 0 {
      assert upd[1..] == cells[1..];
    } else {
      assert upd[1..] == cells[1..][i - 1 := Some(p)];
      CountRowSet(cells[1..], i - 1, p);
    }
  }

  lemma {:induction false} CountRowsSet(rows: seq<seq<Cell>>, row: nat, col: nat, p: Player)
    requires row < |rows| && col < |rows[row]| && rows[row][col].None?
    ensures CountRows(rows[row := rows[row][col := Some(p)]]) == CountRows(rows) + 1
  {
    var upd := rows[row := rows[row][col := Some(p)]];
    if row == 0 {
      assert upd[1..] == rows[1..];
      CountRowSet(rows[0], col, p);
    } else {
      assert upd[1..] == rows[1..][row - 1 := rows[1..][row - 1][col := Some(p)]];
      CountRowsSet(rows[1..], row - 1, col, p);
    }
  }

  /** Rows of width N hold at most N cells each, and reach the bound exactly
      when every cell is occupied. */
  lemma {:induction false} CountRowsFullIff(rows: seq<seq<Cell>>)
    requires forall r :: 0 <= r < |rows| ==> |rows[r]| == N
    ensures CountRows(rows) <= N * |rows|
    ensures CountRows(rows) == N * |rows| <==>
      forall r, c :: 0 <= r < |rows| && 0 <= c < N ==> rows[r][c].Some?
  {
    if rows != [] {
      CountRowsFullIff(rows[1..]);
      CountRowAllIff(rows[0]);
      assert forall r :: 1 <= r < |rows| ==> rows[r] == rows[1..][r - 1];
    }
  }

  /** `board_full` holds exactly when all N * N cells are occupied. */
  lemma BoardFullIffAllOccupied(g: Board)
    ensures Occupied(g) <= N * N
    ensures BoardFull(g) <==> Occupied(g) == N * N
  {
    CountRowsFullIff(g);
  }

  lemma {:induction false} CountRowNone(cells: seq<Cell>)
    requires forall i :: 0 <= i < |cells| ==> cells[i].None?
    ensures CountRow(cells) == 0
  {
    if cells != [] {
      assert forall i :: 0 <= i < |cells[1..]| ==> cells[1..][i] == cells[i + 1];
      CountRowNone(cells[1..]);
    }
  }

  lemma {:induction false} CountRowsNone(rows: seq<seq<Cell>>)
    requires forall r, c :: 0 <= r < |rows| && 0 <= c < |rows[r]| ==> rows[r][c].None?
    ensures CountRows(rows) == 0
  {
    if rows != [] {
      CountRowNone(rows[0]);
      assert forall r :: 0 <= r < |rows[1..]| ==> rows[1..][r] == rows[r + 1];
      CountRowsNone(rows[1..]);
    }
  }

  /** The empty board has no occupied cell. */
  lemma EmptyHasNoOccupied(g: Board)
    requires IsEmpty(g)
    ensures Occupied(g) == 0
  {
    CountRowsNone(g);
  }

  /** A successful play occupies exactly one more cell. */
  lemma PlayAddsOne(g: Board, p: Player, col: nat)
    requires Play(g, p, col).Ok?
    ensures Occupied(Play(g, p, col).value) == Occupied(g) + 1
  {
    var row :| LowestEmpty(g, col, row) && Play(g, p, col).value == SetCell(g, row, col, p);
    CountRowsSet(g, row, col, p);
  }

  // ---------------------------------------------------------------------
  // Sequences of plays
  // ---------------------------------------------------------------------

  datatype Move = Move(player: Player, column: nat)

  /** Plays `moves` in order, stopping at the first failure. */
  function PlayAll(g: Board, moves: seq<Move>): Result<Board, PlayError>
    decreases |moves|
  {
    if moves == [] then Ok(g)
    else
      match Play(g, moves[0].player, moves[0].column)
      case Err(e) => Err(e)
      case Ok(h) => PlayAll(h, moves[1..])
  }

  /** Successful plays preserve gravity and add one occupied cell each. */
  lemma {:induction false} PlayAllCounts(g: Board, moves: seq<Move>)
    requires Settled(g)
    requires PlayAll(g, moves).Ok?
    ensures Settled(PlayAll(g, moves).value)
    ensures Extends(g, PlayAll(g, moves).value)
    ensures Occupied(PlayAll(g, moves).value) == Occupied(g) + |moves|
    decreases |moves|
  {
    if moves != [] {
      var h := Play(g, moves[0].player, moves[0].column).value;
      PlayPreservesSettled(g, moves[0].player, moves[0].column);
      PlayAddsOne(g, moves[0].player, moves[0].column);
      PlayAllCounts(h, moves[1..]);
    }
  }

  /** From the empty board, sixteen successful plays fill the board, and no
      sequence of more than sixteen plays can succeed. */
  lemma SixteenPlaysFillBoard(moves: seq<Move>)
    requires PlayAll(New(), moves).Ok?
    ensures |moves| <= N * N
    ensures |moves| == N * N ==> BoardFull(PlayAll(New(), moves).value)
  {
    NewIsSettled();
    EmptyHasNoOccupied(New());
    PlayAllCounts(New(), moves);
    BoardFullIffAllOccupied(PlayAll(New(), moves).value);
  }

  /** Column `col` read top to bottom. */
  function Column(g: Board, col: nat): (cells: seq<Cell>)
    requires col < N
    ensures |cells| == N
    ensures forall r :: 0 <= r < N ==> cells[r] == g[r][col]
  {
    seq(N, r requires 0 <= r < N => g[r][col])
  }

  /** Number of occupied cells in column `col`. */
  function Height(g: Board, col: nat): nat
    requires col < N
  {
    CountRow(Column(g, col))
  }

  /** Number of moves of `moves` aimed at column `col`. */
  function MovesInto(moves: seq<Move>, col: nat): nat
  {
    if moves == [] then 0
    else (if moves[0].column == col then 1 else 0) + MovesInto(moves[1..], col)
  }

  /** A play into a column that is not full raises that column's height by
      one and leaves every other column as it was. */
  lemma PlayRaisesHeight(g: Board, p: Player, col: nat)
    requires col < N && Height(g, col) < N
    ensures Play(g, p, col).Ok?
    ensures Height(Play(g, p, col).value, col) == Height(g, col) + 1
    ensures forall c :: 0 <= c < N && c != col ==> Column(Play(g, p, col).value, c) == Column(g, c)
  {
    CountRowAllIff(Column(g, col));
    assert !ColumnOccupied(g, col) by {
      var i :| 0 <= i < N && Column(g, col)[i].None?;
      assert g[i][col].None?;
    }
    assert Play(g, p, col).Ok?;
    var row: nat :| LowestEmpty(g, col, row) && Play(g, p, col).value == SetCell(g, row, col, p);
    var h := Play(g, p, col).value;
    assert Column(h, col) == Column(g, col)[row := Some(p)];
    CountRowSet(Column(g, col), row, p);
  }

  /** As long as no column receives more moves than it has free cells, every
      play succeeds and each column's height grows by the number of moves
      made into it. */
  lemma {:induction false} PlaysWithinHeightSucceed(g: Board, moves: seq<Move>)
    requires forall i :: 0 <= i < |moves| ==> moves[i].column < N
    requires forall c :: 0 <= c < N ==> Height(g, c) + MovesInto(moves, c) <= N
    ensures PlayAll(g, moves).Ok?
    ensures forall c :: 0 <= c < N ==> Height(PlayAll(g, moves).value, c) == Height(g, c) + MovesInto(moves, c)
    decreases |moves|
  {
    if moves != [] {
      var m := moves[0];
      assert MovesInto(moves, m.column) == 1 + MovesInto(moves[1..], m.column);
      PlayRaisesHeight(g, m.player, m.column);
      var h := Play(g, m.player, m.column).value;
      forall c | 0 <= c < N
        ensures Height(h, c) + MovesInto(moves[1..], c) <= N
        ensures Height(h, c) + MovesInto(moves[1..], c) == Height(g, c) + MovesInto(moves, c)
      {
        assert MovesInto(moves, c) == (if m.column == c then 1 else 0) + MovesInto(moves[1..], c);
        if c != m.column {
          assert Column(h, c) == Column(g, c);
        }
      }
      forall i | 0 <= i < |moves[1..]|
        ensures moves[1..][i].column < N
      {
        assert moves[1..][i] == moves[i + 1];
      }
      PlaysWithinHeightSucceed(h, moves[1..]);
    }
  }

  /** A column that already holds N markers rejects the next play with
      `ColumnFull` and the board stays as it was. */
  lemma FullColumnRejects(g: Board, p: Player, col: nat)
    requires col < N && Height(g, col) == N
    ensures Play(g, p, col) == Err(ColumnFull)
  {
    CountRowAllIff(Column(g, col));
  }

  /** Four drops into one column of the empty board succeed and fill it, and
      the fifth is rejected with `ColumnFull`. */
  lemma {:induction false} FifthDropFails(moves: seq<Move>, p: Player, col: nat)
    requires col < N && |moves| == N
    requires forall i :: 0 <= i < |moves| ==> moves[i].column == col
    ensures PlayAll(New(), moves).Ok?
    ensures Play(PlayAll(New(), moves).value, p, col) == Err(ColumnFull)
  {
    EmptyHasNoOccupied(New());
    forall c | 0 <= c < N
      ensures Height(New(), c) == 0
    {
      CountRowNone(Column(New(), c));
    }
    MovesIntoCounts(moves, col);
    PlaysWithinHeightSucceed(New(), moves);
    FullColumnRejects(PlayAll(New(), moves).value, p, col);
  }

  lemma {:induction false} MovesIntoCounts(moves: seq<Move>, col: nat)
    requires forall i :: 0 <= i < |moves| ==> moves[i].column == col
    ensures MovesInto(moves, col) == |moves|
    ensures forall c :: c != col ==> MovesInto(moves, c) == 0
    decreases |moves|
  {
    if moves != [] {
      assert forall i :: 0 <= i < |moves[1..]| ==> moves[1..][i] == moves[i + 1];
      MovesIntoCounts(moves[1..], col);
    }
  }

  // ---------------------------------------------------------------------
  // Winner detection
  // ---------------------------------------------------------------------

  /** The cell `i` steps from (`row`, `col`) in direction (`dr`, `dc`), or
      `None` when that position is off the board. */
  function RunCell(g: Board, row: nat, col: nat, dr: int, dc: int, i: nat): Option<Cell>
  {
    var r := row + dr * i;
    var c := col + dc * i;
    if 0 <= r < N && 0 <= c < N then Some(g[r][c]) else None
  }

  /** Steps `i`, ..., 3 of the run check in `check_winner`: each step must stay
      on the board (a negative coordinate is the failing `checked_add_signed`)
      and land on a cell equal to `cell`. */
  function RunMatches(g: Board, row: nat, col: nat, dr: int, dc: int, cell: Cell, i: nat): (r: bool)
    ensures r <==> forall j :: i <= j < 4 ==> RunCell(g, row, col, dr, dc, j) == Some(cell)
    decreases 4 - i
  {
    if i >= 4 then true
    else
      var r := row + dr * i;
      var c := col + dc * i;
      assert RunCell(g, row, col, dr, dc, i) == if 0 <= r < N && 0 <= c < N then Some(g[r][c]) else None;
      if r < 0 || c < 0 || r >= N || c >= N then false
      else if g[r][c] != cell then false
      else RunMatches(g, row, col, dr, dc, cell, i + 1)
  }

  /** `check_winner`: the player owning four equal cells starting at
      (`row`, `col`) in direction (`dr`, `dc`), if any. */
  function CheckWinner(g: Board, row: nat, col: nat, dr: int, dc: int): (w: Option<Player>)
    ensures w.Some? <==> (row < N && col < N && g[row][col].Some?
      && forall j :: 0 <= j < 4 ==> RunCell(g, row, col, dr, dc, j) == Some(g[row][col]))
    ensures w.Some? ==> row < N && col < N && g[row][col] == w
  {
    if row >= N || col >= N then None
    else
      var cell := g[row][col];
      assert RunCell(g, row, col, dr, dc, 0) == Some(cell);
      if cell.None? then None
      else if RunMatches(g, row, col, dr, dc, cell, 1) then Some(cell.value)
      else None
  }

  /** The horizontal scan over rows `row`, ..., N - 1. */
  function ScanRows(g: Board, row: nat): Option<Player>
    decreases N - row
  {
    if row >= N then None
    else
      var w := CheckWinner(g, row, 0, 0, 1);
      if w.Some? then w else ScanRows(g, row + 1)
  }

  /** The vertical scan over columns `col`, ..., N - 1. */
  function ScanColumns(g: Board, col: nat): Option<Player>
    decreases N - col
  {
    if col >= N then None
    else
      var w := CheckWinner(g, 0, col, 1, 0);
      if w.Some? then w else ScanColumns(g, col + 1)
  }

  /** `Connect4::winner`: rows, then columns, then the "\" diagonal, then the
      "/" diagonal from the top-right corner; the first hit wins. */
  function Winner(g: Board): Option<Player>
  {
    var h := ScanRows(g, 0);
    if h.Some? then h
    else
      var v := ScanColumns(g, 0);
      if v.Some? then v
      else
        var d := CheckWinner(g, 0, 0, 1, 1);
        if d.Some? then d
        else CheckWinner(g, 0, N - 1, 1, -1)
  }

  // Reference definition: the ten lines of the board, in scan order.

  /** The `i`-th cell (0 <= i < 4) of line `k`: lines 0-3 are the rows, 4-7 the
      columns, 8 the "\" diagonal and 9 the "/" diagonal. */
  function LineCell(k: nat, i: nat): (rc: (nat, nat))
    requires k < 10 && i < 4
    ensures rc.0 < N && rc.1 < N
  {
    if k < 4 then (k, i)
    else if k < 8 then (i, k - 4)
    else if k == 8 then (i, i)
    else (i, 3 - i)
  }

  function CellOfLine(g: Board, k: nat, i: nat): Cell
    requires k < 10 && i < 4
  {
    var rc := LineCell(k, i);
    g[rc.0][rc.1]
  }

  /** All four cells of line `k` hold `p`. */
  ghost predicate LineOwnedBy(g: Board, k: nat, p: Player)
    requires k < 10
  {
    forall i :: 0 <= i < 4 ==> CellOfLine(g, k, i) == Some(p)
  }

  /** The owner of line `k`, read directly off its four cells. */
  function LineOwner(g: Board, k: nat): (w: Option<Player>)
    requires k < 10
    ensures w.Some? ==> LineOwnedBy(g, k, w.value)
    ensures w.None? ==> forall p :: !LineOwnedBy(g, k, p)
  {
    var a := CellOfLine(g, k, 0);
    if a.Some? && CellOfLine(g, k, 1) == a && CellOfLine(g, k, 2) == a && CellOfLine(g, k, 3) == a
    then a else None
  }

  /** The directional check from each anchor agrees with the line owner. */
  lemma CheckRowIsLine(g: Board, row: nat)
    requires row < N
    ensures CheckWinner(g, row, 0, 0, 1) == LineOwner(g, row)
  {
    assert LineCell(row, 1) == (row, 1) && LineCell(row, 2) == (row, 2) && LineCell(row, 3) == (row, 3);
  }

  lemma CheckColumnIsLine(g: Board, col: nat)
    requires col < N
    ensures CheckWinner(g, 0, col, 1, 0) == LineOwner(g, col + 4)
  {
    assert LineCell(col + 4, 1) == (1, col) && LineCell(col + 4, 2) == (2, col) && LineCell(col + 4, 3) == (3, col);
  }

  lemma CheckDiagonalsAreLines(g: Board)
    ensures CheckWinner(g, 0, 0, 1, 1) == LineOwner(g, 8)
    ensures CheckWinner(g, 0, N - 1, 1, -1) == LineOwner(g, 9)
  {
  }

  /** The first owned line among lines `k`, ..., 9. */
  function FirstOwnedLine(g: Board, k: nat): Option<Player>
    requires k <= 10
    decreases 10 - k
  {
    if k == 10 then None
    else if LineOwner(g, k).Some? then LineOwner(g, k)
    else FirstOwnedLine(g, k + 1)
  }

  lemma {:induction false} ScanRowsIsFirstLine(g: Board, row: nat)
    requires row <= N
    ensures ScanRows(g, row) == FirstRowOwner(g, row)
    decreases N - row
  {
    if row < N {
      CheckRowIsLine(g, row);
      ScanRowsIsFirstLine(g, row + 1);
    }
  }

  /** The first owned line among the rows `row`, ..., 3. */
  function FirstRowOwner(g: Board, row: nat): Option<Player>
    requires row <= N
    decreases N - row
  {
    if row == N then None
    else if LineOwner(g, row).Some? then LineOwner(g, row)
    else FirstRowOwner(g, row + 1)
  }

  /** The first owned line among the columns `col`, ..., 3. */
  function FirstColumnOwner(g: Board, col: nat): Option<Player>
    requires col <= N
    decreases N - col
  {
    if col == N then None
    else if LineOwner(g, col + 4).Some? then LineOwner(g, col + 4)
    else FirstColumnOwner(g, col + 1)
  }

  lemma {:induction false} ScanColumnsIsFirstLine(g: Board, col: nat)
    requires col <= N
    ensures ScanColumns(g, col) == FirstColumnOwner(g, col)
    decreases N - col
  {
    if col < N {
      CheckColumnIsLine(g, col);
      ScanColumnsIsFirstLine(g, col + 1);
    }
  }

  lemma {:induction false} FirstOwnedLineRows(g: Board, row: nat)
    requires row <= N
    ensures FirstOwnedLine(g, row) ==
      (if FirstRowOwner(g, row).Some? then FirstRowOwner(g, row) else FirstOwnedLine(g, N))
    decreases N - row
  {
    if row < N {
      FirstOwnedLineRows(g, row + 1);
    }
  }

  lemma {:induction false} FirstOwnedLineColumns(g: Board, col: nat)
    requires col <= N
    ensures FirstOwnedLine(g, col + 4) ==
      (if FirstColumnOwner(g, col).Some? then FirstColumnOwner(g, col) else FirstOwnedLine(g, 8))
    decreases N - col
  {
    if col < N {
      FirstOwnedLineColumns(g, col + 1);
    }
  }

  /** `winner` is the owner of the first owned line in scan order. */
  lemma WinnerIsFirstOwnedLine(g: Board)
    ensures Winner(g) == FirstOwnedLine(g, 0)
  {
    ScanRowsIsFirstLine(g, 0);
    ScanColumnsIsFirstLine(g, 0);
    CheckDiagonalsAreLines(g);
    FirstOwnedLineRows(g, 0);
    FirstOwnedLineColumns(g, 0);
  }

  lemma {:induction false} FirstOwnedLineSpec(g: Board, k: nat)
    requires k <= 10
    ensures FirstOwnedLine(g, k).Some? ==>
      exists j :: (k <= j < 10 && LineOwnedBy(g, j, FirstOwnedLine(g, k).value)
        && forall j' :: k <= j' < j ==> LineOwner(g, j').None?)
    ensures FirstOwnedLine(g, k).None? <==> forall j, p :: k <= j < 10 ==> !LineOwnedBy(g, j, p)
    decreases 10 - k
  {
    if k < 10 {
      FirstOwnedLineSpec(g, k + 1);
      if LineOwner(g, k).None? && FirstOwnedLine(g, k + 1).Some? {
        var j :| k + 1 <= j < 10 && LineOwnedBy(g, j, FirstOwnedLine(g, k + 1).value)
          && forall j' :: k + 1 <= j' < j ==> LineOwner(g, j').None?;
        assert forall j' :: k <= j' < j ==> LineOwner(g, j').None?;
      }
    }
  }

  /** Soundness and scan order: `winner` reports `Some(p)` only for a line of
      four `p` markers, and every line scanned before it is not owned. */
  lemma WinnerSound(g: Board)
    requires Winner(g).Some?
    ensures exists k :: (0 <= k < 10 && LineOwnedBy(g, k, Winner(g).value)
      && forall j :: 0 <= j < k ==> LineOwner(g, j).None?)
  {
    WinnerIsFirstOwnedLine(g);
    FirstOwnedLineSpec(g, 0);
  }

  /** Completeness: `winner` is `None` exactly when no row, column or main
      diagonal is owned by a single player. */
  lemma WinnerNoneIff(g: Board)
    ensures Winner(g).None? <==> forall k, p :: 0 <= k < 10 ==> !LineOwnedBy(g, k, p)
  {
    WinnerIsFirstOwnedLine(g);
    FirstOwnedLineSpec(g, 0);
  }

  lemma EmptyHasNoWinner()
    ensures Winner(New()) == None
  {
    WinnerNoneIff(New());
    assert forall k :: 0 <= k < 10 ==> CellOfLine(New(), k, 0) == None;
  }

  /** Four milk markers dropped into columns 0 to 3 of the empty board land
      on the bottom row and win. */
  lemma BottomRowWin()
    ensures var r := PlayAll(New(), [Move(Milk, 0), Move(Milk, 1), Move(Milk, 2), Move(Milk, 3)]);
      r.Ok? && Winner(r.value) == Some(Milk)
  {
    var g0 := New();
    var g1 := SetCell(g0, 3, 0, Milk);
    assert Play(g0, Milk, 0) == Ok(g1);
    var g2 := SetCell(g1, 3, 1, Milk);
    assert Play(g1, Milk, 1) == Ok(g2);
    var g3 := SetCell(g2, 3, 2, Milk);
    assert Play(g2, Milk, 2) == Ok(g3);
    var g4 := SetCell(g3, 3, 3, Milk);
    assert Play(g3, Milk, 3) == Ok(g4);
    assert PlayAll(New(), [Move(Milk, 0), Move(Milk, 1), Move(Milk, 2), Move(Milk, 3)]) == Ok(g4);
    WinnerIsFirstOwnedLine(g4);
  }

  // ---------------------------------------------------------------------
  // Rendering (`Display for Connect4`)
  // ---------------------------------------------------------------------

  /** The four glyphs; the source writes them as emoji. */
  const Border: char := '\U{2B1C}'
  const EmptyGlyph: char := '\U{2B1B}'

  function PlayerGlyph(p: Player): char
  {
    match p
    case Milk => '\U{1F95B}'
    case Cookie => '\U{1F36A}'
  }

  function CellGlyph(cell: Cell): char
  {
    match cell
    case None => EmptyGlyph
    case Some(p) => PlayerGlyph(p)
  }

  /** One board line: border, one glyph per cell, border, newline. */
  function RowText(cells: seq<Cell>): (s: string)
    ensures |s| == |cells| + 3
  {
    [Border] + seq(|cells|, i requires 0 <= i < |cells| => CellGlyph(cells[i])) + [Border, '\n']
  }

  function RowsText(rows: seq<seq<Cell>>): string
  {
    if rows == [] then "" else RowText(rows[0]) + RowsText(rows[1..])
  }

  /** The closing line of N + 2 border glyphs. */
  function BottomLine(): (s: string)
    ensures |s| == N + 3
  {
    seq(N + 2, _ => Border) + "\n"
  }

  /** The status line: the winner, else "No winner." on a full board, else nothing. */
  function StatusLine(g: Board): string
  {
    match Winner(g)
    case Some(p) => [PlayerGlyph(p)] + " wins!\n"
    case None => if BoardFull(g) then "No winner.\n" else ""
  }

  function Render(g: Board): string
  {
    RowsText(g) + BottomLine() + StatusLine(g)
  }

  /** Width of one rendered board line, newline included. */
  const LineWidth: nat := N + 3
  /** Length of the grid part of the rendering (N board lines and the bottom line). */
  const GridTextLength: nat := (N + 1) * LineWidth

  lemma {:induction false} RowsTextShape(rows: seq<seq<Cell>>)
    requires forall r :: 0 <= r < |rows| ==> |rows[r]| == N
    ensures |RowsText(rows)| == LineWidth * |rows|
    ensures forall r, j :: 0 <= r < |rows| && 0 <= j < LineWidth ==>
      RowsText(rows)[LineWidth * r + j] == RowText(rows[r])[j]
  {
    if rows != [] {
      RowsTextShape(rows[1..]);
      var t := RowsText(rows);
      assert t == RowText(rows[0]) + RowsText(rows[1..]);
      forall r, j | 0 <= r < |rows| && 0 <= j < LineWidth
        ensures t[LineWidth * r + j] == RowText(rows[r])[j]
      {
        if r > 0 {
          assert rows[r] == rows[1..][r - 1];
          assert LineWidth * r + j == LineWidth + (LineWidth * (r - 1) + j);
        }
      }
    }
  }

  lemma RowTextShape(cells: seq<Cell>)
    requires |cells| == N
    ensures RowText(cells)[0] == Border && RowText(cells)[N + 1] == Border && RowText(cells)[N + 2] == '\n'
    ensures forall c :: 0 <= c < N ==> RowText(cells)[1 + c] == CellGlyph(cells[c])
  {
  }

  /** The rendering is N lines of border + N cell glyphs + border, then the
      bottom line of N + 2 borders, then the status line. */
  lemma RenderShape(g: Board)
    ensures |Render(g)| == GridTextLength + |StatusLine(g)|
    ensures forall r, c :: 0 <= r < N && 0 <= c < N ==> Render(g)[LineWidth * r + 1 + c] == CellGlyph(g[r][c])
    ensures forall r :: 0 <= r < N ==>
      Render(g)[LineWidth * r] == Border && Render(g)[LineWidth * r + N + 1] == Border
        && Render(g)[LineWidth * r + N + 2] == '\n'
    ensures forall j :: LineWidth * N <= j < LineWidth * N + N + 2 ==> Render(g)[j] == Border
    ensures Render(g)[GridTextLength - 1] == '\n'
    ensures Render(g)[GridTextLength..] == StatusLine(g)
  {
    GridShape(g, StatusLine(g));
  }

  /** The shape of the grid text followed by any status text `st`. */
  lemma GridShape(g: Board, st: string)
    ensures |RowsText(g) + BottomLine() + st| == GridTextLength + |st|
    ensures forall r, c :: 0 <= r < N && 0 <= c < N ==>
      (RowsText(g) + BottomLine() + st)[LineWidth * r + 1 + c] == CellGlyph(g[r][c])
    ensures forall r :: 0 <= r < N ==>
      (RowsText(g) + BottomLine() + st)[LineWidth * r] == Border
        && (RowsText(g) + BottomLine() + st)[LineWidth * r + N + 1] == Border
        && (RowsText(g) + BottomLine() + st)[LineWidth * r + N + 2] == '\n'
    ensures forall j :: LineWidth * N <= j < LineWidth * N + N + 2 ==> (RowsText(g) + BottomLine() + st)[j] == Border
    ensures (RowsText(g) + BottomLine() + st)[GridTextLength - 1] == '\n'
    ensures (RowsText(g) + BottomLine() + st)[GridTextLength..] == st
  {
    RowsTextShape(g);
    var rows := RowsText(g);
    var t := rows + BottomLine() + st;
    assert |rows| == LineWidth * N;
    forall r, j | 0 <= r < N && 0 <= j < LineWidth
      ensures t[LineWidth * r + j] == RowText(g[r])[j]
    {
      assert t[LineWidth * r + j] == rows[LineWidth * r + j];
    }
    forall r | 0 <= r < N
      ensures forall c :: 0 <= c < N ==> t[LineWidth * r + 1 + c] == CellGlyph(g[r][c])
      ensures t[LineWidth * r] == Border && t[LineWidth * r + N + 1] == Border && t[LineWidth * r + N + 2] == '\n'
    {
      RowTextShape(g[r]);
    }
    forall j | LineWidth * N <= j < GridTextLength
      ensures t[j] == BottomLine()[j - LineWidth * N]
    {
    }
    assert t[GridTextLength..] == st;
  }

  /** The status line against the reference definitions: a win message iff
      some line is owned by one player, "No winner." iff no line is owned and
      all N * N cells are occupied, and nothing otherwise. */
  lemma StatusLineCases(g: Board)
    ensures (exists k, p :: 0 <= k < 10 && LineOwnedBy(g, k, p)) <==>
      (Winner(g).Some? && StatusLine(g) == [PlayerGlyph(Winner(g).value)] + " wins!\n")
    ensures StatusLine(g) == "No winner.\n" <==>
      ((forall k, p :: 0 <= k < 10 ==> !LineOwnedBy(g, k, p)) && Occupied(g) == N * N)
    ensures StatusLine(g) == "" <==>
      ((forall k, p :: 0 <= k < 10 ==> !LineOwnedBy(g, k, p)) && Occupied(g) < N * N)
  {
    WinnerNoneIff(g);
    BoardFullIffAllOccupied(g);
    if Winner(g).Some? {
      var w := [PlayerGlyph(Winner(g).value)] + " wins!\n";
      var full := "No winner.\n";
      assert w[|w| - 2] == '!' && full[|full| - 2] == '.';
    }
  }

  /** Reads a cell glyph back; `None` for a character that is not a cell glyph. */
  function ReadGlyph(ch: char): Option<Cell>
  {
    if ch == EmptyGlyph then Some(None)
    else if ch == PlayerGlyph(Milk) then Some(Some(Milk))
    else if ch == PlayerGlyph(Cookie) then Some(Some(Cookie))
    else None
  }

  /** The cell read from the glyph at column `c` of line `r`. */
  function GlyphAt(text: string, r: nat, c: nat): Option<Cell>
    requires |text| >= GridTextLength && r < N && c < N
  {
    ReadGlyph(text[LineWidth * r + 1 + c])
  }

  /** Reads the board back from its rendering: the glyph at column `c` of
      line `r` is the cell (`r`, `c`). */
  function ReadBoard(text: string): Option<Board>
  {
    if |text| < GridTextLength then None
    else if exists r: nat, c: nat :: r < N && c < N && GlyphAt(text, r, c).None? then None
    else
      var rows := seq(N, r requires 0 <= r < N =>
        seq(N, c requires 0 <= c < N => GlyphAt(text, r, c).value));
      assert IsGrid(rows);
      Some(rows)
  }

  /** The rendering determines the board: reading it back gives the board. */
  lemma RenderRoundTrip(g: Board)
    ensures ReadBoard(Render(g)) == Some(g)
  {
    var t := Render(g);
    RenderGlyphs(g);
    var rows := seq(N, r requires 0 <= r < N =>
      seq(N, c requires 0 <= c < N => GlyphAt(t, r, c).value));
    forall r | 0 <= r < N
      ensures rows[r] == g[r]
    {
      assert forall c :: 0 <= c < N ==> rows[r][c] == g[r][c];
    }
    assert rows == g;
  }

  /** Every cell glyph of the rendering reads back as its cell. */
  lemma RenderGlyphs(g: Board)
    ensures |Render(g)| >= GridTextLength
    ensures forall r: nat, c: nat :: r < N && c < N ==> GlyphAt(Render(g), r, c) == Some(g[r][c])
  {
    RenderShape(g);
    ReadGlyphs(g, Render(g));
  }

  /** A text whose cell positions carry the glyphs of `g` reads back as `g`'s cells. */
  lemma ReadGlyphs(g: Board, t: string)
    requires |t| >= GridTextLength
    requires forall r, c :: 0 <= r < N && 0 <= c < N ==> t[LineWidth * r + 1 + c] == CellGlyph(g[r][c])
    ensures forall r: nat, c: nat :: r < N && c < N ==> GlyphAt(t, r, c) == Some(g[r][c])
  {
    forall r: nat, c: nat | r < N && c < N
      ensures GlyphAt(t, r, c) == Some(g[r][c])
    {
      assert t[LineWidth * r + 1 + c] == CellGlyph(g[r][c]);
      match g[r][c]
      case None =>
      case Some(p) =>
        assert PlayerGlyph(p) != EmptyGlyph;
    }
  }

  /** Two boards have the same rendering iff they are equal. */
  lemma RenderInjective(g: Board, h: Board)
    ensures Render(g) == Render(h) <==> g == h
  {
    RenderRoundTrip(g);
    RenderRoundTrip(h);
  }
}
