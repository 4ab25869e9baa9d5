/**
 * The board object: a 6 x 7 grid of cells updated in place by gravity
 * insertion. The value-level functions below say where a piece lands; the
 * class Board applies them to its `state` field.
 */
module Boards {
  import opened Wrappers
  import opened Grids

  /** Why an insertion is refused. */
  datatype InsertError = InvalidColumn | ColumnFull

  /** A piece can be dropped into `column` when it exists and its top cell is empty. */
  predicate CanDrop(g: Grid, column: int) {
    0 <= column < WIDTH && g[0][column] == EMPTY
  }

  /**
   * The row at which a piece falling down `column` from `row` stops: the
   * first row that is the last one or has a non-empty cell below it.
   */
  function StopRow(g: Grid, column: int, row: int): (r: int)
    requires 0 <= column < WIDTH && 0 <= row < HEIGHT
    decreases HEIGHT - row
    ensures row <= r < HEIGHT
    ensures r == HEIGHT - 1 || g[r + 1][column] != EMPTY
    ensures forall k :: row < k <= r ==> g[k][column] == EMPTY
  {
    if row == HEIGHT - 1 || g[row + 1][column] != EMPTY then row
    else StopRow(g, column, row + 1)
  }

  function LandingRow(g: Grid, column: int): int
    requires 0 <= column < WIDTH
  {
    StopRow(g, column, 0)
  }

  /** The grid with cell (r, c) set to `piece`. */
  function Place(g: Grid, r: int, c: int, piece: char): Grid
    requires InGrid(r, c)
  {
    g[r := g[r][c := piece]]
  }

  /** The grid after `piece` has fallen down `column`. */
  function Dropped(g: Grid, column: int, piece: char): Grid
    requires CanDrop(g, column)
  {
    Place(g, LandingRow(g, column), column, piece)
  }

  /**
   * A drop writes `piece` into one cell of the column, a cell that was empty
   * and that is the bottom cell or rests on a non-empty one; every other cell
   * is unchanged.
   */
  lemma DroppedChangesOneCell(g: Grid, column: int, piece: char)
    requires CanDrop(g, column)
    ensures var r := LandingRow(g, column);
      && InGrid(r, column)
      && g[r][column] == EMPTY
      && (r == HEIGHT - 1 || g[r + 1][column] != EMPTY)
      && Dropped(g, column, piece)[r][column] == piece
      && forall r', c' :: InGrid(r', c') && (r', c') != (r, column) ==>
           Dropped(g, column, piece)[r'][c'] == g[r'][c']
  {
    var r := LandingRow(g, column);
    if r > 0 {
      assert g[r][column] == EMPTY;
    }
  }

  /** Cell (r, c) is on the bottom row or rests on a non-empty cell. */
  predicate Supported(g: Grid, r: int, c: int)
    requires InGrid(r, c)
  {
    r == HEIGHT - 1 || g[r + 1][c] != EMPTY
  }

  /** Gravity: in every column the non-empty cells sit on non-empty cells. */
  ghost predicate Gravity(g: Grid) {
    forall r, c :: InGrid(r, c) && g[r][c] != EMPTY ==> Supported(g, r, c)
  }

  /** The number of non-empty cells among the first `n` rows of column `c`. */
  function PiecesAbove(g: Grid, c: int, n: int): nat
    requires 0 <= c < WIDTH && 0 <= n <= HEIGHT
  {
    if n == 0 then 0 else PiecesAbove(g, c, n - 1) + (if g[n - 1][c] != EMPTY then 1 else 0)
  }

  /** The number of pieces in column `c`. */
  function ColumnPieces(g: Grid, c: int): nat
    requires 0 <= c < WIDTH
  {
    PiecesAbove(g, c, HEIGHT)
  }

  lemma {:induction false} PiecesAboveUnchanged(g: Grid, h: Grid, c: int, n: int)
    requires 0 <= c < WIDTH && 0 <= n <= HEIGHT
    requires forall k :: 0 <= k < n ==> g[k][c] == h[k][c]
    ensures PiecesAbove(g, c, n) == PiecesAbove(h, c, n)
  {
    if n > 0 {
      PiecesAboveUnchanged(g, h, c, n - 1);
    }
  }

  lemma {:induction false} PiecesAboveOneMore(g: Grid, h: Grid, c: int, r: int, n: int)
    requires 0 <= c < WIDTH && 0 <= r < n <= HEIGHT
    requires forall k :: 0 <= k < n && k != r ==> g[k][c] == h[k][c]
    requires g[r][c] == EMPTY && h[r][c] != EMPTY
    ensures PiecesAbove(h, c, n) == PiecesAbove(g, c, n) + 1
  {
    if n - 1 == r {
      PiecesAboveUnchanged(g, h, c, n - 1);
    } else {
      PiecesAboveOneMore(g, h, c, r, n - 1);
    }
  }

  /** Under gravity a piece lands in the lowest empty cell of its column. */
  lemma LandsInLowestEmptyCell(g: Grid, column: int)
    requires Gravity(g) && CanDrop(g, column)
    ensures var r := LandingRow(g, column);
      g[r][column] == EMPTY && forall k :: r < k < HEIGHT ==> g[k][column] != EMPTY
  {
    var r := LandingRow(g, column);
    DroppedChangesOneCell(g, column, EMPTY);
    var k := r + 1;
    while k < HEIGHT
      invariant r < k <= HEIGHT
      invariant forall j :: r < j < k ==> g[j][column] != EMPTY
    {
      if k > r + 1 {
        assert g[k - 1][column] != EMPTY;
      }
      k := k + 1;
    }
  }

  /**
   * Dropping a real piece keeps gravity, adds one piece to that column and
   * leaves the count of every other column unchanged.
   */
  lemma DroppedKeepsGravity(g: Grid, column: int, piece: char)
    requires Gravity(g) && CanDrop(g, column) && piece != EMPTY
    ensures Gravity(Dropped(g, column, piece))
    ensures ColumnPieces(Dropped(g, column, piece), column) == ColumnPieces(g, column) + 1
    ensures forall c :: 0 <= c < WIDTH && c != column ==>
      ColumnPieces(Dropped(g, column, piece), c) == ColumnPieces(g, c)
  {
    var h := Dropped(g, column, piece);
    var r := LandingRow(g, column);
    DroppedChangesOneCell(g, column, piece);
    LandsInLowestEmptyCell(g, column);
    PiecesAboveOneMore(g, h, column, r, HEIGHT);
    forall c | 0 <= c < WIDTH && c != column
      ensures ColumnPieces(h, c) == ColumnPieces(g, c)
    {
      PiecesAboveUnchanged(g, h, c, HEIGHT);
    }
  }

  /** The Board object of the game: its grid is replaced cell by cell as pieces are dropped. */
  class Board {
    var state: Grid

    /** A board from the given rows, or the empty board when none are given. */
    constructor (initialState: seq<seq<char>>)
      requires initialState == [] || IsGrid(initialState)
      ensures state == if initialState == [] then EmptyGrid() else initialState
    {
      if initialState != [] {
        state := initialState;
      } else {
        state := EmptyGrid();
      }
    }

    method Reset(initialState: seq<seq<char>>)
      requires initialState == [] || IsGrid(initialState)
      modifies this
      ensures state == if initialState == [] then EmptyGrid() else initialState
    {
      if initialState != [] {
        state := initialState;
      } else {
        state := EmptyGrid();
      }
    }

    /** A fresh board holding the same cells: the grid is copied, never shared. */
    method Copy() returns (b: Board)
      ensures fresh(b) && b.state == state
    {
      b := new Board(state);
    }

    /**
     * Drops `piece` into `column`: an invalid column or a full column is
     * refused and leaves the board as it was; otherwise the piece lands on
     * the row where it stops falling.
     */
    method InsertPiece(column: int, piece: char) returns (error: Option<InsertError>)
      modifies this
      ensures !(0 <= column < WIDTH) ==> error == Some(InvalidColumn) && state == old(state)
      ensures 0 <= column < WIDTH && old(state)[0][column] != EMPTY ==>
        error == Some(ColumnFull) && state == old(state)
      ensures CanDrop(old(state), column) ==>
        error == None && state == Dropped(old(state), column, piece)
    {
      if !(0 <= column < WIDTH) {
        return Some(InvalidColumn);
      }
      if state[0][column] != EMPTY {
        return Some(ColumnFull);
      }
      // the row the piece is in as it falls
      var row := 0;
      while !(row == HEIGHT - 1 || state[row + 1][column] != EMPTY)
        invariant 0 <= row < HEIGHT
        invariant StopRow(state, column, row) == LandingRow(state, column)
        decreases HEIGHT - row
      {
        row := row + 1;
      }
      state := Place(state, row, column, piece);
      error := None;
    }
  }

  function BottomRow(g: Grid): seq<char> { g[HEIGHT - 1] }

  /** Filling the bottom row of an empty board, one insertion per column: each one succeeds. */
  method FillBottomRow(piece: char) returns (errors: seq<Option<InsertError>>, final: Grid)
    requires piece != EMPTY
    ensures |errors| == WIDTH && forall i :: 0 <= i < WIDTH ==> errors[i] == None
    ensures forall c :: 0 <= c < WIDTH ==> BottomRow(final)[c] == piece
    ensures forall r, c :: InGrid(r, c) && r != HEIGHT - 1 ==> final[r][c] == EMPTY
  {
    var b := new Board([]);
    errors := [];
    for c := 0 to WIDTH
      invariant |errors| == c && forall i :: 0 <= i < c ==> errors[i] == None
      invariant forall j :: 0 <= j < c ==> BottomRow(b.state)[j] == piece
      invariant forall j :: c <= j < WIDTH ==> BottomRow(b.state)[j] == EMPTY
      invariant forall r, j :: InGrid(r, j) && r != HEIGHT - 1 ==> b.state[r][j] == EMPTY
    {
      DroppedChangesOneCell(b.state, c, piece);
      assert BottomRow(b.state)[c] == EMPTY;
      assert LandingRow(b.state, c) == HEIGHT - 1;
      ghost var before := b.state;
      var e := b.InsertPiece(c, piece);
      assert BottomRow(b.state) == BottomRow(before)[c := piece];
      errors := errors + [e];
    }
    final := b.state;
  }
}
