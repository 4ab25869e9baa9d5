/**
 * The fixed 6 x 7 grid of a four-in-a-row board, its cells and players, and
 * the four families of lines (rows, columns, up-diagonals, down-diagonals)
 * that the game rules and the heuristic read off it.
 * Row 0 is the top row; pieces fall towards row HEIGHT - 1.
 */
module Grids {

  const WIDTH: int := 7
  const HEIGHT: int := 6
  const EMPTY: char := '.'

  /** A player index: 0 plays '#' and maximizes, 1 plays '+' and minimizes. */
  type Player = p: int | 0 <= p < 2

  /** The piece symbol of each player. */
  const PLAYERS: seq<char> := ['#', '+']

  function Sym(p: Player): char { PLAYERS[p] }

  function Other(p: Player): Player { (p + 1) % 2 }

  predicate IsGrid(g: seq<seq<char>>) {
    |g| == HEIGHT && forall r :: 0 <= r < HEIGHT ==> |g[r]| == WIDTH
  }

  type Grid = g: seq<seq<char>> | IsGrid(g)
    witness seq(6, _ => seq(7, _ => '.'))

  predicate InGrid(r: int, c: int) {
    0 <= r < HEIGHT && 0 <= c < WIDTH
  }

  /** The board a new game starts from: every cell empty. */
  function EmptyGrid(): (g: Grid)
    ensures forall r, c :: InGrid(r, c) ==> g[r][c] == EMPTY
  {
    seq(HEIGHT, _ => seq(WIDTH, _ => EMPTY))
  }

  // ---------------------------------------------------------------------
  // Lines

  datatype Family = Row | Col | UpDiag | DnDiag

  /** How many lines of a family the game scans: 6 rows, 7 columns, 12 diagonals of each slope. */
  function FamilySize(f: Family): int {
    match f
    case Row => HEIGHT
    case Col => WIDTH
    case UpDiag => HEIGHT + WIDTH - 1
    case DnDiag => HEIGHT + WIDTH - 1
  }

  /** The step from one cell of a line to the next, as (row, column) deltas. */
  function StepRow(f: Family): int {
    match f
    case Row => 0
    case Col => 1
    case UpDiag => -1
    case DnDiag => 1
  }

  function StepCol(f: Family): int {
    match f
    case Row => 1
    case Col => 0
    case UpDiag => 1
    case DnDiag => 1
  }

  /** The cells of row `r`, left to right. */
  function RowLine(g: Grid, r: int): seq<char>
    requires 0 <= r < HEIGHT
  {
    seq(WIDTH, i requires 0 <= i < WIDTH => g[r][i])
  }

  /** The cells of column `c`, top to bottom. */
  function ColLine(g: Grid, c: int): seq<char>
    requires 0 <= c < WIDTH
  {
    seq(HEIGHT, i requires 0 <= i < HEIGHT => g[i][c])
  }

  /** Walk north-east from (r, c) until leaving the grid. */
  function UpFrom(g: Grid, r: int, c: int): seq<char>
    requires r < HEIGHT && 0 <= c
    decreases WIDTH - c
  {
    if r >= 0 && c < WIDTH then [g[r][c]] + UpFrom(g, r - 1, c + 1) else []
  }

  /** Walk south-east from (r, c) until leaving the grid. */
  function DnFrom(g: Grid, r: int, c: int): seq<char>
    requires 0 <= r && 0 <= c
    decreases WIDTH - c
  {
    if r < HEIGHT && c < WIDTH then [g[r][c]] + DnFrom(g, r + 1, c + 1) else []
  }

  /** Where up-diagonal `d` starts: on the left edge for d < HEIGHT, else on the bottom row. */
  function UpStartRow(d: int): int { if d < HEIGHT then d else HEIGHT - 1 }
  function UpStartCol(d: int): int { if d < HEIGHT then 0 else d - HEIGHT + 1 }

  /** Where down-diagonal `d` starts: on the left edge for d < HEIGHT, else on the top row. */
  function DnStartRow(d: int): int { if d < HEIGHT then HEIGHT - d - 1 else 0 }
  function DnStartCol(d: int): int { if d < HEIGHT then 0 else d - HEIGHT + 1 }

  function UpDiagLine(g: Grid, d: int): seq<char>
    requires 0 <= d
  {
    UpFrom(g, UpStartRow(d), UpStartCol(d))
  }

  function DnDiagLine(g: Grid, d: int): seq<char>
    requires 0 <= d
  {
    DnFrom(g, DnStartRow(d), DnStartCol(d))
  }

  /** Line `i` of family `f`. */
  function Line(g: Grid, f: Family, i: int): seq<char>
    requires 0 <= i < FamilySize(f)
  {
    match f
    case Row => RowLine(g, i)
    case Col => ColLine(g, i)
    case UpDiag => UpDiagLine(g, i)
    case DnDiag => DnDiagLine(g, i)
  }

  /** The row of cell `k` of line `i` of family `f`. */
  function CellRow(f: Family, i: int, k: int): int {
    match f
    case Row => i
    case Col => k
    case UpDiag => UpStartRow(i) - k
    case DnDiag => DnStartRow(i) + k
  }

  /** The column of cell `k` of line `i` of family `f`. */
  function CellCol(f: Family, i: int, k: int): int {
    match f
    case Row => k
    case Col => i
    case UpDiag => UpStartCol(i) + k
    case DnDiag => DnStartCol(i) + k
  }

  /** The number of cells on line `i` of family `f`. */
  function LineLength(f: Family, i: int): int {
    match f
    case Row => WIDTH
    case Col => HEIGHT
    case UpDiag => Min(UpStartRow(i) + 1, WIDTH - UpStartCol(i))
    case DnDiag => Min(HEIGHT - DnStartRow(i), WIDTH - DnStartCol(i))
  }

  function Min(a: int, b: int): int { if a <= b then a else b }

  /** The walk north-east from a cell goes on until the top row or the right edge. */
  lemma {:induction false} UpFromLength(g: Grid, r: int, c: int)
    requires 0 <= r < HEIGHT && 0 <= c < WIDTH
    decreases WIDTH - c
    ensures |UpFrom(g, r, c)| == Min(r + 1, WIDTH - c)
  {
    if r - 1 >= 0 && c + 1 < WIDTH {
      UpFromLength(g, r - 1, c + 1);
    }
  }

  /** Step `k` of the walk north-east from (r, c) is cell (r - k, c + k). */
  lemma {:induction false} UpFromAt(g: Grid, r: int, c: int, k: int)
    requires r < HEIGHT && 0 <= c && 0 <= k < |UpFrom(g, r, c)|
    decreases k
    ensures InGrid(r - k, c + k) && UpFrom(g, r, c)[k] == g[r - k][c + k]
  {
    if k > 0 {
      UpFromAt(g, r - 1, c + 1, k - 1);
    }
  }

  /** The walk south-east from a cell goes on until the bottom row or the right edge. */
  lemma {:induction false} DnFromLength(g: Grid, r: int, c: int)
    requires 0 <= r < HEIGHT && 0 <= c < WIDTH
    decreases WIDTH - c
    ensures |DnFrom(g, r, c)| == Min(HEIGHT - r, WIDTH - c)
  {
    if r + 1 < HEIGHT && c + 1 < WIDTH {
      DnFromLength(g, r + 1, c + 1);
    }
  }

  /** Step `k` of the walk south-east from (r, c) is cell (r + k, c + k). */
  lemma {:induction false} DnFromAt(g: Grid, r: int, c: int, k: int)
    requires 0 <= r && 0 <= c && 0 <= k < |DnFrom(g, r, c)|
    decreases k
    ensures InGrid(r + k, c + k) && DnFrom(g, r, c)[k] == g[r + k][c + k]
  {
    if k > 0 {
      DnFromAt(g, r + 1, c + 1, k - 1);
    }
  }

  /**
   * Cell `k` of line `i` of family `f` is grid cell (CellRow, CellCol); every
   * index of the family names a non-empty line.
   */
  lemma LineCell(g: Grid, f: Family, i: int, k: int)
    requires 0 <= i < FamilySize(f)
    ensures |Line(g, f, i)| == LineLength(f, i) > 0
    ensures 0 <= k < |Line(g, f, i)| ==>
      InGrid(CellRow(f, i, k), CellCol(f, i, k)) && Line(g, f, i)[k] == g[CellRow(f, i, k)][CellCol(f, i, k)]
  {
    match f
    case Row =>
    case Col =>
    case UpDiag => UpDiagCell(g, i, k);
    case DnDiag => DnDiagCell(g, i, k);
  }

  /** Up-diagonal `d` has `LineLength(UpDiag, d)` cells, its cell `k` being `k` steps north-east of its start. */
  lemma UpDiagCell(g: Grid, d: int, k: int)
    requires 0 <= d < FamilySize(UpDiag)
    ensures |UpDiagLine(g, d)| == LineLength(UpDiag, d)
    ensures 0 <= k < |UpDiagLine(g, d)| ==>
      && InGrid(UpStartRow(d) - k, UpStartCol(d) + k)
      && UpDiagLine(g, d)[k] == g[UpStartRow(d) - k][UpStartCol(d) + k]
  {
    var r, c := UpStartRow(d), UpStartCol(d);
    UpFromLength(g, r, c);
    if 0 <= k < |UpDiagLine(g, d)| {
      UpFromAt(g, r, c, k);
    }
  }

  /** Down-diagonal `d` has `LineLength(DnDiag, d)` cells, its cell `k` being `k` steps south-east of its start. */
  lemma DnDiagCell(g: Grid, d: int, k: int)
    requires 0 <= d < FamilySize(DnDiag)
    ensures |DnDiagLine(g, d)| == LineLength(DnDiag, d)
    ensures 0 <= k < |DnDiagLine(g, d)| ==>
      && InGrid(DnStartRow(d) + k, DnStartCol(d) + k)
      && DnDiagLine(g, d)[k] == g[DnStartRow(d) + k][DnStartCol(d) + k]
  {
    var r, c := DnStartRow(d), DnStartCol(d);
    DnFromLength(g, r, c);
    if 0 <= k < |DnDiagLine(g, d)| {
      DnFromAt(g, r, c, k);
    }
  }

  /** The three cells after cell `k` of a line are one, two and three steps of its direction away. */
  lemma CellSteps(f: Family, i: int, k: int)
    ensures CellRow(f, i, k + 1) == CellRow(f, i, k) + StepRow(f)
    ensures CellCol(f, i, k + 1) == CellCol(f, i, k) + StepCol(f)
    ensures CellRow(f, i, k + 2) == CellRow(f, i, k) + 2 * StepRow(f)
    ensures CellCol(f, i, k + 2) == CellCol(f, i, k) + 2 * StepCol(f)
    ensures CellRow(f, i, k + 3) == CellRow(f, i, k) + 3 * StepRow(f)
    ensures CellCol(f, i, k + 3) == CellCol(f, i, k) + 3 * StepCol(f)
  {
  }

  /**
   * When the cell three steps from (r, c) is on the grid too, it lies on the
   * same line, three places further.
   */
  lemma ThreeStepsOnLine(f: Family, r: int, c: int)
    requires InGrid(r, c) && InGrid(r + 3 * StepRow(f), c + 3 * StepCol(f))
    ensures IndexOf(f, r + 3 * StepRow(f), c + 3 * StepCol(f)) == IndexOf(f, r, c)
    ensures OffsetOf(f, r + 3 * StepRow(f), c + 3 * StepCol(f)) == OffsetOf(f, r, c) + 3
  {
  }

  /** The diagonal generators yield nothing outside the 12 indices of each family. */
  lemma DiagonalIndexRange(g: Grid, d: int)
    requires 0 <= d
    ensures |UpDiagLine(g, d)| > 0 <==> d < HEIGHT + WIDTH - 1
    ensures |DnDiagLine(g, d)| > 0 <==> d < HEIGHT + WIDTH - 1
  {
    if d < HEIGHT + WIDTH - 1 {
      UpFromLength(g, UpStartRow(d), UpStartCol(d));
      DnFromLength(g, DnStartRow(d), DnStartCol(d));
    }
  }

  /** The index of the line of family `f` through cell (r, c). */
  function IndexOf(f: Family, r: int, c: int): int {
    match f
    case Row => r
    case Col => c
    case UpDiag => r + c
    case DnDiag => HEIGHT - 1 - r + c
  }

  /** The position of cell (r, c) on its line of family `f`. */
  function OffsetOf(f: Family, r: int, c: int): int {
    match f
    case Row => c
    case Col => r
    case UpDiag => if r + c < HEIGHT then c else HEIGHT - 1 - r
    case DnDiag => if HEIGHT - 1 - r + c < HEIGHT then c else r
  }

  /**
   * Every grid cell lies on exactly one line of each family: (row, column)
   * converts to (index, offset) and back.
   */
  lemma CellOnLine(f: Family, r: int, c: int)
    requires InGrid(r, c)
    ensures 0 <= IndexOf(f, r, c) < FamilySize(f)
    ensures 0 <= OffsetOf(f, r, c) < LineLength(f, IndexOf(f, r, c))
    ensures CellRow(f, IndexOf(f, r, c), OffsetOf(f, r, c)) == r
    ensures CellCol(f, IndexOf(f, r, c), OffsetOf(f, r, c)) == c
  {
  }

  /** (index, offset) converts to (row, column) and back. */
  lemma LineCellIndex(f: Family, i: int, k: int)
    requires 0 <= i < FamilySize(f) && 0 <= k < LineLength(f, i)
    ensures IndexOf(f, CellRow(f, i, k), CellCol(f, i, k)) == i
    ensures OffsetOf(f, CellRow(f, i, k), CellCol(f, i, k)) == k
  {
  }

  /** The number of lines: every row, every column and every diagonal of either direction. */
  const LINE_COUNT := HEIGHT + WIDTH + 2 * (HEIGHT + WIDTH - 1)

  /** All 38 lines: rows, then columns, then up-diagonals, then down-diagonals. */
  function AllLines(g: Grid): (lines: seq<seq<char>>)
    ensures |lines| == LINE_COUNT
  {
    LinesOf(g, Row) + LinesOf(g, Col) + LinesOf(g, UpDiag) + LinesOf(g, DnDiag)
  }

  function LinesOf(g: Grid, f: Family): seq<seq<char>> {
    seq(FamilySize(f), i requires 0 <= i < FamilySize(f) => Line(g, f, i))
  }

  // ---------------------------------------------------------------------
  // Playable columns

  /** The columns from `c` on whose top cell is empty. */
  function ValidFrom(g: Grid, c: int): (cols: seq<int>)
    requires 0 <= c <= WIDTH
    decreases WIDTH - c
    ensures forall x :: x in cols <==> c <= x < WIDTH && g[0][x] == EMPTY
  {
    if c == WIDTH then []
    else if g[0][c] == EMPTY then [c] + ValidFrom(g, c + 1)
    else ValidFrom(g, c + 1)
  }

  /** The columns from `c` on come in ascending order. */
  lemma {:induction false} ValidFromAscending(g: Grid, c: int)
    requires 0 <= c <= WIDTH
    decreases WIDTH - c
    ensures forall i, j :: 0 <= i < j < |ValidFrom(g, c)| ==> ValidFrom(g, c)[i] < ValidFrom(g, c)[j]
  {
    if c < WIDTH {
      ValidFromAscending(g, c + 1);
      var rest := ValidFrom(g, c + 1);
      assert forall j :: 0 <= j < |rest| ==> rest[j] in rest;
    }
  }

  /** `get_valid_columns`: the playable columns, those whose top cell is empty. */
  function ValidColumns(g: Grid): (cols: seq<int>)
    ensures forall x :: x in cols <==> 0 <= x < WIDTH && g[0][x] == EMPTY
  {
    ValidFrom(g, 0)
  }

  /** The playable columns are listed in ascending order. */
  lemma ValidColumnsAscending(g: Grid)
    ensures forall i, j :: 0 <= i < j < |ValidColumns(g)| ==> ValidColumns(g)[i] < ValidColumns(g)[j]
  {
    ValidFromAscending(g, 0);
  }
}
