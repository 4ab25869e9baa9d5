/**
 * The game: whose turn it is, playing a move, and detecting four in a row.
 * `CheckWin` scans rows, then columns, then up-diagonals, then
 * down-diagonals for four consecutive pieces of one player and reports the
 * first match with the coordinates of its leftmost (if tied, upmost) cell.
 */
module Games {
  import opened Wrappers
  import opened Grids
  import opened Boards

  // ---------------------------------------------------------------------
  // Substring search, as Python's str.find

  /** `pat` occurs in `s` starting at index `j`. */
  predicate OccursAt(s: seq<char>, pat: seq<char>, j: int) {
    0 <= j && j + |pat| <= |s| && s[j..j + |pat|] == pat
  }

  function FindFrom(s: seq<char>, pat: seq<char>, from: nat): (i: int)
    decreases |s| - from
    ensures i == -1 || (from <= i && OccursAt(s, pat, i))
    ensures forall j :: from <= j && (i == -1 || j < i) ==> !OccursAt(s, pat, j)
  {
    if from + |pat| > |s| then -1
    else if s[from..from + |pat|] == pat then from
    else FindFrom(s, pat, from + 1)
  }

  /** The first index at which `pat` occurs in `s`, or -1 when it does not occur. */
  function Find(s: seq<char>, pat: seq<char>): (i: int)
    ensures i == -1 || OccursAt(s, pat, i)
    ensures forall j :: 0 <= j && (i == -1 || j < i) ==> !OccursAt(s, pat, j)
  {
    FindFrom(s, pat, 0)
  }

  function Four(sym: char): seq<char> { [sym, sym, sym, sym] }

  predicate ContainsFour(line: seq<char>, sym: char) {
    Find(line, Four(sym)) >= 0
  }

  // ---------------------------------------------------------------------
  // Win detection

  /** The result of `check_win`: no win, or the kind of line and its leftmost (upmost) cell. */
  datatype Win = NoWin | Won(kind: Family, row: int, col: int)

  /** The coordinates `check_win` reports for a match at offset `i` of line `d` of family `f`. */
  function MatchRow(f: Family, d: int, i: int): int {
    match f
    case Row => d
    case Col => i
    case UpDiag => if d < HEIGHT then d - i else HEIGHT - i - 1
    case DnDiag => if d < HEIGHT then HEIGHT - d + i - 1 else i
  }

  function MatchCol(f: Family, d: int, i: int): int {
    match f
    case Row => i
    case Col => d
    case UpDiag => if d < HEIGHT then i else d - HEIGHT + i + 1
    case DnDiag => if d < HEIGHT then i else d - HEIGHT + i + 1
  }

  /** The first of `lines`, from index `i` on, that holds four `sym` in a row, as a win of kind `f`. */
  function ScanLines(f: Family, lines: seq<seq<char>>, sym: char, i: nat): Win
    requires i <= |lines|
    decreases |lines| - i
  {
    if i == |lines| then NoWin
    else
      var k := Find(lines[i], Four(sym));
      if k >= 0 then Won(f, MatchRow(f, i, k), MatchCol(f, i, k))
      else ScanLines(f, lines, sym, i + 1)
  }

  /** The scan of one family of lines of the grid. */
  function ScanFamily(g: Grid, f: Family, sym: char): Win {
    ScanLines(f, LinesOf(g, f), sym, 0)
  }

  /** `check_win(player)`: rows, then columns, then up-diagonals, then down-diagonals. */
  function CheckWin(g: Grid, player: Player): Win {
    var sym := Sym(player);
    var rows := ScanFamily(g, Row, sym);
    if rows.Won? then rows
    else
      var cols := ScanFamily(g, Col, sym);
      if cols.Won? then cols
      else
        var ups := ScanFamily(g, UpDiag, sym);
        if ups.Won? then ups
        else ScanFamily(g, DnDiag, sym)
  }

  /** The order in which `check_win` scans the families. */
  function Rank(f: Family): int {
    match f
    case Row => 0
    case Col => 1
    case UpDiag => 2
    case DnDiag => 3
  }

  predicate Holds(g: Grid, r: int, c: int, sym: char) {
    InGrid(r, c) && g[r][c] == sym
  }

  /** Four `sym` pieces from (r, c) on, stepping in the direction of family `f`. */
  predicate FourAt(g: Grid, f: Family, r: int, c: int, sym: char) {
    && Holds(g, r, c, sym)
    && Holds(g, r + StepRow(f), c + StepCol(f), sym)
    && Holds(g, r + 2 * StepRow(f), c + 2 * StepCol(f), sym)
    && Holds(g, r + 3 * StepRow(f), c + 3 * StepCol(f), sym)
  }

  /** The grid holds four `sym` in a row, column or diagonal somewhere. */
  ghost predicate HasFour(g: Grid, sym: char) {
    exists f, r, c :: FourAt(g, f, r, c, sym)
  }

  /** The coordinates `check_win` reports are those of cell `i` of line `d`. */
  lemma MatchIsCell(f: Family, d: int, i: int)
    ensures MatchRow(f, d, i) == CellRow(f, d, i)
    ensures MatchCol(f, d, i) == CellCol(f, d, i)
  {
  }

  /** An occurrence of four `sym` at `k` is the four cells `k` to `k + 3` holding `sym`. */
  lemma OccursFour(line: seq<char>, k: int, sym: char)
    requires 0 <= k && k + 4 <= |line|
    ensures OccursAt(line, Four(sym), k) <==>
      line[k] == sym && line[k + 1] == sym && line[k + 2] == sym && line[k + 3] == sym
  {
    if OccursAt(line, Four(sym), k) {
      assert line[k..k + 4][0] == sym && line[k..k + 4][1] == sym;
      assert line[k..k + 4][2] == sym && line[k..k + 4][3] == sym;
    }
    if line[k] == sym && line[k + 1] == sym && line[k + 2] == sym && line[k + 3] == sym {
      assert line[k..k + 4] == Four(sym);
    }
  }

  /** Four `sym` at offset `k` of a line are four `sym` on the grid from that cell on. */
  lemma OccurrenceIsFour(g: Grid, f: Family, d: int, k: int, sym: char)
    requires 0 <= d < FamilySize(f)
    requires OccursAt(Line(g, f, d), Four(sym), k)
    ensures FourAt(g, f, CellRow(f, d, k), CellCol(f, d, k), sym)
  {
    LineCell(g, f, d, 0);
    LineFour(g, f, d, k, sym);
    CellsFour(g, f, d, k, sym);
  }

  /** Four consecutive cells of a line hold `sym` exactly when the grid holds four `sym` from the first of them in the direction of the line. */
  lemma CellsFour(g: Grid, f: Family, d: int, k: int, sym: char)
    ensures FourAt(g, f, CellRow(f, d, k), CellCol(f, d, k), sym) <==>
      SymAt(g, f, d, k, sym) && SymAt(g, f, d, k + 1, sym) && SymAt(g, f, d, k + 2, sym) && SymAt(g, f, d, k + 3, sym)
  {
    CellSteps(f, d, k);
  }

  /** Four `sym` on the grid occur on the line of their family through their first cell. */
  lemma FourIsOccurrence(g: Grid, f: Family, r: int, c: int, sym: char)
    requires FourAt(g, f, r, c, sym)
    ensures 0 <= IndexOf(f, r, c) < FamilySize(f)
    ensures OccursAt(Line(g, f, IndexOf(f, r, c)), Four(sym), OffsetOf(f, r, c))
  {
    var d, k := IndexOf(f, r, c), OffsetOf(f, r, c);
    FourCellsOnLine(f, r, c);
    CellsFour(g, f, d, k, sym);
    LineFour(g, f, d, k, sym);
  }

  /** The four cells from (r, c) in the direction of `f` are four consecutive cells of one line of `f`. */
  lemma FourCellsOnLine(f: Family, r: int, c: int)
    requires InGrid(r, c) && InGrid(r + 3 * StepRow(f), c + 3 * StepCol(f))
    ensures 0 <= IndexOf(f, r, c) < FamilySize(f)
    ensures 0 <= OffsetOf(f, r, c) && OffsetOf(f, r, c) + 3 < LineLength(f, IndexOf(f, r, c))
    ensures CellRow(f, IndexOf(f, r, c), OffsetOf(f, r, c)) == r
    ensures CellCol(f, IndexOf(f, r, c), OffsetOf(f, r, c)) == c
    ensures CellRow(f, IndexOf(f, r, c), OffsetOf(f, r, c) + 1) == r + StepRow(f)
    ensures CellCol(f, IndexOf(f, r, c), OffsetOf(f, r, c) + 1) == c + StepCol(f)
    ensures CellRow(f, IndexOf(f, r, c), OffsetOf(f, r, c) + 2) == r + 2 * StepRow(f)
    ensures CellCol(f, IndexOf(f, r, c), OffsetOf(f, r, c) + 2) == c + 2 * StepCol(f)
    ensures CellRow(f, IndexOf(f, r, c), OffsetOf(f, r, c) + 3) == r + 3 * StepRow(f)
    ensures CellCol(f, IndexOf(f, r, c), OffsetOf(f, r, c) + 3) == c + 3 * StepCol(f)
  {
    CellOnLine(f, r, c);
    CellOnLine(f, r + 3 * StepRow(f), c + 3 * StepCol(f));
    ThreeStepsOnLine(f, r, c);
    CellSteps(f, IndexOf(f, r, c), OffsetOf(f, r, c));
  }

  /** Cell `k` of line `d` of family `f` holds `sym`. */
  predicate SymAt(g: Grid, f: Family, d: int, k: int, sym: char) {
    Holds(g, CellRow(f, d, k), CellCol(f, d, k), sym)
  }

  /** Four `sym` occur on a line at `k` exactly when its cells `k` to `k + 3` hold `sym`. */
  lemma LineFour(g: Grid, f: Family, d: int, k: int, sym: char)
    requires 0 <= d < FamilySize(f) && 0 <= k && k + 3 < LineLength(f, d)
    ensures OccursAt(Line(g, f, d), Four(sym), k) <==>
      SymAt(g, f, d, k, sym) && SymAt(g, f, d, k + 1, sym) && SymAt(g, f, d, k + 2, sym) && SymAt(g, f, d, k + 3, sym)
  {
    LineCell(g, f, d, k);
    LineCell(g, f, d, k + 1);
    LineCell(g, f, d, k + 2);
    LineCell(g, f, d, k + 3);
    OccursFour(Line(g, f, d), k, sym);
  }

  /** Scanning from line `i` finds nothing exactly when no line from `i` on holds four. */
  lemma {:induction false} ScanLinesNone(f: Family, lines: seq<seq<char>>, sym: char, i: nat)
    requires i <= |lines|
    decreases |lines| - i
    ensures ScanLines(f, lines, sym, i).NoWin? <==>
      forall j :: i <= j < |lines| ==> !ContainsFour(lines[j], sym)
  {
    if i < |lines| {
      ScanLinesNone(f, lines, sym, i + 1);
    }
  }

  /**
   * A match found scanning from line `i` is on the first line `d` holding four,
   * at the first offset `k` of the four on that line.
   */
  lemma {:induction false} ScanLinesWon(f: Family, lines: seq<seq<char>>, sym: char, i: nat)
      returns (d: nat, k: nat)
    requires i <= |lines|
    requires ScanLines(f, lines, sym, i).Won?
    decreases |lines| - i
    ensures i <= d < |lines|
    ensures Find(lines[d], Four(sym)) == k
    ensures ScanLines(f, lines, sym, i) == Won(f, MatchRow(f, d, k), MatchCol(f, d, k))
    ensures forall j :: i <= j < d ==> !ContainsFour(lines[j], sym)
  {
    var found := Find(lines[i], Four(sym));
    if found >= 0 {
      d, k := i, found;
    } else {
      d, k := ScanLinesWon(f, lines, sym, i + 1);
    }
  }

  /** A win reported by the scan of family `f` is four cells of that family, first of its line. */
  lemma ScanFamilyWon(g: Grid, f: Family, sym: char)
    requires ScanFamily(g, f, sym).Won?
    ensures var w := ScanFamily(g, f, sym);
      var d := IndexOf(f, w.row, w.col);
      && w.kind == f
      && 0 <= d < FamilySize(f)
      && Find(Line(g, f, d), Four(sym)) == OffsetOf(f, w.row, w.col)
      && FourAt(g, f, w.row, w.col, sym)
      && forall j :: 0 <= j < d ==> !ContainsFour(Line(g, f, j), sym)
  {
    var lines := LinesOf(g, f);
    var d, k := ScanLinesWon(f, lines, sym, 0);
    assert lines[d] == Line(g, f, d);
    LineCell(g, f, d, k);
    MatchIsCell(f, d, k);
    LineCellIndex(f, d, k);
    OccurrenceIsFour(g, f, d, k, sym);
    forall j | 0 <= j < d
      ensures !ContainsFour(Line(g, f, j), sym)
    {
      assert lines[j] == Line(g, f, j);
    }
  }

  /** The scan of family `f` finds nothing exactly when no line of the family holds four. */
  lemma ScanFamilyNone(g: Grid, f: Family, sym: char)
    ensures ScanFamily(g, f, sym).NoWin? <==>
      forall j :: 0 <= j < FamilySize(f) ==> !ContainsFour(Line(g, f, j), sym)
  {
    var lines := LinesOf(g, f);
    ScanLinesNone(f, lines, sym, 0);
    assert forall j :: 0 <= j < FamilySize(f) ==> lines[j] == Line(g, f, j);
  }

  /**
   * What `check_win` reports is the scan of one family, and every family it
   * scans earlier found nothing.
   */
  lemma CheckWinFamily(g: Grid, player: Player)
    requires CheckWin(g, player).Won?
    ensures var w := CheckWin(g, player);
      && ScanFamily(g, w.kind, Sym(player)) == w
      && forall f :: Rank(f) < Rank(w.kind) ==> ScanFamily(g, f, Sym(player)).NoWin?
  {
    var sym := Sym(player);
    if ScanFamily(g, Row, sym).Won? {
      ScanFamilyWon(g, Row, sym);
    } else if ScanFamily(g, Col, sym).Won? {
      ScanFamilyWon(g, Col, sym);
    } else if ScanFamily(g, UpDiag, sym).Won? {
      ScanFamilyWon(g, UpDiag, sym);
    } else {
      ScanFamilyWon(g, DnDiag, sym);
    }
  }

  /** A reported win names four cells that all hold the player's piece. */
  lemma CheckWinSound(g: Grid, player: Player)
    requires CheckWin(g, player).Won?
    ensures var w := CheckWin(g, player); FourAt(g, w.kind, w.row, w.col, Sym(player))
  {
    CheckWinFamily(g, player);
    ScanFamilyWon(g, CheckWin(g, player).kind, Sym(player));
  }

  /** A win found by the scan of any one family makes `check_win` report a win. */
  lemma FamilyWonIsWon(g: Grid, player: Player, f: Family)
    requires ScanFamily(g, f, Sym(player)).Won?
    ensures CheckWin(g, player).Won?
  {
  }

  /** `check_win` reports no win exactly when no four of the player's pieces are aligned. */
  lemma CheckWinComplete(g: Grid, player: Player)
    ensures CheckWin(g, player).NoWin? <==> !HasFour(g, Sym(player))
  {
    var sym := Sym(player);
    if HasFour(g, sym) {
      var f, r, c :| FourAt(g, f, r, c, sym);
      FourIsOccurrence(g, f, r, c, sym);
      ScanFamilyNone(g, f, sym);
      FamilyWonIsWon(g, player, f);
    } else if CheckWin(g, player).Won? {
      CheckWinSound(g, player);
    }
  }

  /**
   * The reported match is the first one: no line of an earlier family and
   * no earlier line of its own family holds four, and on its line it is the
   * first occurrence.
   */
  lemma CheckWinFirst(g: Grid, player: Player)
    requires CheckWin(g, player).Won?
    ensures var w := CheckWin(g, player);
      var d := IndexOf(w.kind, w.row, w.col);
      && 0 <= d < FamilySize(w.kind)
      && Find(Line(g, w.kind, d), Four(Sym(player))) == OffsetOf(w.kind, w.row, w.col)
      && (forall j :: 0 <= j < d ==> !ContainsFour(Line(g, w.kind, j), Sym(player)))
      && forall f, j :: Rank(f) < Rank(w.kind) && 0 <= j < FamilySize(f) ==>
           !ContainsFour(Line(g, f, j), Sym(player))
  {
    var sym := Sym(player);
    var w := CheckWin(g, player);
    CheckWinFamily(g, player);
    ScanFamilyWon(g, w.kind, sym);
    forall f | Rank(f) < Rank(w.kind)
      ensures forall j :: 0 <= j < FamilySize(f) ==> !ContainsFour(Line(g, f, j), sym)
    {
      ScanFamilyNone(g, f, sym);
    }
  }

  // ---------------------------------------------------------------------
  // Game state

  datatype GameState = InProgress | P1Won | P2Won | Tie

  /** The state of a position: a win for either player, else a tie when no column is playable. */
  function StateOf(g: Grid): GameState {
    if CheckWin(g, 0).Won? then P1Won
    else if CheckWin(g, 1).Won? then P2Won
    else if ValidColumns(g) == [] then Tie
    else InProgress
  }

  /** What each state means for the grid. */
  lemma StateOfMeaning(g: Grid)
    ensures StateOf(g) == P1Won <==> HasFour(g, Sym(0))
    ensures StateOf(g) == P2Won <==> !HasFour(g, Sym(0)) && HasFour(g, Sym(1))
    ensures StateOf(g) == Tie <==>
      !HasFour(g, Sym(0)) && !HasFour(g, Sym(1)) && forall c :: 0 <= c < WIDTH ==> g[0][c] != EMPTY
    ensures StateOf(g) == InProgress <==>
      !HasFour(g, Sym(0)) && !HasFour(g, Sym(1)) && exists c :: 0 <= c < WIDTH && g[0][c] == EMPTY
  {
    CheckWinComplete(g, 0);
    CheckWinComplete(g, 1);
    var cols := ValidColumns(g);
    if cols != [] {
      assert cols[0] in cols;
    }
  }

  /** The game: a board and the index of the player whose turn it is. */
  class Game {
    var pi: Player
    var board: Board

    /** A game on the given board, or on a new empty board; player 0 moves first. */
    constructor (initialBoard: Board?)
      ensures pi == 0
      ensures initialBoard != null ==> board == initialBoard
      ensures initialBoard == null ==> fresh(board) && board.state == EmptyGrid()
    {
      pi := 0;
      if initialBoard != null {
        board := initialBoard;
      } else {
        board := new Board([]);
      }
    }

    /** The piece of the player to move. */
    function Playing(): (c: char)
      reads this
      ensures c in PLAYERS && c != EMPTY && c != Sym(Other(pi))
    {
      Sym(pi)
    }

    /** The piece of the other player. */
    function NotPlaying(): (c: char)
      reads this
      ensures c in PLAYERS && c != EMPTY && c != Sym(pi)
    {
      Sym(Other(pi))
    }

    method SwitchPlayer()
      modifies this
      ensures pi == Other(old(pi)) && pi != old(pi) && board == old(board)
    {
      pi := (pi + 1) % 2;
    }

    /**
     * Plays the current player's piece in `column`; the turn passes only when
     * the piece was placed, and a refused move changes nothing.
     */
    method Play(column: int) returns (error: Option<InsertError>)
      modifies this, board
      ensures board == old(board)
      ensures error == None <==> CanDrop(old(board.state), column)
      ensures error == None ==>
        board.state == Dropped(old(board.state), column, Sym(old(pi))) && pi == Other(old(pi))
      ensures error != None ==> board.state == old(board.state) && pi == old(pi)
    {
      error := board.InsertPiece(column, Playing());
      if error == None {
        SwitchPlayer();
      }
    }
  }
}
