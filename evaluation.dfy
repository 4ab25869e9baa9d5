/**
 * The static evaluation of a position: a decided game scores +5 or -5 (a tie
 * 0); otherwise the score of the first player minus that of the second,
 * where a player's score is the best line value over all 38 lines. The
 * line values come from the line analysis as written, as in the program, or
 * from the corrected one; the facts below hold for both unless one is named.
 */
module Evaluation {
  import opened Grids
  import opened Games
  import opened LineAnalysis
  import opened Boards

  // ---------------------------------------------------------------------
  // Where each line sits in the list of all lines

  /** The position of the first line of family `f` in `AllLines`. */
  function Base(f: Family): int {
    match f
    case Row => 0
    case Col => HEIGHT
    case UpDiag => HEIGHT + WIDTH
    case DnDiag => HEIGHT + WIDTH + FamilySize(UpDiag)
  }

  /** Line `d` of family `f` is entry `Base(f) + d` of the list of all lines. */
  lemma AllLinesAt(g: Grid, f: Family, d: int)
    requires 0 <= d < FamilySize(f)
    ensures 0 <= Base(f) + d < |AllLines(g)|
    ensures AllLines(g)[Base(f) + d] == Line(g, f, d)
  {
    var rows, cols, ups, dns := LinesOf(g, Row), LinesOf(g, Col), LinesOf(g, UpDiag), LinesOf(g, DnDiag);
    assert AllLines(g) == rows + cols + ups + dns;
    assert |rows| == HEIGHT && |cols| == WIDTH && |ups| == FamilySize(UpDiag) && |dns| == FamilySize(DnDiag);
    match f
    case Row =>
      Concat4(rows, cols, ups, dns, d);
      assert rows[d] == Line(g, f, d);
    case Col =>
      Concat4(rows, cols, ups, dns, HEIGHT + d);
      assert cols[d] == Line(g, f, d);
    case UpDiag =>
      Concat4(rows, cols, ups, dns, HEIGHT + WIDTH + d);
      assert ups[d] == Line(g, f, d);
    case DnDiag =>
      Concat4(rows, cols, ups, dns, HEIGHT + WIDTH + FamilySize(UpDiag) + d);
      assert dns[d] == Line(g, f, d);
  }

  /** Indexing into four sequences put end to end. */
  lemma Concat4<T>(a: seq<T>, b: seq<T>, c: seq<T>, e: seq<T>, j: int)
    requires 0 <= j < |a| + |b| + |c| + |e|
    ensures j < |a| ==> (a + b + c + e)[j] == a[j]
    ensures |a| <= j < |a| + |b| ==> (a + b + c + e)[j] == b[j - |a|]
    ensures |a| + |b| <= j < |a| + |b| + |c| ==> (a + b + c + e)[j] == c[j - |a| - |b|]
    ensures |a| + |b| + |c| <= j ==> (a + b + c + e)[j] == e[j - |a| - |b| - |c|]
  {
  }

  /** Every entry of the list of all lines is a line of some family. */
  lemma AllLinesCover(g: Grid, j: int) returns (f: Family, d: int)
    requires 0 <= j < |AllLines(g)|
    ensures 0 <= d < FamilySize(f) && j == Base(f) + d
    ensures AllLines(g)[j] == Line(g, f, d)
  {
    if j < Base(Col) {
      f, d := Row, j;
    } else if j < Base(UpDiag) {
      f, d := Col, j - Base(Col);
    } else if j < Base(DnDiag) {
      f, d := UpDiag, j - Base(UpDiag);
    } else {
      f, d := DnDiag, j - Base(DnDiag);
    }
    AllLinesAt(g, f, d);
  }

  // ---------------------------------------------------------------------
  // Scores

  /** The line analysis a score is built from: the code as written, or the corrected one. */
  datatype Analysis = AsWritten | Corrected

  /** The value of a line for `player` under analysis `a`. */
  function LineValue(a: Analysis, line: seq<char>, player: Player): (r: int)
    ensures 0 <= r <= 4
  {
    match a
    case AsWritten => AnalyzeLineAsWritten(line, player)
    case Corrected => AnalyzeLine(line, player)
  }

  /** The value for `player` of each line, in order. */
  function LineScores(lines: seq<seq<char>>, player: Player, a: Analysis): seq<int> {
    seq(|lines|, k requires 0 <= k < |lines| => LineValue(a, lines[k], player))
  }

  /** `_score(player)`: the best value of any of the 38 lines (the program uses `AsWritten`). */
  function Score(g: Grid, player: Player, a: Analysis): int {
    MaxOf(LineScores(AllLines(g), player, a))
  }

  /**
   * The score is a value between 0 and 4, at least the value of every line
   * and equal to that of one of them.
   */
  lemma ScoreIsBestLine(g: Grid, player: Player, a: Analysis) returns (j: int)
    ensures 0 <= Score(g, player, a) <= 4
    ensures 0 <= j < |AllLines(g)| && Score(g, player, a) == LineValue(a, AllLines(g)[j], player)
    ensures forall k :: 0 <= k < |AllLines(g)| ==> LineValue(a, AllLines(g)[k], player) <= Score(g, player, a)
  {
    j := BestLine(AllLines(g), player, a);
    forall k | 0 <= k < |AllLines(g)|
      ensures LineValue(a, AllLines(g)[k], player) <= Score(g, player, a)
    {
      BestBound(AllLines(g), player, a, k);
    }
  }

  /** The best value of a non-empty list of lines is the value of one of them. */
  lemma BestLine(lines: seq<seq<char>>, player: Player, a: Analysis) returns (j: int)
    requires lines != []
    ensures 0 <= j < |lines| && MaxOf(LineScores(lines, player, a)) == LineValue(a, lines[j], player)
  {
    var vals := LineScores(lines, player, a);
    j :| 0 <= j < |vals| && vals[j] == MaxOf(vals);
  }

  /** The best value of a non-empty list of lines is at least the value of each of them. */
  lemma BestBound(lines: seq<seq<char>>, player: Player, a: Analysis, k: int)
    requires 0 <= k < |lines|
    ensures LineValue(a, lines[k], player) <= MaxOf(LineScores(lines, player, a))
  {
    assert LineScores(lines, player, a)[k] == LineValue(a, lines[k], player);
  }

  /** A line of the grid worth 4 under either analysis holds four of the player's pieces in a row on the grid. */
  lemma LineFourIsFour(g: Grid, player: Player, a: Analysis, j: int)
    requires 0 <= j < |AllLines(g)| && LineValue(a, AllLines(g)[j], player) == 4
    ensures HasFour(g, Sym(player))
  {
    var sym := Sym(player);
    var line := AllLines(g)[j];
    AsWrittenNoMore(line, player);
    AnalyzeLineFour(line, player);
    var i :| 0 <= i < |line| && RunAt(line, sym, i);
    var f, d := AllLinesCover(g, j);
    OccursFour(line, i, sym);
    OccurrenceIsFour(g, f, d, i, sym);
  }

  /**
   * With the corrected analysis a player scores 4 exactly when four of
   * their pieces are in a row somewhere; as written, a score of 4 still
   * means four in a row, but four in a row need not score 4.
   */
  lemma ScoreFour(g: Grid, player: Player)
    ensures Score(g, player, Corrected) == 4 <==> HasFour(g, Sym(player))
    ensures Score(g, player, AsWritten) == 4 ==> HasFour(g, Sym(player))
  {
    var sym := Sym(player);
    var j := ScoreIsBestLine(g, player, Corrected);
    if Score(g, player, Corrected) == 4 {
      LineFourIsFour(g, player, Corrected, j);
    }
    var w := ScoreIsBestLine(g, player, AsWritten);
    if Score(g, player, AsWritten) == 4 {
      LineFourIsFour(g, player, AsWritten, w);
    }
    if HasFour(g, sym) {
      var f, r, c :| FourAt(g, f, r, c, sym);
      FourIsOccurrence(g, f, r, c, sym);
      var d, k := IndexOf(f, r, c), OffsetOf(f, r, c);
      var line := Line(g, f, d);
      LineCell(g, f, d, 0);
      OccursFour(line, k, sym);
      assert RunAt(line, sym, k);
      AnalyzeLineFour(line, player);
      AllLinesAt(g, f, d);
    }
  }

  /** The score as written never exceeds the corrected score. */
  lemma ScoreAsWrittenNoMore(g: Grid, player: Player)
    ensures Score(g, player, AsWritten) <= Score(g, player, Corrected)
  {
    var j := ScoreIsBestLine(g, player, AsWritten);
    var _ := ScoreIsBestLine(g, player, Corrected);
    AsWrittenNoMore(AllLines(g)[j], player);
  }

  /**
   * `_static_eval` of a node in state `state` on grid `g`: 5 when the first
   * player has won, -5 when the second has, 0 for a tie, and otherwise the
   * difference of the two players' scores.
   */
  function StaticEval(state: GameState, g: Grid, a: Analysis): (v: int)
    ensures -5 <= v <= 5
  {
    match state
    case P1Won => 5
    case P2Won => -5
    case Tie => 0
    case InProgress =>
      ScoreFacts(g, a);
      Score(g, 0, a) - Score(g, 1, a)
  }

  lemma ScoreFacts(g: Grid, a: Analysis)
    ensures 0 <= Score(g, 0, a) <= 4 && 0 <= Score(g, 1, a) <= 4
  {
    var _ := ScoreIsBestLine(g, 0, a);
    var _ := ScoreIsBestLine(g, 1, a);
  }

  /**
   * On the state of the grid itself, the evaluation is 5 exactly when the
   * first player has four in a row, -5 exactly when only the second has,
   * and for a game still in progress lies between -3 and 3, as neither
   * player can then score 4.
   */
  lemma StaticEvalMeaning(g: Grid, a: Analysis)
    ensures StaticEval(StateOf(g), g, a) == 5 <==> HasFour(g, Sym(0))
    ensures StaticEval(StateOf(g), g, a) == -5 <==> !HasFour(g, Sym(0)) && HasFour(g, Sym(1))
    ensures StateOf(g) == Tie ==> StaticEval(StateOf(g), g, a) == 0
    ensures StateOf(g) == InProgress ==>
      StaticEval(StateOf(g), g, a) == Score(g, 0, a) - Score(g, 1, a) && -3 <= StaticEval(StateOf(g), g, a) <= 3
  {
    StateOfMeaning(g);
    ScoreFacts(g, Corrected);
    ScoreFacts(g, a);
    ScoreFour(g, 0);
    ScoreFour(g, 1);
    ScoreAsWrittenNoMore(g, 0);
    ScoreAsWrittenNoMore(g, 1);
  }

  // ---------------------------------------------------------------------
  // The static evaluation after the moves 1, 1, 0

  /**
   * The board after the first player plays column 1, the second column 1
   * and the first column 0: the first player holds the two left cells of
   * the bottom row, the second the cell above column 1.
   */
  function ThreeMoves(): Grid {
    seq(HEIGHT, r requires 0 <= r < HEIGHT => seq(WIDTH, c requires 0 <= c < WIDTH => ThreeMovesCell(r, c)))
  }

  function ThreeMovesCell(r: int, c: int): char {
    if r == HEIGHT - 1 && c < 2 then Sym(0) else if r == HEIGHT - 2 && c == 1 then Sym(1) else EMPTY
  }

  lemma ThreeMovesAt(r: int, c: int)
    requires InGrid(r, c)
    ensures ThreeMoves()[r][c] == ThreeMovesCell(r, c)
  {
  }

  /** Two grids with the same cells are the same grid. */
  lemma SameCells(g: Grid, h: Grid)
    requires forall r, c :: InGrid(r, c) ==> g[r][c] == h[r][c]
    ensures g == h
  {
    forall r | 0 <= r < HEIGHT
      ensures g[r] == h[r]
    {
      assert forall c :: 0 <= c < WIDTH ==> g[r][c] == h[r][c];
    }
  }

  /** The first move, column 1, lands on the bottom row. */
  lemma FirstMove() returns (g1: Grid)
    ensures CanDrop(EmptyGrid(), 1) && g1 == Dropped(EmptyGrid(), 1, Sym(0))
    ensures forall r, c :: InGrid(r, c) ==> g1[r][c] == if r == HEIGHT - 1 && c == 1 then Sym(0) else EMPTY
  {
    var g0 := EmptyGrid();
    DroppedChangesOneCell(g0, 1, Sym(0));
    g1 := Dropped(g0, 1, Sym(0));
  }

  /** The second move, column 1 again, lands on the first piece. */
  lemma SecondMove(g1: Grid) returns (g2: Grid)
    requires forall r, c :: InGrid(r, c) ==> g1[r][c] == if r == HEIGHT - 1 && c == 1 then Sym(0) else EMPTY
    ensures CanDrop(g1, 1) && g2 == Dropped(g1, 1, Sym(1))
    ensures forall r, c :: InGrid(r, c) ==>
      g2[r][c] == if r == HEIGHT - 1 && c == 1 then Sym(0) else if r == HEIGHT - 2 && c == 1 then Sym(1) else EMPTY
  {
    assert g1[0][1] == EMPTY;
    DroppedChangesOneCell(g1, 1, Sym(1));
    g2 := Dropped(g1, 1, Sym(1));
    assert g1[HEIGHT - 1][1] != EMPTY;
  }

  /** The third move, column 0, lands on the bottom row. */
  lemma ThirdMove(g2: Grid) returns (g3: Grid)
    requires forall r, c :: InGrid(r, c) ==>
      g2[r][c] == if r == HEIGHT - 1 && c == 1 then Sym(0) else if r == HEIGHT - 2 && c == 1 then Sym(1) else EMPTY
    ensures CanDrop(g2, 0) && g3 == Dropped(g2, 0, Sym(0))
    ensures forall r, c :: InGrid(r, c) ==> g3[r][c] == ThreeMovesCell(r, c)
  {
    assert g2[0][0] == EMPTY;
    DroppedChangesOneCell(g2, 0, Sym(0));
    g3 := Dropped(g2, 0, Sym(0));
  }

  /** `ThreeMoves` is the board those three moves make from the empty board. */
  lemma ThreeMovesPlayed()
    ensures CanDrop(EmptyGrid(), 1)
    ensures CanDrop(Dropped(EmptyGrid(), 1, Sym(0)), 1)
    ensures CanDrop(Dropped(Dropped(EmptyGrid(), 1, Sym(0)), 1, Sym(1)), 0)
    ensures ThreeMoves() == Dropped(Dropped(Dropped(EmptyGrid(), 1, Sym(0)), 1, Sym(1)), 0, Sym(0))
  {
    var g1 := FirstMove();
    var g2 := SecondMove(g1);
    var g3 := ThirdMove(g2);
    forall r, c | InGrid(r, c)
      ensures ThreeMoves()[r][c] == g3[r][c]
    {
      ThreeMovesAt(r, c);
    }
    SameCells(ThreeMoves(), g3);
  }

  /** No line other than the bottom row holds two of the first player's pieces on `ThreeMoves`. */
  lemma FirstPiecesOnLine(f: Family, d: int)
    requires 0 <= d < FamilySize(f) && (f, d) != (Row, HEIGHT - 1)
    ensures Count(Line(ThreeMoves(), f, d), Sym(0)) <= 1
  {
    var g, x := ThreeMoves(), Sym(0);
    var line := Line(g, f, d);
    LineCell(g, f, d, 0);
    forall i, j | 0 <= i < j < |line| && line[i] == x
      ensures line[j] != x
    {
      LineCell(g, f, d, i);
      LineCell(g, f, d, j);
      LineCellIndex(f, d, i);
      LineCellIndex(f, d, j);
      ThreeMovesAt(CellRow(f, d, i), CellCol(f, d, i));
      ThreeMovesAt(CellRow(f, d, j), CellCol(f, d, j));
    }
    CountAtMostOne(line, x);
  }

  /** No line holds two of the second player's pieces on `ThreeMoves`. */
  lemma SecondPiecesOnLine(f: Family, d: int)
    requires 0 <= d < FamilySize(f)
    ensures Count(Line(ThreeMoves(), f, d), Sym(1)) <= 1
  {
    var g, x := ThreeMoves(), Sym(1);
    var line := Line(g, f, d);
    LineCell(g, f, d, 0);
    forall i, j | 0 <= i < j < |line| && line[i] == x
      ensures line[j] != x
    {
      LineCell(g, f, d, i);
      LineCell(g, f, d, j);
      LineCellIndex(f, d, i);
      LineCellIndex(f, d, j);
      ThreeMovesAt(CellRow(f, d, i), CellCol(f, d, i));
      ThreeMovesAt(CellRow(f, d, j), CellCol(f, d, j));
    }
    CountAtMostOne(line, x);
  }

  /** The lines of `ThreeMoves` that decide the two scores. */
  lemma ThreeMovesLines()
    ensures Line(ThreeMoves(), Row, HEIGHT - 1) == "##....."
    ensures Line(ThreeMoves(), Row, HEIGHT - 2) == ".+....."
    ensures Line(ThreeMoves(), Col, 0) == ".....#"
  {
    var g := ThreeMoves();
    forall i | 0 <= i < WIDTH
      ensures Line(g, Row, HEIGHT - 1)[i] == "##....."[i] && Line(g, Row, HEIGHT - 2)[i] == ".+....."[i]
    {
      ThreeMovesAt(HEIGHT - 1, i);
      ThreeMovesAt(HEIGHT - 2, i);
    }
    forall i | 0 <= i < HEIGHT
      ensures Line(g, Col, 0)[i] == ".....#"[i]
    {
      ThreeMovesAt(i, 0);
    }
  }

  /** The bottom row is worth nothing to the first player as written, 2 corrected. */
  lemma BottomRowValue()
    ensures AnalyzeLineAsWritten("##.....", 0) == 0 && AnalyzeLine("##.....", 0) == 2
  {
    var line := "##.....";
    AnalyzeOpenLine(line, 0);
    assert Chains(line, '#', 2) == [];
    assert Chains(line, '#', 0) == [CountRange(line, '#', 0, 4)] + Chains(line, '#', 2);
  }

  /** Column 0 is worth 1 to the first player as written. */
  lemma FirstColumnValue()
    ensures AnalyzeLineAsWritten(".....#", 0) == 1
  {
    var line := ".....#";
    AnalyzeOpenLine(line, 0);
    assert Chains(line, '#', 0) == [CountRange(line, '#', 5, 6)] + Chains(line, '#', 7);
  }

  /** The row above the bottom one is worth 1 to the second player under either analysis. */
  lemma SecondRowValue()
    ensures AnalyzeLineAsWritten(".+.....", 1) == 1 && AnalyzeLine(".+.....", 1) == 1
  {
    var line := ".+.....";
    AnalyzeOpenLine(line, 1);
    assert Chains(line, '+', 3) == [];
    assert Chains(line, '+', 0) == [CountRange(line, '+', 1, 5)] + Chains(line, '+', 3);
  }

  /**
   * After the moves 1, 1, 0 the game is in progress; the first player
   * scores 1 as written (their two bottom pieces start the row) and 2
   * corrected, the second scores 1 either way, so the static evaluation is
   * 0 as written and 1 corrected.
   */
  lemma ThreeMovesEval()
    ensures StateOf(ThreeMoves()) == InProgress
    ensures Score(ThreeMoves(), 0, AsWritten) == 1 && Score(ThreeMoves(), 0, Corrected) == 2
    ensures Score(ThreeMoves(), 1, AsWritten) == 1 && Score(ThreeMoves(), 1, Corrected) == 1
    ensures StaticEval(StateOf(ThreeMoves()), ThreeMoves(), AsWritten) == 0
    ensures StaticEval(StateOf(ThreeMoves()), ThreeMoves(), Corrected) == 1
  {
    var g := ThreeMoves();
    FirstScores(g);
    SecondScores(g);
    ScoreFour(g, 0);
    ScoreFour(g, 1);
    StateOfMeaning(g);
    assert g[0][0] == EMPTY;
  }

  lemma FirstScores(g: Grid)
    requires g == ThreeMoves()
    ensures Score(g, 0, AsWritten) == 1 && Score(g, 0, Corrected) == 2
  {
    ThreeMovesLines();
    BottomRowValue();
    FirstColumnValue();
    AllLinesAt(g, Row, HEIGHT - 1);
    AllLinesAt(g, Col, 0);
    BestBound(AllLines(g), 0, Corrected, Base(Row) + HEIGHT - 1);
    BestBound(AllLines(g), 0, AsWritten, Base(Col));
    var w := ScoreIsBestLine(g, 0, AsWritten);
    var c := ScoreIsBestLine(g, 0, Corrected);
    FirstLineAtMost(g, w);
    FirstLineAtMost(g, c);
  }

  /** Each line of `ThreeMoves` is worth at most 1 to the first player as written, at most 2 corrected. */
  lemma FirstLineAtMost(g: Grid, j: int)
    requires g == ThreeMoves() && 0 <= j < |AllLines(g)|
    ensures AnalyzeLineAsWritten(AllLines(g)[j], 0) <= 1 && AnalyzeLine(AllLines(g)[j], 0) <= 2
  {
    ThreeMovesLines();
    BottomRowValue();
    var f, d := AllLinesCover(g, j);
    if (f, d) != (Row, HEIGHT - 1) {
      FirstPiecesOnLine(f, d);
      AnalyzeLineAtMostPieces(AllLines(g)[j], 0);
      AsWrittenNoMore(AllLines(g)[j], 0);
    }
  }

  lemma SecondScores(g: Grid)
    requires g == ThreeMoves()
    ensures Score(g, 1, AsWritten) == 1 && Score(g, 1, Corrected) == 1
  {
    ThreeMovesLines();
    SecondRowValue();
    AllLinesAt(g, Row, HEIGHT - 2);
    BestBound(AllLines(g), 1, Corrected, Base(Row) + HEIGHT - 2);
    BestBound(AllLines(g), 1, AsWritten, Base(Row) + HEIGHT - 2);
    var w := ScoreIsBestLine(g, 1, AsWritten);
    var c := ScoreIsBestLine(g, 1, Corrected);
    SecondLineAtMost(g, w);
    SecondLineAtMost(g, c);
  }

  /** Each line of `ThreeMoves` is worth at most 1 to the second player. */
  lemma SecondLineAtMost(g: Grid, j: int)
    requires g == ThreeMoves() && 0 <= j < |AllLines(g)|
    ensures AnalyzeLineAsWritten(AllLines(g)[j], 1) <= 1 && AnalyzeLine(AllLines(g)[j], 1) <= 1
  {
    var f, d := AllLinesCover(g, j);
    SecondPiecesOnLine(f, d);
    AnalyzeLineAtMostPieces(AllLines(g)[j], 1);
    AsWrittenNoMore(AllLines(g)[j], 1);
  }
}
