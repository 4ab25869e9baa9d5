/**
 * What the value of a line means: the number of the player's pieces in the
 * best window of four consecutive cells that holds no opponent piece, that
 * is, 4 minus the fewest pieces the player must add to make four in a row
 * on the line, and 0 when no such window exists.
 */
module LineWindows {
  import opened Grids
  import opened LineAnalysis

  // ---------------------------------------------------------------------
  // Windows of four cells

  /** Every cell of the line is empty or a piece of one of the players. */
  predicate OnBoard(line: seq<char>) {
    forall c :: c in line ==> c == EMPTY || c == Sym(0) || c == Sym(1)
  }

  /** The four cells from `k` on lie on the line and none is an opponent piece. */
  predicate OpenWindow(line: seq<char>, player: Player, k: int) {
    0 <= k && k + 4 <= |line| && Sym(Other(player)) !in line[k..k + 4]
  }

  /** The player's pieces among the four cells from `k` on. */
  function WindowCount(line: seq<char>, player: Player, k: int): nat
    requires 0 <= k && k + 4 <= |line|
  {
    Count(line[k..k + 4], Sym(player))
  }

  /** The best count of an open window starting at `k` or later, 0 if there is none. */
  function BestWindowFrom(line: seq<char>, player: Player, k: nat): nat
    decreases |line| - k
  {
    if k + 4 > |line| then 0
    else
      var rest := BestWindowFrom(line, player, k + 1);
      if OpenWindow(line, player, k) && WindowCount(line, player, k) > rest then WindowCount(line, player, k) else rest
  }

  /** The best count of an open window of the line, 0 if there is none. */
  function BestWindow(line: seq<char>, player: Player): nat {
    BestWindowFrom(line, player, 0)
  }

  /**
   * The best window from `k` on is at least every open window from `k` on,
   * and is 0 or the count of one of them.
   */
  lemma {:induction false} BestWindowFromMeaning(line: seq<char>, player: Player, k: nat)
    decreases |line| - k
    ensures forall j :: k <= j && OpenWindow(line, player, j) ==> WindowCount(line, player, j) <= BestWindowFrom(line, player, k)
    ensures BestWindowFrom(line, player, k) == 0 ||
      exists j :: k <= j && OpenWindow(line, player, j) && WindowCount(line, player, j) == BestWindowFrom(line, player, k)
  {
    if k + 4 <= |line| {
      BestWindowFromMeaning(line, player, k + 1);
    }
  }

  /**
   * The best window is at least every open window, and is 0 or the count
   * of one of them.
   */
  lemma BestWindowMeaning(line: seq<char>, player: Player)
    ensures forall k :: OpenWindow(line, player, k) ==> WindowCount(line, player, k) <= BestWindow(line, player)
    ensures BestWindow(line, player) == 0 ||
      exists k :: OpenWindow(line, player, k) && WindowCount(line, player, k) == BestWindow(line, player)
  {
    BestWindowFromMeaning(line, player, 0);
  }

  /**
   * On a line of the board, the empty cells of an open window are the
   * pieces the player must add to fill it: as many as 4 minus its count.
   */
  lemma WindowNeeds(line: seq<char>, player: Player, k: int)
    requires OnBoard(line) && OpenWindow(line, player, k)
    ensures Count(line[k..k + 4], EMPTY) == 4 - WindowCount(line, player, k)
  {
    var w := line[k..k + 4];
    forall i | 0 <= i < |w|
      ensures w[i] == EMPTY || w[i] == Sym(player)
    {
      assert w[i] in line;
      assert w[i] in w;
      assert Sym(0) == Sym(Other(player)) || Sym(1) == Sym(Other(player));
    }
    CountTwo(w, EMPTY, Sym(player));
  }

  /** A window holds no more `x` than the whole line. */
  lemma WindowAtMost(line: seq<char>, k: int, x: char)
    requires 0 <= k && k + 4 <= |line|
    ensures Count(line[k..k + 4], x) <= Count(line, x)
  {
    assert line == line[..k] + line[k..k + 4] + line[k + 4..];
    CountAppend(line[..k], line[k..k + 4], x);
    CountAppend(line[..k] + line[k..k + 4], line[k + 4..], x);
  }

  /** When four is out of reach on a line of the board, no window is open. */
  lemma HopelessNoWindow(line: seq<char>, player: Player)
    requires OnBoard(line) && Hopeless(line, player)
    ensures BestWindow(line, player) == 0
  {
    BestWindowMeaning(line, player);
    if BestWindow(line, player) != 0 {
      var k :| OpenWindow(line, player, k) && WindowCount(line, player, k) == BestWindow(line, player);
      WindowNeeds(line, player, k);
      WindowAtMost(line, k, EMPTY);
      WindowAtMost(line, k, Sym(player));
    }
  }

  // ---------------------------------------------------------------------
  // Windows across opponent pieces

  /** An opponent piece between `a` and `b` closes every window over it: the best window is the better of the two sides. */
  lemma WindowsAround(a: seq<char>, b: seq<char>, player: Player)
    ensures var s := a + [Sym(Other(player))] + b;
      BestWindow(s, player) == if BestWindow(a, player) >= BestWindow(b, player) then BestWindow(a, player) else BestWindow(b, player)
  {
    AroundBelowSides(a, b, player);
    LeftSideBelow(a, b, player);
    RightSideBelow(a, b, player);
  }

  /** Every open window around the opponent piece is an open window of one side. */
  lemma AroundBelowSides(a: seq<char>, b: seq<char>, player: Player)
    ensures var s := a + [Sym(Other(player))] + b;
      BestWindow(s, player) <= BestWindow(a, player) || BestWindow(s, player) <= BestWindow(b, player)
  {
    var s := a + [Sym(Other(player))] + b;
    BestWindowMeaning(s, player);
    if BestWindow(s, player) != 0 {
      var k :| OpenWindow(s, player, k) && WindowCount(s, player, k) == BestWindow(s, player);
      GlueClosesWindows(a, b, player, k);
      if k + 4 <= |a| {
        assert s[k..k + 4] == a[k..k + 4];
        assert OpenWindow(a, player, k);
        BestWindowMeaning(a, player);
      } else {
        var j := k - |a| - 1;
        assert s[k..k + 4] == b[j..j + 4];
        assert OpenWindow(b, player, j);
        BestWindowMeaning(b, player);
      }
    }
  }

  /** Every open window of the left side is an open window around the opponent piece. */
  lemma LeftSideBelow(a: seq<char>, b: seq<char>, player: Player)
    ensures BestWindow(a, player) <= BestWindow(a + [Sym(Other(player))] + b, player)
  {
    var s := a + [Sym(Other(player))] + b;
    BestWindowMeaning(a, player);
    if BestWindow(a, player) != 0 {
      var k :| OpenWindow(a, player, k) && WindowCount(a, player, k) == BestWindow(a, player);
      assert s[k..k + 4] == a[k..k + 4];
      assert OpenWindow(s, player, k);
      BestWindowMeaning(s, player);
    }
  }

  /** Every open window of the right side is an open window around the opponent piece. */
  lemma RightSideBelow(a: seq<char>, b: seq<char>, player: Player)
    ensures BestWindow(b, player) <= BestWindow(a + [Sym(Other(player))] + b, player)
  {
    var s := a + [Sym(Other(player))] + b;
    BestWindowMeaning(b, player);
    if BestWindow(b, player) != 0 {
      var j :| OpenWindow(b, player, j) && WindowCount(b, player, j) == BestWindow(b, player);
      var k := j + |a| + 1;
      assert s[k..k + 4] == b[j..j + 4];
      assert OpenWindow(s, player, k);
      BestWindowMeaning(s, player);
    }
  }

  /** No open window covers the opponent piece between `a` and `b`. */
  lemma GlueClosesWindows(a: seq<char>, b: seq<char>, player: Player, k: int)
    ensures OpenWindow(a + [Sym(Other(player))] + b, player, k) ==> k + 4 <= |a| || k > |a|
  {
    var s := a + [Sym(Other(player))] + b;
    if 0 <= k <= |a| < k + 4 <= |s| {
      assert s[k..k + 4][|a| - k] == s[|a|];
    }
  }

  /** The best window of segments joined by opponent pieces is the best window of one of the segments. */
  lemma {:induction false} WindowsInJoin(segs: seq<seq<char>>, player: Player)
    requires |segs| >= 1
    ensures BestWindow(Join(segs, Sym(Other(player))), player) ==
      MaxOf(seq(|segs|, k requires 0 <= k < |segs| => BestWindow(segs[k], player)))
  {
    var x := Sym(Other(player));
    var vals := seq(|segs|, k requires 0 <= k < |segs| => BestWindow(segs[k], player));
    if |segs| > 1 {
      var rest := segs[1..];
      var tail := seq(|rest|, k requires 0 <= k < |rest| => BestWindow(rest[k], player));
      WindowsInJoin(rest, player);
      WindowsAround(segs[0], Join(rest, x), player);
      assert vals == [vals[0]] + tail;
      MaxOfCons(vals[0], tail);
    }
  }

  /** The largest element of `[v] + t` is the larger of `v` and the largest of `t`. */
  lemma MaxOfCons(v: int, t: seq<int>)
    requires |t| > 0
    ensures MaxOf([v] + t) == if v >= MaxOf(t) then v else MaxOf(t)
  {
    var s := [v] + t;
    assert forall k :: 0 <= k < |t| ==> s[k + 1] == t[k];
    var m := if v >= MaxOf(t) then v else MaxOf(t);
    var j :| 0 <= j < |t| && t[j] == MaxOf(t);
    assert m == s[0] || m == s[j + 1];
  }

  // ---------------------------------------------------------------------
  // Chains and windows

  /** Counting cells `lo` to `hi - 1` is counting the slice. */
  lemma {:induction false} CountRangeSlice(line: seq<char>, x: char, lo: nat, hi: nat)
    requires lo <= hi <= |line|
    decreases hi - lo
    ensures CountRange(line, x, lo, hi) == Count(line[lo..hi], x)
  {
    if lo < hi {
      CountRangeSlice(line, x, lo, hi - 1);
      assert line[lo..hi] == line[lo..hi - 1] + [line[hi - 1]];
      CountAppend(line[lo..hi - 1], [line[hi - 1]], x);
    }
  }

  /** A stretch of cells splits into two adjacent ones. */
  lemma {:induction false} CountRangeSplit(line: seq<char>, x: char, lo: nat, mid: nat, hi: nat)
    requires lo <= mid <= hi <= |line|
    decreases hi - mid
    ensures CountRange(line, x, lo, hi) == CountRange(line, x, lo, mid) + CountRange(line, x, mid, hi)
  {
    if mid < hi {
      CountRangeSplit(line, x, lo, mid, hi - 1);
    }
  }

  /** The stretch of up to four cells a chain from `s` covers. */
  function Reach(line: seq<char>, s: nat): nat {
    Min(s + 4, |line|)
  }

  /**
   * Every chain found from `from` on is at most `b` when every stretch of up
   * to four cells from a start at `from` or later is.
   */
  lemma {:induction false} ChainsBelow(line: seq<char>, me: char, from: nat, b: int)
    requires forall s :: from <= s < |line| ==> CountRange(line, me, s, Reach(line, s)) <= b
    decreases |line| - from
    ensures forall j :: 0 <= j < |Chains(line, me, from)| ==> Chains(line, me, from)[j] <= b
  {
    if from < |line| {
      ChainsBelow(line, me, from + 1, b);
      ChainsBelow(line, me, from + 2, b);
      if line[from] == me {
        var t := Chains(line, me, from + 2);
        assert Chains(line, me, from) == [CountRange(line, me, from, Reach(line, from))] + t;
        assert forall j :: 0 <= j < |t| ==> Chains(line, me, from)[j + 1] == t[j];
      }
    }
  }

  /**
   * The stretch of up to four cells from any `k` at or after `from` is
   * matched by a chain found from `from` on, unless it holds none of the
   * player's pieces: a chain starts at or just before it and covers its
   * pieces.
   */
  lemma {:induction false} ChainsCover(line: seq<char>, me: char, from: nat, k: nat)
    requires from <= k < |line|
    decreases |line| - from
    ensures CountRange(line, me, k, Reach(line, k)) == 0 ||
      exists j :: 0 <= j < |Chains(line, me, from)| && Chains(line, me, from)[j] >= CountRange(line, me, k, Reach(line, k))
  {
    var c := CountRange(line, me, k, Reach(line, k));
    assert line[from] == me ==>
      Chains(line, me, from) == [CountRange(line, me, from, Reach(line, from))] + Chains(line, me, from + 2);
    if line[from] != me {
      assert Chains(line, me, from) == Chains(line, me, from + 1);
      if from < k {
        ChainsCover(line, me, from + 1, k);
      } else {
        CountRangeSplit(line, me, k, k + 1, Reach(line, k));
        if k + 1 < |line| {
          CountRangeSplit(line, me, k + 1, Reach(line, k), Reach(line, k + 1));
          ChainsCover(line, me, from + 1, k + 1);
        }
      }
    } else if k == from {
      assert Chains(line, me, from)[0] == c;
    } else if k == from + 1 {
      assert Chains(line, me, from)[0] == CountRange(line, me, from, Reach(line, from));
      CountRangeSplit(line, me, from, from + 1, Reach(line, from));
      CountRangeSplit(line, me, k, Reach(line, from), Reach(line, k));
      CountRangeAll(line, me, Reach(line, from), Reach(line, k));
    } else {
      ChainsCover(line, me, from + 2, k);
      var t := Chains(line, me, from + 2);
      assert Chains(line, me, from)[1..] == t;
      if c != 0 {
        var j :| 0 <= j < |t| && t[j] >= c;
        assert Chains(line, me, from)[j + 1] == t[j];
      }
    }
  }

  /** On a line of four or more cells free of opponent pieces, no stretch a chain covers beats the best window. */
  lemma StretchesBelowBest(line: seq<char>, player: Player)
    requires |line| >= 4 && Sym(Other(player)) !in line
    ensures forall s :: 0 <= s < |line| ==> CountRange(line, Sym(player), s, Reach(line, s)) <= BestWindow(line, player)
  {
    var me := Sym(player);
    BestWindowMeaning(line, player);
    forall s | 0 <= s < |line|
      ensures CountRange(line, me, s, Reach(line, s)) <= BestWindow(line, player)
    {
      var w := if s + 4 <= |line| then s else |line| - 4;
      assert forall c :: c in line[w..w + 4] ==> c in line;
      assert OpenWindow(line, player, w);
      CountRangeSplit(line, me, w, s, Reach(line, s));
      CountRangeSplit(line, me, w, Reach(line, s), w + 4);
      CountRangeSlice(line, me, w, w + 4);
    }
  }

  /** On a line of four or more cells free of opponent pieces, the best chain is the best window. */
  lemma OpenLineWindows(line: seq<char>, player: Player)
    requires |line| >= 4 && Sym(Other(player)) !in line
    ensures MaxOr0(Chains(line, Sym(player), 0)) == BestWindow(line, player)
  {
    var me := Sym(player);
    var chains := Chains(line, me, 0);
    StretchesBelowBest(line, player);
    ChainsRange(line, me, 0);
    ChainsBelow(line, me, 0, BestWindow(line, player));
    BestWindowMeaning(line, player);
    if BestWindow(line, player) != 0 {
      var k :| OpenWindow(line, player, k) && WindowCount(line, player, k) == BestWindow(line, player);
      CountRangeSlice(line, me, k, k + 4);
      assert Reach(line, k) == k + 4;
      ChainsCover(line, me, 0, k);
    }
  }

  // ---------------------------------------------------------------------
  // The value of a line is its best window

  /** The segments of a line of the board are lines of the board. */
  lemma SegmentsOnBoard(line: seq<char>, x: char, k: int)
    requires OnBoard(line) && 0 <= k < |Split(line, x)|
    ensures OnBoard(Split(line, x)[k])
  {
    var segs := Split(line, x);
    JoinSplit(line, x);
    forall c | c in segs[k]
      ensures c in line
    {
      CountZero(segs[k], c);
      CountInJoin(segs, x, c, k);
      CountZero(line, c);
    }
  }

  /**
   * On a line of the board, the corrected analysis is the best window:
   * 4 minus the fewest pieces the player must add for four in a row, 0 when
   * no window of four is free of opponent pieces. The analysis as written
   * never exceeds it.
   */
  lemma {:induction false} AnalyzeLineBestWindow(line: seq<char>, player: Player)
    requires OnBoard(line)
    decreases |line|
    ensures AnalyzeLine(line, player) == BestWindow(line, player)
    ensures AnalyzeLineAsWritten(line, player) <= BestWindow(line, player)
  {
    var other := Sym(Other(player));
    AsWrittenNoMore(line, player);
    if Hopeless(line, player) {
      HopelessNoWindow(line, player);
    } else if Count(line, other) > 0 {
      var segs := Split(line, other);
      forall k | 0 <= k < |segs|
        ensures AnalyzeLine(segs[k], player) == BestWindow(segs[k], player)
      {
        SegmentsOnBoard(line, other, k);
        AnalyzeLineBestWindow(segs[k], player);
      }
      assert seq(|segs|, k requires 0 <= k < |segs| => AnalyzeLine(segs[k], player)) ==
        seq(|segs|, k requires 0 <= k < |segs| => BestWindow(segs[k], player));
      JoinSplit(line, other);
      WindowsInJoin(segs, player);
    } else {
      CountZero(line, other);
      OpenLineWindows(line, player);
    }
  }
}
