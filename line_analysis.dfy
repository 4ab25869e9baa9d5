/**
 * The line heuristic of the static evaluation (`_analyze_line`): how close
 * a player is to four in a row on one line of the board.
 *
 * A line is split at every opponent piece and each segment is analysed on
 * its own. On a segment free of opponent pieces the analysis scans for
 * chains: a chain starts at a piece of the player and covers at most four
 * cells; its value is the number of the player's pieces it covers. After a
 * chain the scan resumes two cells after the chain's first cell.
 */
module LineAnalysis {
  import opened Wrappers
  import opened Grids

  // ---------------------------------------------------------------------
  // Counting, splitting and joining

  /** The number of occurrences of `x` in `s`, as Python's list.count. */
  function Count(s: seq<char>, x: char): (n: nat)
    ensures n <= |s|
  {
    if s == [] then 0 else (if s[0] == x then 1 else 0) + Count(s[1..], x)
  }

  /** `x` occurs nowhere in `s` exactly when its count is zero. */
  lemma {:induction false} CountZero(s: seq<char>, x: char)
    ensures Count(s, x) == 0 <==> x !in s
  {
    if s != [] {
      CountZero(s[1..], x);
      assert s == [s[0]] + s[1..];
    }
  }

  lemma {:induction false} CountAppend(a: seq<char>, b: seq<char>, x: char)
    ensures Count(a + b, x) == Count(a, x) + Count(b, x)
  {
    if a == [] {
      assert a + b == b;
    } else {
      assert (a + b)[1..] == a[1..] + b;
      CountAppend(a[1..], b, x);
    }
  }

  /** When no occurrence of `x` in `s` is followed by another, `x` occurs at most once. */
  lemma {:induction false} CountAtMostOne(s: seq<char>, x: char)
    requires forall i, j :: 0 <= i < j < |s| && s[i] == x ==> s[j] != x
    ensures Count(s, x) <= 1
  {
    if s != [] {
      var t := s[1..];
      assert forall k :: 0 <= k < |t| ==> t[k] == s[k + 1];
      if s[0] == x {
        CountZero(t, x);
      } else {
        CountAtMostOne(t, x);
      }
    }
  }

  /** Every cell of `s` is `x` exactly when `x` occurs in `s` as often as `s` is long. */
  lemma {:induction false} CountAll(s: seq<char>, x: char)
    ensures Count(s, x) == |s| <==> forall k :: 0 <= k < |s| ==> s[k] == x
  {
    if s != [] {
      CountAll(s[1..], x);
      if forall k :: 0 <= k < |s| ==> s[k] == x {
        assert forall k :: 0 <= k < |s[1..]| ==> s[1..][k] == s[k + 1];
      }
      if Count(s, x) == |s| {
        assert s[0] == x;
        forall k | 0 <= k < |s|
          ensures s[k] == x
        {
          if k > 0 {
            assert s[k] == s[1..][k - 1];
          }
        }
      }
    }
  }

  /** The pieces of `s` between the occurrences of `x`, as Python's str.split(x). */
  function Split(s: seq<char>, x: char): (segs: seq<seq<char>>)
    ensures |segs| == Count(s, x) + 1
    ensures forall k :: 0 <= k < |segs| ==> x !in segs[k]
    ensures forall k :: 0 <= k < |segs| ==> |segs[k]| + Count(s, x) <= |s|
  {
    if s == [] then [[]]
    else
      var rest := Split(s[1..], x);
      if s[0] == x then [[]] + rest
      else [[s[0]] + rest[0]] + rest[1..]
  }

  /** The segments glued back together with `x` between consecutive ones, as str.join. */
  function Join(segs: seq<seq<char>>, x: char): seq<char>
    requires |segs| >= 1
  {
    if |segs| == 1 then segs[0] else segs[0] + [x] + Join(segs[1..], x)
  }

  /** Splitting loses nothing: joining the segments gives back the line. */
  lemma {:induction false} JoinSplit(s: seq<char>, x: char)
    ensures Join(Split(s, x), x) == s
  {
    if s != [] {
      var rest := Split(s[1..], x);
      JoinSplit(s[1..], x);
      if s[0] == x {
        assert Split(s, x)[1..] == rest;
      } else if |rest| > 1 {
        assert Split(s, x)[1..] == rest[1..];
      }
    }
  }

  /** A piece free of `x` followed by `x` starts a new segment. */
  lemma {:induction false} SplitSegment(a: seq<char>, b: seq<char>, x: char)
    requires x !in a
    ensures Split(a + [x] + b, x) == [a] + Split(b, x)
  {
    if a != [] {
      assert (a + [x] + b)[1..] == a[1..] + [x] + b;
      SplitSegment(a[1..], b, x);
      assert [a[0]] + a[1..] == a;
    }
  }

  lemma {:induction false} SplitNone(a: seq<char>, x: char)
    requires x !in a
    ensures Split(a, x) == [a]
  {
    if a != [] {
      SplitNone(a[1..], x);
      assert [a[0]] + a[1..] == a;
    }
  }

  /** Joining loses nothing either: splitting segments free of `x` joined by `x` gives them back. */
  lemma {:induction false} SplitJoin(segs: seq<seq<char>>, x: char)
    requires |segs| >= 1
    requires forall k :: 0 <= k < |segs| ==> x !in segs[k]
    ensures Split(Join(segs, x), x) == segs
  {
    if |segs| == 1 {
      SplitNone(segs[0], x);
    } else {
      SplitJoin(segs[1..], x);
      SplitSegment(segs[0], Join(segs[1..], x), x);
    }
  }

  // ---------------------------------------------------------------------
  // Four in a row on a line

  /** Four `x` from index `i` of the line on. */
  predicate RunAt(line: seq<char>, x: char, i: int) {
    0 <= i && i + 4 <= |line| && line[i] == x && line[i + 1] == x && line[i + 2] == x && line[i + 3] == x
  }

  ghost predicate HasRun(line: seq<char>, x: char) {
    exists i :: 0 <= i < |line| && RunAt(line, x, i)
  }

  /** Four `y` on `a`, then `x`, then `b` are on `a` or on `b`, as `x` differs from `y`, and conversely. */
  lemma RunAround(a: seq<char>, x: char, b: seq<char>, y: char)
    requires x != y
    ensures HasRun(a + [x] + b, y) <==> HasRun(a, y) || HasRun(b, y)
  {
    var s := a + [x] + b;
    assert forall j :: 0 <= j < |a| ==> s[j] == a[j];
    assert forall j :: 0 <= j < |b| ==> s[j + |a| + 1] == b[j];
    assert s[|a|] == x;
    if HasRun(s, y) {
      var i :| 0 <= i < |s| && RunAt(s, y, i);
      if i + 4 <= |a| {
        assert RunAt(a, y, i);
      } else {
        assert RunAt(b, y, i - |a| - 1);
      }
    }
    if HasRun(a, y) {
      var i :| 0 <= i < |a| && RunAt(a, y, i);
      assert RunAt(s, y, i);
    }
    if HasRun(b, y) {
      var j :| 0 <= j < |b| && RunAt(b, y, j);
      assert RunAt(s, y, j + |a| + 1);
    }
  }

  /** Four in a row of `y` on joined segments is four in a row on one of them, as `y` differs from the glue. */
  lemma {:induction false} RunInJoin(segs: seq<seq<char>>, x: char, y: char)
    requires |segs| >= 1 && x != y
    ensures HasRun(Join(segs, x), y) <==> exists k :: 0 <= k < |segs| && HasRun(segs[k], y)
  {
    if |segs| > 1 {
      RunInJoin(segs[1..], x, y);
      RunAround(segs[0], x, Join(segs[1..], x), y);
      if exists k :: 0 <= k < |segs[1..]| && HasRun(segs[1..][k], y) {
        var k :| 0 <= k < |segs[1..]| && HasRun(segs[1..][k], y);
        assert HasRun(segs[k + 1], y);
      }
      if exists k :: 1 <= k < |segs| && HasRun(segs[k], y) {
        var k :| 1 <= k < |segs| && HasRun(segs[k], y);
        assert HasRun(segs[1..][k - 1], y);
      }
    }
  }

  /** Four in a row needs four pieces. */
  lemma RunCount(line: seq<char>, x: char, i: int)
    requires RunAt(line, x, i)
    ensures Count(line, x) >= 4
  {
    var pre, w, post := line[..i], line[i..i + 4], line[i + 4..];
    assert line == pre + w + post;
    assert forall k :: 0 <= k < |w| ==> w[k] == x;
    CountAll(w, x);
    CountAppend(pre, w, x);
    CountAppend(pre + w, post, x);
  }

  // ---------------------------------------------------------------------
  // Chains and the maximum

  /** The number of cells `x` among cells `lo` to `hi - 1` of the line. */
  function CountRange(line: seq<char>, x: char, lo: nat, hi: nat): nat
    requires lo <= hi <= |line|
    decreases hi - lo
  {
    if lo == hi then 0 else CountRange(line, x, lo, hi - 1) + (if line[hi - 1] == x then 1 else 0)
  }

  /** A stretch holds at most as many `x` as cells, and exactly as many when all its cells are `x`. */
  lemma {:induction false} CountRangeAll(line: seq<char>, x: char, lo: nat, hi: nat)
    requires lo <= hi <= |line|
    decreases hi - lo
    ensures CountRange(line, x, lo, hi) <= hi - lo
    ensures CountRange(line, x, lo, hi) == hi - lo <==> forall k :: lo <= k < hi ==> line[k] == x
    ensures lo < hi && line[lo] == x ==> CountRange(line, x, lo, hi) >= 1
  {
    if lo < hi {
      CountRangeAll(line, x, lo, hi - 1);
    }
  }

  /**
   * The values of the chains the scan finds from index `from` on, on a line
   * free of opponent pieces: each chain starts at a piece `me`, covers up to
   * four cells, and the scan resumes two cells after its first cell.
   */
  function Chains(line: seq<char>, me: char, from: nat): seq<int>
    decreases |line| - from
  {
    if from >= |line| then []
    else if line[from] != me then Chains(line, me, from + 1)
    else [CountRange(line, me, from, Min(from + 4, |line|))] + Chains(line, me, from + 2)
  }

  /** Every chain holds between one and four of the player's pieces. */
  lemma {:induction false} ChainsRange(line: seq<char>, me: char, from: nat)
    decreases |line| - from
    ensures forall k :: 0 <= k < |Chains(line, me, from)| ==> 1 <= Chains(line, me, from)[k] <= 4
  {
    if from < |line| {
      ChainsRange(line, me, from + 1);
      ChainsRange(line, me, from + 2);
      CountRangeAll(line, me, from, Min(from + 4, |line|));
    }
  }

  /** The largest element of a non-empty sequence. */
  function MaxOf(s: seq<int>): (m: int)
    requires |s| > 0
    ensures m in s
    ensures forall k :: 0 <= k < |s| ==> s[k] <= m
  {
    if |s| == 1 then s[0]
    else
      var m := MaxOf(s[..|s| - 1]);
      assert forall k :: 0 <= k < |s| - 1 ==> s[k] == s[..|s| - 1][k];
      if m >= s[|s| - 1] then m else s[|s| - 1]
  }

  /** The maximum of a longer prefix is the larger of the maximum before and the next element. */
  lemma MaxOfNext(s: seq<int>, k: int)
    requires 0 < k < |s|
    ensures MaxOf(s[..k + 1]) == if MaxOf(s[..k]) >= s[k] then MaxOf(s[..k]) else s[k]
  {
    assert s[..k + 1][..k] == s[..k];
  }

  /** `max(counts) if counts else 0`. */
  function MaxOr0(s: seq<int>): (m: int)
    ensures s == [] ==> m == 0
    ensures s != [] ==> m in s && forall k :: 0 <= k < |s| ==> s[k] <= m
  {
    if s == [] then 0 else MaxOf(s)
  }

  /** A chain of value 4 is four in a row. */
  lemma {:induction false} ChainsSound(line: seq<char>, me: char, from: nat)
    decreases |line| - from
    ensures 4 in Chains(line, me, from) ==> HasRun(line, me)
  {
    if from < |line| {
      ChainsSound(line, me, from + 1);
      ChainsSound(line, me, from + 2);
      if line[from] == me {
        CountRangeAll(line, me, from, Min(from + 4, |line|));
        if CountRange(line, me, from, Min(from + 4, |line|)) == 4 {
          assert RunAt(line, me, from);
        }
      }
    }
  }

  /** Four in a row at `i` is found by a scan that starts at or before `i`. */
  lemma {:induction false} ChainsComplete(line: seq<char>, me: char, from: nat, i: int)
    requires from <= i && RunAt(line, me, i)
    decreases |line| - from
    ensures 4 in Chains(line, me, from)
  {
    if line[from] != me {
      ChainsComplete(line, me, from + 1, i);
      assert Chains(line, me, from) == Chains(line, me, from + 1);
    } else if from + 2 <= i {
      ChainsComplete(line, me, from + 2, i);
      assert Chains(line, me, from)[1..] == Chains(line, me, from + 2);
    } else {
      ChainAtRun(line, me, from, i);
    }
  }

  /**
   * The chain starting at `from` covers four in a row at `from` itself, or
   * the three first of four in a row at `from + 1` and the cell before.
   */
  lemma ChainAtRun(line: seq<char>, me: char, from: nat, i: int)
    requires from <= i < from + 2 && RunAt(line, me, i) && line[from] == me
    ensures Chains(line, me, from)[0] == 4
  {
    assert Min(from + 4, |line|) == from + 4;
    CountRangeAll(line, me, from, from + 4);
  }

  // ---------------------------------------------------------------------
  // The analysis of one line

  /** Too short, or too few cells that are empty or the player's: four in a row is out of reach. */
  predicate Hopeless(line: seq<char>, player: Player) {
    |line| < 4 || Count(line, EMPTY) + Count(line, Sym(player)) < 4
  }

  /**
   * The value of a line for `player`: 0 when four is out of reach, else the
   * best value of the segments between opponent pieces, else the value of
   * the best chain. The scan here may start a chain at the first cell of
   * the line; see `AnalyzeLineAsWritten` for the scan without that.
   */
  function AnalyzeLine(line: seq<char>, player: Player): (r: int)
    decreases |line|
    ensures 0 <= r <= 4
  {
    if Hopeless(line, player) then 0
    else if Count(line, Sym(Other(player))) > 0 then
      var segs := Split(line, Sym(Other(player)));
      MaxOf(seq(|segs|, k requires 0 <= k < |segs| => AnalyzeLine(segs[k], player)))
    else
      ChainsRange(line, Sym(player), 0);
      MaxOr0(Chains(line, Sym(player), 0))
  }

  /**
   * The analysis as the loop is written: a chain that would start at the
   * first cell of a segment is never started (its start index 0 is taken
   * as "not started"), and no later chain starts on that segment.
   */
  function AnalyzeLineAsWritten(line: seq<char>, player: Player): (r: int)
    decreases |line|
    ensures 0 <= r <= 4
  {
    if Hopeless(line, player) then 0
    else if Count(line, Sym(Other(player))) > 0 then
      var segs := Split(line, Sym(Other(player)));
      MaxOf(seq(|segs|, k requires 0 <= k < |segs| => AnalyzeLineAsWritten(segs[k], player)))
    else if line[0] == Sym(player) then 0
    else
      ChainsRange(line, Sym(player), 0);
      MaxOr0(Chains(line, Sym(player), 0))
  }

  /**
   * A line shorter than 4, or with fewer than 4 cells that are empty or the
   * player's, is worth 0, both as written and corrected.
   */
  lemma OutOfReach(line: seq<char>, player: Player)
    requires |line| < 4 || Count(line, EMPTY) + Count(line, Sym(player)) < 4
    ensures AnalyzeLine(line, player) == 0 && AnalyzeLineAsWritten(line, player) == 0
  {
  }

  /**
   * A line holding an opponent piece is worth the best value of its segments
   * between opponent pieces, both as written and corrected; when four is out
   * of reach on the line, it is out of reach on every segment too.
   */
  lemma SplitValue(line: seq<char>, player: Player)
    requires Sym(Other(player)) in line
    ensures var segs := Split(line, Sym(Other(player)));
      && AnalyzeLine(line, player) == MaxOf(seq(|segs|, k requires 0 <= k < |segs| => AnalyzeLine(segs[k], player)))
      && AnalyzeLineAsWritten(line, player) ==
           MaxOf(seq(|segs|, k requires 0 <= k < |segs| => AnalyzeLineAsWritten(segs[k], player)))
  {
    var other := Sym(Other(player));
    var segs := Split(line, other);
    CountZero(line, other);
    if Hopeless(line, player) {
      JoinSplit(line, other);
      forall k | 0 <= k < |segs|
        ensures Hopeless(segs[k], player)
      {
        CountInJoin(segs, other, EMPTY, k);
        CountInJoin(segs, other, Sym(player), k);
      }
      var vals := seq(|segs|, k requires 0 <= k < |segs| => AnalyzeLine(segs[k], player));
      var wals := seq(|segs|, k requires 0 <= k < |segs| => AnalyzeLineAsWritten(segs[k], player));
      assert forall k :: 0 <= k < |segs| ==> vals[k] == 0 && wals[k] == 0;
    }
  }

  /** The line is worth 4 exactly when it holds four of the player's pieces in a row. */
  lemma {:induction false} AnalyzeLineFour(line: seq<char>, player: Player)
    decreases |line|, 1
    ensures AnalyzeLine(line, player) == 4 <==> HasRun(line, Sym(player))
  {
    var me := Sym(player);
    if Hopeless(line, player) {
      if HasRun(line, me) {
        var i :| RunAt(line, me, i);
        RunCount(line, me, i);
      }
    } else if Count(line, Sym(Other(player))) > 0 {
      SplitLineFour(line, player);
    } else {
      ChainsSound(line, me, 0);
      if HasRun(line, me) {
        var i :| RunAt(line, me, i);
        assert RunAt(line, me, i);
        ChainsComplete(line, me, 0, i);
      }
    }
  }

  /** A line split at opponent pieces is worth 4 exactly when one of its segments holds four in a row. */
  lemma {:induction false} SplitLineFour(line: seq<char>, player: Player)
    requires !Hopeless(line, player) && Count(line, Sym(Other(player))) > 0
    decreases |line|, 0
    ensures AnalyzeLine(line, player) == 4 <==> HasRun(line, Sym(player))
  {
    var me, other := Sym(player), Sym(Other(player));
    var segs := Split(line, other);
    var vals := seq(|segs|, k requires 0 <= k < |segs| => AnalyzeLine(segs[k], player));
    forall k | 0 <= k < |segs|
      ensures vals[k] == 4 <==> HasRun(segs[k], me)
    {
      assert |segs[k]| < |line|;
      AnalyzeLineFour(segs[k], player);
    }
    JoinSplit(line, other);
    RunInJoin(segs, other, me);
  }

  /** The largest element of a sequence is no larger than that of a pointwise larger one. */
  lemma MaxOfPointwise(s: seq<int>, t: seq<int>)
    requires |s| == |t| > 0
    requires forall k :: 0 <= k < |s| ==> s[k] <= t[k]
    ensures MaxOf(s) <= MaxOf(t)
  {
    var j :| 0 <= j < |s| && s[j] == MaxOf(s);
  }

  /** The analysis as written never values a line above the corrected analysis. */
  lemma {:induction false} AsWrittenNoMore(line: seq<char>, player: Player)
    decreases |line|
    ensures AnalyzeLineAsWritten(line, player) <= AnalyzeLine(line, player)
  {
    if !Hopeless(line, player) && Count(line, Sym(Other(player))) > 0 {
      var segs := Split(line, Sym(Other(player)));
      forall k | 0 <= k < |segs|
        ensures AnalyzeLineAsWritten(segs[k], player) <= AnalyzeLine(segs[k], player)
      {
        AsWrittenNoMore(segs[k], player);
      }
      MaxOfPointwise(
        seq(|segs|, k requires 0 <= k < |segs| => AnalyzeLineAsWritten(segs[k], player)),
        seq(|segs|, k requires 0 <= k < |segs| => AnalyzeLine(segs[k], player)));
    }
  }

  /**
   * On a line free of opponent pieces that starts with four of the player's
   * pieces, the analysis as written scores 0 where the corrected one scores 4.
   */
  lemma AsWrittenMissesLeadingFour(line: seq<char>, player: Player)
    requires RunAt(line, Sym(player), 0) && Sym(Other(player)) !in line
    ensures AnalyzeLineAsWritten(line, player) == 0
    ensures AnalyzeLine(line, player) == 4
  {
    RunCount(line, Sym(player), 0);
    CountZero(line, Sym(Other(player)));
    AnalyzeLineFour(line, player);
  }

  /** The line `####...` is worth 0 to the first player as written, though it holds four of their pieces in a row. */
  lemma AsWrittenMissesFour()
    ensures HasRun("####...", Sym(0))
    ensures AnalyzeLineAsWritten("####...", 0) == 0
    ensures AnalyzeLine("####...", 0) == 4
  {
    assert RunAt("####...", '#', 0);
    AsWrittenMissesLeadingFour("####...", 0);
  }

  // ---------------------------------------------------------------------
  // A line is worth no more than the player's pieces on it

  /** Counting cells `lo` to `hi - 1` adds to the count of the prefix before `lo`. */
  lemma {:induction false} CountRangePrefix(line: seq<char>, x: char, lo: nat, hi: nat)
    requires lo <= hi <= |line|
    decreases hi - lo
    ensures Count(line[..lo], x) + CountRange(line, x, lo, hi) == Count(line[..hi], x)
  {
    if lo < hi {
      CountRangePrefix(line, x, lo, hi - 1);
      assert line[..hi] == line[..hi - 1] + [line[hi - 1]];
      CountAppend(line[..hi - 1], [line[hi - 1]], x);
    }
  }

  /** A stretch of the line holds no more `x` than the whole line. */
  lemma CountRangeAtMost(line: seq<char>, x: char, lo: nat, hi: nat)
    requires lo <= hi <= |line|
    ensures CountRange(line, x, lo, hi) <= Count(line, x)
  {
    CountRangePrefix(line, x, lo, hi);
    assert line == line[..hi] + line[hi..];
    CountAppend(line[..hi], line[hi..], x);
  }

  /** No chain holds more of the player's pieces than the line. */
  lemma {:induction false} ChainsAtMost(line: seq<char>, me: char, from: nat)
    decreases |line| - from
    ensures forall k :: 0 <= k < |Chains(line, me, from)| ==> Chains(line, me, from)[k] <= Count(line, me)
  {
    if from < |line| {
      ChainsAtMost(line, me, from + 1);
      ChainsAtMost(line, me, from + 2);
      CountRangeAtMost(line, me, from, Min(from + 4, |line|));
    }
  }

  /** A segment holds no more `y` than the segments joined. */
  lemma {:induction false} CountInJoin(segs: seq<seq<char>>, x: char, y: char, k: int)
    requires 0 <= k < |segs|
    ensures Count(segs[k], y) <= Count(Join(segs, x), y)
  {
    if |segs| > 1 {
      CountAppend(segs[0] + [x], Join(segs[1..], x), y);
      CountAppend(segs[0], [x], y);
      if k > 0 {
        CountInJoin(segs[1..], x, y, k - 1);
      }
    }
  }

  /** The value of a line never exceeds the number of the player's pieces on it. */
  lemma {:induction false} AnalyzeLineAtMostPieces(line: seq<char>, player: Player)
    decreases |line|
    ensures AnalyzeLine(line, player) <= Count(line, Sym(player))
    ensures AnalyzeLineAsWritten(line, player) <= Count(line, Sym(player))
  {
    AsWrittenNoMore(line, player);
    var me, other := Sym(player), Sym(Other(player));
    if Hopeless(line, player) {
    } else if Count(line, other) > 0 {
      var segs := Split(line, other);
      JoinSplit(line, other);
      var vals := seq(|segs|, k requires 0 <= k < |segs| => AnalyzeLine(segs[k], player));
      var j :| 0 <= j < |segs| && vals[j] == MaxOf(vals);
      AnalyzeLineAtMostPieces(segs[j], player);
      CountInJoin(segs, other, me, j);
    } else {
      ChainsAtMost(line, me, 0);
    }
  }

  // ---------------------------------------------------------------------
  // The loop of `_analyze_line`

  /** `_analyze_line` as written: the guard, the split at opponent pieces, then the scan. */
  method AnalyzeLineScan(line: seq<char>, player: Player) returns (r: int)
    decreases |line|, 1
    ensures r == AnalyzeLineAsWritten(line, player)
  {
    var me, other := Sym(player), Sym(Other(player));
    if |line| < 4 || Count(line, EMPTY) + Count(line, me) < 4 {
      return 0;
    }
    if Count(line, other) > 0 {
      var segs := Split(line, other);
      r := ScanSegments(segs, player, |line|);
      return r;
    }
    var counts := ScanChains(line, me);
    r := if counts == [] then 0 else MaxOf(counts);
  }

  /** `max(self._analyze_line(seg) for seg in segments)`, for segments shorter than `bound`. */
  method ScanSegments(segs: seq<seq<char>>, player: Player, ghost bound: nat) returns (r: int)
    requires segs != [] && forall k :: 0 <= k < |segs| ==> |segs[k]| < bound
    decreases bound, 0
    ensures r == MaxOf(seq(|segs|, k requires 0 <= k < |segs| => AnalyzeLineAsWritten(segs[k], player)))
  {
    ghost var vals := seq(|segs|, k requires 0 <= k < |segs| => AnalyzeLineAsWritten(segs[k], player));
    r := AnalyzeLineScan(segs[0], player);
    for k := 1 to |segs|
      invariant r == MaxOf(vals[..k])
    {
      var v := AnalyzeLineScan(segs[k], player);
      MaxOfNext(vals, k);
      r := if r >= v then r else v;
    }
    assert vals[..|segs|] == vals;
  }

  /**
   * The scanning loop of `_analyze_line`: `started` is the start of the
   * open chain, `left` the cells the chain may still cover and `count` the
   * player's pieces on it so far. Python's `if started:` is false for a
   * start at index 0 as well as for no start.
   */
  method ScanChains(line: seq<char>, me: char) returns (counts: seq<int>)
    ensures counts == if |line| > 0 && line[0] == me then [] else Chains(line, me, 0)
  {
    ghost var target := if |line| > 0 && line[0] == me then [] else Resume(line, me, [], 0);
    counts := [];
    var left := 4;
    var count := 0;
    var started: Option<int> := None;
    var i := 0;
    while i < |line|
      invariant 0 <= i <= |line| + 1
      invariant started == None ==> left == 4 && count == 0
      invariant started.Some? ==> started.value >= 0
      invariant started == None && i == 0 ==> counts == []
      invariant started == None && i > 0 ==> Resume(line, me, counts, i) == target
      invariant started == Some(0) ==> counts == [] && target == [] && i >= 1
      invariant started.Some? && started.value > 0 ==>
        var s := started.value;
        && s < i < |line| && i - s < 4 && left == 4 - (i - s)
        && line[s] == me && count == CountRange(line, me, s, i)
        && Resume(line, me, counts, s) == target
      decreases |line| + 2 - (if started.Some? && started.value > 0 then started.value + 1 else i), |line| + 1 - i
    {
      var sym := line[i];
      if started == None {
        if sym == me {
          started := Some(i);
        }
      }
      if started.Some? && started.value != 0 {
        var s := started.value;
        CountRangeNext(line, me, s, i);
        if sym == me {
          left := left - 1;
          count := count + 1;
        } else {
          left := left - 1;
        }
        if left == 0 || i == |line| - 1 {
          CloseChain(line, me, s, i, counts, count);
          counts := counts + [count];
          i := s + 1;
          count := 0;
          left := 4;
          started := None;
        }
      }
      i := i + 1;
    }
    ResumeChains(line, me, [], 0);
    if started == None && i > 0 {
      ResumeChains(line, me, counts, i);
    }
  }

  /**
   * The chains from index `from` on, after the values `found` so far: the
   * scan of `Chains` with the values it has found carried along.
   */
  function Resume(line: seq<char>, me: char, found: seq<int>, from: nat): seq<int>
    decreases |line| - from
  {
    if from >= |line| then found
    else if line[from] != me then Resume(line, me, found, from + 1)
    else Resume(line, me, found + [CountRange(line, me, from, Min(from + 4, |line|))], from + 2)
  }

  /** Carrying the values found so far amounts to putting them in front of the remaining chains. */
  lemma {:induction false} ResumeChains(line: seq<char>, me: char, found: seq<int>, from: nat)
    decreases |line| - from
    ensures Resume(line, me, found, from) == found + Chains(line, me, from)
  {
    if from >= |line| {
      assert found + [] == found;
    } else if line[from] != me {
      ResumeChains(line, me, found, from + 1);
    } else {
      var c := CountRange(line, me, from, Min(from + 4, |line|));
      ResumeChains(line, me, found + [c], from + 2);
      assert found + [c] + Chains(line, me, from + 2) == found + ([c] + Chains(line, me, from + 2));
    }
  }

  /** Counting one more cell. */
  lemma CountRangeNext(line: seq<char>, x: char, lo: nat, hi: nat)
    requires lo <= hi < |line|
    ensures CountRange(line, x, lo, hi + 1) == CountRange(line, x, lo, hi) + if line[hi] == x then 1 else 0
  {
  }

  /** Closing the chain started at `s` after cell `i` records its value and resumes at `s + 2`. */
  lemma CloseChain(line: seq<char>, me: char, s: nat, i: int, counts: seq<int>, count: int)
    requires s <= i < |line| && line[s] == me
    requires i + 1 == s + 4 || i + 1 == |line|
    requires i - s < 4
    requires count == CountRange(line, me, s, i + 1)
    ensures Resume(line, me, counts, s) == Resume(line, me, counts + [count], s + 1 + 1)
  {
    assert i + 1 == Min(s + 4, |line|);
  }

  /** Every cell of `s` is `a` or `b`: their counts add up to the length of `s`. */
  lemma {:induction false} CountTwo(s: seq<char>, a: char, b: char)
    requires a != b && forall k :: 0 <= k < |s| ==> s[k] == a || s[k] == b
    ensures Count(s, a) + Count(s, b) == |s|
  {
    if s != [] {
      assert forall k :: 0 <= k < |s[1..]| ==> s[1..][k] == s[k + 1];
      CountTwo(s[1..], a, b);
    }
  }

  /**
   * On a line of at least four cells, all empty or the player's, the value
   * is that of the best chain; as written, it is 0 when the line starts
   * with the player's piece and the same otherwise.
   */
  lemma AnalyzeOpenLine(line: seq<char>, player: Player)
    requires |line| >= 4 && forall k :: 0 <= k < |line| ==> line[k] == EMPTY || line[k] == Sym(player)
    ensures AnalyzeLine(line, player) == MaxOr0(Chains(line, Sym(player), 0))
    ensures AnalyzeLineAsWritten(line, player) ==
      if line[0] == Sym(player) then 0 else MaxOr0(Chains(line, Sym(player), 0))
  {
    CountTwo(line, EMPTY, Sym(player));
    assert Sym(Other(player)) !in line;
    CountZero(line, Sym(Other(player)));
  }

  /** A line with one opponent piece is worth the better of its two sides, when four is within reach, as written and corrected. */
  lemma AnalyzeOneOpponent(a: seq<char>, b: seq<char>, player: Player)
    requires Sym(Other(player)) !in a && Sym(Other(player)) !in b
    requires !Hopeless(a + [Sym(Other(player))] + b, player)
    ensures var ra, rb := AnalyzeLine(a, player), AnalyzeLine(b, player);
      AnalyzeLine(a + [Sym(Other(player))] + b, player) == if ra >= rb then ra else rb
    ensures var wa, wb := AnalyzeLineAsWritten(a, player), AnalyzeLineAsWritten(b, player);
      AnalyzeLineAsWritten(a + [Sym(Other(player))] + b, player) == if wa >= wb then wa else wb
  {
    var other := Sym(Other(player));
    var line := a + [other] + b;
    assert line[|a|] == other;
    SplitSegment(a, b, other);
    SplitNone(b, other);
  }

  /** The count condition of the guard for a line glued from two sides around one opponent piece. */
  lemma NotHopelessGlued(a: seq<char>, b: seq<char>, player: Player)
    requires |a| + |b| >= 4
    requires forall k :: 0 <= k < |a| ==> a[k] == EMPTY || a[k] == Sym(player)
    requires forall k :: 0 <= k < |b| ==> b[k] == EMPTY || b[k] == Sym(player)
    ensures !Hopeless(a + [Sym(Other(player))] + b, player)
  {
    var o := Sym(Other(player));
    CountTwo(a, EMPTY, Sym(player));
    CountTwo(b, EMPTY, Sym(player));
    CountAppend(a, [o], EMPTY);
    CountAppend(a + [o], b, EMPTY);
    CountAppend(a, [o], Sym(player));
    CountAppend(a + [o], b, Sym(player));
  }

  // The line fixtures of the project's static-analysis test, for player 0
  // ('#'). Each `BestChainN` works out the chains of an opponent-free line
  // and `LineExampleN` states the value of the fixture's line.

  lemma BestChain1()
    ensures MaxOr0(Chains(".......", '#', 0)) == 0
  {
    ChainsRange(".......", '#', 0);
  }

  lemma LineExample1()
    ensures AnalyzeLine(".......", 0) == 0
    ensures AnalyzeLineAsWritten(".......", 0) == 0
  {
    AnalyzeOpenLine(".......", 0);
    BestChain1();
  }

  lemma BestChain2()
    ensures MaxOr0(Chains("....#..", '#', 0)) == 1
  {
    var line := "....#..";
    assert Chains(line, '#', 0) == Chains(line, '#', 4) == [CountRange(line, '#', 4, 7)] + Chains(line, '#', 6);
    assert Chains(line, '#', 6) == [];
  }

  lemma LineExample2()
    ensures AnalyzeLine("....#..", 0) == 1
    ensures AnalyzeLineAsWritten("....#..", 0) == 1
  {
    AnalyzeOpenLine("....#..", 0);
    BestChain2();
  }

  lemma BestChain3()
    ensures MaxOr0(Chains("..##...", '#', 0)) == 2
  {
    var line := "..##...";
    assert Chains(line, '#', 0) == Chains(line, '#', 2) == [CountRange(line, '#', 2, 6)] + Chains(line, '#', 4);
    assert Chains(line, '#', 4) == [];
  }

  lemma LineExample3()
    ensures AnalyzeLine("..##...", 0) == 2
    ensures AnalyzeLineAsWritten("..##...", 0) == 2
  {
    AnalyzeOpenLine("..##...", 0);
    BestChain3();
  }

  lemma LineExample4()
    ensures AnalyzeLine("..#" + "+" + "...", 0) == 0
    ensures AnalyzeLineAsWritten("..#" + "+" + "...", 0) == 0
  {
    NotHopelessGlued("..#", "...", 0);
    AnalyzeOneOpponent("..#", "...", 0);
  }

  lemma BestChain5()
    ensures MaxOr0(Chains(".##.#..", '#', 0)) == 3
  {
    var line := ".##.#..";
    assert CountRange(line, '#', 1, 5) == 3;
    assert Chains(line, '#', 0) == [3] + Chains(line, '#', 3);
    assert Chains(line, '#', 3) == [CountRange(line, '#', 4, 7)] + Chains(line, '#', 6);
    assert Chains(line, '#', 6) == [];
  }

  lemma LineExample5()
    ensures AnalyzeLine(".##.#..", 0) == 3
    ensures AnalyzeLineAsWritten(".##.#..", 0) == 3
  {
    AnalyzeOpenLine(".##.#..", 0);
    BestChain5();
  }

  lemma BestChain6()
    ensures MaxOr0(Chains(".##..#.", '#', 0)) == 2
  {
    var line := ".##..#.";
    assert CountRange(line, '#', 1, 5) == 2;
    assert Chains(line, '#', 0) == [2] + Chains(line, '#', 3);
    assert Chains(line, '#', 3) == [CountRange(line, '#', 5, 7)] + Chains(line, '#', 7);
  }

  lemma LineExample6()
    ensures AnalyzeLine(".##..#.", 0) == 2
    ensures AnalyzeLineAsWritten(".##..#.", 0) == 2
  {
    AnalyzeOpenLine(".##..#.", 0);
    BestChain6();
  }

  lemma BestChain7()
    ensures MaxOr0(Chains(".#.#.", '#', 0)) == 2
  {
    var a := ".#.#.";
    assert CountRange(a, '#', 1, 5) == 2;
    assert Chains(a, '#', 0) == [2] + Chains(a, '#', 3);
    assert Chains(a, '#', 3) == [CountRange(a, '#', 3, 5)] + Chains(a, '#', 5);
  }

  lemma LineExample7()
    ensures AnalyzeLine(".#.#." + "+" + ".", 0) == 2
    ensures AnalyzeLineAsWritten(".#.#." + "+" + ".", 0) == 2
  {
    AnalyzeOpenLine(".#.#.", 0);
    BestChain7();
    NotHopelessGlued(".#.#.", ".", 0);
    AnalyzeOneOpponent(".#.#.", ".", 0);
  }

  lemma BestChain8()
    ensures MaxOr0(Chains(".#.#.#", '#', 0)) == 2
  {
    var a := ".#.#.#";
    assert CountRange(a, '#', 1, 5) == 2;
    assert Chains(a, '#', 0) == [2] + Chains(a, '#', 3);
    assert CountRange(a, '#', 3, 6) == 2;
    assert Chains(a, '#', 3) == [2] + Chains(a, '#', 5);
    assert Chains(a, '#', 5) == [CountRange(a, '#', 5, 6)] + Chains(a, '#', 7);
    assert Chains(a, '#', 0) == [2, 2, 1];
  }

  lemma LineExample8()
    ensures AnalyzeLine(".#.#.#" + "+" + "", 0) == 2
    ensures AnalyzeLineAsWritten(".#.#.#" + "+" + "", 0) == 2
  {
    AnalyzeOpenLine(".#.#.#", 0);
    BestChain8();
    NotHopelessGlued(".#.#.#", "", 0);
    AnalyzeOneOpponent(".#.#.#", "", 0);
  }
}
