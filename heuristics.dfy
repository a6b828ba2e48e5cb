/** The agent's static evaluation of a board: seven terms, each a scan of the cells,
    stated here as functions of the board value and combined with fixed weights. */
module Heuristics {
  import opened Lines
  import opened Grids

  /** The directions in the order the agent tries them. */
  const Moves: seq<Direction> := [South, West, East, North]

  function Max(a: int, b: int): (r: int)
    ensures r >= a && r >= b && (r == a || r == b)
  {
    if a >= b then a else b
  }

  function Abs(a: int): (r: int)
    ensures r >= 0 && (r == 0 <==> a == 0)
  {
    if a < 0 then -a else a
  }

  // ---------------------------------------------------------------------------
  // getHighestTileScore: the largest cell, starting from 0
  // ---------------------------------------------------------------------------

  /** The largest of 0 and the first n cells of a row. */
  function RowMax(s: seq<int>, n: nat): int
    requires n <= |s|
  {
    if n == 0 then 0 else Max(RowMax(s, n - 1), s[n - 1])
  }

  /** The largest of 0 and the cells of the first n rows. */
  function RowsMax(g: Grid, n: nat): int
    requires n <= |g|
  {
    if n == 0 then 0 else Max(RowsMax(g, n - 1), RowMax(g[n - 1], |g[n - 1]|))
  }

  function HighestTile(g: Grid): int
  {
    RowsMax(g, |g|)
  }

  lemma {:induction false} RowMaxIsMax(s: seq<int>, n: nat)
    requires n <= |s|
    ensures RowMax(s, n) >= 0
    ensures forall x :: 0 <= x < n ==> s[x] <= RowMax(s, n)
    ensures RowMax(s, n) == 0 || exists x :: 0 <= x < n && s[x] == RowMax(s, n)
  {
    if n > 0 {
      RowMaxIsMax(s, n - 1);
    }
  }

  lemma {:induction false} RowsMaxIsMax(g: Grid, n: nat)
    requires n <= |g|
    ensures RowsMax(g, n) >= 0
    ensures forall y, x :: 0 <= y < n && 0 <= x < |g[y]| ==> g[y][x] <= RowsMax(g, n)
    ensures RowsMax(g, n) == 0 || exists y, x :: 0 <= y < n && 0 <= x < |g[y]| && g[y][x] == RowsMax(g, n)
  {
    if n > 0 {
      RowsMaxIsMax(g, n - 1);
      RowMaxIsMax(g[n - 1], |g[n - 1]|);
      if RowsMax(g, n) != 0 && RowsMax(g, n) != RowsMax(g, n - 1) {
        var x :| 0 <= x < |g[n - 1]| && g[n - 1][x] == RowMax(g[n - 1], |g[n - 1]|);
        assert g[n - 1][x] == RowsMax(g, n);
      }
    }
  }

  /** The highest-tile term is at least 0, no cell exceeds it, and unless it is 0 some
      cell holds it. */
  lemma HighestTileIsMax(g: Grid)
    requires IsGrid(g)
    ensures HighestTile(g) >= 0
    ensures forall y, x :: 0 <= y < Height(g) && 0 <= x < Width(g) ==> g[y][x] <= HighestTile(g)
    ensures HighestTile(g) == 0 || exists y, x :: 0 <= y < Height(g) && 0 <= x < Width(g) && g[y][x] == HighestTile(g)
  {
    RowsMaxIsMax(g, |g|);
  }

  // ---------------------------------------------------------------------------
  // getEmptySpaceScore: 200 per empty cell
  // ---------------------------------------------------------------------------

  /** The number of empty cells among the first n of a row. */
  function RowEmpty(s: seq<int>, n: nat): nat
    requires n <= |s|
  {
    if n == 0 then 0 else RowEmpty(s, n - 1) + (if s[n - 1] == 0 then 1 else 0)
  }

  /** The number of empty cells in the first n rows. */
  function RowsEmpty(g: Grid, n: nat): nat
    requires n <= |g|
  {
    if n == 0 then 0 else RowsEmpty(g, n - 1) + RowEmpty(g[n - 1], |g[n - 1]|)
  }

  function EmptyCells(g: Grid): nat
  {
    RowsEmpty(g, |g|)
  }

  lemma {:induction false} RowEmptyAndCount(s: seq<int>, n: nat)
    requires n <= |s|
    ensures RowEmpty(s, n) + CountRow(s, n) == n
    ensures RowEmpty(s, n) > 0 <==> exists x :: 0 <= x < n && s[x] == 0
  {
    if n > 0 {
      RowEmptyAndCount(s, n - 1);
    }
  }

  lemma {:induction false} RowsEmptyAndCount(g: Grid, n: nat)
    requires IsGrid(g) && n <= |g|
    ensures RowsEmpty(g, n) + CountRows(g, n) == n * Width(g)
    ensures RowsEmpty(g, n) > 0 <==> exists y, x :: 0 <= y < n && 0 <= x < Width(g) && g[y][x] == 0
  {
    if n > 0 {
      RowsEmptyAndCount(g, n - 1);
      RowEmptyAndCount(g[n - 1], |g[n - 1]|);
      assert (n - 1) * Width(g) + Width(g) == n * Width(g);
      if RowEmpty(g[n - 1], |g[n - 1]|) > 0 {
        var x :| 0 <= x < |g[n - 1]| && g[n - 1][x] == 0;
        assert 0 <= n - 1 < n && 0 <= x < Width(g) && g[n - 1][x] == 0;
      }
    }
  }

  /** Every cell is either empty or counted by numPieces, and the empty-space term is
      positive exactly when isSpaceLeft holds. */
  lemma EmptyCellsAndPieces(g: Grid)
    requires IsGrid(g)
    ensures EmptyCells(g) + CountPieces(g) == Width(g) * Height(g)
    ensures EmptyCells(g) > 0 <==> SpaceLeft(g)
  {
    RowsEmptyAndCount(g, |g|);
  }

  // ---------------------------------------------------------------------------
  // getMergePotentialScore: twice the values of occupied cells with an equal right
  // or lower neighbour, once per such neighbour
  // ---------------------------------------------------------------------------

  /** What cell (x, y) adds to the merge-potential sum. */
  function PairTerm(g: Grid, x: int, y: int): int
    requires IsGrid(g) && InBounds(g, x, y)
  {
    var v := g[y][x];
    if v == 0 then 0
    else (if x + 1 < Width(g) && g[y][x + 1] == v then v else 0) +
         (if y + 1 < Height(g) && g[y + 1][x] == v then v else 0)
  }

  function PairRow(g: Grid, y: int, n: nat): int
    requires IsGrid(g) && 0 <= y < Height(g) && n <= Width(g)
  {
    if n == 0 then 0 else PairRow(g, y, n - 1) + PairTerm(g, n - 1, y)
  }

  function PairRows(g: Grid, n: nat): int
    requires IsGrid(g) && n <= Height(g)
  {
    if n == 0 then 0 else PairRows(g, n - 1) + PairRow(g, n - 1, Width(g))
  }

  function MergePotential(g: Grid): int
    requires IsGrid(g)
  {
    PairRows(g, Height(g))
  }

  /** An occupied cell with an equal right or lower neighbour. */
  predicate HasEqualNeighbour(g: Grid, x: int, y: int)
    requires IsGrid(g) && InBounds(g, x, y)
  {
    g[y][x] != 0 &&
    ((x + 1 < Width(g) && g[y][x + 1] == g[y][x]) || (y + 1 < Height(g) && g[y + 1][x] == g[y][x]))
  }

  lemma {:induction false} PairRowSign(g: Grid, y: int, n: nat)
    requires IsGrid(g) && NonNegative(g) && 0 <= y < Height(g) && n <= Width(g)
    ensures PairRow(g, y, n) >= 0
    ensures PairRow(g, y, n) > 0 <==> exists x :: 0 <= x < n && HasEqualNeighbour(g, x, y)
  {
    if n > 0 {
      PairRowSign(g, y, n - 1);
      NonNegativeAll(g);
      assert g[y][n - 1] >= 0;
      assert PairTerm(g, n - 1, y) >= 0;
      assert PairTerm(g, n - 1, y) > 0 <==> HasEqualNeighbour(g, n - 1, y);
    }
  }

  lemma {:induction false} PairRowsSign(g: Grid, n: nat)
    requires IsGrid(g) && NonNegative(g) && n <= Height(g)
    ensures PairRows(g, n) >= 0
    ensures PairRows(g, n) > 0 <==> exists y, x :: 0 <= y < n && 0 <= x < Width(g) && HasEqualNeighbour(g, x, y)
  {
    if n > 0 {
      PairRowsSign(g, n - 1);
      PairRowSign(g, n - 1, Width(g));
      if PairRow(g, n - 1, Width(g)) > 0 {
        var x :| 0 <= x < Width(g) && HasEqualNeighbour(g, x, n - 1);
        assert 0 <= n - 1 < n;
      }
    }
  }

  /** On a board of non-negative tiles the merge-potential sum is non-negative, and
      positive exactly when some occupied cell has an equal right or lower neighbour. */
  lemma MergePotentialSign(g: Grid)
    requires IsGrid(g) && NonNegative(g)
    ensures MergePotential(g) >= 0
    ensures MergePotential(g) > 0 <==>
      exists y, x :: 0 <= y < Height(g) && 0 <= x < Width(g) && HasEqualNeighbour(g, x, y)
  {
    PairRowsSign(g, Height(g));
  }

  // ---------------------------------------------------------------------------
  // getTileSmoothnessScore and getMonotonicityScore: minus the differences between
  // horizontally and vertically adjacent occupied cells
  // ---------------------------------------------------------------------------

  /** The difference between two adjacent cells, counted only when both are occupied. */
  function Gap(a: int, b: int): (r: int)
    ensures r >= 0 && (r == 0 <==> a == 0 || b == 0 || a == b)
  {
    if a != 0 && b != 0 then Abs(a - b) else 0
  }

  /** The gaps between cells x and x + 1 of row y, for x < n. */
  function RowGaps(g: Grid, y: int, n: nat): int
    requires IsGrid(g) && 0 <= y < Height(g) && n < Width(g)
  {
    if n == 0 then 0 else RowGaps(g, y, n - 1) + Gap(g[y][n - 1], g[y][n])
  }

  function RowsGaps(g: Grid, n: nat): int
    requires IsGrid(g) && n <= Height(g)
  {
    if n == 0 then 0 else RowsGaps(g, n - 1) + RowGaps(g, n - 1, Width(g) - 1)
  }

  /** The gaps between cells y and y + 1 of column x, for y < n. */
  function ColGaps(g: Grid, x: int, n: nat): int
    requires IsGrid(g) && 0 <= x < Width(g) && n < Height(g)
  {
    if n == 0 then 0 else ColGaps(g, x, n - 1) + Gap(g[n - 1][x], g[n][x])
  }

  function ColsGaps(g: Grid, n: nat): int
    requires IsGrid(g) && n <= Width(g)
  {
    if n == 0 then 0 else ColsGaps(g, n - 1) + ColGaps(g, n - 1, Height(g) - 1)
  }

  function Smoothness(g: Grid): int
    requires IsGrid(g)
  {
    -RowsGaps(g, Height(g)) - ColsGaps(g, Width(g))
  }

  /** Two cells side by side (x, y) and (x + 1, y) hold different tiles. */
  predicate RowClash(g: Grid, x: int, y: int)
    requires IsGrid(g) && 0 <= y < Height(g) && 0 <= x < Width(g) - 1
  {
    g[y][x] != 0 && g[y][x + 1] != 0 && g[y][x] != g[y][x + 1]
  }

  /** Two cells one above the other, (x, y) and (x, y + 1), hold different tiles. */
  predicate ColClash(g: Grid, x: int, y: int)
    requires IsGrid(g) && 0 <= y < Height(g) - 1 && 0 <= x < Width(g)
  {
    g[y][x] != 0 && g[y + 1][x] != 0 && g[y][x] != g[y + 1][x]
  }

  lemma {:induction false} RowGapsSign(g: Grid, y: int, n: nat)
    requires IsGrid(g) && 0 <= y < Height(g) && n < Width(g)
    ensures RowGaps(g, y, n) >= 0
    ensures RowGaps(g, y, n) == 0 <==> forall x :: 0 <= x < n ==> !RowClash(g, x, y)
  {
    if n > 0 {
      RowGapsSign(g, y, n - 1);
      assert Gap(g[y][n - 1], g[y][n]) == 0 <==> !RowClash(g, n - 1, y);
    }
  }

  lemma {:induction false} RowsGapsSign(g: Grid, n: nat)
    requires IsGrid(g) && n <= Height(g)
    ensures RowsGaps(g, n) >= 0
    ensures RowsGaps(g, n) == 0 <==> forall y, x :: 0 <= y < n && 0 <= x < Width(g) - 1 ==> !RowClash(g, x, y)
  {
    if n > 0 {
      RowsGapsSign(g, n - 1);
      RowGapsSign(g, n - 1, Width(g) - 1);
    }
  }

  lemma {:induction false} ColGapsSign(g: Grid, x: int, n: nat)
    requires IsGrid(g) && 0 <= x < Width(g) && n < Height(g)
    ensures ColGaps(g, x, n) >= 0
    ensures ColGaps(g, x, n) == 0 <==> forall y :: 0 <= y < n ==> !ColClash(g, x, y)
  {
    if n > 0 {
      ColGapsSign(g, x, n - 1);
      assert Gap(g[n - 1][x], g[n][x]) == 0 <==> !ColClash(g, x, n - 1);
    }
  }

  lemma {:induction false} ColsGapsSign(g: Grid, n: nat)
    requires IsGrid(g) && n <= Width(g)
    ensures ColsGaps(g, n) >= 0
    ensures ColsGaps(g, n) == 0 <==> forall y, x :: 0 <= y < Height(g) - 1 && 0 <= x < n ==> !ColClash(g, x, y)
  {
    if n > 0 {
      ColsGapsSign(g, n - 1);
      ColGapsSign(g, n - 1, Height(g) - 1);
    }
  }

  /** Smoothness is never positive, and it is 0 exactly when no two adjacent occupied
      cells hold different tiles. */
  lemma SmoothnessSign(g: Grid)
    requires IsGrid(g)
    ensures Smoothness(g) <= 0
    ensures Smoothness(g) == 0 <==>
      (forall y, x :: 0 <= y < Height(g) && 0 <= x < Width(g) - 1 ==> !RowClash(g, x, y)) &&
      (forall y, x :: 0 <= y < Height(g) - 1 && 0 <= x < Width(g) ==> !ColClash(g, x, y))
  {
    RowsGapsSign(g, Height(g));
    ColsGapsSign(g, Width(g));
  }

  // ---------------------------------------------------------------------------
  // getCornerTileBonus and getFutureMovePotentialScore
  // ---------------------------------------------------------------------------

  /** Four times the highest tile when the bottom-left cell holds it, else 0. */
  function CornerBonus(g: Grid): int
    requires IsGrid(g)
  {
    if g[Height(g) - 1][0] == HighestTile(g) then 4 * HighestTile(g) else 0
  }

  /** On a board of non-negative tiles the corner bonus is four times the bottom-left
      tile when no cell exceeds it, and 0 otherwise. */
  lemma CornerBonusIff(g: Grid)
    requires IsGrid(g) && NonNegative(g)
    ensures var c := g[Height(g) - 1][0];
      CornerBonus(g) == if forall y, x :: 0 <= y < Height(g) && 0 <= x < Width(g) ==> g[y][x] <= c then 4 * c else 0
  {
    HighestTileIsMax(g);
    NonNegativeAll(g);
    var h, c := Height(g), g[Height(g) - 1][0];
    assert 0 <= h - 1 < h && 0 < Width(g);
    if forall y, x :: 0 <= y < h && 0 <= x < Width(g) ==> g[y][x] <= c {
      if HighestTile(g) != 0 {
        var y, x :| 0 <= y < h && 0 <= x < Width(g) && g[y][x] == HighestTile(g);
        assert g[y][x] <= c;
      }
    }
  }

  /** The number of directions among ms that isMovePossible accepts. */
  function LegalCount(g: Grid, ms: seq<Direction>): nat
    requires IsGrid(g)
  {
    if ms == [] then 0
    else LegalCount(g, ms[..|ms| - 1]) + (if MovePossible(g, ms[|ms| - 1]) then 1 else 0)
  }

  lemma {:induction false} LegalCountBounds(g: Grid, ms: seq<Direction>)
    requires IsGrid(g)
    ensures LegalCount(g, ms) <= |ms|
    ensures LegalCount(g, ms) == 0 <==> forall i :: 0 <= i < |ms| ==> !MovePossible(g, ms[i])
  {
    if ms != [] {
      var n := |ms| - 1;
      LegalCountBounds(g, ms[..n]);
      assert forall i :: 0 <= i < n ==> ms[..n][i] == ms[i];
    }
  }

  /** The future-mobility term lies between 0 and 200, and is 0 exactly when no move is
      possible. */
  lemma FutureMovesBounds(g: Grid)
    requires IsGrid(g)
    ensures 0 <= 50 * LegalCount(g, Moves) <= 200
    ensures LegalCount(g, Moves) == 0 <==> !AnyMovePossible(g)
  {
    LegalCountBounds(g, Moves);
    assert Moves[0] == South && Moves[1] == West && Moves[2] == East && Moves[3] == North;
  }

  // ---------------------------------------------------------------------------
  // evaluateBoard
  // ---------------------------------------------------------------------------

  /** The weighted sum of the seven terms. Monotonicity is computed by the same scan as
      smoothness, so the smoothness value stands for both. */
  function Evaluation(g: Grid): real
    requires IsGrid(g)
  {
    (HighestTile(g) as real) * 1.0 +
    ((200 * EmptyCells(g)) as real) * 2.0 +
    ((2 * MergePotential(g)) as real) * 3.0 +
    (Smoothness(g) as real) * 1.5 +
    (Smoothness(g) as real) * 1.0 +
    (CornerBonus(g) as real) * 2.0 +
    ((50 * LegalCount(g, Moves)) as real) * 1.0
  }
}
