/** The board as a value: `g[y][x]` is the tile in column x of row y (row 0 at the top),
    0 for an empty cell. Every direction cuts the board into lines (rows for EAST and
    WEST, columns for NORTH and SOUTH); a line is read from the edge the move pushes
    toward, so that the neighbour of position p in the move's direction is position p - 1. */
module Grids {
  import opened Lines

  datatype Direction = North | South | East | West

  type Grid = seq<seq<int>>

  /** The displacement of a move along x (columns grow to the east). */
  function Dx(d: Direction): int
  {
    if d == East then 1 else if d == West then -1 else 0
  }

  /** The displacement of a move along y (rows grow to the south). */
  function Dy(d: Direction): int
  {
    if d == South then 1 else if d == North then -1 else 0
  }

  predicate IsGrid(g: Grid)
  {
    |g| >= 1 && |g[0]| >= 1 && forall y :: 0 <= y < |g| ==> |g[y]| == |g[0]|
  }

  function Width(g: Grid): nat
    requires |g| >= 1
  {
    |g[0]|
  }

  function Height(g: Grid): nat
  {
    |g|
  }

  predicate InBounds(g: Grid, x: int, y: int)
    requires IsGrid(g)
  {
    0 <= x < Width(g) && 0 <= y < Height(g)
  }

  predicate SameShape(g: Grid, g': Grid)
  {
    IsGrid(g) && IsGrid(g') && Width(g) == Width(g') && Height(g) == Height(g')
  }

  /** The board with cell (x, y) set to v. */
  function Write(g: Grid, x: int, y: int, v: int): (r: Grid)
    requires IsGrid(g) && InBounds(g, x, y)
    ensures SameShape(g, r) && r[y][x] == v
    ensures forall y', x' :: 0 <= y' < Height(g) && 0 <= x' < Width(g) && (y' != y || x' != x) ==> r[y'][x'] == g[y'][x']
  {
    g[y := g[y][x := v]]
  }

  /** No cell holds a negative value (checked row by row, cell by cell). */
  predicate NonNegative(g: Grid)
    requires IsGrid(g)
  {
    NonNegativeRows(g, |g|)
  }

  predicate NonNegativeRows(g: Grid, n: nat)
    requires n <= |g|
  {
    n == 0 || (NonNegativeRows(g, n - 1) && NonNegativeRow(g[n - 1], |g[n - 1]|))
  }

  predicate NonNegativeRow(s: seq<int>, n: nat)
    requires n <= |s|
  {
    n == 0 || (NonNegativeRow(s, n - 1) && s[n - 1] >= 0)
  }

  lemma {:induction false} NonNegativeRowAll(s: seq<int>, n: nat)
    requires n <= |s|
    ensures NonNegativeRow(s, n) <==> forall x :: 0 <= x < n ==> s[x] >= 0
  {
    if n > 0 {
      NonNegativeRowAll(s, n - 1);
    }
  }

  lemma {:induction false} NonNegativeRowsAll(g: Grid, n: nat)
    requires n <= |g|
    ensures NonNegativeRows(g, n) <==> forall y, x :: 0 <= y < n && 0 <= x < |g[y]| ==> g[y][x] >= 0
  {
    if n > 0 {
      NonNegativeRowsAll(g, n - 1);
      NonNegativeRowAll(g[n - 1], |g[n - 1]|);
    }
  }

  /** NonNegative says what its name says. */
  lemma NonNegativeAll(g: Grid)
    requires IsGrid(g)
    ensures NonNegative(g) <==> forall y, x :: 0 <= y < Height(g) && 0 <= x < Width(g) ==> g[y][x] >= 0
  {
    NonNegativeRowsAll(g, |g|);
  }

  // ---------------------------------------------------------------------------
  // Lines
  // ---------------------------------------------------------------------------

  predicate Horizontal(d: Direction)
  {
    d == East || d == West
  }

  function LineCount(w: nat, h: nat, d: Direction): nat
  {
    if Horizontal(d) then h else w
  }

  function LineLen(w: nat, h: nat, d: Direction): nat
  {
    if Horizontal(d) then w else h
  }

  /** The column of position p of line k. */
  function CellX(w: nat, d: Direction, k: int, p: int): int
  {
    if d == West then p else if d == East then w - 1 - p else k
  }

  /** The row of position p of line k. */
  function CellY(h: nat, d: Direction, k: int, p: int): int
  {
    if d == North then p else if d == South then h - 1 - p else k
  }

  /** The line through cell (x, y). */
  function LineOf(d: Direction, x: int, y: int): int
  {
    if Horizontal(d) then y else x
  }

  /** The position of cell (x, y) on its line. */
  function PosOf(w: nat, h: nat, d: Direction, x: int, y: int): int
  {
    match d
    case West => x
    case East => w - 1 - x
    case North => y
    case South => h - 1 - y
  }

  /** Line positions and cells correspond one to one, and the neighbour of a cell in the
      move's direction is the position in front of it on the same line. */
  lemma CellOfLine(w: nat, h: nat, d: Direction, k: int, p: int)
    requires 0 <= k < LineCount(w, h, d) && 0 <= p < LineLen(w, h, d)
    ensures 0 <= CellX(w, d, k, p) < w && 0 <= CellY(h, d, k, p) < h
    ensures LineOf(d, CellX(w, d, k, p), CellY(h, d, k, p)) == k
    ensures PosOf(w, h, d, CellX(w, d, k, p), CellY(h, d, k, p)) == p
    ensures CellX(w, d, k, p) + Dx(d) == CellX(w, d, k, p - 1)
    ensures CellY(h, d, k, p) + Dy(d) == CellY(h, d, k, p - 1)
  {
  }

  lemma LineOfCell(w: nat, h: nat, d: Direction, x: int, y: int)
    requires 0 <= x < w && 0 <= y < h
    ensures 0 <= LineOf(d, x, y) < LineCount(w, h, d) && 0 <= PosOf(w, h, d, x, y) < LineLen(w, h, d)
    ensures CellX(w, d, LineOf(d, x, y), PosOf(w, h, d, x, y)) == x
    ensures CellY(h, d, LineOf(d, x, y), PosOf(w, h, d, x, y)) == y
  {
  }

  /** Line k of g in direction d, from the edge the move pushes toward. */
  function Line(g: Grid, d: Direction, k: int): (r: seq<int>)
    requires IsGrid(g) && 0 <= k < LineCount(Width(g), Height(g), d)
    ensures |r| == LineLen(Width(g), Height(g), d)
    ensures forall p :: 0 <= p < |r| ==> r[p] == g[CellY(Height(g), d, k, p)][CellX(Width(g), d, k, p)]
  {
    var w, h := Width(g), Height(g);
    seq(LineLen(w, h, d), p requires 0 <= p < LineLen(w, h, d) =>
      CellOfLine(w, h, d, k, p);
      g[CellY(h, d, k, p)][CellX(w, d, k, p)])
  }

  /** The board whose lines in direction d are ls. */
  function FromLines(w: nat, h: nat, d: Direction, ls: seq<seq<int>>): (g: Grid)
    requires w >= 1 && h >= 1
    requires |ls| == LineCount(w, h, d)
    requires forall k :: 0 <= k < |ls| ==> |ls[k]| == LineLen(w, h, d)
    ensures IsGrid(g) && Width(g) == w && Height(g) == h
  {
    seq(h, y requires 0 <= y < h =>
      seq(w, x requires 0 <= x < w =>
        LineOfCell(w, h, d, x, y);
        ls[LineOf(d, x, y)][PosOf(w, h, d, x, y)]))
  }

  lemma LineOfFromLines(w: nat, h: nat, d: Direction, ls: seq<seq<int>>, k: int)
    requires w >= 1 && h >= 1
    requires |ls| == LineCount(w, h, d)
    requires forall k :: 0 <= k < |ls| ==> |ls[k]| == LineLen(w, h, d)
    requires 0 <= k < |ls|
    ensures Line(FromLines(w, h, d, ls), d, k) == ls[k]
  {
    var g := FromLines(w, h, d, ls);
    forall p | 0 <= p < LineLen(w, h, d) ensures Line(g, d, k)[p] == ls[k][p] {
      CellOfLine(w, h, d, k, p);
    }
  }

  /** Two boards of the same shape with the same lines in some direction are equal. */
  lemma LinesDetermineGrid(g: Grid, g': Grid, d: Direction)
    requires SameShape(g, g')
    requires forall k :: 0 <= k < LineCount(Width(g), Height(g), d) ==> Line(g, d, k) == Line(g', d, k)
    ensures g == g'
  {
    var w, h := Width(g), Height(g);
    forall y | 0 <= y < h ensures g[y] == g'[y] {
      forall x | 0 <= x < w ensures g[y][x] == g'[y][x] {
        LineOfCell(w, h, d, x, y);
        var k, p := LineOf(d, x, y), PosOf(w, h, d, x, y);
        assert Line(g, d, k)[p] == Line(g', d, k)[p];
      }
    }
  }

  /** Writing one cell changes only the line through it, at the cell's position. */
  lemma LineAfterWrite(g: Grid, d: Direction, k: int, p: int, v: int)
    requires IsGrid(g)
    requires 0 <= k < LineCount(Width(g), Height(g), d) && 0 <= p < LineLen(Width(g), Height(g), d)
    ensures InBounds(g, CellX(Width(g), d, k, p), CellY(Height(g), d, k, p))
    ensures Line(Write(g, CellX(Width(g), d, k, p), CellY(Height(g), d, k, p), v), d, k) == Line(g, d, k)[p := v]
    ensures forall k' :: 0 <= k' < LineCount(Width(g), Height(g), d) && k' != k ==>
      Line(Write(g, CellX(Width(g), d, k, p), CellY(Height(g), d, k, p), v), d, k') == Line(g, d, k')
  {
    var w, h := Width(g), Height(g);
    CellOfLine(w, h, d, k, p);
    var g' := Write(g, CellX(w, d, k, p), CellY(h, d, k, p), v);
    forall p' | 0 <= p' < LineLen(w, h, d) ensures Line(g', d, k)[p'] == Line(g, d, k)[p := v][p'] {
      CellOfLine(w, h, d, k, p');
    }
    forall k' | 0 <= k' < LineCount(w, h, d) && k' != k ensures Line(g', d, k') == Line(g, d, k') {
      forall p' | 0 <= p' < LineLen(w, h, d) ensures Line(g', d, k')[p'] == Line(g, d, k')[p'] {
        CellOfLine(w, h, d, k', p');
      }
    }
  }

  // ---------------------------------------------------------------------------
  // Whole-board phases of a move
  // ---------------------------------------------------------------------------

  /** slideTiles: every line in direction d compacted toward the edge. */
  function Slide(g: Grid, d: Direction): (r: Grid)
    requires IsGrid(g)
    ensures SameShape(g, r)
    ensures forall k :: 0 <= k < LineCount(Width(g), Height(g), d) ==> Line(r, d, k) == Compact(Line(g, d, k))
  {
    var w, h := Width(g), Height(g);
    var ls := seq(LineCount(w, h, d), k requires 0 <= k < LineCount(w, h, d) => Compact(Line(g, d, k)));
    var r := FromLines(w, h, d, ls);
    forall k | 0 <= k < LineCount(w, h, d) ensures Line(r, d, k) == Compact(Line(g, d, k)) {
      LineOfFromLines(w, h, d, ls, k);
    }
    r
  }

  /** mergeTiles: every line in direction d put through the merge scan. */
  function Merge(g: Grid, d: Direction): (r: Grid)
    requires IsGrid(g)
    ensures SameShape(g, r)
    ensures forall k :: 0 <= k < LineCount(Width(g), Height(g), d) ==> Line(r, d, k) == ScanAll(Line(g, d, k)).cells
  {
    var w, h := Width(g), Height(g);
    var ls := seq(LineCount(w, h, d), k requires 0 <= k < LineCount(w, h, d) => ScanAll(Line(g, d, k)).cells);
    var r := FromLines(w, h, d, ls);
    forall k | 0 <= k < LineCount(w, h, d) ensures Line(r, d, k) == ScanAll(Line(g, d, k)).cells {
      LineOfFromLines(w, h, d, ls, k);
    }
    r
  }

  function Sum(s: seq<int>): int
  {
    if s == [] then 0 else Sum(s[..|s| - 1]) + s[|s| - 1]
  }

  /** What the merge scan of each line in direction d gains. */
  function LineGains(g: Grid, d: Direction): (r: seq<int>)
    requires IsGrid(g)
    ensures |r| == LineCount(Width(g), Height(g), d)
    ensures forall k :: 0 <= k < |r| ==> r[k] == ScanAll(Line(g, d, k)).gain
  {
    seq(LineCount(Width(g), Height(g), d), k requires 0 <= k < LineCount(Width(g), Height(g), d) =>
      ScanAll(Line(g, d, k)).gain)
  }

  /** How many merges the scan of each line in direction d makes. */
  function LineMerges(g: Grid, d: Direction): (r: seq<int>)
    requires IsGrid(g)
    ensures |r| == LineCount(Width(g), Height(g), d)
    ensures forall k :: 0 <= k < |r| ==> r[k] == ScanAll(Line(g, d, k)).merges
  {
    seq(LineCount(Width(g), Height(g), d), k requires 0 <= k < LineCount(Width(g), Height(g), d) =>
      ScanAll(Line(g, d, k)).merges)
  }

  /** The points mergeTiles adds: the sum over lines of what each line's scan gains. */
  function MergeGain(g: Grid, d: Direction): int
    requires IsGrid(g)
  {
    Sum(LineGains(g, d))
  }

  /** The number of merges mergeTiles makes. */
  function MergeCount(g: Grid, d: Direction): int
    requires IsGrid(g)
  {
    Sum(LineMerges(g, d))
  }

  /** performMove: slide, merge, slide again. */
  function Move(g: Grid, d: Direction): (r: Grid)
    requires IsGrid(g)
    ensures SameShape(g, r)
  {
    Slide(Merge(Slide(g, d), d), d)
  }

  // ---------------------------------------------------------------------------
  // Board predicates, as the engine states them on cells
  // ---------------------------------------------------------------------------

  /** isMovePossible(d): some occupied cell has an in-bounds neighbour in direction d
      that is empty or holds the same value. */
  predicate MovePossible(g: Grid, d: Direction)
    requires IsGrid(g)
  {
    exists y, x :: 0 <= y < Height(g) && 0 <= x < Width(g) && CanMoveFrom(g, d, x, y)
  }

  /** The tile at (x, y) exists and its neighbour in direction d is in bounds and empty
      or equal to it. */
  predicate CanMoveFrom(g: Grid, d: Direction, x: int, y: int)
    requires IsGrid(g) && InBounds(g, x, y)
  {
    g[y][x] != 0 && InBounds(g, x + Dx(d), y + Dy(d)) &&
    (g[y + Dy(d)][x + Dx(d)] == 0 || g[y + Dy(d)][x + Dx(d)] == g[y][x])
  }

  /** isMovePossible(): some direction is possible. */
  predicate AnyMovePossible(g: Grid)
    requires IsGrid(g)
  {
    MovePossible(g, North) || MovePossible(g, South) || MovePossible(g, East) || MovePossible(g, West)
  }

  /** isSpaceLeft: some cell is empty. */
  predicate SpaceLeft(g: Grid)
    requires IsGrid(g)
  {
    exists y, x :: 0 <= y < Height(g) && 0 <= x < Width(g) && g[y][x] == 0
  }

  /** hasWon: some cell holds at least 2048. */
  predicate Won(g: Grid)
    requires IsGrid(g)
  {
    exists y, x :: 0 <= y < Height(g) && 0 <= x < Width(g) && g[y][x] >= 2048
  }

  /** The number of occupied cells, counted row by row. */
  function CountPieces(g: Grid): nat
  {
    CountRows(g, |g|)
  }

  /** The number of occupied cells in the first n rows. */
  function CountRows(g: Grid, n: nat): nat
    requires n <= |g|
  {
    if n == 0 then 0 else CountRows(g, n - 1) + CountRow(g[n - 1], |g[n - 1]|)
  }

  /** The number of occupied cells among the first n of a row. */
  function CountRow(s: seq<int>, n: nat): nat
    requires n <= |s|
  {
    if n == 0 then 0 else CountRow(s, n - 1) + (if s[n - 1] != 0 then 1 else 0)
  }

  lemma {:induction false} CountRowAfterWrite(s: seq<int>, n: nat, x: int, v: int)
    requires n <= |s| && 0 <= x < |s|
    ensures CountRow(s[x := v], n) ==
      CountRow(s, n) - (if x < n && s[x] != 0 then 1 else 0) + (if x < n && v != 0 then 1 else 0)
  {
    if n > 0 {
      CountRowAfterWrite(s, n - 1, x, v);
    }
  }

  lemma {:induction false} CountRowsAfterWrite(g: Grid, n: nat, x: int, y: int, v: int)
    requires n <= |g| && 0 <= y < |g| && 0 <= x < |g[y]|
    ensures CountRows(g[y := g[y][x := v]], n) ==
      CountRows(g, n) - (if y < n && g[y][x] != 0 then 1 else 0) + (if y < n && v != 0 then 1 else 0)
  {
    if n > 0 {
      CountRowsAfterWrite(g, n - 1, x, y, v);
      if n - 1 == y {
        CountRowAfterWrite(g[y], |g[y]|, x, v);
      }
    }
  }

  /** How the number of occupied cells changes when one cell is overwritten. */
  lemma CountPiecesAfterWrite(g: Grid, x: int, y: int, v: int)
    requires IsGrid(g) && InBounds(g, x, y)
    ensures CountPieces(Write(g, x, y, v)) ==
      CountPieces(g) - (if g[y][x] != 0 then 1 else 0) + (if v != 0 then 1 else 0)
  {
    CountRowsAfterWrite(g, |g|, x, y, v);
  }

  /** Writing a non-negative value keeps a board non-negative. */
  lemma NonNegativeAfterWrite(g: Grid, x: int, y: int, v: int)
    requires IsGrid(g) && InBounds(g, x, y)
    ensures NonNegative(g) && v >= 0 ==> NonNegative(Write(g, x, y, v))
  {
    NonNegativeAll(g);
    NonNegativeAll(Write(g, x, y, v));
  }

  lemma {:induction false} CountRowOfZeros(s: seq<int>, n: nat)
    requires n <= |s| && forall i :: 0 <= i < |s| ==> s[i] == 0
    ensures CountRow(s, n) == 0
  {
    if n > 0 {
      CountRowOfZeros(s, n - 1);
    }
  }

  lemma {:induction false} CountRowsOfZeros(g: Grid, n: nat)
    requires n <= |g| && forall y, x :: 0 <= y < |g| && 0 <= x < |g[y]| ==> g[y][x] == 0
    ensures CountRows(g, n) == 0
  {
    if n > 0 {
      CountRowsOfZeros(g, n - 1);
      CountRowOfZeros(g[n - 1], |g[n - 1]|);
    }
  }

  /** A board with every cell empty holds no pieces. */
  lemma CountPiecesOfEmpty(g: Grid)
    requires forall y :: 0 <= y < |g| ==> g[y] == Zeros(|g[y]|)
    ensures CountPieces(g) == 0
  {
    forall y, x | 0 <= y < |g| && 0 <= x < |g[y]| ensures g[y][x] == 0 {
      assert g[y] == Zeros(|g[y]|);
    }
    CountRowsOfZeros(g, |g|);
  }
}
