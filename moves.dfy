/** What a whole move does to a board, stated over the lines of the board. */
module MoveFacts {
  import opened Lines
  import opened Grids

  lemma {:induction false} SumUpdate(s: seq<int>, k: int, v: int)
    requires 0 <= k < |s|
    ensures Sum(s[k := v]) == Sum(s) - s[k] + v
  {
    var n := |s| - 1;
    if k < n {
      assert s[k := v][..n] == s[..n][k := v];
      SumUpdate(s[..n], k, v);
    } else {
      assert s[k := v][..n] == s[..n];
    }
  }

  /** A sum of non-negative numbers is non-negative, and positive iff one of them is. */
  lemma {:induction false} SumOfNonNegative(s: seq<int>)
    requires forall k :: 0 <= k < |s| ==> s[k] >= 0
    ensures Sum(s) >= 0
    ensures Sum(s) > 0 <==> exists k :: 0 <= k < |s| && s[k] > 0
  {
    if s != [] {
      var n := |s| - 1;
      SumOfNonNegative(s[..n]);
      if exists k :: 0 <= k < n && s[..n][k] > 0 {
        var k :| 0 <= k < n && s[..n][k] > 0;
        assert s[k] > 0;
      }
      if exists k :: 0 <= k < |s| && s[k] > 0 {
        var k :| 0 <= k < |s| && s[k] > 0;
        if k < n {
          assert s[..n][k] > 0;
        }
      }
    }
  }

  /** isMovePossible(d) is the line-wise legality test: some line in direction d has an
      occupied cell with an empty or equal cell in front of it. */
  lemma MovePossibleIffSomeLineLegal(g: Grid, d: Direction)
    requires IsGrid(g)
    ensures MovePossible(g, d) <==> exists k :: 0 <= k < LineCount(Width(g), Height(g), d) && Legal(Line(g, d, k))
  {
    var w, h := Width(g), Height(g);
    if MovePossible(g, d) {
      var y, x :| 0 <= y < h && 0 <= x < w && CanMoveFrom(g, d, x, y);
      CellMoveMakesLineLegal(g, d, x, y);
    }
    if exists k :: 0 <= k < LineCount(w, h, d) && Legal(Line(g, d, k)) {
      var k :| 0 <= k < LineCount(w, h, d) && Legal(Line(g, d, k));
      LegalLineHasCellMove(g, d, k);
    }
  }

  lemma CellMoveMakesLineLegal(g: Grid, d: Direction, x: int, y: int)
    requires IsGrid(g) && InBounds(g, x, y) && CanMoveFrom(g, d, x, y)
    ensures 0 <= LineOf(d, x, y) < LineCount(Width(g), Height(g), d)
    ensures Legal(Line(g, d, LineOf(d, x, y)))
  {
    var w, h := Width(g), Height(g);
    LineOfCell(w, h, d, x, y);
    var k, p := LineOf(d, x, y), PosOf(w, h, d, x, y);
    CellOfLine(w, h, d, k, p);
    EdgeHasNoFront(w, h, d, k);
    var s := Line(g, d, k);
    assert s[p] == g[y][x] && s[p - 1] == g[y + Dy(d)][x + Dx(d)];
  }

  /** The cell at position 0 of a line lies on the edge: its neighbour in the move's
      direction is off the board. */
  lemma EdgeHasNoFront(w: nat, h: nat, d: Direction, k: int)
    requires 0 <= k < LineCount(w, h, d)
    ensures !(0 <= CellX(w, d, k, 0) + Dx(d) < w && 0 <= CellY(h, d, k, 0) + Dy(d) < h)
  {
  }

  lemma LegalLineHasCellMove(g: Grid, d: Direction, k: int)
    requires IsGrid(g) && 0 <= k < LineCount(Width(g), Height(g), d) && Legal(Line(g, d, k))
    ensures MovePossible(g, d)
  {
    var w, h := Width(g), Height(g);
    var s := Line(g, d, k);
    var p := LegalAt(s);
    CellOfLine(w, h, d, k, p);
    CellOfLine(w, h, d, k, p - 1);
    var x, y := CellX(w, d, k, p), CellY(h, d, k, p);
    var x', y' := CellX(w, d, k, p - 1), CellY(h, d, k, p - 1);
    assert x' == x + Dx(d) && y' == y + Dy(d);
    assert InBounds(g, x', y');
    assert g[y][x] == s[p] && g[y'][x'] == s[p - 1];
    assert CanMoveFrom(g, d, x, y);
  }

  /** A board differs from another of its shape iff some line in direction d differs. */
  lemma DiffersIffSomeLineDiffers(g: Grid, g': Grid, d: Direction)
    requires SameShape(g, g')
    ensures g != g' <==> exists k :: 0 <= k < LineCount(Width(g), Height(g), d) && Line(g, d, k) != Line(g', d, k)
  {
    if forall k :: 0 <= k < LineCount(Width(g), Height(g), d) ==> Line(g, d, k) == Line(g', d, k) {
      LinesDetermineGrid(g, g', d);
    }
  }

  /** Each line of the moved board is the line moved on its own. */
  lemma MoveByLines(g: Grid, d: Direction, k: int)
    requires IsGrid(g) && 0 <= k < LineCount(Width(g), Height(g), d)
    ensures Line(Move(g, d), d, k) == MoveLine(Line(g, d, k))
  {
  }

  /** Every line of the moved board holds the line's tiles merged pairwise from the edge
      by the standard 2048 rule, followed by empty cells. */
  lemma MoveIsStandard(g: Grid, d: Direction, k: int)
    requires IsGrid(g) && 0 <= k < LineCount(Width(g), Height(g), d)
    ensures Line(Move(g, d), d, k) == Pad(StdMerge(NonZeros(Line(g, d, k))), LineLen(Width(g), Height(g), d))
  {
    MoveLineIsStandard(Line(g, d, k));
  }

  /** A move changes the board iff isMovePossible(d) holds. */
  lemma MoveChangesIffPossible(g: Grid, d: Direction)
    requires IsGrid(g)
    ensures Move(g, d) != g <==> MovePossible(g, d)
  {
    var n := LineCount(Width(g), Height(g), d);
    DiffersIffSomeLineDiffers(Move(g, d), g, d);
    MovePossibleIffSomeLineLegal(g, d);
    forall k | 0 <= k < n ensures Line(Move(g, d), d, k) != Line(g, d, k) <==> Legal(Line(g, d, k)) {
      MoveLineChangesIffLegal(Line(g, d, k));
    }
  }

  /** Some phase of performMove reports a change (the first slide changes the board, the
      merge merges, or the second slide changes the board) iff isMovePossible(d) holds. */
  lemma PhasesIffPossible(g: Grid, d: Direction)
    requires IsGrid(g)
    ensures var g1 := Slide(g, d); var g2 := Merge(g1, d);
      (g1 != g || MergeCount(g1, d) > 0 || Slide(g2, d) != g2) <==> MovePossible(g, d)
  {
    if MovePossible(g, d) {
      PhasesWhenPossible(g, d);
    } else {
      NoPhasesWhenImpossible(g, d);
    }
  }

  lemma PhasesWhenPossible(g: Grid, d: Direction)
    requires IsGrid(g) && MovePossible(g, d)
    ensures var g1 := Slide(g, d); var g2 := Merge(g1, d);
      g1 != g || MergeCount(g1, d) > 0 || Slide(g2, d) != g2
  {
    var n := LineCount(Width(g), Height(g), d);
    var g1 := Slide(g, d);
    var g2 := Merge(g1, d);
    var g3 := Slide(g2, d);
    MergeCountPositiveIff(g1, d);
    MovePossibleIffSomeLineLegal(g, d);
    var k :| 0 <= k < n && Legal(Line(g, d, k));
    PhasesIffLegal(Line(g, d, k));
    if Line(g1, d, k) == Line(g, d, k) && ScanAll(Line(g1, d, k)).merges == 0 {
      assert Line(g3, d, k) != Line(g2, d, k);
    }
  }

  lemma NoPhasesWhenImpossible(g: Grid, d: Direction)
    requires IsGrid(g) && !MovePossible(g, d)
    ensures var g1 := Slide(g, d); var g2 := Merge(g1, d);
      g1 == g && MergeCount(g1, d) == 0 && Slide(g2, d) == g2
  {
    var n := LineCount(Width(g), Height(g), d);
    var g1 := Slide(g, d);
    var g2 := Merge(g1, d);
    var g3 := Slide(g2, d);
    MergeCountPositiveIff(g1, d);
    MovePossibleIffSomeLineLegal(g, d);
    forall k | 0 <= k < n
      ensures Line(g1, d, k) == Line(g, d, k) && ScanAll(Line(g1, d, k)).merges == 0
      ensures Line(g3, d, k) == Line(g2, d, k)
    {
      PhasesIffLegal(Line(g, d, k));
    }
    LinesDetermineGrid(g1, g, d);
    LinesDetermineGrid(g3, g2, d);
  }

  /** mergeTiles merges something iff the scan of some line merges. */
  lemma MergeCountPositiveIff(g: Grid, d: Direction)
    requires IsGrid(g)
    ensures MergeCount(g, d) >= 0
    ensures MergeCount(g, d) > 0 <==> exists k :: 0 <= k < LineCount(Width(g), Height(g), d) && ScanAll(Line(g, d, k)).merges > 0
  {
    var n := LineCount(Width(g), Height(g), d);
    var merges := LineMerges(g, d);
    SumOfNonNegative(merges);
    if exists k :: 0 <= k < n && ScanAll(Line(g, d, k)).merges > 0 {
      var k :| 0 <= k < n && ScanAll(Line(g, d, k)).merges > 0;
      assert merges[k] > 0;
    }
  }

  /** An occupied cell whose in-bounds neighbour in direction d is empty: slideTiles
      would move it. */
  predicate CanSlideFrom(g: Grid, d: Direction, x: int, y: int)
    requires IsGrid(g) && InBounds(g, x, y)
  {
    g[y][x] != 0 && InBounds(g, x + Dx(d), y + Dy(d)) && g[y + Dy(d)][x + Dx(d)] == 0
  }

  /** After slideTiles no occupied cell has an empty in-bounds neighbour in the move's
      direction, and each line keeps its tiles in their order. */
  lemma SlidePacks(g: Grid, d: Direction)
    requires IsGrid(g)
    ensures forall y, x :: 0 <= y < Height(g) && 0 <= x < Width(g) ==> !CanSlideFrom(Slide(g, d), d, x, y)
    ensures forall k :: 0 <= k < LineCount(Width(g), Height(g), d) ==>
      NonZeros(Line(Slide(g, d), d, k)) == NonZeros(Line(g, d, k))
  {
    var r := Slide(g, d);
    var w, h := Width(g), Height(g);
    forall y, x | 0 <= y < h && 0 <= x < w ensures !CanSlideFrom(r, d, x, y) {
      if CanSlideFrom(r, d, x, y) {
        CellMoveMakesLineLegal(r, d, x, y);
        var k := LineOf(d, x, y);
        CompactIsPacked(Line(g, d, k));
        SlidPackedLineHasNoGap(r, d, x, y);
      }
    }
    forall k | 0 <= k < LineCount(w, h, d) ensures NonZeros(Line(r, d, k)) == NonZeros(Line(g, d, k)) {
      CompactKeepsOrder(Line(g, d, k));
    }
  }

  lemma SlidPackedLineHasNoGap(r: Grid, d: Direction, x: int, y: int)
    requires IsGrid(r) && InBounds(r, x, y) && CanSlideFrom(r, d, x, y)
    requires 0 <= LineOf(d, x, y) < LineCount(Width(r), Height(r), d)
    ensures !Packed(Line(r, d, LineOf(d, x, y)))
  {
    var w, h := Width(r), Height(r);
    LineOfCell(w, h, d, x, y);
    var k, p := LineOf(d, x, y), PosOf(w, h, d, x, y);
    CellOfLine(w, h, d, k, p);
    EdgeHasNoFront(w, h, d, k);
    CellOfLine(w, h, d, k, p - 1);
    var s := Line(r, d, k);
    assert s[p] == r[y][x] && s[p - 1] == r[y + Dy(d)][x + Dx(d)];
  }

  /** With non-negative tiles mergeTiles never loses points, and gains some iff it merges. */
  lemma MergeGainSign(g: Grid, d: Direction)
    requires IsGrid(g) && NonNegative(g)
    ensures MergeGain(g, d) >= 0 && MergeCount(g, d) >= 0
    ensures MergeGain(g, d) == 0 <==> MergeCount(g, d) == 0
  {
    var n := LineCount(Width(g), Height(g), d);
    var gains := LineGains(g, d);
    forall k | 0 <= k < n ensures gains[k] >= 0 && (gains[k] == 0 <==> ScanAll(Line(g, d, k)).merges == 0) {
      LineGainSign(g, d, k);
    }
    SumOfNonNegative(gains);
    SumOfNonNegative(LineMerges(g, d));
    MergeCountPositiveIff(g, d);
    if MergeGain(g, d) == 0 {
      forall k | 0 <= k < n ensures ScanAll(Line(g, d, k)).merges == 0 {
        assert !(gains[k] > 0);
      }
    } else {
      var k :| 0 <= k < n && gains[k] > 0;
      assert ScanAll(Line(g, d, k)).merges > 0;
    }
  }

  lemma LineGainSign(g: Grid, d: Direction, k: int)
    requires IsGrid(g) && NonNegative(g) && 0 <= k < LineCount(Width(g), Height(g), d)
    ensures ScanAll(Line(g, d, k)).gain >= 0
    ensures ScanAll(Line(g, d, k)).gain == 0 <==> ScanAll(Line(g, d, k)).merges == 0
  {
    LineNonNegative(g, d, k);
    ScanGainSign(Line(g, d, k), |Line(g, d, k)|);
  }

  /** A move keeps tiles non-negative. */
  lemma MoveKeepsNonNegative(g: Grid, d: Direction)
    requires IsGrid(g) && NonNegative(g)
    ensures NonNegative(Slide(g, d)) && NonNegative(Merge(g, d)) && NonNegative(Move(g, d))
  {
    SlideKeepsNonNegative(g, d);
    MergeKeepsNonNegative(g, d);
    SlideKeepsNonNegative(Slide(g, d), d);
    MergeKeepsNonNegative(Slide(g, d), d);
    SlideKeepsNonNegative(Merge(Slide(g, d), d), d);
  }

  lemma LineNonNegative(g: Grid, d: Direction, k: int)
    requires IsGrid(g) && NonNegative(g) && 0 <= k < LineCount(Width(g), Height(g), d)
    ensures forall p :: 0 <= p < |Line(g, d, k)| ==> Line(g, d, k)[p] >= 0
  {
    NonNegativeAll(g);
    forall p | 0 <= p < |Line(g, d, k)| ensures Line(g, d, k)[p] >= 0 {
      CellOfLine(Width(g), Height(g), d, k, p);
    }
  }

  lemma GridFromNonNegativeLines(r: Grid, d: Direction)
    requires IsGrid(r)
    requires forall k :: 0 <= k < LineCount(Width(r), Height(r), d) ==>
      forall p :: 0 <= p < |Line(r, d, k)| ==> Line(r, d, k)[p] >= 0
    ensures NonNegative(r)
  {
    forall y, x | 0 <= y < Height(r) && 0 <= x < Width(r) ensures r[y][x] >= 0 {
      LineOfCell(Width(r), Height(r), d, x, y);
      assert Line(r, d, LineOf(d, x, y))[PosOf(Width(r), Height(r), d, x, y)] >= 0;
    }
    NonNegativeAll(r);
  }

  lemma SlideKeepsNonNegative(g: Grid, d: Direction)
    requires IsGrid(g) && NonNegative(g)
    ensures NonNegative(Slide(g, d))
  {
    var r := Slide(g, d);
    forall k | 0 <= k < LineCount(Width(r), Height(r), d)
      ensures forall p :: 0 <= p < |Line(r, d, k)| ==> Line(r, d, k)[p] >= 0
    {
      LineNonNegative(g, d, k);
      CompactNonNegative(Line(g, d, k));
    }
    GridFromNonNegativeLines(r, d);
  }

  lemma MergeKeepsNonNegative(g: Grid, d: Direction)
    requires IsGrid(g) && NonNegative(g)
    ensures NonNegative(Merge(g, d))
  {
    var r := Merge(g, d);
    forall k | 0 <= k < LineCount(Width(r), Height(r), d)
      ensures forall p :: 0 <= p < |Line(r, d, k)| ==> Line(r, d, k)[p] >= 0
    {
      LineNonNegative(g, d, k);
      MergeAtMostOnce(Line(g, d, k));
    }
    GridFromNonNegativeLines(r, d);
  }

  lemma CompactNonNegative(s: seq<int>)
    requires forall i :: 0 <= i < |s| ==> s[i] >= 0
    ensures forall i :: 0 <= i < |s| ==> Compact(s)[i] >= 0
  {
    NonZerosNonNegative(s);
  }

  lemma {:induction false} NonZerosNonNegative(s: seq<int>)
    requires forall i :: 0 <= i < |s| ==> s[i] >= 0
    ensures forall i :: 0 <= i < |NonZeros(s)| ==> NonZeros(s)[i] > 0
  {
    if s != [] {
      NonZerosNonNegative(s[..|s| - 1]);
    }
  }

  /** For a move toward the west the lines are the rows themselves. */
  lemma WestLinesAreRows(g: Grid, y: int)
    requires IsGrid(g) && 0 <= y < Height(g)
    ensures Line(g, West, y) == g[y]
  {
  }

  /** Moving west moves every row on its own. */
  lemma WestRowMoves(g: Grid, y: int)
    requires IsGrid(g) && 0 <= y < Height(g)
    ensures Move(g, West)[y] == MoveLine(g[y])
  {
    MoveByLines(g, West, y);
    WestLinesAreRows(g, y);
    WestLinesAreRows(Move(g, West), y);
  }

  /** The example of a 3x2 board whose top row [2, 2, 2] is moved west: it becomes
      [4, 2, 0], not [4, 4, 0] or [8, 0, 0]. */
  lemma WestTripleTwos()
    ensures Move([[2, 2, 2], [0, 0, 0]], West) == [[4, 2, 0], [0, 0, 0]]
  {
    var g: Grid := [[2, 2, 2], [0, 0, 0]];
    var r := Move(g, West);
    TripleTwosRow(g);
    ZerosRow(g);
    assert |r| == 2;
  }

  lemma TripleTwosRow(g: Grid)
    requires g == [[2, 2, 2], [0, 0, 0]]
    ensures Move(g, West)[0] == [4, 2, 0]
  {
    WestRowMoves(g, 0);
    TripleTwos();
  }

  lemma ZerosRow(g: Grid)
    requires g == [[2, 2, 2], [0, 0, 0]]
    ensures Move(g, West)[1] == [0, 0, 0]
  {
    WestRowMoves(g, 1);
    assert g[1] == Zeros(3);
    MoveLineIsStandard(Zeros(3));
    NonZerosOfZeros(3);
  }

  // ---------------------------------------------------------------------------
  // The end of the game
  // ---------------------------------------------------------------------------

  /** Cell (x, y) equals its right neighbour. */
  predicate SameRight(g: Grid, x: int, y: int)
    requires IsGrid(g) && 0 <= y < Height(g) && 0 <= x < Width(g) - 1
  {
    g[y][x] == g[y][x + 1]
  }

  /** Cell (x, y) equals its lower neighbour. */
  predicate SameBelow(g: Grid, x: int, y: int)
    requires IsGrid(g) && 0 <= y < Height(g) - 1 && 0 <= x < Width(g)
  {
    g[y][x] == g[y + 1][x]
  }

  /** No cell equals its right or its lower neighbour. */
  predicate NoEqualNeighbours(g: Grid)
    requires IsGrid(g)
  {
    (forall y, x :: 0 <= y < Height(g) && 0 <= x < Width(g) - 1 ==> !SameRight(g, x, y)) &&
    (forall y, x :: 0 <= y < Height(g) - 1 && 0 <= x < Width(g) ==> !SameBelow(g, x, y))
  }

  /** On a board holding a tile, isMovePossible() is false exactly when every cell is
      occupied and no two horizontally or vertically neighbouring cells are equal. */
  lemma GameOverIffStuck(g: Grid)
    requires IsGrid(g) && CountPieces(g) > 0
    ensures !AnyMovePossible(g) <==> !SpaceLeft(g) && NoEqualNeighbours(g)
  {
    if !SpaceLeft(g) && NoEqualNeighbours(g) {
      StuckHasNoMove(g, North);
      StuckHasNoMove(g, South);
      StuckHasNoMove(g, East);
      StuckHasNoMove(g, West);
    }
    if SpaceLeft(g) {
      var ey, ex :| 0 <= ey < Height(g) && 0 <= ex < Width(g) && g[ey][ex] == 0;
      var tx, ty := SomeTile(g);
      TileNextToSpace(g, tx, ty, ex, ey);
    } else if !NoEqualNeighbours(g) {
      EqualNeighboursMove(g);
    }
  }

  /** A full board without equal neighbours allows no move in any direction. */
  lemma StuckHasNoMove(g: Grid, d: Direction)
    requires IsGrid(g) && !SpaceLeft(g) && NoEqualNeighbours(g)
    ensures !MovePossible(g, d)
  {
    forall y, x | 0 <= y < Height(g) && 0 <= x < Width(g)
      ensures !CanMoveFrom(g, d, x, y)
    {
      var x', y' := x + Dx(d), y + Dy(d);
      if InBounds(g, x', y') {
        assert g[y'][x'] != 0;
        match d
        case East => assert !SameRight(g, x, y);
        case West => assert !SameRight(g, x - 1, y);
        case South => assert !SameBelow(g, x, y);
        case North => assert !SameBelow(g, x, y - 1);
      }
    }
  }

  /** Two equal neighbouring cells, on a full board, make a move possible. */
  lemma EqualNeighboursMove(g: Grid)
    requires IsGrid(g) && !SpaceLeft(g) && !NoEqualNeighbours(g)
    ensures AnyMovePossible(g)
  {
    if exists y, x :: 0 <= y < Height(g) && 0 <= x < Width(g) - 1 && SameRight(g, x, y) {
      var y, x :| 0 <= y < Height(g) && 0 <= x < Width(g) - 1 && SameRight(g, x, y);
      assert CanMoveFrom(g, West, x + 1, y);
    } else {
      var y, x :| 0 <= y < Height(g) - 1 && 0 <= x < Width(g) && SameBelow(g, x, y);
      assert CanMoveFrom(g, North, x, y + 1);
    }
  }

  /** A board with a non-zero piece count holds a tile. */
  lemma SomeTile(g: Grid) returns (x: int, y: int)
    requires IsGrid(g) && CountPieces(g) > 0
    ensures InBounds(g, x, y) && g[y][x] != 0
  {
    if forall y', x' :: 0 <= y' < |g| && 0 <= x' < |g[y']| ==> g[y'][x'] == 0 {
      CountRowsOfZeros(g, |g|);
      assert false;
    }
    y, x :| 0 <= y < |g| && 0 <= x < |g[y]| && g[y][x] != 0;
  }

  /** A board holding both a tile and an empty cell allows some move: along the tile's
      row, or else along the empty cell's column, a tile sits next to an empty cell. */
  lemma TileNextToSpace(g: Grid, tx: int, ty: int, ex: int, ey: int)
    requires IsGrid(g) && InBounds(g, tx, ty) && InBounds(g, ex, ey)
    requires g[ty][tx] != 0 && g[ey][ex] == 0
    ensures AnyMovePossible(g)
  {
    if exists x :: 0 <= x < Width(g) && g[ty][x] == 0 {
      var x :| 0 <= x < Width(g) && g[ty][x] == 0;
      var k := Boundary(g[ty], tx, x);
      if g[ty][k] != 0 {
        assert CanMoveFrom(g, East, k, ty);
      } else {
        assert CanMoveFrom(g, West, k + 1, ty);
      }
    } else {
      var col := Column(g, ex);
      var k := Boundary(col, ty, ey);
      if g[k][ex] != 0 {
        assert CanMoveFrom(g, South, ex, k);
      } else {
        assert CanMoveFrom(g, North, ex, k + 1);
      }
    }
  }

  /** Column x of the board, from the top. */
  function Column(g: Grid, x: int): (c: seq<int>)
    requires IsGrid(g) && 0 <= x < Width(g)
    ensures |c| == Height(g) && forall y :: 0 <= y < |c| ==> c[y] == g[y][x]
  {
    seq(Height(g), y requires 0 <= y < Height(g) => g[y][x])
  }

  /** Between a tile and an empty cell of a line lie two neighbours of which exactly
      one is empty. */
  lemma {:induction false} Boundary(s: seq<int>, a: int, b: int) returns (k: int)
    requires 0 <= a < |s| && 0 <= b < |s| && s[a] != 0 && s[b] == 0
    ensures 0 <= k < |s| - 1 && (s[k] == 0 <==> s[k + 1] != 0)
    decreases if a < b then b - a else a - b
  {
    if a < b {
      if s[a + 1] == 0 {
        k := a;
      } else {
        k := Boundary(s, a + 1, b);
      }
    } else {
      if s[a - 1] == 0 {
        k := a - 1;
      } else {
        k := Boundary(s, a - 1, b);
      }
    }
  }
}
