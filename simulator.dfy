/** The game engine: a board of width x height cells held in a 2-D array, updated in
    place by moves, placements and new tiles, with counters for moves, pieces and points. */
module Engine {
  import opened Lines
  import opened Grids
  import opened MoveFacts
  import opened Sweeps

  /** Why an operation refused to run: the exceptions of the engine. */
  datatype Error =
    | BadDimensions     // the constructor: width or height below 2
    | OutOfBounds       // getPieceAt: coordinates off the board
    | InvalidPlacement  // setPieceAt: coordinates off the board or a negative value
    | NoSpaceLeft       // addPiece: no empty cell

  datatype Result<T> = Ok(value: T) | Err(error: Error)

  /** A new tile: where it goes and what it is worth (the random draws of addPiece). */
  datatype Placement = Placement(x: int, y: int, value: int)

  /** The directions in the order isMovePossible() tries them. */
  const Directions: seq<Direction> := [North, South, East, West]

  /** The board of the given size with every cell empty. */
  function EmptyGrid(w: nat, h: nat): (g: Grid)
    requires w >= 1 && h >= 1
    ensures IsGrid(g) && Width(g) == w && Height(g) == h
    ensures forall y, x :: 0 <= y < h && 0 <= x < w ==> g[y][x] == 0
    ensures CountPieces(g) == 0 && NonNegative(g)
  {
    var g := seq(h, _ => Zeros(w));
    CountPiecesOfEmpty(g);
    NonNegativeAll(g);
    g
  }

  /** Whether the sweep has visited the cell (x, y) of a w x h board before the visit
      (i, j): the sweep counters of (x, y) come first in the order of the loops. */
  predicate VisitedBefore(w: nat, h: nat, d: Direction, x: int, y: int, i: nat, j: nat)
  {
    0 <= x < w && 0 <= y < h &&
    (SweepY(h, d, y) < i || (SweepY(h, d, y) == i && SweepX(w, d, x) < j))
  }

  /** Every set mergedThisTurn flag of mergeTiles marks the cell in front of a cell the
      sweep visited before (i, j). */
  ghost predicate FlagsBehind(flags: array2<bool>, w: nat, h: nat, d: Direction, i: nat, j: nat)
    reads flags
  {
    flags.Length0 == h && flags.Length1 == w &&
    forall y, x :: 0 <= y < h && 0 <= x < w && flags[y, x] ==> VisitedBefore(w, h, d, x - Dx(d), y - Dy(d), i, j)
  }

  lemma FlagsStart(flags: array2<bool>, w: nat, h: nat, d: Direction)
    requires flags.Length0 == h && flags.Length1 == w
    requires forall y, x :: 0 <= y < h && 0 <= x < w ==> !flags[y, x]
    ensures FlagsBehind(flags, w, h, d, 0, 0)
  {
  }

  lemma FlagsAdvance(flags: array2<bool>, w: nat, h: nat, d: Direction, i: nat, j: nat)
    requires FlagsBehind(flags, w, h, d, i, j)
    ensures FlagsBehind(flags, w, h, d, i, j + 1)
  {
  }

  lemma FlagsNextRow(flags: array2<bool>, w: nat, h: nat, d: Direction, i: nat)
    requires FlagsBehind(flags, w, h, d, i, Span(w, h))
    ensures FlagsBehind(flags, w, h, d, i + 1, 0)
  {
  }

  /** The flag of the cell in front of the visited cell is clear: only the visit of this
      very cell could have set it. */
  lemma FlagClear(flags: array2<bool>, w: nat, h: nat, d: Direction, i: nat, j: nat)
    requires FlagsBehind(flags, w, h, d, i, j)
    requires var x, y := SweepX(w, d, j) + Dx(d), SweepY(h, d, i) + Dy(d);
      0 <= x < w && 0 <= y < h
    ensures !flags[SweepY(h, d, i) + Dy(d), SweepX(w, d, j) + Dx(d)]
  {
  }

  /** Setting the flag of the cell in front of the visited cell keeps every flag behind
      the sweep once the visit is done. */
  lemma FlagSet(flags: array2<bool>, w: nat, h: nat, d: Direction, i: nat, j: nat)
    requires FlagsBehind(flags, w, h, d, i, j)
    requires 0 <= SweepX(w, d, j) < w && 0 <= SweepY(h, d, i) < h
    ensures var x', y' := SweepX(w, d, j) + Dx(d), SweepY(h, d, i) + Dy(d);
      forall y, x :: 0 <= y < h && 0 <= x < w && (flags[y, x] || (y == y' && x == x')) ==>
        VisitedBefore(w, h, d, x - Dx(d), y - Dy(d), i, j + 1)
  {
    var x', y' := SweepX(w, d, j) + Dx(d), SweepY(h, d, i) + Dy(d);
    forall y, x | 0 <= y < h && 0 <= x < w && (flags[y, x] || (y == y' && x == x'))
      ensures VisitedBefore(w, h, d, x - Dx(d), y - Dy(d), i, j + 1)
    {
      if !flags[y, x] {
        SweepTwice(w, h, d, i, j);
      }
    }
  }

  /** What the visit (i, j) of mergeTiles finds at the tile (x, y): its position in its
      line, the cell in front of it, and that the test of the source merges exactly when
      the scan of the line merges there. */
  lemma MergeDecision(g: Grid, g0: Grid, d: Direction, i: nat, j: nat, gains: seq<int>, merges: seq<int>,
                      flags: array2<bool>, x: int, y: int, x': int, y': int)
    requires SameShape(g, g0) && Merging(g, g0, d, i, j, gains, merges)
    requires FlagsBehind(flags, Width(g0), Height(g0), d, i, j)
    requires x == SweepX(Width(g0), d, j) && y == SweepY(Height(g0), d, i)
    requires 0 <= x < Width(g0) && 0 <= y < Height(g0) && g[y][x] != 0
    requires x' == x + Dx(d) && y' == y + Dy(d)
    ensures var w, h, k, p := Width(g0), Height(g0), SweepLine(d, i, j), SweepPos(d, i, j);
      k < LineCount(w, h, d) && p < LineLen(w, h, d) &&
      x == CellX(w, d, k, p) && y == CellY(h, d, k, p) &&
      (InBounds(g, x', y') <==> p >= 1) &&
      (p >= 1 ==> x' == CellX(w, d, k, p - 1) && y' == CellY(h, d, k, p - 1)) &&
      ((InBounds(g, x', y') && g[y'][x'] == g[y][x] && !flags[y', x']) <==>
        MergesAt(ScanUpTo(Line(g0, d, k), p), p))
  {
    var w, h := Width(g0), Height(g0);
    SweepCell(w, h, d, i, j);
    var k, p := SweepLine(d, i, j), SweepPos(d, i, j);
    assert Line(g, d, k) == ScanUpTo(Line(g0, d, k), p).cells by {
      DoneVisit(w, h, d, i, j);
      MergingLine(g, g0, d, i, j, gains, merges, k);
    }
    MergeDecisionOnLine(g, g0, d, k, p, x, y, x', y');
    if InBounds(g, x', y') {
      FlagClear(flags, w, h, d, i, j);
    }
  }

  /** The same decision on one line: the flag in front never matters. */
  lemma MergeDecisionOnLine(g: Grid, g0: Grid, d: Direction, k: nat, p: nat, x: int, y: int, x': int, y': int)
    requires SameShape(g, g0)
    requires k < LineCount(Width(g0), Height(g0), d) && p < LineLen(Width(g0), Height(g0), d)
    requires x == CellX(Width(g0), d, k, p) && y == CellY(Height(g0), d, k, p) && x' == x + Dx(d) && y' == y + Dy(d)
    requires Line(g, d, k) == ScanUpTo(Line(g0, d, k), p).cells
    requires g[y][x] != 0
    ensures InBounds(g, x', y') <==> p >= 1
    ensures p >= 1 ==> x' == CellX(Width(g0), d, k, p - 1) && y' == CellY(Height(g0), d, k, p - 1)
    ensures (InBounds(g, x', y') && g[y'][x'] == g[y][x]) <==> MergesAt(ScanUpTo(Line(g0, d, k), p), p)
  {
    FrontCell(Width(g0), Height(g0), d, k, p);
    var o := Line(g0, d, k);
    var st := ScanUpTo(o, p);
    assert st.cells[p] == g[y][x];
    if p >= 1 {
      assert st.cells[p - 1] == g[y'][x'];
      FlagClearOnVisit(o, p);
    }
  }

  class Simulator {
    const width: int
    const height: int
    /** board[y, x] is the tile in column x of row y; 0 is an empty cell. */
    const board: array2<int>
    var numMoves: int
    var numPieces: int
    var points: int

    /** The board as a value. */
    function Cells(): (g: Grid)
      reads board
      ensures |g| == board.Length0
      ensures forall y :: 0 <= y < |g| ==> |g[y]| == board.Length1
      ensures forall y, x :: 0 <= y < board.Length0 && 0 <= x < board.Length1 ==> g[y][x] == board[y, x]
    {
      seq(board.Length0, y requires 0 <= y < board.Length0 reads board =>
        seq(board.Length1, x requires 0 <= x < board.Length1 reads board => board[y, x]))
    }

    /** The object invariant: the board has the declared size (at least 2 x 2), holds
        no negative tile, numPieces counts its occupied cells, and the other counters
        are non-negative. */
    ghost predicate Valid()
      reads this, board
    {
      2 <= width && 2 <= height && board.Length0 == height && board.Length1 == width &&
      IsGrid(Cells()) && NonNegative(Cells()) && numPieces == CountPieces(Cells()) && 0 <= points && 0 <= numMoves
    }

    /** A new game: an empty board and then two tiles placed by addPiece. */
    constructor (width: int, height: int, first: Placement, second: Placement)
      requires 2 <= width && 2 <= height
      requires 0 <= first.x < width && 0 <= first.y < height && (first.value == 2 || first.value == 4)
      requires 0 <= second.x < width && 0 <= second.y < height && (second.value == 2 || second.value == 4)
      requires second.x != first.x || second.y != first.y
      ensures Valid() && fresh(board)
      ensures this.width == width && this.height == height
      ensures Cells() == Write(Write(EmptyGrid(width, height), first.x, first.y, first.value), second.x, second.y, second.value)
      ensures numMoves == 0 && numPieces == 2 && points == 0
    {
      this.width := width;
      this.height := height;
      board := new int[height, width]((y, x) => 0);
      numMoves, numPieces, points := 0, 0, 0;
      new;
      CellsOfEmpty();
      PlaceStartingTiles(first, second);
    }

    /** The two addPiece() calls of the constructor, on the empty board. */
    method PlaceStartingTiles(first: Placement, second: Placement)
      requires Valid() && Cells() == EmptyGrid(width, height) && numMoves == 0 && numPieces == 0 && points == 0
      requires 0 <= first.x < width && 0 <= first.y < height && (first.value == 2 || first.value == 4)
      requires 0 <= second.x < width && 0 <= second.y < height && (second.value == 2 || second.value == 4)
      requires second.x != first.x || second.y != first.y
      modifies this, board
      ensures Valid()
      ensures Cells() == Write(Write(EmptyGrid(width, height), first.x, first.y, first.value), second.x, second.y, second.value)
      ensures numMoves == 0 && numPieces == 2 && points == 0
    {
      StartingPlacements(width, height, first, second);
      ghost var g0 := Cells();
      var r := AddPiece(first);
      assert r.Ok? && Cells() == Write(g0, first.x, first.y, first.value);
      r := AddPiece(second);
    }

    /** The two starting tiles land on empty cells of a board with space left. */
    static lemma StartingPlacements(width: nat, height: nat, first: Placement, second: Placement)
      requires 2 <= width && 2 <= height
      requires 0 <= first.x < width && 0 <= first.y < height
      requires 0 <= second.x < width && 0 <= second.y < height
      requires second.x != first.x || second.y != first.y
      ensures var g0 := EmptyGrid(width, height);
        SpaceLeft(g0) && g0[first.y][first.x] == 0 &&
        var g1 := Write(g0, first.x, first.y, first.value);
        SpaceLeft(g1) && g1[second.y][second.x] == 0
    {
      var g0 := EmptyGrid(width, height);
      assert g0[first.y][first.x] == 0;
      var g1 := Write(g0, first.x, first.y, first.value);
      assert g1[second.y][second.x] == 0;
    }

    /** A board array of zeros holds the empty board. */
    lemma CellsOfEmpty()
      requires 1 <= board.Length0 && 1 <= board.Length1
      requires forall y, x :: 0 <= y < board.Length0 && 0 <= x < board.Length1 ==> board[y, x] == 0
      ensures Cells() == EmptyGrid(board.Length1, board.Length0)
    {
      forall y | 0 <= y < board.Length0 ensures Cells()[y] == EmptyGrid(board.Length1, board.Length0)[y] {
      }
    }

    /** The copy constructor: the same board, in a new array, and the same counters. */
    constructor Copy(original: Simulator)
      requires original.Valid()
      ensures Valid() && fresh(board)
      ensures width == original.width && height == original.height
      ensures Cells() == original.Cells()
      ensures numMoves == original.numMoves && numPieces == original.numPieces && points == original.points
    {
      width := original.width;
      height := original.height;
      board := new int[original.height, original.width];
      new;
      var i := 0;
      while i < height
        invariant 0 <= i <= height
        invariant forall y, x :: 0 <= y < i && 0 <= x < width ==> board[y, x] == original.board[y, x]
      {
        var j := 0;
        while j < width
          invariant 0 <= j <= width
          invariant forall y, x :: 0 <= y < i && 0 <= x < width ==> board[y, x] == original.board[y, x]
          invariant forall x :: 0 <= x < j ==> board[i, x] == original.board[i, x]
        {
          board[i, j] := original.board[i, j];
          j := j + 1;
        }
        i := i + 1;
      }
      assert Cells() == original.Cells() by {
        forall y | 0 <= y < height ensures Cells()[y] == original.Cells()[y] {
        }
      }
      numMoves := original.numMoves;
      numPieces := original.numPieces;
      points := original.points;
    }

    /** Two writes: (x1, y1) := v1, then (x2, y2) := v2. */
    method PutPair(x1: int, y1: int, v1: int, x2: int, y2: int, v2: int)
      requires 0 <= x1 < board.Length1 && 0 <= y1 < board.Length0
      requires 0 <= x2 < board.Length1 && 0 <= y2 < board.Length0
      modifies board
      ensures Cells() == Write(Write(old(Cells()), x1, y1, v1), x2, y2, v2)
    {
      ghost var g := Cells();
      Put(x1, y1, v1);
      ghost var g1 := Cells();
      Put(x2, y2, v2);
    }

    /** Writes one cell of the array; the counters are the caller's business. */
    method Put(x: int, y: int, v: int)
      requires 0 <= x < board.Length1 && 0 <= y < board.Length0
      modifies board
      ensures Cells() == Write(old(Cells()), x, y, v)
    {
      ghost var g := Write(Cells(), x, y, v);
      board[y, x] := v;
      forall y' | 0 <= y' < board.Length0 ensures Cells()[y'] == g[y'] {
      }
    }

    function GetBoardWidth(): (r: int)
      reads this, board
      requires Valid()
      ensures r == Width(Cells()) && r >= 2
    {
      width
    }

    function GetBoardHeight(): (r: int)
      reads this, board
      requires Valid()
      ensures r == Height(Cells()) && r >= 2
    {
      height
    }

    function GetNumMoves(): (r: int)
      reads this, board
      requires Valid()
      ensures r >= 0
    {
      numMoves
    }

    /** The piece counter always equals the number of occupied cells. */
    function GetNumPieces(): (r: int)
      reads this, board
      requires Valid()
      ensures r == CountPieces(Cells())
    {
      numPieces
    }

    function GetPoints(): (r: int)
      reads this, board
      requires Valid()
      ensures r >= 0
    {
      points
    }

    /** isValidCoordinate: (x, y) lies on the board. */
    predicate IsValidCoordinate(x: int, y: int)
    {
      x >= 0 && x < width && y >= 0 && y < height
    }

    /** getPieceAt: the tile at (x, y), or OutOfBounds off the board. */
    function GetPieceAt(x: int, y: int): (r: Result<int>)
      reads this, board
      requires Valid()
      ensures r.Ok? <==> InBounds(Cells(), x, y)
      ensures r.Ok? ==> r.value == Cells()[y][x] && r.value >= 0
      ensures r.Err? ==> r.error == OutOfBounds
    {
      if x < 0 || x >= width || y < 0 || y >= height then Err(OutOfBounds)
      else NonNegativeAll(Cells()); Ok(board[y, x])
    }

    /** setPieceAt: overwrites one cell and keeps the piece counter right; refuses
        coordinates off the board and negative values. */
    method SetPieceAt(x: int, y: int, piece: int) returns (r: Result<()>)
      requires Valid()
      modifies this, board
      ensures Valid()
      ensures r.Err? <==> !InBounds(old(Cells()), x, y) || piece < 0
      ensures r.Err? ==> r.error == InvalidPlacement && Cells() == old(Cells()) && numPieces == old(numPieces)
      ensures r.Ok? ==> Cells() == Write(old(Cells()), x, y, piece)
      ensures numMoves == old(numMoves) && points == old(points)
    {
      if x < 0 || x >= width || y < 0 || y >= height || piece < 0 {
        return Err(InvalidPlacement);
      }
      Place(x, y, piece);
      return Ok(());
    }

    /** The body of setPieceAt once its arguments are checked: one cell is overwritten and
        numPieces follows the cell from empty to occupied or back. */
    method Place(x: int, y: int, piece: int)
      requires Valid() && IsValidCoordinate(x, y) && piece >= 0
      modifies this, board
      ensures Valid()
      ensures Cells() == Write(old(Cells()), x, y, piece)
      ensures numPieces == old(numPieces) - (if old(board[y, x]) != 0 then 1 else 0) + (if piece != 0 then 1 else 0)
      ensures numMoves == old(numMoves) && points == old(points)
    {
      WriteOne(Cells(), x, y, piece);
      if board[y, x] != 0 && piece == 0 {
        numPieces := numPieces - 1;
      } else if board[y, x] == 0 && piece != 0 {
        numPieces := numPieces + 1;
      }
      Put(x, y, piece);
    }

    /** addPiece, with the random cell and value as the parameter p: refuses a full
        board, and otherwise puts a 2 or a 4 into the empty cell p. */
    method AddPiece(p: Placement) returns (r: Result<()>)
      requires Valid()
      requires p.value == 2 || p.value == 4
      requires SpaceLeft(Cells()) ==> InBounds(Cells(), p.x, p.y) && Cells()[p.y][p.x] == 0
      modifies this, board
      ensures Valid()
      ensures r.Err? <==> !SpaceLeft(old(Cells()))
      ensures r.Err? ==> r.error == NoSpaceLeft && Cells() == old(Cells()) && numPieces == old(numPieces)
      ensures r.Ok? ==> Cells() == Write(old(Cells()), p.x, p.y, p.value) && numPieces == old(numPieces) + 1
      ensures numMoves == old(numMoves) && points == old(points)
    {
      var space := IsSpaceLeft();
      if !space {
        return Err(NoSpaceLeft);
      }
      WriteOne(Cells(), p.x, p.y, p.value);
      Put(p.x, p.y, p.value);
      numPieces := numPieces + 1;
      return Ok(());
    }

    /** performMove(d): slide, merge, slide again. The move counts (numMoves grows by one)
        iff some phase changed something, which is exactly when isMovePossible(d) held
        before and exactly when the board changed; points grow by what the merges gain. */
    method PerformMove(direction: Direction) returns (moved: bool)
      requires Valid()
      modifies this, board
      ensures Valid()
      ensures Cells() == Move(old(Cells()), direction)
      ensures moved <==> MovePossible(old(Cells()), direction)
      ensures moved <==> Cells() != old(Cells())
      ensures points == old(points) + MergeGain(Slide(old(Cells()), direction), direction)
      ensures numPieces == old(numPieces) - MergeCount(Slide(old(Cells()), direction), direction)
      ensures !moved ==> points == old(points) && numPieces == old(numPieces)
      ensures old(points) <= points && numPieces <= old(numPieces)
      ensures numMoves == old(numMoves) + (if moved then 1 else 0)
    {
      ghost var g, points0, pieces0 := Cells(), points, numPieces;
      PhasesIffPossible(g, direction);
      MoveChangesIffPossible(g, direction);
      moved := SlideTiles(direction);
      ghost var g1 := Cells();
      assert g1 == Slide(g, direction) && (moved <==> g1 != g);
      assert points == points0 && numPieces == pieces0;
      MergeGainSign(g1, direction);
      var merged := MergeTiles(direction);
      ghost var g2 := Cells();
      assert g2 == Merge(g1, direction) && (merged <==> MergeCount(g1, direction) > 0);
      if merged {
        moved := true;
      }
      var slid := SlideTiles(direction);
      assert Cells() == Slide(g2, direction) && (slid <==> Cells() != g2);
      if slid {
        moved := true;
      }
      if moved {
        CountMove();
      }
    }

    /** numMoves++ */
    method CountMove()
      requires Valid()
      modifies this
      ensures Valid() && numMoves == old(numMoves) + 1
      ensures points == old(points) && numPieces == old(numPieces)
    {
      numMoves := numMoves + 1;
    }

    /** isMovePossible(d): some occupied cell has an in-bounds neighbour in direction d
        that is empty or equal to it. */
    method IsMovePossible(direction: Direction) returns (r: bool)
      requires Valid()
      ensures r == MovePossible(Cells(), direction)
    {
      var i := 0;
      while i < height
        invariant 0 <= i <= height
        invariant forall y, x :: 0 <= y < i && 0 <= x < width ==> !CanMoveFrom(Cells(), direction, x, y)
      {
        var j := 0;
        while j < width
          invariant 0 <= j <= width
          invariant forall y, x :: 0 <= y < i && 0 <= x < width ==> !CanMoveFrom(Cells(), direction, x, y)
          invariant forall x :: 0 <= x < j ==> !CanMoveFrom(Cells(), direction, x, i)
        {
          if board[i, j] != 0 {
            var newX := j + Dx(direction);
            var newY := i + Dy(direction);
            if IsValidCoordinate(newX, newY) && (board[newY, newX] == 0 || board[newY, newX] == board[i, j]) {
              assert CanMoveFrom(Cells(), direction, j, i);
              return true;
            }
          }
          j := j + 1;
        }
        i := i + 1;
      }
      return false;
    }

    /** isMovePossible(): some direction is possible. */
    method IsAnyMovePossible() returns (r: bool)
      requires Valid()
      ensures r == AnyMovePossible(Cells())
    {
      var n := 0;
      while n < |Directions|
        invariant 0 <= n <= |Directions|
        invariant forall m :: 0 <= m < n ==> !MovePossible(Cells(), Directions[m])
      {
        var possible := IsMovePossible(Directions[n]);
        if possible {
          return true;
        }
        n := n + 1;
      }
      assert !MovePossible(Cells(), Directions[0]) && !MovePossible(Cells(), Directions[1]);
      assert !MovePossible(Cells(), Directions[2]) && !MovePossible(Cells(), Directions[3]);
      return false;
    }

    /** isSpaceLeft: some cell is empty. */
    method IsSpaceLeft() returns (r: bool)
      requires Valid()
      ensures r == SpaceLeft(Cells())
    {
      var i := 0;
      while i < height
        invariant 0 <= i <= height
        invariant forall y, x :: 0 <= y < i && 0 <= x < width ==> Cells()[y][x] != 0
      {
        var j := 0;
        while j < width
          invariant 0 <= j <= width
          invariant forall y, x :: 0 <= y < i && 0 <= x < width ==> Cells()[y][x] != 0
          invariant forall x :: 0 <= x < j ==> Cells()[i][x] != 0
        {
          if board[i, j] == 0 {
            return true;
          }
          j := j + 1;
        }
        i := i + 1;
      }
      return false;
    }

    /** hasWon: some cell holds 2048 or more. */
    method HasWon() returns (r: bool)
      requires Valid()
      ensures r == Won(Cells())
    {
      var y := 0;
      while y < height
        invariant 0 <= y <= height
        invariant forall y', x :: 0 <= y' < y && 0 <= x < width ==> Cells()[y'][x] < 2048
      {
        var x := 0;
        while x < width
          invariant 0 <= x <= width
          invariant forall y', x' :: 0 <= y' < y && 0 <= x' < width ==> Cells()[y'][x'] < 2048
          invariant forall x' :: 0 <= x' < x ==> Cells()[y][x'] < 2048
        {
          if board[y, x] >= 2048 {
            return true;
          }
          x := x + 1;
        }
        y := y + 1;
      }
      return false;
    }

    /** slideTiles: every line in the direction of the move is compacted toward the edge;
        the result says whether any tile moved. */
    method SlideTiles(direction: Direction) returns (moved: bool)
      requires Valid()
      modifies board
      ensures Valid()
      ensures Cells() == Slide(old(Cells()), direction)
      ensures moved <==> Cells() != old(Cells())
    {
      ghost var g0 := Cells();
      var n := if width >= height then width else height;
      moved := false;
      SlidingStart(g0, direction);
      var i := 0;
      while i < n
        invariant 0 <= i <= n
        invariant SlideState(g0, direction, i, 0, moved)
      {
        var next := i + 1;
        moved := SlideRow(direction, i, next, g0, moved);
        i := next;
      }
      SlidingEnd(Cells(), g0, direction);
    }

    /** The board while slideTiles sweeps it from g0: the positions processed before the
        visit (i, j) are settled, and moved says whether a tile has moved so far. */
    ghost predicate SlideState(g0: Grid, direction: Direction, i: nat, j: nat, moved: bool)
      reads this, board
    {
      Valid() && SameShape(Cells(), g0) && Sliding(Cells(), g0, direction, i, j) &&
      (moved <==> !Untouched(g0, direction, i, j))
    }

    /** The inner loop of slideTiles, for one value i of the outer counter. */
    method SlideRow(direction: Direction, i: nat, ghost next: nat, ghost g0: Grid, moved0: bool) returns (moved: bool)
      requires next == i + 1
      requires SlideState(g0, direction, i, 0, moved0)
      modifies board
      ensures SlideState(g0, direction, next, 0, moved)
    {
      var n := if width >= height then width else height;
      moved := moved0;
      var j := 0;
      while j < n
        invariant 0 <= j <= n
        invariant SlideState(g0, direction, i, j, moved)
      {
        var next := j + 1;
        moved := SlideVisit(direction, i, j, next, g0, moved);
        j := next;
      }
      SlidingNextRow(Cells(), g0, direction, i, next);
    }

    /** One round of the loops of slideTiles: the visit (i, j) looks at the cell (x, y)
        and, when it is on the board and occupied, slides its tile. */
    method SlideVisit(direction: Direction, i: nat, j: nat, ghost next: nat, ghost g0: Grid, moved0: bool) returns (moved: bool)
      requires next == j + 1
      requires SlideState(g0, direction, i, j, moved0)
      modifies board
      ensures SlideState(g0, direction, i, next, moved)
    {
      var x := if Dx(direction) == 1 then width - 1 - j else j;
      var y := if Dy(direction) == 1 then height - 1 - i else i;
      assert Width(g0) == width && Height(g0) == height;
      if x >= 0 && x < width && y >= 0 && y < height && board[y, x] != 0 {
        SweepCell(width, height, direction, i, j);
        moved := SlideOne(x, y, direction, i, j, g0, moved0);
      } else if x >= 0 && x < width && y >= 0 && y < height {
        assert Cells()[y][x] == 0;
        SlidingEmptyCell(Cells(), g0, direction, i, j);
        moved := moved0;
      } else {
        SlidingOffBoard(Cells(), g0, direction, i, j);
        moved := moved0;
      }
    }

    /** The visit of slideTiles to an occupied cell (x, y): the tile moves in the
        direction of the move as far as the empty cells in front of it allow. */
    method SlideOne(x: int, y: int, direction: Direction, ghost i: nat, ghost j: nat, ghost g0: Grid, moved0: bool)
      returns (moved: bool)
      requires SlideState(g0, direction, i, j, moved0)
      requires SweepLine(direction, i, j) < LineCount(width, height, direction)
      requires SweepPos(direction, i, j) < LineLen(width, height, direction)
      requires x == CellX(width, direction, SweepLine(direction, i, j), SweepPos(direction, i, j))
      requires y == CellY(height, direction, SweepLine(direction, i, j), SweepPos(direction, i, j))
      requires board[y, x] != 0
      modifies board
      ensures SlideState(g0, direction, i, j + 1, moved)
    {
      ghost var k, p := SweepLine(direction, i, j), SweepPos(direction, i, j);
      ghost var start := Cells();
      ghost var o := Line(g0, direction, k);
      ShiftBegin(start, g0, direction, i, j);
      CellOfLine(width, height, direction, k, p);
      assert o[p] == board[y, x];
      ghost var q;
      moved, q := Carry(x, y, direction, k, Compact(o[..p]), o[p], o[p + 1..], start, moved0);
      ShiftEnd(Cells(), start, g0, direction, i, j, q);
    }

    /** The inner loop of slideTiles: the tile v at (x, y), position |c| of line k, moves
        one cell at a time while the cell in front of it is on the board and empty, and
        stops at position q, where the cell in front is off the board or occupied. */
    method Carry(x: int, y: int, direction: Direction, ghost k: int, ghost c: seq<int>, ghost v: int, ghost rest: seq<int>,
                 ghost start: Grid, moved0: bool)
      returns (moved: bool, ghost q: nat)
      requires Carrying(direction, k, c, v, rest, start, |c|, x, y) == true
      modifies board
      ensures Carrying(direction, k, c, v, rest, start, q, CellX(width, direction, k, q), CellY(height, direction, k, q)) == true
      ensures q == 0 || c[q - 1] != 0
      ensures moved == (moved0 || q < |c|)
    {
      moved := moved0;
      var newX, newY := x, y;
      q := |c|;
      while CanAdvance(newX, newY, direction, k, c, v, rest, start, q)
        invariant Carrying(direction, k, c, v, rest, start, q, newX, newY) == true
        invariant moved == (moved0 || q < |c|)
        decreases q
      {
        newX, newY := CarryStep(newX, newY, direction, k, c, v, rest, start, q);
        moved := true;
        q := q - 1;
      }
    }

    /** The state of the inner loop of slideTiles: a valid board whose line k is
        shifting the tile v, now at (x, y), position q of the line, as Shifting
        describes. Contracts state it as `Carrying(...) == true` so that the verifier
        takes it as one fact. */
    ghost predicate Carrying(direction: Direction, k: int, c: seq<int>, v: int, rest: seq<int>, start: Grid, q: nat,
                             x: int, y: int)
      reads this, board
    {
      Valid() && SameShape(Cells(), start) && 0 <= k < LineCount(width, height, direction) &&
      Shifting(Cells(), start, direction, k, c, v, rest, q) &&
      x == CellX(width, direction, k, q) && y == CellY(height, direction, k, q)
    }

    /** The condition of the inner loop of slideTiles: the cell in front of the tile at
        (x, y), position q of line k, is on the board and empty. */
    predicate CanAdvance(x: int, y: int, direction: Direction, ghost k: int, ghost c: seq<int>, ghost v: int, ghost rest: seq<int>,
                         ghost start: Grid, ghost q: nat)
      reads this, board
      requires Carrying(direction, k, c, v, rest, start, q, x, y) == true
      ensures CanAdvance(x, y, direction, k, c, v, rest, start, q) <==> q >= 1 && c[q - 1] == 0
    {
      ShiftCells(Cells(), start, direction, k, c, v, rest, q);
      FrontCell(width, height, direction, k, q);
      IsValidCoordinate(x + Dx(direction), y + Dy(direction)) && board[y + Dy(direction), x + Dx(direction)] == 0
    }

    /** One round of the inner loop of slideTiles: the tile at (x, y), position q of
        line k, moves into the empty cell (x', y') in front of it. */
    method CarryStep(x: int, y: int, direction: Direction, ghost k: int, ghost c: seq<int>, ghost v: int, ghost rest: seq<int>,
                     ghost start: Grid, ghost q: nat)
      returns (x': int, y': int)
      requires Carrying(direction, k, c, v, rest, start, q, x, y) == true
      requires q >= 1 && c[q - 1] == 0
      modifies board
      ensures Carrying(direction, k, c, v, rest, start, q - 1, x', y') == true
      ensures x' == x + Dx(direction) && y' == y + Dy(direction)
    {
      x', y' := x + Dx(direction), y + Dy(direction);
      ghost var before := Cells();
      assert Width(before) == width && Height(before) == height;
      ShiftCells(before, start, direction, k, c, v, rest, q);
      FrontCell(width, height, direction, k, q);
      assert before[y][x] == board[y, x] == v;
      ShiftStep(before, start, direction, k, c, v, rest, q);
      PutPair(x', y', board[y, x], x, y, 0);
    }

    /** mergeTiles: every tile equal to the tile in front of it in the direction of the
        move, and not blocked by a merge already made there this turn, is merged into it;
        the points grow by each merged value. The result says whether anything merged. */
    method MergeTiles(direction: Direction) returns (merged: bool)
      requires Valid()
      modifies this, board
      ensures Valid()
      ensures Cells() == Merge(old(Cells()), direction)
      ensures points == old(points) + MergeGain(old(Cells()), direction)
      ensures numPieces == old(numPieces) - MergeCount(old(Cells()), direction)
      ensures merged <==> MergeCount(old(Cells()), direction) > 0
      ensures numMoves == old(numMoves)
    {
      ghost var g0 := Cells();
      var mergedThisTurn := new bool[height, width]((y, x) => false);
      var n := if width >= height then width else height;
      merged := false;
      ghost var gains, merges := MergeStateStart(g0, direction, mergedThisTurn, old(points), old(numPieces));
      var i := 0;
      while i < n
        invariant 0 <= i <= n
        invariant MergeState(g0, direction, i, 0, mergedThisTurn, gains, merges, merged, old(points), old(numPieces)) == true
        invariant numMoves == old(numMoves)
      {
        var next := i + 1;
        merged, gains, merges := MergeRow(direction, i, next, mergedThisTurn, g0, gains, merges, merged, old(points), old(numPieces));
        i := next;
      }
      MergeStateEnd(g0, direction, mergedThisTurn, gains, merges, merged, old(points), old(numPieces));
    }

    /** The state of mergeTiles before the visit (i, j): every line is the merge scan of
        its line in g0 over the processed positions, the points and the piece count have
        moved by the recorded gains and merges, merged says whether any merge was made,
        and every set mergedThisTurn flag lies behind the scan. Contracts state it as
        `MergeState(...) == true` so that the verifier takes it as one fact rather than
        checking each of its conjuncts separately at every call and loop iteration. */
    ghost predicate MergeState(g0: Grid, direction: Direction, i: nat, j: nat, flags: array2<bool>,
                               gains: seq<int>, merges: seq<int>, merged: bool, points0: int, pieces0: int)
      reads this, board, flags
    {
      Valid() && SameShape(Cells(), g0) && Merging(Cells(), g0, direction, i, j, gains, merges) &&
      points == points0 + Sum(gains) && numPieces == pieces0 - Sum(merges) &&
      Sum(merges) >= 0 && (merged <==> Sum(merges) > 0) &&
      FlagsBehind(flags, width, height, direction, i, j)
    }

    /** The state mergeTiles starts from: nothing processed, nothing flagged. */
    lemma MergeStateStart(g0: Grid, direction: Direction, flags: array2<bool>, points0: int, pieces0: int)
      returns (gains: seq<int>, merges: seq<int>)
      requires Valid() && Cells() == g0 && points == points0 && numPieces == pieces0
      requires flags.Length0 == height && flags.Length1 == width
      requires forall y, x :: 0 <= y < height && 0 <= x < width ==> !flags[y, x]
      ensures MergeState(g0, direction, 0, 0, flags, gains, merges, false, points0, pieces0) == true
    {
      gains := seq(LineCount(width, height, direction), _ => 0);
      merges := gains;
      MergingStart(g0, direction);
      FlagsStart(flags, width, height, direction);
    }

    /** Once every row is swept, the board is the merged board and the counters have
        moved by the gain and the number of merges of the whole board. */
    lemma MergeStateEnd(g0: Grid, direction: Direction, flags: array2<bool>, gains: seq<int>, merges: seq<int>,
                        merged: bool, points0: int, pieces0: int)
      requires Valid() && (MergeState(g0, direction, Span(width, height), 0, flags, gains, merges, merged, points0, pieces0) == true)
      ensures Valid() && Cells() == Merge(g0, direction)
      ensures points == points0 + MergeGain(g0, direction) && numPieces == pieces0 - MergeCount(g0, direction)
      ensures merged <==> MergeCount(g0, direction) > 0
    {
      MergingEnd(Cells(), g0, direction, gains, merges);
    }

    /** The end of a row of the sweep is the start of the next one. */
    lemma MergeStateNextRow(g0: Grid, direction: Direction, i: nat, next: nat, flags: array2<bool>, gains: seq<int>, merges: seq<int>,
                            merged: bool, points0: int, pieces0: int)
      requires next == i + 1
      requires Valid() && (MergeState(g0, direction, i, Span(width, height), flags, gains, merges, merged, points0, pieces0) == true)
      ensures MergeState(g0, direction, next, 0, flags, gains, merges, merged, points0, pieces0) == true
    {
      MergingNextRow(Cells(), g0, direction, i, gains, merges);
      FlagsNextRow(flags, width, height, direction, i);
    }

    /** A visit to a cell off the board or without a tile changes nothing. */
    lemma MergeStatePass(g0: Grid, direction: Direction, i: nat, j: nat, flags: array2<bool>, gains: seq<int>, merges: seq<int>,
                         merged: bool, points0: int, pieces0: int)
      requires MergeState(g0, direction, i, j, flags, gains, merges, merged, points0, pieces0) == true
      requires var x, y := SweepX(width, direction, j), SweepY(height, direction, i);
        !(0 <= x < width && 0 <= y < height && board[y, x] != 0)
      ensures MergeState(g0, direction, i, j + 1, flags, gains, merges, merged, points0, pieces0) == true
    {
      var g := Cells();
      SweepCell(width, height, direction, i, j);
      var k, p := SweepLine(direction, i, j), SweepPos(direction, i, j);
      if k < LineCount(width, height, direction) && p < LineLen(width, height, direction) {
        DoneVisit(width, height, direction, i, j);
        MergingLine(g, g0, direction, i, j, gains, merges, k);
        assert Line(g, direction, k)[p] == 0;
      }
      MergingSkip(g, g0, direction, i, j, gains, merges);
      FlagsAdvance(flags, width, height, direction, i, j);
    }

    /** A visit to a tile that does not merge changes nothing. */
    lemma MergeStateSkip(g0: Grid, direction: Direction, i: nat, j: nat, flags: array2<bool>, gains: seq<int>, merges: seq<int>,
                         merged: bool, points0: int, pieces0: int)
      requires MergeState(g0, direction, i, j, flags, gains, merges, merged, points0, pieces0) == true
      requires var k, p := SweepLine(direction, i, j), SweepPos(direction, i, j);
        k < LineCount(width, height, direction) && p < LineLen(width, height, direction) ==>
          !MergesAt(ScanUpTo(Line(g0, direction, k), p), p)
      ensures MergeState(g0, direction, i, j + 1, flags, gains, merges, merged, points0, pieces0) == true
    {
      MergingSkip(Cells(), g0, direction, i, j, gains, merges);
      FlagsAdvance(flags, width, height, direction, i, j);
    }

    /** One pass of mergeTiles's inner loop. */
    method MergeRow(direction: Direction, i: nat, ghost next: nat, flags: array2<bool>, ghost g0: Grid,
                    ghost gains0: seq<int>, ghost merges0: seq<int>, merged0: bool, ghost points0: int, ghost pieces0: int)
      returns (merged: bool, ghost gains: seq<int>, ghost merges: seq<int>)
      requires next == i + 1
      requires MergeState(g0, direction, i, 0, flags, gains0, merges0, merged0, points0, pieces0) == true
      modifies this, board, flags
      ensures MergeState(g0, direction, next, 0, flags, gains, merges, merged, points0, pieces0) == true
      ensures numMoves == old(numMoves)
    {
      var n := if width >= height then width else height;
      merged, gains, merges := merged0, gains0, merges0;
      var j := 0;
      while j < n
        invariant 0 <= j <= n
        invariant MergeState(g0, direction, i, j, flags, gains, merges, merged, points0, pieces0) == true
        invariant numMoves == old(numMoves)
      {
        var next := j + 1;
        merged, gains, merges := MergeVisit(direction, i, j, next, flags, g0, gains, merges, merged, points0, pieces0);
        j := next;
      }
      MergeStateNextRow(g0, direction, i, next, flags, gains, merges, merged, points0, pieces0);
    }

    /** One visit of mergeTiles: the cell (x, y) of the sweep, when it is on the board and
        holds a tile, is offered to the cell in front of it. */
    method MergeVisit(direction: Direction, i: nat, j: nat, ghost next: nat, flags: array2<bool>, ghost g0: Grid,
                      ghost gains0: seq<int>, ghost merges0: seq<int>, merged0: bool, ghost points0: int, ghost pieces0: int)
      returns (merged: bool, ghost gains: seq<int>, ghost merges: seq<int>)
      requires next == j + 1
      requires MergeState(g0, direction, i, j, flags, gains0, merges0, merged0, points0, pieces0) == true
      modifies this, board, flags
      ensures MergeState(g0, direction, i, next, flags, gains, merges, merged, points0, pieces0) == true
      ensures numMoves == old(numMoves)
    {
      var x := if Dx(direction) == 1 then width - 1 - j else j;
      var y := if Dy(direction) == 1 then height - 1 - i else i;
      assert Width(g0) == width && Height(g0) == height;
      if x >= 0 && x < width && y >= 0 && y < height && board[y, x] != 0 {
        merged, gains, merges := MergeOne(x, y, direction, i, j, flags, g0, gains0, merges0, merged0, points0, pieces0);
      } else {
        MergeStatePass(g0, direction, i, j, flags, gains0, merges0, merged0, points0, pieces0);
        merged, gains, merges := merged0, gains0, merges0;
      }
    }

    /** A visit to the tile at (x, y): it merges into the cell in front of it when that
        cell is on the board, holds an equal tile and has not merged this turn; the cell
        in front doubles, (x, y) empties, the points grow by the doubled value and there
        is one piece fewer. */
    method MergeOne(x: int, y: int, direction: Direction, ghost i: nat, ghost j: nat, flags: array2<bool>, ghost g0: Grid,
                    ghost gains0: seq<int>, ghost merges0: seq<int>, merged0: bool, ghost points0: int, ghost pieces0: int)
      returns (merged: bool, ghost gains: seq<int>, ghost merges: seq<int>)
      requires MergeState(g0, direction, i, j, flags, gains0, merges0, merged0, points0, pieces0) == true
      requires x == SweepX(width, direction, j) && y == SweepY(height, direction, i)
      requires 0 <= x < width && 0 <= y < height && board[y, x] != 0
      modifies this, board, flags
      ensures MergeState(g0, direction, i, j + 1, flags, gains, merges, merged, points0, pieces0) == true
      ensures numMoves == old(numMoves)
    {
      var newX := x + Dx(direction);
      var newY := y + Dy(direction);
      ghost var now := Cells();
      assert Width(g0) == width && Height(g0) == height;
      MergeDecision(now, g0, direction, i, j, gains0, merges0, flags, x, y, newX, newY);
      if IsValidCoordinate(newX, newY) && board[newY, newX] == board[y, x] && !flags[newY, newX] {
        gains, merges := MergeInto(x, y, newX, newY, direction, i, j, flags, g0, gains0, merges0, merged0, points0, pieces0);
        merged := true;
      } else {
        MergeStateSkip(g0, direction, i, j, flags, gains0, merges0, merged0, points0, pieces0);
        merged, gains, merges := merged0, gains0, merges0;
      }
    }
  
    /** The merge branch of mergeTiles: the tile at (x, y) merges into its equal neighbour
        (x', y'), which has not merged yet, and the neighbour is marked as merged. */
    method MergeInto(x: int, y: int, x': int, y': int, direction: Direction, ghost i: nat, ghost j: nat,
                     flags: array2<bool>, ghost g0: Grid, ghost gains0: seq<int>, ghost merges0: seq<int>,
                     ghost merged0: bool, ghost points0: int, ghost pieces0: int)
      returns (ghost gains: seq<int>, ghost merges: seq<int>)
      requires MergeState(g0, direction, i, j, flags, gains0, merges0, merged0, points0, pieces0) == true
      requires var k, p := SweepLine(direction, i, j), SweepPos(direction, i, j);
        k < LineCount(width, height, direction) && 1 <= p < LineLen(width, height, direction) &&
        x == CellX(width, direction, k, p) && y == CellY(height, direction, k, p) &&
        x' == CellX(width, direction, k, p - 1) && y' == CellY(height, direction, k, p - 1) &&
        MergesAt(ScanUpTo(Line(g0, direction, k), p), p)
      requires x == SweepX(width, direction, j) && y == SweepY(height, direction, i)
      requires x' == x + Dx(direction) && y' == y + Dy(direction)
      requires IsValidCoordinate(x, y) && IsValidCoordinate(x', y') && board[y', x'] == board[y, x] != 0
      modifies this, board, flags
      ensures MergeState(g0, direction, i, j + 1, flags, gains, merges, true, points0, pieces0) == true
      ensures numMoves == old(numMoves)
    {
      ghost var next;
      gains, merges, next := MergeStep(x, y, x', y', direction, i, j, flags, g0, gains0, merges0, merged0, points0, pieces0);
      MergePair(x, y, x', y');
      assert Cells() == next;
      MarkMerged(flags, x', y', direction, i, j);
    }

    /** What the merge branch does to the board and to the records of the sweep. */
    lemma MergeStep(x: int, y: int, x': int, y': int, direction: Direction, i: nat, j: nat,
                    flags: array2<bool>, g0: Grid, gains0: seq<int>, merges0: seq<int>,
                    merged0: bool, points0: int, pieces0: int)
      returns (gains: seq<int>, merges: seq<int>, next: Grid)
      requires MergeState(g0, direction, i, j, flags, gains0, merges0, merged0, points0, pieces0) == true
      requires var k, p := SweepLine(direction, i, j), SweepPos(direction, i, j);
        k < LineCount(width, height, direction) && 1 <= p < LineLen(width, height, direction) &&
        x == CellX(width, direction, k, p) && y == CellY(height, direction, k, p) &&
        x' == CellX(width, direction, k, p - 1) && y' == CellY(height, direction, k, p - 1) &&
        MergesAt(ScanUpTo(Line(g0, direction, k), p), p)
      requires x == SweepX(width, direction, j) && y == SweepY(height, direction, i)
      requires x' == x + Dx(direction) && y' == y + Dy(direction)
      requires IsValidCoordinate(x, y) && IsValidCoordinate(x', y') && board[y', x'] == board[y, x] != 0
      ensures next == Write(Write(Cells(), x', y', 2 * board[y', x']), x, y, 0)
      ensures SameShape(next, g0) && Merging(next, g0, direction, i, j + 1, gains, merges)
      ensures Sum(gains) == Sum(gains0) + 2 * board[y', x'] && Sum(merges) == Sum(merges0) + 1
    {
      var now := Cells();
      var k := SweepLine(direction, i, j);
      var v := 2 * board[y', x'];
      assert v == 2 * now[y'][x'];
      next := Write(Write(now, x', y', v), x, y, 0);
      assert Width(g0) == width && Height(g0) == height;
      MergingVisit(now, g0, direction, i, j, gains0, merges0, x, y, x', y', v, next, k);
      gains := gains0[k := gains0[k] + v];
      merges := merges0[k := merges0[k] + 1];
      SumUpdate(gains0, k, gains0[k] + v);
      SumUpdate(merges0, k, merges0[k] + 1);
    }

    /** The merge itself: the tile at (x2, y2) doubles, (x, y) empties, the points grow
        by the doubled value and there is one piece fewer. */
    method MergePair(x: int, y: int, x2: int, y2: int)
      requires Valid() && IsValidCoordinate(x, y) && IsValidCoordinate(x2, y2) && (x != x2 || y != y2)
      requires board[y2, x2] == board[y, x] != 0
      modifies this, board
      ensures Valid()
      ensures Cells() == Write(Write(old(Cells()), x2, y2, 2 * old(board[y2, x2])), x, y, 0)
      ensures points == old(points) + 2 * old(board[y2, x2]) && numPieces == old(numPieces) - 1
      ensures numMoves == old(numMoves)
    {
      ghost var g := Cells();
      NonNegativeAll(g);
      assert board[y2, x2] == g[y2][x2] >= 0;
      var v := board[y2, x2] * 2;
      Place(x2, y2, v);
      Place(x, y, 0);
      points := points + v;
    }

    /** mergedThisTurn[y][x] := true, for the cell (x, y) in front of the visit (i, j). */
    method MarkMerged(flags: array2<bool>, x: int, y: int, ghost direction: Direction, ghost i: nat, ghost j: nat)
      requires Valid() && FlagsBehind(flags, width, height, direction, i, j)
      requires 0 <= SweepX(width, direction, j) < width && 0 <= SweepY(height, direction, i) < height
      requires x == SweepX(width, direction, j) + Dx(direction) && y == SweepY(height, direction, i) + Dy(direction)
      requires 0 <= x < width && 0 <= y < height
      modifies flags
      ensures FlagsBehind(flags, width, height, direction, i, j + 1)
      ensures Valid() && Cells() == old(Cells())
    {
      FlagSet(flags, width, height, direction, i, j);
      flags[y, x] := true;
    }
  }

  /** new Simulator(width, height, r): refused unless the board is at least 2 x 2;
      otherwise a new game with the two starting tiles in place. */
  method NewSimulator(width: int, height: int, first: Placement, second: Placement) returns (r: Result<Simulator>)
    requires 2 <= width && 2 <= height ==>
      0 <= first.x < width && 0 <= first.y < height && (first.value == 2 || first.value == 4) &&
      0 <= second.x < width && 0 <= second.y < height && (second.value == 2 || second.value == 4) &&
      (second.x != first.x || second.y != first.y)
    ensures r.Err? <==> width < 2 || height < 2
    ensures r.Err? ==> r.error == BadDimensions
    ensures r.Ok? ==> fresh(r.value) && r.value.Valid() && r.value.width == width && r.value.height == height
    ensures r.Ok? ==> r.value.numMoves == 0 && r.value.numPieces == 2 && r.value.points == 0
    ensures r.Ok? ==>
      r.value.Cells() == Write(Write(EmptyGrid(width, height), first.x, first.y, first.value), second.x, second.y, second.value)
  {
    if width < 2 || height < 2 {
      return Err(BadDimensions);
    }
    var game := new Simulator(width, height, first, second);
    return Ok(game);
  }
}
