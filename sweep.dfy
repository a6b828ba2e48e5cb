/** The order in which slideTiles and mergeTiles visit the cells. Both run i and j from
    0 to max(width, height) - 1 and look at column x = (dx == 1 ? width - 1 - j : j) of
    row y = (dy == 1 ? height - 1 - i : i), skipping pairs off the board. In line terms
    the visit (i, j) is position SweepPos of line SweepLine, so every line is visited
    from its edge inward, and Done says how far each line has got. */
module Sweeps {
  import opened Lines
  import opened Grids
  import opened MoveFacts

  /** The bound of both sweep counters, Math.max(boardWidth, boardHeight). */
  function Span(w: nat, h: nat): nat
  {
    if w >= h then w else h
  }

  function SweepX(w: nat, d: Direction, j: int): int
  {
    if Dx(d) == 1 then w - 1 - j else j
  }

  function SweepY(h: nat, d: Direction, i: int): int
  {
    if Dy(d) == 1 then h - 1 - i else i
  }

  function SweepLine(d: Direction, i: int, j: int): int
  {
    if Horizontal(d) then i else j
  }

  function SweepPos(d: Direction, i: int, j: int): int
  {
    if Horizontal(d) then j else i
  }

  /** The sweep order reversed twice is the identity. */
  lemma SweepTwice(w: nat, h: nat, d: Direction, i: int, j: int)
    ensures SweepX(w, d, SweepX(w, d, j)) == j && SweepY(h, d, SweepY(h, d, i)) == i
  {
  }

  /** The visit (i, j) looks at the cell of line SweepLine at position SweepPos, and that
      cell is on the board iff the line and position exist. */
  lemma SweepCell(w: nat, h: nat, d: Direction, i: int, j: int)
    requires 0 <= i && 0 <= j
    ensures SweepX(w, d, j) == CellX(w, d, SweepLine(d, i, j), SweepPos(d, i, j))
    ensures SweepY(h, d, i) == CellY(h, d, SweepLine(d, i, j), SweepPos(d, i, j))
    ensures (0 <= SweepX(w, d, j) < w && 0 <= SweepY(h, d, i) < h) <==>
      (SweepLine(d, i, j) < LineCount(w, h, d) && SweepPos(d, i, j) < LineLen(w, h, d))
  {
  }

  /** How many positions of line k the sweep has processed before the visit (i, j). */
  function Done(w: nat, h: nat, d: Direction, i: nat, j: nat, k: nat): (r: nat)
    ensures r <= LineLen(w, h, d)
  {
    if Horizontal(d) then
      (if k < i then w else if k == i then (if j <= w then j else w) else 0)
    else
      var n := i + (if k < j then 1 else 0);
      if n <= h then n else h
  }

  /** Visiting a cell on the board processes exactly that cell's position. */
  lemma DoneVisit(w: nat, h: nat, d: Direction, i: nat, j: nat)
    requires SweepLine(d, i, j) < LineCount(w, h, d) && SweepPos(d, i, j) < LineLen(w, h, d)
    ensures Done(w, h, d, i, j, SweepLine(d, i, j)) == SweepPos(d, i, j)
    ensures Done(w, h, d, i, j + 1, SweepLine(d, i, j)) == SweepPos(d, i, j) + 1
    ensures forall k :: 0 <= k < LineCount(w, h, d) && k != SweepLine(d, i, j) ==>
      Done(w, h, d, i, j + 1, k) == Done(w, h, d, i, j, k)
  {
  }

  /** Visiting a pair off the board processes nothing. */
  lemma DoneSkip(w: nat, h: nat, d: Direction, i: nat, j: nat)
    requires !(SweepLine(d, i, j) < LineCount(w, h, d) && SweepPos(d, i, j) < LineLen(w, h, d))
    ensures forall k :: 0 <= k < LineCount(w, h, d) ==> Done(w, h, d, i, j + 1, k) == Done(w, h, d, i, j, k)
  {
  }

  /** The end of one pass of the inner counter is the start of the next. */
  lemma DoneNextRow(w: nat, h: nat, d: Direction, i: nat)
    ensures forall k :: 0 <= k < LineCount(w, h, d) ==> Done(w, h, d, i, Span(w, h), k) == Done(w, h, d, i + 1, 0, k)
  {
  }

  /** Nothing is processed at the start; every line is processed in full at the end. */
  lemma DoneEnds(w: nat, h: nat, d: Direction)
    ensures forall k :: 0 <= k < LineCount(w, h, d) ==> Done(w, h, d, 0, 0, k) == 0
    ensures forall k :: 0 <= k < LineCount(w, h, d) ==> Done(w, h, d, Span(w, h), 0, k) == LineLen(w, h, d)
  {
  }

  /** The cell in front of position q of a line is on the board iff q is not on the edge. */
  lemma FrontCell(w: nat, h: nat, d: Direction, k: int, q: int)
    requires 0 <= k < LineCount(w, h, d) && 0 <= q < LineLen(w, h, d)
    ensures CellX(w, d, k, q) + Dx(d) == CellX(w, d, k, q - 1)
    ensures CellY(h, d, k, q) + Dy(d) == CellY(h, d, k, q - 1)
    ensures (0 <= CellX(w, d, k, q - 1) < w && 0 <= CellY(h, d, k, q - 1) < h) <==> q >= 1
  {
    CellOfLine(w, h, d, k, q);
  }

  /** Overwriting position q - 1 with a and then position q with b, as one step of
      slideTiles or mergeTiles does, changes line k only, at those two positions. */
  lemma WritePair(g: Grid, d: Direction, k: int, q: int, a: int, b: int)
    requires IsGrid(g) && 0 <= k < LineCount(Width(g), Height(g), d) && 1 <= q < LineLen(Width(g), Height(g), d)
    ensures InBounds(g, CellX(Width(g), d, k, q - 1), CellY(Height(g), d, k, q - 1))
    ensures InBounds(g, CellX(Width(g), d, k, q), CellY(Height(g), d, k, q))
    ensures var w, h := Width(g), Height(g);
      var g' := Write(Write(g, CellX(w, d, k, q - 1), CellY(h, d, k, q - 1), a), CellX(w, d, k, q), CellY(h, d, k, q), b);
      Line(g', d, k) == Line(g, d, k)[q - 1 := a][q := b] &&
      (forall k' :: 0 <= k' < LineCount(w, h, d) && k' != k ==> Line(g', d, k') == Line(g, d, k')) &&
      CountPieces(g') == CountPieces(g)
        - (if Line(g, d, k)[q - 1] != 0 then 1 else 0) + (if a != 0 then 1 else 0)
        - (if Line(g, d, k)[q] != 0 then 1 else 0) + (if b != 0 then 1 else 0) &&
      (NonNegative(g) && a >= 0 && b >= 0 ==> NonNegative(g'))
  {
    var w, h := Width(g), Height(g);
    CellOfLine(w, h, d, k, q - 1);
    CellOfLine(w, h, d, k, q);
    var x1, y1 := CellX(w, d, k, q - 1), CellY(h, d, k, q - 1);
    var x2, y2 := CellX(w, d, k, q), CellY(h, d, k, q);
    var g1 := Write(g, x1, y1, a);
    var g' := Write(g1, x2, y2, b);
    assert Line(g', d, k) == Line(g, d, k)[q - 1 := a][q := b] &&
      forall k' :: 0 <= k' < LineCount(w, h, d) && k' != k ==> Line(g', d, k') == Line(g, d, k')
    by {
      LineAfterWrite(g, d, k, q - 1, a);
      LineAfterWrite(g1, d, k, q, b);
    }
    assert CountPieces(g') == CountPieces(g)
        - (if Line(g, d, k)[q - 1] != 0 then 1 else 0) + (if a != 0 then 1 else 0)
        - (if Line(g, d, k)[q] != 0 then 1 else 0) + (if b != 0 then 1 else 0)
    by {
      CountPiecesAfterWrite(g, x1, y1, a);
      CountPiecesAfterWrite(g1, x2, y2, b);
      assert g1[y2][x2] == g[y2][x2];
    }
    assert NonNegative(g) && a >= 0 && b >= 0 ==> NonNegative(g') by {
      NonNegativeAfterWrite(g, x1, y1, a);
      NonNegativeAfterWrite(g1, x2, y2, b);
    }
  }

  /** WritePair for a given result board. */
  lemma PairLines(g: Grid, d: Direction, k: int, q: int, a: int, b: int, x1: int, y1: int, x2: int, y2: int, g': Grid)
    requires IsGrid(g) && 0 <= k < LineCount(Width(g), Height(g), d) && 1 <= q < LineLen(Width(g), Height(g), d)
    requires x1 == CellX(Width(g), d, k, q - 1) && y1 == CellY(Height(g), d, k, q - 1)
    requires x2 == CellX(Width(g), d, k, q) && y2 == CellY(Height(g), d, k, q)
    requires InBounds(g, x1, y1) && InBounds(g, x2, y2) && g' == Write(Write(g, x1, y1, a), x2, y2, b)
    ensures IsGrid(g') && Width(g') == Width(g) && Height(g') == Height(g)
    ensures Line(g', d, k) == Line(g, d, k)[q - 1 := a][q := b]
    ensures forall k' :: 0 <= k' < LineCount(Width(g), Height(g), d) && k' != k ==> Line(g', d, k') == Line(g, d, k')
  {
    WritePair(g, d, k, q, a, b);
  }

  /** The same for a single cell, as setPieceAt and addPiece do. */
  lemma WriteOne(g: Grid, x: int, y: int, v: int)
    requires IsGrid(g) && InBounds(g, x, y)
    ensures CountPieces(Write(g, x, y, v)) ==
      CountPieces(g) - (if g[y][x] != 0 then 1 else 0) + (if v != 0 then 1 else 0)
    ensures NonNegative(g) && v >= 0 ==> NonNegative(Write(g, x, y, v))
  {
    CountPiecesAfterWrite(g, x, y, v);
    NonNegativeAfterWrite(g, x, y, v);
  }

  // ---------------------------------------------------------------------------
  // The board while slideTiles sweeps it
  // ---------------------------------------------------------------------------

  /** Every line of g is the line of g0 with its processed positions settled. */
  ghost predicate Sliding(g: Grid, g0: Grid, d: Direction, i: nat, j: nat)
    requires SameShape(g, g0)
  {
    SlidLines(g, g0, d, i, j, LineCount(Width(g0), Height(g0), d))
  }

  /** The same for lines 0 .. n - 1. */
  ghost predicate SlidLines(g: Grid, g0: Grid, d: Direction, i: nat, j: nat, n: nat)
    requires SameShape(g, g0) && n <= LineCount(Width(g0), Height(g0), d)
  {
    n == 0 ||
    (SlidLines(g, g0, d, i, j, n - 1) &&
     Line(g, d, n - 1) == SlidUpTo(Line(g0, d, n - 1), Done(Width(g0), Height(g0), d, i, j, n - 1)))
  }

  lemma {:induction false} SlidLinesAll(g: Grid, g0: Grid, d: Direction, i: nat, j: nat, n: nat)
    requires SameShape(g, g0) && n <= LineCount(Width(g0), Height(g0), d)
    ensures SlidLines(g, g0, d, i, j, n) <==>
      forall k :: 0 <= k < n ==> Line(g, d, k) == SlidUpTo(Line(g0, d, k), Done(Width(g0), Height(g0), d, i, j, k))
  {
    if n > 0 {
      var m := n - 1;
      SlidLinesAll(g, g0, d, i, j, m);
      if SlidLines(g, g0, d, i, j, n) {
        forall k | 0 <= k < n
          ensures Line(g, d, k) == SlidUpTo(Line(g0, d, k), Done(Width(g0), Height(g0), d, i, j, k))
        {
          if k == m {
          }
        }
      }
    }
  }

  /** Sliding, line by line. */
  lemma SlidingAll(g: Grid, g0: Grid, d: Direction, i: nat, j: nat)
    requires SameShape(g, g0)
    ensures Sliding(g, g0, d, i, j) <==>
      forall k :: 0 <= k < LineCount(Width(g0), Height(g0), d) ==>
        Line(g, d, k) == SlidUpTo(Line(g0, d, k), Done(Width(g0), Height(g0), d, i, j, k))
  {
    SlidLinesAll(g, g0, d, i, j, LineCount(Width(g0), Height(g0), d));
  }

  /** No tile has moved yet: settling the processed positions of every line left the
      line as it was. */
  ghost predicate Untouched(g0: Grid, d: Direction, i: nat, j: nat)
    requires IsGrid(g0)
  {
    UntouchedLines(g0, d, i, j, LineCount(Width(g0), Height(g0), d))
  }

  /** The same for lines 0 .. n - 1. */
  ghost predicate UntouchedLines(g0: Grid, d: Direction, i: nat, j: nat, n: nat)
    requires IsGrid(g0) && n <= LineCount(Width(g0), Height(g0), d)
  {
    n == 0 ||
    (UntouchedLines(g0, d, i, j, n - 1) &&
     SlidUpTo(Line(g0, d, n - 1), Done(Width(g0), Height(g0), d, i, j, n - 1)) == Line(g0, d, n - 1))
  }

  lemma {:induction false} UntouchedLinesAll(g0: Grid, d: Direction, i: nat, j: nat, n: nat)
    requires IsGrid(g0) && n <= LineCount(Width(g0), Height(g0), d)
    ensures UntouchedLines(g0, d, i, j, n) <==>
      forall k :: 0 <= k < n ==> SlidUpTo(Line(g0, d, k), Done(Width(g0), Height(g0), d, i, j, k)) == Line(g0, d, k)
  {
    if n > 0 {
      UntouchedLinesAll(g0, d, i, j, n - 1);
    }
  }

  /** Untouched, line by line. */
  lemma UntouchedAll(g0: Grid, d: Direction, i: nat, j: nat)
    requires IsGrid(g0)
    ensures Untouched(g0, d, i, j) <==>
      forall k :: 0 <= k < LineCount(Width(g0), Height(g0), d) ==>
        SlidUpTo(Line(g0, d, k), Done(Width(g0), Height(g0), d, i, j, k)) == Line(g0, d, k)
  {
    UntouchedLinesAll(g0, d, i, j, LineCount(Width(g0), Height(g0), d));
  }

  lemma SlidingStart(g0: Grid, d: Direction)
    requires IsGrid(g0)
    ensures Sliding(g0, g0, d, 0, 0) && Untouched(g0, d, 0, 0)
  {
    DoneEnds(Width(g0), Height(g0), d);
    SlidingAll(g0, g0, d, 0, 0);
    UntouchedAll(g0, d, 0, 0);
  }

  lemma SlidingNextRow(g: Grid, g0: Grid, d: Direction, i: nat, next: nat)
    requires next == i + 1
    requires SameShape(g, g0) && Sliding(g, g0, d, i, Span(Width(g0), Height(g0)))
    ensures Sliding(g, g0, d, next, 0)
    ensures Untouched(g0, d, i, Span(Width(g0), Height(g0))) <==> Untouched(g0, d, next, 0)
  {
    DoneNextRow(Width(g0), Height(g0), d, i);
    SameProgress(g, g0, d, i, Span(Width(g0), Height(g0)), next, 0);
  }

  /** After the whole sweep the board is the slid board. */
  lemma SlidingEnd(g: Grid, g0: Grid, d: Direction)
    requires SameShape(g, g0) && Sliding(g, g0, d, Span(Width(g0), Height(g0)), 0)
    ensures g == Slide(g0, d)
    ensures Untouched(g0, d, Span(Width(g0), Height(g0)), 0) <==> g == g0
  {
    DoneEnds(Width(g0), Height(g0), d);
    SlidingAll(g, g0, d, Span(Width(g0), Height(g0)), 0);
    UntouchedAll(g0, d, Span(Width(g0), Height(g0)), 0);
    forall k | 0 <= k < LineCount(Width(g0), Height(g0), d) ensures Line(g, d, k) == Line(Slide(g0, d), d, k) {
      SlidUpToAll(Line(g0, d, k));
    }
    LinesDetermineGrid(g, Slide(g0, d), d);
    if Untouched(g0, d, Span(Width(g0), Height(g0)), 0) {
      LinesDetermineGrid(g, g0, d);
    }
  }

  /** What Sliding says about one line. */
  lemma SlidingLine(g: Grid, g0: Grid, d: Direction, i: nat, j: nat, k: nat)
    requires SameShape(g, g0) && Sliding(g, g0, d, i, j) && k < LineCount(Width(g0), Height(g0), d)
    ensures Line(g, d, k) == SlidUpTo(Line(g0, d, k), Done(Width(g0), Height(g0), d, i, j, k))
  {
    SlidLinesAt(g, g0, d, i, j, LineCount(Width(g0), Height(g0), d), k);
  }

  lemma {:induction false} SlidLinesAt(g: Grid, g0: Grid, d: Direction, i: nat, j: nat, n: nat, k: nat)
    requires SameShape(g, g0) && n <= LineCount(Width(g0), Height(g0), d)
    requires SlidLines(g, g0, d, i, j, n) && k < n
    ensures Line(g, d, k) == SlidUpTo(Line(g0, d, k), Done(Width(g0), Height(g0), d, i, j, k))
    decreases n
  {
    if k < n - 1 {
      SlidLinesAt(g, g0, d, i, j, n - 1, k);
    }
  }

  /** Two sweep positions that leave every line at the same stage agree on Sliding and on
      Untouched. */
  lemma SameProgress(g: Grid, g0: Grid, d: Direction, i: nat, j: nat, i': nat, j': nat)
    requires SameShape(g, g0)
    requires forall k :: 0 <= k < LineCount(Width(g0), Height(g0), d) ==>
      SlidUpTo(Line(g0, d, k), Done(Width(g0), Height(g0), d, i, j, k)) ==
      SlidUpTo(Line(g0, d, k), Done(Width(g0), Height(g0), d, i', j', k))
    ensures Sliding(g, g0, d, i, j) <==> Sliding(g, g0, d, i', j')
    ensures Untouched(g0, d, i, j) <==> Untouched(g0, d, i', j')
  {
    SameProgressLines(g, g0, d, i, j, i', j', LineCount(Width(g0), Height(g0), d));
  }

  lemma {:induction false} SameProgressLines(g: Grid, g0: Grid, d: Direction, i: nat, j: nat, i': nat, j': nat, n: nat)
    requires SameShape(g, g0) && n <= LineCount(Width(g0), Height(g0), d)
    requires forall k :: 0 <= k < LineCount(Width(g0), Height(g0), d) ==>
      SlidUpTo(Line(g0, d, k), Done(Width(g0), Height(g0), d, i, j, k)) ==
      SlidUpTo(Line(g0, d, k), Done(Width(g0), Height(g0), d, i', j', k))
    ensures SlidLines(g, g0, d, i, j, n) <==> SlidLines(g, g0, d, i', j', n)
    ensures UntouchedLines(g0, d, i, j, n) <==> UntouchedLines(g0, d, i', j', n)
    decreases n
  {
    if n > 0 {
      SameProgressLines(g, g0, d, i, j, i', j', n - 1);
    }
  }

  /** A visit off the board changes nothing. */
  lemma SlidingOffBoard(g: Grid, g0: Grid, d: Direction, i: nat, j: nat)
    requires SameShape(g, g0) && Sliding(g, g0, d, i, j)
    requires !(0 <= SweepX(Width(g0), d, j) < Width(g0) && 0 <= SweepY(Height(g0), d, i) < Height(g0))
    ensures Sliding(g, g0, d, i, j + 1)
    ensures Untouched(g0, d, i, j + 1) <==> Untouched(g0, d, i, j)
  {
    SweepCell(Width(g0), Height(g0), d, i, j);
    DoneSkip(Width(g0), Height(g0), d, i, j);
    SameProgress(g, g0, d, i, j, i, j + 1);
  }

  /** A visit to an empty cell changes nothing either. */
  lemma SlidingEmptyCell(g: Grid, g0: Grid, d: Direction, i: nat, j: nat)
    requires SameShape(g, g0) && Sliding(g, g0, d, i, j)
    requires 0 <= SweepX(Width(g0), d, j) < Width(g0) && 0 <= SweepY(Height(g0), d, i) < Height(g0)
    requires g[SweepY(Height(g0), d, i)][SweepX(Width(g0), d, j)] == 0
    ensures Sliding(g, g0, d, i, j + 1)
    ensures Untouched(g0, d, i, j + 1) <==> Untouched(g0, d, i, j)
  {
    var w, h := Width(g0), Height(g0);
    SweepCell(w, h, d, i, j);
    var k, p := SweepLine(d, i, j), SweepPos(d, i, j);
    assert SlidUpTo(Line(g0, d, k), p)[p] == 0 by {
      DoneVisit(w, h, d, i, j);
      SlidingLine(g, g0, d, i, j, k);
      assert Line(g, d, k)[p] == 0;
    }
    EmptyVisitKeepsProgress(g0, d, i, j);
    SameProgress(g, g0, d, i, j, i, j + 1);
  }

  /** Settling an empty position changes no line. */
  lemma EmptyVisitKeepsProgress(g0: Grid, d: Direction, i: nat, j: nat)
    requires IsGrid(g0) && SweepLine(d, i, j) < LineCount(Width(g0), Height(g0), d) && SweepPos(d, i, j) < LineLen(Width(g0), Height(g0), d)
    requires SlidUpTo(Line(g0, d, SweepLine(d, i, j)), SweepPos(d, i, j))[SweepPos(d, i, j)] == 0
    ensures forall k :: 0 <= k < LineCount(Width(g0), Height(g0), d) ==>
      SlidUpTo(Line(g0, d, k), Done(Width(g0), Height(g0), d, i, j, k)) ==
      SlidUpTo(Line(g0, d, k), Done(Width(g0), Height(g0), d, i, j + 1, k))
  {
    var w, h := Width(g0), Height(g0);
    var k, p := SweepLine(d, i, j), SweepPos(d, i, j);
    DoneVisit(w, h, d, i, j);
    SettleEmpty(Line(g0, d, k), p);
  }

  /** A visit to an occupied cell that leaves its line processed one step further and
      every other line alone. */
  lemma SlidingVisit(g: Grid, g': Grid, g0: Grid, d: Direction, i: nat, j: nat)
    requires SameShape(g, g0) && SameShape(g', g0) && Sliding(g, g0, d, i, j)
    requires SweepLine(d, i, j) < LineCount(Width(g0), Height(g0), d) && SweepPos(d, i, j) < LineLen(Width(g0), Height(g0), d)
    requires Line(g', d, SweepLine(d, i, j)) == SlidUpTo(Line(g0, d, SweepLine(d, i, j)), SweepPos(d, i, j) + 1)
    requires forall k :: 0 <= k < LineCount(Width(g0), Height(g0), d) && k != SweepLine(d, i, j) ==> Line(g', d, k) == Line(g, d, k)
    ensures Sliding(g', g0, d, i, j + 1)
  {
    var w, h := Width(g0), Height(g0);
    SlidingAll(g, g0, d, i, j);
    DoneVisit(w, h, d, i, j);
    forall k | 0 <= k < LineCount(w, h, d)
      ensures Line(g', d, k) == SlidUpTo(Line(g0, d, k), Done(w, h, d, i, j + 1, k))
    {
      if k != SweepLine(d, i, j) {
        assert Line(g', d, k) == Line(g, d, k);
      }
    }
    SlidingAll(g', g0, d, i, j + 1);
  }

  /** Line k of g while slideTiles's inner loop carries a tile v that started at
      position |c|: the tile is now at position q, the cells behind it up to |c| are
      empty, the cells in front of it are c[..q] (which holds only empty cells from q
      on), the cells after |c| are rest, and no other line differs from start. */
  ghost predicate Shifting(g: Grid, start: Grid, d: Direction, k: int, c: seq<int>, v: int, rest: seq<int>, q: nat)
    requires SameShape(g, start) && 0 <= k < LineCount(Width(start), Height(start), d)
  {
    q <= |c| &&
    Line(g, d, k) == c[..q] + [v] + Zeros(|c| - q) + rest &&
    (forall t :: q <= t < |c| ==> c[t] == 0) &&
    (forall k' :: 0 <= k' < LineCount(Width(start), Height(start), d) && k' != k ==> Line(g, d, k') == Line(start, d, k'))
  }

  /** The inner loop starts with the tile where the sweep found it: in front of it is
      the compacted prefix of its line, behind it the rest of the original line. */
  lemma ShiftBegin(g: Grid, g0: Grid, d: Direction, i: nat, j: nat)
    requires SameShape(g, g0) && Sliding(g, g0, d, i, j)
    requires SweepLine(d, i, j) < LineCount(Width(g0), Height(g0), d) && SweepPos(d, i, j) < LineLen(Width(g0), Height(g0), d)
    ensures var k, p := SweepLine(d, i, j), SweepPos(d, i, j);
      var o := Line(g0, d, k);
      Line(g, d, k)[p] == o[p] &&
      Shifting(g, g, d, k, Compact(o[..p]), o[p], o[p + 1..], p)
  {
    var k, p := SweepLine(d, i, j), SweepPos(d, i, j);
    DoneVisit(Width(g0), Height(g0), d, i, j);
    SlidingAll(g, g0, d, i, j);
    var o := Line(g0, d, k);
    SlidUpToPrefix(o, p);
    assert SlidPrefix(o, p)[p] == o[p];
    SlideLift(o, p);
  }

  /** The cells the inner loop reads: the tile at q, and the cell in front of it. */
  lemma ShiftCells(g: Grid, start: Grid, d: Direction, k: int, c: seq<int>, v: int, rest: seq<int>, q: nat)
    requires SameShape(g, start) && 0 <= k < LineCount(Width(start), Height(start), d)
    requires Shifting(g, start, d, k, c, v, rest, q)
    ensures |c| < LineLen(Width(g), Height(g), d)
    ensures 0 <= CellX(Width(g), d, k, q) < Width(g) && 0 <= CellY(Height(g), d, k, q) < Height(g)
    ensures g[CellY(Height(g), d, k, q)][CellX(Width(g), d, k, q)] == v
    ensures q >= 1 ==> (0 <= CellX(Width(g), d, k, q - 1) < Width(g) && 0 <= CellY(Height(g), d, k, q - 1) < Height(g) &&
                        g[CellY(Height(g), d, k, q - 1)][CellX(Width(g), d, k, q - 1)] == c[q - 1])
  {
    var w, h := Width(g), Height(g);
    CellOfLine(w, h, d, k, q);
    assert Line(g, d, k)[q] == v;
    if q >= 1 {
      CellOfLine(w, h, d, k, q - 1);
      assert Line(g, d, k)[q - 1] == c[q - 1];
    }
  }

  /** One round of the inner loop: the tile moves from q into the empty cell q - 1. */
  lemma ShiftStep(g: Grid, start: Grid, d: Direction, k: int, c: seq<int>, v: int, rest: seq<int>, q: nat)
    requires SameShape(g, start) && 0 <= k < LineCount(Width(start), Height(start), d)
    requires Shifting(g, start, d, k, c, v, rest, q)
    requires q >= 1 && c[q - 1] == 0
    ensures var w, h := Width(g), Height(g);
      var g' := Write(Write(g, CellX(w, d, k, q - 1), CellY(h, d, k, q - 1), v), CellX(w, d, k, q), CellY(h, d, k, q), 0);
      SameShape(g', start) && Shifting(g', start, d, k, c, v, rest, q - 1) &&
      CountPieces(g') == CountPieces(g) && (NonNegative(g) ==> NonNegative(g'))
  {
    var w, h := Width(g), Height(g);
    ShiftCells(g, start, d, k, c, v, rest, q);
    WritePair(g, d, k, q, v, 0);
    var g' := Write(Write(g, CellX(w, d, k, q - 1), CellY(h, d, k, q - 1), v), CellX(w, d, k, q), CellY(h, d, k, q), 0);
    assert Line(g', d, k) == c[..q - 1] + [v] + Zeros(|c| - (q - 1)) + rest by {
      SlideShift(c, v, q, |c|, rest);
      var l := Line(g, d, k);
      assert l[q - 1] == 0 && l[q] == v;
      assert Line(g', d, k) == l[q - 1 := v][q := 0];
    }
    forall k' | 0 <= k' < LineCount(w, h, d) && k' != k
      ensures Line(g', d, k') == Line(start, d, k')
    {
      assert Line(g', d, k') == Line(g, d, k');
    }
    if NonNegative(g) {
      assert v >= 0 by {
        NonNegativeAll(g);
        assert g[CellY(h, d, k, q)][CellX(w, d, k, q)] == v;
      }
    }
  }

  /** The inner loop has stopped: the line is processed up to p + 1. */
  lemma ShiftEnd(g: Grid, start: Grid, g0: Grid, d: Direction, i: nat, j: nat, q: nat)
    requires SameShape(g, g0) && SameShape(start, g0) && Sliding(start, g0, d, i, j)
    requires SweepLine(d, i, j) < LineCount(Width(g0), Height(g0), d) && SweepPos(d, i, j) < LineLen(Width(g0), Height(g0), d)
    requires var k, p := SweepLine(d, i, j), SweepPos(d, i, j);
      var o := Line(g0, d, k);
      o[p] != 0 && Shifting(g, start, d, k, Compact(o[..p]), o[p], o[p + 1..], q) &&
      (q == 0 || Compact(o[..p])[q - 1] != 0)
    ensures Sliding(g, g0, d, i, j + 1)
    ensures Untouched(g0, d, i, j + 1) <==> Untouched(g0, d, i, j) && q == SweepPos(d, i, j)
  {
    var k, p := SweepLine(d, i, j), SweepPos(d, i, j);
    ShiftSettled(g, start, g0, d, k, p, q);
    SlidingVisit(start, g, g0, d, i, j);
    UntouchedVisit(g0, d, i, j, q < p);
  }

  /** Where the inner loop stops, line k is the original line slid up to p + 1. */
  lemma ShiftSettled(g: Grid, start: Grid, g0: Grid, d: Direction, k: int, p: nat, q: nat)
    requires SameShape(g, g0) && SameShape(start, g0)
    requires 0 <= k < LineCount(Width(g0), Height(g0), d) && p < LineLen(Width(g0), Height(g0), d)
    requires var o := Line(g0, d, k);
      o[p] != 0 && Shifting(g, start, d, k, Compact(o[..p]), o[p], o[p + 1..], q) &&
      (q == 0 || Compact(o[..p])[q - 1] != 0)
    ensures Line(g, d, k) == SlidUpTo(Line(g0, d, k), p + 1)
    ensures forall k' :: 0 <= k' < LineCount(Width(g0), Height(g0), d) && k' != k ==> Line(g, d, k') == Line(start, d, k')
    ensures var o := Line(g0, d, k);
      (q < p ==> SlidUpTo(o, p + 1)[p] == 0) && (q == p ==> SlidUpTo(o, p + 1) == SlidUpTo(o, p))
  {
    SettleEnd(Line(g0, d, k), p, q);
  }

  /** A visit to an occupied cell leaves every line as it was iff it did not move the
      tile. */
  lemma UntouchedVisit(g0: Grid, d: Direction, i: nat, j: nat, moved: bool)
    requires IsGrid(g0)
    requires SweepLine(d, i, j) < LineCount(Width(g0), Height(g0), d) && SweepPos(d, i, j) < LineLen(Width(g0), Height(g0), d)
    requires var o, p := Line(g0, d, SweepLine(d, i, j)), SweepPos(d, i, j);
      o[p] != 0 &&
      (moved ==> SlidUpTo(o, p + 1)[p] == 0) &&
      (!moved ==> SlidUpTo(o, p + 1) == SlidUpTo(o, p))
    ensures Untouched(g0, d, i, j + 1) <==> Untouched(g0, d, i, j) && !moved
  {
    var w, h := Width(g0), Height(g0);
    var k, p := SweepLine(d, i, j), SweepPos(d, i, j);
    var o := Line(g0, d, k);
    DoneVisit(w, h, d, i, j);
    if moved {
      UntouchedLinesAt(g0, d, i, j + 1, LineCount(w, h, d), k);
      var t := SlidUpTo(o, p + 1);
      assert t[p] != o[p];
      assert !(SlidUpTo(o, Done(w, h, d, i, j + 1, k)) == o);
    } else {
      forall k' | 0 <= k' < LineCount(w, h, d)
        ensures SlidUpTo(Line(g0, d, k'), Done(w, h, d, i, j, k')) == SlidUpTo(Line(g0, d, k'), Done(w, h, d, i, j + 1, k'))
      {
      }
      SameProgress(g0, g0, d, i, j, i, j + 1);
    }
  }

  /** What Untouched says about one line. */
  lemma {:induction false} UntouchedLinesAt(g0: Grid, d: Direction, i: nat, j: nat, n: nat, k: nat)
    requires IsGrid(g0) && n <= LineCount(Width(g0), Height(g0), d) && k < n
    ensures UntouchedLines(g0, d, i, j, n) ==>
      SlidUpTo(Line(g0, d, k), Done(Width(g0), Height(g0), d, i, j, k)) == Line(g0, d, k)
    decreases n
  {
    if k < n - 1 {
      UntouchedLinesAt(g0, d, i, j, n - 1, k);
    }
  }

  // ---------------------------------------------------------------------------
  // The board while mergeTiles sweeps it
  // ---------------------------------------------------------------------------

  /** Every line of g is the merge scan of the line of g0 run over its processed
      positions; gains and merges record each line's points and merges so far. */
  ghost predicate Merging(g: Grid, g0: Grid, d: Direction, i: nat, j: nat, gains: seq<int>, merges: seq<int>)
    requires SameShape(g, g0)
  {
    |gains| == LineCount(Width(g0), Height(g0), d) && |merges| == LineCount(Width(g0), Height(g0), d) &&
    MergedLines(g, g0, d, i, j, gains, merges, LineCount(Width(g0), Height(g0), d))
  }

  /** The same for lines 0 .. n - 1. */
  ghost predicate MergedLines(g: Grid, g0: Grid, d: Direction, i: nat, j: nat, gains: seq<int>, merges: seq<int>, n: nat)
    requires SameShape(g, g0) && n <= LineCount(Width(g0), Height(g0), d)
    requires |gains| == LineCount(Width(g0), Height(g0), d) && |merges| == LineCount(Width(g0), Height(g0), d)
  {
    n == 0 ||
    (MergedLines(g, g0, d, i, j, gains, merges, n - 1) &&
     Scanned(Line(g, d, n - 1), gains[n - 1], merges[n - 1],
       ScanUpTo(Line(g0, d, n - 1), Done(Width(g0), Height(g0), d, i, j, n - 1))))
  }

  lemma {:induction false} MergedLinesAll(g: Grid, g0: Grid, d: Direction, i: nat, j: nat, gains: seq<int>, merges: seq<int>, n: nat)
    requires SameShape(g, g0) && n <= LineCount(Width(g0), Height(g0), d)
    requires |gains| == LineCount(Width(g0), Height(g0), d) && |merges| == LineCount(Width(g0), Height(g0), d)
    ensures MergedLines(g, g0, d, i, j, gains, merges, n) <==>
      forall k :: 0 <= k < n ==>
        Scanned(Line(g, d, k), gains[k], merges[k], ScanUpTo(Line(g0, d, k), Done(Width(g0), Height(g0), d, i, j, k)))
    decreases n
  {
    if n > 0 {
      var m := n - 1;
      MergedLinesAll(g, g0, d, i, j, gains, merges, m);
      if MergedLines(g, g0, d, i, j, gains, merges, n) {
        forall k | 0 <= k < n
          ensures Scanned(Line(g, d, k), gains[k], merges[k], ScanUpTo(Line(g0, d, k), Done(Width(g0), Height(g0), d, i, j, k)))
        {
          if k == m {
          }
        }
      }
    }
  }

  /** Merging, line by line. */
  lemma MergingAll(g: Grid, g0: Grid, d: Direction, i: nat, j: nat, gains: seq<int>, merges: seq<int>)
    requires SameShape(g, g0)
    requires |gains| == LineCount(Width(g0), Height(g0), d) && |merges| == LineCount(Width(g0), Height(g0), d)
    ensures Merging(g, g0, d, i, j, gains, merges) <==>
      forall k :: 0 <= k < LineCount(Width(g0), Height(g0), d) ==>
        Scanned(Line(g, d, k), gains[k], merges[k], ScanUpTo(Line(g0, d, k), Done(Width(g0), Height(g0), d, i, j, k)))
  {
    MergedLinesAll(g, g0, d, i, j, gains, merges, LineCount(Width(g0), Height(g0), d));
  }

  /** What Merging says about one line. */
  lemma MergingLine(g: Grid, g0: Grid, d: Direction, i: nat, j: nat, gains: seq<int>, merges: seq<int>, k: nat)
    requires SameShape(g, g0) && Merging(g, g0, d, i, j, gains, merges) && k < LineCount(Width(g0), Height(g0), d)
    ensures Scanned(Line(g, d, k), gains[k], merges[k], ScanUpTo(Line(g0, d, k), Done(Width(g0), Height(g0), d, i, j, k)))
  {
    MergedLinesAt(g, g0, d, i, j, gains, merges, LineCount(Width(g0), Height(g0), d), k);
  }

  lemma {:induction false} MergedLinesAt(g: Grid, g0: Grid, d: Direction, i: nat, j: nat, gains: seq<int>, merges: seq<int>, n: nat, k: nat)
    requires SameShape(g, g0) && n <= LineCount(Width(g0), Height(g0), d)
    requires |gains| == LineCount(Width(g0), Height(g0), d) && |merges| == LineCount(Width(g0), Height(g0), d)
    requires MergedLines(g, g0, d, i, j, gains, merges, n) && k < n
    ensures Scanned(Line(g, d, k), gains[k], merges[k], ScanUpTo(Line(g0, d, k), Done(Width(g0), Height(g0), d, i, j, k)))
    decreases n
  {
    if k < n - 1 {
      MergedLinesAt(g, g0, d, i, j, gains, merges, n - 1, k);
    }
  }

  /** Two sweep positions that leave every line's scan in the same state agree on Merging. */
  lemma MergingSame(g: Grid, g0: Grid, d: Direction, i: nat, j: nat, i': nat, j': nat, gains: seq<int>, merges: seq<int>)
    requires SameShape(g, g0)
    requires forall k :: 0 <= k < LineCount(Width(g0), Height(g0), d) ==>
      ScanUpTo(Line(g0, d, k), Done(Width(g0), Height(g0), d, i, j, k)) ==
      ScanUpTo(Line(g0, d, k), Done(Width(g0), Height(g0), d, i', j', k))
    ensures Merging(g, g0, d, i, j, gains, merges) <==> Merging(g, g0, d, i', j', gains, merges)
  {
    if |gains| == LineCount(Width(g0), Height(g0), d) && |merges| == LineCount(Width(g0), Height(g0), d) {
      MergingSameLines(g, g0, d, i, j, i', j', gains, merges, LineCount(Width(g0), Height(g0), d));
    }
  }

  lemma {:induction false} MergingSameLines(g: Grid, g0: Grid, d: Direction, i: nat, j: nat, i': nat, j': nat, gains: seq<int>, merges: seq<int>, n: nat)
    requires SameShape(g, g0) && n <= LineCount(Width(g0), Height(g0), d)
    requires |gains| == LineCount(Width(g0), Height(g0), d) && |merges| == LineCount(Width(g0), Height(g0), d)
    requires forall k :: 0 <= k < LineCount(Width(g0), Height(g0), d) ==>
      ScanUpTo(Line(g0, d, k), Done(Width(g0), Height(g0), d, i, j, k)) ==
      ScanUpTo(Line(g0, d, k), Done(Width(g0), Height(g0), d, i', j', k))
    ensures MergedLines(g, g0, d, i, j, gains, merges, n) <==> MergedLines(g, g0, d, i', j', gains, merges, n)
    decreases n
  {
    if n > 0 {
      MergingSameLines(g, g0, d, i, j, i', j', gains, merges, n - 1);
    }
  }

  /** A visit that changes line k only, and leaves it as the scan one position further. */
  lemma MergingReplace(g: Grid, g': Grid, g0: Grid, d: Direction, i: nat, j: nat,
                       gains: seq<int>, merges: seq<int>, k: nat, gain: int, count: int)
    requires SameShape(g, g0) && SameShape(g', g0) && Merging(g, g0, d, i, j, gains, merges)
    requires k == SweepLine(d, i, j) && k < LineCount(Width(g0), Height(g0), d)
    requires SweepPos(d, i, j) < LineLen(Width(g0), Height(g0), d)
    requires Scanned(Line(g', d, k), gain, count, ScanUpTo(Line(g0, d, k), SweepPos(d, i, j) + 1))
    requires forall k' :: 0 <= k' < LineCount(Width(g0), Height(g0), d) && k' != k ==> Line(g', d, k') == Line(g, d, k')
    ensures Merging(g', g0, d, i, j + 1, gains[k := gain], merges[k := count])
  {
    DoneVisit(Width(g0), Height(g0), d, i, j);
    MergingReplaceLines(g, g', g0, d, i, j, gains, merges, gains[k := gain], merges[k := count], k, LineCount(Width(g0), Height(g0), d));
  }

  lemma {:induction false} MergingReplaceLines(g: Grid, g': Grid, g0: Grid, d: Direction, i: nat, j: nat,
                       gains: seq<int>, merges: seq<int>, gains': seq<int>, merges': seq<int>, k: nat, n: nat)
    requires SameShape(g, g0) && SameShape(g', g0) && n <= LineCount(Width(g0), Height(g0), d)
    requires |gains| == LineCount(Width(g0), Height(g0), d) && |merges| == LineCount(Width(g0), Height(g0), d)
    requires |gains'| == |gains| && |merges'| == |merges| && k < LineCount(Width(g0), Height(g0), d)
    requires MergedLines(g, g0, d, i, j, gains, merges, n)
    requires Scanned(Line(g', d, k), gains'[k], merges'[k], ScanUpTo(Line(g0, d, k), Done(Width(g0), Height(g0), d, i, j + 1, k)))
    requires forall k' :: 0 <= k' < LineCount(Width(g0), Height(g0), d) && k' != k ==>
      Line(g', d, k') == Line(g, d, k') && gains'[k'] == gains[k'] && merges'[k'] == merges[k'] &&
      Done(Width(g0), Height(g0), d, i, j + 1, k') == Done(Width(g0), Height(g0), d, i, j, k')
    ensures MergedLines(g', g0, d, i, j + 1, gains', merges', n)
    decreases n
  {
    if n > 0 {
      MergingReplaceLines(g, g', g0, d, i, j, gains, merges, gains', merges', k, n - 1);
    }
  }

  lemma MergingStart(g0: Grid, d: Direction)
    requires IsGrid(g0)
    ensures var n := LineCount(Width(g0), Height(g0), d);
      Merging(g0, g0, d, 0, 0, seq(n, _ => 0), seq(n, _ => 0)) && Sum(seq(n, _ => 0)) == 0
  {
    var n := LineCount(Width(g0), Height(g0), d);
    DoneEnds(Width(g0), Height(g0), d);
    SumOfNonNegative(seq(n, _ => 0));
    MergingAll(g0, g0, d, 0, 0, seq(n, _ => 0), seq(n, _ => 0));
  }

  lemma MergingNextRow(g: Grid, g0: Grid, d: Direction, i: nat, gains: seq<int>, merges: seq<int>)
    requires SameShape(g, g0) && Merging(g, g0, d, i, Span(Width(g0), Height(g0)), gains, merges)
    ensures Merging(g, g0, d, i + 1, 0, gains, merges)
  {
    DoneNextRow(Width(g0), Height(g0), d, i);
    MergingSame(g, g0, d, i, Span(Width(g0), Height(g0)), i + 1, 0, gains, merges);
  }

  /** After the whole sweep the board is the merged board and the records are the
      per-line gains and merge counts. */
  lemma MergingEnd(g: Grid, g0: Grid, d: Direction, gains: seq<int>, merges: seq<int>)
    requires SameShape(g, g0) && Merging(g, g0, d, Span(Width(g0), Height(g0)), 0, gains, merges)
    ensures g == Merge(g0, d) && gains == LineGains(g0, d) && merges == LineMerges(g0, d)
  {
    DoneEnds(Width(g0), Height(g0), d);
    MergingAll(g, g0, d, Span(Width(g0), Height(g0)), 0, gains, merges);
    forall k | 0 <= k < LineCount(Width(g0), Height(g0), d) ensures Line(g, d, k) == Line(Merge(g0, d), d, k) {
    }
    LinesDetermineGrid(g, Merge(g0, d), d);
  }

  /** A visit that does not merge leaves the scan where it was. */
  lemma MergingSkip(g: Grid, g0: Grid, d: Direction, i: nat, j: nat, gains: seq<int>, merges: seq<int>)
    requires SameShape(g, g0) && Merging(g, g0, d, i, j, gains, merges)
    requires var w, h := Width(g0), Height(g0);
      SweepLine(d, i, j) < LineCount(w, h, d) && SweepPos(d, i, j) < LineLen(w, h, d) ==>
        !MergesAt(ScanUpTo(Line(g0, d, SweepLine(d, i, j)), SweepPos(d, i, j)), SweepPos(d, i, j))
    ensures Merging(g, g0, d, i, j + 1, gains, merges)
  {
    var w, h := Width(g0), Height(g0);
    var k, p := SweepLine(d, i, j), SweepPos(d, i, j);
    if k < LineCount(w, h, d) && p < LineLen(w, h, d) {
      DoneVisit(w, h, d, i, j);
      MergingLine(g, g0, d, i, j, gains, merges, k);
      var o := Line(g0, d, k);
      assert ScanUpTo(o, p + 1) == ScanUpTo(o, p);
      assert gains[k := gains[k]] == gains && merges[k := merges[k]] == merges;
      MergingReplace(g, g, g0, d, i, j, gains, merges, k, gains[k], merges[k]);
    } else {
      DoneSkip(w, h, d, i, j);
      MergingSame(g, g0, d, i, j, i, j + 1, gains, merges);
    }
  }

  /** A visit that merges the tile at position p, in cell (x, y), into position p - 1,
      in cell (x', y'): the board that doubles (x', y') and empties (x, y) is the scan one
      position further, and the records grow by the doubled value and by one merge. */
  lemma MergingVisit(g: Grid, g0: Grid, d: Direction, i: nat, j: nat, gains: seq<int>, merges: seq<int>,
                     x: int, y: int, x': int, y': int, v: int, g': Grid, k: int)
    requires SameShape(g, g0) && Merging(g, g0, d, i, j, gains, merges)
    requires var w, h := Width(g0), Height(g0);
      SweepLine(d, i, j) < LineCount(w, h, d) && SweepPos(d, i, j) < LineLen(w, h, d) &&
      MergesAt(ScanUpTo(Line(g0, d, SweepLine(d, i, j)), SweepPos(d, i, j)), SweepPos(d, i, j))
    requires var k, p := SweepLine(d, i, j), SweepPos(d, i, j);
      x == CellX(Width(g0), d, k, p) && y == CellY(Height(g0), d, k, p) &&
      x' == CellX(Width(g0), d, k, p - 1) && y' == CellY(Height(g0), d, k, p - 1)
    requires InBounds(g, x, y) && InBounds(g, x', y')
    requires v == 2 * g[y'][x'] && g' == Write(Write(g, x', y', v), x, y, 0) && k == SweepLine(d, i, j)
    ensures SameShape(g', g0)
    ensures Merging(g', g0, d, i, j + 1, gains[k := gains[k] + v], merges[k := merges[k] + 1]) == true
  {
    var p := SweepPos(d, i, j);
    var o := Line(g0, d, k);
    assert SameShape(g', g0) &&
      Scanned(Line(g', d, k), gains[k] + v, merges[k] + 1, ScanUpTo(o, p + 1)) &&
      forall k' :: 0 <= k' < LineCount(Width(g0), Height(g0), d) && k' != k ==> Line(g', d, k') == Line(g, d, k')
    by {
      var c := Line(g, d, k);
      DoneVisit(Width(g0), Height(g0), d, i, j);
      MergingLine(g, g0, d, i, j, gains, merges, k);
      PairLines(g, d, k, p, v, 0, x', y', x, y, g');
      assert c[p - 1] == g[y'][x'];
      ScanMerge(o, p, c, gains[k], merges[k]);
    }
    MergingReplace(g, g', g0, d, i, j, gains, merges, k, gains[k] + v, merges[k] + 1);
  }
}
