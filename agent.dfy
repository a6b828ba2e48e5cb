/** The computer player: a two-level expectimax search over copies of the game, scored
    by the seven-term static evaluation. The search and the selection rule are stated as
    functions of the board value; the methods compute them the way the player does, by
    loops over cells and directions and by moves and placements on fresh copies, and
    never touch the game they are given (none of them has a modifies clause). */
module Agent {
  import opened Lines
  import opened Grids
  import opened Heuristics
  import opened Engine

  /** A value that may be missing: a move not chosen yet, or a best score still at
      minus infinity. */
  datatype Option<T> = None | Some(value: T)

  /** The depth at which the search stops and evaluates the board. */
  const MAX_DEPTH: nat := 2

  /** Math.max(best, score), with minus infinity as None. */
  function Raise(best: Option<real>, score: real): (r: real)
    ensures best.None? ==> r == score
    ensures best.Some? ==> r >= best.value && r >= score && (r == best.value || r == score)
  {
    if best.None? || score > best.value then score else best.value
  }

  // ---------------------------------------------------------------------------
  // The two selection loops over scored directions
  // ---------------------------------------------------------------------------

  /** The max node's loop over the first n candidates: the running maximum of the
      scores of the legal ones, starting from minus infinity (None). */
  function BestOf(legal: seq<bool>, scores: seq<real>, n: nat): (r: Option<real>)
    requires |legal| == |scores| && n <= |legal|
    ensures r.Some? <==> exists j :: 0 <= j < n && legal[j]
  {
    if n == 0 then None
    else
      var prev := BestOf(legal, scores, n - 1);
      if legal[n - 1] then Some(Raise(prev, scores[n - 1])) else prev
  }

  /** One more candidate of the max node's loop. */
  lemma BestOfNext(legal: seq<bool>, scores: seq<real>, n: nat, next: nat)
    requires |legal| == |scores| && next == n + 1 <= |legal|
    ensures BestOf(legal, scores, next) ==
      if legal[n] then Some(Raise(BestOf(legal, scores, n), scores[n])) else BestOf(legal, scores, n)
  {
  }

  /** The running maximum is the largest score of a legal candidate: no legal candidate
      scores more, and some legal candidate scores exactly that. */
  lemma {:induction false} BestOfIsMax(legal: seq<bool>, scores: seq<real>, n: nat) returns (i: nat)
    requires |legal| == |scores| && n <= |legal| && exists j :: 0 <= j < n && legal[j]
    ensures i < n && legal[i] && BestOf(legal, scores, n) == Some(scores[i])
    ensures forall j :: 0 <= j < n && legal[j] ==> scores[j] <= scores[i]
  {
    if BestOf(legal, scores, n - 1).Some? {
      var i' := BestOfIsMax(legal, scores, n - 1);
      i := if legal[n - 1] && scores[n - 1] > scores[i'] then n - 1 else i';
    } else {
      i := n - 1;
    }
  }

  /** getPlayerMove's loop over the first n candidates: the index of the candidate kept
      so far (None for null) and its score (None for minus infinity). A legal candidate
      replaces the kept one only when its score is strictly higher. */
  function Choose(legal: seq<bool>, scores: seq<real>, n: nat): (r: (Option<nat>, Option<real>))
    requires |legal| == |scores| && n <= |legal|
    ensures r.0.Some? ==> r.0.value < n
  {
    if n == 0 then (None, None)
    else
      var prev := Choose(legal, scores, n - 1);
      if legal[n - 1] && (prev.1.None? || scores[n - 1] > prev.1.value) then (Some(n - 1), Some(scores[n - 1]))
      else prev
  }

  /** One more candidate of getPlayerMove's loop. */
  lemma ChooseNext(legal: seq<bool>, scores: seq<real>, n: nat, next: nat)
    requires |legal| == |scores| && next == n + 1 <= |legal|
    ensures Choose(legal, scores, next) ==
      var prev := Choose(legal, scores, n);
      if legal[n] && (prev.1.None? || scores[n] > prev.1.value) then (Some(n), Some(scores[n])) else prev
  {
  }

  /** The loop keeps a candidate exactly when one is legal, and then it keeps the legal
      candidate at the first index with the highest score: no legal candidate scores
      more, and every legal candidate before it scores strictly less. */
  lemma {:induction false} ChooseIsFirstBest(legal: seq<bool>, scores: seq<real>, n: nat)
    requires |legal| == |scores| && n <= |legal|
    ensures Choose(legal, scores, n).0.None? <==> Choose(legal, scores, n).1.None?
    ensures Choose(legal, scores, n).0.None? <==> forall j :: 0 <= j < n ==> !legal[j]
    ensures Choose(legal, scores, n).0.Some? ==>
      var i := Choose(legal, scores, n).0.value;
      i < n && legal[i] && Choose(legal, scores, n).1 == Some(scores[i]) &&
      (forall j :: 0 <= j < n && legal[j] ==> scores[j] <= scores[i]) &&
      (forall j :: 0 <= j < i && legal[j] ==> scores[j] < scores[i])
  {
    if n > 0 {
      ChooseIsFirstBest(legal, scores, n - 1);
    }
  }

  // ---------------------------------------------------------------------------
  // The sum of a chance node over the empty cells
  // ---------------------------------------------------------------------------

  /** A table with one real per cell of g. */
  predicate IsTable(g: Grid, t: seq<seq<real>>)
  {
    |t| == Height(g) && forall y :: 0 <= y < |t| ==> |t[y]| == Width(g)
  }

  /** The chance node's sum over the first n cells of row y: for each empty cell, 0.9
      times the value with a new 2 there plus 0.1 times the value with a new 4. */
  function SpawnRow(g: Grid, two: seq<seq<real>>, four: seq<seq<real>>, y: int, n: nat): real
    requires IsGrid(g) && IsTable(g, two) && IsTable(g, four) && 0 <= y < Height(g) && n <= Width(g)
  {
    if n == 0 then 0.0
    else SpawnRow(g, two, four, y, n - 1) + (if g[y][n - 1] == 0 then 0.9 * two[y][n - 1] + 0.1 * four[y][n - 1] else 0.0)
  }

  /** The chance node's sum over the first n rows. */
  function SpawnRows(g: Grid, two: seq<seq<real>>, four: seq<seq<real>>, n: nat): real
    requires IsGrid(g) && IsTable(g, two) && IsTable(g, four) && n <= Height(g)
  {
    if n == 0 then 0.0 else SpawnRows(g, two, four, n - 1) + SpawnRow(g, two, four, n - 1, Width(g))
  }

  /** One more row of the chance node's sum and count. */
  lemma SpawnRowsNext(g: Grid, two: seq<seq<real>>, four: seq<seq<real>>, y: nat, next: nat)
    requires IsGrid(g) && IsTable(g, two) && IsTable(g, four) && next == y + 1 <= Height(g)
    ensures SpawnRows(g, two, four, next) == SpawnRows(g, two, four, y) + SpawnRow(g, two, four, y, Width(g))
    ensures RowsEmpty(g, next) == RowsEmpty(g, y) + RowEmpty(g[y], Width(g))
  {
    assert SpawnRows(g, two, four, y + 1) == SpawnRows(g, two, four, y) + SpawnRow(g, two, four, y, Width(g));
    assert RowsEmpty(g, y + 1) == RowsEmpty(g, y) + RowEmpty(g[y], Width(g));
  }

  /** One more cell of row y of the chance node's sum and count. */
  lemma SpawnRowNext(g: Grid, two: seq<seq<real>>, four: seq<seq<real>>, y: int, x: nat, next: nat)
    requires IsGrid(g) && IsTable(g, two) && IsTable(g, four) && 0 <= y < Height(g) && next == x + 1 <= Width(g)
    ensures SpawnRow(g, two, four, y, next) ==
      SpawnRow(g, two, four, y, x) + if g[y][x] == 0 then 0.9 * two[y][x] + 0.1 * four[y][x] else 0.0
    ensures RowEmpty(g[y], next) == RowEmpty(g[y], x) + if g[y][x] == 0 then 1 else 0
  {
    assert SpawnRow(g, two, four, y, x + 1) ==
      SpawnRow(g, two, four, y, x) + if g[y][x] == 0 then 0.9 * two[y][x] + 0.1 * four[y][x] else 0.0;
    assert RowEmpty(g[y], x + 1) == RowEmpty(g[y], x) + if g[y][x] == 0 then 1 else 0;
  }

  /** Each value of an empty cell's new tile lies between lo and hi. */
  predicate SpawnsWithin(g: Grid, two: seq<seq<real>>, four: seq<seq<real>>, lo: real, hi: real)
    requires IsGrid(g) && IsTable(g, two) && IsTable(g, four)
  {
    forall y, x :: 0 <= y < Height(g) && 0 <= x < Width(g) && g[y][x] == 0 ==>
      lo <= two[y][x] <= hi && lo <= four[y][x] <= hi
  }

  /** n copies of v added up. */
  function Times(n: nat, v: real): (r: real)
  {
    if n == 0 then 0.0 else Times(n - 1, v) + v
  }

  lemma {:induction false} TimesIsProduct(n: nat, v: real)
    ensures Times(n, v) == (n as real) * v
  {
    if n > 0 {
      TimesIsProduct(n - 1, v);
      assert (n as real) * v == ((n - 1) as real) * v + v;
    }
  }

  lemma {:induction false} TimesAdd(m: nat, n: nat, v: real)
    ensures Times(m + n, v) == Times(m, v) + Times(n, v)
  {
    if n > 0 {
      TimesAdd(m, n - 1, v);
      assert Times(m + n, v) == Times(m + n - 1, v) + v;
    }
  }

  lemma {:induction false} SpawnRowBounds(g: Grid, two: seq<seq<real>>, four: seq<seq<real>>, y: int, n: nat, lo: real, hi: real)
    requires IsGrid(g) && IsTable(g, two) && IsTable(g, four) && 0 <= y < Height(g) && n <= Width(g)
    requires SpawnsWithin(g, two, four, lo, hi)
    ensures Times(RowEmpty(g[y], n), lo) <= SpawnRow(g, two, four, y, n) <= Times(RowEmpty(g[y], n), hi)
  {
    if n > 0 {
      SpawnRowBounds(g, two, four, y, n - 1, lo, hi);
      var e := RowEmpty(g[y], n - 1);
      if g[y][n - 1] == 0 {
        assert RowEmpty(g[y], n) == e + 1;
        assert Times(e + 1, lo) == Times(e, lo) + lo && Times(e + 1, hi) == Times(e, hi) + hi;
        var a, b := two[y][n - 1], four[y][n - 1];
        assert lo <= a <= hi && lo <= b <= hi;
      } else {
        assert RowEmpty(g[y], n) == e;
      }
    }
  }

  lemma {:induction false} SpawnRowsBounds(g: Grid, two: seq<seq<real>>, four: seq<seq<real>>, n: nat, lo: real, hi: real)
    requires IsGrid(g) && IsTable(g, two) && IsTable(g, four) && n <= Height(g)
    requires SpawnsWithin(g, two, four, lo, hi)
    ensures Times(RowsEmpty(g, n), lo) <= SpawnRows(g, two, four, n) <= Times(RowsEmpty(g, n), hi)
  {
    if n > 0 {
      SpawnRowsBounds(g, two, four, n - 1, lo, hi);
      SpawnRowBounds(g, two, four, n - 1, Width(g), lo, hi);
      var a, b := RowsEmpty(g, n - 1), RowEmpty(g[n - 1], Width(g));
      assert RowsEmpty(g, n) == a + b;
      TimesAdd(a, b, lo);
      TimesAdd(a, b, hi);
    }
  }

  /** The weighted sum divided by the number of empty cells is an average: it lies
      between lo and hi when every new tile's value does. */
  lemma AverageWithin(g: Grid, two: seq<seq<real>>, four: seq<seq<real>>, lo: real, hi: real)
    requires IsGrid(g) && IsTable(g, two) && IsTable(g, four) && EmptyCells(g) > 0
    requires SpawnsWithin(g, two, four, lo, hi)
    ensures lo <= SpawnRows(g, two, four, Height(g)) / (EmptyCells(g) as real) <= hi
  {
    SpawnRowsBounds(g, two, four, Height(g), lo, hi);
    MeanWithin(lo, hi, SpawnRows(g, two, four, Height(g)), EmptyCells(g));
  }

  /** A sum of n > 0 terms, each between lo and hi, divided by n lies between lo and hi. */
  lemma MeanWithin(lo: real, hi: real, s: real, n: nat)
    requires n > 0 && Times(n, lo) <= s <= Times(n, hi)
    ensures lo <= s / (n as real) <= hi
  {
    TimesIsProduct(n, lo);
    TimesIsProduct(n, hi);
    var e := n as real;
    var q := s / e;
    assert q * e == s;
    assert (q - lo) * e == s - lo * e;
    assert (hi - q) * e == hi * e - s;
  }

  // ---------------------------------------------------------------------------
  // The search, as functions of the board
  // ---------------------------------------------------------------------------

  /** Which of the directions ms isMovePossible accepts. */
  function Legality(g: Grid, ms: seq<Direction>): (r: seq<bool>)
    requires IsGrid(g)
    ensures |r| == |ms| && forall i :: 0 <= i < |ms| ==> r[i] == MovePossible(g, ms[i])
  {
    seq(|ms|, i requires 0 <= i < |ms| => MovePossible(g, ms[i]))
  }

  /** isMovePossible() holds iff one of the player's four directions is legal. */
  lemma SomeMoveLegal(g: Grid)
    requires IsGrid(g)
    ensures AnyMovePossible(g) <==> exists j :: 0 <= j < |Moves| && Legality(g, Moves)[j]
  {
    var l := Legality(g, Moves);
    assert Moves[0] == South && Moves[1] == West && Moves[2] == East && Moves[3] == North;
    if MovePossible(g, South) { assert l[0]; }
    if MovePossible(g, West) { assert l[1]; }
    if MovePossible(g, East) { assert l[2]; }
    if MovePossible(g, North) { assert l[3]; }
  }

  /** expectimax(board, depth, isPlayerTurn): the value of a max node at the player's
      turn and of a chance node otherwise. */
  function Value(g: Grid, depth: nat, playerTurn: bool): real
    requires IsGrid(g) && depth <= MAX_DEPTH
    decreases MAX_DEPTH - depth, 2
  {
    if playerTurn then MaxNode(g, depth) else ChanceNode(g, depth)
  }

  /** The player's turn: the evaluation at the depth limit or when no move is possible,
      otherwise the best value over the legal moves. */
  function MaxNode(g: Grid, depth: nat): real
    requires IsGrid(g) && depth <= MAX_DEPTH
    decreases MAX_DEPTH - depth, 1
  {
    if depth == MAX_DEPTH || !AnyMovePossible(g) then Evaluation(g)
    else
      SomeMoveLegal(g);
      BestOf(Legality(g, Moves), MoveValues(g, depth), |Moves|).value
  }

  /** The chance turn: the evaluation at the depth limit or when no move is possible;
      otherwise the weighted sum over the empty cells and both new tiles, divided by the
      number of empty cells, and the evaluation when there is none. */
  function ChanceNode(g: Grid, depth: nat): real
    requires IsGrid(g) && depth <= MAX_DEPTH
    decreases MAX_DEPTH - depth, 1
  {
    if depth == MAX_DEPTH || !AnyMovePossible(g) then Evaluation(g)
    else if EmptyCells(g) > 0 then
      SpawnRows(g, SpawnValues(g, depth, 2), SpawnValues(g, depth, 4), Height(g)) / (EmptyCells(g) as real)
    else Evaluation(g)
  }

  /** The values, one level down at the chance turn, of the boards the player's four
      directions lead to. */
  function MoveValues(g: Grid, depth: nat): (r: seq<real>)
    requires IsGrid(g) && depth < MAX_DEPTH
    ensures |r| == |Moves|
    decreases MAX_DEPTH - depth, 0
  {
    seq(|Moves|, i requires 0 <= i < |Moves| => Value(Move(g, Moves[i]), depth + 1, false))
  }

  lemma MoveValueOf(g: Grid, depth: nat, next: nat, n: nat, c: Grid, s: real)
    requires IsGrid(g) && depth < MAX_DEPTH && next == depth + 1 && n < |Moves|
    requires c == Move(g, Moves[n]) && s == Value(c, next, false)
    ensures s == MoveValues(g, depth)[n]
  {
  }

  /** For each cell, the value, one level down at the player's turn, of the board with
      a new tile v there. */
  function SpawnValues(g: Grid, depth: nat, v: int): (t: seq<seq<real>>)
    requires IsGrid(g) && depth < MAX_DEPTH
    ensures IsTable(g, t)
    decreases MAX_DEPTH - depth, 0
  {
    seq(Height(g), y requires 0 <= y < Height(g) =>
      seq(Width(g), x requires 0 <= x < Width(g) => Value(Write(g, x, y, v), depth + 1, true)))
  }

  lemma SpawnValueOf(g: Grid, depth: nat, next: nat, x: int, y: int, v: int, c: Grid, s: real)
    requires IsGrid(g) && depth < MAX_DEPTH && next == depth + 1 && InBounds(g, x, y)
    requires c == Write(g, x, y, v) && s == Value(c, next, true)
    ensures s == SpawnValues(g, depth, v)[y][x]
  {
  }

  // ---------------------------------------------------------------------------
  // What the search computes
  // ---------------------------------------------------------------------------

  /** At the player's turn the search value is the largest value of a board a legal
      move leads to: no legal move's board is worth more, and some legal move's board is
      worth exactly that. */
  lemma PlayerTurnIsMax(g: Grid, depth: nat) returns (i: nat)
    requires IsGrid(g) && depth < MAX_DEPTH && AnyMovePossible(g)
    ensures i < |Moves| && MovePossible(g, Moves[i])
    ensures Value(g, depth, true) == Value(Move(g, Moves[i]), depth + 1, false)
    ensures forall j :: 0 <= j < |Moves| && MovePossible(g, Moves[j]) ==>
      Value(Move(g, Moves[j]), depth + 1, false) <= Value(g, depth, true)
  {
    SomeMoveLegal(g);
    var legal, scores := Legality(g, Moves), MoveValues(g, depth);
    i := BestOfIsMax(legal, scores, |Moves|);
    var next := depth + 1;
    MoveValueOf(g, depth, next, i, Move(g, Moves[i]), Value(Move(g, Moves[i]), next, false));
    forall j | 0 <= j < |Moves| && MovePossible(g, Moves[j])
      ensures Value(Move(g, Moves[j]), next, false) <= Value(g, depth, true)
    {
      MoveValueOf(g, depth, next, j, Move(g, Moves[j]), Value(Move(g, Moves[j]), next, false));
      assert legal[j] && scores[j] <= scores[i];
    }
  }

  /** At the chance turn, on a board with an empty cell, the search value is an average:
      when every board with a new 2 or 4 in an empty cell is worth between lo and hi, so
      is the chance node. */
  lemma ChanceTurnIsAverage(g: Grid, depth: nat, lo: real, hi: real)
    requires IsGrid(g) && depth < MAX_DEPTH && AnyMovePossible(g) && EmptyCells(g) > 0
    requires forall y, x, v :: 0 <= y < Height(g) && 0 <= x < Width(g) && g[y][x] == 0 && (v == 2 || v == 4) ==>
      lo <= Value(Write(g, x, y, v), depth + 1, true) <= hi
    ensures lo <= Value(g, depth, false) <= hi
  {
    var two, four := SpawnValues(g, depth, 2), SpawnValues(g, depth, 4);
    forall y, x | 0 <= y < Height(g) && 0 <= x < Width(g) && g[y][x] == 0
      ensures lo <= two[y][x] <= hi && lo <= four[y][x] <= hi
    {
      assert two[y][x] == Value(Write(g, x, y, 2), depth + 1, true);
      assert four[y][x] == Value(Write(g, x, y, 4), depth + 1, true);
    }
    AverageWithin(g, two, four, lo, hi);
  }

  /** The search as getPlayerMove starts it, at depth 1 on the chance turn, never
      reaches a player's turn: every new tile leads straight to depth 2, where the board
      is evaluated. */
  lemma RootSearchIsOneChanceLevel(g: Grid, x: int, y: int, v: int)
    requires IsGrid(g) && InBounds(g, x, y)
    ensures SpawnValues(g, 1, v)[y][x] == Evaluation(Write(g, x, y, v))
  {
  }

  // ---------------------------------------------------------------------------
  // getPlayerMove, as a function of the board
  // ---------------------------------------------------------------------------

  /** The move getPlayerMove returns: the candidate its loop keeps, scoring each legal
      direction by the search value of the board it leads to (MoveValues at depth 0 is
      expectimax(copy, 1, false)), or NORTH when none is legal. */
  function BestMove(g: Grid): Direction
    requires IsGrid(g)
  {
    match Choose(Legality(g, Moves), MoveValues(g, 0), |Moves|).0
    case Some(i) => Moves[i]
    case None => North
  }

  /** getPlayerMove returns a legal direction whenever one exists, and NORTH otherwise;
      the direction returned, Moves[i], scores at least as much as every legal direction
      and strictly more than every legal direction before it in the order SOUTH, WEST,
      EAST, NORTH. */
  lemma BestMoveIsFirstBest(g: Grid) returns (i: nat)
    requires IsGrid(g)
    ensures AnyMovePossible(g) ==> MovePossible(g, BestMove(g))
    ensures !AnyMovePossible(g) ==> BestMove(g) == North
    ensures AnyMovePossible(g) ==> (i < |Moves| && Moves[i] == BestMove(g) &&
      (forall j :: 0 <= j < |Moves| && MovePossible(g, Moves[j]) ==> MoveValues(g, 0)[j] <= MoveValues(g, 0)[i]) &&
      (forall j :: 0 <= j < i && MovePossible(g, Moves[j]) ==> MoveValues(g, 0)[j] < MoveValues(g, 0)[i]))
  {
    var legal, scores := Legality(g, Moves), MoveValues(g, 0);
    ChooseIsFirstBest(legal, scores, |Moves|);
    SomeMoveLegal(g);
    var kept := Choose(legal, scores, |Moves|).0;
    i := 0;
    if kept.Some? {
      i := kept.value;
      assert BestMove(g) == Moves[i] && legal[i];
    } else {
      assert BestMove(g) == North && !AnyMovePossible(g);
    }
  }

  /** With a single legal direction the player takes it, whatever its score. */
  lemma OnlyLegalMoveIsChosen(g: Grid, d: Direction)
    requires IsGrid(g) && MovePossible(g, d)
    requires forall e :: MovePossible(g, e) ==> e == d
    ensures BestMove(g) == d
  {
    var _ := BestMoveIsFirstBest(g);
  }


  // ---------------------------------------------------------------------------
  // The seven heuristic scans, as the player runs them on a game
  // ---------------------------------------------------------------------------

  /** getHighestTileScore: the running maximum of the cells, starting from 0. */
  method HighestTileScore(game: Simulator) returns (r: int)
    requires game.Valid()
    ensures r == HighestTile(game.Cells())
  {
    ghost var g := game.Cells();
    var max := 0;
    var y := 0;
    while y < game.GetBoardHeight()
      invariant 0 <= y <= Height(g)
      invariant max == RowsMax(g, y)
    {
      RowsMaxIsMax(g, y);
      var x := 0;
      while x < game.GetBoardWidth()
        invariant 0 <= x <= Width(g)
        invariant max == Max(RowsMax(g, y), RowMax(g[y], x))
      {
        max := Max(max, game.GetPieceAt(x, y).value);
        x := x + 1;
      }
      y := y + 1;
    }
    r := max;
  }

  /** getEmptySpaceScore: 200 for every empty cell. */
  method EmptySpaceScore(game: Simulator) returns (r: int)
    requires game.Valid()
    ensures r == 200 * EmptyCells(game.Cells())
  {
    ghost var g := game.Cells();
    var empty := 0;
    var y := 0;
    while y < game.GetBoardHeight()
      invariant 0 <= y <= Height(g)
      invariant empty == RowsEmpty(g, y)
    {
      var x := 0;
      while x < game.GetBoardWidth()
        invariant 0 <= x <= Width(g)
        invariant empty == RowsEmpty(g, y) + RowEmpty(g[y], x)
      {
        if game.GetPieceAt(x, y).value == 0 {
          empty := empty + 1;
        }
        x := x + 1;
      }
      y := y + 1;
    }
    r := empty * 200;
  }

  /** getMergePotentialScore: twice the sum, over occupied cells, of the cell's value
      once for an equal right neighbour and once for an equal lower neighbour. */
  method MergePotentialScore(game: Simulator) returns (r: int)
    requires game.Valid()
    ensures r == 2 * MergePotential(game.Cells())
  {
    ghost var g := game.Cells();
    var w, h := game.GetBoardWidth(), game.GetBoardHeight();
    var merges := 0;
    var y := 0;
    while y < h
      invariant 0 <= y <= h
      invariant merges == PairRows(g, y)
    {
      var x := 0;
      while x < w
        invariant 0 <= x <= w
        invariant merges == PairRows(g, y) + PairRow(g, y, x)
      {
        var val := game.GetPieceAt(x, y).value;
        if val != 0 {
          if x + 1 < w && game.GetPieceAt(x + 1, y).value == val {
            merges := merges + val;
          }
          if y + 1 < h && game.GetPieceAt(x, y + 1).value == val {
            merges := merges + val;
          }
        }
        x := x + 1;
      }
      y := y + 1;
    }
    r := merges * 2;
  }

  /** getTileSmoothnessScore: minus the differences of horizontally adjacent occupied
      cells, row by row, then of vertically adjacent ones, column by column. */
  method TileSmoothnessScore(game: Simulator) returns (r: int)
    requires game.Valid()
    ensures r == Smoothness(game.Cells())
  {
    ghost var g := game.Cells();
    var w, h := game.GetBoardWidth(), game.GetBoardHeight();
    var smoothness := 0;
    var y := 0;
    while y < h
      invariant 0 <= y <= h
      invariant smoothness == -RowsGaps(g, y)
    {
      var x := 0;
      while x < w - 1
        invariant 0 <= x <= w - 1
        invariant smoothness == -RowsGaps(g, y) - RowGaps(g, y, x)
      {
        var current := game.GetPieceAt(x, y).value;
        var next := game.GetPieceAt(x + 1, y).value;
        if current != 0 && next != 0 {
          smoothness := smoothness - Abs(current - next);
        }
        x := x + 1;
      }
      y := y + 1;
    }
    var x := 0;
    while x < w
      invariant 0 <= x <= w
      invariant smoothness == -RowsGaps(g, h) - ColsGaps(g, x)
    {
      y := 0;
      while y < h - 1
        invariant 0 <= y <= h - 1
        invariant smoothness == -RowsGaps(g, h) - ColsGaps(g, x) - ColGaps(g, x, y)
      {
        var current := game.GetPieceAt(x, y).value;
        var next := game.GetPieceAt(x, y + 1).value;
        if current != 0 && next != 0 {
          smoothness := smoothness - Abs(current - next);
        }
        y := y + 1;
      }
      x := x + 1;
    }
    r := smoothness;
  }

  /** getMonotonicityScore: the same two scans as the smoothness term, so on every board
      it equals the smoothness term. */
  method MonotonicityScore(game: Simulator) returns (r: int)
    requires game.Valid()
    ensures r == Smoothness(game.Cells())
  {
    ghost var g := game.Cells();
    var w, h := game.GetBoardWidth(), game.GetBoardHeight();
    var monotonicity := 0;
    var y := 0;
    while y < h
      invariant 0 <= y <= h
      invariant monotonicity == -RowsGaps(g, y)
    {
      var x := 0;
      while x < w - 1
        invariant 0 <= x <= w - 1
        invariant monotonicity == -RowsGaps(g, y) - RowGaps(g, y, x)
      {
        var current := game.GetPieceAt(x, y).value;
        var next := game.GetPieceAt(x + 1, y).value;
        if current != 0 && next != 0 {
          monotonicity := monotonicity - Abs(current - next);
        }
        x := x + 1;
      }
      y := y + 1;
    }
    var x := 0;
    while x < w
      invariant 0 <= x <= w
      invariant monotonicity == -RowsGaps(g, h) - ColsGaps(g, x)
    {
      y := 0;
      while y < h - 1
        invariant 0 <= y <= h - 1
        invariant monotonicity == -RowsGaps(g, h) - ColsGaps(g, x) - ColGaps(g, x, y)
      {
        var current := game.GetPieceAt(x, y).value;
        var next := game.GetPieceAt(x, y + 1).value;
        if current != 0 && next != 0 {
          monotonicity := monotonicity - Abs(current - next);
        }
        y := y + 1;
      }
      x := x + 1;
    }
    r := monotonicity;
  }

  /** getCornerTileBonus: four times the largest cell when the bottom-left cell holds
      it, else 0. */
  method CornerTileBonus(game: Simulator) returns (r: int)
    requires game.Valid()
    ensures r == CornerBonus(game.Cells())
  {
    ghost var g := game.Cells();
    var max := 0;
    var y := 0;
    while y < game.GetBoardHeight()
      invariant 0 <= y <= Height(g)
      invariant max == RowsMax(g, y)
    {
      RowsMaxIsMax(g, y);
      var x := 0;
      while x < game.GetBoardWidth()
        invariant 0 <= x <= Width(g)
        invariant max == Max(RowsMax(g, y), RowMax(g[y], x))
      {
        max := Max(max, game.GetPieceAt(x, y).value);
        x := x + 1;
      }
      y := y + 1;
    }
    r := if game.GetPieceAt(0, game.GetBoardHeight() - 1).value == max then max * 4 else 0;
  }

  /** getFutureMovePotentialScore: 50 for every legal direction. */
  method FutureMovePotentialScore(game: Simulator) returns (r: int)
    requires game.Valid()
    ensures r == 50 * LegalCount(game.Cells(), Moves)
  {
    ghost var g := game.Cells();
    var moves := 0;
    var n := 0;
    while n < |Moves|
      invariant 0 <= n <= |Moves|
      invariant moves == LegalCount(g, Moves[..n])
    {
      var possible := game.IsMovePossible(Moves[n]);
      if possible {
        moves := moves + 1;
      }
      assert Moves[..n + 1][..n] == Moves[..n];
      n := n + 1;
    }
    assert Moves[..|Moves|] == Moves;
    r := moves * 50;
  }

  /** evaluateBoard: the weighted sum of the seven terms. */
  method EvaluateBoard(game: Simulator) returns (r: real)
    requires game.Valid()
    ensures r == Evaluation(game.Cells())
  {
    var highest := HighestTileScore(game);
    var empty := EmptySpaceScore(game);
    var merges := MergePotentialScore(game);
    var smoothness := TileSmoothnessScore(game);
    var monotonicity := MonotonicityScore(game);
    var corner := CornerTileBonus(game);
    var future := FutureMovePotentialScore(game);
    r := (highest as real) * 1.0 +
         (empty as real) * 2.0 +
         (merges as real) * 3.0 +
         (smoothness as real) * 1.5 +
         (monotonicity as real) * 1.0 +
         (corner as real) * 2.0 +
         (future as real) * 1.0;
  }

  // ---------------------------------------------------------------------------
  // The search, as the player runs it on copies of the game
  // ---------------------------------------------------------------------------

  /** expectimax(game, depth, isPlayerTurn): the evaluation at the depth limit or when
      no move is possible, else the max node or the chance node. */
  method Expectimax(game: Simulator, depth: int, isPlayerTurn: bool) returns (score: real)
    requires game.Valid() && 0 <= depth <= MAX_DEPTH
    ensures score == Value(old(game.Cells()), depth, isPlayerTurn)
    decreases MAX_DEPTH - depth, 3
  {
    var possible := game.IsAnyMovePossible();
    if depth == MAX_DEPTH || !possible {
      score := EvaluateBoard(game);
    } else if isPlayerTurn {
      score := MaxNodeScore(game, depth);
    } else {
      score := ChanceNodeScore(game, depth);
    }
  }

  /** The player's turn of expectimax below the depth limit: every legal direction is
      applied to a fresh copy of the game, and the largest search value of the copies,
      one level down at the chance turn, is kept. */
  method MaxNodeScore(game: Simulator, depth: int) returns (score: real)
    requires game.Valid() && 0 <= depth < MAX_DEPTH && AnyMovePossible(game.Cells())
    ensures score == MaxNode(game.Cells(), depth)
    decreases MAX_DEPTH - depth, 2
  {
    ghost var g := game.Cells();
    ghost var legality, scores := Legality(g, Moves), MoveValues(g, depth);
    var maxScore: Option<real> := None;
    var n := 0;
    while n < |Moves|
      invariant 0 <= n <= |Moves|
      invariant game.Valid() && game.Cells() == g
      invariant maxScore == BestOf(legality, scores, n)
    {
      var move := Moves[n];
      var legal := game.IsMovePossible(move);
      if legal {
        var s := MoveScore(game, n, depth);
        maxScore := Some(Raise(maxScore, s));
      }
      var next := n + 1;
      BestOfNext(legality, scores, n, next);
      n := next;
    }
    SomeMoveLegal(g);
    score := maxScore.value;
  }

  /** One pass of the max node's loop, and with depth 0 of getPlayerMove's: a fresh copy
      of the game makes the n-th direction, and its search value is taken one level down
      at the chance turn. */
  method MoveScore(game: Simulator, n: int, depth: int) returns (s: real)
    requires game.Valid() && 0 <= n < |Moves| && 0 <= depth < MAX_DEPTH
    ensures s == MoveValues(old(game.Cells()), depth)[n]
    decreases MAX_DEPTH - depth, 0
  {
    ghost var g := game.Cells();
    var copy := MovedCopy(game, Moves[n]);
    ghost var c := copy.Cells();
    var next := depth + 1;
    s := Expectimax(copy, next, false);
    MoveValueOf(g, depth, next, n, c, s);
  }

  /** new Simulator(game) followed by performMove(d): a fresh game on the board the move
      leads to, the game itself untouched. */
  method MovedCopy(game: Simulator, d: Direction) returns (copy: Simulator)
    requires game.Valid()
    ensures fresh(copy) && fresh(copy.board)
    ensures copy.Valid() && copy.Cells() == Move(old(game.Cells()), d)
  {
    copy := new Simulator.Copy(game);
    var _ := copy.PerformMove(d);
  }

  /** new Simulator(game) followed by setPieceAt(x, y, value): a fresh game on the board
      with value written at (x, y), the game itself untouched. */
  method PlacedCopy(game: Simulator, x: int, y: int, value: int) returns (copy: Simulator)
    requires game.Valid() && InBounds(game.Cells(), x, y) && value >= 0
    ensures fresh(copy) && fresh(copy.board)
    ensures copy.Valid() && copy.Cells() == Write(game.Cells(), x, y, value)
  {
    copy := new Simulator.Copy(game);
    var _ := copy.SetPieceAt(x, y, value);
  }

  /** The chance turn of expectimax below the depth limit: for every empty cell, a copy
      of the game with a new 2 and a copy with a new 4 are searched one level down at the
      player's turn; the weighted values are summed and divided by the number of empty
      cells, and a board without one is evaluated. */
  method ChanceNodeScore(game: Simulator, depth: int) returns (score: real)
    requires game.Valid() && 0 <= depth < MAX_DEPTH && AnyMovePossible(game.Cells())
    ensures score == ChanceNode(game.Cells(), depth)
    decreases MAX_DEPTH - depth, 2
  {
    ghost var g := game.Cells();
    ghost var two, four := SpawnValues(g, depth, 2), SpawnValues(g, depth, 4);
    var totalScore := 0.0;
    var emptySpaces := 0;
    var h := game.GetBoardHeight();
    var y := 0;
    while y < h
      invariant 0 <= y <= h
      invariant game.Valid() && game.Cells() == g
      invariant totalScore == SpawnRows(g, two, four, y)
      invariant emptySpaces == RowsEmpty(g, y)
    {
      totalScore, emptySpaces := SpawnRowScore(game, y, depth, totalScore, emptySpaces);
      var next := y + 1;
      SpawnRowsNext(g, two, four, y, next);
      y := next;
    }
    if emptySpaces > 0 {
      score := totalScore / (emptySpaces as real);
    } else {
      score := EvaluateBoard(game);
    }
  }

  /** The chance node's inner loop over row y: the running sum and count of empty cells
      go on through the row's cells, left to right. */
  method SpawnRowScore(game: Simulator, y: int, depth: int, total: real, empty: int) returns (totalScore: real, emptySpaces: int)
    requires game.Valid() && 0 <= depth < MAX_DEPTH && 0 <= y < Height(game.Cells())
    ensures totalScore == total + SpawnRow(game.Cells(), SpawnValues(game.Cells(), depth, 2), SpawnValues(game.Cells(), depth, 4), y, Width(game.Cells()))
    ensures emptySpaces == empty + RowEmpty(game.Cells()[y], Width(game.Cells()))
    decreases MAX_DEPTH - depth, 1
  {
    ghost var g := game.Cells();
    ghost var two, four := SpawnValues(g, depth, 2), SpawnValues(g, depth, 4);
    totalScore, emptySpaces := total, empty;
    var w := game.GetBoardWidth();
    var x := 0;
    while x < w
      invariant 0 <= x <= w
      invariant game.Valid() && game.Cells() == g
      invariant totalScore == total + SpawnRow(g, two, four, y, x)
      invariant emptySpaces == empty + RowEmpty(g[y], x)
    {
      if game.GetPieceAt(x, y).value == 0 {
        emptySpaces := emptySpaces + 1;
        var s2 := SpawnScore(game, x, y, 2, depth);
        totalScore := totalScore + s2;
        var s4 := SpawnScore(game, x, y, 4, depth);
        totalScore := totalScore + s4;
      }
      var next := x + 1;
      SpawnRowNext(g, two, four, y, x, next);
      x := next;
    }
  }

  /** One pass of the chance node's loop over the new tile values: a copy of the game
      gets value at the empty cell (x, y), and its search value, one level down at the
      player's turn, is weighted by the chance of that value, 0.9 for a 2 and 0.1 for a 4. */
  method SpawnScore(game: Simulator, x: int, y: int, value: int, depth: int) returns (s: real)
    requires game.Valid() && 0 <= depth < MAX_DEPTH && (value == 2 || value == 4)
    requires InBounds(game.Cells(), x, y)
    ensures value == 2 ==> s == 0.9 * SpawnValues(game.Cells(), depth, 2)[y][x]
    ensures value == 4 ==> s == 0.1 * SpawnValues(game.Cells(), depth, 4)[y][x]
    decreases MAX_DEPTH - depth, 0
  {
    var copy := PlacedCopy(game, x, y, value);
    var probability := if value == 2 then 0.9 else 0.1;
    var next := depth + 1;
    var child := Expectimax(copy, next, true);
    SpawnValueOf(game.Cells(), depth, next, x, y, value, copy.Cells(), child);
    s := probability * child;
  }

  /** getPlayerMove: scores each legal direction, in the order SOUTH, WEST, EAST, NORTH,
      by the search value of a copy of the game after the move, keeps the first one
      with the strictly highest score, and falls back to NORTH. The direction returned
      is legal whenever any direction is. */
  method GetPlayerMove(game: Simulator) returns (move: Direction)
    requires game.Valid()
    ensures move == BestMove(game.Cells())
    ensures AnyMovePossible(game.Cells()) ==> MovePossible(game.Cells(), move)
    ensures !AnyMovePossible(game.Cells()) ==> move == North
  {
    ghost var g := game.Cells();
    ghost var legality, scores := Legality(g, Moves), MoveValues(g, 0);
    ghost var bestIndex: Option<nat> := None;
    var bestMove: Option<Direction> := None;
    var maxScore: Option<real> := None;
    var n := 0;
    while n < |Moves|
      invariant 0 <= n <= |Moves|
      invariant game.Valid() && game.Cells() == g
      invariant (bestIndex, maxScore) == Choose(legality, scores, n)
      invariant bestIndex.None? <==> bestMove.None?
      invariant bestIndex.Some? ==> bestIndex.value < |Moves| && bestMove == Some(Moves[bestIndex.value])
    {
      var candidate := Moves[n];
      var legal := game.IsMovePossible(candidate);
      if legal {
        var score := MoveScore(game, n, 0);
        if maxScore.None? || score > maxScore.value {
          maxScore := Some(score);
          bestMove := Some(candidate);
          bestIndex := Some(n);
        }
      }
      var next := n + 1;
      ChooseNext(legality, scores, n, next);
      n := next;
    }
    move := if bestMove.Some? then bestMove.value else North;
    var _ := BestMoveIsFirstBest(g);
  }
}
