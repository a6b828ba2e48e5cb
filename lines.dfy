/** One line of the board (a row or a column), read from the edge that a move pushes
    toward: position 0 is the cell on that edge and position p + 1 is the cell behind
    position p. A cell value of 0 means the cell is empty. */
module Lines {

  function Zeros(n: nat): (r: seq<int>)
    ensures |r| == n
    ensures forall i :: 0 <= i < n ==> r[i] == 0
  {
    seq(n, _ => 0)
  }

  function Falses(n: nat): (r: seq<bool>)
    ensures |r| == n
    ensures forall i :: 0 <= i < n ==> !r[i]
  {
    seq(n, _ => false)
  }

  /** The occupied cells of s, in their order along the line. */
  function NonZeros(s: seq<int>): (r: seq<int>)
    ensures |r| <= |s|
    ensures forall i :: 0 <= i < |r| ==> r[i] != 0
  {
    if s == [] then []
    else NonZeros(s[..|s| - 1]) + (if s[|s| - 1] != 0 then [s[|s| - 1]] else [])
  }

  /** No occupied cell has an empty cell right in front of it (toward the edge). */
  predicate Packed(s: seq<int>)
  {
    forall p :: 1 <= p < |s| && s[p] != 0 ==> s[p - 1] != 0
  }

  /** Two neighbouring occupied cells hold the same value. */
  predicate HasPair(s: seq<int>)
  {
    exists p :: 1 <= p < |s| && s[p] != 0 && s[p - 1] == s[p]
  }

  /** The legality test of a move, restricted to one line: some occupied cell has a
      neighbour toward the edge that is empty or holds the same value. */
  predicate Legal(s: seq<int>)
  {
    exists p :: 1 <= p < |s| && s[p] != 0 && (s[p - 1] == 0 || s[p - 1] == s[p])
  }

  /** A position that makes a legal line legal. */
  lemma LegalAt(s: seq<int>) returns (p: nat)
    requires Legal(s)
    ensures 1 <= p < |s| && s[p] != 0 && (s[p - 1] == 0 || s[p - 1] == s[p])
  {
    p :| 1 <= p < |s| && s[p] != 0 && (s[p - 1] == 0 || s[p - 1] == s[p]);
  }

  /** The line after sliding every tile toward the edge: the occupied cells in their
      order, then empty cells. */
  function Compact(s: seq<int>): (r: seq<int>)
    ensures |r| == |s|
  {
    NonZeros(s) + Zeros(|s| - |NonZeros(s)|)
  }

  // ---------------------------------------------------------------------------
  // Facts about NonZeros and Compact
  // ---------------------------------------------------------------------------

  lemma {:induction false} NonZerosAppend(a: seq<int>, b: seq<int>)
    ensures NonZeros(a + b) == NonZeros(a) + NonZeros(b)
    decreases |b|
  {
    if b == [] {
      assert a + b == a;
    } else {
      var b' := b[..|b| - 1];
      assert (a + b)[..|a + b| - 1] == a + b';
      NonZerosAppend(a, b');
    }
  }

  lemma {:induction false} NonZerosOfOccupied(t: seq<int>)
    requires forall i :: 0 <= i < |t| ==> t[i] != 0
    ensures NonZeros(t) == t
  {
    if t != [] {
      NonZerosOfOccupied(t[..|t| - 1]);
    }
  }

  lemma {:induction false} NonZerosOfZeros(n: nat)
    ensures NonZeros(Zeros(n)) == []
  {
    if n > 0 {
      assert Zeros(n)[..n - 1] == Zeros(n - 1);
      NonZerosOfZeros(n - 1);
    }
  }

  /** NonZeros drops exactly the empty cells: its length is |s| iff s has no empty cell. */
  lemma {:induction false} NonZerosFull(s: seq<int>)
    ensures |NonZeros(s)| == |s| <==> forall i :: 0 <= i < |s| ==> s[i] != 0
  {
    if s != [] {
      var s' := s[..|s| - 1];
      NonZerosFull(s');
      assert forall i :: 0 <= i < |s'| ==> s'[i] == s[i];
      assert (forall i :: 0 <= i < |s| ==> s[i] != 0) <==>
             (forall i :: 0 <= i < |s'| ==> s'[i] != 0) && s[|s| - 1] != 0;
    }
  }

  /** In a packed line every cell in front of an occupied cell is occupied. */
  lemma {:induction false} PackedFront(s: seq<int>, j: int)
    requires Packed(s) && 0 <= j < |s| && s[j] != 0
    ensures forall i :: 0 <= i <= j ==> s[i] != 0
  {
    if j > 0 {
      PackedFront(s, j - 1);
    }
  }

  lemma PackedSnoc(s: seq<int>, v: int)
    ensures Packed(s + [v]) <==> Packed(s) && (v == 0 || |NonZeros(s)| == |s|)
  {
    var t := s + [v];
    NonZerosFull(s);
    if Packed(t) {
      assert forall i :: 0 <= i < |s| ==> s[i] == t[i];
      if v != 0 {
        PackedFront(t, |s|);
      }
    }
  }

  /** Compacting keeps the occupied cells and their order. */
  lemma CompactKeepsOrder(s: seq<int>)
    ensures NonZeros(Compact(s)) == NonZeros(s)
  {
    NonZerosAppend(NonZeros(s), Zeros(|s| - |NonZeros(s)|));
    NonZerosOfOccupied(NonZeros(s));
    NonZerosOfZeros(|s| - |NonZeros(s)|);
  }

  /** After compacting, no occupied cell has an empty cell in front of it. */
  lemma CompactIsPacked(s: seq<int>)
    ensures Packed(Compact(s))
  {
    var c := Compact(s);
    var n := |NonZeros(s)|;
    forall p | 1 <= p < |c| && c[p] != 0 ensures c[p - 1] != 0 {
      assert p < n;
    }
  }

  /** A line is left alone by the slide iff it is already packed. */
  lemma {:induction false} CompactFixedIffPacked(s: seq<int>)
    ensures Compact(s) == s <==> Packed(s)
  {
    CompactIsPacked(s);
    if Packed(s) && s != [] {
      var s' := s[..|s| - 1];
      var v := s[|s| - 1];
      assert s == s' + [v];
      PackedSnoc(s', v);
      CompactFixedIffPacked(s');
      if v == 0 {
        calc {
          Compact(s);
          NonZeros(s') + Zeros(|s| - |NonZeros(s')|);
          { assert Zeros(|s| - |NonZeros(s')|) == Zeros(|s'| - |NonZeros(s')|) + [0]; }
          Compact(s') + [0];
        }
      } else {
        NonZerosFull(s');
        NonZerosFull(s);
        NonZerosOfOccupied(s);
        assert Compact(s) == s + [];
      }
    }
  }

  /** The empty cells of a compacted line are exactly those after its occupied cells. */
  lemma CompactAt(s: seq<int>, i: int)
    requires 0 <= i < |s|
    ensures Compact(s)[i] == 0 <==> i >= |NonZeros(s)|
  {
  }

  /** One step of slideTiles's inner loop, finished: the tile v, processed after the
      line's prefix s was compacted, comes to rest right behind the last occupied cell. */
  lemma CompactPush(s: seq<int>, v: int, q: int)
    requires v != 0 && 0 <= q <= |s|
    requires forall i :: q <= i < |s| ==> Compact(s)[i] == 0
    requires q == 0 || Compact(s)[q - 1] != 0
    ensures q == |NonZeros(s)|
    ensures Compact(s)[..q] + [v] + Zeros(|s| - q) == Compact(s + [v])
  {
    if q < |s| {
      CompactAt(s, q);
    }
    if q > 0 {
      CompactAt(s, q - 1);
    }
    assert (s + [v])[..|s|] == s;
    assert NonZeros(s + [v]) == NonZeros(s) + [v];
    assert Compact(s)[..q] == NonZeros(s);
  }

  /** The line while slideTiles works through it: positions 0 .. m - 1 have been
      processed (and so are compacted), the rest is untouched. */
  function SlidPrefix(s: seq<int>, m: nat): (r: seq<int>)
    requires m <= |s|
    ensures |r| == |s|
  {
    Compact(s[..m]) + s[m..]
  }

  lemma SlidPrefixEnds(s: seq<int>)
    ensures SlidPrefix(s, 0) == s
    ensures SlidPrefix(s, |s|) == Compact(s)
  {
    assert s[..|s|] == s;
  }

  /** An empty cell needs no work: processing it leaves the line as it was. */
  lemma SlidPrefixEmpty(s: seq<int>, p: nat)
    requires p < |s| && s[p] == 0
    ensures SlidPrefix(s, p + 1) == SlidPrefix(s, p)
  {
    var t := s[..p + 1];
    assert t[..p] == s[..p];
    assert NonZeros(t) == NonZeros(s[..p]);
    assert Zeros(|t| - |NonZeros(t)|) == Zeros(p - |NonZeros(s[..p])|) + [0];
    assert s[p..] == [0] + s[p + 1..];
  }

  /** The line when slideTiles picks up the occupied cell at position p. */
  lemma SlideLift(s: seq<int>, p: nat)
    requires p < |s|
    ensures SlidPrefix(s, p) == Compact(s[..p])[..p] + [s[p]] + Zeros(0) + s[p + 1..]
  {
    assert s[p..] == [s[p]] + s[p + 1..];
  }

  /** One round of slideTiles's inner loop: the tile v moves from position q into the
      empty cell q - 1 in front of it, leaving one more empty cell behind it. */
  lemma SlideShift(c: seq<int>, v: int, q: nat, p: nat, rest: seq<int>)
    requires 1 <= q <= p == |c| && c[q - 1] == 0
    ensures |c[..q] + [v] + Zeros(p - q) + rest| == p + 1 + |rest|
    ensures (c[..q] + [v] + Zeros(p - q) + rest)[q - 1 := v][q := 0] == c[..q - 1] + [v] + Zeros(p - q + 1) + rest
    ensures (c[..q - 1] + [v] + Zeros(p - q + 1) + rest)[p] == 0
  {
    var a := c[..q] + [v] + Zeros(p - q) + rest;
    var b := c[..q - 1] + [v] + Zeros(p - q + 1) + rest;
    assert |a| == |b|;
    forall t | 0 <= t < |a| ensures a[q - 1 := v][q := 0][t] == b[t] {
      if t < q - 1 {
        assert a[t] == c[t] && b[t] == c[t];
      } else if t > q && t <= p {
        assert a[t] == 0 && b[t] == 0;
      } else if t > p {
        assert a[t] == rest[t - p - 1] && b[t] == rest[t - p - 1];
      }
    }
  }

  /** The inner loop of slideTiles stops: the tile rests at q, right behind the last
      occupied cell of the compacted prefix, and the line is processed up to p + 1. */
  lemma SlideSettle(s: seq<int>, p: nat, q: nat)
    requires p < |s| && s[p] != 0 && q <= p
    requires forall t :: q <= t < p ==> Compact(s[..p])[t] == 0
    requires q == 0 || Compact(s[..p])[q - 1] != 0
    ensures Compact(s[..p])[..q] + [s[p]] + Zeros(p - q) + s[p + 1..] == SlidPrefix(s, p + 1)
  {
    CompactPush(s[..p], s[p], q);
    assert s[..p] + [s[p]] == s[..p + 1];
  }

  /** The inner loop of slideTiles on one line: while the cell in front of the tile at
      position p is empty, the tile moves into it. */
  function Settle(t: seq<int>, p: nat): (r: seq<int>)
    requires p < |t|
    ensures |r| == |t|
    decreases p
  {
    if p >= 1 && t[p] != 0 && t[p - 1] == 0 then Settle(t[p - 1 := t[p]][p := 0], p - 1) else t
  }

  /** The line after slideTiles has settled positions 0 .. m - 1, one after the other. */
  function SlidUpTo(s: seq<int>, m: nat): (r: seq<int>)
    requires m <= |s|
    ensures |r| == |s|
  {
    if m == 0 then s else Settle(SlidUpTo(s, m - 1), m - 1)
  }

  /** Settling the tile s[p] from position q, with only empty cells between q and p,
      ends with the line compacted up to p + 1. */
  lemma {:induction false} SettleFrom(s: seq<int>, p: nat, q: nat)
    requires p < |s| && s[p] != 0 && q <= p
    requires forall t :: q <= t < p ==> Compact(s[..p])[t] == 0
    ensures |Compact(s[..p])[..q] + [s[p]] + Zeros(p - q) + s[p + 1..]| == |s|
    ensures Settle(Compact(s[..p])[..q] + [s[p]] + Zeros(p - q) + s[p + 1..], q) == SlidPrefix(s, p + 1)
    decreases q
  {
    var c := Compact(s[..p]);
    var a := c[..q] + [s[p]] + Zeros(p - q) + s[p + 1..];
    assert a[q] == s[p];
    if q >= 1 && c[q - 1] == 0 {
      assert a[q - 1] == 0;
      SlideShift(c, s[p], q, p, s[p + 1..]);
      SettleFrom(s, p, q - 1);
    } else {
      SlideSettle(s, p, q);
    }
  }

  /** Settling the positions one at a time, as slideTiles does, compacts them. */
  /** Settling an empty position does nothing. */
  lemma SettleEmpty(s: seq<int>, p: nat)
    requires p < |s| && SlidUpTo(s, p)[p] == 0
    ensures SlidUpTo(s, p + 1) == SlidUpTo(s, p)
  {
  }

  lemma {:induction false} SlidUpToPrefix(s: seq<int>, m: nat)
    requires m <= |s|
    ensures SlidUpTo(s, m) == SlidPrefix(s, m)
  {
    if m == 0 {
      SlidPrefixEnds(s);
    } else {
      var p := m - 1;
      SlidUpToPrefix(s, p);
      if s[p] == 0 {
        assert SlidPrefix(s, p)[p] == s[p];
        SlidPrefixEmpty(s, p);
      } else {
        SlideLift(s, p);
        SettleFrom(s, p, p);
      }
    }
  }

  /** Where slideTiles's inner loop stops with the tile s[p] at q, the line is settled
      up to p + 1, and it differs from the line before exactly when q < p. */
  lemma SettleEnd(s: seq<int>, p: nat, q: nat)
    requires p < |s| && s[p] != 0 && q <= p
    requires forall t :: q <= t < p ==> Compact(s[..p])[t] == 0
    requires q == 0 || Compact(s[..p])[q - 1] != 0
    ensures Compact(s[..p])[..q] + [s[p]] + Zeros(p - q) + s[p + 1..] == SlidUpTo(s, p + 1)
    ensures q < p ==> SlidUpTo(s, p + 1)[p] == 0
    ensures q == p ==> SlidUpTo(s, p + 1) == SlidUpTo(s, p)
  {
    SlideSettle(s, p, q);
    SlidUpToPrefix(s, p + 1);
    if q == p {
      SlideLift(s, p);
      SlidUpToPrefix(s, p);
    }
  }

  /** Settling every position of a line compacts it. */
  lemma SlidUpToAll(s: seq<int>)
    ensures SlidUpTo(s, |s|) == Compact(s)
  {
    SlidUpToPrefix(s, |s|);
    SlidPrefixEnds(s);
  }

  // ---------------------------------------------------------------------------
  // The merge scan of mergeTiles, on one line
  // ---------------------------------------------------------------------------

  /** The state of mergeTiles's scan of a line: the cells, the mergedThisTurn flags,
      the points gained so far and the number of merges so far. */
  datatype Scan = Scan(cells: seq<int>, merged: seq<bool>, gain: int, merges: nat)

  /** Whether the scan, at position p, merges the tile there into the cell in front. */
  predicate MergesAt(st: Scan, p: nat)
    requires p < |st.cells| == |st.merged|
  {
    1 <= p && st.cells[p] != 0 && st.cells[p - 1] == st.cells[p] && !st.merged[p - 1]
  }

  /** Processing position p: a tile merges into an equal neighbour in front of it that
      has not merged yet; that neighbour doubles, the tile's cell empties, the doubled
      value is gained. */
  function Step(st: Scan, p: nat): (r: Scan)
    requires p < |st.cells| == |st.merged|
    ensures |r.cells| == |r.merged| == |st.cells|
    ensures MergesAt(st, p) ==> r.merges == st.merges + 1 && r.gain == st.gain + 2 * st.cells[p]
    ensures !MergesAt(st, p) ==> r == st
  {
    if MergesAt(st, p) then
      var v := 2 * st.cells[p - 1];
      Scan(st.cells[p - 1 := v][p := 0], st.merged[p - 1 := true], st.gain + v, st.merges + 1)
    else
      st
  }

  /** The scan after processing positions 0 .. m - 1 of s, from the edge inward. */
  function ScanUpTo(s: seq<int>, m: nat): (st: Scan)
    requires m <= |s|
    ensures |st.cells| == |st.merged| == |s|
  {
    if m == 0 then Scan(s, Falses(|s|), 0, 0) else Step(ScanUpTo(s, m - 1), m - 1)
  }

  /** A line, its recorded gain and its recorded merge count are those of the scan st. */
  predicate Scanned(c: seq<int>, gain: int, merges: int, st: Scan)
  {
    c == st.cells && gain == st.gain && merges == st.merges
  }

  /** A step of the scan that merges at p doubles position p - 1, empties p, gains the
      doubled value and counts one merge more. */
  lemma ScanMerge(s: seq<int>, p: nat, c: seq<int>, gain: int, merges: int)
    requires p < |s| && MergesAt(ScanUpTo(s, p), p)
    requires Scanned(c, gain, merges, ScanUpTo(s, p))
    ensures Scanned(c[p - 1 := 2 * c[p - 1]][p := 0], gain + 2 * c[p - 1], merges + 1, ScanUpTo(s, p + 1))
  {
  }


  function ScanAll(s: seq<int>): Scan
  {
    ScanUpTo(s, |s|)
  }

  /** The per-line result of a whole move: slide, merge, slide again. */
  function MoveLine(s: seq<int>): (r: seq<int>)
    ensures |r| == |s|
  {
    Compact(ScanAll(Compact(s)).cells)
  }

  /** The state of the scan after m steps: positions from m on are untouched, the last
      processed cell is untouched or emptied, flags are set only on doubled cells in front
      of an emptied cell, and every cell is empty, untouched or doubled once. */
  ghost predicate ScanShape(s: seq<int>, m: nat, st: Scan)
    requires m <= |s| && |st.cells| == |st.merged| == |s|
  {
    (forall i :: m <= i < |s| ==> st.cells[i] == s[i] && !st.merged[i]) &&
    (m >= 1 ==> !st.merged[m - 1] && (st.cells[m - 1] == s[m - 1] || st.cells[m - 1] == 0)) &&
    (forall i :: 0 <= i < |s| && st.merged[i] ==>
        i + 1 < m && s[i] != 0 && s[i + 1] == s[i] && st.cells[i] == 2 * s[i] && st.cells[i + 1] == 0) &&
    (forall i :: 0 <= i < |s| && !st.merged[i] ==> st.cells[i] == s[i] || st.cells[i] == 0) &&
    (st.merges == 0 ==> st.cells == s && st.merged == Falses(|s|))
  }

  lemma StepKeepsShape(s: seq<int>, p: nat, st: Scan)
    requires p < |s| && |st.cells| == |st.merged| == |s|
    requires ScanShape(s, p, st)
    ensures ScanShape(s, p + 1, Step(st, p))
  {
    if MergesAt(st, p) {
      var r := Step(st, p);
      assert st.cells[p] == s[p];
      assert st.cells[p - 1] == s[p - 1];
      forall i | 0 <= i < |s| && r.merged[i]
        ensures i + 1 < p + 1 && s[i] != 0 && s[i + 1] == s[i] && r.cells[i] == 2 * s[i] && r.cells[i + 1] == 0
      {
        if i != p - 1 {
          assert st.merged[i];
          assert st.cells[i + 1] == 0;
        }
      }
    }
  }

  lemma {:induction false} ScanUpToShape(s: seq<int>, m: nat)
    requires m <= |s|
    ensures ScanShape(s, m, ScanUpTo(s, m))
  {
    if m > 0 {
      ScanUpToShape(s, m - 1);
      StepKeepsShape(s, m - 1, ScanUpTo(s, m - 1));
    }
  }

  /** Each cell absorbs at most one merge: after the scan every cell holds its old value,
      nothing, or its old value doubled exactly once, and a doubled cell had an equal
      tile behind it whose cell is now empty. */
  lemma MergeAtMostOnce(s: seq<int>)
    ensures var st := ScanAll(s);
      forall i :: 0 <= i < |s| ==>
        (st.cells[i] == s[i] || st.cells[i] == 0 || st.cells[i] == 2 * s[i]) &&
        (st.merged[i] ==> i + 1 < |s| && s[i + 1] == s[i] && st.cells[i] == 2 * s[i] && st.cells[i + 1] == 0)
  {
    ScanUpToShape(s, |s|);
  }

  /** The mergedThisTurn flag of the cell in front is never set when the scan looks at it:
      a cell can only be merged into by the one tile right behind it. */
  lemma {:induction false} FlagClearOnVisit(s: seq<int>, p: nat)
    requires 1 <= p < |s|
    ensures !ScanUpTo(s, p).merged[p - 1]
  {
    ScanUpToShape(s, p);
  }

  /** The sum of the cells whose mergedThisTurn flag is set. */
  function MergedSum(cells: seq<int>, merged: seq<bool>): int
    requires |cells| == |merged|
  {
    if cells == [] then 0
    else MergedSum(cells[..|cells| - 1], merged[..|merged| - 1])
         + (if merged[|merged| - 1] then cells[|cells| - 1] else 0)
  }

  function CountTrue(b: seq<bool>): nat
  {
    if b == [] then 0 else CountTrue(b[..|b| - 1]) + (if b[|b| - 1] then 1 else 0)
  }

  lemma {:induction false} MergedSumUnflagged(cells: seq<int>, merged: seq<bool>, j: int, u: int)
    requires |cells| == |merged| && 0 <= j < |cells| && !merged[j]
    ensures MergedSum(cells[j := u], merged) == MergedSum(cells, merged)
    decreases |cells|
  {
    var n := |cells| - 1;
    if j < n {
      assert cells[j := u][..n] == cells[..n][j := u];
      MergedSumUnflagged(cells[..n], merged[..n], j, u);
    } else {
      assert cells[j := u][..n] == cells[..n];
    }
  }

  lemma {:induction false} MergedSumFlag(cells: seq<int>, merged: seq<bool>, i: int, v: int)
    requires |cells| == |merged| && 0 <= i < |cells| && !merged[i]
    ensures MergedSum(cells[i := v], merged[i := true]) == MergedSum(cells, merged) + v
    ensures CountTrue(merged[i := true]) == CountTrue(merged) + 1
    decreases |cells|
  {
    var n := |cells| - 1;
    if i < n {
      assert cells[i := v][..n] == cells[..n][i := v];
      assert merged[i := true][..n] == merged[..n][i := true];
      MergedSumFlag(cells[..n], merged[..n], i, v);
    } else {
      assert cells[i := v][..n] == cells[..n];
      assert merged[i := true][..n] == merged[..n];
    }
  }

  lemma {:induction false} FalsesSums(s: seq<int>)
    ensures MergedSum(s, Falses(|s|)) == 0 && CountTrue(Falses(|s|)) == 0
  {
    if s != [] {
      assert Falses(|s|)[..|s| - 1] == Falses(|s| - 1);
      FalsesSums(s[..|s| - 1]);
    }
  }

  /** The points a scan gains are the sum of the doubled cells it flags; it makes one
      merge per flag. */
  lemma {:induction false} ScanGainIsMergedSum(s: seq<int>, m: nat)
    requires m <= |s|
    ensures ScanUpTo(s, m).gain == MergedSum(ScanUpTo(s, m).cells, ScanUpTo(s, m).merged)
    ensures ScanUpTo(s, m).merges == CountTrue(ScanUpTo(s, m).merged)
  {
    if m == 0 {
      FalsesSums(s);
    } else {
      ScanGainIsMergedSum(s, m - 1);
      ScanUpToShape(s, m - 1);
      StepGain(ScanUpTo(s, m - 1), m - 1);
    }
  }

  /** A step keeps the gain equal to the sum of the flagged cells and the merge count
      equal to the number of flags, when the position it visits is not flagged yet. */
  lemma StepGain(st: Scan, p: nat)
    requires p < |st.cells| == |st.merged| && !st.merged[p]
    requires st.gain == MergedSum(st.cells, st.merged) && st.merges == CountTrue(st.merged)
    ensures Step(st, p).gain == MergedSum(Step(st, p).cells, Step(st, p).merged)
    ensures Step(st, p).merges == CountTrue(Step(st, p).merged)
  {
    if MergesAt(st, p) {
      var v := 2 * st.cells[p - 1];
      MergedSumFlag(st.cells, st.merged, p - 1, v);
      MergedSumUnflagged(st.cells[p - 1 := v], st.merged[p - 1 := true], p, 0);
    }
  }

  lemma HasPairSnoc(s: seq<int>, m: nat)
    requires 1 <= m <= |s|
    ensures HasPair(s[..m]) <==> HasPair(s[..m - 1]) || (m >= 2 && s[m - 1] != 0 && s[m - 2] == s[m - 1])
  {
    var t, u := s[..m], s[..m - 1];
    if HasPair(u) {
      var q :| 1 <= q < |u| && u[q] != 0 && u[q - 1] == u[q];
      assert t[q] == u[q] && t[q - 1] == u[q - 1];
    }
    if HasPair(t) && !(m >= 2 && s[m - 1] != 0 && s[m - 2] == s[m - 1]) {
      var q :| 1 <= q < |t| && t[q] != 0 && t[q - 1] == t[q];
      assert q < m - 1;
      assert u[q] == t[q] && u[q - 1] == t[q - 1];
    }
    if m >= 2 && s[m - 1] != 0 && s[m - 2] == s[m - 1] {
      assert t[m - 1] != 0 && t[m - 2] == t[m - 1];
    }
  }

  /** The scan merges something iff two neighbouring occupied cells of the line are equal. */
  lemma {:induction false} ScanMergesIffPair(s: seq<int>, m: nat)
    requires m <= |s|
    ensures ScanUpTo(s, m).merges > 0 <==> HasPair(s[..m])
  {
    if m > 0 {
      ScanMergesIffPair(s, m - 1);
      ScanUpToShape(s, m - 1);
      HasPairSnoc(s, m);
      var st := ScanUpTo(s, m - 1);
      var p := m - 1;
      if MergesAt(st, p) {
        assert st.cells[p - 1] == s[p - 1];
      }
    }
  }

  /** With positive tiles the points a scan gains are positive exactly when it merges. */
  lemma {:induction false} ScanGainSign(s: seq<int>, m: nat)
    requires m <= |s|
    requires forall i :: 0 <= i < |s| ==> s[i] >= 0
    ensures ScanUpTo(s, m).gain >= 0
    ensures ScanUpTo(s, m).gain == 0 <==> ScanUpTo(s, m).merges == 0
  {
    if m > 0 {
      ScanGainSign(s, m - 1);
      ScanUpToShape(s, m - 1);
      var st := ScanUpTo(s, m - 1);
      if MergesAt(st, m - 1) {
        assert st.cells[m - 1] == s[m - 1] > 0;
      }
    }
  }

  /** Each merge empties one occupied cell. */
  lemma {:induction false} ScanDropsOnePerMerge(s: seq<int>, m: nat)
    requires m <= |s|
    ensures |NonZeros(ScanUpTo(s, m).cells)| + ScanUpTo(s, m).merges == |NonZeros(s)|
  {
    if m > 0 {
      ScanDropsOnePerMerge(s, m - 1);
      StepDropsOne(ScanUpTo(s, m - 1), m - 1);
    }
  }

  /** A step that merges empties one occupied cell and counts one merge. */
  lemma StepDropsOne(st: Scan, p: nat)
    requires p < |st.cells| == |st.merged|
    ensures |NonZeros(Step(st, p).cells)| + Step(st, p).merges == |NonZeros(st.cells)| + st.merges
  {
    if MergesAt(st, p) {
      var c := st.cells;
      var v := 2 * c[p - 1];
      CountAfterWrite(c, p - 1, v);
      CountAfterWrite(c[p - 1 := v], p, 0);
    }
  }

  /** How the number of occupied cells changes when one cell is overwritten. */
  lemma CountAfterWrite(s: seq<int>, i: int, v: int)
    requires 0 <= i < |s|
    ensures |NonZeros(s[i := v])| == |NonZeros(s)| - (if s[i] != 0 then 1 else 0) + (if v != 0 then 1 else 0)
  {
    assert s == s[..i] + [s[i]] + s[i + 1..];
    assert s[i := v] == s[..i] + [v] + s[i + 1..];
    NonZerosAppend(s[..i] + [s[i]], s[i + 1..]);
    NonZerosAppend(s[..i], [s[i]]);
    NonZerosAppend(s[..i] + [v], s[i + 1..]);
    NonZerosAppend(s[..i], [v]);
    assert NonZeros([s[i]]) == NonZeros([]) + (if s[i] != 0 then [s[i]] else []);
    assert NonZeros([v]) == NonZeros([]) + (if v != 0 then [v] else []);
  }

  // ---------------------------------------------------------------------------
  // The scan of a concatenation, and the standard 2048 merge
  // ---------------------------------------------------------------------------

  function Join(x: Scan, y: Scan): Scan
  {
    Scan(x.cells + y.cells, x.merged + y.merged, x.gain + y.gain, x.merges + y.merges)
  }

  function Start(s: seq<int>): Scan
  {
    Scan(s, Falses(|s|), 0, 0)
  }

  lemma StepJoinLeft(x: Scan, y: Scan, p: nat)
    requires |x.cells| == |x.merged| && |y.cells| == |y.merged| && p < |x.cells|
    ensures Step(Join(x, y), p) == Join(Step(x, p), y)
  {
    var j := Join(x, y);
    assert MergesAt(j, p) == MergesAt(x, p);
    if MergesAt(x, p) {
      var v := 2 * x.cells[p - 1];
      assert (x.cells + y.cells)[p - 1 := v][p := 0] == x.cells[p - 1 := v][p := 0] + y.cells;
      assert (x.merged + y.merged)[p - 1 := true] == x.merged[p - 1 := true] + y.merged;
    }
  }

  lemma StepJoinRight(x: Scan, y: Scan, p: nat)
    requires |x.cells| == |x.merged| && |y.cells| == |y.merged| && p < |y.cells|
    requires p == 0 ==> x.cells == [] || y.cells[0] == 0 || x.cells[|x.cells| - 1] != y.cells[0]
    ensures Step(Join(x, y), |x.cells| + p) == Join(x, Step(y, p))
  {
    var j := Join(x, y);
    var n := |x.cells|;
    if p > 0 {
      assert j.cells[n + p] == y.cells[p];
      assert j.cells[n + p - 1] == y.cells[p - 1];
      assert j.merged[n + p - 1] == y.merged[p - 1];
      assert MergesAt(j, n + p) == MergesAt(y, p);
      if MergesAt(y, p) {
        var v := 2 * y.cells[p - 1];
        assert (x.cells + y.cells)[n + p - 1 := v][n + p := 0] == x.cells + y.cells[p - 1 := v][p := 0];
        assert (x.merged + y.merged)[n + p - 1 := true] == x.merged + y.merged[p - 1 := true];
      }
    } else if n > 0 {
      assert j.cells[n] == y.cells[0];
      assert j.cells[n - 1] == x.cells[n - 1];
      assert !MergesAt(j, n);
    }
  }

  /** Scanning the first m cells of a + b does not look at b. */
  lemma {:induction false} ScanPrefix(a: seq<int>, b: seq<int>, m: nat)
    requires m <= |a|
    ensures ScanUpTo(a + b, m) == Join(ScanUpTo(a, m), Start(b))
  {
    if m == 0 {
      assert Falses(|a + b|) == Falses(|a|) + Falses(|b|);
    } else {
      ScanPrefix(a, b, m - 1);
      StepJoinLeft(ScanUpTo(a, m - 1), Start(b), m - 1);
    }
  }

  /** When the last cell of a, once a is scanned, cannot merge with the first tile of b,
      the scan of a + b is the scan of a followed by the scan of b. */
  lemma {:induction false} ScanSplit(a: seq<int>, b: seq<int>, m: nat)
    requires m <= |b|
    requires a == [] || b == [] || b[0] == 0 || ScanAll(a).cells[|a| - 1] != b[0]
    ensures ScanUpTo(a + b, |a| + m) == Join(ScanAll(a), ScanUpTo(b, m))
  {
    if m == 0 {
      ScanPrefix(a, b, |a|);
    } else {
      ScanSplit(a, b, m - 1);
      ScanSplitStep(a, b, m - 1, m);
    }
  }

  /** One more step of ScanSplit: the scan of b's next cell happens within a + b. */
  lemma ScanSplitStep(a: seq<int>, b: seq<int>, p: nat, next: nat)
    requires next == p + 1 <= |b|
    requires a == [] || b == [] || b[0] == 0 || ScanAll(a).cells[|a| - 1] != b[0]
    requires ScanUpTo(a + b, |a| + p) == Join(ScanAll(a), ScanUpTo(b, p))
    ensures ScanUpTo(a + b, |a| + next) == Join(ScanAll(a), ScanUpTo(b, next))
  {
    var x, y := ScanAll(a), ScanUpTo(b, p);
    StepJoinRight(x, y, p);
  }

  /** The standard 2048 merge of a line's tiles, from the edge inward: two equal tiles
      next to each other become one tile of double value, and a tile produced by a merge
      does not merge again in the same move. */
  function StdMerge(t: seq<int>): (r: seq<int>)
    ensures |r| <= |t|
  {
    if |t| <= 1 then t
    else if t[0] == t[1] then [2 * t[0]] + StdMerge(t[2..])
    else [t[0]] + StdMerge(t[1..])
  }

  /** A line padded with empty cells up to length n. */
  function Pad(t: seq<int>, n: nat): (r: seq<int>)
    requires |t| <= n
    ensures |r| == n && r[..|t|] == t
    ensures forall i :: |t| <= i < n ==> r[i] == 0
  {
    t + Zeros(n - |t|)
  }

  lemma ScanOfOne(a: int)
    ensures ScanAll([a]).cells == [a]
  {
    assert ScanUpTo([a], 0) == Start([a]);
    assert !MergesAt(Start([a]), 0);
  }

  lemma ScanOfEqualPair(a: int)
    requires a != 0
    ensures ScanAll([a, a]).cells == [2 * a, 0]
    ensures ScanAll([a, a]).gain == 2 * a
  {
    var st := Start([a, a]);
    assert ScanUpTo([a, a], 0) == st;
    assert !MergesAt(st, 0);
    assert ScanUpTo([a, a], 1) == st;
    assert MergesAt(st, 1);
    assert st.cells[0 := 2 * a][1 := 0] == [2 * a, 0];
  }

  lemma {:induction false} ScanOfOccupiedIsStd(t: seq<int>)
    requires forall i :: 0 <= i < |t| ==> t[i] != 0
    ensures NonZeros(ScanAll(t).cells) == StdMerge(t)
    decreases |t|
  {
    if |t| == 0 {
    } else if |t| == 1 {
      assert t == [t[0]];
      ScanOfOne(t[0]);
      NonZerosOfOccupied(t);
    } else if t[0] == t[1] {
      var a, b := [t[0], t[0]], t[2..];
      assert t == a + b;
      ScanOfEqualPair(t[0]);
      ScanSplit(a, b, |b|);
      ScanOfOccupiedIsStd(b);
      NonZerosAppend([2 * t[0], 0], ScanAll(b).cells);
      assert [2 * t[0], 0][..1] == [2 * t[0]];
      assert NonZeros([2 * t[0], 0]) == NonZeros([2 * t[0]]);
      NonZerosOfOccupied([2 * t[0]]);
    } else {
      var a, b := [t[0]], t[1..];
      assert t == a + b;
      ScanOfOne(t[0]);
      ScanSplit(a, b, |b|);
      ScanOfOccupiedIsStd(b);
      NonZerosAppend(a, ScanAll(b).cells);
      NonZerosOfOccupied(a);
    }
  }

  lemma ScanOfZeros(n: nat)
    ensures ScanAll(Zeros(n)).cells == Zeros(n)
  {
    ScanMergesIffPair(Zeros(n), n);
    ScanUpToShape(Zeros(n), n);
    assert Zeros(n)[..n] == Zeros(n);
  }

  /** The merge scan of a compacted line is the scan of its tiles, then empty cells. */
  lemma ScanOfCompact(s: seq<int>)
    ensures ScanAll(Compact(s)).cells == ScanAll(NonZeros(s)).cells + Zeros(|s| - |NonZeros(s)|)
  {
    var nz := NonZeros(s);
    var z := Zeros(|s| - |nz|);
    var t := nz + z;
    assert Compact(s) == t;
    assert z == [] || z[0] == 0;
    ScanSplit(nz, z, |z|);
    assert |t| == |nz| + |z|;
    assert ScanUpTo(t, |t|) == Join(ScanAll(nz), ScanAll(z));
    ScanOfZeros(|z|);
    assert Zeros(|z|) == z;
  }

  /** A whole move on one line agrees with the standard 2048 rule: the tiles, in order,
      merged pairwise from the edge, then empty cells. */
  lemma MoveLineIsStandard(s: seq<int>)
    ensures MoveLine(s) == Pad(StdMerge(NonZeros(s)), |s|)
  {
    var nz := NonZeros(s);
    var z := Zeros(|s| - |nz|);
    var a := ScanAll(nz).cells;
    var c := ScanAll(Compact(s)).cells;
    assert c == a + z by {
      ScanOfCompact(s);
    }
    assert NonZeros(z) == [] by {
      NonZerosOfZeros(|z|);
      assert Zeros(|z|) == z;
    }
    assert NonZeros(a) == StdMerge(nz) by {
      ScanOfOccupiedIsStd(nz);
    }
    NonZerosAppend(a, z);
    assert NonZeros(c) == StdMerge(nz);
    CompactIsPad(c, StdMerge(nz), |s|);
  }

  /** Compacting a line whose tiles are t gives t followed by empty cells. */
  lemma CompactIsPad(c: seq<int>, t: seq<int>, n: nat)
    requires |c| == n && NonZeros(c) == t
    ensures Compact(c) == Pad(t, n)
  {
  }

  /** The row [2, 2, 2], moved toward its first cell, ends as [4, 2, 0]: the tile made by
      the first merge does not absorb the third 2. */
  lemma TripleTwos()
    ensures MoveLine([2, 2, 2]) == [4, 2, 0]
  {
    MoveLineIsStandard([2, 2, 2]);
    NonZerosOfOccupied([2, 2, 2]);
    assert StdMerge([2, 2, 2]) == [4] + StdMerge([2]);
  }

  /** The row [2, 2, 4, 0] moved toward its first cell ends as [4, 4, 0, 0]. */
  lemma TwoTwoFour()
    ensures MoveLine([2, 2, 4, 0]) == [4, 4, 0, 0]
  {
    var s := [2, 2, 4, 0];
    assert s[..3] == [2, 2, 4];
    NonZerosOfOccupied([2, 2, 4]);
    assert NonZeros(s) == [2, 2, 4];
    MoveLineIsStandard(s);
    assert StdMerge([2, 2, 4]) == [4] + StdMerge([4]);
  }

  /** ... and gains 4 points: the new 4 does not merge with the old one. */
  lemma TwoTwoFourGain()
    ensures ScanAll(Compact([2, 2, 4, 0])).gain == 4
  {
    var s := [2, 2, 4, 0];
    assert s[..3] == [2, 2, 4];
    NonZerosOfOccupied([2, 2, 4]);
    assert Compact(s) == s;
    var st := Scan([4, 0, 4, 0], [true, false, false, false], 4, 1);
    assert ScanUpTo(s, 1) == Start(s);
    assert ScanUpTo(s, 2) == st;
    assert ScanUpTo(s, 3) == st;
  }

  // ---------------------------------------------------------------------------
  // When does a move change a line
  // ---------------------------------------------------------------------------

  lemma LegalIffGapOrPair(s: seq<int>)
    ensures Legal(s) <==> !Packed(s) || HasPair(s)
  {
  }

  /** The three phases of a move on one line: the first slide changes the line, the merge
      merges something, or the second slide changes the merged line, exactly when the
      line passes the legality test. */
  lemma PhasesIffLegal(s: seq<int>)
    ensures var c := Compact(s); var st := ScanAll(c);
      (c != s || st.merges > 0 || Compact(st.cells) != st.cells) <==> Legal(s)
  {
    var c := Compact(s);
    var st := ScanAll(c);
    CompactFixedIffPacked(s);
    LegalIffGapOrPair(s);
    ScanMergesIffPair(c, |c|);
    assert c[..|c|] == c;
    ScanUpToShape(c, |c|);
    if st.merges == 0 {
      CompactIsPacked(s);
      CompactFixedIffPacked(c);
    }
  }

  /** A move changes a line exactly when the line passes the legality test. */
  lemma MoveLineChangesIffLegal(s: seq<int>)
    ensures MoveLine(s) != s <==> Legal(s)
  {
    var c := Compact(s);
    var st := ScanAll(c);
    CompactFixedIffPacked(s);
    LegalIffGapOrPair(s);
    ScanMergesIffPair(c, |c|);
    assert c[..|c|] == c;
    ScanUpToShape(c, |c|);
    CompactIsPacked(st.cells);
    if !Packed(s) {
      CompactFixedIffPacked(MoveLine(s));
    } else if HasPair(s) {
      ScanDropsOnePerMerge(c, |c|);
      CompactKeepsOrder(st.cells);
    } else {
      CompactFixedIffPacked(c);
    }
  }
}
