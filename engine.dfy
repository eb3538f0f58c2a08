/**
 * One generation of Conway's Game of Life over a fixed-size boolean grid.
 *
 * The grid is an `array2<bool>` addressed `g[y, x]`: the first index is the
 * row (`y < g.Length0`, the number of rows), the second the column
 * (`x < g.Length1`, the number of columns). Neighbour coordinates that fall
 * outside the grid are resolved by an `EdgeCaseMethod`.
 */
module Engine {

  /** How a neighbour coordinate outside the grid is read. */
  datatype EdgeCaseMethod =
    | AssumeDead  // outside the grid every cell is dead
    | Torodial    // the grid is a torus: coordinates wrap once per axis

  // ---------------------------------------------------------------------
  // Reading a neighbour

  /** `v` is close enough to `[0, n)` for one wrap to bring it inside. */
  predicate InWrapRange(v: int, n: int) {
    0 < n && -n <= v < 2 * n
  }

  /** The toroidal policy's single wrap of one coordinate into `[0, n)`. */
  function Wrap(v: int, n: int): (r: int)
    requires InWrapRange(v, n)
    ensures 0 <= r < n
    ensures 0 <= v < n ==> r == v
  {
    if v >= n then v - n else if v < 0 then n + v else v
  }

  /** One wrap agrees with the mathematical remainder on the whole wrap range. */
  lemma WrapIsRemainder(v: int, n: int)
    requires InWrapRange(v, n)
    ensures Wrap(v, n) == v % n
  {
    if v >= n {
      assert v == n * 1 + (v - n);
    } else if v < 0 {
      assert v == n * -1 + (v + n);
    }
  }

  /**
   * The value of the neighbour at `(x, y)`, which may lie outside the grid.
   * Under `AssumeDead` an outside coordinate reads as dead; under `Torodial`
   * the caller keeps each coordinate within one wrap of the grid (as the
   * eight neighbour offsets do) and the coordinate is wrapped once.
   */
  function SafeIndex(g: array2<bool>, m: EdgeCaseMethod, x: int, y: int): (b: bool)
    reads g
    requires m.Torodial? ==> InWrapRange(x, g.Length1) && InWrapRange(y, g.Length0)
    ensures InGrid(g, x, y) ==> b == g[y, x]
  {
    match m
    case AssumeDead =>
      if x < 0 || y < 0 || x >= g.Length1 || y >= g.Length0 then false else g[y, x]
    case Torodial =>
      g[Wrap(y, g.Length0), Wrap(x, g.Length1)]
  }

  /** Under `AssumeDead` a read is alive exactly when it names a live cell of the grid. */
  lemma AssumeDeadReadsInside(g: array2<bool>, x: int, y: int)
    ensures SafeIndex(g, AssumeDead, x, y) <==> InGrid(g, x, y) && g[y, x]
  {
  }

  /** Under `Torodial` a read is the cell at the coordinates taken modulo the dimensions. */
  lemma TorodialReadsModulo(g: array2<bool>, x: int, y: int)
    requires InWrapRange(x, g.Length1) && InWrapRange(y, g.Length0)
    ensures SafeIndex(g, Torodial, x, y) == g[y % g.Length0, x % g.Length1]
  {
    WrapIsRemainder(x, g.Length1);
    WrapIsRemainder(y, g.Length0);
  }

  // ---------------------------------------------------------------------
  // Counting neighbours and the rule

  /** `(x, y)` is a cell of `g`. */
  predicate InGrid(g: array2<bool>, x: int, y: int) {
    0 <= x < g.Length1 && 0 <= y < g.Length0
  }

  /** 1 for a live cell, 0 for a dead one. */
  function Bit(b: bool): nat {
    if b then 1 else 0
  }

  /**
   * The offset `(dx, dy)` of the `k`-th Moore neighbour, in the order the
   * neighbourhood is read: the row above left to right, then the left and
   * the right neighbour, then the row below left to right.
   */
  function Offset(k: nat): (d: (int, int))
    requires k < 8
    ensures -1 <= d.0 <= 1 && -1 <= d.1 <= 1 && d != (0, 0)
  {
    if k == 0 then (-1, -1) else if k == 1 then (0, -1) else if k == 2 then (1, -1)
    else if k == 3 then (-1, 0) else if k == 4 then (1, 0)
    else if k == 5 then (-1, 1) else if k == 6 then (0, 1) else (1, 1)
  }

  /** The eight offsets are pairwise distinct, so each Moore neighbour is read exactly once. */
  lemma OffsetsDistinct()
    ensures forall i, j :: 0 <= i < j < 8 ==> Offset(i) != Offset(j)
  {
  }

  /** How many of the first `k` neighbours of `(x, y)`, read through the edge policy, are alive. */
  function LiveAmong(g: array2<bool>, m: EdgeCaseMethod, x: int, y: int, k: nat): (n: nat)
    reads g
    requires InGrid(g, x, y) && k <= 8
    ensures n <= k
  {
    if k == 0 then 0
    else
      var d := Offset(k - 1);
      LiveAmong(g, m, x, y, k - 1) + Bit(SafeIndex(g, m, x + d.0, y + d.1))
  }

  /**
   * The live-neighbour count of the cell `(x, y)`: how many of its eight
   * Moore neighbours, read through the edge policy, are alive.
   */
  function LiveNeighbours(g: array2<bool>, m: EdgeCaseMethod, x: int, y: int): (n: nat)
    reads g
    requires InGrid(g, x, y)
    ensures n <= 8
  {
    LiveAmong(g, m, x, y, 8)
  }

  /**
   * Conway's rule: the value of the cell `(x, y)` in the next generation.
   * A live cell survives with 2 or 3 live neighbours, a dead cell is born
   * with exactly 3, and every other cell is dead.
   */
  predicate NextCell(g: array2<bool>, m: EdgeCaseMethod, x: int, y: int)
    reads g
    requires InGrid(g, x, y)
  {
    var n := LiveNeighbours(g, m, x, y);
    if g[y, x] then n == 2 || n == 3 else n == 3
  }

  /**
   * The test by which `Step` records `(x, y)` as a flip: a live cell whose
   * count is outside 2..=3, or a dead cell whose count is exactly 3.
   */
  predicate Qualifies(g: array2<bool>, m: EdgeCaseMethod, x: int, y: int)
    reads g
    requires InGrid(g, x, y)
    ensures Qualifies(g, m, x, y) <==> NextCell(g, m, x, y) != g[y, x]
  {
    var n := LiveNeighbours(g, m, x, y);
    if g[y, x] then !(2 <= n <= 3) else n == 3
  }

  /** In an all-dead grid every neighbour reads as dead, under either policy. */
  lemma {:induction false} DeadGridCountsNone(g: array2<bool>, m: EdgeCaseMethod, x: int, y: int, k: nat)
    requires InGrid(g, x, y) && k <= 8
    requires forall j, i :: 0 <= j < g.Length0 && 0 <= i < g.Length1 ==> !g[j, i]
    ensures LiveAmong(g, m, x, y, k) == 0
  {
    if k > 0 {
      DeadGridCountsNone(g, m, x, y, k - 1);
    }
  }

  /** An all-dead grid stays dead: no cell is born and none qualifies for a flip. */
  lemma DeadGridStaysDead(g: array2<bool>, m: EdgeCaseMethod)
    requires forall j, i :: 0 <= j < g.Length0 && 0 <= i < g.Length1 ==> !g[j, i]
    ensures forall y, x :: 0 <= y < g.Length0 && 0 <= x < g.Length1 ==>
              !NextCell(g, m, x, y) && !Qualifies(g, m, x, y)
  {
    forall y, x | 0 <= y < g.Length0 && 0 <= x < g.Length1 {
      DeadGridCountsNone(g, m, x, y, 8);
    }
  }

  /**
   * Reading past an edge as dead never finds more live neighbours than
   * wrapping around it: every live `AssumeDead` read is a read of the same
   * in-grid cell under `Torodial`.
   */
  lemma {:induction false} AssumeDeadCountsNoMore(g: array2<bool>, x: int, y: int, k: nat)
    requires InGrid(g, x, y) && k <= 8
    ensures LiveAmong(g, AssumeDead, x, y, k) <= LiveAmong(g, Torodial, x, y, k)
  {
    if k > 0 {
      AssumeDeadCountsNoMore(g, x, y, k - 1);
    }
  }

  /**
   * Away from the edges the two policies agree: a cell whose whole
   * neighbourhood lies inside the grid has the same count under both.
   */
  lemma {:induction false} InteriorCountsAgree(g: array2<bool>, x: int, y: int, k: nat)
    requires 1 <= x < g.Length1 - 1 && 1 <= y < g.Length0 - 1 && k <= 8
    ensures LiveAmong(g, AssumeDead, x, y, k) == LiveAmong(g, Torodial, x, y, k)
  {
    if k > 0 {
      InteriorCountsAgree(g, x, y, k - 1);
    }
  }

  // ---------------------------------------------------------------------
  // The flip list

  /**
   * The flip marks of one generation, row by row: `marks[y][x]` says
   * whether the cell `(x, y)` qualifies.
   */
  ghost function Marks(g: array2<bool>, m: EdgeCaseMethod): (marks: seq<seq<bool>>)
    reads g
    ensures Rectangular(marks, g.Length0, g.Length1)
    ensures forall y, x :: 0 <= y < g.Length0 && 0 <= x < g.Length1 ==>
              marks[y][x] == Qualifies(g, m, x, y)
  {
    seq(g.Length0, y requires 0 <= y < g.Length0 reads g =>
      seq(g.Length1, x requires 0 <= x < g.Length1 reads g => Qualifies(g, m, x, y)))
  }

  /**
   * The flip test of `step` agrees with the rule: a cell is marked exactly
   * when its next value differs from its current one.
   */
  lemma MarksAreRuleChanges(g: array2<bool>, m: EdgeCaseMethod)
    ensures forall y, x :: 0 <= y < g.Length0 && 0 <= x < g.Length1 ==>
              (Marks(g, m)[y][x] <==> NextCell(g, m, x, y) != g[y, x])
  {
  }

  /** `marks` has `rows` rows of `cols` entries each. */
  predicate Rectangular(marks: seq<seq<bool>>, rows: nat, cols: nat) {
    |marks| == rows && forall y :: 0 <= y < rows ==> |marks[y]| == cols
  }

  /** `a` comes before `b` in the row-major scan of `Step` (`(x, y)` pairs). */
  predicate ScanBefore(a: (nat, nat), b: (nat, nat)) {
    a.1 < b.1 || (a.1 == b.1 && a.0 < b.0)
  }

  /** `s` lists pairs in strictly increasing scan order (so without repeats). */
  predicate InScanOrder(s: seq<(nat, nat)>) {
    forall i, j :: 0 <= i < j < |s| ==> ScanBefore(s[i], s[j])
  }

  /**
   * The marked cells the row-major scan has met when it reaches column `x`
   * of row `y`, in the order it met them. The end of the scan is row
   * `|marks|`, column 0.
   */
  function ScanFlips(marks: seq<seq<bool>>, cols: nat, y: nat, x: nat): seq<(nat, nat)>
    requires Rectangular(marks, |marks|, cols) && y <= |marks| && x <= cols
    requires y == |marks| ==> x == 0
    decreases y, x
  {
    if x > 0 then ScanFlips(marks, cols, y, x - 1) + (if marks[y][x - 1] then [(x - 1, y)] else [])
    else if y > 0 then ScanFlips(marks, cols, y - 1, cols)
    else []
  }

  /** Two lists in scan order, all of the first before all of the second, make one. */
  lemma ConcatInScanOrder(a: seq<(nat, nat)>, b: seq<(nat, nat)>)
    requires InScanOrder(a) && InScanOrder(b)
    requires forall i, j :: 0 <= i < |a| && 0 <= j < |b| ==> ScanBefore(a[i], b[j])
    ensures InScanOrder(a + b)
  {
    forall i, j | 0 <= i < j < |a + b| ensures ScanBefore((a + b)[i], (a + b)[j]) {
      if j < |a| {
        assert (a + b)[i] == a[i] && (a + b)[j] == a[j];
      } else if i < |a| {
        assert (a + b)[i] == a[i] && (a + b)[j] == b[j - |a|];
      } else {
        assert (a + b)[i] == b[i - |a|] && (a + b)[j] == b[j - |a|];
      }
    }
  }

  /** The scan up to `(x, y)` has met exactly the marked cells before `(x, y)`. */
  lemma {:induction false} ScanFlipsMembers(marks: seq<seq<bool>>, cols: nat, y: nat, x: nat)
    requires Rectangular(marks, |marks|, cols) && y <= |marks| && x <= cols
    requires y == |marks| ==> x == 0
    ensures forall p :: p in ScanFlips(marks, cols, y, x) <==>
              p.0 < cols && ScanBefore(p, (x, y)) && marks[p.1][p.0]
    decreases y, x
  {
    if x > 0 {
      ScanFlipsMembers(marks, cols, y, x - 1);
    } else if y > 0 {
      ScanFlipsMembers(marks, cols, y - 1, cols);
    }
  }

  /** The scan meets cells in scan order, so it never lists one twice. */
  lemma {:induction false} ScanFlipsOrdered(marks: seq<seq<bool>>, cols: nat, y: nat, x: nat)
    requires Rectangular(marks, |marks|, cols) && y <= |marks| && x <= cols
    requires y == |marks| ==> x == 0
    ensures InScanOrder(ScanFlips(marks, cols, y, x))
    decreases y, x
  {
    if x > 0 {
      ScanFlipsOrdered(marks, cols, y, x - 1);
      ScanFlipsMembers(marks, cols, y, x - 1);
      var before := ScanFlips(marks, cols, y, x - 1);
      var last := if marks[y][x - 1] then [(x - 1, y)] else [];
      forall i, j | 0 <= i < |before| && 0 <= j < |last| ensures ScanBefore(before[i], last[j]) {
        assert before[i] in before;
      }
      ConcatInScanOrder(before, last);
    } else if y > 0 {
      ScanFlipsOrdered(marks, cols, y - 1, cols);
    }
  }

  /**
   * The whole scan lists exactly the marked cells, each once: the flip
   * list never names a cell twice, so toggling it is well defined.
   */
  lemma FlipListExact(marks: seq<seq<bool>>, rows: nat, cols: nat)
    requires Rectangular(marks, rows, cols)
    ensures forall p :: p in ScanFlips(marks, cols, rows, 0) <==>
              p.1 < rows && p.0 < cols && marks[p.1][p.0]
    ensures var flips := ScanFlips(marks, cols, rows, 0);
            forall i, j :: 0 <= i < j < |flips| ==> flips[i] != flips[j]
  {
    var flips := ScanFlips(marks, cols, rows, 0);
    ScanFlipsMembers(marks, cols, rows, 0);
    ScanFlipsOrdered(marks, cols, rows, 0);
    forall i, j | 0 <= i < j < |flips| ensures flips[i] != flips[j] {
      assert ScanBefore(flips[i], flips[j]);
    }
  }

  /**
   * The first phase of a step: scan the grid row by row and collect the
   * cells whose value the rule changes, each once, in scan order. Nothing
   * is written. `marks` is the generation's flip marks, for the contract.
   */
  method CollectFlips(g: array2<bool>, m: EdgeCaseMethod, ghost marks: seq<seq<bool>>)
    returns (flips: seq<(nat, nat)>)
    requires marks == Marks(g, m)
    ensures flips == ScanFlips(marks, g.Length1, g.Length0, 0)
    ensures forall p :: p in flips <==> p.1 < g.Length0 && p.0 < g.Length1 && marks[p.1][p.0]
    ensures forall i, j :: 0 <= i < j < |flips| ==> flips[i] != flips[j]
  {
    flips := [];
    for y := 0 to g.Length0
      invariant flips == ScanFlips(marks, g.Length1, y, 0)
    {
      for x := 0 to g.Length1
        invariant flips == ScanFlips(marks, g.Length1, y, x)
      {
        var liveNeighbours := LiveNeighbours(g, m, x, y);
        if g[y, x] {
          if !(2 <= liveNeighbours <= 3) {
            flips := flips + [(x, y)];
          }
        } else if liveNeighbours == 3 {
          flips := flips + [(x, y)];
        }
      }
    }
    FlipListExact(marks, g.Length0, g.Length1);
  }

  /**
   * The second phase of a step: toggle every listed cell. The list holds
   * each marked cell exactly once and nothing else, so the marked cells end
   * up inverted and every other cell keeps its value.
   */
  method ToggleAll(g: array2<bool>, flips: seq<(nat, nat)>, ghost marks: seq<seq<bool>>)
    modifies g
    requires Rectangular(marks, g.Length0, g.Length1)
    requires forall p :: p in flips <==> p.1 < g.Length0 && p.0 < g.Length1 && marks[p.1][p.0]
    requires forall i, j :: 0 <= i < j < |flips| ==> flips[i] != flips[j]
    ensures forall y, x {:trigger g[y, x]} :: 0 <= y < g.Length0 && 0 <= x < g.Length1 ==>
              g[y, x] == (old(g[y, x]) != marks[y][x])
  {
    for i := 0 to |flips|
      invariant forall y, x :: 0 <= y < g.Length0 && 0 <= x < g.Length1 ==>
                  g[y, x] == (old(g[y, x]) != ((x, y) in flips[..i]))
    {
      var (x, y) := flips[i];
      assert flips[..i + 1] == flips[..i] + [(x, y)];
      assert (x, y) !in flips[..i] by {
        forall j | 0 <= j < i ensures flips[..i][j] != (x, y) {
          assert flips[j] != flips[i];
        }
      }
      g[y, x] := !g[y, x];
    }
    assert flips[..|flips|] == flips;
  }

  // ---------------------------------------------------------------------
  // The step

  /**
   * Advance `g` by one generation in place. Every flip is collected before
   * any cell is written, so every cell of the new generation is the rule
   * applied to the previous one. The result says whether any cell changed;
   * when none qualifies the grid is left as it was.
   */
  method Step(g: array2<bool>, m: EdgeCaseMethod) returns (changed: bool)
    modifies g
    ensures forall y, x {:trigger g[y, x]} :: 0 <= y < g.Length0 && 0 <= x < g.Length1 ==>
              g[y, x] == old(NextCell(g, m, x, y))
    ensures changed <==>
              exists y, x {:trigger g[y, x]} :: 0 <= y < g.Length0 && 0 <= x < g.Length1 && g[y, x] != old(g[y, x])
    ensures !changed ==> unchanged(g)
  {
    ghost var marks := Marks(g, m);
    MarksAreRuleChanges(g, m);
    var flips := CollectFlips(g, m, marks);
    if flips == [] {
      forall y, x | 0 <= y < g.Length0 && 0 <= x < g.Length1
        ensures !marks[y][x] && g[y, x] == old(NextCell(g, m, x, y))
      {
        assert (x, y) !in flips;
        assert g[y, x] == old(g[y, x]);
      }
      return false;
    }
    ToggleAll(g, flips, marks);
    var (x0, y0) := flips[0];
    assert flips[0] in flips;
    assert g[y0, x0] != old(g[y0, x0]);
    changed := true;
  }
}
