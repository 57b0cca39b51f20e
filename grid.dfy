/**
 * The puzzle grid: an N×N matrix of digits, 0 meaning "unknown", N = R·R,
 * and its three kinds of region (rows, columns, R×R boxes).
 * Everything here is a pure value-level specification; the engine's
 * arrays are tied to these values by the engine's invariant.
 */
module Grid {

  /** Box width (REGION_WIDTH). */
  const R: int := 3
  /** Grid size (PUZZLE_DEPTH); it never exceeds the 64-entry symbol table. */
  const N: int := R * R
  /** Size of the symbol table used to read and print digits (TABLEMAPSIZE). */
  const TableMapSize: int := 64

  /** A cell coordinate: column x, row y, as in last_found_square. */
  datatype Square = Square(x: int, y: int)

  predicate OnBoard(s: Square) {
    0 <= s.x < N && 0 <= s.y < N
  }

  /** The grid as a value, indexed g[y][x] like puzzle[y][x]. */
  type Board = seq<seq<int>>

  predicate IsBoard(g: Board) {
    |g| == N && forall y :: 0 <= y < N ==> |g[y]| == N
  }

  /** Every cell holds 0 (unknown) or a digit 1..N. */
  predicate HoldsDigits(g: Board)
    requires IsBoard(g)
  {
    forall y, x :: 0 <= y < N && 0 <= x < N ==> 0 <= g[y][x] <= N
  }

  function At(g: Board, s: Square): int
    requires IsBoard(g) && OnBoard(s)
  {
    g[s.y][s.x]
  }

  /** The grid with cell (x, y) set to v and nothing else changed. */
  function Place(g: Board, x: int, y: int, v: int): (g': Board)
    requires IsBoard(g) && 0 <= x < N && 0 <= y < N
    ensures IsBoard(g')
    ensures g'[y][x] == v
    ensures forall y', x' :: 0 <= y' < N && 0 <= x' < N && (y', x') != (y, x) ==> g'[y'][x'] == g[y'][x']
  {
    g[y := g[y][x := v]]
  }

  /** Writing a cell and then writing back its old value restores the grid. */
  lemma PlaceRestore(g: Board, x: int, y: int, t: int)
    requires IsBoard(g) && 0 <= x < N && 0 <= y < N
    ensures Place(Place(g, x, y, t), x, y, g[y][x]) == g
  {
    assert g[y][x := t][x := g[y][x]] == g[y];
  }

  // ---------------------------------------------------------------------------
  // Regions

  /** A row y, a column x, or the R×R box whose upper-left cell is (ox, oy). */
  datatype Region = Row(y: int) | Column(x: int) | Box(ox: int, oy: int)

  predicate IsRegion(r: Region) {
    match r
    case Row(y) => 0 <= y < N
    case Column(x) => 0 <= x < N
    case Box(ox, oy) => 0 <= ox <= N - R && 0 <= oy <= N - R
  }

  /**
   * The cells of a region in the order the source visits them: a row left to
   * right, a column top to bottom, a box row by row (outer loop over the box
   * rows, inner loop over the box columns).
   */
  function Cells(r: Region): (cs: seq<Square>)
    requires IsRegion(r)
    ensures |cs| == N
    ensures forall k :: 0 <= k < N ==> OnBoard(cs[k])
  {
    match r
    case Row(y) => seq(N, k => Square(k, y))
    case Column(x) => seq(N, k => Square(x, k))
    case Box(ox, oy) => seq(N, k => Square(ox + k % R, oy + k / R))
  }

  /** The origin R·(b mod R) that box_uniquity_test derives from a box index b lies on the board. */
  lemma BoxOrigin(b: int)
    requires 0 <= b
    ensures 0 <= R * (b % R) <= N - R
  {
    assert b % R <= R - 1;
    assert R * (b % R) <= R * (R - 1);
  }

  /** Cell j of box row i of a box is at (ox + j, oy + i). */
  lemma BoxCell(ox: int, oy: int, i: int, j: int)
    requires IsRegion(Box(ox, oy)) && 0 <= i < R && 0 <= j < R
    ensures 0 <= i * R + j < N && Cells(Box(ox, oy))[i * R + j] == Square(ox + j, oy + i)
  {
    var k := i * R + j;
    assert k % R == j && k / R == i;
  }

  /** The box containing (x, y): its origin is (x - x % R, y - y % R). */
  function BoxOf(x: int, y: int): (r: Region)
    requires 0 <= x < N && 0 <= y < N
    ensures IsRegion(r) && r.Box?
    ensures r.ox <= x < r.ox + R && r.oy <= y < r.oy + R
  {
    Box(x - x % R, y - y % R)
  }

  predicate AllOnBoard(cs: seq<Square>) {
    forall k :: 0 <= k < |cs| ==> OnBoard(cs[k])
  }

  /** The number of listed cells holding d (the source's counts[d - 1]). */
  function Occ(g: Board, cs: seq<Square>, d: int): nat
    requires IsBoard(g) && AllOnBoard(cs)
    decreases |cs|
  {
    if cs == [] then 0
    else Occ(g, cs[..|cs| - 1], d) + (if At(g, cs[|cs| - 1]) == d then 1 else 0)
  }

  /**
   * No digit 1..N is counted more than once among the listed cells: the
   * test horizontal_test, vertical_test and sub_grid_test make.
   */
  predicate NoRepeat(g: Board, cs: seq<Square>)
    requires IsBoard(g) && AllOnBoard(cs)
  {
    forall d :: 1 <= d <= N ==> Occ(g, cs, d) <= 1
  }

  /** No two different listed cells hold the same non-zero digit. */
  predicate Distinct(g: Board, cs: seq<Square>)
    requires IsBoard(g) && AllOnBoard(cs)
  {
    forall a, b :: 0 <= a < |cs| && 0 <= b < |cs| && a != b && At(g, cs[a]) != 0 ==> At(g, cs[a]) != At(g, cs[b])
  }

  /** Counting one more listed cell. */
  lemma OccSnoc(g: Board, cs: seq<Square>, k: int)
    requires IsBoard(g) && AllOnBoard(cs) && 0 <= k < |cs|
    ensures forall d :: Occ(g, cs[..k + 1], d) == Occ(g, cs[..k], d) + (if At(g, cs[k]) == d then 1 else 0)
  {
    assert cs[..k + 1][..k] == cs[..k];
  }

  lemma {:induction false} OccPositive(g: Board, cs: seq<Square>, d: int)
    requires IsBoard(g) && AllOnBoard(cs)
    ensures Occ(g, cs, d) > 0 <==> exists k :: 0 <= k < |cs| && At(g, cs[k]) == d
  {
    if cs != [] {
      var p := cs[..|cs| - 1];
      OccPositive(g, p, d);
      if Occ(g, p, d) > 0 {
        var k :| 0 <= k < |p| && At(g, p[k]) == d;
        assert cs[k] == p[k];
      }
      if exists k :: 0 <= k < |cs| && At(g, cs[k]) == d {
        var k :| 0 <= k < |cs| && At(g, cs[k]) == d;
        if k < |p| { assert p[k] == cs[k]; }
      }
    }
  }

  lemma {:induction false} OccTwo(g: Board, cs: seq<Square>, a: int, b: int)
    requires IsBoard(g) && AllOnBoard(cs)
    requires 0 <= a < b < |cs| && At(g, cs[a]) == At(g, cs[b])
    ensures Occ(g, cs, At(g, cs[a])) >= 2
  {
    var d := At(g, cs[a]);
    var p := cs[..|cs| - 1];
    if b == |cs| - 1 {
      assert p[a] == cs[a];
      OccPositive(g, p, d);
    } else {
      assert p[a] == cs[a] && p[b] == cs[b];
      OccTwo(g, p, a, b);
    }
  }

  /**
   * On a grid of digits, the counting test (no digit counted more than once)
   * means exactly that no two cells repeat a digit.
   */
  lemma {:induction false} NoRepeatIsDistinct(g: Board, cs: seq<Square>)
    requires IsBoard(g) && AllOnBoard(cs)
    ensures Distinct(g, cs) ==> NoRepeat(g, cs)
    ensures HoldsDigits(g) ==> (NoRepeat(g, cs) ==> Distinct(g, cs))
  {
    if HoldsDigits(g) && NoRepeat(g, cs) {
      forall a, b | 0 <= a < |cs| && 0 <= b < |cs| && a != b && At(g, cs[a]) != 0
        ensures At(g, cs[a]) != At(g, cs[b])
      {
        if At(g, cs[a]) == At(g, cs[b]) {
          if a < b { OccTwo(g, cs, a, b); } else { OccTwo(g, cs, b, a); }
        }
      }
    }
    if Distinct(g, cs) {
      DistinctBoundsOcc(g, cs);
    }
  }

  lemma {:induction false} DistinctBoundsOcc(g: Board, cs: seq<Square>)
    requires IsBoard(g) && AllOnBoard(cs) && Distinct(g, cs)
    ensures NoRepeat(g, cs)
  {
    if cs != [] {
      var p := cs[..|cs| - 1];
      var last := |cs| - 1;
      assert Distinct(g, p) by {
        forall a, b | 0 <= a < |p| && 0 <= b < |p| && a != b && At(g, p[a]) != 0
          ensures At(g, p[a]) != At(g, p[b])
        {
          assert p[a] == cs[a] && p[b] == cs[b];
        }
      }
      DistinctBoundsOcc(g, p);
      forall d | 1 <= d <= N ensures Occ(g, cs, d) <= 1 {
        if At(g, cs[last]) == d {
          OccPositive(g, p, d);
          forall k | 0 <= k < |p| ensures At(g, p[k]) != d {
            assert cs[k] == p[k];
          }
        }
      }
    }
  }

  /** Counts depend only on the digits in the listed cells. */
  lemma {:induction false} OccSame(g: Board, g': Board, cs: seq<Square>, d: int)
    requires IsBoard(g) && IsBoard(g') && AllOnBoard(cs)
    requires forall k :: 0 <= k < |cs| ==> At(g', cs[k]) == At(g, cs[k])
    ensures Occ(g', cs, d) == Occ(g, cs, d)
  {
    if cs != [] {
      var p := cs[..|cs| - 1];
      assert forall k :: 0 <= k < |p| ==> p[k] == cs[k];
      OccSame(g, g', p, d);
    }
  }

  /** A region that holds no digit repeats none. */
  lemma EmptyNoRepeat(g: Board, cs: seq<Square>)
    requires IsBoard(g) && AllOnBoard(cs) && forall k :: 0 <= k < |cs| ==> At(g, cs[k]) == 0
    ensures NoRepeat(g, cs)
  {
    forall d | 1 <= d <= N ensures Occ(g, cs, d) == 0 {
      OccPositive(g, cs, d);
    }
  }

  // ---------------------------------------------------------------------------
  // Unknown cells

  /** Number of zeros in a row. */
  function Zeros(s: seq<int>): nat
    decreases |s|
  {
    if s == [] then 0 else Zeros(s[..|s| - 1]) + (if s[|s| - 1] == 0 then 1 else 0)
  }

  /** Number of unknown cells (count_unknown_squares). */
  function Unknowns(g: seq<seq<int>>): nat
    decreases |g|
  {
    if g == [] then 0 else Unknowns(g[..|g| - 1]) + Zeros(g[|g| - 1])
  }

  /** Some cell is still unknown (unsolved_Sudoku). */
  predicate HasUnknown(g: Board)
    requires IsBoard(g)
  {
    exists y, x :: 0 <= y < N && 0 <= x < N && g[y][x] == 0
  }

  lemma {:induction false} ZerosPositive(s: seq<int>)
    ensures Zeros(s) > 0 <==> exists x :: 0 <= x < |s| && s[x] == 0
  {
    if s != [] {
      var p := s[..|s| - 1];
      ZerosPositive(p);
      if Zeros(p) > 0 {
        var x :| 0 <= x < |p| && p[x] == 0;
        assert s[x] == 0;
      }
      if exists x :: 0 <= x < |s| && s[x] == 0 {
        var x :| 0 <= x < |s| && s[x] == 0;
        if x < |p| { assert p[x] == 0; }
      }
    }
  }

  lemma {:induction false} UnknownsPositiveRows(g: seq<seq<int>>)
    ensures Unknowns(g) > 0 <==> exists y :: 0 <= y < |g| && Zeros(g[y]) > 0
  {
    if g != [] {
      var p := g[..|g| - 1];
      UnknownsPositiveRows(p);
      if Unknowns(p) > 0 {
        var y :| 0 <= y < |p| && Zeros(p[y]) > 0;
        assert g[y] == p[y];
      }
      if exists y :: 0 <= y < |g| && Zeros(g[y]) > 0 {
        var y :| 0 <= y < |g| && Zeros(g[y]) > 0;
        if y < |p| { assert p[y] == g[y]; }
      }
    }
  }

  /** unsolved_Sudoku() is 1 exactly when count_unknown_squares() is positive. */
  lemma UnknownsPositive(g: Board)
    requires IsBoard(g)
    ensures Unknowns(g) > 0 <==> HasUnknown(g)
  {
    UnknownsPositiveRows(g);
    if Unknowns(g) > 0 {
      var y :| 0 <= y < N && Zeros(g[y]) > 0;
      ZerosPositive(g[y]);
    }
    if HasUnknown(g) {
      var y, x :| 0 <= y < N && 0 <= x < N && g[y][x] == 0;
      ZerosPositive(g[y]);
    }
  }

  lemma {:induction false} ZerosUpdate(s: seq<int>, x: int, v: int)
    requires 0 <= x < |s|
    ensures Zeros(s[x := v]) == Zeros(s) - (if s[x] == 0 then 1 else 0) + (if v == 0 then 1 else 0)
  {
    var s' := s[x := v];
    if x < |s| - 1 {
      assert s'[..|s'| - 1] == s[..|s| - 1][x := v];
      ZerosUpdate(s[..|s| - 1], x, v);
    } else {
      assert s'[..|s'| - 1] == s[..|s| - 1];
    }
  }

  lemma {:induction false} UnknownsUpdate(g: seq<seq<int>>, y: int, row: seq<int>)
    requires 0 <= y < |g|
    ensures Unknowns(g[y := row]) == Unknowns(g) - Zeros(g[y]) + Zeros(row)
  {
    var g' := g[y := row];
    if y < |g| - 1 {
      assert g'[..|g'| - 1] == g[..|g| - 1][y := row];
      UnknownsUpdate(g[..|g| - 1], y, row);
    } else {
      assert g'[..|g'| - 1] == g[..|g| - 1];
    }
  }

  /** Filling one unknown cell lowers the number of unknown cells by exactly one. */
  lemma PlaceFillsOne(g: Board, x: int, y: int, v: int)
    requires IsBoard(g) && 0 <= x < N && 0 <= y < N
    requires g[y][x] == 0 && v != 0
    ensures Unknowns(Place(g, x, y, v)) == Unknowns(g) - 1
  {
    ZerosUpdate(g[y], x, v);
    UnknownsUpdate(g, y, g[y][x := v]);
  }

  /** g1 keeps every filled cell of g0: only unknown cells may have been filled. */
  predicate Extends(g0: Board, g1: Board)
    requires IsBoard(g0) && IsBoard(g1)
  {
    forall y, x :: 0 <= y < N && 0 <= x < N && g0[y][x] != 0 ==> g1[y][x] == g0[y][x]
  }

  // ---------------------------------------------------------------------------
  // Whole-grid validation

  /** Rows and columns are repeat-free (the part whose failure makes is_valid_Sudoku return 0). */
  predicate LinesOk(g: Board)
    requires IsBoard(g)
  {
    (forall y :: 0 <= y < N ==> NoRepeat(g, Cells(Row(y)))) &&
    (forall x :: 0 <= x < N ==> NoRepeat(g, Cells(Column(x))))
  }

  /** The box of every filled cell is repeat-free (the test whose failure gives -1). */
  predicate FilledBoxesOk(g: Board)
    requires IsBoard(g)
  {
    forall y, x :: 0 <= y < N && 0 <= x < N && g[y][x] != 0 ==> NoRepeat(g, Cells(BoxOf(x, y)))
  }

  /** All R·R boxes, (boxX, boxY) with origin (R·boxX, R·boxY), are repeat-free. */
  predicate AllBoxesOk(g: Board)
    requires IsBoard(g)
  {
    forall boxY, boxX :: 0 <= boxY < R && 0 <= boxX < R ==> NoRepeat(g, Cells(Box(R * boxX, R * boxY)))
  }

  lemma BoxOfOrigin(x: int, y: int)
    requires 0 <= x < N && 0 <= y < N
    ensures BoxOf(x, y) == Box(R * (x / R), R * (y / R))
  {
  }

  /** A box with a filled cell is checked by the filled-cell test, so a repeat in it is caught. */
  lemma FilledBoxOk(g: Board, boxX: int, boxY: int)
    requires IsBoard(g) && FilledBoxesOk(g) && 0 <= boxY < R && 0 <= boxX < R
    ensures NoRepeat(g, Cells(Box(R * boxX, R * boxY)))
  {
    var cs := Cells(Box(R * boxX, R * boxY));
    if a :| 0 <= a < N && At(g, cs[a]) != 0 {
      var s := cs[a];
      assert s == Square(R * boxX + a % R, R * boxY + a / R);
      assert s.x / R == boxX && s.y / R == boxY;
      BoxOfOrigin(s.x, s.y);
    } else {
      EmptyNoRepeat(g, cs);
    }
  }

  /** The box of a filled cell is one of the R·R boxes. */
  lemma FilledBoxIsABox(g: Board, x: int, y: int)
    requires IsBoard(g) && AllBoxesOk(g) && 0 <= y < N && 0 <= x < N
    ensures NoRepeat(g, Cells(BoxOf(x, y)))
  {
    BoxOfOrigin(x, y);
    var boxX, boxY := x / R, y / R;
    assert 0 <= boxX < R && 0 <= boxY < R;
    assert NoRepeat(g, Cells(Box(R * boxX, R * boxY)));
  }

  /**
   * Checking only the boxes of filled cells, as is_valid_Sudoku does, is the
   * same as checking every box: a box with a repeat holds a filled cell.
   */
  lemma FilledBoxesCoverAll(g: Board)
    requires IsBoard(g)
    ensures FilledBoxesOk(g) <==> AllBoxesOk(g)
  {
    if AllBoxesOk(g) {
      forall y, x | 0 <= y < N && 0 <= x < N && g[y][x] != 0
        ensures NoRepeat(g, Cells(BoxOf(x, y)))
      {
        FilledBoxIsABox(g, x, y);
      }
    }
    if FilledBoxesOk(g) {
      forall boxY, boxX | 0 <= boxY < R && 0 <= boxX < R
        ensures NoRepeat(g, Cells(Box(R * boxX, R * boxY)))
      {
        FilledBoxOk(g, boxX, boxY);
      }
    }
  }
}
