/**
 * The solving engine: the global puzzle and possibilities arrays, the
 * desperate flag, the error factor and last_found_square, with the
 * operations of sudoku.h (Current) and sudoku/sudoku.h (Legacy) as methods
 * that update them in place. Each method is proved against the pure
 * definitions of modules Grid, Candidates and Deduction through the ghost
 * mirrors grid and cand.
 */
module Engine {
  import opened Grid
  import opened Candidates
  import opened Deduction

  /** The outcome of extract_possibility: the first surviving digit, or the error_freeze stop. */
  datatype Extracted = Found(value: int) | Frozen

  /** Per-digit counts of a region decide whether it repeats a digit. */
  lemma CountsMatch(g: Board, cs: seq<Square>, counts: seq<int>)
    requires IsBoard(g) && AllOnBoard(cs) && |counts| == N
    requires forall i :: 0 <= i < N ==> counts[i] == Occ(g, cs, i + 1)
    ensures (forall i :: 0 <= i < N ==> counts[i] <= 1) <==> NoRepeat(g, cs)
  {
    assert forall d :: 1 <= d <= N ==> Occ(g, cs, d) == counts[d - 1];
  }

  class Engine {
    /** Which version of the header this engine runs. */
    const variant: Variant
    /** puzzle[y, x]: 0 for an unknown cell, else its digit. */
    const puzzle: array2<int>
    /** possibilities[y, x, i]: 0 if digit i + 1 is ruled out for (x, y), else i + 1. */
    const possibilities: array3<int>
    var desperate: int
    var errorFactor: int
    /** last_found_square as (x, y); (-1, -1) before anything has been found. */
    var lastFound: Square
    ghost var grid: Board
    ghost var cand: Slots

    /** The arrays have the header's dimensions and hold exactly the ghost board and table. */
    ghost predicate Mirrors()
      reads this, puzzle, possibilities
    {
      && puzzle.Length0 == N && puzzle.Length1 == N
      && possibilities.Length0 == N && possibilities.Length1 == N && possibilities.Length2 == N
      && IsBoard(grid) && IsSlots(cand)
      && (forall y, x :: 0 <= y < N && 0 <= x < N ==> puzzle[y, x] == grid[y][x])
      && (forall y, x, i :: 0 <= y < N && 0 <= x < N && 0 <= i < N ==> possibilities[y, x, i] == cand[y][x][i])
    }

    /** The engine invariant kept by every operation. */
    ghost predicate Valid()
      reads this, puzzle, possibilities
    {
      Mirrors() && HoldsDigits(grid) && SlotForm(cand) && (desperate == 0 || desperate == 1)
    }

    /** The zero-initialised globals of the header, with last_found_square at (-1, -1). */
    constructor (v: Variant)
      ensures Valid() && fresh(puzzle) && fresh(possibilities)
      ensures variant == v && desperate == 0 && errorFactor == 0 && lastFound == Square(-1, -1)
      ensures forall y, x :: 0 <= y < N && 0 <= x < N ==> grid[y][x] == 0
    {
      variant := v;
      puzzle := new int[N, N]((_, _) => 0);
      possibilities := new int[N, N, N]((_, _, _) => 0);
      desperate := 0;
      errorFactor := 0;
      lastFound := Square(-1, -1);
      grid := seq(N, _ => seq(N, _ => 0));
      cand := seq(N, _ => seq(N, _ => seq(N, _ => 0)));
    }

    // -------------------------------------------------------------------------
    // Region checks (horizontal_test, vertical_test, sub_grid_test)

    /** The final loop of the region checks: 1 unless some digit was counted more than once. */
    static method CountsVerdict(counts: array<int>) returns (pass: int)
      requires counts.Length == N
      ensures pass == 0 || pass == 1
      ensures pass == 1 <==> forall i :: 0 <= i < N ==> counts[i] <= 1
    {
      var i := 0;
      while i < N
        invariant 0 <= i <= N
        invariant forall j :: 0 <= j < i ==> counts[j] <= 1
      {
        if counts[i] > 1 {
          return 0;
        }
        i := i + 1;
      }
      return 1;
    }

    /**
     * The loop body shared by the three region tests: the digit of cell
     * (px, py), at position k of cs, adds one to its count.
     */
    method CountDigit(counts: array<int>, ghost cs: seq<Square>, ghost k: int, px: int, py: int)
      requires Valid() && AllOnBoard(cs) && 0 <= k < |cs| && cs[k] == Square(px, py)
      requires counts.Length == N && forall d :: 0 <= d < N ==> counts[d] == Occ(grid, cs[..k], d + 1)
      modifies counts
      ensures forall d :: 0 <= d < N ==> counts[d] == Occ(grid, cs[..k + 1], d + 1)
    {
      OccSnoc(grid, cs, k);
      if puzzle[py, px] != 0 {
        counts[puzzle[py, px] - 1] := counts[puzzle[py, px] - 1] + 1;
      }
    }

    /** horizontal_test: 1 exactly when no digit occurs twice in row y. */
    method HorizontalTest(y: int) returns (pass: int)
      requires Valid() && 0 <= y < N
      ensures pass == 0 || pass == 1
      ensures pass == 1 <==> NoRepeat(grid, Cells(Row(y)))
    {
      ghost var cs := Cells(Row(y));
      var counts := new int[N](_ => 0);
      var x := 0;
      while x < N
        invariant 0 <= x <= N
        invariant forall i :: 0 <= i < N ==> counts[i] == Occ(grid, cs[..x], i + 1)
      {
        CountDigit(counts, cs, x, x, y);
        x := x + 1;
      }
      assert cs[..N] == cs;
      pass := CountsVerdict(counts);
      CountsMatch(grid, cs, counts[..]);
    }

    /** vertical_test: 1 exactly when no digit occurs twice in column x. */
    method VerticalTest(x: int) returns (pass: int)
      requires Valid() && 0 <= x < N
      ensures pass == 0 || pass == 1
      ensures pass == 1 <==> NoRepeat(grid, Cells(Column(x)))
    {
      ghost var cs := Cells(Column(x));
      var counts := new int[N](_ => 0);
      var y := 0;
      while y < N
        invariant 0 <= y <= N
        invariant forall i :: 0 <= i < N ==> counts[i] == Occ(grid, cs[..y], i + 1)
      {
        CountDigit(counts, cs, y, x, y);
        y := y + 1;
      }
      assert cs[..N] == cs;
      pass := CountsVerdict(counts);
      CountsMatch(grid, cs, counts[..]);
    }

    /** The inner loop of sub_grid_test: counting the digits of box row i of the box at (ox, oy). */
    method CountBoxRow(counts: array<int>, ghost cs: seq<Square>, ox: int, oy: int, i: int)
      requires Valid() && IsRegion(Box(ox, oy)) && cs == Cells(Box(ox, oy)) && 0 <= i < R
      requires counts.Length == N && forall d :: 0 <= d < N ==> counts[d] == Occ(grid, cs[..i * R], d + 1)
      modifies counts
      ensures forall d :: 0 <= d < N ==> counts[d] == Occ(grid, cs[..(i + 1) * R], d + 1)
    {
      var j := 0;
      while j < R
        invariant 0 <= j <= R
        invariant forall d :: 0 <= d < N ==> counts[d] == Occ(grid, cs[..i * R + j], d + 1)
      {
        BoxCell(ox, oy, i, j);
        CountDigit(counts, cs, i * R + j, ox + j, oy + i);
        j := j + 1;
      }
      assert (i + 1) * R == i * R + R;
    }

    /** sub_grid_test: 1 exactly when no digit occurs twice in the box holding (x, y). */
    method SubGridTest(x: int, y: int) returns (pass: int)
      requires Valid() && 0 <= x < N && 0 <= y < N
      ensures pass == 0 || pass == 1
      ensures pass == 1 <==> NoRepeat(grid, Cells(BoxOf(x, y)))
    {
      var ox, oy := x - x % R, y - y % R;
      ghost var cs := Cells(Box(ox, oy));
      assert cs == Cells(BoxOf(x, y));
      var counts := new int[N](_ => 0);
      var i := 0;
      while i < R
        invariant 0 <= i <= R
        invariant forall d :: 0 <= d < N ==> counts[d] == Occ(grid, cs[..i * R], d + 1)
      {
        CountBoxRow(counts, cs, ox, oy, i);
        i := i + 1;
      }
      assert cs[..N] == cs;
      pass := CountsVerdict(counts);
      CountsMatch(grid, cs, counts[..]);
    }

    // -------------------------------------------------------------------------
    // Whole-grid checks

    /**
     * is_valid_Sudoku: 0 when a row or column repeats a digit; otherwise -1
     * when a box does; otherwise 1. Only the boxes of filled cells are
     * tested, which covers every box.
     */
    method IsValidSudoku() returns (r: int)
      requires Valid()
      ensures r == 0 <==> !LinesOk(grid)
      ensures r == -1 <==> LinesOk(grid) && !AllBoxesOk(grid)
      ensures r == 1 <==> LinesOk(grid) && AllBoxesOk(grid)
    {
      var pass := RowsTest();
      if !pass {
        return 0;
      }
      pass := ColumnsTest();
      if !pass {
        return 0;
      }
      pass := FilledBoxesTest();
      FilledBoxesCoverAll(grid);
      if !pass {
        return -1;
      }
      return 1;
    }

    /** The first loop of is_valid_Sudoku: horizontal_test on every row, stopping at the first failure. */
    method RowsTest() returns (pass: bool)
      requires Valid()
      ensures pass <==> forall y :: 0 <= y < N ==> NoRepeat(grid, Cells(Row(y)))
    {
      var y := 0;
      while y < N
        invariant 0 <= y <= N
        invariant forall y' :: 0 <= y' < y ==> NoRepeat(grid, Cells(Row(y')))
      {
        var ok := HorizontalTest(y);
        if ok == 0 {
          return false;
        }
        y := y + 1;
      }
      return true;
    }

    /** The second loop of is_valid_Sudoku: vertical_test on every column, stopping at the first failure. */
    method ColumnsTest() returns (pass: bool)
      requires Valid()
      ensures pass <==> forall x :: 0 <= x < N ==> NoRepeat(grid, Cells(Column(x)))
    {
      var x := 0;
      while x < N
        invariant 0 <= x <= N
        invariant forall x' :: 0 <= x' < x ==> NoRepeat(grid, Cells(Column(x')))
      {
        var ok := VerticalTest(x);
        if ok == 0 {
          return false;
        }
        x := x + 1;
      }
      return true;
    }

    /** The box loop of is_valid_Sudoku: sub_grid_test on the box of every filled cell, row by row. */
    method FilledBoxesTest() returns (pass: bool)
      requires Valid()
      ensures pass <==> FilledBoxesOk(grid)
    {
      var y := 0;
      while y < N
        invariant 0 <= y <= N
        invariant forall y', x' :: 0 <= y' < y && 0 <= x' < N && grid[y'][x'] != 0 ==> NoRepeat(grid, Cells(BoxOf(x', y')))
      {
        var ok := FilledBoxesInRow(y);
        if !ok {
          return false;
        }
        y := y + 1;
      }
      return true;
    }

    /** One row of the box pass of is_valid_Sudoku: the box of every filled cell of row y is repeat-free. */
    method FilledBoxesInRow(y: int) returns (pass: bool)
      requires Valid() && 0 <= y < N
      ensures pass <==> forall x :: 0 <= x < N && grid[y][x] != 0 ==> NoRepeat(grid, Cells(BoxOf(x, y)))
    {
      var x := 0;
      while x < N
        invariant 0 <= x <= N
        invariant forall x' :: 0 <= x' < x && grid[y][x'] != 0 ==> NoRepeat(grid, Cells(BoxOf(x', y)))
      {
        if puzzle[y, x] != 0 {
          var ok := SubGridTest(x, y);
          if ok == 0 {
            return false;
          }
        }
        x := x + 1;
      }
      return true;
    }

    /** unsolved_Sudoku: 1 exactly when some cell is unknown. */
    method UnsolvedSudoku() returns (r: int)
      requires Valid()
      ensures r == 0 || r == 1
      ensures r == 1 <==> HasUnknown(grid)
    {
      var y := 0;
      while y < N
        invariant 0 <= y <= N
        invariant forall y', x' :: 0 <= y' < y && 0 <= x' < N ==> grid[y'][x'] != 0
      {
        var x := 0;
        while x < N
          invariant 0 <= x <= N
          invariant forall x' :: 0 <= x' < x ==> grid[y][x'] != 0
        {
          if puzzle[y, x] == 0 {
            return 1;
          }
          x := x + 1;
        }
        y := y + 1;
      }
      return 0;
    }

    /** count_unknown_squares: the number of unknown cells. */
    method CountUnknownSquares() returns (unsolved: int)
      requires Valid()
      ensures unsolved == Unknowns(grid)
    {
      unsolved := 0;
      var y := 0;
      while y < N
        invariant 0 <= y <= N
        invariant unsolved == Unknowns(grid[..y])
      {
        assert grid[..y + 1][..y] == grid[..y];
        var x := 0;
        while x < N
          invariant 0 <= x <= N
          invariant unsolved == Unknowns(grid[..y]) + Zeros(grid[y][..x])
        {
          assert grid[y][..x + 1][..x] == grid[y][..x];
          if puzzle[y, x] == 0 {
            unsolved := unsolved + 1;
          }
          x := x + 1;
        }
        assert grid[y][..N] == grid[y];
        y := y + 1;
      }
      assert grid[..N] == grid;
    }

    /**
     * extract_possibility: the digit in the first non-zero slot of (x, y);
     * the error_freeze stop exactly when every slot is 0.
     */
    method ExtractPossibility(x: int, y: int) returns (e: Extracted)
      requires Valid() && 0 <= x < N && 0 <= y < N
      ensures e.Frozen? <==> Options(cand[y][x]) == 0
      ensures e.Found? ==> FirstOption(cand[y][x], 0) < N && e.value == cand[y][x][FirstOption(cand[y][x], 0)]
      ensures e.Found? ==> e.value == FirstOption(cand[y][x], 0) + 1
    {
      OptionsNone(cand[y][x]);
      var i := 0;
      while i < N
        invariant 0 <= i <= N
        invariant forall j :: 0 <= j < i ==> cand[y][x][j] == 0
      {
        if possibilities[y, x, i] != 0 {
          assert FirstOption(cand[y][x], 0) == i;
          return Found(possibilities[y, x, i]);
        }
        i := i + 1;
      }
      return Frozen;
    }

    // -------------------------------------------------------------------------
    // Single writes, each keeping the ghost mirrors in step with the arrays

    /** puzzle[y][x] = v. */
    method WriteSquare(x: int, y: int, v: int)
      requires Valid() && 0 <= x < N && 0 <= y < N && 0 <= v <= N
      modifies this, puzzle
      ensures Valid() && grid == Place(old(grid), x, y, v) && cand == old(cand)
      ensures desperate == old(desperate) && errorFactor == old(errorFactor) && lastFound == old(lastFound)
    {
      puzzle[y, x] := v;
      grid := Place(grid, x, y, v);
    }

    /** possibilities[y][x][i] = 0. */
    method ClearSlot(x: int, y: int, i: int)
      requires Valid() && 0 <= x < N && 0 <= y < N && 0 <= i < N
      modifies this, possibilities
      ensures Valid() && grid == old(grid) && cand == SetCell(old(cand), x, y, old(cand)[y][x][i := 0])
      ensures desperate == old(desperate) && errorFactor == old(errorFactor) && lastFound == old(lastFound)
    {
      possibilities[y, x, i] := 0;
      cand := SetCell(cand, x, y, cand[y][x][i := 0]);
    }

    // -------------------------------------------------------------------------
    // Candidate table

    /** possibilities[y][x][i] = i + 1 for every i: the first loop nest of initialize_possibilities, on one cell. */
    method MarkAllPossible(x: int, y: int)
      requires possibilities.Length0 == N && possibilities.Length1 == N && possibilities.Length2 == N
      requires 0 <= x < N && 0 <= y < N
      modifies possibilities
      ensures forall i :: 0 <= i < N ==> possibilities[y, x, i] == i + 1
      ensures forall y', x', i :: 0 <= y' < N && 0 <= x' < N && 0 <= i < N && (y', x') != (y, x) ==>
                possibilities[y', x', i] == old(possibilities[y', x', i])
    {
      var i := 0;
      while i < N
        invariant 0 <= i <= N
        invariant forall i' :: 0 <= i' < i ==> possibilities[y, x, i'] == i' + 1
        invariant forall y', x', i :: 0 <= y' < N && 0 <= x' < N && 0 <= i < N && (y', x') != (y, x) ==>
                    possibilities[y', x', i] == old(possibilities[y', x', i])
      {
        possibilities[y, x, i] := i + 1;
        i := i + 1;
      }
    }

    /**
     * Cell (x, y) keeps only slot v - 1, holding v: the zeroing loop followed
     * by the single write that initialize_possibilities applies to a given
     * cell and every commit applies to the cell it fills.
     */
    method CollapseSlots(x: int, y: int, v: int)
      requires possibilities.Length0 == N && possibilities.Length1 == N && possibilities.Length2 == N
      requires 0 <= x < N && 0 <= y < N && 1 <= v <= N
      modifies possibilities
      ensures forall i :: 0 <= i < N ==> possibilities[y, x, i] == Singleton(v)[i]
      ensures forall y', x', i :: 0 <= y' < N && 0 <= x' < N && 0 <= i < N && (y', x') != (y, x) ==>
                possibilities[y', x', i] == old(possibilities[y', x', i])
    {
      var i := 0;
      while i < N
        invariant 0 <= i <= N
        invariant forall i' :: 0 <= i' < i ==> possibilities[y, x, i'] == 0
        invariant forall y', x', i :: 0 <= y' < N && 0 <= x' < N && 0 <= i < N && (y', x') != (y, x) ==>
                    possibilities[y', x', i] == old(possibilities[y', x', i])
      {
        possibilities[y, x, i] := 0;
        i := i + 1;
      }
      possibilities[y, x, v - 1] := v;
    }

    /**
     * initialize_possibilities: every slot i becomes i + 1, then each given
     * cell keeps only the slot of its own value.
     */
    method InitializePossibilities()
      requires Valid()
      modifies this, possibilities
      ensures Valid() && grid == old(grid) && cand == InitialSlots(grid)
      ensures desperate == old(desperate) && errorFactor == old(errorFactor) && lastFound == old(lastFound)
    {
      var y := 0;
      while y < N
        invariant 0 <= y <= N && unchanged(this)
        invariant forall y', x', i :: 0 <= y' < y && 0 <= x' < N && 0 <= i < N ==> possibilities[y', x', i] == i + 1
      {
        var x := 0;
        while x < N
          invariant 0 <= x <= N && unchanged(this)
          invariant forall y', x', i :: (0 <= y' < N && 0 <= x' < N && 0 <= i < N && (y' < y || (y' == y && x' < x))) ==>
                      possibilities[y', x', i] == i + 1
        {
          MarkAllPossible(x, y);
          x := x + 1;
        }
        y := y + 1;
      }
      ghost var init := InitialSlots(grid);
      InitialFacts(grid);
      y := 0;
      while y < N
        invariant 0 <= y <= N && unchanged(this)
        invariant forall y', x', i :: 0 <= y' < N && 0 <= x' < N && 0 <= i < N ==>
                    possibilities[y', x', i] == if y' < y then init[y'][x'][i] else i + 1
      {
        var x := 0;
        while x < N
          invariant 0 <= x <= N && unchanged(this)
          invariant forall y', x', i :: 0 <= y' < N && 0 <= x' < N && 0 <= i < N ==>
                      possibilities[y', x', i] == if y' < y || (y' == y && x' < x) then init[y'][x'][i] else i + 1
        {
          if puzzle[y, x] != 0 {
            CollapseSlots(x, y, puzzle[y, x]);
          }
          x := x + 1;
        }
        y := y + 1;
      }
      cand := init;
    }

    // -------------------------------------------------------------------------
    // Trial and revert

    /**
     * is_valid_move: tentatively write test into the unknown cell (x, y),
     * run the row and column tests (and the box test when desperate), put
     * the 0 back, and zero slot test - 1 if a test failed. The Legacy engine
     * also clears the flag on failure.
     */
    method IsValidMove(x: int, y: int, test: int) returns (pass: int)
      requires Valid() && 0 <= x < N && 0 <= y < N && 1 <= test <= N && grid[y][x] == 0
      modifies this, puzzle, possibilities
      ensures Valid() && grid == old(grid) && errorFactor == old(errorFactor) && lastFound == old(lastFound)
      ensures var e := Trial(old(grid), old(cand)[y][x], x, y, test, old(desperate), variant);
              cand == SetCell(old(cand), x, y, e.slots) && desperate == e.desperate
      ensures pass == 0 || pass == 1
      ensures pass == 1 <==> old(cand)[y][x][test - 1] != 0 && Passes(old(grid), x, y, test, old(desperate))
    {
      if possibilities[y, x, test - 1] == 0 {
        SetCellSame(cand, x, y);
        return 0;
      }
      WriteSquare(x, y, test);
      pass := CellTests(x, y);
      assert pass == 1 <==> Passes(old(grid), x, y, test, desperate);
      PlaceRestore(old(grid), x, y, test);
      if pass != 0 {
        WriteSquare(x, y, 0);
        SetCellSame(cand, x, y);
        return 1;
      }
      if variant == Legacy {
        desperate := 0;
      }
      ClearSlot(x, y, test - 1);
      WriteSquare(x, y, 0);
      return 0;
    }

    /** The tests is_valid_move runs on the cell (x, y): its row and column, and its box when desperate. */
    method CellTests(x: int, y: int) returns (pass: int)
      requires Valid() && 0 <= x < N && 0 <= y < N
      ensures pass == 0 || pass == 1
      ensures pass == 1 <==> NoRepeat(grid, Cells(Row(y))) && NoRepeat(grid, Cells(Column(x))) &&
                             (desperate != 0 ==> NoRepeat(grid, Cells(BoxOf(x, y))))
    {
      pass := HorizontalTest(y);
      if pass != 0 {
        pass := VerticalTest(x);
        if pass != 0 && desperate != 0 {
          pass := SubGridTest(x, y);
        }
      }
    }

    // -------------------------------------------------------------------------
    // Naked singles

    /** for (test = N; test != 0; --test) is_valid_move(x, y, test): every trial on one unknown cell. */
    method EliminateSquare(x: int, y: int)
      requires Valid() && 0 <= x < N && 0 <= y < N && grid[y][x] == 0
      modifies this, puzzle, possibilities
      ensures Valid() && grid == old(grid) && errorFactor == old(errorFactor) && lastFound == old(lastFound)
      ensures var e := EliminateCell(old(grid), old(cand)[y][x], x, y, N, old(desperate), variant);
              cand == SetCell(old(cand), x, y, e.slots) && desperate == e.desperate
    {
      SetCellSame(cand, x, y);
      var test := N;
      while test != 0
        invariant 0 <= test <= N && Valid() && grid == old(grid)
        invariant errorFactor == old(errorFactor) && lastFound == old(lastFound)
        invariant cand == SetCell(old(cand), x, y, cand[y][x])
        invariant EliminateCell(grid, cand[y][x], x, y, test, desperate, variant) ==
                  EliminateCell(old(grid), old(cand)[y][x], x, y, N, old(desperate), variant)
      {
        ghost var s := cand[y][x];
        var _ := IsValidMove(x, y, test);
        SetCellTwice(old(cand), x, y, s, cand[y][x]);
        test := test - 1;
      }
    }

    /** The options count of iterate_diagram: the number of non-zero slots of (x, y), counted from slot N - 1 down. */
    method CountOptions(x: int, y: int) returns (options: int)
      requires Valid() && 0 <= x < N && 0 <= y < N
      ensures options == Options(cand[y][x])
    {
      ghost var s := cand[y][x];
      options := 0;
      var test := N;
      while test != 0
        invariant 0 <= test <= N
        invariant options == Options(s[test..])
      {
        assert s[test - 1..][1..] == s[test..];
        if possibilities[y, x, test - 1] != 0 {
          options := options + 1;
        }
        test := test - 1;
      }
      assert s[0..] == s;
    }

    /**
     * iterate_diagram: in row-major order, run every trial on each unknown
     * cell and commit the first one left with a single candidate. The
     * error_freeze of extract_possibility cannot be reached from here.
     */
    method IterateDiagram() returns (r: int)
      requires Valid()
      modifies this, puzzle, possibilities
      ensures Valid() && errorFactor == old(errorFactor)
      ensures var sr := Scan(old(grid), old(cand), old(desperate), 0, 0, variant);
              && cand == sr.cand && desperate == sr.desperate
              && (r == 0 || r == 1) && (r == 1 <==> sr.found.Some?)
              && match sr.found
                 case None => grid == old(grid) && lastFound == old(lastFound)
                 case Some(sq) =>
                   && OnBoard(sq) && FirstOption(sr.cand[sq.y][sq.x], 0) < N
                   && grid == Place(old(grid), sq.x, sq.y, Value(sr.cand[sq.y][sq.x])) && lastFound == sq
    {
      var y := 0;
      while y < N
        invariant 0 <= y <= N && Valid() && grid == old(grid)
        invariant errorFactor == old(errorFactor) && lastFound == old(lastFound)
        invariant Scan(grid, cand, desperate, 0, y, variant) == Scan(old(grid), old(cand), old(desperate), 0, 0, variant)
      {
        var x := 0;
        while x < N
          invariant 0 <= x <= N && Valid() && grid == old(grid)
          invariant errorFactor == old(errorFactor) && lastFound == old(lastFound)
          invariant Scan(grid, cand, desperate, x, y, variant) == Scan(old(grid), old(cand), old(desperate), 0, 0, variant)
        {
          var found := ScanSquare(x, y);
          if found {
            return 1;
          }
          x := x + 1;
        }
        y := y + 1;
      }
      return 0;
    }

    /**
     * One cell of iterate_diagram: an unknown cell gets every trial, and if a
     * single candidate is left it is written in and the scan stops there.
     */
    method ScanSquare(x: int, y: int) returns (found: bool)
      requires Valid() && 0 <= x < N && 0 <= y < N
      modifies this, puzzle, possibilities
      ensures Valid() && errorFactor == old(errorFactor)
      ensures var sr := Scan(old(grid), old(cand), old(desperate), x, y, variant);
              if found then
                && sr.found == Some(Square(x, y)) && cand == sr.cand && desperate == sr.desperate
                && FirstOption(cand[y][x], 0) < N
                && grid == Place(old(grid), x, y, Value(cand[y][x])) && lastFound == Square(x, y)
              else
                && grid == old(grid) && lastFound == old(lastFound)
                && Scan(grid, cand, desperate, x + 1, y, variant) == sr
    {
      if puzzle[y, x] == 0 {
        EliminateSquare(x, y);
        var options := CountOptions(x, y);
        if options == 1 {
          var e := ExtractPossibility(x, y);
          assert e.Found?;
          SingleOptionIsSingleton(cand[y][x]);
          WriteSquare(x, y, e.value);
          lastFound := Square(x, y);
          return true;
        }
      }
      return false;
    }

    // -------------------------------------------------------------------------
    // Hidden singles

    /**
     * The commit shared by the region tests and the guess: write t into the
     * unknown cell (x, y), record it as the last square found, and leave t as
     * the cell's only candidate.
     */
    method CommitSquare(x: int, y: int, t: int)
      requires Valid() && 0 <= x < N && 0 <= y < N && 1 <= t <= N
      requires grid[y][x] == 0 && cand[y][x][t - 1] == t
      modifies this, puzzle, possibilities
      ensures Valid() && Committed(grid, cand) == Commit(old(grid), old(cand), x, y, t)
      ensures lastFound == Square(x, y) && desperate == old(desperate) && errorFactor == old(errorFactor)
    {
      WriteSquare(x, y, t);
      lastFound := Square(x, y);
      CollapseSlots(x, y, t);
      cand := SetCell(cand, x, y, Singleton(t));
    }

    /** The commit at the end of a region test that found the hidden single of region r. */
    method CommitHidden(ghost r: Region, x: int, y: int, t: int)
      requires Valid() && IsRegion(r) && Hidden(grid, cand, r) == Some(Hit(t, Square(x, y)))
      modifies this, puzzle, possibilities
      ensures Valid() && desperate == old(desperate) && errorFactor == old(errorFactor)
      ensures View(grid, cand, lastFound) == Apply(old(grid), old(cand), old(lastFound), old(Hidden(grid, cand, r)))
    {
      HiddenIsHidden(grid, cand, r);
      CommitSquare(x, y, t);
    }

    /** The counting loop of horizontal_uniquity_test: counts[i] is the number of cells of row y listing digit i + 1. */
    method RowCounts(y: int) returns (counts: array<int>)
      requires Mirrors() && 0 <= y < N
      ensures fresh(counts) && counts.Length == N
      ensures forall i :: 0 <= i < N ==> counts[i] == Tally(cand, Cells(Row(y)), i, 0)
    {
      ghost var cs := Cells(Row(y));
      counts := new int[N](_ => 0);
      var x := 0;
      while x < N
        invariant 0 <= x <= N
        invariant forall i :: 0 <= i < N ==> counts[i] + Tally(cand, cs, i, x) == Tally(cand, cs, i, 0)
      {
        CountCell(counts, cs, x, x, y);
        x := x + 1;
      }
    }

    /** The lister search of horizontal_uniquity_test: the first cell of row y listing digit i + 1. */
    method RowLister(y: int, i: int) returns (x: int)
      requires Mirrors() && 0 <= y < N && 0 <= i < N && FirstLister(cand, Cells(Row(y)), i, 0) < N
      ensures x == FirstLister(cand, Cells(Row(y)), i, 0)
    {
      ghost var cs := Cells(Row(y));
      ghost var k := FirstLister(cand, cs, i, 0);
      assert cs[k] == Square(k, y) && possibilities[y, k, i] == i + 1;
      x := 0;
      while possibilities[y, x, i] != i + 1
        invariant 0 <= x <= k
        decreases k - x
      {
        x := x + 1;
      }
      assert cs[x] == Square(x, y) && Lists(cand, cs[x], i);
      FirstListerAtMost(cand, cs, i, 0, x);
    }

    /**
     * The counting and search half of horizontal_uniquity_test: the first
     * digit listed by exactly one cell of row y, when that cell is unknown.
     */
    method RowSearch(y: int) returns (hit: bool, x: int, i: int)
      requires Mirrors() && 0 <= y < N
      ensures Hidden(grid, cand, Row(y)) == if hit then Some(Hit(i + 1, Square(x, y))) else None
    {
      ghost var cs := Cells(Row(y));
      var counts := RowCounts(y);
      i, x := 0, 0;
      hit := false;
      while i < N
        modifies {}
        invariant 0 <= i <= N && !hit
        invariant HiddenFrom(grid, cand, cs, i) == Hidden(grid, cand, Row(y))
      {
        hit, x := RowTry(y, i, counts[i] == 1);
        if hit {
          return;
        }
        i := i + 1;
      }
      assert HiddenFrom(grid, cand, cs, N) == None;
    }

    /** One digit of the search of horizontal_uniquity_test: the lister of digit i + 1, when it is the only one, and whether it is unknown. */
    method RowTry(y: int, i: int, once: bool) returns (hit: bool, x: int)
      requires Mirrors() && 0 <= y < N && 0 <= i < N
      requires once == (Tally(cand, Cells(Row(y)), i, 0) == 1)
      ensures var cs := Cells(Row(y));
              if hit then HiddenFrom(grid, cand, cs, i) == Some(Hit(i + 1, Square(x, y)))
              else HiddenFrom(grid, cand, cs, i) == HiddenFrom(grid, cand, cs, i + 1)
    {
      HiddenStep(grid, cand, Cells(Row(y)), i);
      hit, x := false, 0;
      if once {
        x := RowLister(y, i);
        hit := puzzle[y, x] == 0;
      }
    }

    /**
     * horizontal_uniquity_test: count, for every digit, the cells of row y
     * that still list it; for the first digit listed exactly once whose
     * lister is still unknown, commit it there.
     */
    method HorizontalUniquityTest(y: int) returns (r: int)
      requires Valid() && 0 <= y < N
      modifies this, puzzle, possibilities
      ensures Valid() && desperate == old(desperate) && errorFactor == old(errorFactor)
      ensures var h := Hidden(old(grid), old(cand), Row(y));
              && View(grid, cand, lastFound) == Apply(old(grid), old(cand), old(lastFound), h)
              && r == (if h.Some? then 1 else 0)
      ensures r == 0 ==> unchanged(this, puzzle, possibilities)
    {
      var hit, x, i := RowSearch(y);
      if !hit {
        return 0;
      }
      CommitHidden(Row(y), x, y, i + 1);
      return 1;
    }

    /** The counting loop of vertical_uniquity_test: counts[i] is the number of cells of column x listing digit i + 1. */
    method ColumnCounts(x: int) returns (counts: array<int>)
      requires Mirrors() && 0 <= x < N
      ensures fresh(counts) && counts.Length == N
      ensures forall i :: 0 <= i < N ==> counts[i] == Tally(cand, Cells(Column(x)), i, 0)
    {
      ghost var cs := Cells(Column(x));
      counts := new int[N](_ => 0);
      var y := 0;
      while y < N
        invariant 0 <= y <= N
        invariant forall i :: 0 <= i < N ==> counts[i] + Tally(cand, cs, i, y) == Tally(cand, cs, i, 0)
      {
        CountCell(counts, cs, y, x, y);
        y := y + 1;
      }
    }

    /** The lister search of vertical_uniquity_test: the first cell of column x listing digit i + 1. */
    method ColumnLister(x: int, i: int) returns (y: int)
      requires Mirrors() && 0 <= x < N && 0 <= i < N && FirstLister(cand, Cells(Column(x)), i, 0) < N
      ensures y == FirstLister(cand, Cells(Column(x)), i, 0)
    {
      ghost var cs := Cells(Column(x));
      ghost var k := FirstLister(cand, cs, i, 0);
      assert cs[k] == Square(x, k) && possibilities[k, x, i] == i + 1;
      y := 0;
      while possibilities[y, x, i] != i + 1
        invariant 0 <= y <= k
        decreases k - y
      {
        y := y + 1;
      }
      assert cs[y] == Square(x, y) && Lists(cand, cs[y], i);
      FirstListerAtMost(cand, cs, i, 0, y);
    }

    /**
     * The counting and search half of vertical_uniquity_test: the first
     * digit listed by exactly one cell of column x, when that cell is unknown.
     */
    method ColumnSearch(x: int) returns (hit: bool, y: int, i: int)
      requires Mirrors() && 0 <= x < N
      ensures Hidden(grid, cand, Column(x)) == if hit then Some(Hit(i + 1, Square(x, y))) else None
    {
      ghost var cs := Cells(Column(x));
      var counts := ColumnCounts(x);
      i, y := 0, 0;
      hit := false;
      while i < N
        modifies {}
        invariant 0 <= i <= N && !hit
        invariant HiddenFrom(grid, cand, cs, i) == Hidden(grid, cand, Column(x))
      {
        hit, y := ColumnTry(x, i, counts[i] == 1);
        if hit {
          return;
        }
        i := i + 1;
      }
      assert HiddenFrom(grid, cand, cs, N) == None;
    }

    /** One digit of the search of vertical_uniquity_test: the lister of digit i + 1, when it is the only one, and whether it is unknown. */
    method ColumnTry(x: int, i: int, once: bool) returns (hit: bool, y: int)
      requires Mirrors() && 0 <= x < N && 0 <= i < N
      requires once == (Tally(cand, Cells(Column(x)), i, 0) == 1)
      ensures var cs := Cells(Column(x));
              if hit then HiddenFrom(grid, cand, cs, i) == Some(Hit(i + 1, Square(x, y)))
              else HiddenFrom(grid, cand, cs, i) == HiddenFrom(grid, cand, cs, i + 1)
    {
      HiddenStep(grid, cand, Cells(Column(x)), i);
      hit, y := false, 0;
      if once {
        y := ColumnLister(x, i);
        hit := puzzle[y, x] == 0;
      }
    }

    /** vertical_uniquity_test: horizontal_uniquity_test on column x. */
    method VerticalUniquityTest(x: int) returns (r: int)
      requires Valid() && 0 <= x < N
      modifies this, puzzle, possibilities
      ensures Valid() && desperate == old(desperate) && errorFactor == old(errorFactor)
      ensures var h := Hidden(old(grid), old(cand), Column(x));
              && View(grid, cand, lastFound) == Apply(old(grid), old(cand), old(lastFound), h)
              && r == (if h.Some? then 1 else 0)
      ensures r == 0 ==> unchanged(this, puzzle, possibilities)
    {
      var hit, y, i := ColumnSearch(x);
      if !hit {
        return 0;
      }
      CommitHidden(Column(x), x, y, i + 1);
      return 1;
    }

    /** The counting loops of box_uniquity_test: counts[d] is the number of cells of the box at (x, y) listing digit d + 1. */
    method BoxCounts(x: int, y: int) returns (counts: array<int>)
      requires Mirrors() && IsRegion(Box(x, y))
      ensures fresh(counts) && counts.Length == N
      ensures forall d :: 0 <= d < N ==> counts[d] == Tally(cand, Cells(Box(x, y)), d, 0)
    {
      ghost var cs := Cells(Box(x, y));
      counts := new int[N](_ => 0);
      var j := 0;
      while j < R
        invariant 0 <= j <= R
        invariant forall d :: 0 <= d < N ==> counts[d] + Tally(cand, cs, d, j * R) == Tally(cand, cs, d, 0)
      {
        var i := 0;
        while i < R
          invariant 0 <= i <= R
          invariant forall d :: 0 <= d < N ==> counts[d] + Tally(cand, cs, d, j * R + i) == Tally(cand, cs, d, 0)
        {
          BoxCell(x, y, j, i);
          CountCell(counts, cs, j * R + i, x + i, y + j);
          i := i + 1;
        }
        assert (j + 1) * R == j * R + R;
        j := j + 1;
      }
      assert R * R == N;
    }

    /**
     * The innermost loop of the counting loops: the cell (px, py) at
     * position k of cs adds one to the count of every digit it lists.
     */
    method CountCell(counts: array<int>, ghost cs: seq<Square>, ghost k: int, px: int, py: int)
      requires Mirrors() && AllOnBoard(cs) && 0 <= k < |cs| && cs[k] == Square(px, py)
      requires counts.Length == N
      modifies counts
      ensures forall d :: 0 <= d < N ==> counts[d] + Tally(cand, cs, d, k + 1) == old(counts[d]) + Tally(cand, cs, d, k)
    {
      var d := 0;
      while d < N
        invariant 0 <= d <= N
        invariant forall d' :: 0 <= d' < d ==> counts[d'] + Tally(cand, cs, d', k + 1) == old(counts[d']) + Tally(cand, cs, d', k)
        invariant forall d' :: d <= d' < N ==> counts[d'] == old(counts[d'])
      {
        if possibilities[py, px, d] == d + 1 {
          counts[d] := counts[d] + 1;
        }
        d := d + 1;
      }
    }

    /**
     * The search of box_uniquity_test that leaves the loops at the first cell
     * of the box, a box row at a time, listing digit count + 1.
     */
    method FindBoxLister(x: int, y: int, count: int) returns (px: int, py: int)
      requires Mirrors() && IsRegion(Box(x, y)) && 0 <= count < N
      requires FirstLister(cand, Cells(Box(x, y)), count, 0) < N
      ensures 0 <= px < N && 0 <= py < N
      ensures Cells(Box(x, y))[FirstLister(cand, Cells(Box(x, y)), count, 0)] == Square(px, py)
    {
      ghost var cs := Cells(Box(x, y));
      var j, i := 0, 0;
      var found := false;
      while !found
        invariant 0 <= j < R && 0 <= i < R && j * R <= FirstLister(cand, cs, count, 0)
        invariant found ==> cs[j * R + i] == Square(x + i, y + j) && j * R + i == FirstLister(cand, cs, count, 0)
        decreases R - j, !found
      {
        found, i := FindInBoxRow(x, y, count, j);
        if !found {
          assert (j + 1) * R == j * R + R;
          j := j + 1;
        }
      }
      px, py := x + i, y + j;
    }

    /** The inner loop of the search of box_uniquity_test: the first cell of box row j listing digit count + 1. */
    method FindInBoxRow(x: int, y: int, count: int, j: int) returns (found: bool, i: int)
      requires Mirrors() && IsRegion(Box(x, y)) && 0 <= count < N && 0 <= j < R
      requires j * R <= FirstLister(cand, Cells(Box(x, y)), count, 0) < N
      ensures 0 <= i < R
      ensures found ==> Cells(Box(x, y))[j * R + i] == Square(x + i, y + j) && j * R + i == FirstLister(cand, Cells(Box(x, y)), count, 0)
      ensures !found ==> j * R + R <= FirstLister(cand, Cells(Box(x, y)), count, 0) && j + 1 < R
    {
      ghost var cs := Cells(Box(x, y));
      ghost var k := FirstLister(cand, cs, count, 0);
      i := 0;
      while i < R
        invariant 0 <= i <= R && j * R + i <= k
      {
        BoxCell(x, y, j, i);
        assert possibilities[y + j, x + i, count] == cand[y + j][x + i][count];
        if possibilities[y + j, x + i, count] == count + 1 {
          FirstListerAtMost(cand, cs, count, 0, j * R + i);
          return true, i;
        }
        assert j * R + i != k;
        i := i + 1;
      }
      assert k < R * R;
      return false, 0;
    }

    /**
     * box_uniquity_test: the same test on the box whose origin is
     * (R·(boxX mod R), R·(boxY mod R)), visiting its cells a box row at a time.
     */
    method BoxUniquityTest(boxX: int, boxY: int) returns (r: int)
      requires Valid() && 0 <= boxX && 0 <= boxY
      modifies this, puzzle, possibilities
      ensures Valid() && desperate == old(desperate) && errorFactor == old(errorFactor)
      ensures var h := Hidden(old(grid), old(cand), Box(R * (boxX % R), R * (boxY % R)));
              && View(grid, cand, lastFound) == Apply(old(grid), old(cand), old(lastFound), h)
              && r == (if h.Some? then 1 else 0)
      ensures r == 0 ==> unchanged(this, puzzle, possibilities)
    {
      var x, y := R * (boxX % R), R * (boxY % R);
      BoxOrigin(boxX);
      BoxOrigin(boxY);
      r := BoxUniquityAt(x, y);
    }

    /**
     * The counting and search half of box_uniquity_test: the first digit
     * listed by exactly one cell of the box, when that cell is unknown.
     */
    method BoxSearch(x: int, y: int) returns (hit: bool, px: int, py: int, count: int)
      requires Mirrors() && IsRegion(Box(x, y))
      ensures Hidden(grid, cand, Box(x, y)) == if hit then Some(Hit(count + 1, Square(px, py))) else None
    {
      ghost var cs := Cells(Box(x, y));
      var counts := BoxCounts(x, y);
      count, px, py := 0, 0, 0;
      hit := false;
      while count < N
        modifies {}
        invariant 0 <= count <= N && !hit
        invariant HiddenFrom(grid, cand, cs, count) == Hidden(grid, cand, Box(x, y))
      {
        hit, px, py := BoxTry(x, y, count, counts[count] == 1);
        if hit {
          return;
        }
        count := count + 1;
      }
      assert HiddenFrom(grid, cand, cs, N) == None;
    }

    /**
     * One digit of box_uniquity_test's search: when digit count + 1 is listed
     * exactly once (once is true), find its lister and test whether it is unknown.
     */
    method BoxTry(x: int, y: int, count: int, once: bool) returns (hit: bool, px: int, py: int)
      requires Mirrors() && IsRegion(Box(x, y)) && 0 <= count < N
      requires once == (Tally(cand, Cells(Box(x, y)), count, 0) == 1)
      ensures var cs := Cells(Box(x, y));
              if hit then HiddenFrom(grid, cand, cs, count) == Some(Hit(count + 1, Square(px, py)))
              else HiddenFrom(grid, cand, cs, count) == HiddenFrom(grid, cand, cs, count + 1)
    {
      HiddenStep(grid, cand, Cells(Box(x, y)), count);
      hit, px, py := false, 0, 0;
      if once {
        px, py := FindBoxLister(x, y, count);
        hit := puzzle[py, px] == 0;
      }
    }

    /** The body of box_uniquity_test once the origin (x, y) is fixed. */
    method BoxUniquityAt(x: int, y: int) returns (r: int)
      requires Valid() && IsRegion(Box(x, y))
      modifies this, puzzle, possibilities
      ensures Valid() && desperate == old(desperate) && errorFactor == old(errorFactor)
      ensures var h := Hidden(old(grid), old(cand), Box(x, y));
              && View(grid, cand, lastFound) == Apply(old(grid), old(cand), old(lastFound), h)
              && r == (if h.Some? then 1 else 0)
      ensures r == 0 ==> unchanged(this, puzzle, possibilities)
    {
      var hit, px, py, count := BoxSearch(x, y);
      if !hit {
        return 0;
      }
      CommitHidden(Box(x, y), px, py, count + 1);
      return 1;
    }

    // -------------------------------------------------------------------------
    // The region-test driver (iterate_diagram_uniquity)

    /** The outcome of every region test of the driver, in the order it tries them, on the current state. */
    ghost function Outcomes(): seq<Option<Hit>>
      reads this
      requires IsBoard(grid) && IsSlots(cand)
    {
      Hits(grid, cand, Plan(variant, desperate))
    }

    /**
     * iterate_diagram_uniquity: try the region tests in the driver's order
     * and stop at the first that commits a digit. The Current engine tries
     * the boxes only when desperate; the Legacy engine clears desperate
     * after a hit.
     */
    method IterateDiagramUniquity() returns (r: int)
      requires Valid()
      modifies this, puzzle, possibilities
      ensures Valid() && errorFactor == old(errorFactor)
      ensures var h := Uniquity(old(grid), old(cand), variant, old(desperate));
              && View(grid, cand, lastFound) == Apply(old(grid), old(cand), old(lastFound), h)
              && r == (if h.Some? then 1 else 0)
              && desperate == (if variant == Legacy && h.Some? then 0 else old(desperate))
    {
      ghost var hs := Outcomes();
      if variant == Current {
        r := CurrentRows();
        if r == 0 {
          r := CurrentColumns();
        }
        if r == 0 && desperate != 0 {
          r := CurrentBoxes();
        }
      } else {
        r := LegacyRows();
        if r == 0 {
          r := LegacyColumns();
        }
        if r != 0 {
          desperate := 0;
        }
      }
      if r == 0 {
        MissBeforeAllIff(hs);
      }
    }

    /** One row test of the driver, stated at its plan position: y in the Current order, N-1-y in the Legacy order. */
    method RowStep(y: int) returns (r: int)
      requires Valid() && 0 <= y < N
      modifies this, puzzle, possibilities
      ensures Valid() && desperate == old(desperate) && errorFactor == old(errorFactor)
      ensures var m := if variant == Current then y else N - 1 - y;
              && m < |old(Outcomes())|
              && (r == 1 ==> old(Outcomes())[m].Some?
                             && View(grid, cand, lastFound) == Apply(old(grid), old(cand), old(lastFound), old(Outcomes())[m]))
              && (r != 1 ==> r == 0 && old(Outcomes())[m].None? && unchanged(this, puzzle, possibilities))
    {
      RowOutcome(grid, cand, variant, desperate, y);
      r := HorizontalUniquityTest(y);
    }

    /** One column test of the driver, stated at its plan position: N+x in the Current order, 2N-1-x in the Legacy order. */
    method ColumnStep(x: int) returns (r: int)
      requires Valid() && 0 <= x < N
      modifies this, puzzle, possibilities
      ensures Valid() && desperate == old(desperate) && errorFactor == old(errorFactor)
      ensures var m := if variant == Current then N + x else 2 * N - 1 - x;
              && m < |old(Outcomes())|
              && (r == 1 ==> old(Outcomes())[m].Some?
                             && View(grid, cand, lastFound) == Apply(old(grid), old(cand), old(lastFound), old(Outcomes())[m]))
              && (r != 1 ==> r == 0 && old(Outcomes())[m].None? && unchanged(this, puzzle, possibilities))
    {
      ColumnOutcome(grid, cand, variant, desperate, x);
      r := VerticalUniquityTest(x);
    }

    /** One box test of the desperate Current driver, stated at its plan position 2N + y·R + x. */
    method BoxStep(x: int, y: int) returns (r: int)
      requires Valid() && variant == Current && desperate != 0 && 0 <= x < R && 0 <= y < R
      modifies this, puzzle, possibilities
      ensures Valid() && desperate == old(desperate) && errorFactor == old(errorFactor)
      ensures var m := 2 * N + y * R + x;
              && m < |old(Outcomes())|
              && (r == 1 ==> old(Outcomes())[m].Some?
                             && View(grid, cand, lastFound) == Apply(old(grid), old(cand), old(lastFound), old(Outcomes())[m]))
              && (r != 1 ==> r == 0 && old(Outcomes())[m].None? && unchanged(this, puzzle, possibilities))
    {
      BoxOutcome(grid, cand, desperate, x, y);
      r := BoxUniquityTest(x, y);
    }

    /** The rows phase of the Current driver: rows 0 to N-1 at plan positions 0 to N-1. */
    method CurrentRows() returns (r: int)
      requires Valid() && variant == Current
      modifies this, puzzle, possibilities
      ensures Valid() && desperate == old(desperate) && errorFactor == old(errorFactor) && (r == 0 || r == 1)
      ensures N <= |old(Outcomes())|
      ensures r == 1 ==> var h := FirstHit(old(Outcomes()), 0);
                         h.Some? && View(grid, cand, lastFound) == Apply(old(grid), old(cand), old(lastFound), h)
      ensures r == 0 ==> unchanged(this, puzzle, possibilities) && MissBefore(old(Outcomes()), N)
    {
      ghost var hs := Outcomes();
      var y := 0;
      while y < N
        invariant 0 <= y <= N && unchanged(this, puzzle, possibilities)
        invariant MissBefore(hs, y)
      {
        r := RowStep(y);
        if r != 0 {
          MissBeforeHit(hs, y);
          return;
        }
        y := y + 1;
      }
      return 0;
    }

    /** The columns phase of the Current driver, after every row missed: columns 0 to N-1 at plan positions N to 2N-1. */
    method CurrentColumns() returns (r: int)
      requires Valid() && variant == Current
      requires N <= |Outcomes()| && MissBefore(Outcomes(), N)
      modifies this, puzzle, possibilities
      ensures Valid() && desperate == old(desperate) && errorFactor == old(errorFactor) && (r == 0 || r == 1)
      ensures 2 * N <= |old(Outcomes())|
      ensures r == 1 ==> var h := FirstHit(old(Outcomes()), 0);
                         h.Some? && View(grid, cand, lastFound) == Apply(old(grid), old(cand), old(lastFound), h)
      ensures r == 0 ==> unchanged(this, puzzle, possibilities) && MissBefore(old(Outcomes()), 2 * N)
    {
      ghost var hs := Outcomes();
      var x := 0;
      while x < N
        invariant 0 <= x <= N && unchanged(this, puzzle, possibilities)
        invariant MissBefore(hs, N + x)
      {
        r := ColumnStep(x);
        if r != 0 {
          MissBeforeHit(hs, N + x);
          return;
        }
        x := x + 1;
      }
      return 0;
    }

    /** The boxes phase of the Current driver when desperate, after every row and column missed: box test (x, y) at plan position 2N + y·R + x. */
    method CurrentBoxes() returns (r: int)
      requires Valid() && variant == Current && desperate != 0
      requires 2 * N <= |Outcomes()| && MissBefore(Outcomes(), 2 * N)
      modifies this, puzzle, possibilities
      ensures Valid() && desperate == old(desperate) && errorFactor == old(errorFactor) && (r == 0 || r == 1)
      ensures 3 * N == |old(Outcomes())|
      ensures r == 1 ==> var h := FirstHit(old(Outcomes()), 0);
                         h.Some? && View(grid, cand, lastFound) == Apply(old(grid), old(cand), old(lastFound), h)
      ensures r == 0 ==> unchanged(this, puzzle, possibilities) && MissBefore(old(Outcomes()), 3 * N)
    {
      ghost var hs := Outcomes();
      var y := 0;
      while y < R
        invariant 0 <= y <= R && unchanged(this, puzzle, possibilities)
        invariant MissBefore(hs, 2 * N + y * R)
      {
        var x := 0;
        while x < R
          invariant 0 <= x <= R && unchanged(this, puzzle, possibilities)
          invariant MissBefore(hs, 2 * N + y * R + x)
        {
          r := BoxStep(x, y);
          if r != 0 {
            MissBeforeHit(hs, 2 * N + y * R + x);
            return;
          }
          x := x + 1;
        }
        y := y + 1;
      }
      return 0;
    }

    /** The rows phase of the Legacy driver: rows N-1 down to 0 at plan positions 0 to N-1. */
    method LegacyRows() returns (r: int)
      requires Valid() && variant == Legacy
      modifies this, puzzle, possibilities
      ensures Valid() && desperate == old(desperate) && errorFactor == old(errorFactor) && (r == 0 || r == 1)
      ensures N <= |old(Outcomes())|
      ensures r == 1 ==> var h := FirstHit(old(Outcomes()), 0);
                         h.Some? && View(grid, cand, lastFound) == Apply(old(grid), old(cand), old(lastFound), h)
      ensures r == 0 ==> unchanged(this, puzzle, possibilities) && MissBefore(old(Outcomes()), N)
    {
      ghost var hs := Outcomes();
      var y := N - 1;
      while y >= 0
        invariant -1 <= y < N && unchanged(this, puzzle, possibilities)
        invariant MissBefore(hs, N - 1 - y)
      {
        r := RowStep(y);
        if r != 0 {
          MissBeforeHit(hs, N - 1 - y);
          return;
        }
        y := y - 1;
      }
      return 0;
    }

    /** The columns phase of the Legacy driver, after every row missed: columns N-1 down to 0 at plan positions N to 2N-1. */
    method LegacyColumns() returns (r: int)
      requires Valid() && variant == Legacy
      requires N <= |Outcomes()| && MissBefore(Outcomes(), N)
      modifies this, puzzle, possibilities
      ensures Valid() && desperate == old(desperate) && errorFactor == old(errorFactor) && (r == 0 || r == 1)
      ensures 2 * N <= |old(Outcomes())|
      ensures r == 1 ==> var h := FirstHit(old(Outcomes()), 0);
                         h.Some? && View(grid, cand, lastFound) == Apply(old(grid), old(cand), old(lastFound), h)
      ensures r == 0 ==> unchanged(this, puzzle, possibilities) && MissBefore(old(Outcomes()), 2 * N)
    {
      ghost var hs := Outcomes();
      var x := N - 1;
      while x >= 0
        invariant -1 <= x < N && unchanged(this, puzzle, possibilities)
        invariant MissBefore(hs, 2 * N - 1 - x)
      {
        r := ColumnStep(x);
        if r != 0 {
          MissBeforeHit(hs, 2 * N - 1 - x);
          return;
        }
        x := x - 1;
      }
      return 0;
    }
 
    // -------------------------------------------------------------------------
    // The two-candidate guess (selective_brute_force)

    /** The search of selective_brute_force: the first unknown cell, in row-major order, with exactly two non-zero slots. */
    method FindPair() returns (found: bool, x: int, y: int)
      requires Valid()
      ensures found <==> FirstPair(grid, cand, 0, 0).Some?
      ensures found ==> FirstPair(grid, cand, 0, 0) == Some(Square(x, y))
    {
      y := 0;
      while y < N
        invariant 0 <= y <= N && FirstPair(grid, cand, 0, y) == FirstPair(grid, cand, 0, 0)
      {
        found, x := PairInRow(y);
        if found {
          return;
        }
        y := y + 1;
      }
      return false, 0, 0;
    }

    /** One row of the search of selective_brute_force, from column 0 up. */
    method PairInRow(y: int) returns (found: bool, x: int)
      requires Valid() && 0 <= y < N
      ensures found ==> FirstPair(grid, cand, 0, y) == Some(Square(x, y))
      ensures !found ==> FirstPair(grid, cand, 0, y) == FirstPair(grid, cand, 0, y + 1)
    {
      x := 0;
      while x < N
        invariant 0 <= x <= N && FirstPair(grid, cand, x, y) == FirstPair(grid, cand, 0, y)
      {
        if puzzle[y, x] == 0 {
          var options := CountOptions(x, y);
          if options == 2 {
            return true, x;
          }
        }
        x := x + 1;
      }
      return false, 0;
    }

    /** The first non-zero slot of (x, y), searched from slot 0 up. */
    method FirstSlot(x: int, y: int) returns (i: int)
      requires Valid() && 0 <= x < N && 0 <= y < N && FirstOption(cand[y][x], 0) < N
      ensures i == FirstOption(cand[y][x], 0)
    {
      i := 0;
      while possibilities[y, x, i] == 0
        invariant 0 <= i <= FirstOption(cand[y][x], 0)
        invariant FirstOption(cand[y][x], i) == FirstOption(cand[y][x], 0)
        decreases N - i
      {
        i := i + 1;
      }
    }

    /** The last non-zero slot of (x, y), searched from slot N - 1 down. */
    method LastSlot(x: int, y: int) returns (i: int)
      requires Valid() && 0 <= x < N && 0 <= y < N && LastOption(cand[y][x], N) >= 0
      ensures i == LastOption(cand[y][x], N)
    {
      i := N - 1;
      while possibilities[y, x, i] == 0
        invariant LastOption(cand[y][x], N) <= i < N
        invariant LastOption(cand[y][x], i + 1) == LastOption(cand[y][x], N)
        decreases i
      {
        i := i - 1;
      }
    }

    /**
     * selective_brute_force: commit the coin's pick (the rand() & 1 of the
     * header) among the two candidates of the first unknown cell that has
     * exactly two; return 0 and change nothing when there is no such cell.
     */
    method SelectiveBruteForce(coin: bool) returns (r: int)
      requires Valid()
      modifies this, puzzle, possibilities
      ensures Valid() && desperate == old(desperate) && errorFactor == old(errorFactor)
      ensures var h := Guessed(old(grid), old(cand), coin);
              && View(grid, cand, lastFound) == Apply(old(grid), old(cand), old(lastFound), h)
              && r == (if h.Some? then 1 else 0)
    {
      var found, x, y := FindPair();
      if !found {
        return 0;
      }
      GuessFacts(cand[y][x], coin);
      var i;
      if coin {
        i := FirstSlot(x, y);
      } else {
        i := LastSlot(x, y);
      }
      CommitSquare(x, y, possibilities[y, x, i]);
      return 1;
    }
  }
}
