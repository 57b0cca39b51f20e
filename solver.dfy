/**
 * The driver programs: the digit mapping of the loader and the goto-driven
 * solve loops of main.c (Current) and sudoku/main.c (Legacy), over the
 * engine of module Engine. Every jump back to update_answer_log follows a
 * step that filled one unknown cell, which is what makes both loops end.
 */
module Solver {
  import opened Grid
  import opened Candidates
  import opened Deduction
  import opened Engine

  // ---------------------------------------------------------------------------
  // The loader's symbol table (out_map)

  /** The first row of out_map: enough for 9×9 grids. */
  const NineSymbols: seq<char> := ['1', '2', '3', '4', '5', '6', '7', '8', '9']
  /** The rest of out_map, for 16×16 and larger grids. */
  const WideSymbols: seq<char> := [
    'A', 'B', 'C', 'D', 'E', 'F', 'G',
    'H', 'I', 'J', 'K', 'L', 'M', 'N', 'O', 'P', 'Q', 'R', 'S', 'T', 'U', 'V',
    'W', 'X', 'Y', 'Z', '0', 'a', 'b', 'c', 'd', 'e', 'f', 'g', 'h', 'i', 'j',
    'k', 'l', 'm', 'n', 'o', 'p', 'q', 'r', 's', 't', 'u', 'v', 'w', 'x', 'y',
    'z', '=', '$'
  ]
  /** out_map: the symbols that stand for digits 1, 2, 3, ... in puzzle.txt and answer.txt. */
  const OutMap: seq<char> := NineSymbols + WideSymbols

  /** The table has TABLEMAPSIZE entries, and its first N are the digits '1'..'9' in order. */
  lemma OutMapShape()
    ensures |OutMap| == TableMapSize
    ensures forall i :: 0 <= i < N ==> OutMap[i] as int == '1' as int + i
  {
    assert forall i :: 0 <= i < N ==> OutMap[i] == NineSymbols[i];
  }

  /** The first index from i on, below N, whose symbol is ch, or N when there is none. */
  function SymbolIndex(ch: char, i: int): (k: int)
    requires 0 <= i <= N
    ensures i <= k <= N
    ensures k < N ==> OutMap[k] == ch
    ensures forall j :: i <= j < k ==> OutMap[j] != ch
    decreases N - i
  {
    if i == N then N else if OutMap[i] == ch then i else SymbolIndex(ch, i + 1)
  }

  /** The cell value the loader stores for the symbol ch: i + 1 for the first i < N with out_map[i] == ch, else 0. */
  function DigitOf(ch: char): int
  {
    var i := SymbolIndex(ch, 0);
    if i < N then i + 1 else 0
  }

  /**
   * Every loaded cell holds 0 or a digit 1..N; a digit d is loaded exactly
   * from the symbol out_map[d - 1], and every other character loads as 0.
   */
  lemma DigitOfMeaning(ch: char)
    ensures 0 <= DigitOf(ch) <= N
    ensures DigitOf(ch) == 0 <==> forall i :: 0 <= i < N ==> OutMap[i] != ch
    ensures DigitOf(ch) != 0 ==> OutMap[DigitOf(ch) - 1] == ch
  {
  }

  /** The loader reads back what the printer writes: out_map[d - 1] loads as d. */
  lemma {:induction false} DigitOfSymbol(d: int)
    requires 1 <= d <= N
    ensures DigitOf(OutMap[d - 1]) == d
  {
    OutMapShape();
    var k := SymbolIndex(OutMap[d - 1], 0);
    assert OutMap[k] as int == '1' as int + k;
  }

  /** The symbol search of the loader (main.c, sudoku/main.c): stop at the first i with out_map[i] == ch. */
  method MapChar(ch: char) returns (d: int)
    ensures d == DigitOf(ch)
  {
    var i := 0;
    while i < N
      invariant 0 <= i <= N && SymbolIndex(ch, i) == SymbolIndex(ch, 0)
    {
      if OutMap[i] == ch {
        break;
      }
      i := i + 1;
    }
    d := if i < N then i + 1 else 0;
  }

  /**
   * The loader loop: cell (x, y) gets the value of the symbol text[y][x],
   * the character read for it from the puzzle file.
   */
  method Load(e: Engine, text: seq<seq<char>>)
    requires e.Valid() && |text| == N && forall y :: 0 <= y < N ==> |text[y]| == N
    modifies e, e.puzzle
    ensures e.Valid() && e.cand == old(e.cand)
    ensures forall y, x :: 0 <= y < N && 0 <= x < N ==> e.grid[y][x] == DigitOf(text[y][x])
    ensures e.desperate == old(e.desperate) && e.errorFactor == old(e.errorFactor) && e.lastFound == old(e.lastFound)
  {
    var y := 0;
    while y < N
      invariant 0 <= y <= N && e.Valid() && e.cand == old(e.cand)
      invariant e.desperate == old(e.desperate) && e.errorFactor == old(e.errorFactor) && e.lastFound == old(e.lastFound)
      invariant forall y', x :: 0 <= y' < y && 0 <= x < N ==> e.grid[y'][x] == DigitOf(text[y'][x])
    {
      var x := 0;
      while x < N
        invariant 0 <= x <= N && e.Valid() && e.cand == old(e.cand)
        invariant e.desperate == old(e.desperate) && e.errorFactor == old(e.errorFactor) && e.lastFound == old(e.lastFound)
        invariant forall y', x' :: 0 <= y' < N && 0 <= x' < N && (y' < y || (y' == y && x' < x)) ==>
                    e.grid[y'][x'] == DigitOf(text[y'][x'])
      {
        var d := MapChar(text[y][x]);
        DigitOfMeaning(text[y][x]);
        e.WriteSquare(x, y, d);
        x := x + 1;
      }
      y := y + 1;
    }
  }

  // ---------------------------------------------------------------------------
  // Why every logged step is progress

  /**
   * The way the state may move during a run: filled cells keep their
   * digits, slots once zeroed stay zero, and a table in which every filled
   * cell lists its own value alone stays so.
   */
  predicate Evolves(g0: Board, c0: Slots, g1: Board, c1: Slots)
    requires IsBoard(g0) && IsSlots(c0) && IsBoard(g1) && IsSlots(c1)
  {
    Extends(g0, g1) && Shrinks(c0, c1) && (Coherent(g0, c0) ==> Coherent(g1, c1))
  }

  lemma EvolvesTransitive(g0: Board, c0: Slots, g1: Board, c1: Slots, g2: Board, c2: Slots)
    requires IsBoard(g0) && IsSlots(c0) && IsBoard(g1) && IsSlots(c1) && IsBoard(g2) && IsSlots(c2)
    requires Evolves(g0, c0, g1, c1) && Evolves(g1, c1, g2, c2)
    ensures Evolves(g0, c0, g2, c2)
  {
    ShrinksTransitive(c0, c1, c2);
  }

  /**
   * A scan that stops commits the value of its cell to an unknown cell: one
   * unknown cell fewer, and every filled cell kept.
   */
  lemma ScanFillsOne(g: Board, c: Slots, d: int, v: Variant)
    requires IsBoard(g) && IsSlots(c) && SlotForm(c) && Scan(g, c, d, 0, 0, v).found.Some?
    ensures var r := Scan(g, c, d, 0, 0, v);
            var sq := r.found.value;
            && OnBoard(sq) && FirstOption(r.cand[sq.y][sq.x], 0) < N
            && var g' := Place(g, sq.x, sq.y, Value(r.cand[sq.y][sq.x]));
               Unknowns(g') == Unknowns(g) - 1 && Evolves(g, c, g', r.cand)
  {
    ScanFound(g, c, d, 0, 0, v);
    ScanShrinks(g, c, d, 0, 0, v);
    ScanKeeps(g, c, d, 0, 0, v);
    var r := Scan(g, c, d, 0, 0, v);
    var sq := r.found.value;
    PlaceFillsOne(g, sq.x, sq.y, Value(r.cand[sq.y][sq.x]));
  }

  /**
   * A scan that stops nowhere leaves no naked single and never raises the
   * number of surviving slots; if it changed the flag (a Legacy trial
   * failed), it lowered that number.
   */
  lemma ScanStalls(g: Board, c: Slots, d: int, v: Variant)
    requires IsBoard(g) && IsSlots(c) && Scan(g, c, d, 0, 0, v).found.None?
    ensures var r := Scan(g, c, d, 0, 0, v);
            && NoNakedSingle(g, r.cand) && SlotCount(r.cand) <= SlotCount(c) && Evolves(g, c, g, r.cand)
            && (r.desperate != d ==> v == Legacy && r.desperate == 0 && SlotCount(r.cand) < SlotCount(c))
  {
    var r := Scan(g, c, d, 0, 0, v);
    ScanFirst(g, c, d, 0, 0, v);
    ScanShrinks(g, c, d, 0, 0, v);
    ScanFlag(g, c, d, 0, 0, v);
    ScanKeeps(g, c, d, 0, 0, v);
    SlotCountShrink(c, r.cand);
  }

  /** Committing a digit its unknown cell still lists leaves one unknown cell fewer, and the state evolves. */
  lemma CommitFillsOne(g: Board, c: Slots, lastFound: Square, h: Option<Hit>)
    requires IsBoard(g) && IsSlots(c) && h.Some? && OnBoard(h.value.at) && At(g, h.value.at) == 0 && 1 <= h.value.digit <= N
    requires Lists(c, h.value.at, h.value.digit - 1)
    ensures var a := Apply(g, c, lastFound, h);
            Unknowns(a.grid) == Unknowns(g) - 1 && Evolves(g, c, a.grid, a.cand)
  {
    CommitFacts(g, c, h.value.at.x, h.value.at.y, h.value.digit);
  }

  /** A region-test driver that commits fills one unknown cell. */
  lemma UniquityFillsOne(g: Board, c: Slots, lastFound: Square, v: Variant, d: int)
    requires IsBoard(g) && IsSlots(c) && Uniquity(g, c, v, d).Some?
    ensures var a := Apply(g, c, lastFound, Uniquity(g, c, v, d));
            Unknowns(a.grid) == Unknowns(g) - 1 && Evolves(g, c, a.grid, a.cand)
  {
    PlanHit(g, c, Plan(v, d));
    CommitFillsOne(g, c, lastFound, Uniquity(g, c, v, d));
  }

  /** A guess that commits fills one unknown cell. */
  lemma GuessFillsOne(g: Board, c: Slots, lastFound: Square, coin: bool)
    requires IsBoard(g) && IsSlots(c) && SlotForm(c) && Guessed(g, c, coin).Some?
    ensures var a := Apply(g, c, lastFound, Guessed(g, c, coin));
            Unknowns(a.grid) == Unknowns(g) - 1 && Evolves(g, c, a.grid, a.cand)
  {
    GuessedFacts(g, c, coin);
    CommitFillsOne(g, c, lastFound, Guessed(g, c, coin));
  }

  /** What the two deduction steps leave: the changed state, the flag, and whether one of them committed. */
  datatype Deduced = Deduced(view: View, desperate: int, hit: bool)

  /**
   * The deduction steps at retry_with_desperation, on values: a scan
   * (iterate_diagram) that stops commits its naked single; otherwise the
   * region tests (iterate_diagram_uniquity) run on the table the scan left,
   * and commit their first hit if there is one. Either exactly one unknown
   * cell is filled, or the grid is as it was and neither step has anything
   * left to commit.
   */
  function Deduce(g: Board, c: Slots, d: int, lastFound: Square, v: Variant): (p: Deduced)
    requires IsBoard(g) && IsSlots(c) && SlotForm(c)
    ensures IsBoard(p.view.grid) && IsSlots(p.view.cand) && Evolves(g, c, p.view.grid, p.view.cand)
    ensures p.hit ==> Unknowns(p.view.grid) == Unknowns(g) - 1
    ensures !p.hit ==> && p.view.grid == g && p.view.lastFound == lastFound
                       && NoNakedSingle(g, p.view.cand) && Uniquity(g, p.view.cand, v, p.desperate).None?
  {
    var sr := Scan(g, c, d, 0, 0, v);
    match sr.found
    case Some(sq) =>
      ScanFillsOne(g, c, d, v);
      Deduced(View(Place(g, sq.x, sq.y, Value(sr.cand[sq.y][sq.x])), sr.cand, sq), sr.desperate, true)
    case None =>
      ScanStalls(g, c, d, v);
      var h := Uniquity(g, sr.cand, v, sr.desperate);
      if h.Some? then
        UniquityFillsOne(g, sr.cand, lastFound, v, sr.desperate);
        EvolvesTransitive(g, c, g, sr.cand, Apply(g, sr.cand, lastFound, h).grid, Apply(g, sr.cand, lastFound, h).cand);
        Deduced(Apply(g, sr.cand, lastFound, h), if v == Legacy then 0 else sr.desperate, true)
      else
        Deduced(View(g, sr.cand, lastFound), sr.desperate, false)
  }

  // ---------------------------------------------------------------------------
  // The solve loops

  /** desperate ^= unsolved, on the two one-bit values. */
  function Toggle(a: int, b: int): (r: int)
    requires 0 <= a <= 1 && 0 <= b <= 1
    ensures 0 <= r <= 1 && (r == 1 <==> a != b)
  {
    ((a as bv1) ^ (b as bv1)) as int
  }

  /** desperate = 0 at update_answer_log (main.c). */
  method ClearDesperate(e: Engine)
    requires e.Valid()
    modifies e
    ensures e.Valid() && e.desperate == 0
    ensures e.grid == old(e.grid) && e.cand == old(e.cand) && e.errorFactor == old(e.errorFactor) && e.lastFound == old(e.lastFound)
  {
    e.desperate := 0;
  }

  /** The stall bookkeeping of both drivers: desperate ^= unsolved; error_factor += desperate. */
  method Stall(e: Engine, unsolved: int)
    requires e.Valid() && 0 <= unsolved <= 1
    modifies e
    ensures e.Valid() && e.desperate == Toggle(old(e.desperate), unsolved) && e.errorFactor == old(e.errorFactor) + e.desperate
    ensures e.grid == old(e.grid) && e.cand == old(e.cand) && e.lastFound == old(e.lastFound)
  {
    e.desperate := Toggle(e.desperate, unsolved);
    e.errorFactor := e.errorFactor + e.desperate;
  }

  /** How a run ends: is_valid_Sudoku rejected the grid (0 or -1), or the loop finished after unknown unknowns at the start. */
  datatype RunResult = Rejected(verdict: int) | Finished(unknown: int)

  /**
   * What a Current run leaves when it finishes: a solved grid, or one with
   * no naked single, no hidden single in any row, column or box, and no
   * unknown cell with exactly two candidates.
   */
  predicate CurrentStuck(g: Board, c: Slots)
    requires IsBoard(g) && IsSlots(c)
  {
    Unknowns(g) == 0 || (NoNakedSingle(g, c) && Uniquity(g, c, Current, 1).None? && NoPairFrom(g, c, 0, 0))
  }

  /** What a Legacy run leaves when it finishes: a solved grid, or one with no naked single and no hidden single in any row or column. */
  predicate LegacyStuck(g: Board, c: Slots)
    requires IsBoard(g) && IsSlots(c)
  {
    Unknowns(g) == 0 || (NoNakedSingle(g, c) && Uniquity(g, c, Legacy, 1).None?)
  }

  /**
   * The two deduction steps at retry_with_desperation, shared by both
   * drivers: iterate_diagram, then iterate_diagram_uniquity if it found
   * nothing. Either one unknown cell is filled, or nothing is left for
   * either step and the grid is as it was.
   */
  method Propagate(e: Engine) returns (r: int)
    requires e.Valid()
    modifies e, e.puzzle, e.possibilities
    ensures e.Valid() && e.errorFactor == old(e.errorFactor) && Evolves(old(e.grid), old(e.cand), e.grid, e.cand)
    ensures var p := Deduce(old(e.grid), old(e.cand), old(e.desperate), old(e.lastFound), e.variant);
            View(e.grid, e.cand, e.lastFound) == p.view && e.desperate == p.desperate && (r == 1 <==> p.hit)
    ensures r == 0 || r == 1
    ensures r == 1 ==> && Unknowns(e.grid) == old(Unknowns(e.grid)) - 1
                       && (e.variant == Current ==> e.desperate == old(e.desperate))
                       && (e.variant == Legacy && (old(e.desperate) == 0 || old(NoNakedSingle(e.grid, e.cand))) ==> e.desperate == 0)
    ensures r == 0 ==> && e.grid == old(e.grid)
                       && NoNakedSingle(e.grid, e.cand) && Uniquity(e.grid, e.cand, e.variant, e.desperate).None?
                       && SlotCount(e.cand) <= old(SlotCount(e.cand))
                       && (e.desperate != old(e.desperate) ==>
                             e.variant == Legacy && e.desperate == 0 && SlotCount(e.cand) < old(SlotCount(e.cand)))
  {
    ghost var g0, c0, d0 := e.grid, e.cand, e.desperate;
    r := e.IterateDiagram();
    if r != 0 {
      ScanFillsOne(g0, c0, d0, e.variant);
      ScanFlag(g0, c0, d0, 0, 0, e.variant);
      if e.variant == Legacy && d0 != 0 && NoNakedSingle(g0, c0) {
        ScanClearsDesperate(g0, c0, d0, 0, 0);
      }
      return 1;
    }
    ScanStalls(g0, c0, d0, e.variant);
    ghost var g1, c1, lf := e.grid, e.cand, e.lastFound;
    r := e.IterateDiagramUniquity();
    if r != 0 {
      UniquityFillsOne(g1, c1, lf, e.variant, e.desperate);
      EvolvesTransitive(g0, c0, g1, c1, e.grid, e.cand);
    }
  }

  /**
   * One pass of main.c from retry_with_desperation to the next jump. A step
   * that commits (iterate_diagram, iterate_diagram_uniquity, or the guess
   * after a stall under desperation) goes to update_answer_log, which
   * clears desperate; a stall sets desperate ^= unsolved and adds desperate
   * to error_factor, and retries iff desperate is then 1. The result says
   * whether the loop goes on.
   */
  method CurrentRound(e: Engine, coin: bool) returns (go: bool, ghost guessed: bool)
    requires e.Valid() && e.variant == Current && (e.desperate == 1 ==> HasUnknown(e.grid))
    modifies e, e.puzzle, e.possibilities
    ensures e.Valid() && (e.desperate == 1 ==> HasUnknown(e.grid)) && Evolves(old(e.grid), old(e.cand), e.grid, e.cand)
    ensures var p := Deduce(old(e.grid), old(e.cand), old(e.desperate), old(e.lastFound), Current);
            && (p.hit ==> go && !guessed && View(e.grid, e.cand, e.lastFound) == p.view && e.desperate == 0)
            && (!p.hit && !guessed ==> e.grid == old(e.grid) && e.cand == p.view.cand && e.lastFound == old(e.lastFound))
            && (guessed ==> && go && !p.hit && old(e.desperate) == 1 && HasUnknown(old(e.grid))
                            && NoNakedSingle(old(e.grid), p.view.cand) && Uniquity(old(e.grid), p.view.cand, Current, 1).None?
                            && var h := Guessed(old(e.grid), p.view.cand, coin);
                               && h.Some? && e.desperate == 0 && e.errorFactor == old(e.errorFactor)
                               && View(e.grid, e.cand, e.lastFound) == Apply(old(e.grid), p.view.cand, old(e.lastFound), h))
    ensures go ==> || (Unknowns(e.grid) == old(Unknowns(e.grid)) - 1 && e.desperate == 0 && e.errorFactor == old(e.errorFactor))
                   || (e.grid == old(e.grid) && old(e.desperate) == 0 && e.desperate == 1 && e.errorFactor == old(e.errorFactor) + 1)
    ensures !go ==> e.grid == old(e.grid) && e.errorFactor == old(e.errorFactor) && CurrentStuck(e.grid, e.cand)
    ensures !go ==> (old(e.desperate) == 1 && HasUnknown(e.grid)) || Unknowns(e.grid) == 0
  {
    guessed := false;
    var r := Propagate(e);
    if r != 0 {
      ClearDesperate(e);
      return true, false;
    }
    var tmp := e.UnsolvedSudoku();
    UnknownsPositive(e.grid);
    Stall(e, tmp);
    if e.desperate != 0 {
      return true, false;
    }
    if tmp != 0 {
      ghost var g1, c1, lf := e.grid, e.cand, e.lastFound;
      r := e.SelectiveBruteForce(coin);
      if r != 0 {
        GuessFillsOne(g1, c1, lf, coin);
        EvolvesTransitive(old(e.grid), old(e.cand), g1, c1, e.grid, e.cand);
        ClearDesperate(e);
        return true, true;
      }
      GuessedFacts(g1, c1, coin);
    }
    return false, false;
  }

  /**
   * One pass of sudoku/main.c from retry_with_desperation to the next jump.
   * A committing step goes back through update_answer_log, which leaves
   * desperate alone; a stall sets desperate ^= unsolved_Sudoku(), adds
   * desperate to error_factor, and retries iff desperate is then 1.
   * While desperate is 1 no naked single is in sight, so the engine itself
   * clears desperate on its next commit.
   */
  method LegacyRound(e: Engine) returns (go: bool)
    requires e.Valid() && e.variant == Legacy
    requires e.desperate == 1 ==> HasUnknown(e.grid) && NoNakedSingle(e.grid, e.cand)
    modifies e, e.puzzle, e.possibilities
    ensures e.Valid() && Evolves(old(e.grid), old(e.cand), e.grid, e.cand)
    ensures e.desperate == 1 ==> HasUnknown(e.grid) && NoNakedSingle(e.grid, e.cand)
    ensures var p := Deduce(old(e.grid), old(e.cand), old(e.desperate), old(e.lastFound), Legacy);
            && View(e.grid, e.cand, e.lastFound) == p.view
            && (p.hit ==> go && e.desperate == p.desperate && e.errorFactor == old(e.errorFactor))
    ensures go ==> || (Unknowns(e.grid) == old(Unknowns(e.grid)) - 1 && e.desperate == 0 && e.errorFactor == old(e.errorFactor))
                   || (&& e.grid == old(e.grid) && e.desperate == 1 && e.errorFactor == old(e.errorFactor) + 1
                       && (SlotCount(e.cand) < old(SlotCount(e.cand)) || (SlotCount(e.cand) == old(SlotCount(e.cand)) && old(e.desperate) == 0)))
    ensures !go ==> e.grid == old(e.grid) && e.errorFactor == old(e.errorFactor) && e.desperate == 0 && LegacyStuck(e.grid, e.cand)
  {
    var r := Propagate(e);
    if r != 0 {
      return true;
    }
    var tmp := e.UnsolvedSudoku();
    UnknownsPositive(e.grid);
    Stall(e, tmp);
    return e.desperate != 0;
  }

  /**
   * The start of both drivers: a fresh engine (the zeroed globals, with
   * last_found_square at (-1, -1)) loaded from the puzzle text.
   */
  method Boot(v: Variant, text: seq<seq<char>>) returns (e: Engine)
    requires |text| == N && forall y :: 0 <= y < N ==> |text[y]| == N
    ensures fresh(e) && fresh(e.puzzle) && fresh(e.possibilities) && e.Valid() && e.variant == v
    ensures forall y, x :: 0 <= y < N && 0 <= x < N ==> e.grid[y][x] == DigitOf(text[y][x])
    ensures e.desperate == 0 && e.errorFactor == 0 && e.lastFound == Square(-1, -1)
  {
    e := new Engine(v);
    Load(e, text);
  }

  /**
   * main.c after loading: stop with is_valid_Sudoku's verdict unless it is
   * 1, else count the unknown cells, set every cell's candidates, and run
   * the solve loop until it finishes. A finished run keeps every given,
   * leaves the grid solved or stuck, and its error_factor has grown by at
   * most the number of unknown cells it started with; round k of the loop
   * hands coin(k) to the guess, whether or not that round reaches it.
   */
  method RunCurrent(e: Engine, coin: nat -> bool) returns (res: RunResult)
    requires e.Valid() && e.variant == Current
    modifies e, e.puzzle, e.possibilities
    ensures e.Valid()
    ensures res.Rejected? <==> !(LinesOk(old(e.grid)) && AllBoxesOk(old(e.grid)))
    ensures res.Rejected? ==> && (res.verdict == 0 <==> !LinesOk(old(e.grid))) && (res.verdict == 0 || res.verdict == -1)
                              && unchanged(e, e.puzzle, e.possibilities)
    ensures res.Finished? ==> && res.unknown == Unknowns(old(e.grid)) && Extends(old(e.grid), e.grid)
                              && Shrinks(InitialSlots(old(e.grid)), e.cand) && Coherent(e.grid, e.cand)
                              && old(e.errorFactor) <= e.errorFactor <= old(e.errorFactor) + res.unknown
                              && CurrentStuck(e.grid, e.cand)
  {
    var verdict := e.IsValidSudoku();
    if verdict == 0 || verdict == -1 {
      return Rejected(verdict);
    }
    var unknown := e.CountUnknownSquares();
    e.InitializePossibilities();
    InitialFacts(e.grid);
    ClearDesperate(e);
    CurrentLoop(e, coin);
    return Finished(unknown);
  }

  /**
   * The solve loop of main.c from update_answer_log on, with desperate
   * just cleared: rounds until one says stop. The measure is the number of
   * unknown cells, then 1 - desperate; error_factor grows by at most one
   * per unknown cell at the start.
   */
  method CurrentLoop(e: Engine, coin: nat -> bool)
    requires e.Valid() && e.variant == Current && e.desperate == 0
    modifies e, e.puzzle, e.possibilities
    ensures e.Valid() && Evolves(old(e.grid), old(e.cand), e.grid, e.cand) && CurrentStuck(e.grid, e.cand)
    ensures old(e.errorFactor) <= e.errorFactor <= old(e.errorFactor) + Unknowns(old(e.grid))
  {
    var rounds: nat := 0;
    while true
      invariant e.Valid() && e.variant == Current && Evolves(old(e.grid), old(e.cand), e.grid, e.cand)
      invariant e.desperate == 1 ==> HasUnknown(e.grid)
      invariant old(e.errorFactor) <= e.errorFactor
      invariant e.errorFactor - old(e.errorFactor) + Unknowns(e.grid) <= Unknowns(old(e.grid)) + e.desperate
      decreases Unknowns(e.grid), 1 - e.desperate
    {
      ghost var g0, c0 := e.grid, e.cand;
      var go, _ := CurrentRound(e, coin(rounds));
      EvolvesTransitive(old(e.grid), old(e.cand), g0, c0, e.grid, e.cand);
      rounds := rounds + 1;
      if !go {
        UnknownsPositive(e.grid);
        break;
      }
    }
  }

  /**
   * sudoku/main.c after loading: the same checks and set-up, then the
   * Legacy solve loop, which has no guess step. A finished run keeps every
   * given, leaves the grid solved or stuck, and error_factor never drops.
   */
  method RunLegacy(e: Engine) returns (res: RunResult)
    requires e.Valid() && e.variant == Legacy && e.desperate == 0
    modifies e, e.puzzle, e.possibilities
    ensures e.Valid()
    ensures res.Rejected? <==> !(LinesOk(old(e.grid)) && AllBoxesOk(old(e.grid)))
    ensures res.Rejected? ==> && (res.verdict == 0 <==> !LinesOk(old(e.grid))) && (res.verdict == 0 || res.verdict == -1)
                              && unchanged(e, e.puzzle, e.possibilities)
    ensures res.Finished? ==> && res.unknown == Unknowns(old(e.grid)) && Extends(old(e.grid), e.grid)
                              && Shrinks(InitialSlots(old(e.grid)), e.cand) && Coherent(e.grid, e.cand)
                              && old(e.errorFactor) <= e.errorFactor && e.desperate == 0
                              && LegacyStuck(e.grid, e.cand)
  {
    var verdict := e.IsValidSudoku();
    if verdict == 0 || verdict == -1 {
      return Rejected(verdict);
    }
    var unknown := e.CountUnknownSquares();
    e.InitializePossibilities();
    InitialFacts(e.grid);
    LegacyLoop(e);
    return Finished(unknown);
  }

  /**
   * The solve loop of sudoku/main.c: rounds until one says stop. The
   * measure is the number of unknown cells, then the number of surviving
   * slots, then 1 - desperate.
   */
  method LegacyLoop(e: Engine)
    requires e.Valid() && e.variant == Legacy && e.desperate == 0
    modifies e, e.puzzle, e.possibilities
    ensures e.Valid() && Evolves(old(e.grid), old(e.cand), e.grid, e.cand) && LegacyStuck(e.grid, e.cand)
    ensures old(e.errorFactor) <= e.errorFactor && e.desperate == 0
  {
    while true
      invariant e.Valid() && e.variant == Legacy && Evolves(old(e.grid), old(e.cand), e.grid, e.cand)
      invariant e.desperate == 1 ==> HasUnknown(e.grid) && NoNakedSingle(e.grid, e.cand)
      invariant old(e.errorFactor) <= e.errorFactor
      decreases Unknowns(e.grid), SlotCount(e.cand), 1 - e.desperate
    {
      ghost var g0, c0 := e.grid, e.cand;
      var go := LegacyRound(e);
      EvolvesTransitive(old(e.grid), old(e.cand), g0, c0, e.grid, e.cand);
      if !go {
        break;
      }
    }
  }
}
