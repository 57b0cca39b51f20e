/**
 * What the propagation passes compute, as pure functions of the grid, the
 * candidate table and the desperate flag: the trial of one digit
 * (is_valid_move), the elimination of one cell, the naked-single scan
 * (iterate_diagram), the hidden-single tests (the *_uniquity_test
 * functions and the order in which iterate_diagram_uniquity tries them)
 * and the two-candidate guess (selective_brute_force).
 */
module Deduction {
  import opened Grid
  import opened Candidates

  datatype Option<T> = None | Some(value: T)

  /**
   * The two versions of the engine: Current is sudoku.h with main.c,
   * Legacy is sudoku/sudoku.h with sudoku/main.c.
   */
  datatype Variant = Current | Legacy

  /** Cell a comes before cell b in row-major order. */
  predicate Before(a: Square, b: Square) {
    a.y < b.y || (a.y == b.y && a.x < b.x)
  }

  /** The cells not before (x, y) are (x, y) and the cells not before (x + 1, y). */
  lemma BeforeNext(x: int, y: int)
    ensures forall x', y' :: !Before(Square(x', y'), Square(x, y)) <==>
              (x' == x && y' == y) || !Before(Square(x', y'), Square(x + 1, y))
  {
  }

  /** On the board, the cells not before (N, y) are the cells not before (0, y + 1). */
  lemma BeforeRowEnd(y: int)
    ensures forall x', y' :: 0 <= x' < N ==> (!Before(Square(x', y'), Square(N, y)) <==> !Before(Square(x', y'), Square(0, y + 1)))
  {
  }

  // ---------------------------------------------------------------------------
  // Trial and revert (is_valid_move)

  /**
   * Writing t into (x, y) keeps its row and column repeat-free, and also its
   * box when the desperate flag d is set.
   */
  predicate Passes(g: Board, x: int, y: int, t: int, d: int)
    requires IsBoard(g) && 0 <= x < N && 0 <= y < N
  {
    var g' := Place(g, x, y, t);
    NoRepeat(g', Cells(Row(y))) && NoRepeat(g', Cells(Column(x))) &&
    (d != 0 ==> NoRepeat(g', Cells(BoxOf(x, y))))
  }

  /** The slots of one cell and the desperate flag after some trials. */
  datatype Elim = Elim(slots: seq<int>, desperate: int)

  /**
   * One trial of digit t on cell (x, y) whose slots are s: a slot already 0
   * is left alone; a surviving digit that fails the enforced tests is
   * eliminated, and in the Legacy engine the failure also clears the flag.
   */
  function Trial(g: Board, s: seq<int>, x: int, y: int, t: int, d: int, v: Variant): (e: Elim)
    requires IsBoard(g) && 0 <= x < N && 0 <= y < N && 1 <= t <= |s|
  {
    if s[t - 1] == 0 then Elim(s, d)
    else if Passes(g, x, y, t, d) then Elim(s, d)
    else Elim(s[t - 1 := 0], if v == Legacy then 0 else d)
  }

  /** The trials of digits t, t-1, ..., 1 in that order, as iterate_diagram runs them. */
  function EliminateCell(g: Board, s: seq<int>, x: int, y: int, t: int, d: int, v: Variant): (e: Elim)
    requires IsBoard(g) && 0 <= x < N && 0 <= y < N && 0 <= t <= |s|
    ensures |e.slots| == |s|
    decreases t
  {
    if t == 0 then Elim(s, d)
    else
      var e := Trial(g, s, x, y, t, d, v);
      EliminateCell(g, e.slots, x, y, t - 1, e.desperate, v)
  }

  /**
   * The flag under which every surviving slot is known to have passed: the
   * Current engine keeps its flag, while a Legacy failure may clear it
   * midway, so only the row and column tests are guaranteed.
   */
  function Enforced(v: Variant, d: int): int {
    if v == Current then d else 0
  }

  lemma PassesWeakens(g: Board, x: int, y: int, t: int, d: int)
    requires IsBoard(g) && 0 <= x < N && 0 <= y < N
    ensures Passes(g, x, y, t, d) ==> Passes(g, x, y, t, 0)
  {
  }

  /**
   * Eliminating a cell only zeroes slots below t, so the row of slots only
   * shrinks and keeps its 0-or-i+1 form.
   */
  lemma {:induction false} EliminateKeeps(g: Board, s: seq<int>, x: int, y: int, t: int, d: int, v: Variant)
    requires IsBoard(g) && 0 <= x < N && 0 <= y < N && 0 <= t <= |s|
    ensures var e := EliminateCell(g, s, x, y, t, d, v);
            && CellShrinks(s, e.slots)
            && (forall i :: t <= i < |s| ==> e.slots[i] == s[i])
            && (CellForm(s) ==> CellForm(e.slots))
    decreases t
  {
    if t > 0 {
      var e1 := Trial(g, s, x, y, t, d, v);
      EliminateKeeps(g, e1.slots, x, y, t - 1, e1.desperate, v);
    }
  }

  /**
   * The flag is unchanged unless a Legacy failure cleared it, in which case a
   * slot was lost; a Legacy flag that is still set means nothing was lost.
   */
  lemma {:induction false} EliminateFlagFacts(g: Board, s: seq<int>, x: int, y: int, t: int, d: int, v: Variant)
    requires IsBoard(g) && 0 <= x < N && 0 <= y < N && 0 <= t <= |s|
    ensures var e := EliminateCell(g, s, x, y, t, d, v);
            && (e.desperate == d || (v == Legacy && e.desperate == 0 && CellLoses(s, e.slots)))
            && (v == Legacy && d != 0 && e.desperate != 0 ==> e.slots == s)
    decreases t
  {
    if t > 0 {
      var e1 := Trial(g, s, x, y, t, d, v);
      EliminateFlagFacts(g, e1.slots, x, y, t - 1, e1.desperate, v);
      EliminateKeeps(g, e1.slots, x, y, t - 1, e1.desperate, v);
      var e := EliminateCell(g, s, x, y, t, d, v);
      assert e == EliminateCell(g, e1.slots, x, y, t - 1, e1.desperate, v);
      if e1.desperate != d {
        assert s[t - 1] != 0 && e.slots[t - 1] == 0;
      }
    }
  }

  /**
   * A slot below t that survives elimination was non-zero before and passed
   * the row and column tests, and the box test too in the Current engine
   * when the flag was set.
   */
  lemma {:induction false} EliminateSurvivors(g: Board, s: seq<int>, x: int, y: int, t: int, d: int, v: Variant)
    requires IsBoard(g) && 0 <= x < N && 0 <= y < N && 0 <= t <= |s|
    ensures var e := EliminateCell(g, s, x, y, t, d, v);
            forall i :: 0 <= i < t && e.slots[i] != 0 ==> s[i] != 0 && Passes(g, x, y, i + 1, Enforced(v, d))
    decreases t
  {
    if t > 0 {
      var e1 := Trial(g, s, x, y, t, d, v);
      EliminateSurvivors(g, e1.slots, x, y, t - 1, e1.desperate, v);
      EliminateKeeps(g, e1.slots, x, y, t - 1, e1.desperate, v);
      var e := EliminateCell(g, s, x, y, t, d, v);
      assert e == EliminateCell(g, e1.slots, x, y, t - 1, e1.desperate, v);
      assert Enforced(v, e1.desperate) == Enforced(v, d);
      forall i | 0 <= i < t && e.slots[i] != 0
        ensures s[i] != 0 && Passes(g, x, y, i + 1, Enforced(v, d))
      {
        if i == t - 1 {
          PassesWeakens(g, x, y, t, d);
        } else {
          assert e1.slots[i] == s[i];
        }
      }
    }
  }

  /**
   * A slot below t that was non-zero and passes every test enforced under
   * the flag d survives elimination.
   */
  lemma {:induction false} EliminateComplete(g: Board, s: seq<int>, x: int, y: int, t: int, d: int, v: Variant)
    requires IsBoard(g) && 0 <= x < N && 0 <= y < N && 0 <= t <= |s|
    ensures var e := EliminateCell(g, s, x, y, t, d, v);
            forall i :: 0 <= i < t && s[i] != 0 && Passes(g, x, y, i + 1, d) ==> e.slots[i] != 0
    decreases t
  {
    if t > 0 {
      var e1 := Trial(g, s, x, y, t, d, v);
      EliminateComplete(g, e1.slots, x, y, t - 1, e1.desperate, v);
      EliminateKeeps(g, e1.slots, x, y, t - 1, e1.desperate, v);
      var e := EliminateCell(g, s, x, y, t, d, v);
      assert e1.desperate == d || e1.desperate == 0;
      forall i | 0 <= i < t - 1 && s[i] != 0 && Passes(g, x, y, i + 1, d)
        ensures e.slots[i] != 0
      {
        PassesWeakens(g, x, y, i + 1, d);
        assert e1.slots[i] == s[i];
      }
    }
  }

  /** The shape facts at t = N. */
  lemma EliminateShape(g: Board, s: seq<int>, x: int, y: int, d: int, v: Variant)
    requires IsBoard(g) && 0 <= x < N && 0 <= y < N && |s| == N
    ensures var e := EliminateCell(g, s, x, y, N, d, v);
            CellShrinks(s, e.slots) && (CellForm(s) ==> CellForm(e.slots))
  {
    EliminateKeeps(g, s, x, y, N, d, v);
  }

  /** The flag facts at t = N. */
  lemma EliminateFlag(g: Board, s: seq<int>, x: int, y: int, d: int, v: Variant)
    requires IsBoard(g) && 0 <= x < N && 0 <= y < N && |s| == N
    ensures var e := EliminateCell(g, s, x, y, N, d, v);
            && (e.desperate == d || (v == Legacy && e.desperate == 0 && CellLoses(s, e.slots)))
            && (v == Legacy && d != 0 && e.desperate != 0 ==> e.slots == s)
  {
    EliminateFlagFacts(g, s, x, y, N, d, v);
  }

  /**
   * One surviving slot passed the row and column tests, and also the box
   * test when the Current engine ran desperate.
   */
  lemma EliminateSound(g: Board, s: seq<int>, x: int, y: int, d: int, v: Variant, i: int)
    requires IsBoard(g) && 0 <= x < N && 0 <= y < N && |s| == N && 0 <= i < N
    ensures EliminateCell(g, s, x, y, N, d, v).slots[i] != 0 ==> Passes(g, x, y, i + 1, Enforced(v, d))
  {
    EliminateSurvivors(g, s, x, y, N, d, v);
  }

  // ---------------------------------------------------------------------------
  // The naked-single scan (iterate_diagram)

  /** The table and the flag at the end of a scan, and the cell it stopped at, if any. */
  datatype ScanResult = ScanResult(cand: Slots, desperate: int, found: Option<Square>)

  /**
   * iterate_diagram from cell (x, y) on: every unknown cell is eliminated in
   * turn, and the scan stops at the first one left with a single candidate.
   */
  function Scan(g: Board, c: Slots, d: int, x: int, y: int, v: Variant): (r: ScanResult)
    requires IsBoard(g) && IsSlots(c) && 0 <= x <= N && 0 <= y <= N
    ensures IsSlots(r.cand)
    decreases N - y, N - x
  {
    if y == N then ScanResult(c, d, None)
    else if x == N then Scan(g, c, d, 0, y + 1, v)
    else if g[y][x] != 0 then Scan(g, c, d, x + 1, y, v)
    else
      var e := EliminateCell(g, c[y][x], x, y, N, d, v);
      var c' := SetCell(c, x, y, e.slots);
      if Options(e.slots) == 1 then ScanResult(c', e.desperate, Some(Square(x, y)))
      else Scan(g, c', e.desperate, x + 1, y, v)
  }

  /** The digit held by the first surviving slot (extract_possibility). */
  function Value(s: seq<int>): int
    requires FirstOption(s, 0) < |s|
  {
    s[FirstOption(s, 0)]
  }

  /** Some slot that was non-zero in c0 is zero in c1. */
  predicate Loses(c0: Slots, c1: Slots)
    requires IsSlots(c0) && IsSlots(c1)
  {
    exists y, x, i :: 0 <= y < N && 0 <= x < N && 0 <= i < N && c0[y][x][i] != 0 && c1[y][x][i] == 0
  }

  /** A slot lost after a step that only cleared slots is lost overall. */
  lemma LosesThen(c0: Slots, c1: Slots, c2: Slots)
    requires IsSlots(c0) && IsSlots(c1) && IsSlots(c2)
    requires Shrinks(c0, c1) && Loses(c1, c2)
    ensures Loses(c0, c2)
  {
    var y, x, i :| 0 <= y < N && 0 <= x < N && 0 <= i < N && c1[y][x][i] != 0 && c2[y][x][i] == 0;
    assert c0[y][x][i] != 0;
  }

  /** No unknown cell from (x, y) on has exactly one candidate. */
  predicate NoNakedFrom(g: Board, c: Slots, x: int, y: int)
    requires IsBoard(g) && IsSlots(c)
  {
    forall y', x' :: 0 <= y' < N && 0 <= x' < N && !Before(Square(x', y'), Square(x, y)) && g[y'][x'] == 0 ==>
      Options(c[y'][x']) != 1
  }

  /** No unknown cell has exactly one candidate: nothing for iterate_diagram to commit. */
  predicate NoNakedSingle(g: Board, c: Slots)
    requires IsBoard(g) && IsSlots(c)
  {
    NoNakedFrom(g, c, 0, 0)
  }

  /** The table only shrinks over a scan, and keeps its 0-or-i+1 form. */
  lemma {:induction false} ScanShrinks(g: Board, c: Slots, d: int, x: int, y: int, v: Variant)
    requires IsBoard(g) && IsSlots(c) && 0 <= x <= N && 0 <= y <= N
    ensures var r := Scan(g, c, d, x, y, v);
            Shrinks(c, r.cand) && (SlotForm(c) ==> SlotForm(r.cand))
    decreases N - y, N - x
  {
    if y == N {
    } else if x == N {
      ScanShrinks(g, c, d, 0, y + 1, v);
    } else if g[y][x] != 0 {
      ScanShrinks(g, c, d, x + 1, y, v);
    } else {
      var e := EliminateCell(g, c[y][x], x, y, N, d, v);
      var c' := SetCell(c, x, y, e.slots);
      EliminateShrinks(g, c, x, y, d, v);
      if Options(e.slots) != 1 {
        ScanShrinks(g, c', e.desperate, x + 1, y, v);
        ShrinksTransitive(c, c', Scan(g, c', e.desperate, x + 1, y, v).cand);
      }
    }
  }

  /** Eliminating on one cell only clears slots of the table, and keeps its 0-or-i+1 form. */
  lemma EliminateShrinks(g: Board, c: Slots, x: int, y: int, d: int, v: Variant)
    requires IsBoard(g) && IsSlots(c) && 0 <= x < N && 0 <= y < N
    ensures var c' := SetCell(c, x, y, EliminateCell(g, c[y][x], x, y, N, d, v).slots);
            Shrinks(c, c') && (SlotForm(c) ==> SlotForm(c'))
  {
    EliminateShape(g, c[y][x], x, y, d, v);
  }

  /** Cells c0 and c1 agree on every filled cell and on every cell before (x, y). */
  predicate KeepsBefore(g: Board, c0: Slots, c1: Slots, x: int, y: int)
    requires IsBoard(g) && IsSlots(c0) && IsSlots(c1)
  {
    forall y', x' :: 0 <= y' < N && 0 <= x' < N && (g[y'][x'] != 0 || Before(Square(x', y'), Square(x, y))) ==>
      c1[y'][x'] == c0[y'][x']
  }

  /** A scan from (x, y) changes only unknown cells from (x, y) on. */
  lemma {:induction false} ScanKeeps(g: Board, c: Slots, d: int, x: int, y: int, v: Variant)
    requires IsBoard(g) && IsSlots(c) && 0 <= x <= N && 0 <= y <= N
    ensures KeepsBefore(g, c, Scan(g, c, d, x, y, v).cand, x, y)
    decreases N - y, N - x
  {
    if y == N {
    } else if x == N {
      ScanKeeps(g, c, d, 0, y + 1, v);
    } else if g[y][x] != 0 {
      ScanKeeps(g, c, d, x + 1, y, v);
    } else {
      var e := EliminateCell(g, c[y][x], x, y, N, d, v);
      var c' := SetCell(c, x, y, e.slots);
      if Options(e.slots) != 1 {
        ScanKeeps(g, c', e.desperate, x + 1, y, v);
      }
    }
  }

  /** The flag survives a scan unless, in the Legacy engine, a failed trial cleared it and a slot was lost. */
  lemma {:induction false} ScanFlag(g: Board, c: Slots, d: int, x: int, y: int, v: Variant)
    requires IsBoard(g) && IsSlots(c) && 0 <= x <= N && 0 <= y <= N
    ensures var r := Scan(g, c, d, x, y, v);
            r.desperate == d || (v == Legacy && r.desperate == 0 && Loses(c, r.cand))
    decreases N - y, N - x
  {
    if y == N {
    } else if x == N {
      ScanFlag(g, c, d, 0, y + 1, v);
    } else if g[y][x] != 0 {
      ScanFlag(g, c, d, x + 1, y, v);
    } else {
      var e := EliminateCell(g, c[y][x], x, y, N, d, v);
      EliminateFlag(g, c[y][x], x, y, d, v);
      var c' := SetCell(c, x, y, e.slots);
      if e.desperate != d {
        CellLossLoses(c, x, y, e.slots);
      }
      if Options(e.slots) != 1 {
        ScanFlag(g, c', e.desperate, x + 1, y, v);
        ScanShrinks(g, c', e.desperate, x + 1, y, v);
        EliminateShrinks(g, c, x, y, d, v);
        var r := Scan(g, c', e.desperate, x + 1, y, v);
        FlagThen(c, c', r.cand, d, e.desperate, r.desperate, v);
        assert r == Scan(g, c, d, x, y, v);
      }
    }
  }

  /** A slot a cell loses is lost by the whole table. */
  lemma CellLossLoses(c: Slots, x: int, y: int, s: seq<int>)
    requires IsSlots(c) && 0 <= x < N && 0 <= y < N && |s| == N && CellLoses(c[y][x], s)
    ensures Loses(c, SetCell(c, x, y, s))
  {
    var i :| 0 <= i < N && c[y][x][i] != 0 && s[i] == 0;
    assert SetCell(c, x, y, s)[y][x][i] == 0;
  }

  /** The flag property composes over two steps that only clear slots. */
  lemma FlagThen(c0: Slots, c1: Slots, c2: Slots, d0: int, d1: int, d2: int, v: Variant)
    requires IsSlots(c0) && IsSlots(c1) && IsSlots(c2) && Shrinks(c0, c1) && Shrinks(c1, c2)
    requires d1 == d0 || (v == Legacy && d1 == 0 && Loses(c0, c1))
    requires d2 == d1 || (v == Legacy && d2 == 0 && Loses(c1, c2))
    ensures d2 == d0 || (v == Legacy && d2 == 0 && Loses(c0, c2))
  {
    if d2 != d0 {
      if d1 != d0 {
        var y, x, i :| 0 <= y < N && 0 <= x < N && 0 <= i < N && c0[y][x][i] != 0 && c1[y][x][i] == 0;
        assert c2[y][x][i] == 0;
      } else {
        LosesThen(c0, c1, c2);
      }
    }
  }

  /** A cell left with a single candidate by elimination holds the singleton of a digit that passed. */
  lemma FoundHere(g: Board, c: Slots, x: int, y: int, d: int, v: Variant)
    requires IsBoard(g) && IsSlots(c) && 0 <= x < N && 0 <= y < N && CellForm(c[y][x]) && g[y][x] == 0
    requires Options(EliminateCell(g, c[y][x], x, y, N, d, v).slots) == 1
    ensures NakedSingle(g, SetCell(c, x, y, EliminateCell(g, c[y][x], x, y, N, d, v).slots), Square(x, y), Enforced(v, d))
  {
    var s := c[y][x];
    var t := EliminateCell(g, s, x, y, N, d, v).slots;
    EliminateShape(g, s, x, y, d, v);
    SingleOptionIsSingleton(t);
    var i := FirstOption(t, 0);
    EliminateSound(g, s, x, y, d, v, i);
    assert Value(t) == i + 1;
    NakedSingleAt(g, c, x, y, t, Enforced(v, d));
  }

  /** Writing the slots t of a naked single into an unknown cell makes that cell a NakedSingle. */
  lemma NakedSingleAt(g: Board, c: Slots, x: int, y: int, t: seq<int>, f: int)
    requires IsBoard(g) && IsSlots(c) && 0 <= x < N && 0 <= y < N && |t| == N && g[y][x] == 0
    requires Options(t) == 1 && FirstOption(t, 0) < N && t == Singleton(Value(t)) && Passes(g, x, y, Value(t), f)
    ensures NakedSingle(g, SetCell(c, x, y, t), Square(x, y), f)
  {
    assert SetCell(c, x, y, t)[y][x] == t;
  }

  /**
   * The unknown cell sq is left with a single candidate, which passed the row
   * and column tests (and the box test when f is set), and its slots are the
   * singleton of that candidate.
   */
  predicate NakedSingle(g: Board, c: Slots, sq: Square, f: int)
    requires IsBoard(g) && IsSlots(c) && OnBoard(sq)
  {
    && g[sq.y][sq.x] == 0 && Options(c[sq.y][sq.x]) == 1 && FirstOption(c[sq.y][sq.x], 0) < N
    && Passes(g, sq.x, sq.y, Value(c[sq.y][sq.x]), f)
    && c[sq.y][sq.x] == Singleton(Value(c[sq.y][sq.x]))
  }

  /**
   * The cell a scan stopped at, if any, is an unknown cell from (x, y) on,
   * left with a single candidate that passed the tests enforced under f;
   * its slots are the singleton of that candidate.
   */
  predicate FoundFrom(g: Board, r: ScanResult, x: int, y: int, f: int)
    requires IsBoard(g) && IsSlots(r.cand)
  {
    r.found.Some? ==> OnBoard(r.found.value) && !Before(r.found.value, Square(x, y)) && NakedSingle(g, r.cand, r.found.value, f)
  }

  /** Stepping back over cell (x, y), where the scan did not stop. */
  lemma FoundFromStep(g: Board, r: ScanResult, x: int, y: int, f: int)
    requires IsBoard(g) && IsSlots(r.cand) && FoundFrom(g, r, x + 1, y, f)
    ensures FoundFrom(g, r, x, y, f)
  {
    BeforeNext(x, y);
  }

  /** Stepping back from the start of row y + 1 to the end of row y. */
  lemma FoundFromRowEnd(g: Board, r: ScanResult, y: int, f: int)
    requires IsBoard(g) && IsSlots(r.cand) && FoundFrom(g, r, 0, y + 1, f)
    ensures FoundFrom(g, r, N, y, f)
  {
    BeforeRowEnd(y);
  }

  /** The Current engine never changes its flag while eliminating, so the enforced tests stay the same for the rest of a scan. */
  lemma EnforcedStays(g: Board, s: seq<int>, x: int, y: int, d: int, v: Variant)
    requires IsBoard(g) && 0 <= x < N && 0 <= y < N && |s| == N
    ensures Enforced(v, EliminateCell(g, s, x, y, N, d, v).desperate) == Enforced(v, d)
  {
    EliminateFlag(g, s, x, y, d, v);
  }

  /**
   * A scan of a table in 0-or-i+1 form stops only at a naked single from
   * (x, y) on, whose digit passed the row and column tests, and the box test
   * too when the Current engine scans desperate.
   */
  lemma {:induction false} ScanFound(g: Board, c: Slots, d: int, x: int, y: int, v: Variant)
    requires IsBoard(g) && IsSlots(c) && SlotForm(c) && 0 <= x <= N && 0 <= y <= N
    ensures FoundFrom(g, Scan(g, c, d, x, y, v), x, y, Enforced(v, d))
    decreases N - y, N - x
  {
    var f := Enforced(v, d);
    if y == N {
    } else if x == N {
      ScanFound(g, c, d, 0, y + 1, v);
      FoundFromRowEnd(g, Scan(g, c, d, 0, y + 1, v), y, f);
    } else if g[y][x] != 0 {
      ScanFound(g, c, d, x + 1, y, v);
      FoundFromStep(g, Scan(g, c, d, x + 1, y, v), x, y, f);
    } else {
      var e := EliminateCell(g, c[y][x], x, y, N, d, v);
      var c' := SetCell(c, x, y, e.slots);
      if Options(e.slots) == 1 {
        FoundHere(g, c, x, y, d, v);
        assert Scan(g, c, d, x, y, v) == ScanResult(c', e.desperate, Some(Square(x, y)));
      } else {
        EliminateKeepsForm(g, c, x, y, d, v);
        EnforcedStays(g, c[y][x], x, y, d, v);
        ScanFound(g, c', e.desperate, x + 1, y, v);
        FoundFromStep(g, Scan(g, c', e.desperate, x + 1, y, v), x, y, f);
      }
    }
  }

  /** Eliminating on one cell keeps the 0-or-i+1 form of the whole table. */
  lemma EliminateKeepsForm(g: Board, c: Slots, x: int, y: int, d: int, v: Variant)
    requires IsBoard(g) && IsSlots(c) && SlotForm(c) && 0 <= x < N && 0 <= y < N
    ensures SlotForm(SetCell(c, x, y, EliminateCell(g, c[y][x], x, y, N, d, v).slots))
  {
    EliminateShape(g, c[y][x], x, y, d, v);
  }

  /**
   * The cell a scan stopped at is the first unknown cell from (x, y) on that
   * has a single candidate; a scan that stopped nowhere leaves no such cell.
   */
  predicate FirstNakedFrom(g: Board, r: ScanResult, x: int, y: int)
    requires IsBoard(g) && IsSlots(r.cand)
  {
    match r.found
    case Some(sq) =>
      forall y', x' :: (0 <= y' < N && 0 <= x' < N && !Before(Square(x', y'), Square(x, y)) &&
                        Before(Square(x', y'), sq) && g[y'][x'] == 0) ==> Options(r.cand[y'][x']) != 1
    case None =>
      NoNakedFrom(g, r.cand, x, y)
  }

  /** Stepping back over cell (x, y), which is filled or has more or fewer than one candidate. */
  lemma FirstNakedStep(g: Board, r: ScanResult, x: int, y: int)
    requires IsBoard(g) && IsSlots(r.cand) && 0 <= x < N && 0 <= y < N
    requires FirstNakedFrom(g, r, x + 1, y) && (g[y][x] == 0 ==> Options(r.cand[y][x]) != 1)
    ensures FirstNakedFrom(g, r, x, y)
  {
    BeforeNext(x, y);
  }

  /** Stepping back from the start of row y + 1 to the end of row y. */
  lemma FirstNakedRowEnd(g: Board, r: ScanResult, y: int)
    requires IsBoard(g) && IsSlots(r.cand)
    requires FirstNakedFrom(g, r, 0, y + 1)
    ensures FirstNakedFrom(g, r, N, y)
  {
    BeforeRowEnd(y);
  }

  /**
   * A scan stops at the first unknown cell from (x, y) on that is left with a
   * single candidate; one that finds nothing leaves no such cell.
   */
  lemma {:induction false} ScanFirst(g: Board, c: Slots, d: int, x: int, y: int, v: Variant)
    requires IsBoard(g) && IsSlots(c) && 0 <= x <= N && 0 <= y <= N
    ensures FirstNakedFrom(g, Scan(g, c, d, x, y, v), x, y)
    decreases N - y, N - x
  {
    if y == N {
    } else if x == N {
      ScanFirst(g, c, d, 0, y + 1, v);
      FirstNakedRowEnd(g, Scan(g, c, d, 0, y + 1, v), y);
    } else if g[y][x] != 0 {
      ScanFirst(g, c, d, x + 1, y, v);
      FirstNakedStep(g, Scan(g, c, d, x + 1, y, v), x, y);
    } else {
      var e := EliminateCell(g, c[y][x], x, y, N, d, v);
      var c' := SetCell(c, x, y, e.slots);
      if Options(e.slots) != 1 {
        ScanFirst(g, c', e.desperate, x + 1, y, v);
        ScanKeeps(g, c', e.desperate, x + 1, y, v);
        var r := Scan(g, c', e.desperate, x + 1, y, v);
        assert r.cand[y][x] == e.slots;
        FirstNakedStep(g, r, x, y);
      } else {
        var r := Scan(g, c, d, x, y, v);
        assert r.found == Some(Square(x, y));
      }
    }
  }

  /** The cells after the one a scan stops at are untouched. */
  lemma {:induction false} ScanAfter(g: Board, c: Slots, d: int, x: int, y: int, v: Variant)
    requires IsBoard(g) && IsSlots(c) && 0 <= x <= N && 0 <= y <= N
    ensures var r := Scan(g, c, d, x, y, v);
            r.found.Some? ==>
              && OnBoard(r.found.value) && !Before(r.found.value, Square(x, y))
              && forall y', x' :: 0 <= y' < N && 0 <= x' < N && Before(r.found.value, Square(x', y')) ==>
                   r.cand[y'][x'] == c[y'][x']
    decreases N - y, N - x
  {
    if y == N {
    } else if x == N {
      ScanAfter(g, c, d, 0, y + 1, v);
    } else if g[y][x] != 0 {
      ScanAfter(g, c, d, x + 1, y, v);
    } else {
      var e := EliminateCell(g, c[y][x], x, y, N, d, v);
      var c' := SetCell(c, x, y, e.slots);
      if Options(e.slots) != 1 {
        ScanAfter(g, c', e.desperate, x + 1, y, v);
      }
    }
  }

  /**
   * In the Legacy engine, a scan that starts desperate with no naked single
   * in sight can only commit a cell after some trial failed, and a failed
   * trial clears the flag; so a committing scan ends with the flag clear.
   */
  lemma {:induction false} ScanClearsDesperate(g: Board, c: Slots, d: int, x: int, y: int)
    requires IsBoard(g) && IsSlots(c) && 0 <= x <= N && 0 <= y <= N
    requires d != 0 && NoNakedFrom(g, c, x, y)
    ensures var r := Scan(g, c, d, x, y, Legacy);
            r.found.Some? ==> r.desperate == 0
    decreases N - y, N - x
  {
    if y == N {
    } else if x == N {
      ScanClearsDesperate(g, c, d, 0, y + 1);
    } else if g[y][x] != 0 {
      ScanClearsDesperate(g, c, d, x + 1, y);
    } else {
      var e := EliminateCell(g, c[y][x], x, y, N, d, Legacy);
      EliminateFlag(g, c[y][x], x, y, d, Legacy);
      var c' := SetCell(c, x, y, e.slots);
      if e.desperate != 0 {
        assert NoNakedFrom(g, c', x + 1, y);
        ScanClearsDesperate(g, c', e.desperate, x + 1, y);
      } else if Options(e.slots) != 1 {
        ScanFlag(g, c', e.desperate, x + 1, y, Legacy);
      }
    }
  }

  /** A cell whose slots have the 0-or-i+1 form and exactly one survivor is the singleton of its value. */
  lemma SingleOptionIsSingleton(s: seq<int>)
    requires |s| == N && CellForm(s) && Options(s) == 1
    ensures FirstOption(s, 0) < |s| && s == Singleton(Value(s))
  {
    OptionsOne(s);
  }

  // ---------------------------------------------------------------------------
  // Soundness of what a scan leaves behind

  /**
   * Every surviving candidate of the unknown cell (x, y) passes the row and
   * column tests, and the box test when f is set.
   */
  predicate CellSound(g: Board, s: seq<int>, x: int, y: int, f: int)
    requires IsBoard(g) && 0 <= x < N && 0 <= y < N
  {
    forall i :: 0 <= i < |s| && s[i] != 0 ==> Passes(g, x, y, i + 1, f)
  }

  /** Every unknown cell from (x, y) on, in row-major order, is CellSound. */
  predicate SoundFrom(g: Board, c: Slots, x: int, y: int, f: int)
    requires IsBoard(g) && IsSlots(c) && 0 <= x <= N && 0 <= y <= N
    decreases N - y, N - x
  {
    if y == N then true
    else if x == N then SoundFrom(g, c, 0, y + 1, f)
    else (g[y][x] == 0 ==> CellSound(g, c[y][x], x, y, f)) && SoundFrom(g, c, x + 1, y, f)
  }

  /** Every unknown cell is CellSound: what a full scan that commits nothing leaves. */
  predicate Sound(g: Board, c: Slots, f: int)
    requires IsBoard(g) && IsSlots(c)
  {
    forall y, x :: 0 <= y < N && 0 <= x < N && g[y][x] == 0 ==> CellSound(g, c[y][x], x, y, f)
  }

  /** Every unknown cell not before (x, y) is CellSound: the meaning of SoundFrom(x, y). */
  predicate AllSoundFrom(g: Board, c: Slots, x: int, y: int, f: int)
    requires IsBoard(g) && IsSlots(c)
  {
    forall y', x' :: 0 <= y' < N && 0 <= x' < N && !Before(Square(x', y'), Square(x, y)) && g[y'][x'] == 0 ==>
      CellSound(g, c[y'][x'], x', y', f)
  }

  /** SoundFrom(x, y) says exactly that every unknown cell not before (x, y) is CellSound. */
  lemma SoundFromMeans(g: Board, c: Slots, x: int, y: int, f: int)
    requires IsBoard(g) && IsSlots(c) && 0 <= x <= N && 0 <= y <= N
    ensures SoundFrom(g, c, x, y, f) <==> AllSoundFrom(g, c, x, y, f)
  {
    if SoundFrom(g, c, x, y, f) {
      SoundFromGives(g, c, x, y, f);
    }
    if AllSoundFrom(g, c, x, y, f) {
      SoundFromOf(g, c, x, y, f);
    }
  }

  lemma {:induction false} SoundFromGives(g: Board, c: Slots, x: int, y: int, f: int)
    requires IsBoard(g) && IsSlots(c) && 0 <= x <= N && 0 <= y <= N && SoundFrom(g, c, x, y, f)
    ensures AllSoundFrom(g, c, x, y, f)
    decreases N - y, N - x
  {
    if y == N {
    } else if x == N {
      SoundFromGives(g, c, 0, y + 1, f);
      BeforeRowEnd(y);
    } else {
      SoundFromGives(g, c, x + 1, y, f);
      BeforeNext(x, y);
    }
  }

  lemma {:induction false} SoundFromOf(g: Board, c: Slots, x: int, y: int, f: int)
    requires IsBoard(g) && IsSlots(c) && 0 <= x <= N && 0 <= y <= N && AllSoundFrom(g, c, x, y, f)
    ensures SoundFrom(g, c, x, y, f)
    decreases N - y, N - x
  {
    if y == N {
    } else if x == N {
      BeforeRowEnd(y);
      SoundFromOf(g, c, 0, y + 1, f);
    } else {
      BeforeNext(x, y);
      SoundFromOf(g, c, x + 1, y, f);
    }
  }

  lemma EliminateCellSound(g: Board, s: seq<int>, x: int, y: int, d: int, v: Variant)
    requires IsBoard(g) && 0 <= x < N && 0 <= y < N && |s| == N
    ensures CellSound(g, EliminateCell(g, s, x, y, N, d, v).slots, x, y, Enforced(v, d))
  {
    forall i | 0 <= i < N {
      EliminateSound(g, s, x, y, d, v, i);
    }
  }

  /** A scan from (x, y) that commits nothing leaves every unknown cell it visited sound. */
  lemma {:induction false} ScanSound(g: Board, c: Slots, d: int, x: int, y: int, v: Variant)
    requires IsBoard(g) && IsSlots(c) && 0 <= x <= N && 0 <= y <= N
    ensures var r := Scan(g, c, d, x, y, v);
            r.found.None? ==> SoundFrom(g, r.cand, x, y, Enforced(v, d))
    decreases N - y, N - x
  {
    if y == N {
    } else if x == N {
      ScanSound(g, c, d, 0, y + 1, v);
    } else if g[y][x] != 0 {
      ScanSound(g, c, d, x + 1, y, v);
    } else {
      var e := EliminateCell(g, c[y][x], x, y, N, d, v);
      var c' := SetCell(c, x, y, e.slots);
      if Options(e.slots) != 1 {
        EnforcedStays(g, c[y][x], x, y, d, v);
        ScanSound(g, c', e.desperate, x + 1, y, v);
        ScanKeeps(g, c', e.desperate, x + 1, y, v);
        EliminateCellSound(g, c[y][x], x, y, d, v);
        var r := Scan(g, c', e.desperate, x + 1, y, v);
        assert r.cand[y][x] == e.slots;
      }
    }
  }

  /**
   * A whole-grid scan (iterate_diagram) that commits nothing leaves only
   * candidates that pass the row and column tests, and the box test too when
   * the Current engine scanned desperate.
   */
  lemma FullScanSound(g: Board, c: Slots, d: int, v: Variant)
    requires IsBoard(g) && IsSlots(c)
    ensures var r := Scan(g, c, d, 0, 0, v);
            r.found.None? ==> Sound(g, r.cand, Enforced(v, d))
  {
    ScanSound(g, c, d, 0, 0, v);
    SoundFromAll(g, Scan(g, c, d, 0, 0, v).cand, Enforced(v, d));
  }

  lemma SoundFromAll(g: Board, c: Slots, f: int)
    requires IsBoard(g) && IsSlots(c)
    ensures SoundFrom(g, c, 0, 0, f) <==> Sound(g, c, f)
  {
    SoundFromMeans(g, c, 0, 0, f);
  }

  /** Placing a digit that passes the row and column tests keeps every row and column repeat-free. */
  lemma PassingPlacementKeepsLines(g: Board, x: int, y: int, t: int)
    requires IsBoard(g) && 0 <= x < N && 0 <= y < N && LinesOk(g) && Passes(g, x, y, t, 0)
    ensures LinesOk(Place(g, x, y, t))
  {
    var g' := Place(g, x, y, t);
    forall y' | 0 <= y' < N && y' != y ensures NoRepeat(g', Cells(Row(y'))) {
      var cs := Cells(Row(y'));
      forall d { OccSame(g, g', cs, d); }
    }
    forall x' | 0 <= x' < N && x' != x ensures NoRepeat(g', Cells(Column(x'))) {
      var cs := Cells(Column(x'));
      forall d { OccSame(g, g', cs, d); }
    }
  }

  /**
   * Committing the naked single a scan stopped at (the write of
   * iterate_diagram) keeps every row and column of a line-valid grid
   * repeat-free.
   */
  lemma ScanCommitKeepsLines(g: Board, c: Slots, d: int, v: Variant)
    requires IsBoard(g) && IsSlots(c) && SlotForm(c) && LinesOk(g)
    ensures var r := Scan(g, c, d, 0, 0, v);
            r.found.Some? ==> && OnBoard(r.found.value) && FirstOption(r.cand[r.found.value.y][r.found.value.x], 0) < N
                              && LinesOk(Place(g, r.found.value.x, r.found.value.y, Value(r.cand[r.found.value.y][r.found.value.x])))
  {
    var r := Scan(g, c, d, 0, 0, v);
    ScanFound(g, c, d, 0, 0, v);
    if r.found.Some? {
      var sq := r.found.value;
      var t := Value(r.cand[sq.y][sq.x]);
      PassesWeakens(g, sq.x, sq.y, t, Enforced(v, d));
      PassingPlacementKeepsLines(g, sq.x, sq.y, t);
    }
  }

  // ---------------------------------------------------------------------------
  // Hidden singles (horizontal_uniquity_test, vertical_uniquity_test, box_uniquity_test)

  /** Cell sq still lists digit i + 1 (the source's possibilities[y][x][i] == i + 1). */
  predicate Lists(c: Slots, sq: Square, i: int)
    requires IsSlots(c) && OnBoard(sq) && 0 <= i < N
  {
    c[sq.y][sq.x][i] == i + 1
  }

  /** The number of cells from position k on that list digit i + 1 (the source's counts[i] when k is 0). */
  function Tally(c: Slots, cs: seq<Square>, i: int, k: int): nat
    requires IsSlots(c) && AllOnBoard(cs) && 0 <= i < N && 0 <= k <= |cs|
    decreases |cs| - k
  {
    if k == |cs| then 0
    else (if Lists(c, cs[k], i) then 1 else 0) + Tally(c, cs, i, k + 1)
  }

  /** The position of the first cell from k on that lists digit i + 1, or |cs| if none does. */
  function FirstLister(c: Slots, cs: seq<Square>, i: int, k: int): (j: int)
    requires IsSlots(c) && AllOnBoard(cs) && 0 <= i < N && 0 <= k <= |cs|
    ensures k <= j <= |cs|
    ensures j < |cs| ==> Lists(c, cs[j], i)
    decreases |cs| - k
  {
    if k == |cs| then k
    else if Lists(c, cs[k], i) then k
    else FirstLister(c, cs, i, k + 1)
  }

  /** A cell from k on that lists the digit is at or after the first lister from k. */
  lemma {:induction false} FirstListerAtMost(c: Slots, cs: seq<Square>, i: int, k: int, m: int)
    requires IsSlots(c) && AllOnBoard(cs) && 0 <= i < N && 0 <= k <= m < |cs| && Lists(c, cs[m], i)
    ensures FirstLister(c, cs, i, k) <= m
    decreases m - k
  {
    if k < m && !Lists(c, cs[k], i) {
      FirstListerAtMost(c, cs, i, k + 1, m);
    }
  }

  /** A digit committed to a cell by a hidden-single test. */
  datatype Hit = Hit(digit: int, at: Square)

  /**
   * The hidden single a region test commits, trying digit indices i, i+1, ...:
   * the first digit listed by exactly one cell of the region whose unique
   * lister is still unknown.
   */
  function HiddenFrom(g: Board, c: Slots, cs: seq<Square>, i: int): Option<Hit>
    requires IsBoard(g) && IsSlots(c) && AllOnBoard(cs) && 0 <= i <= N
    decreases N - i
  {
    if i == N then None
    else
      var k := FirstLister(c, cs, i, 0);
      if Tally(c, cs, i, 0) == 1 && k < |cs| && At(g, cs[k]) == 0 then Some(Hit(i + 1, cs[k]))
      else HiddenFrom(g, c, cs, i + 1)
  }

  /** The hidden single of a region test, trying every digit from 1. */
  function Hidden(g: Board, c: Slots, r: Region): Option<Hit>
    requires IsBoard(g) && IsSlots(c) && IsRegion(r)
  {
    HiddenFrom(g, c, Cells(r), 0)
  }

  /**
   * One step of a region test's digit loop: a digit not listed exactly once,
   * or whose only lister is already filled, passes the turn to the next digit;
   * otherwise the test commits that digit at its only lister.
   */
  lemma HiddenStep(g: Board, c: Slots, cs: seq<Square>, i: int)
    requires IsBoard(g) && IsSlots(c) && AllOnBoard(cs) && 0 <= i < N
    ensures var k := FirstLister(c, cs, i, 0);
            && (Tally(c, cs, i, 0) == 1 ==> k < |cs|)
            && (Tally(c, cs, i, 0) != 1 || At(g, cs[k]) != 0 ==> HiddenFrom(g, c, cs, i) == HiddenFrom(g, c, cs, i + 1))
            && (Tally(c, cs, i, 0) == 1 && At(g, cs[k]) == 0 ==> HiddenFrom(g, c, cs, i) == Some(Hit(i + 1, cs[k])))
  {
    TallyOne(c, cs, i, 0);
  }

  /**
   * The hidden-single pattern stated on its own: exactly the cell at
   * position k of the region lists digit i + 1, and that cell is unknown.
   */
  predicate UniqueUnknownLister(g: Board, c: Slots, cs: seq<Square>, i: int, k: int)
    requires IsBoard(g) && IsSlots(c) && AllOnBoard(cs) && 0 <= i < N
  {
    0 <= k < |cs| && Lists(c, cs[k], i) && At(g, cs[k]) == 0 &&
    forall j :: 0 <= j < |cs| && j != k ==> !Lists(c, cs[j], i)
  }

  /** Digit i + 1 is a hidden single of the listed cells. */
  predicate IsHidden(g: Board, c: Slots, cs: seq<Square>, i: int)
    requires IsBoard(g) && IsSlots(c) && AllOnBoard(cs) && 0 <= i < N
  {
    exists k :: 0 <= k < |cs| && UniqueUnknownLister(g, c, cs, i, k)
  }

  /** The tally is 0 exactly when no cell lists the digit, and 1 exactly when only the first lister does. */
  lemma {:induction false} TallyOne(c: Slots, cs: seq<Square>, i: int, k: int)
    requires IsSlots(c) && AllOnBoard(cs) && 0 <= i < N && 0 <= k <= |cs|
    ensures Tally(c, cs, i, k) == 0 <==> forall j :: k <= j < |cs| ==> !Lists(c, cs[j], i)
    ensures Tally(c, cs, i, k) == 1 <==>
              (FirstLister(c, cs, i, k) < |cs| &&
               forall j :: k <= j < |cs| && j != FirstLister(c, cs, i, k) ==> !Lists(c, cs[j], i))
    decreases |cs| - k
  {
    if k < |cs| {
      TallyOne(c, cs, i, k + 1);
    }
  }

  /** A unique unknown lister is the first lister, and the tally is then 1. */
  lemma UniqueListerIsFirst(g: Board, c: Slots, cs: seq<Square>, i: int, k: int)
    requires IsBoard(g) && IsSlots(c) && AllOnBoard(cs) && 0 <= i < N && 0 <= k < |cs|
    ensures UniqueUnknownLister(g, c, cs, i, k) ==> Tally(c, cs, i, 0) == 1 && FirstLister(c, cs, i, 0) == k
  {
    TallyOne(c, cs, i, 0);
    if UniqueUnknownLister(g, c, cs, i, k) {
      FirstListerAtMost(c, cs, i, 0, k);
    }
  }

  /**
   * A region test commits exactly the least digit that is a hidden single
   * of the region, at its unique lister, and commits nothing when no digit is.
   */
  lemma {:induction false} HiddenFromIsLeast(g: Board, c: Slots, cs: seq<Square>, i: int)
    requires IsBoard(g) && IsSlots(c) && AllOnBoard(cs) && 0 <= i <= N
    ensures match HiddenFrom(g, c, cs, i)
            case None => forall m :: i <= m < N ==> !IsHidden(g, c, cs, m)
            case Some(h) =>
              && i + 1 <= h.digit <= N
              && (exists k :: UniqueUnknownLister(g, c, cs, h.digit - 1, k) && cs[k] == h.at)
              && forall m :: i <= m < h.digit - 1 ==> !IsHidden(g, c, cs, m)
    decreases N - i
  {
    if i < N {
      HiddenHere(g, c, cs, i);
      var h := HiddenFrom(g, c, cs, i);
      if h == HiddenFrom(g, c, cs, i + 1) {
        HiddenFromIsLeast(g, c, cs, i + 1);
        var top := if h.Some? then h.value.digit - 1 else N;
        forall m | i <= m < top ensures !IsHidden(g, c, cs, m) {
          if m == i {
          }
        }
      }
    }
  }

  /** The digit-i turn of a region test commits exactly when digit i + 1 is a hidden single. */
  lemma HiddenHere(g: Board, c: Slots, cs: seq<Square>, i: int)
    requires IsBoard(g) && IsSlots(c) && AllOnBoard(cs) && 0 <= i < N
    ensures var k := FirstLister(c, cs, i, 0);
            if Tally(c, cs, i, 0) == 1 && k < |cs| && At(g, cs[k]) == 0 then
              UniqueUnknownLister(g, c, cs, i, k) && HiddenFrom(g, c, cs, i) == Some(Hit(i + 1, cs[k]))
            else
              !IsHidden(g, c, cs, i) && HiddenFrom(g, c, cs, i) == HiddenFrom(g, c, cs, i + 1)
  {
    TallyOne(c, cs, i, 0);
    var k := FirstLister(c, cs, i, 0);
    if !(Tally(c, cs, i, 0) == 1 && k < |cs| && At(g, cs[k]) == 0) {
      forall k' | 0 <= k' < |cs| ensures !UniqueUnknownLister(g, c, cs, i, k') {
        UniqueListerIsFirst(g, c, cs, i, k');
      }
    }
  }

  // ---------------------------------------------------------------------------
  // The order of the region tests (iterate_diagram_uniquity)

  /** The box test for box (boxX, boxY) works on the box whose origin is (R·boxX, R·boxY). */
  function BoxRegion(k: int): Region
    requires 0 <= k < N
  {
    Box(R * (k % R), R * (k / R))
  }

  /**
   * The regions in the order the driver tries them. Current: rows 0 to N-1,
   * columns 0 to N-1, then, only when desperate, the boxes row by row.
   * Legacy: rows N-1 down to 0, then columns N-1 down to 0.
   */
  function Plan(v: Variant, d: int): (p: seq<Region>)
    ensures |p| == if v == Current && d != 0 then 3 * N else 2 * N
    ensures forall j :: 0 <= j < |p| ==> IsRegion(p[j])
  {
    match v
    case Current =>
      seq(N, k => Row(k)) + seq(N, k => Column(k)) + (if d != 0 then seq(N, k requires 0 <= k < N => BoxRegion(k)) else [])
    case Legacy =>
      seq(N, k => Row(N - 1 - k)) + seq(N, k => Column(N - 1 - k))
  }

  /** The test outcome of every region of the plan, in order. */
  function Hits(g: Board, c: Slots, p: seq<Region>): (hs: seq<Option<Hit>>)
    requires IsBoard(g) && IsSlots(c)
    requires forall m :: 0 <= m < |p| ==> IsRegion(p[m])
    ensures |hs| == |p|
    decreases |p|
  {
    if p == [] then [] else Hits(g, c, p[..|p| - 1]) + [Hidden(g, c, p[|p| - 1])]
  }

  /** Position m of the outcomes is the test of the plan's region m. */
  lemma {:induction false} HitsAt(g: Board, c: Slots, p: seq<Region>, m: int)
    requires IsBoard(g) && IsSlots(c)
    requires forall m :: 0 <= m < |p| ==> IsRegion(p[m])
    requires 0 <= m < |p|
    ensures Hits(g, c, p)[m] == Hidden(g, c, p[m])
    decreases |p|
  {
    if m < |p| - 1 {
      HitsAt(g, c, p[..|p| - 1], m);
    }
  }

  /** The first outcome from position j on that is a hit. */
  function FirstHit(hs: seq<Option<Hit>>, j: int): Option<Hit>
    requires 0 <= j <= |hs|
    decreases |hs| - j
  {
    if j == |hs| then None
    else if hs[j].Some? then hs[j]
    else FirstHit(hs, j + 1)
  }

  /** What iterate_diagram_uniquity commits, if anything. */
  function Uniquity(g: Board, c: Slots, v: Variant, d: int): Option<Hit>
    requires IsBoard(g) && IsSlots(c)
  {
    FirstHit(Hits(g, c, Plan(v, d)), 0)
  }

  /** Region r is one of the regions the driver tries. */
  predicate Planned(v: Variant, d: int, r: Region) {
    r in Plan(v, d)
  }

  /** No hit from position j on exactly when every outcome from j on is empty. */
  lemma {:induction false} FirstHitMiss(hs: seq<Option<Hit>>, j: int)
    requires 0 <= j <= |hs|
    ensures FirstHit(hs, j).None? <==> forall m :: j <= m < |hs| ==> hs[m].None?
    decreases |hs| - j
  {
    if j < |hs| {
      FirstHitMiss(hs, j + 1);
    }
  }

  /** The position of the first hit from j on. */
  lemma {:induction false} FirstHitIndex(hs: seq<Option<Hit>>, j: int) returns (m: int)
    requires 0 <= j <= |hs| && FirstHit(hs, j).Some?
    ensures j <= m < |hs| && hs[m] == FirstHit(hs, j)
    decreases |hs| - j
  {
    if hs[j].Some? {
      m := j;
    } else {
      m := FirstHitIndex(hs, j + 1);
    }
  }

  /** When every outcome before position m is empty and position m holds a hit, that hit is the first one from j on. */
  lemma {:induction false} FirstHitAt(hs: seq<Option<Hit>>, j: int, m: int)
    requires 0 <= j <= m < |hs| && hs[m].Some?
    requires forall m' :: j <= m' < m ==> hs[m'].None?
    ensures FirstHit(hs, j) == hs[m]
    decreases m - j
  {
    if j < m {
      FirstHitAt(hs, j + 1, m);
    }
  }

  /** The position of each region in the plan. */
  lemma PlanAt(v: Variant, d: int)
    ensures var p := Plan(v, d);
            && |p| == (if v == Current && d != 0 then 3 * N else 2 * N)
            && (v == Current ==> forall k :: 0 <= k < N ==> p[k] == Row(k) && p[N + k] == Column(k))
            && (v == Current && d != 0 ==> forall k :: 0 <= k < N ==> p[2 * N + k] == BoxRegion(k))
            && (v == Legacy ==> forall k :: 0 <= k < N ==> p[k] == Row(N - 1 - k))
            && (v == Legacy ==> forall j :: N <= j < 2 * N ==> p[j] == Column(2 * N - 1 - j))
  {
  }

  /** Box test (boxX, boxY) of the driver's nested loops is the box at plan position 2N + boxY·R + boxX. */
  lemma BoxRegionAt(boxX: int, boxY: int)
    requires 0 <= boxX < R && 0 <= boxY < R
    ensures 0 <= boxY * R + boxX < N && BoxRegion(boxY * R + boxX) == Box(R * boxX, R * boxY)
    ensures boxX % R == boxX && boxY % R == boxY
  {
    var k := boxY * R + boxX;
    assert k % R == boxX && k / R == boxY;
  }

  /** No outcome before position m is a hit. */
  predicate MissBefore(hs: seq<Option<Hit>>, m: int)
    requires 0 <= m <= |hs|
    decreases m
  {
    m == 0 || (hs[m - 1].None? && MissBefore(hs, m - 1))
  }

  /** MissBefore says that every outcome before position m is empty. */
  lemma {:induction false} MissBeforeMeans(hs: seq<Option<Hit>>, m: int)
    requires 0 <= m <= |hs|
    ensures MissBefore(hs, m) <==> forall m' :: 0 <= m' < m ==> hs[m'].None?
    decreases m
  {
    if m > 0 {
      MissBeforeMeans(hs, m - 1);
    }
  }

  /** After misses at every earlier position, a hit at position m is the first hit. */
  lemma MissBeforeHit(hs: seq<Option<Hit>>, m: int)
    requires 0 <= m < |hs| && MissBefore(hs, m) && hs[m].Some?
    ensures FirstHit(hs, 0) == hs[m]
  {
    MissBeforeMeans(hs, m);
    FirstHitAt(hs, 0, m);
  }

  /** Misses at every position leave no hit at all, and a hit is left otherwise. */
  lemma MissBeforeAllIff(hs: seq<Option<Hit>>)
    ensures FirstHit(hs, 0).None? <==> MissBefore(hs, |hs|)
  {
    MissBeforeMeans(hs, |hs|);
    FirstHitMiss(hs, 0);
  }

  /** The outcome at the plan position of row y: y in the Current order, N-1-y in the Legacy order. */
  lemma RowOutcome(g: Board, c: Slots, v: Variant, d: int, y: int)
    requires IsBoard(g) && IsSlots(c) && 0 <= y < N
    ensures var m := if v == Current then y else N - 1 - y;
            && m < |Hits(g, c, Plan(v, d))| && Hits(g, c, Plan(v, d))[m] == Hidden(g, c, Row(y))
  {
    PlanAt(v, d);
    HitsAt(g, c, Plan(v, d), if v == Current then y else N - 1 - y);
  }

  /** The outcome at the plan position of column x: N+x in the Current order, 2N-1-x in the Legacy order. */
  lemma ColumnOutcome(g: Board, c: Slots, v: Variant, d: int, x: int)
    requires IsBoard(g) && IsSlots(c) && 0 <= x < N
    ensures var m := if v == Current then N + x else 2 * N - 1 - x;
            && m < |Hits(g, c, Plan(v, d))| && Hits(g, c, Plan(v, d))[m] == Hidden(g, c, Column(x))
  {
    PlanAt(v, d);
    HitsAt(g, c, Plan(v, d), if v == Current then N + x else 2 * N - 1 - x);
  }

  /** The outcome at plan position 2N + y·R + x of box test (x, y) when the Current driver is desperate. */
  lemma BoxOutcome(g: Board, c: Slots, d: int, x: int, y: int)
    requires IsBoard(g) && IsSlots(c) && d != 0 && 0 <= x < R && 0 <= y < R
    ensures 2 * N + y * R + x < |Hits(g, c, Plan(Current, d))|
    ensures Hits(g, c, Plan(Current, d))[2 * N + y * R + x] == Hidden(g, c, Box(R * (x % R), R * (y % R)))
  {
    BoxRegionAt(x, y);
    PlanAt(Current, d);
    HitsAt(g, c, Plan(Current, d), 2 * N + y * R + x);
  }

  /** A region test's hit is a hidden single of the region at an unknown cell. */
  lemma HiddenIsHidden(g: Board, c: Slots, r: Region)
    requires IsBoard(g) && IsSlots(c) && IsRegion(r) && Hidden(g, c, r).Some?
    ensures var h := Hidden(g, c, r).value;
            && 1 <= h.digit <= N && OnBoard(h.at) && h.at in Cells(r) && At(g, h.at) == 0
            && Lists(c, h.at, h.digit - 1) && IsHidden(g, c, Cells(r), h.digit - 1)
  {
    HiddenFromIsLeast(g, c, Cells(r), 0);
  }

  /** A region test that commits nothing leaves no hidden single in the region. */
  lemma HiddenNone(g: Board, c: Slots, r: Region)
    requires IsBoard(g) && IsSlots(c) && IsRegion(r) && Hidden(g, c, r).None?
    ensures forall i :: 0 <= i < N ==> !IsHidden(g, c, Cells(r), i)
  {
    HiddenFromIsLeast(g, c, Cells(r), 0);
  }

  /** What the driver commits is a hidden single of some region it tries. */
  lemma UniquityHit(g: Board, c: Slots, v: Variant, d: int)
    requires IsBoard(g) && IsSlots(c) && Uniquity(g, c, v, d).Some?
    ensures var h := Uniquity(g, c, v, d).value;
            && 1 <= h.digit <= N && OnBoard(h.at) && At(g, h.at) == 0 && Lists(c, h.at, h.digit - 1)
            && exists r :: Planned(v, d, r) && IsRegion(r) && h.at in Cells(r) && IsHidden(g, c, Cells(r), h.digit - 1)
  {
    PlanHit(g, c, Plan(v, d));
  }

  /** The first hit of the tests of any list of regions is a hidden single of one of them. */
  lemma PlanHit(g: Board, c: Slots, p: seq<Region>)
    requires IsBoard(g) && IsSlots(c) && (forall m :: 0 <= m < |p| ==> IsRegion(p[m]))
    requires FirstHit(Hits(g, c, p), 0).Some?
    ensures var h := FirstHit(Hits(g, c, p), 0).value;
            && 1 <= h.digit <= N && OnBoard(h.at) && At(g, h.at) == 0 && Lists(c, h.at, h.digit - 1)
            && exists m :: 0 <= m < |p| && h.at in Cells(p[m]) && IsHidden(g, c, Cells(p[m]), h.digit - 1)
  {
    var m := FirstHitIndex(Hits(g, c, p), 0);
    HitIsHidden(g, c, p, m);
  }

  /** A hit of the test at plan position m is a hidden single of region p[m] at an unknown cell. */
  lemma HitIsHidden(g: Board, c: Slots, p: seq<Region>, m: int)
    requires IsBoard(g) && IsSlots(c) && (forall m :: 0 <= m < |p| ==> IsRegion(p[m]))
    requires 0 <= m < |p| && Hits(g, c, p)[m].Some?
    ensures var h := Hits(g, c, p)[m].value;
            && 1 <= h.digit <= N && OnBoard(h.at) && At(g, h.at) == 0 && Lists(c, h.at, h.digit - 1)
            && h.at in Cells(p[m]) && IsHidden(g, c, Cells(p[m]), h.digit - 1)
  {
    HitsAt(g, c, p, m);
    HiddenIsHidden(g, c, p[m]);
  }

  /** When the driver commits nothing, no region it tries has a hidden single. */
  lemma UniquityMiss(g: Board, c: Slots, v: Variant, d: int)
    requires IsBoard(g) && IsSlots(c) && Uniquity(g, c, v, d).None?
    ensures forall r, i :: Planned(v, d, r) && IsRegion(r) && 0 <= i < N ==> !IsHidden(g, c, Cells(r), i)
  {
    var p := Plan(v, d);
    FirstHitMiss(Hits(g, c, p), 0);
    forall r | Planned(v, d, r) && IsRegion(r) ensures forall i :: 0 <= i < N ==> !IsHidden(g, c, Cells(r), i) {
      var m :| 0 <= m < |p| && p[m] == r;
      HitsAt(g, c, p, m);
      HiddenNone(g, c, r);
    }
  }

  /** The regions the driver tries: every row and column, and, in the Current engine when desperate, every box. */
  lemma PlanCovers(v: Variant, d: int)
    ensures forall y :: 0 <= y < N ==> Planned(v, d, Row(y))
    ensures forall x :: 0 <= x < N ==> Planned(v, d, Column(x))
    ensures v == Current && d != 0 ==> forall boxY, boxX :: 0 <= boxY < R && 0 <= boxX < R ==> Planned(v, d, Box(R * boxX, R * boxY))
    ensures v == Legacy || d == 0 ==> forall ox, oy :: !Planned(v, d, Box(ox, oy))
  {
    var p := Plan(v, d);
    forall y | 0 <= y < N ensures Planned(v, d, Row(y)) {
      if v == Current { assert p[y] == Row(y); } else { assert p[N - 1 - y] == Row(y); }
    }
    forall x | 0 <= x < N ensures Planned(v, d, Column(x)) {
      if v == Current { assert p[N + x] == Column(x); } else { assert p[N + (N - 1 - x)] == Column(x); }
    }
    if v == Current && d != 0 {
      forall boxY, boxX | 0 <= boxY < R && 0 <= boxX < R ensures Planned(v, d, Box(R * boxX, R * boxY)) {
        var k := boxY * R + boxX;
        assert k % R == boxX && k / R == boxY;
        assert p[2 * N + k] == Box(R * boxX, R * boxY);
      }
    }
  }

  // ---------------------------------------------------------------------------
  // Committing a digit

  /** The board and table after digit t is committed to (x, y): the cell's slots collapse to t alone. */
  datatype Committed = Committed(grid: Board, cand: Slots)

  function Commit(g: Board, c: Slots, x: int, y: int, t: int): (r: Committed)
    requires IsBoard(g) && IsSlots(c) && 0 <= x < N && 0 <= y < N
    ensures IsBoard(r.grid) && IsSlots(r.cand)
  {
    Committed(Place(g, x, y, t), SetCell(c, x, y, Singleton(t)))
  }

  /** The part of the engine state a hidden-single test or the guess may change. */
  datatype View = View(grid: Board, cand: Slots, lastFound: Square)

  /**
   * The state after a hit is committed: its digit fills its cell, which
   * becomes the last square found; without a hit nothing changes.
   */
  function Apply(g: Board, c: Slots, lastFound: Square, h: Option<Hit>): View
    requires IsBoard(g) && IsSlots(c)
  {
    match h
    case Some(hit) =>
      if OnBoard(hit.at) then
        var r := Commit(g, c, hit.at.x, hit.at.y, hit.digit);
        View(r.grid, r.cand, hit.at)
      else View(g, c, lastFound)
    case None => View(g, c, lastFound)
  }

  /**
   * Committing a digit that the cell still lists to an unknown cell fills
   * exactly one cell, only shrinks the table, keeps every filled cell
   * listing its own value alone, and keeps the table's 0-or-i+1 form.
   */
  lemma CommitFacts(g: Board, c: Slots, x: int, y: int, t: int)
    requires IsBoard(g) && IsSlots(c) && 0 <= x < N && 0 <= y < N
    requires 1 <= t <= N && c[y][x][t - 1] == t && g[y][x] == 0
    ensures var r := Commit(g, c, x, y, t);
            && Unknowns(r.grid) == Unknowns(g) - 1
            && Shrinks(c, r.cand)
            && (HoldsDigits(g) ==> HoldsDigits(r.grid))
            && (Coherent(g, c) ==> Coherent(r.grid, r.cand))
            && (SlotForm(c) ==> SlotForm(r.cand))
  {
    PlaceFillsOne(g, x, y, t);
  }

  // ---------------------------------------------------------------------------
  // The two-candidate guess (selective_brute_force)

  /** The first unknown cell from (x, y) on, in row-major order, with exactly two candidates. */
  function FirstPair(g: Board, c: Slots, x: int, y: int): (p: Option<Square>)
    requires IsBoard(g) && IsSlots(c) && 0 <= x <= N && 0 <= y <= N
    ensures p.Some? ==> OnBoard(p.value) && g[p.value.y][p.value.x] == 0 && Options(c[p.value.y][p.value.x]) == 2
    decreases N - y, N - x
  {
    if y == N then None
    else if x == N then FirstPair(g, c, 0, y + 1)
    else if g[y][x] == 0 && Options(c[y][x]) == 2 then Some(Square(x, y))
    else FirstPair(g, c, x + 1, y)
  }

  /** No unknown cell from (x, y) on has exactly two candidates. */
  predicate NoPairFrom(g: Board, c: Slots, x: int, y: int)
    requires IsBoard(g) && IsSlots(c)
  {
    forall y', x' :: 0 <= y' < N && 0 <= x' < N && !Before(Square(x', y'), Square(x, y)) && g[y'][x'] == 0 ==>
      Options(c[y'][x']) != 2
  }

  /** The guess cell is the first unknown cell with exactly two candidates, and there is none when no cell is found. */
  lemma {:induction false} FirstPairFacts(g: Board, c: Slots, x: int, y: int)
    requires IsBoard(g) && IsSlots(c) && 0 <= x <= N && 0 <= y <= N
    ensures match FirstPair(g, c, x, y)
            case None => NoPairFrom(g, c, x, y)
            case Some(sq) =>
              && OnBoard(sq) && !Before(sq, Square(x, y)) && g[sq.y][sq.x] == 0 && Options(c[sq.y][sq.x]) == 2
              && forall y', x' :: (0 <= y' < N && 0 <= x' < N && !Before(Square(x', y'), Square(x, y)) &&
                                   Before(Square(x', y'), sq) && g[y'][x'] == 0) ==> Options(c[y'][x']) != 2
    decreases N - y, N - x
  {
    if y == N {
    } else if x == N {
      FirstPairFacts(g, c, 0, y + 1);
      BeforeRowEnd(y);
    } else if !(g[y][x] == 0 && Options(c[y][x]) == 2) {
      FirstPairFacts(g, c, x + 1, y);
      BeforeNext(x, y);
    }
  }

  /**
   * The digit the guess commits: the lower of the two candidates when the
   * coin is set (rand() & 1), the higher otherwise.
   */
  function Guess(s: seq<int>, coin: bool): int
    requires FirstOption(s, 0) < |s|
  {
    if coin then s[FirstOption(s, 0)] else s[LastOption(s, |s|)]
  }

  /**
   * A guess on a cell with two candidates in 0-or-i+1 form commits one of
   * those two digits, the one the coin picks, and the cell still lists it.
   */
  lemma GuessFacts(s: seq<int>, coin: bool)
    requires |s| == N && CellForm(s) && Options(s) == 2
    ensures var lo, hi := FirstOption(s, 0), LastOption(s, |s|);
            && 0 <= lo < hi < N
            && (forall j :: 0 <= j < N && j != lo && j != hi ==> s[j] == 0)
            && Guess(s, coin) == (if coin then lo + 1 else hi + 1)
            && s[Guess(s, coin) - 1] == Guess(s, coin)
  {
    OptionsTwo(s);
  }

  /**
   * selective_brute_force as a hit: the coin's pick among the two candidates
   * of the first unknown cell with exactly two, or nothing when there is no
   * such cell.
   */
  function Guessed(g: Board, c: Slots, coin: bool): Option<Hit>
    requires IsBoard(g) && IsSlots(c)
  {
    match FirstPair(g, c, 0, 0)
    case None => None
    case Some(sq) =>
      OptionsTwo(c[sq.y][sq.x]);
      Some(Hit(Guess(c[sq.y][sq.x], coin), sq))
  }

  /**
   * The guess commits, at the first unknown cell with exactly two candidates,
   * the lower of them when the coin is set and the higher otherwise; without
   * a guess no unknown cell has exactly two candidates.
   */
  lemma GuessedFacts(g: Board, c: Slots, coin: bool)
    requires IsBoard(g) && IsSlots(c) && SlotForm(c)
    ensures match Guessed(g, c, coin)
            case None => NoPairFrom(g, c, 0, 0)
            case Some(h) =>
              var s := c[h.at.y][h.at.x];
              && OnBoard(h.at) && g[h.at.y][h.at.x] == 0 && Options(s) == 2
              && h.digit == (if coin then FirstOption(s, 0) + 1 else LastOption(s, N) + 1)
              && 1 <= h.digit <= N && s[h.digit - 1] == h.digit
              && forall y', x' :: 0 <= y' < N && 0 <= x' < N && Before(Square(x', y'), h.at) && g[y'][x'] == 0 ==>
                   Options(c[y'][x']) != 2
  {
    FirstPairFacts(g, c, 0, 0);
    match FirstPair(g, c, 0, 0)
    case None =>
    case Some(sq) =>
      GuessFacts(c[sq.y][sq.x], coin);
  }
}
