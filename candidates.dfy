/**
 * Candidate sets: for every cell (x, y) the N slots possibilities[y][x][i],
 * slot i holding either 0 (digit i+1 eliminated) or i+1 (still possible).
 * Pure value-level specification.
 */
module Candidates {
  import opened Grid

  /** The candidate table as a value, indexed c[y][x][i] like possibilities[y][x][i]. */
  type Slots = seq<seq<seq<int>>>

  predicate IsSlots(c: Slots) {
    |c| == N &&
    (forall y :: 0 <= y < N ==> |c[y]| == N) &&
    (forall y, x :: 0 <= y < N && 0 <= x < N ==> |c[y][x]| == N)
  }

  /** Slot i of a cell's row of slots is 0 or i+1. */
  predicate CellForm(s: seq<int>) {
    forall i :: 0 <= i < |s| ==> s[i] == 0 || s[i] == i + 1
  }

  /** Every slot of the table is 0 or i+1. */
  predicate SlotForm(c: Slots)
    requires IsSlots(c)
  {
    forall y, x :: 0 <= y < N && 0 <= x < N ==> CellForm(c[y][x])
  }

  /** The slots of a cell whose only candidate is v. */
  function Singleton(v: int): (s: seq<int>)
    ensures |s| == N
  {
    seq(N, i => if i == v - 1 then v else 0)
  }

  /** The slots of a cell of which nothing has been eliminated yet. */
  function AllDigits(): (s: seq<int>)
    ensures |s| == N
  {
    seq(N, i => i + 1)
  }

  /**
   * The given and solved cells are consistent with their slots: a filled cell
   * with value v has v as its only candidate.
   */
  predicate Coherent(g: Board, c: Slots)
    requires IsBoard(g) && IsSlots(c)
  {
    forall y, x :: 0 <= y < N && 0 <= x < N && g[y][x] != 0 ==> c[y][x] == Singleton(g[y][x])
  }

  /** No slot of c1 is non-zero unless it holds the same value in c0: candidates never come back. */
  predicate Shrinks(c0: Slots, c1: Slots)
    requires IsSlots(c0) && IsSlots(c1)
  {
    forall y, x, i :: 0 <= y < N && 0 <= x < N && 0 <= i < N ==> c1[y][x][i] == 0 || c1[y][x][i] == c0[y][x][i]
  }

  lemma ShrinksTransitive(c0: Slots, c1: Slots, c2: Slots)
    requires IsSlots(c0) && IsSlots(c1) && IsSlots(c2)
    requires Shrinks(c0, c1) && Shrinks(c1, c2)
    ensures Shrinks(c0, c2)
  {
  }

  /** The table with the slots of cell (x, y) replaced by s. */
  function SetCell(c: Slots, x: int, y: int, s: seq<int>): (c': Slots)
    requires IsSlots(c) && 0 <= x < N && 0 <= y < N && |s| == N
    ensures IsSlots(c')
    ensures c'[y][x] == s
    ensures forall y', x' :: 0 <= y' < N && 0 <= x' < N && (y', x') != (y, x) ==> c'[y'][x'] == c[y'][x']
  {
    c[y := c[y][x := s]]
  }

  /** Setting a cell twice keeps only the second setting. */
  lemma SetCellTwice(c: Slots, x: int, y: int, s: seq<int>, t: seq<int>)
    requires IsSlots(c) && 0 <= x < N && 0 <= y < N && |s| == N && |t| == N
    ensures SetCell(SetCell(c, x, y, s), x, y, t) == SetCell(c, x, y, t)
  {
    var c1 := SetCell(c, x, y, s);
    assert c1[y][x := t] == c[y][x := t];
  }

  /** Setting a cell to its own slots changes nothing. */
  lemma SetCellSame(c: Slots, x: int, y: int)
    requires IsSlots(c) && 0 <= x < N && 0 <= y < N
    ensures SetCell(c, x, y, c[y][x]) == c
  {
    assert c[y][x := c[y][x]] == c[y];
  }

  /** The table initialize_possibilities builds: every digit for an unknown cell, the singleton of a given's value. */
  function InitialSlots(g: Board): (c: Slots)
    requires IsBoard(g)
    ensures IsSlots(c)
  {
    seq(N, y requires 0 <= y < N => seq(N, x requires 0 <= x < N => if g[y][x] == 0 then AllDigits() else Singleton(g[y][x])))
  }

  /**
   * The initial table has the 0-or-i+1 form, an unknown cell lists every
   * digit, and a given cell with value v has slot v-1 holding v as its only
   * non-zero slot.
   */
  lemma InitialFacts(g: Board)
    requires IsBoard(g) && HoldsDigits(g)
    ensures var c := InitialSlots(g);
            && SlotForm(c) && Coherent(g, c)
            && (forall y, x, i :: 0 <= y < N && 0 <= x < N && 0 <= i < N && g[y][x] == 0 ==> c[y][x][i] == i + 1)
            && (forall y, x, i :: 0 <= y < N && 0 <= x < N && 0 <= i < N && g[y][x] != 0 ==>
                  c[y][x][i] == (if i == g[y][x] - 1 then g[y][x] else 0))
  {
  }

  // ---------------------------------------------------------------------------
  // Counting and locating the surviving slots of one cell

  /** Number of non-zero slots (the `options` count of the source). */
  function Options(s: seq<int>): nat
    decreases |s|
  {
    if s == [] then 0 else (if s[0] != 0 then 1 else 0) + Options(s[1..])
  }

  /** Index of the first non-zero slot at or after i, or |s| when there is none. */
  function FirstOption(s: seq<int>, i: int): (k: int)
    requires 0 <= i <= |s|
    ensures i <= k <= |s|
    ensures k < |s| ==> s[k] != 0
    ensures forall j :: i <= j < k ==> s[j] == 0
    decreases |s| - i
  {
    if i == |s| then |s| else if s[i] != 0 then i else FirstOption(s, i + 1)
  }

  /** Index of the last non-zero slot below k, or -1 when there is none. */
  function LastOption(s: seq<int>, k: int): (j: int)
    requires 0 <= k <= |s|
    ensures -1 <= j < k
    ensures j >= 0 ==> s[j] != 0
    ensures forall m :: j < m < k ==> s[m] == 0
    decreases k
  {
    if k == 0 then -1 else if s[k - 1] != 0 then k - 1 else LastOption(s, k - 1)
  }

  lemma {:induction false} OptionsAppend(a: seq<int>, b: seq<int>)
    ensures Options(a + b) == Options(a) + Options(b)
  {
    if a != [] {
      assert (a + b)[1..] == a[1..] + b;
      OptionsAppend(a[1..], b);
    } else {
      assert a + b == b;
    }
  }

  /** Counting the slots upwards, one at a time, gives Options. */
  lemma OptionsPrefix(s: seq<int>, k: int)
    requires 0 <= k < |s|
    ensures Options(s[..k + 1]) == Options(s[..k]) + (if s[k] != 0 then 1 else 0)
  {
    assert s[..k + 1] == s[..k] + [s[k]];
    OptionsAppend(s[..k], [s[k]]);
    assert [s[k]][1..] == [];
  }

  lemma {:induction false} OptionsNone(s: seq<int>)
    ensures Options(s) == 0 <==> forall j :: 0 <= j < |s| ==> s[j] == 0
  {
    if s != [] {
      OptionsNone(s[1..]);
      assert forall j :: 1 <= j < |s| ==> s[j] == s[1..][j - 1];
    }
  }

  /** Options of a suffix counts the first surviving slot and then the rest. */
  lemma {:induction false} OptionsFrom(s: seq<int>, i: int)
    requires 0 <= i <= |s|
    ensures var k := FirstOption(s, i);
            Options(s[i..]) == if k == |s| then 0 else 1 + Options(s[k + 1..])
    decreases |s| - i
  {
    if i < |s| {
      assert s[i..][1..] == s[i + 1..];
      if s[i] == 0 {
        OptionsFrom(s, i + 1);
      }
    }
  }

  /** A cell with exactly one surviving slot: it is the first one and all others are zero. */
  lemma OptionsOne(s: seq<int>)
    requires Options(s) == 1
    ensures FirstOption(s, 0) < |s|
    ensures forall j :: 0 <= j < |s| && j != FirstOption(s, 0) ==> s[j] == 0
  {
    var k := FirstOption(s, 0);
    OptionsFrom(s, 0);
    assert s[0..] == s;
    OptionsNone(s[k + 1..]);
    forall j | k < j < |s| ensures s[j] == 0 {
      assert s[j] == s[k + 1..][j - k - 1];
    }
  }

  /**
   * A cell with exactly two surviving slots: they are the first and the last
   * non-zero slot, they differ, and every other slot is zero.
   */
  lemma OptionsTwo(s: seq<int>)
    requires Options(s) == 2
    ensures var lo, hi := FirstOption(s, 0), LastOption(s, |s|);
            0 <= lo < hi < |s| &&
            forall j :: 0 <= j < |s| && j != lo && j != hi ==> s[j] == 0
  {
    SecondOption(s);
    var hi := FirstOption(s, FirstOption(s, 0) + 1);
    OptionsAfter(s, hi);
    LastIsHi(s, hi, |s|);
  }

  /** With two surviving slots, the second one is the first after the first, and nothing survives after it. */
  lemma SecondOption(s: seq<int>)
    requires Options(s) == 2
    ensures var lo := FirstOption(s, 0);
            lo < |s| && FirstOption(s, lo + 1) < |s| && Options(s[FirstOption(s, lo + 1) + 1..]) == 0
  {
    var lo := FirstOption(s, 0);
    OptionsFrom(s, 0);
    assert s[0..] == s;
    OptionsFrom(s, lo + 1);
  }

  /** No slot after hi survives when the suffix after hi counts none. */
  lemma OptionsAfter(s: seq<int>, hi: int)
    requires 0 <= hi < |s| && Options(s[hi + 1..]) == 0
    ensures forall j :: hi < j < |s| ==> s[j] == 0
  {
    var t := s[hi + 1..];
    OptionsNone(t);
    forall j | hi < j < |s| ensures s[j] == 0 {
      assert s[j] == t[j - hi - 1];
    }
  }

  lemma {:induction false} LastIsHi(s: seq<int>, hi: int, k: int)
    requires 0 <= hi < k <= |s| && s[hi] != 0
    requires forall j :: hi < j < k ==> s[j] == 0
    ensures LastOption(s, k) == hi
    decreases k
  {
    if k - 1 != hi {
      LastIsHi(s, hi, k - 1);
    }
  }

  // ---------------------------------------------------------------------------
  // Total number of surviving slots, the measure that elimination decreases

  function RowSlots(row: seq<seq<int>>): nat
    decreases |row|
  {
    if row == [] then 0 else RowSlots(row[..|row| - 1]) + Options(row[|row| - 1])
  }

  /** Total number of non-zero slots of the table. */
  function SlotCount(c: Slots): nat
    decreases |c|
  {
    if c == [] then 0 else SlotCount(c[..|c| - 1]) + RowSlots(c[|c| - 1])
  }

  predicate CellShrinks(s0: seq<int>, s1: seq<int>) {
    |s0| == |s1| && forall i :: 0 <= i < |s0| ==> s1[i] == 0 || s1[i] == s0[i]
  }

  predicate CellLoses(s0: seq<int>, s1: seq<int>) {
    exists i :: 0 <= i < |s0| && i < |s1| && s0[i] != 0 && s1[i] == 0
  }

  lemma {:induction false} OptionsShrink(s0: seq<int>, s1: seq<int>)
    requires CellShrinks(s0, s1)
    ensures Options(s1) <= Options(s0)
    ensures CellLoses(s0, s1) ==> Options(s1) < Options(s0)
  {
    if s0 != [] {
      assert CellShrinks(s0[1..], s1[1..]) by {
        forall i | 0 <= i < |s0| - 1 ensures s1[1..][i] == 0 || s1[1..][i] == s0[1..][i] {
          assert s1[1..][i] == s1[i + 1] && s0[1..][i] == s0[i + 1];
        }
      }
      OptionsShrink(s0[1..], s1[1..]);
      if CellLoses(s0, s1) {
        var i :| 0 <= i < |s0| && i < |s1| && s0[i] != 0 && s1[i] == 0;
        if i > 0 {
          assert s0[1..][i - 1] != 0 && s1[1..][i - 1] == 0;
        }
      }
    }
  }

  predicate RowShrinks(r0: seq<seq<int>>, r1: seq<seq<int>>) {
    |r0| == |r1| && forall x :: 0 <= x < |r0| ==> CellShrinks(r0[x], r1[x])
  }

  lemma {:induction false} RowSlotsShrink(r0: seq<seq<int>>, r1: seq<seq<int>>)
    requires RowShrinks(r0, r1)
    ensures RowSlots(r1) <= RowSlots(r0)
    ensures (exists x :: 0 <= x < |r0| && CellLoses(r0[x], r1[x])) ==> RowSlots(r1) < RowSlots(r0)
  {
    if r0 != [] {
      var n := |r0| - 1;
      assert RowShrinks(r0[..n], r1[..n]) by {
        forall x | 0 <= x < n ensures CellShrinks(r0[..n][x], r1[..n][x]) {
          assert r0[..n][x] == r0[x] && r1[..n][x] == r1[x];
        }
      }
      RowSlotsShrink(r0[..n], r1[..n]);
      OptionsShrink(r0[n], r1[n]);
      if exists x :: 0 <= x < |r0| && CellLoses(r0[x], r1[x]) {
        var x :| 0 <= x < |r0| && CellLoses(r0[x], r1[x]);
        if x < n {
          assert r0[..n][x] == r0[x] && r1[..n][x] == r1[x];
        }
      }
    }
  }

  lemma {:induction false} SlotCountShrinkRows(c0: seq<seq<seq<int>>>, c1: seq<seq<seq<int>>>)
    requires |c0| == |c1| && forall y :: 0 <= y < |c0| ==> RowShrinks(c0[y], c1[y])
    ensures SlotCount(c1) <= SlotCount(c0)
  {
    if c0 != [] {
      var n := |c0| - 1;
      assert forall y :: 0 <= y < n ==> c0[..n][y] == c0[y] && c1[..n][y] == c1[y];
      SlotCountShrinkRows(c0[..n], c1[..n]);
      RowSlotsShrink(c0[n], c1[n]);
    }
  }

  lemma {:induction false} SlotCountLoseRows(c0: seq<seq<seq<int>>>, c1: seq<seq<seq<int>>>, y: int, x: int)
    requires |c0| == |c1| && forall y :: 0 <= y < |c0| ==> RowShrinks(c0[y], c1[y])
    requires 0 <= y < |c0| && 0 <= x < |c0[y]| && x < |c1[y]| && CellLoses(c0[y][x], c1[y][x])
    ensures SlotCount(c1) < SlotCount(c0)
  {
    var n := |c0| - 1;
    assert forall y :: 0 <= y < n ==> c0[..n][y] == c0[y] && c1[..n][y] == c1[y];
    RowSlotsShrink(c0[n], c1[n]);
    if y < n {
      SlotCountLoseRows(c0[..n], c1[..n], y, x);
    } else {
      SlotCountShrinkRows(c0[..n], c1[..n]);
    }
  }

  /** Shrinking the table never raises the number of surviving slots, and losing one lowers it. */
  lemma SlotCountShrink(c0: Slots, c1: Slots)
    requires IsSlots(c0) && IsSlots(c1) && Shrinks(c0, c1)
    ensures SlotCount(c1) <= SlotCount(c0)
    ensures (exists y, x, i :: 0 <= y < N && 0 <= x < N && 0 <= i < N && c0[y][x][i] != 0 && c1[y][x][i] == 0) ==>
            SlotCount(c1) < SlotCount(c0)
  {
    forall y | 0 <= y < N ensures RowShrinks(c0[y], c1[y]) {
      forall x | 0 <= x < N ensures CellShrinks(c0[y][x], c1[y][x]) {
      }
    }
    SlotCountShrinkRows(c0, c1);
    if exists y, x, i :: 0 <= y < N && 0 <= x < N && 0 <= i < N && c0[y][x][i] != 0 && c1[y][x][i] == 0 {
      var y, x, i :| 0 <= y < N && 0 <= x < N && 0 <= i < N && c0[y][x][i] != 0 && c1[y][x][i] == 0;
      assert CellLoses(c0[y][x], c1[y][x]);
      SlotCountLoseRows(c0, c1, y, x);
    }
  }
}
