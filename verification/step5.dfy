/** Step 5 of the solver: manufacture a new uncovered zero by moving the
    smallest uncovered entry `h` from the uncovered columns to the covered
    rows. */
module AdjustStep {
  import opened Grid
  import opened SolverState
  import opened PrimeStep
  import Preprocess

  /** Cell (i, j) lies in an uncovered row and an uncovered column. */
  predicate Uncovered(s: State, i: nat, j: nat)
    requires s.WellFormed()
  {
    i < s.Size() && j < s.Size() && !s.rowCover[i] && !s.colCover[j]
  }

  /** Cell `a` is cell (r, c) or comes after it in row-major order. */
  predicate AtOrAfter(a: Cell, r: nat, c: nat) {
    a.row > r || (a.row == r && a.col >= c)
  }

  /** Cell `a` comes strictly before cell `b` in row-major order. */
  predicate RowMajorBefore(a: Cell, b: Cell) {
    a.row < b.row || (a.row == b.row && a.col < b.col)
  }

  /** The cells of `cs` come in strictly increasing row-major order. */
  predicate RowMajorSorted(cs: seq<Cell>) {
    forall k1, k2 :: 0 <= k1 < k2 < |cs| ==> RowMajorBefore(cs[k1], cs[k2])
  }

  /** A cell before every cell of a sorted list can be put in front. */
  lemma ConsRowMajor(x: Cell, rest: seq<Cell>)
    requires RowMajorSorted(rest)
    requires forall k :: 0 <= k < |rest| ==> RowMajorBefore(x, rest[k])
    ensures RowMajorSorted([x] + rest)
  {
    var cs := [x] + rest;
    forall k1, k2 | 0 <= k1 < k2 < |cs| ensures RowMajorBefore(cs[k1], cs[k2]) {
      assert cs[k2] == rest[k2 - 1];
      if k1 > 0 {
        assert cs[k1] == rest[k1 - 1];
      }
    }
  }

  /** The uncovered cells from (r, c) on, in row-major order. */
  function UncoveredCells(s: State, r: nat, c: nat): (cs: seq<Cell>)
    requires s.WellFormed() && r <= s.Size() && c <= s.Size()
    ensures forall k :: 0 <= k < |cs| ==> Uncovered(s, cs[k].row, cs[k].col) && AtOrAfter(cs[k], r, c)
    ensures forall i: nat, j: nat :: Uncovered(s, i, j) && AtOrAfter(Cell(i, j), r, c) ==> Cell(i, j) in cs
    ensures RowMajorSorted(cs)
    decreases s.Size() - r, s.Size() - c
  {
    if r == s.Size() then []
    else if c == s.Size() then UncoveredCells(s, r + 1, 0)
    else
      var rest := UncoveredCells(s, r, c + 1);
      assert forall i: nat, j: nat :: AtOrAfter(Cell(i, j), r, c) && Cell(i, j) != Cell(r, c) ==>
        AtOrAfter(Cell(i, j), r, c + 1);
      if Uncovered(s, r, c) then
        var cs := [Cell(r, c)] + rest;
        ConsRowMajor(Cell(r, c), rest);
        assert forall k :: 0 <= k < |rest| ==> cs[k + 1] == rest[k];
        assert cs[0] == Cell(r, c);
        cs
      else
        rest
  }

  /** The entries of the uncovered cells, in the order step 5 visits them. */
  function UncoveredValues(s: State): (vs: seq<int>)
    requires s.WellFormed()
    ensures forall i: nat, j: nat :: Uncovered(s, i, j) ==> s.cost[i][j] in vs
  {
    var cs := UncoveredCells(s, 0, 0);
    var vs := seq(|cs|, k requires 0 <= k < |cs| => s.cost[cs[k].row][cs[k].col]);
    assert forall i: nat, j: nat :: Uncovered(s, i, j) ==> s.cost[i][j] in vs by {
      forall i: nat, j: nat | Uncovered(s, i, j) ensures s.cost[i][j] in vs {
        assert Cell(i, j) in cs;
        var k :| 0 <= k < |cs| && cs[k] == Cell(i, j);
        assert vs[k] == s.cost[i][j];
      }
    }
    vs
  }

  /** One update of `h` by an uncovered entry `v`, as written in the source:
      `v` replaces `h` when `h` is still zero, or when `v` is smaller than `h`
      and non-zero. */
  function NextH(h: int, v: int): int {
    if (h > v && v != 0) || h == 0 then v else h
  }

  /** `h` after the updates by `vs`, in order. */
  function FoldH(h: int, vs: seq<int>): int
    decreases |vs|
  {
    if vs == [] then h else FoldH(NextH(h, vs[0]), vs[1..])
  }

  /** Started from zero or a positive value and fed positive entries only,
      the update rule computes the minimum: of the start value when it is
      positive, and of the entries. */
  lemma {:induction false} FoldHIsMin(h: int, vs: seq<int>)
    requires h >= 0
    requires forall k :: 0 <= k < |vs| ==> vs[k] > 0
    ensures h == 0 && vs == [] ==> FoldH(h, vs) == 0
    ensures h > 0 || vs != [] ==> FoldH(h, vs) > 0
    ensures forall k :: 0 <= k < |vs| ==> FoldH(h, vs) <= vs[k]
    ensures forall v :: v in vs ==> FoldH(h, vs) <= v
    ensures h > 0 ==> FoldH(h, vs) <= h
    ensures FoldH(h, vs) == h || FoldH(h, vs) in vs
    decreases |vs|
  {
    if vs != [] {
      FoldHIsMin(NextH(h, vs[0]), vs[1..]);
      assert forall k :: 1 <= k < |vs| ==> vs[k] == vs[1..][k - 1];
    }
  }

  /** The `h` of step 5. */
  function Step5H(s: State): int
    requires s.WellFormed()
  {
    FoldH(0, UncoveredValues(s))
  }

  /** Step 5: add `h` to every covered row and subtract it from every
      uncovered column, so an entry covered by exactly one line keeps its
      value, an entry covered twice gains `h`, and an uncovered entry loses
      `h`. Stars, primes, covers and the saved zero are untouched; step 3
      follows. */
  function Step5(s: State): (t: Transition)
    requires s.WellFormed()
    ensures t.next == 3
    ensures t.state == s.(cost := t.state.cost) && t.state.WellFormed()
    ensures forall i, j :: 0 <= i < s.Size() && 0 <= j < s.Size() && s.rowCover[i] != s.colCover[j] ==>
      t.state.cost[i][j] == s.cost[i][j]
    ensures forall i, j :: 0 <= i < s.Size() && 0 <= j < s.Size() && s.rowCover[i] && s.colCover[j] ==>
      t.state.cost[i][j] == s.cost[i][j] + Step5H(s)
    ensures forall i, j :: 0 <= i < s.Size() && 0 <= j < s.Size() && !s.rowCover[i] && !s.colCover[j] ==>
      t.state.cost[i][j] == s.cost[i][j] - Step5H(s)
  {
    var n := s.Size();
    var h := Step5H(s);
    var cost := seq(n, i requires 0 <= i < n => seq(n, j requires 0 <= j < n =>
      s.cost[i][j] + (if s.rowCover[i] then h else 0) - (if !s.colCover[j] then h else 0)));
    Transition(s.(cost := cost), 3)
  }

  /** Some cell lies in an uncovered row and an uncovered column. */
  ghost predicate HasUncoveredCell(s: State)
    requires s.WellFormed()
  {
    exists i: nat, j: nat :: Uncovered(s, i, j)
  }

  /** Every entry of the working matrix is non-negative. */
  predicate NonNegativeCost(s: State) {
    Preprocess.NonNegative(s.cost)
  }

  /** Every value in the list is the entry of an uncovered cell. */
  lemma UncoveredValueCell(s: State, v: int)
    requires s.WellFormed() && v in UncoveredValues(s)
    ensures exists i: nat, j: nat :: Uncovered(s, i, j) && s.cost[i][j] == v
  {
    var cs := UncoveredCells(s, 0, 0);
    var vs := UncoveredValues(s);
    var k :| 0 <= k < |vs| && vs[k] == v;
    assert Uncovered(s, cs[k].row, cs[k].col) && s.cost[cs[k].row][cs[k].col] == v;
  }

  /** With non-negative costs and no uncovered zero, the list holds positive
      values only. */
  lemma UncoveredValuesPositive(s: State)
    requires s.WellFormed() && NonNegativeCost(s) && NoUncoveredZero(s)
    ensures forall k :: 0 <= k < |UncoveredValues(s)| ==> UncoveredValues(s)[k] > 0
  {
    var cs := UncoveredCells(s, 0, 0);
    var vs := UncoveredValues(s);
    forall k | 0 <= k < |vs| ensures vs[k] > 0 {
      assert vs[k] == s.cost[cs[k].row][cs[k].col];
      assert !UncoveredItem(s, 0, cs[k].row, cs[k].col);
    }
  }

  /** When step 3 found no uncovered zero and the costs are non-negative, `h`
      is the smallest uncovered entry, and it is positive if any cell is
      uncovered. */
  lemma Step5HIsMinUncovered(s: State)
    requires s.WellFormed() && NonNegativeCost(s) && NoUncoveredZero(s)
    ensures forall i: nat, j: nat :: Uncovered(s, i, j) ==> Step5H(s) <= s.cost[i][j]
    ensures HasUncoveredCell(s) ==>
      Step5H(s) > 0 && exists i: nat, j: nat :: Uncovered(s, i, j) && s.cost[i][j] == Step5H(s)
  {
    var vs := UncoveredValues(s);
    UncoveredValuesPositive(s);
    FoldHIsMin(0, vs);
    if HasUncoveredCell(s) {
      var i: nat, j: nat :| Uncovered(s, i, j);
      assert s.cost[i][j] in vs;
      UncoveredValueCell(s, Step5H(s));
    }
  }

  /** Step 5 after a step 3 that found no uncovered zero: every entry stays
      non-negative, and, when some cell is uncovered, the smallest uncovered
      entry becomes an uncovered zero. */
  lemma Step5Adjusts(s: State)
    requires s.WellFormed() && NonNegativeCost(s) && NoUncoveredZero(s)
    ensures NonNegativeCost(Step5(s).state)
    ensures HasUncoveredCell(s) ==> !NoUncoveredZero(Step5(s).state)
  {
    Step5HIsMinUncovered(s);
    var t := Step5(s).state;
    var h := Step5H(s);
    assert h >= 0 by {
      UncoveredValuesPositive(s);
      FoldHIsMin(0, UncoveredValues(s));
    }
    forall i, j | 0 <= i < |t.cost| && 0 <= j < |t.cost[i]| ensures t.cost[i][j] >= 0 {
      assert s.cost[i][j] >= 0;
      if !s.rowCover[i] && !s.colCover[j] {
        assert Uncovered(s, i, j);
      }
    }
    if HasUncoveredCell(s) {
      var i: nat, j: nat :| Uncovered(s, i, j) && s.cost[i][j] == h;
      assert UncoveredItem(t, 0, i, j);
    }
  }
}
