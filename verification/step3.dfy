/** Step 3 of the solver: prime an uncovered zero and adjust the covers. */
module PrimeStep {
  import opened Grid
  import opened Wrappers
  import opened SolverState

  /** Cell (r, c) holds `item` and lies in an uncovered row and an uncovered
      column. */
  predicate UncoveredItem(s: State, item: int, r: nat, c: nat)
    requires s.WellFormed()
  {
    r < s.Size() && c < s.Size() && !s.rowCover[r] && !s.colCover[c] && s.cost[r][c] == item
  }

  /** No zero lies in an uncovered row and an uncovered column. */
  predicate NoUncoveredZero(s: State)
    requires s.WellFormed()
  {
    forall r, c :: 0 <= r < s.Size() && 0 <= c < s.Size() ==> !UncoveredItem(s, 0, r, c)
  }

  /** Cell `a` comes before cell `b` in column-major order. */
  predicate Before(a: Cell, b: Cell) {
    a.col < b.col || (a.col == b.col && a.row < b.row)
  }

  /** The first row at or after `r` that is uncovered and holds `item` in
      column `c`. */
  function ScanRows(s: State, item: int, c: nat, r: nat): (res: Option<nat>)
    requires s.WellFormed() && c < s.Size() && r <= s.Size()
    ensures res.Some? ==> r <= res.value < s.Size() && !s.rowCover[res.value] && s.cost[res.value][c] == item
    ensures forall i :: r <= i < s.Size() && (res.None? || i < res.value) ==>
      s.rowCover[i] || s.cost[i][c] != item
    decreases s.Size() - r
  {
    if r == s.Size() then None
    else if !s.rowCover[r] && s.cost[r][c] == item then Some(r)
    else ScanRows(s, item, c, r + 1)
  }

  /** The first uncovered cell holding `item` in column-major order, starting
      from column `c`: columns outer, rows inner. */
  function ScanColumns(s: State, item: int, c: nat): (res: Option<Cell>)
    requires s.WellFormed() && c <= s.Size()
    ensures res.Some? ==> c <= res.value.col && UncoveredItem(s, item, res.value.row, res.value.col)
    ensures forall i, j :: 0 <= i < s.Size() && c <= j < s.Size() && UncoveredItem(s, item, i, j) ==>
      res.Some? && !Before(Cell(i, j), res.value)
    decreases s.Size() - c
  {
    if c == s.Size() then None
    else if !s.colCover[c] then
      match ScanRows(s, item, c, 0)
      case Some(r) => Some(Cell(r, c))
      case None => ScanColumns(s, item, c + 1)
    else ScanColumns(s, item, c + 1)
  }

  /** `find_uncovered`: the first uncovered cell holding `item`, scanning
      columns outer and rows inner, or nothing when there is none. */
  function FindUncovered(s: State, item: int): (res: Option<Cell>)
    requires s.WellFormed()
    ensures res.Some? ==> UncoveredItem(s, item, res.value.row, res.value.col)
    ensures res.Some? ==> forall i, j ::
      0 <= i < s.Size() && 0 <= j < s.Size() && Before(Cell(i, j), res.value) ==> !UncoveredItem(s, item, i, j)
    ensures res.None? <==> forall i, j :: 0 <= i < s.Size() && 0 <= j < s.Size() ==>
      !UncoveredItem(s, item, i, j)
  {
    ScanColumns(s, item, 0)
  }

  /** The first column at or after `c` whose cell in row `r` is a star. */
  function StarInRow(mask: seq<seq<Mark>>, n: nat, r: nat, c: nat): (res: Option<nat>)
    requires IsGrid(mask, n, n) && r < n && c <= n
    ensures res.Some? ==> c <= res.value < n && mask[r][res.value] == Star
    ensures res.Some? ==> forall j :: c <= j < res.value ==> mask[r][j] != Star
    ensures res.None? <==> forall j :: c <= j < n ==> mask[r][j] != Star
    decreases n - c
  {
    if c == n then None
    else if mask[r][c] == Star then Some(c)
    else StarInRow(mask, n, r, c + 1)
  }

  /** Step 3: find the first uncovered zero. With none, step 5 follows and
      nothing changes. Otherwise the zero is primed and saved; if its row
      holds a star, the row is covered, the star's column uncovered, and step
      3 repeats; if not, step 4 follows with covers unchanged. The cost
      matrix never changes. */
  function Step3(s: State): (t: Transition)
    requires s.WellFormed()
    ensures t.state.WellFormed() && t.state.cost == s.cost
    ensures t.next == 3 || t.next == 4 || t.next == 5
    ensures t.next == 5 <==> NoUncoveredZero(s)
    ensures t.next == 5 ==> t.state == s
    ensures t.next != 5 ==>
      var z := Cell(t.state.saveRow, t.state.saveCol);
      && UncoveredItem(s, 0, z.row, z.col)
      && (forall i, j :: 0 <= i < s.Size() && 0 <= j < s.Size() && Before(Cell(i, j), z) ==>
            !UncoveredItem(s, 0, i, j))
      && t.state.mask == SetMark(s.mask, z.row, z.col, Prime)
    ensures t.next == 3 ==>
      exists k :: 0 <= k < s.Size() && t.state.mask[t.state.saveRow][k] == Star
        && t.state.rowCover == s.rowCover[t.state.saveRow := true]
        && t.state.colCover == s.colCover[k := false]
    ensures t.next == 4 ==>
      && !RowHasStar(t.state.mask, t.state.saveRow)
      && t.state.rowCover == s.rowCover && t.state.colCover == s.colCover
  {
    var n := s.Size();
    match FindUncovered(s, 0)
    case None => Transition(s, 5)
    case Some(z) =>
      var primed := s.(mask := SetMark(s.mask, z.row, z.col, Prime), saveRow := z.row, saveCol := z.col);
      match StarInRow(primed.mask, n, z.row, 0)
      case Some(k) =>
        Transition(primed.(rowCover := s.rowCover[z.row := true], colCover := s.colCover[k := false]), 3)
      case None =>
        Transition(primed, 4)
  }
}
