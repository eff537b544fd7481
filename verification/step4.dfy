/** Step 4 of the solver: build the alternating sequence of primed and
    starred zeros from the saved prime, flip it, and clear primes and covers. */
module AugmentStep {
  import opened Grid
  import opened Wrappers
  import opened SolverState

  /** `pair_in_list`: whether `needle` occurs in `haystack`. */
  function PairInList(needle: Cell, haystack: seq<Cell>): (r: bool)
    ensures r <==> needle in haystack
  {
    if haystack == [] then false
    else haystack[0] == needle || PairInList(needle, haystack[1..])
  }

  /** Every cell of `path` lies in the `n x n` matrix. */
  predicate InBounds(path: seq<Cell>, n: nat) {
    forall k :: 0 <= k < |path| ==> path[k].row < n && path[k].col < n
  }

  /** The cells of an `n x n` matrix. */
  function Square(n: nat): set<Cell> {
    set r, c | 0 <= r < n && 0 <= c < n :: Cell(r, c)
  }

  /** The cells already in `path`. */
  function Visited(path: seq<Cell>): set<Cell> {
    set p | p in path
  }

  /** The first row at or after `r` whose cell in column `col` is a star that
      is not yet in `path`. */
  function StarInColumn(mask: seq<seq<Mark>>, n: nat, col: nat, path: seq<Cell>, r: nat): (res: Option<nat>)
    requires IsGrid(mask, n, n) && col < n && r <= n
    ensures res.Some? ==> r <= res.value < n && mask[res.value][col] == Star && Cell(res.value, col) !in path
    ensures forall i :: r <= i < n && (res.None? || i < res.value) ==>
      mask[i][col] != Star || Cell(i, col) in path
    decreases n - r
  {
    if r == n then None
    else if mask[r][col] == Star && !PairInList(Cell(r, col), path) then Some(r)
    else StarInColumn(mask, n, col, path, r + 1)
  }

  /** The first column at or after `c` whose cell in row `row` is a prime
      that is not yet in `path`. */
  function PrimeInRow(mask: seq<seq<Mark>>, n: nat, row: nat, path: seq<Cell>, c: nat): (res: Option<nat>)
    requires IsGrid(mask, n, n) && row < n && c <= n
    ensures res.Some? ==> c <= res.value < n && mask[row][res.value] == Prime && Cell(row, res.value) !in path
    ensures forall j :: c <= j < n && (res.None? || j < res.value) ==>
      mask[row][j] != Prime || Cell(row, j) in path
    decreases n - c
  {
    if c == n then None
    else if mask[row][c] == Prime && !PairInList(Cell(row, c), path) then Some(c)
    else PrimeInRow(mask, n, row, path, c + 1)
  }

  /** Every cell after the first alternates: a star (odd positions) lies in
      the column of the cell before it, a prime (even positions) in its row. */
  ghost predicate Alternates(mask: seq<seq<Mark>>, n: nat, path: seq<Cell>)
    requires IsGrid(mask, n, n) && InBounds(path, n)
  {
    forall k :: 1 <= k < |path| ==> Link(mask, n, path, k)
  }

  /** The `k`-th cell of `path` continues the alternation from the one
      before it. */
  predicate Link(mask: seq<seq<Mark>>, n: nat, path: seq<Cell>, k: nat)
    requires IsGrid(mask, n, n) && InBounds(path, n) && 1 <= k < |path|
  {
    if k % 2 == 1 then
      mask[path[k].row][path[k].col] == Star && path[k].col == path[k - 1].col
    else
      mask[path[k].row][path[k].col] == Prime && path[k].row == path[k - 1].row
  }

  /** Appending a cell that continues the alternation keeps it. */
  lemma AlternatesExtend(mask: seq<seq<Mark>>, n: nat, path: seq<Cell>, x: Cell)
    requires IsGrid(mask, n, n) && InBounds(path, n) && x.row < n && x.col < n
    requires 0 < |path| && Alternates(mask, n, path)
    requires |path| % 2 == 1 ==> mask[x.row][x.col] == Star && x.col == path[|path| - 1].col
    requires |path| % 2 == 0 ==> mask[x.row][x.col] == Prime && x.row == path[|path| - 1].row
    ensures InBounds(path + [x], n) && Alternates(mask, n, path + [x])
  {
    var p := path + [x];
    assert InBounds(p, n) by {
      forall k | 0 <= k < |p| ensures p[k].row < n && p[k].col < n {
        if k < |path| { assert p[k] == path[k]; }
      }
    }
    forall k | 1 <= k < |p|
      ensures Link(mask, n, p, k)
    {
      if k < |path| {
        assert Link(mask, n, path, k);
        assert p[k] == path[k] && p[k - 1] == path[k - 1];
      } else {
        assert k == |path| && p[k] == x && p[k - 1] == path[|path| - 1];
      }
    }
  }

  /** Appending a new cell of the matrix keeps a sequence repetition-free and
      in bounds, and leaves fewer cells unvisited. */
  lemma ExtendFresh(path: seq<Cell>, x: Cell, n: nat)
    requires Distinct(path) && InBounds(path, n) && x.row < n && x.col < n && x !in path
    ensures Distinct(path + [x]) && InBounds(path + [x], n)
    ensures Square(n) - Visited(path + [x]) < Square(n) - Visited(path)
  {
    assert x in Square(n);
    assert Visited(path + [x]) == Visited(path) + {x};
  }

  /** Every star of column `col` is already in `path`. */
  predicate NoStarLeftInColumn(mask: seq<seq<Mark>>, n: nat, col: nat, path: seq<Cell>)
    requires IsGrid(mask, n, n) && col < n
  {
    forall i :: 0 <= i < n ==> mask[i][col] != Star || Cell(i, col) in path
  }

  /** Every prime of row `row` is already in `path`. */
  predicate NoPrimeLeftInRow(mask: seq<seq<Mark>>, n: nat, row: nat, path: seq<Cell>)
    requires IsGrid(mask, n, n) && row < n
  {
    forall j :: 0 <= j < n ==> mask[row][j] != Prime || Cell(row, j) in path
  }

  /** The cell that continues the alternating sequence `path`, if any: after
      a prime (odd length), the first star of its column not yet in the
      sequence; after a star (even length), the first prime of its row not
      yet in the sequence. */
  function NextCell(mask: seq<seq<Mark>>, n: nat, path: seq<Cell>): (x: Option<Cell>)
    requires IsGrid(mask, n, n) && 0 < |path| && InBounds(path, n)
    ensures x.Some? ==> x.value.row < n && x.value.col < n && x.value !in path
    ensures x.Some? && |path| % 2 == 1 ==>
      mask[x.value.row][x.value.col] == Star && x.value.col == path[|path| - 1].col
    ensures x.Some? && |path| % 2 == 0 ==>
      mask[x.value.row][x.value.col] == Prime && x.value.row == path[|path| - 1].row
    ensures x.None? && |path| % 2 == 1 ==> NoStarLeftInColumn(mask, n, path[|path| - 1].col, path)
    ensures x.None? && |path| % 2 == 0 ==> NoPrimeLeftInRow(mask, n, path[|path| - 1].row, path)
  {
    var last := path[|path| - 1];
    if |path| % 2 == 1 then
      match StarInColumn(mask, n, last.col, path, 0)
      case Some(i) => Some(Cell(i, last.col))
      case None => None
    else
      match PrimeInRow(mask, n, last.row, path, 0)
      case Some(j) => Some(Cell(last.row, j))
      case None => None
  }

  /** Extends the alternating sequence `path` cell by cell until `NextCell`
      finds nothing: a sequence of odd length ends because its last column
      has no star left, one of even length because its last row has no prime
      left. */
  function Alternate(mask: seq<seq<Mark>>, n: nat, path: seq<Cell>): (res: seq<Cell>)
    requires IsGrid(mask, n, n) && 0 < |path|
    requires Distinct(path) && InBounds(path, n) && Alternates(mask, n, path)
    ensures |path| <= |res| && res[..|path|] == path
    ensures Distinct(res) && InBounds(res, n) && Alternates(mask, n, res)
    ensures |res| % 2 == 1 ==> NoStarLeftInColumn(mask, n, res[|res| - 1].col, res)
    ensures |res| % 2 == 0 ==> NoPrimeLeftInRow(mask, n, res[|res| - 1].row, res)
    decreases Square(n) - Visited(path)
  {
    match NextCell(mask, n, path)
    case None =>
      assert path[..|path|] == path;
      path
    case Some(x) =>
      var p := path + [x];
      ExtendFresh(path, x, n);
      AlternatesExtend(mask, n, path, x);
      var res := Alternate(mask, n, p);
      assert res[..|path|] == path by {
        assert res[..|path|] == res[..|p|][..|path|];
        assert p[..|path|] == path;
      }
      res
  }

  /** The alternating sequence of step 4: it starts at the saved prime, and
      never repeats a cell. */
  function AlternatingPath(s: State): (path: seq<Cell>)
    requires s.WellFormed() && s.saveRow < s.Size() && s.saveCol < s.Size()
    ensures 0 < |path| && path[0] == Cell(s.saveRow, s.saveCol)
    ensures Distinct(path) && InBounds(path, s.Size()) && Alternates(s.mask, s.Size(), path)
    ensures |path| % 2 == 1 ==> NoStarLeftInColumn(s.mask, s.Size(), path[|path| - 1].col, path)
    ensures |path| % 2 == 0 ==> NoPrimeLeftInRow(s.mask, s.Size(), path[|path| - 1].row, path)
  {
    var z0 := [Cell(s.saveRow, s.saveCol)];
    var path := Alternate(s.mask, s.Size(), z0);
    assert path[..1] == z0;
    path
  }

  /** A cell of the sequence as step 4 rewrites it: a star is unstarred and a
      prime is starred. */
  function Flip(k: Mark): Mark {
    var unstarred := if k == Star then Normal else k;
    if unstarred == Prime then Star else unstarred
  }

  /** Rewrites the cells of `path` one after the other with `Flip`. On a
      sequence without repetitions, exactly the cells of the sequence are
      flipped, each once. */
  function FlipPath(mask: seq<seq<Mark>>, n: nat, path: seq<Cell>): (res: seq<seq<Mark>>)
    requires IsGrid(mask, n, n) && InBounds(path, n)
    ensures IsGrid(res, n, n)
    ensures Distinct(path) ==> forall i, j :: 0 <= i < n && 0 <= j < n ==>
      res[i][j] == if Cell(i, j) in path then Flip(mask[i][j]) else mask[i][j]
    decreases |path|
  {
    if path == [] then mask
    else
      var p := path[0];
      var next := SetMark(mask, p.row, p.col, Flip(mask[p.row][p.col]));
      var res := FlipPath(next, n, path[1..]);
      assert Distinct(path) ==> Distinct(path[1..]) && p !in path[1..];
      assert forall q :: q in path <==> q == p || q in path[1..];
      res
  }

  /** Every prime becomes `NORMAL`; every other cell stays as it is. */
  function ErasePrimes(mask: seq<seq<Mark>>, n: nat): (res: seq<seq<Mark>>)
    requires IsGrid(mask, n, n)
    ensures IsGrid(res, n, n) && NoPrimes(res)
    ensures forall i, j :: 0 <= i < n && 0 <= j < n && mask[i][j] != Prime ==> res[i][j] == mask[i][j]
  {
    seq(n, i requires 0 <= i < n => seq(n, j requires 0 <= j < n =>
      if mask[i][j] == Prime then Normal else mask[i][j]))
  }

  /** Step 4: the stars of the alternating sequence are unstarred and its
      primes starred; then every remaining prime is erased and all rows and
      columns are uncovered. The next step is always 2. */
  function Step4(s: State): (t: Transition)
    requires s.WellFormed() && s.saveRow < s.Size() && s.saveCol < s.Size()
    ensures t.next == 2
    ensures t.state.WellFormed() && t.state.cost == s.cost
    ensures t.state.saveRow == s.saveRow && t.state.saveCol == s.saveCol
    ensures NoPrimes(t.state.mask)
    ensures forall i :: 0 <= i < s.Size() ==> !t.state.rowCover[i] && !t.state.colCover[i]
    ensures forall i, j :: 0 <= i < s.Size() && 0 <= j < s.Size() ==>
      (t.state.mask[i][j] == Star <==>
        if Cell(i, j) in AlternatingPath(s) then s.mask[i][j] == Prime else s.mask[i][j] == Star)
  {
    var n := s.Size();
    var path := AlternatingPath(s);
    var flipped := FlipPath(s.mask, n, path);
    var mask := ErasePrimes(flipped, n);
    Transition(s.(mask := mask, rowCover := seq(n, _ => false), colCover := seq(n, _ => false)), 2)
  }
}
