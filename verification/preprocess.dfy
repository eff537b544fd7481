/** The preparation of the cost matrix in `munkres::solve`: padding a
    non-square input to a square working matrix, replacing infinite entries,
    and reducing every row and then every column by its minimum. */
module Preprocess {
  import opened Grid
  import opened Wrappers

  /** A cost: a finite integer or positive infinity. */
  datatype Entry = Finite(value: int) | Infinite

  /** The ways `solve` can fail instead of returning an assignment. */
  datatype Fault =
    | NoElements   // the maximum of an empty set of entries was requested
    | ZeroDivisor  // `mod` was called with divisor 0
    | OutOfFuel    // the step loop did not finish within the given fuel

  /** The order on costs: infinity is above every finite cost. */
  predicate Le(a: Entry, b: Entry) {
    b.Infinite? || (a.Finite? && a.value <= b.value)
  }

  function Larger(a: Entry, b: Entry): (r: Entry)
    ensures Le(a, r) && Le(b, r) && (r == a || r == b)
  {
    if Le(a, b) then b else a
  }

  /** `e` is one of the entries of `m`. */
  predicate Occurs(m: seq<seq<Entry>>, e: Entry) {
    exists i, j :: 0 <= i < |m| && 0 <= j < |m[i]| && m[i][j] == e
  }

  /** `e` is at least every entry of `m`. */
  predicate Bounds(m: seq<seq<Entry>>, e: Entry) {
    forall i, j :: 0 <= i < |m| && 0 <= j < |m[i]| ==> Le(m[i][j], e)
  }

  function MaxOfRow(row: seq<Entry>): (r: Entry)
    requires |row| > 0
    ensures r in row
    ensures forall j :: 0 <= j < |row| ==> Le(row[j], r)
  {
    if |row| == 1 then row[0] else Larger(row[0], MaxOfRow(row[1..]))
  }

  /** The largest entry of a non-empty matrix (`Mat::max`). */
  function MaxEntry(m: seq<seq<Entry>>, rows: nat, cols: nat): (r: Entry)
    requires IsGrid(m, rows, cols) && rows > 0 && cols > 0
    ensures Occurs(m, r) && Bounds(m, r)
  {
    if rows == 1 then
      var e := MaxOfRow(m[0]);
      assert exists j :: 0 <= j < cols && m[0][j] == e;
      e
    else
      var rest := MaxEntry(m[1..], rows - 1, cols);
      var head := MaxOfRow(m[0]);
      var e := Larger(head, rest);
      assert forall i, j :: 1 <= i < rows && 0 <= j < cols ==> m[i][j] == m[1..][i - 1][j];
      assert exists j :: 0 <= j < cols && m[0][j] == head;
      e
  }

  function MaxSize(rows: nat, cols: nat): (size: nat)
    ensures size >= rows && size >= cols && (size == rows || size == cols)
  {
    if rows > cols then rows else cols
  }

  /** Pads a non-square matrix to `size x size`, `size = max(rows, cols)`,
      filling the added rows or columns with the matrix's largest entry. A
      square matrix is returned as it is. Asking an empty non-square matrix
      for its largest entry fails. */
  function Pad(m: seq<seq<Entry>>, rows: nat, cols: nat): (r: Result<seq<seq<Entry>>, Fault>)
    requires IsGrid(m, rows, cols)
    ensures r.Success? <==> rows == cols || (rows > 0 && cols > 0)
    ensures r.Failure? ==> r.error == NoElements
    ensures r.Success? ==>
      var size := MaxSize(rows, cols);
      && IsGrid(r.value, size, size)
      && (forall i, j :: 0 <= i < rows && 0 <= j < cols ==> r.value[i][j] == m[i][j])
      && (forall i, j :: 0 <= i < size && 0 <= j < size && (i >= rows || j >= cols) ==>
            Occurs(m, r.value[i][j]) && Bounds(m, r.value[i][j]))
  {
    if rows == cols then Success(m)
    else if rows == 0 || cols == 0 then Failure(NoElements)
    else
      var value := MaxEntry(m, rows, cols);
      var size := MaxSize(rows, cols);
      Success(seq(size, i requires 0 <= i < size =>
        seq(size, j requires 0 <= j < size =>
          if i < rows && j < cols then m[i][j] else value)))
  }

  /** Some entry of `m` is infinite (`Mat::has_inf`). */
  predicate HasInf(m: seq<seq<Entry>>) {
    exists i, j :: 0 <= i < |m| && 0 <= j < |m[i]| && m[i][j].Infinite?
  }

  /** `v` is the value of a finite entry of `m`. */
  predicate FiniteOccurs(m: seq<seq<Entry>>, v: int) {
    exists i, j :: 0 <= i < |m| && 0 <= j < |m[i]| && m[i][j] == Finite(v)
  }

  /** `v` is at least every finite entry of `m`. */
  predicate FiniteBounds(m: seq<seq<Entry>>, v: int) {
    forall i, j :: 0 <= i < |m| && 0 <= j < |m[i]| && m[i][j].Finite? ==> m[i][j].value <= v
  }

  function MaxOpt(a: Option<int>, b: Option<int>): Option<int> {
    match (a, b)
    case (None, _) => b
    case (_, None) => a
    case (Some(x), Some(y)) => if x < y then b else a
  }

  function MaxFiniteOfRow(row: seq<Entry>): (r: Option<int>)
    ensures r.None? <==> forall j :: 0 <= j < |row| ==> row[j].Infinite?
    ensures r.Some? ==> Finite(r.value) in row
    ensures r.Some? ==> forall j :: 0 <= j < |row| && row[j].Finite? ==> row[j].value <= r.value
  {
    if |row| == 0 then None
    else
      var rest := MaxFiniteOfRow(row[1..]);
      assert forall e :: e in row[1..] ==> e in row;
      if row[0].Infinite? then rest else MaxOpt(Some(row[0].value), rest)
  }

  /** The largest finite entry of `m`, if there is a finite entry at all. */
  function MaxFinite(m: seq<seq<Entry>>): (r: Option<int>)
    ensures r.None? <==> forall i, j :: 0 <= i < |m| && 0 <= j < |m[i]| ==> m[i][j].Infinite?
    ensures r.Some? ==> FiniteOccurs(m, r.value) && FiniteBounds(m, r.value)
  {
    if |m| == 0 then None
    else
      var head := MaxFiniteOfRow(m[0]);
      var rest := MaxFinite(m[1..]);
      assert forall i, j :: 1 <= i < |m| && 0 <= j < |m[i]| ==> m[i][j] == m[1..][i - 1][j];
      assert head.Some? ==> exists j :: 0 <= j < |m[0]| && m[0][j] == Finite(head.value);
      assert rest.Some? ==> FiniteOccurs(m, rest.value) by {
        if rest.Some? {
          var i, j :| 0 <= i < |m[1..]| && 0 <= j < |m[1..][i]| && m[1..][i][j] == Finite(rest.value);
          assert m[i + 1][j] == Finite(rest.value);
        }
      }
      MaxOpt(head, rest)
  }

  /** Replaces every infinite entry by the largest finite entry, when the
      matrix has an infinite entry; the largest finite entry of a matrix
      without finite entries does not exist, and asking for it fails. */
  function Sanitize(m: seq<seq<Entry>>, n: nat): (r: Result<seq<seq<int>>, Fault>)
    requires IsGrid(m, n, n)
    ensures r.Success? <==> !HasInf(m) || MaxFinite(m).Some?
    ensures r.Failure? ==> r.error == NoElements
    ensures r.Success? ==> IsGrid(r.value, n, n)
    ensures r.Success? ==> forall i, j :: 0 <= i < n && 0 <= j < n && m[i][j].Finite? ==>
      r.value[i][j] == m[i][j].value
    ensures r.Success? ==> forall i, j :: 0 <= i < n && 0 <= j < n && m[i][j].Infinite? ==>
      FiniteOccurs(m, r.value[i][j]) && FiniteBounds(m, r.value[i][j])
  {
    if !HasInf(m) then
      Success(seq(n, i requires 0 <= i < n => seq(n, j requires 0 <= j < n =>
        assert !m[i][j].Infinite?; m[i][j].value)))
    else
      match MaxFinite(m)
      case None => Failure(NoElements)
      case Some(top) =>
        Success(seq(n, i requires 0 <= i < n => seq(n, j requires 0 <= j < n =>
          if m[i][j].Infinite? then top else m[i][j].value)))
  }

  /** The substitution the comment of `solve` asks for: every infinite entry
      becomes one more than the largest finite entry, so that it is dearer
      than every finite entry. The failure cases are those of `Sanitize`. */
  function SanitizeAbove(m: seq<seq<Entry>>, n: nat): (r: Result<seq<seq<int>>, Fault>)
    requires IsGrid(m, n, n)
    ensures r.Success? <==> !HasInf(m) || MaxFinite(m).Some?
    ensures r.Failure? ==> r.error == NoElements
    ensures r.Success? ==> IsGrid(r.value, n, n)
    ensures r.Success? ==> forall i, j :: 0 <= i < n && 0 <= j < n && m[i][j].Finite? ==>
      r.value[i][j] == m[i][j].value
    ensures r.Success? ==> forall i, j, k, l ::
      0 <= i < n && 0 <= j < n && 0 <= k < n && 0 <= l < n && m[i][j].Infinite? && m[k][l].Finite? ==>
        r.value[i][j] > r.value[k][l]
  {
    if !HasInf(m) then
      Success(seq(n, i requires 0 <= i < n => seq(n, j requires 0 <= j < n =>
        assert !m[i][j].Infinite?; m[i][j].value)))
    else
      match MaxFinite(m)
      case None => Failure(NoElements)
      case Some(top) =>
        Success(seq(n, i requires 0 <= i < n => seq(n, j requires 0 <= j < n =>
          if m[i][j].Infinite? then top + 1 else m[i][j].value)))
  }

  /** The matrix with infinities on its diagonal and 5 elsewhere. */
  function InfiniteDiagonal(): (m: seq<seq<Entry>>)
    ensures IsGrid(m, 2, 2)
  {
    [[Infinite, Finite(5)], [Finite(5), Infinite]]
  }

  /** As written, the substitution makes the diagonal pairing of the matrix
      with infinite diagonal, whose cost is infinite, exactly as cheap as the
      finite anti-diagonal pairing: both infinities become 5. */
  lemma SanitizeTiesInfinity()
    ensures var r := Sanitize(InfiniteDiagonal(), 2);
      && r.Success? && r.value[0][0] == 5 && r.value[1][1] == 5
      && r.value[0][0] + r.value[1][1] == r.value[0][1] + r.value[1][0]
  {
    var m := InfiniteDiagonal();
    assert HasInf(m) by {
      assert m[0][0].Infinite?;
    }
    assert m[0][1] == Finite(5);
    var r := Sanitize(m, 2);
    assert r.Success?;
    forall i, j | 0 <= i < 2 && 0 <= j < 2 ensures r.value[i][j] == 5 {
      if m[i][j].Infinite? {
        assert FiniteOccurs(m, r.value[i][j]);
      }
    }
  }

  /** With the corrected substitution the diagonal pairing of the matrix with
      infinite diagonal is dearer than the anti-diagonal one. */
  lemma SanitizeAboveSeparates()
    ensures var r := SanitizeAbove(InfiniteDiagonal(), 2);
      r.Success? && r.value[0][0] + r.value[1][1] > r.value[0][1] + r.value[1][0]
  {
    var m := InfiniteDiagonal();
    assert HasInf(m) by {
      assert m[0][0].Infinite?;
    }
    assert m[0][1].Finite? && m[1][0].Finite? && m[0][0].Infinite? && m[1][1].Infinite?;
    assert MaxFinite(m).Some? by {
      assert !(forall i, j :: 0 <= i < |m| && 0 <= j < |m[i]| ==> m[i][j].Infinite?);
    }
  }

  /** The smallest value of a non-empty row. */
  function RowMin(row: seq<int>): (r: int)
    requires |row| > 0
    ensures r in row
    ensures forall j :: 0 <= j < |row| ==> r <= row[j]
  {
    if |row| == 1 then row[0]
    else
      var rest := RowMin(row[1..]);
      assert forall e :: e in row[1..] ==> e in row;
      if row[0] < rest then row[0] else rest
  }

  /** The smallest value of column `c` of a matrix with at least one row. */
  function ColMin(m: seq<seq<int>>, n: nat, c: nat): (r: int)
    requires IsGrid(m, n, n) && c < n
    ensures exists i :: 0 <= i < n && m[i][c] == r
    ensures forall i :: 0 <= i < n ==> r <= m[i][c]
  {
    var column := seq(n, i requires 0 <= i < n => m[i][c]);
    var r := RowMin(column);
    assert forall i :: 0 <= i < n ==> column[i] == m[i][c];
    r
  }

  /** Every entry is non-negative. */
  predicate NonNegative(m: seq<seq<int>>) {
    forall i, j :: 0 <= i < |m| && 0 <= j < |m[i]| ==> m[i][j] >= 0
  }

  /** Row `i` of an `n x n` matrix has a zero entry. */
  predicate RowHasZero(m: seq<seq<int>>, n: nat, i: nat)
    requires IsGrid(m, n, n) && i < n
  {
    exists j :: 0 <= j < n && m[i][j] == 0
  }

  /** Column `j` of an `n x n` matrix has a zero entry. */
  predicate ColHasZero(m: seq<seq<int>>, n: nat, j: nat)
    requires IsGrid(m, n, n) && j < n
  {
    exists i :: 0 <= i < n && m[i][j] == 0
  }

  /** Every row of an `n x n` matrix has a zero entry. */
  predicate ZeroInEveryRow(m: seq<seq<int>>, n: nat)
    requires IsGrid(m, n, n)
  {
    forall i :: 0 <= i < n ==> RowHasZero(m, n, i)
  }

  /** Every column of an `n x n` matrix has a zero entry. */
  predicate ZeroInEveryColumn(m: seq<seq<int>>, n: nat)
    requires IsGrid(m, n, n)
  {
    forall j :: 0 <= j < n ==> ColHasZero(m, n, j)
  }

  /** Subtracts from every row its minimum: each row is shifted by one
      amount, so that its smallest entry becomes zero. */
  function ReduceRows(m: seq<seq<int>>, n: nat): (r: seq<seq<int>>)
    requires IsGrid(m, n, n)
    ensures IsGrid(r, n, n)
    ensures NonNegative(r) && ZeroInEveryRow(r, n)
    ensures forall i, j, k :: 0 <= i < n && 0 <= j < n && 0 <= k < n ==>
      r[i][j] - r[i][k] == m[i][j] - m[i][k]
  {
    var r := seq(n, i requires 0 <= i < n => seq(n, j requires 0 <= j < n => m[i][j] - RowMin(m[i])));
    forall i, j | 0 <= i < n && 0 <= j < n
      ensures r[i][j] >= 0
    {
      assert RowMin(m[i]) <= m[i][j];
    }
    forall i | 0 <= i < n
      ensures RowHasZero(r, n, i)
    {
      var j :| 0 <= j < n && m[i][j] == RowMin(m[i]);
      assert r[i][j] == 0;
    }
    r
  }

  /** Subtracts from every column its minimum: each column is shifted by one
      amount, so that its smallest entry becomes zero. */
  function ReduceCols(m: seq<seq<int>>, n: nat): (r: seq<seq<int>>)
    requires IsGrid(m, n, n)
    ensures IsGrid(r, n, n)
    ensures NonNegative(r) && ZeroInEveryColumn(r, n)
    ensures forall i, j, k :: 0 <= i < n && 0 <= j < n && 0 <= k < n ==>
      r[i][j] - r[k][j] == m[i][j] - m[k][j]
  {
    var mins := seq(n, j requires 0 <= j < n => ColMin(m, n, j));
    var r := seq(n, i requires 0 <= i < n => seq(n, j requires 0 <= j < n => m[i][j] - mins[j]));
    forall j | 0 <= j < n
      ensures ColHasZero(r, n, j)
    {
      var i :| 0 <= i < n && m[i][j] == mins[j];
      assert r[i][j] == 0;
    }
    r
  }

  /** Reducing the columns of a row-reduced matrix keeps a zero in every row:
      a zero lies in a column whose minimum is zero. */
  lemma ReduceKeepsRowZeros(m: seq<seq<int>>, n: nat)
    requires IsGrid(m, n, n)
    ensures var r := ReduceCols(ReduceRows(m, n), n);
      NonNegative(r) && ZeroInEveryRow(r, n) && ZeroInEveryColumn(r, n)
  {
    var a := ReduceRows(m, n);
    var r := ReduceCols(a, n);
    forall i | 0 <= i < n
      ensures RowHasZero(r, n, i)
    {
      assert RowHasZero(a, n, i);
      var j :| 0 <= j < n && a[i][j] == 0;
      assert ColHasZero(r, n, j);
      var k :| 0 <= k < n && r[k][j] == 0;
      assert r[i][j] - r[k][j] == a[i][j] - a[k][j];
      assert a[k][j] >= 0;
      assert r[i][j] == 0;
    }
  }

  /** `r` is `m` with one amount subtracted from every row and one from
      every column. */
  ghost predicate ShiftedBy(r: seq<seq<int>>, m: seq<seq<int>>, n: nat)
    requires IsGrid(r, n, n) && IsGrid(m, n, n)
  {
    exists u: seq<int>, v: seq<int> :: |u| == n && |v| == n &&
      forall i, j :: 0 <= i < n && 0 <= j < n ==> r[i][j] == m[i][j] - u[i] - v[j]
  }

  /** Both reductions of lines 115 and 116 in turn: the result differs from
      the input by one shift per row and one per column, has no negative
      entry, and has a zero in every row and every column. */
  function Reduce(m: seq<seq<int>>, n: nat): (r: seq<seq<int>>)
    requires IsGrid(m, n, n)
    ensures IsGrid(r, n, n) && NonNegative(r)
    ensures ZeroInEveryRow(r, n) && ZeroInEveryColumn(r, n)
    ensures ShiftedBy(r, m, n)
  {
    var a := ReduceRows(m, n);
    var r := ReduceCols(a, n);
    ReduceKeepsRowZeros(m, n);
    ReductionShifts(m, a, r, n);
    r
  }

  /** A matrix whose differences within every row are those of `m` is `m`
      with one amount subtracted from each row. */
  lemma RowShift(m: seq<seq<int>>, a: seq<seq<int>>, n: nat) returns (u: seq<int>)
    requires IsGrid(m, n, n) && IsGrid(a, n, n)
    requires forall i, j, k :: 0 <= i < n && 0 <= j < n && 0 <= k < n ==> a[i][j] - a[i][k] == m[i][j] - m[i][k]
    ensures |u| == n && forall i, j :: 0 <= i < n && 0 <= j < n ==> a[i][j] == m[i][j] - u[i]
  {
    u := seq(n, i requires 0 <= i < n => m[i][0] - a[i][0]);
    forall i, j | 0 <= i < n && 0 <= j < n
      ensures a[i][j] == m[i][j] - u[i]
    {
      assert a[i][j] - a[i][0] == m[i][j] - m[i][0];
    }
  }

  /** A matrix whose differences within every column are those of `a` is
      `a` with one amount subtracted from each column. */
  lemma ColShift(a: seq<seq<int>>, r: seq<seq<int>>, n: nat) returns (v: seq<int>)
    requires IsGrid(a, n, n) && IsGrid(r, n, n)
    requires forall i, j, k :: 0 <= i < n && 0 <= j < n && 0 <= k < n ==> r[i][j] - r[k][j] == a[i][j] - a[k][j]
    ensures |v| == n && forall i, j :: 0 <= i < n && 0 <= j < n ==> r[i][j] == a[i][j] - v[j]
  {
    v := seq(n, j requires 0 <= j < n => a[0][j] - r[0][j]);
    forall i, j | 0 <= i < n && 0 <= j < n
      ensures r[i][j] == a[i][j] - v[j]
    {
      assert r[i][j] - r[0][j] == a[i][j] - a[0][j];
    }
  }

  /** A row-wise reduction followed by a column-wise one is a shift per row
      and a shift per column. */
  lemma ReductionShifts(m: seq<seq<int>>, a: seq<seq<int>>, r: seq<seq<int>>, n: nat)
    requires IsGrid(m, n, n) && IsGrid(a, n, n) && IsGrid(r, n, n)
    requires forall i, j, k :: 0 <= i < n && 0 <= j < n && 0 <= k < n ==> a[i][j] - a[i][k] == m[i][j] - m[i][k]
    requires forall i, j, k :: 0 <= i < n && 0 <= j < n && 0 <= k < n ==> r[i][j] - r[k][j] == a[i][j] - a[k][j]
    ensures ShiftedBy(r, m, n)
  {
    var u := RowShift(m, a, n);
    var v := ColShift(a, r, n);
    assert forall i, j :: 0 <= i < n && 0 <= j < n ==> r[i][j] == m[i][j] - u[i] - v[j];
  }

  /** The reduced working matrix as `solve` computes it: padded, with
      infinities replaced by the largest finite entry, then reduced along
      rows and along columns. */
  function Prepare(m: seq<seq<Entry>>, rows: nat, cols: nat): (r: Result<seq<seq<int>>, Fault>)
    requires IsGrid(m, rows, cols)
    ensures r.Success? <==> Pad(m, rows, cols).Success? && Sanitize(Pad(m, rows, cols).value, MaxSize(rows, cols)).Success?
    ensures r.Failure? ==> r.error == NoElements
    ensures r.Success? ==>
      var size := MaxSize(rows, cols);
      && IsGrid(r.value, size, size) && NonNegative(r.value)
      && ZeroInEveryRow(r.value, size) && ZeroInEveryColumn(r.value, size)
      && ShiftedBy(r.value, Sanitize(Pad(m, rows, cols).value, size).value, size)
  {
    var size := MaxSize(rows, cols);
    var padded :- Pad(m, rows, cols);
    var finite :- Sanitize(padded, size);
    Success(Reduce(finite, size))
  }

  /** The reduced working matrix with the intended substitution, infinities
      replaced by one more than the largest finite entry. */
  function PrepareAbove(m: seq<seq<Entry>>, rows: nat, cols: nat): (r: Result<seq<seq<int>>, Fault>)
    requires IsGrid(m, rows, cols)
    ensures r.Success? <==> Pad(m, rows, cols).Success? && SanitizeAbove(Pad(m, rows, cols).value, MaxSize(rows, cols)).Success?
    ensures r.Failure? ==> r.error == NoElements
    ensures r.Success? ==>
      var size := MaxSize(rows, cols);
      && IsGrid(r.value, size, size) && NonNegative(r.value)
      && ZeroInEveryRow(r.value, size) && ZeroInEveryColumn(r.value, size)
      && ShiftedBy(r.value, SanitizeAbove(Pad(m, rows, cols).value, size).value, size)
  {
    var size := MaxSize(rows, cols);
    var padded :- Pad(m, rows, cols);
    var finite :- SanitizeAbove(padded, size);
    Success(Reduce(finite, size))
  }

  /** Without infinite entries both substitutions leave the matrix as it is,
      so the two preparations agree. */
  lemma SanitizeAgree(m: seq<seq<Entry>>, n: nat)
    requires IsGrid(m, n, n) && !HasInf(m)
    ensures Sanitize(m, n).Success? && SanitizeAbove(m, n).Success?
    ensures Sanitize(m, n).value == SanitizeAbove(m, n).value
  {
    var a, b := Sanitize(m, n).value, SanitizeAbove(m, n).value;
    forall i | 0 <= i < n ensures a[i] == b[i] {
      forall j | 0 <= j < n ensures a[i][j] == b[i][j] {
        assert m[i][j].Finite?;
      }
    }
  }
}
