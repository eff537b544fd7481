/** The index helpers of the `arma` namespace: integer modulus, conversion
    of column-major linear indices to (row, column) subscripts, and a stable
    sort of subscript rows by their row component. */
module Indexing {
  import opened Grid

  /** Modulus after division, for non-negative integer operands. The
      divisor must be non-zero: the source asserts it. */
  function Mod(x: nat, y: nat): (r: nat)
    requires y != 0
    ensures r < y
    ensures exists q: nat :: x == q * y + r
  {
    assert x == (x / y) * y + x % y;
    x % y
  }

  /** Column-major linear index of a subscript in a matrix with `rows` rows. */
  function Sub2Ind(rows: nat, p: Cell): nat {
    p.col * rows + p.row
  }

  /** A positive multiple of `y` is at least `y`. */
  lemma {:induction false} MulAtLeast(a: nat, y: nat)
    requires a >= 1
    ensures a * y >= y
  {
    if a > 1 {
      MulAtLeast(a - 1, y);
      assert a * y == (a - 1) * y + y;
    }
  }

  /** `x == q * y + r` with `r < y` determines `q` and `r`. */
  lemma DivModUnique(x: nat, y: nat, q: nat, r: nat)
    requires 0 < y && r < y && x == q * y + r
    ensures x / y == q && x % y == r
  {
    var q', r' := x / y, x % y;
    assert x == q' * y + r';
    if q' < q {
      assert q * y == q' * y + (q - q') * y;
      MulAtLeast(q - q', y);
    } else if q < q' {
      assert q' * y == q * y + (q' - q) * y;
      MulAtLeast(q' - q, y);
    }
  }

  /** The subscript of one column-major linear index: row `x mod rows`,
      column `x / rows`. */
  function IndexToCell(rows: nat, x: nat): (c: Cell)
    requires rows != 0
    ensures c.row < rows && Sub2Ind(rows, c) == x
  {
    assert x == (x / rows) * rows + x % rows;
    Cell(Mod(x, rows), x / rows)
  }

  /** Converts column-major linear indices of a matrix with `rows` rows into
      (row, column) subscripts. */
  function Ind2Sub(rows: nat, ndx: seq<nat>): (sub: seq<Cell>)
    requires rows != 0
    ensures |sub| == |ndx|
    ensures forall i :: 0 <= i < |ndx| ==>
      sub[i].row < rows && Sub2Ind(rows, sub[i]) == ndx[i]
  {
    seq(|ndx|, i requires 0 <= i < |ndx| => IndexToCell(rows, ndx[i]))
  }

  /** Converting subscripts to linear indices and back is the identity. */
  lemma Ind2SubOfSub2Ind(rows: nat, cells: seq<Cell>)
    requires rows != 0
    requires forall i :: 0 <= i < |cells| ==> cells[i].row < rows
    ensures Ind2Sub(rows, seq(|cells|, i requires 0 <= i < |cells| => Sub2Ind(rows, cells[i]))) == cells
  {
    var ndx := seq(|cells|, i requires 0 <= i < |cells| => Sub2Ind(rows, cells[i]));
    var sub := Ind2Sub(rows, ndx);
    forall i | 0 <= i < |cells|
      ensures sub[i] == cells[i]
    {
      DivModUnique(ndx[i], rows, cells[i].col, cells[i].row);
    }
  }

  /** Row components never decrease along `s`. */
  predicate SortedByRow(s: seq<Cell>) {
    forall i, j :: 0 <= i < j < |s| ==> s[i].row <= s[j].row
  }

  /** The subsequence of `s` whose row component is `k`. */
  function WithRow(s: seq<Cell>, k: nat): seq<Cell> {
    if s == [] then []
    else if s[0].row == k then [s[0]] + WithRow(s[1..], k)
    else WithRow(s[1..], k)
  }

  /** Putting `a` in front of a row-sorted sequence whose rows are all at
      least `a`'s keeps it row-sorted. */
  lemma ConsSorted(a: Cell, t: seq<Cell>)
    requires SortedByRow(t) && forall j :: 0 <= j < |t| ==> a.row <= t[j].row
    ensures SortedByRow([a] + t)
  {
    var r := [a] + t;
    forall i, j | 0 <= i < j < |r| ensures r[i].row <= r[j].row {
      assert r[j] == t[j - 1];
      if i > 0 {
        assert r[i] == t[i - 1];
      }
    }
  }

  /** Every element of a sequence holding the tail of the row-sorted `s`
      and a cell `x` of a larger row than `s[0]` has a row at least
      `s[0]`'s. */
  lemma HeadBelow(s: seq<Cell>, x: Cell, t: seq<Cell>)
    requires SortedByRow(s) && s != [] && s[0].row < x.row
    requires multiset(t) == multiset(s[1..]) + multiset{x}
    ensures forall j :: 0 <= j < |t| ==> s[0].row <= t[j].row
  {
    forall j | 0 <= j < |t| ensures s[0].row <= t[j].row {
      assert t[j] in multiset(t);
      if t[j] != x {
        assert t[j] in multiset(s[1..]);
        var k :| 0 <= k < |s[1..]| && s[1..][k] == t[j];
        assert s[k + 1] == t[j];
      }
    }
  }

  /** Inserts `x` into the row-sorted `s`, in front of every element whose
      row is not smaller, so that `x` precedes the elements it ties with. */
  function Insert(x: Cell, s: seq<Cell>): (r: seq<Cell>)
    requires SortedByRow(s)
    ensures SortedByRow(r)
    ensures multiset(r) == multiset(s) + multiset{x}
  {
    if s == [] || x.row <= s[0].row then
      ConsSorted(x, s);
      [x] + s
    else
      assert s == [s[0]] + s[1..];
      var t := Insert(x, s[1..]);
      HeadBelow(s, x, t);
      ConsSorted(s[0], t);
      [s[0]] + t
  }

  /** Insertion keeps, for every row, the elements of that row in order, with
      `x` placed ahead of the elements it ties with. */
  lemma {:induction false} InsertWithRow(x: Cell, s: seq<Cell>, k: nat)
    requires SortedByRow(s)
    ensures WithRow(Insert(x, s), k) == if x.row == k then [x] + WithRow(s, k) else WithRow(s, k)
  {
    if s == [] || x.row <= s[0].row {
      assert ([x] + s)[1..] == s;
    } else {
      var t := Insert(x, s[1..]);
      InsertWithRow(x, s[1..], k);
      assert ([s[0]] + t)[1..] == t;
    }
  }

  /** Sorts subscripts ascending by row, keeping the input order among equal
      rows (a stable sort on column 0). */
  function SortRows(s: seq<Cell>): (r: seq<Cell>)
    ensures SortedByRow(r)
    ensures multiset(r) == multiset(s)
    ensures forall k :: WithRow(r, k) == WithRow(s, k)
  {
    if s == [] then []
    else
      assert s == [s[0]] + s[1..];
      var t := SortRows(s[1..]);
      assert forall k :: WithRow(Insert(s[0], t), k) == WithRow(s, k) by {
        forall k: nat ensures WithRow(Insert(s[0], t), k) == WithRow(s, k) {
          InsertWithRow(s[0], t, k);
        }
      }
      Insert(s[0], t)
  }
}
