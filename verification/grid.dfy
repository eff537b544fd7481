/** Rectangular matrices as sequences of rows, cell subscripts, and the
    counting facts about sets of cells that the solver's proofs rely on. */
module Grid {

  /** A (row, column) subscript into a matrix. */
  datatype Cell = Cell(row: nat, col: nat)

  /** `m` has exactly `rows` rows, each of exactly `cols` entries. */
  predicate IsGrid<T>(m: seq<seq<T>>, rows: nat, cols: nat) {
    |m| == rows && forall r :: 0 <= r < rows ==> |m[r]| == cols
  }

  /** No element of `s` occurs twice. */
  predicate Distinct<T(==)>(s: seq<T>) {
    forall i, j :: 0 <= i < j < |s| ==> s[i] != s[j]
  }

  /** The naturals below `n`. */
  function Below(n: nat): (r: set<nat>)
    ensures forall i: nat :: i in r <==> i < n
    ensures |r| == n
  {
    if n == 0 then {} else Below(n - 1) + {n - 1}
  }

  /** The rows that the cells of `s` occupy. */
  function RowsOf(s: set<Cell>): set<nat> {
    set p | p in s :: p.row
  }

  /** The columns that the cells of `s` occupy. */
  function ColsOf(s: set<Cell>): set<nat> {
    set p | p in s :: p.col
  }

  /** No two cells of `s` share a row. */
  predicate RowInjective(s: set<Cell>) {
    forall p, q :: p in s && q in s && p.row == q.row ==> p == q
  }

  /** No two cells of `s` share a column. */
  predicate ColInjective(s: set<Cell>) {
    forall p, q :: p in s && q in s && p.col == q.col ==> p == q
  }

  /** A set of cells with pairwise different rows has as many cells as rows. */
  lemma {:induction false} RowInjectiveCard(s: set<Cell>)
    requires RowInjective(s)
    ensures |RowsOf(s)| == |s|
  {
    if s != {} {
      var x :| x in s;
      var t := s - {x};
      RowInjectiveCard(t);
      assert RowsOf(s) == RowsOf(t) + {x.row};
      assert x.row !in RowsOf(t);
    }
  }

  /** A set of cells with pairwise different columns has as many cells as columns. */
  lemma {:induction false} ColInjectiveCard(s: set<Cell>)
    requires ColInjective(s)
    ensures |ColsOf(s)| == |s|
  {
    if s != {} {
      var x :| x in s;
      var t := s - {x};
      ColInjectiveCard(t);
      assert ColsOf(s) == ColsOf(t) + {x.col};
      assert x.col !in ColsOf(t);
    }
  }

  /** A subset is no larger than its superset. */
  lemma SubsetCard<T>(a: set<T>, b: set<T>)
    requires a <= b
    ensures |a| <= |b|
  {
    assert b == a + (b - a);
  }

  /** Cells in rows below `n`, no two in one row: at most `n` of them, and
      exactly `n` when every row below `n` is occupied. */
  lemma RowCount(s: set<Cell>, n: nat)
    requires RowInjective(s)
    requires forall p :: p in s ==> p.row < n
    ensures |s| <= n
    ensures (forall r: nat :: r < n ==> r in RowsOf(s)) ==> |s| == n
    ensures |s| == n ==> forall r: nat :: r < n ==> r in RowsOf(s)
  {
    RowInjectiveCard(s);
    SubsetCard(RowsOf(s), Below(n));
    if forall r: nat :: r < n ==> r in RowsOf(s) {
      assert RowsOf(s) == Below(n);
    }
    if r: nat :| r < n && r !in RowsOf(s) {
      assert r in Below(n);
      assert |Below(n) - {r}| == n - 1;
      SubsetCard(RowsOf(s), Below(n) - {r});
    }
  }

  /** Cells in columns below `n`, no two in one column: at most `n` of them,
      and exactly `n` when every column below `n` is occupied. */
  lemma ColCount(s: set<Cell>, n: nat)
    requires ColInjective(s)
    requires forall p :: p in s ==> p.col < n
    ensures |s| <= n
    ensures (forall c: nat :: c < n ==> c in ColsOf(s)) ==> |s| == n
    ensures |s| == n ==> forall c: nat :: c < n ==> c in ColsOf(s)
  {
    ColInjectiveCard(s);
    SubsetCard(ColsOf(s), Below(n));
    if forall c: nat :: c < n ==> c in ColsOf(s) {
      assert ColsOf(s) == Below(n);
    }
    if c: nat :| c < n && c !in ColsOf(s) {
      assert c in Below(n);
      assert |Below(n) - {c}| == n - 1;
      SubsetCard(ColsOf(s), Below(n) - {c});
    }
  }

  /** A sequence without repetitions has as many distinct elements as entries. */
  lemma {:induction false} DistinctCard<T>(s: seq<T>)
    requires Distinct(s)
    ensures |set x | x in s| == |s|
  {
    if s != [] {
      var t := s[..|s| - 1];
      assert Distinct(t);
      DistinctCard(t);
      assert (set x | x in s) == (set x | x in t) + {s[|s| - 1]};
      assert s[|s| - 1] !in (set x | x in t);
    }
  }
}
