/** The solver's working state: the reduced cost matrix, the mask of starred
    and primed zeros, the row and column covers, and the saved zero. A fresh
    state is built for every solve. */
module SolverState {
  import opened Grid

  /** The tag of a mask cell. */
  datatype Mark = Normal | Star | Prime

  datatype State = State(
    cost: seq<seq<int>>,
    mask: seq<seq<Mark>>,
    rowCover: seq<bool>,
    colCover: seq<bool>,
    saveRow: nat,
    saveCol: nat)
  {
    /** The side of the square working matrix. */
    function Size(): nat {
      |cost|
    }

    /** Matrix and mask are `n x n` and both cover vectors have length `n`. */
    predicate WellFormed() {
      var n := |cost|;
      IsGrid(cost, n, n) && IsGrid(mask, n, n) && |rowCover| == n && |colCover| == n
    }
  }

  /** The values of the `step` variable: 1 to 5 name the next step, 0 ends. */
  type StepNo = k: int | 0 <= k <= 5

  /** What one step leaves behind: the new state and the next step. */
  datatype Transition = Transition(state: State, next: StepNo)

  /** Cell (r, c) of the mask holds `k`. */
  predicate Has(mask: seq<seq<Mark>>, r: nat, c: nat, k: Mark) {
    r < |mask| && c < |mask[r]| && mask[r][c] == k
  }

  /** Row `r` of the mask holds a star. */
  predicate RowHasStar(mask: seq<seq<Mark>>, r: nat) {
    r < |mask| && exists c :: 0 <= c < |mask[r]| && mask[r][c] == Star
  }

  /** Column `c` of the mask holds a star. */
  predicate ColHasStar(mask: seq<seq<Mark>>, c: nat) {
    exists r :: 0 <= r < |mask| && c < |mask[r]| && mask[r][c] == Star
  }

  /** At most one star in every row and in every column. */
  ghost predicate Independent(mask: seq<seq<Mark>>) {
    && (forall r, c1, c2 :: Has(mask, r, c1, Star) && Has(mask, r, c2, Star) ==> c1 == c2)
    && (forall r1, r2, c :: Has(mask, r1, c, Star) && Has(mask, r2, c, Star) ==> r1 == r2)
  }

  /** The mask holds no prime. */
  predicate NoPrimes(mask: seq<seq<Mark>>) {
    forall r, c :: 0 <= r < |mask| && 0 <= c < |mask[r]| ==> mask[r][c] != Prime
  }

  /** The starred cells of the mask. */
  function StarCells(mask: seq<seq<Mark>>): (s: set<Cell>)
    ensures forall p :: p in s <==> Has(mask, p.row, p.col, Star)
  {
    var s := set r, c | 0 <= r < |mask| && 0 <= c < |mask[r]| && mask[r][c] == Star :: Cell(r, c);
    assert forall p: Cell :: Has(mask, p.row, p.col, Star) ==> p in s by {
      forall p: Cell | Has(mask, p.row, p.col, Star) ensures p in s {
        assert Cell(p.row, p.col) == p;
      }
    }
    s
  }

  /** The number of starred cells. */
  function StarCount(mask: seq<seq<Mark>>): nat {
    |StarCells(mask)|
  }

  /** The mask with cell (r, c) set to `k`. */
  function SetMark(mask: seq<seq<Mark>>, r: nat, c: nat, k: Mark): (m: seq<seq<Mark>>)
    requires r < |mask| && c < |mask[r]|
    ensures |m| == |mask| && forall i :: 0 <= i < |m| ==> |m[i]| == |mask[i]|
    ensures forall i, j :: 0 <= i < |m| && 0 <= j < |m[i]| ==>
      m[i][j] == if i == r && j == c then k else mask[i][j]
  {
    mask[r := mask[r][c := k]]
  }

  /** The state a solve starts from: the prepared matrix, every cell `NORMAL`,
      nothing covered. */
  function Initial(cost: seq<seq<int>>, n: nat): (s: State)
    requires IsGrid(cost, n, n)
    ensures s.WellFormed() && s.Size() == n && s.cost == cost
    ensures forall r, c :: 0 <= r < n && 0 <= c < n ==> s.mask[r][c] == Normal
    ensures forall i :: 0 <= i < n ==> !s.rowCover[i] && !s.colCover[i]
  {
    State(cost, seq(n, _ => seq(n, _ => Normal)), seq(n, _ => false), seq(n, _ => false), 0, 0)
  }

  /** A star-independent mask: its stars occupy distinct rows and distinct
      columns, as many as there are stars. */
  lemma IndependentStarCells(mask: seq<seq<Mark>>)
    requires Independent(mask)
    ensures RowInjective(StarCells(mask)) && ColInjective(StarCells(mask))
  {
  }

  /** `n` independent stars in an `n x n` mask fill every row and every
      column, and there are never more than `n`. */
  lemma FullStarsCoverAll(mask: seq<seq<Mark>>, n: nat)
    requires IsGrid(mask, n, n) && Independent(mask)
    ensures StarCount(mask) <= n
    ensures StarCount(mask) == n ==>
      (forall r :: 0 <= r < n ==> RowHasStar(mask, r)) && (forall c :: 0 <= c < n ==> ColHasStar(mask, c))
  {
    var s := StarCells(mask);
    RowCount(s, n);
    ColCount(s, n);
    if StarCount(mask) == n {
      forall r | 0 <= r < n ensures RowHasStar(mask, r) {
        assert r in RowsOf(s);
        var p :| p in s && p.row == r;
      }
      forall c | 0 <= c < n ensures ColHasStar(mask, c) {
        assert c in ColsOf(s);
        var p :| p in s && p.col == c;
      }
    }
  }
}
