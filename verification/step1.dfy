/** Step 1 of the solver: star zeros greedily, scanning row by row. */
module StarStep {
  import opened Grid
  import opened SolverState

  /** `after` differs from `before` only by new stars on zero-cost cells:
      every star is kept, and every changed cell is a newly starred zero. */
  ghost predicate StarsAdded(cost: seq<seq<int>>, before: seq<seq<Mark>>, after: seq<seq<Mark>>, n: nat)
    requires IsGrid(cost, n, n) && IsGrid(before, n, n)
  {
    && IsGrid(after, n, n)
    && (forall i, j :: 0 <= i < n && 0 <= j < n && before[i][j] == Star ==> after[i][j] == Star)
    && (forall i, j :: 0 <= i < n && 0 <= j < n && after[i][j] != before[i][j] ==>
          after[i][j] == Star && cost[i][j] == 0)
  }

  /** Adding stars twice adds stars. */
  lemma StarsAddedTrans(cost: seq<seq<int>>, a: seq<seq<Mark>>, b: seq<seq<Mark>>, c: seq<seq<Mark>>, n: nat)
    requires IsGrid(cost, n, n) && IsGrid(a, n, n) && IsGrid(b, n, n)
    requires StarsAdded(cost, a, b, n) && StarsAdded(cost, b, c, n)
    ensures StarsAdded(cost, a, c, n)
  {
  }

  /** A row or column that holds a star keeps holding one when stars are
      added. */
  lemma StarsAddedKeep(cost: seq<seq<int>>, a: seq<seq<Mark>>, b: seq<seq<Mark>>, n: nat)
    requires IsGrid(cost, n, n) && IsGrid(a, n, n) && StarsAdded(cost, a, b, n)
    ensures forall i :: 0 <= i < n && RowHasStar(a, i) ==> RowHasStar(b, i)
    ensures forall j :: 0 <= j < n && ColHasStar(a, j) ==> ColHasStar(b, j)
  {
    forall i | 0 <= i < n && RowHasStar(a, i) ensures RowHasStar(b, i) {
      var j :| 0 <= j < n && a[i][j] == Star;
      assert b[i][j] == Star;
    }
    forall j | 0 <= j < n && ColHasStar(a, j) ensures ColHasStar(b, j) {
      var i :| 0 <= i < n && a[i][j] == Star;
      assert b[i][j] == Star;
    }
  }

  /** Starring a cell whose row and column hold no star keeps the stars
      independent. */
  lemma StarFreeCell(mask: seq<seq<Mark>>, n: nat, r: nat, c: nat)
    requires IsGrid(mask, n, n) && r < n && c < n
    requires Independent(mask) && !RowHasStar(mask, r) && !ColHasStar(mask, c)
    ensures Independent(SetMark(mask, r, c, Star))
  {
    var m := SetMark(mask, r, c, Star);
    forall i: nat, c1: nat, c2: nat | Has(m, i, c1, Star) && Has(m, i, c2, Star)
      ensures c1 == c2
    {
      if i == r {
        assert !Has(mask, r, c1, Star) && !Has(mask, r, c2, Star);
      } else {
        assert Has(mask, i, c1, Star) && Has(mask, i, c2, Star);
      }
    }
    forall r1: nat, r2: nat, j: nat | Has(m, r1, j, Star) && Has(m, r2, j, Star)
      ensures r1 == r2
    {
      if j == c {
        assert !Has(mask, r1, c, Star) && !Has(mask, r2, c, Star);
      } else {
        assert Has(mask, r1, j, Star) && Has(mask, r2, j, Star);
      }
    }
  }

  /** The scan of cells (r, c), (r, c + 1), ..., (r, n - 1): each zero is
      starred when neither its column nor its row holds a star yet. */
  function StarRowFrom(cost: seq<seq<int>>, mask: seq<seq<Mark>>, n: nat, r: nat, c: nat): (res: seq<seq<Mark>>)
    requires IsGrid(cost, n, n) && IsGrid(mask, n, n) && r < n && c <= n
    ensures StarsAdded(cost, mask, res, n)
    ensures Independent(mask) ==> Independent(res)
    ensures forall j :: c <= j < n && cost[r][j] == 0 ==> RowHasStar(res, r) || ColHasStar(res, j)
    decreases n - c
  {
    if c == n then mask
    else
      var next :=
        if cost[r][c] == 0 && !ColHasStar(mask, c) && !RowHasStar(mask, r)
        then SetMark(mask, r, c, Star) else mask;
      assert Independent(mask) ==> Independent(next) by {
        if Independent(mask) && next != mask {
          StarFreeCell(mask, n, r, c);
        }
      }
      assert cost[r][c] == 0 ==> RowHasStar(next, r) || ColHasStar(next, c) by {
        if cost[r][c] == 0 && next != mask {
          assert next[r][c] == Star;
        }
      }
      var res := StarRowFrom(cost, next, n, r, c + 1);
      assert RowHasStar(next, r) ==> RowHasStar(res, r);
      assert ColHasStar(next, c) ==> ColHasStar(res, c);
      res
  }

  /** The scan of rows r, r + 1, ..., n - 1, each from its first column. */
  function StarRowsFrom(cost: seq<seq<int>>, mask: seq<seq<Mark>>, n: nat, r: nat): (res: seq<seq<Mark>>)
    requires IsGrid(cost, n, n) && IsGrid(mask, n, n) && r <= n
    ensures StarsAdded(cost, mask, res, n)
    ensures Independent(mask) ==> Independent(res)
    ensures forall i, j :: r <= i < n && 0 <= j < n && cost[i][j] == 0 ==>
      RowHasStar(res, i) || ColHasStar(res, j)
    decreases n - r
  {
    if r == n then mask
    else
      var next := StarRowFrom(cost, mask, n, r, 0);
      var res := StarRowsFrom(cost, next, n, r + 1);
      StarsAddedTrans(cost, mask, next, res, n);
      StarsAddedKeep(cost, next, res, n);
      res
  }

  /** Step 1: star every zero whose row and column hold no star, scanning in
      row-major order. Afterwards the stars are still independent, every new
      star lies on a zero, and every zero shares a row or a column with a
      star. Only the mask changes; the next step is always 2. */
  function Step1(s: State): (t: Transition)
    requires s.WellFormed()
    ensures t.next == 2
    ensures t.state == s.(mask := t.state.mask) && t.state.WellFormed()
    ensures StarsAdded(s.cost, s.mask, t.state.mask, s.Size())
    ensures Independent(s.mask) ==> Independent(t.state.mask)
    ensures forall i, j :: 0 <= i < s.Size() && 0 <= j < s.Size() && s.cost[i][j] == 0 ==>
      RowHasStar(t.state.mask, i) || ColHasStar(t.state.mask, j)
  {
    Transition(s.(mask := StarRowsFrom(s.cost, s.mask, s.Size(), 0)), 2)
  }
}
