/** The invariants that hold at the entry of every step, and their
    preservation by steps 1, 2, 3 and 5. The primes are tracked by a ghost
    history `H`: the primed cells in the order step 3 primed them. */
module Phases {
  import opened Grid
  import opened SolverState
  import opened StarStep
  import opened CoverStep
  import opened PrimeStep
  import opened AdjustStep
  import opened AugmentStep

  /** Both masks hold stars in exactly the same cells. */
  ghost predicate SameStars(a: seq<seq<Mark>>, b: seq<seq<Mark>>) {
    forall r: nat, c: nat :: Has(a, r, c, Star) <==> Has(b, r, c, Star)
  }

  lemma SameStarsIndependent(a: seq<seq<Mark>>, b: seq<seq<Mark>>)
    requires SameStars(a, b) && Independent(a)
    ensures Independent(b)
  {
  }

  /** The primed cells of the mask are exactly the cells of `H`. */
  ghost predicate PrimesAre(mask: seq<seq<Mark>>, H: seq<Cell>) {
    forall p: Cell :: Has(mask, p.row, p.col, Prime) <==> p in H
  }

  /** No two cells of `H` share a row. */
  predicate RowsDistinct(H: seq<Cell>) {
    forall k1, k2 :: 0 <= k1 < |H| && 0 <= k2 < |H| && H[k1].row == H[k2].row ==> k1 == k2
  }

  /** Every star in the column of `H[k]` lies in the row of an earlier cell of
      `H`. */
  ghost predicate Ranked(mask: seq<seq<Mark>>, H: seq<Cell>) {
    forall k, r: nat :: 0 <= k < |H| && Has(mask, r, H[k].col, Star) ==>
      exists j :: 0 <= j < k && H[j].row == r
  }

  /** What the prime history `H` guarantees between two visits of step 4:
      the stars are independent; the primed cells are exactly the cells of
      `H`; no two primes share a row; and every star in the column of the
      `k`-th prime lies in the row of an earlier prime. */
  ghost predicate PrimeHistory(s: State, H: seq<Cell>)
    requires s.WellFormed()
  {
    && Independent(s.mask)
    && InBounds(H, s.Size())
    && PrimesAre(s.mask, H)
    && RowsDistinct(H)
    && Ranked(s.mask, H)
  }

  /** At the entry of steps 2 (and 1): independent stars, no primes, nothing
      covered. */
  ghost predicate Phase2(s: State) {
    && s.WellFormed()
    && Independent(s.mask)
    && NoPrimes(s.mask)
    && (forall i :: 0 <= i < s.Size() ==> !s.rowCover[i] && !s.colCover[i])
  }

  /** At the entry of steps 3 and 5: the prime history holds, every prime
      lies in a covered row and an uncovered column, every covered row holds
      a prime, and every star is covered by exactly one line. */
  ghost predicate Phase3(s: State, H: seq<Cell>) {
    && s.WellFormed()
    && PrimeHistory(s, H)
    && (forall k :: 0 <= k < |H| ==> s.rowCover[H[k].row] && !s.colCover[H[k].col])
    && (forall r :: 0 <= r < s.Size() && s.rowCover[r] ==> exists k :: 0 <= k < |H| && H[k].row == r)
    && (forall r, c :: 0 <= r < s.Size() && 0 <= c < s.Size() && s.mask[r][c] == Star ==>
          s.rowCover[r] != s.colCover[c])
  }

  /** At the entry of step 4: the prime history holds, its last prime is the
      saved zero, and the saved zero's row holds no star. */
  ghost predicate Phase4(s: State, H: seq<Cell>) {
    && s.WellFormed()
    && PrimeHistory(s, H)
    && 0 < |H| && H[|H| - 1] == Cell(s.saveRow, s.saveCol)
    && s.saveRow < s.Size() && s.saveCol < s.Size()
    && !RowHasStar(s.mask, s.saveRow)
  }

  /** Every starred and every primed cell holds a zero of the working
      matrix. */
  predicate MarksOnZeros(s: State)
    requires s.WellFormed()
  {
    forall i, j :: 0 <= i < s.Size() && 0 <= j < s.Size() && s.mask[i][j] != Normal ==> s.cost[i][j] == 0
  }

  /** What every step keeps of the working matrix: no entry is negative, and
      the stars and primes lie on zeros. */
  predicate CostSound(s: State) {
    s.WellFormed() && NonNegativeCost(s) && MarksOnZeros(s)
  }

  /** The invariant at the entry of step `step` (0 is the end of the loop).
      Step 5 is entered only when no uncovered zero is left. */
  ghost predicate Invariant(s: State, step: StepNo) {
    match step
    case 0 => CostSound(s) && Independent(s.mask) && StarCount(s.mask) >= s.Size()
    case 1 => Phase2(s) && CostSound(s)
    case 2 => Phase2(s) && CostSound(s)
    case 3 => (exists H :: Phase3(s, H)) && CostSound(s)
    case 4 => (exists H :: Phase4(s, H)) && CostSound(s)
    case 5 => (exists H :: Phase3(s, H)) && CostSound(s) && NoUncoveredZero(s)
  }

  /** The state a solve starts from, on a matrix without negative entries,
      satisfies the invariant of step 1. */
  lemma InitialInvariant(cost: seq<seq<int>>, n: nat)
    requires IsGrid(cost, n, n)
    requires forall i, j :: 0 <= i < n && 0 <= j < n ==> cost[i][j] >= 0
    ensures Invariant(Initial(cost, n), 1)
  {
  }

  /** Step 1 keeps the stars independent and adds no prime. */
  lemma Step1Keeps(s: State)
    requires Phase2(s)
    ensures Phase2(Step1(s).state)
  {
  }

  /** Step 2 either ends the loop with at least `size` independent stars, or
      starts a round of step 3 with the starred columns covered and no prime
      yet. */
  lemma Step2Keeps(s: State)
    requires Phase2(s) && CostSound(s)
    ensures Invariant(Step2(s).state, Step2(s).next)
  {
    var t := Step2(s);
    if t.next == 3 {
      var u := t.state;
      forall r, c | 0 <= r < u.Size() && 0 <= c < u.Size() && u.mask[r][c] == Star
        ensures u.rowCover[r] != u.colCover[c]
      {
        assert ColHasStar(s.mask, c);
      }
      assert Phase3(u, []);
    }
  }

  /** Step 5 changes neither the mask nor the covers, so the round's
      invariant survives it. */
  lemma Step5Keeps(s: State, H: seq<Cell>)
    requires Phase3(s, H)
    ensures Phase3(Step5(s).state, H)
  {
    var u := Step5(s).state;
    assert u.mask == s.mask && u.rowCover == s.rowCover && u.colCover == s.colCover;
  }

  /** Priming a cell that is not yet primed adds it, and only it, to the
      primed cells. */
  lemma PrimesAreExtend(mask: seq<seq<Mark>>, H: seq<Cell>, z: Cell)
    requires PrimesAre(mask, H) && z.row < |mask| && z.col < |mask[z.row]| && z !in H
    ensures PrimesAre(SetMark(mask, z.row, z.col, Prime), H + [z])
  {
    var m := SetMark(mask, z.row, z.col, Prime);
    forall p: Cell ensures Has(m, p.row, p.col, Prime) <==> p in H + [z] {
      assert p in H + [z] <==> p in H || p == z;
      if p != z {
        assert Has(m, p.row, p.col, Prime) <==> Has(mask, p.row, p.col, Prime);
      }
    }
  }

  /** A cell in a row of its own keeps the rows of `H` distinct. */
  lemma RowsDistinctExtend(H: seq<Cell>, z: Cell)
    requires RowsDistinct(H) && forall k :: 0 <= k < |H| ==> H[k].row != z.row
    ensures RowsDistinct(H + [z])
  {
    var H' := H + [z];
    assert forall k :: 0 <= k < |H| ==> H'[k] == H[k];
  }

  /** A cell whose column's stars all lie in rows of `H` extends the ranking,
      as long as the stars do not change. */
  lemma RankedExtend(mask: seq<seq<Mark>>, m: seq<seq<Mark>>, H: seq<Cell>, z: Cell)
    requires Ranked(mask, H) && SameStars(mask, m)
    requires forall r: nat :: Has(mask, r, z.col, Star) ==> exists j :: 0 <= j < |H| && H[j].row == r
    ensures Ranked(m, H + [z])
  {
    var H' := H + [z];
    forall k, r: nat | 0 <= k < |H'| && Has(m, r, H'[k].col, Star)
      ensures exists j :: 0 <= j < k && H'[j].row == r
    {
      if k < |H| {
        assert H'[k] == H[k];
        var j :| 0 <= j < k && H[j].row == r;
        assert H'[j] == H[j];
      } else {
        assert Has(mask, r, z.col, Star);
        var j :| 0 <= j < |H| && H[j].row == r;
        assert H'[j] == H[j];
      }
    }
  }

  /** Priming a zero `z` that lies in an uncovered row and an uncovered
      column extends the prime history by `z`. */
  lemma PrimeExtends(s: State, H: seq<Cell>, z: Cell)
    requires Phase3(s, H) && z.row < s.Size() && z.col < s.Size()
    requires !s.rowCover[z.row] && !s.colCover[z.col]
    ensures SameStars(s.mask, SetMark(s.mask, z.row, z.col, Prime))
    ensures PrimeHistory(s.(mask := SetMark(s.mask, z.row, z.col, Prime)), H + [z])
  {
    var m := SetMark(s.mask, z.row, z.col, Prime);
    assert SameStars(s.mask, m) by {
      assert s.mask[z.row][z.col] != Star;
    }
    SameStarsIndependent(s.mask, m);
    assert forall k :: 0 <= k < |H| ==> H[k].row != z.row by {
      forall k | 0 <= k < |H| ensures H[k].row != z.row {
        assert s.rowCover[H[k].row];
      }
    }
    PrimesAreExtend(s.mask, H, z);
    RowsDistinctExtend(H, z);
    assert forall r: nat :: Has(s.mask, r, z.col, Star) ==> exists j :: 0 <= j < |H| && H[j].row == r by {
      forall r: nat | Has(s.mask, r, z.col, Star) ensures exists j :: 0 <= j < |H| && H[j].row == r {
        assert s.rowCover[r];
      }
    }
    RankedExtend(s.mask, m, H, z);
    assert InBounds(H + [z], s.Size()) by {
      forall k | 0 <= k < |H + [z]| ensures (H + [z])[k].row < s.Size() && (H + [z])[k].col < s.Size() {
        if k < |H| { assert (H + [z])[k] == H[k]; }
      }
    }
  }

  /** Priming the uncovered zero `z` whose row holds the star in column `k`,
      covering that row and uncovering column `k`, extends the round's
      invariant by `z`. */
  lemma CoverSwapKeeps(s: State, H: seq<Cell>, z: Cell, k: nat, u: State)
    requires Phase3(s, H) && z.row < s.Size() && z.col < s.Size() && k < s.Size()
    requires !s.rowCover[z.row] && !s.colCover[z.col]
    requires u == s.(mask := SetMark(s.mask, z.row, z.col, Prime), saveRow := z.row, saveCol := z.col,
                     rowCover := s.rowCover[z.row := true], colCover := s.colCover[k := false])
    requires u.mask[z.row][k] == Star
    ensures Phase3(u, H + [z])
  {
    var H' := H + [z];
    PrimeExtends(s, H, z);
    var primed := s.(mask := SetMark(s.mask, z.row, z.col, Prime));
    assert PrimeHistory(u, H') by {
      assert u == primed.(saveRow := z.row, saveCol := z.col, rowCover := u.rowCover, colCover := u.colCover);
    }
    forall i | 0 <= i < |H'| ensures u.rowCover[H'[i].row] && !u.colCover[H'[i].col] {
      if i < |H| {
        assert H'[i] == H[i];
      }
    }
    forall r | 0 <= r < u.Size() && u.rowCover[r]
      ensures exists i :: 0 <= i < |H'| && H'[i].row == r
    {
      if r == z.row {
        assert H'[|H|] == z;
      } else {
        var i :| 0 <= i < |H| && H[i].row == r;
        assert H'[i] == H[i];
      }
    }
    forall r, c | 0 <= r < u.Size() && 0 <= c < u.Size() && u.mask[r][c] == Star
      ensures u.rowCover[r] != u.colCover[c]
    {
      assert Has(s.mask, r, c, Star) && Has(s.mask, z.row, k, Star);
      if r == z.row || c == k {
        assert r == z.row && c == k;
      }
    }
  }

  /** Step 3 keeps the round's invariant: with no uncovered zero step 5
      follows on the same state; otherwise the saved zero joins the history,
      and either its row's star is traded for a row cover (step 3 again) or
      its row has no star (step 4). */
  lemma Step3Keeps(s: State, H: seq<Cell>)
    requires Phase3(s, H)
    ensures var t := Step3(s);
      && (t.next == 5 ==> Phase3(t.state, H))
      && (t.next == 3 ==> Phase3(t.state, H + [Cell(t.state.saveRow, t.state.saveCol)]))
      && (t.next == 4 ==> Phase4(t.state, H + [Cell(t.state.saveRow, t.state.saveCol)]))
  {
    var t := Step3(s);
    if t.next != 5 {
      var u := t.state;
      var z := Cell(u.saveRow, u.saveCol);
      assert UncoveredItem(s, 0, z.row, z.col);
      if t.next == 4 {
        PrimeExtends(s, H, z);
        var primed := s.(mask := SetMark(s.mask, z.row, z.col, Prime));
        assert PrimeHistory(u, H + [z]) by {
          assert u == primed.(saveRow := z.row, saveCol := z.col);
        }
        assert (H + [z])[|H|] == z;
      } else {
        var k :| 0 <= k < s.Size() && u.mask[z.row][k] == Star
          && u.rowCover == s.rowCover[z.row := true] && u.colCover == s.colCover[k := false];
        CoverSwapKeeps(s, H, z, k, u);
      }
    }
  }

  /** Step 1 keeps the working matrix sound: it only stars zeros. */
  lemma Step1Sound(s: State)
    requires CostSound(s)
    ensures CostSound(Step1(s).state)
  {
  }

  /** Step 3 keeps the working matrix sound, since it primes only a zero; it
      hands over to step 5 exactly when no uncovered zero is left. */
  lemma Step3Sound(s: State)
    requires CostSound(s)
    ensures CostSound(Step3(s).state)
    ensures Step3(s).next == 5 ==> NoUncoveredZero(Step3(s).state)
  {
    var t := Step3(s);
    if t.next != 5 {
      assert UncoveredItem(s, 0, t.state.saveRow, t.state.saveCol);
    }
  }

  /** Step 4 keeps the working matrix sound: its stars were stars or primes
      before, and it leaves no prime. */
  lemma Step4Sound(s: State)
    requires CostSound(s) && s.saveRow < s.Size() && s.saveCol < s.Size()
    ensures CostSound(Step4(s).state)
  {
    var u := Step4(s).state;
    forall i, j | 0 <= i < s.Size() && 0 <= j < s.Size() && u.mask[i][j] != Normal
      ensures u.cost[i][j] == 0
    {
      assert u.mask[i][j] == Star;
      assert s.mask[i][j] != Normal;
    }
  }

  /** During a round every star and every prime is covered exactly once: a
      star by its row or by its column, a prime by its row only. */
  lemma MarksCoveredOnce(s: State, H: seq<Cell>)
    requires Phase3(s, H)
    ensures forall i, j :: 0 <= i < s.Size() && 0 <= j < s.Size() && s.mask[i][j] != Normal ==>
      s.rowCover[i] != s.colCover[j]
  {
    forall i, j | 0 <= i < s.Size() && 0 <= j < s.Size() && s.mask[i][j] == Prime
      ensures s.rowCover[i] && !s.colCover[j]
    {
      assert Has(s.mask, i, j, Prime);
      var k :| 0 <= k < |H| && H[k] == Cell(i, j);
    }
  }

  /** Step 5 keeps the working matrix sound: with no uncovered zero its
      entries stay non-negative, and every star and prime is covered exactly
      once, so its zero is left alone. */
  lemma Step5Sound(s: State, H: seq<Cell>)
    requires Phase3(s, H) && CostSound(s) && NoUncoveredZero(s)
    ensures CostSound(Step5(s).state)
  {
    Step5Adjusts(s);
    MarksCoveredOnce(s, H);
    assert MarksOnZeros(Step5(s).state);
  }
}
