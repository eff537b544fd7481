/** Why step 4 is sound: entered with the prime history of the round, the
    alternating sequence ends on a prime, and flipping it leaves independent
    stars, one more than before. The argument ranks every prime by its place
    in the history; the ranks fall strictly along the sequence. */
module Augmentation {
  import opened Grid
  import opened SolverState
  import opened AugmentStep
  import opened Phases

  /** The place of `x` in the history `H` (0 when `x` is not in it). */
  ghost function Idx(H: seq<Cell>, x: Cell): (k: nat)
    ensures x in H ==> k < |H| && H[k] == x
  {
    if x in H then var k :| 0 <= k < |H| && H[k] == x; k else 0
  }

  /** The cells at even places of the sequence are primes of the history,
      those at odd places are stars. */
  lemma PathCells(s: State, H: seq<Cell>)
    requires Phase4(s, H)
    ensures var P := AlternatingPath(s);
      && (forall e :: 0 <= e < |P| && e % 2 == 0 ==> P[e] in H && s.mask[P[e].row][P[e].col] == Prime)
      && (forall e :: 0 <= e < |P| && e % 2 == 1 ==> s.mask[P[e].row][P[e].col] == Star)
      && (forall e :: 0 <= e < |P| && e % 2 == 1 ==> P[e].col == P[e - 1].col)
      && (forall e :: 0 < e < |P| && e % 2 == 0 ==> P[e].row == P[e - 1].row)
  {
    var P := AlternatingPath(s);
    var n := s.Size();
    assert Alternates(s.mask, n, P);
    assert Has(s.mask, H[|H| - 1].row, H[|H| - 1].col, Prime);
    forall e | 0 <= e < |P| && e % 2 == 0 ensures P[e] in H && s.mask[P[e].row][P[e].col] == Prime {
      assert P[e].row < n && P[e].col < n;
      if e > 0 {
        assert Link(s.mask, n, P, e);
        assert Has(s.mask, P[e].row, P[e].col, Prime);
      }
    }
    forall e | 0 <= e < |P| && e % 2 == 1
      ensures s.mask[P[e].row][P[e].col] == Star && P[e].col == P[e - 1].col
    {
      assert Link(s.mask, n, P, e);
    }
    forall e | 0 < e < |P| && e % 2 == 0 ensures P[e].row == P[e - 1].row {
      assert Link(s.mask, n, P, e);
    }
  }

  /** What the rank argument needs of a sequence `P`: the history `H` is
      ranked with rows apart, the cells at even places are in `H`, each cell
      at an odd place is a star in the column of the cell before it, and
      each cell at an even place after the first lies in the row of the cell
      before it. */
  ghost predicate Shaped(mask: seq<seq<Mark>>, H: seq<Cell>, P: seq<Cell>) {
    && Ranked(mask, H) && RowsDistinct(H)
    && (forall e :: 0 <= e < |P| && e % 2 == 0 ==> P[e] in H)
    && (forall e :: 0 <= e < |P| && e % 2 == 1 ==> Has(mask, P[e].row, P[e].col, Star) && P[e].col == P[e - 1].col)
    && (forall e :: 0 < e < |P| && e % 2 == 0 ==> P[e].row == P[e - 1].row)
  }

  /** The alternating sequence of step 4 has the shape the rank argument
      needs. */
  lemma PathShaped(s: State, H: seq<Cell>)
    requires Phase4(s, H)
    ensures Shaped(s.mask, H, AlternatingPath(s))
  {
    PathCells(s, H);
  }

  /** A star in the column of the `a`-th prime lies in the row of an earlier
      prime, so the prime in that row ranks below `a`. */
  lemma LowerRank(mask: seq<seq<Mark>>, H: seq<Cell>, a: nat, b: nat, r: nat)
    requires Ranked(mask, H) && RowsDistinct(H) && a < |H| && b < |H| && H[b].row == r
    ensures Has(mask, r, H[a].col, Star) ==> b < a
  {
    if Has(mask, r, H[a].col, Star) {
      var j :| 0 <= j < a && H[j].row == r;
    }
  }

  /** Going two places along the sequence, from a prime over a star to the
      next prime, lowers the rank: the star lies in the column of the first
      prime, so its row holds a prime of lower rank, and that prime is the
      next one. */
  lemma RankStep(mask: seq<seq<Mark>>, H: seq<Cell>, P: seq<Cell>, e: nat)
    requires Shaped(mask, H, P) && 2 <= e < |P| && e % 2 == 0
    ensures Idx(H, P[e]) < Idx(H, P[e - 2])
  {
    assert P[e - 2] in H && P[e] in H;
    var a := Idx(H, P[e - 2]);
    var b := Idx(H, P[e]);
    assert Has(mask, P[e - 1].row, H[a].col, Star) && H[b].row == P[e - 1].row;
    LowerRank(mask, H, a, b, P[e - 1].row);
  }

  /** Ranks fall along the primes of the sequence. */
  lemma {:induction false} RankFalls(mask: seq<seq<Mark>>, H: seq<Cell>, P: seq<Cell>, i: nat, k: nat)
    requires Shaped(mask, H, P) && i <= k < |P| && i % 2 == 0 && k % 2 == 0
    ensures Idx(H, P[k]) <= Idx(H, P[i]) && (i < k ==> Idx(H, P[k]) < Idx(H, P[i]))
    decreases k
  {
    if i < k {
      RankStep(mask, H, P, k);
      RankFalls(mask, H, P, i, k - 2);
    }
  }

  /** A shaped sequence that stopped after a star, because no prime was
      left in the star's row, cannot exist: the star's row holds a prime of
      lower rank, and that prime would have to be on the sequence already. */
  lemma EndsOnPrime(mask: seq<seq<Mark>>, n: nat, H: seq<Cell>, P: seq<Cell>)
    requires IsGrid(mask, n, n) && InBounds(P, n) && 0 < |P|
    requires Shaped(mask, H, P) && PrimesAre(mask, H)
    requires |P| % 2 == 0 ==> NoPrimeLeftInRow(mask, n, P[|P| - 1].row, P)
    ensures |P| % 2 == 1
  {
    if |P| % 2 == 0 {
      var L := |P| - 1;
      assert P[L - 1] in H;
      var a := Idx(H, P[L - 1]);
      assert Has(mask, P[L].row, H[a].col, Star);
      var j :| 0 <= j < a && H[j].row == P[L].row;
      assert Has(mask, H[j].row, H[j].col, Prime);
      assert Cell(P[L].row, H[j].col) == H[j];
      var e :| 0 <= e < |P| && P[e] == H[j];
      assert e % 2 == 0;
      RankFalls(mask, H, P, e, L - 1);
    }
  }

  /** The sequence ends on a prime. */
  lemma PathEndsOnPrime(s: State, H: seq<Cell>)
    requires Phase4(s, H)
    ensures |AlternatingPath(s)| % 2 == 1
  {
    PathShaped(s, H);
    EndsOnPrime(s.mask, s.Size(), H, AlternatingPath(s));
  }

  /** No two primes of the sequence share a column: a later prime in the
      column of an earlier one would rank above the prime that follows the
      earlier one's star. */
  lemma PathPrimeColumns(mask: seq<seq<Mark>>, H: seq<Cell>, P: seq<Cell>, i: nat, k: nat)
    requires Shaped(mask, H, P) && i < k < |P| && i % 2 == 0 && k % 2 == 0
    ensures P[i].col != P[k].col
  {
    var r := P[i + 1].row;
    assert P[k] in H && P[i + 2] in H && P[i + 2].row == r;
    assert P[i].col == P[i + 1].col && Has(mask, r, P[i + 1].col, Star);
    var b := Idx(H, P[k]);
    var j := Idx(H, P[i + 2]);
    RankFalls(mask, H, P, i + 2, k);
    LowerRank(mask, H, b, j, r);
  }

  /** Flipping the sequence stars exactly the primes of the sequence and the
      stars off it. */
  lemma FlippedStars(s: State, H: seq<Cell>)
    requires Phase4(s, H)
    ensures var P := AlternatingPath(s); var m := Step4(s).state.mask;
      forall i, j :: 0 <= i < s.Size() && 0 <= j < s.Size() ==>
        (m[i][j] == Star <==>
          OnPathAsPrime(P, Cell(i, j)) || (s.mask[i][j] == Star && Cell(i, j) !in P))
  {
    PathCells(s, H);
    var P := AlternatingPath(s);
    var m := Step4(s).state.mask;
    forall i, j | 0 <= i < s.Size() && 0 <= j < s.Size()
      ensures m[i][j] == Star <==>
        OnPathAsPrime(P, Cell(i, j)) || (s.mask[i][j] == Star && Cell(i, j) !in P)
    {
      var x := Cell(i, j);
      assert m[i][j] == Star <==> if x in P then s.mask[i][j] == Prime else s.mask[i][j] == Star;
      if x in P {
        var e :| 0 <= e < |P| && P[e] == x;
        if s.mask[i][j] == Prime {
          assert e % 2 == 0;
        }
      }
    }
  }

  /** Every star of the old mask in the row of a prime of the sequence lies
      on the sequence: the first prime's row has none, and every other
      prime's row holds the star before it. */
  lemma RowStarsOnPath(s: State, H: seq<Cell>)
    requires Phase4(s, H)
    ensures var P := AlternatingPath(s);
      forall e, c: nat :: 0 <= e < |P| && e % 2 == 0 && Has(s.mask, P[e].row, c, Star) ==> Cell(P[e].row, c) in P
  {
    PathCells(s, H);
    var P := AlternatingPath(s);
    forall e, c: nat | 0 <= e < |P| && e % 2 == 0 && Has(s.mask, P[e].row, c, Star)
      ensures Cell(P[e].row, c) in P
    {
      if e > 0 {
        assert Has(s.mask, P[e - 1].row, P[e - 1].col, Star);
        assert P[e - 1] == Cell(P[e].row, c);
      }
    }
  }

  /** Every star of the old mask in the column of a prime of the sequence
      lies on the sequence: it is the star after that prime, or, for the last
      prime, the sequence ended because no star was left in its column. */
  lemma ColumnStarsOnPath(s: State, H: seq<Cell>)
    requires Phase4(s, H)
    ensures var P := AlternatingPath(s);
      forall e, r: nat :: 0 <= e < |P| && e % 2 == 0 && Has(s.mask, r, P[e].col, Star) ==> Cell(r, P[e].col) in P
  {
    PathCells(s, H);
    PathEndsOnPrime(s, H);
    var P := AlternatingPath(s);
    forall e, r: nat | 0 <= e < |P| && e % 2 == 0 && Has(s.mask, r, P[e].col, Star)
      ensures Cell(r, P[e].col) in P
    {
      if e + 1 < |P| {
        assert Has(s.mask, P[e + 1].row, P[e + 1].col, Star);
        assert P[e + 1] == Cell(r, P[e].col);
      }
    }
  }

  /** The primes of the sequence lie in pairwise different rows and
      pairwise different columns. */
  lemma PathPrimesApart(mask: seq<seq<Mark>>, H: seq<Cell>, P: seq<Cell>)
    requires Shaped(mask, H, P)
    ensures forall e1, e2 ::
      && 0 <= e1 < |P| && 0 <= e2 < |P| && e1 % 2 == 0 && e2 % 2 == 0
      && (P[e1].row == P[e2].row || P[e1].col == P[e2].col)
      ==> e1 == e2
  {
    forall e1, e2 | 0 <= e1 < |P| && 0 <= e2 < |P| && e1 % 2 == 0 && e2 % 2 == 0 && e1 < e2
      ensures P[e1].row != P[e2].row && P[e1].col != P[e2].col
    {
      PathPrimeColumns(mask, H, P, e1, e2);
      RankFalls(mask, H, P, e1, e2);
      assert P[e1] in H && P[e2] in H;
    }
  }

  /** The cell is a prime of the sequence, that is, at an even place. */
  ghost predicate OnPathAsPrime(P: seq<Cell>, x: Cell) {
    exists e :: 0 <= e < |P| && e % 2 == 0 && P[e] == x
  }

  /** The facts about a flip that the independence argument uses: `after` stars
      the primes of `P` and the old stars off `P`; every old star in the row
      of a prime of `P` lies on `P`; primes of `P` never share a row. */
  lemma FlipRowsApart(before: seq<seq<Mark>>, after: seq<seq<Mark>>, n: nat, P: seq<Cell>)
    requires IsGrid(before, n, n) && IsGrid(after, n, n) && Independent(before)
    requires forall i, j :: 0 <= i < n && 0 <= j < n ==>
      (after[i][j] == Star <==> OnPathAsPrime(P, Cell(i, j)) || (before[i][j] == Star && Cell(i, j) !in P))
    requires forall e, c: nat :: 0 <= e < |P| && e % 2 == 0 && Has(before, P[e].row, c, Star) ==> Cell(P[e].row, c) in P
    requires forall e1, e2 :: 0 <= e1 < |P| && 0 <= e2 < |P| && e1 % 2 == 0 && e2 % 2 == 0 && P[e1].row == P[e2].row ==> e1 == e2
    ensures forall r: nat, c1: nat, c2: nat :: Has(after, r, c1, Star) && Has(after, r, c2, Star) ==> c1 == c2
  {
    forall r: nat, c1: nat, c2: nat | Has(after, r, c1, Star) && Has(after, r, c2, Star)
      ensures c1 == c2
    {
      var k1 := OnPathAsPrime(P, Cell(r, c1));
      var k2 := OnPathAsPrime(P, Cell(r, c2));
      if k1 && k2 {
        var e1 :| 0 <= e1 < |P| && e1 % 2 == 0 && P[e1] == Cell(r, c1);
        var e2 :| 0 <= e2 < |P| && e2 % 2 == 0 && P[e2] == Cell(r, c2);
      } else if !k1 && !k2 {
        assert Has(before, r, c1, Star) && Has(before, r, c2, Star);
      }
    }
  }

  /** The column counterpart of `FlipRowsApart`. */
  lemma FlipColsApart(before: seq<seq<Mark>>, after: seq<seq<Mark>>, n: nat, P: seq<Cell>)
    requires IsGrid(before, n, n) && IsGrid(after, n, n) && Independent(before)
    requires forall i, j :: 0 <= i < n && 0 <= j < n ==>
      (after[i][j] == Star <==> OnPathAsPrime(P, Cell(i, j)) || (before[i][j] == Star && Cell(i, j) !in P))
    requires forall e, r: nat :: 0 <= e < |P| && e % 2 == 0 && Has(before, r, P[e].col, Star) ==> Cell(r, P[e].col) in P
    requires forall e1, e2 :: 0 <= e1 < |P| && 0 <= e2 < |P| && e1 % 2 == 0 && e2 % 2 == 0 && P[e1].col == P[e2].col ==> e1 == e2
    ensures forall r1: nat, r2: nat, c: nat :: Has(after, r1, c, Star) && Has(after, r2, c, Star) ==> r1 == r2
  {
    forall r1: nat, r2: nat, c: nat | Has(after, r1, c, Star) && Has(after, r2, c, Star)
      ensures r1 == r2
    {
      var k1 := OnPathAsPrime(P, Cell(r1, c));
      var k2 := OnPathAsPrime(P, Cell(r2, c));
      if k1 && k2 {
        var e1 :| 0 <= e1 < |P| && e1 % 2 == 0 && P[e1] == Cell(r1, c);
        var e2 :| 0 <= e2 < |P| && e2 % 2 == 0 && P[e2] == Cell(r2, c);
      } else if !k1 && !k2 {
        assert Has(before, r1, c, Star) && Has(before, r2, c, Star);
      }
    }
  }

  /** Step 4 keeps the stars independent. */
  lemma Step4Independent(s: State, H: seq<Cell>)
    requires Phase4(s, H)
    ensures Independent(Step4(s).state.mask)
  {
    FlippedStars(s, H);
    RowStarsOnPath(s, H);
    ColumnStarsOnPath(s, H);
    var P := AlternatingPath(s);
    PathShaped(s, H);
    PathPrimesApart(s.mask, H, P);
    var m := Step4(s).state.mask;
    FlipRowsApart(s.mask, m, s.Size(), P);
    FlipColsApart(s.mask, m, s.Size(), P);
  }

  /** A star after a flip lies in a row that held a star before, or in the
      row of the first prime: a prime at an even place after the first
      shares its row with the star before it. */
  lemma FlipStarRowsBefore(before: seq<seq<Mark>>, after: seq<seq<Mark>>, n: nat, P: seq<Cell>)
    requires IsGrid(before, n, n) && IsGrid(after, n, n) && InBounds(P, n) && 0 < |P|
    requires forall i, j :: 0 <= i < n && 0 <= j < n ==>
      (after[i][j] == Star <==> OnPathAsPrime(P, Cell(i, j)) || (before[i][j] == Star && Cell(i, j) !in P))
    requires forall e :: 0 <= e < |P| && e % 2 == 1 ==> before[P[e].row][P[e].col] == Star
    requires forall e :: 0 < e < |P| && e % 2 == 0 ==> P[e].row == P[e - 1].row
    ensures RowsOf(StarCells(after)) <= RowsOf(StarCells(before)) + {P[0].row}
  {
    var A, B := StarCells(after), StarCells(before);
    forall r | r in RowsOf(A) ensures r in RowsOf(B) + {P[0].row} {
      var x :| x in A && x.row == r;
      if OnPathAsPrime(P, x) {
        var e :| 0 <= e < |P| && e % 2 == 0 && P[e] == x;
        if e > 0 {
          assert P[e - 1] in B;
        }
      } else {
        assert x in B;
      }
    }
  }

  /** A row that held a star before a flip still holds one after it, and so
      does the row of the first prime: every star of the sequence is
      followed by a prime in its row because the sequence ends on a prime. */
  lemma FlipStarRowsAfter(before: seq<seq<Mark>>, after: seq<seq<Mark>>, n: nat, P: seq<Cell>)
    requires IsGrid(before, n, n) && IsGrid(after, n, n) && InBounds(P, n)
    requires |P| % 2 == 1
    requires forall i, j :: 0 <= i < n && 0 <= j < n ==>
      (after[i][j] == Star <==> OnPathAsPrime(P, Cell(i, j)) || (before[i][j] == Star && Cell(i, j) !in P))
    requires forall e :: 0 <= e < |P| && e % 2 == 0 ==> before[P[e].row][P[e].col] == Prime
    requires forall e :: 0 < e < |P| && e % 2 == 0 ==> P[e].row == P[e - 1].row
    ensures RowsOf(StarCells(before)) + {P[0].row} <= RowsOf(StarCells(after))
  {
    var A, B := StarCells(after), StarCells(before);
    assert P[0].row in RowsOf(A) by {
      assert OnPathAsPrime(P, P[0]);
      assert P[0] in A;
    }
    forall r | r in RowsOf(B) ensures r in RowsOf(A) {
      var y :| y in B && y.row == r;
      var x := StarAfterInRow(before, after, n, P, y);
    }
  }

  /** The row of a star before the flip holds a star after it: the star
      itself when it is off the sequence, the prime that follows it
      otherwise. */
  lemma StarAfterInRow(before: seq<seq<Mark>>, after: seq<seq<Mark>>, n: nat, P: seq<Cell>, y: Cell)
      returns (x: Cell)
    requires IsGrid(before, n, n) && IsGrid(after, n, n) && InBounds(P, n)
    requires |P| % 2 == 1
    requires forall i, j :: 0 <= i < n && 0 <= j < n ==>
      (after[i][j] == Star <==> OnPathAsPrime(P, Cell(i, j)) || (before[i][j] == Star && Cell(i, j) !in P))
    requires forall e :: 0 <= e < |P| && e % 2 == 0 ==> before[P[e].row][P[e].col] == Prime
    requires forall e :: 0 < e < |P| && e % 2 == 0 ==> P[e].row == P[e - 1].row
    requires y in StarCells(before)
    ensures x in StarCells(after) && x.row == y.row
  {
    if y in P {
      var o :| 0 <= o < |P| && P[o] == y;
      assert o % 2 == 1;
      x := P[o + 1];
      assert OnPathAsPrime(P, x);
    } else {
      x := y;
    }
  }

  /** Two row-injective sets of cells whose rows differ by one new row
      differ in size by one. */
  lemma CountByRows(A: set<Cell>, B: set<Cell>, x: nat)
    requires RowInjective(A) && RowInjective(B)
    requires RowsOf(A) == RowsOf(B) + {x} && x !in RowsOf(B)
    ensures |A| == |B| + 1
  {
    RowInjectiveCard(A);
    RowInjectiveCard(B);
  }

  /** Flipping a sequence that starts in a starless row and ends on a prime
      adds exactly one star to an independent mask, as long as the result is
      independent too. */
  lemma FlipAddsStar(before: seq<seq<Mark>>, after: seq<seq<Mark>>, n: nat, P: seq<Cell>)
    requires IsGrid(before, n, n) && IsGrid(after, n, n) && InBounds(P, n)
    requires |P| % 2 == 1 && !RowHasStar(before, P[0].row)
    requires Independent(before) && Independent(after)
    requires forall i, j :: 0 <= i < n && 0 <= j < n ==>
      (after[i][j] == Star <==> OnPathAsPrime(P, Cell(i, j)) || (before[i][j] == Star && Cell(i, j) !in P))
    requires forall e :: 0 <= e < |P| && e % 2 == 0 ==> before[P[e].row][P[e].col] == Prime
    requires forall e :: 0 <= e < |P| && e % 2 == 1 ==> before[P[e].row][P[e].col] == Star
    requires forall e :: 0 < e < |P| && e % 2 == 0 ==> P[e].row == P[e - 1].row
    ensures StarCount(after) == StarCount(before) + 1
  {
    var A, B := StarCells(after), StarCells(before);
    FlipStarRowsBefore(before, after, n, P);
    FlipStarRowsAfter(before, after, n, P);
    IndependentStarCells(after);
    IndependentStarCells(before);
    assert P[0].row !in RowsOf(B) by {
      forall y | y in B ensures y.row != P[0].row {
        assert Has(before, y.row, y.col, Star);
      }
    }
    CountByRows(A, B, P[0].row);
  }

  /** Step 4 adds exactly one star: the starred rows gain the row of the
      saved prime, which held no star, and lose none. */
  lemma Step4AddsStar(s: State, H: seq<Cell>)
    requires Phase4(s, H)
    ensures StarCount(Step4(s).state.mask) == StarCount(s.mask) + 1
  {
    var P := AlternatingPath(s);
    PathCells(s, H);
    PathEndsOnPrime(s, H);
    FlippedStars(s, H);
    Step4Independent(s, H);
    FlipAddsStar(s.mask, Step4(s).state.mask, s.Size(), P);
  }

  /** Step 4 ends the round: independent stars, one more than before, no
      primes and nothing covered, ready for step 2. */
  lemma Step4Keeps(s: State, H: seq<Cell>)
    requires Phase4(s, H)
    ensures Phase2(Step4(s).state)
    ensures StarCount(Step4(s).state.mask) == StarCount(s.mask) + 1
  {
    Step4Independent(s, H);
    Step4AddsStar(s, H);
  }
}
