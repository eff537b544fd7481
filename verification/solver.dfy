/** `munkres::solve`: prepare the matrix, run the step loop, and read the
    assignment off the starred zeros. */
module Munkres {
  import opened Grid
  import opened Wrappers
  import opened Indexing
  import opened Preprocess
  import opened SolverState
  import opened StarStep
  import opened CoverStep
  import opened PrimeStep
  import opened AdjustStep
  import opened AugmentStep
  import opened Phases
  import opened Augmentation

  /** The loop invariant gives what dispatching a step needs: a well-formed
      state, and a saved zero in range at the entry of step 4. */
  lemma InvariantBasics(s: State, step: StepNo)
    requires Invariant(s, step)
    ensures s.WellFormed()
    ensures step == 4 ==> s.saveRow < s.Size() && s.saveCol < s.Size()
  {
    if step == 3 || step == 5 {
      var H :| Phase3(s, H);
    } else if step == 4 {
      var H :| Phase4(s, H);
    }
  }

  /** One pass of the `switch` in the step loop. */
  function Next(s: State, step: StepNo): (t: Transition)
    requires step != 0 && s.WellFormed()
    requires step == 4 ==> s.saveRow < s.Size() && s.saveCol < s.Size()
    ensures t.state.WellFormed() && t.state.Size() == s.Size()
    ensures step == 1 || step == 4 ==> t.next == 2
    ensures step == 2 ==> t.next == 0 || t.next == 3
    ensures step == 3 ==> t.next == 3 || t.next == 4 || t.next == 5
    ensures step == 5 ==> t.next == 3
  {
    match step
    case 1 => Step1(s)
    case 2 => Step2(s)
    case 3 => Step3(s)
    case 4 => Step4(s)
    case 5 => Step5(s)
  }

  /** Step 1 leads from its invariant to step 2's. */
  lemma Step1Pass(s: State)
    requires Invariant(s, 1)
    ensures Invariant(Step1(s).state, Step1(s).next)
  {
    Step1Keeps(s);
    Step1Sound(s);
  }

  /** Step 3 leads from its invariant to the invariant of the step it
      returns: 3, 4, or 5 with no uncovered zero left. */
  lemma Step3Pass(s: State)
    requires Invariant(s, 3)
    ensures Invariant(Step3(s).state, Step3(s).next)
  {
    var H :| Phase3(s, H);
    Step3Keeps(s, H);
    Step3Sound(s);
  }

  /** Step 4 leads from its invariant to step 2's. */
  lemma Step4Pass(s: State)
    requires Invariant(s, 4)
    ensures Invariant(Step4(s).state, Step4(s).next)
  {
    var H :| Phase4(s, H);
    Step4Keeps(s, H);
    Step4Sound(s);
  }

  /** Step 5 leads from its invariant to step 3's. */
  lemma Step5Pass(s: State)
    requires Invariant(s, 5)
    ensures Invariant(Step5(s).state, Step5(s).next)
  {
    var H :| Phase3(s, H);
    Step5Keeps(s, H);
    Step5Sound(s, H);
  }

  /** Every pass of the loop keeps the invariant of the step it goes to. */
  lemma NextKeeps(s: State, step: StepNo)
    requires step != 0 && Invariant(s, step) && s.WellFormed()
    requires step == 4 ==> s.saveRow < s.Size() && s.saveCol < s.Size()
    ensures Invariant(Next(s, step).state, Next(s, step).next)
  {
    match step
    case 1 => Step1Pass(s);
    case 2 => Step2Keeps(s);
    case 3 => Step3Pass(s);
    case 4 => Step4Pass(s);
    case 5 => Step5Pass(s);
  }

  /** The step loop `while (step) switch (step) ...`, cut off after `fuel`
      passes. It ends, with at least `size` independent stars, exactly when
      step 2 finds enough stars. */
  function Run(s: State, step: StepNo, fuel: nat): (r: Option<State>)
    requires Invariant(s, step)
    ensures r.Some? ==> Invariant(r.value, 0) && r.value.Size() == s.Size()
    decreases fuel
  {
    if step == 0 then Some(s)
    else if fuel == 0 then None
    else
      InvariantBasics(s, step);
      var t := Next(s, step);
      NextKeeps(s, step);
      Run(t.state, t.next, fuel - 1)
  }

  /** The mask cut back to its first `rows` rows and `cols` columns
      (`mask_.resize(rows, columns)`). */
  function Trim(mask: seq<seq<Mark>>, n: nat, rows: nat, cols: nat): (t: seq<seq<Mark>>)
    requires IsGrid(mask, n, n) && rows <= n && cols <= n
    ensures IsGrid(t, rows, cols)
    ensures forall i, j :: 0 <= i < rows && 0 <= j < cols ==> t[i][j] == mask[i][j]
  {
    seq(rows, i requires 0 <= i < rows => mask[i][..cols])
  }

  /** Cell `p` is cell (r, c) or comes after it in column-major order. */
  predicate FromCell(p: Cell, r: nat, c: nat) {
    p.col > c || (p.col == c && p.row >= r)
  }

  /** `cs` lists, in column-major order, exactly the starred cells of the
      `rows x cols` mask from (r, c) on. */
  predicate StarsListed(mask: seq<seq<Mark>>, rows: nat, cols: nat, r: nat, c: nat, cs: seq<Cell>)
    requires IsGrid(mask, rows, cols)
  {
    && (forall k :: 0 <= k < |cs| ==>
          cs[k].row < rows && cs[k].col < cols && mask[cs[k].row][cs[k].col] == Star && FromCell(cs[k], r, c))
    && (forall i: nat, j: nat :: i < rows && j < cols && mask[i][j] == Star && FromCell(Cell(i, j), r, c) ==>
          Cell(i, j) in cs)
    && (forall k1, k2 :: 0 <= k1 < k2 < |cs| ==> Before(cs[k1], cs[k2]))
  }

  /** The cell list `here + rest`, indexed past `here`, is `rest`. */
  lemma ConcatIndex(here: seq<Cell>, rest: seq<Cell>)
    ensures forall k :: |here| <= k < |here + rest| ==> (here + rest)[k] == rest[k - |here|]
  {
  }

  /** Putting cell (r, c), when starred, in front of the list from the next
      row on gives the list from (r, c) on. */
  lemma StarsListedCons(mask: seq<seq<Mark>>, rows: nat, cols: nat, r: nat, c: nat, rest: seq<Cell>)
    requires IsGrid(mask, rows, cols) && r < rows && c < cols
    requires StarsListed(mask, rows, cols, r + 1, c, rest)
    ensures StarsListed(mask, rows, cols, r, c, (if mask[r][c] == Star then [Cell(r, c)] else []) + rest)
  {
    var here := if mask[r][c] == Star then [Cell(r, c)] else [];
    var cs := here + rest;
    ConcatIndex(here, rest);
    assert forall k :: 0 <= k < |cs| ==>
        cs[k].row < rows && cs[k].col < cols && mask[cs[k].row][cs[k].col] == Star && FromCell(cs[k], r, c) by {
      forall k | 0 <= k < |cs|
        ensures cs[k].row < rows && cs[k].col < cols && mask[cs[k].row][cs[k].col] == Star && FromCell(cs[k], r, c)
      {
        if k >= |here| {
          assert cs[k] == rest[k - |here|];
        }
      }
    }
    ConsComplete(mask, rows, cols, r, c, here, rest);
    ConsOrdered(mask, rows, cols, r, c, here, rest);
  }

  /** Every starred cell from (r, c) on is in `here + rest`. */
  lemma ConsComplete(mask: seq<seq<Mark>>, rows: nat, cols: nat, r: nat, c: nat, here: seq<Cell>, rest: seq<Cell>)
    requires IsGrid(mask, rows, cols) && r < rows && c < cols
    requires StarsListed(mask, rows, cols, r + 1, c, rest)
    requires here == if mask[r][c] == Star then [Cell(r, c)] else []
    ensures forall i: nat, j: nat :: i < rows && j < cols && mask[i][j] == Star && FromCell(Cell(i, j), r, c) ==>
      Cell(i, j) in here + rest
  {
    forall i: nat, j: nat | i < rows && j < cols && mask[i][j] == Star && FromCell(Cell(i, j), r, c)
      ensures Cell(i, j) in here + rest
    {
      if i != r || j != c {
        assert FromCell(Cell(i, j), r + 1, c);
      }
    }
  }

  /** `here + rest` is in column-major order. */
  lemma ConsOrdered(mask: seq<seq<Mark>>, rows: nat, cols: nat, r: nat, c: nat, here: seq<Cell>, rest: seq<Cell>)
    requires IsGrid(mask, rows, cols) && r < rows && c < cols
    requires StarsListed(mask, rows, cols, r + 1, c, rest)
    requires here == if mask[r][c] == Star then [Cell(r, c)] else []
    ensures forall k1, k2 :: 0 <= k1 < k2 < |here + rest| ==> Before((here + rest)[k1], (here + rest)[k2])
  {
    var cs := here + rest;
    ConcatIndex(here, rest);
    forall k1, k2 | 0 <= k1 < k2 < |cs| ensures Before(cs[k1], cs[k2]) {
      assert cs[k2] == rest[k2 - |here|];
      if k1 >= |here| {
        assert cs[k1] == rest[k1 - |here|];
      } else {
        assert FromCell(rest[k2 - |here|], r + 1, c);
      }
    }
  }

  /** The list from the top of the next column on is the list from past the
      bottom of this one on. */
  lemma StarsListedNextColumn(mask: seq<seq<Mark>>, rows: nat, cols: nat, c: nat, cs: seq<Cell>)
    requires IsGrid(mask, rows, cols) && c < cols
    requires StarsListed(mask, rows, cols, 0, c + 1, cs)
    ensures StarsListed(mask, rows, cols, rows, c, cs)
  {
    forall i: nat, j: nat | i < rows && j < cols && mask[i][j] == Star && FromCell(Cell(i, j), rows, c)
      ensures Cell(i, j) in cs
    {
      assert FromCell(Cell(i, j), 0, c + 1);
    }
  }

  /** The starred cells of a `rows x cols` mask from (r, c) on, in
      column-major order (`find(mask_ == STAR)`). */
  function StarsFrom(mask: seq<seq<Mark>>, rows: nat, cols: nat, r: nat, c: nat): (cs: seq<Cell>)
    requires IsGrid(mask, rows, cols) && r <= rows && c <= cols
    ensures StarsListed(mask, rows, cols, r, c, cs)
    decreases cols - c, rows - r
  {
    if c == cols then []
    else if r == rows then
      var cs := StarsFrom(mask, rows, cols, 0, c + 1);
      StarsListedNextColumn(mask, rows, cols, c, cs);
      cs
    else
      var rest := StarsFrom(mask, rows, cols, r + 1, c);
      StarsListedCons(mask, rows, cols, r, c, rest);
      (if mask[r][c] == Star then [Cell(r, c)] else []) + rest
  }

  /** Column-major order never lists a cell twice. */
  lemma BeforeDistinct(cs: seq<Cell>)
    requires forall k1, k2 :: 0 <= k1 < k2 < |cs| ==> Before(cs[k1], cs[k2])
    ensures Distinct(cs)
  {
    forall i, j | 0 <= i < j < |cs| ensures cs[i] != cs[j] {
      assert Before(cs[i], cs[j]);
    }
  }

  /** A sequence is repetition-free exactly when its multiset counts every
      element at most once. */
  lemma {:induction false} DistinctMultiset<T>(s: seq<T>)
    ensures Distinct(s) <==> forall x :: multiset(s)[x] <= 1
  {
    if s != [] {
      var t := s[1..];
      assert s == [s[0]] + t;
      DistinctMultiset(t);
      assert forall x :: multiset(s)[x] == multiset(t)[x] + (if x == s[0] then 1 else 0);
      if Distinct(s) {
        assert Distinct(t) by {
          forall i, j | 0 <= i < j < |t| ensures t[i] != t[j] {
            assert t[i] == s[i + 1] && t[j] == s[j + 1];
          }
        }
        assert s[0] !in t by {
          forall k | 0 <= k < |t| ensures t[k] != s[0] {
            assert t[k] == s[k + 1];
          }
        }
      }
      if forall x :: multiset(s)[x] <= 1 {
        assert multiset(t)[s[0]] == 0;
        forall i, j | 0 <= i < j < |s| ensures s[i] != s[j] {
          if i == 0 {
            assert s[j] == t[j - 1];
            assert s[j] in multiset(t);
          } else {
            assert s[i] == t[i - 1] && s[j] == t[j - 1];
          }
        }
      }
    }
  }

  /** Two sequences with the same multiset hold the same elements, and one
      is repetition-free exactly when the other is. */
  lemma SameMultiset<T>(a: seq<T>, b: seq<T>)
    requires multiset(a) == multiset(b)
    ensures forall x :: x in a <==> x in b
    ensures Distinct(a) <==> Distinct(b)
  {
    DistinctMultiset(a);
    DistinctMultiset(b);
    forall x ensures x in a <==> x in b {
      assert x in a <==> x in multiset(a);
      assert x in b <==> x in multiset(b);
    }
  }

  /** The column-major linear indices of `cells` in a matrix of `rows` rows
      (`sub2ind`, the inverse of `ind2sub`). */
  function Indices(rows: nat, cells: seq<Cell>): (ndx: seq<nat>)
    ensures |ndx| == |cells|
  {
    seq(|cells|, i requires 0 <= i < |cells| => Sub2Ind(rows, cells[i]))
  }

  /** The list from (0, 0) on holds exactly the starred cells, each once. */
  lemma StarsListedAll(mask: seq<seq<Mark>>, rows: nat, cols: nat, cs: seq<Cell>)
    requires IsGrid(mask, rows, cols) && StarsListed(mask, rows, cols, 0, 0, cs)
    ensures forall x :: x in cs <==> x.row < rows && x.col < cols && mask[x.row][x.col] == Star
    ensures Distinct(cs)
  {
    BeforeDistinct(cs);
    forall x: Cell | x.row < rows && x.col < cols && mask[x.row][x.col] == Star ensures x in cs {
      assert FromCell(Cell(x.row, x.col), 0, 0);
    }
  }

  /** The subscripts of the starred cells of the trimmed `rows x cols` mask,
      found in column-major order as linear indices, converted back to
      subscripts, and sorted by row (`sortrows(ind2sub(size(mask_),
      find(mask_ == STAR)), 0)`). The result lists every star exactly once
      and nothing else. */
  function Extract(mask: seq<seq<Mark>>, rows: nat, cols: nat): (r: seq<Cell>)
    requires IsGrid(mask, rows, cols) && rows != 0
    ensures forall x :: x in r <==> x.row < rows && x.col < cols && mask[x.row][x.col] == Star
    ensures Distinct(r) && SortedByRow(r)
  {
    var cells := StarsFrom(mask, rows, cols, 0, 0);
    StarsListedAll(mask, rows, cols, cells);
    Ind2SubOfSub2Ind(rows, cells);
    var out := SortRows(Ind2Sub(rows, Indices(rows, cells)));
    SameMultiset(out, cells);
    out
  }

  function Min(a: nat, b: nat): nat {
    if a < b then a else b
  }

  /** An assignment of a `rows x cols` problem: subscripts in range, no row
      and no column used twice, sorted by row, and one subscript for every
      row or every column, whichever is fewer. */
  predicate IsAssignment(a: seq<Cell>, rows: nat, cols: nat) {
    && (forall k :: 0 <= k < |a| ==> a[k].row < rows && a[k].col < cols)
    && (forall k1, k2 :: 0 <= k1 < k2 < |a| ==> a[k1].row < a[k2].row && a[k1].col != a[k2].col)
    && |a| == Min(rows, cols)
  }

  /** Every entry of the input is infinite. */
  predicate AllInfinite(m: seq<seq<Entry>>) {
    forall i, j :: 0 <= i < |m| && 0 <= j < |m[i]| ==> m[i][j].Infinite?
  }

  /** Preparing the matrix fails exactly for an empty non-square input, whose
      largest entry does not exist, and for a non-empty input without finite
      entries, whose largest finite entry does not exist. */
  lemma PrepareFails(m: seq<seq<Entry>>, rows: nat, cols: nat)
    requires IsGrid(m, rows, cols)
    ensures Prepare(m, rows, cols).Failure? <==>
      (rows == 0) != (cols == 0) || (rows > 0 && cols > 0 && AllInfinite(m))
    ensures PrepareAbove(m, rows, cols).Failure? <==> Prepare(m, rows, cols).Failure?
  {
    var size := MaxSize(rows, cols);
    var padded: Result<seq<seq<Entry>>, Fault> := Pad(m, rows, cols);
    if padded.Success? {
      var p: seq<seq<Entry>> := padded.value;
      if rows > 0 && cols > 0 {
        if AllInfinite(m) {
          assert p[0][0].Infinite?;
          forall i, j | 0 <= i < size && 0 <= j < size ensures p[i][j].Infinite? {
            if i >= rows || j >= cols {
              assert Occurs(m, p[i][j]);
            }
          }
          assert MaxFinite(p).None?;
        } else {
          var i, j :| 0 <= i < |m| && 0 <= j < |m[i]| && m[i][j].Finite?;
          assert p[i][j].Finite?;
        }
      } else {
        assert !HasInf(p);
      }
    }
  }

  /** The stars of the trimmed mask are the stars of the mask that lie in
      its first `rows` rows and `cols` columns. */
  lemma TrimmedStars(mask: seq<seq<Mark>>, n: nat, rows: nat, cols: nat)
    requires IsGrid(mask, n, n) && rows <= n && cols <= n
    ensures forall p :: p in StarCells(Trim(mask, n, rows, cols)) <==>
      p.row < rows && p.col < cols && p in StarCells(mask)
  {
  }

  /** Trimming keeps the stars independent. */
  lemma TrimmedIndependent(mask: seq<seq<Mark>>, n: nat, rows: nat, cols: nat)
    requires IsGrid(mask, n, n) && Independent(mask) && rows <= n && cols <= n
    ensures Independent(Trim(mask, n, rows, cols))
  {
    var t := Trim(mask, n, rows, cols);
    forall r, c1, c2 | Has(t, r, c1, Star) && Has(t, r, c2, Star) ensures c1 == c2 {
      assert Has(mask, r, c1, Star) && Has(mask, r, c2, Star);
    }
    forall r1, r2, c | Has(t, r1, c, Star) && Has(t, r2, c, Star) ensures r1 == r2 {
      assert Has(mask, r1, c, Star) && Has(mask, r2, c, Star);
    }
  }

  /** Trimming an `n x n` mask whose `n` independent stars fill every row and
      every column back to `rows x cols`, with `n` the larger side, leaves
      one star for every row or every column, whichever is fewer. */
  lemma TrimmedStarCount(mask: seq<seq<Mark>>, n: nat, rows: nat, cols: nat)
    requires IsGrid(mask, n, n) && Independent(mask) && rows <= n && cols <= n && (n == rows || n == cols)
    requires forall r :: 0 <= r < n ==> RowHasStar(mask, r)
    requires forall c :: 0 <= c < n ==> ColHasStar(mask, c)
    ensures Independent(Trim(mask, n, rows, cols))
    ensures StarCount(Trim(mask, n, rows, cols)) == Min(rows, cols)
  {
    var t := Trim(mask, n, rows, cols);
    var S := StarCells(t);
    TrimmedIndependent(mask, n, rows, cols);
    TrimmedStars(mask, n, rows, cols);
    IndependentStarCells(t);
    if rows <= cols {
      forall r: nat | r < rows ensures r in RowsOf(S) {
        assert RowHasStar(mask, r);
        var c :| 0 <= c < n && mask[r][c] == Star;
        assert Cell(r, c) in StarCells(mask);
        assert Cell(r, c) in S;
      }
      RowCount(S, rows);
    } else {
      forall c: nat | c < cols ensures c in ColsOf(S) {
        assert ColHasStar(mask, c);
        var r :| 0 <= r < n && mask[r][c] == Star;
        assert Cell(r, c) in StarCells(mask);
        assert Cell(r, c) in S;
      }
      ColCount(S, cols);
    }
  }

  /** On a 0 x 0 input the loop ends after steps 1 and 2, since zero stars
      are enough. */
  lemma RunEmpty(s: State, fuel: nat)
    requires Invariant(s, 1) && s.Size() == 0 && fuel >= 2
    ensures Run(s, 1, fuel).Some?
  {
    var t := Next(s, 1);
    NextKeeps(s, 1);
    var u := Next(t.state, 2);
    NextKeeps(t.state, 2);
    assert u.next == 0;
    assert Run(t.state, 2, fuel - 1) == Run(u.state, 0, fuel - 2) == Some(u.state);
    assert Run(s, 1, fuel) == Run(t.state, 2, fuel - 1);
  }

  /** The part of `solve` after preparation: the step loop on the reduced
      `size x size` matrix, trimming and extraction. It never reports
      `NoElements`; `ind2sub` divides by `rows`, so a problem without rows
      ends in `ZeroDivisor`. */
  function SolvePrepared(cost: seq<seq<int>>, rows: nat, cols: nat, fuel: nat): (r: Result<seq<Cell>, Fault>)
    requires IsGrid(cost, MaxSize(rows, cols), MaxSize(rows, cols)) && NonNegative(cost)
    ensures r != Failure(NoElements)
    ensures r == Failure(ZeroDivisor) ==> rows == 0
    ensures rows == 0 && cols == 0 && fuel >= 2 ==> r == Failure(ZeroDivisor)
    ensures r.Success? ==> IsAssignment(r.value, rows, cols)
  {
    var n := MaxSize(rows, cols);
    var s0 := Initial(cost, n);
    InitialInvariant(cost, n);
    assert rows == 0 && cols == 0 && fuel >= 2 ==> Run(s0, 1, fuel).Some? by {
      if rows == 0 && cols == 0 && fuel >= 2 {
        RunEmpty(s0, fuel);
      }
    }
    match Run(s0, 1, fuel)
    case None => Failure(OutOfFuel)
    case Some(s) =>
      if rows == 0 then Failure(ZeroDivisor)
      else
        FullStarsCoverAll(s.mask, n);
        TrimmedStarCount(s.mask, n, rows, cols);
        var t := Trim(s.mask, n, rows, cols);
        var a := Extract(t, rows, cols);
        AssignmentOfStars(t, rows, cols);
        Success(a)
  }

  /** `solve` as written: the assignment of rows to columns read off the
      starred zeros once the step loop ends, or the fault that stops it.
      `fuel` bounds the number of passes through the loop. */
  function Solve(m: seq<seq<Entry>>, rows: nat, cols: nat, fuel: nat): (r: Result<seq<Cell>, Fault>)
    requires IsGrid(m, rows, cols)
    ensures r == Failure(NoElements) <==>
      (rows == 0) != (cols == 0) || (rows > 0 && cols > 0 && AllInfinite(m))
    ensures r == Failure(ZeroDivisor) ==> rows == 0 && cols == 0
    ensures rows == 0 && cols == 0 && fuel >= 2 ==> r == Failure(ZeroDivisor)
    ensures r.Success? ==> IsAssignment(r.value, rows, cols)
  {
    PrepareFails(m, rows, cols);
    var cost :- Prepare(m, rows, cols);
    SolvePrepared(cost, rows, cols, fuel)
  }

  /** `solve` with the intended substitution of infinities, one more than
      the largest finite entry. Its faults are those of `Solve`. */
  function SolveAbove(m: seq<seq<Entry>>, rows: nat, cols: nat, fuel: nat): (r: Result<seq<Cell>, Fault>)
    requires IsGrid(m, rows, cols)
    ensures r == Failure(NoElements) <==>
      (rows == 0) != (cols == 0) || (rows > 0 && cols > 0 && AllInfinite(m))
    ensures r == Failure(ZeroDivisor) ==> rows == 0 && cols == 0
    ensures rows == 0 && cols == 0 && fuel >= 2 ==> r == Failure(ZeroDivisor)
    ensures r.Success? ==> IsAssignment(r.value, rows, cols)
  {
    PrepareFails(m, rows, cols);
    var cost :- PrepareAbove(m, rows, cols);
    SolvePrepared(cost, rows, cols, fuel)
  }

  /** Padding a matrix without infinite entries adds none: the padding value
      is one of its entries. */
  lemma PadFinite(m: seq<seq<Entry>>, rows: nat, cols: nat)
    requires IsGrid(m, rows, cols) && !HasInf(m) && Pad(m, rows, cols).Success?
    ensures !HasInf(Pad(m, rows, cols).value)
  {
    var p: seq<seq<Entry>> := Pad(m, rows, cols).value;
    var size := MaxSize(rows, cols);
    forall i, j | 0 <= i < size && 0 <= j < size ensures p[i][j].Finite? {
      if i >= rows || j >= cols {
        assert Occurs(m, p[i][j]);
      }
    }
  }

  /** On a matrix without infinite entries the two substitutions do not
      differ, so `solve` as written and as intended compute the same. */
  lemma SolveAgreesWithoutInfinity(m: seq<seq<Entry>>, rows: nat, cols: nat, fuel: nat)
    requires IsGrid(m, rows, cols) && !HasInf(m)
    ensures Prepare(m, rows, cols) == PrepareAbove(m, rows, cols)
    ensures Solve(m, rows, cols, fuel) == SolveAbove(m, rows, cols, fuel)
  {
    if Pad(m, rows, cols).Success? {
      PadFinite(m, rows, cols);
      SanitizeAgree(Pad(m, rows, cols).value, MaxSize(rows, cols));
    }
  }

  /** The extracted stars of an independent trimmed mask form an
      assignment. */
  lemma AssignmentOfStars(t: seq<seq<Mark>>, rows: nat, cols: nat)
    requires IsGrid(t, rows, cols) && rows != 0 && Independent(t) && StarCount(t) == Min(rows, cols)
    ensures IsAssignment(Extract(t, rows, cols), rows, cols)
  {
    var a := Extract(t, rows, cols);
    assert forall k :: 0 <= k < |a| ==> a[k] in StarCells(t) by {
      forall k | 0 <= k < |a| ensures a[k] in StarCells(t) {
        assert a[k] in a;
      }
    }
    forall k1, k2 | 0 <= k1 < k2 < |a| ensures a[k1].row < a[k2].row && a[k1].col != a[k2].col {
      var x, y := a[k1], a[k2];
      assert x != y && x.row <= y.row;
      assert Has(t, x.row, x.col, Star) && Has(t, y.row, y.col, Star);
    }
    assert (set x | x in a) == StarCells(t);
    DistinctCard(a);
  }
}
