/** Step 2 of the solver: cover the starred columns and test for completion. */
module CoverStep {
  import opened Grid
  import opened SolverState

  /** The covered columns. */
  function CoveredCols(cover: seq<bool>): set<nat> {
    set c | 0 <= c < |cover| && cover[c]
  }

  /** Step 2: cover every column that holds a star (columns already covered
      stay covered) and count the stars. The solve is complete, next step 0,
      exactly when there are at least `size` stars; otherwise step 3 follows.
      Only the column cover changes. */
  function Step2(s: State): (t: Transition)
    requires s.WellFormed()
    ensures t.state == s.(colCover := t.state.colCover) && t.state.WellFormed()
    ensures forall c :: 0 <= c < s.Size() ==>
      (t.state.colCover[c] <==> s.colCover[c] || ColHasStar(s.mask, c))
    ensures t.next == 0 <==> StarCount(s.mask) >= s.Size()
    ensures t.next == 0 || t.next == 3
  {
    var n := s.Size();
    var cover := seq(n, c requires 0 <= c < n => s.colCover[c] || ColHasStar(s.mask, c));
    Transition(s.(colCover := cover), if StarCount(s.mask) >= n then 0 else 3)
  }

  /** Entered with no column covered (as after step 1 and step 4), step 2
      covers exactly the starred columns, as many as there are stars when the
      stars are independent. */
  lemma Step2CoversStars(s: State)
    requires s.WellFormed() && Independent(s.mask)
    requires forall c :: 0 <= c < s.Size() ==> !s.colCover[c]
    ensures CoveredCols(Step2(s).state.colCover) == ColsOf(StarCells(s.mask))
    ensures |CoveredCols(Step2(s).state.colCover)| == StarCount(s.mask)
  {
    var t := Step2(s).state;
    var stars := StarCells(s.mask);
    forall c: nat
      ensures c in CoveredCols(t.colCover) <==> c in ColsOf(stars)
    {
      if c in CoveredCols(t.colCover) {
        var r :| 0 <= r < s.Size() && c < |s.mask[r]| && s.mask[r][c] == Star;
        assert Cell(r, c) in stars;
      }
      if c in ColsOf(stars) {
        var p :| p in stars && p.col == c;
        assert ColHasStar(s.mask, c);
      }
    }
    IndependentStarCells(s.mask);
    ColInjectiveCard(stars);
  }
}
