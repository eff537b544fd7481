# Kuhn–Munkres assignment solver, modelled in Dafny

This project models `munkres<eT>::solve` from `munkres-arma/munkres.hpp`.
The solver finds an assignment of rows to columns in a cost matrix:

- It pads a non-square matrix to a square one.
- It replaces infinite costs by a finite one.
- It reduces every row and every column by its minimum.
- It runs the five-step labelling loop:
  - step 1 stars zeros greedily;
  - step 2 covers the starred columns and tests whether the assignment is complete;
  - step 3 primes an uncovered zero and moves covers;
  - step 4 flips the alternating sequence of primes and stars;
  - step 5 moves the smallest uncovered entry to make a new zero.
- It reads the assignment off the starred zeros, as row-sorted (row, column) subscripts.

The `arma` helpers `mod`, `ind2sub` and `sortrows` are modelled too.

The model keeps the source's structure:

| file | module | models |
|---|---|---|
| `wrappers.dfy` | `Wrappers` | `Option` and `Result` |
| `grid.dfy` | `Grid` | cells and matrices as sequences of rows, plus counting lemmas |
| `index.dfy` | `Indexing` | `arma::mod`, `arma::ind2sub`, `arma::sortrows` |
| `preprocess.dfy` | `Preprocess` | padding, the infinity substitution, the row and column reductions |
| `state.dfy` | `SolverState` | the working state: matrix, mask, covers, saved zero |
| `step1.dfy` … `step5.dfy` | `StarStep`, `CoverStep`, `PrimeStep`, `AugmentStep`, `AdjustStep` | the five steps, `find_uncovered`, `pair_in_list` |
| `phases.dfy` | `Phases` | the invariant at the entry of every step, and why steps 1, 2, 3 and 5 keep it |
| `augment.dfy` | `Augmentation` | why step 4 keeps the stars independent and adds one |
| `solver.dfy` | `Munkres` | the step loop, trimming, extraction and `solve` |

How the source's types and effects are represented:

- A cost is an `Entry`, either `Finite(int)` or `Infinite`.
- A matrix is a sequence of rows with explicit dimensions.
- Each step is a pure function from a `State` to a `Transition`: the new state and the next step number.
- Inputs on which the source stops with an error, or leaves the outcome to Armadillo and the build flags, end in a `Fault` of the model's choosing:
  - `NoElements`: `max()` of an empty matrix (an empty non-square input at line 89), or of the empty set of finite entries (line 112);
  - `ZeroDivisor`: the model's outcome for a 0 x 0 input, at the divisor test `assert(Y != 0)` of `mod` (line 36) that `ind2sub` would reach with zero rows.
- The loop takes a `fuel` bound. Running out of it gives `OutOfFuel`.

The proofs track a ghost prime history: the primed cells, in the order step 3 primed them. With it they show the following:

- Every step keeps the loop invariant. Part of it: no entry of the working matrix is negative, every star and prime lies on a zero, and step 5 is entered only when no uncovered zero is left.
- Step 4's alternating sequence ends on a prime.
- Flipping that sequence leaves independent stars, exactly one more than before.
- When the loop ends, the extracted subscripts form an assignment:
  - they are distinct rows in ascending order;
  - no column is used twice;
  - there is one subscript for each row or each column, whichever is fewer.

## Model

| member | source | states |
|---|---|---|
| Indexing.Mod | munkres-arma/munkres.hpp:31-52 | the result is below the non-zero divisor and differs from the dividend by a multiple of it |
| Indexing.IndexToCell | munkres-arma/munkres.hpp:57-58 | the subscript of a linear index has its row in range, and maps back to the same column-major index |
| Indexing.Ind2Sub | munkres-arma/munkres.hpp:54-60 | every subscript is in range and has the given linear index in column-major order |
| Indexing.Ind2SubOfSub2Ind | munkres-arma/munkres.hpp:54-60 | converting subscripts to column-major indices and back gives the same subscripts |
| Indexing.Insert | munkres-arma/munkres.hpp:62-66 | inserting into a row-sorted sequence keeps it sorted and adds exactly that element |
| Indexing.SortRows | munkres-arma/munkres.hpp:62-66 | the result is sorted by row and is a permutation of the input; the sort is stable, so each row keeps its elements in input order |
| Preprocess.MaxEntry | munkres-arma/munkres.hpp:89 | the value is an entry of the matrix and bounds every entry, infinity counting as largest |
| Preprocess.MaxSize | munkres-arma/munkres.hpp:82-84 | the side is at least both dimensions and equals one of them |
| Preprocess.Pad | munkres-arma/munkres.hpp:88-96 | succeeds exactly when the input is square or has both dimensions non-zero; keeps every original entry; fills the added cells with an entry of the matrix that bounds all others |
| Preprocess.MaxFinite | munkres-arma/munkres.hpp:112 | none exactly when every entry is infinite; otherwise a finite entry's value that bounds every finite value |
| Preprocess.Sanitize | munkres-arma/munkres.hpp:109-112 | the substitution as written: it fails exactly when some entry is infinite and none is finite; finite entries keep their value; infinite ones become the value of a finite entry that bounds all finite values |
| Preprocess.SanitizeTiesInfinity | munkres-arma/munkres.hpp:109-112 | as written, for the matrix with infinite diagonal and 5 elsewhere the diagonal becomes 5, so the infinite pairing costs the same as the finite one |
| Preprocess.SanitizeAbove | munkres-arma/munkres.hpp:109-112 | the intended substitution: same failure cases; finite entries keep their value; every substituted entry exceeds every finite entry |
| Preprocess.SanitizeAboveSeparates | munkres-arma/munkres.hpp:109-112 | with the intended substitution the infinite pairing of that matrix costs more than the finite one |
| Preprocess.ReduceRows | munkres-arma/munkres.hpp:115 | every row gets a zero and no entry is negative; differences within a row are unchanged |
| Preprocess.ReduceCols | munkres-arma/munkres.hpp:116 | every column gets a zero and no entry is negative; differences within a column are unchanged |
| Preprocess.ReduceKeepsRowZeros | munkres-arma/munkres.hpp:114-116 | after both reductions every row and every column has a zero and no entry is negative |
| Preprocess.Reduce | munkres-arma/munkres.hpp:114-116 | the result is the input minus one amount per row and one per column, has no negative entry, and has a zero in every row and every column |
| Preprocess.ReductionShifts | munkres-arma/munkres.hpp:115-116 | a reduction that keeps differences within rows, followed by one that keeps differences within columns, subtracts one amount per row and one per column |
| Preprocess.Prepare | munkres-arma/munkres.hpp:86-116 | as written: fails, always with `NoElements`, exactly when padding or the finite-maximum substitution fails; otherwise a non-negative square matrix of side max(rows, cols) with a zero in every row and column, equal to the padded, substituted matrix minus one amount per row and one per column |
| Preprocess.PrepareAbove | munkres-arma/munkres.hpp:86-116 | the same with the intended substitution: its failure cases and its result are tied to the padded matrix with infinities raised above every finite entry |
| Preprocess.SanitizeAgree | munkres-arma/munkres.hpp:111-112 | without infinite entries both substitutions succeed and give the same matrix |
| SolverState.Initial | munkres-arma/munkres.hpp:98-105 | the state starts with every mask cell `NORMAL` and nothing covered |
| SolverState.FullStarsCoverAll | munkres-arma/munkres.hpp:205 | independent stars number at most `size`, and `size` of them occupy every row and every column |
| StarStep.StarFreeCell | munkres-arma/munkres.hpp:163-181 | starring a zero whose row and column hold no star keeps the stars independent |
| StarStep.StarRowFrom | munkres-arma/munkres.hpp:161-183 | one row's scan only adds stars, on zeros; it keeps stars independent; afterwards every zero of the row shares a row or column with a star |
| StarStep.StarRowsFrom | munkres-arma/munkres.hpp:160-184 | the same for the remaining rows |
| StarStep.Step1 | munkres-arma/munkres.hpp:155-187 | only the mask changes and only by stars on zeros; independence is kept; every zero then shares a row or column with a star; next step 2 |
| CoverStep.Step2 | munkres-arma/munkres.hpp:189-218 | a column is covered afterwards exactly when it was covered or holds a star; the loop ends (0) exactly when there are at least `size` stars, otherwise step 3 |
| CoverStep.Step2CoversStars | munkres-arma/munkres.hpp:195-205 | from uncovered columns, the covered columns are exactly the starred ones, as many as the independent stars |
| PrimeStep.ScanRows | munkres-arma/munkres.hpp:386-391 | the first uncovered row holding the item in the column, and no earlier one |
| PrimeStep.ScanColumns | munkres-arma/munkres.hpp:384-393 | the found cell is uncovered and holds the item, and no such cell from the start column on comes before it |
| PrimeStep.FindUncovered | munkres-arma/munkres.hpp:378-396 | the first uncovered cell holding the item in column-major order; none exactly when no uncovered cell holds it |
| PrimeStep.StarInRow | munkres-arma/munkres.hpp:234-241 | the first starred column of the row; none exactly when the row has no star |
| PrimeStep.Step3 | munkres-arma/munkres.hpp:220-244 | step 5 with nothing changed exactly when no uncovered zero exists; otherwise the first uncovered zero is primed and saved; with a star in its row, that row is covered and the star's column uncovered (step 3); without one, covers stay (step 4); costs never change |
| AugmentStep.PairInList | munkres-arma/munkres.hpp:373-376 | true exactly when the cell occurs in the list |
| AugmentStep.StarInColumn | munkres-arma/munkres.hpp:278-290 | the first star of the column not yet in the sequence, and every earlier star of the column is in it |
| AugmentStep.PrimeInRow | munkres-arma/munkres.hpp:297-309 | the first prime of the row not yet in the sequence, and every earlier prime of the row is in it |
| AugmentStep.NextCell | munkres-arma/munkres.hpp:276-310 | a new cell continues the alternation (a star in the last prime's column, or a prime in the last star's row); none means no such cell is left |
| AugmentStep.Alternate | munkres-arma/munkres.hpp:275-310 | the sequence is extended, stays repetition-free and alternating, and stops only when no continuing cell is left |
| AugmentStep.AlternatingPath | munkres-arma/munkres.hpp:253-310 | the sequence starts at the saved zero, is repetition-free and alternating, and stops only when no continuing cell is left |
| AugmentStep.FlipPath | munkres-arma/munkres.hpp:312-321 | on a repetition-free sequence, exactly its cells are rewritten, star to `NORMAL` and prime to star |
| AugmentStep.ErasePrimes | munkres-arma/munkres.hpp:324 | no prime is left and every other cell is kept |
| AugmentStep.Step4 | munkres-arma/munkres.hpp:246-331 | a cell is starred afterwards exactly when it is a prime on the sequence or a star off it; no primes, nothing covered; costs and saved zero kept; next step 2 |
| AdjustStep.UncoveredCells | munkres-arma/munkres.hpp:349-358 | exactly the uncovered cells from the given cell on, in row-major order |
| AdjustStep.UncoveredValues | munkres-arma/munkres.hpp:349-358 | every uncovered entry is in the list step 5 scans |
| AdjustStep.FoldHIsMin | munkres-arma/munkres.hpp:347-358 | the update rule over positive values yields their minimum, or the start value when that is smaller; started from 0 it yields 0 only for an empty list |
| AdjustStep.Step5HIsMinUncovered | munkres-arma/munkres.hpp:338-358 | after step 3 found no uncovered zero, `h` is the smallest uncovered entry, and positive when a cell is uncovered |
| AdjustStep.Step5 | munkres-arma/munkres.hpp:333-371 | only costs change: a cell covered once keeps its value, a doubly covered cell gains `h`, an uncovered one loses `h`; next step 3 |
| AdjustStep.Step5Adjusts | munkres-arma/munkres.hpp:347-368 | entries stay non-negative, and with some cell uncovered an uncovered zero appears |
| Phases.InitialInvariant | munkres-arma/munkres.hpp:98-119 | the initial state on a matrix without negative entries meets step 1's invariant |
| Phases.Step1Keeps | munkres-arma/munkres.hpp:155-187 | step 1 keeps independent stars, no primes and no covers |
| Phases.Step2Keeps | munkres-arma/munkres.hpp:189-218 | step 2 either ends the loop with at least `size` independent stars or starts a round where every star is covered exactly once |
| Phases.PrimeExtends | munkres-arma/munkres.hpp:229-230 | priming an uncovered zero extends the prime history |
| Phases.CoverSwapKeeps | munkres-arma/munkres.hpp:234-240 | covering the primed zero's row and uncovering its star's column keeps the round invariant |
| Phases.Step3Keeps | munkres-arma/munkres.hpp:220-244 | step 3 keeps the round invariant (next 3 or 5) or sets up step 4's: a history ending at the saved prime, whose row has no star |
| Phases.Step5Keeps | munkres-arma/munkres.hpp:344 | step 5 keeps the round invariant, since stars, primes and covers are untouched |
| Phases.Step1Sound | munkres-arma/munkres.hpp:163-181 | after step 1 no entry is negative and every star and prime lies on a zero |
| Phases.Step3Sound | munkres-arma/munkres.hpp:229-243 | step 3 primes only a zero, so entries stay non-negative and marks stay on zeros; it passes to step 5 only when no uncovered zero is left |
| Phases.Step4Sound | munkres-arma/munkres.hpp:312-327 | the stars after step 4 were stars or primes before, so they lie on zeros |
| Phases.MarksCoveredOnce | munkres-arma/munkres.hpp:341-344 | during a round every star and every prime is covered by exactly one line |
| Phases.Step5Sound | munkres-arma/munkres.hpp:347-368 | entered with no uncovered zero, step 5 keeps every entry non-negative and leaves the zeros under stars and primes alone |
| Augmentation.RankFalls | munkres-arma/munkres.hpp:276-310 | along the sequence, the primes' places in the prime history strictly fall |
| Augmentation.EndsOnPrime | munkres-arma/munkres.hpp:273 | a sequence cannot stop after a star, because a prime of lower rank is always left in the star's row |
| Augmentation.PathEndsOnPrime | munkres-arma/munkres.hpp:273 | step 4's sequence ends on a prime |
| Augmentation.PathPrimesApart | munkres-arma/munkres.hpp:312-321 | the primes of the sequence lie in pairwise different rows and columns |
| Augmentation.FlippedStars | munkres-arma/munkres.hpp:312-324 | after step 4 the stars are the sequence's primes and the old stars off the sequence |
| Augmentation.Step4Independent | munkres-arma/munkres.hpp:312-324 | step 4 leaves independent stars |
| Augmentation.FlipAddsStar | munkres-arma/munkres.hpp:317-318 | flipping a sequence from a starless row that ends on a prime adds exactly one star |
| Augmentation.Step4AddsStar | munkres-arma/munkres.hpp:317-318 | step 4 increases the number of stars by exactly one |
| Augmentation.Step4Keeps | munkres-arma/munkres.hpp:323-330 | step 4 restores step 2's invariant with one star more |
| Munkres.Next | munkres-arma/munkres.hpp:120-142 | the dispatch keeps the state well formed and lands on the step each case comment promises (1, 4 → 2; 2 → 0 or 3; 3 → 3, 4 or 5; 5 → 3) |
| Munkres.Step3Pass | munkres-arma/munkres.hpp:130-133 | from step 3's invariant, step 3 reaches the invariant of the step it returns, including step 5's requirement that no uncovered zero is left |
| Munkres.Step5Pass | munkres-arma/munkres.hpp:138-141 | from step 5's invariant, step 5 reaches step 3's: entries non-negative, marks on zeros, round invariant kept |
| Munkres.NextKeeps | munkres-arma/munkres.hpp:118-143 | every pass of the loop keeps the invariant of the step it goes to |
| Munkres.Run | munkres-arma/munkres.hpp:118-143 | when the loop ends, the stars are independent, number at least `size` and lie on zeros of a matrix without negative entries |
| Munkres.RunEmpty | munkres-arma/munkres.hpp:119-143 | on a 0 x 0 input the loop ends after steps 1 and 2 |
| Munkres.Trim | munkres-arma/munkres.hpp:147-148 | the trimmed mask is `rows x cols` and agrees with the mask there |
| Munkres.TrimmedStarCount | munkres-arma/munkres.hpp:145-148 | after a full assignment, trimming leaves independent stars, one per row or per column, whichever is fewer |
| Munkres.StarsFrom | munkres-arma/munkres.hpp:151 | exactly the starred cells, in column-major order |
| Munkres.Extract | munkres-arma/munkres.hpp:150-151 | the subscripts are exactly the starred cells of the trimmed mask, each once, sorted by row |
| Munkres.AssignmentOfStars | munkres-arma/munkres.hpp:145-151 | the extracted subscripts of a full trimmed star set form an assignment |
| Munkres.PrepareFails | munkres-arma/munkres.hpp:86-112 | preparation fails exactly for an empty non-square input or a non-empty input without finite entries, with either substitution |
| Munkres.SolvePrepared | munkres-arma/munkres.hpp:98-151 | on a prepared matrix never `NoElements`; `ZeroDivisor` only without rows, and always for 0 x 0 given fuel 2; every success is an assignment |
| Munkres.Solve | munkres-arma/munkres.hpp:80-152 | `solve` as written, with the finite-maximum substitution: `NoElements` exactly for an empty non-square input or a non-empty all-infinite one; `ZeroDivisor` only for 0 x 0, and always there given fuel 2; every success is an assignment: distinct rows in ascending order, distinct columns, in range, min(rows, cols) of them |
| Munkres.SolveAbove | munkres-arma/munkres.hpp:80-152 | `solve` with the intended substitution: the same faults in the same cases, and every success an assignment |
| Munkres.SolveAgreesWithoutInfinity | munkres-arma/munkres.hpp:111-112 | on a matrix without infinite entries the two preparations, and so the two solves, give the same result |

## Left out

- Floating-point costs, NaN and negative infinity: costs are unbounded integers plus a positive infinity. The double-precision `floor` in `mod` is modelled as integer division, which agrees for the non-negative indices it receives.
- The 32-bit and 64-bit widths of `eT` and `uword`: integers are unbounded. The corrected substitution's `max + 1` in `Preprocess.SanitizeAbove` assumes it does not overflow.
- Munkres.Run: the loop is cut off after `fuel` passes. Termination is not proved, so a run may end in `OutOfFuel` where the source would go on.
- Munkres.Solve: does not state that the assignment has minimum total cost. Optimality is outside the model; the proved invariants give feasibility and size only.
- After a miss, step 3 leaves `saverow_` and `savecol_` at the scan's end values. The model keeps the old values. Nothing reads them before the next hit rewrites them.
- Empty inputs: the source text does not fix what happens on them. A 0 x 0 input goes through `min` and the in-place subtractions of lines 115-116 on empty matrices before `mod` is reached. Whether Armadillo rejects that first depends on its debug configuration, and `NDEBUG` removes the assert in `mod`. The `ZeroDivisor` outcome for 0 x 0, and `NoElements` for an empty non-square input, are the model's own choice for these cases, not behaviour the source guarantees.
- The `_DEBUG` output in step 2, and `main.cpp`, which only prints a random example.
- Armadillo's matrix storage and the `std::list` of step 4 are replaced by sequences. `matrix_.resize(rows, columns)` on the cost matrix is not modelled, because its result is never read.

## Findings

| source | as written | input that shows it | evidently intended | confidence | as-written member | corrected member |
|---|---|---|---|---|---|---|
| munkres-arma/munkres.hpp:109-112 | infinite entries are replaced by the largest finite entry itself, although the comment asks for a value greater than the maximum | `[[inf, 5], [5, inf]]` becomes `[[5, 5], [5, 5]]`, so the infinite diagonal pairing ties with the finite anti-diagonal one | replace infinities by a value above every finite entry, such as `max + 1` | not executed; follows from the code as written | Preprocess.SanitizeTiesInfinity | Preprocess.SanitizeAbove |

`Preprocess.Prepare` and `Munkres.Solve` follow the code as written: they use `Preprocess.Sanitize`. The corrected pipeline is `Preprocess.PrepareAbove` and `Munkres.SolveAbove`, which use `Preprocess.SanitizeAbove`. `Munkres.SolveAgreesWithoutInfinity` proves the two agree on every matrix without infinite entries, and `Munkres.PrepareFails` that their failure cases are the same.
