# Verified models of the repository's hard core

Twenty-one Dafny modules that model the parts of this repository where a mistake would be hardest to see, and prove what
they promise. `dafny verify dfyconfig.toml` checks everything.

**Locks and schedulers** (the repository's own programs under `cpp/`). Each protocol is a step relation over any number
of threads. Wait sets, notified threads, spurious wake-ups and barging are part of the state or of the steps. A class
holds the fields the program updates, its methods perform the steps, and the lemmas hold for every state the invariant
admits or for every run.

- `UpdateMediator`: the concurrent depth-first update of a dependency graph. Each task is a stack of `UpdateDevice`
  frames and holds one mutex per device on its path. `UpdateAll` can return exactly when the dependencies among
  registered devices not yet marked have no cycle, and then every schedule ends with each of them updated once,
  dependencies first.
- `StarveFreeLock`: the writer-preferring readers-writers lock. What each of the four calls does to every thread, in terms
  of who is inside and who waits. No lost wake-up, no deadlock, bounded wait behind the
  current readers; and, against its name, a reader can wait through any number of writes: it sleeps on exactly as long
  as every unlock finds another writer waiting.
- `Semaphores`: both readers-writers programs, told apart by a flag. With the turnstile a writer's wait is bounded.
  Without it a waiting writer stays blocked exactly as long as neither the last reader of a group nor a writer leaves, and
  its wait is bounded as long as nobody else enters; readers that overlap block it through runs of any length.
- `ReadersWriters` is the abstract lock that `StarveFreeLock` and `Semaphores` refine. `Counting` counts threads,
  and `Runs` has the outcome of a run.
- `ThreadPool`: the work queue, its promises and its shutdown. Work conservation and first-in-first-out dispatch hold
  in every run. Shutdown is sure to return exactly when all workers are asleep at the call, or, seen later, when none
  stands between its failed predicate and its sleep at `notify_all`; the run that loses the wake-up is given.

**Cholesky factorizations** (`cpp/frame/thirdparty/eigen/Eigen/src/Cholesky`), over exact reals, as loops that
overwrite the lower triangle of a two-dimensional array.

- `LinearAlgebra` and `Semidefinite`: sums, quadratic forms, Schur complements. A symmetric matrix is positive definite
  exactly when every pivot is positive, and positive semidefinite exactly when no pivot is negative and every zero
  pivot has a zero column below it.
- `LLT`: unblocked and blocked factorization, with one contract that leaves a single possible return value and a
  single possible factor.
- `RankOne`: the rank-one updates of both factorizations. Givens rotations, the LLT downdate and the LDLT update keep
  one conservation law: every entry of the updated matrix is a product over the columns already rewritten, plus a
  product over the old columns still to come, plus a multiple of a product of two entries of the working vector.
- `LDLT`, `LDLTMeaning`, `LDLTSolve`, `LDLTUpdate`: the pivoted factorization, what its return value and its sign say
  about the input, solving with it, and updating it in place.
- `ConditionEstimator`: the 1-norm estimate is where a plain climb ends, or the alternating ratio when that is larger. It
  never exceeds the norm of the inverse, so the reciprocal condition number returned is never below the true one, nor
  above what any vector the code has solved for shows.

**Fast forms of simple things.**

- `Crc32`: the table-driven checksum is division by the generator polynomial, bit by bit, and the frame check sequence
  of section 8.1.1.6.2 of ITU-T V.42. For every seed it is characterised by multiples of the generator alone.
- `AssignLoop`: the vectorised assignment loops do what the plain double loop does, every aligned packet store is
  aligned, and no row gets more than one packet less than fits.
- `Evaluators`: two-dimensional access computes for every expression tree what the tree denotes on rows of coefficients,
  and whenever the computed flags allow flat access, it runs through those rows, or columns, in order. `Grids` has rows
  of coefficients and the operations that rearrange them.
- `Integers` holds minimum, maximum and facts about quotients and remainders.

## How the code is represented

- A matrix that an algorithm overwrites is an `array2<real>`. A ghost argument names the matrix its lower triangle
  stood for, and `PartFactored`, `Partial`, `Rewritten` and `UnitRewritten` say which part is still input and which is
  already factor.
- `Schur(A, k, i, j)` is the entry (i, j) after k eliminations and `Pivot(A, k)` what the next one divides by; both
  factorizations are specified by them. `Weighted(L, d, i, c, lo, hi)` is entry (i, c) of L diag(d) L' over the columns
  lo..hi, and `Dot`, `Mul` and `Quad` are the inner product, the matrix-vector product and the quadratic form.
- `sqrt` is a function argument, known only to give the positive square root of every positive real.
- `After(…, actions)` is the state after a sequence of steps, when each is enabled in turn. A statement about
  `After(Init, actions)` is about every run.
- `hide` statements only shorten proofs.

## Where code and documentation differ

- The class comment of `LDLT` promises the factorization of any positive or negative semidefinite matrix
  (`cpp/frame/thirdparty/eigen/Eigen/src/Cholesky/LDLT.h`, lines 44-50). The matrix 2 2 0 / 2 2 0 / 0 0 1 is positive
  semidefinite and the factorization reports failure (`LDLTMeaning.SemidefiniteCanFail`).
  `LDLTMeaning.SemidefiniteSucceedsIff` and `LDLTMeaning.NegativeSucceedsIff` say of which inputs it succeeds, and
  `LDLTMeaning.SucceedsIff` of which symmetric inputs at all. The order of the pivots in them, `PivotOrder`, is a function
  of the sizes of the diagonal entries of the input.
- `isPositive` and `isNegative` are documented without a condition. After a failed factorization both can hold of a
  matrix that is neither (`LDLTMeaning.SignCanMislead`). `LDLTMeaning.SignDecidesPositive` and
  `LDLTMeaning.SignDecidesNegative` say exactly when they are right.
- `StarveFreeLock` does let readers starve (`StarveFreeLock.ReaderCanStarve`): a sleeping reader is woken exactly by the
  first unlock that finds no writer waiting (`StarveFreeLock.SleepsOnIff`). When no further writer asks, it is, after as
  many writer exits as there are writers (`StarveFreeLock.DrainedReaderEnters`).
- The destructor of `thread_pool` can wait forever (`ThreadPool.LostWakeup`, `ThreadPool.HangsForever`);
  `ThreadPool.DestroySafelyIff` has the exact condition at the call, `ThreadPool.ShutdownReturnsIff` at `notify_all`.
- `UpdateAll` never returns when registered devices not yet updated depend on each other in a cycle, with no warning in the code
  (`UpdateMediator.FinishesIffAcyclic`).

## Model

| member | source | states |
|---|---|---|
| `LLT.Blocked` | `cpp/frame/thirdparty/eigen/Eigen/src/Cholesky/LLT.h:339-368` | For every size, the block loop ends and returns -1 exactly when the symmetric input is positive definite, otherwise the order of the largest positive definite leading block; the lower triangle up to there is the Cholesky factor, whatever the block size, and nothing above the diagonal changes |
| `LLT.UnblockedWhole` | `cpp/frame/thirdparty/eigen/Eigen/src/Cholesky/LLT.h:313-336` | The unblocked code on a whole matrix keeps the same contract as the blocked code, so by `OutcomeUnique` both return the same index and leave the same factor |
| `LLT.OutcomeUnique` | `cpp/frame/thirdparty/eigen/Eigen/src/Cholesky/LLT.h:329-367` | At most one return value satisfies that contract: two implementations that keep it agree |
| `LLT.Unblocked` | `cpp/frame/thirdparty/eigen/Eigen/src/Cholesky/LLT.h:313-336` | On a diagonal block whose earlier columns are eliminated: columns before the returned index become columns of the factor of the whole matrix, the others stay as they were, and the pivot at the index is not positive |
| `LLT.Column` | `cpp/frame/thirdparty/eigen/Eigen/src/Cholesky/LLT.h:321-333` | One iteration: the tested value is the pivot of the column; if it is not positive nothing changes, otherwise the column becomes a column of the factor |
| `LLT.BelowDiagonal` | `cpp/frame/thirdparty/eigen/Eigen/src/Cholesky/LLT.h:332-333` | Under a positive pivot the column below the diagonal becomes that of the factor; nothing else changes |
| `LLT.SubtractProducts` | `cpp/frame/thirdparty/eigen/Eigen/src/Cholesky/LLT.h:332` | A21 loses the products of its rows with the pivot row over the finished columns; no other entry changes |
| `LLT.DivideColumn` | `cpp/frame/thirdparty/eigen/Eigen/src/Cholesky/LLT.h:333` | Column below the diagonal divided by the new diagonal entry; no other entry changes |
| `LLT.FactorBlock` | `cpp/frame/thirdparty/eigen/Eigen/src/Cholesky/LLT.h:356-365` | Unblocked step, triangular solve and rank update together carry a partly factored matrix from column k to column k + bs, or stop at the global index of the first pivot that is not positive |
| `LLT.SolveOnTheRight` | `cpp/frame/thirdparty/eigen/Eigen/src/Cholesky/LLT.h:364` | The triangular solve overwrites A21 with the forward substitution of each of its rows |
| `LLT.SolveGivesFactor` | `cpp/frame/thirdparty/eigen/Eigen/src/Cholesky/LLT.h:364` | Forward substitution against the factored diagonal block gives exactly the factor entries that the unblocked code would compute |
| `LLT.RankUpdate` | `cpp/frame/thirdparty/eigen/Eigen/src/Cholesky/LLT.h:365` | The lower triangle of A22 loses A21 A21' and nothing else changes |
| `LLT.LeftLooking` | `cpp/frame/thirdparty/eigen/Eigen/src/Cholesky/LLT.h:328-333` | Subtracting row products over finished columns is the same as eliminating those columns one by one: left-looking equals right-looking |
| `LLT.FactorReconstructs` | `cpp/frame/thirdparty/eigen/Eigen/src/Cholesky/LLT.h:313-335` | L L' = A on the lower triangle |
| `LLT.FactorUnique` | `cpp/frame/thirdparty/eigen/Eigen/src/Cholesky/LLT.h:313-335` | A lower triangular matrix with positive diagonal and L L' = A is the one computed |
| `LLT.PivotsDecide` | `cpp/frame/thirdparty/eigen/Eigen/src/Cholesky/LLT.h:329-330` | The test x <= 0 on pivots alone decides positive definiteness of the input and of every leading block |
| `LinearAlgebra.PositiveDefiniteIffPivots` | `cpp/frame/thirdparty/eigen/Eigen/src/Cholesky/LLT.h:329-330` | A symmetric matrix has x'Ax > 0 for all nonzero x exactly when every pivot is positive |
| `LinearAlgebra.CompleteSquare` | `cpp/frame/thirdparty/eigen/Eigen/src/Cholesky/LLT.h:328-333` | One elimination step splits the quadratic form into a multiple of a square and the quadratic form of the next complement |
| `LinearAlgebra.ForwardUnique` | `cpp/frame/thirdparty/eigen/Eigen/src/Cholesky/LLT.h:364` | A triangular system with nonzero diagonal has no solution but forward substitution |
| `LinearAlgebra.ForwardSolves` | `cpp/frame/thirdparty/eigen/Eigen/src/Cholesky/LLT.h:364` | Forward substitution solves the triangular system |
| `RankOne.RankUpdateLower` | `cpp/frame/thirdparty/eigen/Eigen/src/Cholesky/LLT.h:240-307` | Given a factor L with positive diagonal, the update returns -1 exactly when L L' + sigma v v' is positive definite, and then leaves its Cholesky factor; else the order of its largest positive definite leading block, with that block factored. A positive sigma never fails |
| `RankOne.Downdate` | `cpp/frame/thirdparty/eigen/Eigen/src/Cholesky/LLT.h:277-305` | The same for the branch sigma <= 0 |
| `RankOne.DowndateColumn` | `cpp/frame/thirdparty/eigen/Eigen/src/Cholesky/LLT.h:283-303` | One iteration either stops before any write, with a pivot that is not positive, or conserves every product of two rows with beta still positive |
| `RankOne.DowndateScalars` | `cpp/frame/thirdparty/eigen/Eigen/src/Cholesky/LLT.h:283-302` | In every iteration that goes on, beta and gamma are positive, so the test gamma != 0 never skips the column update |
| `RankOne.DowndateStep` | `cpp/frame/thirdparty/eigen/Eigen/src/Cholesky/LLT.h:300-302` | The coefficients nLjj/Ljj and nLjj sigma wj / gamma conserve the product of any two rows |
| `RankOne.GivensUpdate` | `cpp/frame/thirdparty/eigen/Eigen/src/Cholesky/LLT.h:256-276` | The branch sigma > 0 always leaves the Cholesky factor of L L' + sigma v v' |
| `RankOne.GivensColumn` | `cpp/frame/thirdparty/eigen/Eigen/src/Cholesky/LLT.h:265-274` | One rotation conserves every product of two rows and leaves a positive diagonal entry |
| `RankOne.MakeGivens` | `cpp/frame/thirdparty/eigen/Eigen/src/Jacobi/Jacobi.h:231-268` | In all four cases c and s are a rotation that takes (p, q) to (r, 0), with r > 0 unless p and q are both zero |
| `RankOne.ApplyRotation` | `cpp/frame/thirdparty/eigen/Eigen/src/Jacobi/Jacobi.h:322-337` | Both vectors are rotated at once, entry by entry, each from the old values of both |
| `RankOne.RotationConserves` | `cpp/frame/thirdparty/eigen/Eigen/src/Jacobi/Jacobi.h:322-337` | A rotation conserves the product of any two rows |
| `RankOne.ConservedStep` | `cpp/frame/thirdparty/eigen/Eigen/src/Cholesky/LLT.h:281-304` | Any column step that conserves row products carries the conservation law one column further |
| `RankOne.ConservedPivot` | `cpp/frame/thirdparty/eigen/Eigen/src/Cholesky/LLT.h:289-291` | The value compared with zero is the pivot of the updated matrix |
| `RankOne.FactorOutcome` | `cpp/frame/thirdparty/eigen/Eigen/src/Cholesky/LLT.h:289-306` | A matrix factored up to its first pivot that is not positive has that index as its outcome |
| `RankOne.SchurOfFactor` | `cpp/frame/thirdparty/eigen/Eigen/src/Cholesky/LLT.h:281-304` | Eliminating columns of a factored matrix removes exactly the products over those columns |
| `RankOne.UpdateInPlace` | `cpp/frame/thirdparty/eigen/Eigen/src/Cholesky/LDLT.h:413-448` | The new factors multiply to L D L' + sigma w w', the new L is unit lower triangular, and each new d is a pivot of the updated matrix and the old d times a ratio of successive values of alpha, when no d is zero and no pivot of the updated matrix but the last is |
| `RankOne.NextAlpha` | `cpp/frame/thirdparty/eigen/Eigen/src/Cholesky/LDLT.h:432-438` | The new diagonal entry is the pivot of the updated matrix, and alpha does not become zero unless that pivot is: no step divides by zero before the last pivot |
| `RankOne.UpdateColumn` | `cpp/frame/thirdparty/eigen/Eigen/src/Cholesky/LDLT.h:431-445` | One iteration conserves every product of two rows; alpha follows its closed form |
| `RankOne.UpdateScalars` | `cpp/frame/thirdparty/eigen/Eigen/src/Cholesky/LDLT.h:432-445` | gamma is nonzero whenever the next alpha is, so the guard gamma != 0 does not skip a needed update |
| `RankOne.UpdateStep` | `cpp/frame/thirdparty/eigen/Eigen/src/Cholesky/LDLT.h:432-445` | The coefficient sigma wj / gamma conserves the product of any two rows of the unit factor |
| `RankOne.Transfer` | `cpp/frame/thirdparty/eigen/Eigen/src/Cholesky/LDLT.h:432-445` | The algebraic identity shared by the LLT downdate and the LDLT update |
| `LDLT.Unblocked` | `cpp/frame/thirdparty/eigen/Eigen/src/Cholesky/LDLT.h:300-403` | The transpositions are `PivotOrder` of the input, so the outcome is determined by it; the lower triangle holds L and D of the permuted input; its diagonal is sorted by absolute value; the result is true exactly when every zero pivot has a zero column and all zero pivots come last; started at ZeroSign the sign records which signs of pivots occurred; nothing above the diagonal changes |
| `LDLT.OrderOfDiagonal` | `cpp/frame/thirdparty/eigen/Eigen/src/Cholesky/LDLT.h:323-345` | The transpositions depend on the sizes of the diagonal entries of the input only |
| `LDLT.FirstLargestUnique` | `cpp/frame/thirdparty/eigen/Eigen/src/Cholesky/LDLT.h:323-326` | There is one first largest diagonal entry |
| `LDLT.ZeroDiagonalOrder` | `cpp/frame/thirdparty/eigen/Eigen/src/Cholesky/LDLT.h:371-382` | With a zero diagonal the order of the pivots is the identity, which is what the early exit fills in |
| `LDLT.ReconstructsIffZeroColumns` | `cpp/frame/thirdparty/eigen/Eigen/src/Cholesky/LDLT.h:384-387` | L D L' equals the permuted matrix exactly when every zero pivot has a zero column below it |
| `LDLT.LeftLookingUnit` | `cpp/frame/thirdparty/eigen/Eigen/src/Cholesky/LDLT.h:356-362` | Subtracting row products weighted by D over the finished columns is eliminating those columns one by one, zero pivots included |
| `LDLT.LargestDiagonal` | `cpp/frame/thirdparty/eigen/Eigen/src/Cholesky/LDLT.h:323-326` | The first position from k on whose diagonal entry is largest in absolute value |
| `LDLT.Transpose` | `cpp/frame/thirdparty/eigen/Eigen/src/Cholesky/LDLT.h:329-345` | Swapping row heads, column tails, the diagonal entries and the middle strip exchanges k and m symmetrically in what the lower triangle stands for, part factor and part input |
| `LDLT.SwapRowHeads` | `cpp/frame/thirdparty/eigen/Eigen/src/Cholesky/LDLT.h:334` | Heads of rows k and m exchanged, nothing else |
| `LDLT.SwapColumnTails` | `cpp/frame/thirdparty/eigen/Eigen/src/Cholesky/LDLT.h:335` | Tails of columns k and m exchanged, nothing else |
| `LDLT.SwapMiddle` | `cpp/frame/thirdparty/eigen/Eigen/src/Cholesky/LDLT.h:337-342` | Column k between k and m exchanged with row m between k and m, nothing else |
| `LDLT.Exchange` | `cpp/frame/thirdparty/eigen/Eigen/src/Cholesky/LDLT.h:323-345` | The transposition recorded is the next one of `PivotOrder`; after the exchange the factor so far belongs to the input permuted by one more transposition, and the pivot has the largest diagonal entry |
| `LDLT.SwapProgress` | `cpp/frame/thirdparty/eigen/Eigen/src/Cholesky/LDLT.h:329-345` | Exchanging later rows and columns keeps everything the finished steps have established |
| `LDLT.WeighRow` | `cpp/frame/thirdparty/eigen/Eigen/src/Cholesky/LDLT.h:358` | The work vector holds D times the pivot row |
| `LDLT.EliminateColumn` | `cpp/frame/thirdparty/eigen/Eigen/src/Cholesky/LDLT.h:356-362` | Column k becomes column k of the k-th complement; nothing else changes |
| `LDLT.ScaleColumn` | `cpp/frame/thirdparty/eigen/Eigen/src/Cholesky/LDLT.h:384-387` | The column is divided by a nonzero pivot; for a zero pivot it is left alone and the answer says whether it is zero |
| `LDLT.ColumnIsZero` | `cpp/frame/thirdparty/eigen/Eigen/src/Cholesky/LDLT.h:387` | True exactly when every entry below the diagonal is zero |
| `LDLT.NextSign` | `cpp/frame/thirdparty/eigen/Eigen/src/Cholesky/LDLT.h:392-399` | The sign machine keeps recording which signs have occurred |
| `LDLT.FinishColumn` | `cpp/frame/thirdparty/eigen/Eigen/src/Cholesky/LDLT.h:384-387` | Scaling turns the eliminated column into a finished one; for a zero pivot the answer says whether its column is zero |
| `LDLT.Advance` | `cpp/frame/thirdparty/eigen/Eigen/src/Cholesky/LDLT.h:368-399` | One iteration after the elimination keeps what ret, found_zero_pivot and sign mean, for one more column |
| `LDLT.NextProgress` | `cpp/frame/thirdparty/eigen/Eigen/src/Cholesky/LDLT.h:384-390` | ret and found_zero_pivot, updated as in the code, are true exactly when zero pivots so far have zero columns and come last, and exactly when a zero pivot has occurred |
| `LDLT.SmallExit` | `cpp/frame/thirdparty/eigen/Eigen/src/Cholesky/LDLT.h:311-319` | The exit for sizes 0 and 1 gives the same promise |
| `LDLT.ZeroDiagonalExit` | `cpp/frame/thirdparty/eigen/Eigen/src/Cholesky/LDLT.h:371-382` | The exit on a zero first pivot fills in the identity and returns whether the strict lower triangle is zero |
| `LDLT.ZeroDiagonal` | `cpp/frame/thirdparty/eigen/Eigen/src/Cholesky/LDLT.h:373-381` | That exit gives the promise of the whole factorization: with a zero diagonal every pivot is zero |
| `LDLT.FirstPivotZero` | `cpp/frame/thirdparty/eigen/Eigen/src/Cholesky/LDLT.h:371-382` | The state at that exit, together with the answer, meets the promise of the whole factorization |
| `LDLT.ZeroFirst` | `cpp/frame/thirdparty/eigen/Eigen/src/Cholesky/LDLT.h:371-374` | A zero first pivot means that the entire diagonal is zero and nothing was exchanged |
| `LDLT.PermutedSemidefinite` | `cpp/frame/thirdparty/eigen/Eigen/src/Cholesky/LDLT.h:321-345` | Semidefiniteness is not affected by the transpositions |
| `Semidefinite.SemidefiniteIffPivots` | `cpp/frame/thirdparty/eigen/Eigen/src/Cholesky/LDLT.h:177-182` | A symmetric matrix is positive semidefinite exactly when no pivot is negative and every zero pivot has a zero column below it |
| `Semidefinite.SemidefiniteSwapped` | `cpp/frame/thirdparty/eigen/Eigen/src/Cholesky/LDLT.h:329-345` | A symmetric exchange of rows and columns keeps semidefiniteness, both ways |
| `Semidefinite.SchurSwapped` | `cpp/frame/thirdparty/eigen/Eigen/src/Cholesky/LDLT.h:329-345` | Exchanging rows and columns that are not eliminated yet commutes with elimination |
| `Semidefinite.NegativeDirection` | `cpp/frame/thirdparty/eigen/Eigen/src/Cholesky/LDLT.h:386-387` | A zero pivot with a nonzero entry below it: a vector with negative quadratic form |
| `LDLTMeaning.SignDecidesPositive` | `cpp/frame/thirdparty/eigen/Eigen/src/Cholesky/LDLT.h:177-182` | isPositive together with an exact reconstruction decides positive semidefiniteness, both ways; after a successful factorization isPositive alone does |
| `LDLTMeaning.SignDecidesNegative` | `cpp/frame/thirdparty/eigen/Eigen/src/Cholesky/LDLT.h:184-189` | The same for isNegative and negative semidefiniteness |
| `LDLTMeaning.DefiniteSucceeds` | `cpp/frame/thirdparty/eigen/Eigen/src/Cholesky/LDLT.h:384-402` | A positive definite input is always factored, with sign PositiveSemiDef |
| `LDLTMeaning.SemidefiniteSucceedsIff` | `cpp/frame/thirdparty/eigen/Eigen/src/Cholesky/LDLT.h:321-402` | A positive semidefinite input is factored exactly when, permuted by `PivotOrder`, a leading positive definite block carries the whole rank: nothing is left after eliminating it |
| `LDLTMeaning.NegativeSucceedsIff` | `cpp/frame/thirdparty/eigen/Eigen/src/Cholesky/LDLT.h:321-402` | A negative semidefinite input is factored exactly when that holds of its negation |
| `LDLTMeaning.SucceedsIff` | `cpp/frame/thirdparty/eigen/Eigen/src/Cholesky/LDLT.h:321-402` | Any symmetric input is factored exactly when, permuted by `PivotOrder`, a leading block without zero pivots carries the whole rank |
| `LDLTMeaning.LeadingRank` | `cpp/frame/thirdparty/eigen/Eigen/src/Cholesky/LDLT.h:384-390` | When all zero pivots have zero columns and come last, such a leading block exists |
| `LDLTMeaning.SemidefiniteCanFail` | `cpp/frame/thirdparty/eigen/Eigen/src/Cholesky/LDLT.h:44-46` | Refutes the documented promise: a positive semidefinite matrix for which every choice of equal pivots ends in failure |
| `LDLTMeaning.SignCanMislead` | `cpp/frame/thirdparty/eigen/Eigen/src/Cholesky/LDLT.h:177-189` | After a failure isPositive and isNegative can both hold of a matrix that is neither |
| `LDLTSolve.Solve` | `cpp/frame/thirdparty/eigen/Eigen/src/Cholesky/LDLT.h:574-611` | The result x satisfies L y = P b and D L' P x = y in the components with abs(d) above the tolerance and L' P x = 0 in the others |
| `LDLTSolve.ChainSolvesIff` | `cpp/frame/thirdparty/eigen/Eigen/src/Cholesky/LDLT.h:577-611` | Given a factorization that reconstructs A, such an x solves A x = b exactly when no nonzero component of y was dropped |
| `LDLTSolve.ChainSolvesWhenSolvable` | `cpp/frame/thirdparty/eigen/Eigen/src/Cholesky/LDLT.h:585-603` | When every dropped pivot is zero, x solves A x = b whenever any vector does: the pseudo-inverse loses no solution |
| `LDLTSolve.DivideByDiagonal` | `cpp/frame/thirdparty/eigen/Eigen/src/Cholesky/LDLT.h:595-602` | Components with abs(d) above the tolerance are divided by it, the others become zero |
| `LDLTSolve.SolveLower` | `cpp/frame/thirdparty/eigen/Eigen/src/Cholesky/LDLT.h:581` | The in-place solve leaves the solution of the unit lower triangular system, without reading the diagonal |
| `LDLTSolve.SolveUpper` | `cpp/frame/thirdparty/eigen/Eigen/src/Cholesky/LDLT.h:606` | The in-place solve leaves the solution of the transposed system |
| `LDLTSolve.UnitInjective` | `cpp/frame/thirdparty/eigen/Eigen/src/Cholesky/LDLT.h:581` | A unit lower triangular system has at most one solution |
| `LDLTSolve.ApplyTranspositions` | `cpp/frame/thirdparty/eigen/Eigen/src/Core/ProductEvaluators.h:1114-1131` | Exchanging in increasing order applies P |
| `LDLTSolve.ApplyInverse` | `cpp/frame/thirdparty/eigen/Eigen/src/Core/ProductEvaluators.h:1114-1131` | Exchanging in decreasing order applies the inverse of P |
| `LDLTSolve.PermutedInverse` | `cpp/frame/thirdparty/eigen/Eigen/src/Cholesky/LDLT.h:608-610` | P undoes P' |
| `LDLTSolve.PermutedProduct` | `cpp/frame/thirdparty/eigen/Eigen/src/Cholesky/LDLT.h:577-610` | (P A P') (P x) = P (A x) |
| `LDLTSolve.FactorsApplied` | `cpp/frame/thirdparty/eigen/Eigen/src/Cholesky/LDLT.h:580-606` | (L D L') u = L (D (L' u)) |
| `LDLTSolve.ProductIsChain` | `cpp/frame/thirdparty/eigen/Eigen/src/Cholesky/LDLT.h:577-610` | P A x = L D L' P x |
| `LDLTSolve.ReconstructsFully` | `cpp/frame/thirdparty/eigen/Eigen/src/Cholesky/LDLT.h:643-662` | Reconstructing the lower triangle of a symmetric matrix reconstructs all of it |
| `LDLTSolve.ReconstructedMatrix` | `cpp/frame/thirdparty/eigen/Eigen/src/Cholesky/LDLT.h:643-662` | reconstructedMatrix gives back every entry of the input whenever the factors reconstruct the permuted one |
| `LDLTUpdate.Update` | `cpp/frame/thirdparty/eigen/Eigen/src/Cholesky/LDLT.h:450-458` | From the factorization of the permuted A to that of the permuted A + sigma v v', in the very form a fresh factorization with the same transpositions leaves, so it can be solved with, reconstructed and updated again; when no pivot of the first is zero and of the second at most the last |
| `LDLTUpdate.SolvesUpdated` | `cpp/frame/thirdparty/eigen/Eigen/src/Cholesky/LDLT.h:532-561` | Solving afterwards solves (A + sigma v v') x = b when no pivot is dropped |
| `LDLTUpdate.UpdatedIsPermuted` | `cpp/frame/thirdparty/eigen/Eigen/src/Cholesky/LDLT.h:453-457` | Updating the factors with the permuted vector is permuting the updated matrix |
| `LDLTUpdate.PermutedPlus` | `cpp/frame/thirdparty/eigen/Eigen/src/Cholesky/LDLT.h:453-454` | P (A + sigma v v') P' = P A P' + sigma (P v) (P v)' |
| `LDLTUpdate.PivotsStay` | `cpp/frame/thirdparty/eigen/Eigen/src/Cholesky/LDLT.h:457` | The pivots of the updated factors are those of the permuted updated matrix |
| `LDLTUpdate.FactorIsPartial` | `cpp/frame/thirdparty/eigen/Eigen/src/Cholesky/LDLT.h:440-445` | Updated columns are the columns that elimination of the updated matrix gives |
| `ConditionEstimator.Estimate` | `cpp/frame/thirdparty/eigen/Eigen/src/Core/ConditionEstimator.h:56-142` | The estimate is exactly the larger of where the plain four-step climb ends and the alternating ratio. It never exceeds the 1-norm of the inverse, is never below what the averaging vector, the alternating vector and the first column of the ascent show, is exact for n = 1, 0 for n = 0, and uses at most 10 solves |
| `ConditionEstimator.RcondEstimate` | `cpp/frame/thirdparty/eigen/Eigen/src/Core/ConditionEstimator.h:159-169` | For n > 1 the result times the norm times the estimate is 1, and the result is 0 when the estimate is. For any linear solve and positive norm it is bounded from above by every demonstrated bound: times the norm and the norm of the image of the averaging vector or of the first unit vector of the ascent it is at most 1, of the alternating vector at most that vector's norm; a result that is not zero is never below the reciprocal of the product of the norms, and it is zero only if the solve takes the averaging vector to zero. With the true norm of A and an exact inverse, the result lies between the true reciprocal condition number and 1. The early exits for an empty matrix, a zero norm and n = 1 are as documented |
| `ConditionEstimator.LowerNorm` | `cpp/frame/thirdparty/eigen/Eigen/src/Cholesky/LLT.h:442-453` | The loop over column tails and row heads of the lower triangle gives the 1-norm of the whole symmetric matrix |
| `ConditionEstimator.NormBound` | `cpp/frame/thirdparty/eigen/Eigen/src/Core/ConditionEstimator.h:80-83` | The 1-norm of M x is at most the norm of M times the norm of x |
| `ConditionEstimator.LargestColumnAttained` | `cpp/frame/thirdparty/eigen/Eigen/src/Core/ConditionEstimator.h:88-90` | The norm is attained at a unit vector |
| `ConditionEstimator.AscentStep` | `cpp/frame/thirdparty/eigen/Eigen/src/Core/ConditionEstimator.h:103-112` | Moving to the unit vector of the largest gradient component never lowers the objective |
| `ConditionEstimator.AlternatingNorm` | `cpp/frame/thirdparty/eigen/Eigen/src/Core/ConditionEstimator.h:123-140` | The alternating vector has 1-norm exactly 3n/2, the constant in the code |
| `ConditionEstimator.InverseNorm` | `cpp/frame/thirdparty/eigen/Eigen/src/Core/ConditionEstimator.h:80-83` | The 1-norm of x is at most the norm of A times the norm of the inverse applied to x |
| `ConditionEstimator.AverageImage` | `cpp/frame/thirdparty/eigen/Eigen/src/Core/ConditionEstimator.h:166-168` | For an invertible matrix the estimate cannot be zero: the zero test guards nothing else |
| `ConditionEstimator.AdjointDot` | `cpp/frame/thirdparty/eigen/Eigen/src/Core/ConditionEstimator.h:103-105` | Solving with the adjoint gives the gradient: s' (M x) = (M' s)' x |
| `ConditionEstimator.Climb` | `cpp/frame/thirdparty/eigen/Eigen/src/Core/ConditionEstimator.h:91-122` | At most four steps, at most eight solves. The tests for a repeated sign vector or index only save solves: the bound is exactly where the plain climb from the averaging vector ends, at least the norm of the column with the first largest gradient component there, at least the bound it starts from, and at most the norm |
| `ConditionEstimator.ClimbRises` | `cpp/frame/thirdparty/eigen/Eigen/src/Core/ConditionEstimator.h:84-122` | A climb of moves to the unit vector of the first largest gradient component ends at a column of M, no lower than its start and its first move, and no higher than the norm |
| `ConditionEstimator.ClimbStays` | `cpp/frame/thirdparty/eigen/Eigen/src/Core/ConditionEstimator.h:106-109` | A climb that would move to where it stands ends there |
| `ConditionEstimator.SameSigns` | `cpp/frame/thirdparty/eigen/Eigen/src/Core/ConditionEstimator.h:98-102` | Equal sign vectors lead to the same unit vector: the test for a repeated sign vector loses nothing |
| `ConditionEstimator.NothingAbove` | `cpp/frame/thirdparty/eigen/Eigen/src/Core/ConditionEstimator.h:167-168` | No reciprocal of norm times estimate exceeds what the averaging vector, the alternating vector and the first column show |
| `ConditionEstimator.Ascend` | `cpp/frame/thirdparty/eigen/Eigen/src/Core/ConditionEstimator.h:98-105` | One adjoint solve; the index is the first of the largest gradient components, and its column has at least the norm of the current vector |
| `ConditionEstimator.VisitUnit` | `cpp/frame/thirdparty/eigen/Eigen/src/Core/ConditionEstimator.h:110-112` | One solve; the new bound is the norm of that column and not below the old one |
| `ConditionEstimator.Begin` | `cpp/frame/thirdparty/eigen/Eigen/src/Core/ConditionEstimator.h:75-84` | One solve with the averaging vector of norm 1 |
| `ConditionEstimator.Alternate` | `cpp/frame/thirdparty/eigen/Eigen/src/Core/ConditionEstimator.h:133-140` | The alternative bound is the ratio of the image's norm to the vector's, so times 3n/2 it is the norm of the image and does not exceed the norm either |
| `ConditionEstimator.FillAlternating` | `cpp/frame/thirdparty/eigen/Eigen/src/Core/ConditionEstimator.h:133-138` | The loop fills in (-1)^i (1 + i/(n-1)): it starts with 1, every entry has the other sign than the one before, and is larger by 1/(n-1) |
| `ConditionEstimator.SignVector` | `cpp/frame/thirdparty/eigen/Eigen/src/Core/ConditionEstimator.h:28-33` | The sign of each entry, 1 for zero |
| `ConditionEstimator.SignsNorm` | `cpp/frame/thirdparty/eigen/Eigen/src/Core/ConditionEstimator.h:28-33` | The sign vector turns the 1-norm into an inner product |
| `ConditionEstimator.LargestIndex` | `cpp/frame/thirdparty/eigen/Eigen/src/Core/ConditionEstimator.h:105` | The first index of largest absolute value |
| `ConditionEstimator.Decomposition.Solve` | `cpp/frame/thirdparty/eigen/Eigen/src/Core/ConditionEstimator.h:75` | One call of solve, counted: multiplication by the inverse |
| `ConditionEstimator.Decomposition.AdjointSolve` | `cpp/frame/thirdparty/eigen/Eigen/src/Core/ConditionEstimator.h:104` | One call of adjoint().solve, counted: multiplication by the transposed inverse |
| `UpdateMediator.Mediator.UpdateAll` | `cpp/updater_ex/main.cpp:202-219` | Under any schedule, whatever was marked before, when the dependencies among the devices that were not marked have no cycle: it terminates, every registered device not marked before has been updated once, dependencies first, no other has, all registered devices are marked, and it can be called again |
| `UpdateMediator.ExactlyOnceInOrder` | `cpp/updater_ex/main.cpp:175-219` | In every run that returns, from any set of devices already marked, with duplicate registrations or edges or without: Update has run exactly once for each registered device not marked before, for no other, and after Update of all its registered dependencies not marked before; no mutex is held |
| `UpdateMediator.DependenciesFirst` | `cpp/updater_ex/main.cpp:186-199` | In every run, when an Update is about to start, the device has never been updated and every registered dependency has been updated and marked |
| `UpdateMediator.ReadyToUpdate` | `cpp/updater_ex/main.cpp:180-199` | The same from the invariant of a single state |
| `UpdateMediator.FinishesIffAcyclic` | `cpp/updater_ex/main.cpp:175-219` | UpdateAll can return exactly when the dependencies among registered devices not marked before have no cycle |
| `UpdateMediator.RankedIffNoCycle` | `cpp/updater_ex/main.cpp:186-192` | The dependencies can be ranked exactly when no path of them among due devices ends where it begins |
| `UpdateMediator.Sink` | `cpp/updater_ex/main.cpp:186-192` | Among due devices without a cycle one depends on none of them |
| `UpdateMediator.FinishedImpliesAcyclic` | `cpp/updater_ex/main.cpp:175-219` | The order of the updates of a run that returned ranks the dependencies |
| `UpdateMediator.NoDeadlock` | `cpp/updater_ex/main.cpp:175-219` | With acyclic dependencies, some step is possible in every state that is not final |
| `UpdateMediator.SomeTaskMoves` | `cpp/updater_ex/main.cpp:175-200` | Following the owners of the locks waited for descends in rank, so it ends at a task that can move |
| `UpdateMediator.StepDecreases` | `cpp/updater_ex/main.cpp:175-219` | Every step of any task lowers a natural number bounded from the start |
| `UpdateMediator.RunsBounded` | `cpp/updater_ex/main.cpp:175-219` | No run, fair or not, is longer than a bound fixed by the dependencies |
| `UpdateMediator.CanFinish` | `cpp/updater_ex/main.cpp:175-219` | Every run can be continued to one that returns |
| `UpdateMediator.StepInv` | `cpp/updater_ex/main.cpp:175-219` | Every step of every task keeps the invariant on locks, stacks, marks and the update log |
| `UpdateMediator.Descends` | `cpp/updater_ex/main.cpp:186-192` | Along the locks a task holds, ranks decrease |
| `UpdateMediator.OtherStacks` | `cpp/updater_ex/main.cpp:178-199` | A step of one task does not disturb another: only the holder of a mutex changes its device |
| `UpdateMediator.LogAppend` | `cpp/updater_ex/main.cpp:196` | Updating a due device that is new and has its due dependencies done keeps the order of the log |
| `UpdateMediator.Mediator.constructor` | `cpp/updater_ex/main.cpp:221-225` | Nothing registered, nothing marked, no task, no lock |
| `UpdateMediator.Mediator.AddDevice` | `cpp/updater_ex/main.cpp:159-162` | The device is appended, even if already registered |
| `UpdateMediator.Mediator.SetDependency` | `cpp/updater_ex/main.cpp:164-167` | The edge is appended to those of its source, even if already there; no other device's edges change |
| `UpdateMediator.Mediator.LaunchTask` | `cpp/updater_ex/main.cpp:207-212` | Starts a task for the next registered device: the launch step |
| `UpdateMediator.Mediator.JoinTask` | `cpp/updater_ex/main.cpp:215-218` | Waits for the next future: the join step |
| `UpdateMediator.Mediator.Acquire` | `cpp/updater_ex/main.cpp:178` | Takes the free mutex of the innermost call: the advance step of a waiting frame |
| `UpdateMediator.Mediator.Release` | `cpp/updater_ex/main.cpp:183-200` | Leaves the innermost call and releases its mutex |
| `UpdateMediator.Mediator.Continue` | `cpp/updater_ex/main.cpp:180-199` | Skip test, next dependency, Update or MarkUpdated: the advance step of a frame that holds its mutex |
| `UpdateMediator.Mediator.Step` | `cpp/updater_ex/main.cpp:202-219` | Whatever the scheduler picks, one enabled step of a task or of the caller is performed |
| `StarveFreeLock.Progress` | `cpp/sleep_until_error/main.cpp:17-54` | No deadlock and no lost wake-up: whenever some thread is not idle, a thread inside can leave or a notified thread can enter |
| `StarveFreeLock.CountersAndExclusion` | `cpp/sleep_until_error/main.cpp:17-54` | In every run the counters equal the threads in each phase, and a writer inside excludes everyone else |
| `StarveFreeLock.CallsAndPhases` | `cpp/sleep_until_error/main.cpp:17-54` | In every run a thread whose last call was `lock` or `lock_shared` is inside or in the wait of that call, and a thread is outside exactly when it has called neither or has unlocked since |
| `StarveFreeLock.ExclusiveEntryIff` | `cpp/sleep_until_error/main.cpp:33-40` | `lock`, at its start or woken, leaves its thread writing exactly when no thread is inside, and asleep otherwise; nobody else is affected |
| `StarveFreeLock.SharedEntryIff` | `cpp/sleep_until_error/main.cpp:17-22` | `lock_shared`, at its start or woken, leaves its thread reading exactly when no thread writes or waits to write, and asleep otherwise; nobody else is affected |
| `StarveFreeLock.SharedExit` | `cpp/sleep_until_error/main.cpp:24-31` | `unlock_shared` notifies one sleeping writer exactly when it leaves nobody inside, and affects nobody else |
| `StarveFreeLock.ExclusiveExit` | `cpp/sleep_until_error/main.cpp:42-54` | `unlock` notifies one sleeping writer when a writer waits and every sleeping reader otherwise, and affects nobody else |
| `StarveFreeLock.StepInv` | `cpp/sleep_until_error/main.cpp:17-54` | Every step, spurious wake-ups included, keeps the invariant: counters, exclusion, and no sleeper without a reason or a pending wake-up |
| `StarveFreeLock.ReadersDrain` | `cpp/sleep_until_error/main.cpp:17-40` | While a writer waits no reader enters: readers inside are those at the start less the exits |
| `StarveFreeLock.DrainedWriterEnters` | `cpp/sleep_until_error/main.cpp:27-40` | After as many reader exits as there were readers, and no writer inside, a waiting writer has been notified and can enter |
| `StarveFreeLock.Refines` | `cpp/sleep_until_error/main.cpp:17-54` | Every step is a step of the abstract readers-writers lock or leaves it alone |
| `StarveFreeLock.ReaderCanStarve` | `cpp/sleep_until_error/main.cpp:17-22` | An instance for every number of writes: two writers that hand the lock over to each other keep the reader asleep |
| `StarveFreeLock.SleepsOnIff` | `cpp/sleep_until_error/main.cpp:20-53` | For every state and every run without a spurious wake-up of the reader: a sleeping reader stays asleep throughout exactly when every unlock in the run finds another writer waiting |
| `StarveFreeLock.WakesIff` | `cpp/sleep_until_error/main.cpp:46-53` | One step wakes a sleeping reader exactly when it is an unlock that finds no writer waiting |
| `StarveFreeLock.WritersDrain` | `cpp/sleep_until_error/main.cpp:33-54` | While no further writer asks, the writers present, waiting and writing, are those at the start less the writer exits |
| `StarveFreeLock.DrainedReaderEnters` | `cpp/sleep_until_error/main.cpp:17-54` | After as many writer exits as there were writers, no reader sleeps and every one that was woken can enter |
| `StarveFreeLock.WritersCanDrain` | `cpp/sleep_until_error/main.cpp:17-54` | From every state some continuation without a new writer brings those exits about |
| `StarveFreeLock.OpeningReaches` | `cpp/sleep_until_error/main.cpp:17-54` | The starting point of that run is reachable |
| `StarveFreeLock.NotifyOneCounts` | `cpp/sleep_until_error/main.cpp:29` | notify_one leaves a notified writer behind whenever one still sleeps, and changes nobody else |
| `StarveFreeLock.NotifyAllCounts` | `cpp/sleep_until_error/main.cpp:52` | notify_all leaves no reader asleep and changes no writer |
| `StarveFreeLock.StarveFree.constructor` | `cpp/sleep_until_error/main.cpp:10-15` | All threads idle, counters zero, invariant established |
| `StarveFreeLock.StarveFree.LockShared` | `cpp/sleep_until_error/main.cpp:17-22` | From its start or after a wake-up: enters or sleeps as the predicate says, keeping the invariant |
| `StarveFreeLock.StarveFree.UnlockShared` | `cpp/sleep_until_error/main.cpp:24-31` | The last reader out notifies one writer if any waits, keeping the invariant |
| `StarveFreeLock.StarveFree.Lock` | `cpp/sleep_until_error/main.cpp:33-40` | Registers as waiting once, enters or sleeps, keeping the invariant |
| `StarveFreeLock.StarveFree.Unlock` | `cpp/sleep_until_error/main.cpp:42-54` | Notifies one writer if any waits, otherwise all readers, keeping the invariant |
| `StarveFreeLock.StarveFree.NotifyWriter` | `cpp/sleep_until_error/main.cpp:29-48` | Wakes some sleeping writer if there is one |
| `StarveFreeLock.StarveFree.NotifyReaders` | `cpp/sleep_until_error/main.cpp:52` | Wakes every sleeping reader |
| `ReadersWriters.NextSafe` | `cpp/sleep_until_error/main.cpp:17-54` | Steps of the abstract lock never let a writer in beside anyone else |
| `Semaphores.Safety` | `cpp/readers_writers_problem/semaphore/without_writer_starvation.cpp:69-114` | In every run of either program read_count counts the readers between increment and decrement, a writer in its critical section is alone, and no increment is lost: the shared variable is the number of times a writer took wrt in the run less the writers that have yet to store, and the number of times a writer gave wrt back plus the writers about to |
| `Semaphores.StoresCount` | `cpp/readers_writers_problem/semaphore/with_writer_starvation.cpp:92-105` | By induction over the run: the shared variable counts the writers' passages through the critical section |
| `Semaphores.StoreStep` | `cpp/readers_writers_problem/semaphore/with_writer_starvation.cpp:92-105` | What one step of any thread does to the shared variable and to the writers before and after their stores |
| `Semaphores.FirstReaderBlocksIff` | `cpp/readers_writers_problem/semaphore/without_writer_starvation.cpp:73-78` | The first reader blocks on wrt only for a writer in its critical section; behind the turnstile never |
| `Semaphores.WriterWaitBounded` | `cpp/readers_writers_problem/semaphore/without_writer_starvation.cpp:100-101` | A writer that holds the turnstile waits for at most a bounded number of steps of the others, and can move as soon as they cannot |
| `Semaphores.BacklogShrinks` | `cpp/readers_writers_problem/semaphore/without_writer_starvation.cpp:73-101` | While it waits no reader enters and every step of another thread uses up part of that bound |
| `Semaphores.NoDeadlock` | `cpp/readers_writers_problem/semaphore/without_writer_starvation.cpp:69-114` | In either program some thread can move until all have left their loops |
| `Semaphores.StepInv` | `cpp/readers_writers_problem/semaphore/without_writer_starvation.cpp:69-114` | Every step of either program keeps the invariant: each semaphore is conserved between its value and its holder |
| `Semaphores.Refines` | `cpp/readers_writers_problem/semaphore/with_writer_starvation.cpp:67-108` | Every step of either program is a step of the abstract readers-writers lock or leaves it alone |
| `Semaphores.ReaderKeepsWritersOut` | `cpp/readers_writers_problem/semaphore/with_writer_starvation.cpp:72-86` | While a reader reads, the reader group holds wrt and no writer does |
| `Semaphores.WriteInv` | `cpp/readers_writers_problem/semaphore/without_writer_starvation.cpp:104` | Between the load and the store of increment++ nobody else writes |
| `Semaphores.WriterCanStarve` | `cpp/readers_writers_problem/semaphore/with_writer_starvation.cpp:67-108` | An instance for every number of reads: readers that overlap keep a waiting writer blocked in every state along the way |
| `Semaphores.BlockedIffNeverPosted` | `cpp/readers_writers_problem/semaphore/with_writer_starvation.cpp:83-104` | Without the turnstile, for every state with wrt taken and a writer waiting for it and every run of the others: the writer is blocked throughout exactly when neither the last reader of a group nor a writer posts wrt in the run |
| `Semaphores.WaitsStep` | `cpp/readers_writers_problem/semaphore/with_writer_starvation.cpp:83-104` | One step of another thread frees wrt exactly when it is one of those two posts |
| `Semaphores.UnfinishedShrinks` | `cpp/readers_writers_problem/semaphore/with_writer_starvation.cpp:67-108` | Without the turnstile, while nobody enters, every step uses up part of what the threads still have to do |
| `Semaphores.WriterWaitBoundedWithoutEntries` | `cpp/readers_writers_problem/semaphore/with_writer_starvation.cpp:67-108` | So while nobody else enters, the wait of a writer is bounded too, and as soon as nobody inside can move the writer can |
| `Semaphores.WriterCanGetIn` | `cpp/readers_writers_problem/semaphore/with_writer_starvation.cpp:67-108` | From every such state some run of the others without an entry ends with the writer able to move |
| `Semaphores.OverlapReached` | `cpp/readers_writers_problem/semaphore/with_writer_starvation.cpp:67-76` | The starting point of those runs is reachable |
| `Semaphores.SharedMemory.constructor` | `cpp/readers_writers_problem/semaphore/without_writer_starvation.cpp:61-67` | All semaphores 1, counters 0, invariant established |
| `Semaphores.SharedMemory.ReaderStep` | `cpp/readers_writers_problem/semaphore/without_writer_starvation.cpp:69-94` | Each statement of the reader is the step of the model and keeps the invariant; read_count is modelled with its wrap-around, which the invariant excludes |
| `Semaphores.SharedMemory.WriterStep` | `cpp/readers_writers_problem/semaphore/without_writer_starvation.cpp:96-114` | Each statement of the writer is the step of the model and keeps the invariant; the store, and nothing else, adds one to the shared variable |
| `ThreadPool.FirstInFirstOut` | `cpp/threadpool_new/main.cpp:39-62` | In every run: jobs dispatched, then jobs pending, are the jobs posted, in order; every dispatched job is running on exactly one worker or has completed, never both and never neither; a promise is set exactly when its job has completed, to the result of its own function |
| `ThreadPool.PromisesKept` | `cpp/threadpool_new/main.cpp:86-119` | In every run, whenever no worker is running a job, every promised job that has left the queue has its promise set to its own function's result; with an empty queue every promised job ever posted has |
| `ThreadPool.NoLostWakeup` | `cpp/threadpool_new/main.cpp:39-62` | In every run, while the pool is active and the mutex free: nobody sleeps, or at least as many workers are notified as jobs are queued |
| `ThreadPool.StepInv` | `cpp/threadpool_new/main.cpp:29-62` | Every step keeps the invariant, with barging workers, spurious wake-ups and shutdown |
| `ThreadPool.SomeWorkerMoves` | `cpp/threadpool_new/main.cpp:47-62` | While a job is queued and the pool active, some worker that is awake can move |
| `ThreadPool.DispatchNearer` | `cpp/threadpool_new/main.cpp:47-62` | Each step of a worker then dispatches a job or brings the next dispatch nearer |
| `ThreadPool.RunKeepsJobs` | `cpp/threadpool_new/main.cpp:104-118` | Running a job completes it; its promise was not set before, and a promised job's promise now holds the result of its own function; nothing is dropped |
| `ThreadPool.PostedInOrder` | `cpp/threadpool_new/main.cpp:39-44` | The jobs recorded as posted are the arguments of the posts, in order |
| `ThreadPool.NotifyAllInv` | `cpp/threadpool_new/main.cpp:32` | notify_all leaves nobody asleep and keeps the invariant |
| `ThreadPool.ShutdownReturnsIff` | `cpp/threadpool_new/main.cpp:29-56` | At notify_all: spurious wake-ups aside, the destructor is sure not to hang exactly when no worker stands between its failed predicate and its sleep |
| `ThreadPool.DestroySafelyIff` | `cpp/threadpool_new/main.cpp:29-56` | At the call of the destructor, with no more posts and spurious wake-ups aside: no schedule makes it hang exactly when all workers are asleep |
| `ThreadPool.DestroyReturns` | `cpp/threadpool_new/main.cpp:29-56` | Called with all workers asleep, no more posts and spurious wake-ups aside, the destructor returns: no schedule is longer than two steps and four for each worker, and none ends before it has returned |
| `ThreadPool.SleepsUntilWokenThroughout` | `cpp/threadpool_new/main.cpp:29-56` | Called with all workers asleep, nobody moves before notify_all and nobody sleeps after it |
| `ThreadPool.SomeoneGoesToSleep` | `cpp/threadpool_new/main.cpp:47-62` | While the pool is active and nobody posts, any worker that is up can be scheduled until one has found the queue empty and is about to sleep |
| `ThreadPool.SleepMissesWakeup` | `cpp/threadpool_new/main.cpp:31-54` | From there the notification can be missed and the destructor hang |
| `ThreadPool.ShutdownStep` | `cpp/threadpool_new/main.cpp:29-56` | In that case nobody sleeps again and every step brings the end nearer |
| `ThreadPool.ShutdownProgress` | `cpp/threadpool_new/main.cpp:29-56` | ... and some step is possible until the destructor returns |
| `ThreadPool.ShutdownBounded` | `cpp/threadpool_new/main.cpp:29-56` | ... so it returns within a bounded number of steps |
| `ThreadPool.LostWakeup` | `cpp/threadpool_new/main.cpp:31-54` | Otherwise that worker can go to sleep just after the notification it missed |
| `ThreadPool.HangsForever` | `cpp/threadpool_new/main.cpp:31-54` | ... and then nothing but a spurious wake-up lets the destructor return |
| `ThreadPool.LostWakeupReachable` | `cpp/threadpool_new/main.cpp:31-54` | Such a moment is reachable with a single worker |
| `ThreadPool.Pool.constructor` | `cpp/threadpool_new/main.cpp:22-28` | Workers about to test is_active, nothing queued |
| `ThreadPool.Pool.Post` | `cpp/threadpool_new/main.cpp:39-44` | The job joins the back of the queue, one sleeping worker is woken if any, and the promise it will fulfil is new |
| `ThreadPool.Pool.Run` | `cpp/threadpool_new/main.cpp:47-62` | One test, critical section or job of a worker is the step of the model and keeps the invariant; after a promised job its promise holds the result of its function |
| `ThreadPool.Pool.Deactivate` | `cpp/threadpool_new/main.cpp:31` | is_active is cleared without the mutex, keeping the invariant |
| `ThreadPool.Pool.NotifyAll` | `cpp/threadpool_new/main.cpp:32` | Everyone asleep is woken, keeping the invariant |
| `Crc32.CalculateCrc32` | `cpp/multicast/packet.h:100-108` | On every byte string and seed the table-driven loop computes the checksum of bit-by-bit reflected division: with every bit of seed and result complemented, it is the register after feeding the message bits |
| `Crc32.TableEntry` | `cpp/multicast/packet.h:71-98` | Each of the 256 entries is eight division steps of its index |
| `Crc32.ByteStep` | `cpp/multicast/packet.h:105` | One look-up and shift feeds the eight bits of a byte, lowest first |
| `Crc32.Chaining` | `cpp/multicast/packet.h:100-108` | The checksum of one piece as the seed for the next gives the checksum of the concatenation |
| `Crc32.FourBytesDetected` | `cpp/multicast/packet.h:100-108` | Messages of equal length that differ only inside four consecutive bytes have equal checksums only if they are equal |
| `Crc32.BurstDetected` | `cpp/multicast/packet.h:100-108` | The same for any 32 consecutive bits, aligned to bytes or not |
| `Crc32.LongerBurstMissed` | `cpp/multicast/packet.h:100-108` | The bound is tight: any burst of 33 bits in the shape of the generator, wherever it falls in whatever message, goes unnoticed for every seed |
| `Crc32.SameChecksumIff` | `cpp/multicast/packet.h:100-108` | Two messages of equal length have equal checksums exactly when the generator divides the polynomial of their difference |
| `Crc32.NoRemainderIff` | `cpp/multicast/packet.h:71-98` | A remainder is zero exactly when the polynomial is a sum of shifted generators |
| `Crc32.QuotientOf` | `cpp/multicast/packet.h:71-98` | Long division finds the quotient of a polynomial without a remainder |
| `Crc32.FiveBytesMissed` | `cpp/multicast/packet.h:100-108` | An instance in five bytes |
| `Crc32.FeedInjective` | `cpp/multicast/packet.h:105` | The register after a stretch of message determines the register before it |
| `Crc32.FeedIsWord` | `cpp/multicast/packet.h:105` | Up to 32 bits act as one word added to the register, followed by as many zero bits |
| `Crc32.FrameCheckSequence` | `cpp/multicast/packet.h:100-108` | With seed 0 every bit of the checksum differs from that of the sum of two polynomial remainders, as ITU-T V.42 defines it |
| `Crc32.SeededSequence` | `cpp/multicast/packet.h:100-108` | The same for every seed, with any polynomial whose remainder is the complemented seed in place of the ones |
| `Crc32.ChecksumIff` | `cpp/multicast/packet.h:100-108` | A 32-bit value is the checksum of a message for a seed exactly when its ones complement, as a polynomial, differs from x^32 times the message plus x^k times the complemented seed by a sum of shifted generators: no register, table or division is mentioned |
| `Crc32.RemainderOfCoefficients` | `cpp/multicast/packet.h:100-108` | A register is the remainder of the polynomial whose coefficients are its bits |
| `Crc32.FeedFromZero` | `cpp/multicast/packet.h:100-108` | Feeding a message to a zero register multiplies its polynomial by x^32 and takes the remainder |
| `Crc32.GeneratorMultiple` | `cpp/multicast/packet.h:71-98` | Multiples of the generator by powers of x have remainder 0 |
| `Crc32.RemainderLinear` | `cpp/multicast/packet.h:71-98` | Remainders add |
| `Crc32.SmallRemainders` | `cpp/multicast/packet.h:71-98` | Below degree 32, polynomials with equal remainders are equal |
| `AssignLoop.Kernel.SliceVectorizedLoop` | `cpp/frame/thirdparty/eigen/Eigen/src/Core/AssignEvaluator.h:539-580` | For every size, stride, address and packet size it applies the functor once to each coefficient, like the default loop; every packet it stores goes to a multiple of the requested alignment when the destination is alignable, and of the promised one otherwise. Each row gets at most one packet less than fits, exactly as many as fit when the destination is not alignable, and none only in the fallback for an address not aligned to a scalar |
| `AssignLoop.Kernel.DefaultLoop` | `cpp/frame/thirdparty/eigen/Eigen/src/Core/AssignEvaluator.h:343-350` | The plain double loop applies the functor exactly once to each coefficient, of vectors and of matrices of either storage order |
| `AssignLoop.Kernel.LinearVectorizedLoop` | `cpp/frame/thirdparty/eigen/Eigen/src/Core/AssignEvaluator.h:418-440` | The same result from coefficients before the first aligned position, packets, and coefficients after the last whole packet. When the store mode asserts alignment, all stores are aligned exactly when packets need more than a scalar's alignment, the address is aligned, or no packet fits. As many packets as fit are stored, or at most one less when the start has to be aligned, and none when it cannot be |
| `AssignLoop.Kernel.LinearPackets` | `cpp/frame/thirdparty/eigen/Eigen/src/Core/AssignEvaluator.h:436-437` | The packets follow each other without gaps or overlap: the k-th goes to the address of position start + k packetSize |
| `AssignLoop.Kernel.LinearStart` | `cpp/frame/thirdparty/eigen/Eigen/src/Core/AssignEvaluator.h:431` | Where the packets start, and when that position is aligned |
| `AssignLoop.Kernel.InnerVectorizedLoop` | `cpp/frame/thirdparty/eigen/Eigen/src/Core/AssignEvaluator.h:472-480` | The same result from whole packets only, as many as fit; all stores are aligned as the store mode asserts |
| `AssignLoop.Kernel.SliceRow` | `cpp/frame/thirdparty/eigen/Eigen/src/Core/AssignEvaluator.h:563-576` | One row: coefficients, packets, coefficients, covering it exactly once; as many packets as fit behind the start, all stored aligned |
| `AssignLoop.Kernel.NextRowAligned` | `cpp/frame/thirdparty/eigen/Eigen/src/Core/AssignEvaluator.h:560-578` | The start recomputed modulo the packet size and capped at the row length is aligned in the next row, unless no packet fits in a row |
| `AssignLoop.Kernel.SliceStart` | `cpp/frame/thirdparty/eigen/Eigen/src/Core/AssignEvaluator.h:543-561` | The first row starts aligned and less than a packet late, and packets keep the alignment |
| `AssignLoop.Kernel.StartCosts` | `cpp/frame/thirdparty/eigen/Eigen/src/Core/AssignEvaluator.h:565` | Starting less than a packet late costs at most one packet |
| `AssignLoop.Kernel.AssignCoeff` | `cpp/frame/thirdparty/eigen/Eigen/src/Core/AssignEvaluator.h:664-669` | One more coefficient in the order of the loops is assigned, no other changes |
| `AssignLoop.Kernel.AssignPacket` | `cpp/frame/thirdparty/eigen/Eigen/src/Core/AssignEvaluator.h:685-690` | packetSize more coefficients are assigned, no other changes, and the address of the store is recorded |
| `AssignLoop.Kernel.AssignIndex` | `cpp/frame/thirdparty/eigen/Eigen/src/Core/AssignEvaluator.h:658-661` | The same by flat index |
| `AssignLoop.Kernel.AssignPacketIndex` | `cpp/frame/thirdparty/eigen/Eigen/src/Core/AssignEvaluator.h:679-682` | The same for a packet by flat index |
| `AssignLoop.Kernel.OuterInner` | `cpp/frame/thirdparty/eigen/Eigen/src/Core/AssignEvaluator.h:692-708` | Outer and inner indices number the coefficients one to one, for row vectors, column vectors and both storage orders |
| `AssignLoop.StepUndoesStride` | `cpp/frame/thirdparty/eigen/Eigen/src/Core/AssignEvaluator.h:560` | alignedStep plus the outer stride is a multiple of the packet size, for strides of either sign and the truncating remainder |
| `AssignLoop.AndMask` | `cpp/frame/thirdparty/eigen/Eigen/src/Core/AssignEvaluator.h:557-560` | Masking with a power of two less one is the remainder |
| `AssignLoop.AndNotMask` | `cpp/frame/thirdparty/eigen/Eigen/src/Core/AssignEvaluator.h:565` | Masking it out rounds down to a multiple |
| `AssignLoop.FirstAlignedWorks` | `cpp/frame/thirdparty/eigen/Eigen/src/Core/util/Memory.h:469-492` | With an address aligned to a scalar the result is an aligned position less than one alignment from the start, and so the first, or the size when the array is shorter than the alignment |
| `AssignLoop.NeverAligned` | `cpp/frame/thirdparty/eigen/Eigen/src/Core/util/Memory.h:481-486` | An array not aligned to a scalar gets its size back: no element is aligned |
| `AssignLoop.AllAligned` | `cpp/frame/thirdparty/eigen/Eigen/src/Core/util/Memory.h:475-480` | An alignment of at most a scalar gives position 0 |
| `Evaluators.FlatIsCoeff` | `cpp/frame/thirdparty/eigen/Eigen/src/Core/CoreEvaluators.h:201-1639` | For every expression tree whose computed flags carry LinearAccessBit, coeff(index) is coeff(row, col) at the position the index denotes under the tree's own storage order |
| `Evaluators.FlatIsSlices` | `cpp/frame/thirdparty/eigen/Eigen/src/Core/CoreEvaluators.h:201-1639` | ... so flat access, index by index, runs through the rows of the expression, or through its columns, one after another |
| `Evaluators.LinearIffUniform` | `cpp/frame/thirdparty/eigen/Eigen/src/Core/CoreEvaluators.h:738-752` | The flags allow flat access exactly when all leaves below transposes and coefficient-wise operations do and agree on one storage order; diagonals and vector blocks always allow it, replicates and reverses along a vector keep it |
| `Evaluators.VectorsFollowDirection` | `cpp/frame/thirdparty/eigen/Eigen/src/Core/CoreEvaluators.h:1045-1061` | An expression that its type bounds to one row is row-major, to one column column-major |
| `Evaluators.PlainRows` | `cpp/frame/thirdparty/eigen/Eigen/src/Core/CoreEvaluators.h:201-208` | The rows of a plain row-major matrix or vector, or the columns of a column-major one, are its storage in order |
| `Evaluators.TransposeRows` | `cpp/frame/thirdparty/eigen/Eigen/src/Core/CoreEvaluators.h:322-326` | coeff(row, col) of a transpose computes the transposed rows, of any expression |
| `Evaluators.UnaryRows` | `cpp/frame/thirdparty/eigen/Eigen/src/Core/CoreEvaluators.h:580-584` | ... of a unary operation the operation applied to every entry |
| `Evaluators.BinaryRows` | `cpp/frame/thirdparty/eigen/Eigen/src/Core/CoreEvaluators.h:766-770` | ... of a binary operation the operation applied entry by entry, whatever the operands' storage orders |
| `Evaluators.BlockRows` | `cpp/frame/thirdparty/eigen/Eigen/src/Core/CoreEvaluators.h:1120-1124` | ... of a block the slice of the rows and columns of its argument, read through strides or through the argument's evaluator |
| `Evaluators.ReverseRows` | `cpp/frame/thirdparty/eigen/Eigen/src/Core/CoreEvaluators.h:1519-1524` | ... of a reverse the rows in reversed order, each row reversed, or both |
| `Evaluators.ReplicateRows` | `cpp/frame/thirdparty/eigen/Eigen/src/Core/CoreEvaluators.h:1316-1328` | ... of a replicate the copies of its argument's rows, each row copied, whether or not the remainder is skipped |
| `Evaluators.DiagonalRows` | `cpp/frame/thirdparty/eigen/Eigen/src/Core/CoreEvaluators.h:1629-1633` | ... of a diagonal the entries on that diagonal |
| `Evaluators.PlainFlat` | `cpp/frame/thirdparty/eigen/Eigen/src/Core/CoreEvaluators.h:201-214` | The statement for plain matrices and vectors, whose outer stride is 0 when the type is a vector |
| `Evaluators.TransposeFlat` | `cpp/frame/thirdparty/eigen/Eigen/src/Core/CoreEvaluators.h:310-332` | ... for transposes |
| `Evaluators.CwiseFlat` | `cpp/frame/thirdparty/eigen/Eigen/src/Core/CoreEvaluators.h:738-776` | ... for unary and binary coefficient-wise operations, where both operands must agree in storage order |
| `Evaluators.BlockFlat` | `cpp/frame/thirdparty/eigen/Eigen/src/Core/CoreEvaluators.h:1042-1190` | ... for blocks with and without direct access |
| `Evaluators.DirectBlockFlat` | `cpp/frame/thirdparty/eigen/Eigen/src/Core/CoreEvaluators.h:908-918` | ... for blocks with direct access, which walk the inner stride |
| `Evaluators.ForwardedPosition` | `cpp/frame/thirdparty/eigen/Eigen/src/Core/CoreEvaluators.h:1109-1190` | A block that hands flat access on with its linear offset reaches the same coefficient of its argument |
| `Evaluators.ReplicateFlat` | `cpp/frame/thirdparty/eigen/Eigen/src/Core/CoreEvaluators.h:1300-1339` | ... for replicates, which allow flat access for vectors only |
| `Evaluators.ReverseFlat` | `cpp/frame/thirdparty/eigen/Eigen/src/Core/CoreEvaluators.h:1489-1530` | ... for reverses whose flags allow it: counting from the end of the flat order counts from the end in both directions |
| `Evaluators.DiagonalFlat` | `cpp/frame/thirdparty/eigen/Eigen/src/Core/CoreEvaluators.h:1613-1639` | ... for diagonals |
| `Evaluators.LinearHasNoGaps` | `cpp/frame/thirdparty/eigen/Eigen/src/Core/CoreEvaluators.h:1064-1069` | An expression with direct access that allows flat access has no gaps between its outer slices |
| `Evaluators.DirectReadsCoeff` | `cpp/frame/thirdparty/eigen/Eigen/src/Core/CoreEvaluators.h:908-912` | Offset and strides locate every coefficient: reading a block through its argument's storage is reading it through its argument's evaluator |
| `Evaluators.DiagonalStep` | `cpp/frame/thirdparty/eigen/Eigen/src/Core/Diagonal.h:90-96` | The inner stride outerStride() + 1 takes every diagonal one row and one column further in its argument's storage |
| `Evaluators.InnerStrideOne` | `cpp/frame/thirdparty/eigen/Eigen/src/Core/Block.h:391-404` | Where both dimensions exceed one the inner stride is 1 |
| `Evaluators.DimsRight` | `cpp/frame/thirdparty/eigen/Eigen/src/Core/CoreEvaluators.h:1045-1055` | Compile-time dimensions agree with the run-time ones and the compile-time maxima bound them |
| `Evaluators.DiagonalDimRight` | `cpp/frame/thirdparty/eigen/Eigen/src/Core/Diagonal.h:44-54` | The compile-time length of a diagonal is right when the dimensions are, its maximum bounds it, and no diagonal is longer than the main one |

## Left out

- Rounding, NaN, infinities and complex scalars: all factorizations and estimates are over exact reals.
- Upper-triangular variants: only `Lower` is modelled.
- Eigen callees that the core only calls (triangular `solveInPlace`, self-adjoint `rankUpdate`, the transposition
  product, `maxCoeff`, `lpNorm`, `swap`) are modelled by the plain loops they stand for, not by their own kernels.
- RankOne.UpdateInPlace: requires that no d and no pivot of the updated matrix but the last is zero, because with such
  a zero the code goes on with infinities, which `isfinite(alpha)` then tests; exact reals have none.
- LDLTUpdate.Update: the same condition, in terms of the pivots of A and of A + sigma v v'; `rankUpdate` on a
  decomposition not computed yet starts from a zero matrix, which the condition excludes.
- LDLT.Unblocked: what the sign means is stated for the initial value ZeroSign, the one `compute` passes.
- LDLTSolve.Solve: one real right-hand side; the tolerance `numeric_limits::min()` is a parameter.
- ConditionEstimator.Estimate: a solve is multiplication by a fixed matrix, without rounding.
- UpdateMediator: a critical section of `UpdateDevice` is entered in one step; a task that locks a mutex it already holds
  waits for ever, where the standard leaves the behaviour undefined; what the strategy's Update does, exceptions, and
  edits of the graph while `UpdateAll` runs are not modelled.
- UpdateMediator.Mediator.UpdateAll: threads are interleaved by the method itself, which picks any enabled step; two calls
  of it at the same time are not modelled.
- StarveFreeLock: each mutex section is one step; fairness between individual threads is not promised by the program
  and not claimed; unlocking without holding the lock is excluded.
- StarveFreeLock.ReadersDrain: the bound is on reader exits, because only they, not time, free the lock for a writer.
- Semaphores: errors of `sem_wait` and `sem_post`, the creation of the shared segment, a second process attaching to it,
  and the unsynchronised flag `is_running` are not modelled: a thread may leave its loop whenever it tests the flag.
  Fewer than 2^32 threads; the shared `increment` is unbounded.
- ThreadPool: jobs that throw or never return, posting while the destructor runs, and jobs still queued at shutdown,
  which the program drops, are outside the model; a result is an integer, and what a job does besides returning it is not
  modelled.
- Crc32: the rest of `packet.h` (frame structures and macros). The table is written in sixteen rows of sixteen.
- AssignLoop: aliasing of source and destination, the unrolled variants, the plain linear traversal, and the
  compile-time choice between traversals. A packet store is modelled as the coefficient stores it stands for.
- Evaluators: `Map` and `Ref`, nullary and ternary operations, `Select`, products, packet and write access, and the
  temporaries of `nested_eval`. Storage is a total function from offsets; whether a block's stride is 1 at compile
  time is a parameter of the block, as is whether a functor allows packets.
- `cpp/polygon`, sockets, netlink, SCTP, inotify, OpenCV and libarchive programs, tile and frame trigonometry, and the
  language demonstrations: input and output, foreign calls, or easy members.
