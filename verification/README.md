# Verified models of the algorithmic cores

Dafny models, with proofs, of the parts of this repository that hold real
algorithms: the tridiagonal eigen-solvers, the sparse matrices and the kernels
of SVDLIBC (`c/SVDLIBC`), the two's-complement bignum (`c/bignum.c`), the lazy
prime stream (`javascript/infinity.js`) and the commit bookkeeping of the
darcs-to-git exporter (`python/darcs2git.py`). `dafny verify dfyconfig.toml`
checks everything.

Code that rewrites arrays and fields is modelled by methods over arrays and
classes; each is proved equal to, or related to, a value-level specification
about which the theorems are lemmas.

## How the parts fit

**The QL eigen-solvers** (`QLSweep`, `QLSimilarity`, `QLRuns`, `QLOrder`,
`QLTheorems`, `QLRefinement`, `QLChains`, `QLShift`, `QLBlocks`, `QLDeflation`,
`QLPromises`, `Las2`). `QLSweep` is the iteration on values, shared by `imtql2`
and `imtqlb`; `Las2` has the nested in-place loops and proves them equal to it.
Arithmetic is over the reals. The hypotenuse routine is a parameter, and so is
what a division by zero delivers; a theorem that needs the hypotenuse to be exact
says so (`Exact`), the others hold for any routine, so they also cover underflow
recovery. The convergence test is the one in the code; over the reals it holds
just when `e[m]` is zero. The main results:

- a run is a chain of sweeps for one eigenvalue after another, each over a block
  still longer than one row, at most 30 for an eigenvalue that settles and
  exactly 30 for the one that is given up; from one start there is one such run
  (`QLChains.RanVectorsUnique`), and it is what `imtql2` and `imtqlb` make
  (`Las2.Solver.Imtql2`, `Las2.Solver.Imtqlb`);
- every pass of the inner loop is one plane rotation of the whole matrix, bulge
  included (`QLSimilarity.PassIsRotation`);
- every sweep, every completed run and every run given up after 30 sweeps is a
  similarity that keeps the rows' products and the orthonormality of the columns
  (`QLRuns.SweepIsSimilarity`, `QLRuns.SolveIsSimilarity`), and so
  `T == Z T' Z^T` on both exits (`QLTheorems.Imtql2Decomposes`);
- no divisor of a sweep is ever zero, so underflow recovery is never entered
  with an exact hypotenuse;
- `imtqlb` computes exactly the pairs (eigenvalue, entry of one row of `z`) that
  `imtql2` computes, whatever the arithmetic, with the same exit
  (`QLRefinement.ImtqlbRefinesImtql2`).

"Completed" means that the outer loop completed, not that `ierr` is 0.

What the iteration does in exact arithmetic can be told from the input (`QLShift`,
`QLBlocks`, `QLDeflation`). The shift takes off the eigenvalue of the leading 2 by
2 block that is nearer to `d[l]`, and a sweep splits off the first row of its block
exactly when that number is an eigenvalue of the whole block
(`QLDeflation.SweepSplitsIff`). So a block of two is finished in one sweep, a block
of three never is, and a longer block loses at most its first row at a time. Hence
the exact iteration completes exactly when no two neighbouring off-diagonal entries
are nonzero (`QLBlocks.CompletesIff`).

`QLPromises` holds three promises of the comments against the exact iteration.
These are theorems on the iteration over the reals, where the test of
las2.c:1342 and 1492 accepts an exact zero only. In double arithmetic the test
also accepts an entry that rounds away, and that ends the runs meant here: the
inputs below are not inputs on which the compiled program fails. A fact of the
code in any arithmetic is only that giving up at eigenvalue 0 stores 0 in `ierr`
(las2.c:1350, 1501; `Las2.Solver.Imtql2`, `Las2.Solver.Imtqlb`), the value the
comments give to a normal return.

- `z` holds eigenvectors for the eigenvalues up to the promised index
  (las2.c:1456-1459): true of the exact iteration exactly when it completes, since
  column `ierr` is none otherwise (`QLPromises.VectorsAsPromised`).
- `ierr` 0 is a normal return (las2.c:1304, 1460): the exact iteration gives up at
  eigenvalue 0 on every leading block of three, and only when the first and second
  off-diagonal entries are nonzero (`QLPromises.GivenUpAtZero`).
- the eigenvalues up to index `ierr` are correct (las2.c:1300-1302, 1452-1454): in
  exact arithmetic not so for a family of leading blocks of three, neither in
  `imtql2` nor in `imtqlb`; the `d[0]` stored is no eigenvalue of that block
  (`QLPromises.WrongEigenvalue`; `QLPromises.ZerosAndOnes` is a member).

**Rotation by cycles** (`RotateArray`). The routine turns the array in exactly
`size` writes to different slots, in `gcd(size, x)` cycles.

**Sparse matrices** (`SparseValues`, `SparseTranspose`, `SparseDense`,
`SparseProducts`, `Svdlib`, `Svdutil`, `SvdFormats`, `SvdFiles`). A matrix may
store a cell more than once. Its dense form takes the last value stored for a
cell, the product kernels add all of them up; both readings are defined and the
code is proved against the one it uses. Files are streams of number tokens that
are read back exactly. The text and binary variants of a format are written with
the same tokens; that an integer serves as a value too concerns the text readers
only, a binary reader takes the bits of a float. A matrix has at least one row
where the code indexes row 0 or `rows - 1`: the transpose and the dense form.

**Sorting and the hypotenuse** (`ShellSort`, `Pythag`). The stop test of
`svd_pythag`, `4 + r` rounding to 4, is modelled as `r` below a threshold
`delta`, which may be any positive number.

**Bignum** (`BignumValues`, `BignumRows`, `BignumText`, `BignumExact`,
`Bignum`). Words are 16 bits unsigned and `int` is 32 bits two's complement;
storing an unsigned value of 32 bits in an `int` wraps, and so, by
assumption, does the product of two ints at bignum.c:346-347. `contract_bignum` reads
one word below the array when all words are 0 or all are 0xffff (bignum.c:70,
88); that word is the parameter `outside`, and the result does not depend on it.
`mul_bignum` never extends a sign: `BignumExact.ProductExact` says exactly when
its result is the product, `BignumExact.MinusOneTimesOne` is a failing input.

**Primes** (`Primes`, `Infinity`). The search for the next prime has no bound;
its termination is Euclid's theorem. `i <= Math.sqrt(prime)` is modelled as
`i * i <= prime`. The generator a list cell carries is one of two named
alternatives.

**Exporter** (`GitCommits`, `GitHistory`, `DarcsExport`). The stream is a
sequence of events, the two global dictionaries are fields. The order in which
a dictionary yields its keys and the question whether the repository holds a
patch are parameters. `export_pending` indexes an empty list when nothing was
exported (darcs2git.py:749); that outcome is `ok == false`.

Some C routines are split into one method per loop nest.

## Model

| member | source | states |
|---|---|---|
| QLSweep.Split | c/SVDLIBC/las2.c:1487-1495 | the block found from l on is unreduced inside and cut off at its end: no entry of `e` in it is zero, the one after it is, or the matrix ends there |
| QLSimilarity.PassIsRotation | c/SVDLIBC/las2.c:1517-1537 | a pass with nonzero radius turns the matrix with one bulge, represented by the arrays and the scalars s, c, p, g, into its conjugate under one plane rotation, over the whole n by n matrix, and s stays nonzero |
| QLSimilarity.NextCursorRotates | c/SVDLIBC/las2.c:1523-1529 | the scalars of a pass are a unit rotation that maps (f, g) to (r, 0) and the 2 by 2 block to its new diagonal and off-diagonal entries |
| LinearAlgebra.RotationKeepsResidual | c/SVDLIBC/las2.c:1532-1537 | if A Z = Z M then the same holds after Z's rows and M are rotated in one plane |
| LinearAlgebra.RotationKeepsOrthonormal | c/SVDLIBC/las2.c:1532-1537 | rotating all rows keeps the columns orthonormal |
| LinearAlgebra.RotationKeepsRowGram | c/SVDLIBC/las2.c:1532-1537 | rotating all rows keeps every dot product of two rows |
| QLRuns.PassesFrame | c/SVDLIBC/las2.c:1516-1540 | any arithmetic: the passes touch nothing outside l..m and conserve trace minus p, underflow included |
| QLRuns.SweepFrame | c/SVDLIBC/las2.c:1504-1550 | any arithmetic: a sweep cuts its block at m, and keeps the trace and all entries outside the block |
| QLRuns.IterateFrame | c/SVDLIBC/las2.c:1483-1553 | any arithmetic: settled eigenvalues stay, the trace is kept, and e[l] is zero on success and nonzero on giving up |
| QLRuns.SolveFrame | c/SVDLIBC/las2.c:1482-1554 | any arithmetic, every run: trace kept; all of `e` is zero on completion; stopped at l, everything below l is settled and e[l] is not zero |
| QLRuns.PassesRotate | c/SVDLIBC/las2.c:1516-1540 | exact hypotenuse: no pass over an unreduced block underflows, and A Z = Z M and Z's geometry hold between any two passes |
| QLRuns.SweepIsSimilarity | c/SVDLIBC/las2.c:1504-1550 | exact hypotenuse: after every single sweep A Z = Z T still holds, with Z's geometry unchanged, and the underflow branch was not entered |
| QLRuns.SolveIsSimilarity | c/SVDLIBC/las2.c:1482-1554 | exact hypotenuse: the same for every outcome of the whole iteration, the give-up exit included |
| QLRuns.ShiftDivisorsNonzero | c/SVDLIBC/las2.c:1508-1510 | exact hypotenuse: neither divisor of the shift is zero when the block is unreduced |
| QLOrder.OrderSorts | c/SVDLIBC/las2.c:1557-1577 | the ordering stage leaves d ascending |
| QLOrder.OrderPermutes | c/SVDLIBC/las2.c:1557-1577 | it only permutes the pairs (eigenvalue, entry of a row) |
| QLOrder.OrderKeepsEigen | c/SVDLIBC/las2.c:1567-1575 | every column stays an eigenvector for the eigenvalue beside it |
| QLOrder.OrderKeepsGeometry | c/SVDLIBC/las2.c:1567-1575 | rows' products and orthonormality survive the ordering |
| QLTheorems.ResidualIsEigen | c/SVDLIBC/las2.c:1450-1461 | with e zero, A Z = Z T holds exactly when every column is an eigenvector |
| QLTheorems.StoppedColumns | c/SVDLIBC/las2.c:1456-1459 | stopped at l: the columns below l are eigenvectors, and with orthonormal columns column l is no eigenvector for d[l] |
| QLTheorems.Imtql2Delivers | c/SVDLIBC/las2.c:1471-1579 | both exits, any start with A Z = Z T: ascending eigenpairs on completion; on giving up at l the similarity and the first l eigenpairs; geometry and trace kept |
| QLTheorems.Imtql2Decomposes | c/SVDLIBC/las2.c:1471-1579 | from the identity: T = Z T' Z^T on both exits, Z orthonormal by rows and by columns, T' diagonal and ascending on completion |
| QLShift.ShiftIsEigenvalue | c/SVDLIBC/las2.c:1508-1510 | exact hypotenuse: what the shift takes off the diagonal is an eigenvalue of the leading 2 by 2 block, the one nearer to d[l] |
| QLDeflation.NearUnique | c/SVDLIBC/las2.c:1508-1510 | there is at most one eigenvalue of the leading 2 by 2 block nearer to d[l], d[l] - e[l] when both are as near |
| QLDeflation.SolutionIsTail | c/SVDLIBC/las2.c:1516-1540 | a vector that solves the shifted block is its last entry times the one vector that is built up from the last row |
| QLDeflation.PassesCarry | c/SVDLIBC/las2.c:1516-1540 | exact arithmetic: the scalars of the passes are, up to a nonzero factor, the entry of that vector and what its row lacks |
| QLDeflation.SweepSplitsIff | c/SVDLIBC/las2.c:1504-1550 | exact arithmetic, blocks of every length: a sweep leaves e[l] zero exactly when the eigenvalue of the leading 2 by 2 block nearer to d[l] has an eigenvector of the whole block |
| QLShift.PairConverges | c/SVDLIBC/las2.c:1517-1529 | the pass over a block of two leaves an off-diagonal zero |
| QLShift.TripleStays | c/SVDLIBC/las2.c:1516-1549 | exact arithmetic: the sweep of an unreduced block of three leaves its first off-diagonal entry nonzero |
| QLBlocks.SweepTriple | c/SVDLIBC/las2.c:1504-1550 | a sweep of a block of three in closed form: two passes and the six entries they leave |
| QLBlocks.SweepKeepsInside | c/SVDLIBC/las2.c:1516-1550 | exact arithmetic: a sweep leaves every off-diagonal entry inside its block positive but the first, and none outside changed |
| QLBlocks.PairCompletes | c/SVDLIBC/las2.c:1483-1553 | exact arithmetic: a block of two takes exactly one sweep |
| QLBlocks.TripleStops | c/SVDLIBC/las2.c:1483-1553 | exact arithmetic: a block of three never splits and is given up |
| QLBlocks.BlockShrinks | c/SVDLIBC/las2.c:1483-1553 | exact arithmetic: a longer block loses at most its first row, and the rest stays unreduced |
| QLBlocks.CompletesIff | c/SVDLIBC/las2.c:1482-1554 | the iteration in exact arithmetic, every order: it completes exactly when no two neighbouring off-diagonal entries are nonzero |
| QLPromises.VectorsAsPromised | c/SVDLIBC/las2.c:1452-1459 | the iteration in exact arithmetic: the columns up to the promised index are eigenvectors exactly under that condition |
| QLPromises.GivenUpAtZero | c/SVDLIBC/las2.c:1460-1461 | the iteration in exact arithmetic: giving up at eigenvalue 0 needs nonzero first and second off-diagonal entries, and happens for every leading block of three, in any order n |
| QLPromises.EigenvaluePasses | c/SVDLIBC/las2.c:1452-1454 | an eigenvalue of T is one of T' when T Z = Z T' with Z orthonormal |
| QLPromises.FirstIsEigenvalue | c/SVDLIBC/las2.c:1452-1454 | in an unreduced 3 by 3 matrix d[0] is an eigenvalue exactly when it equals d[2] |
| QLPromises.IterateLeads | c/SVDLIBC/las2.c:1483-1553 | exact arithmetic: a leading block of three goes through the same sweeps inside a longer matrix as on its own |
| QLPromises.RisingStops | c/SVDLIBC/las2.c:1483-1553 | exact arithmetic: a leading block of three whose trailing part lies above the shift keeps that through every sweep and is given up with d[0] < d[2] |
| QLPromises.WrongEigenvalue | c/SVDLIBC/las2.c:1300-1304 | exact arithmetic, every order: imtql2 and imtqlb both give such a matrix up at 0 with the same d[0], which is no eigenvalue of the leading block |
| QLPromises.ZerosAndOnes | c/SVDLIBC/las2.c:1300-1304 | a matrix of that kind for the exact iteration; rounding ends its run in double arithmetic |
| QLRefinement.SolveRowwise | c/SVDLIBC/las2.c:1363-1382 | a run on one row of z gives that row of the full run, with the same diagonal and the same exit |
| QLRefinement.Slot | c/SVDLIBC/las2.c:1400-1409 | the insertion point: everything passed over is larger, what is left below is not |
| QLRefinement.InsertedKeeps | c/SVDLIBC/las2.c:1396-1411 | an insertion keeps the settled part ascending, adds exactly the new pair to it and changes nothing above it |
| QLRefinement.SolveBoundsMirrors | c/SVDLIBC/las2.c:1334-1415 | insertion along the way never disturbs later sweeps: imtqlb's state agrees with the unordered run from l on, and below l it holds the same pairs in order |
| QLRefinement.SortedUnique | c/SVDLIBC/las2.c:1300-1302 | two ascending sequences with the same elements are equal |
| QLRefinement.ImtqlbRefinesImtql2 | c/SVDLIBC/las2.c:1315-1417 | any arithmetic: imtqlb and imtql2 stop at the same l or both complete, with the same pairs (d[j], bnd[j]) and (d[j], row of z at j); on completion the diagonals are equal and ascending |
| QLRefinement.ImtqlbConserves | c/SVDLIBC/las2.c:1325-1415 | every run, any arithmetic: the sum of d is conserved; with an exact hypotenuse the squares of bnd still sum to 1 |
| QLChains.IterateSweeps | c/SVDLIBC/las2.c:1483-1553 | any arithmetic: the iteration for one eigenvalue is a chain of states, each the sweep of the one before over a block longer than one row; 31 states when it gives up, at most 31 when it settles |
| QLChains.SolveRun | c/SVDLIBC/las2.c:1482-1554 | the outer loop makes such chains for one eigenvalue after another, each begun where the last one ended; all settle but the one that is given up |
| QLChains.SolveBoundsRun | c/SVDLIBC/las2.c:1334-1415 | the same for imtqlb, with every settled eigenvalue put in its place before the next chain begins |
| QLChains.RanVectorsUnique | c/SVDLIBC/las2.c:1471-1579 | from one start there is one run of imtql2: one result and one ierr |
| QLChains.RanBoundsUnique | c/SVDLIBC/las2.c:1315-1417 | the same for imtqlb |
| Las2.RotateRowsOf | c/SVDLIBC/las2.c:1532-1537 | the loop over the flat array rotates every row of z, and only columns i and i+1 |
| Las2.FindSplit | c/SVDLIBC/las2.c:1487-1495 | finds the end of the block |
| Las2.PassVectors | c/SVDLIBC/las2.c:1517-1539 | the loop body rewrites d, e, z and the scalars as the pass on values does; on a zero radius only e[i+1] |
| Las2.Recover | c/SVDLIBC/las2.c:1541-1550 | both endings of a sweep, entry by entry: p taken off where the passes stopped, the block cut at m, and e[l] set unless an underflow came |
| Las2.SweepVectors | c/SVDLIBC/las2.c:1504-1550 | a whole sweep in place is the sweep on values |
| Las2.SwapColumnsOf | c/SVDLIBC/las2.c:1571-1575 | exchanges two columns of the flat array and nothing else |
| Las2.FindLeast | c/SVDLIBC/las2.c:1558-1566 | the least remaining eigenvalue, the first of several equal ones |
| Las2.OrderVectors | c/SVDLIBC/las2.c:1557-1577 | the ordering stage in place |
| Las2.Solver.IterateVectors | c/SVDLIBC/las2.c:1483-1553 | a chain of sweeps for eigenvalue l: exactly 30 of blocks that stay longer than one row when it gives up, at most 30 that settle it otherwise; ierr is written only on giving up |
| Las2.Solver.SolveVectors | c/SVDLIBC/las2.c:1482-1554 | the outer loop in place is the iteration on values, with its exit, and a run of such chains; stopped, ierr is the number of eigenvalues settled before |
| Las2.Solver.Imtql2 | c/SVDLIBC/las2.c:1471-1579 | final d, e, z and ierr for every n, every input and both exits, in arrays of any sufficient length, the rest of which is untouched; they are those of the one run of chains of sweeps from the start, ordered when it completes; order 1 returns with nothing changed |
| Las2.PassBounds | c/SVDLIBC/las2.c:1364-1381 | the loop body of imtqlb rewrites d, e, bnd and the scalars as the pass on values does |
| Las2.SweepBounds | c/SVDLIBC/las2.c:1354-1392 | a whole sweep of imtqlb |
| Las2.InsertBounds | c/SVDLIBC/las2.c:1396-1411 | the shifting loop moves eigenvalue l and its bound to their place |
| Las2.PrepareBounds | c/SVDLIBC/las2.c:1327-1333 | bnd is the first unit vector, the subdiagonal is moved down by one |
| Las2.Solver.IterateBounds | c/SVDLIBC/las2.c:1335-1414 | such a chain of sweeps, 30 when it gives up, then the insertion when it settled |
| Las2.Solver.Imtqlb | c/SVDLIBC/las2.c:1315-1417 | final d, e, bnd and ierr for every n, every input and both exits, in arrays of any sufficient length, the rest of which is untouched; they are those of the one run of chains of sweeps from the start, every settled eigenvalue put in its place |
| RotateArray.Step | c/SVDLIBC/las2.c:539-548 | the next slot is unwritten, inside a cycle and at its close, where the finished cycles become one more |
| RotateArray.Covers | c/SVDLIBC/las2.c:545-548 | whole cycles that hold the next start already hold every slot |
| RotateArray.NextStartIsFresh | c/SVDLIBC/las2.c:545-548 | while slots are missing, the next start is one of them |
| RotateArray.CyclesAreGcd | c/SVDLIBC/las2.c:545-548 | the starts that cover all slots number gcd(size, x) |
| RotateArray.TurnedAt | c/SVDLIBC/las2.c:533-550 | entry k of the turned array is entry (k + x) mod size of the old one |
| RotateArray.RotateSlot | c/SVDLIBC/las2.c:539-548 | one step keeps the invariant of the whole rotation: all slots written so far are different and final, the cycles before the start are whole |
| RotateArray.RotateArray | c/SVDLIBC/las2.c:533-550 | the array is turned left by x, in exactly size writes to different slots, in gcd(size, x) cycles |
| SparseValues.CellBothWays | c/SVDLIBC/svdlib.c:140-161 | the values of a cell are the same, in the same order, read along its row and along its column |
| SparseValues.TransposeCells | c/SVDLIBC/svdlib.c:140-161 | cell (r, c) of a matrix and cell (c, r) of its transpose hold the same values in the same order |
| SparseValues.StableSortUnique | c/SVDLIBC/svdlib.c:151-159 | a list sorted by key is determined by the values under every key, in order |
| SparseValues.TransposeTwice | c/SVDLIBC/svdlib.c:140-161 | transposing twice is the stable sort of every column by row |
| SparseTranspose.ShiftStep | c/SVDLIBC/svdlib.c:147-149 | a step of the second phase turns counts into the starting points of the previous rows |
| SparseTranspose.FillStep | c/SVDLIBC/svdlib.c:151-159 | the slot taken from the cursor is in range, belongs to the entry's row, and nothing placed before is overwritten |
| SparseTranspose.FilledIsTranspose | c/SVDLIBC/svdlib.c:151-160 | the filled arrays are a well-formed transpose |
| Svdlib.SMat.constructor | c/SVDLIBC/svdlib.c:45-58 | cleared pointers, room for the entries |
| Svdlib.TransposeS | c/SVDLIBC/svdlib.c:140-161 | the result is well formed and its columns are the rows of S in storage order; S is unchanged |
| Svdlib.TransposeD | c/SVDLIBC/svdlib.c:130-137 | the dense transpose |
| SparseDense.DenseTranspose | c/SVDLIBC/svdlib.c:89-161 | dense form and transpose commute, duplicates of a cell included |
| SparseDense.DenseIsLast | c/SVDLIBC/svdlib.c:96-99 | a cell of the dense form is the value at the last place stored for it, 0 if there is no such place |
| Svdlib.ConvertStoD | c/SVDLIBC/svdlib.c:89-101 | every cell gets the last value stored for it, 0 if there is none |
| Svdlib.CountNonzero | c/SVDLIBC/svdlib.c:107-109 | the number of nonzero cells |
| SparseDense.CountsAgree | c/SVDLIBC/svdlib.c:107-124 | counting by rows and filling by columns see the same number of cells |
| Svdlib.FillColumn | c/SVDLIBC/svdlib.c:117-123 | the nonzero cells of one column are appended in order and fit |
| Svdlib.ConvertDtoS | c/SVDLIBC/svdlib.c:104-127 | each column of the result lists exactly the nonzero cells, top down |
| SparseDense.DenseRoundTrip | c/SVDLIBC/svdlib.c:88-127 | dense to sparse to dense is the identity |
| SparseDense.SparseRoundTrip | c/SVDLIBC/svdlib.c:88-127 | sparse to dense to sparse sorts a column by row, and keeps its values exactly when no cell is stored twice and no zero is stored |
| SparseDense.StoredTwice | c/SVDLIBC/svdlib.c:96-99 | a matrix whose column does not survive that round trip |
| SparseProducts.RowIsDense | c/SVDLIBC/svdutil.c:512-516 | a row of the stored entries against x is the dense row against x, duplicates added up |
| SparseProducts.OpbIsTwoProducts | c/SVDLIBC/svdutil.c:476-499 | B x is the program's transpose of A applied to A x |
| SparseProducts.OpbAdjoint | c/SVDLIBC/svdutil.c:476-519 | the dot product of z and B x is that of A z and A x |
| SparseProducts.OpbSymmetric | c/SVDLIBC/svdutil.c:471-475 | B is symmetric, and x against B x, whose root is taken for a singular value, is never negative |
| Svdutil.SvdOpa | c/SVDLIBC/svdutil.c:505-519 | the scatter loop computes A x |
| Svdutil.SvdOpb | c/SVDLIBC/svdutil.c:476-499 | the two loops compute A x in temp and B x in y |
| SvdFormats.HeldIsRead | c/SVDLIBC/svdlib.c:293-329 | a file that holds s is accepted and nothing but s can be read from it, whatever follows |
| SvdFormats.ReadIsHeld | c/SVDLIBC/svdlib.c:293-329 | what is read from an accepted file with sound lengths and rows in range is what the file holds |
| SvdFormats.SparseRespelled | c/SVDLIBC/svdlib.c:311 | a whole number in the place of a stored value may be spelled with or without a fraction: the file is accepted alike and the same matrix is read |
| SvdFormats.DenseThroughSparse | c/SVDLIBC/svdlib.c:478-569 | a dense matrix saved in the sparse format comes back unchanged as a dense one |
| SvdFormats.HeldIsReadHB | c/SVDLIBC/svdlib.c:215-290 | the same round trip for the Harwell-Boeing format, counted from one, whatever follows |
| SvdFormats.HBRespelled | c/SVDLIBC/svdlib.c:258-262 | the same for any of the values of a Harwell-Boeing file |
| SvdFormats.HeldIsReadDense | c/SVDLIBC/svdlib.c:383-410 | the same round trip for the dense format |
| SvdFormats.DenseRespelled | c/SVDLIBC/svdlib.c:394-400 | the same for any of the cells of a dense file |
| SvdFormats.SparseThroughDense | c/SVDLIBC/svdlib.c:448-537 | a sparse matrix saved in a dense format comes back with its columns sorted, and with its values exactly when they are nonzero and distinct by cell |
| SvdFiles.WriteSparse | c/SVDLIBC/svdlib.c:321-329 | the file holds the matrix, token by token: three sizes, then for each column its length and the row and value of each entry |
| SvdFiles.LoadSparse | c/SVDLIBC/svdlib.c:293-319 | the files accepted, exactly those that some matrix is stored in, and what is stored for each: pointers, rows and values, a value being the number in its place whether spelled as an integer or as a real |
| SvdFiles.LoadColumn | c/SVDLIBC/svdlib.c:304-316 | one column is read, its values from either spelling, or refused exactly when a token is missing, of the wrong kind, or too many |
| SvdFiles.WriteSparseHB | c/SVDLIBC/svdlib.c:266-290 | the whole body token by token: pointers and rows one above what is stored, then the values |
| SvdFiles.LoadSparseHB | c/SVDLIBC/svdlib.c:215-264 | the files accepted, exactly those that some matrix is stored in, elemental matrices refused, and what is stored: pointers and rows one below the numbers in the file, values from either spelling |
| SvdFiles.WriteDense | c/SVDLIBC/svdlib.c:404-410 | two sizes, and cell (i, j) at token 2 + i * cols + j |
| SvdFiles.LoadDense | c/SVDLIBC/svdlib.c:383-402 | the files accepted, exactly, and the matrix read: cell (i, j) is the number at token 2 + i * cols + j, in either spelling |
| SvdFiles.WriteAsDense | c/SVDLIBC/svdlib.c:525-532 | a sparse matrix is written as its dense form |
| SvdFiles.WriteAsSparse | c/SVDLIBC/svdlib.c:551-558 | a dense matrix is written as the sparse form of its nonzero cells |
| SvdFiles.LoadAsSparse | c/SVDLIBC/svdlib.c:462-474 | a dense file is loaded as the nonzero cells of what it holds; its dense form has the number at each place, in either spelling |
| ShellSort.GapPass | c/SVDLIBC/svdutil.c:395-408 | one gap on the first n entries: the first array is sorted at that distance there, the pairs are permuted together, the rest is untouched |
| ShellSort.SvdDsort2 | c/SVDLIBC/svdutil.c:389-411 | terminates; the first n entries are ascending whenever the first gap is at least 1; their pairs are permuted together and the rest is untouched; gap 0 changes nothing |
| Pythag.PassKeeps | c/SVDLIBC/svdutil.c:613-618 | a pass keeps p^2 (1 + r), does not lower p, and takes r to at most r^3 / 16 |
| Pythag.SvdPythag | c/SVDLIBC/svdutil.c:604-622 | terminates for every threshold delta, with p^2 <= a^2 + b^2 <= p^2 (1 + delta) |
| BignumValues.SignExtension | c/bignum.c:56-97 | a top word that repeats the sign leaves the value alone |
| BignumValues.Contracted | c/bignum.c:56-97 | the words kept are canonical and have the same signed value, in the all-zero and all-ones cases too |
| BignumValues.CanonicalUnique | c/bignum.c:56-97 | canonical forms with the same value are the same words |
| Bignum.Big.Contract | c/bignum.c:56-97 | canonical afterwards, value kept, never longer, whatever word lies outside |
| BignumRows.NegatedSigned | c/bignum.c:143-150 | inverting and adding one negates a nonnegative number |
| BignumRows.NegatedMagnitude | c/bignum.c:157-166 | and turns a negative number into its magnitude, read without a sign, the least number included |
| Bignum.Big.Negate | c/bignum.c:144-149 | the loop inverts and ripples the carry through all words |
| Bignum.Big.Completion | c/bignum.c:157-176 | the magnitude of a negative number without leading zero words |
| BignumText.WordsNeedDigits | c/bignum.c:106-140 | a number of k digits never reaches word k/4 + 1 or beyond: the room allocated suffices |
| BignumText.NumeralInText | c/bignum.c:118-140 | zeros, the decimal numeral of n made of the characters 0123456789, and any text that does not go on with a digit, read as n |
| BignumText.DecimalSpells | c/bignum.c:113-155 | every string: the number read from it is v exactly when it is a numeral of v, with its sign, zeros in front and other text behind, or has no digit and v is 0 |
| BignumRows.TimesTenValue | c/bignum.c:129-133 | the carry loop computes ten times the number plus the digit |
| Bignum.AddDigit | c/bignum.c:126-139 | one digit: the number times ten plus c, one word longer exactly when a carry is left |
| Bignum.ParseDigits | c/bignum.c:118-140 | all digits up to the first other character, as the number whose decimal numeral they are; the top word stays zero, so no index leaves the array and the sign bit is clear |
| Bignum.Parse | c/bignum.c:99-155 | every string: exactly the signed number whose numeral it is, in canonical form |
| BignumRows.WordStep | c/bignum.c:326-329 | the masked and shifted int holds the two words of the unsigned sum although it may have wrapped |
| BignumRows.RowAdds | c/bignum.c:325-338 | one row adds big times the word, at its place, to the running sum |
| BignumRows.AddMulValue | c/bignum.c:325-334 | the words of one row stand for acc + m * big + carry |
| Bignum.MulRow | c/bignum.c:325-334 | the carries of a row fit 16 bits and the words are those of acc + m * big |
| Bignum.AddRow | c/bignum.c:325-338 | the late carry goes into a word that is zero, so nothing is lost |
| Bignum.MultiplyWords | c/bignum.c:304-353 | any lengths: the product of the words read without a sign |
| Bignum.Multiply | c/bignum.c:304-358 | canonical, with the value of the unsigned product read as signed |
| BignumExact.ProductExact | c/bignum.c:304-358 | that is the product of the signed numbers exactly when both are nonnegative, one is zero, or both are the least number of their length |
| BignumExact.MinusOneTimesOne | c/bignum.c:304-358 | an input whose product is wrong |
| BignumText.HexReads | c/bignum.c:208 | a numeral reads back as its number and has no leading zero |
| BignumText.HexIsHex | c/bignum.c:208 | place k from the right of the numeral of v is the character of 0123456789abcdef at v / 16^k mod 16, and the numeral is no longer than need be |
| BignumText.HexLineIs | c/bignum.c:178-211 | a line is the one for v exactly when it is a minus sign for negative v, the digits of the magnitude place by place, and a newline |
| BignumText.HexAppendWord | c/bignum.c:197-208 | a word below the top one appends exactly four digits |
| BignumText.PaddedIsHexWord | c/bignum.c:198-208 | the three padding tests and %x make those four digits |
| Bignum.Big.PrintWords | c/bignum.c:196-209 | the loop writes the hexadecimal numeral of the words, the right digit at every place |
| Bignum.Big.Print | c/bignum.c:178-211 | for every canonical number: minus sign, hexadecimal numeral of the magnitude, the right digit at every place, newline; a negative number is left as its magnitude, any other unchanged |
| BignumText.HexLineInjective | c/bignum.c:178-211 | different numbers are printed differently |
| BignumExact.LeastOfItsLength | c/bignum.c:304-358 | a canonical number that is the least of some length is the least of its own |
| Bignum.Run | c/bignum.c:360-379 | whatever numbers the two arguments spell, the printed line is that of their product, digit by digit, exactly when both are nonnegative, one is zero or both are least of a length; in any case it is the line of the product mul_bignum makes of their words |
| Primes.Euclid | javascript/infinity.js:3-15 | there is a prime above every number |
| Primes.TrialDivision | javascript/infinity.js:7-12 | no divisor up to the square root means prime |
| Infinity.SearchPrime | javascript/infinity.js:3-15 | the unbounded search ends, at the next prime |
| Infinity.Next | javascript/infinity.js:17-19 | the following element, by the list's own generator |
| Infinity.Pos | javascript/infinity.js:21-26 | the element at an index |
| Infinity.Take | javascript/infinity.js:28-35 | the first n elements, agreeing with pos at every index |
| Infinity.Naturals | javascript/infinity.js:1 | the stream nat counts from one |
| Infinity.PrimesAscend | javascript/infinity.js:3-15 | the stream is strictly ascending |
| Infinity.PrimesComplete | javascript/infinity.js:3-15 | every element is prime, and every prime up to it came no later |
| Infinity.PrimeStream | javascript/infinity.js:3-15 | a number is prime exactly when it is in the stream |
| GitCommits.GitCommit.constructor | python/darcs2git.py:641-648 | depth is the distance to the root |
| GitCommits.CommonStep | python/darcs2git.py:659-673 | stepping up from the deeper side, or from both sides of a level where they differ, loses no common ancestor |
| GitCommits.CommonAncestor | python/darcs2git.py:659-675 | the deepest commit that is above or equal to both; None exactly when the roots differ |
| GitHistory.KeptByCommit | python/darcs2git.py:710-726 | a commit on given-up heads keeps every exported commit below some head, refers only to marks emitted before, and has a mark of its own |
| GitHistory.EdgesByCommit | python/darcs2git.py:720-724 | a commit of a patch not exported before has edges to its parents and to nothing else, and changes no other edge |
| GitHistory.KeptByReference | python/darcs2git.py:735-737 | a reset or a tie keeps all of that |
| GitHistory.HeadsOnMaster | python/darcs2git.py:734-759 | the last event puts every head on master |
| DarcsExport.Exporter.constructor | python/darcs2git.py:694-732 | the empty stream satisfies the invariant |
| DarcsExport.Exporter.TakeMergers | python/darcs2git.py:710-714 | exactly the heads the repository holds are taken off, in dictionary order |
| DarcsExport.MergersInOrder | python/darcs2git.py:709-724 | the heads held are the parents, one each, in the order the dictionary yields them: the first is the from line |
| DarcsExport.OnLast | python/darcs2git.py:715-721 | a commit that was put on no head has the exported last patch below it |
| DarcsExport.Exporter.ExportCommit | python/darcs2git.py:694-732 | over the stream: the new commit has mark number + 1 and an edge to a patch exactly when that was a head the repository holds, or no head was held and it is the exported last patch, which is then reachable; the invariant of every run: all exported commits hang below pending heads, all references point back and every mark is one commit's; plus the new heads and the commit object's parent |
| DarcsExport.Exporter.ExportPending | python/darcs2git.py:734-759 | one head: master is set to the mark of its commit; several: the branch numbered n is set to the mark of n's own commit for each of them, then one commit ties all of them together; every exported commit is reachable from master; fails exactly when nothing was exported |

## Left out

- The Lanczos driver of las2.c (`lanso`, `lanczos_step`, `purge`, `ortbnd`, `startv`, `ritvec`), `error_bound`, `machar` and `svd_random2`: they are about rounding and word size.
- Rounding in the eigen-solvers: arithmetic is over the reals; what holds for any hypotenuse routine and any division by zero is stated that way.
- How fast the QL iteration converges with rounding: giving up after 30 sweeps is an outcome like any other.
- Las2.Solver.Imtqlb: one call passes pointers into the middle of its arrays (las2.c:736); here an array starts at index 0 and may be longer than what is used.
- The convergence test over the reals asks for an exact zero. What that means for completion is proved; how rounding ends other runs is not.
- `add_bignum` and `sub_bignum`: easier carry loops.
- `print_heximage_bignum`, allocation failure and `free_bignum`.
- Bignum.Big.Print: says what is printed for canonical numbers, which are all that main prints; other numbers would be printed with leading zeros.
- File handles, pipes, byte order, the digits %g drops, the narrowing to float of the binary formats and the two title lines of a Harwell-Boeing file: files are token streams and a value is one exact token.
- SvdFiles.LoadSparse: a reader that would write beyond its arrays, or be asked for sizes below zero, is one outcome with an error return. A numeral with a fraction in an integer's place is refused; fscanf would take its integer part.
- SvdFiles.LoadDense: a file without rows counts as not accepted; `svdNewDMat` needs one.
- `map` and the Fibonacci stream of infinity.js: `map` mutates the node it captured, so a mapped list cannot be used twice; the other adds an easy property.
- Infinity.SearchPrime: JavaScript numbers are taken as exact integers.
- DarcsExport.Exporter.ExportCommit: authors, dates, messages and trees of the stream are not modelled, and a patch is exported once.
- The rest of darcs2git.py: running darcs and git, inventories, XML, tags, checkpoints.
- The other directories: demos, user interfaces, vendored JavaScript libraries, and small list and sort templates with only easy properties. The Sudoku solver in Ruby cannot run as written.
