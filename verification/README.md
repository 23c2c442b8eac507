# CRSCE reconstruction: verified model

CRSCE stores the line sums and the CRC-32 values of an S x S bit matrix and rebuilds the matrix by constraint
solving. This project models the solvers that the repository's Python tools write out, and the line geometry they
work on, in Dafny, and proves what they keep, what they deduce and when they are right. The side of the matrix, the
lines and the number of equations are parameters.

A *line* is a list of distinct cells with an integer target. `rho` of a line is its target minus its fixed ones, `u`
its number of free cells. A *solution* meets every target; a *full solution* meets the stored check values too.

The main results:

* **Fixpoint** (`Fixpoint`, `JointStates`, `Blocks`, `AlgebraicRun`): linear elimination, integer propagation, cross
  deduction and substitution over one mutable state keep three views of the same facts in step over whole runs; what
  they fix holds in every solution, the state after any number of iterations is the one of as many rounds on the
  original equations and lines, and a run that has converged ends in the one least state that both leave alone.
  Resolving single rows in between leads to the same end.
* **Linear algebra** (`Gf2`, `Elimination`, `SolutionSpace`, `NullSpace`, `NullWeights`, `Crc32`, `CrcLaws`):
  elimination in place keeps the solution set, determined cells are exactly the constant ones, the null-space basis is
  a basis, the cheap weights are the true ones, and CRC-32 is affine, so that 32 equations say exactly that the CRC
  matches; its table step is eight shifts, it tells apart what differs within 32 bits, and its residue is constant.
* **Confluence** (`Lines`, `Propagation`, `Cascades`, `Deduction`): the line worklist, the cell queue and the repeated
  sweep all end in the one least stable extension; cross deduction and interval tightening add nothing after it.
* **Search** (`Enumeration`, `Candidates`, `Completion`, `Search`, `UncheckedRows`, `Sequential`, `RunSolvers`,
  `RowResolve`, `SingletonStates`, `Sac`, `ArcConsistency`, `DomainRun`): candidate lists are exact, or exact under a
  stated condition; cross filtering computes the largest arc-consistent narrowing of domains that hold every full
  solution; probes and failed branches roll back exactly; failures and contradictions mean what they say, a search that
  gives up names a state it can reach in which every row tried is too hard, and where rows are short a search with time
  left succeeds.
* **Indexes in place** (`LtpTables`, `FisherYates`, `HillClimb`, `ClimbRounds`): the shuffle yields every permutation
  from one sequence of draws; assignment, reverse table, coverage and running score agree with their recomputation
  after every swap, so does the running total over all sub-tables, and a climb is the chain of its acceptable moves.
* **Constructions** (`XorChain`, `GeometricSwap`, `SwapSearch`, `SwapTrials`, `Toroidal`): the clause chain preserves
  meaning, the eight-cell swap is balanced exactly when it exists, pruning loses no smaller swap, and toroidal lines
  partition the grid and meet once exactly when their slopes allow it.

`Arithmetic` holds the facts about quotients and sizes that several modules use, `Paths` chains of steps of any
relation, `Clocks` the readings of a clock. Lists, sets and dictionaries that the tools overwrite are fields of classes
or arrays here; random draws and clock readings are inputs, the order of dictionary iteration is an arbitrary choice.

## Findings

* With time left, `BtSearcher.search` returns a swap if and only if its start is balanced already: a leaf lowers
  `best_k` to its own size and the parent then asks for strictly less (tools/b33b_min_swap_bt.py:262-268, 327-329). Its
  only caller starts it from unbalanced bases, so the program reports an eight-cell base that happens to balance the
  tables, or nothing (`TryRectangles`). `SmallSwapIsMissed` gives, for every side and offset, a balanced table and a
  base that sixteen cells complete while nothing is reported; the printed bound on the true minimum (458-459) does not
  follow. Every lowered `best_k` is the size of a balanced extension, and on narrow grids the least one.
* In the fixpoint the cross-deduction phase is dead code. So are, after cross filtering, the conflict report in
  tools/b60c_arc_consistency.py:426-428 and the assignment of single-candidate domains in 432-447.
* The sequential solver omits the zero-row check; a row's list is exact if and only if its equations can be solved or
  nothing is listed (`ListIsExactIff`), and no completion is ever missing. After a wrong guess the list can be wrong:
  `ListAfterGuess` says which columns make it so, and `ListCanBeWrong` is an instance with CRC-32.
* The phase of the algebraic solver that resolves single rows does not change where the run ends: where elimination is
  exhausted on a solvable system it finds nothing (`NothingLeftForRows`), and both runs end in the one least state.
* Singleton arc consistency stops where both values of every free cell survive their probes, but a probe passes over
  full lines, also those with a wrong sum. The result is the least extension in which every free cell can still take
  both values if and only if no probe comes to rest on such a line (`Sac.Run`); `BlindSpot` is an input where one does.
* Two toroidal families meet line by line in exactly one cell if and only if the slope difference is prime to S. The
  docstring at tools/b44a_constraint_sim.py:155-159 relies on 511 being prime, which it is not.
* `encode_xor` is called only for at most 12 literals; longer equations are dropped. Over distinct variables the
  encoding of an equation is exact if and only if it is that short (`LongIsLost`, with the instance `ThirteenIsLost`),
  and a block without longer equations is encoded exactly (`EncodeAll`).

## Model

| member | source | states |
|---|---|---|
| Fixpoint.Run | tools/b58b_symbolic_solve.py:429-506 | a whole run from an empty state: everything fixed holds in every joint solution of the line sums and the original equations; an infeasible verdict means that there is no joint solution, nor any state that lines and equations both leave alone; the substituted system says the same as the original one about vectors with the fixed values and mentions no fixed cell; a feasible run of at least one iteration leaves every line closed; one that the limit stopped has fixed at least as many cells as the limit says; with at least one iteration a cell it has converged; a converged run determines no free cell and, unless the instance is hopeless, has ended in the least state that both halves leave alone; where a joint solution exists the run is feasible and ends in the state to which a chain of rounds leads from nothing, as many rounds as the limit says unless it has converged, each of which adds all that the original equations decide and then takes the least stable extension |
| Fixpoint.Iterate | tools/b58b_symbolic_solve.py:439-480 | one iteration keeps the three views in step; after a normal end of integer propagation the cross-deduction phase finds nothing and objects to nothing; an iteration without gain leaves nothing to deduce; where a joint solution exists the iteration is one round |
| Fixpoint.LinearPhase | tools/b58b_symbolic_solve.py:442-457 | the elimination phase on a copy fixes only cells that every joint solution shares and substitutes them; where the equations have a solution with the fixed values it fixes exactly the cells on which all these solutions agree; an empty gain means the system determines no free cell |
| Fixpoint.LinePhase | tools/b58b_symbolic_solve.py:459-467 | the integer phase: a conflict means that there is no joint solution and no jointly stable state; otherwise the state is closed and the substituted system is still equivalent; as soon as a stable extension exists there is no conflict and the state is the least one |
| Fixpoint.SolveLinear | tools/b58b_symbolic_solve.py:442-449 | on a consistent system the cells read from the reduced copy are exactly those on which all solutions agree; the values hold in every solution in any case |
| Fixpoint.PropagateGf2 | tools/b58b_symbolic_solve.py:417-423 | substituting a batch in any order gives an equivalent system for vectors with these values and clears exactly the columns of the batch |
| Blocks.Reconstruct | tools/b58b_symbolic_solve.py:512-645 | projecting a matrix and running the fixpoint on its sums and row CRCs never reports infeasibility; every fixed cell has the value shared by all matrices with these projections; the run ends in the state to which a chain of rounds of the parity and CRC equations and the line sums leads from nothing, and unless it ends in the least state that neither of them extends, the rounds are as many as the limit and at least as many cells are fixed; when all cells are fixed the matrix is rebuilt |
| Blocks.BuildGf2System | tools/b58b_symbolic_solve.py:220-251 | a vector solves the system exactly when the parity of every line sum and the CRC of every row are right |
| Blocks.ProjectLines | tools/b58b_symbolic_solve.py:79-141 | the computed targets are met by the matrix they come from: it solves the line system |
| Elimination.GaussElim | tools/b58b_symbolic_solve.py:254-291 | elimination in place computes the column-by-column specification, keeps the solution set and ends in reduced row echelon form for the returned pivots: increasing pivots, unit pivot columns, leading zeros, zero rows below the rank |
| Elimination.PivotOn | tools/b58b_symbolic_solve.py:274-286 | one pivot step in place is the specified one: the pivot row moved up and its column cleared elsewhere |
| Elimination.EliminateColumn | tools/b58b_symbolic_solve.py:279-283 | the column is cleared in every other row by adding the pivot row, and the solution set is kept |
| Elimination.SwapRows | tools/b58b_symbolic_solve.py:274-277 | exchanges two rows with their right-hand sides and nothing else |
| Elimination.FindPivot | tools/b58b_symbolic_solve.py:265-272 | the first row at or below the pivot row with a one in the column, if there is one |
| SolutionSpace.SolvesIffComplete | tools/b58b_symbolic_solve.py:254-291 | a vector solves a reduced system exactly when no row reads 0 = 1 and its pivots are the back-substitution of its free columns |
| SolutionSpace.FreeColumnsDecide | tools/b58b_symbolic_solve.py:254-291 | two solutions that agree on the free columns are equal |
| SolutionSpace.FreeColsCount | tools/b58b_symbolic_solve.py:288-289 | rank and number of free columns add up to the number of columns |
| SolutionSpace.ExtractDetermined | tools/b58b_symbolic_solve.py:294-309 | reports exactly the pivots whose row has no free column, with the right-hand side as value |
| SolutionSpace.DeterminedIsSound | tools/b58b_symbolic_solve.py:294-309 | a reported value holds in every solution, whether or not the system is consistent |
| SolutionSpace.DeterminedIsExact | tools/b58b_symbolic_solve.py:294-309 | on a consistent system a column is reported if and only if all solutions agree on it |
| NullSpace.GaussElimNullSpace | tools/b59f_min_swap.py:143-210 | returns n - rank vectors of the kernel of the original matrix; only the zero combination of them is zero, and every kernel vector is a combination |
| NullSpace.BuildBasisVector | tools/b59f_min_swap.py:194-208 | the vector of a free column is one there, zero on the other free columns, and copies the column on the pivots |
| NullSpace.BasisVectorInKernel | tools/b59f_min_swap.py:194-208 | such a vector lies in the kernel |
| NullSpace.BasisIndependent | tools/b59f_min_swap.py:194-208 | a combination of the basis that is zero has all coefficients zero |
| NullSpace.BasisSpans | tools/b59f_min_swap.py:194-208 | every kernel vector is the combination of the basis vectors of the free columns where it is one |
| NullWeights.ConstructNullVector | tools/b39a_ndim_swap.py:602-630 | the vector is one on the listed free columns and carries the sum of their pivot parts on the pivots |
| NullWeights.PartsInKernel | tools/b39a_ndim_swap.py:602-630 | the constructed vector lies in the kernel |
| NullWeights.CombinationWeight | tools/b39a_ndim_swap.py:498-508 | the weight of the combination of k distinct free columns is k plus the weight of the sum of their pivot parts |
| NullWeights.SingleWeight | tools/b39a_ndim_swap.py:404-410 | the weight for one free column is one plus its column count |
| NullWeights.PairWeight | tools/b39a_ndim_swap.py:456-461 | the weight for two free columns is two plus the Hamming distance of their pivot parts |
| NullWeights.ComputeColumnCounts | tools/b39a_ndim_swap.py:355-377 | counts, for each column, the pivot rows with a one in it |
| Crc32.CrcAffine | tools/b58b_symbolic_solve.py:178-196 | the CRC of RFC 1952 section 8 of an exclusive or is the exclusive or of the CRCs and of the CRC of the zero message of that length |
| CrcLaws.StepIsEightShifts | tools/b58b_symbolic_solve.py:178-196 | one table step is eight steps of the single-bit register |
| CrcLaws.BurstsAreDetected | tools/b58b_symbolic_solve.py:178-196 | two messages of one length that differ only within 32 consecutive bits have different CRCs |
| CrcLaws.RowCrcIsInjective | tools/b58b_symbolic_solve.py:163-196 | rows of at most 32 cells with equal CRCs are equal |
| CrcLaws.ResidueIsConstant | tools/b58b_symbolic_solve.py:178-196 | a message followed by the four bytes of its CRC leaves one register, whatever the message |
| Crc32.RowCrcIsAffine | tools/b58b_symbolic_solve.py:163-175 | the CRC of a packed row is an affine function of its bits, for every row length |
| Crc32.PackRow | tools/b58b_symbolic_solve.py:163-175 | the buffer the loop fills is the row packed most significant bit first into (s + 8) / 8 bytes |
| Crc32.BuildGenerator | tools/b58b_symbolic_solve.py:178-196 | probing the zero message and every unit message yields the columns of the generator and the constant |
| Crc32.AffineMap | tools/b58b_symbolic_solve.py:178-196 | any affine function equals its probed generator applied to the message, plus the constant |
| Crc32.CrcEquations | tools/b58b_symbolic_solve.py:238-249 | a row meets its 32 equations if and only if its CRC is the stored one |
| Propagation.BuildCellLines | tools/b58b_symbolic_solve.py:322-326 | the index lists, for every cell, each line through it once |
| Propagation.ConstraintSystem.constructor | tools/b58b_symbolic_solve.py:316-326 | the initial residuals are the targets and the line lengths |
| Propagation.ConstraintSystem.Determine | tools/b58b_symbolic_solve.py:328-332 | fixing a cell keeps fixed and free cells a partition and every residual equal to its definition |
| Propagation.ConstraintSystem.ProcessLine | tools/b58b_symbolic_solve.py:348-376 | one line of the worklist: sound, sets exactly the free cells of a forcing line, and every line not queued afterwards is settled or untouched |
| Propagation.ConstraintSystem.Drain | tools/b58b_symbolic_solve.py:338-378 | the worklist from any start: terminates, adds only cells that every stable extension has, reports exactly the gain, and settles every queued line |
| Propagation.ConstraintSystem.IntBound | tools/b58b_symbolic_solve.py:338-378 | a conflict means that no stable extension exists (so no solution); a normal end leaves 0 < rho < u on every line with u > 0; on satisfiable states the result is the least stable extension |
| Propagation.ConstraintSystem.Restore | tools/b60_real_solver.py:251-253 | brings back the saved state |
| Lines.AssignRhoU | tools/b58b_symbolic_solve.py:328-332 | how one assignment moves the residual and the count of each line |
| Lines.ForceIsSound | tools/b58b_symbolic_solve.py:356-376 | a line with rho = 0 or rho = u forces its free cells in every stable extension |
| Lines.OutOfRangeIsFinal | tools/b58b_symbolic_solve.py:351-354 | a residual out of range rules out every stable extension |
| Lines.SolutionIsStable | tools/b58b_symbolic_solve.py:338-378 | every solution that agrees with the state is a stable extension |
| Lines.BelowEntails | tools/b58b_symbolic_solve.py:338-378 | what every stable extension has, every solution has |
| Lines.LeastStableUnique | tools/b58b_symbolic_solve.py:338-378 | there is at most one least stable extension |
| Lines.ClosedIsLeast | tools/b58b_symbolic_solve.py:338-378 | a closed state reached by sound steps is the least stable extension |
| Cascades.SimulatePropagation | tools/b45a_ltp_only_sim.py:86-156 | the cell-queue cascade ends in the least stable extension of a satisfiable start and counts the cells it sets; no line is left forcing |
| Cascades.PropagateSweep | tools/b45a_correct_path_sim.py:98-122 | the repeated sweep ends in the same least stable extension and counts the cells it sets |
| Cascades.UnforcedIsLeast | tools/b45a_ltp_only_sim.py:86-156 | any sound state without a forcing line is the least stable extension, so the three forms of the cascade agree |
| Cascades.TryForceLine | tools/b45a_ltp_only_sim.py:111-127 | queues every free cell of a forcing line, with values that all stable extensions share |
| Cascades.PopCell | tools/b45a_ltp_only_sim.py:129-154 | sets a queued cell and looks again at every line through it; no forcing line is forgotten |
| Cascades.RunCorrectPath | tools/b45a_correct_path_sim.py:185-218 | branching on the true value of each cell left free rebuilds the matrix; a cell is branched on exactly if the least stable extension of the true values of all cells before it leaves it free, and branched and forced cells add up to all cells |
| Deduction.CrossDeduce | tools/b58b_symbolic_solve.py:381-414 | sound from any state; it finds nothing and objects to nothing if and only if the state is closed, so after a normal end of integer propagation it adds nothing |
| Deduction.ClosedIffFeasible | tools/b58b_symbolic_solve.py:381-414 | a state is closed if and only if both values are feasible at every free cell |
| Deduction.InfeasibleIsSound | tools/b58b_symbolic_solve.py:388-405 | when a value is infeasible, every stable extension has the other one |
| Deduction.AnalyzeIntervalTightening | tools/b59h_interval_tightening.py:117-189 | the four counters are the sizes of the sets of free cells with the named feasible values and add up to the free cells, and the line figures are the mean, least and greatest rho / u over the lines with u > 0; the state is closed if and only if no forced and no impossible cell is counted, and if and only if the least ratio is above zero and the greatest below one |
| Enumeration.Enumerate | tools/b60_real_solver.py:347-381 | counting through the free columns lists every solution of a reduced system exactly once |
| Enumeration.BackSubstitute | tools/b60_real_solver.py:367-381 | gives every pivot the value its row leaves it |
| Candidates.BuildLineSystem | tools/b60_real_solver.py:267-303 | the 33 equations of a line on its free cells: 32 check equations with the fixed part moved to the right, and the parity of the residual |
| Candidates.LineSystemMeaning | tools/b60_real_solver.py:288-303 | a filling solves the 33 equations if and only if its check value and the parity of its sum are right |
| Candidates.SolveAll | tools/b60_real_solver.py:305-381 | lists all solutions once, none for a contradictory system, or gives up, which it does only when a solvable system has too many free columns |
| Candidates.HasContradiction | tools/b60_real_solver.py:330-335 | finds a zero row with a one on the right if there is one |
| Candidates.CellMayBe | tools/b60_real_solver.py:387-399 | a value is offered exactly when no line through the cell rules it out by its bounds |
| Candidates.Filter | tools/b60_real_solver.py:383-411 | keeps exactly the vectors of the right weight that respect the bounds, without duplicates |
| Candidates.GenerateCandidates | tools/b60_real_solver.py:258-417 | a returned list for a line with free cells has no duplicates and is exactly the set of fillings with the right check value, the right sum and no bound broken; the method gives up only when elimination leaves more than the allowed free columns of a solvable system or when there are too many completions |
| Completion.SolutionIsCandidate | tools/b60_real_solver.py:425-503 | every full solution that agrees with the state shows up among the candidates of every line |
| Completion.UniqueCandidate | tools/b60_real_solver.py:449-462 | filling in a single candidate loses no full solution |
| Completion.TryCompleteLine | tools/b60_real_solver.py:436-462 | one line: sound, a conflict means that no full solution has the fixed values; a line is completed exactly when cells are forced: filling in its only completion and forcing lines until all are quiet or one is out of range leads to the new state; unchanged, it is undecided |
| Completion.TryComplete | tools/b60_real_solver.py:425-503 | the repeat-until-unchanged sweep is sound, terminates, and its inconsistent verdict is right; at a consistent end every line in range is full, over the threshold, intractable or has two completions; as many steps as completed lines are counted, each filling in the only completion of a line in range and forcing lines until all are quiet or one is out of range, lead from the start to the end; the forced cells are exactly those no longer free |
| Search.AllLinesFeasible | tools/b60_real_solver.py:776-785 | true exactly when 0 <= rho <= u on every line |
| Search.SortRows | tools/b60_real_solver.py:706-712 | the rows with unknowns, fewest first, ties by row |
| Search.ChooseRow | tools/b60_real_solver.py:700-732 | a chosen row comes with exactly its candidates, and no row tried has fewer; trying stops early only at a row that is good enough; a dead row means that no full solution has the fixed values; no row comes back only if some row is open and the first eight by unknowns are all intractable or have too many candidates |
| Search.TryCandidate | tools/b60_real_solver.py:741-792 | a failed candidate restores the state exactly; an exhaustive failure rules the candidate out of every full solution; any other names a reading of the clock past the limit, or a state with an open row and none to branch on, to which the search gets from here by branching on the rows it chooses and descending |
| Search.SearchRecursive | tools/b60_real_solver.py:688-794 | success fixes every cell, meets every line target from a legal state, and the row branched on has its check value right; failure leaves the state as on entry; an exhaustive failure means that no full solution has the starting values, a stalled one names a state with an open row but none to branch on that a chain of branches on chosen rows, propagations and completions reaches from the start, and the only other one names a reading of the clock past the limit among those made; a first reading past the limit ends the search at once; the free set shrinks on every recursion |
| RunSolvers.RunSearch | tools/b60_real_solver.py:641-685 | on the projections of a matrix, success yields a matrix that meets every line sum; failure keeps the part of the matrix that completing rows and then columns, as long as any can be, makes of the least stable state, and is never exhaustive: a reading of the clock was past the limit, or branching from that part leads to a state with an open row and none to branch on; with rows of at most 12 cells and no reading past the limit, the run succeeds |
| Sequential.EasiestRow | tools/b59h_arc_consistency.py:371-393 | a chosen row comes with its list, and no row tried has a shorter one; none is chosen only in a dead end or if the first five open rows in order are all too wide |
| Sequential.SolveRow | tools/b59h_arc_consistency.py:150-159 | fills in the row and adds only what every full solution with these values has; where no line is out of range the state is the least stable extension of the filled one |
| Sequential.TryRow | tools/b59h_arc_consistency.py:402-435 | a failed candidate restores the state exactly and, if exhaustive, is in no full solution; any other failure names a state whose open rows are too wide to list, reached from here by solving the rows picked |
| Sequential.SolveSequential | tools/b59h_arc_consistency.py:364-437 | success fixes every cell and, from a legal state, meets every target; failure leaves fixed cells, free cells and residuals as on entry; it means that no full solution has the starting values, or names a state in which the open rows tried are all too wide to list and to which a chain of picked rows leads from the start, each filled with a listed value and propagated to the least stable extension |
| RunSolvers.RunSequential | tools/b59h_arc_consistency.py:340-441 | on the projections of a matrix, success yields a matrix with the same line sums; failure keeps the least stable part of the matrix, from which solving the rows picked leads to a state whose open rows are too wide to list; with rows within the limit the run succeeds |
| RowResolve.ResolveRow | tools/b59g_algebraic_solve.py:302-361 | a conflict means that no filling of the row has its CRC, and conversely; otherwise the reported cells are exactly those on which all fillings with the right CRC agree |
| RowResolve.DecideColumns | tools/b59g_algebraic_solve.py:324-361 | elimination, zero-row check and extraction: a conflict if and only if the system is unsolvable, else exactly the columns all solutions share |
| RowResolve.Crc32RowResolve | tools/b59g_algebraic_solve.py:291-363 | over all rows: a conflict if and only if some row with free cells cannot be filled, and then no vector with the right check values has the fixed cells; otherwise every row is resolved exactly and every such vector has the new values |
| RowResolve.ResolvedEntails | tools/b59g_algebraic_solve.py:291-363 | for full solutions, a conflict is a dead end and the new cells are shared by all that have the fixed ones |
| AlgebraicRun.RowPhase | tools/b59g_algebraic_solve.py:444-452 | the phase that resolves rows keeps the three views in step; without a conflict it adds exactly the cells that their rows decide; a conflict means that no state is left alone by lines and equations and none of the vectors solves both; while the substituted equations have a solution there is no conflict, and where elimination is exhausted too, nothing is resolved |
| AlgebraicRun.NothingLeftForRows | tools/b59g_algebraic_solve.py:444-452 | where elimination finds nothing more and the equations have a solution, the row equations decide no free cell |
| AlgebraicRun.StuckRowIsFinal | tools/b59g_algebraic_solve.py:444-449 | a row that cannot be filled rules out every joint solution and every state that both halves leave alone |
| AlgebraicRun.Iterate | tools/b59g_algebraic_solve.py:419-474 | one iteration: elimination, lines, rows, lines again when the rows decided something, cross deduction, which then finds nothing; the views stay in step and an iteration without gain leaves nothing to deduce; where a joint solution exists the iteration is one round with rows |
| AlgebraicRun.Run | tools/b59g_algebraic_solve.py:416-493 | the whole run: what is fixed holds in every joint solution, an infeasible verdict is right, a run of at least one iteration leaves every line closed, one that the limit stopped has fixed at least as many cells as the limit says, with at least one iteration a cell it converges, and a converged run on an instance that is not hopeless ends in the least state that both halves leave alone; where a joint solution exists a chain of rounds with rows leads from nothing to the state, as many as the limit says unless the run has converged |
| AlgebraicRun.Reconstruct | tools/b59g_algebraic_solve.py:403-493 | from the projections of a matrix the run is never infeasible; it ends in the state to which a chain of rounds with rows leads, and unless this is the one least state in which the plain fixpoint ends too, the rounds are as many as the limit and at least as many cells are fixed |
| Sac.Assign | tools/b59i_sac.py:105-143 | the new state is reached by a chain of forced lines; a refusal refutes the value and exhibits a chain that breaks a line; an accepted value on a closed state gives a closed state |
| Sac.Probe | tools/b59i_sac.py:178-188 | a probe leaves the whole state unchanged; failure refutes the value and means that forcing breaks a line; success on a closed state means that forcing lines from the probed value comes to rest |
| Sac.SacPass | tools/b59i_sac.py:166-203 | -1 means no solution and changes nothing; 0 changes nothing and on a closed state forcing from either value of every free cell comes to rest; the count is at most the number of cells fixed; everything fixed holds in every solution and in every extension whose free cells can take both values; on a closed satisfiable state a positive pass has found a probe that breaks a line, leaves a closed state, and both values of every cell it leaves free survive their probes on the state before |
| Sac.ForceAll | tools/b59i_sac.py:197-201 | applying the collected forcings sets every listed cell, skips what propagation has set meanwhile, and adds only what every solution has and every extension whose free cells can take both values |
| Sac.Run | tools/b59i_sac.py:229-259 | the whole run: sound for solutions and for the extensions whose free cells can take both values; -1 means no solution; each counted pass fixes a cell; from a satisfiable start a chain of passes leads from the least stable extension to the state, as many as the limit says while the last one is positive; a run that stops at 0 is stable, both values of every free cell survive their probes, and it is the least extension whose free cells can take both values if and only if no probe comes to rest on a full line with a wrong sum |
| ArcConsistency.FilterCrossing | tools/b60c_arc_consistency.py:363-378 | filters a line at one crossing: the arc holds afterwards, and no candidate of a narrower arc-consistent pair is lost |
| ArcConsistency.Sweep | tools/b60c_arc_consistency.py:361-381 | one half sweep in any order: emptied exactly as reported, and if nothing changed every target is supported |
| ArcConsistency.CrossFilter | tools/b60c_arc_consistency.py:353-402 | ends, by the total number of candidates, in the largest arc-consistent narrowing of the given domains; a domain empties only if every arc-consistent narrowing has an empty one |
| ArcConsistency.MatrixIsArcConsistent | tools/b60c_arc_consistency.py:353-402 | the rows and columns of one matrix support each other |
| ArcConsistency.FilteringKeepsMatrices | tools/b60c_arc_consistency.py:353-402 | a matrix is within the domains before filtering if and only if it is within them after |
| ArcConsistency.ExtractDeterminedCells | tools/b60c_arc_consistency.py:242-257 | reports exactly the cells on which all candidates agree, with the common value |
| ArcConsistency.FixedIsSound | tools/b60c_arc_consistency.py:410-430 | a cell on which a domain agrees has that value in every matrix within the domains |
| ArcConsistency.NoConflict | tools/b60c_arc_consistency.py:420-430 | after filtering, a row and a column never fix their common cell differently, so the conflict branch is dead |
| ArcConsistency.CollectCells | tools/b60c_arc_consistency.py:410-430 | collects exactly the cells that a domain fixes, with values that every matrix within the domains has |
| LtpTables.Shuffle | tools/b32_ltp_hill_climb.py:192-196 | one pass leaves the pool a permutation, the one of the specified pass |
| FisherYates.EveryPermutationOnce | tools/b32_ltp_hill_climb.py:192-196 | over draws from 0 to i for each position i, every permutation of the pool comes from exactly one sequence of draws |
| FisherYates.ShuffleIsFisherYates | tools/b32_ltp_hill_climb.py:192-196 | the pass is that shuffle at the draws of the generator: for position i the state reached for it modulo i + 1 |
| LtpTables.CutPool | tools/b32_ltp_hill_climb.py:197-203 | the cell in slot q of the pool is assigned line q / s |
| LtpTables.CutIsBalanced | tools/b32_ltp_hill_climb.py:174-204 | cutting any permutation puts exactly s cells on every line |
| LtpTables.BuildAllSubTables | tools/b32_ltp_hill_climb.py:174-204 | whatever the seeds, every table is cut from the chained pool and puts exactly s cells on every line |
| HillClimb.BuildCsr | tools/b32_ltp_hill_climb.py:247-258 | any assignment: an index error exactly when a value names no line or a line runs past the table; the reverse table lists every cell once on its line if and only if the assignment is balanced |
| HillClimb.BuildCoverage | tools/b32_ltp_hill_climb.py:261-278 | the coverage of a line is its number of cells in the zone |
| HillClimb.SubTable.Swap | tools/b32_ltp_hill_climb.py:453-459 | an accepted swap exchanges two cells in both tables and shifts the coverage of the two lines; the reverse table stays a permutation inverse to the assignment and the coverage equals its recount |
| HillClimb.TotalCoverage | tools/b32_ltp_hill_climb.py:261-278 | coverage adds up to the number of zone cells |
| HillClimb.IndexedIsBalanced | tools/b32_ltp_hill_climb.py:358-464 | the index invariant keeps exactly s cells on every line |
| HillClimb.ScoreSwap | tools/b32_ltp_hill_climb.py:434-438 | the score change of a shift is the change of four rewards |
| HillClimb.TryMove | tools/b32_ltp_hill_climb.py:405-462 | a step is taken exactly when lines and zones differ and the score change is acceptable; the reported change is the true one; a rejected step changes nothing |
| HillClimb.HillClimbOneSub | tools/b32_ltp_hill_climb.py:358-464 | a run is the chain of its moves: tables, coverage and score go through one state for each, which is exchanged and rescored exactly if the move is acceptable there, and the count is the number of acceptable ones; the accumulated change equals the from-scratch score change and the total coverage is constant; at temperature zero every accepted step gains, no line falls below the lesser of the floor and its start; a nonzero cap is never crossed upwards |
| HillClimb.NothingAccepted | tools/b32_ltp_hill_climb.py:405-464 | a run accepts nothing if and only if no move is acceptable at its start, and then changes nothing |
| HillClimb.RanUnique | tools/b32_ltp_hill_climb.py:405-464 | the moves decide where a run ends and how many are accepted |
| HillClimb.Advance | tools/b32_ltp_hill_climb.py:405-462 | one step is a step of the chain: accepted exactly if the from-scratch score change, the floor and the cap or the coin allow it |
| HillClimb.RewardShape | tools/b32_ltp_hill_climb.py:434-438 | no reward up to the threshold, the square of the excess from there to the limit, and no more beyond |
| ClimbRounds.Turn | tools/b32_ltp_hill_climb.py:808-816 | a turn of one sub-table: it runs through its moves with the running total as its score and the other tables stay as they are; the running total stays the sum of all scores computed from scratch, it is not lifted over the cap, and without annealing it rises by at least one for every accepted swap |
| ClimbRounds.Round | tools/b32_ltp_hill_climb.py:806-816 | a round is the chain of one turn for each sub-table, and the total stays the recomputed sum |
| ClimbRounds.TotalUpdate | tools/b32_ltp_hill_climb.py:808-816 | replacing the coverage of one sub-table changes the total by the difference of its scores |
| ClimbRounds.InitialTotal | tools/b32_ltp_hill_climb.py:648-659 | the total before the climb is the sum of the scores of all coverages |
| ClimbRounds.Climb | tools/b32_ltp_hill_climb.py:804-817 | the climb is the chain of its rounds, each the chain of the turns of its sub-tables, with the accepted swaps added up; after any number of rounds over sub-tables that share nothing, the running total is the sum of the scores computed from the coverages, at most the greater of the cap and the initial total, and without annealing at least the initial total plus the number of accepted swaps |
| HillClimb.Kick | tools/b32_ltp_hill_climb.py:663-697 | every draw of two different lines is applied and counted; both tables are those after all these exchanges; the index stays exact and the total coverage constant |
| XorChain.EncodeXor | tools/b59g_sat_ilp.py:390-427 | the clauses hold exactly when every auxiliary is the parity of its prefix and the whole parity is right |
| XorChain.ExtensionExists | tools/b59g_sat_ilp.py:390-427 | an assignment extends to the auxiliaries if and only if the exclusive or of its literals is the parity |
| XorChain.ExtensionUnique | tools/b59g_sat_ilp.py:390-427 | the extension is unique |
| XorChain.EncodeEquation | tools/b59g_sat_ilp.py:336-349 | one equation, including the empty ones, and the block of auxiliaries it takes |
| XorChain.EncodeAll | tools/b59g_sat_ilp.py:313-349 | an assignment of the original variables extends to all clauses if and only if it satisfies every equation of at most 12 literals; without longer equations, if and only if it satisfies them all |
| GeometricSwap.MakeGeometricBase | tools/b33b_min_swap_bt.py:125-179 | a swap is returned if and only if the parity is even, the sides are nonzero and of different length and the repair cells fall inside the grid; it consists of exactly the eight entries with their signs and has zero row, column, diagonal and anti-diagonal sums |
| GeometricSwap.EntriesCancel | tools/b33b_min_swap_bt.py:125-179 | the signs of the eight cells cancel on every line of the four families |
| GeometricSwap.VerifyGeometric | tools/b33b_min_swap_bt.py:182-197 | true exactly when all four families of sums are zero |
| GeometricSwap.ComputeViolations | tools/b33b_min_swap_bt.py:202-208 | the violations are exactly the lines with a nonzero sum of signs, with their sums; none are left if and only if the swap is balanced |
| GeometricSwap.BalancedKeepsSums | tools/b33b_min_swap_bt.py:202-208 | applying a swap to a matrix keeps every line sum if and only if the swap is balanced |
| SwapSearch.BuildLineToCells | tools/b33b_min_swap_bt.py:115-120 | each line lists its cells in increasing order |
| SwapSearch.LowerBoundAdmissible | tools/b33b_min_swap_bt.py:273-280 | every balanced extension has at least ceil(violations / families) more cells |
| SwapSearch.BranchRepairs | tools/b33b_min_swap_bt.py:287-325 | a branch moves the sum of its target line one step towards zero |
| SwapSearch.BtSearcher.PickTargetLine | tools/b33b_min_swap_bt.py:236-248 | a violated line with the fewest available cells |
| SwapSearch.BtSearcher.Bt | tools/b33b_min_swap_bt.py:257-334 | the swap is left as found on every path; a lowered best size is witnessed by a balanced extension of that size within the budget; if no reading of the clock was past the limit, the visited swaps are closed under the search: each is balanced with at least the best size, has spent the budget, is pruned by the bound, or leads to the 20 best ranked cells of a violated line with fewest free ones; a result comes back if and only if no line is violated on entry and the first reading is within the limit |
| SwapSearch.BtSearcher.Search | tools/b33b_min_swap_bt.py:250-255 | the search returns a swap if and only if its start is balanced already and the first reading of the clock is within the limit, and then the start itself; what it finds by adding cells shows only in the lowered best size, which, with no reading past the limit, no balanced visited swap undercuts, and on grids whose lines have at most 20 cells no balanced extension within the budget |
| Toroidal.IndexIsRemainder | include/common/CrossSum/ToroidalSlopeSum.h:62-70 | the shifted truncated remainder is the residue of c - slope * r modulo s |
| Toroidal.OnLineIffIndex | include/common/CrossSum/ToroidalSlopeSum.h:19-23 | cell (r, c) is on line k of a slope if and only if k is its line index, so the lines of a slope partition the grid |
| Toroidal.ToroidalFamily | tools/b60c_toroidal_baseline.py:113-137 | the two loops list the s lines of s cells of slope 1 and of slope s - 1 |
| Toroidal.CoprimeMeetOnce | include/common/CrossSum/ToroidalSlopeSum.h:19-23 | lines of slopes whose difference is prime to s meet in exactly one cell |
| Toroidal.MeetOnceIffCoprime | include/common/CrossSum/ToroidalSlopeSum.h:19-23 | all lines of two slopes meet in exactly one cell if and only if the difference of the slopes is prime to s |
| Fixpoint.SubstituteCell | tools/b58b_symbolic_solve.py:419-423 | substituting one cell clears its column and gives an equivalent system for vectors with that value |
| Blocks.CrcBlock | tools/b58b_symbolic_solve.py:239-249 | the 32 equations of a row hold exactly when its CRC is the stored one |
| Crc32.EquationsIffEqual | tools/b58b_symbolic_solve.py:238-249 | the equations of a probed generator hold exactly when the affine function has the stored value |
| Propagation.Enqueue | tools/b58b_symbolic_solve.py:373-376 | queues lines not queued yet; the queue and its membership set stay in step |
| Propagation.ConstraintSystem.ForceLine | tools/b58b_symbolic_solve.py:365-376 | sets exactly the free cells of the line, records them and queues every line through them |
| Propagation.ConstraintSystem.SetLine | tools/b45a_correct_path_sim.py:108-120 | sets exactly the free cells of the line and counts them |
| Cascades.StepQueue | tools/b45a_ltp_only_sim.py:147-154 | takes one cell off the queue: set and propagated when free, dropped when set already; either way nothing due is forgotten |
| Cascades.VisitCell | tools/b45a_correct_path_sim.py:196-208 | leads from the least stable extension of the true values of the cells before to the one with this cell; it counts a branch exactly if the cell was free |
| Deduction.FindDeductions | tools/b58b_symbolic_solve.py:383-405 | finds exactly the free cells with one feasible value, or a cell with none |
| Candidates.CellBounds | tools/b60_real_solver.py:387-399 | which values the bounds leave each free cell |
| Completion.FillLine | tools/b60_real_solver.py:451-454 | sets exactly the free cells of the line to the candidate, and counts them |
| Completion.CompleteSweep | tools/b60_real_solver.py:434-462 | one sweep: sound; as many completions of lines in range as it counts lead from its start to its end; its counter of forced cells is what the free set lost; without a completed line it finds every line in range undecided |
| Search.TryAll | tools/b60_real_solver.py:740-794 | the candidates in turn: the first success ends the search; if all fail exhaustively the state is a dead end; another failure names a reading of the clock past the limit, or a state, reached by branching from here, with an open row and none to branch on |
| Search.VisitRow | tools/b60_real_solver.py:714-722 | one row: a dead end without candidates, too hard, or its exact candidates |
| Sequential.TryRows | tools/b59h_arc_consistency.py:401-437 | the list in turn, each failure rolled back; if all fail exhaustively the state is a dead end; any other failure names a state whose open rows are too wide to list, reached from here by solving the rows picked |
| Search.Descend | tools/b60_real_solver.py:745-785 | after filling a candidate, everything added holds in every full solution with it; a rejected candidate is a dead end, and an accepted one has led, by forcing lines until all are quiet, completing rows until none can be and then columns, to a state with no line out of range |
| Search.LegalAndFullIsSolution | tools/b60_real_solver.py:696-698 | a full state in which no line is out of range is a matrix that meets every target |
| Sac.ProbeAll | tools/b59i_sac.py:174-195 | all probes leave the state unchanged; a listed value is one whose other value breaks a line; a cell refused both values means no solution; on a closed state both values of every free cell that is not listed survive |
| ArcConsistency.FilterRows | tools/b60c_arc_consistency.py:361-381 | a half sweep over the rows keeps every arc-consistent narrowing and lowers the candidate count unless nothing changes |
| ArcConsistency.FilterColumns | tools/b60c_arc_consistency.py:383-402 | the same over the columns |
| HillClimb.SubTable.constructor | tools/b32_ltp_hill_climb.py:650-659 | the tables of any assignment; they are in step if and only if the assignment is balanced |
| HillClimb.Evaluate | tools/b32_ltp_hill_climb.py:406-451 | the decision of a step and its score change |
| RowResolve.RowSystemMeaning | tools/b59g_algebraic_solve.py:308-322 | a filling solves the 32 equations of a row if and only if it has the stored CRC |
| GeometricSwap.SumLines | tools/b33b_min_swap_bt.py:184-193 | the dictionary holds the sum of signs of every line |
| SwapSearch.BtSearcher.Expand | tools/b33b_min_swap_bt.py:321-334 | no branch brings a swap back to its parent; with no reading past the limit all branches are among the visited swaps |
| SwapSearch.Rank | tools/b33b_min_swap_bt.py:297-319 | the candidates by falling score, cells of equal score in their old order |
| SwapSearch.ScoreCounts | tools/b33b_min_swap_bt.py:297-311 | the score of a cell is ten for every violation that adding it removes, three for one it reduces, minus two for one it creates and minus five for one it makes worse |
| SwapSearch.AffectedIsAll | tools/b33b_min_swap_bt.py:297-311 | the lines that adding the cell affects are exactly those counted |
| Toroidal.CommonFactorMeetsTwice | include/common/CrossSum/ToroidalSlopeSum.h:19-23 | with a common factor two lines meet more than once |
| LtpTables.BuildSubTable | tools/b32_ltp_hill_climb.py:191-203 | shuffles the pool on and cuts it into balanced lines |
| Fixpoint.EndIsLeast | tools/b58b_symbolic_solve.py:499-506 | where a run has ended, if lines and equations leave any state alone, the final state is the least such state |
| Fixpoint.OpenCell | tools/b58b_symbolic_solve.py:442-457 | a free cell that the substituted system leaves open takes both values in solutions of the original system that have the fixed values |
| Fixpoint.LinearDecides | tools/b58b_symbolic_solve.py:442-457 | the constant columns of the substituted system are exactly the cells that the original equations decide in the state |
| JointStates.JointRoundUnique | tools/b58b_symbolic_solve.py:439-480 | while some solution of the equations has the fixed values, a round has one outcome only |
| AlgebraicRun.RowsIdle | tools/b59g_algebraic_solve.py:444-452 | rows that decide nothing leave a closed state of a solvable system as it is |
| JointStates.JointLeastUnique | tools/b58b_symbolic_solve.py:429-506 | the least state that both halves leave alone is unique, so the outcome of a converged run does not depend on the order of the phases |
| JointStates.SettledIsLeast | tools/b58b_symbolic_solve.py:499-506 | a settled state below all jointly stable states is the least of them as soon as there is one |
| JointStates.EquationsStayBelow | tools/b58b_symbolic_solve.py:442-457 | values shared by all solutions of the equations that agree with a state lie below every jointly stable state |
| Blocks.ProjectionsDecide | tools/b58b_symbolic_solve.py:540-580 | two matrices with the same projections lead converged runs to the same final state |
| Blocks.ProjectSystem | tools/b58b_symbolic_solve.py:547-562 | the system built from the projections is solved exactly by the vectors with the line parities and row CRCs of the matrix |
| Elimination.EliminatedIsReduced | tools/b58b_symbolic_solve.py:254-291 | after any number of columns the specified state is reduced in these columns and has the solutions of the original system |
| Elimination.PivotStepKeeps | tools/b58b_symbolic_solve.py:264-286 | a pivot step keeps the solution set and extends the reduced form by a column |
| Elimination.ClearingKeepsSolutions | tools/b58b_symbolic_solve.py:279-283 | clearing a column by adding the pivot row keeps the solution set |
| UncheckedRows.SolveUnchecked | tools/b59h_arc_consistency.py:193-236 | gives up exactly when there are too many free columns; otherwise lists, once each, exactly the vectors that solve the pivot rows |
| UncheckedRows.RowCandidates | tools/b59h_arc_consistency.py:168-253 | gives up exactly when the row is wide; otherwise the list holds, once each, exactly the vectors that pass the pivot rows, the sum and the bounds |
| UncheckedRows.PivotRowsSuffice | tools/b59h_arc_consistency.py:216-236 | the whole system is solved exactly by the solutions of the pivot rows when no row below the rank reads 0 = 1, and by nothing otherwise |
| UncheckedRows.SolvableIffNoContradiction | tools/b60_real_solver.py:330-335 | a system can be solved if and only if elimination leaves no row that reads 0 = 1 |
| UncheckedRows.ListedIffCompletion | tools/b59h_arc_consistency.py:168-253 | a vector is a completion of the row if and only if it is listed and the equations of the row can be solved: no completion is missing |
| UncheckedRows.ListIsExactIff | tools/b59h_arc_consistency.py:168-253 | the list of a row is exact if and only if the equations of the row can be solved or nothing is listed |
| UncheckedRows.ListCanBeWrong | tools/b59h_arc_consistency.py:193-253 | with the CRC-32 of two-cell rows, the stored value of the row 1 0 and its first cell guessed 0, a value is listed for the other cell although nothing completes the row |
| UncheckedRows.ListAfterGuess | tools/b59h_arc_consistency.py:193-253 | for any affine check on two-cell rows and the true check value of the row 1 0 with its first cell guessed 0: the other cell is listed as 1 if and only if the first one of its generator column stands in an equation with a one at the guessed cell, or the column is zero; it completes the row if and only if the two columns are equal |
| Search.ShortRowsAreTractable | tools/b60_real_solver.py:700-732 | where rows are short enough to be listed, some open row can always be branched on |
| Search.FilledIsRight | tools/b60_real_solver.py:745-760 | a row filled with one of its completions has the right check value, whatever is fixed afterwards |
| Sequential.ShortRowsAreListed | tools/b59h_arc_consistency.py:371-393 | where rows are within the limit, some open row is never too wide to list |
| Lines.DerivesIsSound | tools/b59i_sac.py:105-143 | what a chain of forced lines derives, every stable extension has |
| SingletonStates.StableNeverBreaks | tools/b59i_sac.py:178-188 | a value that some stable extension has is never refused |
| SingletonStates.ProbeCanFail | tools/b59i_sac.py:178-188 | two lines for which a probe of the empty state breaks a line and no chain of forced lines comes to rest |
| SingletonStates.BrokenIsDenied | tools/b59i_sac.py:178-203 | a value whose probe breaks a line is denied by every stable extension whose free cells can take both values |
| SingletonStates.RestDecides | tools/b59i_sac.py:105-143 | where a probe comes to rest decides its value: some stable extension has it if and only if no full line has a wrong sum there |
| SingletonStates.StandingIsLeastIff | tools/b59i_sac.py:166-203 | a stable state whose free cells survive both probes is the least extension whose free cells can take both values if and only if every probe rests on a legal state |
| SingletonStates.LeastSingletonUnique | tools/b59i_sac.py:229-259 | there is at most one least extension whose free cells can take both values |
| SingletonStates.BlindSpot | tools/b59i_sac.py:123-128 | two lines that can be met and on which every run fixes nothing, although a cell has a value that no stable extension has: its probe fills the other line with a wrong sum, which is not looked at |
| SingletonStates.ClosedIsTooLittle | tools/b59i_sac.py:123-128 | any cell that a run has fixed is denied by some full assignment with the starting values, which is closed and has no free cell to probe |
| DomainRun.SolveDomain | tools/b60c_arc_consistency.py:190-236 | lists all solutions of the equations of a line, none for a contradictory system; gives up exactly when a solvable system has too many free columns or solutions |
| DomainRun.GenerateDomain | tools/b60c_arc_consistency.py:167-236 | the domain of a line holds exactly the fillings with its check value and sum |
| DomainRun.GenerateDomains | tools/b60c_arc_consistency.py:310-344 | each open line that can be listed gets its domain; an empty one means that no full solution has the fixed values |
| DomainRun.TooLargeIff | tools/b60c_arc_consistency.py:205-214 | a solvable system of a line is given up exactly if it has more free columns than the limit or more than 18 |
| DomainRun.ShortLinesAreListed | tools/b60c_arc_consistency.py:310-344 | every open line with at most 18 free cells, and no more than the limit of free columns, gets its domain |
| DomainRun.SolutionWithin | tools/b60c_arc_consistency.py:310-344 | every full solution with the fixed values lies within the generated domains |
| DomainRun.SolutionSurvives | tools/b60c_arc_consistency.py:353-402 | every full solution with the fixed values survives cross filtering |
| DomainRun.EmptiedIsDeadEnd | tools/b60c_arc_consistency.py:353-402 | a domain emptied by filtering means that no full solution has the fixed values |
| DomainRun.AgreedCells | tools/b60c_arc_consistency.py:310-430 | the collected cells are free and every full solution with the fixed values has their values; with none collected the filtered domains agree nowhere |
| DomainRun.NoSingleCandidate | tools/b60c_arc_consistency.py:432-447 | where no domain agrees on a cell none has a single candidate, so the second attempt to fix cells finds nothing |
| DomainRun.Round | tools/b60c_arc_consistency.py:300-477 | one round fixes only what every full solution has; a contradiction means that there is none; a round that changes something fixes a cell and leaves every line closed; one that changes nothing leaves domains that agree nowhere |
| DomainRun.Run | tools/b60c_arc_consistency.py:273-477 | the whole run: everything fixed holds in every full solution with the starting values, a contradiction means that there is none, a stuck run has filtered domains that agree nowhere, a finished one has fixed all cells; from a start with a stable extension the state extends the least one and is closed unless contradictory |
| XorChain.LongIsLost | tools/b59g_sat_ilp.py:336-349 | over distinct variables the encoding says what an equation says if and only if it has at most 12 literals |
| XorChain.ThirteenIsLost | tools/b59g_sat_ilp.py:336-349 | one equation of 13 literals and an assignment that the clauses admit and that violates it |
| GeometricSwap.PlaceIsTallied | tools/b33b_min_swap_bt.py:144-178 | distinct entries placed one after the other are as many cells, with their signs, and line sums that add up their parts |
| GeometricSwap.RepairableIsDistinct | tools/b33b_min_swap_bt.py:166-178 | the repair cells of a repairable rectangle are distinct from each other and from its corners |
| SwapSearch.PruningIsSafe | tools/b33b_min_swap_bt.py:273-280 | a state that the bound prunes has no balanced extension below the best size |
| SwapSearch.RepairingCell | tools/b33b_min_swap_bt.py:287-325 | every balanced extension has a free cell of the needed sign on every violated line |
| SwapSearch.BranchesCover | tools/b33b_min_swap_bt.py:287-334 | with every free cell of a violated line tried, no balanced extension is left out |
| SwapSearch.NarrowIsExhaustive | tools/b33b_min_swap_bt.py:287-334 | on grids whose lines have at most 20 cells, visited swaps closed under the search leave no balanced extension within the budget below the best size |
| SwapTrials.TryRectangle | tools/b33b_min_swap_bt.py:391-431 | one trial changes the report to the eight-cell base if that is perfect and smaller, and otherwise not at all: the result of the search is never taken over |
| SwapTrials.TryRectangles | tools/b33b_min_swap_bt.py:379-431 | the program reports a swap exactly when a rectangle it tried has a perfect base and the budget admits eight cells, and then an eight-cell swap |
| SwapTrials.MissedSwap | tools/b33b_min_swap_bt.py:391-431 | for two disjoint bases whose table sums cancel but do not vanish, the trial of the first reports nothing although sixteen cells extend it to a balanced swap |
| SwapTrials.SmallSwapIsMissed | tools/b33b_min_swap_bt.py:456-460 | for every offset d and side of at least d + 8 (so for side 511 and corners from 20 on) there are a balanced table and a rectangle with corners (d + 1, d) and (d + 2, d + 3) whose trial reports nothing although a swap of sixteen cells extends its base |

## Left out

- Propagation.ConstraintSystem.IntBound: states no completeness of the conflict verdict, because the code passes over lines with u = 0 before it looks at rho (tools/b58b_symbolic_solve.py:351-354); a closed line with a wrong sum is not reported.
- Fixpoint.Run: states no completeness of the infeasible verdict, because the code never looks for 0 = 1 rows, and the least state only for a run that has converged, as one with at least one iteration a cell does; the default limit of 200 may stop a large run earlier. Per-iteration statistics are not modelled.
- Fixpoint.Iterate: leaves out the two branches that handle the outcome of cross deduction, and ArcConsistency.CollectCells the conflict report, because their conditions are proved never to hold there.
- Search.SearchRecursive: states the check value of the row branched on only, because lines completed by propagation are not compared with their CRC again. What the clock shows at each reading is an input.
- Sequential.SolveSequential: the counters it prints are not modelled.
- Toroidal.SlopeLineIndex: requires slope * r to fit 32 bits, because the header multiplies in that width.
- HillClimb.BuildCsr: does not say which cells an inexact table lists, because nothing uses one knowingly.
- HillClimb.Kick: takes its random draws as input; the deflation step is not modelled, since in band mode it uses the boundary of the early mode.
- SwapSearch.BtSearcher.Bt: claims the smallest size of all balanced extensions only where no line has more than 20 cells, because at most 20 branches are tried at each step; on wider grids, of those visited.
- Deduction.AnalyzeIntervalTightening: gives the exact ratios over the reals; the rounding to three decimals and the percentages are not modelled.
- Sac.Run: claims the least extension whose free cells can take both values only where no probe comes to rest on a full line with a wrong sum, because the code passes over lines with u = 0 (tools/b59i_sac.py:123-128); the printed statistics are not modelled.
- SwapTrials.TryRectangles: takes the drawn rectangles as input; the drawing loop is not modelled.
- GeometricSwap.MakeGeometricBase: takes corners inside the grid, as its caller draws them.
- Packed 64-bit words: rows are sequences of bits; packing and unpacking of rows is not modelled (the byte packing for the CRC is).
- Aliasing: `restore` keeps the saved containers and `snapshot` copies them; the model saves values.
- Block hashes (SHA-1, SHA-256), the cardinality encodings, the linear program and the SAT solver: library code.
- AlgebraicRun.Run: takes the iteration limit as a parameter (49 in the tool); the statistics it prints are not modelled.
- ClimbRounds.Climb: takes the draws of every turn as input, an annealing coin among them; checkpoints, patience and depth measurement are not modelled.
- DomainRun.Run: leaves out the assignment of single-candidate domains, because it is proved to find nothing, and the printed statistics.
- `arc_consistency_pass` of tools/b59h_arc_consistency.py: nothing calls it.
- The report of minimal vectors in tools/b39a_ndim_swap.py:539-545, which indexes a sorted list with an unsorted index; the weights are modelled.
- File formats, command lines, seed searches, timing and logging.
- The C++ solver sources behind cmd/ are not part of this model.
