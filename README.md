# 0hh1 solver and generic CP driver, modelled in Dafny

The repository solves 0hh1 puzzles. A puzzle is a square `n × n` grid whose
cells are red, blue or unset. A solution sets every cell so that:

- every row and every column holds `n / 2` cells of each colour;
- no line holds three equal cells in a row;
- no two rows are equal, and no two columns are equal.

The solver in `ohhi.py` has four parts:

- two *propagators* fill the cells they can infer:
  - `eliminate_contiguous` applies the no-three-in-a-row rule;
  - `full_colour` applies the line-balance rule.
- an *evaluator*, `check_feasibility`, marks a problem infeasible or solved;
- `refine` runs the propagators to a fixpoint and then evaluates;
- `solve` is a depth-first search that branches on the first unset cell, red first.

`cp_solver.py` is the same search written for any constraint problem. Its
variables hold *domains*, which are the values still possible for each
variable. It takes these as inputs:

- a list of constraint callbacks that narrow the domains;
- an evaluator that sets the problem's state.

The model has two layers:

- **Specification modules.** These are pure functions of the old state:
  - `Grid` and `Contiguous`;
  - `Balance` and `Feasibility`;
  - `Search` and `CpSpec`.
- **Imperative modules.** `Ohhi` and `CpSolver` hold a class `Problem`, whose
  methods update their fields in place, as the Python functions update the
  problem dictionary. Every method is proved to leave exactly the state that
  its specification function computes.

The lemmas then prove what the source promises about those functions:

- only unset cells change, and only to the colour the rule forces;
- change flags are exact;
- propagation and search terminate;
- `solve` always ends solved or infeasible;
- a solved result is a valid solution that keeps the input's cells (for even `n`);
- `solve` finds a solution whenever one exists;
- the CP driver only narrows domains, tries values in domain order and short-circuits.

The grid is a `map<(int, int), Cell>`, as the source's `cells` dictionary
keyed by `(row, col)` is. `Square(cells, n)` states that its keys are exactly
the `n × n` coordinates. The CP driver's variables are the positions of a
sequence of domains, in the order the driver enumerates them, and a domain is
a sequence of values.

## Model

| member | source | states |
|---|---|---|
| Grid.AllCellsSetIffNoUnset | ohhi.py:49-57 | `solved`: every cell is red or blue exactly when no cell is unset |
| Grid.AllCellsSet | ohhi.py:49-57 | `solved`: true when every cell is red or blue; characterised by `AllCellsSetIffNoUnset` |
| Grid.Count | ohhi.py:152-155 | the number of cells of one colour among the first `hi` of a line, which is never more than `hi` |
| Grid.NarrowedUnsetCount | ohhi.py:319-323 | setting unset cells never adds unset cells, and any change removes at least one, the measure on which `refine` and `solve` terminate |
| Grid.SetCellNarrows | ohhi.py:305-307 | setting an unset cell to a colour keeps every decided cell and removes one unset cell |
| Grid.Opposite | ohhi.py:128-133 | the colour a forced cell gets is set and differs from the neighbours' colour |
| Grid.CountFullLine | ohhi.py:152-155 | on a line with no unset cell, the reds and the blues fill the line |
| Grid.CountNarrowed | ohhi.py:152-155 | setting cells never lowers a line's count of a colour; when the count is unchanged, no cell of that colour was added |
| Contiguous.NeighboursInGrid | ohhi.py:126-127 | for a window that fits the grid, the visited cell and both masked neighbours are cells of the `n × n` grid |
| Contiguous.Windows | ohhi.py:74-102 | the six `(rows, cols, mask)` windows of `eliminate_contiguous`, each fitting the grid (every neighbour index in `[0, n)`), each with two distinct non-zero offsets |
| Contiguous.Force | ohhi.py:123-133 | one visit changes at most the visited cell and never a decided one |
| Contiguous.RowPass | ohhi.py:122-133 | the inner loop over the columns of one row, visit by visit in order: it keeps the grid square and only sets unset cells; `RowPassForces` and `RowPassJustified` give its effect |
| Contiguous.WindowPass | ohhi.py:121-133 | the outer loop over the rows in order: square, and only sets unset cells; `RowScanForces` and `WindowPassJustified` give its effect |
| Contiguous.LinePass | ohhi.py:120-134 | `eliminate_contiguous_line`: square, and only sets unset cells; `LinePassForces`, `LinePassJustified` and `LinePassFrame` give its effect |
| Contiguous.Sweep | ohhi.py:74-102 | the scans of a list of windows, one after the other: square, and only sets unset cells |
| Contiguous.EliminateContiguous | ohhi.py:69-103 | `eliminate_contiguous`: the six scans of `Windows` in order, square, only setting unset cells |
| Contiguous.RowPassFrame | ohhi.py:122-133 | a row scan writes only the cells of that row it has visited |
| Contiguous.WindowPassFrame | ohhi.py:121-133 | a window scan writes only cells of the rows it has visited |
| Contiguous.LinePassFrame | ohhi.py:120-134 | `eliminate_contiguous_line` leaves every cell outside `rows × cols` as it was |
| Contiguous.RowPassGrows | ohhi.py:122-133 | a longer row scan only sets further unset cells of a shorter one |
| Contiguous.WindowPassGrows | ohhi.py:121-133 | a longer window scan only sets further unset cells of a shorter one |
| Contiguous.RowPassForces | ohhi.py:122-133 | an unset cell whose two neighbours are both `c` gets the other colour when the row scan visits it |
| Contiguous.RowScanForces | ohhi.py:121-133 | the same for the window scan up to that cell's row |
| Contiguous.LinePassForces | ohhi.py:126-133 | `eliminate_contiguous_line`: an unset cell in `rows × cols` whose two masked neighbours are both red ends blue, both blue ends red |
| Contiguous.JustifiedKept | ohhi.py:124-125 | a set cell whose neighbours hold the other colour keeps that property under further scans, which skip set cells |
| Contiguous.ForceJustified | ohhi.py:126-133 | a visit that writes its cell leaves both its neighbours holding the other colour |
| Contiguous.RowPassJustified | ohhi.py:122-133 | a cell the row scan sets lies in the scanned row and columns and is justified by its neighbours |
| Contiguous.WindowPassJustified | ohhi.py:121-133 | a cell the window scan sets lies in `rows × cols` and is justified by its neighbours |
| Contiguous.LinePassJustified | ohhi.py:120-134 | `eliminate_contiguous_line` sets a cell only inside `rows × cols`, and only to the colour opposite to both its masked neighbours |
| Contiguous.RowPassExtends | ohhi.py:122-133 | a row scan never contradicts a full grid that extends its input and has no run through the window |
| Contiguous.WindowPassExtends | ohhi.py:121-133 | a window scan never contradicts such a grid |
| Contiguous.SweepExtends | ohhi.py:74-103 | the six scans never contradict such a grid |
| Ohhi.Problem.EliminateAt | ohhi.py:123-133 | one visit of the inner loop: the new cells are `Force(old cells)`, and the flag is true exactly when the cell was written |
| Ohhi.Problem.EliminateRow | ohhi.py:122-133 | the inner loop: the cells become the row scan of the old cells, and the flag is true exactly when something changed |
| Ohhi.Problem.EliminateContiguousLine | ohhi.py:120-134 | the cells become `LinePass` of the old cells, and the result is true exactly when a cell was written |
| Ohhi.Problem.EliminateContiguous | ohhi.py:69-103 | the cells become `Contiguous.EliminateContiguous` of the old cells, and the result is true exactly when a cell changed |
| Ohhi.SixScans | ohhi.py:74-103 | the six scans in order compose to `EliminateContiguous`, and the grid changes exactly when one of the six line results is true |
| Ohhi.ForceStep | ohhi.py:122-133 | one visit extends the row scan by one column and keeps the flag exact |
| Ohhi.WindowStep | ohhi.py:121-133 | one finished row extends the window scan by one row and keeps the flag exact |
| Balance.Forced | ohhi.py:156-163 | the colour a line forces on its unset cells, when there is one, is a colour and never unset |
| Balance.BalanceLine | ohhi.py:152-167 | one line of `full_colour`: square, only sets unset cells; `BalanceLineEffect` gives its effect |
| Balance.BalanceAxis | ohhi.py:151-167 | one loop of `full_colour` over the lines `0 .. hi - 1` of an axis, in order: square, only sets unset cells; `BalanceAxisEffect` gives its effect |
| Balance.FullColour | ohhi.py:146-186 | `full_colour`: the row loop, then the column loop; square, only sets unset cells; `FullColourEffect` gives its effect |
| Balance.BalanceLineEffect | ohhi.py:152-167 | one line's treatment changes only that line, each unset cell to the forced colour and nothing else |
| Balance.BalanceAxisForced | ohhi.py:151-167 | treating the earlier lines of an axis leaves a line's counts, and so its forced colour, as in the input |
| Balance.BalanceAxisEffect | ohhi.py:151-167 | after a loop over lines `0 .. hi - 1`, a cell on one of them is what its own line's input counts force; every other cell is unchanged |
| Balance.FullColourEffect | ohhi.py:146-186 | `full_colour`: each row cell as its row's input counts force, then each column cell as its column's counts after the row loop force |
| Balance.BalanceLineExtends | ohhi.py:152-167 | treating a line never contradicts a full grid, extending the input, whose lines of that axis are balanced |
| Balance.BalanceAxisExtends | ohhi.py:151-167 | neither does a loop over the lines of an axis |
| Balance.FullColourExtends | ohhi.py:146-186 | `full_colour` never contradicts a full grid, extending the input, whose rows and columns are all balanced |
| Ohhi.Problem.FillUnset | ohhi.py:164-167 | the cells become the old cells with every unset cell of the line set to the new colour, and the result is true exactly when one was written |
| Ohhi.Problem.FullColourLine | ohhi.py:152-167 | the cells become `BalanceLine` of the old cells (the forced colour filled in, or nothing), and the flag is exact |
| Ohhi.Problem.FullColourAxis | ohhi.py:151-167 | the loop over the lines of one axis: the cells become `BalanceAxis` of the old cells, and the flag is exact |
| Ohhi.Problem.FullColour | ohhi.py:146-186 | the cells become `Balance.FullColour` of the old cells, and the result is true exactly when a cell was written |
| Ohhi.BalanceStep | ohhi.py:151-167 | one line extends the axis loop by one line and keeps the flag exact |
| Feasibility.Agree | ohhi.py:239-240 | the number of shared `(c1, c2)` places of two lines is at most the length scanned |
| Feasibility.AgreeSplit | ohhi.py:239-240 | a line's count of a colour splits into its places shared with red, blue and unset places of another line |
| Feasibility.AgreeSwap | ohhi.py:239-240 | shared places are symmetric in the two lines |
| Feasibility.AgreeZero | ohhi.py:239-240 | no shared `(c1, c2)` places means no such place exists |
| Feasibility.AgreeFull | ohhi.py:239-240 | on a full grid, no place is shared with an unset cell |
| Feasibility.AgreeSameLine | ohhi.py:239-240 | two equal lines share exactly as many places of a colour as either holds |
| Feasibility.AgreeNarrowed | ohhi.py:239-240 | setting cells never lowers the number of shared places |
| Feasibility.Duplicate | ohhi.py:239-244 | the duplicate test of two lines: at least `n // 2` shared red places or at least `n // 2` shared blue places; `DuplicateMeansSame` gives its meaning |
| Feasibility.LineViolation | ohhi.py:219-247 | the four checks for one line: more than `n // 2` reds, more than `n // 2` blues, a run of three set cells, or a duplicate among the later lines of the axis |
| Feasibility.Evaluate | ohhi.py:217-282 | the state `check_feasibility` leaves: infeasible on any violation, else solved when every cell is set, else unchanged; `SolvedIffValid` relates it to `ValidSolution` |
| Feasibility.DuplicateMeansSame | ohhi.py:241-244 | on a full balanced grid, two lines sharing `n // 2` red or blue places are equal |
| Ohhi.Problem.LineViolated | ohhi.py:219-247 | the checks for one line (too many reds, too many blues, a run of three set cells, a later duplicate line) fire exactly when `LineViolation` holds |
| Ohhi.Problem.CheckFeasibility | ohhi.py:217-282 | cells untouched; the state becomes infeasible on any row or column violation, otherwise solved when every cell is set, otherwise it stays as it was |
| Feasibility.SolvedIsValid | ohhi.py:279-282 | for even `n`, a grid the evaluator declares solved has every row and column at `n / 2` of each colour, no run of three and no two equal lines |
| Feasibility.ExtendableNoViolation | ohhi.py:241-244 | no check of the evaluator fires on a grid that a valid solution extends |
| Feasibility.SolvedIffValid | ohhi.py:217-282 | for even `n`, the evaluator declares a grid solved exactly when it is a valid solution |
| Search.FirstUnsetFrom | ohhi.py:291-294 | the scan from `(r, c)` finds an unset cell with no unset cell between `(r, c)` and it, or reports that none is left |
| Search.FirstUnset | ohhi.py:285-294 | the first unset cell in row-major order, none exactly when every cell is set |
| Ohhi.Problem.GetUndecidedCell | ohhi.py:290-294 | the nested loops return `FirstUnset` of the cells |
| Ohhi.Problem.Choose | ohhi.py:305-309 | a fresh problem with the same size and state and the cells equal to this one's except `(r, c)`, which is `colour`; this problem is not modified |
| Search.Cycle | ohhi.py:321-323 | one iteration of `refine`'s loop only sets unset cells |
| Search.RefineCells | ohhi.py:319-323 | `refine`'s loop terminates and only sets unset cells |
| Search.RefineIsFixpoint | ohhi.py:319-323 | once `refine` stops, one more pass of either propagator, or of both, changes nothing |
| Search.RefineExtends | ohhi.py:319-323 | propagation never contradicts a valid solution that extends its input |
| Ohhi.RefineStep | ohhi.py:319-323 | a cycle that reports a change strictly lowers the number of unset cells; one that reports none has reached the fixpoint |
| Ohhi.Problem.RefineCycle | ohhi.py:321-323 | the cells become `Cycle` of the old cells, and the flag is true exactly when a cell changed |
| Ohhi.Problem.Propagate | ohhi.py:319-323 | the loop ends with the cells at `RefineCells` of the old cells |
| Ohhi.Problem.Refine | ohhi.py:312-324 | the cells become `RefineCells` of the old cells, and the state becomes what the evaluator gives for them |
| Search.SolveSpec | ohhi.py:327-364 | the result of `solve` only sets unset cells of the input |
| Search.SolveSpecStops | ohhi.py:348-350 | when the refined problem is solved or infeasible, `solve` returns it as it is |
| Search.SolveSpecBranches | ohhi.py:353-364 | otherwise it branches on the first unset cell of the refined grid, returning the red branch if that is solved and the blue branch otherwise |
| Search.SolveConcludes | ohhi.py:331-333 | `solve` always ends solved or infeasible |
| Search.SolveSound | ohhi.py:348-364 | for even `n`, a solved result is a valid solution that keeps every cell of the input |
| Search.ValidNoRun | ohhi.py:74-102 | a valid solution has no run of three along any of the six windows |
| Search.ValidNoRunColumns | ohhi.py:74-87 | the same for the three column windows |
| Search.ValidNoRunRows | ohhi.py:89-102 | the same for the three row windows |
| Search.NarrowedToward | ohhi.py:355-364 | choosing a cell's colour in a solution keeps that solution an extension |
| Search.SolveComplete | ohhi.py:335-346 | for even `n`, whenever a valid solution extends the input, `solve` ends solved |
| Search.SolveInfeasibleIffNoSolution | ohhi.py:331-333 | for even `n` and an unsolved input, `solve` ends infeasible exactly when no valid solution extends the input |
| Ohhi.SolveChoice | ohhi.py:356-357 | one branch: solving a copy with the unset cell set to `colour` gives `SolveSpec` of that grid, solved or infeasible |
| Ohhi.Solve | ohhi.py:327-364 | final cells and state equal `SolveSpec` of the input; the state is solved or infeasible; the argument is left with the cells `RefineCells` of its old cells and the state the evaluator gives for them |
| CpSpec.SubseqLength | cp_solver.py:62-66 | removing values never lengthens a domain, and removing none leaves it equal |
| CpSpec.SubseqTrans | cp_solver.py:62-66 | removing values twice is removing values |
| CpSpec.SingletonSubseq | cp_solver.py:98-100 | a value taken from a domain, alone, is a narrowing of that domain |
| CpSpec.ShrinksTrans | cp_solver.py:62-66 | narrowing domains twice is narrowing them |
| CpSpec.ShrinksSize | cp_solver.py:62-66 | narrowing never raises the total domain size, and any change lowers it strictly |
| CpSpec.SizeUpdate | cp_solver.py:40 | replacing one domain changes the total size by the difference of the two lengths |
| CpSpec.Cycle | cp_solver.py:18 | one evaluation of `any(...)`: the constraints in order, stopping at the first that changes the domains; `CycleQuiet`, `CycleShortCircuits` and `CycleShrinks` give its meaning |
| CpSpec.Propagate | cp_solver.py:16-18 | `propagate_constraints`: cycles until one reports no change, terminating on the total size; `PropagateFixpoint` gives its meaning |
| CpSpec.CycleQuiet | cp_solver.py:16-18 | a cycle reports no change exactly when every constraint was applied and changed nothing; the domains are then as they were |
| CpSpec.CycleShortCircuits | cp_solver.py:18 | a cycle that reports a change stops at the first constraint that makes one, and every earlier constraint changed nothing |
| CpSpec.CycleShrinks | cp_solver.py:10-18 | with narrowing constraints, a cycle narrows, reports a change exactly when the domains differ, and then lowers the total size |
| CpSpec.PropagateFixpoint | cp_solver.py:16-18 | `propagate_constraints` ends at domains that no constraint changes, and only narrows its input |
| CpSolver.Problem.ApplyCycle | cp_solver.py:18 | the domains and the reported flag are what `Cycle` gives for the old domains |
| CpSolver.Problem.PropagateConstraints | cp_solver.py:16-18 | the loop ends with the domains at `Propagate` of the old domains |
| CpSpec.FirstUndecidedFromSpec | cp_solver.py:25-27 | the scan from `i` returns an undecided variable with every one between `i` and it decided, or none when all from `i` on are decided |
| CpSpec.FirstUndecidedSpec | cp_solver.py:25-27 | `get_undecided_variable`: the first variable whose domain has more than one value, or none when every variable is decided |
| CpSpec.FirstUndecided | cp_solver.py:25-27 | `get_undecided_variable` as a function; `FirstUndecidedSpec` gives its meaning |
| CpSolver.Problem.GetUndecidedVariable | cp_solver.py:25-27 | the loop returns `FirstUndecided`: an undecided variable with every earlier one decided, or none when all are decided |
| CpSpec.FixShrinks | cp_solver.py:99-101 | fixing an undecided variable strictly lowers the total size; fixing it to one of its values only narrows |
| CpSpec.Fix | cp_solver.py:38-40 | the domains of `fix_variable`: the pivot reduced to `[value]`; `FixShrinks` gives its effect on the size |
| CpSolver.Problem.FixVariable | cp_solver.py:38-42 | a fresh problem with the same state, whose pivot domain is `[value]` and every other domain unchanged; this problem is not modified |
| CpSpec.SolveStops | cp_solver.py:89-92 | when the evaluator finds the propagated problem solved or infeasible, `solve` returns it without branching |
| CpSpec.SolveSpec | cp_solver.py:89-106 | `solve` as a function: propagate, evaluate, stop if solved or infeasible, fail when no variable is undecided, else `Branches` over the first undecided variable |
| CpSpec.Branches | cp_solver.py:97-106 | the loop over the pivot's values from the `k`-th on: the first solved or failed branch, or the last value's branch |
| CpSpec.SolveTerminal | cp_solver.py:71-73 | a problem `solve` returns is solved or infeasible |
| CpSpec.BranchesTerminal | cp_solver.py:99-106 | any branch result the loop returns is solved or infeasible |
| CpSpec.SolveShrinks | cp_solver.py:62-66 | the returned domains only narrow the input domains |
| CpSpec.BranchesShrink | cp_solver.py:99-106 | the domains any branch returns only narrow the domains it branched from |
| CpSpec.BranchesFirstSolved | cp_solver.py:99-103 | values are tried in domain order: when branches `k .. m - 1` return unsolved and branch `m` is solved or raises, branch `m` is the answer |
| CpSpec.BranchesNoneSolved | cp_solver.py:99-106 | when no branch is solved, the last value's branch is returned |
| CpSolver.Solve | cp_solver.py:89-106 | the returned domains and state, or the error, equal `SolveSpec` of the input; a returned state is solved or infeasible; the argument is left with the domains `Propagate` of its old domains and the state the evaluator gives for them |
| CpSolver.SolveBranches | cp_solver.py:97-106 | the loop over the pivot's values returns what `Branches` describes |

## Left out

- `read_problem`, `print_problem` and the command line (ohhi.py:16-46, 367-381): file and console I/O. The squareness that `read_problem` asserts is the invariant `Square(cells, size)` of `Ohhi.Problem`.
- The printing in `choose` and `fix_variable`, and the `report` helper of `check_feasibility`: console output only, with no effect on the problem.
- The differences between Python 2 and Python 3 syntax in the two files, which do not change behaviour.
- The evaluator's checks are written one line at a time, in `Ohhi.Problem.LineViolated`. The source collects each line as a list and compares its `zip` with the later lines. Both compute the same counts.
- Floor division `n // 2` matches Dafny's `/` because `n` is never negative. The soundness and completeness lemmas need `n` even, which a 0hh1 grid always is. For odd `n`, no full line can hold `n / 2` cells of each colour.
- The cell grid is a map, not a 2-D array. This mirrors the source's dictionary keyed by `(row, col)`, and a missing key becomes a proof obligation instead of a `KeyError`.
- The helper methods and lemmas introduced to split loops are structure only, not extra operations of the source. Examples are `EliminateRow`, `EliminateAt`, `FillUnset`, `FullColourAxis`, `Propagate`, `RefineCycle`, `SolveChoice`, `ApplyCycle` and `SolveBranches`.
- CpSolver.Problem.ApplyCycle: a constraint's returned flag is modelled as "its result differs from its input". A Python callback could report a change it did not make, or hide one it made. The model does not capture such callbacks.
- CpSolver.Problem.PropagateConstraints: constraints are pure functions from domains to domains, required to only remove values, as the source's contract for them says. A constraint that breaks that contract, and so might never stop changing, is not modelled.
- The evaluator of `solve` is a pure function of the domains and the state. It can change only the state, not the domains, and its effect on other problem fields is not modelled.
- The extra fields a CP problem may carry for its constraints and evaluator are not modelled.
- The order of the CP `variables` dictionary is modelled as the order of the domain sequence.
- CpSolver.Problem.FixVariable: the source stores the bare `value` as the pivot's new domain. The model stores the one-value domain `[value]`, which is how the driver reads an element whose length is 1.
- Aliasing: `fix_variable` copies the variables dictionary shallowly, so the domain objects are shared between a problem and its branches. A constraint that mutates a domain object in place would also change the parent problem's domains. The model gives every branch its own domain values.
- When `solve` finds the state unsolved but no undecided variable is left, Python raises on `domain = problem['variables'][None]`. The model returns `Failure(NoUndecidedVariable)`, and that failure ends every enclosing call, as the exception does.
