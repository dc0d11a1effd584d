# cpropep: the verified bookkeeping of a propellant equilibrium program

cpropep computes the chemical equilibrium of a burning rocket propellant and the resulting
rocket performance, by the minimisation of Gibbs energy of Gordon and McBride (NASA SP-273).
This project models the discrete and exact-arithmetic parts of that program in Dafny and proves
what they compute:

- **the product catalog** (equilibrium.c), module `Equilibrium`:
  - `list_element` collects the propellant's elements;
  - `list_product` filters the thermo database into gas and condensed candidate lists;
  - `remove_condensed` and `include_condensed` edit the active prefix of the condensed list;
  - the small lookups (`temperature_check`, `product_element_coef`, `propellant_element_coef`,
    `thermo_search`) live in module `Species`, beside the database records and capacities;
- **the assembly of the Newton system** `fill_matrix` (module `Assembly`), the bordered matrix of
  element potentials, condensed species and the change of ln n;
- **the thermodynamic derivative systems** of derivative.c (module `Derivative`) and of the later
  library version lib/derivative.c (module `LibDerivative`), their solution and the mixture
  specific heat;
- **the dense solvers** over exact reals:
  - the Doolittle LU of libnum.c and its `gauss` and `round` (module `LibNum`);
  - the column-major LU of lu.c (module `FlatLu`);
  - `NUM_lu` and `NUM_matscale` of src/lu.c (module `NumLib`);
  - all of them proved against the one specification of module `Linear`: the Doolittle factors,
    L·U = A, forward and back substitution, and A·x = b;
- **the performance helpers** of performance.c (module `Performance`): the save-and-restore
  wrappers, the frozen specific heat, the capped `compute_temperature` iteration and the initial
  frozen Cp/Cv;
- **the record loaders** of load.c (module `Load`): `trim_spaces`, the fixed-column field rules of
  `load_thermo` and the line loop of `load_propellant`;
- **the problem-file reader** `load_input` of cpropep.c (module `Input`): a line-driven state
  machine over two sections.

Modelling conventions:

- A C `double` or `float` is an exact `real`, and a C `int` is an unbounded `int`.
- A division goes through `Numeric.Quot`, which is 0 for a zero divisor. Every property of a
  quotient is stated for a nonzero divisor.
- The thermodynamic functions (`gibbs0`, `gibbs`, `enthalpy_0`, `specific_heat_0`, the product
  entropy and enthalpy, `exp(log t + d)`, the molar mass of a propellant) are given functions,
  passed in as parameters.
- Strings are the characters before the terminating NUL. `atoi` and `atof` are given functions
  of the C string they read (`Load.Readers`). The numbers `sscanf` reads from an option line are
  a given function of the line (`Input.Scanner`).
- What the source mutates is mutated in the model, and each such method is proved against a
  function of its inputs. This covers the product and element buffers, the composition, the
  matrices, the solution vectors, the character buffer of `trim_spaces`, the propellant list and
  the derivative records.

## Model

| member | source | states |
|---|---|---|
| Numeric.Quot | derivative.c:125-127 | a C quotient: q * b == a whenever the divisor b is nonzero |
| Numeric.Trunc | libnum.c:356 | the C conversion of a double to int truncates toward zero: 0 <= t <= x < t + 1 for x >= 0, and t - 1 < x <= t <= 0 for x < 0 |
| Numeric.CRem2 | libnum.c:363 | C's t % 2 takes the sign of the dividend: it is in 0..1 for t >= 0 and in -1..0 for t < 0, and t minus it is even |
| Species.StateIndex | equilibrium.h:52-54 | GAS is state 0 and CONDENSED is state 1, both below STATE_LAST |
| Species.TemperatureCheckFacts | equilibrium.c:160-170 | true iff some interval i in 0..3 has range[i].0 <= T < range[i].1; all four intervals are checked, whatever nint says |
| Species.ProductElementCoefFacts | equilibrium.c:642-651 | the coefficient of the first of the 5 slots holding the element, and 0 when no slot holds it |
| Species.PropellantElementCoefFacts | equilibrium.c:653-662 | the coefficient of the first of the 6 slots holding the element, and 0 when no slot holds it |
| Species.LookupFacts | equilibrium.c:642-662 | the slot scan gives the coefficient of the first slot from k on holding the element, and 0 when none does |
| Species.LookupNonzero | equilibrium.c:642-662 | a nonzero coefficient is found only at a slot that holds the element |
| Species.SearchFrom | equilibrium.c:283-288 | the first index from k on whose name starts with the string, or -1 exactly when there is none |
| Species.ThermoSearch | equilibrium.c:277-289 | the first database index whose name starts with the string (strncmp over strlen), and -1 exactly when no name does |
| Species.EmptySearch | equilibrium.c:285 | the empty string is a prefix of every name, so it finds species 0 |
| Equilibrium.Product.constructor | equilibrium.c:541-565 | a fresh product with no species of either state, and every one of its 300 id slots per state set to -1 |
| Equilibrium.Equilibrium.constructor | equilibrium.c:567-598 | no components, no product species, no elements, and all 100 element slots set to -1 |
| Equilibrium.Equilibrium.SetState | equilibrium.c:626-630 | T and P take the given values and nothing else changes |
| Equilibrium.Equilibrium.MixOf | equilibrium.c:675-809 | the view `fill_matrix` takes of an equilibrium_t: its listed elements, the first n[GAS] and n[CONDENSED] product ids and amounts, the composition's components, n, T and P; its size is n_element + n[CONDENSED] + 1, and it is well formed exactly when every id names a record of its database |
| Equilibrium.Equilibrium.MixOfActive | equilibrium.c:675-809 | the condensed species and amounts `fill_matrix` reads are the product's active condensed list, the list `remove_condensed` purges |
| Equilibrium.Equilibrium.AddInPropellant | equilibrium.c:633-639 | the components become the old ones followed by (sp, mol): slot ncomp of both arrays is written and ncomp grows by one |
| Equilibrium.SlotCandidates | equilibrium.c:412-416 | an element is met in the first j slots of a propellant iff some such slot has a nonzero coefficient and holds it |
| Equilibrium.CandidatesMembers | equilibrium.c:410-416 | an element is met by `list_element` iff some component of the composition has a slot with a nonzero coefficient for it |
| Equilibrium.Equilibrium.DiscoverOne | equilibrium.c:417-427 | the search over k = 0..n either stops at a slot already holding t or appends t at slot n and counts it |
| Equilibrium.DiscoverFacts | equilibrium.c:417-427 | the entries found so far are distinct, there are at most as many as slots, and each is an element that was met |
| Equilibrium.DiscoverBound | equilibrium.c:417-431 | while fewer distinct elements are met than there are slots, the count never reaches the capacity |
| Equilibrium.DedupFacts | equilibrium.c:404-431 | the first-occurrence list holds each met element exactly once, so its length is the number of distinct elements |
| Equilibrium.DiscoverFresh | equilibrium.c:404-431 | over slots all -1 and element numbers >= 0, the list found is exactly the distinct elements in order of first discovery and later slots stay -1 |
| Equilibrium.Equilibrium.ListComponent | equilibrium.c:412-429 | the slot loop of one component extends the element list by that propellant's slots, as the discovery function states |
| Equilibrium.Equilibrium.ListComponents | equilibrium.c:410-430 | the component loop leaves the element array and count that discovery over all components in order gives |
| Equilibrium.Equilibrium.ListElement | equilibrium.c:404-440 | the element array and n_element are those of discovery over the composition, the return value is n_element, and T, P and n are unchanged |
| Equilibrium.CheckFormable | equilibrium.c:452-466 | the subset test passes iff every slot with a nonzero coefficient holds an element of the list, the search breaking off at the first missing one; with an empty element list the loop never runs and every species passes |
| Equilibrium.KeptFacts | equilibrium.c:450-481 | index x is kept for a state iff x is below j, the species is formable from the elements, exists at T and has that state; the kept indices ascend |
| Equilibrium.Product.Append | equilibrium.c:474-475 | species[st][n[st]] = j and n[st] grows by one; the other state is untouched |
| Equilibrium.Product.ConsiderSpecies | equilibrium.c:452-479 | a species is appended to the buffer of its state iff it passes both tests; otherwise nothing changes |
| Equilibrium.Product.ListStep | equilibrium.c:450-481 | one database index carries the loop invariant: the counts and id buffers are the old ones overlaid with the kept indices so far |
| Equilibrium.Product.ListSpecies | equilibrium.c:450-481 | after the species loop each state's buffer holds the kept indices after its old entries, and the count is the number added |
| Equilibrium.Product.InitAmounts | equilibrium.c:495-504 | every gas amount becomes 0.1 / n[GAS] and every condensed amount 0; slots beyond the counts are untouched |
| Equilibrium.Equilibrium.ListProduct | equilibrium.c:442-515 | the buffers hold the species kept under the element list and T, split by state, the return value is how many were added, and the amounts are initialised as above |
| Equilibrium.Shift | equilibrium.c:828-832 | the shift loop: ids[j] = ids[j + 1] for i <= j < m, every other slot unchanged |
| Equilibrium.Product.ShiftDown | equilibrium.c:828-832 | the condensed id buffer becomes its shift and the gas buffer is untouched |
| Equilibrium.RemoveScan | equilibrium.c:819-838 | the scan as written: at each position with a non-positive amount the ids shift down and the count drops, then the scan moves on to the next position |
| Equilibrium.RemoveScanNone | equilibrium.c:819-841 | nothing is removed iff every active amount from i on is positive, and then ids and count are unchanged |
| Equilibrium.RemoveScanCount | equilibrium.c:819-838 | each removal takes exactly one off the active count, and the slots from the old count on and those below i are untouched |
| Equilibrium.RemoveScanSkips | equilibrium.c:819-838 | two adjacent active species with zero amounts: only the first is removed, and the last active slot gets a copy of the first inactive id |
| Equilibrium.Product.RemoveCondensed | equilibrium.c:813-841 | the condensed ids and count are those of the scan; the return value is 1 iff something was removed, *size and *n drop by the number removed, and the gas buffer is untouched |
| Equilibrium.PurgeCounts | equilibrium.c:819-838 | the intended removal keeps each (species, amount) pair with a positive amount as often as it occurs, and drops every other pair |
| Equilibrium.PurgePositive | equilibrium.c:819-838 | every pair kept has a positive amount, and nothing is removed iff all amounts are positive |
| Equilibrium.PurgeConcat | equilibrium.c:819-838 | the removal distributes over concatenation, so the kept pairs keep their order |
| Equilibrium.Product.RemoveCondensedIntended | equilibrium.c:813-841 | the corrected `remove_condensed` on the product: the active condensed species become exactly Purge of the old active (id, amount) pairs, the inactive species move down by the number removed, the return value is 1 iff something was removed, *size and *n drop by that number, and the gas buffers are untouched |
| Equilibrium.Product.Row | equilibrium.c:813-841 | the condensed (id, amount) pairs of a slot range, slot by slot |
| Equilibrium.Product.Install | equilibrium.c:826-834 | the active slots receive the kept pairs, followed by the inactive ones, and the active count becomes the number kept |
| Equilibrium.Product.WriteRow | equilibrium.c:826-834 | the first slots of the condensed buffers take the given ids and amounts; every other slot and the gas buffers keep theirs |
| Equilibrium.CondensedMargin | equilibrium.c:856-863 | the margin gibbs0(sp, T) minus the sum over the elements of sol[k] times the atoms of element k in sp |
| Equilibrium.MarginsAt | equilibrium.c:854-866 | entry q of the margin list of positions lo..hi is the margin of the species at position lo + q |
| Equilibrium.BestFacts | equilibrium.c:854-866 | the strict minimum search starting from 0: -1 iff no margin is negative; otherwise the first index of the smallest margin, which is negative |
| Equilibrium.Swap | equilibrium.c:874-877 | the entries at a and b trade places and every other entry stays |
| Equilibrium.Product.Exchange | equilibrium.c:874-877 | species[C][a] and species[C][b] trade places; the gas buffer is untouched |
| Equilibrium.Product.IncludeCondensed | equilibrium.c:843-891 | with no negative margin among the inactive species it returns 0 and changes nothing; otherwise it swaps the first species of least margin into position n[C], activates it, sets *size to n_element + n[C] + 1 and returns 1 |
| Assembly.GasMoles | equilibrium.c:681-683 | mol is the sum of the gas amounts |
| Assembly.PairTotal | equilibrium.c:691-696 | the element block entry: the sum over gas species of a(j,q) a(i,q) n_q |
| Assembly.GasAtoms | equilibrium.c:714-718 | the sum over gas species of a(j,q) n_q, as the ln n column and row use it |
| Assembly.GibbsAtoms | equilibrium.c:725-731 | the sum over gas species of a(j,q) n_q g_q |
| Assembly.ActiveAtoms | equilibrium.c:734-738 | b_j: the atoms of element j over the active gas and the condensed species |
| Assembly.PropellantAtoms | equilibrium.c:743-746 | b_j of the composition: the atoms of element j over the components, by their moles |
| Assembly.ElementRhs | equilibrium.c:723-751 | the element right-hand side: the Gibbs sum, less b_j, plus the b_j of the composition |
| Assembly.GasGibbsTotal | equilibrium.c:797-803 | the sum over gas species of n_q g_q |
| Assembly.CellValue | equilibrium.c:686-806 | the value `fill_matrix` writes into a given written cell |
| Assembly.FillColumn | equilibrium.c:702-709 | column c of rows r0..r1-1 gets its cell values and nothing else changes |
| Assembly.FillBlock | equilibrium.c:754-771 | a block of columns gets its cell values and nothing else changes |
| Assembly.ElementRows | equilibrium.c:686-751 | rows 0..E-1 hold the element block, the condensed columns, the ln n column and the right-hand side; later rows are untouched |
| Assembly.CondensedRows | equilibrium.c:753-779 | the condensed rows hold the element coefficients, zeros over the condensed columns and the ln n column, and gibbs on the right; other rows are untouched |
| Assembly.LnRow | equilibrium.c:781-806 | the ln n row holds the gas atom sums, mol - n on the diagonal and n - mol + the Gibbs sum on the right; its condensed columns are left as they were |
| Assembly.FillMatrix | equilibrium.c:675-809 | every written cell holds its value, the never-written cells of the ln n row keep their old contents, the condensed block and the condensed rows at column s-1 are 0, and when the never-written cells were 0 the square part is symmetric |
| Assembly.PairSymmetric | equilibrium.c:691-697 | the element block entry (j, i) equals entry (i, j) |
| Assembly.Symmetric | equilibrium.c:686-794 | the coefficient part, with the never-written cells read as 0, is symmetric |
| Derivative.EnthalpyAtoms | derivative.c:162-171 | the element right-hand side of the temperature fill is minus the sum over gas species of a(j,k) n_k H_k |
| Derivative.EnthalpyLoss | derivative.c:177-182 | the ln n right-hand side of the temperature fill is minus the sum of n_k H_k |
| Derivative.TemperatureRhs | derivative.c:162-182 | the right-hand-side column gets, row by row, the temperature right-hand sides (condensed rows -H_c) and the square part is untouched |
| Derivative.PressureRhs | derivative.c:203-224 | the right-hand-side column gets the pressure right-hand sides: sum of a(j,k) n_k, then 0, then the sum of n_k; the square part is untouched |
| Derivative.FillTemperatureDerivative | derivative.c:148-185 | every cell of the s x (s + 1) block is that of `fill_matrix`, with the ln n diagonal 0 and the temperature right-hand sides in column s |
| Derivative.FillPressureDerivative | derivative.c:189-227 | as the temperature fill with the pressure right-hand sides, and each element right-hand side equals the ln n column entry of its row |
| Derivative.Refill | derivative.c:87-108 | filling for one variable after filling for the other leaves what a single fill gives, so the reused matrix holds no trace of the first system |
| Derivative.SystemIsBuilt | derivative.c:148-227 | a matrix holding the cells of a fill over storage with any prior contents is the derivative system over those contents |
| Derivative.GapOnly | derivative.c:80-82 | the prior contents of the `malloc`ed rows enter the system only at the cells no fill writes (the ln n row at the condensed columns); storage holding 0 there gives the system of zeroed storage |
| Derivative.BuiltSymmetric | derivative.c:148-227 | over zeroed storage each derivative system has a symmetric coefficient part |
| Derivative.GapBreaksSymmetry | derivative.c:80-82 | over storage that is not zeroed, as `malloc` gives it, a system with one condensed species and no elements is not symmetric |
| Derivative.GasEnthalpyAtoms | derivative.c:26-29 | the inner sum over gas species of a(i,j) n_j H_j |
| Derivative.MixtureSpecificHeat | derivative.c:17-60 | Cp/R is the sum of the six accumulations: element terms, condensed terms, the ln n term, the mixture Cp0, and n H^2 over the gas and over the condensed species |
| Derivative.GasEnthalpySum | derivative.c:41-45 | the sum over the gas species of n_j H_j/RT at the current temperature |
| Derivative.AddEnthalpySquares | derivative.c:50-58 | adds n_j (H_j/RT)^2 over the gas species and then over the condensed species |
| Derivative.SpecificHeatAtRest | derivative.c:17-60 | with a zero solution only the frozen part remains: Cp0 of the mixture plus the two n H^2 sums |
| Derivative.CpElementsZero | derivative.c:24-33 | with a zero solution the element terms vanish |
| Derivative.CpCondensedZero | derivative.c:35-39 | with a zero solution the condensed terms vanish |
| Derivative.TemperatureStep | derivative.c:87-106 | solves the temperature system filled over whatever the storage held; success iff every pivot of that system is nonzero, and then the solution solves the system, Cp/R is the specific heat of it and dlnV/dlnT = 1 + sol[idx_n] |
| Derivative.PressureStep | derivative.c:108-123 | refills the same storage for pressure and solves it; success iff every pivot of the pressure system over the original contents is nonzero, and then the solution solves it and dlnV/dlnP = sol[idx_n] - 1 |
| Derivative.Systems | derivative.c:77-123 | the two systems over one `malloc`ed matrix with any prior contents, filled and solved in turn: each succeeds iff its system over those contents has nonzero pivots, and then gives its solution and what it derives |
| Derivative.Deriv.Store | derivative.c:103-127 | cp and dlnV/dlnT change only on a temperature success, dlnV/dlnP only on a pressure success; cv = cp + n R dT^2 / dP, cp/cv and isex = -(cp/cv) / dP always |
| Derivative.Derivative | derivative.c:62-143 | for any prior contents of the `malloc`ed matrix, the record gets R times the specific heat and 1 + sol[idx_n] iff the temperature system over those contents has nonzero pivots, sol[idx_n] - 1 iff the pressure system has, and cv, cp/cv and isex from whatever it then holds |
| LibDerivative.TableSumsAgree | lib/derivative.c:200-205 | with A[j][k] the element coefficients, the table sums equal those of derivative.c |
| LibDerivative.CommonPart | lib/derivative.c:190 | the common fill leaves the given matrix contents |
| LibDerivative.TableEnthalpyLoss | lib/derivative.c:200-211 | the element right-hand side of the temperature fill is minus the sum of A[j][k] n_k H_k |
| LibDerivative.TableAtoms | lib/derivative.c:269-279 | the element right-hand side of the pressure fill is the sum of A[j][k] n_k |
| LibDerivative.TableRhsColumn | lib/derivative.c:199-229 | column idx_T gets the right-hand sides of the chosen fill (element rows, condensed rows -H_c or 0, the n row) and the square part is untouched |
| LibDerivative.FillTable | lib/derivative.c:168-232 | every cell of the block is the common part, with matrix[idx_n][idx_n] = 0 and the right-hand sides in column idx_T |
| LibDerivative.TableSystem | lib/derivative.c:237-299 | a matrix holding those cells is the library derivative system |
| LibDerivative.TableCellIsDerivCell | lib/derivative.c:182-197 | each cell of the library fill is the derivative.c cell with the same indices idx_cond, idx_n and idx_T |
| LibDerivative.TableBuiltIsBuilt | lib/derivative.c:168-299 | with the element-coefficient table the library builds the same systems as derivative.c over the same common part |
| LibDerivative.TableGasEnthalpy | lib/derivative.c:50-53 | the inner sum over gas species of A[i][j] n_j H_j |
| LibDerivative.TableMixtureSpecificHeat | lib/derivative.c:38-80 | Cp/R is the sum of its five accumulations: element terms, condensed terms, the n term, the mixture Cp0 and n H^2 over the gas only |
| LibDerivative.TableCpElementsAgree | lib/derivative.c:48-57 | the element terms agree with those of derivative.c |
| LibDerivative.SpecificHeatsDiffer | lib/derivative.c:38-80 | the library specific heat plus the condensed n H^2 sum is the derivative.c specific heat |
| LibDerivative.TableTemperatureStep | lib/derivative.c:113-131 | the temperature solve succeeds iff every pivot is nonzero, and then gives Cp/R and dV_T = 1 + sol[idx_n] of a solution of the system |
| LibDerivative.TablePressureStep | lib/derivative.c:133-148 | the pressure solve succeeds iff every pivot is nonzero, and then gives dV_P = sol[idx_n] - 1 of a solution |
| LibDerivative.TableSystems | lib/derivative.c:99-148 | the two library systems, each filled and solved, with what each success gives |
| LibDerivative.Properties.Store | lib/derivative.c:128-151 | Cp and dV_T only on a temperature success, dV_P only on a pressure success; Cv = Cp + n R dV_T^2 / dV_P and Isex = -(Cp/Cv) / dV_P always |
| LibDerivative.TableDerivative | lib/derivative.c:82-162 | the properties get R times the specific heat and 1 + sol[idx_n] iff the temperature system has nonzero pivots, sol[idx_n] - 1 iff the pressure system has, and Cv and Isex unconditionally |
| Linear.Factorisation | libnum.c:162-198 | with every pivot nonzero, L * U equals the square part of the matrix (unit lower L, upper U) |
| Linear.LowerSystem | libnum.c:201-210 | the forward values solve L * y = b for the right-hand-side column b |
| Linear.UpperSystem | libnum.c:212-226 | the back substitution values solve U * x = y |
| Linear.SubstitutionSolves | libnum.c:201-226 | with every pivot nonzero, x from the Doolittle factors solves A * x = b |
| Linear.BackSubstitutionSolves | libnum.c:115-124 | back substitution solves an upper triangular system with a nonzero diagonal |
| LibNum.DotLU | libnum.c:171-173 | tmp is the sum over s < m of L[j][s] * U[s][i] |
| LibNum.UColumn | libnum.c:165-177 | column i of U gets U[j][i] = A[j][i] minus the sum of L[j][s] U[s][i] for j <= i; earlier columns keep their values |
| LibNum.LColumn | libnum.c:179-197 | column i of L is computed iff U[i][i] != 0 or i is the last column; then L[j][i] = (A[j][i] - sum) / U[i][i] below the diagonal |
| LibNum.Factor | libnum.c:150-198 | the unit diagonal of L is set; success iff the pivots U[i][i], i < neq - 1, are nonzero, and then L and U are the Doolittle factors |
| LibNum.Forward | libnum.c:201-210 | y[i] is the forward substitution value of b = column neq |
| LibNum.DotUX | libnum.c:221-223 | the sum of U[i][j] x[j] for j > i (the j = i term reads the zeroed solution) |
| LibNum.Back | libnum.c:212-226 | success iff every pivot is nonzero, and then the solution is the back substitution of y; on failure the solution stays 0 |
| LibNum.Lu | libnum.c:130-235 | returns 0 or -1; 0 iff every pivot is nonzero, and then the solution solves A * x = b; on -1 the solution is 0; the matrix is only read |
| LibNum.ElimStep | libnum.c:73-106 | the elimination after k + 1 steps is one more step applied to that after k |
| LibNum.ElimZeros | libnum.c:96-105 | after k steps with nonzero pivots the first k columns are 0 below the diagonal |
| LibNum.ElimRowStable | libnum.c:96-105 | later steps leave row k as step k - 1 left it |
| LibNum.StepKeepsSolutions | libnum.c:96-105 | a solution of the system after a step solves the system before it |
| LibNum.ElimKeepsSolutions | libnum.c:73-106 | a solution of the eliminated system solves the original one |
| LibNum.EliminatedTriangular | libnum.c:73-112 | with nonzero pivots the eliminated matrix is upper triangular with a nonzero diagonal |
| LibNum.GaussSolves | libnum.c:64-127 | elimination followed by back substitution solves the original system |
| LibNum.EliminationStep | libnum.c:96-105 | one step: rows k + 1.. get row minus multiplier times row k, columns k..neq |
| LibNum.Eliminate | libnum.c:73-106 | the loop stops at the first zero diagonal (the row-exchange search never passes j = k) or after neq - 1 steps, holding the elimination so far |
| LibNum.BackSubstitute | libnum.c:108-125 | the solution is the back substitution of the eliminated matrix; entries beyond neq are untouched |
| LibNum.Gauss | libnum.c:64-127 | over storage of at least neq rows and neq + 1 columns: returns 0 or -1; -1 iff some diagonal entry is 0 when reached, leaving the solution unchanged; on 0 the solution solves the original system; cells outside the neq x (neq + 1) block are untouched |
| LibNum.NumTestSystem | num.c:51-66 | the 3 x 3 system num.c builds |
| LibNum.NumTestSingular | num.c:51-77 | its pivots are 4, -12.5 and 0, so `lu` returns -1, and it has two different solutions |
| LibNum.Round | libnum.c:354-364 | for a >= 0 the result is within 0.5 of a and a tie goes to the even neighbour; for a < 0 the result is always the truncation toward zero |
| FlatLu.Idx | lu.c:32 | entry (row r, column c) lies at r + neq * c, inside the block of neq + 1 columns |
| FlatLu.IdxInjective | lu.c:32 | different entries lie at different positions |
| FlatLu.IdxCovers | lu.c:76 | every position below neq * c is the position of an entry in the first c columns, so the block of neq + 1 columns, the right-hand side at i + neq * neq included, has no gaps |
| FlatLu.CellsIsProduct | lu.c:20-21 | the column-major block of c columns of n rows has n * c cells |
| FlatLu.DotLU | lu.c:38-40 | tmp is the sum over s < m of L[j][s] * U[s][i] in the flat layout |
| FlatLu.UColumn | lu.c:32-44 | column i of flat U holds the Doolittle U entries |
| FlatLu.LColumn | lu.c:46-65 | column i of flat L is computed iff U[i][i] != 0 or i is the last column |
| FlatLu.Factor | lu.c:23-66 | the unit diagonal is set; success iff the pivots are nonzero, and then flat L and U are the Doolittle factors |
| FlatLu.Forward | lu.c:69-77 | y[i] is the forward substitution value of b = matrix[i + neq * neq] |
| FlatLu.DotUX | lu.c:88-90 | the sum of U[i][j] x[j] for j > i, over the upper-triangular entries held in `u` and the solution entries already computed |
| FlatLu.Back | lu.c:79-103 | for any upper-triangular matrix held in `u` with right-hand side `y`: success iff every diagonal entry is nonzero, and then the solution is the back substitution; on failure it stays 0, and entries past neq are unchanged |
| FlatLu.DotLY | lu.c:70-73 | the sum of L[i][j] y[j] for j < i, over the lower-triangular entries held in `l` and the y entries already computed |
| FlatLu.Lu | lu.c:7-109 | returns 0 or -1; 0 iff every pivot is nonzero, and then the solution solves the column-major system; on -1 it is 0; the matrix is only read |
| NumLib.NumLu | src/lu.c:7-109 | `NUM_lu` has the body of lu.c and its contract: 0 iff every pivot is nonzero, A * x = b on 0, a zero solution on -1 |
| NumLib.Mag | src/lu.c:130 | the integer `abs` of a double: a nonnegative whole number v with v <= abs(x) < v + 1 |
| NumLib.RowMax | src/lu.c:126-132 | the scale of a row is the largest of those magnitudes over the square columns, and 0 when all are 0 |
| NumLib.ZeroScale | src/lu.c:128-137 | a row's scale is 0 iff every entry of its square part has magnitude below 1 |
| NumLib.ZeroRow | src/lu.c:124-137 | the first row from i on whose scale is 0, or neq when none is |
| NumLib.RowScale | src/lu.c:126-132 | the first loop computes the row's scale |
| NumLib.DivideRow | src/lu.c:139-140 | every entry of the row, the right-hand side included, is divided by the scale; the other rows are untouched |
| NumLib.ScalingKeepsSolutions | src/lu.c:139-140 | dividing rows by nonzero scales keeps exactly the same solutions |
| NumLib.ScaledSystem | src/lu.c:124-142 | when every row has a nonzero scale the scaled system has the solutions of the original |
| NumLib.MatScale | src/lu.c:116-144 | returns 0 iff no row has a zero scale; the rows before the first zero-scale row are divided by their scales and the later ones untouched; on 0 the solutions are kept |
| NumLib.TestMatrix | src/test.c:56-67 | the column-major system of the test program, with the integer divisions -2/3 = 0 and 5/2 = 2 |
| NumLib.TestSystemFails | src/test.c:56-72 | its leading entry is 0, so `NUM_lu` fails, although the system has a solution |
| Performance.ProductEntropyExit | performance.c:34-45 | the product entropy at (temp, pressure), with T and P of the equilibrium restored |
| Performance.ProductEnthalpyExit | performance.c:48-56 | the product enthalpy at temp, with T restored and P never touched |
| Performance.StateHeat | performance.c:63-72 | one state loop sums coef times Cp0(sp, temp) over the active species of that state |
| Performance.ProductSpecificHeat | performance.c:58-74 | the frozen Cp/R of the active gas and condensed species at the argument temp, not at e->T |
| Performance.HeatSumNonnegative | performance.c:58-74 | with nonnegative amounts and species heats the frozen Cp/R is nonnegative |
| Performance.FrozenCpIsOneSum | performance.c:58-74 | the two state loops are one sum over the gas species followed by the condensed ones |
| Performance.HeatSumConcat | performance.c:58-74 | a sum over two lists is the sum over the first plus the sum over the second |
| Performance.UpdatesFacts | performance.c:163-172 | between 1 and 8 updates; each update before the last had abs(delta ln T) >= 0.5e-4, and fewer than 8 means the last one was below it |
| Performance.FixedStart | performance.c:160-172 | a start with no entropy left to lose stops after exactly one update, at the start temperature |
| Performance.Update | performance.c:165-169 | delta ln T = (S_chamber - S(pressure, t)) / Cp(t), and the next temperature is exp(log t + delta) |
| Performance.ComputeTemperature | performance.c:150-175 | starts from e->T with the chamber entropy computed once, and returns the temperature after the number of updates the loop makes; e is left as it was |
| Performance.FrozenRatio | performance.c:113-114 | cp = R times the frozen Cp/R at e->T, and cp_cv = cp / (cp - n R) |
| Performance.RatioAboveOne | performance.c:113-114 | when 0 < n R < cp the ratio exceeds 1 and is cp / cv with cv = cp - n R |
| Load.Fgets | load.c:56 | the buffer holds the line and a NUL, and its bytes after them are the old ones |
| Load.Strncpy | load.c:62 | the window's C string padded with NULs to the window's length |
| Load.TrimEnd | load.c:338-351 | where `trim_spaces` puts its NUL: a position in 1..len |
| Load.ScanDownFacts | load.c:342-350 | the characters from the NUL to len - 1 are spaces, the one before it is not a space when it is past 1, and it is at 1 iff positions 1..len-1 are all spaces |
| Load.TrimmedString | load.c:338-351 | after trimming, the string is the characters before the NUL and does not end in a space past position 0 |
| Load.TrimSpaces | load.c:338-351 | exactly one NUL is written, at the trim position, and no other character changes |
| Load.ReadField | load.c:62-66 | a field is the trimmed C string of its strncpy window |
| Load.SymbolFrom | load.c:89-96 | the first symbol index from l on equal to the string, or -1 exactly when none is |
| Load.FindSymbol | load.c:89-96 | the search loop over the symbol table finds the first matching index, or -1 |
| Load.SlotElementFacts | load.c:89-96 | a changed slot holds the index of a matching symbol, and with no matching symbol the slot keeps its old value |
| Load.ThermoSlots | load.c:82-104 | the five slots get the element of their symbol columns and the truncated `atof` of their count columns |
| Load.StateColumn | load.c:107-110 | GAS iff column 51 holds '0', CONDENSED otherwise |
| Load.SameFormula | load.c:156-163 | the flag is set iff all five (elem, coef) pairs equal those of the previous record |
| Load.InheritedHeatFacts | load.c:154-167 | a nonzero heat is kept; at the first record the heat is kept; the heat changes only to the previous record's heat and only when the formulas match |
| Load.WrittenHeatAgrees | load.c:154-167 | for every record after the first, the inheritance as written is the guarded rule |
| Load.FirstRecordReadsBefore | load.c:154-167 | as written, a first record with a zero heat field and the formula of the record in front of the list takes that record's nonzero heat, where the guarded rule keeps 0 |
| Load.ReadHeader | load.c:59-167 | name, comments, id, nint (read through the stale tmp buffer), the slots, state, weight, and either the enthalpy (nint = 0) or the heat inherited as written from `thermo_list + i - 1` (for i = 0 the record in front of the list), all other fields unchanged |
| Load.ReadAssignedTemperature | load.c:136-141 | only the temperature of the assigned enthalpy changes, read from columns 1..10 |
| Load.ReadInterval | load.c:180-249 | interval j of a record gets its range, ncoef, eight exponents, dho and nine parameters from their columns; the other intervals and fields are unchanged |
| Load.ReadPropellant | load.c:292-326 | a propellant record: the trimmed name, the six slots, heat = truncation of atoi * 4.1868 and density = atof * 27.679905 |
| Load.LoadLineFacts | load.c:287-329 | a comment line changes only the buffer; a record line writes exactly the next slot of the list and counts it |
| Load.LoadStep | load.c:287-329 | one more line is one more line step and adds its record to the count |
| Load.LoadPropellant | load.c:264-335 | the count returned is the number of record lines and the list is the one the line steps give |
| Input.SkipSpacesFacts | cpropep.c:136 | the text after the leading spaces that `%s` skips: a suffix of the text, made of all but the leading spaces, starting with a non-space |
| Input.NonspacesFacts | cpropep.c:136 | the word `%s` reads: a prefix of the text, all non-space, ended by a space or by the end of the text |
| Input.WordFacts | cpropep.c:145 | a `%s` word exists iff the text has a non-space character, and it starts with the first character when that is not a space |
| Input.KeywordsChoose | cpropep.c:120-134 | TP, HP, FR, EQ and PE choose the five problems, and other text chooses none |
| Input.OptionLine | cpropep.c:120-137 | an option line sets the problem and T and P from the numbers read, keeping the section, the components and the quantity word |
| Input.Amount | cpropep.c:148-152 | the quantity word with its last character overwritten by '\n', as `atof` reads it |
| Input.ComponentLine | cpropep.c:143-163 | a '+' line adds at most one component and keeps the earlier ones |
| Input.Component | cpropep.c:152-162 | the component a '+' line adds: at most one, and none for a unit other than 'g' or 'm' |
| Input.AddComponent | cpropep.c:152-162 | the propellant composition grows by exactly the component the line states |
| Input.ComponentLineFacts | cpropep.c:143-163 | the species id is `atoi` of the text after '+', unit 'g' adds GRAM_TO_MOL of the amount, 'm' adds the amount, any other unit adds nothing |
| Input.PlusWord | cpropep.c:145-146 | the first word of a '+' line starts with '+' |
| Input.ReadLine | cpropep.c:105-176 | one line adds at most one component and keeps the earlier ones |
| Input.OptionSectionMoves | cpropep.c:111-117 | in the option section a blank-leading line changes nothing and a "Propellant" line only moves to the propellant section |
| Input.KeywordLine | cpropep.c:118-137 | an unknown keyword changes nothing; a keyword sets the problem and the state from its numbers |
| Input.PropellantSectionMoves | cpropep.c:165-171 | in the propellant section '#' lines and other lines change nothing, and a blank-leading line returns to the option section |
| Input.AddedGrows | cpropep.c:105-177 | the components read by a prefix of the lines are a prefix of those read by a longer prefix |
| Input.NoPropellantsNoComponents | cpropep.c:105-140 | a file that stays in the option section adds no components |
| Input.OptionStep | cpropep.c:109-140 | one option-section line changes the problem, T and P as the line function states, and no component |
| Input.ComponentStep | cpropep.c:143-163 | one '+' line appends to the composition exactly the component the line function adds |
| Input.LoadStep | cpropep.c:105-176 | one turn of the read loop keeps the reading state equal to the line function over the lines read so far, and the composition equal to the old one plus the components read |
| Input.LineStep | cpropep.c:105-176 | one line changes the state and appends the components as the line function states |
| Input.LoadInput | cpropep.c:92-179 | the problem, T and P are those the line function gives over the whole file, and the composition is the old one followed by every component read, in file order |

## Left out

- Floating point: doubles and floats are exact reals, so rounding, overflow, infinities and NaN are not modelled. `float` T and `R` are reals as well.
- Numeric.Quot: a division by zero is an IEEE infinity or NaN in C; the model gives it the value 0, and no property is claimed for that case.
- The `isnan` check of lu.c (lu.c:94-101) cannot fire over exact reals and is not modelled.
- The row exchange of `gauss` (libnum.c:80-88) is dead code: the search returns -1 at j = k whenever the diagonal is 0. It is modelled as the pivot test it amounts to.
- `matsol` (libnum.c:27-60) calls the foreign LAPACK routine `dgesv_` and is not part of this model.
- The thermodynamic functions, the mixture Cp0 (`mixture_specific_heat_0`), the product entropy and enthalpy, `exp`/`log` and the propellant molar mass are parameters. They are float formulas over tables.
- The equilibrium iteration `equilibrium()` is not part of this model. It is a damped Newton loop with float tolerances and restarts.
- `list_product` returns its buffers to the minimum size with `realloc` (equilibrium.c:484-493). The model keeps the fixed 300 slots per state, and buffer contents beyond the counts are left as they are.
- Equilibrium.Equilibrium.ListProduct and Equilibrium.Product.IncludeCondensed take the element list and T as values, read from the equilibrium by their caller.
- derivative.c indexes products as `e->p.species[j][GAS]`, transposed against the `species[state][j]` layout of equilibrium.h. The model reads "gas species j" through the product's lists as evidently meant.
- lib/derivative.c calls a three-argument `fill_matrix` whose source is not part of this model. Its result enters as the given `common` contents of the matrix, and only the cells the library fills overwrite are modelled. The table `p->A` is a parameter.
- The sound speed `Vson` of lib/derivative.c (lib/derivative.c:152) needs `sqrt` and is left out.
- `frozen_performance` is modelled only by its initial frozen Cp/Cv (Performance.FrozenRatio). The throat iteration (performance.c:121-140) uses `pow` and `sqrt` and need not terminate. The output lines are left out, as is `velocity_of_flow` (performance.c:177-184), which needs `sqrt`.
- Load.ReadHeader: follows load.c:154-167 as written, so for the first record it reads the record in front of the list (a parameter standing for whatever memory is there) instead of applying the guard i >= 1; the guarded rule is Load.InheritedHeat, with Load.InheritedHeatFacts and Load.WrittenHeatAgrees, and no method of the model applies it.
- Load.ReadHeader, Load.ReadAssignedTemperature and Load.ReadInterval model the field rules of one record's lines. The file loop of `load_thermo` that chains them (load.c:56-254) is not modelled as a whole. That loop includes the interval loop over j < nint with its end-of-file breaks, and an nint above 4 would write beyond the four intervals.
- The fixed capacities are preconditions where the source writes past them unchecked: Equilibrium.Equilibrium.ListElement requires fewer distinct elements than the 100 element slots, Equilibrium.Equilibrium.ListProduct and Equilibrium.Product.ListSpecies require the kept species to fit the 300 slots of their state, and Equilibrium.Equilibrium.AddInPropellant and Input.LoadInput require the components to fit MAX_COMP. What the source does beyond them (writing out of bounds) is not modelled.
- Neither loader checks the capacity of its list (MAX_THERMO, MAX_PROPELLANT). Load.LoadPropellant requires the list to hold every record line.
- The `sscanf` word buffers of `load_input` (`tmp[10]`, `num[10]`, `qt[10]`) overflow on words of 10 or more characters. The model reads words of any length.
- Input.ComponentLine: a '+' line without a quantity word, before any word was read, makes the source read `qt[-1]`. The model takes the character of the stale (then empty) word as no unit and adds nothing.
- File handling (`fopen`, `fclose`, end of file) and all printing are left out. Lines are given as a sequence, each as `fgets` stores it.
- `main` of cpropep.c (options, timing) is not part of this model.
- `abs`, `atoi`, `atof` and the `sscanf` number conversions are given functions, not parsers.
- Integer widths (`short` in lib/derivative.c, `int` elsewhere) are unbounded.

## Findings

| source | as written | input that shows it | evidently intended | confidence | as-written member | corrected member |
|---|---|---|---|---|---|---|
| equilibrium.c:819-838 | after removing the species at position i, the loop goes on to i + 1, so the species shifted into position i is never checked; the amounts are not shifted with the ids | two adjacent active condensed species with amount 0: ids [10, 20, 30], active count 2; only 10 is removed and 20 stays active | remove every active species whose amount is not positive, keeping each remaining species with its own amount, in order | not executed | Equilibrium.RemoveScanSkips | Equilibrium.PurgeCounts |
| derivative.c:80-82 | the matrix is obtained with `malloc`, and no fill writes the ln n row at the condensed columns, so those cells hold whatever the storage held | no elements and one condensed species over storage holding 1.0: cell (1, 0) of the ln n row is 1.0 but cell (0, 1) of the condensed row is 0 | the symmetric system of the derivative equations, with those cells 0 as in zeroed storage | not executed | Derivative.GapBreaksSymmetry | Derivative.BuiltSymmetric |
| load.c:154-167 | the heat-of-formation inheritance compares with record i - 1 without checking that i >= 1 | a first record (i = 0) with nonzero nint and heat 0.0 reads thermo_list[-1] | inherit only from an existing previous record | not executed | Load.FirstRecordReadsBefore | Load.InheritedHeatFacts |
