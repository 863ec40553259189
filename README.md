# Fibonacci-variant halo2 circuit, modelled in Dafny

This project models the one working circuit of the repository, the
"Fibonacci variant" chip of `src/fibonacci/example3.rs`, together with the
small graph records of `src/graph_traversal/example1/graph.rs`.

The circuit fills one advice column with the sequence
`x[i+3] = x[i]*x[i+1] + x[i+1]*x[i+2]` over a prime field. A single gate
`s * (a*b + b*c - d)` reads the advice column at rotations 0, 1, 2 and 3 and
is switched on by a selector. The three seeds are copied from rows 0 to 2 of
the instance column, and the last computed cell is bound to instance row 3.
The halo2 machinery is reduced to what the circuit relies on:

- `field.dfy` (module `Field`): field elements as integers reduced modulo the
  Pasta Fp modulus, with addition, multiplication and negation.
- `plonk.dfy` (module `Plonk`): gate polynomials as expression trees and their
  evaluation at a row. A `Table` class holds the advice column
  (`array<Option<Fe>>`, where `None` is an unassigned cell), the selector
  column (`array<bool>`) and the list of copy constraints. Its methods mirror
  the region calls the chip makes. `Satisfied` states what the mock prover
  demands of a finished table, and `Verify` checks it row by row.
- `fibonacci.dfy` (module `Fibonacci`): `configure` (the gate), `assign` (seed
  copies, selector enabling, the filling loop over the rolling
  `a_cell`/`b_cell`/`c_cell`), `expose_public` and `synthesize`. Each method is
  proved against specification functions: `Terms` (the filled column),
  `Iterate` (the rolling window after k steps) and `Selectors`.
- `satisfaction.dfy` (module `Satisfaction`): the table `assign` builds
  satisfies the circuit exactly when `nrows >= 4` and the bound output is the
  iterated recurrence. Conversely, any advice column that passes forces that
  output and agrees with the filled column on every row of the region. The two
  halves of the `fibonacci_example3` test are stated as lemmas.
- `graph.dfy` (module `Graph`): `Node` as a class whose property map is
  updated in place, `Edge` and `Graph` as values.
- `wrappers.dfy` (module `Wrappers`): `Option` and `Result`.

Where the model settles a point the code leaves to the halo2 library:

- The instance column has the table's height `n`. Inside it, the column is
  the public-input vector padded with zeros, as the mock prover pads it. A
  copy from or to an instance row at or past `n` fails with
  `NotEnoughRowsAvailable`, and a public input longer than `n` is refused
  before synthesis.
- A query of an unassigned cell, or of a row outside the table, on an active
  row is a failure, as the mock prover reports unassigned cells.
- `nrows - 3` is a `usize` subtraction. In a debug build it panics when
  `nrows < 3`; the loop body runs only when `nrows >= 2`, so the panic happens
  exactly for `nrows == 2`. The model returns `UsizeUnderflow` there.
- The region always writes rows 0 to 2, whatever `nrows` is. The returned
  cell is at row `max(3, nrows) - 1`.
- Row 0 of the selector is switched on unconditionally. A region shorter than
  four rows therefore never satisfies the gate: the window of row 0 reaches
  row 3, which is never assigned.

Three facts about the code shape the model:

- Row 0 of the selector is always enabled, even where the gate's window does
  not fit in the region.
- An instance row inside the table but past the public-input vector reads
  as zero, not as an error.
- This circuit raises no configuration error and no read-before-write
  error: each advice value is computed from cells already assigned.

## Model

| member | source | states |
|---|---|---|
| `Field.Neg` | src/fibonacci/example3.rs:53 | the negation used for `- d` is an additive inverse |
| `Field.AddNegZeroIff` | src/fibonacci/example3.rs:53 | `x + (-y)` is zero exactly when `x == y`, so the gate body vanishes exactly when `d` equals `a*b + b*c` |
| `Plonk.EvalDefinedIff` | src/fibonacci/example3.rs:48-53 | a gate polynomial has a value at a row exactly when every advice cell it queries from that row is assigned |
| `Plonk.InstanceAt` | src/fibonacci/example3.rs:73-94 | reading an instance row inside the table gives the public input at that index, or zero past the input's end |
| `Plonk.Table.constructor` | src/fibonacci/example3.rs:68-70 | a new table of `n` rows has nothing assigned, no selector on and no copy constraint |
| `Plonk.Table.EnableSelector` | src/fibonacci/example3.rs:71 | switching the selector on at a row succeeds exactly when the row is in the table, and changes only that row |
| `Plonk.Table.AssignAdvice` | src/fibonacci/example3.rs:102-107 | writing an advice cell succeeds exactly when the row is in the table, changes only that cell and returns it |
| `Plonk.Table.AssignAdviceFromInstance` | src/fibonacci/example3.rs:73-94 | copying an instance row into an advice row succeeds exactly when both rows are inside the table, and then writes the public value there and records the copy constraint |
| `Plonk.Table.ConstrainInstance` | src/fibonacci/example3.rs:125 | binding a cell to an instance row succeeds exactly when both rows are inside the table, and then appends exactly that copy constraint |
| `Plonk.Verify` | src/fibonacci/example3.rs:177-178 | the check returns true exactly when every active row's gate is zero and every copy constraint holds |
| `Fibonacci.Configure` | src/fibonacci/example3.rs:30-61 | the configured gate queries the advice column at rotations 0, 1, 2 and 3 and no others |
| `Fibonacci.GateValue` | src/fibonacci/example3.rs:48-53 | on a row with its four cells assigned, the gate evaluates to `s * (a*b + b*c - d)` |
| `Fibonacci.GateVanishesIff` | src/fibonacci/example3.rs:41-54 | on an active row the gate is zero exactly when the four cells are assigned and the fourth is the recurrence of the other three |
| `Fibonacci.GateIdleWhenOff` | src/fibonacci/example3.rs:48-53 | where the selector is off the gate is zero, whatever the assigned cells hold |
| `Fibonacci.TermsPrefix` | src/fibonacci/example3.rs:101-107 | filling further rows never changes the rows already filled |
| `Fibonacci.TermsRecurrence` | src/fibonacci/example3.rs:101-107 | every row `r >= 3` of the filled column holds `t[r-3]*t[r-2] + t[r-2]*t[r-1]` |
| `Fibonacci.TermsWindow` | src/fibonacci/example3.rs:101-111 | rows `j`, `j+1`, `j+2` of the filled column are the window after `j` steps of the recurrence |
| `Fibonacci.TermsLast` | src/fibonacci/example3.rs:109-114 | the last filled row holds the recurrence applied `k` times to the seeds |
| `Fibonacci.RecurrenceDetermines` | src/fibonacci/example3.rs:8 | any column that obeys the recurrence after its first three rows is the filled column for those seeds |
| `Fibonacci.SeedsColumn` | src/fibonacci/example3.rs:73-94 | writing the three seeds into a blank advice column gives the column filled up to row 3 |
| `Fibonacci.SelectorsFirst` | src/fibonacci/example3.rs:71 | enabling row 0 of a blank selector column starts the enabling loop's invariant |
| `Fibonacci.SelectorsStep` | src/fibonacci/example3.rs:95-99 | one pass of the enabling loop turns row `row` on exactly when `row < nrows - 3` |
| `Fibonacci.SelectorsDone` | src/fibonacci/example3.rs:95-99 | once the loop has passed `nrows`, the selector is on at row 0 and at every row `r` with `r + 3 < nrows` |
| `Fibonacci.ColumnStep` | src/fibonacci/example3.rs:101-107 | writing the window's next term at row `row` extends the filled column by one row |
| `Fibonacci.EnableSelectors` | src/fibonacci/example3.rs:95-99 | the enabling loop panics exactly when `nrows == 2`, fails exactly when a row to enable is past the table, and otherwise leaves the selector column as `Selectors(nrows)` |
| `Fibonacci.FillRows` | src/fibonacci/example3.rs:101-114 | the filling loop keeps the rolling cells on rows `row-3`..`row-1` as the window after `row-3` steps, fills the column from the seeds, and returns the last cell as the iterated recurrence |
| `Fibonacci.Assign` | src/fibonacci/example3.rs:63-117 | on a blank table, `assign` succeeds exactly when the table has 3 rows, `nrows != 2` and `nrows` fits; then it copies the three seeds, enables the selector on row 0 and where `r + 3 < nrows`, fills the recurrence, and returns the last cell |
| `Fibonacci.ExposePublic` | src/fibonacci/example3.rs:119-126 | binding the returned cell to an instance row succeeds exactly when both rows are inside the table, and then records that copy constraint |
| `Fibonacci.Synthesize` | src/fibonacci/example3.rs:144-155 | synthesis succeeds exactly when the table has six rows, and then holds six filled rows, selectors on rows 0 to 2, and the copies of the seeds and of row 5 to instance row 3 |
| `Satisfaction.AssignedGatesHoldIff` | src/fibonacci/example3.rs:95-99 | the table `assign` fills meets the gate on every active row exactly when `nrows >= 4` |
| `Satisfaction.SeedCopiesHold` | src/fibonacci/example3.rs:73-94 | the three seed copy constraints hold in the filled table |
| `Satisfaction.AssignedSatisfiedIff` | src/fibonacci/example3.rs:63-126 | the table `assign` fills, bound at an instance row, satisfies the circuit exactly when `nrows >= 4` and that row holds the recurrence applied `nrows - 3` times to the seeds |
| `Satisfaction.SynthesizedSatisfiedIff` | src/fibonacci/example3.rs:144-155 | the synthesized table passes exactly when instance row 3 holds the third term after the seeds |
| `Satisfaction.SatisfiedWindows` | src/fibonacci/example3.rs:41-54 | in any passing advice column, rows `k` to `k+2` hold the window after `k` steps from the public seeds |
| `Satisfaction.CircuitSound` | src/fibonacci/example3.rs:119-126 | whatever advice a prover supplies, the check passes only if the bound output is the iterated recurrence of the public seeds |
| `Satisfaction.WitnessUnique` | src/fibonacci/example3.rs:101-107 | any passing advice column agrees with the filled column on every row of the region |
| `Satisfaction.TestInputAccepted` | src/fibonacci/example3.rs:165-178 | public input `[1, 2, 3, 264]` with six rows passes every gate and copy constraint |
| `Satisfaction.IncrementedSeedRejected` | src/fibonacci/example3.rs:180-183 | with `public_input[2]` incremented to `[1, 2, 4, 264]` no advice column passes, as the output would be 520 |
| `Satisfaction.MockProverRun` | src/fibonacci/example3.rs:177-178 | running and verifying the circuit reports success exactly when the public input fits in the table, the table has six rows, and instance row 3 holds the iterated recurrence |
| `Graph.Lookup` | src/graph_traversal/example1/graph.rs:21-23 | a lookup finds a value exactly when the key is present, and it finds the stored value |
| `Graph.LookupAfterInsert` | src/graph_traversal/example1/graph.rs:18-20 | after an insert the key gives the new value and every other key gives what it gave before |
| `Graph.LookupNeverInserted` | src/graph_traversal/example1/graph.rs:18-23 | after a sequence of insertions into an empty map, a key never inserted gives None |
| `Graph.LookupLastInserted` | src/graph_traversal/example1/graph.rs:18-20 | after a sequence of insertions into an empty map, an inserted key gives the value of its last insertion |
| `Graph.Node.constructor` | src/graph_traversal/example1/graph.rs:11-17 | a new node keeps its id and name and has no property |
| `Graph.Node.AddProperty` | src/graph_traversal/example1/graph.rs:18-20 | adding a property stores or overwrites it and leaves every other property unchanged |
| `Graph.Node.GetProperty` | src/graph_traversal/example1/graph.rs:21-23 | a property is found exactly when it is in the node's map, with its stored value |
| `Graph.NewEdge` | src/graph_traversal/example1/graph.rs:36-44 | a new edge keeps its id, name and endpoints and has no property |
| `Graph.Graph.IsEmpty` | src/graph_traversal/example1/graph.rs:60-62 | `is_empty` returns the number of nodes, which is zero exactly when there is no node |
| `Graph.NewGraph` | src/graph_traversal/example1/graph.rs:53-58 | a new graph has an empty matrix and no node, so `is_empty` returns 0 |

## Left out

- halo2 internals are not modelled: the constraint system, the layouter and its floor planner, the proving backend, and the mock prover beyond the gate and copy checks above.
- The table height `n` is a parameter for the usable rows. Blinding rows and the size `2^k` are not modelled.
- Rotations that wrap past the last row are not modelled. A query past the table counts as an unassigned cell.
- `enable_equality` is not modelled. Every copy constraint in this circuit joins the advice and instance columns, and both are equality-enabled.
- The implementation of the Pasta field is not modelled. The modulus is a constant, and no proof depends on it being prime.
- `Fibonacci.Assign` requires a blank table. The circuit's only region starts at row 0 of an empty table. After a failure the table's contents are unspecified, because the whole synthesis fails.
- Release builds, where `nrows - 3` wraps around instead of panicking, are not modelled.
- `Plonk.Verify` returns a verdict rather than the list of failures the mock prover reports.
- The `plot_fibo2` test is not modelled: it renders an image to a file.
- `src/hash/poseidon.rs` is entirely commented out, so there is no code to model.
- The debug printing in `graph_test` is not modelled.
- `FibonacciChip::construct` and the `Circuit` trait plumbing (`without_witnesses`, `PhantomData`, namespaces, region labels) carry no behaviour.
