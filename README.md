# Modified Nodal Analysis assembly, in Dafny

This project models how a small DC circuit solver builds its linear system.
The solver exists in two versions: `src/main.rs` (Rust, `solve_dc`) and
`circuit.py` (Python, `solve_DC`). A circuit is a list of two-terminal
elements: resistors, independent voltage sources and independent current
sources. Both versions do the same steps:

1. Collect the node ids.
2. Set one node aside as the reference (ground).
3. Number the remaining nodes.
4. Stamp every element into the conductance matrix G, the
   voltage-source incidence matrix B and the right-hand side z.
5. Lay out the Modified Nodal Analysis matrix A = [[G, B], [Bᵀ, 0]].

The model stops where A and z are handed to the numerical solver.

The model has six modules:

- `Lists` (`lists.dfy`) has the list helpers: linear search, distinctness,
  sums over lists, and dot products.
- `OrderedSet` (`ordered_set.dfy`) models Rust's `BTreeSet<usize>` as a
  strictly ascending sequence.
- `Stamps` (`stamps.dfy`) gives what one resistor or voltage source writes.
  It also proves what those entries mean electrically: Kirchhoff's current
  law for a resistor row, and the branch equation for a voltage-source
  column.
- `Blocks` (`blocks.dfy`) has the zero matrices, the transpose and the
  2 x 2 block layout.
- `RustMna` (`rust_mna.dfy`) models `src/main.rs`.
- `PyMna` (`py_mna.dfy`) models `circuit.py`.

The imperative parts stay imperative:

- node-set construction;
- the stamping loops over `array2<real>` and `array<real>`;
- transposition and stacking.

Each method is proved against specification functions:

- `GSpec`, `BSpec`, `ZSpec`/`ISpec` give every entry of G, B and z after
  the pass.
- `NodeOrder` and `Row` give node numbering.

Lemmas then prove what those functions promise:

- G is symmetric;
- G does not depend on element order;
- row i of G applied to the node voltages is the current leaving node i;
- row n+k of A gives V(pos) − V(neg) for voltage source k;
- current sources never reach the branch rows in the corrected version,
  nor in the Rust code as written when there are at least as many
  resistors as non-reference nodes (`RustMna.ResistorSizedInBounds`);
  with fewer resistors they can overwrite a voltage (see Findings).

Where the two versions differ, each model follows its own code:

- **Reference node.** Rust removes the least node id, because `BTreeSet`
  is ordered. Python removes whichever member set iteration yields first,
  so the model lets it be any member.
- **Node rows.** In Rust a node's row is its rank among the non-reference
  nodes. In Python it is its position in `list(nodes)`, which can be any
  listing of the set. It is chosen once per call.
- **Size of G.** Rust sizes G and the node rows of B by the number of
  resistors. Python sizes them by the number of non-reference nodes.
- **Current sources.** Both versions assign `-I` and `I` into z rather than
  adding them.

The evident intent is that current sources accumulate and that the
result does not depend on element order. Both versions assign instead,
and the model follows the code; Findings lists this, with corrected
variants. Neither version has error kinds of its own: an empty circuit
makes Rust panic and Python raise `StopIteration`, a zero resistance makes
Python raise `ZeroDivisionError`, and in Rust `1.0 / 0.0` gives +inf
without an error (see Left out).

## Model

| member | source | states |
|---|---|---|
| `RustMna.GetNodes` | src/main.rs:22-28 | every element has exactly two terminals |
| `RustMna.Conductance` | src/main.rs:108 | `1.0 / r` is the reciprocal of the resistance (g·r == 1) and positive for every allowed resistance |
| `RustMna.NodesOfMembers` | src/main.rs:64-75 | a node id is in the node set iff some element has it as a terminal |
| `RustMna.NodesOfOrderFree` | src/main.rs:64-75 | the node set is the same for every permutation of the elements |
| `RustMna.NodesOfEmpty` | src/main.rs:79 | the node set is empty exactly for an empty element list, the one case where `pop_first().expect` panics |
| `RustMna.CreateNodesSet` | src/main.rs:64-75 | the inserts leave the strictly ascending list of exactly the terminals of all elements |
| `OrderedSet.Insert` | src/main.rs:70 | `BTreeSet::insert` keeps the contents sorted, adds exactly `n`, and reports whether `n` was absent |
| `OrderedSet.PopFirst` | src/main.rs:79 | `pop_first` yields None only on the empty set, otherwise the least element and the sorted rest without it |
| `OrderedSet.PositionIsRank` | src/main.rs:110-111 | iterating an ordered set finds a member at the position equal to its rank |
| `RustMna.NodeOrder` | src/main.rs:78-79 | the nodes left after `pop_first` are sorted, are all nodes but the reference, and follow the reference in ascending order |
| `RustMna.PopFirstSplitsNodes` | src/main.rs:78-79 | `pop_first` on the node set yields the least node as reference and the node order |
| `RustMna.PositionIsRank` | src/main.rs:110-111 | `position` finds a row iff the terminal is not the reference node, and that row is its rank among the other nodes, so the `unwrap`s at lines 120-121 never fail |
| `RustMna.Resistors` | src/main.rs:81-86 | exactly the resistors of the list are kept |
| `RustMna.ResistorsCount` | src/main.rs:81-86 | each resistor is kept as often as it occurs in the list, so `nb_elt_nodes` counts parallel copies too |
| `RustMna.VSources` | src/main.rs:88-93 | exactly the voltage sources of the list are kept |
| `RustMna.VSourcesCount` | src/main.rs:88-93 | each voltage source is kept as often as it occurs in the list, so `nb_vsources` counts them all |
| `RustMna.VSourcesOfPrefix` | src/main.rs:101-143 | the sources before any point are a prefix of all of them, so `vsource_idx` numbers each source by its list position among sources |
| `RustMna.VSourceNumber` | src/main.rs:101-143 | the voltage source at list position p owns branch column k = the number of voltage sources before it, the value of `vsource_idx` when the loop reaches it |
| `RustMna.Branch` | src/main.rs:127-143 | branch k belongs to a voltage source of the list |
| `RustMna.StampResistor` | src/main.rs:105-126 | one resistor adds its conductance stamp to every entry of G and changes nothing else |
| `RustMna.StampVSource` | src/main.rs:127-141 | one voltage source writes -1/+1 into its column of B only at its terminals' rows (pos wins) and its value into branch row nb + k of z |
| `RustMna.StampISource` | src/main.rs:145-158 | one current source assigns `-i` at its negative row and then `i` at its positive row, and leaves every other row of z unchanged |
| `RustMna.ResistorStep` | src/main.rs:105-126 | one resistor iteration keeps G, B, z and the counter equal to the specification of the prefix |
| `RustMna.VSourceStep` | src/main.rs:127-144 | one voltage-source iteration keeps the state equal to the specification and advances `vsource_idx` |
| `RustMna.ISourceStep` | src/main.rs:145-158 | one current-source iteration keeps the state equal to the specification of the prefix |
| `RustMna.StampAll` | src/main.rs:101-162 | after the loop, G, B and z hold exactly the specified entries and `vsource_idx == nb_vsources` |
| `RustMna.BuildSystem` | src/main.rs:95-166 | A and z are new arrays; A is square with side nb + nv, with G top left, B top right, C = Bᵀ bottom left and D = 0 bottom right, and z has the same length |
| `RustMna.GSpecSymmetric` | src/main.rs:113-124 | the resistor stamps make G symmetric |
| `RustMna.SystemMatrixSymmetric` | src/main.rs:164-166 | the assembled A equals its transpose |
| `RustMna.GSpecOrderFree` | src/main.rs:102-126 | G is the same for every permutation of the elements |
| `RustMna.SolveDc` | src/main.rs:77-166 | on every input where no index write panics, returns the node order used, the symmetric MNA matrix with one node row per resistor, and z as stamped |
| `RustMna.CoversNodeOrder` | src/main.rs:78-79 | every terminal is either the reference node or a listed node, and the reference is not listed |
| `RustMna.TerminalInBounds` | src/main.rs:110-157 | a terminal of an element whose writes are in bounds has a row below nb + nv |
| `RustMna.SliceInBounds` | src/main.rs:169 | when no write panics, `0..nodes.len()` lies within the solution vector |
| `RustMna.NodeOrderOf` | src/main.rs:78-79 | for any sorted listing of the node set, the reference is its head and the node order is its tail |
| `RustMna.GKcl` | src/main.rs:113-124 | row i of G applied to the node voltages is the total current the resistors carry away from node i (Kirchhoff's current law) |
| `RustMna.BranchEquation` | src/main.rs:133-139 | row k of C = Bᵀ applied to the node voltages is V(pos) − V(neg), and V(pos) when both terminals share a row |
| `RustMna.ZBranchRows` | src/main.rs:141 | branch row nb + k of z holds voltage source k's value whenever no current source writes past the node rows (`CurrentSourceOverwritesBranch` shows the other case) |
| `RustMna.ExtraRowIsZero` | src/main.rs:95-99 | every row of A past the non-reference nodes is zero, so A is singular when G has more rows than nodes |
| `RustMna.GRowsPastNodes` | src/main.rs:113-124 | no resistor stamps a row of G past the non-reference nodes |
| `RustMna.ResistorSizedZeroRow` | src/main.rs:81-99 | two parallel resistors: one node, two rows of G with the second all zero, and every write in bounds |
| `RustMna.ResistorSizedOutOfBounds` | src/main.rs:105-124 | one resistor between two source-held nodes: two nodes but a 1 x 1 G, so a write falls out of bounds |
| `RustMna.CurrentSourcesOverwrite` | src/main.rs:151-157 | two current sources into one node of an in-bounds list with one node row: z keeps the one stamped last, so swapping them changes z, while the injected current is i1 + i2 either way |
| `RustMna.BranchRowShape` | src/main.rs:78-99 | resistor and voltage source n1–n2 plus a current source n1→n3 give nodes [n2, n3], nb = nv = 1, and every write in bounds |
| `RustMna.CurrentSourceOverwritesBranch` | src/main.rs:141-156 | for that list the current source's row 1 is also branch row nb + 0, so z holds i there instead of the source voltage v, with no panic |
| `RustMna.InjectionOrderFree` | src/main.rs:145-158 | the net injected currents are the same for every permutation of the elements |
| `RustMna.InjectionOutsideNodes` | src/main.rs:145-158 | current sources inject nothing past the node rows |
| `RustMna.StampISourceAdding` | src/main.rs:151-157 | the corrected current-source arm adds `-i` and `i` to z |
| `RustMna.InjectCurrents` | src/main.rs:145-158 | the corrected pass adds every current source's injection to z |
| `RustMna.WithoutISourcesVSources` | src/main.rs:127-143 | dropping the current sources keeps the voltage sources and their numbering |
| `RustMna.WithoutISourcesG` | src/main.rs:105-126 | dropping the current sources does not change G |
| `RustMna.ZSpecNoISources` | src/main.rs:141 | without current sources, z is zero on the node rows |
| `RustMna.ResistorSizedInBounds` | src/main.rs:95-156 | with at least as many resistors as non-reference nodes, no index write of the code as written panics and no current source writes a branch row of z |
| `RustMna.NodeSizedInBounds` | src/main.rs:95-99 | with node-sized blocks, every write is in bounds |
| `RustMna.SystemMatrixWithoutISources` | src/main.rs:164-166 | the MNA matrix of the list without its current sources is that of the whole list |
| `RustMna.AssemblePassive` | src/main.rs:78-143 | the corrected layout and pass without current sources yields the MNA matrix of the whole list, node-sized, with z holding only the source voltages |
| `RustMna.SolveDcCorrected` | src/main.rs:77-166 | with one row per non-reference node and current sources accumulated, A is the symmetric MNA matrix, node row r of z is the net current injected there, and branch row k holds source k's voltage |
| `Stamps.ResistorStampShape` | src/main.rs:113-124 | a resistor stamp is symmetric, touches only the diagonal when one terminal is the reference, and is zero when the terminals coincide |
| `Stamps.ResistorCurrent` | circuit.py:52-60 | one resistor's row applied to the node voltages is g·(V(i) − V(other terminal)), the reference at 0 V |
| `Stamps.ResistorRowSum` | circuit.py:52-60 | each row of the stamp of a resistor between two non-reference nodes sums to zero |
| `Stamps.VSourceBranch` | circuit.py:67-71 | a voltage-source column applied to the node voltages is V(pos) − V(neg), and V(pos) when the terminals share a row |
| `Blocks.Zeros` | circuit.py:39-43 | a fresh matrix of the requested shape filled with zeros |
| `Blocks.Transpose` | circuit.py:86 | `C_m = B_m.T`: a new matrix whose entry (i, j) is entry (j, i) of B |
| `Blocks.Stack` | circuit.py:88-91 | `vstack`/`hstack`: a new matrix with each of the four blocks in its quadrant |
| `Lists.IndexOf` | circuit.py:23 | `list.index` finds the first occurrence of a member, and finds nothing for a non-member |
| `PyMna.Conductance` | circuit.py:47 | `G = 1/R` times R is 1, and is positive iff R is |
| `PyMna.ResistorNodesMembers` | circuit.py:11-12 | a node is collected from the resistors iff it is a terminal of one of them |
| `PyMna.SourceNodesMembers` | circuit.py:14-18 | a node is collected from a source list iff it is a terminal of one of its sources |
| `PyMna.AllNodesEmpty` | circuit.py:20 | the node set is empty exactly when all three lists are, the case where `next` raises |
| `PyMna.CollectNodes` | circuit.py:9-18 | the three loops leave exactly the terminals of all resistors, voltage sources and current sources |
| `PyMna.SelectReference` | circuit.py:20-21 | the reference is some member of the node set, and is removed from it |
| `PyMna.ListOf` | circuit.py:23 | `list(nodes)` lists every remaining node exactly once, in some order |
| `PyMna.NodeIdx` | circuit.py:23 | `node_idx` returns -1 iff the node is the reference, otherwise an index below n_n at which the listing holds that node |
| `PyMna.Row` | circuit.py:23 | a terminal has no row iff it is the reference (or unlisted), and otherwise its row holds it |
| `PyMna.NodeIdxIsRow` | circuit.py:23 | `node_idx` and the row used by the specification agree |
| `PyMna.NodeIdxBijective` | circuit.py:23 | `node_idx` maps the non-reference nodes one-to-one onto 0 .. n_n − 1 |
| `PyMna.TerminalsCovered` | circuit.py:9-23 | every terminal of every element can be looked up by `node_idx` without `list.index` raising |
| `PyMna.StampResistor` | circuit.py:47-60 | one resistor adds 1/R to the diagonal of each non-reference terminal and −1/R to both off-diagonal entries when both are non-reference |
| `PyMna.StampResistors` | circuit.py:46-60 | after the loop, every entry of G is the sum of the resistor stamps |
| `PyMna.StampVSource` | circuit.py:64-73 | source `v_idx` writes only column `v_idx` of B (−1 at neg, +1 at pos, pos winning, reference skipped) and sets `z[n_n + v_idx] = V` |
| `PyMna.StampVSources` | circuit.py:63-73 | after the loop, column k of B is source k's incidence, branch row n_n + k of z is its voltage, and the node rows of z are still zero |
| `PyMna.StampISource` | circuit.py:77-84 | one current source assigns `-I` at its negative row and then `I` at its positive row, and leaves every other row unchanged |
| `PyMna.StampISources` | circuit.py:76-84 | after the loop, each node row of z holds the value written last, and the branch rows `z[n_n:]` are untouched |
| `PyMna.StackBlocks` | circuit.py:86-91 | A is square with side n_n + n_vs: G top left, B top right, C = Bᵀ bottom left, D = 0 bottom right |
| `PyMna.GSpecSymmetric` | circuit.py:52-60 | the resistor loop keeps G symmetric |
| `PyMna.SystemMatrixSymmetric` | circuit.py:86-91 | the assembled A equals its transpose |
| `PyMna.GSpecOrderFree` | circuit.py:46-60 | G is the same for every permutation of the resistors |
| `PyMna.Prepare` | circuit.py:9-43 | the reference is a node and the listing holds the other nodes once each; G is n_n × n_n, B n_n × n_vs, D n_vs × n_vs and z has length n_n + n_vs, all zero |
| `PyMna.SolveDC` | circuit.py:9-91 | returns the chosen reference and listing, the symmetric MNA matrix, and z with the current sources' last writes on the node rows and the voltages on the branch rows |
| `PyMna.GKcl` | circuit.py:46-60 | row i of G applied to the node voltages is the total current the resistors carry away from node i (Kirchhoff's current law) |
| `PyMna.BranchEquation` | circuit.py:63-71 | row n_n + k of A applied to the node voltages is V(pos) − V(neg) of source k, and V(pos) when both terminals share a row |
| `PyMna.CurrentSourcesOverwrite` | circuit.py:80-84 | two current sources into one node: z keeps the one stamped last, so swapping them changes z, while the injected current is I1 + I2 either way |
| `PyMna.TwoSourcesIntoRow` | circuit.py:80-84 | two sources feeding the same row: the loop keeps the second current, the injection is their sum |
| `PyMna.InjectionOrderFree` | circuit.py:76-84 | the net injected currents are the same for every order of the current sources |
| `PyMna.UntouchedRow` | circuit.py:76-84 | a row no current source writes stays 0, and nothing is injected into it |
| `PyMna.SingleWriterAgrees` | circuit.py:76-84 | when at most one current source writes a row and it is not shorted, the assigned value equals the net injection |
| `PyMna.StampISourceAdding` | circuit.py:80-84 | the corrected iteration adds `-I` and `I` to z |
| `PyMna.InjectCurrents` | circuit.py:76-84 | the corrected loop adds every current source's injection to z |
| `PyMna.InjectionOutsideNodes` | circuit.py:76-84 | current sources inject nothing into the branch rows |
| `PyMna.SolveDCCorrected` | circuit.py:9-91 | with current sources accumulated, node row r of z is the net current injected there, whatever their order; A and the branch rows are as in `SolveDC` |

## Left out

- The linear solve is not modelled: `a_m.lu().solve(&z_v).unwrap()` at src/main.rs:168 and `np.linalg.solve` at circuit.py:96 are floating-point library calls. The model states what is handed to them.
- Only the length of the slice at src/main.rs:169 is modelled (`RustMna.SliceInBounds`), not its values.
- `main` and printing are not modelled: src/main.rs:47-62, circuit.py:93-94 and circuit.py:100-119 are fixed examples and output.
- `python-tests/mna-ex.py` is not part of this model. It passes a constant matrix to the solver and has no logic of its own.
- The `From` conversions at src/main.rs:31-45 are replaced by the datatype constructors.
- Floating point is not modelled. All matrix entries are `real`, so rounding in `1.0 / r`, in `+=` and in `-=` is not captured.
- Resistances are exact. A Rust `u32` becomes a `nat` above 0, so its upper bound plays no part. A Rust resistance of 0 is excluded: at src/main.rs:108, `1.0 / 0.0` is +inf in `f64` with no panic, so the code would go on to assemble an infinite stamp, which `real` cannot express. A Python `int` becomes a non-zero `int`, because `1/R` raises `ZeroDivisionError` for 0.
- Python source values are `int`, as in the triples the program builds.
- Failures of the code are preconditions, not error results:
  - Rust `expect` on an empty element list;
  - Rust index panics, via `RustMna.InBounds`;
  - Python `StopIteration` from `next(iter(nodes))` on an empty circuit.
- Capacitors, inductors and named error kinds are not modelled, because neither version of the code has them.
- CPython's concrete set iteration order is not modelled. The Python reference node is any member of the set, and `list(nodes)` is any listing of it, fixed once per call.
- `RustMna.GetNodes`: its contract states only that an element has two terminals. Which two is left to its body, which is a plain match.

## Findings

| source | as written | input that shows it | evidently intended | confidence | as-written member | corrected member |
|---|---|---|---|---|---|---|
| src/main.rs:81-99 | G and the node rows of B have one row per resistor; rows past the non-reference nodes stay zero | two resistors in parallel between nodes 0 and 1: one node, two rows, A singular | one row per non-reference node (`nodes.len()`), as the slice at line 169 and the Python version use | not executed; high | `RustMna.ResistorSizedZeroRow` | `RustMna.SolveDcCorrected` |
| src/main.rs:95-124 | with fewer resistors than non-reference nodes, a row index falls outside G and indexing panics | resistor 1–2 with voltage sources 0–1 and 0–2: two nodes, a 1 x 1 G | one row per non-reference node, so every write is in bounds | not executed; high | `RustMna.ResistorSizedOutOfBounds` | `RustMna.SolveDcCorrected` |
| src/main.rs:141-156 | a current source whose terminal has a row at or past nb writes into a branch row of z and overwrites a voltage-source value, without a panic | resistor 0–1, voltage source 0–1 of 5 V, current source 0→2 of 1 A: nodes [1, 2], nb = 1, and z[1] holds 1 instead of 5 | current sources write only node rows, so each branch row keeps its source voltage | not executed; high | `RustMna.CurrentSourceOverwritesBranch` | `RustMna.SolveDcCorrected` |
| src/main.rs:151-157 | a current source assigns `z[row] = ±i`, so a later source at the same node overwrites an earlier one | resistor 0–1 with current sources 0→1 of 1 A and 2 A: z holds 2, or 1 when swapped, not 3 | add ±i (superposition), independent of element order | not executed; high | `RustMna.CurrentSourcesOverwrite` | `RustMna.SolveDcCorrected` |
| circuit.py:80-84 | `z_m[idx] = -I` / `z_m[idx] = I` assign, so a later current source at the same node overwrites an earlier one | current sources (0, 1, 1) and (0, 1, 2) with node 1 not the reference: z holds 2, or 1 when swapped, not 3 | add ±I (superposition), independent of the order of `i_sources` | not executed; high | `PyMna.CurrentSourcesOverwrite` | `PyMna.SolveDCCorrected` |
