# hypernova: sparse matrices, R1CS and its CCS form

A Dafny model of the constraint-system core of the `hypernova` crate:

- `field.dfy` (module `Field`): the scalar field the crate is generic over, fixed here to the integers modulo the
  order P of the Jubjub scalar field. The crate takes its arithmetic from a foreign library; only the operations the
  core uses are defined (add, negate, subtract, multiply, the embedding of a `u64`), with the ring laws the proofs need.
- `matrix.dfy` (module `Matrix`, `src/matrix.rs`): wires, elements, sparse matrices, dense vectors and the `prod`
  evaluation of a sparse matrix against the implicit assignment z = (1, x, w); the entrywise vector operators; the
  dense vector iterator.
- `r1cs.rs` is split in two:
  - `r1cs.dfy` (module `R1cs`): the `R1cs` record, `dot_product`, `is_sat` and `to_ccs`.
  - `r1cs_example.dfy` (module `R1csExample`): the test helpers `dense_to_sparse`, `array_to_witnessess`,
    `example_z_witness`, `example_r1cs`, and the claim of `r1cs_test`.
- `ccs.dfy` (module `Ccs`, `src/ccs.rs`): the `Ccs` record. It also holds a CCS satisfiability relation. The crate
  has no such function: this relation is an extension taken from Setty, Thaler and Wahby, "Customizable constraint
  systems for succinct arguments" (IACR ePrint 2023/552, section 2). With it, `to_ccs` is proved to preserve
  satisfiability.

Panics of the source are modelled in one of two ways. Most become preconditions: the `assert_eq!` on vector
lengths, out-of-bounds writes in `prod`, out-of-bounds reads of `x`, `w` and the matrices, and `split_at` past the
end. The panics of `is_sat` are modelled as a value instead: `R1cs.CheckedIsSat` returns `None` exactly where
`is_sat` would panic.

Notes on the source:
- The comment on `R1cs::m` calls it the "column size". The code uses `m` as the number of rows, i.e. of
  constraints: `is_sat` loops `0..m` over rows, and `prod` returns one entry per row. The model follows the code.
- `Ccs::multisets` is declared as an array of `SparseMatrix`. `to_ccs` fills it with `vec![0, 1]` and `vec![2]`,
  which are lists of matrix indices. The model types multisets as lists of indices, `seq<seq<nat>>`.

## Model

| member | source | states |
|---|---|---|
| Matrix.Get | src/matrix.rs:48-52 | `get` returns the wire and the coefficient unchanged: rebuilding an element from the pair gives the same element |
| Matrix.FromWire | src/matrix.rs:54-58 | `Element::from(wire)` is read back by `get` as that wire with coefficient one |
| Matrix.FromScalar | src/matrix.rs:60-64 | `Element::from(f)` is read back by `get` as the constant wire `One` with coefficient f |
| Matrix.Resolve | src/matrix.rs:18-23 | a wire resolves to its slot of z = (1, x, w): `One` to position 0, `Instance(k)` to 1 + k, `Witness(k)` to 1 + \|x\| + k |
| Matrix.Prod | src/matrix.rs:9-28 | `prod` returns exactly m entries; entry i of a stored row is the fold of that row; every position at or beyond the stored row count stays zero; a matrix with more than m rows is excluded because the write would be out of bounds |
| Matrix.ProdLoop | src/matrix.rs:9-28 | the loop form of `prod` computes, for every stored row, the sum of coeff * value over its entries, and zero elsewhere |
| Matrix.RowValue | src/matrix.rs:17-25 | the fold `prod` performs on one row: starting from zero, each entry adds coeff * (resolved value); tied to the independent front-first sum by RowValueIsRowSum |
| Matrix.RowValueIsRowSum | src/matrix.rs:17-25 | the left fold of `prod` over a row equals the independent sum of the row's terms taken from the front |
| Matrix.RowValuePermutation | src/matrix.rs:17-25 | a row's value does not depend on the order its entries are stored in: rows with the same multiset of entries evaluate to the same value |
| Matrix.EmptyRowsProdZero | src/matrix.rs:15-17 | the fold starts at zero, so a matrix of empty rows evaluates to the zero vector of length m |
| Matrix.Scale | src/matrix.rs:111-117 | scalar multiplication needs no length check, keeps the length, and gives entry i = v[i] * c |
| Matrix.ScaleIsHadamardConst | src/matrix.rs:111-117 | scaling by c equals the Hadamard product with the constant vector c |
| Matrix.Hadamard | src/matrix.rs:119-128 | the Hadamard product needs equal lengths, keeps the length, and gives entry i = u[i] * v[i] |
| Matrix.HadamardComm | src/matrix.rs:119-128 | the Hadamard product is commutative |
| Matrix.HadamardOnesIdentity | src/matrix.rs:111-128 | the all-ones vector is the unit of the Hadamard product, and one is the unit of scaling |
| Matrix.AddVec | src/matrix.rs:130-138 | vector addition needs equal lengths, keeps the length, and gives entry i = u[i] + v[i] |
| Matrix.AddVecComm | src/matrix.rs:130-138 | vector addition is commutative |
| Matrix.AddZerosIdentity | src/matrix.rs:130-138 | adding the zero vector on either side changes nothing |
| Matrix.SubVec | src/matrix.rs:140-148 | vector subtraction needs equal lengths, keeps the length, and gives entry i = u[i] - v[i] |
| Matrix.SubUndoesAdd | src/matrix.rs:130-148 | subtracting v after adding v gives back the original vector |
| Matrix.Iter | src/matrix.rs:69-76 | `iter` starts a cursor at position 0 of the vector |
| Matrix.Next | src/matrix.rs:83-95 | `next` yields the entry under the cursor and advances exactly while the cursor is inside the vector; at the end it yields `None` and leaves the cursor alone |
| Matrix.DrainYieldsSuffix | src/matrix.rs:83-95 | calling `next` until `None` yields exactly the entries from the cursor on, in index order |
| Matrix.IterYieldsVector | src/matrix.rs:69-95 | a fresh iterator yields the whole vector in order and then `None` |
| R1cs.DotProduct | src/r1cs.rs:48-58 | the private `dot_product`: from zero, each entry adds (resolved value) * coeff; its partner DotProductIsRowValue ties it to the fold of `prod` |
| R1cs.DotProductIsRowValue | src/r1cs.rs:48-58 | `dot_product`, which multiplies the resolved value by the coefficient, computes the same value as the row fold of `prod` |
| R1cs.RowSatisfied | src/r1cs.rs:40-45 | the closure of `is_sat` for row i: (A_i . z) * (B_i . z) == C_i . z, each side by `dot_product` |
| R1cs.SatFrom | src/r1cs.rs:40-45 | the walk from row i is true exactly when every constraint i..m-1 holds |
| R1cs.IsSat | src/r1cs.rs:29-46 | `is_sat` is true exactly when (A_i . z) * (B_i . z) == C_i . z for every i < m; it is true when m = 0 |
| R1cs.CheckFrom | src/r1cs.rs:40-45 | the short-circuiting walk, panics included: `Some(true)` exactly when every row from i on is readable and holds |
| R1cs.CheckFromPanics | src/r1cs.rs:40-45 | the walk from i panics (`None`) exactly when some row k >= i is unreadable while every row from i up to k is readable and holds |
| R1cs.CheckedIsSat | src/r1cs.rs:29-46 | `is_sat` on any input, panics as `None`: `Some(true)` exactly when all m rows are readable and hold |
| R1cs.CheckedIsSatAgrees | src/r1cs.rs:29-46 | when all m rows are readable `is_sat` returns the verdict of IsSat; a `true` answer implies that all m rows were readable and hold |
| R1cs.IsSatIgnoresSizes | src/r1cs.rs:30-39 | the check does not read the declared sizes n and l: changing them changes nothing |
| R1cs.IsSatIffHadamard | src/r1cs.rs:40-57 | for well-formed A, B, C, `is_sat` holds exactly when (A z) o (B z) == C z as vectors, with `prod` as the evaluation |
| R1cs.ToCcs | src/r1cs.rs:60-83 | `to_ccs` keeps m, x and w; its matrices are [a, b, c] in this order; its multisets are [[0, 1], [2]] and its constants [1, -1] |
| R1cs.ToCcsPreservesSat | src/r1cs.rs:60-83 | the CCS made by `to_ccs` satisfies the CCS relation exactly when the R1CS satisfies `is_sat` (the CCS relation is the extension described above) |
| Ccs.HasShape | src/ccs.rs:7-16 | the const-generic array lengths of `Ccs<F, t, q>`: t matrices, q multisets and q constants |
| Ccs.IsSat | src/ccs.rs:7-23 | the CCS relation over the record's fields: the sum over j of c_j times the Hadamard product of the M_i z named by multiset j is the zero vector of length m; R1csShapeRelation and MultisetProductPermutation are its partners |
| Ccs.R1csShapeRelation | src/ccs.rs:7-23 | a CCS with three matrices, multisets [[0, 1], [2]] and constants [1, -1] is satisfied exactly when (M_0 z) o (M_1 z) == M_2 z |
| Ccs.MultisetProductEntry | src/ccs.rs:13-14 | entry i of the Hadamard product over a multiset equals the independent front-to-back product of the named vectors' entries i |
| Ccs.MultisetProductPermutation | src/ccs.rs:13-14 | a multiset is unordered: two index lists with the same multiset of indices give the same Hadamard product |
| R1csExample.ColumnWire | src/r1cs.rs:106-116 | dense column 0 is `One`, columns 1..l are `Instance(col - 1)` and the rest `Witness(col - 1 - l)`: each wire sits at the column it was made from |
| R1csExample.ColumnWireInverse | src/r1cs.rs:106-116 | the column-to-wire map inverts the wire-to-column map for every wire whose instance index is below l |
| R1csExample.SparseRow | src/r1cs.rs:102-118 | a dense row becomes entries with nonzero coefficients only, each on the wire its column maps to (`One`, `Instance` up to l, `Witness` beyond) and equal to the embedded entry of that column, in strictly increasing column order |
| R1csExample.SparseRowKeepsNonzero | src/r1cs.rs:102-118 | a column of the dense row appears in the sparse row, on its wire with its embedded coefficient, exactly when its entry is nonzero |
| R1csExample.SparseRowEvaluates | src/r1cs.rs:102-118 | the sparse form of a dense row evaluates to the dense product of that row with z: dropping zero coefficients changes no value |
| R1csExample.DenseToSparse | src/r1cs.rs:99-122 | `dense_to_sparse` keeps the row count and converts row i by itself, in order |
| R1csExample.DenseToSparseEvaluates | src/r1cs.rs:99-122 | `dense_to_sparse` keeps the row count, and `prod` of its result equals the dense matrix-vector product with z |
| R1csExample.ArrayToWitnesses | src/r1cs.rs:91-97 | `array_to_witnessess` drops the leading entry and embeds each remaining u64, in order |
| R1csExample.ArrayToWitnessesRestoresAssignment | src/r1cs.rs:91-97 | when the array starts with the constant 1, splitting the witnesses at any l and rebuilding z = (1, x, w) gives back the whole array embedded in the field |
| R1csExample.ExampleValues | src/r1cs.rs:128-135 | the six values of the test, none of which overflows a u64; the first is the constant 1 and the second is `input` |
| R1csExample.ExampleZWitness | src/r1cs.rs:124-141 | the instance is the first l values after the constant, and instance followed by witness is all of them |
| R1csExample.ExampleR1cs | src/r1cs.rs:143-185 | `example_r1cs` has m = 4, n = 6, l = 1, one instance entry and four witness entries |
| R1csExample.ExampleAssignment | src/r1cs.rs:124-141 | the z = (1, x, w) that `example_r1cs` builds has six entries, and entry k is the embedded k-th value of the test |
| R1csExample.ExampleShapes | src/r1cs.rs:147-173 | which columns the rows of the three dense example matrices use |
| R1csExample.ExampleProductA | src/r1cs.rs:147-155 | A z = (z1, z3, z1 + z4, 5 + z5) |
| R1csExample.ExampleProductB | src/r1cs.rs:156-164 | B z = (z1, z1, z0, z0), where z0 is the constant 1 |
| R1csExample.ExampleProductC | src/r1cs.rs:165-173 | C z = (z3, z4, z5, z2) |
| R1csExample.CircuitSatIffProducts | src/r1cs.rs:40-45 | a four-row R1CS with these products is satisfied exactly when z3 = z1 * z1, z4 = z3 * z1, z5 = z1 + z4 and z2 = 5 + z5 |
| R1csExample.ExampleCircuitSatIff | src/r1cs.rs:143-185 | the example circuit accepts an assignment exactly when those four equations hold, and its CCS form agrees |
| R1csExample.ExampleRowsHold | src/r1cs.rs:124-141 | the example assignment has z0 = 1 and z1 = `input`, and meets the four equations, which then fix z = (1, x, x^3 + x + 5, x^2, x^3, x^3 + x) |
| R1csExample.ExampleSatisfied | src/r1cs.rs:187-193 | for every input whose u64 arithmetic does not overflow, the example R1CS is satisfied, and so is its CCS form |
| R1csExample.ExampleTestInputs | src/r1cs.rs:187-193 | the inputs 1 to 9 of `r1cs_test` are all accepted |
| R1csExample.ExampleRejectsWrongWitness | src/r1cs.rs:124-185 | adding one to the last witness entry makes both the R1CS check and the CCS relation reject |

## Left out

- Field arithmetic is a foreign library. The field is fixed to the integers modulo the Jubjub scalar order, and only
  the identities the proofs use are proved.
- `src/wire.rs` is not part of this model. `Wire` has only the three variants the core uses: `One`, `Instance(k)`
  and `Witness(k)`.
- `src/lib.rs` (module wiring), the derived `Clone`, `Debug` and `Default` impls, and the clone the iterator makes of
  its vector are omitted: vectors are immutable sequences.
- The `Index` and `IndexMut` impls on `SparseMatrix` and `DenseVectors` are sequence indexing and update. An index
  out of bounds, which panics in the source, is excluded by a precondition wherever one is read.
- R1cs.IsSat: requires that all m rows are readable, although the short-circuiting `all` stops reading at the first
  violated constraint. The exact panic behaviour is modelled separately by R1cs.CheckedIsSat.
- R1csExample.ExampleValues: the test's u64 arithmetic would panic on overflow. That case is excluded by the
  precondition NoOverflow, which covers all the test's inputs 1..9.
- The CCS satisfiability relation is not in the source. It is the extension described above, and it is only used to
  state what `to_ccs` preserves.
- Nothing is concurrent in the core, so no concurrency is modelled.
