/** The test circuit of src/r1cs.rs: helpers that turn dense u64 matrices
    into sparse ones, the assignment for y = x^3 + x + 5, and the claim the
    test makes about it.

    Dense column 0 is the constant 1, columns 1..l the instance and the
    remaining columns the witness, matching z = (1, x, w).
 */
module R1csExample {
  import F = Field
  import opened Matrix
  import R = R1cs
  import C = Ccs

  predicate FitsU64(row: seq<nat>)
  {
    forall k :: 0 <= k < |row| ==> row[k] < F.U64Bound
  }

  predicate AllFitU64(value: seq<seq<nat>>)
  {
    forall i :: 0 <= i < |value| ==> FitsU64(value[i])
  }

  // ---------------------------------------------------------------------
  // dense_to_sparse

  /** The wire of dense column col when the instance has l entries. */
  function ColumnWire(col: nat, l: nat): (wire: Wire)
    ensures Column(wire, l) == col
  {
    if col == 0 then One
    else if col <= l then Instance(col - 1)
    else Witness(col - 1 - l)
  }

  /** Column and ColumnWire are inverse: every wire whose instance index is
      below l comes from exactly one column. */
  lemma ColumnWireInverse(wire: Wire, l: nat)
    requires wire.Instance? ==> wire.index < l
    ensures ColumnWire(Column(wire, l), l) == wire
  {
  }

  /** One dense row in sparse form: every column becomes an entry on its
      wire, and entries whose coefficient is zero are dropped. */
  function SparseRow(row: seq<nat>, l: nat): (sparse: Row)
    requires FitsU64(row)
    ensures |sparse| <= |row|
    ensures forall k :: 0 <= k < |sparse| ==>
      && sparse[k].coeff != F.Zero
      && Column(sparse[k].wire, l) < |row|
      && sparse[k].coeff == F.FromU64(row[Column(sparse[k].wire, l)])
      && sparse[k].wire == ColumnWire(Column(sparse[k].wire, l), l)
    ensures forall k1, k2 :: 0 <= k1 < k2 < |sparse| ==>
      Column(sparse[k1].wire, l) < Column(sparse[k2].wire, l)
    decreases |row|
  {
    if |row| == 0 then []
    else
      var col := |row| - 1;
      var e := Element(ColumnWire(col, l), F.FromU64(row[col]));
      SparseRow(row[..col], l) + (if e.coeff != F.Zero then [e] else [])
  }

  /** No nonzero coefficient is lost: column col of the dense row appears in
      the sparse row on its own wire whenever it is nonzero. */
  lemma {:induction false} SparseRowKeepsNonzero(row: seq<nat>, l: nat, col: nat)
    requires FitsU64(row) && col < |row|
    ensures row[col] != 0 <==> Element(ColumnWire(col, l), F.FromU64(row[col])) in SparseRow(row, l)
    decreases |row|
  {
    var sparse := SparseRow(row, l);
    var e := Element(ColumnWire(col, l), F.FromU64(row[col]));
    var last := |row| - 1;
    var front := SparseRow(row[..last], l);
    assert sparse == front + (if row[last] != 0 then [Element(ColumnWire(last, l), F.FromU64(row[last]))] else []);
    if row[col] != 0 {
      if col == last {
        assert sparse[|front|] == e;
      } else {
        assert row[..last][col] == row[col];
        SparseRowKeepsNonzero(row[..last], l, col);
      }
    }
  }

  /** `dense_to_sparse`: the rows in order, each in sparse form. */
  function DenseToSparse(value: seq<seq<nat>>, l: nat): (matrix: SparseMatrix)
    requires AllFitU64(value)
    ensures |matrix| == |value|
    ensures forall i :: 0 <= i < |value| ==> matrix[i] == SparseRow(value[i], l)
  {
    seq(|value|, i requires 0 <= i < |value| => SparseRow(value[i], l))
  }

  /** The dense product of one coefficient row with z, left to right. */
  function DenseDot(row: seq<nat>, z: DenseVector): F.Fe
    requires FitsU64(row) && |row| <= |z|
    decreases |row|
  {
    if |row| == 0 then F.Zero
    else
      var col := |row| - 1;
      F.Add(DenseDot(row[..col], z), F.Mul(F.FromU64(row[col]), z[col]))
  }

  /** Evaluating the sparse form of a row against (x, w) gives the dense
      product of the row with z = (1, x, w): dropping zeros changes nothing. */
  lemma {:induction false} SparseRowEvaluates(row: seq<nat>, l: nat, x: DenseVector, w: DenseVector)
    requires FitsU64(row)
    requires |x| == l && |row| <= 1 + l + |w|
    ensures RowInRange(SparseRow(row, l), x, w)
    ensures RowValue(SparseRow(row, l), x, w) == DenseDot(row, Assignment(x, w))
    decreases |row|
  {
    var z := Assignment(x, w);
    if |row| > 0 {
      var col := |row| - 1;
      var front := SparseRow(row[..col], l);
      SparseRowEvaluates(row[..col], l, x, w);
      var e := Element(ColumnWire(col, l), F.FromU64(row[col]));
      assert WireInRange(e.wire, x, w);
      if e.coeff != F.Zero {
        assert SparseRow(row, l) == front + [e];
        RowInRangeSnoc(front, e, x, w);
        RowValueSnoc(front, e, x, w);
      } else {
        assert SparseRow(row, l) == front;
        F.MulZero(z[col]);
        F.AddZero(DenseDot(row[..col], z));
      }
    }
  }

  /** Evaluating a matrix built by `dense_to_sparse` is the dense
      matrix-vector product with z = (1, x, w). */
  lemma DenseToSparseEvaluates(value: seq<seq<nat>>, l: nat, m: nat, x: DenseVector, w: DenseVector)
    requires AllFitU64(value)
    requires |value| <= m
    requires |x| == l
    requires forall i :: 0 <= i < |value| ==> |value[i]| <= 1 + l + |w|
    ensures MatrixInRange(DenseToSparse(value, l), x, w)
    ensures forall i :: 0 <= i < |value| ==>
      Prod(DenseToSparse(value, l), m, x, w)[i] == DenseDot(value[i], Assignment(x, w))
  {
    var matrix := DenseToSparse(value, l);
    forall i | 0 <= i < |value|
      ensures RowInRange(matrix[i], x, w)
      ensures RowValue(matrix[i], x, w) == DenseDot(value[i], Assignment(x, w))
    {
      SparseRowEvaluates(value[i], l, x, w);
    }
  }

  // ---------------------------------------------------------------------
  // array_to_witnessess and example_z_witness

  /** Each u64 embedded in the field, in order. */
  function FromU64s(vs: seq<nat>): (r: DenseVector)
    requires FitsU64(vs)
    ensures |r| == |vs|
    ensures forall k :: 0 <= k < |r| ==> r[k] == F.FromU64(vs[k])
    decreases |vs|
  {
    if |vs| == 0 then []
    else [F.FromU64(vs[0])] + FromU64s(vs[1..])
  }

  /** `array_to_witnessess`: drop the leading constant 1 and embed the rest. */
  function ArrayToWitnesses(ws: seq<nat>): (r: DenseVector)
    requires FitsU64(ws)
    ensures |ws| == 0 ==> r == []
    ensures |ws| > 0 ==> |r| == |ws| - 1 && forall k :: 0 <= k < |r| ==> r[k] == F.FromU64(ws[k + 1])
  {
    if |ws| == 0 then [] else FromU64s(ws[1..])
  }

  /** With the leading constant 1 in place, z = (1, x, w) rebuilt from any
      split of the witnesses is the whole array embedded in the field. */
  lemma ArrayToWitnessesRestoresAssignment(ws: seq<nat>, l: nat)
    requires FitsU64(ws) && |ws| > 0 && ws[0] == 1 && l < |ws|
    ensures var r := ArrayToWitnesses(ws); Assignment(r[..l], r[l..]) == FromU64s(ws)
  {
    AssignmentOfSplit(ArrayToWitnesses(ws), l);
  }

  /** Splitting the values after the constant anywhere gives back (1, values). */
  lemma AssignmentOfSplit(r: DenseVector, l: nat)
    requires l <= |r|
    ensures Assignment(r[..l], r[l..]) == [F.One] + r
  {
    assert r[..l] + r[l..] == r;
  }

  /** The u64 arithmetic of the test does not overflow. */
  predicate NoOverflow(input: nat)
  {
    input * input * input + input + 5 < F.U64Bound
  }

  /** z for y = x^3 + x + 5: [1, x, y, x^2, x^3, x^3 + x]. */
  function ExampleValues(input: nat): (vs: seq<nat>)
    requires NoOverflow(input)
    ensures |vs| == 6 && FitsU64(vs)
    ensures vs[0] == 1 && vs[1] == input
  {
    SquareBelowCube(input);
    var cube := input * input * input;
    [1, input, cube + input + 5, input * input, cube, cube + input]
  }

  lemma SquareBelowCube(input: nat)
    ensures input * input <= input * input * input + input
  {
    if input > 0 {
      var sq := input * input;
      assert sq * 1 <= sq * input;
    }
  }

  /** `example_z_witness`: the values after the constant, split at l into
      instance and witness. `split_at` panics when l exceeds the five values. */
  function ExampleZWitness(input: nat, l: nat): (xw: (DenseVector, DenseVector))
    requires NoOverflow(input)
    requires l <= 5
    ensures |xw.0| == l
    ensures xw.0 + xw.1 == ArrayToWitnesses(ExampleValues(input))
  {
    var z := ArrayToWitnesses(ExampleValues(input));
    assert z == z[..l] + z[l..];
    (z[..l], z[l..])
  }

  // ---------------------------------------------------------------------
  // example_r1cs

  const ExampleA: seq<seq<nat>> := [
    [0, 1, 0, 0, 0, 0],
    [0, 0, 0, 1, 0, 0],
    [0, 1, 0, 0, 1, 0],
    [5, 0, 0, 0, 0, 1]
  ]

  const ExampleB: seq<seq<nat>> := [
    [0, 1, 0, 0, 0, 0],
    [0, 1, 0, 0, 0, 0],
    [1, 0, 0, 0, 0, 0],
    [1, 0, 0, 0, 0, 0]
  ]

  const ExampleC: seq<seq<nat>> := [
    [0, 0, 0, 1, 0, 0],
    [0, 0, 0, 0, 1, 0],
    [0, 0, 0, 0, 0, 1],
    [0, 0, 1, 0, 0, 0]
  ]

  /** The circuit of `example_r1cs` over a given instance and witness. */
  function ExampleCircuit(x: DenseVector, w: DenseVector): (r: R.R1cs)
    ensures r.m == 4 && r.n == 6 && r.l == 1 && r.x == x && r.w == w
  {
    R.R1cs(4, 6, 1, DenseToSparse(ExampleA, 1), DenseToSparse(ExampleB, 1), DenseToSparse(ExampleC, 1), x, w)
  }

  /** `example_r1cs`: four constraints x*x = x^2, x^2*x = x^3,
      (x + x^3)*1 = x^3 + x and (5 + x^3 + x)*1 = y, with one instance entry. */
  function ExampleR1cs(input: nat): (r: R.R1cs)
    requires NoOverflow(input)
    ensures r.m == 4 && r.n == 6 && r.l == 1
    ensures |r.x| == 1 && |r.w| == 4
    ensures r == ExampleCircuit(r.x, r.w)
  {
    var (x, w) := ExampleZWitness(input, 1);
    ExampleCircuit(x, w)
  }

  // ---------------------------------------------------------------------
  // The test: the example circuit is satisfied

  /** Trailing zero coefficients contribute nothing to a dense product. */
  lemma {:induction false} DenseDotZeroTail(row: seq<nat>, z: DenseVector, k: nat)
    requires FitsU64(row) && |row| <= |z|
    requires k <= |row|
    requires forall j :: k <= j < |row| ==> row[j] == 0
    ensures DenseDot(row, z) == DenseDot(row[..k], z)
    decreases |row|
  {
    if |row| > k {
      var col := |row| - 1;
      assert row[..col][..k] == row[..k];
      DenseDotZeroTail(row[..col], z, k);
      F.MulZero(z[col]);
      F.AddZero(DenseDot(row[..col], z));
    } else {
      assert row[..k] == row;
    }
  }

  /** A row with one nonzero column j is that coefficient times z[j]. */
  lemma DenseDotOne(row: seq<nat>, z: DenseVector, j: nat)
    requires FitsU64(row) && |row| <= |z| && j < |row|
    requires forall k :: 0 <= k < |row| && k != j ==> row[k] == 0
    ensures DenseDot(row, z) == F.Mul(F.FromU64(row[j]), z[j])
  {
    DenseDotZeroTail(row, z, j + 1);
    var front := row[..j + 1];
    assert front[..j] == row[..j];
    DenseDotZeroTail(row[..j], z, 0);
    F.AddZero(F.Mul(F.FromU64(row[j]), z[j]));
  }

  /** A row with two nonzero columns j1 < j2 is the sum of their terms. */
  lemma DenseDotTwo(row: seq<nat>, z: DenseVector, j1: nat, j2: nat)
    requires FitsU64(row) && |row| <= |z| && j1 < j2 < |row|
    requires forall k :: 0 <= k < |row| && k != j1 && k != j2 ==> row[k] == 0
    ensures DenseDot(row, z) == F.Add(F.Mul(F.FromU64(row[j1]), z[j1]), F.Mul(F.FromU64(row[j2]), z[j2]))
  {
    DenseDotZeroTail(row, z, j2 + 1);
    var front := row[..j2 + 1];
    assert front[..j2] == row[..j2];
    DenseDotOne(row[..j2], z, j1);
  }

  /** Row `row` is the unit vector for column j. */
  predicate UnitRow(row: seq<nat>, j: nat)
  {
    && FitsU64(row) && j < |row| && row[j] == 1
    && forall k :: 0 <= k < |row| && k != j ==> row[k] == 0
  }

  /** Row `row` has a one in column j2, any u64 in column j1 < j2 and zeros
      elsewhere. */
  predicate PairRow(row: seq<nat>, j1: nat, j2: nat)
  {
    && FitsU64(row) && j1 < j2 < |row| && row[j2] == 1
    && forall k :: 0 <= k < |row| && k != j1 && k != j2 ==> row[k] == 0
  }

  /** The sparse form of a unit row for column j evaluates to z[j]. */
  lemma SparseUnitRow(row: seq<nat>, l: nat, x: DenseVector, w: DenseVector, j: nat)
    requires UnitRow(row, j) && |x| == l && |row| <= 1 + l + |w|
    ensures RowInRange(SparseRow(row, l), x, w)
    ensures RowValue(SparseRow(row, l), x, w) == Assignment(x, w)[j]
  {
    var z := Assignment(x, w);
    SparseRowEvaluates(row, l, x, w);
    DenseDotOne(row, z, j);
    F.MulOne(z[j]);
  }

  /** The sparse form of a pair row evaluates to row[j1] * z[j1] + z[j2]. */
  lemma SparsePairRow(row: seq<nat>, l: nat, x: DenseVector, w: DenseVector, j1: nat, j2: nat)
    requires PairRow(row, j1, j2) && |x| == l && |row| <= 1 + l + |w|
    ensures RowInRange(SparseRow(row, l), x, w)
    ensures RowValue(SparseRow(row, l), x, w)
         == F.Add(F.Mul(F.FromU64(row[j1]), Assignment(x, w)[j1]), Assignment(x, w)[j2])
  {
    var z := Assignment(x, w);
    SparseRowEvaluates(row, l, x, w);
    DenseDotTwo(row, z, j1, j2);
    F.MulOne(z[j2]);
  }

  /** A dense matrix of unit rows, once sparse, selects column cols[i] of z
      in row i. */
  lemma UnitMatrixProd(value: seq<seq<nat>>, l: nat, x: DenseVector, w: DenseVector, cols: seq<nat>)
    requires |x| == l && |cols| == |value|
    requires forall i :: 0 <= i < |value| ==> UnitRow(value[i], cols[i]) && |value[i]| <= 1 + l + |w|
    ensures AllFitU64(value)
    ensures MatrixInRange(DenseToSparse(value, l), x, w)
    ensures |Assignment(x, w)| == 1 + l + |w|
    ensures forall i :: 0 <= i < |value| ==> cols[i] < 1 + l + |w|
    ensures forall i :: 0 <= i < |value| ==>
      Prod(DenseToSparse(value, l), |value|, x, w)[i] == Assignment(x, w)[cols[i]]
  {
    var matrix := DenseToSparse(value, l);
    forall i | 0 <= i < |value|
      ensures RowInRange(matrix[i], x, w) && RowValue(matrix[i], x, w) == Assignment(x, w)[cols[i]]
    {
      SparseUnitRow(value[i], l, x, w, cols[i]);
    }
  }

  /** A dense matrix of pair rows, once sparse, computes
      value[i][c1[i]] * z[c1[i]] + z[c2[i]] in row i. */
  lemma PairMatrixProd(value: seq<seq<nat>>, l: nat, x: DenseVector, w: DenseVector, c1: seq<nat>, c2: seq<nat>)
    requires |x| == l && |c1| == |c2| == |value|
    requires forall i :: 0 <= i < |value| ==> PairRow(value[i], c1[i], c2[i]) && |value[i]| <= 1 + l + |w|
    ensures AllFitU64(value)
    ensures MatrixInRange(DenseToSparse(value, l), x, w)
    ensures |Assignment(x, w)| == 1 + l + |w|
    ensures forall i :: 0 <= i < |value| ==> c1[i] < c2[i] < |value[i]| <= 1 + l + |w|
    ensures forall i :: 0 <= i < |value| ==>
      Prod(DenseToSparse(value, l), |value|, x, w)[i]
        == F.Add(F.Mul(F.FromU64(value[i][c1[i]]), Assignment(x, w)[c1[i]]), Assignment(x, w)[c2[i]])
  {
    var matrix := DenseToSparse(value, l);
    forall i | 0 <= i < |value|
      ensures RowInRange(matrix[i], x, w)
      ensures RowValue(matrix[i], x, w)
           == F.Add(F.Mul(F.FromU64(value[i][c1[i]]), Assignment(x, w)[c1[i]]), Assignment(x, w)[c2[i]])
    {
      SparsePairRow(value[i], l, x, w, c1[i], c2[i]);
    }
  }

  /** The example assignment z = (1, x, w) is [1, x, y, x^2, x^3, x^3 + x]. */
  lemma ExampleAssignment(input: nat)
    requires NoOverflow(input)
    ensures |Assignment(ExampleR1cs(input).x, ExampleR1cs(input).w)| == 6
    ensures forall k :: 0 <= k < 6 ==>
      Assignment(ExampleR1cs(input).x, ExampleR1cs(input).w)[k] == ExampleValues(input)[k]
  {
    var r := ExampleR1cs(input);
    var values := ExampleValues(input);
    var z := Assignment(r.x, r.w);
    assert z == [F.One] + (r.x + r.w);
    assert r.x + r.w == ArrayToWitnesses(values);
  }

  /** Which columns the rows of the three example matrices use. */
  lemma ExampleShapes()
    ensures forall i :: 0 <= i < 4 ==> PairRow(ExampleA[i], [0, 0, 1, 0][i], [1, 3, 4, 5][i])
    ensures forall i :: 0 <= i < 4 ==> UnitRow(ExampleB[i], [1, 1, 0, 0][i])
    ensures forall i :: 0 <= i < 4 ==> UnitRow(ExampleC[i], [3, 4, 5, 2][i])
    ensures forall i :: 0 <= i < 4 ==> |ExampleA[i]| == |ExampleB[i]| == |ExampleC[i]| == 6
  {
    assert PairRow(ExampleA[0], 0, 1) && PairRow(ExampleA[1], 0, 3);
    assert PairRow(ExampleA[2], 1, 4) && PairRow(ExampleA[3], 0, 5);
    assert UnitRow(ExampleB[0], 1) && UnitRow(ExampleB[1], 1);
    assert UnitRow(ExampleB[2], 0) && UnitRow(ExampleB[3], 0);
    assert UnitRow(ExampleC[0], 3) && UnitRow(ExampleC[1], 4);
    assert UnitRow(ExampleC[2], 5) && UnitRow(ExampleC[3], 2);
  }

  /** A z of the example circuit: z1, z3, z1 + z4 and 5 + z5. */
  lemma ExampleProductA(x: DenseVector, w: DenseVector)
    requires |x| == 1 && |w| == 4
    ensures MatrixInRange(DenseToSparse(ExampleA, 1), x, w)
    ensures
      var z := Assignment(x, w);
      var v := Prod(DenseToSparse(ExampleA, 1), 4, x, w);
      v[0] == z[1] && v[1] == z[3] && v[2] == F.Add(z[1], z[4]) && v[3] == F.Add(5, z[5])
  {
    var z := Assignment(x, w);
    ExampleShapes();
    PairMatrixProd(ExampleA, 1, x, w, [0, 0, 1, 0], [1, 3, 4, 5]);
    F.MulZero(z[0]);
    F.AddZero(z[1]);
    F.AddZero(z[3]);
    F.MulOne(z[1]);
    F.MulOne(5);
  }

  /** B z of the example circuit: z1, z1, z0 and z0. */
  lemma ExampleProductB(x: DenseVector, w: DenseVector)
    requires |x| == 1 && |w| == 4
    ensures MatrixInRange(DenseToSparse(ExampleB, 1), x, w)
    ensures
      var z := Assignment(x, w);
      var v := Prod(DenseToSparse(ExampleB, 1), 4, x, w);
      v[0] == z[1] && v[1] == z[1] && v[2] == z[0] && v[3] == z[0]
  {
    ExampleShapes();
    UnitMatrixProd(ExampleB, 1, x, w, [1, 1, 0, 0]);
  }

  /** C z of the example circuit: z3, z4, z5 and z2. */
  lemma ExampleProductC(x: DenseVector, w: DenseVector)
    requires |x| == 1 && |w| == 4
    ensures MatrixInRange(DenseToSparse(ExampleC, 1), x, w)
    ensures
      var z := Assignment(x, w);
      var v := Prod(DenseToSparse(ExampleC, 1), 4, x, w);
      v[0] == z[3] && v[1] == z[4] && v[2] == z[5] && v[3] == z[2]
  {
    ExampleShapes();
    UnitMatrixProd(ExampleC, 1, x, w, [3, 4, 5, 2]);
  }

  /** The example circuit accepts an assignment z = (1, x, w) exactly when
      z3 = z1 * z1, z4 = z3 * z1, z5 = z1 + z4 and z2 = 5 + z5, and its CCS
      form agrees. */
  lemma ExampleCircuitSatIff(x: DenseVector, w: DenseVector)
    requires |x| == 1 && |w| == 4
    ensures R.WellFormed(ExampleCircuit(x, w)) && R.SatReady(ExampleCircuit(x, w))
    ensures C.Evaluable(R.ToCcs(ExampleCircuit(x, w)))
    ensures
      var z := Assignment(x, w);
      R.IsSat(ExampleCircuit(x, w)) <==>
        && F.Mul(z[1], z[1]) == z[3]
        && F.Mul(z[3], z[1]) == z[4]
        && F.Add(z[1], z[4]) == z[5]
        && F.Add(5, z[5]) == z[2]
    ensures C.IsSat(R.ToCcs(ExampleCircuit(x, w))) <==> R.IsSat(ExampleCircuit(x, w))
  {
    var r := ExampleCircuit(x, w);
    ExampleProductA(x, w);
    ExampleProductB(x, w);
    ExampleProductC(x, w);
    CircuitSatIffProducts(r);
    R.ToCcsPreservesSat(r);
  }

  /** Any four-row system whose products are those of the example circuit
      accepts exactly the assignments that satisfy the four equations. */
  lemma CircuitSatIffProducts(r: R.R1cs)
    requires R.WellFormed(r) && r.m == 4 && |r.x| == 1 && |r.w| == 4
    requires
      var z := Assignment(r.x, r.w);
      var az, bz, cz := Prod(r.a, 4, r.x, r.w), Prod(r.b, 4, r.x, r.w), Prod(r.c, 4, r.x, r.w);
      && az[0] == z[1] && az[1] == z[3] && az[2] == F.Add(z[1], z[4]) && az[3] == F.Add(5, z[5])
      && bz[0] == z[1] && bz[1] == z[1] && bz[2] == z[0] && bz[3] == z[0]
      && cz[0] == z[3] && cz[1] == z[4] && cz[2] == z[5] && cz[3] == z[2]
    ensures R.SatReady(r)
    ensures
      var z := Assignment(r.x, r.w);
      R.IsSat(r) <==>
        && F.Mul(z[1], z[1]) == z[3]
        && F.Mul(z[3], z[1]) == z[4]
        && F.Add(z[1], z[4]) == z[5]
        && F.Add(5, z[5]) == z[2]
  {
    var z := Assignment(r.x, r.w);
    var az, bz, cz := Prod(r.a, 4, r.x, r.w), Prod(r.b, 4, r.x, r.w), Prod(r.c, 4, r.x, r.w);
    assert z[0] == F.One;
    F.MulOne(az[2]);
    F.MulOne(az[3]);
    R.IsSatIffHadamard(r);
    if Hadamard(az, bz) == cz {
      assert Hadamard(az, bz)[0] == cz[0] && Hadamard(az, bz)[1] == cz[1];
      assert Hadamard(az, bz)[2] == cz[2] && Hadamard(az, bz)[3] == cz[3];
    }
  }

  /** The claim of the test, for every input whose u64 arithmetic does not
      overflow: the example R1CS is satisfied, and so is its CCS form. */
  lemma ExampleSatisfied(input: nat)
    requires NoOverflow(input)
    ensures R.WellFormed(ExampleR1cs(input))
    ensures R.SatReady(ExampleR1cs(input)) && R.IsSat(ExampleR1cs(input))
    ensures C.Evaluable(R.ToCcs(ExampleR1cs(input))) && C.IsSat(R.ToCcs(ExampleR1cs(input)))
  {
    var r := ExampleR1cs(input);
    ExampleRowsHold(input);
    ExampleCircuitSatIff(r.x, r.w);
  }

  /** The four constraints hold of the example assignment, read off z. */
  lemma ExampleRowsHold(input: nat)
    requires NoOverflow(input)
    ensures
      var r := ExampleR1cs(input);
      var z := Assignment(r.x, r.w);
      && |z| == 6
      && F.Mul(z[1], z[1]) == z[3]
      && F.Mul(z[3], z[1]) == z[4]
      && F.Add(z[1], z[4]) == z[5]
      && F.Add(5, z[5]) == z[2]
      && z[0] == F.One
      && z[1] == input
  {
    var r := ExampleR1cs(input);
    var z := Assignment(r.x, r.w);
    ExampleAssignment(input);
    var v := ExampleValues(input);
    SquareBelowCube(input);
    var square := input * input;
    var cube := square * input;
    assert v == [1, input, cube + input + 5, square, cube, cube + input];
    F.MulSmall(input, input);
    F.MulSmall(square, input);
  }

  /** `r1cs_test`: inputs 1 to 9. */
  lemma ExampleTestInputs()
    ensures forall input :: 1 <= input <= 9 ==>
      NoOverflow(input) && R.SatReady(ExampleR1cs(input)) && R.IsSat(ExampleR1cs(input))
  {
    forall input | 1 <= input <= 9
      ensures NoOverflow(input) && R.SatReady(ExampleR1cs(input)) && R.IsSat(ExampleR1cs(input))
    {
      assert input * input * input <= 729 by {
        assert input * input <= 81;
      }
      ExampleSatisfied(input);
    }
  }

  /** Changing the last witness entry x^3 + x to x^3 + x + 1 breaks the third
      constraint, so both the R1CS check and its CCS form reject. */
  lemma ExampleRejectsWrongWitness(input: nat)
    requires NoOverflow(input)
    ensures
      var r := ExampleR1cs(input);
      var bad := r.(w := r.w[3 := F.Add(r.w[3], F.One)]);
      && R.WellFormed(bad) && R.SatReady(bad)
      && !R.IsSat(bad)
      && C.Evaluable(R.ToCcs(bad)) && !C.IsSat(R.ToCcs(bad))
  {
    var r := ExampleR1cs(input);
    var w' := r.w[3 := F.Add(r.w[3], F.One)];
    var z, z' := Assignment(r.x, r.w), Assignment(r.x, w');
    ExampleRowsHold(input);
    assert z'[1] == z[1] && z'[4] == z[4] && z'[5] == F.Add(z[5], F.One);
    assert r.(w := w') == ExampleCircuit(r.x, w');
    ExampleCircuitSatIff(r.x, w');
  }
}
