/** Sparse matrices and dense vectors over the scalar field (src/matrix.rs).

    A sparse matrix is a sequence of rows; a row is a list of
    (wire, coefficient) entries. Evaluating it against an instance x and a
    witness w multiplies it by the implicit assignment z = (1, x, w) without
    ever building z.
 */
module Matrix {
  import F = Field

  datatype Option<T> = None | Some(value: T)

  /** One slot of the assignment z = (1, x, w). */
  datatype Wire = One | Instance(index: nat) | Witness(index: nat)

  /** A stored entry of a sparse row: a wire and its coefficient. */
  datatype Element = Element(wire: Wire, coeff: F.Fe)

  type Row = seq<Element>
  type SparseMatrix = seq<Row>
  type DenseVector = seq<F.Fe>

  // ---------------------------------------------------------------------
  // Elements

  function Get(e: Element): (pair: (Wire, F.Fe))
    ensures Element(pair.0, pair.1) == e
  {
    (e.wire, e.coeff)
  }

  /** `Element::from(wire)`: the wire with coefficient one. */
  function FromWire(wire: Wire): (e: Element)
    ensures Get(e) == (wire, F.One)
  {
    Element(wire, F.One)
  }

  /** `Element::from(f)`: the constant slot scaled by f. */
  function FromScalar(c: F.Fe): (e: Element)
    ensures Get(e) == (Wire.One, c)
  {
    Element(Wire.One, c)
  }

  // ---------------------------------------------------------------------
  // Evaluation against z = (1, x, w)

  /** The explicit assignment vector the sparse evaluation never builds. */
  function Assignment(x: DenseVector, w: DenseVector): DenseVector
  {
    [F.One] + x + w
  }

  /** Position of a wire inside the assignment, with l instance entries. */
  function Column(wire: Wire, l: nat): nat
  {
    match wire
    case One => 0
    case Instance(k) => 1 + k
    case Witness(k) => 1 + l + k
  }

  predicate WireInRange(wire: Wire, x: DenseVector, w: DenseVector)
  {
    match wire
    case One => true
    case Instance(k) => k < |x|
    case Witness(k) => k < |w|
  }

  predicate RowInRange(row: Row, x: DenseVector, w: DenseVector)
  {
    forall k :: 0 <= k < |row| ==> WireInRange(row[k].wire, x, w)
  }

  predicate MatrixInRange(matrix: SparseMatrix, x: DenseVector, w: DenseVector)
  {
    forall i :: 0 <= i < |matrix| ==> RowInRange(matrix[i], x, w)
  }

  /** The value a wire stands for: 1, x[k] or w[k]. */
  function Resolve(wire: Wire, x: DenseVector, w: DenseVector): (v: F.Fe)
    requires WireInRange(wire, x, w)
    ensures v == Assignment(x, w)[Column(wire, |x|)]
  {
    match wire
    case Instance(k) => x[k]
    case Witness(k) => w[k]
    case One => F.One
  }

  /** The contribution of one stored entry: coeff * value. */
  function Term(e: Element, x: DenseVector, w: DenseVector): F.Fe
    requires WireInRange(e.wire, x, w)
  {
    F.Mul(e.coeff, Resolve(e.wire, x, w))
  }

  /** The fold of one row in `prod`: starting from zero, add each entry's term
      in stored order (a left fold, so the last entry is added outermost). */
  function RowValue(row: Row, x: DenseVector, w: DenseVector): (v: F.Fe)
    requires RowInRange(row, x, w)
    decreases |row|
  {
    if |row| == 0 then F.Zero
    else F.Add(RowValue(row[..|row| - 1], x, w), Term(row[|row| - 1], x, w))
  }

  /** Reference sum over the entries of a row, accumulated from the front. */
  function RowSum(row: Row, x: DenseVector, w: DenseVector): F.Fe
    requires RowInRange(row, x, w)
    decreases |row|
  {
    if |row| == 0 then F.Zero
    else F.Add(Term(row[0], x, w), RowSum(row[1..], x, w))
  }

  function Zeros(m: nat): (v: DenseVector)
    ensures |v| == m
    ensures forall i :: 0 <= i < m ==> v[i] == F.Zero
  {
    seq(m, _ => F.Zero)
  }

  function Ones(m: nat): (v: DenseVector)
    ensures |v| == m
    ensures forall i :: 0 <= i < m ==> v[i] == F.One
  {
    seq(m, _ => F.One)
  }

  /** `SparseMatrix::prod`: start from m zeros and overwrite position i with
      the fold of stored row i, for every stored row in turn. Writing to a
      position at or beyond m would be out of bounds, hence |matrix| <= m. */
  function Prod(matrix: SparseMatrix, m: nat, x: DenseVector, w: DenseVector): (v: DenseVector)
    requires |matrix| <= m
    requires MatrixInRange(matrix, x, w)
    ensures |v| == m
    ensures forall i :: 0 <= i < |matrix| ==> v[i] == RowValue(matrix[i], x, w)
    ensures forall i :: |matrix| <= i < m ==> v[i] == F.Zero
    decreases |matrix|
  {
    if |matrix| == 0 then Zeros(m)
    else
      var last := |matrix| - 1;
      Prod(matrix[..last], m, x, w)[last := RowValue(matrix[last], x, w)]
  }

  /** The same evaluation written as the source's loop. */
  method ProdLoop(matrix: SparseMatrix, m: nat, x: DenseVector, w: DenseVector)
    returns (vectors: DenseVector)
    requires |matrix| <= m
    requires MatrixInRange(matrix, x, w)
    ensures |vectors| == m
    ensures forall i :: 0 <= i < |matrix| ==> vectors[i] == RowSum(matrix[i], x, w)
    ensures forall i :: |matrix| <= i < m ==> vectors[i] == F.Zero
  {
    vectors := Zeros(m);
    var index := 0;
    while index < |matrix|
      invariant index <= |matrix|
      invariant |vectors| == m
      invariant forall i :: 0 <= i < index ==> vectors[i] == RowSum(matrix[i], x, w)
      invariant forall i :: index <= i < m ==> vectors[i] == F.Zero
    {
      var sum := F.Zero;
      var k := 0;
      var elements := matrix[index];
      while k < |elements|
        invariant k <= |elements|
        invariant sum == RowValue(elements[..k], x, w)
      {
        assert elements[..k + 1][..k] == elements[..k];
        sum := F.Add(sum, Term(elements[k], x, w));
        k := k + 1;
      }
      assert elements[..k] == elements;
      RowValueIsRowSum(elements, x, w);
      vectors := vectors[index := sum];
      index := index + 1;
    }
  }

  // ---------------------------------------------------------------------
  // Properties of row evaluation

  /** Empty stored rows evaluate to zero, like the rows that are not stored. */
  lemma EmptyRowsProdZero(matrix: SparseMatrix, m: nat, x: DenseVector, w: DenseVector)
    requires |matrix| <= m
    requires forall i :: 0 <= i < |matrix| ==> |matrix[i]| == 0
    ensures MatrixInRange(matrix, x, w)
    ensures Prod(matrix, m, x, w) == Zeros(m)
  {
    var v := Prod(matrix, m, x, w);
    assert forall i :: 0 <= i < |matrix| ==> v[i] == RowValue(matrix[i], x, w);
  }

  /** Taking one more entry extends the fold by that entry's term. */
  lemma RowValueSnoc(row: Row, e: Element, x: DenseVector, w: DenseVector)
    requires RowInRange(row + [e], x, w)
    ensures RowInRange(row, x, w) && WireInRange(e.wire, x, w)
    ensures RowValue(row + [e], x, w) == F.Add(RowValue(row, x, w), Term(e, x, w))
  {
    assert forall k :: 0 <= k < |row| ==> row[k] == (row + [e])[k];
    assert (row + [e])[|row|] == e;
    assert (row + [e])[..|row|] == row;
  }

  /** Appending an entry whose wire resolves keeps a row in range. */
  lemma RowInRangeSnoc(row: Row, e: Element, x: DenseVector, w: DenseVector)
    requires RowInRange(row, x, w) && WireInRange(e.wire, x, w)
    ensures RowInRange(row + [e], x, w)
  {
    assert forall k :: 0 <= k < |row| ==> (row + [e])[k] == row[k];
    assert (row + [e])[|row|] == e;
  }

  /** The left fold `prod` performs equals the plain sum over the row. */
  lemma {:induction false} RowValueIsRowSum(row: Row, x: DenseVector, w: DenseVector)
    requires RowInRange(row, x, w)
    ensures RowValue(row, x, w) == RowSum(row, x, w)
    decreases |row|
  {
    if |row| > 1 {
      var n := |row| - 1;
      var front := row[..n];
      var mid := row[1..n];
      assert front[1..] == mid;
      assert row[1..][..n - 1] == mid;
      RowValueIsRowSum(front, x, w);
      RowValueIsRowSum(row[1..], x, w);
      RowValueIsRowSum(mid, x, w);
      // RowValue(row) = (t0 + S(mid)) + tn and RowSum(row) = t0 + (S(mid) + tn)
      F.AddAssoc(Term(row[0], x, w), RowSum(mid, x, w), Term(row[n], x, w));
    } else if |row| == 1 {
      F.AddZero(Term(row[0], x, w));
    }
  }

  /** Removing the entry at position k splits its term off the sum. */
  lemma {:induction false} RowSumRemove(row: Row, k: nat, x: DenseVector, w: DenseVector)
    requires k < |row|
    requires RowInRange(row, x, w)
    ensures RowInRange(row[..k] + row[k + 1..], x, w)
    ensures RowSum(row, x, w) == F.Add(Term(row[k], x, w), RowSum(row[..k] + row[k + 1..], x, w))
    decreases k
  {
    var rest := row[..k] + row[k + 1..];
    assert forall i :: 0 <= i < |rest| ==> rest[i] == (if i < k then row[i] else row[i + 1]);
    if k == 0 {
      assert rest == row[1..];
    } else {
      var tail := row[1..];
      RowSumRemove(tail, k - 1, x, w);
      var tailRest := tail[..k - 1] + tail[k..];
      assert rest == [row[0]] + tailRest;
      assert rest[1..] == tailRest;
      var t0, tk := Term(row[0], x, w), Term(row[k], x, w);
      var s := RowSum(tailRest, x, w);
      // t0 + (tk + s) == tk + (t0 + s)
      F.AddAssoc(t0, tk, s);
      F.AddComm(t0, tk);
      F.AddAssoc(tk, t0, s);
    }
  }

  /** A row is an unordered collection: its value does not depend on the
      order in which the entries are stored. */
  lemma {:induction false} RowValuePermutation(row: Row, other: Row, x: DenseVector, w: DenseVector)
    requires multiset(row) == multiset(other)
    requires RowInRange(row, x, w) && RowInRange(other, x, w)
    ensures RowValue(row, x, w) == RowValue(other, x, w)
  {
    RowValueIsRowSum(row, x, w);
    RowValueIsRowSum(other, x, w);
    RowSumPermutation(row, other, x, w);
  }

  lemma {:induction false} RowSumPermutation(row: Row, other: Row, x: DenseVector, w: DenseVector)
    requires multiset(row) == multiset(other)
    requires RowInRange(row, x, w) && RowInRange(other, x, w)
    ensures RowSum(row, x, w) == RowSum(other, x, w)
    decreases |row|
  {
    assert |row| == |multiset(row)| == |multiset(other)| == |other|;
    if |row| > 0 {
      var k := IndexOf(other, row[0]);
      RowSumRemove(other, k, x, w);
      var rest := other[..k] + other[k + 1..];
      RemovePreservesMultiset(row, other, k);
      RowSumPermutation(row[1..], rest, x, w);
    }
  }

  /** A position holding a value known to occur in the sequence. */
  function IndexOf<T(==)>(s: seq<T>, e: T): (k: nat)
    requires e in multiset(s)
    ensures k < |s| && s[k] == e
  {
    if s[0] == e then 0
    else
      assert s == [s[0]] + s[1..];
      1 + IndexOf(s[1..], e)
  }

  lemma RemovePreservesMultiset<T>(row: seq<T>, other: seq<T>, k: nat)
    requires |row| > 0 && k < |other| && other[k] == row[0]
    requires multiset(row) == multiset(other)
    ensures multiset(row[1..]) == multiset(other[..k] + other[k + 1..])
  {
    assert other == other[..k] + [other[k]] + other[k + 1..];
    assert row == [row[0]] + row[1..];
    calc {
      multiset(other);
      multiset(other[..k]) + multiset{other[k]} + multiset(other[k + 1..]);
      multiset{row[0]} + multiset(other[..k] + other[k + 1..]);
    }
    assert multiset(row) == multiset{row[0]} + multiset(row[1..]);
    assert multiset(row[1..]) == multiset(row) - multiset{row[0]};
    assert multiset(other[..k] + other[k + 1..]) == multiset(other) - multiset{row[0]};
  }

  // ---------------------------------------------------------------------
  // Dense vector algebra

  /** The common shape of the three binary operators: zip two vectors and
      combine positions with op. */
  function ZipWith(u: DenseVector, v: DenseVector, op: (F.Fe, F.Fe) -> F.Fe): (r: DenseVector)
    requires |u| == |v|
    ensures |r| == |u|
    ensures forall i :: 0 <= i < |r| ==> r[i] == op(u[i], v[i])
    decreases |u|
  {
    if |u| == 0 then []
    else [op(u[0], v[0])] + ZipWith(u[1..], v[1..], op)
  }

  /** `DenseVectors * F`: every entry times the scalar. No length check. */
  function Scale(v: DenseVector, c: F.Fe): (r: DenseVector)
    ensures |r| == |v|
    ensures forall i :: 0 <= i < |r| ==> r[i] == F.Mul(v[i], c)
    decreases |v|
  {
    if |v| == 0 then []
    else [F.Mul(v[0], c)] + Scale(v[1..], c)
  }

  /** `DenseVectors * DenseVectors`: the Hadamard (entrywise) product. The
      source asserts equal lengths. */
  function Hadamard(u: DenseVector, v: DenseVector): (r: DenseVector)
    requires |u| == |v|
    ensures |r| == |u|
    ensures forall i :: 0 <= i < |r| ==> r[i] == F.Mul(u[i], v[i])
  {
    ZipWith(u, v, F.Mul)
  }

  /** `DenseVectors + DenseVectors`, lengths asserted equal. */
  function AddVec(u: DenseVector, v: DenseVector): (r: DenseVector)
    requires |u| == |v|
    ensures |r| == |u|
    ensures forall i :: 0 <= i < |r| ==> r[i] == F.Add(u[i], v[i])
  {
    ZipWith(u, v, F.Add)
  }

  /** `DenseVectors - DenseVectors`, lengths asserted equal. */
  function SubVec(u: DenseVector, v: DenseVector): (r: DenseVector)
    requires |u| == |v|
    ensures |r| == |u|
    ensures forall i :: 0 <= i < |r| ==> r[i] == F.Sub(u[i], v[i])
  {
    ZipWith(u, v, F.Sub)
  }

  /** Adding the all-zero vector leaves a vector unchanged, on either side. */
  lemma AddZerosIdentity(v: DenseVector)
    ensures AddVec(v, Zeros(|v|)) == v
    ensures AddVec(Zeros(|v|), v) == v
  {
    forall i | 0 <= i < |v|
      ensures AddVec(v, Zeros(|v|))[i] == v[i] && AddVec(Zeros(|v|), v)[i] == v[i]
    {
      F.AddZero(v[i]);
    }
  }

  /** Subtraction undoes addition. */
  lemma SubUndoesAdd(u: DenseVector, v: DenseVector)
    requires |u| == |v|
    ensures SubVec(AddVec(u, v), v) == u
  {
    var s := SubVec(AddVec(u, v), v);
    forall i | 0 <= i < |u|
      ensures s[i] == u[i]
    {
      var d := s[i];
      assert F.Add(d, v[i]) == F.Add(u[i], v[i]);
      F.AddComm(d, v[i]);
      F.AddComm(u[i], v[i]);
    }
  }

  /** The entrywise operators are commutative. */
  lemma HadamardComm(u: DenseVector, v: DenseVector)
    requires |u| == |v|
    ensures Hadamard(u, v) == Hadamard(v, u)
  {
    forall i | 0 <= i < |u|
      ensures Hadamard(u, v)[i] == Hadamard(v, u)[i]
    {
      F.MulComm(u[i], v[i]);
    }
  }

  lemma AddVecComm(u: DenseVector, v: DenseVector)
    requires |u| == |v|
    ensures AddVec(u, v) == AddVec(v, u)
  {
    forall i | 0 <= i < |u|
      ensures AddVec(u, v)[i] == AddVec(v, u)[i]
    {
      F.AddComm(u[i], v[i]);
    }
  }

  /** Scaling by c is the Hadamard product with the constant vector c. */
  lemma ScaleIsHadamardConst(v: DenseVector, c: F.Fe)
    ensures Scale(v, c) == Hadamard(v, seq(|v|, _ => c))
  {
  }

  /** The all-ones vector is the unit of the Hadamard product, and one the
      unit of scaling. */
  lemma HadamardOnesIdentity(v: DenseVector)
    ensures Hadamard(Ones(|v|), v) == v
    ensures Scale(v, F.One) == v
  {
    forall i | 0 <= i < |v|
      ensures Hadamard(Ones(|v|), v)[i] == v[i] && Scale(v, F.One)[i] == v[i]
    {
      F.MulOne(v[i]);
    }
  }

  // ---------------------------------------------------------------------
  // Iteration over a dense vector

  datatype VectorIter = VectorIter(vector: DenseVector, index: nat)

  /** `DenseVectors::iter`: a cursor at the first position. */
  function Iter(v: DenseVector): (it: VectorIter)
    ensures it.vector == v && it.index == 0
  {
    VectorIter(v, 0)
  }

  /** `Iterator::next`: the item at the cursor and the advanced cursor, or
      None and an unchanged cursor once the cursor has reached the end. */
  function Next(it: VectorIter): (step: (Option<F.Fe>, VectorIter))
    ensures step.1.vector == it.vector
    ensures step.0.Some? <==> it.index < |it.vector|
    ensures step.0.Some? ==> step.0.value == it.vector[it.index] && step.1.index == it.index + 1
    ensures step.0.None? ==> step.1 == it
  {
    if it.index < |it.vector| then
      (Some(it.vector[it.index]), VectorIter(it.vector, it.index + 1))
    else
      (None, it)
  }

  /** Everything a consumer collects by calling Next until it returns None. */
  function Drain(it: VectorIter): seq<F.Fe>
    decreases |it.vector| - it.index
  {
    var (item, rest) := Next(it);
    match item
    case None => []
    case Some(v) => [v] + Drain(rest)
  }

  /** The iterator yields exactly the stored entries from the cursor on, in
      index order. */
  lemma {:induction false} DrainYieldsSuffix(it: VectorIter)
    requires it.index <= |it.vector|
    ensures Drain(it) == it.vector[it.index..]
    decreases |it.vector| - it.index
  {
    if it.index < |it.vector| {
      DrainYieldsSuffix(Next(it).1);
    }
  }

  /** A fresh iterator yields the whole vector, and once exhausted keeps
      answering None. */
  lemma IterYieldsVector(v: DenseVector)
    ensures Drain(Iter(v)) == v
    ensures Next(VectorIter(v, |v|)).0 == None
  {
    DrainYieldsSuffix(Iter(v));
  }
}
