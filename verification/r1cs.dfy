/** The Rank-1 Constraint System (src/r1cs.rs): its satisfiability check
    (A z) o (B z) = C z with z = (1, x, w), and its repackaging as a CCS.

    `m` is the number of constraints, i.e. the row count of A, B and C.
 */
module R1cs {
  import F = Field
  import opened Matrix
  import C = Ccs

  datatype R1cs = R1cs(
    m: nat,              // constraint (row) count
    n: nat,              // declared variable count; never read
    l: nat,              // instance length; never read by the checks
    a: SparseMatrix,
    b: SparseMatrix,
    c: SparseMatrix,
    x: DenseVector,      // instance
    w: DenseVector       // witness
  )

  /** Row i of A, B and C exists and every wire in it resolves: what
      evaluating constraint i reads without going out of bounds. */
  predicate RowReady(r: R1cs, i: nat)
  {
    && i < |r.a| && i < |r.b| && i < |r.c|
    && RowInRange(r.a[i], r.x, r.w) && RowInRange(r.b[i], r.x, r.w) && RowInRange(r.c[i], r.x, r.w)
  }

  /** Every one of the m constraints can be evaluated. */
  predicate SatReady(r: R1cs)
  {
    forall i :: 0 <= i < r.m ==> RowReady(r, i)
  }

  /** A, B and C have exactly m rows and every wire resolves inside x or w. */
  predicate WellFormed(r: R1cs)
  {
    && |r.a| == r.m && |r.b| == r.m && |r.c| == r.m
    && MatrixInRange(r.a, r.x, r.w) && MatrixInRange(r.b, r.x, r.w) && MatrixInRange(r.c, r.x, r.w)
  }

  /** The private `dot_product`: the same left fold as `prod` performs on one
      row, but multiplying the resolved value by the coefficient. */
  function DotProduct(r: R1cs, row: Row): F.Fe
    requires RowInRange(row, r.x, r.w)
    decreases |row|
  {
    if |row| == 0 then F.Zero
    else
      var e := row[|row| - 1];
      F.Add(DotProduct(r, row[..|row| - 1]), F.Mul(Resolve(e.wire, r.x, r.w), e.coeff))
  }

  /** Constraint i holds: (A_i . z) * (B_i . z) == C_i . z. */
  predicate RowSatisfied(r: R1cs, i: nat)
    requires RowReady(r, i)
  {
    F.Mul(DotProduct(r, r.a[i]), DotProduct(r, r.b[i])) == DotProduct(r, r.c[i])
  }

  /** `(i..m).all(...)`: every constraint from i on holds. */
  function SatFrom(r: R1cs, i: nat): (sat: bool)
    requires SatReady(r) && i <= r.m
    ensures sat <==> forall k :: i <= k < r.m ==> RowSatisfied(r, k)
    decreases r.m - i
  {
    i == r.m || (RowSatisfied(r, i) && SatFrom(r, i + 1))
  }

  /** `is_sat`: every one of the m constraints holds. */
  function IsSat(r: R1cs): (sat: bool)
    requires SatReady(r)
    ensures sat <==> forall i :: 0 <= i < r.m ==> RowSatisfied(r, i)
    ensures r.m == 0 ==> sat
  {
    SatFrom(r, 0)
  }

  /** Constraint k can be evaluated and holds. */
  predicate RowHolds(r: R1cs, k: nat)
  {
    RowReady(r, k) && RowSatisfied(r, k)
  }

  /** Constraints i..k-1 can all be evaluated and hold. */
  predicate HoldsBetween(r: R1cs, i: nat, k: nat)
  {
    forall j :: i <= j < k ==> RowHolds(r, j)
  }

  /** `(i..m).all(...)` including its panics: None when the walk reaches a
      row it cannot evaluate, Some(false) at the first violated constraint,
      Some(true) when all hold. Rows after the first violation are never read. */
  function CheckFrom(r: R1cs, i: nat): (res: Option<bool>)
    requires i <= r.m
    ensures res == Some(true) <==> HoldsBetween(r, i, r.m)
    decreases r.m - i
  {
    if i == r.m then Some(true)
    else
      HoldsBetweenStep(r, i, r.m);
      if !RowReady(r, i) then None
    else if !RowSatisfied(r, i) then Some(false)
    else CheckFrom(r, i + 1)
  }

  /** Splitting off the first row of a range. */
  lemma HoldsBetweenStep(r: R1cs, i: nat, k: nat)
    requires i < k
    ensures HoldsBetween(r, i, k) <==> RowHolds(r, i) && HoldsBetween(r, i + 1, k)
  {
  }

  /** `is_sat` on any input: the verdict, or None where the source panics. */
  function CheckedIsSat(r: R1cs): (res: Option<bool>)
    ensures res == Some(true) <==> HoldsBetween(r, 0, r.m)
  {
    CheckFrom(r, 0)
  }

  /** `to_ccs`: matrices [A, B, C], multisets [[0, 1], [2]], constants [1, -1],
      and the same m, x and w. */
  function ToCcs(r: R1cs): (s: C.Ccs)
    ensures C.HasShape(s, 3, 2) && C.IndicesInRange(s)
    ensures s.m == r.m && s.x == r.x && s.w == r.w
    ensures s.matrices == [r.a, r.b, r.c]
    ensures s.multisets == [[0, 1], [2]] && s.constants == [F.One, F.Neg(F.One)]
  {
    C.Ccs(r.m, [r.a, r.b, r.c], [[0, 1], [2]], [F.One, F.Neg(F.One)], r.x, r.w)
  }

  // ---------------------------------------------------------------------
  // Properties

  lemma WellFormedIsSatReady(r: R1cs)
    requires WellFormed(r)
    ensures SatReady(r)
  {
  }

  /** `dot_product` computes the same value as the row fold of `prod`. */
  lemma {:induction false} DotProductIsRowValue(r: R1cs, row: Row)
    requires RowInRange(row, r.x, r.w)
    ensures DotProduct(r, row) == RowValue(row, r.x, r.w)
    decreases |row|
  {
    if |row| > 0 {
      var e := row[|row| - 1];
      DotProductIsRowValue(r, row[..|row| - 1]);
      F.MulComm(Resolve(e.wire, r.x, r.w), e.coeff);
    }
  }

  /** The walk from row i panics exactly when the first row from i on that
      is not both readable and satisfied is unreadable. */
  lemma {:induction false} CheckFromPanics(r: R1cs, i: nat)
    requires i <= r.m
    ensures CheckFrom(r, i) == None <==> exists k :: i <= k < r.m && !RowReady(r, k) && HoldsBetween(r, i, k)
    decreases r.m - i
  {
    if i < r.m {
      assert HoldsBetween(r, i, i);
      if RowReady(r, i) && RowSatisfied(r, i) {
        CheckFromPanics(r, i + 1);
        forall k | i + 1 <= k <= r.m
          ensures HoldsBetween(r, i, k) <==> HoldsBetween(r, i + 1, k)
        {
          assert RowHolds(r, i);
        }
        if CheckFrom(r, i) == None {
          var k :| i + 1 <= k < r.m && !RowReady(r, k) && HoldsBetween(r, i + 1, k);
          assert HoldsBetween(r, i, k);
        }
      } else if RowReady(r, i) {
        forall k | i < k <= r.m
          ensures !HoldsBetween(r, i, k)
        {
          assert !RowHolds(r, i);
        }
      }
    }
  }

  /** With every row readable the walk cannot panic. */
  lemma ReadyNeverPanics(r: R1cs)
    requires SatReady(r)
    ensures CheckFrom(r, 0) != None
  {
    CheckFromPanics(r, 0);
  }

  /** With every row readable, all rows holding is IsSat. */
  lemma HoldsIffSat(r: R1cs)
    requires SatReady(r)
    ensures HoldsBetween(r, 0, r.m) <==> IsSat(r)
  {
    forall j | 0 <= j < r.m
      ensures RowHolds(r, j) <==> RowSatisfied(r, j)
    {
      assert RowReady(r, j);
    }
  }

  /** All rows holding makes every row readable. */
  lemma HoldsIsReady(r: R1cs)
    requires HoldsBetween(r, 0, r.m)
    ensures SatReady(r)
  {
    forall j | 0 <= j < r.m
      ensures RowReady(r, j)
    {
      assert RowHolds(r, j);
    }
  }

  /** Where every row can be evaluated the walk never panics and returns
      the verdict of IsSat; a Some(true) verdict implies every row was ready. */
  lemma CheckedIsSatAgrees(r: R1cs)
    ensures SatReady(r) ==> CheckedIsSat(r) == Some(IsSat(r))
    ensures CheckedIsSat(r) == Some(true) ==> SatReady(r) && IsSat(r)
  {
    var res := CheckFrom(r, 0);
    if SatReady(r) {
      ReadyNeverPanics(r);
      HoldsIffSat(r);
      if !IsSat(r) {
        assert res.value != true;
      }
    }
    if res == Some(true) {
      HoldsIsReady(r);
      HoldsIffSat(r);
    }
  }

  /** The check only reads m, the three matrices, x and w: the declared
      sizes n and l play no part. */
  lemma IsSatIgnoresSizes(r: R1cs, n: nat, l: nat)
    requires SatReady(r)
    ensures SatReady(r.(n := n, l := l))
    ensures IsSat(r.(n := n, l := l)) == IsSat(r)
  {
    var r' := r.(n := n, l := l);
    forall i | 0 <= i < r.m
      ensures RowReady(r', i)
    {
      assert RowReady(r, i);
    }
    forall i | 0 <= i < r.m
      ensures RowSatisfied(r', i) == RowSatisfied(r, i)
    {
      DotProductIsRowValue(r, r.a[i]);
      DotProductIsRowValue(r', r.a[i]);
      DotProductIsRowValue(r, r.b[i]);
      DotProductIsRowValue(r', r.b[i]);
      DotProductIsRowValue(r, r.c[i]);
      DotProductIsRowValue(r', r.c[i]);
    }
  }

  /** The row-wise check is the vector relation (A z) o (B z) == C z. */
  lemma IsSatIffHadamard(r: R1cs)
    requires WellFormed(r)
    ensures SatReady(r)
    ensures IsSat(r) <==>
      Hadamard(Prod(r.a, r.m, r.x, r.w), Prod(r.b, r.m, r.x, r.w)) == Prod(r.c, r.m, r.x, r.w)
  {
    var az, bz, cz := Prod(r.a, r.m, r.x, r.w), Prod(r.b, r.m, r.x, r.w), Prod(r.c, r.m, r.x, r.w);
    forall i | 0 <= i < r.m
      ensures RowSatisfied(r, i) <==> Hadamard(az, bz)[i] == cz[i]
    {
      DotProductIsRowValue(r, r.a[i]);
      DotProductIsRowValue(r, r.b[i]);
      DotProductIsRowValue(r, r.c[i]);
    }
    if IsSat(r) {
      assert Hadamard(az, bz) == cz;
    }
  }

  /** The conversion preserves satisfiability: with constants [1, -1] and
      multisets [[0, 1], [2]], the CCS relation holds exactly when the R1CS
      check does. The CCS relation is the extension defined in module Ccs. */
  lemma ToCcsPreservesSat(r: R1cs)
    requires WellFormed(r)
    ensures SatReady(r) && C.Evaluable(ToCcs(r))
    ensures IsSat(r) <==> C.IsSat(ToCcs(r))
  {
    WellFormedIsSatReady(r);
    C.R1csShapeRelation(ToCcs(r));
    IsSatIffHadamard(r);
  }
}
