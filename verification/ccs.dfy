/** The Customizable Constraint System record (src/ccs.rs).

    The source fixes the number of matrices t and of multisets/constants q
    as const generic array lengths; here they are lengths of sequences and
    `HasShape` states the constraint the array types impose. Multisets are
    lists of matrix indices, which is how the conversion from R1CS fills
    them.

    The satisfiability relation below is NOT part of the source, which has
    no such function. It is an extension following the definition of CCS
    in Setty, Thaler and Wahby, "Customizable constraint systems for
    succinct arguments" (IACR ePrint 2023/552, section 2):
        sum over i < q of  constants[i] * (Hadamard product over j in multisets[i] of M_j z)  =  0.
 */
module Ccs {
  import F = Field
  import opened Matrix

  datatype Ccs = Ccs(
    m: nat,                        // row count shared by every matrix
    matrices: seq<SparseMatrix>,   // t matrices
    multisets: seq<seq<nat>>,      // q lists of matrix indices
    constants: seq<F.Fe>,          // q constants
    x: DenseVector,                // instance
    w: DenseVector                 // witness
  )

  /** The array lengths of `Ccs<F, t, q>`: t matrices, q multisets, q constants. */
  predicate HasShape(c: Ccs, t: nat, q: nat)
  {
    |c.matrices| == t && |c.multisets| == q && |c.constants| == q
  }

  /** Every index listed in s names one of n matrices. */
  predicate IndicesBelow(s: seq<nat>, n: nat)
  {
    forall k :: 0 <= k < |s| ==> s[k] < n
  }

  /** Every multiset names only matrices that exist. */
  predicate IndicesInRange(c: Ccs)
  {
    forall i :: 0 <= i < |c.multisets| ==> IndicesBelow(c.multisets[i], |c.matrices|)
  }

  // ---------------------------------------------------------------------
  // Extension: the CCS relation

  /** What evaluating the relation needs: one constant per multiset, indices
      in range, and every matrix evaluable with the shared row count m. */
  predicate Evaluable(c: Ccs)
  {
    && |c.constants| == |c.multisets|
    && IndicesInRange(c)
    && forall j :: 0 <= j < |c.matrices| ==> |c.matrices[j]| <= c.m && MatrixInRange(c.matrices[j], c.x, c.w)
  }

  /** M_j z for every matrix j. */
  function MatrixProducts(c: Ccs): (zs: seq<DenseVector>)
    requires Evaluable(c)
    ensures |zs| == |c.matrices|
    ensures forall j :: 0 <= j < |zs| ==> zs[j] == Prod(c.matrices[j], c.m, c.x, c.w)
  {
    seq(|c.matrices|, j requires 0 <= j < |c.matrices| => Prod(c.matrices[j], c.m, c.x, c.w))
  }

  /** The Hadamard product, in order, of the vectors a multiset names,
      starting from the all-ones vector. */
  function MultisetProduct(zs: seq<DenseVector>, s: seq<nat>, m: nat): (r: DenseVector)
    requires forall j :: 0 <= j < |zs| ==> |zs[j]| == m
    requires IndicesBelow(s, |zs|)
    ensures |r| == m
    decreases |s|
  {
    if |s| == 0 then Ones(m)
    else Hadamard(MultisetProduct(zs, s[..|s| - 1], m), zs[s[|s| - 1]])
  }

  /** Reference product at entry i: the factors zs[s[k]][i] multiplied
      from the front, starting from one. */
  function EntryProduct(zs: seq<DenseVector>, s: seq<nat>, i: nat): F.Fe
    requires forall j :: 0 <= j < |zs| ==> i < |zs[j]|
    requires IndicesBelow(s, |zs|)
    decreases |s|
  {
    if |s| == 0 then F.One
    else F.Mul(zs[s[0]][i], EntryProduct(zs, s[1..], i))
  }

  /** Entry i of the Hadamard product over a multiset is the product of the
      named vectors' entries i. */
  lemma {:induction false} MultisetProductEntry(zs: seq<DenseVector>, s: seq<nat>, m: nat, i: nat)
    requires forall j :: 0 <= j < |zs| ==> |zs[j]| == m
    requires IndicesBelow(s, |zs|)
    requires i < m
    ensures MultisetProduct(zs, s, m)[i] == EntryProduct(zs, s, i)
    decreases |s|
  {
    if |s| == 1 {
      assert s[..0] == [];
      F.MulOne(zs[s[0]][i]);
      assert s[1..] == [];
      F.MulComm(F.One, zs[s[0]][i]);
    } else if |s| > 1 {
      var n := |s| - 1;
      var front, mid := s[..n], s[1..n];
      assert front[1..] == mid;
      assert s[1..][..n - 1] == mid;
      MultisetProductEntry(zs, front, m, i);
      EntryProductSnoc(zs, s, i);
    }
  }

  /** The front-first product of s is the front-first product of all but the
      last index, times the last factor. */
  lemma {:induction false} EntryProductSnoc(zs: seq<DenseVector>, s: seq<nat>, i: nat)
    requires forall j :: 0 <= j < |zs| ==> i < |zs[j]|
    requires IndicesBelow(s, |zs|)
    requires |s| > 0
    ensures EntryProduct(zs, s, i) == F.Mul(EntryProduct(zs, s[..|s| - 1], i), zs[s[|s| - 1]][i])
    decreases |s|
  {
    var n := |s| - 1;
    var last := zs[s[n]][i];
    if n == 0 {
      assert s[..n] == [] && s[1..] == [];
      F.MulOne(last);
    } else {
      var front, tail := s[..n], s[1..];
      assert tail[..n - 1] == front[1..];
      assert tail[n - 1] == s[n];
      EntryProductSnoc(zs, tail, i);
      var head := zs[s[0]][i];
      // head * (P(mid) * last) == (head * P(mid)) * last
      F.MulAssoc(head, EntryProduct(zs, front[1..], i), last);
    }
  }

  /** Removing the index at position k splits its factor off the product. */
  lemma {:induction false} EntryProductRemove(zs: seq<DenseVector>, s: seq<nat>, k: nat, i: nat)
    requires forall j :: 0 <= j < |zs| ==> i < |zs[j]|
    requires IndicesBelow(s, |zs|)
    requires k < |s|
    ensures IndicesBelow(s[..k] + s[k + 1..], |zs|)
    ensures EntryProduct(zs, s, i) == F.Mul(zs[s[k]][i], EntryProduct(zs, s[..k] + s[k + 1..], i))
    decreases k
  {
    var rest := s[..k] + s[k + 1..];
    assert forall j :: 0 <= j < |rest| ==> rest[j] == (if j < k then s[j] else s[j + 1]);
    if k == 0 {
      assert rest == s[1..];
    } else {
      var tail := s[1..];
      EntryProductRemove(zs, tail, k - 1, i);
      var tailRest := tail[..k - 1] + tail[k..];
      assert rest == [s[0]] + tailRest;
      assert rest[1..] == tailRest;
      var f0, fk := zs[s[0]][i], zs[s[k]][i];
      var p := EntryProduct(zs, tailRest, i);
      // f0 * (fk * p) == fk * (f0 * p)
      F.MulAssoc(f0, fk, p);
      F.MulComm(f0, fk);
      F.MulAssoc(fk, f0, p);
    }
  }

  lemma {:induction false} EntryProductPermutation(zs: seq<DenseVector>, s: seq<nat>, t: seq<nat>, i: nat)
    requires forall j :: 0 <= j < |zs| ==> i < |zs[j]|
    requires IndicesBelow(s, |zs|)
    requires multiset(s) == multiset(t)
    ensures IndicesBelow(t, |zs|)
    ensures EntryProduct(zs, s, i) == EntryProduct(zs, t, i)
    decreases |s|
  {
    assert |s| == |multiset(s)| == |multiset(t)| == |t|;
    PermutationIndicesBelow(s, t, |zs|);
    if |s| > 0 {
      var k := IndexOf(t, s[0]);
      EntryProductRemove(zs, t, k, i);
      var rest := t[..k] + t[k + 1..];
      RemovePreservesMultiset(s, t, k);
      EntryProductPermutation(zs, s[1..], rest, i);
    }
  }

  /** Reordering a list of indices keeps them all below n. */
  lemma PermutationIndicesBelow(s: seq<nat>, t: seq<nat>, n: nat)
    requires IndicesBelow(s, n)
    requires multiset(s) == multiset(t)
    ensures IndicesBelow(t, n)
  {
    forall k | 0 <= k < |t|
      ensures t[k] < n
    {
      assert t[k] in multiset(s);
    }
  }

  /** A multiset is unordered: listing its matrix indices in another order
      gives the same Hadamard product. */
  lemma MultisetProductPermutation(zs: seq<DenseVector>, s: seq<nat>, t: seq<nat>, m: nat)
    requires forall j :: 0 <= j < |zs| ==> |zs[j]| == m
    requires IndicesBelow(s, |zs|)
    requires multiset(s) == multiset(t)
    ensures IndicesBelow(t, |zs|)
    ensures MultisetProduct(zs, s, m) == MultisetProduct(zs, t, m)
  {
    PermutationIndicesBelow(s, t, |zs|);
    forall i | 0 <= i < m
      ensures MultisetProduct(zs, s, m)[i] == MultisetProduct(zs, t, m)[i]
    {
      MultisetProductEntry(zs, s, m, i);
      MultisetProductEntry(zs, t, m, i);
      EntryProductPermutation(zs, s, t, i);
    }
  }

  /** The weighted sum of the first k terms, starting from the zero vector:
      sum over i < k of constants[i] * MultisetProduct(zs, multisets[i]). */
  function WeightedSum(zs: seq<DenseVector>, multisets: seq<seq<nat>>, constants: seq<F.Fe>, m: nat, k: nat): (r: DenseVector)
    requires forall j :: 0 <= j < |zs| ==> |zs[j]| == m
    requires forall j :: 0 <= j < |multisets| ==> IndicesBelow(multisets[j], |zs|)
    requires k <= |multisets| <= |constants|
    ensures |r| == m
  {
    if k == 0 then Zeros(m)
    else
      var term := Scale(MultisetProduct(zs, multisets[k - 1], m), constants[k - 1]);
      AddVec(WeightedSum(zs, multisets, constants, m, k - 1), term)
  }

  /** The CCS relation: the full weighted sum is the zero vector. */
  predicate IsSat(c: Ccs)
    requires Evaluable(c)
  {
    WeightedSum(MatrixProducts(c), c.multisets, c.constants, c.m, |c.multisets|) == Zeros(c.m)
  }

  /** Constants [1, -1] with multisets [[0, 1], [2]] over three matrices
      express exactly (M_0 z) o (M_1 z) == M_2 z: the multisets supply the
      multiplication, the opposite-sign constants the subtraction. */
  lemma R1csShapeRelation(c: Ccs)
    requires Evaluable(c) && HasShape(c, 3, 2)
    requires c.multisets == [[0, 1], [2]] && c.constants == [F.One, F.Neg(F.One)]
    ensures IsSat(c) <==> Hadamard(MatrixProducts(c)[0], MatrixProducts(c)[1]) == MatrixProducts(c)[2]
  {
    var zs := MatrixProducts(c);
    var az, bz, cz := zs[0], zs[1], zs[2];
    var total := WeightedSum(zs, c.multisets, c.constants, c.m, 2);
    R1csShapeSum(zs, c.m);
    forall i | 0 <= i < c.m
      ensures total[i] == F.Zero <==> Hadamard(az, bz)[i] == cz[i]
    {
      F.AddNegZeroIff(F.Mul(az[i], bz[i]), cz[i]);
    }
    if IsSat(c) {
      forall i | 0 <= i < c.m
        ensures Hadamard(az, bz)[i] == cz[i]
      {
        assert total[i] == Zeros(c.m)[i];
      }
    }
    if Hadamard(az, bz) == cz {
      assert total == Zeros(c.m);
    }
  }

  /** Entry i of the weighted sum of the R1CS-shaped CCS is a_i * b_i - c_i. */
  lemma R1csShapeSum(zs: seq<DenseVector>, m: nat)
    requires |zs| == 3
    requires forall j :: 0 <= j < |zs| ==> |zs[j]| == m
    ensures forall i :: 0 <= i < m ==>
      WeightedSum(zs, [[0, 1], [2]], [F.One, F.Neg(F.One)], m, 2)[i]
        == F.Add(F.Mul(zs[0][i], zs[1][i]), F.Neg(zs[2][i]))
  {
    var multisets: seq<seq<nat>>, constants: seq<F.Fe> := [[0, 1], [2]], [F.One, F.Neg(F.One)];
    PairAndSingleProducts(zs, m);
    forall i | 0 <= i < m
      ensures WeightedSum(zs, multisets, constants, m, 2)[i] == F.Add(F.Mul(zs[0][i], zs[1][i]), F.Neg(zs[2][i]))
    {
      WeightedSumEntry(zs, multisets, constants, m, 1, i);
      WeightedSumEntry(zs, multisets, constants, m, 2, i);
      ConstraintTerm(zs[0][i], zs[1][i], zs[2][i]);
    }
  }

  /** One more term adds, at every entry, that term's product times its constant. */
  lemma WeightedSumEntry(zs: seq<DenseVector>, multisets: seq<seq<nat>>, constants: seq<F.Fe>, m: nat, k: nat, i: nat)
    requires forall j :: 0 <= j < |zs| ==> |zs[j]| == m
    requires forall j :: 0 <= j < |multisets| ==> IndicesBelow(multisets[j], |zs|)
    requires 0 < k <= |multisets| <= |constants|
    requires i < m
    ensures WeightedSum(zs, multisets, constants, m, k)[i]
         == F.Add(WeightedSum(zs, multisets, constants, m, k - 1)[i],
                  F.Mul(MultisetProduct(zs, multisets[k - 1], m)[i], constants[k - 1]))
  {
  }

  /** The products over the multisets [0, 1] and [2], entry by entry. */
  lemma PairAndSingleProducts(zs: seq<DenseVector>, m: nat)
    requires |zs| == 3
    requires forall j :: 0 <= j < |zs| ==> |zs[j]| == m
    ensures forall i :: 0 <= i < m ==>
      MultisetProduct(zs, [0, 1], m)[i] == F.Mul(F.Mul(F.One, zs[0][i]), zs[1][i])
    ensures forall i :: 0 <= i < m ==>
      MultisetProduct(zs, [2], m)[i] == F.Mul(F.One, zs[2][i])
  {
    assert [0, 1][..1] == [0];
    assert MultisetProduct(zs, [0], m) == Hadamard(Ones(m), zs[0]);
  }

  /** The field identity behind one row: 0 + ((1 * a) * b) * 1 + (1 * c) * (-1) == a * b - c. */
  lemma ConstraintTerm(a: F.Fe, b: F.Fe, c: F.Fe)
    ensures F.Add(F.Add(F.Zero, F.Mul(F.Mul(F.Mul(F.One, a), b), F.One)), F.Mul(F.Mul(F.One, c), F.Neg(F.One)))
         == F.Add(F.Mul(a, b), F.Neg(c))
  {
    F.MulOne(a);
    F.MulOne(c);
    F.MulOne(F.Mul(a, b));
    F.AddZero(F.Mul(a, b));
    F.MulNegOne(c);
  }
}
