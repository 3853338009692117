/** The scalar field the constraint systems are written over.

    The arithmetic itself belongs to a foreign crate; this module fixes one
    concrete prime field so that the rest of the model has exact values to
    talk about. Elements are the canonical representatives 0 <= a < P.
    Nothing outside this module depends on the value of P beyond P > 2^64
    (so that every u64 embeds without reduction).
 */
module Field {

  /** Order of the scalar field of the Jubjub curve. */
  const P: int := 6554484396890773809930967563523245729705921265872317281365359162392183254199

  /** Bound of Rust's `u64`, the integer type the test circuits are written in. */
  const U64Bound: int := 0x1_0000_0000_0000_0000

  type Fe = a: int | 0 <= a < P

  const Zero: Fe := 0
  const One: Fe := 1

  function Add(a: Fe, b: Fe): Fe
  {
    if a + b < P then a + b else a + b - P
  }

  function Neg(a: Fe): (r: Fe)
    ensures Add(a, r) == Zero
  {
    if a == 0 then 0 else P - a
  }

  function Sub(a: Fe, b: Fe): (r: Fe)
    ensures Add(r, b) == a
  {
    if a >= b then a - b else a - b + P
  }

  function Mul(a: Fe, b: Fe): Fe
  {
    (a * b) % P
  }

  /** `F::from(u64)`: the embedding of a machine integer into the field. */
  function FromU64(v: nat): (r: Fe)
    requires v < U64Bound
    ensures r == v
  {
    v % P
  }

  lemma AddComm(a: Fe, b: Fe)
    ensures Add(a, b) == Add(b, a)
  {
  }

  lemma AddAssoc(a: Fe, b: Fe, c: Fe)
    ensures Add(Add(a, b), c) == Add(a, Add(b, c))
  {
  }

  lemma AddZero(a: Fe)
    ensures Add(a, Zero) == a
    ensures Add(Zero, a) == a
  {
  }

  lemma MulComm(a: Fe, b: Fe)
    ensures Mul(a, b) == Mul(b, a)
  {
    assert a * b == b * a;
  }

  lemma MulOne(a: Fe)
    ensures Mul(a, One) == a
    ensures Mul(One, a) == a
  {
  }

  lemma MulZero(a: Fe)
    ensures Mul(a, Zero) == Zero
    ensures Mul(Zero, a) == Zero
  {
  }

  lemma {:induction false} MulAssoc(a: Fe, b: Fe, c: Fe)
    ensures Mul(Mul(a, b), c) == Mul(a, Mul(b, c))
  {
    var ab, bc := a * b, b * c;
    // (ab % P) * c and a * (bc % P) both differ from abc by a multiple of P
    var left := (ab % P) * c;
    var right := a * (bc % P);
    assert left == a * b * c - (ab / P) * c * P;
    assert right == a * b * c - a * (bc / P) * P;
    ModShift(a * b * c, (ab / P) * c, left);
    ModShift(a * b * c, a * (bc / P), right);
  }

  /** Subtracting a multiple of P keeps the residue. */
  lemma ModShift(n: int, k: int, d: int)
    requires d == n - k * P
    ensures d % P == n % P
  {
    var q, r := n / P, n % P;
    assert n == q * P + r;
    assert d == (q - k) * P + r;
    ModOfDecomposition(d, q - k, r);
  }

  /** Multiplying by the constant -1 negates. */
  lemma MulNegOne(a: Fe)
    ensures Mul(a, Neg(One)) == Neg(a)
  {
    if a != 0 {
      assert a * (P - 1) == (a - 1) * P + (P - a);
      ModOfDecomposition(a * (P - 1), a - 1, P - a);
    }
  }

  lemma ModOfDecomposition(n: int, q: int, r: int)
    requires 0 <= r < P
    requires n == q * P + r
    ensures n % P == r
  {
  }

  /** Adding the negation of b gives zero exactly when the two agree. */
  lemma AddNegZeroIff(a: Fe, b: Fe)
    ensures Add(a, Neg(b)) == Zero <==> a == b
  {
  }

  /** Products of values that stay below P need no reduction. */
  lemma MulSmall(a: Fe, b: Fe)
    requires a * b < P
    ensures Mul(a, b) == a * b
  {
    var n := a * b;
    assert 0 <= n by { MulNonneg(a, b); }
    ModOfDecomposition(n, 0, n);
  }

  lemma MulNonneg(a: nat, b: nat)
    ensures 0 <= a * b
  {
  }
}
