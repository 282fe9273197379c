/** The 2x2 Kalman kernel of `src/kalman.rs`: fixed-shape matrix products,
    transpose, element-wise sums and differences, the 2x2 inverse (which
    panics on a zero determinant, modelled as a `Failure`), and the
    `predict` / `update` steps built from them. */
module Kalman {
  import opened Types
  import opened Wrappers

  /** The panic of `inv_2x2`. */
  datatype KalmanError = SingularMatrix

  // ---------------------------------------------------------------------
  // Matrix kernel
  // ---------------------------------------------------------------------

  /** `dot_2x2_2x1`: each entry of the result is row `i` of `a` times `b`. */
  function DotMV(a: M2x2, b: M2x1): (r: M2x1)
    ensures forall i: nat :: i < 2 ==> AtV(r, i) == At(a, i, 0) * AtV(b, 0) + At(a, i, 1) * AtV(b, 1)
  {
    M2x1(a.m00 * b.v0 + a.m01 * b.v1,
         a.m10 * b.v0 + a.m11 * b.v1)
  }

  /** `dot_2x2`: entry `(i, j)` is row `i` of `a` times column `j` of `b`. */
  function Dot(a: M2x2, b: M2x2): (r: M2x2)
    ensures forall i: nat, j: nat :: i < 2 && j < 2 ==>
      At(r, i, j) == At(a, i, 0) * At(b, 0, j) + At(a, i, 1) * At(b, 1, j)
  {
    M2x2(a.m00 * b.m00 + a.m01 * b.m10, a.m00 * b.m01 + a.m01 * b.m11,
         a.m10 * b.m00 + a.m11 * b.m10, a.m10 * b.m01 + a.m11 * b.m11)
  }

  /** `transpose`: entry `(i, j)` of the result is entry `(j, i)` of `a`. */
  function Transpose(a: M2x2): (r: M2x2)
    ensures forall i: nat, j: nat :: i < 2 && j < 2 ==> At(r, i, j) == At(a, j, i)
  {
    M2x2(a.m00, a.m10, a.m01, a.m11)
  }

  /** `add_2x2` */
  function Add2x2(a: M2x2, b: M2x2): (r: M2x2)
    ensures forall i: nat, j: nat :: i < 2 && j < 2 ==> At(r, i, j) == At(a, i, j) + At(b, i, j)
  {
    M2x2(a.m00 + b.m00, a.m01 + b.m01, a.m10 + b.m10, a.m11 + b.m11)
  }

  /** `add_2x1` */
  function Add2x1(a: M2x1, b: M2x1): (r: M2x1)
    ensures forall i: nat :: i < 2 ==> AtV(r, i) == AtV(a, i) + AtV(b, i)
  {
    M2x1(a.v0 + b.v0, a.v1 + b.v1)
  }

  /** `sub_2x1` */
  function Sub2x1(a: M2x1, b: M2x1): (r: M2x1)
    ensures forall i: nat :: i < 2 ==> AtV(r, i) == AtV(a, i) - AtV(b, i)
  {
    M2x1(a.v0 - b.v0, a.v1 - b.v1)
  }

  /** `sub_2x2` */
  function Sub2x2(a: M2x2, b: M2x2): (r: M2x2)
    ensures forall i: nat, j: nat :: i < 2 && j < 2 ==> At(r, i, j) == At(a, i, j) - At(b, i, j)
  {
    M2x2(a.m00 - b.m00, a.m01 - b.m01, a.m10 - b.m10, a.m11 - b.m11)
  }

  /** The determinant as `inv_2x2` computes it. For a triangular matrix it
      is the product of the diagonal, and it does not change under
      transposition. */
  function Det(a: M2x2): (d: real)
    ensures a.m01 == 0.0 || a.m10 == 0.0 ==> d == a.m00 * a.m11
    ensures d == Transpose(a).m00 * Transpose(a).m11 - Transpose(a).m10 * Transpose(a).m01
  {
    a.m00 * a.m11 - a.m10 * a.m01
  }

  /** `inv_2x2`, with the adjugate entries placed exactly as the source
      places them: `-a10` in the top right and `-a01` in the bottom left,
      that is, the TRANSPOSE of the true inverse. It fails exactly when the
      determinant is zero, and for every other input the transpose of its
      result is a two-sided inverse of `a`. */
  function Inv2x2(a: M2x2): (r: Result<M2x2, KalmanError>)
    ensures r.Failure? <==> Det(a) == 0.0
    ensures r.Success? ==> Dot(a, Transpose(r.value)) == Identity && Dot(Transpose(r.value), a) == Identity
  {
    var det := Det(a);
    if det == 0.0 then Failure(SingularMatrix)
    else
      var r := M2x2(a.m11 / det, -a.m10 / det, -a.m01 / det, a.m00 / det);
      AdjugateIsInverse(a, det, r);
      Success(r)
  }

  /** The algebra behind `Inv2x2`'s second postcondition: each entry of
      either product is a multiple of `det` (or zero) scaled by `1 / det`. */
  lemma AdjugateIsInverse(a: M2x2, det: real, r: M2x2)
    requires det == Det(a) && det != 0.0
    requires r == M2x2(a.m11 / det, -a.m10 / det, -a.m01 / det, a.m00 / det)
    ensures Dot(a, Transpose(r)) == Identity && Dot(Transpose(r), a) == Identity
  {
    var i := 1.0 / det;
    assert det * i == 1.0;
    DivIsMulInverse(a.m11, det);
    DivIsMulInverse(-a.m10, det);
    DivIsMulInverse(-a.m01, det);
    DivIsMulInverse(a.m00, det);
    assert r == M2x2(a.m11 * i, -a.m10 * i, -a.m01 * i, a.m00 * i);
    var t := Transpose(r);
    assert t == M2x2(a.m11 * i, -a.m01 * i, -a.m10 * i, a.m00 * i);
    assert a.m00 * (a.m11 * i) + a.m01 * (-a.m10 * i) == det * i;
    assert a.m10 * (-a.m01 * i) + a.m11 * (a.m00 * i) == det * i;
    assert (a.m11 * i) * a.m00 + (-a.m01 * i) * a.m10 == det * i;
    assert (-a.m10 * i) * a.m01 + (a.m00 * i) * a.m11 == det * i;
  }

  lemma DivIsMulInverse(n: real, d: real)
    requires d != 0.0
    ensures n / d == n * (1.0 / d)
  {
  }

  // ---------------------------------------------------------------------
  // Kalman step
  // ---------------------------------------------------------------------

  /** `predict`: the state is propagated by the transition `a`; the
      covariance is propagated as `a·p·aᵀ` and then only its diagonal is
      kept. The diagonal entries are the quadratic forms of `p` in the rows
      of `a`. */
  function Predict(x: M2x1, p: M2x2, a: M2x2): (r: (M2x1, M2x2))
    ensures r.0 == DotMV(a, x)
    ensures r.1.m01 == 0.0 && r.1.m10 == 0.0
    ensures r.1.m00 == a.m00 * a.m00 * p.m00 + a.m00 * a.m01 * (p.m01 + p.m10) + a.m01 * a.m01 * p.m11
    ensures r.1.m11 == a.m10 * a.m10 * p.m00 + a.m10 * a.m11 * (p.m01 + p.m10) + a.m11 * a.m11 * p.m11
  {
    var x' := DotMV(a, x);
    var p' := Dot(a, Dot(p, Transpose(a)));
    (x', Diag(p'.m00, p'.m11))
  }

  /** The matrix `update` inverts: `h·p·hᵀ + r`. It is symmetric whenever
      `p` and `r` are, whatever `h`. */
  function Innovation(p: M2x2, h: M2x2, r: M2x2): (s: M2x2)
    ensures p.m01 == p.m10 && r.m01 == r.m10 ==> s.m01 == s.m10
  {
    Add2x2(Dot(Dot(h, p), Transpose(h)), r)
  }

  /** `update`: Kalman gain `k = p·hᵀ·inv(h·p·hᵀ + r)`, state
      `x + k·(y − h·x)`, covariance `p − k·h·p`. The only failure is the
      singular inverse. */
  function Update(x: M2x1, p: M2x2, y: M2x1, h: M2x2, r: M2x2): (res: Result<(M2x1, M2x2), KalmanError>)
    ensures res.Failure? <==> Det(Innovation(p, h, r)) == 0.0
  {
    var kNum := Dot(p, Transpose(h));
    match Inv2x2(Innovation(p, h, r))
    case Failure(e) => Failure(e)
    case Success(inv) =>
      var k := Dot(kNum, inv);
      var x' := Add2x1(x, DotMV(k, Sub2x1(y, DotMV(h, x))));
      var p' := Sub2x2(p, Dot(k, Dot(h, p)));
      Success((x', p'))
  }

  // ---------------------------------------------------------------------
  // Properties
  // ---------------------------------------------------------------------

  /** A covariance in the shape the tracker keeps: diagonal, non-negative. */
  predicate IsDiagonalNonNeg(p: M2x2)
  {
    p.m01 == 0.0 && p.m10 == 0.0 && p.m00 >= 0.0 && p.m11 >= 0.0
  }

  lemma TransposeExample()
    ensures Transpose(M2x2(1.0, 2.0, 3.0, 4.0)) == M2x2(1.0, 3.0, 2.0, 4.0)
  {
  }

  lemma TransposeInvolution(a: M2x2)
    ensures Transpose(Transpose(a)) == a
  {
  }

  lemma DotExamples()
    ensures DotMV(M2x2(1.0, 2.0, 3.0, 4.0), M2x1(5.0, 6.0)) == M2x1(17.0, 39.0)
    ensures Dot(M2x2(1.0, 2.0, 3.0, 4.0), M2x2(5.0, 6.0, 7.0, 8.0)) == M2x2(19.0, 22.0, 43.0, 50.0)
  {
  }

  /** The identity is neutral on both sides of `dot_2x2` and on the left of
      `dot_2x2_2x1`. */
  lemma DotIdentity(a: M2x2, b: M2x1)
    ensures Dot(Identity, a) == a && Dot(a, Identity) == a
    ensures DotMV(Identity, b) == b
  {
  }

  lemma AddSubExamples()
    ensures Add2x2(M2x2(1.0, 2.0, 3.0, 4.0), M2x2(5.0, 6.0, 7.0, 8.0)) == M2x2(6.0, 8.0, 10.0, 12.0)
    ensures Sub2x2(M2x2(1.0, 2.0, 3.0, 4.0), M2x2(5.0, 6.0, 7.0, 8.0)) == M2x2(-4.0, -4.0, -4.0, -4.0)
    ensures Add2x1(M2x1(1.0, 2.0), M2x1(3.0, 4.0)) == M2x1(4.0, 6.0)
    ensures Sub2x1(M2x1(1.0, 2.0), M2x1(3.0, 4.0)) == M2x1(-2.0, -2.0)
  {
  }

  /** Subtraction undoes addition, for both shapes. */
  lemma SubUndoesAdd(a: M2x2, b: M2x2, u: M2x1, v: M2x1)
    ensures Sub2x2(Add2x2(a, b), b) == a
    ensures Sub2x1(Add2x1(u, v), v) == u
  {
  }

  /** `[[1,1],[2,2]]` is singular: `inv_2x2` panics on it. */
  lemma InvSingularExample()
    ensures Inv2x2(M2x2(1.0, 1.0, 2.0, 2.0)).Failure?
  {
  }

  /** For a symmetric non-singular input the transposed layout does not
      matter: the result is a two-sided inverse. */
  lemma InvSymmetric(a: M2x2)
    requires a.m01 == a.m10 && Det(a) != 0.0
    ensures Inv2x2(a).Success?
    ensures Dot(a, Inv2x2(a).value) == Identity && Dot(Inv2x2(a).value, a) == Identity
  {
    var r := Inv2x2(a).value;
    assert Transpose(r) == r;
  }

  /** For a non-symmetric input the result is not an inverse:
      `[[1,2],[3,4]]` times its `inv_2x2` has a zero top-left entry. */
  lemma InvAsymmetricExample()
    ensures Inv2x2(M2x2(1.0, 2.0, 3.0, 4.0)).Success?
    ensures Dot(M2x2(1.0, 2.0, 3.0, 4.0), Inv2x2(M2x2(1.0, 2.0, 3.0, 4.0)).value).m00 == 0.0
  {
    var a := M2x2(1.0, 2.0, 3.0, 4.0);
    assert Det(a) == -2.0;
    assert Inv2x2(a).value == M2x2(-2.0, 1.5, 1.0, -0.5);
  }

  /** The source's test vector: the raw product has off-diagonal entries
      (16 and 16), which `predict` drops. */
  lemma PredictExample()
    ensures Predict(M2x1(1.0, 2.0), Diag(3.0, 4.0), M2x2(2.0, 2.0, 0.0, 2.0))
         == (M2x1(6.0, 4.0), Diag(28.0, 16.0))
    ensures Dot(M2x2(2.0, 2.0, 0.0, 2.0), Dot(Diag(3.0, 4.0), Transpose(M2x2(2.0, 2.0, 0.0, 2.0))))
         == M2x2(28.0, 16.0, 16.0, 16.0)
  {
  }

  /** Whatever the transition, `predict` keeps a diagonal non-negative
      covariance diagonal and non-negative. */
  lemma PredictKeepsDiagonalNonNeg(x: M2x1, p: M2x2, a: M2x2)
    requires IsDiagonalNonNeg(p)
    ensures IsDiagonalNonNeg(Predict(x, p, a).1)
  {
    var r := Predict(x, p, a).1;
    SquareTimesNonNeg(a.m00, p.m00);
    SquareTimesNonNeg(a.m01, p.m11);
    SquareTimesNonNeg(a.m10, p.m00);
    SquareTimesNonNeg(a.m11, p.m11);
    assert r.m00 == a.m00 * a.m00 * p.m00 + a.m01 * a.m01 * p.m11;
    assert r.m11 == a.m10 * a.m10 * p.m00 + a.m11 * a.m11 * p.m11;
  }

  lemma SquareTimesNonNeg(t: real, q: real)
    requires q >= 0.0
    ensures t * t * q >= 0.0
  {
    assert t * t >= 0.0;
  }

  /** `q / (q + 1)`: the gain and the posterior variance of a scalar
      component with prior variance `q` and unit measurement noise. */
  function Shrink(q: real): real
    requires q >= 0.0
  {
    q / (q + 1.0)
  }

  /** With `h = r = I` and a diagonal non-negative `p`, the matrix that
      `update` inverts is `diag(p00 + 1, p11 + 1)`, whose determinant is at
      least 1: `update` cannot fail. */
  lemma InnovationWithIdentity(p: M2x2)
    requires IsDiagonalNonNeg(p)
    ensures Innovation(p, Identity, Identity) == Diag(p.m00 + 1.0, p.m11 + 1.0)
    ensures Det(Innovation(p, Identity, Identity)) >= 1.0
  {
    assert Transpose(Identity) == Identity;
    assert Dot(Identity, p) == p;
    assert Dot(p, Identity) == p;
    assert Innovation(p, Identity, Identity) == Add2x2(p, Identity);
    ProductAtLeastOne(p.m00 + 1.0, p.m11 + 1.0);
  }

  lemma ProductAtLeastOne(a: real, b: real)
    requires a >= 1.0 && b >= 1.0
    ensures a * b >= 1.0
  {
    assert a * b - 1.0 == (a - 1.0) * (b - 1.0) + (a - 1.0) + (b - 1.0);
    assert (a - 1.0) * (b - 1.0) >= 0.0;
  }

  /** `inv_2x2` of a diagonal matrix with non-zero entries. */
  lemma InvDiagonal(a: real, b: real)
    requires a != 0.0 && b != 0.0
    ensures Inv2x2(Diag(a, b)) == Success(Diag(1.0 / a, 1.0 / b))
  {
    var det := Det(Diag(a, b));
    assert det == a * b;
    assert det != 0.0;
    assert b / (a * b) == 1.0 / a;
    assert a / (a * b) == 1.0 / b;
  }

  /** Products of diagonal matrices, and of a diagonal matrix with a vector. */
  lemma DotDiagonal(a: real, b: real, c: real, d: real, v: M2x1)
    ensures Dot(Diag(a, b), Diag(c, d)) == Diag(a * c, b * d)
    ensures DotMV(Diag(a, b), v) == M2x1(a * v.v0, b * v.v1)
  {
  }

  /** `update` unfolded once its inverse is known. */
  lemma UpdateWithGain(x: M2x1, p: M2x2, y: M2x1, h: M2x2, r: M2x2, inv: M2x2)
    requires Inv2x2(Innovation(p, h, r)) == Success(inv)
    ensures Update(x, p, y, h, r) == Success((
      Add2x1(x, DotMV(Dot(Dot(p, Transpose(h)), inv), Sub2x1(y, DotMV(h, x)))),
      Sub2x2(p, Dot(Dot(Dot(p, Transpose(h)), inv), Dot(h, p)))))
  {
  }

  /** The matrix product is associative. */
  lemma DotAssoc(a: M2x2, b: M2x2, c: M2x2)
    ensures Dot(Dot(a, b), c) == Dot(a, Dot(b, c))
  {
    AssocTopLeft(a, b, c);
    AssocTopRight(a, b, c);
    AssocBottomLeft(a, b, c);
    AssocBottomRight(a, b, c);
  }

  lemma AssocTopLeft(a: M2x2, b: M2x2, c: M2x2)
    ensures Dot(Dot(a, b), c).m00 == Dot(a, Dot(b, c)).m00
  {
    var ab, bc := Dot(a, b), Dot(b, c);
    Regroup(a.m00, a.m01, b, c.m00, c.m10, ab.m00, ab.m01, bc.m00, bc.m10);
  }

  lemma AssocTopRight(a: M2x2, b: M2x2, c: M2x2)
    ensures Dot(Dot(a, b), c).m01 == Dot(a, Dot(b, c)).m01
  {
    var ab, bc := Dot(a, b), Dot(b, c);
    Regroup(a.m00, a.m01, b, c.m01, c.m11, ab.m00, ab.m01, bc.m01, bc.m11);
  }

  lemma AssocBottomLeft(a: M2x2, b: M2x2, c: M2x2)
    ensures Dot(Dot(a, b), c).m10 == Dot(a, Dot(b, c)).m10
  {
    var ab, bc := Dot(a, b), Dot(b, c);
    Regroup(a.m10, a.m11, b, c.m00, c.m10, ab.m10, ab.m11, bc.m00, bc.m10);
  }

  lemma AssocBottomRight(a: M2x2, b: M2x2, c: M2x2)
    ensures Dot(Dot(a, b), c).m11 == Dot(a, Dot(b, c)).m11
  {
    var ab, bc := Dot(a, b), Dot(b, c);
    Regroup(a.m10, a.m11, b, c.m01, c.m11, ab.m10, ab.m11, bc.m01, bc.m11);
  }

  /** Row `(u, v)` times the matrix `b` times the column `(c0, c1)`, grouped
      either way: `(x0, x1)` is the row times `b`, `(y0, y1)` is `b` times
      the column. */
  lemma Regroup(u: real, v: real, b: M2x2, c0: real, c1: real, x0: real, x1: real, y0: real, y1: real)
    requires x0 == u * b.m00 + v * b.m10 && x1 == u * b.m01 + v * b.m11
    requires y0 == b.m00 * c0 + b.m01 * c1 && y1 == b.m10 * c0 + b.m11 * c1
    ensures x0 * c0 + x1 * c1 == u * y0 + v * y1
  {
  }

  /** The gain `update` computes, `k = p·hᵀ·inv(s)` with `s = h·p·hᵀ + r`,
      solves the defining equation of the Kalman gain, `k·s = p·hᵀ`,
      whenever `p` and `r` are symmetric: `s` is then symmetric, so the
      transposed layout of `inv_2x2` does no harm. */
  lemma GainEquation(p: M2x2, h: M2x2, r: M2x2, inv: M2x2)
    requires p.m01 == p.m10 && r.m01 == r.m10
    requires Inv2x2(Innovation(p, h, r)) == Success(inv)
    ensures Dot(Dot(Dot(p, Transpose(h)), inv), Innovation(p, h, r)) == Dot(p, Transpose(h))
  {
    var s := Innovation(p, h, r);
    var kNum := Dot(p, Transpose(h));
    InvSymmetric(s);
    DotAssoc(kNum, inv, s);
    DotIdentity(kNum, M2x1(0.0, 0.0));
  }

  /** With `h = r = I` and a diagonal non-negative `p`, the Kalman gain is
      `diag(q0 / (q0 + 1), q1 / (q1 + 1))`. */
  lemma GainWithIdentity(p: M2x2)
    requires IsDiagonalNonNeg(p)
    ensures Inv2x2(Innovation(p, Identity, Identity)) == Success(Diag(1.0 / (p.m00 + 1.0), 1.0 / (p.m11 + 1.0)))
    ensures Dot(Dot(p, Transpose(Identity)), Diag(1.0 / (p.m00 + 1.0), 1.0 / (p.m11 + 1.0)))
         == Diag(Shrink(p.m00), Shrink(p.m11))
  {
    var a, b := p.m00 + 1.0, p.m11 + 1.0;
    assert p == Diag(p.m00, p.m11);
    InnovationWithIdentity(p);
    InvDiagonal(a, b);
    assert Transpose(Identity) == Identity;
    assert Dot(p, Identity) == p;
    DivIsMulInverse(p.m00, a);
    DivIsMulInverse(p.m11, b);
    DotDiagonal(p.m00, p.m11, 1.0 / a, 1.0 / b, M2x1(0.0, 0.0));
  }

  /** The closed form of `update` as the tracker uses it (`h = r = I`,
      diagonal non-negative `p`): each component moves towards its
      measurement by the gain `q / (q + 1)` of its own variance `q`, and
      each variance becomes `q / (q + 1)`, which stays non-negative and
      below 1. The covariance stays diagonal. */
  lemma UpdateWithIdentity(x: M2x1, p: M2x2, y: M2x1)
    requires IsDiagonalNonNeg(p)
    ensures Update(x, p, y, Identity, Identity) == Success((
      M2x1(x.v0 + Shrink(p.m00) * (y.v0 - x.v0), x.v1 + Shrink(p.m11) * (y.v1 - x.v1)),
      Diag(Shrink(p.m00), Shrink(p.m11))))
    ensures 0.0 <= Shrink(p.m00) < 1.0 && 0.0 <= Shrink(p.m11) < 1.0
  {
    var g0, g1 := Shrink(p.m00), Shrink(p.m11);
    var inv := Diag(1.0 / (p.m00 + 1.0), 1.0 / (p.m11 + 1.0));
    GainWithIdentity(p);
    UpdateWithGain(x, p, y, Identity, Identity, inv);
    var k := Diag(g0, g1);
    DotIdentity(p, x);
    var innov := Sub2x1(y, x);
    DotDiagonal(g0, g1, p.m00, p.m11, innov);
    assert p == Diag(p.m00, p.m11);
    ShrinkAlgebra(p.m00);
    ShrinkAlgebra(p.m11);
    assert Dot(Dot(p, Transpose(Identity)), inv) == k;
    assert Add2x1(x, DotMV(k, innov)) == M2x1(x.v0 + g0 * (y.v0 - x.v0), x.v1 + g1 * (y.v1 - x.v1));
    assert Sub2x2(p, Dot(k, p)) == Diag(g0, g1);
    assert Sub2x1(y, DotMV(Identity, x)) == innov;
    assert Update(x, p, y, Identity, Identity) == Success((Add2x1(x, DotMV(k, innov)), Sub2x2(p, Dot(k, p))));
    var e0 := M2x1(x.v0 + Shrink(p.m00) * (y.v0 - x.v0), x.v1 + Shrink(p.m11) * (y.v1 - x.v1));
    var e1 := Diag(Shrink(p.m00), Shrink(p.m11));
    assert Add2x1(x, DotMV(k, innov)) == e0;
    assert Sub2x2(p, Dot(k, p)) == e1;
    assert (Add2x1(x, DotMV(k, innov)), Sub2x2(p, Dot(k, p))) == (e0, e1);
  }

  lemma ShrinkAlgebra(q: real)
    requires q >= 0.0
    ensures q - Shrink(q) * q == Shrink(q)
    ensures 0.0 <= Shrink(q) < 1.0
  {
    var s := Shrink(q);
    assert s * (q + 1.0) == q;
    assert q - s * q == s * (q + 1.0) - s * q;
    assert s < 1.0 by {
      assert q < q + 1.0;
    }
  }

  /** Both Kalman steps together, as one tracker column uses them, keep the
      covariance diagonal and non-negative, and `update` never fails. */
  lemma StepKeepsDiagonalNonNeg(x: M2x1, p: M2x2, a: M2x2, y: M2x1)
    requires IsDiagonalNonNeg(p)
    ensures Update(Predict(x, p, a).0, Predict(x, p, a).1, y, Identity, Identity).Success?
    ensures IsDiagonalNonNeg(Update(Predict(x, p, a).0, Predict(x, p, a).1, y, Identity, Identity).value.1)
  {
    PredictKeepsDiagonalNonNeg(x, p, a);
    UpdateWithIdentity(Predict(x, p, a).0, Predict(x, p, a).1, y);
  }
}
