/** The small linear algebra of the collective variable: 3-vectors and symmetric
    3x3 covariance matrices packed as their upper triangle
    [c00, c01, c02, c11, c12, c22] (PLUMED's VectorGeneric<6>). */
module Linalg {
  import opened Numerics

  datatype Vec3 = Vec3(x: real, y: real, z: real)

  /** A symmetric 3x3 matrix stored as its six independent entries. */
  datatype Sym6 = Sym6(c00: real, c01: real, c02: real, c11: real, c12: real, c22: real)

  /** A full 3x3 matrix, by rows. */
  datatype Mat3 = Mat3(r0: Vec3, r1: Vec3, r2: Vec3)

  const Identity: Mat3 := Mat3(Vec3(1.0, 0.0, 0.0), Vec3(0.0, 1.0, 0.0), Vec3(0.0, 0.0, 1.0))
  const Origin: Vec3 := Vec3(0.0, 0.0, 0.0)

  function Sub(a: Vec3, b: Vec3): Vec3 { Vec3(a.x - b.x, a.y - b.y, a.z - b.z) }
  function AddVec(a: Vec3, b: Vec3): Vec3 { Vec3(a.x + b.x, a.y + b.y, a.z + b.z) }
  function Neg(a: Vec3): Vec3 { Vec3(-a.x, -a.y, -a.z) }
  function Scale(c: real, a: Vec3): Vec3 { Vec3(c * a.x, c * a.y, c * a.z) }
  function Dot(a: Vec3, b: Vec3): real { a.x * b.x + a.y * b.y + a.z * b.z }

  /** Entry-wise sum of two packed matrices (the `sum[k] = a[k] + b[k]` loops). */
  function AddSym(a: Sym6, b: Sym6): Sym6
  {
    Sym6(a.c00 + b.c00, a.c01 + b.c01, a.c02 + b.c02, a.c11 + b.c11, a.c12 + b.c12, a.c22 + b.c22)
  }

  /** The full symmetric matrix a packed one stands for. */
  function Unpack(s: Sym6): (r: Mat3)
    ensures r == Transpose(r)
  {
    Mat3(Vec3(s.c00, s.c01, s.c02), Vec3(s.c01, s.c11, s.c12), Vec3(s.c02, s.c12, s.c22))
  }

  function Transpose(a: Mat3): Mat3
  {
    Mat3(Vec3(a.r0.x, a.r1.x, a.r2.x), Vec3(a.r0.y, a.r1.y, a.r2.y), Vec3(a.r0.z, a.r1.z, a.r2.z))
  }

  function MatVec(a: Mat3, v: Vec3): Vec3 { Vec3(Dot(a.r0, v), Dot(a.r1, v), Dot(a.r2, v)) }

  function MatMul(a: Mat3, b: Mat3): Mat3
  {
    var bt := Transpose(b);
    Mat3(MatVec(bt, a.r0), MatVec(bt, a.r1), MatVec(bt, a.r2))
  }

  function ScaleMat(c: real, a: Mat3): Mat3 { Mat3(Scale(c, a.r0), Scale(c, a.r1), Scale(c, a.r2)) }

  /** The three leading principal minors used by Sylvester's criterion. */
  function Minor1(s: Sym6): real { s.c00 }
  function Minor2(s: Sym6): real { s.c00 * s.c11 - s.c01 * s.c01 }
  function Minor3(s: Sym6): real
  {
    s.c00 * (s.c11 * s.c22 - s.c12 * s.c12) - s.c01 * (s.c01 * s.c22 - s.c12 * s.c02)
      + s.c02 * (s.c01 * s.c12 - s.c11 * s.c02)
  }

  predicate PositiveDefinite(s: Sym6)
  {
    Minor1(s) > 0.0 && Minor2(s) > 0.0 && Minor3(s) > 0.0
  }

  /** The determinant, by cofactor expansion along the first row, accumulated in
      three steps as the auxiliary precomputation does. */
  function Det(s: Sym6): real
  {
    var det := s.c00 * (s.c11 * s.c22 - s.c12 * s.c12);
    var det := det - s.c01 * (s.c01 * s.c22 - s.c12 * s.c02);
    det + s.c02 * (s.c01 * s.c12 - s.c11 * s.c02)
  }

  /** The adjugate of a symmetric matrix (its cofactors), itself symmetric. */
  function Adjugate(s: Sym6): Sym6
  {
    Sym6(
      s.c11 * s.c22 - s.c12 * s.c12,
      s.c02 * s.c12 - s.c01 * s.c22,
      s.c01 * s.c12 - s.c02 * s.c11,
      s.c00 * s.c22 - s.c02 * s.c02,
      s.c02 * s.c01 - s.c00 * s.c12,
      s.c00 * s.c11 - s.c01 * s.c01)
  }

  /** `inv_sum`: adjugate over determinant, entry by entry, as floating-point divisions. */
  function Inverse(m: Libm, s: Sym6): Sym6
  {
    var a, d := Adjugate(s), Det(s);
    Sym6(Div(m, a.c00, d), Div(m, a.c01, d), Div(m, a.c02, d),
         Div(m, a.c11, d), Div(m, a.c12, d), Div(m, a.c22, d))
  }

  /** The product of a packed matrix with a vector (`p_x, p_y, p_z` of the overlap). */
  function SymVec(s: Sym6, d: Vec3): Vec3
  {
    Vec3(d.x * s.c00 + d.y * s.c01 + d.z * s.c02,
         d.x * s.c01 + d.y * s.c11 + d.z * s.c12,
         d.x * s.c02 + d.y * s.c12 + d.z * s.c22)
  }

  /** The packed product is the product with the unpacked symmetric matrix. */
  lemma SymVecIsMatVec(s: Sym6, d: Vec3)
    ensures SymVec(s, d) == MatVec(Unpack(s), d)
  {
  }

  /** The quadratic form d' S d. */
  function QuadForm(d: Vec3, s: Sym6): real
  {
    var p := SymVec(s, d);
    d.x * p.x + d.y * p.y + d.z * p.z
  }

  /** The determinant Det computes is the third leading minor of Sylvester's check. */
  lemma DetIsThirdMinor(s: Sym6)
    ensures Det(s) == Minor3(s)
  {
  }

  /** S * adj(S) == det(S) * I and adj(S) * S == det(S) * I. */
  lemma AdjugateProduct(s: Sym6)
    ensures MatMul(Unpack(s), Unpack(Adjugate(s))) == ScaleMat(Det(s), Identity)
    ensures MatMul(Unpack(Adjugate(s)), Unpack(s)) == ScaleMat(Det(s), Identity)
  {
    AdjugateProductRight(s);
    AdjugateProductLeft(s);
  }

  lemma AdjugateProductRight(s: Sym6)
    ensures MatMul(Unpack(s), Unpack(Adjugate(s))) == ScaleMat(Det(s), Identity)
  {
    var a := Adjugate(s);
    var c0, c1, c2, c3, c4, c5 := s.c00, s.c01, s.c02, s.c11, s.c12, s.c22;
    CofactorRow0(c0, c1, c2, c3, c4, c5, a.c00, a.c01, a.c02, a.c11, a.c12, a.c22, Det(s));
    CofactorRow1(c0, c1, c2, c3, c4, c5, a.c00, a.c01, a.c02, a.c11, a.c12, a.c22, Det(s));
    CofactorRow2(c0, c1, c2, c3, c4, c5, a.c00, a.c01, a.c02, a.c11, a.c12, a.c22, Det(s));
    ProductFromCofactors(s, a, Det(s));
  }

  /** The product S * T of two symmetric matrices is d * I when each row of S
      against the same row of T gives d and against the other rows gives zero. */
  lemma ProductFromCofactors(s: Sym6, t: Sym6, det: real)
    requires var r0, r1, r2 := Row0(s), Row1(s), Row2(s);
             var q0, q1, q2 := Row0(t), Row1(t), Row2(t);
             Dot(q0, r0) == det && Dot(q1, r0) == 0.0 && Dot(q2, r0) == 0.0 &&
             Dot(q0, r1) == 0.0 && Dot(q1, r1) == det && Dot(q2, r1) == 0.0 &&
             Dot(q0, r2) == 0.0 && Dot(q1, r2) == 0.0 && Dot(q2, r2) == det
    ensures MatMul(Unpack(s), Unpack(t)) == ScaleMat(det, Identity)
  {
    ScaledIdentity(det);
  }

  function Row0(s: Sym6): Vec3 { Vec3(s.c00, s.c01, s.c02) }
  function Row1(s: Sym6): Vec3 { Vec3(s.c01, s.c11, s.c12) }
  function Row2(s: Sym6): Vec3 { Vec3(s.c02, s.c12, s.c22) }

  lemma ScaledIdentity(c: real)
    ensures ScaleMat(c, Identity) == Mat3(Vec3(c, 0.0, 0.0), Vec3(0.0, c, 0.0), Vec3(0.0, 0.0, c))
  {
  }

  /** The cofactor expansions of a symmetric matrix [a b c; b d e; c e f] with
      cofactors a00 .. a22: each row against its own cofactors gives the
      determinant, against another row's gives zero. */
  lemma CofactorRow0(a: real, b: real, c: real, d: real, e: real, f: real,
                     a00: real, a01: real, a02: real, a11: real, a12: real, a22: real, det: real)
    requires a00 == d * f - e * e && a01 == c * e - b * f && a02 == b * e - c * d
    requires a11 == a * f - c * c && a12 == c * b - a * e && a22 == a * d - b * b
    requires det == a * (d * f - e * e) - b * (b * f - e * c) + c * (b * e - d * c)
    ensures var r := Vec3(a, b, c);
            Dot(Vec3(a00, a01, a02), r) == det && Dot(Vec3(a01, a11, a12), r) == 0.0 &&
            Dot(Vec3(a02, a12, a22), r) == 0.0
  {
  }

  lemma CofactorRow1(a: real, b: real, c: real, d: real, e: real, f: real,
                     a00: real, a01: real, a02: real, a11: real, a12: real, a22: real, det: real)
    requires a00 == d * f - e * e && a01 == c * e - b * f && a02 == b * e - c * d
    requires a11 == a * f - c * c && a12 == c * b - a * e && a22 == a * d - b * b
    requires det == a * (d * f - e * e) - b * (b * f - e * c) + c * (b * e - d * c)
    ensures var r := Vec3(b, d, e);
            Dot(Vec3(a00, a01, a02), r) == 0.0 && Dot(Vec3(a01, a11, a12), r) == det &&
            Dot(Vec3(a02, a12, a22), r) == 0.0
  {
  }

  lemma CofactorRow2(a: real, b: real, c: real, d: real, e: real, f: real,
                     a00: real, a01: real, a02: real, a11: real, a12: real, a22: real, det: real)
    requires a00 == d * f - e * e && a01 == c * e - b * f && a02 == b * e - c * d
    requires a11 == a * f - c * c && a12 == c * b - a * e && a22 == a * d - b * b
    requires det == a * (d * f - e * e) - b * (b * f - e * c) + c * (b * e - d * c)
    ensures var r := Vec3(c, e, f);
            Dot(Vec3(a00, a01, a02), r) == 0.0 && Dot(Vec3(a01, a11, a12), r) == 0.0 &&
            Dot(Vec3(a02, a12, a22), r) == det
  {
  }

  lemma AdjugateProductLeft(s: Sym6)
    ensures MatMul(Unpack(Adjugate(s)), Unpack(s)) == ScaleMat(Det(s), Identity)
  {
    AdjugateProductRight(s);
    SymmetricProductsTranspose(s, Adjugate(s));
  }

  /** The product of two symmetric matrices in the other order is the transpose. */
  lemma SymmetricProductsTranspose(s: Sym6, t: Sym6)
    ensures MatMul(Unpack(t), Unpack(s)) == Transpose(MatMul(Unpack(s), Unpack(t)))
  {
  }

  /** With a nonzero determinant the packed `inv_sum` is a two-sided inverse. */
  lemma InverseIsInverse(m: Libm, s: Sym6)
    requires Det(s) != 0.0
    ensures MatMul(Unpack(s), Unpack(Inverse(m, s))) == Identity
    ensures MatMul(Unpack(Inverse(m, s)), Unpack(s)) == Identity
  {
    AdjugateProduct(s);
    InverseIsScaledAdjugate(m, s);
    ScaledAdjugateIsInverse(Unpack(s), Unpack(Adjugate(s)), Det(s));
  }

  lemma InverseIsScaledAdjugate(m: Libm, s: Sym6)
    requires Det(s) != 0.0
    ensures Unpack(Inverse(m, s)) == ScaleMat(1.0 / Det(s), Unpack(Adjugate(s)))
  {
    EntrywiseDivision(m, Adjugate(s), Det(s));
  }

  /** Dividing each entry by d is scaling the matrix by 1/d. */
  lemma EntrywiseDivision(m: Libm, a: Sym6, d: real)
    requires d != 0.0
    ensures Unpack(Sym6(Div(m, a.c00, d), Div(m, a.c01, d), Div(m, a.c02, d),
                        Div(m, a.c11, d), Div(m, a.c12, d), Div(m, a.c22, d)))
            == ScaleMat(1.0 / d, Unpack(a))
  {
    DivIsScale(m, a.c00, d); DivIsScale(m, a.c01, d); DivIsScale(m, a.c02, d);
    DivIsScale(m, a.c11, d); DivIsScale(m, a.c12, d); DivIsScale(m, a.c22, d);
  }

  lemma DivIsScale(m: Libm, x: real, d: real)
    requires d != 0.0
    ensures Div(m, x, d) == (1.0 / d) * x
  {
  }

  lemma ScaledAdjugateIsInverse(p: Mat3, q: Mat3, d: real)
    requires d != 0.0
    requires MatMul(p, q) == ScaleMat(d, Identity) && MatMul(q, p) == ScaleMat(d, Identity)
    ensures MatMul(p, ScaleMat(1.0 / d, q)) == Identity
    ensures MatMul(ScaleMat(1.0 / d, q), p) == Identity
  {
    MatMulScaleRight(p, q, 1.0 / d);
    MatMulScaleLeft(q, p, 1.0 / d);
    UnitScale(1.0 / d, d);
  }

  lemma UnitScale(c: real, d: real)
    requires d != 0.0 && c == 1.0 / d
    ensures ScaleMat(c, ScaleMat(d, Identity)) == Identity
  {
    assert c * (d * 1.0) == 1.0;
    assert c * (d * 0.0) == 0.0;
  }

  lemma MatMulScaleRight(p: Mat3, q: Mat3, c: real)
    ensures MatMul(p, ScaleMat(c, q)) == ScaleMat(c, MatMul(p, q))
  {
    var qt := Transpose(q);
    TransposeScale(q, c);
    MatVecScale(qt, p.r0, c);
    MatVecScale(qt, p.r1, c);
    MatVecScale(qt, p.r2, c);
  }

  lemma TransposeScale(q: Mat3, c: real)
    ensures Transpose(ScaleMat(c, q)) == ScaleMat(c, Transpose(q))
  {
  }

  lemma MatMulScaleLeft(p: Mat3, q: Mat3, c: real)
    ensures MatMul(ScaleMat(c, p), q) == ScaleMat(c, MatMul(p, q))
  {
    var qt := Transpose(q);
    MatVecOfScaled(qt, p.r0, c);
    MatVecOfScaled(qt, p.r1, c);
    MatVecOfScaled(qt, p.r2, c);
  }

  lemma MatVecScale(a: Mat3, v: Vec3, c: real)
    ensures MatVec(ScaleMat(c, a), v) == Scale(c, MatVec(a, v))
  {
    DotScaleLeft(a.r0, v, c);
    DotScaleLeft(a.r1, v, c);
    DotScaleLeft(a.r2, v, c);
  }

  lemma MatVecOfScaled(a: Mat3, v: Vec3, c: real)
    ensures MatVec(a, Scale(c, v)) == Scale(c, MatVec(a, v))
  {
    DotScaleRight(a.r0, v, c);
    DotScaleRight(a.r1, v, c);
    DotScaleRight(a.r2, v, c);
  }

  lemma DotScaleLeft(a: Vec3, b: Vec3, c: real)
    ensures Dot(Scale(c, a), b) == c * Dot(a, b)
  {
  }

  lemma DotScaleRight(a: Vec3, b: Vec3, c: real)
    ensures Dot(a, Scale(c, b)) == c * Dot(a, b)
  {
  }

  /** The quadratic form does not see the sign of its vector, so the overlap of
      two Gaussians does not depend on which mean is subtracted from which. */
  lemma QuadFormOfDifferenceIsSymmetric(a: Vec3, b: Vec3, s: Sym6)
    ensures QuadForm(Sub(a, b), s) == QuadForm(Sub(b, a), s)
  {
    var d := Sub(a, b);
    assert Sub(b, a) == Neg(d);
    QuadFormEven(d, s);
  }

  lemma QuadFormEven(d: Vec3, s: Sym6)
    ensures QuadForm(Neg(d), s) == QuadForm(d, s)
  {
    var n := Neg(d);
    assert SymVec(s, n) == Neg(SymVec(s, d));
    calc {
      QuadForm(n, s);
      (-d.x) * (-SymVec(s, d).x) + (-d.y) * (-SymVec(s, d).y) + (-d.z) * (-SymVec(s, d).z);
      QuadForm(d, s);
    }
  }
}
