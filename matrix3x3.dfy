/** The 3x3 matrix value type of the transformations example: a column
    constructor, matrix-vector and matrix-matrix products, the identity and a
    rotation about the z axis. Entries are named mRC (row R, column C). */
module Matrices {
  import opened Vectors

  datatype Matrix3x3 = Matrix3x3(
    m00: real, m10: real, m20: real,
    m01: real, m11: real, m12: real,
    m02: real, m21: real, m22: real)

  /** Entry (i, j) of m, for a reader who prefers indices to field names. */
  function Entry(m: Matrix3x3, i: nat, j: nat): real
    requires i < 3 && j < 3
  {
    if i == 0 then (if j == 0 then m.m00 else if j == 1 then m.m01 else m.m02)
    else if i == 1 then (if j == 0 then m.m10 else if j == 1 then m.m11 else m.m12)
    else (if j == 0 then m.m20 else if j == 1 then m.m21 else m.m22)
  }

  function Row(m: Matrix3x3, i: nat): Vec3
    requires i < 3
  {
    Vec3(Entry(m, i, 0), Entry(m, i, 1), Entry(m, i, 2))
  }

  function Column(m: Matrix3x3, j: nat): Vec3
    requires j < 3
  {
    Vec3(Entry(m, 0, j), Entry(m, 1, j), Entry(m, 2, j))
  }

  /** The constructor: the three vectors become the three columns. */
  function FromColumns(c0: Vec3, c1: Vec3, c2: Vec3): (m: Matrix3x3)
    ensures Column(m, 0) == c0 && Column(m, 1) == c1 && Column(m, 2) == c2
  {
    Matrix3x3(m00 := c0.x, m01 := c1.x, m02 := c2.x,
              m10 := c0.y, m11 := c1.y, m12 := c2.y,
              m20 := c0.z, m21 := c1.z, m22 := c2.z)
  }

  const Identity: Matrix3x3 :=
    FromColumns(Vec3(1.0, 0.0, 0.0), Vec3(0.0, 1.0, 0.0), Vec3(0.0, 0.0, 1.0))

  /** operator*(Matrix3x3, Vector3). */
  function Apply(m: Matrix3x3, v: Vec3): Vec3
  {
    Vec3(m.m00 * v.x + m.m01 * v.y + m.m02 * v.z,
         m.m10 * v.x + m.m11 * v.y + m.m12 * v.z,
         m.m20 * v.x + m.m21 * v.y + m.m22 * v.z)
  }

  /** operator*(Matrix3x3, Matrix3x3). */
  function Mul(a: Matrix3x3, b: Matrix3x3): Matrix3x3
  {
    Matrix3x3(
      m00 := a.m00 * b.m00 + a.m01 * b.m10 + a.m02 * b.m20,
      m01 := a.m00 * b.m01 + a.m01 * b.m11 + a.m02 * b.m21,
      m02 := a.m00 * b.m02 + a.m01 * b.m12 + a.m02 * b.m22,
      m10 := a.m10 * b.m00 + a.m11 * b.m10 + a.m12 * b.m20,
      m11 := a.m10 * b.m01 + a.m11 * b.m11 + a.m12 * b.m21,
      m12 := a.m10 * b.m02 + a.m11 * b.m12 + a.m12 * b.m22,
      m20 := a.m20 * b.m00 + a.m21 * b.m10 + a.m22 * b.m20,
      m21 := a.m20 * b.m01 + a.m21 * b.m11 + a.m22 * b.m21,
      m22 := a.m20 * b.m02 + a.m21 * b.m12 + a.m22 * b.m22)
  }

  /** Rotate(angle), with c = cos(angle) and s = sin(angle) supplied by the
      caller: the identity with its upper-left block replaced. */
  function Rotate(c: real, s: real): (r: Matrix3x3)
    ensures r.m00 == c && r.m11 == c && r.m10 == s && r.m01 == -s
    ensures Row(r, 2) == Row(Identity, 2) && Column(r, 2) == Column(Identity, 2)
  {
    var res := Identity;
    var res := res.(m00 := c, m11 := c);
    var res := res.(m10 := s);
    res.(m01 := -res.m10)
  }

  /** Coordinate i of M v is row i of M dotted with v. */
  lemma ApplyRow(m: Matrix3x3, v: Vec3, i: nat)
    requires i < 3
    ensures Get(Apply(m, v), i) == Dot(Row(m, i), v)
  {
  }

  /** Entry (i, j) of A B is row i of A dotted with column j of B. */
  lemma MulEntry(a: Matrix3x3, b: Matrix3x3, i: nat, j: nat)
    requires i < 3 && j < 3
    ensures Entry(Mul(a, b), i, j) == Dot(Row(a, i), Column(b, j))
  {
    calc {
      Entry(Mul(a, b), i, j);
      Get(Column(Mul(a, b), j), i);
      { ColumnOfMul(a, b, j); }
      Get(Apply(a, Column(b, j)), i);
      { ApplyRow(a, Column(b, j), i); }
      Dot(Row(a, i), Column(b, j));
    }
  }

  /** M v is the combination of M's columns weighted by v's coordinates. */
  lemma ApplyIsColumnCombination(c0: Vec3, c1: Vec3, c2: Vec3, v: Vec3)
    ensures Apply(FromColumns(c0, c1, c2), v)
         == Add(Add(Scale(v.x, c0), Scale(v.y, c1)), Scale(v.z, c2))
  {
  }

  /** The scalar identity behind MulApply: a row-by-matrix product dotted
      with a vector equals the row dotted with the matrix-by-vector product. */
  lemma Distribute(a0: real, a1: real, a2: real,
                   b00: real, b01: real, b02: real,
                   b10: real, b11: real, b12: real,
                   b20: real, b21: real, b22: real,
                   c0: real, c1: real, c2: real)
    ensures (a0 * b00 + a1 * b10 + a2 * b20) * c0
          + (a0 * b01 + a1 * b11 + a2 * b21) * c1
          + (a0 * b02 + a1 * b12 + a2 * b22) * c2
         == a0 * (b00 * c0 + b01 * c1 + b02 * c2)
          + a1 * (b10 * c0 + b11 * c1 + b12 * c2)
          + a2 * (b20 * c0 + b21 * c1 + b22 * c2)
  {
  }

  /** Applying a product is applying its factors right to left. */
  lemma MulApply(a: Matrix3x3, b: Matrix3x3, v: Vec3)
    ensures Apply(Mul(a, b), v) == Apply(a, Apply(b, v))
  {
    Distribute(a.m00, a.m01, a.m02, b.m00, b.m01, b.m02, b.m10, b.m11, b.m12, b.m20, b.m21, b.m22,
               v.x, v.y, v.z);
    Distribute(a.m10, a.m11, a.m12, b.m00, b.m01, b.m02, b.m10, b.m11, b.m12, b.m20, b.m21, b.m22,
               v.x, v.y, v.z);
    Distribute(a.m20, a.m21, a.m22, b.m00, b.m01, b.m02, b.m10, b.m11, b.m12, b.m20, b.m21, b.m22,
               v.x, v.y, v.z);
  }

  /** Column j of A B is A applied to column j of B. */
  lemma ColumnOfMul(a: Matrix3x3, b: Matrix3x3, j: nat)
    requires j < 3
    ensures Column(Mul(a, b), j) == Apply(a, Column(b, j))
  {
    if j == 0 {
      assert Column(b, 0) == Vec3(b.m00, b.m10, b.m20);
      FirstColumnOfMul(a, b);
    } else if j == 1 {
      assert Column(b, 1) == Vec3(b.m01, b.m11, b.m21);
      SecondColumnOfMul(a, b);
    } else {
      assert Column(b, 2) == Vec3(b.m02, b.m12, b.m22);
      ThirdColumnOfMul(a, b);
    }
  }

  lemma FirstColumnOfMul(a: Matrix3x3, b: Matrix3x3)
    ensures var ab := Mul(a, b);
      Apply(a, Vec3(b.m00, b.m10, b.m20)) == Vec3(ab.m00, ab.m10, ab.m20)
  {
  }

  lemma SecondColumnOfMul(a: Matrix3x3, b: Matrix3x3)
    ensures var ab := Mul(a, b);
      Apply(a, Vec3(b.m01, b.m11, b.m21)) == Vec3(ab.m01, ab.m11, ab.m21)
  {
  }

  lemma ThirdColumnOfMul(a: Matrix3x3, b: Matrix3x3)
    ensures var ab := Mul(a, b);
      Apply(a, Vec3(b.m02, b.m12, b.m22)) == Vec3(ab.m02, ab.m12, ab.m22)
  {
  }

  lemma EqualColumns(m: Matrix3x3, n: Matrix3x3)
    requires forall j :: 0 <= j < 3 ==> Column(m, j) == Column(n, j)
    ensures m == n
  {
    assert Column(m, 0) == Column(n, 0);
    assert Column(m, 1) == Column(n, 1);
    assert Column(m, 2) == Column(n, 2);
  }

  lemma MulAssociative(a: Matrix3x3, b: Matrix3x3, c: Matrix3x3)
    ensures Mul(Mul(a, b), c) == Mul(a, Mul(b, c))
  {
    forall j | 0 <= j < 3
      ensures Column(Mul(Mul(a, b), c), j) == Column(Mul(a, Mul(b, c)), j)
    {
      calc {
        Column(Mul(Mul(a, b), c), j);
        { ColumnOfMul(Mul(a, b), c, j); }
        Apply(Mul(a, b), Column(c, j));
        { MulApply(a, b, Column(c, j)); }
        Apply(a, Apply(b, Column(c, j)));
        { ColumnOfMul(b, c, j); ColumnOfMul(a, Mul(b, c), j); }
        Column(Mul(a, Mul(b, c)), j);
      }
    }
    EqualColumns(Mul(Mul(a, b), c), Mul(a, Mul(b, c)));
  }

  lemma IdentityNeutral(m: Matrix3x3, v: Vec3)
    ensures Apply(Identity, v) == v
    ensures Mul(Identity, m) == m && Mul(m, Identity) == m
  {
  }

  /** Composing two rotations adds their angles: the entries of the product are
      the angle-sum formulas for cosine and sine. */
  lemma RotateCompose(c1: real, s1: real, c2: real, s2: real)
    ensures Mul(Rotate(c1, s1), Rotate(c2, s2)) == Rotate(c1 * c2 - s1 * s2, s1 * c2 + c1 * s2)
  {
  }

  /** With c^2 + s^2 = 1 the rotation preserves squared length. */
  lemma RotatePreservesLength(c: real, s: real, v: Vec3)
    requires c * c + s * s == 1.0
    ensures Dot(Apply(Rotate(c, s), v), Apply(Rotate(c, s), v)) == Dot(v, v)
  {
  }
}
