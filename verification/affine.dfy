/** Affine transformations `x ↦ L·x + t` of three-space (`transformations.py`):
    construction from a linear part, an optional rotation and an optional
    scaling, application to vectors, composition, inversion, transposition
    and the axis letters. */
module Transformations {
  import opened Wrappers
  import opened Strings
  import opened Vectors

  /** A 3×3 matrix, by rows. */
  datatype Mat3 = Mat3(r0: Vec3, r1: Vec3, r2: Vec3)

  /** An affine map with linear part `linear` and translation `translation`. */
  datatype Affine = Affine(linear: Mat3, translation: Vec3)

  const IdentityMatrix := Mat3(Vec3(1.0, 0.0, 0.0), Vec3(0.0, 1.0, 0.0), Vec3(0.0, 0.0, 1.0))

  /** Row `i` (0, 1 or 2) of a matrix. */
  function Row(m: Mat3, i: nat): Vec3
    requires i < 3
  {
    if i == 0 then m.r0 else if i == 1 then m.r1 else m.r2
  }

  /** `numpy.dot(m, v)`. */
  function MatVec(m: Mat3, v: Vec3): Vec3 {
    Vec3(Dot(m.r0, v), Dot(m.r1, v), Dot(m.r2, v))
  }

  /** The row `r` of a left factor times the matrix `b`. */
  function RowTimes(r: Vec3, b: Mat3): Vec3 {
    Add(Add(Scale(r.x, b.r0), Scale(r.y, b.r1)), Scale(r.z, b.r2))
  }

  /** `numpy.dot(a, b)`. */
  function MatMul(a: Mat3, b: Mat3): Mat3 {
    Mat3(RowTimes(a.r0, b), RowTimes(a.r1, b), RowTimes(a.r2, b))
  }

  /** `m.T`. */
  function TransposeMatrix(m: Mat3): Mat3 {
    Mat3(Vec3(m.r0.x, m.r1.x, m.r2.x), Vec3(m.r0.y, m.r1.y, m.r2.y), Vec3(m.r0.z, m.r1.z, m.r2.z))
  }

  /** One row of a product, applied to a vector. */
  lemma RowTimesDot(r: Vec3, b: Mat3, v: Vec3)
    ensures Dot(RowTimes(r, b), v) == Dot(r, MatVec(b, v))
  {
    Regroup(r.x, r.y, r.z, b.r0, b.r1, b.r2, v);
    var rb := RowTimes(r, b);
    assert rb.x == r.x * b.r0.x + r.y * b.r1.x + r.z * b.r2.x;
    assert rb.y == r.x * b.r0.y + r.y * b.r1.y + r.z * b.r2.y;
    assert rb.z == r.x * b.r0.z + r.y * b.r1.z + r.z * b.r2.z;
    var bv := MatVec(b, v);
    assert bv == Vec3(Dot(b.r0, v), Dot(b.r1, v), Dot(b.r2, v));
  }

  /** The sum of `r_i·b_ij·v_j`, grouped by `j` and grouped by `i`. */
  lemma Regroup(rx: real, ry: real, rz: real, b0: Vec3, b1: Vec3, b2: Vec3, v: Vec3)
    ensures (rx * b0.x + ry * b1.x + rz * b2.x) * v.x
        + (rx * b0.y + ry * b1.y + rz * b2.y) * v.y
        + (rx * b0.z + ry * b1.z + rz * b2.z) * v.z
      == rx * (b0.x * v.x + b0.y * v.y + b0.z * v.z)
        + ry * (b1.x * v.x + b1.y * v.y + b1.z * v.z)
        + rz * (b2.x * v.x + b2.y * v.y + b2.z * v.z)
  {
  }

  /** Matrix products act as the composition of their factors. */
  lemma MatMulApplies(a: Mat3, b: Mat3, v: Vec3)
    ensures MatVec(MatMul(a, b), v) == MatVec(a, MatVec(b, v))
  {
    RowTimesDot(a.r0, b, v);
    RowTimesDot(a.r1, b, v);
    RowTimesDot(a.r2, b, v);
  }

  lemma MatVecIdentity(v: Vec3)
    ensures MatVec(IdentityMatrix, v) == v
  {
  }

  lemma MatVecLinear(m: Mat3, u: Vec3, v: Vec3)
    ensures MatVec(m, Add(u, v)) == Add(MatVec(m, u), MatVec(m, v))
    ensures MatVec(m, Neg(v)) == Neg(MatVec(m, v))
  {
  }

  // ---------------------------------------------------------------------
  // Construction.

  /** `scaling * linear` after `numpy.ravel` (and a reshape to a column for
      three factors): three factors scale the three rows, one factor scales
      every entry, and any other count does not broadcast. */
  function ScaleLinear(s: seq<real>, m: Mat3): (r: Result<Mat3>)
    ensures r.Ok? <==> |s| == 3 || |s| == 1
    ensures r.Err? ==> r.exception.ValueError?
    ensures |s| == 3 ==> r == Ok(Mat3(Scale(s[0], m.r0), Scale(s[1], m.r1), Scale(s[2], m.r2)))
    ensures |s| == 1 ==> r == Ok(Mat3(Scale(s[0], m.r0), Scale(s[0], m.r1), Scale(s[0], m.r2)))
  {
    if |s| == 3 then Ok(Mat3(Scale(s[0], m.r0), Scale(s[1], m.r1), Scale(s[2], m.r2)))
    else if |s| == 1 then Ok(Mat3(Scale(s[0], m.r0), Scale(s[0], m.r1), Scale(s[0], m.r2)))
    else Err(ValueError("operands could not be broadcast together"))
  }

  /** `Affine(linear, translation, rotation_axis, rotation_deg, scaling)`.
      The rotation matrix `rotation_matrix(axis, deg)` involves sine and
      cosine and is passed in already computed; it multiplies the linear
      part from the left before the scaling is applied. */
  function MakeAffine(linear: Mat3, translation: Vec3, rotation: Option<Mat3>, scaling: Option<seq<real>>)
    : (r: Result<Affine>)
    ensures r.Ok? <==> scaling.None? || |scaling.value| in {1, 3}
    ensures r.Err? ==> r.exception.ValueError?
    ensures r.Ok? ==> r.value.translation == translation
  {
    var rotated := if rotation.Some? then MatMul(rotation.value, linear) else linear;
    if scaling.None? then Ok(Affine(rotated, translation))
    else match ScaleLinear(scaling.value, rotated)
      case Err(e) => Err(e)
      case Ok(scaled) => Ok(Affine(scaled, translation))
  }

  /** With three scaling factors, coordinate `i` of the image of a vector is
      the unscaled linear image's coordinate `i` times factor `i`, plus the
      translation. */
  lemma ScalingScalesCoordinates(linear: Mat3, t: Vec3, s0: real, s1: real, s2: real, v: Vec3)
    ensures MakeAffine(linear, t, None, Some([s0, s1, s2])).Ok?
    ensures var w := MatVec(linear, v);
      Apply(MakeAffine(linear, t, None, Some([s0, s1, s2])).value, v)
        == Vec3(s0 * w.x + t.x, s1 * w.y + t.y, s2 * w.z + t.z)
  {
    var scaled := Mat3(Scale(s0, linear.r0), Scale(s1, linear.r1), Scale(s2, linear.r2));
    assert MakeAffine(linear, t, None, Some([s0, s1, s2])) == Ok(Affine(scaled, t));
    RowsScaled(linear, s0, s1, s2, v);
  }

  lemma RowsScaled(m: Mat3, s0: real, s1: real, s2: real, v: Vec3)
    ensures var w := MatVec(m, v);
      MatVec(Mat3(Scale(s0, m.r0), Scale(s1, m.r1), Scale(s2, m.r2)), v) == Vec3(s0 * w.x, s1 * w.y, s2 * w.z)
  {
    var w := MatVec(m, v);
    var scaled := Mat3(Scale(s0, m.r0), Scale(s1, m.r1), Scale(s2, m.r2));
    var r := MatVec(scaled, v);
    assert r == Vec3(Dot(scaled.r0, v), Dot(scaled.r1, v), Dot(scaled.r2, v));
    assert w == Vec3(Dot(m.r0, v), Dot(m.r1, v), Dot(m.r2, v));
    ScaledDot(s0, m.r0, v);
    ScaledDot(s1, m.r1, v);
    ScaledDot(s2, m.r2, v);
  }

  /** With one scaling factor the whole linear image is scaled. */
  lemma UniformScalingScales(linear: Mat3, t: Vec3, k: real, v: Vec3)
    ensures MakeAffine(linear, t, None, Some([k])).Ok?
    ensures Apply(MakeAffine(linear, t, None, Some([k])).value, v) == Add(Scale(k, MatVec(linear, v)), t)
  {
    var scaled := Mat3(Scale(k, linear.r0), Scale(k, linear.r1), Scale(k, linear.r2));
    assert MakeAffine(linear, t, None, Some([k])) == Ok(Affine(scaled, t));
    RowsScaled(linear, k, k, k, v);
  }

  lemma ScaledDot(k: real, r: Vec3, v: Vec3)
    ensures Dot(Scale(k, r), v) == k * Dot(r, v)
  {
  }

  /** `Affine.identity()`: the default linear part and translation. */
  function Identity(): (r: Affine)
    ensures forall v :: Apply(r, v) == v
  {
    var r := MakeAffine(IdentityMatrix, Zero, None, None).value;
    IdentityFixes(r);
    r
  }

  lemma IdentityFixes(a: Affine)
    requires a == Affine(IdentityMatrix, Zero)
    ensures forall v :: Apply(a, v) == v
  {
  }

  // ---------------------------------------------------------------------
  // Application and composition.

  /** `a(v)` for a vector: `L·v + t`. */
  function Apply(a: Affine, v: Vec3): Vec3 {
    Add(MatVec(a.linear, v), a.translation)
  }

  /** `a(b)` for an affine `b`: `(A·B, A·t_b + t_a)`. */
  function Compose(a: Affine, b: Affine): (r: Affine)
    ensures forall v :: Apply(r, v) == Apply(a, Apply(b, v))
  {
    var r := Affine(MatMul(a.linear, b.linear), Add(MatVec(a.linear, b.translation), a.translation));
    forall v
      ensures Apply(r, v) == Apply(a, Apply(b, v))
    {
      ComposeApplies(a, b, v);
    }
    r
  }

  lemma ComposeApplies(a: Affine, b: Affine, v: Vec3)
    ensures var r := Affine(MatMul(a.linear, b.linear), Add(MatVec(a.linear, b.translation), a.translation));
      Apply(r, v) == Apply(a, Apply(b, v))
  {
    MatMulApplies(a.linear, b.linear, v);
    MatVecLinear(a.linear, MatVec(b.linear, v), b.translation);
  }

  /** Composition is associative on vectors, so chains of `Affine` calls
      may be grouped either way. */
  lemma ComposeAssociative(a: Affine, b: Affine, c: Affine, v: Vec3)
    ensures Apply(Compose(Compose(a, b), c), v) == Apply(Compose(a, Compose(b, c)), v)
  {
  }

  // ---------------------------------------------------------------------
  // Inverse and transpose.

  /** `a.inverse()`: the linear part is `numpy.linalg.inv(L)`, passed in,
      and the translation is `-inv·t`. */
  function Inverse(a: Affine, linearInverse: Mat3): (r: Affine)
    ensures r.linear == linearInverse
    ensures Apply(r, a.translation) == Zero
  {
    var r := Affine(linearInverse, Neg(MatVec(linearInverse, a.translation)));
    MatVecLinear(linearInverse, a.translation, a.translation);
    r
  }

  /** When `inv` is a left inverse of the linear part, the inverse undoes
      the map: `inverse()(a)` acts as the identity. */
  lemma InverseUndoes(a: Affine, linearInverse: Mat3, v: Vec3)
    requires MatMul(linearInverse, a.linear) == IdentityMatrix
    ensures Apply(Inverse(a, linearInverse), Apply(a, v)) == v
    ensures Apply(Compose(Inverse(a, linearInverse), a), v) == v
  {
    var inv := linearInverse;
    MatVecLinear(inv, MatVec(a.linear, v), a.translation);
    MatMulApplies(inv, a.linear, v);
  }

  /** `a.transpose()`: `(Lᵀ, -t)`. */
  function Transpose(a: Affine): (r: Affine)
    ensures forall u, v :: Dot(MatVec(r.linear, u), v) == Dot(u, MatVec(a.linear, v))
    ensures Add(r.translation, a.translation) == Zero
  {
    Affine(TransposeMatrix(a.linear), Neg(a.translation))
  }

  /** Transposing twice gives the map back. */
  lemma TransposeInvolutive(a: Affine)
    ensures Transpose(Transpose(a)) == a
  {
  }

  // ---------------------------------------------------------------------
  // Axis letters.

  /** Whether a (lower-cased) letter names an axis. */
  predicate IsAxisLetter(l: string) {
    |l| == 1 && (l[0] == 'x' || l[0] == 'y' || l[0] == 'z')
  }

  /** `axis_symbol_to_vector(letter)`: `x`, `y` or `z` in either case give
      the unit vectors; anything else raises. */
  function AxisSymbolToVector(letter: string): (r: Result<Vec3>)
    ensures r.Ok? <==> IsAxisLetter(Lower(letter))
    ensures r.Err? ==> r == Err(RuntimeError("invalid axis letter " + Lower(letter)))
    ensures r.Ok? ==> Norm2(r.value) == 1.0
  {
    var l := Lower(letter);
    if |l| == 1 && l[0] == 'x' then Ok(Vec3(1.0, 0.0, 0.0))
    else if |l| == 1 && l[0] == 'y' then Ok(Vec3(0.0, 1.0, 0.0))
    else if |l| == 1 && l[0] == 'z' then Ok(Vec3(0.0, 0.0, 1.0))
    else Err(RuntimeError("invalid axis letter " + l))
  }

  /** The three letters give the three coordinate axes, in order, and so
      do their upper-case forms. */
  lemma AxisLetters(c: char)
    requires c == 'x' || c == 'y' || c == 'z'
    ensures AxisSymbolToVector([c]) == AxisSymbolToVector([UpperChar(c)])
    ensures AxisSymbolToVector([c]) == Ok(
      if c == 'x' then Vec3(1.0, 0.0, 0.0) else if c == 'y' then Vec3(0.0, 1.0, 0.0) else Vec3(0.0, 0.0, 1.0))
  {
    assert Lower([c])[0] == c;
    assert Lower([UpperChar(c)])[0] == c;
  }

  /** Any other single letter, in either case, is refused. */
  lemma OtherLettersRefused(c: char)
    requires 'a' <= c <= 'z' && c != 'x' && c != 'y' && c != 'z'
    ensures AxisSymbolToVector([c]).Err? && AxisSymbolToVector([UpperChar(c)]).Err?
  {
    assert Lower([c])[0] == c;
    assert Lower([UpperChar(c)])[0] == c;
  }

  // ---------------------------------------------------------------------
  // The unit tests' examples.

  /** `Affine(translation=(1,2,3))` maps `(0,-1,-3)` to `(1,1,0)`. */
  lemma TranslationExample()
    ensures MakeAffine(IdentityMatrix, Vec3(1.0, 2.0, 3.0), None, None).Ok?
    ensures Apply(MakeAffine(IdentityMatrix, Vec3(1.0, 2.0, 3.0), None, None).value, Vec3(0.0, -1.0, -3.0))
      == Vec3(1.0, 1.0, 0.0)
  {
  }

  /** `Affine(scaling=(1,2,3))` maps `(1,1,1)` to `(1,2,3)` and
      `Affine(scaling=10)` maps `(1,2,3)` to `(10,20,30)`. */
  lemma ScalingExamples()
    ensures Apply(MakeAffine(IdentityMatrix, Zero, None, Some([1.0, 2.0, 3.0])).value, Vec3(1.0, 1.0, 1.0))
      == Vec3(1.0, 2.0, 3.0)
    ensures Apply(MakeAffine(IdentityMatrix, Zero, None, Some([10.0])).value, Vec3(1.0, 2.0, 3.0))
      == Vec3(10.0, 20.0, 30.0)
  {
    var rows := Mat3(Vec3(1.0, 0.0, 0.0), Vec3(0.0, 2.0, 0.0), Vec3(0.0, 0.0, 3.0));
    assert MakeAffine(IdentityMatrix, Zero, None, Some([1.0, 2.0, 3.0])) == Ok(Affine(rows, Zero));
    var ten := Mat3(Vec3(10.0, 0.0, 0.0), Vec3(0.0, 10.0, 0.0), Vec3(0.0, 0.0, 10.0));
    assert MakeAffine(IdentityMatrix, Zero, None, Some([10.0])) == Ok(Affine(ten, Zero));
  }


}
