/**
 Rigid transforms of space: an orthonormal 3x3 matrix and a translation, composed as Eigen composes
 affine transforms. They form a group, and not a commutative one.
 */
module RigidTransforms {
  import opened TransformAlgebra

  datatype Mat3 = Mat3(r0: Vec3, r1: Vec3, r2: Vec3)

  function Add(u: Vec3, v: Vec3): Vec3 {
    Vec3(u.x + v.x, u.y + v.y, u.z + v.z)
  }

  function Neg(v: Vec3): Vec3 {
    Vec3(-v.x, -v.y, -v.z)
  }

  function Zero(): Vec3 {
    Vec3(0.0, 0.0, 0.0)
  }

  function Scale(k: real, v: Vec3): Vec3 {
    Vec3(k * v.x, k * v.y, k * v.z)
  }

  function Dot(u: Vec3, v: Vec3): real {
    u.x * v.x + u.y * v.y + u.z * v.z
  }

  function Apply(m: Mat3, v: Vec3): Vec3 {
    Vec3(Dot(m.r0, v), Dot(m.r1, v), Dot(m.r2, v))
  }

  function Transpose(m: Mat3): Mat3 {
    Mat3(Vec3(m.r0.x, m.r1.x, m.r2.x), Vec3(m.r0.y, m.r1.y, m.r2.y), Vec3(m.r0.z, m.r1.z, m.r2.z))
  }

  function Product(a: Mat3, b: Mat3): Mat3 {
    var t := Transpose(b);
    Mat3(Apply(t, a.r0), Apply(t, a.r1), Apply(t, a.r2))
  }

  function Identity(): Mat3 {
    Mat3(Vec3(1.0, 0.0, 0.0), Vec3(0.0, 1.0, 0.0), Vec3(0.0, 0.0, 1.0))
  }

  predicate Orthonormal(m: Mat3) {
    Product(m, Transpose(m)) == Identity() && Product(Transpose(m), m) == Identity()
  }

  type Rotation = m: Mat3 | Orthonormal(m) witness (IdentityOrthonormal(); Identity())

  datatype Rigid = Rigid(translation: Vec3, rotation: Rotation)

  lemma DotApply(u: Vec3, m: Mat3, v: Vec3)
    ensures Dot(u, Apply(m, v)) == Dot(Apply(Transpose(m), u), v)
  {
  }

  lemma ApplyProduct(a: Mat3, b: Mat3, v: Vec3)
    ensures Apply(Product(a, b), v) == Apply(a, Apply(b, v))
  {
    DotApply(a.r0, b, v);
    DotApply(a.r1, b, v);
    DotApply(a.r2, b, v);
  }

  lemma TransposeProduct(a: Mat3, b: Mat3)
    ensures Transpose(Product(a, b)) == Product(Transpose(b), Transpose(a))
  {
  }

  lemma ProductAssociative(a: Mat3, b: Mat3, c: Mat3)
    ensures Product(Product(a, b), c) == Product(a, Product(b, c))
  {
    TransposeProduct(b, c);
    ApplyProduct(Transpose(c), Transpose(b), a.r0);
    ApplyProduct(Transpose(c), Transpose(b), a.r1);
    ApplyProduct(Transpose(c), Transpose(b), a.r2);
  }

  lemma ProductIdentity(a: Mat3)
    ensures Product(a, Identity()) == a && Product(Identity(), a) == a
  {
  }

  lemma ApplyIdentity(v: Vec3)
    ensures Apply(Identity(), v) == v
  {
  }

  lemma ApplyLinear(m: Mat3, u: Vec3, v: Vec3)
    ensures Apply(m, Add(u, v)) == Add(Apply(m, u), Apply(m, v))
    ensures Apply(m, Neg(u)) == Neg(Apply(m, u))
  {
  }

  lemma ApplyZero(m: Mat3)
    ensures Apply(m, Zero()) == Zero()
  {
  }

  /** A product of orthonormal matrices is orthonormal: m mᵀ = a (b bᵀ) aᵀ. */
  lemma HalfOrthonormal(a: Mat3, b: Mat3)
    requires Product(a, Transpose(a)) == Identity() && Product(b, Transpose(b)) == Identity()
    ensures Product(Product(a, b), Transpose(Product(a, b))) == Identity()
  {
    TransposeProduct(a, b);
    ProductAssociative(a, b, Product(Transpose(b), Transpose(a)));
    ProductAssociative(b, Transpose(b), Transpose(a));
    ProductIdentity(Transpose(a));
  }

  lemma ProductOrthonormal(a: Mat3, b: Mat3)
    requires Orthonormal(a) && Orthonormal(b)
    ensures Orthonormal(Product(a, b))
  {
    HalfOrthonormal(a, b);
    HalfOrthonormal(Transpose(b), Transpose(a));
    TransposeProduct(a, b);
  }

  function Mul(a: Rigid, b: Rigid): Rigid {
    ProductOrthonormal(a.rotation, b.rotation);
    Rigid(Add(a.translation, Apply(a.rotation, b.translation)), Product(a.rotation, b.rotation))
  }

  function Inv(a: Rigid): Rigid {
    Rigid(Neg(Apply(Transpose(a.rotation), a.translation)), Transpose(a.rotation))
  }

  lemma IdentityOrthonormal()
    ensures Orthonormal(Identity())
  {
    hide Product;
    ProductIdentity(Identity());
    assert Transpose(Identity()) == Identity();
  }

  function One(): Rigid {
    IdentityOrthonormal();
    Rigid(Zero(), Identity())
  }

  /** Linear in the translation; the rotation is left to slerp, which stays a parameter. */
  function Blend(slerp: (Rotation, Rotation, real) -> Rotation, a: Rigid, b: Rigid, ratio: real): Rigid {
    Rigid(Add(a.translation, Scale(ratio, Add(b.translation, Neg(a.translation)))),
          slerp(a.rotation, b.rotation, ratio))
  }

  /** The algebra of rigid transforms; normalised needs a square root and axisAngle sines, so both are parameters. */
  function RigidAlgebra(slerp: (Rotation, Rotation, real) -> Rotation,
                        axisAngle: (Vec3, real) -> Rotation, normalised: Vec3 -> Vec3): Algebra<Rigid> {
    Algebra(
      One(),
      (a, b) => Mul(a, b),
      a => Inv(a),
      (a, b, ratio) => Blend(slerp, a, b, ratio),
      (axis, angle) => Rigid(Zero(), axisAngle(normalised(axis), angle)),
      (axis, distance) => Rigid(Scale(distance, normalised(axis)), One().rotation))
  }

  /** Where a transform takes a point. */
  function Moved(a: Rigid, v: Vec3): Vec3 {
    Add(a.translation, Apply(a.rotation, v))
  }

  /** The rows of the matrix times the point, shifted by the translation: the origin of space goes there. */
  lemma MovedPoint(a: Rigid, v: Vec3)
    ensures var (m, t) := (a.rotation, a.translation);
            && Moved(a, v).x == t.x + (m.r0.x * v.x + m.r0.y * v.y + m.r0.z * v.z)
            && Moved(a, v).y == t.y + (m.r1.x * v.x + m.r1.y * v.y + m.r1.z * v.z)
            && Moved(a, v).z == t.z + (m.r2.x * v.x + m.r2.y * v.y + m.r2.z * v.z)
    ensures Moved(a, Zero()) == a.translation && Moved(One(), v) == v
  {
    hide Orthonormal;
    ApplyZero(a.rotation);
    ApplyIdentity(v);
  }

  /** A product takes a point where its right factor does, and from there where its left factor does. */
  lemma ProductMoves(a: Rigid, b: Rigid, v: Vec3)
    ensures Moved(Mul(a, b), v) == Moved(a, Moved(b, v))
  {
    hide Apply, Product, Orthonormal;
    ApplyProduct(a.rotation, b.rotation, v);
    ApplyLinear(a.rotation, b.translation, Apply(b.rotation, v));
  }

  /** A rigid transform is known by where it takes points. */
  lemma MovedUnique(a: Rigid, b: Rigid)
    requires forall v :: Moved(a, v) == Moved(b, v)
    ensures a == b
  {
    hide Orthonormal, Moved, Apply;
    MovedPoint(a, Zero());
    MovedPoint(b, Zero());
    Columns(a);
    Columns(b);
  }

  lemma Columns(a: Rigid)
    ensures Moved(a, Vec3(1.0, 0.0, 0.0)) == Add(a.translation, Vec3(a.rotation.r0.x, a.rotation.r1.x, a.rotation.r2.x))
    ensures Moved(a, Vec3(0.0, 1.0, 0.0)) == Add(a.translation, Vec3(a.rotation.r0.y, a.rotation.r1.y, a.rotation.r2.y))
    ensures Moved(a, Vec3(0.0, 0.0, 1.0)) == Add(a.translation, Vec3(a.rotation.r0.z, a.rotation.r1.z, a.rotation.r2.z))
  {
    hide Orthonormal;
  }

  lemma MulAssociative(a: Rigid, b: Rigid, c: Rigid)
    ensures Mul(Mul(a, b), c) == Mul(a, Mul(b, c))
  {
    ProductAssociative(a.rotation, b.rotation, c.rotation);
    ApplyProduct(a.rotation, b.rotation, c.translation);
    ApplyLinear(a.rotation, b.translation, Apply(b.rotation, c.translation));
  }

  lemma MulInverse(a: Rigid)
    ensures Mul(a, Inv(a)) == One() && Mul(Inv(a), a) == One()
  {
    hide Apply, Product, Transpose;
    var t := Apply(Transpose(a.rotation), a.translation);
    ApplyLinear(a.rotation, t, t);
    ApplyProduct(a.rotation, Transpose(a.rotation), a.translation);
    ApplyIdentity(a.translation);
  }

  lemma MulUnit(a: Rigid, o: Rigid)
    requires o.translation == Zero() && o.rotation == Identity()
    ensures Mul(a, o) == a && Mul(o, a) == a
  {
    hide Product, Apply, Orthonormal, Identity;
    ProductIdentity(a.rotation);
    ApplyZero(a.rotation);
    ApplyIdentity(a.translation);
  }

  /** Rigid transforms satisfy every law the frame theorems assume. */
  lemma RigidIsGroup(slerp: (Rotation, Rotation, real) -> Rotation,
                     axisAngle: (Vec3, real) -> Rotation, normalised: Vec3 -> Vec3)
    ensures IsGroup(RigidAlgebra(slerp, axisAngle, normalised))
  {
    hide Apply, Product, Transpose, Mul, Inv, Orthonormal, Identity;
    var g := RigidAlgebra(slerp, axisAngle, normalised);
    forall a, b, c ensures g.mul(g.mul(a, b), c) == g.mul(a, g.mul(b, c)) {
      MulAssociative(a, b, c);
    }
    forall a ensures g.mul(a, g.one) == a && g.mul(g.one, a) == a {
      MulUnit(a, One());
    }
    forall a ensures g.mul(a, g.inv(a)) == g.one && g.mul(g.inv(a), a) == g.one {
      MulInverse(a);
    }
  }

  /** The turn about the vertical axis whose cosine and sine are c and s. */
  function Turn(c: real, s: real): Rotation
    requires c * c + s * s == 1.0
  {
    TurnOrthonormal(c, s);
    Mat3(Vec3(c, -s, 0.0), Vec3(s, c, 0.0), Vec3(0.0, 0.0, 1.0))
  }

  lemma DotFlat(u: Vec3, v: Vec3)
    requires u.z == 0.0
    ensures Dot(u, v) == u.x * v.x + u.y * v.y
  {
  }

  lemma DotUp(u: Vec3, v: Vec3)
    requires u == Vec3(0.0, 0.0, 1.0)
    ensures Dot(u, v) == v.z
  {
  }

  lemma FlatRows(m: Mat3, c: real, s: real)
    requires c * c + s * s == 1.0
    requires m == Mat3(Vec3(c, -s, 0.0), Vec3(s, c, 0.0), Vec3(0.0, 0.0, 1.0))
    ensures Product(m, Transpose(m)) == Identity()
  {
    hide Dot;
    DotFlat(m.r0, m.r0);
    DotFlat(m.r0, m.r1);
    DotFlat(m.r1, m.r0);
    DotFlat(m.r1, m.r1);
    DotUp(m.r2, m.r0);
    DotUp(m.r2, m.r1);
    DotUp(m.r2, m.r2);
    DotFlat(m.r0, m.r2);
    DotFlat(m.r1, m.r2);
  }

  lemma TurnOrthonormal(c: real, s: real)
    requires c * c + s * s == 1.0
    ensures Orthonormal(Mat3(Vec3(c, -s, 0.0), Vec3(s, c, 0.0), Vec3(0.0, 0.0, 1.0)))
  {
    hide Product;
    var m := Mat3(Vec3(c, -s, 0.0), Vec3(s, c, 0.0), Vec3(0.0, 0.0, 1.0));
    var t := Mat3(Vec3(c, s, 0.0), Vec3(-s, c, 0.0), Vec3(0.0, 0.0, 1.0));
    assert Transpose(m) == t && Transpose(t) == m;
    FlatRows(m, c, s);
    FlatRows(t, c, -s);
  }

  /** A turn that moves e does not commute with the shift by e. */
  lemma TurnAndShift(turn: Rigid, shift: Rigid)
    requires turn.translation == Zero() && shift.rotation == Identity()
    requires Apply(turn.rotation, shift.translation) != shift.translation
    ensures Mul(turn, shift) != Mul(shift, turn)
  {
    hide Product, Apply, Orthonormal, Identity;
    ApplyIdentity(Zero());
    assert Mul(turn, shift).translation == Apply(turn.rotation, shift.translation);
    assert Mul(shift, turn).translation == shift.translation;
  }

  /** So the order of a product matters: a quarter turn takes the x axis to the y axis. */
  lemma NotCommutative()
    ensures exists a, b :: Mul(a, b) != Mul(b, a)
  {
    hide Product, Orthonormal, Identity, Dot, Mul;
    var turn := Rigid(Zero(), Turn(0.0, 1.0));
    var shift := Rigid(Vec3(1.0, 0.0, 0.0), One().rotation);
    DotFlat(turn.rotation.r1, shift.translation);
    TurnAndShift(turn, shift);
  }
}
