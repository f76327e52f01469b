/**
 What holds of rigid transforms in particular: how joints move, how lookups move translations, and what queries need
 not satisfy.
 */
module RigidLookups {
  import opened Arithmetic
  import opened Common
  import opened TransformAlgebra
  import opened RigidTransforms
  import opened Samples
  import opened Joints
  import opened FrameTrees
  import opened Kinematics

  /**
   A joint that turns stays where its origin is, whatever its position; one that slides keeps the way its origin is
   turned, and stands where the origin takes the point so far along the axis.
   */
  lemma JointStands(slerp: (Rotation, Rotation, real) -> Rotation, axisAngle: (Vec3, real) -> Rotation,
                    normalised: Vec3 -> Vec3, r: JointRecord<Rigid>, position: real)
    ensures var t := TransformAt(RigidAlgebra(slerp, axisAngle, normalised), r, position);
            var n := normalised(r.axis);
            var still := r.kind == Fixed || (r.axis.x == 0.0 && r.axis.y == 0.0 && r.axis.z == 0.0);
            && (still ==> t == r.origin)
            && (!still && r.kind != Prismatic ==>
                  && t.translation == r.origin.translation
                  && t.rotation == Product(r.origin.rotation, axisAngle(n, position)))
            && (!still && r.kind == Prismatic ==>
                  && t.rotation == r.origin.rotation
                  && t.translation == Moved(r.origin, Vec3(position * n.x, position * n.y, position * n.z)))
  {
    hide RigidTransforms.Apply, Product, Orthonormal, Identity;
    ApplyZero(r.origin.rotation);
    ProductIdentity(r.origin.rotation);
  }

  datatype Axis = X | Y | Z

  function Along(axis: Axis, p: Rigid): real {
    match axis
    case X => p.translation.x
    case Y => p.translation.y
    case Z => p.translation.z
  }

  /** Interpolation moves each coordinate of the translation linearly, and so also its opposite. */
  lemma TranslationLinear(slerp: (Rotation, Rotation, real) -> Rotation, axis: Axis)
    ensures Linear(p => Along(axis, p), (a, b, ratio) => Blend(slerp, a, b, ratio))
    ensures Linear(p => -Along(axis, p), (a, b, ratio) => Blend(slerp, a, b, ratio))
  {
    hide Along, Blend, PartWay;
    forall a, b, ratio
      ensures Along(axis, Blend(slerp, a, b, ratio)) == PartWay(Along(axis, a), Along(axis, b), ratio)
      ensures -Along(axis, Blend(slerp, a, b, ratio)) == PartWay(-Along(axis, a), -Along(axis, b), ratio) {
      BlendAlong(slerp, axis, a, b, ratio);
      PartWayBack(Along(axis, a), Along(axis, b), ratio);
    }
  }

  /** This is so in the algebra of rigid transforms, so what holds of linear blends holds of it. */
  lemma RigidLinear(slerp: (Rotation, Rotation, real) -> Rotation, axisAngle: (Vec3, real) -> Rotation,
                    normalised: Vec3 -> Vec3, axis: Axis)
    ensures Linear(p => Along(axis, p), RigidAlgebra(slerp, axisAngle, normalised).blend)
  {
    hide Along, Blend, PartWay, Mul, Inv, One, Scale, Zero, Orthonormal, Linear;
    var blend := (a, b, ratio) => Blend(slerp, a, b, ratio);
    TranslationLinear(slerp, axis);
    var g := RigidAlgebra(slerp, axisAngle, normalised);
    SameBlend(p => Along(axis, p), blend, g.blend);
  }

  lemma SameBlend<T(!new)>(axis: T -> real, f: (T, T, real) -> T, h: (T, T, real) -> T)
    requires Linear(axis, f) && forall a, b, ratio :: f(a, b, ratio) == h(a, b, ratio)
    ensures Linear(axis, h)
  {
    hide PartWay;
  }

  lemma BlendAlong(slerp: (Rotation, Rotation, real) -> Rotation, axis: Axis, a: Rigid, b: Rigid, ratio: real)
    ensures Along(axis, Blend(slerp, a, b, ratio)) == PartWay(Along(axis, a), Along(axis, b), ratio)
  {
    hide Orthonormal, Product, Transpose, Identity;
    var p, q := a.translation, b.translation;
    SameTimes(ratio, q.x + -p.x, q.x - p.x);
    SameTimes(ratio, q.y + -p.y, q.y - p.y);
    SameTimes(ratio, q.z + -p.z, q.z - p.z);
  }

  /** So a looked-up translation stays, axis by axis, within what is stored. */
  lemma TranslationBounded(slerp: (Rotation, Rotation, real) -> Rotation, axis: Axis, s: seq<Sample<Rigid>>,
                           time: int, lo: real, hi: real)
    requires Sorted(s) && s != [] && forall i :: 0 <= i < |s| ==> lo <= Along(axis, s[i].value) <= hi
    ensures lo <= Along(axis, Scan(s, time, (a, b, ratio) => Blend(slerp, a, b, ratio))) <= hi
  {
    hide Along, Blend, Linear;
    TranslationLinear(slerp, axis);
    ScanWithinBounds(s, time, (a, b, ratio) => Blend(slerp, a, b, ratio), p => Along(axis, p), lo, hi);
  }

  /** If the stored ones lie on a straight line over the time, so does the looked-up one. */
  lemma TranslationStraight(slerp: (Rotation, Rotation, real) -> Rotation, axis: Axis, s: seq<Sample<Rigid>>,
                            time: int, c: real, e: real)
    requires Sorted(s) && s != [] && s[0].stamp <= time <= s[|s| - 1].stamp
    requires forall i :: 0 <= i < |s| ==> Along(axis, s[i].value) == c * s[i].stamp as real + e
    ensures Along(axis, Scan(s, time, (a, b, ratio) => Blend(slerp, a, b, ratio))) == c * time as real + e
  {
    hide Along, Blend, Linear;
    TranslationLinear(slerp, axis);
    ScanStraight(s, time, (a, b, ratio) => Blend(slerp, a, b, ratio), p => Along(axis, p), c, e);
  }

  /** Between two neighbours the rotation is interpolated by the part of the gap between their stamps that has gone
      by. */
  lemma RotationBlends(slerp: (Rotation, Rotation, real) -> Rotation, s: seq<Sample<Rigid>>, time: int, i: nat)
    returns (ratio: real)
    requires Sorted(s) && i + 1 < |s| && s[i].stamp < time < s[i + 1].stamp
    ensures Scan(s, time, (a, b, ratio) => Blend(slerp, a, b, ratio)).rotation
            == slerp(s[i].value.rotation, s[i + 1].value.rotation, ratio)
    ensures IsPart(ratio, s[i].stamp, s[i + 1].stamp, time)
  {
    hide Blend, Scan, IsPart;
    ratio := ScanBlends(s, time, (a, b, ratio) => Blend(slerp, a, b, ratio), i);
    BlendRotation(slerp, s[i].value, s[i + 1].value, ratio);
  }

  lemma BlendRotation(slerp: (Rotation, Rotation, real) -> Rotation, a: Rigid, b: Rigid, ratio: real)
    ensures Blend(slerp, a, b, ratio).rotation == slerp(a.rotation, b.rotation, ratio)
  {
    hide Orthonormal, Scale, Add, Neg;
  }

  /** And it moves with the query time, along an axis on which the stored ones all move forward or all back. */
  lemma TranslationMonotone(slerp: (Rotation, Rotation, real) -> Rotation, axis: Axis, s: seq<Sample<Rigid>>, t: int,
                            u: int)
    requires Sorted(s) && s != [] && t <= u
    ensures var blend := (a, b, ratio) => Blend(slerp, a, b, ratio);
            && ((forall i, j :: 0 <= i < j < |s| ==> Along(axis, s[i].value) <= Along(axis, s[j].value)) ==>
                  Along(axis, Scan(s, t, blend)) <= Along(axis, Scan(s, u, blend)))
            && ((forall i, j :: 0 <= i < j < |s| ==> Along(axis, s[i].value) >= Along(axis, s[j].value)) ==>
                  Along(axis, Scan(s, t, blend)) >= Along(axis, Scan(s, u, blend)))
  {
    hide Along, Blend, Linear;
    TranslationLinear(slerp, axis);
    if forall i, j :: 0 <= i < j < |s| ==> Along(axis, s[i].value) <= Along(axis, s[j].value) {
      ScanMonotone(s, t, u, (a, b, ratio) => Blend(slerp, a, b, ratio), p => Along(axis, p));
    }
    if forall i, j :: 0 <= i < j < |s| ==> Along(axis, s[i].value) >= Along(axis, s[j].value) {
      ScanMonotone(s, t, u, (a, b, ratio) => Blend(slerp, a, b, ratio), p => -Along(axis, p));
    }
  }

  // ---------- What queries need not satisfy

  function Placed<T>(parent: string, child: string, x: T): Stamped<T> {
    Stamped(0, 1, parent, child, x)
  }

  /** Two frames under the root, at p and q: the query between them is not their relative pose. */
  ghost predicate SiblingsMisread<T(!new)>(g: Algebra<T>, p: T, q: T, time: int) {
    var t := After("world", 0, [Placed("world", "a", p), Placed("world", "b", q)]);
    && WellFormed(t) && t.names == ["world", "a", "b"]
    && Relative(t, g, 1, 2, time) != g.mul(g.inv(FromRoot(t, g, 2, time)), FromRoot(t, g, 1, time))
  }

  /** Under a frame at r, one frame at p and one at the same place: going through the second changes the answer. */
  ghost predicate DetourDiffers<T(!new)>(g: Algebra<T>, p: T, r: T, time: int) {
    var t := After("world", 0, [Placed("world", "n", r), Placed("n", "a", p), Placed("n", "b", g.one)]);
    && WellFormed(t) && t.names == ["world", "n", "a", "b"]
    && Relative(t, g, 2, 0, time) != g.mul(Relative(t, g, 2, 3, time), Relative(t, g, 3, 0, time))
  }

  /** The tree two updates build. */
  lemma TwoPlaced<T>(a: Stamped<T>, b: Stamped<T>)
    requires a.frameId == b.frameId == "world" && a.childFrameId == "a" && b.childFrameId == "b"
    ensures After("world", 0, [a, b]) == Tree(["world", "a", "b"], [-1, 0, 0],
                                              [[], [Sample(a.stamp, a.transform)], [Sample(b.stamp, b.transform)]], 0)
  {
    hide Insert, After, FrameTrees.Apply;
    FirstPlaced(a);
    AfterOneMore("world", 0, [a], b);
    assert [a] + [b] == [a, b];
    PlacedNext(After("world", 0, [a]), b, 0);
  }

  lemma ThreePlaced<T>(n: Stamped<T>, a: Stamped<T>, b: Stamped<T>)
    requires n.frameId == "world" && a.frameId == b.frameId == "n"
    requires n.childFrameId == "n" && a.childFrameId == "a" && b.childFrameId == "b"
    ensures After("world", 0, [n, a, b])
            == Tree(["world", "n", "a", "b"], [-1, 0, 1, 1],
                    [[], [Sample(n.stamp, n.transform)], [Sample(a.stamp, a.transform)],
                     [Sample(b.stamp, b.transform)]], 0)
  {
    hide Insert, After, FrameTrees.Apply;
    FirstPlaced(n);
    AfterOneMore("world", 0, [n], a);
    assert [n] + [a] == [n, a] && [n, a] + [b] == [n, a, b];
    PlacedNext(After("world", 0, [n]), a, 1);
    AfterOneMore("world", 0, [n, a], b);
    PlacedNext(After("world", 0, [n, a]), b, 1);
  }

  lemma FirstPlaced<T>(a: Stamped<T>)
    requires a.frameId == "world" && a.childFrameId != "world"
    ensures After("world", 0, [a]) == Tree(["world", a.childFrameId], [-1, 0],
                                           [[], [Sample(a.stamp, a.transform)]], 0)
  {
    hide Insert, FrameTrees.Apply;
    assert [a][..0] == [];
    PlacedNext(Fresh("world", 0), a, 0);
  }

  /** One more update: a new frame under frame i. */
  lemma PlacedNext<T>(t: Tree<T>, m: Stamped<T>, i: nat)
    requires |t.names| == |t.parent| == |t.samples| && t.duration == 0 && Distinct(t.names)
    requires i < |t.names| && t.names[i] == m.frameId && m.childFrameId !in t.names
    ensures FrameTrees.Apply(t, m).0 == Tree(t.names + [m.childFrameId], t.parent + [i],
                                  t.samples + [[Sample(m.stamp, m.transform)]], 0)
  {
    hide Insert, FrameTrees.Apply;
    ApplyNew(t, m);
    InsertFirst(m.stamp, m.transform, 0);
    IndexUnique(t.names, i);
  }

  lemma SiblingQuery<T(!new)>(g: Algebra<T>, p: T, q: T, time: int)
    requires IsGroup(g) && g.mul(p, q) != g.mul(q, p)
    ensures SiblingsMisread(g, p, q, time)
  {
    hide After;
    var a, b := Placed("world", "a", p), Placed("world", "b", q);
    var t := After("world", 0, [a, b]);
    TwoPlaced(a, b);
    AfterWellFormed("world", 0, [a, b]);
    assert t.parent[1] == 0 && t.parent[2] == 0;
    assert Nearest(t.parent, 1, 2) == Nearest(t.parent, 1, 0) == Nearest(t.parent, 0, 0) == 0;
    RootIsAncestor(t.parent, 1);
    RootIsAncestor(t.parent, 2);
    assert Down(t, g, 0, 1, time) == p;
    assert Down(t, g, 0, 2, time) == q;
    RelativeIsPoseIff(t, g, 1, 2, time);
  }

  lemma DetourQuery<T(!new)>(g: Algebra<T>, p: T, r: T, time: int)
    requires IsGroup(g) && g.mul(p, r) != g.mul(r, p)
    ensures DetourDiffers(g, p, r, time)
  {
    hide After;
    var n, a, b := Placed("world", "n", r), Placed("n", "a", p), Placed("n", "b", g.one);
    var t := After("world", 0, [n, a, b]);
    ThreePlaced(n, a, b);
    AfterWellFormed("world", 0, [n, a, b]);
    assert t.parent[1] == 0 && t.parent[2] == 1 && t.parent[3] == 1;
    assert Nearest(t.parent, 2, 3) == Nearest(t.parent, 2, 1) == Nearest(t.parent, 1, 1) == 1;
    assert Nearest(t.parent, 1, 0) == Nearest(t.parent, 0, 0) == 0;
    assert Nearest(t.parent, 2, 0) == 0 && Nearest(t.parent, 3, 0) == 0;
    RelativeComposesIff(t, g, 2, 3, 0, time);
    assert Ancestor(t.parent, 0, 1) && Ancestor(t.parent, 1, 2) && Ancestor(t.parent, 1, 3);
    assert Down(t, g, 0, 1, time) == r;
    assert Down(t, g, 1, 2, time) == p && Down(t, g, 1, 3, time) == g.one;
    InverseOne(g);
    assert Relative(t, g, 2, 3, time) == p;
  }

  /** Rigid transforms are such an algebra, so neither law holds of the graph in general. */
  lemma LawsFail(slerp: (Rotation, Rotation, real) -> Rotation, axisAngle: (Vec3, real) -> Rotation,
                 normalised: Vec3 -> Vec3, time: int)
    returns (p: Rigid, q: Rigid)
    ensures SiblingsMisread(RigidAlgebra(slerp, axisAngle, normalised), p, q, time)
    ensures DetourDiffers(RigidAlgebra(slerp, axisAngle, normalised), p, q, time)
  {
    hide Mul, IsGroup, SiblingsMisread, DetourDiffers, One, Inv, Blend;
    var g := RigidAlgebra(slerp, axisAngle, normalised);
    RigidIsGroup(slerp, axisAngle, normalised);
    NotCommutative();
    p, q :| Mul(p, q) != Mul(q, p);
    SiblingQuery(g, p, q, time);
    DetourQuery(g, p, q, time);
  }
}
