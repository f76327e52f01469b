/**
 The algebra of rigid transforms, as the rest of the project uses it: a group, an interpolation
 between two transforms, and the two motions a joint can make. Every theorem about frames holds for
 any such algebra; RigidTransforms gives the concrete, non-commutative one.
 */
module TransformAlgebra {

  datatype Vec3 = Vec3(x: real, y: real, z: real)

  /**
   mul and inv are Eigen's product and inverse of affine transforms, blend is interpolate, turn is a
   rotation by an angle about an axis, and slide a translation by a distance along an axis.
   */
  datatype Algebra<!T> = Algebra(
    one: T,
    mul: (T, T) -> T,
    inv: T -> T,
    blend: (T, T, real) -> T,
    turn: (Vec3, real) -> T,
    slide: (Vec3, real) -> T)

  // Names a triple of transforms, so that associativity is used only where it is asked for.
  ghost predicate Triple<T>(a: T, b: T, c: T) {
    true
  }

  ghost predicate IsGroup<T(!new)>(g: Algebra<T>) {
    && (forall a, b, c {:trigger Triple(a, b, c)} :: Triple(a, b, c) ==> g.mul(g.mul(a, b), c) == g.mul(a, g.mul(b, c)))
    && (forall a {:trigger g.mul(a, g.one)} {:trigger g.mul(g.one, a)} :: g.mul(a, g.one) == a && g.mul(g.one, a) == a)
    && (forall a {:trigger g.inv(a)} :: g.mul(a, g.inv(a)) == g.one && g.mul(g.inv(a), a) == g.one)
  }

  lemma Associative<T(!new)>(g: Algebra<T>, a: T, b: T, c: T)
    requires IsGroup(g)
    ensures g.mul(g.mul(a, b), c) == g.mul(a, g.mul(b, c))
  {
    assert Triple(a, b, c);
  }

  /** Only the inverse of a undoes a. */
  lemma InverseUnique<T(!new)>(g: Algebra<T>, a: T, b: T)
    requires IsGroup(g) && g.mul(a, b) == g.one
    ensures b == g.inv(a)
  {
    Associative(g, g.inv(a), a, b);
  }

  lemma InverseInverse<T(!new)>(g: Algebra<T>, a: T)
    requires IsGroup(g)
    ensures g.inv(g.inv(a)) == a
  {
    InverseUnique(g, g.inv(a), a);
  }

  lemma InverseOne<T(!new)>(g: Algebra<T>)
    requires IsGroup(g)
    ensures g.inv(g.one) == g.one
  {
    InverseUnique(g, g.one, g.one);
  }

  /** The inverse of a product is the product of the inverses, in the other order. */
  lemma InverseProduct<T(!new)>(g: Algebra<T>, a: T, b: T)
    requires IsGroup(g)
    ensures g.inv(g.mul(a, b)) == g.mul(g.inv(b), g.inv(a))
  {
    Cancel(g, a, b, g.inv(a));
    InverseUnique(g, g.mul(a, b), g.mul(g.inv(b), g.inv(a)));
  }

  /** What two products share in the middle falls out. */
  lemma Cancel<T(!new)>(g: Algebra<T>, a: T, b: T, c: T)
    requires IsGroup(g)
    ensures g.mul(g.mul(a, b), g.mul(g.inv(b), c)) == g.mul(a, c)
    ensures g.mul(g.mul(a, g.inv(b)), g.mul(b, c)) == g.mul(a, c)
  {
    Associative(g, a, b, g.mul(g.inv(b), c));
    Associative(g, b, g.inv(b), c);
    Associative(g, a, g.inv(b), g.mul(b, c));
    Associative(g, g.inv(b), b, c);
  }

  lemma RightCancel<T(!new)>(g: Algebra<T>, a: T, b: T, c: T)
    requires IsGroup(g)
    ensures g.mul(a, c) == g.mul(b, c) <==> a == b
  {
    Associative(g, a, c, g.inv(c));
    Associative(g, b, c, g.inv(c));
  }

  lemma LeftCancel<T(!new)>(g: Algebra<T>, a: T, b: T, c: T)
    requires IsGroup(g)
    ensures g.mul(c, a) == g.mul(c, b) <==> a == b
  {
    Associative(g, g.inv(c), c, a);
    Associative(g, g.inv(c), c, b);
  }

  /** x commutes with the inverse of y exactly when it commutes with y. */
  lemma CommuteIff<T(!new)>(g: Algebra<T>, x: T, y: T)
    requires IsGroup(g)
    ensures g.mul(x, g.inv(y)) == g.mul(g.inv(y), x) <==> g.mul(x, y) == g.mul(y, x)
  {
    var u := g.inv(y);
    LeftCancel(g, g.mul(x, u), g.mul(u, x), y);
    RightCancel(g, g.mul(y, g.mul(x, u)), g.mul(y, g.mul(u, x)), y);
    Associative(g, y, u, x);
    Associative(g, y, g.mul(x, u), y);
    Associative(g, x, u, y);
  }

  // ---------- Products of quotients a · b⁻¹, when a way w is put in front of some of the factors

  lemma ComposeFirst<T(!new)>(g: Algebra<T>, w: T, a: T, b: T, c: T)
    requires IsGroup(g)
    ensures var x := g.mul(a, g.inv(b));
            g.mul(g.mul(w, a), g.inv(c)) == g.mul(x, g.mul(g.mul(w, b), g.inv(c))) <==> g.mul(w, x) == g.mul(x, w)
  {
    var x, u := g.mul(a, g.inv(b)), g.inv(c);
    Associative(g, x, g.mul(w, b), u);
    RightCancel(g, g.mul(w, a), g.mul(x, g.mul(w, b)), u);
    Associative(g, a, g.inv(b), b);
    Associative(g, w, x, b);
    Associative(g, x, w, b);
    RightCancel(g, g.mul(w, x), g.mul(x, w), b);
  }

  lemma ComposeLast<T(!new)>(g: Algebra<T>, w: T, a: T, b: T, c: T)
    requires IsGroup(g)
    ensures var x := g.mul(b, g.inv(c));
            g.mul(a, g.inv(g.mul(w, c))) == g.mul(g.mul(a, g.inv(g.mul(w, b))), x) <==> g.mul(w, x) == g.mul(x, w)
  {
    var x, u := g.mul(b, g.inv(c)), g.inv(w);
    InverseProduct(g, w, b);
    InverseProduct(g, w, c);
    Associative(g, a, g.mul(g.inv(b), u), x);
    LeftCancel(g, g.mul(g.inv(c), u), g.mul(g.mul(g.inv(b), u), x), a);
    LeftCancel(g, g.mul(g.inv(c), u), g.mul(g.mul(g.inv(b), u), x), b);
    Associative(g, b, g.inv(c), u);
    Associative(g, g.inv(b), u, x);
    Associative(g, b, g.inv(b), g.mul(u, x));
    CommuteIff(g, x, w);
  }

  lemma ComposeEnds<T(!new)>(g: Algebra<T>, w: T, a: T, b: T, c: T)
    requires IsGroup(g)
    ensures var x := g.mul(a, g.inv(c));
            x == g.mul(g.mul(g.mul(w, a), g.inv(b)), g.mul(b, g.inv(g.mul(w, c)))) <==> g.mul(w, x) == g.mul(x, w)
  {
    var x, u := g.mul(a, g.inv(c)), g.inv(w);
    Cancel(g, g.mul(w, a), b, g.inv(g.mul(w, c)));
    InverseProduct(g, w, c);
    Associative(g, w, a, g.mul(g.inv(c), u));
    Associative(g, a, g.inv(c), u);
    Associative(g, w, x, u);
    RightCancel(g, x, g.mul(g.mul(w, x), u), w);
    Associative(g, g.mul(w, x), u, w);
  }
}
