/**
 * Homogeneous transforms (glm::mat4) kept abstract: a transform is the word of
 * translation and rotation factors that built it, and composing two transforms
 * (matrix product, as glm::translate/glm::rotate and glMultMatrixf do) is
 * concatenation of words, which is associative with the empty word as identity.
 * Angles are degrees; no trigonometry is modelled, so the only point whose image
 * under a rotation is known is the origin.
 */
module Transforms {
  import opened Vectors
  import opened Wrappers

  /** One factor of a transform. */
  datatype Op = Translation(offset: Vec3) | Rotation(degrees: real, axis: Vec3)

  /** A product of factors, leftmost outermost: [A, B] is the matrix A * B. */
  type Transform = seq<Op>

  /** The identity matrix. */
  const Identity: Transform := []

  const XAxis: Vec3 := Vec3(1.0, 0.0, 0.0)
  const YAxis: Vec3 := Vec3(0.0, 1.0, 0.0)
  const ZAxis: Vec3 := Vec3(0.0, 0.0, 1.0)

  /** Matrix product a * b. */
  function Compose(a: Transform, b: Transform): Transform {
    a + b
  }

  /** The image of a point under one factor; None when it would depend on a rotation's trigonometry. */
  function ApplyOp(op: Op, v: Vec3): Option<Vec3> {
    match op
    case Translation(offset) => Some(Add(v, offset))
    case Rotation(_, _) => if v == Zero then Some(Zero) else None
  }

  /** The image of a point under a transform: the rightmost factor acts first. */
  function Apply(m: Transform, v: Option<Vec3>): Option<Vec3>
    decreases |m|
  {
    if |m| == 0 || v.None? then v
    else Apply(m[..|m| - 1], ApplyOp(m[|m| - 1], v.value))
  }

  /** The translation column of a matrix: the image of the origin. */
  function TranslationColumn(m: Transform): Option<Vec3> {
    Apply(m, Some(Zero))
  }

  /** glm::translate(I, v): moves every point by v. */
  function Translate(v: Vec3): (m: Transform)
    ensures forall p :: Apply(m, Some(p)) == Some(Add(p, v))
  {
    [Translation(v)]
  }

  /** glm::rotate(I, radians(degrees), axis): a linear map, so it fixes the origin. */
  function Rotate(degrees: real, axis: Vec3): (m: Transform)
    ensures Apply(m, Some(Zero)) == Some(Zero)
  {
    [Rotation(degrees, axis)]
  }

  /** A word made only of rotations. */
  predicate RotationsOnly(m: Transform) {
    forall i :: 0 <= i < |m| ==> m[i].Rotation?
  }

  lemma ApplyNone(m: Transform)
    ensures Apply(m, None) == None
  {
  }

  /** Composition is the matrix product: applying a * b is applying b, then a. */
  lemma {:induction false} ApplyCompose(a: Transform, b: Transform, v: Option<Vec3>)
    ensures Apply(Compose(a, b), v) == Apply(a, Apply(b, v))
    decreases |b|
  {
    if |b| == 0 {
      assert Compose(a, b) == a;
    } else if v.None? {
      ApplyNone(a);
    } else {
      var ab := Compose(a, b);
      var b' := b[..|b| - 1];
      assert ab[..|ab| - 1] == Compose(a, b');
      assert ab[|ab| - 1] == b[|b| - 1];
      ApplyCompose(a, b', ApplyOp(b[|b| - 1], v.value));
    }
  }

  /** Composition is associative and the identity is neutral, as for matrices. */
  lemma ComposeMonoid(a: Transform, b: Transform, c: Transform)
    ensures Compose(Compose(a, b), c) == Compose(a, Compose(b, c))
    ensures Compose(Identity, a) == a && Compose(a, Identity) == a
  {
    assert (a + b) + c == a + (b + c);
    assert [] + a == a;
    assert a + [] == a;
  }

  /** A word of rotations fixes the origin. */
  lemma {:induction false} RotationsFixOrigin(m: Transform)
    requires RotationsOnly(m)
    ensures TranslationColumn(m) == Some(Zero)
    decreases |m|
  {
    if |m| > 0 {
      RotationsFixOrigin(m[..|m| - 1]);
    }
  }

  /** Translating by p after any rotations leaves p as the translation column. */
  lemma TranslationColumnOfTranslateThenRotate(p: Vec3, r: Transform)
    requires RotationsOnly(r)
    ensures TranslationColumn(Compose(Translate(p), r)) == Some(p)
  {
    ApplyCompose(Translate(p), r, Some(Zero));
    RotationsFixOrigin(r);
    assert Add(Zero, p) == p;
  }
}
