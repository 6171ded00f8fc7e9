/**
  Vectors, quaternions and the two axis conventions of the exporter.

  Components are reals. `Mul` is Unity's quaternion product and `Inverse` the
  conjugate, which is the inverse of the unit quaternions a transform's
  rotation always holds.

  The exporter mirrors positions in X only, and emits rotations with Y and Z
  negated. `MirrorRotation` below shows the two conventions describe one and
  the same reflection of the X axis.
*/
module Geometry {

  datatype Vec3 = Vec3(x: real, y: real, z: real)

  datatype Quat = Quat(x: real, y: real, z: real, w: real)

  const Identity: Quat := Quat(0.0, 0.0, 0.0, 1.0)

  /** Unity's quaternion product `lhs * rhs` (apply `rhs`, then `lhs`). */
  function Mul(lhs: Quat, rhs: Quat): Quat {
    Quat(
      lhs.w * rhs.x + lhs.x * rhs.w + lhs.y * rhs.z - lhs.z * rhs.y,
      lhs.w * rhs.y + lhs.y * rhs.w + lhs.z * rhs.x - lhs.x * rhs.z,
      lhs.w * rhs.z + lhs.z * rhs.w + lhs.x * rhs.y - lhs.y * rhs.x,
      lhs.w * rhs.w - lhs.x * rhs.x - lhs.y * rhs.y - lhs.z * rhs.z)
  }

  /** Quaternion.Inverse, as the conjugate. */
  function Inverse(q: Quat): Quat {
    Quat(-q.x, -q.y, -q.z, q.w)
  }

  function Norm2(q: Quat): real {
    q.x * q.x + q.y * q.y + q.z * q.z + q.w * q.w
  }

  predicate IsUnit(q: Quat) {
    Norm2(q) == 1.0
  }

  /** The conjugate is a two-sided inverse of every unit quaternion. */
  lemma InverseIsInverse(q: Quat)
    requires IsUnit(q)
    ensures Mul(Inverse(q), q) == Identity
    ensures Mul(q, Inverse(q)) == Identity
  {
  }

  /** The position convention: mirror the X axis. */
  function MirrorX(v: Vec3): Vec3 {
    Vec3(-v.x, v.y, v.z)
  }

  /** The rotation convention: negate the Y and Z components, keep X and W. */
  function FlipYZ(q: Quat): Quat {
    Quat(q.x, -q.y, -q.z, q.w)
  }

  /**
    The emitted rotation sample (RotationExporter.Add): the node's rotation
    relative to its parent's, `inverse(parent) * node`, with Y and Z negated.
    The result is the relative rotation of the two world rotations after each
    has been converted, and a node posed exactly like its unit-length parent
    yields the identity.
  */
  function RotationSample(parent: Quat, node: Quat): (r: Quat)
    ensures r == Mul(Inverse(FlipYZ(parent)), FlipYZ(node))
    ensures IsUnit(parent) && node == parent ==> r == Identity
  {
    FlipPreservesProduct(Inverse(parent), node);
    SamePoseIsIdentity(parent, node);
    FlipYZ(Mul(Inverse(parent), node))
  }

  lemma SamePoseIsIdentity(parent: Quat, node: Quat)
    ensures IsUnit(parent) && node == parent ==> Mul(Inverse(parent), node) == Identity
  {
    if IsUnit(parent) && node == parent {
      InverseIsInverse(parent);
    }
  }

  /** Negating Y and Z is conjugation by the X axis, so it respects products and inverses. */
  lemma FlipPreservesProduct(a: Quat, b: Quat)
    ensures FlipYZ(Mul(a, b)) == Mul(FlipYZ(a), FlipYZ(b))
    ensures FlipYZ(Inverse(a)) == Inverse(FlipYZ(a))
  {
    FlipProductX(a, b);
    FlipProductW(a, b);
    FlipProductY(a, b);
    FlipProductZ(a, b);
  }

  lemma FlipProductX(a: Quat, b: Quat)
    ensures FlipYZ(Mul(a, b)).x == Mul(FlipYZ(a), FlipYZ(b)).x
  {
    NegProducts(a.y, b.z);
    NegProducts(a.z, b.y);
  }

  lemma FlipProductW(a: Quat, b: Quat)
    ensures FlipYZ(Mul(a, b)).w == Mul(FlipYZ(a), FlipYZ(b)).w
  {
    NegProducts(a.y, b.y);
    NegProducts(a.z, b.z);
  }

  lemma FlipProductY(a: Quat, b: Quat)
    ensures FlipYZ(Mul(a, b)).y == Mul(FlipYZ(a), FlipYZ(b)).y
  {
  }

  lemma FlipProductZ(a: Quat, b: Quat)
    ensures FlipYZ(Mul(a, b)).z == Mul(FlipYZ(a), FlipYZ(b)).z
  {
  }

  lemma NegProducts(u: real, v: real)
    ensures (-u) * (-v) == u * v
  {
  }

  /** A vector as a pure quaternion, and back. */
  function Pure(v: Vec3): Quat {
    Quat(v.x, v.y, v.z, 0.0)
  }

  function VectorPart(q: Quat): Vec3 {
    Vec3(q.x, q.y, q.z)
  }

  /** Rotation of `v` by `q`: the vector part of `q * v * inverse(q)`. */
  function Rotate(q: Quat, v: Vec3): Vec3 {
    VectorPart(Mul(Mul(q, Pure(v)), Inverse(q)))
  }

  function Neg(q: Quat): Quat {
    Quat(-q.x, -q.y, -q.z, -q.w)
  }

  lemma MulNegRight(a: Quat, b: Quat)
    ensures Mul(a, Neg(b)) == Neg(Mul(a, b))
  {
  }

  lemma MulNegLeft(a: Quat, b: Quat)
    ensures Mul(Neg(a), b) == Neg(Mul(a, b))
  {
  }

  /**
    Mirroring X after a rotation equals rotating the mirrored vector by the
    flipped quaternion: the X-only position convention and the Y/Z rotation
    convention describe the same change of handedness.
  */
  lemma MirrorRotation(q: Quat, v: Vec3)
    ensures MirrorX(Rotate(q, v)) == Rotate(FlipYZ(q), MirrorX(v))
  {
    var fq, fv := FlipYZ(q), FlipYZ(Pure(v));
    assert Pure(MirrorX(v)) == Neg(fv);
    MulNegRight(fq, fv);
    MulNegLeft(Mul(fq, fv), Inverse(fq));
    FlipPreservesProduct(q, Pure(v));
    FlipPreservesProduct(Mul(q, Pure(v)), Inverse(q));
    FlipPreservesProduct(q, q);
    calc {
      Rotate(fq, MirrorX(v));
      VectorPart(Mul(Mul(fq, Neg(fv)), Inverse(fq)));
      VectorPart(Neg(Mul(Mul(fq, fv), Inverse(fq))));
      VectorPart(Neg(FlipYZ(Mul(Mul(q, Pure(v)), Inverse(q)))));
      MirrorX(Rotate(q, v));
    }
  }
}
