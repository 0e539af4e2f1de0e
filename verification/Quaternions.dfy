/** Quaternion arithmetic over the reals, components ordered w, x, y, z. */
module Quaternions {
  datatype Vec3 = Vec3(x: real, y: real, z: real)

  datatype Quat = Quat(w: real, x: real, y: real, z: real)

  /** A position and an orientation in some frame. */
  datatype Pose = Pose(p: Vec3, q: Quat)

  function Plus(a: Vec3, b: Vec3): Vec3 {
    Vec3(a.x + b.x, a.y + b.y, a.z + b.z)
  }

  function Minus(a: Vec3, b: Vec3): Vec3 {
    Vec3(a.x - b.x, a.y - b.y, a.z - b.z)
  }

  function Mul(a: Quat, b: Quat): Quat {
    Quat(a.w * b.w - a.x * b.x - a.y * b.y - a.z * b.z,
         a.w * b.x + a.x * b.w + a.y * b.z - a.z * b.y,
         a.w * b.y - a.x * b.z + a.y * b.w + a.z * b.x,
         a.w * b.z + a.x * b.y - a.y * b.x + a.z * b.w)
  }

  function Conj(q: Quat): Quat {
    Quat(q.w, -q.x, -q.y, -q.z)
  }

  /** t = 2 (q.xyz × v). */
  function Twist(q: Quat, v: Vec3): Vec3 {
    Vec3(2.0 * (q.y * v.z - q.z * v.y), 2.0 * (q.z * v.x - q.x * v.z), 2.0 * (q.x * v.y - q.y * v.x))
  }

  /** v + w t + q.xyz × t. */
  function Turned(q: Quat, v: Vec3, t: Vec3): Vec3 {
    Vec3(v.x + q.w * t.x + (q.y * t.z - q.z * t.y),
         v.y + q.w * t.y + (q.z * t.x - q.x * t.z),
         v.z + q.w * t.z + (q.x * t.y - q.y * t.x))
  }

  /** Rotates `v` by the unit quaternion `q`. */
  function Rotate(q: Quat, v: Vec3): Vec3 {
    Turned(q, v, Twist(q, v))
  }

  function NormSquared(q: Quat): real {
    q.w * q.w + q.x * q.x + q.y * q.y + q.z * q.z
  }

  predicate Unit(q: Quat) {
    NormSquared(q) == 1.0
  }

  const ONE := Quat(1.0, 0.0, 0.0, 0.0)

  const IDENTITY := Pose(Vec3(0.0, 0.0, 0.0), ONE)

  /** A point of the frame that `a` places, as a point of the world. */
  function OutOf(a: Pose, point: Vec3): Vec3 {
    Plus(a.p, Rotate(a.q, point))
  }

  /** The pose `b`, given in the frame that `a` places, as seen from the frame of `a`. */
  function Compose(a: Pose, b: Pose): Pose {
    Pose(OutOf(a, b.p), Mul(a.q, b.q))
  }

  // ----- the product is bilinear -----

  function Sum(a: Quat, b: Quat): Quat {
    Quat(a.w + b.w, a.x + b.x, a.y + b.y, a.z + b.z)
  }

  function Times(k: real, q: Quat): Quat {
    Quat(k * q.w, k * q.x, k * q.y, k * q.z)
  }

  lemma MulOfSum(a: Quat, b: Quat, c: Quat)
    ensures Mul(Sum(a, b), c) == Sum(Mul(a, c), Mul(b, c))
  {
  }

  lemma SumOfMul(a: Quat, b: Quat, c: Quat)
    ensures Mul(a, Sum(b, c)) == Sum(Mul(a, b), Mul(a, c))
  {
  }

  // Polynomials are compared between numbers; these lemmas give a product's components as polynomials in given numbers.

  lemma PartsOfMul(a: Quat, b: Quat)
    ensures Mul(a, b).w == a.w * b.w - a.x * b.x - a.y * b.y - a.z * b.z
    ensures Mul(a, b).x == a.w * b.x + a.x * b.w + a.y * b.z - a.z * b.y
    ensures Mul(a, b).y == a.w * b.y - a.x * b.z + a.y * b.w + a.z * b.x
    ensures Mul(a, b).z == a.w * b.z + a.x * b.y - a.y * b.x + a.z * b.w
  {
  }

  lemma SameParts(p: Quat, q: Quat)
    requires p.w == q.w && p.x == q.x && p.y == q.y && p.z == q.z
    ensures p == q
  {
  }

  lemma MulOfParts(p: Quat, q: Quat, pw: real, px: real, py: real, pz: real, qw: real, qx: real, qy: real, qz: real)
    requires p.w == pw && p.x == px && p.y == py && p.z == pz
    requires q.w == qw && q.x == qx && q.y == qy && q.z == qz
    ensures Mul(p, q).w == pw * qw - px * qx - py * qy - pz * qz
    ensures Mul(p, q).x == pw * qx + px * qw + py * qz - pz * qy
    ensures Mul(p, q).y == pw * qy - px * qz + py * qw + pz * qx
    ensures Mul(p, q).z == pw * qz + px * qy - py * qx + pz * qw
  {
    PartsOfMul(Quat(pw, px, py, pz), Quat(qw, qx, qy, qz));
    SameParts(p, Quat(pw, px, py, pz));
    SameParts(q, Quat(qw, qx, qy, qz));
  }

  lemma Distribute(k: real, a: real, b: real, c: real, d: real, s: real)
    requires s == a + b + c + d
    ensures k * s == k * a + k * b + k * c + k * d
  {
  }

  /** A sum of four products, each with its first factor `k` times another's. */
  lemma ScaledSum(k: real, a: real, b: real, c: real, d: real, ka: real, kb: real, kc: real, kd: real,
                  e: real, f: real, g: real, h: real)
    requires ka == k * a && kb == k * b && kc == k * c && kd == k * d
    ensures ka * e + kb * f + kc * g + kd * h == k * (a * e + b * f + c * g + d * h)
  {
    Reassociate(k, a, ka, e);
    Reassociate(k, b, kb, f);
    Reassociate(k, c, kc, g);
    Reassociate(k, d, kd, h);
    Distribute(k, a * e, b * f, c * g, d * h, a * e + b * f + c * g + d * h);
  }

  lemma Reassociate(k: real, a: real, ka: real, e: real)
    requires ka == k * a
    ensures ka * e == k * (a * e)
  {
  }

  lemma SumParts(a: Quat, b: Quat)
    ensures Mul(a, b).w == a.w * b.w + a.x * (-b.x) + a.y * (-b.y) + a.z * (-b.z)
    ensures Mul(a, b).x == a.w * b.x + a.x * b.w + a.y * b.z + a.z * (-b.y)
    ensures Mul(a, b).y == a.w * b.y + a.x * (-b.z) + a.y * b.w + a.z * b.x
    ensures Mul(a, b).z == a.w * b.z + a.x * b.y + a.y * (-b.x) + a.z * b.w
  {
  }

  lemma MulOfTimes(k: real, a: Quat, b: Quat)
    ensures Mul(Times(k, a), b) == Times(k, Mul(a, b))
  {
    MultipleWX(k, a, b, Times(k, a));
    MultipleYZ(k, a, b, Times(k, a));
    TimesParts(k, Mul(a, b), Mul(Times(k, a), b));
  }

  lemma MultipleWX(k: real, a: Quat, b: Quat, s: Quat)
    requires s.w == k * a.w && s.x == k * a.x && s.y == k * a.y && s.z == k * a.z
    ensures Mul(s, b).w == k * Mul(a, b).w && Mul(s, b).x == k * Mul(a, b).x
  {
    SumParts(a, b);
    SumParts(s, b);
    ScaledSum(k, a.w, a.x, a.y, a.z, s.w, s.x, s.y, s.z, b.w, -b.x, -b.y, -b.z);
    ScaledSum(k, a.w, a.x, a.y, a.z, s.w, s.x, s.y, s.z, b.x, b.w, b.z, -b.y);
  }

  lemma MultipleYZ(k: real, a: Quat, b: Quat, s: Quat)
    requires s.w == k * a.w && s.x == k * a.x && s.y == k * a.y && s.z == k * a.z
    ensures Mul(s, b).y == k * Mul(a, b).y && Mul(s, b).z == k * Mul(a, b).z
  {
    SumParts(a, b);
    SumParts(s, b);
    ScaledSum(k, a.w, a.x, a.y, a.z, s.w, s.x, s.y, s.z, b.y, -b.z, b.w, b.x);
    ScaledSum(k, a.w, a.x, a.y, a.z, s.w, s.x, s.y, s.z, b.z, b.y, -b.x, b.w);
  }

  lemma TimesParts(k: real, a: Quat, s: Quat)
    requires s.w == k * a.w && s.x == k * a.x && s.y == k * a.y && s.z == k * a.z
    ensures s == Times(k, a)
  {
  }

  /** The other factor, by reversal. */
  lemma TimesOfMul(k: real, a: Quat, b: Quat)
    ensures Mul(a, Times(k, b)) == Times(k, Mul(a, b))
  {
    ConjOfMul(a, Times(k, b));
    ConjOfTimes(k, b);
    MulOfTimes(k, Conj(b), Conj(a));
    ConjOfMul(a, b);
    ConjOfTimes(k, Mul(a, b));
    ConjTwice(Mul(a, Times(k, b)));
    ConjTwice(Times(k, Mul(a, b)));
  }

  lemma ConjOfTimes(k: real, q: Quat)
    ensures Conj(Times(k, q)) == Times(k, Conj(q))
  {
  }

  lemma ConjTwice(q: Quat)
    ensures Conj(Conj(q)) == q
  {
  }

  const I := Quat(0.0, 1.0, 0.0, 0.0)
  const J := Quat(0.0, 0.0, 1.0, 0.0)
  const K := Quat(0.0, 0.0, 0.0, 1.0)

  /** A quaternion is a combination of the four units. */
  lemma Basis(q: Quat)
    ensures q == Sum(Sum(Times(q.w, ONE), Times(q.x, I)), Sum(Times(q.y, J), Times(q.z, K)))
  {
  }

  // ----- associativity: on the four units, and carried over by linearity -----

  predicate Associates(a: Quat, b: Quat, c: Quat) {
    Mul(Mul(a, b), c) == Mul(a, Mul(b, c))
  }

  lemma OneAssociates(b: Quat, c: Quat)
    ensures Associates(ONE, b, c)
  {
  }

  lemma IAssociates(b: Quat, c: Quat)
    ensures Associates(I, b, c)
  {
  }

  lemma JAssociates(b: Quat, c: Quat)
    ensures Associates(J, b, c)
  {
  }

  lemma KAssociates(b: Quat, c: Quat)
    ensures Associates(K, b, c)
  {
  }

  lemma SumAssociates(a: Quat, a': Quat, b: Quat, c: Quat)
    requires Associates(a, b, c) && Associates(a', b, c)
    ensures Associates(Sum(a, a'), b, c)
  {
    MulOfSum(a, a', b);
    MulOfSum(Mul(a, b), Mul(a', b), c);
    MulOfSum(a, a', Mul(b, c));
  }

  lemma TimesAssociates(k: real, a: Quat, b: Quat, c: Quat)
    requires Associates(a, b, c)
    ensures Associates(Times(k, a), b, c)
  {
    MulOfTimes(k, a, b);
    MulOfTimes(k, Mul(a, b), c);
    MulOfTimes(k, a, Mul(b, c));
  }

  lemma MulAssociates(a: Quat, b: Quat, c: Quat)
    ensures Mul(Mul(a, b), c) == Mul(a, Mul(b, c))
  {
    OneAssociates(b, c);
    IAssociates(b, c);
    JAssociates(b, c);
    KAssociates(b, c);
    TimesAssociates(a.w, ONE, b, c);
    TimesAssociates(a.x, I, b, c);
    TimesAssociates(a.y, J, b, c);
    TimesAssociates(a.z, K, b, c);
    SumAssociates(Times(a.w, ONE), Times(a.x, I), b, c);
    SumAssociates(Times(a.y, J), Times(a.z, K), b, c);
    SumAssociates(Sum(Times(a.w, ONE), Times(a.x, I)), Sum(Times(a.y, J), Times(a.z, K)), b, c);
    Basis(a);
    assert Associates(a, b, c);
  }

  // ----- conjugation -----

  lemma ConjOfMul(a: Quat, b: Quat)
    ensures Conj(Mul(a, b)) == Mul(Conj(b), Conj(a))
  {
    PartsOfMul(a, b);
    MulOfParts(Conj(b), Conj(a), b.w, -b.x, -b.y, -b.z, a.w, -a.x, -a.y, -a.z);
    SameParts(Conj(Mul(a, b)), Mul(Conj(b), Conj(a)));
  }

  lemma ConjInverts(q: Quat)
    ensures Mul(Conj(q), q) == Quat(NormSquared(q), 0.0, 0.0, 0.0)
    ensures Mul(q, Conj(q)) == Quat(NormSquared(q), 0.0, 0.0, 0.0)
  {
  }

  /** (ab)* (ab) is b* ((a* a) b), and a* a is a number. */
  lemma NormOfMul(a: Quat, b: Quat)
    ensures NormSquared(Mul(a, b)) == NormSquared(a) * NormSquared(b)
  {
    ConjOfMul(a, b);
    MulAssociates(Conj(b), Conj(a), Mul(a, b));
    MulAssociates(Conj(a), a, b);
    ConjInverts(a);
    NumberTimes(NormSquared(a), b);
    TimesOfMul(NormSquared(a), Conj(b), b);
    ConjInverts(b);
    ConjInverts(Mul(a, b));
  }

  lemma MulIsUnit(a: Quat, b: Quat)
    requires Unit(a) && Unit(b)
    ensures Unit(Mul(a, b))
  {
    NormOfMul(a, b);
  }

  lemma NumberTimes(k: real, q: Quat)
    ensures Mul(Quat(k, 0.0, 0.0, 0.0), q) == Times(k, q)
  {
  }

  // ----- rotation is conjugation: on the three axes, and carried over by linearity -----

  /** A vector as a quaternion without a scalar part. */
  function Pure(v: Vec3): Quat {
    Quat(0.0, v.x, v.y, v.z)
  }

  function Scale(k: real, v: Vec3): Vec3 {
    Vec3(k * v.x, k * v.y, k * v.z)
  }

  predicate Conjugates(q: Quat, v: Vec3) {
    Mul(Mul(q, Pure(v)), Conj(q)) == Pure(Rotate(q, v))
  }

  lemma XConjugates(q: Quat)
    requires Unit(q)
    ensures Conjugates(q, Vec3(1.0, 0.0, 0.0))
  {
    var axis := Vec3(1.0, 0.0, 0.0);
    MulOfParts(q, Pure(axis), q.w, q.x, q.y, q.z, 0.0, 1.0, 0.0, 0.0);
    MulOfParts(Mul(q, Pure(axis)), Conj(q), -q.x, q.w, q.z, -q.y, q.w, -q.x, -q.y, -q.z);
    TwistOfParts(q, axis, 1.0, 0.0, 0.0);
    TurnedOfParts(q, axis, Twist(q, axis), 1.0, 0.0, 0.0, 0.0, 2.0 * q.z, -2.0 * q.y);
    SameParts(Mul(Mul(q, Pure(axis)), Conj(q)), Pure(Rotate(q, axis)));
  }

  lemma YConjugates(q: Quat)
    requires Unit(q)
    ensures Conjugates(q, Vec3(0.0, 1.0, 0.0))
  {
    var axis := Vec3(0.0, 1.0, 0.0);
    MulOfParts(q, Pure(axis), q.w, q.x, q.y, q.z, 0.0, 0.0, 1.0, 0.0);
    MulOfParts(Mul(q, Pure(axis)), Conj(q), -q.y, -q.z, q.w, q.x, q.w, -q.x, -q.y, -q.z);
    TwistOfParts(q, axis, 0.0, 1.0, 0.0);
    TurnedOfParts(q, axis, Twist(q, axis), 0.0, 1.0, 0.0, -2.0 * q.z, 0.0, 2.0 * q.x);
    SameParts(Mul(Mul(q, Pure(axis)), Conj(q)), Pure(Rotate(q, axis)));
  }

  lemma ZConjugates(q: Quat)
    requires Unit(q)
    ensures Conjugates(q, Vec3(0.0, 0.0, 1.0))
  {
    var axis := Vec3(0.0, 0.0, 1.0);
    MulOfParts(q, Pure(axis), q.w, q.x, q.y, q.z, 0.0, 0.0, 0.0, 1.0);
    MulOfParts(Mul(q, Pure(axis)), Conj(q), -q.z, q.y, -q.x, q.w, q.w, -q.x, -q.y, -q.z);
    TwistOfParts(q, axis, 0.0, 0.0, 1.0);
    TurnedOfParts(q, axis, Twist(q, axis), 0.0, 0.0, 1.0, 2.0 * q.y, -2.0 * q.x, 0.0);
    SameParts(Mul(Mul(q, Pure(axis)), Conj(q)), Pure(Rotate(q, axis)));
  }

  lemma TwistSum(q: Quat, u: Vec3, v: Vec3)
    ensures Twist(q, Plus(u, v)) == Plus(Twist(q, u), Twist(q, v))
  {
  }

  lemma TurnedSum(q: Quat, u: Vec3, v: Vec3, s: Vec3, t: Vec3)
    ensures Turned(q, Plus(u, v), Plus(s, t)) == Plus(Turned(q, u, s), Turned(q, v, t))
  {
    var m, n, p, r := Turned(q, u, s), Turned(q, v, t), Plus(s, t), Turned(q, Plus(u, v), Plus(s, t));
    PartOfSum(q.w, q.y, q.z, u.x, v.x, s.x, t.x, s.z, t.z, s.y, t.y, p.x, p.z, p.y, m.x, n.x, r.x);
    PartOfSum(q.w, q.z, q.x, u.y, v.y, s.y, t.y, s.x, t.x, s.z, t.z, p.y, p.x, p.z, m.y, n.y, r.y);
    PartOfSum(q.w, q.x, q.y, u.z, v.z, s.z, t.z, s.y, t.y, s.x, t.x, p.z, p.y, p.x, m.z, n.z, r.z);
  }

  lemma PartOfSum(w: real, y: real, z: real, u: real, v: real, s1: real, t1: real, s2: real, t2: real,
                  s3: real, t3: real, p1: real, p2: real, p3: real, m: real, n: real, r: real)
    requires p1 == s1 + t1 && p2 == s2 + t2 && p3 == s3 + t3
    requires m == u + w * s1 + (y * s2 - z * s3)
    requires n == v + w * t1 + (y * t2 - z * t3)
    requires r == u + v + w * p1 + (y * p2 - z * p3)
    ensures r == m + n
  {
  }

  lemma RotateSum(q: Quat, u: Vec3, v: Vec3)
    ensures Rotate(q, Plus(u, v)) == Plus(Rotate(q, u), Rotate(q, v))
  {
    TwistSum(q, u, v);
    TurnedSum(q, u, v, Twist(q, u), Twist(q, v));
  }

  lemma TwistOfParts(q: Quat, v: Vec3, x: real, y: real, z: real)
    requires v.x == x && v.y == y && v.z == z
    ensures Twist(q, v).x == 2.0 * (q.y * z - q.z * y)
    ensures Twist(q, v).y == 2.0 * (q.z * x - q.x * z)
    ensures Twist(q, v).z == 2.0 * (q.x * y - q.y * x)
  {
    assert v == Vec3(x, y, z);
  }

  lemma ScaledDifference(k: real, a: real, b: real, e: real, f: real, m: real, n: real)
    requires m == 2.0 * (e * a - f * b) && n == 2.0 * (e * (k * a) - f * (k * b))
    ensures n == k * m
  {
    Distribute(k, 2.0 * (e * a), -2.0 * (f * b), 0.0, 0.0, m);
  }

  lemma TwistScaleX(k: real, q: Quat, v: Vec3)
    ensures Twist(q, Scale(k, v)).x == k * Twist(q, v).x
  {
    TwistOfParts(q, v, v.x, v.y, v.z);
    TwistOfParts(q, Scale(k, v), k * v.x, k * v.y, k * v.z);
    ScaledDifference(k, v.z, v.y, q.y, q.z, Twist(q, v).x, Twist(q, Scale(k, v)).x);
  }

  lemma TwistScaleY(k: real, q: Quat, v: Vec3)
    ensures Twist(q, Scale(k, v)).y == k * Twist(q, v).y
  {
    TwistOfParts(q, v, v.x, v.y, v.z);
    TwistOfParts(q, Scale(k, v), k * v.x, k * v.y, k * v.z);
    ScaledDifference(k, v.x, v.z, q.z, q.x, Twist(q, v).y, Twist(q, Scale(k, v)).y);
  }

  lemma TwistScaleZ(k: real, q: Quat, v: Vec3)
    ensures Twist(q, Scale(k, v)).z == k * Twist(q, v).z
  {
    TwistOfParts(q, v, v.x, v.y, v.z);
    TwistOfParts(q, Scale(k, v), k * v.x, k * v.y, k * v.z);
    ScaledDifference(k, v.y, v.x, q.x, q.y, Twist(q, v).z, Twist(q, Scale(k, v)).z);
  }

  lemma TwistScale(k: real, q: Quat, v: Vec3)
    ensures Twist(q, Scale(k, v)) == Scale(k, Twist(q, v))
  {
    TwistScaleX(k, q, v);
    TwistScaleY(k, q, v);
    TwistScaleZ(k, q, v);
  }

  lemma TurnedOfParts(q: Quat, v: Vec3, t: Vec3, x: real, y: real, z: real, tx: real, ty: real, tz: real)
    requires v.x == x && v.y == y && v.z == z && t.x == tx && t.y == ty && t.z == tz
    ensures Turned(q, v, t).x == x + q.w * tx + (q.y * tz - q.z * ty)
    ensures Turned(q, v, t).y == y + q.w * ty + (q.z * tx - q.x * tz)
    ensures Turned(q, v, t).z == z + q.w * tz + (q.x * ty - q.y * tx)
  {
    assert v == Vec3(x, y, z) && t == Vec3(tx, ty, tz);
  }

  lemma ScaledTurn(k: real, w: real, y: real, z: real, x: real, tx: real, ty: real, tz: real, m: real, n: real)
    requires m == x + w * tx + (y * tz - z * ty)
    requires n == k * x + w * (k * tx) + (y * (k * tz) - z * (k * ty))
    ensures n == k * m
  {
    Distribute(k, x, w * tx, y * tz, -(z * ty), m);
  }

  lemma TurnedScaleX(k: real, q: Quat, v: Vec3, t: Vec3)
    ensures Turned(q, Scale(k, v), Scale(k, t)).x == k * Turned(q, v, t).x
  {
    TurnedOfParts(q, Scale(k, v), Scale(k, t), k * v.x, k * v.y, k * v.z, k * t.x, k * t.y, k * t.z);
    ScaledTurn(k, q.w, q.y, q.z, v.x, t.x, t.y, t.z, Turned(q, v, t).x, Turned(q, Scale(k, v), Scale(k, t)).x);
  }

  lemma TurnedScaleY(k: real, q: Quat, v: Vec3, t: Vec3)
    ensures Turned(q, Scale(k, v), Scale(k, t)).y == k * Turned(q, v, t).y
  {
    TurnedOfParts(q, Scale(k, v), Scale(k, t), k * v.x, k * v.y, k * v.z, k * t.x, k * t.y, k * t.z);
    ScaledTurn(k, q.w, q.z, q.x, v.y, t.y, t.z, t.x, Turned(q, v, t).y, Turned(q, Scale(k, v), Scale(k, t)).y);
  }

  lemma TurnedScaleZ(k: real, q: Quat, v: Vec3, t: Vec3)
    ensures Turned(q, Scale(k, v), Scale(k, t)).z == k * Turned(q, v, t).z
  {
    TurnedOfParts(q, Scale(k, v), Scale(k, t), k * v.x, k * v.y, k * v.z, k * t.x, k * t.y, k * t.z);
    ScaledTurn(k, q.w, q.x, q.y, v.z, t.z, t.x, t.y, Turned(q, v, t).z, Turned(q, Scale(k, v), Scale(k, t)).z);
  }

  lemma TurnedScale(k: real, q: Quat, v: Vec3, t: Vec3)
    ensures Turned(q, Scale(k, v), Scale(k, t)) == Scale(k, Turned(q, v, t))
  {
    TurnedScaleX(k, q, v, t);
    TurnedScaleY(k, q, v, t);
    TurnedScaleZ(k, q, v, t);
  }

  lemma RotateScale(k: real, q: Quat, v: Vec3)
    ensures Rotate(q, Scale(k, v)) == Scale(k, Rotate(q, v))
  {
    TwistScale(k, q, v);
    TurnedScale(k, q, v, Twist(q, v));
  }

  lemma SumConjugates(q: Quat, u: Vec3, v: Vec3)
    requires Conjugates(q, u) && Conjugates(q, v)
    ensures Conjugates(q, Plus(u, v))
  {
    assert Pure(Plus(u, v)) == Sum(Pure(u), Pure(v));
    SumOfMul(q, Pure(u), Pure(v));
    MulOfSum(Mul(q, Pure(u)), Mul(q, Pure(v)), Conj(q));
    RotateSum(q, u, v);
    assert Pure(Plus(Rotate(q, u), Rotate(q, v))) == Sum(Pure(Rotate(q, u)), Pure(Rotate(q, v)));
  }

  lemma ScaleConjugates(k: real, q: Quat, v: Vec3)
    requires Conjugates(q, v)
    ensures Conjugates(q, Scale(k, v))
  {
    assert Pure(Scale(k, v)) == Times(k, Pure(v));
    TimesOfMul(k, q, Pure(v));
    MulOfTimes(k, Mul(q, Pure(v)), Conj(q));
    RotateScale(k, q, v);
    assert Pure(Scale(k, Rotate(q, v))) == Times(k, Pure(Rotate(q, v)));
  }

  /** Rotating by a unit quaternion is conjugating by it. */
  lemma RotateIsConjugation(q: Quat, v: Vec3)
    requires Unit(q)
    ensures Mul(Mul(q, Pure(v)), Conj(q)) == Pure(Rotate(q, v))
  {
    var (x, y, z) := (Vec3(1.0, 0.0, 0.0), Vec3(0.0, 1.0, 0.0), Vec3(0.0, 0.0, 1.0));
    XConjugates(q);
    YConjugates(q);
    ZConjugates(q);
    ScaleConjugates(v.x, q, x);
    ScaleConjugates(v.y, q, y);
    ScaleConjugates(v.z, q, z);
    SumConjugates(q, Scale(v.x, x), Scale(v.y, y));
    SumConjugates(q, Plus(Scale(v.x, x), Scale(v.y, y)), Scale(v.z, z));
    assert v == Plus(Plus(Scale(v.x, x), Scale(v.y, y)), Scale(v.z, z));
    assert Conjugates(q, v);
  }

  // ----- which way it turns -----

  /** Hamilton's product of i and j, in his order and not the reverse. */
  lemma HamiltonProduct(i: Quat, j: Quat)
    requires i == Quat(0.0, 1.0, 0.0, 0.0) && j == Quat(0.0, 0.0, 1.0, 0.0)
    ensures Mul(i, j) == Quat(0.0, 0.0, 0.0, 1.0)
  {
    PartsOfMul(i, j);
  }

  /** A turn about z is counter-clockwise: it takes x towards y, by twice the half angle. */
  lemma TurnsCounterClockwise(c: real, s: real)
    requires c * c + s * s == 1.0
    ensures var q := Quat(c, 0.0, 0.0, s);
            Unit(q) && Rotate(q, Vec3(1.0, 0.0, 0.0)) == Vec3(c * c - s * s, 2.0 * c * s, 0.0)
  {
    var q, x := Quat(c, 0.0, 0.0, s), Vec3(1.0, 0.0, 0.0);
    assert Twist(q, x) == Vec3(0.0, 2.0 * s, 0.0);
    assert Turned(q, x, Twist(q, x)) == Vec3(1.0 - s * (2.0 * s), c * (2.0 * s), 0.0);
  }

  // ----- what the laws give -----

  /** Rotating by a product of unit quaternions is rotating by one after the other. */
  lemma RotateByProduct(a: Quat, b: Quat, v: Vec3)
    requires Unit(a) && Unit(b)
    ensures Unit(Mul(a, b)) && Rotate(Mul(a, b), v) == Rotate(a, Rotate(b, v))
  {
    MulIsUnit(a, b);
    RotateIsConjugation(Mul(a, b), v);
    RotateIsConjugation(b, v);
    RotateIsConjugation(a, Rotate(b, v));
    Regroup(a, b, Pure(v));
  }

  /** (ab) v (ab)* is a (b v b*) a*. */
  lemma Regroup(a: Quat, b: Quat, v: Quat)
    ensures Mul(Mul(Mul(a, b), v), Conj(Mul(a, b))) == Mul(Mul(a, Mul(Mul(b, v), Conj(b))), Conj(a))
  {
    ConjOfMul(a, b);
    MulAssociates(a, b, v);
    MulAssociates(Mul(a, Mul(b, v)), Conj(b), Conj(a));
    MulAssociates(a, Mul(b, v), Conj(b));
  }

  lemma ConjIsUnit(q: Quat)
    requires Unit(q)
    ensures Unit(Conj(q))
  {
  }

  /** Rotating back undoes rotating, either way round. */
  lemma RotateBack(q: Quat, v: Vec3)
    requires Unit(q)
    ensures Rotate(Conj(q), Rotate(q, v)) == v
    ensures Rotate(q, Rotate(Conj(q), v)) == v
  {
    ConjIsUnit(q);
    ConjInverts(q);
    RotateByProduct(Conj(q), q, v);
    RotateByProduct(q, Conj(q), v);
    RotateByOne(v);
  }

  function LengthSquared(v: Vec3): real {
    v.x * v.x + v.y * v.y + v.z * v.z
  }

  lemma RotateKeepsLength(q: Quat, v: Vec3)
    requires Unit(q)
    ensures LengthSquared(Rotate(q, v)) == LengthSquared(v)
  {
    RotateIsConjugation(q, v);
    NormOfMul(q, Pure(v));
    ConjIsUnit(q);
    NormOfMul(Mul(q, Pure(v)), Conj(q));
    NormOfPure(v);
    NormOfPure(Rotate(q, v));
  }

  lemma NormOfPure(v: Vec3)
    ensures NormSquared(Pure(v)) == LengthSquared(v)
  {
  }

  lemma RotateByOne(v: Vec3)
    ensures Rotate(IDENTITY.q, v) == v
  {
  }

  /** Composition of unit poses is associative, so a chain's product does not depend on bracketing. */
  lemma ComposeAssociates(a: Pose, b: Pose, c: Pose)
    requires Unit(a.q) && Unit(b.q)
    ensures Compose(Compose(a, b), c) == Compose(a, Compose(b, c))
    ensures Unit(Compose(a, b).q)
  {
    MulAssociates(a.q, b.q, c.q);
    RotateByProduct(a.q, b.q, c.p);
    RotateSum(a.q, b.p, Rotate(b.q, c.p));
    PlusAssociates(a.p, Rotate(a.q, b.p), Rotate(a.q, Rotate(b.q, c.p)));
  }

  lemma PlusAssociates(a: Vec3, b: Vec3, c: Vec3)
    ensures Plus(Plus(a, b), c) == Plus(a, Plus(b, c))
  {
  }

  lemma IdentityComposes(a: Pose)
    ensures Compose(IDENTITY, a) == a && Compose(a, IDENTITY) == a
  {
    RotateByOne(a.p);
  }

  // ----- points in and out of a placed frame -----

  /** A point of the world, in the coordinates of the frame that `b` places. */
  function Into(b: Pose, world: Vec3): Vec3 {
    Rotate(Conj(b.q), Minus(world, b.p))
  }

  lemma OutOfComposed(a: Pose, b: Pose, point: Vec3)
    requires Unit(a.q) && Unit(b.q)
    ensures OutOf(Compose(a, b), point) == OutOf(a, OutOf(b, point))
  {
    RotateByProduct(a.q, b.q, point);
    RotateSum(a.q, b.p, Rotate(b.q, point));
    PlusAssociates(a.p, Rotate(a.q, b.p), Rotate(a.q, Rotate(b.q, point)));
  }

  lemma IntoUndoesOutOf(a: Pose, point: Vec3)
    requires Unit(a.q)
    ensures Into(a, OutOf(a, point)) == point
  {
    MinusUndoesPlus(a.p, Rotate(a.q, point));
    RotateBack(a.q, point);
  }

  lemma OutOfUndoesInto(a: Pose, world: Vec3)
    requires Unit(a.q)
    ensures OutOf(a, Into(a, world)) == world
  {
    RotateBack(a.q, Minus(world, a.p));
    PlusUndoesMinus(a.p, world);
  }

  lemma MinusUndoesPlus(p: Vec3, v: Vec3)
    ensures Minus(Plus(p, v), p) == v
  {
  }

  lemma PlusUndoesMinus(p: Vec3, v: Vec3)
    ensures Plus(p, Minus(v, p)) == v
  {
  }

  lemma RotateMinus(q: Quat, u: Vec3, v: Vec3)
    ensures Rotate(q, Minus(u, v)) == Minus(Rotate(q, u), Rotate(q, v))
  {
    RotateSum(q, Minus(u, v), v);
    PlusUndoesMinus(v, u);
    PlusCommutes(Minus(u, v), v);
    MinusUndoesPlus(Rotate(q, v), Rotate(q, Minus(u, v)));
    PlusCommutes(Rotate(q, Minus(u, v)), Rotate(q, v));
  }

  lemma PlusCommutes(u: Vec3, v: Vec3)
    ensures Plus(u, v) == Plus(v, u)
  {
  }
}
