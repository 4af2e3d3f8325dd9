/** Rotation of points by quaternions, over the reals. */
module Unity {

  datatype Vector3 = Vector3(x: real, y: real, z: real)
  datatype Quaternion = Quaternion(x: real, y: real, z: real, w: real)

  function Vector3Multiply(a: Vector3, b: real): Vector3 {
    Vector3(a.x * b, a.y * b, a.z * b)
  }

  function Vector3Addition(a: Vector3, b: Vector3): Vector3 {
    Vector3(a.x + b.x, a.y + b.y, a.z + b.z)
  }

  function QuaternionMultiply(rotation: Quaternion, point: Vector3): Vector3 {
    var x, y, z := rotation.x * 2.0, rotation.y * 2.0, rotation.z * 2.0;
    var xx, yy, zz := rotation.x * x, rotation.y * y, rotation.z * z;
    var xy, xz, yz := rotation.x * y, rotation.x * z, rotation.y * z;
    var wx, wy, wz := rotation.w * x, rotation.w * y, rotation.w * z;
    Vector3((1.0 - (yy + zz)) * point.x + (xy - wz) * point.y + (xz + wy) * point.z,
            (xy + wz) * point.x + (1.0 - (xx + zz)) * point.y + (yz - wx) * point.z,
            (xz - wy) * point.x + (yz + wx) * point.y + (1.0 - (xx + yy)) * point.z)
  }

  // ------------------------------------------------------------ vectors and norms

  function Dot(a: Vector3, b: Vector3): real {
    a.x * b.x + a.y * b.y + a.z * b.z
  }

  function Cross(a: Vector3, b: Vector3): Vector3 {
    Vector3(a.y * b.z - a.z * b.y, a.z * b.x - a.x * b.z, a.x * b.y - a.y * b.x)
  }

  function VectorPart(q: Quaternion): Vector3 {
    Vector3(q.x, q.y, q.z)
  }

  /** The squared norm. */
  function Norm2(q: Quaternion): real {
    q.x * q.x + q.y * q.y + q.z * q.z + q.w * q.w
  }

  // ---------------------------------------------------------- the Hamilton product

  function Pure(p: Vector3): Quaternion {
    Quaternion(p.x, p.y, p.z, 0.0)
  }

  function Conjugate(q: Quaternion): Quaternion {
    Quaternion(-q.x, -q.y, -q.z, q.w)
  }

  function Hamilton(a: Quaternion, b: Quaternion): Quaternion {
    Quaternion(a.w * b.x + a.x * b.w + a.y * b.z - a.z * b.y,
               a.w * b.y - a.x * b.z + a.y * b.w + a.z * b.x,
               a.w * b.z + a.x * b.y - a.y * b.x + a.z * b.w,
               a.w * b.w - a.x * b.x - a.y * b.y - a.z * b.z)
  }

  // The components of a triple product: t is a b, and u is b c.

  lemma AssociativeX(a0: real, a1: real, a2: real, a3: real, b0: real, b1: real, b2: real, b3: real,
              c0: real, c1: real, c2: real, c3: real, t0: real, t1: real, t2: real, t3: real,
              u0: real, u1: real, u2: real, u3: real)
    requires t0 == a3 * b0 + a0 * b3 + a1 * b2 - a2 * b1
    requires t1 == a3 * b1 - a0 * b2 + a1 * b3 + a2 * b0
    requires t2 == a3 * b2 + a0 * b1 - a1 * b0 + a2 * b3
    requires t3 == a3 * b3 - a0 * b0 - a1 * b1 - a2 * b2
    requires u0 == b3 * c0 + b0 * c3 + b1 * c2 - b2 * c1
    requires u1 == b3 * c1 - b0 * c2 + b1 * c3 + b2 * c0
    requires u2 == b3 * c2 + b0 * c1 - b1 * c0 + b2 * c3
    requires u3 == b3 * c3 - b0 * c0 - b1 * c1 - b2 * c2
    ensures t3 * c0 + t0 * c3 + t1 * c2 - t2 * c1 == a3 * u0 + a0 * u3 + a1 * u2 - a2 * u1
  {}

  lemma AssociativeW(a0: real, a1: real, a2: real, a3: real, b0: real, b1: real, b2: real, b3: real,
              c0: real, c1: real, c2: real, c3: real, t0: real, t1: real, t2: real, t3: real,
              u0: real, u1: real, u2: real, u3: real)
    requires t0 == a3 * b0 + a0 * b3 + a1 * b2 - a2 * b1
    requires t1 == a3 * b1 - a0 * b2 + a1 * b3 + a2 * b0
    requires t2 == a3 * b2 + a0 * b1 - a1 * b0 + a2 * b3
    requires t3 == a3 * b3 - a0 * b0 - a1 * b1 - a2 * b2
    requires u0 == b3 * c0 + b0 * c3 + b1 * c2 - b2 * c1
    requires u1 == b3 * c1 - b0 * c2 + b1 * c3 + b2 * c0
    requires u2 == b3 * c2 + b0 * c1 - b1 * c0 + b2 * c3
    requires u3 == b3 * c3 - b0 * c0 - b1 * c1 - b2 * c2
    ensures t3 * c3 - t0 * c0 - t1 * c1 - t2 * c2 == a3 * u3 - a0 * u0 - a1 * u1 - a2 * u2
  {}

  lemma Components(a: Quaternion, b: Quaternion)
    ensures var t := Hamilton(a, b);
            && t.x == a.w * b.x + a.x * b.w + a.y * b.z - a.z * b.y
            && t.y == a.w * b.y - a.x * b.z + a.y * b.w + a.z * b.x
            && t.z == a.w * b.z + a.x * b.y - a.y * b.x + a.z * b.w
            && t.w == a.w * b.w - a.x * b.x - a.y * b.y - a.z * b.z
  {}

  lemma ComponentX(a: Quaternion, b: Quaternion)
    ensures Hamilton(a, b).x == a.w * b.x + a.x * b.w + a.y * b.z - a.z * b.y
  {}

  lemma ComponentW(a: Quaternion, b: Quaternion)
    ensures Hamilton(a, b).w == a.w * b.w - a.x * b.x - a.y * b.y - a.z * b.z
  {}

  lemma AssociativeAtX(a: Quaternion, b: Quaternion, c: Quaternion)
    ensures Hamilton(Hamilton(a, b), c).x == Hamilton(a, Hamilton(b, c)).x
  {
    hide Hamilton;
    var t, u := Hamilton(a, b), Hamilton(b, c);
    Components(a, b);
    Components(b, c);
    ComponentX(t, c);
    ComponentX(a, u);
    AssociativeX(a.x, a.y, a.z, a.w, b.x, b.y, b.z, b.w, c.x, c.y, c.z, c.w, t.x, t.y, t.z, t.w, u.x, u.y, u.z, u.w);
  }

  lemma AssociativeAtW(a: Quaternion, b: Quaternion, c: Quaternion)
    ensures Hamilton(Hamilton(a, b), c).w == Hamilton(a, Hamilton(b, c)).w
  {
    hide Hamilton;
    var t, u := Hamilton(a, b), Hamilton(b, c);
    Components(a, b);
    Components(b, c);
    ComponentW(t, c);
    ComponentW(a, u);
    AssociativeW(a.x, a.y, a.z, a.w, b.x, b.y, b.z, b.w, c.x, c.y, c.z, c.w, t.x, t.y, t.z, t.w, u.x, u.y, u.z, u.w);
  }

  /** The axes in turn. */
  function Turn(q: Quaternion): Quaternion {
    Quaternion(q.y, q.z, q.x, q.w)
  }

  lemma TurnOfProduct(a: Quaternion, b: Quaternion)
    ensures Hamilton(Turn(a), Turn(b)) == Turn(Hamilton(a, b))
  {
    hide Hamilton;
    Components(a, b);
    Components(Turn(a), Turn(b));
  }

  lemma TurnOfTriple(a: Quaternion, b: Quaternion, c: Quaternion)
    ensures Hamilton(Hamilton(Turn(a), Turn(b)), Turn(c)) == Turn(Hamilton(Hamilton(a, b), c))
    ensures Hamilton(Turn(a), Hamilton(Turn(b), Turn(c))) == Turn(Hamilton(a, Hamilton(b, c)))
  {
    hide Hamilton, Turn;
    TurnOfProduct(a, b);
    TurnOfProduct(b, c);
    TurnOfProduct(Hamilton(a, b), c);
    TurnOfProduct(a, Hamilton(b, c));
  }

  lemma HamiltonAssociative(a: Quaternion, b: Quaternion, c: Quaternion)
    ensures Hamilton(Hamilton(a, b), c) == Hamilton(a, Hamilton(b, c))
  {
    hide Hamilton;
    AssociativeAtX(a, b, c);
    AssociativeAtW(a, b, c);
    TurnOfTriple(a, b, c);
    AssociativeAtX(Turn(a), Turn(b), Turn(c));
    TurnOfTriple(Turn(a), Turn(b), Turn(c));
    AssociativeAtX(Turn(Turn(a)), Turn(Turn(b)), Turn(Turn(c)));
  }

  lemma ConjugateOfProduct(a: Quaternion, b: Quaternion)
    ensures Conjugate(Hamilton(a, b)) == Hamilton(Conjugate(b), Conjugate(a))
  {
    hide Hamilton;
    Components(a, b);
    Components(Conjugate(b), Conjugate(a));
  }

  lemma TimesOwnConjugate(q: Quaternion)
    ensures Hamilton(Conjugate(q), q) == Quaternion(0.0, 0.0, 0.0, Norm2(q))
    ensures Norm2(Conjugate(q)) == Norm2(q)
  {}

  lemma ScalarTimes(n: real, b: Quaternion)
    ensures Hamilton(Quaternion(0.0, 0.0, 0.0, n), b) == Quaternion(n * b.x, n * b.y, n * b.z, n * b.w)
  {}

  lemma ScaledNorm(n: real, b: Quaternion)
    ensures Hamilton(Conjugate(b), Quaternion(n * b.x, n * b.y, n * b.z, n * b.w)).w == n * Norm2(b)
  {}

  lemma NormOfProduct(a: Quaternion, b: Quaternion)
    ensures Norm2(Hamilton(a, b)) == Norm2(a) * Norm2(b)
  {
    hide Hamilton, Conjugate, Norm2;
    var a', b' := Conjugate(a), Conjugate(b);
    ConjugateOfProduct(a, b);
    TimesOwnConjugate(Hamilton(a, b));
    HamiltonAssociative(b', a', Hamilton(a, b));
    HamiltonAssociative(a', a, b);
    TimesOwnConjugate(a);
    ScalarTimes(Norm2(a), b);
    ScaledNorm(Norm2(a), b);
  }

  // -------------------------------------------------------------------- rotation

  function Sandwich(q: Quaternion, p: Vector3): Quaternion {
    Hamilton(Hamilton(q, Pure(p)), Conjugate(q))
  }

  /** The rows of the rotation matrix. */
  function Row1(q: Quaternion): Vector3 {
    Vector3(1.0 - (q.y * (q.y * 2.0) + q.z * (q.z * 2.0)), q.x * (q.y * 2.0) - q.w * (q.z * 2.0),
            q.x * (q.z * 2.0) + q.w * (q.y * 2.0))
  }

  function Row2(q: Quaternion): Vector3 {
    Vector3(q.x * (q.y * 2.0) + q.w * (q.z * 2.0), 1.0 - (q.x * (q.x * 2.0) + q.z * (q.z * 2.0)),
            q.y * (q.z * 2.0) - q.w * (q.x * 2.0))
  }

  function Row3(q: Quaternion): Vector3 {
    Vector3(q.x * (q.z * 2.0) - q.w * (q.y * 2.0), q.y * (q.z * 2.0) + q.w * (q.x * 2.0),
            1.0 - (q.x * (q.x * 2.0) + q.y * (q.y * 2.0)))
  }

  lemma Rows(q: Quaternion, p: Vector3)
    ensures QuaternionMultiply(q, p) == Vector3(Dot(Row1(q), p), Dot(Row2(q), p), Dot(Row3(q), p))
  {}

  // t is q p; then t q* and the entries of the code differ by the norm.

  lemma SandwichX(x: real, y: real, z: real, w: real, px: real, py: real, pz: real,
                  t0: real, t1: real, t2: real, t3: real, r: Vector3, n: real)
    requires r.x == 1.0 - (y * (y * 2.0) + z * (z * 2.0)) && r.y == x * (y * 2.0) - w * (z * 2.0)
    requires r.z == x * (z * 2.0) + w * (y * 2.0) && n == x * x + y * y + z * z + w * w
    requires t0 == w * px + y * pz - z * py && t1 == w * py - x * pz + z * px
    requires t2 == w * pz + x * py - y * px && t3 == - x * px - y * py - z * pz
    ensures - t3 * x + t0 * w - t1 * z + t2 * y == r.x * px + r.y * py + r.z * pz - px * (1.0 - n)
  {}

  lemma TimesPure(q: Quaternion, p: Vector3)
    ensures var t := Hamilton(q, Pure(p));
            && t.x == q.w * p.x + q.y * p.z - q.z * p.y && t.y == q.w * p.y - q.x * p.z + q.z * p.x
            && t.z == q.w * p.z + q.x * p.y - q.y * p.x && t.w == - q.x * p.x - q.y * p.y - q.z * p.z
  {}

  lemma TimesConjugate(t: Quaternion, q: Quaternion)
    ensures Hamilton(t, Conjugate(q)).x == - t.w * q.x + t.x * q.w - t.y * q.z + t.z * q.y
  {}

  lemma SandwichAtX(q: Quaternion, p: Vector3)
    ensures Sandwich(q, p).x == QuaternionMultiply(q, p).x - p.x * (1.0 - Norm2(q))
  {
    hide Hamilton, QuaternionMultiply, Pure, Conjugate;
    var t := Hamilton(q, Pure(p));
    TimesPure(q, p);
    TimesConjugate(t, q);
    Rows(q, p);
    SandwichX(q.x, q.y, q.z, q.w, p.x, p.y, p.z, t.x, t.y, t.z, t.w, Row1(q), Norm2(q));
  }

  lemma SandwichAtW(q: Quaternion, p: Vector3)
    ensures Sandwich(q, p).w == 0.0
  {}

  function TurnPoint(p: Vector3): Vector3 {
    Vector3(p.y, p.z, p.x)
  }

  lemma Swap(x: real, y: real)
    ensures x * (y * 2.0) == y * (x * 2.0)
  {}

  lemma TurnOfRow1(q: Quaternion)
    ensures Row1(Turn(q)) == TurnPoint(Row2(q))
  {
    Swap(q.x, q.y);
  }

  lemma TurnOfRow2(q: Quaternion)
    ensures Row2(Turn(q)) == TurnPoint(Row3(q))
  {
    Swap(q.x, q.z);
  }

  lemma TurnOfRow3(q: Quaternion)
    ensures Row3(Turn(q)) == TurnPoint(Row1(q))
  {
    Swap(q.x, q.y);
    Swap(q.x, q.z);
  }

  lemma TurnOfRows(q: Quaternion)
    ensures Row1(Turn(q)) == TurnPoint(Row2(q)) && Row2(Turn(q)) == TurnPoint(Row3(q))
    ensures Row3(Turn(q)) == TurnPoint(Row1(q))
  {
    hide Row1, Row2, Row3, Turn, TurnPoint;
    TurnOfRow1(q);
    TurnOfRow2(q);
    TurnOfRow3(q);
  }

  lemma TurnOfDot(a: Vector3, b: Vector3)
    ensures Dot(TurnPoint(a), TurnPoint(b)) == Dot(a, b)
  {}

  lemma TurnOfRotation(q: Quaternion, p: Vector3)
    ensures QuaternionMultiply(Turn(q), TurnPoint(p)) == TurnPoint(QuaternionMultiply(q, p))
  {
    hide QuaternionMultiply, Dot, Row1, Row2, Row3, Turn;
    Rows(q, p);
    Rows(Turn(q), TurnPoint(p));
    TurnOfRows(q);
    TurnOfDot(Row1(q), p);
    TurnOfDot(Row2(q), p);
    TurnOfDot(Row3(q), p);
  }

  lemma TurnOfSandwich(q: Quaternion, p: Vector3)
    ensures Sandwich(Turn(q), TurnPoint(p)) == Turn(Sandwich(q, p))
    ensures Norm2(Turn(q)) == Norm2(q)
  {
    hide Hamilton;
    TurnOfProduct(q, Pure(p));
    TurnOfProduct(Hamilton(q, Pure(p)), Conjugate(q));
  }

  /** The code is the sandwich q p q*, plus what the quaternion lacks of unit length times the point. */
  lemma RotationIsSandwich(q: Quaternion, p: Vector3)
    ensures Sandwich(q, p).w == 0.0
    ensures QuaternionMultiply(q, p) == Vector3Addition(VectorPart(Sandwich(q, p)), Vector3Multiply(p, 1.0 - Norm2(q)))
  {
    hide Sandwich, QuaternionMultiply, Norm2;
    SandwichAtW(q, p);
    SandwichAtX(q, p);
    TurnOfSandwich(q, p);
    TurnOfRotation(q, p);
    SandwichAtX(Turn(q), TurnPoint(p));
    TurnOfSandwich(Turn(q), TurnPoint(p));
    TurnOfRotation(Turn(q), TurnPoint(p));
    SandwichAtX(Turn(Turn(q)), TurnPoint(TurnPoint(p)));
  }

  lemma UnitSandwich(q: Quaternion, p: Vector3)
    requires Norm2(q) == 1.0
    ensures Sandwich(q, p) == Pure(QuaternionMultiply(q, p))
  {
    hide Sandwich, QuaternionMultiply, Norm2;
    RotationIsSandwich(q, p);
    assert 1.0 - Norm2(q) == 0.0;
    TimesZero(p);
  }

  lemma TimesZero(p: Vector3)
    ensures Vector3Multiply(p, 0.0) == Vector3(0.0, 0.0, 0.0)
  {}

  lemma SandwichOfSandwich(a: Quaternion, b: Quaternion, p: Quaternion)
    ensures Hamilton(Hamilton(a, Hamilton(Hamilton(b, p), Conjugate(b))), Conjugate(a)) ==
            Hamilton(Hamilton(Hamilton(a, b), p), Conjugate(Hamilton(a, b)))
  {
    hide Hamilton, Conjugate;
    HamiltonAssociative(a, Hamilton(b, p), Conjugate(b));
    HamiltonAssociative(a, b, p);
    HamiltonAssociative(Hamilton(Hamilton(a, b), p), Conjugate(b), Conjugate(a));
    ConjugateOfProduct(a, b);
  }

  /** Rotating twice is rotating by the Hamilton product. */
  lemma RotationsCompose(a: Quaternion, b: Quaternion, p: Vector3)
    requires Norm2(a) == 1.0 && Norm2(b) == 1.0
    ensures QuaternionMultiply(a, QuaternionMultiply(b, p)) == QuaternionMultiply(Hamilton(a, b), p)
  {
    hide Hamilton, QuaternionMultiply, Norm2, Conjugate;
    NormOfProduct(a, b);
    UnitSandwich(b, p);
    UnitSandwich(a, QuaternionMultiply(b, p));
    UnitSandwich(Hamilton(a, b), p);
    SandwichOfSandwich(a, b, Pure(p));
  }

  lemma RotationByOne(p: Vector3)
    ensures QuaternionMultiply(Quaternion(0.0, 0.0, 0.0, 1.0), p) == p
  {}

  /** The conjugate rotates back. */
  lemma RotationUndone(q: Quaternion, p: Vector3)
    requires Norm2(q) == 1.0
    ensures QuaternionMultiply(Conjugate(q), QuaternionMultiply(q, p)) == p
  {
    hide Hamilton, QuaternionMultiply, Norm2, Conjugate;
    TimesOwnConjugate(q);
    RotationsCompose(Conjugate(q), q, p);
    RotationByOne(p);
  }

  // -------------------------------------------------------------------- linearity

  lemma DotIsLinear(m: Vector3, a: Vector3, b: Vector3, s: real)
    ensures Dot(m, Vector3Addition(a, b)) == Dot(m, a) + Dot(m, b)
    ensures Dot(m, Vector3Multiply(a, s)) == Dot(m, a) * s
  {}

  /** Rotation is linear. */
  lemma RotationIsLinear(q: Quaternion, a: Vector3, b: Vector3, s: real)
    ensures QuaternionMultiply(q, Vector3Addition(a, b)) ==
            Vector3Addition(QuaternionMultiply(q, a), QuaternionMultiply(q, b))
    ensures QuaternionMultiply(q, Vector3Multiply(a, s)) == Vector3Multiply(QuaternionMultiply(q, a), s)
  {
    hide QuaternionMultiply, Dot, Row1, Row2, Row3;
    Rows(q, a);
    Rows(q, b);
    Rows(q, Vector3Addition(a, b));
    Rows(q, Vector3Multiply(a, s));
    DotIsLinear(Row1(q), a, b, s);
    DotIsLinear(Row2(q), a, b, s);
    DotIsLinear(Row3(q), a, b, s);
  }

  // ----------------------------------------------------------------------- length

  /** The form p + 2 w c + 2 d, where c = v x p and d = v x c. */
  function Rodrigues(p: Vector3, w: real, c: Vector3, d: Vector3): Vector3 {
    Vector3(p.x + 2.0 * w * c.x + 2.0 * d.x, p.y + 2.0 * w * c.y + 2.0 * d.y, p.z + 2.0 * w * c.z + 2.0 * d.z)
  }

  lemma RodriguesX(x: real, y: real, z: real, w: real, px: real, py: real, pz: real, c1: real, c2: real, c3: real)
    requires c1 == y * pz - z * py && c2 == z * px - x * pz && c3 == x * py - y * px
    ensures (1.0 - (y * (y * 2.0) + z * (z * 2.0))) * px + (x * (y * 2.0) - w * (z * 2.0)) * py +
            (x * (z * 2.0) + w * (y * 2.0)) * pz == px + 2.0 * w * c1 + 2.0 * (y * c3 - z * c2)
  {}

  lemma DotRow1(q: Quaternion, p: Vector3)
    ensures Dot(Row1(q), p) ==
            (1.0 - (q.y * (q.y * 2.0) + q.z * (q.z * 2.0))) * p.x + (q.x * (q.y * 2.0) - q.w * (q.z * 2.0)) * p.y +
            (q.x * (q.z * 2.0) + q.w * (q.y * 2.0)) * p.z
  {}

  lemma RodriguesAtX(q: Quaternion, p: Vector3)
    ensures var c := Cross(VectorPart(q), p);
            Dot(Row1(q), p) == p.x + 2.0 * q.w * c.x + 2.0 * Cross(VectorPart(q), c).x
  {
    hide Dot, Row1, Cross;
    var c := Cross(VectorPart(q), p);
    DotRow1(q, p);
    CrossComponents(VectorPart(q), p);
    CrossAtX(VectorPart(q), c);
    RodriguesX(q.x, q.y, q.z, q.w, p.x, p.y, p.z, c.x, c.y, c.z);
  }

  lemma TurnOfCross(a: Vector3, b: Vector3)
    ensures Cross(TurnPoint(a), TurnPoint(b)) == TurnPoint(Cross(a, b))
  {}

  /** The entries of the code are this form, for every quaternion. */
  lemma RotationIsRodrigues(q: Quaternion, p: Vector3)
    ensures var c := Cross(VectorPart(q), p);
            QuaternionMultiply(q, p) == Rodrigues(p, q.w, c, Cross(VectorPart(q), c))
  {
    hide QuaternionMultiply, Dot, Row1, Row2, Row3, Cross;
    var v, c := VectorPart(q), Cross(VectorPart(q), p);
    Rows(q, p);
    RodriguesAtX(q, p);
    TurnOfCross(v, p);
    TurnOfCross(v, c);
    RodriguesAtX(Turn(q), TurnPoint(p));
    TurnOfRows(q);
    TurnOfDot(Row2(q), p);
    TurnOfCross(TurnPoint(v), TurnPoint(p));
    TurnOfCross(TurnPoint(v), TurnPoint(c));
    RodriguesAtX(Turn(Turn(q)), TurnPoint(TurnPoint(p)));
    TurnOfRows(Turn(q));
    TurnOfDot(TurnPoint(Row3(q)), TurnPoint(p));
    TurnOfDot(Row3(q), p);
  }

  lemma DotWithRodrigues(m: Vector3, p: Vector3, w: real, c: Vector3, d: Vector3)
    ensures Dot(m, Rodrigues(p, w, c, d)) == Dot(m, p) + Dot(m, c) * (2.0 * w) + Dot(m, d) * 2.0
    ensures Dot(m, c) == Dot(c, m)
  {}

  lemma DotCommutes(a: Vector3, b: Vector3)
    ensures Dot(a, b) == Dot(b, a)
  {}

  lemma SquareScalars(w: real, pp: real, cc: real, dd: real, pc: real, pd: real, cd: real, rp: real, rc: real, rd: real)
    requires rp == pp + pc * (2.0 * w) + pd * 2.0 && rc == pc + cc * (2.0 * w) + cd * 2.0
    requires rd == pd + cd * (2.0 * w) + dd * 2.0
    ensures rp + rc * (2.0 * w) + rd * 2.0 ==
            pp + 4.0 * (w * w) * cc + 4.0 * dd + 4.0 * w * pc + 4.0 * pd + 8.0 * w * cd
  {}

  lemma SquareOfRodrigues(p: Vector3, w: real, c: Vector3, d: Vector3)
    ensures var r := Rodrigues(p, w, c, d);
            Dot(r, r) == Dot(p, p) + 4.0 * (w * w) * Dot(c, c) + 4.0 * Dot(d, d) + 4.0 * w * Dot(p, c) +
                         4.0 * Dot(p, d) + 8.0 * w * Dot(c, d)
  {
    hide Dot, Rodrigues;
    var r := Rodrigues(p, w, c, d);
    DotWithRodrigues(p, p, w, c, d);
    DotWithRodrigues(c, p, w, c, d);
    DotWithRodrigues(d, p, w, c, d);
    DotWithRodrigues(r, p, w, c, d);
    DotCommutes(r, p);
    DotCommutes(r, d);
    DotCommutes(c, p);
    DotCommutes(d, p);
    SquareScalars(w, Dot(p, p), Dot(c, c), Dot(d, d), Dot(p, c), Dot(p, d), Dot(c, d), Dot(r, p), Dot(r, c), Dot(r, d));
  }

  lemma TripleScalars(p1: real, p2: real, p3: real, v1: real, v2: real, v3: real, c1: real, c2: real, c3: real,
                      d1: real, d2: real, d3: real, e1: real, e2: real, e3: real)
    requires d1 == v2 * c3 - v3 * c2 && d2 == v3 * c1 - v1 * c3 && d3 == v1 * c2 - v2 * c1
    requires e1 == v2 * p3 - v3 * p2 && e2 == v3 * p1 - v1 * p3 && e3 == v1 * p2 - v2 * p1
    ensures p1 * d1 + p2 * d2 + p3 * d3 == -(c1 * e1 + c2 * e2 + c3 * e3)
  {}

  lemma TripleProduct(p: Vector3, v: Vector3, c: Vector3)
    ensures Dot(p, Cross(v, c)) == -Dot(c, Cross(v, p))
  {
    hide Cross, Dot;
    var d, e := Cross(v, c), Cross(v, p);
    CrossComponents(v, c);
    CrossComponents(v, p);
    DotIs(p, d);
    DotIs(c, e);
    TripleScalars(p.x, p.y, p.z, v.x, v.y, v.z, c.x, c.y, c.z, d.x, d.y, d.z, e.x, e.y, e.z);
  }

  lemma CrossIsNormal(v: Vector3, p: Vector3)
    ensures Dot(v, Cross(v, p)) == 0.0
  {}

  lemma CrossTwiceScalars(v1: real, v2: real, v3: real, c1: real, c2: real, c3: real, d2: real, d3: real)
    requires d2 == v3 * c1 - v1 * c3 && d3 == v1 * c2 - v2 * c1
    ensures v2 * d3 - v3 * d2 == v1 * (v1 * c1 + v2 * c2 + v3 * c3) - c1 * (v1 * v1 + v2 * v2 + v3 * v3)
  {}

  lemma CrossTwiceDots(v: Vector3, c: Vector3)
    ensures Cross(v, Cross(v, c)).x == v.x * Dot(v, c) - c.x * Dot(v, v)
  {
    hide Cross, Dot;
    var d := Cross(v, c);
    CrossAtX(v, d);
    CrossComponents(v, c);
    DotIs(v, c);
    DotIs(v, v);
    CrossTwiceScalars(v.x, v.y, v.z, c.x, c.y, c.z, d.y, d.z);
  }

  lemma CrossAtX(a: Vector3, b: Vector3)
    ensures Cross(a, b).x == a.y * b.z - a.z * b.y
  {}

  lemma CrossComponents(a: Vector3, b: Vector3)
    ensures var c := Cross(a, b);
            c.x == a.y * b.z - a.z * b.y && c.y == a.z * b.x - a.x * b.z && c.z == a.x * b.y - a.y * b.x
  {}

  lemma DotIs(a: Vector3, b: Vector3)
    ensures Dot(a, b) == a.x * b.x + a.y * b.y + a.z * b.z
  {}

  lemma ZeroDot(a: real, b: real, vc: real, vv: real)
    requires vc == 0.0
    ensures a * vc - b * vv == b * -vv
  {}

  lemma CrossTwiceAtX(v: Vector3, c: Vector3)
    requires Dot(v, c) == 0.0
    ensures Cross(v, Cross(v, c)).x == c.x * -Dot(v, v)
  {
    hide Cross, Dot;
    CrossTwiceDots(v, c);
    ZeroDot(v.x, c.x, Dot(v, c), Dot(v, v));
  }

  lemma CrossTwice(v: Vector3, c: Vector3)
    requires Dot(v, c) == 0.0
    ensures Cross(v, Cross(v, c)) == Vector3Multiply(c, -Dot(v, v))
  {
    hide Cross, Dot;
    var v', c' := TurnPoint(v), TurnPoint(c);
    CrossTwiceAtX(v, c);
    TurnOfCross(v, c);
    TurnOfCross(v, Cross(v, c));
    TurnOfDot(v, c);
    TurnOfDot(v, v);
    CrossTwiceAtX(v', c');
    TurnOfCross(v', c');
    TurnOfCross(v', Cross(v', c'));
    TurnOfDot(v', c');
    TurnOfDot(v', v');
    CrossTwiceAtX(TurnPoint(v'), TurnPoint(c'));
  }

  lemma CrossLaws(v: Vector3, p: Vector3)
    ensures var c := Cross(v, p);
            && Dot(p, c) == 0.0
            && Dot(p, Cross(v, c)) == -Dot(c, c)
            && Dot(c, Cross(v, c)) == 0.0
            && Dot(Cross(v, c), Cross(v, c)) == Dot(c, c) * Dot(v, v)
  {
    hide Cross, Dot;
    var c := Cross(v, p);
    TripleProduct(p, v, p);
    TripleProduct(p, v, c);
    TripleProduct(c, v, c);
    CrossIsNormal(v, p);
    CrossTwice(v, c);
    TripleProduct(Cross(v, c), v, c);
    DotIsLinear(c, c, c, -Dot(v, v));
  }

  lemma LengthScalars(w: real, cc: real, vv: real)
    ensures 4.0 * (w * w) * cc + 4.0 * (cc * vv) + 4.0 * -cc == 4.0 * (vv + w * w - 1.0) * cc
  {}

  /** How far rotation changes a squared length, for every quaternion and point. */
  lemma LengthLaw(q: Quaternion, p: Vector3)
    ensures var r, c := QuaternionMultiply(q, p), Cross(VectorPart(q), p);
            Dot(r, r) - Dot(p, p) == 4.0 * (Norm2(q) - 1.0) * Dot(c, c)
  {
    hide QuaternionMultiply, Dot, Cross, Norm2;
    var v, c := VectorPart(q), Cross(VectorPart(q), p);
    RotationIsRodrigues(q, p);
    SquareOfRodrigues(p, q.w, c, Cross(v, c));
    CrossLaws(v, p);
    NormOfParts(q);
    LengthScalars(q.w, Dot(c, c), Dot(v, v));
  }

  lemma NormOfParts(q: Quaternion)
    ensures Norm2(q) == Dot(VectorPart(q), VectorPart(q)) + q.w * q.w
  {}

  lemma PositiveProduct(a: real, b: real, p: real)
    requires a > 0.0 && b > 0.0 && p == a * b
    ensures p > 0.0
  {}

  lemma Negations(a: real, b: real)
    ensures a * b == -a * -b
    ensures a * -b == -(a * b)
    ensures -a * b == -(a * b)
  {}

  lemma SquarePositive(x: real, p: real)
    requires p == x * x
    ensures x != 0.0 ==> p > 0.0
    ensures x == 0.0 ==> p == 0.0
  {
    Negations(x, x);
    if x > 0.0 { PositiveProduct(x, x, p); }
    if x < 0.0 { PositiveProduct(-x, -x, p); }
  }

  lemma SumOfSquares(x: real, y: real, z: real, s: real)
    requires s == x * x + y * y + z * z
    ensures x != 0.0 || y != 0.0 || z != 0.0 ==> s > 0.0
    ensures x == 0.0 && y == 0.0 && z == 0.0 ==> s == 0.0
  {
    SquarePositive(x, x * x);
    SquarePositive(y, y * y);
    SquarePositive(z, z * z);
  }

  lemma SquareIsZero(c: Vector3)
    ensures c == Vector3(0.0, 0.0, 0.0) ==> Dot(c, c) == 0.0
    ensures c != Vector3(0.0, 0.0, 0.0) ==> Dot(c, c) > 0.0
  {
    hide Dot;
    DotIs(c, c);
    SumOfSquares(c.x, c.y, c.z, Dot(c, c));
    assert c == Vector3(c.x, c.y, c.z);
  }

  /** A length is kept exactly by the unit quaternions and along the axis. */
  lemma LengthKeptExactly(q: Quaternion, p: Vector3)
    ensures var r := QuaternionMultiply(q, p);
            Dot(r, r) == Dot(p, p) <==> Norm2(q) == 1.0 || Cross(VectorPart(q), p) == Vector3(0.0, 0.0, 0.0)
  {
    hide QuaternionMultiply, Dot, Cross, Norm2;
    var c := Cross(VectorPart(q), p);
    LengthLaw(q, p);
    SquareIsZero(c);
    ProductIsZero(Norm2(q) - 1.0, Dot(c, c), 4.0 * (Norm2(q) - 1.0) * Dot(c, c));
  }

  lemma ProductIsZero(a: real, b: real, p: real)
    requires p == 4.0 * a * b
    ensures p == 0.0 <==> a == 0.0 || b == 0.0
  {
    var n := a * b;
    assert p == 4.0 * n;
    Negations(a, b);
    if a > 0.0 && b > 0.0 { PositiveProduct(a, b, n); }
    if a > 0.0 && b < 0.0 { PositiveProduct(a, -b, -n); }
    if a < 0.0 && b > 0.0 { PositiveProduct(-a, b, -n); }
    if a < 0.0 && b < 0.0 { PositiveProduct(-a, -b, n); }
  }

  lemma SquareOfSum(a: Vector3, b: Vector3)
    ensures Dot(Vector3Addition(a, b), Vector3Addition(a, b)) == Dot(a, a) + 2.0 * Dot(a, b) + Dot(b, b)
  {}

  /** A unit quaternion keeps angles as well as lengths. */
  lemma DotKept(q: Quaternion, a: Vector3, b: Vector3)
    requires Norm2(q) == 1.0
    ensures Dot(QuaternionMultiply(q, a), QuaternionMultiply(q, b)) == Dot(a, b)
  {
    hide QuaternionMultiply, Dot, Cross, Norm2;
    RotationIsLinear(q, a, b, 1.0);
    LengthKeptExactly(q, a);
    LengthKeptExactly(q, b);
    LengthKeptExactly(q, Vector3Addition(a, b));
    SquareOfSum(a, b);
    SquareOfSum(QuaternionMultiply(q, a), QuaternionMultiply(q, b));
  }
}
