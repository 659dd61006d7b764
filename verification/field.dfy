/**
 The field evaluator (`GetForce`): superposition of inverse-square terms
 with a squared-distance floor, an out-of-plane restoring term and a
 component clamp.
 */
module Field {
  import opened Geometry
  import opened Charges

  /** The squared-distance floor (a 15-unit minimum separation). */
  const DistanceSqFloor: real := 225.0
  /** The visualisation / haptic scale factor. */
  const ForceScale: real := 1000.0
  /** Clamp bounds for the in-plane and out-of-plane components. */
  const PlanarLimit: real := 4.0
  const NormalLimit: real := 10.0

  /** `if (rr <= 225.0) rr = 225.0;` */
  function FlooredDistanceSq(rr: real): (f: real)
    ensures f >= DistanceSqFloor
    ensures f >= rr
    ensures rr > DistanceSqFloor ==> f == rr
    ensures rr <= DistanceSqFloor ==> f == DistanceSqFloor
  {
    if rr <= DistanceSqFloor then DistanceSqFloor else rr
  }

  /** The displacement from the charge to the query point taken in the plane. */
  function Displacement(c: Charge, q: Vec3): Vec3 {
    Sub(Vec3(q.x, q.y, 0.0), c.pos)
  }

  /** One charge's scaled term: `1000 * (unit(r) * (charge / rr))`. */
  function Contribution(c: Charge, q: Vec3, inv: Vec3 -> real): Vec3 {
    var r := Displacement(c, q);
    var rr := FlooredDistanceSq(LengthSq(r));
    Scale(Scale(Normalize(r, inv), c.charge as real / rr), ForceScale)
  }

  /**
   A query point exactly on the charge gets no term from it. The program
   normalises the zero displacement there and gets non-numbers; the model's
   normalisation maps it to zero.
   */
  lemma ContributionAtCharge(c: Charge, q: Vec3, inv: Vec3 -> real)
    requires Displacement(c, q) == Zero
    ensures Contribution(c, q, inv) == Zero
  {
  }

  /** The accumulator after every charge of `cs`, added in list order. */
  function FieldSum(cs: seq<Charge>, q: Vec3, inv: Vec3 -> real): Vec3
    decreases |cs|
  {
    if |cs| == 0 then Zero
    else Add(FieldSum(cs[..|cs| - 1], q, inv), Contribution(cs[|cs| - 1], q, inv))
  }

  /** The accumulator after the out-of-plane restoring term, before clamping. */
  function RawForce(sims: seq<Charge>, q: Vec3, inv: Vec3 -> real): Vec3 {
    Add(FieldSum(sims, q, inv), Vec3(0.0, 0.0, -q.z))
  }

  /**
   The clamp applied before a force is sent to the device: every component
   ends within the actuator limits, a component already within them is
   passed through unchanged, and one beyond them saturates at the limit.
   */
  function ClampForce(v: Vec3): (f: Vec3)
    ensures -PlanarLimit <= f.x <= PlanarLimit
    ensures -PlanarLimit <= f.y <= PlanarLimit
    ensures -NormalLimit <= f.z <= NormalLimit
    ensures -PlanarLimit <= v.x <= PlanarLimit ==> f.x == v.x
    ensures -PlanarLimit <= v.y <= PlanarLimit ==> f.y == v.y
    ensures -NormalLimit <= v.z <= NormalLimit ==> f.z == v.z
    ensures v.x > PlanarLimit ==> f.x == PlanarLimit
    ensures v.x < -PlanarLimit ==> f.x == -PlanarLimit
    ensures v.y > PlanarLimit ==> f.y == PlanarLimit
    ensures v.y < -PlanarLimit ==> f.y == -PlanarLimit
    ensures v.z > NormalLimit ==> f.z == NormalLimit
    ensures v.z < -NormalLimit ==> f.z == -NormalLimit
  {
    Vec3(Clamp(v.x, -PlanarLimit, PlanarLimit),
         Clamp(v.y, -PlanarLimit, PlanarLimit),
         Clamp(v.z, -NormalLimit, NormalLimit))
  }

  /** The clamp is symmetric: clamping the opposite vector gives the opposite result. */
  lemma ClampForceOdd(v: Vec3)
    ensures ClampForce(Neg(v)) == Neg(ClampForce(v))
  {
    ClampOdd(v.x, PlanarLimit);
    ClampOdd(v.y, PlanarLimit);
    ClampOdd(v.z, NormalLimit);
  }

  /**
   `GetForce(x, y, z)` over the simulation charges `sims`: whatever the
   charges and the query point, every component of the result lies within
   the actuator limits.
   */
  function GetForce(sims: seq<Charge>, q: Vec3, inv: Vec3 -> real): (f: Vec3)
    ensures -PlanarLimit <= f.x <= PlanarLimit
    ensures -PlanarLimit <= f.y <= PlanarLimit
    ensures -NormalLimit <= f.z <= NormalLimit
  {
    ClampForce(RawForce(sims, q, inv))
  }

  /** Every charge sits in the simulation plane. */
  ghost predicate InPlaneCharges(cs: seq<Charge>) {
    forall k :: 0 <= k < |cs| ==> cs[k].pos.z == 0.0
  }

  lemma WellFormedInPlane(cs: seq<Charge>)
    requires AllWellFormed(cs)
    ensures InPlaneCharges(cs)
  {
    forall k | 0 <= k < |cs| ensures cs[k].pos.z == 0.0 {
      assert WellFormed(cs[k]);
    }
  }

  /** Charges in the plane contribute nothing out of the plane. */
  lemma {:induction false} FieldSumInPlane(cs: seq<Charge>, q: Vec3, inv: Vec3 -> real)
    requires InPlaneCharges(cs)
    ensures FieldSum(cs, q, inv).z == 0.0
    decreases |cs|
  {
    if |cs| > 0 {
      var init := cs[..|cs| - 1];
      assert InPlaneCharges(init) by {
        forall k | 0 <= k < |init| ensures init[k].pos.z == 0.0 {
          assert init[k] == cs[k];
        }
      }
      FieldSumInPlane(init, q, inv);
      assert Displacement(cs[|cs| - 1], q).z == 0.0;
    }
  }

  /**
   For well-formed charges the out-of-plane component of the result is
   exactly the restoring term `-z`, clamped to `[-10, 10]`.
   */
  lemma GetForceNormal(sims: seq<Charge>, q: Vec3, inv: Vec3 -> real)
    requires AllWellFormed(sims)
    ensures GetForce(sims, q, inv).z == Clamp(-q.z, -NormalLimit, NormalLimit)
  {
    WellFormedInPlane(sims);
    FieldSumInPlane(sims, q, inv);
    assert RawForce(sims, q, inv).z == -q.z;
  }

  /** At a query point in the plane the force has no out-of-plane part. */
  lemma GetForceInPlane(sims: seq<Charge>, p: Point, inv: Vec3 -> real)
    requires AllWellFormed(sims)
    ensures GetForce(sims, InPlane(p), inv).z == 0.0
  {
    GetForceNormal(sims, InPlane(p), inv);
    assert Clamp(-0.0, -NormalLimit, NormalLimit) == 0.0;
  }

  /** With no simulation charges only the clamped restoring term remains. */
  lemma GetForceEmpty(q: Vec3, inv: Vec3 -> real)
    ensures GetForce([], q, inv) == Vec3(0.0, 0.0, Clamp(-q.z, -NormalLimit, NormalLimit))
  {
  }

  /** Superposition: the accumulated field of two lists is the sum of their fields. */
  lemma {:induction false} Superposition(a: seq<Charge>, b: seq<Charge>, q: Vec3, inv: Vec3 -> real)
    ensures FieldSum(a + b, q, inv) == Add(FieldSum(a, q, inv), FieldSum(b, q, inv))
    decreases |b|
  {
    if |b| == 0 {
      assert a + b == a;
    } else {
      var b' := b[..|b| - 1];
      assert (a + b)[..|a + b| - 1] == a + b';
      assert (a + b)[|a + b| - 1] == b[|b| - 1];
      Superposition(a, b', q, inv);
    }
  }

  /**
   The accumulated field does not depend on the order in which charges were
   placed: moving the last charge to the front leaves it unchanged.
   */
  lemma RotationInvariant(cs: seq<Charge>, q: Vec3, inv: Vec3 -> real)
    requires |cs| > 0
    ensures FieldSum([cs[|cs| - 1]] + cs[..|cs| - 1], q, inv) == FieldSum(cs, q, inv)
  {
    var last := [cs[|cs| - 1]];
    Superposition(last, cs[..|cs| - 1], q, inv);
    assert FieldSum(last, q, inv) == Add(Zero, Contribution(cs[|cs| - 1], q, inv)) by {
      assert last[..0] == [];
    }
  }

  lemma LengthSqScale(a: Vec3, k: real)
    ensures LengthSq(Scale(a, k)) == k * k * LengthSq(a)
  {
    assert (a.x * k) * (a.x * k) == k * k * (a.x * a.x);
    assert (a.y * k) * (a.y * k) == k * k * (a.y * a.y);
    assert (a.z * k) * (a.z * k) == k * k * (a.z * a.z);
  }

  lemma DotScale(a: Vec3, k: real, b: Vec3)
    ensures Dot(Scale(a, k), b) == k * Dot(a, b)
  {
    assert (a.x * k) * b.x == k * (a.x * b.x);
    assert (a.y * k) * b.y == k * (a.y * b.y);
    assert (a.z * k) * b.z == k * (a.z * b.z);
  }

  /** A term `unit * s * 1000` built on a unit vector has length `|1000 * s|`. */
  lemma ScaledUnitLength(u: Vec3, s: real)
    requires LengthSq(u) == 1.0
    ensures LengthSq(Scale(Scale(u, s), ForceScale)) == (ForceScale * s) * (ForceScale * s)
  {
    LengthSqScale(u, s);
    LengthSqScale(Scale(u, s), ForceScale);
  }

  /** A larger floored distance never yields a larger term. */
  lemma FloorBound(q: real, rr: real)
    requires rr >= DistanceSqFloor
    ensures (ForceScale * q / rr) * (ForceScale * q / rr)
         <= (ForceScale * q / DistanceSqFloor) * (ForceScale * q / DistanceSqFloor)
  {
    var b := ForceScale * q / DistanceSqFloor;
    var t := DistanceSqFloor / rr;
    assert 0.0 < t <= 1.0;
    assert ForceScale * q / rr == b * t;
    assert (b * t) * (b * t) == (b * b) * (t * t);
    assert t * t <= 1.0;
    assert b * b >= 0.0;
  }

  /**
   Where the inverse length is exact, one charge's term has length
   `1000 * |charge| / rr` with `rr` the floored squared distance, so no
   single charge contributes more than `1000 * |charge| / 225`.
   */
  lemma ContributionMagnitude(c: Charge, q: Vec3, inv: Vec3 -> real)
    requires ExactAt(inv, Displacement(c, q))
    ensures var rr := FlooredDistanceSq(LengthSq(Displacement(c, q)));
      var m := ForceScale * c.charge as real / rr;
      LengthSq(Contribution(c, q, inv)) == m * m
    ensures var m := ForceScale * c.charge as real / DistanceSqFloor;
      LengthSq(Contribution(c, q, inv)) <= m * m
  {
    var r := Displacement(c, q);
    var rr := FlooredDistanceSq(LengthSq(r));
    var s := c.charge as real / rr;
    NormalizeIsUnit(r, inv);
    ScaledUnitLength(Normalize(r, inv), s);
    assert ForceScale * s == ForceScale * c.charge as real / rr;
    FloorBound(c.charge as real, rr);
  }

  /**
   A positive charge pushes the query point away from itself and a negative
   one pulls it in, whenever the inverse length is nonnegative.
   */
  lemma ContributionSign(c: Charge, q: Vec3, inv: Vec3 -> real)
    requires inv(Displacement(c, q)) >= 0.0
    ensures c.charge > 0 ==> Dot(Contribution(c, q, inv), Displacement(c, q)) >= 0.0
    ensures c.charge < 0 ==> Dot(Contribution(c, q, inv), Displacement(c, q)) <= 0.0
    ensures c.charge == 0 ==> Contribution(c, q, inv) == Zero
  {
    var r := Displacement(c, q);
    var rr := FlooredDistanceSq(LengthSq(r));
    var t := inv(r) * LengthSq(r);
    ContributionDot(c, q, inv);
    LengthSqNonNegative(r);
    assert t >= 0.0;
    ProductSign(c.charge, rr, t);
  }

  lemma ScaleScale(a: Vec3, k1: real, k2: real)
    ensures Scale(Scale(a, k1), k2) == Scale(a, k1 * k2)
  {
    assert (a.x * k1) * k2 == a.x * (k1 * k2);
    assert (a.y * k1) * k2 == a.y * (k1 * k2);
    assert (a.z * k1) * k2 == a.z * (k1 * k2);
  }

  /** One charge's term is a multiple of the displacement from the charge. */
  lemma ContributionAlong(c: Charge, q: Vec3, inv: Vec3 -> real)
    ensures var r := Displacement(c, q);
      var s := c.charge as real / FlooredDistanceSq(LengthSq(r));
      Contribution(c, q, inv) == Scale(r, (inv(r) * s) * ForceScale)
  {
    var r := Displacement(c, q);
    var s := c.charge as real / FlooredDistanceSq(LengthSq(r));
    ScaleThrice(r, inv(r), s, ForceScale);
  }

  lemma ScaleThrice(a: Vec3, k1: real, k2: real, k3: real)
    ensures Scale(Scale(Scale(a, k1), k2), k3) == Scale(a, (k1 * k2) * k3)
  {
    ScaleScale(a, k1, k2);
    ScaleScale(a, k1 * k2, k3);
  }

  /**
   A positive charge's term points along the displacement from the charge,
   away from it, and a negative charge's term points against it, towards
   the charge, whenever the inverse length is nonnegative.
   */
  lemma ContributionDirection(c: Charge, q: Vec3, inv: Vec3 -> real)
    requires inv(Displacement(c, q)) >= 0.0
    ensures c.charge > 0 ==> exists k :: k >= 0.0 && Contribution(c, q, inv) == Scale(Displacement(c, q), k)
    ensures c.charge < 0 ==> exists k :: k <= 0.0 && Contribution(c, q, inv) == Scale(Displacement(c, q), k)
  {
    var r := Displacement(c, q);
    var rr := FlooredDistanceSq(LengthSq(r));
    var s := c.charge as real / rr;
    var k := (inv(r) * s) * ForceScale;
    ContributionAlong(c, q, inv);
    if c.charge > 0 {
      assert s > 0.0;
      assert inv(r) * s >= 0.0;
      assert k >= 0.0;
    } else if c.charge < 0 {
      assert s < 0.0;
      assert inv(r) * s <= 0.0;
      assert k <= 0.0;
    }
  }

  /** The term's projection on the displacement, as a product of scalars. */
  lemma ContributionDot(c: Charge, q: Vec3, inv: Vec3 -> real)
    ensures var r := Displacement(c, q);
      var s := c.charge as real / FlooredDistanceSq(LengthSq(r));
      Dot(Contribution(c, q, inv), r) == ForceScale * (s * (inv(r) * LengthSq(r)))
  {
    var r := Displacement(c, q);
    var s := c.charge as real / FlooredDistanceSq(LengthSq(r));
    var k := inv(r);
    DotScale(Scale(Scale(r, k), s), ForceScale, r);
    DotScale(Scale(r, k), s, r);
    DotScale(r, k, r);
  }

  /** `1000 * (m / rr) * t` has the sign of `m` when `rr > 0` and `t >= 0`. */
  lemma ProductSign(m: int, rr: real, t: real)
    requires rr > 0.0 && t >= 0.0
    ensures m > 0 ==> ForceScale * (m as real / rr * t) >= 0.0
    ensures m < 0 ==> ForceScale * (m as real / rr * t) <= 0.0
  {
    var s := m as real / rr;
    if m > 0 {
      assert s > 0.0;
      assert s * t >= 0.0;
    } else if m < 0 {
      assert s < 0.0;
      assert s * t <= 0.0;
    }
  }

  /** The charges with every magnitude reversed, positions kept. */
  function Reversed(cs: seq<Charge>): (rs: seq<Charge>)
    ensures |rs| == |cs|
    ensures forall k :: 0 <= k < |cs| ==>
      rs[k].x == cs[k].x && rs[k].y == cs[k].y && rs[k].pos == cs[k].pos && rs[k].charge == -cs[k].charge
  {
    seq(|cs|, k requires 0 <= k < |cs| => cs[k].(charge := -cs[k].charge))
  }

  /** Reversing one charge reverses its term. */
  lemma ContributionReversed(c: Charge, q: Vec3, inv: Vec3 -> real)
    ensures Contribution(c.(charge := -c.charge), q, inv) == Neg(Contribution(c, q, inv))
  {
    var r := Displacement(c, q);
    var rr := FlooredDistanceSq(LengthSq(r));
    var u := Normalize(r, inv);
    var s := c.charge as real / rr;
    assert (-c.charge) as real / rr == -s;
    assert Scale(Scale(u, -s), ForceScale) == Neg(Scale(Scale(u, s), ForceScale));
  }

  /** Reversing every charge reverses the accumulated field. */
  lemma {:induction false} FieldSumReversed(cs: seq<Charge>, q: Vec3, inv: Vec3 -> real)
    ensures FieldSum(Reversed(cs), q, inv) == Neg(FieldSum(cs, q, inv))
    decreases |cs|
  {
    if |cs| > 0 {
      var init := cs[..|cs| - 1];
      assert Reversed(cs)[..|cs| - 1] == Reversed(init);
      FieldSumReversed(init, q, inv);
      var c := cs[|cs| - 1];
      assert Reversed(cs)[|cs| - 1] == c.(charge := -c.charge);
      ContributionReversed(c, q, inv);
    }
  }

  /**
   In the simulation plane, the force of the reversed charges is the
   opposite of the force of the charges: the clamp is symmetric and the
   restoring term vanishes at z = 0.
   */
  lemma GetForceReversed(sims: seq<Charge>, q: Vec3, inv: Vec3 -> real)
    requires q.z == 0.0
    ensures GetForce(Reversed(sims), q, inv) == Neg(GetForce(sims, q, inv))
  {
    FieldSumReversed(sims, q, inv);
    assert RawForce(Reversed(sims), q, inv) == Neg(RawForce(sims, q, inv));
    ClampForceOdd(RawForce(sims, q, inv));
  }

  /** The field of two charges is the sum of their two terms. */
  lemma FieldSumPair(a: Charge, b: Charge, q: Vec3, inv: Vec3 -> real)
    ensures FieldSum([a, b], q, inv) == Add(Contribution(a, q, inv), Contribution(b, q, inv))
  {
    assert [a, b][..1] == [a];
    assert [a][..0] == [];
    assert FieldSum([a], q, inv) == Add(Zero, Contribution(a, q, inv));
    assert FieldSum([a, b], q, inv) == Add(FieldSum([a], q, inv), Contribution(b, q, inv));
  }

  /**
   A dipole: two opposite charges placed symmetrically about the query
   point. Both terms point the same way (from the positive towards the
   negative charge for a positive `p`), so the field there is twice the
   term of either charge, whenever the inverse length treats a vector and
   its opposite alike.
   */
  lemma DipoleMidpoint(p: Charge, n: Charge, q: Vec3, inv: Vec3 -> real)
    requires n.charge == -p.charge
    requires Displacement(n, q) == Neg(Displacement(p, q))
    requires inv(Neg(Displacement(p, q))) == inv(Displacement(p, q))
    ensures FieldSum([p, n], q, inv) == Scale(Contribution(p, q, inv), 2.0)
  {
    var r := Displacement(p, q);
    assert LengthSq(Neg(r)) == LengthSq(r);
    var rr := FlooredDistanceSq(LengthSq(r));
    var u := Normalize(r, inv);
    assert Normalize(Neg(r), inv) == Neg(u);
    var s := p.charge as real / rr;
    assert n.charge as real / rr == -s;
    assert Contribution(n, q, inv) == Scale(Scale(Neg(u), -s), ForceScale);
    assert Scale(Scale(Neg(u), -s), ForceScale) == Scale(Scale(u, s), ForceScale);
    FieldSumPair(p, n, q, inv);
  }
}
