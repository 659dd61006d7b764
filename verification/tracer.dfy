/**
 The field-line tracer: the two fixed-step explicit Euler walks of
 `DrawFieldLine`, forward along the unit field direction and backward
 against it, each capped at 1000 steps. The drawing calls are left out;
 the walks return the polylines that would be drawn.
 */
module Tracer {
  import opened Geometry
  import opened Charges
  import opened Field

  /** Step cap of each walk. */
  const MaxSteps: nat := 1000

  /** Which way a walk goes along the field direction. */
  datatype Heading = Forward | Backward

  /** `w0 += force` or `w0 -= force`. */
  function Advance(w: Point, d: Point, h: Heading): Point {
    match h
    case Forward => Point(w.x + d.x, w.y + d.y)
    case Backward => Point(w.x - d.x, w.y - d.y)
  }

  /** Outside the simulation area: `x < 0 || x > VIEWPORT_W || y < MENU_H || y > VIEWPORT_H`. */
  predicate OutOfView(p: Point) {
    || p.x < 0.0 || p.x > ViewportWidth as real
    || p.y < MenuHeight as real || p.y > ViewportHeight as real
  }

  /** A walk stops after reaching `p`: it left the area or landed on a simulation charge. */
  predicate Stops(sims: seq<Charge>, p: Point) {
    OutOfView(p) || CheckSimClick(sims, p.x, p.y).Some?
  }

  /** Point `k` of `ps` is one Euler step past point `k - 1`. */
  ghost predicate EulerStep(ps: seq<Point>, k: int, dir: Point -> Point, h: Heading)
    requires 0 < k < |ps|
  {
    ps[k] == Advance(ps[k - 1], dir(ps[k - 1]), h)
  }

  /**
   The points appended by one walk from `w` with at most `fuel` steps: each
   point is the previous one (the start `w` for the first) advanced by the
   direction there, and the walk ends at the first point that satisfies
   `stop`, or when the steps run out. The stop test reads the point just
   reached. `WalkSteps` and `WalkEnds` state the shape of the result.
   */
  function Walk(stop: Point -> bool, dir: Point -> Point, w: Point, h: Heading, fuel: nat): (ps: seq<Point>)
    ensures |ps| <= fuel
    ensures fuel > 0 ==> |ps| > 0
    decreases fuel
  {
    if fuel == 0 then []
    else
      var next := Advance(w, dir(w), h);
      if stop(next) then [next] else [next] + Walk(stop, dir, next, h, fuel - 1)
  }

  /** Every point of a walk is one Euler step past the one before it, the first past the start. */
  lemma {:induction false} WalkSteps(stop: Point -> bool, dir: Point -> Point, w: Point, h: Heading, fuel: nat)
    ensures var ps := Walk(stop, dir, w, h, fuel);
      && (|ps| > 0 ==> ps[0] == Advance(w, dir(w), h))
      && (forall k :: 0 < k < |ps| ==> EulerStep(ps, k, dir, h))
    decreases fuel
  {
    if fuel > 0 {
      var next := Advance(w, dir(w), h);
      if !stop(next) {
        var rest := Walk(stop, dir, next, h, fuel - 1);
        var ps := [next] + rest;
        WalkSteps(stop, dir, next, h, fuel - 1);
        forall k | 0 < k < |ps| ensures EulerStep(ps, k, dir, h) {
          if k > 1 {
            assert EulerStep(rest, k - 1, dir, h);
          }
        }
      }
    }
  }

  /**
   A walk passes only through points where it does not stop, except its last
   one, and it ends before its budget runs out only at a point where it stops.
   */
  lemma {:induction false} WalkEnds(stop: Point -> bool, dir: Point -> Point, w: Point, h: Heading, fuel: nat)
    ensures var ps := Walk(stop, dir, w, h, fuel);
      && (forall k :: 0 <= k < |ps| - 1 ==> !stop(ps[k]))
      && (0 < |ps| < fuel ==> stop(ps[|ps| - 1]))
    decreases fuel
  {
    if fuel > 0 {
      var next := Advance(w, dir(w), h);
      if !stop(next) {
        var rest := Walk(stop, dir, next, h, fuel - 1);
        WalkEnds(stop, dir, next, h, fuel - 1);
        assert forall k :: 0 < k < |rest| + 1 ==> ([next] + rest)[k] == rest[k - 1];
      }
    }
  }

  /**
   One polyline of `DrawFieldLine`: the seed, then the points of a walk of at
   most `MaxSteps` steps, so it holds between 2 and 1001 points and starts at
   the seed. `FieldLineShape` states how its points follow one another.
   */
  function FieldLine(sims: seq<Charge>, dir: Point -> Point, seed: Point, h: Heading): (line: seq<Point>)
    ensures 2 <= |line| <= MaxSteps + 1
    ensures line[0] == seed
  {
    [seed] + Walk(p => Stops(sims, p), dir, seed, h, MaxSteps)
  }

  /**
   Consecutive points of a polyline are one Euler step apart; no point after
   the seed but the last is one where the walk stops; and a polyline shorter
   than 1001 points ends at such a point.
   */
  lemma FieldLineShape(sims: seq<Charge>, dir: Point -> Point, seed: Point, h: Heading)
    ensures var line := FieldLine(sims, dir, seed, h);
      && (forall k :: 0 < k < |line| ==> EulerStep(line, k, dir, h))
      && (forall k :: 0 < k < |line| - 1 ==> !Stops(sims, line[k]))
      && (|line| < MaxSteps + 1 ==> Stops(sims, line[|line| - 1]))
  {
    var stop := p => Stops(sims, p);
    var ps := Walk(stop, dir, seed, h, MaxSteps);
    var line := [seed] + ps;
    WalkSteps(stop, dir, seed, h, MaxSteps);
    WalkEnds(stop, dir, seed, h, MaxSteps);
    forall k | 0 < k < |line| ensures EulerStep(line, k, dir, h) {
      if k > 1 {
        assert EulerStep(ps, k - 1, dir, h);
      }
    }
    assert forall k :: 0 < k < |line| ==> line[k] == ps[k - 1];
  }

  /** The step direction: the field at the point, in the plane, normalised. */
  function FieldDirection(sims: seq<Charge>, inv: Vec3 -> real): Point -> Point {
    p => UnitField(sims, inv, p)
  }

  /** `GetForce(w0.x, w0.y, 0.0)` followed by `force.normalize()`, in the plane. */
  function UnitField(sims: seq<Charge>, inv: Vec3 -> real, p: Point): Point {
    Planar(Normalize(GetForce(sims, InPlane(p), inv), inv))
  }

  /**
   Every step of a trace moves the point by one unit: at a query point in
   the plane the force has no out-of-plane part, so its normalised planar
   part has length 1 wherever the inverse length is exact.
   */
  lemma UnitStep(sims: seq<Charge>, inv: Vec3 -> real, p: Point)
    requires AllWellFormed(sims)
    requires ExactAt(inv, GetForce(sims, InPlane(p), inv))
    ensures PlanarLengthSq(UnitField(sims, inv, p)) == 1.0
  {
    var f := GetForce(sims, InPlane(p), inv);
    GetForceInPlane(sims, p, inv);
    PlanarUnit(f, inv);
  }


  /**
   `DrawFieldLine` for one seed: the forward and the backward polyline, both
   starting at the seed and stepping by the normalised field.
   */
  function TraceFieldLine(sims: seq<Charge>, inv: Vec3 -> real, seed: Point): (lines: (seq<Point>, seq<Point>))
    ensures 2 <= |lines.0| <= MaxSteps + 1 && 2 <= |lines.1| <= MaxSteps + 1
    ensures lines.0[0] == seed && lines.1[0] == seed
  {
    var dir := FieldDirection(sims, inv);
    (FieldLine(sims, dir, seed, Forward), FieldLine(sims, dir, seed, Backward))
  }

  /** `DrawFieldLine` over every recorded seed, in order. */
  function TraceAll(sims: seq<Charge>, inv: Vec3 -> real, seeds: seq<Point>): (lines: seq<(seq<Point>, seq<Point>)>)
    ensures |lines| == |seeds|
    ensures forall k :: 0 <= k < |seeds| ==>
      && 2 <= |lines[k].0| <= MaxSteps + 1 && 2 <= |lines[k].1| <= MaxSteps + 1
      && lines[k].0[0] == seeds[k] && lines[k].1[0] == seeds[k]
  {
    seq(|seeds|, k requires 0 <= k < |seeds| => TraceFieldLine(sims, inv, seeds[k]))
  }

  /** The opposite planar direction. */
  function Flip(d: Point): Point {
    Point(-d.x, -d.y)
  }

  /** The opposite direction field. */
  function Opposite(dir: Point -> Point): Point -> Point {
    p => Flip(dir(p))
  }

  /** The backward walk is the forward walk along the opposite direction. */
  lemma {:induction false} BackwardIsOppositeForward(stop: Point -> bool, dir: Point -> Point, w: Point, fuel: nat)
    ensures Walk(stop, dir, w, Backward, fuel) == Walk(stop, Opposite(dir), w, Forward, fuel)
    decreases fuel
  {
    if fuel > 0 {
      var next := Advance(w, dir(w), Backward);
      assert Advance(w, Opposite(dir)(w), Forward) == next;
      BackwardIsOppositeForward(stop, dir, next, fuel - 1);
    }
  }

  /**
   A larger step budget only extends a walk: the walk with `m` steps is a
   prefix of the walk with `n >= m` steps.
   */
  lemma {:induction false} WalkPrefix(stop: Point -> bool, dir: Point -> Point, w: Point, h: Heading, m: nat, n: nat)
    requires m <= n
    ensures var a := Walk(stop, dir, w, h, m);
      var b := Walk(stop, dir, w, h, n);
      |a| <= |b| && a == b[..|a|]
    decreases m
  {
    if m > 0 {
      var next := Advance(w, dir(w), h);
      if !stop(next) {
        var a' := Walk(stop, dir, next, h, m - 1);
        var b' := Walk(stop, dir, next, h, n - 1);
        assert Walk(stop, dir, w, h, m) == [next] + a';
        assert Walk(stop, dir, w, h, n) == [next] + b';
        WalkPrefix(stop, dir, next, h, m - 1, n - 1);
        assert ([next] + b')[..1 + |a'|] == [next] + b'[..|a'|];
      }
    }
  }

  /** A walk that stopped before its budget ran out is the same under every larger budget. */
  lemma {:induction false} WalkStopped(stop: Point -> bool, dir: Point -> Point, w: Point, h: Heading, m: nat, n: nat)
    requires m <= n
    requires |Walk(stop, dir, w, h, m)| < m
    ensures Walk(stop, dir, w, h, n) == Walk(stop, dir, w, h, m)
    decreases m
  {
    var next := Advance(w, dir(w), h);
    if !stop(next) {
      WalkStopped(stop, dir, next, h, m - 1, n - 1);
    }
  }

  /** Direction fields and stop tests that agree everywhere give the same walk. */
  lemma {:induction false} WalkCongruent(s1: Point -> bool, s2: Point -> bool, d1: Point -> Point, d2: Point -> Point,
                                         w: Point, h: Heading, fuel: nat)
    requires forall p :: d1(p) == d2(p)
    requires forall p :: s1(p) == s2(p)
    ensures Walk(s1, d1, w, h, fuel) == Walk(s2, d2, w, h, fuel)
    decreases fuel
  {
    if fuel > 0 {
      var next := Advance(w, d1(w), h);
      assert next == Advance(w, d2(w), h);
      WalkCongruent(s1, s2, d1, d2, next, h, fuel - 1);
    }
  }

  /** Reversing the magnitudes moves no charge, so every hit test answers the same. */
  lemma ReversedSameHits(sims: seq<Charge>, p: Point)
    ensures Stops(Reversed(sims), p) == Stops(sims, p)
  {
    var rs := Reversed(sims);
    assert forall k :: 0 <= k < |sims| ==> Clicked(rs[k], p.x, p.y) == Clicked(sims[k], p.x, p.y);
    if AnyClicked(sims, p.x, p.y) {
      var k :| 0 <= k < |sims| && Clicked(sims[k], p.x, p.y);
      assert Clicked(rs[k], p.x, p.y);
    }
    if AnyClicked(rs, p.x, p.y) {
      var k :| 0 <= k < |rs| && Clicked(rs[k], p.x, p.y);
      assert Clicked(sims[k], p.x, p.y);
    }
  }

  /** `inv` treats a vector and its opposite alike. */
  ghost predicate Even(inv: Vec3 -> real) {
    forall v :: inv(Neg(v)) == inv(v)
  }

  /** In the reversed configuration the step direction is the opposite one. */
  lemma ReversedDirection(sims: seq<Charge>, inv: Vec3 -> real, p: Point)
    requires Even(inv)
    ensures UnitField(Reversed(sims), inv, p) == Flip(UnitField(sims, inv, p))
  {
    var f := GetForce(sims, InPlane(p), inv);
    var g := GetForce(Reversed(sims), InPlane(p), inv);
    GetForceReversed(sims, InPlane(p), inv);
    OppositeUnit(f, g, inv);
  }

  /** The planar unit of the opposite vector is the opposite planar unit. */
  lemma OppositeUnit(f: Vec3, g: Vec3, inv: Vec3 -> real)
    requires Even(inv) && g == Neg(f)
    ensures Planar(Normalize(g, inv)) == Flip(Planar(Normalize(f, inv)))
  {
    assert inv(Neg(f)) == inv(f);
    NormalizeOpposite(f, inv);
  }

  /** The direction field of the reversed configuration is the opposite direction field. */
  lemma ReversedFieldDirection(sims: seq<Charge>, inv: Vec3 -> real)
    requires Even(inv)
    ensures forall p :: Opposite(FieldDirection(sims, inv))(p) == FieldDirection(Reversed(sims), inv)(p)
  {
    forall p ensures Opposite(FieldDirection(sims, inv))(p) == FieldDirection(Reversed(sims), inv)(p) {
      ReversedDirectionAt(sims, inv, p);
    }
  }

  /** `ReversedDirection` read through the direction fields. */
  lemma ReversedDirectionAt(sims: seq<Charge>, inv: Vec3 -> real, p: Point)
    requires Even(inv)
    ensures Opposite(FieldDirection(sims, inv))(p) == FieldDirection(Reversed(sims), inv)(p)
  {
    var d := UnitField(sims, inv, p);
    var rd := UnitField(Reversed(sims), inv, p);
    ReversedDirection(sims, inv, p);
    assert FieldDirection(sims, inv)(p) == d;
    assert FieldDirection(Reversed(sims), inv)(p) == rd;
  }

  /** The stop test of the reversed configuration is the stop test of the original one. */
  lemma ReversedStops(sims: seq<Charge>)
    ensures forall p :: Stops(sims, p) == Stops(Reversed(sims), p)
  {
    forall p ensures Stops(sims, p) == Stops(Reversed(sims), p) {
      ReversedSameHits(sims, p);
    }
  }

  /**
   Tracing backward through a configuration is tracing forward through the
   same configuration with every charge reversed, whenever the inverse
   length treats a vector and its opposite alike.
   */
  lemma BackwardIsForwardReversed(sims: seq<Charge>, inv: Vec3 -> real, seed: Point)
    requires Even(inv)
    ensures TraceFieldLine(sims, inv, seed).1 == TraceFieldLine(Reversed(sims), inv, seed).0
  {
    var dir := FieldDirection(sims, inv);
    var rdir := FieldDirection(Reversed(sims), inv);
    var stop := (p: Point) => Stops(sims, p);
    var rstop := (p: Point) => Stops(Reversed(sims), p);
    ReversedFieldDirection(sims, inv);
    ReversedStops(sims);
    BackwardIsOppositeForward(stop, dir, seed, MaxSteps);
    WalkCongruent(stop, rstop, Opposite(dir), rdir, seed, Forward, MaxSteps);
  }
}
