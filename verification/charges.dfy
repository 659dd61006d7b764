/**
 Point charges and the hit tests over ordered charge lists
 (`CPointCharge`, `CheckMenuClick`, `CheckSimClick`).
 */
module Charges {
  import opened Geometry
  import opened Optional

  /** `MENU_H`, `VIEWPORT_W`, `VIEWPORT_H` and `CHARGE_RAD`. */
  const MenuHeight: int := 50
  const ViewportWidth: int := 800
  const ViewportHeight: int := 600
  const ChargeRadius: int := 10

  /**
   A `CPointCharge`: integer window coordinates `x`, `y` (`m_x`, `m_y`), the
   vector copy `pos` the field evaluator reads, and the signed magnitude.
   Every charge's radius is `ChargeRadius`: the constructor sets it and
   nothing writes it afterwards, so it is not stored.
   */
  datatype Charge = Charge(x: int, y: int, pos: Vec3, charge: int)

  /** The constructor's invariant: `pos` mirrors the integer coordinates, in plane. */
  ghost predicate WellFormed(c: Charge) {
    c.pos == Vec3(c.x as real, c.y as real, 0.0)
  }

  ghost predicate AllWellFormed(cs: seq<Charge>) {
    forall k :: 0 <= k < |cs| ==> WellFormed(cs[k])
  }

  /** `CPointCharge::CPointCharge(x, y, charge)`. */
  function NewCharge(x: int, y: int, q: int): (c: Charge)
    ensures WellFormed(c)
    ensures c.x == x && c.y == y && c.charge == q
  {
    Charge(x, y, Vec3(x as real, y as real, 0.0), q)
  }

  /** The square of `CPointCharge::Distance(x, y)`. */
  function DistanceSq(c: Charge, x: real, y: real): real {
    var dx := c.x as real - x;
    var dy := c.y as real - y;
    dx * dx + dy * dy
  }

  /**
   `CPointCharge::Clicked(x, y)`: the point is within the charge's radius.
   The program compares the square root of the squared distance with the
   radius; since the radius is nonnegative this is the comparison of the
   squared distance with the squared radius (see `ClickedIffDistance`).
   */
  predicate Clicked(c: Charge, x: real, y: real) {
    DistanceSq(c, x, y) <= (ChargeRadius * ChargeRadius) as real
  }

  /** For every nonnegative square root `s` of the squared distance, `Clicked` is `s <= 10`. */
  lemma ClickedIffDistance(c: Charge, x: real, y: real, s: real)
    requires s >= 0.0 && s * s == DistanceSq(c, x, y)
    ensures Clicked(c, x, y) <==> s <= ChargeRadius as real
  {
    if s > 10.0 {
      assert s * s > 10.0 * 10.0 by {
        assert s * s - 100.0 == (s - 10.0) * (s + 10.0);
      }
    } else {
      assert s * s <= 10.0 * s <= 100.0;
    }
  }

  /** Some charge of `cs` is under the point. */
  ghost predicate AnyClicked(cs: seq<Charge>, x: real, y: real) {
    exists k :: 0 <= k < |cs| && Clicked(cs[k], x, y)
  }

  /**
   The loop shared by `CheckMenuClick` and `CheckSimClick`, from position
   `from` on: the first charge in list order under the point, by index, or
   `None` (the program's `NULL`) when there is none.
   */
  function FirstHitFrom(cs: seq<Charge>, x: real, y: real, from: nat): (r: Option<nat>)
    requires from <= |cs|
    ensures r.Some? ==> from <= r.value < |cs| && Clicked(cs[r.value], x, y)
    ensures r.Some? ==> forall j :: from <= j < r.value ==> !Clicked(cs[j], x, y)
    ensures r.None? <==> forall j :: from <= j < |cs| ==> !Clicked(cs[j], x, y)
    decreases |cs| - from
  {
    if from == |cs| then None
    else if Clicked(cs[from], x, y) then Some(from)
    else FirstHitFrom(cs, x, y, from + 1)
  }

  /** The first charge of `cs` under the point, if any. */
  function FirstHit(cs: seq<Charge>, x: real, y: real): (r: Option<nat>)
    ensures r.Some? ==> r.value < |cs| && Clicked(cs[r.value], x, y)
    ensures r.Some? ==> forall j :: 0 <= j < r.value ==> !Clicked(cs[j], x, y)
    ensures r.None? <==> !AnyClicked(cs, x, y)
  {
    FirstHitFrom(cs, x, y, 0)
  }

  /** `CheckSimClick(x, y)` over the simulation charges. */
  function CheckSimClick(sims: seq<Charge>, x: real, y: real): (r: Option<nat>)
    ensures r.Some? ==> r.value < |sims| && Clicked(sims[r.value], x, y)
    ensures r.Some? ==> forall j :: 0 <= j < r.value ==> !Clicked(sims[j], x, y)
    ensures r.None? <==> !AnyClicked(sims, x, y)
  {
    FirstHit(sims, x, y)
  }

  /** `CheckMenuClick(x, y)` over the palette; its click coordinates are integers. */
  function CheckMenuClick(menu: seq<Charge>, x: int, y: int): (r: Option<nat>)
    ensures r.Some? ==> r.value < |menu| && Clicked(menu[r.value], x as real, y as real)
    ensures r.Some? ==> forall j :: 0 <= j < r.value ==> !Clicked(menu[j], x as real, y as real)
    ensures r.None? <==> !AnyClicked(menu, x as real, y as real)
  {
    FirstHit(menu, x as real, y as real)
  }

  /**
   Appending a charge never changes a hit found earlier in the list, and
   when the list had none the new charge is found exactly when it is hit.
   */
  lemma {:induction false} FirstHitAppend(cs: seq<Charge>, c: Charge, x: real, y: real)
    ensures FirstHit(cs, x, y).Some? ==> FirstHit(cs + [c], x, y) == FirstHit(cs, x, y)
    ensures FirstHit(cs, x, y).None? ==>
      FirstHit(cs + [c], x, y) == (if Clicked(c, x, y) then Some(|cs|) else None)
  {
    var ds := cs + [c];
    assert forall j :: 0 <= j < |cs| ==> ds[j] == cs[j];
    if FirstHit(cs, x, y).Some? {
      assert Clicked(ds[FirstHit(cs, x, y).value], x, y);
    } else if Clicked(c, x, y) {
      assert Clicked(ds[|cs|], x, y);
    }
  }
}
