/**
 The interactive state of the simulator and the mouse callbacks that change
 it (`Mouse`, `Dragging`): placing charges from the palette, selecting and
 dragging simulation charges, and recording field-line seeds.
 */
module Session {
  import opened Geometry
  import opened Optional
  import opened Charges
  import opened Palette

  /** The mouse buttons GLUT reports; only the left one does anything. */
  datatype Button = LeftButton | MiddleButton | RightButton

  datatype ButtonState = Down | Up

  /**
   The program's globals that the callbacks read and write:
   `m_simcharges`, `m_menucharges`, `m_fieldlines` (the seeds, in window
   coordinates), `selectedCharge` as an index into `sims`, `enableDragging`,
   and whether `Dragging` is registered as the motion callback (`tracking`).
   */
  datatype Session = Session(
    sims: seq<Charge>,
    menu: seq<Charge>,
    seeds: seq<Point>,
    selected: Option<nat>,
    dragging: bool,
    tracking: bool)

  /**
   The invariant the callbacks keep: the selection names a simulation
   charge, the motion callback is registered exactly while dragging is
   enabled and only with a selection, and every charge is well formed.
   */
  ghost predicate Valid(s: Session) {
    && (s.selected.Some? ==> s.selected.value < |s.sims|)
    && s.tracking == s.dragging
    && (s.tracking ==> s.selected.Some?)
    && AllWellFormed(s.sims)
    && AllWellFormed(s.menu)
  }

  /** The state after `MyInit` and `InitMenu`: no simulation charges, no seeds, nothing selected. */
  method Start() returns (s: Session)
    ensures Valid(s)
    ensures s.sims == [] && s.seeds == [] && s.selected == None && !s.dragging
    ensures |s.menu| == PaletteSize
    ensures forall k :: 0 <= k < |s.menu| ==> s.menu[k].charge == MagnitudeOf(k)
  {
    var menu := InitMenu();
    s := Session([], menu, [], None, false, false);
  }

  /** A copy of a palette charge, at the palette charge's position. */
  function Clone(m: Charge): (d: Charge)
    ensures WellFormed(d)
    ensures d.x == m.x && d.y == m.y && d.charge == m.charge
  {
    NewCharge(m.x, m.y, m.charge)
  }

  /** A charge at the same position is under every point the original is under. */
  lemma SamePlaceSameHits(c: Charge, d: Charge, x: real, y: real)
    requires c.x == d.x && c.y == d.y
    ensures Clicked(c, x, y) == Clicked(d, x, y)
  {
  }

  /**
   A left-button press at `(x, y)`, with `y` already flipped to the
   bottom-up convention. A palette charge under the point is cloned onto the
   end of the simulation list, selected, and the motion callback registered.
   Then the first simulation charge under the point, if any, is selected and
   dragging enabled; otherwise the point is recorded as a field-line seed.
   */
  function MouseDown(s: Session, x: int, y: int): (r: Session)
    ensures r.menu == s.menu
    ensures |s.sims| <= |r.sims| <= |s.sims| + 1 && r.sims[..|s.sims|] == s.sims
    ensures |r.sims| == |s.sims| + 1 <==> AnyClicked(s.menu, x as real, y as real)
  {
    var placed := match CheckMenuClick(s.menu, x, y)
      case Some(m) => s.(sims := s.sims + [Clone(s.menu[m])], selected := Some(|s.sims|), tracking := true)
      case None => s;
    match CheckSimClick(placed.sims, x as real, y as real)
    case Some(k) => placed.(selected := Some(k), dragging := true, tracking := true)
    case None => placed.(seeds := placed.seeds + [Point(x as real, y as real)])
  }

  /**
   Pressing on a palette charge always starts a drag and never records a
   seed: the clone lies under the point, so the simulation hit test finds a
   charge. The charge selected is the clone exactly when no older simulation
   charge is under the point; otherwise it is the first such older charge.
   */
  lemma MouseDownOnPalette(s: Session, x: int, y: int)
    requires AnyClicked(s.menu, x as real, y as real)
    ensures var r := MouseDown(s, x, y);
      && r.dragging && r.tracking && r.seeds == s.seeds
      && |r.sims| == |s.sims| + 1
      && r.sims[|s.sims|] == Clone(s.menu[CheckMenuClick(s.menu, x, y).value])
      && r.selected.Some? && r.selected.value < |r.sims| && Clicked(r.sims[r.selected.value], x as real, y as real)
      && (r.selected == Some(|s.sims|) <==> !AnyClicked(s.sims, x as real, y as real))
      && (AnyClicked(s.sims, x as real, y as real) ==> r.selected == CheckSimClick(s.sims, x as real, y as real))
  {
    var m := CheckMenuClick(s.menu, x, y).value;
    var d := Clone(s.menu[m]);
    SamePlaceSameHits(s.menu[m], d, x as real, y as real);
    FirstHitAppend(s.sims, d, x as real, y as real);
  }

  /** Pressing on a simulation charge, away from the palette, selects the first one under the point and starts a drag. */
  lemma MouseDownOnCharge(s: Session, x: int, y: int)
    requires !AnyClicked(s.menu, x as real, y as real)
    requires AnyClicked(s.sims, x as real, y as real)
    ensures var r := MouseDown(s, x, y);
      && r == s.(selected := r.selected, dragging := true, tracking := true)
      && r.selected.Some? && r.selected.value < |s.sims|
      && Clicked(s.sims[r.selected.value], x as real, y as real)
      && forall j :: 0 <= j < r.selected.value ==> !Clicked(s.sims[j], x as real, y as real)
  {
  }

  /** Pressing where there is no charge records the point as a seed and changes nothing else. */
  lemma MouseDownOnEmpty(s: Session, x: int, y: int)
    requires !AnyClicked(s.menu, x as real, y as real)
    requires !AnyClicked(s.sims, x as real, y as real)
    ensures MouseDown(s, x, y) == s.(seeds := s.seeds + [Point(x as real, y as real)])
  {
  }

  /**
   Releasing the left button ends a drag and unregisters the motion
   callback; when no drag was enabled it does nothing.
   */
  function MouseUp(s: Session): (r: Session)
    ensures !r.dragging
    ensures s.dragging ==> !r.tracking
    ensures r.sims == s.sims && r.menu == s.menu && r.seeds == s.seeds && r.selected == s.selected
    ensures !s.dragging ==> r == s
  {
    if s.dragging then s.(dragging := false, tracking := false) else s
  }

  /**
   `Mouse(button, state, x, y)`: flips `y` from GLUT's top-down window
   coordinates to the bottom-up ones, then handles a left press or release;
   other buttons change nothing.
   */
  function Mouse(s: Session, button: Button, state: ButtonState, x: int, y: int): (r: Session)
    ensures r.menu == s.menu
    ensures |s.sims| <= |r.sims| && r.sims[..|s.sims|] == s.sims
    ensures button != LeftButton ==> r == s
    ensures button == LeftButton && state == Down ==>
      (|r.sims| == |s.sims| + 1 <==> AnyClicked(s.menu, x as real, (ViewportHeight - y) as real))
    ensures button == LeftButton && state == Up ==>
      && !r.dragging && (s.dragging ==> !r.tracking) && (!s.dragging ==> r == s)
      && r.sims == s.sims && r.seeds == s.seeds && r.selected == s.selected
  {
    var y' := ViewportHeight - y;
    match button
    case LeftButton =>
      (match state
       case Down => MouseDown(s, x, y')
       case Up => MouseUp(s))
    case _ => s
  }

  /**
   A left press at window position `(x, y)` on no charge records exactly the
   seed `(x, 600 - y)`, in the bottom-up coordinates the tracer uses, and
   changes nothing else.
   */
  lemma MousePressOnEmpty(s: Session, x: int, y: int)
    requires !AnyClicked(s.menu, x as real, (ViewportHeight - y) as real)
    requires !AnyClicked(s.sims, x as real, (ViewportHeight - y) as real)
    ensures Mouse(s, LeftButton, Down, x, y) == s.(seeds := s.seeds + [Point(x as real, (ViewportHeight - y) as real)])
  {
    MouseDownOnEmpty(s, x, ViewportHeight - y);
  }

  /**
   A left press at window position `(x, y)` on a simulation charge, away
   from the palette, selects the first charge under `(x, 600 - y)` and starts
   a drag, changing nothing else.
   */
  lemma MousePressOnCharge(s: Session, x: int, y: int)
    requires !AnyClicked(s.menu, x as real, (ViewportHeight - y) as real)
    requires AnyClicked(s.sims, x as real, (ViewportHeight - y) as real)
    ensures var r := Mouse(s, LeftButton, Down, x, y);
      && r == s.(selected := r.selected, dragging := true, tracking := true)
      && r.selected == CheckSimClick(s.sims, x as real, (ViewportHeight - y) as real)
  {
    MouseDownOnCharge(s, x, ViewportHeight - y);
  }

  /**
   A left press at window position `(x, y)` on a palette charge appends one
   clone of the first palette charge under `(x, 600 - y)`, starts a drag, and
   records no seed.
   */
  lemma MousePressOnPalette(s: Session, x: int, y: int)
    requires AnyClicked(s.menu, x as real, (ViewportHeight - y) as real)
    ensures var r := Mouse(s, LeftButton, Down, x, y);
      && r.dragging && r.tracking && r.seeds == s.seeds
      && r.sims == s.sims + [Clone(s.menu[CheckMenuClick(s.menu, x, ViewportHeight - y).value])]
  {
    var r := MouseDown(s, x, ViewportHeight - y);
    MouseDownOnPalette(s, x, ViewportHeight - y);
    assert r.sims == r.sims[..|s.sims|] + [r.sims[|s.sims|]];
  }

  /**
   `Dragging(x, y)`: moves the selected charge, both its integer position
   and its vector copy, to the cursor, with `y` flipped. The charge ends up
   under the cursor, keeps its magnitude, and no other charge moves.
   */
  function Dragging(s: Session, x: int, y: int): (r: Session)
    requires s.selected.Some? && s.selected.value < |s.sims|
    ensures r == s.(sims := r.sims)
    ensures |r.sims| == |s.sims|
    ensures forall j :: 0 <= j < |s.sims| && j != s.selected.value ==> r.sims[j] == s.sims[j]
    ensures var c := r.sims[s.selected.value];
      && c.charge == s.sims[s.selected.value].charge
      && c.x == x && c.y == ViewportHeight - y
      && Clicked(c, x as real, (ViewportHeight - y) as real)
      && (WellFormed(s.sims[s.selected.value]) ==> WellFormed(c))
  {
    var k := s.selected.value;
    var c := s.sims[k];
    var y' := ViewportHeight - y;
    var moved := c.(x := x, y := y', pos := c.pos.(x := x as real, y := y' as real));
    s.(sims := s.sims[k := moved])
  }

  /** A cursor move: the registered motion callback runs, if there is one. */
  function Motion(s: Session, x: int, y: int): (r: Session)
    requires s.tracking ==> s.selected.Some? && s.selected.value < |s.sims|
    ensures |r.sims| == |s.sims| && r.menu == s.menu && r.seeds == s.seeds
    ensures !s.tracking ==> r == s
  {
    if s.tracking then Dragging(s, x, y) else s
  }

  /** One window-system event delivered to the callbacks. */
  datatype Event = Press(button: Button, state: ButtonState, x: int, y: int) | Move(x: int, y: int)

  /** Delivers one event. */
  function Step(s: Session, e: Event): (r: Session)
    requires s.tracking ==> s.selected.Some? && s.selected.value < |s.sims|
    ensures r.menu == s.menu
    ensures |s.sims| <= |r.sims|
  {
    match e
    case Press(b, st, x, y) => Mouse(s, b, st, x, y)
    case Move(x, y) => Motion(s, x, y)
  }

  /** Every callback keeps the invariant. */
  lemma StepValid(s: Session, e: Event)
    requires Valid(s)
    ensures Valid(Step(s, e))
  {
    match e
    case Press(b, st, x, y) =>
      if b == LeftButton && st == Down {
        var y' := ViewportHeight - y;
        MouseDownValid(s, x, y');
      }
    case Move(x, y) =>
      if s.tracking {
        var r := Dragging(s, x, y);
        assert forall j :: 0 <= j < |r.sims| ==> WellFormed(r.sims[j]) by {
          forall j | 0 <= j < |r.sims| ensures WellFormed(r.sims[j]) {
            if j != s.selected.value {
              assert r.sims[j] == s.sims[j];
            }
          }
        }
      }
  }

  /** A press keeps the invariant: in particular a palette press ends up dragging, as it registered the callback. */
  lemma MouseDownValid(s: Session, x: int, y: int)
    requires Valid(s)
    ensures Valid(MouseDown(s, x, y))
  {
    var r := MouseDown(s, x, y);
    if AnyClicked(s.menu, x as real, y as real) {
      MouseDownOnPalette(s, x, y);
      var d := Clone(s.menu[CheckMenuClick(s.menu, x, y).value]);
      assert r.sims == s.sims + [d];
    } else if AnyClicked(s.sims, x as real, y as real) {
      MouseDownOnCharge(s, x, y);
    } else {
      MouseDownOnEmpty(s, x, y);
    }
  }

  /** Delivers the events in order. */
  function Run(s: Session, es: seq<Event>): (r: Session)
    requires Valid(s)
    ensures Valid(r)
    decreases |es|
  {
    if es == [] then s
    else
      StepValid(s, es[0]);
      Run(Step(s, es[0]), es[1..])
  }

  /**
   Over any run the palette is untouched, charges are only added (at the
   end), no charge changes its magnitude, and seeds are only appended.
   */
  lemma {:induction false} RunGrows(s: Session, es: seq<Event>)
    requires Valid(s)
    ensures var r := Run(s, es);
      && r.menu == s.menu
      && |s.sims| <= |r.sims|
      && (forall j :: 0 <= j < |s.sims| ==> r.sims[j].charge == s.sims[j].charge)
      && |s.seeds| <= |r.seeds| && r.seeds[..|s.seeds|] == s.seeds
    decreases |es|
  {
    if es != [] {
      StepValid(s, es[0]);
      var t := Step(s, es[0]);
      StepKeeps(s, es[0]);
      RunGrows(t, es[1..]);
    }
  }

  /** One event keeps the palette, the magnitudes of existing charges and the recorded seeds. */
  lemma StepKeeps(s: Session, e: Event)
    requires Valid(s)
    ensures var r := Step(s, e);
      && (forall j :: 0 <= j < |s.sims| ==> r.sims[j].charge == s.sims[j].charge)
      && |s.seeds| <= |r.seeds| && r.seeds[..|s.seeds|] == s.seeds
  {
    var r := Step(s, e);
    match e
    case Press(b, st, x, y) =>
      assert forall j :: 0 <= j < |s.sims| ==> r.sims[j] == r.sims[..|s.sims|][j];
    case Move(x, y) =>
  }
}
