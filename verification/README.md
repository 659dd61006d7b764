# Point-charge field simulator: a Dafny model

This project models the computational core of a small interactive
electrostatics demo, written in C++ on GLUT and CHAI3D. The user places
signed point charges from a palette, drags them around a 2-D simulation
window, and clicks empty spots to draw field lines. The model covers:

- **Charges and hit tests** (`charges.dfy`). A `CPointCharge` has integer
  window coordinates, a vector copy `pos`, and a signed magnitude. `Clicked`
  holds when a point lies within the fixed radius 10. `CheckMenuClick` and
  `CheckSimClick` are first-match linear searches that return an index or
  `None`.
- **The palette** (`palette.dfy`). `InitMenu` builds 18 charges with
  magnitudes -9..-1 and 1..9 in the menu bar.
- **The field evaluator** (`field.dfy`). `GetForce` adds up one
  inverse-square term per simulation charge, using a squared-distance floor
  of 225 and a scale of 1000. It then adds the restoring term `(0, 0, -z)`
  and clamps x and y to [-4, 4] and z to [-10, 10].
- **The field-line tracer** (`tracer.dfy`). These are the two fixed-step
  explicit Euler walks of `DrawFieldLine`. Each walk is capped at 1000
  steps. It stops after a step that leaves the simulation area or lands on
  a simulation charge.
- **The session state machine** (`session.dfy`). The `Mouse` callback (left
  press and release) and the `Dragging` motion callback act on the
  program's globals: simulation charges, palette, field-line seeds, the
  selected charge, `enableDragging`, and whether the motion callback is
  registered.

Coordinates and force components are `real`, so float rounding is not
modelled. The square root inside `cVector3d::normalize` is left abstract.
`Normalize(a, inv)` scales `a` by `inv(a)`, where `inv` is a caller-supplied
inverse-length function. Properties that need the true inverse length
assume it through `ExactAt(inv, a)`. A property that needs `inv` to give
the same value for a vector and its opposite assumes it through `Even(inv)`.
Pointers to charges become indices into the ordered charge lists. The
tracer is fuel-bounded recursion over an abstract direction function, and
the drawing calls become the returned polylines.

Three behaviours of the program at its edges, and how the model treats them:

- **Query point exactly on a charge.** There the displacement is the zero
  vector. The program normalises it, and 0/0 makes every component a
  non-number. The `> 4` and `< -4` guards of the clamp (main.cpp:299-304)
  let a non-number through. The model's `Normalize` maps the zero vector to
  zero, so such a charge adds nothing (`Field.ContributionAtCharge`). The
  `GetForce` bounds and `GetForceNormal` therefore hold at that point only
  in the model.
- **A dipole exactly at the limit.** Take +5 at (100,100) and -5 at
  (200,100), queried at (150,100). Before clamping, the force there has x
  exactly 4, which the `> 4` guard leaves unchanged. `DipoleMidpoint`
  proves the general shape: a symmetric opposite pair gives twice one
  term.
- **Zero field while tracing.** The tracer has no test for a zero field.
  With the model's `Normalize` such a step does not move the point, and the
  walk goes on until its step budget runs out.

## Model

| member | source | states |
|---|---|---|
| Charges.NewCharge | main.cpp:109-115 | a new charge has the given position and magnitude, and its vector copy sits at that position in the plane z = 0 |
| Charges.Clicked | main.cpp:182-188 | defined as: the squared distance from the charge's integer position to the point is at most 100, the square of the radius 10 (tied to the program's square-root test by `ClickedIffDistance`) |
| Charges.ClickedIffDistance | main.cpp:182-199 | for any nonnegative square root `s` of the squared distance, the click test holds exactly when `s <= 10`, so comparing squared distance with 100 is the program's test |
| Charges.FirstHit | main.cpp:204-235 | the shared first-match search returns the lowest index whose charge is under the point, and `None` exactly when no charge is |
| Charges.CheckSimClick | main.cpp:222-235 | returns the first simulation charge under the point, in list order; `None` iff none is under it |
| Charges.CheckMenuClick | main.cpp:204-217 | the same first-match contract over the palette, at integer click coordinates |
| Charges.FirstHitAppend | main.cpp:222-235 | appending a charge never changes an earlier hit; with no earlier hit the new charge is found exactly when it is under the point |
| Palette.InitMenu | main.cpp:606-619 | the palette has 18 well-formed charges: magnitudes -9..-1 then 1..9 (never 0), at `x = (slot+1)*40` skipping slot 9 (x = 400), all at `y = 25` |
| Field.Contribution | main.cpp:277-292 | defined as: the unit displacement from the charge, scaled by the magnitude over the floored squared distance, then by 1000 (its properties are stated by `ContributionMagnitude`, `ContributionAlong`, `ContributionDirection`, `ContributionSign` and `ContributionAtCharge`) |
| Field.FieldSum | main.cpp:268-293 | defined as: the zero vector for no charges, otherwise the sum over all charges but the last plus the last one's term, the order in which the loop accumulates (partnered by `Superposition`) |
| Field.RawForce | main.cpp:296 | defined as: the accumulated field plus the restoring term `(0, 0, -z)`, before clamping (its z component is stated by `GetForceNormal`) |
| Field.FlooredDistanceSq | main.cpp:281-282 | the floored squared distance is the larger of the true one and 225: exactly 225 at or below the floor, the true one above it |
| Field.ClampForce | main.cpp:298-304 | every component lands in its limits; one within them passes through unchanged and one beyond saturates at the nearer limit |
| Field.ClampForceOdd | main.cpp:298-304 | the clamp commutes with negation |
| Field.GetForce | main.cpp:266-307 | for every charge list and query point, x and y of the force lie in [-4, 4] and z in [-10, 10] |
| Field.GetForceInPlane | main.cpp:278-304 | for well-formed charges, the force at a query point in the plane has no out-of-plane part |
| Field.GetForceNormal | main.cpp:278-304 | for well-formed charges the z component is exactly `-z` clamped to [-10, 10]; the charges add nothing out of the plane |
| Field.FieldSumInPlane | main.cpp:278-292 | charges whose positions have z = 0 contribute a sum with z = 0 |
| Field.GetForceEmpty | main.cpp:268-304 | with no simulation charges the force is `(0, 0, clamp(-z))` |
| Field.Superposition | main.cpp:268-293 | the accumulated field of a concatenated list is the sum of the two lists' fields |
| Field.RotationInvariant | main.cpp:268-293 | moving the last charge to the front of the list leaves the field unchanged |
| Field.ContributionMagnitude | main.cpp:277-292 | where the inverse length is exact, one charge's term has length `1000 * abs(m) / rr`, never more than `1000 * abs(m) / 225` |
| Field.ContributionSign | main.cpp:277-292 | a positive charge's term has a nonnegative projection on the displacement from the charge and a negative one's a nonpositive projection; a zero charge contributes nothing |
| Field.ContributionAlong | main.cpp:277-292 | one charge's term is the displacement scaled by `1000 * inv(r) * charge / rr` |
| Field.ContributionDirection | main.cpp:277-292 | a positive charge's term is a nonnegative multiple of the displacement (pointing away from the charge) and a negative one's a nonpositive multiple (pointing towards it) |
| Field.ContributionAtCharge | main.cpp:277-292 | at a query point exactly on the charge, the charge adds nothing in the model |
| Field.GetForceReversed | main.cpp:266-307 | in the plane, reversing every magnitude reverses the force |
| Field.DipoleMidpoint | main.cpp:268-293 | two opposite charges placed symmetrically about the query point give twice the term of one of them |
| Geometry.NormalizeIsUnit | main.cpp:286 | normalising with the exact inverse length gives a unit vector |
| Geometry.ClampIsNearest | main.cpp:298-304 | a component clamp returns the point of the interval nearest the input |
| Tracer.OutOfView | main.cpp:406-407 | defined as: x below 0 or above 800, or y below 50 or above 600 |
| Tracer.Stops | main.cpp:406-408 | defined as: the point is out of view or some simulation charge is under it (the walk's stop test, stated by `WalkEnds`) |
| Tracer.UnitField | main.cpp:400-401 | defined as: the planar part of the normalised force at the point lifted into the plane (unit length by `UnitStep`) |
| Tracer.Walk | main.cpp:398-409 | a walk appends at most `fuel` points, and at least one when any step is allowed |
| Tracer.WalkSteps | main.cpp:398-433 | each point of a walk is the previous point (the seed for the first) advanced by the direction there, added forward and subtracted backward |
| Tracer.WalkEnds | main.cpp:398-433 | no point before the last one satisfies the stop test, and a walk shorter than its budget ends at a point that does |
| Tracer.FieldLine | main.cpp:392-410 | a polyline holds the seed and then 1 to 1000 walked points |
| Tracer.FieldLineShape | main.cpp:392-434 | consecutive polyline points are one Euler step apart; no point after the seed except the last is out of view or on a charge; a polyline shorter than 1001 points ends at such a point |
| Tracer.UnitStep | main.cpp:400-402 | with well-formed charges and an exact inverse length, every step moves the point by exactly one unit |
| Tracer.TraceFieldLine | main.cpp:378-433 | both polylines of one seed start at the seed and hold 2 to 1001 points |
| Tracer.TraceAll | main.cpp:375-435 | one pair of polylines per recorded seed, in order, each starting at its seed |
| Tracer.BackwardIsOppositeForward | main.cpp:422-428 | the backward walk is the forward walk along the negated direction |
| Tracer.WalkPrefix | main.cpp:398 | a walk with a smaller step budget is a prefix of the walk with a larger one |
| Tracer.WalkStopped | main.cpp:404-409 | a walk that stopped before its budget ran out is unchanged by any larger budget |
| Tracer.WalkCongruent | main.cpp:398-409 | walks depend only on the values of the direction and stop functions |
| Tracer.BackwardIsForwardReversed | main.cpp:373-436 | the backward polyline through a configuration is the forward polyline through the same configuration with every magnitude reversed |
| Session.Start | main.cpp:730-734 | the initial state satisfies the invariant: no simulation charges, no seeds, no selection, not dragging, the 18-charge palette |
| Session.Clone | main.cpp:529 | the copy of a palette charge is well formed and has the palette charge's position and magnitude |
| Session.MouseDown | main.cpp:521-557 | a press leaves the palette alone and adds a simulation charge (the clone, at the end) exactly when a palette charge is under the point |
| Session.MouseDownOnPalette | main.cpp:524-551 | a press on a palette charge appends exactly one clone with its position and magnitude, always starts a drag and records no seed; the selection is the clone iff no older simulation charge is under the point |
| Session.MouseDownOnCharge | main.cpp:538-551 | a press on a simulation charge, away from the palette, selects the first one under the point, enables dragging and changes nothing else |
| Session.MouseDownOnEmpty | main.cpp:553-556 | a press on no charge appends exactly the seed `(x, y)` and changes nothing else |
| Session.MouseUp | main.cpp:559-571 | a release disables dragging and, when a drag was on, unregisters the motion callback; otherwise it changes nothing |
| Session.Mouse | main.cpp:511-577 | the palette is never changed and simulation charges are only appended; a left press at window `(x, y)` adds a charge exactly when a palette charge is under `(x, 600 - y)`; a left release disables dragging, unregisters the motion callback when a drag was on and otherwise changes nothing; other buttons change nothing |
| Session.MousePressOnEmpty | main.cpp:514-556 | a left press at window `(x, y)` with no charge under `(x, 600 - y)` appends exactly the seed `(x, 600 - y)` and changes nothing else |
| Session.MousePressOnCharge | main.cpp:514-551 | a left press at window `(x, y)` on a simulation charge, away from the palette, selects the first charge under `(x, 600 - y)`, starts a drag and changes nothing else |
| Session.MousePressOnPalette | main.cpp:514-551 | a left press at window `(x, y)` on a palette charge appends one clone of the first palette charge under `(x, 600 - y)`, starts a drag and records no seed |
| Session.Dragging | main.cpp:624-629 | only the selected charge moves; it keeps its magnitude and well-formedness, and lands under the cursor at `(x, 600 - y)` |
| Session.Motion | main.cpp:624-629 | a cursor move changes nothing unless the motion callback is registered |
| Session.MouseDownValid | main.cpp:521-557 | a press keeps the invariant; in particular the motion callback is registered exactly while dragging is enabled |
| Session.StepValid | main.cpp:511-577 | every callback keeps the invariant |
| Session.StepKeeps | main.cpp:511-577 | one event keeps the magnitude of every existing charge and the recorded seeds |
| Session.Run | main.cpp:511-577 | any sequence of events from a valid state ends in a valid state |
| Session.RunGrows | main.cpp:511-577 | over any run the palette is unchanged, charges are only added, no magnitude changes, and seeds are only appended |

## Left out

- Rendering and window plumbing are left out: `Draw`, `DrawChar`, `DrawSimCharges`, `DrawMenuCharges`, `DrawMenu`, `DrawArrow`, `DrawHapticDevice`, `Reshape`, `Idle`, `Display`, `MyInit`'s GL state and `main`. They are side effects with no result to state.
- `DrawFieldVectors` is left out. It only draws arrows, and its skip test reuses `CheckSimClick`, which is modelled.
- The haptics side is left out: `hapticsLoop`, `GetDevicePos`, the timer and `applyForces`. These are device calls on a separate real-time thread.
- `Kbd` is left out. It only toggles display flags.
- Floating-point rounding is not modelled; all arithmetic is over `real`.
- The `int` coordinates of the callbacks are unbounded, because the window system bounds them.
- Geometry.Normalize: the square root is abstract, passed in as the inverse-length function. A zero vector normalises to zero, where the program would produce a non-number. Unit length is proved only where the inverse length is exact.
- Field.GetForce: at a query point exactly on a charge the program's result holds non-numbers, which the clamp lets through. Its bounds, and `GetForceNormal`, hold at that point only in the model, where the zero displacement normalises to zero.
- Charges.Clicked: states the test on squared distances. `ClickedIffDistance` ties it to the square-root comparison the program makes.
- Tracer.Walk: its own contract states only the length bounds, so that proofs about walks stay cheap. `WalkSteps` and `WalkEnds` state the Euler steps and the stop condition. The step cap is the `fuel` argument, 1000 for a field line. The colour ramp and the GL vertices are not modelled.
- The motion callback's registration is modelled as the `tracking` flag. `Dragging` runs as a motion event exactly while it is set.
