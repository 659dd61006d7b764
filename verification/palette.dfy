/** The charge palette shown in the menu bar (`InitMenu`). */
module Palette {
  import opened Geometry
  import opened Charges

  /** Number of palette charges: magnitudes -9 .. 9 without 0. */
  const PaletteSize: nat := 18

  /**
   The palette slot a menu position comes from: the loop runs over 19 slots
   and skips slot 9, where the magnitude would be 0.
   */
  function SlotOf(k: nat): nat {
    if k < 9 then k else k + 1
  }

  /** The magnitude of the k-th palette charge: -9 .. -1, then 1 .. 9. */
  function MagnitudeOf(k: nat): int {
    if k < 9 then k - 9 else k - 8
  }

  /**
   `InitMenu`: builds the palette. Slot `i` of the loop sits at
   `x = (i+1) * VIEWPORT_W / 20` (integer division), `y = MENU_H / 2`, and
   receives the running magnitude `j`, which starts at -9; the slot whose
   magnitude would be 0 is skipped.
   */
  method InitMenu() returns (menu: seq<Charge>)
    ensures |menu| == PaletteSize
    ensures AllWellFormed(menu)
    ensures forall k :: 0 <= k < |menu| ==>
      && menu[k].charge == MagnitudeOf(k)
      && menu[k].charge != 0
      && menu[k].x == (SlotOf(k) + 1) * 40
      && menu[k].y == MenuHeight / 2 == 25
    ensures forall k :: 0 <= k < |menu| ==> menu[k].x != 400
  {
    menu := [];
    var j := -9;
    var i := 0;
    while i < 19
      invariant 0 <= i <= 19
      invariant j == i - 9
      invariant |menu| == (if i <= 9 then i else i - 1)
      invariant AllWellFormed(menu)
      invariant forall k :: 0 <= k < |menu| ==>
        menu[k].charge == MagnitudeOf(k) && menu[k].x == (SlotOf(k) + 1) * 40 && menu[k].y == 25
    {
      if j == 0 {
        j := j + 1;
        i := i + 1;
        continue;
      }
      var c := NewCharge((i + 1) * ViewportWidth / 20, MenuHeight / 2, j);
      j := j + 1;
      menu := menu + [c];
      i := i + 1;
    }
  }
}
