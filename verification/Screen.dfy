/** Panes and rectangles of the screen, shared by the layout and the graphics. */
module Screen {
  type PaneId = nat

  const U16_MAX: nat := 0xFFFF

  datatype Rect = Rect(x: nat, y: nat, width: nat, height: nat)

  /** The right and bottom edges are u16 values. */
  predicate EdgesFit(r: Rect) {
    r.x + r.width <= U16_MAX && r.y + r.height <= U16_MAX
  }

  function Min(a: int, b: int): int {
    if a < b then a else b
  }

  function Max(a: int, b: int): int {
    if a < b then b else a
  }
}
