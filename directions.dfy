/** The four headings of the snake and the unit move on the grid that each
    of them stands for (the `Direction` enum and namespace of Gameplay.ts). */
module Directions {

  /** A grid cell; x grows to the right, y grows downwards. */
  datatype Point = Point(x: int, y: int)

  datatype Direction = Up | Down | Left | Right

  /** The opposite heading. Going one cell in `d` and then one cell in
      `Reverse(d)` is a round trip, and no heading is its own opposite. */
  function Reverse(d: Direction): (r: Direction)
    ensures r != d
    ensures forall p: Point {:trigger DirectionStep(p, d)} :: DirectionStep(DirectionStep(p, d), r) == p
  {
    if d == Up then Down
    else if d == Down then Up
    else if d == Left then Right
    else Left
  }

  /** The neighbouring cell of `p` in heading `d`: exactly one coordinate
      changes, and by exactly one. */
  function DirectionStep(p: Point, d: Direction): (r: Point)
    ensures (r.x == p.x && (r.y == p.y + 1 || r.y == p.y - 1))
         || (r.y == p.y && (r.x == p.x + 1 || r.x == p.x - 1))
  {
    if d == Left then Point(p.x - 1, p.y)
    else if d == Right then Point(p.x + 1, p.y)
    else if d == Up then Point(p.x, p.y - 1)
    else Point(p.x, p.y + 1)
  }

  lemma ReverseIsInvolution(d: Direction)
    ensures Reverse(Reverse(d)) == d
  {
  }

  /** Different headings lead from one cell to different neighbours. */
  lemma DirectionStepInjective(p: Point, d: Direction, e: Direction)
    requires DirectionStep(p, d) == DirectionStep(p, e)
    ensures d == e
  {
  }
}
