/** Day 9: one step of a rope's tail towards its head (the integer part; the float-based
    distance test that decides whether to call it is not modelled). */
module Rope {
  type Point = (int, int)

  /** One coordinate's step towards the target: up, down, or none when equal. */
  function StepToward(from: int, to: int): int
  {
    if to - from > 0 then from + 1 else if to - from < 0 then from - 1 else from
  }

  function Abs(x: int): nat { if x < 0 then -x else x }

  /** `move_tail`: each coordinate of the tail moves one step towards the head's. */
  function MoveTail(head: Point, tail: Point): (r: Point)
    ensures Abs(r.0 - tail.0) <= 1 && Abs(r.1 - tail.1) <= 1
    ensures Abs(head.0 - r.0) == if head.0 == tail.0 then 0 else Abs(head.0 - tail.0) - 1
    ensures Abs(head.1 - r.1) == if head.1 == tail.1 then 0 else Abs(head.1 - tail.1) - 1
    ensures (head.0 - r.0) * (head.0 - tail.0) >= 0 && (head.1 - r.1) * (head.1 - tail.1) >= 0
  {
    (StepToward(tail.0, head.0), StepToward(tail.1, head.1))
  }

  /** A tail on its head stays put. */
  lemma MoveTailAtHead(p: Point)
    ensures MoveTail(p, p) == p
  {
  }

  /** The three cases of the source's unit test. */
  lemma MoveTailExamples()
    ensures MoveTail((0, 0), (2, 1)) == (1, 0)
    ensures MoveTail((0, 0), (0, 2)) == (0, 1)
    ensures MoveTail((0, 0), (-2, 0)) == (-1, 0)
  {
  }
}
