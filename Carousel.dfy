/** Slide-index arithmetic shared by the skills carousel and the projects
    carousel: both step with `(prev + 1) % total` and
    `(prev - 1 + total) % total`. The current slide is never negative, so
    JavaScript's truncating `%` and Dafny's Euclidean `%` agree here. */
module Carousel {

  /** The slide shown after "next": one further on, wrapping from the last
      slide to the first. */
  function Next(current: nat, total: nat): (r: nat)
    requires total > 0
    ensures r < total
    ensures current + 1 < total ==> r == current + 1
    ensures current + 1 == total ==> r == 0
  {
    (current + 1) % total
  }

  /** The slide shown after "previous": one back, wrapping from the first
      slide to the last. */
  function Prev(current: nat, total: nat): (r: nat)
    requires total > 0
    ensures r < total
    ensures 0 < current <= total ==> r == current - 1
    ensures current == 0 ==> r == total - 1
  {
    (current - 1 + total) % total
  }

  /** Next and Prev undo each other on every in-range slide. */
  lemma NextPrevInverse(current: nat, total: nat)
    requires current < total
    ensures Prev(Next(current, total), total) == current
    ensures Next(Prev(current, total), total) == current
  {
  }

  /** With more than one slide, a step always moves to a different slide. */
  lemma StepMoves(current: nat, total: nat)
    requires 1 < total && current < total
    ensures Next(current, total) != current
    ensures Prev(current, total) != current
  {
  }
}
