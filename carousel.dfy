/** The report carousel's slide index: `nextSlide` and `prevSlide` step it within the slides present. */
module Carousel {

  /** The index after `nextSlide`: one further, unless already on the last slide. */
  function NextIndex(current: int, total: nat): (r: int)
    ensures current < total - 1 ==> r == current + 1
    ensures current >= total - 1 ==> r == current
    ensures 0 <= current < total ==> 0 <= r < total
  {
    if current < total - 1 then current + 1 else current
  }

  /** The index after `prevSlide`: one back, unless already on the first slide. */
  function PrevIndex(current: int): (r: int)
    ensures current > 0 ==> r == current - 1
    ensures current <= 0 ==> r == current
    ensures current >= 0 ==> r >= 0
  {
    if current > 0 then current - 1 else current
  }

  /** A step forward that moved is undone by a step back, and the other way round. */
  lemma NextThenPrev(current: int, total: nat)
    requires 0 <= current < total - 1
    ensures PrevIndex(NextIndex(current, total)) == current
  {
  }

  lemma PrevThenNext(current: int, total: nat)
    requires 0 < current < total
    ensures NextIndex(PrevIndex(current), total) == current
  {
  }

  /** From any slide in range, `n` steps forward stop on the last slide at the latest. */
  function Forward(current: int, total: nat, n: nat): int
    decreases n
  {
    if n == 0 then current else Forward(NextIndex(current, total), total, n - 1)
  }

  lemma {:induction false} ForwardStopsAtLast(current: int, total: nat, n: nat)
    requires 0 <= current < total
    ensures Forward(current, total, n) == if current + n < total then current + n else total - 1
    decreases n
  {
    if n > 0 {
      ForwardStopsAtLast(NextIndex(current, total), total, n - 1);
    }
  }

  class Carousel {
    var current: int
    var total: nat

    /** Both indices within the slides present (or no slides at all). */
    predicate InRange()
      reads this
    {
      0 <= current && (total == 0 || current < total)
    }

    /** `let currentSlide = 0; let totalSlides = 0;` */
    constructor ()
      ensures current == 0 && total == 0 && InRange()
    {
      current := 0;
      total := 0;
    }

    /** `refreshCarouselElements`: the slide count is re-read; the index is not adjusted. */
    method Refresh(count: nat)
      modifies this
      ensures total == count && current == old(current)
    {
      total := count;
    }

    method NextSlide()
      modifies this
      ensures current == NextIndex(old(current), old(total)) && total == old(total)
      ensures old(InRange()) ==> InRange()
    {
      if current < total - 1 {
        current := current + 1;
      }
    }

    method PrevSlide()
      modifies this
      ensures current == PrevIndex(old(current)) && total == old(total)
      ensures old(InRange()) ==> InRange()
    {
      if current > 0 {
        current := current - 1;
      }
    }
  }
}
