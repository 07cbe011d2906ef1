/**
 * The image carousel: a slide index that the previous and next buttons
 * move with wrap-around and that a dot sets directly.
 */
module Carousel {
  import opened Wrappers
  import JsNumber

  datatype Slide = Slide(src: string, caption: Option<string>)

  /** `goPrev`'s update of the index `i` over `n` slides. */
  function Prev(i: int, n: nat): (r: int)
    ensures n >= 1 && 0 <= i < n ==> 0 <= r < n
    ensures n >= 1 && 0 < i < n ==> r == i - 1
    ensures n >= 1 && i == 0 ==> r == n - 1
  {
    if i <= 0 then n - 1 else i - 1
  }

  /** `goNext`'s update. */
  function Next(i: int, n: nat): (r: int)
    ensures n >= 1 && 0 <= i < n ==> 0 <= r < n
    ensures n >= 1 && 0 <= i < n - 1 ==> r == i + 1
    ensures n >= 1 && i == n - 1 ==> r == 0
  {
    if i >= n - 1 then 0 else i + 1
  }

  /** Each button undoes the other. */
  lemma PrevNextInverse(i: int, n: nat)
    requires 0 <= i < n
    ensures Prev(Next(i, n), n) == i && Next(Prev(i, n), n) == i
  {
  }

  /** `k` presses of the next button. */
  function NextTimes(i: int, n: nat, k: nat): int {
    if k == 0 then i else Next(NextTimes(i, n, k - 1), n)
  }

  /** Pressing `a` times and then `b` times is pressing `a + b` times. */
  lemma {:induction false} NextTimesAdd(i: int, n: nat, a: nat, b: nat)
    ensures NextTimes(i, n, a + b) == NextTimes(NextTimes(i, n, a), n, b)
  {
    if b > 0 { NextTimesAdd(i, n, a, b - 1); }
  }

  /** Short of the last slide, `k` presses move `k` slides on. */
  lemma {:induction false} NextTimesForward(i: int, n: nat, k: nat)
    requires 0 <= i && i + k < n
    ensures NextTimes(i, n, k) == i + k
  {
    if k > 0 { NextTimesForward(i, n, k - 1); }
  }

  /** `n` presses come back to the starting slide. */
  lemma FullTurn(i: int, n: nat)
    requires 0 <= i < n
    ensures NextTimes(i, n, n) == i
  {
    NextTimesAdd(i, n, n - 1 - i, 1);
    NextTimesForward(i, n, n - 1 - i);
    NextTimesAdd(i, n, n - i, i);
    NextTimesForward(0, n, i);
    assert n - i + i == n;
  }

  /** What the carousel draws: the current image, whether the arrow buttons
   *  are shown, one flag per dot telling whether it is the current one, and
   *  the caption line. */
  datatype Frame = Frame(src: string, alt: string, priority: bool, arrows: bool,
                         dots: seq<bool>, caption: Option<string>)

  class Carousel {
    const slides: seq<Slide>
    var index: int

    predicate Valid()
      reads this
    {
      |slides| == 0 || 0 <= index < |slides|
    }

    constructor(slides: seq<Slide>)
      ensures this.slides == slides && index == 0 && Valid()
    {
      this.slides := slides;
      index := 0;
    }

    method GoPrev()
      modifies this
      ensures index == Prev(old(index), |slides|)
      ensures |slides| >= 1 && old(Valid()) ==> Valid()
    {
      index := if index <= 0 then |slides| - 1 else index - 1;
    }

    method GoNext()
      modifies this
      ensures index == Next(old(index), |slides|)
      ensures |slides| >= 1 && old(Valid()) ==> Valid()
    {
      index := if index >= |slides| - 1 then 0 else index + 1;
    }

    /** A dot's `setIndex(i)`; the dots are numbered `0 … n-1`. */
    method SelectDot(i: nat)
      requires i < |slides|
      modifies this
      ensures index == i && Valid()
    {
      index := i;
    }

    /** The render: nothing without slides; arrows and dots only with more
     *  than one. */
    function View(): (r: Option<Frame>)
      requires Valid()
      reads this
      ensures r.None? <==> |slides| == 0
      ensures r.Some? ==> r.value.src == slides[index].src
      ensures r.Some? ==> (r.value.arrows <==> |slides| > 1)
      ensures r.Some? && |slides| > 1 ==>
                |r.value.dots| == |slides| && forall i :: 0 <= i < |slides| ==> (r.value.dots[i] <==> i == index)
      ensures r.Some? && |slides| == 1 ==> r.value.dots == []
      ensures r.Some? && slides[index].caption.Some? ==> r.value.alt == slides[index].caption.value
      ensures r.Some? && slides[index].caption.None? ==> r.value.alt == "Slide " + JsNumber.NatToString(index + 1)
      ensures r.Some? ==> (r.value.caption.Some? <==> slides[index].caption.Some? && slides[index].caption.value != "")
      ensures r.Some? && r.value.caption.Some? ==> r.value.caption == slides[index].caption
      ensures r.Some? ==> (r.value.priority <==> index == 0)
    {
      if |slides| == 0 then None
      else
        var current := slides[index];
        var alt := current.caption.GetOr("Slide " + JsNumber.NatToString(index + 1));
        var at := index;
        var dots := if |slides| > 1 then seq(|slides|, i => i == at) else [];
        var caption := if current.caption.Some? && current.caption.value != "" then current.caption else None;
        Some(Frame(current.src, alt, index == 0, |slides| > 1, dots, caption))
    }
  }
}
