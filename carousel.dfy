/**
 * The hero panel's quotes carousel, `initQuotesSlider`: slides and dots are
 * reduced to their class and attribute flags, timers to abstract handles
 * and to the callbacks they eventually run.
 */
module Carousel {
  import opened Wrappers

  /** Class flags of one `.quote-slide`: `active` and `exit`. */
  datatype Slide = Slide(active: bool, exit: bool)

  /** One `.qdot`: its `active` class and its `aria-selected` attribute. */
  datatype Dot = Dot(active: bool, selected: bool)

  /** A timer handle as `setInterval` returns it: a positive integer, so that
      `if (autoTimer)` is true exactly when a handle is held. */
  type Handle = h: int | h > 0 witness 1

  /** `(index + total) % total`. For the indices the carousel produces
      (`index + total >= 0`) this is the one index in `[0, total)` congruent to
      `index` modulo `total`. */
  function Wrap(index: int, total: nat): (r: nat)
    requires total > 0 && index + total >= 0
    ensures r < total
    ensures exists q :: index == q * total + r
  {
    var x := index + total;
    var q := x / total - 1;
    assert index == q * total + x % total;
    x % total
  }

  /** Stepping forward from the last slide wraps to the first. */
  lemma WrapNext(current: nat, total: nat)
    requires current < total
    ensures Wrap(current + 1, total) == if current + 1 == total then 0 else current + 1
  {
  }

  /** An in-range index lands on itself: a dot click selects that slide. */
  lemma WrapInRange(index: int, total: nat)
    requires 0 <= index < total
    ensures Wrap(index, total) == index
  {
  }

  predicate SlideActiveOnlyAt(slides: seq<Slide>, k: int) {
    forall i :: 0 <= i < |slides| ==> (slides[i].active <==> i == k)
  }

  predicate DotActiveOnlyAt(dots: seq<Dot>, k: int) {
    forall i :: 0 <= i < |dots| ==> (dots[i].active <==> i == k)
  }

  /** Every dot's `aria-selected` agrees with its `active` class. */
  predicate SelectedMatchesActive(dots: seq<Dot>) {
    forall i :: 0 <= i < |dots| ==> dots[i].selected == dots[i].active
  }

  /** The slides after `goTo` leaves slide `from` for slide `to`: `from` loses
      `active` and gains `exit`, then `to` gains `active`. */
  function SlidesAfterGoTo(slides: seq<Slide>, from: nat, to: nat): (r: seq<Slide>)
    requires from < |slides| && to < |slides|
    ensures |r| == |slides|
    ensures r[to].active && r[from].exit
    ensures from != to ==> !r[from].active && r[to].exit == slides[to].exit
    ensures forall i :: 0 <= i < |r| && i != from && i != to ==> r[i] == slides[i]
    ensures SlideActiveOnlyAt(slides, from) ==> SlideActiveOnlyAt(r, to)
  {
    var left := slides[from := Slide(false, true)];
    left[to := left[to].(active := true)]
  }

  /** The dots after `goTo` leaves dot `from` for dot `to`: `from` loses
      `active` and is deselected, then `to` is made active and selected. */
  function DotsAfterGoTo(dots: seq<Dot>, from: nat, to: nat): (r: seq<Dot>)
    requires from < |dots| && to < |dots|
    ensures |r| == |dots|
    ensures r[to] == Dot(true, true)
    ensures from != to ==> r[from] == Dot(false, false)
    ensures forall i :: 0 <= i < |r| && i != from && i != to ==> r[i] == dots[i]
    ensures DotActiveOnlyAt(dots, from) ==> DotActiveOnlyAt(r, to)
    ensures SelectedMatchesActive(dots) ==> SelectedMatchesActive(r)
  {
    dots[from := Dot(false, false)][to := Dot(true, true)]
  }

  class QuotesSlider {
    /** `slides.length`, fixed when the carousel is bound. */
    const total: nat
    var current: int
    var slides: seq<Slide>
    var dots: seq<Dot>
    /** Slides whose 600 ms timer, still pending, will clear `exit`, oldest first. */
    var exitTimers: seq<nat>
    /** The `autoTimer` closure variable: `null` or the live interval's handle. */
    var autoTimer: Option<Handle>
    /** Intervals this carousel has set and not cleared: each one calls `next`. */
    var intervals: set<Handle>
    /** Pending `setTimeout(startAuto, 8000)` calls queued by dot clicks. */
    var pendingResumes: nat

    /** Exactly one slide and one dot are active, both at `current`; every
        dot's `aria-selected` agrees with its `active`; dots beyond the last
        slide are bound but never entered; the only live interval is the one
        `autoTimer` holds. */
    ghost predicate Valid()
      reads this
    {
      && total > 0
      && |slides| == total && |dots| >= total
      && 0 <= current < total
      && SlideActiveOnlyAt(slides, current)
      && DotActiveOnlyAt(dots, current)
      && SelectedMatchesActive(dots)
      && (forall k :: 0 <= k < |exitTimers| ==> exitTimers[k] < total)
      && intervals == (if autoTimer.Some? then {autoTimer.value} else {})
    }

    /** A carousel over markup in which slide 0 and dot 0 are active and
        selected, with the first `startAuto` already run; `h` is the handle of
        that interval. There is a dot for every slide, and possibly more. */
    constructor (slides0: seq<Slide>, dots0: seq<Dot>, h: Handle)
      requires |slides0| > 0 && |dots0| >= |slides0|
      requires SlideActiveOnlyAt(slides0, 0) && DotActiveOnlyAt(dots0, 0)
      requires SelectedMatchesActive(dots0)
      ensures Valid()
      ensures total == |slides0| && current == 0 && slides == slides0 && dots == dots0
      ensures exitTimers == [] && pendingResumes == 0
      ensures autoTimer == Some(h) && intervals == {h}
    {
      total := |slides0|;
      current := 0;
      slides := slides0;
      dots := dots0;
      exitTimers := [];
      autoTimer := Some(h);
      intervals := {h};
      pendingResumes := 0;
    }

    /** `goTo(index)`: the current slide and dot exit, a 600 ms timer is set to
        clear the slide's `exit`, and the wrapped index's slide and dot enter. */
    method GoTo(index: int)
      requires Valid() && index + total >= 0
      modifies this
      ensures Valid()
      ensures current == Wrap(index, total)
      ensures slides == SlidesAfterGoTo(old(slides), old(current), current)
      ensures dots == DotsAfterGoTo(old(dots), old(current), current)
      ensures exitTimers == old(exitTimers) + [old(current)]
      ensures autoTimer == old(autoTimer) && intervals == old(intervals)
      ensures pendingResumes == old(pendingResumes)
    {
      var from := current;
      slides := slides[from := Slide(false, true)];
      dots := dots[from := Dot(false, false)];
      exitTimers := exitTimers + [from];
      current := Wrap(index, total);
      slides := slides[current := slides[current].(active := true)];
      dots := dots[current := Dot(true, true)];
    }

    /** `next()`: one step forward, from the last slide back to the first. */
    method Next()
      requires Valid()
      modifies this
      ensures Valid()
      ensures current == if old(current) + 1 == total then 0 else old(current) + 1
      ensures slides == SlidesAfterGoTo(old(slides), old(current), current)
      ensures dots == DotsAfterGoTo(old(dots), old(current), current)
      ensures exitTimers == old(exitTimers) + [old(current)]
      ensures autoTimer == old(autoTimer) && intervals == old(intervals)
      ensures pendingResumes == old(pendingResumes)
    {
      WrapNext(current, total);
      GoTo(current + 1);
    }

    /** `stopAuto()`: clears the interval, if one is held. */
    method StopAuto()
      requires Valid()
      modifies this
      ensures Valid()
      ensures autoTimer == None && intervals == {}
      ensures current == old(current) && slides == old(slides) && dots == old(dots)
      ensures exitTimers == old(exitTimers) && pendingResumes == old(pendingResumes)
    {
      if autoTimer.Some? {
        intervals := intervals - {autoTimer.value};
        autoTimer := None;
      }
    }

    /** `startAuto()`: stops any interval first, then sets a new one, whose
        handle is `h`. Afterwards exactly one interval is live. */
    method StartAuto(h: Handle)
      requires Valid()
      modifies this
      ensures Valid()
      ensures autoTimer == Some(h) && intervals == {h}
      ensures old(autoTimer).Some? && old(autoTimer).value != h ==> old(autoTimer).value !in intervals
      ensures current == old(current) && slides == old(slides) && dots == old(dots)
      ensures exitTimers == old(exitTimers) && pendingResumes == old(pendingResumes)
    {
      StopAuto();
      autoTimer := Some(h);
      intervals := intervals + {h};
    }

    /** A dot's click listener, `idx` being its parsed `data-index`: a click on
        the current dot does nothing; any other stops auto-advance, jumps, and
        queues one more resume, never cancelling the ones already queued. */
    method DotClick(idx: int)
      requires Valid() && idx + total >= 0
      modifies this
      ensures Valid()
      ensures idx == old(current) ==> unchanged(this)
      ensures idx != old(current) ==>
        && autoTimer == None && intervals == {}
        && current == Wrap(idx, total)
        && slides == SlidesAfterGoTo(old(slides), old(current), current)
        && dots == DotsAfterGoTo(old(dots), old(current), current)
        && exitTimers == old(exitTimers) + [old(current)]
        && pendingResumes == old(pendingResumes) + 1
    {
      if idx == current {
        return;
      }
      StopAuto();
      GoTo(idx);
      pendingResumes := pendingResumes + 1;
    }

    /** The live interval `h` fires and runs `next`. */
    method Tick(h: Handle)
      requires Valid() && h in intervals
      modifies this
      ensures Valid()
      ensures current == if old(current) + 1 == total then 0 else old(current) + 1
      ensures slides == SlidesAfterGoTo(old(slides), old(current), current)
      ensures dots == DotsAfterGoTo(old(dots), old(current), current)
      ensures exitTimers == old(exitTimers) + [old(current)]
      ensures autoTimer == old(autoTimer) && intervals == old(intervals)
      ensures pendingResumes == old(pendingResumes)
    {
      Next();
    }

    /** The oldest queued resume fires and runs `startAuto`; `h` is the handle
        of the interval it sets. */
    method Resume(h: Handle)
      requires Valid() && pendingResumes > 0
      modifies this
      ensures Valid()
      ensures pendingResumes == old(pendingResumes) - 1
      ensures autoTimer == Some(h) && intervals == {h}
      ensures current == old(current) && slides == old(slides) && dots == old(dots)
      ensures exitTimers == old(exitTimers)
    {
      pendingResumes := pendingResumes - 1;
      StartAuto(h);
    }

    /** The oldest 600 ms exit timer fires: its slide loses `exit`. */
    method ClearExit()
      requires Valid() && |exitTimers| > 0
      modifies this
      ensures Valid()
      ensures var k := old(exitTimers)[0]; slides == old(slides)[k := old(slides)[k].(exit := false)]
      ensures exitTimers == old(exitTimers)[1..]
      ensures current == old(current) && dots == old(dots)
      ensures autoTimer == old(autoTimer) && intervals == old(intervals)
      ensures pendingResumes == old(pendingResumes)
    {
      var k := exitTimers[0];
      slides := slides[k := slides[k].(exit := false)];
      exitTimers := exitTimers[1..];
    }

    /** Never more than one auto-advance interval. */
    lemma AtMostOneInterval()
      requires Valid()
      ensures |intervals| <= 1
    {
    }
  }

  /** `initQuotesSlider`: with no slides or no dots nothing is bound and no
      carousel exists; otherwise the carousel starts at slide 0 with one
      interval, handle `h`, live. */
  method InitQuotesSlider(slides0: seq<Slide>, dots0: seq<Dot>, h: Handle) returns (r: Option<QuotesSlider>)
    requires |slides0| > 0 && |dots0| > 0 ==> |dots0| >= |slides0|
    requires |slides0| > 0 && |dots0| > 0 ==> SlideActiveOnlyAt(slides0, 0) && DotActiveOnlyAt(dots0, 0)
    requires |slides0| > 0 && |dots0| > 0 ==> SelectedMatchesActive(dots0)
    ensures r.None? <==> |slides0| == 0 || |dots0| == 0
    ensures r.Some? ==> fresh(r.value) && r.value.Valid() && r.value.current == 0
    ensures r.Some? ==> r.value.total == |slides0| && r.value.slides == slides0 && r.value.dots == dots0
    ensures r.Some? ==> r.value.exitTimers == [] && r.value.autoTimer == Some(h)
    ensures r.Some? ==> r.value.intervals == {h} && r.value.pendingResumes == 0
  {
    if |slides0| == 0 || |dots0| == 0 {
      return None;
    }
    var c := new QuotesSlider(slides0, dots0, h);
    return Some(c);
  }
}
