/** The slide carousel controller that the site instantiates three times: the hero
    banner, the "about" gallery and the video slider. One class covers all three;
    `Variant` selects the behaviour in which the three copies differ. */
module Carousels {
  import opened JsRuntime

  datatype Variant = Hero | About | Video

  /** The interval a carousel falls back to when its interval attribute is
      missing, zero or not a number. */
  function DefaultInterval(v: Variant): int {
    match v
    case Hero => 8000
    case About => 5000
    case Video => 12000
  }

  /** `Number(attribute) || fallback`. */
  function IntervalOr(parsed: Num, fallback: int): (r: Num)
    requires fallback != 0
    ensures Truthy(r)
    ensures Truthy(parsed) ==> r == parsed
    ensures !Truthy(parsed) ==> r == Int(fallback)
  {
    if Truthy(parsed) then parsed else Int(fallback)
  }

  /** A missing, zero or non-numeric interval attribute falls back to the
      default; a negative one is kept, and then the about carousel never
      schedules a timer. */
  lemma IntervalFallbacks(v: Variant)
    ensures IntervalOr(Int(0), DefaultInterval(v)) == Int(DefaultInterval(v))
    ensures IntervalOr(NaN, DefaultInterval(v)) == Int(DefaultInterval(v))
    ensures forall x: Num :: (x.NegInf? || (x.Fin? && x.v < 0.0)) ==>
      IntervalOr(x, DefaultInterval(v)) == x && !Positive(IntervalOr(x, DefaultInterval(v)))
  {
  }

  // ---------------------------------------------------------------------------
  // Slides, dots and the marks `setActive` writes on them
  // ---------------------------------------------------------------------------

  /** The five inline style properties the hero carousel touches while measuring. */
  datatype InlineStyle = InlineStyle(
    position: string, opacity: string, visibility: string, pointerEvents: string, transition: string)

  /** The style an inactive slide is given for the duration of a measurement:
      in the layout flow, invisible, not interactive, without transitions. */
  const MeasuringStyle := InlineStyle("relative", "0", "hidden", "none", "none")

  /** A slide element: its `is-active` class, its `aria-hidden` attribute (absent
      until first marked) and its inline style. */
  datatype Slide = Slide(active: bool, ariaHidden: Option<bool>, style: InlineStyle)

  /** A dot element: `is-active` class, `data-active`, `aria-selected`,
      `aria-current` and `tabindex` (each `None` when the attribute is absent). */
  datatype Dot = Dot(
    active: bool, dataActive: Option<bool>, ariaSelected: Option<bool>,
    ariaCurrent: Option<string>, tabindex: Option<int>)

  function MarkSlide(s: Slide, on: bool): Slide {
    s.(active := on, ariaHidden := Some(!on))
  }

  /** All variants set the class, `aria-selected` and `aria-current`; the hero and
      about carousels also set `data-active`; only the about carousel sets the
      roving `tabindex`. */
  function MarkDot(d: Dot, v: Variant, on: bool): Dot {
    d.(active := on,
       ariaSelected := Some(on),
       ariaCurrent := if on then Some("true") else None,
       dataActive := if v != Video then Some(on) else d.dataActive,
       tabindex := if v == About then Some(if on then 0 else -1) else d.tabindex)
  }

  /** The slides after `setActive` with wrapped target `target`. */
  function MarkedSlides(s: seq<Slide>, target: Num): (r: seq<Slide>)
    ensures |r| == |s|
    ensures forall i :: 0 <= i < |r| ==>
      (r[i].active <==> IsIndex(target, i)) && r[i].ariaHidden == Some(!r[i].active) && r[i].style == s[i].style
  {
    seq(|s|, i requires 0 <= i < |s| => MarkSlide(s[i], IsIndex(target, i)))
  }

  /** The dots after `setActive` with wrapped target `target`. */
  function MarkedDots(d: seq<Dot>, v: Variant, target: Num): (r: seq<Dot>)
    ensures |r| == |d|
    ensures forall i :: 0 <= i < |r| ==>
      (r[i].active <==> IsIndex(target, i)) && r[i].ariaSelected == Some(r[i].active) &&
      (r[i].ariaCurrent.Some? <==> r[i].active)
  {
    seq(|d|, i requires 0 <= i < |d| => MarkDot(d[i], v, IsIndex(target, i)))
  }

  /** Requesting an integer no smaller than `-n` marks exactly the slide at
      `(k + n) % n` active and visible and hides every other one. */
  lemma IntegerRequestMarksOneSlide(s: seq<Slide>, k: int)
    requires |s| >= 1 && k + |s| >= 0
    ensures var t := (k + |s|) % |s|;
      0 <= t < |s| &&
      forall i :: 0 <= i < |s| ==>
        (MarkedSlides(s, Wrap(Int(k), |s|))[i].active <==> i == t) &&
        MarkedSlides(s, Wrap(Int(k), |s|))[i].ariaHidden == Some(i != t)
  {
    WrapOfInt(k, |s|);
  }

  /** Exactly the slide at position `k` is active. */
  predicate OnlyActive(s: seq<Slide>, k: int) {
    forall i :: 0 <= i < |s| ==> (s[i].active <==> i == k)
  }

  /** Marking for an in-range integer target activates that slide alone. */
  lemma OnlyTargetActive(s: seq<Slide>, k: nat)
    ensures OnlyActive(MarkedSlides(s, Int(k)), k)
  {
  }

  /** Stepping forward from the last slide requests slide 0, and marking for
      slide 0 activates it alone. */
  lemma NextFromLastActivatesFirst(s: seq<Slide>, current: Num)
    requires |s| >= 1 && IsIndex(current, |s| - 1)
    ensures Wrap(Add(current, Int(1)), |s|) == Int(0)
    ensures OnlyActive(MarkedSlides(s, Int(0)), 0)
  {
    StepForwardFromLast(current, |s|);
    OnlyTargetActive(s, 0);
  }

  /** Stepping back from the first slide requests `-1`, which wraps to the last
      slide, and marking for it activates the last slide alone. */
  lemma PrevFromFirstActivatesLast(s: seq<Slide>, current: Num)
    requires |s| >= 1 && IsIndex(current, 0)
    ensures Add(current, Int(-1)) == Int(-1)
    ensures OnlyActive(MarkedSlides(s, Wrap(Int(-1), |s|)), |s| - 1)
  {
    assert current == Int(0);
    LastSlideActivated(s);
  }

  lemma LastSlideActivated(s: seq<Slide>)
    requires |s| >= 1
    ensures OnlyActive(MarkedSlides(s, Wrap(Int(-1), |s|)), |s| - 1)
  {
    WrapOfInt(-1, |s|);
    ModOf(|s| - 1, |s|, 0, |s| - 1);
    OnlyTargetActive(s, |s| - 1);
    assert MarkedSlides(s, Wrap(Int(-1), |s|)) == MarkedSlides(s, Int(|s| - 1));
  }

  /** Whatever is requested, a dot is marked active exactly when its position is
      the wrapped target, so no dot at a position past the last slide is ever
      marked; every other dot loses `aria-current`. */
  lemma DotsMirrorTarget(d: seq<Dot>, v: Variant, index: Num, n: nat)
    requires n >= 1
    ensures forall i :: 0 <= i < |d| ==>
      var m := MarkedDots(d, v, Wrap(index, n))[i];
      (m.active <==> IsIndex(Wrap(index, n), i)) &&
      m.ariaSelected == Some(m.active) &&
      (m.ariaCurrent.Some? <==> m.active)
    ensures forall i :: n <= i < |d| ==> !MarkedDots(d, v, Wrap(index, n))[i].active
  {
    forall i | n <= i < |d| && MarkedDots(d, v, Wrap(index, n))[i].active
      ensures false
    {
      WrapMatch(index, n, i);
    }
  }

  /** In the about carousel only the active dot is in the tab order. */
  lemma AboutDotsRovingTabindex(d: seq<Dot>, target: Num)
    ensures forall i :: 0 <= i < |d| ==>
      (MarkedDots(d, About, target)[i].tabindex == Some(0) <==> MarkedDots(d, About, target)[i].active)
  {
  }

  /** A request that is not an integer (a dot attribute such as "1.5", or an
      infinite one) leaves every slide and every dot unmarked. */
  lemma NonIntegralRequestMarksNothing(s: seq<Slide>, d: seq<Dot>, v: Variant, index: Num)
    requires |s| >= 1 && !Integral(index)
    ensures forall i :: 0 <= i < |s| ==>
      !MarkedSlides(s, Wrap(index, |s|))[i].active && MarkedSlides(s, Wrap(index, |s|))[i].ariaHidden == Some(true)
    ensures forall i :: 0 <= i < |d| ==> !MarkedDots(d, v, Wrap(index, |s|))[i].active
  {
    WrapSelectsNothing(index, |s|);
  }

  /** A dot attribute of "-5" on a three-slide carousel: JavaScript's `%` leaves
      `-2`, which is no slide's position, so no slide stays active. */
  lemma NegativeDotAttributeMarksNothing(s: seq<Slide>)
    requires |s| == 3
    ensures Wrap(Int(-5), 3) == Int(-2)
    ensures forall i :: 0 <= i < |s| ==> !MarkedSlides(s, Wrap(Int(-5), |s|))[i].active
  {
    WrapExamples();
  }

  // ---------------------------------------------------------------------------
  // Track height
  // ---------------------------------------------------------------------------

  /** The track's inline `height`: cleared (`''`) or a pixel value. */
  datatype Height = Cleared | Px(px: int)

  /** What the controller reads from the browser: whether the narrow-viewport
      media query matches, and a slide's `offsetHeight` as laid out with its
      current class and inline style. */
  datatype Viewport = Viewport(narrow: bool, offsetHeight: Slide -> int)

  /** `getSlideHeight`: an active slide is measured as it is; an inactive one as
      it would be laid out with the measuring style. */
  function MeasuredHeight(s: Slide, vp: Viewport): int {
    if s.active then vp.offsetHeight(s) else vp.offsetHeight(s.(style := MeasuringStyle))
  }

  function Heights(s: seq<Slide>, vp: Viewport): (r: seq<int>)
    ensures |r| == |s|
  {
    seq(|s|, i requires 0 <= i < |s| => MeasuredHeight(s[i], vp))
  }

  /** `Math.max(...hs)` for a non-empty list. */
  function MaxOf(hs: seq<int>): (m: int)
    requires |hs| >= 1
    ensures m in hs
    ensures forall i :: 0 <= i < |hs| ==> hs[i] <= m
  {
    if |hs| == 1 then hs[0]
    else
      var rest := MaxOf(hs[1..]);
      if hs[0] >= rest then hs[0] else rest
  }

  /** The hero track height after `measureTrackHeight`. */
  function HeroTrackHeight(prev: Height, s: seq<Slide>, vp: Viewport): (r: Height)
    requires |s| >= 1
    ensures vp.narrow ==> r == Cleared
    ensures !vp.narrow ==> r == prev || (r.Px? && r.px > 0 && r.px in Heights(s, vp))
  {
    if vp.narrow then Cleared
    else
      var m := MaxOf(Heights(s, vp));
      if m <= 0 then prev else Px(m)
  }

  /** On a wide viewport the hero track becomes exactly as tall as its tallest
      slide when some slide measures above 0; otherwise it is left as it was. */
  lemma HeroTrackFitsTallestSlide(prev: Height, s: seq<Slide>, vp: Viewport)
    requires |s| >= 1 && !vp.narrow
    ensures (exists i :: 0 <= i < |s| && MeasuredHeight(s[i], vp) > 0) ==>
      HeroTrackHeight(prev, s, vp).Px? &&
      var m := HeroTrackHeight(prev, s, vp).px;
      m > 0 &&
      (forall i :: 0 <= i < |s| ==> MeasuredHeight(s[i], vp) <= m) &&
      (exists i :: 0 <= i < |s| && MeasuredHeight(s[i], vp) == m)
    ensures (forall i :: 0 <= i < |s| ==> MeasuredHeight(s[i], vp) <= 0) ==> HeroTrackHeight(prev, s, vp) == prev
  {
    var hs := Heights(s, vp);
    var m := MaxOf(hs);
    var k :| 0 <= k < |hs| && hs[k] == m;
    assert MeasuredHeight(s[k], vp) == m;
    if exists i :: 0 <= i < |s| && MeasuredHeight(s[i], vp) > 0 {
      var j :| 0 <= j < |s| && MeasuredHeight(s[j], vp) > 0;
      assert hs[j] <= m;
      forall i | 0 <= i < |s|
        ensures MeasuredHeight(s[i], vp) <= m
      {
        assert hs[i] == MeasuredHeight(s[i], vp);
      }
    }
  }

  /** The slide `slides[x]` names, if any: `x` must be an integral Number inside
      the array's bounds. */
  function SlotOf(x: Num, n: nat): (r: Option<nat>)
    ensures r.Some? ==> r.value < n && IsIndex(x, r.value)
    ensures r.None? ==> forall i :: 0 <= i < n ==> !IsIndex(x, i)
  {
    if x.Fin? && 0.0 <= x.v < n as real && Integral(x) then Some(x.v.Floor) else None
  }

  /** The video track height after `updateHeight`: the active slide's height, or
      unchanged when `slides[currentIndex]` is undefined. */
  function VideoTrackHeight(prev: Height, s: seq<Slide>, current: Num, vp: Viewport): (r: Height)
    ensures forall k :: 0 <= k < |s| && IsIndex(current, k) ==> r == Px(vp.offsetHeight(s[k]))
    ensures (forall k :: 0 <= k < |s| ==> !IsIndex(current, k)) ==> r == prev
  {
    match SlotOf(current, |s|)
    case Some(k) => Px(vp.offsetHeight(s[k]))
    case None => prev
  }

  // ---------------------------------------------------------------------------
  // The controller
  // ---------------------------------------------------------------------------

  datatype Key = ArrowLeft | ArrowRight | OtherKey

  class Carousel {
    const variant: Variant
    /** The autoplay interval, `Number(data-*-interval) || DefaultInterval(variant)`. */
    const interval: Num
    const slides: array<Slide>
    const dots: array<Dot>
    var current: Num
    /** The handle of the autoplay interval timer, `null` when there is none. */
    var autoplayId: Option<nat>
    /** The interval timers the browser has scheduled for this carousel and not cleared. */
    var timers: set<nat>
    /** The handle `setInterval` returns next; handles are positive, hence truthy. */
    var nextHandle: nat
    var trackHeight: Height

    /** Whether `startAutoplay` may schedule a timer at all. */
    predicate CanAutoplay()
      reads this
    {
      if variant == About then Positive(interval) else slides.Length >= 2
    }

    ghost predicate Valid()
      reads this
    {
      slides.Length >= 1 && nextHandle >= 1 &&
      timers == (if autoplayId.Some? then {autoplayId.value} else {}) &&
      (autoplayId.Some? ==> 1 <= autoplayId.value < nextHandle && CanAutoplay())
    }

    /** The marks on slides and dots are those `setActive` writes for `current`. */
    ghost predicate Marked()
      reads this, slides, dots
    {
      (forall i :: 0 <= i < slides.Length ==> slides[i] == MarkSlide(slides[i], IsIndex(current, i))) &&
      (forall i :: 0 <= i < dots.Length ==> dots[i] == MarkDot(dots[i], variant, IsIndex(current, i)))
    }

    /** The track height after the variant's height synchronisation, starting
        from `prev`. */
    function SyncedHeight(prev: Height, vp: Viewport): Height
      reads this`current, slides
      requires slides.Length >= 1
    {
      match variant
      case Hero => HeroTrackHeight(prev, slides[..], vp)
      case Video => VideoTrackHeight(prev, slides[..], current, vp)
      case About => prev
    }

    /** Synchronising twice on the same slides is synchronising once, so the
        `updateHeight()` that follows the initial `setActive` changes nothing. */
    lemma SyncIdempotent(prev: Height, vp: Viewport)
      requires slides.Length >= 1
      ensures SyncedHeight(SyncedHeight(prev, vp), vp) == SyncedHeight(prev, vp)
    {
    }

    /** A carousel that may not autoplay (about: a non-positive interval; hero and
        video: a single slide) never holds a timer. */
    lemma NoTimerWithoutAutoplay()
      requires Valid() && !CanAutoplay()
      ensures autoplayId == None && timers == {}
    {
    }

    /** Initialisation: the first slide already marked `is-active` (or slide 0) is
        activated, autoplay is started, and the hero and video carousels
        synchronise the track height once more. */
    constructor (variant: Variant, slides: array<Slide>, dots: array<Dot>, intervalAttr: Num,
                 initHeight: Height, vp: Viewport)
      requires slides.Length >= 1
      modifies slides, dots
      ensures Valid() && Marked()
      ensures this.variant == variant && this.slides == slides && this.dots == dots
      ensures interval == IntervalOr(intervalAttr, DefaultInterval(variant))
      ensures current == Int(InitialSlide(old(slides[..])))
      ensures slides[..] == MarkedSlides(old(slides[..]), current)
      ensures dots[..] == MarkedDots(old(dots[..]), variant, current)
      ensures autoplayId == (if CanAutoplay() then Some(1) else None)
      ensures trackHeight == SyncedHeight(initHeight, vp)
    {
      this.variant := variant;
      interval := IntervalOr(intervalAttr, DefaultInterval(variant));
      this.slides := slides;
      this.dots := dots;
      current := Int(0);
      autoplayId := None;
      timers := {};
      nextHandle := 1;
      trackHeight := initHeight;
      new;
      Initialise(vp);
    }

    /** The initialisation steps after the controller's state is in place. */
    method Initialise(vp: Viewport)
      requires Valid() && autoplayId == None && nextHandle == 1
      modifies this`current, this`trackHeight, this`autoplayId, this`timers, this`nextHandle, slides, dots
      ensures Valid() && Marked()
      ensures current == Int(InitialSlide(old(slides[..])))
      ensures slides[..] == MarkedSlides(old(slides[..]), current)
      ensures dots[..] == MarkedDots(old(dots[..]), variant, current)
      ensures autoplayId == (if CanAutoplay() then Some(1) else None)
      ensures trackHeight == SyncedHeight(old(trackHeight), vp)
    {
      var start := InitialSlide(slides[..]);
      WrapOfIndex(start, slides.Length);
      SetActive(Int(start), vp);
      StartAndSync(vp);
      SyncIdempotent(old(trackHeight), vp);
    }

    /** The last two initialisation steps: `startAutoplay()`, then (hero and
        video) `updateHeight()`. Neither touches the marks. */
    method StartAndSync(vp: Viewport)
      requires Valid() && Marked() && autoplayId == None && nextHandle == 1
      modifies this`trackHeight, this`autoplayId, this`timers, this`nextHandle, slides
      ensures Valid() && Marked()
      ensures unchanged(slides)
      ensures autoplayId == (if CanAutoplay() then Some(1) else None)
      ensures trackHeight == SyncedHeight(old(trackHeight), vp)
    {
      StartAutoplay();
      if variant != About {
        UpdateHeight(vp);
      }
    }

    /** `setActive(index)`: wraps `index`, marks exactly the slide and the dot at the
        wrapped position and unmarks all others, records the position, and (hero
        and video) synchronises the track height. */
    method SetActive(index: Num, vp: Viewport)
      requires Valid()
      modifies this`current, this`trackHeight, slides, dots
      ensures Valid() && Marked()
      ensures current == Wrap(index, slides.Length)
      ensures slides[..] == MarkedSlides(old(slides[..]), current)
      ensures dots[..] == MarkedDots(old(dots[..]), variant, current)
      ensures trackHeight == SyncedHeight(old(trackHeight), vp)
    {
      var target := Wrap(index, slides.Length);
      MarkSlides(target);
      MarkDots(target);
      current := target;
      if variant != About {
        UpdateHeight(vp);
      }
    }

    /** The `slides.forEach` of `setActive`: class and `aria-hidden` for `target`. */
    method MarkSlides(target: Num)
      modifies slides
      ensures slides[..] == MarkedSlides(old(slides[..]), target)
    {
      var i := 0;
      while i < slides.Length
        invariant 0 <= i <= slides.Length
        invariant forall j :: 0 <= j < i ==> slides[j] == MarkSlide(old(slides[j]), IsIndex(target, j))
        invariant forall j :: i <= j < slides.Length ==> slides[j] == old(slides[j])
      {
        slides[i] := MarkSlide(slides[i], IsIndex(target, i));
        i := i + 1;
      }
    }

    /** The `dots.forEach` of `setActive`: the variant's dot attributes for `target`. */
    method MarkDots(target: Num)
      modifies dots
      ensures dots[..] == MarkedDots(old(dots[..]), variant, target)
    {
      var i := 0;
      while i < dots.Length
        invariant 0 <= i <= dots.Length
        invariant forall j :: 0 <= j < i ==> dots[j] == MarkDot(old(dots[j]), variant, IsIndex(target, j))
        invariant forall j :: i <= j < dots.Length ==> dots[j] == old(dots[j])
      {
        dots[i] := MarkDot(dots[i], variant, IsIndex(target, i));
        i := i + 1;
      }
    }

    /** `getSlideHeight(slides[i])`: an inactive slide is given the measuring style,
        measured, and given back all five saved style properties. */
    method GetSlideHeight(i: nat, vp: Viewport) returns (h: int)
      requires i < slides.Length
      modifies slides
      ensures unchanged(slides)
      ensures h == MeasuredHeight(slides[i], vp)
    {
      var slide := slides[i];
      if slide.active {
        return vp.offsetHeight(slide);
      }
      var previous := slide.style;
      slides[i] := slide.(style := MeasuringStyle);
      h := vp.offsetHeight(slides[i]);
      slides[i] := slides[i].(style := previous);
    }

    /** `measureTrackHeight` of the hero carousel. */
    method MeasureTrackHeight(vp: Viewport)
      requires Valid() && Marked()
      modifies this`trackHeight, slides
      ensures Valid() && Marked()
      ensures unchanged(slides)
      ensures trackHeight == HeroTrackHeight(old(trackHeight), slides[..], vp)
    {
      if vp.narrow {
        trackHeight := Cleared;
        return;
      }
      var heights := [];
      var i := 0;
      while i < slides.Length
        modifies slides
        invariant 0 <= i <= slides.Length
        invariant unchanged(slides)
        invariant heights == Heights(slides[..], vp)[..i]
      {
        var h := GetSlideHeight(i, vp);
        heights := heights + [h];
        i := i + 1;
      }
      assert heights == Heights(slides[..], vp);
      var maxHeight := MaxOf(heights);
      if maxHeight <= 0 {
        return;
      }
      trackHeight := Px(maxHeight);
    }

    /** `updateHeight`: the hero measures every slide, the video carousel takes
        the active slide's height; the about carousel has no height sync. */
    method UpdateHeight(vp: Viewport)
      requires Valid() && Marked()
      modifies this`trackHeight, slides
      ensures Valid() && Marked()
      ensures unchanged(slides)
      ensures trackHeight == SyncedHeight(old(trackHeight), vp)
    {
      match variant
      case Hero =>
        MeasureTrackHeight(vp);
      case Video =>
        match SlotOf(current, slides.Length) {
          case Some(k) =>
            trackHeight := Px(vp.offsetHeight(slides[k]));
          case None =>
        }
      case About =>
    }

    /** `stopAutoplay`: clears the held timer, if any. */
    method StopAutoplay()
      requires Valid()
      modifies this`autoplayId, this`timers
      ensures Valid()
      ensures autoplayId == None && timers == {}
    {
      if autoplayId.Some? {
        timers := timers - {autoplayId.value};
        autoplayId := None;
      }
    }

    /** `window.setInterval`: schedules a timer under a fresh handle and holds it. */
    method Schedule()
      requires Valid() && autoplayId == None && CanAutoplay()
      modifies this`autoplayId, this`timers, this`nextHandle
      ensures Valid()
      ensures autoplayId == Some(old(nextHandle)) && nextHandle == old(nextHandle) + 1
    {
      var id := nextHandle;
      nextHandle := nextHandle + 1;
      timers := timers + {id};
      autoplayId := Some(id);
    }

    /** `startAutoplay`. Hero and video: nothing with fewer than two slides,
        otherwise clear the held timer and schedule a fresh one. About: schedule
        one only when the interval is positive and none is held. */
    method StartAutoplay()
      requires Valid()
      modifies this`autoplayId, this`timers, this`nextHandle
      ensures Valid() && |timers| <= 1
      ensures variant != About ==>
        if slides.Length < 2 then
          autoplayId == old(autoplayId) && nextHandle == old(nextHandle)
        else
          autoplayId == Some(old(nextHandle)) && nextHandle == old(nextHandle) + 1 &&
          (old(autoplayId).Some? ==> old(autoplayId).value !in timers)
      ensures variant == About ==>
        if Positive(interval) && old(autoplayId).None? then
          autoplayId == Some(old(nextHandle)) && nextHandle == old(nextHandle) + 1
        else
          autoplayId == old(autoplayId) && nextHandle == old(nextHandle)
    {
      if variant == About {
        if Positive(interval) && autoplayId.None? {
          Schedule();
        }
      } else {
        if slides.Length < 2 {
          return;
        }
        StopAutoplay();
        Schedule();
      }
    }

    /** `goTo(index)`: `setActive`; the about carousel then stops and restarts
        autoplay, so its countdown starts over under a fresh handle. */
    method GoTo(index: Num, vp: Viewport)
      requires Valid()
      modifies this`current, this`trackHeight, this`autoplayId, this`timers, this`nextHandle, slides, dots
      ensures Valid() && Marked()
      ensures current == Wrap(index, slides.Length)
      ensures slides[..] == MarkedSlides(old(slides[..]), current)
      ensures dots[..] == MarkedDots(old(dots[..]), variant, current)
      ensures variant != About ==> autoplayId == old(autoplayId) && nextHandle == old(nextHandle)
      ensures variant == About ==>
        if Positive(interval) then autoplayId == Some(old(nextHandle)) else autoplayId == None
      ensures trackHeight == SyncedHeight(old(trackHeight), vp)
    {
      SetActive(index, vp);
      if variant == About {
        StopAutoplay();
        StartAutoplay();
      }
    }

    /** `goToNext`, also what the about carousel's next button does. */
    method GoToNext(vp: Viewport)
      requires Valid()
      modifies this`current, this`trackHeight, this`autoplayId, this`timers, this`nextHandle, slides, dots
      ensures Valid() && Marked()
      ensures current == Wrap(Add(old(current), Int(1)), slides.Length)
      ensures slides[..] == MarkedSlides(old(slides[..]), current)
      ensures dots[..] == MarkedDots(old(dots[..]), variant, current)
      ensures variant != About ==> autoplayId == old(autoplayId) && nextHandle == old(nextHandle)
      ensures variant == About ==>
        if Positive(interval) then autoplayId == Some(old(nextHandle)) else autoplayId == None
      ensures trackHeight == SyncedHeight(old(trackHeight), vp)
    {
      GoTo(Add(current, Int(1)), vp);
    }

    /** `goToPrev`, also what the about carousel's previous button does. */
    method GoToPrev(vp: Viewport)
      requires Valid()
      modifies this`current, this`trackHeight, this`autoplayId, this`timers, this`nextHandle, slides, dots
      ensures Valid() && Marked()
      ensures current == Wrap(Add(old(current), Int(-1)), slides.Length)
      ensures slides[..] == MarkedSlides(old(slides[..]), current)
      ensures dots[..] == MarkedDots(old(dots[..]), variant, current)
      ensures variant != About ==> autoplayId == old(autoplayId) && nextHandle == old(nextHandle)
      ensures variant == About ==>
        if Positive(interval) then autoplayId == Some(old(nextHandle)) else autoplayId == None
      ensures trackHeight == SyncedHeight(old(trackHeight), vp)
    {
      GoTo(Add(current, Int(-1)), vp);
    }

    /** The autoplay timer fires: every variant advances by one slide through
        `setActive` (the hero and video `goToNext` is just that) without
        touching the timer. */
    method Tick(vp: Viewport)
      requires Valid() && autoplayId.Some?
      modifies this`current, this`trackHeight, slides, dots
      ensures Valid() && Marked()
      ensures current == Wrap(Add(old(current), Int(1)), slides.Length)
      ensures slides[..] == MarkedSlides(old(slides[..]), current)
      ensures dots[..] == MarkedDots(old(dots[..]), variant, current)
      ensures autoplayId == old(autoplayId)
      ensures trackHeight == SyncedHeight(old(trackHeight), vp)
    {
      SetActive(Add(current, Int(1)), vp);
    }

    /** A click on the next button. Hero and video restart autoplay afterwards. */
    method ClickNext(vp: Viewport)
      requires Valid()
      modifies this`current, this`trackHeight, this`autoplayId, this`timers, this`nextHandle, slides, dots
      ensures Valid() && Marked()
      ensures current == Wrap(Add(old(current), Int(1)), slides.Length)
      ensures slides[..] == MarkedSlides(old(slides[..]), current)
      ensures dots[..] == MarkedDots(old(dots[..]), variant, current)
      ensures CanAutoplay() ==> autoplayId == Some(old(nextHandle))
      ensures trackHeight == SyncedHeight(old(trackHeight), vp)
    {
      GoToNext(vp);
      if variant != About {
        StartAutoplay();
      }
    }

    /** A click on the previous button. Hero and video restart autoplay afterwards. */
    method ClickPrev(vp: Viewport)
      requires Valid()
      modifies this`current, this`trackHeight, this`autoplayId, this`timers, this`nextHandle, slides, dots
      ensures Valid() && Marked()
      ensures current == Wrap(Add(old(current), Int(-1)), slides.Length)
      ensures slides[..] == MarkedSlides(old(slides[..]), current)
      ensures dots[..] == MarkedDots(old(dots[..]), variant, current)
      ensures CanAutoplay() ==> autoplayId == Some(old(nextHandle))
      ensures trackHeight == SyncedHeight(old(trackHeight), vp)
    {
      GoToPrev(vp);
      if variant != About {
        StartAutoplay();
      }
    }

    /** A click on dot `k` whose `data-*-dot` attribute parses to `target`. Hero and
        video ignore a `NaN` target and otherwise go to the target and restart
        autoplay; the about carousel goes to the dot's own position `k`. */
    method ClickDot(k: nat, target: Num, vp: Viewport)
      requires Valid() && Marked() && k < dots.Length
      modifies this`current, this`trackHeight, this`autoplayId, this`timers, this`nextHandle, slides, dots
      ensures Valid() && Marked()
      ensures variant == About ==> current == Wrap(Int(k), slides.Length)
      ensures variant == About || !target.NaN? ==>
        slides[..] == MarkedSlides(old(slides[..]), current) && dots[..] == MarkedDots(old(dots[..]), variant, current)
      ensures variant == About ==>
        if Positive(interval) then autoplayId == Some(old(nextHandle)) else autoplayId == None
      ensures variant == About || !target.NaN? ==>
        trackHeight == SyncedHeight(old(trackHeight), vp)
      ensures variant != About && target.NaN? ==>
        current == old(current) && slides[..] == old(slides[..]) && dots[..] == old(dots[..]) &&
        autoplayId == old(autoplayId) && nextHandle == old(nextHandle) && trackHeight == old(trackHeight)
      ensures variant != About && !target.NaN? ==>
        current == Wrap(target, slides.Length) &&
        (CanAutoplay() ==> autoplayId == Some(old(nextHandle)))
    {
      if variant == About {
        GoTo(Int(k), vp);
        return;
      }
      if target.NaN? {
        return;
      }
      GoTo(target, vp);
      StartAutoplay();
    }

    /** A key press inside the hero or video carousel; the about carousel has no
        keyboard handler. */
    method KeyDown(key: Key, vp: Viewport)
      requires Valid() && Marked()
      modifies this`current, this`trackHeight, this`autoplayId, this`timers, this`nextHandle, slides, dots
      ensures Valid() && Marked()
      ensures variant == About || key == OtherKey ==>
        current == old(current) && autoplayId == old(autoplayId) && nextHandle == old(nextHandle) &&
        slides[..] == old(slides[..]) && dots[..] == old(dots[..]) && trackHeight == old(trackHeight)
      ensures variant != About && key != OtherKey ==>
        slides[..] == MarkedSlides(old(slides[..]), current) && dots[..] == MarkedDots(old(dots[..]), variant, current) &&
        trackHeight == SyncedHeight(old(trackHeight), vp) &&
        (CanAutoplay() ==> autoplayId == Some(old(nextHandle)))
      ensures variant != About && key == ArrowRight ==>
        current == Wrap(Add(old(current), Int(1)), slides.Length)
      ensures variant != About && key == ArrowLeft ==>
        current == Wrap(Add(old(current), Int(-1)), slides.Length)
    {
      if variant == About {
        return;
      }
      match key
      case ArrowLeft =>
        GoToPrev(vp);
        StartAutoplay();
      case ArrowRight =>
        GoToNext(vp);
        StartAutoplay();
      case OtherKey =>
    }

    /** `pointerenter` and `focusin` (and the about carousel's `mouseenter`) pause. */
    method Pause()
      requires Valid()
      modifies this`autoplayId, this`timers
      ensures Valid() && autoplayId == None && timers == {}
    {
      StopAutoplay();
    }

    /** `pointerleave` (about: `mouseleave`) resumes autoplay. */
    method PointerLeave()
      requires Valid()
      modifies this`autoplayId, this`timers, this`nextHandle
      ensures Valid() && |timers| <= 1
      ensures variant != About ==>
        if slides.Length < 2 then
          autoplayId == old(autoplayId) && nextHandle == old(nextHandle)
        else
          autoplayId == Some(old(nextHandle)) && nextHandle == old(nextHandle) + 1
      ensures variant == About ==>
        if Positive(interval) && old(autoplayId).None? then
          autoplayId == Some(old(nextHandle)) && nextHandle == old(nextHandle) + 1
        else
          autoplayId == old(autoplayId) && nextHandle == old(nextHandle)
    {
      StartAutoplay();
    }

    /** `focusout`: hero and video resume only when focus leaves the carousel;
        the about carousel resumes on every `focusout`. */
    method FocusOut(leavesCarousel: bool)
      requires Valid()
      modifies this`autoplayId, this`timers, this`nextHandle
      ensures Valid() && |timers| <= 1
      ensures variant != About && !leavesCarousel ==>
        autoplayId == old(autoplayId) && nextHandle == old(nextHandle)
      ensures variant != About && leavesCarousel ==>
        if slides.Length < 2 then
          autoplayId == old(autoplayId) && nextHandle == old(nextHandle)
        else
          autoplayId == Some(old(nextHandle)) && nextHandle == old(nextHandle) + 1
      ensures variant == About ==>
        if Positive(interval) && old(autoplayId).None? then
          autoplayId == Some(old(nextHandle)) && nextHandle == old(nextHandle) + 1
        else
          autoplayId == old(autoplayId) && nextHandle == old(nextHandle)
    {
      if variant == About || leavesCarousel {
        StartAutoplay();
      }
    }
  }

  /** `slides.findIndex(slide => slide.classList.contains('is-active'))`, with 0
      when no slide is marked. */
  function InitialSlide(s: seq<Slide>): (k: nat)
    requires |s| >= 1
    ensures k < |s|
    ensures s[k].active || forall i :: 0 <= i < |s| ==> !s[i].active
    ensures forall i :: 0 <= i < k ==> !s[i].active
  {
    match First(s, (x: Slide) => x.active)
    case Some(k) => k
    case None => 0
  }

  /** Mounting a carousel: nothing is wired without slides, nor (hero and video)
      without a track element. */
  method Mount(variant: Variant, hasTrack: bool, slides: array<Slide>, dots: array<Dot>,
               intervalAttr: Num, initHeight: Height, vp: Viewport) returns (c: Option<Carousel>)
    modifies slides, dots
    ensures c.None? <==> slides.Length == 0 || (variant != About && !hasTrack)
    ensures c.None? ==> slides[..] == old(slides[..]) && dots[..] == old(dots[..])
    ensures c.Some? ==> fresh(c.value) && c.value.Valid() && c.value.Marked() && c.value.slides == slides
  {
    if slides.Length == 0 || (variant != About && !hasTrack) {
      return None;
    }
    var carousel := new Carousel(variant, slides, dots, intervalAttr, initHeight, vp);
    return Some(carousel);
  }
}
