// The developer section: the scroll-driven banner and the staged exit fade.
//
// The banner scrolls sideways by a velocity that the page scroll sets; its
// offset wraps around half of the banner's width. Once the entrance
// animations have completed, an exit timeline maps scroll progress in its
// window to the opacity of three element groups, and its enter/leave
// callbacks force all six tracked elements to a fixed opacity.
module Developer {

  /** `speed`: the banner's velocity magnitude near the top or bottom of the page. */
  const Speed: real := 0.5
  /** Distance from the top or bottom of the page that counts as "near". */
  const EdgeMargin: real := 10.0
  /** Away from the edges the velocity is this factor times the scroll delta. */
  const VelocityGain: real := 0.2

  // ---------------------------------------------------------------------
  // Banner offset and velocity
  // ---------------------------------------------------------------------

  /** `currentX` after the two wrap checks of `updatePosition`, applied to the
      moved offset `x`, with `width = banner.scrollWidth / 2`. */
  function WrapOffset(x: real, width: real): (r: real)
    requires width >= 0.0
    ensures width > 0.0 ==> -width <= r < 0.0
    ensures width == 0.0 ==> r == 0.0
    ensures -width < x < 0.0 ==> r == x
    ensures x <= -width || x >= 0.0 ==> r == -width
  {
    var reset := if x <= -width then 0.0 else x;
    if reset >= 0.0 then -width else reset
  }

  /** Near the top or the bottom of the scrollable range. A page that scrolls
      by no more than twice the margin is near an edge everywhere; otherwise
      the positions more than the margin from both ends are not. */
  predicate NearEdge(current: real, maxScrollTop: real): (r: bool)
    ensures maxScrollTop <= 2.0 * EdgeMargin ==> r
    ensures EdgeMargin < current < maxScrollTop - EdgeMargin ==> !r
  {
    current >= maxScrollTop - EdgeMargin || current <= EdgeMargin
  }

  /** The velocity `handleScroll` assigns for a scroll from `last` to `current`. */
  function ScrollVelocity(current: real, last: real, maxScrollTop: real): (v: real)
    ensures NearEdge(current, maxScrollTop) ==> (v == Speed || v == -Speed)
    ensures NearEdge(current, maxScrollTop) ==> (v < 0.0 <==> current - last > 0.0)
    ensures !NearEdge(current, maxScrollTop) ==> v == VelocityGain * (current - last)
  {
    var delta := current - last;
    var dir := if delta > 0.0 then -1.0 else 1.0;
    if NearEdge(current, maxScrollTop) then dir * Speed else delta * VelocityGain
  }

  /** Away from the edges the banner moves with the scroll; near them it
      moves against it, and a zero delta there still moves it (to the right). */
  lemma VelocityDirection(current: real, last: real, maxScrollTop: real)
    ensures var v := ScrollVelocity(current, last, maxScrollTop);
      if NearEdge(current, maxScrollTop)
      then v * (current - last) <= 0.0 && v != 0.0
      else v * (current - last) >= 0.0 && (v == 0.0 <==> current == last)
  {
  }

  /** The banner effect's mutable state: `currentX`, `velocity.current`,
      `lastScroll.current`, and `maxScrollTop` fixed at mount. */
  class BannerScroller {
    var currentX: real
    var velocity: real
    var lastScroll: real
    const maxScrollTop: real

    constructor (scrollY: real, maxScrollTop: real)
      ensures currentX == 0.0 && velocity == 0.0 && lastScroll == scrollY
      ensures this.maxScrollTop == maxScrollTop
    {
      currentX := 0.0;
      velocity := 0.0;
      lastScroll := scrollY;
      this.maxScrollTop := maxScrollTop;
    }

    /** One animation frame of `updatePosition`; `width` is `banner.scrollWidth / 2`. */
    method UpdatePosition(width: real)
      requires width >= 0.0
      modifies this`currentX
      ensures currentX == WrapOffset(old(currentX) + velocity, width)
      ensures width > 0.0 ==> -width <= currentX < 0.0
    {
      currentX := currentX + velocity;
      if currentX <= -width {
        currentX := 0.0;
      }
      if currentX >= 0.0 {
        currentX := -width;
      }
    }

    /** The window scroll listener `handleScroll`. */
    method HandleScroll(currentScroll: real)
      modifies this`velocity, this`lastScroll
      ensures velocity == ScrollVelocity(currentScroll, old(lastScroll), maxScrollTop)
      ensures lastScroll == currentScroll
    {
      var scrollDelta := currentScroll - lastScroll;
      var scrollDir := if scrollDelta > 0.0 then -1.0 else 1.0;
      var nearBottom := currentScroll >= maxScrollTop - EdgeMargin;
      var nearTop := currentScroll <= EdgeMargin;
      if nearBottom || nearTop {
        velocity := scrollDir * Speed;
      } else {
        velocity := scrollDelta * VelocityGain;
      }
      lastScroll := currentScroll;
    }
  }

  // ---------------------------------------------------------------------
  // The exit fade schedule
  // ---------------------------------------------------------------------

  /** The six elements the exit timeline tracks. */
  datatype Element =
    | BannerContainer | DevInfoLeft | DevInfoRight | ImageContainer | DevInfo3 | DeveloperTitle

  /** All six, in the order the exit callbacks list them. */
  const TrackedElements: seq<Element> :=
    [BannerContainer, DevInfoLeft, DevInfoRight, ImageContainer, DevInfo3, DeveloperTitle]

  /** One `gsap.to(targets, { opacity })` call; the tween's duration is left out. */
  datatype Tween = Tween(targets: seq<Element>, opacity: real)

  /** The title and info-3 fade over progress (0.7, 1]. */
  predicate TitleWindow(p: real) { p > 0.7 }
  /** The image fades over progress (0.5, 0.8]. */
  predicate ImageWindow(p: real) { 0.5 < p <= 0.8 }
  /** The banner fades over progress (0.1, 0.4]. */
  predicate BannerWindow(p: real) { 0.1 < p <= 0.4 }

  /** `Math.max(0, 1 - (p - start) / 0.3)`: opacity after a fade that began at `start`. */
  function FadeOpacity(p: real, start: real): (o: real)
    requires p > start
    ensures 0.0 <= o < 1.0
    ensures p >= start + 0.3 ==> o == 0.0
  {
    var fadeProgress := (p - start) / 0.3;
    if 1.0 - fadeProgress > 0.0 then 1.0 - fadeProgress else 0.0
  }

  /** Within one fade the opacity never increases as progress grows. */
  lemma FadeOpacityMonotone(p: real, q: real, start: real)
    requires start < p <= q
    ensures FadeOpacity(q, start) <= FadeOpacity(p, start)
  {
  }

  /** The tweens the exit timeline's `onUpdate` issues at progress `p`, in the
      source's order: title and info-3, then the image, then the banner. */
  function FadeOutSchedule(p: real): (tweens: seq<Tween>)
    ensures forall k :: 0 <= k < |tweens| ==> 0.0 <= tweens[k].opacity <= 1.0
    ensures |tweens| <= 3
  {
    (if TitleWindow(p) then [Tween([DeveloperTitle, DevInfo3], FadeOpacity(p, 0.7))] else [])
    + (if ImageWindow(p) then [Tween([ImageContainer], FadeOpacity(p, 0.5))] else [])
    + (if BannerWindow(p) then [Tween([BannerContainer], FadeOpacity(p, 0.1))] else [])
  }

  /** The fades run in order: the banner window closes before the image and
      title windows open, the image window opens before the title window, and
      the image and title windows overlap exactly on (0.7, 0.8]. */
  lemma FadeWindowsOrder(p: real, q: real)
    ensures BannerWindow(p) && (ImageWindow(q) || TitleWindow(q)) ==> p < q
    ensures ImageWindow(p) && !ImageWindow(q) && TitleWindow(q) ==> p < q
    ensures !(BannerWindow(p) && ImageWindow(p))
    ensures !(BannerWindow(p) && TitleWindow(p))
    ensures ImageWindow(p) && TitleWindow(p) <==> 0.7 < p <= 0.8
  {
  }

  /** The opacity of every tracked element, as the last tween sets it
      (tweens are modelled as reaching their target at once). */
  type Opacities = map<Element, real>

  /** Every tracked element has an opacity in [0, 1]. */
  ghost predicate WellFormed(m: Opacities)
  {
    forall e: Element :: e in m && 0.0 <= m[e] <= 1.0
  }

  /** No tween of `tweens` targets `e`. */
  predicate Untouched(tweens: seq<Tween>, e: Element)
  {
    forall k :: 0 <= k < |tweens| ==> e !in tweens[k].targets
  }

  /** Every tween of `tweens` sets an opacity in [0, 1]. */
  predicate OpacitiesInRange(tweens: seq<Tween>)
  {
    forall k :: 0 <= k < |tweens| ==> 0.0 <= tweens[k].opacity <= 1.0
  }

  /** The opacities after running `tweens` in order. */
  function ApplyTweens(m: Opacities, tweens: seq<Tween>): (r: Opacities)
    ensures forall e :: e in m ==> e in r
    ensures forall e :: e in m && Untouched(tweens, e) ==> r[e] == m[e]
    ensures WellFormed(m) && OpacitiesInRange(tweens) ==> WellFormed(r)
    decreases |tweens|
  {
    if tweens == [] then m
    else
      var last := tweens[|tweens| - 1];
      var before := ApplyTweens(m, tweens[..|tweens| - 1]);
      before + map e | e in last.targets :: last.opacity
  }

  /** An element that exactly one tween targets ends with that tween's opacity. */
  lemma {:induction false} ApplyTweensSole(m: Opacities, tweens: seq<Tween>, k: nat, e: Element)
    requires k < |tweens| && e in tweens[k].targets
    requires forall j :: 0 <= j < |tweens| && j != k ==> e !in tweens[j].targets
    ensures e in ApplyTweens(m, tweens) && ApplyTweens(m, tweens)[e] == tweens[k].opacity
  {
    var n := |tweens| - 1;
    if k < n {
      ApplyTweensSole(m, tweens[..n], k, e);
    }
  }

  /** The exit schedule leaves every opacity in [0, 1]. */
  lemma FadeOutWellFormed(m: Opacities, p: real)
    requires WellFormed(m)
    ensures WellFormed(ApplyTweens(m, FadeOutSchedule(p)))
  {
    assert OpacitiesInRange(FadeOutSchedule(p));
  }

  /** The banner changes exactly in its window, to its linear fade value. */
  lemma FadeOutBanner(m: Opacities, p: real)
    requires BannerContainer in m
    ensures ApplyTweens(m, FadeOutSchedule(p))[BannerContainer]
      == if BannerWindow(p) then FadeOpacity(p, 0.1) else m[BannerContainer]
  {
    var tweens := FadeOutSchedule(p);
    if BannerWindow(p) {
      assert tweens == [Tween([BannerContainer], FadeOpacity(p, 0.1))];
      ApplyTweensSole(m, tweens, 0, BannerContainer);
    } else {
      assert Untouched(tweens, BannerContainer);
    }
  }

  /** The image changes exactly in its window, to its linear fade value. */
  lemma FadeOutImage(m: Opacities, p: real)
    requires ImageContainer in m
    ensures ApplyTweens(m, FadeOutSchedule(p))[ImageContainer]
      == if ImageWindow(p) then FadeOpacity(p, 0.5) else m[ImageContainer]
  {
    var tweens := FadeOutSchedule(p);
    if ImageWindow(p) {
      var k := if TitleWindow(p) then 1 else 0;
      assert tweens[k] == Tween([ImageContainer], FadeOpacity(p, 0.5));
      ApplyTweensSole(m, tweens, k, ImageContainer);
    } else {
      assert Untouched(tweens, ImageContainer);
    }
  }

  /** The title and info-3 change exactly in their window, to their linear fade value. */
  lemma FadeOutTitle(m: Opacities, p: real, e: Element)
    requires e == DeveloperTitle || e == DevInfo3
    requires e in m
    ensures ApplyTweens(m, FadeOutSchedule(p))[e]
      == if TitleWindow(p) then FadeOpacity(p, 0.7) else m[e]
  {
    var tweens := FadeOutSchedule(p);
    if TitleWindow(p) {
      assert tweens[0] == Tween([DeveloperTitle, DevInfo3], FadeOpacity(p, 0.7));
      ApplyTweensSole(m, tweens, 0, e);
    } else {
      assert Untouched(tweens, e);
    }
  }

  /** The exit schedule never touches the two side texts. */
  lemma FadeOutSparesSideTexts(m: Opacities, p: real, e: Element)
    requires e == DevInfoLeft || e == DevInfoRight
    requires e in m
    ensures ApplyTweens(m, FadeOutSchedule(p))[e] == m[e]
  {
    assert Untouched(FadeOutSchedule(p), e);
  }

  /** The ScrollTrigger callbacks of one trigger. */
  datatype TriggerEvent = Enter | Leave | EnterBack | LeaveBack

  /** Every element is one of the six tracked ones. */
  lemma Tracked(e: Element)
    ensures e in TrackedElements
  {
    match e
    case BannerContainer => assert TrackedElements[0] == e;
    case DevInfoLeft => assert TrackedElements[1] == e;
    case DevInfoRight => assert TrackedElements[2] == e;
    case ImageContainer => assert TrackedElements[3] == e;
    case DevInfo3 => assert TrackedElements[4] == e;
    case DeveloperTitle => assert TrackedElements[5] == e;
  }

  /** The tweens an exit-trigger callback issues: `onEnter` and `onLeaveBack`
      show all six elements, `onLeave` hides them, `onEnterBack` only logs. */
  function ExitCallbackTweens(ev: TriggerEvent): (tweens: seq<Tween>)
    ensures ev == EnterBack <==> tweens == []
    ensures |tweens| <= 1
    ensures forall k :: 0 <= k < |tweens| ==>
      (forall e: Element :: e in tweens[k].targets)
      && tweens[k].opacity == (if ev == Leave then 0.0 else 1.0)
  {
    forall e: Element ensures e in TrackedElements { Tracked(e); }
    match ev
    case Enter => [Tween(TrackedElements, 1.0)]
    case Leave => [Tween(TrackedElements, 0.0)]
    case EnterBack => []
    case LeaveBack => [Tween(TrackedElements, 1.0)]
  }

  /** After an exit callback every element shows the callback's opacity:
      0 after `onLeave`, 1 after `onEnter` and `onLeaveBack`, and its old
      opacity after `onEnterBack`. */
  lemma ExitCallbackSetsAll(m: Opacities, ev: TriggerEvent, e: Element)
    requires e in m
    ensures e in ApplyTweens(m, ExitCallbackTweens(ev))
    ensures ApplyTweens(m, ExitCallbackTweens(ev))[e]
      == (if ev == Leave then 0.0 else if ev == EnterBack then m[e] else 1.0)
  {
    var tweens := ExitCallbackTweens(ev);
    if ev != EnterBack {
      ApplyTweensSole(m, tweens, 0, e);
    }
  }

  /** `allAnimationsComplete` after an entrance-trigger callback: set by
      `onLeave`, cleared by `onEnterBack`, otherwise kept. */
  function EntranceGate(complete: bool, ev: TriggerEvent): (r: bool)
    ensures ev == Leave ==> r
    ensures ev == EnterBack ==> !r
    ensures ev == Enter || ev == LeaveBack ==> r == complete
  {
    match ev
    case Leave => true
    case EnterBack => false
    case _ => complete
  }

  /** The gate is not a one-way latch: scrolling back into the entrance
      window disarms the exit timeline again. */
  lemma GateIsNotLatched(complete: bool)
    ensures EntranceGate(complete, Leave)
    ensures !EntranceGate(EntranceGate(complete, Leave), EnterBack)
  {
  }

  /** The sequencing state: the completion flag and the tracked opacities. */
  class ExitSequencer {
    var allAnimationsComplete: bool
    var opacity: Opacities

    ghost predicate Valid()
      reads this
    {
      WellFormed(opacity)
    }

    constructor (initial: Opacities)
      requires WellFormed(initial)
      ensures Valid()
      ensures !allAnimationsComplete && opacity == initial
    {
      allAnimationsComplete := false;
      opacity := initial;
    }

    /** A callback of the entrance trigger (`250vh`..`350vh`). */
    method EntranceCallback(ev: TriggerEvent)
      modifies this`allAnimationsComplete
      ensures allAnimationsComplete == EntranceGate(old(allAnimationsComplete), ev)
    {
      match ev {
        case Leave => allAnimationsComplete := true;
        case EnterBack => allAnimationsComplete := false;
        case _ =>
      }
    }

    /** `onUpdate` of the exit timeline at progress `p`; the timeline exists
        only while `allAnimationsComplete` holds. */
    method ExitUpdate(p: real)
      requires Valid()
      modifies this`opacity
      ensures Valid()
      ensures opacity == if allAnimationsComplete then ApplyTweens(old(opacity), FadeOutSchedule(p)) else old(opacity)
    {
      if allAnimationsComplete {
        FadeOutWellFormed(opacity, p);
        opacity := ApplyTweens(opacity, FadeOutSchedule(p));
      }
    }

    /** A callback of the exit trigger (`750vh`..`950vh`), again only while armed. */
    method ExitCallback(ev: TriggerEvent)
      requires Valid()
      modifies this`opacity
      ensures Valid()
      ensures opacity == if allAnimationsComplete then ApplyTweens(old(opacity), ExitCallbackTweens(ev)) else old(opacity)
      ensures allAnimationsComplete && ev != EnterBack ==>
        forall e :: opacity[e] == (if ev == Leave then 0.0 else 1.0)
    {
      if allAnimationsComplete {
        var tweens := ExitCallbackTweens(ev);
        opacity := ApplyTweens(opacity, tweens);
        forall e: Element
          ensures ev != EnterBack ==> opacity[e] == (if ev == Leave then 0.0 else 1.0)
        {
          ExitCallbackSetsAll(old(opacity), ev, e);
        }
      }
    }
  }
}
