/**
 * The page script of main/static/main/js/main.js: the two carousels (hero
 * and testimonials) with their previous/next buttons, dot navigation and
 * autoplay step, the header's scroll class, the highlighting of the nav
 * link of the current page, and the hamburger menu.
 *
 * A carousel's state is the `current-slide` class on each slide and the
 * `active` class on each dot button, in document order. Pixel layout
 * (`style.left`, `translateX`, resize) and timers are not modelled; a
 * handler that throws a TypeError is modelled as stopping at the point of
 * the throw, with every class change made before it kept.
 */
module MainJs {
  import opened Wrappers

  // ---------------------------------------------------------------- markers

  /**
   * `querySelector('.current-slide')` / `querySelector('.active')` over the
   * children: the first marked child, or null.
   */
  function FirstMarked(marks: seq<bool>): (r: Option<nat>)
    ensures r.None? <==> forall i :: 0 <= i < |marks| ==> !marks[i]
    ensures r.Some? ==> r.value < |marks| && marks[r.value]
    ensures r.Some? ==> forall i :: 0 <= i < r.value ==> !marks[i]
  {
    if marks == [] then None
    else if marks[0] then Some(0)
    else
      match FirstMarked(marks[1..])
      case None => None
      case Some(i) => Some(i + 1)
  }

  /** Child i is marked and no other child is. */
  predicate CurrentAt(marks: seq<bool>, i: nat) {
    i < |marks| && forall j :: 0 <= j < |marks| ==> (marks[j] <==> j == i)
  }

  lemma FirstMarkedOfCurrent(marks: seq<bool>, i: nat)
    requires CurrentAt(marks, i)
    ensures FirstMarked(marks) == Some(i)
  {
    assert marks[i];
  }

  datatype Direction = Next | Prev

  /** `nextElementSibling` / `previousElementSibling` of child i of n: null past either end. */
  function Sibling(i: nat, n: nat, dir: Direction): (r: Option<nat>)
    requires i < n
    ensures r.Some? ==> r.value < n
  {
    match dir
    case Next => if i + 1 < n then Some(i + 1) else None
    case Prev => if i > 0 then Some(i - 1) else None
  }

  /** Where a step past the end goes: `slides[0]` going forward, `slides[slides.length - 1]` going back. */
  function WrapTarget(n: nat, dir: Direction): (r: nat)
    requires n > 0
    ensures r < n
  {
    if dir.Next? then 0 else n - 1
  }

  /** One step round a ring of n positions: the reference the navigation is proved against. */
  function RingStep(i: nat, n: nat, dir: Direction): nat
    requires i < n
  {
    if dir.Next? then (i + 1) % n else (i + n - 1) % n
  }

  /** `moveToSlide`'s class changes: the mark leaves `from`, then is put on `to`. */
  function Moved(marks: seq<bool>, from: nat, to: nat): (r: seq<bool>)
    requires from < |marks| && to < |marks|
    ensures |r| == |marks| && r[to]
    ensures from != to ==> !r[from]
    ensures forall j :: 0 <= j < |r| && j != from && j != to ==> r[j] == marks[j]
  {
    marks[from := false][to := true]
  }

  /** `updateDots`: nothing happens unless both dots exist. */
  function DotsUpdated(dots: seq<bool>, currentDot: Option<nat>, targetDot: Option<nat>): (r: seq<bool>)
    requires currentDot.Some? ==> currentDot.value < |dots|
    requires targetDot.Some? ==> targetDot.value < |dots|
    ensures |r| == |dots|
    ensures currentDot.None? || targetDot.None? ==> r == dots
    ensures currentDot.Some? && targetDot.Some? ==> r == Moved(dots, currentDot.value, targetDot.value)
  {
    if currentDot.None? || targetDot.None? then dots
    else dots[currentDot.value := false][targetDot.value := true]
  }

  lemma MovedIsCurrent(marks: seq<bool>, from: nat, to: nat)
    requires from < |marks| && to < |marks|
    requires marks[from] && forall j :: 0 <= j < |marks| && j != from ==> !marks[j]
    ensures CurrentAt(Moved(marks, from, to), to)
  {
  }

  // ---------------------------------------------------------------- navigation

  /**
   * `handleNav(direction)`: with no current slide, reading its sibling
   * throws and nothing changes. Otherwise the target is the sibling slide,
   * or the slide at the other end; the target dot is the sibling of the
   * active dot, or, when the slides wrap and there are dots, the dot at the
   * other end.
   */
  function NavStep(slides: seq<bool>, dots: seq<bool>, dir: Direction): (r: (seq<bool>, seq<bool>))
    ensures |r.0| == |slides| && |r.1| == |dots|
    ensures FirstMarked(slides).None? ==> r == (slides, dots)
  {
    match FirstMarked(slides)
    case None => (slides, dots)
    case Some(c) =>
      var currentDot := FirstMarked(dots);
      var sibling := Sibling(c, |slides|, dir);
      var siblingDot := if currentDot.Some? then Sibling(currentDot.value, |dots|, dir) else None;
      var target := NavTarget(c, |slides|, dir);
      var targetDot := if sibling.None? && |dots| > 0 then Some(WrapTarget(|dots|, dir)) else siblingDot;
      (Moved(slides, c, target), DotsUpdated(dots, currentDot, targetDot))
  }

  /** The target slide of a step from slide c: the sibling, or the slide at the other end. */
  function NavTarget(c: nat, n: nat, dir: Direction): (r: nat)
    requires c < n
    ensures r < n
  {
    var sibling := Sibling(c, n, dir);
    if sibling.Some? then sibling.value else WrapTarget(n, dir)
  }

  lemma ModBelow(a: int, n: int)
    requires 0 <= a < n
    ensures a % n == a
  {
  }

  lemma ModOnce(a: int, n: int)
    requires n <= a < n + n
    ensures a % n == a - n
  {
  }

  lemma NavTargetIsRingStep(c: nat, n: nat, dir: Direction)
    requires c < n
    ensures NavTarget(c, n, dir) == RingStep(c, n, dir)
  {
    if dir.Next? {
      if c + 1 < n {
        ModBelow(c + 1, n);
      } else {
        ModOnce(c + 1, n);
      }
    } else {
      if c > 0 {
        ModOnce(c + n - 1, n);
      } else {
        ModBelow(c + n - 1, n);
      }
    }
  }

  /** The slide half of a step from a current slide c. */
  lemma NavSlides(slides: seq<bool>, dots: seq<bool>, dir: Direction, c: nat)
    requires c < |slides| && FirstMarked(slides) == Some(c)
    ensures NavStep(slides, dots, dir).0 == Moved(slides, c, NavTarget(c, |slides|, dir))
  {
  }

  /** The dot half of a step from a current slide c, when dot d is the active one. */
  lemma NavDots(slides: seq<bool>, dots: seq<bool>, dir: Direction, c: nat, d: nat)
    requires c < |slides| && FirstMarked(slides) == Some(c)
    requires d < |dots| && FirstMarked(dots) == Some(d)
    ensures Sibling(c, |slides|, dir).None? ==>
      NavStep(slides, dots, dir).1 == Moved(dots, d, WrapTarget(|dots|, dir))
    ensures Sibling(c, |slides|, dir).Some? && Sibling(d, |dots|, dir).Some? ==>
      NavStep(slides, dots, dir).1 == Moved(dots, d, Sibling(d, |dots|, dir).value)
  {
  }

  /** With one current slide at c, a step leaves exactly one current slide, one step round the ring. */
  lemma NavMovesCurrent(slides: seq<bool>, dots: seq<bool>, dir: Direction, c: nat)
    requires CurrentAt(slides, c)
    ensures CurrentAt(NavStep(slides, dots, dir).0, RingStep(c, |slides|, dir))
  {
    FirstMarkedOfCurrent(slides, c);
    NavSlides(slides, dots, dir, c);
    NavTargetIsRingStep(c, |slides|, dir);
    MovedIsCurrent(slides, c, NavTarget(c, |slides|, dir));
  }

  /** Dots that track the slides one for one keep tracking them after a step in either direction. */
  lemma NavKeepsDotsInStep(slides: seq<bool>, dots: seq<bool>, dir: Direction, c: nat)
    requires CurrentAt(slides, c) && CurrentAt(dots, c) && |dots| == |slides|
    ensures CurrentAt(NavStep(slides, dots, dir).0, RingStep(c, |slides|, dir))
    ensures CurrentAt(NavStep(slides, dots, dir).1, RingStep(c, |slides|, dir))
  {
    NavMovesCurrent(slides, dots, dir, c);
    FirstMarkedOfCurrent(slides, c);
    FirstMarkedOfCurrent(dots, c);
    NavDots(slides, dots, dir, c, c);
    NavTargetIsRingStep(c, |slides|, dir);
    MovedIsCurrent(dots, c, NavTarget(c, |slides|, dir));
  }

  /** "next" from the last slide lands on the first; the active dot, wherever it was, becomes the first dot. */
  lemma NextWrapsToFirst(slides: seq<bool>, dots: seq<bool>, d: nat)
    requires slides != [] && CurrentAt(slides, |slides| - 1)
    requires CurrentAt(dots, d)
    ensures CurrentAt(NavStep(slides, dots, Next).0, 0)
    ensures CurrentAt(NavStep(slides, dots, Next).1, 0)
  {
    var c := |slides| - 1;
    NavMovesCurrent(slides, dots, Next, c);
    FirstMarkedOfCurrent(slides, c);
    FirstMarkedOfCurrent(dots, d);
    NavDots(slides, dots, Next, c, d);
    MovedIsCurrent(dots, d, 0);
  }

  /** "prev" from the first slide lands on the last; the active dot becomes the last dot. */
  lemma PrevWrapsToLast(slides: seq<bool>, dots: seq<bool>, d: nat)
    requires CurrentAt(slides, 0)
    requires CurrentAt(dots, d)
    ensures CurrentAt(NavStep(slides, dots, Prev).0, |slides| - 1)
    ensures CurrentAt(NavStep(slides, dots, Prev).1, |dots| - 1)
  {
    NavMovesCurrent(slides, dots, Prev, 0);
    FirstMarkedOfCurrent(slides, 0);
    FirstMarkedOfCurrent(dots, d);
    NavDots(slides, dots, Prev, 0, d);
    MovedIsCurrent(dots, d, |dots| - 1);
  }

  /** Without an active dot the dots are left alone by a step. */
  lemma NavWithoutActiveDot(slides: seq<bool>, dots: seq<bool>, dir: Direction)
    requires forall i :: 0 <= i < |dots| ==> !dots[i]
    ensures NavStep(slides, dots, dir).1 == dots
  {
  }

  // ---------------------------------------------------------------- dot click

  /**
   * The clicked element: not inside any button, or a button, with the index
   * `dots.findIndex` gives it (-1 for a button that is not one of the dots).
   */
  datatype Click = NotAButton | Button(dotIndex: int)

  /**
   * The dot-navigation click handler. A click outside a button does nothing.
   * `slides[targetIndex]` is undefined when the index is not a slide's; with
   * absolute slides reading its `style` throws before any change, with flex
   * slides the current mark is removed and adding it to the target throws.
   * With no current slide, removing its mark throws first.
   */
  function ClickStep(slides: seq<bool>, dots: seq<bool>, isAbsolute: bool, click: Click): (r: (seq<bool>, seq<bool>))
    requires click.Button? ==> -1 <= click.dotIndex < |dots|
    ensures |r.0| == |slides| && |r.1| == |dots|
    ensures click.NotAButton? || FirstMarked(slides).None? ==> r == (slides, dots)
  {
    match click
    case NotAButton => (slides, dots)
    case Button(k) =>
      match FirstMarked(slides)
      case None => (slides, dots)
      case Some(c) =>
        if 0 <= k < |slides| then (Moved(slides, c, k), DotsUpdated(dots, FirstMarked(dots), Some(k)))
        else if isAbsolute then (slides, dots)
        else (slides[c := false], dots)
  }

  /** Clicking dot k moves to slide k and makes dot k the only active dot. */
  lemma ClickDotSelects(slides: seq<bool>, dots: seq<bool>, isAbsolute: bool, c: nat, d: nat, k: nat)
    requires CurrentAt(slides, c) && CurrentAt(dots, d)
    requires k < |slides| && k < |dots|
    ensures CurrentAt(ClickStep(slides, dots, isAbsolute, Button(k)).0, k)
    ensures CurrentAt(ClickStep(slides, dots, isAbsolute, Button(k)).1, k)
  {
    FirstMarkedOfCurrent(slides, c);
    FirstMarkedOfCurrent(dots, d);
    MovedIsCurrent(slides, c, k);
    MovedIsCurrent(dots, d, k);
  }

  /**
   * On a flex carousel, a click on a button with no slide of its own (a
   * non-dot button, or a dot past the last slide) leaves no current slide,
   * and from then on neither button moves the carousel.
   */
  lemma StrayClickStopsFlexCarousel(slides: seq<bool>, dots: seq<bool>, c: nat, k: int, dir: Direction)
    requires CurrentAt(slides, c)
    requires -1 <= k < |dots| && !(0 <= k < |slides|)
    ensures forall j :: 0 <= j < |slides| ==> !ClickStep(slides, dots, false, Button(k)).0[j]
    ensures NavStep(ClickStep(slides, dots, false, Button(k)).0, dots, dir) == ClickStep(slides, dots, false, Button(k))
  {
    FirstMarkedOfCurrent(slides, c);
    var r := ClickStep(slides, dots, false, Button(k));
    assert r == (slides[c := false], dots);
    assert FirstMarked(r.0).None?;
  }

  // ---------------------------------------------------------------- the carousel

  /** One carousel, as `initCarousel` sets it up. */
  class Carousel {
    /** `current-slide` on each slide of the track. */
    var slides: seq<bool>
    /** `active` on each child of the dot nav; empty when there is no dot nav. */
    var dots: seq<bool>
    const hasDotsNav: bool
    /** Whether the first slide's computed position is `absolute` (the hero carousel). */
    const isAbsolute: bool

    constructor (slides: seq<bool>, dotsNav: Option<seq<bool>>, isAbsolute: bool)
      ensures this.slides == slides
      ensures dots == (if dotsNav.Some? then dotsNav.value else [])
      ensures hasDotsNav == dotsNav.Some? && this.isAbsolute == isAbsolute
    {
      this.slides := slides;
      dots := if dotsNav.Some? then dotsNav.value else [];
      hasDotsNav := dotsNav.Some?;
      this.isAbsolute := isAbsolute;
    }

    /** `moveToSlide`: the current mark goes from one slide to the other; the dots are untouched. */
    method MoveToSlide(current: nat, target: nat)
      requires current < |slides| && target < |slides|
      modifies this
      ensures slides == old(slides)[current := false][target := true]
      ensures dots == old(dots)
    {
      slides := slides[current := false];
      slides := slides[target := true];
    }

    /** `updateDots`: moves the active mark between two dots, and does nothing if either is missing. */
    method UpdateDots(currentDot: Option<nat>, targetDot: Option<nat>)
      requires currentDot.Some? ==> currentDot.value < |dots|
      requires targetDot.Some? ==> targetDot.value < |dots|
      modifies this
      ensures currentDot.None? || targetDot.None? ==> dots == old(dots)
      ensures currentDot.Some? && targetDot.Some? ==> dots == old(dots)[currentDot.value := false][targetDot.value := true]
      ensures slides == old(slides)
    {
      if currentDot.None? || targetDot.None? {
        return;
      }
      dots := dots[currentDot.value := false];
      dots := dots[targetDot.value := true];
    }

    /** A click on the next or previous button. */
    method HandleNav(dir: Direction)
      modifies this
      ensures (slides, dots) == NavStep(old(slides), old(dots), dir)
    {
      var currentSlide := FirstMarked(slides);
      var currentDot := FirstMarked(dots);
      if currentSlide.None? {
        return;  // `currentSlide.nextElementSibling` throws
      }
      var c := currentSlide.value;
      var nextSlide := Sibling(c, |slides|, dir);
      var nextDot := if currentDot.Some? then Sibling(currentDot.value, |dots|, dir) else None;
      if nextSlide.None? {
        nextSlide := Some(WrapTarget(|slides|, dir));
        if |dots| > 0 {
          nextDot := Some(WrapTarget(|dots|, dir));
        }
      }
      MoveToSlide(c, nextSlide.value);
      UpdateDots(currentDot, nextDot);
    }

    /** One autoplay interval: the same step as the next button, returning early without a current slide. */
    method AutoPlayTick()
      modifies this
      ensures (slides, dots) == NavStep(old(slides), old(dots), Next)
    {
      var currentSlide := FirstMarked(slides);
      if currentSlide.None? {
        return;
      }
      var c := currentSlide.value;
      var nextSlide := Sibling(c, |slides|, Next);
      var currentDot := FirstMarked(dots);
      var nextDot := if currentDot.Some? then Sibling(currentDot.value, |dots|, Next) else None;
      if nextSlide.None? {
        nextSlide := Some(0);
        if |dots| > 0 {
          nextDot := Some(0);
        }
      }
      MoveToSlide(c, nextSlide.value);
      UpdateDots(currentDot, nextDot);
    }

    /** A click inside the dot nav; without a dot nav no handler is attached. */
    method ClickDot(click: Click)
      requires click.Button? ==> -1 <= click.dotIndex < |dots|
      modifies this
      ensures hasDotsNav ==> (slides, dots) == ClickStep(old(slides), old(dots), isAbsolute, click)
      ensures !hasDotsNav ==> slides == old(slides) && dots == old(dots)
    {
      if !hasDotsNav || click.NotAButton? {
        return;
      }
      var currentSlide := FirstMarked(slides);
      var currentDot := FirstMarked(dots);
      var k := click.dotIndex;
      if currentSlide.None? {
        return;  // `currentSlide.classList` throws
      }
      if !(0 <= k < |slides|) {
        if !isAbsolute {
          slides := slides[currentSlide.value := false];
        }
        return;  // the undefined target slide throws
      }
      MoveToSlide(currentSlide.value, k);
      UpdateDots(currentDot, Some(k));
    }
  }

  /**
   * `initCarousel`: nothing is set up when the track is missing or has no
   * slides.
   */
  method InitCarousel(track: Option<seq<bool>>, dotsNav: Option<seq<bool>>, isAbsolute: bool)
    returns (c: Option<Carousel>)
    ensures c.None? <==> track.None? || track.value == []
    ensures c.Some? ==> fresh(c.value) && c.value.slides == track.value
    ensures c.Some? ==> c.value.dots == (if dotsNav.Some? then dotsNav.value else [])
    ensures c.Some? ==> c.value.hasDotsNav == dotsNav.Some? && c.value.isAbsolute == isAbsolute
  {
    if track.None? {
      return None;
    }
    if |track.value| == 0 {
      return None;
    }
    var carousel := new Carousel(track.value, dotsNav, isAbsolute);
    c := Some(carousel);
  }

  // ---------------------------------------------------------------- header and navigation bar

  /** The threshold in pixels past which the header counts as scrolled. */
  const SCROLL_THRESHOLD: real := 50.0

  /** The page header and its `scrolled` class. */
  class Header {
    var scrolled: bool

    constructor (scrolled: bool)
      ensures this.scrolled == scrolled
    {
      this.scrolled := scrolled;
    }

    /** The scroll handler: the class is set past the threshold and removed otherwise. */
    method OnScroll(scrollY: real)
      modifies this
      ensures scrolled <==> scrollY > SCROLL_THRESHOLD
    {
      if scrollY > SCROLL_THRESHOLD {
        scrolled := true;
      } else {
        scrolled := false;
      }
    }
  }

  /**
   * Active link highlighting: every link whose `href` attribute equals the
   * current path gains `active`; the others keep what they had.
   */
  function Highlighted(hrefs: seq<Option<string>>, active: seq<bool>, path: string): (r: seq<bool>)
    requires |hrefs| == |active|
    ensures |r| == |active|
    ensures forall i :: 0 <= i < |r| ==> (r[i] <==> active[i] || hrefs[i] == Some(path))
  {
    seq(|active|, i requires 0 <= i < |active| => active[i] || hrefs[i] == Some(path))
  }

  /** Highlighting twice is highlighting once. */
  lemma HighlightIdempotent(hrefs: seq<Option<string>>, active: seq<bool>, path: string)
    requires |hrefs| == |active|
    ensures Highlighted(hrefs, Highlighted(hrefs, active, path), path) == Highlighted(hrefs, active, path)
  {
  }

  /** The links of `.nav-links`. */
  class NavLinks {
    /** Each link's `href` attribute, null when it has none. */
    const hrefs: seq<Option<string>>
    var active: seq<bool>

    ghost predicate Valid()
      reads this
    {
      |active| == |hrefs|
    }

    constructor (hrefs: seq<Option<string>>)
      ensures Valid() && this.hrefs == hrefs
      ensures forall i :: 0 <= i < |active| ==> !active[i]
    {
      this.hrefs := hrefs;
      active := seq(|hrefs|, _ => false);
    }

    /** The `forEach` over the links, marking those that point at the current path. */
    method Highlight(path: string)
      requires Valid()
      modifies this
      ensures Valid()
      ensures active == Highlighted(hrefs, old(active), path)
    {
      var i := 0;
      while i < |hrefs|
        invariant 0 <= i <= |hrefs| && |active| == |hrefs|
        invariant forall j :: 0 <= j < i ==> (active[j] <==> old(active)[j] || hrefs[j] == Some(path))
        invariant forall j :: i <= j < |hrefs| ==> active[j] == old(active)[j]
      {
        if hrefs[i] == Some(path) {
          active := active[i := true];
        }
        i := i + 1;
      }
    }
  }

  /** The hamburger button and the menu it opens; the listeners exist only when both elements do. */
  class Menu {
    /** `active` on `.nav-links`. */
    var menuOpen: bool
    /** `active` on `.hamburger`. */
    var buttonActive: bool
    const wired: bool

    constructor (hamburgerPresent: bool, navLinksPresent: bool)
      ensures !menuOpen && !buttonActive
      ensures wired == (hamburgerPresent && navLinksPresent)
    {
      menuOpen := false;
      buttonActive := false;
      wired := hamburgerPresent && navLinksPresent;
    }

    /**
     * A click on the hamburger toggles `active` on the menu and on the
     * button: one step of `MenuAfter`, so a button that agreed with the menu
     * still does.
     */
    method ClickHamburger()
      modifies this
      ensures wired ==> menuOpen == !old(menuOpen) && buttonActive == !old(buttonActive)
      ensures !wired ==> menuOpen == old(menuOpen) && buttonActive == old(buttonActive)
      ensures wired ==> (menuOpen, buttonActive) == MenuAfter(old(menuOpen), old(buttonActive), [true])
      ensures old(menuOpen) == old(buttonActive) ==> menuOpen == buttonActive
    {
      if wired {
        menuOpen := !menuOpen;
        buttonActive := !buttonActive;
      }
    }

    /**
     * A click on any link in the menu closes it and clears the button: one
     * step of `MenuAfter`, after which the two agree whatever they were.
     */
    method ClickNavLink()
      modifies this
      ensures wired ==> !menuOpen && !buttonActive
      ensures !wired ==> menuOpen == old(menuOpen) && buttonActive == old(buttonActive)
      ensures wired ==> (menuOpen, buttonActive) == MenuAfter(old(menuOpen), old(buttonActive), [false])
      ensures old(menuOpen) == old(buttonActive) ==> menuOpen == buttonActive
    {
      if wired {
        menuOpen := false;
        buttonActive := false;
      }
    }
  }

  /**
   * The menu and button classes after a sequence of clicks on the hamburger
   * (true) or on a menu link (false): each click is one call of
   * `Menu.ClickHamburger` or `Menu.ClickNavLink` on a wired menu.
   */
  function MenuAfter(menuOpen: bool, buttonActive: bool, clicks: seq<bool>): (bool, bool)
    decreases |clicks|
  {
    if clicks == [] then (menuOpen, buttonActive)
    else if clicks[0] then MenuAfter(!menuOpen, !buttonActive, clicks[1..])
    else MenuAfter(false, false, clicks[1..])
  }

  /**
   * Starting with the menu and the button in the same state, the button's
   * `active` class agrees with the menu's after any sequence of clicks.
   */
  lemma {:induction false} MenuAndButtonAgree(open: bool, clicks: seq<bool>)
    ensures MenuAfter(open, open, clicks).0 == MenuAfter(open, open, clicks).1
    decreases |clicks|
  {
    if clicks != [] {
      if clicks[0] {
        MenuAndButtonAgree(!open, clicks[1..]);
      } else {
        MenuAndButtonAgree(false, clicks[1..]);
      }
    }
  }
}
