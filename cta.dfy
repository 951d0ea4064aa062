/** The floating call-to-action of the web landing page: shown once the
    visitor has scrolled through a fifth of the scrollable distance. */
module FloatingCta {

  /** Fraction of the scrollable distance after which the call-to-action shows. */
  const Threshold: real := 0.2

  /** `Math.max(0, scrollHeight - clientHeight)`: how far the page can scroll. */
  function Scrollable(scrollHeight: int, clientHeight: int): (d: nat)
    ensures d == 0 <==> scrollHeight <= clientHeight
    ensures d > 0 ==> d == scrollHeight - clientHeight
  {
    if scrollHeight - clientHeight > 0 then scrollHeight - clientHeight else 0
  }

  /** The value `updateCTAVisibility` stores in `showCTA`: hidden while
      nothing can scroll, otherwise shown iff scrollTop / scrollable >= 0.2. */
  function ShowCta(scrollTop: real, scrollHeight: int, clientHeight: int): (show: bool)
    ensures scrollHeight <= clientHeight ==> !show
    ensures scrollHeight > clientHeight ==>
              (show <==> 5.0 * scrollTop >= (scrollHeight - clientHeight) as real)
  {
    var scrollable := Scrollable(scrollHeight, clientHeight);
    if scrollable == 0 then false
    else
      var progress := scrollTop / scrollable as real;
      ThresholdScaled(scrollTop, scrollable as real);
      progress >= Threshold
  }

  lemma ThresholdScaled(top: real, d: real)
    requires d > 0.0
    ensures top / d >= Threshold <==> 5.0 * top >= d
  {
    assert top == (top / d) * d;
  }

  /** Scrolling further down never hides a shown call-to-action. */
  lemma ShowCtaMonotone(t1: real, t2: real, scrollHeight: int, clientHeight: int)
    requires t1 <= t2
    requires ShowCta(t1, scrollHeight, clientHeight)
    ensures ShowCta(t2, scrollHeight, clientHeight)
  {
  }

  /** Hidden at the top of the page; shown at (or past) the bottom whenever
      the page can scroll at all. */
  lemma ShowCtaEnds(scrollTop: real, scrollHeight: int, clientHeight: int)
    ensures !ShowCta(0.0, scrollHeight, clientHeight)
    ensures scrollHeight > clientHeight && scrollTop >= (scrollHeight - clientHeight) as real ==>
              ShowCta(scrollTop, scrollHeight, clientHeight)
  {
  }

  /** The `Home` component's `showCTA` state. */
  class Home {
    var showCTA: bool

    /** `useState(false)`. */
    constructor ()
      ensures !showCTA
    {
      showCTA := false;
    }

    /** `updateCTAVisibility`, with the document's scroll position and
        heights passed in. */
    method UpdateCtaVisibility(scrollTop: real, scrollHeight: int, clientHeight: int)
      modifies this
      ensures showCTA == ShowCta(scrollTop, scrollHeight, clientHeight)
    {
      var scrollable := if scrollHeight - clientHeight > 0 then scrollHeight - clientHeight else 0;
      if scrollable == 0 {
        showCTA := false;
        return;
      }
      var progress := scrollTop / scrollable as real;
      showCTA := progress >= 0.2;
    }
  }
}
