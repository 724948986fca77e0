/**
 The whole page as the script drives it: one immutable record of every piece
 of UI state, the events the script listens to, and one transition per event.
 The listeners are registered in source order; the slider's initial
 `changeSlide(0)` throws when there are no slides, so the listeners registered
 after it (the slider buttons, the arrow keys, the dot container) never exist
 in that case, while everything registered before it keeps working.
 */
module Page {
  import opened Marked
  import opened Observer
  import Carousel
  import Modal
  import Tabs
  import Reveal
  import Sticky

  datatype Page = Page(
    slider: Option<Carousel.Slider>,  // None when the script stopped in the slider setup
    modal: Modal.Modal,
    panel: Tabs.TabPanel,
    sections: seq<Reveal.Section>,
    sticky: bool)

  datatype Key = Escape | ArrowRight | ArrowLeft | OtherKey

  datatype Event =
    | ShowModalClick                            // a `.btn--show-modal`
    | CloseModalClick                           // `.btn--close-modal`
    | OverlayClick                              // the backdrop
    | KeyDown(key: Key)                         // any key on the document
    | TabsClick(tabTarget: Tabs.Target)         // inside the tab container
    | RightClick                                // `.slider__btn--right`
    | LeftClick                                 // `.slider__btn--left`
    | DotsClick(dotTarget: Carousel.DotTarget)  // inside the dot container
    | HeaderObserved(entries: seq<Entry>)       // the header observer's callback
    | SectionsObserved(entries: seq<Entry>)     // the section observer's callback

  /** The invariants every handler keeps. */
  ghost predicate Valid(p: Page) {
    && (p.slider.Some? ==> Carousel.Valid(p.slider.value))
    && Modal.Consistent(p.modal)
    && Reveal.Tracked(p.sections)
  }

  /** The number of dots on the page. */
  function DotCount(p: Page): nat {
    if p.slider.Some? then |p.slider.value.dots| else 0
  }

  /** What an event can refer to on this page: existing tabs, dots and sections, and non-empty observer batches. */
  predicate Fits(p: Page, e: Event) {
    match e
    case TabsClick(t) => Tabs.Hits(p.panel, t)
    case DotsClick(t) => t.OnDot? ==> t.index < DotCount(p)
    case HeaderObserved(entries) => Delivered(entries)
    case SectionsObserved(entries) => Delivered(entries) && entries[0].target < |p.sections|
    case _ => true
  }

  /** The parts of the page no handler changes: the node lists themselves. */
  ghost predicate SameShape(p: Page, q: Page) {
    && p.slider.Some? == q.slider.Some?
    && DotCount(p) == DotCount(q)
    && SameKeys(p.panel.tabs, q.panel.tabs)
    && SameKeys(p.panel.panes, q.panel.panes)
    && |p.sections| == |q.sections|
  }

  /**
   The page once the script has run to its end: the dialog and backdrop start
   hidden and the nav not sticky (the markup's state), the tab panel as the
   markup has it, every section hidden and observed, and the slider built from
   `slideCount` slides.
   */
  function Load(panel: Tabs.TabPanel, sections: seq<Reveal.Section>, slideCount: nat): (r: Page)
    ensures Valid(r)
    ensures r.slider.None? <==> slideCount == 0
    ensures r.slider.Some? ==> r.slider.value.curSlide == 0 && r.slider.value.displayed == 0
    ensures Modal.Closed(r.modal) && !r.sticky && r.panel == panel
    ensures |r.sections| == |sections| && forall i :: 0 <= i < |r.sections| ==> r.sections[i].hidden
  {
    Page(Carousel.Init(slideCount), Modal.Modal(true, true), panel, Reveal.Setup(sections), false)
  }

  /**
   One event. Both keydown listeners see every key: the modal's reacts to
   Escape only, the slider's to the two arrows only.
   */
  function Step(p: Page, e: Event): (r: Page)
    requires Valid(p) && Fits(p, e)
    ensures Valid(r) && SameShape(p, r)
    ensures Reveal.StaysRevealed(p.sections, r.sections)
    ensures p.slider.Some? && e.DotsClick? ==> r.slider.value.curSlide == p.slider.value.curSlide
    ensures !(e.ShowModalClick? || e.CloseModalClick? || e.OverlayClick? || e == KeyDown(Escape)) ==> r.modal == p.modal
    ensures !(e.RightClick? || e.LeftClick? || e.DotsClick? || e == KeyDown(ArrowRight) || e == KeyDown(ArrowLeft)) ==> r.slider == p.slider
    ensures !e.TabsClick? ==> r.panel == p.panel
    ensures !e.SectionsObserved? ==> r.sections == p.sections
    ensures !e.HeaderObserved? ==> r.sticky == p.sticky
  {
    match e
    case ShowModalClick => p.(modal := Modal.Open(p.modal))
    case CloseModalClick => p.(modal := Modal.Close(p.modal))
    case OverlayClick => p.(modal := Modal.Close(p.modal))
    case KeyDown(k) =>
      if k == Escape then p.(modal := Modal.Escape(p.modal))
      else if k == ArrowRight && p.slider.Some? then p.(slider := Some(Carousel.RightSlide(p.slider.value)))
      else if k == ArrowLeft && p.slider.Some? then p.(slider := Some(Carousel.LeftSlide(p.slider.value)))
      else p
    case TabsClick(t) => p.(panel := Tabs.Click(p.panel, t))
    case RightClick =>
      if p.slider.Some? then p.(slider := Some(Carousel.RightSlide(p.slider.value))) else p
    case LeftClick =>
      if p.slider.Some? then p.(slider := Some(Carousel.LeftSlide(p.slider.value))) else p
    case DotsClick(t) =>
      if p.slider.Some? then p.(slider := Some(Carousel.DotClick(p.slider.value, t))) else p
    case HeaderObserved(entries) => p.(sticky := Sticky.StickyNav(p.sticky, entries))
    case SectionsObserved(entries) => p.(sections := Reveal.RevealSection(p.sections, entries))
  }

  /** The arrow keys do exactly what the slider buttons do, and any other non-Escape key does nothing. */
  lemma ArrowKeysAreButtons(p: Page)
    requires Valid(p)
    ensures Step(p, KeyDown(ArrowRight)) == Step(p, RightClick)
    ensures Step(p, KeyDown(ArrowLeft)) == Step(p, LeftClick)
    ensures Step(p, KeyDown(OtherKey)) == p
  {
  }

  /** Whether an event fits a page depends only on the page's shape. */
  lemma FitsShape(p: Page, q: Page, e: Event)
    requires SameShape(p, q) && Fits(p, e)
    ensures Fits(q, e)
  {
  }

  /** The page after a sequence of events. */
  function Run(p: Page, events: seq<Event>): (r: Page)
    requires Valid(p)
    requires forall i :: 0 <= i < |events| ==> Fits(p, events[i])
    ensures Valid(r) && SameShape(p, r)
    decreases |events|
  {
    if |events| == 0 then p
    else
      var q := Step(p, events[0]);
      assert forall i :: 0 <= i < |events| - 1 ==> Fits(q, events[1..][i]) by {
        forall i | 0 <= i < |events| - 1 ensures Fits(q, events[1..][i]) {
          FitsShape(p, q, events[i + 1]);
        }
      }
      Run(q, events[1..])
  }

  /** Whatever the user does, a revealed section is never hidden again. */
  lemma {:induction false} RunKeepsRevealed(p: Page, events: seq<Event>)
    requires Valid(p)
    requires forall i :: 0 <= i < |events| ==> Fits(p, events[i])
    ensures Reveal.StaysRevealed(p.sections, Run(p, events).sections)
    decreases |events|
  {
    if |events| > 0 {
      var q := Step(p, events[0]);
      forall i | 0 <= i < |events| - 1 ensures Fits(q, events[1..][i]) {
        FitsShape(p, q, events[i + 1]);
      }
      RunKeepsRevealed(q, events[1..]);
    }
  }
}
