# Landing page script — a Dafny model of its UI state machines

The page script (`script.js`) wires a marketing page: a modal dialog, a tabbed
"operations" panel, a sticky navigation bar, sections that fade in on scroll,
lazy images, and an image slider with indicator dots. This project models the
parts of it that hold state — the slider, the dialog, the tabs, the section
reveal and the sticky nav — as pure transitions over an immutable page record,
and proves the laws the script relies on.

Modules:

- `Marked` (`marked.dfy`): a node list whose elements carry an "active" class
  and are found by a data attribute; `querySelector` as "first element with this
  key", and the clear-all-then-mark-one pattern the script uses for dots, tabs
  and panes.
- `Carousel` (`carousel.dfy`): the slider. `curSlide` is what the arrows step
  from; `displayed` is the slide last passed to `changeSlide`. A dot click calls
  `changeSlide` without updating `curSlide`, so the two can differ, and the next
  arrow press steps from `curSlide` as if the dot had never been clicked
  (`DotClickForgotten`, `DotThenRight`).
- `Modal` (`modal.dfy`): the dialog and its backdrop, each with its own
  `hidden` flag, kept equal by every handler.
- `Tabs` (`tabs.dfy`): the tab container's delegated click handler.
- `Observer`, `Reveal`, `Sticky` (`observer.dfy`): the two IntersectionObserver
  callbacks, with an entry reduced to its target and its `isIntersecting` flag.
  Both callbacks destructure `[entry]` and so read only the first entry of a
  batch; the model does the same, and `LaterEntryIgnored` shows that an
  intersecting entry later in a batch reveals nothing.
- `Page` (`page.dfy`): the whole page, its load, one transition per event and
  runs of events.

When a page has no slides, `changeSlide(0)` at load finds no dot and
dereferences `null`, so the script stops there: the listeners registered
before that point (dialog, tabs, observers) work, those after it (slider
buttons, arrow keys, dot container) are never registered. `Carousel.Init`
returns `None` in that case and `Page` keeps the slider absent. Every other
slider operation is defined on the states `Init` produces and the handlers
preserve (`Carousel.Valid`): both indices in range, one dot per slide labelled
with its index, exactly the displayed slide's dot active.

## Model

| member | source | states |
|---|---|---|
| Marked.FirstWithKey | script.js:225 | the element a selector finds is the first in document order carrying the key; None exactly when no element carries it |
| Marked.ActivateAt | script.js:89-93 | after clearing the class everywhere and adding it to the clicked element, exactly that element is active and the list's keys are untouched |
| Marked.ActivateKey | script.js:223-226 | after clearing and re-marking by lookup, an element is active exactly when it is the one the lookup finds; none is when the lookup fails |
| Marked.ActivateKeyDistinct | script.js:223-226 | with distinct keys, the active elements are exactly those carrying the requested key |
| Carousel.CreateDots | script.js:213-219 | one inactive dot per slide, and looking up any in-range slide index finds that slide's own dot while any other value finds none |
| Carousel.Offsets | script.js:229 | the shown slide sits at offset 0, and a slide is to the left of it exactly when its index is smaller |
| Carousel.OffsetsNeighbours | script.js:229 | consecutive slides are exactly 100 apart |
| Carousel.OffsetsUnique | script.js:229 | any offsets with the shown slide at 0 and neighbours 100 apart are the ones changeSlide sets, i.e. slide i is at (i - s) * 100 |
| Carousel.ChangeSlide | script.js:223-231 | the throw on a missing dot happens exactly when no dot has the index; on a built slider that is exactly an out-of-range index, and otherwise the result is a built slider showing that slide, with exactly that slide's dot active and curSlide unchanged |
| Carousel.Init | script.js:209-232 | loading fails exactly when there are no slides; otherwise the slider starts at slide 0, shown and stepped from alike |
| Carousel.StepsAreModular | script.js:235-244 | within range, the right step's index is (curSlide + 1) mod maxSlide and the left step's is (curSlide - 1 + maxSlide) mod maxSlide |
| Carousel.StepsInverse | script.js:235-244 | both step indices stay in range and each undoes the other |
| Carousel.RightSlide | script.js:234-240 | keeps the slider well formed, moves curSlide to (curSlide + 1) mod maxSlide and shows that slide |
| Carousel.LeftSlide | script.js:242-247 | keeps the slider well formed, moves curSlide to (curSlide - 1 + maxSlide) mod maxSlide and shows that slide |
| Carousel.DotClick | script.js:260-266 | a click on a dot shows that dot's slide and leaves curSlide unchanged; a click beside the dots changes nothing |
| Carousel.ValidDetermined | script.js:223-231 | everything rendered by the slider is fixed by the slide count, curSlide and the displayed slide |
| Carousel.LeftRightInverse | script.js:234-247 | a left step undoes a right step and vice versa; when the displayed slide is curSlide the whole slider is restored |
| Carousel.RightTimes | script.js:234-240 | any number of right presses keeps the slider well formed, leaves curSlide k right-step indices on, and shows that slide |
| Carousel.NextTimesIndex | script.js:235-236 | within one full turn, k right steps from c land on (c + k) mod maxSlide |
| Carousel.RightWrapsAround | script.js:234-240 | maxSlide right presses return curSlide to its start, and restore the whole slider when it was showing curSlide |
| Carousel.DotClickForgotten | script.js:260-265 | the right and left steps after a dot click give exactly the slider they would have given without it |
| Carousel.ThreeRightPresses | script.js:232-240 | with three slides, three right presses show slides 1, 2, 0 and end with dot 0 active |
| Carousel.DotThenRight | script.js:260-265 | with three slides, clicking dot 2 then right shows slide 1, not slide 0 |
| Modal.Open | script.js:19-23 | the dialog and the backdrop are both shown afterwards |
| Modal.Close | script.js:25-28 | the dialog and the backdrop are both hidden afterwards |
| Modal.Escape | script.js:35-39 | Escape leaves a hidden dialog alone and closes a shown one; from an agreeing state the result is closed or unchanged |
| Modal.OpenCloseIdempotent | script.js:19-39 | opening, closing and Escape each have the same effect applied twice as once |
| Modal.HandlersKeepConsistent | script.js:19-39 | every dialog handler keeps the dialog and backdrop flags equal |
| Modal.EscapeOnlyWhenShown | script.js:35-39 | Escape changes the state exactly when the dialog is shown, and then acts as the close button |
| Tabs.Click | script.js:82-98 | a click outside every tab changes nothing; a click on a tab leaves exactly that tab active and exactly the pane its data-tab looks up active, with no element added or renamed |
| Tabs.ClickShowsNamedPane | script.js:93-96 | with distinct pane suffixes, the active panes after a tab click are exactly those whose suffix is the tab's data-tab, so exactly one when such a pane exists |
| Tabs.ClickIdempotent | script.js:82-98 | clicking the same place twice is clicking it once |
| Tabs.ClickForgetsHistory | script.js:88-96 | the classes after a tab click do not depend on which tab and pane were active before |
| Reveal.Setup | script.js:174-177 | at load every section is hidden and observed |
| Reveal.RevealSection | script.js:162-167 | a non-intersecting first entry changes nothing; an intersecting one un-hides and unobserves its target only; nothing is hidden again and "observed exactly while hidden" is kept |
| Reveal.OnlyFirstEntryRead | script.js:162 | the callback's effect is that of the batch's first entry alone |
| Reveal.LaterEntryIgnored | script.js:162-164 | a hidden section reported intersecting after a non-intersecting first entry stays hidden |
| Reveal.RevealAllMonotone | script.js:162-167 | over any series of callbacks no revealed section is hidden again and tracking is kept |
| Reveal.RevealedOnlyByEntry | script.js:164-166 | a section hidden at the start is revealed after a series of callbacks only if some batch's first entry reported it intersecting |
| Sticky.StickyNav | script.js:142-147 | the nav is sticky exactly when the header entry is not intersecting, whatever it was before |
| Sticky.StickyNavIdempotent | script.js:142-147 | reporting the same header batch twice changes nothing the second time |
| Page.Load | script.js:169-232 | once the script has loaded, every section is hidden, the slider starts at slide 0 and exists exactly when there are slides, and the page invariants hold |
| Page.Step | script.js:30-266 | every handler keeps the page invariants and the node lists, never hides a revealed section, never moves curSlide on a dot click, and touches only its own component |
| Page.ArrowKeysAreButtons | script.js:249-258 | ArrowRight and ArrowLeft have exactly the effect of the right and left buttons, and other keys besides Escape change nothing |
| Page.Run | script.js:30-266 | any sequence of events keeps the page invariants and node lists |
| Page.RunKeepsRevealed | script.js:162-177 | no sequence of events hides a revealed section again |

## Left out

- Smooth scrolling (script.js:43-78): `scrollIntoView` is a browser side effect with no state to model.
- Nav link hover fading (script.js:102-127): it only sets floating-point opacities on the hovered link's siblings and the logo; nothing is read back.
- Lazy image loading (script.js:180-202): swapping `src` is a network fetch and the `lazy-img` class is removed by an asynchronous `load` event.
- Observer geometry (thresholds, root margins, bounding boxes, script.js:141-156, 169-172): an entry is reduced to its target and `isIntersecting`.
- DOM querying, markup insertion, `preventDefault` and the `console.log` at script.js:255: host plumbing.
- The transform strings: an offset is the integer percentage inside `translateX(...%)`.
- The dot's `data-slide` reaches `changeSlide` as a string; arithmetic and the attribute selector treat it as the number it spells, so it is an integer here.
- The initial `hidden` classes of the dialog and backdrop and the absence of `sticky` come from the markup, which is not part of this model; `Page.Load` takes them as hidden and not sticky. The tab panel's initial classes are a parameter of `Page.Load`.
- A tab naming no pane makes the tab handler throw after the classes were cleared and the tab marked; `Tabs.Click` returns that state and does not separately record the exception.
- Carousel.NextTimesIndex: the closed form (c + k) mod maxSlide is proved for up to one full turn (k <= maxSlide), which is what the wrap-around law needs; longer runs are not stated.
