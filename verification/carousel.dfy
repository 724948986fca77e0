/**
 The slider of section 3. `curSlide` is the index the right/left buttons and
 arrow keys step from; `displayed` is the argument of the last `changeSlide`
 call, which decides the active dot and the slides' horizontal offsets. The
 two differ after a dot click, which calls `changeSlide` without touching
 `curSlide`. changeSlide rewrites every slide's transform from its argument
 alone, so the offsets are not stored: they are `Offsets(maxSlide, displayed)`.
 */
module Carousel {
  import opened Marked

  /** A `dots__dot` button: its `data-slide` index and whether it carries `dots__dot--active`. */
  type Dot = Item<int>

  datatype Slider = Slider(
    maxSlide: nat,       // slides.length, fixed when the script loads
    curSlide: int,       // the script's `let curSlide`
    displayed: int,      // the slide index last passed to changeSlide
    dots: seq<Dot>)      // the buttons inside the dot container, in document order

  /** A click inside the dot container: on the dot at a position, or on the container itself. */
  datatype DotTarget = OnDot(index: nat) | OffDot

  /**
   The states the slider can be in once it has been built: a slide index in
   range for both counters, one dot per slide labelled with its index, and
   exactly the displayed slide's dot active.
   */
  ghost predicate Valid(st: Slider) {
    && st.maxSlide >= 1
    && 0 <= st.curSlide < st.maxSlide
    && 0 <= st.displayed < st.maxSlide
    && |st.dots| == st.maxSlide
    && LabelledByIndex(st.dots)
    && ActiveExactly(st.dots, st.displayed)
  }

  /** The buttons stand still and the slides move in step: what the arrows promise. */
  ghost predicate Synced(st: Slider) {
    st.displayed == st.curSlide
  }

  /** createDots: one inactive button per slide, `data-slide` running over the slide indices. */
  function CreateDots(n: nat): (dots: seq<Dot>)
    ensures |dots| == n && NoneActive(dots)
    ensures forall s :: 0 <= s < n ==> FirstWithKey(dots, s) == Some(s)
    ensures forall s :: !(0 <= s < n) ==> FirstWithKey(dots, s) == None
  {
    var dots := seq(n, i requires 0 <= i < n => Item(i, false));
    assert forall s :: 0 <= s < n ==> FirstWithKey(dots, s) == Some(s) by {
      forall s | 0 <= s < n { FindLabelledDot(dots, s); }
    }
    assert forall s :: !(0 <= s < n) ==> FirstWithKey(dots, s) == None by {
      forall s | !(0 <= s < n) { FindLabelledDot(dots, s); }
    }
    dots
  }

  ghost predicate LabelledByIndex(dots: seq<Dot>) {
    forall i :: 0 <= i < |dots| ==> dots[i].key == i
  }

  /** When every dot carries its own position, the dot found for `s` is dot `s`, if there is one. */
  lemma FindLabelledDot(dots: seq<Dot>, s: int)
    ensures LabelledByIndex(dots) ==> FirstWithKey(dots, s) == if 0 <= s < |dots| then Some(s) else None
  {
    if LabelledByIndex(dots) && 0 <= s < |dots| {
      assert dots[s].key == s;
    }
  }

  /**
   The translateX percentages changeSlide gives the slides: the shown slide
   sits at 0, slides before it to the left, slides after it to the right, one
   full width apart.
   */
  function Offsets(n: nat, s: int): (r: seq<int>)
    ensures |r| == n
    ensures 0 <= s < n ==> r[s] == 0
    ensures forall i :: 0 <= i < n ==> (r[i] < 0 <==> i < s) && (r[i] == 0 <==> i == s)
  {
    seq(n, i requires 0 <= i < n => (i - s) * 100)
  }

  /** Neighbouring slides are one full width apart. */
  lemma OffsetsNeighbours(n: nat, s: int, i: int)
    requires 0 <= i < n - 1
    ensures Offsets(n, s)[i + 1] - Offsets(n, s)[i] == 100
  {
  }

  /** The offsets are the only ones with the shown slide at 0 and neighbours one width apart. */
  lemma {:induction false} OffsetsUnique(n: nat, s: int, r: seq<int>)
    requires 0 <= s < n && |r| == n
    requires r[s] == 0
    requires forall i :: 0 <= i < n - 1 ==> r[i + 1] - r[i] == 100
    ensures r == Offsets(n, s)
  {
    forall i | 0 <= i < n
      ensures r[i] == (i - s) * 100
    {
      OffsetAt(n, s, r, i);
    }
  }

  lemma {:induction false} OffsetAt(n: nat, s: int, r: seq<int>, i: int)
    requires 0 <= s < n && |r| == n
    requires r[s] == 0
    requires forall i :: 0 <= i < n - 1 ==> r[i + 1] - r[i] == 100
    requires 0 <= i < n
    ensures r[i] == (i - s) * 100
    decreases if i < s then s - i else i - s
  {
    if i < s {
      OffsetAt(n, s, r, i + 1);
    } else if i > s {
      OffsetAt(n, s, r, i - 1);
    }
  }

  /**
   changeSlide(s): position the slides for `s`, then activeDot(s). activeDot
   clears every dot and looks up `.dots__dot[data-slide="s"]`; when there is
   no such dot it dereferences `null` and the script throws (None).
   */
  function ChangeSlide(st: Slider, s: int): (r: Option<Slider>)
    ensures r.None? <==> forall i :: 0 <= i < |st.dots| ==> st.dots[i].key != s
    ensures r.Some? ==> r.value.curSlide == st.curSlide && r.value.maxSlide == st.maxSlide
    ensures Valid(st) ==> (r.Some? <==> 0 <= s < st.maxSlide)
    ensures Valid(st) && r.Some? ==> Valid(r.value) && r.value.displayed == s
  {
    FindLabelledDot(st.dots, s);
    match FirstWithKey(st.dots, s)
    case None => None
    case Some(_) =>
      Some(st.(displayed := s, dots := ActivateKey(st.dots, s)))
  }

  /**
   The slider as the script leaves it after loading: curSlide 0, the dots
   created, then changeSlide(0). With no slides there is no dot for 0 and the
   script stops there (None).
   */
  function Init(n: nat): (r: Option<Slider>)
    ensures r.None? <==> n == 0
    ensures r.Some? ==> Valid(r.value) && r.value.maxSlide == n
    ensures r.Some? ==> r.value.curSlide == 0 && Synced(r.value)
  {
    // `displayed` is set by the first changeSlide.
    var built := Slider(n, 0, 0, CreateDots(n));
    ChangeSlide(built, 0)
  }

  /** The index rightSlide moves to: wrap from the last slide to the first, else one on. */
  function Next(cur: int, n: int): int {
    if cur == n - 1 then 0 else cur + 1
  }

  /** The index leftSlide moves to: wrap from the first slide to the last, else one back. */
  function Prev(cur: int, n: int): int {
    if cur == 0 then n - 1 else cur - 1
  }

  /** Within range, the two steps are successor and predecessor modulo the slide count. */
  lemma StepsAreModular(cur: int, n: int)
    requires 0 <= cur < n
    ensures Next(cur, n) == (cur + 1) % n
    ensures Prev(cur, n) == (cur - 1 + n) % n
  {
  }

  /** Each step undoes the other. */
  lemma StepsInverse(cur: int, n: int)
    requires 0 <= cur < n
    ensures 0 <= Next(cur, n) < n && 0 <= Prev(cur, n) < n
    ensures Prev(Next(cur, n), n) == cur && Next(Prev(cur, n), n) == cur
  {
  }

  /** rightSlide (right button, ArrowRight). */
  function RightSlide(st: Slider): (r: Slider)
    requires Valid(st)
    ensures Valid(r) && Synced(r) && r.maxSlide == st.maxSlide
    ensures r.curSlide == Next(st.curSlide, st.maxSlide) == (st.curSlide + 1) % st.maxSlide
  {
    StepsAreModular(st.curSlide, st.maxSlide);
    var cur := Next(st.curSlide, st.maxSlide);
    ChangeSlide(st.(curSlide := cur), cur).value
  }

  /** leftSlide (left button, ArrowLeft). */
  function LeftSlide(st: Slider): (r: Slider)
    requires Valid(st)
    ensures Valid(r) && Synced(r) && r.maxSlide == st.maxSlide
    ensures r.curSlide == Prev(st.curSlide, st.maxSlide) == (st.curSlide - 1 + st.maxSlide) % st.maxSlide
  {
    StepsAreModular(st.curSlide, st.maxSlide);
    var cur := Prev(st.curSlide, st.maxSlide);
    ChangeSlide(st.(curSlide := cur), cur).value
  }

  /** The dot container's click handler: a dot shows its slide; curSlide is left alone. */
  function DotClick(st: Slider, t: DotTarget): (r: Slider)
    requires Valid(st)
    requires t.OnDot? ==> t.index < |st.dots|
    ensures Valid(r) && r.maxSlide == st.maxSlide && r.curSlide == st.curSlide
    ensures t.OnDot? ==> r.displayed == t.index
    ensures t.OffDot? ==> r == st
  {
    match t
    case OffDot => st
    case OnDot(k) => ChangeSlide(st, st.dots[k].key).value
  }

  /** Everything rendered is a function of the slide count and the two indices. */
  lemma ValidDetermined(a: Slider, b: Slider)
    requires Valid(a) && Valid(b)
    requires a.maxSlide == b.maxSlide && a.curSlide == b.curSlide && a.displayed == b.displayed
    ensures a == b
  {
    forall i | 0 <= i < |a.dots|
      ensures a.dots[i] == b.dots[i]
    {
    }
  }

  /** leftSlide undoes rightSlide, and rightSlide undoes leftSlide; fully so when nothing was shown by a dot. */
  lemma LeftRightInverse(st: Slider)
    requires Valid(st)
    ensures LeftSlide(RightSlide(st)).curSlide == st.curSlide
    ensures RightSlide(LeftSlide(st)).curSlide == st.curSlide
    ensures Synced(st) ==> LeftSlide(RightSlide(st)) == st && RightSlide(LeftSlide(st)) == st
  {
    StepsInverse(st.curSlide, st.maxSlide);
    if Synced(st) {
      ValidDetermined(LeftSlide(RightSlide(st)), st);
      ValidDetermined(RightSlide(LeftSlide(st)), st);
    }
  }

  /** The slider after `k` presses of the right button: curSlide has taken `k` steps of Next, and the slides follow it. */
  function RightTimes(st: Slider, k: nat): (r: Slider)
    requires Valid(st)
    ensures Valid(r) && r.maxSlide == st.maxSlide
    ensures r.curSlide == NextTimes(st.curSlide, st.maxSlide, k)
    ensures k > 0 ==> Synced(r)
    decreases k
  {
    if k == 0 then st else RightSlide(RightTimes(st, k - 1))
  }

  /** The index after `k` steps of Next from `c`. */
  function NextTimes(c: int, n: int, k: nat): int
    decreases k
  {
    if k == 0 then c else Next(NextTimes(c, n, k - 1), n)
  }

  /** Up to one full turn, `k` steps of Next move `k` slides on, wrapping past the last slide. */
  lemma {:induction false} NextTimesIndex(c: int, n: int, k: nat)
    requires 0 <= c < n && k <= n
    ensures NextTimes(c, n, k) == (c + k) % n
  {
    if k == 0 {
      ModBelow(c, n);
    } else {
      NextTimesIndex(c, n, k - 1);
      var x := c + (k - 1);
      assert 0 <= x % n < n;
      StepsAreModular(x % n, n);
      WrapStep(x, n);
      assert x + 1 == c + k;
    }
  }

  /** A full turn of Next comes back to the start. */
  lemma NextTimesFullTurn(c: int, n: int)
    requires 0 <= c < n
    ensures NextTimes(c, n, n) == c
  {
    NextTimesIndex(c, n, n);
    ModOnce(c + n, n);
  }

  /** One step on from any index reached within the first turn: `(x mod n + 1) mod n == (x + 1) mod n`. */
  lemma WrapStep(x: int, n: int)
    requires 0 <= x < 2 * n
    ensures (x % n + 1) % n == (x + 1) % n
  {
    if x + 1 < n {
      ModBelow(x, n);
      ModBelow(x + 1, n);
    } else if x + 1 == n {
      ModBelow(x, n);
      ModOnce(x + 1, n);
    } else if x + 1 < 2 * n {
      ModOnce(x, n);
      ModOnce(x + 1, n);
      ModBelow(x + 1 - n, n);
    } else {
      ModOnce(x, n);
      ModBelow(0, n);
    }
  }

  lemma ModBelow(x: int, n: int)
    requires 0 <= x < n
    ensures x % n == x
  {
  }

  lemma ModOnce(x: int, n: int)
    requires 0 < n <= x < 2 * n
    ensures x % n == x - n
  {
    var q, r := x / n, x % n;
    assert x == q * n + r;
  }

  /** Pressing right as many times as there are slides comes back to the starting slide. */
  lemma RightWrapsAround(st: Slider)
    requires Valid(st)
    ensures RightTimes(st, st.maxSlide).curSlide == st.curSlide
    ensures Synced(st) ==> RightTimes(st, st.maxSlide) == st
  {
    NextTimesFullTurn(st.curSlide, st.maxSlide);
    if Synced(st) {
      ValidDetermined(RightTimes(st, st.maxSlide), st);
    }
  }

  /**
   A dot click is forgotten by the next step: the arrows and buttons move from
   curSlide, which the click did not change, not from the slide it showed.
   */
  lemma DotClickForgotten(st: Slider, t: DotTarget)
    requires Valid(st)
    requires t.OnDot? ==> t.index < |st.dots|
    ensures RightSlide(DotClick(st, t)) == RightSlide(st)
    ensures LeftSlide(DotClick(st, t)) == LeftSlide(st)
  {
    ValidDetermined(RightSlide(DotClick(st, t)), RightSlide(st));
    ValidDetermined(LeftSlide(DotClick(st, t)), LeftSlide(st));
  }

  /** Three slides: right three times shows 1, 2, 0 and ends with dot 0 active. */
  lemma ThreeRightPresses()
    ensures Init(3).Some?
    ensures RightTimes(Init(3).value, 1).displayed == 1
    ensures RightTimes(Init(3).value, 2).displayed == 2
    ensures RightTimes(Init(3).value, 3).displayed == 0
    ensures RightTimes(Init(3).value, 3).dots[0].active
  {
  }

  /** Three slides: clicking dot 2 and then right shows slide 1, not slide 0. */
  lemma DotThenRight()
    ensures Init(3).Some?
    ensures DotClick(Init(3).value, OnDot(2)).displayed == 2
    ensures RightSlide(DotClick(Init(3).value, OnDot(2))).displayed == 1
  {
  }
}
