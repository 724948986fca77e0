/**
 The two scroll effects driven by IntersectionObserver callbacks. The
 observer's geometry (thresholds, root margins, bounding boxes) is not
 modelled: an entry says only which element it is about and whether it is
 intersecting. Both callbacks destructure their argument as `[entry]`, so they
 read the first entry of a batch and nothing else.
 */
module Observer {

  /** An IntersectionObserverEntry: its target (a position in the observed node list) and `isIntersecting`. */
  datatype Entry = Entry(target: nat, isIntersecting: bool)

  /** A batch as the platform delivers it: never empty. */
  predicate Delivered(entries: seq<Entry>) {
    |entries| >= 1
  }
}

/**
 The section reveal effect: every `.section` starts hidden and observed; the
 first time it is reported intersecting it is un-hidden and no longer observed.
 */
module Reveal {
  import opened Observer

  datatype Section = Section(hidden: bool, observed: bool)

  /** A section is observed exactly as long as it is hidden. */
  predicate Tracked(secs: seq<Section>) {
    forall i :: 0 <= i < |secs| ==> (secs[i].hidden <==> secs[i].observed)
  }

  /** What is revealed stays revealed: nothing hidden in `after` was visible in `before`. */
  predicate StaysRevealed(before: seq<Section>, after: seq<Section>) {
    |before| == |after| && forall i :: 0 <= i < |before| ==> (!before[i].hidden ==> !after[i].hidden)
  }

  /** The `sections.forEach` at load: observe every section and add `section--hidden`. */
  function Setup(secs: seq<Section>): (r: seq<Section>)
    ensures |r| == |secs| && Tracked(r)
    ensures forall i :: 0 <= i < |r| ==> r[i].hidden
  {
    seq(|secs|, i requires 0 <= i < |secs| => Section(true, true))
  }

  /**
   revealSection: a non-intersecting first entry returns at the guard;
   otherwise its target loses `section--hidden` and is unobserved.
   */
  function RevealSection(secs: seq<Section>, entries: seq<Entry>): (r: seq<Section>)
    requires Delivered(entries) && entries[0].target < |secs|
    ensures !entries[0].isIntersecting ==> r == secs
    ensures StaysRevealed(secs, r)
    ensures entries[0].isIntersecting ==> !r[entries[0].target].hidden && !r[entries[0].target].observed
    ensures forall i :: 0 <= i < |secs| && i != entries[0].target ==> r[i] == secs[i]
    ensures Tracked(secs) ==> Tracked(r)
  {
    var entry := entries[0];
    if !entry.isIntersecting then secs
    else secs[entry.target := Section(false, false)]
  }

  /** Only the first entry of a batch is read. */
  lemma OnlyFirstEntryRead(secs: seq<Section>, entries: seq<Entry>)
    requires Delivered(entries) && entries[0].target < |secs|
    ensures RevealSection(secs, entries) == RevealSection(secs, entries[..1])
  {
  }

  /**
   A batch whose first entry is a non-intersecting one leaves every section as
   it was, even when a later entry of the same batch reports another section
   intersecting: that section stays hidden until the observer reports it again.
   */
  lemma LaterEntryIgnored(secs: seq<Section>, first: nat, later: nat)
    requires first < |secs| && later < |secs| && secs[later].hidden
    ensures RevealSection(secs, [Entry(first, false), Entry(later, true)])[later].hidden
  {
  }

  /** The effect of a series of callbacks on the sections. */
  function RevealAll(secs: seq<Section>, batches: seq<seq<Entry>>): (r: seq<Section>)
    requires forall b :: 0 <= b < |batches| ==> Delivered(batches[b]) && batches[b][0].target < |secs|
    ensures |r| == |secs|
    decreases |batches|
  {
    if |batches| == 0 then secs
    else RevealAll(RevealSection(secs, batches[0]), batches[1..])
  }

  /** However many callbacks run, no revealed section is hidden again and tracking is kept. */
  lemma {:induction false} RevealAllMonotone(secs: seq<Section>, batches: seq<seq<Entry>>)
    requires forall b :: 0 <= b < |batches| ==> Delivered(batches[b]) && batches[b][0].target < |secs|
    ensures StaysRevealed(secs, RevealAll(secs, batches))
    ensures Tracked(secs) ==> Tracked(RevealAll(secs, batches))
    decreases |batches|
  {
    if |batches| > 0 {
      var next := RevealSection(secs, batches[0]);
      RevealAllMonotone(next, batches[1..]);
    }
  }

  /** A section is revealed after a series of callbacks only if it was already, or some first entry reported it intersecting. */
  lemma {:induction false} RevealedOnlyByEntry(secs: seq<Section>, batches: seq<seq<Entry>>, i: nat)
    requires forall b :: 0 <= b < |batches| ==> Delivered(batches[b]) && batches[b][0].target < |secs|
    requires i < |secs| && secs[i].hidden
    requires !RevealAll(secs, batches)[i].hidden
    ensures exists b :: 0 <= b < |batches| && batches[b][0] == Entry(i, true)
    decreases |batches|
  {
    var next := RevealSection(secs, batches[0]);
    if next[i].hidden {
      RevealedOnlyByEntry(next, batches[1..], i);
      var b :| 0 <= b < |batches[1..]| && batches[1..][b][0] == Entry(i, true);
      assert batches[b + 1][0] == Entry(i, true);
    } else {
      assert batches[0][0] == Entry(i, true);
    }
  }
}

/**
 The sticky navigation bar: the header is observed, and the nav carries
 `sticky` exactly while the reported header entry is not intersecting.
 */
module Sticky {
  import opened Observer

  /** stickyNav: the new class state is read off the first entry; the old one plays no part. */
  function StickyNav(sticky: bool, entries: seq<Entry>): (r: bool)
    requires Delivered(entries)
    ensures r <==> !entries[0].isIntersecting
  {
    if !entries[0].isIntersecting then true else false
  }

  /** Reporting the same batch twice changes nothing the second time. */
  lemma StickyNavIdempotent(sticky: bool, entries: seq<Entry>)
    requires Delivered(entries)
    ensures StickyNav(StickyNav(sticky, entries), entries) == StickyNav(sticky, entries)
  {
  }
}
