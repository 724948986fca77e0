/**
 The operations tab panel. Each `.operations__tab` button names a content pane
 through its `data-tab` attribute; pane `x` is the element with class
 `operations__content--x`. Clicks are handled once, on the tab container.
 */
module Tabs {
  import opened Marked

  /** A tab button: its `data-tab` value and whether it carries `operations__tab--active`. */
  type Tab = Item<string>

  /** A content pane: the suffix of its `operations__content--` class and whether it carries `operations__content--active`. */
  type Pane = Item<string>

  datatype TabPanel = TabPanel(tabs: seq<Tab>, panes: seq<Pane>)

  /** Where a click in the container landed: inside the tab at a position (found by `closest`), or outside every tab. */
  datatype Target = OutsideTabs | InTab(index: nat)

  predicate Hits(p: TabPanel, t: Target) {
    t.InTab? ==> t.index < |p.tabs|
  }

  /** The pane a tab names: the first, in document order, whose suffix is its `data-tab`. */
  function PaneOf(p: TabPanel, k: nat): Option<nat>
    requires k < |p.tabs|
  {
    FirstWithKey(p.panes, p.tabs[k].key)
  }

  /**
   The container's click handler. Outside every tab it returns at the guard.
   Otherwise every tab and pane loses its active class, then the clicked tab
   and the pane it names gain theirs. If no pane is named by the tab the
   handler throws on `null`; the classes are as they were at that point.
   */
  function Click(p: TabPanel, t: Target): (r: TabPanel)
    requires Hits(p, t)
    ensures t.OutsideTabs? ==> r == p
    ensures SameKeys(p.tabs, r.tabs) && SameKeys(p.panes, r.panes)
    ensures t.InTab? ==> ActiveExactly(r.tabs, t.index)
    ensures t.InTab? ==> forall i :: 0 <= i < |r.panes| ==> (r.panes[i].active <==> PaneOf(p, t.index) == Some(i))
  {
    match t
    case OutsideTabs => p
    case InTab(k) => TabPanel(ActivateAt(p.tabs, k), ActivateKey(p.panes, p.tabs[k].key))
  }

  /**
   With distinct pane suffixes, the pane shown after a tab click is exactly the
   one whose suffix is the tab's `data-tab`; when some pane has that suffix,
   it is the only active one.
   */
  lemma ClickShowsNamedPane(p: TabPanel, k: nat)
    requires k < |p.tabs|
    requires DistinctKeys(p.panes)
    ensures forall i :: 0 <= i < |p.panes| ==> (Click(p, InTab(k)).panes[i].active <==> p.panes[i].key == p.tabs[k].key)
    ensures forall j :: 0 <= j < |p.panes| && p.panes[j].key == p.tabs[k].key ==> ActiveExactly(Click(p, InTab(k)).panes, j)
  {
    ActivateKeyDistinct(p.panes, p.tabs[k].key);
  }

  /** Clicking the same place twice is clicking it once. */
  lemma ClickIdempotent(p: TabPanel, t: Target)
    requires Hits(p, t)
    ensures Click(Click(p, t), t) == Click(p, t)
  {
    if t.InTab? {
      var q := Click(p, t);
      assert q.tabs[t.index].key == p.tabs[t.index].key;
      ActivateAtIdempotent(p.tabs, t.index);
      ActivateKeyIdempotent(p.panes, p.tabs[t.index].key);
    }
  }

  /** After a click on a tab, what is active depends only on which tab was clicked, not on what was active before. */
  lemma ClickForgetsHistory(p: TabPanel, q: TabPanel, k: nat)
    requires k < |p.tabs|
    requires SameKeys(p.tabs, q.tabs) && SameKeys(p.panes, q.panes)
    ensures Click(p, InTab(k)) == Click(q, InTab(k))
  {
    var a, b := Click(p, InTab(k)), Click(q, InTab(k));
    SameKeysFind(p.panes, q.panes, p.tabs[k].key);
    assert a.tabs == b.tabs by {
      forall i | 0 <= i < |a.tabs| ensures a.tabs[i] == b.tabs[i] {
        assert a.tabs[i].key == p.tabs[i].key == q.tabs[i].key == b.tabs[i].key;
      }
    }
    assert a.panes == b.panes by {
      forall i | 0 <= i < |a.panes| ensures a.panes[i] == b.panes[i] {
        assert a.panes[i].key == p.panes[i].key == q.panes[i].key == b.panes[i].key;
      }
    }
  }
}
