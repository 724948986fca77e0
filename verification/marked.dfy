/**
 The page script keeps three node lists whose elements it marks "active" by a
 CSS class: the carousel dots, the tabs and the tab content panes. Each element
 is looked up by a data attribute (a dot's `data-slide`, a tab's `data-tab`, a
 pane's class suffix). This module models such a list as a sequence of items
 and the three things the script does to it: clear the class on every element
 (`forEach(... classList.remove ...)`), add it to one known element, and add it
 to the first element found by a selector (`querySelector`).
 */
module Marked {

  datatype Option<+T> = None | Some(value: T)

  /** One element of a node list: the attribute it is found by, and whether it carries the active class. */
  datatype Item<K> = Item(key: K, active: bool)

  /** `t` is `s` with possibly different active classes: same length, same keys in the same order. */
  ghost predicate SameKeys<K>(s: seq<Item<K>>, t: seq<Item<K>>) {
    |s| == |t| && forall i :: 0 <= i < |s| ==> s[i].key == t[i].key
  }

  /** Exactly the element at position `j` is active (and so none is when `j` is out of range). */
  predicate ActiveExactly<K>(s: seq<Item<K>>, j: int) {
    forall i :: 0 <= i < |s| ==> (s[i].active <==> i == j)
  }

  predicate NoneActive<K>(s: seq<Item<K>>) {
    forall i :: 0 <= i < |s| ==> !s[i].active
  }

  ghost predicate DistinctKeys<K>(s: seq<Item<K>>) {
    forall i, j :: 0 <= i < j < |s| ==> s[i].key != s[j].key
  }

  /** `querySelector`: the position of the first element, in document order, whose key is `k`; None is the `null` it returns. */
  function FirstWithKey<K(==)>(s: seq<Item<K>>, k: K): (r: Option<nat>)
    ensures r.Some? ==> r.value < |s| && s[r.value].key == k
    ensures r.Some? ==> forall i :: 0 <= i < r.value ==> s[i].key != k
    ensures r.None? <==> forall i :: 0 <= i < |s| ==> s[i].key != k
    decreases |s|
  {
    if |s| == 0 then None
    else if s[0].key == k then Some(0)
    else
      match FirstWithKey(s[1..], k)
      case None => None
      case Some(i) => Some(i + 1)
  }

  /** With distinct keys, the element found for `k` is the only one carrying `k`. */
  lemma FirstWithKeyDistinct<K>(s: seq<Item<K>>, k: K, j: nat)
    requires DistinctKeys(s)
    requires j < |s|
    ensures FirstWithKey(s, k) == Some(j) <==> s[j].key == k
  {
  }

  /** `forEach(e => e.classList.remove(active))`. */
  function ClearAll<K>(s: seq<Item<K>>): (r: seq<Item<K>>)
    ensures SameKeys(s, r)
    ensures NoneActive(r)
  {
    seq(|s|, i requires 0 <= i < |s| => s[i].(active := false))
  }

  /** Clear the class everywhere, then add it to the element at position `j` (a clicked element the handler already holds). */
  function ActivateAt<K>(s: seq<Item<K>>, j: nat): (r: seq<Item<K>>)
    requires j < |s|
    ensures SameKeys(s, r)
    ensures ActiveExactly(r, j)
  {
    var c := ClearAll(s);
    c[j := c[j].(active := true)]
  }

  /**
   Clear the class everywhere, then add it to the element `querySelector` finds
   for key `k`. When nothing is found the script dereferences `null` and throws
   at that point; the list is left with every element cleared.
   */
  function ActivateKey<K(==)>(s: seq<Item<K>>, k: K): (r: seq<Item<K>>)
    ensures SameKeys(s, r)
    ensures forall i :: 0 <= i < |r| ==> (r[i].active <==> FirstWithKey(s, k) == Some(i))
  {
    var c := ClearAll(s);
    match FirstWithKey(s, k)
    case None => c
    case Some(j) => c[j := c[j].(active := true)]
  }

  /** With distinct keys, activating `k` marks exactly the elements whose key is `k`: one if `k` occurs, none otherwise. */
  lemma ActivateKeyDistinct<K>(s: seq<Item<K>>, k: K)
    requires DistinctKeys(s)
    ensures forall i :: 0 <= i < |s| ==> (ActivateKey(s, k)[i].active <==> s[i].key == k)
  {
    forall i | 0 <= i < |s|
      ensures ActivateKey(s, k)[i].active <==> s[i].key == k
    {
      FirstWithKeyDistinct(s, k, i);
    }
  }

  /** The state after activation depends only on the keys, so activating twice is activating once. */
  lemma ActivateAtIdempotent<K>(s: seq<Item<K>>, j: nat)
    requires j < |s|
    ensures ActivateAt(ActivateAt(s, j), j) == ActivateAt(s, j)
  {
    var a := ActivateAt(s, j);
    var b := ActivateAt(a, j);
    assert |a| == |b|;
    forall i | 0 <= i < |a|
      ensures a[i] == b[i]
    {
      assert a[i].key == s[i].key == b[i].key;
    }
  }

  lemma ActivateKeyIdempotent<K>(s: seq<Item<K>>, k: K)
    ensures ActivateKey(ActivateKey(s, k), k) == ActivateKey(s, k)
  {
    var a := ActivateKey(s, k);
    var b := ActivateKey(a, k);
    SameKeysFind(s, a, k);
    forall i | 0 <= i < |a|
      ensures a[i] == b[i]
    {
      assert a[i].key == s[i].key == b[i].key;
    }
  }

  /** Lookup reads only keys, so lists with the same keys give the same answer. */
  lemma SameKeysFind<K>(s: seq<Item<K>>, t: seq<Item<K>>, k: K)
    requires SameKeys(s, t)
    ensures FirstWithKey(s, k) == FirstWithKey(t, k)
  {
  }
}
